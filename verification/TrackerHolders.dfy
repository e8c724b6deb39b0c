/** The tracker against a plain record of who holds what. The reference machine keeps only
    the live names, the hashes KVBM holds and the hashes offered downstream; it counts no
    sources. The two agree exactly as long as every call is clean. */
module KvTrackerHolders {
  import opened Outcome
  import opened Lineage
  import opened KvTracker
  import opened KvTrackerCalls

  /** What each source says it has: engines by name, KVBM also by hash. */
  datatype Claims = Claims(names: map<Name, Plh>, kvbm: set<Plh>)

  datatype Ref = Ref(claims: Claims, offered: set<Plh>, log: seq<Event>)

  const NOBODY := Ref(Claims(map[], {}), {}, [])

  ghost predicate Names(k: Claims, source: Source, hash: Plh) {
    exists name <- k.names :: name.source == source && k.names[name] == hash
  }

  ghost predicate Holds(k: Claims, source: Source, hash: Plh) {
    Names(k, source, hash) || (source == Kvbm && hash in k.kvbm)
  }

  ghost function Holders(k: Claims, hash: Plh): set<Source> {
    set source: Source | Holds(k, source, hash)
  }

  function Unname(k: Claims, name: Name): Claims {
    k.(names := k.names - {name})
  }

  function Rename(k: Claims, name: Name, hash: Plh): Claims {
    k.(names := k.names[name := hash])
  }

  /** A hash offered for the first time is announced. */
  ghost function Offer(r: Ref, k: Claims, hash: Plh, event: Option<Event>): Ref {
    if event.Some? && hash !in r.offered then Ref(k, r.offered + {hash}, r.log + [event.value]) else r.(claims := k)
  }

  /** An offered hash nobody holds any more is withdrawn. */
  ghost function Settle(r: Ref, k: Claims, hash: Plh, source: Source): Ref {
    if hash in r.offered && Holders(k, hash) == {} then Ref(k, r.offered - {hash}, r.log + [Removed(hash, source)])
    else r.(claims := k)
  }

  /** The hash a store is for, if it can be hashed. */
  ghost function StoreFor(h: Hasher, names: map<Name, Plh>, c: Call): Option<Plh>
    requires c.Store?
  {
    if !Hashable(h, c.tokens, c.blockSize, c.lora) then None
    else Some(Meant(h, names, c.source, c.parent, c.tokens, c.blockSize, c.lora))
  }

  ghost function RefStep(h: Hasher, r: Ref, c: Call): Ref {
    var k := r.claims;
    match c
    case Store(source, external, _, tokens, blockSize, lora) =>
      var name := Name(source, external);
      (match StoreFor(h, k.names, c)
       case None => r
       case Some(hash) =>
         if name in k.names && k.names[name] == hash then r
         else
           var r' := if name in k.names then Settle(r, Unname(k, name), k.names[name], source) else r;
           Offer(r', Rename(k, name, hash), hash, Some(Stored(hash, tokens, blockSize, lora, source))))
    case Remove(source, external) =>
      var name := Name(source, external);
      if name in k.names then Settle(r, Unname(k, name), k.names[name], source) else r
    case KvbmStore(hash, tokens, blockSize, lora) =>
      Offer(r, k.(kvbm := k.kvbm + {hash}), hash,
            if |tokens| > 0 && blockSize > 0 then Some(Stored(hash, tokens, blockSize, lora, Kvbm)) else None)
    case KvbmRemove(hash) => Settle(r, k.(kvbm := k.kvbm - {hash}), hash, Kvbm)
    case ClearAll => Ref(Claims(map[], {}), {}, r.log + [ClearedAll])
    case Drain => r
  }

  /** A call under which a source that lets go of a hash has no other claim to it, and a
      source that moves a name keeps another claim to the old hash. A caller can check this
      from the live claims before the call. */
  ghost predicate Clean(h: Hasher, k: Claims, c: Call) {
    match c
    case Store(source, external, _, _, _, _) =>
      var name, resolved := Name(source, external), StoreFor(h, k.names, c);
      resolved.Some? && name in k.names && k.names[name] != resolved.value ==>
        Holds(Unname(k, name), source, k.names[name])
    case Remove(source, external) =>
      var name := Name(source, external);
      name in k.names ==> !Holds(Unname(k, name), source, k.names[name])
    case KvbmRemove(hash) => !Names(k, Kvbm, hash)
    case _ => true
  }

  /** The block map is the holder relation: present iff held, its sources the holders. */
  ghost predicate BlocksAgree(blocks: map<Plh, BlockState>, k: Claims, offered: set<Plh>) {
    forall hash: Plh ::
      && (hash in blocks <==> Holders(k, hash) != {})
      && (hash in blocks ==> blocks[hash] == BlockState(Holders(k, hash), hash in offered))
  }

  /** Only held hashes are offered, and every named hash is. */
  ghost predicate OffersSound(k: Claims, offered: set<Plh>) {
    && (forall hash <- offered :: Holders(k, hash) != {})
    && (forall name <- k.names :: k.names[name] in offered)
  }

  ghost predicate Agree(s: State, r: Ref) {
    && s.names == r.claims.names
    && s.Log() == r.log
    && BlocksAgree(s.blocks, r.claims, r.offered)
    && OffersSound(r.claims, r.offered)
  }

  // ---- How claims move holders ----

  /** `k'` differs from `k` at most in whether `source` holds `hash`. */
  ghost predicate MovesOnly(k: Claims, k': Claims, source: Source, hash: Plh) {
    && (forall other: Plh | other != hash :: Holders(k', other) == Holders(k, other))
    && Holders(k', hash) - {source} == Holders(k, hash) - {source}
  }

  lemma UnnameMoves(k: Claims, name: Name)
    requires name in k.names
    ensures MovesOnly(k, Unname(k, name), name.source, k.names[name])
    ensures name.source in Holders(k, k.names[name])
  {
    var k' := Unname(k, name);
    forall hash, source | Holds(k, source, hash) && !(hash == k.names[name] && source == name.source)
      ensures Holds(k', source, hash)
    {
      if Names(k, source, hash) {
        var other :| other in k.names && other.source == source && k.names[other] == hash;
        assert other in k'.names;
      }
    }
    assert Holds(k, name.source, k.names[name]);
  }

  lemma RenameMoves(k: Claims, name: Name, hash: Plh)
    requires name !in k.names
    ensures MovesOnly(k, Rename(k, name, hash), name.source, hash)
    ensures name.source in Holders(Rename(k, name, hash), hash)
  {
    var k' := Rename(k, name, hash);
    assert Unname(k', name).names == k.names;
    UnnameMoves(k', name);
  }

  lemma KvbmMoves(k: Claims, kvbm: set<Plh>, hash: Plh)
    requires kvbm == k.kvbm + {hash} || kvbm == k.kvbm - {hash}
    ensures MovesOnly(k, k.(kvbm := kvbm), Kvbm, hash)
    ensures Kvbm in Holders(k.(kvbm := kvbm), hash) <==> hash in kvbm || Names(k, Kvbm, hash)
  {
    assert forall source, other :: Names(k.(kvbm := kvbm), source, other) <==> Names(k, source, other);
  }

  // ---- Steps ----

  /** Adding a source on both sides keeps the block map in agreement. */
  lemma HoldBlocks(s: State, k: Claims, k': Claims, offered: set<Plh>, source: Source, hash: Plh, event: Option<Event>)
    requires BlocksAgree(s.blocks, k, offered) && MovesOnly(k, k', source, hash) && source in Holders(k', hash)
    requires forall other <- offered :: Holders(k, other) != {}
    ensures BlocksAgree(Hold(s, source, hash, event).0.blocks, k', offered + if event.Some? then {hash} else {})
  {
    assert (if hash in s.blocks then s.blocks[hash].sources else {}) == Holders(k, hash);
    assert Holders(k', hash) == (Holders(k', hash) - {source}) + {source};
    assert Holders(k, hash) + {source} == (Holders(k, hash) - {source}) + {source};
  }

  lemma HoldAgrees(s: State, r: Ref, k': Claims, source: Source, hash: Plh, event: Option<Event>)
    requires BlocksAgree(s.blocks, r.claims, r.offered) && s.names == k'.names && s.Log() == r.log
    requires forall other <- r.offered :: Holders(r.claims, other) != {}
    requires MovesOnly(r.claims, k', source, hash) && source in Holders(k', hash)
    requires forall name <- k'.names :: k'.names[name] in r.offered || (event.Some? && k'.names[name] == hash)
    ensures Agree(Hold(s, source, hash, event).0, Offer(r, k', hash, event))
  {
    HoldBlocks(s, r.claims, k', r.offered, source, hash, event);
    var s', r' := Hold(s, source, hash, event).0, Offer(r, k', hash, event);
    assert r'.offered == r.offered + if event.Some? then {hash} else {};
    assert s'.Log() == r'.log;
    assert Holders(k', hash) != {};
  }

  /** Dropping a source keeps the block map in agreement exactly if the source let go. */
  lemma ReleaseBlocks(s: State, r: Ref, k': Claims, source: Source, hash: Plh)
    requires BlocksAgree(s.blocks, r.claims, r.offered) && MovesOnly(r.claims, k', source, hash)
    ensures var s', r' := Release(s, source, hash).0, Settle(r, k', hash, source);
            BlocksAgree(s'.blocks, k', r'.offered) <==> source !in Holders(k', hash)
  {
    var s', r' := Release(s, source, hash).0, Settle(r, k', hash, source);
    if source !in Holders(k', hash) {
      assert Holders(k', hash) == Holders(r.claims, hash) - {source};
    } else {
      assert hash in s'.blocks ==> source !in s'.blocks[hash].sources;
    }
  }

  lemma ReleaseAgrees(s: State, r: Ref, k': Claims, source: Source, hash: Plh)
    requires BlocksAgree(s.blocks, r.claims, r.offered) && s.names == k'.names && s.Log() == r.log
    requires forall other <- r.offered :: Holders(r.claims, other) != {}
    requires MovesOnly(r.claims, k', source, hash)
    requires forall name <- k'.names :: k'.names[name] in r.offered
    ensures Agree(Release(s, source, hash).0, Settle(r, k', hash, source)) <==> source !in Holders(k', hash)
  {
    ReleaseBlocks(s, r, k', source, hash);
    var s', r' := Release(s, source, hash).0, Settle(r, k', hash, source);
    if source !in Holders(k', hash) {
      assert Holders(k', hash) == Holders(r.claims, hash) - {source};
      assert s'.Log() == r'.log;
      forall name <- k'.names ensures k'.names[name] in r'.offered {
        assert Holds(k', name.source, k'.names[name]);
        assert name.source in Holders(k', k'.names[name]);
      }
    }
  }

  /** A store that moves a name off the only claim its source had leaves the tracker with a
      source the reference no longer has. */
  lemma RenameDisagrees(h: Hasher, s: State, r: Ref, c: Call)
    requires c.Store? && Agree(s, r) && !Clean(h, r.claims, c)
    ensures !Agree(Step(h, s, c).0, RefStep(h, r, c))
  {
    var k, name := r.claims, Name(c.source, c.external);
    ResolveIsMeant(h, k.names, c);
    var gone, hash := k.names[name], StoreFor(h, k.names, c).value;
    var freed := Unname(k, name);
    UnnameMoves(k, name);
    RenameMoves(freed, name, hash);
    assert Rename(freed, name, hash).names == Rename(k, name, hash).names;
    assert RefStep(h, r, c).claims == Rename(freed, name, hash);
    assert c.source !in Holders(RefStep(h, r, c).claims, gone);
    assert gone in s.blocks && Step(h, s, c).0.blocks[gone] == s.blocks[gone];
  }

  /** Moving a name off a hash its source still holds is only the new claim. */
  lemma CleanRename(r: Ref, name: Name, hash: Plh)
    requires name in r.claims.names
    requires name.source in Holders(Unname(r.claims, name), r.claims.names[name])
    ensures var k, freed := r.claims, Unname(r.claims, name);
            && MovesOnly(k, Rename(k, name, hash), name.source, hash)
            && name.source in Holders(Rename(k, name, hash), hash)
            && Settle(r, freed, k.names[name], name.source) == r.(claims := freed)
  {
    var k, freed := r.claims, Unname(r.claims, name);
    UnnameMoves(k, name);
    RenameMoves(freed, name, hash);
    assert Rename(freed, name, hash).names == Rename(k, name, hash).names;
    assert Holders(freed, k.names[name]) == Holders(k, k.names[name]);
  }

  lemma StoreAgrees(h: Hasher, s: State, r: Ref, c: Call)
    requires c.Store? && Agree(s, r) && Clean(h, r.claims, c)
    ensures Agree(Step(h, s, c).0, RefStep(h, r, c))
  {
    var k, name := r.claims, Name(c.source, c.external);
    ResolveIsMeant(h, k.names, c);
    var resolved := StoreFor(h, k.names, c);
    if resolved.Some? && !(name in k.names && k.names[name] == resolved.value) {
      var hash := resolved.value;
      var event := Some(Stored(hash, c.tokens, c.blockSize, c.lora, c.source));
      var k' := Rename(k, name, hash);
      if name in k.names {
        CleanRename(r, name, hash);
        assert Offer(r.(claims := Unname(k, name)), k', hash, event) == Offer(r, k', hash, event);
      } else {
        RenameMoves(k, name, hash);
      }
      HoldAgrees(s.(names := s.names[name := hash]), r, k', c.source, hash, event);
    }
  }

  /** From an agreeing pair, the tracker and the reference agree after a call, in their
      blocks and in every event queued, if and only if the call is clean. */
  lemma StepAgrees(h: Hasher, s: State, r: Ref, c: Call)
    requires Agree(s, r)
    ensures Agree(Step(h, s, c).0, RefStep(h, r, c)) <==> Clean(h, r.claims, c)
  {
    var k := r.claims;
    match c
    case Store(_, _, _, _, _, _) =>
      if Clean(h, k, c) { StoreAgrees(h, s, r, c); } else { RenameDisagrees(h, s, r, c); }
    case Remove(source, external) =>
      var name := Name(source, external);
      if name in k.names {
        UnnameMoves(k, name);
        ReleaseAgrees(s.(names := s.names - {name}), r, Unname(k, name), source, k.names[name]);
      }
    case KvbmStore(hash, tokens, blockSize, lora) =>
      KvbmMoves(k, k.kvbm + {hash}, hash);
      HoldAgrees(s, r, k.(kvbm := k.kvbm + {hash}), Kvbm, hash,
                 if Publishable(tokens, blockSize) then Some(Stored(hash, tokens, blockSize, lora, Kvbm)) else None);
    case KvbmRemove(hash) =>
      KvbmMoves(k, k.kvbm - {hash}, hash);
      ReleaseAgrees(s, r, k.(kvbm := k.kvbm - {hash}), Kvbm, hash);
    case ClearAll =>
      NobodyHolds();
      assert Step(h, s, c).0.Log() == RefStep(h, r, c).log;
    case Drain => assert Step(h, s, c).0.Log() == s.Log();
  }

  lemma NobodyHolds()
    ensures forall hash :: Holders(Claims(map[], {}), hash) == {}
  {
    forall hash ensures Holders(Claims(map[], {}), hash) == {} {
      assert forall source: Source :: !Names(Claims(map[], {}), source, hash);
    }
  }

  /** The reference logs a removal exactly for a hash it stops offering. */
  lemma RefRemoves(h: Hasher, r: Ref, c: Call, hash: Plh)
    requires OffersSound(r.claims, r.offered) && Clean(h, r.claims, c) && !c.ClearAll?
    ensures (exists source :: RefStep(h, r, c).log == r.log + [Removed(hash, source)]) <==>
            hash in r.offered && hash !in RefStep(h, r, c).offered
  {
    var r' := RefStep(h, r, c);
    if source :| r'.log == r.log + [Removed(hash, source)] {
      assert r'.log[|r.log|] == Removed(hash, source);
    }
    if hash in r.offered && hash !in r'.offered {
      var source := if c.Remove? then c.source else Kvbm;
      assert r'.log == r.log + [Removed(hash, source)];
    }
  }

  /** Under clean calls a removal is queued exactly for an offered hash that loses its last
      holder (a clear withdraws everything with one event of its own). */
  lemma RemoveOnLastHolder(h: Hasher, s: State, r: Ref, c: Call, hash: Plh)
    requires Agree(s, r) && Clean(h, r.claims, c) && !c.ClearAll?
    ensures (exists source :: Step(h, s, c).0.Log() == s.Log() + [Removed(hash, source)]) <==>
            hash in s.blocks && s.blocks[hash].published && Holders(RefStep(h, r, c).claims, hash) == {}
  {
    StepAgrees(h, s, r, c);
    RefRemoves(h, r, c, hash);
    if hash in r.offered {
      OfferedUntilLast(h, r, c, hash);
    }
  }

  /** Between clears, an offered hash is offered exactly as long as someone holds it. */
  lemma OfferedUntilLast(h: Hasher, r: Ref, c: Call, hash: Plh)
    requires !c.ClearAll? && hash in r.offered && OffersSound(RefStep(h, r, c).claims, RefStep(h, r, c).offered)
    ensures hash in RefStep(h, r, c).offered <==> Holders(RefStep(h, r, c).claims, hash) != {}
  {
  }

  // ---- Runs ----

  ghost function RefRun(h: Hasher, calls: seq<Call>): Ref {
    if calls == [] then NOBODY else RefStep(h, RefRun(h, calls[..|calls| - 1]), calls[|calls| - 1])
  }

  ghost predicate CleanRun(h: Hasher, calls: seq<Call>) {
    calls == [] || (CleanRun(h, calls[..|calls| - 1]) &&
      Clean(h, RefRun(h, calls[..|calls| - 1]).claims, calls[|calls| - 1]))
  }

  /** Agreement at the end of a run and at every earlier point of it. */
  ghost predicate AgreeThroughout(h: Hasher, calls: seq<Call>) {
    Agree(Run(h, calls), RefRun(h, calls)) && (calls == [] || AgreeThroughout(h, calls[..|calls| - 1]))
  }

  /** The tracker agrees with the reference all through a run if and only if every call of
      the run is clean. */
  lemma {:induction false} RunAgrees(h: Hasher, calls: seq<Call>)
    ensures AgreeThroughout(h, calls) <==> CleanRun(h, calls)
  {
    if calls == [] {
      EmptyAgrees();
    } else {
      var before := calls[..|calls| - 1];
      RunAgrees(h, before);
      if AgreeThroughout(h, before) {
        StepAgrees(h, Run(h, before), RefRun(h, before), calls[|calls| - 1]);
      }
    }
  }

  /** After a run of clean calls a block is present iff some source holds its hash, its
      sources are exactly the holders, and every live name leads to a present block. */
  lemma CleanRunHolders(h: Hasher, calls: seq<Call>)
    requires CleanRun(h, calls)
    ensures var s, k := Run(h, calls), RefRun(h, calls).claims;
            && s.names == k.names
            && s.Log() == RefRun(h, calls).log
            && (forall hash :: hash in s.blocks <==> exists source :: Holds(k, source, hash))
            && (forall hash <- s.blocks, source :: source in s.blocks[hash].sources <==> Holds(k, source, hash))
            && (forall name <- s.names :: s.names[name] in s.blocks && name.source in s.blocks[s.names[name]].sources)
  {
    RunAgrees(h, calls);
    var s, k := Run(h, calls), RefRun(h, calls).claims;
    forall hash ensures hash in s.blocks <==> exists source :: Holds(k, source, hash) {
      if source :| Holds(k, source, hash) {
        assert source in Holders(k, hash);
      } else {
        assert Holders(k, hash) == {};
      }
    }
    forall name <- s.names ensures s.names[name] in s.blocks && name.source in s.blocks[s.names[name]].sources {
      assert Holds(k, name.source, s.names[name]);
    }
  }

  lemma EmptyAgrees()
    ensures Agree(EMPTY, NOBODY)
  {
    NobodyHolds();
  }

  // ---- Why clean calls are needed ----

  /** A root block stored under one name. */
  function RootStore(source: Source, external: string, tokens: seq<nat>, blockSize: nat): Call {
    Store(source, external, None, tokens, blockSize, None)
  }

  /** The names lead to one hash, which the source alone holds, on both sides. */
  ghost predicate OneHeld(s: State, r: Ref, names: map<Name, Plh>, source: Source, hash: Plh) {
    && s.names == names == r.claims.names
    && s.blocks == map[hash := BlockState({source}, true)]
  }

  lemma RootStored(h: Hasher, s: State, r: Ref, source: Source, external: string, tokens: seq<nat>, blockSize: nat,
                   hash: Plh)
    requires ComputePlh(h, None, tokens, blockSize, None) == Some(hash) && s.names == r.claims.names
    requires Name(source, external) !in s.names
    requires s.blocks == map[] || s.blocks == map[hash := BlockState({source}, true)]
    ensures var c := RootStore(source, external, tokens, blockSize);
            OneHeld(Step(h, s, c).0, RefStep(h, r, c), s.names[Name(source, external) := hash], source, hash)
  {
    var c := RootStore(source, external, tokens, blockSize);
    ResolveIsMeant(h, s.names, c);
    assert {source} + {source} == {source} && {} + {source} == {source};
    assert Step(h, s, c).0.blocks == s.blocks[hash := BlockState({source}, true)];
    assert s.blocks[hash := BlockState({source}, true)] == map[hash := BlockState({source}, true)];
  }

  lemma TwoNames(h: Hasher, source: Source, a: string, b: string, tokens: seq<nat>, blockSize: nat, hash: Plh)
    requires a != b && ComputePlh(h, None, tokens, blockSize, None) == Some(hash)
    ensures var calls := [RootStore(source, a, tokens, blockSize), RootStore(source, b, tokens, blockSize)];
            var names := map[Name(source, a) := hash, Name(source, b) := hash];
            OneHeld(Run(h, calls), RefRun(h, calls), names, source, hash)
  {
    var storeA, storeB := RootStore(source, a, tokens, blockSize), RootStore(source, b, tokens, blockSize);
    RunOne(h, [], storeA);
    RunOne(h, [storeA], storeB);
    assert [] + [storeA] == [storeA] && [storeA] + [storeB] == [storeA, storeB];
    RootStored(h, EMPTY, NOBODY, source, a, tokens, blockSize, hash);
    RootStored(h, Run(h, [storeA]), RefRun(h, [storeA]), source, b, tokens, blockSize, hash);
  }

  /** Removing one of two names: the other still claims the hash, and the block is gone. */
  lemma OneNameRemoved(h: Hasher, s: State, r: Ref, source: Source, a: string, b: string, hash: Plh)
    requires a != b
    requires OneHeld(s, r, map[Name(source, a) := hash, Name(source, b) := hash], source, hash)
    ensures var s', r' := Step(h, s, Remove(source, a)).0, RefStep(h, r, Remove(source, a));
            && !Clean(h, r.claims, Remove(source, a)) && Holds(r'.claims, source, hash)
            && s'.names == map[Name(source, b) := hash] && s'.blocks == map[]
  {
    var left := Unname(r.claims, Name(source, a));
    assert Name(source, b) in left.names && left.names[Name(source, b)] == hash;
    assert Holds(left, source, hash);
    assert {source} - {source} == {};
  }

  /** The run that stores one block under two names, removes the first name and stores the
      second again: the second name still claims the hash, yet the tracker has no block for
      it, and the last store is swallowed as a repeat. */
  lemma SecondNameIsLost(h: Hasher, source: Source, a: string, b: string, tokens: seq<nat>, blockSize: nat)
    requires a != b && ComputePlh(h, None, tokens, blockSize, None).Some?
    ensures var hash := ComputePlh(h, None, tokens, blockSize, None).value;
            var storeA, storeB := RootStore(source, a, tokens, blockSize), RootStore(source, b, tokens, blockSize);
            var calls := [storeA, storeB, Remove(source, a)];
            && !CleanRun(h, calls)
            && Holds(RefRun(h, calls).claims, source, hash)
            && hash !in Run(h, calls).blocks
            && Step(h, Run(h, calls), storeB) == (Run(h, calls), false)
  {
    var hash := ComputePlh(h, None, tokens, blockSize, None).value;
    var stores := [RootStore(source, a, tokens, blockSize), RootStore(source, b, tokens, blockSize)];
    TwoNames(h, source, a, b, tokens, blockSize, hash);
    OneNameRemoved(h, Run(h, stores), RefRun(h, stores), source, a, b, hash);
    RunOne(h, stores, Remove(source, a));
    assert stores + [Remove(source, a)] == [stores[0], stores[1], Remove(source, a)];
    ResolveIsMeant(h, Run(h, stores + [Remove(source, a)]).names, stores[1]);
  }

  lemma RunOne(h: Hasher, calls: seq<Call>, c: Call)
    ensures Run(h, calls + [c]) == Step(h, Run(h, calls), c).0
    ensures RefRun(h, calls + [c]) == RefStep(h, RefRun(h, calls), c)
    ensures CleanRun(h, calls + [c]) <==> CleanRun(h, calls) && Clean(h, RefRun(h, calls).claims, c)
  {
    assert (calls + [c])[..|calls|] == calls;
  }
}
