/** What every run of the tracker keeps, whatever its callers do: the queued events replay
    to exactly the published blocks, and each engine store extends a hash already stored. */
module KvTrackerReplay {
  import opened Outcome
  import opened Lineage
  import opened KvTracker

  // ---- Replay ----

  /** What a consumer holds after one more event; `None` once a stored hash is stored again
      or an unknown hash is removed. */
  function Consume(live: Option<set<Plh>>, e: Event): Option<set<Plh>> {
    if live.None? then None
    else match e
      case Stored(hash, _, _, _, _) => if hash in live.value then None else Some(live.value + {hash})
      case Removed(hash, _) => if hash !in live.value then None else Some(live.value - {hash})
      case ClearedAll => Some({})
  }

  function Replay(log: seq<Event>): Option<set<Plh>> {
    if log == [] then Some({}) else Consume(Replay(log[..|log| - 1]), log[|log| - 1])
  }

  function Published(s: State): set<Plh> {
    set hash | hash in s.blocks && s.blocks[hash].published
  }

  ghost predicate SourcesSound(s: State) {
    forall hash <- s.blocks ::
      && s.blocks[hash].sources != {}
      && (!s.blocks[hash].published ==> s.blocks[hash].sources == {Kvbm})
  }

  ghost predicate Consistent(s: State) {
    Replay(s.Log()) == Some(Published(s)) && SourcesSound(s)
  }

  lemma ReplayQueue(s: State, e: Event)
    ensures s.Queue(e).Log() == s.Log() + [e]
    ensures Replay(s.Queue(e).Log()) == Consume(Replay(s.Log()), e)
  {
    assert s.Queue(e).Log() == s.Log() + [e];
    assert (s.Log() + [e])[..|s.Log()|] == s.Log();
  }

  lemma HoldPublished(s: State, source: Source, hash: Plh, event: Option<Event>)
    ensures Published(Hold(s, source, hash, event).0) == Published(s) + if event.Some? then {hash} else {}
  {
  }

  lemma HoldSound(s: State, source: Source, hash: Plh, event: Option<Event>)
    requires SourcesSound(s) && (event.None? ==> source == Kvbm)
    ensures SourcesSound(Hold(s, source, hash, event).0)
  {
    var before := if hash in s.blocks then s.blocks[hash].sources else {};
    assert source in before + {source};
    if event.None? && !(hash in s.blocks && s.blocks[hash].published) {
      assert before + {source} == {Kvbm};
    }
  }

  lemma HoldConsistent(s: State, source: Source, hash: Plh, event: Option<Event>)
    requires Consistent(s)
    requires event.Some? ==> event.value.Stored? && event.value.hash == hash
    requires event.None? ==> source == Kvbm
    ensures Consistent(Hold(s, source, hash, event).0)
  {
    var s' := Hold(s, source, hash, event).0;
    HoldSound(s, source, hash, event);
    HoldPublished(s, source, hash, event);
    if event.Some? && !(hash in s.blocks && s.blocks[hash].published) {
      ReplayQueue(s.(blocks := s'.blocks), event.value);
    } else {
      assert Published(s') == Published(s);
      assert s'.Log() == s.Log();
    }
  }

  lemma ReleaseConsistent(s: State, source: Source, hash: Plh)
    requires Consistent(s)
    ensures Consistent(Release(s, source, hash).0)
  {
    var s' := Release(s, source, hash).0;
    if hash in s.blocks && s.blocks[hash].sources - {source} == {} {
      assert Published(s') == Published(s) - {hash};
      if s.blocks[hash].published {
        ReplayQueue(s.(blocks := s'.blocks), Removed(hash, source));
      } else {
        assert Published(s) - {hash} == Published(s);
      }
    } else {
      assert Published(s') == Published(s);
    }
  }

  lemma StepConsistent(h: Hasher, s: State, c: Call)
    requires Consistent(s)
    ensures Consistent(Step(h, s, c).0)
  {
    match c
    case Store(source, external, _, tokens, blockSize, lora) =>
      if Resolve(h, s.names, c).Some? {
        var hash := Resolve(h, s.names, c).value;
        var named := s.(names := s.names[Name(source, external) := hash]);
        assert Published(named) == Published(s);
        HoldConsistent(named, source, hash, Some(Stored(hash, tokens, blockSize, lora, source)));
      }
    case Remove(source, external) =>
      var name := Name(source, external);
      if name in s.names {
        var unnamed := s.(names := s.names - {name});
        assert Published(unnamed) == Published(s);
        ReleaseConsistent(unnamed, source, s.names[name]);
      }
    case KvbmStore(hash, tokens, blockSize, lora) =>
      HoldConsistent(s, Kvbm, hash,
        if Publishable(tokens, blockSize) then Some(Stored(hash, tokens, blockSize, lora, Kvbm)) else None);
    case KvbmRemove(hash) => ReleaseConsistent(s, Kvbm, hash);
    case ClearAll =>
      ReplayQueue(s.(blocks := map[], names := map[]), ClearedAll);
      assert Published(Step(h, s, c).0) == {};
    case Drain => assert Step(h, s, c).0.Log() == s.Log();
  }

  /** In every run the events replay without a duplicate store or a stray remove, to exactly
      the published blocks; every block has a source, and an unpublished one only KVBM. */
  lemma {:induction false} RunConsistent(h: Hasher, calls: seq<Call>)
    ensures Replay(Run(h, calls).Log()) == Some(Published(Run(h, calls)))
    ensures SourcesSound(Run(h, calls))
  {
    if calls == [] {
      assert Published(EMPTY) == {};
    } else {
      RunConsistent(h, calls[..|calls| - 1]);
      StepConsistent(h, Run(h, calls[..|calls| - 1]), calls[|calls| - 1]);
    }
  }

  // ---- Parent chains ----

  /** The hashes stored in a log since it was last cleared. */
  function StoredSinceClear(log: seq<Event>): set<Plh> {
    if log == [] then {}
    else
      var before := StoredSinceClear(log[..|log| - 1]);
      match log[|log| - 1]
      case Stored(hash, _, _, _, _) => before + {hash}
      case Removed(_, _) => before
      case ClearedAll => {}
  }

  /** An engine's stored event is the root of its first block of tokens, or some hash in
      `known` extended by that block. */
  ghost predicate Chained(h: Hasher, known: set<Plh>, e: Event) {
    e.Stored? && e.source != Kvbm ==>
      var width := e.blockSize % U32;
      && 0 < width <= |e.tokens|
      && var blockHash := h.block(e.tokens[..width], e.lora);
      if e.hash.position == 0 then e.hash == Root(h, blockHash)
      else exists parent <- known :: e.hash == Extend(h, parent, blockHash)
  }

  ghost predicate AllChained(h: Hasher, log: seq<Event>) {
    forall i :: 0 <= i < |log| ==> Chained(h, StoredSinceClear(log[..i]), log[i])
  }

  ghost predicate NamesStored(s: State) {
    && Published(s) <= StoredSinceClear(s.Log())
    && forall name <- s.names :: s.names[name] in StoredSinceClear(s.Log())
  }

  lemma ChainAppend(h: Hasher, log: seq<Event>, e: Event)
    requires AllChained(h, log) && Chained(h, StoredSinceClear(log), e)
    ensures AllChained(h, log + [e])
  {
    forall i | 0 <= i < |log + [e]| ensures Chained(h, StoredSinceClear((log + [e])[..i]), (log + [e])[i]) {
      assert (log + [e])[..i] == log[..i];
      if i == |log| {
        assert log[..i] == log;
      } else {
        assert Chained(h, StoredSinceClear(log[..i]), log[i]);
      }
    }
  }

  lemma StoredAppend(log: seq<Event>, e: Event)
    ensures StoredSinceClear(log + [e])
            == if e.ClearedAll? then {} else StoredSinceClear(log) + if e.Stored? then {e.hash} else {}
  {
    assert (log + [e])[..|log|] == log;
  }

  lemma ChainQueue(h: Hasher, s: State, e: Event)
    requires AllChained(h, s.Log())
    requires Chained(h, StoredSinceClear(s.Log()), e)
    ensures AllChained(h, s.Queue(e).Log())
    ensures StoredSinceClear(s.Queue(e).Log())
            == if e.ClearedAll? then {} else StoredSinceClear(s.Log()) + if e.Stored? then {e.hash} else {}
  {
    assert s.Queue(e).Log() == s.Log() + [e];
    ChainAppend(h, s.Log(), e);
    StoredAppend(s.Log(), e);
  }

  lemma ReleaseChained(h: Hasher, s: State, source: Source, hash: Plh)
    requires AllChained(h, s.Log()) && NamesStored(s)
    ensures AllChained(h, Release(s, source, hash).0.Log()) && NamesStored(Release(s, source, hash).0)
  {
    var s' := Release(s, source, hash).0;
    assert Published(s') <= Published(s);
    if hash in s.blocks && s.blocks[hash].sources - {source} == {} && s.blocks[hash].published {
      ChainQueue(h, s.(blocks := s'.blocks), Removed(hash, source));
    }
  }

  lemma HoldChained(h: Hasher, s: State, source: Source, hash: Plh, event: Option<Event>)
    requires AllChained(h, s.Log()) && NamesStored(s)
    requires event.Some? ==> event.value.Stored? && event.value.hash == hash
    requires event.Some? ==> Chained(h, StoredSinceClear(s.Log()), event.value)
    ensures var s' := Hold(s, source, hash, event).0;
            AllChained(h, s'.Log()) && NamesStored(s') && (event.Some? ==> hash in StoredSinceClear(s'.Log()))
  {
    var s' := Hold(s, source, hash, event).0;
    HoldPublished(s, source, hash, event);
    if event.Some? && !(hash in s.blocks && s.blocks[hash].published) {
      ChainQueue(h, s.(blocks := s'.blocks), event.value);
    } else {
      assert s'.Log() == s.Log();
    }
  }

  lemma StoreEventChained(h: Hasher, s: State, c: Call, hash: Plh)
    requires c.Store? && NamesStored(s) && Resolve(h, s.names, c) == Some(hash)
    ensures Chained(h, StoredSinceClear(s.Log()), Stored(hash, c.tokens, c.blockSize, c.lora, c.source))
  {
    ComputePlhLinks(h, ParentOf(s.names, c.source, c.parent), c.tokens, c.blockSize, c.lora);
  }

  lemma StoreChained(h: Hasher, s: State, c: Call)
    requires c.Store? && AllChained(h, s.Log()) && NamesStored(s)
    ensures AllChained(h, Step(h, s, c).0.Log()) && NamesStored(Step(h, s, c).0)
  {
    var s' := Step(h, s, c).0;
    if s' != s {
      var hash := Resolve(h, s.names, c).value;
      var event := Stored(hash, c.tokens, c.blockSize, c.lora, c.source);
      var held := Hold(s, c.source, hash, Some(event)).0;
      StoreEventChained(h, s, c, hash);
      HoldChained(h, s, c.source, hash, Some(event));
      assert s' == held.(names := s'.names);
      assert Published(s') == Published(held);
    }
  }

  lemma StepChained(h: Hasher, s: State, c: Call)
    requires AllChained(h, s.Log()) && NamesStored(s)
    ensures AllChained(h, Step(h, s, c).0.Log()) && NamesStored(Step(h, s, c).0)
  {
    match c
    case Store(_, _, _, _, _, _) => StoreChained(h, s, c);
    case Remove(source, external) =>
      var name := Name(source, external);
      if name in s.names {
        var unnamed := s.(names := s.names - {name});
        assert Published(unnamed) == Published(s);
        ReleaseChained(h, unnamed, source, s.names[name]);
      }
    case KvbmStore(hash, tokens, blockSize, lora) =>
      HoldChained(h, s, Kvbm, hash,
        if Publishable(tokens, blockSize) then Some(Stored(hash, tokens, blockSize, lora, Kvbm)) else None);
    case KvbmRemove(hash) => ReleaseChained(h, s, Kvbm, hash);
    case ClearAll => ChainQueue(h, s.(blocks := map[], names := map[]), ClearedAll);
    case Drain => assert Step(h, s, c).0.Log() == s.Log();
  }

  /** In every run each engine store past the root extends a hash that was itself stored
      earlier since the last clear, even if that hash has been removed in between. */
  lemma {:induction false} RunChained(h: Hasher, calls: seq<Call>)
    ensures AllChained(h, Run(h, calls).Log())
    ensures forall name <- Run(h, calls).names :: Run(h, calls).names[name] in StoredSinceClear(Run(h, calls).Log())
  {
    RunChainedNames(h, calls);
  }

  lemma {:induction false} RunChainedNames(h: Hasher, calls: seq<Call>)
    ensures AllChained(h, Run(h, calls).Log()) && NamesStored(Run(h, calls))
  {
    if calls != [] {
      RunChainedNames(h, calls[..|calls| - 1]);
      StepChained(h, Run(h, calls[..|calls| - 1]), calls[|calls| - 1]);
    }
  }
}
