/** What each call to the tracker does and answers, said without the tracker's own steps: the hash
    a store is for, who holds the block afterwards, and which event, if any, is queued. */
module KvTrackerCalls {
  import opened Outcome
  import opened Lineage
  import opened KvTracker

  /** The tokens are accepted and hold a whole block. */
  ghost predicate Hashable(h: Hasher, tokens: seq<nat>, blockSize: nat, lora: Option<string>) {
    h.accepts(tokens, lora) && 0 < blockSize % U32 <= |tokens|
  }

  /** The source has a live name for the parent it gives. */
  ghost predicate KnowsParent(names: map<Name, Plh>, source: Source, parent: Option<string>) {
    parent.Some? && Name(source, parent.value) in names
  }

  /** The hash a store is for: its first block after the parent, where the source knows that, and
      else at the root. */
  ghost function Meant(h: Hasher, names: map<Name, Plh>, source: Source, parent: Option<string>, tokens: seq<nat>,
                       blockSize: nat, lora: Option<string>): Plh
    requires Hashable(h, tokens, blockSize, lora)
  {
    var block := h.block(tokens[..blockSize % U32], lora);
    if KnowsParent(names, source, parent) then Extend(h, names[Name(source, parent.value)], block) else Root(h, block)
  }

  lemma ResolveIsMeant(h: Hasher, names: map<Name, Plh>, c: Call)
    requires c.Store?
    ensures Resolve(h, names, c).Some? <==> Hashable(h, c.tokens, c.blockSize, c.lora)
    ensures Resolve(h, names, c).Some? ==>
              Resolve(h, names, c).value == Meant(h, names, c.source, c.parent, c.tokens, c.blockSize, c.lora)
  {
    ComputePlhLinks(h, ParentOf(names, c.source, c.parent), c.tokens, c.blockSize, c.lora);
  }

  ghost predicate Published(s: State, hash: Plh) {
    hash in s.blocks && s.blocks[hash].published
  }

  ghost function SourcesOf(s: State, hash: Plh): set<Source> {
    if hash in s.blocks then s.blocks[hash].sources else {}
  }

  /** Every other block is as it was. */
  ghost predicate OthersKept(s: State, s': State, hash: Plh) {
    forall other | other != hash ::
      (other in s'.blocks <==> other in s.blocks) && (other in s.blocks ==> s'.blocks[other] == s.blocks[other])
  }

  // ---- Stores ----

  /** A store that cannot be hashed changes nothing. Any other gives its name the hash it is for;
      if that is news, the source is among the block's, the block is published, and a store is
      queued, and reported, exactly if it was not before. */
  lemma StoreCall(h: Hasher, s: State, source: Source, external: string, parent: Option<string>, tokens: seq<nat>,
                  blockSize: nat, lora: Option<string>)
    ensures var (s', isNew) := Step(h, s, Store(source, external, parent, tokens, blockSize, lora));
            var name := Name(source, external);
            && (!Hashable(h, tokens, blockSize, lora) ==> s' == s && !isNew)
            && (Hashable(h, tokens, blockSize, lora) ==>
                  var hash := Meant(h, s.names, source, parent, tokens, blockSize, lora);
                  var news := name !in s.names || s.names[name] != hash;
                  && s'.names == s.names[name := hash]
                  && (!news ==> s' == s && !isNew)
                  && (news ==> SourcesOf(s', hash) == SourcesOf(s, hash) + {source} && Published(s', hash))
                  && OthersKept(s, s', hash)
                  && (isNew <==> news && !Published(s, hash))
                  && s'.Log() == s.Log() + if isNew then [Stored(hash, tokens, blockSize, lora, source)] else [])
  {
    ResolveIsMeant(h, s.names, Store(source, external, parent, tokens, blockSize, lora));
  }

  /** A store by hash adds KVBM to the block's sources. The block is published if it was or the
      call carries tokens and a block size; a store is queued, and reported, when that is news. */
  lemma KvbmStoreCall(h: Hasher, s: State, hash: Plh, tokens: seq<nat>, blockSize: nat, lora: Option<string>)
    ensures var (s', isNew) := Step(h, s, KvbmStore(hash, tokens, blockSize, lora));
            && s'.names == s.names && OthersKept(s, s', hash)
            && SourcesOf(s', hash) == SourcesOf(s, hash) + {Kvbm}
            && (Published(s', hash) <==> Published(s, hash) || (|tokens| > 0 && blockSize > 0))
            && (isNew <==> !Published(s, hash) && |tokens| > 0 && blockSize > 0)
            && s'.Log() == s.Log() + if isNew then [Stored(hash, tokens, blockSize, lora, Kvbm)] else []
  {
  }

  // ---- Removals ----

  /** `source` lets go of the block at `hash`: it leaves the block's sources, the last one takes the
      block with it, and a removal is queued, and reported, exactly if that block was published. */
  ghost predicate LetsGo(s: State, s': State, emitted: bool, source: Source, hash: Plh) {
    && SourcesOf(s', hash) == SourcesOf(s, hash) - {source}
    && (hash in s'.blocks <==> hash in s.blocks && SourcesOf(s, hash) - {source} != {})
    && (hash in s'.blocks ==> s'.blocks[hash].published == s.blocks[hash].published)
    && OthersKept(s, s', hash)
    && (emitted <==> Published(s, hash) && SourcesOf(s, hash) <= {source})
    && s'.Log() == s.Log() + if emitted then [Removed(hash, source)] else []
  }

  lemma ReleaseLetsGo(s: State, source: Source, hash: Plh)
    ensures LetsGo(s, Release(s, source, hash).0, Release(s, source, hash).1, source, hash)
  {
    assert SourcesOf(s, hash) - {source} == {} <==> SourcesOf(s, hash) <= {source};
  }

  /** A named removal drops the name, if it is live, and its source lets go of the block; else nothing
      happens. */
  lemma RemoveCall(h: Hasher, s: State, source: Source, external: string)
    ensures var (s', emitted) := Step(h, s, Remove(source, external));
            var name := Name(source, external);
            && s'.names == s.names - {name}
            && (name in s.names ==> LetsGo(s, s', emitted, source, s.names[name]))
            && (name !in s.names ==> s' == s && !emitted)
  {
    var name := Name(source, external);
    if name in s.names {
      ReleaseLetsGo(s.(names := s.names - {name}), source, s.names[name]);
    } else {
      assert s.names - {name} == s.names;
    }
  }

  /** A removal by hash: KVBM lets go of the block. */
  lemma KvbmRemoveCall(h: Hasher, s: State, hash: Plh)
    ensures var (s', emitted) := Step(h, s, KvbmRemove(hash));
            s'.names == s.names && LetsGo(s, s', emitted, Kvbm, hash)
  {
    ReleaseLetsGo(s, Kvbm, hash);
  }

  /** A clear leaves no block and no name, and queues one event; draining leaves all as it is, with an
      empty queue. */
  lemma ClearAndDrainCalls(h: Hasher, s: State)
    ensures var s' := Step(h, s, ClearAll).0;
            s'.blocks == map[] && s'.names == map[] && s'.Log() == s.Log() + [ClearedAll]
    ensures var s' := Step(h, s, Drain).0;
            s'.blocks == s.blocks && s'.names == s.names && s'.queue == [] && s'.Log() == s.Log()
  {
  }

  /** The answer of a store or a removal says whether an event was queued. */
  lemma AnswerIffLogged(h: Hasher, s: State, c: Call)
    requires !c.ClearAll? && !c.Drain?
    ensures Step(h, s, c).1 <==> |Step(h, s, c).0.Log()| == |s.Log()| + 1
    ensures !Step(h, s, c).1 <==> Step(h, s, c).0.Log() == s.Log()
  {
    match c
    case Store(source, external, parent, tokens, blockSize, lora) =>
      StoreCall(h, s, source, external, parent, tokens, blockSize, lora);
    case KvbmStore(hash, tokens, blockSize, lora) => KvbmStoreCall(h, s, hash, tokens, blockSize, lora);
    case Remove(source, external) => RemoveCall(h, s, source, external);
    case KvbmRemove(hash) => KvbmRemoveCall(h, s, hash);
  }

  /** So a store under a parent nobody knows is the store of a root block. */
  lemma UnknownParentIsRoot(h: Hasher, source: Source, external: string, parent: string, tokens: seq<nat>,
                            blockSize: nat, lora: Option<string>)
    requires Hashable(h, tokens, blockSize, lora)
    ensures var (s', isNew) := Step(h, EMPTY, Store(source, external, Some(parent), tokens, blockSize, lora));
            var root := Root(h, h.block(tokens[..blockSize % U32], lora));
            isNew && s'.names == map[Name(source, external) := root] &&
              s'.Log() == [Stored(root, tokens, blockSize, lora, source)]
  {
    StoreCall(h, EMPTY, source, external, Some(parent), tokens, blockSize, lora);
  }
}
