/** The consolidator's tracker: which sources hold each block, and the store and remove
    events it queues for the router. */
module KvTracker {
  import opened Outcome
  import opened Lineage

  datatype Source = Vllm | Trtllm | Kvbm

  datatype Event =
    | Stored(hash: Plh, tokens: seq<nat>, blockSize: nat, lora: Option<string>, source: Source)
    | Removed(hash: Plh, source: Source)
    | ClearedAll

  datatype BlockState = BlockState(sources: set<Source>, published: bool)

  /** A source's own opaque name for a block. */
  datatype Name = Name(source: Source, external: string)

  /** The tracker's fields, plus every event already drained. */
  datatype State = State(
    blocks: map<Plh, BlockState>,
    names: map<Name, Plh>,
    queue: seq<Event>,
    drained: seq<Event>)
  {
    /** Every event ever queued, oldest first. */
    function Log(): seq<Event> {
      drained + queue
    }

    function Queue(e: Event): State {
      this.(queue := queue + [e])
    }
  }

  const EMPTY := State(map[], map[], [], [])

  datatype Call =
    | Store(source: Source, external: string, parent: Option<string>, tokens: seq<nat>, blockSize: nat,
            lora: Option<string>)
    | Remove(source: Source, external: string)
    | KvbmStore(hash: Plh, tokens: seq<nat>, blockSize: nat, lora: Option<string>)
    | KvbmRemove(hash: Plh)
    | ClearAll
    | Drain

  /** An unknown parent name counts as no parent. */
  function ParentOf(names: map<Name, Plh>, source: Source, parent: Option<string>): Option<Plh> {
    if parent.Some? && Name(source, parent.value) in names
    then Some(names[Name(source, parent.value)]) else None
  }

  /** The hash a named store resolves to, when its input can be hashed. */
  function Resolve(h: Hasher, names: map<Name, Plh>, c: Call): Option<Plh>
    requires c.Store?
  {
    ComputePlh(h, ParentOf(names, c.source, c.parent), c.tokens, c.blockSize, c.lora)
  }

  function Publishable(tokens: seq<nat>, blockSize: nat): bool {
    tokens != [] && blockSize > 0
  }

  /** Adds `source` to the block at `hash`; `event` is queued if the block was not published. */
  function Hold(s: State, source: Source, hash: Plh, event: Option<Event>): (State, bool) {
    var known := hash in s.blocks;
    var sources := (if known then s.blocks[hash].sources else {}) + {source};
    var published := known && s.blocks[hash].published;
    var s' := s.(blocks := s.blocks[hash := BlockState(sources, published || event.Some?)]);
    if event.Some? && !published then (s'.Queue(event.value), true) else (s', false)
  }

  /** Drops `source` from the block at `hash`; the last source takes the block with it. */
  function Release(s: State, source: Source, hash: Plh): (State, bool) {
    if hash !in s.blocks then (s, false)
    else
      var sources := s.blocks[hash].sources - {source};
      if sources != {} then (s.(blocks := s.blocks[hash := s.blocks[hash].(sources := sources)]), false)
      else
        var s' := s.(blocks := s.blocks - {hash});
        if s.blocks[hash].published then (s'.Queue(Removed(hash, source)), true) else (s', false)
  }

  /** One call to the tracker: the new state and the returned flag. */
  function Step(h: Hasher, s: State, c: Call): (State, bool) {
    match c
    case Store(source, external, parent, tokens, blockSize, lora) =>
      var name := Name(source, external);
      (match Resolve(h, s.names, c)
       case None => (s, false)
       case Some(hash) =>
         if name in s.names && s.names[name] == hash then (s, false)
         else Hold(s.(names := s.names[name := hash]), source, hash,
                   Some(Stored(hash, tokens, blockSize, lora, source))))
    case Remove(source, external) =>
      var name := Name(source, external);
      if name !in s.names then (s, false)
      else Release(s.(names := s.names - {name}), source, s.names[name])
    case KvbmStore(hash, tokens, blockSize, lora) =>
      Hold(s, Kvbm, hash,
           if Publishable(tokens, blockSize) then Some(Stored(hash, tokens, blockSize, lora, Kvbm)) else None)
    case KvbmRemove(hash) => Release(s, Kvbm, hash)
    case ClearAll => (s.(blocks := map[], names := map[]).Queue(ClearedAll), false)
    case Drain => (s.(queue := [], drained := s.Log()), false)
  }

  /** A whole run of calls from the empty tracker. */
  function Run(h: Hasher, calls: seq<Call>): State {
    if calls == [] then EMPTY
    else Step(h, Run(h, calls[..|calls| - 1]), calls[|calls| - 1]).0
  }

  class Tracker {
    const hasher: Hasher
    var blocks: map<Plh, BlockState>
    var externalToSeq: map<Name, Plh>
    var eventQueue: seq<Event>
    ghost var drained: seq<Event>

    ghost function Model(): State
      reads this
    {
      State(blocks, externalToSeq, eventQueue, drained)
    }

    constructor (hasher: Hasher)
      ensures Model() == EMPTY && this.hasher == hasher
    {
      this.hasher := hasher;
      blocks, externalToSeq, eventQueue, drained := map[], map[], [], [];
    }

    method HandleStore(source: Source, external: string, parent: Option<string>, tokens: seq<nat>, blockSize: nat,
                       lora: Option<string>)
      returns (isNew: bool)
      modifies this
      ensures (Model(), isNew) == Step(hasher, old(Model()), Store(source, external, parent, tokens, blockSize, lora))
    {
      var parentPlh := None;
      if parent.Some? {
        var key := Name(source, parent.value);
        if key in externalToSeq {
          parentPlh := Some(externalToSeq[key]);
        }
      }
      var computed := ComputePlh(hasher, parentPlh, tokens, blockSize, lora);
      if computed.None? {
        return false;
      }
      var plh := computed.value;
      var name := Name(source, external);
      if name in externalToSeq && externalToSeq[name] == plh {
        return false;
      }
      externalToSeq := externalToSeq[name := plh];
      if plh in blocks {
        var state := blocks[plh];
        blocks := blocks[plh := BlockState(state.sources + {source}, true)];
        if !state.published {
          eventQueue := eventQueue + [Stored(plh, tokens, blockSize, lora, source)];
          return true;
        }
        return false;
      }
      assert {} + {source} == {source};
      blocks := blocks[plh := BlockState({source}, true)];
      eventQueue := eventQueue + [Stored(plh, tokens, blockSize, lora, source)];
      return true;
    }

    method HandleRemove(source: Source, external: string) returns (emitted: bool)
      modifies this
      ensures (Model(), emitted) == Step(hasher, old(Model()), Remove(source, external))
    {
      var name := Name(source, external);
      if name !in externalToSeq {
        return false;
      }
      var plh := externalToSeq[name];
      externalToSeq := externalToSeq - {name};
      emitted := DropSource(plh, source);
    }

    /** The tail shared by the two removal paths: forget the source, then the block. */
    method DropSource(plh: Plh, source: Source) returns (emitted: bool)
      modifies this
      ensures (Model(), emitted) == Release(old(Model()), source, plh)
    {
      if plh !in blocks {
        return false;
      }
      var state := blocks[plh];
      var sources := state.sources - {source};
      if sources == {} {
        blocks := blocks - {plh};
        if state.published {
          eventQueue := eventQueue + [Removed(plh, source)];
          return true;
        }
      } else {
        blocks := blocks[plh := BlockState(sources, state.published)];
      }
      return false;
    }

    method HandleKvbmStore(hash: Plh, tokens: seq<nat>, blockSize: nat, lora: Option<string>) returns (isNew: bool)
      modifies this
      ensures (Model(), isNew) == Step(hasher, old(Model()), KvbmStore(hash, tokens, blockSize, lora))
    {
      var publishable := tokens != [] && blockSize > 0;
      if hash in blocks {
        var state := blocks[hash];
        blocks := blocks[hash := BlockState(state.sources + {Kvbm}, state.published || publishable)];
        if publishable && !state.published {
          eventQueue := eventQueue + [Stored(hash, tokens, blockSize, lora, Kvbm)];
          return true;
        }
        return false;
      }
      assert {} + {Kvbm} == {Kvbm};
      blocks := blocks[hash := BlockState({Kvbm}, publishable)];
      if publishable {
        eventQueue := eventQueue + [Stored(hash, tokens, blockSize, lora, Kvbm)];
      }
      return publishable;
    }

    method HandleKvbmRemove(hash: Plh) returns (emitted: bool)
      modifies this
      ensures (Model(), emitted) == Step(hasher, old(Model()), KvbmRemove(hash))
    {
      emitted := DropSource(hash, Kvbm);
    }

    method HandleClearAll()
      modifies this
      ensures Model() == Step(hasher, old(Model()), ClearAll).0
    {
      blocks, externalToSeq := map[], map[];
      eventQueue := eventQueue + [ClearedAll];
    }

    method DrainEvents() returns (events: seq<Event>)
      modifies this
      ensures events == old(eventQueue)
      ensures Model() == Step(hasher, old(Model()), Drain).0
    {
      events := eventQueue;
      drained := drained + eventQueue;
      eventQueue := [];
    }
  }
}
