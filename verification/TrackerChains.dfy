/** Several sources storing one token stream block by block, each under its own names and in
    any interleaving: the hashes are those of the whole stream, each announced once. */
module KvTrackerChains {
  import opened Outcome
  import opened Lineage
  import opened KvTracker

  /** The blocks of a stream, and each source's own name for the i-th of them. */
  datatype Stream = Stream(chunks: seq<seq<nat>>, hashes: seq<Plh>, width: nat, lora: Option<string>,
                           nameOf: (Source, nat) -> string)
  {
    /** The i-th hash is the i-th block under the hash before it. */
    ghost predicate Linked(h: Hasher, i: nat)
      requires i < |chunks| == |hashes|
    {
      && |chunks[i]| == width
      && h.accepts(chunks[i], lora)
      && hashes[i].position == i
      && hashes[i] == Next(h, if i == 0 then None else Some(hashes[i - 1]), h.block(chunks[i], lora))
    }

    /** Each hash is its block under the hash before it; a source's names are distinct. */
    ghost predicate Valid(h: Hasher) {
      && 0 < width < U32
      && |hashes| == |chunks|
      && (forall i | 0 <= i < |chunks| :: Linked(h, i))
      && (forall source, i, j :: nameOf(source, i) == nameOf(source, j) ==> i == j)
    }

    function Name(source: Source, i: nat): Name {
      KvTracker.Name(source, nameOf(source, i))
    }
  }

  /** How many blocks each source has stored. */
  datatype Progress = Progress(vllm: nat, trtllm: nat, kvbm: nat)
  {
    function Of(source: Source): nat {
      match source case Vllm => vllm case Trtllm => trtllm case Kvbm => kvbm
    }

    function Advance(source: Source): Progress {
      match source
      case Vllm => this.(vllm := vllm + 1)
      case Trtllm => this.(trtllm := trtllm + 1)
      case Kvbm => this.(kvbm := kvbm + 1)
    }

    /** How far the furthest source has got. */
    function Deepest(): nat {
      var engines := if vllm < trtllm then trtllm else vllm;
      if engines < kvbm then kvbm else engines
    }
  }

  function ProgressOf(schedule: seq<Source>): Progress {
    if schedule == [] then Progress(0, 0, 0)
    else ProgressOf(schedule[..|schedule| - 1]).Advance(schedule[|schedule| - 1])
  }

  /** `source` stores its i-th block under its own name for the block before it. */
  function StoreNth(t: Stream, source: Source, i: nat): Call
    requires i < |t.chunks|
  {
    Store(source, t.nameOf(source, i), if i == 0 then None else Some(t.nameOf(source, i - 1)), t.chunks[i], t.width,
          t.lora)
  }

  /** The calls of a schedule: at each turn a source stores the next block it has not stored. */
  function Calls(t: Stream, schedule: seq<Source>): seq<Call>
    requires ProgressOf(schedule).Deepest() <= |t.chunks|
  {
    if schedule == [] then []
    else
      var before, source := schedule[..|schedule| - 1], schedule[|schedule| - 1];
      Calls(t, before) + [StoreNth(t, source, ProgressOf(before).Of(source))]
  }

  /** The live names are exactly those stored so far, each leading to the stream's own hash. */
  ghost predicate NamesFollow(t: Stream, names: map<Name, Plh>, at: Progress) {
    && at.Deepest() <= |t.hashes|
    && (forall source, i: nat | i < at.Of(source) ::
      t.Name(source, i) in names && names[t.Name(source, i)] == t.hashes[i])
    && (forall name <- names :: exists i: nat :: i < at.Of(name.source) && name == t.Name(name.source, i))
  }

  ghost predicate BlocksFollow(t: Stream, blocks: map<Plh, BlockState>, depth: nat) {
    && depth <= |t.hashes|
    && (forall i | 0 <= i < depth :: t.hashes[i] in blocks && blocks[t.hashes[i]].published)
    && (forall hash <- blocks :: hash.position < depth)
  }

  /** One announcement per block of the stream, in stream order. */
  ghost predicate LogFollows(t: Stream, log: seq<Event>, depth: nat) {
    && depth == |log| <= |t.hashes| == |t.chunks|
    && forall i | 0 <= i < depth ::
         log[i].Stored? && log[i] == Stored(t.hashes[i], t.chunks[i], t.width, t.lora, log[i].source)
  }

  lemma NextNameIsNew(h: Hasher, t: Stream, names: map<Name, Plh>, at: Progress, source: Source)
    requires t.Valid(h) && NamesFollow(t, names, at)
    ensures t.Name(source, at.Of(source)) !in names
  {
  }

  /** A source's next store resolves to the stream's own hash for that block. */
  lemma StoreNthResolves(h: Hasher, t: Stream, names: map<Name, Plh>, at: Progress, source: Source)
    requires t.Valid(h) && NamesFollow(t, names, at) && at.Of(source) < |t.chunks|
    ensures Resolve(h, names, StoreNth(t, source, at.Of(source))) == Some(t.hashes[at.Of(source)])
  {
    var n := at.Of(source);
    var parent := ParentOf(names, source, StoreNth(t, source, n).parent);
    if n > 0 {
      assert t.Name(source, n - 1) in names;
      assert parent == Some(t.hashes[n - 1]);
    }
    assert t.width % U32 == t.width;
    assert t.Linked(h, n);
    assert t.chunks[n][..t.width] == t.chunks[n];
    ComputePlhLinks(h, parent, t.chunks[n], t.width, t.lora);
  }

  lemma NamesAdvance(t: Stream, names: map<Name, Plh>, at: Progress, source: Source)
    requires NamesFollow(t, names, at) && at.Of(source) < |t.hashes| && t.Name(source, at.Of(source)) !in names
    ensures NamesFollow(t, names[t.Name(source, at.Of(source)) := t.hashes[at.Of(source)]], at.Advance(source))
  {
    var n, at' := at.Of(source), at.Advance(source);
    var names' := names[t.Name(source, n) := t.hashes[n]];
    forall other, i: nat | i < at'.Of(other) ensures t.Name(other, i) in names' &&
      names'[t.Name(other, i)] == t.hashes[i] {
      if other != source || i < n {
        assert t.Name(other, i) in names;
      }
    }
    forall name <- names' ensures exists i: nat :: i < at'.Of(name.source) && name == t.Name(name.source, i) {
      if name != t.Name(source, n) {
        var i: nat :| i < at.Of(name.source) && name == t.Name(name.source, i);
        assert i < at'.Of(name.source);
      } else {
        assert n < at'.Of(name.source);
      }
    }
  }

  /** Holding the n-th hash adds a block and an event exactly when no source got there before. */
  lemma HoldFollows(t: Stream, s: State, depth: nat, source: Source, n: nat)
    requires n < |t.hashes| == |t.chunks| && n <= depth && t.hashes[n].position == n
    requires BlocksFollow(t, s.blocks, depth) && LogFollows(t, s.Log(), depth)
    ensures var s' := Hold(s, source, t.hashes[n], Some(Stored(t.hashes[n], t.chunks[n], t.width, t.lora, source))).0;
            var depth' := if n == depth then depth + 1 else depth;
            BlocksFollow(t, s'.blocks, depth') && LogFollows(t, s'.Log(), depth')
  {
    var hash, event := t.hashes[n], Stored(t.hashes[n], t.chunks[n], t.width, t.lora, source);
    var s' := Hold(s, source, hash, Some(event)).0;
    if n == depth {
      assert hash !in s.blocks;
      assert s'.Log() == s.Log() + [event];
    } else {
      assert hash in s.blocks && s.blocks[hash].published;
      assert s'.Log() == s.Log();
    }
  }

  /** A turn adds the next name and holds the stream's own hash. */
  lemma TurnHolds(h: Hasher, t: Stream, s: State, at: Progress, source: Source)
    requires t.Valid(h) && NamesFollow(t, s.names, at) && at.Of(source) < |t.chunks|
    ensures var n := at.Of(source);
            && t.Name(source, n) !in s.names
            && Step(h, s, StoreNth(t, source, n)).0
               == Hold(s.(names := s.names[t.Name(source, n) := t.hashes[n]]), source, t.hashes[n],
                       Some(Stored(t.hashes[n], t.chunks[n], t.width, t.lora, source))).0
  {
    NextNameIsNew(h, t, s.names, at, source);
    StoreNthResolves(h, t, s.names, at, source);
  }

  /** One turn keeps names, blocks and log in step with the stream. */
  lemma TurnFollows(h: Hasher, t: Stream, s: State, at: Progress, source: Source, s': State)
    requires t.Valid(h) && at.Of(source) < |t.chunks|
    requires NamesFollow(t, s.names, at) && BlocksFollow(t, s.blocks, at.Deepest()) &&
        LogFollows(t, s.Log(), at.Deepest())
    requires s' == Step(h, s, StoreNth(t, source, at.Of(source))).0
    ensures NamesFollow(t, s'.names, at.Advance(source))
    ensures BlocksFollow(t, s'.blocks, at.Advance(source).Deepest())
    ensures LogFollows(t, s'.Log(), at.Advance(source).Deepest())
  {
    var n := at.Of(source);
    TurnHolds(h, t, s, at, source);
    NamesAdvance(t, s.names, at, source);
    assert t.Linked(h, n);
    HoldFollows(t, s.(names := s.names[t.Name(source, n) := t.hashes[n]]), at.Deepest(), source, n);
  }

  /** Any interleaving of sources storing one stream under their own names gives every name
      the stream's hash for its block, and announces each hash that any source reached
      exactly once, in stream order. */
  lemma {:induction false} InterleavedStream(h: Hasher, t: Stream, schedule: seq<Source>)
    requires t.Valid(h) && ProgressOf(schedule).Deepest() <= |t.chunks|
    ensures NamesFollow(t, Run(h, Calls(t, schedule)).names, ProgressOf(schedule))
    ensures BlocksFollow(t, Run(h, Calls(t, schedule)).blocks, ProgressOf(schedule).Deepest())
    ensures LogFollows(t, Run(h, Calls(t, schedule)).Log(), ProgressOf(schedule).Deepest())
  {
    if schedule != [] {
      var before, source := schedule[..|schedule| - 1], schedule[|schedule| - 1];
      InterleavedStream(h, t, before);
      assert Calls(t, schedule)[..|Calls(t, schedule)| - 1] == Calls(t, before);
      TurnFollows(h, t, Run(h, Calls(t, before)), ProgressOf(before), source, Run(h, Calls(t, schedule)));
    }
  }

  // ---- Streams cut from tokens ----

  lemma {:induction false} ChunkWidth(tokens: seq<nat>, width: nat, i: nat)
    requires width > 0 && i < |Chunks(tokens, width)|
    ensures |Chunks(tokens, width)[i]| == width
  {
    if i > 0 {
      ChunkWidth(tokens[width..], width, i - 1);
    }
  }

  function HashesOf(blocks: seq<Block>): (hashes: seq<Plh>)
    ensures |hashes| == |blocks| && forall i | 0 <= i < |blocks| :: hashes[i] == blocks[i].plh
  {
    seq(|blocks|, i requires 0 <= i < |blocks| => blocks[i].plh)
  }

  /** Hashing a token stream in one piece yields such a stream: storing its chunks one by one
      through parent names therefore reproduces the hashes of the whole. */
  lemma TokenStream(h: Hasher, tokens: seq<nat>, width: nat, lora: Option<string>, nameOf: (Source, nat) -> string)
    requires 0 < width < U32 && IntoBlocks(h, tokens, width, lora).Some?
    requires forall i | 0 <= i < |Chunks(tokens, width)| :: h.accepts(Chunks(tokens, width)[i], lora)
    requires forall source, i, j :: nameOf(source, i) == nameOf(source, j) ==> i == j
    ensures Stream(Chunks(tokens, width), HashesOf(IntoBlocks(h, tokens, width, lora).value), width, lora,
                   nameOf).Valid(h)
  {
    var chunks, blocks := Chunks(tokens, width), Link(h, lora, None, Chunks(tokens, width));
    var t := Stream(chunks, HashesOf(blocks), width, lora, nameOf);
    forall i | 0 <= i < |chunks| ensures t.Linked(h, i) {
      ChunkWidth(tokens, width, i);
      LinkPositions(h, lora, None, chunks, i);
    }
  }

  /** Storing a token sequence chunk by chunk, by any sources in any interleaving, gives every
      name the hash that hashing the whole sequence gives its block, announced once each. */
  lemma TokenStreamStored(h: Hasher, tokens: seq<nat>, width: nat, lora: Option<string>,
                          nameOf: (Source, nat) -> string, schedule: seq<Source>)
    requires 0 < width < U32 && IntoBlocks(h, tokens, width, lora).Some?
    requires forall i | 0 <= i < |Chunks(tokens, width)| :: h.accepts(Chunks(tokens, width)[i], lora)
    requires forall source, i, j :: nameOf(source, i) == nameOf(source, j) ==> i == j
    requires ProgressOf(schedule).Deepest() <= |Chunks(tokens, width)|
    ensures var whole := HashesOf(IntoBlocks(h, tokens, width, lora).value);
            var t := Stream(Chunks(tokens, width), whole, width, lora, nameOf);
            var s := Run(h, Calls(t, schedule));
            && |whole| == |Chunks(tokens, width)|
            && (forall source, i: nat | i < ProgressOf(schedule).Of(source) ::
                  t.Name(source, i) in s.names && s.names[t.Name(source, i)] == whole[i])
            && |s.Log()| == ProgressOf(schedule).Deepest()
            && (forall i | 0 <= i < |s.Log()| :: s.Log()[i].Stored? && s.Log()[i].hash == whole[i])
  {
    var t := Stream(Chunks(tokens, width), HashesOf(IntoBlocks(h, tokens, width, lora).value), width, lora, nameOf);
    TokenStream(h, tokens, width, lora, nameOf);
    InterleavedStream(h, t, schedule);
  }
}
