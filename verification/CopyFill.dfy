/** One destination view filled from many sources, each with a view of an allocation of its own:
    every source that meets the view is transferred in turn. The statements are for sources that
    fit the destination and give no block of it two sources, into elements that share no byte. */
module CopyFill {
  import opened Outcome
  import opened Tensor
  import opened Slices
  import opened CopyPlan
  import opened CopyBytes
  import opened CopyApart
  import opened CopyPlanner
  import opened CopyResult
  import opened CopyViews
  import opened CopyTransfer

  /** A source, and the blocks it gives to the destination. */
  datatype Source = Source(view: View, base: AnnotatedLayout, pairs: seq<(nat, nat)>)

  predicate Shaped(v: View) {
    |v.dims| == |v.sizes| == |v.bytes|
  }

  ghost predicate AllShaped(sources: seq<Source>, dst: View) {
    Shaped(dst) && forall i | 0 <= i < |sources| :: Shaped(sources[i].view)
  }

  /** The destination memory after one source's transfer, if the two views meet. */
  ghost function Pull<T>(s: Source, dst: View, policy: Policy, from: nat -> T, to: nat -> T): nat -> T
    requires Shaped(s.view) && Shaped(dst)
  {
    if !AllMeet(s.view, dst) then to
    else Perform(PlanOf(Projected(s.view), Projected(dst), Shared(s.view, dst, s.pairs), policy).ops, from, to)
  }

  /** The same for all sources in turn; `from` has a memory for each. */
  ghost function PullAll<T>(sources: seq<Source>, dst: View, policy: Policy, from: nat -> nat -> T, to: nat -> T)
    : nat -> T
    requires AllShaped(sources, dst)
  {
    if sources == [] then to
    else
      var n := |sources| - 1;
      Pull(sources[n], dst, policy, from(n), PullAll(sources[..n], dst, policy, from, to))
  }

  // ---- Global coordinates ----

  /** The view shows the global coordinate on every axis but the block axis. */
  ghost predicate Shows(v: View, at: KvDim -> nat) {
    && |v.dims| == |v.sizes|
    && forall k | 0 <= k < |v.dims| :: v.dims[k] != Block ==> InWindow(AxisOf(v, v.dims[k]), at(v.dims[k]))
  }

  /** A source with the destination's axes, whose blocks are there and whole on both sides. */
  ghost predicate Fits(s: Source, dst: View, dstBase: AnnotatedLayout) {
    && ViewOf(s.view, s.base) && ViewOf(dst, dstBase) && s.base.elemSize == dstBase.elemSize
    && SameLabels(s.view.dims, dst.dims) && SameExtents(s.view, dst)
    && IsFull(AxisOf(s.view, Block)) && IsFull(AxisOf(dst, Block))
    && PairsFit(s.pairs, BlockCount(s.view), BlockCount(dst))
  }

  function BlockCount(v: View): nat
    requires |v.dims| == |v.sizes|
  {
    SizeOr1(v.dims, v.sizes, Block)
  }

  ghost predicate PairsFit(pairs: seq<(nat, nat)>, from: nat, to: nat) {
    forall i | 0 <= i < |pairs| :: pairs[i].0 < from && pairs[i].1 < to
  }

  lemma BothShow(src: View, dst: View, at: KvDim -> nat)
    requires |src.dims| == |src.sizes| && |dst.dims| == |dst.sizes| && SameLabels(src.dims, dst.dims)
    ensures InBoth(src, dst, at) <==> Shows(src, at) && Shows(dst, at)
  {
    if InBoth(src, dst, at) {
      forall j | 0 <= j < |dst.dims| && dst.dims[j] != Block
        ensures InWindow(AxisOf(dst, dst.dims[j]), at(dst.dims[j]))
      {
        var k :| 0 <= k < |src.dims| && src.dims[k] == dst.dims[j];
      }
    }
    if Shows(src, at) && Shows(dst, at) {
      forall k | 0 <= k < |src.dims| && src.dims[k] != Block
        ensures InWindow(AxisOf(dst, src.dims[k]), at(src.dims[k]))
      {
        var j :| 0 <= j < |dst.dims| && dst.dims[j] == src.dims[k];
      }
    }
  }

  lemma WindowsMeet(s: AxisSlice, t: AxisSlice, g: nat)
    requires s.dim == t.dim && s.globalLen == t.globalLen && InWindow(s, g) && InWindow(t, g)
    ensures IntersectAxis(s, t).Ok? && IntersectAxis(s, t).value.Some?
  {
  }

  /** Views that show a coordinate in common meet on every axis. */
  lemma SharedMeets(s: Source, dst: View, dstBase: AnnotatedLayout, at: KvDim -> nat, k: nat)
    requires Fits(s, dst, dstBase) && InBoth(s.view, dst, at) && k < |s.view.dims|
    ensures Joins(s.view, dst, s.view.dims[k])
  {
    var d := s.view.dims[k];
    assert SameExtent(s.view, dst, s.view.dims[k]);
    var j :| 0 <= j < |dst.dims| && dst.dims[j] == d;
    AxisOfView(s.view, s.base, k);
    AxisOfView(dst, dstBase, j);
    WindowsMeet(AxisOf(s.view, d), AxisOf(dst, d), if d == Block then 0 else at(d));
  }

  lemma SharedPeers(s: Source, dst: View, dstBase: AnnotatedLayout, at: KvDim -> nat)
    requires Fits(s, dst, dstBase) && InBoth(s.view, dst, at)
    ensures AllMeet(s.view, dst)
  {
    forall k | 0 <= k < |s.view.dims| ensures Joins(s.view, dst, s.view.dims[k]) {
      SharedMeets(s, dst, dstBase, at, k);
    }
  }

  lemma PeersAccepted(src: View, dst: View, srcBase: AnnotatedLayout, dstBase: AnnotatedLayout,
                      pairs: seq<(nat, nat)>)
    requires Peers(src, dst, srcBase, dstBase) && Unrestricted(src, dst, Block) && srcBase.elemSize == dstBase.elemSize
    requires PairsFit(pairs, BlockCount(src), BlockCount(dst))
    ensures Compatible(Projected(src), Projected(dst), Shared(src, dst, pairs))
  {
    SharedCompatibleIff(src, dst, srcBase, dstBase, pairs);
  }

  lemma FitsAccepted(s: Source, dst: View, dstBase: AnnotatedLayout)
    requires Fits(s, dst, dstBase) && AllMeet(s.view, dst)
    ensures Peers(s.view, dst, s.base, dstBase)
    ensures Compatible(Projected(s.view), Projected(dst), Shared(s.view, dst, s.pairs))
  {
    PeersAccepted(s.view, dst, s.base, dstBase, s.pairs);
  }

  // ---- One source ----

  /** Byte `y` of the destination is to come from byte `x` of the source. */
  ghost predicate Gives(s: Source, dst: View, dstBase: AnnotatedLayout, x: nat, y: nat)
    requires |s.view.dims| == |s.view.sizes| && |dst.dims| == |dst.sizes|
  {
    Transferred(s.view, dst, s.base, dstBase, s.pairs, x, y)
  }

  /** Where the views meet, the innermost axis folds. */
  ghost predicate Delivers(s: Source, dst: View)
    requires Shaped(s.view) && Shaped(dst)
  {
    AllMeet(s.view, dst) ==> InnermostFolds(Projected(s.view), Projected(dst), Shared(s.view, dst, s.pairs))
  }

  lemma GivesMeets(s: Source, dst: View, dstBase: AnnotatedLayout, x: nat, y: nat)
    requires Fits(s, dst, dstBase) && Gives(s, dst, dstBase, x, y)
    ensures AllMeet(s.view, dst)
  {
    var pair: nat, at, b: nat :| TransferAt(s.view, dst, s.base, dstBase, s.pairs, pair, at, b, x, y);
    SharedPeers(s, dst, dstBase, at);
  }

  /** What one source's transfer makes of byte `y`. */
  ghost predicate PulledByte<T>(s: Source, dst: View, dstBase: AnnotatedLayout, policy: Policy, from: nat -> T,
                                to: nat -> T, y: nat)
    requires Shaped(s.view) && Shaped(dst)
  {
    ByteAfter(s.view, dst, s.base, dstBase, s.pairs, Delivers(s, dst), Pull(s, dst, policy, from, to)(y), from, to, y)
  }

  lemma ApartGivesNone(s: Source, dst: View, dstBase: AnnotatedLayout, y: nat)
    requires Fits(s, dst, dstBase) && !AllMeet(s.view, dst)
    ensures forall x: nat :: !Gives(s, dst, dstBase, x, y)
  {
    forall x: nat ensures !Gives(s, dst, dstBase, x, y) {
      if Gives(s, dst, dstBase, x, y) {
        GivesMeets(s, dst, dstBase, x, y);
      }
    }
  }

  lemma PullNone<T>(s: Source, dst: View, dstBase: AnnotatedLayout, policy: Policy, from: nat -> T, to: nat -> T,
                    y: nat)
    requires Shaped(s.view) && Shaped(dst) && !AllMeet(s.view, dst) && forall x: nat :: !Gives(s, dst, dstBase, x, y)
    ensures PulledByte(s, dst, dstBase, policy, from, to, y)
  {
    assert forall x: nat :: Gives(s, dst, dstBase, x, y) <==> Transferred(s.view, dst, s.base, dstBase, s.pairs, x, y);
  }

  lemma PullsByte<T>(s: Source, dst: View, dstBase: AnnotatedLayout, policy: Policy, from: nat -> T, to: nat -> T,
                     y: nat)
    requires Fits(s, dst, dstBase) && BytesApart(dstBase) && OneSource(s.pairs)
    ensures PulledByte(s, dst, dstBase, policy, from, to, y)
  {
    if AllMeet(s.view, dst) {
      FitsAccepted(s, dst, dstBase);
      TransferPerforms(s.view, dst, s.base, dstBase, s.pairs, policy, from, to, y);
    } else {
      ApartGivesNone(s, dst, dstBase, y);
      PullNone(s, dst, dstBase, policy, from, to, y);
    }
  }

  // ---- All sources ----

  /** No coordinate of the destination is shown by two sources. */
  ghost predicate Apart(sources: seq<Source>, dst: View) {
    forall i, j, at: KvDim -> nat | 0 <= i < |sources| && 0 <= j < |sources| && Shows(dst, at) ::
      Shows(sources[i].view, at) && Shows(sources[j].view, at) ==> i == j
  }

  ghost predicate AllFit(sources: seq<Source>, dst: View, dstBase: AnnotatedLayout) {
    && AllShaped(sources, dst)
    && forall i | 0 <= i < |sources| :: Fits(sources[i], dst, dstBase) && OneSource(sources[i].pairs)
  }

  lemma ElementAddressable(v: View, base: AnnotatedLayout, block: nat, at: KvDim -> nat)
    requires ViewOf(v, base) && Shows(v, at) && IsFull(AxisOf(v, Block)) && block < BlockCount(v)
    ensures Addressable(base, ElementAt(base, block, at))
  {
    var c := ElementAt(base, block, at);
    forall k | 0 <= k < |base.dims| ensures Get(c, base.dims[k]) < base.sizes[k] {
      AxisOfView(v, base, k);
      SizeAt(v.dims, v.sizes, k);
      assert v.dims[k] != Block ==> InWindow(AxisOf(v, v.dims[k]), at(v.dims[k]));
    }
    AddressableWithin(base, c);
  }

  /** Elements of the destination that share a byte are at one coordinate. */
  lemma OneElement(dst: View, base: AnnotatedLayout, block: nat, at: KvDim -> nat, b: nat,
                    block': nat, at': KvDim -> nat, b': nat)
    requires ViewOf(dst, base) && BytesApart(base) && IsFull(AxisOf(dst, Block))
    requires Shows(dst, at) && Shows(dst, at') && block < BlockCount(dst) && block' < BlockCount(dst)
    requires b < base.elemSize && b' < base.elemSize
    requires Address(base, ElementAt(base, block, at)) + b == Address(base, ElementAt(base, block', at')) + b'
    ensures forall d <- base.dims :: d != Block ==> at(d) == at'(d)
  {
    var c, c' := ElementAt(base, block, at), ElementAt(base, block', at');
    ElementAddressable(dst, base, block, at);
    ElementAddressable(dst, base, block', at');
    assert Overlap(base, c, c');
    assert SameAt(base, c, c');
    forall d | d in base.dims && d != Block ensures at(d) == at'(d) {
      var k :| 0 <= k < |base.dims| && base.dims[k] == d;
      assert Get(c, base.dims[k]) == Get(c', base.dims[k]);
    }
  }

  lemma ShowsSame(v: View, dims: seq<KvDim>, at: KvDim -> nat, at': KvDim -> nat)
    requires |v.dims| == |v.sizes| && SameLabels(v.dims, dims)
    requires Shows(v, at) && forall d <- dims :: d != Block ==> at(d) == at'(d)
    ensures Shows(v, at')
  {
    forall k | 0 <= k < |v.dims| && v.dims[k] != Block ensures InWindow(AxisOf(v, v.dims[k]), at'(v.dims[k])) {
      assert v.dims[k] in dims;
    }
  }

  /** Two sources that give to one byte are one source. */
  lemma OneGives(sources: seq<Source>, dst: View, dstBase: AnnotatedLayout, i: nat, j: nat, x: nat, x': nat, y: nat)
    requires AllFit(sources, dst, dstBase) && Apart(sources, dst) && BytesApart(dstBase)
    requires i < |sources| && j < |sources|
    requires Gives(sources[i], dst, dstBase, x, y) && Gives(sources[j], dst, dstBase, x', y)
    ensures i == j
  {
    var s, s' := sources[i], sources[j];
    var pair: nat, at, b: nat :| TransferAt(s.view, dst, s.base, dstBase, s.pairs, pair, at, b, x, y);
    var pair': nat, at', b': nat :| TransferAt(s'.view, dst, s'.base, dstBase, s'.pairs, pair', at', b', x', y);
    BothShow(s.view, dst, at);
    BothShow(s'.view, dst, at');
    OneElement(dst, dstBase, s.pairs[pair].1, at, b, s'.pairs[pair'].1, at', b');
    ShowsSame(s'.view, dst.dims, at', at);
  }

  ghost predicate GivesNone(s: Source, dst: View, dstBase: AnnotatedLayout, y: nat)
    requires Shaped(s.view) && Shaped(dst)
  {
    forall x: nat :: !Gives(s, dst, dstBase, x, y)
  }

  /** Whatever was there, the source's transfer sets byte `y` to the value, or leaves it. */
  ghost predicate Sets<T(!new)>(s: Source, dst: View, policy: Policy, from: nat -> T, y: nat, value: Option<T>)
    requires Shaped(s.view) && Shaped(dst)
  {
    forall to: nat -> T :: Pull(s, dst, policy, from, to)(y) == match value case None => to(y) case Some(v) => v
  }

  lemma SetsGiven<T(!new)>(s: Source, dst: View, dstBase: AnnotatedLayout, policy: Policy, from: nat -> T, x: nat,
                           y: nat)
    requires Fits(s, dst, dstBase) && BytesApart(dstBase) && OneSource(s.pairs) && Gives(s, dst, dstBase, x, y)
    ensures Sets(s, dst, policy, from, y, if Delivers(s, dst) then Some(from(x)) else None)
  {
    forall to: nat -> T
      ensures Pull(s, dst, policy, from, to)(y) == if Delivers(s, dst) then from(x) else to(y)
    {
      PullsByte(s, dst, dstBase, policy, from, to, y);
    }
  }

  lemma SetsNone<T(!new)>(s: Source, dst: View, dstBase: AnnotatedLayout, policy: Policy, from: nat -> T, y: nat)
    requires Fits(s, dst, dstBase) && BytesApart(dstBase) && OneSource(s.pairs) && GivesNone(s, dst, dstBase, y)
    ensures Sets(s, dst, policy, from, y, None)
  {
    forall to: nat -> T ensures Pull(s, dst, policy, from, to)(y) == to(y) {
      PullsByte(s, dst, dstBase, policy, from, to, y);
      assert forall x: nat ::
          Gives(s, dst, dstBase, x, y) <==> Transferred(s.view, dst, s.base, dstBase, s.pairs, x, y);
    }
  }

  /** What pulling from the first `n` sources makes of a byte that at most `o` sets. */
  lemma {:induction false} PulledUpTo<T(!new)>(sources: seq<Source>, dst: View, policy: Policy, from: nat -> nat -> T,
                                               to: nat -> T, n: nat, o: nat, y: nat, value: Option<T>)
    requires n <= |sources| && AllShaped(sources, dst)
    requires forall k | 0 <= k < n :: Sets(sources[k], dst, policy, from(k), y, if k == o then value else None)
    ensures PullAll(sources[..n], dst, policy, from, to)(y) == if o < n && value.Some? then value.value else to(y)
  {
    if n > 0 {
      PulledUpTo(sources, dst, policy, from, to, n - 1, o, y, value);
      assert sources[..n][..n - 1] == sources[..n - 1];
      assert Sets(sources[n - 1], dst, policy, from(n - 1), y, if n - 1 == o then value else None);
    }
  }

  lemma OthersGiveNone(sources: seq<Source>, dst: View, dstBase: AnnotatedLayout, o: nat, x: nat, y: nat)
    requires AllFit(sources, dst, dstBase) && Apart(sources, dst) && BytesApart(dstBase)
    requires o < |sources| && Gives(sources[o], dst, dstBase, x, y)
    ensures forall k | 0 <= k < |sources| && k != o :: GivesNone(sources[k], dst, dstBase, y)
  {
    forall k | 0 <= k < |sources| && k != o ensures GivesNone(sources[k], dst, dstBase, y) {
      forall x': nat ensures !Gives(sources[k], dst, dstBase, x', y) {
        if Gives(sources[k], dst, dstBase, x', y) {
          OneGives(sources, dst, dstBase, k, o, x', x, y);
        }
      }
    }
  }

  lemma OnlyOneSets<T(!new)>(sources: seq<Source>, dst: View, dstBase: AnnotatedLayout, policy: Policy,
                             from: nat -> nat -> T, o: nat, x: nat, y: nat)
    requires AllFit(sources, dst, dstBase) && Apart(sources, dst) && BytesApart(dstBase)
    requires o < |sources| && Gives(sources[o], dst, dstBase, x, y)
    ensures forall k | 0 <= k < |sources| ::
              Sets(sources[k], dst, policy, from(k), y,
                   if k == o then (if Delivers(sources[o], dst) then Some(from(o)(x)) else None) else None)
  {
    OthersGiveNone(sources, dst, dstBase, o, x, y);
    var value := if Delivers(sources[o], dst) then Some(from(o)(x)) else None;
    forall k | 0 <= k < |sources|
      ensures Sets(sources[k], dst, policy, from(k), y, if k == o then value else None)
    {
      assert Fits(sources[k], dst, dstBase);
      if k == o {
        SetsGiven(sources[o], dst, dstBase, policy, from(o), x, y);
      } else {
        SetsNone(sources[k], dst, dstBase, policy, from(k), y);
      }
    }
  }

  /** Pulling from all sources: each byte becomes that of the one source that gives to it, if the
      innermost axis of the two views folds, and else stays... */
  lemma PulledGiven<T(!new)>(sources: seq<Source>, dst: View, dstBase: AnnotatedLayout, policy: Policy,
                             from: nat -> nat -> T, to: nat -> T, o: nat, x: nat, y: nat)
    requires AllFit(sources, dst, dstBase) && Apart(sources, dst) && BytesApart(dstBase)
    requires o < |sources| && Gives(sources[o], dst, dstBase, x, y)
    ensures PullAll(sources, dst, policy, from, to)(y) == if Delivers(sources[o], dst) then from(o)(x) else to(y)
  {
    OnlyOneSets(sources, dst, dstBase, policy, from, o, x, y);
    assert sources[..|sources|] == sources;
    PulledUpTo(sources, dst, policy, from, to, |sources|, o, y,
               if Delivers(sources[o], dst) then Some(from(o)(x)) else None);
  }

  /** ...and so does a byte that no source gives to. */
  lemma PulledNone<T(!new)>(sources: seq<Source>, dst: View, dstBase: AnnotatedLayout, policy: Policy,
                            from: nat -> nat -> T, to: nat -> T, y: nat)
    requires AllFit(sources, dst, dstBase) && BytesApart(dstBase)
    requires forall k | 0 <= k < |sources| :: GivesNone(sources[k], dst, dstBase, y)
    ensures PullAll(sources, dst, policy, from, to)(y) == to(y)
  {
    forall k | 0 <= k < |sources| ensures Sets(sources[k], dst, policy, from(k), y, None) {
      assert Fits(sources[k], dst, dstBase);
      SetsNone(sources[k], dst, dstBase, policy, from(k), y);
    }
    assert sources[..|sources|] == sources;
    PulledUpTo(sources, dst, policy, from, to, |sources|, |sources|, y, None);
  }

  // ---- When the destination is filled ----

  /** Whatever the memories hold, every byte that a source gives to ends up as that source's. */
  ghost predicate Fills(sources: seq<Source>, dst: View, dstBase: AnnotatedLayout, policy: Policy)
    requires AllShaped(sources, dst)
  {
    forall from: nat -> nat -> nat, to: nat -> nat, o, x: nat, y: nat
      | 0 <= o < |sources| && Gives(sources[o], dst, dstBase, x, y) ::
      PullAll(sources, dst, policy, from, to)(y) == from(o)(x)
  }

  lemma GivesSome(s: Source, dst: View, dstBase: AnnotatedLayout)
    requires Fits(s, dst, dstBase) && AllMeet(s.view, dst) && s.pairs != []
    ensures exists x: nat, y: nat :: Gives(s, dst, dstBase, x, y)
  {
    FitsAccepted(s, dst, dstBase);
    var sel := Shared(s.view, dst, s.pairs);
    WantedSome(Projected(s.view), Projected(dst), sel);
    var x: nat, y: nat :| Wanted(Projected(s.view), Projected(dst), sel, x, y);
    SharedIsWanted(s.view, dst, s.base, dstBase, s.pairs, x, y);
    assert Gives(s, dst, dstBase, x, y);
  }

  /** For every source, all zeros. */
  const ALL_ZEROS: nat -> nat -> nat := (k: nat) => ZEROS

  lemma LeftOut(sources: seq<Source>, dst: View, dstBase: AnnotatedLayout, policy: Policy, o: nat)
    requires AllFit(sources, dst, dstBase) && Apart(sources, dst) && BytesApart(dstBase)
    requires o < |sources| && sources[o].pairs != [] && !Delivers(sources[o], dst)
    ensures !Fills(sources, dst, dstBase, policy)
  {
    assert Fits(sources[o], dst, dstBase);
    GivesSome(sources[o], dst, dstBase);
    var x: nat, y: nat :| Gives(sources[o], dst, dstBase, x, y);
    PulledGiven(sources, dst, dstBase, policy, ALL_ZEROS, ONES, o, x, y);
    assert PullAll(sources, dst, policy, ALL_ZEROS, ONES)(y) != ALL_ZEROS(o)(x);
  }

  /** The destination is filled if and only if, for every source that meets it and gives some
      block, the innermost axis folds. */
  lemma FillsIff(sources: seq<Source>, dst: View, dstBase: AnnotatedLayout, policy: Policy)
    requires AllFit(sources, dst, dstBase) && Apart(sources, dst) && BytesApart(dstBase)
    ensures Fills(sources, dst, dstBase, policy) <==>
            forall o | 0 <= o < |sources| :: sources[o].pairs == [] || Delivers(sources[o], dst)
  {
    if o :| 0 <= o < |sources| && sources[o].pairs != [] && !Delivers(sources[o], dst) {
      LeftOut(sources, dst, dstBase, policy, o);
    } else {
      forall from: nat -> nat -> nat, to: nat -> nat, o, x: nat, y: nat
        | 0 <= o < |sources| && Gives(sources[o], dst, dstBase, x, y)
        ensures PullAll(sources, dst, policy, from, to)(y) == from(o)(x)
      {
        PulledGiven(sources, dst, dstBase, policy, from, to, o, x, y);
        assert sources[o].pairs != [];
      }
    }
  }

  // ---- The shards of an axis ----

  /** The sources show the shards of axis `d` in order, and every other axis whole. */
  ghost predicate Shards(sources: seq<Source>, d: KvDim, len: nat) {
    && Divides(|sources|, len)
    && forall i | 0 <= i < |sources| :: ShowsShard(sources[i].view, d, ShardOf(d, i, |sources|, len))
  }

  ghost predicate ShowsShard(v: View, d: KvDim, shard: AxisSlice) {
    && |v.dims| == |v.sizes| && d in v.dims && AxisOf(v, d) == shard
    && forall k | 0 <= k < |v.dims| && v.dims[k] != d :: IsFull(AxisOf(v, v.dims[k]))
  }

  lemma WholeSizes(all: View, base: AnnotatedLayout, d: KvDim)
    requires ViewOf(all, base) && all.slices == []
    ensures all.sizes == base.sizes && SizeOr1(all.dims, all.sizes, d) == SizeOr1(base.dims, base.sizes, d)
  {
  }

  lemma NarrowedShows(all: View, v: View, s: AxisSlice)
    requires all.slices == [] && Narrowed(all.slices, s, v.slices)
    requires |v.dims| == |v.sizes| && s.dim in v.dims && Distinct(v.dims)
    ensures ShowsShard(v, s.dim, s)
  {
    forall k | 0 <= k < |v.dims| && v.dims[k] != s.dim ensures IsFull(AxisOf(v, v.dims[k])) {
      SizeAt(v.dims, v.sizes, k);
    }
  }

  /** That is what sharding the view of a whole layout shows. */
  lemma ShardViewShows(all: View, base: AnnotatedLayout, d: KvDim, rank: nat, world: nat)
    requires ViewOf(all, base) && Local(all).Valid() && all.slices == [] && ShardView(all, d, rank, world).Ok?
    ensures var v, len := ShardView(all, d, rank, world).value, SizeOr1(base.dims, base.sizes, d);
            rank < world && Divides(world, len) && ViewOf(v, base) && ShowsShard(v, d, ShardOf(d, rank, world, len))
  {
    ShardViewIff(all, d, rank, world);
    WholeSizes(all, base, d);
    var s := ShardOf(d, rank, world, SizeOr1(base.dims, base.sizes, d));
    SliceShowsWindow(all, base, d, s.start, s.len);
    NarrowedShows(all, SliceView(all, d, s.start, s.len).value, s);
  }

  lemma InExtent(s: Source, dst: View, dstBase: AnnotatedLayout, at: KvDim -> nat, k: nat)
    requires Fits(s, dst, dstBase) && Shows(dst, at) && k < |s.view.dims| && s.view.dims[k] != Block
    ensures at(s.view.dims[k]) < AxisOf(s.view, s.view.dims[k]).globalLen
  {
    var d := s.view.dims[k];
    assert SameExtent(s.view, dst, s.view.dims[k]);
    var j :| 0 <= j < |dst.dims| && dst.dims[j] == d;
    AxisOfView(s.view, s.base, k);
    AxisOfView(dst, dstBase, j);
    assert InWindow(AxisOf(dst, dst.dims[j]), at(dst.dims[j]));
  }

  /** Within the destination, a shard shows exactly the coordinates it owns. */
  lemma ShardShows(s: Source, dst: View, dstBase: AnnotatedLayout, d: KvDim, shard: AxisSlice, at: KvDim -> nat)
    requires Fits(s, dst, dstBase) && ShowsShard(s.view, d, shard) && d != Block && Shows(dst, at)
    ensures at(d) < shard.globalLen && (Shows(s.view, at) <==> InWindow(shard, at(d)))
  {
    forall k | 0 <= k < |s.view.dims| && s.view.dims[k] != Block
      ensures at(s.view.dims[k]) < AxisOf(s.view, s.view.dims[k]).globalLen
    {
      InExtent(s, dst, dstBase, at, k);
    }
    var k :| 0 <= k < |s.view.dims| && s.view.dims[k] == d;
  }

  /** So every coordinate of the destination is shown by the shard that owns it, and no other. */
  lemma OwnerShows(sources: seq<Source>, dst: View, dstBase: AnnotatedLayout, d: KvDim, len: nat, at: KvDim -> nat,
                   i: nat)
    requires AllFit(sources, dst, dstBase) && Shards(sources, d, len) && d != Block && Shows(dst, at)
    requires i < |sources|
    ensures at(d) < len && (Shows(sources[i].view, at) <==> i == OwnerOf(|sources|, len, at(d)))
  {
    assert Fits(sources[i], dst, dstBase);
    ShardShows(sources[i], dst, dstBase, d, ShardOf(d, i, |sources|, len), at);
    OwnerExact(d, |sources|, len, at(d), i);
  }

  lemma ShardsApart(sources: seq<Source>, dst: View, dstBase: AnnotatedLayout, d: KvDim, len: nat)
    requires AllFit(sources, dst, dstBase) && Shards(sources, d, len) && d != Block
    ensures Apart(sources, dst)
  {
    forall i, j, at: KvDim -> nat
      | 0 <= i < |sources| && 0 <= j < |sources| && Shows(dst, at) && Shows(sources[i].view, at) &&
        Shows(sources[j].view, at)
      ensures i == j
    {
      OwnerShows(sources, dst, dstBase, d, len, at, i);
      OwnerShows(sources, dst, dstBase, d, len, at, j);
    }
  }

  /** A byte of a block's element at a global coordinate. */
  ghost function ByteAt(base: AnnotatedLayout, block: nat, at: KvDim -> nat, b: nat): nat {
    Address(base, ElementAt(base, block, at)) + b
  }

  lemma OwnerGives(s: Source, dst: View, dstBase: AnnotatedLayout, pair: nat, at: KvDim -> nat, b: nat)
    requires Fits(s, dst, dstBase) && Shows(s.view, at) && Shows(dst, at) && pair < |s.pairs| && b < dstBase.elemSize
    ensures Gives(s, dst, dstBase, ByteAt(s.base, s.pairs[pair].0, at, b), ByteAt(dstBase, s.pairs[pair].1, at, b))
  {
    BothShow(s.view, dst, at);
    assert TransferAt(s.view, dst, s.base, dstBase, s.pairs, pair, at, b, ByteAt(s.base, s.pairs[pair].0, at, b),
                      ByteAt(dstBase, s.pairs[pair].1, at, b));
  }

  lemma OwnerFills<T(!new)>(sources: seq<Source>, dst: View, dstBase: AnnotatedLayout, policy: Policy,
                            from: nat -> nat -> T, to: nat -> T, o: nat, pair: nat, at: KvDim -> nat, b: nat)
    requires AllFit(sources, dst, dstBase) && Apart(sources, dst) && BytesApart(dstBase)
    requires o < |sources| && Shows(sources[o].view, at) && Shows(dst, at)
    requires pair < |sources[o].pairs| && b < dstBase.elemSize
    ensures PullAll(sources, dst, policy, from, to)(ByteAt(dstBase, sources[o].pairs[pair].1, at, b))
            == if Delivers(sources[o], dst) then from(o)(ByteAt(sources[o].base, sources[o].pairs[pair].0, at, b))
               else to(ByteAt(dstBase, sources[o].pairs[pair].1, at, b))
  {
    assert Fits(sources[o], dst, dstBase);
    OwnerGives(sources[o], dst, dstBase, pair, at, b);
    PulledGiven(sources, dst, dstBase, policy, from, to, o, ByteAt(sources[o].base, sources[o].pairs[pair].0, at, b),
                ByteAt(dstBase, sources[o].pairs[pair].1, at, b));
  }

  /** Pulling from all shards of an axis fills any view: at every global coordinate the view shows,
      each destination block of the shard that owns the coordinate holds what that shard has there
      in the source block, if the innermost axis folds for it, and else what was there. */
  lemma ShardsFill<T(!new)>(sources: seq<Source>, dst: View, dstBase: AnnotatedLayout, d: KvDim, len: nat,
                            policy: Policy, from: nat -> nat -> T, to: nat -> T, pair: nat, at: KvDim -> nat, b: nat)
    requires AllFit(sources, dst, dstBase) && BytesApart(dstBase)
    requires Shards(sources, d, len) && d != Block && Shows(dst, at) && b < dstBase.elemSize
    ensures at(d) < len
    ensures var o := OwnerOf(|sources|, len, at(d));
            pair < |sources[o].pairs| ==>
              var y := ByteAt(dstBase, sources[o].pairs[pair].1, at, b);
              PullAll(sources, dst, policy, from, to)(y)
              == if Delivers(sources[o], dst) then from(o)(ByteAt(sources[o].base, sources[o].pairs[pair].0, at, b))
                 else to(y)
  {
    OwnerShows(sources, dst, dstBase, d, len, at, 0);
    var o := OwnerOf(|sources|, len, at(d));
    OwnerShows(sources, dst, dstBase, d, len, at, o);
    ShardsApart(sources, dst, dstBase, d, len);
    if pair < |sources[o].pairs| {
      OwnerFills(sources, dst, dstBase, policy, from, to, o, pair, at, b);
    }
  }
}
