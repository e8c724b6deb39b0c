/** A transfer between two differently sliced views, end to end: intersect the views, project
    them, plan the copy. It brings the bytes of every shared global coordinate to their place. */
module CopyTransfer {
  import opened Outcome
  import opened Tensor
  import opened Slices
  import opened CopyPlan
  import opened CopyBytes
  import opened CopyApart
  import opened CopyPlanner
  import opened CopyResult
  import opened CopyViews

  /** Two views that meet on every axis. */
  ghost predicate Peers(src: View, dst: View, srcBase: AnnotatedLayout, dstBase: AnnotatedLayout) {
    ViewOf(src, srcBase) && ViewOf(dst, dstBase) && AllMeet(src, dst)
  }

  /** The selection of some blocks over what the views share. */
  function Shared(src: View, dst: View, pairs: seq<(nat, nat)>): Selection
    requires |src.dims| == |src.sizes| && |dst.dims| == |dst.sizes|
  {
    Selection(pairs, Overlaps(src, dst))
  }

  // ---- The overlaps by axis ----

  lemma {:induction false} FindConcat(a: seq<AxisIntersection>, b: seq<AxisIntersection>, d: KvDim)
    ensures FindSlice(a + b, d) == if FindSlice(a, d).Some? then FindSlice(a, d) else FindSlice(b, d)
  {
    if a == [] {
      assert a + b == b;
    } else {
      assert (a + b)[1..] == a[1..] + b;
      FindConcat(a[1..], b, d);
    }
  }

  ghost predicate Unrestricted(src: View, dst: View, d: KvDim)
    requires |src.dims| == |src.sizes| && |dst.dims| == |dst.sizes|
  {
    IsFull(AxisOf(src, d)) && IsFull(AxisOf(dst, d))
  }

  /** At most one overlap for each axis, and that on the axis. */
  ghost predicate OnePerAxis(parts: seq<seq<AxisIntersection>>, dims: seq<KvDim>) {
    |parts| == |dims| && forall k | 0 <= k < |dims| ::
      |parts[k]| <= 1 && (parts[k] != [] ==> parts[k][0].dim == dims[k])
  }

  lemma RestrictionsOnePerAxis(src: View, dst: View)
    requires |src.dims| == |src.sizes| && |dst.dims| == |dst.sizes|
    ensures OnePerAxis(Restrictions(src, dst), src.dims)
  {
    forall k | 0 <= k < |src.dims|
      ensures var r := Restriction(AxisOf(src, src.dims[k]), AxisOf(dst, src.dims[k]));
              |r| <= 1 && (r != [] ==> r[0].dim == src.dims[k])
    {
      AxisNamed(src, src.dims[k]);
    }
  }

  lemma {:induction false} FindInConcat(parts: seq<seq<AxisIntersection>>, dims: seq<KvDim>, n: nat, k: nat)
    requires OnePerAxis(parts, dims) && Distinct(dims) && n <= |dims| && k < |dims|
    ensures FindSlice(Concat(parts[..n]), dims[k]) == if k >= n || parts[k] == [] then None else Some(parts[k][0])
  {
    if n > 0 {
      FindInConcat(parts, dims, n - 1, k);
      ConcatStep(parts, n - 1);
      FindConcat(Concat(parts[..n - 1]), parts[n - 1], dims[k]);
    }
  }

  /** The overlap on an axis is its restriction. */
  lemma FindOverlap(src: View, dst: View, k: nat)
    requires |src.dims| == |src.sizes| && |dst.dims| == |dst.sizes| && Distinct(src.dims) && k < |src.dims|
    ensures var r := RestrictionOn(src, dst, src.dims[k]);
            FindSlice(Overlaps(src, dst), src.dims[k]) == if r == [] then None else Some(r[0])
  {
    var parts := Restrictions(src, dst);
    RestrictionsOnePerAxis(src, dst);
    FindInConcat(parts, src.dims, |src.dims|, k);
    assert parts[..|parts|] == parts;
  }

  /** What the walk of an axis is, in terms of its two windows. */
  function WalkOf(s: AxisSlice, t: AxisSlice): OuterRange {
    var r := Restriction(s, t);
    if r == [] then OuterRange(0, 0, s.len) else
      OuterRange(r[0].srcLocal.start, r[0].dstLocal.start, RangeLen(r[0].srcLocal))
  }

  lemma PeerWindows(src: View, dst: View, srcBase: AnnotatedLayout, dstBase: AnnotatedLayout, d: KvDim)
    requires Peers(src, dst, srcBase, dstBase) && d in src.dims
    ensures var s, t := AxisOf(src, d), AxisOf(dst, d);
            && s.dim == t.dim == d && s.globalLen == t.globalLen && s.End() <= s.globalLen && t.End() <= t.globalLen
            && s.start == StartOf(src.slices, d) && t.start == StartOf(dst.slices, d)
            && s.len == SizeOr1(src.dims, src.sizes, d) && t.len == SizeOr1(dst.dims, dst.sizes, d)
            && SameExtent(src, dst, d) && Meet(src, dst, d) && d in dst.dims
  {
    var k :| 0 <= k < |src.dims| && src.dims[k] == d;
    assert Joins(src, dst, src.dims[k]) && src.dims[k] in dst.dims;
    var j :| 0 <= j < |dst.dims| && dst.dims[j] == d;
    AxisOfView(src, srcBase, k);
    AxisOfView(dst, dstBase, j);
    SizeAt(src.dims, src.sizes, k);
    SizeAt(dst.dims, dst.sizes, j);
  }

  lemma SharedWalk(src: View, dst: View, srcBase: AnnotatedLayout, dstBase: AnnotatedLayout, pairs: seq<(nat, nat)>,
                   k: nat)
    requires Peers(src, dst, srcBase, dstBase) && k < |src.dims|
    ensures RangeFor(Shared(src, dst, pairs), src.dims[k], src.sizes[k]) ==
        WalkOf(AxisOf(src, src.dims[k]), AxisOf(dst, src.dims[k]))
  {
    FindOverlap(src, dst, k);
    PeerWindows(src, dst, srcBase, dstBase, src.dims[k]);
    SizeAt(src.dims, src.sizes, k);
  }

  ghost predicate InWindow(s: AxisSlice, g: nat) {
    s.start <= g < s.End()
  }

  /** The walk of an axis starts at one global coordinate on both sides, stays in both windows,
      and covers exactly the coordinates they share. */
  lemma WalkIsShared(s: AxisSlice, t: AxisSlice, g: nat)
    requires s.dim == t.dim && s.globalLen == t.globalLen && s.End() <= s.globalLen && t.End() <= t.globalLen
    requires IntersectAxis(s, t).Ok? && IntersectAxis(s, t).value.Some?
    ensures var r := WalkOf(s, t);
            && s.start + r.srcStart == t.start + r.dstStart
            && 0 < r.len && r.srcStart + r.len <= s.len && r.dstStart + r.len <= t.len
            && (s.start + r.srcStart <= g < s.start + r.srcStart + r.len <==> InWindow(s, g) && InWindow(t, g))
  {
  }

  lemma RangeIsShared(src: View, dst: View, srcBase: AnnotatedLayout, dstBase: AnnotatedLayout, pairs: seq<(nat, nat)>,
                      k: nat, g: nat)
    requires Peers(src, dst, srcBase, dstBase) && k < |src.dims|
    ensures var d := src.dims[k];
            var r := RangeFor(Shared(src, dst, pairs), d, src.sizes[k]);
            var low := StartOf(src.slices, d) + r.srcStart;
            && low == StartOf(dst.slices, d) + r.dstStart
            && (low <= g < low + r.len <==> InWindow(AxisOf(src, d), g) && InWindow(AxisOf(dst, d), g))
  {
    SharedWalk(src, dst, srcBase, dstBase, pairs, k);
    PeerWindows(src, dst, srcBase, dstBase, src.dims[k]);
    WalkIsShared(AxisOf(src, src.dims[k]), AxisOf(dst, src.dims[k]), g);
  }

  // ---- When the planner takes the request ----

  lemma {:induction false} ConcatAt(parts: seq<seq<AxisIntersection>>, dims: seq<KvDim>, n: nat, i: nat)
    returns (k: nat)
    requires OnePerAxis(parts, dims) && n <= |parts| && i < |Concat(parts[..n])|
    ensures k < n && |Concat(parts[..k])| == i && parts[k] == [Concat(parts[..n])[i]]
  {
    ConcatStep(parts, n - 1);
    if i < |Concat(parts[..n - 1])| {
      k := ConcatAt(parts, dims, n - 1, i);
    } else {
      k := n - 1;
    }
  }

  /** Every overlap is the restriction of one axis, and different ones of different axes. */
  lemma OverlapAt(src: View, dst: View, i: nat) returns (k: nat)
    requires |src.dims| == |src.sizes| && |dst.dims| == |dst.sizes| && i < |Overlaps(src, dst)|
    ensures k < |src.dims| && |Concat(Restrictions(src, dst)[..k])| == i
    ensures RestrictionOn(src, dst, src.dims[k]) == [Overlaps(src, dst)[i]]
  {
    var parts := Restrictions(src, dst);
    RestrictionsOnePerAxis(src, dst);
    assert parts[..|parts|] == parts;
    k := ConcatAt(parts, src.dims, |parts|, i);
  }

  lemma OverlapRanges(s: AxisSlice, t: AxisSlice)
    requires IntersectAxis(s, t).Ok? && IntersectAxis(s, t).value.Some?
    ensures var i := IntersectAxis(s, t).value.value;
            i.dim == s.dim && i.srcLocal.end <= s.len && i.dstLocal.end <= t.len &&
              RangeLen(i.srcLocal) == RangeLen(i.dstLocal) > 0
  {
  }

  lemma RestrictionFits(src: View, dst: View, srcBase: AnnotatedLayout, dstBase: AnnotatedLayout, d: KvDim)
    requires Peers(src, dst, srcBase, dstBase) && d in src.dims && RestrictionOn(src, dst, d) != []
    requires Projected(src).Valid() && Projected(dst).Valid()
    ensures RestrictionOn(src, dst, d)[0].dim == d && !Unrestricted(src, dst, d)
    ensures d != Block ==> SliceFits(Projected(src), Projected(dst), RestrictionOn(src, dst, d)[0])
  {
    PeerWindows(src, dst, srcBase, dstBase, d);
    OverlapRanges(AxisOf(src, d), AxisOf(dst, d));
  }

  lemma ProjectedValid(v: View, base: AnnotatedLayout)
    requires ViewOf(v, base)
    ensures Local(v).Valid() && Projected(v).Valid()
  {
    LocalValid(v, base);
  }

  ghost predicate RestrictionsFit(src: View, dst: View)
    requires |src.dims| == |src.bytes| && |dst.dims| == |dst.bytes| && Projected(src).Valid() && Projected(dst).Valid()
  {
    forall k | 0 <= k < |src.dims| && RestrictionOn(src, dst, src.dims[k]) != [] ::
      var r := RestrictionOn(src, dst, src.dims[k])[0];
      r.dim == src.dims[k] && SliceFits(Projected(src), Projected(dst), r)
  }

  lemma ConcatDiffer(parts: seq<seq<AxisIntersection>>, dims: seq<KvDim>, i: nat, j: nat)
    requires OnePerAxis(parts, dims) && Distinct(dims) && i < j < |Concat(parts)|
    ensures Concat(parts)[i].dim != Concat(parts)[j].dim
  {
    assert parts[..|parts|] == parts;
    var k := ConcatAt(parts, dims, |parts|, i);
    var l := ConcatAt(parts, dims, |parts|, j);
    assert dims[k] != dims[l];
  }

  lemma OverlapsDiffer(src: View, dst: View, i: nat, j: nat)
    requires |src.dims| == |src.sizes| && |dst.dims| == |dst.sizes| && Distinct(src.dims)
    requires i < j < |Overlaps(src, dst)|
    ensures Overlaps(src, dst)[i].dim != Overlaps(src, dst)[j].dim
  {
    RestrictionsOnePerAxis(src, dst);
    ConcatDiffer(Restrictions(src, dst), src.dims, i, j);
  }

  lemma OverlapsFit(src: View, dst: View)
    requires |src.dims| == |src.bytes| && |dst.dims| == |dst.bytes| && Projected(src).Valid() && Projected(dst).Valid()
    requires RestrictionsFit(src, dst)
    ensures SlicesFit(Projected(src), Projected(dst), Overlaps(src, dst))
  {
    var all := Overlaps(src, dst);
    forall i | 0 <= i < |all| ensures SliceFits(Projected(src), Projected(dst), all[i]) {
      var k := OverlapAt(src, dst, i);
    }
    forall i, j | 0 <= i < j < |all| ensures all[i].dim != all[j].dim {
      OverlapsDiffer(src, dst, i, j);
    }
  }

  lemma SharedSlicesFit(src: View, dst: View, srcBase: AnnotatedLayout, dstBase: AnnotatedLayout)
    requires Peers(src, dst, srcBase, dstBase) && Projected(src).Valid() && Projected(dst).Valid()
    ensures SlicesFit(Projected(src), Projected(dst), Overlaps(src, dst)) <==> Unrestricted(src, dst, Block)
  {
    if Unrestricted(src, dst, Block) {
      forall k | 0 <= k < |src.dims| && RestrictionOn(src, dst, src.dims[k]) != []
        ensures var r := RestrictionOn(src, dst, src.dims[k])[0];
                r.dim == src.dims[k] && SliceFits(Projected(src), Projected(dst), r)
      {
        RestrictionFits(src, dst, srcBase, dstBase, src.dims[k]);
      }
      OverlapsFit(src, dst);
    } else {
      BlockOverlap(src, dst, srcBase, dstBase);
    }
  }

  /** A restricted block axis shows up among the overlaps. */
  lemma BlockOverlap(src: View, dst: View, srcBase: AnnotatedLayout, dstBase: AnnotatedLayout)
    requires Peers(src, dst, srcBase, dstBase) && !Unrestricted(src, dst, Block)
    ensures exists i | 0 <= i < |Overlaps(src, dst)| :: Overlaps(src, dst)[i].dim == Block
  {
    var k :| 0 <= k < |src.dims| && src.dims[k] == Block;
    FindOverlap(src, dst, k);
    FindSliceFinds(Overlaps(src, dst), Block);
  }

  lemma SharedLabelFits(src: View, dst: View, srcBase: AnnotatedLayout, dstBase: AnnotatedLayout,
                        pairs: seq<(nat, nat)>, k: nat)
    requires Peers(src, dst, srcBase, dstBase) && Projected(src).Valid() && Projected(dst).Valid() && k < |src.dims|
    ensures LabelFits(Projected(src), Projected(dst), Shared(src, dst, pairs), src.dims[k])
  {
    PeerWindows(src, dst, srcBase, dstBase, src.dims[k]);
    FindOverlap(src, dst, k);
  }

  lemma SharedLabelsFit(src: View, dst: View, srcBase: AnnotatedLayout, dstBase: AnnotatedLayout,
                        pairs: seq<(nat, nat)>)
    requires Peers(src, dst, srcBase, dstBase) && Projected(src).Valid() && Projected(dst).Valid()
    ensures LabelsFit(Projected(src), Projected(dst), Shared(src, dst, pairs))
  {
    forall k | 0 <= k < |src.dims| ensures LabelFits(Projected(src), Projected(dst), Shared(src, dst, pairs),
                                                     src.dims[k]) {
      SharedLabelFits(src, dst, srcBase, dstBase, pairs, k);
    }
  }

  /** The planner takes the blocks of two views that meet, over what they share, if and only if
      neither view restricts the block axis, the element sizes agree and the blocks exist. */
  lemma SharedCompatibleIff(src: View, dst: View, srcBase: AnnotatedLayout, dstBase: AnnotatedLayout,
                            pairs: seq<(nat, nat)>)
    requires Peers(src, dst, srcBase, dstBase)
    ensures Projected(src).Valid() && Projected(dst).Valid()
    ensures Compatible(Projected(src), Projected(dst), Shared(src, dst, pairs)) <==>
            Unrestricted(src, dst, Block) && srcBase.elemSize == dstBase.elemSize &&
              BlocksFit(Projected(src), Projected(dst), pairs)
  {
    ProjectedValid(src, srcBase);
    ProjectedValid(dst, dstBase);
    SharedSlicesFit(src, dst, srcBase, dstBase);
    SharedLabelsFit(src, dst, srcBase, dstBase, pairs);
  }

  // ---- What is transferred ----

  /** A global coordinate in the windows of both views on every axis but the block axis. */
  ghost predicate InBoth(src: View, dst: View, at: KvDim -> nat)
    requires |src.dims| == |src.sizes| && |dst.dims| == |dst.sizes|
  {
    forall k | 0 <= k < |src.dims| :: src.dims[k] != Block ==>
      InWindow(AxisOf(src, src.dims[k]), at(src.dims[k])) && InWindow(AxisOf(dst, src.dims[k]), at(src.dims[k]))
  }

  /** A block's element at a global coordinate, in an allocation. */
  function ElementAt(base: AnnotatedLayout, block: nat, at: KvDim -> nat): Coord {
    map d | d in base.dims :: if d == Block then block else at(d)
  }

  ghost predicate TransferAt(src: View, dst: View, srcBase: AnnotatedLayout, dstBase: AnnotatedLayout,
                             pairs: seq<(nat, nat)>, pair: nat, at: KvDim -> nat, b: nat, x: nat, y: nat)
    requires |src.dims| == |src.sizes| && |dst.dims| == |dst.sizes|
  {
    && pair < |pairs| && InBoth(src, dst, at) && b < srcBase.elemSize
    && x == Address(srcBase, ElementAt(srcBase, pairs[pair].0, at)) + b
    && y == Address(dstBase, ElementAt(dstBase, pairs[pair].1, at)) + b
  }

  /** Byte `y` of one allocation and byte `x` of the other are the same byte of the elements at
      one shared global coordinate, in the two blocks of a pair. */
  ghost predicate Transferred(src: View, dst: View, srcBase: AnnotatedLayout, dstBase: AnnotatedLayout,
                              pairs: seq<(nat, nat)>, x: nat, y: nat)
    requires |src.dims| == |src.sizes| && |dst.dims| == |dst.sizes|
  {
    exists pair: nat, at: KvDim -> nat, b: nat :: TransferAt(src, dst, srcBase, dstBase, pairs, pair, at, b, x, y)
  }

  // ---- The planner's selection is the shared part ----

  /** An index along every axis, seen as a global coordinate... */
  function GlobalOf(src: View, sel: Selection, index: KvDim -> nat): KvDim -> nat {
    (d: KvDim) => StartOf(src.slices, d) + RangeFor(sel, d, 0).srcStart + index(d)
  }

  /** ...and back. */
  function IndexFrom(src: View, sel: Selection, at: KvDim -> nat): KvDim -> nat {
    (d: KvDim) =>
      var low := StartOf(src.slices, d) + RangeFor(sel, d, 0).srcStart;
      if at(d) < low then 0 else at(d) - low
  }

  /** The walk of an axis covers exactly the coordinates the two windows share. */
  ghost predicate AxisShared(src: View, dst: View, sel: Selection, d: KvDim, size: nat)
    requires |src.dims| == |src.sizes| && |dst.dims| == |dst.sizes|
  {
    var r := RangeFor(sel, d, size);
    var low := StartOf(src.slices, d) + RangeFor(sel, d, 0).srcStart;
    && low == StartOf(dst.slices, d) + RangeFor(sel, d, 0).dstStart
    && forall g: nat :: low <= g < low + r.len <==> InWindow(AxisOf(src, d), g) && InWindow(AxisOf(dst, d), g)
  }

  ghost predicate AllShared(src: View, dst: View, sel: Selection) {
    && |src.dims| == |src.sizes| == |src.bytes| && |dst.dims| == |dst.sizes| == |dst.bytes| &&
      SameLabels(src.dims, dst.dims)
    && forall k | 0 <= k < |src.dims| :: AxisShared(src, dst, sel, src.dims[k], src.sizes[k])
  }

  lemma PeersShare(src: View, dst: View, srcBase: AnnotatedLayout, dstBase: AnnotatedLayout, pairs: seq<(nat, nat)>)
    requires Peers(src, dst, srcBase, dstBase)
    ensures AllShared(src, dst, Shared(src, dst, pairs))
  {
    var sel := Shared(src, dst, pairs);
    forall k | 0 <= k < |src.dims| ensures AxisShared(src, dst, sel, src.dims[k], src.sizes[k]) {
      PeersShareAxis(src, dst, srcBase, dstBase, pairs, k);
    }
  }

  lemma PeersShareAxis(src: View, dst: View, srcBase: AnnotatedLayout, dstBase: AnnotatedLayout, pairs: seq<(nat, nat)>,
                       k: nat)
    requires Peers(src, dst, srcBase, dstBase) && k < |src.dims|
    ensures AxisShared(src, dst, Shared(src, dst, pairs), src.dims[k], src.sizes[k])
  {
    var sel, d := Shared(src, dst, pairs), src.dims[k];
    assert RangeFor(sel, d, src.sizes[k]).srcStart == RangeFor(sel, d, 0).srcStart;
    assert RangeFor(sel, d, src.sizes[k]).dstStart == RangeFor(sel, d, 0).dstStart;
    RangeIsShared(src, dst, srcBase, dstBase, pairs, k, 0);
    var r := RangeFor(sel, d, src.sizes[k]);
    var low := StartOf(src.slices, d) + r.srcStart;
    forall g: nat ensures low <= g < low + r.len <==> InWindow(AxisOf(src, d), g) && InWindow(AxisOf(dst, d), g) {
      RangeIsShared(src, dst, srcBase, dstBase, pairs, k, g);
    }
  }

  /** The selected elements are those at shared coordinates. */
  lemma SelectedIffInBoth(src: View, dst: View, sel: Selection, pair: nat, index: KvDim -> nat)
    requires AllShared(src, dst, sel)
    ensures Selected(Projected(src), sel, pair, index) <==>
        pair < |sel.blockPairs| && InBoth(src, dst, GlobalOf(src, sel, index))
  {
    var at := GlobalOf(src, sel, index);
    forall k | 0 <= k < |src.dims|
      ensures index(src.dims[k]) < RangeFor(sel, src.dims[k], src.sizes[k]).len
              <==>
              InWindow(AxisOf(src, src.dims[k]), at(src.dims[k])) && InWindow(AxisOf(dst, src.dims[k]), at(src.dims[k]))
    {
      assert AxisShared(src, dst, sel, src.dims[k], src.sizes[k]);
    }
  }

  lemma SharedStart(src: View, dst: View, sel: Selection, d: KvDim)
    requires AllShared(src, dst, sel) && d in dst.dims
    ensures d in src.dims
    ensures StartOf(src.slices, d) + RangeFor(sel, d, 0).srcStart ==
        StartOf(dst.slices, d) + RangeFor(sel, d, 0).dstStart
  {
    var j :| 0 <= j < |dst.dims| && dst.dims[j] == d;
    assert dst.dims[j] in src.dims;
    var k :| 0 <= k < |src.dims| && src.dims[k] == d;
    assert AxisShared(src, dst, sel, src.dims[k], src.sizes[k]);
  }

  /** The coordinates the planner addresses are the shared elements of the two allocations. */
  lemma SrcElements(src: View, sel: Selection, base: AnnotatedLayout, pair: nat, index: KvDim -> nat)
    requires |src.dims| == |src.bytes| && src.dims == base.dims && pair < |sel.blockPairs| &&
        StartOf(src.slices, Block) == 0
    ensures Global(src, SrcAt(Projected(src), sel, pair, index)) ==
        ElementAt(base, sel.blockPairs[pair].0, GlobalOf(src, sel, index))
  {
  }

  lemma DstElements(src: View, dst: View, sel: Selection, base: AnnotatedLayout, pair: nat, index: KvDim -> nat)
    requires AllShared(src, dst, sel) && dst.dims == base.dims && pair < |sel.blockPairs| &&
        StartOf(dst.slices, Block) == 0
    ensures Global(dst, DstAt(Projected(src), sel, pair, index)) ==
        ElementAt(base, sel.blockPairs[pair].1, GlobalOf(src, sel, index))
  {
    var c, at := DstAt(Projected(src), sel, pair, index), GlobalOf(src, sel, index);
    forall d | d in dst.dims ensures Global(dst, c)[d] == ElementAt(base, sel.blockPairs[pair].1, at)[d] {
      SharedStart(src, dst, sel, d);
    }
  }

  /** Both addresses of a selected element are the allocations' own. */
  lemma SelectedAddresses(src: View, dst: View, sel: Selection, srcBase: AnnotatedLayout, dstBase: AnnotatedLayout,
                          pair: nat, index: KvDim -> nat)
    requires AllShared(src, dst, sel) && ViewOf(src, srcBase) && ViewOf(dst, dstBase)
    requires Compatible(Projected(src), Projected(dst), sel) && Selected(Projected(src), sel, pair, index)
    requires StartOf(src.slices, Block) == 0 == StartOf(dst.slices, Block)
    ensures var at := GlobalOf(src, sel, index);
            && Address(Projected(src), SrcAt(Projected(src), sel, pair, index))
               == Address(srcBase, ElementAt(srcBase, sel.blockPairs[pair].0, at))
            && Address(Projected(dst), DstAt(Projected(src), sel, pair, index))
               == Address(dstBase, ElementAt(dstBase, sel.blockPairs[pair].1, at))
  {
    SelectedAddressable(Projected(src), Projected(dst), sel, pair, index);
    SrcElements(src, sel, srcBase, pair, index);
    DstElements(src, dst, sel, dstBase, pair, index);
    ProjectedAddress(src, srcBase, SrcAt(Projected(src), sel, pair, index));
    ProjectedAddress(dst, dstBase, DstAt(Projected(src), sel, pair, index));
  }

  /** The index of a shared coordinate leads back to it. */
  lemma IndexInverse(src: View, dst: View, sel: Selection, at: KvDim -> nat, d: KvDim)
    requires AllShared(src, dst, sel) && InBoth(src, dst, at) && d in src.dims && d != Block
    ensures GlobalOf(src, sel, IndexFrom(src, sel, at))(d) == at(d)
  {
    var k :| 0 <= k < |src.dims| && src.dims[k] == d;
    assert AxisShared(src, dst, sel, src.dims[k], src.sizes[k]);
  }

  lemma SameElement(src: View, dst: View, sel: Selection, base: AnnotatedLayout, block: nat, at: KvDim -> nat)
    requires AllShared(src, dst, sel) && InBoth(src, dst, at) && (base.dims == src.dims || base.dims == dst.dims)
    ensures ElementAt(base, block, GlobalOf(src, sel, IndexFrom(src, sel, at))) == ElementAt(base, block, at)
  {
    var at' := GlobalOf(src, sel, IndexFrom(src, sel, at));
    forall d | d in base.dims && d != Block ensures at'(d) == at(d) {
      var j :| 0 <= j < |base.dims| && base.dims[j] == d;
      assert base.dims[j] in src.dims;
      IndexInverse(src, dst, sel, at, d);
    }
  }

  lemma StillInBoth(src: View, dst: View, sel: Selection, at: KvDim -> nat)
    requires AllShared(src, dst, sel) && InBoth(src, dst, at)
    ensures InBoth(src, dst, GlobalOf(src, sel, IndexFrom(src, sel, at)))
  {
    forall k | 0 <= k < |src.dims| && src.dims[k] != Block
      ensures GlobalOf(src, sel, IndexFrom(src, sel, at))(src.dims[k]) == at(src.dims[k])
    {
      IndexInverse(src, dst, sel, at, src.dims[k]);
    }
  }

  /** What the planner is asked to copy is exactly what the two views share, global coordinate
      by global coordinate. */
  lemma WantedIsTransferred(src: View, dst: View, sel: Selection, srcBase: AnnotatedLayout, dstBase: AnnotatedLayout,
                            x: nat, y: nat)
    requires AllShared(src, dst, sel) && ViewOf(src, srcBase) && ViewOf(dst, dstBase)
    requires Compatible(Projected(src), Projected(dst), sel) && Wanted(Projected(src), Projected(dst), sel, x, y)
    requires StartOf(src.slices, Block) == 0 == StartOf(dst.slices, Block)
    ensures Transferred(src, dst, srcBase, dstBase, sel.blockPairs, x, y)
  {
    var pair: nat, index, b: nat :| WantedAt(Projected(src), Projected(dst), sel, pair, index, b, x, y);
    SelectedIffInBoth(src, dst, sel, pair, index);
    SelectedAddresses(src, dst, sel, srcBase, dstBase, pair, index);
    assert TransferAt(src, dst, srcBase, dstBase, sel.blockPairs, pair, GlobalOf(src, sel, index), b, x, y);
  }

  lemma TransferredIsWanted(src: View, dst: View, sel: Selection, srcBase: AnnotatedLayout, dstBase: AnnotatedLayout,
                            pair: nat, at: KvDim -> nat, b: nat, x: nat, y: nat)
    requires AllShared(src, dst, sel) && ViewOf(src, srcBase) && ViewOf(dst, dstBase)
    requires Compatible(Projected(src), Projected(dst), sel)
    requires StartOf(src.slices, Block) == 0 == StartOf(dst.slices, Block)
    requires TransferAt(src, dst, srcBase, dstBase, sel.blockPairs, pair, at, b, x, y)
    ensures Wanted(Projected(src), Projected(dst), sel, x, y)
  {
    var index := IndexFrom(src, sel, at);
    SameElement(src, dst, sel, srcBase, sel.blockPairs[pair].0, at);
    SameElement(src, dst, sel, dstBase, sel.blockPairs[pair].1, at);
    StillInBoth(src, dst, sel, at);
    SelectedIffInBoth(src, dst, sel, pair, index);
    SelectedAddresses(src, dst, sel, srcBase, dstBase, pair, index);
    assert WantedAt(Projected(src), Projected(dst), sel, pair, index, b, x, y);
  }

  lemma TransferIff(src: View, dst: View, sel: Selection, srcBase: AnnotatedLayout, dstBase: AnnotatedLayout, x: nat,
                    y: nat)
    requires AllShared(src, dst, sel) && ViewOf(src, srcBase) && ViewOf(dst, dstBase)
    requires Compatible(Projected(src), Projected(dst), sel)
    requires StartOf(src.slices, Block) == 0 == StartOf(dst.slices, Block)
    ensures Wanted(Projected(src), Projected(dst), sel, x, y) <==>
        Transferred(src, dst, srcBase, dstBase, sel.blockPairs, x, y)
  {
    if Wanted(Projected(src), Projected(dst), sel, x, y) {
      WantedIsTransferred(src, dst, sel, srcBase, dstBase, x, y);
    }
    if Transferred(src, dst, srcBase, dstBase, sel.blockPairs, x, y) {
      var pair: nat, at, b: nat :| TransferAt(src, dst, srcBase, dstBase, sel.blockPairs, pair, at, b, x, y);
      TransferredIsWanted(src, dst, sel, srcBase, dstBase, pair, at, b, x, y);
    }
  }

  // ---- End to end ----

  /** The copies move exactly what the views share. */
  ghost predicate MovesShared(src: View, dst: View, srcBase: AnnotatedLayout, dstBase: AnnotatedLayout,
                              pairs: seq<(nat, nat)>, ops: seq<CopyOp>)
    requires |src.dims| == |src.sizes| && |dst.dims| == |dst.sizes|
  {
    forall x: nat, y: nat :: Moves(ops, x, y) <==> Transferred(src, dst, srcBase, dstBase, pairs, x, y)
  }

  /** The planner is asked for exactly what the views share. */
  lemma SharedIsWanted(src: View, dst: View, srcBase: AnnotatedLayout, dstBase: AnnotatedLayout,
                       pairs: seq<(nat, nat)>, x: nat, y: nat)
    requires Peers(src, dst, srcBase, dstBase) && Compatible(Projected(src), Projected(dst), Shared(src, dst, pairs))
    ensures Wanted(Projected(src), Projected(dst), Shared(src, dst, pairs), x, y) <==>
        Transferred(src, dst, srcBase, dstBase, pairs, x, y)
  {
    SharedCompatibleIff(src, dst, srcBase, dstBase, pairs);
    PeerWindows(src, dst, srcBase, dstBase, Block);
    PeersShare(src, dst, srcBase, dstBase, pairs);
    TransferIff(src, dst, Shared(src, dst, pairs), srcBase, dstBase, x, y);
  }

  /** End to end: a plan over two projected views and their overlaps moves byte `x` to byte `y`
      exactly where they are the same byte of the elements at one global coordinate that both views
      show, in the two blocks of a pair, if and only if the innermost axis folds or no block is asked
      for; else it moves nothing. */
  lemma TransferEndToEnd(src: View, dst: View, srcBase: AnnotatedLayout, dstBase: AnnotatedLayout,
                         pairs: seq<(nat, nat)>, policy: Policy)
    requires Peers(src, dst, srcBase, dstBase) && Compatible(Projected(src), Projected(dst), Shared(src, dst, pairs))
    ensures var ops := PlanOf(Projected(src), Projected(dst), Shared(src, dst, pairs), policy).ops;
            var folds := InnermostFolds(Projected(src), Projected(dst), Shared(src, dst, pairs));
            && (MovesShared(src, dst, srcBase, dstBase, pairs, ops) <==> folds || pairs == [])
            && (!folds ==> NoMoves(ops))
  {
    var sel := Shared(src, dst, pairs);
    forall x: nat, y: nat
      ensures Wanted(Projected(src), Projected(dst), sel, x, y) <==>
          Transferred(src, dst, srcBase, dstBase, pairs, x, y)
    {
      SharedIsWanted(src, dst, srcBase, dstBase, pairs, x, y);
    }
    DeliversIff(Projected(src), Projected(dst), sel, policy);
  }

  /** An axis has no overlap of its own exactly if neither view restricts it. */
  lemma OverlapNoneIff(src: View, dst: View, k: nat)
    requires |src.dims| == |src.sizes| && |dst.dims| == |dst.sizes| && Distinct(src.dims) && k < |src.dims|
    requires Joins(src, dst, src.dims[k])
    ensures FindSlice(Overlaps(src, dst), src.dims[k]).None? <==> Unrestricted(src, dst, src.dims[k])
  {
    FindOverlap(src, dst, k);
  }

  lemma UnrestrictedSize(src: View, dst: View, srcBase: AnnotatedLayout, dstBase: AnnotatedLayout, k: nat)
    requires Peers(src, dst, srcBase, dstBase) && k < |src.dims| && dst.dims[k] == src.dims[k]
    requires Unrestricted(src, dst, src.dims[k])
    ensures src.sizes[k] == dst.sizes[k]
  {
    PeerWindows(src, dst, srcBase, dstBase, src.dims[k]);
    SizeAt(src.dims, src.sizes, k);
    SizeAt(dst.dims, dst.sizes, k);
  }

  /** Which axes one copy may span: in one place on both sides, no block or region axis, and
      restricted by neither view. */
  lemma SharedEligibleIff(src: View, dst: View, srcBase: AnnotatedLayout, dstBase: AnnotatedLayout,
                          pairs: seq<(nat, nat)>, k: nat)
    requires Peers(src, dst, srcBase, dstBase) && k < |src.dims|
    ensures SameRank(Projected(src), Projected(dst))
    ensures Eligible(Projected(src), Projected(dst), Shared(src, dst, pairs), k) <==>
            var d := src.dims[k];
            && dst.dims[k] == d && d != Block && Some(d) != srcBase.regionAxis && Some(d) != dstBase.regionAxis
            && Unrestricted(src, dst, d)
  {
    OverlapNoneIff(src, dst, k);
    if dst.dims[k] == src.dims[k] && Unrestricted(src, dst, src.dims[k]) {
      UnrestrictedSize(src, dst, srcBase, dstBase, k);
    }
  }

  lemma SelfMeets(v: View, base: AnnotatedLayout, k: nat)
    requires ViewOf(v, base) && k < |v.dims|
    ensures Joins(v, v, v.dims[k])
  {
    AxisOfView(v, base, k);
    WindowWithin(base, v.slices, k);
  }

  lemma SelfPeers(v: View, base: AnnotatedLayout)
    requires ViewOf(v, base)
    ensures Peers(v, v, base, base)
  {
    forall k | 0 <= k < |v.dims| ensures Joins(v, v, v.dims[k]) {
      SelfMeets(v, base, k);
    }
  }

  /** An axis that either view restricts has an overlap of its own... */
  lemma RestrictedFound(src: View, dst: View, srcBase: AnnotatedLayout, dstBase: AnnotatedLayout, k: nat)
    requires Peers(src, dst, srcBase, dstBase) && k < |src.dims| && !Unrestricted(src, dst, src.dims[k])
    ensures FindSlice(Overlaps(src, dst), src.dims[k]).Some?
  {
    FindOverlap(src, dst, k);
    assert Joins(src, dst, src.dims[k]);
  }

  /** ...and so never folds. */
  lemma SlicedNeverFolds(src: View, dst: View, sel: Selection)
    requires |src.dims| == |src.bytes| && |dst.dims| == |dst.bytes| && SameRank(Projected(src), Projected(dst))
    requires |src.dims| > 0 && FindSlice(sel.axisSlices, src.dims[|src.dims| - 1]).Some?
    ensures !InnermostFolds(Projected(src), Projected(dst), sel)
  {
  }

  ghost predicate SharesByte(src: View, dst: View, srcBase: AnnotatedLayout, dstBase: AnnotatedLayout,
                             pairs: seq<(nat, nat)>)
    requires |src.dims| == |src.sizes| && |dst.dims| == |dst.sizes|
  {
    exists x: nat, y: nat :: Transferred(src, dst, srcBase, dstBase, pairs, x, y)
  }

  lemma SharedNotMoved(src: View, dst: View, srcBase: AnnotatedLayout, dstBase: AnnotatedLayout,
                       pairs: seq<(nat, nat)>, ops: seq<CopyOp>)
    requires |src.dims| == |src.sizes| && |dst.dims| == |dst.sizes|
    requires NoMoves(ops) && !MovesShared(src, dst, srcBase, dstBase, pairs, ops)
    ensures SharesByte(src, dst, srcBase, dstBase, pairs)
  {
  }

  lemma UnfoldedMovesNothing(src: View, dst: View, srcBase: AnnotatedLayout, dstBase: AnnotatedLayout,
                             pairs: seq<(nat, nat)>, policy: Policy)
    requires Peers(src, dst, srcBase, dstBase) && Compatible(Projected(src), Projected(dst), Shared(src, dst, pairs))
    requires pairs != [] && !InnermostFolds(Projected(src), Projected(dst), Shared(src, dst, pairs))
    ensures SharesByte(src, dst, srcBase, dstBase, pairs)
    ensures NoMoves(PlanOf(Projected(src), Projected(dst), Shared(src, dst, pairs), policy).ops)
  {
    TransferEndToEnd(src, dst, srcBase, dstBase, pairs, policy);
    SharedNotMoved(src, dst, srcBase, dstBase, pairs,
                   PlanOf(Projected(src), Projected(dst), Shared(src, dst, pairs), policy).ops);
  }

  /** Views with an overlap on the innermost axis share bytes, and nothing is moved. */
  lemma RestrictedMovesNothing(src: View, dst: View, srcBase: AnnotatedLayout, dstBase: AnnotatedLayout,
                               pairs: seq<(nat, nat)>, policy: Policy)
    requires Peers(src, dst, srcBase, dstBase) && Compatible(Projected(src), Projected(dst), Shared(src, dst, pairs))
    requires pairs != [] && |src.dims| > 0 && FindSlice(Overlaps(src, dst), src.dims[|src.dims| - 1]).Some?
    ensures SharesByte(src, dst, srcBase, dstBase, pairs)
    ensures NoMoves(PlanOf(Projected(src), Projected(dst), Shared(src, dst, pairs), policy).ops)
  {
    SlicedNeverFolds(src, dst, Shared(src, dst, pairs));
    UnfoldedMovesNothing(src, dst, srcBase, dstBase, pairs, policy);
  }

  /** A window of the innermost axis of a whole view. */
  lemma SlicedInnermost(all: View, base: AnnotatedLayout, start: nat, len: nat)
    requires ViewOf(all, base) && Local(all).Valid() && all.slices == [] && |all.dims| > 0
    requires var n := |all.dims| - 1; all.dims[n] != Block && 0 < len < all.sizes[n] && start + len <= all.sizes[n]
    ensures var n := |all.dims| - 1;
            && SliceView(all, all.dims[n], start, len).Ok?
            && var v := SliceView(all, all.dims[n], start, len).value;
            && ViewOf(v, base) && v.dims == all.dims
            && SizeOr1(v.dims, v.sizes, Block) == SizeOr1(all.dims, all.sizes, Block)
            && IsFull(AxisOf(v, Block)) && !IsFull(AxisOf(v, v.dims[n]))
  {
    var n := |all.dims| - 1;
    SizeAt(all.dims, all.sizes, n);
    SliceShowsWindow(all, base, all.dims[n], start, len);
    var v := SliceView(all, all.dims[n], start, len).value;
    var k :| 0 <= k < |all.dims| && all.dims[k] == Block;
    SizeAt(v.dims, v.sizes, k);
    SizeAt(all.dims, all.sizes, k);
    SizeAt(base.dims, base.sizes, n);
  }

  lemma SelfAccepted(v: View, base: AnnotatedLayout, block: nat)
    requires ViewOf(v, base) && IsFull(AxisOf(v, Block)) && block < SizeOr1(v.dims, v.sizes, Block)
    ensures Peers(v, v, base, base) && Compatible(Projected(v), Projected(v), Shared(v, v, [(block, block)]))
  {
    SelfPeers(v, base);
    SharedCompatibleIff(v, v, base, base, [(block, block)]);
  }

  lemma SelfTransfer(v: View, base: AnnotatedLayout, block: nat, policy: Policy)
    requires ViewOf(v, base) && IsFull(AxisOf(v, Block)) && block < SizeOr1(v.dims, v.sizes, Block)
    requires |v.dims| > 0 && !IsFull(AxisOf(v, v.dims[|v.dims| - 1]))
    ensures var pairs := [(block, block)];
            && Peers(v, v, base, base) && Compatible(Projected(v), Projected(v), Shared(v, v, pairs))
            && SharesByte(v, v, base, base, pairs)
            && NoMoves(PlanOf(Projected(v), Projected(v), Shared(v, v, pairs), policy).ops)
  {
    SelfAccepted(v, base, block);
    RestrictedFound(v, v, base, base, |v.dims| - 1);
    RestrictedMovesNothing(v, v, base, base, [(block, block)], policy);
  }

  /** So it is for any layout, taken whole and then sliced along its innermost axis: such a view
      and itself share the window of every block, the request is accepted, and nothing is moved. */
  lemma SlicedInnermostMovesNothing(all: View, base: AnnotatedLayout, start: nat, len: nat, block: nat, policy: Policy)
    requires ViewOf(all, base) && Local(all).Valid() && all.slices == [] && |all.dims| > 0
    requires var n := |all.dims| - 1; all.dims[n] != Block && 0 < len < all.sizes[n] && start + len <= all.sizes[n]
    requires block < SizeOr1(all.dims, all.sizes, Block)
    ensures SliceView(all, all.dims[|all.dims| - 1], start, len).Ok?
    ensures var v, pairs := SliceView(all, all.dims[|all.dims| - 1], start, len).value, [(block, block)];
            && Peers(v, v, base, base) && Compatible(Projected(v), Projected(v), Shared(v, v, pairs))
            && SharesByte(v, v, base, base, pairs)
            && NoMoves(PlanOf(Projected(v), Projected(v), Shared(v, v, pairs), policy).ops)
  {
    SlicedInnermost(all, base, start, len);
    SelfTransfer(SliceView(all, all.dims[|all.dims| - 1], start, len).value, base, block, policy);
  }

  // ---- What it does to memory ----

  /** A view's elements share no byte if those of its allocation do not. */
  lemma ProjectedApart(v: View, base: AnnotatedLayout)
    requires ViewOf(v, base) && BytesApart(base)
    ensures BytesApart(Projected(v))
  {
    var a := Projected(v);
    forall c, c' | Addressable(a, c) && Addressable(a, c') && Overlap(a, c, c') ensures SameAt(a, c, c') {
      ProjectedAddress(v, base, c);
      ProjectedAddress(v, base, c');
      assert Overlap(base, Global(v, c), Global(v, c'));
      assert SameAt(base, Global(v, c), Global(v, c'));
      forall k | 0 <= k < |a.dims| ensures Get(c, a.dims[k]) == Get(c', a.dims[k]) {
        assert Get(Global(v, c), base.dims[k]) == Get(Global(v, c'), base.dims[k]);
      }
    }
  }

  /** What becomes of byte `y` of the destination: where the copies `reach` it, the source's byte. */
  ghost predicate ByteAfter<T>(src: View, dst: View, srcBase: AnnotatedLayout, dstBase: AnnotatedLayout,
                               pairs: seq<(nat, nat)>, reach: bool, byte: T, from: nat -> T, to: nat -> T, y: nat)
    requires |src.dims| == |src.sizes| && |dst.dims| == |dst.sizes|
  {
    && (reach ==> forall x: nat | Transferred(src, dst, srcBase, dstBase, pairs, x, y) :: byte == from(x))
    && ((forall x: nat :: !Transferred(src, dst, srcBase, dstBase, pairs, x, y)) ==> byte == to(y))
    && (!reach ==> byte == to(y))
  }

  /** What the transfer does to the destination allocation, if its elements share no byte and no
      destination block has two sources: where the innermost axis folds, every byte at a shared
      coordinate of a pair's destination block becomes the byte there in the source block; every
      other byte, and where it does not fold every byte, stays as it was. */
  lemma TransferPerforms<T>(src: View, dst: View, srcBase: AnnotatedLayout, dstBase: AnnotatedLayout,
                            pairs: seq<(nat, nat)>, policy: Policy, from: nat -> T, to: nat -> T, y: nat)
    requires Peers(src, dst, srcBase, dstBase) && Compatible(Projected(src), Projected(dst), Shared(src, dst, pairs))
    requires BytesApart(dstBase) && OneSource(pairs)
    ensures var a, b, sel := Projected(src), Projected(dst), Shared(src, dst, pairs);
            var memory, folds := Perform(PlanOf(a, b, sel, policy).ops, from, to), InnermostFolds(a, b, sel);
            ByteAfter(src, dst, srcBase, dstBase, pairs, folds, memory(y), from, to, y)
  {
    var sel := Shared(src, dst, pairs);
    ProjectedApart(dst, dstBase);
    forall x: nat
      ensures Wanted(Projected(src), Projected(dst), sel, x, y) <==>
          Transferred(src, dst, srcBase, dstBase, pairs, x, y)
    {
      SharedIsWanted(src, dst, srcBase, dstBase, pairs, x, y);
    }
    PlanPerforms(Projected(src), Projected(dst), sel, policy, from, to, y);
  }
}
