/** Planning a copy: checking the request, folding inner axes, emitting and merging copies. */
module CopyPlanner {
  import opened Outcome
  import opened Arithmetic
  import opened Tensor
  import opened Strides
  import opened Slices
  import opened CopyPlan
  import opened CopyEmit
  import opened CopyBytes
  import opened CopyMerge
  import opened CopyApart

  /** The two layouts have as many axes as each other, each with a size and a stride. */
  predicate SameRank(src: AnnotatedLayout, dst: AnnotatedLayout) {
    |src.dims| == |src.sizes| == |dst.dims| == |dst.sizes| == |src.bytes| == |dst.bytes|
  }

  // ---- Checking the request ----

  method ValidateAxisSlices(src: AnnotatedLayout, dst: AnnotatedLayout, sel: Selection) returns (r: Result<()>)
    requires src.Valid() && dst.Valid()
    ensures r.Ok? <==> SlicesFit(src, dst, sel.axisSlices)
  {
    var slices := sel.axisSlices;
    var seen: seq<KvDim> := [];
    for i := 0 to |slices|
      invariant |seen| == i && forall j | 0 <= j < i :: seen[j] == slices[j].dim
      invariant forall j | 0 <= j < i :: SliceFits(src, dst, slices[j])
      invariant forall j, k | 0 <= j < k < i :: slices[j].dim != slices[k].dim
    {
      var s := slices[i];
      if s.dim in seen {
        return Err("duplicate axis");
      }
      assert forall j | 0 <= j < i :: seen[j] != s.dim;
      seen := seen + [s.dim];
      var fits := CheckSlice(src, dst, s);
      if !fits {
        return Err("slice does not fit");
      }
    }
    return Ok(());
  }

  method CheckSlice(src: AnnotatedLayout, dst: AnnotatedLayout, s: AxisIntersection) returns (fits: bool)
    requires src.Valid() && dst.Valid()
    ensures fits <==> SliceFits(src, dst, s)
  {
    if s.dim == Block {
      return false;
    }
    FirstAtFinds(src.dims, s.dim);
    FirstAtFinds(dst.dims, s.dim);
    var srcSize, dstSize := SizeOf(src.dims, src.sizes, s.dim), SizeOf(dst.dims, dst.sizes, s.dim);
    if srcSize.None? || dstSize.None? || s.srcLocal.end > srcSize.value || s.dstLocal.end > dstSize.value {
      return false;
    }
    return RangeLen(s.srcLocal) == RangeLen(s.dstLocal) && s.srcLocal.start < s.srcLocal.end;
  }

  method CheckLabel(src: AnnotatedLayout, dst: AnnotatedLayout, sel: Selection, k: nat) returns (fits: bool)
    requires src.Valid() && dst.Valid() && SlicesFit(src, dst, sel.axisSlices) && k < |src.dims|
    ensures fits <==> LabelFits(src, dst, sel, src.dims[k])
  {
    var d := src.dims[k];
    SizeAt(src.dims, src.sizes, k);
    FirstAtFinds(dst.dims, d);
    var dstSize := SizeOf(dst.dims, dst.sizes, d);
    if dstSize.None? || d == Block {
      return dstSize.Some?;
    }
    FindSliceFinds(sel.axisSlices, d);
    match FindSlice(sel.axisSlices, d)
    case None =>
      return src.sizes[k] == dstSize.value;
    case Some(s) =>
      assert SliceFits(src, dst, s);
      return RangeLen(s.srcLocal) == RangeLen(s.dstLocal);
  }

  method CheckLabels(src: AnnotatedLayout, dst: AnnotatedLayout, sel: Selection) returns (r: Result<()>)
    requires src.Valid() && dst.Valid() && SlicesFit(src, dst, sel.axisSlices)
    ensures r.Ok? <==> LabelsFit(src, dst, sel)
  {
    if |src.dims| != |dst.dims| {
      return Err("rank mismatch");
    }
    for k := 0 to |src.dims|
      invariant forall j | 0 <= j < k :: LabelFits(src, dst, sel, src.dims[j])
    {
      var fits := CheckLabel(src, dst, sel, k);
      if !fits {
        return Err("label missing or effective sizes disagree");
      }
    }
    var known := AllPresent(dst.dims, src.dims);
    return if known then Ok(()) else Err("label missing in source");
  }

  method AllPresent(dims: seq<KvDim>, within: seq<KvDim>) returns (all: bool)
    ensures all <==> forall j | 0 <= j < |dims| :: dims[j] in within
  {
    for k := 0 to |dims|
      invariant forall j | 0 <= j < k :: dims[j] in within
    {
      FirstAtFinds(within, dims[k]);
      if FirstAt(within, dims[k]).None? {
        return false;
      }
    }
    return true;
  }

  method CheckBlocks(src: AnnotatedLayout, dst: AnnotatedLayout, pairs: seq<(nat, nat)>) returns (r: Result<()>)
    requires src.Valid() && dst.Valid()
    ensures r.Ok? <==> BlocksFit(src, dst, pairs)
  {
    var srcBlocks, dstBlocks := SizeOr1(src.dims, src.sizes, Block), SizeOr1(dst.dims, dst.sizes, Block);
    for i := 0 to |pairs|
      invariant BlocksFit(src, dst, pairs[..i])
    {
      if pairs[i].0 >= srcBlocks || pairs[i].1 >= dstBlocks {
        return Err("block id out of range");
      }
    }
    assert pairs[..|pairs|] == pairs;
    return Ok(());
  }

  // ---- Folding inner axes ----

  /** Where the axes that fold into one copy start, looking inward-out from `i`. */
  function FoldStart(src: AnnotatedLayout, dst: AnnotatedLayout, sel: Selection, i: nat): (s: nat)
    requires i <= |src.dims| == |src.sizes| == |dst.dims| == |dst.sizes| == |src.bytes| == |dst.bytes|
    ensures s <= i
  {
    if i == 0 || !Folds(src, dst, sel, i - 1) then i else FoldStart(src, dst, sel, i - 1)
  }

  lemma {:induction false} FoldStartFolds(src: AnnotatedLayout, dst: AnnotatedLayout, sel: Selection, i: nat)
    requires InnerFrom(src, dst, sel, i)
    ensures InnerFrom(src, dst, sel, FoldStart(src, dst, sel, i))
    ensures FoldStart(src, dst, sel, i) > 0 ==> !Folds(src, dst, sel, FoldStart(src, dst, sel, i) - 1)
  {
    if i > 0 && Folds(src, dst, sel, i - 1) {
      FoldStartFolds(src, dst, sel, i - 1);
    }
  }

  /** The bytes of one whole region, if the layout is split into regions. */
  function RegionCap(a: AnnotatedLayout): Option<nat>
    requires |a.dims| == |a.sizes|
  {
    match a.regionAxis
    case None => None
    case Some(d) =>
      FirstAtFinds(a.dims, d);
      match FirstAt(a.dims, d) case None => None case Some(pos) => Some(InnerBytes(a, pos + 1))
  }

  method RegionCapBytes(a: AnnotatedLayout) returns (cap: Option<nat>)
    requires a.Valid()
    ensures cap == RegionCap(a)
    ensures cap.Some? <==> a.regionAxis.Some?
    ensures forall k | 0 <= k < |a.dims| && Some(a.dims[k]) == a.regionAxis ::
              cap == Some(a.elemSize * Product(a.sizes[k + 1..]))
  {
    match a.regionAxis
    case None => return None;
    case Some(d) =>
      FirstAtFinds(a.dims, d);
      var pos := FirstAt(a.dims, d).value;
      var bytes := a.elemSize;
      var rest := a.sizes[pos + 1..];
      for i := 0 to |rest|
        invariant bytes * Product(rest[i..]) == a.elemSize * Product(rest)
      {
        ProductSplit(rest, i);
        MulAssoc(bytes, rest[i], Product(rest[i + 1..]));
        bytes := bytes * rest[i];
      }
      return Some(bytes);
  }

  function MinCap(x: Option<nat>, y: Option<nat>): Option<nat> {
    if x.None? then y else if y.None? then x else if x.value <= y.value then x else y
  }

  predicate Exceeds(bytes: nat, cap: Option<nat>) {
    cap.Some? && bytes > cap.value
  }

  /** The same walk, which also stops before a copy would be larger than `cap`. */
  function CappedStart(src: AnnotatedLayout, dst: AnnotatedLayout, sel: Selection, cap: Option<nat>, i: nat): (s: nat)
    requires i <= |src.dims| == |src.sizes| == |dst.dims| == |dst.sizes| == |src.bytes| == |dst.bytes|
    ensures s <= i
  {
    if i == 0 || !Folds(src, dst, sel, i - 1) || Exceeds(InnerBytes(src, i - 1), cap) then i
    else CappedStart(src, dst, sel, cap, i - 1)
  }

  lemma SuffixBytes(sizes: seq<nat>, p: nat, q: nat, elem: nat)
    requires p <= q <= |sizes| && forall k | 0 <= k < |sizes| :: sizes[k] > 0
    ensures elem * Product(sizes[q..]) <= elem * Product(sizes[p..])
  {
    var between, inner := sizes[p..q], sizes[q..];
    assert sizes[p..] == between + inner;
    ProductConcat(between, inner);
    ProductPositive(between);
    MulMono(1, Product(between), Product(inner));
    MulMono(Product(inner), Product(between) * Product(inner), elem);
  }

  /** Axes inside the region axis never add up to more than a region. */
  lemma WithinRegion(a: AnnotatedLayout, start: nat)
    requires a.Valid() && start <= |a.dims| && forall k | start <= k < |a.dims| :: Some(a.dims[k]) != a.regionAxis
    ensures !Exceeds(InnerBytes(a, start), RegionCap(a))
  {
    if a.regionAxis.Some? {
      FirstAtFinds(a.dims, a.regionAxis.value);
      SuffixBytes(a.sizes, FirstAt(a.dims, a.regionAxis.value).value + 1, start, a.elemSize);
    }
  }

  lemma InnerWithinRegions(src: AnnotatedLayout, dst: AnnotatedLayout, sel: Selection, start: nat)
    requires Compatible(src, dst, sel) && InnerFrom(src, dst, sel, start)
    ensures !Exceeds(InnerBytes(src, start), MinCap(RegionCap(src), RegionCap(dst)))
  {
    forall k | start <= k < |src.dims| ensures Some(src.dims[k]) != src.regionAxis &&
      Some(dst.dims[k]) != dst.regionAxis {
      assert Folds(src, dst, sel, k);
    }
    InnerShape(src, dst, sel, start);
    WithinRegion(src, start);
    WithinRegion(dst, start);
    assert InnerBytes(src, start) == InnerBytes(dst, start);
  }

  lemma {:induction false} CapIrrelevant(src: AnnotatedLayout, dst: AnnotatedLayout, sel: Selection, cap: Option<nat>,
                                         i: nat)
    requires i <= |src.dims| == |src.sizes| == |dst.dims| == |dst.sizes| == |src.bytes| == |dst.bytes|
    requires forall j | FoldStart(src, dst, sel, i) <= j <= i :: !Exceeds(InnerBytes(src, j), cap)
    ensures CappedStart(src, dst, sel, cap, i) == FoldStart(src, dst, sel, i)
  {
    if i > 0 && Folds(src, dst, sel, i - 1) {
      CapIrrelevant(src, dst, sel, cap, i - 1);
    }
  }

  /** So the cap never shortens a copy. */
  lemma CapNeverBinds(src: AnnotatedLayout, dst: AnnotatedLayout, sel: Selection)
    requires Compatible(src, dst, sel)
    ensures var n, cap := |src.dims|, MinCap(RegionCap(src), RegionCap(dst));
            !Exceeds(src.elemSize, cap) && CappedStart(src, dst, sel, cap, n) == FoldStart(src, dst, sel, n)
  {
    var n, cap := |src.dims|, MinCap(RegionCap(src), RegionCap(dst));
    FoldStartFolds(src, dst, sel, n);
    forall j | FoldStart(src, dst, sel, n) <= j <= n ensures !Exceeds(InnerBytes(src, j), cap) {
      InnerWithinRegions(src, dst, sel, j);
    }
    assert InnerBytes(src, n) == src.elemSize;
    CapIrrelevant(src, dst, sel, cap, n);
  }

  method MatchingSuffix(src: AnnotatedLayout, dst: AnnotatedLayout, sel: Selection) returns (start: nat)
    requires |src.dims| == |src.sizes| == |dst.dims| == |dst.sizes|
    ensures start <= |src.dims| && forall k | start <= k < |src.dims| :: Eligible(src, dst, sel, k)
    ensures start > 0 ==> !Eligible(src, dst, sel, start - 1)
  {
    start := |src.dims|;
    while start > 0 && Eligible(src, dst, sel, start - 1)
      invariant start <= |src.dims| && forall k | start <= k < |src.dims| :: Eligible(src, dst, sel, k)
    {
      start := start - 1;
    }
  }

  function Times(a: nat, b: nat): nat {
    a * b
  }

  lemma InnerBytesStep(a: AnnotatedLayout, k: nat)
    requires 0 < k <= |a.sizes|
    ensures InnerBytes(a, k - 1) == Times(InnerBytes(a, k), a.sizes[k - 1])
  {
    ProductSplit(a.sizes, k - 1);
    MulSwap(a.sizes[k - 1], a.elemSize, Product(a.sizes[k..]));
  }

  lemma CappedStep(src: AnnotatedLayout, dst: AnnotatedLayout, sel: Selection, cap: Option<nat>, k: nat)
    requires 0 < k <= |src.dims| == |src.sizes| == |dst.dims| == |dst.sizes| == |src.bytes| == |dst.bytes|
    ensures CappedStart(src, dst, sel, cap, k)
            == if Eligible(src, dst, sel, k - 1) && src.bytes[k - 1] == dst.bytes[k - 1] == InnerBytes(src, k) &&
              !Exceeds(InnerBytes(src, k - 1), cap)
               then CappedStart(src, dst, sel, cap, k - 1) else k
  {
  }

  /** The bytes of one contiguous copy and the number of axes it spans. */
  method ComputeInnerBytes(src: AnnotatedLayout, dst: AnnotatedLayout, sel: Selection, matching: nat)
    returns (bytes: nat, accepted: nat)
    requires src.Valid() && dst.Valid() && matching <= |src.dims| == |dst.dims|
    requires forall k | matching <= k < |src.dims| :: Eligible(src, dst, sel, k)
    requires matching > 0 ==> !Eligible(src, dst, sel, matching - 1)
    ensures var n, cap := |src.dims|, MinCap(RegionCap(src), RegionCap(dst));
            && accepted == n - (if Exceeds(src.elemSize, cap) then n else CappedStart(src, dst, sel, cap, n))
            && bytes == if accepted == 0 then 0 else InnerBytes(src, n - accepted)
  {
    var srcCap := RegionCapBytes(src);
    var dstCap := RegionCapBytes(dst);
    var cap := MinCap(srcCap, dstCap);
    if Exceeds(src.elemSize, cap) {
      return 0, 0;
    }
    bytes, accepted := WalkInner(src, dst, sel, matching, cap);
    if accepted == 0 {
      bytes := 0;
    }
  }

  method WalkInner(src: AnnotatedLayout, dst: AnnotatedLayout, sel: Selection, matching: nat, cap: Option<nat>)
    returns (bytes: nat, accepted: nat)
    requires matching <= |src.dims| == |src.sizes| == |dst.dims| == |dst.sizes| == |src.bytes| == |dst.bytes|
    requires forall k | matching <= k < |src.dims| :: Eligible(src, dst, sel, k)
    requires matching > 0 ==> !Eligible(src, dst, sel, matching - 1)
    ensures accepted == |src.dims| - CappedStart(src, dst, sel, cap, |src.dims|) &&
        bytes == InnerBytes(src, |src.dims| - accepted)
  {
    var k := |src.dims|;
    bytes := src.elemSize;
    while k > matching
      invariant matching <= k <= |src.dims| && bytes == InnerBytes(src, k)
      invariant CappedStart(src, dst, sel, cap, |src.dims|) == CappedStart(src, dst, sel, cap, k)
    {
      CappedStep(src, dst, sel, cap, k);
      InnerBytesStep(src, k);
      if src.bytes[k - 1] != bytes || dst.bytes[k - 1] != bytes {
        break;
      }
      var next := Times(bytes, src.sizes[k - 1]);
      if Exceeds(next, cap) {
        break;
      }
      bytes, k := next, k - 1;
    }
    assert CappedStart(src, dst, sel, cap, k) == k;
    accepted := |src.dims| - k;
  }

  /** What the walk finds: the innermost axes that fold, all of them. */
  lemma InnerBytesExact(src: AnnotatedLayout, dst: AnnotatedLayout, sel: Selection)
    requires Compatible(src, dst, sel)
    ensures var n, cap := |src.dims|, MinCap(RegionCap(src), RegionCap(dst));
            && !Exceeds(src.elemSize, cap)
            && CappedStart(src, dst, sel, cap, n) == FoldStart(src, dst, sel, n)
            && InnerFrom(src, dst, sel, FoldStart(src, dst, sel, n))
            && InnerBytes(src, FoldStart(src, dst, sel, n)) > 0
  {
    var n := |src.dims|;
    CapNeverBinds(src, dst, sel);
    FoldStartFolds(src, dst, sel, n);
    var inner := src.sizes[FoldStart(src, dst, sel, n)..];
    ProductPositive(inner);
    MulPositive(src.elemSize, Product(inner));
  }

  method BuildOuter(src: AnnotatedLayout, sel: Selection, start: nat) returns (outer: Axes)
    requires |src.dims| == |src.sizes| && Distinct(src.dims) && start <= |src.dims|
    ensures outer == OuterAxes(src, sel, start)
  {
    var inner := src.dims[start..];
    outer := [];
    for k := 0 to |src.dims|
      invariant outer == OuterAxes(src, sel, if k <= start then k else start)
    {
      if k < start {
        assert src.dims[k] !in inner;
      } else {
        assert inner[k - start] == src.dims[k];
      }
      if src.dims[k] !in inner {
        outer := outer + [(src.dims[k], RangeFor(sel, src.dims[k], src.sizes[k]))];
      }
    }
  }

  // ---- Planning ----

  ghost predicate NoMoves(ops: seq<CopyOp>) {
    forall x: nat, y: nat :: !Moves(ops, x, y)
  }

  /** The copies move exactly the selected bytes. */
  ghost predicate MovesWanted(src: AnnotatedLayout, dst: AnnotatedLayout, sel: Selection, ops: seq<CopyOp>) {
    forall x: nat, y: nat :: Moves(ops, x, y) <==> Wanted(src, dst, sel, x, y)
  }

  ghost predicate Uniform(ops: seq<CopyOp>, size: nat) {
    forall i | 0 <= i < |ops| :: ops[i].size == size
  }

  lemma EmittedUniform(src: AnnotatedLayout, dst: AnnotatedLayout, sel: Selection, outer: Axes, inner: nat)
    ensures Uniform(EmitFrom(src, dst, sel, outer, inner, []), inner)
    ensures inner == 0 ==> NoMoves(EmitFrom(src, dst, sel, outer, inner, []))
  {
    var ops := EmitFrom(src, dst, sel, outer, inner, []);
    forall i | 0 <= i < |ops| ensures ops[i].size == inner {
      var full := EmitSound(src, dst, sel, outer, inner, [], ops[i]);
    }
  }

  lemma EmittedMovesWanted(src: AnnotatedLayout, dst: AnnotatedLayout, sel: Selection, start: nat)
    requires Planned(src, dst, sel, start)
    ensures MovesWanted(src, dst, sel, Emitted(src, dst, sel, start))
  {
    forall x: nat, y: nat ensures Moves(Emitted(src, dst, sel, start), x, y) <==> Wanted(src, dst, sel, x, y) {
      EmittedBytes(src, dst, sel, start, x, y);
    }
  }

  /** The bytes one copy of a plan spans; none if not even the innermost axis folds. */
  function CopyBytesOf(src: AnnotatedLayout, dst: AnnotatedLayout, sel: Selection): nat
    requires SameRank(src, dst)
  {
    var start := FoldStart(src, dst, sel, |src.dims|);
    if start == |src.dims| then 0 else InnerBytes(src, start)
  }

  /** One copy for every choice of coordinates of the axes that do not fold. */
  ghost function PlannedCopies(src: AnnotatedLayout, dst: AnnotatedLayout, sel: Selection): seq<CopyOp>
    requires SameRank(src, dst)
  {
    var outer := OuterAxes(src, sel, FoldStart(src, dst, sel, |src.dims|));
    EmitFrom(src, dst, sel, outer, CopyBytesOf(src, dst, sel), [])
  }

  /** The plan: direct copies if they reach the threshold, merged if the policy says so; else a
      batch of copies of one size, empty if that size is zero. */
  ghost function PlanOf(src: AnnotatedLayout, dst: AnnotatedLayout, sel: Selection, policy: Policy): Plan
    requires SameRank(src, dst)
  {
    var bytes, copies := CopyBytesOf(src, dst, sel), PlannedCopies(src, dst, sel);
    if bytes >= policy.minInnerBytes then Direct(if policy.coalesce then Coalesced(copies) else copies)
    else Transform(if bytes == 0 then [] else copies)
  }

  /** The guard a caller can check: the innermost axis folds. */
  predicate InnermostFolds(src: AnnotatedLayout, dst: AnnotatedLayout, sel: Selection)
    requires SameRank(src, dst)
  {
    |src.dims| > 0 && Folds(src, dst, sel, |src.dims| - 1)
  }

  /** It does if it is eligible and both sides store it element by element. */
  lemma InnermostFoldsIff(src: AnnotatedLayout, dst: AnnotatedLayout, sel: Selection)
    requires SameRank(src, dst) && |src.dims| > 0
    ensures InnermostFolds(src, dst, sel) <==>
            var n := |src.dims| - 1; Eligible(src, dst, sel, n) && src.bytes[n] == dst.bytes[n] == src.elemSize
  {
    assert src.sizes[|src.sizes|..] == [];
  }

  lemma CopyBytesPositive(src: AnnotatedLayout, dst: AnnotatedLayout, sel: Selection)
    requires Compatible(src, dst, sel)
    ensures Planned(src, dst, sel, FoldStart(src, dst, sel, |src.dims|))
    ensures InnermostFolds(src, dst, sel) <==> FoldStart(src, dst, sel, |src.dims|) < |src.dims|
    ensures InnermostFolds(src, dst, sel) <==> CopyBytesOf(src, dst, sel) > 0
  {
    InnerBytesExact(src, dst, sel);
  }

  /** What the copies do: they move the selected bytes if the innermost axis folds, and else none. */
  lemma CopiesMove(src: AnnotatedLayout, dst: AnnotatedLayout, sel: Selection)
    requires Compatible(src, dst, sel)
    ensures Uniform(PlannedCopies(src, dst, sel), CopyBytesOf(src, dst, sel))
    ensures InnermostFolds(src, dst, sel) ==> MovesWanted(src, dst, sel, PlannedCopies(src, dst, sel))
    ensures !InnermostFolds(src, dst, sel) ==> NoMoves(PlannedCopies(src, dst, sel))
  {
    var start := FoldStart(src, dst, sel, |src.dims|);
    CopyBytesPositive(src, dst, sel);
    EmittedUniform(src, dst, sel, OuterAxes(src, sel, start), CopyBytesOf(src, dst, sel));
    if InnermostFolds(src, dst, sel) {
      EmittedMovesWanted(src, dst, sel, start);
    }
  }

  lemma PlanMoves(src: AnnotatedLayout, dst: AnnotatedLayout, sel: Selection, policy: Policy)
    requires Compatible(src, dst, sel)
    ensures InnermostFolds(src, dst, sel) ==> MovesWanted(src, dst, sel, PlanOf(src, dst, sel, policy).ops)
    ensures !InnermostFolds(src, dst, sel) ==> NoMoves(PlanOf(src, dst, sel, policy).ops)
  {
    CopyBytesPositive(src, dst, sel);
    CopiesMove(src, dst, sel);
    CoalescedKeeps(PlannedCopies(src, dst, sel));
  }

  /** Any block pair selects some byte. */
  lemma WantedSome(src: AnnotatedLayout, dst: AnnotatedLayout, sel: Selection)
    requires Compatible(src, dst, sel) && sel.blockPairs != []
    ensures exists x: nat, y: nat :: Wanted(src, dst, sel, x, y)
  {
    OriginSelected(src, dst, sel, 0);
  }

  /** A plan delivers its selection exactly if the innermost axis folds, or no block was asked
      for; else it moves nothing. */
  lemma DeliversIff(src: AnnotatedLayout, dst: AnnotatedLayout, sel: Selection, policy: Policy)
    requires Compatible(src, dst, sel)
    ensures MovesWanted(src, dst, sel, PlanOf(src, dst, sel, policy).ops)
            <==> InnermostFolds(src, dst, sel) || sel.blockPairs == []
    ensures !InnermostFolds(src, dst, sel) ==> NoMoves(PlanOf(src, dst, sel, policy).ops)
  {
    PlanMoves(src, dst, sel, policy);
    if !InnermostFolds(src, dst, sel) && sel.blockPairs != [] {
      WantedSome(src, dst, sel);
    }
  }

  /** There is a copy to plan exactly if some block is asked for. */
  lemma CopiesIff(src: AnnotatedLayout, dst: AnnotatedLayout, sel: Selection)
    requires Compatible(src, dst, sel)
    ensures PlannedCopies(src, dst, sel) == [] <==> sel.blockPairs == []
  {
    var start, inner := FoldStart(src, dst, sel, |src.dims|), CopyBytesOf(src, dst, sel);
    CopyBytesPositive(src, dst, sel);
    if sel.blockPairs != [] {
      OriginSelected(src, dst, sel, 0);
      OuterPartChosen(src, sel, start, 0, ORIGIN);
      EmitComplete(src, dst, sel, OuterAxes(src, sel, start), inner, [], OuterPart(src, start, 0, ORIGIN));
    }
    if PlannedCopies(src, dst, sel) != [] {
      OuterLabels(src, dst, sel, start);
      var k :| 0 <= k < |src.dims| && src.dims[k] == Block;
      var full := EmitSound(src, dst, sel, OuterAxes(src, sel, start), inner, [], PlannedCopies(src, dst, sel)[0]);
      assert full[k] < LenAt(sel, OuterAxes(src, sel, start)[k]);
    }
  }

  /** A layout of blocks alone has no axis that folds: its plan is accepted and copies nothing. */
  lemma NothingFolds(policy: Policy)
    ensures var a := AnnotatedLayout([0], None, [Block], [1], [1], 1);
            var sel := Selection([(0, 0)], []);
            && Compatible(a, a, sel) && !InnermostFolds(a, a, sel)
            && (exists x: nat, y: nat :: Wanted(a, a, sel, x, y))
            && NoMoves(PlanOf(a, a, sel, policy).ops)
  {
    var a := AnnotatedLayout([0], None, [Block], [1], [1], 1);
    var sel := Selection([(0, 0)], []);
    assert !Folds(a, a, sel, 0);
    WantedSome(a, a, sel);
    PlanMoves(a, a, sel, policy);
  }

  // ---- How many copies, and of how many bytes ----

  /** The axes from `start` on fold, and no more do. */
  ghost predicate FoldsFrom(src: AnnotatedLayout, dst: AnnotatedLayout, sel: Selection, start: nat)
    requires SameRank(src, dst)
  {
    InnerFrom(src, dst, sel, start) && (start > 0 ==> !Folds(src, dst, sel, start - 1))
  }

  /** How often each of the first axes is walked: the block axis once per pair, any other over its
      slice or else its whole size. */
  ghost function WalkedLens(src: AnnotatedLayout, sel: Selection, n: nat): seq<nat>
    requires n <= |src.dims| == |src.sizes|
  {
    seq(n, k requires 0 <= k < n =>
      if src.dims[k] == Block then |sel.blockPairs| else RangeFor(sel, src.dims[k], src.sizes[k]).len)
  }

  lemma WalksAre(src: AnnotatedLayout, sel: Selection, start: nat)
    requires start <= |src.dims| == |src.sizes|
    ensures Walks(sel, OuterAxes(src, sel, start))[0..] == WalkedLens(src, sel, start)
  {
  }

  lemma FoldsFromIsStart(src: AnnotatedLayout, dst: AnnotatedLayout, sel: Selection, start: nat)
    requires Compatible(src, dst, sel) && FoldsFrom(src, dst, sel, start)
    ensures start == FoldStart(src, dst, sel, |src.dims|)
  {
    CopyBytesPositive(src, dst, sel);
    FoldStartFolds(src, dst, sel, |src.dims|);
  }

  /** The copies planned: one for every choice of the axes that do not fold, each of all the bytes of
      those that do. */
  lemma CopiesCount(src: AnnotatedLayout, dst: AnnotatedLayout, sel: Selection, start: nat)
    requires Compatible(src, dst, sel) && FoldsFrom(src, dst, sel, start)
    ensures |PlannedCopies(src, dst, sel)| == Product(WalkedLens(src, sel, start))
    ensures CopyBytesOf(src, dst, sel) == if start == |src.dims| then 0 else src.elemSize * Product(src.sizes[start..])
  {
    FoldsFromIsStart(src, dst, sel, start);
    EmitCount(src, dst, sel, OuterAxes(src, sel, start), CopyBytesOf(src, dst, sel), []);
    WalksAre(src, sel, start);
  }

  lemma WalkedInner(src: AnnotatedLayout, dst: AnnotatedLayout, sel: Selection, start: nat)
    requires Compatible(src, dst, sel) && InnerFrom(src, dst, sel, start)
    ensures WalkedLens(src, sel, |src.dims|) == WalkedLens(src, sel, start) + src.sizes[start..]
  {
    forall k | start <= k < |src.dims| ensures WalkedLens(src, sel, |src.dims|)[k] == src.sizes[k] {
      assert Folds(src, dst, sel, k);
    }
  }

  /** Conservation: the copies planned span as many bytes as the elements selected. */
  lemma BytesConserved(src: AnnotatedLayout, dst: AnnotatedLayout, sel: Selection)
    requires Compatible(src, dst, sel) && InnermostFolds(src, dst, sel)
    ensures |PlannedCopies(src, dst, sel)| * CopyBytesOf(src, dst, sel)
            == src.elemSize * Product(WalkedLens(src, sel, |src.dims|))
  {
    var start := FoldStart(src, dst, sel, |src.dims|);
    CopyBytesPositive(src, dst, sel);
    FoldStartFolds(src, dst, sel, |src.dims|);
    CopiesCount(src, dst, sel, start);
    WalkedInner(src, dst, sel, start);
    ProductConcat(WalkedLens(src, sel, start), src.sizes[start..]);
    MulSwap(Product(WalkedLens(src, sel, start)), src.elemSize, Product(src.sizes[start..]));
  }

  /** Between row-major tensors, outermost axis the blocks, every pair is one copy of a whole block. */
  lemma WholeBlocks(src: AnnotatedLayout, dst: AnnotatedLayout, sel: Selection)
    requires Compatible(src, dst, sel) && sel.axisSlices == [] && src.dims == dst.dims && src.dims[0] == Block
    requires |src.dims| > 1 && src.regionAxis.None? && dst.regionAxis.None?
    requires RowMajorStrides(src.bytes, src.sizes, src.elemSize) && RowMajorStrides(dst.bytes, dst.sizes, dst.elemSize)
    ensures CopyBytesOf(src, dst, sel) == src.elemSize * Product(src.sizes[1..])
    ensures |PlannedCopies(src, dst, sel)| == |sel.blockPairs|
  {
    forall k | 1 <= k < |src.dims| ensures src.sizes[k] == dst.sizes[k] {
      assert LabelFits(src, dst, sel, src.dims[k]);
      SizeAt(src.dims, src.sizes, k);
      SizeAt(dst.dims, dst.sizes, k);
    }
    forall k | 1 <= k < |src.dims| ensures Folds(src, dst, sel, k) {
      assert src.sizes[k + 1..] == dst.sizes[k + 1..];
      assert src.dims[k] != src.dims[0];
    }
    CopiesCount(src, dst, sel, 1);
    assert WalkedLens(src, sel, 1) == [|sel.blockPairs|];
    assert Product([|sel.blockPairs|]) == |sel.blockPairs| * Product([]) by {
      assert [|sel.blockPairs|][1..] == [];
    }
  }

  method CheckRequest(src: AnnotatedLayout, dst: AnnotatedLayout, sel: Selection) returns (r: Result<()>)
    requires src.Valid() && dst.Valid()
    ensures r.Ok? <==> Compatible(src, dst, sel)
  {
    r := ValidateAxisSlices(src, dst, sel);
    if r.Err? {
      return;
    }
    r := CheckLabels(src, dst, sel);
    if r.Err? {
      return;
    }
    if src.elemSize != dst.elemSize {
      return Err("element sizes differ");
    }
    r := CheckBlocks(src, dst, sel.blockPairs);
  }

  /** The bytes of one copy, and the axis its accepted axes start at. */
  method MeasureInner(src: AnnotatedLayout, dst: AnnotatedLayout, sel: Selection) returns (inner: nat, start: nat)
    requires Compatible(src, dst, sel)
    ensures start == FoldStart(src, dst, sel, |src.dims|) && inner == CopyBytesOf(src, dst, sel)
    ensures Planned(src, dst, sel, start)
    ensures inner == 0 <==> start == |src.dims|
  {
    var matching := MatchingSuffix(src, dst, sel);
    var accepted;
    inner, accepted := ComputeInnerBytes(src, dst, sel, matching);
    start := |src.dims| - accepted;
    InnerBytesExact(src, dst, sel);
  }

  method Emit(src: AnnotatedLayout, dst: AnnotatedLayout, sel: Selection, start: nat, inner: nat)
    returns (ops: seq<CopyOp>)
    requires Planned(src, dst, sel, start)
    ensures ops == EmitFrom(src, dst, sel, OuterAxes(src, sel, start), inner, [])
  {
    ChoicesAddressable(src, dst, sel, start);
    var outer := BuildOuter(src, sel, start);
    var r := EmitOuter(src, dst, outer, 0, map[], map[], sel, inner, []);
    ops := r.value;
  }

  method MakePlan(src: AnnotatedLayout, dst: AnnotatedLayout, sel: Selection, policy: Policy) returns (plan: Plan)
    requires Compatible(src, dst, sel)
    ensures plan == PlanOf(src, dst, sel, policy)
  {
    var inner, start := MeasureInner(src, dst, sel);
    if inner < policy.minInnerBytes && inner == 0 {
      return Transform([]);
    }
    var ops := Emit(src, dst, sel, start, inner);
    if inner < policy.minInnerBytes {
      return Transform(ops);
    }
    if policy.coalesce {
      ops := Coalesce(ops);
    }
    return Direct(ops);
  }

  /** What a plan promises. It is direct exactly if its copies reach the threshold; it moves the
      selected bytes and no others exactly if the innermost axis folds or no block was asked
      for, and otherwise moves nothing; its copies are merged where they are direct and the
      policy says so. Else they all have the same size, and there is one for every choice of the axes
      that do not fold, but none at all in a batch where nothing folds: a batch holds no empty copy. */
  ghost predicate Realizes(src: AnnotatedLayout, dst: AnnotatedLayout, sel: Selection, policy: Policy, plan: Plan)
    requires SameRank(src, dst)
  {
    && (plan.Direct? <==> CopyBytesOf(src, dst, sel) >= policy.minInnerBytes)
    && (MovesWanted(src, dst, sel, plan.ops) <==> InnermostFolds(src, dst, sel) || sel.blockPairs == [])
    && (!InnermostFolds(src, dst, sel) ==> NoMoves(plan.ops))
    && (plan.Direct? && policy.coalesce ==> plan.ops == Coalesced(PlannedCopies(src, dst, sel)))
    && (plan.Transform? || !policy.coalesce ==> Uniform(plan.ops, CopyBytesOf(src, dst, sel)))
    && (plan.Transform? ==> Positive(plan.ops))
    && (plan.Transform? ==> (plan.ops == [] <==> !InnermostFolds(src, dst, sel) || sel.blockPairs == []))
    && ((plan.Transform? || !policy.coalesce) && InnermostFolds(src, dst, sel) ==>
          forall start: nat | FoldsFrom(src, dst, sel, start) ::
            |plan.ops| == Product(WalkedLens(src, sel, start)) && Uniform(plan.ops, InnerBytes(src, start)))
  }

  lemma PlanRealizes(src: AnnotatedLayout, dst: AnnotatedLayout, sel: Selection, policy: Policy)
    requires Compatible(src, dst, sel)
    ensures Realizes(src, dst, sel, policy, PlanOf(src, dst, sel, policy))
  {
    DeliversIff(src, dst, sel, policy);
    CopiesMove(src, dst, sel);
    CopyBytesPositive(src, dst, sel);
    CopiesIff(src, dst, sel);
    forall start: nat | FoldsFrom(src, dst, sel, start)
      ensures |PlannedCopies(src, dst, sel)| == Product(WalkedLens(src, sel, start))
      ensures InnermostFolds(src, dst, sel) ==> CopyBytesOf(src, dst, sel) == InnerBytes(src, start)
    {
      CopiesCount(src, dst, sel, start);
      FoldsFromIsStart(src, dst, sel, start);
    }
  }

  /** A plan is made exactly for compatible requests, and does what it promises. */
  method PlanCopy(src: AnnotatedLayout, dst: AnnotatedLayout, sel: Selection, policy: Policy) returns (r: Result<Plan>)
    requires src.Valid() && dst.Valid()
    ensures r.Ok? <==> Compatible(src, dst, sel)
    ensures r.Ok? ==> r.value == PlanOf(src, dst, sel, policy) && Realizes(src, dst, sel, policy, r.value)
  {
    var checked := CheckRequest(src, dst, sel);
    if checked.Err? {
      return Err(checked.reason);
    }
    var plan := MakePlan(src, dst, sel, policy);
    PlanRealizes(src, dst, sel, policy);
    return Ok(plan);
  }
}
