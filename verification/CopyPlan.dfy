/** The copy planner: from two strided, possibly region-split layouts and a selection of blocks
    and coordinate ranges to a list of byte copies. */
module CopyPlan {
  import opened Outcome
  import opened Tensor
  import opened Strides
  import opened Slices

  /** A layout with strides and base addresses. The region axis, if any, selects a base
      address instead of contributing an offset. */
  datatype AnnotatedLayout = AnnotatedLayout(
    regions: seq<nat>, regionAxis: Option<KvDim>,
    dims: seq<KvDim>, sizes: seq<nat>, bytes: seq<nat>, elemSize: nat)
  {
    ghost predicate Valid() {
      && WellLabelled(dims, sizes)
      && |bytes| == |dims|
      && elemSize > 0
      && (regionAxis.None? ==> |regions| == 1)
      && (regionAxis.Some? ==> regionAxis.value in dims && |regions| == SizeOr1(dims, sizes, regionAxis.value))
    }
  }

  function NewAnnotated(regions: seq<nat>, regionAxis: Option<KvDim>, l: KvDimLayout,
                        s: KvDimStrides): (r: Result<AnnotatedLayout>)
    requires WellLabelled(l.dims, l.sizes) && s.elemSize > 0
    ensures r.Ok? ==> r.value.Valid()
    ensures r.Ok? ==> r.value == AnnotatedLayout(regions, regionAxis, l.dims, l.sizes, s.bytes, s.elemSize)
    ensures r.Ok? <==> AnnotatedLayout(regions, regionAxis, l.dims, l.sizes, s.bytes, s.elemSize).Valid()
  {
    if |s.bytes| != |l.dims| then Err("stride rank differs")
    else match regionAxis
      case Some(d) =>
        (FirstAtFinds(l.dims, d);
         match SizeOf(l.dims, l.sizes, d)
         case None => Err("region axis not in layout")
         case Some(size) =>
           if |regions| != size then Err("one region per region-axis coordinate")
           else Ok(AnnotatedLayout(regions, regionAxis, l.dims, l.sizes, s.bytes, s.elemSize)))
      case None =>
        if |regions| != 1 then Err("exactly one region")
        else Ok(AnnotatedLayout(regions, regionAxis, l.dims, l.sizes, s.bytes, s.elemSize))
  }

  // ---- Addresses ----

  /** A coordinate by label; an axis left out counts as zero. */
  type Coord = map<KvDim, nat>

  function Get(c: Coord, d: KvDim): nat {
    if d in c then c[d] else 0
  }

  /** The in-tensor offset of a coordinate, leaving out the axis `skip`. */
  function OffsetOf(dims: seq<KvDim>, bytes: seq<nat>, skip: Option<KvDim>, c: Coord): nat
    requires |dims| == |bytes|
  {
    if dims == [] then 0
    else (if Some(dims[0]) == skip then 0 else bytes[0] * Get(c, dims[0])) + OffsetOf(dims[1..], bytes[1..], skip, c)
  }

  ghost predicate InRange(dims: seq<KvDim>, sizes: seq<nat>, skip: Option<KvDim>, c: Coord)
    requires |dims| == |sizes|
  {
    forall i | 0 <= i < |dims| :: Some(dims[i]) != skip ==> Get(c, dims[i]) < sizes[i]
  }

  ghost predicate RegionGiven(a: AnnotatedLayout, c: Coord) {
    a.regionAxis.Some? ==> a.regionAxis.value in c && c[a.regionAxis.value] < |a.regions|
  }

  ghost predicate Addressable(a: AnnotatedLayout, c: Coord) {
    a.Valid() && RegionGiven(a, c) && InRange(a.dims, a.sizes, a.regionAxis, c)
  }

  /** The byte address of a coordinate that has one. */
  ghost function Address(a: AnnotatedLayout, c: Coord): nat {
    if !Addressable(a, c) then 0
    else
      var region := if a.regionAxis.Some? then c[a.regionAxis.value] else 0;
      a.regions[region] + OffsetOf(a.dims, a.bytes, a.regionAxis, c)
  }

  method AddrOf(a: AnnotatedLayout, c: Coord) returns (r: Result<nat>)
    requires a.Valid()
    ensures r.Ok? <==> Addressable(a, c)
    ensures r.Ok? ==> r.value == Address(a, c)
  {
    var region := 0;
    if a.regionAxis.Some? {
      if a.regionAxis.value !in c {
        return Err("missing coordinate for the region axis");
      }
      region := c[a.regionAxis.value];
    }
    if region >= |a.regions| {
      return Err("region index out of range");
    }
    var off := 0;
    for i := 0 to |a.dims|
      invariant off + OffsetOf(a.dims[i..], a.bytes[i..], a.regionAxis, c) == OffsetOf(a.dims, a.bytes, a.regionAxis, c)
      invariant forall j | 0 <= j < i :: Some(a.dims[j]) != a.regionAxis ==> Get(c, a.dims[j]) < a.sizes[j]
    {
      assert a.dims[i..][1..] == a.dims[i + 1..] && a.bytes[i..][1..] == a.bytes[i + 1..];
      if Some(a.dims[i]) != a.regionAxis {
        if Get(c, a.dims[i]) >= a.sizes[i] {
          return Err("coordinate out of range");
        }
        off := off + a.bytes[i] * Get(c, a.dims[i]);
      }
    }
    return Ok(a.regions[region] + off);
  }

  // ---- Selections ----

  /** Block pairs to copy, and coordinate ranges that restrict other axes. */
  datatype Selection = Selection(blockPairs: seq<(nat, nat)>, axisSlices: seq<AxisIntersection>)

  function FindSlice(slices: seq<AxisIntersection>, d: KvDim): Option<AxisIntersection> {
    if slices == [] then None else if slices[0].dim == d then Some(slices[0]) else FindSlice(slices[1..], d)
  }

  function RangeLen(r: Range): nat {
    if r.start <= r.end then r.end - r.start else 0
  }

  /** How one axis is walked: from where on each side, and how far. */
  datatype OuterRange = OuterRange(srcStart: nat, dstStart: nat, len: nat)

  function RangeFor(sel: Selection, d: KvDim, size: nat): OuterRange {
    match FindSlice(sel.axisSlices, d)
    case Some(s) => OuterRange(s.srcLocal.start, s.dstLocal.start, RangeLen(s.srcLocal))
    case None => OuterRange(0, 0, size)
  }

  ghost predicate SliceFits(src: AnnotatedLayout, dst: AnnotatedLayout, s: AxisIntersection)
    requires src.Valid() && dst.Valid()
  {
    && s.dim != Block && s.dim in src.dims && s.dim in dst.dims
    && s.srcLocal.end <= SizeOr1(src.dims, src.sizes, s.dim)
    && s.dstLocal.end <= SizeOr1(dst.dims, dst.sizes, s.dim)
    && RangeLen(s.srcLocal) == RangeLen(s.dstLocal) > 0
  }

  ghost predicate SlicesFit(src: AnnotatedLayout, dst: AnnotatedLayout, slices: seq<AxisIntersection>)
    requires src.Valid() && dst.Valid()
  {
    && (forall i | 0 <= i < |slices| :: SliceFits(src, dst, slices[i]))
    && (forall i, j | 0 <= i < j < |slices| :: slices[i].dim != slices[j].dim)
  }

  /** A label of the source is in the destination, and unless it is walked otherwise, as large. */
  ghost predicate LabelFits(src: AnnotatedLayout, dst: AnnotatedLayout, sel: Selection, d: KvDim)
    requires src.Valid() && dst.Valid()
  {
    && d in dst.dims
    && (d != Block && FindSlice(sel.axisSlices, d).None? ==>
      SizeOr1(src.dims, src.sizes, d) == SizeOr1(dst.dims, dst.sizes, d))
  }

  ghost predicate LabelsFit(src: AnnotatedLayout, dst: AnnotatedLayout, sel: Selection)
    requires src.Valid() && dst.Valid()
  {
    && |src.dims| == |dst.dims|
    && (forall j | 0 <= j < |src.dims| :: LabelFits(src, dst, sel, src.dims[j]))
    && (forall j | 0 <= j < |dst.dims| :: dst.dims[j] in src.dims)
  }

  ghost predicate BlocksFit(src: AnnotatedLayout, dst: AnnotatedLayout, pairs: seq<(nat, nat)>)
    requires src.Valid() && dst.Valid()
  {
    forall i | 0 <= i < |pairs| ::
      pairs[i].0 < SizeOr1(src.dims, src.sizes, Block) && pairs[i].1 < SizeOr1(dst.dims, dst.sizes, Block)
  }

  /** The inputs a plan can be made for. */
  ghost predicate Compatible(src: AnnotatedLayout, dst: AnnotatedLayout, sel: Selection) {
    && src.Valid() && dst.Valid()
    && src.elemSize == dst.elemSize
    && SlicesFit(src, dst, sel.axisSlices)
    && LabelsFit(src, dst, sel)
    && BlocksFit(src, dst, sel.blockPairs)
  }

  // ---- What a selection asks for ----

  /** One selected element: a block pair, and an index along every other axis. */
  ghost predicate Selected(src: AnnotatedLayout, sel: Selection, pair: nat, index: KvDim -> nat) {
    && |src.dims| == |src.sizes|
    && pair < |sel.blockPairs|
    && forall k | 0 <= k < |src.dims| :: src.dims[k] != Block ==>
      index(src.dims[k]) < RangeFor(sel, src.dims[k], src.sizes[k]).len
  }

  function SrcAt(src: AnnotatedLayout, sel: Selection, pair: nat, index: KvDim -> nat): Coord
    requires pair < |sel.blockPairs|
  {
    map d | d in src.dims :: if d == Block then sel.blockPairs[pair].0 else RangeFor(sel, d, 0).srcStart + index(d)
  }

  function DstAt(src: AnnotatedLayout, sel: Selection, pair: nat, index: KvDim -> nat): Coord
    requires pair < |sel.blockPairs|
  {
    map d | d in src.dims :: if d == Block then sel.blockPairs[pair].1 else RangeFor(sel, d, 0).dstStart + index(d)
  }

  ghost predicate WantedAt(src: AnnotatedLayout, dst: AnnotatedLayout, sel: Selection,
                           pair: nat, index: KvDim -> nat, b: nat, x: nat, y: nat) {
    && Selected(src, sel, pair, index) && b < src.elemSize
    && x == Address(src, SrcAt(src, sel, pair, index)) + b
    && y == Address(dst, DstAt(src, sel, pair, index)) + b
  }

  /** Byte `y` of the destination is to receive byte `x` of the source. */
  ghost predicate Wanted(src: AnnotatedLayout, dst: AnnotatedLayout, sel: Selection, x: nat, y: nat) {
    exists pair: nat, index: KvDim -> nat, b: nat :: WantedAt(src, dst, sel, pair, index, b, x, y)
  }

  // ---- Plans ----

  datatype CopyOp = CopyOp(srcAddr: nat, dstAddr: nat, size: nat)

  datatype Policy = Policy(minInnerBytes: nat, coalesce: bool)

  /** Direct copies, or a uniform batch of copies below the size threshold. */
  datatype Plan = Direct(ops: seq<CopyOp>) | Transform(ops: seq<CopyOp>)

  ghost predicate MovesBy(op: CopyOp, x: nat, y: nat) {
    op.srcAddr <= x < op.srcAddr + op.size && y - op.dstAddr == x - op.srcAddr
  }

  /** The copies bring byte `x` of the source to byte `y` of the destination. */
  ghost predicate Moves(ops: seq<CopyOp>, x: nat, y: nat) {
    exists op <- ops :: MovesBy(op, x, y)
  }
}
