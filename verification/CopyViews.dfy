/** Sliced views of layouts: what they address, and what two of them share. */
module CopyViews {
  import opened Outcome
  import opened Arithmetic
  import opened Tensor
  import opened Strides
  import opened Slices
  import opened CopyPlan
  import opened CopyBytes

  /** A layout restricted to a window of each axis. Sizes are those of the windows, strides those
      of the allocation, and regions those of the window of the region axis. */
  datatype View = View(dims: seq<KvDim>, sizes: seq<nat>, bytes: seq<nat>, elemSize: nat,
                       regions: seq<nat>, regionAxis: Option<KvDim>, slices: seq<AxisSlice>)

  function SliceOn(slices: seq<AxisSlice>, d: KvDim): Option<AxisSlice> {
    if slices == [] then None else if slices[0].dim == d then Some(slices[0]) else SliceOn(slices[1..], d)
  }

  function StartOf(slices: seq<AxisSlice>, d: KvDim): nat {
    match SliceOn(slices, d) case None => 0 case Some(s) => s.start
  }

  // ---- Building views ----

  function FullView(l: KvDimLayout, s: KvDimStrides, regions: seq<nat>, regionAxis: Option<KvDim>): (r: Result<View>)
    requires WellLabelled(l.dims, l.sizes) && s.elemSize > 0
    ensures r.Ok? <==> AnnotatedLayout(regions, regionAxis, l.dims, l.sizes, s.bytes, s.elemSize).Valid()
  {
    match NewAnnotated(regions, regionAxis, l, s)
    case Err(reason) => Err(reason)
    case Ok(a) => Ok(View(l.dims, l.sizes, s.bytes, s.elemSize, regions, regionAxis, []))
  }

  function Ordinal(d: KvDim): nat {
    match d
    case Block => 0
    case Layer => 1
    case Outer => 2
    case Page => 3
    case HeadCount => 4
    case HeadSize => 5
    case Payload => 6
  }

  /** Slices are kept in the order of their axes' ordinals. */
  function InsertSlice(slices: seq<AxisSlice>, s: AxisSlice): seq<AxisSlice> {
    if slices == [] || Ordinal(slices[0].dim) > Ordinal(s.dim) then [s] + slices
    else [slices[0]] + InsertSlice(slices[1..], s)
  }

  /** The layout of the windows, without their place in the allocation. */
  function Local(v: View): AnnotatedLayout {
    AnnotatedLayout(v.regions, v.regionAxis, v.dims, v.sizes, v.bytes, v.elemSize)
  }

  function SliceView(v: View, dim: KvDim, start: nat, len: nat): (r: Result<View>)
    requires Local(v).Valid()
    ensures r.Ok? <==>
            SliceOn(v.slices, dim).None? && dim in v.dims && 0 < len && start + len <= SizeOr1(v.dims, v.sizes, dim)
  {
    FirstAtFinds(v.dims, dim);
    if SliceOn(v.slices, dim).Some? then Err("axis already sliced")
    else match SizeOf(v.dims, v.sizes, dim)
      case None => Err("axis not in layout")
      case Some(size) =>
        match NewSlice(dim, start, len, size)
        case Err(reason) => Err(reason)
        case Ok(s) =>
          var sizes := seq(|v.dims|, k requires 0 <= k < |v.dims| => if v.dims[k] == dim then len else v.sizes[k]);
          var regions := if Some(dim) == v.regionAxis then v.regions[start..start + len] else v.regions;
          Ok(v.(sizes := sizes, regions := regions, slices := InsertSlice(v.slices, s)))
  }

  /** The view of one of `world` equal pieces of an axis. */
  function ShardView(v: View, dim: KvDim, rank: nat, world: nat): Result<View>
    requires Local(v).Valid()
  {
    match SizeOf(v.dims, v.sizes, dim)
    case None => Err("axis not in layout")
    case Some(size) =>
      match Shard(dim, rank, world, size)
      case Err(reason) => Err(reason)
      case Ok(s) => SliceView(v, dim, s.start, s.len)
  }

  // ---- What a view is a view of ----

  function Window(slices: seq<AxisSlice>, d: KvDim, size: nat): AxisSlice {
    match SliceOn(slices, d) case None => AxisSlice(d, 0, size, size) case Some(s) => s
  }

  /** A window of an axis: not empty, and inside it. */
  ghost predicate SliceWithin(base: AnnotatedLayout, s: AxisSlice)
    requires |base.dims| == |base.sizes|
  {
    s.dim in base.dims && 0 < s.len && s.End() <= s.globalLen == SizeOr1(base.dims, base.sizes, s.dim)
  }

  ghost predicate SlicesWithin(base: AnnotatedLayout, slices: seq<AxisSlice>)
    requires |base.dims| == |base.sizes|
  {
    && (forall i | 0 <= i < |slices| :: SliceWithin(base, slices[i]))
    && (forall i, j | 0 <= i < j < |slices| :: slices[i].dim != slices[j].dim)
  }

  function WindowRegions(base: AnnotatedLayout, slices: seq<AxisSlice>): seq<nat> {
    if base.regionAxis.None? || SliceOn(slices, base.regionAxis.value).None? then base.regions
    else
      var s := SliceOn(slices, base.regionAxis.value).value;
      if s.End() <= |base.regions| then base.regions[s.start..s.End()] else base.regions
  }

  /** The view shows the windows of its slices into the layout. */
  ghost predicate ViewOf(v: View, base: AnnotatedLayout) {
    && base.Valid() && v.dims == base.dims && v.bytes == base.bytes && v.elemSize == base.elemSize
    && v.regionAxis == base.regionAxis && SlicesWithin(base, v.slices) && |v.sizes| == |v.dims|
    && (forall k | 0 <= k < |v.dims| :: v.sizes[k] == Window(v.slices, v.dims[k], base.sizes[k]).len)
    && v.regions == WindowRegions(base, v.slices)
  }

  lemma {:induction false} SliceOnFinds(slices: seq<AxisSlice>, d: KvDim)
    ensures SliceOn(slices, d).Some? ==> SliceOn(slices, d).value in slices && SliceOn(slices, d).value.dim == d
    ensures SliceOn(slices, d).None? ==> forall i | 0 <= i < |slices| :: slices[i].dim != d
  {
    if slices != [] && slices[0].dim != d {
      SliceOnFinds(slices[1..], d);
      assert slices == [slices[0]] + slices[1..];
    }
  }

  lemma WindowWithin(base: AnnotatedLayout, slices: seq<AxisSlice>, k: nat)
    requires base.Valid() && SlicesWithin(base, slices) && k < |base.dims|
    ensures var w := Window(slices, base.dims[k], base.sizes[k]);
            && w.dim == base.dims[k] && w.start == StartOf(slices, base.dims[k])
            && 0 < w.len && w.End() <= w.globalLen == base.sizes[k]
  {
    SliceOnFinds(slices, base.dims[k]);
    SizeAt(base.dims, base.sizes, k);
    var found := SliceOn(slices, base.dims[k]);
    if found.Some? {
      var i :| 0 <= i < |slices| && slices[i] == found.value;
      assert SliceWithin(base, slices[i]);
    }
  }

  lemma FullViewShowsAll(l: KvDimLayout, s: KvDimStrides, regions: seq<nat>, regionAxis: Option<KvDim>, v: View)
    requires WellLabelled(l.dims, l.sizes) && s.elemSize > 0 && FullView(l, s, regions, regionAxis) == Ok(v)
    ensures ViewOf(v, AnnotatedLayout(regions, regionAxis, l.dims, l.sizes, s.bytes, s.elemSize))
  {
  }

  lemma {:induction false} InsertedOn(slices: seq<AxisSlice>, s: AxisSlice, d: KvDim)
    requires SliceOn(slices, s.dim).None?
    ensures SliceOn(InsertSlice(slices, s), d) == if d == s.dim then Some(s) else SliceOn(slices, d)
  {
    if slices == [] || Ordinal(slices[0].dim) > Ordinal(s.dim) {
      assert ([s] + slices)[1..] == slices;
    } else {
      InsertedOn(slices[1..], s, d);
      assert ([slices[0]] + InsertSlice(slices[1..], s))[1..] == InsertSlice(slices[1..], s);
    }
  }

  lemma {:induction false} InsertedWithin(base: AnnotatedLayout, slices: seq<AxisSlice>, s: AxisSlice)
    requires |base.dims| == |base.sizes| && SlicesWithin(base, slices) && SliceWithin(base, s) &&
        SliceOn(slices, s.dim).None?
    ensures SlicesWithin(base, InsertSlice(slices, s))
    ensures forall x <- InsertSlice(slices, s) :: x == s || x in slices
  {
    SliceOnFinds(slices, s.dim);
    if slices != [] && Ordinal(slices[0].dim) <= Ordinal(s.dim) {
      InsertedWithin(base, slices[1..], s);
      var rest := InsertSlice(slices[1..], s);
      forall j | 0 <= j < |rest| ensures rest[j].dim != slices[0].dim {
        assert rest[j] in rest;
      }
    }
  }

  /** The one label stands before the other in the order block, layer, outer, page, head count, head
      size, payload. */
  ghost predicate Precedes(d: KvDim, e: KvDim) {
    exists i, j | 0 <= i < j < |LABELS| :: LABELS[i] == d && LABELS[j] == e
  }

  ghost predicate InLabelOrder(slices: seq<AxisSlice>) {
    forall i, j | 0 <= i < j < |slices| :: Precedes(slices[i].dim, slices[j].dim)
  }

  lemma OrdinalOrders(d: KvDim, e: KvDim)
    ensures Precedes(d, e) <==> Ordinal(d) < Ordinal(e)
  {
    assert forall i | 0 <= i < |LABELS| :: Ordinal(LABELS[i]) == i;
    assert LABELS[Ordinal(d)] == d && LABELS[Ordinal(e)] == e;
  }

  ghost predicate Ascending(slices: seq<AxisSlice>) {
    forall i, j | 0 <= i < j < |slices| :: Ordinal(slices[i].dim) < Ordinal(slices[j].dim)
  }

  lemma AscendingIff(slices: seq<AxisSlice>)
    ensures InLabelOrder(slices) <==> Ascending(slices)
  {
    forall i, j | 0 <= i < j < |slices|
      ensures Precedes(slices[i].dim, slices[j].dim) <==> Ordinal(slices[i].dim) < Ordinal(slices[j].dim)
    {
      OrdinalOrders(slices[i].dim, slices[j].dim);
    }
  }

  lemma {:induction false} InsertAscends(slices: seq<AxisSlice>, s: AxisSlice)
    requires Ascending(slices) && forall i | 0 <= i < |slices| :: Ordinal(slices[i].dim) != Ordinal(s.dim)
    ensures Ascending(InsertSlice(slices, s))
    ensures forall x <- InsertSlice(slices, s) :: x == s || x in slices
  {
    if slices != [] && Ordinal(slices[0].dim) <= Ordinal(s.dim) {
      InsertAscends(slices[1..], s);
      var rest := InsertSlice(slices[1..], s);
      forall j | 0 <= j < |rest| ensures Ordinal(slices[0].dim) < Ordinal(rest[j].dim) {
        assert rest[j] in rest;
      }
    }
  }

  /** However the axes are sliced one after the other, the slices stay in label order. */
  lemma InsertKeepsOrder(slices: seq<AxisSlice>, s: AxisSlice)
    requires InLabelOrder(slices) && SliceOn(slices, s.dim).None?
    ensures InLabelOrder(InsertSlice(slices, s))
  {
    SliceOnFinds(slices, s.dim);
    AscendingIff(slices);
    forall i | 0 <= i < |slices| ensures Ordinal(slices[i].dim) != Ordinal(s.dim) {
      LabelsMatch(slices[i].dim, s.dim);
    }
    InsertAscends(slices, s);
    AscendingIff(InsertSlice(slices, s));
  }

  lemma LabelsMatch(d: KvDim, e: KvDim)
    ensures Ordinal(d) == Ordinal(e) ==> d == e
  {
  }

  /** The windows make up a valid layout. */
  lemma LocalValid(v: View, base: AnnotatedLayout)
    requires ViewOf(v, base)
    ensures Local(v).Valid()
  {
    forall k | 0 <= k < |v.dims| ensures 0 < v.sizes[k] <= base.sizes[k] {
      WindowWithin(base, v.slices, k);
    }
    if v.regionAxis.Some? {
      var k :| 0 <= k < |v.dims| && v.dims[k] == v.regionAxis.value;
      WindowWithin(base, v.slices, k);
      SizeAt(v.dims, v.sizes, k);
      SizeAt(base.dims, base.sizes, k);
    }
  }

  /** The slice that slicing an unsliced axis adds. */
  lemma SliceAdded(v: View, base: AnnotatedLayout, dim: KvDim, start: nat, len: nat) returns (s: AxisSlice)
    requires ViewOf(v, base) && Local(v).Valid() && SliceView(v, dim, start, len).Ok?
    ensures s == AxisSlice(dim, start, len, SizeOr1(base.dims, base.sizes, dim)) && SliceWithin(base, s)
    ensures SliceView(v, dim, start, len).value.slices == InsertSlice(v.slices, s)
  {
    var i :| 0 <= i < |v.dims| && v.dims[i] == dim;
    SizeAt(v.dims, v.sizes, i);
    SizeAt(base.dims, base.sizes, i);
    s := AxisSlice(dim, start, len, base.sizes[i]);
  }

  /** The windows after an unsliced axis was sliced. */
  ghost predicate Narrowed(slices: seq<AxisSlice>, s: AxisSlice, slices': seq<AxisSlice>) {
    forall d :: SliceOn(slices', d) == if d == s.dim then Some(s) else SliceOn(slices, d)
  }

  lemma InsertedNarrows(slices: seq<AxisSlice>, s: AxisSlice)
    requires SliceOn(slices, s.dim).None?
    ensures Narrowed(slices, s, InsertSlice(slices, s))
  {
    forall d ensures SliceOn(InsertSlice(slices, s), d) == if d == s.dim then Some(s) else SliceOn(slices, d) {
      InsertedOn(slices, s, d);
    }
  }

  lemma SliceSizes(v: View, base: AnnotatedLayout, dim: KvDim, start: nat, len: nat, s: AxisSlice)
    requires ViewOf(v, base) && Local(v).Valid() && SliceView(v, dim, start, len).Ok?
    requires s.dim == dim && s.len == len && Narrowed(v.slices, s, SliceView(v, dim, start, len).value.slices)
    ensures var v' := SliceView(v, dim, start, len).value;
            && |v'.sizes| == |v.dims|
            && forall k | 0 <= k < |v.dims| :: v'.sizes[k] == Window(v'.slices, v.dims[k], base.sizes[k]).len
  {
    var v' := SliceView(v, dim, start, len).value;
    forall k | 0 <= k < |v.dims| ensures v'.sizes[k] == Window(v'.slices, v.dims[k], base.sizes[k]).len {
      assert v.sizes[k] == Window(v.slices, v.dims[k], base.sizes[k]).len;
    }
  }

  /** Slicing an axis narrows its window and no other. */
  lemma SliceShowsWindow(v: View, base: AnnotatedLayout, dim: KvDim, start: nat, len: nat)
    requires ViewOf(v, base) && Local(v).Valid() && SliceView(v, dim, start, len).Ok?
    ensures var v' := SliceView(v, dim, start, len).value;
            && ViewOf(v', base)
            && Narrowed(v.slices, AxisSlice(dim, start, len, SizeOr1(base.dims, base.sizes, dim)), v'.slices)
  {
    var s := SliceAdded(v, base, dim, start, len);
    InsertedNarrows(v.slices, s);
    InsertedWithin(base, v.slices, s);
    SliceSizes(v, base, dim, start, len, s);
  }

  lemma SizePositive(a: AnnotatedLayout, d: KvDim)
    requires a.Valid() && d in a.dims
    ensures SizeOf(a.dims, a.sizes, d) == Some(SizeOr1(a.dims, a.sizes, d)) && SizeOr1(a.dims, a.sizes, d) > 0
  {
    var k :| 0 <= k < |a.dims| && a.dims[k] == d;
    SizeAt(a.dims, a.sizes, k);
  }

  /** Sharding is accepted if and only if the axis is there, not yet sliced and divided by the world,
      and the rank is in the world; it then slices out the shard's window. */
  lemma ShardViewIff(v: View, dim: KvDim, rank: nat, world: nat)
    requires Local(v).Valid()
    ensures ShardView(v, dim, rank, world).Ok? <==>
            SliceOn(v.slices, dim).None? && dim in v.dims && rank < world &&
              SizeOr1(v.dims, v.sizes, dim) % world == 0
    ensures ShardView(v, dim, rank, world).Ok? ==>
              var s := Shard(dim, rank, world, SizeOr1(v.dims, v.sizes, dim));
              s.Ok? && ShardView(v, dim, rank, world) == SliceView(v, dim, s.value.start, s.value.len)
  {
    FirstAtFinds(v.dims, dim);
    if dim in v.dims {
      SizePositive(Local(v), dim);
      if rank < world && SizeOr1(v.dims, v.sizes, dim) % world == 0 {
        ShardInside(dim, rank, world, SizeOr1(v.dims, v.sizes, dim));
      }
    }
  }

  // ---- Projecting a view ----

  /** Where the windows start, by label. */
  function Starts(slices: seq<AxisSlice>): Coord {
    if slices == [] then map[]
    else Starts(slices[..|slices| - 1])[slices[|slices| - 1].dim := slices[|slices| - 1].start]
  }

  /** The layout of the windows in their place: every base address moved to the first element. */
  function Projected(v: View): AnnotatedLayout
    requires |v.dims| == |v.bytes|
  {
    var off := OffsetOf(v.dims, v.bytes, v.regionAxis, Starts(v.slices));
    AnnotatedLayout(seq(|v.regions|, i requires 0 <= i < |v.regions| => v.regions[i] + off), v.regionAxis, v.dims,
                    v.sizes, v.bytes, v.elemSize)
  }

  lemma {:induction false} OffsetAdd(dims: seq<KvDim>, bytes: seq<nat>, skip: Option<KvDim>, c: Coord, k: nat, x: nat)
    requires |dims| == |bytes| && Distinct(dims) && k < |dims| && dims[k] !in c
    ensures OffsetOf(dims, bytes, skip, c[dims[k] := x])
            == OffsetOf(dims, bytes, skip, c) + if Some(dims[k]) == skip then 0 else bytes[k] * x
  {
    if k == 0 {
      OffsetAgree(dims[1..], bytes[1..], skip, c, c[dims[k] := x]);
    } else {
      OffsetAdd(dims[1..], bytes[1..], skip, c, k - 1, x);
    }
  }

  lemma {:induction false} StartsKeys(slices: seq<AxisSlice>, d: KvDim)
    requires forall i | 0 <= i < |slices| :: slices[i].dim != d
    ensures d !in Starts(slices)
  {
    if slices != [] {
      StartsKeys(slices[..|slices| - 1], d);
    }
  }

  lemma {:induction false} StartsAt(slices: seq<AxisSlice>, i: nat)
    requires i < |slices| && forall i, j | 0 <= i < j < |slices| :: slices[i].dim != slices[j].dim
    ensures slices[i].dim in Starts(slices) && Starts(slices)[slices[i].dim] == slices[i].start
  {
    if i < |slices| - 1 {
      StartsAt(slices[..|slices| - 1], i);
    }
  }

  lemma StartsIs(slices: seq<AxisSlice>, d: KvDim)
    requires forall i, j | 0 <= i < j < |slices| :: slices[i].dim != slices[j].dim
    ensures Get(Starts(slices), d) == StartOf(slices, d)
  {
    SliceOnFinds(slices, d);
    if SliceOn(slices, d).Some? {
      var i :| 0 <= i < |slices| && slices[i] == SliceOn(slices, d).value;
      StartsAt(slices, i);
    } else {
      StartsKeys(slices, d);
    }
  }

  /** What the next slice adds to the offset of the window starts. */
  lemma StartsStep(v: View, i: nat)
    requires Local(v).Valid() && i < |v.slices|
    requires forall i, j | 0 <= i < j < |v.slices| :: v.slices[i].dim != v.slices[j].dim
    ensures var s, pos := v.slices[i], FirstAt(v.dims, v.slices[i].dim);
            && (pos.Some? ==> pos.value < |v.bytes|) && (pos.Some? <==> s.dim in v.dims)
            && OffsetOf(v.dims, v.bytes, v.regionAxis, Starts(v.slices[..i + 1]))
               == OffsetOf(v.dims, v.bytes, v.regionAxis, Starts(v.slices[..i]))
                  + if pos.None? || Some(s.dim) == v.regionAxis then 0 else v.bytes[pos.value] * s.start
  {
    var s := v.slices[i];
    assert v.slices[..i + 1][..i] == v.slices[..i];
    FirstAtFinds(v.dims, s.dim);
    StartsKeys(v.slices[..i], s.dim);
    var pos := FirstAt(v.dims, s.dim);
    if pos.Some? {
      OffsetAdd(v.dims, v.bytes, v.regionAxis, Starts(v.slices[..i]), pos.value, s.start);
    } else {
      OffsetAgree(v.dims, v.bytes, v.regionAxis, Starts(v.slices[..i]), Starts(v.slices[..i + 1]));
    }
  }

  method FromView(v: View) returns (r: Result<AnnotatedLayout>)
    requires Local(v).Valid() && forall i, j | 0 <= i < j < |v.slices| :: v.slices[i].dim != v.slices[j].dim
    ensures r.Ok? <==> forall i | 0 <= i < |v.slices| :: Some(v.slices[i].dim) != v.regionAxis ==>
        v.slices[i].dim in v.dims
    ensures r.Ok? ==> r.value == Projected(v)
  {
    var off := 0;
    OffsetNone(v.dims, v.bytes, v.regionAxis, map[]);
    for i := 0 to |v.slices|
      invariant off == OffsetOf(v.dims, v.bytes, v.regionAxis, Starts(v.slices[..i]))
      invariant forall j | 0 <= j < i :: Some(v.slices[j].dim) != v.regionAxis ==> v.slices[j].dim in v.dims
    {
      var s := v.slices[i];
      var pos := FirstAt(v.dims, s.dim);
      StartsStep(v, i);
      if Some(s.dim) != v.regionAxis {
        if pos.None? {
          return Err("sliced axis not in layout");
        }
        off := off + v.bytes[pos.value] * s.start;
      }
    }
    assert v.slices[..|v.slices|] == v.slices;
    r := NewAnnotated(seq(|v.regions|, i requires 0 <= i < |v.regions| => v.regions[i] + off), v.regionAxis,
                      KvDimLayout(v.dims, v.sizes), KvDimStrides(v.bytes, v.elemSize));
  }

  // ---- Addresses ----

  /** The coordinate in the allocation. */
  function Global(v: View, c: Coord): Coord {
    map d | d in v.dims :: Get(c, d) + StartOf(v.slices, d)
  }

  lemma {:induction false} OffsetSum(dims: seq<KvDim>, bytes: seq<nat>, skip: Option<KvDim>, g: Coord, c: Coord,
                                     s: Coord)
    requires |dims| == |bytes| && forall k | 0 <= k < |dims| :: Get(g, dims[k]) == Get(c, dims[k]) + Get(s, dims[k])
    ensures OffsetOf(dims, bytes, skip, g) == OffsetOf(dims, bytes, skip, c) + OffsetOf(dims, bytes, skip, s)
  {
    if dims != [] {
      OffsetSum(dims[1..], bytes[1..], skip, g, c, s);
      MulSum(bytes[0], Get(c, dims[0]), Get(s, dims[0]));
    }
  }

  lemma GlobalAddressable(v: View, base: AnnotatedLayout, c: Coord)
    requires ViewOf(v, base) && Addressable(Projected(v), c)
    ensures Addressable(base, Global(v, c))
  {
    var g := Global(v, c);
    forall k | 0 <= k < |base.dims| ensures Get(g, base.dims[k]) < base.sizes[k] {
      WindowWithin(base, v.slices, k);
      if Some(v.dims[k]) == v.regionAxis {
        RegionCount(v, base, k);
      }
    }
    AddressableWithin(base, g);
  }

  lemma RegionCount(v: View, base: AnnotatedLayout, k: nat)
    requires ViewOf(v, base) && k < |v.dims| && Some(v.dims[k]) == v.regionAxis
    ensures |v.regions| == v.sizes[k] && |base.regions| == base.sizes[k]
  {
    WindowWithin(base, v.slices, k);
    SizeAt(base.dims, base.sizes, k);
  }

  lemma RegionWindow(v: View, base: AnnotatedLayout, k: nat, i: nat)
    requires ViewOf(v, base) && k < |v.dims| && Some(v.dims[k]) == v.regionAxis && i < |v.regions|
    ensures var g := StartOf(v.slices, v.dims[k]) + i; g < |base.regions| && v.regions[i] == base.regions[g]
  {
    RegionCount(v, base, k);
    WindowWithin(base, v.slices, k);
  }

  lemma GlobalOffset(v: View, base: AnnotatedLayout, c: Coord)
    requires ViewOf(v, base)
    ensures OffsetOf(v.dims, v.bytes, v.regionAxis, Global(v, c))
            == OffsetOf(v.dims, v.bytes, v.regionAxis, c) + OffsetOf(v.dims, v.bytes, v.regionAxis, Starts(v.slices))
  {
    forall k | 0 <= k < |v.dims|
      ensures Get(Global(v, c), v.dims[k]) == Get(c, v.dims[k]) + Get(Starts(v.slices), v.dims[k])
    {
      StartsIs(v.slices, v.dims[k]);
    }
    OffsetSum(v.dims, v.bytes, v.regionAxis, Global(v, c), c, Starts(v.slices));
  }

  function RegionIndex(a: AnnotatedLayout, c: Coord): nat {
    if a.regionAxis.Some? then Get(c, a.regionAxis.value) else 0
  }

  lemma WholeRegion(v: View, base: AnnotatedLayout)
    requires ViewOf(v, base) && v.regionAxis.None?
    ensures v.regions == base.regions && |base.regions| == 1
  {
  }

  lemma SlicedRegion(v: View, base: AnnotatedLayout, d: KvDim, i: nat)
    requires ViewOf(v, base) && v.regionAxis == Some(d) && i < |v.regions|
    ensures d in v.dims
    ensures var g := StartOf(v.slices, d) + i; g < |base.regions| && v.regions[i] == base.regions[g]
  {
    var k :| 0 <= k < |v.dims| && v.dims[k] == d;
    RegionWindow(v, base, k, i);
  }

  lemma GlobalRegion(v: View, base: AnnotatedLayout, c: Coord)
    requires ViewOf(v, base) && RegionGiven(Projected(v), c)
    ensures RegionIndex(base, c) < |v.regions| && RegionIndex(base, Global(v, c)) < |base.regions|
    ensures v.regions[RegionIndex(base, c)] == base.regions[RegionIndex(base, Global(v, c))]
  {
    if v.regionAxis.None? {
      WholeRegion(v, base);
    } else {
      SlicedRegion(v, base, v.regionAxis.value, c[v.regionAxis.value]);
    }
  }

  /** A view's projection addresses the allocation's own elements. */
  lemma ProjectedAddress(v: View, base: AnnotatedLayout, c: Coord)
    requires ViewOf(v, base) && Addressable(Projected(v), c)
    ensures Addressable(base, Global(v, c)) && Address(Projected(v), c) == Address(base, Global(v, c))
  {
    GlobalAddressable(v, base, c);
    GlobalOffset(v, base, c);
    GlobalRegion(v, base, c);
  }

  lemma ViewAddress(v: View, base: AnnotatedLayout, c: Coord)
    requires ViewOf(v, base) && forall k | 0 <= k < |v.dims| :: InWindows(v, c, k)
    ensures Addressable(Projected(v), c)
    ensures RegionIndex(base, c) < |v.regions|
    ensures Address(Projected(v), c) == Address(base, Global(v, c))
            == v.regions[RegionIndex(base, c)] + OffsetOf(v.dims, v.bytes, v.regionAxis, Global(v, c))
  {
    LocalValid(v, base);
    assert forall k | 0 <= k < |v.dims| :: InWindows(v, c, k) ==> Get(c, v.dims[k]) < v.sizes[k];
    if v.regionAxis.Some? {
      var k :| 0 <= k < |v.dims| && v.dims[k] == v.regionAxis.value;
      assert InWindows(v, c, k);
    }
    AddressableWithin(Projected(v), c);
    ProjectedAddress(v, base, c);
    GlobalRegion(v, base, c);
  }

  ghost predicate InWindows(v: View, c: Coord, k: nat)
    requires |v.dims| == |v.sizes| && k < |v.dims|
  {
    v.dims[k] in c && c[v.dims[k]] < v.sizes[k]
  }

  /** The offset of the axes from `i` on. */
  ghost function OffsetFrom(v: View, c: Coord, i: nat): nat
    requires i <= |v.dims| == |v.bytes|
  {
    OffsetOf(v.dims[i..], v.bytes[i..], v.regionAxis, Global(v, c))
  }

  /** How far the coordinate moves along one axis, counted from the allocation's own start. */
  function AxisOffset(v: View, c: Coord, i: nat): nat
    requires i < |v.dims| == |v.bytes|
  {
    v.bytes[i] * (StartOf(v.slices, v.dims[i]) + Get(c, v.dims[i]))
  }

  lemma OffsetStep(v: View, c: Coord, i: nat)
    requires i < |v.dims| == |v.bytes|
    ensures OffsetFrom(v, c, i)
            == OffsetFrom(v, c, i + 1)
               + if Some(v.dims[i]) == v.regionAxis then 0 else AxisOffset(v, c, i)
  {
    assert v.dims[i..][1..] == v.dims[i + 1..] && v.bytes[i..][1..] == v.bytes[i + 1..];
  }

  lemma OffsetEnds(v: View, c: Coord)
    requires |v.dims| == |v.bytes|
    ensures OffsetFrom(v, c, 0) == OffsetOf(v.dims, v.bytes, v.regionAxis, Global(v, c))
    ensures OffsetFrom(v, c, |v.dims|) == 0
  {
    assert v.dims[0..] == v.dims && v.bytes[0..] == v.bytes;
  }

  /** The offset within a region; every in-tensor label must be given. */
  method ViewOffset(v: View, c: Coord) returns (r: Result<nat>)
    requires |v.dims| == |v.sizes| == |v.bytes|
    ensures r.Ok? <==> forall k | 0 <= k < |v.dims| && Some(v.dims[k]) != v.regionAxis :: InWindows(v, c, k)
    ensures r.Ok? ==> r.value == OffsetOf(v.dims, v.bytes, v.regionAxis, Global(v, c))
  {
    OffsetEnds(v, c);
    var off := 0;
    for i := 0 to |v.dims|
      invariant off + OffsetFrom(v, c, i) == OffsetFrom(v, c, 0)
      invariant forall j | 0 <= j < i && Some(v.dims[j]) != v.regionAxis :: InWindows(v, c, j)
    {
      OffsetStep(v, c, i);
      if Some(v.dims[i]) != v.regionAxis {
        if v.dims[i] !in c || c[v.dims[i]] >= v.sizes[i] {
          assert !InWindows(v, c, i);
          return Err("missing or out-of-range coordinate");
        }
        off := off + AxisOffset(v, c, i);
      }
    }
    return Ok(off);
  }

  lemma RegionInWindow(v: View, base: AnnotatedLayout, c: Coord, k: nat)
    requires ViewOf(v, base) && k < |v.dims| && Some(v.dims[k]) == v.regionAxis
    ensures InWindows(v, c, k) <==> v.dims[k] in c && c[v.dims[k]] < |v.regions|
  {
    RegionCount(v, base, k);
  }

  /** The base address of the coordinate's region; the region's label must be given. */
  method ViewRegion(v: View, c: Coord, ghost base: AnnotatedLayout) returns (r: Result<nat>)
    requires ViewOf(v, base)
    ensures r.Ok? <==> forall k | 0 <= k < |v.dims| && Some(v.dims[k]) == v.regionAxis :: InWindows(v, c, k)
    ensures r.Ok? ==> RegionIndex(base, c) < |v.regions| && r.value == v.regions[RegionIndex(base, c)]
  {
    if v.regionAxis.None? {
      WholeRegion(v, base);
      return Ok(v.regions[0]);
    }
    var d := v.regionAxis.value;
    forall k | 0 <= k < |v.dims| && v.dims[k] == d ensures InWindows(v, c, k) <==> d in c && c[d] < |v.regions| {
      RegionInWindow(v, base, c, k);
    }
    if d !in c || c[d] >= |v.regions| {
      ghost var k :| 0 <= k < |v.dims| && v.dims[k] == d;
      assert !InWindows(v, c, k);
      return Err("missing or out-of-range coordinate for the region axis");
    }
    return Ok(v.regions[c[d]]);
  }

  /** The address of a coordinate of the view, every label given: the allocation's own address
      of the coordinate behind it, and the one its projection has. */
  method ViewAddrOf(v: View, c: Coord, ghost base: AnnotatedLayout) returns (r: Result<nat>)
    requires ViewOf(v, base)
    ensures r.Ok? <==> forall k | 0 <= k < |v.dims| :: InWindows(v, c, k)
    ensures r.Ok? ==> r.value == Address(base, Global(v, c)) == Address(Projected(v), c)
  {
    var region := ViewRegion(v, c, base);
    if region.Err? {
      return region;
    }
    var off := ViewOffset(v, c);
    if off.Err? {
      return off;
    }
    ViewAddress(v, base, c);
    return Ok(region.value + off.value);
  }

  // ---- Intersecting two views ----

  function GlobalSize(v: View, d: KvDim): nat
    requires |v.dims| == |v.sizes|
  {
    match SliceOn(v.slices, d)
    case Some(s) => s.globalLen
    case None => match SizeOf(v.dims, v.sizes, d) case None => 0 case Some(n) => n
  }

  /** The window of an axis, the whole axis if it is not sliced. */
  function AxisOf(v: View, d: KvDim): AxisSlice
    requires |v.dims| == |v.sizes|
  {
    Window(v.slices, d, GlobalSize(v, d))
  }

  predicate IsFull(s: AxisSlice) {
    s.start == 0 && s.len == s.globalLen
  }

  predicate SameLabels(a: seq<KvDim>, b: seq<KvDim>) {
    |a| == |b| && (forall i | 0 <= i < |a| :: a[i] in b) && (forall i | 0 <= i < |b| :: b[i] in a)
  }

  /** The axis is as long on both sides... */
  predicate SameExtent(src: View, dst: View, d: KvDim)
    requires |src.dims| == |src.sizes| && |dst.dims| == |dst.sizes|
  {
    GlobalSize(src, d) == GlobalSize(dst, d)
  }

  /** ...and its windows share a coordinate. */
  predicate Meet(src: View, dst: View, d: KvDim)
    requires |src.dims| == |src.sizes| && |dst.dims| == |dst.sizes|
  {
    var r := IntersectAxis(AxisOf(src, d), AxisOf(dst, d));
    r.Ok? && r.value.Some?
  }

  /** The overlap of two windows, unless neither restricts its axis. */
  function Restriction(s: AxisSlice, t: AxisSlice): seq<AxisIntersection> {
    var r := IntersectAxis(s, t);
    if r.Err? || r.value.None? || (IsFull(s) && IsFull(t)) then [] else [r.value.value]
  }

  /** The restriction that both views together put on an axis. */
  function RestrictionOn(src: View, dst: View, d: KvDim): seq<AxisIntersection>
    requires |src.dims| == |src.sizes| && |dst.dims| == |dst.sizes|
  {
    Restriction(AxisOf(src, d), AxisOf(dst, d))
  }

  /** For each axis of the source its restriction, if any. */
  function Restrictions(src: View, dst: View): seq<seq<AxisIntersection>>
    requires |src.dims| == |src.sizes| && |dst.dims| == |dst.sizes|
  {
    seq(|src.dims|, k requires 0 <= k < |src.dims| => RestrictionOn(src, dst, src.dims[k]))
  }

  function Concat<T>(parts: seq<seq<T>>): seq<T> {
    if parts == [] then [] else Concat(parts[..|parts| - 1]) + parts[|parts| - 1]
  }

  /** The overlaps of all axes, those without a restriction on either side left out. */
  function Overlaps(src: View, dst: View): seq<AxisIntersection>
    requires |src.dims| == |src.sizes| && |dst.dims| == |dst.sizes|
  {
    Concat(Restrictions(src, dst))
  }

  lemma ConcatStep<T>(parts: seq<seq<T>>, k: nat)
    requires k < |parts|
    ensures Concat(parts[..k + 1]) == Concat(parts[..k]) + parts[k]
  {
    assert parts[..k + 1][..k] == parts[..k];
  }

  lemma AxisOfView(v: View, base: AnnotatedLayout, k: nat)
    requires ViewOf(v, base) && k < |v.dims|
    ensures var w := AxisOf(v, v.dims[k]);
            && w == Window(v.slices, v.dims[k], base.sizes[k]) &&
              GlobalSize(v, v.dims[k]) == base.sizes[k] == w.globalLen
            && w.dim == v.dims[k] && w.start == StartOf(v.slices, v.dims[k]) && w.len == v.sizes[k]
            && 0 < w.len && w.End() <= w.globalLen
  {
    WindowWithin(base, v.slices, k);
    SizeAt(v.dims, v.sizes, k);
  }

  lemma AxisNamed(v: View, d: KvDim)
    requires |v.dims| == |v.sizes|
    ensures AxisOf(v, d).dim == d && AxisOf(v, d).globalLen == GlobalSize(v, d)
  {
    SliceOnFinds(v.slices, d);
  }

  predicate Joins(src: View, dst: View, d: KvDim)
    requires |src.dims| == |src.sizes| && |dst.dims| == |dst.sizes|
  {
    SameExtent(src, dst, d) && Meet(src, dst, d)
  }

  ghost predicate SameExtents(src: View, dst: View)
    requires |src.dims| == |src.sizes| && |dst.dims| == |dst.sizes|
  {
    forall k | 0 <= k < |src.dims| :: SameExtent(src, dst, src.dims[k])
  }

  /** On every axis the extents agree and the windows meet. */
  ghost predicate AllMeet(src: View, dst: View)
    requires |src.dims| == |src.sizes| && |dst.dims| == |dst.sizes|
  {
    SameLabels(src.dims, dst.dims) && forall k | 0 <= k < |src.dims| :: Joins(src, dst, src.dims[k])
  }

  /** The windows of one axis in the two views. */
  type WindowPair = (AxisSlice, AxisSlice)

  predicate PairJoins(w: WindowPair) {
    w.0.globalLen == w.1.globalLen && IntersectAxis(w.0, w.1).Ok? && IntersectAxis(w.0, w.1).value.Some?
  }

  function PairRestrictions(ws: seq<WindowPair>): seq<seq<AxisIntersection>> {
    seq(|ws|, k requires 0 <= k < |ws| => Restriction(ws[k].0, ws[k].1))
  }

  /** The walk over the axes, which stops at the first that does not join. */
  method IntersectPairs(ws: seq<WindowPair>) returns (r: Result<Option<seq<AxisIntersection>>>)
    requires forall k | 0 <= k < |ws| :: ws[k].0.dim == ws[k].1.dim
    ensures r.Ok? && r.value.Some? <==> forall k | 0 <= k < |ws| :: PairJoins(ws[k])
    ensures r.Ok? && r.value.Some? ==> r.value.value == Concat(PairRestrictions(ws))
    ensures (forall k | 0 <= k < |ws| :: ws[k].0.globalLen == ws[k].1.globalLen) ==> r.Ok?
  {
    ghost var parts := PairRestrictions(ws);
    var out := [];
    for k := 0 to |ws|
      invariant forall j | 0 <= j < k :: PairJoins(ws[j])
      invariant out == Concat(parts[..k])
    {
      ConcatStep(parts, k);
      var (s, t) := ws[k];
      if s.globalLen != t.globalLen {
        return Err("global extents differ");
      }
      var overlap := IntersectAxis(s, t).value;
      if overlap.None? {
        return Ok(None);
      }
      if !(IsFull(s) && IsFull(t)) {
        out := out + [overlap.value];
      }
    }
    assert parts[..|parts|] == parts;
    return Ok(Some(out));
  }

  function Windows(src: View, dst: View): seq<WindowPair>
    requires |src.dims| == |src.sizes| && |dst.dims| == |dst.sizes|
  {
    seq(|src.dims|, k requires 0 <= k < |src.dims| => (AxisOf(src, src.dims[k]), AxisOf(dst, src.dims[k])))
  }

  lemma WindowsJoin(src: View, dst: View, k: nat)
    requires |src.dims| == |src.sizes| && |dst.dims| == |dst.sizes| && k < |src.dims|
    ensures var w := Windows(src, dst)[k];
            && w.0.dim == w.1.dim && (w.0.globalLen == w.1.globalLen <==> SameExtent(src, dst, src.dims[k]))
            && (PairJoins(w) <==> Joins(src, dst, src.dims[k]))
  {
    AxisNamed(src, src.dims[k]);
    AxisNamed(dst, src.dims[k]);
  }

  lemma WindowsRestrict(src: View, dst: View)
    requires |src.dims| == |src.sizes| && |dst.dims| == |dst.sizes|
    ensures PairRestrictions(Windows(src, dst)) == Restrictions(src, dst)
  {
  }

  /** The overlaps exist exactly if labels and extents agree and every axis meets; with agreeing
      labels and extents the answer is never an error. */
  method IntersectViews(src: View, dst: View) returns (r: Result<Option<seq<AxisIntersection>>>)
    requires |src.dims| == |src.sizes| && |dst.dims| == |dst.sizes|
    ensures r.Ok? && r.value.Some? <==> AllMeet(src, dst)
    ensures r.Ok? && r.value.Some? ==> r.value.value == Overlaps(src, dst)
    ensures r.Ok? ==> SameLabels(src.dims, dst.dims)
    ensures SameLabels(src.dims, dst.dims) && SameExtents(src, dst) ==> r.Ok?
  {
    if !SameLabels(src.dims, dst.dims) {
      return Err("label sets differ");
    }
    var ws := Windows(src, dst);
    forall k | 0 <= k < |ws|
      ensures ws[k].0.dim == ws[k].1.dim && (ws[k].0.globalLen == ws[k].1.globalLen <==>
          SameExtent(src, dst, src.dims[k]))
      ensures PairJoins(ws[k]) <==> Joins(src, dst, src.dims[k])
    {
      WindowsJoin(src, dst, k);
    }
    WindowsRestrict(src, dst);
    r := IntersectPairs(ws);
  }
}
