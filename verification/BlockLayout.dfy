/** The order of the four permutable dimensions inside a block, and when a flat copy between
    two orders moves no element. */
module BlockLayout {
  import opened Outcome
  import opened Arithmetic

  datatype BlockDim = Layer | Outer | Page | Head

  datatype KvBlockLayout = Universal | OperationalHND | OperationalNHD | Custom(order: seq<BlockDim>) | Unknown

  /** Outermost dimension first; the head dimension is innermost and implicit. */
  function DimOrder(l: KvBlockLayout): Option<seq<BlockDim>> {
    match l
    case Universal => Some([Head, Layer, Outer, Page])
    case OperationalHND => Some([Layer, Outer, Head, Page])
    case OperationalNHD => Some([Layer, Outer, Page, Head])
    case Custom(order) => Some(order)
    case Unknown => None
  }

  predicate RequiresTransform(a: KvBlockLayout, b: KvBlockLayout) {
    match (DimOrder(a), DimOrder(b))
    case (Some(p), Some(q)) => p != q
    case (None, None) => false
    case _ => true
  }

  type Extents = BlockDim -> nat

  type Coordinate = BlockDim -> nat

  ghost predicate Distinct(order: seq<BlockDim>) {
    forall i, j | 0 <= i < j < |order| :: order[i] != order[j]
  }

  /** Each of the four dimensions exactly once. */
  ghost predicate Permutation(order: seq<BlockDim>) {
    Distinct(order) && forall d: BlockDim :: d in order
  }

  ghost predicate Inside(ext: Extents, at: Coordinate) {
    forall d: BlockDim :: at(d) < ext(d)
  }

  /** One dimension further in: `extent` places for each place so far. */
  function Refine(index: nat, extent: nat, coordinate: nat): nat {
    index * extent + coordinate
  }

  /** Where a coordinate sits in a block laid out row by row in the given order. */
  function FlatIndex(order: seq<BlockDim>, ext: Extents, at: Coordinate): nat {
    if order == [] then 0
    else
      var last := order[|order| - 1];
      Refine(FlatIndex(order[..|order| - 1], ext, at), ext(last), at(last))
  }

  /** The dimensions that have more than one coordinate, in order. */
  function Wide(order: seq<BlockDim>, ext: Extents): seq<BlockDim> {
    if order == [] then []
    else
      var last := order[|order| - 1];
      Wide(order[..|order| - 1], ext) + if ext(last) > 1 then [last] else []
  }

  /** A flat copy leaves every element at its coordinate. */
  ghost predicate CopyKeepsCoordinates(a: seq<BlockDim>, b: seq<BlockDim>, ext: Extents) {
    forall at: Coordinate | Inside(ext, at) :: FlatIndex(a, ext, at) == FlatIndex(b, ext, at)
  }

  // ---- Dimensions of extent one do not matter ----

  lemma IndexSnoc(order: seq<BlockDim>, last: BlockDim, ext: Extents, at: Coordinate)
    ensures FlatIndex(order + [last], ext, at) == Refine(FlatIndex(order, ext, at), ext(last), at(last))
  {
    assert (order + [last])[..|order|] == order;
  }

  lemma WideSnoc(order: seq<BlockDim>, last: BlockDim, ext: Extents)
    ensures Wide(order + [last], ext) == if ext(last) > 1 then Wide(order, ext) + [last] else Wide(order, ext)
  {
    assert (order + [last])[..|order|] == order;
  }

  lemma WideIndexStep(order: seq<BlockDim>, last: BlockDim, ext: Extents, at: Coordinate)
    requires at(last) < ext(last) && FlatIndex(Wide(order, ext), ext, at) == FlatIndex(order, ext, at)
    ensures FlatIndex(Wide(order + [last], ext), ext, at) == FlatIndex(order + [last], ext, at)
  {
    WideSnoc(order, last, ext);
    IndexSnoc(order, last, ext, at);
    if ext(last) > 1 {
      IndexSnoc(Wide(order, ext), last, ext, at);
    } else {
      RefineByOne(FlatIndex(order, ext, at));
    }
  }

  lemma RefineByOne(index: nat)
    ensures Refine(index, 1, 0) == index
  {
  }

  lemma {:induction false} WideIndex(order: seq<BlockDim>, ext: Extents, at: Coordinate)
    requires Inside(ext, at)
    ensures FlatIndex(Wide(order, ext), ext, at) == FlatIndex(order, ext, at)
  {
    if order != [] {
      var rest, last := order[..|order| - 1], order[|order| - 1];
      WideIndex(rest, ext, at);
      WideIndexStep(rest, last, ext, at);
      assert order == rest + [last];
    }
  }

  lemma {:induction false} WideMembers(order: seq<BlockDim>, ext: Extents)
    requires Distinct(order)
    ensures Distinct(Wide(order, ext))
    ensures forall d :: d in Wide(order, ext) <==> d in order && ext(d) > 1
  {
    if order != [] {
      var rest, last := order[..|order| - 1], order[|order| - 1];
      WideMembers(rest, ext);
      assert order == rest + [last];
      assert last !in rest;
    }
  }

  // ---- Different orders of wide dimensions move something ----

  function Unit(d: BlockDim): Coordinate {
    x => if x == d then 1 else 0
  }

  lemma RefineBounds(index: nat, extent: nat, coordinate: nat)
    ensures index == 0 ==> Refine(index, extent, coordinate) == coordinate
    ensures index > 0 && extent > 1 ==> Refine(index, extent, coordinate) > 1
  {
    if index > 0 {
      MulMono(1, index, extent);
    }
  }

  lemma {:induction false} UnitIndex(order: seq<BlockDim>, ext: Extents, d: BlockDim)
    requires Distinct(order) && forall x <- order :: ext(x) > 1
    ensures d !in order ==> FlatIndex(order, ext, Unit(d)) == 0
    ensures d in order ==> FlatIndex(order, ext, Unit(d)) > 0
    ensures order != [] && d == order[|order| - 1] ==> FlatIndex(order, ext, Unit(d)) == 1
    ensures order != [] && d in order && d != order[|order| - 1] ==> FlatIndex(order, ext, Unit(d)) > 1
  {
    if order != [] {
      var rest, last := order[..|order| - 1], order[|order| - 1];
      UnitIndex(rest, ext, d);
      assert order == rest + [last];
      assert last !in rest && last in order;
      IndexSnoc(rest, last, ext, Unit(d));
      RefineBounds(FlatIndex(rest, ext, Unit(d)), ext(last), Unit(d)(last));
    }
  }

  ghost predicate SameMembers(a: seq<BlockDim>, b: seq<BlockDim>) {
    forall x :: x in a <==> x in b
  }

  lemma DropSameLast(a: seq<BlockDim>, b: seq<BlockDim>, last: BlockDim)
    requires Distinct(a + [last]) && Distinct(b + [last]) && SameMembers(a + [last], b + [last])
    ensures Distinct(a) && Distinct(b) && SameMembers(a, b)
  {
    assert forall i | 0 <= i < |a| :: (a + [last])[i] == a[i];
    assert forall i | 0 <= i < |b| :: (b + [last])[i] == b[i];
    assert (a + [last])[|a|] == last && (b + [last])[|b|] == last;
    forall x ensures x in a <==> x in b {
      assert x in a + [last] <==> x in b + [last];
    }
  }

  /** Two orders of the same wide dimensions that differ send some unit step to different
      places: compare the innermost dimension on which they differ. */
  lemma {:induction false} DifferentOrdersMove(a: seq<BlockDim>, b: seq<BlockDim>, ext: Extents) returns (d: BlockDim)
    requires Distinct(a) && Distinct(b) && SameMembers(a, b) && a != b
    requires forall x <- a :: ext(x) > 1
    ensures d in a && FlatIndex(a, ext, Unit(d)) != FlatIndex(b, ext, Unit(d))
  {
    var member := if a != [] then a[0] else b[0];
    assert member in a && member in b;
    var a', x := a[..|a| - 1], a[|a| - 1];
    var b', y := b[..|b| - 1], b[|b| - 1];
    assert a == a' + [x] && b == b' + [y] && x in a;
    if x == y {
      DropSameLast(a', b', x);
      d := DifferentOrdersMove(a', b', ext);
      SameLastKeepsDifference(a', b', x, ext, Unit(d));
    } else {
      d := x;
      UnitIndex(a, ext, x);
      UnitIndex(b, ext, x);
    }
  }

  lemma SameLastKeepsDifference(a: seq<BlockDim>, b: seq<BlockDim>, last: BlockDim, ext: Extents, at: Coordinate)
    requires ext(last) > 0 && FlatIndex(a, ext, at) != FlatIndex(b, ext, at)
    ensures FlatIndex(a + [last], ext, at) != FlatIndex(b + [last], ext, at)
  {
    IndexSnoc(a, last, ext, at);
    IndexSnoc(b, last, ext, at);
    MulDiffers(FlatIndex(a, ext, at), FlatIndex(b, ext, at), ext(last));
  }

  /** A flat copy between two orders keeps every element at its coordinate if and only if the
      orders agree on the dimensions with more than one coordinate. */
  lemma CopyIffSameWide(a: seq<BlockDim>, b: seq<BlockDim>, ext: Extents)
    requires Permutation(a) && Permutation(b) && forall d: BlockDim :: ext(d) > 0
    ensures CopyKeepsCoordinates(a, b, ext) <==> Wide(a, ext) == Wide(b, ext)
  {
    if Wide(a, ext) == Wide(b, ext) {
      forall at: Coordinate | Inside(ext, at) ensures FlatIndex(a, ext, at) == FlatIndex(b, ext, at) {
        WideIndex(a, ext, at);
        WideIndex(b, ext, at);
      }
    } else {
      WideMembers(a, ext);
      WideMembers(b, ext);
      var d := DifferentOrdersMove(Wide(a, ext), Wide(b, ext), ext);
      assert Inside(ext, Unit(d));
      WideIndex(a, ext, Unit(d));
      WideIndex(b, ext, Unit(d));
    }
  }

  lemma {:induction false} WideWhole(order: seq<BlockDim>, ext: Extents)
    requires forall d: BlockDim :: ext(d) > 1
    ensures Wide(order, ext) == order
  {
    if order != [] {
      WideWhole(order[..|order| - 1], ext);
      assert order == order[..|order| - 1] + [order[|order| - 1]];
    }
  }

  ghost predicate Known(l: KvBlockLayout) {
    DimOrder(l).Some? && Permutation(DimOrder(l).value)
  }

  /** Between known orders: no transform means a flat copy is right for all extents, and a
      transform is asked for exactly when, for extents of two and more, a flat copy is wrong. */
  lemma TransformIffMoved(a: KvBlockLayout, b: KvBlockLayout, ext: Extents)
    requires Known(a) && Known(b) && forall d: BlockDim :: ext(d) > 0
    ensures !RequiresTransform(a, b) ==> CopyKeepsCoordinates(DimOrder(a).value, DimOrder(b).value, ext)
    ensures (forall d: BlockDim :: ext(d) > 1) ==>
              (RequiresTransform(a, b) <==> !CopyKeepsCoordinates(DimOrder(a).value, DimOrder(b).value, ext))
  {
    var p, q := DimOrder(a).value, DimOrder(b).value;
    assert RequiresTransform(a, b) <==> p != q;
    if forall d: BlockDim :: ext(d) > 1 {
      WideOrdersMove(p, q, ext);
    }
  }

  lemma WideOrdersMove(p: seq<BlockDim>, q: seq<BlockDim>, ext: Extents)
    requires Permutation(p) && Permutation(q) && forall d: BlockDim :: ext(d) > 1
    ensures p != q <==> !CopyKeepsCoordinates(p, q, ext)
  {
    CopyIffSameWide(p, q, ext);
    WideWhole(p, ext);
    WideWhole(q, ext);
  }

  /** With one head the answer is cautious: the two operational orders differ, yet a flat copy
      between them moves nothing. */
  lemma TransformCanBeCautious(ext: Extents)
    requires (forall d: BlockDim :: ext(d) > 0) && ext(Head) == 1
    ensures RequiresTransform(OperationalNHD, OperationalHND)
    ensures CopyKeepsCoordinates(DimOrder(OperationalNHD).value, DimOrder(OperationalHND).value, ext)
  {
    var outer := [Layer, Outer];
    WideSnoc(outer, Page, ext);
    WideSnoc(outer + [Page], Head, ext);
    WideSnoc(outer, Head, ext);
    WideSnoc(outer + [Head], Page, ext);
    var nhd, hnd := (outer + [Page]) + [Head], (outer + [Head]) + [Page];
    assert nhd == DimOrder(OperationalNHD).value && hnd == DimOrder(OperationalHND).value;
    assert Wide(nhd, ext) == Wide(hnd, ext);
    NamedLayoutsKnown();
    CopyIffSameWide(nhd, hnd, ext);
  }

  /** The named layouts are permutations of the four dimensions. */
  lemma NamedLayoutsKnown()
    ensures Known(Universal) && Known(OperationalHND) && Known(OperationalNHD)
  {
    forall l | l == Universal || l == OperationalHND || l == OperationalNHD ensures Known(l) {
      var order := DimOrder(l).value;
      forall d: BlockDim ensures d in order {
        match d case Layer => case Outer => case Page => case Head =>
      }
    }
  }

  // ---- The named layouts, spelled out ----

  /** Where an element sits in a block of each named layout. */
  lemma NamedIndex(ext: Extents, at: Coordinate)
    ensures FlatIndex(DimOrder(Universal).value, ext, at)
            == Refine(Refine(Refine(at(Head), ext(Layer), at(Layer)), ext(Outer), at(Outer)), ext(Page), at(Page))
    ensures FlatIndex(DimOrder(OperationalHND).value, ext, at)
            == Refine(Refine(Refine(at(Layer), ext(Outer), at(Outer)), ext(Head), at(Head)), ext(Page), at(Page))
    ensures FlatIndex(DimOrder(OperationalNHD).value, ext, at)
            == Refine(Refine(Refine(at(Layer), ext(Outer), at(Outer)), ext(Page), at(Page)), ext(Head), at(Head))
  {
    FourIndex(Head, Layer, Outer, Page, ext, at);
    FourIndex(Layer, Outer, Head, Page, ext, at);
    FourIndex(Layer, Outer, Page, Head, ext, at);
  }

  lemma TwoIndex(a: BlockDim, b: BlockDim, ext: Extents, at: Coordinate)
    ensures FlatIndex([a, b], ext, at) == Refine(at(a), ext(b), at(b))
  {
    assert [] + [a] == [a] && [a] + [b] == [a, b];
    IndexSnoc([], a, ext, at);
    IndexSnoc([a], b, ext, at);
  }

  lemma FourIndex(a: BlockDim, b: BlockDim, c: BlockDim, d: BlockDim, ext: Extents, at: Coordinate)
    ensures FlatIndex([a, b, c, d], ext, at)
            == Refine(Refine(Refine(at(a), ext(b), at(b)), ext(c), at(c)), ext(d), at(d))
  {
    TwoIndex(a, b, ext, at);
    assert [a, b] + [c] == [a, b, c] && [a, b, c] + [d] == [a, b, c, d];
    IndexSnoc([a, b], c, ext, at);
    IndexSnoc([a, b, c], d, ext, at);
  }

  /** A transform is asked for between any two different named layouts, and never between a layout
      and itself; a custom order equal to a named one needs none; an unknown layout needs one against
      every known layout, and none against another unknown. */
  lemma TransformTable(l: KvBlockLayout, order: seq<BlockDim>)
    ensures !RequiresTransform(l, l)
    ensures RequiresTransform(Universal, OperationalHND) && RequiresTransform(OperationalHND, Universal)
    ensures RequiresTransform(Universal, OperationalNHD) && RequiresTransform(OperationalNHD, Universal)
    ensures RequiresTransform(OperationalHND, OperationalNHD) && RequiresTransform(OperationalNHD, OperationalHND)
    ensures RequiresTransform(Universal, Custom(order)) <==> order != [Head, Layer, Outer, Page]
    ensures RequiresTransform(OperationalHND, Custom(order)) <==> order != [Layer, Outer, Head, Page]
    ensures RequiresTransform(OperationalNHD, Custom(order)) <==> order != [Layer, Outer, Page, Head]
    ensures (RequiresTransform(l, Unknown) <==> l != Unknown) && (RequiresTransform(Unknown, l) <==> l != Unknown)
  {
    assert [Head, Layer, Outer, Page][0] != [Layer, Outer, Head, Page][0];
    assert [Head, Layer, Outer, Page][0] != [Layer, Outer, Page, Head][0];
    assert [Layer, Outer, Head, Page][2] != [Layer, Outer, Page, Head][2];
  }
}
