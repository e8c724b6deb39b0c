/** Layouts in which no two elements share a byte, and what they mean for a selection. */
module CopyApart {
  import opened Outcome
  import opened Arithmetic
  import opened Tensor
  import opened Strides
  import opened CopyPlan
  import opened CopyEmit
  import opened CopyBytes
  import opened CopyMerge

  // ---- Elements that share no byte ----

  ghost predicate SameAt(a: AnnotatedLayout, c: Coord, c': Coord) {
    forall k | 0 <= k < |a.dims| :: Get(c, a.dims[k]) == Get(c', a.dims[k])
  }

  /** The elements at two coordinates have a byte in common. */
  ghost predicate Overlap(a: AnnotatedLayout, c: Coord, c': Coord) {
    Address(a, c) < Address(a, c') + a.elemSize && Address(a, c') < Address(a, c) + a.elemSize
  }

  /** No two addressable coordinates share a byte. */
  ghost predicate BytesApart(a: AnnotatedLayout) {
    forall c, c' | Addressable(a, c) && Addressable(a, c') :: Overlap(a, c, c') ==> SameAt(a, c, c')
  }

  // ---- Nested strides ----

  /** The bytes from the first to the last element of the in-tensor axes, rounded up to the
      outermost stride. */
  function Span(dims: seq<KvDim>, sizes: seq<nat>, bytes: seq<nat>, skip: Option<KvDim>, elem: nat): nat
    requires |dims| == |sizes| == |bytes|
  {
    if dims == [] then elem
    else if Some(dims[0]) == skip then Span(dims[1..], sizes[1..], bytes[1..], skip, elem)
    else bytes[0] * sizes[0]
  }

  /** Each in-tensor stride steps over everything inside it. */
  predicate Nested(dims: seq<KvDim>, sizes: seq<nat>, bytes: seq<nat>, skip: Option<KvDim>, elem: nat)
    requires |dims| == |sizes| == |bytes|
  {
    dims == [] ||
    (&& Nested(dims[1..], sizes[1..], bytes[1..], skip, elem)
     && (Some(dims[0]) == skip || bytes[0] >= Span(dims[1..], sizes[1..], bytes[1..], skip, elem)))
  }

  lemma OuterStep(stride: nat, size: nat, at: nat, rest: nat, elem: nat, inner: nat)
    requires at < size && rest + elem <= inner <= stride
    ensures stride * at + rest + elem <= stride * size
  {
    MulGap(at, size, stride);
  }

  lemma {:induction false} OffsetWithinSpan(dims: seq<KvDim>, sizes: seq<nat>, bytes: seq<nat>, skip: Option<KvDim>,
                                            elem: nat, c: Coord)
    requires |dims| == |sizes| == |bytes| && Nested(dims, sizes, bytes, skip, elem) && InRange(dims, sizes, skip, c)
    ensures OffsetOf(dims, bytes, skip, c) + elem <= Span(dims, sizes, bytes, skip, elem)
  {
    if dims != [] {
      OffsetWithinSpan(dims[1..], sizes[1..], bytes[1..], skip, elem, c);
      if Some(dims[0]) != skip {
        OuterStep(bytes[0], sizes[0], Get(c, dims[0]), OffsetOf(dims[1..], bytes[1..], skip, c), elem,
                  Span(dims[1..], sizes[1..], bytes[1..], skip, elem));
      }
    }
  }

  lemma SameQuotient(stride: nat, at: nat, at': nat, rest: nat, rest': nat, elem: nat)
    requires rest + elem <= stride && rest' + elem <= stride
    requires stride * at + rest < stride * at' + rest' + elem && stride * at' + rest' < stride * at + rest + elem
    ensures at == at'
  {
    if at < at' {
      MulGap(at, at', stride);
    } else if at' < at {
      MulGap(at', at, stride);
    }
  }

  /** With nested strides, offsets less than an element apart belong to one coordinate. */
  lemma {:induction false} NestedInjective(dims: seq<KvDim>, sizes: seq<nat>, bytes: seq<nat>, skip: Option<KvDim>,
                                           elem: nat, c: Coord, c': Coord, k: nat)
    requires |dims| == |sizes| == |bytes| && Nested(dims, sizes, bytes, skip, elem)
    requires InRange(dims, sizes, skip, c) && InRange(dims, sizes, skip, c')
    requires OffsetOf(dims, bytes, skip, c) < OffsetOf(dims, bytes, skip, c') + elem
    requires OffsetOf(dims, bytes, skip, c') < OffsetOf(dims, bytes, skip, c) + elem
    requires k < |dims| && Some(dims[k]) != skip
    ensures Get(c, dims[k]) == Get(c', dims[k])
  {
    if Some(dims[0]) != skip {
      OffsetWithinSpan(dims[1..], sizes[1..], bytes[1..], skip, elem, c);
      OffsetWithinSpan(dims[1..], sizes[1..], bytes[1..], skip, elem, c');
      SameQuotient(bytes[0], Get(c, dims[0]), Get(c', dims[0]), OffsetOf(dims[1..], bytes[1..], skip, c),
                   OffsetOf(dims[1..], bytes[1..], skip, c'), elem);
    }
    if k > 0 {
      NestedInjective(dims[1..], sizes[1..], bytes[1..], skip, elem, c, c', k - 1);
    }
  }

  predicate NestedLayout(a: AnnotatedLayout) {
    |a.dims| == |a.sizes| == |a.bytes| && Nested(a.dims, a.sizes, a.bytes, a.regionAxis, a.elemSize)
  }

  /** The regions are at least a region's span apart. */
  ghost predicate RegionsApart(a: AnnotatedLayout)
    requires |a.dims| == |a.sizes| == |a.bytes|
  {
    var span := Span(a.dims, a.sizes, a.bytes, a.regionAxis, a.elemSize);
    forall i, j | 0 <= i < j < |a.regions| :: a.regions[i] + span <= a.regions[j] || a.regions[j] + span <= a.regions[i]
  }

  function RegionOf(a: AnnotatedLayout, c: Coord): nat {
    if a.regionAxis.Some? then Get(c, a.regionAxis.value) else 0
  }

  lemma SameRegion(a: AnnotatedLayout, c: Coord, c': Coord)
    requires NestedLayout(a) && RegionsApart(a) && Addressable(a, c) && Addressable(a, c') && Overlap(a, c, c')
    ensures RegionOf(a, c) == RegionOf(a, c')
  {
    OffsetWithinSpan(a.dims, a.sizes, a.bytes, a.regionAxis, a.elemSize, c);
    OffsetWithinSpan(a.dims, a.sizes, a.bytes, a.regionAxis, a.elemSize, c');
  }

  /** Nested strides and regions apart keep all elements apart. */
  lemma NestedApart(a: AnnotatedLayout)
    requires a.Valid() && NestedLayout(a) && RegionsApart(a)
    ensures BytesApart(a)
  {
    forall c, c' | Addressable(a, c) && Addressable(a, c') && Overlap(a, c, c') ensures SameAt(a, c, c') {
      SameRegion(a, c, c');
      forall k | 0 <= k < |a.dims| ensures Get(c, a.dims[k]) == Get(c', a.dims[k]) {
        if Some(a.dims[k]) != a.regionAxis {
          NestedInjective(a.dims, a.sizes, a.bytes, a.regionAxis, a.elemSize, c, c', k);
        }
      }
    }
  }

  /** Row-major strides are nested, and span just the elements. */
  lemma {:induction false} RowMajorNested(dims: seq<KvDim>, sizes: seq<nat>, bytes: seq<nat>, skip: Option<KvDim>,
                                          elem: nat)
    requires |dims| == |sizes| && RowMajorStrides(bytes, sizes, elem)
    requires forall k | 0 <= k < |dims| :: Some(dims[k]) != skip
    ensures Nested(dims, sizes, bytes, skip, elem)
    ensures Span(dims, sizes, bytes, skip, elem) == elem * Product(sizes)
  {
    if dims != [] {
      RowMajorRest(bytes, sizes, elem);
      RowMajorNested(dims[1..], sizes[1..], bytes[1..], skip, elem);
      MulSwap(sizes[0], elem, Product(sizes[1..]));
    }
  }

  /** A row-major tensor: its elements share no byte. */
  lemma RowMajorApart(a: AnnotatedLayout)
    requires a.Valid() && a.regionAxis.None? && RowMajorStrides(a.bytes, a.sizes, a.elemSize)
    ensures BytesApart(a)
  {
    RowMajorNested(a.dims, a.sizes, a.bytes, None, a.elemSize);
    NestedApart(a);
  }

  /** A row-major tensor per region, the regions at least its size apart. */
  lemma RowMajorRegionsApart(a: AnnotatedLayout)
    requires a.Valid() && a.regionAxis == Some(a.dims[0]) && RowMajorStrides(a.bytes[1..], a.sizes[1..], a.elemSize)
    requires var region := a.elemSize * Product(a.sizes[1..]);
             forall i, j | 0 <= i < j < |a.regions| ::
               a.regions[i] + region <= a.regions[j] || a.regions[j] + region <= a.regions[i]
    ensures BytesApart(a)
  {
    RowMajorNested(a.dims[1..], a.sizes[1..], a.bytes[1..], a.regionAxis, a.elemSize);
    NestedApart(a);
  }

  // ---- One source for every destination byte ----

  /** Block pairs with one destination have one source. */
  ghost predicate OneSource(pairs: seq<(nat, nat)>) {
    forall i, j | 0 <= i < |pairs| && 0 <= j < |pairs| :: pairs[i].1 == pairs[j].1 ==> pairs[i].0 == pairs[j].0
  }

  /** No byte of the destination is to receive two different bytes. */
  ghost predicate Unambiguous(src: AnnotatedLayout, dst: AnnotatedLayout, sel: Selection) {
    forall x: nat, x': nat, y: nat :: Wanted(src, dst, sel, x, y) && Wanted(src, dst, sel, x', y) ==> x == x'
  }

  lemma SameTarget(src: AnnotatedLayout, dst: AnnotatedLayout, sel: Selection,
                   pair: nat, index: KvDim -> nat, pair': nat, index': KvDim -> nat)
    requires (forall d <- src.dims :: d in dst.dims) && OneSource(sel.blockPairs)
    requires pair < |sel.blockPairs| && pair' < |sel.blockPairs|
    requires SameAt(dst, DstAt(src, sel, pair, index), DstAt(src, sel, pair', index'))
    ensures DstAt(src, sel, pair, index) == DstAt(src, sel, pair', index')
    ensures SrcAt(src, sel, pair, index) == SrcAt(src, sel, pair', index')
  {
    var c, c' := DstAt(src, sel, pair, index), DstAt(src, sel, pair', index');
    forall d | d in src.dims ensures c[d] == c'[d] {
      var k :| 0 <= k < |dst.dims| && dst.dims[k] == d;
      assert Get(c, dst.dims[k]) == Get(c', dst.dims[k]);
    }
    assert Block in src.dims ==> c[Block] == c'[Block];
  }

  lemma LabelsShared(src: AnnotatedLayout, dst: AnnotatedLayout, sel: Selection)
    requires src.Valid() && dst.Valid() && LabelsFit(src, dst, sel)
    ensures forall d <- src.dims :: d in dst.dims
  {
    forall d | d in src.dims ensures d in dst.dims {
      var j :| 0 <= j < |src.dims| && src.dims[j] == d;
      assert LabelFits(src, dst, sel, src.dims[j]);
    }
  }

  lemma SelectedSame(src: AnnotatedLayout, dst: AnnotatedLayout, sel: Selection,
                     pair: nat, index: KvDim -> nat, pair': nat, index': KvDim -> nat)
    requires Compatible(src, dst, sel) && BytesApart(dst)
    requires Selected(src, sel, pair, index) && Selected(src, sel, pair', index')
    requires Overlap(dst, DstAt(src, sel, pair, index), DstAt(src, sel, pair', index'))
    ensures SameAt(dst, DstAt(src, sel, pair, index), DstAt(src, sel, pair', index'))
  {
    SelectedAddressable(src, dst, sel, pair, index);
    SelectedAddressable(src, dst, sel, pair', index');
  }

  lemma SameTargetMaps(src: AnnotatedLayout, dst: AnnotatedLayout, sel: Selection,
                       pair: nat, index: KvDim -> nat, pair': nat, index': KvDim -> nat)
    requires Compatible(src, dst, sel) && BytesApart(dst) && OneSource(sel.blockPairs)
    requires Selected(src, sel, pair, index) && Selected(src, sel, pair', index')
    requires Overlap(dst, DstAt(src, sel, pair, index), DstAt(src, sel, pair', index'))
    ensures DstAt(src, sel, pair, index) == DstAt(src, sel, pair', index')
    ensures SrcAt(src, sel, pair, index) == SrcAt(src, sel, pair', index')
  {
    SelectedSame(src, dst, sel, pair, index, pair', index');
    LabelsShared(src, dst, sel);
    SameTarget(src, dst, sel, pair, index, pair', index');
  }

  /** One source per destination block, in a destination whose elements share no byte, gives
      every destination byte one source byte. */
  lemma OneSourceUnambiguous(src: AnnotatedLayout, dst: AnnotatedLayout, sel: Selection)
    requires Compatible(src, dst, sel) && BytesApart(dst) && OneSource(sel.blockPairs)
    ensures Unambiguous(src, dst, sel)
  {
    forall x: nat, x': nat, y: nat | Wanted(src, dst, sel, x, y) && Wanted(src, dst, sel, x', y) ensures x == x' {
      var pair: nat, index, b: nat :| WantedAt(src, dst, sel, pair, index, b, x, y);
      var pair': nat, index', b': nat :| WantedAt(src, dst, sel, pair', index', b', x', y);
      SameTargetMaps(src, dst, sel, pair, index, pair', index');
    }
  }

  /** The first index along every axis. */
  const ORIGIN: KvDim -> nat := (d: KvDim) => 0

  lemma OriginSelected(src: AnnotatedLayout, dst: AnnotatedLayout, sel: Selection, pair: nat)
    requires Compatible(src, dst, sel) && pair < |sel.blockPairs|
    ensures Selected(src, sel, pair, ORIGIN)
    ensures Wanted(src, dst, sel, Address(src, SrcAt(src, sel, pair, ORIGIN)),
                   Address(dst, DstAt(src, sel, pair, ORIGIN)))
  {
    forall k | 0 <= k < |src.dims| ensures 0 < RangeFor(sel, src.dims[k], src.sizes[k]).len {
      FindSliceFinds(sel.axisSlices, src.dims[k]);
      var found := FindSlice(sel.axisSlices, src.dims[k]);
      assert found.Some? ==> SliceFits(src, dst, found.value);
    }
    assert WantedAt(src, dst, sel, pair, ORIGIN, 0, Address(src, SrcAt(src, sel, pair, ORIGIN)),
                    Address(dst, DstAt(src, sel, pair, ORIGIN)));
  }

  /** Different source blocks start at different bytes. */
  lemma OriginsApart(src: AnnotatedLayout, dst: AnnotatedLayout, sel: Selection, i: nat, j: nat)
    requires Compatible(src, dst, sel) && BytesApart(src) && i < |sel.blockPairs| && j < |sel.blockPairs|
    requires Address(src, SrcAt(src, sel, i, ORIGIN)) == Address(src, SrcAt(src, sel, j, ORIGIN))
    ensures sel.blockPairs[i].0 == sel.blockPairs[j].0
  {
    var c, c' := SrcAt(src, sel, i, ORIGIN), SrcAt(src, sel, j, ORIGIN);
    assert SameAt(src, c, c') by {
      OriginSelected(src, dst, sel, i);
      OriginSelected(src, dst, sel, j);
      SelectedAddressable(src, dst, sel, i, ORIGIN);
      SelectedAddressable(src, dst, sel, j, ORIGIN);
      assert Overlap(src, c, c');
    }
    var k :| 0 <= k < |src.dims| && src.dims[k] == Block;
    assert Get(c, src.dims[k]) == Get(c', src.dims[k]);
  }

  lemma SameSourceBlock(src: AnnotatedLayout, dst: AnnotatedLayout, sel: Selection, i: nat, j: nat)
    requires Compatible(src, dst, sel) && BytesApart(src) && Unambiguous(src, dst, sel)
    requires i < |sel.blockPairs| && j < |sel.blockPairs| && sel.blockPairs[i].1 == sel.blockPairs[j].1
    ensures sel.blockPairs[i].0 == sel.blockPairs[j].0
  {
    OriginSelected(src, dst, sel, i);
    OriginSelected(src, dst, sel, j);
    assert DstAt(src, sel, i, ORIGIN) == DstAt(src, sel, j, ORIGIN);
    OriginsApart(src, dst, sel, i, j);
  }

  /** Between layouts whose elements share no byte, a selection is unambiguous if and only if
      no destination block has two source blocks. */
  lemma UnambiguousIff(src: AnnotatedLayout, dst: AnnotatedLayout, sel: Selection)
    requires Compatible(src, dst, sel) && BytesApart(src) && BytesApart(dst)
    ensures Unambiguous(src, dst, sel) <==> OneSource(sel.blockPairs)
  {
    if OneSource(sel.blockPairs) {
      OneSourceUnambiguous(src, dst, sel);
    }
    if Unambiguous(src, dst, sel) {
      forall i, j | 0 <= i < |sel.blockPairs| && 0 <= j < |sel.blockPairs| && sel.blockPairs[i].1 == sel.blockPairs[j].1
        ensures sel.blockPairs[i].0 == sel.blockPairs[j].0
      {
        SameSourceBlock(src, dst, sel, i, j);
      }
    }
  }

  // ---- Disjoint sources of the emitted copies ----

  /** The source blocks of the pairs are pairwise distinct. */
  ghost predicate DistinctSources(pairs: seq<(nat, nat)>) {
    forall i, j | 0 <= i < j < |pairs| :: pairs[i].0 != pairs[j].0
  }

  /** Elements with one source coordinate are one element. */
  lemma SameSourceElement(src: AnnotatedLayout, sel: Selection, start: nat, pair: nat, index: KvDim -> nat,
                          choice: seq<nat>, at: seq<nat>,
                          pair': nat, index': KvDim -> nat, choice': seq<nat>, at': seq<nat>)
    requires |src.dims| == |src.sizes| && Block in src.dims && DistinctSources(sel.blockPairs)
    requires Selected(src, sel, pair, index) && Matches(src, start, pair, index, choice, at)
    requires Selected(src, sel, pair', index') && Matches(src, start, pair', index', choice', at')
    requires SameAt(src, SrcAt(src, sel, pair, index), SrcAt(src, sel, pair', index'))
    ensures choice == choice'
  {
    var c, c' := SrcAt(src, sel, pair, index), SrcAt(src, sel, pair', index');
    var kb :| 0 <= kb < |src.dims| && src.dims[kb] == Block;
    assert Get(c, src.dims[kb]) == Get(c', src.dims[kb]);
    assert pair == pair';
    forall k | 0 <= k < start ensures choice[k] == choice'[k] {
      assert Get(c, src.dims[k]) == Get(c', src.dims[k]);
    }
  }

  /** A source byte of a copy is a byte of an element chosen with it. */
  lemma ElementOfByte(src: AnnotatedLayout, dst: AnnotatedLayout, sel: Selection, start: nat, choice: seq<nat>, x: nat)
    returns (pair: nat, index: KvDim -> nat, at: seq<nat>)
    requires Planned(src, dst, sel, start) && |choice| == start && Choice(sel, OuterAxes(src, sel, start), choice)
    requires var op := OpAt(src, dst, sel, OuterAxes(src, sel, start), InnerBytes(src, start), choice);
             op.srcAddr <= x < op.srcAddr + op.size
    ensures Selected(src, sel, pair, index) && Matches(src, start, pair, index, choice, at)
    ensures var a := Address(src, SrcAt(src, sel, pair, index)); a <= x < a + src.elemSize
  {
    var op := OpAt(src, dst, sel, OuterAxes(src, sel, start), InnerBytes(src, start), choice);
    var b;
    at, b := OffsetToInner(src, start, x - op.srcAddr);
    pair, index := FromChoice(src, dst, sel, start, choice, at);
    ByteOfChoice(src, dst, sel, start, pair, index, choice, at, b);
  }

  lemma ChoicesDisjoint(src: AnnotatedLayout, dst: AnnotatedLayout, sel: Selection, start: nat, f: seq<nat>,
                        f': seq<nat>)
    requires Planned(src, dst, sel, start) && BytesApart(src) && DistinctSources(sel.blockPairs)
    requires |f| == |f'| == start && Choice(sel, OuterAxes(src, sel, start), f) &&
        Choice(sel, OuterAxes(src, sel, start), f')
    requires f != f'
    ensures var a := OpAt(src, dst, sel, OuterAxes(src, sel, start), InnerBytes(src, start), f);
            var b := OpAt(src, dst, sel, OuterAxes(src, sel, start), InnerBytes(src, start), f');
            Before(a, b) || Before(b, a)
  {
    var a := OpAt(src, dst, sel, OuterAxes(src, sel, start), InnerBytes(src, start), f);
    var b := OpAt(src, dst, sel, OuterAxes(src, sel, start), InnerBytes(src, start), f');
    if !Before(a, b) && !Before(b, a) {
      var x := if a.srcAddr >= b.srcAddr then a.srcAddr else b.srcAddr;
      var pair, index, at := ElementOfByte(src, dst, sel, start, f, x);
      var pair', index', at' := ElementOfByte(src, dst, sel, start, f', x);
      SelectedAddressable(src, dst, sel, pair, index);
      SelectedAddressable(src, dst, sel, pair', index');
      assert Overlap(src, SrcAt(src, sel, pair, index), SrcAt(src, sel, pair', index'));
      SameSourceElement(src, sel, start, pair, index, f, at, pair', index', f', at');
    }
  }

  ghost predicate ReadApart(src: AnnotatedLayout, dst: AnnotatedLayout, sel: Selection, outer: Axes, inner: nat,
                            f: seq<nat>, f': seq<nat>) {
    Choice(sel, outer, f) && Choice(sel, outer, f') && |f| == |f'| == |outer| && f != f' ==>
      var a, b := OpAt(src, dst, sel, outer, inner, f), OpAt(src, dst, sel, outer, inner, f');
      Before(a, b) || Before(b, a)
  }

  /** Copies of different full choices read disjoint stretches. */
  ghost predicate ChoicesApart(src: AnnotatedLayout, dst: AnnotatedLayout, sel: Selection, outer: Axes, inner: nat) {
    forall f, f' :: ReadApart(src, dst, sel, outer, inner, f, f')
  }

  lemma DisjointConcat(a: seq<CopyOp>, b: seq<CopyOp>)
    requires DisjointSources(a) && DisjointSources(b)
    requires forall i, j | 0 <= i < |a| && 0 <= j < |b| :: Before(a[i], b[j]) || Before(b[j], a[i])
    ensures DisjointSources(a + b)
  {
    var ops := a + b;
    forall i, j | 0 <= i < j < |ops| ensures Before(ops[i], ops[j]) || Before(ops[j], ops[i]) {
      if i < |a| <= j {
        assert Before(a[i], b[j - |a|]) || Before(b[j - |a|], a[i]);
      }
    }
  }

  lemma BranchesDisjoint(src: AnnotatedLayout, dst: AnnotatedLayout, sel: Selection, outer: Axes, inner: nat,
                         choice: seq<nat>, n: nat, a: CopyOp, b: CopyOp)
    requires Choice(sel, outer, choice) && ChoicesApart(src, dst, sel, outer, inner)
    requires |choice| < |outer| && n < LenAt(sel, outer[|choice|]) && Choice(sel, outer, choice + [n])
    requires a in EmitUpTo(src, dst, sel, outer, inner, choice, n) &&
        b in EmitFrom(src, dst, sel, outer, inner, choice + [n])
    ensures Before(a, b) || Before(b, a)
  {
    var f := EmitUpToSound(src, dst, sel, outer, inner, choice, n, a);
    var f' := EmitSound(src, dst, sel, outer, inner, choice + [n], b);
    assert f'[|choice|] == (choice + [n])[|choice|];
    assert ReadApart(src, dst, sel, outer, inner, f, f');
  }

  lemma {:induction false} EmitDisjoint(src: AnnotatedLayout, dst: AnnotatedLayout, sel: Selection, outer: Axes,
                                        inner: nat, choice: seq<nat>)
    requires Choice(sel, outer, choice) && ChoicesApart(src, dst, sel, outer, inner)
    ensures DisjointSources(EmitFrom(src, dst, sel, outer, inner, choice))
    decreases |outer| - |choice|, 1, 0
  {
    if |choice| < |outer| {
      EmitUpToDisjoint(src, dst, sel, outer, inner, choice, LenAt(sel, outer[|choice|]));
    }
  }

  lemma {:induction false} EmitUpToDisjoint(src: AnnotatedLayout, dst: AnnotatedLayout, sel: Selection, outer: Axes,
                                            inner: nat, choice: seq<nat>, n: nat)
    requires Choice(sel, outer, choice) && ChoicesApart(src, dst, sel, outer, inner)
    requires |choice| < |outer| && n <= LenAt(sel, outer[|choice|])
    ensures DisjointSources(EmitUpTo(src, dst, sel, outer, inner, choice, n))
    decreases |outer| - |choice|, 0, n
  {
    if n > 0 {
      var before, next := EmitUpTo(src, dst, sel, outer, inner, choice, n - 1),
        EmitFrom(src, dst, sel, outer, inner, choice + [n - 1]);
      EmitUpToDisjoint(src, dst, sel, outer, inner, choice, n - 1);
      EmitDisjoint(src, dst, sel, outer, inner, choice + [n - 1]);
      forall i, j | 0 <= i < |before| && 0 <= j < |next|
        ensures Before(before[i], next[j]) || Before(next[j], before[i]) {
        BranchesDisjoint(src, dst, sel, outer, inner, choice, n - 1, before[i], next[j]);
      }
      DisjointConcat(before, next);
    }
  }

  /** Distinct source blocks of a layout whose elements share no byte are read disjointly. */
  lemma EmittedDisjoint(src: AnnotatedLayout, dst: AnnotatedLayout, sel: Selection, start: nat)
    requires Planned(src, dst, sel, start) && BytesApart(src) && DistinctSources(sel.blockPairs)
    ensures DisjointSources(Emitted(src, dst, sel, start))
  {
    var outer, inner := OuterAxes(src, sel, start), InnerBytes(src, start);
    forall f, f' ensures ReadApart(src, dst, sel, outer, inner, f, f') {
      if Choice(sel, outer, f) && Choice(sel, outer, f') && |f| == |f'| == |outer| && f != f' {
        ChoicesDisjoint(src, dst, sel, start, f, f');
      }
    }
    EmitDisjoint(src, dst, sel, outer, inner, []);
  }
}
