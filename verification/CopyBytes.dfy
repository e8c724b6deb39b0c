/** The bytes a plan moves are the bytes its selection asks for. */
module CopyBytes {
  import opened Outcome
  import opened Arithmetic
  import opened Tensor
  import opened Strides
  import opened Slices
  import opened CopyPlan
  import opened CopyEmit

  // ---- The inner axes ----

  /** An axis that may be part of one contiguous copy: same place and size on both sides, not
      the block axis, not a region axis, not sliced. */
  predicate Eligible(src: AnnotatedLayout, dst: AnnotatedLayout, sel: Selection, i: nat)
    requires i < |src.dims| == |src.sizes| == |dst.dims| == |dst.sizes|
  {
    && src.dims[i] == dst.dims[i] && src.sizes[i] == dst.sizes[i]
    && src.dims[i] != Block
    && Some(src.dims[i]) != src.regionAxis && Some(src.dims[i]) != dst.regionAxis
    && FindSlice(sel.axisSlices, src.dims[i]).None?
  }

  /** An eligible axis that is row-major on both sides. */
  predicate Folds(src: AnnotatedLayout, dst: AnnotatedLayout, sel: Selection, i: nat)
    requires i < |src.dims| == |src.sizes| == |dst.dims| == |dst.sizes| == |src.bytes| == |dst.bytes|
  {
    && Eligible(src, dst, sel, i)
    && src.bytes[i] == RowMajor(src.sizes, src.elemSize, i)
    && dst.bytes[i] == RowMajor(src.sizes, src.elemSize, i)
  }

  /** All axes from `start` on fold into one copy. */
  ghost predicate InnerFrom(src: AnnotatedLayout, dst: AnnotatedLayout, sel: Selection, start: nat) {
    && start <= |src.dims| == |src.sizes| == |dst.dims| == |dst.sizes| == |src.bytes| == |dst.bytes|
    && forall i | start <= i < |src.dims| :: Folds(src, dst, sel, i)
  }

  function OuterAxes(src: AnnotatedLayout, sel: Selection, start: nat): Axes
    requires start <= |src.dims| == |src.sizes|
  {
    seq(start, k requires 0 <= k < start => (src.dims[k], RangeFor(sel, src.dims[k], src.sizes[k])))
  }

  lemma InnerShape(src: AnnotatedLayout, dst: AnnotatedLayout, sel: Selection, start: nat)
    requires InnerFrom(src, dst, sel, start)
    ensures src.dims[start..] == dst.dims[start..] && src.sizes[start..] == dst.sizes[start..]
    ensures RowMajorStrides(src.bytes[start..], src.sizes[start..], src.elemSize)
    ensures RowMajorStrides(dst.bytes[start..], src.sizes[start..], src.elemSize)
  {
    forall j | 0 <= j < |src.dims| - start
      ensures src.dims[start..][j] == dst.dims[start..][j] && src.sizes[start..][j] == dst.sizes[start..][j]
      ensures src.bytes[start..][j] == RowMajor(src.sizes[start..], src.elemSize, j) == dst.bytes[start..][j]
    {
      assert Folds(src, dst, sel, start + j);
      assert src.sizes[start..][j + 1..] == src.sizes[start + j + 1..];
    }
  }

  // ---- Ranges stay inside the layouts ----

  lemma SizeAt(dims: seq<KvDim>, sizes: seq<nat>, k: nat)
    requires |dims| == |sizes| && Distinct(dims) && k < |dims|
    ensures FirstAt(dims, dims[k]) == Some(k) && SizeOr1(dims, sizes, dims[k]) == sizes[k]
  {
    FirstAtFinds(dims, dims[k]);
  }

  lemma {:induction false} FindSliceFinds(slices: seq<AxisIntersection>, d: KvDim)
    ensures FindSlice(slices, d).Some? ==> FindSlice(slices, d).value in slices && FindSlice(slices, d).value.dim == d
    ensures FindSlice(slices, d).None? ==> forall i | 0 <= i < |slices| :: slices[i].dim != d
  {
    if slices != [] && slices[0].dim != d {
      FindSliceFinds(slices[1..], d);
      assert slices == [slices[0]] + slices[1..];
    }
  }

  /** The walked range of an axis fits the axis on both sides. */
  lemma RangeFits(src: AnnotatedLayout, dst: AnnotatedLayout, sel: Selection, d: KvDim)
    requires Compatible(src, dst, sel) && d in src.dims && d != Block
    ensures var r := RangeFor(sel, d, SizeOr1(src.dims, src.sizes, d));
            && r.srcStart + r.len <= SizeOr1(src.dims, src.sizes, d)
            && r.dstStart + r.len <= SizeOr1(dst.dims, dst.sizes, d)
  {
    var k :| 0 <= k < |src.dims| && src.dims[k] == d;
    assert LabelFits(src, dst, sel, src.dims[k]);
    FindSliceFinds(sel.axisSlices, d);
    match FindSlice(sel.axisSlices, d)
    case None =>
    case Some(s) =>
      assert SliceFits(src, dst, s);
  }

  // ---- Offsets ----

  lemma {:induction false} OffsetSplit(dims: seq<KvDim>, bytes: seq<nat>, skip: Option<KvDim>, c: Coord, k: nat)
    requires |dims| == |bytes| && k <= |dims|
    ensures OffsetOf(dims, bytes, skip, c) ==
        OffsetOf(dims[..k], bytes[..k], skip, c) + OffsetOf(dims[k..], bytes[k..], skip, c)
  {
    if k > 0 {
      OffsetSplit(dims[1..], bytes[1..], skip, c, k - 1);
      assert dims[..k][1..] == dims[1..][..k - 1] && bytes[..k][1..] == bytes[1..][..k - 1];
      assert dims[k..] == dims[1..][k - 1..] && bytes[k..] == bytes[1..][k - 1..];
    }
  }

  lemma {:induction false} OffsetAgree(dims: seq<KvDim>, bytes: seq<nat>, skip: Option<KvDim>, c: Coord, c': Coord)
    requires |dims| == |bytes| && forall k | 0 <= k < |dims| :: Get(c, dims[k]) == Get(c', dims[k])
    ensures OffsetOf(dims, bytes, skip, c) == OffsetOf(dims, bytes, skip, c')
  {
    if dims != [] {
      OffsetAgree(dims[1..], bytes[1..], skip, c, c');
    }
  }

  lemma {:induction false} OffsetAlong(dims: seq<KvDim>, bytes: seq<nat>, skip: Option<KvDim>, c: Coord, at: seq<nat>)
    requires |dims| == |bytes| == |at|
    requires forall k | 0 <= k < |dims| :: Some(dims[k]) != skip && Get(c, dims[k]) == at[k]
    ensures OffsetOf(dims, bytes, skip, c) == Offset(bytes, at)
  {
    if dims != [] {
      OffsetAlong(dims[1..], bytes[1..], skip, c, at[1..]);
    }
  }

  lemma {:induction false} OffsetNone(dims: seq<KvDim>, bytes: seq<nat>, skip: Option<KvDim>, c: Coord)
    requires |dims| == |bytes| && forall k | 0 <= k < |dims| :: Get(c, dims[k]) == 0
    ensures OffsetOf(dims, bytes, skip, c) == 0
  {
    if dims != [] {
      OffsetNone(dims[1..], bytes[1..], skip, c);
    }
  }

  /** A full coordinate lies inside the copy of its outer coordinate, at its inner rank. */
  lemma AddressSplit(a: AnnotatedLayout, start: nat, outerC: Coord, fullC: Coord, at: seq<nat>)
    requires Addressable(a, outerC) && Addressable(a, fullC) && start + |at| == |a.dims|
    requires forall k | 0 <= k < start :: Get(outerC, a.dims[k]) == Get(fullC, a.dims[k])
    requires forall k | start <= k < |a.dims| ::
               Some(a.dims[k]) != a.regionAxis && Get(outerC, a.dims[k]) == 0 && Get(fullC, a.dims[k]) == at[k - start]
    requires RowMajorStrides(a.bytes[start..], a.sizes[start..], a.elemSize)
    ensures Address(a, fullC) == Address(a, outerC) + a.elemSize * Rank(a.sizes[start..], at)
  {
    OffsetSplit(a.dims, a.bytes, a.regionAxis, outerC, start);
    OffsetSplit(a.dims, a.bytes, a.regionAxis, fullC, start);
    OffsetAgree(a.dims[..start], a.bytes[..start], a.regionAxis, outerC, fullC);
    OffsetNone(a.dims[start..], a.bytes[start..], a.regionAxis, outerC);
    OffsetAlong(a.dims[start..], a.bytes[start..], a.regionAxis, fullC, at);
    RowMajorOffset(a.bytes[start..], a.sizes[start..], a.elemSize, at);
    if a.regionAxis.Some? {
      var k :| 0 <= k < |a.dims| && a.dims[k] == a.regionAxis.value;
      assert Get(outerC, a.dims[k]) == Get(fullC, a.dims[k]);
    }
  }

  // ---- Coordinates stay inside the layouts ----

  lemma AddressableWithin(a: AnnotatedLayout, c: Coord)
    requires a.Valid() && forall k | 0 <= k < |a.dims| :: Get(c, a.dims[k]) < a.sizes[k]
    requires a.regionAxis.Some? ==> a.regionAxis.value in c
    ensures Addressable(a, c)
  {
    if a.regionAxis.Some? {
      var k :| 0 <= k < |a.dims| && a.dims[k] == a.regionAxis.value;
      SizeAt(a.dims, a.sizes, k);
      assert Get(c, a.dims[k]) < a.sizes[k];
    }
  }

  /** A selected coordinate is inside the layout on either side. */
  lemma SelectedWithin(src: AnnotatedLayout, dst: AnnotatedLayout, sel: Selection, pair: nat, index: KvDim -> nat,
                       d: KvDim)
    requires Compatible(src, dst, sel) && Selected(src, sel, pair, index) && d in src.dims
    ensures SrcAt(src, sel, pair, index)[d] < SizeOr1(src.dims, src.sizes, d)
    ensures DstAt(src, sel, pair, index)[d] < SizeOr1(dst.dims, dst.sizes, d)
  {
    var k :| 0 <= k < |src.dims| && src.dims[k] == d;
    SizeAt(src.dims, src.sizes, k);
    if d != Block {
      RangeFits(src, dst, sel, d);
    }
  }

  lemma SelectedAddressable(src: AnnotatedLayout, dst: AnnotatedLayout, sel: Selection, pair: nat, index: KvDim -> nat)
    requires Compatible(src, dst, sel) && Selected(src, sel, pair, index)
    ensures Addressable(src, SrcAt(src, sel, pair, index)) && Addressable(dst, DstAt(src, sel, pair, index))
  {
    forall k | 0 <= k < |src.dims| ensures Get(SrcAt(src, sel, pair, index), src.dims[k]) < src.sizes[k] {
      SelectedWithin(src, dst, sel, pair, index, src.dims[k]);
      SizeAt(src.dims, src.sizes, k);
    }
    AddressableWithin(src, SrcAt(src, sel, pair, index));
    forall k | 0 <= k < |dst.dims| ensures Get(DstAt(src, sel, pair, index), dst.dims[k]) < dst.sizes[k] {
      assert dst.dims[k] in src.dims;
      SelectedWithin(src, dst, sel, pair, index, dst.dims[k]);
      SizeAt(dst.dims, dst.sizes, k);
    }
    AddressableWithin(dst, DstAt(src, sel, pair, index));
  }

  // ---- Choices and selected elements ----

  /** A selected element seen as a choice of outer coordinates and an inner position. */
  ghost predicate Matches(src: AnnotatedLayout, start: nat, pair: nat, index: KvDim -> nat, choice: seq<nat>,
                          at: seq<nat>) {
    && |choice| == start && start + |at| == |src.dims|
    && (forall k | 0 <= k < start :: choice[k] == if src.dims[k] == Block then pair else index(src.dims[k]))
    && (forall k | start <= k < |src.dims| :: at[k - start] == index(src.dims[k]))
  }

  ghost predicate Planned(src: AnnotatedLayout, dst: AnnotatedLayout, sel: Selection, start: nat) {
    Compatible(src, dst, sel) && InnerFrom(src, dst, sel, start)
  }

  lemma OuterLabels(src: AnnotatedLayout, dst: AnnotatedLayout, sel: Selection, start: nat)
    requires Planned(src, dst, sel, start)
    ensures DistinctAxes(OuterAxes(src, sel, start))
    ensures forall k | 0 <= k < |src.dims| :: src.dims[k] == Block ==> k < start
  {
    forall k | start <= k < |src.dims| ensures src.dims[k] != Block {
      assert Folds(src, dst, sel, k);
    }
  }

  /** Outside the inner axes both sides have the same labels. */
  lemma DstOuterLabel(src: AnnotatedLayout, dst: AnnotatedLayout, sel: Selection, start: nat, k: nat) returns (j: nat)
    requires Planned(src, dst, sel, start) && k < start
    ensures j < start && src.dims[j] == dst.dims[k]
  {
    assert dst.dims[k] in src.dims;
    assert forall i | start <= i < |src.dims| :: Folds(src, dst, sel, i) ==> src.dims[i] == dst.dims[i];
    j :| 0 <= j < |src.dims| && src.dims[j] == dst.dims[k];
  }

  lemma OuterValue(src: AnnotatedLayout, dst: AnnotatedLayout, sel: Selection, start: nat,
                   pair: nat, index: KvDim -> nat, choice: seq<nat>, at: seq<nat>, k: nat)
    requires Planned(src, dst, sel, start) && Selected(src, sel, pair, index) &&
        Matches(src, start, pair, index, choice, at)
    requires Choice(sel, OuterAxes(src, sel, start), choice) && k < start
    ensures Get(SrcCoord(sel, OuterAxes(src, sel, start), choice), src.dims[k]) ==
        SrcAt(src, sel, pair, index)[src.dims[k]]
    ensures Get(DstCoord(sel, OuterAxes(src, sel, start), choice), src.dims[k]) ==
        DstAt(src, sel, pair, index)[src.dims[k]]
    ensures src.dims[k] in SrcCoord(sel, OuterAxes(src, sel, start), choice)
    ensures src.dims[k] in DstCoord(sel, OuterAxes(src, sel, start), choice)
  {
    OuterLabels(src, dst, sel, start);
    CoordAt(sel, OuterAxes(src, sel, start), choice, k);
  }

  lemma InnerValue(src: AnnotatedLayout, dst: AnnotatedLayout, sel: Selection, start: nat,
                   pair: nat, index: KvDim -> nat, choice: seq<nat>, at: seq<nat>, k: nat)
    requires Planned(src, dst, sel, start) && Selected(src, sel, pair, index) &&
        Matches(src, start, pair, index, choice, at)
    requires Choice(sel, OuterAxes(src, sel, start), choice) && start <= k < |src.dims|
    ensures dst.dims[k] == src.dims[k]
    ensures Some(src.dims[k]) != src.regionAxis && Some(src.dims[k]) != dst.regionAxis
    ensures src.dims[k] !in SrcCoord(sel, OuterAxes(src, sel, start), choice)
    ensures src.dims[k] !in DstCoord(sel, OuterAxes(src, sel, start), choice)
    ensures SrcAt(src, sel, pair, index)[src.dims[k]] == DstAt(src, sel, pair, index)[src.dims[k]] == at[k - start]
  {
    assert Folds(src, dst, sel, k);
    CoordKeys(sel, OuterAxes(src, sel, start), choice, src.dims[k]);
  }

  /** On the outer axes the two coordinates agree, and lie in the layout. */
  ghost predicate OuterAgrees(a: AnnotatedLayout, start: nat, outerC: Coord, fullC: Coord)
    requires start <= |a.dims| == |a.sizes|
  {
    forall k | 0 <= k < start ::
      a.dims[k] in outerC && Get(outerC, a.dims[k]) == Get(fullC, a.dims[k]) < a.sizes[k]
  }

  /** On the inner axes one is at the origin and the other at `at`. */
  ghost predicate InnerAt(a: AnnotatedLayout, start: nat, outerC: Coord, fullC: Coord, at: seq<nat>)
    requires start <= |a.dims| && start + |at| == |a.dims|
  {
    forall k | start <= k < |a.dims| ::
      Some(a.dims[k]) != a.regionAxis && Get(outerC, a.dims[k]) == 0 && Get(fullC, a.dims[k]) == at[k - start]
  }

  lemma AddressApart(a: AnnotatedLayout, start: nat, outerC: Coord, fullC: Coord, at: seq<nat>)
    requires Addressable(a, fullC) && start + |at| == |a.dims|
    requires OuterAgrees(a, start, outerC, fullC) && InnerAt(a, start, outerC, fullC, at)
    requires RowMajorStrides(a.bytes[start..], a.sizes[start..], a.elemSize)
    ensures Addressable(a, outerC) && Address(a, fullC) == Address(a, outerC) + a.elemSize * Rank(a.sizes[start..], at)
  {
    AddressableWithin(a, outerC);
    AddressSplit(a, start, outerC, fullC, at);
  }

  lemma SrcOuterAgrees(src: AnnotatedLayout, dst: AnnotatedLayout, sel: Selection, start: nat,
                       pair: nat, index: KvDim -> nat, choice: seq<nat>, at: seq<nat>)
    requires Planned(src, dst, sel, start) && Selected(src, sel, pair, index) &&
        Matches(src, start, pair, index, choice, at)
    requires Choice(sel, OuterAxes(src, sel, start), choice)
    ensures OuterAgrees(src, start, SrcCoord(sel, OuterAxes(src, sel, start), choice), SrcAt(src, sel, pair, index))
  {
    var outerC, fullC := SrcCoord(sel, OuterAxes(src, sel, start), choice), SrcAt(src, sel, pair, index);
    forall k | 0 <= k < start
      ensures src.dims[k] in outerC && Get(outerC, src.dims[k]) == Get(fullC, src.dims[k]) < src.sizes[k]
    {
      OuterValue(src, dst, sel, start, pair, index, choice, at, k);
      SelectedWithin(src, dst, sel, pair, index, src.dims[k]);
      SizeAt(src.dims, src.sizes, k);
    }
  }

  /** On the source side, a selected element lies at its inner rank within its outer copy. */
  lemma SrcMatched(src: AnnotatedLayout, dst: AnnotatedLayout, sel: Selection, start: nat,
                   pair: nat, index: KvDim -> nat, choice: seq<nat>, at: seq<nat>)
    requires Planned(src, dst, sel, start) && Selected(src, sel, pair, index) &&
        Matches(src, start, pair, index, choice, at)
    requires Choice(sel, OuterAxes(src, sel, start), choice)
    ensures var c := SrcCoord(sel, OuterAxes(src, sel, start), choice);
            && Addressable(src, c)
            && Address(src, SrcAt(src, sel, pair, index)) ==
              Address(src, c) + src.elemSize * Rank(src.sizes[start..], at)
  {
    var outerC, fullC := SrcCoord(sel, OuterAxes(src, sel, start), choice), SrcAt(src, sel, pair, index);
    SelectedAddressable(src, dst, sel, pair, index);
    SrcOuterAgrees(src, dst, sel, start, pair, index, choice, at);
    forall k | start <= k < |src.dims|
      ensures Some(src.dims[k]) != src.regionAxis && Get(outerC, src.dims[k]) == 0 &&
          Get(fullC, src.dims[k]) == at[k - start]
    {
      InnerValue(src, dst, sel, start, pair, index, choice, at, k);
    }
    InnerShape(src, dst, sel, start);
    AddressApart(src, start, outerC, fullC, at);
  }

  lemma DstOuterAgrees(src: AnnotatedLayout, dst: AnnotatedLayout, sel: Selection, start: nat,
                       pair: nat, index: KvDim -> nat, choice: seq<nat>, at: seq<nat>)
    requires Planned(src, dst, sel, start) && Selected(src, sel, pair, index) &&
        Matches(src, start, pair, index, choice, at)
    requires Choice(sel, OuterAxes(src, sel, start), choice)
    ensures OuterAgrees(dst, start, DstCoord(sel, OuterAxes(src, sel, start), choice), DstAt(src, sel, pair, index))
  {
    var outerC, fullC := DstCoord(sel, OuterAxes(src, sel, start), choice), DstAt(src, sel, pair, index);
    forall k | 0 <= k < start
      ensures dst.dims[k] in outerC && Get(outerC, dst.dims[k]) == Get(fullC, dst.dims[k]) < dst.sizes[k]
    {
      var j := DstOuterLabel(src, dst, sel, start, k);
      OuterValue(src, dst, sel, start, pair, index, choice, at, j);
      SelectedWithin(src, dst, sel, pair, index, src.dims[j]);
      SizeAt(dst.dims, dst.sizes, k);
    }
  }

  /** The same on the destination side, whose outer axes may come in another order. */
  lemma DstMatched(src: AnnotatedLayout, dst: AnnotatedLayout, sel: Selection, start: nat,
                   pair: nat, index: KvDim -> nat, choice: seq<nat>, at: seq<nat>)
    requires Planned(src, dst, sel, start) && Selected(src, sel, pair, index) &&
        Matches(src, start, pair, index, choice, at)
    requires Choice(sel, OuterAxes(src, sel, start), choice)
    ensures var c := DstCoord(sel, OuterAxes(src, sel, start), choice);
            && Addressable(dst, c)
            && Address(dst, DstAt(src, sel, pair, index)) ==
              Address(dst, c) + src.elemSize * Rank(src.sizes[start..], at)
  {
    var outerC, fullC := DstCoord(sel, OuterAxes(src, sel, start), choice), DstAt(src, sel, pair, index);
    SelectedAddressable(src, dst, sel, pair, index);
    DstOuterAgrees(src, dst, sel, start, pair, index, choice, at);
    forall k | start <= k < |dst.dims|
      ensures Some(dst.dims[k]) != dst.regionAxis && Get(outerC, dst.dims[k]) == 0 &&
          Get(fullC, dst.dims[k]) == at[k - start]
    {
      InnerValue(src, dst, sel, start, pair, index, choice, at, k);
    }
    InnerShape(src, dst, sel, start);
    AddressApart(dst, start, outerC, fullC, at);
  }

  function OuterPart(src: AnnotatedLayout, start: nat, pair: nat, index: KvDim -> nat): seq<nat>
    requires start <= |src.dims|
  {
    seq(start, k requires 0 <= k < start => if src.dims[k] == Block then pair else index(src.dims[k]))
  }

  function InnerPart(src: AnnotatedLayout, start: nat, index: KvDim -> nat): seq<nat>
    requires start <= |src.dims|
  {
    seq(|src.dims| - start, k requires 0 <= k < |src.dims| - start => index(src.dims[start + k]))
  }

  lemma OuterPartChosen(src: AnnotatedLayout, sel: Selection, start: nat, pair: nat, index: KvDim -> nat)
    requires start <= |src.dims| && Selected(src, sel, pair, index)
    ensures Choice(sel, OuterAxes(src, sel, start), OuterPart(src, start, pair, index))
    ensures Matches(src, start, pair, index, OuterPart(src, start, pair, index), InnerPart(src, start, index))
  {
  }

  /** Every selected element is some choice and some inner position... */
  lemma ToChoice(src: AnnotatedLayout, dst: AnnotatedLayout, sel: Selection, start: nat, pair: nat, index: KvDim -> nat)
    returns (choice: seq<nat>, at: seq<nat>)
    requires Planned(src, dst, sel, start) && Selected(src, sel, pair, index)
    ensures Matches(src, start, pair, index, choice, at)
    ensures Choice(sel, OuterAxes(src, sel, start), choice) && InBox(src.sizes[start..], at)
  {
    choice, at := OuterPart(src, start, pair, index), InnerPart(src, start, index);
    OuterPartChosen(src, sel, start, pair, index);
    forall k | 0 <= k < |at| ensures at[k] < src.sizes[start..][k] {
      assert Folds(src, dst, sel, start + k);
    }
  }

  function IndexOf(dims: seq<KvDim>, values: seq<nat>, d: KvDim): nat
    requires |dims| == |values|
  {
    FirstAtFinds(dims, d);
    match FirstAt(dims, d) case None => 0 case Some(k) => values[k]
  }

  lemma IndexOfAt(dims: seq<KvDim>, values: seq<nat>, k: nat)
    requires |dims| == |values| && Distinct(dims) && k < |dims|
    ensures IndexOf(dims, values, dims[k]) == values[k]
  {
    SizeAt(dims, values, k);
  }

  lemma InnerBelow(src: AnnotatedLayout, dst: AnnotatedLayout, sel: Selection, start: nat, at: seq<nat>, k: nat)
    requires Planned(src, dst, sel, start) && start <= k < |src.dims| && InBox(src.sizes[start..], at)
    ensures src.dims[k] != Block && at[k - start] < RangeFor(sel, src.dims[k], src.sizes[k]).len
  {
    assert Folds(src, dst, sel, k);
    assert at[k - start] < src.sizes[start..][k - start];
  }

  /** Chosen values stay within the walked ranges. */
  lemma ChosenBelow(src: AnnotatedLayout, dst: AnnotatedLayout, sel: Selection, start: nat, choice: seq<nat>,
                    at: seq<nat>, k: nat)
    requires Planned(src, dst, sel, start) && |choice| == start && k < |src.dims|
    requires Choice(sel, OuterAxes(src, sel, start), choice) && InBox(src.sizes[start..], at)
    ensures src.dims[k] == Block ==> k < start && choice[k] < |sel.blockPairs|
    ensures src.dims[k] != Block ==> (choice + at)[k] < RangeFor(sel, src.dims[k], src.sizes[k]).len
  {
    if k < start {
      assert OuterAxes(src, sel, start)[k] == (src.dims[k], RangeFor(sel, src.dims[k], src.sizes[k]));
    } else {
      InnerBelow(src, dst, sel, start, at, k);
    }
  }

  lemma FromValues(src: AnnotatedLayout, sel: Selection, choice: seq<nat>, at: seq<nat>, kb: nat, index: KvDim -> nat)
    requires |src.dims| == |src.sizes| == |choice| + |at| && Distinct(src.dims)
    requires kb < |choice| && src.dims[kb] == Block && choice[kb] < |sel.blockPairs|
    requires forall k | 0 <= k < |src.dims| :: index(src.dims[k]) == (choice + at)[k]
    requires forall k | 0 <= k < |src.dims| :: src.dims[k] != Block ==>
        index(src.dims[k]) < RangeFor(sel, src.dims[k], src.sizes[k]).len
    ensures Selected(src, sel, choice[kb], index) && Matches(src, |choice|, choice[kb], index, choice, at)
  {
  }

  /** ...and every choice and inner position is a selected element. */
  lemma FromChoice(src: AnnotatedLayout, dst: AnnotatedLayout, sel: Selection, start: nat, choice: seq<nat>,
                   at: seq<nat>)
    returns (pair: nat, index: KvDim -> nat)
    requires Planned(src, dst, sel, start) && |choice| == start
    requires Choice(sel, OuterAxes(src, sel, start), choice) && InBox(src.sizes[start..], at)
    ensures Selected(src, sel, pair, index) && Matches(src, start, pair, index, choice, at)
  {
    var dims, values := src.dims, choice + at;
    index := d => IndexOf(dims, values, d);
    var kb :| 0 <= kb < |dims| && dims[kb] == Block;
    ChosenBelow(src, dst, sel, start, choice, at, kb);
    pair := choice[kb];
    forall k | 0 <= k < |dims|
      ensures index(dims[k]) == values[k]
      ensures dims[k] != Block ==> index(dims[k]) < RangeFor(sel, dims[k], src.sizes[k]).len
    {
      IndexOfAt(dims, values, k);
      ChosenBelow(src, dst, sel, start, choice, at, k);
    }
    FromValues(src, sel, choice, at, kb, index);
  }

  // ---- The bytes of the emitted copies ----

  lemma ByteToSlot(o: nat, slots: nat, elem: nat)
    requires elem > 0 && o < elem * slots
    ensures o / elem < slots && o == elem * (o / elem) + o % elem
  {
    DivBound(o, slots, elem);
  }

  lemma SlotToByte(slot: nat, slots: nat, elem: nat, b: nat)
    requires slot < slots && b < elem
    ensures elem * slot + b < elem * slots
  {
    MulGap(slot, slots, elem);
  }

  /** No address lookup fails on the way. */
  lemma ChoicesAddressable(src: AnnotatedLayout, dst: AnnotatedLayout, sel: Selection, start: nat)
    requires Planned(src, dst, sel, start)
    ensures AllAddressable(src, dst, sel, OuterAxes(src, sel, start))
  {
    var outer := OuterAxes(src, sel, start);
    forall full | Choice(sel, outer, full) && |full| == |outer|
      ensures Addressable(src, SrcCoord(sel, outer, full)) && Addressable(dst, DstCoord(sel, outer, full))
    {
      var at := seq(|src.dims| - start, k => 0);
      var pair, index := FromChoice(src, dst, sel, start, full, at);
      SrcMatched(src, dst, sel, start, pair, index, full, at);
      DstMatched(src, dst, sel, start, pair, index, full, at);
    }
  }

  /** The bytes of one copy over all axes from `start` on. */
  function InnerBytes(a: AnnotatedLayout, start: nat): nat
    requires start <= |a.sizes|
  {
    a.elemSize * Product(a.sizes[start..])
  }

  /** The copies for all outer coordinates. */
  ghost function Emitted(src: AnnotatedLayout, dst: AnnotatedLayout, sel: Selection, start: nat): seq<CopyOp>
    requires start <= |src.dims| == |src.sizes|
  {
    EmitFrom(src, dst, sel, OuterAxes(src, sel, start), InnerBytes(src, start), [])
  }

  /** Where a selected element's byte lies within the copy of its choice. */
  lemma ByteOfChoice(src: AnnotatedLayout, dst: AnnotatedLayout, sel: Selection, start: nat,
                     pair: nat, index: KvDim -> nat, choice: seq<nat>, at: seq<nat>, b: nat)
    requires Planned(src, dst, sel, start) && Selected(src, sel, pair, index) &&
        Matches(src, start, pair, index, choice, at)
    requires Choice(sel, OuterAxes(src, sel, start), choice)
    ensures var op, o := OpAt(src, dst, sel, OuterAxes(src, sel, start), InnerBytes(src, start), choice),
        src.elemSize * Rank(src.sizes[start..], at) + b;
            && Address(src, SrcAt(src, sel, pair, index)) + b == op.srcAddr + o
            && Address(dst, DstAt(src, sel, pair, index)) + b == op.dstAddr + o
  {
    SrcMatched(src, dst, sel, start, pair, index, choice, at);
    DstMatched(src, dst, sel, start, pair, index, choice, at);
  }

  /** The inner position and byte at an offset into a copy. */
  lemma OffsetToInner(a: AnnotatedLayout, start: nat, o: nat) returns (at: seq<nat>, b: nat)
    requires start <= |a.sizes| && a.elemSize > 0 && o < InnerBytes(a, start)
    ensures InBox(a.sizes[start..], at) && b < a.elemSize && o == a.elemSize * Rank(a.sizes[start..], at) + b
  {
    ByteToSlot(o, Product(a.sizes[start..]), a.elemSize);
    at, b := Unrank(a.sizes[start..], o / a.elemSize), o % a.elemSize;
    UnrankInverse(a.sizes[start..], o / a.elemSize);
  }

  lemma InnerToOffset(a: AnnotatedLayout, start: nat, at: seq<nat>, b: nat)
    requires start <= |a.sizes| && InBox(a.sizes[start..], at) && b < a.elemSize
    ensures 0 <= a.elemSize * Rank(a.sizes[start..], at) + b < InnerBytes(a, start)
  {
    RankBound(a.sizes[start..], at);
    SlotToByte(Rank(a.sizes[start..], at), Product(a.sizes[start..]), a.elemSize, b);
  }

  /** A byte of an emitted copy is a byte of a selected element... */
  lemma EmittedIsWanted(src: AnnotatedLayout, dst: AnnotatedLayout, sel: Selection, start: nat, op: CopyOp, x: nat,
                        y: nat)
    requires Planned(src, dst, sel, start) && op in Emitted(src, dst, sel, start) && MovesBy(op, x, y)
    ensures Wanted(src, dst, sel, x, y)
  {
    var full := EmitSound(src, dst, sel, OuterAxes(src, sel, start), InnerBytes(src, start), [], op);
    var at, b := OffsetToInner(src, start, x - op.srcAddr);
    var pair, index := FromChoice(src, dst, sel, start, full, at);
    ByteOfChoice(src, dst, sel, start, pair, index, full, at, b);
    assert WantedAt(src, dst, sel, pair, index, b, x, y);
  }

  /** ...and a byte of a selected element is a byte of an emitted copy. */
  lemma WantedIsEmitted(src: AnnotatedLayout, dst: AnnotatedLayout, sel: Selection, start: nat,
                        pair: nat, index: KvDim -> nat, b: nat, x: nat, y: nat)
    requires Planned(src, dst, sel, start) && WantedAt(src, dst, sel, pair, index, b, x, y)
    ensures Moves(Emitted(src, dst, sel, start), x, y)
  {
    var choice, at := ToChoice(src, dst, sel, start, pair, index);
    ByteOfChoice(src, dst, sel, start, pair, index, choice, at, b);
    InnerToOffset(src, start, at, b);
    EmitComplete(src, dst, sel, OuterAxes(src, sel, start), InnerBytes(src, start), [], choice);
    assert MovesBy(OpAt(src, dst, sel, OuterAxes(src, sel, start), InnerBytes(src, start), choice), x, y);
  }

  /** The emitted copies move the selected bytes, all of them and nothing else. */
  lemma EmittedBytes(src: AnnotatedLayout, dst: AnnotatedLayout, sel: Selection, start: nat, x: nat, y: nat)
    requires Planned(src, dst, sel, start)
    ensures Moves(Emitted(src, dst, sel, start), x, y) <==> Wanted(src, dst, sel, x, y)
  {
    if Moves(Emitted(src, dst, sel, start), x, y) {
      var op :| op in Emitted(src, dst, sel, start) && MovesBy(op, x, y);
      EmittedIsWanted(src, dst, sel, start, op, x, y);
    }
    if Wanted(src, dst, sel, x, y) {
      var pair: nat, index, b: nat :| WantedAt(src, dst, sel, pair, index, b, x, y);
      WantedIsEmitted(src, dst, sel, start, pair, index, b, x, y);
    }
  }
}
