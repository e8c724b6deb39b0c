/** Walking the outer axes: the copies that are emitted, and the bytes they move. */
module CopyEmit {
  import opened Outcome
  import opened Tensor
  import opened CopyPlan

  // ---- Choices of outer coordinates ----

  type Axes = seq<(KvDim, OuterRange)>

  function LenAt(sel: Selection, axis: (KvDim, OuterRange)): nat {
    if axis.0 == Block then |sel.blockPairs| else axis.1.len
  }

  function SrcValue(sel: Selection, axis: (KvDim, OuterRange), i: nat): nat
    requires i < LenAt(sel, axis)
  {
    if axis.0 == Block then sel.blockPairs[i].0 else axis.1.srcStart + i
  }

  function DstValue(sel: Selection, axis: (KvDim, OuterRange), i: nat): nat
    requires i < LenAt(sel, axis)
  {
    if axis.0 == Block then sel.blockPairs[i].1 else axis.1.dstStart + i
  }

  /** One index for each of the first axes. */
  ghost predicate Choice(sel: Selection, outer: Axes, choice: seq<nat>) {
    |choice| <= |outer| && forall k | 0 <= k < |choice| :: choice[k] < LenAt(sel, outer[k])
  }

  ghost function SrcCoord(sel: Selection, outer: Axes, choice: seq<nat>): Coord
    requires Choice(sel, outer, choice)
  {
    if choice == [] then map[]
    else
      var n := |choice| - 1;
      SrcCoord(sel, outer, choice[..n])[outer[n].0 := SrcValue(sel, outer[n], choice[n])]
  }

  ghost function DstCoord(sel: Selection, outer: Axes, choice: seq<nat>): Coord
    requires Choice(sel, outer, choice)
  {
    if choice == [] then map[]
    else
      var n := |choice| - 1;
      DstCoord(sel, outer, choice[..n])[outer[n].0 := DstValue(sel, outer[n], choice[n])]
  }

  ghost predicate DistinctAxes(outer: Axes) {
    forall i, j | 0 <= i < j < |outer| :: outer[i].0 != outer[j].0
  }

  lemma {:induction false} CoordAt(sel: Selection, outer: Axes, choice: seq<nat>, k: nat)
    requires Choice(sel, outer, choice) && DistinctAxes(outer) && k < |choice|
    ensures outer[k].0 in SrcCoord(sel, outer, choice) && outer[k].0 in DstCoord(sel, outer, choice)
    ensures SrcCoord(sel, outer, choice)[outer[k].0] == SrcValue(sel, outer[k], choice[k])
    ensures DstCoord(sel, outer, choice)[outer[k].0] == DstValue(sel, outer[k], choice[k])
  {
    var n := |choice| - 1;
    if k < n {
      CoordAt(sel, outer, choice[..n], k);
    }
  }

  lemma {:induction false} CoordKeys(sel: Selection, outer: Axes, choice: seq<nat>, d: KvDim)
    requires Choice(sel, outer, choice)
    requires forall k | 0 <= k < |choice| :: outer[k].0 != d
    ensures d !in SrcCoord(sel, outer, choice) && d !in DstCoord(sel, outer, choice)
  {
    if choice != [] {
      CoordKeys(sel, outer, choice[..|choice| - 1], d);
    }
  }

  // ---- Emitting ----

  /** Every full choice has an address on both sides. */
  ghost predicate AllAddressable(src: AnnotatedLayout, dst: AnnotatedLayout, sel: Selection, outer: Axes) {
    forall full | Choice(sel, outer, full) && |full| == |outer| ::
      Addressable(src, SrcCoord(sel, outer, full)) && Addressable(dst, DstCoord(sel, outer, full))
  }

  ghost function OpAt(src: AnnotatedLayout, dst: AnnotatedLayout, sel: Selection, outer: Axes, inner: nat,
                      full: seq<nat>): CopyOp
    requires Choice(sel, outer, full)
  {
    CopyOp(Address(src, SrcCoord(sel, outer, full)), Address(dst, DstCoord(sel, outer, full)), inner)
  }

  /** The copies for every full choice that extends a given one, in order. */
  ghost function EmitFrom(src: AnnotatedLayout, dst: AnnotatedLayout, sel: Selection, outer: Axes, inner: nat,
                          choice: seq<nat>): seq<CopyOp>
    requires Choice(sel, outer, choice)
    decreases |outer| - |choice|, 1, 0
  {
    if |choice| == |outer| then [OpAt(src, dst, sel, outer, inner, choice)]
    else EmitUpTo(src, dst, sel, outer, inner, choice, LenAt(sel, outer[|choice|]))
  }

  ghost function EmitUpTo(src: AnnotatedLayout, dst: AnnotatedLayout, sel: Selection, outer: Axes, inner: nat,
                          choice: seq<nat>, n: nat): seq<CopyOp>
    requires Choice(sel, outer, choice) && |choice| < |outer| && n <= LenAt(sel, outer[|choice|])
    decreases |outer| - |choice|, 0, n
  {
    if n == 0 then []
    else EmitUpTo(src, dst, sel, outer, inner, choice, n - 1) + EmitFrom(src, dst, sel, outer, inner, choice + [n - 1])
  }

  /** The recursive walk; each side's coordinate is set axis by axis on the way down. */
  method EmitOuter(src: AnnotatedLayout, dst: AnnotatedLayout, outer: Axes, depth: nat, srcCoord: Coord,
                   dstCoord: Coord, sel: Selection, inner: nat, ghost choice: seq<nat>) returns (r: Result<seq<CopyOp>>)
    requires src.Valid() && dst.Valid() && AllAddressable(src, dst, sel, outer)
    requires Choice(sel, outer, choice) && |choice| == depth
    requires srcCoord == SrcCoord(sel, outer, choice) && dstCoord == DstCoord(sel, outer, choice)
    ensures r == Ok(EmitFrom(src, dst, sel, outer, inner, choice))
    decreases |outer| - depth
  {
    if depth == |outer| {
      var s := AddrOf(src, srcCoord);
      var d := AddrOf(dst, dstCoord);
      return Ok([CopyOp(s.value, d.value, inner)]);
    }
    var axis := outer[depth];
    var ops := [];
    for i := 0 to LenAt(sel, axis)
      invariant ops == EmitUpTo(src, dst, sel, outer, inner, choice, i)
    {
      assert (choice + [i])[..depth] == choice;
      var rest := EmitOuter(src, dst, outer, depth + 1, srcCoord[axis.0 := SrcValue(sel, axis, i)],
                            dstCoord[axis.0 := DstValue(sel, axis, i)], sel, inner, choice + [i]);
      ops := ops + rest.value;
    }
    return Ok(ops);
  }

  ghost predicate Extends(sel: Selection, outer: Axes, choice: seq<nat>, full: seq<nat>) {
    Choice(sel, outer, full) && |full| == |outer| && choice <= full
  }

  /** Every emitted copy belongs to a full choice. */
  lemma {:induction false} EmitSound(src: AnnotatedLayout, dst: AnnotatedLayout, sel: Selection, outer: Axes,
                                     inner: nat, choice: seq<nat>, op: CopyOp) returns (full: seq<nat>)
    requires Choice(sel, outer, choice) && op in EmitFrom(src, dst, sel, outer, inner, choice)
    ensures Extends(sel, outer, choice, full) && op == OpAt(src, dst, sel, outer, inner, full)
    decreases |outer| - |choice|, 1, 0
  {
    if |choice| == |outer| {
      full := choice;
    } else {
      full := EmitUpToSound(src, dst, sel, outer, inner, choice, LenAt(sel, outer[|choice|]), op);
    }
  }

  lemma {:induction false} EmitUpToSound(src: AnnotatedLayout, dst: AnnotatedLayout, sel: Selection, outer: Axes,
                                         inner: nat, choice: seq<nat>, n: nat, op: CopyOp) returns (full: seq<nat>)
    requires Choice(sel, outer, choice) && |choice| < |outer| && n <= LenAt(sel, outer[|choice|])
    requires op in EmitUpTo(src, dst, sel, outer, inner, choice, n)
    ensures Extends(sel, outer, choice, full) && op == OpAt(src, dst, sel, outer, inner, full) && full[|choice|] < n
    decreases |outer| - |choice|, 0, n
  {
    if op in EmitUpTo(src, dst, sel, outer, inner, choice, n - 1) {
      full := EmitUpToSound(src, dst, sel, outer, inner, choice, n - 1, op);
    } else {
      full := EmitSound(src, dst, sel, outer, inner, choice + [n - 1], op);
    }
  }

  /** Every full choice has its copy emitted. */
  lemma {:induction false} EmitComplete(src: AnnotatedLayout, dst: AnnotatedLayout, sel: Selection, outer: Axes,
                                        inner: nat, choice: seq<nat>, full: seq<nat>)
    requires Choice(sel, outer, choice) && Extends(sel, outer, choice, full)
    ensures OpAt(src, dst, sel, outer, inner, full) in EmitFrom(src, dst, sel, outer, inner, choice)
    decreases |outer| - |choice|, 1, 0
  {
    if |choice| == |outer| {
      assert full == choice;
    } else {
      EmitUpToComplete(src, dst, sel, outer, inner, choice, LenAt(sel, outer[|choice|]), full);
    }
  }

  lemma {:induction false} EmitUpToComplete(src: AnnotatedLayout, dst: AnnotatedLayout, sel: Selection, outer: Axes,
                                            inner: nat, choice: seq<nat>, n: nat, full: seq<nat>)
    requires Choice(sel, outer, choice) && Extends(sel, outer, choice, full)
    requires |choice| < |outer| && full[|choice|] < n <= LenAt(sel, outer[|choice|])
    ensures OpAt(src, dst, sel, outer, inner, full) in EmitUpTo(src, dst, sel, outer, inner, choice, n)
    decreases |outer| - |choice|, 0, n
  {
    if full[|choice|] < n - 1 {
      EmitUpToComplete(src, dst, sel, outer, inner, choice, n - 1, full);
    } else {
      EmitComplete(src, dst, sel, outer, inner, choice + [n - 1], full);
    }
  }

  // ---- How many copies ----

  /** How often each axis is walked. */
  function Walks(sel: Selection, outer: Axes): seq<nat> {
    seq(|outer|, k requires 0 <= k < |outer| => LenAt(sel, outer[k]))
  }

  /** One copy per full choice: the walked lengths multiplied. */
  lemma {:induction false} EmitCount(src: AnnotatedLayout, dst: AnnotatedLayout, sel: Selection, outer: Axes,
                                     inner: nat, choice: seq<nat>)
    requires Choice(sel, outer, choice)
    ensures |EmitFrom(src, dst, sel, outer, inner, choice)| == Product(Walks(sel, outer)[|choice|..])
    decreases |outer| - |choice|, 1, 0
  {
    var walks := Walks(sel, outer);
    if |choice| < |outer| {
      EmitUpToCount(src, dst, sel, outer, inner, choice, LenAt(sel, outer[|choice|]));
      assert walks[|choice|..][1..] == walks[|choice| + 1..];
    } else {
      assert walks[|choice|..] == [];
    }
  }

  lemma {:induction false} EmitUpToCount(src: AnnotatedLayout, dst: AnnotatedLayout, sel: Selection, outer: Axes,
                                         inner: nat, choice: seq<nat>, n: nat)
    requires Choice(sel, outer, choice) && |choice| < |outer| && n <= LenAt(sel, outer[|choice|])
    ensures |EmitUpTo(src, dst, sel, outer, inner, choice, n)| == n * Product(Walks(sel, outer)[|choice| + 1..])
    decreases |outer| - |choice|, 0, n
  {
    if n > 0 {
      EmitUpToCount(src, dst, sel, outer, inner, choice, n - 1);
      EmitCount(src, dst, sel, outer, inner, choice + [n - 1]);
      MulSucc(n - 1, Product(Walks(sel, outer)[|choice| + 1..]));
    }
  }

  lemma MulSucc(n: nat, p: nat)
    ensures (n + 1) * p == n * p + p
  {
  }
}
