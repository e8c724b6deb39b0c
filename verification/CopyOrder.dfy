/** Which source decides a byte that several copies write: without merging the last pair that
    names its block, with merging the one whose source address is highest. */
module CopyOrder {
  import opened Outcome
  import opened Tensor
  import opened Strides
  import opened CopyPlan
  import opened CopyEmit
  import opened CopyBytes
  import opened CopyMerge
  import opened CopyApart
  import opened CopyPlanner
  import opened CopyResult

  // ---- Lists of copies ----

  predicate Covers(op: CopyOp, y: nat) {
    op.dstAddr <= y < op.dstAddr + op.size
  }

  /** The source byte a copy brings to `y`. */
  function SourceOf(op: CopyOp, y: nat): nat
    requires Covers(op, y)
  {
    op.srcAddr + (y - op.dstAddr)
  }

  lemma {:induction false} PerformAppend<T>(a: seq<CopyOp>, b: seq<CopyOp>, from: nat -> T, to: nat -> T)
    ensures Perform(a + b, from, to) == Perform(b, from, Perform(a, from, to))
  {
    if b == [] {
      assert a + b == a;
    } else {
      var n := |b| - 1;
      PerformAppend(a, b[..n], from, to);
      assert (a + b)[..|a + b| - 1] == a + b[..n];
    }
  }

  ghost predicate NoneCovers(ops: seq<CopyOp>, y: nat) {
    forall i | 0 <= i < |ops| :: !Covers(ops[i], y)
  }

  lemma {:induction false} NoneCoversKeeps<T>(ops: seq<CopyOp>, from: nat -> T, to: nat -> T, y: nat)
    requires NoneCovers(ops, y)
    ensures Perform(ops, from, to)(y) == to(y)
  {
    if ops != [] {
      NoneCoversKeeps(ops[..|ops| - 1], from, to, y);
    }
  }

  /** The last copy of the list that covers the byte decides it. */
  lemma {:induction false} LastDecides<T>(ops: seq<CopyOp>, from: nat -> T, to: nat -> T, y: nat) returns (i: nat)
    requires !NoneCovers(ops, y)
    ensures i < |ops| && Covers(ops[i], y) && (forall j | i < j < |ops| :: !Covers(ops[j], y))
    ensures Perform(ops, from, to)(y) == from(SourceOf(ops[i], y))
  {
    var n := |ops| - 1;
    if Covers(ops[n], y) {
      i := n;
    } else {
      i := LastDecides(ops[..n], from, to, y);
    }
  }

  lemma PushPerforms<T>(out: seq<CopyOp>, op: CopyOp, from: nat -> T, to: nat -> T, y: nat)
    ensures Perform(Push(out, op), from, to)(y) == Apply(op, from, Perform(out, from, to))(y)
  {
    if out != [] && Adjoin(out[|out| - 1], op) {
      var n := |out| - 1;
      assert Push(out, op)[..n] == out[..n];
    } else {
      assert (out + [op])[..|out|] == out;
    }
  }

  /** Joining neighbours changes nothing in memory. */
  lemma {:induction false} MergePerforms<T>(ops: seq<CopyOp>, from: nat -> T, to: nat -> T, y: nat)
    ensures Perform(MergeAll(ops), from, to)(y) == Perform(ops, from, to)(y)
  {
    if ops != [] {
      var n := |ops| - 1;
      MergePerforms(ops[..n], from, to, y);
      PushPerforms(MergeAll(ops[..n]), ops[n], from, to, y);
    }
  }

  /** Every other copy that covers the byte comes from a lower source address. */
  ghost predicate Highest(ops: seq<CopyOp>, op: CopyOp, y: nat) {
    op in ops && Covers(op, y) && forall o <- ops :: Covers(o, y) ==> o.srcAddr < op.srcAddr || o == op
  }

  lemma SortedMembers(ops: seq<CopyOp>, op: CopyOp)
    ensures op in SortBySource(ops) <==> op in ops
  {
    SortPermutes(ops);
    assert op in multiset(SortBySource(ops)) <==> op in multiset(ops);
  }

  /** In the merged list it is the highest one that decides. */
  lemma HighestDecides<T>(ops: seq<CopyOp>, op: CopyOp, from: nat -> T, to: nat -> T, y: nat)
    requires Highest(ops, op, y)
    ensures Perform(Coalesced(ops), from, to)(y) == from(SourceOf(op, y))
  {
    var sorted := SortBySource(ops);
    SortedMembers(ops, op);
    SortSorts(ops);
    MergePerforms(sorted, from, to, y);
    var k :| 0 <= k < |sorted| && sorted[k] == op;
    var i := LastDecides(sorted, from, to, y);
    SortedMembers(ops, sorted[i]);
    assert k <= i;
    assert k < i ==> sorted[k].srcAddr <= sorted[i].srcAddr;
  }

  // ---- The order of the emitted copies ----

  /** From position `k` on, the one choice does not come after the other. */
  predicate LexLe(a: seq<nat>, b: seq<nat>, k: nat)
    requires k <= |a| == |b|
    decreases |a| - k
  {
    k == |a| || a[k] < b[k] || (a[k] == b[k] && LexLe(a, b, k + 1))
  }

  /** Of the choices whose copies cover the byte, `full` is the last. */
  ghost predicate LastChoice(src: AnnotatedLayout, dst: AnnotatedLayout, sel: Selection, outer: Axes, inner: nat,
                             choice: seq<nat>, full: seq<nat>, y: nat) {
    && Extends(sel, outer, choice, full) && Covers(OpAt(src, dst, sel, outer, inner, full), y)
    && forall other | Extends(sel, outer, choice, other) && Covers(OpAt(src, dst, sel, outer, inner, other), y) ::
      LexLe(other, full, |choice|)
  }

  lemma {:induction false} EmitDecides<T>(src: AnnotatedLayout, dst: AnnotatedLayout, sel: Selection, outer: Axes,
                                          inner: nat, choice: seq<nat>, full: seq<nat>, from: nat -> T, to: nat -> T,
                                          y: nat)
    requires Choice(sel, outer, choice) && LastChoice(src, dst, sel, outer, inner, choice, full, y)
    ensures Perform(EmitFrom(src, dst, sel, outer, inner, choice), from, to)(y)
            == from(SourceOf(OpAt(src, dst, sel, outer, inner, full), y))
    decreases |outer| - |choice|, 1, 0
  {
    if |choice| == |outer| {
      assert full == choice;
    } else {
      EmitUpToDecides(src, dst, sel, outer, inner, choice, LenAt(sel, outer[|choice|]), full, from, to, y);
    }
  }

  lemma LaterCoverNone(src: AnnotatedLayout, dst: AnnotatedLayout, sel: Selection, outer: Axes, inner: nat,
                       choice: seq<nat>, n: nat, full: seq<nat>, y: nat)
    requires Choice(sel, outer, choice) && LastChoice(src, dst, sel, outer, inner, choice, full, y)
    requires |choice| < |outer| && full[|choice|] < n < LenAt(sel, outer[|choice|])
    ensures NoneCovers(EmitFrom(src, dst, sel, outer, inner, choice + [n]), y)
  {
    var ops := EmitFrom(src, dst, sel, outer, inner, choice + [n]);
    forall i | 0 <= i < |ops| ensures !Covers(ops[i], y) {
      var other := EmitSound(src, dst, sel, outer, inner, choice + [n], ops[i]);
      assert other[|choice|] == (choice + [n])[|choice|];
      assert !LexLe(other, full, |choice|);
      assert Extends(sel, outer, choice, other);
    }
  }

  lemma LastInBranch(src: AnnotatedLayout, dst: AnnotatedLayout, sel: Selection, outer: Axes, inner: nat,
                     choice: seq<nat>, full: seq<nat>, y: nat)
    requires Choice(sel, outer, choice) && LastChoice(src, dst, sel, outer, inner, choice, full, y)
    requires |choice| < |outer|
    ensures Choice(sel, outer, choice + [full[|choice|]])
    ensures LastChoice(src, dst, sel, outer, inner, choice + [full[|choice|]], full, y)
  {
    var next := choice + [full[|choice|]];
    forall other | Extends(sel, outer, next, other) && Covers(OpAt(src, dst, sel, outer, inner, other), y)
      ensures LexLe(other, full, |next|)
    {
      assert other[|choice|] == next[|choice|];
      assert Extends(sel, outer, choice, other);
      assert LexLe(other, full, |choice|);
    }
  }

  lemma {:induction false} EmitUpToDecides<T>(src: AnnotatedLayout, dst: AnnotatedLayout, sel: Selection, outer: Axes,
                                              inner: nat, choice: seq<nat>, n: nat, full: seq<nat>, from: nat -> T,
                                              to: nat -> T, y: nat)
    requires Choice(sel, outer, choice) && LastChoice(src, dst, sel, outer, inner, choice, full, y)
    requires |choice| < |outer| && full[|choice|] < n <= LenAt(sel, outer[|choice|])
    ensures Perform(EmitUpTo(src, dst, sel, outer, inner, choice, n), from, to)(y)
            == from(SourceOf(OpAt(src, dst, sel, outer, inner, full), y))
    decreases |outer| - |choice|, 0, n
  {
    var before := EmitUpTo(src, dst, sel, outer, inner, choice, n - 1);
    var next := EmitFrom(src, dst, sel, outer, inner, choice + [n - 1]);
    PerformAppend(before, next, from, to);
    if full[|choice|] == n - 1 {
      LastInBranch(src, dst, sel, outer, inner, choice, full, y);
      EmitDecides(src, dst, sel, outer, inner, choice + [n - 1], full, from, Perform(before, from, to), y);
    } else {
      LaterCoverNone(src, dst, sel, outer, inner, choice, n - 1, full, y);
      NoneCoversKeeps(next, from, Perform(before, from, to), y);
      EmitUpToDecides(src, dst, sel, outer, inner, choice, n - 1, full, from, to, y);
    }
  }

  // ---- Elements and choices ----

  ghost function EmittedOp(src: AnnotatedLayout, dst: AnnotatedLayout, sel: Selection, start: nat,
                           full: seq<nat>): CopyOp
    requires start <= |src.dims| == |src.sizes| && Choice(sel, OuterAxes(src, sel, start), full)
  {
    OpAt(src, dst, sel, OuterAxes(src, sel, start), InnerBytes(src, start), full)
  }

  /** A destination byte of a copy is a byte of an element chosen with it. */
  lemma ElementOfTarget(src: AnnotatedLayout, dst: AnnotatedLayout, sel: Selection, start: nat, full: seq<nat>, y: nat)
    returns (pair: nat, index: KvDim -> nat, at: seq<nat>, b: nat)
    requires Planned(src, dst, sel, start) && |full| == start && Choice(sel, OuterAxes(src, sel, start), full)
    requires Covers(EmittedOp(src, dst, sel, start, full), y)
    ensures Matches(src, start, pair, index, full, at)
    ensures WantedAt(src, dst, sel, pair, index, b, SourceOf(EmittedOp(src, dst, sel, start, full), y), y)
  {
    var op := EmittedOp(src, dst, sel, start, full);
    at, b := OffsetToInner(src, start, y - op.dstAddr);
    pair, index := FromChoice(src, dst, sel, start, full, at);
    ByteOfChoice(src, dst, sel, start, pair, index, full, at, b);
  }

  lemma TargetCovered(src: AnnotatedLayout, dst: AnnotatedLayout, sel: Selection, start: nat, pair: nat,
                      index: KvDim -> nat, b: nat, x: nat, y: nat) returns (full: seq<nat>, at: seq<nat>)
    requires Planned(src, dst, sel, start) && WantedAt(src, dst, sel, pair, index, b, x, y)
    ensures Matches(src, start, pair, index, full, at) && Choice(sel, OuterAxes(src, sel, start), full)
    ensures Covers(EmittedOp(src, dst, sel, start, full), y) && SourceOf(EmittedOp(src, dst, sel, start, full), y) == x
  {
    full, at := ToChoice(src, dst, sel, start, pair, index);
    ByteOfChoice(src, dst, sel, start, pair, index, full, at, b);
    InnerToOffset(src, start, at, b);
  }

  /** Two selected elements that share a destination byte are the same element of one block. */
  lemma OneTarget(src: AnnotatedLayout, dst: AnnotatedLayout, sel: Selection, pair: nat, index: KvDim -> nat,
                  pair': nat, index': KvDim -> nat)
    requires Compatible(src, dst, sel) && BytesApart(dst)
    requires Selected(src, sel, pair, index) && Selected(src, sel, pair', index')
    requires Overlap(dst, DstAt(src, sel, pair, index), DstAt(src, sel, pair', index'))
    ensures sel.blockPairs[pair].1 == sel.blockPairs[pair'].1
    ensures forall d <- src.dims :: d != Block ==> index(d) == index'(d)
  {
    SelectedSame(src, dst, sel, pair, index, pair', index');
    LabelsShared(src, dst, sel);
    SameIndex(src, dst, sel, pair, index, pair', index');
  }

  lemma SameIndex(src: AnnotatedLayout, dst: AnnotatedLayout, sel: Selection, pair: nat, index: KvDim -> nat,
                  pair': nat, index': KvDim -> nat)
    requires pair < |sel.blockPairs| && pair' < |sel.blockPairs| && Block in src.dims
    requires (forall d <- src.dims :: d in dst.dims)
    requires SameAt(dst, DstAt(src, sel, pair, index), DstAt(src, sel, pair', index'))
    ensures sel.blockPairs[pair].1 == sel.blockPairs[pair'].1
    ensures forall d <- src.dims :: d != Block ==> index(d) == index'(d)
  {
    var c, c' := DstAt(src, sel, pair, index), DstAt(src, sel, pair', index');
    forall d | d in src.dims ensures c[d] == c'[d] {
      var k :| 0 <= k < |dst.dims| && dst.dims[k] == d;
      assert Get(c, dst.dims[k]) == Get(c', dst.dims[k]);
    }
    assert c[Block] == c'[Block];
  }

  // ---- Unmerged: the last pair ----

  /** No later pair names the same destination block. */
  ghost predicate LastFor(pairs: seq<(nat, nat)>, pair: nat) {
    pair < |pairs| && forall q | pair < q < |pairs| :: pairs[q].1 != pairs[pair].1
  }

  lemma {:induction false} LexBelow(a: seq<nat>, b: seq<nat>, kb: nat, k: nat)
    requires k <= |a| == |b| && kb < |a| && a[kb] <= b[kb]
    requires forall i | 0 <= i < |a| && i != kb :: a[i] == b[i]
    ensures LexLe(a, b, k)
    decreases |a| - k
  {
    if k < |a| {
      LexBelow(a, b, kb, k + 1);
    }
  }

  lemma ChoiceBelow(src: AnnotatedLayout, start: nat, pair: nat, index: KvDim -> nat, full: seq<nat>, at: seq<nat>,
                    pair': nat, index': KvDim -> nat, full': seq<nat>, at': seq<nat>, kb: nat)
    requires Distinct(src.dims) && kb < start <= |src.dims| && src.dims[kb] == Block && pair' <= pair
    requires Matches(src, start, pair, index, full, at) && Matches(src, start, pair', index', full', at')
    requires forall d <- src.dims :: d != Block ==> index(d) == index'(d)
    ensures LexLe(full', full, 0)
  {
    forall i | 0 <= i < start && i != kb ensures full'[i] == full[i] {
      assert src.dims[i] != src.dims[kb];
      assert src.dims[i] in src.dims;
    }
    LexBelow(full', full, kb, 0);
  }

  lemma LastPairLast(src: AnnotatedLayout, dst: AnnotatedLayout, sel: Selection, start: nat, pair: nat,
                     index: KvDim -> nat, b: nat, x: nat, y: nat, full: seq<nat>, at: seq<nat>, other: seq<nat>)
    requires Planned(src, dst, sel, start) && BytesApart(dst) && LastFor(sel.blockPairs, pair)
    requires WantedAt(src, dst, sel, pair, index, b, x, y) && Matches(src, start, pair, index, full, at)
    requires |other| == start && Choice(sel, OuterAxes(src, sel, start), other)
    requires Covers(EmittedOp(src, dst, sel, start, other), y)
    ensures LexLe(other, full, 0)
  {
    var pair', index', at', b' := ElementOfTarget(src, dst, sel, start, other, y);
    OneTarget(src, dst, sel, pair, index, pair', index');
    OuterLabels(src, dst, sel, start);
    var kb :| 0 <= kb < |src.dims| && src.dims[kb] == Block;
    ChoiceBelow(src, start, pair, index, full, at, pair', index', other, at', kb);
  }

  lemma LastPairEmitted<T>(src: AnnotatedLayout, dst: AnnotatedLayout, sel: Selection, start: nat, pair: nat,
                           index: KvDim -> nat, b: nat, x: nat, y: nat, from: nat -> T, to: nat -> T)
    requires Planned(src, dst, sel, start) && BytesApart(dst) && LastFor(sel.blockPairs, pair)
    requires WantedAt(src, dst, sel, pair, index, b, x, y)
    ensures Perform(Emitted(src, dst, sel, start), from, to)(y) == from(x)
  {
    var full, at := TargetCovered(src, dst, sel, start, pair, index, b, x, y);
    var outer, inner := OuterAxes(src, sel, start), InnerBytes(src, start);
    forall other | Extends(sel, outer, [], other) && Covers(OpAt(src, dst, sel, outer, inner, other), y)
      ensures LexLe(other, full, 0)
    {
      LastPairLast(src, dst, sel, start, pair, index, b, x, y, full, at, other);
    }
    EmitDecides(src, dst, sel, outer, inner, [], full, from, to, y);
  }

  // ---- Merged: the highest source ----

  /** Of the pairs that name the same destination block, none has the element at a higher source
      address. */
  ghost predicate HighestFor(src: AnnotatedLayout, sel: Selection, pair: nat, index: KvDim -> nat) {
    && pair < |sel.blockPairs|
    && forall q: nat | q < |sel.blockPairs| && sel.blockPairs[q].1 == sel.blockPairs[pair].1 ::
      Address(src, SrcAt(src, sel, q, index)) <= Address(src, SrcAt(src, sel, pair, index))
  }

  lemma SameInner(src: AnnotatedLayout, start: nat, pair: nat, index: KvDim -> nat, full: seq<nat>, at: seq<nat>,
                  pair': nat, index': KvDim -> nat, full': seq<nat>, at': seq<nat>)
    requires Matches(src, start, pair, index, full, at) && Matches(src, start, pair', index', full', at')
    requires forall k | start <= k < |src.dims| :: src.dims[k] != Block
    requires forall d <- src.dims :: d != Block ==> index(d) == index'(d)
    ensures at == at'
  {
    forall i | 0 <= i < |at| ensures at[i] == at'[i] {
      var k := start + i;
      assert at[k - start] == index(src.dims[k]) && at'[k - start] == index'(src.dims[k]);
    }
  }

  lemma SameInnerPlace(src: AnnotatedLayout, dst: AnnotatedLayout, sel: Selection, start: nat,
                       pair: nat, index: KvDim -> nat, full: seq<nat>, at: seq<nat>,
                       pair': nat, index': KvDim -> nat, full': seq<nat>, at': seq<nat>)
    requires Planned(src, dst, sel, start)
    requires Matches(src, start, pair, index, full, at) && Matches(src, start, pair', index', full', at')
    requires forall d <- src.dims :: d != Block ==> index(d) == index'(d)
    ensures at == at'
  {
    OuterLabels(src, dst, sel, start);
    SameInner(src, start, pair, index, full, at, pair', index', full', at');
  }

  lemma SameTargets(src: AnnotatedLayout, sel: Selection, pair: nat, index: KvDim -> nat, pair': nat,
                    index': KvDim -> nat)
    requires pair < |sel.blockPairs| && pair' < |sel.blockPairs|
    requires sel.blockPairs[pair].1 == sel.blockPairs[pair'].1
    requires forall d <- src.dims :: d != Block ==> index(d) == index'(d)
    ensures DstAt(src, sel, pair, index) == DstAt(src, sel, pair', index')
    ensures SrcAt(src, sel, pair', index) == SrcAt(src, sel, pair', index')
  {
  }

  ghost function InnerOffset(a: AnnotatedLayout, start: nat, at: seq<nat>): int
    requires start <= |a.sizes| && |at| == |a.sizes| - start
  {
    a.elemSize * Rank(a.sizes[start..], at)
  }

  /** The copy of a choice starts at the first of its elements on both sides. */
  lemma OpOfElement(src: AnnotatedLayout, dst: AnnotatedLayout, sel: Selection, start: nat, pair: nat,
                    index: KvDim -> nat, full: seq<nat>, at: seq<nat>)
    requires Planned(src, dst, sel, start) && Selected(src, sel, pair, index)
    requires Matches(src, start, pair, index, full, at) && Choice(sel, OuterAxes(src, sel, start), full)
    ensures var op := EmittedOp(src, dst, sel, start, full);
            && Address(src, SrcAt(src, sel, pair, index)) == op.srcAddr + InnerOffset(src, start, at)
            && Address(dst, DstAt(src, sel, pair, index)) == op.dstAddr + InnerOffset(src, start, at)
            && op.size == InnerBytes(src, start)
  {
    ByteOfChoice(src, dst, sel, start, pair, index, full, at, 0);
  }

  lemma HighestPairHighest(src: AnnotatedLayout, dst: AnnotatedLayout, sel: Selection, start: nat, pair: nat,
                           index: KvDim -> nat, b: nat, x: nat, y: nat, full: seq<nat>, at: seq<nat>, other: seq<nat>)
    requires Planned(src, dst, sel, start) && BytesApart(dst) && HighestFor(src, sel, pair, index)
    requires WantedAt(src, dst, sel, pair, index, b, x, y) && Matches(src, start, pair, index, full, at)
    requires Choice(sel, OuterAxes(src, sel, start), full)
    requires |other| == start && Choice(sel, OuterAxes(src, sel, start), other)
    requires Covers(EmittedOp(src, dst, sel, start, other), y)
    ensures var o, op := EmittedOp(src, dst, sel, start, other), EmittedOp(src, dst, sel, start, full);
            o.srcAddr < op.srcAddr || o == op
  {
    var pair', index', at', b' := ElementOfTarget(src, dst, sel, start, other, y);
    OneTarget(src, dst, sel, pair, index, pair', index');
    SameInnerPlace(src, dst, sel, start, pair, index, full, at, pair', index', other, at');
    SameTargets(src, sel, pair, index, pair', index');
    OpOfElement(src, dst, sel, start, pair, index, full, at);
    OpOfElement(src, dst, sel, start, pair', index', other, at');
  }

  lemma HighestPairEmitted<T>(src: AnnotatedLayout, dst: AnnotatedLayout, sel: Selection, start: nat, pair: nat,
                              index: KvDim -> nat, b: nat, x: nat, y: nat, from: nat -> T, to: nat -> T)
    requires Planned(src, dst, sel, start) && BytesApart(dst) && HighestFor(src, sel, pair, index)
    requires WantedAt(src, dst, sel, pair, index, b, x, y)
    ensures Perform(Coalesced(Emitted(src, dst, sel, start)), from, to)(y) == from(x)
  {
    var full, at := TargetCovered(src, dst, sel, start, pair, index, b, x, y);
    var outer, inner, op := OuterAxes(src, sel, start), InnerBytes(src, start), EmittedOp(src, dst, sel, start, full);
    EmitComplete(src, dst, sel, outer, inner, [], full);
    forall o | o in Emitted(src, dst, sel, start) && Covers(o, y) ensures o.srcAddr < op.srcAddr || o == op {
      var other := EmitSound(src, dst, sel, outer, inner, [], o);
      HighestPairHighest(src, dst, sel, start, pair, index, b, x, y, full, at, other);
    }
    HighestDecides(Emitted(src, dst, sel, start), op, from, to, y);
  }

  // ---- Plans ----

  lemma PlannedAreEmitted(src: AnnotatedLayout, dst: AnnotatedLayout, sel: Selection)
    requires Compatible(src, dst, sel) && InnermostFolds(src, dst, sel)
    ensures var start := FoldStart(src, dst, sel, |src.dims|);
            Planned(src, dst, sel, start) && PlannedCopies(src, dst, sel) == Emitted(src, dst, sel, start)
  {
    CopyBytesPositive(src, dst, sel);
  }

  /** Without merging, the last pair that names a destination block decides its bytes. */
  lemma LastPairDecides<T>(src: AnnotatedLayout, dst: AnnotatedLayout, sel: Selection, policy: Policy, pair: nat,
                           index: KvDim -> nat, b: nat, x: nat, y: nat, from: nat -> T, to: nat -> T)
    requires Compatible(src, dst, sel) && InnermostFolds(src, dst, sel) && BytesApart(dst)
    requires !policy.coalesce || CopyBytesOf(src, dst, sel) < policy.minInnerBytes
    requires WantedAt(src, dst, sel, pair, index, b, x, y) && LastFor(sel.blockPairs, pair)
    ensures Perform(PlanOf(src, dst, sel, policy).ops, from, to)(y) == from(x)
  {
    CopyBytesPositive(src, dst, sel);
    PlannedAreEmitted(src, dst, sel);
    LastPairEmitted(src, dst, sel, FoldStart(src, dst, sel, |src.dims|), pair, index, b, x, y, from, to);
  }

  /** With merging, of the pairs that name it the one whose source lies highest does. */
  lemma HighestPairDecides<T>(src: AnnotatedLayout, dst: AnnotatedLayout, sel: Selection, policy: Policy, pair: nat,
                              index: KvDim -> nat, b: nat, x: nat, y: nat, from: nat -> T, to: nat -> T)
    requires Compatible(src, dst, sel) && InnermostFolds(src, dst, sel) && BytesApart(dst)
    requires policy.coalesce && CopyBytesOf(src, dst, sel) >= policy.minInnerBytes
    requires WantedAt(src, dst, sel, pair, index, b, x, y) && HighestFor(src, sel, pair, index)
    ensures Perform(PlanOf(src, dst, sel, policy).ops, from, to)(y) == from(x)
  {
    PlannedAreEmitted(src, dst, sel);
    HighestPairEmitted(src, dst, sel, FoldStart(src, dst, sel, |src.dims|), pair, index, b, x, y, from, to);
  }

  // ---- When merging changes nothing ----

  /** Whatever the memories hold, both lists leave the same. */
  ghost predicate SameResult(a: seq<CopyOp>, b: seq<CopyOp>) {
    forall from: nat -> nat, to: nat -> nat, y: nat :: Perform(a, from, to)(y) == Perform(b, from, to)(y)
  }

  /** For every element, the last pair that names a destination block is also the highest. */
  ghost predicate LastIsHighest(src: AnnotatedLayout, sel: Selection) {
    forall pair: nat, index: KvDim -> nat | Selected(src, sel, pair, index) && LastFor(sel.blockPairs, pair) ::
      HighestFor(src, sel, pair, index)
  }

  lemma {:induction false} FindLast(pairs: seq<(nat, nat)>, pair: nat) returns (last: nat)
    requires pair < |pairs|
    ensures LastFor(pairs, last) && pairs[last].1 == pairs[pair].1
    decreases |pairs| - pair
  {
    if q :| pair < q < |pairs| && pairs[q].1 == pairs[pair].1 {
      last := FindLast(pairs, q);
    } else {
      last := pair;
    }
  }

  /** Of the numbered pairs for one destination block, one with the largest value. */
  lemma FindLargest(pairs: seq<(nat, nat)>, pair: nat, values: seq<nat>) returns (high: nat)
    requires pair < |pairs| == |values|
    ensures high < |pairs| && pairs[high].1 == pairs[pair].1
    ensures forall q | 0 <= q < |pairs| && pairs[q].1 == pairs[pair].1 :: values[q] <= values[high]
  {
    high := pair;
    for i := 0 to |pairs|
      invariant high < |pairs| && pairs[high].1 == pairs[pair].1
      invariant forall q | 0 <= q < i && pairs[q].1 == pairs[pair].1 :: values[q] <= values[high]
    {
      if pairs[i].1 == pairs[pair].1 && values[i] > values[high] {
        high := i;
      }
    }
  }

  lemma FindHighest(src: AnnotatedLayout, sel: Selection, pair: nat, index: KvDim -> nat) returns (high: nat)
    requires pair < |sel.blockPairs|
    ensures HighestFor(src, sel, high, index) && sel.blockPairs[high].1 == sel.blockPairs[pair].1
  {
    var n := |sel.blockPairs|;
    var values := seq(n, q requires 0 <= q < n => Address(src, SrcAt(src, sel, q, index)));
    high := FindLargest(sel.blockPairs, pair, values);
    forall q: nat | q < n && sel.blockPairs[q].1 == sel.blockPairs[high].1
      ensures Address(src, SrcAt(src, sel, q, index)) <= Address(src, SrcAt(src, sel, high, index))
    {
      assert values[q] <= values[high];
    }
  }

  /** Another pair for the same destination block wants the same bytes there. */
  lemma WantedToo(src: AnnotatedLayout, dst: AnnotatedLayout, sel: Selection, pair: nat, index: KvDim -> nat, b: nat,
                  x: nat, y: nat, pair': nat)
    requires WantedAt(src, dst, sel, pair, index, b, x, y)
    requires pair' < |sel.blockPairs| && sel.blockPairs[pair'].1 == sel.blockPairs[pair].1
    ensures WantedAt(src, dst, sel, pair', index, b, Address(src, SrcAt(src, sel, pair', index)) + b, y)
  {
    assert DstAt(src, sel, pair', index) == DstAt(src, sel, pair, index);
  }

  lemma SameByte(src: AnnotatedLayout, dst: AnnotatedLayout, sel: Selection, min: nat, pair: nat, index: KvDim -> nat,
                 b: nat, x: nat, y: nat, from: nat -> nat, to: nat -> nat)
    requires Compatible(src, dst, sel) && InnermostFolds(src, dst, sel) && BytesApart(dst)
    requires CopyBytesOf(src, dst, sel) >= min && LastIsHighest(src, sel)
    requires WantedAt(src, dst, sel, pair, index, b, x, y)
    ensures Perform(PlanOf(src, dst, sel, Policy(min, true)).ops, from, to)(y)
            == Perform(PlanOf(src, dst, sel, Policy(min, false)).ops, from, to)(y)
  {
    var last := FindLast(sel.blockPairs, pair);
    WantedToo(src, dst, sel, pair, index, b, x, y, last);
    var x' := Address(src, SrcAt(src, sel, last, index)) + b;
    LastPairDecides(src, dst, sel, Policy(min, false), last, index, b, x', y, from, to);
    HighestPairDecides(src, dst, sel, Policy(min, true), last, index, b, x', y, from, to);
  }

  lemma UnwantedByte(src: AnnotatedLayout, dst: AnnotatedLayout, sel: Selection, policy: Policy, from: nat -> nat,
                     to: nat -> nat, y: nat)
    requires Compatible(src, dst, sel) && forall x: nat :: !Wanted(src, dst, sel, x, y)
    ensures Perform(PlanOf(src, dst, sel, policy).ops, from, to)(y) == to(y)
  {
    PlanMoves(src, dst, sel, policy);
    PerformedByte(PlanOf(src, dst, sel, policy).ops, from, to, y);
  }

  lemma MergingDiffers(src: AnnotatedLayout, dst: AnnotatedLayout, sel: Selection, min: nat, pair: nat,
                       index: KvDim -> nat)
    requires Compatible(src, dst, sel) && InnermostFolds(src, dst, sel) && BytesApart(dst)
    requires CopyBytesOf(src, dst, sel) >= min
    requires Selected(src, sel, pair, index) && LastFor(sel.blockPairs, pair) && !HighestFor(src, sel, pair, index)
    ensures !SameResult(PlanOf(src, dst, sel, Policy(min, true)).ops, PlanOf(src, dst, sel, Policy(min, false)).ops)
  {
    var x, y := Address(src, SrcAt(src, sel, pair, index)), Address(dst, DstAt(src, sel, pair, index));
    assert WantedAt(src, dst, sel, pair, index, 0, x, y);
    var high := FindHighest(src, sel, pair, index);
    WantedToo(src, dst, sel, pair, index, 0, x, y, high);
    var x' := Address(src, SrcAt(src, sel, high, index));
    LastPairDecides(src, dst, sel, Policy(min, false), pair, index, 0, x, y, ADDRESSES, ADDRESSES);
    HighestPairDecides(src, dst, sel, Policy(min, true), high, index, 0, x', y, ADDRESSES, ADDRESSES);
    assert Perform(PlanOf(src, dst, sel, Policy(min, true)).ops, ADDRESSES, ADDRESSES)(y) == x';
    assert Perform(PlanOf(src, dst, sel, Policy(min, false)).ops, ADDRESSES, ADDRESSES)(y) == x;
  }

  lemma MergingKeepsByte(src: AnnotatedLayout, dst: AnnotatedLayout, sel: Selection, min: nat, from: nat -> nat,
                         to: nat -> nat, y: nat)
    requires Compatible(src, dst, sel) && BytesApart(dst) && CopyBytesOf(src, dst, sel) >= min
    requires !InnermostFolds(src, dst, sel) || LastIsHighest(src, sel)
    ensures Perform(PlanOf(src, dst, sel, Policy(min, true)).ops, from, to)(y)
            == Perform(PlanOf(src, dst, sel, Policy(min, false)).ops, from, to)(y)
  {
    if !InnermostFolds(src, dst, sel) {
      PlanMoves(src, dst, sel, Policy(min, true));
      PlanMoves(src, dst, sel, Policy(min, false));
      PerformedByte(PlanOf(src, dst, sel, Policy(min, true)).ops, from, to, y);
      PerformedByte(PlanOf(src, dst, sel, Policy(min, false)).ops, from, to, y);
    } else if x: nat :| Wanted(src, dst, sel, x, y) {
      var pair: nat, index, b: nat :| WantedAt(src, dst, sel, pair, index, b, x, y);
      SameByte(src, dst, sel, min, pair, index, b, x, y, from, to);
    } else {
      UnwantedByte(src, dst, sel, Policy(min, true), from, to, y);
      UnwantedByte(src, dst, sel, Policy(min, false), from, to, y);
    }
  }

  /** Merging changes nothing in memory if and only if nothing is moved or merged anyway, or for
      every element the last pair that names a destination block is also the one whose source lies
      highest. */
  lemma MergingKeepsIff(src: AnnotatedLayout, dst: AnnotatedLayout, sel: Selection, min: nat)
    requires Compatible(src, dst, sel) && BytesApart(dst)
    ensures SameResult(PlanOf(src, dst, sel, Policy(min, true)).ops, PlanOf(src, dst, sel, Policy(min, false)).ops)
            <==> !InnermostFolds(src, dst, sel) || CopyBytesOf(src, dst, sel) < min || LastIsHighest(src, sel)
  {
    var merged, plain := PlanOf(src, dst, sel, Policy(min, true)).ops, PlanOf(src, dst, sel, Policy(min, false)).ops;
    if CopyBytesOf(src, dst, sel) >= min {
      if InnermostFolds(src, dst, sel) && !LastIsHighest(src, sel) {
        var pair: nat, index :|
          Selected(src, sel, pair, index) && LastFor(sel.blockPairs, pair) && !HighestFor(src, sel, pair, index);
        MergingDiffers(src, dst, sel, min, pair, index);
      } else {
        forall from: nat -> nat, to: nat -> nat, y: nat
          ensures Perform(merged, from, to)(y) == Perform(plain, from, to)(y)
        {
          MergingKeepsByte(src, dst, sel, min, from, to, y);
        }
      }
    }
  }
}
