/** What a plan does to memory, and how few copies it makes. */
module CopyResult {
  import opened Outcome
  import opened Tensor
  import opened Strides
  import opened CopyPlan
  import opened CopyEmit
  import opened CopyBytes
  import opened CopyMerge
  import opened CopyApart
  import opened CopyPlanner

  // ---- Running a plan ----

  function Apply<T>(op: CopyOp, from: nat -> T, to: nat -> T): nat -> T {
    (y: nat) => if op.dstAddr <= y < op.dstAddr + op.size then from(op.srcAddr + (y - op.dstAddr)) else to(y)
  }

  /** The destination memory after the copies, done in order. */
  function Perform<T>(ops: seq<CopyOp>, from: nat -> T, to: nat -> T): nat -> T {
    if ops == [] then to else Apply(ops[|ops| - 1], from, Perform(ops[..|ops| - 1], from, to))
  }

  /** Each byte comes from the last copy that moves something to it. */
  lemma {:induction false} PerformedByte<T>(ops: seq<CopyOp>, from: nat -> T, to: nat -> T, y: nat)
    ensures (forall x: nat :: !Moves(ops, x, y)) ==> Perform(ops, from, to)(y) == to(y)
    ensures (exists x: nat :: Moves(ops, x, y)) ==>
              exists x: nat :: Moves(ops, x, y) && Perform(ops, from, to)(y) == from(x)
  {
    if ops != [] {
      var n := |ops| - 1;
      PerformedByte(ops[..n], from, to, y);
      assert ops == ops[..n] + [ops[n]];
      if ops[n].dstAddr <= y < ops[n].dstAddr + ops[n].size {
        var x := ops[n].srcAddr + (y - ops[n].dstAddr);
        assert MovesBy(ops[n], x, y);
        assert Moves(ops, x, y);
      } else {
        forall x: nat ensures Moves(ops, x, y) <==> Moves(ops[..n], x, y) {
          SplitMoves(ops[..n], ops[n], x, y);
        }
      }
    }
  }

  lemma MovesPerform<T>(src: AnnotatedLayout, dst: AnnotatedLayout, sel: Selection, ops: seq<CopyOp>,
                        from: nat -> T, to: nat -> T, y: nat)
    requires MovesWanted(src, dst, sel, ops) && Unambiguous(src, dst, sel)
    ensures forall x: nat | Wanted(src, dst, sel, x, y) :: Perform(ops, from, to)(y) == from(x)
    ensures (forall x: nat :: !Wanted(src, dst, sel, x, y)) ==> Perform(ops, from, to)(y) == to(y)
  {
    PerformedByte(ops, from, to, y);
    forall x: nat | Wanted(src, dst, sel, x, y) ensures Perform(ops, from, to)(y) == from(x) {
      assert Moves(ops, x, y);
    }
  }

  /** What performing a plan does to the destination, if its elements share no byte and no
      destination block has two sources: where the innermost axis folds, every selected byte becomes
      its source byte; every other byte, and where it does not fold every byte, stays as it was. It
      makes no difference whether the copies are merged. */
  lemma PlanPerforms<T>(src: AnnotatedLayout, dst: AnnotatedLayout, sel: Selection, policy: Policy,
                        from: nat -> T, to: nat -> T, y: nat)
    requires Compatible(src, dst, sel) && BytesApart(dst) && OneSource(sel.blockPairs)
    ensures var memory := Perform(PlanOf(src, dst, sel, policy).ops, from, to);
            && (InnermostFolds(src, dst, sel) ==> forall x: nat | Wanted(src, dst, sel, x, y) :: memory(y) == from(x))
            && ((forall x: nat :: !Wanted(src, dst, sel, x, y)) ==> memory(y) == to(y))
            && (!InnermostFolds(src, dst, sel) ==> memory(y) == to(y))
  {
    PlanMoves(src, dst, sel, policy);
    if InnermostFolds(src, dst, sel) {
      OneSourceUnambiguous(src, dst, sel);
      MovesPerform(src, dst, sel, PlanOf(src, dst, sel, policy).ops, from, to, y);
    } else {
      PerformedByte(PlanOf(src, dst, sel, policy).ops, from, to, y);
    }
  }

  /** Whatever the memories hold, every selected byte ends up as its source byte. */
  ghost predicate CopiesSelection(src: AnnotatedLayout, dst: AnnotatedLayout, sel: Selection, ops: seq<CopyOp>) {
    forall from: nat -> nat, to: nat -> nat, x: nat, y: nat ::
      Wanted(src, dst, sel, x, y) ==> Perform(ops, from, to)(y) == from(x)
  }

  /** A memory in which every byte holds its own address. */
  const ADDRESSES: nat -> nat := (x: nat) => x

  lemma CopiesOne(src: AnnotatedLayout, dst: AnnotatedLayout, sel: Selection, ops: seq<CopyOp>, x: nat, y: nat)
    requires CopiesSelection(src, dst, sel, ops) && Wanted(src, dst, sel, x, y)
    ensures Perform(ops, ADDRESSES, ADDRESSES)(y) == x
  {
    assert Perform(ops, ADDRESSES, ADDRESSES)(y) == ADDRESSES(x);
  }

  lemma CopiesUnambiguous(src: AnnotatedLayout, dst: AnnotatedLayout, sel: Selection, ops: seq<CopyOp>)
    requires CopiesSelection(src, dst, sel, ops)
    ensures Unambiguous(src, dst, sel)
  {
    forall x: nat, x': nat, y: nat | Wanted(src, dst, sel, x, y) && Wanted(src, dst, sel, x', y) ensures x == x' {
      CopiesOne(src, dst, sel, ops, x, y);
      CopiesOne(src, dst, sel, ops, x', y);
    }
  }

  /** Memories that differ everywhere. */
  const ZEROS: nat -> nat := (x: nat) => 0
  const ONES: nat -> nat := (x: nat) => 1

  /** Copies that move nothing do not copy a selection that holds a byte. */
  lemma NoMovesCopiesNone(src: AnnotatedLayout, dst: AnnotatedLayout, sel: Selection, ops: seq<CopyOp>, x: nat, y: nat)
    requires NoMoves(ops) && Wanted(src, dst, sel, x, y)
    ensures !CopiesSelection(src, dst, sel, ops)
  {
    PerformedByte(ops, ZEROS, ONES, y);
    assert Perform(ops, ZEROS, ONES)(y) != ZEROS(x);
  }

  lemma MovesCopies(src: AnnotatedLayout, dst: AnnotatedLayout, sel: Selection, ops: seq<CopyOp>)
    requires MovesWanted(src, dst, sel, ops) && Unambiguous(src, dst, sel)
    ensures CopiesSelection(src, dst, sel, ops)
  {
    forall from: nat -> nat, to: nat -> nat, x: nat, y: nat | Wanted(src, dst, sel, x, y)
      ensures Perform(ops, from, to)(y) == from(x)
    {
      MovesPerform(src, dst, sel, ops, from, to, y);
    }
  }

  /** Between layouts whose elements share no byte, a plan copies its selection, merged or not, if
      and only if no destination block has two sources, and the innermost axis folds or no block is
      asked for. */
  lemma PlanCopiesIff(src: AnnotatedLayout, dst: AnnotatedLayout, sel: Selection, policy: Policy)
    requires Compatible(src, dst, sel) && BytesApart(src) && BytesApart(dst)
    ensures CopiesSelection(src, dst, sel, PlanOf(src, dst, sel, policy).ops)
            <==> OneSource(sel.blockPairs) && (InnermostFolds(src, dst, sel) || sel.blockPairs == [])
  {
    var ops := PlanOf(src, dst, sel, policy).ops;
    UnambiguousIff(src, dst, sel);
    DeliversIff(src, dst, sel, policy);
    if MovesWanted(src, dst, sel, ops) {
      if OneSource(sel.blockPairs) {
        MovesCopies(src, dst, sel, ops);
      } else if CopiesSelection(src, dst, sel, ops) {
        CopiesUnambiguous(src, dst, sel, ops);
      }
    } else {
      WantedSome(src, dst, sel);
      var x: nat, y: nat :| Wanted(src, dst, sel, x, y);
      NoMovesCopiesNone(src, dst, sel, ops, x, y);
    }
  }

  // ---- How few copies ----

  lemma NoMovesMinimalIff(ops: seq<CopyOp>)
    requires NoMoves(ops)
    ensures Minimal(ops) <==> ops == []
  {
    assert SameMoves([], ops);
  }

  lemma CoalescedEmptyIff(ops: seq<CopyOp>)
    ensures Coalesced(ops) == [] <==> ops == []
  {
    assert ops != [] ==> SortBySource(ops) != [];
  }

  /** A merged plan has as few copies as can be if and only if, in source order, its copies touch
      only within unbroken chains; where the innermost axis does not fold it holds empty copies, and
      is as short as can be only if no block is asked for. */
  lemma PlanMinimalIff(src: AnnotatedLayout, dst: AnnotatedLayout, sel: Selection, policy: Policy)
    requires Compatible(src, dst, sel)
    requires policy.coalesce && CopyBytesOf(src, dst, sel) >= policy.minInnerBytes
    ensures Minimal(PlanOf(src, dst, sel, policy).ops) <==>
            if InnermostFolds(src, dst, sel) then TouchOnlyInChains(SortBySource(PlannedCopies(src, dst, sel)))
            else sel.blockPairs == []
  {
    var copies := PlannedCopies(src, dst, sel);
    CopyBytesPositive(src, dst, sel);
    CopiesMove(src, dst, sel);
    if InnermostFolds(src, dst, sel) {
      CoalescedMinimalIff(copies);
    } else {
      CoalescedKeeps(copies);
      NoMovesMinimalIff(Coalesced(copies));
      CoalescedEmptyIff(copies);
      CopiesIff(src, dst, sel);
    }
  }

  /** If the source's elements share no byte and no source block is read twice, a merged plan has as
      few copies as can be exactly if the innermost axis folds or no block is asked for. */
  lemma PlanMinimal(src: AnnotatedLayout, dst: AnnotatedLayout, sel: Selection, policy: Policy)
    requires Compatible(src, dst, sel)
    requires policy.coalesce && CopyBytesOf(src, dst, sel) >= policy.minInnerBytes
    requires BytesApart(src) && DistinctSources(sel.blockPairs)
    ensures Minimal(PlanOf(src, dst, sel, policy).ops) <==> InnermostFolds(src, dst, sel) || sel.blockPairs == []
  {
    if InnermostFolds(src, dst, sel) {
      CopyBytesPositive(src, dst, sel);
      CopiesMove(src, dst, sel);
      EmittedDisjoint(src, dst, sel, FoldStart(src, dst, sel, |src.dims|));
      CoalescedMinimal(PlannedCopies(src, dst, sel));
    } else {
      PlanMinimalIff(src, dst, sel, policy);
    }
  }

  // ---- Three requests ----

  /** A layout of blocks alone: one of one byte. */
  const BLOCK_ALONE := AnnotatedLayout([0], None, [Block], [1], [1], 1)

  lemma BlockAloneApart()
    ensures BytesApart(BLOCK_ALONE)
  {
    assert BLOCK_ALONE.sizes[1..] == [];
    assert BLOCK_ALONE.bytes[0] == RowMajor(BLOCK_ALONE.sizes, 1, 0);
    RowMajorApart(BLOCK_ALONE);
  }

  /** One block of one byte, copied onto itself: with no axis that folds the request is accepted,
      yet it is not copied, and its merged plan holds an empty copy. */
  lemma BlockAloneNotCopied(policy: Policy)
    ensures var a, sel := BLOCK_ALONE, Selection([(0, 0)], []);
            && Compatible(a, a, sel) && BytesApart(a) && OneSource(sel.blockPairs) && DistinctSources(sel.blockPairs)
            && !CopiesSelection(a, a, sel, PlanOf(a, a, sel, policy).ops)
            && !Minimal(PlanOf(a, a, sel, Policy(0, true)).ops)
  {
    var a, sel := BLOCK_ALONE, Selection([(0, 0)], []);
    NothingFolds(policy);
    BlockAloneApart();
    PlanCopiesIff(a, a, sel, policy);
    PlanMinimalIff(a, a, sel, Policy(0, true));
  }

  /** `count` blocks of `width` one-byte elements each, from `base` on. */
  function BlockRow(base: nat, count: nat, width: nat): AnnotatedLayout {
    AnnotatedLayout([base], None, [Block, HeadSize], [count, width], [width, 1], 1)
  }

  function BlockCopy(base: nat, base': nat, width: nat, pair: (nat, nat)): CopyOp {
    CopyOp(base + width * pair.0, base' + width * pair.1, width)
  }

  lemma BlockRowValid(base: nat, count: nat, width: nat)
    requires count > 0 && width > 0
    ensures BlockRow(base, count, width).Valid() && BytesApart(BlockRow(base, count, width))
  {
    var a := BlockRow(base, count, width);
    assert a.sizes[1..] == [width] && a.sizes[2..] == [] && [width][1..] == [];
    assert Product([width]) == width * Product([]) == width;
    assert forall k | 0 <= k < 2 :: a.bytes[k] == RowMajor(a.sizes, 1, k);
    RowMajorApart(a);
  }

  lemma BlockRowFolds(base: nat, base': nat, count: nat, width: nat, pairs: seq<(nat, nat)>)
    requires count > 0 && width > 0
    ensures var src, dst, sel := BlockRow(base, count, width), BlockRow(base', count, width), Selection(pairs, []);
            FoldStart(src, dst, sel, 2) == 1 && InnermostFolds(src, dst, sel) && CopyBytesOf(src, dst, sel) == width
  {
    var src, dst, sel := BlockRow(base, count, width), BlockRow(base', count, width), Selection(pairs, []);
    assert src.sizes[2..] == [];
    assert Folds(src, dst, sel, 1) && !Folds(src, dst, sel, 0);
    assert src.sizes[1..] == [width] && [width][1..] == [];
    assert Product([width]) == width * Product([]);
  }

  lemma BlockRowAddress(a: AnnotatedLayout, base: nat, count: nat, width: nat, block: nat)
    requires count > 0 && width > 0 && a == BlockRow(base, count, width) && block < count
    ensures Addressable(a, map[Block := block]) && Address(a, map[Block := block]) == base + width * block
  {
    BlockRowValid(base, count, width);
    var c: Coord := map[Block := block];
    assert a.dims[1..] == [HeadSize] && a.bytes[1..] == [1] && a.dims[1..][1..] == [] && a.bytes[1..][1..] == [];
    assert OffsetOf([HeadSize], [1], None, c) == 0;
    assert OffsetOf(a.dims, a.bytes, None, c) == width * block;
  }

  function BlockCopies(base: nat, base': nat, width: nat, pairs: seq<(nat, nat)>): seq<CopyOp> {
    seq(|pairs|, i requires 0 <= i < |pairs| => BlockCopy(base, base', width, pairs[i]))
  }

  ghost predicate PairsBelow(pairs: seq<(nat, nat)>, count: nat) {
    forall i | 0 <= i < |pairs| :: pairs[i].0 < count && pairs[i].1 < count
  }

  lemma BlockRowOp(base: nat, base': nat, count: nat, width: nat, sel: Selection, outer: Axes, i: nat)
    requires count > 0 && width > 0 && PairsBelow(sel.blockPairs, count) && i < |sel.blockPairs|
    requires |outer| == 1 && outer[0].0 == Block
    ensures OpAt(BlockRow(base, count, width), BlockRow(base', count, width), sel, outer, width, [i])
            == BlockCopy(base, base', width, sel.blockPairs[i])
  {
    assert [i][..0] == [];
    assert SrcCoord(sel, outer, [i]) == map[Block := sel.blockPairs[i].0];
    assert DstCoord(sel, outer, [i]) == map[Block := sel.blockPairs[i].1];
    BlockRowAddress(BlockRow(base, count, width), base, count, width, sel.blockPairs[i].0);
    BlockRowAddress(BlockRow(base', count, width), base', count, width, sel.blockPairs[i].1);
  }

  lemma BlockRowEmitsOne(base: nat, base': nat, count: nat, width: nat, sel: Selection, outer: Axes, i: nat)
    requires count > 0 && width > 0 && PairsBelow(sel.blockPairs, count) && i < |sel.blockPairs|
    requires |outer| == 1 && outer[0].0 == Block
    ensures EmitFrom(BlockRow(base, count, width), BlockRow(base', count, width), sel, outer, width, [] + [i])
            == [BlockCopy(base, base', width, sel.blockPairs[i])]
  {
    assert [] + [i] == [i];
    BlockRowOp(base, base', count, width, sel, outer, i);
  }

  lemma BlockCopiesStep(base: nat, base': nat, width: nat, pairs: seq<(nat, nat)>, n: nat)
    requires n < |pairs|
    ensures BlockCopies(base, base', width, pairs[..n + 1])
            == BlockCopies(base, base', width, pairs[..n]) + [BlockCopy(base, base', width, pairs[n])]
  {
  }

  lemma {:induction false} BlockRowEmits(base: nat, base': nat, count: nat, width: nat, sel: Selection, outer: Axes,
                                         n: nat)
    requires count > 0 && width > 0 && PairsBelow(sel.blockPairs, count) && n <= |sel.blockPairs|
    requires |outer| == 1 && outer[0].0 == Block
    ensures EmitUpTo(BlockRow(base, count, width), BlockRow(base', count, width), sel, outer, width, [], n)
            == BlockCopies(base, base', width, sel.blockPairs[..n])
  {
    if n > 0 {
      BlockRowEmits(base, base', count, width, sel, outer, n - 1);
      BlockRowEmitsOne(base, base', count, width, sel, outer, n - 1);
      BlockCopiesStep(base, base', width, sel.blockPairs, n - 1);
    }
  }

  /** Between two such rows, a selection of blocks is planned as one copy per pair. */
  lemma BlockRowCopies(base: nat, base': nat, count: nat, width: nat, pairs: seq<(nat, nat)>)
    requires count > 0 && width > 0 && PairsBelow(pairs, count)
    ensures var src, dst, sel := BlockRow(base, count, width), BlockRow(base', count, width), Selection(pairs, []);
            && Compatible(src, dst, sel) && InnermostFolds(src, dst, sel) && CopyBytesOf(src, dst, sel) == width
            && PlannedCopies(src, dst, sel) == BlockCopies(base, base', width, pairs)
  {
    var src, dst, sel := BlockRow(base, count, width), BlockRow(base', count, width), Selection(pairs, []);
    BlockRowValid(base, count, width);
    BlockRowValid(base', count, width);
    assert SizeOr1(src.dims, src.sizes, Block) == count == SizeOr1(dst.dims, dst.sizes, Block);
    assert forall j | 0 <= j < 2 :: LabelFits(src, dst, sel, src.dims[j]);
    BlockRowFolds(base, base', count, width, pairs);
    BlockRowEmits(base, base', count, width, sel, OuterAxes(src, sel, 1), |pairs|);
    assert pairs[..|pairs|] == pairs;
  }

  /** An accepted request with two sources for one destination block: unmerged, the later pair
      wins; merged, the higher source address does. */
  lemma MergingChangesResult(from: nat -> nat, to: nat -> nat)
    ensures var row, sel := BlockRow(0, 2, 1), Selection([(1, 0), (0, 0)], []);
            && Compatible(row, row, sel) && InnermostFolds(row, row, sel) && BytesApart(row)
            && Perform(PlanOf(row, row, sel, Policy(0, false)).ops, from, to)(0) == from(0)
            && Perform(PlanOf(row, row, sel, Policy(0, true)).ops, from, to)(0) == from(1)
  {
    var row, sel := BlockRow(0, 2, 1), Selection([(1, 0), (0, 0)], []);
    BlockRowValid(0, 2, 1);
    BlockRowCopies(0, 0, 2, 1, sel.blockPairs);
    var a, b := CopyOp(1, 0, 1), CopyOp(0, 0, 1);
    assert BlockCopies(0, 0, 1, sel.blockPairs) == [a, b];
    assert Perform([a, b], from, to)(0) == from(0);
    SwappedCoalesced();
    assert Perform([b, a], from, to)(0) == from(1);
  }

  lemma SwappedCoalesced()
    ensures Coalesced([CopyOp(1, 0, 1), CopyOp(0, 0, 1)]) == [CopyOp(0, 0, 1), CopyOp(1, 0, 1)]
  {
    var a, b := CopyOp(1, 0, 1), CopyOp(0, 0, 1);
    assert [a, b][..1] == [a] && [a][..0] == [] && [b, a][..1] == [b] && [b][..0] == [];
    assert SortBySource([a]) == [a];
    assert SortBySource([a, b]) == Insert(b, [a]) == [b, a];
    assert MergeAll([b]) == [b];
    assert MergeAll([b, a]) == [b, a];
  }

  /** An accepted request that reads one source block twice: its merged plan has three copies
      where two would do. */
  lemma PlanNotMinimal()
    ensures var src, dst := BlockRow(0, 26, 4), BlockRow(100, 26, 4);
            var sel := Selection([(0, 0), (0, 25), (1, 1)], []);
            var plan := PlanOf(src, dst, sel, Policy(0, true));
            && Compatible(src, dst, sel) && plan.Direct? && |plan.ops| == 3 && !Minimal(plan.ops)
  {
    var pairs := [(0, 0), (0, 25), (1, 1)];
    BlockRowCopies(0, 100, 26, 4, pairs);
    assert BlockCopies(0, 100, 4, pairs) == [CopyOp(0, 100, 4), CopyOp(0, 200, 4), CopyOp(4, 104, 4)];
    SharedSourceNotMinimal();
  }
}
