/** Merging copies that continue one another. */
module CopyMerge {
  import opened CopyPlan

  /** `b` continues `a` on both sides. */
  predicate Adjoin(a: CopyOp, b: CopyOp) {
    a.srcAddr + a.size == b.srcAddr && a.dstAddr + a.size == b.dstAddr
  }

  ghost predicate SameMoves(a: seq<CopyOp>, b: seq<CopyOp>) {
    forall x: nat, y: nat :: Moves(a, x, y) <==> Moves(b, x, y)
  }

  lemma SplitMoves(ops: seq<CopyOp>, op: CopyOp, x: nat, y: nat)
    ensures Moves(ops + [op], x, y) <==> Moves(ops, x, y) || MovesBy(op, x, y)
  {
    if Moves(ops, x, y) {
      var o :| o in ops && MovesBy(o, x, y);
      assert o in ops + [op];
    } else if MovesBy(op, x, y) {
      assert op in ops + [op];
    }
  }

  // ---- Sorting ----

  function Insert(op: CopyOp, sorted: seq<CopyOp>): seq<CopyOp> {
    if sorted == [] || op.srcAddr < sorted[0].srcAddr then [op] + sorted else [sorted[0]] + Insert(op, sorted[1..])
  }

  /** A stable sort by source address. */
  function SortBySource(ops: seq<CopyOp>): seq<CopyOp> {
    if ops == [] then [] else Insert(ops[|ops| - 1], SortBySource(ops[..|ops| - 1]))
  }

  lemma {:induction false} InsertKeeps(op: CopyOp, sorted: seq<CopyOp>)
    ensures multiset(Insert(op, sorted)) == multiset(sorted) + multiset{op}
  {
    if sorted != [] && op.srcAddr >= sorted[0].srcAddr {
      InsertKeeps(op, sorted[1..]);
      assert sorted == [sorted[0]] + sorted[1..];
    }
  }

  lemma {:induction false} SortPermutes(ops: seq<CopyOp>)
    ensures multiset(SortBySource(ops)) == multiset(ops)
  {
    if ops != [] {
      var n := |ops| - 1;
      SortPermutes(ops[..n]);
      InsertKeeps(ops[n], SortBySource(ops[..n]));
      assert ops == ops[..n] + [ops[n]];
    }
  }

  lemma SortKeeps(ops: seq<CopyOp>)
    ensures SameMoves(SortBySource(ops), ops) && |SortBySource(ops)| == |ops|
  {
    SortPermutes(ops);
    assert forall op :: op in SortBySource(ops) <==> op in multiset(SortBySource(ops));
    assert forall op :: op in ops <==> op in multiset(ops);
    assert |SortBySource(ops)| == |multiset(SortBySource(ops))|;
  }

  ghost predicate SourceSorted(ops: seq<CopyOp>) {
    forall i, j | 0 <= i < j < |ops| :: ops[i].srcAddr <= ops[j].srcAddr
  }

  lemma {:induction false} InsertSorts(op: CopyOp, sorted: seq<CopyOp>, low: nat)
    requires SourceSorted(sorted) && low <= op.srcAddr && forall k | 0 <= k < |sorted| :: low <= sorted[k].srcAddr
    ensures SourceSorted(Insert(op, sorted))
    ensures forall k | 0 <= k < |Insert(op, sorted)| :: low <= Insert(op, sorted)[k].srcAddr
  {
    if sorted != [] && op.srcAddr >= sorted[0].srcAddr {
      InsertSorts(op, sorted[1..], sorted[0].srcAddr);
    }
  }

  /** The copies come out in source order... */
  lemma {:induction false} SortSorts(ops: seq<CopyOp>)
    ensures SourceSorted(SortBySource(ops))
  {
    if ops != [] {
      SortSorts(ops[..|ops| - 1]);
      InsertSorts(ops[|ops| - 1], SortBySource(ops[..|ops| - 1]), 0);
    }
  }

  /** The copies from one source address, in their order. */
  function From(ops: seq<CopyOp>, addr: nat): seq<CopyOp> {
    if ops == [] then [] else (if ops[0].srcAddr == addr then [ops[0]] else []) + From(ops[1..], addr)
  }

  lemma {:induction false} FromNone(ops: seq<CopyOp>, addr: nat)
    requires forall k | 0 <= k < |ops| :: ops[k].srcAddr != addr
    ensures From(ops, addr) == []
  {
    if ops != [] {
      FromNone(ops[1..], addr);
    }
  }

  function Only(op: CopyOp, addr: nat): seq<CopyOp> {
    if op.srcAddr == addr then [op] else []
  }

  lemma FromFirst(op: CopyOp, rest: seq<CopyOp>, addr: nat)
    ensures From([op] + rest, addr) == Only(op, addr) + From(rest, addr)
  {
    assert ([op] + rest)[1..] == rest;
  }

  lemma Regrouped<T>(a: seq<T>, b: seq<T>, c: seq<T>)
    ensures (a + b) + c == a + (b + c)
  {
  }

  lemma {:induction false} FromLast(ops: seq<CopyOp>, op: CopyOp, addr: nat)
    ensures From(ops + [op], addr) == From(ops, addr) + Only(op, addr)
  {
    if ops == [] {
      FromFirst(op, [], addr);
      assert [] + [op] == [op] + [];
    } else {
      var first, rest := ops[0], ops[1..];
      assert ops == [first] + rest;
      Regrouped([first], rest, [op]);
      FromFirst(first, rest + [op], addr);
      FromFirst(first, rest, addr);
      FromLast(rest, op, addr);
      Regrouped(Only(first, addr), From(rest, addr), Only(op, addr));
    }
  }

  lemma {:induction false} InsertBehind(op: CopyOp, sorted: seq<CopyOp>, addr: nat)
    requires SourceSorted(sorted)
    ensures From(Insert(op, sorted), addr) == From(sorted, addr) + Only(op, addr)
  {
    if sorted == [] || op.srcAddr < sorted[0].srcAddr {
      FromFirst(op, sorted, addr);
      if op.srcAddr == addr {
        FromNone(sorted, addr);
      }
    } else {
      var first, rest := sorted[0], sorted[1..];
      InsertBehind(op, rest, addr);
      FromFirst(first, Insert(op, rest), addr);
      FromFirst(first, rest, addr);
      assert sorted == [first] + rest;
      Regrouped(Only(first, addr), From(rest, addr), Only(op, addr));
    }
  }

  /** ...and those from one address stay in the order they had. */
  lemma {:induction false} SortStable(ops: seq<CopyOp>, addr: nat)
    ensures From(SortBySource(ops), addr) == From(ops, addr)
  {
    if ops != [] {
      var n := |ops| - 1;
      SortStable(ops[..n], addr);
      SortSorts(ops[..n]);
      InsertBehind(ops[n], SortBySource(ops[..n]), addr);
      FromLast(ops[..n], ops[n], addr);
      assert ops[..n] + [ops[n]] == ops;
    }
  }

  // ---- Merging neighbours ----

  function Push(out: seq<CopyOp>, op: CopyOp): seq<CopyOp> {
    if out != [] && Adjoin(out[|out| - 1], op) then
      var last := out[|out| - 1];
      out[..|out| - 1] + [CopyOp(last.srcAddr, last.dstAddr, last.size + op.size)]
    else out + [op]
  }

  /** One pass over the copies, each joined to the one before where it continues it. */
  function MergeAll(ops: seq<CopyOp>): seq<CopyOp> {
    if ops == [] then [] else Push(MergeAll(ops[..|ops| - 1]), ops[|ops| - 1])
  }

  lemma PushMoves(out: seq<CopyOp>, op: CopyOp, x: nat, y: nat)
    ensures Moves(Push(out, op), x, y) <==> Moves(out, x, y) || MovesBy(op, x, y)
  {
    if out != [] && Adjoin(out[|out| - 1], op) {
      var n := |out| - 1;
      var merged := CopyOp(out[n].srcAddr, out[n].dstAddr, out[n].size + op.size);
      assert MovesBy(merged, x, y) <==> MovesBy(out[n], x, y) || MovesBy(op, x, y);
      assert out == out[..n] + [out[n]];
      SplitMoves(out[..n], out[n], x, y);
      SplitMoves(out[..n], merged, x, y);
    } else {
      SplitMoves(out, op, x, y);
    }
  }

  /** Merging neighbours moves the same bytes... */
  lemma {:induction false} MergeKeeps(ops: seq<CopyOp>)
    ensures SameMoves(MergeAll(ops), ops) && |MergeAll(ops)| <= |ops|
  {
    if ops != [] {
      var n := |ops| - 1;
      MergeKeeps(ops[..n]);
      assert ops == ops[..n] + [ops[n]];
      forall x: nat, y: nat ensures Moves(MergeAll(ops), x, y) <==> Moves(ops, x, y) {
        PushMoves(MergeAll(ops[..n]), ops[n], x, y);
        SplitMoves(ops[..n], ops[n], x, y);
      }
    }
  }

  ghost predicate NoneAdjoin(ops: seq<CopyOp>) {
    forall i | 0 <= i < |ops| - 1 :: !Adjoin(ops[i], ops[i + 1])
  }

  /** ...and leaves no neighbours that could be merged. */
  lemma {:induction false} MergeCompletes(ops: seq<CopyOp>)
    ensures NoneAdjoin(MergeAll(ops))
  {
    if ops != [] {
      MergeCompletes(ops[..|ops| - 1]);
    }
  }

  /** What sorting and merging computes. */
  function Coalesced(ops: seq<CopyOp>): seq<CopyOp> {
    MergeAll(SortBySource(ops))
  }

  lemma CoalescedKeeps(ops: seq<CopyOp>)
    ensures SameMoves(Coalesced(ops), ops) && |Coalesced(ops)| <= |ops| && NoneAdjoin(Coalesced(ops))
  {
    SortKeeps(ops);
    MergeKeeps(SortBySource(ops));
    MergeCompletes(SortBySource(ops));
  }

  lemma CoalescedShort(ops: seq<CopyOp>)
    requires |ops| <= 1
    ensures Coalesced(ops) == ops
  {
    if |ops| == 1 {
      assert ops[..0] == [];
      assert SortBySource(ops) == [ops[0]] == ops;
      assert MergeAll(ops) == [ops[0]];
    }
  }

  method Coalesce(ops: seq<CopyOp>) returns (out: seq<CopyOp>)
    ensures out == Coalesced(ops)
  {
    if |ops| <= 1 {
      CoalescedShort(ops);
      return ops;
    }
    var sorted := SortBySource(ops);
    out := [];
    for i := 0 to |sorted|
      invariant out == MergeAll(sorted[..i])
    {
      var op := sorted[i];
      assert sorted[..i + 1][..i] == sorted[..i];
      if out != [] && Adjoin(out[|out| - 1], op) {
        var last := out[|out| - 1];
        out := out[..|out| - 1] + [CopyOp(last.srcAddr, last.dstAddr, last.size + op.size)];
      } else {
        out := out + [op];
      }
    }
    assert sorted[..|sorted|] == sorted;
  }

  // ---- How few copies are left ----

  /** No list of copies moving the same bytes is shorter. */
  ghost predicate Minimal(ops: seq<CopyOp>) {
    forall other: seq<CopyOp> :: SameMoves(other, ops) ==> |ops| <= |other|
  }

  /** Two copies lie on one line of byte pairs and overlap or meet. */
  predicate Touch(a: CopyOp, b: CopyOp) {
    && a.dstAddr - a.srcAddr == b.dstAddr - b.srcAddr
    && a.srcAddr <= b.srcAddr + b.size && b.srcAddr <= a.srcAddr + a.size
  }

  ghost predicate NoneTouch(ops: seq<CopyOp>) {
    forall i, j | 0 <= i < j < |ops| :: !Touch(ops[i], ops[j])
  }

  ghost predicate Positive(ops: seq<CopyOp>) {
    forall i | 0 <= i < |ops| :: ops[i].size > 0
  }

  lemma {:induction false} Pigeonhole(f: seq<nat>, n: nat)
    requires forall i | 0 <= i < |f| :: f[i] < n
    requires forall i, j | 0 <= i < j < |f| :: f[i] != f[j]
    ensures |f| <= n
  {
    if f != [] {
      assert f[0] < n;
      if k :| 0 <= k < |f| && f[k] == n - 1 {
        Pigeonhole(f[..k] + f[k + 1..], n - 1);
      } else {
        Pigeonhole(f, n - 1);
      }
    }
  }

  lemma MovedAt(ops: seq<CopyOp>, x: nat, y: nat) returns (j: nat)
    requires Moves(ops, x, y)
    ensures j < |ops| && MovesBy(ops[j], x, y)
  {
    var op :| op in ops && MovesBy(op, x, y);
    j :| 0 <= j < |ops| && ops[j] == op;
  }

  /** Two copies that start within one copy of `other` touch each other or something between. */
  lemma SharedStart(ops: seq<CopyOp>, other: seq<CopyOp>, i: nat, j: nat, k: nat) returns (p: nat, q: nat)
    requires SameMoves(other, ops) && i < |ops| && j < |ops| && i != j && k < |other|
    requires ops[i].srcAddr <= ops[j].srcAddr
    requires MovesBy(other[k], ops[i].srcAddr, ops[i].dstAddr) && MovesBy(other[k], ops[j].srcAddr, ops[j].dstAddr)
    ensures p < |ops| && q < |ops| && p != q && Touch(ops[p], ops[q])
  {
    p, q := i, j;
    if ops[i].srcAddr < ops[j].srcAddr {
      var x, y := ops[j].srcAddr - 1, ops[j].dstAddr - 1;
      assert MovesBy(other[k], x, y);
      assert Moves(other, x, y);
      p := MovedAt(ops, x, y);
    }
  }

  lemma NoneTouchMinimal(ops: seq<CopyOp>, other: seq<CopyOp>)
    requires Positive(ops) && NoneTouch(ops) && SameMoves(other, ops)
    ensures |ops| <= |other|
  {
    var f: seq<nat> := [];
    for i := 0 to |ops|
      invariant |f| == i
      invariant forall k | 0 <= k < i :: f[k] < |other| && MovesBy(other[f[k]], ops[k].srcAddr, ops[k].dstAddr)
    {
      assert MovesBy(ops[i], ops[i].srcAddr, ops[i].dstAddr);
      var j := MovedAt(other, ops[i].srcAddr, ops[i].dstAddr);
      f := f + [j];
    }
    forall i, j | 0 <= i < j < |f| ensures f[i] != f[j] {
      if f[i] == f[j] {
        var first, second := if ops[i].srcAddr <= ops[j].srcAddr then i else j,
          if ops[i].srcAddr <= ops[j].srcAddr then j else i;
        var p, q := SharedStart(ops, other, first, second, f[i]);
        assert Touch(ops[q], ops[p]);
      }
    }
    Pigeonhole(f, |other|);
  }

  /** The list with copy `i` grown to take in copy `j`, and copy `j` left out. */
  function Fused(ops: seq<CopyOp>, i: nat, j: nat): seq<CopyOp>
    requires i < j < |ops| && Touch(ops[i], ops[j])
  {
    var a, b := ops[i], ops[j];
    var first := if a.srcAddr <= b.srcAddr then a else b;
    var end := if a.srcAddr + a.size >= b.srcAddr + b.size then a.srcAddr + a.size else b.srcAddr + b.size;
    ops[..i] + [CopyOp(first.srcAddr, first.dstAddr, end - first.srcAddr)] + ops[i + 1..j] + ops[j + 1..]
  }

  lemma FusedMoves(ops: seq<CopyOp>, i: nat, j: nat, x: nat, y: nat)
    requires i < j < |ops| && Touch(ops[i], ops[j])
    ensures Moves(Fused(ops, i, j), x, y) <==> Moves(ops, x, y)
  {
    var f := Fused(ops, i, j);
    assert MovesBy(f[i], x, y) <==> MovesBy(ops[i], x, y) || MovesBy(ops[j], x, y);
    if Moves(ops, x, y) {
      var k := MovedAt(ops, x, y);
      var at := if k == j then i else if k < j then k else k - 1;
      assert MovesBy(f[at], x, y);
    }
    if Moves(f, x, y) {
      var k := MovedAt(f, x, y);
      var at := if k == i then (if MovesBy(ops[i], x, y) then i else j) else if k < j then k else k + 1;
      assert MovesBy(ops[at], x, y);
    }
  }

  lemma DroppedMoves(ops: seq<CopyOp>, i: nat, x: nat, y: nat)
    requires i < |ops| && ops[i].size == 0
    ensures Moves(ops[..i] + ops[i + 1..], x, y) <==> Moves(ops, x, y)
  {
    var f := ops[..i] + ops[i + 1..];
    if Moves(ops, x, y) {
      var k := MovedAt(ops, x, y);
      assert MovesBy(f[if k < i then k else k - 1], x, y);
    }
    if Moves(f, x, y) {
      var k := MovedAt(f, x, y);
      assert MovesBy(ops[if k < i then k else k + 1], x, y);
    }
  }

  lemma EmptyNotMinimal(ops: seq<CopyOp>, i: nat)
    requires i < |ops| && ops[i].size == 0
    ensures !Minimal(ops)
  {
    forall x: nat, y: nat ensures Moves(ops[..i] + ops[i + 1..], x, y) <==> Moves(ops, x, y) {
      DroppedMoves(ops, i, x, y);
    }
    assert SameMoves(ops[..i] + ops[i + 1..], ops);
  }

  /** Copies are as few as can be exactly if each moves something and no two of them touch. */
  lemma MinimalIff(ops: seq<CopyOp>)
    ensures Minimal(ops) <==> Positive(ops) && NoneTouch(ops)
  {
    if !Positive(ops) {
      var i :| 0 <= i < |ops| && ops[i].size == 0;
      EmptyNotMinimal(ops, i);
    } else if NoneTouch(ops) {
      forall other: seq<CopyOp> | SameMoves(other, ops) ensures |ops| <= |other| {
        NoneTouchMinimal(ops, other);
      }
    } else {
      var i, j :| 0 <= i < j < |ops| && Touch(ops[i], ops[j]);
      forall x: nat, y: nat ensures Moves(Fused(ops, i, j), x, y) <==> Moves(ops, x, y) {
        FusedMoves(ops, i, j, x, y);
      }
      assert SameMoves(Fused(ops, i, j), ops);
    }
  }

  // ---- When merging leaves as few as can be ----

  /** Each copy from `i` to `j` continues the one before. */
  ghost predicate Chain(ops: seq<CopyOp>, i: nat, j: nat)
    requires i <= j < |ops|
  {
    forall k | i <= k < j :: Adjoin(ops[k], ops[k + 1])
  }

  /** `g` numbers the chains: it goes up wherever a copy does not continue the one before. */
  ghost predicate Numbers(ops: seq<CopyOp>, g: seq<nat>) {
    && |g| == |ops|
    && (g != [] ==> g[0] == 0)
    && forall i | 0 <= i < |g| - 1 :: g[i + 1] == if Adjoin(ops[i], ops[i + 1]) then g[i] else g[i] + 1
  }

  /** Copies have one number iff they form a chain. */
  lemma {:induction false} NumbersChain(ops: seq<CopyOp>, g: seq<nat>, i: nat, j: nat)
    requires Numbers(ops, g) && i <= j < |ops|
    ensures g[i] <= g[j]
    ensures g[i] == g[j] <==> Chain(ops, i, j)
    decreases j
  {
    if i < j {
      NumbersChain(ops, g, i, j - 1);
      assert g[j - 1 + 1] == if Adjoin(ops[j - 1], ops[j - 1 + 1]) then g[j - 1] else g[j - 1] + 1;
      assert Chain(ops, i, j) <==> Chain(ops, i, j - 1) && Adjoin(ops[j - 1], ops[j]);
    }
  }

  /** `a` is a part of `b`: on its line and within its source bytes. */
  predicate Inside(a: CopyOp, b: CopyOp) {
    && a.dstAddr - a.srcAddr == b.dstAddr - b.srcAddr
    && b.srcAddr <= a.srcAddr && a.srcAddr + a.size <= b.srcAddr + b.size
  }

  /** `p` is a source position of the copy, or just behind it. */
  predicate Reach(op: CopyOp, p: nat) {
    op.srcAddr <= p <= op.srcAddr + op.size
  }

  /** The last merged copy ends where the last copy does. */
  ghost predicate SameEnd(ops: seq<CopyOp>, out: seq<CopyOp>, g: seq<nat>) {
    && |g| == |ops| && (ops == [] <==> out == [])
    && (ops != [] ==>
          var op, last := ops[|ops| - 1], out[|out| - 1];
          && |out| == g[|g| - 1] + 1
          && op.srcAddr + op.size == last.srcAddr + last.size && op.dstAddr + op.size == last.dstAddr + last.size)
  }

  /** Every copy is a part of the merged copy of its number... */
  ghost predicate PartsInside(ops: seq<CopyOp>, out: seq<CopyOp>, g: seq<nat>) {
    |g| == |ops| && forall i | 0 <= i < |ops| :: g[i] < |out| && Inside(ops[i], out[g[i]])
  }

  ghost predicate ReachedBy(ops: seq<CopyOp>, g: seq<nat>, k: nat, p: nat) {
    |g| == |ops| && exists i | 0 <= i < |ops| :: g[i] == k && Reach(ops[i], p)
  }

  /** ...and every position of a merged copy is one of such a part. */
  ghost predicate PartsFill(ops: seq<CopyOp>, out: seq<CopyOp>, g: seq<nat>) {
    forall k: nat, p: nat | k < |out| && Reach(out[k], p) :: ReachedBy(ops, g, k, p)
  }

  function NextNumber(ops: seq<CopyOp>, g: seq<nat>, op: CopyOp): nat
    requires |g| == |ops|
  {
    if ops == [] then 0 else if Adjoin(ops[|ops| - 1], op) then g[|g| - 1] else g[|g| - 1] + 1
  }

  /** With equal ends, the next copy is joined iff it continues the copy before it. */
  lemma PushEnd(ops: seq<CopyOp>, out: seq<CopyOp>, g: seq<nat>, op: CopyOp)
    requires SameEnd(ops, out, g)
    ensures |Push(out, op)| == NextNumber(ops, g, op) + 1
    ensures NextNumber(ops, g, op) < |out| <==> ops != [] && Adjoin(ops[|ops| - 1], op)
    ensures SameEnd(ops + [op], Push(out, op), g + [NextNumber(ops, g, op)])
  {
  }

  lemma PushInside(ops: seq<CopyOp>, out: seq<CopyOp>, g: seq<nat>, op: CopyOp)
    requires SameEnd(ops, out, g) && PartsInside(ops, out, g)
    ensures PartsInside(ops + [op], Push(out, op), g + [NextNumber(ops, g, op)])
  {
    PushEnd(ops, out, g, op);
    var all, out', g' := ops + [op], Push(out, op), g + [NextNumber(ops, g, op)];
    forall i | 0 <= i < |all| ensures g'[i] < |out'| && Inside(all[i], out'[g'[i]]) {
      if i < |ops| {
        assert Inside(ops[i], out[g[i]]);
      }
    }
  }

  lemma PushFills(ops: seq<CopyOp>, out: seq<CopyOp>, g: seq<nat>, op: CopyOp)
    requires SameEnd(ops, out, g) && PartsFill(ops, out, g)
    ensures PartsFill(ops + [op], Push(out, op), g + [NextNumber(ops, g, op)])
  {
    PushEnd(ops, out, g, op);
    var all, out', g' := ops + [op], Push(out, op), g + [NextNumber(ops, g, op)];
    forall k: nat, p: nat | k < |out'| && Reach(out'[k], p) ensures ReachedBy(all, g', k, p) {
      if k < |out| && Reach(out[k], p) {
        assert ReachedBy(ops, g, k, p);
        var i :| 0 <= i < |ops| && g[i] == k && Reach(ops[i], p);
        assert g'[i] == k && Reach(all[i], p);
      } else {
        assert g'[|ops|] == k && Reach(all[|ops|], p);
      }
    }
  }

  lemma NumbersNext(ops: seq<CopyOp>, g: seq<nat>, op: CopyOp)
    requires Numbers(ops, g)
    ensures Numbers(ops + [op], g + [NextNumber(ops, g, op)])
  {
  }

  ghost predicate Grouped(ops: seq<CopyOp>, out: seq<CopyOp>, g: seq<nat>) {
    Numbers(ops, g) && SameEnd(ops, out, g) && PartsInside(ops, out, g) && PartsFill(ops, out, g)
  }

  lemma GroupedPush(ops: seq<CopyOp>, out: seq<CopyOp>, g: seq<nat>, op: CopyOp)
    requires Grouped(ops, out, g)
    ensures Grouped(ops + [op], Push(out, op), g + [NextNumber(ops, g, op)])
  {
    NumbersNext(ops, g, op);
    PushEnd(ops, out, g, op);
    PushInside(ops, out, g, op);
    PushFills(ops, out, g, op);
  }

  /** The merged copies are the chains, each just as long as its members together. */
  lemma {:induction false} MergeGroups(ops: seq<CopyOp>) returns (g: seq<nat>)
    ensures Grouped(ops, MergeAll(ops), g)
  {
    if ops == [] {
      g := [];
    } else {
      var n := |ops| - 1;
      var rest := MergeGroups(ops[..n]);
      GroupedPush(ops[..n], MergeAll(ops[..n]), rest, ops[n]);
      g := rest + [NextNumber(ops[..n], rest, ops[n])];
      assert ops[..n] + [ops[n]] == ops;
    }
  }

  ghost predicate TouchOnlyInChains(ops: seq<CopyOp>) {
    forall i, j | 0 <= i < j < |ops| :: Touch(ops[i], ops[j]) ==> Chain(ops, i, j)
  }

  lemma GroupedTouch(ops: seq<CopyOp>, out: seq<CopyOp>, g: seq<nat>, i: nat, j: nat)
    requires Numbers(ops, g) && PartsInside(ops, out, g)
    requires i < j < |ops| && Touch(ops[i], ops[j]) && !Chain(ops, i, j)
    ensures !NoneTouch(out)
  {
    NumbersChain(ops, g, i, j);
    assert Touch(out[g[i]], out[g[j]]);
  }

  lemma TouchGrouped(ops: seq<CopyOp>, out: seq<CopyOp>, g: seq<nat>, a: nat, b: nat)
    requires Numbers(ops, g) && PartsInside(ops, out, g) && PartsFill(ops, out, g)
    requires a < b < |out| && Touch(out[a], out[b])
    ensures !TouchOnlyInChains(ops)
  {
    var p := if out[a].srcAddr >= out[b].srcAddr then out[a].srcAddr else out[b].srcAddr;
    assert Reach(out[a], p) && Reach(out[b], p);
    assert ReachedBy(ops, g, a, p) && ReachedBy(ops, g, b, p);
    var i :| 0 <= i < |ops| && g[i] == a && Reach(ops[i], p);
    var j :| 0 <= j < |ops| && g[j] == b && Reach(ops[j], p);
    assert Inside(ops[i], out[a]) && Inside(ops[j], out[b]);
    NumbersOrder(ops, g, i, j);
    NumbersChain(ops, g, i, j);
    assert Touch(ops[i], ops[j]);
  }

  lemma NumbersOrder(ops: seq<CopyOp>, g: seq<nat>, i: nat, j: nat)
    requires Numbers(ops, g) && i < |ops| && j < |ops| && g[i] < g[j]
    ensures i < j
  {
    if j <= i {
      NumbersChain(ops, g, j, i);
    }
  }

  lemma {:induction false} MergePositive(ops: seq<CopyOp>)
    requires Positive(ops)
    ensures Positive(MergeAll(ops))
  {
    if ops != [] {
      MergePositive(ops[..|ops| - 1]);
    }
  }

  lemma SortPositive(ops: seq<CopyOp>)
    requires Positive(ops)
    ensures Positive(SortBySource(ops))
  {
    SortPermutes(ops);
    var sorted := SortBySource(ops);
    forall i | 0 <= i < |sorted| ensures sorted[i].size > 0 {
      assert sorted[i] in multiset(sorted);
      assert sorted[i] in ops;
    }
  }

  /** Merging leaves as few copies as there can be if and only if no merged copy is empty, as none
      is when no copy was, and, in source order, copies touch only within unbroken chains. */
  lemma CoalescedMinimalIff(ops: seq<CopyOp>)
    ensures Minimal(Coalesced(ops)) <==> Positive(Coalesced(ops)) && TouchOnlyInChains(SortBySource(ops))
    ensures Positive(ops) ==> Positive(Coalesced(ops))
  {
    var sorted, out := SortBySource(ops), Coalesced(ops);
    if Positive(ops) {
      SortPositive(ops);
      MergePositive(sorted);
    }
    MinimalIff(out);
    var g := MergeGroups(sorted);
    if !TouchOnlyInChains(sorted) {
      var i, j :| 0 <= i < j < |sorted| && Touch(sorted[i], sorted[j]) && !Chain(sorted, i, j);
      GroupedTouch(sorted, out, g, i, j);
    } else if !NoneTouch(out) {
      var a, b :| 0 <= a < b < |out| && Touch(out[a], out[b]);
      TouchGrouped(sorted, out, g, a, b);
    }
  }

  // ---- Disjoint sources ----

  predicate Before(a: CopyOp, b: CopyOp) {
    a.srcAddr + a.size <= b.srcAddr
  }

  /** The copies read pairwise disjoint stretches of the source. */
  ghost predicate DisjointSources(ops: seq<CopyOp>) {
    forall i, j | 0 <= i < j < |ops| :: Before(ops[i], ops[j]) || Before(ops[j], ops[i])
  }

  ghost predicate InSourceOrder(ops: seq<CopyOp>) {
    Positive(ops) && forall i, j | 0 <= i < j < |ops| :: Before(ops[i], ops[j])
  }

  /** The copy lies before or behind each of the others. */
  ghost predicate ApartFrom(op: CopyOp, ops: seq<CopyOp>) {
    forall k | 0 <= k < |ops| :: Before(op, ops[k]) || Before(ops[k], op)
  }

  lemma {:induction false} InsertOrders(op: CopyOp, sorted: seq<CopyOp>, low: nat)
    requires InSourceOrder(sorted) && op.size > 0 && low <= op.srcAddr
    requires ApartFrom(op, sorted) && forall k | 0 <= k < |sorted| :: low <= sorted[k].srcAddr
    ensures InSourceOrder(Insert(op, sorted))
    ensures forall k | 0 <= k < |Insert(op, sorted)| :: low <= Insert(op, sorted)[k].srcAddr
  {
    if sorted != [] && op.srcAddr >= sorted[0].srcAddr {
      assert Before(sorted[0], op);
      InsertOrders(op, sorted[1..], sorted[0].srcAddr + sorted[0].size);
    }
  }

  lemma LastApart(ops: seq<CopyOp>)
    requires ops != [] && DisjointSources(ops)
    ensures ApartFrom(ops[|ops| - 1], SortBySource(ops[..|ops| - 1]))
  {
    var n := |ops| - 1;
    var sorted := SortBySource(ops[..n]);
    SortPermutes(ops[..n]);
    forall k | 0 <= k < |sorted| ensures Before(ops[n], sorted[k]) || Before(sorted[k], ops[n]) {
      assert sorted[k] in multiset(sorted);
      assert sorted[k] in ops[..n];
    }
  }

  lemma {:induction false} SortOrders(ops: seq<CopyOp>)
    requires Positive(ops) && DisjointSources(ops)
    ensures InSourceOrder(SortBySource(ops))
  {
    if ops != [] {
      var n := |ops| - 1;
      var sorted := SortBySource(ops[..n]);
      SortOrders(ops[..n]);
      LastApart(ops);
      InsertOrders(ops[n], sorted, 0);
    }
  }

  ghost predicate EndsBy(ops: seq<CopyOp>, end: nat) {
    forall i | 0 <= i < |ops| :: ops[i].srcAddr + ops[i].size <= end
  }

  lemma PushOrders(out: seq<CopyOp>, op: CopyOp)
    requires InSourceOrder(out) && op.size > 0 && EndsBy(out, op.srcAddr)
    ensures InSourceOrder(Push(out, op)) && EndsBy(Push(out, op), op.srcAddr + op.size)
  {
    if out != [] && Adjoin(out[|out| - 1], op) {
      var n := |out| - 1;
      forall i | 0 <= i < n ensures Before(out[i], Push(out, op)[n]) {
        assert Before(out[i], out[n]);
      }
    }
  }

  lemma {:induction false} MergeOrders(ops: seq<CopyOp>, end: nat)
    requires InSourceOrder(ops) && EndsBy(ops, end)
    ensures InSourceOrder(MergeAll(ops)) && EndsBy(MergeAll(ops), end)
  {
    if ops != [] {
      var n := |ops| - 1;
      forall i | 0 <= i < n ensures ops[i].srcAddr + ops[i].size <= ops[n].srcAddr {
        assert Before(ops[i], ops[n]);
      }
      MergeOrders(ops[..n], ops[n].srcAddr);
      PushOrders(MergeAll(ops[..n]), ops[n]);
    }
  }

  lemma OrderedNoneTouch(ops: seq<CopyOp>)
    requires InSourceOrder(ops) && NoneAdjoin(ops)
    ensures NoneTouch(ops)
  {
    forall i, j | 0 <= i < j < |ops| ensures !Touch(ops[i], ops[j]) {
      assert Before(ops[i], ops[i + 1]) && !Adjoin(ops[i], ops[i + 1]);
      assert j > i + 1 ==> Before(ops[i + 1], ops[j]);
    }
  }

  function LastEnd(ops: seq<CopyOp>): nat {
    if ops == [] then 0 else ops[|ops| - 1].srcAddr + ops[|ops| - 1].size
  }

  /** If the copies read disjoint stretches, merging leaves as few of them as there can be. */
  lemma CoalescedMinimal(ops: seq<CopyOp>)
    requires Positive(ops) && DisjointSources(ops)
    ensures Minimal(Coalesced(ops))
  {
    SortOrders(ops);
    var sorted := SortBySource(ops);
    forall i | 0 <= i < |sorted| ensures sorted[i].srcAddr + sorted[i].size <= LastEnd(sorted) {
      assert i < |sorted| - 1 ==> Before(sorted[i], sorted[|sorted| - 1]);
    }
    MergeOrders(sorted, LastEnd(sorted));
    CoalescedKeeps(ops);
    OrderedNoneTouch(Coalesced(ops));
    MinimalIff(Coalesced(ops));
  }

  lemma {:induction false} InsertLast(op: CopyOp, sorted: seq<CopyOp>)
    requires forall k | 0 <= k < |sorted| :: sorted[k].srcAddr <= op.srcAddr
    ensures Insert(op, sorted) == sorted + [op]
  {
    if sorted != [] {
      InsertLast(op, sorted[1..]);
      assert sorted + [op] == [sorted[0]] + (sorted[1..] + [op]);
    }
  }

  /** Two destinations for one stretch of the source, one of them in two pieces: sorting puts
      the other between the pieces, nothing is merged, and two copies would have done. */
  lemma SharedSourceNotMinimal()
    ensures var ops := [CopyOp(0, 100, 4), CopyOp(0, 200, 4), CopyOp(4, 104, 4)];
            Positive(ops) && Coalesced(ops) == ops && !Minimal(ops)
  {
    var a, b, c := CopyOp(0, 100, 4), CopyOp(0, 200, 4), CopyOp(4, 104, 4);
    assert [a, b, c][..2] == [a, b] && [a, b][..1] == [a] && [a][..0] == [];
    InsertLast(a, []);
    InsertLast(b, [a]);
    InsertLast(c, [a, b]);
    assert SortBySource([a]) == [a];
    assert SortBySource([a, b]) == [a, b];
    assert SortBySource([a, b, c]) == [a, b, c];
    assert MergeAll([a]) == [a];
    assert MergeAll([a, b]) == [a, b];
    assert Touch([a, b, c][0], [a, b, c][2]);
    MinimalIff([a, b, c]);
  }
}
