/** What the frequency sketch reports after any run of touches, whatever the hash functions,
    the collisions and the decay policy. */
module SketchRuns {
  import opened SketchBits
  import opened Sketch

  /** A touch that happened, and whether it ended in a decay. */
  datatype Touched = Touched(key: Key, decayed: bool)

  function After(hash: Hash, policy: Policy, len: nat, touches: seq<Touch>): (s: SketchState)
    ensures |s.counts| == len && Shaped(s.counts)
  {
    if touches == [] then Empty(len)
    else Increment(hash, policy, After(hash, policy, len, touches[..|touches| - 1]), touches[|touches| - 1]).0
  }

  function Trace(hash: Hash, policy: Policy, len: nat, touches: seq<Touch>): seq<Touched> {
    if touches == [] then []
    else
      var before, t := touches[..|touches| - 1], touches[|touches| - 1];
      Trace(hash, policy, len, before) + [Touched(t.key,
                                                  Increment(hash, policy, After(hash, policy, len, before), t).1)]
  }

  /** How many of the cells are `cell`: a key may hit one cell from several rows. */
  function Hits(cells: seq<Cell>, cell: Cell): nat {
    if cells == [] then 0 else Hits(cells[..|cells| - 1], cell) + if cells[|cells| - 1] == cell then 1 else 0
  }

  function Decay(count: nat, decayed: bool): nat {
    if decayed then count / 2 else count
  }

  /** A count after the cells were hit: one more for each hit up to fifteen, halved by a decay. */
  function Counted(count: nat, cells: seq<Cell>, cell: Cell, decayed: bool): nat {
    Decay(AtMostFull(count + Hits(cells, cell)), decayed)
  }

  /** A cell's count by definition: every hit adds one up to fifteen, every decay halves. */
  function Tally(hash: Hash, len: nat, trace: seq<Touched>, cell: Cell): nat
    requires len > 0
  {
    if trace == [] then 0
    else
      var t := trace[|trace| - 1];
      Counted(Tally(hash, len, trace[..|trace| - 1], cell), CellsOf(hash, len, t.key), cell, t.decayed)
  }

  /** The count a key would have in a counter of its own. */
  function Ideal(trace: seq<Touched>, key: Key): nat {
    if trace == [] then 0
    else
      var t := trace[|trace| - 1];
      Decay(AtMostFull(Ideal(trace[..|trace| - 1], key) + if t.key == key then 1 else 0), t.decayed)
  }

  // ---- One touch, cell by cell ----

  ghost predicate WithinFull(counts: Counts)
    requires Shaped(counts)
  {
    forall cell | InTable(|counts|, cell) :: CountAt(counts, cell) <= FULL
  }

  lemma {:induction false} AddEachCount(counts: Counts, cells: seq<Cell>, cell: Cell)
    requires Shaped(counts) && WithinFull(counts) && AllIn(|counts|, cells) && InTable(|counts|, cell)
    ensures CountAt(AddEach(counts, cells), cell) == AtMostFull(CountAt(counts, cell) + Hits(cells, cell))
  {
    if cells != [] {
      AddEachCount(counts, cells[..|cells| - 1], cell);
    }
  }

  lemma HalveAllCount(counts: Counts, cell: Cell)
    requires Shaped(counts) && InTable(|counts|, cell)
    ensures CountAt(HalveAll(counts), cell) == CountAt(counts, cell) / 2
  {
    assert HalveAll(counts)[cell.word] == Halves(counts[cell.word]);
  }

  lemma SettledCount(counts: Counts, cells: seq<Cell>, cell: Cell, decayed: bool)
    requires Shaped(counts) && WithinFull(counts) && AllIn(|counts|, cells) && InTable(|counts|, cell)
    ensures var counts' := if decayed then HalveAll(AddEach(counts, cells)) else AddEach(counts, cells);
            && |counts'| == |counts| && Shaped(counts')
            && CountAt(counts', cell) == Counted(CountAt(counts, cell), cells, cell, decayed)
  {
    AddEachCount(counts, cells, cell);
    HalveAllCount(AddEach(counts, cells), cell);
  }

  /** The counters after a touch: the key's cells counted, and all halved if it decayed. */
  lemma IncrementCounts(hash: Hash, policy: Policy, s: SketchState, t: Touch)
    requires |s.counts| > 0 && Shaped(s.counts)
    ensures var (s', decayed) := Increment(hash, policy, s, t);
            var counts := AddEach(s.counts, CellsOf(hash, |s.counts|, t.key));
            s'.counts == if decayed then HalveAll(counts) else counts
  {
  }

  lemma IncrementCount(hash: Hash, policy: Policy, s: SketchState, t: Touch, cell: Cell)
    requires |s.counts| > 0 && Shaped(s.counts) && WithinFull(s.counts) && InTable(|s.counts|, cell)
    ensures var (s', decayed) := Increment(hash, policy, s, t);
            && |s'.counts| == |s.counts| && Shaped(s'.counts)
            && CountAt(s'.counts, cell)
               == Counted(CountAt(s.counts, cell), CellsOf(hash, |s.counts|, t.key), cell, decayed)
  {
    IncrementCounts(hash, policy, s, t);
    SettledCount(s.counts, CellsOf(hash, |s.counts|, t.key), cell, Increment(hash, policy, s, t).1);
  }

  // ---- Runs ----

  lemma TallyOneMore(hash: Hash, len: nat, trace: seq<Touched>, t: Touched, cell: Cell)
    requires len > 0
    ensures Tally(hash, len, trace + [t], cell)
            == Counted(Tally(hash, len, trace, cell), CellsOf(hash, len, t.key), cell, t.decayed) <= FULL
  {
    assert (trace + [t])[..|trace|] == trace;
  }

  lemma TallyStep(hash: Hash, policy: Policy, s: SketchState, trace: seq<Touched>, t: Touch, cell: Cell)
    requires |s.counts| > 0 && Shaped(s.counts) && WithinFull(s.counts) && InTable(|s.counts|, cell)
    requires CountAt(s.counts, cell) == Tally(hash, |s.counts|, trace, cell)
    ensures var (s', decayed) := Increment(hash, policy, s, t);
            && |s'.counts| == |s.counts| && Shaped(s'.counts)
            && CountAt(s'.counts, cell) == Tally(hash, |s.counts|, trace + [Touched(t.key, decayed)], cell) <= FULL
  {
    IncrementCount(hash, policy, s, t, cell);
    TallyOneMore(hash, |s.counts|, trace, Touched(t.key, Increment(hash, policy, s, t).1), cell);
  }

  lemma AfterWithinFull(hash: Hash, policy: Policy, len: nat, touches: seq<Touch>)
    ensures WithinFull(After(hash, policy, len, touches).counts)
    decreases |touches|, 1
  {
    forall cell | InTable(len, cell) ensures CountAt(After(hash, policy, len, touches).counts, cell) <= FULL {
      CellTally(hash, policy, len, touches, cell);
    }
  }

  /** In every run each counter holds exactly the hits of its cell, capped at fifteen and
      halved at every decay. */
  lemma {:induction false} CellTally(hash: Hash, policy: Policy, len: nat, touches: seq<Touch>, cell: Cell)
    requires InTable(len, cell)
    ensures CountAt(After(hash, policy, len, touches).counts, cell) ==
        Tally(hash, len, Trace(hash, policy, len, touches), cell) <= FULL
    decreases |touches|, 0
  {
    if touches != [] {
      var before := touches[..|touches| - 1];
      AfterWithinFull(hash, policy, len, before);
      CellTally(hash, policy, len, before, cell);
      TallyStep(hash, policy, After(hash, policy, len, before), Trace(hash, policy, len, before),
                touches[|touches| - 1], cell);
    }
  }

  lemma {:induction false} HitsSome(cells: seq<Cell>, row: nat)
    requires row < |cells|
    ensures Hits(cells, cells[row]) >= 1
  {
    if row < |cells| - 1 {
      HitsSome(cells[..|cells| - 1], row);
    }
  }

  lemma {:induction false} TallyAtLeastIdeal(hash: Hash, len: nat, trace: seq<Touched>, key: Key, row: nat)
    requires len > 0 && row < ROWS
    ensures Ideal(trace, key) <= Tally(hash, len, trace, CellOf(hash, len, key, row))
    ensures Ideal(trace, key) <= FULL
  {
    if trace != [] {
      TallyAtLeastIdeal(hash, len, trace[..|trace| - 1], key, row);
      HitsSome(CellsOf(hash, len, key), row);
    }
  }

  /** Some row of `key` lands in a cell that no other row of it and no other touched key uses. */
  ghost predicate HasOwnCell(hash: Hash, len: nat, trace: seq<Touched>, key: Key, row: nat)
    requires len > 0 && row < ROWS
  {
    var cell := CellOf(hash, len, key, row);
    && Hits(CellsOf(hash, len, key), cell) == 1
    && forall t <- trace :: t.key != key ==> Hits(CellsOf(hash, len, t.key), cell) == 0
  }

  lemma {:induction false} TallyOfOwnCell(hash: Hash, len: nat, trace: seq<Touched>, key: Key, row: nat)
    requires len > 0 && row < ROWS && HasOwnCell(hash, len, trace, key, row)
    ensures Tally(hash, len, trace, CellOf(hash, len, key, row)) == Ideal(trace, key)
  {
    if trace != [] {
      TallyOfOwnCell(hash, len, trace[..|trace| - 1], key, row);
    }
  }

  lemma {:induction false} LeastBounds(counts: Counts, cells: seq<Cell>, bound: nat)
    requires Shaped(counts) && AllIn(|counts|, cells) && bound < U32
    ensures forall row | 0 <= row < |cells| :: Least(counts, cells) <= CountAt(counts, cells[row])
    ensures (forall row | 0 <= row < |cells| :: bound <= CountAt(counts, cells[row])) ==> bound <= Least(counts, cells)
  {
    if cells != [] {
      LeastBounds(counts, cells[..|cells| - 1], bound);
      var last := |cells| - 1;
      assert forall row | 0 <= row < last :: cells[..last][row] == cells[row];
    }
  }

  /** The estimate of a key is never below its ideal count, and never above fifteen. */
  lemma EstimateAtLeastIdeal(hash: Hash, policy: Policy, len: nat, touches: seq<Touch>, key: Key)
    requires len > 0
    ensures Ideal(Trace(hash, policy, len, touches), key) <=
        Estimate(hash, After(hash, policy, len, touches).counts, key) <= FULL
  {
    var counts, trace, cells := After(hash, policy, len, touches).counts, Trace(hash, policy, len, touches),
      CellsOf(hash, len, key);
    forall row | 0 <= row < ROWS ensures Ideal(trace, key) <= CountAt(counts, cells[row]) <= FULL {
      CellTally(hash, policy, len, touches, cells[row]);
      TallyAtLeastIdeal(hash, len, trace, key, row);
    }
    LeastBounds(counts, cells, Ideal(trace, key));
    assert Least(counts, cells) <= CountAt(counts, cells[0]);
  }

  /** If one of a key's cells is its own, the estimate is exactly the ideal count. */
  lemma EstimateExact(hash: Hash, policy: Policy, len: nat, touches: seq<Touch>, key: Key, row: nat)
    requires len > 0 && row < ROWS && HasOwnCell(hash, len, Trace(hash, policy, len, touches), key, row)
    ensures Estimate(hash, After(hash, policy, len, touches).counts, key) ==
        Ideal(Trace(hash, policy, len, touches), key)
  {
    var counts, cells := After(hash, policy, len, touches).counts, CellsOf(hash, len, key);
    EstimateAtLeastIdeal(hash, policy, len, touches, key);
    CellTally(hash, policy, len, touches, cells[row]);
    TallyOfOwnCell(hash, len, Trace(hash, policy, len, touches), key, row);
    LeastBounds(counts, cells, 0);
    assert Least(counts, cells) <= CountAt(counts, cells[row]);
  }

  lemma IncrementSize(hash: Hash, sampleSize: nat, s: SketchState, t: Touch)
    requires Shaped(s.counts) && s.size < (if sampleSize > 1 then sampleSize else 1) < U32
    ensures Increment(hash, Fixed(sampleSize), s, t).0.size < if sampleSize > 1 then sampleSize else 1
  {
    assert Wrap32(s.size + 1) == s.size + 1;
  }

  /** Under a fixed threshold the increment counter stays below it, so adding one to it
      never leaves 32 bits. */
  lemma {:induction false} SizeStaysBelowSample(hash: Hash, sampleSize: nat, len: nat, touches: seq<Touch>)
    requires sampleSize < U32
    ensures After(hash, Fixed(sampleSize), len, touches).size < if sampleSize > 1 then sampleSize else 1
    ensures After(hash, Fixed(sampleSize), len, touches).size + 1 < U32
  {
    if touches != [] {
      var before := touches[..|touches| - 1];
      SizeStaysBelowSample(hash, sampleSize, len, before);
      IncrementSize(hash, sampleSize, After(hash, Fixed(sampleSize), len, before), touches[|touches| - 1]);
    }
  }

  /** So with the threshold taken from a capacity, however large, no count is ever lost. */
  lemma CapacityNeverOverflows(hash: Hash, capacity: nat, len: nat, touches: seq<Touch>)
    ensures After(hash, CapacityPolicy(capacity), len, touches).size + 1 < U32
  {
    SizeStaysBelowSample(hash, CapacityPolicy(capacity).sampleSize, len, touches);
  }
}
