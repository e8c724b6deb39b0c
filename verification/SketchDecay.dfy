/** When the sketch decays, and what that leaves: under a fixed threshold the first decay comes with
    the threshold's own count of counted touches, and not before. */
module SketchDecay {
  import opened SketchBits
  import opened Sketch
  import opened SketchRuns

  // ---- Which touches count ----

  /** Some counter of the key is below fifteen. */
  ghost predicate HasRoom(hash: Hash, counts: Counts, key: Key)
    requires Shaped(counts)
  {
    |counts| > 0 && exists row | 0 <= row < ROWS :: CountAt(counts, CellOf(hash, |counts|, key, row)) < 15
  }

  ghost predicate SomeBelow(counts: Counts, cells: seq<Cell>)
    requires Shaped(counts) && AllIn(|counts|, cells)
  {
    exists i | 0 <= i < |cells| :: CountAt(counts, cells[i]) < 15
  }

  lemma {:induction false} AddedAtLeast(counts: Counts, cells: seq<Cell>, cell: Cell)
    requires Shaped(counts) && WithinFull(counts) && AllIn(|counts|, cells) && InTable(|counts|, cell)
    ensures CountAt(counts, cell) <= CountAt(AddEach(counts, cells), cell)
    ensures (forall i | 0 <= i < |cells| :: cells[i] != cell) ==>
              CountAt(AddEach(counts, cells), cell) == CountAt(counts, cell)
  {
    if cells != [] {
      AddedAtLeast(counts, cells[..|cells| - 1], cell);
    }
  }

  lemma SomeBelowSplit(counts: Counts, cells: seq<Cell>)
    requires Shaped(counts) && AllIn(|counts|, cells) && cells != []
    ensures var n := |cells| - 1;
            SomeBelow(counts, cells) <==> SomeBelow(counts, cells[..n]) || CountAt(counts, cells[n]) < 15
  {
    var n := |cells| - 1;
    if i :| 0 <= i < n && CountAt(counts, cells[..n][i]) < 15 {
      assert CountAt(counts, cells[i]) < 15;
    }
    if i :| 0 <= i < n && CountAt(counts, cells[i]) < 15 {
      assert CountAt(counts, cells[..n][i]) < 15;
    }
  }

  /** Counting a key's cells in turn meets room exactly if one of them had room to begin with. */
  lemma {:induction false} AnyRoomIff(counts: Counts, cells: seq<Cell>)
    requires Shaped(counts) && WithinFull(counts) && AllIn(|counts|, cells)
    ensures AnyRoom(counts, cells) <==> SomeBelow(counts, cells)
  {
    if cells != [] {
      var n := |cells| - 1;
      AnyRoomIff(counts, cells[..n]);
      AddedAtLeast(counts, cells[..n], cells[n]);
      SomeBelowSplit(counts, cells);
      assert !SomeBelow(counts, cells[..n]) && CountAt(counts, cells[n]) < 15 ==>
          forall i | 0 <= i < n :: cells[..n][i] != cells[n];
    }
  }

  lemma RoomIff(hash: Hash, counts: Counts, key: Key)
    requires Shaped(counts) && WithinFull(counts) && |counts| > 0
    ensures AnyRoom(counts, CellsOf(hash, |counts|, key)) <==> HasRoom(hash, counts, key)
  {
    var cells := CellsOf(hash, |counts|, key);
    AnyRoomIff(counts, cells);
    if i :| 0 <= i < |cells| && CountAt(counts, cells[i]) < 15 {
      assert CountAt(counts, CellOf(hash, |counts|, key, i)) < 15;
    }
    if HasRoom(hash, counts, key) {
      var row :| 0 <= row < ROWS && CountAt(counts, CellOf(hash, |counts|, key, row)) < 15;
      assert CountAt(counts, cells[row]) < 15;
    }
  }

  // ---- When a touch decays ----

  /** What a custom policy replies, or a fixed threshold asks for. */
  ghost predicate Due(policy: Policy, size: nat, answer: bool) {
    if policy.Custom? then answer else policy.sampleSize <= size
  }

  /** A touch decays if and only if some counter of its key had room, and the policy finds it due at
      the size it leads to; without room it changes no size. */
  lemma DecaysIff(hash: Hash, policy: Policy, s: SketchState, t: Touch)
    requires Shaped(s.counts) && WithinFull(s.counts) && s.size + 1 < U32
    ensures var (s', decayed) := Increment(hash, policy, s, t);
            && (decayed <==> HasRoom(hash, s.counts, t.key) && Due(policy, s.size + 1, t.answer))
            && (!decayed ==> s'.size == s.size + if HasRoom(hash, s.counts, t.key) then 1 else 0)
  {
    if |s.counts| > 0 {
      RoomIff(hash, s.counts, t.key);
    }
  }

  /** In every run under a fixed threshold a touch decays if and only if some counter of its key had
      room and the size before it, plus one, reaches the threshold. */
  lemma RunDecaysIff(hash: Hash, n: nat, len: nat, before: seq<Touch>, t: Touch)
    requires n < U32
    ensures var s := After(hash, Fixed(n), len, before);
            Increment(hash, Fixed(n), s, t).1 <==> HasRoom(hash, s.counts, t.key) && s.size + 1 >= n
  {
    AfterWithinFull(hash, Fixed(n), len, before);
    SizeStaysBelowSample(hash, n, len, before);
    DecaysIff(hash, Fixed(n), After(hash, Fixed(n), len, before), t);
  }

  /** How many touches of a run met room. */
  ghost function CountedIn(hash: Hash, policy: Policy, len: nat, touches: seq<Touch>): nat {
    if touches == [] then 0
    else
      var before, t := touches[..|touches| - 1], touches[|touches| - 1];
      CountedIn(hash, policy, len, before)
      + if HasRoom(hash, After(hash, policy, len, before).counts, t.key) then 1 else 0
  }

  ghost predicate NoDecay(trace: seq<Touched>) {
    forall i | 0 <= i < |trace| :: !trace[i].decayed
  }

  function AtLeastOne(n: nat): nat {
    if n > 1 then n else 1
  }

  lemma NoDecayBefore(trace: seq<Touched>)
    requires trace != []
    ensures NoDecay(trace) <==> NoDecay(trace[..|trace| - 1]) && !trace[|trace| - 1].decayed
  {
  }

  /** In every run under a fixed threshold: as long as nothing decayed, the size is the number of
      counted touches, and that is below the threshold. */
  lemma {:induction false} SizeCountsTouches(hash: Hash, n: nat, len: nat, touches: seq<Touch>)
    requires n < U32 && NoDecay(Trace(hash, Fixed(n), len, touches))
    ensures After(hash, Fixed(n), len, touches).size == CountedIn(hash, Fixed(n), len, touches) < AtLeastOne(n)
  {
    if touches != [] {
      var before, t := touches[..|touches| - 1], touches[|touches| - 1];
      var s := After(hash, Fixed(n), len, before);
      assert Trace(hash, Fixed(n), len, touches)[..|touches| - 1] == Trace(hash, Fixed(n), len, before) by {
        TraceLength(hash, Fixed(n), len, before);
      }
      NoDecayBefore(Trace(hash, Fixed(n), len, touches));
      SizeCountsTouches(hash, n, len, before);
      AfterWithinFull(hash, Fixed(n), len, before);
      SizeStaysBelowSample(hash, n, len, before);
      DecaysIff(hash, Fixed(n), s, t);
    }
  }

  lemma {:induction false} TraceLength(hash: Hash, policy: Policy, len: nat, touches: seq<Touch>)
    ensures |Trace(hash, policy, len, touches)| == |touches|
  {
    if touches != [] {
      TraceLength(hash, policy, len, touches[..|touches| - 1]);
    }
  }

  /** So the first decay of a run is exactly the touch that brings the counted ones to the threshold,
      or to one. */
  lemma FirstDecay(hash: Hash, n: nat, len: nat, before: seq<Touch>, t: Touch)
    requires n < U32 && NoDecay(Trace(hash, Fixed(n), len, before))
    ensures Increment(hash, Fixed(n), After(hash, Fixed(n), len, before), t).1 <==>
            HasRoom(hash, After(hash, Fixed(n), len, before).counts, t.key) &&
              CountedIn(hash, Fixed(n), len, before) + 1 == AtLeastOne(n)
  {
    SizeCountsTouches(hash, n, len, before);
    AfterWithinFull(hash, Fixed(n), len, before);
    SizeStaysBelowSample(hash, n, len, before);
    DecaysIff(hash, Fixed(n), After(hash, Fixed(n), len, before), t);
  }

  /** With the threshold taken from a capacity: ten counted touches per block, within 32 bits. */
  lemma FirstDecayOfCapacity(hash: Hash, capacity: nat, len: nat, before: seq<Touch>, t: Touch)
    requires NoDecay(Trace(hash, CapacityPolicy(capacity), len, before))
    ensures var policy := CapacityPolicy(capacity);
            Increment(hash, policy, After(hash, policy, len, before), t).1 <==>
              && HasRoom(hash, After(hash, policy, len, before).counts, t.key)
              && CountedIn(hash, policy, len, before) + 1 ==
                 if capacity == 0 then 1 else if 10 * capacity < 0xFFFF_FFFF then 10 * capacity else 0xFFFF_FFFF
  {
    FirstDecay(hash, CapacityPolicy(capacity).sampleSize, len, before, t);
  }

  // ---- Estimates before any decay ----

  function Touches(trace: seq<Touched>, key: Key): nat {
    if trace == [] then 0
    else Touches(trace[..|trace| - 1], key) + if trace[|trace| - 1].key == key then 1 else 0
  }

  lemma {:induction false} IdealUndecayed(trace: seq<Touched>, key: Key)
    requires NoDecay(trace)
    ensures Ideal(trace, key) == if Touches(trace, key) < 15 then Touches(trace, key) else 15
  {
    if trace != [] {
      NoDecayBefore(trace);
      IdealUndecayed(trace[..|trace| - 1], key);
    }
  }

  /** Before any decay, a key with a cell of its own is estimated at its number of touches, up to
      fifteen; and every key at no less. */
  lemma EstimateUndecayed(hash: Hash, policy: Policy, len: nat, touches: seq<Touch>, key: Key)
    requires len > 0 && NoDecay(Trace(hash, policy, len, touches))
    ensures var k := Touches(Trace(hash, policy, len, touches), key);
            var estimate := Estimate(hash, After(hash, policy, len, touches).counts, key);
            && estimate >= (if k < 15 then k else 15)
            && ((exists row | 0 <= row < ROWS :: HasOwnCell(hash, len, Trace(hash, policy, len, touches), key, row)) ==>
                  estimate == if k < 15 then k else 15)
  {
    IdealUndecayed(Trace(hash, policy, len, touches), key);
    EstimateAtLeastIdeal(hash, policy, len, touches, key);
    if row :| 0 <= row < ROWS && HasOwnCell(hash, len, Trace(hash, policy, len, touches), key, row) {
      EstimateExact(hash, policy, len, touches, key, row);
    }
  }

  // ---- Cells and resets ----

  /** A sketch without a table stays as it is and estimates nothing. */
  lemma NoTable(hash: Hash, policy: Policy, size: nat, t: Touch)
    ensures Increment(hash, policy, SketchState([], size), t) == (SketchState([], size), false)
    ensures Estimate(hash, [], t.key) == 0
  {
  }

  /** Two rows meet in one cell exactly if their hashes agree modulo the table length and modulo
      sixteen. */
  lemma SharedCellIff(hash: Hash, len: nat, key: Key, row: nat, key': Key, row': nat)
    requires len > 0
    ensures CellOf(hash, len, key, row) == CellOf(hash, len, key', row') <==>
            hash(key, row) % len == hash(key', row') % len && hash(key, row) % 16 == hash(key', row') % 16
  {
  }

  /** The odd counters of all words together. */
  function OddTotal(counts: Counts): nat {
    if counts == [] then 0 else OddTotal(counts[..|counts| - 1]) + Odd(counts[|counts| - 1])
  }

  lemma {:induction false} OddInTableIs(counts: Counts)
    ensures OddInTable(counts) == OddTotal(counts) % U32
  {
    if counts != [] {
      OddInTableIs(counts[..|counts| - 1]);
      WrapAdd(OddTotal(counts[..|counts| - 1]), Odd(counts[|counts| - 1]));
    }
  }

  lemma WrapAdd(a: nat, b: nat)
    ensures (a % U32 + b) % U32 == (a + b) % U32
  {
  }

  /** A reset halves every counter, and leaves half the size less a quarter of the odd counters (counted
      in 32 bits), but not below zero. */
  lemma ResetIs(s: SketchState, cell: Cell)
    requires Shaped(s.counts) && InTable(|s.counts|, cell)
    ensures |Reset(s).counts| == |s.counts| && Shaped(Reset(s).counts)
    ensures CountAt(Reset(s).counts, cell) == CountAt(s.counts, cell) / 2
    ensures var half, quarter := s.size / 2, OddTotal(s.counts) % U32 / 4;
            Reset(s).size == if half < quarter then 0 else half - quarter
  {
    OddInTableIs(s.counts);
    HalveAllCount(s.counts, cell);
  }
}
