/** The frequency sketch: four hashed counters per key, packed sixteen to a word, all halved
    whenever the decay policy asks for it. */
module Sketch {
  import opened SketchBits

  const U32 := 0x1_0000_0000
  const ROWS := 4

  type Key = nat

  /** The 64-bit hash of a key for each row, as a number; any function will do. */
  type Hash = (Key, nat) -> nat

  /** One counter: a word of the table and one of its sixteen slots. */
  datatype Cell = Cell(word: nat, slot: nat)

  /** The counters of every word. */
  type Counts = seq<seq<nat>>

  /** A fixed threshold, or a policy of the caller's that answers as it likes. */
  datatype Policy = Fixed(sampleSize: nat) | Custom

  datatype SketchState = SketchState(counts: Counts, size: nat)

  /** A touch of a key; `answer` is what a custom policy replies if it is asked. */
  datatype Touch = Touch(key: Key, answer: bool)

  function Min(a: nat, b: nat): nat { if a < b then a else b }

  /** Addition on 32-bit counters wraps around. */
  function Wrap32(n: nat): nat { n % U32 }

  function SaturatingSub(a: nat, b: nat): nat { if a < b then 0 else a - b }

  /** The default threshold: ten increments per block of capacity, within 32 bits. */
  function CapacityPolicy(capacity: nat): Policy {
    Fixed(Min(capacity * 10, U32 - 1))
  }

  function ShouldDecay(policy: Policy, size: nat, answer: bool): bool {
    match policy
    case Fixed(sampleSize) => size >= sampleSize
    case Custom => answer
  }

  ghost predicate Shaped(counts: Counts) {
    forall i | 0 <= i < |counts| :: |counts[i]| == 16
  }

  predicate InTable(len: nat, cell: Cell) {
    cell.word < len && cell.slot < 16
  }

  /** The word is the hash modulo the table length, the slot its four lowest bits. */
  function CellOf(hash: Hash, len: nat, key: Key, row: nat): (cell: Cell)
    requires len > 0
    ensures InTable(len, cell)
  {
    Cell(hash(key, row) % len, hash(key, row) % 16)
  }

  ghost predicate AllIn(len: nat, cells: seq<Cell>) {
    forall c <- cells :: InTable(len, c)
  }

  /** The cells a key is counted in, one per row. */
  function CellsOf(hash: Hash, len: nat, key: Key): (cells: seq<Cell>)
    requires len > 0
    ensures |cells| == ROWS && AllIn(len, cells)
    ensures forall row | 0 <= row < ROWS :: cells[row] == CellOf(hash, len, key, row)
  {
    seq(ROWS, row requires 0 <= row < ROWS => CellOf(hash, len, key, row))
  }

  function CountAt(counts: Counts, cell: Cell): nat
    requires Shaped(counts) && InTable(|counts|, cell)
  {
    counts[cell.word][cell.slot]
  }

  function AddAt(counts: Counts, cell: Cell): (counts': Counts)
    requires Shaped(counts) && InTable(|counts|, cell)
    ensures |counts'| == |counts| && Shaped(counts')
  {
    counts[cell.word := AddOne(counts[cell.word], cell.slot)]
  }

  /** One count at each of the cells in turn. */
  function AddEach(counts: Counts, cells: seq<Cell>): (counts': Counts)
    requires Shaped(counts) && AllIn(|counts|, cells)
    ensures |counts'| == |counts| && Shaped(counts')
  {
    if cells == [] then counts else AddAt(AddEach(counts, cells[..|cells| - 1]), cells[|cells| - 1])
  }

  /** Whether any of the cells had room below fifteen when its turn came. */
  predicate AnyRoom(counts: Counts, cells: seq<Cell>)
    requires Shaped(counts) && AllIn(|counts|, cells)
  {
    cells != [] &&
    var before := cells[..|cells| - 1];
    AnyRoom(counts, before) || CountAt(AddEach(counts, before), cells[|cells| - 1]) < FULL
  }

  lemma AddOneMore(counts: Counts, cells: seq<Cell>, row: nat)
    requires Shaped(counts) && AllIn(|counts|, cells) && row < |cells|
    ensures AddEach(counts, cells[..row + 1]) == AddAt(AddEach(counts, cells[..row]), cells[row])
    ensures AnyRoom(counts, cells[..row + 1]) <==>
        AnyRoom(counts, cells[..row]) || CountAt(AddEach(counts, cells[..row]), cells[row]) < FULL
  {
    assert cells[..row + 1][..row] == cells[..row];
  }

  /** How many counters are odd, added up in 32-bit arithmetic. */
  function OddInTable(counts: Counts): nat {
    if counts == [] then 0 else Wrap32(OddInTable(counts[..|counts| - 1]) + Odd(counts[|counts| - 1]))
  }

  function HalveAll(counts: Counts): (counts': Counts)
    ensures |counts'| == |counts| && (Shaped(counts) ==> Shaped(counts'))
  {
    seq(|counts|, i requires 0 <= i < |counts| => Halves(counts[i]))
  }

  function Reset(s: SketchState): SketchState {
    SketchState(HalveAll(s.counts), SaturatingSub(s.size / 2, OddInTable(s.counts) / 4))
  }

  function Zeros(len: nat): (counts: Counts)
    ensures |counts| == len && Shaped(counts)
    ensures forall i, k | 0 <= i < len && 0 <= k < 16 :: counts[i][k] == 0
  {
    seq(len, i => seq(16, k => 0))
  }

  function Empty(len: nat): SketchState {
    SketchState(Zeros(len), 0)
  }

  function Settle(policy: Policy, s: SketchState, answer: bool): (SketchState, bool) {
    if ShouldDecay(policy, s.size, answer) then (Reset(s), true) else (s, false)
  }

  /** One touch: the new sketch, and whether it decayed. */
  function Increment(hash: Hash, policy: Policy, s: SketchState, t: Touch): (SketchState, bool)
    requires Shaped(s.counts)
  {
    if s.counts == [] then (s, false)
    else
      var cells := CellsOf(hash, |s.counts|, t.key);
      var counts := AddEach(s.counts, cells);
      if !AnyRoom(s.counts, cells) then (s.(counts := counts), false)
      else
        Settle(policy, SketchState(counts, Wrap32(s.size + 1)), t.answer)
  }

  /** The smallest count among the cells. */
  function Least(counts: Counts, cells: seq<Cell>): nat
    requires Shaped(counts) && AllIn(|counts|, cells)
  {
    if cells == [] then U32 - 1
    else Min(Least(counts, cells[..|cells| - 1]), CountAt(counts, cells[|cells| - 1]))
  }

  function Estimate(hash: Hash, counts: Counts, key: Key): nat
    requires Shaped(counts)
  {
    if counts == [] then 0 else Least(counts, CellsOf(hash, |counts|, key))
  }

  /** Halving one more word of a half-done table. */
  lemma HalveOneMore(was: Counts, i: nat)
    requires i < |was|
    ensures (HalveAll(was[..i]) + was[i..])[i] == was[i]
    ensures (HalveAll(was[..i]) + was[i..])[i := Halves(was[i])] == HalveAll(was[..i + 1]) + was[i + 1..]
  {
    assert was[i..] == [was[i]] + was[i + 1..];
    assert HalveAll(was[..i + 1]) == HalveAll(was[..i]) + [Halves(was[i])];
  }

  lemma OddOneMore(was: Counts, i: nat, sum: nat, odd: nat)
    requires i < |was| && sum == OddInTable(was[..i]) && odd == Odd(was[i])
    ensures OddInTable(was[..i + 1]) == Wrap32(sum + odd)
  {
    assert was[..i + 1][..i] == was[..i];
  }

  // ---- The packed table ----

  class TinyLfuSketch {
    const hash: Hash
    const policy: Policy
    var table: array<bv64>
    var size: nat
    ghost var counts: Counts

    /** `counts` is the packed table read out counter by counter. */
    ghost predicate Valid()
      reads this, table
    {
      && |counts| == table.Length
      && Shaped(counts)
      && forall i | 0 <= i < table.Length :: counts[i] == Unpack(table[i])
    }

    /** The table has a quarter of the capacity in words, and at least one. */
    constructor (hash: Hash, policy: Policy, capacity: nat)
      ensures Valid() && fresh(table) && this.hash == hash && this.policy == policy
      ensures SketchState(counts, size) == Empty(if capacity / 4 > 1 then capacity / 4 else 1)
    {
      this.hash, this.policy, this.size := hash, policy, 0;
      var len := if capacity / 4 > 1 then capacity / 4 else 1;
      table := new bv64[len](i => 0);
      counts := Zeros(len);
      ZeroUnpacked();
    }

    method Load(i: nat) returns (word: bv64)
      requires Valid() && i < table.Length
      ensures Unpack(word) == counts[i]
    {
      word := table[i];
    }

    method Put(i: nat, word: bv64)
      requires Valid() && i < table.Length
      modifies this`counts, table
      ensures Valid() && counts == old(counts)[i := Unpack(word)]
    {
      table[i] := word;
      counts := counts[i := Unpack(word)];
    }

    method IncrementAt(cell: Cell) returns (added: bool)
      requires Valid() && InTable(table.Length, cell)
      modifies this`counts, table
      ensures Valid() && counts == AddAt(old(counts), cell)
      ensures added <==> CountAt(old(counts), cell) < FULL
    {
      var word := Load(cell.word);
      word, added := BumpWord(word, cell.slot);
      Put(cell.word, word);
    }

    method BumpAllRows(key: Key) returns (added: bool)
      requires Valid() && table.Length > 0
      modifies this`counts, table
      ensures Valid() && counts == AddEach(old(counts), CellsOf(hash, table.Length, key))
      ensures added <==> AnyRoom(old(counts), CellsOf(hash, table.Length, key))
    {
      ghost var cells := CellsOf(hash, table.Length, key);
      added := false;
      for row := 0 to ROWS
        invariant Valid() && counts == AddEach(old(counts), cells[..row])
        invariant added <==> AnyRoom(old(counts), cells[..row])
      {
        AddOneMore(old(counts), cells, row);
        var room := IncrementAt(CellOf(hash, table.Length, key, row));
        added := added || room;
      }
      assert cells[..ROWS] == cells;
    }

    method ResetCounters()
      requires Valid()
      modifies this`size, this`counts, table
      ensures Valid() && SketchState(counts, size) == Reset(SketchState(old(counts), old(size)))
    {
      var count := HalveTable();
      size := SaturatingSub(size / 2, count / 4);
    }

    method HalveAt(i: nat) returns (odd: nat)
      requires Valid() && i < table.Length
      modifies this`counts, table
      ensures Valid() && counts == old(counts)[i := Halves(old(counts)[i])]
      ensures odd == Odd(old(counts)[i])
    {
      var word := Load(i);
      word, odd := HalveWord(word);
      Put(i, word);
    }

    method HalveTable() returns (odd: nat)
      requires Valid()
      modifies this`counts, table
      ensures Valid() && counts == HalveAll(old(counts)) && odd == OddInTable(old(counts))
    {
      ghost var was := counts;
      odd := 0;
      for i := 0 to table.Length
        invariant Valid() && counts == HalveAll(was[..i]) + was[i..]
        invariant odd == OddInTable(was[..i])
      {
        HalveOneMore(was, i);
        var ones := HalveAt(i);
        OddOneMore(was, i, odd, ones);
        odd := Wrap32(odd + ones);
      }
      assert was[..table.Length] == was && was[table.Length..] == [];
    }

    method IncrementKey(key: Key, answer: bool) returns (ghost decayed: bool)
      requires Valid()
      modifies this`size, this`counts, table
      ensures Valid()
      ensures (SketchState(counts, size), decayed)
              == Increment(hash, policy, SketchState(old(counts), old(size)), Touch(key, answer))
    {
      decayed := false;
      if table.Length == 0 {
        return;
      }
      var added := BumpAllRows(key);
      if added {
        size := Wrap32(size + 1);
        decayed := DecayIfDue(answer);
      }
    }

    method DecayIfDue(answer: bool) returns (ghost decayed: bool)
      requires Valid()
      modifies this`size, this`counts, table
      ensures Valid()
      ensures (SketchState(counts, size), decayed) == Settle(policy, SketchState(old(counts), old(size)), answer)
    {
      decayed := false;
      if ShouldDecay(policy, size, answer) {
        ResetCounters();
        decayed := true;
      }
    }

    method EstimateKey(key: Key) returns (minCount: nat)
      requires Valid()
      ensures minCount == Estimate(hash, counts, key)
    {
      if table.Length == 0 {
        return 0;
      }
      ghost var cells := CellsOf(hash, table.Length, key);
      minCount := U32 - 1;
      for row := 0 to ROWS
        invariant minCount == Least(counts, cells[..row])
      {
        var cell := CellOf(hash, table.Length, key, row);
        var word := Load(cell.word);
        minCount := Min(minCount, Unpack(word)[cell.slot]);
        assert cells[..row + 1][..row] == cells[..row];
      }
      assert cells[..ROWS] == cells;
    }
  }
}
