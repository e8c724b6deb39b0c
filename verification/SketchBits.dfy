/** Sixteen four-bit counters in one 64-bit word, as the frequency sketch packs them. */
module SketchBits {
  const RESET_MASK: bv64 := 0x7777_7777_7777_7777
  const ONE_MASK: bv64 := 0x1111_1111_1111_1111
  const FULL := 15

  function Mask(slot: bv64): bv64
    requires slot < 16
  {
    0xF << (slot * 4)
  }

  function Nibble(word: bv64, slot: bv64): bv64
    requires slot < 16
  {
    (word & Mask(slot)) >> (slot * 4)
  }

  function Counter(word: bv64, slot: bv64): nat
    requires slot < 16
  {
    Nibble(word, slot) as nat
  }

  predicate HasRoom(word: bv64, slot: bv64)
    requires slot < 16
  {
    word & Mask(slot) != Mask(slot)
  }

  /** Adds one to the counter at `slot` unless all its bits are set. */
  function Bump(word: bv64, slot: bv64): bv64
    requires slot < 16
  {
    if HasRoom(word, slot) then word + (1 << (slot * 4)) else word
  }

  /** The decay step: shift the whole word and mask off what crossed a counter boundary. */
  function Halve(word: bv64): bv64 {
    (word >> 1) & RESET_MASK
  }

  function AtMostFull(n: nat): nat {
    if n < FULL then n else FULL
  }

  lemma SmallSuccessor(x: bv64, y: bv64)
    requires x < 15 && y == x + 1
    ensures y as nat == x as nat + 1 < 16
  {
  }

  /** A slot number as a bit vector. */
  function SlotAt(k: nat): (slot: bv64)
    requires k < 16
    ensures slot < 16 && slot as nat == k
  {
    if k == 0 then 0
    else
      var before := SlotAt(k - 1);
      SmallBound(before);
      SmallSuccessor(before, before + 1);
      before + 1
  }

  // ---- Counting up ----

  lemma BumpElsewhere(word: bv64, slot: bv64, other: bv64, x: bv64, y: bv64)
    requires slot < 16 && other < 16 && slot != other && word & Mask(slot) != Mask(slot)
    requires x == Nibble(word, other) && y == Nibble(word + (1 << (slot * 4)), other)
    ensures x == y
  {
  }

  lemma BumpHere(word: bv64, slot: bv64)
    requires slot < 16 && HasRoom(word, slot)
    ensures Nibble(Bump(word, slot), slot) == Nibble(word, slot) + 1
    ensures Nibble(word, slot) < 15
  {
  }

  lemma SmallHalf(x: bv64, y: bv64)
    requires x < 16 && y == x >> 1
    ensures y as nat == x as nat / 2
  {
  }

  lemma SmallParity(x: bv64)
    requires x < 16
    ensures x & 1 == if x as nat % 2 == 1 then 1 else 0
  {
  }

  lemma SmallBound(x: bv64)
    requires x < 16
    ensures x as nat < 16 && (x as nat == 15 <==> x == 15)
  {
  }

  lemma NibbleFull(word: bv64, slot: bv64, x: bv64)
    requires slot < 16 && x == Nibble(word, slot)
    ensures x < 16 && (x == 15 <==> !HasRoom(word, slot))
  {
  }

  lemma CounterBound(word: bv64, slot: bv64)
    requires slot < 16
    ensures Counter(word, slot) <= FULL
    ensures Counter(word, slot) < FULL <==> HasRoom(word, slot)
  {
    NibbleFull(word, slot, Nibble(word, slot));
    SmallBound(Nibble(word, slot));
  }

  lemma BumpCounterHere(word: bv64, slot: bv64)
    requires slot < 16 && HasRoom(word, slot)
    ensures Counter(Bump(word, slot), slot) == Counter(word, slot) + 1 < 16
  {
    BumpHere(word, slot);
    SmallSuccessor(Nibble(word, slot), Nibble(Bump(word, slot), slot));
  }

  /** Bumping a slot adds one to that counter, stopping at fifteen, and carries into no other. */
  lemma BumpCounter(word: bv64, slot: bv64, other: bv64)
    requires slot < 16 && other < 16
    ensures Counter(Bump(word, slot), other)
            == if other == slot then AtMostFull(Counter(word, slot) + 1) else Counter(word, other)
  {
    if other != slot {
      if HasRoom(word, slot) {
        BumpElsewhere(word, slot, other, Nibble(word, other), Nibble(Bump(word, slot), other));
      }
    } else if HasRoom(word, slot) {
      BumpCounterHere(word, slot);
    } else {
      CounterBound(word, slot);
    }
  }

  // ---- Decay ----

  lemma HalveNibble(word: bv64, slot: bv64, x: bv64, y: bv64)
    requires slot < 16 && x == Nibble(word, slot) && y == Nibble(Halve(word), slot)
    ensures x < 16 && y == x >> 1
  {
  }

  /** One shift and mask halves all sixteen counters, each on its own. */
  lemma HalveCounter(word: bv64, slot: bv64)
    requires slot < 16
    ensures Counter(Halve(word), slot) == Counter(word, slot) / 2
  {
    HalveNibble(word, slot, Nibble(word, slot), Nibble(Halve(word), slot));
    SmallHalf(Nibble(word, slot), Nibble(Halve(word), slot));
  }

  // ---- Counting odd counters ----

  function Bit(word: bv64, i: bv64): nat
    requires i < 64
  {
    if (word >> i) & 1 == 1 then 1 else 0
  }

  function OnesInNibble(word: bv64, slot: bv64): nat
    requires slot < 16
  {
    var i := slot * 4;
    Bit(word, i) + Bit(word, i + 1) + Bit(word, i + 2) + Bit(word, i + 3)
  }

  /** The number of set bits in the lowest `k` nibbles; `k == 16` covers the word. */
  function Ones(word: bv64, k: nat): nat
    requires k <= 16
  {
    if k == 0 then 0
    else
      Ones(word, k - 1) + OnesInNibble(word, SlotAt(k - 1))
  }

  function OddCounters(word: bv64, k: nat): nat
    requires k <= 16
  {
    if k == 0 then 0 else OddCounters(word, k - 1) + Counter(word, SlotAt(k - 1)) % 2
  }

  function Total(word: bv64, k: nat): nat
    requires k <= 16
  {
    if k == 0 then 0 else Total(word, k - 1) + Counter(word, SlotAt(k - 1))
  }

  lemma MaskedBits(word: bv64, slot: bv64)
    requires slot < 16
    ensures var i := slot * 4; var odd := word & ONE_MASK;
            Bit(odd, i + 1) == Bit(odd, i + 2) == Bit(odd, i + 3) == 0
  {
  }

  lemma MaskedLowBit(word: bv64, slot: bv64, x: bv64)
    requires slot < 16 && x == Nibble(word, slot)
    ensures x < 16 && ((word & ONE_MASK) >> (slot * 4)) & 1 == x & 1
  {
  }

  lemma MaskedParity(word: bv64, slot: bv64)
    requires slot < 16
    ensures OnesInNibble(word & ONE_MASK, slot) == Counter(word, slot) % 2
  {
    MaskedBits(word, slot);
    MaskedLowBit(word, slot, Nibble(word, slot));
    SmallParity(Nibble(word, slot));
  }

  /** The set bits left by the one-mask are exactly the odd counters. */
  lemma {:induction false} OnesAreOddCounters(word: bv64, k: nat)
    requires k <= 16
    ensures Ones(word & ONE_MASK, k) == OddCounters(word, k) <= k
  {
    if k > 0 {
      OnesAreOddCounters(word, k - 1);
      MaskedParity(word, SlotAt(k - 1));
    }
  }

  /** What a decay takes off the total is half of it, plus half of each odd counter. */
  lemma {:induction false} HalveTotal(word: bv64, k: nat)
    requires k <= 16
    ensures 2 * Total(Halve(word), k) + OddCounters(word, k) == Total(word, k)
  {
    if k > 0 {
      HalveTotal(word, k - 1);
      HalveCounter(word, SlotAt(k - 1));
    }
  }

  // ---- The sixteen counters as numbers ----

  lemma SlotsDiffer(j: nat, k: nat)
    requires j < 16 && k < 16 && j != k
    ensures SlotAt(j) != SlotAt(k)
  {
    assert SlotAt(j) as nat != SlotAt(k) as nat;
  }

  /** The counters of a word, lowest slot first. */
  function Unpack(word: bv64): (counts: seq<nat>)
    ensures |counts| == 16
  {
    seq(16, k requires 0 <= k < 16 => Counter(word, SlotAt(k)))
  }

  function AddOne(counts: seq<nat>, slot: nat): (counts': seq<nat>)
    requires slot < |counts|
    ensures |counts'| == |counts|
  {
    counts[slot := AtMostFull(counts[slot] + 1)]
  }

  function Halves(counts: seq<nat>): (halves: seq<nat>)
    ensures |halves| == |counts|
  {
    seq(|counts|, k requires 0 <= k < |counts| => counts[k] / 2)
  }

  function OddSlots(counts: seq<nat>, k: nat): set<nat>
    requires k <= |counts|
  {
    set slot: nat | slot < k && counts[slot] % 2 == 1
  }

  /** How many counters are odd. */
  function Odd(counts: seq<nat>): nat {
    |OddSlots(counts, |counts|)|
  }

  lemma OddSlotsStep(counts: seq<nat>, k: nat)
    requires k < |counts|
    ensures |OddSlots(counts, 0)| == 0
    ensures |OddSlots(counts, k + 1)| == |OddSlots(counts, k)| + counts[k] % 2
  {
    assert OddSlots(counts, 0) == {};
    assert OddSlots(counts, k + 1) == OddSlots(counts, k) + if counts[k] % 2 == 1 then {k} else {};
  }

  lemma {:induction false} OddUnpacked(word: bv64, k: nat)
    requires k <= 16
    ensures OddCounters(word, k) == |OddSlots(Unpack(word), k)|
  {
    if k == 0 {
      OddSlotsStep(Unpack(word), 0);
    } else {
      OddUnpacked(word, k - 1);
      OddSlotsStep(Unpack(word), k - 1);
    }
  }

  lemma BumpUnpacked(word: bv64, slot: nat, k: nat)
    requires slot < 16 && k < 16
    ensures Unpack(Bump(word, SlotAt(slot)))[k] == AddOne(Unpack(word), slot)[k]
  {
    if k != slot {
      SlotsDiffer(k, slot);
    }
    BumpCounter(word, SlotAt(slot), SlotAt(k));
  }

  lemma SameCounts(a: seq<nat>, b: seq<nat>)
    requires |a| == |b| == 16 && forall k | 0 <= k < 16 :: a[k] == b[k]
    ensures a == b
  {
  }

  lemma BumpUnpackedAll(word: bv64, slot: nat)
    requires slot < 16
    ensures Unpack(Bump(word, SlotAt(slot))) == AddOne(Unpack(word), slot)
  {
    forall k | 0 <= k < 16 ensures Unpack(Bump(word, SlotAt(slot)))[k] == AddOne(Unpack(word), slot)[k] {
      BumpUnpacked(word, slot, k);
    }
    SameCounts(Unpack(Bump(word, SlotAt(slot))), AddOne(Unpack(word), slot));
  }

  lemma ZeroUnpacked()
    ensures Unpack(0) == seq(16, k => 0)
  {
    forall k | 0 <= k < 16 ensures Unpack(0)[k] == 0 {
      ZeroCounter(SlotAt(k));
    }
  }

  lemma ZeroCounter(slot: bv64)
    requires slot < 16
    ensures Counter(0, slot) == 0
  {
  }

  lemma RoomUnpacked(word: bv64, slot: nat)
    requires slot < 16
    ensures HasRoom(word, SlotAt(slot)) <==> Unpack(word)[slot] < FULL
  {
    CounterBound(word, SlotAt(slot));
  }

  /** The word-level touch: test the slot for room, then add one at its offset. */
  method BumpWord(word: bv64, slot: nat) returns (word': bv64, added: bool)
    requires slot < 16
    ensures Unpack(word') == AddOne(Unpack(word), slot)
    ensures added <==> Unpack(word)[slot] < FULL
  {
    BumpUnpackedAll(word, slot);
    RoomUnpacked(word, slot);
    return Bump(word, SlotAt(slot)), HasRoom(word, SlotAt(slot));
  }

  /** The word-level decay: count the odd counters, then shift and mask. */
  method HalveWord(word: bv64) returns (word': bv64, odd: nat)
    ensures Unpack(word') == Halves(Unpack(word))
    ensures odd == Odd(Unpack(word))
  {
    OnesAreOddCounters(word, 16);
    OddUnpacked(word, 16);
    odd := Ones(word & ONE_MASK, 16);
    word' := Halve(word);
    forall k | 0 <= k < 16 ensures Unpack(word')[k] == Halves(Unpack(word))[k] {
      HalveCounter(word, SlotAt(k));
    }
  }
}
