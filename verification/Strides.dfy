/** Byte strides of a labelled tensor: the row-major strides of its sizes, and how much of its
    inner end is contiguous in memory. */
module Strides {
  import opened Outcome
  import opened Tensor
  import opened Arithmetic

  datatype KvDimStrides = KvDimStrides(bytes: seq<nat>, elemSize: nat)

  /** The stride of axis `k` in a tensor laid out row by row. */
  function RowMajor(sizes: seq<nat>, elemSize: nat, k: nat): nat
    requires k < |sizes|
  {
    elemSize * Product(sizes[k + 1..])
  }

  ghost predicate RowMajorStrides(bytes: seq<nat>, sizes: seq<nat>, elemSize: nat) {
    |bytes| == |sizes| && forall k | 0 <= k < |sizes| :: bytes[k] == RowMajor(sizes, elemSize, k)
  }

  ghost predicate IsRowMajor(s: KvDimStrides, sizes: seq<nat>) {
    RowMajorStrides(s.bytes, sizes, s.elemSize)
  }

  lemma ProductSplit(sizes: seq<nat>, k: nat)
    requires k < |sizes|
    ensures Product(sizes[k..]) == sizes[k] * Product(sizes[k + 1..])
  {
    assert sizes[k..][1..] == sizes[k + 1..];
  }

  method ContiguousFor(l: KvDimLayout, elemSize: nat) returns (s: KvDimStrides)
    ensures s.elemSize == elemSize && IsRowMajor(s, l.sizes)
  {
    var n := |l.sizes|;
    var bytes := new nat[n];
    var acc := elemSize;
    var k := n;
    while k > 0
      invariant 0 <= k <= n
      invariant acc == elemSize * Product(l.sizes[k..])
      invariant forall j | k <= j < n :: bytes[j] == RowMajor(l.sizes, elemSize, j)
    {
      k := k - 1;
      bytes[k] := acc;
      ProductSplit(l.sizes, k);
      MulSwap(l.sizes[k], elemSize, Product(l.sizes[k + 1..]));
      acc := acc * l.sizes[k];
    }
    s := KvDimStrides(bytes[..], elemSize);
  }

  // ---- The contiguous tail ----

  /** How many inner axes carry exactly the row-major stride of the sizes inside them. */
  function TailAxes(bytes: seq<nat>, sizes: seq<nat>, elemSize: nat): (m: nat)
    requires |bytes| == |sizes|
    ensures m <= |sizes|
  {
    if sizes == [] then 0
    else
      var m := TailAxes(bytes[1..], sizes[1..], elemSize);
      if m == |sizes| - 1 && bytes[0] == elemSize * Product(sizes[1..]) then m + 1 else m
  }

  function TailBytes(bytes: seq<nat>, sizes: seq<nat>, elemSize: nat): nat
    requires |bytes| == |sizes|
  {
    var m := TailAxes(bytes, sizes, elemSize);
    if m == 0 then 0 else elemSize * Product(sizes[|sizes| - m..])
  }

  lemma TailStep(bytes: seq<nat>, sizes: seq<nat>, elemSize: nat, k: nat)
    requires |bytes| == |sizes| && k < |sizes|
    ensures var m := TailAxes(bytes[k + 1..], sizes[k + 1..], elemSize);
            TailAxes(bytes[k..], sizes[k..], elemSize)
            == if m == |sizes| - k - 1 && bytes[k] == RowMajor(sizes, elemSize, k) then m + 1 else m
  {
    assert bytes[k..][1..] == bytes[k + 1..] && sizes[k..][1..] == sizes[k + 1..];
  }

  /** An axis that breaks the rule ends the tail for good. */
  lemma {:induction false} TailStops(bytes: seq<nat>, sizes: seq<nat>, elemSize: nat, k: nat)
    requires |bytes| == |sizes| && k < |sizes| && TailAxes(bytes[k..], sizes[k..], elemSize) < |sizes| - k
    ensures TailAxes(bytes, sizes, elemSize) == TailAxes(bytes[k..], sizes[k..], elemSize)
  {
    if k == 0 {
      assert bytes[0..] == bytes && sizes[0..] == sizes;
    } else {
      TailStep(bytes, sizes, elemSize, k - 1);
      TailStops(bytes, sizes, elemSize, k - 1);
    }
  }

  /** The tail is row-major, and the axis outside it, if any, is not. */
  lemma {:induction false} TailMaximal(bytes: seq<nat>, sizes: seq<nat>, elemSize: nat, k: nat)
    requires |bytes| == |sizes| && k < |sizes|
    ensures var start := |sizes| - TailAxes(bytes, sizes, elemSize);
            && (start <= k ==> bytes[k] == RowMajor(sizes, elemSize, k))
            && (start == k + 1 ==> bytes[k] != RowMajor(sizes, elemSize, k))
  {
    assert sizes[0..] == sizes && bytes[0..] == bytes;
    if k > 0 {
      TailMaximal(bytes[1..], sizes[1..], elemSize, k - 1);
      assert sizes[1..][k..] == sizes[k + 1..];
    }
  }

  /** One more axis outward: it either extends the tail or fixes it. */
  lemma TailGrows(bytes: seq<nat>, sizes: seq<nat>, elemSize: nat, k: nat, tail: nat)
    requires |bytes| == |sizes| && k < |sizes| && tail == elemSize * Product(sizes[k + 1..])
    requires TailAxes(bytes[k + 1..], sizes[k + 1..], elemSize) == |sizes| - k - 1
    ensures tail * sizes[k] == elemSize * Product(sizes[k..])
    ensures bytes[k] == tail ==> TailAxes(bytes[k..], sizes[k..], elemSize) == |sizes| - k
    ensures bytes[k] != tail ==> TailAxes(bytes, sizes, elemSize) == |sizes| - k - 1
  {
    TailStep(bytes, sizes, elemSize, k);
    ProductSplit(sizes, k);
    MulSwap(sizes[k], elemSize, Product(sizes[k + 1..]));
    if bytes[k] != tail {
      TailStops(bytes, sizes, elemSize, k);
    }
  }

  method ContiguousTailBytes(s: KvDimStrides, l: KvDimLayout) returns (r: Result<nat>)
    requires |l.sizes| > 0
    ensures r.Ok? <==> |l.sizes| == |s.bytes|
    ensures r.Ok? ==> r.value == TailBytes(s.bytes, l.sizes, s.elemSize)
  {
    var sizes := l.sizes;
    if |sizes| != |s.bytes| {
      return Err("rank mismatch");
    }
    var n := |sizes|;
    TailGrows(s.bytes, sizes, s.elemSize, n - 1, s.elemSize);
    if s.bytes[n - 1] != s.elemSize {
      return Ok(0);
    }
    var tail := s.elemSize * sizes[n - 1];
    var lastStride, lastSize := s.bytes[n - 1], sizes[n - 1];
    var k := n - 1;
    while k > 0
      invariant 0 <= k < n
      invariant TailAxes(s.bytes[k..], sizes[k..], s.elemSize) == n - k
      invariant tail == s.elemSize * Product(sizes[k..]) == lastStride * lastSize
    {
      var expected := lastStride * lastSize;
      TailGrows(s.bytes, sizes, s.elemSize, k - 1, expected);
      k := k - 1;
      if s.bytes[k] != expected {
        break;
      }
      tail := tail * sizes[k];
      lastStride, lastSize := s.bytes[k], sizes[k];
    }
    return Ok(tail);
  }

  method IsFullyContiguous(s: KvDimStrides, l: KvDimLayout) returns (r: Result<bool>)
    ensures r.Ok? <==> |l.sizes| == |s.bytes|
    ensures r.Ok? ==> (r.value <==> IsRowMajor(s, l.sizes))
  {
    if |l.sizes| != |s.bytes| {
      return Err("rank mismatch");
    }
    var expected := ContiguousFor(l, s.elemSize);
    return Ok(expected.bytes == s.bytes);
  }

  // ---- What contiguity means ----

  ghost predicate InBox(sizes: seq<nat>, at: seq<nat>) {
    |at| == |sizes| && forall k | 0 <= k < |sizes| :: at[k] < sizes[k]
  }

  /** The byte offset of a coordinate. */
  function Offset(bytes: seq<nat>, at: seq<nat>): nat
    requires |bytes| == |at|
  {
    if at == [] then 0 else bytes[0] * at[0] + Offset(bytes[1..], at[1..])
  }

  /** The row-by-row number of a coordinate, and its inverse. */
  function Rank(sizes: seq<nat>, at: seq<nat>): nat
    requires |sizes| == |at|
  {
    if at == [] then 0 else at[0] * Product(sizes[1..]) + Rank(sizes[1..], at[1..])
  }

  function Unrank(sizes: seq<nat>, slot: nat): (at: seq<nat>)
    ensures |at| == |sizes|
  {
    if sizes == [] then []
    else
      var inner := Product(sizes[1..]);
      if inner == 0 then seq(|sizes|, i => 0)
      else [slot / inner] + Unrank(sizes[1..], slot % inner)
  }

  lemma {:induction false} RankBound(sizes: seq<nat>, at: seq<nat>)
    requires InBox(sizes, at)
    ensures Rank(sizes, at) < Product(sizes)
  {
    if sizes != [] {
      assert at[0] < sizes[0];
      RankBound(sizes[1..], at[1..]);
      MulGap(at[0], sizes[0], Product(sizes[1..]));
    }
  }

  lemma UnrankStep(sizes: seq<nat>, q: nat, rest: nat)
    requires sizes != [] && rest < Product(sizes[1..])
    ensures Unrank(sizes, q * Product(sizes[1..]) + rest) == [q] + Unrank(sizes[1..], rest)
  {
    DivModOf(q * Product(sizes[1..]) + rest, q, rest, Product(sizes[1..]));
  }

  lemma {:induction false} RankInverse(sizes: seq<nat>, at: seq<nat>)
    requires InBox(sizes, at)
    ensures Unrank(sizes, Rank(sizes, at)) == at
  {
    if sizes != [] {
      RankBound(sizes[1..], at[1..]);
      RankInverse(sizes[1..], at[1..]);
      UnrankStep(sizes, at[0], Rank(sizes[1..], at[1..]));
    }
  }

  lemma {:induction false} UnrankInverse(sizes: seq<nat>, slot: nat)
    requires slot < Product(sizes)
    ensures InBox(sizes, Unrank(sizes, slot)) && Rank(sizes, Unrank(sizes, slot)) == slot
  {
    if sizes != [] {
      var inner := Product(sizes[1..]);
      MulPositive(sizes[0], inner);
      DivBound(slot, sizes[0], inner);
      UnrankInverse(sizes[1..], slot % inner);
      assert Unrank(sizes, slot)[1..] == Unrank(sizes[1..], slot % inner);
    }
  }

  lemma RowMajorRest(bytes: seq<nat>, sizes: seq<nat>, elemSize: nat)
    requires RowMajorStrides(bytes, sizes, elemSize) && sizes != []
    ensures RowMajorStrides(bytes[1..], sizes[1..], elemSize) && bytes[0] == elemSize * Product(sizes[1..])
  {
    forall k | 0 <= k < |sizes| - 1 ensures bytes[1..][k] == RowMajor(sizes[1..], elemSize, k) {
      assert sizes[1..][k + 1..] == sizes[k + 2..];
      assert bytes[k + 1] == RowMajor(sizes, elemSize, k + 1);
    }
  }

  lemma {:induction false} RowMajorOffset(bytes: seq<nat>, sizes: seq<nat>, elemSize: nat, at: seq<nat>)
    requires RowMajorStrides(bytes, sizes, elemSize) && |sizes| == |at|
    ensures Offset(bytes, at) == elemSize * Rank(sizes, at)
  {
    if sizes != [] {
      RowMajorRest(bytes, sizes, elemSize);
      RowMajorOffset(bytes[1..], sizes[1..], elemSize, at[1..]);
      var inner, rest := Product(sizes[1..]), Rank(sizes[1..], at[1..]);
      MulSwap(at[0], elemSize, inner);
      MulSum(elemSize, at[0] * inner, rest);
    }
  }

  /** Row-major strides number the coordinates of a box from zero without a gap: each offset is
      the element size times a slot below the product, and each slot comes from one coordinate. */
  lemma RowMajorBijection(bytes: seq<nat>, sizes: seq<nat>, elemSize: nat)
    requires RowMajorStrides(bytes, sizes, elemSize)
    ensures forall at | InBox(sizes, at) ::
              && Offset(bytes, at) == elemSize * Rank(sizes, at)
              && Rank(sizes, at) < Product(sizes)
              && Unrank(sizes, Rank(sizes, at)) == at
    ensures forall slot: nat | slot < Product(sizes) ::
              && InBox(sizes, Unrank(sizes, slot))
              && Offset(bytes, Unrank(sizes, slot)) == elemSize * slot
  {
    forall at | InBox(sizes, at)
      ensures Offset(bytes, at) == elemSize * Rank(sizes, at)
      ensures Rank(sizes, at) < Product(sizes) && Unrank(sizes, Rank(sizes, at)) == at
    {
      RowMajorOffset(bytes, sizes, elemSize, at);
      RankInverse(sizes, at);
      RankBound(sizes, at);
    }
    forall slot: nat | slot < Product(sizes)
      ensures InBox(sizes, Unrank(sizes, slot)) && Offset(bytes, Unrank(sizes, slot)) == elemSize * slot
    {
      UnrankInverse(sizes, slot);
      RowMajorOffset(bytes, sizes, elemSize, Unrank(sizes, slot));
    }
  }

  /** The axes of the reported tail have row-major strides of their own, so over them the
      offsets run through the reported bytes slot by slot, each exactly once. */
  lemma TailIsContiguous(bytes: seq<nat>, sizes: seq<nat>, elemSize: nat)
    requires |bytes| == |sizes| && TailAxes(bytes, sizes, elemSize) > 0
    ensures var start := |sizes| - TailAxes(bytes, sizes, elemSize);
            && TailBytes(bytes, sizes, elemSize) == elemSize * Product(sizes[start..])
            && (forall at | InBox(sizes[start..], at) ::
                  && Offset(bytes[start..], at) == elemSize * Rank(sizes[start..], at)
                  && Rank(sizes[start..], at) < Product(sizes[start..])
                  && Unrank(sizes[start..], Rank(sizes[start..], at)) == at)
            && (forall slot: nat | slot < Product(sizes[start..]) ::
                  && InBox(sizes[start..], Unrank(sizes[start..], slot))
                  && Offset(bytes[start..], Unrank(sizes[start..], slot)) == elemSize * slot)
  {
    var start := |sizes| - TailAxes(bytes, sizes, elemSize);
    TailRowMajor(bytes, sizes, elemSize);
    RowMajorBijection(bytes[start..], sizes[start..], elemSize);
  }

  lemma RowMajorWithin(sizes: seq<nat>, elemSize: nat, start: nat, k: nat)
    requires start + k < |sizes|
    ensures RowMajor(sizes[start..], elemSize, k) == RowMajor(sizes, elemSize, start + k)
  {
    assert sizes[start..][k + 1..] == sizes[start + k + 1..];
  }

  lemma TailRowMajor(bytes: seq<nat>, sizes: seq<nat>, elemSize: nat)
    requires |bytes| == |sizes|
    ensures var start := |sizes| - TailAxes(bytes, sizes, elemSize);
            RowMajorStrides(bytes[start..], sizes[start..], elemSize)
  {
    var start := |sizes| - TailAxes(bytes, sizes, elemSize);
    forall k | 0 <= k < |sizes| - start ensures bytes[start..][k] == RowMajor(sizes[start..], elemSize, k) {
      TailMaximal(bytes, sizes, elemSize, start + k);
      RowMajorWithin(sizes, elemSize, start, k);
    }
  }

  // ---- Full contiguity ----

  lemma {:induction false} ProductConcat(a: seq<nat>, b: seq<nat>)
    ensures Product(a + b) == Product(a) * Product(b)
  {
    if a == [] {
      assert a + b == b;
    } else {
      assert (a + b)[1..] == a[1..] + b;
      ProductConcat(a[1..], b);
      MulAssoc(a[0], Product(a[1..]), Product(b));
    }
  }

  lemma {:induction false} ProductPositive(sizes: seq<nat>)
    requires forall k | 0 <= k < |sizes| :: sizes[k] > 0
    ensures Product(sizes) > 0
    ensures sizes != [] && (forall k | 0 <= k < |sizes| :: sizes[k] >= 2) ==> Product(sizes) >= 2
  {
    if sizes != [] {
      ProductPositive(sizes[1..]);
      MulPositive(sizes[0], Product(sizes[1..]));
      if sizes[0] >= 2 {
        MulMono(2, sizes[0], Product(sizes[1..]));
      }
    }
  }

  /** A tensor is row-major exactly if all its axes are in the tail. */
  lemma RowMajorIffWholeTail(s: KvDimStrides, sizes: seq<nat>)
    requires |s.bytes| == |sizes|
    ensures IsRowMajor(s, sizes) <==> TailAxes(s.bytes, sizes, s.elemSize) == |sizes|
  {
    forall k | 0 <= k < |sizes|
      ensures var start := |sizes| - TailAxes(s.bytes, sizes, s.elemSize);
              && (start <= k ==> s.bytes[k] == RowMajor(sizes, s.elemSize, k))
              && (start == k + 1 ==> s.bytes[k] != RowMajor(sizes, s.elemSize, k))
    {
      TailMaximal(s.bytes, sizes, s.elemSize, k);
    }
    var start := |sizes| - TailAxes(s.bytes, sizes, s.elemSize);
    if start > 0 {
      assert s.bytes[start - 1] != RowMajor(sizes, s.elemSize, start - 1);
    }
  }

  /** The tail spans the whole tensor exactly if there is a tail and the axes outside it hold a
      single element; so it tells full contiguity unless some axis has size one. */
  lemma WholeTailBytes(s: KvDimStrides, sizes: seq<nat>)
    requires |s.bytes| == |sizes| > 0 && s.elemSize > 0 && forall k | 0 <= k < |sizes| :: sizes[k] > 0
    ensures var m := TailAxes(s.bytes, sizes, s.elemSize);
            TailBytes(s.bytes, sizes, s.elemSize) == s.elemSize * Product(sizes) <==>
              m > 0 && Product(sizes[..|sizes| - m]) == 1
    ensures IsRowMajor(s, sizes) ==> TailBytes(s.bytes, sizes, s.elemSize) == s.elemSize * Product(sizes)
    ensures TailBytes(s.bytes, sizes, s.elemSize) == s.elemSize * Product(sizes) ==>
              (forall k | 0 <= k < |sizes| :: sizes[k] >= 2) ==> IsRowMajor(s, sizes)
  {
    RowMajorIffWholeTail(s, sizes);
    var m := TailAxes(s.bytes, sizes, s.elemSize);
    var outer, inner := sizes[..|sizes| - m], sizes[|sizes| - m..];
    assert sizes == outer + inner;
    ProductConcat(outer, inner);
    ProductPositive(outer);
    ProductPositive(inner);
    OuterFactor(Product(outer), Product(inner), s.elemSize);
  }

  /** A positive quantity is unchanged by a positive factor exactly if the factor is one. */
  lemma OuterFactor(p: nat, q: nat, e: nat)
    requires p > 0 && q > 0 && e > 0
    ensures e * (p * q) > 0 && (e * q == e * (p * q) <==> p == 1)
  {
    MulPositive(p, q);
    MulPositive(e, p * q);
    MulPositive(e, q);
    MulSwap(e, p, q);
    if p > 1 {
      MulMono(2, p, e * q);
    }
  }
}
