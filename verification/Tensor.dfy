/** Labelled KV-cache tensors: which axis means what, and how large it is. */
module Tensor {
  import opened Outcome

  datatype KvDim = Block | Layer | Outer | Page | HeadCount | HeadSize | Payload

  datatype KvDimLayout = KvDimLayout(dims: seq<KvDim>, sizes: seq<nat>)

  ghost predicate Distinct(dims: seq<KvDim>) {
    forall i, j | 0 <= i < j < |dims| :: dims[i] != dims[j]
  }

  /** The layouts the constructor accepts: labels pairwise distinct, exactly one block axis,
      head size or payload but not both, a payload axis last, an outer axis of one or two. */
  ghost predicate WellLabelled(dims: seq<KvDim>, sizes: seq<nat>) {
    && |dims| == |sizes|
    && (forall i | 0 <= i < |sizes| :: sizes[i] > 0)
    && Distinct(dims)
    && Block in dims
    && !(HeadSize in dims && Payload in dims)
    && (Payload in dims ==> dims[|dims| - 1] == Payload)
    && (forall i | 0 <= i < |dims| :: dims[i] == Outer ==> 1 <= sizes[i] <= 2)
  }

  function Count(dims: seq<KvDim>, d: KvDim): nat {
    if dims == [] then 0 else Count(dims[..|dims| - 1], d) + if dims[|dims| - 1] == d then 1 else 0
  }

  /** Counting at most one of each label is what makes the labels distinct. */
  lemma {:induction false} CountMember(dims: seq<KvDim>, d: KvDim)
    ensures Count(dims, d) > 0 <==> d in dims
  {
    if dims != [] {
      CountMember(dims[..|dims| - 1], d);
      assert dims == dims[..|dims| - 1] + [dims[|dims| - 1]];
    }
  }

  lemma {:induction false} CountDistinct(dims: seq<KvDim>)
    ensures (forall d: KvDim :: Count(dims, d) <= 1) <==> Distinct(dims)
  {
    if dims != [] {
      var n := |dims| - 1;
      CountDistinct(dims[..n]);
      CountMember(dims[..n], dims[n]);
      forall d: KvDim ensures Count(dims, d) == Count(dims[..n], d) + if d == dims[n] then 1 else 0 {
      }
      if Distinct(dims) {
        assert dims[n] !in dims[..n];
        forall d: KvDim ensures Count(dims, d) <= 1 {
          assert Count(dims[..n], d) <= 1;
        }
      } else if Distinct(dims[..n]) {
        assert dims[n] in dims[..n];
        assert Count(dims, dims[n]) > 1;
      } else {
        var d: KvDim :| Count(dims[..n], d) > 1;
        assert Count(dims, d) > 1;
      }
    }
  }

  /** The same in terms of counts: one block axis, at most one of each other label, head size and
      payload sharing one place. */
  lemma WellLabelledIff(dims: seq<KvDim>, sizes: seq<nat>)
    ensures WellLabelled(dims, sizes) <==>
            && |dims| == |sizes| && (forall i | 0 <= i < |sizes| :: sizes[i] > 0)
            && Count(dims, Block) == 1 && Count(dims, Layer) <= 1 && Count(dims, Outer) <= 1
            && Count(dims, Page) <= 1 && Count(dims, HeadCount) <= 1
            && Count(dims, HeadSize) + Count(dims, Payload) <= 1
            && (forall i | 0 <= i < |dims| - 1 :: dims[i] != Payload)
            && (forall i | 0 <= i < |dims| :: dims[i] == Outer ==> sizes[i] == 1 || sizes[i] == 2)
  {
    CountDistinct(dims);
    forall d: KvDim ensures Count(dims, d) > 0 <==> d in dims {
      CountMember(dims, d);
    }
    PayloadLast(dims);
  }

  lemma PayloadLast(dims: seq<KvDim>)
    ensures Distinct(dims) ==>
              ((Payload in dims ==> dims[|dims| - 1] == Payload) <==>
               forall i | 0 <= i < |dims| - 1 :: dims[i] != Payload)
  {
    if Distinct(dims) && Payload in dims {
      var i :| 0 <= i < |dims| && dims[i] == Payload;
    }
  }

  function FirstAt(dims: seq<KvDim>, d: KvDim): Option<nat> {
    if dims == [] then None
    else if dims[0] == d then Some(0)
    else match FirstAt(dims[1..], d) case None => None case Some(i) => Some(i + 1)
  }

  lemma {:induction false} FirstAtFinds(dims: seq<KvDim>, d: KvDim)
    ensures FirstAt(dims, d).None? <==> d !in dims
    ensures FirstAt(dims, d).Some? ==> FirstAt(dims, d).value < |dims| && dims[FirstAt(dims, d).value] == d
  {
    if dims != [] && dims[0] != d {
      FirstAtFinds(dims[1..], d);
      assert dims == [dims[0]] + dims[1..];
    }
  }

  method NewLayout(dims: seq<KvDim>, sizes: seq<nat>) returns (r: Result<KvDimLayout>)
    ensures r.Ok? <==> WellLabelled(dims, sizes)
    ensures r.Ok? ==> r.value == KvDimLayout(dims, sizes)
  {
    if dims == [] {
      return Err("dims must be non-empty");
    }
    if |dims| != |sizes| {
      return Err("dims and sizes differ in length");
    }
    for i := 0 to |sizes|
      invariant forall j | 0 <= j < i :: sizes[j] > 0
    {
      if sizes[i] == 0 {
        return Err("an axis has size zero");
      }
    }
    var counts := CountLabels(dims);
    forall d ensures Count(dims, d) == counts[d] && (counts[d] > 0 <==> d in dims) {
      CountMember(dims, d);
    }
    CountDistinct(dims);
    forall d: KvDim ensures Distinct(dims) ==> counts[d] <= 1 {
      assert Count(dims, d) == counts[d];
    }
    if counts[Block] != 1 {
      return Err("exactly one block axis required");
    }
    if counts[Layer] > 1 || counts[Outer] > 1 || counts[Page] > 1 || counts[HeadCount] > 1 {
      return Err("at most one axis per label");
    }
    if counts[HeadSize] + counts[Payload] > 1 {
      return Err("at most one of head size and payload");
    }
    assert forall d :: counts[d] <= 1;
    if counts[Payload] == 1 && dims[|dims| - 1] != Payload {
      return Err("payload must be the trailing axis");
    }
    var outer := FirstAt(dims, Outer);
    FirstAtFinds(dims, Outer);
    if outer.Some? && !(1 <= sizes[outer.value] <= 2) {
      return Err("outer axis size must be one or two");
    }
    return Ok(KvDimLayout(dims, sizes));
  }

  /** One pass over the labels with a counter for each. */
  method CountLabels(dims: seq<KvDim>) returns (counts: map<KvDim, nat>)
    ensures forall d :: d in counts && counts[d] == Count(dims, d)
  {
    counts := map[Block := 0, Layer := 0, Outer := 0, Page := 0, HeadCount := 0, HeadSize := 0, Payload := 0];
    forall d: KvDim ensures d in counts && counts[d] == 0 == Count(dims[..0], d) {
      match d case Block => case Layer => case Outer => case Page => case HeadCount => case HeadSize => case Payload =>
    }
    for i := 0 to |dims|
      invariant forall d :: d in counts && counts[d] == Count(dims[..i], d)
    {
      assert dims[..i + 1][..i] == dims[..i];
      counts := counts[dims[i] := counts[dims[i]] + 1];
    }
    assert dims[..|dims|] == dims;
  }

  // ---- Sizes by label ----

  function SizeOf(dims: seq<KvDim>, sizes: seq<nat>, d: KvDim): Option<nat>
    requires |dims| == |sizes|
  {
    FirstAtFinds(dims, d);
    match FirstAt(dims, d) case None => None case Some(i) => Some(sizes[i])
  }

  function SizeOr1(dims: seq<KvDim>, sizes: seq<nat>, d: KvDim): nat
    requires |dims| == |sizes|
  {
    match SizeOf(dims, sizes, d) case None => 1 case Some(n) => n
  }

  function Product(sizes: seq<nat>): nat {
    if sizes == [] then 1 else sizes[0] * Product(sizes[1..])
  }

  function TotalElements(l: KvDimLayout): nat {
    Product(l.sizes)
  }

  function OuterSize(l: KvDimLayout): nat
    requires |l.dims| == |l.sizes|
  {
    SizeOr1(l.dims, l.sizes, Outer)
  }

  /** Elements per token: heads, if any, times the head size or else the payload. */
  function InnerElements(l: KvDimLayout): Option<nat>
    requires |l.dims| == |l.sizes|
  {
    var head := SizeOf(l.dims, l.sizes, HeadSize);
    var trailing := if head.Some? then head else SizeOf(l.dims, l.sizes, Payload);
    if trailing.None? then None else Some(SizeOr1(l.dims, l.sizes, HeadCount) * trailing.value)
  }

  const LABELS: seq<KvDim> := [Block, Layer, Outer, Page, HeadCount, HeadSize, Payload]

  /** The product of the sizes of the given labels, an absent label counting as one. */
  function ProductOver(dims: seq<KvDim>, sizes: seq<nat>, labels: seq<KvDim>): nat
    requires |dims| == |sizes|
  {
    if labels == [] then 1 else SizeOr1(dims, sizes, labels[0]) * ProductOver(dims, sizes, labels[1..])
  }

  lemma SizeOr1Head(dims: seq<KvDim>, sizes: seq<nat>, d: KvDim)
    requires |dims| == |sizes| > 0 && Distinct(dims)
    ensures SizeOr1(dims, sizes, d) == if d == dims[0] then sizes[0] else SizeOr1(dims[1..], sizes[1..], d)
    ensures SizeOr1(dims[1..], sizes[1..], dims[0]) == 1
  {
    FirstAtFinds(dims[1..], dims[0]);
    FirstAtFinds(dims[1..], d);
    assert dims == [dims[0]] + dims[1..];
  }

  lemma Regroup(a: nat, s: nat, b: nat)
    ensures a * (s * b) == s * (a * b)
  {
  }

  /** Adding an axis multiplies the product by its size if its label is among the labels. */
  lemma {:induction false} ProductOverHead(dims: seq<KvDim>, sizes: seq<nat>, labels: seq<KvDim>)
    requires |dims| == |sizes| > 0 && Distinct(dims) && Distinct(labels)
    ensures ProductOver(dims, sizes, labels)
            == (if dims[0] in labels then sizes[0] else 1) * ProductOver(dims[1..], sizes[1..], labels)
  {
    if labels != [] {
      var a := SizeOr1(dims[1..], sizes[1..], labels[0]);
      var b := ProductOver(dims[1..], sizes[1..], labels[1..]);
      SizeOr1Head(dims, sizes, labels[0]);
      ProductOverHead(dims, sizes, labels[1..]);
      assert labels == [labels[0]] + labels[1..];
      Regroup(a, sizes[0], b);
    }
  }

  lemma {:induction false} ProductOverNothing(labels: seq<KvDim>)
    ensures ProductOver([], [], labels) == 1
  {
    if labels != [] {
      ProductOverNothing(labels[1..]);
    }
  }

  /** The element count is the product over the labels, whatever the axis order. */
  lemma {:induction false} TotalByLabel(dims: seq<KvDim>, sizes: seq<nat>)
    requires |dims| == |sizes| && Distinct(dims)
    ensures Product(sizes) == ProductOver(dims, sizes, LABELS)
  {
    if dims == [] {
      ProductOverNothing(LABELS);
    } else {
      TotalByLabel(dims[1..], sizes[1..]);
      ProductOverHead(dims, sizes, LABELS);
      assert dims[0] in LABELS;
    }
  }

  lemma SevenFactors(b: nat, l: nat, o: nat, p: nat, hc: nat, hs: nat, pl: nat)
    ensures b * (l * (o * (p * (hc * (hs * (pl * 1)))))) == b * l * o * p * (hc * (hs * pl))
  {
    var inner := hc * (hs * pl);
    assert o * (p * inner) == o * p * inner;
    assert l * (o * p * inner) == l * (o * p) * inner;
  }

  /** For every accepted layout with a page axis and a head-size or payload axis, the element
      count is blocks times layers times outer times page times the per-token elements. */
  lemma TotalFactors(l: KvDimLayout)
    requires WellLabelled(l.dims, l.sizes) && Page in l.dims && (HeadSize in l.dims || Payload in l.dims)
    ensures InnerElements(l).Some?
    ensures TotalElements(l)
            == SizeOr1(l.dims, l.sizes, Block) * SizeOr1(l.dims, l.sizes, Layer) * OuterSize(l)
               * SizeOr1(l.dims, l.sizes, Page) * InnerElements(l).value
  {
    TotalByLabel(l.dims, l.sizes);
    FirstAtFinds(l.dims, HeadSize);
    FirstAtFinds(l.dims, Payload);
    var hs, pl := SizeOr1(l.dims, l.sizes, HeadSize), SizeOr1(l.dims, l.sizes, Payload);
    assert if HeadSize in l.dims then pl == 1 else hs == 1;
    assert InnerElements(l) == Some(SizeOr1(l.dims, l.sizes, HeadCount) * (hs * pl));
    UnfoldLabels(l.dims, l.sizes);
    SevenFactors(SizeOr1(l.dims, l.sizes, Block), SizeOr1(l.dims, l.sizes, Layer), SizeOr1(l.dims, l.sizes, Outer),
                 SizeOr1(l.dims, l.sizes, Page), SizeOr1(l.dims, l.sizes, HeadCount), hs, pl);
  }

  lemma ProductCons(dims: seq<KvDim>, sizes: seq<nat>, d: KvDim, labels: seq<KvDim>)
    requires |dims| == |sizes|
    ensures ProductOver(dims, sizes, [d] + labels) == SizeOr1(dims, sizes, d) * ProductOver(dims, sizes, labels)
  {
    assert ([d] + labels)[1..] == labels;
  }

  lemma UnfoldLabels(dims: seq<KvDim>, sizes: seq<nat>)
    requires |dims| == |sizes|
    ensures ProductOver(dims, sizes, LABELS)
            == SizeOr1(dims, sizes, Block) * (SizeOr1(dims, sizes, Layer) * (SizeOr1(dims, sizes, Outer)
               * (SizeOr1(dims, sizes, Page) * (SizeOr1(dims, sizes, HeadCount) * (SizeOr1(dims, sizes, HeadSize)
               * (SizeOr1(dims, sizes, Payload) * 1))))))
  {
    var none: seq<KvDim> := [];
    var l6 := [Payload] + none;
    var l5 := [HeadSize] + l6;
    var l4 := [HeadCount] + l5;
    var l3 := [Page] + l4;
    var l2 := [Outer] + l3;
    var l1 := [Layer] + l2;
    ProductCons(dims, sizes, Payload, none);
    ProductCons(dims, sizes, HeadSize, l6);
    ProductCons(dims, sizes, HeadCount, l5);
    ProductCons(dims, sizes, Page, l4);
    ProductCons(dims, sizes, Outer, l3);
    ProductCons(dims, sizes, Layer, l2);
    ProductCons(dims, sizes, Block, l1);
    assert LABELS == [Block] + l1;
  }
}
