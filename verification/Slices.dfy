/** Slices of one axis, and the overlaps by which a differently sharded tensor is pulled
    together. */
module Slices {
  import opened Outcome
  import opened Tensor
  import opened Arithmetic

  /** The window `[start, start + len)` of an axis of `globalLen` coordinates. */
  datatype AxisSlice = AxisSlice(dim: KvDim, start: nat, len: nat, globalLen: nat)
  {
    function End(): nat { start + len }
  }

  /** A range of coordinates, the upper bound excluded. */
  datatype Range = Range(start: nat, end: nat)

  datatype AxisIntersection = AxisIntersection(dim: KvDim, srcLocal: Range, dstLocal: Range)

  function Shard(dim: KvDim, rank: nat, world: nat, globalLen: nat): (r: Result<AxisSlice>)
    ensures r.Ok? <==> rank < world && globalLen % world == 0
    ensures r.Ok? ==> r.value.End() <= globalLen && r.value.globalLen == globalLen && r.value.dim == dim
  {
    if world == 0 then Err("world must be positive")
    else if rank >= world then Err("rank out of range")
    else if globalLen % world != 0 then Err("length not divisible by world")
    else
      var len := globalLen / world;
      MulMono(rank + 1, world, len);
      Ok(AxisSlice(dim, rank * len, len, globalLen))
  }

  function NewSlice(dim: KvDim, start: nat, len: nat, globalLen: nat): (r: Result<AxisSlice>)
    ensures r.Ok? <==> 0 < len && start + len <= globalLen
    ensures r.Ok? ==> r.value == AxisSlice(dim, start, len, globalLen)
  {
    if len == 0 then Err("len must be positive")
    else if start + len > globalLen then Err("slice exceeds the axis")
    else Ok(AxisSlice(dim, start, len, globalLen))
  }

  function Max(a: nat, b: nat): nat { if a < b then b else a }

  function Min(a: nat, b: nat): nat { if a < b then a else b }

  function IntersectAxis(src: AxisSlice, dst: AxisSlice): Result<Option<AxisIntersection>> {
    if src.dim != dst.dim then Err("different axes")
    else if src.globalLen != dst.globalLen then Err("different axis lengths")
    else
      var start, end := Max(src.start, dst.start), Min(src.End(), dst.End());
      if end <= start then Ok(None)
      else
        var len := end - start;
        Ok(Some(AxisIntersection(src.dim,
                                 Range(start - src.start, start - src.start + len),
                                 Range(start - dst.start, start - dst.start + len))))
  }

  predicate In(r: Range, x: int) { r.start <= x < r.end }

  /** An intersection is exactly the shared global coordinates, seen from both sides, and an
      error exactly between different axes: a local coordinate of either side is in its range
      iff the other side has the same global one. */
  lemma IntersectExact(src: AxisSlice, dst: AxisSlice, g: nat)
    ensures var r := IntersectAxis(src, dst);
            && (r.Ok? <==> src.dim == dst.dim && src.globalLen == dst.globalLen)
            && (r.Ok? && r.value.None? ==> !(src.start <= g < src.End() && dst.start <= g < dst.End()))
            && (r.Ok? && r.value.Some? ==>
                  var i := r.value.value;
                  && i.srcLocal.end <= src.len && i.dstLocal.end <= dst.len
                  && i.srcLocal.end - i.srcLocal.start == i.dstLocal.end - i.dstLocal.start > 0
                  && src.start + i.srcLocal.start == dst.start + i.dstLocal.start
                  && (In(i.dstLocal, g - dst.start) <==> src.start <= g < src.End() && dst.start <= g < dst.End())
                  && (In(i.srcLocal, g - src.start) <==> In(i.dstLocal, g - dst.start)))
  {
  }

  // ---- Even shardings ----

  ghost predicate Divides(world: nat, globalLen: nat) {
    world > 0 && globalLen % world == 0
  }

  function ShardOf(dim: KvDim, rank: nat, world: nat, globalLen: nat): AxisSlice
    requires rank < world && Divides(world, globalLen)
  {
    Shard(dim, rank, world, globalLen).value
  }

  lemma ShardInside(dim: KvDim, rank: nat, world: nat, globalLen: nat)
    requires rank < world && Divides(world, globalLen) && globalLen > 0
    ensures var s := ShardOf(dim, rank, world, globalLen); 0 < s.len && s.start + s.len <= globalLen
  {
    MulPositive(globalLen / world, world);
  }

  /** The shard that holds a global coordinate. */
  function OwnerOf(world: nat, globalLen: nat, g: nat): (rank: nat)
    requires Divides(world, globalLen) && g < globalLen
    ensures rank < world
  {
    assert globalLen == globalLen / world * world;
    MulPositive(globalLen / world, world);
    DivBound(g, world, globalLen / world);
    g / (globalLen / world)
  }

  /** Every global coordinate lies in exactly one shard of an even sharding. */
  lemma OwnerExact(dim: KvDim, world: nat, globalLen: nat, g: nat, rank: nat)
    requires Divides(world, globalLen) && g < globalLen && rank < world
    ensures var s := ShardOf(dim, rank, world, globalLen);
            s.start <= g < s.End() <==> rank == OwnerOf(world, globalLen, g)
  {
    var len := globalLen / world;
    MulPositive(len, world);
    DivBound(g, world, len);
    if rank * len <= g < rank * len + len {
      DivModOf(g, rank, g - rank * len, len);
    }
  }

  /** The overlaps of one destination shard with all source shards tile it: each of its local
      coordinates lies in the overlap with exactly one source shard, and the copy there comes
      from the same global coordinate. */
  lemma OverlapsTile(dim: KvDim, srcWorld: nat, dstWorld: nat, globalLen: nat, q: nat, x: nat, p: nat)
    requires Divides(srcWorld, globalLen) && Divides(dstWorld, globalLen) && q < dstWorld && p < srcWorld
    requires x < globalLen / dstWorld
    ensures var dst, src := ShardOf(dim, q, dstWorld, globalLen), ShardOf(dim, p, srcWorld, globalLen);
            var overlap := IntersectAxis(src, dst);
            && overlap.Ok?
            && dst.start + x < globalLen
            && ((overlap.value.Some? && In(overlap.value.value.dstLocal, x)) <==>
              p == OwnerOf(srcWorld, globalLen, dst.start + x))
            && (overlap.value.Some? && In(overlap.value.value.dstLocal, x) ==>
                  var i := overlap.value.value;
                  var from := i.srcLocal.start + (x - i.dstLocal.start);
                  In(i.srcLocal, from) && from < src.len && src.start + from == dst.start + x)
  {
    var dst, src := ShardOf(dim, q, dstWorld, globalLen), ShardOf(dim, p, srcWorld, globalLen);
    IntersectExact(src, dst, dst.start + x);
    OwnerExact(dim, srcWorld, globalLen, dst.start + x, p);
  }

  // ---- Resharding data ----

  /** One shard's worth of elements per rank. */
  ghost predicate Sharded<T>(shards: seq<seq<T>>, world: nat, globalLen: nat) {
    Divides(world, globalLen) && |shards| == world && forall p | 0 <= p < world :: |shards[p]| == globalLen / world
  }

  /** The element that the copies from source shards `p`, `p + 1`, ... put at local coordinate
      `x` of a destination slice. */
  function Pulled<T>(dim: KvDim, shards: seq<seq<T>>, globalLen: nat, dst: AxisSlice, x: nat, p: nat): Option<T>
    requires Sharded(shards, |shards|, globalLen) && p <= |shards| && dst.dim == dim && dst.globalLen == globalLen
    decreases |shards| - p
  {
    if p == |shards| then None
    else
      var overlap := IntersectAxis(ShardOf(dim, p, |shards|, globalLen), dst).value;
      if overlap.Some? && In(overlap.value.dstLocal, x)
      then
        IntersectExact(ShardOf(dim, p, |shards|, globalLen), dst, dst.start + x);
        Some(shards[p][overlap.value.srcLocal.start + (x - overlap.value.dstLocal.start)])
      else Pulled(dim, shards, globalLen, dst, x, p + 1)
  }

  /** The whole axis, shard after shard. */
  function At<T>(shards: seq<seq<T>>, world: nat, globalLen: nat, g: nat): T
    requires Sharded(shards, world, globalLen) && g < globalLen
  {
    var len := globalLen / world;
    MulPositive(len, world);
    shards[OwnerOf(world, globalLen, g)][g % len]
  }

  lemma {:induction false} PulledIsGlobal<T>(dim: KvDim, shards: seq<seq<T>>, globalLen: nat, q: nat, dstWorld: nat,
                                             x: nat, p: nat)
    requires Sharded(shards, |shards|, globalLen) && Divides(dstWorld, globalLen) && q < dstWorld &&
        x < globalLen / dstWorld
    requires var dst := ShardOf(dim, q, dstWorld, globalLen);
             dst.start + x < globalLen && p <= OwnerOf(|shards|, globalLen, dst.start + x)
    ensures var dst := ShardOf(dim, q, dstWorld, globalLen);
            Pulled(dim, shards, globalLen, dst, x, p) == Some(At(shards, |shards|, globalLen, dst.start + x))
    decreases |shards| - p
  {
    var dst := ShardOf(dim, q, dstWorld, globalLen);
    var g := dst.start + x;
    var owner := OwnerOf(|shards|, globalLen, g);
    OverlapsTile(dim, |shards|, dstWorld, globalLen, q, x, p);
    if p < owner {
      PulledIsGlobal(dim, shards, globalLen, q, dstWorld, x, p + 1);
    } else {
      var len := globalLen / |shards|;
      OwnerExact(dim, |shards|, globalLen, g, p);
      DivModOf(g, p, g - p * len, len);
    }
  }

  /** Every destination rank pulls its shard from all source ranks. */
  function Reshard<T>(dim: KvDim, shards: seq<seq<T>>, globalLen: nat, dstWorld: nat): (r: seq<seq<T>>)
    requires Sharded(shards, |shards|, globalLen) && Divides(dstWorld, globalLen)
    ensures Sharded(r, dstWorld, globalLen)
    ensures forall g | 0 <= g < globalLen :: At(r, dstWorld, globalLen, g) == At(shards, |shards|, globalLen, g)
  {
    var r := seq(dstWorld, q requires 0 <= q < dstWorld =>
      seq(globalLen / dstWorld, x requires 0 <= x < globalLen / dstWorld =>
        PulledValue(dim, shards, globalLen, q, dstWorld, x)));
    ReshardKeepsAxis(dim, shards, globalLen, dstWorld, r);
    r
  }

  function PulledValue<T>(dim: KvDim, shards: seq<seq<T>>, globalLen: nat, q: nat, dstWorld: nat, x: nat): (v: T)
    requires Sharded(shards, |shards|, globalLen) && Divides(dstWorld, globalLen) && q < dstWorld &&
        x < globalLen / dstWorld
    ensures ShardOf(dim, q, dstWorld, globalLen).start + x < globalLen
    ensures v == At(shards, |shards|, globalLen, ShardOf(dim, q, dstWorld, globalLen).start + x)
  {
    OverlapsTile(dim, |shards|, dstWorld, globalLen, q, x, 0);
    PulledIsGlobal(dim, shards, globalLen, q, dstWorld, x, 0);
    Pulled(dim, shards, globalLen, ShardOf(dim, q, dstWorld, globalLen), x, 0).value
  }

  lemma ReshardKeepsAxis<T>(dim: KvDim, shards: seq<seq<T>>, globalLen: nat, dstWorld: nat, r: seq<seq<T>>)
    requires Sharded(shards, |shards|, globalLen) && Sharded(r, dstWorld, globalLen)
    requires forall q, x | 0 <= q < dstWorld && 0 <= x < globalLen / dstWorld ::
               r[q][x] == PulledValue(dim, shards, globalLen, q, dstWorld, x)
    ensures forall g | 0 <= g < globalLen :: At(r, dstWorld, globalLen, g) == At(shards, |shards|, globalLen, g)
  {
    forall g | 0 <= g < globalLen ensures At(r, dstWorld, globalLen, g) == At(shards, |shards|, globalLen, g) {
      var len, q := globalLen / dstWorld, OwnerOf(dstWorld, globalLen, g);
      MulPositive(len, dstWorld);
      assert r[q][g % len] == PulledValue(dim, shards, globalLen, q, dstWorld, g % len);
      OwnerExact(dim, dstWorld, globalLen, g, q);
      DivModOf(g, q, g - q * len, len);
    }
  }

  /** A shard's own element is the axis element at its global coordinate. */
  lemma AtShard<T>(shards: seq<seq<T>>, world: nat, globalLen: nat, p: nat, x: nat)
    requires Sharded(shards, world, globalLen) && p < world && x < globalLen / world
    ensures p * (globalLen / world) + x < globalLen
    ensures At(shards, world, globalLen, p * (globalLen / world) + x) == shards[p][x]
  {
    var len := globalLen / world;
    MulGap(p, world, len);
    DivModOf(p * len + x, p, x, len);
  }

  /** Two shardings of one axis over the same world that hold the same axis are the same. */
  lemma SameAxisSameShards<T>(a: seq<seq<T>>, b: seq<seq<T>>, world: nat, globalLen: nat)
    requires Sharded(a, world, globalLen) && Sharded(b, world, globalLen)
    requires forall g | 0 <= g < globalLen :: At(a, world, globalLen, g) == At(b, world, globalLen, g)
    ensures a == b
  {
    forall p | 0 <= p < world ensures a[p] == b[p] {
      forall x | 0 <= x < globalLen / world ensures a[p][x] == b[p][x] {
        AtShard(a, world, globalLen, p, x);
        AtShard(b, world, globalLen, p, x);
      }
    }
  }

  /** Resharding to any world size and back restores every shard. */
  lemma ReshardRoundTrip<T>(dim: KvDim, shards: seq<seq<T>>, globalLen: nat, dstWorld: nat)
    requires Sharded(shards, |shards|, globalLen) && Divides(dstWorld, globalLen)
    ensures var there := Reshard(dim, shards, globalLen, dstWorld);
            Sharded(there, |there|, globalLen) && Reshard(dim, there, globalLen, |shards|) == shards
  {
    var there := Reshard(dim, shards, globalLen, dstWorld);
    SameAxisSameShards(Reshard(dim, there, globalLen, |shards|), shards, |shards|, globalLen);
  }
}
