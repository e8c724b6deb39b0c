/** The branch-point tracker: for every resident block its parent's key, and for every parent
    key the live and the peak number of children. */
module BranchTracker {
  import opened Outcome
  import opened Lineage

  const U32_MAX := U32 - 1

  /** A node as a parent: its position and the part of its hash its children carry. */
  datatype ParentKey = ParentKey(position: nat, fragment: nat)

  /** A node as a child: its position and its whole hash. */
  datatype ChildKey = ChildKey(position: nat, hash: Plh)

  datatype Record = Record(key: ParentKey, current: nat, max: nat, observations: nat)

  /** The two maps, and the blocks registered and not yet removed. */
  datatype State = State(parents: map<ChildKey, ParentKey>, records: map<ParentKey, Record>, residents: set<Plh>)

  const EMPTY := State(map[], map[], {})

  datatype Op = Register(hash: Plh) | Remove(hash: Plh)

  function ParentKeyOf(hash: Plh): Option<ParentKey> {
    if hash.position == 0 then None else Some(ParentKey(hash.position - 1, hash.parentFragment))
  }

  function ChildKeyOf(hash: Plh): ChildKey {
    ChildKey(hash.position, hash)
  }

  /** The key that children of `hash` compute for their parent. */
  function OwnKey(hash: Plh): ParentKey {
    ParentKey(hash.position, FragmentForChild(hash, hash.position + 1))
  }

  function Max(a: nat, b: nat): nat { if a < b then b else a }

  function Observe(record: Record): Record {
    Record(record.key, record.current + 1, Max(record.max, record.current + 1),
           if record.observations < U32_MAX then record.observations + 1 else record.observations)
  }

  function Forget(record: Record): Record {
    record.(current := if record.current == 0 then 0 else record.current - 1)
  }

  function Step(s: State, op: Op): State {
    match op
    case Register(hash) =>
      var residents := s.residents + {hash};
      (match ParentKeyOf(hash)
       case None => s.(residents := residents)
       case Some(key) =>
         if ChildKeyOf(hash) in s.parents then s.(residents := residents)
         else
           var record := if key in s.records then s.records[key] else Record(key, 0, 0, 0);
           State(s.parents[ChildKeyOf(hash) := key], s.records[key := Observe(record)], residents))
    case Remove(hash) =>
      var child := ChildKeyOf(hash);
      var records :=
        if child in s.parents && s.parents[child] in s.records
        then s.records[s.parents[child] := Forget(s.records[s.parents[child]])] else s.records;
      State(s.parents - {child}, records - {OwnKey(hash)}, s.residents - {hash})
  }

  function Run(ops: seq<Op>): State {
    if ops == [] then EMPTY else Step(Run(ops[..|ops| - 1]), ops[|ops| - 1])
  }

  class BranchPointTracker {
    var parents: map<ChildKey, ParentKey>
    var records: map<ParentKey, Record>
    ghost var residents: set<Plh>

    ghost function Model(): State
      reads this
    {
      State(parents, records, residents)
    }

    constructor ()
      ensures Model() == EMPTY
    {
      parents, records, residents := map[], map[], {};
    }

    method OnBlockRegistered(hash: Plh)
      modifies this
      ensures Model() == Step(old(Model()), Register(hash))
    {
      residents := residents + {hash};
      var key := ParentKeyOf(hash);
      if key.None? {
        return;
      }
      var childKey := ChildKeyOf(hash);
      if childKey in parents {
        return;
      }
      parents := parents[childKey := key.value];
      var record := if key.value in records then records[key.value] else Record(key.value, 0, 0, 0);
      var current := record.current + 1;
      var max := if record.max < current then current else record.max;
      var observations := if record.observations < U32_MAX then record.observations + 1 else record.observations;
      records := records[key.value := Record(record.key, current, max, observations)];
    }

    method OnBlockRemoved(hash: Plh)
      modifies this
      ensures Model() == Step(old(Model()), Remove(hash))
    {
      residents := residents - {hash};
      var childKey := ChildKeyOf(hash);
      if childKey in parents {
        var key := parents[childKey];
        parents := parents - {childKey};
        if key in records {
          var record := records[key];
          records := records[key := record.(current := if record.current > 0 then record.current - 1 else 0)];
        }
      }
      records := records - {OwnKey(hash)};
      assert parents == old(parents) - {childKey};
    }

    method MaxFanout(hash: Plh) returns (fanout: Option<nat>)
      ensures fanout == if OwnKey(hash) in records then Some(records[OwnKey(hash)].max) else None
    {
      if OwnKey(hash) in records {
        return Some(records[OwnKey(hash)].max);
      }
      return None;
    }
  }

  /** A child's idea of its parent's key is the parent's own, across every fragment width. This
      is how the model defines extending a hash; the bit packing behind it is not modelled. */
  lemma KeysMeet(h: Hasher, parent: Plh, blockHash: nat)
    ensures ParentKeyOf(Extend(h, parent, blockHash)) == Some(OwnKey(parent))
  {
  }
}
