/** What the branch-point tracker's two maps say about the resident blocks, over all runs of
    registrations and removals. */
module BranchRuns {
  import opened Outcome
  import opened Lineage
  import opened BranchTracker

  /** The resident blocks keyed to a parent; distinct parents may share a key. */
  function Children(residents: set<Plh>, key: ParentKey): set<Plh> {
    set hash | hash in residents && ParentKeyOf(hash) == Some(key)
  }

  function Fanout(records: map<ParentKey, Record>, key: ParentKey): nat {
    if key in records then records[key].current else 0
  }

  lemma ChildrenAdd(residents: set<Plh>, hash: Plh, key: ParentKey)
    requires hash !in residents
    ensures |Children(residents + {hash}, key)| == |Children(residents, key)| +
        if ParentKeyOf(hash) == Some(key) then 1 else 0
  {
    assert Children(residents + {hash}, key) == Children(residents, key) +
      if ParentKeyOf(hash) == Some(key) then {hash} else {};
  }

  lemma ChildrenSub(residents: set<Plh>, hash: Plh, key: ParentKey)
    ensures |Children(residents - {hash}, key)|
            == |Children(residents, key)| - if hash in residents && ParentKeyOf(hash) == Some(key) then 1 else 0
  {
    if hash in residents {
      assert (residents - {hash}) + {hash} == residents;
      ChildrenAdd(residents - {hash}, hash, key);
    } else {
      assert residents - {hash} == residents;
    }
  }

  // ---- The parent map ----

  /** The parent map holds exactly the resident non-root blocks, each with its parent's key. */
  ghost predicate ParentsExact(s: State) {
    && (forall hash :: hash in s.residents && hash.position > 0 <==> ChildKeyOf(hash) in s.parents)
    && (forall child <- s.parents ::
          child == ChildKeyOf(child.hash) && Some(s.parents[child]) == ParentKeyOf(child.hash))
  }

  lemma {:induction false} RunParents(ops: seq<Op>)
    ensures ParentsExact(Run(ops))
  {
    if ops != [] {
      RunParents(ops[..|ops| - 1]);
    }
  }

  // ---- Live children ----

  /** No record counts more children than are resident. */
  ghost predicate FanoutBounded(s: State) {
    forall key :: Fanout(s.records, key) <= |Children(s.residents, key)|
  }

  /** Every key counts exactly its resident children. */
  ghost predicate FanoutExact(s: State) {
    forall key :: Fanout(s.records, key) == |Children(s.residents, key)|
  }

  lemma FanoutStep(s: State, op: Op, key: ParentKey)
    requires ParentsExact(s)
    requires Fanout(s.records, key) <= |Children(s.residents, key)|
    ensures var s' := Step(s, op);
            && Fanout(s'.records, key) <= |Children(s'.residents, key)|
            && (Fanout(s.records, key) == |Children(s.residents, key)| && !(op.Remove? && key == OwnKey(op.hash)) ==>
                  Fanout(s'.records, key) == |Children(s'.residents, key)|)
  {
    match op
    case Register(hash) =>
      if hash in s.residents {
        assert s.residents + {hash} == s.residents;
      } else {
        ChildrenAdd(s.residents, hash, key);
      }
    case Remove(hash) => ChildrenSub(s.residents, hash, key);
  }

  /** In every run, whatever its order, the live count never exceeds the resident children. */
  lemma {:induction false} RunFanoutBounded(ops: seq<Op>)
    ensures FanoutBounded(Run(ops))
  {
    if ops == [] {
      assert forall key :: Children({}, key) == {};
    } else {
      var before := Run(ops[..|ops| - 1]);
      RunFanoutBounded(ops[..|ops| - 1]);
      RunParents(ops[..|ops| - 1]);
      forall key ensures Fanout(Run(ops).records, key) <= |Children(Run(ops).residents, key)| {
        FanoutStep(before, ops[|ops| - 1], key);
      }
    }
  }

  /** The call does not remove a block that still has a resident child. */
  ghost predicate ChildrenGoFirst(s: State, op: Op) {
    op.Remove? ==> Children(s.residents, OwnKey(op.hash)) == {}
  }

  /** The live counts stay exact under a call if and only if it removes no block that still
      has a resident child. */
  lemma ExactIffChildrenGoFirst(s: State, op: Op)
    requires ParentsExact(s) && FanoutExact(s)
    ensures FanoutExact(Step(s, op)) <==> ChildrenGoFirst(s, op)
  {
    var s' := Step(s, op);
    if op.Remove? {
      var own := OwnKey(op.hash);
      ChildrenSub(s.residents, op.hash, own);
      assert Fanout(s'.records, own) == 0;
      assert Children(s.residents, own) == {} <==> |Children(s.residents, own)| == 0;
    }
    if ChildrenGoFirst(s, op) {
      forall key ensures Fanout(s'.records, key) == |Children(s'.residents, key)| {
        FanoutStep(s, op, key);
      }
    }
  }

  ghost predicate ChildrenFirstRun(ops: seq<Op>) {
    ops == [] || (ChildrenFirstRun(ops[..|ops| - 1]) && ChildrenGoFirst(Run(ops[..|ops| - 1]), ops[|ops| - 1]))
  }

  /** A run that removes children before parents keeps every live count exact. */
  lemma {:induction false} RunFanoutExact(ops: seq<Op>)
    requires ChildrenFirstRun(ops)
    ensures FanoutExact(Run(ops))
  {
    if ops == [] {
      assert forall key :: Children({}, key) == {};
    } else {
      RunFanoutExact(ops[..|ops| - 1]);
      RunParents(ops[..|ops| - 1]);
      ExactIffChildrenGoFirst(Run(ops[..|ops| - 1]), ops[|ops| - 1]);
    }
  }

  /** The counts are exact at the end of a run and at every earlier point of it. */
  ghost predicate ExactThroughout(ops: seq<Op>) {
    FanoutExact(Run(ops)) && (ops == [] || ExactThroughout(ops[..|ops| - 1]))
  }

  /** The counts are exact all through a run if and only if it removes children before parents. */
  lemma {:induction false} ExactThroughoutIff(ops: seq<Op>)
    ensures ExactThroughout(ops) <==> ChildrenFirstRun(ops)
  {
    if ops == [] {
      assert forall key :: Children({}, key) == {};
    } else {
      ExactThroughoutIff(ops[..|ops| - 1]);
      RunParents(ops[..|ops| - 1]);
      if ExactThroughout(ops[..|ops| - 1]) {
        ExactIffChildrenGoFirst(Run(ops[..|ops| - 1]), ops[|ops| - 1]);
      }
    }
  }

  /** Removing a parent under its child: the child stays resident, the count is gone. */
  lemma ParentRemovedFirst(h: Hasher, parent: Plh, blockHash: nat)
    ensures var child := Extend(h, parent, blockHash);
            var s := Run([Register(parent), Register(child), Remove(parent)]);
            child in Children(s.residents, OwnKey(parent)) && Fanout(s.records, OwnKey(parent)) == 0 && !FanoutExact(s)
  {
    var child := Extend(h, parent, blockHash);
    var ops := [Register(parent), Register(child), Remove(parent)];
    assert ops[..2] == [Register(parent), Register(child)] && ops[..2][..1] == [Register(parent)];
    var s := Run(ops);
    assert s == Step(Run(ops[..2]), Remove(parent)) && Run(ops[..2]) == Step(Run([Register(parent)]), Register(child));
    KeysMeet(h, parent, blockHash);
    assert child in Children(s.residents, OwnKey(parent));
    assert |Children(s.residents, OwnKey(parent))| > 0;
  }

  /** While the counts are exact, removing a resident child never meets an absent record or a
      count of zero, so the subtraction never saturates. */
  lemma ExactNeverSaturates(s: State, hash: Plh)
    requires ParentsExact(s) && FanoutExact(s) && hash in s.residents && hash.position > 0
    ensures var key := s.parents[ChildKeyOf(hash)]; key in s.records && s.records[key].current > 0
  {
    var key := s.parents[ChildKeyOf(hash)];
    assert hash in Children(s.residents, key);
    assert |Children(s.residents, key)| > 0;
    assert Fanout(s.records, key) > 0;
  }

  // ---- Bounded state ----

  ghost predicate ResidentParent(residents: set<Plh>, key: ParentKey) {
    exists hash <- residents :: OwnKey(hash) == key
  }

  /** Every record belongs to a resident block. */
  ghost predicate RecordsOwned(s: State) {
    forall key <- s.records :: ResidentParent(s.residents, key)
  }

  /** The call registers no block whose parent is not resident, unless the block is a root or
      is resident already. */
  ghost predicate ParentsComeFirst(s: State, op: Op) {
    op.Register? && op.hash.position > 0 && op.hash !in s.residents ==>
      ResidentParent(s.residents, ParentKeyOf(op.hash).value)
  }

  /** Records stay owned by residents under a call if and only if it registers no orphan. */
  lemma OwnedIffParentsComeFirst(s: State, op: Op)
    requires ParentsExact(s) && RecordsOwned(s)
    ensures RecordsOwned(Step(s, op)) <==> ParentsComeFirst(s, op)
  {
    var s' := Step(s, op);
    match op
    case Register(hash) =>
      forall key | ResidentParent(s.residents, key) ensures ResidentParent(s'.residents, key) {
        var owner :| owner in s.residents && OwnKey(owner) == key;
        assert owner in s'.residents;
      }
      if !ParentsComeFirst(s, op) {
        var key := ParentKeyOf(hash).value;
        assert ChildKeyOf(hash) !in s.parents && key in s'.records;
        forall owner <- s'.residents ensures OwnKey(owner) != key {
        }
      }
    case Remove(hash) =>
      forall key <- s'.records ensures ResidentParent(s'.residents, key) {
        assert key in s.records && key != OwnKey(hash);
        var owner :| owner in s.residents && OwnKey(owner) == key;
        assert owner in s'.residents;
      }
  }

  ghost predicate Disciplined(ops: seq<Op>) {
    ops == [] || (Disciplined(ops[..|ops| - 1]) && ParentsComeFirst(Run(ops[..|ops| - 1]), ops[|ops| - 1]))
  }

  lemma {:induction false} RunOwned(ops: seq<Op>)
    requires Disciplined(ops)
    ensures RecordsOwned(Run(ops))
  {
    if ops != [] {
      RunOwned(ops[..|ops| - 1]);
      RunParents(ops[..|ops| - 1]);
      OwnedIffParentsComeFirst(Run(ops[..|ops| - 1]), ops[|ops| - 1]);
    }
  }

  /** Every record is owned at the end of a run and at every earlier point of it. */
  ghost predicate OwnedThroughout(ops: seq<Op>) {
    RecordsOwned(Run(ops)) && (ops == [] || OwnedThroughout(ops[..|ops| - 1]))
  }

  /** Records are owned by residents all through a run if and only if it registers no orphan. */
  lemma {:induction false} OwnedThroughoutIff(ops: seq<Op>)
    ensures OwnedThroughout(ops) <==> Disciplined(ops)
  {
    if ops != [] {
      OwnedThroughoutIff(ops[..|ops| - 1]);
      RunParents(ops[..|ops| - 1]);
      if OwnedThroughout(ops[..|ops| - 1]) {
        OwnedIffParentsComeFirst(Run(ops[..|ops| - 1]), ops[|ops| - 1]);
      }
    }
  }

  /** A lone orphan: it leaves a record for a parent that is not there. */
  lemma OrphanLeavesRecord(h: Hasher, parent: Plh, blockHash: nat)
    ensures var s := Run([Register(Extend(h, parent, blockHash))]);
            OwnKey(parent) in s.records && !ResidentParent(s.residents, OwnKey(parent)) && !RecordsOwned(s)
  {
    var child := Extend(h, parent, blockHash);
    assert [Register(child)][..0] == [];
    assert Run([Register(child)]) == Step(EMPTY, Register(child));
    KeysMeet(h, parent, blockHash);
  }

  function OwnKeys(residents: set<Plh>): set<ParentKey> {
    set hash | hash in residents :: OwnKey(hash)
  }

  lemma {:induction false} OwnKeysBound(residents: set<Plh>)
    ensures |OwnKeys(residents)| <= |residents|
  {
    if residents != {} {
      var hash :| hash in residents;
      OwnKeysBound(residents - {hash});
      assert OwnKeys(residents) == OwnKeys(residents - {hash}) + {OwnKey(hash)};
    }
  }

  lemma SubsetSize<T>(a: set<T>, b: set<T>)
    requires a <= b
    ensures |a| <= |b|
  {
    assert b == a + (b - a);
  }

  lemma {:induction false} ChildKeysBound(children: set<ChildKey>, residents: set<Plh>)
    requires forall child <- children :: child.hash in residents && child == ChildKeyOf(child.hash)
    ensures |children| <= |residents|
  {
    if children != {} {
      var child :| child in children;
      ChildKeysBound(children - {child}, residents - {child.hash});
    }
  }

  /** With parents registered before children, in every run neither map outgrows the resident
      set; in particular, once every resident is gone both maps are empty, whatever the order
      of removal. */
  lemma RunBounded(ops: seq<Op>)
    requires Disciplined(ops)
    ensures |Run(ops).parents| <= |Run(ops).residents|
    ensures |Run(ops).records| <= |Run(ops).residents|
    ensures Run(ops).residents == {} ==> Run(ops).parents == map[] && Run(ops).records == map[]
  {
    var s := Run(ops);
    RunParents(ops);
    RunOwned(ops);
    assert s.records.Keys <= OwnKeys(s.residents);
    SubsetSize(s.records.Keys, OwnKeys(s.residents));
    OwnKeysBound(s.residents);
    forall child <- s.parents.Keys ensures child.hash in s.residents {
      assert ChildKeyOf(child.hash) in s.parents;
    }
    ChildKeysBound(s.parents.Keys, s.residents);
  }

  ghost predicate Removals(ops: seq<Op>) {
    forall i | 0 <= i < |ops| :: ops[i].Remove?
  }

  /** Some call of the list removes a block with the key. */
  ghost predicate RemovesKey(ops: seq<Op>, key: ParentKey) {
    exists i | 0 <= i < |ops| :: ops[i].Remove? && OwnKey(ops[i].hash) == key
  }

  lemma RemoveOneMore(ops: seq<Op>, hash: Plh, key: ParentKey)
    ensures Run(ops + [Remove(hash)]).residents == Run(ops).residents - {hash}
    ensures key in Run(ops + [Remove(hash)]).records <==> key in Run(ops).records && key != OwnKey(hash)
  {
    assert (ops + [Remove(hash)])[..|ops|] == ops;
  }

  lemma RemovesOneMore(removals: seq<Op>, key: ParentKey)
    requires removals != [] && Removals(removals)
    ensures RemovesKey(removals, key) <==>
        RemovesKey(removals[..|removals| - 1], key) || OwnKey(removals[|removals| - 1].hash) == key
  {
    var before := removals[..|removals| - 1];
    if RemovesKey(before, key) {
      var i :| 0 <= i < |before| && before[i].Remove? && OwnKey(before[i].hash) == key;
      assert removals[i] == before[i];
    }
    if RemovesKey(removals, key) && OwnKey(removals[|removals| - 1].hash) != key {
      var i :| 0 <= i < |removals| && removals[i].Remove? && OwnKey(removals[i].hash) == key;
      assert before[i] == removals[i];
    }
  }

  /** In any run, removals leave exactly the residents not named and the records whose key is no
      removed block's. */
  lemma {:induction false} RemovalsLeave(ops: seq<Op>, removals: seq<Op>, hash: Plh, key: ParentKey)
    requires Removals(removals)
    ensures hash in Run(ops + removals).residents <==> hash in Run(ops).residents && Remove(hash) !in removals
    ensures key in Run(ops + removals).records <==> key in Run(ops).records && !RemovesKey(removals, key)
  {
    if removals == [] {
      assert ops + removals == ops;
    } else {
      var before, last := removals[..|removals| - 1], removals[|removals| - 1];
      RemovalsLeave(ops, before, hash, key);
      RemovesOneMore(removals, key);
      RemoveOneMore(ops + before, last.hash, key);
      assert ops + removals == (ops + before) + [Remove(last.hash)];
      assert Remove(hash) in removals <==> Remove(hash) in before || hash == last.hash;
    }
  }

  /** After any run, removing every resident, in any order and with any repeats, empties the parent
      map, and the records if and only if every record's key is that of some removed block. */
  lemma DrainIff(ops: seq<Op>, removals: seq<Op>)
    requires Removals(removals) && forall hash <- Run(ops).residents :: Remove(hash) in removals
    ensures Run(ops + removals).parents == map[]
    ensures Run(ops + removals).records == map[] <==> forall key <- Run(ops).records :: RemovesKey(removals, key)
  {
    var s := Run(ops + removals);
    RunParents(ops + removals);
    forall child <- s.parents.Keys ensures child.hash in s.residents {
      assert ChildKeyOf(child.hash) in s.parents;
    }
    forall hash, key
      ensures hash !in s.residents
      ensures key in s.records <==> key in Run(ops).records && !RemovesKey(removals, key)
    {
      RemovalsLeave(ops, removals, hash, key);
    }
    assert s.parents.Keys == {};
    assert s.records == map[] <==> forall key :: key !in s.records;
  }

  /** So after a run with parents registered first it empties both. */
  lemma DrainEmpties(ops: seq<Op>, removals: seq<Op>)
    requires Disciplined(ops) && Removals(removals) && forall hash <- Run(ops).residents :: Remove(hash) in removals
    ensures Run(ops + removals).parents == map[] && Run(ops + removals).records == map[]
  {
    RunOwned(ops);
    forall key | key in Run(ops).records ensures RemovesKey(removals, key) {
      var hash :| hash in Run(ops).residents && OwnKey(hash) == key;
      var i :| 0 <= i < |removals| && removals[i] == Remove(hash);
    }
    DrainIff(ops, removals);
  }

  // ---- High-water marks ----

  /** The largest live count since the record for `key` last came into being. */
  function Peak(ops: seq<Op>, key: ParentKey): nat {
    if ops == [] || key !in Run(ops).records then 0
    else Max(Peak(ops[..|ops| - 1], key), Run(ops).records[key].current)
  }

  /** How many children were newly registered under `key` since its record came into being. */
  function Registrations(ops: seq<Op>, key: ParentKey): nat {
    if ops == [] || key !in Run(ops).records then 0
    else
      var before, op := ops[..|ops| - 1], ops[|ops| - 1];
      Registrations(before, key)
      + if NewChild(Run(before), op, key) then 1 else 0
  }

  ghost predicate RecordSound(record: Record, key: ParentKey) {
    record.key == key && record.current <= record.max && record.observations <= U32_MAX
  }

  predicate NewChild(s: State, op: Op, key: ParentKey) {
    op.Register? && ParentKeyOf(op.hash) == Some(key) && ChildKeyOf(op.hash) !in s.parents
  }

  /** One call on one record: it is dropped only by removing a block with its key; otherwise
      its peak never falls and absorbs the new live count. */
  lemma RecordStep(s: State, op: Op, key: ParentKey)
    requires key in s.records ==> RecordSound(s.records[key], key)
    ensures key in s.records && !(op.Remove? && OwnKey(op.hash) == key) ==>
              key in Step(s, op).records && Step(s, op).records[key].max >= s.records[key].max
    ensures key in Step(s, op).records ==>
              var record, old' := Step(s, op).records[key],
                if key in s.records then s.records[key] else Record(key, 0, 0, 0);
              && RecordSound(record, key)
              && record.max == Max(old'.max, record.current)
              && record.observations == old'.observations +
                if NewChild(s, op, key) && old'.observations < U32_MAX then 1 else 0
  {
  }

  /** In every run a record carries its own key, the peak of its live count over its life, and
      the number of children ever registered under it, capped at 32 bits. */
  lemma {:induction false} RunRecord(ops: seq<Op>, key: ParentKey)
    requires key in Run(ops).records
    ensures var record := Run(ops).records[key];
            && RecordSound(record, key)
            && record.max == Peak(ops, key)
            && record.observations == if Registrations(ops, key) < U32_MAX then Registrations(ops, key) else U32_MAX
  {
    var before := ops[..|ops| - 1];
    if key in Run(before).records {
      RunRecord(before, key);
    }
    RecordStep(Run(before), ops[|ops| - 1], key);
  }
}
