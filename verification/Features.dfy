/** Which features a connector takes part in: the requested ones and everything they bring along. */
module Features {
  import opened Outcome

  datatype FeatureKey = P2P | ConditionalDisagg | ConnectorControl | Indexer | PrefillRouter

  function AsLabel(k: FeatureKey): string {
    match k
    case P2P => "p2p"
    case ConditionalDisagg => "disagg"
    case ConnectorControl => "connector_control"
    case Indexer => "indexer"
    case PrefillRouter => "prefill_router"
  }

  function FromLabel(s: string): (r: Option<FeatureKey>)
    ensures r.Some? ==> AsLabel(r.value) == s
    ensures forall k: FeatureKey | AsLabel(k) == s :: r == Some(k)
  {
    if s == "p2p" then Some(P2P)
    else if s == "disagg" then Some(ConditionalDisagg)
    else if s == "connector_control" then Some(ConnectorControl)
    else if s == "indexer" then Some(Indexer)
    else if s == "prefill_router" then Some(PrefillRouter)
    else None
  }

  /** The labels features are known by. */
  lemma LabelTable()
    ensures FromLabel("p2p") == Some(P2P) && FromLabel("disagg") == Some(ConditionalDisagg)
    ensures FromLabel("connector_control") == Some(ConnectorControl) && FromLabel("indexer") == Some(Indexer)
    ensures FromLabel("prefill_router") == Some(PrefillRouter)
    ensures forall s :: FromLabel(s).Some? ==>
              s in ["p2p", "disagg", "connector_control", "indexer", "prefill_router"]
  {
    assert |"p2p"| < |"disagg"| < |"indexer"| < |"prefill_router"| < |"connector_control"|;
  }

  /** What the hub says about one feature: hard dependencies, and features to render with it. */
  datatype Descriptor = Descriptor(key: FeatureKey, dependencies: seq<FeatureKey>, implies: seq<FeatureKey>)

  /** The place of a selectable feature in the output, and a place behind them for the others. */
  function Position(k: FeatureKey): nat {
    match k
    case Indexer => 0
    case P2P => 1
    case ConditionalDisagg => 2
    case PrefillRouter => 3
    case ConnectorControl => 4
  }

  predicate Selectable(k: FeatureKey) {
    Position(k) < 4
  }

  /** The selectable features the hub offers, in its order and with its repetitions. */
  function Enabled(features: seq<Descriptor>): seq<FeatureKey> {
    if features == [] then []
    else
      var n := |features| - 1;
      var rest := Enabled(features[..n]);
      if Selectable(features[n].key) then rest + [features[n].key] else rest
  }

  lemma {:induction false} EnabledIff(features: seq<Descriptor>, k: FeatureKey)
    ensures k in Enabled(features) <==> Selectable(k) && exists i | 0 <= i < |features| :: features[i].key == k
  {
    if features != [] {
      var n := |features| - 1;
      EnabledIff(features[..n], k);
      if i :| 0 <= i < |features| && features[i].key == k {
        assert i < n ==> features[..n][i].key == k;
      }
      if i :| 0 <= i < n && features[..n][i].key == k {
        assert features[i].key == k;
      }
    }
  }

  function Find(features: seq<Descriptor>, key: FeatureKey): Option<Descriptor> {
    if features == [] then None else if features[0].key == key then Some(features[0]) else Find(features[1..], key)
  }

  function Needs(features: seq<Descriptor>, key: FeatureKey): seq<FeatureKey> {
    match Find(features, key) case None => [] case Some(d) => d.dependencies
  }

  function Implies(features: seq<Descriptor>, key: FeatureKey): seq<FeatureKey> {
    match Find(features, key) case None => [] case Some(d) => d.implies
  }

  // ---- What should come out ----

  /** `a` brings `b` along: as a dependency, or as an implied feature the hub enables. */
  predicate Brings(features: seq<Descriptor>, a: FeatureKey, b: FeatureKey) {
    b in Needs(features, a) || (b in Implies(features, a) && b in Enabled(features))
  }

  /** The hub has a descriptor for the feature, and it is not the one kept from selection. */
  ghost predicate Offers(features: seq<Descriptor>, k: FeatureKey) {
    k != ConnectorControl && exists i | 0 <= i < |features| :: features[i].key == k
  }

  /** Descriptor `i` is the first for its feature. */
  ghost predicate Speaks(features: seq<Descriptor>, i: nat) {
    i < |features| && forall j | 0 <= j < i :: features[j].key != features[i].key
  }

  lemma OffersIff(features: seq<Descriptor>, k: FeatureKey)
    ensures k in Enabled(features) <==> Offers(features, k)
  {
    EnabledIff(features, k);
  }

  lemma {:induction false} FindSpeaks(features: seq<Descriptor>, k: FeatureKey) returns (i: nat)
    ensures Find(features, k).None? <==> forall j | 0 <= j < |features| :: features[j].key != k
    ensures Find(features, k).Some? ==> Speaks(features, i) && features[i] == Find(features, k).value
    ensures Find(features, k).Some? ==> features[i].key == k
  {
    if features == [] || features[0].key == k {
      i := 0;
    } else {
      var rest := FindSpeaks(features[1..], k);
      i := rest + 1;
      assert forall j | 1 <= j < |features| :: features[j] == features[1..][j - 1];
    }
  }

  /** What brings what: the first descriptor of `a` lists `b` as a dependency, or implies it where
      the hub offers it. */
  lemma BringsIff(features: seq<Descriptor>, a: FeatureKey, b: FeatureKey)
    ensures Brings(features, a, b) <==>
            exists i: nat | Speaks(features, i) && features[i].key == a ::
              b in features[i].dependencies || (b in features[i].implies && Offers(features, b))
  {
    var i := FindSpeaks(features, a);
    OffersIff(features, b);
    if Find(features, a).Some? {
      assert Speaks(features, i) && features[i].key == a;
      forall j: nat | Speaks(features, j) && features[j].key == a ensures j == i {
      }
    }
  }

  /** The output order. */
  lemma OutputOrder()
    ensures StrictlySorted([Indexer, P2P, ConditionalDisagg, PrefillRouter])
    ensures forall k: FeatureKey :: Selectable(k) <==> k in [Indexer, P2P, ConditionalDisagg, PrefillRouter]
  {
  }

  ghost predicate Path(features: seq<Descriptor>, p: seq<FeatureKey>) {
    p != [] && forall i | 0 <= i < |p| - 1 :: Brings(features, p[i], p[i + 1])
  }

  /** `k` is selected or brought along, directly or by others. */
  ghost predicate Reaches(features: seq<Descriptor>, from: set<FeatureKey>, k: FeatureKey) {
    exists p :: Path(features, p) && p[0] in from && p[|p| - 1] == k
  }

  /** A set with the selection in it and everything its members bring along. */
  ghost predicate Closed(features: seq<Descriptor>, from: set<FeatureKey>, s: set<FeatureKey>) {
    && from <= s
    && (forall a, b :: a in s && Brings(features, a, b) ==> b in s)
  }

  ghost predicate Satisfiable(features: seq<Descriptor>, from: set<FeatureKey>) {
    forall k, dep :: Reaches(features, from, k) && dep in Needs(features, k) ==> dep in Enabled(features)
  }

  lemma ReachesStart(features: seq<Descriptor>, from: set<FeatureKey>, k: FeatureKey)
    requires k in from
    ensures Reaches(features, from, k)
  {
    var p := [k];
    assert Path(features, p) && p[0] in from && p[|p| - 1] == k;
  }

  lemma ReachesStep(features: seq<Descriptor>, from: set<FeatureKey>, a: FeatureKey, b: FeatureKey)
    requires Reaches(features, from, a) && Brings(features, a, b)
    ensures Reaches(features, from, b)
  {
    var p :| Path(features, p) && p[0] in from && p[|p| - 1] == a;
    var q := p + [b];
    forall i | 0 <= i < |q| - 1 ensures Brings(features, q[i], q[i + 1]) {
      assert i < |p| - 1 ==> q[i] == p[i] && q[i + 1] == p[i + 1];
    }
    assert Path(features, q) && q[0] in from && q[|q| - 1] == b;
  }

  /** A closed set holds the end of every path from the selection. */
  lemma {:induction false} ClosedHoldsPath(features: seq<Descriptor>, from: set<FeatureKey>, s: set<FeatureKey>,
                                           p: seq<FeatureKey>)
    requires Closed(features, from, s) && Path(features, p) && p[0] in from
    ensures p[|p| - 1] in s
  {
    if |p| > 1 {
      ClosedHoldsPath(features, from, s, p[..|p| - 1]);
      assert Brings(features, p[|p| - 2], p[|p| - 1]);
    }
  }

  /** The reachable features are the least closed set. */
  lemma ReachableIsLeast(features: seq<Descriptor>, from: set<FeatureKey>)
    ensures Closed(features, from, set k: FeatureKey | Reaches(features, from, k))
    ensures forall s, k | Closed(features, from, s) && Reaches(features, from, k) :: k in s
  {
    forall k | k in from ensures Reaches(features, from, k) {
      ReachesStart(features, from, k);
    }
    forall a, b | Reaches(features, from, a) && Brings(features, a, b) ensures Reaches(features, from, b) {
      ReachesStep(features, from, a, b);
    }
    forall s, k | Closed(features, from, s) && Reaches(features, from, k) ensures k in s {
      var p :| Path(features, p) && p[0] in from && p[|p| - 1] == k;
      ClosedHoldsPath(features, from, s, p);
    }
  }

  lemma ReachedInClosed(features: seq<Descriptor>, from: set<FeatureKey>, s: set<FeatureKey>, k: FeatureKey)
    requires Closed(features, from, s) && Reaches(features, from, k)
    ensures k in s
  {
    ReachableIsLeast(features, from);
  }

  // ---- The selection ----

  predicate GoodLabel(features: seq<Descriptor>, s: string) {
    FromLabel(s).Some? && FromLabel(s).value in Enabled(features)
  }

  /** The features asked for, or all the hub offers if none were. */
  ghost function Selection(features: seq<Descriptor>, requested: seq<string>): set<FeatureKey> {
    set k: FeatureKey | if requested == [] then k in Enabled(features) else AsLabel(k) in requested
  }

  method Select(features: seq<Descriptor>, requested: seq<string>) returns (r: Result<seq<FeatureKey>>)
    ensures r.Ok? <==> forall s <- requested :: GoodLabel(features, s)
    ensures r.Ok? ==> forall k :: k in r.value <==> k in Selection(features, requested)
    ensures r.Ok? ==> forall k <- r.value :: k in Enabled(features)
  {
    var enabled := Enabled(features);
    if requested == [] {
      return Ok(enabled);
    }
    var sel: seq<FeatureKey> := [];
    for i := 0 to |requested|
      invariant forall s <- requested[..i] :: GoodLabel(features, s)
      invariant forall k :: k in sel <==> AsLabel(k) in requested[..i]
    {
      var key := FromLabel(requested[i]);
      if key.Some? {
        EnabledIff(features, key.value);
      }
      if key.None? || !Selectable(key.value) {
        assert requested[i] in requested;
        return Err("unknown feature");
      }
      if key.value !in enabled {
        assert requested[i] in requested;
        return Err("feature is not enabled on the hub");
      }
      if key.value !in sel {
        sel := sel + [key.value];
      }
      assert requested[..i + 1] == requested[..i] + [requested[i]];
    }
    assert requested[..|requested|] == requested;
    return Ok(sel);
  }

  // ---- The closure ----

  /** `grown` is `sel` with new features behind it, if any. */
  ghost predicate Grows(sel: seq<FeatureKey>, grown: seq<FeatureKey>) {
    sel <= grown && (|grown| > |sel| ==> grown[|sel|] !in sel)
  }

  method AddDependencies(enabled: seq<FeatureKey>, deps: seq<FeatureKey>, sel: seq<FeatureKey>)
    returns (r: Result<seq<FeatureKey>>)
    ensures r.Ok? <==> forall d <- deps :: d in enabled
    ensures r.Ok? ==> Grows(sel, r.value) && forall k :: k in r.value <==> k in sel || k in deps
  {
    var grown := sel;
    for i := 0 to |deps|
      invariant Grows(sel, grown)
      invariant forall k :: k in grown <==> k in sel || k in deps[..i]
      invariant forall d <- deps[..i] :: d in enabled
    {
      assert deps[..i + 1] == deps[..i] + [deps[i]];
      if deps[i] !in enabled {
        assert deps[i] in deps;
        return Err("dependency is not enabled on the hub");
      }
      if deps[i] !in grown {
        grown := grown + [deps[i]];
      }
    }
    assert deps[..|deps|] == deps;
    return Ok(grown);
  }

  method AddImplied(enabled: seq<FeatureKey>, implied: seq<FeatureKey>, sel: seq<FeatureKey>)
    returns (grown: seq<FeatureKey>)
    ensures Grows(sel, grown) && forall k :: k in grown <==> k in sel || (k in implied && k in enabled)
  {
    grown := sel;
    for i := 0 to |implied|
      invariant Grows(sel, grown)
      invariant forall k :: k in grown <==> k in sel || (k in implied[..i] && k in enabled)
    {
      assert implied[..i + 1] == implied[..i] + [implied[i]];
      if implied[i] in enabled && implied[i] !in grown {
        grown := grown + [implied[i]];
      }
    }
    assert implied[..|implied|] == implied;
  }

  /** All a feature brings along, after what is there. */
  method AddBrought(features: seq<Descriptor>, enabled: seq<FeatureKey>, key: FeatureKey, sel: seq<FeatureKey>)
    returns (r: Result<seq<FeatureKey>>)
    requires enabled == Enabled(features)
    ensures r.Ok? <==> forall d <- Needs(features, key) :: d in enabled
    ensures r.Ok? ==> Grows(sel, r.value) && forall k :: k in r.value <==> k in sel || Brings(features, key, k)
  {
    r := AddDependencies(enabled, Needs(features, key), sel);
    if r.Ok? {
      var grown := AddImplied(enabled, Implies(features, key), r.value);
      r := Ok(grown);
    }
  }

  ghost function Unseen(sel: seq<FeatureKey>): set<FeatureKey> {
    set k: FeatureKey | k !in sel
  }

  lemma GrowsUnseen(sel: seq<FeatureKey>, grown: seq<FeatureKey>)
    requires Grows(sel, grown)
    ensures Unseen(grown) <= Unseen(sel) && (grown == sel || Unseen(grown) < Unseen(sel))
  {
    forall k | k in sel ensures k in grown {
      var i :| 0 <= i < |sel| && sel[i] == k;
      assert grown[i] == k;
    }
    if |grown| > |sel| {
      assert grown[|sel|] in grown && grown[|sel|] in Unseen(sel);
    }
  }

  ghost predicate AllReached(features: seq<Descriptor>, from: set<FeatureKey>, sel: seq<FeatureKey>) {
    && (forall k <- from :: k in sel)
    && (forall k <- sel :: k in Enabled(features) && Reaches(features, from, k))
  }

  /** What the first `i` features bring along is there. */
  ghost predicate BroughtIn(features: seq<Descriptor>, sel: seq<FeatureKey>, i: nat) {
    && i <= |sel|
    && (forall j, b | 0 <= j < i :: Brings(features, sel[j], b) ==> b in sel)
    && (forall j, b | 0 <= j < i :: b in Needs(features, sel[j]) ==> b in Enabled(features))
  }

  lemma ReachedStep(features: seq<Descriptor>, from: set<FeatureKey>, sel: seq<FeatureKey>, i: nat,
                    grown: seq<FeatureKey>)
    requires AllReached(features, from, sel) && i < |sel|
    requires forall d <- Needs(features, sel[i]) :: d in Enabled(features)
    requires forall k :: k in grown <==> k in sel || Brings(features, sel[i], k)
    ensures AllReached(features, from, grown)
  {
    forall k | k in grown && k !in sel ensures k in Enabled(features) && Reaches(features, from, k) {
      ReachesStep(features, from, sel[i], k);
    }
  }

  lemma BroughtStep(features: seq<Descriptor>, sel: seq<FeatureKey>, i: nat, grown: seq<FeatureKey>)
    requires BroughtIn(features, sel, i) && i < |sel| && Grows(sel, grown)
    requires forall d <- Needs(features, sel[i]) :: d in Enabled(features)
    requires forall k :: k in grown <==> k in sel || Brings(features, sel[i], k)
    ensures BroughtIn(features, grown, i + 1)
  {
    assert forall j | 0 <= j <= i :: grown[j] == sel[j];
  }

  /** A finished worklist holds all that is reachable, and every dependency is enabled. */
  lemma WorkDone(features: seq<Descriptor>, from: set<FeatureKey>, sel: seq<FeatureKey>)
    requires AllReached(features, from, sel) && BroughtIn(features, sel, |sel|)
    ensures forall k :: k in sel <==> Reaches(features, from, k)
    ensures Satisfiable(features, from)
  {
    var s := set k | k in sel;
    assert Closed(features, from, s);
    ReachableIsLeast(features, from);
    forall k | Reaches(features, from, k) ensures k in sel {
      assert k in s;
    }
  }

  /** Each feature in turn adds what it brings along. */
  method Close(features: seq<Descriptor>, start: seq<FeatureKey>, ghost from: set<FeatureKey>)
    returns (r: Result<seq<FeatureKey>>)
    requires forall k <- start :: k in Enabled(features)
    requires forall k :: k in start <==> k in from
    ensures r.Ok? <==> Satisfiable(features, from)
    ensures r.Ok? ==> forall k :: k in r.value <==> Reaches(features, from, k)
    ensures r.Ok? ==> forall k <- r.value :: k in Enabled(features)
  {
    var enabled := Enabled(features);
    var sel, i := start, 0;
    forall k | k in from ensures Reaches(features, from, k) {
      ReachesStart(features, from, k);
    }
    while i < |sel|
      invariant AllReached(features, from, sel) && BroughtIn(features, sel, i)
      decreases Unseen(sel), |sel| - i
    {
      var added := AddBrought(features, enabled, sel[i], sel);
      if added.Err? {
        assert Reaches(features, from, sel[i]);
        return Err(added.reason);
      }
      ReachedStep(features, from, sel, i, added.value);
      BroughtStep(features, sel, i, added.value);
      GrowsUnseen(sel, added.value);
      sel, i := added.value, i + 1;
    }
    WorkDone(features, from, sel);
    return Ok(sel);
  }

  // ---- The output order ----

  ghost predicate Sorted(keys: seq<FeatureKey>) {
    forall i, j | 0 <= i < j < |keys| :: Position(keys[i]) <= Position(keys[j])
  }

  /** In output order, and no feature twice. */
  ghost predicate StrictlySorted(keys: seq<FeatureKey>) {
    forall i, j | 0 <= i < j < |keys| :: Position(keys[i]) < Position(keys[j])
  }

  function Insert(k: FeatureKey, keys: seq<FeatureKey>): seq<FeatureKey> {
    if keys == [] || Position(k) < Position(keys[0]) then [k] + keys else [keys[0]] + Insert(k, keys[1..])
  }

  function SortKeys(keys: seq<FeatureKey>): seq<FeatureKey> {
    if keys == [] then [] else Insert(keys[|keys| - 1], SortKeys(keys[..|keys| - 1]))
  }

  lemma {:induction false} InsertSorts(k: FeatureKey, keys: seq<FeatureKey>)
    requires Sorted(keys)
    ensures Sorted(Insert(k, keys)) && forall x :: x in Insert(k, keys) <==> x == k || x in keys
  {
    if keys != [] && Position(k) >= Position(keys[0]) {
      InsertSorts(k, keys[1..]);
      assert keys == [keys[0]] + keys[1..];
      var rest := Insert(k, keys[1..]);
      forall j | 0 <= j < |rest| ensures Position(keys[0]) <= Position(rest[j]) {
        assert rest[j] in rest;
      }
    }
  }

  lemma {:induction false} SortSorts(keys: seq<FeatureKey>)
    ensures Sorted(SortKeys(keys)) && forall x :: x in SortKeys(keys) <==> x in keys
  {
    if keys != [] {
      var n := |keys| - 1;
      SortSorts(keys[..n]);
      InsertSorts(keys[n], SortKeys(keys[..n]));
      assert keys == keys[..n] + [keys[n]];
    }
  }

  method Dedup(keys: seq<FeatureKey>) returns (out: seq<FeatureKey>)
    requires Sorted(keys)
    ensures StrictlySorted(out) && forall x :: x in out <==> x in keys
  {
    out := [];
    for i := 0 to |keys|
      invariant StrictlySorted(out) && (out == [] <==> i == 0)
      invariant i > 0 ==> out[|out| - 1] == keys[i - 1]
      invariant forall x :: x in out <==> x in keys[..i]
    {
      assert keys[..i + 1] == keys[..i] + [keys[i]];
      if out == [] || out[|out| - 1] != keys[i] {
        out := out + [keys[i]];
      }
    }
    assert keys[..|keys|] == keys;
  }

  lemma {:induction false} LastMember(keys: seq<FeatureKey>, k: FeatureKey)
    requires StrictlySorted(keys) && k in keys
    ensures Position(k) <= Position(keys[|keys| - 1])
    ensures k in keys[..|keys| - 1] <==> k != keys[|keys| - 1]
  {
    var i :| 0 <= i < |keys| && keys[i] == k;
    if i < |keys| - 1 {
      assert keys[..|keys| - 1][i] == k;
    }
  }

  lemma SomeMember(a: seq<FeatureKey>, b: seq<FeatureKey>)
    requires forall k :: k in b ==> k in a
    ensures b != [] ==> a != []
  {
    if b != [] {
      assert b[0] in b;
    }
  }

  /** There is only one such list for a set of features. */
  lemma {:induction false} OrderIsUnique(a: seq<FeatureKey>, b: seq<FeatureKey>)
    requires StrictlySorted(a) && StrictlySorted(b) && forall k :: k in a <==> k in b
    ensures a == b
  {
    SomeMember(a, b);
    SomeMember(b, a);
    if a != [] {
      var m, n := |a| - 1, |b| - 1;
      assert a[m] in b && b[n] in a;
      LastMember(a, b[n]);
      LastMember(b, a[m]);
      assert a[m] == b[n];
      forall k ensures k in a[..m] <==> k in b[..n] {
        if k in a {
          LastMember(a, k);
          LastMember(b, k);
        } else {
          assert k !in b;
        }
      }
      OrderIsUnique(a[..m], b[..n]);
      assert a == a[..m] + [a[m]] && b == b[..n] + [b[n]];
    }
  }

  /** The effective features: the least closed set over the selection, in output order; it fails
      exactly on a bad label or when a reachable feature has a dependency that is not enabled. */
  method ResolveFeatures(features: seq<Descriptor>, requested: seq<string>) returns (r: Result<seq<FeatureKey>>)
    ensures r.Ok? <==>
            (forall s <- requested :: GoodLabel(features, s)) && Satisfiable(features, Selection(features, requested))
    ensures r.Ok? ==> StrictlySorted(r.value)
    ensures r.Ok? ==> forall k :: k in r.value <==> Reaches(features, Selection(features, requested), k)
    ensures r.Ok? ==> forall k <- r.value :: k in Enabled(features)
  {
    r := Select(features, requested);
    if r.Err? {
      return;
    }
    r := Close(features, r.value, Selection(features, requested));
    if r.Err? {
      return;
    }
    SortSorts(r.value);
    var out := Dedup(SortKeys(r.value));
    r := Ok(out);
  }
}
