/** The connectors of a hub with the repository's own features, rendered role by role. */
module RenderInstances {
  import opened Outcome
  import opened Features
  import opened Json
  import opened Overrides
  import opened Render

  /** What the hub offers with the managers' own dependencies and implied features. */
  const OWN: seq<Descriptor> := [Descriptor(P2P, [], []), Descriptor(ConditionalDisagg, [P2P], [PrefillRouter]),
                                 Descriptor(PrefillRouter, [], [])]

  const THREE: set<FeatureKey> := {P2P, ConditionalDisagg, PrefillRouter}

  lemma OwnOffers(k: FeatureKey)
    ensures k in Enabled(OWN) <==> k in THREE
  {
    OffersIff(OWN, k);
    assert OWN[0].key == P2P && OWN[1].key == ConditionalDisagg && OWN[2].key == PrefillRouter;
    if i :| 0 <= i < |OWN| && OWN[i].key == k {
      assert i == 0 || i == 1 || i == 2;
    }
  }

  lemma OwnFinds(k: FeatureKey)
    ensures Needs(OWN, k) == if k == ConditionalDisagg then [P2P] else []
    ensures Implies(OWN, k) == if k == ConditionalDisagg then [PrefillRouter] else []
  {
    assert OWN[1..] == [Descriptor(ConditionalDisagg, [P2P], [PrefillRouter]), Descriptor(PrefillRouter, [], [])];
    assert OWN[1..][1..] == [Descriptor(PrefillRouter, [], [])];
    assert OWN[1..][1..][1..] == [];
  }

  lemma OwnBrings(a: FeatureKey, b: FeatureKey)
    ensures Brings(OWN, a, b) <==> a == ConditionalDisagg && (b == P2P || b == PrefillRouter)
  {
    OwnFinds(a);
    OwnOffers(b);
  }

  lemma OwnClosed()
    ensures Closed(OWN, {ConditionalDisagg}, THREE)
  {
    forall a, b | a in THREE && Brings(OWN, a, b) ensures b in THREE {
      OwnBrings(a, b);
    }
  }

  lemma OwnReached(k: FeatureKey)
    requires k in THREE
    ensures Reaches(OWN, {ConditionalDisagg}, k)
  {
    ReachesStart(OWN, {ConditionalDisagg}, ConditionalDisagg);
    if k != ConditionalDisagg {
      OwnBrings(ConditionalDisagg, k);
      ReachesStep(OWN, {ConditionalDisagg}, ConditionalDisagg, k);
    }
  }

  lemma OwnReaches(k: FeatureKey)
    ensures Reaches(OWN, {ConditionalDisagg}, k) <==> k in THREE
  {
    if k in THREE {
      OwnReached(k);
    } else if Reaches(OWN, {ConditionalDisagg}, k) {
      OwnClosed();
      ReachedInClosed(OWN, {ConditionalDisagg}, THREE, k);
    }
  }

  lemma DisaggSelected()
    ensures Selection(OWN, ["disagg"]) == {ConditionalDisagg}
  {
    forall k: FeatureKey ensures AsLabel(k) in ["disagg"] <==> k == ConditionalDisagg {
      assert AsLabel(k) == "disagg" ==> FromLabel("disagg") == Some(k);
    }
  }

  function DisaggFeatures(role: string): seq<FeatureKey> {
    if role == "prefill" then [P2P, ConditionalDisagg, PrefillRouter] else [P2P, ConditionalDisagg]
  }

  lemma DisaggMembers(role: string, k: FeatureKey)
    ensures k in DisaggFeatures(role) <==> k in THREE && (k == PrefillRouter ==> role == "prefill")
    ensures StrictlySorted(DisaggFeatures(role))
  {
    OutputOrder();
    var all := [Indexer, P2P, ConditionalDisagg, PrefillRouter];
    assert Position(all[1]) < Position(all[2]) < Position(all[3]);
  }

  lemma DisaggEffective(hub: Hub, opts: Options, role: string)
    requires hub.features == OWN && opts.features == ["disagg"] && opts.role == Some(role)
    ensures IsEffective(hub, opts, DisaggFeatures(role))
  {
    DisaggSelected();
    assert KeepsRouter(opts) <==> role == "prefill" by {
      assert forall s <- opts.features :: s == "disagg";
      assert |"disagg"| != |"prefill_router"|;
    }
    forall k: FeatureKey
      ensures StrictlySorted(DisaggFeatures(role))
      ensures k in DisaggFeatures(role) <==>
          Reaches(OWN, {ConditionalDisagg}, k) && (k == PrefillRouter ==> role == "prefill")
    {
      DisaggMembers(role, k);
      OwnReaches(k);
    }
  }

  /** Asked for disagg alone, a prefill instance is rendered with the router its feature implies, and
      an instance of any other role without it. */
  lemma DisaggInstance(hub: Hub, url: string, parse: Parser, role: string) returns (out: Rendered)
    requires hub.features == OWN
    ensures IsRendered(hub, url, Options(["disagg"], Some(role), [], None), parse, out)
    ensures Get(out.config, ["leader", "hub", "features"]) ==
            Some(Arr(if role == "prefill" then [Str("p2p"), Str("disagg"), Str("prefill_router")]
                     else [Str("p2p"), Str("disagg")]))
    ensures Get(out.config, ["leader", "disagg", "role"]) == Some(Str(role))
  {
    var opts, effective := Options(["disagg"], Some(role), [], None), DisaggFeatures(role);
    DisaggEffective(hub, opts, role);
    assert ConditionalDisagg in effective by {
      assert effective[1] == ConditionalDisagg;
    }
    var extra := BuildExtraConfig(hub.primary, effective, url, opts.role).value;
    out := Rendered(effective, Merged(Tuned(hub, opts, parse, extra),
                                      AuthoritativeOverlay(hub.primary, effective, url, opts.role)));
    assert IsRendered(hub, url, opts, parse, out);
    RenderedFields(hub, url, opts, parse, out);
    LabelsOf(effective, role, Get(out.config, ["leader", "hub", "features"]).value.items);
  }

  lemma LabelsOf(effective: seq<FeatureKey>, role: string, items: seq<Json>)
    requires effective == DisaggFeatures(role) && |items| == |effective|
    requires forall i | 0 <= i < |effective| :: items[i] == Str(AsLabel(effective[i]))
    ensures items == if role == "prefill" then [Str("p2p"), Str("disagg"), Str("prefill_router")]
                     else [Str("p2p"), Str("disagg")]
  {
  }
}
