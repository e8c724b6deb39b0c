/** Every interleaving of any number of dispatch and calibrate handlers is safe, and exactly
    when a prefill can still run beside a sweep. */
module PrefillSafety {
  import opened PrefillRouter

  // ---- One handler moves at a time ----

  lemma SizeWithout(ids: set<nat>, id: nat)
    ensures |ids| == |ids - {id}| + if id in ids then 1 else 0
  {
    if id in ids {
      assert ids == (ids - {id}) + {id};
    } else {
      assert ids == ids - {id};
    }
  }

  lemma RunningMove(dispatches: map<nat, Dispatch>, id: nat, d: Dispatch)
    ensures var was := id in dispatches && dispatches[id].Running?;
            |RunningIds(dispatches[id := d])| == |RunningIds(dispatches)| +
              (if d.Running? then 1 else 0) - (if was then 1 else 0)
  {
    SizeWithout(RunningIds(dispatches), id);
    SizeWithout(RunningIds(dispatches[id := d]), id);
    assert RunningIds(dispatches[id := d]) - {id} == RunningIds(dispatches) - {id};
  }

  lemma HolderMove(calibrates: map<nat, Calibrate>, id: nat, c: Calibrate)
    ensures var was := id in calibrates && Holding(calibrates[id].phase);
            |HolderIds(calibrates[id := c])| == |HolderIds(calibrates)| +
              (if Holding(c.phase) then 1 else 0) - (if was then 1 else 0)
  {
    SizeWithout(HolderIds(calibrates), id);
    SizeWithout(HolderIds(calibrates[id := c]), id);
    assert HolderIds(calibrates[id := c]) - {id} == HolderIds(calibrates) - {id};
  }

  /** What a step can do to a calibrate's hold: only a successful compare-and-swap starts one,
      only a release ends one, and a sweep starts only on a zero count. */
  lemma PhaseMoves(resolve: Resolver, s: System, c: Calibrate, step: Step)
    ensures var p, p' := c.phase, NextPhase(resolve, s, c, step);
            && (Holding(p') && !Holding(p) ==> step.TakeFlag? && !s.calibrating && p'.casAt == s.now && !InSweep(p'))
            && (Holding(p) && !Holding(p') ==> step.Release?)
            && (p' != p && step.TakeFlag? ==> !Holding(p) && (s.calibrating <==> !Holding(p')))
            && (p' != p && step.Release? ==> Holding(p) && !Holding(p'))
            && (Holding(p) && Holding(p') ==> p'.casAt == p.casAt)
            && (InSweep(p') && !InSweep(p) ==> Holding(p) && s.inflight == 0 && p'.checkedAt == s.now)
            && (InSweep(p') && InSweep(p) ==> p'.checkedAt == p.checkedAt)
  {
  }

  lemma FlagStep(resolve: Resolver, s: System, step: Step)
    requires FlagExact(s)
    ensures FlagExact(Next(resolve, s, step))
  {
    var id := step.id;
    if step.Begin? {
      HolderMove(s.calibrates, id, Calibrate(step.request, Begun));
    } else if id in s.calibrates {
      var c := s.calibrates[id];
      var phase := NextPhase(resolve, s, c, step);
      PhaseMoves(resolve, s, c, step);
      HolderMove(s.calibrates, id, c.(phase := phase));
      if Holding(c.phase) {
        assert id in HolderIds(s.calibrates);
      }
    }
  }

  lemma CounterStep(resolve: Resolver, s: System, step: Step)
    requires CounterExact(s)
    ensures CounterExact(Next(resolve, s, step))
  {
    var id := step.id;
    if step.Arrive? {
      RunningMove(s.dispatches, id, Entered);
    } else if id in s.dispatches {
      RunningMove(s.dispatches, id, NextDispatch(s, s.dispatches[id], step));
      if s.dispatches[id].Running? {
        assert id in RunningIds(s.dispatches);
      }
    }
  }

  /** A step moves at most its own dispatch handler. */
  lemma DispatchesAfter(resolve: Resolver, s: System, step: Step, d: nat)
    requires d in Next(resolve, s, step).dispatches
    ensures d !in s.dispatches ==> Next(resolve, s, step).dispatches[d] == Entered
    ensures d in s.dispatches ==>
              Next(resolve, s, step).dispatches[d]
              == if d == step.id then NextDispatch(s, s.dispatches[d], step) else s.dispatches[d]
  {
  }

  /** A step moves at most its own calibrate handler. */
  lemma CalibratesAfter(resolve: Resolver, s: System, step: Step, c: nat)
    requires c in Next(resolve, s, step).calibrates
    ensures c !in s.calibrates ==> Next(resolve, s, step).calibrates[c].phase == Begun
    ensures c in s.calibrates ==>
              Next(resolve, s, step).calibrates[c]
              == if c == step.id then s.calibrates[c].(phase := NextPhase(resolve, s, s.calibrates[c], step))
                else s.calibrates[c]
    ensures c in s.calibrates && c == step.id ==>
              NextPhase(resolve, s, s.calibrates[c], step) != s.calibrates[c].phase ==>
              Next(resolve, s, step).dispatches == s.dispatches
  {
  }

  lemma NowAfter(resolve: Resolver, s: System, step: Step)
    ensures s.now <= Next(resolve, s, step).now
    ensures Next(resolve, s, step).now == s.now ==> Next(resolve, s, step) == s
  {
  }

  lemma TimelyStep(resolve: Resolver, s: System, step: Step)
    requires Timely(s)
    ensures Timely(Next(resolve, s, step))
  {
    var s' := Next(resolve, s, step);
    NowAfter(resolve, s, step);
    forall d <- s'.dispatches
      ensures s'.dispatches[d].Passed? ==> s'.dispatches[d].readAt < s'.now
      ensures s'.dispatches[d].Running? ==> s'.dispatches[d].readAt < s'.dispatches[d].addedAt < s'.now
    {
      DispatchesAfter(resolve, s, step, d);
    }
    forall c <- s'.calibrates
      ensures Holding(s'.calibrates[c].phase) ==> s'.calibrates[c].phase.casAt < s'.now
      ensures InSweep(s'.calibrates[c].phase) ==>
          s'.calibrates[c].phase.casAt < s'.calibrates[c].phase.checkedAt < s'.now
    {
      CalibratesAfter(resolve, s, step, c);
      if c in s.calibrates {
        PhaseMoves(resolve, s, s.calibrates[c], step);
      }
    }
  }

  /** While somebody holds the flag no dispatch gets past it. */
  lemma DispatchOverlap(s: System, step: Step, phase: Phase)
    requires step.id in s.dispatches && (Holding(phase) ==> s.calibrating)
    requires Holding(phase) ==> phase.casAt < s.now
    requires InSweep(phase) ==> phase.casAt < phase.checkedAt < s.now
    requires OverlapExplained(s.dispatches[step.id], phase)
    ensures OverlapExplained(NextDispatch(s, s.dispatches[step.id], step), phase)
  {
  }

  /** A sweep starts only with no dispatch running. */
  lemma PhaseOverlap(resolve: Resolver, s: System, step: Step, d: Dispatch)
    requires step.id in s.calibrates && (s.inflight == 0 ==> !d.Running?)
    requires d.Passed? || d.Running? ==> d.readAt < s.now
    requires OverlapExplained(d, s.calibrates[step.id].phase)
    ensures OverlapExplained(d, NextPhase(resolve, s, s.calibrates[step.id], step))
  {
    PhaseMoves(resolve, s, s.calibrates[step.id], step);
  }

  lemma OverlapPair(resolve: Resolver, s: System, step: Step, d: nat, c: nat)
    requires FlagExact(s) && CounterExact(s) && Timely(s)
    requires d in s.dispatches && c in s.calibrates && OverlapExplained(s.dispatches[d], s.calibrates[c].phase)
    requires d in Next(resolve, s, step).dispatches && c in Next(resolve, s, step).calibrates
    ensures OverlapExplained(Next(resolve, s, step).dispatches[d], Next(resolve, s, step).calibrates[c].phase)
  {
    DispatchesAfter(resolve, s, step, d);
    CalibratesAfter(resolve, s, step, c);
    assert Holding(s.calibrates[c].phase) ==> c in HolderIds(s.calibrates);
    assert s.dispatches[d].Running? ==> d in RunningIds(s.dispatches);
    if c == step.id {
      PhaseOverlap(resolve, s, step, s.dispatches[d]);
    }
    if d == step.id {
      DispatchOverlap(s, step, s.calibrates[c].phase);
    }
  }

  lemma OverlapStep(resolve: Resolver, s: System, step: Step)
    requires FlagExact(s) && CounterExact(s) && Timely(s) && OverlapsExplained(s)
    ensures OverlapsExplained(Next(resolve, s, step))
  {
    var s' := Next(resolve, s, step);
    forall d <- s'.dispatches, c <- s'.calibrates ensures OverlapExplained(s'.dispatches[d], s'.calibrates[c].phase) {
      if d in s.dispatches && c in s.calibrates {
        OverlapPair(resolve, s, step, d, c);
      } else {
        DispatchesAfter(resolve, s, step, d);
        CalibratesAfter(resolve, s, step, c);
      }
    }
  }

  lemma PhaseStaysSound(resolve: Resolver, s: System, c: Calibrate, step: Step)
    requires PhaseSound(resolve, s.measured, c) && (s.cache.Some? ==> s.cache.value in s.measured)
    ensures var phase := NextPhase(resolve, s, c, step);
            PhaseSound(resolve, if phase.Analyzed? then s.measured + {Snapshot(phase.results, phase.resolved)}
              else s.measured, c.(phase := phase))
  {
  }

  lemma RepliesStep(resolve: Resolver, s: System, step: Step)
    requires RepliesSound(resolve, s)
    ensures RepliesSound(resolve, Next(resolve, s, step))
  {
    var s', id := Next(resolve, s, step), step.id;
    assert s.measured <= s'.measured;
    if id in s.calibrates {
      PhaseStaysSound(resolve, s, s.calibrates[id], step);
    }
    forall c <- s'.calibrates ensures PhaseSound(resolve, s'.measured, s'.calibrates[c]) {
      if c in s.calibrates {
        assert PhaseSound(resolve, s.measured, s.calibrates[c]);
      }
    }
  }

  lemma NextSafe(resolve: Resolver, s: System, step: Step)
    requires Safe(resolve, s)
    ensures Safe(resolve, Next(resolve, s, step))
  {
    FlagStep(resolve, s, step);
    CounterStep(resolve, s, step);
    TimelyStep(resolve, s, step);
    OverlapStep(resolve, s, step);
    RepliesStep(resolve, s, step);
  }

  /** In every interleaving: the flag is up iff exactly one calibrate holds it, the counter is
      the number of live guards, any prefill beside a sweep slipped past the flag before the
      sweep took it, and every reply is the result of a sweep for the same resolved request. */
  lemma {:induction false} AlwaysSafe(resolve: Resolver, steps: seq<Step>)
    ensures Safe(resolve, After(resolve, IDLE, steps))
  {
    if steps == [] {
      assert RunningIds(IDLE.dispatches) == {} && HolderIds(IDLE.calibrates) == {};
    } else {
      AlwaysSafe(resolve, steps[..|steps| - 1]);
      NextSafe(resolve, After(resolve, IDLE, steps[..|steps| - 1]), steps[|steps| - 1]);
    }
  }

  // ---- Exclusion: how far it goes ----

  ghost predicate Sweeping(s: System, id: nat) {
    id in s.calibrates && InSweep(s.calibrates[id].phase)
  }

  /** A dispatch handler that has read the flag and not yet been counted. */
  ghost predicate InWindow(s: System, id: nat) {
    id in s.dispatches && s.dispatches[id].Passed?
  }

  ghost predicate NoneRunning(s: System) {
    forall id <- s.dispatches :: !s.dispatches[id].Running?
  }

  /** Some continuation has a prefill running while the same sweep goes on. */
  ghost predicate CanOverlap(resolve: Resolver, s: System, sweep: nat) {
    exists steps :: Sweeping(After(resolve, s, steps), sweep) && !NoneRunning(After(resolve, s, steps))
  }

  lemma SweepStaysAlone(resolve: Resolver, s: System, step: Step, sweep: nat)
    requires FlagExact(s) && Sweeping(s, sweep) && NoneRunning(s) && forall id :: !InWindow(s, id)
    ensures NoneRunning(Next(resolve, s, step)) && forall id :: !InWindow(Next(resolve, s, step), id)
  {
    assert sweep in HolderIds(s.calibrates);
    forall id <- Next(resolve, s, step).dispatches
      ensures !Next(resolve, s, step).dispatches[id].Running? && !InWindow(Next(resolve, s, step), id)
    {
      DispatchesAfter(resolve, s, step, id);
      assert !InWindow(s, id);
    }
  }

  /** The sweep is behind this handler for good. */
  ghost predicate SweepOver(s: System, id: nat) {
    id in s.calibrates && (s.calibrates[id].phase.Releasing? || s.calibrates[id].phase.Ended?)
  }

  lemma SweepEndsOnce(resolve: Resolver, s: System, step: Step, sweep: nat)
    requires Sweeping(s, sweep) || SweepOver(s, sweep)
    ensures Sweeping(Next(resolve, s, step), sweep) || SweepOver(Next(resolve, s, step), sweep)
    ensures SweepOver(s, sweep) ==> SweepOver(Next(resolve, s, step), sweep)
  {
  }

  lemma {:induction false} AloneForGood(resolve: Resolver, s: System, steps: seq<Step>, sweep: nat)
    requires Safe(resolve, s) && Sweeping(s, sweep) && NoneRunning(s) && forall id :: !InWindow(s, id)
    ensures Safe(resolve, After(resolve, s, steps))
    ensures var s' := After(resolve, s, steps);
            (Sweeping(s', sweep) && NoneRunning(s') && forall id :: !InWindow(s', id)) || SweepOver(s', sweep)
  {
    if steps != [] {
      var before, step := After(resolve, s, steps[..|steps| - 1]), steps[|steps| - 1];
      AloneForGood(resolve, s, steps[..|steps| - 1], sweep);
      NextSafe(resolve, before, step);
      SweepEndsOnce(resolve, before, step, sweep);
      if Sweeping(before, sweep) {
        SweepStaysAlone(resolve, before, step, sweep);
      }
    }
  }

  /** Once a sweep has started with no prefill running, a prefill can still come to run beside
      it if and only if some dispatch handler already sits between its flag check and its
      count. */
  lemma OverlapIffWindow(resolve: Resolver, s: System, sweep: nat)
    requires Safe(resolve, s) && Sweeping(s, sweep) && NoneRunning(s)
    ensures CanOverlap(resolve, s, sweep) <==> exists id :: InWindow(s, id)
  {
    if id :| InWindow(s, id) {
      var steps := [CountIn(id)];
      var s' := AfterOne(resolve, s, [], CountIn(id), s);
      assert [] + [CountIn(id)] == steps;
      assert Sweeping(s', sweep) && s'.dispatches[id].Running?;
    } else {
      forall steps ensures !(Sweeping(After(resolve, s, steps), sweep) && !NoneRunning(After(resolve, s, steps))) {
        AloneForGood(resolve, s, steps, sweep);
      }
    }
  }

  lemma AfterOne(resolve: Resolver, s: System, steps: seq<Step>, step: Step, start: System) returns (s': System)
    requires s == After(resolve, start, steps)
    ensures s' == Next(resolve, s, step) == After(resolve, start, steps + [step])
  {
    s' := Next(resolve, s, step);
    assert (steps + [step])[..|steps|] == steps;
  }

  /** Dispatch 0 has just read a lowered flag, and calibrate 0 is about to take it. */
  ghost predicate AtTheFlag(s: System) {
    && !s.calibrating && s.inflight == 0
    && InWindow(s, 0)
    && 0 in s.calibrates && s.calibrates[0].phase.Missed?
  }

  lemma ReachFlag(resolve: Resolver, request: Request) returns (steps: seq<Step>, s: System)
    requires resolve(request.knobs).Some?
    ensures s == After(resolve, IDLE, steps) && AtTheFlag(s)
  {
    steps, s := [], IDLE;
    s := AfterOne(resolve, s, steps, Arrive(0), IDLE);
    steps := steps + [Arrive(0)];
    s := AfterOne(resolve, s, steps, LoadFlag(0), IDLE);
    steps := steps + [LoadFlag(0)];
    s := AfterOne(resolve, s, steps, Begin(0, request), IDLE);
    steps := steps + [Begin(0, request)];
    s := AfterOne(resolve, s, steps, ReadCache(0), IDLE);
    steps := steps + [ReadCache(0)];
  }

  /** Full exclusion is not promised, and does not hold: some run has a prefill running beside
      a sweep. */
  lemma OverlapHappens(resolve: Resolver, request: Request)
    requires resolve(request.knobs).Some?
    ensures exists steps :: Sweeping(After(resolve, IDLE, steps), 0) && !NoneRunning(After(resolve, IDLE, steps))
  {
    var steps, s := ReachFlag(resolve, request);
    s := AfterOne(resolve, s, steps, TakeFlag(0), IDLE);
    steps := steps + [TakeFlag(0)];
    s := AfterOne(resolve, s, steps, Poll(0), IDLE);
    steps := steps + [Poll(0)];
    s := AfterOne(resolve, s, steps, FinalCheck(0), IDLE);
    steps := steps + [FinalCheck(0)];
    s := AfterOne(resolve, s, steps, CountIn(0), IDLE);
    steps := steps + [CountIn(0)];
    assert s.dispatches[0].Running?;
  }

  /** When no handler is mid-way, nothing is left behind: the flag is down and the counter is
      zero, however the handlers ended. */
  lemma QuiescentIsClean(resolve: Resolver, steps: seq<Step>)
    requires var s := After(resolve, IDLE, steps);
             NoneRunning(s) && forall id <- s.calibrates :: !Holding(s.calibrates[id].phase)
    ensures var s := After(resolve, IDLE, steps); !s.calibrating && s.inflight == 0
  {
    AlwaysSafe(resolve, steps);
    var s := After(resolve, IDLE, steps);
    assert RunningIds(s.dispatches) == {} && HolderIds(s.calibrates) == {};
  }
}
