/** What the router's handlers get done, and what they answer: the cache is the last completed
    sweep, a repeated request is served from it, and who is refused, gives up or finishes is decided
    by the other handlers alone. */
module PrefillProgress {
  import opened Outcome
  import opened PrefillRouter
  import opened PrefillSafety

  // ---- The sweeps of a run ----

  /** The sweep that a step completes, if any: its handler had its results and writes them down. */
  ghost function Completes(s: System, step: Step): seq<Snapshot> {
    if step.WriteCache? && step.id in s.calibrates && s.calibrates[step.id].phase.Analyzed? then
      [Snapshot(s.calibrates[step.id].phase.results, s.calibrates[step.id].phase.resolved)]
    else []
  }

  /** Every sweep completed in a run, in order. */
  ghost function Sweeps(resolve: Resolver, steps: seq<Step>): seq<Snapshot> {
    if steps == [] then []
    else
      var before := steps[..|steps| - 1];
      Sweeps(resolve, before) + Completes(After(resolve, IDLE, before), steps[|steps| - 1])
  }

  ghost function LastSweep(resolve: Resolver, steps: seq<Step>): Option<Snapshot> {
    var sweeps := Sweeps(resolve, steps);
    if sweeps == [] then None else Some(sweeps[|sweeps| - 1])
  }

  /** A step leaves the cache alone, unless it completes a sweep. */
  lemma CacheStep(resolve: Resolver, s: System, step: Step)
    ensures Completes(s, step) == [] ==> Next(resolve, s, step).cache == s.cache
    ensures Completes(s, step) != [] ==> Next(resolve, s, step).cache == Some(Completes(s, step)[0])
  {
  }

  /** In every run the cache is the last completed sweep, and empty before the first. */
  lemma {:induction false} CacheIsLastSweep(resolve: Resolver, steps: seq<Step>)
    ensures After(resolve, IDLE, steps).cache == LastSweep(resolve, steps)
  {
    if steps != [] {
      var before := steps[..|steps| - 1];
      CacheIsLastSweep(resolve, before);
      CacheStep(resolve, After(resolve, IDLE, before), steps[|steps| - 1]);
    }
  }

  /** The reply of a handler that has one. */
  ghost predicate Replies(s: System, id: nat, reply: Reply) {
    && id in s.calibrates
    && ((s.calibrates[id].phase.Releasing? && s.calibrates[id].phase.reply == Some(reply)) ||
        (s.calibrates[id].phase.Ended? && s.calibrates[id].phase.reply == Some(reply)))
  }

  lemma ReplyStep(resolve: Resolver, s: System, step: Step, id: nat, reply: Reply)
    requires Replies(Next(resolve, s, step), id, reply) && !Replies(s, id, reply)
    ensures step.id == id && id in s.calibrates
    ensures Snapshot(reply.results, reply.resolved) in Completes(s, step) ||
            s.cache == Some(Snapshot(reply.results, reply.resolved))
    ensures !reply.fromCache ==> Snapshot(reply.results, reply.resolved) in Completes(s, step)
  {
  }

  /** In every run each reply is a completed sweep of that run. */
  lemma {:induction false} RepliesAreSweeps(resolve: Resolver, steps: seq<Step>, id: nat, reply: Reply)
    requires Replies(After(resolve, IDLE, steps), id, reply)
    ensures Snapshot(reply.results, reply.resolved) in Sweeps(resolve, steps)
  {
    if steps != [] {
      var before, step := steps[..|steps| - 1], steps[|steps| - 1];
      var s := After(resolve, IDLE, before);
      if Replies(s, id, reply) {
        RepliesAreSweeps(resolve, before, id, reply);
      } else {
        ReplyStep(resolve, s, step, id, reply);
        CacheIsLastSweep(resolve, before);
      }
    }
  }

  // ---- Reading the cache ----

  ghost predicate AtStart(s: System, id: nat) {
    id in s.calibrates && s.calibrates[id].phase == Begun
  }

  /** What a new handler does first. A request that does not resolve ends there. One that resolves is
      answered from the cache if and only if it does not force and the run's last completed sweep was
      for the same resolved request; else it goes on to take the flag. Flag, counter and cache stay. */
  lemma ServedIff(resolve: Resolver, steps: seq<Step>, id: nat)
    requires AtStart(After(resolve, IDLE, steps), id)
    ensures var s, s' := After(resolve, IDLE, steps), After(resolve, IDLE, steps + [ReadCache(id)]);
            var request, last := s.calibrates[id].request, LastSweep(resolve, steps);
            var resolved := resolve(request.knobs);
            && (s'.calibrating, s'.inflight, s'.cache) == (s.calibrating, s.inflight, s.cache)
            && s'.calibrates.Keys == s.calibrates.Keys && s'.calibrates[id].request == request
            && s'.calibrates[id].phase ==
               if resolved.None? then Ended(None)
               else if !request.force && last.Some? && last.value.resolved == resolved.value then
                 Ended(Some(Reply(last.value.results, resolved.value, true)))
               else Missed(resolved.value)
  {
    CacheIsLastSweep(resolve, steps);
    assert (steps + [ReadCache(id)])[..|steps|] == steps;
  }

  // ---- Dispatch handlers ----

  ghost predicate SomeoneHolds(s: System) {
    exists id <- s.calibrates :: Holding(s.calibrates[id].phase)
  }

  lemma FlagIffHeld(s: System)
    requires FlagExact(s)
    ensures s.calibrating <==> SomeoneHolds(s)
  {
    if id :| id in s.calibrates && Holding(s.calibrates[id].phase) {
      assert id in HolderIds(s.calibrates);
    } else {
      assert HolderIds(s.calibrates) == {};
    }
  }

  /** In every run a dispatch is refused at the flag exactly while some calibrate holds it, and else
      gets through, is counted, runs and is accepted. */
  lemma DispatchAnswer(resolve: Resolver, steps: seq<Step>, id: nat)
    requires var s := After(resolve, IDLE, steps); id in s.dispatches && s.dispatches[id] == Entered
    ensures var s, s' := After(resolve, IDLE, steps), After(resolve, IDLE, steps + [LoadFlag(id)]);
            && id in s'.dispatches
            && (s'.dispatches[id] == Finished(false) <==> SomeoneHolds(s))
            && (s'.dispatches[id].Passed? <==> !SomeoneHolds(s))
  {
    AlwaysSafe(resolve, steps);
    FlagIffHeld(After(resolve, IDLE, steps));
    assert (steps + [LoadFlag(id)])[..|steps|] == steps;
  }

  /** One that got through is counted while it runs and is answered as accepted. */
  lemma DispatchRuns(resolve: Resolver, s: System, id: nat)
    requires InWindow(s, id)
    ensures var s', s'' := Next(resolve, s, CountIn(id)), Next(resolve, Next(resolve, s, CountIn(id)), Complete(id));
            && s'.inflight == s.inflight + 1 && id in s'.dispatches && s'.dispatches[id].Running?
            && s''.inflight == s.inflight && id in s''.dispatches && s''.dispatches[id] == Finished(true)
  {
  }

  // ---- Calibrate handlers ----

  ghost predicate AboutToTake(s: System, id: nat, resolved: string) {
    id in s.calibrates && s.calibrates[id].phase == Missed(resolved)
  }

  /** In every run the flag goes to a handler that asks for it exactly if none holds it; the others
      end without a reply. */
  lemma TakesIff(resolve: Resolver, steps: seq<Step>, id: nat, resolved: string)
    requires AboutToTake(After(resolve, IDLE, steps), id, resolved)
    ensures var s, s' := After(resolve, IDLE, steps), After(resolve, IDLE, steps + [TakeFlag(id)]);
            && id in s'.calibrates
            && (SomeoneHolds(s) ==> s'.calibrates[id].phase == Ended(None) && s'.calibrating)
            && (!SomeoneHolds(s) ==> s'.calibrates[id].phase.Draining? && s'.calibrating)
  {
    AlwaysSafe(resolve, steps);
    FlagIffHeld(After(resolve, IDLE, steps));
    assert (steps + [TakeFlag(id)])[..|steps|] == steps;
  }

  /** `n` polls of one handler. */
  ghost function Polled(resolve: Resolver, s: System, id: nat, n: nat): System {
    if n == 0 then s else Next(resolve, Polled(resolve, s, id, n - 1), Poll(id))
  }

  ghost predicate DrainsFresh(s: System, id: nat) {
    id in s.calibrates && s.calibrates[id].phase.Draining? && s.calibrates[id].phase.polls == 0
  }

  /** A handler that drains while prefills run polls fifty times, neither fewer nor more... */
  lemma {:induction false} PollsFifty(resolve: Resolver, s: System, id: nat, n: nat)
    requires DrainsFresh(s, id) && s.inflight > 0 && n <= 50
    ensures var s' := Polled(resolve, s, id, n);
            && id in s'.calibrates && s'.inflight == s.inflight
            && s'.calibrates[id].phase ==
               if n < 50 then s.calibrates[id].phase.(polls := n)
               else Checking(s.calibrates[id].phase.resolved, s.calibrates[id].phase.casAt)
  {
    if n > 0 {
      PollsFifty(resolve, s, id, n - 1);
    }
  }

  /** ...one that finds none running stops at once... */
  lemma PollsOnce(resolve: Resolver, s: System, id: nat)
    requires DrainsFresh(s, id) && s.inflight == 0
    ensures var s' := Next(resolve, s, Poll(id)); id in s'.calibrates && s'.calibrates[id].phase.Checking?
  {
  }

  /** ...and in every run the sweep then starts exactly if no prefill is running, and else is given up. */
  lemma SweepsIff(resolve: Resolver, steps: seq<Step>, id: nat)
    requires var s := After(resolve, IDLE, steps); id in s.calibrates && s.calibrates[id].phase.Checking?
    ensures var s, s' := After(resolve, IDLE, steps), After(resolve, IDLE, steps + [FinalCheck(id)]);
            && id in s'.calibrates
            && (NoneRunning(s) <==> Sweeping(s', id))
            && (!NoneRunning(s) ==> s'.calibrates[id].phase == Releasing(s.calibrates[id].phase.casAt, None))
  {
    AlwaysSafe(resolve, steps);
    var s := After(resolve, IDLE, steps);
    if NoneRunning(s) {
      assert RunningIds(s.dispatches) == {};
    } else {
      var d :| d in s.dispatches && s.dispatches[d].Running?;
      assert d in RunningIds(s.dispatches);
    }
    assert (steps + [FinalCheck(id)])[..|steps|] == steps;
  }

  /** A started sweep that is delivered and written down is answered with its own results, is the
      cache from then on, and leaves the flag down. */
  lemma SweepFinishes(resolve: Resolver, s: System, id: nat, results: string)
    requires Sweeping(s, id) && s.calibrates[id].phase.Measuring?
    ensures var resolved := s.calibrates[id].phase.resolved;
            var s1 := Next(resolve, s, Deliver(id, results));
            var s2 := Next(resolve, s1, WriteCache(id));
            var s3 := Next(resolve, s2, Release(id));
            && Completes(s1, WriteCache(id)) == [Snapshot(results, resolved)]
            && s3.cache == Some(Snapshot(results, resolved)) && !s3.calibrating
            && id in s3.calibrates && s3.calibrates[id].phase == Ended(Some(Reply(results, resolved, false)))
  {
  }

  /** A handler that fails anywhere while it holds the flag ends without a reply, lowers the flag and
      leaves the cache alone. */
  lemma FailureReleases(resolve: Resolver, s: System, id: nat)
    requires id in s.calibrates && Holding(s.calibrates[id].phase) && !s.calibrates[id].phase.Releasing?
    ensures var s' := Next(resolve, Next(resolve, s, Abort(id)), Release(id));
            && !s'.calibrating && s'.cache == s.cache
            && id in s'.calibrates && s'.calibrates[id].phase == Ended(None)
  {
  }

  // ---- A repeated request ----

  /** Calibrate 0 is the only handler. */
  ghost predicate Alone(s: System) {
    && s.calibrates.Keys == {0} && s.inflight == 0
    && (s.calibrating <==> Holding(s.calibrates[0].phase))
  }

  lemma ReachMissed(resolve: Resolver, request: Request) returns (steps: seq<Step>, s: System)
    requires resolve(request.knobs).Some?
    ensures s == After(resolve, IDLE, steps) && Alone(s) && Sweeps(resolve, steps) == []
    ensures s.calibrates[0].phase == Missed(resolve(request.knobs).value)
  {
    steps, s := RunOn(resolve, [], IDLE, Begin(0, request));
    steps, s := RunOn(resolve, steps, s, ReadCache(0));
  }

  lemma ReachChecking(resolve: Resolver, request: Request) returns (steps: seq<Step>, s: System)
    requires resolve(request.knobs).Some?
    ensures s == After(resolve, IDLE, steps) && Alone(s) && Sweeps(resolve, steps) == []
    ensures s.calibrates[0].phase.Checking? && s.calibrates[0].phase.resolved == resolve(request.knobs).value
  {
    steps, s := ReachMissed(resolve, request);
    steps, s := RunOn(resolve, steps, s, TakeFlag(0));
    steps, s := RunOn(resolve, steps, s, Poll(0));
  }

  lemma ReachAnalyzed(resolve: Resolver, request: Request, results: string) returns (steps: seq<Step>, s: System)
    requires resolve(request.knobs).Some?
    ensures s == After(resolve, IDLE, steps) && Alone(s) && Sweeps(resolve, steps) == []
    ensures s.calibrates[0].phase.Analyzed? && s.calibrates[0].phase.resolved == resolve(request.knobs).value
    ensures s.calibrates[0].phase.results == results
  {
    steps, s := ReachChecking(resolve, request);
    steps, s := RunOn(resolve, steps, s, FinalCheck(0));
    steps, s := RunOn(resolve, steps, s, Deliver(0, results));
  }

  lemma ReachReleasing(resolve: Resolver, request: Request, results: string) returns (steps: seq<Step>, s: System)
    requires resolve(request.knobs).Some?
    ensures s == After(resolve, IDLE, steps) && Alone(s) && s.calibrates[0].phase.Releasing?
    ensures Sweeps(resolve, steps) == [Snapshot(results, resolve(request.knobs).value)]
  {
    steps, s := ReachAnalyzed(resolve, request, results);
    steps, s := RunOn(resolve, steps, s, WriteCache(0));
  }

  lemma ReachEnded(resolve: Resolver, request: Request, results: string) returns (steps: seq<Step>, s: System)
    requires resolve(request.knobs).Some?
    ensures s == After(resolve, IDLE, steps) && Alone(s) && s.calibrates[0].phase.Ended?
    ensures Sweeps(resolve, steps) == [Snapshot(results, resolve(request.knobs).value)]
  {
    steps, s := ReachReleasing(resolve, request, results);
    steps, s := RunOn(resolve, steps, s, Release(0));
  }

  /** A run in which calibrate 0 completes a sweep, and calibrate 1 then begins. */
  lemma SecondBegins(resolve: Resolver, first: Request, second: Request, results: string)
    returns (steps: seq<Step>, s: System)
    requires resolve(first.knobs).Some?
    ensures s == After(resolve, IDLE, steps) && !s.calibrating && AtStart(s, 1) && s.calibrates[1].request == second
    ensures Sweeps(resolve, steps) == [Snapshot(results, resolve(first.knobs).value)]
  {
    steps, s := ReachEnded(resolve, first, results);
    steps, s := RunOn(resolve, steps, s, Begin(1, second));
  }

  lemma RunOn(resolve: Resolver, steps: seq<Step>, s: System, step: Step) returns (steps': seq<Step>, s': System)
    requires s == After(resolve, IDLE, steps)
    ensures s' == Next(resolve, s, step) == After(resolve, IDLE, steps')
    ensures Sweeps(resolve, steps') == Sweeps(resolve, steps) + Completes(s, step)
  {
    steps', s' := steps + [step], Next(resolve, s, step);
    assert steps'[..|steps|] == steps;
  }

  /** After one sweep, with the flag down, calibrate 1 is where its request takes it. */
  ghost predicate Repeated(resolve: Resolver, steps: seq<Step>, request: Request, phase: Phase) {
    var s := After(resolve, IDLE, steps);
    |Sweeps(resolve, steps)| == 1 && !s.calibrating && 1 in s.calibrates && s.calibrates[1] == Calibrate(request, phase)
  }

  lemma SecondReads(resolve: Resolver, steps: seq<Step>, request: Request, last: Snapshot, resolved: string)
    requires var s := After(resolve, IDLE, steps); AtStart(s, 1) && s.calibrates[1].request == request && !s.calibrating
    requires Sweeps(resolve, steps) == [last] && resolve(request.knobs) == Some(resolved) && last.resolved == resolved
    ensures Repeated(resolve, steps + [ReadCache(1)], request,
                     if request.force then Missed(resolved) else Ended(Some(Reply(last.results, resolved, true))))
  {
    ServedIff(resolve, steps, 1);
    var steps', s' := RunOn(resolve, steps, After(resolve, IDLE, steps), ReadCache(1));
    assert (steps + [ReadCache(1)])[..|steps|] == steps;
  }

  /** Calibrate 1 asks for what calibrate 0 swept, unforced, and is answered from the cache at once,
      without the flag; forced, it goes on to sweep again. */
  lemma RepeatIsServed(resolve: Resolver, knobs: string, force: bool, results: string) returns (steps: seq<Step>)
    requires resolve(knobs).Some?
    ensures Repeated(resolve, steps, Request(force, knobs),
                     if force then Missed(resolve(knobs).value)
                     else Ended(Some(Reply(results, resolve(knobs).value, true))))
  {
    var request := Request(force, knobs);
    var before, s := SecondBegins(resolve, Request(false, knobs), request, results);
    SecondReads(resolve, before, request, Snapshot(results, resolve(knobs).value), resolve(knobs).value);
    steps := before + [ReadCache(1)];
  }
}
