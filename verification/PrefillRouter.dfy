/** The worker's prefill router: dispatch and calibrate handlers that share one flag, one
    counter and one cached snapshot, interleaved one atomic step at a time. */
module PrefillRouter {
  import opened Outcome

  const USIZE_MAX := 0xFFFF_FFFF_FFFF_FFFF
  const MAX_POLLS := 50

  datatype Request = Request(force: bool, knobs: string)

  /** The outcome of one measured sweep and the resolved request it ran for. */
  datatype Snapshot = Snapshot(results: string, resolved: string)

  datatype Reply = Reply(results: string, resolved: string, fromCache: bool)

  /** Turning a request's knobs into a resolved request may fail; any such function will do. */
  type Resolver = string -> Option<string>

  /** A dispatch handler: about to read the flag; past it but not yet counted; counted and
      running under its guard; or finished, `accepted` if it was not refused at the flag. */
  datatype Dispatch =
    | Entered
    | Passed(readAt: nat)
    | Running(readAt: nat, addedAt: nat)
    | Finished(accepted: bool)

  /** Where a calibrate handler stands. From `Draining` to `Releasing` it holds the flag. */
  datatype Phase =
    | Begun
    | Missed(resolved: string)
    | Draining(resolved: string, casAt: nat, polls: nat)
    | Checking(resolved: string, casAt: nat)
    | Measuring(resolved: string, casAt: nat, checkedAt: nat)
    | Analyzed(resolved: string, casAt: nat, checkedAt: nat, results: string)
    | Releasing(casAt: nat, reply: Option<Reply>)
    | Ended(reply: Option<Reply>)

  datatype Calibrate = Calibrate(request: Request, phase: Phase)

  /** The shared atomics and cache, every handler, a step counter, and all sweeps measured. */
  datatype System = System(
    calibrating: bool,
    inflight: nat,
    cache: Option<Snapshot>,
    dispatches: map<nat, Dispatch>,
    calibrates: map<nat, Calibrate>,
    now: nat,
    measured: set<Snapshot>)

  const IDLE := System(false, 0, None, map[], map[], 0, {})

  datatype Step =
    // dispatch handlers
    | Arrive(id: nat)
    | LoadFlag(id: nat)
    | CountIn(id: nat)
    | Complete(id: nat)
    // calibrate handlers
    | Begin(id: nat, request: Request)
    | ReadCache(id: nat)
    | TakeFlag(id: nat)
    | Poll(id: nat)
    | FinalCheck(id: nat)
    | Deliver(id: nat, results: string)
    | WriteCache(id: nat)
    | Abort(id: nat)
    | Release(id: nat)

  /** What a handler's step makes of its own state; a step it cannot take changes nothing. */
  function NextDispatch(s: System, d: Dispatch, step: Step): Dispatch {
    match (step, d)
    case (LoadFlag(_), Entered) => if s.calibrating then Finished(false) else Passed(s.now)
    case (CountIn(_), Passed(readAt)) => Running(readAt, s.now)
    // completion, a lambda error and an abort all end in the guard's decrement
    case (Complete(_), Running(_, _)) => Finished(true)
    case _ => d
  }

  /** A cached snapshot answers a request that resolves to the same knobs and does not force. */
  function CacheHit(cache: Option<Snapshot>, request: Request, resolved: string): bool {
    !request.force && cache.Some? && cache.value.resolved == resolved
  }

  function NextPhase(resolve: Resolver, s: System, c: Calibrate, step: Step): Phase {
    match (step, c.phase)
    case (ReadCache(_), Begun) =>
      (match resolve(c.request.knobs)
       case None => Ended(None)
       case Some(resolved) =>
         if CacheHit(s.cache, c.request, resolved) then Ended(Some(Reply(s.cache.value.results, resolved, true)))
         else Missed(resolved))
    case (TakeFlag(_), Missed(resolved)) => if s.calibrating then Ended(None) else Draining(resolved, s.now, 0)
    case (Poll(_), Draining(resolved, casAt, polls)) =>
      if s.inflight == 0 || polls + 1 == MAX_POLLS then Checking(resolved, casAt)
        else Draining(resolved, casAt, polls + 1)
    case (FinalCheck(_), Checking(resolved, casAt)) =>
      if s.inflight != 0 then Releasing(casAt, None) else Measuring(resolved, casAt, s.now)
    case (Deliver(_, results), Measuring(resolved, casAt, checkedAt)) => Analyzed(resolved, casAt, checkedAt, results)
    case (WriteCache(_), Analyzed(resolved, casAt, _, results)) => Releasing(casAt,
                                                                             Some(Reply(results, resolved, false)))
    case (Abort(_), Draining(_, casAt, _)) => Releasing(casAt, None)
    case (Abort(_), Checking(_, casAt)) => Releasing(casAt, None)
    case (Abort(_), Measuring(_, casAt, _)) => Releasing(casAt, None)
    case (Abort(_), Analyzed(_, casAt, _, _)) => Releasing(casAt, None)
    case (Release(_), Releasing(_, reply)) => Ended(reply)
    case _ => c.phase
  }

  /** The counter's increment and the guard's decrement, which wraps below zero. */
  function Count(inflight: nat, step: Step): nat {
    if step.CountIn? then inflight + 1
    else if step.Complete? then (if inflight == 0 then USIZE_MAX else inflight - 1)
    else inflight
  }

  /** The compare-and-swap raises the flag, the guard lowers it. */
  function Flag(calibrating: bool, step: Step): bool {
    if step.TakeFlag? then true else if step.Release? then false else calibrating
  }

  /** One atomic step of one handler. */
  function Next(resolve: Resolver, s: System, step: Step): System {
    var id := step.id;
    match step
    case Arrive(_) => if id in s.dispatches then s else s.(dispatches := s.dispatches[id := Entered], now := s.now + 1)
    case Begin(_, request) =>
      if id in s.calibrates then s
      else s.(calibrates := s.calibrates[id := Calibrate(request, Begun)], now := s.now + 1)
    case _ =>
      if step.LoadFlag? || step.CountIn? || step.Complete? then
        if id !in s.dispatches || NextDispatch(s, s.dispatches[id], step) == s.dispatches[id] then s
        else s.(dispatches := s.dispatches[id := NextDispatch(s, s.dispatches[id], step)],
                inflight := Count(s.inflight, step),
                now := s.now + 1)
      else if id !in s.calibrates then s
      else PhaseStep(s, step, id, NextPhase(resolve, s, s.calibrates[id], step))
  }

  /** A calibrate handler moves to `phase`, with the step's effect on what is shared. */
  function PhaseStep(s: System, step: Step, id: nat, phase: Phase): System
    requires id in s.calibrates
  {
    if phase == s.calibrates[id].phase then s
    else
      s.(calibrates := s.calibrates[id := s.calibrates[id].(phase := phase)],
         calibrating := Flag(s.calibrating, step),
         measured := if phase.Analyzed? then s.measured + {Snapshot(phase.results, phase.resolved)} else s.measured,
         cache := if step.WriteCache? && phase.Releasing? && phase.reply.Some?
                  then Some(Snapshot(phase.reply.value.results, phase.reply.value.resolved)) else s.cache,
         now := s.now + 1)
  }

  function After(resolve: Resolver, s: System, steps: seq<Step>): System {
    if steps == [] then s else Next(resolve, After(resolve, s, steps[..|steps| - 1]), steps[|steps| - 1])
  }

  // ---- What every reachable state satisfies ----

  predicate Holding(phase: Phase) {
    phase.Draining? || phase.Checking? || phase.Measuring? || phase.Analyzed? || phase.Releasing?
  }

  /** The part of the hold in which the sweep runs or its trace is being analysed. */
  predicate InSweep(phase: Phase) {
    phase.Measuring? || phase.Analyzed?
  }

  function HolderIds(calibrates: map<nat, Calibrate>): set<nat> {
    set id | id in calibrates && Holding(calibrates[id].phase)
  }

  function RunningIds(dispatches: map<nat, Dispatch>): set<nat> {
    set id | id in dispatches && dispatches[id].Running?
  }

  /** The flag is up exactly while one calibrate holds it; more than one never do. */
  ghost predicate FlagExact(s: System) {
    |HolderIds(s.calibrates)| == if s.calibrating then 1 else 0
  }

  /** The counter is the number of live dispatch guards. */
  ghost predicate CounterExact(s: System) {
    s.inflight == |RunningIds(s.dispatches)|
  }

  /** A dispatch past the flag read it before the present holder took it, and one running
      during a sweep was also counted only after the final check found no prefill. */
  ghost predicate OverlapExplained(d: Dispatch, phase: Phase) {
    && (Holding(phase) && d.Passed? ==> d.readAt < phase.casAt)
    && (Holding(phase) && d.Running? ==> d.readAt < phase.casAt)
    && (InSweep(phase) && d.Running? ==> phase.casAt < phase.checkedAt < d.addedAt)
  }

  ghost predicate Timely(s: System) {
    && (forall id <- s.dispatches ::
          && (s.dispatches[id].Passed? ==> s.dispatches[id].readAt < s.now)
          && (s.dispatches[id].Running? ==> s.dispatches[id].readAt < s.dispatches[id].addedAt < s.now))
    && (forall id <- s.calibrates ::
          && (Holding(s.calibrates[id].phase) ==> s.calibrates[id].phase.casAt < s.now)
          && (InSweep(s.calibrates[id].phase) ==>
            s.calibrates[id].phase.casAt < s.calibrates[id].phase.checkedAt < s.now))
  }

  ghost predicate OverlapsExplained(s: System) {
    forall d <- s.dispatches, c <- s.calibrates :: OverlapExplained(s.dispatches[d], s.calibrates[c].phase)
  }

  /** A reply carries the results of a sweep measured for exactly what its request resolves
      to, and comes from the cache only if the request did not force a run. */
  ghost predicate ReplySound(resolve: Resolver, measured: set<Snapshot>, request: Request, reply: Reply) {
    && resolve(request.knobs) == Some(reply.resolved)
    && Snapshot(reply.results, reply.resolved) in measured
    && (reply.fromCache ==> !request.force)
  }

  ghost predicate PhaseSound(resolve: Resolver, measured: set<Snapshot>, c: Calibrate) {
    match c.phase
    case Begun => true
    case Missed(resolved) => resolve(c.request.knobs) == Some(resolved)
    case Draining(resolved, _, polls) => resolve(c.request.knobs) == Some(resolved) && polls < MAX_POLLS
    case Checking(resolved, _) => resolve(c.request.knobs) == Some(resolved)
    case Measuring(resolved, _, _) => resolve(c.request.knobs) == Some(resolved)
    case Analyzed(resolved, _, _, results) => resolve(c.request.knobs) == Some(resolved) &&
      Snapshot(results, resolved) in measured
    case Releasing(_, reply) => reply.Some? ==> ReplySound(resolve, measured, c.request, reply.value)
    case Ended(reply) => reply.Some? ==> ReplySound(resolve, measured, c.request, reply.value)
  }

  ghost predicate RepliesSound(resolve: Resolver, s: System) {
    && (s.cache.Some? ==> s.cache.value in s.measured)
    && (forall id <- s.calibrates :: PhaseSound(resolve, s.measured, s.calibrates[id]))
  }

  ghost predicate Safe(resolve: Resolver, s: System) {
    FlagExact(s) && CounterExact(s) && Timely(s) && OverlapsExplained(s) && RepliesSound(resolve, s)
  }
}
