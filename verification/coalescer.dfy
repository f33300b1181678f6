/**
 * `AsyncProcessHandler`: a single-flight, latest-wins executor with two
 * fields, `pendingParams` and `isProcessing`. Every `await` is a step
 * boundary, and a scheduler picks the next step among those enabled: a new
 * `request`, the completion (success or failure) of an awaited `process`,
 * or the resumption of a drain loop whose `processNext` has settled.
 *
 * The handler exactly as written (`StepAsWritten`) can run two `process`
 * calls at once when a drain loop resumes while a newer loop is already
 * processing. `Step` adds the missing `isProcessing` check to the drain
 * loop; the invariants are proved for it. That each `process` call takes the
 * latest value holds for both.
 */
module Coalescer {
  import opened Wrappers

  /** Where a suspended `request()` call stands. */
  datatype Pc<P> =
    | Awaiting(params: P)  // inside `processNext`, suspended on `await process(params)`
    | LoopHead             // `processNext` has settled; the `while` check has not run again yet

  /** What an observer sees, in order. */
  datatype Event<P, R> =
    | Requested(params: P)             // `request(params)` was called
    | Started(params: P)               // `process(params)` was invoked
    | Succeeded(params: P, result: R)  // `onResult(result)` was called
    | Failed(params: P)                // `onError` was called; the error is rethrown
    | Returned(call: nat)              // the promise of `request()` call `call` resolved
    | Threw(call: nat)                 // the promise of `request()` call `call` rejected

  datatype State<P, R> = State(
    pending: Option<P>,        // `pendingParams`, `None` for `null`
    isProcessing: bool,
    calls: map<nat, Pc<P>>,    // the `request()` calls still running, by call number
    nextCall: nat,
    log: seq<Event<P, R>>)

  /** The steps a scheduler may pick. */
  datatype Action<P, R> =
    | Request(params: P)
    | Resume(call: nat)
    | Complete(call: nat, result: R)
    | Fail(call: nat)

  function Init<P, R>(): State<P, R> {
    State(None, false, map[], 0, [])
  }

  /** `isActive()` */
  function IsActive<P, R>(s: State<P, R>): bool {
    s.isProcessing
  }

  /** `hasPending()` */
  function HasPending<P, R>(s: State<P, R>): bool {
    s.pending.Some?
  }

  /**
   * `processNext` up to its `await`: set `isProcessing`, take and clear the
   * pending value, and invoke `process` on it.
   */
  function TakeAndStart<P, R>(s: State<P, R>, call: nat): State<P, R>
    requires s.pending.Some?
  {
    var p := s.pending.value;
    s.(pending := None, isProcessing := true, calls := s.calls[call := Awaiting(p)],
       log := s.log + [Started(p)])
  }

  /** The drain loop of `call` ends and its `request()` resolves. */
  function ExitLoop<P, R>(s: State<P, R>, call: nat): State<P, R> {
    s.(calls := s.calls - {call}, log := s.log + [Returned(call)])
  }

  /**
   * `request(params)` overwrites `pendingParams`, then returns at once if a
   * process is running; otherwise its drain loop finds the value it just
   * wrote and starts processing it, synchronously.
   */
  function RequestStep<P, R>(s: State<P, R>, p: P): State<P, R> {
    var s1 := s.(pending := Some(p), nextCall := s.nextCall + 1, log := s.log + [Requested(p)]);
    if s.isProcessing then s1.(log := s1.log + [Returned(s.nextCall)])
    else TakeAndStart(s1, s.nextCall)
  }

  /** `process` resolved: `onResult`, then `finally` clears `isProcessing`; the loop has yet to resume. */
  function CompleteStep<P, R>(s: State<P, R>, call: nat, result: R): State<P, R>
    requires call in s.calls && s.calls[call].Awaiting?
  {
    s.(isProcessing := false, calls := s.calls[call := LoopHead],
       log := s.log + [Succeeded(s.calls[call].params, result)])
  }

  /**
   * `process` rejected: `onError`, `finally` clears `isProcessing`, and the
   * rethrown error leaves the caller's `while` loop. `pendingParams` is left
   * as it is.
   */
  function FailStep<P, R>(s: State<P, R>, call: nat): State<P, R>
    requires call in s.calls && s.calls[call].Awaiting?
  {
    s.(isProcessing := false, calls := s.calls - {call},
       log := s.log + [Failed(s.calls[call].params), Threw(call)])
  }

  /**
   * The handler as written. A resumed drain loop re-checks only
   * `pendingParams`, so it starts `process` even when another loop has
   * started one since its own `processNext` settled.
   */
  function StepAsWritten<P, R>(s: State<P, R>, a: Action<P, R>): (r: Option<State<P, R>>)
    ensures a.Request? ==> r.Some?
    ensures a.Resume? && r.Some? && s.pending.Some? ==> r.value.isProcessing && a.call in r.value.calls && r.value.calls[a.call].Awaiting?
    ensures a.Resume? && r.Some? && a.call !in r.value.calls ==> r.value.pending.None?
    ensures (a.Complete? || a.Fail?) && r.Some? ==> !r.value.isProcessing
  {
    match a
    case Request(p) => Some(RequestStep(s, p))
    case Resume(c) =>
      if c !in s.calls || !s.calls[c].LoopHead? then None
      else if s.pending.None? then Some(ExitLoop(s, c))
      else Some(TakeAndStart(s, c))
    case Complete(c, res) =>
      if c !in s.calls || !s.calls[c].Awaiting? then None else Some(CompleteStep(s, c, res))
    case Fail(c) =>
      if c !in s.calls || !s.calls[c].Awaiting? then None else Some(FailStep(s, c))
  }

  /**
   * The corrected handler: the drain loop runs `while (pendingParams !== null
   * && !isProcessing)`, leaving a newer value to the loop that is processing.
   * Every other step is as written.
   */
  function Step<P, R>(s: State<P, R>, a: Action<P, R>): (r: Option<State<P, R>>)
    ensures r.Some? <==> Enabled(s, a)
    ensures a.Request? && s.isProcessing ==>
      && r.value.pending == Some(a.params) && r.value.calls == s.calls && r.value.isProcessing
      && r.value.log == s.log + [Requested(a.params), Returned(s.nextCall)]
    ensures a.Request? && !s.isProcessing ==>
      && r.value.pending.None? && r.value.isProcessing
      && r.value.calls == s.calls[s.nextCall := Awaiting(a.params)]
      && r.value.log == s.log + [Requested(a.params), Started(a.params)]
    ensures (a.Complete? || a.Fail?) && r.Some? ==>
      !r.value.isProcessing && r.value.pending == s.pending
    ensures a.Complete? && r.Some? ==>
      r.value.log == s.log + [Succeeded(s.calls[a.call].params, a.result)]
    ensures a.Fail? && r.Some? ==>
      && a.call !in r.value.calls
      && r.value.log == s.log + [Failed(s.calls[a.call].params), Threw(a.call)]
    ensures a.Resume? && r.Some? && a.call !in r.value.calls ==>
      r.value.pending.None? || r.value.isProcessing
  {
    match a
    case Resume(c) =>
      if c !in s.calls || !s.calls[c].LoopHead? then None
      else if s.pending.None? || s.isProcessing then Some(ExitLoop(s, c))
      else Some(TakeAndStart(s, c))
    case _ => StepAsWritten(s, a)
  }

  predicate Enabled<P, R>(s: State<P, R>, a: Action<P, R>) {
    match a
    case Request(_) => true
    case Resume(c) => c in s.calls && s.calls[c].LoopHead?
    case Complete(c, _) => c in s.calls && s.calls[c].Awaiting?
    case Fail(c) => c in s.calls && s.calls[c].Awaiting?
  }

  /** Apply the steps in order; `None` if one of them is not enabled. */
  function Run<P, R>(s: State<P, R>, actions: seq<Action<P, R>>): Option<State<P, R>>
    decreases |actions|
  {
    if |actions| == 0 then Some(s)
    else match Step(s, actions[0])
      case None => None
      case Some(s') => Run(s', actions[1..])
  }

  function RunAsWritten<P, R>(s: State<P, R>, actions: seq<Action<P, R>>): Option<State<P, R>>
    decreases |actions|
  {
    if |actions| == 0 then Some(s)
    else match StepAsWritten(s, actions[0])
      case None => None
      case Some(s') => RunAsWritten(s', actions[1..])
  }

  // ---------------------------------------------------------------------------
  // The event log: which value each `process` call receives
  // ---------------------------------------------------------------------------

  /** The value a `process` call would take now: the last one requested after the last start, if any. */
  function Outstanding<P, R>(log: seq<Event<P, R>>): Option<P>
    decreases |log|
  {
    if |log| == 0 then None
    else match log[|log| - 1]
      case Requested(p) => Some(p)
      case Started(_) => None
      case _ => Outstanding(log[..|log| - 1])
  }

  /** Every `process` call received the value of the last `request` before it that no earlier call took. */
  ghost predicate LatestWins<P, R>(log: seq<Event<P, R>>) {
    forall i :: 0 <= i < |log| && log[i].Started? ==> Outstanding(log[..i]) == Some(log[i].params)
  }

  /** The most recent `process` outcome, if any, was a failure. */
  predicate LastRunFailed<P, R>(log: seq<Event<P, R>>)
    decreases |log|
  {
    |log| > 0 &&
    match log[|log| - 1]
    case Failed(_) => true
    case Started(_) => false
    case Succeeded(_, _) => false
    case _ => LastRunFailed(log[..|log| - 1])
  }

  lemma {:induction false} OutstandingIsLastRequest<P, R>(log: seq<Event<P, R>>, p: P)
    requires Outstanding(log) == Some(p)
    ensures exists j :: 0 <= j < |log| && log[j] == Requested(p) &&
                        (forall k :: j < k < |log| ==> !log[k].Requested? && !log[k].Started?)
    decreases |log|
  {
    var n := |log| - 1;
    if !log[n].Requested? {
      OutstandingIsLastRequest(log[..n], p);
      var j :| 0 <= j < n && log[..n][j] == Requested(p) &&
        forall k :: j < k < n ==> !log[..n][k].Requested? && !log[..n][k].Started?;
      assert log[j] == Requested(p);
      forall k | j < k < |log|
        ensures !log[k].Requested? && !log[k].Started?
      {
        if k < n {
          assert log[k] == log[..n][k];
        }
      }
    }
  }

  /**
   * Only the last value written is taken: the value of every `process` call
   * is that of a `request` with no other `request` and no other `process`
   * call between the two. Values overwritten before a call started are
   * never processed.
   */
  lemma StartTakesLatest<P, R>(log: seq<Event<P, R>>, i: int)
    requires LatestWins(log)
    requires 0 <= i < |log| && log[i].Started?
    ensures exists j :: 0 <= j < i && log[j] == Requested(log[i].params) &&
                        (forall k :: j < k < i ==> !log[k].Requested? && !log[k].Started?)
  {
    var pre := log[..i];
    OutstandingIsLastRequest(pre, log[i].params);
    var j :| 0 <= j < i && pre[j] == Requested(log[i].params) &&
      forall k :: j < k < i ==> !pre[k].Requested? && !pre[k].Started?;
    forall k | j < k < i
      ensures !log[k].Requested? && !log[k].Started?
    {
      assert pre[k] == log[k];
    }
  }

  lemma LatestWinsAppend<P, R>(log: seq<Event<P, R>>, e: Event<P, R>)
    requires LatestWins(log)
    requires e.Started? ==> Outstanding(log) == Some(e.params)
    ensures LatestWins(log + [e])
  {
    var log' := log + [e];
    forall i | 0 <= i < |log'| && log'[i].Started?
      ensures Outstanding(log'[..i]) == Some(log'[i].params)
    {
      if i < |log| {
        assert log'[..i] == log[..i];
      } else {
        assert log'[..i] == log;
      }
    }
  }

  // ---------------------------------------------------------------------------
  // The invariant of the corrected handler
  // ---------------------------------------------------------------------------

  /** At most one `process` call is in flight. */
  ghost predicate NoOverlap<P, R>(s: State<P, R>) {
    forall c1, c2 :: c1 in s.calls && c2 in s.calls && s.calls[c1].Awaiting? && s.calls[c2].Awaiting? ==> c1 == c2
  }

  ghost predicate SomeAwaiting<P, R>(s: State<P, R>) {
    exists c :: c in s.calls && s.calls[c].Awaiting?
  }

  ghost predicate SomeAtLoopHead<P, R>(s: State<P, R>) {
    exists c :: c in s.calls && s.calls[c].LoopHead?
  }

  ghost predicate Inv<P, R>(s: State<P, R>) {
    && (forall c :: c in s.calls ==> c < s.nextCall)
    && NoOverlap(s)
    && (s.isProcessing <==> SomeAwaiting(s))
    && s.pending == Outstanding(s.log)
    && LatestWins(s.log)
    // a pending value is always left to a running `process` or a drain loop about to resume, unless the last run failed
    && (s.pending.Some? && !s.isProcessing ==> SomeAtLoopHead(s) || LastRunFailed(s.log))
  }

  lemma InitInv<P, R>()
    ensures Inv(Init<P, R>())
  {
  }

  lemma RequestKeepsInv<P, R>(s: State<P, R>, p: P)
    requires Inv(s)
    ensures Inv(RequestStep(s, p))
  {
    var r := RequestStep(s, p);
    var log1 := s.log + [Requested(p)];
    LatestWinsAppend(s.log, Requested(p));
    assert Outstanding(log1) == Some(p);
    if s.isProcessing {
      LatestWinsAppend(log1, Returned(s.nextCall));
      assert log1 + [Returned(s.nextCall)] == r.log;
      assert Outstanding(r.log) == Outstanding(log1);
    } else {
      LatestWinsAppend(log1, Started(p));
      assert r.log == log1 + [Started(p)];
      var c := s.nextCall;
      assert s.calls.Keys !! {c};
      forall c1, c2 | c1 in r.calls && c2 in r.calls && r.calls[c1].Awaiting? && r.calls[c2].Awaiting?
        ensures c1 == c2
      {
        assert c1 == c && c2 == c;
      }
      assert r.calls[c].Awaiting?;
    }
  }

  lemma ResumeKeepsInv<P, R>(s: State<P, R>, c: nat)
    requires Inv(s) && c in s.calls && s.calls[c].LoopHead?
    ensures Inv(Step(s, Resume(c)).value)
  {
    var r := Step(s, Resume(c)).value;
    if s.pending.None? || s.isProcessing {
      assert r == ExitLoop(s, c);
      LatestWinsAppend(s.log, Returned(c));
      assert Outstanding(r.log) == Outstanding(s.log);
      if s.isProcessing {
        var w :| w in s.calls && s.calls[w].Awaiting?;
        assert w in r.calls && r.calls[w].Awaiting?;
      }
    } else {
      assert r == TakeAndStart(s, c);
      var p := s.pending.value;
      LatestWinsAppend(s.log, Started(p));
      forall c1, c2 | c1 in r.calls && c2 in r.calls && r.calls[c1].Awaiting? && r.calls[c2].Awaiting?
        ensures c1 == c2
      {
        assert c1 == c && c2 == c;
      }
      assert r.calls[c].Awaiting?;
    }
  }

  lemma CompleteKeepsInv<P, R>(s: State<P, R>, c: nat, result: R)
    requires Inv(s) && c in s.calls && s.calls[c].Awaiting?
    ensures Inv(CompleteStep(s, c, result))
  {
    var r := CompleteStep(s, c, result);
    LatestWinsAppend(s.log, Succeeded(s.calls[c].params, result));
    assert Outstanding(r.log) == Outstanding(s.log);
    assert r.calls[c].LoopHead?;
    assert !SomeAwaiting(r);
  }

  lemma FailKeepsInv<P, R>(s: State<P, R>, c: nat)
    requires Inv(s) && c in s.calls && s.calls[c].Awaiting?
    ensures Inv(FailStep(s, c))
  {
    var r := FailStep(s, c);
    var e := Failed(s.calls[c].params);
    var log1 := s.log + [e];
    LatestWinsAppend(s.log, e);
    LatestWinsAppend(log1, Threw(c));
    assert r.log == log1 + [Threw(c)];
    assert Outstanding(r.log) == Outstanding(s.log);
    assert LastRunFailed(log1);
    assert LastRunFailed(r.log);
    assert !SomeAwaiting(r);
  }

  /** Every step of the corrected handler keeps the invariant. */
  lemma StepKeepsInv<P, R>(s: State<P, R>, a: Action<P, R>)
    requires Inv(s) && Step(s, a).Some?
    ensures Inv(Step(s, a).value)
  {
    match a
    case Request(p) => RequestKeepsInv(s, p);
    case Resume(c) => ResumeKeepsInv(s, c);
    case Complete(c, res) => CompleteKeepsInv(s, c, res);
    case Fail(c) => FailKeepsInv(s, c);
  }

  /**
   * In every state any schedule reaches: `process` calls never overlap,
   * `isActive()` is true exactly while one is in flight, `hasPending()`
   * reports the last value requested since the last start, each call takes
   * the latest value, and no value is left waiting unless the last run failed.
   */
  lemma {:induction false} RunKeepsInv<P, R>(s: State<P, R>, actions: seq<Action<P, R>>)
    requires Inv(s) && Run(s, actions).Some?
    ensures Inv(Run(s, actions).value)
    decreases |actions|
  {
    if |actions| > 0 {
      StepKeepsInv(s, actions[0]);
      RunKeepsInv(Step(s, actions[0]).value, actions[1..]);
    }
  }

  lemma Reachable<P, R>(actions: seq<Action<P, R>>)
    requires Run(Init<P, R>(), actions).Some?
    ensures var s := Run(Init<P, R>(), actions).value;
      && NoOverlap(s)
      && (IsActive(s) <==> SomeAwaiting(s))
      && LatestWins(s.log)
  {
    InitInv<P, R>();
    RunKeepsInv(Init<P, R>(), actions);
  }

  // ---------------------------------------------------------------------------
  // Latest wins holds for the handler as written too
  // ---------------------------------------------------------------------------

  /** `pendingParams` is the value a `process` call would take now, and every call took the latest value. */
  ghost predicate Coalesces<P, R>(s: State<P, R>) {
    s.pending == Outstanding(s.log) && LatestWins(s.log)
  }

  /** Every step of the handler as written keeps `Coalesces`: the missing check affects overlap, not which value is taken. */
  lemma StepAsWrittenKeeps<P, R>(s: State<P, R>, a: Action<P, R>)
    requires Coalesces(s) && StepAsWritten(s, a).Some?
    ensures Coalesces(StepAsWritten(s, a).value)
  {
    var r := StepAsWritten(s, a).value;
    match a
    case Request(p) =>
      var log1 := s.log + [Requested(p)];
      LatestWinsAppend(s.log, Requested(p));
      assert Outstanding(log1) == Some(p);
      if s.isProcessing {
        LatestWinsAppend(log1, Returned(s.nextCall));
        assert r.log == log1 + [Returned(s.nextCall)];
        assert Outstanding(r.log) == Outstanding(log1);
      } else {
        LatestWinsAppend(log1, Started(p));
        assert r.log == log1 + [Started(p)];
      }
    case Resume(c) =>
      if s.pending.None? {
        LatestWinsAppend(s.log, Returned(c));
        assert Outstanding(r.log) == Outstanding(s.log);
      } else {
        LatestWinsAppend(s.log, Started(s.pending.value));
      }
    case Complete(c, res) =>
      LatestWinsAppend(s.log, Succeeded(s.calls[c].params, res));
      assert Outstanding(r.log) == Outstanding(s.log);
    case Fail(c) =>
      var log1 := s.log + [Failed(s.calls[c].params)];
      LatestWinsAppend(s.log, Failed(s.calls[c].params));
      LatestWinsAppend(log1, Threw(c));
      assert r.log == log1 + [Threw(c)];
      assert Outstanding(r.log) == Outstanding(s.log);
  }

  lemma {:induction false} RunAsWrittenKeeps<P, R>(s: State<P, R>, actions: seq<Action<P, R>>)
    requires Coalesces(s) && RunAsWritten(s, actions).Some?
    ensures Coalesces(RunAsWritten(s, actions).value)
    decreases |actions|
  {
    if |actions| > 0 {
      StepAsWrittenKeeps(s, actions[0]);
      RunAsWrittenKeeps(StepAsWritten(s, actions[0]).value, actions[1..]);
    }
  }

  /**
   * Only the last value written is taken, by the handler as written: in every
   * state any schedule reaches, `hasPending()` reports the last value requested
   * since the last start and each `process` call took the latest value.
   */
  lemma ReachableAsWritten<P, R>(actions: seq<Action<P, R>>)
    requires RunAsWritten(Init<P, R>(), actions).Some?
    ensures var s := RunAsWritten(Init<P, R>(), actions).value;
      && s.pending == Outstanding(s.log)
      && (HasPending(s) <==> Outstanding(s.log).Some?)
      && LatestWins(s.log)
  {
    RunAsWrittenKeeps(Init<P, R>(), actions);
  }

  // ---------------------------------------------------------------------------
  // The handler as written overlaps
  // ---------------------------------------------------------------------------

  /**
   * Call 0 processes 1 and settles; before its loop resumes, call 1 starts
   * processing 2 and call 2 overwrites the pending value with 3. Call 0's
   * loop then resumes, finds 3 pending and starts it while 2 is in flight.
   */
  const OverlapSchedule: seq<Action<int, int>> :=
    [Request(1), Complete(0, 10), Request(2), Request(3), Resume(0)]

  lemma AsWrittenOverlaps()
    ensures RunAsWritten(Init(), OverlapSchedule).Some?
    ensures var s := RunAsWritten(Init(), OverlapSchedule).value;
      && 0 in s.calls && 1 in s.calls
      && s.calls[0] == Awaiting(3) && s.calls[1] == Awaiting(2)
      && !NoOverlap(s)
  {
    var s0: State<int, int> := Init();
    var s1 := StepAsWritten(s0, Request(1)).value;
    assert s1.calls == map[0 := Awaiting(1)] && s1.isProcessing;
    var s2 := StepAsWritten(s1, Complete(0, 10)).value;
    assert s2.calls == map[0 := LoopHead] && !s2.isProcessing;
    var s3 := StepAsWritten(s2, Request(2)).value;
    assert s3.calls == map[0 := LoopHead, 1 := Awaiting(2)] && s3.isProcessing && s3.pending.None?;
    var s4 := StepAsWritten(s3, Request(3)).value;
    assert s4.calls == s3.calls && s4.pending == Some(3);
    var s5 := StepAsWritten(s4, Resume(0)).value;
    assert s5.calls == map[0 := Awaiting(3), 1 := Awaiting(2)];
    assert OverlapSchedule[1..][1..][1..][1..][1..] == [];
    assert RunAsWritten(s4, OverlapSchedule[1..][1..][1..][1..]) == Some(s5);
    assert RunAsWritten(s0, OverlapSchedule) == Some(s5);
  }

  /**
   * The corrected handler on the same schedule: call 0's loop leaves the
   * value 3 to call 1, which takes it once 2 has completed.
   */
  lemma CorrectedDrainsLatest()
    ensures var acts := OverlapSchedule + [Complete(1, 20), Resume(1)];
      && Run(Init(), acts).Some?
      && Run(Init(), acts).value.calls == map[1 := Awaiting(3)]
  {
    var s0: State<int, int> := Init();
    var s1 := Step(s0, Request(1)).value;
    assert s1.calls == map[0 := Awaiting(1)] && s1.isProcessing;
    var s2 := Step(s1, Complete(0, 10)).value;
    assert s2.calls == map[0 := LoopHead] && !s2.isProcessing;
    var s3 := Step(s2, Request(2)).value;
    assert s3.calls == map[0 := LoopHead, 1 := Awaiting(2)] && s3.isProcessing && s3.pending.None?;
    var s4 := Step(s3, Request(3)).value;
    assert s4.calls == map[0 := LoopHead, 1 := Awaiting(2)] && s4.pending == Some(3) && s4.isProcessing;
    var s5 := Step(s4, Resume(0)).value;
    assert s5.calls == map[1 := Awaiting(2)];
    var s6 := Step(s5, Complete(1, 20)).value;
    assert s6.calls == map[1 := LoopHead];
    var s7 := Step(s6, Resume(1)).value;
    assert s7.calls == map[1 := Awaiting(3)];
    var acts := OverlapSchedule + [Complete(1, 20), Resume(1)];
    assert acts[1..][1..][1..][1..][1..][1..][1..] == [];
    assert Run(s6, acts[1..][1..][1..][1..][1..][1..]) == Some(s7);
    assert Run(s5, acts[1..][1..][1..][1..][1..]) == Some(s7);
    assert Run(s4, acts[1..][1..][1..][1..]) == Some(s7);
    assert Run(s3, acts[1..][1..][1..]) == Some(s7);
    assert Run(s2, acts[1..][1..]) == Some(s7);
    assert Run(s1, acts[1..]) == Some(s7);
    assert Run(s0, acts) == Some(s7);
  }

  /**
   * A value written while a run fails is not lost to the rethrow: call 0's
   * drain loop, still waiting to re-check, takes 3 once 2 has failed, with
   * no new request.
   */
  lemma FailedRunValueTaken()
    ensures var acts := [Request(1), Complete(0, 10), Request(2), Request(3), Fail(1), Resume(0)];
      && Run(Init<int, int>(), acts).Some?
      && Run(Init<int, int>(), acts).value.calls == map[0 := Awaiting(3)]
  {
    var s0: State<int, int> := Init();
    var s1 := Step(s0, Request(1)).value;
    assert s1.calls == map[0 := Awaiting(1)] && s1.isProcessing;
    var s2 := Step(s1, Complete(0, 10)).value;
    assert s2.calls == map[0 := LoopHead] && !s2.isProcessing;
    var s3 := Step(s2, Request(2)).value;
    assert s3.calls == map[0 := LoopHead, 1 := Awaiting(2)] && s3.isProcessing && s3.pending.None?;
    var s4 := Step(s3, Request(3)).value;
    assert s4.calls == map[0 := LoopHead, 1 := Awaiting(2)] && s4.pending == Some(3);
    var s5 := Step(s4, Fail(1)).value;
    assert s5.calls == map[0 := LoopHead] && !s5.isProcessing && s5.pending == Some(3);
    var s6 := Step(s5, Resume(0)).value;
    assert s6.calls == map[0 := Awaiting(3)];
    var acts: seq<Action<int, int>> := [Request(1), Complete(0, 10), Request(2), Request(3), Fail(1), Resume(0)];
    assert acts[1..][1..][1..][1..][1..][1..] == [];
    assert Run(s5, acts[1..][1..][1..][1..][1..]) == Some(s6);
    assert Run(s4, acts[1..][1..][1..][1..]) == Some(s6);
    assert Run(s3, acts[1..][1..][1..]) == Some(s6);
    assert Run(s2, acts[1..][1..]) == Some(s6);
    assert Run(s1, acts[1..]) == Some(s6);
    assert Run(s0, acts) == Some(s6);
  }
}
