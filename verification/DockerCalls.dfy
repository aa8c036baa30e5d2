/**
 One call of the Docker client in hetzner/edge/dockerHarness.ts: a promise settled by whichever of `close`, `exit`,
 `error` and two timers comes first. Events come in any order; time passes only up to the next due timer.
 */
module DockerCalls {
  import opened Common

  const MAX_TIMER_MS := 2_147_483_647
  const EXIT_GRACE_MS := 500
  const KILL_GRACE_MS := 2_000

  /** The delay a timer honours: one out of range fires after 1 ms. */
  function TimerDelay(ms: int): nat {
    if 1 <= ms <= MAX_TIMER_MS then ms else 1
  }

  datatype Action = Deadline | KillGrace | ExitGrace(code: Option<int>)

  datatype Timer = Timer(due: nat, action: Action)

  /** A call of the promise's `resolve`. */
  datatype Resolution = Resolution(status: Option<int>, timedOut: bool, at: nat)

  datatype CallState = CallState(now: nat, timedOut: bool, settled: bool, live: bool,
                                 timers: seq<Timer>, resolutions: seq<Resolution>)

  datatype Event =
    | Pass(ms: nat)
    | Exit(code: Option<int>)
    | Close(code: Option<int>)
    | Error
    | Fire(index: nat)

  function Started(now: nat, deadlineMs: int): CallState {
    CallState(now, false, false, true, [Timer(now + TimerDelay(deadlineMs), Deadline)], [])
  }

  /** `finish`: the first call settles, clears the timers and leaves the live set; later calls do nothing. */
  function Finished(s: CallState, status: Option<int>): CallState {
    if s.settled then s
    else s.(settled := true, timers := [], live := false,
            resolutions := s.resolutions + [Resolution(status, s.timedOut, s.now)])
  }

  function WithTimer(s: CallState, delay: nat, action: Action): CallState {
    s.(timers := s.timers + [Timer(s.now + delay, action)])
  }

  function Without(timers: seq<Timer>, index: nat): seq<Timer>
    requires index < |timers|
  {
    timers[..index] + timers[index + 1..]
  }

  function Fired(s: CallState, index: nat): CallState
    requires index < |s.timers|
  {
    var rest := s.(timers := Without(s.timers, index));
    match s.timers[index].action
    case Deadline => WithTimer(rest.(timedOut := true), KILL_GRACE_MS, KillGrace)
    case KillGrace => Finished(rest, None)
    case ExitGrace(code) => Finished(rest, code)
  }

  predicate Enabled(s: CallState, e: Event) {
    match e
    case Pass(ms) => forall j :: 0 <= j < |s.timers| ==> s.now + ms <= s.timers[j].due
    case Fire(index) => index < |s.timers| && s.timers[index].due == s.now
    case _ => true
  }

  function After(s: CallState, e: Event): CallState
    requires Enabled(s, e)
  {
    match e
    case Pass(ms) => s.(now := s.now + ms)
    case Exit(code) => if s.settled then s else WithTimer(s, EXIT_GRACE_MS, ExitGrace(code))
    case Close(code) => Finished(s, code)
    case Error => Finished(s, None)
    case Fire(index) => Fired(s, index)
  }

  /** Whether `t` is where the events lead from `s`. */
  predicate Reaches(s: CallState, events: seq<Event>, t: CallState)
    decreases |events|
  {
    if events == [] then s == t
    else Enabled(s, events[0]) && Reaches(After(s, events[0]), events[1..], t)
  }

  /** The call as the program keeps it: variables that event handlers update. */
  class DockerCall {
    var now: nat
    var timedOut: bool
    var settled: bool
    var live: bool
    var timers: seq<Timer>
    var resolutions: seq<Resolution>

    function View(): CallState
      reads this
    {
      CallState(now, timedOut, settled, live, timers, resolutions)
    }

    constructor (now: nat, deadlineMs: int)
      ensures View() == Started(now, deadlineMs)
    {
      this.now := now;
      timedOut, settled, live := false, false, true;
      timers := [Timer(now + TimerDelay(deadlineMs), Deadline)];
      resolutions := [];
    }

    method Finish(status: Option<int>)
      modifies this
      ensures View() == Finished(old(View()), status)
    {
      if settled {
        return;
      }
      settled := true;
      timers := [];
      live := false;
      resolutions := resolutions + [Resolution(status, timedOut, now)];
    }

    method OnExit(code: Option<int>)
      modifies this
      ensures View() == After(old(View()), Exit(code))
    {
      if !settled {
        timers := timers + [Timer(now + EXIT_GRACE_MS, ExitGrace(code))];
      }
    }

    method OnClose(code: Option<int>)
      modifies this
      ensures View() == After(old(View()), Close(code))
    {
      Finish(code);
    }

    method OnError()
      modifies this
      ensures View() == After(old(View()), Error)
    {
      Finish(None);
    }

    method OnTimer(index: nat)
      requires Enabled(View(), Fire(index))
      modifies this
      ensures View() == After(old(View()), Fire(index))
    {
      var action := timers[index].action;
      timers := timers[..index] + timers[index + 1..];
      match action {
        case Deadline =>
          timedOut := true;
          timers := timers + [Timer(now + KILL_GRACE_MS, KillGrace)];
        case KillGrace =>
          Finish(None);
        case ExitGrace(code) =>
          Finish(code);
      }
    }
  }

  // ---- Settling once, in time ----

  predicate Pending(s: CallState, timer: Timer) {
    exists j :: 0 <= j < |s.timers| && s.timers[j] == timer
  }

  /** `deadline` is when the deadline timer is due; `limits` holds times by which the call must have settled. */
  ghost predicate Inv(s: CallState, deadline: nat, limits: set<nat>) {
    && (s.settled ==>
          && !s.live && s.timers == [] && |s.resolutions| == 1
          && s.resolutions[0].at <= deadline + KILL_GRACE_MS
          && (forall limit :: limit in limits ==> s.resolutions[0].at <= limit)
          && (s.resolutions[0].timedOut ==> s.resolutions[0].at >= deadline)
          && (s.resolutions[0].at > deadline ==> s.resolutions[0].timedOut))
    && (!s.settled ==>
          && s.live && s.resolutions == []
          && (forall j :: 0 <= j < |s.timers| ==> s.now <= s.timers[j].due && (s.timers[j].action.Deadline? ==> s.timers[j].due == deadline))
          && (s.timedOut ==> s.now >= deadline && Pending(s, Timer(deadline + KILL_GRACE_MS, KillGrace)))
          && (!s.timedOut ==> Pending(s, Timer(deadline, Deadline)))
          && (forall limit :: limit in limits ==> exists code :: Pending(s, Timer(limit, ExitGrace(code)))))
  }

  lemma FireKeepsOthers(s: CallState, index: nat, timer: Timer)
    requires index < |s.timers| && Pending(s, timer) && s.timers[index] != timer
    ensures Pending(s.(timers := Without(s.timers, index)), timer)
  {
    var j :| 0 <= j < |s.timers| && s.timers[j] == timer;
    var rest := Without(s.timers, index);
    assert rest[if j < index then j else j - 1] == timer;
  }

  lemma AddedTimerIsPending(s: CallState, delay: nat, action: Action)
    ensures Pending(WithTimer(s, delay, action), Timer(s.now + delay, action))
    ensures forall timer :: Pending(s, timer) ==> Pending(WithTimer(s, delay, action), timer)
  {
    var t := WithTimer(s, delay, action);
    assert t.timers[|s.timers|] == Timer(s.now + delay, action);
    forall timer | Pending(s, timer)
      ensures Pending(t, timer)
    {
      var j :| 0 <= j < |s.timers| && s.timers[j] == timer;
      assert t.timers[j] == timer;
    }
  }

  lemma FireKeepsInv(s: CallState, index: nat, deadline: nat, limits: set<nat>)
    requires Inv(s, deadline, limits) && Enabled(s, Fire(index))
    ensures Inv(Fired(s, index), deadline, limits)
  {
    var timer := s.timers[index];
    if timer.action.Deadline? {
      var rest := s.(timers := Without(s.timers, index), timedOut := true);
      AddedTimerIsPending(rest, KILL_GRACE_MS, KillGrace);
      forall limit | limit in limits
        ensures exists code :: Pending(Fired(s, index), Timer(limit, ExitGrace(code)))
      {
        var code :| Pending(s, Timer(limit, ExitGrace(code)));
        FireKeepsOthers(s, index, Timer(limit, ExitGrace(code)));
        assert Pending(rest, Timer(limit, ExitGrace(code)));
      }
    }
  }

  lemma ExitKeepsInv(s: CallState, code: Option<int>, deadline: nat, limits: set<nat>)
    requires Inv(s, deadline, limits)
    ensures Inv(After(s, Exit(code)), deadline, limits)
    ensures !s.settled ==> Inv(After(s, Exit(code)), deadline, {s.now + EXIT_GRACE_MS})
  {
    if !s.settled {
      AddedTimerIsPending(s, EXIT_GRACE_MS, ExitGrace(code));
    }
  }

  lemma StepKeepsInv(s: CallState, e: Event, deadline: nat, limits: set<nat>)
    requires Inv(s, deadline, limits) && Enabled(s, e)
    ensures Inv(After(s, e), deadline, limits)
  {
    match e {
      case Fire(index) => FireKeepsInv(s, index, deadline, limits);
      case Exit(code) => ExitKeepsInv(s, code, deadline, limits);
      case Pass(ms) =>
        if !s.settled {
          assert forall timer :: Pending(s, timer) ==> Pending(After(s, e), timer) && s.now + ms <= timer.due;
        }
      case _ =>
    }
  }

  lemma {:induction false} RunKeepsInv(s: CallState, events: seq<Event>, t: CallState, deadline: nat, limits: set<nat>)
    requires Inv(s, deadline, limits) && Reaches(s, events, t)
    ensures Inv(t, deadline, limits)
    decreases |events|
  {
    if events != [] {
      StepKeepsInv(s, events[0], deadline, limits);
      RunKeepsInv(After(s, events[0]), events[1..], t, deadline, limits);
    }
  }

  /**
   For every order of events: the promise resolves at most once, no later than 2000 ms after the deadline, and once
   that time is past it has resolved; the client is in the live set exactly until then; and the result says the call
   timed out only at or after the deadline, and always after it.
   */
  lemma SettlesOnceInTime(now: nat, deadlineMs: int, events: seq<Event>, t: CallState)
    requires Reaches(Started(now, deadlineMs), events, t)
    ensures |t.resolutions| == (if t.settled then 1 else 0)
    ensures t.live <==> !t.settled
    ensures var deadline := now + TimerDelay(deadlineMs);
            && (t.now > deadline + KILL_GRACE_MS ==> t.settled)
            && (t.settled ==>
                  var r := t.resolutions[0];
                  && r.at <= deadline + KILL_GRACE_MS
                  && (r.timedOut ==> r.at >= deadline)
                  && (r.at > deadline ==> r.timedOut))
  {
    var s := Started(now, deadlineMs);
    var deadline := now + TimerDelay(deadlineMs);
    assert s.timers[0] == Timer(deadline, Deadline);
    RunKeepsInv(s, events, t, deadline, {});
    if !t.settled {
      PendingTimerBoundsTime(t, deadline);
    }
  }

  lemma PendingTimerBoundsTime(t: CallState, deadline: nat)
    requires Inv(t, deadline, {}) && !t.settled
    ensures t.now <= deadline + KILL_GRACE_MS
  {
    var timer := if t.timedOut then Timer(deadline + KILL_GRACE_MS, KillGrace) else Timer(deadline, Deadline);
    var j :| 0 <= j < |t.timers| && t.timers[j] == timer;
  }

  /** A child that exits has its call settled within 500 ms, whatever still holds its pipes open. */
  lemma ExitBoundsTheWait(now: nat, deadlineMs: int, before: seq<Event>, s: CallState, code: Option<int>,
                          after: seq<Event>, t: CallState)
    requires Reaches(Started(now, deadlineMs), before, s) && !s.settled
    requires Reaches(After(s, Exit(code)), after, t)
    ensures t.now > s.now + EXIT_GRACE_MS ==> t.settled
    ensures t.settled ==> |t.resolutions| == 1 && t.resolutions[0].at <= s.now + EXIT_GRACE_MS
  {
    var deadline, limit := now + TimerDelay(deadlineMs), s.now + EXIT_GRACE_MS;
    assert Started(now, deadlineMs).timers[0] == Timer(deadline, Deadline);
    RunKeepsInv(Started(now, deadlineMs), before, s, deadline, {});
    ExitKeepsInv(s, code, deadline, {});
    RunKeepsInv(After(s, Exit(code)), after, t, deadline, {limit});
    if !t.settled {
      var c :| Pending(t, Timer(limit, ExitGrace(c)));
    }
  }

  /** An unsettled call is never stuck: a timer is due now, or time can pass. */
  lemma NeverStuck(now: nat, deadlineMs: int, events: seq<Event>, t: CallState)
    requires Reaches(Started(now, deadlineMs), events, t) && !t.settled
    ensures Enabled(t, Pass(1)) || exists index :: Enabled(t, Fire(index))
  {
    var deadline := now + TimerDelay(deadlineMs);
    assert Started(now, deadlineMs).timers[0] == Timer(deadline, Deadline);
    RunKeepsInv(Started(now, deadlineMs), events, t, deadline, {});
    if !Enabled(t, Pass(1)) {
      var j :| 0 <= j < |t.timers| && t.now + 1 > t.timers[j].due;
      assert Enabled(t, Fire(j));
    }
  }

  // ---- What the promise resolves with ----

  lemma {:induction false} RunOn(s: CallState, events: seq<Event>, e: Event, t: CallState)
    requires Reaches(s, events, t) && Enabled(t, e)
    ensures Reaches(s, events + [e], After(t, e))
    decreases |events|
  {
    hide After, Enabled;
    if events == [] {
      assert (events + [e])[1..] == [];
    } else {
      assert (events + [e])[1..] == events[1..] + [e];
      RunOn(After(s, events[0]), events[1..], e, t);
    }
  }

  /** The client's own end settles an unsettled call at once: a close with the close's status, an error with none. */
  lemma EndSettles(now: nat, deadlineMs: int, events: seq<Event>, s: CallState, code: Option<int>)
    requires Reaches(Started(now, deadlineMs), events, s) && !s.settled
    ensures After(s, Close(code)).settled && After(s, Close(code)).resolutions == [Resolution(code, s.timedOut, s.now)]
    ensures After(s, Error).settled && After(s, Error).resolutions == [Resolution(None, s.timedOut, s.now)]
  {
    SettlesOnceInTime(now, deadlineMs, events, s);
  }

  /** After it has settled, nothing but time changes. */
  lemma {:induction false} SettledIsFinal(s: CallState, events: seq<Event>, t: CallState)
    requires s.settled && s.timers == [] && Reaches(s, events, t)
    ensures t.(now := s.now) == s
    decreases |events|
  {
    if events != [] {
      SettledIsFinal(After(s, events[0]), events[1..], t);
    }
  }

  lemma TwoEvents(s: CallState, e: Event, f: Event)
    requires Enabled(s, e) && Enabled(After(s, e), f)
    ensures Reaches(s, [e, f], After(After(s, e), f))
  {
    hide After, Enabled;
    assert [e, f][1..] == [f] && [f][1..] == [];
    assert Reaches(After(s, e), [f], After(After(s, e), f));
  }

  lemma {:induction false} RunOfBoth(s: CallState, a: seq<Event>, b: seq<Event>, u: CallState, t: CallState)
    requires Reaches(s, a, u) && Reaches(u, b, t)
    ensures Reaches(s, a + b, t)
    decreases |a|
  {
    hide After, Enabled;
    if a == [] {
      assert a + b == b;
    } else {
      assert (a + b)[1..] == a[1..] + b;
      RunOfBoth(After(s, a[0]), a[1..], b, u, t);
    }
  }

  /**
   A child that exits with no other timer due in the next 500 ms has its call settled with the exit's status when they
   are over, if nothing else happens until then.
   */
  lemma ExitSettles(now: nat, deadlineMs: int, events: seq<Event>, s: CallState, code: Option<int>) returns (t: CallState)
    requires Reaches(Started(now, deadlineMs), events, s) && !s.settled
    requires forall j :: 0 <= j < |s.timers| ==> s.timers[j].due >= s.now + 500
    ensures Reaches(After(s, Exit(code)), [Pass(500), Fire(|s.timers|)], t)
    ensures t.settled && t.resolutions == [Resolution(code, s.timedOut, s.now + 500)]
  {
    SettlesOnceInTime(now, deadlineMs, events, s);
    var exited := After(s, Exit(code));
    var late := After(exited, Pass(500));
    assert late.timers[|s.timers|] == Timer(s.now + 500, ExitGrace(code));
    t := After(late, Fire(|s.timers|));
    TwoEvents(exited, Pass(500), Fire(|s.timers|));
  }

  /** A call the client never ends marks the timeout at its deadline and settles with no status 2000 ms later. */
  lemma DeadlineSettles(now: nat, deadlineMs: int) returns (t: CallState)
    requires 1 <= deadlineMs <= 2_147_483_647
    ensures Reaches(Started(now, deadlineMs), [Pass(deadlineMs), Fire(0)] + [Pass(2_000), Fire(0)], t)
    ensures t.settled && t.resolutions == [Resolution(None, true, now + deadlineMs + 2_000)]
  {
    var s := Started(now, deadlineMs);
    TwoEvents(s, Pass(deadlineMs), Fire(0));
    var late := After(After(s, Pass(deadlineMs)), Fire(0));
    assert late.timers == [Timer(now + deadlineMs + 2_000, KillGrace)] && late.timedOut && !late.settled;
    TwoEvents(late, Pass(2_000), Fire(0));
    t := After(After(late, Pass(2_000)), Fire(0));
    RunOfBoth(s, [Pass(deadlineMs), Fire(0)], [Pass(2_000), Fire(0)], late, t);
  }

  /** What a run has seen: each status a call resolved with, and each a grace timer still holds, came from the client. */
  ghost predicate FromClient(s: CallState, seen: set<int>) {
    && (forall r, c :: r in s.resolutions && r.status == Some(c) ==> c in seen)
    && (forall timer, c :: timer in s.timers && timer.action == ExitGrace(Some(c)) ==> c in seen)
  }

  function Codes(events: seq<Event>): (r: set<int>)
    ensures forall c :: c in r <==> Close(Some(c)) in events || Exit(Some(c)) in events
  {
    if events == [] then {}
    else
      var e, rest := events[0], Codes(events[1..]);
      if e.Close? && e.code.Some? then rest + {e.code.value}
      else if e.Exit? && e.code.Some? then rest + {e.code.value}
      else rest
  }

  lemma StepIsFromClient(s: CallState, e: Event, seen: set<int>)
    requires FromClient(s, seen) && Enabled(s, e)
    ensures FromClient(After(s, e), seen + Codes([e]))
  {
    assert [e][1..] == [];
    if e.Fire? {
      var rest := Without(s.timers, e.index);
      assert forall timer :: timer in rest ==> timer in s.timers;
      assert s.timers[e.index] in s.timers;
    }
  }

  lemma {:induction false} RunIsFromClient(s: CallState, events: seq<Event>, t: CallState, seen: set<int>)
    requires FromClient(s, seen) && Reaches(s, events, t)
    ensures FromClient(t, seen + Codes(events))
    decreases |events|
  {
    hide After, Enabled, FromClient;
    if events != [] {
      StepIsFromClient(s, events[0], seen);
      RunIsFromClient(After(s, events[0]), events[1..], t, seen + Codes([events[0]]));
      assert Codes([events[0]]) + Codes(events[1..]) == Codes(events) by {
        assert events == [events[0]] + events[1..];
      }
      assert seen + Codes([events[0]]) + Codes(events[1..]) == seen + Codes(events);
    } else {
      assert seen + Codes(events) == seen;
    }
  }

  /** A status the promise resolves with is one that the client closed or exited with in this very run. */
  lemma StatusIsTheClients(now: nat, deadlineMs: int, events: seq<Event>, t: CallState, c: int)
    requires Reaches(Started(now, deadlineMs), events, t) && t.settled
    requires exists r :: r in t.resolutions && r.status == Some(c)
    ensures Close(Some(c)) in events || Exit(Some(c)) in events
  {
    RunIsFromClient(Started(now, deadlineMs), events, t, {});
  }

  /** A deadline in the timers' range is kept to the millisecond: the promise has resolved by 2000 ms after it. */
  lemma DeadlineIsKept(now: nat, deadlineMs: int, events: seq<Event>, t: CallState)
    requires 1 <= deadlineMs <= 2_147_483_647 && Reaches(Started(now, deadlineMs), events, t)
    ensures t.now > now + deadlineMs + 2_000 ==> t.settled
    ensures t.settled ==> |t.resolutions| == 1 && t.resolutions[0].at <= now + deadlineMs + 2_000
    ensures t.settled && t.resolutions[0].timedOut ==> t.resolutions[0].at >= now + deadlineMs
  {
    SettlesOnceInTime(now, deadlineMs, events, t);
  }

  /** A deadline out of the timers' range fires after one millisecond. */
  lemma OutOfRangeDeadlineIsShort(now: nat, deadlineMs: int, events: seq<Event>, t: CallState)
    requires (deadlineMs < 1 || deadlineMs > 2_147_483_647) && Reaches(Started(now, deadlineMs), events, t)
    ensures t.now > now + 2_001 ==> t.settled
  {
    SettlesOnceInTime(now, deadlineMs, events, t);
  }
}
