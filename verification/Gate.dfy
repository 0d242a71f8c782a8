/**
 The gate in front of every control operation: a timer whose expiry each caller
 pushes past the last one before waiting on it. Times are in nanoseconds.
 */
module Gates {
  /** How a wait ends: the timer expired, a later expires_at cancelled it, or
      the timer itself failed. */
  datatype WaitCode = Success | OperationAborted | OtherError

  datatype Wakeup = Wakeup(waiter: nat, code: WaitCode)

  /** The waits still armed and those that ended, numbered in call order. */
  datatype GateState = GateState(expiry: int, calls: nat, armed: seq<nat>, ended: seq<Wakeup>)

  datatype GateStep = Acquire(now: int) | Tick(now: int)

  function Max(a: int, b: int): int {
    if a < b then b else a
  }

  function EndAll(waiters: seq<nat>, code: WaitCode): (r: seq<Wakeup>)
    ensures |r| == |waiters|
  {
    seq(|waiters|, i requires 0 <= i < |waiters| => Wakeup(waiters[i], code))
  }

  /** One step: a caller acquires, or the clock reaches a time. */
  function Next(s: GateState, step: GateStep): GateState {
    match step
    case Acquire(now) =>
      GateState(Max(s.expiry, now) + 1, s.calls + 1, [s.calls], s.ended + EndAll(s.armed, OperationAborted))
    case Tick(now) =>
      if s.expiry <= now then s.(armed := [], ended := s.ended + EndAll(s.armed, Success)) else s
  }

  function RunGate(s: GateState, steps: seq<GateStep>): GateState
    decreases |steps|
  {
    if steps == [] then s else RunGate(Next(s, steps[0]), steps[1..])
  }

  function Ids(n: nat): (r: seq<nat>)
    ensures |r| == n
  {
    seq(n, i => i)
  }

  function Waiters(ended: seq<Wakeup>): (r: seq<nat>)
    ensures |r| == |ended|
  {
    seq(|ended|, i requires 0 <= i < |ended| => ended[i].waiter)
  }

  /** At most one wait is armed, every call's wait ended exactly once or is the
      armed one, in call order, and no wait failed. */
  ghost predicate GateInv(s: GateState) {
    && |s.armed| <= 1
    && Waiters(s.ended) + s.armed == Ids(s.calls)
    && forall i | 0 <= i < |s.ended| :: s.ended[i].code != OtherError
  }

  lemma {:induction false} StepKeepsGateInv(s: GateState, step: GateStep)
    requires GateInv(s)
    ensures GateInv(Next(s, step))
  {
    var t := Next(s, step);
    if step.Acquire? {
      assert Waiters(t.ended) == Waiters(s.ended) + s.armed;
      assert Ids(s.calls + 1) == Ids(s.calls) + [s.calls];
    } else if t != s {
      assert Waiters(t.ended) == Waiters(s.ended) + s.armed;
    }
  }

  /** In every reachable state. */
  lemma {:induction false} GateRuns(s: GateState, steps: seq<GateStep>)
    requires GateInv(s)
    ensures GateInv(RunGate(s, steps))
    decreases |steps|
  {
    if steps != [] {
      StepKeepsGateInv(s, steps[0]);
      GateRuns(Next(s, steps[0]), steps[1..]);
    }
  }

  /** Some clock reading reached the time. */
  predicate Reached(ticks: seq<GateStep>, time: int) {
    exists i | 0 <= i < |ticks| :: ticks[i].Tick? && time <= ticks[i].now
  }

  /** One wait over the run that follows its call: as soon as the clock reaches its
      expiry it ends with success and nothing stays armed; until then it is the
      armed one, and the next call would end it as aborted. */
  lemma {:induction false} OneWait(s: GateState, now: int, ticks: seq<GateStep>, next: int)
    requires forall t | t in ticks :: t.Tick?
    ensures var expiry := Max(s.expiry, now) + 1;
            var before := s.ended + EndAll(s.armed, OperationAborted);
            var t := RunGate(s, [Acquire(now)] + ticks);
            var u := Next(t, Acquire(next));
            if Reached(ticks, expiry) then
              && t.armed == [] && t.ended == before + [Wakeup(s.calls, Success)]
              && u.armed == [s.calls + 1] && u.ended == t.ended
            else
              && t.armed == [s.calls] && t.ended == before
              && u.armed == [s.calls + 1] && u.ended == before + [Wakeup(s.calls, OperationAborted)]
  {
    var t := Next(s, Acquire(now));
    assert ([Acquire(now)] + ticks)[1..] == ticks;
    TicksOnly(t, ticks);
    assert EndAll([s.calls], Success) == [Wakeup(s.calls, Success)];
    assert EndAll([s.calls], OperationAborted) == [Wakeup(s.calls, OperationAborted)];
  }

  lemma {:induction false} TicksOnly(s: GateState, ticks: seq<GateStep>)
    requires forall t | t in ticks :: t.Tick?
    ensures RunGate(s, ticks)
            == if Reached(ticks, s.expiry) then s.(armed := [], ended := s.ended + EndAll(s.armed, Success)) else s
    decreases |ticks|
  {
    if ticks != [] {
      assert ticks[0] in ticks;
      var t := Next(s, ticks[0]);
      TicksOnly(t, ticks[1..]);
      assert forall i | 1 <= i < |ticks| :: ticks[i] == ticks[1..][i - 1];
      if s.expiry <= ticks[0].now {
        assert t.ended + EndAll([], Success) == t.ended;
      }
    }
  }

  /** The times of the acquisitions in a run. */
  function CallTimes(steps: seq<GateStep>): seq<int> {
    if steps == [] then []
    else if steps[0].Acquire? then [steps[0].now] + CallTimes(steps[1..])
    else CallTimes(steps[1..])
  }

  /** Each call's time pushed past every earlier expiry: the reference for the
      gate's expiry after calls at these times. */
  predicate IsExpiry(ts: seq<int>, e: int)
    requires ts != []
  {
    && (forall i | 0 <= i < |ts| :: ts[i] + (|ts| - i) <= e)
    && (exists i | 0 <= i < |ts| :: ts[i] + (|ts| - i) == e)
  }

  function ExpiryAfter(start: int, ts: seq<int>): int {
    if ts == [] then start else Max(ExpiryAfter(start, ts[..|ts| - 1]), ts[|ts| - 1]) + 1
  }

  lemma {:induction false} ExpiryAppend(start: int, t: int, ts: seq<int>)
    ensures ExpiryAfter(start, [t] + ts) == ExpiryAfter(Max(start, t) + 1, ts)
    decreases |ts|
  {
    if ts == [] {
      assert [t] + ts == [t] && [t][..0] == [];
    } else {
      var all := [t] + ts;
      assert all[..|all| - 1] == [t] + ts[..|ts| - 1];
      ExpiryAppend(start, t, ts[..|ts| - 1]);
    }
  }

  lemma {:induction false} GateExpiry(s: GateState, steps: seq<GateStep>)
    ensures RunGate(s, steps).expiry == ExpiryAfter(s.expiry, CallTimes(steps))
    ensures RunGate(s, steps).calls == s.calls + |CallTimes(steps)|
    decreases |steps|
  {
    if steps != [] {
      GateExpiry(Next(s, steps[0]), steps[1..]);
      if steps[0].Acquire? {
        ExpiryAppend(s.expiry, steps[0].now, CallTimes(steps[1..]));
      }
    }
  }

  /** The k-th expiry is the maximum over i <= k of t_i + (k - i + 1). */
  lemma {:induction false} ExpiryIsMaxPlus(start: int, ts: seq<int>)
    requires ts != [] && start <= ts[0]
    ensures IsExpiry(ts, ExpiryAfter(start, ts))
    decreases |ts|
  {
    var n := |ts| - 1;
    var init := ts[..n];
    if n == 0 {
      assert ExpiryAfter(start, init) == start;
      assert ts[0] + (|ts| - 0) == ExpiryAfter(start, ts);
    } else {
      ExpiryIsMaxPlus(start, init);
      var e := ExpiryAfter(start, init);
      var i :| 0 <= i < n && init[i] + (n - i) == e;
      assert forall j | 0 <= j < n :: init[j] == ts[j];
      if e < ts[n] {
        assert ts[n] + (|ts| - n) == ExpiryAfter(start, ts);
      } else {
        assert ts[i] + (|ts| - i) == ExpiryAfter(start, ts);
      }
    }
  }

  predicate NonDecreasing(ts: seq<int>) {
    forall i, j | 0 <= i <= j < |ts| :: ts[i] <= ts[j]
  }

  /** Over a whole run with a monotonic clock, after k calls the expiry lies
      between 1 and k nanoseconds after the last call, and grew with it. */
  lemma {:induction false} GateOverRuns(s: GateState, steps: seq<GateStep>)
    requires CallTimes(steps) != [] && s.expiry <= CallTimes(steps)[0] && NonDecreasing(CallTimes(steps))
    ensures var ts := CallTimes(steps);
            var e := RunGate(s, steps).expiry;
            && IsExpiry(ts, e)
            && ts[|ts| - 1] + 1 <= e <= ts[|ts| - 1] + |ts|
            && ExpiryAfter(s.expiry, ts[..|ts| - 1]) < e
  {
    var ts := CallTimes(steps);
    GateExpiry(s, steps);
    ExpiryIsMaxPlus(s.expiry, ts);
    var e := ExpiryAfter(s.expiry, ts);
    var i :| 0 <= i < |ts| && ts[i] + (|ts| - i) == e;
    assert ts[i] <= ts[|ts| - 1];
    assert ts[|ts| - 1] + (|ts| - (|ts| - 1)) <= e;
  }
}
