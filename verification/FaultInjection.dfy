/** The lock-free fault-injection counter of src/testing/fault_injection.c as a step system, and
    the test loop of include/rcutils/testing/fault_injection.h.

    A schedule is any sequence of actions: an atomic step of some thread inside `maybe_fail`, or a
    store by `set_count`.  Every interleaving of any number of threads is a schedule.
 */
module FaultInjection {

  const NEVER_FAIL := -1

  datatype Action = Run(thread: nat) | Store(count: int)

  /** `Won(t, v)`: the compare-exchange of `t` succeeded and its call returns `v`.  `Passed(t, v)`:
      thread `t` saw a negative count and its call returns that. */
  datatype Event = SetTo(count: int) | Won(thread: nat, value: int) | Passed(thread: nat, value: int)

  /** `holding[t]` is `current_count` of a thread `t` inside the call. */
  datatype State = State(count: int, holding: map<nat, int>)

  /** One atomic step.  Outside the call a thread loads the count; inside, a negative value is
      returned, any other value is compared: equal, the count goes down by one; different, the
      thread takes the current count and will try again (C11 strong compare-exchange, section
      7.17.7.4 of ISO/IEC 9899:2011). */
  function Step(s: State, a: Action): (r: (State, seq<Event>)) {
    match a
    case Store(c) => (s.(count := c), [SetTo(c)])
    case Run(t) =>
      if t !in s.holding then (s.(holding := s.holding[t := s.count]), [])
      else if s.holding[t] <= NEVER_FAIL then (s.(holding := s.holding - {t}), [Passed(t, s.holding[t])])
      else if s.holding[t] == s.count then (State(s.count - 1, s.holding - {t}), [Won(t, s.count)])
      else (s.(holding := s.holding[t := s.count]), [])
  }

  function Exec(s: State, actions: seq<Action>): (r: (State, seq<Event>)) {
    if actions == [] then (s, [])
    else
      var before := Exec(s, actions[..|actions| - 1]);
      var last := Step(before.0, actions[|actions| - 1]);
      (last.0, before.1 + last.1)
  }

  lemma ExecOne(s: State, actions: seq<Action>, a: Action)
    ensures Exec(s, actions + [a]) ==
            (Step(Exec(s, actions).0, a).0, Exec(s, actions).1 + Step(Exec(s, actions).0, a).1)
  {
    assert (actions + [a])[..|actions|] == actions;
  }

  lemma {:induction false} ExecConcat(s: State, a: seq<Action>, b: seq<Action>)
    ensures Exec(s, a + b) == (Exec(Exec(s, a).0, b).0, Exec(s, a).1 + Exec(Exec(s, a).0, b).1)
    decreases |b|
  {
    if b == [] {
      assert a + b == a && Exec(s, a).1 + [] == Exec(s, a).1;
    } else {
      var n := |b| - 1;
      ExecConcat(s, a, b[..n]);
      assert a + b == a + b[..n] + [b[n]];
      ExecOne(s, a + b[..n], b[n]);
      var first, rest := Exec(s, a), Exec(Exec(s, a).0, b[..n]);
      var last := Step(rest.0, b[n]);
      assert first.1 + rest.1 + last.1 == first.1 + (rest.1 + last.1);
    }
  }

  // ----- the values that calls return

  /** The values returned by successful compare-exchanges, in the order of their success. */
  function Wins(log: seq<Event>): seq<int> {
    if log == [] then []
    else
      var last := log[|log| - 1];
      Wins(log[..|log| - 1]) + (if last.Won? then [last.value] else [])
  }

  lemma {:induction false} WinsConcat(a: seq<Event>, b: seq<Event>)
    ensures Wins(a + b) == Wins(a) + Wins(b)
    decreases |b|
  {
    if b == [] {
      assert a + b == a;
    } else {
      WinsConcat(a, b[..|b| - 1]);
      assert (a + b)[..|a + b| - 1] == a + b[..|b| - 1];
    }
  }

  function CountDown(from: int, n: nat): (s: seq<int>)
    ensures |s| == n && forall k :: 0 <= k < n ==> s[k] == from - k
  {
    seq(n, k => from - k)
  }

  predicate NoStore(actions: seq<Action>) {
    forall i :: 0 <= i < |actions| ==> actions[i].Run?
  }

  predicate ReturnsNoFault(log: seq<Event>) {
    forall e :: e in log ==> e.SetTo? || e.value != 0
  }

  /** Consecutive values, counting down from the value stored, and no more of them than it allows. */
  ghost predicate Counted(s: State, r: (State, seq<Event>)) {
    var n := |Wins(r.1)|;
    && Wins(r.1) == CountDown(s.count, n) && r.0.count == s.count - n
    && (s.count >= 0 ==> n <= s.count + 1) && (s.count < 0 ==> n == 0)
  }

  /** Between two stores the successful compare-exchanges return consecutive values, counting down
      from the value stored; there are no more of them than that value allows. */
  lemma {:induction false} EpochCountsDown(s: State, actions: seq<Action>)
    requires NoStore(actions)
    ensures Counted(s, Exec(s, actions))
    decreases |actions|
  {
    if actions != [] {
      var before, last := actions[..|actions| - 1], actions[|actions| - 1];
      assert NoStore(before) && last.Run?;
      EpochCountsDown(s, before);
      hide Wins, Step, CountDown;
      CountedStep(s, Exec(s, before), last.thread);
    } else {
      assert Wins([]) == CountDown(s.count, 0);
    }
  }

  lemma CountedStep(s: State, r: (State, seq<Event>), t: nat)
    requires Counted(s, r)
    ensures Counted(s, (Step(r.0, Run(t)).0, r.1 + Step(r.0, Run(t)).1))
  {
    WinsConcat(r.1, Step(r.0, Run(t)).1);
    StepWins(r.0, t);
    CountDownSnoc(s.count, |Wins(r.1)|);
    hide Step, Wins, CountDown;
  }

  lemma CountDownSnoc(from: int, n: nat)
    ensures CountDown(from, n + 1) == CountDown(from, n) + [from - n]
  {
  }

  lemma StepWins(s: State, t: nat)
    ensures var r := Step(s, Run(t));
            if Wins(r.1) == [] then r.0.count == s.count
            else Wins(r.1) == [s.count] && s.count >= 0 && r.0.count == s.count - 1
  {
    var log := Step(s, Run(t)).1;
    if log != [] {
      assert log[..0] == [];
    }
  }

  // ----- all schedules: at most one fault per non-negative store

  function Zeros(log: seq<Event>): nat {
    if log == [] then 0
    else
      var last := log[|log| - 1];
      Zeros(log[..|log| - 1]) + (if !last.SetTo? && last.value == 0 then 1 else 0)
  }

  function NonNegativeStores(log: seq<Event>): nat {
    if log == [] then 0
    else
      var last := log[|log| - 1];
      NonNegativeStores(log[..|log| - 1]) + (if last.SetTo? && last.count >= 0 then 1 else 0)
  }

  /** From the initial state, whatever the threads do and whenever the count is stored. */
  lemma {:induction false} FaultsAreBounded(actions: seq<Action>)
    ensures var r := Exec(State(-1, map[]), actions);
            && Zeros(r.1) <= NonNegativeStores(r.1)
            && (r.0.count >= 0 ==> Zeros(r.1) < NonNegativeStores(r.1))
    decreases |actions|
  {
    if actions != [] {
      var n := |actions| - 1;
      var r := Exec(State(NEVER_FAIL, map[]), actions[..n]);
      FaultsAreBounded(actions[..n]);
      hide Zeros, NonNegativeStores;
      BoundStep(r.0, r.1, actions[n]);
    }
  }

  lemma BoundStep(s: State, log: seq<Event>, a: Action)
    requires Zeros(log) <= NonNegativeStores(log) && (s.count >= 0 ==> Zeros(log) < NonNegativeStores(log))
    ensures var r := Step(s, a);
            && Zeros(log + r.1) <= NonNegativeStores(log + r.1)
            && (r.0.count >= 0 ==> Zeros(log + r.1) < NonNegativeStores(log + r.1))
  {
    var last := Step(s, a).1;
    assert last == [] || (|last| == 1 && (log + last)[..|log|] == log);
    assert last == [] ==> log + last == log;
  }

  /** The same inside any schedule, with threads that read before the store and compare after it. */
  lemma EpochAfterStore(actions: seq<Action>, count: int, epoch: seq<Action>)
    requires NoStore(epoch)
    ensures var before := Exec(State(-1, map[]), actions).1;
            var after := Exec(State(-1, map[]), actions + [Store(count)] + epoch).1;
            exists rest: seq<Event> :: after == before + [SetTo(count)] + rest
                                       && Wins(rest) == CountDown(count, |Wins(rest)|)
                                       && (if count >= 0 then |Wins(rest)| <= count + 1 else Wins(rest) == [])
  {
    var s := State(NEVER_FAIL, map[]);
    ExecOne(s, actions, Store(count));
    ExecConcat(s, actions + [Store(count)], epoch);
    EpochCountsDown(Exec(s, actions + [Store(count)]).0, epoch);
  }

  // ----- progress of one call

  /** Compare-exchanges of thread `t` in the call it is in, until that call returns. */
  function Attempts(s: State, actions: seq<Action>, t: nat): nat
    decreases |actions|
  {
    if actions == [] || t !in s.holding then 0
    else (if actions[0] == Run(t) && s.holding[t] > NEVER_FAIL then 1 else 0)
         + Attempts(Step(s, actions[0]).0, actions[1..], t)
  }

  /** Without a store, a call that holds `v >= 0` makes at most `v + 1` attempts, however the other
      threads interfere: every failed one leaves it with a smaller value. */
  lemma {:induction false} AttemptsAreBounded(s: State, actions: seq<Action>, t: nat)
    requires NoStore(actions) && t in s.holding && s.count <= s.holding[t]
    ensures Attempts(s, actions, t) <= if s.holding[t] < 0 then 0 else s.holding[t] + 1
    decreases |actions|
  {
    if actions != [] {
      var next := Step(s, actions[0]).0;
      assert NoStore(actions[1..]);
      if t in next.holding {
        AttemptsAreBounded(next, actions[1..], t);
      }
    }
  }

  /** The C function, run by thread `t`: a load, then the do-while loop of compare-exchanges, with
      arbitrary steps `env(k)` of other threads before each atomic access.  Its accesses are the
      `Run(t)` steps of the step system, and the returned value is that of its last one. */
  class FaultCounter {
    var state: State

    constructor ()
      ensures state == State(-1, map[])
    {
      state := State(NEVER_FAIL, map[]);
    }

    method SetCount(count: int)
      modifies this
      ensures state == Step(old(state), Store(count)).0 == State(count, old(state).holding)
    {
      state := state.(count := count);
    }

    /** Other threads run. */
    method Interfere(actions: seq<Action>)
      modifies this
      ensures state == Exec(old(state), actions).0
    {
      state := Exec(state, actions).0;
    }

    /** `env(k)` may store the count, also between the load and a compare-exchange, as long as the
        stores end at some point: with endless stores the C loop need not end either. */
    method MaybeFail(t: nat, env: nat -> seq<Action>, ghost quiet: nat)
      returns (r: int, ghost schedule: seq<Action>, ghost accesses: nat, ghost attempts: nat)
      requires t !in state.holding
      requires forall k :: Run(t) !in env(k)
      requires forall k :: quiet <= k ==> NoStore(env(k))
      modifies this
      ensures schedule == Interleaving(env, t, accesses) && state == Exec(old(state), schedule).0 && t !in state.holding
      ensures LastEvent(Exec(old(state), schedule).1, t, r) && EventsBy(Exec(old(state), schedule).1, t) == 1
      ensures accesses == if r <= -1 then attempts + 1 else attempts
      ensures quiet == 0 ==> NoStore(schedule) && attempts <= if old(state).count < 0 then 0 else old(state).count + 1
    {
      hide Exec, LastEvent, EventsBy, NoStore, Wins, CountDown;
      ghost var start := state;
      schedule, accesses, attempts := [], 0, 0;
      ExecNone(start, t);
      // rcutils_fault_injection_get_count
      Turn(start, schedule, env(0), t);
      Interfere(env(0));
      var k: nat, currentCount := 0, state.count;
      state := state.(holding := state.holding[t := currentCount]);
      schedule := schedule + env(0) + [Run(t)];
      while true
        invariant schedule == Interleaving(env, t, k) && attempts == accesses == k
        invariant state == Exec(start, schedule).0 && EventsBy(Exec(start, schedule).1, t) == 0
        invariant t in state.holding && state.holding[t] == currentCount == state.count
        invariant quiet == 0 ==> NoStore(schedule) && currentCount + attempts <= start.count
        invariant quiet == 0 ==> if start.count < 0 then currentCount == start.count else NEVER_FAIL <= currentCount
        decreases if k < quiet then quiet - k else 0, currentCount + 2
      {
        k, accesses := k + 1, accesses + 1;
        Turn(start, schedule, env(k), t);
        Interfere(env(k));
        schedule := schedule + env(k) + [Run(t)];
        if currentCount <= NEVER_FAIL {
          state := state.(holding := state.holding - {t});
          return currentCount, schedule, accesses, attempts;
        }
        attempts := attempts + 1;
        if state.count == currentCount {
          state := State(currentCount - 1, state.holding - {t});
          return currentCount, schedule, accesses, attempts;
        }
        currentCount := state.count;
        state := state.(holding := state.holding[t := currentCount]);
      }
    }
  }

  /** Accesses 0 to `n` of thread `t`, each after the steps that the others take before it. */
  ghost function Interleaving(env: nat -> seq<Action>, t: nat, n: nat): seq<Action> {
    (if n == 0 then [] else Interleaving(env, t, n - 1)) + env(n) + [Run(t)]
  }

  /** The calls of thread `t` that have returned. */
  function EventsBy(log: seq<Event>, t: nat): nat {
    if log == [] then 0
    else
      var last := log[|log| - 1];
      EventsBy(log[..|log| - 1], t) + if !last.SetTo? && last.thread == t then 1 else 0
  }

  lemma {:induction false} EventsByConcat(a: seq<Event>, b: seq<Event>, t: nat)
    ensures EventsBy(a + b, t) == EventsBy(a, t) + EventsBy(b, t)
    decreases |b|
  {
    if b == [] {
      assert a + b == a;
    } else {
      EventsByConcat(a, b[..|b| - 1], t);
      assert (a + b)[..|a + b| - 1] == a + b[..|b| - 1];
    }
  }

  lemma {:induction false} OthersAreSilent(s: State, actions: seq<Action>, t: nat)
    requires Run(t) !in actions
    ensures EventsBy(Exec(s, actions).1, t) == 0
    decreases |actions|
  {
    if actions != [] {
      var before := Exec(s, actions[..|actions| - 1]);
      OthersAreSilent(s, actions[..|actions| - 1], t);
      var last := Step(before.0, actions[|actions| - 1]).1;
      EventsByConcat(before.1, last, t);
      OneEvent(last, t);
    }
  }

  lemma OneEvent(log: seq<Event>, t: nat)
    requires |log| <= 1
    ensures EventsBy(log, t) == if log != [] && !log[0].SetTo? && log[0].thread == t then 1 else 0
  {
    if log != [] {
      assert log[..0] == [];
    }
  }

  lemma ExecNone(s: State, t: nat)
    ensures Exec(s, []) == (s, []) && EventsBy([], t) == 0 && NoStore([])
  {
  }

  /** Steps of other threads and then one of `t`: they leave what `t` holds alone, and without stores
      the count does not grow. */
  lemma Turn(start: State, schedule: seq<Action>, others: seq<Action>, t: nat)
    requires Run(t) !in others
    ensures var s := Exec(start, schedule).0;
            var m := Exec(s, others).0;
            var turn := schedule + others + [Run(t)];
            && Exec(start, turn).0 == Step(m, Run(t)).0
            && (NoStore(others) ==> (NoStore(schedule) ==> NoStore(turn))
                                    && m.count <= s.count
                                    && (if s.count < 0 then m.count == s.count else NEVER_FAIL <= m.count))
            && (t in m.holding <==> t in s.holding) && (t in s.holding ==> m.holding[t] == s.holding[t])
            && EventsBy(Exec(start, turn).1, t) == EventsBy(Exec(start, schedule).1, t) + |Step(m, Run(t)).1|
            && (forall r :: Step(m, Run(t)).1 == [if r <= NEVER_FAIL then Passed(t, r) else Won(t, r)] ==>
                              LastEvent(Exec(start, turn).1, t, r))
  {
    hide Exec, Step, Wins, CountDown;
    ExecConcat(start, schedule, others);
    ExecOne(start, schedule + others, Run(t));
    if NoStore(others) {
      EpochCountsDown(Exec(start, schedule).0, others);
    }
    OthersLeaveAlone(Exec(start, schedule).0, others, t);
    TurnEvents(start, schedule, others, t);
  }

  lemma TurnEvents(start: State, schedule: seq<Action>, others: seq<Action>, t: nat)
    requires Run(t) !in others
    ensures var m := Exec(Exec(start, schedule).0, others).0;
            EventsBy(Exec(start, schedule + others + [Run(t)]).1, t)
            == EventsBy(Exec(start, schedule).1, t) + |Step(m, Run(t)).1|
  {
    var s := Exec(start, schedule);
    var m := Exec(s.0, others);
    ExecConcat(start, schedule, others);
    ExecOne(start, schedule + others, Run(t));
    EventsByConcat(s.1, m.1, t);
    EventsByConcat(s.1 + m.1, Step(m.0, Run(t)).1, t);
    OthersAreSilent(s.0, others, t);
    OneEvent(Step(m.0, Run(t)).1, t);
  }

  predicate LastEvent(log: seq<Event>, t: nat, r: int) {
    log != [] && log[|log| - 1] == if r <= -1 then Passed(t, r) else Won(t, r)
  }

  lemma {:induction false} OthersLeaveAlone(s: State, actions: seq<Action>, t: nat)
    requires Run(t) !in actions
    ensures t in Exec(s, actions).0.holding <==> t in s.holding
    ensures t in s.holding ==> Exec(s, actions).0.holding[t] == s.holding[t]
    decreases |actions|
  {
    if actions != [] {
      OthersLeaveAlone(s, actions[..|actions| - 1], t);
    }
  }

  // ----- the test loop

  /** `RCUTILS_FAULT_INJECTION_TEST`.  `body(n)` is what the threads do in round `n`: any schedule
      without stores in which every call that begins also returns, at most `limit` calls in all. */
  ghost predicate IsBody(body: nat -> seq<Action>, limit: nat) {
    forall n: nat {:trigger body(n)} :: NoStore(body(n))
                                        && Exec(State(n, map[]), body(n)).0.holding == map[]
                                        && |Exec(State(n, map[]), body(n)).1| <= limit
  }

  /** Round `n` made its `n`-th call, counting from 0 in the order of the compare-exchanges, and
      no other, fail. */
  ghost predicate FailsNth(log: seq<Event>, n: nat) {
    |Wins(log)| == n + 1 && (forall k :: 0 <= k <= n ==> Wins(log)[k] == n - k) && Zeros(log) == 1
  }

  lemma {:induction false} EventsOfEpoch(s: State, actions: seq<Action>)
    requires NoStore(actions) && s.count >= 0 && s.holding == map[]
    ensures var r := Exec(s, actions);
            && (forall i :: 0 <= i < |r.1| ==> !r.1[i].SetTo?)
            && (r.0.count >= 0 ==> |Wins(r.1)| == |r.1|)
            && (forall t :: t in r.0.holding ==> r.0.holding[t] >= r.0.count)
            && Zeros(r.1) == if r.0.count >= 0 then 0 else 1
    decreases |actions|
  {
    if actions != [] {
      var n := |actions| - 1;
      var r := Exec(s, actions[..n]);
      EventsOfEpoch(s, actions[..n]);
      EpochCountsDown(s, actions[..n]);
      var last := Step(r.0, actions[n]);
      assert last.1 == [] || (|last.1| == 1 && (r.1 + last.1)[..|r.1|] == r.1);
      assert last.1 == [] ==> r.1 + last.1 == r.1;
    }
  }

  /** The round is final exactly when it ends with a non-negative count. */
  lemma RoundOutcome(body: seq<Action>, n: nat)
    requires NoStore(body)
    ensures var r := Exec(State(n, map[]), body);
            && (r.0.count > NEVER_FAIL ==> ReturnsNoFault(r.1) && |r.1| <= n)
            && (r.0.count <= NEVER_FAIL ==> FailsNth(r.1, n) && |r.1| >= n + 1)
  {
    var s := State(n, map[]);
    var r := Exec(s, body);
    EpochCountsDown(s, body);
    EventsOfEpoch(s, body);
    WinsAreEvents(r.1);
    NoZeroNoFault(r.1);
  }

  lemma {:induction false} WinsAreEvents(log: seq<Event>)
    ensures |Wins(log)| <= |log|
  {
    if log != [] {
      WinsAreEvents(log[..|log| - 1]);
    }
  }

  lemma {:induction false} NoZeroNoFault(log: seq<Event>)
    ensures Zeros(log) == 0 ==> ReturnsNoFault(log)
  {
    if log != [] {
      NoZeroNoFault(log[..|log| - 1]);
    }
  }

  /** The macro's loop.  It ends within `limit + 1` rounds; every round but the last makes exactly
      its own call fail, and the last one makes none fail. */
  method FaultInjectionTest(body: nat -> seq<Action>, ghost limit: nat) returns (logs: seq<seq<Event>>, count: int)
    requires IsBody(body, limit)
    ensures 1 <= |logs| <= limit + 1 && count == -1
    ensures forall n :: 0 <= n < |logs| - 1 ==> FailsNth(logs[n], n)
    ensures forall e :: e in logs[|logs| - 1] ==> e.SetTo? || e.value != 0
    ensures forall n :: 0 <= n < |logs| ==> logs[n] == Exec(State(n, map[]), body(n)).1
  {
    hide Exec, FailsNth, IsBody;
    logs := [];
    var faultInjectionCount: nat := 0;
    var state := State(NEVER_FAIL, map[]);
    while true
      invariant state.holding == map[]
      invariant faultInjectionCount == |logs| <= limit
      invariant forall n :: 0 <= n < |logs| ==> FailsNth(logs[n], n)
      invariant forall n :: 0 <= n < |logs| ==> logs[n] == Exec(State(n, map[]), body(n)).1
      decreases limit - |logs|
    {
      BodyRound(body, limit, faultInjectionCount);
      state := state.(count := faultInjectionCount);
      var r := Exec(state, body(faultInjectionCount));
      state := r.0;
      faultInjectionCount := faultInjectionCount + 1;
      logs := logs + [r.1];
      if state.count > NEVER_FAIL {
        break;
      }
    }
    count := NEVER_FAIL;
  }

  lemma BodyRound(body: nat -> seq<Action>, limit: nat, n: nat)
    requires IsBody(body, limit)
    ensures var r := Exec(State(n, map[]), body(n));
            && (r.0.count > NEVER_FAIL ==> ReturnsNoFault(r.1))
            && (r.0.count <= NEVER_FAIL ==> FailsNth(r.1, n) && n + 1 <= limit)
            && r.0.holding == map[]
  {
    hide Exec, FailsNth, ReturnsNoFault;
    RoundOutcome(body(n), n);
  }
}
