/** Every call of `maybe_fail` acts at one instant: what the log of a schedule says, read as a story of
    the count.
 */
module FaultLaws {
  import opened FaultInjection

  /** The count that the events of a log leave behind. */
  function CountAfter(initial: int, log: seq<Event>): int {
    if log == [] then initial
    else
      match log[|log| - 1]
      case SetTo(count) => count
      case Won(_, _) => CountAfter(initial, log[..|log| - 1]) - 1
      case Passed(_, _) => CountAfter(initial, log[..|log| - 1])
  }

  predicate By(e: Event, t: nat) {
    !e.SetTo? && e.thread == t
  }

  /** `v` was the count at some instant after the last call of `t` returned. */
  ghost predicate SeenSince(initial: int, log: seq<Event>, t: nat, v: int) {
    exists j :: 0 <= j <= |log| && v == CountAfter(initial, log[..j]) && forall i :: j <= i < |log| ==> !By(log[i], t)
  }

  /** A call that takes one from the count returns the count as it is at that instant, which is not
      negative; one that takes nothing returns a negative count that it saw since the call before it. */
  ghost predicate Explained(initial: int, log: seq<Event>, i: nat)
    requires i < |log|
  {
    match log[i]
    case SetTo(_) => true
    case Won(_, v) => v >= 0 && v == CountAfter(initial, log[..i])
    case Passed(t, v) => v <= -1 && SeenSince(initial, log[..i], t, v)
  }

  ghost predicate Story(initial: int, s: State, log: seq<Event>) {
    && s.count == CountAfter(initial, log)
    && (forall t :: t in s.holding ==> SeenSince(initial, log, t, s.holding[t]))
    && (forall i :: 0 <= i < |log| ==> Explained(initial, log, i))
  }

  /** In every schedule of any number of threads, with stores at any point. */
  lemma {:induction false} CallsAreAtomic(initial: int, actions: seq<Action>)
    ensures var r := Exec(State(initial, map[]), actions);
            Story(initial, r.0, r.1)
    decreases |actions|
  {
    hide Story;
    if actions == [] {
      StoryBegins(initial);
    } else {
      var n := |actions| - 1;
      CallsAreAtomic(initial, actions[..n]);
      var r := Exec(State(initial, map[]), actions[..n]);
      match actions[n]
      case Store(c) => StoreContinues(initial, r.0, r.1, c);
      case Run(t) => RunContinues(initial, r.0, r.1, t);
    }
  }

  lemma StoryBegins(initial: int)
    ensures Story(initial, State(initial, map[]), [])
  {
  }

  lemma OneMore(initial: int, log: seq<Event>, e: Event)
    ensures CountAfter(initial, log + [e]) ==
            match e
            case SetTo(c) => c
            case Won(_, _) => CountAfter(initial, log) - 1
            case Passed(_, _) => CountAfter(initial, log)
  {
    assert (log + [e])[..|log|] == log;
  }

  lemma ExplainedBefore(initial: int, log: seq<Event>, e: Event, i: nat)
    requires i < |log| && Explained(initial, log, i)
    ensures Explained(initial, log + [e], i)
  {
    assert (log + [e])[..i] == log[..i];
  }

  lemma SeenStill(initial: int, log: seq<Event>, e: Event, t: nat, v: int)
    requires SeenSince(initial, log, t, v) && !By(e, t)
    ensures SeenSince(initial, log + [e], t, v)
  {
    var j :|
      0 <= j <= |log| && v == CountAfter(initial, log[..j]) && forall i :: j <= i < |log| ==> !By(log[i], t);
    assert (log + [e])[..j] == log[..j];
  }

  lemma SeenNow(initial: int, log: seq<Event>, t: nat)
    ensures SeenSince(initial, log, t, CountAfter(initial, log))
  {
    assert log[..|log|] == log;
  }

  /** One event more, by none of the threads that are still inside a call. */
  lemma Continues(initial: int, s: State, log: seq<Event>, e: Event, next: State)
    requires Story(initial, s, log)
    requires next.count == CountAfter(initial, log + [e])
    requires forall t :: t in next.holding ==> t in s.holding && next.holding[t] == s.holding[t] && !By(e, t)
    requires Explained(initial, log + [e], |log|)
    ensures Story(initial, next, log + [e])
  {
    hide Explained, SeenSince, CountAfter, By;
    forall t | t in next.holding ensures SeenSince(initial, log + [e], t, next.holding[t]) {
      SeenStill(initial, log, e, t, s.holding[t]);
    }
    forall i | 0 <= i < |log| + 1 ensures Explained(initial, log + [e], i) {
      if i < |log| {
        ExplainedBefore(initial, log, e, i);
      }
    }
  }

  lemma StoreContinues(initial: int, s: State, log: seq<Event>, c: int)
    requires Story(initial, s, log)
    ensures var r := Step(s, Store(c)); Story(initial, r.0, log + r.1)
  {
    OneMore(initial, log, SetTo(c));
    hide CountAfter, SeenSince, Story;
    Continues(initial, s, log, SetTo(c), Step(s, Store(c)).0);
  }

  lemma RunContinues(initial: int, s: State, log: seq<Event>, t: nat)
    requires Story(initial, s, log)
    ensures var r := Step(s, Run(t)); Story(initial, r.0, log + r.1)
  {
    hide CountAfter, SeenSince;
    var r := Step(s, Run(t));
    if r.1 == [] {
      SeenNow(initial, log, t);
      assert log + r.1 == log;
    } else {
      var e := r.1[0];
      OneMore(initial, log, e);
      assert (log + [e])[..|log|] == log;
      assert Explained(initial, log + [e], |log|);
      hide Story, Explained;
      Continues(initial, s, log, e, r.0);
      assert r.1 == [e];
    }
  }

  // ----- what is counted

  lemma {:induction false} ZerosConcat(a: seq<Event>, b: seq<Event>)
    ensures Zeros(a + b) == Zeros(a) + Zeros(b)
    ensures NonNegativeStores(a + b) == NonNegativeStores(a) + NonNegativeStores(b)
    decreases |b|
  {
    if b == [] {
      assert a + b == a;
    } else {
      ZerosConcat(a, b[..|b| - 1]);
      assert (a + b)[..|a + b| - 1] == a + b[..|b| - 1];
    }
  }

  /** `Zeros` counts the calls that returned 0, `NonNegativeStores` the stores of a count from 0 on, and `Wins`
      lists what successful calls returned: event by event, before and after any other events. */
  lemma CountsMean(a: seq<Event>, e: Event, b: seq<Event>)
    ensures Zeros([]) == 0 && NonNegativeStores([]) == 0 && Wins([]) == []
    ensures Zeros(a + [e] + b) ==
            Zeros(a) + (match e { case SetTo(_) => 0 case Won(_, v) => if v == 0 then 1 else 0
                                                     case Passed(_, v) => if v == 0 then 1 else 0 }) + Zeros(b)
    ensures NonNegativeStores(a + [e] + b) ==
            NonNegativeStores(a) + (if e.SetTo? && e.count >= 0 then 1 else 0) + NonNegativeStores(b)
    ensures Wins(a + [e] + b) == Wins(a) + (if e.Won? then [e.value] else []) + Wins(b)
  {
    ZerosConcat(a + [e], b);
    ZerosConcat(a, [e]);
    WinsConcat(a + [e], b);
    WinsConcat(a, [e]);
    assert [e][..0] == [];
  }
}
