/** Throttling by a ring of call times: what a verdict means and how many calls any window lets through. */
module Throttling {

  /** The time of the call made `m` calls ago; the ring starts out with zeros. */
  function CallBefore(calls: seq<int>, m: nat): int {
    if 0 < m <= |calls| then calls[|calls| - m] else 0
  }

  predicate Throttled(calls: seq<int>, at: int, m: nat, period: int) {
    CallBefore(calls, m) + period > at
  }

  predicate NonDecreasing(calls: seq<int>) {
    forall i, j | 0 <= i < j < |calls| :: calls[i] <= calls[j]
  }

  /** How many of the calls came after `time`. */
  function CallsAfter(calls: seq<int>, time: int): nat {
    if calls == [] then 0 else CallsAfter(calls[..|calls| - 1], time) + if calls[|calls| - 1] > time then 1 else 0
  }

  /** A call that was not throttled and falls in the half-open window that starts at `start`. */
  predicate LetThrough(calls: seq<int>, m: nat, period: int, start: int, i: nat)
    requires i < |calls|
  {
    !Throttled(calls[..i], calls[i], m, period) && start <= calls[i] < start + period
  }

  function LetThroughCount(calls: seq<int>, m: nat, period: int, start: int): nat {
    if calls == [] then 0
    else
      LetThroughCount(calls[..|calls| - 1], m, period, start)
      + if LetThrough(calls, m, period, start, |calls| - 1) then 1 else 0
  }

  lemma {:induction false} AfterAreLast(calls: seq<int>, time: int, m: nat)
    requires NonDecreasing(calls) && 0 < m <= |calls|
    ensures CallsAfter(calls, time) <= |calls|
    ensures CallsAfter(calls, time) >= m <==> calls[|calls| - m] > time
  {
    var front, last := calls[..|calls| - 1], calls[|calls| - 1];
    AllAfter(front, time);
    if last <= time {
      assert forall i | 0 <= i < |front| :: front[i] == calls[i] <= last;
      NoneAfter(front, time);
      assert calls[|calls| - m] <= last;
    } else if m > 1 {
      AfterAreLast(front, time, m - 1);
    }
  }

  lemma {:induction false} AllAfter(calls: seq<int>, time: int)
    ensures CallsAfter(calls, time) <= |calls|
  {
    if calls != [] { AllAfter(calls[..|calls| - 1], time); }
  }

  lemma {:induction false} NoneAfter(calls: seq<int>, time: int)
    requires forall i | 0 <= i < |calls| :: calls[i] <= time
    ensures CallsAfter(calls, time) == 0
  {
    if calls != [] {
      NoneAfter(calls[..|calls| - 1], time);
    }
  }

  /** With enough history, a call is throttled exactly when `m` calls, throttled or not, came less than a period before
      it. */
  lemma ThrottledMeans(calls: seq<int>, at: int, m: nat, period: int)
    requires NonDecreasing(calls) && 0 < m <= |calls|
    ensures Throttled(calls, at, m, period) <==> CallsAfter(calls, at - period) >= m
  {
    AfterAreLast(calls, at - period, m);
  }

  /** When `k` calls have been let through, one of them has at least `k - 1` calls behind it. */
  lemma {:induction false} EarlyLetThrough(calls: seq<int>, m: nat, period: int, start: int, k: nat) returns (i: nat)
    requires 0 < k <= LetThroughCount(calls, m, period, start)
    ensures i + k <= |calls| && LetThrough(calls, m, period, start, i)
  {
    var front := calls[..|calls| - 1];
    if LetThrough(calls, m, period, start, |calls| - 1) {
      if k == 1 {
        i := |calls| - 1;
      } else {
        i := EarlyLetThrough(front, m, period, start, k - 1);
        assert front[..i] == calls[..i];
      }
    } else {
      i := EarlyLetThrough(front, m, period, start, k);
      assert front[..i] == calls[..i];
    }
  }

  /** After `m` calls let through in a window, a further call that is not throttled lies behind the window. */
  lemma WindowIsFull(calls: seq<int>, m: nat, period: int, start: int, at: int)
    requires m > 0 && NonDecreasing(calls + [at]) && LetThroughCount(calls, m, period, start) >= m
    requires !Throttled(calls, at, m, period)
    ensures start + period <= at
  {
    var i := EarlyLetThrough(calls, m, period, start, m);
    assert (calls + [at])[i] == calls[i] && (calls + [at])[|calls| - m] == calls[|calls| - m];
    assert calls[i] <= calls[|calls| - m];
  }

  /** Any half-open window as long as the period lets at most `m` calls through. */
  lemma {:induction false} WindowBound(calls: seq<int>, m: nat, period: int, start: int)
    requires m > 0 && NonDecreasing(calls)
    ensures LetThroughCount(calls, m, period, start) <= m
  {
    if calls != [] {
      var front, at := calls[..|calls| - 1], calls[|calls| - 1];
      assert calls == front + [at];
      WindowBound(front, m, period, start);
      if LetThroughCount(front, m, period, start) == m && !Throttled(front, at, m, period) {
        WindowIsFull(front, m, period, start, at);
      }
    }
  }

  function Zeros(n: nat): seq<int> {
    seq(n, _ => 0)
  }

  class ThrottlingCheck {
    const maxAllowed: nat
    const period: int
    const entries: array<int>
    var currentIndex: nat
    ghost var calls: seq<int>

    constructor (maxAllowed: nat, period: int)
      requires 1 <= maxAllowed < 0x1_0000
      ensures Valid() && calls == [] && this.maxAllowed == maxAllowed && this.period == period && fresh(entries)
    {
      this.maxAllowed, this.period := maxAllowed, period;
      entries := new int[maxAllowed](_ => 0);
      currentIndex, calls := 0, [];
      new;
      assert entries[..] == Zeros(maxAllowed) && Ring(Zeros(maxAllowed), 0) == Recent([], maxAllowed);
    }

    /** Read from the current position, the ring holds the latest calls, oldest first. */
    ghost predicate Valid()
      reads this, entries
    {
      && entries.Length == maxAllowed && currentIndex < maxAllowed
      && Ring(entries[..], currentIndex) == Recent(calls, maxAllowed)
    }

    /** The source's name; the result says whether the call is throttled. */
    method IsAllowed(at: int) returns (result: bool)
      requires Valid()
      modifies this, entries
      ensures Valid() && calls == old(calls) + [at] && result == Throttled(old(calls), at, maxAllowed, period)
    {
      OldestIsFirst(entries[..], currentIndex, calls, maxAllowed);
      NextRing(entries[..], currentIndex, calls, at, maxAllowed);
      hide Ring, Recent, CallBefore;
      var oldestEntry := entries[currentIndex];
      result := false;
      if oldestEntry + period > at { result := true; }
      entries[currentIndex] := at;
      assert entries[..] == old(entries[..])[currentIndex := at];
      RingWraps(entries[..]);
      calls := calls + [at];
      currentIndex := currentIndex + 1;
      while currentIndex >= maxAllowed
        invariant currentIndex == old(currentIndex) + 1 || currentIndex == old(currentIndex) + 1 - maxAllowed
        invariant currentIndex <= maxAllowed
        modifies `currentIndex
      {
        currentIndex := currentIndex - maxAllowed;
      }
    }
  }

  function Ring(entries: seq<int>, i: nat): seq<int>
    requires i <= |entries|
  {
    entries[i..] + entries[..i]
  }

  /** The latest `m` calls, oldest first. */
  function Recent(calls: seq<int>, m: nat): seq<int> {
    (Zeros(m) + calls)[|calls|..]
  }

  lemma OldestIsFirst(entries: seq<int>, i: nat, calls: seq<int>, m: nat)
    requires |entries| == m && i < m && Ring(entries, i) == Recent(calls, m)
    ensures entries[i] == CallBefore(calls, m)
  {
    assert Ring(entries, i)[0] == entries[i];
  }

  lemma RingWraps(entries: seq<int>)
    ensures Ring(entries, |entries|) == Ring(entries, 0)
  {
  }

  /** Overwriting the oldest entry and stepping on shifts the ring by one call. */
  lemma NextRing(entries: seq<int>, i: nat, calls: seq<int>, at: int, m: nat)
    requires |entries| == m && i < m && Ring(entries, i) == Recent(calls, m)
    ensures Ring(entries[i := at], i + 1) == Recent(calls + [at], m)
  {
    var after := entries[i := at];
    assert after[i + 1..] == entries[i..][1..] && after[..i + 1] == entries[..i] + [at];
    assert Ring(after, i + 1) == Ring(entries, i)[1..] + [at];
    assert Recent(calls + [at], m) == Recent(calls, m)[1..] + [at];
  }

  type Key(==,!new) = nat

  /** The throttled actions by number: new content, edits of content, of privileges, votes, subscriptions. */
  const ACTION_COUNT := 5
  type Action = a: nat | a < ACTION_COUNT

  /** For each action, so many calls in so many seconds. */
  const DEFAULT_VALUES: seq<(nat, int)> := [(10, 600), (10, 300), (10, 10), (10, 3600), (10, 600)]

  function MaxAllowed(action: Action): nat {
    DEFAULT_VALUES[action].0
  }

  function Period(action: Action): int {
    DEFAULT_VALUES[action].1
  }

  datatype Call = Call(key: Key, action: Action, at: int)

  /** The times of the calls with one key and one action. */
  function CallsOf(history: seq<Call>, key: Key, action: Action): seq<int> {
    if history == [] then []
    else
      var c := history[|history| - 1];
      CallsOf(history[..|history| - 1], key, action) + if c.key == key && c.action == action then [c.at] else []
  }

  /** The checks of one user or address. */
  class UserThrottlingChecks {
    const values: seq<ThrottlingCheck>

    constructor ()
      ensures |values| == ACTION_COUNT
      ensures forall a: Action :: fresh(values[a]) && fresh(values[a].entries) && IsNew(values[a], a)
      ensures forall a: Action, b: Action | a != b :: values[a] != values[b] && values[a].entries != values[b].entries
    {
      var checks: seq<ThrottlingCheck> := [];
      for i := 0 to ACTION_COUNT
        invariant |checks| == i
        invariant forall a | 0 <= a < i :: fresh(checks[a]) && fresh(checks[a].entries) && IsNew(checks[a], a)
        invariant forall a, b | 0 <= a < i && 0 <= b < i && a != b ::
          checks[a] != checks[b] && checks[a].entries != checks[b].entries
      {
        var check := new ThrottlingCheck(DEFAULT_VALUES[i].0, DEFAULT_VALUES[i].1);
        checks := checks + [check];
      }
      values := checks;
    }
  }

  ghost predicate IsNew(check: ThrottlingCheck, action: Action)
    reads check, check.entries
  {
    check.Valid() && check.calls == [] && check.maxAllowed == MaxAllowed(action) && check.period == Period(action)
  }

  class DefaultThrottling {
    var entries: map<Key, UserThrottlingChecks>
    ghost var history: seq<Call>
    ghost var repr: set<object>

    constructor ()
      ensures Valid() && history == []
    {
      entries, history, repr := map[], [], {};
    }

    /** Every check has seen exactly the calls with its own key and action; no two checks share anything. */
    ghost predicate Valid()
      reads this, repr
    {
      && Owned() && Apart() && (forall k, a: Action | k in entries :: CheckOf(entries[k].values[a], k, a))
      && (forall k, a: Action | k !in entries :: CallsOf(history, k, a) == [])
    }

    ghost predicate Owned()
      reads this
    {
      && this !in repr && (forall k | k in entries :: |entries[k].values| == ACTION_COUNT)
      && (forall k, a: Action | k in entries :: entries[k].values[a] in repr && entries[k].values[a].entries in repr)
    }

    ghost predicate Apart()
      requires Owned()
      reads this
    {
      forall k, k', a: Action, a': Action | k in entries && k' in entries && (k != k' || a != a') ::
        entries[k].values[a] != entries[k'].values[a'] && entries[k].values[a].entries != entries[k'].values[a'].entries
    }

    ghost predicate CheckOf(check: ThrottlingCheck, key: Key, action: Action)
      reads `history, check, check.entries
    {
      && check.Valid() && check.maxAllowed == MaxAllowed(action) && check.period == Period(action)
      && check.calls == CallsOf(history, key, action)
    }

    lemma CheckIsNew(check: ThrottlingCheck, key: Key, action: Action)
      requires IsNew(check, action) && CallsOf(history, key, action) == []
      ensures CheckOf(check, key, action)
    {
    }

    method AddIfMissing(current: Key)
      requires Valid()
      modifies this
      ensures Valid() && current in entries && history == old(history) && fresh(repr - old(repr))
    {
      hide CallsOf, MaxAllowed, Period, CheckOf;
      if current !in entries {
        var checks := new UserThrottlingChecks();
        entries := entries[current := checks];
        repr := repr + (set a: Action | true :: checks.values[a]) + (set a: Action | true :: checks.values[a].entries);
        assert Owned() && Apart();
        hide Apart;
        forall k, a: Action | k in entries ensures CheckOf(entries[k].values[a], k, a) {
          if k == current { CheckIsNew(checks.values[a], k, a); }
        }
      }
    }

    /** The verdict depends only on the earlier calls with the same key and action. */
    method Check(action: Action, at: int, current: Key) returns (throttled: bool)
      requires Valid()
      modifies this, repr
      ensures Valid() && fresh(repr - old(repr)) && history == old(history) + [Call(current, action, at)]
      ensures throttled == Throttled(CallsOf(old(history), current, action), at, MaxAllowed(action), Period(action))
    {
      AddIfMissing(current);
      throttled := entries[current].values[action].IsAllowed(at);
      history := history + [Call(current, action, at)];
      assert history[..|history| - 1] == old(history);
    }
  }

  /** A part of a non-decreasing history is non-decreasing. */
  lemma {:induction false} CallsOfInOrder(history: seq<Call>, key: Key, action: Action)
    requires forall i, j | 0 <= i < j < |history| :: history[i].at <= history[j].at
    ensures NonDecreasing(CallsOf(history, key, action))
    ensures history != [] ==> forall t | t in CallsOf(history, key, action) :: t <= history[|history| - 1].at
  {
    if history != [] {
      var front, c := history[..|history| - 1], history[|history| - 1];
      CallsOfInOrder(front, key, action);
      if front != [] { assert front[|front| - 1].at <= c.at; }
      var times := CallsOf(front, key, action);
      assert forall i | 0 <= i < |times| :: times[i] in times;
    }
  }

  /** Whatever others do in between, nobody gets more than the allowed number of calls of one kind through in any
      window. */
  lemma EachUserIsBounded(history: seq<Call>, key: Key, action: Action, start: int)
    requires forall i, j | 0 <= i < j < |history| :: history[i].at <= history[j].at
    ensures LetThroughCount(CallsOf(history, key, action), MaxAllowed(action), Period(action), start)
      <= MaxAllowed(action)
  {
    CallsOfInOrder(history, key, action);
    WindowBound(CallsOf(history, key, action), MaxAllowed(action), Period(action), start);
  }

  /** In numbers: ten calls of each kind, within ten minutes for new content and for subscriptions, five minutes for
      edits of content, ten seconds for edits of privileges, and an hour for votes. */
  lemma DefaultBounds(history: seq<Call>, key: Key, start: int)
    requires forall i, j | 0 <= i < j < |history| :: history[i].at <= history[j].at
    ensures LetThroughCount(CallsOf(history, key, 0), 10, 10 * 60, start) <= 10
    ensures LetThroughCount(CallsOf(history, key, 1), 10, 5 * 60, start) <= 10
    ensures LetThroughCount(CallsOf(history, key, 2), 10, 10, start) <= 10
    ensures LetThroughCount(CallsOf(history, key, 3), 10, 60 * 60, start) <= 10
    ensures LetThroughCount(CallsOf(history, key, 4), 10, 10 * 60, start) <= 10
  {
    forall action: Action
      ensures LetThroughCount(CallsOf(history, key, action), MaxAllowed(action), Period(action), start)
        <= MaxAllowed(action)
    {
      EachUserIsBounded(history, key, action, start);
    }
    hide LetThroughCount, CallsOf;
    assert MaxAllowed(0) == MaxAllowed(1) == MaxAllowed(2) == MaxAllowed(3) == MaxAllowed(4) == 10;
    assert Period(0) == Period(4) == 10 * 60 && Period(1) == 5 * 60 && Period(2) == 10 && Period(3) == 60 * 60;
  }
}
