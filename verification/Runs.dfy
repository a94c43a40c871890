/** Whole runs: everything that happens to a forest over its life, messages included. */
module ForestRuns {
  import opened Wrappers
  import opened Sequences
  import opened ThreadTotals
  import opened CategoryForest
  import opened MessageRound

  /** Either the forest itself changes, or a thread gains or loses messages and each category that holds it is told. */
  datatype Happening<C, T> =
    | Reshaped(e: Event<C, T>)
    | MessagesChanged(cs: seq<C>, t: T, delta: int)

  /** The forest and how many messages each thread has. */
  datatype State<C, T> = State(forest: Forest<C, T>, weights: map<T, int>)

  /** What the callers guarantee. */
  ghost predicate MayHappen<C, T>(s: State<C, T>, h: Happening<C, T>) {
    match h
    case Reshaped(e) => Possible(s.forest, e)
    case MessagesChanged(cs, t, delta) => ListsHolders(s.forest, cs, t)
  }

  ghost function Later<C, T>(s: State<C, T>, h: Happening<C, T>): State<C, T>
    requires MayHappen(s, h)
  {
    match h
    case Reshaped(e) => s.(forest := Next(s.forest, e, s.weights))
    case MessagesChanged(cs, t, delta) =>
      State(BumpAll(s.forest, cs, t, delta), s.weights[t := WeightOf(s.weights, t) + delta])
  }

  /** It leaves every count exact; a change of messages always does. */
  ghost predicate KeepsExact<C, T>(s: State<C, T>, h: Happening<C, T>)
    requires MayHappen(s, h)
  {
    h.Reshaped? ==> KeepsCounts(s.forest, h.e)
  }

  /** It leaves no listing without a count behind; a change of messages never does. */
  ghost predicate KeepsClean<C, T>(s: State<C, T>, h: Happening<C, T>)
    requires MayHappen(s, h)
  {
    h.Reshaped? ==> LeavesClean(s.forest, h.e)
  }

  /** It leaves every running message total the sum over the threads listed with it, as a change of the forest always
      does. */
  ghost predicate KeepsSums<C, T>(s: State<C, T>, h: Happening<C, T>) {
    h.MessagesChanged? ==> h.delta == 0 || CreditedOnce(s.forest, h.cs, h.t)
  }

  /** `states` is a run over `happenings` that starts with no category at all and no messages. */
  ghost predicate IsRun<C, T>(states: seq<State<C, T>>, happenings: seq<Happening<C, T>>) {
    && |states| == |happenings| + 1
    && states[0] == State(Forest(map[], map[], map[]), map[])
    && forall i | 0 <= i < |happenings| ::
      MayHappen(states[i], happenings[i]) && states[i + 1] == Later(states[i], happenings[i])
  }

  lemma Beginning<C, T>()
    ensures var f: Forest<C, T> := Forest(map[], map[], map[]); InOrder(f) && Consistent(f) && AddsUp(f, map[])
  {
  }

  lemma LaterShape<C, T>(s: State<C, T>, h: Happening<C, T>)
    requires WellFormed(s.forest) && MayHappen(s, h)
    ensures WellFormed(Later(s, h).forest)
  {
    match h
    case Reshaped(e) => NextShape(s.forest, e, s.weights);
    case MessagesChanged(cs, t, delta) => RoundKeepsCounts(s.forest, cs, t, delta);
  }

  /** One thing that happens keeps all counts exact if and only if it meets no listing without a count. */
  lemma LaterCounts<C, T>(s: State<C, T>, h: Happening<C, T>)
    requires InOrder(s.forest) && MayHappen(s, h)
    ensures InOrder(Later(s, h).forest) <==> KeepsExact(s, h)
  {
    match h
    case Reshaped(e) => NextCounting(s.forest, e, s.weights);
    case MessagesChanged(cs, t, delta) => RoundKeepsCounts(s.forest, cs, t, delta);
  }

  lemma LaterConsistent<C, T>(s: State<C, T>, h: Happening<C, T>)
    requires Consistent(s.forest) && MayHappen(s, h)
    ensures Consistent(Later(s, h).forest) <==> KeepsClean(s, h)
  {
    match h
    case Reshaped(e) => NextConsistent(s.forest, e, s.weights);
    case MessagesChanged(cs, t, delta) => RoundKeepsCounts(s.forest, cs, t, delta);
  }

  /** One thing that happens keeps all message totals right if and only if each total listing a thread that gains or
      loses messages is reached once and no other is. */
  lemma LaterAddsUp<C, T>(s: State<C, T>, h: Happening<C, T>)
    requires AddsUp(s.forest, s.weights) && MayHappen(s, h)
    ensures AddsUp(Later(s, h).forest, Later(s, h).weights) <==> KeepsSums(s, h)
  {
    match h
    case Reshaped(e) =>
      NextDrifts(s.forest, e, s.weights);
      SameDrifts(s.forest, Next(s.forest, e, s.weights), e, s.weights);
    case MessagesChanged(cs, t, delta) => RoundAddsUp(s.forest, cs, t, delta, s.weights);
  }

  lemma SameDrifts<C, T>(f: Forest<C, T>, g: Forest<C, T>, e: Event<C, T>, w: map<T, int>)
    requires AddsUp(f, w) && Drifts(g, w) == if e.Created? then Drifts(f, w)[e.c := 0] else Drifts(f, w)
    ensures AddsUp(g, w)
  {
    forall a | a in g.total ensures Drift(g.total[a], w) == 0 {
      assert a in Drifts(g, w) && Drifts(g, w)[a] == Drift(g.total[a], w);
    }
  }

  /** Over every run the parent links stay free of cycles and every totals collection stays sound. */
  lemma {:induction false} RunWellFormed<C, T>(states: seq<State<C, T>>, happenings: seq<Happening<C, T>>, n: nat)
    requires IsRun(states, happenings) && n < |states|
    ensures WellFormed(states[n].forest)
  {
    hide WellFormed, MayHappen, Later;
    if n == 0 {
      Beginning<C, T>();
    } else {
      RunWellFormed(states, happenings, n - 1);
      LaterShape(states[n - 1], happenings[n - 1]);
    }
  }

  ghost predicate ExactUpTo<C, T>(states: seq<State<C, T>>, n: nat)
    requires n < |states|
  {
    forall i | 0 <= i <= n :: InOrder(states[i].forest)
  }

  /** Over every run, each reference count is the number of holders in the subtree in all states so far if and
      only if no insertion and no move so far has met a listing without a count. */
  lemma {:induction false} RunCounts<C, T>(states: seq<State<C, T>>, happenings: seq<Happening<C, T>>, n: nat)
    requires IsRun(states, happenings) && n < |states|
    ensures ExactUpTo(states, n) <==> forall i | 0 <= i < n :: KeepsExact(states[i], happenings[i])
  {
    hide InOrder, MayHappen, Later, KeepsExact;
    if n == 0 {
      Beginning<C, T>();
    } else {
      RunCounts(states, happenings, n - 1);
      var s, h := states[n - 1], happenings[n - 1];
      assert MayHappen(s, h) && states[n] == Later(s, h);
      if ExactUpTo(states, n - 1) { LaterCounts(s, h); }
    }
  }

  /** The listed threads are the counted ones as well, in all states so far, if and only if every move so far
      concerned threads held elsewhere under each old ancestor. */
  lemma {:induction false} RunConsistent<C, T>(states: seq<State<C, T>>, happenings: seq<Happening<C, T>>, n: nat)
    requires IsRun(states, happenings) && n < |states|
    ensures (forall i | 0 <= i <= n :: Consistent(states[i].forest))
      <==> forall i | 0 <= i < n :: KeepsClean(states[i], happenings[i])
  {
    hide Consistent, MayHappen, Later, KeepsClean;
    if n == 0 {
      Beginning<C, T>();
    } else {
      RunConsistent(states, happenings, n - 1);
      var s, h := states[n - 1], happenings[n - 1];
      assert MayHappen(s, h) && states[n] == Later(s, h);
      if forall i | 0 <= i <= n - 1 :: Consistent(states[i].forest) { LaterConsistent(s, h); }
    }
  }

  /** Over every run, whatever the counts, each running message total is the sum over the threads listed with it in all
      states so far if and only if each change of messages so far reached every total listing the thread once and no
      other. */
  lemma {:induction false} RunAddsUp<C, T>(states: seq<State<C, T>>, happenings: seq<Happening<C, T>>, n: nat)
    requires IsRun(states, happenings) && n < |states|
    ensures (forall i | 0 <= i <= n :: AddsUp(states[i].forest, states[i].weights))
      <==> forall i | 0 <= i < n :: KeepsSums(states[i], happenings[i])
  {
    hide AddsUp, MayHappen, Later, KeepsSums;
    if n == 0 {
      Beginning<C, T>();
    } else {
      RunAddsUp(states, happenings, n - 1);
      var s, h := states[n - 1], happenings[n - 1];
      assert MayHappen(s, h) && states[n] == Later(s, h);
      if forall i | 0 <= i <= n - 1 :: AddsUp(states[i].forest, states[i].weights) { LaterAddsUp(s, h); }
    }
  }
}
