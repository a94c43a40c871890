/** One round of message-count updates over the categories that hold a thread. */
module MessageRound {
  import opened Wrappers
  import opened ParentLinks
  import opened Sequences
  import opened ThreadTotals
  import opened CategoryForest

  /** The totals that one category's update reaches: its own, then its ancestors' up to, and not including,
      the nearest one that holds the thread directly. */
  ghost function Credited<C, T>(p: map<C, Option<C>>, held: map<C, set<T>>, c: C, t: T): set<C> {
    set a | a in Path(p, c) && (a == c || !Stopped(p, held, c, a, t))
  }

  /** A strict ancestor of `c`, at or below `a`, holds `t` directly. */
  ghost predicate Stopped<C, T>(p: map<C, Option<C>>, held: map<C, set<T>>, c: C, a: C, t: T) {
    exists b :: b in Path(p, c) && b != c && a in Path(p, b) && b in held && t in held[b]
  }

  /** The walk up from `first` has passed the strict ancestors in `passed` and is now at `current`. */
  ghost predicate OnTheWay<C>(p: map<C, Option<C>>, first: C, passed: set<C>, current: Option<C>) {
    first in p && PathOpt(p, current) <= Path(p, first) - {first}
    && passed == Path(p, first) - PathOpt(p, current) - {first}
  }

  /** What the update has reached once the strict ancestors in `passed` are dealt with. */
  ghost function ReachedSoFar<C, T>(
      p: map<C, Option<C>>, held: map<C, set<T>>, first: C, t: T, passed: set<C>): set<C> {
    {first} + set a | a in passed && !Stopped(p, held, first, a, t)
  }

  /** One of the passed ancestors holds the thread. */
  ghost predicate Blocked<C, T>(held: map<C, set<T>>, passed: set<C>, t: T) {
    exists b :: b in passed && b in held && t in held[b]
  }

  lemma WayBegin<C, T>(p: map<C, Option<C>>, held: map<C, set<T>>, first: C, t: T)
    requires Acyclic(p) && first in p
    ensures !Blocked(held, {}, t) && OnTheWay(p, first, {}, p[first]) && ReachedSoFar(p, held, first, t, {}) == {first}
  {
    WayStep(p, first);
  }

  lemma WayOn<C, T>(p: map<C, Option<C>>, held: map<C, set<T>>, first: C, t: T, passed: set<C>, c: C)
    requires Acyclic(p) && held.Keys == p.Keys && OnTheWay(p, first, passed, Some(c)) && c in p
    ensures OnTheWay(p, first, passed + {c}, p[c]) && PathOpt(p, p[c]) < Path(p, c)
    ensures c !in ReachedSoFar(p, held, first, t, passed)
    ensures var blocked := Blocked(held, passed, t) || t in held[c];
      && Blocked(held, passed + {c}, t) == blocked
      && ReachedSoFar(p, held, first, t, passed + {c})
           == ReachedSoFar(p, held, first, t, passed) + if blocked then {} else {c}
  {
    WayStep(p, c);
    StoppedStep(p, held, first, c, t, passed);
  }

  lemma WayDone<C, T>(p: map<C, Option<C>>, held: map<C, set<T>>, first: C, t: T, passed: set<C>)
    requires Acyclic(p) && OnTheWay(p, first, passed, None)
    ensures ReachedSoFar(p, held, first, t, passed) == Credited(p, held, first, t)
  {
    WayStep(p, first);
  }

  lemma BumpInside<C, T>(f: Forest<C, T>, c: C, t: T, delta: int, all: set<T>)
    requires Inside(f.total, all)
    ensures Inside(Bump(f, c, t, delta).total, all)
  {
  }

  /** Visiting the next ancestor `c` of `first` on the way up: the update is stopped for it exactly when it was
      stopped before, or `c` holds the thread. */
  lemma StoppedStep<C, T>(p: map<C, Option<C>>, held: map<C, set<T>>, first: C, c: C, t: T, passed: set<C>)
    requires Acyclic(p) && first in p && held.Keys == p.Keys
    requires c in Path(p, first) && c != first && passed == Path(p, first) - Path(p, c) - {first}
    ensures Stopped(p, held, first, c, t) <==> Blocked(held, passed, t) || t in held[c]
  {
    PathTransitive(p, first, c);
    PathStep(p, c);
    forall b | b in passed ensures c in Path(p, b) { PathLinear(p, first, b, c); PathStep(p, b); }
    forall b | b in Path(p, c) && b != c ensures c !in Path(p, b) { PathTransitive(p, c, b); }
    if t in held[c] { assert c in Path(p, first) && c != first && c in Path(p, c); }
  }

  ghost function BumpOn<C, T>(total: map<C, Totals<T>>, reached: set<C>, delta: int): map<C, Totals<T>> {
    map a | a in total ::
      if a in reached then total[a].(messages := total[a].messages + delta) else total[a]
  }

  ghost function Raise<C, T>(total: map<C, Totals<T>>, a: C, delta: int): map<C, Totals<T>>
    requires a in total
  {
    total[a := total[a].(messages := total[a].messages + delta)]
  }

  lemma BumpOnStep<C, T>(total: map<C, Totals<T>>, reached: set<C>, a: C, delta: int)
    requires a in total && a !in reached
    ensures Raise(BumpOn(total, reached, delta), a, delta) == BumpOn(total, reached + {a}, delta)
  {
  }

  lemma BumpOnFirst<C, T>(total: map<C, Totals<T>>, a: C, delta: int)
    requires a in total
    ensures Raise(total, a, delta) == BumpOn(total, {a}, delta)
  {
  }

  ghost function Bump<C, T>(f: Forest<C, T>, c: C, t: T, delta: int): Forest<C, T> {
    f.(total := BumpOn(f.total, Credited(f.parent, f.held, c, t), delta))
  }

  ghost function BumpAll<C, T>(f: Forest<C, T>, cs: seq<C>, t: T, delta: int): Forest<C, T> {
    if cs == [] then f else Bump(BumpAll(f, cs[..|cs| - 1], t, delta), cs[|cs| - 1], t, delta)
  }

  /** The categories of `cs` whose update reaches `a`. */
  ghost function Credits<C, T>(f: Forest<C, T>, cs: seq<C>, a: C, t: T): set<C> {
    set c | c in cs && a in Credited(f.parent, f.held, c, t)
  }

  lemma {:induction false} BumpAllShape<C, T>(f: Forest<C, T>, cs: seq<C>, t: T, delta: int)
    ensures var g := BumpAll(f, cs, t, delta);
      g.parent == f.parent && g.held == f.held && g.total.Keys == f.total.Keys
  {
    if cs != [] { BumpAllShape(f, cs[..|cs| - 1], t, delta); }
  }

  lemma {:induction false} BumpAllEffect<C, T>(f: Forest<C, T>, cs: seq<C>, t: T, delta: int, a: C)
    requires Distinct(cs) && a in f.total
    ensures a in BumpAll(f, cs, t, delta).total
    ensures BumpAll(f, cs, t, delta).total[a]
      == f.total[a].(messages := f.total[a].messages + delta * |Credits(f, cs, a, t)|)
  {
    hide Climb, Path, Credited;
    if cs == [] {
      assert Credits(f, cs, a, t) == {};
    } else {
      var front, c := cs[..|cs| - 1], cs[|cs| - 1];
      BumpAllShape(f, front, t, delta);
      BumpAllEffect(f, front, t, delta, a);
      CreditsStep(f, front, c, a, t);
      assert cs == front + [c];
      var n := |Credits(f, front, a, t)|;
      assert delta * (n + 1) == delta * n + delta;
    }
  }

  lemma CreditsStep<C, T>(f: Forest<C, T>, front: seq<C>, c: C, a: C, t: T)
    requires c !in front
    ensures |Credits(f, front + [c], a, t)|
      == |Credits(f, front, a, t)| + if a in Credited(f.parent, f.held, c, t) then 1 else 0
  {
    var before, after := Credits(f, front, a, t), Credits(f, front + [c], a, t);
    if a in Credited(f.parent, f.held, c, t) {
      assert after == before + {c} && c !in before;
    } else {
      assert after == before;
    }
  }

  /** `cs` lists every category that holds `t`, each once. */
  ghost predicate ListsHolders<C, T>(f: Forest<C, T>, cs: seq<C>, t: T) {
    && Distinct(cs)
    && (forall c | c in cs :: c in f.held && t in f.held[c])
    && (forall c | c in f.held && t in f.held[c] :: c in cs)
  }

  /** Somewhere between a holder below `a` and `a` there is a topmost holder, whose update reaches `a`. */
  lemma {:induction false} TopmostExists<C, T>(f: Forest<C, T>, cs: seq<C>, t: T, a: C, c: C)
    requires Acyclic(f.parent) && f.held.Keys == f.parent.Keys && ListsHolders(f, cs, t)
    requires c in cs && a in Path(f.parent, c)
    ensures Credits(f, cs, a, t) != {}
    decreases Path(f.parent, c)
  {
    if a in Credited(f.parent, f.held, c, t) {
      assert c in Credits(f, cs, a, t);
    } else {
      var b :| b in Path(f.parent, c) && b != c && a in Path(f.parent, b) && b in f.held && t in f.held[b];
      PathTransitive(f.parent, c, b);
      PathStep(f.parent, c);
      assert c in Path(f.parent, c) && c !in Path(f.parent, b);
      TopmostExists(f, cs, t, a, b);
    }
  }

  /** A category that holds the thread itself is reached by its own update only. */
  lemma HolderCreditedOnce<C, T>(f: Forest<C, T>, cs: seq<C>, t: T, a: C)
    requires Acyclic(f.parent) && f.held.Keys == f.parent.Keys && ListsHolders(f, cs, t)
    requires a in f.held && t in f.held[a]
    ensures Credits(f, cs, a, t) == {a}
  {
    PathStep(f.parent, a);
    assert a in Path(f.parent, a);
    forall c | c in cs && c != a && a in Path(f.parent, c) ensures a !in Credited(f.parent, f.held, c, t) {
      assert Stopped(f.parent, f.held, c, a, t);
    }
  }

  /** Two different holders below a category that does not hold the thread, neither shielded from it by a third. */
  ghost predicate CountedTwice<C, T>(f: Forest<C, T>, cs: seq<C>, t: T) {
    exists a, c, d :: a in f.held && t !in f.held[a] && c != d
      && c in Credits(f, cs, a, t) && d in Credits(f, cs, a, t)
  }

  lemma {:induction false} SumReweighted<T>(w: map<T, int>, ts: set<T>, t: T, delta: int)
    ensures SumOver(w[t := WeightOf(w, t) + delta], ts) == SumOver(w, ts) + if t in ts then delta else 0
    decreases ts
  {
    var w' := w[t := WeightOf(w, t) + delta];
    if ts != {} {
      var u :| u in ts;
      SumRemove(w, ts, u);
      SumRemove(w', ts, u);
      SumReweighted(w, ts - {u}, t, delta);
    }
  }

  lemma TwoMembers<C>(s: set<C>, c: C, d: C)
    requires c in s && d in s && c != d
    ensures |s| >= 2
  {
    assert s == (s - {c, d}) + {c, d};
  }

  lemma OneMember<C>(s: set<C>)
    requires s != {} && forall c, d | c in s && d in s :: c == d
    ensures |s| == 1
  {
    var c :| c in s;
    assert s == {c};
  }

  /** A round moves each running total away from its sum by one delta for each update that reaches it, and the sum
      itself by one if the total lists the thread. */
  lemma RoundDrift<C, T>(f: Forest<C, T>, cs: seq<C>, t: T, delta: int, w: map<T, int>, a: C)
    requires Distinct(cs) && a in f.total
    ensures a in BumpAll(f, cs, t, delta).total
    ensures Drift(BumpAll(f, cs, t, delta).total[a], w[t := WeightOf(w, t) + delta])
      == Drift(f.total[a], w) + delta * |Credits(f, cs, a, t)| - if t in f.total[a].byId then delta else 0
  {
    hide BumpAll, Credits;
    BumpAllEffect(f, cs, t, delta, a);
    SumReweighted(w, f.total[a].byId, t, delta);
  }

  /** The update reaches each total that lists the thread once and no other. */
  ghost predicate CreditedOnce<C, T>(f: Forest<C, T>, cs: seq<C>, t: T) {
    forall a | a in f.total :: |Credits(f, cs, a, t)| == if t in f.total[a].byId then 1 else 0
  }

  /** After a round in any forest whose running totals are the sums, they are again the sums if and only if the delta is
      zero or each total that lists the thread was reached once and no other was. */
  lemma RoundAddsUp<C, T>(f: Forest<C, T>, cs: seq<C>, t: T, delta: int, w: map<T, int>)
    requires AddsUp(f, w) && Distinct(cs)
    ensures AddsUp(BumpAll(f, cs, t, delta), w[t := WeightOf(w, t) + delta]) <==> delta == 0 || CreditedOnce(f, cs, t)
  {
    hide BumpAll, Credits, Drift;
    BumpAllShape(f, cs, t, delta);
    forall a | a in f.total
      ensures Drift(BumpAll(f, cs, t, delta).total[a], w[t := WeightOf(w, t) + delta]) == 0
        <==> delta == 0 || |Credits(f, cs, a, t)| == if t in f.total[a].byId then 1 else 0
    {
      RoundDrift(f, cs, t, delta, w, a);
      Cancel(delta, |Credits(f, cs, a, t)|);
    }
  }

  lemma Cancel(delta: int, n: int)
    ensures delta * n == delta <==> delta == 0 || n == 1
    ensures delta * n == 0 <==> delta == 0 || n == 0
  {
    assert delta * n - delta == delta * (n - 1);
  }

  ghost predicate NowhereStale<C, T>(f: Forest<C, T>, t: T) {
    forall a | a in f.total :: !Stale(f.total[a], t)
  }

  /** With exact counts, the update reaches each listing total once if and only if no total is reached twice and none
      lists the thread without a count. */
  lemma CreditedOnceWhenExact<C, T>(f: Forest<C, T>, cs: seq<C>, t: T)
    requires InOrder(f) && ListsHolders(f, cs, t)
    ensures CreditedOnce(f, cs, t) <==> !CountedTwice(f, cs, t) && NowhereStale(f, t)
  {
    hide Credits, Climb, Path, Acyclic, Holders, CountMap;
    forall a | a in f.total
      ensures t in f.total[a].refs <==> Holders(f.parent, f.held, a, t) != {}
      ensures Stale(f.total[a], t) ==> Credits(f, cs, a, t) == {}
      ensures !CountedTwice(f, cs, t) && !Stale(f.total[a], t) ==>
        |Credits(f, cs, a, t)| == if t in f.total[a].byId then 1 else 0
    {
      CountMapAt(f.parent, f.held, a, t);
      CreditsAt(f, cs, t, a);
    }
    if CountedTwice(f, cs, t) {
      var a, c, d :| a in f.held && t !in f.held[a] && c != d && c in Credits(f, cs, a, t) && d in Credits(f, cs, a, t);
      TwoMembers(Credits(f, cs, a, t), c, d);
    }
  }

  /** When a thread gains or loses messages and every category that holds it is told once, exact counts stay exact, and
      every message total is again the sum over its threads if and only if no total was reached twice and none lists
      the thread without a count. */
  lemma RoundSound<C, T>(f: Forest<C, T>, cs: seq<C>, t: T, delta: int, w: map<T, int>)
    requires InOrder(f) && ListsHolders(f, cs, t)
    ensures InOrder(BumpAll(f, cs, t, delta))
    ensures AddsUp(f, w) ==>
      (AddsUp(BumpAll(f, cs, t, delta), w[t := WeightOf(w, t) + delta])
       <==> delta == 0 || (!CountedTwice(f, cs, t) && NowhereStale(f, t)))
  {
    RoundKeepsCounts(f, cs, t, delta);
    CreditedOnceWhenExact(f, cs, t);
    if AddsUp(f, w) { RoundAddsUp(f, cs, t, delta, w); }
  }

  /** In a consistent forest only totals reached twice matter. */
  lemma RoundConsistent<C, T>(f: Forest<C, T>, cs: seq<C>, t: T, delta: int, w: map<T, int>)
    requires Consistent(f) && AddsUp(f, w) && ListsHolders(f, cs, t)
    ensures Consistent(BumpAll(f, cs, t, delta))
    ensures AddsUp(BumpAll(f, cs, t, delta), w[t := WeightOf(w, t) + delta])
      <==> delta == 0 || !CountedTwice(f, cs, t)
  {
    RoundSound(f, cs, t, delta, w);
    RoundKeepsCounts(f, cs, t, delta);
    assert forall a | a in f.total :: Clean(f.total[a]);
  }

  /** A round touches neither links nor lists nor counts. */
  lemma RoundKeepsCounts<C, T>(f: Forest<C, T>, cs: seq<C>, t: T, delta: int)
    requires Distinct(cs)
    ensures var g := BumpAll(f, cs, t, delta);
      && g.parent == f.parent && g.held == f.held && g.total.Keys == f.total.Keys
      && (forall a | a in f.total :: g.total[a].byId == f.total[a].byId && g.total[a].refs == f.total[a].refs)
      && (WellFormed(f) ==> WellFormed(g)) && (InOrder(f) ==> InOrder(g)) && (AllClean(f) ==> AllClean(g))
  {
    hide BumpAll;
    BumpAllShape(f, cs, t, delta);
    forall a | a in f.total
      ensures var g := BumpAll(f, cs, t, delta);
        g.total[a].byId == f.total[a].byId && g.total[a].refs == f.total[a].refs
    {
      BumpAllEffect(f, cs, t, delta, a);
    }
  }

  lemma CreditsAt<C, T>(f: Forest<C, T>, cs: seq<C>, t: T, a: C)
    requires Acyclic(f.parent) && f.held.Keys == f.parent.Keys && ListsHolders(f, cs, t) && a in f.held
    ensures Holders(f.parent, f.held, a, t) == {} ==> Credits(f, cs, a, t) == {}
    ensures Holders(f.parent, f.held, a, t) != {} && !CountedTwice(f, cs, t) ==> |Credits(f, cs, a, t)| == 1
  {
    var s := Credits(f, cs, a, t);
    forall c | c in s ensures c in Holders(f.parent, f.held, a, t) {
    }
    if t in f.held[a] {
      HolderCreditedOnce(f, cs, t, a);
    } else if c :| c in Holders(f.parent, f.held, a, t) {
      TopmostExists(f, cs, t, a, c);
      if !CountedTwice(f, cs, t) { OneMember(s); }
    }
  }

  /** Holders on one ancestor chain never reach a total twice. */
  lemma ChainCountedOnce<C, T>(f: Forest<C, T>, cs: seq<C>, t: T)
    requires Acyclic(f.parent) && f.held.Keys == f.parent.Keys && ListsHolders(f, cs, t)
    requires forall c, d | c in cs && d in cs :: c in Path(f.parent, d) || d in Path(f.parent, c)
    ensures !CountedTwice(f, cs, t)
  {
    forall a, c, d | c in cs && d in cs && c != d && c in Path(f.parent, d) && a in Path(f.parent, c)
      ensures a !in Credited(f.parent, f.held, d, t)
    {
      if a == d {
        PathTransitive(f.parent, d, c);
      } else {
        assert Stopped(f.parent, f.held, d, a, t);
      }
    }
  }

  /** When the holders lie on one chain, each total above one of them gets exactly one delta, whatever else it lists. */
  lemma ChainGetsOneDelta<C, T>(f: Forest<C, T>, cs: seq<C>, t: T, delta: int, a: C)
    requires Acyclic(f.parent) && f.held.Keys == f.parent.Keys && ListsHolders(f, cs, t)
    requires forall c, d | c in cs && d in cs :: c in Path(f.parent, d) || d in Path(f.parent, c)
    requires a in f.held && a in f.total
    ensures a in BumpAll(f, cs, t, delta).total
    ensures BumpAll(f, cs, t, delta).total[a].messages
      == f.total[a].messages + if Holders(f.parent, f.held, a, t) != {} then delta else 0
  {
    hide BumpAll, Credits, Path;
    ChainCountedOnce(f, cs, t);
    CreditsAt(f, cs, t, a);
    BumpAllEffect(f, cs, t, delta, a);
  }

  /** Root 0 with children 1 and 2 that both hold thread 7 of weight 5. */
  ghost function Siblings(): (f: Forest<int, int>)
    ensures f.parent.Keys == f.held.Keys == f.total.Keys == {0, 1, 2}
    ensures f.parent[0] == None && f.parent[1] == f.parent[2] == Some(0)
    ensures f.held[0] == {} && f.held[1] == f.held[2] == {7}
    ensures f.total[0] == Totals({7}, map[7 := 2], 5) && f.total[1] == f.total[2] == Totals({7}, map[7 := 1], 5)
  {
    Forest(map[0 := None, 1 := Some(0), 2 := Some(0)],
           map[0 := {}, 1 := {7}, 2 := {7}],
           map[0 := Totals({7}, map[7 := 2], 5), 1 := Totals({7}, map[7 := 1], 5), 2 := Totals({7}, map[7 := 1], 5)])
  }

  lemma SiblingPaths()
    ensures var p := Siblings().parent;
      Acyclic(p) && Path(p, 0) == {0} && Path(p, 1) == {1, 0} && Path(p, 2) == {2, 0}
  {
    hide Siblings;
    var p := Siblings().parent;
    PathStep(p, 0);
    PathStep(p, 1);
    PathStep(p, 2);
  }

  lemma SiblingsConsistent()
    ensures Consistent(Siblings())
  {
    hide Siblings, Climb, Path, Acyclic;
    var f := Siblings();
    SiblingPaths();
    forall a | a in f.total ensures Sound(f.total[a]) && Clean(f.total[a]) {
      assert a == 0 || a == 1 || a == 2;
    }
    forall a, t | a in f.parent ensures Exact(f, a, t) {
      assert Holders(f.parent, f.held, a, t) == if t != 7 then {} else if a == 0 then {1, 2} else {a};
    }
    ExactGivesCounting(f);
  }

  lemma SiblingsAddUp()
    ensures AddsUp(Siblings(), map[7 := 5])
  {
    hide Siblings;
    SumRemove<int>(map[7 := 5], {7}, 7);
    assert SumOver<int>(map[7 := 5], {}) == 0;
  }

  /** The unconditional claim is false of the code: when thread 7 gains a message, the root counts it twice. The counts
      stay as right as they were. */
  lemma SiblingHoldersCountTwice()
    ensures var f, w: map<int, int> := Siblings(), map[7 := 5];
      && Consistent(f) && AddsUp(f, w) && ListsHolders(f, [1, 2], 7) && CountedTwice(f, [1, 2], 7)
      && Consistent(BumpAll(f, [1, 2], 7, 1)) && !AddsUp(BumpAll(f, [1, 2], 7, 1), w[7 := 6])
  {
    hide Siblings, Climb, Path, Acyclic, Consistent, BumpAll, AddsUp;
    var f, w: map<int, int> := Siblings(), map[7 := 5];
    SiblingPaths();
    SiblingsConsistent();
    SiblingsAddUp();
    assert ListsHolders(f, [1, 2], 7);
    assert 1 in Credits(f, [1, 2], 0, 7) && 2 in Credits(f, [1, 2], 0, 7);
    RoundConsistent(f, [1, 2], 7, 1, w);
  }
}
