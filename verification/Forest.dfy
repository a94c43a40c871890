/** Small value types shared by the other modules. */
module Wrappers {

  datatype Option<+T> = None | Some(value: T)
}

/** Lists as sets, and sets visited in some order. */
module Sequences {

  ghost predicate Distinct<T>(ts: seq<T>) {
    forall i, j | 0 <= i < j < |ts| :: ts[i] != ts[j]
  }

  function AsSet<T(==)>(ts: seq<T>): set<T> {
    set t | t in ts
  }

  lemma AppendedSet<T>(s: seq<T>, t: T)
    ensures AsSet(s + [t]) == AsSet(s) + {t} && s + [] == s
  {
  }

  /** The elements of a list that are not held yet, in order. */
  function Missing<T(==)>(ts: seq<T>, held: set<T>): (r: seq<T>)
    ensures |r| <= |ts|
  {
    if ts == [] then []
    else Missing(ts[..|ts| - 1], held) + if ts[|ts| - 1] in held then [] else [ts[|ts| - 1]]
  }

  lemma {:induction false} MissingMembers<T>(ts: seq<T>, held: set<T>)
    ensures forall t :: t in Missing(ts, held) <==> t in ts && t !in held
    ensures Distinct(ts) ==> Distinct(Missing(ts, held))
  {
    if ts != [] { MissingMembers(ts[..|ts| - 1], held); }
  }

  lemma MissingAt<T>(ts: seq<T>, held: set<T>)
    ensures forall i | 0 <= i < |Missing(ts, held)| :: Missing(ts, held)[i] in ts
  {
    MissingMembers(ts, held);
    assert forall i | 0 <= i < |Missing(ts, held)| :: Missing(ts, held)[i] in Missing(ts, held);
  }

  lemma {:induction false} NothingMissing<T>(ts: seq<T>, held: set<T>)
    requires forall t | t in ts :: t in held
    ensures Missing(ts, held) == []
  {
    if ts != [] { NothingMissing(ts[..|ts| - 1], held); }
  }

  /** Some order in which a set can be visited. */
  method ListOf<T(==)>(s: set<T>) returns (order: seq<T>)
    ensures Distinct(order) && AsSet(order) == s && forall x | x in order :: x in s
  {
    order := [];
    var todo := s;
    while todo != {}
      invariant todo <= s && Distinct(order) && AsSet(order) == s - todo
      decreases todo
    {
      var x :| x in todo;
      assert x !in AsSet(order);
      AppendedSet(order, x);
      order, todo := order + [x], todo - {x};
    }
    assert forall x | x in order :: x in AsSet(order);
  }
}

/** Parent links of the category forest, as values, and what they say about ancestors. */
module ParentLinks {
  import opened Wrappers

  /** Every category reached from `c` by parent links, staying inside `avail`. */
  ghost function Climb<C>(p: map<C, Option<C>>, c: C, avail: set<C>): (r: set<C>)
    ensures r <= avail
    decreases avail
  {
    if c !in avail || c !in p then {}
    else {c} + if p[c].Some? then Climb(p, p[c].value, avail - {c}) else {}
  }

  /** `c` and all its ancestors. */
  ghost function Path<C>(p: map<C, Option<C>>, c: C): (r: set<C>)
    ensures r <= p.Keys
  {
    Climb(p, c, p.Keys)
  }

  ghost predicate Acyclic<C>(p: map<C, Option<C>>) {
    forall c | c in p && p[c].Some? :: p[c].value in p && c !in Path(p, p[c].value)
  }

  lemma {:induction false} ClimbShrink<C>(p: map<C, Option<C>>, c: C, avail: set<C>, x: C)
    requires x !in Climb(p, c, avail)
    ensures Climb(p, c, avail - {x}) == Climb(p, c, avail)
    decreases avail
  {
    if c in avail && c in p && p[c].Some? {
      ClimbShrink(p, p[c].value, avail - {c}, x);
      assert avail - {c} - {x} == avail - {x} - {c};
    }
  }

  /** One unfolding of Path; it needs only that `c` is not its own ancestor. */
  lemma PathStep<C>(p: map<C, Option<C>>, c: C)
    requires c in p
    requires p[c].Some? ==> c !in Path(p, p[c].value)
    ensures Path(p, c) == {c} + if p[c].Some? then Path(p, p[c].value) else {}
  {
    if p[c].Some? {
      ClimbShrink(p, p[c].value, p.Keys, c);
    }
  }

  lemma {:induction false} PathTransitive<C>(p: map<C, Option<C>>, d: C, a: C)
    requires Acyclic(p) && d in p && a in Path(p, d)
    ensures Path(p, a) <= Path(p, d)
    ensures a != d ==> d !in Path(p, a)
    decreases Path(p, d)
  {
    PathStep(p, d);
    if a != d {
      PathTransitive(p, p[d].value, a);
    }
  }

  /** The ancestors of one category form a chain. */
  lemma {:induction false} PathLinear<C>(p: map<C, Option<C>>, d: C, a: C, b: C)
    requires Acyclic(p) && d in p && a in Path(p, d) && b in Path(p, d)
    ensures a in Path(p, b) || b in Path(p, a)
    decreases Path(p, d)
  {
    PathStep(p, d);
    if a != d && b != d {
      PathLinear(p, p[d].value, a, b);
    }
  }

  ghost predicate MayMove<C>(p: map<C, Option<C>>, x: C, np: Option<C>) {
    x in p && (np.Some? ==> np.value in p && x !in Path(p, np.value))
  }

  ghost function PathOpt<C>(p: map<C, Option<C>>, np: Option<C>): set<C> {
    if np.Some? then Path(p, np.value) else {}
  }

  lemma WayStep<C>(p: map<C, Option<C>>, c: C)
    requires Acyclic(p) && c in p
    ensures PathOpt(p, Some(c)) == {c} + PathOpt(p, p[c]) && c !in PathOpt(p, p[c])
  {
    PathStep(p, c);
  }

  lemma {:induction false} ClimbSame<C>(p: map<C, Option<C>>, c: C, avail: set<C>, x: C, np: Option<C>)
    requires x in p && x !in Climb(p, c, avail)
    ensures Climb(p[x := np], c, avail) == Climb(p, c, avail)
    decreases avail
  {
    if c in avail && c in p && p[c].Some? {
      ClimbSame(p, p[c].value, avail - {c}, x, np);
    }
  }

  /** Re-parenting `x` leaves the ancestors of every category outside its subtree alone. */
  lemma MovedOutside<C>(p: map<C, Option<C>>, x: C, np: Option<C>, d: C)
    requires x in p && x !in Path(p, d)
    ensures Path(p[x := np], d) == Path(p, d)
  {
    ClimbSame(p, d, p.Keys, x, np);
    assert p[x := np].Keys == p.Keys;
  }

  /** Inside the moved subtree, the old ancestors of `x` are exchanged for the new ones. */
  lemma {:induction false} MovedInside<C>(p: map<C, Option<C>>, x: C, np: Option<C>, d: C)
    requires Acyclic(p) && MayMove(p, x, np) && d in p && x in Path(p, d)
    ensures Path(p[x := np], d) == (Path(p, d) - Path(p, x)) + {x} + PathOpt(p, np)
    decreases Path(p, d)
  {
    PathStep(p, d);
    if np.Some? {
      MovedOutside(p, x, np, np.value);
    }
    if d != x {
      var q := p[d].value;
      MovedInside(p, x, np, q);
      if np.Some? && d in Path(p, np.value) {
        PathTransitive(p, np.value, d);
      }
      PathTransitive(p, q, x);
    }
    PathStep(p[x := np], d);
  }

  /** A parent outside the moved subtree keeps the forest a forest, so upward walks end. */
  lemma MoveKeepsAcyclic<C>(p: map<C, Option<C>>, x: C, np: Option<C>)
    requires Acyclic(p) && MayMove(p, x, np)
    ensures Acyclic(p[x := np])
  {
    var p' := p[x := np];
    forall c | c in p' && p'[c].Some? ensures p'[c].value in p' && c !in Path(p', p'[c].value) {
      var q := p'[c].value;
      if x in Path(p, q) && c != x {
        MovedInside(p, x, np, q);
        if np.Some? && c in Path(p, np.value) {
          PathStep(p, c);
          PathTransitive(p, np.value, c);
        }
      } else {
        MovedOutside(p, x, np, q);
      }
    }
  }
}

/** The reference-counted thread totals of one category, as values. */
module ThreadTotals {
  import opened Sequences

  /** `byId` is the visible thread set; `refs` the reference counts; `messages` the running message total. */
  datatype Totals<T> = Totals(byId: set<T>, refs: map<T, int>, messages: int)

  function CountOf<T(==)>(refs: map<T, int>, t: T): int {
    if t in refs then refs[t] else 0
  }

  function WeightOf<T(==)>(w: map<T, int>, t: T): int {
    if t in w then w[t] else 0
  }

  /** A thread still listed by id whose reference count was dropped: adding it again is ignored. */
  predicate Stale<T(==)>(s: Totals<T>, t: T) {
    t in s.byId && t !in s.refs
  }

  ghost function SumOver<T>(w: map<T, int>, ts: set<T>): int {
    if ts == {} then 0 else
      var t :| t in ts;
      WeightOf(w, t) + SumOver(w, ts - {t})
  }

  lemma {:induction false} SumRemove<T>(w: map<T, int>, ts: set<T>, t: T)
    requires t in ts
    ensures SumOver(w, ts) == WeightOf(w, t) + SumOver(w, ts - {t})
    decreases ts
  {
    var u :| u in ts && SumOver(w, ts) == WeightOf(w, u) + SumOver(w, ts - {u});
    if u != t {
      SumRemove(w, ts - {u}, t);
      SumRemove(w, ts - {t}, u);
      assert ts - {u} - {t} == ts - {t} - {u};
    }
  }

  lemma SumAdd<T>(w: map<T, int>, ts: set<T>, t: T)
    requires t !in ts
    ensures SumOver(w, ts + {t}) == WeightOf(w, t) + SumOver(w, ts)
  {
    SumRemove(w, ts + {t}, t);
    assert ts + {t} - {t} == ts;
  }

  /** What the class keeps: counted threads are listed and counts are positive. */
  ghost predicate Sound<T>(s: Totals<T>) {
    && s.refs.Keys <= s.byId
    && (forall t | t in s.refs :: s.refs[t] >= 1)
  }

  /** By how much the running message total is off the sum over the listed threads. */
  ghost function Drift<T>(s: Totals<T>, w: map<T, int>): int {
    s.messages - SumOver(w, s.byId)
  }

  function Add<T(==)>(s: Totals<T>, t: T, amount: int, w: map<T, int>): Totals<T> {
    if t in s.refs then s.(refs := s.refs[t := s.refs[t] + amount])
    else if t in s.byId then s
    else Totals(s.byId + {t}, s.refs[t := amount], s.messages + WeightOf(w, t))
  }

  /** Adds each thread of a list once, in order. */
  function AddEach<T(==)>(s: Totals<T>, ts: seq<T>, w: map<T, int>): Totals<T> {
    if ts == [] then s else Add(AddEach(s, ts[..|ts| - 1], w), ts[|ts| - 1], 1, w)
  }

  /** Adds another category's counts to this one's. */
  ghost function AddCounts<T>(s: Totals<T>, other: map<T, int>, w: map<T, int>): Totals<T> {
    var missing := other.Keys - s.refs.Keys - s.byId;
    Totals(s.byId + (other.Keys - s.refs.Keys),
           map t | t in s.refs.Keys + missing :: CountOf(s.refs, t) + CountOf(other, t),
           s.messages + SumOver(w, missing))
  }

  /** Adding the counts of another category can be done one thread at a time, in any order. */
  lemma AddCountsStep<T>(s: Totals<T>, other: map<T, int>, t: T, n: int, w: map<T, int>)
    requires t !in other
    ensures AddCounts(s, other[t := n], w) == Add(AddCounts(s, other, w), t, n, w)
  {
    var missing := other.Keys - s.refs.Keys - s.byId;
    var r, r' := AddCounts(s, other, w), AddCounts(s, other[t := n], w);
    var missing' := other[t := n].Keys - s.refs.Keys - s.byId;
    if t !in s.refs && t !in s.byId {
      SumAdd(w, missing, t);
      assert missing' == missing + {t};
    } else {
      assert missing' == missing;
    }
    assert r'.byId == Add(r, t, n, w).byId;
    assert r'.refs == Add(r, t, n, w).refs;
  }

  lemma AddNoCounts<T>(s: Totals<T>, w: map<T, int>)
    ensures AddCounts(s, map[], w) == s
  {
    assert AddCounts(s, map[], w).refs == s.refs;
  }

  function Remove<T(==)>(s: Totals<T>, t: T, w: map<T, int>): Totals<T> {
    if t !in s.byId then s
    else Totals(s.byId - {t}, s.refs - {t}, s.messages - WeightOf(w, t))
  }

  function Decrease<T(==)>(s: Totals<T>, t: T, w: map<T, int>): Totals<T> {
    if t !in s.refs then s
    else if s.refs[t] - 1 < 1 then Remove(s.(refs := s.refs - {t}), t, w)
    else s.(refs := s.refs[t := s.refs[t] - 1])
  }

  /** Subtracts another category's counts; threads that drop out stay listed by id. */
  function DecreaseCounts<T(==)>(s: Totals<T>, other: map<T, int>): Totals<T> {
    s.(refs := map t | t in s.refs && (t in other ==> s.refs[t] - other[t] >= 1)
                 :: s.refs[t] - CountOf(other, t))
  }

  /** The changes the walks up the parent links apply to every totals collection on the way. */
  datatype Change<T> =
    | AddThreads(ts: seq<T>)
    | RemoveThread(t: T)
    | DecreaseThread(t: T)
    | AddTotals(other: map<T, int>)
    | DecreaseTotals(other: map<T, int>)

  ghost function Apply<T>(s: Totals<T>, change: Change<T>, w: map<T, int>): Totals<T> {
    match change
    case AddThreads(ts) => AddEach(s, ts, w)
    case RemoveThread(t) => Remove(s, t, w)
    case DecreaseThread(t) => Decrease(s, t, w)
    case AddTotals(other) => AddCounts(s, other, w)
    case DecreaseTotals(other) => DecreaseCounts(s, other)
  }

  function ChangeThreads<T(==)>(change: Change<T>): set<T> {
    match change
    case AddThreads(ts) => set t | t in ts
    case RemoveThread(t) => {t}
    case DecreaseThread(t) => {t}
    case AddTotals(other) => other.Keys
    case DecreaseTotals(other) => other.Keys
  }

  lemma {:induction false} AddEachStaysInside<T>(s: Totals<T>, ts: seq<T>, w: map<T, int>, all: set<T>)
    requires s.byId <= all && s.refs.Keys <= all && forall t | t in ts :: t in all
    ensures AddEach(s, ts, w).byId <= all && AddEach(s, ts, w).refs.Keys <= all
  {
    if ts != [] { AddEachStaysInside(s, ts[..|ts| - 1], w, all); }
  }

  /** The count a change leaves for each thread; adding a stale thread is the one lost case. */
  ghost function CountAfter<T>(s: Totals<T>, change: Change<T>, t: T): int {
    var n := CountOf(s.refs, t);
    match change
    case AddThreads(ts) => if t in ts && !Stale(s, t) then n + 1 else n
    case RemoveThread(u) => if t == u then 0 else n
    case DecreaseThread(u) => if t == u && n > 0 then n - 1 else n
    case AddTotals(other) => if Stale(s, t) then n else n + CountOf(other, t)
    case DecreaseTotals(other) => if n - CountOf(other, t) >= 1 then n - CountOf(other, t) else 0
  }

  ghost predicate GoodChange<T>(change: Change<T>) {
    && (change.AddThreads? ==> Distinct(change.ts))
    && (change.AddTotals? || change.DecreaseTotals? ==> forall t | t in change.other :: change.other[t] >= 1)
  }

  lemma {:induction false} AddEachEffect<T>(s: Totals<T>, ts: seq<T>, w: map<T, int>)
    requires Sound(s) && Distinct(ts)
    ensures var r := AddEach(s, ts, w);
      && Sound(r)
      && (forall t | t in r.refs :: t in s.refs || (t in ts && !Stale(s, t)))
      && (forall t | t in s.refs :: t in r.refs && r.refs[t] == s.refs[t] + if t in ts then 1 else 0)
      && (forall t | t in ts && t !in s.byId :: t in r.refs && r.refs[t] == 1)
      && (forall t | t in r.byId :: t in s.byId || t in ts)
      && s.byId <= r.byId
      && (forall t | t in ts :: t in r.byId)
  {
    if ts != [] {
      var front, t := ts[..|ts| - 1], ts[|ts| - 1];
      AddEachEffect(s, front, w);
      assert forall u :: u in ts <==> u in front || u == t;
      assert t !in front;
    }
  }

  lemma {:induction false} SumUnion<T>(w: map<T, int>, a: set<T>, b: set<T>)
    requires a !! b
    ensures SumOver(w, a + b) == SumOver(w, a) + SumOver(w, b)
    decreases b
  {
    if b == {} {
      assert a + b == a;
    } else {
      var t :| t in b;
      SumUnion(w, a, b - {t});
      SumRemove(w, b, t);
      SumRemove(w, a + b, t);
      assert a + b - {t} == a + (b - {t});
    }
  }

  /** Every change keeps the totals sound. */
  lemma ApplySound<T>(s: Totals<T>, change: Change<T>, w: map<T, int>)
    requires Sound(s) && GoodChange(change)
    ensures Sound(Apply(s, change, w))
  {
    if change.AddThreads? { AddEachEffect(s, change.ts, w); }
  }

  lemma {:induction false} AddEachDrift<T>(s: Totals<T>, ts: seq<T>, w: map<T, int>)
    ensures Drift(AddEach(s, ts, w), w) == Drift(s, w)
  {
    if ts != [] {
      var m, t := AddEach(s, ts[..|ts| - 1], w), ts[|ts| - 1];
      AddEachDrift(s, ts[..|ts| - 1], w);
      if t !in m.byId { SumAdd(w, m.byId, t); }
    }
  }

  /** No change moves the running message total towards or away from the sum over the listed threads. */
  lemma ApplyKeepsDrift<T>(s: Totals<T>, change: Change<T>, w: map<T, int>)
    ensures Drift(Apply(s, change, w), w) == Drift(s, w)
  {
    match change
    case AddThreads(ts) => AddEachDrift(s, ts, w);
    case RemoveThread(u) =>
      if u in s.byId { SumRemove(w, s.byId, u); }
    case DecreaseThread(u) =>
      if u in s.byId { SumRemove(w, s.byId, u); }
    case AddTotals(other) =>
      var missing := other.Keys - s.refs.Keys - s.byId;
      SumUnion(w, s.byId, missing);
      assert s.byId + missing == s.byId + (other.Keys - s.refs.Keys);
    case DecreaseTotals(other) =>
  }

  /** Every change has the stated effect on every count. */
  lemma ApplyCount<T>(s: Totals<T>, change: Change<T>, w: map<T, int>, t: T)
    requires Sound(s) && GoodChange(change)
    ensures CountOf(Apply(s, change, w).refs, t) == CountAfter(s, change, t)
  {
    if change.AddThreads? {
      AddEachEffect(s, change.ts, w);
    }
  }

  /** Listed and counted threads agree after a change exactly unless a subtraction emptied a count. */
  ghost predicate Clean<T>(s: Totals<T>) {
    s.byId == s.refs.Keys
  }

  lemma CleanAfter<T>(s: Totals<T>, change: Change<T>, w: map<T, int>)
    requires Sound(s) && GoodChange(change) && Clean(s)
    ensures Clean(Apply(s, change, w)) <==>
      (change.DecreaseTotals? ==> forall t | t in change.other && t in s.refs :: s.refs[t] > change.other[t])
  {
    match change
    case AddThreads(ts) => AddEachEffect(s, ts, w);
    case RemoveThread(u) =>
    case DecreaseThread(u) =>
    case AddTotals(other) =>
    case DecreaseTotals(other) =>
  }
}

/** The whole category forest as values: links, direct threads and totals of every category. */
module CategoryForest {
  import opened Wrappers
  import opened ParentLinks
  import opened Sequences
  import opened ThreadTotals

  datatype Forest<C, T> = Forest(parent: map<C, Option<C>>, held: map<C, set<T>>, total: map<C, Totals<T>>)

  /** Categories in the subtree of `a` that hold `t` directly. */
  ghost function Holders<C, T>(p: map<C, Option<C>>, held: map<C, set<T>>, a: C, t: T): set<C> {
    set d | d in p && d in held && a in Path(p, d) && t in held[d]
  }

  ghost function Below<C, T>(p: map<C, Option<C>>, held: map<C, set<T>>, a: C): set<T> {
    set d, t | d in p && d in held && a in Path(p, d) && t in held[d] :: t
  }

  /** The reference counts that category `a` ought to have. */
  ghost function CountMap<C, T>(p: map<C, Option<C>>, held: map<C, set<T>>, a: C): map<T, int> {
    map t | t in Below(p, held, a) :: |Holders(p, held, a, t)|
  }

  ghost predicate WellFormed<C, T>(f: Forest<C, T>) {
    && Acyclic(f.parent)
    && f.held.Keys == f.parent.Keys
    && f.total.Keys == f.parent.Keys
    && forall a | a in f.total :: Sound(f.total[a])
  }

  /** The global counting invariant: a reference count is the number of holders in the subtree. */
  ghost predicate Counting<C, T>(f: Forest<C, T>)
    requires f.total.Keys == f.parent.Keys
  {
    forall a | a in f.parent :: f.total[a].refs == CountMap(f.parent, f.held, a)
  }

  lemma CountMapAt<C, T>(p: map<C, Option<C>>, held: map<C, set<T>>, a: C, t: T)
    ensures t in CountMap(p, held, a) <==> Holders(p, held, a, t) != {}
    ensures CountOf(CountMap(p, held, a), t) == |Holders(p, held, a, t)|
  {
    if t in Below(p, held, a) {
      var d :| d in p && d in held && a in Path(p, d) && t in held[d];
      assert d in Holders(p, held, a, t);
    } else {
      assert forall d | d in Holders(p, held, a, t) :: t in Below(p, held, a);
    }
  }

  /** The counting invariant for one category and one thread. */
  ghost predicate Exact<C, T>(f: Forest<C, T>, a: C, t: T)
    requires a in f.total
  {
    CountOf(f.total[a].refs, t) == |Holders(f.parent, f.held, a, t)|
  }

  lemma CountingGivesExact<C, T>(f: Forest<C, T>, a: C, t: T)
    requires f.total.Keys == f.parent.Keys && a in f.parent
    requires f.total[a].refs == CountMap(f.parent, f.held, a)
    ensures Exact(f, a, t)
  {
    CountMapAt(f.parent, f.held, a, t);
  }

  lemma ExactGivesCounting<C, T>(f: Forest<C, T>)
    requires WellFormed(f)
    requires forall a, t | a in f.parent :: Exact(f, a, t)
    ensures Counting(f)
  {
    forall a | a in f.parent ensures f.total[a].refs == CountMap(f.parent, f.held, a) {
      forall t ensures t in f.total[a].refs <==> t in CountMap(f.parent, f.held, a)
        ensures CountOf(f.total[a].refs, t) == CountOf(CountMap(f.parent, f.held, a), t)
      {
        CountMapAt(f.parent, f.held, a, t);
        assert Exact(f, a, t);
      }
    }
  }

  /** Applies one change to the totals of the categories in `path`. */
  ghost function ApplyOn<C, T>(
      total: map<C, Totals<T>>, path: set<C>, change: Change<T>, w: map<T, int>): map<C, Totals<T>> {
    map a | a in total :: if a in path then Apply(total[a], change, w) else total[a]
  }

  lemma ApplyOnStep<C, T>(total: map<C, Totals<T>>, path: set<C>, todo: set<C>, c: C, change: Change<T>, w: map<T, int>)
    requires c in total && c in todo && todo <= path
    ensures var m := ApplyOn(total, path - todo, change, w);
      m[c := Apply(m[c], change, w)] == ApplyOn(total, path - (todo - {c}), change, w)
  {
  }

  lemma ApplyNowhere<C, T>(total: map<C, Totals<T>>, path: set<C>, change: Change<T>, w: map<T, int>)
    requires path == {}
    ensures ApplyOn(total, path, change, w) == total
  {
  }

  ghost predicate Inside<C, T>(total: map<C, Totals<T>>, all: set<T>) {
    forall c | c in total :: total[c].byId <= all && total[c].refs.Keys <= all
  }

  lemma ApplyOnInside<C, T>(total: map<C, Totals<T>>, path: set<C>, change: Change<T>, w: map<T, int>, all: set<T>)
    requires Inside(total, all) && ChangeThreads(change) <= all
    ensures Inside(ApplyOn(total, path, change, w), all)
  {
    if change.AddThreads? {
      forall c | c in total
        ensures Apply(total[c], change, w).byId <= all && Apply(total[c], change, w).refs.Keys <= all
      {
        AddEachStaysInside(total[c], change.ts, w, all);
      }
    }
  }

  ghost function Walk<C, T>(f: Forest<C, T>, c: Option<C>, change: Change<T>, w: map<T, int>): Forest<C, T> {
    f.(total := ApplyOn(f.total, PathOpt(f.parent, c), change, w))
  }

  ghost function Insert<C, T>(f: Forest<C, T>, c: C, ts: seq<T>, w: map<T, int>): Forest<C, T>
    requires c in f.held
  {
    Walk(f.(held := f.held[c := f.held[c] + AsSet(ts)]), Some(c), AddThreads(ts), w)
  }

  lemma InsertNothing<C, T>(f: Forest<C, T>, c: C, w: map<T, int>)
    requires c in f.held
    ensures Insert(f, c, [], w) == f
  {
    assert f.held[c] + AsSet([]) == f.held[c];
  }

  /** A category gives up one thread that no tag of it refers to any more. */
  ghost function Release<C, T>(f: Forest<C, T>, c: C, t: T, w: map<T, int>): Forest<C, T>
    requires c in f.held
  {
    Walk(f.(held := f.held[c := f.held[c] - {t}]), Some(c), DecreaseThread(t), w)
  }

  ghost function ReleaseEach<C, T>(f: Forest<C, T>, c: C, ts: seq<T>, w: map<T, int>): (r: Forest<C, T>)
    requires c in f.held
    ensures r.held.Keys == f.held.Keys
  {
    if ts == [] then f else Release(ReleaseEach(f, c, ts[..|ts| - 1], w), c, ts[|ts| - 1], w)
  }

  /** A category gets one thread, which it ignores if it holds it already. */
  ghost function Receive<C, T>(f: Forest<C, T>, c: C, t: T, w: map<T, int>): (r: Forest<C, T>)
    requires c in f.held
    ensures r.held.Keys == f.held.Keys
  {
    Insert(f, c, if t in f.held[c] then [] else [t], w)
  }

  /** Several categories get the same thread. */
  ghost function InsertInto<C, T>(f: Forest<C, T>, cs: seq<C>, t: T, w: map<T, int>): (r: Forest<C, T>)
    requires forall c | c in cs :: c in f.held
    ensures r.held.Keys == f.held.Keys
  {
    if cs == [] then f else Receive(InsertInto(f, cs[..|cs| - 1], t, w), cs[|cs| - 1], t, w)
  }

  /** Several categories give up the same thread. */
  ghost function ReleaseFrom<C, T>(f: Forest<C, T>, cs: seq<C>, t: T, w: map<T, int>): (r: Forest<C, T>)
    requires forall c | c in cs :: c in f.held
    ensures r.held.Keys == f.held.Keys
  {
    if cs == [] then f else Release(ReleaseFrom(f, cs[..|cs| - 1], t, w), cs[|cs| - 1], t, w)
  }

  lemma WalkNowhere<C, T>(f: Forest<C, T>, change: Change<T>, w: map<T, int>)
    ensures Walk(f, None, change, w) == f
  {
    ApplyNowhere(f.total, {}, change, w);
  }

  /** A category drops one thread that is being deleted for good. */
  ghost function Delete<C, T>(f: Forest<C, T>, c: C, t: T, w: map<T, int>): Forest<C, T>
    requires c in f.held
  {
    if t !in f.held[c] then f
    else Walk(f.(held := f.held[c := f.held[c] - {t}]), Some(c), RemoveThread(t), w)
  }

  ghost function DeleteFrom<C, T>(f: Forest<C, T>, cs: seq<C>, t: T, w: map<T, int>): (r: Forest<C, T>)
    requires forall c | c in cs :: c in f.held
    ensures r.held.Keys == f.held.Keys
  {
    if cs == [] then f else Delete(DeleteFrom(f, cs[..|cs| - 1], t, w), cs[|cs| - 1], t, w)
  }

  /** The moved category has its new parent and its old ancestors have given up its totals. */
  ghost function Leave<C, T>(f: Forest<C, T>, x: C, np: Option<C>, w: map<T, int>): Forest<C, T>
    requires x in f.parent && x in f.total
  {
    Walk(f.(parent := f.parent[x := np]), f.parent[x], DecreaseTotals(f.total[x].refs), w)
  }

  ghost function Move<C, T>(f: Forest<C, T>, x: C, np: Option<C>, w: map<T, int>): Forest<C, T>
    requires x in f.parent && x in f.total
  {
    var h := Leave(f, x, np, w);
    Walk(h, np, AddTotals(h.total[x].refs), w)
  }

  lemma WalkSound<C, T>(f: Forest<C, T>, c: Option<C>, change: Change<T>, w: map<T, int>)
    requires WellFormed(f) && GoodChange(change)
    ensures WellFormed(Walk(f, c, change, w))
  {
    forall a | a in f.total ensures Sound(Walk(f, c, change, w).total[a]) {
      ApplySound(f.total[a], change, w);
    }
  }

  lemma WalkCount<C, T>(f: Forest<C, T>, c: Option<C>, change: Change<T>, w: map<T, int>, a: C, t: T)
    requires WellFormed(f) && GoodChange(change) && a in f.total
    ensures CountOf(Walk(f, c, change, w).total[a].refs, t)
      == if a in PathOpt(f.parent, c) then CountAfter(f.total[a], change, t) else CountOf(f.total[a].refs, t)
  {
    ApplyCount(f.total[a], change, w, t);
  }

  lemma HoldersAdded<C, T>(p: map<C, Option<C>>, held: map<C, set<T>>, c: C, ts: set<T>, a: C, t: T)
    requires c in p && c in held && ts !! held[c]
    ensures |Holders(p, held[c := held[c] + ts], a, t)|
      == |Holders(p, held, a, t)| + if a in Path(p, c) && t in ts then 1 else 0
  {
    hide Climb, Path;
    var old_, new_ := Holders(p, held, a, t), Holders(p, held[c := held[c] + ts], a, t);
    if a in Path(p, c) && t in ts {
      assert new_ == old_ + {c} && c !in old_;
    } else {
      assert new_ == old_;
    }
  }

  lemma HoldersDropped<C, T>(p: map<C, Option<C>>, held: map<C, set<T>>, c: C, u: T, a: C, t: T)
    requires c in p && c in held && u in held[c]
    ensures |Holders(p, held[c := held[c] - {u}], a, t)|
      == |Holders(p, held, a, t)| - if a in Path(p, c) && t == u then 1 else 0
  {
    HoldersAdded(p, held[c := held[c] - {u}], c, {u}, a, t);
    assert held[c := held[c] - {u}][c := held[c] - {u} + {u}] == held by {
      assert held[c] - {u} + {u} == held[c];
    }
  }

  /** No category on the way up would ignore one of the threads being added. */
  ghost predicate NoStale<C, T>(total: map<C, Totals<T>>, path: set<C>, ts: set<T>) {
    forall a, t | a in path && a in total && t in ts :: !Stale(total[a], t)
  }

  /** Inserting new threads keeps every count exact if and only if none of them is stale on the way up. */
  lemma InsertCounting<C, T>(f: Forest<C, T>, c: C, ts: seq<T>, w: map<T, int>)
    requires WellFormed(f) && Counting(f) && c in f.parent
    requires Distinct(ts) && AsSet(ts) !! f.held[c]
    ensures WellFormed(Insert(f, c, ts, w))
    ensures Counting(Insert(f, c, ts, w)) <==> NoStale(f.total, Path(f.parent, c), AsSet(ts))
  {
    var g := f.(held := f.held[c := f.held[c] + AsSet(ts)]);
    var r := Insert(f, c, ts, w);
    WalkSound(g, Some(c), AddThreads(ts), w);
    forall a, t | a in f.parent
      ensures Exact(r, a, t) <==> !(a in Path(f.parent, c) && t in AsSet(ts) && Stale(f.total[a], t))
    {
      CountingGivesExact(f, a, t);
      WalkCount(g, Some(c), AddThreads(ts), w, a, t);
      HoldersAdded(f.parent, f.held, c, AsSet(ts), a, t);
    }
    if NoStale(f.total, Path(f.parent, c), AsSet(ts)) {
      ExactGivesCounting(r);
    } else {
      var a, t :| a in Path(f.parent, c) && a in f.total && t in AsSet(ts) && Stale(f.total[a], t);
      if Counting(r) { CountingGivesExact(r, a, t); }
    }
  }

  /** Giving up a held thread always keeps the counts exact. */
  lemma ReleaseCounting<C, T>(f: Forest<C, T>, c: C, t: T, w: map<T, int>)
    requires WellFormed(f) && Counting(f) && c in f.parent && t in f.held[c]
    ensures WellFormed(Release(f, c, t, w))
    ensures Counting(Release(f, c, t, w))
  {
    var g := f.(held := f.held[c := f.held[c] - {t}]);
    var r := Release(f, c, t, w);
    WalkSound(g, Some(c), DecreaseThread(t), w);
    forall a, u | a in f.parent ensures Exact(r, a, u) {
      CountingGivesExact(f, a, u);
      WalkCount(g, Some(c), DecreaseThread(t), w, a, u);
      HoldersDropped(f.parent, f.held, c, t, a, u);
    }
    ExactGivesCounting(r);
  }

  /** Some category of `cs` that holds `t` lies in the subtree of `a`. */
  ghost predicate Reached<C, T>(f: Forest<C, T>, cs: seq<C>, a: C, t: T) {
    exists c :: c in cs && c in f.held && t in f.held[c] && a in Path(f.parent, c)
  }

  lemma DeleteStep<C, T>(f: Forest<C, T>, c: C, t: T, w: map<T, int>)
    requires WellFormed(f) && c in f.held
    ensures var g := Delete(f, c, t, w);
      WellFormed(g) && g.parent == f.parent && g.held == f.held[c := f.held[c] - {t}]
  {
    if t in f.held[c] {
      WalkSound(f.(held := f.held[c := f.held[c] - {t}]), Some(c), RemoveThread(t), w);
    } else {
      assert f.held[c] == f.held[c] - {t};
    }
  }

  lemma DeleteCount<C, T>(f: Forest<C, T>, c: C, t: T, w: map<T, int>, a: C, u: T)
    requires WellFormed(f) && c in f.held && a in f.total
    ensures Delete(f, c, t, w).total.Keys == f.total.Keys
    ensures CountOf(Delete(f, c, t, w).total[a].refs, u)
      == if u == t && t in f.held[c] && a in Path(f.parent, c) then 0 else CountOf(f.total[a].refs, u)
  {
    if t in f.held[c] {
      WalkCount(f.(held := f.held[c := f.held[c] - {t}]), Some(c), RemoveThread(t), w, a, u);
    }
  }

  lemma {:induction false} DeleteFromShape<C, T>(f: Forest<C, T>, cs: seq<C>, t: T, w: map<T, int>)
    requires WellFormed(f) && forall c | c in cs :: c in f.held
    ensures var g := DeleteFrom(f, cs, t, w);
      && WellFormed(g) && g.parent == f.parent
      && (forall d | d in f.held :: g.held[d] == if d in cs then f.held[d] - {t} else f.held[d])
  {
    hide Climb, Path, Acyclic, Delete;
    if cs != [] {
      var front, c := cs[..|cs| - 1], cs[|cs| - 1];
      assert cs == front + [c];
      DeleteFromShape(f, front, t, w);
      var m, g := DeleteFrom(f, front, t, w), DeleteFrom(f, cs, t, w);
      DeleteStep(m, c, t, w);
      forall d | d in f.held ensures g.held[d] == if d in cs then f.held[d] - {t} else f.held[d] {
        assert d in cs <==> d in front || d == c;
        assert f.held[d] - {t} - {t} == f.held[d] - {t};
      }
    }
  }

  lemma {:induction false} DeleteFromCount<C, T>(f: Forest<C, T>, cs: seq<C>, t: T, w: map<T, int>, a: C, u: T)
    requires WellFormed(f) && (forall c | c in cs :: c in f.held) && a in f.total
    ensures DeleteFrom(f, cs, t, w).total.Keys == f.total.Keys
    ensures CountOf(DeleteFrom(f, cs, t, w).total[a].refs, u)
      == if u == t && Reached(f, cs, a, t) then 0 else CountOf(f.total[a].refs, u)
  {
    hide Climb, Path, Acyclic, Delete;
    if cs != [] {
      var front, c := cs[..|cs| - 1], cs[|cs| - 1];
      assert cs == front + [c];
      DeleteFromShape(f, front, t, w);
      DeleteFromCount(f, front, t, w, a, u);
      DeleteCount(DeleteFrom(f, front, t, w), c, t, w, a, u);
      assert Reached(f, cs, a, t) <==>
        Reached(f, front, a, t) || (t in f.held[c] && a in Path(f.parent, c));
    }
  }

  /** Deleting a thread from every category that holds it keeps the counts exact, although the
      intermediate steps do not. */
  lemma DeleteEverywhereCounting<C, T>(f: Forest<C, T>, cs: seq<C>, t: T, w: map<T, int>)
    requires WellFormed(f) && Counting(f)
    requires forall c | c in cs :: c in f.held
    requires forall c | c in f.held && t in f.held[c] :: c in cs
    ensures var g := DeleteFrom(f, cs, t, w);
      WellFormed(g) && Counting(g) && forall d | d in g.held :: g.held[d] == f.held[d] - {t}
  {
    hide Climb, Path, Acyclic, DeleteFrom;
    DeleteFromShape(f, cs, t, w);
    var g := DeleteFrom(f, cs, t, w);
    forall a, u | a in f.parent ensures Exact(g, a, u) {
      CountingGivesExact(f, a, u);
      DeleteFromCount(f, cs, t, w, a, u);
      DeletedHolders(f, g, cs, t, a, u);
    }
    ExactGivesCounting(g);
  }

  lemma DeletedHolders<C, T>(f: Forest<C, T>, g: Forest<C, T>, cs: seq<C>, t: T, a: C, u: T)
    requires g.parent == f.parent && g.held.Keys == f.held.Keys == f.parent.Keys
    requires forall d | d in f.held :: g.held[d] == if d in cs then f.held[d] - {t} else f.held[d]
    requires forall c | c in f.held && t in f.held[c] :: c in cs
    ensures u == t ==> Holders(g.parent, g.held, a, t) == {}
    ensures u == t && !Reached(f, cs, a, t) ==> Holders(f.parent, f.held, a, t) == {}
    ensures u != t ==> Holders(g.parent, g.held, a, u) == Holders(f.parent, f.held, a, u)
  {
  }

  /** Whether one category of the moved subtree, or outside it, counts towards `a` before and after. */
  lemma HolderMoved<C, T>(p: map<C, Option<C>>, held: map<C, set<T>>, x: C, np: Option<C>, a: C, t: T, d: C)
    requires Acyclic(p) && MayMove(p, x, np) && a in p
    requires d in p && d in held && t in held[d]
    ensures var moved, before, after :=
        d in Holders(p, held, x, t), d in Holders(p, held, a, t), d in Holders(p[x := np], held, a, t);
      && (moved && a in PathOpt(p, p[x]) ==> before)
      && (moved && a !in PathOpt(p, p[x]) && a in PathOpt(p, np) ==> !before)
      && (after <==> if moved && a in PathOpt(p, p[x]) then a in PathOpt(p, np)
                     else before || (moved && a in PathOpt(p, np)))
  {
    PathStep(p, x);
    if np.Some? && a in Path(p, np.value) { PathTransitive(p, np.value, a); }
    if x in Path(p, d) {
      MovedInside(p, x, np, d);
      PathTransitive(p, d, x);
      if a in Path(p, d) { PathLinear(p, d, a, x); }
    } else {
      MovedOutside(p, x, np, d);
    }
  }

  lemma HoldersMovedSets<C, T>(p: map<C, Option<C>>, held: map<C, set<T>>, x: C, np: Option<C>, a: C, t: T,
      lost: set<C>, won: set<C>)
    requires Acyclic(p) && MayMove(p, x, np) && a in p
    requires lost == if a in PathOpt(p, p[x]) then Holders(p, held, x, t) else {}
    requires won == if a in PathOpt(p, np) then Holders(p, held, x, t) else {}
    ensures lost <= Holders(p, held, a, t)
    ensures (Holders(p, held, a, t) - lost) !! won
    ensures Holders(p[x := np], held, a, t) == (Holders(p, held, a, t) - lost) + won
  {
    forall d | d in p && d in held && t in held[d]
      ensures d in lost ==> d in Holders(p, held, a, t)
      ensures d in won && d !in lost ==> d !in Holders(p, held, a, t)
      ensures d in Holders(p[x := np], held, a, t) <==> d in (Holders(p, held, a, t) - lost) + won
    {
      HolderMoved(p, held, x, np, a, t, d);
    }
  }

  lemma HoldersMoved<C, T>(p: map<C, Option<C>>, held: map<C, set<T>>, x: C, np: Option<C>, a: C, t: T)
    requires Acyclic(p) && MayMove(p, x, np) && a in p
    ensures var k := |Holders(p, held, x, t)|;
      && (a in PathOpt(p, p[x]) ==> |Holders(p, held, a, t)| >= k)
      && |Holders(p[x := np], held, a, t)| == |Holders(p, held, a, t)|
           - (if a in PathOpt(p, p[x]) then k else 0) + (if a in PathOpt(p, np) then k else 0)
  {
    var lost := if a in PathOpt(p, p[x]) then Holders(p, held, x, t) else {};
    var won := if a in PathOpt(p, np) then Holders(p, held, x, t) else {};
    HoldersMovedSets(p, held, x, np, a, t, lost, won);
    ExchangeSize(Holders(p, held, a, t), lost, won);
  }

  lemma ExchangeSize<C>(before: set<C>, lost: set<C>, won: set<C>)
    requires lost <= before && (before - lost) !! won
    ensures |before| >= |lost|
    ensures |(before - lost) + won| == |before| - |lost| + |won|
  {
    assert before == (before - lost) + lost;
  }

  /** No new ancestor of `x` both lists a thread of the subtree and has lost its count by the time it is added:
      each such thread is either new there, or counted there, and under a common ancestor also held elsewhere. */
  ghost predicate MoveIsExact<C, T>(f: Forest<C, T>, x: C, np: Option<C>)
    requires x in f.parent && x in f.total
  {
    forall a, t | a in f.parent && a in f.total && t in f.total[x].refs :: MoveIsExactAt(f, x, np, a, t)
  }

  ghost predicate MoveIsExactAt<C, T>(f: Forest<C, T>, x: C, np: Option<C>, a: C, t: T)
    requires x in f.parent && x in f.total && a in f.total
  {
    a in PathOpt(f.parent, np) && t in f.total[x].refs && t in f.total[a].byId ==>
      && t in f.total[a].refs
      && (a in PathOpt(f.parent, f.parent[x]) ==> f.total[a].refs[t] > f.total[x].refs[t])
  }

  /** Re-parenting keeps every count exact if and only if MoveIsExact holds before it. */
  lemma MoveCounting<C, T>(f: Forest<C, T>, x: C, np: Option<C>, w: map<T, int>)
    requires WellFormed(f) && Counting(f) && MayMove(f.parent, x, np)
    ensures WellFormed(Move(f, x, np, w))
    ensures Counting(Move(f, x, np, w)) <==> MoveIsExact(f, x, np)
  {
    var r := Move(f, x, np, w);
    MoveShape(f, x, np, w);
    forall a, t | a in f.parent ensures Exact(r, a, t) <==> MoveIsExactAt(f, x, np, a, t) {
      MoveCount(f, x, np, w, a, t);
    }
    if MoveIsExact(f, x, np) {
      forall a, t | a in r.parent ensures Exact(r, a, t) { assert MoveIsExactAt(f, x, np, a, t); }
      ExactGivesCounting(r);
    } else {
      var a, t :| a in f.parent && a in f.total && t in f.total[x].refs && !MoveIsExactAt(f, x, np, a, t);
      if Counting(r) { CountingGivesExact(r, a, t); }
    }
  }

  lemma MovedPaths<C>(p: map<C, Option<C>>, x: C, np: Option<C>)
    requires Acyclic(p) && MayMove(p, x, np)
    ensures Acyclic(p[x := np])
    ensures PathOpt(p[x := np], p[x]) == PathOpt(p, p[x]) && x !in PathOpt(p, p[x])
    ensures PathOpt(p[x := np], np) == PathOpt(p, np) && x !in PathOpt(p, np)
  {
    MoveKeepsAcyclic(p, x, np);
    PathStep(p, x);
    if p[x].Some? { MovedOutside(p, x, np, p[x].value); }
    if np.Some? { MovedOutside(p, x, np, np.value); }
  }

  lemma LeaveShape<C, T>(f: Forest<C, T>, x: C, np: Option<C>, w: map<T, int>)
    requires WellFormed(f) && MayMove(f.parent, x, np)
    ensures var h := Leave(f, x, np, w);
      && WellFormed(h) && h.parent == f.parent[x := np] && h.held == f.held && h.total[x] == f.total[x]
      && GoodChange(AddTotals(f.total[x].refs)) && GoodChange(DecreaseTotals(f.total[x].refs))
  {
    MovedPaths(f.parent, x, np);
    WalkSound(f.(parent := f.parent[x := np]), f.parent[x], DecreaseTotals(f.total[x].refs), w);
  }

  lemma MoveShape<C, T>(f: Forest<C, T>, x: C, np: Option<C>, w: map<T, int>)
    requires WellFormed(f) && MayMove(f.parent, x, np)
    ensures WellFormed(Move(f, x, np, w))
  {
    LeaveShape(f, x, np, w);
    WalkSound(Leave(f, x, np, w), np, AddTotals(f.total[x].refs), w);
  }

  lemma LeaveCount<C, T>(f: Forest<C, T>, x: C, np: Option<C>, w: map<T, int>, a: C, t: T)
    requires WellFormed(f) && Counting(f) && MayMove(f.parent, x, np) && a in f.parent
    ensures var moved, h := f.total[x].refs, Leave(f, x, np, w);
      && a in h.total && h.total[a].byId == f.total[a].byId
      && CountOf(h.total[a].refs, t)
           == (if a in PathOpt(f.parent, f.parent[x]) then CountAfter(f.total[a], DecreaseTotals(moved), t)
               else CountOf(f.total[a].refs, t))
      && (t in h.total[a].refs <==> CountOf(h.total[a].refs, t) > 0)
  {
    MovedPaths(f.parent, x, np);
    LeaveShape(f, x, np, w);
    WalkCount(f.(parent := f.parent[x := np]), f.parent[x], DecreaseTotals(f.total[x].refs), w, a, t);
  }

  lemma MoveCount<C, T>(f: Forest<C, T>, x: C, np: Option<C>, w: map<T, int>, a: C, t: T)
    requires WellFormed(f) && Counting(f) && MayMove(f.parent, x, np) && a in f.parent
    ensures a in Move(f, x, np, w).total
    ensures Exact(Move(f, x, np, w), a, t) <==> MoveIsExactAt(f, x, np, a, t)
  {
    hide Climb, Path, Acyclic, Holders, Apply;
    var h := Leave(f, x, np, w);
    LeaveShape(f, x, np, w);
    LeaveCount(f, x, np, w, a, t);
    MovedPaths(f.parent, x, np);
    assert CountOf(f.total[a].refs, t) == |Holders(f.parent, f.held, a, t)| by { CountingGivesExact(f, a, t); }
    assert CountOf(f.total[x].refs, t) == |Holders(f.parent, f.held, x, t)| by { CountingGivesExact(f, x, t); }
    WalkCount(h, np, AddTotals(f.total[x].refs), w, a, t);
    HoldersMoved(f.parent, f.held, x, np, a, t);
  }

  ghost predicate AllClean<C, T>(f: Forest<C, T>) {
    forall a | a in f.total :: Clean(f.total[a])
  }

  /** Every thread of the moved subtree is also held elsewhere under each old ancestor. */
  ghost predicate HeldElsewhere<C, T>(f: Forest<C, T>, x: C)
    requires x in f.parent && x in f.total
  {
    forall a, t | a in PathOpt(f.parent, f.parent[x]) && a in f.total && t in f.total[x].refs && t in f.total[a].refs ::
      f.total[a].refs[t] > f.total[x].refs[t]
  }

  /** From a state whose lists and counts agree everywhere, re-parenting reaches another such state if and
      only if the moved threads are held elsewhere under every old ancestor. */
  lemma MoveClean<C, T>(f: Forest<C, T>, x: C, np: Option<C>, w: map<T, int>)
    requires WellFormed(f) && Counting(f) && AllClean(f) && MayMove(f.parent, x, np)
    ensures Counting(Move(f, x, np, w)) && AllClean(Move(f, x, np, w)) <==> HeldElsewhere(f, x)
  {
    hide Climb, Counting;
    var h, r := Leave(f, x, np, w), Move(f, x, np, w);
    MoveCounting(f, x, np, w);
    LeaveShape(f, x, np, w);
    MovedPaths(f.parent, x, np);
    if HeldElsewhere(f, x) {
      forall a, t | a in f.parent && a in f.total && t in f.total[x].refs ensures MoveIsExactAt(f, x, np, a, t) {
      }
      forall a | a in r.total ensures Clean(r.total[a]) {
        if a in PathOpt(f.parent, f.parent[x]) { CleanAfter(f.total[a], DecreaseTotals(f.total[x].refs), w); }
        assert Clean(h.total[a]);
        if a in PathOpt(f.parent, np) { CleanAfter(h.total[a], AddTotals(f.total[x].refs), w); }
      }
    } else {
      var a, t :| a in PathOpt(f.parent, f.parent[x]) && a in f.total && t in f.total[x].refs && t in f.total[a].refs
        && !(f.total[a].refs[t] > f.total[x].refs[t]);
      if a in PathOpt(f.parent, np) {
        assert !MoveIsExactAt(f, x, np, a, t);
      } else {
        assert r.total[a] == h.total[a] && t in h.total[a].byId && t !in h.total[a].refs;
      }
    }
  }

  lemma {:induction false} NewRootPath<C>(p: map<C, Option<C>>, c: C, d: C, avail: set<C>)
    requires Acyclic(p) && c !in p && d in p
    ensures Climb(p[c := None], d, avail + {c}) == Climb(p, d, avail)
    decreases avail
  {
    if d in avail && p[d].Some? {
      NewRootPath(p, c, p[d].value, avail - {d});
      assert avail + {c} - {d} == avail - {d} + {c};
    }
  }

  ghost function NewRoot<C, T>(f: Forest<C, T>, c: C): Forest<C, T> {
    Forest(f.parent[c := None], f.held[c := {}], f.total[c := Totals({}, map[], 0)])
  }

  lemma NewRootShape<C, T>(f: Forest<C, T>, c: C)
    requires WellFormed(f) && c !in f.parent
    ensures WellFormed(NewRoot(f, c))
    ensures forall d | d in f.parent :: Path(NewRoot(f, c).parent, d) == Path(f.parent, d)
  {
    var p := NewRoot(f, c).parent;
    assert p.Keys == f.parent.Keys + {c};
    forall d | d in f.parent ensures Path(p, d) == Path(f.parent, d) {
      NewRootPath(f.parent, c, d, f.parent.Keys);
    }
    assert Acyclic(p);
  }

  lemma NewRootCounting<C, T>(f: Forest<C, T>, c: C)
    requires WellFormed(f) && Counting(f) && c !in f.parent
    ensures WellFormed(NewRoot(f, c)) && Counting(NewRoot(f, c))
    ensures AllClean(f) ==> AllClean(NewRoot(f, c))
  {
    var g := NewRoot(f, c);
    NewRootShape(f, c);
    forall a, t | a in g.parent ensures Exact(g, a, t) {
      NewRootHolders(f, c, a, t);
      if a != c { CountingGivesExact(f, a, t); }
    }
    ExactGivesCounting(g);
  }

  lemma NewRootHolders<C, T>(f: Forest<C, T>, c: C, a: C, t: T)
    requires c !in f.parent && (a in f.parent || a == c)
    requires forall d | d in f.parent :: Path(NewRoot(f, c).parent, d) == Path(f.parent, d)
    ensures Holders(NewRoot(f, c).parent, NewRoot(f, c).held, a, t)
      == if a == c then {} else Holders(f.parent, f.held, a, t)
  {
  }

  /** Everything that happens to a forest over its life. */
  datatype Event<C, T> =
    | Created(c: C)
    | Inserted(c: C, ts: seq<T>)
    | Released(c: C, t: T)
    | Deleted(cs: seq<C>, t: T)
    | Moved(x: C, np: Option<C>)

  /** What the callers guarantee. */
  ghost predicate Possible<C, T>(f: Forest<C, T>, e: Event<C, T>) {
    match e
    case Created(c) => c !in f.parent
    case Inserted(c, ts) => c in f.held && Distinct(ts) && AsSet(ts) !! f.held[c]
    case Released(c, t) => c in f.held && t in f.held[c]
    case Deleted(cs, t) => (forall c | c in cs :: c in f.held) && forall c | c in f.held && t in f.held[c] :: c in cs
    case Moved(x, np) => MayMove(f.parent, x, np) && x in f.total
  }

  /** The event leaves every count exact: nothing inserted or moved meets a listing without a count. */
  ghost predicate KeepsCounts<C, T>(f: Forest<C, T>, e: Event<C, T>)
    requires Possible(f, e)
  {
    match e
    case Inserted(c, ts) => NoStale(f.total, Path(f.parent, c), AsSet(ts))
    case Moved(x, np) => MoveIsExact(f, x, np)
    case _ => true
  }

  /** A move leaves no listing without a count behind. */
  ghost predicate LeavesClean<C, T>(f: Forest<C, T>, e: Event<C, T>)
    requires Possible(f, e)
  {
    e.Moved? ==> HeldElsewhere(f, e.x)
  }

  ghost function Next<C, T>(f: Forest<C, T>, e: Event<C, T>, w: map<T, int>): Forest<C, T>
    requires Possible(f, e)
  {
    match e
    case Created(c) => NewRoot(f, c)
    case Inserted(c, ts) => Insert(f, c, ts, w)
    case Released(c, t) => Release(f, c, t, w)
    case Deleted(cs, t) => DeleteFrom(f, cs, t, w)
    case Moved(x, np) => Move(f, x, np, w)
  }

  lemma {:induction false} DeleteFromHeld<C, T>(f: Forest<C, T>, cs: seq<C>, t: T, w: map<T, int>)
    requires forall c | c in cs :: c in f.held
    ensures var g := DeleteFrom(f, cs, t, w);
      && g.parent == f.parent && g.held.Keys == f.held.Keys
      && forall c | c in f.held :: g.held[c] == f.held[c] - if c in cs then {t} else {}
  {
    hide Path, ApplyOn;
    if cs != [] { DeleteFromHeld(f, cs[..|cs| - 1], t, w); }
  }

  /** What an event does to the links and to the direct threads, whatever the totals. */
  lemma NextHeld<C, T>(f: Forest<C, T>, e: Event<C, T>, w: map<T, int>)
    requires Possible(f, e)
    ensures var g := Next(f, e, w);
      match e
      case Created(c) => g.parent == f.parent[c := None] && g.held == f.held[c := {}]
      case Inserted(c, ts) => g.parent == f.parent && g.held == f.held[c := f.held[c] + AsSet(ts)]
      case Released(c, t) => g.parent == f.parent && g.held == f.held[c := f.held[c] - {t}]
      case Deleted(_, t) => g.parent == f.parent && g.held == map c | c in f.held :: f.held[c] - {t}
      case Moved(x, np) => g.parent == f.parent[x := np] && g.held == f.held
  {
    hide Path, ApplyOn;
    match e
    case Deleted(cs, t) =>
      DeleteFromHeld(f, cs, t, w);
      forall c | c in f.held ensures DeleteFrom(f, cs, t, w).held[c] == f.held[c] - {t} {
        if c !in cs { assert f.held[c] - {t} == f.held[c] - {}; }
      }
    case _ =>
  }

  ghost predicate Consistent<C, T>(f: Forest<C, T>) {
    WellFormed(f) && Counting(f) && AllClean(f)
  }

  lemma MoveConsistent<C, T>(f: Forest<C, T>, x: C, np: Option<C>, w: map<T, int>)
    requires Consistent(f) && MayMove(f.parent, x, np)
    ensures Consistent(Move(f, x, np, w)) <==> HeldElsewhere(f, x)
  {
    MoveCounting(f, x, np, w);
    MoveClean(f, x, np, w);
  }

  lemma {:induction false} DeleteFromListed<C, T>(f: Forest<C, T>, cs: seq<C>, t: T, w: map<T, int>, a: C)
    requires WellFormed(f) && (forall c | c in cs :: c in f.held) && a in f.total
    ensures a in DeleteFrom(f, cs, t, w).total
    ensures t in DeleteFrom(f, cs, t, w).total[a].byId <==> t in f.total[a].byId && !Reached(f, cs, a, t)
  {
    hide Climb, Path, Acyclic;
    if cs != [] {
      var front, c := cs[..|cs| - 1], cs[|cs| - 1];
      assert cs == front + [c];
      DeleteFromShape(f, front, t, w);
      DeleteFromListed(f, front, t, w, a);
      assert Reached(f, cs, a, t) <==> Reached(f, front, a, t) || (t in f.held[c] && a in Path(f.parent, c));
    }
  }

  /** After a thread was deleted everywhere, no direct list and no count mentions it, and a total still lists it
      if and only if it listed it without a count before. */
  lemma DeletedMentions<C, T>(f: Forest<C, T>, cs: seq<C>, t: T, w: map<T, int>)
    requires InOrder(f) && Possible(f, Deleted(cs, t))
    ensures var g := DeleteFrom(f, cs, t, w);
      && InOrder(g) && g.parent == f.parent && g.total.Keys == f.total.Keys
      && (forall d | d in f.held :: g.held[d] == f.held[d] - {t})
      && (forall a | a in g.total :: t !in g.total[a].refs && (t in g.total[a].byId <==> Stale(f.total[a], t)))
  {
    hide Climb, Path, Acyclic, DeleteFrom;
    DeleteFromShape(f, cs, t, w);
    DeleteEverywhereCounting(f, cs, t, w);
    var g := DeleteFrom(f, cs, t, w);
    forall a | a in f.total ensures t !in g.total[a].refs && (t in g.total[a].byId <==> Stale(f.total[a], t)) {
      DeleteFromListed(f, cs, t, w, a);
      DeleteFromCount(f, cs, t, w, a, t);
      CountMapAt(f.parent, f.held, a, t);
      CountMapAt(g.parent, g.held, a, t);
      DeletedHolders(f, g, cs, t, a, t);
    }
  }

  /** Each total that lists the thread has a category below it that holds the thread. */
  ghost predicate ListedAboveHolders<C, T>(f: Forest<C, T>, t: T) {
    forall a | a in f.total && t in f.total[a].byId :: Holders(f.parent, f.held, a, t) != {}
  }

  /** With exact counts that means: no total lists the thread without a count. */
  lemma ListedAboveHoldersIfNotStale<C, T>(f: Forest<C, T>, t: T)
    requires InOrder(f)
    ensures ListedAboveHolders(f, t) <==> forall a | a in f.total :: !Stale(f.total[a], t)
  {
    forall a | a in f.total
      ensures Stale(f.total[a], t) <==> t in f.total[a].byId && Holders(f.parent, f.held, a, t) == {}
    {
      CountMapAt(f.parent, f.held, a, t);
    }
  }

  ghost predicate Unlisted<C, T>(f: Forest<C, T>, t: T) {
    forall a | a in f.total :: t !in f.total[a].byId
  }

  /** A thread deleted everywhere is listed nowhere any more if and only if it was listed above its holders only. */
  lemma DeletedListed<C, T>(f: Forest<C, T>, cs: seq<C>, t: T, w: map<T, int>)
    requires WellFormed(f) && Possible(f, Deleted(cs, t))
    ensures WellFormed(DeleteFrom(f, cs, t, w))
    ensures Unlisted(DeleteFrom(f, cs, t, w), t) <==> ListedAboveHolders(f, t)
  {
    hide Climb, Path, Acyclic, DeleteFrom;
    DeleteFromShape(f, cs, t, w);
    var g := DeleteFrom(f, cs, t, w);
    forall a | a in f.total
      ensures a in g.total && (t in g.total[a].byId <==> t in f.total[a].byId && Holders(f.parent, f.held, a, t) == {})
    {
      DeleteFromListed(f, cs, t, w, a);
      ReachedIfHeld(f, cs, a, t);
    }
  }

  lemma ReachedIfHeld<C, T>(f: Forest<C, T>, cs: seq<C>, a: C, t: T)
    requires f.held.Keys == f.parent.Keys && forall c | c in f.held && t in f.held[c] :: c in cs
    ensures Reached(f, cs, a, t) <==> Holders(f.parent, f.held, a, t) != {}
  {
    if Holders(f.parent, f.held, a, t) != {} {
      var c :| c in Holders(f.parent, f.held, a, t);
      assert c in cs;
    }
  }

  lemma WalkClean<C, T>(f: Forest<C, T>, c: Option<C>, change: Change<T>, w: map<T, int>)
    requires WellFormed(f) && AllClean(f) && GoodChange(change) && !change.DecreaseTotals?
    ensures AllClean(Walk(f, c, change, w))
  {
    forall a | a in f.total ensures Clean(Apply(f.total[a], change, w)) {
      CleanAfter(f.total[a], change, w);
    }
  }

  lemma {:induction false} DeleteFromClean<C, T>(f: Forest<C, T>, cs: seq<C>, t: T, w: map<T, int>)
    requires WellFormed(f) && AllClean(f) && forall c | c in cs :: c in f.held
    ensures AllClean(DeleteFrom(f, cs, t, w))
  {
    hide Climb, Path, Acyclic;
    if cs != [] {
      var front, c := cs[..|cs| - 1], cs[|cs| - 1];
      assert cs == front + [c];
      DeleteFromClean(f, front, t, w);
      DeleteFromShape(f, front, t, w);
      var m := DeleteFrom(f, front, t, w);
      if t in m.held[c] { WalkClean(m.(held := m.held[c := m.held[c] - {t}]), Some(c), RemoveThread(t), w); }
    }
  }

  ghost predicate InOrder<C, T>(f: Forest<C, T>) {
    WellFormed(f) && Counting(f)
  }

  /** One event keeps all counts exact if and only if it meets no listing without a count. */
  lemma NextCounting<C, T>(f: Forest<C, T>, e: Event<C, T>, w: map<T, int>)
    requires InOrder(f) && Possible(f, e)
    ensures WellFormed(Next(f, e, w))
    ensures InOrder(Next(f, e, w)) <==> KeepsCounts(f, e)
  {
    match e
    case Created(c) => NewRootCounting(f, c);
    case Inserted(c, ts) => InsertCounting(f, c, ts, w);
    case Released(c, t) => ReleaseCounting(f, c, t, w);
    case Deleted(cs, t) => DeleteEverywhereCounting(f, cs, t, w);
    case Moved(x, np) => MoveCounting(f, x, np, w);
  }

  /** From a consistent state an event reaches another one if and only if it leaves no listing without a count. */
  lemma NextConsistent<C, T>(f: Forest<C, T>, e: Event<C, T>, w: map<T, int>)
    requires Consistent(f) && Possible(f, e)
    ensures Consistent(Next(f, e, w)) <==> LeavesClean(f, e)
  {
    NextCounting(f, e, w);
    match e
    case Created(c) => NewRootCounting(f, c);
    case Inserted(c, ts) =>
      WalkClean(f.(held := f.held[c := f.held[c] + AsSet(ts)]), Some(c), AddThreads(ts), w);
    case Released(c, t) =>
      WalkClean(f.(held := f.held[c := f.held[c] - {t}]), Some(c), DecreaseThread(t), w);
    case Deleted(cs, t) => DeleteFromClean(f, cs, t, w);
    case Moved(x, np) => MoveClean(f, x, np, w);
  }

  /** Giving up several held threads, one after the other, is a run of releases. */
  lemma {:induction false} ReleaseEachConsistent<C, T>(f: Forest<C, T>, c: C, ts: seq<T>, w: map<T, int>)
    requires Consistent(f) && c in f.held && Distinct(ts) && AsSet(ts) <= f.held[c]
    ensures var r := ReleaseEach(f, c, ts, w);
      Consistent(r) && r.parent == f.parent && r.held == f.held[c := f.held[c] - AsSet(ts)]
  {
    hide Consistent;
    if ts == [] {
      assert f.held[c] - AsSet(ts) == f.held[c];
    } else {
      var front, t := ts[..|ts| - 1], ts[|ts| - 1];
      assert ts == front + [t] && AsSet(ts) == AsSet(front) + {t} && t !in AsSet(front);
      ReleaseEachConsistent(f, c, front, w);
      var m := ReleaseEach(f, c, front, w);
      NextConsistent(m, Released(c, t), w);
      assert f.held[c] - AsSet(ts) == m.held[c] - {t};
    }
  }

  lemma InsertShape<C, T>(f: Forest<C, T>, c: C, ts: seq<T>, w: map<T, int>)
    requires WellFormed(f) && c in f.held && Distinct(ts)
    ensures WellFormed(Insert(f, c, ts, w))
  {
    WalkSound(f.(held := f.held[c := f.held[c] + AsSet(ts)]), Some(c), AddThreads(ts), w);
  }

  lemma ReleaseShape<C, T>(f: Forest<C, T>, c: C, t: T, w: map<T, int>)
    requires WellFormed(f) && c in f.held
    ensures var r := Release(f, c, t, w);
      WellFormed(r) && r.parent == f.parent && r.held == f.held[c := f.held[c] - {t}]
  {
    WalkSound(f.(held := f.held[c := f.held[c] - {t}]), Some(c), DecreaseThread(t), w);
  }

  lemma {:induction false} ReleaseEachShape<C, T>(f: Forest<C, T>, c: C, ts: seq<T>, w: map<T, int>)
    requires WellFormed(f) && c in f.held
    ensures var r := ReleaseEach(f, c, ts, w);
      WellFormed(r) && r.parent == f.parent && r.held == f.held[c := f.held[c] - AsSet(ts)]
  {
    hide WellFormed, Release;
    if ts == [] {
      assert f.held[c] - AsSet(ts) == f.held[c];
    } else {
      var front, t := ts[..|ts| - 1], ts[|ts| - 1];
      assert ts == front + [t] && AsSet(ts) == AsSet(front) + {t};
      ReleaseEachShape(f, c, front, w);
      var m := ReleaseEach(f, c, front, w);
      ReleaseShape(m, c, t, w);
      assert f.held[c] - AsSet(ts) == m.held[c] - {t};
    }
  }

  lemma {:induction false} ReleaseFromShape<C, T>(f: Forest<C, T>, cs: seq<C>, t: T, w: map<T, int>)
    requires WellFormed(f) && forall c | c in cs :: c in f.held
    ensures var r := ReleaseFrom(f, cs, t, w);
      WellFormed(r) && r.parent == f.parent
      && forall c | c in f.held :: r.held[c] == if c in cs then f.held[c] - {t} else f.held[c]
  {
    hide WellFormed, Release;
    if cs != [] {
      var front, c := cs[..|cs| - 1], cs[|cs| - 1];
      assert cs == front + [c];
      ReleaseFromShape(f, front, t, w);
      ReleaseShape(ReleaseFrom(f, front, t, w), c, t, w);
      forall d | d in f.held
        ensures ReleaseFrom(f, cs, t, w).held[d] == if d in cs then f.held[d] - {t} else f.held[d]
      {
        assert d in cs <==> d in front || d == c;
        assert f.held[d] - {t} - {t} == f.held[d] - {t};
      }
    }
  }

  lemma ReleaseInOrder<C, T>(f: Forest<C, T>, c: C, t: T, w: map<T, int>)
    requires InOrder(f) && c in f.held && t in f.held[c]
    ensures var r := Release(f, c, t, w);
      InOrder(r) && r.parent == f.parent && r.held == f.held[c := f.held[c] - {t}]
  {
    ReleaseCounting(f, c, t, w);
  }

  lemma {:induction false} ReleaseEachInOrder<C, T>(f: Forest<C, T>, c: C, ts: seq<T>, w: map<T, int>)
    requires InOrder(f) && c in f.held && Distinct(ts) && AsSet(ts) <= f.held[c]
    ensures var r := ReleaseEach(f, c, ts, w);
      InOrder(r) && r.parent == f.parent && r.held == f.held[c := f.held[c] - AsSet(ts)]
  {
    hide InOrder, Release;
    if ts == [] {
      assert f.held[c] - AsSet(ts) == f.held[c];
    } else {
      var front, t := ts[..|ts| - 1], ts[|ts| - 1];
      assert ts == front + [t] && AsSet(ts) == AsSet(front) + {t} && t !in AsSet(front);
      ReleaseEachInOrder(f, c, front, w);
      var m := ReleaseEach(f, c, front, w);
      ReleaseInOrder(m, c, t, w);
      assert f.held[c] - AsSet(ts) == m.held[c] - {t};
    }
  }

  lemma {:induction false} ReleaseFromInOrder<C, T>(f: Forest<C, T>, cs: seq<C>, t: T, w: map<T, int>)
    requires InOrder(f) && Distinct(cs) && forall c | c in cs :: c in f.held && t in f.held[c]
    ensures var r := ReleaseFrom(f, cs, t, w);
      InOrder(r) && r.parent == f.parent
      && forall c | c in f.held :: r.held[c] == if c in cs then f.held[c] - {t} else f.held[c]
  {
    hide InOrder, Release;
    if cs != [] {
      var front, c := cs[..|cs| - 1], cs[|cs| - 1];
      assert cs == front + [c] && c !in front;
      ReleaseFromInOrder(f, front, t, w);
      ReleaseInOrder(ReleaseFrom(f, front, t, w), c, t, w);
    }
  }

  /** No category above one that newly gets the thread lists it without a count. */
  ghost predicate NoStaleAbove<C, T>(f: Forest<C, T>, cs: set<C>, t: T) {
    forall c, a | c in cs && c in f.held && t !in f.held[c] && a in Path(f.parent, c) && a in f.total ::
      !Stale(f.total[a], t)
  }

  /** What inserting one thread into one category changes. */
  lemma InsertOneShape<C, T>(f: Forest<C, T>, c: C, t: T, w: map<T, int>)
    requires WellFormed(f) && c in f.held
    ensures var r := Receive(f, c, t, w);
      && WellFormed(r) && r.parent == f.parent && r.held == f.held[c := f.held[c] + {t}]
      && r.total.Keys == f.total.Keys && forall a | a in f.total :: Stale(r.total[a], t) <==> Stale(f.total[a], t)
  {
    if t in f.held[c] {
      InsertNothing(f, c, w);
      assert f.held[c] + {t} == f.held[c];
    } else {
      assert AsSet([t]) == {t} && [t][..0] == [];
      hide Climb, Path, Acyclic;
      WalkSound(f.(held := f.held[c := f.held[c] + {t}]), Some(c), AddThreads([t]), w);
      OneKeepsStale(w, t);
    }
  }

  lemma OneKeepsStale<T>(w: map<T, int>, t: T)
    ensures forall s: Totals<T> :: Stale(AddEach(s, [t], w), t) <==> Stale(s, t)
  {
    assert [t][..0] == [];
  }

  lemma {:induction false} InsertIntoShape<C, T>(f: Forest<C, T>, cs: seq<C>, t: T, w: map<T, int>)
    requires WellFormed(f) && forall c | c in cs :: c in f.held
    ensures var r := InsertInto(f, cs, t, w);
      && WellFormed(r) && r.parent == f.parent && r.total.Keys == f.total.Keys
      && (forall c | c in f.held :: r.held[c] == if c in cs then f.held[c] + {t} else f.held[c])
      && (forall a | a in f.total :: Stale(r.total[a], t) <==> Stale(f.total[a], t))
  {
    hide WellFormed, Receive, Stale;
    if cs != [] {
      var front, c := cs[..|cs| - 1], cs[|cs| - 1];
      assert cs == front + [c];
      InsertIntoShape(f, front, t, w);
      InsertOneShape(InsertInto(f, front, t, w), c, t, w);
    }
  }

  /** Inserting one thread into one category: a count goes up with the holders unless a stale listing swallows it. */
  lemma InsertOneCount<C, T>(f: Forest<C, T>, c: C, t: T, w: map<T, int>, a: C, u: T)
    requires WellFormed(f) && c in f.held && a in f.total
    ensures a in Receive(f, c, t, w).total
    ensures var r := Receive(f, c, t, w);
      var more := |Holders(r.parent, r.held, a, u)| - |Holders(f.parent, f.held, a, u)|;
      && (u != t ==> more == 0)
      && CountOf(r.total[a].refs, u)
         == CountOf(f.total[a].refs, u) + if u == t && Stale(f.total[a], t) then 0 else more
  {
    if t in f.held[c] {
      InsertNothing(f, c, w);
    } else {
      hide Climb, Path, Acyclic;
      assert AsSet([t]) == {t};
      WalkCount(f.(held := f.held[c := f.held[c] + {t}]), Some(c), AddThreads([t]), w, a, u);
      HoldersAdded(f.parent, f.held, c, {t}, a, u);
    }
  }

  lemma CountInOrder<C, T>(f: Forest<C, T>, a: C, u: T)
    requires InOrder(f) && a in f.parent
    ensures WellFormed(f) && a in f.total && CountOf(f.total[a].refs, u) == |Holders(f.parent, f.held, a, u)|
    ensures Stale(f.total[a], u) ==> |Holders(f.parent, f.held, a, u)| == 0
  {
    CountingGivesExact(f, a, u);
  }

  /** Inserting one thread into several categories: every count is right, except where a listing without a count
      swallows it. */
  lemma {:induction false} InsertIntoCount<C, T>(f: Forest<C, T>, cs: seq<C>, t: T, w: map<T, int>, a: C, u: T)
    requires InOrder(f) && (forall c | c in cs :: c in f.held) && a in f.parent
    ensures a in InsertInto(f, cs, t, w).total
    ensures var r := InsertInto(f, cs, t, w);
      CountOf(r.total[a].refs, u)
      == if u == t && Stale(f.total[a], t) then 0 else |Holders(r.parent, r.held, a, u)|
  {
    hide InOrder, WellFormed, Receive, Stale, Holders, CountOf;
    CountInOrder(f, a, u);
    if cs != [] {
      var front, c := cs[..|cs| - 1], cs[|cs| - 1];
      assert cs == front + [c];
      var m := InsertInto(f, front, t, w);
      InsertIntoShape(f, front, t, w);
      assert Stale(m.total[a], t) <==> Stale(f.total[a], t);
      assert InsertInto(f, cs, t, w) == Receive(m, c, t, w);
      InsertIntoCount(f, front, t, w, a, u);
      InsertOneCount(m, c, t, w, a, u);
    }
  }

  /** Inserting one thread into several categories keeps every count exact if and only if no category above one
      that newly gets it lists it without a count. */
  lemma InsertIntoCounting<C, T>(f: Forest<C, T>, cs: seq<C>, t: T, w: map<T, int>)
    requires InOrder(f) && forall c | c in cs :: c in f.held
    ensures WellFormed(InsertInto(f, cs, t, w))
    ensures InOrder(InsertInto(f, cs, t, w)) <==> NoStaleAbove(f, AsSet(cs), t)
  {
    hide Climb, Path, Acyclic, InsertInto;
    InsertIntoShape(f, cs, t, w);
    var r := InsertInto(f, cs, t, w);
    if NoStaleAbove(f, AsSet(cs), t) {
      forall a, u | a in f.parent ensures Exact(r, a, u) {
        InsertIntoCount(f, cs, t, w, a, u);
        if u == t && Stale(f.total[a], t) {
          CountMapAt(f.parent, f.held, a, t);
          forall d | d in Holders(r.parent, r.held, a, t) ensures d in Holders(f.parent, f.held, a, t) {
          }
        }
      }
      ExactGivesCounting(r);
    } else {
      var c, a :| c in AsSet(cs) && c in f.held && t !in f.held[c] && a in Path(f.parent, c) && a in f.total
        && Stale(f.total[a], t);
      InsertIntoCount(f, cs, t, w, a, t);
      assert c in Holders(r.parent, r.held, a, t);
      if Counting(r) { CountingGivesExact(r, a, t); }
    }
  }

  lemma {:induction false} InsertIntoConsistent<C, T>(f: Forest<C, T>, cs: seq<C>, t: T, w: map<T, int>)
    requires Consistent(f) && forall c | c in cs :: c in f.held
    ensures var r := InsertInto(f, cs, t, w);
      Consistent(r) && r.parent == f.parent
      && forall c | c in f.held :: r.held[c] == if c in cs then f.held[c] + {t} else f.held[c]
  {
    hide Consistent;
    if cs != [] {
      var front, c := cs[..|cs| - 1], cs[|cs| - 1];
      assert cs == front + [c];
      InsertIntoConsistent(f, front, t, w);
      var m := InsertInto(f, front, t, w);
      if t in m.held[c] {
        InsertNothing(m, c, w);
        assert m.held[c] == m.held[c] + {t};
      } else {
        NextConsistent(m, Inserted(c, [t]), w);
      }
    }
  }

  lemma {:induction false} ReleaseFromConsistent<C, T>(f: Forest<C, T>, cs: seq<C>, t: T, w: map<T, int>)
    requires Consistent(f) && Distinct(cs) && forall c | c in cs :: c in f.held && t in f.held[c]
    ensures var r := ReleaseFrom(f, cs, t, w);
      Consistent(r) && r.parent == f.parent
      && forall c | c in f.held :: r.held[c] == if c in cs then f.held[c] - {t} else f.held[c]
  {
    hide Consistent;
    if cs != [] {
      var front, c := cs[..|cs| - 1], cs[|cs| - 1];
      assert cs == front + [c] && c !in front;
      ReleaseFromConsistent(f, front, t, w);
      NextConsistent(ReleaseFrom(f, front, t, w), Released(c, t), w);
    }
  }

  lemma {:induction false} SumForget<T>(w: map<T, int>, ts: set<T>, t: T)
    requires t !in ts
    ensures SumOver(w - {t}, ts) == SumOver(w, ts)
    decreases ts
  {
    if ts != {} {
      var u :| u in ts;
      SumRemove(w, ts, u);
      SumRemove(w - {t}, ts, u);
      SumForget(w, ts - {u}, t);
    }
  }

  /** A thread that no total lists has no say in the sums. */
  lemma UnlistedWeight<C, T>(f: Forest<C, T>, t: T, n: int, w: map<T, int>)
    requires Unlisted(f, t)
    ensures Drifts(f, w - {t}) == Drifts(f, w) && Drifts(f, w[t := n]) == Drifts(f, w)
  {
    forall a | a in f.total
      ensures Drift(f.total[a], w - {t}) == Drift(f.total[a], w) == Drift(f.total[a], w[t := n])
    {
      SumForget(w, f.total[a].byId, t);
      SumForget(w[t := n], f.total[a].byId, t);
      assert w[t := n] - {t} == w - {t};
    }
  }

  ghost function Drifts<C, T>(f: Forest<C, T>, w: map<T, int>): map<C, int> {
    map a | a in f.total :: Drift(f.total[a], w)
  }

  /** Every running message total is the sum over the threads listed with it. */
  ghost predicate AddsUp<C, T>(f: Forest<C, T>, w: map<T, int>) {
    forall a | a in f.total :: Drift(f.total[a], w) == 0
  }

  lemma WalkDrifts<C, T>(f: Forest<C, T>, c: Option<C>, change: Change<T>, w: map<T, int>)
    ensures Drifts(Walk(f, c, change, w), w) == Drifts(f, w)
  {
    forall a | a in f.total ensures Drift(Walk(f, c, change, w).total[a], w) == Drift(f.total[a], w) {
      ApplyKeepsDrift(f.total[a], change, w);
    }
  }

  lemma HeldDrifts<C, T>(f: Forest<C, T>, held: map<C, set<T>>, w: map<T, int>)
    ensures Drifts(f.(held := held), w) == Drifts(f, w)
  {
  }

  lemma InsertDrifts<C, T>(f: Forest<C, T>, c: C, ts: seq<T>, w: map<T, int>)
    requires c in f.held
    ensures Drifts(Insert(f, c, ts, w), w) == Drifts(f, w)
  {
    var held := f.held[c := f.held[c] + AsSet(ts)];
    HeldDrifts(f, held, w);
    WalkDrifts(f.(held := held), Some(c), AddThreads(ts), w);
  }

  lemma ReleaseDrifts<C, T>(f: Forest<C, T>, c: C, t: T, w: map<T, int>)
    requires c in f.held
    ensures Drifts(Release(f, c, t, w), w) == Drifts(f, w)
  {
    var held := f.held[c := f.held[c] - {t}];
    HeldDrifts(f, held, w);
    WalkDrifts(f.(held := held), Some(c), DecreaseThread(t), w);
  }

  lemma {:induction false} ReleaseEachDrifts<C, T>(f: Forest<C, T>, c: C, ts: seq<T>, w: map<T, int>)
    requires c in f.held
    ensures Drifts(ReleaseEach(f, c, ts, w), w) == Drifts(f, w)
  {
    if ts != [] {
      ReleaseEachDrifts(f, c, ts[..|ts| - 1], w);
      ReleaseDrifts(ReleaseEach(f, c, ts[..|ts| - 1], w), c, ts[|ts| - 1], w);
    }
  }

  lemma {:induction false} ReleaseFromDrifts<C, T>(f: Forest<C, T>, cs: seq<C>, t: T, w: map<T, int>)
    requires forall c | c in cs :: c in f.held
    ensures Drifts(ReleaseFrom(f, cs, t, w), w) == Drifts(f, w)
  {
    if cs != [] {
      ReleaseFromDrifts(f, cs[..|cs| - 1], t, w);
      ReleaseDrifts(ReleaseFrom(f, cs[..|cs| - 1], t, w), cs[|cs| - 1], t, w);
    }
  }

  lemma {:induction false} InsertIntoDrifts<C, T>(f: Forest<C, T>, cs: seq<C>, t: T, w: map<T, int>)
    requires forall c | c in cs :: c in f.held
    ensures Drifts(InsertInto(f, cs, t, w), w) == Drifts(f, w)
  {
    if cs != [] {
      var m, c := InsertInto(f, cs[..|cs| - 1], t, w), cs[|cs| - 1];
      InsertIntoDrifts(f, cs[..|cs| - 1], t, w);
      InsertDrifts(m, c, if t in m.held[c] then [] else [t], w);
    }
  }

  lemma {:induction false} DeleteFromDrifts<C, T>(f: Forest<C, T>, cs: seq<C>, t: T, w: map<T, int>)
    requires forall c | c in cs :: c in f.held
    ensures Drifts(DeleteFrom(f, cs, t, w), w) == Drifts(f, w)
  {
    if cs != [] {
      var m, c := DeleteFrom(f, cs[..|cs| - 1], t, w), cs[|cs| - 1];
      DeleteFromDrifts(f, cs[..|cs| - 1], t, w);
      HeldDrifts(m, m.held[c := m.held[c] - {t}], w);
      WalkDrifts(m.(held := m.held[c := m.held[c] - {t}]), Some(c), RemoveThread(t), w);
    }
  }

  lemma MoveDrifts<C, T>(f: Forest<C, T>, x: C, np: Option<C>, w: map<T, int>)
    requires x in f.parent && x in f.total
    ensures Drifts(Move(f, x, np, w), w) == Drifts(f, w)
  {
    var p := f.(parent := f.parent[x := np]);
    assert Drifts(p, w) == Drifts(f, w);
    WalkDrifts(p, f.parent[x], DecreaseTotals(f.total[x].refs), w);
    var h := Leave(f, x, np, w);
    WalkDrifts(h, np, AddTotals(h.total[x].refs), w);
  }

  /** Nothing that happens to the forest moves a running message total towards or away from its sum, and a new
      category starts with none. */
  lemma NextDrifts<C, T>(f: Forest<C, T>, e: Event<C, T>, w: map<T, int>)
    requires Possible(f, e)
    ensures Drifts(Next(f, e, w), w) == if e.Created? then Drifts(f, w)[e.c := 0] else Drifts(f, w)
  {
    match e
    case Created(c) =>
      assert NewRoot(f, c).total.Keys == f.total.Keys + {c};
    case Inserted(c, ts) => InsertDrifts(f, c, ts, w);
    case Released(c, t) => ReleaseDrifts(f, c, t, w);
    case Deleted(cs, t) => DeleteFromDrifts(f, cs, t, w);
    case Moved(x, np) => MoveDrifts(f, x, np, w);
  }

  /** Every event leaves the links free of cycles and the totals sound, whatever has happened before. */
  lemma NextShape<C, T>(f: Forest<C, T>, e: Event<C, T>, w: map<T, int>)
    requires WellFormed(f) && Possible(f, e)
    ensures WellFormed(Next(f, e, w))
  {
    match e
    case Created(c) => NewRootShape(f, c);
    case Inserted(c, ts) => InsertShape(f, c, ts, w);
    case Released(c, t) => ReleaseShape(f, c, t, w);
    case Deleted(cs, t) => DeleteFromShape(f, cs, t, w);
    case Moved(x, np) => MoveShape(f, x, np, w);
  }

  /** Root 0 with children 1 and 2, category 3 under 1 holding thread 7 of weight 5. */
  ghost function CommonAncestor(): (f: Forest<int, int>)
    ensures f.parent.Keys == f.held.Keys == f.total.Keys == {0, 1, 2, 3}
    ensures f.parent[0] == None && f.parent[1] == f.parent[2] == Some(0) && f.parent[3] == Some(1)
    ensures f.held[0] == f.held[1] == f.held[2] == {} && f.held[3] == {7}
    ensures f.total[0] == f.total[1] == f.total[3] == Totals({7}, map[7 := 1], 5) && f.total[2] == Totals({}, map[], 0)
  {
    Forest(map[0 := None, 1 := Some(0), 2 := Some(0), 3 := Some(1)],
           map[0 := {}, 1 := {}, 2 := {}, 3 := {7}],
           map[0 := Totals({7}, map[7 := 1], 5), 1 := Totals({7}, map[7 := 1], 5),
               2 := Totals({}, map[], 0), 3 := Totals({7}, map[7 := 1], 5)])
  }

  lemma CommonAncestorPaths()
    ensures var p := CommonAncestor().parent; var q := p[3 := Some(2)];
      && Acyclic(p) && Path(p, 0) == {0} && Path(p, 1) == {1, 0} && Path(p, 2) == {2, 0} && Path(p, 3) == {3, 1, 0}
      && 3 in Holders(q, CommonAncestor().held, 0, 7)
  {
    hide CommonAncestor;
    var p, held := CommonAncestor().parent, CommonAncestor().held;
    PathStep(p, 0);
    PathStep(p, 1);
    PathStep(p, 2);
    PathStep(p, 3);
    hide Climb, Path;
    assert Acyclic(p);
    MovedInside(p, 3, Some(2), 3);
  }

  lemma CommonAncestorConsistent()
    ensures Consistent(CommonAncestor())
  {
    hide CommonAncestor, Climb, Path, Acyclic;
    var f := CommonAncestor();
    CommonAncestorPaths();
    forall a | a in f.total ensures Sound(f.total[a]) && Clean(f.total[a]) {
      assert a == 0 || a == 1 || a == 2 || a == 3;
    }
    assert WellFormed(f);
    forall a, t | a in f.parent ensures Exact(f, a, t) {
      assert Holders(f.parent, f.held, a, t) == if a != 2 && t == 7 then {3} else {};
    }
    ExactGivesCounting(f);
  }

  lemma CommonAncestorAddsUp()
    ensures AddsUp(CommonAncestor(), map[7 := 5])
  {
    hide CommonAncestor;
    SumRemove<int>(map[7 := 5], {7}, 7);
    assert SumOver<int>(map[7 := 5], {}) == 0;
  }

  /** The unconditional claim is false of the code: moving 3 under 2 makes the root lose its only reference to 7,
      although 3 is still below it. */
  lemma MoveUnderCommonAncestorLosesCount()
    ensures var f, w: map<int, int> := CommonAncestor(), map[7 := 5];
      && Consistent(f) && AddsUp(f, w) && MayMove(f.parent, 3, Some(2)) && !InOrder(Move(f, 3, Some(2), w))
      && CountOf(Move(f, 3, Some(2), w).total[0].refs, 7) == 0
      && 3 in Holders(Move(f, 3, Some(2), w).parent, f.held, 0, 7)
  {
    hide CommonAncestor;
    var f, w: map<int, int> := CommonAncestor(), map[7 := 5];
    CommonAncestorPaths();
    CommonAncestorConsistent();
    CommonAncestorAddsUp();
    hide Climb, Path, Acyclic;
    assert MayMove(f.parent, 3, Some(2));
    LeaveCount(f, 3, Some(2), w, 0, 7);
    MovedPaths(f.parent, 3, Some(2));
    var h := Leave(f, 3, Some(2), w);
    LeaveShape(f, 3, Some(2), w);
    WalkCount(h, Some(2), AddTotals(f.total[3].refs), w, 0, 7);
    assert !MoveIsExactAt(f, 3, Some(2), 0, 7);
    MoveCounting(f, 3, Some(2), w);
  }
}
