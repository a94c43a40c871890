/** Merging one thread into another: messages change hands, the counts are told, and the emptied thread is deleted. */
module Merging {
  import opened Wrappers
  import opened ParentLinks
  import opened Sequences
  import opened ThreadTotals
  import opened CategoryForest
  import opened MessageRound
  import opened Discussion
  import opened Forum

  /** Everyone told that the first thread has `n` messages less and the second one `n` more. */
  ghost function Shifted<C, T>(f: Forest<C, T>, cs: seq<C>, from: T, ds: seq<C>, into: T, n: int): Forest<C, T> {
    BumpAll(BumpAll(f, cs, from, -n), ds, into, n)
  }

  /** Each running total loses one count for each update of the first thread that reaches it, although the thread and
      its messages are still listed there. */
  lemma ShiftDrift<C, T>(f: Forest<C, T>, cs: seq<C>, from: T, ds: seq<C>, into: T, n: int, w: map<T, int>, a: C)
    requires Distinct(cs) && Distinct(ds) && a in f.total
    ensures a in Shifted(f, cs, from, ds, into, n).total
    ensures Drift(Shifted(f, cs, from, ds, into, n).total[a], w[into := WeightOf(w, into) + n])
      == Drift(f.total[a], w)
         + n * (|Credits(f, ds, a, into)| - |Credits(f, cs, a, from)| - if into in f.total[a].byId then 1 else 0)
  {
    hide BumpAll, Credits, SumOver;
    var g := BumpAll(f, cs, from, -n);
    BumpAllShape(f, cs, from, -n);
    BumpAllEffect(f, cs, from, -n, a);
    var x, y := |Credits(f, ds, a, into)|, |Credits(f, cs, a, from)|;
    assert Drift(g.total[a], w) == Drift(f.total[a], w) + -n * y && g.total[a].byId == f.total[a].byId;
    hide Drift;
    RoundDrift(g, ds, into, n, w, a);
    SameCredits(f, g, ds, a, into);
    Distributed(n, x, y, into in f.total[a].byId);
  }

  lemma SameCredits<C, T>(f: Forest<C, T>, g: Forest<C, T>, cs: seq<C>, a: C, t: T)
    requires g.parent == f.parent && g.held == f.held
    ensures Credits(g, cs, a, t) == Credits(f, cs, a, t)
  {
  }

  lemma Distributed(n: int, x: int, y: int, listed: bool)
    ensures n * (x - y - if listed then 1 else 0) == -n * y + n * x - if listed then n else 0
  {
    if listed { assert n * (x - y - 1) == n * x - n * y - n; } else { assert n * (x - y) == n * x - n * y; }
  }

  /** The updates of the second thread make up for those of the first one everywhere. */
  ghost predicate Balanced<C, T>(f: Forest<C, T>, cs: seq<C>, from: T, ds: seq<C>, into: T) {
    forall a | a in f.total ::
      |Credits(f, ds, a, into)| == |Credits(f, cs, a, from)| + if into in f.total[a].byId then 1 else 0
  }

  /** Running totals that were the sums are the sums again if and only if there was nothing to merge or the updates
      balance. */
  lemma ShiftAddsUp<C, T>(f: Forest<C, T>, cs: seq<C>, from: T, ds: seq<C>, into: T, n: int, w: map<T, int>)
    requires AddsUp(f, w) && Distinct(cs) && Distinct(ds)
    ensures AddsUp(Shifted(f, cs, from, ds, into, n), w[into := WeightOf(w, into) + n])
      <==> n == 0 || Balanced(f, cs, from, ds, into)
  {
    hide Credits, Drift, BumpAll;
    BumpAllShape(f, cs, from, -n);
    BumpAllShape(BumpAll(f, cs, from, -n), ds, into, n);
    forall a | a in f.total
      ensures Drift(Shifted(f, cs, from, ds, into, n).total[a], w[into := WeightOf(w, into) + n]) == 0
        <==> n == 0 || |Credits(f, ds, a, into)| == |Credits(f, cs, a, from)| + if into in f.total[a].byId then 1 else 0
    {
      ShiftDrift(f, cs, from, ds, into, n, w, a);
      ZeroProduct(n, |Credits(f, ds, a, into)| - |Credits(f, cs, a, from)| - if into in f.total[a].byId then 1 else 0);
    }
  }

  lemma ZeroProduct(n: int, m: int)
    ensures n * m == 0 <==> n == 0 || m == 0
  {
  }

  /** Where a message posted to the second thread would be counted once everywhere, merging a thread that has messages
      keeps the running totals right only if no category holds that thread. */
  lemma MergeLosesMessages<C, T>(f: Forest<C, T>, cs: seq<C>, from: T, ds: seq<C>, into: T)
    requires WellFormed(f) && ListsHolders(f, cs, from) && CreditedOnce(f, ds, into)
    ensures Balanced(f, cs, from, ds, into) <==> cs == []
  {
    hide Credits, Acyclic;
    if cs == [] {
      forall a | a in f.total ensures Credits(f, cs, a, from) == {} { NoCredits(f, a, from); }
    } else {
      var c := cs[0];
      assert c in cs && c in f.total;
      HolderCreditedOnce(f, cs, from, c);
    }
  }

  lemma NoCredits<C, T>(f: Forest<C, T>, a: C, t: T)
    ensures Credits(f, [], a, t) == {}
  {
  }

  lemma ShiftedShape<C, T>(f: Forest<C, T>, cs: seq<C>, from: T, ds: seq<C>, into: T, n: int)
    requires WellFormed(f) && Distinct(cs) && Distinct(ds)
    ensures var g := Shifted(f, cs, from, ds, into, n);
      && WellFormed(g) && g.parent == f.parent && g.held == f.held
      && (InOrder(f) ==> InOrder(g)) && (Consistent(f) ==> Consistent(g))
  {
    hide BumpAll, WellFormed, Counting, AllClean;
    RoundKeepsCounts(f, cs, from, -n);
    RoundKeepsCounts(BumpAll(f, cs, from, -n), ds, into, n);
  }

  /** How a message count follows when the messages of one thread go over to another one. */
  ghost function CountMoved(count: int, ts: set<Thread>, from: Thread, into: Thread, n: int): int {
    count - (if from in ts then n else 0) + if into in ts then n else 0
  }

  lemma ThreadHolders(u: Universe, w: map<Thread, int>, thread: Thread)
    requires Linked(u, w) && thread in u.threads
    ensures thread.categories <= u.categories && thread.tags <= u.tags
    ensures forall c | c in u.categories :: c in thread.categories <==> thread in c.threads
    ensures forall g | g in u.tags :: g in thread.tags <==> thread in g.threads
  {
    ThreadReaches(u, w, thread);
    KnownAreInside(u, thread);
  }

  lemma Holders(u: Universe, f: Forest<Category, Thread>, cs: seq<Category>, thread: Thread)
    requires f.held == Held(u) && Distinct(cs) && AsSet(cs) == thread.categories && thread.categories <= u.categories
    requires forall c | c in u.categories :: c in thread.categories <==> thread in c.threads
    ensures ListsHolders<Category, Thread>(f, cs, thread)
    ensures forall c | c in u.categories :: c in cs <==> thread in c.threads
  {
    assert forall c | c in cs :: c in AsSet(cs);
    assert forall c | c in AsSet(cs) :: c in cs;
  }

  /** Tags and categories of the first thread are told, then those of the second one. */
  method TellBoth(threadFrom: Thread, threadInto: Thread, n: int, ghost start: Forest<Category, Thread>,
      ghost counts: map<Category, int>, ghost u: Universe, ghost w: map<Thread, int>)
      returns (ghost cs: seq<Category>, ghost ds: seq<Category>)
    requires Valid(u) && Acyclic<Category>(Links(u)) && w == Weights(u) && start == View(u)
      && counts == MessageCounts(u)
    requires threadFrom in u.threads && threadInto in u.threads
    requires threadFrom.categories <= u.categories && threadInto.categories <= u.categories
    modifies threadFrom.tags`messageCount, threadInto.tags`messageCount, u.categories`messageCount, TotalsOf(u)
    ensures Valid(u) && w == Weights(u) && counts.Keys == u.categories
    ensures View(u) == Shifted<Category, Thread>(start, cs, threadFrom, ds, threadInto, n)
    ensures Distinct(cs) && AsSet(cs) == threadFrom.categories && Distinct(ds) && AsSet(ds) == threadInto.categories
    ensures forall c | c in u.categories ::
      c.messageCount == counts[c] - (if c in cs then n else 0) + if c in ds then n else 0
    ensures forall g | g in threadFrom.tags + threadInto.tags ::
      g.messageCount
      == old(g.messageCount) - (if g in threadFrom.tags then n else 0) + if g in threadInto.tags then n else 0
  {
    hide Valid, Links, Held, TotalViews, Weights, Acyclic, WellFormed, Told, View, BumpAll, MessageCounts;
    cs := TellEveryone(threadFrom, -n, start, counts, u, w);
    ToldGives(u, w, start, counts, cs, threadFrom, -n);
    ghost var told: map<Category, int> := MessageCounts(u);
    MessageCountsAre(u);
    ds := TellEveryone(threadInto, n, View(u), told, u, w);
    ToldGives(u, w, BumpAll<Category, Thread>(start, cs, threadFrom, -n), told, ds, threadInto, n);
  }

  lemma MessageCountsAre(u: Universe)
    ensures MessageCounts(u).Keys == u.categories
    ensures forall c | c in u.categories :: MessageCounts(u)[c] == c.messageCount
  {
  }

  method TakeMessages(thread: Thread, n: int, ghost u: Universe, ghost w: map<Thread, int>)
    requires Valid(u) && Acyclic<Category>(Links(u)) && w == Weights(u) && thread in u.threads && thread in w
    modifies thread`messageCount
    ensures thread.messageCount == old(thread.messageCount) + n && w[thread := w[thread] + n] == Weights(u)
    ensures Valid(u) && Acyclic<Category>(Links(u)) && View(u) == old(View(u)) && Held(u) == old(Held(u))
    ensures MessageCounts(u) == old(MessageCounts(u))
  {
    hide Valid, Links, Held, TotalViews, Weights, Acyclic;
    thread.AddMessages(n, u);
  }

  lemma ShiftedIs(u: Universe, w: map<Thread, int>, start: Forest<Category, Thread>, cs: seq<Category>, from: Thread,
      ds: seq<Category>, into: Thread, n: int)
    requires Valid(u) && w == Weights(u) && WellFormed<Category, Thread>(start) && start.held == Held(u)
    requires View(u) == Shifted<Category, Thread>(start, cs, from, ds, into, n)
    requires Distinct(cs) && AsSet(cs) == from.categories && from.categories <= u.categories
    requires Distinct(ds) && AsSet(ds) == into.categories && into.categories <= u.categories
    requires forall c | c in u.categories :: c in from.categories <==> from in c.threads
    requires forall c | c in u.categories :: c in into.categories <==> into in c.threads
    ensures Forum.Sound(u, w) && ListsHolders<Category, Thread>(start, cs, from)
      && ListsHolders<Category, Thread>(start, ds, into)
    ensures forall c | c in u.categories :: (c in cs <==> from in c.threads) && (c in ds <==> into in c.threads)
  {
    hide Valid, Held, Weights, WellFormed, View, Shifted, ListsHolders;
    Holders(u, start, cs, from);
    Holders(u, start, ds, into);
    ShiftedShape<Category, Thread>(start, cs, from, ds, into, n);
  }

  /** The messages change hands: the second thread first, then the tags and categories of the first one, then those of
      the second one. */
  method ShiftMessages(threadFrom: Thread, threadInto: Thread, n: int, ghost start: Forest<Category, Thread>,
      ghost counts: map<Category, int>, ghost u: Universe, ghost w: map<Thread, int>)
      returns (ghost cs: seq<Category>, ghost ds: seq<Category>)
    requires Linked(u, w) && threadFrom in u.threads && threadInto in u.threads && threadInto in w
    requires start == View(u) && counts == MessageCounts(u)
    modifies threadInto`messageCount, threadFrom.tags`messageCount, threadInto.tags`messageCount
    modifies u.categories`messageCount, TotalsOf(u)
    ensures threadInto.messageCount == old(threadInto.messageCount) + n
    ensures Linked(u, w[threadInto := w[threadInto] + n])
    ensures ListsHolders<Category, Thread>(start, cs, threadFrom)
      && ListsHolders<Category, Thread>(start, ds, threadInto)
    ensures View(u) == Shifted<Category, Thread>(start, cs, threadFrom, ds, threadInto, n)
    ensures forall c | c in u.categories ::
      c.messageCount == CountMoved(old(c.messageCount), c.threads, threadFrom, threadInto, n)
    ensures forall g | g in u.tags ::
      g.messageCount == CountMoved(old(g.messageCount), g.threads, threadFrom, threadInto, n)
  {
    hide Valid, Links, Held, TotalViews, Weights, Acyclic, WellFormed, View, Shifted, ListsHolders, Forum.Sound;
    hide MessageCounts;
    hide TagsLinked, CategoriesLinked, AllBackLinked, HeldByTags, NoneLeaving;
    LinkedGives(u, w);
    ThreadHolders(u, w, threadFrom);
    ThreadHolders(u, w, threadInto);
    MessageCountsAre(u);
    ViewIs(u);
    TakeMessages(threadInto, n, u, w);
    ghost var after := w[threadInto := w[threadInto] + n];
    cs, ds := TellBoth(threadFrom, threadInto, n, start, counts, u, after);
    ShiftedIs(u, after, start, cs, threadFrom, ds, threadInto, n);
  }

  lemma ShiftedLists<C, T>(f: Forest<C, T>, cs: seq<C>, from: T, ds: seq<C>, into: T, n: int)
    requires Distinct(cs) && Distinct(ds)
    ensures var g := Shifted(f, cs, from, ds, into, n);
      && g.parent == f.parent && g.held == f.held && g.total.Keys == f.total.Keys
      && (forall a | a in f.total :: g.total[a].byId == f.total[a].byId && g.total[a].refs == f.total[a].refs)
  {
    hide BumpAll;
    RoundKeepsCounts(f, cs, from, -n);
    RoundKeepsCounts(BumpAll(f, cs, from, -n), ds, into, n);
  }

  lemma ShiftedHolders<C, T>(f: Forest<C, T>, cs: seq<C>, from: T, ds: seq<C>, into: T, n: int, t: T)
    requires Distinct(cs) && Distinct(ds)
    ensures ListedAboveHolders(Shifted(f, cs, from, ds, into, n), t) <==> ListedAboveHolders(f, t)
  {
    hide Shifted, Path;
    ShiftedLists(f, cs, from, ds, into, n);
  }

  /** What merging does to the totals: exact counts stay exact and forget the thread, consistency is kept, and running
      totals that were the sums are the sums again if and only if there was nothing to merge or the updates balance. */
  ghost predicate Merged(start: Forest<Category, Thread>, g: Forest<Category, Thread>, cs: seq<Category>, from: Thread,
      ds: seq<Category>, into: Thread, n: int, w: map<Thread, int>)
  {
    && ListsHolders<Category, Thread>(start, cs, from) && ListsHolders<Category, Thread>(start, ds, into)
    && (InOrder<Category, Thread>(start) ==> InOrder<Category, Thread>(g) && Forgotten(start, g, from))
    && (Consistent<Category, Thread>(start) ==> Consistent<Category, Thread>(g))
    && (AddsUp<Category, Thread>(start, w) ==>
          (AddsUp<Category, Thread>(g, w[into := WeightOf(w, into) + n])
           <==> n == 0 || Balanced<Category, Thread>(start, cs, from, ds, into)))
  }

  lemma ForgottenAlike(f: Forest<Category, Thread>, cs: seq<Category>, from: Thread, ds: seq<Category>, into: Thread,
      n: int, g: Forest<Category, Thread>)
    requires Distinct(cs) && Distinct(ds)
    requires Forgotten(Shifted<Category, Thread>(f, cs, from, ds, into, n), g, from)
    ensures Forgotten(f, g, from)
  {
    hide Shifted;
    ShiftedLists<Category, Thread>(f, cs, from, ds, into, n);
  }

  lemma DriftsAddUp<C, T>(f: Forest<C, T>, g: Forest<C, T>, w: map<T, int>)
    requires Drifts(g, w) == Drifts(f, w)
    ensures AddsUp(g, w) <==> AddsUp(f, w)
  {
    hide Drift;
    assert forall a | a in f.total :: a in Drifts(f, w) && Drifts(f, w)[a] == Drift(f.total[a], w);
    assert forall a | a in g.total :: a in Drifts(g, w) && Drifts(g, w)[a] == Drift(g.total[a], w);
    assert forall a :: a in f.total <==> a in g.total by {
      assert f.total.Keys == Drifts(f, w).Keys && g.total.Keys == Drifts(g, w).Keys;
    }
  }

  lemma MergedIs(start: Forest<Category, Thread>, g: Forest<Category, Thread>, cs: seq<Category>, from: Thread,
      ds: seq<Category>, into: Thread, n: int, w: map<Thread, int>)
    requires WellFormed<Category, Thread>(start)
    requires ListsHolders<Category, Thread>(start, cs, from) && ListsHolders<Category, Thread>(start, ds, into)
    requires var mid: Forest<Category, Thread> := Shifted<Category, Thread>(start, cs, from, ds, into, n);
      && Outcome(mid, g, w[into := WeightOf(w, into) + n], true, true)
      && (InOrder<Category, Thread>(mid) ==> Forgotten(mid, g, from))
    ensures Merged(start, g, cs, from, ds, into, n, w)
  {
    hide Shifted, InOrder, Consistent, AddsUp, Forgotten, WellFormed, Balanced, Drifts;
    HoldersAreDistinct(start, cs, from);
    HoldersAreDistinct(start, ds, into);
    hide ListsHolders;
    ShiftedShape<Category, Thread>(start, cs, from, ds, into, n);
    var mid: Forest<Category, Thread> := Shifted<Category, Thread>(start, cs, from, ds, into, n);
    if InOrder<Category, Thread>(start) { ForgottenAlike(start, cs, from, ds, into, n, g); }
    if AddsUp<Category, Thread>(start, w) {
      ShiftAddsUp<Category, Thread>(start, cs, from, ds, into, n, w);
      DriftsAddUp<Category, Thread>(mid, g, w[into := WeightOf(w, into) + n]);
    }
  }

  /** mergeDiscussionThreads: all references go on agreeing, and every tag and category has the messages of its threads
      as before; but a running total loses the merged messages twice, once when everyone is told and once when the
      thread is deleted with its messages still counted. */
  method MergeDiscussionThreads(threadFrom: Thread, threadInto: Thread, ghost u: Universe, ghost w: map<Thread, int>)
      returns (status: StatusCode, ghost cs: seq<Category>, ghost ds: seq<Category>)
    requires Linked(u, w) && threadFrom in u.threads && threadInto in u.threads
    modifies threadInto`messageCount, threadFrom.tags`messageCount, threadInto.tags`messageCount
    modifies threadFrom`aboutToBeDeleted, threadFrom`categories, threadFrom.tags`threads
    modifies u.categories`threads, u.categories`messageCount, TotalsOf(u)
    ensures threadFrom in w && threadInto in w && w[threadFrom] == old(threadFrom.messageCount)
    ensures status == if threadFrom == threadInto then NO_EFFECT else OK
    ensures status == NO_EFFECT ==>
      Linked(u, w) && View(u) == old(View(u)) && MessageCounts(u) == old(MessageCounts(u))
      && forall g | g in u.tags :: g.messageCount == old(g.messageCount) && g.threads == old(g.threads)
    ensures status == OK ==>
      && threadInto.messageCount == old(threadInto.messageCount) + w[threadFrom]
      && Related(Without(u, threadFrom))
      && Merged(old(View(u)), View(u), cs, threadFrom, ds, threadInto, w[threadFrom], w)
    ensures status == OK ==>
      (Linked(Without(u, threadFrom), w[threadInto := w[threadInto] + w[threadFrom]] - {threadFrom})
       <==> old(ListedAboveHolders<Category, Thread>(View(u), threadFrom)))
    ensures status == OK ==> forall c | c in u.categories ::
      && c.threads == old(c.threads) - {threadFrom}
      && c.messageCount == CountMoved(old(c.messageCount), old(c.threads), threadFrom, threadInto, w[threadFrom])
    ensures status == OK ==> forall g | g in u.tags ::
      && g.threads == old(g.threads) - {threadFrom}
      && g.messageCount == CountMoved(old(g.messageCount), old(g.threads), threadFrom, threadInto, w[threadFrom])
  {
    hide Linked, View, Outcome, Forgotten, InOrder, ListedAboveHolders, Related, Merged, MessageCounts, Shifted;
    LinkedGives(u, w);
    WeightAt(u, w, threadFrom);
    WeightAt(u, w, threadInto);
    if threadFrom == threadInto { return NO_EFFECT, [], []; }
    ghost var start: Forest<Category, Thread> := View(u);
    var n := threadFrom.messageCount;
    cs, ds := ShiftMessages(threadFrom, threadInto, n, start, MessageCounts(u), u, w);
    ghost var after := w[threadInto := w[threadInto] + n];
    HoldersAreDistinct(start, cs, threadFrom);
    HoldersAreDistinct(start, ds, threadInto);
    ShiftedHolders<Category, Thread>(start, cs, threadFrom, ds, threadInto, n, threadFrom);
    DeleteDiscussionThread(threadFrom, false, u, after);
    MergedIs(start, View(u), cs, threadFrom, ds, threadInto, n, w);
    status := OK;
  }

  /** Own message counts of tags and categories stay as far from the sums over their threads as they were. */
  lemma MovedExcess(w: map<Thread, int>, ts: set<Thread>, from: Thread, into: Thread, count: int)
    requires from != into && from in w && into in w
    ensures CountMoved(count, ts, from, into, w[from])
        - SumOver<Thread>(w[into := w[into] + w[from]], ts - {from})
      == count - SumOver<Thread>(w, ts)
  {
    var after := w[into := w[into] + w[from]];
    SumReweighted<Thread>(w, ts, into, w[from]);
    SumChanges(after, ts, from);
  }

  /** One category with threads 10 and 20, which have two and three messages. Once 10 is merged into 20, which then has
      all five, the running total is three. */
  lemma MergeMakesTotalWrong()
    ensures var f := Forest(map[1 := None], map[1 := {10, 20}], map[1 := Totals({10, 20}, map[10 := 1, 20 := 1], 5)]);
      var w := map[10 := 2, 20 := 3];
      var mid := Shifted(f, [1], 10, [1], 20, 2);
      && AddsUp(f, w) && 1 in mid.held
      && 1 in DeleteFrom(mid, [1], 10, w[20 := 5]).total
      && DeleteFrom(mid, [1], 10, w[20 := 5]).total[1] == Totals({20}, map[20 := 1], 3)
  {
    var f: Forest<int, int> :=
      Forest(map[1 := None], map[1 := {10, 20}], map[1 := Totals({10, 20}, map[10 := 1, 20 := 1], 5)]);
    var w: map<int, int> := map[10 := 2, 20 := 3];
    SumOfTwo(w, 10, 20);
    SumOfTwo(w[20 := 5], 10, 20);
    var g := BumpAll(f, [1], 10, -2);
    OneRound(f, 10, -2);
    OneRound(g, 20, 2);
    var mid := Shifted(f, [1], 10, [1], 20, 2);
    assert mid == f;
    hide Shifted, BumpAll;
    assert [1][..0] == [];
    assert DeleteFrom(mid, [], 10, w[20 := 5]) == mid;
    assert DeleteFrom(mid, [1], 10, w[20 := 5]) == Delete(mid, 1, 10, w[20 := 5]);
    assert Path(f.parent, 1) == {1};
  }

  lemma SumOfTwo(w: map<int, int>, a: int, b: int)
    requires a != b
    ensures SumOver(w, {a, b}) == WeightOf(w, a) + WeightOf(w, b)
  {
    SumRemove(w, {a, b}, a);
    assert {a, b} - {a} == {b};
    SumRemove(w, {b}, b);
    assert {b} - {b} == {};
  }

  /** A round over one category without a parent. */
  lemma OneRound(f: Forest<int, int>, t: int, delta: int)
    requires f.parent == map[1 := None] && f.held.Keys == f.total.Keys == {1} && t in f.held[1]
    ensures BumpAll(f, [1], t, delta)
      == f.(total := map[1 := f.total[1].(messages := f.total[1].messages + delta)])
  {
    assert [1][..0] == [];
    assert Path(f.parent, 1) == {1};
    BumpAllShape(f, [1], t, delta);
    BumpAllEffect(f, [1], t, delta, 1);
    assert Credits(f, [1], 1, t) == {1};
  }
}
