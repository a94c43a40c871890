/** Threads, tags and categories as linked objects that their methods update in place. */
module Discussion {
  import opened Wrappers
  import opened ParentLinks
  import opened Sequences
  import opened ThreadTotals
  import opened CategoryForest
  import opened MessageRound

  class Thread {
    var tags: set<Tag>
    var categories: set<Category>
    var messageCount: int
    var aboutToBeDeleted: bool

    constructor ()
      ensures tags == {} && categories == {} && messageCount == 0 && !aboutToBeDeleted
    {
      tags, categories, messageCount, aboutToBeDeleted := {}, {}, 0, false;
    }

    method AddTag(tag: Tag, ghost u: Universe)
      requires Valid(u) && this in u.threads && tag in u.tags
      modifies `tags
      ensures tags == old(tags) + {tag} && Valid(u) && Weights(u) == old(Weights(u))
      ensures Links(u) == old(Links(u)) && Held(u) == old(Held(u)) && TotalViews(u) == old(TotalViews(u))
    {
      hide Inside, OwnTotals, Links, Held, Weights;
      tags := tags + {tag};
      assert TotalViews(u) == old(TotalViews(u));
      hide TotalViews;
    }

    /** Messages come into the thread or leave it. */
    method AddMessages(delta: int, ghost u: Universe)
      requires Valid(u) && this in u.threads
      modifies `messageCount
      ensures messageCount == old(messageCount) + delta && Valid(u)
      ensures this in old(Weights(u)) && Weights(u) == old(Weights(u))[this := old(Weights(u))[this] + delta]
      ensures Links(u) == old(Links(u)) && Held(u) == old(Held(u)) && TotalViews(u) == old(TotalViews(u))
    {
      hide Inside, OwnTotals, Links, Held;
      messageCount := messageCount + delta;
      assert TotalViews(u) == old(TotalViews(u));
      hide TotalViews;
    }

    method SetAboutToBeDeleted(ghost u: Universe)
      requires Valid(u)
      modifies `aboutToBeDeleted
      ensures aboutToBeDeleted && Valid(u) && Weights(u) == old(Weights(u))
      ensures Links(u) == old(Links(u)) && Held(u) == old(Held(u)) && TotalViews(u) == old(TotalViews(u))
    {
      hide Inside, OwnTotals, Links, Held, Weights;
      aboutToBeDeleted := true;
      assert TotalViews(u) == old(TotalViews(u));
      hide TotalViews;
    }

    method RemoveTag(tag: Tag, ghost u: Universe)
      requires Valid(u) && this in u.threads
      modifies `tags
      ensures tags == old(tags) - {tag} && Valid(u) && Weights(u) == old(Weights(u))
      ensures Links(u) == old(Links(u)) && Held(u) == old(Held(u)) && TotalViews(u) == old(TotalViews(u))
    {
      hide Inside, OwnTotals, Links, Held, Weights;
      tags := tags - {tag};
      assert TotalViews(u) == old(TotalViews(u));
      hide TotalViews;
    }
  }

  /** The totals collection: threads listed by id, reference counts, running message count. */
  class TotalThreads {
    var byId: set<Thread>
    var referenceCount: map<Thread, int>
    var messageCount: int

    constructor ()
      ensures View() == Totals({}, map[], 0)
    {
      byId, referenceCount, messageCount := {}, map[], 0;
    }

    ghost function View(): Totals<Thread>
      reads this
    {
      Totals(byId, referenceCount, messageCount)
    }

    method Add(thread: Thread, amount: int, ghost w: map<Thread, int>) returns (isNew: bool)
      requires WeightOf(w, thread) == thread.messageCount
      modifies this
      ensures View() == ThreadTotals.Add(old(View()), thread, amount, w)
      ensures isNew == (thread !in old(byId) && thread !in old(referenceCount))
    {
      if thread !in referenceCount {
        if thread in byId { return false; }
        byId := byId + {thread};
        referenceCount := referenceCount[thread := amount];
        messageCount := messageCount + thread.messageCount;
        return true;
      }
      referenceCount := referenceCount[thread := referenceCount[thread] + amount];
      return false;
    }

    method AddEach(threads: seq<Thread>, ghost w: map<Thread, int>)
      requires forall t | t in threads :: WeightOf(w, t) == t.messageCount
      modifies this
      ensures View() == ThreadTotals.AddEach(old(View()), threads, w)
    {
      for i := 0 to |threads|
        invariant View() == ThreadTotals.AddEach(old(View()), threads[..i], w)
      {
        assert threads[..i + 1][..i] == threads[..i];
        var _ := Add(threads[i], 1, w);
      }
      assert threads[..|threads|] == threads;
    }

    method AddCounts(other: map<Thread, int>, ghost w: map<Thread, int>)
      requires forall t | t in other :: WeightOf(w, t) == t.messageCount
      modifies this
      ensures View() == ThreadTotals.AddCounts(old(View()), other, w)
    {
      var todo := other.Keys;
      ghost var done: map<Thread, int> := map[];
      AddNoCounts<Thread>(View(), w);
      while todo != {}
        invariant todo <= other.Keys && done == other - todo
        invariant View() == ThreadTotals.AddCounts(old(View()), done, w)
        decreases todo
      {
        var t :| t in todo;
        AddCountsStep<Thread>(old(View()), done, t, other[t], w);
        todo, done := todo - {t}, done[t := other[t]];
        var _ := Add(t, other[t], w);
      }
      assert done == other;
    }

    method Remove(thread: Thread, ghost w: map<Thread, int>) returns (removed: bool)
      requires WeightOf(w, thread) == thread.messageCount
      modifies this
      ensures View() == ThreadTotals.Remove(old(View()), thread, w)
      ensures removed == (thread in old(byId))
    {
      if thread !in byId { return false; }
      byId := byId - {thread};
      referenceCount := referenceCount - {thread};
      messageCount := messageCount - thread.messageCount;
      return true;
    }

    method DecreaseReferenceCount(thread: Thread, ghost w: map<Thread, int>)
      requires WeightOf(w, thread) == thread.messageCount
      modifies this
      ensures View() == Decrease(old(View()), thread, w)
    {
      if thread !in referenceCount { return; }
      var left := referenceCount[thread] - 1;
      referenceCount := referenceCount[thread := left];
      if left < 1 {
        referenceCount := referenceCount - {thread};
        assert referenceCount == old(referenceCount) - {thread};
        var _ := Remove(thread, w);
      }
    }

    method DecreaseReferenceCounts(other: map<Thread, int>)
      modifies this
      ensures View() == DecreaseCounts(old(View()), other)
    {
      var toRemove := {};
      var todo := other.Keys;
      while todo != {}
        invariant todo <= other.Keys
        invariant byId == old(byId) && messageCount == old(messageCount)
        invariant referenceCount.Keys == old(referenceCount).Keys
        invariant forall t | t in referenceCount ::
          referenceCount[t] == old(referenceCount)[t] - if t in other.Keys - todo then other[t] else 0
        invariant toRemove == set t | t in other.Keys - todo && t in referenceCount && referenceCount[t] < 1
        decreases todo
      {
        var t :| t in todo;
        todo := todo - {t};
        if t in referenceCount {
          referenceCount := referenceCount[t := referenceCount[t] - other[t]];
          if referenceCount[t] < 1 { toRemove := toRemove + {t}; }
        }
      }
      referenceCount := referenceCount - toRemove;
      assert View() == DecreaseCounts(old(View()), other);
    }

    method Change(change: Change<Thread>, ghost w: map<Thread, int>)
      requires forall t | t in ChangeThreads(change) :: WeightOf(w, t) == t.messageCount
      modifies this
      ensures View() == Apply(old(View()), change, w)
    {
      match change
      case AddThreads(ts) => AddEach(ts, w);
      case RemoveThread(t) => var _ := Remove(t, w);
      case DecreaseThread(t) => DecreaseReferenceCount(t, w);
      case AddTotals(other) => AddCounts(other, w);
      case DecreaseTotals(other) => DecreaseReferenceCounts(other);
    }
  }

  class Tag {
    var threads: set<Thread>
    var categories: set<Category>
    var messageCount: int

    constructor ()
      ensures threads == {} && categories == {} && messageCount == 0
    {
      threads, categories, messageCount := {}, {}, 0;
    }

    /** By how much the message count is off the sum over the threads. */
    ghost function Excess(w: map<Thread, int>): int
      reads `threads, `messageCount
    {
      messageCount - SumOver<Thread>(w, threads)
    }

    method UpdateMessageCount(delta: int, ghost u: Universe)
      requires Valid(u)
      modifies `messageCount
      ensures messageCount == old(messageCount) + delta && Valid(u) && Weights(u) == old(Weights(u))
      ensures Links(u) == old(Links(u)) && View(u) == old(View(u))
    {
      hide Inside, OwnTotals, Links, Held, Weights;
      messageCount := messageCount + delta;
      assert TotalViews(u) == old(TotalViews(u));
      hide TotalViews;
    }

    method SetCategories(newCategories: set<Category>, ghost u: Universe)
      requires Valid(u) && this in u.tags && newCategories <= u.categories
      modifies `categories
      ensures categories == newCategories && Valid(u) && Weights(u) == old(Weights(u))
      ensures Links(u) == old(Links(u)) && Held(u) == old(Held(u)) && TotalViews(u) == old(TotalViews(u))
    {
      hide Inside, OwnTotals, Links, Held, Weights;
      categories := newCategories;
      assert TotalViews(u) == old(TotalViews(u));
      hide TotalViews;
    }

    method SetThreads(newThreads: set<Thread>, delta: int, ghost u: Universe)
      requires Valid(u) && this in u.tags && newThreads <= u.threads
      modifies `threads, `messageCount
      ensures threads == newThreads && messageCount == old(messageCount) + delta
      ensures Valid(u) && Weights(u) == old(Weights(u))
      ensures Links(u) == old(Links(u)) && Held(u) == old(Held(u)) && TotalViews(u) == old(TotalViews(u))
    {
      hide Inside, OwnTotals, Links, Held, Weights;
      threads := newThreads;
      messageCount := messageCount + delta;
      assert TotalViews(u) == old(TotalViews(u));
      hide TotalViews;
    }

    /** Adds one thread to this tag and to every category that carries the tag. */
    method InsertDiscussionThread(thread: Thread, ghost u: Universe, ghost w: map<Thread, int>)
      returns (inserted: bool, ghost cs: seq<Category>)
      requires Valid(u) && Acyclic<Category>(Links(u)) && this in u.tags && thread in u.threads && w == Weights(u)
      requires BackLinked(u, thread)
      modifies `threads, `messageCount
      modifies u.categories`threads, u.categories`messageCount, thread`categories, TotalsOf(u)
      ensures inserted == (thread !in old(threads)) && threads == old(threads) + {thread}
      ensures messageCount == old(messageCount) + if inserted then WeightOf(w, thread) else 0
      ensures Distinct(cs) && AsSet(cs) == if inserted then categories else {}
      ensures Spread(u, w, old(View(u)), cs, thread) && InStep(u, w, thread, true, true, old(Excesses(u, w)))
    {
      hide Valid, Acyclic, Links, Held, TotalViews, Weights, BackLinked, Spread, InStep, Excesses;
      TagInside(u, w, this, thread);
      if thread in threads {
        NothingSpread(u, w, thread);
        return false, [];
      }
      cs := TakeIn(thread, View(u), Excesses(u, w), u, w);
      inserted := true;
    }

    /** The same for a thread that the tag does not have yet. */
    method TakeIn(thread: Thread, ghost start: Forest<Category, Thread>, ghost excess: map<Category, int>,
        ghost u: Universe, ghost w: map<Thread, int>) returns (ghost order: seq<Category>)
      requires Valid(u) && Acyclic<Category>(Links(u)) && this in u.tags && thread in u.threads && w == Weights(u)
      requires BackLinked(u, thread)
      requires threads <= u.threads && categories <= u.categories && start == View(u) && excess == Excesses(u, w)
      modifies `threads, `messageCount
      modifies u.categories`threads, u.categories`messageCount, thread`categories, TotalsOf(u)
      ensures threads == old(threads) + {thread} && messageCount == old(messageCount) + thread.messageCount
      ensures Distinct(order) && AsSet(order) == categories
      ensures Spread(u, w, start, order, thread) && InStep(u, w, thread, true, true, excess)
    {
      hide Valid, Acyclic, Links, Held, TotalViews, Weights, BackLinked, Spread, InStep, Excesses;
      SetThreads(threads + {thread}, thread.messageCount, u);
      NothingSpread(u, w, thread);
      order := InsertIntoCategories(thread, start, excess, u, w);
    }

    /** Takes one thread off this tag; its categories give it up if no other tag of theirs refers to it. */
    method DeleteDiscussionThread(thread: Thread, deleteMessages: bool, ghost u: Universe, ghost w: map<Thread, int>)
      returns (deleted: bool, ghost order: seq<Category>)
      requires Valid(u) && Acyclic<Category>(Links(u)) && this in u.tags && thread in u.threads && w == Weights(u)
      modifies `threads, `messageCount
      modifies u.categories`threads, u.categories`messageCount, thread`categories, TotalsOf(u)
      ensures deleted == (thread in old(threads)) && threads == old(threads) - {thread}
      ensures messageCount == old(messageCount) - if deleted && deleteMessages then WeightOf(w, thread) else 0
      ensures Distinct(order) && AsSet(order) == if deleted then categories else {}
      ensures GivenBack(u, w, old(View(u)), Missing<Category>(order, Referring(u, thread)), thread)
      ensures InStep(
        u, w, thread, old(BackLinked(u, thread)) && !thread.aboutToBeDeleted, deleteMessages,
        old(Excesses(u, Going(w, thread, deleteMessages))))
    {
      hide Valid, Acyclic, Links, Held, TotalViews, Weights, BackLinked, GivenBack, InStep, Excesses, Referring;
      TagInside(u, w, this, thread);
      ghost var linked := BackLinked(u, thread) && !thread.aboutToBeDeleted;
      if thread !in threads {
        NothingGivenBack(u, w, thread, linked, deleteMessages);
        return false, [];
      }
      ghost var excess: map<Category, int> := Excesses(u, Going(w, thread, deleteMessages));
      order := LetGo(thread, deleteMessages, View(u), Referring(u, thread), linked, excess, u, w);
      deleted := true;
    }

    /** The same for a thread that the tag has. */
    method LetGo(thread: Thread, deleteMessages: bool, ghost start: Forest<Category, Thread>,
        ghost referring: set<Category>, ghost linked: bool, ghost excess: map<Category, int>,
        ghost u: Universe, ghost w: map<Thread, int>) returns (ghost order: seq<Category>)
      requires Valid(u) && Acyclic<Category>(Links(u)) && this in u.tags && thread in u.threads && w == Weights(u)
      requires threads <= u.threads && categories <= u.categories && start == View(u)
      requires excess == Excesses(u, Going(w, thread, deleteMessages))
      requires referring == Referring(u, thread) && (linked ==> BackLinked(u, thread) && !thread.aboutToBeDeleted)
      modifies `threads, `messageCount
      modifies u.categories`threads, u.categories`messageCount, thread`categories, TotalsOf(u)
      ensures threads == old(threads) - {thread}
      ensures messageCount == old(messageCount) - if deleteMessages then thread.messageCount else 0
      ensures Distinct(order) && AsSet(order) == categories && referring == Referring(u, thread)
      ensures GivenBack(u, w, start, Missing<Category>(order, referring), thread)
      ensures InStep(u, w, thread, linked, deleteMessages, excess)
    {
      hide Valid, Acyclic, Links, Held, TotalViews, Weights, BackLinked, GivenBack, InStep, Excesses, Referring;
      SetThreads(threads - {thread}, if deleteMessages then -thread.messageCount else 0, u);
      NothingGivenBack(u, w, thread, linked, deleteMessages);
      order := ReleaseFromCategories(thread, deleteMessages, start, referring, linked, excess, u, w);
    }

    /** When every category of this tag still refers to the thread by it, only the tag itself lets go. */
    method Forget(thread: Thread, deleteMessages: bool, ghost start: Forest<Category, Thread>,
        ghost excess: map<Category, int>, ghost u: Universe, ghost w: map<Thread, int>)
      requires Unchanged(u, w, start, Going(w, thread, deleteMessages), excess) && this in u.tags && thread in u.threads
      requires forall c | c in categories :: c in Referring(u, thread)
      modifies `threads, `messageCount
      modifies u.categories`threads, u.categories`messageCount, thread`categories, TotalsOf(u)
      ensures Unchanged(u, w, start, Going(w, thread, deleteMessages), excess) && threads == old(threads) - {thread}
      ensures messageCount == old(messageCount)
        - if deleteMessages && thread in old(threads) then WeightOf(w, thread) else 0
      ensures deleteMessages ==> Excess(w) == old(Excess(w))
    {
      SumChanges(w, threads, thread);
      ghost var referring: set<Category> := Referring(u, thread);
      hide Valid, Acyclic, Links, Held, TotalViews, Weights, Excesses, BackLinked, GivenBack, InStep, Referring;
      var _, order := DeleteDiscussionThread(thread, deleteMessages, u, w);
      assert forall c | c in order :: c in AsSet(order);
      NothingMissing<Category>(order, referring);
      assert Referring(u, thread) == referring;
      NothingChanged(u, w, start, thread, deleteMessages, excess);
    }

    method InsertIntoCategories(thread: Thread, ghost start: Forest<Category, Thread>, ghost excess: map<Category, int>,
        ghost u: Universe, ghost w: map<Thread, int>) returns (ghost order: seq<Category>)
      requires categories <= u.categories && thread in u.threads
      requires Spread(u, w, start, [], thread) && InStep(u, w, thread, true, true, excess)
      modifies u.categories`threads, u.categories`messageCount, thread`categories, TotalsOf(u)
      ensures Distinct(order) && AsSet(order) == categories
      ensures Spread(u, w, start, order, thread) && InStep(u, w, thread, true, true, excess)
    {
      hide Spread, InStep;
      var cs := ListOf<Category>(categories);
      for i := 0 to |cs|
        invariant Spread(u, w, start, cs[..i], thread) && InStep(u, w, thread, true, true, excess)
      {
        assert cs[..i + 1] == cs[..i] + [cs[i]];
        assert cs[i] in cs;
        cs[i].InsertCounted(thread, start, cs[..i], excess, u, w);
      }
      assert cs[..|cs|] == cs;
      order := cs;
    }

    method ReleaseFromCategories(thread: Thread, deleteMessages: bool, ghost start: Forest<Category, Thread>,
        ghost referring: set<Category>, ghost linked: bool, ghost excess: map<Category, int>,
        ghost u: Universe, ghost w: map<Thread, int>) returns (ghost order: seq<Category>)
      requires categories <= u.categories && thread in u.threads && (linked ==> !thread.aboutToBeDeleted)
      requires GivenBack(u, w, start, [], thread) && InStep(u, w, thread, linked, deleteMessages, excess)
      requires referring == Referring(u, thread)
      modifies u.categories`threads, u.categories`messageCount, thread`categories, TotalsOf(u)
      ensures Distinct(order) && AsSet(order) == categories && referring == Referring(u, thread)
      ensures GivenBack(u, w, start, Missing<Category>(order, referring), thread)
      ensures InStep(u, w, thread, linked, deleteMessages, excess)
    {
      hide GivenBack, InStep, Referring;
      var cs := ListOf<Category>(categories);
      for i := 0 to |cs|
        invariant referring == Referring(u, thread)
        invariant GivenBack(u, w, start, Missing<Category>(cs[..i], referring), thread)
        invariant InStep(u, w, thread, linked, deleteMessages, excess)
      {
        assert cs[..i + 1][..i] == cs[..i];
        assert cs[i] in cs;
        cs[i].ReleaseCounted(
          thread, deleteMessages, start, Missing<Category>(cs[..i], referring), referring, linked, excess, u, w);
      }
      assert cs[..|cs|] == cs;
      order := cs;
    }
  }

  /** By how much each category's message count is off the sum over its direct threads. */
  ghost function Excesses(u: Universe, w: map<Thread, int>): map<Category, int>
    reads u.categories`threads, u.categories`messageCount
  {
    map c | c in u.categories :: c.Excess(w)
  }

  /** The messages that go with each thread when this one goes with its messages or without them. */
  ghost function Going(w: map<Thread, int>, thread: Thread, counted: bool): map<Thread, int> {
    if counted then w else w[thread := 0]
  }

  /** What a loop over categories keeps: the thread's back links and the categories' message counts are in step
      with the threads they hold. When the thread goes without its messages, the counts do not change with it. */
  ghost predicate InStep(
      u: Universe, w: map<Thread, int>, thread: Thread, linked: bool, counted: bool, excess: map<Category, int>)
    reads thread`categories, u.categories`threads, u.categories`messageCount
  {
    (linked ==> BackLinked(u, thread)) && Excesses(u, Going(w, thread, counted)) == excess
  }

  lemma ExcessesAre(u: Universe, w: map<Thread, int>)
    ensures Excesses(u, w).Keys == u.categories && forall c | c in u.categories :: Excesses(u, w)[c] == c.Excess(w)
  {
  }

  lemma ExcessesKept(u: Universe, w: map<Thread, int>, excess: map<Category, int>)
    requires excess.Keys == u.categories && forall c | c in u.categories :: excess[c] == c.Excess(w)
    ensures Excesses(u, w) == excess
  {
  }

  lemma SumChanges(w: map<Thread, int>, ts: set<Thread>, t: Thread)
    ensures SumOver<Thread>(w, ts + {t}) == SumOver<Thread>(w, ts) + if t in ts then 0 else WeightOf(w, t)
    ensures SumOver<Thread>(w, ts - {t}) == SumOver<Thread>(w, ts) - if t in ts then WeightOf(w, t) else 0
  {
    if t in ts {
      assert ts + {t} == ts;
      SumRemove<Thread>(w, ts, t);
    } else {
      assert ts - {t} == ts;
      SumAdd<Thread>(w, ts, t);
    }
  }

  /** The thread has been inserted into these categories of a valid forum, starting from `start`. */
  ghost predicate Spread(u: Universe, w: map<Thread, int>, start: Forest<Category, Thread>, cs: seq<Category>,
      thread: Thread)
    reads u.categories, u.tags, u.threads, TotalsOf(u)
  {
    && Valid(u) && Acyclic<Category>(Links(u)) && w == Weights(u) && Links(u) == start.parent
    && start.held.Keys == u.categories && (forall c | c in cs :: c in start.held)
    && View(u) == InsertInto<Category, Thread>(start, cs, thread, w)
  }

  /** These categories of a valid forum have given the thread up, starting from `start`. */
  ghost predicate GivenBack(
      u: Universe, w: map<Thread, int>, start: Forest<Category, Thread>, cs: seq<Category>, thread: Thread)
    reads u.categories, u.tags, u.threads, TotalsOf(u)
  {
    && Valid(u) && Acyclic<Category>(Links(u)) && w == Weights(u) && Links(u) == start.parent
    && start.held.Keys == u.categories && (forall c | c in cs :: c in start.held)
    && View(u) == ReleaseFrom<Category, Thread>(start, cs, thread, w)
  }

  /** These categories of a valid forum have dropped the thread, starting from `start`. */
  ghost predicate Dropped(u: Universe, w: map<Thread, int>, start: Forest<Category, Thread>, cs: seq<Category>,
      thread: Thread, counted: bool, excess: map<Category, int>)
    reads u.categories, u.tags, u.threads, TotalsOf(u)
  {
    && Valid(u) && Acyclic<Category>(Links(u)) && w == Weights(u) && Links(u) == start.parent
    && start.held.Keys == u.categories && (forall c | c in cs :: c in start.held)
    && View(u) == DeleteFrom<Category, Thread>(start, cs, thread, w)
    && Excesses(u, Going(w, thread, counted)) == excess
  }

  lemma ViewIs(u: Universe)
    ensures View(u).parent == Links(u) && View(u).held == Held(u) && View(u).total == TotalViews(u)
  {
  }

  lemma DroppedOn(u: Universe, w: map<Thread, int>, start: Forest<Category, Thread>, cs: seq<Category>, thread: Thread,
      c: Category, before: Forest<Category, Thread>, counted: bool, excess: map<Category, int>)
    requires Valid(u) && w == Weights(u) && start.held.Keys == u.categories && (forall d | d in cs :: d in start.held)
    requires Excesses(u, Going(w, thread, counted)) == excess
    requires c in u.categories && before == DeleteFrom<Category, Thread>(start, cs, thread, w)
    requires before.parent == start.parent && Acyclic<Category>(start.parent)
    requires View(u) == Delete<Category, Thread>(before, c, thread, w)
    ensures Dropped(u, w, start, cs + [c], thread, counted, excess)
  {
    hide Valid, Acyclic, Held, TotalViews, Weights, ApplyOn, Path;
    assert (cs + [c])[..|cs|] == cs;
  }

  lemma SpreadOn(u: Universe, w: map<Thread, int>, start: Forest<Category, Thread>, cs: seq<Category>, thread: Thread,
      c: Category, before: Forest<Category, Thread>)
    requires Valid(u) && w == Weights(u) && start.held.Keys == u.categories && (forall d | d in cs :: d in start.held)
    requires c in u.categories && before == InsertInto<Category, Thread>(start, cs, thread, w)
    requires before.parent == start.parent && Acyclic<Category>(start.parent)
    requires View(u) == Receive<Category, Thread>(before, c, thread, w)
    ensures Spread(u, w, start, cs + [c], thread)
  {
    hide Valid, Acyclic, Held, TotalViews, Weights, ApplyOn, Path;
    assert (cs + [c])[..|cs|] == cs;
  }

  lemma GivenBackOn(u: Universe, w: map<Thread, int>, start: Forest<Category, Thread>, cs: seq<Category>,
      thread: Thread, c: Category, before: Forest<Category, Thread>)
    requires Valid(u) && w == Weights(u) && start.held.Keys == u.categories && (forall d | d in cs :: d in start.held)
    requires c in u.categories && before == ReleaseFrom<Category, Thread>(start, cs, thread, w)
    requires before.parent == start.parent && Acyclic<Category>(start.parent)
    ensures View(u) == before ==> GivenBack(u, w, start, cs + [], thread)
    ensures View(u) == Release<Category, Thread>(before, c, thread, w) ==> GivenBack(u, w, start, cs + [c], thread)
  {
    hide Valid, Acyclic, Held, TotalViews, Weights, ApplyOn, Path;
    assert (cs + [c])[..|cs|] == cs && cs + [] == cs;
  }

  lemma LinkAt(u: Universe, category: Category)
    requires category in u.categories
    ensures category in Links(u) && Links(u)[category] == Optional(category.parent)
  {
  }

  lemma HeldAt(u: Universe, category: Category)
    requires category in u.categories
    ensures category in Held(u) && Held(u)[category] == category.threads
  {
  }

  lemma TagInside(u: Universe, w: map<Thread, int>, tag: Tag, thread: Thread)
    requires Valid(u) && tag in u.tags && thread in u.threads && w == Weights(u)
    ensures tag.threads <= u.threads && tag.categories <= u.categories && thread.messageCount == WeightOf(w, thread)
  {
  }

  lemma NothingSpread(u: Universe, w: map<Thread, int>, thread: Thread)
    requires Valid(u) && Acyclic<Category>(Links(u)) && w == Weights(u)
    ensures Spread(u, w, View(u), [], thread)
    ensures BackLinked(u, thread) ==> InStep(u, w, thread, true, true, Excesses(u, w))
  {
  }

  lemma NothingGivenBack(u: Universe, w: map<Thread, int>, thread: Thread, linked: bool, counted: bool)
    requires Valid(u) && Acyclic<Category>(Links(u)) && w == Weights(u) && (linked ==> BackLinked(u, thread))
    ensures GivenBack(u, w, View(u), [], thread)
    ensures InStep(u, w, thread, linked, counted, Excesses(u, Going(w, thread, counted)))
  {
  }

  /** A valid forum looks as it did, and its message counts are as far from these sums as they were. */
  ghost predicate Unchanged(u: Universe, w: map<Thread, int>, start: Forest<Category, Thread>, sums: map<Thread, int>,
      excess: map<Category, int>)
    reads u.categories, u.tags, u.threads, TotalsOf(u)
  {
    && Valid(u) && Acyclic<Category>(Links(u)) && w == Weights(u) && View(u) == start
    && Excesses(u, sums) == excess
  }

  lemma NothingChanged(u: Universe, w: map<Thread, int>, start: Forest<Category, Thread>, thread: Thread, counted: bool,
      excess: map<Category, int>)
    requires GivenBack(u, w, start, [], thread) && exists linked :: InStep(u, w, thread, linked, counted, excess)
    ensures Unchanged(u, w, start, Going(w, thread, counted), excess)
  {
  }

  /** The categories that refer to the thread by one of their tags. */
  ghost function Referring(u: Universe, thread: Thread): set<Category>
    reads thread`tags, u.categories`tags
  {
    set c | c in u.categories && !(thread.tags !! c.tags)
  }

  /** The categories a thread points back at are the ones that hold it directly. */
  ghost predicate BackLinked(u: Universe, thread: Thread)
    reads thread`categories, u.categories`threads
  {
    forall c | c in u.categories :: c in thread.categories <==> thread in c.threads
  }

  /** Every object of one forum. */
  datatype Universe = Universe(categories: set<Category>, tags: set<Tag>, threads: set<Thread>)

  ghost function TotalsOf(u: Universe): set<TotalThreads> {
    set c | c in u.categories :: c.totalThreads
  }

  /** No two categories share a totals collection. */
  ghost predicate OwnTotals(u: Universe) {
    forall c, d | c in u.categories && d in u.categories && c != d :: c.totalThreads != d.totalThreads
  }

  /** All references between categories, tags and threads stay inside the forum. */
  ghost predicate Closed(u: Universe)
    reads u.categories, u.tags, u.threads
  {
    && (forall c | c in u.categories :: c.parent != null ==> c.parent in u.categories)
    && (forall c | c in u.categories :: c.threads <= u.threads && c.tags <= u.tags)
    && (forall g | g in u.tags :: g.threads <= u.threads && g.categories <= u.categories)
    && (forall t | t in u.threads :: t.tags <= u.tags && t.categories <= u.categories)
  }

  ghost predicate Valid(u: Universe)
    reads u.categories, u.tags, u.threads, TotalsOf(u)
  {
    OwnTotals(u) && Closed(u) && Inside<Category, Thread>(TotalViews(u), u.threads)
  }

  ghost function Optional(c: Category?): Option<Category> {
    if c == null then None else Some(c)
  }

  ghost function Links(u: Universe): map<Category, Option<Category>>
    reads u.categories`parent
  {
    map c | c in u.categories :: Optional(c.parent)
  }

  ghost function Held(u: Universe): map<Category, set<Thread>>
    reads u.categories`threads
  {
    map c | c in u.categories :: c.threads
  }

  ghost function TotalViews(u: Universe): map<Category, Totals<Thread>>
    reads TotalsOf(u)
  {
    map c | c in u.categories :: c.totalThreads.View()
  }

  ghost function View(u: Universe): Forest<Category, Thread>
    reads u.categories`parent, u.categories`threads, TotalsOf(u)
  {
    Forest(Links(u), Held(u), TotalViews(u))
  }

  ghost function Weights(u: Universe): map<Thread, int>
    reads u.threads`messageCount
  {
    map t | t in u.threads :: t.messageCount
  }

  /** Moves the threads that are not held yet to the front of the caller's array. */
  method Compact(arr: array<Thread>, count: nat, held: set<Thread>) returns (n: nat)
    requires count <= arr.Length
    modifies arr
    ensures n <= count && arr[..n] == Missing<Thread>(old(arr[..count]), held)
    ensures arr[n..] == old(arr[n..])
  {
    n := 0;
    for i := 0 to count
      invariant n <= i
      invariant arr[..n] == Missing<Thread>(old(arr[..i]), held)
      invariant arr[n..] == old(arr[n..])
    {
      assert old(arr[..i + 1])[..i] == old(arr[..i]);
      assert arr[i] == arr[n..][i - n] == old(arr[i]);
      if arr[i] !in held {
        arr[n] := arr[i];
        n := n + 1;
      }
    }
  }

  /** One step of a walk: the totals of one category change, everything else stays. */
  method ApplyChange(category: Category, change: Change<Thread>, ghost u: Universe, ghost w: map<Thread, int>)
    requires OwnTotals(u) && category in u.categories && ChangeThreads(change) <= u.threads && w == Weights(u)
    modifies category.totalThreads
    ensures Links(u) == old(Links(u)) && Held(u) == old(Held(u)) && w == Weights(u)
    ensures TotalViews(u) == old(TotalViews(u))[category := Apply<Thread>(old(TotalViews(u))[category], change, w)]
  {
    category.totalThreads.Change(change, w);
  }

  /** Walks up the parent links from `first`, applying one change to every totals collection met. */
  method WalkUp(first: Category?, change: Change<Thread>, ghost u: Universe, ghost w: map<Thread, int>)
    requires OwnTotals(u) && Acyclic<Category>(Links(u)) && (first != null ==> first in u.categories)
    requires ChangeThreads(change) <= u.threads && w == Weights(u)
    modifies TotalsOf(u)
    ensures Links(u) == old(Links(u)) && Held(u) == old(Held(u)) && w == Weights(u)
    ensures TotalViews(u)
      == ApplyOn<Category, Thread>(old(TotalViews(u)), PathOpt<Category>(Links(u), Optional(first)), change, w)
  {
    assert TotalViews(u).Keys == u.categories;
    hide Climb, Path, Held, Weights, Apply;
    ghost var links: map<Category, Option<Category>> := Links(u);
    ghost var path: set<Category> := PathOpt<Category>(links, Optional(first));
    ghost var todo: set<Category> := path;
    ApplyNowhere<Category, Thread>(TotalViews(u), path - todo, change, w);
    hide OwnTotals, TotalViews, ApplyOn;
    var current := first;
    while current != null
      invariant current != null ==> current in u.categories
      invariant Links(u) == links && Held(u) == old(Held(u)) && w == Weights(u)
      invariant todo == PathOpt<Category>(links, Optional(current)) && todo <= path
      invariant TotalViews(u) == ApplyOn<Category, Thread>(old(TotalViews(u)), path - todo, change, w)
      decreases todo
    {
      var category: Category := current;
      assert links[category] == Optional(category.parent);
      WayStep<Category>(links, category);
      ApplyOnStep<Category, Thread>(old(TotalViews(u)), path, todo, category, change, w);
      ApplyChange(category, change, u, w);
      todo := todo - {category};
      current := category.parent;
    }
    assert path - todo == path;
  }

  method ExecuteOnCategoryAndAllParents(first: Category?, change: Change<Thread>, ghost u: Universe,
      ghost w: map<Thread, int>)
    requires Valid(u) && Acyclic<Category>(Links(u)) && (first != null ==> first in u.categories)
    requires ChangeThreads(change) <= u.threads && w == Weights(u)
    modifies TotalsOf(u)
    ensures Valid(u) && w == Weights(u)
    ensures View(u) == Walk<Category, Thread>(old(View(u)), Optional(first), change, w)
  {
    hide Climb, Path, Links, Held, Weights, Apply, ApplyOn, Inside;
    WalkUp(first, change, u, w);
    ApplyOnInside<Category, Thread>(old(TotalViews(u)), PathOpt<Category>(Links(u), Optional(first)), change, w,
      u.threads);
  }

  function TotalMessages(ts: seq<Thread>, w: map<Thread, int>): int {
    if ts == [] then 0 else TotalMessages(ts[..|ts| - 1], w) + WeightOf(w, ts[|ts| - 1])
  }

  /** The threads of a set that none of the given tags refers to. */
  ghost function Unreferenced(ts: set<Thread>, tags: set<Tag>): (r: set<Thread>)
    reads ts`tags
    ensures r <= ts
  {
    set t | t in ts && t.tags !! tags
  }

  class Category {
    var parent: Category?
    var threads: set<Thread>
    var tags: set<Tag>
    var messageCount: int
    const totalThreads: TotalThreads

    /** By how much the message count is off the sum over the direct threads. */
    ghost function Excess(w: map<Thread, int>): int
      reads `threads, `messageCount
    {
      messageCount - SumOver<Thread>(w, threads)
    }

    constructor ()
      ensures parent == null && threads == {} && tags == {} && messageCount == 0
      ensures fresh(totalThreads) && totalThreads.View() == Totals({}, map[], 0)
    {
      parent, threads, tags, messageCount := null, {}, {}, 0;
      totalThreads := new TotalThreads();
    }

    /** Counts the thread's messages here and points the thread back at this category. */
    method Link(thread: Thread, ghost u: Universe)
      requires Valid(u) && this in u.categories && thread in u.threads
      modifies `messageCount, thread`categories
      ensures messageCount == old(messageCount) + thread.messageCount
      ensures thread.categories == old(thread.categories) + {this}
      ensures Valid(u) && Weights(u) == old(Weights(u)) && Links(u) == old(Links(u))
      ensures Held(u) == old(Held(u)) && TotalViews(u) == old(TotalViews(u))
    {
      hide Inside, OwnTotals, Links, Held, Weights;
      messageCount := messageCount + thread.messageCount;
      thread.categories := thread.categories + {this};
      assert TotalViews(u) == old(TotalViews(u));
      hide TotalViews;
    }

    method LinkThreads(added: seq<Thread>, ghost u: Universe, ghost w: map<Thread, int>)
      requires Valid(u) && this in u.categories && (forall t | t in added :: t in u.threads) && w == Weights(u)
      modifies `messageCount, AsSet(added)`categories
      ensures messageCount == old(messageCount) + TotalMessages(added, w) && Valid(u) && w == Weights(u)
      ensures Links(u) == old(Links(u)) && Held(u) == old(Held(u)) && TotalViews(u) == old(TotalViews(u))
      ensures forall t | t in u.threads :: t.categories == old(t.categories) + if t in added then {this} else {}
    {
      hide Valid, Links, Held, TotalViews;
      for i := 0 to |added|
        invariant messageCount == old(messageCount) + TotalMessages(added[..i], w) && Valid(u) && w == Weights(u)
        invariant Links(u) == old(Links(u)) && Held(u) == old(Held(u)) && TotalViews(u) == old(TotalViews(u))
        invariant forall t | t in u.threads ::
          t.categories == old(t.categories) + if t in added[..i] then {this} else {}
      {
        assert added[..i + 1] == added[..i] + [added[i]];
        assert added[..i + 1][..i] == added[..i];
        assert WeightOf(w, added[i]) == added[i].messageCount;
        Link(added[i], u);
      }
      assert added[..|added|] == added;
    }

    method SetThreads(held: set<Thread>, ghost u: Universe)
      requires Valid(u) && this in u.categories && held <= u.threads
      modifies `threads
      ensures threads == held && Valid(u) && Weights(u) == old(Weights(u))
      ensures Links(u) == old(Links(u)) && TotalViews(u) == old(TotalViews(u)) && Held(u) == old(Held(u))[this := held]
    {
      threads := held;
      assert TotalViews(u) == old(TotalViews(u));
    }

    /** The threads become direct threads of this category; the totals are not touched yet. */
    method Adopt(added: seq<Thread>, ghost u: Universe, ghost w: map<Thread, int>)
      requires Valid(u) && this in u.categories && w == Weights(u)
      requires forall t | t in added :: t in u.threads
      modifies `threads, `messageCount, AsSet(added)`categories
      ensures Valid(u) && w == Weights(u) && Links(u) == old(Links(u)) && TotalViews(u) == old(TotalViews(u))
      ensures Held(u) == old(Held(u))[this := old(Held(u))[this] + AsSet(added)]
        && threads == old(threads) + AsSet(added)
      ensures messageCount == old(messageCount) + TotalMessages(added, w)
      ensures forall t | t in u.threads :: t.categories == old(t.categories) + if t in added then {this} else {}
    {
      hide Links, TotalViews, Weights, Inside, OwnTotals;
      assert Held(u)[this] == threads;
      hide Held;
      SetThreads(threads + AsSet(added), u);
      LinkThreads(added, u, w);
    }

    method InsertMissing(added: seq<Thread>, ghost u: Universe, ghost w: map<Thread, int>) returns (inserted: bool)
      requires Valid(u) && Acyclic<Category>(Links(u)) && this in u.categories && w == Weights(u)
      requires forall t | t in added :: t in u.threads
      modifies `threads, `messageCount, AsSet(added)`categories, TotalsOf(u)
      ensures Valid(u) && w == Weights(u) && inserted == (added != []) && threads == old(threads) + AsSet(added)
      ensures View(u) == Insert<Category, Thread>(old(View(u)), this, added, w)
      ensures messageCount == old(messageCount) + TotalMessages(added, w)
      ensures forall t | t in u.threads :: t.categories == old(t.categories) + if t in added then {this} else {}
    {
      hide Valid, Acyclic, Links, TotalViews, Weights, Path, ApplyOn;
      if |added| < 1 {
        InsertNothing<Category, Thread>(View(u), this, w);
        return false;
      }
      Adopt(added, u, w);
      ExecuteOnCategoryAndAllParents(this, AddThreads(added), u, w);
      return true;
    }

    /** Inserts the threads of the caller's array that are not held yet; they end up at its front. */
    method InsertDiscussionThreads(arr: array<Thread>, count: nat, ghost u: Universe, ghost w: map<Thread, int>)
      returns (inserted: bool, ghost added: seq<Thread>)
      requires Valid(u) && Acyclic<Category>(Links(u)) && this in u.categories && w == Weights(u)
      requires count <= arr.Length && forall i | 0 <= i < count :: arr[i] in u.threads
      modifies arr, `threads, `messageCount, u.threads`categories, TotalsOf(u)
      ensures Valid(u) && w == Weights(u)
      ensures added == Missing<Thread>(old(arr[..count]), old(threads)) && inserted == (added != [])
      ensures |added| <= count && arr[..|added|] == added && arr[|added|..] == old(arr[|added|..])
      ensures View(u) == Insert<Category, Thread>(old(View(u)), this, added, w)
      ensures messageCount == old(messageCount) + TotalMessages(added, w)
      ensures forall t | t in u.threads :: t.categories == old(t.categories) + if t in added then {this} else {}
    {
      hide Valid, Acyclic, Links, Held, TotalViews, Weights, Insert;
      ghost var before: Forest<Category, Thread> := View(u);
      var n := Compact(arr, count, threads);
      assert View(u) == before;
      added := arr[..n];
      MissingMembers(old(arr[..count]), threads);
      inserted := InsertMissing(arr[..n], u, w);
    }

    /** insertDiscussionThreads for a single thread. */
    method InsertOne(thread: Thread, ghost u: Universe, ghost w: map<Thread, int>)
      requires Valid(u) && Acyclic<Category>(Links(u)) && this in u.categories && thread in u.threads && w == Weights(u)
      modifies `threads, `messageCount, thread`categories, TotalsOf(u)
      ensures Valid(u) && w == Weights(u) && this in old(Held(u))
      ensures threads == old(threads) + {thread}
      ensures View(u) == Receive<Category, Thread>(old(View(u)), this, thread, w)
      ensures thread.categories == old(thread.categories) + if thread in old(threads) then {} else {this}
      ensures messageCount == old(messageCount) + if thread in old(threads) then 0 else WeightOf(w, thread)
    {
      hide Valid, Acyclic, Links, Held, TotalViews, Weights, Insert, TotalMessages, AsSet;
      HeldAt(u, this);
      SumOfOne(w, threads, thread);
      var _ := InsertMissing(if thread in threads then [] else [thread], u, w);
      assert thread in u.threads;
    }

    /** One round of a tag's loop over its categories. */
    method InsertStep(thread: Thread, ghost start: Forest<Category, Thread>, ghost cs: seq<Category>,
        ghost u: Universe, ghost w: map<Thread, int>)
      requires Spread(u, w, start, cs, thread) && this in u.categories && thread in u.threads
      modifies `threads, `messageCount, thread`categories, TotalsOf(u)
      ensures Spread(u, w, start, cs + [this], thread) && threads == old(threads) + {thread}
      ensures messageCount == old(messageCount) + if thread in old(threads) then 0 else WeightOf(w, thread)
      ensures thread.categories == old(thread.categories) + if thread in old(threads) then {} else {this}
    {
      ghost var before: Forest<Category, Thread> := View(u);
      hide Valid, Acyclic, Links, Held, TotalViews, Weights, Receive;
      assert before == InsertInto<Category, Thread>(start, cs, thread, w) && Acyclic<Category>(before.parent);
      hide InsertInto;
      InsertOne(thread, u, w);
      SpreadOn(u, w, start, cs, thread, this, before);
      hide Spread;
    }

    /** The same, seen on the message counts of all categories. */
    method InsertCounted(thread: Thread, ghost start: Forest<Category, Thread>, ghost cs: seq<Category>,
        ghost excess: map<Category, int>, ghost u: Universe, ghost w: map<Thread, int>)
      requires Spread(u, w, start, cs, thread) && this in u.categories && thread in u.threads
      requires InStep(u, w, thread, true, true, excess)
      modifies `threads, `messageCount, thread`categories, TotalsOf(u)
      ensures Spread(u, w, start, cs + [this], thread) && InStep(u, w, thread, true, true, excess)
    {
      hide Spread;
      ghost var before: map<Category, int> := Excesses(u, w);
      ExcessesAre(u, w);
      SumChanges(w, threads, thread);
      hide Excesses;
      InsertStep(thread, start, cs, u, w);
      assert Excesses(u, w) == before by {
        hide BackLinked;
        assert Excess(w) == before[this];
        ExcessesKept(u, w, before);
      }
    }

    /** The threads of a tag that this category does not hold yet, in some order. */
    method ThreadsToInsert(tag: Tag) returns (toInsert: seq<Thread>)
      ensures Distinct(toInsert) && AsSet(toInsert) == tag.threads - threads
    {
      toInsert := [];
      var todo := tag.threads;
      while todo != {}
        invariant todo <= tag.threads
        invariant Distinct(toInsert) && AsSet(toInsert) == tag.threads - todo - threads
        decreases todo
      {
        var t :| t in todo;
        todo := todo - {t};
        if t !in threads {
          assert t !in AsSet(toInsert) && AsSet(toInsert + [t]) == AsSet(toInsert) + {t};
          toInsert := toInsert + [t];
        }
      }
    }

    method InsertDiscussionThreadsOfTag(tag: Tag, ghost u: Universe, ghost w: map<Thread, int>)
      returns (inserted: bool, ghost added: seq<Thread>)
      requires Valid(u) && Acyclic<Category>(Links(u)) && this in u.categories && tag in u.tags && w == Weights(u)
      modifies `threads, `messageCount, u.threads`categories, TotalsOf(u)
      ensures Valid(u) && w == Weights(u)
      ensures Distinct(added) && AsSet(added) == tag.threads - old(threads) && inserted == (added != [])
      ensures threads == old(threads) + AsSet(added)
      ensures View(u) == Insert<Category, Thread>(old(View(u)), this, added, w)
      ensures messageCount == old(messageCount) + TotalMessages(added, w)
      ensures forall t | t in u.threads :: t.categories == old(t.categories) + if t in added then {this} else {}
    {
      var toInsert := ThreadsToInsert(tag);
      assert forall t | t in toInsert :: t in AsSet(toInsert);
      hide Acyclic, Links, Held, TotalViews, Weights, Insert;
      inserted := InsertMissing(toInsert, u, w);
      added := toInsert;
    }

    method AddMessages(delta: int, ghost u: Universe)
      requires Valid(u)
      modifies `messageCount
      ensures messageCount == old(messageCount) + delta && Valid(u) && Weights(u) == old(Weights(u))
      ensures Links(u) == old(Links(u)) && Held(u) == old(Held(u)) && TotalViews(u) == old(TotalViews(u))
    {
      hide Inside, OwnTotals, Links, Held, Weights;
      messageCount := messageCount + delta;
      assert TotalViews(u) == old(TotalViews(u));
      hide TotalViews;
    }

    /** Thread::removeCategory, unless the thread is about to go away as a whole. */
    method Unlink(thread: Thread, ghost u: Universe)
      requires Valid(u) && thread in u.threads
      modifies thread`categories
      ensures Valid(u) && Weights(u) == old(Weights(u)) && Links(u) == old(Links(u))
      ensures Held(u) == old(Held(u)) && TotalViews(u) == old(TotalViews(u))
      ensures thread.categories == old(thread.categories) - if thread.aboutToBeDeleted then {} else {this}
    {
      hide Inside, OwnTotals, Links, Held, Weights;
      if !thread.aboutToBeDeleted {
        thread.categories := thread.categories - {this};
      }
      assert TotalViews(u) == old(TotalViews(u));
      hide TotalViews;
    }

    /** Drops one thread, its messages if asked to, and its back link. */
    method Drop(thread: Thread, deleteMessages: bool, ghost u: Universe)
      requires Valid(u) && this in u.categories && thread in u.threads
      modifies `threads, `messageCount, thread`categories
      ensures Valid(u) && Weights(u) == old(Weights(u)) && Links(u) == old(Links(u))
        && TotalViews(u) == old(TotalViews(u))
      ensures Held(u) == old(Held(u))[this := old(Held(u))[this] - {thread}] && threads == old(threads) - {thread}
      ensures messageCount == old(messageCount) - if deleteMessages then thread.messageCount else 0
      ensures thread.categories == old(thread.categories) - if thread.aboutToBeDeleted then {} else {this}
    {
      assert Held(u)[this] == threads;
      SetThreads(threads - {thread}, u);
      hide Links, Held, TotalViews, Weights, Valid;
      AddMessages(if deleteMessages then -thread.messageCount else 0, u);
      Unlink(thread, u);
    }

    method DeleteDiscussionThread(thread: Thread, deleteMessages: bool, onlyThisCategory: bool, ghost u: Universe,
        ghost w: map<Thread, int>)
      returns (deleted: bool)
      requires Valid(u) && Acyclic<Category>(Links(u)) && this in u.categories && thread in u.threads && w == Weights(u)
      modifies `threads, `messageCount, thread`categories, TotalsOf(u)
      ensures Valid(u) && w == Weights(u) && deleted == (thread in old(threads)) && threads == old(threads) - {thread}
      ensures !deleted ==>
        && View(u) == old(View(u)) && messageCount == old(messageCount)
        && thread.categories == old(thread.categories)
      ensures !onlyThisCategory ==> View(u) == Delete<Category, Thread>(old(View(u)), this, thread, w)
      ensures onlyThisCategory ==> TotalViews(u) == old(TotalViews(u)) && Links(u) == old(Links(u))
      ensures onlyThisCategory ==> Held(u) == old(Held(u))[this := old(Held(u))[this] - {thread}]
      ensures deleted ==> messageCount == old(messageCount) - if deleteMessages then WeightOf(w, thread) else 0
      ensures deleted ==> thread.categories == old(thread.categories) - if thread.aboutToBeDeleted then {} else {this}
    {
      assert threads == Held(u)[this] && thread.messageCount == WeightOf(w, thread);
      if thread !in threads {
        assert Held(u)[this] - {thread} == Held(u)[this];
        return false;
      }
      hide Valid, Acyclic, Links, Held, TotalViews, Weights, ApplyOn;
      Drop(thread, deleteMessages, u);
      if !onlyThisCategory {
        ExecuteOnCategoryAndAllParents(this, RemoveThread(thread), u, w);
      }
      return true;
    }

    /** One round of the deletion of a thread from all categories. */
    method DropStep(thread: Thread, deleteMessages: bool, ghost start: Forest<Category, Thread>,
        ghost cs: seq<Category>, ghost excess: map<Category, int>, ghost u: Universe, ghost w: map<Thread, int>)
      requires Dropped(u, w, start, cs, thread, deleteMessages, excess) && this in u.categories && thread in u.threads
      modifies `threads, `messageCount, thread`categories, TotalsOf(u)
      ensures Dropped(u, w, start, cs + [this], thread, deleteMessages, excess)
    {
      hide Valid, Acyclic, Links, Held, TotalViews, Weights, Excesses, Delete, DeleteFrom, View;
      ghost var before: Forest<Category, Thread> := View(u);
      ViewIs(u);
      ghost var sums: map<Thread, int> := Going(w, thread, deleteMessages);
      ExcessesAre(u, sums);
      SumChanges(sums, threads, thread);
      var _ := DeleteDiscussionThread(thread, deleteMessages, false, u, w);
      assert Excess(sums) == excess[this];
      ExcessesKept(u, sums, excess);
      DroppedOn(u, w, start, cs, thread, this, before, deleteMessages, excess);
    }

    method ReferencedByOwnTag(thread: Thread) returns (referenced: bool)
      ensures referenced == !(thread.tags !! tags)
    {
      var todo := thread.tags;
      while todo != {}
        invariant todo <= thread.tags && (thread.tags - todo) !! tags
        decreases todo
      {
        var tag :| tag in todo;
        if tag in tags { return true; }
        todo := todo - {tag};
      }
      return false;
    }

    method DeleteDiscussionThreadIfNoOtherTagsReferenceIt(thread: Thread, deleteMessages: bool, ghost u: Universe,
        ghost w: map<Thread, int>)
      requires Valid(u) && Acyclic<Category>(Links(u)) && this in u.categories && thread in u.threads && w == Weights(u)
      modifies `threads, `messageCount, thread`categories, TotalsOf(u)
      ensures Valid(u) && w == Weights(u)
      ensures View(u)
        == if thread.tags !! tags then Release<Category, Thread>(old(View(u)), this, thread, w) else old(View(u))
      ensures messageCount == old(messageCount)
        - if thread.tags !! tags && thread in old(threads) && deleteMessages then WeightOf(w, thread) else 0
      ensures thread.categories == old(thread.categories)
        - if thread.tags !! tags && thread in old(threads) && !thread.aboutToBeDeleted then {this} else {}
      ensures threads == old(threads) - if thread.tags !! tags then {thread} else {}
    {
      hide Path, Valid, Acyclic, Links, Held, TotalViews, Weights, ApplyOn;
      var referenced := ReferencedByOwnTag(thread);
      if !referenced {
        var _ := DeleteDiscussionThread(thread, deleteMessages, true, u, w);
        ExecuteOnCategoryAndAllParents(this, DecreaseThread(thread), u, w);
      }
    }

    method SetTags(newTags: set<Tag>, ghost u: Universe)
      requires Valid(u) && this in u.categories && newTags <= u.tags
      modifies `tags
      ensures tags == newTags && Valid(u) && Weights(u) == old(Weights(u))
      ensures Links(u) == old(Links(u)) && Held(u) == old(Held(u)) && TotalViews(u) == old(TotalViews(u))
    {
      hide Inside, OwnTotals, Links, Held, Weights;
      tags := newTags;
      assert TotalViews(u) == old(TotalViews(u));
      hide TotalViews;
    }

    method SetParent(newParent: Category?, ghost u: Universe)
      requires Valid(u) && this in u.categories && (newParent != null ==> newParent in u.categories)
      modifies `parent
      ensures parent == newParent && Valid(u) && Weights(u) == old(Weights(u))
      ensures Links(u) == old(Links(u))[this := Optional(newParent)]
      ensures Held(u) == old(Held(u)) && TotalViews(u) == old(TotalViews(u))
    {
      hide Inside, OwnTotals, Held, Weights;
      parent := newParent;
      assert TotalViews(u) == old(TotalViews(u));
      hide TotalViews;
    }

    method AddTag(tag: Tag, ghost u: Universe, ghost w: map<Thread, int>)
        returns (isNew: bool, ghost added: seq<Thread>)
      requires Valid(u) && Acyclic<Category>(Links(u)) && this in u.categories && tag in u.tags && w == Weights(u)
      modifies `tags, `threads, `messageCount, u.threads`categories, TotalsOf(u)
      ensures Valid(u) && w == Weights(u) && isNew == (tag !in old(tags)) && tags == old(tags) + {tag}
      ensures Distinct(added) && AsSet(added) == (if isNew then tag.threads - old(threads) else {})
      ensures threads == old(threads) + AsSet(added)
      ensures View(u) == Insert<Category, Thread>(old(View(u)), this, added, w)
      ensures messageCount == old(messageCount) + TotalMessages(added, w)
      ensures forall t | t in u.threads :: t.categories == old(t.categories) + if t in added then {this} else {}
    {
      if tag in tags {
        InsertNothing<Category, Thread>(View(u), this, w);
        return false, [];
      }
      hide Acyclic, Links, Held, TotalViews, Weights, Insert;
      SetTags(tags + {tag}, u);
      var _, ts := InsertDiscussionThreadsOfTag(tag, u, w);
      isNew, added := true, ts;
    }

    /** One round of the loop below: `released` gains the thread if no tag of this category refers to it. */
    method ReleaseStep(thread: Thread, ghost start: Forest<Category, Thread>, ghost released: seq<Thread>,
        ghost u: Universe, ghost w: map<Thread, int>) returns (ghost now: seq<Thread>)
      requires Valid(u) && Acyclic<Category>(Links(u)) && this in u.categories && w == Weights(u)
      requires thread in u.threads && thread in threads && this in start.held
      requires View(u) == ReleaseEach<Category, Thread>(start, this, released, w)
      modifies `threads, `messageCount, thread`categories, TotalsOf(u)
      ensures now == released + if thread.tags !! tags then [thread] else []
      ensures Valid(u) && Links(u) == old(Links(u)) && w == Weights(u) && old(threads) - {thread} <= threads
      ensures View(u) == ReleaseEach<Category, Thread>(start, this, now, w)
      ensures messageCount + TotalMessages(now, w) == old(messageCount) + TotalMessages(released, w)
      ensures thread.categories == old(thread.categories)
        - if thread.tags !! tags && !thread.aboutToBeDeleted then {this} else {}
    {
      hide Valid, Acyclic, Held, Links, TotalViews, Weights, ApplyOn, Path;
      DeleteDiscussionThreadIfNoOtherTagsReferenceIt(thread, true, u, w);
      now := released + if thread.tags !! tags then [thread] else [];
      if thread.tags !! tags {
        assert now[..|now| - 1] == released;
      } else {
        assert now == released;
      }
    }

    /** One round of a tag's loop over its categories when a thread leaves it. */
    method ReleaseFromStep(thread: Thread, deleteMessages: bool, ghost start: Forest<Category, Thread>,
        ghost cs: seq<Category>, ghost u: Universe, ghost w: map<Thread, int>)
      requires GivenBack(u, w, start, cs, thread) && this in u.categories && thread in u.threads
      modifies `threads, `messageCount, thread`categories, TotalsOf(u)
      ensures GivenBack(u, w, start, cs + if this in Referring(u, thread) then [] else [this], thread)
      ensures threads == old(threads) - if thread.tags !! tags then {thread} else {}
      ensures messageCount == old(messageCount)
        - if thread.tags !! tags && thread in old(threads) && deleteMessages then WeightOf(w, thread) else 0
      ensures thread.categories == old(thread.categories)
        - if thread.tags !! tags && thread in old(threads) && !thread.aboutToBeDeleted then {this} else {}
    {
      ghost var before: Forest<Category, Thread> := View(u);
      hide Valid, Acyclic, Links, Held, TotalViews, Weights, Release;
      assert before == ReleaseFrom<Category, Thread>(start, cs, thread, w) && Acyclic<Category>(before.parent);
      hide ReleaseFrom;
      DeleteDiscussionThreadIfNoOtherTagsReferenceIt(thread, deleteMessages, u, w);
      GivenBackOn(u, w, start, cs, thread, this, before);
      hide GivenBack;
    }

    /** The same, seen on the message counts of all categories. */
    method ReleaseCounted(thread: Thread, deleteMessages: bool, ghost start: Forest<Category, Thread>,
        ghost cs: seq<Category>, ghost referring: set<Category>, ghost linked: bool, ghost excess: map<Category, int>,
        ghost u: Universe, ghost w: map<Thread, int>)
      requires referring == Referring(u, thread)
      requires GivenBack(u, w, start, cs, thread) && this in u.categories && thread in u.threads
      requires InStep(u, w, thread, linked, deleteMessages, excess) && (linked ==> !thread.aboutToBeDeleted)
      modifies `threads, `messageCount, thread`categories, TotalsOf(u)
      ensures GivenBack(u, w, start, cs + if this in referring then [] else [this], thread)
      ensures referring == Referring(u, thread)
      ensures InStep(u, w, thread, linked, deleteMessages, excess)
    {
      hide GivenBack;
      ghost var sums: map<Thread, int> := Going(w, thread, deleteMessages);
      ghost var before: map<Category, int> := Excesses(u, sums);
      ExcessesAre(u, sums);
      SumChanges(sums, threads, thread);
      assert threads - {} == threads;
      hide Excesses, Referring;
      ReleaseFromStep(thread, deleteMessages, start, cs, u, w);
      assert Excesses(u, sums) == before by {
        hide BackLinked;
        assert Excess(sums) == before[this];
        ExcessesKept(u, sums, before);
      }
    }

    /** Takes a tag off this category; the threads no other tag of it refers to are given up one by one. */
    method RemoveTag(tag: Tag, ghost u: Universe, ghost w: map<Thread, int>)
        returns (removed: bool, ghost released: seq<Thread>)
      requires Valid(u) && Acyclic<Category>(Links(u)) && this in u.categories && tag in u.tags && w == Weights(u)
      requires tag in tags ==> tag.threads <= threads
      modifies `tags, `threads, `messageCount, u.threads`categories, TotalsOf(u)
      ensures Valid(u) && w == Weights(u) && removed == (tag in old(tags)) && tags == old(tags) - {tag}
      ensures Distinct(released) && AsSet(released) == if removed then Unreferenced(tag.threads, tags) else {}
      ensures View(u) == ReleaseEach<Category, Thread>(old(View(u)), this, released, w)
      ensures messageCount == old(messageCount) - TotalMessages(released, w)
      ensures forall t | t in u.threads ::
        t.categories == old(t.categories) - if t in AsSet(released) && !t.aboutToBeDeleted then {this} else {}
    {
      if tag !in tags { return false, []; }
      SetTags(tags - {tag}, u);
      assert View(u) == old(View(u));
      assert tag.threads <= u.threads && this in Held(u);
      hide Valid, Acyclic, Held, Links, TotalViews, Weights, ReleaseEach;
      removed := true;
      released := ReleaseThreads(tag.threads, u, w);
    }

    method ReleaseThreads(ts: set<Thread>, ghost u: Universe, ghost w: map<Thread, int>)
        returns (ghost released: seq<Thread>)
      requires Valid(u) && Acyclic<Category>(Links(u)) && this in u.categories && w == Weights(u)
      requires ts <= threads && ts <= u.threads && this in View(u).held
      modifies `threads, `messageCount, u.threads`categories, TotalsOf(u)
      ensures Valid(u) && w == Weights(u)
      ensures Distinct(released) && AsSet(released) == Unreferenced(ts, tags)
      ensures View(u) == ReleaseEach<Category, Thread>(old(View(u)), this, released, w)
      ensures messageCount == old(messageCount) - TotalMessages(released, w)
      ensures forall t | t in u.threads ::
        t.categories == old(t.categories) - if t in AsSet(released) && !t.aboutToBeDeleted then {this} else {}
    {
      hide Valid, Acyclic, Held, Links, TotalViews, Weights, ReleaseEach, TotalMessages, Unreferenced;
      NothingReleased(View(u), this, w, tags);
      released := [];
      var todo := ts;
      assert ts - todo == {};
      while todo != {}
        invariant Valid(u) && Links(u) == old(Links(u)) && w == Weights(u)
        invariant todo <= ts && todo <= threads
        invariant Distinct(released) && AsSet(released) == Unreferenced(ts - todo, tags)
        invariant View(u) == ReleaseEach<Category, Thread>(old(View(u)), this, released, w)
        invariant messageCount == old(messageCount) - TotalMessages(released, w)
        invariant forall t | t in u.threads ::
          t.categories == old(t.categories) - if t in AsSet(released) && !t.aboutToBeDeleted then {this} else {}
        decreases todo
      {
        var t :| t in todo;
        UnreferencedStep(ts, todo, t, tags);
        assert t !in AsSet(released);
        AppendedSet(released, t);
        released := ReleaseStep(t, old(View(u)), released, u, w);
        todo := todo - {t};
      }
      assert ts - todo == ts;
    }

    method AddTotalMessages(delta: int, ghost u: Universe)
      requires OwnTotals(u) && this in u.categories
      modifies totalThreads
      ensures Links(u) == old(Links(u)) && Held(u) == old(Held(u)) && Weights(u) == old(Weights(u))
      ensures TotalViews(u) == Raise<Category, Thread>(old(TotalViews(u)), this, delta)
    {
      totalThreads.messageCount := totalThreads.messageCount + delta;
    }

    /** The direct count and the own total always change; ancestors' totals up to the nearest direct holder. */
    method UpdateMessageCount(thread: Thread, delta: int, ghost u: Universe)
      requires Valid(u) && Acyclic<Category>(Links(u)) && this in u.categories
      modifies `messageCount, TotalsOf(u)
      ensures Valid(u) && messageCount == old(messageCount) + delta && Weights(u) == old(Weights(u))
      ensures View(u) == Bump<Category, Thread>(old(View(u)), this, thread, delta)
    {
      AddMessages(delta, u);
      UpdateTotals(thread, delta, u);
      BumpInside<Category, Thread>(old(View(u)), this, thread, delta, u.threads);
    }

    method UpdateTotals(thread: Thread, delta: int, ghost u: Universe)
      requires OwnTotals(u) && Acyclic<Category>(Links(u)) && this in u.categories
      modifies TotalsOf(u)
      ensures Weights(u) == old(Weights(u)) && View(u) == Bump<Category, Thread>(old(View(u)), this, thread, delta)
    {
      ghost var links: map<Category, Option<Category>>, held: map<Category, set<Thread>> := Links(u), Held(u);
      ghost var start: map<Category, Totals<Thread>> := TotalViews(u);
      ghost var reached: set<Category>, passed: set<Category> := {this}, {};
      WayBegin<Category, Thread>(links, held, this, thread);
      BumpOnFirst<Category, Thread>(start, this, delta);
      assert start.Keys == u.categories;
      hide TotalViews, Weights, ReachedSoFar, Credited, Path, Climb, Raise, OnTheWay, Blocked;
      hide Links;
      AddTotalMessages(delta, u);
      var stop := false;
      var current := parent;
      while current != null
        invariant current != null ==> current in u.categories
        invariant Links(u) == links && Held(u) == held && Weights(u) == old(Weights(u))
        invariant OnTheWay<Category>(links, this, passed, Optional(current))
        invariant reached == ReachedSoFar<Category, Thread>(links, held, this, thread, passed)
        invariant stop == Blocked<Category, Thread>(held, passed, thread)
        invariant TotalViews(u) == BumpOn<Category, Thread>(start, reached, delta)
        decreases PathOpt<Category>(links, Optional(current))
      {
        var category: Category := current;
        LinkAt(u, category);
        assert held[category] == category.threads;
        WayOn<Category, Thread>(links, held, this, thread, passed, category);
        if !stop && thread in category.threads {
          stop := true;
        }
        if !stop {
          BumpOnStep<Category, Thread>(start, reached, category, delta);
          category.AddTotalMessages(delta, u);
          reached := reached + {category};
        }
        passed := passed + {category};
        current := category.parent;
      }
      WayDone<Category, Thread>(links, held, this, thread, passed);
    }

    method HasAncestor(ancestor: Category, ghost u: Universe) returns (found: bool)
      requires Valid(u) && Acyclic<Category>(Links(u)) && this in u.categories
      ensures found <==> ancestor in PathOpt<Category>(Links(u), Optional(parent))
    {
      ghost var links: map<Category, Option<Category>> := Links(u);
      var current := parent;
      while current != null
        invariant current != null ==> current in u.categories
        invariant ancestor in PathOpt<Category>(links, Optional(parent))
          <==> ancestor in PathOpt<Category>(links, Optional(current))
        decreases PathOpt<Category>(links, Optional(current))
      {
        if current == ancestor {
          WayStep<Category>(links, ancestor);
          return true;
        }
        var category: Category := current;
        assert links[category] == Optional(category.parent);
        WayStep<Category>(links, category);
        current := current.parent;
      }
      return false;
    }

    method RemoveTotalsFromChild(child: Category, ghost u: Universe, ghost w: map<Thread, int>)
      requires Valid(u) && Acyclic<Category>(Links(u)) && this in u.categories && child in u.categories
        && w == Weights(u)
      modifies TotalsOf(u)
      ensures Valid(u) && w == Weights(u)
      ensures View(u)
        == Walk<Category, Thread>(old(View(u)), Some(this), DecreaseTotals(old(TotalViews(u))[child].refs), w)
    {
      assert TotalViews(u)[child].refs.Keys <= u.threads;
      ExecuteOnCategoryAndAllParents(this, DecreaseTotals(child.totalThreads.referenceCount), u, w);
    }

    method AddTotalsFromChild(child: Category, ghost u: Universe, ghost w: map<Thread, int>)
      requires Valid(u) && Acyclic<Category>(Links(u)) && this in u.categories && child in u.categories
        && w == Weights(u)
      modifies TotalsOf(u)
      ensures Valid(u) && w == Weights(u)
      ensures View(u) == Walk<Category, Thread>(old(View(u)), Some(this), AddTotals(old(TotalViews(u))[child].refs), w)
    {
      assert TotalViews(u)[child].refs.Keys <= u.threads;
      ExecuteOnCategoryAndAllParents(this, AddTotals(child.totalThreads.referenceCount), u, w);
    }
  }

  method UpdateCategoryParent(category: Category, newParent: Category?, ghost u: Universe, ghost w: map<Thread, int>)
    requires Valid(u) && Acyclic<Category>(Links(u)) && category in u.categories && w == Weights(u)
    requires newParent != null ==> newParent in u.categories
    requires MayMove<Category>(Links(u), category, Optional(newParent))
    modifies category`parent, TotalsOf(u)
    ensures Valid(u) && w == Weights(u)
    ensures View(u) == Move<Category, Thread>(old(View(u)), category, Optional(newParent), w)
  {
    ghost var start: Forest<Category, Thread> := View(u);
    var oldParent := category.parent;
    assert start.parent[category] == Optional(oldParent);
    MoveKeepsAcyclic<Category>(start.parent, category, Optional(newParent));
    hide Valid, Acyclic, Links, Held, TotalViews, Weights, Walk, Path;
    category.SetParent(newParent, u);
    WalkNowhere<Category, Thread>(View(u), DecreaseTotals(start.total[category].refs), w);
    if oldParent != null {
      oldParent.RemoveTotalsFromChild(category, u, w);
    }
    assert View(u) == Leave<Category, Thread>(start, category, Optional(newParent), w);
    WalkNowhere<Category, Thread>(View(u), AddTotals(View(u).total[category].refs), w);
    if newParent != null {
      newParent.AddTotalsFromChild(category, u, w);
    }
  }

  lemma SumOfOne(w: map<Thread, int>, threads: set<Thread>, thread: Thread)
    ensures TotalMessages([], w) == 0 && TotalMessages([thread], w) == WeightOf(w, thread)
    ensures AsSet<Thread>([]) == {} && AsSet([thread]) == {thread}
    ensures thread in threads ==> threads + {thread} == threads
  {
    assert [thread][..0] == [];
  }

  lemma NothingReleased(f: Forest<Category, Thread>, c: Category, w: map<Thread, int>, tags: set<Tag>)
    requires c in f.held
    ensures ReleaseEach<Category, Thread>(f, c, [], w) == f && TotalMessages([], w) == 0 && Unreferenced({}, tags) == {}
  {
  }

  lemma UnreferencedStep(ts: set<Thread>, todo: set<Thread>, t: Thread, tags: set<Tag>)
    requires t in todo && todo <= ts
    ensures Unreferenced(ts - (todo - {t}), tags) == Unreferenced(ts - todo, tags) + if t.tags !! tags then {t} else {}
    ensures t !in Unreferenced(ts - todo, tags)
  {
  }
}
