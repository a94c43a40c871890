/** What the operations of the repository do to a whole forum. */
module Forum {
  import opened Wrappers
  import opened ParentLinks
  import opened Sequences
  import opened ThreadTotals
  import opened CategoryForest
  import opened MessageRound
  import opened Discussion

  datatype StatusCode = OK | INVALID_PARAMETERS | CIRCULAR_REFERENCE_NOT_ALLOWED | NO_EFFECT

  /** Threads and tags point at each other. */
  ghost predicate TagsLinked(u: Universe)
    reads u.tags`threads, u.threads`tags
  {
    forall g, t | g in u.tags && t in u.threads :: t in g.threads <==> g in t.tags
  }

  /** Tags and categories point at each other. */
  ghost predicate CategoriesLinked(u: Universe)
    reads u.tags`categories, u.categories`tags
  {
    forall g, c | g in u.tags && c in u.categories :: c in g.categories <==> g in c.tags
  }

  ghost predicate AllBackLinked(u: Universe)
    reads u.threads`categories, u.categories`threads
  {
    forall t | t in u.threads :: BackLinked(u, t)
  }

  /** A category holds a thread directly exactly when one of its tags is on the thread. */
  ghost predicate HeldByTags(u: Universe)
    reads u.threads`tags, u.categories`threads, u.categories`tags
  {
    forall c, t | c in u.categories && t in u.threads :: t in c.threads <==> !(t.tags !! c.tags)
  }

  ghost predicate NoneLeaving(u: Universe)
    reads u.threads`aboutToBeDeleted
  {
    forall t | t in u.threads :: !t.aboutToBeDeleted
  }

  /** A valid forum without circular parents and with sound totals, whatever they count. */
  ghost predicate Sound(u: Universe, w: map<Thread, int>)
    reads u.categories, u.tags, u.threads, TotalsOf(u)
  {
    Valid(u) && w == Weights(u) && WellFormed<Category, Thread>(View(u))
  }

  /** All references between objects agree. */
  ghost predicate Related(u: Universe)
    reads u.tags`threads, u.tags`categories, u.threads`tags, u.threads`categories, u.threads`aboutToBeDeleted
    reads u.categories`threads, u.categories`tags
  {
    TagsLinked(u) && CategoriesLinked(u) && AllBackLinked(u) && HeldByTags(u) && NoneLeaving(u)
  }

  /** The invariant every operation keeps. */
  ghost predicate Linked(u: Universe, w: map<Thread, int>)
    reads u.categories, u.tags, u.threads, TotalsOf(u)
  {
    Sound(u, w) && Related(u)
  }

  /** What an operation that turns the forest `f` into `g` does to the totals: from exact counts it reaches exact
      counts if and only if `exact`, and from a consistent forest a consistent one if and only if `clean`. Each running
      message total stays as far from the sum over its threads as it was. */
  ghost predicate Outcome(
      f: Forest<Category, Thread>, g: Forest<Category, Thread>, w: map<Thread, int>, exact: bool, clean: bool)
  {
    && (InOrder<Category, Thread>(f) ==> (InOrder<Category, Thread>(g) <==> exact))
    && (Consistent<Category, Thread>(f) ==> (Consistent<Category, Thread>(g) <==> clean))
    && Drifts<Category, Thread>(g, w) == Drifts<Category, Thread>(f, w)
  }

  lemma OutcomeKeepsDrifts(
      f: Forest<Category, Thread>, g: Forest<Category, Thread>, w: map<Thread, int>, exact: bool, clean: bool)
    requires Outcome(f, g, w, exact, clean)
    ensures Drifts<Category, Thread>(g, w) == Drifts<Category, Thread>(f, w)
  {
  }

  /** The forum is sound, its totals came out as stated and the category message counts are off by what they were. */
  ghost predicate Settled(u: Universe, w: map<Thread, int>, start: Forest<Category, Thread>,
      excess: map<Category, int>, exact: bool, clean: bool)
    reads u.categories, u.tags, u.threads, TotalsOf(u)
  {
    Sound(u, w) && Outcome(start, View(u), w, exact, clean) && Excesses(u, w) == excess
  }

  lemma SettledIsSound(u: Universe, w: map<Thread, int>, start: Forest<Category, Thread>,
      excess: map<Category, int>, exact: bool, clean: bool)
    requires Settled(u, w, start, excess, exact, clean)
    ensures Sound(u, w)
  {
  }

  /** In a linked forum the direct threads of a category are the union of the threads of its tags. */
  lemma DirectThreadsAreUnion(u: Universe, w: map<Thread, int>, c: Category)
    requires Linked(u, w) && c in u.categories
    ensures c.threads == set g, t | g in c.tags && t in g.threads :: t
  {
    hide WellFormed;
    assert Closed(u);
    forall t | t in u.threads ensures t in c.threads <==> exists g :: g in c.tags && t in g.threads {
      assert t in c.threads <==> !(t.tags !! c.tags);
      if !(t.tags !! c.tags) {
        var g :| g in t.tags && g in c.tags;
        assert t in g.threads;
      }
    }
  }

  lemma SoundGives(u: Universe, w: map<Thread, int>)
    requires Sound(u, w)
    ensures Valid(u) && w == Weights(u) && Acyclic<Category>(Links(u))
    ensures WellFormed<Category, Thread>(View(u)) && View(u).held.Keys == u.categories
  {
  }

  lemma NothingHappened(u: Universe, w: map<Thread, int>)
    ensures Outcome(View(u), View(u), w, true, true)
  {
  }

  lemma ThreadIsLinked(u: Universe, w: map<Thread, int>, thread: Thread)
    requires Linked(u, w) && thread in u.threads
    ensures BackLinked(u, thread)
    ensures forall g | g in u.tags :: g in thread.tags <==> thread in g.threads
  {
  }

  lemma TagUnneeded(u: Universe, w: map<Thread, int>, tag: Tag, thread: Thread)
    requires Linked(u, w) && tag in u.tags && thread in u.threads && tag !in thread.tags
    ensures tag.threads - {thread} == tag.threads && thread.tags - {tag} == thread.tags
    ensures forall c | c in u.categories ::
      c.threads == c.threads - if c in tag.categories && thread.tags !! c.tags then {thread} else {}
  {
    ThreadIsLinked(u, w, thread);
    hide Sound, AllBackLinked;
  }

  lemma TagAlreadyOn(u: Universe, w: map<Thread, int>, tag: Tag, thread: Thread)
    requires Linked(u, w) && tag in u.tags && thread in u.threads && tag in thread.tags
    ensures tag.threads + {thread} == tag.threads && thread.tags + {tag} == thread.tags
    ensures forall c | c in u.categories :: c.threads == c.threads + if c in tag.categories then {thread} else {}
  {
    ThreadIsLinked(u, w, thread);
    TagReaches(u, w, tag);
    hide Linked;
  }

  /** What the links of a tag say in a linked forum. */
  lemma TagReaches(u: Universe, w: map<Thread, int>, tag: Tag)
    requires Linked(u, w) && tag in u.tags
    ensures tag.threads <= u.threads && tag.categories <= u.categories
    ensures forall c | c in tag.categories :: tag in c.tags && tag.threads <= c.threads
    ensures forall t | t in u.threads :: tag in t.tags <==> t in tag.threads
  {
    hide WellFormed, AllBackLinked;
    assert Closed(u);
    forall c | c in tag.categories ensures tag in c.tags && tag.threads <= c.threads {
      assert tag in c.tags;
      assert forall t | t in tag.threads :: tag in t.tags && t in c.threads;
    }
  }

  ghost predicate HeldBy(tag: Tag, thread: Thread)
    reads tag`categories, tag.categories`threads
  {
    forall c | c in tag.categories :: thread in c.threads
  }

  lemma TagHolds(u: Universe, w: map<Thread, int>, tag: Tag, thread: Thread)
    requires Linked(u, w) && tag in u.tags && thread in u.threads && tag in thread.tags
    ensures HeldBy(tag, thread) && tag.categories <= u.categories
  {
    TagReaches(u, w, tag);
  }

  lemma OtherTagsHold(u: Universe, w: map<Thread, int>, tag: Tag, thread: Thread)
    requires Linked(u, w) && tag in u.tags && thread in u.threads
    ensures forall c | c in u.categories && c !in tag.categories ::
      thread in c.threads <==> !((thread.tags - {tag}) !! c.tags)
  {
    hide Sound, TagsLinked, AllBackLinked;
    TagReaches(u, w, tag);
  }

  lemma StartIs(u: Universe, start: Forest<Category, Thread>)
    requires start == View(u)
    ensures start.held.Keys == u.categories && forall c | c in u.categories :: start.held[c] == c.threads
  {
  }

  lemma LinkedGives(u: Universe, w: map<Thread, int>)
    requires Linked(u, w)
    ensures Valid(u) && w == Weights(u) && Acyclic<Category>(Links(u)) && WellFormed<Category, Thread>(View(u))
  {
  }

  lemma HeldIs(u: Universe)
    ensures Held(u).Keys == u.categories && forall c | c in u.categories :: Held(u)[c] == c.threads
  {
  }

  lemma TaggingOutcome(f: Forest<Category, Thread>, cs: seq<Category>, ds: set<Category>, thread: Thread,
      w: map<Thread, int>)
    requires WellFormed<Category, Thread>(f) && (forall c | c in cs :: c in f.held) && AsSet(cs) == ds
    ensures Outcome(f, InsertInto<Category, Thread>(f, cs, thread, w), w,
                    NoStaleAbove<Category, Thread>(f, ds, thread), true)
  {
    hide InOrder, Consistent, NoStaleAbove, WellFormed, InsertInto, Drifts;
    InsertIntoDrifts<Category, Thread>(f, cs, thread, w);
    if InOrder<Category, Thread>(f) { InsertIntoCounting<Category, Thread>(f, cs, thread, w); }
    if Consistent<Category, Thread>(f) { InsertIntoConsistent<Category, Thread>(f, cs, thread, w); }
  }

  /** A thread that went into the categories `cs`: the forum is sound and the categories hold it. */
  lemma SpreadIsSound(u: Universe, w: map<Thread, int>, start: Forest<Category, Thread>, cs: seq<Category>,
      ds: set<Category>, thread: Thread)
    requires Spread(u, w, start, cs, thread) && WellFormed<Category, Thread>(start) && AsSet(cs) == ds
    ensures Sound(u, w)
    ensures forall c | c in u.categories :: c.threads == start.held[c] + if c in ds then {thread} else {}
    ensures Outcome(start, View(u), w, NoStaleAbove<Category, Thread>(start, ds, thread), true)
  {
    hide Valid, Links, Held, TotalViews, Weights, WellFormed, InsertInto, Acyclic, Outcome;
    HeldIs(u);
    InsertIntoShape<Category, Thread>(start, cs, thread, w);
    TaggingOutcome(start, cs, ds, thread, w);
    forall c | c in u.categories ensures c.threads == start.held[c] + if c in ds then {thread} else {} {
      assert c in cs <==> c in AsSet(cs);
      assert Held(u)[c] == View(u).held[c];
    }
  }

  /** The object updates of addDiscussionTagToThread. */
  method TagThread(tag: Tag, thread: Thread, ghost start: Forest<Category, Thread>, ghost excess: map<Category, int>,
      ghost u: Universe, ghost w: map<Thread, int>) returns (ghost cs: seq<Category>)
    requires Valid(u) && Acyclic<Category>(Links(u)) && w == Weights(u) && BackLinked(u, thread)
    requires start == View(u) && excess == Excesses(u, w)
    requires tag in u.tags && thread in u.threads && thread !in tag.threads
    modifies thread`tags, thread`categories, tag`threads, tag`messageCount
    modifies u.categories`threads, u.categories`messageCount, TotalsOf(u)
    ensures Spread(u, w, start, cs, thread) && AsSet(cs) == tag.categories && InStep(u, w, thread, true, true, excess)
    ensures thread.tags == old(thread.tags) + {tag} && tag.threads == old(tag.threads) + {thread}
    ensures tag.messageCount == old(tag.messageCount) + WeightOf(w, thread)
  {
    hide Valid, Links, Held, TotalViews, Weights, Acyclic, BackLinked, Spread, InStep, Excesses;
    thread.AddTag(tag, u);
    var _, order := tag.InsertDiscussionThread(thread, u, w);
    cs := order;
  }

  /** The same, with what it means for the forum. */
  method TagThreadSoundly(tag: Tag, thread: Thread, ghost start: Forest<Category, Thread>,
      ghost excess: map<Category, int>, ghost u: Universe, ghost w: map<Thread, int>)
    requires Sound(u, w) && BackLinked(u, thread) && start == View(u) && excess == Excesses(u, w)
    requires tag in u.tags && thread in u.threads && thread !in tag.threads
    modifies thread`tags, thread`categories, tag`threads, tag`messageCount
    modifies u.categories`threads, u.categories`messageCount, TotalsOf(u)
    ensures Settled(u, w, start, excess, NoStaleAbove<Category, Thread>(start, tag.categories, thread), true)
    ensures BackLinked(u, thread)
    ensures thread.tags == old(thread.tags) + {tag} && tag.threads == old(tag.threads) + {thread}
    ensures forall c | c in u.categories :: c.threads == old(c.threads) + if c in tag.categories then {thread} else {}
    ensures tag.Excess(w) == old(tag.Excess(w))
  {
    hide Sound, Valid, Links, Held, TotalViews, Weights, Acyclic, BackLinked, Spread, Excesses, WellFormed, View;
    SoundGives(u, w);
    StartIs(u, start);
    SumChanges(w, tag.threads, thread);
    ghost var cs := TagThread(tag, thread, start, excess, u, w);
    SpreadIsSound(u, w, start, cs, tag.categories, thread);
  }

  /** addDiscussionTagToThread once the tag is known not to be there. */
  method PutTagOn(tag: Tag, thread: Thread, ghost start: Forest<Category, Thread>, ghost excess: map<Category, int>,
      ghost u: Universe, ghost w: map<Thread, int>)
    requires Linked(u, w) && tag in u.tags && thread in u.threads && tag !in thread.tags
    requires start == View(u) && excess == Excesses(u, w)
    modifies thread`tags, thread`categories, tag`threads, tag`messageCount
    modifies u.categories`threads, u.categories`messageCount, TotalsOf(u)
    ensures Linked(u, w)
    ensures Settled(u, w, start, excess, NoStaleAbove<Category, Thread>(start, tag.categories, thread), true)
    ensures thread.tags == old(thread.tags) + {tag} && tag.threads == old(tag.threads) + {thread}
    ensures forall c | c in u.categories :: c.threads == old(c.threads) + if c in tag.categories then {thread} else {}
    ensures tag.Excess(w) == old(tag.Excess(w))
  {
    hide Sound, View, Excesses, Outcome, NoStaleAbove, Settled;
    ThreadIsLinked(u, w, thread);
    TagThreadSoundly(tag, thread, start, excess, u, w);
    SettledIsSound(u, w, start, excess, NoStaleAbove<Category, Thread>(start, tag.categories, thread), true);
    assert TagsLinked(u) by { hide HeldByTags, AllBackLinked, CategoriesLinked; }
    assert CategoriesLinked(u) by { hide HeldByTags, AllBackLinked, TagsLinked; }
    assert AllBackLinked(u) by { hide HeldByTags, TagsLinked, CategoriesLinked; }
    assert HeldByTags(u) by { hide AllBackLinked, BackLinked; }
    hide TagsLinked, CategoriesLinked, AllBackLinked, HeldByTags;
  }

  /** addDiscussionTagToThread: every count stays exact if and only if no category above one that newly gets the thread
      lists it without a count. */
  method AddDiscussionTagToThread(tag: Tag, thread: Thread, ghost u: Universe, ghost w: map<Thread, int>)
    returns (status: StatusCode)
    requires Linked(u, w) && tag in u.tags && thread in u.threads
    modifies thread`tags, thread`categories, tag`threads, tag`messageCount
    modifies u.categories`threads, u.categories`messageCount, TotalsOf(u)
    ensures status == if tag in old(thread.tags) then NO_EFFECT else OK
    ensures Linked(u, w) && thread.tags == old(thread.tags) + {tag} && tag.threads == old(tag.threads) + {thread}
    ensures forall c | c in u.categories :: c.threads == old(c.threads) + if c in tag.categories then {thread} else {}
    ensures status == NO_EFFECT ==> View(u) == old(View(u))
    ensures status == OK ==>
      Outcome(old(View(u)), View(u), w, NoStaleAbove<Category, Thread>(old(View(u)), tag.categories, thread), true)
    ensures Excesses(u, w) == old(Excesses(u, w)) && tag.Excess(w) == old(tag.Excess(w))
  {
    hide Linked, View, Excesses, Outcome, NoStaleAbove;
    if tag in thread.tags {
      TagAlreadyOn(u, w, tag, thread);
      return NO_EFFECT;
    }
    PutTagOn(tag, thread, View(u), Excesses(u, w), u, w);
    return OK;
  }

  lemma UntaggingOutcome(f: Forest<Category, Thread>, cs: seq<Category>, thread: Thread, w: map<Thread, int>)
    requires WellFormed<Category, Thread>(f) && Distinct(cs)
    requires forall c | c in cs :: c in f.held && thread in f.held[c]
    ensures Outcome(f, ReleaseFrom<Category, Thread>(f, cs, thread, w), w, true, true)
  {
    hide InOrder, Consistent, WellFormed, ReleaseFrom, Drifts;
    ReleaseFromDrifts<Category, Thread>(f, cs, thread, w);
    if InOrder<Category, Thread>(f) { ReleaseFromInOrder<Category, Thread>(f, cs, thread, w); }
    if Consistent<Category, Thread>(f) { ReleaseFromConsistent<Category, Thread>(f, cs, thread, w); }
  }

  /** The categories of a tag that do not refer to the thread by another tag. */
  lemma NotReferring(u: Universe, order: seq<Category>, ds: set<Category>, thread: Thread)
    requires Distinct(order) && AsSet(order) == ds && ds <= u.categories
    ensures var cs := Missing<Category>(order, Referring(u, thread));
      Distinct(cs) && (forall c | c in cs :: c in ds)
      && forall c | c in u.categories :: c in cs <==> c in ds && thread.tags !! c.tags
  {
    var cs := Missing<Category>(order, Referring(u, thread));
    MissingMembers<Category>(order, Referring(u, thread));
    MissingAt<Category>(order, Referring(u, thread));
    assert forall c | c in order :: c in AsSet(order);
    assert forall c | c in u.categories :: c in order <==> c in AsSet(order);
  }

  /** A thread that the categories `cs` gave up: the forum is sound and they no longer hold it. */
  lemma GivenBackIsSound(u: Universe, w: map<Thread, int>, start: Forest<Category, Thread>, cs: seq<Category>,
      thread: Thread)
    requires WellFormed<Category, Thread>(start) && Distinct(cs) && GivenBack(u, w, start, cs, thread)
    requires forall c | c in cs :: c in start.held && thread in start.held[c]
    ensures Sound(u, w) && Outcome(start, View(u), w, true, true)
    ensures forall c | c in u.categories :: c.threads == if c in cs then start.held[c] - {thread} else start.held[c]
  {
    hide Valid, Links, Held, TotalViews, Weights, WellFormed, ReleaseFrom, Acyclic, Outcome;
    HeldIs(u);
    ReleaseFromShape<Category, Thread>(start, cs, thread, w);
    UntaggingOutcome(start, cs, thread, w);
    assert Held(u) == View(u).held;
  }

  /** The object updates of removeDiscussionTagFromThread; the thread loses the tag first. */
  method UntagThread(tag: Tag, thread: Thread, ghost start: Forest<Category, Thread>, ghost excess: map<Category, int>,
      ghost u: Universe, ghost w: map<Thread, int>) returns (ghost order: seq<Category>)
    requires Valid(u) && Acyclic<Category>(Links(u)) && w == Weights(u) && BackLinked(u, thread)
    requires start == View(u) && excess == Excesses(u, w) && !thread.aboutToBeDeleted
    requires tag in u.tags && thread in u.threads && thread in tag.threads
    modifies thread`tags, thread`categories, tag`threads, tag`messageCount
    modifies u.categories`threads, u.categories`messageCount, TotalsOf(u)
    ensures GivenBack(u, w, start, Missing<Category>(order, Referring(u, thread)), thread)
    ensures Distinct(order) && AsSet(order) == tag.categories && InStep(u, w, thread, true, true, excess)
    ensures thread.tags == old(thread.tags) - {tag} && tag.threads == old(tag.threads) - {thread}
    ensures tag.messageCount == old(tag.messageCount) - WeightOf(w, thread)
  {
    hide Valid, Links, Held, TotalViews, Weights, Acyclic, BackLinked, GivenBack, InStep, Excesses, Referring;
    thread.RemoveTag(tag, u);
    var _, cs := tag.DeleteDiscussionThread(thread, true, u, w);
    order := cs;
  }

  /** The same, with what it means for the forum. */
  method UntagThreadSoundly(tag: Tag, thread: Thread, ghost start: Forest<Category, Thread>,
      ghost excess: map<Category, int>, ghost u: Universe, ghost w: map<Thread, int>)
    requires Sound(u, w) && BackLinked(u, thread) && start == View(u) && excess == Excesses(u, w)
    requires tag in u.tags && thread in u.threads && thread in tag.threads && !thread.aboutToBeDeleted
    requires HeldBy(tag, thread) && tag.categories <= u.categories
    modifies thread`tags, thread`categories, tag`threads, tag`messageCount
    modifies u.categories`threads, u.categories`messageCount, TotalsOf(u)
    ensures Settled(u, w, start, excess, true, true) && BackLinked(u, thread)
    ensures thread.tags == old(thread.tags) - {tag} && tag.threads == old(tag.threads) - {thread}
    ensures forall c | c in u.categories ::
      c.threads == old(c.threads) - if c in tag.categories && thread.tags !! c.tags then {thread} else {}
    ensures tag.Excess(w) == old(tag.Excess(w))
  {
    hide Sound, Valid, Links, Held, TotalViews, Weights, Acyclic, BackLinked, GivenBack, Excesses, WellFormed, View;
    SoundGives(u, w);
    StartIs(u, start);
    SumChanges(w, tag.threads, thread);
    ghost var order := UntagThread(tag, thread, start, excess, u, w);
    NotReferring(u, order, tag.categories, thread);
    GivenBackIsSound(u, w, start, Missing<Category>(order, Referring(u, thread)), thread);
    assert forall s: set<Thread> :: s - {} == s;
  }

  /** removeDiscussionTagFromThread once the tag is known to be there. */
  method TakeTagOff(tag: Tag, thread: Thread, ghost start: Forest<Category, Thread>, ghost excess: map<Category, int>,
      ghost u: Universe, ghost w: map<Thread, int>)
    requires Linked(u, w) && tag in u.tags && thread in u.threads && tag in thread.tags
    requires start == View(u) && excess == Excesses(u, w)
    modifies thread`tags, thread`categories, tag`threads, tag`messageCount
    modifies u.categories`threads, u.categories`messageCount, TotalsOf(u)
    ensures Linked(u, w) && Settled(u, w, start, excess, true, true)
    ensures thread.tags == old(thread.tags) - {tag} && tag.threads == old(tag.threads) - {thread}
    ensures forall c | c in u.categories ::
      c.threads == old(c.threads) - if c in tag.categories && thread.tags !! c.tags then {thread} else {}
    ensures tag.Excess(w) == old(tag.Excess(w))
  {
    hide View, Excesses, Sound, Outcome, Settled, HeldBy;
    ThreadIsLinked(u, w, thread);
    TagHolds(u, w, tag, thread);
    OtherTagsHold(u, w, tag, thread);
    UntagThreadSoundly(tag, thread, start, excess, u, w);
    SettledIsSound(u, w, start, excess, true, true);
    assert TagsLinked(u) by { hide HeldByTags, AllBackLinked, CategoriesLinked; }
    assert CategoriesLinked(u) by { hide HeldByTags, AllBackLinked, TagsLinked; }
    assert AllBackLinked(u) by { hide HeldByTags, TagsLinked, CategoriesLinked; }
    assert HeldByTags(u) by { hide AllBackLinked, BackLinked; }
    hide TagsLinked, CategoriesLinked, AllBackLinked, HeldByTags;
  }

  /** removeDiscussionTagFromThread: a category that still has another tag on the thread keeps it, and exact counts stay
      exact in any case. */
  method RemoveDiscussionTagFromThread(tag: Tag, thread: Thread, ghost u: Universe, ghost w: map<Thread, int>)
    returns (status: StatusCode)
    requires Linked(u, w) && tag in u.tags && thread in u.threads
    modifies thread`tags, thread`categories, tag`threads, tag`messageCount
    modifies u.categories`threads, u.categories`messageCount, TotalsOf(u)
    ensures status == if tag in old(thread.tags) then OK else NO_EFFECT
    ensures Linked(u, w) && thread.tags == old(thread.tags) - {tag} && tag.threads == old(tag.threads) - {thread}
    ensures forall c | c in u.categories ::
      c.threads == old(c.threads) - if c in tag.categories && thread.tags !! c.tags then {thread} else {}
    ensures status == NO_EFFECT ==> View(u) == old(View(u))
    ensures Outcome(old(View(u)), View(u), w, true, true)
    ensures Excesses(u, w) == old(Excesses(u, w)) && tag.Excess(w) == old(tag.Excess(w))
  {
    hide Linked, View, Excesses, Outcome, Sound;
    if tag !in thread.tags {
      TagUnneeded(u, w, tag, thread);
      NothingHappened(u, w);
      return NO_EFFECT;
    }
    TakeTagOff(tag, thread, View(u), Excesses(u, w), u, w);
    return OK;
  }

  /** A category with its tags that got the threads `added`: the forum is sound. */
  lemma InsertedIsSound(u: Universe, w: map<Thread, int>, start: Forest<Category, Thread>, category: Category,
      added: seq<Thread>, ts: set<Thread>)
    requires Valid(u) && w == Weights(u) && WellFormed<Category, Thread>(start) && category in start.held
    requires Distinct(added) && AsSet(added) == ts && ts !! start.held[category]
    requires View(u) == Insert<Category, Thread>(start, category, added, w)
    ensures Sound(u, w)
    ensures Outcome(
      start, View(u), w, NoStale<Category, Thread>(start.total, Path<Category>(start.parent, category), ts), true)
  {
    hide Valid, Weights, View, InOrder, Consistent, NoStale, WellFormed, Insert;
    InsertShape<Category, Thread>(start, category, added, w);
    InsertDrifts<Category, Thread>(start, category, added, w);
    if InOrder<Category, Thread>(start) {
      assert WellFormed<Category, Thread>(start);
      NextCounting<Category, Thread>(start, Inserted(category, added), w);
    }
    if Consistent<Category, Thread>(start) { NextConsistent<Category, Thread>(start, Inserted(category, added), w); }
  }

  lemma CountedWith(w: map<Thread, int>, held: set<Thread>, added: seq<Thread>)
    requires Distinct(added) && AsSet(added) !! held
    ensures SumOver<Thread>(w, held + AsSet(added)) == SumOver<Thread>(w, held) + TotalMessages(added, w)
  {
    TotalIsSum(added, w);
    SumUnion<Thread>(w, held, AsSet(added));
  }

  lemma CountedWithout(w: map<Thread, int>, held: set<Thread>, released: seq<Thread>)
    requires Distinct(released) && AsSet(released) <= held
    ensures SumOver<Thread>(w, held - AsSet(released)) == SumOver<Thread>(w, held) - TotalMessages(released, w)
  {
    CountedWith(w, held - AsSet(released), released);
    assert held - AsSet(released) + AsSet(released) == held;
  }

  lemma {:induction false} TotalIsSum(ts: seq<Thread>, w: map<Thread, int>)
    requires Distinct(ts)
    ensures TotalMessages(ts, w) == SumOver<Thread>(w, AsSet(ts))
  {
    if ts != [] {
      var front, t := ts[..|ts| - 1], ts[|ts| - 1];
      TotalIsSum(front, w);
      assert AsSet(ts) == AsSet(front) + {t} && t !in AsSet(front);
      SumAdd<Thread>(w, AsSet(front), t);
    }
  }

  /** The object updates of addDiscussionTagToCategory. */
  method AttachTag(tag: Tag, category: Category, ghost start: Forest<Category, Thread>, ghost u: Universe,
      ghost w: map<Thread, int>) returns (ghost added: seq<Thread>)
    requires Valid(u) && Acyclic<Category>(Links(u)) && w == Weights(u) && start == View(u)
    requires tag in u.tags && category in u.categories && tag !in category.tags && tag.categories <= u.categories
    modifies tag`categories, category`tags, category`threads, category`messageCount, u.threads`categories, TotalsOf(u)
    ensures Valid(u) && w == Weights(u) && category in start.held
    ensures View(u) == Insert<Category, Thread>(start, category, added, w)
    ensures Distinct(added) && AsSet(added) == tag.threads - old(category.threads)
    ensures tag.categories == old(tag.categories) + {category} && category.tags == old(category.tags) + {tag}
    ensures category.threads == old(category.threads) + AsSet(added) && category.Excess(w) == old(category.Excess(w))
    ensures forall t | t in u.threads ::
      t.categories == old(t.categories) + if t in tag.threads - old(category.threads) then {category} else {}
  {
    hide Valid, Links, Held, TotalViews, Weights, Insert, Acyclic, Distinct, TotalMessages;
    HeldIs(u);
    ghost var before := category.threads;
    tag.SetCategories(tag.categories + {category}, u);
    var _, ts := category.AddTag(tag, u, w);
    CountedWith(w, before, ts);
    assert forall t | t in u.threads :: t in ts <==> t in AsSet(ts);
    added := ts;
  }

  /** The same, with what it means for the forum. */
  method AttachTagSoundly(tag: Tag, category: Category, ghost start: Forest<Category, Thread>,
      ghost excess: map<Category, int>, ghost u: Universe, ghost w: map<Thread, int>)
    requires Sound(u, w) && start == View(u) && excess == Excesses(u, w)
    requires tag in u.tags && category in u.categories && tag !in category.tags && tag.categories <= u.categories
    modifies tag`categories, category`tags, category`threads, category`messageCount, u.threads`categories, TotalsOf(u)
    ensures Settled(u, w, start, excess, NoStale<Category, Thread>(
      start.total, Path<Category>(start.parent, category), tag.threads - old(category.threads)), true)
    ensures tag.categories == old(tag.categories) + {category} && category.tags == old(category.tags) + {tag}
    ensures category.threads == old(category.threads) + tag.threads
    ensures forall t | t in u.threads ::
      t.categories == old(t.categories) + if t in tag.threads - old(category.threads) then {category} else {}
  {
    hide Sound, Valid, Links, Held, TotalViews, Weights, Acyclic, Excesses, WellFormed, View, Insert, Distinct;
    hide Path, NoStale;
    SoundGives(u, w);
    StartIs(u, start);
    ExcessesAre(u, w);
    ghost var ts := tag.threads - category.threads;
    ghost var added := AttachTag(tag, category, start, u, w);
    InsertedIsSound(u, w, start, category, added, ts);
    assert category.Excess(w) == excess[category];
    ExcessesKept(u, w, excess);
  }

  /** addDiscussionTagToCategory once the tag is known not to be there. */
  method PutTagUnder(tag: Tag, category: Category, ghost start: Forest<Category, Thread>,
      ghost excess: map<Category, int>, ghost u: Universe, ghost w: map<Thread, int>)
    requires Linked(u, w) && tag in u.tags && category in u.categories && category !in tag.categories
    requires start == View(u) && excess == Excesses(u, w)
    modifies tag`categories, category`tags, category`threads, category`messageCount, u.threads`categories, TotalsOf(u)
    ensures Linked(u, w) && Settled(u, w, start, excess, NoStale<Category, Thread>(
      start.total, Path<Category>(start.parent, category), tag.threads - old(category.threads)), true)
    ensures tag.categories == old(tag.categories) + {category} && category.tags == old(category.tags) + {tag}
    ensures category.threads == old(category.threads) + tag.threads
  {
    hide Sound, View, Excesses, Settled, NoStale, Path;
    TagReaches(u, w, tag);
    ghost var ts := tag.threads - category.threads;
    AttachTagSoundly(tag, category, start, excess, u, w);
    SettledIsSound(u, w, start, excess,
                   NoStale<Category, Thread>(start.total, Path<Category>(start.parent, category), ts), true);
    assert TagsLinked(u) by { hide HeldByTags, AllBackLinked, CategoriesLinked; }
    assert CategoriesLinked(u) by { hide HeldByTags, AllBackLinked, TagsLinked; }
    assert AllBackLinked(u) by { hide HeldByTags, TagsLinked, CategoriesLinked; }
    assert HeldByTags(u) by { hide AllBackLinked, BackLinked; }
    hide TagsLinked, CategoriesLinked, AllBackLinked, HeldByTags;
  }

  /** addDiscussionTagToCategory: every count stays exact if and only if no category on the way up lists one of the new
      threads without a count. */
  method AddDiscussionTagToCategory(tag: Tag, category: Category, ghost u: Universe, ghost w: map<Thread, int>)
    returns (status: StatusCode)
    requires Linked(u, w) && tag in u.tags && category in u.categories
    modifies tag`categories, category`tags, category`threads, category`messageCount, u.threads`categories, TotalsOf(u)
    ensures status == if category in old(tag.categories) then NO_EFFECT else OK
    ensures Linked(u, w) && category.tags == old(category.tags) + {tag}
    ensures tag.categories == old(tag.categories) + {category}
    ensures category.threads == old(category.threads) + tag.threads && Excesses(u, w) == old(Excesses(u, w))
    ensures status == NO_EFFECT ==> View(u) == old(View(u))
    ensures status == OK ==> Outcome(old(View(u)), View(u), w, old(NoStale<Category, Thread>(
      TotalViews(u), Path<Category>(Links(u), category), tag.threads - category.threads)), true)
  {
    hide Linked, View, Excesses, Outcome, Sound, NoStale, Path;
    TagReaches(u, w, tag);
    if category in tag.categories { return NO_EFFECT; }
    ViewIs(u);
    PutTagUnder(tag, category, View(u), Excesses(u, w), u, w);
    return OK;
  }

  /** A category that gave up the threads `released`: the forum is sound. */
  lemma ReleasedIsSound(u: Universe, w: map<Thread, int>, start: Forest<Category, Thread>, category: Category,
      released: seq<Thread>)
    requires Valid(u) && w == Weights(u) && WellFormed<Category, Thread>(start) && category in start.held
    requires Distinct(released) && AsSet(released) <= start.held[category]
    requires View(u) == ReleaseEach<Category, Thread>(start, category, released, w)
    ensures Sound(u, w) && Outcome(start, View(u), w, true, true)
    ensures Held(u) == start.held[category := start.held[category] - AsSet(released)]
  {
    assert View(u).held == Held(u);
    hide Valid, Weights, View, InOrder, Consistent, WellFormed, ReleaseEach;
    ReleaseEachShape<Category, Thread>(start, category, released, w);
    ReleaseEachDrifts<Category, Thread>(start, category, released, w);
    if InOrder<Category, Thread>(start) { ReleaseEachInOrder<Category, Thread>(start, category, released, w); }
    if Consistent<Category, Thread>(start) { ReleaseEachConsistent<Category, Thread>(start, category, released, w); }
  }

  /** The object updates of removeDiscussionTagFromCategory. */
  method DetachTag(tag: Tag, category: Category, ghost start: Forest<Category, Thread>, ghost u: Universe,
      ghost w: map<Thread, int>) returns (ghost released: seq<Thread>)
    requires Valid(u) && Acyclic<Category>(Links(u)) && w == Weights(u) && start == View(u) && NoneLeaving(u)
    requires tag in u.tags && category in u.categories && tag in category.tags && tag.categories <= u.categories
    requires tag.threads <= category.threads
    modifies tag`categories, category`tags, category`threads, category`messageCount, u.threads`categories, TotalsOf(u)
    ensures Valid(u) && w == Weights(u) && category in start.held
    ensures View(u) == ReleaseEach<Category, Thread>(start, category, released, w)
    ensures Distinct(released) && AsSet(released) == Unreferenced(tag.threads, category.tags)
    ensures category.messageCount == old(category.messageCount) - TotalMessages(released, w)
    ensures tag.categories == old(tag.categories) - {category} && category.tags == old(category.tags) - {tag}
    ensures forall t | t in u.threads ::
      t.categories == old(t.categories) - if t in Unreferenced(tag.threads, category.tags) then {category} else {}
  {
    hide Valid, Links, Held, TotalViews, Weights, ReleaseEach, Acyclic, Distinct, TotalMessages, Unreferenced, View;
    StartIs(u, start);
    tag.SetCategories(tag.categories - {category}, u);
    var _, ts := category.RemoveTag(tag, u, w);
    released := ts;
  }

  /** The same, with what it means for the forum. */
  method DetachTagSoundly(tag: Tag, category: Category, ghost start: Forest<Category, Thread>,
      ghost excess: map<Category, int>, ghost u: Universe, ghost w: map<Thread, int>)
    requires Sound(u, w) && start == View(u) && excess == Excesses(u, w) && NoneLeaving(u)
    requires tag in u.tags && category in u.categories && tag in category.tags && tag.categories <= u.categories
    requires tag.threads <= category.threads
    modifies tag`categories, category`tags, category`threads, category`messageCount, u.threads`categories, TotalsOf(u)
    ensures Settled(u, w, start, excess, true, true)
    ensures tag.categories == old(tag.categories) - {category} && category.tags == old(category.tags) - {tag}
    ensures category.threads == old(category.threads) - Unreferenced(tag.threads, category.tags)
    ensures forall t | t in u.threads ::
      t.categories == old(t.categories) - if t in Unreferenced(tag.threads, category.tags) then {category} else {}
  {
    hide Sound, Valid, Links, Held, TotalViews, Weights, Acyclic, Excesses, WellFormed, View, ReleaseEach, Distinct;
    hide Unreferenced, Outcome;
    SoundGives(u, w);
    StartIs(u, start);
    ExcessesAre(u, w);
    ghost var held := category.threads;
    ghost var released := DetachTag(tag, category, start, u, w);
    ReleasedIsSound(u, w, start, category, released);
    HeldAt(u, category);
    CountedWithout(w, held, released);
    assert category.Excess(w) == excess[category];
    ExcessesKept(u, w, excess);
  }

  /** removeDiscussionTagFromCategory once the tag is known to be there. */
  method TakeTagAway(tag: Tag, category: Category, ghost start: Forest<Category, Thread>,
      ghost excess: map<Category, int>, ghost u: Universe, ghost w: map<Thread, int>)
    requires Linked(u, w) && tag in u.tags && category in u.categories && category in tag.categories
    requires start == View(u) && excess == Excesses(u, w)
    modifies tag`categories, category`tags, category`threads, category`messageCount, u.threads`categories, TotalsOf(u)
    ensures Linked(u, w) && Settled(u, w, start, excess, true, true)
    ensures tag.categories == old(tag.categories) - {category} && category.tags == old(category.tags) - {tag}
    ensures category.threads == old(category.threads) - Unreferenced(tag.threads, category.tags)
  {
    hide Sound, View, Excesses, Settled;
    TagReaches(u, w, tag);
    DetachTagSoundly(tag, category, start, excess, u, w);
    SettledIsSound(u, w, start, excess, true, true);
    assert TagsLinked(u) by { hide HeldByTags, AllBackLinked, CategoriesLinked, Unreferenced; }
    assert CategoriesLinked(u) by { hide HeldByTags, AllBackLinked, TagsLinked, Unreferenced; }
    assert AllBackLinked(u) by { hide HeldByTags, TagsLinked, CategoriesLinked; }
    assert HeldByTags(u) by { hide AllBackLinked, BackLinked; }
    hide TagsLinked, CategoriesLinked, AllBackLinked, HeldByTags, Unreferenced;
  }

  lemma TagNotThere(u: Universe, w: map<Thread, int>, tag: Tag, category: Category)
    requires Linked(u, w) && tag in u.tags && category in u.categories && category !in tag.categories
    ensures tag.categories - {category} == tag.categories && category.tags - {tag} == category.tags
    ensures category.threads - Unreferenced(tag.threads, category.tags) == category.threads
  {
    assert Closed(u);
    assert tag.threads <= u.threads && tag !in category.tags;
    hide Sound, AllBackLinked;
    assert forall t | t in tag.threads && t.tags !! category.tags :: t !in category.threads;
  }

  /** removeDiscussionTagFromCategory: the category gives up exactly the threads of the tag that no other tag of it
      refers to, and exact counts stay exact in any case. */
  method RemoveDiscussionTagFromCategory(tag: Tag, category: Category, ghost u: Universe, ghost w: map<Thread, int>)
    returns (status: StatusCode)
    requires Linked(u, w) && tag in u.tags && category in u.categories
    modifies tag`categories, category`tags, category`threads, category`messageCount, u.threads`categories, TotalsOf(u)
    ensures status == if category in old(tag.categories) then OK else NO_EFFECT
    ensures Linked(u, w) && category.tags == old(category.tags) - {tag}
    ensures tag.categories == old(tag.categories) - {category}
    ensures category.threads == old(category.threads) - Unreferenced(tag.threads, category.tags)
    ensures Excesses(u, w) == old(Excesses(u, w))
    ensures status == NO_EFFECT ==> View(u) == old(View(u))
    ensures Outcome(old(View(u)), View(u), w, true, true)
  {
    hide Linked, View, Excesses, Outcome, Sound, Unreferenced;
    if category !in tag.categories {
      TagNotThere(u, w, tag, category);
      NothingHappened(u, w);
      return NO_EFFECT;
    }
    TakeTagAway(tag, category, View(u), Excesses(u, w), u, w);
    return OK;
  }

  /** What is left of a forum when one thread is gone. */
  ghost function Without(u: Universe, thread: Thread): Universe {
    u.(threads := u.threads - {thread})
  }

  /** The part of deleteDiscussionThread about categories: each one that holds the thread drops it. */
  method DeleteFromCategories(thread: Thread, deleteMessages: bool, ghost start: Forest<Category, Thread>,
      ghost excess: map<Category, int>, ghost u: Universe, ghost w: map<Thread, int>)
      returns (ghost order: seq<Category>)
    requires Dropped(u, w, start, [], thread, deleteMessages, excess)
    requires thread in u.threads && thread.categories <= u.categories
    modifies thread`categories, u.categories`threads, u.categories`messageCount, TotalsOf(u)
    ensures Dropped(u, w, start, order, thread, deleteMessages, excess) && AsSet(order) == old(thread.categories)
  {
    hide Dropped;
    var cs := ListOf<Category>(thread.categories);
    for i := 0 to |cs|
      invariant Dropped(u, w, start, cs[..i], thread, deleteMessages, excess)
    {
      assert cs[..i + 1] == cs[..i] + [cs[i]];
      assert cs[i] in cs;
      cs[i].DropStep(thread, deleteMessages, start, cs[..i], excess, u, w);
    }
    assert cs[..|cs|] == cs;
    order := cs;
  }

  /** All categories of a tag have it among their tags. */
  ghost predicate KnownToCategories(u: Universe, thread: Thread)
    reads thread`tags, u.tags`categories, u.categories`tags
  {
    thread.tags <= u.tags
    && forall g, c | g in thread.tags && c in g.categories :: c in u.categories && g in c.tags
  }

  lemma KnownAreInside(u: Universe, thread: Thread)
    requires KnownToCategories(u, thread)
    ensures thread.tags <= u.tags
  {
  }

  lemma KnownIsReferring(u: Universe, thread: Thread, g: Tag)
    requires KnownToCategories(u, thread) && g in thread.tags
    ensures forall c | c in g.categories :: c in Referring(u, thread)
  {
  }

  /** How a message count follows when a thread goes. */
  ghost function CountAfter(count: int, w: map<Thread, int>, ts: set<Thread>, thread: Thread, deleteMessages: bool): int
  {
    count - if deleteMessages && thread in ts then WeightOf(w, thread) else 0
  }

  /** The part of deleteDiscussionThread about tags. */
  method DeleteFromTags(thread: Thread, deleteMessages: bool, ghost start: Forest<Category, Thread>,
      ghost excess: map<Category, int>, ghost u: Universe, ghost w: map<Thread, int>)
    requires Unchanged(u, w, start, Going(w, thread, deleteMessages), excess)
    requires thread in u.threads && KnownToCategories(u, thread)
    modifies thread.tags`threads, thread.tags`messageCount
    modifies u.categories`threads, u.categories`messageCount, thread`categories, TotalsOf(u)
    ensures Unchanged(u, w, start, Going(w, thread, deleteMessages), excess)
    ensures forall g | g in thread.tags :: g.threads == old(g.threads) - {thread}
    ensures forall g | g in thread.tags ::
      g.messageCount == CountAfter(old(g.messageCount), w, old(g.threads), thread, deleteMessages)
  {
    hide Unchanged, Referring, KnownToCategories, Going;
    KnownAreInside(u, thread);
    var todo := thread.tags;
    while todo != {}
      invariant Unchanged(u, w, start, Going(w, thread, deleteMessages), excess)
      invariant todo <= thread.tags && KnownToCategories(u, thread)
      invariant forall g | g in todo :: unchanged(g)
      invariant forall g | g in thread.tags - todo :: g.threads == old(g.threads) - {thread}
      invariant forall g | g in thread.tags - todo ::
        g.messageCount == CountAfter(old(g.messageCount), w, old(g.threads), thread, deleteMessages)
      decreases todo
    {
      var tag :| tag in todo;
      KnownIsReferring(u, thread, tag);
      tag.Forget(thread, deleteMessages, start, excess, u, w);
      todo := todo - {tag};
    }
  }

  lemma NothingDropped(u: Universe, w: map<Thread, int>, thread: Thread, counted: bool)
    requires Valid(u) && Acyclic<Category>(Links(u)) && w == Weights(u)
    ensures Dropped(u, w, View(u), [], thread, counted, Excesses(u, Going(w, thread, counted)))
  {
  }

  lemma DroppedIsUnchanged(u: Universe, w: map<Thread, int>, start: Forest<Category, Thread>, cs: seq<Category>,
      thread: Thread, counted: bool, excess: map<Category, int>)
    requires Dropped(u, w, start, cs, thread, counted, excess)
    ensures Unchanged(u, w, View(u), Going(w, thread, counted), excess)
    ensures View(u) == DeleteFrom<Category, Thread>(start, cs, thread, w)
  {
  }

  /** The object updates of deleteDiscussionThread. */
  method DeleteEverywhere(thread: Thread, deleteMessages: bool, ghost start: Forest<Category, Thread>,
      ghost excess: map<Category, int>, ghost u: Universe, ghost w: map<Thread, int>)
      returns (ghost order: seq<Category>)
    requires Valid(u) && Acyclic<Category>(Links(u)) && w == Weights(u) && start == View(u)
    requires excess == Excesses(u, Going(w, thread, deleteMessages))
    requires thread in u.threads && thread.categories <= u.categories && KnownToCategories(u, thread)
    modifies thread`aboutToBeDeleted, thread`categories, thread.tags`threads, thread.tags`messageCount
    modifies u.categories`threads, u.categories`messageCount, TotalsOf(u)
    ensures thread.aboutToBeDeleted
    ensures AsSet(order) == old(thread.categories)
    ensures Unchanged(
      u, w, DeleteFrom<Category, Thread>(start, order, thread, w), Going(w, thread, deleteMessages), excess)
    ensures forall g | g in thread.tags :: g.threads == old(g.threads) - {thread}
    ensures forall g | g in thread.tags ::
      g.messageCount == CountAfter(old(g.messageCount), w, old(g.threads), thread, deleteMessages)
  {
    hide Valid, Acyclic, Links, Held, TotalViews, Weights, Excesses, DeleteFrom, View, Dropped, Unchanged;
    thread.SetAboutToBeDeleted(u);
    NothingDropped(u, w, thread, deleteMessages);
    order := DeleteFromCategories(thread, deleteMessages, start, excess, u, w);
    DroppedIsUnchanged(u, w, start, order, thread, deleteMessages, excess);
    DeleteFromTags(thread, deleteMessages, View(u), excess, u, w);
  }

  /** Without the thread the forum is sound if and only if no total lists it. */
  lemma SoundWithout(u: Universe, w: map<Thread, int>, thread: Thread)
    requires Sound(u, w) && thread in u.threads
    requires forall c | c in u.categories :: thread !in c.threads
    requires forall g | g in u.tags :: thread !in g.threads
    ensures Sound(Without(u, thread), w - {thread}) <==> Unlisted<Category, Thread>(View(u), thread)
    ensures Sound(Without(u, thread), w - {thread}) ==>
      Drifts<Category, Thread>(View(Without(u, thread)), w - {thread}) == Drifts<Category, Thread>(View(u), w)
  {
    hide Drifts;
    var v := Without(u, thread);
    assert View(v) == View(u);
    if Unlisted<Category, Thread>(View(u), thread) {
      assert forall c | c in View(u).total :: View(u).total[c] == c.totalThreads.View();
      UnlistedWeight<Category, Thread>(View(u), thread, 0, w);
      assert Closed(v);
      assert Inside<Category, Thread>(TotalViews(v), v.threads) by {
        assert forall c | c in TotalViews(u) :: thread !in TotalViews(u)[c].byId && thread !in TotalViews(u)[c].refs;
      }
    } else {
      var c :| c in View(u).total && thread in View(u).total[c].byId;
      assert c in TotalViews(v) && thread in TotalViews(v)[c].byId;
    }
  }

  lemma DeletionOutcome(f: Forest<Category, Thread>, cs: seq<Category>, thread: Thread, w: map<Thread, int>)
    requires WellFormed<Category, Thread>(f) && Possible<Category, Thread>(f, Deleted(cs, thread))
    ensures Outcome(f, DeleteFrom<Category, Thread>(f, cs, thread, w), w, true, true)
    ensures InOrder<Category, Thread>(f) ==>
      Forgotten(f, DeleteFrom<Category, Thread>(f, cs, thread, w), thread)
  {
    hide InOrder, Consistent, WellFormed, DeleteFrom, Drifts;
    DeleteFromDrifts<Category, Thread>(f, cs, thread, w);
    if InOrder<Category, Thread>(f) {
      NextCounting<Category, Thread>(f, Deleted(cs, thread), w);
      DeletedMentions<Category, Thread>(f, cs, thread, w);
    }
    if Consistent<Category, Thread>(f) { NextConsistent<Category, Thread>(f, Deleted(cs, thread), w); }
  }

  /** No count mentions the thread, and a total lists it exactly if it listed it without a count before. */
  ghost predicate Forgotten(f: Forest<Category, Thread>, g: Forest<Category, Thread>, thread: Thread) {
    g.total.Keys == f.total.Keys
    && forall a | a in g.total ::
      thread !in g.total[a].refs && (thread in g.total[a].byId <==> Stale(f.total[a], thread))
  }

  lemma DeletedForum(u: Universe, w: map<Thread, int>, start: Forest<Category, Thread>, order: seq<Category>,
      thread: Thread)
    requires Valid(u) && w == Weights(u) && WellFormed<Category, Thread>(start) && start.held.Keys == u.categories
    requires forall c | c in order :: c in u.categories
    requires forall c | c in u.categories :: c in order <==> thread in start.held[c]
    requires View(u) == DeleteFrom<Category, Thread>(start, order, thread, w)
    ensures Sound(u, w) && Outcome(start, View(u), w, true, true)
    ensures InOrder<Category, Thread>(start) ==> Forgotten(start, View(u), thread)
    ensures Unlisted<Category, Thread>(View(u), thread) <==> ListedAboveHolders<Category, Thread>(start, thread)
    ensures forall c | c in u.categories :: c.threads == start.held[c] - {thread}
  {
    hide Valid, Links, Held, TotalViews, Weights, WellFormed, DeleteFrom, Acyclic, Outcome, Forgotten;
    hide InOrder, Unlisted;
    hide ListedAboveHolders;
    ViewIs(u);
    HeldIs(u);
    DeletedListed<Category, Thread>(start, order, thread, w);
    DeletionOutcome(start, order, thread, w);
    DeleteFromShape<Category, Thread>(start, order, thread, w);
    forall c | c in u.categories ensures c.threads == start.held[c] - {thread} {
      if c !in order { assert start.held[c] - {thread} == start.held[c]; }
    }
  }

  lemma UnchangedGives(u: Universe, w: map<Thread, int>, g: Forest<Category, Thread>, sums: map<Thread, int>,
      excess: map<Category, int>)
    requires Unchanged(u, w, g, sums, excess)
    ensures Valid(u) && w == Weights(u) && View(u) == g && Excesses(u, sums) == excess
  {
  }

  lemma ExcessStays(w: map<Thread, int>, ts: set<Thread>, thread: Thread, count: int)
    ensures CountAfter(count, w, ts, thread, true) - SumOver<Thread>(w, ts - {thread}) == count - SumOver<Thread>(w, ts)
  {
    SumChanges(w, ts, thread);
  }

  /** As far from these sums as before without the thread: that is what the count says. */
  lemma CountFollows(w: map<Thread, int>, ts: set<Thread>, thread: Thread, deleteMessages: bool, count: int, after: int)
    requires var sums := Going(w, thread, deleteMessages);
      after - SumOver<Thread>(sums, ts - {thread}) == count - SumOver<Thread>(sums, ts)
    ensures after == CountAfter(count, w, ts, thread, deleteMessages)
    ensures deleteMessages ==> after - SumOver<Thread>(w, ts - {thread}) == count - SumOver<Thread>(w, ts)
  {
    SumChanges(Going(w, thread, deleteMessages), ts, thread);
  }

  /** What the references to a thread say in a linked forum. */
  lemma ThreadReaches(u: Universe, w: map<Thread, int>, thread: Thread)
    requires Linked(u, w) && thread in u.threads
    ensures KnownToCategories(u, thread) && thread.categories <= u.categories
    ensures forall c | c in u.categories :: c in thread.categories <==> thread in c.threads
    ensures forall g | g in u.tags :: g in thread.tags <==> thread in g.threads
  {
    ThreadIsLinked(u, w, thread);
    assert Closed(u);
    hide WellFormed, HeldByTags, AllBackLinked;
  }

  /** The objects after deleteDiscussionThread. */
  method DeleteSoundly(thread: Thread, deleteMessages: bool, ghost start: Forest<Category, Thread>,
      ghost excess: map<Category, int>, ghost u: Universe, ghost w: map<Thread, int>)
    requires Linked(u, w) && thread in u.threads && start == View(u)
    requires excess == Excesses(u, Going(w, thread, deleteMessages))
    modifies thread`aboutToBeDeleted, thread`categories, thread.tags`threads, thread.tags`messageCount
    modifies u.categories`threads, u.categories`messageCount, TotalsOf(u)
    ensures thread.aboutToBeDeleted
    ensures Sound(u, w) && Outcome(start, View(u), w, true, true)
    ensures InOrder<Category, Thread>(start) ==> Forgotten(start, View(u), thread)
    ensures Unlisted<Category, Thread>(View(u), thread) <==> ListedAboveHolders<Category, Thread>(start, thread)
    ensures forall c | c in u.categories :: c.threads == old(c.threads) - {thread}
    ensures forall g | g in u.tags :: g.threads == old(g.threads) - {thread}
    ensures Excesses(u, Going(w, thread, deleteMessages)) == excess
    ensures forall g | g in u.tags ::
      g.messageCount == CountAfter(old(g.messageCount), w, old(g.threads), thread, deleteMessages)
  {
    hide Linked, Sound, Valid, Links, Held, TotalViews, Weights, Acyclic, Excesses, WellFormed, View;
    hide Unchanged, Outcome;
    hide DeleteFrom, Forgotten, InOrder, Unlisted, ListedAboveHolders, Going;
    LinkedGives(u, w);
    StartIs(u, start);
    ThreadReaches(u, w, thread);
    ghost var order := DeleteEverywhere(thread, deleteMessages, start, excess, u, w);
    UnchangedGives(
      u, w, DeleteFrom<Category, Thread>(start, order, thread, w), Going(w, thread, deleteMessages), excess);
    assert forall c | c in order :: c in AsSet(order);
    DeletedForum(u, w, start, order, thread);
  }

  ghost function MessageCounts(u: Universe): map<Category, int>
    reads u.categories`messageCount
  {
    map c | c in u.categories :: c.messageCount
  }

  /** The counts and sums before a thread goes. */
  ghost predicate Before(u: Universe, w: map<Thread, int>, held: map<Category, set<Thread>>, counts: map<Category, int>,
      sums: map<Thread, int>, excess: map<Category, int>)
  {
    && held.Keys == counts.Keys == excess.Keys == u.categories
    && forall c | c in u.categories :: excess[c] == counts[c] - SumOver<Thread>(sums, held[c])
  }

  lemma NowIsBefore(u: Universe, w: map<Thread, int>, sums: map<Thread, int>)
    ensures Before(u, w, Held(u), MessageCounts(u), sums, Excesses(u, sums))
  {
  }

  /** What the categories' message counts are after a thread has gone. */
  lemma CountsFollow(u: Universe, w: map<Thread, int>, thread: Thread, deleteMessages: bool,
      held: map<Category, set<Thread>>, counts: map<Category, int>, excess: map<Category, int>)
    requires Before(u, w, held, counts, Going(w, thread, deleteMessages), excess)
    requires Excesses(u, Going(w, thread, deleteMessages)) == excess
    requires forall c | c in u.categories :: c.threads == held[c] - {thread}
    ensures forall c | c in u.categories ::
      c.messageCount == CountAfter(counts[c], w, held[c], thread, deleteMessages)
  {
    hide Going, CountAfter;
    ExcessesAre(u, Going(w, thread, deleteMessages));
    forall c | c in u.categories
      ensures c.messageCount == CountAfter(counts[c], w, held[c], thread, deleteMessages)
    {
      CountFollows(w, held[c], thread, deleteMessages, counts[c], c.messageCount);
    }
  }

  lemma GoesWithMessages(w: map<Thread, int>, thread: Thread)
    ensures Going(w, thread, true) == w
  {
  }

  /** The same, with what it means for the message counts of categories and tags. */
  method DeleteCounted(thread: Thread, deleteMessages: bool, ghost start: Forest<Category, Thread>, ghost u: Universe,
      ghost w: map<Thread, int>)
    requires Linked(u, w) && thread in u.threads && start == View(u)
    modifies thread`aboutToBeDeleted, thread`categories, thread.tags`threads, thread.tags`messageCount
    modifies u.categories`threads, u.categories`messageCount, TotalsOf(u)
    ensures thread.aboutToBeDeleted
    ensures Sound(u, w) && Outcome(start, View(u), w, true, true)
    ensures InOrder<Category, Thread>(start) ==> Forgotten(start, View(u), thread)
    ensures Unlisted<Category, Thread>(View(u), thread) <==> ListedAboveHolders<Category, Thread>(start, thread)
    ensures forall c | c in u.categories :: c.threads == old(c.threads) - {thread}
    ensures forall g | g in u.tags :: g.threads == old(g.threads) - {thread}
    ensures forall c | c in u.categories ::
      c.messageCount == CountAfter(old(c.messageCount), w, old(c.threads), thread, deleteMessages)
    ensures forall g | g in u.tags ::
      g.messageCount == CountAfter(old(g.messageCount), w, old(g.threads), thread, deleteMessages)
    ensures deleteMessages ==>
      Excesses(u, w) == old(Excesses(u, w)) && forall g | g in u.tags :: g.Excess(w) == old(g.Excess(w))
  {
    hide Linked, Sound, View, Excesses, Outcome, Forgotten, InOrder, Unlisted, ListedAboveHolders, Going, CountAfter;
    ghost var excess: map<Category, int> := Excesses(u, Going(w, thread, deleteMessages));
    ghost var held: map<Category, set<Thread>>, counts: map<Category, int> := Held(u), MessageCounts(u);
    NowIsBefore(u, w, Going(w, thread, deleteMessages));
    GoesWithMessages(w, thread);
    DeleteSoundly(thread, deleteMessages, start, excess, u, w);
    CountsFollow(u, w, thread, deleteMessages, held, counts, excess);
    forall g | g in u.tags && deleteMessages ensures g.Excess(w) == old(g.Excess(w)) {
      ExcessStays(w, old(g.threads), thread, old(g.messageCount));
    }
  }

  /** deleteDiscussionThread: what is left is a linked forum without the thread if and only if every total that listed
      the thread was above one of its holders. Exact counts stay exact in any case. */
  method DeleteDiscussionThread(thread: Thread, deleteMessages: bool, ghost u: Universe, ghost w: map<Thread, int>)
    requires Linked(u, w) && thread in u.threads
    modifies thread`aboutToBeDeleted, thread`categories, thread.tags`threads, thread.tags`messageCount
    modifies u.categories`threads, u.categories`messageCount, TotalsOf(u)
    ensures thread.aboutToBeDeleted
    ensures Related(Without(u, thread)) && Outcome(old(View(u)), View(u), w, true, true)
    ensures Linked(Without(u, thread), w - {thread}) <==> old(ListedAboveHolders<Category, Thread>(View(u), thread))
    ensures Linked(Without(u, thread), w - {thread}) ==>
      Drifts<Category, Thread>(View(Without(u, thread)), w - {thread}) == old(Drifts<Category, Thread>(View(u), w))
    ensures old(InOrder<Category, Thread>(View(u))) ==> Forgotten(old(View(u)), View(u), thread)
    ensures forall c | c in u.categories :: c.threads == old(c.threads) - {thread}
    ensures forall g | g in u.tags :: g.threads == old(g.threads) - {thread}
    ensures forall c | c in u.categories ::
      c.messageCount == CountAfter(old(c.messageCount), w, old(c.threads), thread, deleteMessages)
    ensures forall g | g in u.tags ::
      g.messageCount == CountAfter(old(g.messageCount), w, old(g.threads), thread, deleteMessages)
    ensures deleteMessages ==>
      Excesses(u, w) == old(Excesses(u, w)) && forall g | g in u.tags :: g.Excess(w) == old(g.Excess(w))
  {
    hide Sound, View, Excesses, Outcome, Forgotten, InOrder, Unlisted, ListedAboveHolders, CountAfter;
    ghost var v := Without(u, thread);
    DeleteCounted(thread, deleteMessages, View(u), u, w);
    SoundWithout(u, w, thread);
    OutcomeKeepsDrifts(old(View(u)), View(u), w, true, true);
    assert TagsLinked(v) by { hide HeldByTags, AllBackLinked, CategoriesLinked; }
    assert CategoriesLinked(v) by { hide HeldByTags, AllBackLinked, TagsLinked; }
    assert AllBackLinked(v) by { hide HeldByTags, TagsLinked, CategoriesLinked; }
    assert HeldByTags(v) by { hide AllBackLinked, BackLinked; }
    hide TagsLinked, CategoriesLinked, AllBackLinked, HeldByTags;
  }

  lemma MovingOutcome(f: Forest<Category, Thread>, category: Category, np: Option<Category>, w: map<Thread, int>)
    requires WellFormed<Category, Thread>(f) && MayMove<Category>(f.parent, category, np)
    ensures WellFormed<Category, Thread>(Move<Category, Thread>(f, category, np, w))
    ensures Outcome(f, Move<Category, Thread>(f, category, np, w), w,
                    MoveIsExact<Category, Thread>(f, category, np), HeldElsewhere<Category, Thread>(f, category))
  {
    hide Consistent, Move, MoveIsExact, HeldElsewhere, Drifts;
    MoveDrifts<Category, Thread>(f, category, np, w);
    MoveShape<Category, Thread>(f, category, np, w);
    if InOrder<Category, Thread>(f) { MoveCounting<Category, Thread>(f, category, np, w); }
    if Consistent<Category, Thread>(f) { MoveConsistent<Category, Thread>(f, category, np, w); }
  }

  /** Whether the category is its would-be parent's own ancestor; a category counts as its own ancestor here. */
  method WouldBeCircular(category: Category, newParent: Category, ghost u: Universe) returns (circular: bool)
    requires Valid(u) && Acyclic<Category>(Links(u)) && category in u.categories && newParent in u.categories
    requires category != newParent
    ensures circular <==> category in Path<Category>(Links(u), newParent)
  {
    circular := newParent.HasAncestor(category, u);
    WayStep<Category>(Links(u), newParent);
    assert Links(u)[newParent] == Optional(newParent.parent);
  }

  lemma ParentAt(u: Universe, category: Category)
    requires category in u.categories
    ensures View(u).parent == Links(u) && category in Links(u) && category in View(u).total
    ensures forall p: Category :: p in u.categories ==> p in Links(u)
  {
  }

  /** changeDiscussionCategoryParent: every count stays exact if and only if MoveIsExact held before, and lists and
      counts go on agreeing if and only if every moved thread is held elsewhere under each old ancestor. */
  method ChangeDiscussionCategoryParent(category: Category, newParent: Category?, ghost u: Universe,
      ghost w: map<Thread, int>)
    returns (status: StatusCode)
    requires Linked(u, w) && category in u.categories && (newParent != null ==> newParent in u.categories)
    modifies category`parent, TotalsOf(u)
    ensures Linked(u, w)
    ensures status == if category == newParent then INVALID_PARAMETERS
      else if newParent != null && category in Path<Category>(old(Links(u)), newParent)
        then CIRCULAR_REFERENCE_NOT_ALLOWED
      else if old(category.parent) != null && old(category.parent) == newParent then NO_EFFECT else OK
    ensures status != OK ==> View(u) == old(View(u))
    ensures status == OK ==> MayMove<Category>(old(Links(u)), category, Optional(newParent))
    ensures status == OK ==> View(u) == Move<Category, Thread>(old(View(u)), category, Optional(newParent), w)
    ensures status == OK ==> Outcome(old(View(u)), View(u), w,
      MoveIsExact<Category, Thread>(old(View(u)), category, Optional(newParent)),
      HeldElsewhere<Category, Thread>(old(View(u)), category))
  {
    hide Valid, Links, Held, TotalViews, Weights, Acyclic, WellFormed, View, Move, Outcome, MoveIsExact;
    hide HeldElsewhere, Path;
    hide TagsLinked, CategoriesLinked, AllBackLinked, HeldByTags, NoneLeaving;
    LinkedGives(u, w);
    if category == newParent { return INVALID_PARAMETERS; }
    if newParent != null {
      var circular := WouldBeCircular(category, newParent, u);
      if circular { return CIRCULAR_REFERENCE_NOT_ALLOWED; }
    }
    if category.parent != null && category.parent == newParent { return NO_EFFECT; }
    ParentAt(u, category);
    MovingOutcome(View(u), category, Optional(newParent), w);
    UpdateCategoryParent(category, newParent, u, w);
    return OK;
  }

  lemma NoForum()
    ensures Linked(Universe({}, {}, {}), map[])
    ensures Consistent<Category, Thread>(View(Universe({}, {}, {})))
    ensures AddsUp<Category, Thread>(View(Universe({}, {}, {})), map[])
  {
  }

  lemma ThreadJoins(u: Universe, w: map<Thread, int>, thread: Thread)
    requires Sound(u, w) && thread !in u.threads && thread.messageCount == 0
    requires thread.tags == {} && thread.categories == {}
    ensures var v := u.(threads := u.threads + {thread});
      && Sound(v, w[thread := 0]) && View(v) == View(u)
      && Drifts<Category, Thread>(View(v), w[thread := 0]) == Drifts<Category, Thread>(View(u), w)
  {
    hide Drifts;
    var v := u.(threads := u.threads + {thread});
    assert View(v) == View(u);
    assert forall c | c in View(u).total :: View(u).total[c] == TotalViews(u)[c] && View(u).total[c].byId <= u.threads;
    UnlistedWeight<Category, Thread>(View(u), thread, 0, w);
    hide WellFormed;
    assert Valid(v);
    assert w[thread := 0] == Weights(v);
  }

  lemma ThreadRelates(u: Universe, w: map<Thread, int>, thread: Thread)
    requires Linked(u, w) && thread !in u.threads && !thread.aboutToBeDeleted
    requires thread.tags == {} && thread.categories == {}
    ensures Related(u.(threads := u.threads + {thread}))
  {
    assert Closed(u);
    hide WellFormed;
  }

  /** A forum with one more thread, which has no messages and no tags yet. */
  method NewDiscussionThread(ghost u: Universe, ghost w: map<Thread, int>) returns (thread: Thread, ghost v: Universe)
    requires Linked(u, w)
    ensures fresh(thread) && v == u.(threads := u.threads + {thread}) && Linked(v, w[thread := 0]) && View(v) == View(u)
    ensures Drifts<Category, Thread>(View(v), w[thread := 0]) == Drifts<Category, Thread>(View(u), w)
  {
    hide Drifts, WellFormed, TagsLinked, CategoriesLinked, AllBackLinked, HeldByTags, Closed, Inside;
    assert forall o | o in TotalsOf(u) :: allocated(o);
    thread := new Thread();
    assert TotalViews(u) == old(TotalViews(u));
    v := u.(threads := u.threads + {thread});
    ThreadJoins(u, w, thread);
    ThreadRelates(u, w, thread);
  }

  lemma TagJoins(u: Universe, w: map<Thread, int>, tag: Tag)
    requires Linked(u, w) && tag !in u.tags && tag.threads == {} && tag.categories == {}
    ensures var v := u.(tags := u.tags + {tag}); Linked(v, w) && View(v) == View(u)
  {
    var v := u.(tags := u.tags + {tag});
    assert View(v) == View(u);
    assert Closed(u);
    hide WellFormed;
    assert Valid(v) && Weights(v) == Weights(u);
    assert Related(v);
  }

  /** A forum with one more tag, which is on no thread and in no category yet. */
  method NewDiscussionTag(ghost u: Universe, ghost w: map<Thread, int>) returns (tag: Tag, ghost v: Universe)
    requires Linked(u, w)
    ensures fresh(tag) && v == u.(tags := u.tags + {tag}) && Linked(v, w) && View(v) == View(u)
  {
    hide WellFormed, TagsLinked, CategoriesLinked, AllBackLinked, HeldByTags, Closed, Inside;
    assert forall o | o in TotalsOf(u) :: allocated(o);
    tag := new Tag();
    assert TotalViews(u) == old(TotalViews(u));
    v := u.(tags := u.tags + {tag});
    TagJoins(u, w, tag);
  }

  ghost predicate Blank(category: Category)
    reads category, category.totalThreads
  {
    && category.parent == null && category.threads == {} && category.tags == {}
    && category.totalThreads.View() == Totals({}, map[], 0)
  }

  lemma CategoryIsRoot(u: Universe, category: Category)
    requires Blank(category)
    ensures View(u.(categories := u.categories + {category})) == NewRoot<Category, Thread>(View(u), category)
  {
  }

  lemma CategoryJoins(u: Universe, w: map<Thread, int>, category: Category)
    requires Sound(u, w) && category !in u.categories && category.totalThreads !in TotalsOf(u) && Blank(category)
    ensures var v := u.(categories := u.categories + {category});
      Sound(v, w) && View(v) == NewRoot<Category, Thread>(View(u), category)
      && Created(View(u), View(v), w, category)
  {
    hide WellFormed, Created;
    var v := u.(categories := u.categories + {category});
    CategoryIsRoot(u, category);
    NewRootShape<Category, Thread>(View(u), category);
    CreationOutcome(View(u), category, w);
    hide NewRoot;
    assert TotalViews(v) == TotalViews(u)[category := Totals({}, map[], 0)];
    assert OwnTotals(v) && Closed(v) by { hide Inside, View; }
  }

  lemma CategoryRelates(u: Universe, w: map<Thread, int>, category: Category)
    requires Linked(u, w) && category !in u.categories && category.threads == {} && category.tags == {}
    ensures Related(u.(categories := u.categories + {category}))
  {
    assert Closed(u);
    hide WellFormed;
  }

  /** A forum with one more category, without parent, tags or threads. */
  method NewDiscussionCategory(ghost u: Universe, ghost w: map<Thread, int>)
    returns (category: Category, ghost v: Universe)
    requires Linked(u, w)
    ensures fresh(category) && v == u.(categories := u.categories + {category}) && Linked(v, w)
    ensures View(v) == NewRoot<Category, Thread>(View(u), category) && Created(View(u), View(v), w, category)
  {
    hide WellFormed, TagsLinked, CategoriesLinked, AllBackLinked, HeldByTags, Closed, Inside, Created;
    assert forall o | o in TotalsOf(u) :: allocated(o);
    category := new Category();
    assert TotalViews(u) == old(TotalViews(u));
    v := u.(categories := u.categories + {category});
    CategoryJoins(u, w, category);
    CategoryRelates(u, w, category);
  }

  lemma CreationOutcome(f: Forest<Category, Thread>, category: Category, w: map<Thread, int>)
    requires WellFormed<Category, Thread>(f) && category !in f.parent
    ensures Created(f, NewRoot<Category, Thread>(f, category), w, category)
  {
    hide NewRoot, WellFormed;
    if InOrder<Category, Thread>(f) { NewRootCounting<Category, Thread>(f, category); }
    NextDrifts<Category, Thread>(f, CategoryForest.Created(category), w);
  }

  /** What a new category does to the totals. */
  ghost predicate Created(
      f: Forest<Category, Thread>, g: Forest<Category, Thread>, w: map<Thread, int>, category: Category)
  {
    && (InOrder<Category, Thread>(f) ==> InOrder<Category, Thread>(g))
    && (Consistent<Category, Thread>(f) ==> Consistent<Category, Thread>(g))
    && Drifts<Category, Thread>(g, w) == Drifts<Category, Thread>(f, w)[category := 0]
  }

  /** The categories `cs` of a valid forum have been told about the thread's messages, starting from `start`. */
  ghost predicate Told(u: Universe, w: map<Thread, int>, start: Forest<Category, Thread>, counts: map<Category, int>,
      cs: seq<Category>, thread: Thread, delta: int)
    reads u.categories, u.tags, u.threads, TotalsOf(u)
  {
    && Valid(u) && Acyclic<Category>(Links(u)) && w == Weights(u)
    && View(u) == BumpAll<Category, Thread>(start, cs, thread, delta) && counts.Keys == u.categories
    && forall c | c in u.categories :: c.messageCount == counts[c] + if c in cs then delta else 0
  }

  lemma NobodyTold(u: Universe, w: map<Thread, int>, thread: Thread, delta: int)
    requires Valid(u) && Acyclic<Category>(Links(u)) && w == Weights(u)
    ensures Told(u, w, View(u), MessageCounts(u), [], thread, delta)
  {
  }

  lemma ToldGives(u: Universe, w: map<Thread, int>, start: Forest<Category, Thread>, counts: map<Category, int>,
      cs: seq<Category>, thread: Thread, delta: int)
    requires Told(u, w, start, counts, cs, thread, delta)
    ensures Valid(u) && Acyclic<Category>(Links(u)) && w == Weights(u) && counts.Keys == u.categories
    ensures View(u) == BumpAll<Category, Thread>(start, cs, thread, delta) && Links(u) == start.parent
    ensures forall c | c in u.categories :: c.messageCount == counts[c] + if c in cs then delta else 0
  {
    BumpAllShape<Category, Thread>(start, cs, thread, delta);
  }

  lemma ToldOneMore(u: Universe, w: map<Thread, int>, start: Forest<Category, Thread>, counts: map<Category, int>,
      cs: seq<Category>, c: Category, thread: Thread, delta: int)
    requires Valid(u) && Acyclic<Category>(Links(u)) && w == Weights(u) && counts.Keys == u.categories
    requires View(u) == Bump<Category, Thread>(BumpAll<Category, Thread>(start, cs, thread, delta), c, thread, delta)
    requires forall d | d in u.categories :: d.messageCount == counts[d] + if d in cs || d == c then delta else 0
    ensures Told(u, w, start, counts, cs + [c], thread, delta)
  {
    hide Valid, Links, Held, TotalViews, Weights, Acyclic, View, Bump;
    assert (cs + [c])[..|cs|] == cs;
  }

  method TellOne(c: Category, thread: Thread, delta: int, ghost cs: seq<Category>,
      ghost start: Forest<Category, Thread>, ghost counts: map<Category, int>, ghost u: Universe,
      ghost w: map<Thread, int>)
    requires Told(u, w, start, counts, cs, thread, delta) && c in u.categories && c !in cs
    modifies c`messageCount, TotalsOf(u)
    ensures Told(u, w, start, counts, cs + [c], thread, delta)
  {
    hide Valid, Links, Held, TotalViews, Weights, Acyclic, View, BumpAll, Bump, Told;
    ToldGives(u, w, start, counts, cs, thread, delta);
    BumpAllShape<Category, Thread>(start, cs, thread, delta);
    ViewIs(u);
    c.UpdateMessageCount(thread, delta, u);
    ViewIs(u);
    ToldOneMore(u, w, start, counts, cs, c, thread, delta);
  }

  /** The loop over the thread's categories. */
  method TellCategories(thread: Thread, delta: int, ghost start: Forest<Category, Thread>,
      ghost counts: map<Category, int>, ghost u: Universe, ghost w: map<Thread, int>)
      returns (ghost order: seq<Category>)
    requires Told(u, w, start, counts, [], thread, delta) && thread.categories <= u.categories
    modifies u.categories`messageCount, TotalsOf(u)
    ensures Told(u, w, start, counts, order, thread, delta)
    ensures Distinct(order) && AsSet(order) == thread.categories
  {
    hide Told;
    var cs := ListOf<Category>(thread.categories);
    for i := 0 to |cs|
      invariant Told(u, w, start, counts, cs[..i], thread, delta)
    {
      assert cs[..i + 1] == cs[..i] + [cs[i]];
      assert cs[i] in cs && cs[i] !in cs[..i];
      TellOne(cs[i], thread, delta, cs[..i], start, counts, u, w);
    }
    assert cs[..|cs|] == cs;
    order := cs;
  }

  /** The loop over the thread's tags. */
  method TellTags(thread: Thread, delta: int, ghost start: Forest<Category, Thread>, ghost u: Universe,
      ghost w: map<Thread, int>)
    requires Valid(u) && Acyclic<Category>(Links(u)) && w == Weights(u) && View(u) == start
    modifies thread.tags`messageCount
    ensures Valid(u) && Acyclic<Category>(Links(u)) && w == Weights(u) && View(u) == start
    ensures forall g | g in thread.tags :: g.messageCount == old(g.messageCount) + delta
  {
    hide Valid, Links, Held, TotalViews, Weights, Acyclic, View;
    var todo := thread.tags;
    while todo != {}
      invariant todo <= thread.tags
      invariant Valid(u) && Acyclic<Category>(Links(u)) && w == Weights(u) && View(u) == start
      invariant forall g | g in todo :: g.messageCount == old(g.messageCount)
      invariant forall g | g in thread.tags - todo :: g.messageCount == old(g.messageCount) + delta
      decreases todo
    {
      var tag :| tag in todo;
      tag.UpdateMessageCount(delta, u);
      todo := todo - {tag};
    }
  }

  /** The thread's tags first, then its categories. */
  method TellEveryone(thread: Thread, delta: int, ghost start: Forest<Category, Thread>,
      ghost counts: map<Category, int>, ghost u: Universe, ghost w: map<Thread, int>)
      returns (ghost order: seq<Category>)
    requires Valid(u) && Acyclic<Category>(Links(u)) && w == Weights(u) && start == View(u)
      && counts == MessageCounts(u)
    requires thread in u.threads && thread.categories <= u.categories
    modifies thread.tags`messageCount, u.categories`messageCount, TotalsOf(u)
    ensures forall g | g in thread.tags :: g.messageCount == old(g.messageCount) + delta
    ensures Told(u, w, start, counts, order, thread, delta)
    ensures Distinct(order) && AsSet(order) == thread.categories
  {
    hide Valid, Links, Held, TotalViews, Weights, Acyclic, Told, MessageCounts;
    TellTags(thread, delta, start, u, w);
    NobodyTold(u, w, thread, delta);
    order := TellCategories(thread, delta, start, counts, u, w);
  }

  /** The object updates when messages come into a thread or leave it: the thread first, then its tags, then its
      categories. */
  method UpdateMessageCounts(thread: Thread, delta: int, ghost start: Forest<Category, Thread>,
      ghost counts: map<Category, int>, ghost u: Universe, ghost w: map<Thread, int>)
      returns (ghost order: seq<Category>)
    requires Valid(u) && Acyclic<Category>(Links(u)) && w == Weights(u) && start == View(u)
      && counts == MessageCounts(u)
    requires thread in u.threads && thread.categories <= u.categories && thread in w
    modifies thread`messageCount, thread.tags`messageCount, u.categories`messageCount, TotalsOf(u)
    ensures thread.messageCount == old(thread.messageCount) + delta
    ensures forall g | g in thread.tags :: g.messageCount == old(g.messageCount) + delta
    ensures Told(u, w[thread := w[thread] + delta], start, counts, order, thread, delta)
    ensures Distinct(order) && AsSet(order) == thread.categories
  {
    hide Valid, Links, Held, TotalViews, Weights, Acyclic, Told, MessageCounts;
    thread.AddMessages(delta, u);
    order := TellEveryone(thread, delta, start, counts, u, w[thread := w[thread] + delta]);
  }

  /** A thread's new weight changes the sums over the lists it is in. */
  lemma HeavierSum(w: map<Thread, int>, ts: set<Thread>, thread: Thread, delta: int)
    requires thread in w
    ensures SumOver<Thread>(w[thread := w[thread] + delta], ts)
      == SumOver<Thread>(w, ts) + if thread in ts then delta else 0
  {
    SumReweighted<Thread>(w, ts, thread, delta);
  }

  /** What the round has done to the forum. */
  ghost predicate Recounted(u: Universe, w: map<Thread, int>, after: map<Thread, int>, start: Forest<Category, Thread>,
      order: seq<Category>, thread: Thread, delta: int)
    reads u.categories`parent, u.categories`threads, TotalsOf(u)
  {
    && ListsHolders<Category, Thread>(start, order, thread)
    && View(u) == BumpAll<Category, Thread>(start, order, thread, delta)
    && (InOrder<Category, Thread>(start) ==> InOrder<Category, Thread>(View(u)))
    && (Consistent<Category, Thread>(start) ==> Consistent<Category, Thread>(View(u)))
    && (AddsUp<Category, Thread>(start, w) ==>
          (AddsUp<Category, Thread>(View(u), after)
           <==> delta == 0 || CreditedOnce<Category, Thread>(start, order, thread)))
    && (InOrder<Category, Thread>(start) ==>
          (CreditedOnce<Category, Thread>(start, order, thread)
           <==> !CountedTwice<Category, Thread>(start, order, thread) && NowhereStale<Category, Thread>(start, thread)))
  }

  lemma RecountedForum(u: Universe, w: map<Thread, int>, after: map<Thread, int>, start: Forest<Category, Thread>,
      counts: map<Category, int>, order: seq<Category>, thread: Thread, delta: int)
    requires Told(u, after, start, counts, order, thread, delta) && WellFormed<Category, Thread>(start)
    requires thread in w && after == w[thread := w[thread] + delta]
    requires ListsHolders<Category, Thread>(start, order, thread)
    ensures Sound(u, after) && Recounted(u, w, after, start, order, thread, delta)
  {
    hide Valid, Links, Held, TotalViews, Weights, Acyclic, View, BumpAll, WellFormed, InOrder, Consistent, CreditedOnce;
    hide CountedTwice, NowhereStale, AddsUp, ListsHolders, Told;
    ToldGives(u, after, start, counts, order, thread, delta);
    assert Distinct(order) by { HoldersAreDistinct(start, order, thread); }
    RoundOutcome(start, order, thread, delta, w);
  }

  lemma HoldersAreDistinct(f: Forest<Category, Thread>, cs: seq<Category>, thread: Thread)
    requires ListsHolders<Category, Thread>(f, cs, thread)
    ensures Distinct(cs)
  {
  }

  lemma RoundOutcome(f: Forest<Category, Thread>, cs: seq<Category>, thread: Thread, delta: int, w: map<Thread, int>)
    requires WellFormed<Category, Thread>(f) && ListsHolders<Category, Thread>(f, cs, thread) && thread in w
    ensures var g := BumpAll<Category, Thread>(f, cs, thread, delta);
      && WellFormed<Category, Thread>(g)
      && (InOrder<Category, Thread>(f) ==> InOrder<Category, Thread>(g))
      && (Consistent<Category, Thread>(f) ==> Consistent<Category, Thread>(g))
      && (AddsUp<Category, Thread>(f, w) ==>
            (AddsUp<Category, Thread>(g, w[thread := w[thread] + delta])
             <==> delta == 0 || CreditedOnce<Category, Thread>(f, cs, thread)))
      && (InOrder<Category, Thread>(f) ==>
            (CreditedOnce<Category, Thread>(f, cs, thread)
             <==> !CountedTwice<Category, Thread>(f, cs, thread) && NowhereStale<Category, Thread>(f, thread)))
  {
    hide BumpAll, CreditedOnce, CountedTwice, NowhereStale, AddsUp;
    RoundKeepsCounts<Category, Thread>(f, cs, thread, delta);
    if AddsUp<Category, Thread>(f, w) { RoundAddsUp<Category, Thread>(f, cs, thread, delta, w); }
    if InOrder<Category, Thread>(f) { CreditedOnceWhenExact<Category, Thread>(f, cs, thread); }
  }

  lemma CategoriesCounted(u: Universe, w: map<Thread, int>, after: map<Thread, int>, excess: map<Category, int>,
      counts: map<Category, int>, order: seq<Category>, thread: Thread, delta: int)
    requires thread in w && after == w[thread := w[thread] + delta] && excess.Keys == counts.Keys == u.categories
    requires forall c | c in u.categories :: excess[c] == counts[c] - SumOver<Thread>(w, c.threads)
    requires forall c | c in u.categories :: c.messageCount == counts[c] + if c in order then delta else 0
    requires forall c | c in u.categories :: c in order <==> thread in c.threads
    ensures Excesses(u, after) == excess
  {
    hide SumOver;
    forall c | c in u.categories ensures excess[c] == c.Excess(after) {
      HeavierSum(w, c.threads, thread, delta);
    }
    ExcessesKept(u, after, excess);
  }

  lemma HoldersListed(u: Universe, start: Forest<Category, Thread>, order: seq<Category>, thread: Thread)
    requires start == View(u) && Distinct(order) && AsSet(order) == thread.categories
      && thread.categories <= u.categories
    requires forall c | c in u.categories :: c in thread.categories <==> thread in c.threads
    ensures ListsHolders<Category, Thread>(start, order, thread)
    ensures forall c | c in u.categories :: c in order <==> thread in c.threads
  {
    assert forall c | c in order :: c in AsSet(order);
    assert forall c | c in AsSet(order) :: c in order;
    StartIs(u, start);
  }

  lemma CountsAre(u: Universe, w: map<Thread, int>, excess: map<Category, int>, counts: map<Category, int>)
    requires excess == Excesses(u, w) && counts == MessageCounts(u)
    ensures excess.Keys == counts.Keys == u.categories
    ensures forall c | c in u.categories :: excess[c] == counts[c] - SumOver<Thread>(w, c.threads)
  {
    ExcessesAre(u, w);
  }

  lemma WeightAt(u: Universe, w: map<Thread, int>, thread: Thread)
    requires w == Weights(u) && thread in u.threads
    ensures thread in w && w[thread] == thread.messageCount
  {
  }

  lemma HeldStays(f: Forest<Category, Thread>, cs: seq<Category>, thread: Thread, delta: int)
    ensures BumpAll<Category, Thread>(f, cs, thread, delta).held == f.held
  {
    BumpAllShape<Category, Thread>(f, cs, thread, delta);
  }

  /** The same, with what it means for the forum. */
  method ChangeMessages(thread: Thread, delta: int, ghost start: Forest<Category, Thread>,
      ghost excess: map<Category, int>, ghost counts: map<Category, int>, ghost u: Universe, ghost w: map<Thread, int>)
      returns (ghost order: seq<Category>)
    requires Linked(u, w) && thread in u.threads && thread in w
    requires start == View(u) && excess == Excesses(u, w) && counts == MessageCounts(u)
    modifies thread`messageCount, thread.tags`messageCount, u.categories`messageCount, TotalsOf(u)
    ensures thread.messageCount == old(thread.messageCount) + delta
    ensures Linked(u, w[thread := w[thread] + delta])
    ensures Recounted(u, w, w[thread := w[thread] + delta], start, order, thread, delta)
    ensures Excesses(u, w[thread := w[thread] + delta]) == excess
    ensures forall g | g in u.tags :: g.Excess(w[thread := w[thread] + delta]) == old(g.Excess(w))
  {
    hide Sound, Valid, Links, Held, TotalViews, Weights, Acyclic, View, WellFormed, Told, Recounted, MessageCounts;
    hide Excesses, SumOver, TagsLinked, CategoriesLinked, AllBackLinked, HeldByTags, NoneLeaving;
    LinkedGives(u, w);
    ThreadReaches(u, w, thread);
    CountsAre(u, w, excess, counts);
    ghost var after := w[thread := w[thread] + delta];
    order := UpdateMessageCounts(thread, delta, start, counts, u, w);
    forall g | g in u.tags ensures g.Excess(after) == old(g.Excess(w)) {
      HeavierSum(w, g.threads, thread, delta);
    }
    ToldGives(u, after, start, counts, order, thread, delta);
    HoldersInOrder(u, start, order, thread, delta);
    CategoriesCounted(u, w, after, excess, counts, order, thread, delta);
    RecountedForum(u, w, after, start, counts, order, thread, delta);
  }

  lemma HoldersInOrder(u: Universe, start: Forest<Category, Thread>, order: seq<Category>, thread: Thread, delta: int)
    requires View(u) == BumpAll<Category, Thread>(start, order, thread, delta)
    requires Distinct(order) && AsSet(order) == thread.categories && thread.categories <= u.categories
    requires forall c | c in u.categories :: c in thread.categories <==> thread in c.threads
    ensures ListsHolders<Category, Thread>(start, order, thread)
    ensures forall c | c in u.categories :: c in order <==> thread in c.threads
  {
    HeldStays(start, order, thread, delta);
    HoldersListed(u, View(u), order, thread);
  }

  /** addNewDiscussionMessageInThread: references and counts are never affected; the running message totals stay the
      sums if and only if each total listing the thread is reached by one of its categories and no other is. */
  method AddNewDiscussionMessageInThread(thread: Thread, ghost u: Universe, ghost w: map<Thread, int>)
      returns (ghost order: seq<Category>)
    requires Linked(u, w) && thread in u.threads
    modifies thread`messageCount, thread.tags`messageCount, u.categories`messageCount, TotalsOf(u)
    ensures thread in w && thread.messageCount == old(thread.messageCount) + 1
    ensures Linked(u, w[thread := w[thread] + 1])
    ensures Recounted(u, w, w[thread := w[thread] + 1], old(View(u)), order, thread, 1)
    ensures Excesses(u, w[thread := w[thread] + 1]) == old(Excesses(u, w))
    ensures forall g | g in u.tags :: g.Excess(w[thread := w[thread] + 1]) == old(g.Excess(w))
  {
    hide Sound, View, Excesses, MessageCounts, Recounted, Weights, Related;
    LinkedGives(u, w);
    WeightAt(u, w, thread);
    order := ChangeMessages(thread, 1, View(u), Excesses(u, w), MessageCounts(u), u, w);
  }

  /** deleteDiscussionThreadMessage, for a thread that stays. */
  method DeleteDiscussionThreadMessage(thread: Thread, ghost u: Universe, ghost w: map<Thread, int>)
      returns (ghost order: seq<Category>)
    requires Linked(u, w) && thread in u.threads
    modifies thread`messageCount, thread.tags`messageCount, u.categories`messageCount, TotalsOf(u)
    ensures thread in w && thread.messageCount == old(thread.messageCount) - 1
    ensures Linked(u, w[thread := w[thread] - 1])
    ensures Recounted(u, w, w[thread := w[thread] - 1], old(View(u)), order, thread, -1)
    ensures Excesses(u, w[thread := w[thread] - 1]) == old(Excesses(u, w))
    ensures forall g | g in u.tags :: g.Excess(w[thread := w[thread] - 1]) == old(g.Excess(w))
  {
    hide Sound, View, Excesses, MessageCounts, Recounted, Weights, Related;
    LinkedGives(u, w);
    WeightAt(u, w, thread);
    order := ChangeMessages(thread, -1, View(u), Excesses(u, w), MessageCounts(u), u, w);
  }
}
