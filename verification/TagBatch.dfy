/** A batch of threads pushed through a tag: each category compacts the caller's array before the next one sees it. */
module TagBatches {
  import opened Wrappers
  import opened Sequences
  import opened ParentLinks
  import opened ThreadTotals
  import opened CategoryForest
  import opened Discussion

  /** The caller's array after a category has moved the threads it lacks to the front. */
  function Compacted<T(==)>(arr: seq<T>, held: set<T>): (r: seq<T>)
    ensures |r| == |arr|
  {
    Missing(arr, held) + arr[|Missing(arr, held)|..]
  }

  /** No held thread comes before one that is not held. */
  predicate HeldLast<T(==)>(arr: seq<T>, held: set<T>) {
    forall i, j | 0 <= i < j < |arr| && arr[i] in held :: arr[j] in held
  }

  datatype Batch<!C, T> = Batch(forest: Forest<C, T>, arr: seq<T>)

  /** What happens: every category inserts what it lacks of the array as the ones before have left it. */
  ghost function BatchInto<C, T>(f: Forest<C, T>, cs: seq<C>, arr: seq<T>, w: map<T, int>): (r: Batch<C, T>)
    requires forall c | c in cs :: c in f.held
    ensures r.forest.held.Keys == f.held.Keys && |r.arr| == |arr|
  {
    if cs == [] then Batch(f, arr)
    else
      var b, c := BatchInto(f, cs[..|cs| - 1], arr, w), cs[|cs| - 1];
      var held := b.forest.held[c];
      Batch(Insert(b.forest, c, Missing(b.arr, held), w), Compacted(b.arr, held))
  }

  /** What is meant: every category inserts what it lacks of the batch. */
  ghost function EachInto<C, T>(f: Forest<C, T>, cs: seq<C>, ts: seq<T>, w: map<T, int>): (r: Forest<C, T>)
    requires forall c | c in cs :: c in f.held
    ensures r.held.Keys == f.held.Keys
  {
    if cs == [] then f
    else
      var m, c := EachInto(f, cs[..|cs| - 1], ts, w), cs[|cs| - 1];
      Insert(m, c, Missing(ts, m.held[c]), w)
  }

  lemma {:induction false} MissingConcat<T>(a: seq<T>, b: seq<T>, held: set<T>)
    ensures Missing(a + b, held) == Missing(a, held) + Missing(b, held)
  {
    if b == [] {
      assert a + b == a;
    } else {
      assert (a + b)[..|a + b| - 1] == a + b[..|b| - 1];
      MissingConcat(a, b[..|b| - 1], held);
    }
  }

  lemma {:induction false} NoneHeld<T>(a: seq<T>, held: set<T>)
    requires forall i | 0 <= i < |a| :: a[i] !in held
    ensures Missing(a, held) == a
  {
    if a != [] { NoneHeld(a[..|a| - 1], held); }
  }

  lemma {:induction false} AllHeld<T>(a: seq<T>, held: set<T>)
    ensures Missing(a, held) == [] <==> forall i | 0 <= i < |a| :: a[i] in held
  {
    if a != [] {
      AllHeld(a[..|a| - 1], held);
    }
  }

  /** The threads held are split off where the first of them stands. */
  lemma {:induction false} FirstHeld<T>(arr: seq<T>, held: set<T>) returns (k: nat)
    ensures k <= |arr| && (forall i | 0 <= i < k :: arr[i] !in held) && (k < |arr| ==> arr[k] in held)
  {
    k := 0;
    while k < |arr| && arr[k] !in held
      invariant k <= |arr| && forall i | 0 <= i < k :: arr[i] !in held
    {
      k := k + 1;
    }
  }

  lemma FrontSame<T>(arr: seq<T>, held: set<T>)
    requires Compacted(arr, held) == arr
    ensures Missing(arr, held) == arr[..|Missing(arr, held)|]
  {
  }

  lemma HeldBehind<T>(a: seq<T>, b: seq<T>, held: set<T>)
    requires Missing(a + b, held) == a
    ensures (forall i | 0 <= i < |a| :: a[i] !in held) && forall i | 0 <= i < |b| :: b[i] in held
  {
    MissingMembers(a + b, held);
    assert forall i | 0 <= i < |a| :: a[i] in Missing(a + b, held);
    NoneHeld(a, held);
    MissingConcat(a, b, held);
    AllHeld(b, held);
  }

  lemma SameIsHeldLast<T>(arr: seq<T>, held: set<T>)
    requires Compacted(arr, held) == arr
    ensures HeldLast(arr, held)
  {
    FrontSame(arr, held);
    var n := |Missing(arr, held)|;
    var a, b := arr[..n], arr[n..];
    assert arr == a + b;
    hide Missing, Compacted;
    HeldBehind(a, b, held);
    assert forall j | n <= j < |arr| :: arr[j] == b[j - n];
  }

  lemma HeldLastIsSame<T>(arr: seq<T>, held: set<T>)
    requires HeldLast(arr, held)
    ensures Compacted(arr, held) == arr
  {
    var k := FirstHeld(arr, held);
    var a, b := arr[..k], arr[k..];
    assert arr == a + b;
    NoneHeld(a, held);
    MissingConcat(a, b, held);
    forall i | 0 <= i < |b| ensures b[i] in held { assert b[i] == arr[k + i]; }
    AllHeld(b, held);
  }

  /** Compacting leaves the array alone exactly when the held threads come last. */
  lemma CompactedSame<T>(arr: seq<T>, held: set<T>)
    ensures Compacted(arr, held) == arr <==> HeldLast(arr, held)
  {
    hide Compacted, HeldLast;
    if Compacted(arr, held) == arr { SameIsHeldLast(arr, held); }
    if HeldLast(arr, held) { HeldLastIsSame(arr, held); }
  }

  /** Inserting a batch for each category keeps a consistent forest consistent and reaches every one of them. */
  lemma {:induction false} EachIntoConsistent<C, T>(f: Forest<C, T>, cs: seq<C>, ts: seq<T>, w: map<T, int>)
    requires Consistent(f) && Distinct(ts) && forall c | c in cs :: c in f.held
    ensures var r := EachInto(f, cs, ts, w);
      && Consistent(r) && r.parent == f.parent
      && forall c | c in f.held :: r.held[c] == f.held[c] + if c in cs then AsSet(ts) else {}
  {
    hide Consistent;
    if cs != [] {
      var front, c := cs[..|cs| - 1], cs[|cs| - 1];
      assert cs == front + [c];
      EachIntoConsistent(f, front, ts, w);
      var m := EachInto(f, front, ts, w);
      MissingMembers(ts, m.held[c]);
      var added := Missing(ts, m.held[c]);
      assert m.held[c] + AsSet(added) == m.held[c] + AsSet(ts);
      NextConsistent(m, Inserted(c, added), w);
    }
  }

  /** The caller's array once the categories `cs` have worked on it. */
  ghost function ArrayAfter<C, T>(held: map<C, set<T>>, cs: seq<C>, ts: seq<T>): (r: seq<T>)
    requires forall c | c in cs :: c in held
    ensures |r| == |ts|
  {
    if cs == [] then ts else Compacted(ArrayAfter(held, cs[..|cs| - 1], ts), held[cs[|cs| - 1]])
  }

  /** What the `i`-th category lacks of the array as it sees it. */
  ghost function Seen<C, T>(held: map<C, set<T>>, cs: seq<C>, ts: seq<T>, i: nat): seq<T>
    requires i < |cs| && forall c | c in cs :: c in held
  {
    Missing(ArrayAfter(held, cs[..i], ts), held[cs[i]])
  }

  /** How often the `i`-th category gets a thread beyond what is meant. */
  ghost function ExtraAt<C, T>(held: map<C, set<T>>, cs: seq<C>, ts: seq<T>, i: nat, t: T): int
    requires i < |cs| && forall c | c in cs :: c in held
  {
    multiset(Seen(held, cs, ts, i))[t] as int - multiset(Missing(ts, held[cs[i]]))[t] as int
  }

  /** Every total from the category upwards lists the thread without a count, so adding it there has no effect. */
  ghost predicate Swallowed<C, T>(f: Forest<C, T>, c: C, t: T) {
    forall a | a in Path(f.parent, c) && a in f.total :: Stale(f.total[a], t)
  }

  /** The `i`-th category gets what it lacks of the batch, in whatever order, and gets nothing twice that any total
      would count. */
  ghost predicate AsMeantAt<C, T>(f: Forest<C, T>, cs: seq<C>, ts: seq<T>, i: nat)
    requires i < |cs| && forall c | c in cs :: c in f.held
  {
    forall t | t in ts ::
      ExtraAt(f.held, cs, ts, i, t) == 0 || (ExtraAt(f.held, cs, ts, i, t) > 0 && Swallowed(f, cs[i], t))
  }

  ghost predicate SameKeys<C, T>(f: Forest<C, T>) {
    f.held.Keys == f.parent.Keys && f.total.Keys == f.parent.Keys
  }

  /** How often each thread of a list occurs. */
  ghost function Tally<T>(ts: seq<T>): map<T, int> {
    map t | t in ts :: multiset(ts)[t]
  }

  lemma AddCountsMore<T>(s: Totals<T>, other: map<T, int>, t: T, w: map<T, int>)
    ensures AddCounts(s, other[t := CountOf(other, t) + 1], w) == Add(AddCounts(s, other, w), t, 1, w)
  {
    if t !in other {
      AddCountsStep(s, other, t, 1, w);
    } else {
      var more := other[t := other[t] + 1];
      assert more.Keys == other.Keys;
      assert AddCounts(s, more, w).refs == Add(AddCounts(s, other, w), t, 1, w).refs;
    }
  }

  lemma TallyMore<T>(ts: seq<T>, t: Option<T>)
    ensures Tally<T>([]) == map[]
    ensures t.Some? ==> Tally(ts + [t.value]) == Tally(ts)[t.value := CountOf(Tally(ts), t.value) + 1]
  {
  }

  /** Adding threads one by one depends on how often each occurs and not on their order. */
  lemma {:induction false} AddEachIsTally<T>(s: Totals<T>, ts: seq<T>, w: map<T, int>)
    ensures AddEach(s, ts, w) == AddCounts(s, Tally(ts), w)
  {
    hide AddCounts, Add, Tally;
    if ts == [] {
      AddNoCounts(s, w);
      TallyMore<T>([], None);
    } else {
      var front, t := ts[..|ts| - 1], ts[|ts| - 1];
      assert ts == front + [t];
      AddEachIsTally(s, front, w);
      AddCountsMore(s, Tally(front), t, w);
      TallyMore(front, Some(t));
    }
  }

  lemma AddCountsAlike<T>(s: Totals<T>, other: map<T, int>, other': map<T, int>, w: map<T, int>)
    requires other.Keys == other'.Keys && forall t | t in other :: other[t] == other'[t] || Stale(s, t)
    ensures AddCounts(s, other, w) == AddCounts(s, other', w)
  {
    assert AddCounts(s, other, w).refs == AddCounts(s, other', w).refs;
  }

  lemma TallyIs<T>(ts: seq<T>)
    ensures Tally(ts).Keys == AsSet(ts) && forall t | t in ts :: Tally(ts)[t] == multiset(ts)[t]
  {
  }

  /** Two lists of the same threads have the same effect unless a total would count one of them differently. */
  lemma InsertAlike<C, T>(f: Forest<C, T>, c: C, x: seq<T>, y: seq<T>, w: map<T, int>)
    requires c in f.held && AsSet(x) == AsSet(y)
    requires forall t | t in AsSet(y) :: multiset(x)[t] == multiset(y)[t] || Swallowed(f, c, t)
    ensures Insert(f, c, x, w) == Insert(f, c, y, w)
  {
    var g := f.(held := f.held[c := f.held[c] + AsSet(x)]);
    hide AddCounts, Tally, AddEach, Path, AsSet;
    TallyIs(x);
    TallyIs(y);
    forall a | a in f.total && a in Path(f.parent, c) ensures AddEach(f.total[a], x, w) == AddEach(f.total[a], y, w) {
      AddEachIsTally(f.total[a], x, w);
      AddEachIsTally(f.total[a], y, w);
      forall t | t in Tally(x) ensures Tally(x)[t] == Tally(y)[t] || Stale(f.total[a], t) {
        assert t in AsSet(y);
        TallyAt(x, t);
        TallyAt(y, t);
      }
      AddCountsAlike(f.total[a], Tally(x), Tally(y), w);
    }
    assert ApplyOn(g.total, Path(g.parent, c), AddThreads(x), w)
      == ApplyOn(g.total, Path(g.parent, c), AddThreads(y), w);
  }

  lemma TallyAt<T>(ts: seq<T>, t: T)
    requires t in AsSet(ts)
    ensures t in Tally(ts) && Tally(ts)[t] == multiset(ts)[t]
  {
  }

  lemma {:induction false} AddEachStale<T>(s: Totals<T>, ts: seq<T>, w: map<T, int>, t: T)
    ensures Stale(AddEach(s, ts, w), t) <==> Stale(s, t)
  {
    if ts != [] { AddEachStale(s, ts[..|ts| - 1], w, t); }
  }

  lemma InsertStale<C, T>(f: Forest<C, T>, c: C, ts: seq<T>, w: map<T, int>, a: C, t: T)
    requires c in f.held && a in f.total
    ensures a in Insert(f, c, ts, w).total
    ensures Stale(Insert(f, c, ts, w).total[a], t) <==> Stale(f.total[a], t)
  {
    AddEachStale(f.total[a], ts, w, t);
  }

  /** No insertion makes a listing stale or mends one. */
  lemma {:induction false} EachStale<C, T>(f: Forest<C, T>, cs: seq<C>, ts: seq<T>, w: map<T, int>, a: C, t: T)
    requires (forall c | c in cs :: c in f.held) && a in f.total
    ensures a in EachInto(f, cs, ts, w).total && EachInto(f, cs, ts, w).total.Keys == f.total.Keys
    ensures Stale(EachInto(f, cs, ts, w).total[a], t) <==> Stale(f.total[a], t)
  {
    hide Missing, Stale;
    if cs != [] {
      var front, c := cs[..|cs| - 1], cs[|cs| - 1];
      EachStale(f, front, ts, w, a, t);
      var m := EachInto(f, front, ts, w);
      InsertStale(m, c, Missing(ts, m.held[c]), w, a, t);
    }
  }

  lemma InsertShapes<C, T>(f: Forest<C, T>, c: C, ts: seq<T>, w: map<T, int>)
    requires SameKeys(f) && c in f.held
    ensures var r := Insert(f, c, ts, w);
      SameKeys(r) && r.parent == f.parent && r.held == f.held[c := f.held[c] + AsSet(ts)]
  {
  }

  lemma BatchUnfolded<C, T>(f: Forest<C, T>, cs: seq<C>, ts: seq<T>, w: map<T, int>)
    requires forall c | c in cs :: c in f.held
    ensures cs == [] ==> BatchInto(f, cs, ts, w) == Batch(f, ts) && ArrayAfter(f.held, cs, ts) == ts
    ensures cs != [] ==>
      var front, c := cs[..|cs| - 1], cs[|cs| - 1];
      var b := BatchInto(f, front, ts, w);
      && BatchInto(f, cs, ts, w) == Batch(Insert(b.forest, c, Missing(b.arr, b.forest.held[c]), w),
                                         Compacted(b.arr, b.forest.held[c]))
      && ArrayAfter(f.held, cs, ts) == Compacted(ArrayAfter(f.held, front, ts), f.held[c])
  {
    hide Missing, Compacted, Insert;
  }

  lemma DistinctFront<C>(cs: seq<C>)
    requires Distinct(cs) && cs != []
    ensures var front, c := cs[..|cs| - 1], cs[|cs| - 1]; cs == front + [c] && c !in front && Distinct(front)
  {
  }

  lemma SeenAlike<C, T>(held: map<C, set<T>>, cs: seq<C>, front: seq<C>, ts: seq<T>)
    requires cs != [] && front == cs[..|cs| - 1] && forall c | c in cs :: c in held
    ensures forall c | c in front :: c in held
    ensures forall i | 0 <= i < |front| :: Seen(held, cs, ts, i) == Seen(held, front, ts, i)
    ensures Seen(held, cs, ts, |front|) == Missing(ArrayAfter(held, front, ts), held[cs[|front|]])
  {
    assert cs == front + [cs[|front|]];
    hide Missing, ArrayAfter;
    forall i | 0 <= i < |front| ensures Seen(held, cs, ts, i) == Seen(held, front, ts, i) {
      assert cs[..i] == front[..i];
    }
  }

  /** What the batch does to the direct threads and to the array, category by category. */
  lemma {:induction false} BatchShape<C, T>(f: Forest<C, T>, cs: seq<C>, ts: seq<T>, w: map<T, int>)
    requires SameKeys(f) && Distinct(cs) && forall c | c in cs :: c in f.held
    ensures var r := BatchInto(f, cs, ts, w);
      && SameKeys(r.forest) && r.forest.parent == f.parent && r.arr == ArrayAfter(f.held, cs, ts)
      && (forall c | c in f.held && c !in cs :: r.forest.held[c] == f.held[c])
      && (forall i | 0 <= i < |cs| :: r.forest.held[cs[i]] == f.held[cs[i]] + AsSet(Seen(f.held, cs, ts, i)))
  {
    hide Missing, Compacted, Insert, Seen, ArrayAfter, BatchInto, SameKeys, AsSet, Distinct;
    BatchUnfolded(f, cs, ts, w);
    if cs != [] {
      var front, c := cs[..|cs| - 1], cs[|cs| - 1];
      DistinctFront(cs);
      BatchShape(f, front, ts, w);
      SeenAlike(f.held, cs, front, ts);
      InsertShapes(BatchInto(f, front, ts, w).forest, c, Seen(f.held, cs, ts, |front|), w);
      var r := BatchInto(f, cs, ts, w);
      forall i | 0 <= i < |cs| ensures r.forest.held[cs[i]] == f.held[cs[i]] + AsSet(Seen(f.held, cs, ts, i)) {
        if i < |front| { assert front[i] == cs[i] && front[i] in front; }
      }
    }
  }

  lemma {:induction false} EachShape<C, T>(f: Forest<C, T>, cs: seq<C>, ts: seq<T>, w: map<T, int>)
    requires SameKeys(f) && Distinct(cs) && forall c | c in cs :: c in f.held
    ensures var r := EachInto(f, cs, ts, w);
      && SameKeys(r) && r.parent == f.parent
      && (forall c | c in f.held && c !in cs :: r.held[c] == f.held[c])
      && (forall i | 0 <= i < |cs| :: r.held[cs[i]] == f.held[cs[i]] + AsSet(Missing(ts, f.held[cs[i]])))
  {
    hide Missing, Path;
    if cs != [] {
      var front, c := cs[..|cs| - 1], cs[|cs| - 1];
      assert cs == front + [c] && c !in front;
      EachShape(f, front, ts, w);
    }
  }

  /** What a category gets that gets what is meant. */
  lemma GetsWhatIsMeant<C, T>(f: Forest<C, T>, cs: seq<C>, ts: seq<T>, i: nat)
    requires Distinct(ts) && i < |cs| && (forall c | c in cs :: c in f.held) && AsMeantAt(f, cs, ts, i)
    ensures var x, y := Seen(f.held, cs, ts, i), Missing(ts, f.held[cs[i]]);
      && AsSet(x) == AsSet(y)
      && forall t | t in AsSet(y) :: multiset(x)[t] == multiset(y)[t] || Swallowed(f, cs[i], t)
  {
    hide Missing, Seen, Distinct, Swallowed;
    var x, y := Seen(f.held, cs, ts, i), Missing(ts, f.held[cs[i]]);
    forall t | t in x ensures t in y {
      ExtraBounds(f.held, cs, ts, i, t);
    }
    forall t | t in y ensures t in x && (multiset(x)[t] == multiset(y)[t] || Swallowed(f, cs[i], t)) {
      ExtraBounds(f.held, cs, ts, i, t);
    }
  }

  /** When every category gets what is meant, the forest is as meant. */
  lemma {:induction false} AsMeantIsEach<C, T>(f: Forest<C, T>, cs: seq<C>, ts: seq<T>, w: map<T, int>)
    requires SameKeys(f) && Distinct(ts) && Distinct(cs) && forall c | c in cs :: c in f.held
    requires forall i | 0 <= i < |cs| :: AsMeantAt(f, cs, ts, i)
    ensures BatchInto(f, cs, ts, w).forest == EachInto(f, cs, ts, w)
  {
    hide Missing, Compacted, Path, Insert, Seen, AsMeantAt, AsSet, Swallowed, BatchInto, EachInto, Distinct;
    BatchUnfolded(f, cs, ts, w);
    if cs == [] {
      EachUnfolded(f, cs, ts, w);
    } else {
      var front, c := cs[..|cs| - 1], cs[|cs| - 1];
      DistinctFront(cs);
      forall i | 0 <= i < |front| ensures AsMeantAt(f, front, ts, i) { AsMeantInFront(f, cs, front, ts, i); }
      AsMeantIsEach(f, front, ts, w);
      BatchLast(f, cs, ts, w);
      var m := EachInto(f, front, ts, w);
      GetsWhatIsMeant(f, cs, ts, |front|);
      var x, y := Seen(f.held, cs, ts, |front|), Missing(ts, f.held[c]);
      forall t | t in AsSet(y) ensures multiset(x)[t] == multiset(y)[t] || Swallowed(m, c, t) {
        if Swallowed(f, c, t) { StillSwallowed(f, front, ts, w, c, t); }
      }
      InsertAlike(m, c, x, y, w);
    }
  }

  lemma EachUnfolded<C, T>(f: Forest<C, T>, cs: seq<C>, ts: seq<T>, w: map<T, int>)
    requires cs == []
    ensures EachInto(f, cs, ts, w) == f
  {
  }

  lemma StillSwallowed<C, T>(f: Forest<C, T>, cs: seq<C>, ts: seq<T>, w: map<T, int>, c: C, t: T)
    requires SameKeys(f) && Distinct(cs) && (forall d | d in cs :: d in f.held) && Swallowed(f, c, t)
    ensures Swallowed(EachInto(f, cs, ts, w), c, t)
  {
    hide Path, EachInto, Stale;
    EachShape(f, cs, ts, w);
    var m := EachInto(f, cs, ts, w);
    forall a | a in Path(m.parent, c) && a in m.total ensures Stale(m.total[a], t) {
      assert a in f.total;
      EachStale(f, cs, ts, w, a, t);
    }
  }

  lemma AsMeantInFront<C, T>(f: Forest<C, T>, cs: seq<C>, front: seq<C>, ts: seq<T>, i: nat)
    requires cs != [] && front == cs[..|cs| - 1] && i < |front| && forall c | c in cs :: c in f.held
    requires AsMeantAt(f, cs, ts, i)
    ensures forall c | c in front :: c in f.held
    ensures AsMeantAt(f, front, ts, i)
  {
    assert cs == front + [cs[|cs| - 1]];
    hide Missing, ArrayAfter, Swallowed;
    assert front[..i] == cs[..i] && front[i] == cs[i];
  }

  /** The same for all categories below `a`. */
  ghost function Surplus<C, T>(f: Forest<C, T>, cs: seq<C>, ts: seq<T>, a: C, t: T): int
    requires forall c | c in cs :: c in f.held
  {
    if cs == [] then 0
    else
      Surplus(f, cs[..|cs| - 1], ts, a, t)
      + if a in Path(f.parent, cs[|cs| - 1]) then ExtraAt(f.held, cs, ts, |cs| - 1, t) else 0
  }

  lemma {:induction false} AddEachCounts<T>(s: Totals<T>, ts: seq<T>, w: map<T, int>, t: T)
    requires !Stale(s, t)
    ensures !Stale(AddEach(s, ts, w), t)
    ensures CountOf(AddEach(s, ts, w).refs, t) == CountOf(s.refs, t) + multiset(ts)[t]
  {
    if ts != [] {
      var front, u := ts[..|ts| - 1], ts[|ts| - 1];
      assert ts == front + [u];
      AddEachCounts(s, front, w, t);
    }
  }

  /** Where a total does not list the thread without a count, each occurrence is counted, even a second one. */
  lemma InsertCounts<C, T>(f: Forest<C, T>, c: C, ts: seq<T>, w: map<T, int>, a: C, t: T)
    requires c in f.held && a in f.total && !Stale(f.total[a], t)
    ensures a in Insert(f, c, ts, w).total && !Stale(Insert(f, c, ts, w).total[a], t)
    ensures CountOf(Insert(f, c, ts, w).total[a].refs, t)
      == CountOf(f.total[a].refs, t) + if a in Path(f.parent, c) then multiset(ts)[t] else 0
  {
    hide Path;
    AddEachCounts(f.total[a], ts, w, t);
  }

  /** Two forests with the same links after one more category has got its threads in each. */
  lemma InsertBoth<C, T>(b: Forest<C, T>, e: Forest<C, T>, c: C, x: seq<T>, y: seq<T>, w: map<T, int>, a: C, t: T)
    requires c in b.held && c in e.held && a in b.total && a in e.total && b.parent == e.parent
    requires !Stale(b.total[a], t) && !Stale(e.total[a], t)
    ensures a in Insert(b, c, x, w).total && a in Insert(e, c, y, w).total
    ensures !Stale(Insert(b, c, x, w).total[a], t) && !Stale(Insert(e, c, y, w).total[a], t)
    ensures CountOf(Insert(b, c, x, w).total[a].refs, t) - CountOf(Insert(e, c, y, w).total[a].refs, t)
      == CountOf(b.total[a].refs, t) - CountOf(e.total[a].refs, t)
         + if a in Path(b.parent, c) then multiset(x)[t] as int - multiset(y)[t] as int else 0
  {
    hide Path, Insert, Stale;
    InsertCounts(b, c, x, w, a, t);
    InsertCounts(e, c, y, w, a, t);
  }

  lemma BatchLast<C, T>(f: Forest<C, T>, cs: seq<C>, ts: seq<T>, w: map<T, int>)
    requires SameKeys(f) && Distinct(cs) && cs != [] && forall c | c in cs :: c in f.held
    ensures var front, c := cs[..|cs| - 1], cs[|cs| - 1];
      && BatchInto(f, cs, ts, w).forest
         == Insert(BatchInto(f, front, ts, w).forest, c, Seen(f.held, cs, ts, |cs| - 1), w)
      && EachInto(f, cs, ts, w) == Insert(EachInto(f, front, ts, w), c, Missing(ts, f.held[c]), w)
      && BatchInto(f, front, ts, w).forest.parent == EachInto(f, front, ts, w).parent == f.parent
      && BatchInto(f, front, ts, w).forest.total.Keys == EachInto(f, front, ts, w).total.Keys == f.total.Keys
  {
    hide Missing, Compacted, Path, Insert;
    var front, c := cs[..|cs| - 1], cs[|cs| - 1];
    assert cs == front + [c] && c !in front;
    BatchShape(f, front, ts, w);
    EachShape(f, front, ts, w);
  }

  /** The two forests differ in a count by the surplus. */
  lemma {:induction false} SurplusCounts<C, T>(f: Forest<C, T>, cs: seq<C>, ts: seq<T>, w: map<T, int>, a: C, t: T)
    requires SameKeys(f) && Distinct(cs) && (forall c | c in cs :: c in f.held) && a in f.total
    requires !Stale(f.total[a], t)
    ensures var b, e := BatchInto(f, cs, ts, w).forest, EachInto(f, cs, ts, w);
      && a in b.total && a in e.total && !Stale(b.total[a], t) && !Stale(e.total[a], t)
      && CountOf(b.total[a].refs, t) - CountOf(e.total[a].refs, t) == Surplus(f, cs, ts, a, t)
  {
    hide Missing, Compacted, Path, Insert, Stale, CountOf, Seen;
    if cs != [] {
      var front, c := cs[..|cs| - 1], cs[|cs| - 1];
      assert cs == front + [c];
      SurplusCounts(f, front, ts, w, a, t);
      BatchLast(f, cs, ts, w);
      var b, e := BatchInto(f, front, ts, w).forest, EachInto(f, front, ts, w);
      hide BatchInto, EachInto;
      InsertBoth(b, e, c, Seen(f.held, cs, ts, |cs| - 1), Missing(ts, f.held[c]), w, a, t);
    }
  }

  lemma {:induction false} ArrayMembers<C, T>(held: map<C, set<T>>, cs: seq<C>, ts: seq<T>)
    requires forall c | c in cs :: c in held
    ensures forall i | 0 <= i < |ts| :: ArrayAfter(held, cs, ts)[i] in AsSet(ts)
  {
    hide Compacted;
    if cs != [] {
      var front, c := cs[..|cs| - 1], cs[|cs| - 1];
      ArrayMembers(held, front, ts);
      CompactedElements(ArrayAfter(held, front, ts), held[c], AsSet(ts));
    }
  }

  lemma {:induction false} CountedOnce<T>(ts: seq<T>, t: T)
    requires Distinct(ts)
    ensures multiset(ts)[t] == if t in ts then 1 else 0
  {
    if ts != [] {
      var front, u := ts[..|ts| - 1], ts[|ts| - 1];
      assert ts == front + [u];
      CountedOnce(front, t);
    }
  }

  /** A category never gets a thread that is not meant for it, and gets one less often than meant only by not getting
      it at all. */
  lemma ExtraBounds<C, T>(held: map<C, set<T>>, cs: seq<C>, ts: seq<T>, i: nat, t: T)
    requires Distinct(ts) && i < |cs| && forall c | c in cs :: c in held
    ensures t in Seen(held, cs, ts, i) ==> t in Missing(ts, held[cs[i]])
    ensures t in Missing(ts, held[cs[i]]) ==> t in ts
    ensures ExtraAt(held, cs, ts, i, t) < 0 <==> t in Missing(ts, held[cs[i]]) && t !in Seen(held, cs, ts, i)
  {
    hide ArrayAfter;
    var before, c := cs[..i], cs[i];
    var arr := ArrayAfter(held, before, ts);
    ArrayMembers(held, before, ts);
    MissingMembers(arr, held[c]);
    MissingMembers(ts, held[c]);
    CountedOnce(Missing(ts, held[c]), t);
    assert t in Seen(held, cs, ts, i) <==> multiset(Seen(held, cs, ts, i))[t] > 0;
  }

  /** If no category lacks a thread it should get, no count falls short, and one that gets a thread twice counts it
      too often. */
  lemma {:induction false} SurplusSign<C, T>(f: Forest<C, T>, cs: seq<C>, ts: seq<T>, a: C, t: T, i: nat)
    requires Distinct(ts) && i < |cs| && (forall c | c in cs :: c in f.held) && a in Path(f.parent, cs[i])
    requires forall j | 0 <= j < |cs| :: ExtraAt(f.held, cs, ts, j, t) >= 0
    ensures Surplus(f, cs, ts, a, t) >= ExtraAt(f.held, cs, ts, i, t)
  {
    hide Path, ExtraAt;
    var front := cs[..|cs| - 1];
    assert cs == front + [cs[|cs| - 1]];
    SurplusNatural(f, front, ts, a, t, cs);
    if i < |front| {
      ExtraOfFront(f.held, cs, front, ts, t);
      SurplusSign(f, front, ts, a, t, i);
    }
  }

  lemma ExtraOfFront<C, T>(held: map<C, set<T>>, cs: seq<C>, front: seq<C>, ts: seq<T>, t: T)
    requires cs != [] && front == cs[..|cs| - 1] && forall c | c in cs :: c in held
    ensures forall c | c in front :: c in held
    ensures forall j | 0 <= j < |front| :: ExtraAt(held, front, ts, j, t) == ExtraAt(held, cs, ts, j, t)
  {
    assert cs == front + [cs[|cs| - 1]];
    hide ArrayAfter, Missing;
    forall j | 0 <= j < |front| ensures ExtraAt(held, front, ts, j, t) == ExtraAt(held, cs, ts, j, t) {
      assert front[..j] == cs[..j];
    }
  }

  lemma {:induction false} SurplusNatural<C, T>(
      f: Forest<C, T>, front: seq<C>, ts: seq<T>, a: C, t: T, cs: seq<C>)
    requires cs != [] && front == cs[..|cs| - 1] && forall c | c in cs :: c in f.held
    requires forall j | 0 <= j < |cs| :: ExtraAt(f.held, cs, ts, j, t) >= 0
    ensures Surplus(f, front, ts, a, t) >= 0
  {
    hide Path, ExtraAt;
    assert cs == front + [cs[|cs| - 1]];
    ExtraOfFront(f.held, cs, front, ts, t);
    if front != [] {
      SurplusNatural(f, front[..|front| - 1], ts, a, t, front);
    }
  }

  /** Some category does not get what is meant for it: then the forest is not as meant, whatever the others get. */
  lemma NotAsMeant<C, T>(f: Forest<C, T>, cs: seq<C>, ts: seq<T>, w: map<T, int>, i: nat, t: T)
    requires SameKeys(f) && Distinct(ts) && Distinct(cs) && forall c | c in cs :: c in f.held
    requires i < |cs| && ExtraAt(f.held, cs, ts, i, t) != 0
    requires ExtraAt(f.held, cs, ts, i, t) > 0 ==> !Swallowed(f, cs[i], t)
    ensures BatchInto(f, cs, ts, w).forest != EachInto(f, cs, ts, w)
  {
    hide Missing, Compacted, Insert, ArrayAfter, Seen, ExtraAt, BatchInto, EachInto, Stale, Path;
    if exists j :: 0 <= j < |cs| && ExtraAt(f.held, cs, ts, j, t) < 0 {
      var j :| 0 <= j < |cs| && ExtraAt(f.held, cs, ts, j, t) < 0;
      BatchShape(f, cs, ts, w);
      EachShape(f, cs, ts, w);
      ExtraBounds(f.held, cs, ts, j, t);
      MissingMembers(ts, f.held[cs[j]]);
      assert t in EachInto(f, cs, ts, w).held[cs[j]] && t !in BatchInto(f, cs, ts, w).forest.held[cs[j]];
    } else {
      var a :| a in Path(f.parent, cs[i]) && a in f.total && !Stale(f.total[a], t);
      SurplusSign(f, cs, ts, a, t, i);
      SurplusCounts(f, cs, ts, w, a, t);
    }
  }

  /** What happens to a batch is what is meant if and only if each category gets, of the array as it sees it, what it
      lacks of the batch: no thread less, and none twice unless all totals from it upwards list the thread without a
      count. */
  lemma BatchIsEach<C, T>(f: Forest<C, T>, cs: seq<C>, ts: seq<T>, w: map<T, int>)
    requires SameKeys(f) && Distinct(ts) && Distinct(cs) && forall c | c in cs :: c in f.held
    ensures BatchInto(f, cs, ts, w).forest == EachInto(f, cs, ts, w)
      <==> forall i | 0 <= i < |cs| :: AsMeantAt(f, cs, ts, i)
  {
    hide BatchInto, EachInto, Swallowed, ExtraAt;
    if forall i | 0 <= i < |cs| :: AsMeantAt(f, cs, ts, i) {
      AsMeantIsEach(f, cs, ts, w);
    } else {
      var i :| 0 <= i < |cs| && !AsMeantAt(f, cs, ts, i);
      var t :| t in ts && ExtraAt(f.held, cs, ts, i, t) != 0
        && !(ExtraAt(f.held, cs, ts, i, t) > 0 && Swallowed(f, cs[i], t));
      NotAsMeant(f, cs, ts, w, i, t);
    }
  }

  lemma FrontCounts<T>(ts: seq<T>, first: set<T>, second: set<T>, i: nat)
    requires Distinct(ts) && i < |ts|
    ensures var n := |Missing(ts, first)|;
      && multiset(Missing(Missing(ts, first), second))[ts[i]] == (if ts[i] in first || ts[i] in second then 0 else 1)
      && multiset(Missing(ts[..n], second))[ts[i]] == if i < n && ts[i] !in second then 1 else 0
  {
    var m := Missing(ts, first);
    var n := |m|;
    MissingMembers(ts, first);
    MissingMembers(m, second);
    MissingMembers(ts[..n], second);
    hide Missing;
    CountedOnce(Missing(m, second), ts[i]);
    CountedOnce(Missing(ts[..n], second), ts[i]);
    assert ts[i] in ts;
    if i < n { assert ts[..n][i] in ts[..n]; }
  }

  /** What the second of two categories gets too often or not at all: one that the first has overwritten is lost, one
      that it has moved forward without overwriting it comes twice. */
  lemma PairExtra<C, T>(held: map<C, set<T>>, c: C, d: C, ts: seq<T>, i: nat)
    requires Distinct(ts) && c in held && d in held && i < |ts|
    ensures ExtraAt(held, [c, d], ts, 0, ts[i]) == 0
    ensures var n := |Missing(ts, held[c])|;
      ExtraAt(held, [c, d], ts, 1, ts[i])
      == if ts[i] in held[d] || (i < n <==> ts[i] !in held[c]) then 0 else if i < n then -1 else 1
  {
    hide Missing, Distinct;
    var m := Missing(ts, held[c]);
    var n := |m|;
    assert [c, d][..0] == [] && [c, d][..1] == [c] && [c][..0] == [];
    assert ArrayAfter(held, [c], ts) == m + ts[n..];
    MissingConcat(m, ts[n..], held[d]);
    MissingConcat(ts[..n], ts[n..], held[d]);
    assert ts == ts[..n] + ts[n..];
    FrontCounts(ts, held[c], held[d], i);
  }

  /** Two categories: what happens to a batch is what is meant if and only if the second one holds every thread that the
      first one has overwritten, and every thread that the first one has moved forward without overwriting it, except
      where all totals from the second one upwards list it without a count. */
  lemma TwoCategoriesAsMeant<C, T>(f: Forest<C, T>, c: C, d: C, ts: seq<T>, w: map<T, int>)
    requires SameKeys(f) && Distinct(ts) && c != d && c in f.held && d in f.held
    ensures var n := |Missing(ts, f.held[c])|;
      BatchInto(f, [c, d], ts, w).forest == EachInto(f, [c, d], ts, w)
      <==> (forall i | 0 <= i < n && ts[i] in f.held[c] :: ts[i] in f.held[d])
           && forall i | n <= i < |ts| && ts[i] !in f.held[c] :: ts[i] in f.held[d] || Swallowed(f, d, ts[i])
  {
    hide Missing, BatchInto, EachInto, Distinct, Swallowed, ExtraAt;
    assert Distinct([c, d]) by { DistinctPair(c, d); }
    BatchIsEach(f, [c, d], ts, w);
    forall i | 0 <= i < |ts|
      ensures ExtraAt(f.held, [c, d], ts, 0, ts[i]) == 0
      ensures var n := |Missing(ts, f.held[c])|;
        ExtraAt(f.held, [c, d], ts, 1, ts[i])
        == if ts[i] in f.held[d] || (i < n <==> ts[i] !in f.held[c]) then 0 else if i < n then -1 else 1
    {
      PairExtra(f.held, c, d, ts, i);
    }
    assert AsMeantAt(f, [c, d], ts, 0);
    assert AsMeantAt(f, [c, d], ts, 1)
      <==> forall i | 0 <= i < |ts| ::
             ExtraAt(f.held, [c, d], ts, 1, ts[i]) == 0
             || (ExtraAt(f.held, [c, d], ts, 1, ts[i]) > 0 && Swallowed(f, d, ts[i]));
    hide AsMeantAt;
    assert forall i | 0 <= i < 2 :: AsMeantAt(f, [c, d], ts, i) <==> i == 0 || AsMeantAt(f, [c, d], ts, 1);
  }

  lemma DistinctPair<C>(c: C, d: C)
    requires c != d
    ensures Distinct([c, d])
  {
  }

  /** Two categories without parents carry the tag and the first holds thread 7 already. Of the batch 7, 8 the second
      one never gets 7, and counts 8 twice. */
  lemma BatchLosesThread()
    ensures var f := Forest(map[1 := None, 2 := None], map[1 := {7}, 2 := {}],
                            map[1 := Totals({7}, map[7 := 1], 5), 2 := Totals({}, map[], 0)]);
      var g := BatchInto(f, [1, 2], [7, 8], map[7 := 5, 8 := 3]).forest;
      1 in g.held && g.held[1] == {7, 8} && 2 in g.held && g.held[2] == {8} && 2 in g.total
        && g.total[2] == Totals({8}, map[8 := 2], 3)
  {
    var w: map<int, int> := map[7 := 5, 8 := 3];
    var f: Forest<int, int> := Forest(map[1 := None, 2 := None], map[1 := {7}, 2 := {}],
                                      map[1 := Totals({7}, map[7 := 1], 5), 2 := Totals({}, map[], 0)]);
    SevenAndEight(w);
    InsertAtRoot(f, 1, [8], w);
    var a := Insert(f, 1, [8], w);
    InsertAtRoot(a, 2, [8, 8], w);
    assert AsSet([8]) == {8} && AsSet([8, 8]) == {8};
    assert f.held[1] == {7} && f.held[1] + AsSet([8]) == {7, 8};
    assert a.held[1] == {7, 8} && a.held[2] == {} && a.held.Keys == {1, 2} && a.total[2] == Totals({}, map[], 0);
    hide Insert, Missing, Compacted, AddEach;
    TwoCategories(f, 1, 2, [7, 8], w);
  }

  lemma SevenAndEight(w: map<int, int>)
    requires w == map[7 := 5, 8 := 3]
    ensures Missing([7, 8], {7}) == [8] && Compacted([7, 8], {7}) == [8, 8] && Missing([8, 8], {}) == [8, 8]
    ensures AddEach(Totals({}, map[], 0), [8, 8], w) == Totals({8}, map[8 := 2], 3)
  {
    assert [7, 8][..1] == [7] && [7][..0] == [];
    assert [8, 8][..1] == [8] && [8][..0] == [];
    NoneHeld([8, 8], {});
    assert AddEach(Totals({}, map[], 0), [8], w) == Totals({8}, map[8 := 1], 3);
  }

  lemma TwoCategories<C, T>(f: Forest<C, T>, c: C, d: C, ts: seq<T>, w: map<T, int>)
    requires c in f.held && d in f.held
    ensures var a := Insert(f, c, Missing(ts, f.held[c]), w);
      && d in a.held
      && BatchInto(f, [c, d], ts, w).forest == Insert(a, d, Missing(Compacted(ts, f.held[c]), a.held[d]), w)
  {
    hide Missing, Compacted;
    assert [c, d][..1] == [c] && [c][..0] == [];
    assert BatchInto(f, [c], ts, w) == Batch(Insert(f, c, Missing(ts, f.held[c]), w), Compacted(ts, f.held[c]));
  }

  lemma InsertAtRoot<C, T>(f: Forest<C, T>, c: C, ts: seq<T>, w: map<T, int>)
    requires c in f.parent && f.parent[c] == None && c in f.held && c in f.total
    ensures Insert(f, c, ts, w)
      == Forest(f.parent, f.held[c := f.held[c] + AsSet(ts)], f.total[c := AddEach(f.total[c], ts, w)])
  {
    assert Path(f.parent, c) == {c};
    var r := Insert(f, c, ts, w);
    assert r.total == f.total[c := AddEach(f.total[c], ts, w)];
  }

  /** The message counts of the threads at the front of the array. */
  method SumMessages(arr: array<Thread>, n: nat, ghost w: map<Thread, int>) returns (sum: int)
    requires n <= arr.Length && forall i | 0 <= i < n :: WeightOf(w, arr[i]) == arr[i].messageCount
    ensures sum == TotalMessages(arr[..n], w)
  {
    sum := 0;
    for i := 0 to n
      invariant sum == TotalMessages(arr[..i], w)
    {
      assert arr[..i + 1][..i] == arr[..i];
      sum := sum + arr[i].messageCount;
    }
  }

  lemma BatchOneMore<C, T>(f: Forest<C, T>, cs: seq<C>, c: C, arr: seq<T>, w: map<T, int>)
    requires c in f.held && forall d | d in cs :: d in f.held
    ensures var b := BatchInto(f, cs, arr, w);
      BatchInto(f, cs + [c], arr, w)
      == Batch(Insert(b.forest, c, Missing(b.arr, b.forest.held[c]), w), Compacted(b.arr, b.forest.held[c]))
  {
    hide Insert, Missing, Compacted;
    assert (cs + [c])[..|cs|] == cs;
  }

  lemma AllMissingIn<T>(arr: seq<T>, held: set<T>, all: set<T>)
    requires forall i | 0 <= i < |arr| :: arr[i] in all
    ensures forall i | 0 <= i < |Missing(arr, held)| :: Missing(arr, held)[i] in all
  {
    MissingMembers(arr, held);
    var m := Missing(arr, held);
    forall i | 0 <= i < |m| ensures m[i] in all {
      assert m[i] in m && m[i] in arr;
      var j :| 0 <= j < |arr| && arr[j] == m[i];
    }
  }

  lemma CompactedElements<T>(arr: seq<T>, held: set<T>, all: set<T>)
    requires forall i | 0 <= i < |arr| :: arr[i] in all
    ensures forall i | 0 <= i < |arr| :: Compacted(arr, held)[i] in all
  {
    AllMissingIn(arr, held, all);
    var m := Missing(arr, held);
    hide Missing;
    forall i | 0 <= i < |arr| ensures Compacted(arr, held)[i] in all {
      assert Compacted(arr, held)[i] == if i < |m| then m[i] else arr[i];
    }
  }

  /** The array never gets new elements. */
  lemma {:induction false} BatchElements<C, T>(f: Forest<C, T>, cs: seq<C>, arr: seq<T>, w: map<T, int>, all: set<T>)
    requires (forall d | d in cs :: d in f.held) && forall i | 0 <= i < |arr| :: arr[i] in all
    ensures forall i | 0 <= i < |arr| :: BatchInto(f, cs, arr, w).arr[i] in all
  {
    if cs != [] {
      BatchElements(f, cs[..|cs| - 1], arr, w, all);
      var b, c := BatchInto(f, cs[..|cs| - 1], arr, w), cs[|cs| - 1];
      hide Insert;
      CompactedElements(b.arr, b.forest.held[c], all);
    }
  }

  lemma CompactedIs<T>(arr: seq<T>, held: set<T>)
    ensures Compacted(arr, held) == Missing(arr, held) + arr[|Missing(arr, held)|..]
  {
  }

  lemma FrontAndRest<T>(was: seq<T>, now: seq<T>, before: seq<T>, added: seq<T>, n: nat)
    requires |now| == |was| && |added| <= n <= |now| && before == was[..n]
    requires now[..|added|] == added && now[|added|..] == was[|added|..]
    ensures now[..n] == added + before[|added|..]
  {
    assert forall k | |added| <= k < n :: now[k] == now[|added|..][k - |added|];
  }

  /** Compacting an array leaves the forum alone. */
  method CompactFor(held: set<Thread>, arr: array<Thread>, count: nat, ghost u: Universe) returns (n: nat)
    requires Valid(u) && count <= arr.Length
    modifies arr
    ensures Valid(u) && View(u) == old(View(u)) && Weights(u) == old(Weights(u)) && Links(u) == old(Links(u))
    ensures n <= count && arr[..n] == Missing<Thread>(old(arr[..count]), held)
  {
    hide Valid, View, Weights, Links, Missing;
    assert forall o | o in TotalsOf(u) :: (o as object) != arr;
    n := Compact(arr, count, held);
  }

  lemma WeightsAre(u: Universe, w: map<Thread, int>, tag: Tag)
    requires Valid(u) && w == Weights(u) && tag in u.tags
    ensures tag.threads <= u.threads && tag.categories <= u.categories
    ensures forall t | t in u.threads :: WeightOf(w, t) == t.messageCount
  {
  }

  /** The tag's own part: it takes the threads it lacks, which are then at the front of the array. */
  method TakeForTag(tag: Tag, arr: array<Thread>, count: nat, ghost u: Universe, ghost w: map<Thread, int>)
      returns (n: nat)
    requires Valid(u) && tag in u.tags && w == Weights(u)
    requires count <= arr.Length && forall i | 0 <= i < count :: arr[i] in u.threads
    modifies arr, tag`threads, tag`messageCount
    ensures Valid(u) && w == Weights(u) && View(u) == old(View(u)) && Links(u) == old(Links(u))
    ensures n <= arr.Length && arr[..n] == Missing<Thread>(old(arr[..count]), old(tag.threads))
    ensures forall i | 0 <= i < n :: arr[i] in u.threads
    ensures tag.threads == old(tag.threads) + AsSet(arr[..n])
    ensures tag.messageCount == old(tag.messageCount) + TotalMessages(arr[..n], w)
  {
    hide Valid, Links, Held, TotalViews, Weights, TotalMessages, Missing;
    WeightsAre(u, w, tag);
    ghost var was := arr[..count];
    n := CompactFor(tag.threads, arr, count, u);
    ghost var added := arr[..n];
    AllMissingIn(was, tag.threads, u.threads);
    assert forall i | 0 <= i < n :: arr[i] == added[i];
    assert forall o | o in TotalsOf(u) :: allocated(o);
    var sum := SumMessages(arr, n, w);
    tag.SetThreads(tag.threads + AsSet(arr[..n]), sum, u);
  }

  /** The categories among `cs` that got a thread. */
  ghost function Gaining<C, T>(held: map<C, set<T>>, cs: seq<C>, ts: seq<T>, t: T): set<C>
    requires forall c | c in cs :: c in held
  {
    if cs == [] then {}
    else
      Gaining(held, cs[..|cs| - 1], ts, t)
      + if t in Seen(held, cs, ts, |cs| - 1) then {cs[|cs| - 1]} else {}
  }

  /** The messages a category got with its threads. */
  ghost function MessagesGained(held: map<Category, set<Thread>>, cs: seq<Category>, ts: seq<Thread>, c: Category,
      w: map<Thread, int>): int
    requires forall d | d in cs :: d in held
  {
    if cs == [] then 0
    else
      MessagesGained(held, cs[..|cs| - 1], ts, c, w)
      + if c == cs[|cs| - 1] then TotalMessages(Seen<Category, Thread>(held, cs, ts, |cs| - 1), w) else 0
  }

  /** The categories `cs` of a valid forum have worked on the front of the array, which held `ts`, starting from
      `start`. */
  ghost predicate InBatch(u: Universe, w: map<Thread, int>, arr: array<Thread>, n: nat, start: Forest<Category, Thread>,
      cs: seq<Category>, ts: seq<Thread>)
    reads arr, u.categories, u.tags, u.threads, TotalsOf(u)
  {
    && Valid(u) && Acyclic<Category>(Links(u)) && w == Weights(u) && Links(u) == start.parent
    && start.held.Keys == start.parent.Keys == start.total.Keys == u.categories
    && (forall c | c in cs :: c in start.held)
    && n <= arr.Length && (forall t | t in ts :: t in u.threads)
    && Batch(View(u), arr[..n]) == BatchInto<Category, Thread>(start, cs, ts, w)
  }

  /** Message counts and back links have kept step. */
  ghost predicate Booked(u: Universe, w: map<Thread, int>, held: map<Category, set<Thread>>, cs: seq<Category>,
      ts: seq<Thread>, messages: map<Category, int>, links: map<Thread, set<Category>>)
    reads u.categories`messageCount, u.threads`categories
    requires forall c | c in cs :: c in held
  {
    && messages.Keys == u.categories && links.Keys == u.threads
    && (forall c | c in u.categories :: c.messageCount == messages[c] + MessagesGained(held, cs, ts, c, w))
    && (forall t | t in u.threads :: t.categories == links[t] + Gaining<Category, Thread>(held, cs, ts, t))
  }

  lemma InBatchGives(u: Universe, w: map<Thread, int>, arr: array<Thread>, n: nat, start: Forest<Category, Thread>,
      cs: seq<Category>, ts: seq<Thread>, c: Category)
    requires InBatch(u, w, arr, n, start, cs, ts) && Distinct(cs) && c in u.categories && c !in cs
    ensures Valid(u) && Acyclic<Category>(Links(u)) && w == Weights(u) && n <= arr.Length
    ensures forall d | d in cs :: d in start.held
    ensures c in start.held && c.threads == start.held[c]
      && arr[..n] == ArrayAfter<Category, Thread>(start.held, cs, ts)
    ensures forall i | 0 <= i < n :: arr[i] in u.threads
    ensures View(u) == BatchInto<Category, Thread>(start, cs, ts, w).forest && View(u).parent == start.parent
  {
    HeldAt(u, c);
    ViewIs(u);
    hide Valid, Acyclic, Links, Held, TotalViews, Weights, BatchInto, ArrayAfter, View;
    BatchShape<Category, Thread>(start, cs, ts, w);
    ArrayMembers<Category, Thread>(start.held, cs, ts);
    assert forall i | 0 <= i < n :: arr[i] == arr[..n][i];
    assert forall t | t in AsSet(ts) :: t in u.threads;
  }

  lemma InBatchOn(u: Universe, w: map<Thread, int>, arr: array<Thread>, n: nat, start: Forest<Category, Thread>,
      cs: seq<Category>, ts: seq<Thread>, c: Category, before: Forest<Category, Thread>)
    requires Valid(u) && Acyclic<Category>(start.parent) && w == Weights(u) && n <= arr.Length
      && before.parent == start.parent
    requires start.held.Keys == start.parent.Keys == start.total.Keys == u.categories
    requires c in start.held && c !in cs && Distinct(cs) && (forall d | d in cs :: d in start.held)
    requires forall t | t in ts :: t in u.threads
    requires before == BatchInto<Category, Thread>(start, cs, ts, w).forest
    requires View(u) == Insert<Category, Thread>(before, c,
      Missing<Thread>(ArrayAfter<Category, Thread>(start.held, cs, ts), start.held[c]), w)
    requires arr[..n] == Compacted<Thread>(ArrayAfter<Category, Thread>(start.held, cs, ts), start.held[c])
    ensures InBatch(u, w, arr, n, start, cs + [c], ts)
  {
    ViewIs(u);
    hide Valid, Acyclic, Links, Held, TotalViews, Weights, BatchInto, ArrayAfter, View, Compacted, Missing;
    hide ApplyOn, Path;
    BatchShape<Category, Thread>(start, cs, ts, w);
    BatchOneMore<Category, Thread>(start, cs, c, ts, w);
  }

  /** One round of the loop over the tag's categories. */
  method BatchStep(c: Category, arr: array<Thread>, n: nat, ghost start: Forest<Category, Thread>,
      ghost cs: seq<Category>, ghost ts: seq<Thread>, ghost u: Universe, ghost w: map<Thread, int>)
      returns (ghost added: seq<Thread>)
    requires InBatch(u, w, arr, n, start, cs, ts) && Distinct(cs) && c in u.categories && c !in cs
    modifies arr, c`threads, c`messageCount, u.threads`categories, TotalsOf(u)
    ensures InBatch(u, w, arr, n, start, cs + [c], ts) && (forall d | d in cs :: d in start.held) && c in start.held
    ensures added == Missing<Thread>(ArrayAfter<Category, Thread>(start.held, cs, ts), start.held[c])
    ensures c.messageCount == old(c.messageCount) + TotalMessages(added, w)
    ensures forall t | t in u.threads :: t.categories == old(t.categories) + if t in added then {c} else {}
  {
    hide Valid, Acyclic, Links, Held, TotalViews, Weights, BatchInto, ArrayAfter, View, Compacted, Missing, Insert;
    hide TotalMessages;
    InBatchGives(u, w, arr, n, start, cs, ts, c);
    ghost var before: Forest<Category, Thread>, was, held := View(u), arr[..n], c.threads;
    var _, new_ := c.InsertDiscussionThreads(arr, n, u, w);
    added := new_;
    FrontAndRest(old(arr[..]), arr[..], was, added, n);
    CompactedIs(was, held);
    InBatchOn(u, w, arr, n, start, cs, ts, c, before);
  }

  lemma BookedOn(held: map<Category, set<Thread>>, cs: seq<Category>, ts: seq<Thread>, c: Category, w: map<Thread, int>)
    requires c in held && forall d | d in cs :: d in held
    ensures var added := Missing<Thread>(ArrayAfter<Category, Thread>(held, cs, ts), held[c]);
      && (forall d: Category :: MessagesGained(held, cs + [c], ts, d, w)
            == MessagesGained(held, cs, ts, d, w) + if d == c then TotalMessages(added, w) else 0)
      && (forall t: Thread :: Gaining<Category, Thread>(held, cs + [c], ts, t)
            == Gaining<Category, Thread>(held, cs, ts, t) + if t in added then {c} else {})
  {
    hide Missing, ArrayAfter;
    assert (cs + [c])[..|cs|] == cs;
  }

  /** The same, with message counts and back links. */
  method BatchBooked(c: Category, arr: array<Thread>, n: nat, ghost start: Forest<Category, Thread>,
      ghost cs: seq<Category>, ghost ts: seq<Thread>, ghost messages: map<Category, int>,
      ghost links: map<Thread, set<Category>>, ghost u: Universe, ghost w: map<Thread, int>)
    requires InBatch(u, w, arr, n, start, cs, ts) && Distinct(cs) && c in u.categories && c !in cs
    requires (forall d | d in cs :: d in start.held) && Booked(u, w, start.held, cs, ts, messages, links)
    modifies arr, c`threads, c`messageCount, u.threads`categories, TotalsOf(u)
    ensures InBatch(u, w, arr, n, start, cs + [c], ts) && (forall d | d in cs + [c] :: d in start.held)
    ensures Booked(u, w, start.held, cs + [c], ts, messages, links)
  {
    hide InBatch, Missing, ArrayAfter, MessagesGained, Gaining, TotalMessages;
    var added := BatchStep(c, arr, n, start, cs, ts, u, w);
    BookedOn(start.held, cs, ts, c, w);
  }

  /** The loop over the tag's categories. */
  method PushIntoCategories(order: seq<Category>, arr: array<Thread>, n: nat, ghost start: Forest<Category, Thread>,
      ghost ts: seq<Thread>, ghost messages: map<Category, int>, ghost links: map<Thread, set<Category>>,
      ghost u: Universe, ghost w: map<Thread, int>)
    requires InBatch(u, w, arr, n, start, [], ts) && Booked(u, w, start.held, [], ts, messages, links)
    requires Distinct(order) && forall c | c in order :: c in u.categories && c in start.held
    modifies arr, u.categories`threads, u.categories`messageCount, u.threads`categories, TotalsOf(u)
    ensures InBatch(u, w, arr, n, start, order, ts) && Booked(u, w, start.held, order, ts, messages, links)
  {
    hide InBatch, Booked;
    for i := 0 to |order|
      invariant forall c | c in order[..i] :: c in start.held
      invariant InBatch(u, w, arr, n, start, order[..i], ts)
        && Booked(u, w, start.held, order[..i], ts, messages, links)
    {
      assert order[..i + 1] == order[..i] + [order[i]];
      assert order[i] in order && order[i] !in order[..i];
      BatchBooked(order[i], arr, n, start, order[..i], ts, messages, links, u, w);
    }
    assert order[..|order|] == order;
  }

  ghost function MessageCounts(u: Universe): map<Category, int>
    reads u.categories`messageCount
  {
    map c | c in u.categories :: c.messageCount
  }

  ghost function BackLinks(u: Universe): map<Thread, set<Category>>
    reads u.threads`categories
  {
    map t | t in u.threads :: t.categories
  }

  lemma NothingBooked(u: Universe, w: map<Thread, int>, arr: array<Thread>, n: nat)
    requires Valid(u) && Acyclic<Category>(Links(u)) && w == Weights(u) && n <= arr.Length
    requires forall i | 0 <= i < n :: arr[i] in u.threads
    ensures InBatch(u, w, arr, n, View(u), [], arr[..n])
    ensures Booked(u, w, View(u).held, [], arr[..n], MessageCounts(u), BackLinks(u))
      && View(u).held.Keys == u.categories
  {
    NoBatch<Category, Thread>(View(u), arr[..n], w);
  }

  lemma InBatchIs(u: Universe, w: map<Thread, int>, arr: array<Thread>, n: nat, start: Forest<Category, Thread>,
      cs: seq<Category>, ts: seq<Thread>)
    requires InBatch(u, w, arr, n, start, cs, ts)
    ensures Valid(u) && w == Weights(u) && (forall c | c in cs :: c in start.held)
    ensures View(u) == BatchInto<Category, Thread>(start, cs, ts, w).forest
  {
  }

  /** insertDiscussionThreads of a tag: it takes what it lacks; each of its categories then works on what is left of the
      array, and message counts and back links follow what each category took. */
  method InsertDiscussionThreads(tag: Tag, arr: array<Thread>, count: nat, ghost u: Universe, ghost w: map<Thread, int>)
    returns (inserted: bool, ghost cs: seq<Category>, ghost added: seq<Thread>)
    requires Valid(u) && Acyclic<Category>(Links(u)) && tag in u.tags && w == Weights(u)
    requires count <= arr.Length && forall i | 0 <= i < count :: arr[i] in u.threads
    modifies arr, tag`threads, tag`messageCount
    modifies u.categories`threads, u.categories`messageCount, u.threads`categories, TotalsOf(u)
    ensures Valid(u) && w == Weights(u) && inserted == (added != [])
    ensures added == Missing<Thread>(old(arr[..count]), old(tag.threads))
    ensures tag.threads == old(tag.threads) + AsSet(added)
    ensures tag.messageCount == old(tag.messageCount) + TotalMessages(added, w)
    ensures Distinct(cs) && AsSet(cs) == if inserted then tag.categories else {}
    ensures forall c | c in cs :: c in old(View(u)).held
    ensures View(u) == BatchInto<Category, Thread>(old(View(u)), cs, added, w).forest
    ensures Booked(u, w, old(View(u)).held, cs, added, old(MessageCounts(u)), old(BackLinks(u)))
  {
    hide Valid, Acyclic, Links, Held, TotalViews, Weights, BatchInto, Missing, TotalMessages, View, InBatch, Booked;
    hide BackLinks;
    hide MessageCounts;
    WeightsAre(u, w, tag);
    var n := TakeForTag(tag, arr, count, u, w);
    added := arr[..n];
    NothingBooked(u, w, arr, n);
    cs := [];
    inserted := n >= 1;
    if inserted {
      var order := ListOf<Category>(tag.categories);
      PushIntoCategories(order, arr, n, View(u), added, MessageCounts(u), BackLinks(u), u, w);
      cs := order;
    }
    InBatchIs(u, w, arr, n, old(View(u)), cs, added);
  }

  lemma NoBatch<C, T>(f: Forest<C, T>, arr: seq<T>, w: map<T, int>)
    ensures BatchInto<C, T>(f, [], arr, w) == Batch(f, arr)
  {
  }
}
