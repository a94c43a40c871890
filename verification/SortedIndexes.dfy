/** A vector kept sorted by a key of its elements, greatest first, as the count indexes are. */
module SortedVectors {

  /** The getter the vector is sorted by, as it is at the moment. */
  function KeyOf<T>(keys: map<T, int>, x: T): int {
    if x in keys then keys[x] else 0
  }

  predicate Compare<T>(keys: map<T, int>, first: T, second: T) {
    KeyOf(keys, first) > KeyOf(keys, second)
  }

  ghost predicate Sorted<T>(v: seq<T>, keys: map<T, int>) {
    forall i, j | 0 <= i < j < |v| :: KeyOf(keys, v[i]) >= KeyOf(keys, v[j])
  }

  /** For elements that have a key, this is what sorted means: no key is less than a later one. */
  lemma GreatestFirst<T>(v: seq<T>, keys: map<T, int>)
    requires forall i | 0 <= i < |v| :: v[i] in keys
    ensures Sorted(v, keys) <==> forall i, j | 0 <= i < j < |v| :: keys[v[i]] >= keys[v[j]]
  {
    assert forall i | 0 <= i < |v| :: KeyOf(keys, v[i]) == keys[v[i]];
  }

  function Inserted<T>(v: seq<T>, i: nat, x: T): seq<T>
    requires i <= |v|
  {
    v[..i] + [x] + v[i..]
  }

  function Removed<T>(v: seq<T>, i: nat): seq<T>
    requires i < |v|
  {
    v[..i] + v[i + 1..]
  }

  lemma InsertedAt<T>(v: seq<T>, i: nat, x: T)
    requires i <= |v|
    ensures |Inserted(v, i, x)| == |v| + 1 && Inserted(v, i, x)[i] == x
    ensures forall k | 0 <= k < i :: Inserted(v, i, x)[k] == v[k]
    ensures forall k | i < k <= |v| :: Inserted(v, i, x)[k] == v[k - 1]
    ensures Removed(Inserted(v, i, x), i) == v
  {
  }

  lemma InsertedElements<T>(v: seq<T>, i: nat, x: T)
    requires i <= |v|
    ensures multiset(Inserted(v, i, x)) == multiset(v) + multiset{x}
  {
    assert v == v[..i] + v[i..];
  }

  lemma RemovedAt<T>(v: seq<T>, i: nat)
    requires i < |v|
    ensures |Removed(v, i)| == |v| - 1
    ensures forall k | 0 <= k < |v| - 1 :: Removed(v, i)[k] == v[if k < i then k else k + 1]
    ensures Inserted(Removed(v, i), i, v[i]) == v
  {
  }

  lemma RemovedElements<T>(v: seq<T>, i: nat)
    requires i < |v|
    ensures multiset(v) == multiset(Removed(v, i)) + multiset{v[i]}
      && multiset(Removed(v, i)) == multiset(v) - multiset{v[i]}
  {
    assert v == v[..i] + [v[i]] + v[i + 1..];
  }

  lemma InOrder<T>(v: seq<T>, i: nat, j: nat, keys: map<T, int>)
    requires Sorted(v, keys) && i <= j < |v|
    ensures KeyOf(keys, v[i]) >= KeyOf(keys, v[j])
  {
  }

  lemma AllInOrder<T>(v: seq<T>, keys: map<T, int>)
    requires forall i, j | 0 <= i < j < |v| :: KeyOf(keys, v[i]) >= KeyOf(keys, v[j])
    ensures Sorted(v, keys)
  {
  }

  /** An element with everything greater-or-equal before it and everything less-or-equal after it. */
  lemma InsertedSorted<T>(v: seq<T>, i: nat, x: T, keys: map<T, int>)
    requires i <= |v| && Sorted(v, keys)
    requires i > 0 ==> KeyOf(keys, v[i - 1]) >= KeyOf(keys, x)
    requires i < |v| ==> KeyOf(keys, x) >= KeyOf(keys, v[i])
    ensures Sorted(Inserted(v, i, x), keys)
  {
    hide Sorted, KeyOf, Inserted;
    forall a, b | 0 <= a < b < |Inserted(v, i, x)|
      ensures KeyOf(keys, Inserted(v, i, x)[a]) >= KeyOf(keys, Inserted(v, i, x)[b])
    {
      InsertedPair(v, i, x, keys, a, b);
    }
    AllInOrder(Inserted(v, i, x), keys);
  }

  lemma InsertedPair<T>(v: seq<T>, i: nat, x: T, keys: map<T, int>, a: nat, b: nat)
    requires i <= |v| && Sorted(v, keys) && a < b < |Inserted(v, i, x)|
    requires i > 0 ==> KeyOf(keys, v[i - 1]) >= KeyOf(keys, x)
    requires i < |v| ==> KeyOf(keys, x) >= KeyOf(keys, v[i])
    ensures KeyOf(keys, Inserted(v, i, x)[a]) >= KeyOf(keys, Inserted(v, i, x)[b])
  {
    hide Sorted, KeyOf, Inserted;
    InsertedAt(v, i, x);
    if b == i {
      InOrder(v, a, i - 1, keys);
    } else if a == i {
      InOrder(v, i, b - 1, keys);
    } else {
      InOrder(v, if a < i then a else a - 1, if b < i then b else b - 1, keys);
    }
  }

  class SortedVector<T(==)> {
    var vector: seq<T>

    constructor ()
      ensures vector == []
    {
      vector := [];
    }

    /** The first position whose key is less than `key`. */
    method UpperBound(key: int, keys: map<T, int>) returns (position: nat)
      requires Sorted(vector, keys)
      ensures position <= |vector|
      ensures forall k | 0 <= k < position :: KeyOf(keys, vector[k]) >= key
      ensures forall k | position <= k < |vector| :: KeyOf(keys, vector[k]) < key
    {
      var hi := |vector|;
      position := 0;
      while position < hi
        invariant position <= hi <= |vector|
        invariant forall k | 0 <= k < position :: KeyOf(keys, vector[k]) >= key
        invariant forall k | hi <= k < |vector| :: KeyOf(keys, vector[k]) < key
      {
        var mid := (position + hi) / 2;
        if KeyOf(keys, vector[mid]) >= key { position := mid + 1; } else { hi := mid; }
      }
    }

    /** The first position whose key is not greater than `key`. */
    method LowerBound(key: int, keys: map<T, int>) returns (position: nat)
      requires Sorted(vector, keys)
      ensures position <= |vector|
      ensures forall k | 0 <= k < position :: KeyOf(keys, vector[k]) > key
      ensures forall k | position <= k < |vector| :: KeyOf(keys, vector[k]) <= key
    {
      var hi := |vector|;
      position := 0;
      while position < hi
        invariant position <= hi <= |vector|
        invariant forall k | 0 <= k < position :: KeyOf(keys, vector[k]) > key
        invariant forall k | hi <= k < |vector| :: KeyOf(keys, vector[k]) <= key
      {
        var mid := (position + hi) / 2;
        if KeyOf(keys, vector[mid]) > key { position := mid + 1; } else { hi := mid; }
      }
    }

    /** New elements go behind those with the same key. */
    method Insert(value: T, keys: map<T, int>) returns (position: nat)
      requires Sorted(vector, keys)
      modifies this
      ensures Sorted(vector, keys) && multiset(vector) == multiset(old(vector)) + multiset{value}
      ensures position <= |old(vector)| && vector == Inserted(old(vector), position, value)
      ensures forall k | position <= k < |old(vector)| :: KeyOf(keys, old(vector)[k]) < KeyOf(keys, value)
    {
      position := UpperBound(KeyOf(keys, value), keys);
      InsertedSorted(vector, position, value, keys);
      InsertedElements(vector, position, value);
      hide Sorted, Inserted, KeyOf;
      vector := Inserted(vector, position, value);
    }

    /** What sorting promises: the same elements in order; the order of equal keys is left open by the callers. */
    method Sort(keys: map<T, int>)
      modifies this
      ensures Sorted(vector, keys) && multiset(vector) == multiset(old(vector))
    {
      var unsorted := vector;
      vector := [];
      for i := 0 to |unsorted|
        invariant Sorted(vector, keys) && multiset(vector) == multiset(unsorted[..i])
      {
        assert unsorted[..i + 1] == unsorted[..i] + [unsorted[i]];
        var _ := Insert(unsorted[i], keys);
      }
      assert unsorted[..|unsorted|] == unsorted;
    }

    /** A range is appended and everything sorted, whatever the order was before. */
    method InsertRange(values: seq<T>, keys: map<T, int>)
      modifies this
      ensures Sorted(vector, keys) && multiset(vector) == multiset(old(vector)) + multiset(values)
    {
      vector := vector + values;
      Sort(keys);
    }

    /** findInNonUniqueCollection: the position of `toCompare` among the elements with that key, or the end. */
    method Find(toCompare: T, toSearch: int, keys: map<T, int>) returns (position: nat)
      requires Sorted(vector, keys)
      ensures position <= |vector|
      ensures position < |vector| ==> vector[position] == toCompare
      ensures position < |vector| <==> toCompare in vector && KeyOf(keys, toCompare) == toSearch
    {
      var first := LowerBound(toSearch, keys);
      var last := UpperBound(toSearch, keys);
      position := first;
      while position < last
        invariant first <= position <= if first < last then last else first
        invariant forall k | first <= k < position :: vector[k] != toCompare
        decreases last - position
      {
        if vector[position] == toCompare { return; }
        position := position + 1;
      }
      position := |vector|;
    }

    /** eraseFromNonUniqueCollection */
    method EraseValue(toCompare: T, toSearch: int, keys: map<T, int>)
      requires Sorted(vector, keys) && toCompare in vector && KeyOf(keys, toCompare) == toSearch
      modifies this
      ensures Sorted(vector, keys) && multiset(vector) == multiset(old(vector)) - multiset{toCompare}
    {
      var position := Find(toCompare, toSearch, keys);
      assert position < |vector|;
      RemovedElements(vector, position);
      SortedWithout(vector, position, keys);
      vector := Removed(vector, position);
    }

    /**
     * One element is replaced or has got another key, all others are in order: swaps move it to its place.
     * The others keep their order, and the element moves no further than past keys strictly on the wrong side.
     */
    method ReplaceInternal(position: nat, value: T, keys: map<T, int>) returns (it: nat)
      requires position < |vector| && Sorted(Removed(vector, position), keys)
      modifies this
      ensures it < |vector| == |old(vector)| && vector[it] == value
      ensures Removed(vector, it) == Removed(old(vector), position) && Sorted(vector, keys)
      ensures forall k | it <= k < position :: Compare(keys, value, Removed(old(vector), position)[k])
      ensures forall k | position <= k < it :: Compare(keys, Removed(old(vector), position)[k], value)
    {
      hide Sorted, Compare;
      ghost var rest := Removed(vector, position);
      RemovedAt(vector, position);
      hide Removed;
      InsertedAt(rest, position, value);
      vector := vector[position := value];
      assert vector == Inserted(rest, position, value);
      it := MoveLeft(position, value, rest, keys);
      if it == position {
        it := MoveRight(position, value, rest, keys);
      }
      InsertedAt(rest, it, value);
      InPlace(rest, it, value, keys);
    }

    /** The loop that tries to replace to the left. */
    method MoveLeft(position: nat, value: T, ghost rest: seq<T>, keys: map<T, int>) returns (it: nat)
      requires position <= |rest| && vector == Inserted(rest, position, value)
      modifies this
      ensures it <= position && vector == Inserted(rest, it, value)
      ensures forall k | it <= k < position :: Compare(keys, value, rest[k])
      ensures it > 0 ==> !Compare(keys, value, rest[it - 1])
    {
      hide Compare;
      it := position;
      InsertedAt(rest, it, value);
      while it > 0 && Compare(keys, vector[it], vector[it - 1])
        invariant it <= position < |vector| && vector == Inserted(rest, it, value)
        invariant vector[it] == value && (it > 0 ==> vector[it - 1] == rest[it - 1])
        invariant forall k | it <= k < position :: Compare(keys, value, rest[k])
      {
        SwapLeft(rest, it, value);
        InsertedAt(rest, it - 1, value);
        vector := vector[it := vector[it - 1]][it - 1 := vector[it]];
        it := it - 1;
      }
    }

    /** The loop that tries to replace to the right. */
    method MoveRight(position: nat, value: T, ghost rest: seq<T>, keys: map<T, int>) returns (it: nat)
      requires position <= |rest| && vector == Inserted(rest, position, value)
      modifies this
      ensures position <= it <= |rest| && vector == Inserted(rest, it, value)
      ensures forall k | position <= k < it :: Compare(keys, rest[k], value)
      ensures it < |rest| ==> !Compare(keys, rest[it], value)
    {
      hide Compare;
      var last := |vector| - 1;
      it := position;
      InsertedAt(rest, it, value);
      while it < last && Compare(keys, vector[it + 1], vector[it])
        invariant position <= it <= last == |rest| && |vector| == |rest| + 1 && vector == Inserted(rest, it, value)
        invariant vector[it] == value && (it < last ==> vector[it + 1] == rest[it])
        invariant forall k | position <= k < it :: Compare(keys, rest[k], value)
      {
        SwapRight(rest, it, value);
        InsertedAt(rest, it + 1, value);
        vector := vector[it := vector[it + 1]][it + 1 := vector[it]];
        it := it + 1;
      }
    }
  }

  lemma SwapLeft<T>(v: seq<T>, i: nat, x: T)
    requires 0 < i <= |v|
    ensures var w := Inserted(v, i, x);
      |w| == |v| + 1 && w[i] == x && w[i - 1] == v[i - 1] && w[i := w[i - 1]][i - 1 := w[i]] == Inserted(v, i - 1, x)
  {
  }

  lemma SwapRight<T>(v: seq<T>, i: nat, x: T)
    requires i < |v|
    ensures var w := Inserted(v, i, x);
      |w| == |v| + 1 && w[i] == x && w[i + 1] == v[i] && w[i := w[i + 1]][i + 1 := w[i]] == Inserted(v, i + 1, x)
  {
  }

  /** When neither neighbour is on the wrong side, or the element has just passed it, the whole vector is in order. */
  lemma InPlace<T>(v: seq<T>, i: nat, x: T, keys: map<T, int>)
    requires i <= |v| && Sorted(v, keys)
    requires i > 0 ==> !Compare(keys, x, v[i - 1]) || Compare(keys, v[i - 1], x)
    requires i < |v| ==> !Compare(keys, v[i], x) || Compare(keys, x, v[i])
    ensures Sorted(Inserted(v, i, x), keys)
  {
    hide Sorted;
    InsertedSorted(v, i, x, keys);
  }

  lemma SortedWithout<T>(v: seq<T>, i: nat, keys: map<T, int>)
    requires i < |v| && Sorted(v, keys)
    ensures Sorted(Removed(v, i), keys)
  {
    RemovedAt(v, i);
    var w := Removed(v, i);
    hide Removed, Sorted, KeyOf;
    forall a, b | 0 <= a < b < |w| ensures KeyOf(keys, w[a]) >= KeyOf(keys, w[b]) {
      InOrder(v, if a < i then a else a + 1, if b < i then b else b + 1, keys);
    }
    AllInOrder(w, keys);
  }

  ghost predicate SameKeys<T>(a: seq<T>, b: seq<T>, keys: map<T, int>) {
    |a| == |b| && forall k | 0 <= k < |a| :: KeyOf(keys, a[k]) == KeyOf(keys, b[k])
  }

  /** Two sorted arrangements of the same elements show the same keys at every rank: they differ only within ties. */
  lemma {:induction false} SameUpToTies<T>(a: seq<T>, b: seq<T>, keys: map<T, int>)
    requires Sorted(a, keys) && Sorted(b, keys) && multiset(a) == multiset(b)
    ensures SameKeys(a, b, keys)
    decreases |a|
  {
    hide Sorted, KeyOf, SameKeys, Removed;
    SameSize(a, b);
    if a == [] {
      NoKeys(a, b, keys);
    } else {
      var i, j := MatchFirst(a, b);
      SortedWithout(a, 0, keys);
      SortedWithout(b, i, keys);
      InOrder(a, 0, j, keys);
      InOrder(b, 0, i, keys);
      assert |Removed(a, 0)| < |a| by { RemovedAt(a, 0); }
      SameUpToTies(Removed(a, 0), Removed(b, i), keys);
      SameKeysBehind(a, b, i, keys);
    }
  }

  lemma SameSize<T>(a: seq<T>, b: seq<T>)
    requires multiset(a) == multiset(b)
    ensures |a| == |b|
  {
    assert |a| == |multiset(a)| == |multiset(b)| == |b|;
  }

  lemma MatchFirst<T>(a: seq<T>, b: seq<T>) returns (i: nat, j: nat)
    requires multiset(a) == multiset(b) && a != [] && |a| == |b|
    ensures i < |b| && b[i] == a[0] && j < |a| && a[j] == b[0]
    ensures multiset(Removed(a, 0)) == multiset(Removed(b, i))
  {
    assert a[0] in multiset(b) && b[0] in multiset(a);
    i :| 0 <= i < |b| && b[i] == a[0];
    j :| 0 <= j < |a| && a[j] == b[0];
    hide Removed;
    RemovedElements(a, 0);
    RemovedElements(b, i);
  }

  lemma NoKeys<T>(a: seq<T>, b: seq<T>, keys: map<T, int>)
    requires a == [] == b
    ensures SameKeys(a, b, keys)
  {
  }

  lemma SameKeysBehind<T>(a: seq<T>, b: seq<T>, i: nat, keys: map<T, int>)
    requires |a| == |b| && i < |b| && Sorted(b, keys) && KeyOf(keys, a[0]) == KeyOf(keys, b[0]) == KeyOf(keys, b[i])
    requires SameKeys(Removed(a, 0), Removed(b, i), keys)
    ensures SameKeys(a, b, keys)
  {
    hide Sorted, KeyOf, Removed;
    forall k | 0 <= k < |a| ensures KeyOf(keys, a[k]) == KeyOf(keys, b[k]) {
      if k > 0 { SameKeyBehind(a, b, i, k, keys); }
    }
  }

  lemma SameKeyBehind<T>(a: seq<T>, b: seq<T>, i: nat, k: nat, keys: map<T, int>)
    requires |a| == |b| && i < |b| && 0 < k < |a| && Sorted(b, keys) && KeyOf(keys, b[0]) == KeyOf(keys, b[i])
    requires SameKeys(Removed(a, 0), Removed(b, i), keys)
    ensures KeyOf(keys, a[k]) == KeyOf(keys, b[k])
  {
    hide Sorted, KeyOf, Removed;
    RemovedAt(a, 0);
    RemovedAt(b, i);
    assert KeyOf(keys, Removed(a, 0)[k - 1]) == KeyOf(keys, Removed(b, i)[k - 1]);
    if k <= i {
      InOrder(b, 0, k - 1, keys);
      InOrder(b, k - 1, k, keys);
      InOrder(b, k, i, keys);
    }
  }
}

/** The collection of tags with its two count indexes, updated in two phases or rebuilt after a batch. */
module TagCollections {
  import opened SortedVectors

  type Id = nat

  /** The vector lists exactly the members, greatest count first. */
  ghost predicate Indexes(v: seq<Id>, counts: map<Id, int>, members: set<Id>) {
    Sorted(v, counts) && multiset(v) == multiset(members)
  }

  /** Between prepare and update: the element at the saved position may be out of place, everything else is in order. */
  ghost predicate AllButOne(v: seq<Id>, counts: map<Id, int>, members: set<Id>, tag: Id, it: nat) {
    && multiset(v) == multiset(members) && it <= |v| && (it < |v| <==> tag in members)
    && (if it < |v| then v[it] == tag && Sorted(Removed(v, it), counts) else Sorted(v, counts))
  }

  /** Changing a count disturbs the order only where the tag itself is. */
  lemma CountChange(v: seq<Id>, counts: map<Id, int>, members: set<Id>, tag: Id, it: nat, count: int)
    requires AllButOne(v, counts, members, tag, it)
    ensures AllButOne(v, counts[tag := count], members, tag, it)
  {
    if it < |v| {
      RemovedElements(v, it);
      assert multiset(Removed(v, it))[tag] == 0;
      SameOrder(Removed(v, it), counts, tag, count);
    } else {
      assert multiset(v)[tag] == 0;
      SameOrder(v, counts, tag, count);
    }
  }

  lemma SameOrder(v: seq<Id>, counts: map<Id, int>, tag: Id, count: int)
    requires Sorted(v, counts) && multiset(v)[tag] == 0
    ensures Sorted(v, counts[tag := count])
  {
    assert forall k | 0 <= k < |v| :: v[k] in multiset(v) && KeyOf(counts[tag := count], v[k]) == KeyOf(counts, v[k]);
  }

  lemma Members(v: seq<Id>, members: set<Id>, tag: Id)
    requires multiset(v) == multiset(members)
    ensures tag in v <==> tag in members
  {
    assert tag in v <==> tag in multiset(v);
  }

  /** One count index: its vector, the tags' current counts, and the position saved by prepare. */
  class CountIndex {
    const sorted: SortedVector<Id>
    var counts: map<Id, int>
    var updateIt: nat

    constructor ()
      ensures sorted.vector == [] && counts == map[] && fresh(sorted)
    {
      sorted := new SortedVector();
      counts, updateIt := map[], 0;
    }

    ghost predicate Valid(members: set<Id>)
      reads this, sorted
    {
      Indexes(sorted.vector, counts, members)
    }

    ghost predicate Prepared(members: set<Id>, tag: Id)
      reads this, sorted
    {
      AllButOne(sorted.vector, counts, members, tag, updateIt)
    }

    method Insert(tag: Id, ghost members: set<Id>)
      requires Valid(members) && tag !in members
      modifies sorted
      ensures Valid(members + {tag})
    {
      var _ := sorted.Insert(tag, counts);
      assert multiset(members + {tag}) == multiset(members) + multiset{tag};
    }

    method Erase(tag: Id, ghost members: set<Id>)
      requires Valid(members) && tag in members
      modifies sorted
      ensures Valid(members - {tag})
    {
      Members(sorted.vector, members, tag);
      sorted.EraseValue(tag, KeyOf(counts, tag), counts);
      assert multiset(members - {tag}) == multiset(members) - multiset{tag};
    }

    method Rebuild(members: set<Id>, order: seq<Id>)
      requires multiset(order) == multiset(members)
      modifies sorted
      ensures Valid(members)
    {
      sorted.vector := [];
      sorted.InsertRange(order, counts);
    }

    method PrepareUpdate(tag: Id, ghost members: set<Id>)
      requires Valid(members)
      modifies `updateIt
      ensures Prepared(members, tag)
    {
      Members(sorted.vector, members, tag);
      updateIt := sorted.Find(tag, KeyOf(counts, tag), counts);
      if updateIt < |sorted.vector| { SortedWithout(sorted.vector, updateIt, counts); }
    }

    /** The tag's own counter changes; the index does not see it. */
    method SetCount(tag: Id, count: int)
      modifies `counts
      ensures counts == old(counts)[tag := count]
      ensures forall members: set<Id> :: old(Prepared(members, tag)) ==> Prepared(members, tag)
    {
      forall members: set<Id> | Prepared(members, tag)
        ensures AllButOne(sorted.vector, counts[tag := count], members, tag, updateIt)
      {
        CountChange(sorted.vector, counts, members, tag, updateIt, count);
      }
      counts := counts[tag := count];
    }

    method Update(tag: Id, ghost members: set<Id>)
      requires Prepared(members, tag)
      modifies sorted
      ensures Valid(members)
    {
      if updateIt < |sorted.vector| {
        RemovedElements(sorted.vector, updateIt);
        var it := sorted.ReplaceInternal(updateIt, tag, counts);
        RemovedElements(sorted.vector, it);
      }
    }
  }

  /** The index by name leads from each member's name to that member, and nowhere else. */
  ghost predicate NamesMatch(members: set<Id>, byName: map<string, Id>, names: map<Id, string>) {
    && (forall id | id in members :: id in names && names[id] in byName && byName[names[id]] == id)
    && (forall n | n in byName :: byName[n] in members && byName[n] in names && names[byName[n]] == n)
  }

  lemma NameAdded(members: set<Id>, byName: map<string, Id>, names: map<Id, string>, tag: Id, name: string)
    requires NamesMatch(members, byName, names) && tag !in members
    ensures NamesMatch(members + {tag}, if name in byName then byName else byName[name := tag], names[tag := name])
      <==> name !in byName
  {
  }

  lemma NameRemoved(members: set<Id>, byName: map<string, Id>, names: map<Id, string>, tag: Id)
    requires NamesMatch(members, byName, names) && tag in members
    ensures tag in names && NamesMatch(members - {tag}, byName - {names[tag]}, names - {tag})
  {
  }

  class DiscussionTagCollection {
    var byId: set<Id>
    /** The index by name: no name occurs twice in it. */
    var byName: map<string, Id>
    /** The members' own names. */
    var names: map<Id, string>
    const byThreadCount: CountIndex
    const byMessageCount: CountIndex
    var batchInsertInProgress: bool

    constructor ()
      ensures Valid() && NamesIndexed() && byId == {} && !batchInsertInProgress
    {
      byId, byName, names, batchInsertInProgress := {}, map[], map[], false;
      byThreadCount := new CountIndex();
      byMessageCount := new CountIndex();
      new;
      assert multiset(byId) == multiset{};
    }

    ghost predicate Separate()
      reads this
    {
      byThreadCount != byMessageCount && byThreadCount.sorted != byMessageCount.sorted
    }

    /** Outside a batch, both indexes are sorted permutations of the members. */
    ghost predicate Valid()
      reads this, byThreadCount, byThreadCount.sorted, byMessageCount, byMessageCount.sorted
    {
      && Separate() && names.Keys == byId
      && (!batchInsertInProgress ==> byThreadCount.Valid(byId) && byMessageCount.Valid(byId))
    }

    ghost predicate NamesIndexed()
      reads `byId, `byName, `names
    {
      NamesMatch(byId, byName, names)
    }

    /** A name that another member has already keeps its entry, so the index by name stays complete if and only if the
        name is new. */
    method Add(tag: Id, name: string) returns (added: bool)
      requires Valid()
      modifies `byId, `byName, `names, byThreadCount.sorted, byMessageCount.sorted
      ensures Valid() && byId == old(byId) + {tag} && added == (tag !in old(byId))
      ensures names == if added then old(names)[tag := name] else old(names)
      ensures byName == if added && name !in old(byName) then old(byName)[name := tag] else old(byName)
      ensures old(NamesIndexed()) ==> (NamesIndexed() <==> !added || name !in old(byName))
    {
      hide NamesMatch, Indexes;
      if tag in byId { return false; }
      if NamesMatch(byId, byName, names) { NameAdded(byId, byName, names, tag, name); }
      if name !in byName { byName := byName[name := tag]; }
      if !batchInsertInProgress {
        byThreadCount.Insert(tag, byId);
        byMessageCount.Insert(tag, byId);
      }
      byId, names := byId + {tag}, names[tag := name];
      return true;
    }

    /** The entry under the tag's name goes, whoever it leads to. */
    method Remove(tag: Id) returns (removed: bool)
      requires Valid()
      modifies `byId, `byName, `names, byThreadCount.sorted, byMessageCount.sorted
      ensures Valid() && byId == old(byId) - {tag} && removed == (tag in old(byId))
      ensures names == old(names) - {tag}
      ensures byName == old(byName) - if removed then {old(names)[tag]} else {}
      ensures old(NamesIndexed()) ==> NamesIndexed()
    {
      hide NamesMatch, Indexes;
      if tag !in byId {
        assert names - {tag} == names && byName - {} == byName;
        return false;
      }
      if NamesMatch(byId, byName, names) { NameRemoved(byId, byName, names, tag); }
      byName := byName - {names[tag]};
      if !batchInsertInProgress {
        byThreadCount.Erase(tag, byId);
        byMessageCount.Erase(tag, byId);
      }
      byId, names := byId - {tag}, names - {tag};
      return true;
    }

    /** prepareUpdateThreadCount, the change of the tag, updateThreadCount. */
    method ChangeThreadCount(tag: Id, count: int)
      requires Valid()
      modifies byThreadCount, byThreadCount.sorted
      ensures Valid() && byThreadCount.counts == old(byThreadCount.counts)[tag := count]
    {
      if !batchInsertInProgress { byThreadCount.PrepareUpdate(tag, byId); }
      byThreadCount.SetCount(tag, count);
      if !batchInsertInProgress { byThreadCount.Update(tag, byId); }
    }

    method ChangeMessageCount(tag: Id, count: int)
      requires Valid()
      modifies byMessageCount, byMessageCount.sorted
      ensures Valid() && byMessageCount.counts == old(byMessageCount.counts)[tag := count]
    {
      if !batchInsertInProgress { byMessageCount.PrepareUpdate(tag, byId); }
      byMessageCount.SetCount(tag, count);
      if !batchInsertInProgress { byMessageCount.Update(tag, byId); }
    }

    /** Adding a thread to a tag prepares both indexes, then changes both counts, then updates both. */
    method ChangeBothCounts(tag: Id, threadCount: int, messageCount: int)
      requires Valid()
      modifies byThreadCount, byThreadCount.sorted, byMessageCount, byMessageCount.sorted
      ensures Valid() && byThreadCount.counts == old(byThreadCount.counts)[tag := threadCount]
      ensures byMessageCount.counts == old(byMessageCount.counts)[tag := messageCount]
    {
      if !batchInsertInProgress {
        byThreadCount.PrepareUpdate(tag, byId);
        byMessageCount.PrepareUpdate(tag, byId);
      }
      byThreadCount.SetCount(tag, threadCount);
      byMessageCount.SetCount(tag, messageCount);
      if !batchInsertInProgress {
        byThreadCount.Update(tag, byId);
        byMessageCount.Update(tag, byId);
      }
    }

    method StartBatchInsert()
      requires Valid()
      modifies `batchInsertInProgress
      ensures Valid() && batchInsertInProgress
    {
      batchInsertInProgress := true;
    }

    /** Whatever happened during the batch, both indexes are rebuilt from the members. */
    method StopBatchInsert(order: seq<Id>)
      requires Valid() && multiset(order) == multiset(byId)
      modifies `batchInsertInProgress, byThreadCount.sorted, byMessageCount.sorted
      ensures Valid() && !batchInsertInProgress
    {
      if !batchInsertInProgress { return; }
      byThreadCount.Rebuild(byId, order);
      byMessageCount.Rebuild(byId, order);
      batchInsertInProgress := false;
    }
  }

  /** Rebuilding after a batch and keeping up step by step give the same counts at every rank. */
  lemma RebuiltAsIncremental(rebuilt: seq<Id>, incremental: seq<Id>, counts: map<Id, int>, members: set<Id>)
    requires Indexes(rebuilt, counts, members) && Indexes(incremental, counts, members)
    ensures |rebuilt| == |incremental| == |members|
    ensures forall rank | 0 <= rank < |rebuilt| :: KeyOf(counts, rebuilt[rank]) == KeyOf(counts, incremental[rank])
  {
    SameUpToTies(rebuilt, incremental, counts);
    assert |multiset(rebuilt)| == |multiset(members)| == |members|;
  }
}
