/** The immutable trie: a counting pass, then one placing pass into two flat arrays, then lookups. */
module Trie {
  import opened Wrappers
  import opened Sequences

  /** Key alternatives fold a key part to its class; a part is among another's alternatives exactly when both fold
      alike. */
  ghost predicate FoldsAlike<K(!new)>(alt: K -> seq<K>) {
    forall k, k0 :: k in alt(k0) <==> alt(k) == alt(k0)
  }

  function SingleKey<K>(k: K): seq<K> {
    [k]
  }

  /** tolower and toupper on bytes in the "C" locale. */
  function AsciiLower(c: char): char {
    if 'A' <= c <= 'Z' then c - 'A' + 'a' else c
  }

  function AsciiUpper(c: char): char {
    if 'a' <= c <= 'z' then c - 'a' + 'A' else c
  }

  function AsciiUpperLowerKey(c: char): seq<char> {
    [AsciiLower(c), AsciiUpper(c)]
  }

  lemma KeyGettersFoldAlike<K(!new)>()
    ensures FoldsAlike(AsciiUpperLowerKey)
    ensures FoldsAlike<K>(SingleKey)
  {
    forall k: char, k0: char
      ensures k in AsciiUpperLowerKey(k0) <==> AsciiUpperLowerKey(k) == AsciiUpperLowerKey(k0)
    {
      assert k in AsciiUpperLowerKey(k0) <==> k == AsciiLower(k0) || k == AsciiUpper(k0);
      assert AsciiUpperLowerKey(k)[0] == AsciiLower(k) && AsciiUpperLowerKey(k)[1] == AsciiUpper(k);
      assert AsciiUpperLowerKey(k0)[0] == AsciiLower(k0) && AsciiUpperLowerKey(k0)[1] == AsciiUpper(k0);
    }
    forall k: K, k0: K ensures k in SingleKey(k0) <==> SingleKey(k) == SingleKey(k0) {
      assert SingleKey(k)[0] == k && SingleKey(k0)[0] == k0;
    }
  }

  function Fold<K>(alt: K -> seq<K>, key: seq<K>): seq<seq<K>> {
    if key == [] then [] else [alt(key[0])] + Fold(alt, key[1..])
  }

  /** What the trie is for: the value of the last pair whose key folds like the query. */
  function LastMatch<K(!new, ==), T>(alt: K -> seq<K>, es: seq<(seq<K>, T)>, query: seq<seq<K>>): Option<T> {
    if es == [] then None
    else if Fold(alt, es[|es| - 1].0) == query then Some(es[|es| - 1].1)
    else LastMatch(alt, es[..|es| - 1], query)
  }

  predicate IsAsciiLetter(c: char) {
    65 <= c as int <= 90 || 97 <= c as int <= 122
  }

  /** The same character, or two ASCII letters whose codes differ by 32. */
  predicate SameIgnoringCase(a: char, b: char) {
    a == b || (IsAsciiLetter(a) && IsAsciiLetter(b) && (a as int - b as int == 32 || b as int - a as int == 32))
  }

  predicate EqualIgnoringCase(a: string, b: string) {
    |a| == |b| && forall i | 0 <= i < |a| :: SameIgnoringCase(a[i], b[i])
  }

  /** The alternatives of two characters are the same exactly when the characters are, up to the case of ASCII
      letters. */
  lemma AlternativesIgnoreCase(a: char, b: char)
    ensures AsciiUpperLowerKey(a) == AsciiUpperLowerKey(b) <==> SameIgnoringCase(a, b)
  {
    assert AsciiUpperLowerKey(a)[0] == AsciiLower(a) && AsciiUpperLowerKey(a)[1] == AsciiUpper(a);
    assert AsciiUpperLowerKey(b)[0] == AsciiLower(b) && AsciiUpperLowerKey(b)[1] == AsciiUpper(b);
  }

  lemma {:induction false} FoldAt<K>(alt: K -> seq<K>, a: seq<K>, b: seq<K>)
    ensures Fold(alt, a) == Fold(alt, b) <==> |a| == |b| && forall i | 0 <= i < |a| :: alt(a[i]) == alt(b[i])
  {
    if a != [] && b != [] {
      FoldAt(alt, a[1..], b[1..]);
      if Fold(alt, a) == Fold(alt, b) {
        assert Fold(alt, a)[0] == Fold(alt, b)[0] && Fold(alt, a)[1..] == Fold(alt, b)[1..];
        assert forall i | 0 < i < |a| :: a[i] == a[1..][i - 1] && b[i] == b[1..][i - 1];
      }
      if |a| == |b| && forall i | 0 <= i < |a| :: alt(a[i]) == alt(b[i]) {
        assert forall i | 0 <= i < |a| - 1 :: a[1..][i] == a[i + 1] && b[1..][i] == b[i + 1];
      }
    }
  }

  lemma FoldIgnoresCase(a: string, b: string)
    ensures Fold(AsciiUpperLowerKey, a) == Fold(AsciiUpperLowerKey, b) <==> EqualIgnoringCase(a, b)
  {
    FoldAt(AsciiUpperLowerKey, a, b);
    hide AsciiUpperLowerKey, SameIgnoringCase;
    forall i | 0 <= i < |a| && i < |b|
      ensures AsciiUpperLowerKey(a[i]) == AsciiUpperLowerKey(b[i]) <==> SameIgnoringCase(a[i], b[i])
    {
      AlternativesIgnoreCase(a[i], b[i]);
    }
  }

  lemma FoldIsExact<K(!new)>(a: seq<K>, b: seq<K>)
    ensures Fold(SingleKey, a) == Fold(SingleKey, b) <==> a == b
  {
    FoldAt(SingleKey, a, b);
    forall i | 0 <= i < |a| && i < |b| ensures SingleKey(a[i]) == SingleKey(b[i]) <==> a[i] == b[i] {
      assert SingleKey(a[i])[0] == a[i] && SingleKey(b[i])[0] == b[i];
    }
  }

  /** `i` is the position of the last pair whose key folds like the query. */
  ghost predicate IsLastMatch<K(!new), T>(alt: K -> seq<K>, es: seq<(seq<K>, T)>, query: seq<seq<K>>, i: nat) {
    i < |es| && Fold(alt, es[i].0) == query && forall j | i < j < |es| :: Fold(alt, es[j].0) != query
  }

  lemma {:induction false} LastMatchIs<K(!new), T>(alt: K -> seq<K>, es: seq<(seq<K>, T)>, query: seq<seq<K>>)
    ensures var r := LastMatch(alt, es, query);
      if r.None? then forall i | 0 <= i < |es| :: Fold(alt, es[i].0) != query
      else exists i: nat :: IsLastMatch(alt, es, query, i) && r.value == es[i].1
  {
    if es != [] {
      var front := es[..|es| - 1];
      LastMatchIs(alt, front, query);
      if Fold(alt, es[|es| - 1].0) == query {
        assert IsLastMatch(alt, es, query, |es| - 1);
      } else if LastMatch(alt, es, query).Some? {
        var i: nat :| IsLastMatch(alt, front, query, i) && LastMatch(alt, es, query).value == front[i].1;
        assert IsLastMatch(alt, es, query, i);
      }
    }
  }

  /** The pairs whose key starts with the class `a`, without that first part. */
  function Sub<K(!new, ==), T>(alt: K -> seq<K>, es: seq<(seq<K>, T)>, a: seq<K>): seq<(seq<K>, T)> {
    if es == [] then []
    else
      var e := es[|es| - 1];
      Sub(alt, es[..|es| - 1], a) + if e.0 != [] && alt(e.0[0]) == a then [(e.0[1..], e.1)] else []
  }

  lemma {:induction false} FindInSub<K(!new), T>(alt: K -> seq<K>, es: seq<(seq<K>, T)>, a: seq<K>, query: seq<seq<K>>)
    ensures LastMatch(alt, es, [a] + query) == LastMatch(alt, Sub(alt, es, a), query)
  {
    if es != [] {
      var front, e := es[..|es| - 1], es[|es| - 1];
      FindInSub(alt, front, a, query);
      if e.0 != [] && alt(e.0[0]) == a {
        var s := Sub(alt, es, a);
        assert s[..|s| - 1] == Sub(alt, front, a) && s[|s| - 1] == (e.0[1..], e.1);
        assert Fold(alt, e.0) == [a] + Fold(alt, e.0[1..]);
        if Fold(alt, e.0) == [a] + query {
          assert Fold(alt, e.0[1..]) == Fold(alt, e.0)[1..] == ([a] + query)[1..] == query;
        }
      } else if e.0 != [] {
        assert Fold(alt, e.0)[0] == alt(e.0[0]);
        assert ([a] + query)[0] == a;
        assert Sub(alt, es, a) == Sub(alt, front, a);
      } else {
        assert Sub(alt, es, a) == Sub(alt, front, a);
      }
    }
  }

  /** All folded prefixes of the keys; each one is a node of the trie. */
  ghost function Prefixes<K(!new), T>(alt: K -> seq<K>, es: seq<(seq<K>, T)>): set<seq<seq<K>>> {
    {[]} + set i, n | 0 <= i < |es| && 0 <= n <= |Fold(alt, es[i].0)| :: Fold(alt, es[i].0)[..n]
  }

  ghost function NodeCount<K(!new), T>(alt: K -> seq<K>, es: seq<(seq<K>, T)>): nat {
    |Prefixes(alt, es)|
  }

  /** The non-empty prefixes that start with one of the given classes. */
  ghost function Starting<K(!new), T>(alt: K -> seq<K>, es: seq<(seq<K>, T)>, firsts: set<seq<K>>): set<seq<seq<K>>> {
    set p | p in Prefixes(alt, es) && p != [] && p[0] in firsts
  }

  lemma {:induction false} SubKeeps<K(!new), T>(alt: K -> seq<K>, es: seq<(seq<K>, T)>, e: (seq<K>, T))
    requires e in es && e.0 != []
    ensures (e.0[1..], e.1) in Sub(alt, es, alt(e.0[0]))
  {
    if e != es[|es| - 1] {
      assert es == es[..|es| - 1] + [es[|es| - 1]];
      SubKeeps(alt, es[..|es| - 1], e);
    }
  }

  lemma {:induction false} SubOrigin<K(!new), T>(alt: K -> seq<K>, es: seq<(seq<K>, T)>, a: seq<K>, d: (seq<K>, T))
      returns (e: (seq<K>, T))
    requires d in Sub(alt, es, a)
    ensures e in es && e.0 != [] && alt(e.0[0]) == a && d == (e.0[1..], e.1)
  {
    e := es[|es| - 1];
    if !(e.0 != [] && alt(e.0[0]) == a && d == (e.0[1..], e.1)) {
      e := SubOrigin(alt, es[..|es| - 1], a, d);
    }
  }

  lemma PrefixIn<K(!new), T>(alt: K -> seq<K>, es: seq<(seq<K>, T)>, e: (seq<K>, T), n: nat)
    requires e in es && n <= |Fold(alt, e.0)|
    ensures Fold(alt, e.0)[..n] in Prefixes(alt, es)
  {
    var i :| 0 <= i < |es| && es[i] == e;
    assert Fold(alt, es[i].0)[..n] == Fold(alt, e.0)[..n];
  }

  lemma PrefixOf<K(!new), T>(alt: K -> seq<K>, es: seq<(seq<K>, T)>, p: seq<seq<K>>) returns (e: (seq<K>, T))
    requires p in Prefixes(alt, es) && p != []
    ensures e in es && |p| <= |Fold(alt, e.0)| && p == Fold(alt, e.0)[..|p|]
  {
    var i, n :| 0 <= i < |es| && 0 <= n <= |Fold(alt, es[i].0)| && p == Fold(alt, es[i].0)[..n];
    e := es[i];
  }

  lemma StartingIsImage<K(!new), T>(alt: K -> seq<K>, es: seq<(seq<K>, T)>, a: seq<K>)
    requires Sub(alt, es, a) != []
    ensures Starting(alt, es, {a}) == set p | p in Prefixes(alt, Sub(alt, es, a)) :: [a] + p
  {
    var sub := Sub(alt, es, a);
    forall p | p in Starting(alt, es, {a}) ensures p[1..] in Prefixes(alt, sub) && p == [a] + p[1..] {
      var e := PrefixOf(alt, es, p);
      assert Fold(alt, e.0) == [alt(e.0[0])] + Fold(alt, e.0[1..]);
      assert p[1..] == Fold(alt, e.0[1..])[..|p| - 1];
      SubKeeps(alt, es, e);
      PrefixIn(alt, sub, (e.0[1..], e.1), |p| - 1);
    }
    forall p | p in Prefixes(alt, sub) ensures [a] + p in Starting(alt, es, {a}) {
      var d := sub[0];
      if p != [] { d := PrefixOf(alt, sub, p); }
      var e := SubOrigin(alt, es, a, d);
      assert Fold(alt, e.0) == [a] + Fold(alt, d.0);
      assert Fold(alt, e.0)[..|p| + 1] == [a] + p;
      PrefixIn(alt, es, e, |p| + 1);
    }
  }

  lemma {:induction false} ImageSize<A>(s: set<seq<A>>, a: A)
    ensures |set p | p in s :: [a] + p| == |s|
    decreases s
  {
    var image := set p | p in s :: [a] + p;
    if s != {} {
      var q :| q in s;
      ImageSize(s - {q}, a);
      assert forall p | p in s :: ([a] + p)[1..] == p;
      assert image == (set p | p in s - {q} :: [a] + p) + {[a] + q};
    } else {
      assert image == {};
    }
  }

  /** One more group of keys accounts for as many more nodes as its own trie has. */
  lemma StartingGrows<K(!new), T>(alt: K -> seq<K>, es: seq<(seq<K>, T)>, done: set<seq<K>>, a: seq<K>)
    requires a !in done && Sub(alt, es, a) != []
    ensures |Starting(alt, es, done + {a})| == |Starting(alt, es, done)| + NodeCount(alt, Sub(alt, es, a))
    ensures NodeCount(alt, Sub(alt, es, a)) >= 1
  {
    StartingIsImage(alt, es, a);
    ImageSize(Prefixes(alt, Sub(alt, es, a)), a);
    assert Starting(alt, es, done + {a}) == Starting(alt, es, done) + Starting(alt, es, {a});
    assert Starting(alt, es, done) !! Starting(alt, es, {a});
    assert [] in Prefixes(alt, Sub(alt, es, a));
  }

  /** With all groups done, only the root is missing. */
  lemma StartingAll<K(!new), T>(alt: K -> seq<K>, es: seq<(seq<K>, T)>, firsts: set<seq<K>>)
    requires forall a :: a in firsts <==> Sub(alt, es, a) != []
    ensures NodeCount(alt, es) == 1 + |Starting(alt, es, firsts)|
    ensures Starting(alt, es, {}) == {}
  {
    forall p | p in Prefixes(alt, es) && p != [] ensures p in Starting(alt, es, firsts) {
      var e := PrefixOf(alt, es, p);
      assert p[0] == Fold(alt, e.0)[0] == alt(e.0[0]);
      SubKeeps(alt, es, e);
      assert Sub(alt, es, p[0]) != [];
      assert p[0] in firsts;
    }
    PlusEmpty(Prefixes(alt, es), Starting(alt, es, firsts));
  }

  lemma PlusEmpty<A>(all: set<seq<A>>, nonEmpty: set<seq<A>>)
    requires [] in all && [] !in nonEmpty && nonEmpty <= all && forall p | p in all && p != [] :: p in nonEmpty
    ensures |all| == 1 + |nonEmpty|
  {
    assert all == {[]} + nonEmpty;
  }

  ghost function Height<K(!new), T>(es: seq<(seq<K>, T)>): nat {
    if es == [] then 0
    else if Height(es[..|es| - 1]) > |es[|es| - 1].0| then Height(es[..|es| - 1]) else |es[|es| - 1].0|
  }

  lemma {:induction false} HeightOfSub<K(!new), T>(alt: K -> seq<K>, es: seq<(seq<K>, T)>, a: seq<K>)
    ensures Sub(alt, es, a) != [] ==> Height(Sub(alt, es, a)) < Height(es)
    ensures Height(Sub(alt, es, a)) <= Height(es)
  {
    if es != [] {
      var front, e := es[..|es| - 1], es[|es| - 1];
      HeightOfSub(alt, front, a);
      if e.0 != [] && alt(e.0[0]) == a {
        var s := Sub(alt, es, a);
        assert s[..|s| - 1] == Sub(alt, front, a) && s[|s| - 1].0 == e.0[1..];
      } else {
        assert Sub(alt, es, a) == Sub(alt, front, a);
      }
    }
  }

  /** The last pair whose key is used up. */
  function Ending<K(!new), T>(es: seq<(seq<K>, T)>): Option<T> {
    if es == [] then None else if es[|es| - 1].0 == [] then Some(es[|es| - 1].1) else Ending(es[..|es| - 1])
  }

  lemma {:induction false} FindHere<K(!new), T>(alt: K -> seq<K>, es: seq<(seq<K>, T)>)
    ensures LastMatch(alt, es, []) == Ending(es)
  {
    if es != [] { FindHere(alt, es[..|es| - 1]); }
  }

  lemma {:induction false} FindNothing<K(!new), T>(
      alt: K -> seq<K>, es: seq<(seq<K>, T)>, a: seq<K>, query: seq<seq<K>>)
    requires Sub(alt, es, a) == []
    ensures LastMatch(alt, es, [a] + query) == None
  {
    FindInSub(alt, es, a, query);
  }

  /** One flat node: its key class, a slice of the child pointers, and a pointer into the values. */
  datatype Node<K> = Node(keys: seq<K>, nrOfChildNodes: nat, children: nat, value: Option<nat>)

  function Child<K>(ns: seq<Node<K>>, ks: seq<nat>, i: nat, j: nat): nat
    requires i < |ns|
  {
    if ns[i].children + j < |ks| then ks[ns[i].children + j] else 0
  }

  ghost predicate HasChild<K>(ns: seq<Node<K>>, ks: seq<nat>, i: nat, a: seq<K>)
    requires i < |ns|
  {
    exists j :: 0 <= j < ns[i].nrOfChildNodes && Child(ns, ks, i, j) < |ns| && ns[Child(ns, ks, i, j)].keys == a
  }

  /** Nodes `i..nHi` and child slots `kLo..kHi` hold exactly the trie of `es`, rooted at node `i`. */
  ghost predicate Built<K(!new), T>(alt: K -> seq<K>, ns: seq<Node<K>>, ks: seq<nat>, vs: seq<T>,
      i: nat, nHi: nat, kLo: nat, kHi: nat, es: seq<(seq<K>, T)>)
    decreases Height(es), 1
  {
    && i < nHi <= |ns| && kLo <= kHi <= |ks|
    && ValueBuilt(ns[i], vs, es)
    && (ns[i].nrOfChildNodes > 0 ==> kLo <= ns[i].children && ns[i].children + ns[i].nrOfChildNodes <= kHi)
    && (forall j | 0 <= j < ns[i].nrOfChildNodes ::
          Grown(alt, ns, ks, vs, i, Child(ns, ks, i, j), nHi, ns[i].children + ns[i].nrOfChildNodes, kHi, es))
    && (forall a :: Sub(alt, es, a) != [] ==> HasChild(ns, ks, i, a))
  }

  /** The node's value is that of the last pair that ends at it. */
  ghost predicate ValueBuilt<K(!new), T>(node: Node<K>, vs: seq<T>, es: seq<(seq<K>, T)>) {
    && (node.value.Some? ==> node.value.value < |vs|)
    && Ending(es) == (if node.value.Some? then Some(vs[node.value.value]) else None)
  }

  /** `c` is a child of `i`, with the trie of the pairs of its class below it. */
  ghost predicate Grown<K(!new), T>(alt: K -> seq<K>, ns: seq<Node<K>>, ks: seq<nat>, vs: seq<T>,
      i: nat, c: nat, nHi: nat, kLo: nat, kHi: nat, es: seq<(seq<K>, T)>)
    decreases Height(es), 0
  {
    && i < c < nHi <= |ns| && Sub(alt, es, ns[c].keys) != []
    && (HeightOfSub(alt, es, ns[c].keys); Built(alt, ns, ks, vs, c, nHi, kLo, kHi, Sub(alt, es, ns[c].keys)))
  }

  lemma HasChildFrame<K>(ns: seq<Node<K>>, ks: seq<nat>, ns': seq<Node<K>>, ks': seq<nat>, i: nat, a: seq<K>)
    requires i < |ns| == |ns'| && |ks| == |ks'| && ns'[i] == ns[i] && ns[i].children + ns[i].nrOfChildNodes <= |ks|
    requires forall j | 0 <= j < ns[i].nrOfChildNodes ::
      Child(ns', ks', i, j) == Child(ns, ks, i, j) && Child(ns, ks, i, j) < |ns|
      && ns'[Child(ns, ks, i, j)] == ns[Child(ns, ks, i, j)]
    requires HasChild(ns, ks, i, a)
    ensures HasChild(ns', ks', i, a)
  {
    var j :| 0 <= j < ns[i].nrOfChildNodes && Child(ns, ks, i, j) < |ns| && ns[Child(ns, ks, i, j)].keys == a;
    assert ns'[Child(ns', ks', i, j)].keys == a;
  }

  lemma SameOne<X>(a: seq<X>, b: seq<X>, low: nat, k: nat, high: nat)
    requires low <= k < high <= |a| == |b| && a[low..high] == b[low..high]
    ensures a[k] == b[k]
  {
    assert a[k] == a[low..high][k - low] && b[k] == b[low..high][k - low];
  }

  lemma SameRest<X>(a: seq<X>, b: seq<X>, low: nat, middle: nat, high: nat)
    requires low <= middle <= high <= |a| == |b| && a[low..high] == b[low..high]
    ensures a[middle..high] == b[middle..high]
  {
    assert a[middle..high] == a[low..high][middle - low..] && b[middle..high] == b[low..high][middle - low..];
  }

  /** What Built says stays true when only other nodes, other child slots or later values change. */
  lemma {:induction false} BuiltFrame<K(!new), T>(alt: K -> seq<K>, ns: seq<Node<K>>, ks: seq<nat>, vs: seq<T>,
      i: nat, nHi: nat, kLo: nat, kHi: nat, es: seq<(seq<K>, T)>,
      ns': seq<Node<K>>, ks': seq<nat>, vs': seq<T>, nHi': nat, kLo': nat, kHi': nat)
    requires Built(alt, ns, ks, vs, i, nHi, kLo, kHi, es)
    requires |ns'| == |ns| && |ks'| == |ks| && vs <= vs'
    requires nHi <= nHi' <= |ns| && kLo' <= kLo && kHi <= kHi' <= |ks|
    requires ns'[i..nHi] == ns[i..nHi] && ks'[kLo..kHi] == ks[kLo..kHi]
    ensures Built(alt, ns', ks', vs', i, nHi', kLo', kHi', es)
    decreases Height(es), 1
  {
    hide Sub, Height;
    SameOne(ns, ns', i, i, nHi);
    var end := ns[i].children + ns[i].nrOfChildNodes;
    forall j | 0 <= j < ns[i].nrOfChildNodes
      ensures Child(ns', ks', i, j) == Child(ns, ks, i, j)
      ensures Grown(alt, ns', ks', vs', i, Child(ns, ks, i, j), nHi', end, kHi', es)
      ensures ns'[Child(ns, ks, i, j)] == ns[Child(ns, ks, i, j)]
    {
      var c, k := Child(ns, ks, i, j), ns[i].children + j;
      SameOne(ks, ks', kLo, k, kHi);
      assert Grown(alt, ns, ks, vs, i, c, nHi, end, kHi, es);
      SameOne(ns, ns', i, c, nHi);
      SameRest(ns, ns', i, c, nHi);
      SameRest(ks, ks', kLo, end, kHi);
      HeightOfSub(alt, es, ns[c].keys);
      BuiltFrame(alt, ns, ks, vs, c, nHi, end, kHi, Sub(alt, es, ns[c].keys), ns', ks', vs', nHi', end, kHi');
    }
    forall a | Sub(alt, es, a) != [] ensures HasChild(ns', ks', i, a) {
      HasChildFrame(ns, ks, ns', ks', i, a);
    }
  }

  /** How many pairs end here, and how many go on with one of the given classes. */
  ghost function EndingCount<K, T>(es: seq<(seq<K>, T)>): nat {
    if es == [] then 0 else EndingCount(es[..|es| - 1]) + if es[|es| - 1].0 == [] then 1 else 0
  }

  ghost function GoingOn<K, T>(alt: K -> seq<K>, es: seq<(seq<K>, T)>, firsts: set<seq<K>>): nat {
    if es == [] then 0
    else
      var e := es[|es| - 1];
      GoingOn(alt, es[..|es| - 1], firsts) + if e.0 != [] && alt(e.0[0]) in firsts then 1 else 0
  }

  lemma {:induction false} GoingOnGrows<K(!new), T>(
      alt: K -> seq<K>, es: seq<(seq<K>, T)>, done: set<seq<K>>, a: seq<K>)
    requires a !in done
    ensures GoingOn(alt, es, done + {a}) == GoingOn(alt, es, done) + |Sub(alt, es, a)|
  {
    if es != [] { GoingOnGrows(alt, es[..|es| - 1], done, a); }
  }

  lemma {:induction false} EveryPairCounted<K(!new), T>(alt: K -> seq<K>, es: seq<(seq<K>, T)>, firsts: set<seq<K>>)
    requires forall a :: Sub(alt, es, a) != [] ==> a in firsts
    ensures EndingCount(es) + GoingOn(alt, es, firsts) == |es|
  {
    if es != [] {
      var front, e := es[..|es| - 1], es[|es| - 1];
      forall a | Sub(alt, front, a) != [] ensures a in firsts {
        assert Sub(alt, es, a) != [];
      }
      EveryPairCounted(alt, front, firsts);
      if e.0 != [] { assert Sub(alt, es, alt(e.0[0])) != []; }
    }
  }

  lemma {:induction false} NoneGoingOn<K(!new), T>(alt: K -> seq<K>, es: seq<(seq<K>, T)>)
    ensures GoingOn(alt, es, {}) == 0
  {
    if es != [] { NoneGoingOn(alt, es[..|es| - 1]); }
  }

  /** The nodes, and the pairs, of the groups in `order`. */
  ghost function NodesOf<K(!new), T>(alt: K -> seq<K>, es: seq<(seq<K>, T)>, order: seq<seq<K>>): nat {
    if order == [] then 0
    else NodesOf(alt, es, order[..|order| - 1]) + NodeCount(alt, Sub(alt, es, order[|order| - 1]))
  }

  ghost function PairsOf<K(!new), T>(alt: K -> seq<K>, es: seq<(seq<K>, T)>, order: seq<seq<K>>): nat {
    if order == [] then 0
    else PairsOf(alt, es, order[..|order| - 1]) + |Sub(alt, es, order[|order| - 1])|
  }

  lemma {:induction false} NodesOfIsStarting<K(!new), T>(alt: K -> seq<K>, es: seq<(seq<K>, T)>, order: seq<seq<K>>)
    requires Distinct(order) && forall a | a in order :: Sub(alt, es, a) != []
    ensures NodesOf(alt, es, order) == |Starting(alt, es, AsSet(order))|
    ensures PairsOf(alt, es, order) == GoingOn(alt, es, AsSet(order))
  {
    if order == [] {
      NoneGoingOn(alt, es);
      assert AsSet(order) == {} && Starting(alt, es, {}) == {};
    } else {
      var front, a := order[..|order| - 1], order[|order| - 1];
      assert order == front + [a];
      NodesOfIsStarting(alt, es, front);
      AppendedSet(front, a);
      assert a !in AsSet(front);
      StartingGrows(alt, es, AsSet(front), a);
      GoingOnGrows(alt, es, AsSet(front), a);
    }
  }

  /** A trie is its root and the tries of its groups; every pair ends here or belongs to a group. */
  lemma GroupsAreAll<K(!new), T>(alt: K -> seq<K>, es: seq<(seq<K>, T)>, order: seq<seq<K>>)
    requires Distinct(order) && forall a :: a in order <==> Sub(alt, es, a) != []
    ensures NodeCount(alt, es) == 1 + NodesOf(alt, es, order)
    ensures |es| == EndingCount(es) + PairsOf(alt, es, order)
    ensures order == [] ==> NodeCount(alt, es) == 1 && |es| == EndingCount(es)
  {
    assert order == [] ==> NodesOf(alt, es, order) == 0 && PairsOf(alt, es, order) == 0;
    hide Starting, GoingOn, Sub, NodeCount, NodesOf, PairsOf;
    NodesOfIsStarting(alt, es, order);
    StartingAll(alt, es, AsSet(order));
    EveryPairCounted(alt, es, AsSet(order));
  }

  /** Group `j` and the groups after it, each of at least one node, still fit. */
  lemma {:induction false} GroupStep<K(!new), T>(alt: K -> seq<K>, es: seq<(seq<K>, T)>, order: seq<seq<K>>, j: nat)
    requires j < |order|
    ensures var a := order[j];
      && NodesOf(alt, es, order[..j + 1]) == NodesOf(alt, es, order[..j]) + NodeCount(alt, Sub(alt, es, a))
      && PairsOf(alt, es, order[..j + 1]) == PairsOf(alt, es, order[..j]) + |Sub(alt, es, a)|
      && NodesOf(alt, es, order[..j + 1]) + |order| - j - 1 <= NodesOf(alt, es, order)
      && PairsOf(alt, es, order[..j + 1]) <= PairsOf(alt, es, order)
      && NodesOf(alt, es, order[..j]) >= j
    decreases |order| - j
  {
    hide Sub, NodeCount;
    assert order[..j + 1][..j] == order[..j];
    RootCounts(alt, Sub(alt, es, order[j]));
    if j + 1 < |order| {
      RootCounts(alt, Sub(alt, es, order[j + 1]));
      GroupStep(alt, es, order, j + 1);
    } else {
      assert order[..j + 1] == order;
    }
    AtLeastOneEach(alt, es, order[..j]);
  }

  lemma {:induction false} AtLeastOneEach<K(!new), T>(alt: K -> seq<K>, es: seq<(seq<K>, T)>, order: seq<seq<K>>)
    ensures NodesOf(alt, es, order) >= |order|
  {
    if order != [] {
      RootCounts(alt, Sub(alt, es, order[|order| - 1]));
      AtLeastOneEach(alt, es, order[..|order| - 1]);
    }
  }

  /** sameKeys: the pairs grouped by the class of their first key part. */
  ghost predicate Grouped<K(!new), T>(alt: K -> seq<K>, es: seq<(seq<K>, T)>, groups: map<seq<K>, seq<(seq<K>, T)>>) {
    && (forall a | a in groups :: groups[a] == Sub(alt, es, a) && groups[a] != [])
    && (forall a :: Sub(alt, es, a) != [] ==> a in groups)
  }

  /** Files every pair whose key goes on under the class of its first part. */
  method GroupByFirst<K(!new, ==), T>(alt: K -> seq<K>, es: seq<(seq<K>, T)>)
      returns (sameKeys: map<seq<K>, seq<(seq<K>, T)>>)
    ensures Grouped(alt, es, sameKeys)
  {
    sameKeys := map[];
    for n := 0 to |es|
      invariant Grouped(alt, es[..n], sameKeys)
    {
      var (key, value) := es[n];
      assert es[..n + 1][..n] == es[..n];
      if key != [] {
        var a := alt(key[0]);
        var rest := (key[1..], value);
        sameKeys := sameKeys[a := (if a in sameKeys then sameKeys[a] else []) + [rest]];
      }
    }
    assert es[..|es|] == es;
  }

  /** countRequiredNumberedOfNodes */
  method CountRequiredNodes<K(!new, ==), T>(alt: K -> seq<K>, es: seq<(seq<K>, T)>) returns (result: nat)
    ensures result == NodeCount(alt, es)
    decreases Height(es)
  {
    result := 1;
    var sameKeys := GroupByFirst(alt, es);
    var order := ListOf(sameKeys.Keys);
    assert forall a :: a in order <==> a in AsSet(order);
    GroupsAreAll(alt, es, order);
    for j := 0 to |order|
      invariant result == 1 + NodesOf(alt, es, order[..j])
    {
      GroupStep(alt, es, order, j);
      HeightOfSub(alt, es, order[j]);
      var count := CountRequiredNodes(alt, sameKeys[order[j]]);
      result := result + count;
    }
    assert order[..|order|] == order;
  }

  /** The first `j` groups of `order` have their subtrees, entered in the slots from `start` on. */
  ghost predicate Children<K(!new), T>(alt: K -> seq<K>, ns: seq<Node<K>>, ks: seq<nat>, vs: seq<T>,
      i: nat, order: seq<seq<K>>, start: nat, j: nat, nHi: nat, kHi: nat, es: seq<(seq<K>, T)>)
  {
    && j <= |order| && nHi <= |ns| && start + |order| <= kHi <= |ks|
    && forall m | 0 <= m < j :: Placed(alt, ns, ks, vs, i, order, start, m, nHi, kHi, es)
  }

  ghost predicate Placed<K(!new), T>(alt: K -> seq<K>, ns: seq<Node<K>>, ks: seq<nat>, vs: seq<T>,
      i: nat, order: seq<seq<K>>, start: nat, m: nat, nHi: nat, kHi: nat, es: seq<(seq<K>, T)>)
    requires m < |order| && nHi <= |ns| && start + |order| <= kHi <= |ks|
  {
    Grown(alt, ns, ks, vs, i, ks[start + m], nHi, start + |order|, kHi, es) && ns[ks[start + m]].keys == order[m]
  }

  lemma ChildrenFrame<K(!new), T>(alt: K -> seq<K>, ns: seq<Node<K>>, ks: seq<nat>, vs: seq<T>,
      i: nat, order: seq<seq<K>>, start: nat, j: nat, nHi: nat, kHi: nat, es: seq<(seq<K>, T)>,
      ns': seq<Node<K>>, ks': seq<nat>, vs': seq<T>, nHi': nat, kHi': nat)
    requires Children(alt, ns, ks, vs, i, order, start, j, nHi, kHi, es)
    requires |ns'| == |ns| && |ks'| == |ks| && vs <= vs' && nHi <= nHi' <= |ns| && kHi <= kHi' <= |ks| && i < nHi
    requires ns'[i + 1..nHi] == ns[i + 1..nHi] && ks'[start + |order|..kHi] == ks[start + |order|..kHi]
    requires ks'[start..start + j] == ks[start..start + j]
    ensures Children(alt, ns', ks', vs', i, order, start, j, nHi', kHi', es)
  {
    var end := start + |order|;
    forall m | 0 <= m < j ensures Placed(alt, ns', ks', vs', i, order, start, m, nHi', kHi', es) {
      assert Placed(alt, ns, ks, vs, i, order, start, m, nHi, kHi, es);
      assert ks'[start + m] == ks'[start..start + j][m] == ks[start + m];
      var c := ks[start + m];
      assert Grown(alt, ns, ks, vs, i, c, nHi, end, kHi, es);
      assert ns'[c] == ns'[i + 1..nHi][c - i - 1] == ns[c];
      assert ns'[c..nHi] == ns'[i + 1..nHi][c - i - 1..] && ns[c..nHi] == ns[i + 1..nHi][c - i - 1..];
      HeightOfSub(alt, es, ns[c].keys);
      BuiltFrame(alt, ns, ks, vs, c, nHi, end, kHi, Sub(alt, es, ns[c].keys), ns', ks', vs', nHi', end, kHi');
    }
  }

  /** One more group has been placed behind everything placed before. */
  lemma ChildrenStep<K(!new), T>(alt: K -> seq<K>, ns: seq<Node<K>>, ks: seq<nat>, vs: seq<T>,
      i: nat, order: seq<seq<K>>, start: nat, j: nat, nHi: nat, kHi: nat, es: seq<(seq<K>, T)>,
      ns': seq<Node<K>>, ks': seq<nat>, vs': seq<T>, nHi': nat, kHi': nat)
    requires Children(alt, ns, ks, vs, i, order, start, j, nHi, kHi, es) && j < |order|
    requires |ns'| == |ns| && |ks'| == |ks| && vs <= vs' && nHi < nHi' <= |ns| && kHi <= kHi' <= |ks| && i < nHi
    requires forall n | 0 <= n < nHi && n != i :: ns'[n] == ns[n]
    requires forall k | 0 <= k < kHi && k != start + j :: ks'[k] == ks[k]
    requires ks'[start + j] == nHi && ns'[nHi].keys == order[j] && Sub(alt, es, order[j]) != []
    requires Built(alt, ns', ks', vs', nHi, nHi', kHi, kHi', Sub(alt, es, order[j]))
    ensures Children(alt, ns', ks', vs', i, order, start, j + 1, nHi', kHi', es)
  {
    ChildrenFrame(alt, ns, ks, vs, i, order, start, j, nHi, kHi, es, ns', ks', vs', nHi', kHi');
    BuiltFrame(alt, ns', ks', vs', nHi, nHi', kHi, kHi', Sub(alt, es, order[j]), ns', ks', vs', nHi',
      start + |order|, kHi');
    assert Placed(alt, ns', ks', vs', i, order, start, j, nHi', kHi', es);
  }

  /** A parent with all its groups placed is a finished node. */
  lemma ChildrenBuild<K(!new), T>(alt: K -> seq<K>, ns: seq<Node<K>>, ks: seq<nat>, vs: seq<T>,
      i: nat, order: seq<seq<K>>, kLo: nat, start: nat, nHi: nat, kHi: nat, es: seq<(seq<K>, T)>)
    requires Children(alt, ns, ks, vs, i, order, start, |order|, nHi, kHi, es)
    requires i < nHi && kLo <= start && kLo <= kHi && ValueBuilt(ns[i], vs, es)
    requires ns[i].nrOfChildNodes == |order| && (order != [] ==> ns[i].children == start)
    requires forall a :: Sub(alt, es, a) != [] ==> a in order
    ensures Built(alt, ns, ks, vs, i, nHi, kLo, kHi, es)
  {
    forall j | 0 <= j < ns[i].nrOfChildNodes
      ensures Child(ns, ks, i, j) == ks[start + j]
      ensures Grown(alt, ns, ks, vs, i, Child(ns, ks, i, j), nHi, start + |order|, kHi, es)
    {
      assert Placed(alt, ns, ks, vs, i, order, start, j, nHi, kHi, es);
    }
    forall a | Sub(alt, es, a) != [] ensures HasChild(ns, ks, i, a) {
      var j :| 0 <= j < |order| && order[j] == a;
      assert Placed(alt, ns, ks, vs, i, order, start, j, nHi, kHi, es);
      assert ns[Child(ns, ks, i, j)].keys == a;
    }
  }

  lemma LeafBuild<K(!new), T>(alt: K -> seq<K>, ns: seq<Node<K>>, ks: seq<nat>, vs: seq<T>, i: nat, nHi: nat, k: nat,
      es: seq<(seq<K>, T)>)
    requires i < nHi <= |ns| && k <= |ks| && ns[i].nrOfChildNodes == 0 && ValueBuilt(ns[i], vs, es)
    requires forall a :: Sub(alt, es, a) == []
    ensures Built(alt, ns, ks, vs, i, nHi, k, k, es)
  {
  }

  class ImmutableTrie<K(!new, ==), T(!new)> {
    const alt: K -> seq<K>
    var values: seq<T>
    var valueCapacity: nat
    var nodes: array<Node<K>>
    var childNodeArrays: array<nat>
    var nrOfNodes: nat
    var nodesCurrentlyAdded: nat
    var childNodesCurrentlyAdded: nat

    /** The trie of the pairs `es` has been placed. */
    ghost predicate Holds(es: seq<(seq<K>, T)>)
      reads this, nodes, childNodeArrays
    {
      Built(alt, nodes[..], childNodeArrays[..], values, 0, nodes.Length, 0, childNodeArrays.Length, es)
    }

    /** Both arrays have the counted size, and the nodes after the last placed one are blank. */
    ghost predicate Placing()
      reads this, nodes, childNodeArrays
    {
      && nodes.Length == nrOfNodes == childNodeArrays.Length
      && nodesCurrentlyAdded < nrOfNodes && childNodesCurrentlyAdded < nrOfNodes
      && forall n | nodesCurrentlyAdded < n < nrOfNodes :: nodes[n] == Node([], 0, 0, None)
    }

    /** Enough room is left in both arrays and in the reserved value vector for these pairs. */
    ghost predicate RoomFor(es: seq<(seq<K>, T)>)
      reads this
    {
      && nodesCurrentlyAdded + NodeCount(alt, es) <= nrOfNodes
      && childNodesCurrentlyAdded + NodeCount(alt, es) <= nrOfNodes
      && |values| + |es| <= valueCapacity
    }

    /** Appending within the reserved capacity never moves the values already stored. */
    method AddValueAndGetPtr(value: T) returns (slot: nat)
      requires |values| < valueCapacity
      modifies `values
      ensures slot == |old(values)| && values == old(values) + [value]
    {
      slot := |values|;
      values := values + [value];
    }

    method GetChildNodeArray(count: nat) returns (start: nat)
      requires childNodesCurrentlyAdded + count < nrOfNodes
      modifies `childNodesCurrentlyAdded
      ensures start == old(childNodesCurrentlyAdded) && childNodesCurrentlyAdded == start + count
    {
      start := childNodesCurrentlyAdded;
      childNodesCurrentlyAdded := childNodesCurrentlyAdded + count;
      assert childNodesCurrentlyAdded < nrOfNodes;
    }

    /** The first loop of addKeyLevel: values of used-up keys go to the parent, the rest is grouped. */
    method TakeValues(parent: nat, es: seq<(seq<K>, T)>) returns (sameKeys: map<seq<K>, seq<(seq<K>, T)>>)
      requires parent < nodes.Length && nodes[parent].value == None && |values| + |es| <= valueCapacity
      modifies `values, nodes
      ensures Grouped(alt, es, sameKeys)
      ensures old(values) <= values && |values| == |old(values)| + EndingCount(es)
      ensures nodes[parent] == old(nodes[parent]).(value := nodes[parent].value)
        && ValueBuilt(nodes[parent], values, es)
      ensures forall n | 0 <= n < nodes.Length && n != parent :: nodes[n] == old(nodes[n])
    {
      sameKeys := map[];
      for n := 0 to |es|
        invariant Grouped(alt, es[..n], sameKeys)
        invariant old(values) <= values && |values| == |old(values)| + EndingCount(es[..n]) <= |old(values)| + n
        invariant nodes[parent] == old(nodes[parent]).(value := nodes[parent].value)
        invariant ValueBuilt(nodes[parent], values, es[..n])
        invariant forall m | 0 <= m < nodes.Length && m != parent :: nodes[m] == old(nodes[m])
      {
        var (key, value) := es[n];
        assert es[..n + 1][..n] == es[..n];
        if key == [] {
          var slot := AddValueAndGetPtr(value);
          nodes[parent] := nodes[parent].(value := Some(slot));
        } else {
          var a := alt(key[0]);
          var rest := (key[1..], value);
          sameKeys := sameKeys[a := (if a in sameKeys then sameKeys[a] else []) + [rest]];
        }
      }
      assert es[..|es|] == es;
    }

    /** Takes the next node for class `a`, enters it in the parent's slice and places the group below it. */
    method AddChild(parent: nat, start: nat, ghost es: seq<(seq<K>, T)>, a: seq<K>, group: seq<(seq<K>, T)>)
      requires Placing() && parent <= nodesCurrentlyAdded && group != [] && group == Sub(alt, es, a)
      requires nodesCurrentlyAdded + NodeCount(alt, group) < nrOfNodes
      requires childNodesCurrentlyAdded + NodeCount(alt, group) <= nrOfNodes && |values| + |group| <= valueCapacity
      requires nodes[parent].children == start && start + nodes[parent].nrOfChildNodes < childNodesCurrentlyAdded
      modifies this`values, this`nodesCurrentlyAdded, this`childNodesCurrentlyAdded, nodes, childNodeArrays
      ensures Placing()
      ensures nodesCurrentlyAdded == old(nodesCurrentlyAdded) + NodeCount(alt, group)
      ensures childNodesCurrentlyAdded == old(childNodesCurrentlyAdded) + NodeCount(alt, group) - 1
      ensures old(values) <= values && |values| == |old(values)| + |group|
      ensures nodes[parent] == old(nodes[parent]).(nrOfChildNodes := old(nodes[parent].nrOfChildNodes) + 1)
      ensures forall n | 0 <= n <= old(nodesCurrentlyAdded) && n != parent :: nodes[n] == old(nodes[n])
      ensures var slot := start + old(nodes[parent].nrOfChildNodes);
        && childNodeArrays[slot] == old(nodesCurrentlyAdded) + 1
        && forall k | 0 <= k < old(childNodesCurrentlyAdded) && k != slot ::
          childNodeArrays[k] == old(childNodeArrays[k])
      ensures nodes[old(nodesCurrentlyAdded) + 1].keys == a
      ensures Built(alt, nodes[..], childNodeArrays[..], values, old(nodesCurrentlyAdded) + 1, nodesCurrentlyAdded + 1,
                    old(childNodesCurrentlyAdded), childNodesCurrentlyAdded, group)
      decreases Height(group), 2
    {
      hide NodeCount, Built, Sub;
      RootCounts(alt, group);
      nodesCurrentlyAdded := nodesCurrentlyAdded + 1;
      assert nodesCurrentlyAdded < nrOfNodes;
      var childNode := nodesCurrentlyAdded;
      nodes[childNode] := nodes[childNode].(keys := a);
      childNodeArrays[start + nodes[parent].nrOfChildNodes] := childNode;
      nodes[parent] := nodes[parent].(nrOfChildNodes := nodes[parent].nrOfChildNodes + 1);
      AddKeyLevel(childNode, group);
    }

    /** One round of the loop over the groups: the first `j` children stay as they are, one more is finished. */
    method PlaceGroup(parent: nat, start: nat, ghost es: seq<(seq<K>, T)>, order: seq<seq<K>>, j: nat,
        group: seq<(seq<K>, T)>)
      requires Placing() && parent <= nodesCurrentlyAdded && j < |order| && group != []
        && group == Sub(alt, es, order[j])
      requires nodesCurrentlyAdded + NodeCount(alt, group) < nrOfNodes
      requires childNodesCurrentlyAdded + NodeCount(alt, group) <= nrOfNodes && |values| + |group| <= valueCapacity
      requires nodes[parent].children == start && nodes[parent].nrOfChildNodes == j
        && start + |order| <= childNodesCurrentlyAdded
      requires Children(alt, nodes[..], childNodeArrays[..], values, parent, order, start, j,
                        nodesCurrentlyAdded + 1, childNodesCurrentlyAdded, es)
      modifies this`values, this`nodesCurrentlyAdded, this`childNodesCurrentlyAdded, nodes, childNodeArrays
      ensures Placing()
      ensures nodesCurrentlyAdded == old(nodesCurrentlyAdded) + NodeCount(alt, group)
      ensures childNodesCurrentlyAdded == old(childNodesCurrentlyAdded) + NodeCount(alt, group) - 1
      ensures old(values) <= values && |values| == |old(values)| + |group|
      ensures nodes[parent] == old(nodes[parent]).(nrOfChildNodes := j + 1)
      ensures forall n | 0 <= n <= old(nodesCurrentlyAdded) && n != parent :: nodes[n] == old(nodes[n])
      ensures childNodeArrays[..start] == old(childNodeArrays[..start])
      ensures Children(alt, nodes[..], childNodeArrays[..], values, parent, order, start, j + 1,
                       nodesCurrentlyAdded + 1, childNodesCurrentlyAdded, es)
      decreases Height(group), 3
    {
      hide Children, Built, NodeCount, Sub;
      AddChild(parent, start, es, order[j], group);
      RootCounts(alt, group);
      ChildrenStep(alt, old(nodes[..]), old(childNodeArrays[..]), old(values), parent, order, start, j,
                   old(nodesCurrentlyAdded) + 1, old(childNodesCurrentlyAdded), es,
                   nodes[..], childNodeArrays[..], values, nodesCurrentlyAdded + 1, childNodesCurrentlyAdded);
    }

    method AddKeyLevel(parent: nat, es: seq<(seq<K>, T)>)
      requires Placing() && RoomFor(es) && parent <= nodesCurrentlyAdded
      requires nodes[parent].nrOfChildNodes == 0 && nodes[parent].value == None
      modifies this`values, this`nodesCurrentlyAdded, this`childNodesCurrentlyAdded, nodes, childNodeArrays
      ensures Placing()
      ensures nodesCurrentlyAdded == old(nodesCurrentlyAdded) + NodeCount(alt, es) - 1
      ensures childNodesCurrentlyAdded == old(childNodesCurrentlyAdded) + NodeCount(alt, es) - 1
      ensures old(values) <= values && |values| == |old(values)| + |es|
      ensures nodes[parent].keys == old(nodes[parent].keys)
      ensures forall n | 0 <= n <= old(nodesCurrentlyAdded) && n != parent :: nodes[n] == old(nodes[n])
      ensures childNodeArrays[..old(childNodesCurrentlyAdded)] == old(childNodeArrays[..childNodesCurrentlyAdded])
      ensures Built(alt, nodes[..], childNodeArrays[..], values, parent, nodesCurrentlyAdded + 1,
                    old(childNodesCurrentlyAdded), childNodesCurrentlyAdded, es)
      decreases Height(es), 1
    {
      hide Built, NodeCount, Sub, Height, Ending, Progress, NodesOf, PairsOf, EndingCount;
      RootCounts(alt, es);
      var sameKeys := TakeValues(parent, es);
      var order := ListOf(sameKeys.Keys);
      assert forall a :: a in order <==> a in AsSet(order);
      GroupsAreAll(alt, es, order);
      AtLeastOneEach(alt, es, order);
      if order != [] {
        var start := GetChildNodeArray(|order|);
        nodes[parent] := nodes[parent].(children := start);
        ghost var ns, ks, vs, placed := nodes[..], childNodeArrays[..], values, nodesCurrentlyAdded;
        AddChildren(parent, start, es, sameKeys, order);
        ProgressDone(parent, start, es, order, ns, ks, vs, placed);
      } else {
        assert forall a :: Sub(alt, es, a) == [];
        LeafBuild(alt, nodes[..], childNodeArrays[..], values, parent, nodesCurrentlyAdded + 1,
          childNodesCurrentlyAdded, es);
      }
    }

    /** After `j` groups, starting from nodes `ns`, child slots `ks`, values `vs` and `placed` nodes. */
    ghost predicate Progress(parent: nat, start: nat, es: seq<(seq<K>, T)>, order: seq<seq<K>>, j: nat,
        ns: seq<Node<K>>, ks: seq<nat>, vs: seq<T>, placed: nat)
      reads this, nodes, childNodeArrays
    {
      && j <= |order| && Placing() && parent <= placed < |ns| == nodes.Length && start <= |ks| == childNodeArrays.Length
      && nodesCurrentlyAdded == placed + NodesOf(alt, es, order[..j])
      && childNodesCurrentlyAdded == start + |order| - j + NodesOf(alt, es, order[..j])
      && vs <= values && |values| == |vs| + PairsOf(alt, es, order[..j])
      && nodes[parent] == ns[parent].(nrOfChildNodes := j) && ns[parent].children == start
      && (forall n | 0 <= n <= placed && n != parent :: nodes[n] == ns[n])
      && childNodeArrays[..start] == ks[..start]
      && Children(alt, nodes[..], childNodeArrays[..], values, parent, order, start, j,
                  nodesCurrentlyAdded + 1, childNodesCurrentlyAdded, es)
    }

    method ProgressStep(parent: nat, start: nat, ghost es: seq<(seq<K>, T)>, order: seq<seq<K>>, j: nat,
        group: seq<(seq<K>, T)>,
        ghost ns: seq<Node<K>>, ghost ks: seq<nat>, ghost vs: seq<T>, ghost placed: nat)
      requires Progress(parent, start, es, order, j, ns, ks, vs, placed) && j < |order|
      requires group != [] && group == Sub(alt, es, order[j])
      requires placed + NodesOf(alt, es, order) < nrOfNodes && start + NodesOf(alt, es, order) < nrOfNodes
      requires |vs| + PairsOf(alt, es, order) <= valueCapacity
      modifies this`values, this`nodesCurrentlyAdded, this`childNodesCurrentlyAdded, nodes, childNodeArrays
      ensures Progress(parent, start, es, order, j + 1, ns, ks, vs, placed)
      decreases Height(group), 4
    {
      GroupStep(alt, es, order, j);
      hide Children, NodesOf, PairsOf, NodeCount, Sub;
      PlaceGroup(parent, start, es, order, j, group);
    }

    lemma NoProgress(parent: nat, start: nat, es: seq<(seq<K>, T)>, order: seq<seq<K>>)
      requires Placing() && parent <= nodesCurrentlyAdded < nodes.Length && start <= childNodeArrays.Length
      requires start + |order| == childNodesCurrentlyAdded
      requires nodes[parent].nrOfChildNodes == 0 && nodes[parent].children == start
      ensures Progress(parent, start, es, order, 0, nodes[..], childNodeArrays[..], values, nodesCurrentlyAdded)
    {
      hide Sub;
    }

    method AddChildren(parent: nat, start: nat, ghost es: seq<(seq<K>, T)>, sameKeys: map<seq<K>, seq<(seq<K>, T)>>,
        order: seq<seq<K>>)
      requires Placing() && parent <= nodesCurrentlyAdded && Grouped(alt, es, sameKeys)
      requires order != [] && Distinct(order) && forall a :: a in order <==> a in sameKeys
      requires nodesCurrentlyAdded + NodeCount(alt, es) <= nrOfNodes && start + NodeCount(alt, es) <= nrOfNodes
      requires start + |order| == childNodesCurrentlyAdded
      requires |values| + PairsOf(alt, es, order) <= valueCapacity
      requires nodes[parent].nrOfChildNodes == 0 && nodes[parent].children == start
        && ValueBuilt(nodes[parent], values, es)
      modifies this`values, this`nodesCurrentlyAdded, this`childNodesCurrentlyAdded, nodes, childNodeArrays
      ensures Progress(parent, start, es, order, |order|, old(nodes[..]), old(childNodeArrays[..]), old(values),
        old(nodesCurrentlyAdded))
      decreases Height(es), 0
    {
      hide Progress, NodeCount, Sub, Height, Ending, NodesOf, PairsOf, ValueBuilt;
      GroupsAreAll(alt, es, order);
      NoProgress(parent, start, es, order);
      for j := 0 to |order|
        invariant Progress(parent, start, es, order, j, old(nodes[..]), old(childNodeArrays[..]), old(values),
          old(nodesCurrentlyAdded))
      {
        HeightOfSub(alt, es, order[j]);
        var group := sameKeys[order[j]];
        assert group == Sub(alt, es, order[j]) && group != [];
        ProgressStep(parent, start, es, order, j, group, old(nodes[..]), old(childNodeArrays[..]), old(values),
          old(nodesCurrentlyAdded));
      }
    }

    /** All groups are placed, so the parent is finished. */
    lemma ProgressDone(parent: nat, start: nat, es: seq<(seq<K>, T)>, order: seq<seq<K>>,
        ns: seq<Node<K>>, ks: seq<nat>, vs: seq<T>, placed: nat)
      requires Progress(parent, start, es, order, |order|, ns, ks, vs, placed) && order != []
      requires ValueBuilt(ns[parent], vs, es)
      requires Distinct(order) && forall a :: a in order <==> Sub(alt, es, a) != []
      ensures Built(alt, nodes[..], childNodeArrays[..], values, parent, nodesCurrentlyAdded + 1, start,
        childNodesCurrentlyAdded, es)
      ensures nodesCurrentlyAdded == placed + NodeCount(alt, es) - 1
        && childNodesCurrentlyAdded == start + NodeCount(alt, es) - 1
      ensures |values| == |vs| + |es| - EndingCount(es)
      ensures Placing() && vs <= values && nodes[parent].keys == ns[parent].keys
        && childNodeArrays[..start] == ks[..start]
      ensures forall n | 0 <= n <= placed && n != parent :: nodes[n] == ns[n]
    {
      hide NodesOf, PairsOf, NodeCount, Children, Sub, EndingCount, Built;
      assert order[..|order|] == order;
      GroupsAreAll(alt, es, order);
      ChildrenBuild(alt, nodes[..], childNodeArrays[..], values, parent, order, start, start,
                    nodesCurrentlyAdded + 1, childNodesCurrentlyAdded, es);
    }

    /** The empty trie is one blank node. */
    constructor Empty(alt: K -> seq<K>)
      ensures Holds([]) && this.alt == alt && values == [] && fresh(nodes) && fresh(childNodeArrays)
    {
      this.alt, values, valueCapacity := alt, [], 0;
      nodes := new Node<K>[1](_ => Node([], 0, 0, None));
      childNodeArrays := new nat[0];
      nrOfNodes, nodesCurrentlyAdded, childNodesCurrentlyAdded := 0, 0, 0;
    }

    /** Counts the nodes, sizes both arrays by that count and fills every node and all but one child slot. */
    constructor (alt: K -> seq<K>, es: seq<(seq<K>, T)>)
      ensures Holds(es) && this.alt == alt && fresh(nodes) && fresh(childNodeArrays)
      ensures nrOfNodes == nodes.Length == childNodeArrays.Length == NodeCount(alt, es)
      ensures nodesCurrentlyAdded + 1 == nrOfNodes && childNodesCurrentlyAdded + 1 == nrOfNodes
      ensures |values| == |es| == valueCapacity
    {
      var count := CountRequiredNodes(alt, es);
      RootCounts(alt, es);
      this.alt, values, valueCapacity := alt, [], |es|;
      nodes := new Node<K>[count](_ => Node([], 0, 0, None));
      childNodeArrays := new nat[count](_ => 0);
      nrOfNodes, nodesCurrentlyAdded, childNodesCurrentlyAdded := count, 0, 0;
      new;
      hide NodeCount, Built, Height;
      AddKeyLevel(0, es);
      BuiltFrame(alt, nodes[..], childNodeArrays[..], values, 0, nodesCurrentlyAdded + 1, 0,
        childNodesCurrentlyAdded, es,
                 nodes[..], childNodeArrays[..], values, nodes.Length, 0, childNodeArrays.Length);
    }

    /** The loop over one node's children: the child whose alternatives hold `k`, with the trie of its
        group below it. */
    method MatchChild(i: nat, k: K, ghost nHi: nat, ghost kLo: nat, ghost kHi: nat, ghost es: seq<(seq<K>, T)>)
        returns (matched: Option<nat>, ghost kNext: nat)
      requires FoldsAlike(alt) && Built(alt, nodes[..], childNodeArrays[..], values, i, nHi, kLo, kHi, es)
      ensures matched.None? ==> Sub(alt, es, alt(k)) == []
      ensures matched.Some? ==>
                Built(alt, nodes[..], childNodeArrays[..], values, matched.value, nHi, kNext, kHi, Sub(alt, es, alt(k)))
    {
      kNext := nodes[i].children + nodes[i].nrOfChildNodes;
      for j := 0 to nodes[i].nrOfChildNodes
        invariant forall m | 0 <= m < j ::
            Child(nodes[..], childNodeArrays[..], i, m) < nodes.Length
            && nodes[Child(nodes[..], childNodeArrays[..], i, m)].keys != alt(k)
      {
        assert Grown(alt, nodes[..], childNodeArrays[..], values, i, Child(nodes[..], childNodeArrays[..], i, j), nHi,
          kNext, kHi, es);
        var childNode := childNodeArrays[nodes[i].children + j];
        ghost var d := Sub(alt, es, nodes[childNode].keys)[0];
        ghost var e := SubOrigin(alt, es, nodes[childNode].keys, d);
        assert k in alt(e.0[0]) <==> alt(k) == alt(e.0[0]);
        if k in nodes[childNode].keys { return Some(childNode), kNext; }
      }
      matched := None;
      assert !HasChild(nodes[..], childNodeArrays[..], i, alt(k));
    }

    /** Follows the key from the root; the value found is that of the last pair whose key folds like `key`. */
    method Find(key: seq<K>, ghost es: seq<(seq<K>, T)>) returns (result: Option<T>)
      requires FoldsAlike(alt) && Holds(es)
      ensures result == LastMatch(alt, es, Fold(alt, key))
    {
      var currentNode, n := 0, 0;
      ghost var kLo, sub := 0, es;
      hide Built, Sub, LastMatch;
      while n < |key|
        invariant n <= |key|
        invariant Built(alt, nodes[..], childNodeArrays[..], values, currentNode, nodes.Length, kLo,
          childNodeArrays.Length, sub)
        invariant LastMatch(alt, es, Fold(alt, key)) == LastMatch(alt, sub, Fold(alt, key[n..]))
      {
        ghost var a, rest := alt(key[n]), Fold(alt, key[n + 1..]);
        assert key[n..][0] == key[n] && key[n..][1..] == key[n + 1..];
        assert Fold(alt, key[n..]) == [a] + rest;
        var matched, kNext := MatchChild(currentNode, key[n], nodes.Length, kLo, childNodeArrays.Length, sub);
        if matched.None? {
          FindNothing(alt, sub, a, rest);
          return None;
        }
        FindInSub(alt, sub, a, rest);
        currentNode, n := matched.value, n + 1;
        kLo, sub := kNext, Sub(alt, sub, a);
      }
      FindHere(alt, sub);
      assert key[n..] == [];
      result := ValueAt(currentNode, nodes.Length, kLo, childNodeArrays.Length, sub);
    }

    method ValueAt(i: nat, ghost nHi: nat, ghost kLo: nat, ghost kHi: nat, ghost es: seq<(seq<K>, T)>)
        returns (result: Option<T>)
      requires Built(alt, nodes[..], childNodeArrays[..], values, i, nHi, kLo, kHi, es)
      ensures result == Ending(es)
    {
      result := if nodes[i].value.Some? then Some(values[nodes[i].value.value]) else None;
    }
  }

  lemma RootCounts<K(!new), T>(alt: K -> seq<K>, es: seq<(seq<K>, T)>)
    ensures NodeCount(alt, es) >= 1
  {
    assert [] in Prefixes(alt, es);
  }

  /** Lookup without regard to case, as for the names of HTTP headers: the last pair whose key is as long as the query
      and agrees with it at every position, up to the case of ASCII letters. */
  method FindIgnoringCase<T(!new)>(trie: ImmutableTrie<char, T>, key: string, ghost es: seq<(string, T)>)
      returns (result: Option<T>)
    requires trie.alt == AsciiUpperLowerKey && trie.Holds(es)
    ensures result.None? ==> forall i | 0 <= i < |es| :: !EqualIgnoringCase(es[i].0, key)
    ensures result.Some? ==> exists i | 0 <= i < |es| ::
        && EqualIgnoringCase(es[i].0, key) && result.value == es[i].1
        && forall j | i < j < |es| :: !EqualIgnoringCase(es[j].0, key)
  {
    KeyGettersFoldAlike<char>();
    result := trie.Find(key, es);
    LastMatchIs(AsciiUpperLowerKey, es, Fold(AsciiUpperLowerKey, key));
    forall i | 0 <= i < |es|
      ensures Fold(AsciiUpperLowerKey, es[i].0) == Fold(AsciiUpperLowerKey, key) <==> EqualIgnoringCase(es[i].0, key)
    {
      FoldIgnoresCase(es[i].0, key);
    }
  }

  /** Lookup with the plain getter: the last pair with exactly that key. */
  method FindExactly<K(!new, ==), T(!new)>(trie: ImmutableTrie<K, T>, key: seq<K>, ghost es: seq<(seq<K>, T)>)
      returns (result: Option<T>)
    requires trie.alt == SingleKey && trie.Holds(es)
    ensures result.None? ==> forall i | 0 <= i < |es| :: es[i].0 != key
    ensures result.Some? ==> exists i | 0 <= i < |es| ::
        es[i].0 == key && result.value == es[i].1 && forall j | i < j < |es| :: es[j].0 != key
  {
    KeyGettersFoldAlike<K>();
    result := trie.Find(key, es);
    LastMatchIs(SingleKey, es, Fold(SingleKey, key));
    forall i | 0 <= i < |es| ensures Fold(SingleKey, es[i].0) == Fold(SingleKey, key) <==> es[i].0 == key {
      FoldIsExact(es[i].0, key);
    }
  }
}
