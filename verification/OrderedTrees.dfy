/**
 Searches over ordered binary trees: all values of one key (src/core/RBTree_Map.c) and the
 interval around a point (src/core/Interval_Tree.c). The trees are any ordered trees; how they
 are balanced does not matter.
 */
module OrderedTrees {
  import opened Prelude

  datatype Tree<K, V> = Leaf | Node(left: Tree<K, V>, key: K, value: V, right: Tree<K, V>)

  function InOrder<K, V>(t: Tree<K, V>): seq<(K, V)> {
    match t
    case Leaf => []
    case Node(l, k, v, r) => InOrder(l) + [(k, v)] + InOrder(r)
  }

  // -------------------------------------------------------- all values of one key

  /** A C comparison function that orders all keys. */
  ghost predicate TotalOrder<K(!new)>(cmp: (K, K) -> int) {
    && (forall a, b :: cmp(a, b) < 0 <==> cmp(b, a) > 0)
    && (forall a, b, c :: cmp(a, b) <= 0 && cmp(b, c) <= 0 ==> cmp(a, c) <= 0)
  }

  /** Keys never descend; equal keys may stand on either side of one another. */
  ghost predicate Sorted<K, V>(cmp: (K, K) -> int, s: seq<(K, V)>) {
    forall i, j :: 0 <= i < j < |s| ==> cmp(s[i].0, s[j].0) <= 0
  }

  /** The linear scan: the values whose key compares equal, in order. */
  function Matches<K, V>(cmp: (K, K) -> int, s: seq<(K, V)>, key: K): seq<V> {
    if s == [] then []
    else (if cmp(key, s[0].0) == 0 then [s[0].1] else []) + Matches(cmp, s[1..], key)
  }

  lemma {:induction false} MatchesAppend<K, V>(cmp: (K, K) -> int, a: seq<(K, V)>, b: seq<(K, V)>, key: K)
    ensures Matches(cmp, a + b, key) == Matches(cmp, a, key) + Matches(cmp, b, key)
    decreases |a|
  {
    if a == [] {
      assert a + b == b;
    } else {
      var head := if cmp(key, a[0].0) == 0 then [a[0].1] else [];
      assert (a + b)[0] == a[0] && (a + b)[1..] == a[1..] + b;
      MatchesAppend(cmp, a[1..], b, key);
      assert Matches(cmp, a + b, key) == head + (Matches(cmp, a[1..], key) + Matches(cmp, b, key));
    }
  }

  lemma {:induction false} NoMatches<K, V>(cmp: (K, K) -> int, s: seq<(K, V)>, key: K)
    requires forall i :: 0 <= i < |s| ==> cmp(key, s[i].0) != 0
    ensures Matches(cmp, s, key) == []
    decreases |s|
  {
    if s != [] {
      NoMatches(cmp, s[1..], key);
    }
  }

  /** In an ordered tree the left subtree is not above the root, the right one not below it. */
  lemma SortedHalves<K, V>(cmp: (K, K) -> int, l: seq<(K, V)>, m: (K, V), r: seq<(K, V)>)
    requires Sorted(cmp, l + [m] + r)
    ensures Sorted(cmp, l) && Sorted(cmp, r)
    ensures forall i :: 0 <= i < |l| ==> cmp(l[i].0, m.0) <= 0
    ensures forall i :: 0 <= i < |r| ==> cmp(m.0, r[i].0) <= 0
  {
    var s := l + [m] + r;
    assert s[|l|] == m;
    assert forall i :: 0 <= i < |l| ==> l[i] == s[i];
    assert forall i :: 0 <= i < |r| ==> r[i] == s[|l| + 1 + i];
  }

  lemma NothingRight<K(!new), V>(cmp: (K, K) -> int, m: K, s: seq<(K, V)>, key: K)
    requires TotalOrder(cmp) && cmp(key, m) < 0 && forall i :: 0 <= i < |s| ==> cmp(m, s[i].0) <= 0
    ensures Matches(cmp, s, key) == []
  {
    assert forall i :: 0 <= i < |s| ==> cmp(m, s[i].0) <= 0 && (cmp(s[i].0, key) <= 0 ==> cmp(m, key) <= 0);
    NoMatches(cmp, s, key);
  }

  lemma NothingLeft<K(!new), V>(cmp: (K, K) -> int, m: K, s: seq<(K, V)>, key: K)
    requires TotalOrder(cmp) && cmp(key, m) > 0 && forall i :: 0 <= i < |s| ==> cmp(s[i].0, m) <= 0
    ensures Matches(cmp, s, key) == []
  {
    assert forall i :: 0 <= i < |s| ==> cmp(s[i].0, m) <= 0 && (cmp(key, s[i].0) <= 0 ==> cmp(key, m) <= 0);
    NoMatches(cmp, s, key);
  }

  /** The half of the tree that the comparison rules out holds no match. */
  lemma DescendKeepsMatches<K(!new), V>(cmp: (K, K) -> int, t: Tree<K, V>, key: K)
    requires TotalOrder(cmp) && t.Node? && Sorted(cmp, InOrder(t))
    ensures Sorted(cmp, InOrder(t.left)) && Sorted(cmp, InOrder(t.right))
    ensures cmp(key, t.key) < 0 ==> Matches(cmp, InOrder(t), key) == Matches(cmp, InOrder(t.left), key)
    ensures cmp(key, t.key) > 0 ==> Matches(cmp, InOrder(t), key) == Matches(cmp, InOrder(t.right), key)
    ensures cmp(key, t.key) == 0 ==>
              Matches(cmp, InOrder(t), key) ==
              Matches(cmp, InOrder(t.left), key) + [t.value] + Matches(cmp, InOrder(t.right), key)
  {
    var l, m, r := InOrder(t.left), (t.key, t.value), InOrder(t.right);
    SortedHalves(cmp, l, m, r);
    MatchesAppend(cmp, l + [m], r, key);
    MatchesAppend(cmp, l, [m], key);
    if cmp(key, t.key) < 0 {
      NothingRight(cmp, t.key, r, key);
    } else if cmp(key, t.key) > 0 {
      NothingLeft(cmp, t.key, l, key);
    }
  }

  /** __find_same_key_node: descends to the first equal key, then searches both of its subtrees. */
  method FindSameKey<K(!new), V>(t: Tree<K, V>, cmp: (K, K) -> int, key: K, list: seq<V>) returns (list': seq<V>)
    requires TotalOrder(cmp) && Sorted(cmp, InOrder(t))
    ensures list <= list'
    ensures multiset(list') == multiset(list) + multiset(Matches(cmp, InOrder(t), key))
    decreases |InOrder(t)|
  {
    list' := list;
    var node := t;
    while node.Node?
      invariant |InOrder(node)| <= |InOrder(t)|
      invariant list' == list
      invariant Sorted(cmp, InOrder(node))
      invariant Matches(cmp, InOrder(node), key) == Matches(cmp, InOrder(t), key)
      decreases node
    {
      var result := cmp(key, node.key);
      DescendKeepsMatches(cmp, node, key);
      if result < 0 {
        node := node.left;
      } else if result > 0 {
        node := node.right;
      } else {
        list' := list' + [node.value];
        list' := FindSameKey(node.left, cmp, key, list');
        list' := FindSameKey(node.right, cmp, key, list');
        return;
      }
    }
  }

  /** __search_all_same_key: agrees with scanning the whole map. */
  method SearchAllSameKey<K(!new), V>(t: Tree<K, V>, cmp: (K, K) -> int, key: K, list: seq<V>) returns (list': seq<V>)
    requires TotalOrder(cmp) && Sorted(cmp, InOrder(t))
    ensures list <= list'
    ensures multiset(list') == multiset(list) + multiset(Matches(cmp, InOrder(t), key))
  {
    list' := list;
    var node := t;
    while node.Node?
      invariant list' == list
      invariant Sorted(cmp, InOrder(node))
      invariant Matches(cmp, InOrder(node), key) == Matches(cmp, InOrder(t), key)
      decreases node
    {
      var result := cmp(key, node.key);
      DescendKeepsMatches(cmp, node, key);
      if result < 0 {
        node := node.left;
      } else if result > 0 {
        node := node.right;
      } else {
        list' := list' + [node.value];
        list' := FindSameKey(node.left, cmp, key, list');
        list' := FindSameKey(node.right, cmp, key, list');
        return;
      }
    }
  }

  // ---------------------------------------------------------- interval containment

  /** A closed interval; the C code compares the bounds as unsigned words. */
  datatype Interval = Interval(start: nat, end: nat)

  predicate Contains(i: Interval, key: nat) {
    i.start <= key <= i.end
  }

  ghost predicate Covers(s: seq<Interval>, key: nat) {
    exists i :: i in s && Contains(i, key)
  }

  type IntervalTree = Tree<nat, Interval>

  /** The intervals of a tree, by position. */
  ghost function Intervals(t: IntervalTree): (r: seq<Interval>)
    ensures |r| == |InOrder(t)|
  {
    seq(|InOrder(t)|, i requires 0 <= i < |InOrder(t)| => InOrder(t)[i].1)
  }

  lemma IntervalsOfNode(t: IntervalTree)
    requires t.Node?
    ensures Intervals(t) == Intervals(t.left) + [t.value] + Intervals(t.right)
  {
  }

  ghost predicate StartsAscend(s: seq<Interval>) {
    forall i, j :: 0 <= i < j < |s| ==> s[i].start < s[j].start
  }

  /** A key past interval `j` that an earlier interval contains is also contained in a later one. */
  ghost predicate NoHoleAt(s: seq<Interval>, j: nat, key: nat)
    requires j < |s|
  {
    s[j].start <= key && s[j].end < key && Covers(s[..j], key) ==> Covers(s[j + 1..], key)
  }

  /** Whatever interval the search steps past to the right, it does not leave a key's only intervals behind. */
  ghost predicate NoHole(s: seq<Interval>) {
    forall j, key: nat :: 0 <= j < |s| ==> NoHoleAt(s, j, key)
  }

  /** Where the descent for `key` ends. */
  ghost function Descent(t: IntervalTree, key: nat): Option<Interval> {
    if t.Leaf? then None
    else if key < t.value.start then Descent(t.left, key)
    else if key > t.value.end then Descent(t.right, key)
    else Some(t.value)
  }

  /** Interval_Tree's __search */
  method IntervalSearch(t: IntervalTree, key: nat) returns (found: Option<Interval>)
    ensures found == Descent(t, key)
    ensures found.Some? ==> found.value in Intervals(t) && Contains(found.value, key)
    ensures StartsAscend(Intervals(t)) && NoHole(Intervals(t)) ==> (found.Some? <==> Covers(Intervals(t), key))
  {
    DescentSound(t, key);
    if StartsAscend(Intervals(t)) && NoHole(Intervals(t)) {
      DescentComplete(t, key);
    }
    var node := t;
    while node.Node?
      invariant Descent(node, key) == Descent(t, key)
      decreases node
    {
      if key < node.value.start {
        node := node.left;
      } else if key > node.value.end {
        node := node.right;
      } else {
        return Some(node.value);
      }
    }
    return None;
  }

  lemma {:induction false} DescentSound(t: IntervalTree, key: nat)
    ensures Descent(t, key).Some? ==> Descent(t, key).value in Intervals(t) && Contains(Descent(t, key).value, key)
    ensures Descent(t, key).Some? ==> Covers(Intervals(t), key)
  {
    if t.Node? {
      IntervalsOfNode(t);
      DescentSound(t.left, key);
      DescentSound(t.right, key);
    }
  }

  /** Some interval in `s[a..b]` contains the key. */
  ghost predicate CoveredIn(s: seq<Interval>, a: nat, b: nat, key: nat)
    requires a <= b <= |s|
  {
    exists i :: a <= i < b && Contains(s[i], key)
  }

  lemma CoversByIndex(s: seq<Interval>, a: nat, b: nat, key: nat)
    requires a <= b <= |s|
    ensures Covers(s[a..b], key) <==> CoveredIn(s, a, b, key)
  {
    if i :| a <= i < b && Contains(s[i], key) {
      assert s[a..b][i - a] == s[i];
    }
  }

  /** Stepping right from interval `j` loses nothing as long as intervals from `b` on start after the key. */
  lemma StepRight(s: seq<Interval>, a: nat, j: nat, b: nat, key: nat)
    requires a <= j < b <= |s| && StartsAscend(s) && NoHole(s) && (b < |s| ==> key < s[b].start)
    requires s[j].start <= key && s[j].end < key && CoveredIn(s, a, b, key)
    ensures CoveredIn(s, j + 1, b, key)
  {
    CoversByIndex(s, 0, j, key);
    CoversByIndex(s, j + 1, |s|, key);
    assert s[0..j] == s[..j] && s[j + 1..|s|] == s[j + 1..];
    var i :| a <= i < b && Contains(s[i], key);
    if i < j {
      assert CoveredIn(s, 0, j, key) && NoHoleAt(s, j, key);
      var k :| j + 1 <= k < |s| && Contains(s[k], key);
      assert k < b;
    }
  }

  /** The search in a subtree that holds `s[a..b]` misses nothing there. */
  lemma {:induction false} DescentInPart(s: seq<Interval>, t: IntervalTree, a: nat, b: nat, key: nat)
    requires a <= b <= |s| && Intervals(t) == s[a..b]
    requires StartsAscend(s) && NoHole(s) && (b < |s| ==> key < s[b].start)
    requires CoveredIn(s, a, b, key)
    ensures Descent(t, key).Some?
    decreases t
  {
    if t.Node? {
      IntervalsOfNode(t);
      var j := a + |Intervals(t.left)|;
      assert s[a..b][j - a] == s[j] == t.value;
      assert s[a..j] == s[a..b][..j - a] == Intervals(t.left);
      assert s[j + 1..b] == s[a..b][j + 1 - a..] == Intervals(t.right);
      if key < t.value.start {
        assert CoveredIn(s, a, j, key);
        DescentInPart(s, t.left, a, j, key);
      } else if key > t.value.end {
        StepRight(s, a, j, b, key);
        DescentInPart(s, t.right, j + 1, b, key);
      }
    }
  }

  /** Without holes, the search in every tree over the intervals finds whatever can be found. */
  lemma DescentComplete(t: IntervalTree, key: nat)
    requires StartsAscend(Intervals(t)) && NoHole(Intervals(t))
    ensures Descent(t, key).Some? <==> Covers(Intervals(t), key)
  {
    var s := Intervals(t);
    DescentSound(t, key);
    assert s[0..|s|] == s;
    CoversByIndex(s, 0, |s|, key);
    if Covers(s, key) {
      DescentInPart(s, t, 0, |s|, key);
    }
  }

  /** Some tree over the intervals. */
  ghost function Leaning(s: seq<Interval>): (t: IntervalTree)
    ensures Intervals(t) == s
  {
    if s == [] then Leaf
    else
      var t := Node(Leaf, s[0].start, s[0], Leaning(s[1..]));
      IntervalsOfNode(t);
      t
  }

  /** A hole at `j` makes the search miss in the tree that has interval `j` at its root. */
  lemma HoleIsMissed(s: seq<Interval>, j: nat, key: nat) returns (t: IntervalTree)
    requires j < |s| && !NoHoleAt(s, j, key)
    ensures Intervals(t) == s && Covers(s, key) && Descent(t, key).None?
  {
    t := Node(Leaning(s[..j]), s[j].start, s[j], Leaning(s[j + 1..]));
    IntervalsOfNode(t);
    assert s[..j] + [s[j]] + s[j + 1..] == s;
    DescentSound(t.right, key);
    var i :| i in s[..j] && Contains(i, key);
    assert i in s;
  }

  /** The search finds an interval for every contained key, however the tree over `s` is shaped. */
  ghost predicate AlwaysFound(s: seq<Interval>) {
    forall t: IntervalTree, key :: Intervals(t) == s && Covers(s, key) ==> Descent(t, key).Some?
  }

  /** Exactly when the intervals have no hole is the search complete in every tree over them. */
  lemma CompleteIffNoHole(s: seq<Interval>)
    requires StartsAscend(s)
    ensures AlwaysFound(s) <==> NoHole(s)
  {
    if NoHole(s) {
      forall t: IntervalTree, key | Intervals(t) == s && Covers(s, key) ensures Descent(t, key).Some? {
        DescentComplete(t, key);
      }
    } else {
      var j, key: nat :| 0 <= j < |s| && !NoHoleAt(s, j, key);
      var t := HoleIsMissed(s, j, key);
    }
  }

  /** Proper intervals with distinct starts that meet at most in endpoints. */
  ghost predicate TouchingAtMost(s: seq<Interval>) {
    && (forall i :: 0 <= i < |s| ==> s[i].start <= s[i].end)
    && (forall i, j :: 0 <= i < j < |s| ==> s[i].start < s[j].start && s[i].end <= s[j].start)
  }

  ghost predicate Disjoint(s: seq<Interval>) {
    && (forall i :: 0 <= i < |s| ==> s[i].start <= s[i].end)
    && (forall i, j :: 0 <= i < j < |s| ==> s[i].end < s[j].start)
  }

  /** Intervals that meet at most in endpoints have no hole: a key past one is past all before it. */
  lemma TouchingHasNoHole(s: seq<Interval>)
    requires TouchingAtMost(s)
    ensures StartsAscend(s) && NoHole(s)
  {
    forall j, key: nat | 0 <= j < |s| ensures NoHoleAt(s, j, key) {
      CoversByIndex(s, 0, j, key);
      assert s[0..j] == s[..j];
    }
  }

  /** Among disjoint intervals at most one contains a key, so the answer is the only one. */
  lemma DisjointIsUnique(s: seq<Interval>, a: Interval, b: Interval, key: nat)
    requires Disjoint(s) && a in s && b in s && Contains(a, key) && Contains(b, key)
    ensures a == b
  {
    var i :| 0 <= i < |s| && s[i] == a;
    var j :| 0 <= j < |s| && s[j] == b;
    assert !(i < j) && !(j < i);
  }

  /**
   For intervals that meet at most in endpoints the search succeeds exactly when some interval
   contains the key; for disjoint ones it returns the only one.
   */
  lemma TouchingSearch(t: IntervalTree, key: nat)
    requires TouchingAtMost(Intervals(t))
    ensures Descent(t, key).Some? <==> Covers(Intervals(t), key)
    ensures Disjoint(Intervals(t)) ==>
              forall i :: i in Intervals(t) && Contains(i, key) ==> Descent(t, key) == Some(i)
  {
    TouchingHasNoHole(Intervals(t));
    DescentSound(t, key);
    DescentComplete(t, key);
    if Disjoint(Intervals(t)) {
      forall i | i in Intervals(t) && Contains(i, key) ensures Descent(t, key) == Some(i) {
        DisjointIsUnique(Intervals(t), Descent(t, key).value, i, key);
      }
    }
  }

  /** Nested intervals are not found reliably: 5 lies in [1, 10], left of [3, 4]. */
  lemma NestedIntervalIsMissed()
    ensures var t := Node(Node(Leaf, 1, Interval(1, 10), Leaf), 3, Interval(3, 4), Leaf);
            Descent(t, 5).None? && Covers(Intervals(t), 5) && !NoHole(Intervals(t))
  {
    var t := Node(Node(Leaf, 1, Interval(1, 10), Leaf), 3, Interval(3, 4), Leaf);
    IntervalsOfNode(t);
    IntervalsOfNode(t.left);
    var s := Intervals(t);
    assert s == [Interval(1, 10), Interval(3, 4)];
    assert Contains(s[0], 5) && s[0] in s[..1] && s[0] in s;
    assert !NoHoleAt(s, 1, 5);
  }
}
