/**
 What the depth-first orders of a forest are, said by positions: who stands before whom follows
 from the paths and the child lists alone.
 */
module TreeOrder {
  import opened Prelude
  import opened Forest

  /** Some occurrence of `a` in `q` stands before some occurrence of `b`. */
  ghost predicate Before<T>(q: seq<T>, a: T, b: T) {
    exists i, j :: 0 <= i < j < |q| && q[i] == a && q[j] == b
  }

  /** In a sequence that holds nothing twice, only one of two elements stands before the other. */
  lemma BeforeIsStrict<T>(q: seq<T>, a: T, b: T)
    requires Distinct(q) && Before(q, a, b)
    ensures !Before(q, b, a)
  {
  }

  lemma BeforeAcross<T>(p: seq<T>, q: seq<T>, a: T, b: T)
    requires a in p && b in q
    ensures Before(p + q, a, b)
  {
    var i :| 0 <= i < |p| && p[i] == a;
    var j :| 0 <= j < |q| && q[j] == b;
    assert (p + q)[i] == a && (p + q)[|p| + j] == b;
  }

  lemma BeforeInside<T>(pre: seq<T>, q: seq<T>, post: seq<T>, a: T, b: T)
    requires Before(q, a, b)
    ensures Before(pre + q + post, a, b)
  {
    var i, j :| 0 <= i < j < |q| && q[i] == a && q[j] == b;
    var all := pre + q + post;
    assert all[|pre| + i] == a && all[|pre| + j] == b;
  }

  /** Every node of a subtree but its top lies below one of the top's children. */
  lemma KidAbove<T>(s: Shape<T>, n: T, x: T) returns (i: nat)
    requires Ok(s) && n in s.path && x in Sub(s.path, n) && x != n
    ensures i < |s.kids[n]| && s.kids[n][i] in s.path && x in Sub(s.path, s.kids[n][i])
    ensures |Sub(s.path, s.kids[n][i])| < |Sub(s.path, n)|
  {
    SubSplit(s, n);
    assert x in FirstSubs(s, n, |s.kids[n]|);
    i :| 0 <= i < |s.kids[n]| && s.kids[n][i] in s.path[x];
    KidInSub(s, n, s.kids[n][i]);
  }

  // -------------------------------------------------------------------- preorder

  lemma InPreorder<T>(s: Shape<T>, n: T, x: T)
    requires Ok(s) && n in s.path
    ensures x in Preorder(s, n) <==> x in Sub(s.path, n)
  {
    PreorderVisitsAll(s, n);
    assert x in Preorder(s, n) <==> x in multiset(Preorder(s, n));
  }

  /** The part for child `i` stands as a block in front of the parts for the later children. */
  lemma {:induction false} PreorderBlock<T>(s: Shape<T>, n: T, from: nat, i: nat) returns (pre: seq<T>)
    requires Ok(s) && n in s.path && from <= i < |s.kids[n]|
    ensures s.kids[n][i] in s.path
    ensures PreorderFrom(s, n, from) == pre + Preorder(s, s.kids[n][i]) + PreorderFrom(s, n, i + 1)
    decreases |s.kids[n]| - from
  {
    KidInSub(s, n, s.kids[n][i]);
    if from == i {
      pre := [];
    } else {
      KidInSub(s, n, s.kids[n][from]);
      var rest := PreorderBlock(s, n, from + 1, i);
      pre := Preorder(s, s.kids[n][from]) + rest;
    }
  }

  lemma InPreorderFrom<T>(s: Shape<T>, n: T, from: nat, i: nat, x: T)
    requires Ok(s) && n in s.path && from <= i < |s.kids[n]| && s.kids[n][i] in s.path
    requires x in Sub(s.path, s.kids[n][i])
    ensures x in PreorderFrom(s, n, from)
  {
    var pre := PreorderBlock(s, n, from, i);
    InPreorder(s, s.kids[n][i], x);
  }

  /** What stands in order within a child's part stands so in the whole. */
  lemma PreorderLift<T>(s: Shape<T>, n: T, i: nat, a: T, b: T)
    requires Ok(s) && n in s.path && i < |s.kids[n]| && s.kids[n][i] in s.path
    requires Before(Preorder(s, s.kids[n][i]), a, b)
    ensures Before(Preorder(s, n), a, b)
  {
    var pre := PreorderBlock(s, n, 0, i);
    var block, post := Preorder(s, s.kids[n][i]), PreorderFrom(s, n, i + 1);
    assert Preorder(s, n) == [n] + pre + block + post;
    BeforeInside([n] + pre, block, post, a, b);
  }

  /** A node stands before everything below it. */
  lemma {:induction false} PreorderParentFirst<T>(s: Shape<T>, n: T, a: T, b: T)
    requires Ok(s) && n in s.path && a in Sub(s.path, n) && b in Sub(s.path, a) && a != b
    ensures Before(Preorder(s, n), a, b)
    decreases |Sub(s.path, n)|
  {
    if a == n {
      var i := KidAbove(s, n, b);
      InPreorderFrom(s, n, 0, i, b);
      BeforeAcross([n], PreorderFrom(s, n, 0), a, b);
    } else {
      var i := KidAbove(s, n, a);
      PreorderParentFirst(s, s.kids[n][i], a, b);
      PreorderLift(s, n, i, a, b);
    }
  }

  /** Everything below a child stands before everything below a later child of the same node. */
  lemma {:induction false} PreorderSiblings<T>(s: Shape<T>, n: T, m: T, i: nat, j: nat, a: T, b: T)
    requires Ok(s) && n in s.path && m in Sub(s.path, n) && i < j < |s.kids[m]|
    requires a in Sub(s.path, s.kids[m][i]) && b in Sub(s.path, s.kids[m][j])
    ensures Before(Preorder(s, n), a, b)
    decreases |Sub(s.path, n)|
  {
    if m == n {
      KidInSub(s, n, s.kids[n][j]);
      var pre := PreorderBlock(s, n, 0, i);
      InPreorder(s, s.kids[n][i], a);
      InPreorderFrom(s, n, i + 1, j, b);
      assert Preorder(s, n) == [n] + pre + Preorder(s, s.kids[n][i]) + PreorderFrom(s, n, i + 1);
      BeforeAcross([n] + pre + Preorder(s, s.kids[n][i]), PreorderFrom(s, n, i + 1), a, b);
    } else {
      var k := KidAbove(s, n, m);
      PreorderSiblings(s, s.kids[n][k], m, i, j, a, b);
      PreorderLift(s, n, k, a, b);
    }
  }

  // ------------------------------------------------------------------- postorder

  lemma InPostorder<T>(s: Shape<T>, n: T, x: T)
    requires Ok(s) && n in s.path
    ensures x in Postorder(s, n) <==> x in Sub(s.path, n)
  {
    PostorderVisitsAll(s, n);
    assert x in Postorder(s, n) <==> x in multiset(Postorder(s, n));
  }

  /** The part for child `i` stands as a block behind the parts for the earlier children. */
  lemma {:induction false} PostorderBlock<T>(s: Shape<T>, n: T, i: nat, upTo: nat) returns (post: seq<T>)
    requires Ok(s) && n in s.path && i < upTo <= |s.kids[n]|
    ensures s.kids[n][i] in s.path
    ensures PostorderTo(s, n, upTo) == PostorderTo(s, n, i) + Postorder(s, s.kids[n][i]) + post
    decreases upTo
  {
    KidInSub(s, n, s.kids[n][i]);
    if upTo == i + 1 {
      post := [];
    } else {
      KidInSub(s, n, s.kids[n][upTo - 1]);
      var rest := PostorderBlock(s, n, i, upTo - 1);
      post := rest + Postorder(s, s.kids[n][upTo - 1]);
    }
  }

  lemma InPostorderTo<T>(s: Shape<T>, n: T, i: nat, upTo: nat, x: T)
    requires Ok(s) && n in s.path && i < upTo <= |s.kids[n]| && s.kids[n][i] in s.path
    requires x in Sub(s.path, s.kids[n][i])
    ensures x in PostorderTo(s, n, upTo)
  {
    var post := PostorderBlock(s, n, i, upTo);
    InPostorder(s, s.kids[n][i], x);
  }

  lemma PostorderLift<T>(s: Shape<T>, n: T, i: nat, a: T, b: T)
    requires Ok(s) && n in s.path && i < |s.kids[n]| && s.kids[n][i] in s.path
    requires Before(Postorder(s, s.kids[n][i]), a, b)
    ensures Before(Postorder(s, n), a, b)
  {
    var post := PostorderBlock(s, n, i, |s.kids[n]|);
    var pre, block := PostorderTo(s, n, i), Postorder(s, s.kids[n][i]);
    assert Postorder(s, n) == pre + block + (post + [n]);
    BeforeInside(pre, block, post + [n], a, b);
  }

  /** A node stands behind everything below it. */
  lemma {:induction false} PostorderParentLast<T>(s: Shape<T>, n: T, a: T, b: T)
    requires Ok(s) && n in s.path && a in Sub(s.path, n) && b in Sub(s.path, a) && a != b
    ensures Before(Postorder(s, n), b, a)
    decreases |Sub(s.path, n)|
  {
    if a == n {
      var i := KidAbove(s, n, b);
      InPostorderTo(s, n, i, |s.kids[n]|, b);
      BeforeAcross(PostorderTo(s, n, |s.kids[n]|), [n], b, a);
    } else {
      var i := KidAbove(s, n, a);
      PostorderParentLast(s, s.kids[n][i], a, b);
      PostorderLift(s, n, i, b, a);
    }
  }

  /** Everything below a child stands before everything below a later child of the same node. */
  lemma {:induction false} PostorderSiblings<T>(s: Shape<T>, n: T, m: T, i: nat, j: nat, a: T, b: T)
    requires Ok(s) && n in s.path && m in Sub(s.path, n) && i < j < |s.kids[m]|
    requires a in Sub(s.path, s.kids[m][i]) && b in Sub(s.path, s.kids[m][j])
    ensures Before(Postorder(s, n), a, b)
    decreases |Sub(s.path, n)|
  {
    if m == n {
      KidInSub(s, n, s.kids[n][i]);
      var post := PostorderBlock(s, n, j, |s.kids[n]|);
      InPostorder(s, s.kids[n][j], b);
      InPostorderTo(s, n, i, j, a);
      assert Postorder(s, n) == PostorderTo(s, n, j) + (Postorder(s, s.kids[n][j]) + post + [n]);
      BeforeAcross(PostorderTo(s, n, j), Postorder(s, s.kids[n][j]) + post + [n], a, b);
    } else {
      var k := KidAbove(s, n, m);
      PostorderSiblings(s, s.kids[n][k], m, i, j, a, b);
      PostorderLift(s, n, k, a, b);
    }
  }
}
