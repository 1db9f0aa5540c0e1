/**
 The shape of a set of linked tree nodes, as plain values: for every node the path from the
 top of its tree down to it, and the sequence of its children. Acyclicity, subtrees and depth
 all read off the paths.
 */
module Forest {
  import opened Prelude

  type Paths<T> = map<T, seq<T>>

  datatype Shape<T> = Shape(path: Paths<T>, kids: map<T, seq<T>>)

  /** The prefix of the path to `m` that ends at index `i` is the path to the node found there. */
  ghost predicate PrefixOk<T>(path: Paths<T>, m: T, i: nat)
    requires m in path && i < |path[m]|
  {
    path[m][i] in path && path[path[m][i]] == path[m][..i + 1]
  }

  ghost predicate PathOk<T>(path: Paths<T>, m: T)
    requires m in path
  {
    && |path[m]| > 0
    && path[m][|path[m]| - 1] == m
    && forall i {:trigger PrefixOk(path, m, i)} :: 0 <= i < |path[m]| ==> PrefixOk(path, m, i)
  }

  ghost predicate PathsOk<T>(path: Paths<T>) {
    forall m {:trigger PathOk(path, m)} :: m in path ==> PathOk(path, m)
  }

  /** `k` hangs directly below `n`. */
  ghost predicate Below<T>(path: Paths<T>, n: T, k: T)
    requires n in path
  {
    k in path && path[k] == path[n] + [k]
  }

  /** The children listed for a node are exactly the nodes directly below it, each once. */
  ghost predicate KidsOk<T>(s: Shape<T>, n: T)
    requires n in s.path && n in s.kids
  {
    && Distinct(s.kids[n])
    && (forall k {:trigger Below(s.path, n, k)} :: k in s.kids[n] ==> Below(s.path, n, k))
    && (forall k {:trigger Below(s.path, n, k)} :: k in s.path && Below(s.path, n, k) ==> k in s.kids[n])
  }

  ghost predicate Ok<T>(s: Shape<T>) {
    && PathsOk(s.path)
    && s.kids.Keys == s.path.Keys
    && forall n {:trigger KidsOk(s, n)} :: n in s.path ==> KidsOk(s, n)
  }

  /** The nodes of the subtree at `n`. */
  ghost function Sub<T>(path: Paths<T>, n: T): set<T> {
    set m | m in path && n in path[m]
  }

  ghost predicate IsTop<T>(path: Paths<T>, n: T) {
    n in path && |path[n]| == 1
  }

  ghost function ParentOf<T>(path: Paths<T>, n: T): Option<T>
    requires n in path
  {
    if |path[n]| < 2 then None else Some(path[n][|path[n]| - 2])
  }

  // --------------------------------------------------------------- basic facts

  lemma SelfOnPath<T>(path: Paths<T>, n: T)
    requires PathsOk(path) && n in path
    ensures |path[n]| > 0 && path[n][|path[n]| - 1] == n && n in path[n]
  {
    assert PathOk(path, n);
  }

  /** A parent's path is the child's path without its last step. */
  lemma BelowParent<T>(path: Paths<T>, n: T, k: T)
    requires PathsOk(path) && n in path && k in path
    ensures Below(path, n, k) <==> |path[k]| > 1 && path[k][|path[k]| - 2] == n
  {
    SelfOnPath(path, n);
    SelfOnPath(path, k);
    assert PathOk(path, k);
    if |path[k]| > 1 && path[k][|path[k]| - 2] == n {
      assert PrefixOk(path, k, |path[k]| - 2);
      assert path[k] == path[k][..|path[k]| - 1] + [k];
    }
  }

  /** Where `n` lies on the path to `m`, that path starts with the path to `n`. */
  lemma OnPath<T>(path: Paths<T>, n: T, m: T)
    requires PathsOk(path) && m in path && n in path[m]
    ensures n in path && |path[n]| <= |path[m]| && path[m][..|path[n]|] == path[n]
  {
    assert PathOk(path, m);
    var i :| 0 <= i < |path[m]| && path[m][i] == n;
    assert PrefixOk(path, m, i);
  }

  lemma SubTransitive<T>(path: Paths<T>, a: T, b: T, c: T)
    requires PathsOk(path) && b in path && c in path && a in path[b] && b in path[c]
    ensures a in path[c]
  {
    OnPath(path, b, c);
    var i :| 0 <= i < |path[b]| && path[b][i] == a;
    assert path[c][i] == a;
  }

  /** A top is only on the paths that start with it. */
  lemma TopIsFirst<T>(path: Paths<T>, c: T, m: T)
    requires PathsOk(path) && IsTop(path, c) && m in path
    ensures c in path[m] <==> |path[m]| > 0 && path[m][0] == c
  {
    if c in path[m] {
      OnPath(path, c, m);
      assert PathOk(path, c);
    }
  }

  /** Trees with different tops share no node. */
  lemma TopsDisjoint<T>(path: Paths<T>, a: T, b: T)
    requires PathsOk(path) && IsTop(path, a) && IsTop(path, b) && a != b
    ensures Sub(path, a) !! Sub(path, b)
  {
    forall m | m in path ensures !(a in path[m] && b in path[m]) {
      TopIsFirst(path, a, m);
      TopIsFirst(path, b, m);
    }
  }

  lemma KidBelow<T>(s: Shape<T>, n: T, k: T)
    requires Ok(s) && n in s.path && k in s.kids[n]
    ensures k in s.path && n in s.path[k] && k !in s.path[n]
  {
    var path := s.path;
    assert KidsOk(s, n) && Below(path, n, k) && PathOk(path, n);
    assert path[k][|path[n]| - 1] == n;
    if k in path[n] {
      OnPath(path, k, n);
    }
  }

  /** The subtree of a child is a smaller part of the subtree of its parent. */
  lemma KidInSub<T>(s: Shape<T>, n: T, k: T)
    requires Ok(s) && n in s.path && k in s.kids[n]
    ensures k in s.path
    ensures Sub(s.path, k) <= Sub(s.path, n) && n !in Sub(s.path, k) && n in Sub(s.path, n)
    ensures |Sub(s.path, k)| < |Sub(s.path, n)|
  {
    KidBelow(s, n, k);
    SelfOnPath(s.path, n);
    forall m | m in Sub(s.path, k) ensures m in Sub(s.path, n) {
      SubTransitive(s.path, n, k, m);
    }
    assert n in Sub(s.path, n) && n !in Sub(s.path, k);
    SubsetCardinality(Sub(s.path, k), Sub(s.path, n));
  }

  lemma SubsetCardinality<T>(a: set<T>, b: set<T>)
    requires a < b
    ensures |a| < |b|
  {
    assert b == a + (b - a);
    assert b - a != {};
  }

  // ------------------------------------------------------- counting a subtree

  /** The nodes below the first `i` children of `n`. */
  ghost function FirstSubs<T>(s: Shape<T>, n: T, i: nat): set<T>
    requires n in s.kids && i <= |s.kids[n]|
  {
    set m | m in s.path && exists j :: 0 <= j < i && s.kids[n][j] in s.path[m]
  }

  lemma SameKid<T>(s: Shape<T>, n: T, a: T, b: T, m: T)
    requires Ok(s) && n in s.path && a in s.kids[n] && b in s.kids[n]
    requires m in s.path && a in s.path[m] && b in s.path[m]
    ensures a == b
  {
    var path := s.path;
    assert KidsOk(s, n) && Below(path, n, a) && Below(path, n, b);
    OnPath(path, a, m);
    OnPath(path, b, m);
    SelfOnPath(path, a);
    SelfOnPath(path, b);
  }

  lemma FirstSubsStep<T>(s: Shape<T>, n: T, i: nat)
    requires Ok(s) && n in s.path && i < |s.kids[n]|
    ensures FirstSubs(s, n, i + 1) == FirstSubs(s, n, i) + Sub(s.path, s.kids[n][i])
    ensures FirstSubs(s, n, i) !! Sub(s.path, s.kids[n][i])
    ensures |FirstSubs(s, n, i + 1)| == |FirstSubs(s, n, i)| + |Sub(s.path, s.kids[n][i])|
  {
    var k := s.kids[n][i];
    assert KidsOk(s, n);
    forall m | m in FirstSubs(s, n, i) ensures m !in Sub(s.path, k) {
      var j :| 0 <= j < i && s.kids[n][j] in s.path[m];
      if k in s.path[m] {
        SameKid(s, n, s.kids[n][j], k, m);
      }
    }
    forall m | m in FirstSubs(s, n, i + 1) ensures m in FirstSubs(s, n, i) || m in Sub(s.path, k) {
      var j :| 0 <= j < i + 1 && s.kids[n][j] in s.path[m];
    }
    assert FirstSubs(s, n, i + 1) == FirstSubs(s, n, i) + Sub(s.path, k);
  }

  /** A subtree is its node together with the subtrees of the children. */
  lemma SubSplit<T>(s: Shape<T>, n: T)
    requires Ok(s) && n in s.path
    ensures Sub(s.path, n) == {n} + FirstSubs(s, n, |s.kids[n]|)
    ensures n !in FirstSubs(s, n, |s.kids[n]|)
    ensures |Sub(s.path, n)| == 1 + |FirstSubs(s, n, |s.kids[n]|)|
  {
    var path := s.path;
    assert PathOk(path, n) && KidsOk(s, n);
    forall m | m in Sub(path, n) && m != n ensures m in FirstSubs(s, n, |s.kids[n]|) {
      OnPath(path, n, m);
      assert PathOk(path, m);
      var d := |path[n]|;
      assert d < |path[m]|;
      var k := path[m][d];
      assert PrefixOk(path, m, d);
      assert path[k] == path[m][..d + 1] == path[n] + [k];
      assert Below(path, n, k);
      var j :| 0 <= j < |s.kids[n]| && s.kids[n][j] == k;
    }
    forall m | m in FirstSubs(s, n, |s.kids[n]|) ensures m in Sub(path, n) && m != n {
      var j :| 0 <= j < |s.kids[n]| && s.kids[n][j] in path[m];
      KidInSub(s, n, s.kids[n][j]);
    }
    assert Sub(path, n) == {n} + FirstSubs(s, n, |s.kids[n]|);
  }

  // ------------------------------------------------------ hanging a tree below

  function InsertAt<T>(ks: seq<T>, pos: nat, k: T): seq<T>
    requires pos <= |ks|
  {
    ks[..pos] + [k] + ks[pos..]
  }

  /** The paths once the tree with top `c` hangs below `p`. */
  ghost function AttachPath<T>(path: Paths<T>, p: T, c: T): Paths<T>
    requires p in path
  {
    map m | m in path :: if c in path[m] then path[p] + path[m] else path[m]
  }

  ghost function Attach<T>(s: Shape<T>, p: T, c: T, pos: nat): Shape<T>
    requires p in s.path && p in s.kids && pos <= |s.kids[p]|
  {
    Shape(AttachPath(s.path, p, c), s.kids[p := InsertAt(s.kids[p], pos, c)])
  }

  lemma AttachPathMoved<T>(path: Paths<T>, p: T, c: T, m: T)
    requires PathsOk(path) && IsTop(path, c) && p in path && c !in path[p]
    requires m in path && c in path[m]
    ensures PathOk(AttachPath(path, p, c), m)
  {
    var path' := AttachPath(path, p, c);
    assert PathOk(path, m) && PathOk(path, p);
    var d := |path[p]|;
    TopIsFirst(path, c, m);
    forall i | 0 <= i < |path'[m]| ensures PrefixOk(path', m, i) {
      var x := path'[m][i];
      if i < d {
        assert PrefixOk(path, p, i);
        assert x == path[p][i] && path[x] == path[p][..i + 1];
        assert c !in path[x];
      } else {
        assert PrefixOk(path, m, i - d);
        assert x == path[m][i - d] && path[x] == path[m][..i - d + 1];
        assert path[x][0] == c;
      }
    }
  }

  lemma AttachPathStayed<T>(path: Paths<T>, p: T, c: T, m: T)
    requires PathsOk(path) && p in path && m in path && c !in path[m]
    ensures PathOk(AttachPath(path, p, c), m)
  {
    var path' := AttachPath(path, p, c);
    assert PathOk(path, m);
    forall i | 0 <= i < |path'[m]| ensures PrefixOk(path', m, i) {
      assert PrefixOk(path, m, i);
      assert c !in path[path[m][i]];
    }
  }

  lemma AttachPathsOk<T>(path: Paths<T>, p: T, c: T)
    requires PathsOk(path) && IsTop(path, c) && p in path && c !in path[p]
    ensures PathsOk(AttachPath(path, p, c))
  {
    forall m | m in path ensures PathOk(AttachPath(path, p, c), m) {
      if c in path[m] {
        AttachPathMoved(path, p, c, m);
      } else {
        AttachPathStayed(path, p, c, m);
      }
    }
  }

  /** The only new parent link is the one from `c` to `p`. */
  lemma AttachBelow<T>(path: Paths<T>, p: T, c: T, n: T, k: T)
    requires PathsOk(path) && IsTop(path, c) && p in path && c !in path[p]
    requires n in path && k in path
    ensures Below(AttachPath(path, p, c), n, k) <==> Below(path, n, k) || (n == p && k == c)
  {
    var path' := AttachPath(path, p, c);
    AttachPathsOk(path, p, c);
    BelowParent(path', n, k);
    BelowParent(path, n, k);
    SelfOnPath(path, p);
    SelfOnPath(path, k);
    TopIsFirst(path, c, k);
    if k != c && c in path[k] {
      assert |path[k]| > 1;
      assert path'[k][|path'[k]| - 2] == path[k][|path[k]| - 2];
    }
  }

  lemma InsertAtMembers<T>(ks: seq<T>, pos: nat, c: T)
    requires Distinct(ks) && pos <= |ks| && c !in ks
    ensures Distinct(InsertAt(ks, pos, c))
    ensures forall k :: k in InsertAt(ks, pos, c) <==> k in ks || k == c
  {
  }

  /** Afterwards a node is still listed exactly where it hangs. */
  lemma AttachListed<T>(s: Shape<T>, p: T, c: T, pos: nat, n: T, k: T)
    requires Ok(s) && IsTop(s.path, c) && p in s.path && c !in s.path[p] && pos <= |s.kids[p]|
    requires n in s.path && k in s.path
    ensures Below(Attach(s, p, c, pos).path, n, k) <==> k in Attach(s, p, c, pos).kids[n]
  {
    assert KidsOk(s, n);
    AttachBelow(s.path, p, c, n, k);
    assert Below(s.path, n, k) <==> k in s.kids[n];
  }

  lemma AttachKidsOk<T>(s: Shape<T>, p: T, c: T, pos: nat, n: T)
    requires Ok(s) && IsTop(s.path, c) && p in s.path && c !in s.path[p] && pos <= |s.kids[p]| && n in s.path
    ensures KidsOk(Attach(s, p, c, pos), n)
  {
    var s' := Attach(s, p, c, pos);
    assert KidsOk(s, n) && KidsOk(s, p);
    assert !Below(s.path, p, c) by { SelfOnPath(s.path, p); }
    InsertAtMembers(s.kids[p], pos, c);
    forall k | k in s.path ensures Below(s'.path, n, k) <==> k in s'.kids[n] {
      AttachListed(s, p, c, pos, n, k);
    }
    forall k | k in s'.kids[n] ensures k in s.path {
      assert k in s.kids[n] ==> Below(s.path, n, k);
    }
  }

  /** Hanging a tree below a node outside it keeps the forest. */
  lemma AttachOk<T>(s: Shape<T>, p: T, c: T, pos: nat)
    requires Ok(s) && IsTop(s.path, c) && p in s.path && c !in s.path[p] && pos <= |s.kids[p]|
    ensures Ok(Attach(s, p, c, pos))
  {
    AttachPathsOk(s.path, p, c);
    forall n | n in s.path ensures KidsOk(Attach(s, p, c, pos), n) {
      AttachKidsOk(s, p, c, pos, n);
    }
  }

  /** The attached tree itself stays whole. */
  lemma AttachOwnSub<T>(path: Paths<T>, p: T, c: T)
    requires p in path && c !in path[p]
    ensures Sub(AttachPath(path, p, c), c) == Sub(path, c)
  {
  }

  /** A tree grows by the attached tree exactly when it holds the new parent. */
  lemma AttachSub<T>(path: Paths<T>, p: T, c: T, r: T)
    requires PathsOk(path) && IsTop(path, c) && p in path && c !in path[p]
    requires IsTop(path, r) && r != c
    ensures IsTop(AttachPath(path, p, c), r)
    ensures Sub(AttachPath(path, p, c), r) == Sub(path, r) + if r in path[p] then Sub(path, c) else {}
    ensures Sub(path, r) !! Sub(path, c)
  {
    TopsDisjoint(path, r, c);
    SelfOnPath(path, r);
    TopIsFirst(path, c, r);
    var path' := AttachPath(path, p, c);
    forall m | m in path ensures m in Sub(path', r) <==> m in Sub(path, r) || (r in path[p] && c in path[m]) {
      assert c in path[m] ==> m in Sub(path, c) && m !in Sub(path, r);
    }
  }

  /** Some measure falls from every node to its children: a recursion over the children ends. */
  ghost predicate Falls<T>(kids: map<T, seq<T>>, size: T -> nat) {
    forall n, k :: n in kids && k in kids[n] ==> size(k) < size(n)
  }

  lemma {:induction false} FallsAlongPath<T>(s: Shape<T>, kids: map<T, seq<T>>, size: T -> nat, c: T, p: T)
    requires Ok(s) && p in s.path && c in s.path[p] && Falls(kids, size)
    requires forall n, k :: n in s.kids && k in s.kids[n] ==> n in kids && k in kids[n]
    ensures size(p) <= size(c)
    decreases |s.path[p]|
  {
    var way := s.path[p];
    assert PathOk(s.path, p);
    if p != c {
      assert |way| > 1;
      var q := way[|way| - 2];
      assert PrefixOk(s.path, p, |way| - 2);
      BelowParent(s.path, q, p);
      assert KidsOk(s, q) && Below(s.path, q, p);
      FallsAlongPath(s, kids, size, c, q);
    }
  }

  /** Counting the nodes below `c` once it is hung below `p` ends exactly if `c` was not above `p`. */
  lemma RecursionEndsIff<T>(s: Shape<T>, p: T, c: T, pos: nat)
    requires Ok(s) && IsTop(s.path, c) && p in s.path && pos <= |s.kids[p]|
    ensures (exists size :: Falls(Attach(s, p, c, pos).kids, size)) <==> c !in s.path[p]
  {
    var after := Attach(s, p, c, pos);
    if c !in s.path[p] {
      AttachOk(s, p, c, pos);
      var size: T -> nat := n => |Sub(after.path, n)|;
      forall n, k | n in after.kids && k in after.kids[n] ensures size(k) < size(n) {
        KidInSub(after, n, k);
      }
      assert Falls(after.kids, size);
    } else {
      forall size ensures !Falls(after.kids, size) {
        if Falls(after.kids, size) {
          assert InsertAt(s.kids[p], pos, c)[pos] == c;
          assert c in after.kids[p];
          FallsAlongPath(s, after.kids, size, c, p);
        }
      }
    }
  }

  // ------------------------------------------------------- cutting a tree loose

  /** The paths once `n` has been cut from its parent: its subtree forgets everything above `n`. */
  ghost function DetachPath<T>(path: Paths<T>, n: T): Paths<T>
    requires n in path && |path[n]| > 0
  {
    map m | m in path :: if n in path[m] && |path[n]| <= |path[m]| then path[m][|path[n]| - 1..] else path[m]
  }

  function RemoveAt<T>(ks: seq<T>, pos: nat): seq<T>
    requires pos < |ks|
  {
    ks[..pos] + ks[pos + 1..]
  }

  ghost function Detach<T>(s: Shape<T>, p: T, pos: nat): Shape<T>
    requires p in s.kids && pos < |s.kids[p]| && s.kids[p][pos] in s.path && |s.path[s.kids[p][pos]]| > 0
  {
    Shape(DetachPath(s.path, s.kids[p][pos]), s.kids[p := RemoveAt(s.kids[p], pos)])
  }

  /** The node found at index `i` above the cut end keeps the same way from `n` down. */
  lemma DetachPrefix<T>(path: Paths<T>, n: T, m: T, i: nat)
    requires PathsOk(path) && n in path && |path[n]| > 0 && m in path && n in path[m]
    requires |path[n]| <= |path[m]| && path[m][..|path[n]|] == path[n] && |path[n]| - 1 <= i < |path[m]|
    ensures var x, d := path[m][i], |path[n]| - 1;
            x in path && DetachPath(path, n)[x] == path[m][d..i + 1]
  {
    assert PathOk(path, m) && PathOk(path, n) && PrefixOk(path, m, i);
    var x, d := path[m][i], |path[n]| - 1;
    assert path[x][d] == path[n][d] == n;
  }

  lemma DetachPathMoved<T>(path: Paths<T>, n: T, m: T)
    requires PathsOk(path) && n in path && |path[n]| > 0 && m in path && n in path[m]
    ensures PathOk(DetachPath(path, n), m)
  {
    var path' := DetachPath(path, n);
    var d := |path[n]| - 1;
    OnPath(path, n, m);
    SelfOnPath(path, m);
    forall i | 0 <= i < |path'[m]| ensures PrefixOk(path', m, i) {
      DetachPrefix(path, n, m, i + d);
      assert path'[m][..i + 1] == path[m][d..i + d + 1];
    }
  }

  lemma DetachPathStayed<T>(path: Paths<T>, n: T, m: T)
    requires PathsOk(path) && n in path && |path[n]| > 0 && m in path && n !in path[m]
    ensures PathOk(DetachPath(path, n), m)
  {
    var path' := DetachPath(path, n);
    assert PathOk(path, m);
    forall i | 0 <= i < |path'[m]| ensures PrefixOk(path', m, i) {
      assert PrefixOk(path, m, i);
      assert n !in path[m][..i + 1];
    }
  }

  lemma DetachPathsOk<T>(path: Paths<T>, n: T)
    requires PathsOk(path) && n in path && |path[n]| > 0
    ensures PathsOk(DetachPath(path, n))
  {
    forall m | m in path ensures PathOk(DetachPath(path, n), m) {
      if n in path[m] {
        DetachPathMoved(path, n, m);
      } else {
        DetachPathStayed(path, n, m);
      }
    }
  }

  /** Only the link above `n` is gone. */
  lemma DetachBelow<T>(path: Paths<T>, n: T, a: T, k: T)
    requires PathsOk(path) && n in path && |path[n]| > 0 && a in path && k in path
    ensures Below(DetachPath(path, n), a, k) <==> Below(path, a, k) && k != n
  {
    var path' := DetachPath(path, n);
    DetachPathsOk(path, n);
    BelowParent(path', a, k);
    BelowParent(path, a, k);
    SelfOnPath(path, k);
    SelfOnPath(path, n);
    if n in path[k] {
      OnPath(path, n, k);
    }
  }

  lemma RemoveAtMembers<T>(ks: seq<T>, pos: nat)
    requires Distinct(ks) && pos < |ks|
    ensures Distinct(RemoveAt(ks, pos))
    ensures forall k :: k in RemoveAt(ks, pos) <==> k in ks && k != ks[pos]
  {
  }

  /** Afterwards a node is still listed exactly where it hangs. */
  lemma DetachListed<T>(s: Shape<T>, p: T, pos: nat, a: T, k: T)
    requires Ok(s) && p in s.path && pos < |s.kids[p]| && s.kids[p][pos] in s.path && |s.path[s.kids[p][pos]]| > 0
    requires a in s.path && k in s.path
    ensures Below(Detach(s, p, pos).path, a, k) <==> k in Detach(s, p, pos).kids[a]
  {
    var n := s.kids[p][pos];
    assert KidsOk(s, a) && KidsOk(s, p);
    RemoveAtMembers(s.kids[p], pos);
    DetachBelow(s.path, n, a, k);
    assert Below(s.path, a, k) <==> k in s.kids[a];
    if a != p && k == n {
      BelowParent(s.path, a, n);
      BelowParent(s.path, p, n);
    }
  }

  lemma DetachKidsOk<T>(s: Shape<T>, p: T, pos: nat, a: T)
    requires Ok(s) && p in s.path && pos < |s.kids[p]| && s.kids[p][pos] in s.path && |s.path[s.kids[p][pos]]| > 0
    requires a in s.path
    ensures KidsOk(Detach(s, p, pos), a)
  {
    var s' := Detach(s, p, pos);
    assert KidsOk(s, a) && KidsOk(s, p);
    RemoveAtMembers(s.kids[p], pos);
    forall k | k in s.path ensures Below(s'.path, a, k) <==> k in s'.kids[a] {
      DetachListed(s, p, pos, a, k);
    }
    forall k | k in s'.kids[a] ensures k in s.path {
      assert k in s.kids[a] ==> Below(s.path, a, k);
    }
  }

  /** Cutting a node from its parent keeps the forest and makes the node a top. */
  lemma DetachOk<T>(s: Shape<T>, p: T, pos: nat)
    requires Ok(s) && p in s.path && pos < |s.kids[p]|
    ensures s.kids[p][pos] in s.path && |s.path[s.kids[p][pos]]| > 0
    ensures Ok(Detach(s, p, pos)) && IsTop(Detach(s, p, pos).path, s.kids[p][pos])
  {
    var n := s.kids[p][pos];
    assert KidsOk(s, p) && Below(s.path, p, n);
    SelfOnPath(s.path, n);
    DetachPathsOk(s.path, n);
    forall a | a in s.path ensures KidsOk(Detach(s, p, pos), a) {
      DetachKidsOk(s, p, pos, a);
    }
  }

  /** A tree shrinks by the cut subtree exactly when it held it. */
  lemma DetachSub<T>(path: Paths<T>, n: T, r: T)
    requires PathsOk(path) && n in path && |path[n]| > 1 && IsTop(path, r)
    ensures IsTop(DetachPath(path, n), r)
    ensures Sub(DetachPath(path, n), r) == Sub(path, r) - if r in path[n] then Sub(path, n) else {}
    ensures Sub(DetachPath(path, n), n) == Sub(path, n)
    ensures r in path[n] ==> Sub(path, n) <= Sub(path, r)
    ensures r !in path[n] ==> Sub(path, n) !! Sub(path, r)
  {
    var path' := DetachPath(path, n);
    SelfOnPath(path, n);
    SelfOnPath(path, r);
    assert n !in path[r] by {
      if n in path[r] { OnPath(path, n, r); }
    }
    TopIsFirst(path, r, n);
    forall m | m in path
      ensures m in Sub(path', r) <==> m in Sub(path, r) && n !in path[m]
      ensures n in path[m] ==> (m in Sub(path, r) <==> r in path[n])
      ensures n in path'[m] <==> n in path[m]
    {
      TopIsFirst(path, r, m);
      if n in path[m] {
        OnPath(path, n, m);
        assert path[m][0] == path[n][0];
        assert path'[m][0] == n;
        DetachPathsOk(path, n);
        TopIsFirst(path', r, m);
      }
    }
  }

  lemma DetachUndoesAttachPath<T>(path: Paths<T>, p: T, c: T)
    requires PathsOk(path) && IsTop(path, c) && p in path && c !in path[p]
    ensures |AttachPath(path, p, c)[c]| > 0 && DetachPath(AttachPath(path, p, c), c) == path
  {
    var path' := AttachPath(path, p, c);
    SelfOnPath(path, c);
    assert |path'[c]| == |path[p]| + 1;
    forall m | m in path ensures DetachPath(path', c)[m] == path[m] {
      TopIsFirst(path, c, m);
      if c in path[m] {
        assert path'[m][|path[p]|..] == path[m];
        assert path'[m][|path[p]|] == c;
      } else {
        assert path'[m] == path[m];
      }
    }
  }

  lemma RemoveUndoesInsert<T>(ks: seq<T>, pos: nat, k: T)
    requires pos <= |ks|
    ensures InsertAt(ks, pos, k)[pos] == k && RemoveAt(InsertAt(ks, pos, k), pos) == ks
  {
  }

  lemma MapRestore<K, V>(m: map<K, V>, k: K, v: V)
    requires k in m
    ensures m[k := v][k := m[k]] == m
  {
  }

  /** Cutting loose what has just been attached restores the forest. */
  lemma DetachUndoesAttach<T>(s: Shape<T>, p: T, c: T, pos: nat)
    requires PathsOk(s.path) && IsTop(s.path, c) && p in s.path && c !in s.path[p]
    requires p in s.kids && pos <= |s.kids[p]|
    ensures var s' := Attach(s, p, c, pos);
            && pos < |s'.kids[p]| && s'.kids[p][pos] == c && |s'.path[c]| > 0
            && Detach(s', p, pos) == s
  {
    var inserted := InsertAt(s.kids[p], pos, c);
    DetachUndoesAttachPath(s.path, p, c);
    RemoveUndoesInsert(s.kids[p], pos, c);
    MapRestore(s.kids, p, inserted);
    assert Attach(s, p, c, pos).kids[p] == inserted;
  }

  lemma DetachOwnSub<T>(path: Paths<T>, n: T)
    requires PathsOk(path) && n in path && |path[n]| > 0
    ensures Sub(DetachPath(path, n), n) == Sub(path, n)
  {
    var path' := DetachPath(path, n);
    SelfOnPath(path, n);
    forall m | m in path ensures n in path'[m] <==> n in path[m] {
      if n in path[m] {
        OnPath(path, n, m);
        assert path'[m][0] == n;
      }
    }
  }

  // ------------------------------------------------------------ releasing a tree

  /** The forest without the tree whose top is `r`. */
  ghost function Drop<T>(s: Shape<T>, r: T): Shape<T>
    requires s.kids.Keys == s.path.Keys
  {
    Shape(map m | m in s.path && r !in s.path[m] :: s.path[m],
          map m | m in s.path && r !in s.path[m] :: s.kids[m])
  }

  lemma DropOk<T>(s: Shape<T>, r: T)
    requires Ok(s) && IsTop(s.path, r)
    ensures Ok(Drop(s, r))
    ensures forall q :: IsTop(s.path, q) && q != r ==>
              IsTop(Drop(s, r).path, q) && Sub(Drop(s, r).path, q) == Sub(s.path, q)
  {
    var s' := Drop(s, r);
    forall m | m in s'.path ensures PathOk(s'.path, m) {
      assert PathOk(s.path, m);
      forall i | 0 <= i < |s'.path[m]| ensures PrefixOk(s'.path, m, i) {
        assert PrefixOk(s.path, m, i);
        assert r !in s.path[m][..i + 1];
      }
    }
    forall n | n in s'.path ensures KidsOk(s', n) {
      assert KidsOk(s, n);
      forall k | k in s.path ensures Below(s.path, n, k) ==> k in s'.path {
        if Below(s.path, n, k) && r in s.path[k] {
          SelfOnPath(s.path, k);
          SelfOnPath(s.path, n);
        }
      }
      forall k | k in s'.kids[n] ensures Below(s'.path, n, k) {
        assert Below(s.path, n, k);
      }
      forall k | k in s'.path && Below(s'.path, n, k) ensures k in s'.kids[n] {
        assert Below(s.path, n, k);
      }
    }
    forall q | IsTop(s.path, q) && q != r
      ensures IsTop(s'.path, q) && Sub(s'.path, q) == Sub(s.path, q)
    {
      SelfOnPath(s.path, q);
      TopIsFirst(s.path, r, q);
      TopsDisjoint(s.path, q, r);
      forall m | m in Sub(s.path, q) ensures m in Sub(s'.path, q) {
        assert m !in Sub(s.path, r);
      }
    }
  }

  // ----------------------------------------------------------------- a new node

  ghost function Add<T>(s: Shape<T>, n: T): Shape<T> {
    Shape(s.path[n := [n]], s.kids[n := []])
  }

  lemma AddOk<T>(s: Shape<T>, n: T)
    requires Ok(s) && n !in s.path
    ensures Ok(Add(s, n)) && IsTop(Add(s, n).path, n)
    ensures forall q :: IsTop(s.path, q) ==> IsTop(Add(s, n).path, q) && Sub(Add(s, n).path, q) == Sub(s.path, q)
  {
    var s' := Add(s, n);
    forall m | m in s'.path ensures PathOk(s'.path, m) {
      assert m in s.path ==> PathOk(s.path, m);
      forall i | 0 <= i < |s'.path[m]| ensures PrefixOk(s'.path, m, i) {
        assert m in s.path ==> PrefixOk(s.path, m, i);
      }
    }
    forall m | m in s.path ensures n !in s.path[m] {
      if n in s.path[m] {
        OnPath(s.path, n, m);
      }
    }
    forall m | m in s'.path ensures KidsOk(s', m) {
      assert m in s.path ==> KidsOk(s, m);
      forall k | k in s'.path ensures Below(s'.path, m, k) <==> k in s.path && m in s.path && Below(s.path, m, k) {
        BelowParent(s'.path, m, k);
        if k in s.path && m in s.path {
          BelowParent(s.path, m, k);
        } else if k in s.path {
          assert m == n;
        }
      }
      forall k | k in s'.kids[m] ensures k in s.path {
        assert Below(s.path, m, k);
      }
      forall k | k in s.path && m in s.path ensures Below(s.path, m, k) <==> k in s.kids[m] {
      }
    }
  }

  // ------------------------------------------------------------ depth-first order

  /** Parent first, then the children's subtrees in stored order. */
  ghost function Preorder<T>(s: Shape<T>, n: T): seq<T>
    requires Ok(s) && n in s.path
    decreases |Sub(s.path, n)|, |s.kids[n]| + 1
  {
    [n] + PreorderFrom(s, n, 0)
  }

  ghost function PreorderFrom<T>(s: Shape<T>, n: T, i: nat): seq<T>
    requires Ok(s) && n in s.path && i <= |s.kids[n]|
    decreases |Sub(s.path, n)|, |s.kids[n]| - i
  {
    if i == |s.kids[n]| then []
    else
      KidInSub(s, n, s.kids[n][i]);
      Preorder(s, s.kids[n][i]) + PreorderFrom(s, n, i + 1)
  }

  /** Children's subtrees in stored order, then the parent. */
  ghost function Postorder<T>(s: Shape<T>, n: T): seq<T>
    requires Ok(s) && n in s.path
    decreases |Sub(s.path, n)|, |s.kids[n]| + 1
  {
    PostorderTo(s, n, |s.kids[n]|) + [n]
  }

  ghost function PostorderTo<T>(s: Shape<T>, n: T, i: nat): seq<T>
    requires Ok(s) && n in s.path && i <= |s.kids[n]|
    decreases |Sub(s.path, n)|, i
  {
    if i == 0 then []
    else
      KidInSub(s, n, s.kids[n][i - 1]);
      PostorderTo(s, n, i - 1) + Postorder(s, s.kids[n][i - 1])
  }

  lemma PostorderStep<T>(s: Shape<T>, n: T, i: nat, before: seq<T>)
    requires Ok(s) && n in s.path && i < |s.kids[n]|
    ensures s.kids[n][i] in s.path
    ensures before + PostorderTo(s, n, i) + Postorder(s, s.kids[n][i]) == before + PostorderTo(s, n, i + 1)
  {
    KidBelow(s, n, s.kids[n][i]);
  }

  lemma DisjointMultiset<T>(a: set<T>, b: set<T>)
    requires a !! b
    ensures multiset(a + b) == multiset(a) + multiset(b)
  {
  }

  lemma FirstSubsMultiset<T>(s: Shape<T>, n: T, i: nat)
    requires Ok(s) && n in s.path && i < |s.kids[n]|
    ensures multiset(FirstSubs(s, n, i + 1)) == multiset(FirstSubs(s, n, i)) + multiset(Sub(s.path, s.kids[n][i]))
  {
    FirstSubsStep(s, n, i);
    DisjointMultiset(FirstSubs(s, n, i), Sub(s.path, s.kids[n][i]));
  }

  /** A preorder walk visits exactly the nodes of the subtree, each once. */
  lemma {:induction false} PreorderVisitsAll<T>(s: Shape<T>, n: T)
    requires Ok(s) && n in s.path
    ensures multiset(Preorder(s, n)) == multiset(Sub(s.path, n))
    decreases |Sub(s.path, n)|, |s.kids[n]| + 1
  {
    PreorderFromVisits(s, n, 0);
    SubSplit(s, n);
    assert FirstSubs(s, n, 0) == {};
    assert multiset(PreorderFrom(s, n, 0)) == multiset(FirstSubs(s, n, |s.kids[n]|));
    assert multiset([n] + PreorderFrom(s, n, 0)) == multiset{n} + multiset(PreorderFrom(s, n, 0));
  }

  lemma {:induction false} PreorderFromVisits<T>(s: Shape<T>, n: T, i: nat)
    requires Ok(s) && n in s.path && i <= |s.kids[n]|
    ensures multiset(PreorderFrom(s, n, i)) + multiset(FirstSubs(s, n, i)) == multiset(FirstSubs(s, n, |s.kids[n]|))
    decreases |Sub(s.path, n)|, |s.kids[n]| - i
  {
    if i < |s.kids[n]| {
      var k := s.kids[n][i];
      KidInSub(s, n, k);
      PreorderVisitsAll(s, k);
      PreorderFromVisits(s, n, i + 1);
      FirstSubsMultiset(s, n, i);
      PreorderMultiset(s, n, i);
    }
  }

  lemma PreorderMultiset<T>(s: Shape<T>, n: T, i: nat)
    requires Ok(s) && n in s.path && i < |s.kids[n]| && s.kids[n][i] in s.path
    ensures multiset(PreorderFrom(s, n, i)) ==
            multiset(Preorder(s, s.kids[n][i])) + multiset(PreorderFrom(s, n, i + 1))
  {
    assert PreorderFrom(s, n, i) == Preorder(s, s.kids[n][i]) + PreorderFrom(s, n, i + 1);
  }

  /** A sequence holds nothing twice exactly if its multiset counts nothing above one. */
  lemma {:induction false} DistinctIsCounted<T>(s: seq<T>)
    ensures Distinct(s) <==> forall x :: multiset(s)[x] <= 1
  {
    if s != [] {
      var n := |s| - 1;
      DistinctIsCounted(s[..n]);
      assert s == s[..n] + [s[n]];
      if Distinct(s) {
        assert s[n] !in s[..n];
        assert s[n] !in multiset(s[..n]);
      } else if Distinct(s[..n]) {
        var i :| 0 <= i < n && s[i] == s[n];
        assert s[..n][i] == s[n];
        assert multiset(s)[s[n]] == multiset(s[..n])[s[n]] + 1 > 1;
      } else {
        var x :| multiset(s[..n])[x] > 1;
        assert multiset(s)[x] > 1;
      }
    }
  }

  /** Releasing a set of nodes none of which was released before releases nothing twice. */
  lemma ReleasedOnce<T>(freed: seq<T>, nodes: set<T>, freed': seq<T>)
    requires Distinct(freed) && (forall x :: x in freed ==> x !in nodes)
    requires multiset(freed') == multiset(freed) + multiset(nodes)
    ensures Distinct(freed') && (forall x :: x in freed' <==> x in freed || x in nodes)
  {
    DistinctIsCounted(freed);
    forall x ensures multiset(freed')[x] <= 1 {
      assert x in multiset(freed) <==> x in freed;
    }
    DistinctIsCounted(freed');
    forall x ensures x in freed' <==> x in freed || x in nodes {
      assert x in freed' <==> x in multiset(freed');
    }
  }

  lemma DropReleasesOnce<T>(s: Shape<T>, r: T, freed: seq<T>)
    requires Ok(s) && r in s.path && Distinct(freed) && (forall x :: x in freed ==> x !in s.path)
    ensures Distinct(freed + Postorder(s, r))
    ensures forall x :: x in freed + Postorder(s, r) ==> x !in Drop(s, r).path
  {
    PostorderVisitsAll(s, r);
    assert multiset(freed + Postorder(s, r)) == multiset(freed) + multiset(Sub(s.path, r));
    ReleasedOnce(freed, Sub(s.path, r), freed + Postorder(s, r));
  }

  /** A postorder walk, too, meets exactly the nodes of the subtree, each once. */
  lemma {:induction false} PostorderVisitsAll<T>(s: Shape<T>, n: T)
    requires Ok(s) && n in s.path
    ensures multiset(Postorder(s, n)) == multiset(Sub(s.path, n))
    decreases |Sub(s.path, n)|, |s.kids[n]| + 1
  {
    PostorderToVisits(s, n, |s.kids[n]|);
    SubSplit(s, n);
  }

  lemma {:induction false} PostorderToVisits<T>(s: Shape<T>, n: T, i: nat)
    requires Ok(s) && n in s.path && i <= |s.kids[n]|
    ensures multiset(PostorderTo(s, n, i)) == multiset(FirstSubs(s, n, i))
    decreases |Sub(s.path, n)|, i
  {
    if i == 0 {
      assert FirstSubs(s, n, 0) == {};
    } else {
      var k := s.kids[n][i - 1];
      KidInSub(s, n, k);
      PostorderVisitsAll(s, k);
      PostorderToVisits(s, n, i - 1);
      PostorderMultiset(s, n, i - 1);
      FirstSubsMultiset(s, n, i - 1);
    }
  }

  lemma PostorderMultiset<T>(s: Shape<T>, n: T, i: nat)
    requires Ok(s) && n in s.path && i < |s.kids[n]| && s.kids[n][i] in s.path
    ensures multiset(PostorderTo(s, n, i + 1)) == multiset(PostorderTo(s, n, i)) + multiset(Postorder(s, s.kids[n][i]))
  {
    assert PostorderTo(s, n, i + 1) == PostorderTo(s, n, i) + Postorder(s, s.kids[n][i]);
  }
}
