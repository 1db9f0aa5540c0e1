/**
 The n-ary tree container (src/core/NTree.c): nodes linked through child arrays and parent
 pointers, children kept in name order, and a cached count of the nodes in the tree.
 */
module NTree {
  import opened Prelude
  import opened Strings
  import opened Forest

  class Node {
    const name: Option<string>
    var nchild: nat
    var child: array<Node?>
    var parent: Node?

    constructor (name: Option<string>)
      ensures this.name == name && nchild == 0 && parent == null && fresh(child)
    {
      this.name := name;
      nchild := 0;
      child := new Node?[0];
      parent := null;
    }
  }

  // -------------------------------------------------------- the order of children

  /** The named children are strictly ascending; unnamed ones may stand anywhere. */
  ghost predicate Ascending(ks: seq<Node>) {
    forall i, j :: 0 <= i < j < |ks| && ks[i].name.Some? && ks[j].name.Some? ==>
      StrCmp(ks[i].name.value, ks[j].name.value) < 0
  }

  ghost predicate NameTaken(ks: seq<Node>, name: Option<string>) {
    name.Some? && exists i :: 0 <= i < |ks| && ks[i].name == name
  }

  /** Every named child left of `pos` is below `name`, every named child from `pos` on above it. */
  ghost predicate Splits(ks: seq<Node>, pos: nat, name: Option<string>) {
    && pos <= |ks|
    && (name.Some? ==>
          forall i :: 0 <= i < |ks| && ks[i].name.Some? ==>
            if i < pos then StrCmp(ks[i].name.value, name.value) < 0
            else StrCmp(name.value, ks[i].name.value) < 0)
  }

  /** Where __insert_pos puts a child: in front of the first named child above it, else at the end. */
  ghost predicate InsertsAt(ks: seq<Node>, pos: nat, name: Option<string>) {
    Splits(ks, pos, name) && (pos < |ks| ==> name.Some? && ks[pos].name.Some?)
  }

  lemma InsertKeepsOrder(ks: seq<Node>, pos: nat, c: Node)
    requires Ascending(ks) && Splits(ks, pos, c.name)
    ensures Ascending(InsertAt(ks, pos, c))
  {
  }

  lemma RemoveKeepsOrder(ks: seq<Node>, pos: nat)
    requires Ascending(ks) && pos < |ks|
    ensures Ascending(RemoveAt(ks, pos))
  {
  }

  /** `n` comes from `start` by doubling it any number of times. */
  ghost predicate Doubled(start: nat, n: nat) {
    n == start || (0 < n && n % 2 == 0 && Doubled(start, n / 2))
  }

  // ---------------------------------------------------------------- parent links

  /** The fields of `n` list the children `ks` and point to the parent `p`. */
  ghost predicate Holds(n: Node, ks: seq<Node>, p: Option<Node>)
    reads n, n.child
  {
    && n.nchild == |ks| <= n.child.Length
    && n.child[..n.nchild] == ks
    && n.parent == (match p case None => null case Some(q) => q)
  }

  lemma AttachParent(path: Paths<Node>, p: Node, c: Node, m: Node)
    requires PathsOk(path) && IsTop(path, c) && p in path && c !in path[p] && m in path
    ensures ParentOf(AttachPath(path, p, c), m) == if m == c then Some(p) else ParentOf(path, m)
  {
    SelfOnPath(path, p);
    SelfOnPath(path, m);
    TopIsFirst(path, c, m);
  }

  lemma DetachParent(path: Paths<Node>, n: Node, m: Node)
    requires PathsOk(path) && n in path && |path[n]| > 0 && m in path
    ensures ParentOf(DetachPath(path, n), m) == if m == n then None else ParentOf(path, m)
  {
    SelfOnPath(path, n);
    SelfOnPath(path, m);
    if n in path[m] {
      OnPath(path, n, m);
    }
  }

  // ------------------------------------------------------------- what is kept

  ghost function Arrays(nodes: set<Node>): set<array<Node?>>
    reads nodes
  {
    set n | n in nodes :: n.child
  }

  /** The fields of all nodes say what the shape says, and no two nodes share a child table. */
  ghost predicate Linked(s: Shape<Node>)
    requires s.kids.Keys == s.path.Keys
    reads s.path.Keys, Arrays(s.path.Keys)
  {
    && (forall n {:trigger Holds(n, s.kids[n], ParentOf(s.path, n))} ::
          n in s.path ==> Holds(n, s.kids[n], ParentOf(s.path, n)))
    && (forall a, b :: a in s.path && b in s.path && a != b ==> a.child != b.child)
  }

  /** The shape is a forest with ordered children, and the root is the top of one of its trees. */
  ghost predicate ShapeOk(s: Shape<Node>, root: Node?) {
    && Ok(s)
    && (forall n {:trigger Ascending(s.kids[n])} :: n in s.path ==> Ascending(s.kids[n]))
    && (root != null ==> IsTop(s.path, root))
  }

  ghost function RootedIn(path: Paths<Node>, root: Node?): set<Node> {
    if root == null then {} else var r: Node := root; Sub(path, r)
  }

  /** A floating node never has the tree's nodes below it, so it may be hung anywhere in the tree. */
  lemma RootedParentIsSafe(path: Paths<Node>, root: Node?, p: Node, c: Node)
    requires PathsOk(path) && (root != null ==> IsTop(path, root))
    requires p in RootedIn(path, root) && IsTop(path, c) && c != root
    ensures c !in path[p]
  {
    var r: Node := root;
    TopsDisjoint(path, r, c);
    assert p !in Sub(path, c);
  }

  /** Adding the size of the attached tree keeps a correct count exactly when the parent was in the tree. */
  lemma AttachCount(path: Paths<Node>, root: Node?, p: Node, c: Node)
    requires PathsOk(path) && (root != null ==> IsTop(path, root))
    requires IsTop(path, c) && p in path && c !in path[p] && c != root
    ensures |RootedIn(AttachPath(path, p, c), root)| == |RootedIn(path, root)| + |Sub(path, c)|
            <==> p in RootedIn(path, root)
  {
    SelfOnPath(path, c);
    assert c in Sub(path, c);
    if root != null {
      var r: Node := root;
      AttachSub(path, p, c, r);
    }
  }

  /** Subtracting the size of the cut subtree keeps a correct count exactly when it was in the tree. */
  lemma DetachCount(path: Paths<Node>, root: Node?, n: Node)
    requires PathsOk(path) && (root != null ==> IsTop(path, root)) && n in path && |path[n]| > 1
    ensures |RootedIn(DetachPath(path, n), root)| == |RootedIn(path, root)| - |Sub(path, n)|
            <==> n in RootedIn(path, root)
  {
    SelfOnPath(path, n);
    assert n in Sub(path, n);
    if root != null {
      var r: Node := root;
      DetachSub(path, n, r);
      if r in path[n] {
        assert Sub(path, r) == (Sub(path, r) - Sub(path, n)) + Sub(path, n);
      }
    }
  }

  lemma DetachShapeOk(s: Shape<Node>, root: Node?, p: Node, pos: nat)
    requires ShapeOk(s, root) && p in s.path && pos < |s.kids[p]|
    ensures s.kids[p][pos] in s.path && |s.path[s.kids[p][pos]]| > 0
    ensures ShapeOk(Detach(s, p, pos), root)
  {
    DetachOk(s, p, pos);
    KidBelow(s, p, s.kids[p][pos]);
    assert Ascending(s.kids[p]);
    RemoveKeepsOrder(s.kids[p], pos);
    forall n | n in s.path ensures Ascending(Detach(s, p, pos).kids[n]) {
      assert Ascending(s.kids[n]);
    }
    if root != null {
      var r: Node := root;
      var n := s.kids[p][pos];
      assert KidsOk(s, p) && Below(s.path, p, n);
      SelfOnPath(s.path, p);
      DetachSub(s.path, n, r);
    }
  }

  /** Forgetting a whole tree leaves the rest as it was. */
  lemma DropShapeOk(s: Shape<Node>, root: Node?, r: Node)
    requires ShapeOk(s, root) && IsTop(s.path, r)
    ensures ShapeOk(Drop(s, r), if root == r then null else root)
    ensures root != r ==> RootedIn(Drop(s, r).path, root) == RootedIn(s.path, root)
  {
    DropOk(s, r);
    forall n | n in Drop(s, r).path ensures Ascending(Drop(s, r).kids[n]) {
      assert Ascending(s.kids[n]);
    }
    if root != null {
      var q: Node := root;
      assert IsTop(s.path, q);
    }
  }

  lemma DropLinked(s: Shape<Node>, r: Node)
    requires Ok(s) && Linked(s)
    ensures Linked(Drop(s, r))
  {
    var s' := Drop(s, r);
    forall m | m in s'.path ensures Holds(m, s'.kids[m], ParentOf(s'.path, m)) {
      HoldsOf(s, m);
    }
  }

  /** The position of `k` among the children `ks`. */
  ghost function PosOf(ks: seq<Node>, k: Node): (pos: nat)
    requires k in ks
    ensures pos < |ks| && ks[pos] == k
  {
    var i :| 0 <= i < |ks| && ks[i] == k;
    i
  }

  /** The shape once `n` has been cut from its parent `p`. */
  ghost function Cut(s: Shape<Node>, p: Node, n: Node): Shape<Node>
    requires p in s.kids && n in s.kids[p] && n in s.path && |s.path[n]| > 0
  {
    Detach(s, p, PosOf(s.kids[p], n))
  }

  lemma HoldsOf(s: Shape<Node>, n: Node)
    requires s.kids.Keys == s.path.Keys && Linked(s) && n in s.path
    ensures Holds(n, s.kids[n], ParentOf(s.path, n))
  {
  }

  lemma AttachShapeOk(s: Shape<Node>, root: Node?, p: Node, c: Node, pos: nat)
    requires ShapeOk(s, root) && p in s.path && IsTop(s.path, c) && c !in s.path[p] && c != root
    requires Splits(s.kids[p], pos, c.name)
    ensures ShapeOk(Attach(s, p, c, pos), root)
  {
    AttachOk(s, p, c, pos);
    assert Ascending(s.kids[p]);
    InsertKeepsOrder(s.kids[p], pos, c);
    forall n | n in s.path ensures Ascending(Attach(s, p, c, pos).kids[n]) {
      assert Ascending(s.kids[n]);
    }
    if root != null {
      var r: Node := root;
      AttachSub(s.path, p, c, r);
    }
  }

  class Tree {
    var root: Node?
    var nodeCount: int
    var freed: seq<Node>
    ghost var shape: Shape<Node>

    ghost predicate Valid()
      reads this`shape, this`root, shape.path.Keys, Arrays(shape.path.Keys)
    {
      && ShapeOk(shape, root)
      && Linked(shape)
    }

    /** The nodes reachable from the root. */
    ghost function Rooted(): set<Node>
      reads this`shape, this`root
    {
      RootedIn(shape.path, root)
    }

    /** The cached count is the number of nodes reachable from the root. */
    ghost predicate Counted()
      reads this`shape, this`root, this`nodeCount
    {
      nodeCount == |Rooted()|
    }

    /** No node has been released twice, and none that has been released is still in use. */
    ghost predicate OnceFreed()
      reads this`freed, this`shape
    {
      Distinct(freed) && forall n :: n in freed ==> n !in shape.path
    }

    constructor ()
      ensures OnceFreed()
      ensures Valid() && Counted() && root == null && shape == Shape(map[], map[]) && freed == []
    {
      root := null;
      nodeCount := 0;
      freed := [];
      shape := Shape(map[], map[]);
    }

    lemma LinkedKid(n: Node, i: nat)
      requires Valid() && n in shape.path
      ensures n.nchild == |shape.kids[n]| <= n.child.Length
      ensures i < n.nchild ==>
                && n.child[i] == shape.kids[n][i]
                && shape.kids[n][i] in shape.path
                && |Sub(shape.path, shape.kids[n][i])| < |Sub(shape.path, n)|
    {
      HoldsOf(shape, n);
      if i < n.nchild {
        assert n.child[..n.nchild][i] == shape.kids[n][i];
        KidInSub(shape, n, shape.kids[n][i]);
      }
    }

    /** __size */
    method Size(n: Node) returns (s: nat)
      requires Valid() && n in shape.path
      ensures s == |Sub(shape.path, n)|
      decreases |Sub(shape.path, n)|
    {
      LinkedKid(n, 0);
      s := 1;
      assert FirstSubs(shape, n, 0) == {};
      for i := 0 to n.nchild
        invariant s == 1 + |FirstSubs(shape, n, i)|
      {
        LinkedKid(n, i);
        var t := Size(n.child[i]);
        FirstSubsStep(shape, n, i);
        s := s + t;
      }
      SubSplit(shape, n);
    }

    /** __insert_pos */
    method InsertPos(d: Node, name: Option<string>) returns (pos: nat, found: bool)
      requires Valid() && d in shape.path
      ensures found == NameTaken(shape.kids[d], name)
      ensures !found ==> InsertsAt(shape.kids[d], pos, name)
    {
      HoldsOf(shape, d);
      assert Ascending(shape.kids[d]);
      ghost var ks := shape.kids[d];
      if name.None? {
        return d.nchild, false;
      }
      for i := 0 to d.nchild
        invariant forall j :: 0 <= j < i && ks[j].name.Some? ==> StrCmp(ks[j].name.value, name.value) < 0
      {
        assert d.child[..d.nchild][i] == ks[i];
        var other := d.child[i].name;
        if other.Some? {
          var cmp := StrCmp(name.value, other.value);
          StrCmpZero(name.value, other.value);
          StrCmpFlip(other.value, name.value);
          if cmp == 0 {
            return 0, true;
          }
          if cmp < 0 {
            AboveSplit(ks, i, name.value);
            return i, false;
          }
        }
      }
      AboveSplit(ks, |ks|, name.value);
      return d.nchild, false;
    }

    /** The first child above `name` splits the children, and then `name` is new. */
    static lemma AboveSplit(ks: seq<Node>, pos: nat, name: string)
      requires Ascending(ks) && pos <= |ks|
      requires forall j :: 0 <= j < pos && ks[j].name.Some? ==> StrCmp(ks[j].name.value, name) < 0
      requires pos < |ks| ==> ks[pos].name.Some? && StrCmp(name, ks[pos].name.value) < 0
      ensures Splits(ks, pos, Some(name)) && !NameTaken(ks, Some(name))
    {
      StrCmpZero(name, name);
      forall i | pos < i < |ks| && ks[i].name.Some? ensures StrCmp(name, ks[i].name.value) < 0 {
        StrCmpTransitive(name, ks[pos].name.value, ks[i].name.value);
      }
    }

    /** __ensure_cap: keeps the children, at least doubling a table that is too small. */
    method EnsureCap(d: Node, need: nat)
      requires Valid() && d in shape.path && need > 0
      modifies d`child
      ensures Valid()
      ensures d.child.Length >= need && d.nchild == old(d.nchild)
      ensures old(d.child.Length) >= need ==> d.child == old(d.child)
      ensures old(d.child.Length) < need ==>
                var start := if old(d.child.Length) != 0 then old(d.child.Length) else 4;
                && fresh(d.child) && Doubled(start, d.child.Length)
                && (d.child.Length == start || d.child.Length < 2 * need)
    {
      HoldsOf(shape, d);
      var table, used := d.child, d.nchild;
      if table.Length >= need {
        return;
      }
      var ncap := if table.Length != 0 then table.Length else 4;
      ghost var start := ncap;
      while ncap < need
        invariant ncap > 0 && Doubled(start, ncap) && (ncap == start || ncap < 2 * need)
      {
        ncap := ncap * 2;
      }
      var nc := CopyTable(table, used, ncap);
      Retable(d, nc);
    }

    static method CopyTable(table: array<Node?>, used: nat, ncap: nat) returns (nc: array<Node?>)
      requires used <= table.Length && used <= ncap
      ensures fresh(nc) && nc.Length == ncap && nc[..used] == table[..used]
    {
      nc := new Node?[ncap];
      for i := 0 to used
        invariant nc[..i] == table[..i]
      {
        nc[i] := table[i];
      }
    }

    /** Puts a copy in the place of a child table. */
    method Retable(d: Node, nc: array<Node?>)
      requires Valid() && d in shape.path && d.nchild <= d.child.Length && d.nchild <= nc.Length
      requires nc !in Arrays(shape.path.Keys) && nc[..d.nchild] == d.child[..d.nchild]
      modifies d`child
      ensures Valid() && d.child == nc
    {
      HoldsOf(shape, d);
      d.child := nc;
      forall n | n in shape.path ensures Holds(n, shape.kids[n], ParentOf(shape.path, n)) {
        assert n != d ==> old(Holds(n, shape.kids[n], ParentOf(shape.path, n)));
      }
    }

    /** The pointer surgery of __node_insert, once room has been made. */
    method Link(p: Node, c: Node, pos: nat)
      requires Valid() && p in shape.path && IsTop(shape.path, c) && c !in shape.path[p] && c != root
      requires Splits(shape.kids[p], pos, c.name) && p.nchild < p.child.Length
      modifies this`shape, p`nchild, p.child, c`parent
      ensures Valid() && shape == Attach(old(shape), p, c, pos)
    {
      AttachShapeOk(shape, root, p, c, pos);
      LinkNodes(shape, p, c, pos);
      Adopt(Attach(shape, p, c, pos));
    }

    /** Takes note of what the links now say. */
    method Adopt(ghost s: Shape<Node>)
      requires ShapeOk(s, root) && Linked(s)
      modifies this`shape
      ensures Valid() && shape == s
    {
      shape := s;
    }

    /** The part of __node_insert that follows its checks. */
    method Graft(p: Node, c: Node, pos: nat)
      requires Valid() && p in shape.path && IsTop(shape.path, c) && c !in shape.path[p] && c != root
      requires Splits(shape.kids[p], pos, c.name)
      modifies this`shape, this`nodeCount, p, c`parent, p.child
      ensures p.child == old(p.child) || fresh(p.child)
      ensures Valid() && shape == Attach(old(shape), p, c, pos)
      ensures nodeCount == old(nodeCount) + |Sub(old(shape).path, c)|
    {
      EnsureCap(p, p.nchild + 1);
      LinkCounted(p, c, pos);
    }

    method LinkCounted(p: Node, c: Node, pos: nat)
      requires Valid() && p in shape.path && IsTop(shape.path, c) && c !in shape.path[p] && c != root
      requires Splits(shape.kids[p], pos, c.name) && p.nchild < p.child.Length
      modifies this`shape, this`nodeCount, p`nchild, p.child, c`parent
      ensures Valid() && shape == Attach(old(shape), p, c, pos)
      ensures nodeCount == old(nodeCount) + |Sub(old(shape).path, c)|
    {
      AttachOwnSub(shape.path, p, c);
      Link(p, c, pos);
      var size := Size(c);
      AddCount(size);
    }

    method AddCount(delta: int)
      requires Valid()
      modifies this`nodeCount
      ensures Valid() && nodeCount == old(nodeCount) + delta
    {
      nodeCount := nodeCount + delta;
    }

    /**
     __node_insert. Past its checks the code counts the nodes below the child, which ends exactly
     if the parent is not below it (`RecursionEndsIff`); for a floating child and a parent in the
     tree that is always so (`RootedParentIsSafe`).
     */
    method Insert(p: Node?, c: Node?) returns (ret: int)
      requires Valid()
      requires p != null ==> p in shape.path
      requires c != null ==> c in shape.path
      requires p != null && c != null && c.parent == null && c != root && !NameTaken(shape.kids[p], c.name) ==>
                 c !in shape.path[p]
      modifies this, p, c, if p == null then null else p.child
      ensures Valid() && root == old(root) && freed == old(freed)
      ensures p != null ==> p.child == old(p.child) || fresh(p.child)
      ensures old(OnceFreed()) ==> OnceFreed()
      ensures ret == 0 || ret == -1
      ensures ret == -1 <==>
                p == null || c == null || old(c.parent) != null || c == root || NameTaken(old(shape).kids[p], c.name)
      ensures ret == -1 ==> shape == old(shape) && nodeCount == old(nodeCount)
      ensures ret == 0 ==>
                var parent: Node, child: Node := p, c;
                && IsTop(old(shape).path, child)
                && (exists pos :: InsertsAt(old(shape).kids[parent], pos, child.name)
                                  && shape == Attach(old(shape), parent, child, pos))
                && nodeCount == old(nodeCount) + |Sub(old(shape).path, child)|
                && (old(Counted()) ==> (Counted() <==> parent in old(Rooted())))
    {
      if p == null || c == null {
        return -1;
      }
      var parent: Node, child: Node := p, c;
      HoldsOf(shape, child);
      if child.parent != null {
        return -1;
      }
      if child == root {
        return -1;
      }
      var pos, found := InsertPos(parent, child.name);
      if found {
        return -1;
      }
      SelfOnPath(shape.path, child);
      AttachCount(shape.path, root, parent, child);
      Graft(parent, child, pos);
      return 0;
    }

    /** The pointer surgery of __node_detach. */
    method Unlink(p: Node, n: Node, pos: nat)
      requires Valid() && p in shape.path && pos < |shape.kids[p]| && shape.kids[p][pos] == n
      modifies this`shape, p`nchild, p.child, n`parent
      ensures Valid()
      ensures n in old(shape).path && |old(shape).path[n]| > 0
      ensures shape == Detach(old(shape), p, pos)
    {
      DetachShapeOk(shape, root, p, pos);
      UnlinkNodes(shape, p, n, pos);
      Adopt(Detach(shape, p, pos));
    }

    /** __node_detach */
    method DetachNode(node: Node?) returns (ret: int)
      requires Valid()
      requires node != null ==> node in shape.path
      modifies this`shape, this`nodeCount, node
      modifies if node == null then null else node.parent
      modifies if node == null || node.parent == null then null else node.parent.child
      ensures Valid() && root == old(root)
      ensures old(OnceFreed()) ==> OnceFreed()
      ensures ret == if node == null || old(node.parent) == null then -1 else 0
      ensures ret == -1 ==> shape == old(shape) && nodeCount == old(nodeCount)
      ensures ret == 0 ==>
                var n: Node, p: Node := node, old(node.parent);
                && p in old(shape).kids && n in old(shape).kids[p] && n in old(shape).path && |old(shape).path[n]| > 1
                && IsTop(shape.path, n)
                && shape == Cut(old(shape), p, n)
                && shape.path.Keys == old(shape).path.Keys
                && Sub(shape.path, n) == Sub(old(shape).path, n)
                && nodeCount == old(nodeCount) - |Sub(old(shape).path, n)|
                && (old(Counted()) ==> (Counted() <==> n in old(Rooted())))
    {
      if node == null || node.parent == null {
        return -1;
      }
      var n: Node, d: Node := node, node.parent;
      ParentHasKid(n);
      var i := FindKid(d, n);
      PruneCounted(d, n, i);
      return 0;
    }

    /** The search of __node_detach. */
    method FindKid(d: Node, n: Node) returns (i: nat)
      requires Valid() && d in shape.path && n in shape.kids[d]
      ensures i == PosOf(shape.kids[d], n)
    {
      HoldsOf(shape, d);
      i := 0;
      while i < d.nchild && d.child[i] != n
        invariant 0 <= i <= d.nchild
        invariant n !in d.child[..i]
      {
        i := i + 1;
      }
      assert d.child[..d.nchild] == shape.kids[d];
      assert KidsOk(shape, d);
    }

    /** A parent pointer leads to a node that lists the child. */
    lemma ParentHasKid(n: Node)
      requires Valid() && n in shape.path
      ensures n.parent != null ==> n.parent in shape.path && n in shape.kids[n.parent] && |shape.path[n]| > 1
      ensures n.parent == null ==> IsTop(shape.path, n)
    {
      HoldsOf(shape, n);
      SelfOnPath(shape.path, n);
      if n.parent != null {
        var p: Node := n.parent;
        assert PathOk(shape.path, n) && PrefixOk(shape.path, n, |shape.path[n]| - 2);
        BelowParent(shape.path, p, n);
        assert KidsOk(shape, p) && Below(shape.path, p, n);
      }
    }

    lemma KidHasParent(n: Node, k: Node)
      requires Valid() && n in shape.path && k in shape.kids[n]
      ensures k in shape.path && k.parent == n && k in Sub(shape.path, n)
    {
      KidBelow(shape, n, k);
      assert KidsOk(shape, n) && Below(shape.path, n, k);
      SelfOnPath(shape.path, n);
      HoldsOf(shape, k);
    }

    /** The part of __node_detach that follows the search, with what it means for the count. */
    method PruneCounted(p: Node, n: Node, pos: nat)
      requires Valid() && p in shape.path && pos < |shape.kids[p]| && shape.kids[p][pos] == n && n in shape.path
      requires |shape.path[n]| > 1
      modifies this`shape, this`nodeCount, p`nchild, p.child, n`parent
      ensures Valid() && IsTop(shape.path, n)
      ensures shape == Detach(old(shape), p, pos)
      ensures Sub(shape.path, n) == Sub(old(shape).path, n)
      ensures nodeCount == old(nodeCount) - |Sub(old(shape).path, n)|
      ensures old(Counted()) ==> (Counted() <==> n in old(Rooted()))
    {
      DetachCount(shape.path, root, n);
      DetachOwnSub(shape.path, n);
      Prune(p, n, pos);
    }

    /** The part of __node_detach that follows the search. */
    method Prune(p: Node, n: Node, pos: nat)
      requires Valid() && p in shape.path && pos < |shape.kids[p]| && shape.kids[p][pos] == n && n in shape.path
      requires |shape.path[n]| > 1
      modifies this`shape, this`nodeCount, p`nchild, p.child, n`parent
      ensures Valid() && IsTop(shape.path, n)
      ensures shape == Detach(old(shape), p, pos)
      ensures nodeCount == old(nodeCount) - |Sub(old(shape).path, n)|
    {
      DetachOk(shape, p, pos);
      DetachOwnSub(shape.path, n);
      Unlink(p, n, pos);
      var size: int := Size(n);
      AddCount(-size);
    }

    /** __node_new: a floating node, not part of the tree and not counted. */
    method NewNode(name: Option<string>) returns (n: Node)
      requires Valid()
      modifies this`shape
      ensures Valid() && fresh(n) && fresh(n.child) && n.name == name
      ensures n !in old(shape).path && shape == Add(old(shape), n)
      ensures old(Counted()) ==> Counted()
      ensures old(OnceFreed()) ==> OnceFreed()
    {
      n := new Node(name);
      ghost var s0 := shape;
      AddOk(s0, n);
      if root != null {
        var r: Node := root;
        assert IsTop(s0.path, r);
      }
      shape := Add(s0, n);
      forall m | m in shape.path ensures Holds(m, shape.kids[m], ParentOf(shape.path, m)) {
        if m != n {
          assert old(Holds(m, s0.kids[m], ParentOf(s0.path, m)));
        }
      }
      forall m | m in shape.path ensures Ascending(shape.kids[m]) {
        assert m in s0.path ==> Ascending(s0.kids[m]);
      }
    }

    /** __free_rec: releases children before their parent. */
    method FreeRec(n: Node)
      requires Valid() && n in shape.path
      modifies this`freed
      ensures Valid()
      ensures freed == old(freed) + Postorder(shape, n)
      decreases |Sub(shape.path, n)|
    {
      LinkedKid(n, 0);
      for i := 0 to n.nchild
        invariant freed == old(freed) + PostorderTo(shape, n, i)
      {
        LinkedKid(n, i);
        PostorderStep(shape, n, i, old(freed));
        FreeRec(n.child[i]);
      }
      freed := freed + [n];
    }

    /** Releases the whole tree with top `r` and forgets it; `next` is the root from then on. */
    method Release(r: Node, next: Node?)
      requires Valid() && IsTop(shape.path, r) && next != r
      requires next != null ==> IsTop(shape.path, next)
      modifies this`freed, this`shape, this`root
      ensures Valid() && root == next
      ensures shape == Drop(old(shape), r)
      ensures freed == old(freed) + Postorder(old(shape), r)
      ensures Rooted() == RootedIn(old(shape).path, next)
      ensures old(OnceFreed()) ==> OnceFreed()
    {
      if OnceFreed() {
        DropReleasesOnce(shape, r, freed);
      }
      FreeRec(r);
      DropShapeOk(shape, next, r);
      DropLinked(shape, r);
      root := next;
      shape := Drop(shape, r);
    }

    /** __set_root: releases the old tree; the new root must be a floating node or NULL. */
    method SetRoot(r: Node?)
      requires Valid()
      requires r != null ==> IsTop(shape.path, r) && r != root
      modifies this
      ensures Valid() && Counted() && root == r
      ensures old(OnceFreed()) ==> OnceFreed()
      ensures old(root) == null ==> shape == old(shape) && freed == old(freed)
      ensures old(root) != null ==>
                var was: Node := old(root);
                shape == Drop(old(shape), was) && freed == old(freed) + Postorder(old(shape), was)
      ensures Rooted() == RootedIn(old(shape).path, r)
    {
      if root != null {
        Release(root, r);
      }
      Reroot(r);
    }

    method Reroot(r: Node?)
      requires ShapeOk(shape, r) && Linked(shape)
      modifies this`root, this`nodeCount
      ensures Valid() && Counted() && root == r
    {
      root := r;
      var count := 0;
      if r != null {
        count := Size(r);
      }
      nodeCount := count;
    }

    /** __clear */
    method Clear()
      requires Valid()
      modifies this
      ensures Valid() && root == null
      ensures old(OnceFreed()) ==> OnceFreed()
      ensures old(root) != null || old(Counted()) ==> Counted()
      ensures old(root) == null ==> shape == old(shape) && freed == old(freed)
      ensures old(root) != null ==>
                var was: Node := old(root);
                shape == Drop(old(shape), was) && freed == old(freed) + Postorder(old(shape), was)
    {
      if root != null {
        Release(root, null);
        nodeCount := 0;
      }
    }

    /** __node_free for a root or a floating node */
    method FreeTop(n: Node)
      requires Valid() && IsTop(shape.path, n)
      modifies this
      ensures Valid()
      ensures shape == Drop(old(shape), n)
      ensures freed == old(freed) + Postorder(old(shape), n)
      ensures old(Counted()) ==> Counted()
      ensures old(OnceFreed()) ==> OnceFreed()
    {
      if n == root {
        Release(n, null);
        nodeCount := 0;
      } else {
        Release(n, root);
      }
    }

    method ReleaseFloating(n: Node)
      requires Valid() && IsTop(shape.path, n) && n != root
      modifies this`freed, this`shape, this`root
      ensures Valid() && Rooted() == old(Rooted())
      ensures multiset(freed) == multiset(old(freed)) + multiset(Sub(old(shape).path, n))
      ensures shape == Drop(old(shape), n)
      ensures old(OnceFreed()) ==> OnceFreed()
    {
      PostorderVisitsAll(shape, n);
      Release(n, root);
    }

    /** __node_free for a node with a parent */
    method FreeInner(n: Node)
      requires Valid() && n in shape.path && n.parent != null
      modifies this, n, n.parent, n.parent.child
      ensures Valid()
      ensures multiset(freed) == multiset(old(freed)) + multiset(Sub(old(shape).path, n))
      ensures var p: Node := old(n.parent);
              && p in old(shape).kids && n in old(shape).kids[p] && |old(shape).path[n]| > 1
              && shape == Drop(Cut(old(shape), p, n), n)
      ensures old(OnceFreed()) ==> OnceFreed()
      ensures old(Counted()) ==> (Counted() <==> n in old(Rooted()))
    {
      ParentHasKid(n);
      var _ := DetachNode(n);
      ReleaseFloating(n);
    }

    /** __node_free */
    method FreeNode(node: Node?) returns (ret: int)
      requires Valid()
      requires node != null ==> node in shape.path
      modifies this, node
      modifies if node == null then null else node.parent
      modifies if node == null || node.parent == null then null else node.parent.child
      ensures Valid()
      ensures old(OnceFreed()) ==> OnceFreed()
      ensures ret == if node == null then -1 else 0
      ensures ret == -1 ==> shape == old(shape) && nodeCount == old(nodeCount) && freed == old(freed)
      ensures ret == 0 ==>
                var n: Node := node;
                && multiset(freed) == multiset(old(freed)) + multiset(Sub(old(shape).path, n))
                && (old(n.parent) == null ==> shape == Drop(old(shape), n))
                && (old(n.parent) != null ==>
                      var p: Node := old(n.parent);
                      && p in old(shape).kids && n in old(shape).kids[p] && |old(shape).path[n]| > 1
                      && shape == Drop(Cut(old(shape), p, n), n))
                && (old(Counted()) ==> (Counted() <==> old(n.parent) == null || n in old(Rooted())))
    {
      if node == null {
        return -1;
      }
      var n: Node := node;
      ParentHasKid(n);
      if n.parent == null {
        PostorderVisitsAll(shape, n);
        FreeTop(n);
      } else {
        FreeInner(n);
      }
      return 0;
    }

    /** __node_depth: the number of nodes from `node` (or the root) up to the top of its tree. */
    method Depth(node: Node?) returns (d: nat)
      requires Valid()
      requires node != null ==> node in shape.path
      ensures node != null ==> var n: Node := node; d == |shape.path[n]|
      ensures node == null ==> d == if root == null then 0 else 1
    {
      var cur := if node == null then root else node;
      ghost var total := if cur == null then 0 else |shape.path[cur]|;
      d := 0;
      while cur != null
        invariant cur != null ==> cur in shape.path && d + |shape.path[cur]| == total
        invariant cur == null ==> d == total
        decreases total - d
      {
        var c: Node := cur;
        ParentHasKid(c);
        SelfOnPath(shape.path, c);
        if c.parent != null {
          var p: Node := c.parent;
          assert KidsOk(shape, p) && Below(shape.path, p, c);
        }
        d := d + 1;
        cur := c.parent;
      }
    }

    /**
     __preorder_impl. The visitor sees the nodes visited so far, the current one last, so that it
     may depend on any state it keeps; a non-zero answer stops the walk.
     */
    method Walk(n: Node, visit: seq<Node> -> int, seen: seq<Node>) returns (r: int, seen': seq<Node>)
      requires Valid() && n in shape.path
      ensures (r, seen') == Visited(visit, seen, Preorder(shape, n))
      decreases |Sub(shape.path, n)|
    {
      LinkedKid(n, 0);
      seen' := seen + [n];
      r := visit(seen');
      assert Preorder(shape, n)[1..] == PreorderFrom(shape, n, 0);
      if r != 0 {
        return;
      }
      for i := 0 to n.nchild
        invariant r == 0
        invariant Visited(visit, seen, Preorder(shape, n)) == Visited(visit, seen', PreorderFrom(shape, n, i))
      {
        LinkedKid(n, i);
        VisitedAppend(visit, seen', Preorder(shape, shape.kids[n][i]), PreorderFrom(shape, n, i + 1));
        r, seen' := Walk(n.child[i], visit, seen');
        if r != 0 {
          return;
        }
      }
    }

    /** __preorder: starts at the root when no node is given. */
    method Traverse(node: Node?, visit: seq<Node> -> int) returns (r: int, seen: seq<Node>)
      requires Valid()
      requires node != null ==> node in shape.path
      ensures node == null && root == null ==> r == 0 && seen == []
      ensures node != null || root != null ==>
                var start: Node := if node != null then node else root;
                (r, seen) == Visited(visit, [], Preorder(shape, start))
    {
      var start := if node != null then node else root;
      if start == null {
        return 0, [];
      }
      r, seen := Walk(start, visit, []);
    }
  }

  // -------------------------------------------------------------- walks that stop

  /** The answer and the visited nodes when `order` is visited after `seen`, stopping at a non-zero answer. */
  ghost function Visited(visit: seq<Node> -> int, seen: seq<Node>, order: seq<Node>): (int, seq<Node>)
    decreases |order|
  {
    if order == [] then (0, seen)
    else
      var now := seen + [order[0]];
      if visit(now) != 0 then (visit(now), now) else Visited(visit, now, order[1..])
  }

  lemma {:induction false} VisitedAppend(visit: seq<Node> -> int, seen: seq<Node>, a: seq<Node>, b: seq<Node>)
    ensures Visited(visit, seen, a + b) ==
            var first := Visited(visit, seen, a);
            if first.0 != 0 then first else Visited(visit, first.1, b)
    decreases |a|
  {
    if a == [] {
      assert a + b == b;
    } else {
      assert (a + b)[1..] == a[1..] + b;
      VisitedAppend(visit, seen + [a[0]], a[1..], b);
    }
  }

  /** The visitor's answer after the first `j` nodes of `order`. */
  ghost function Answer(visit: seq<Node> -> int, seen: seq<Node>, order: seq<Node>, j: nat): int
    requires j <= |order|
  {
    visit(seen + order[..j])
  }

  /**
   A walk sees a prefix of `order`: all answers before its last are zero, and it ends at the first
   non-zero answer, which it returns, or at the end of `order` with zero.
   */
  lemma {:induction false} VisitedIsPrefix(visit: seq<Node> -> int, seen: seq<Node>, order: seq<Node>) returns (k: nat)
    ensures k <= |order|
    ensures Visited(visit, seen, order).1 == seen + order[..k]
    ensures forall j :: 0 < j < k ==> Answer(visit, seen, order, j) == 0
    ensures Visited(visit, seen, order).0 == if k == 0 then 0 else Answer(visit, seen, order, k)
    ensures Visited(visit, seen, order).0 == 0 ==> k == |order|
    decreases |order|
  {
    if order == [] {
      return 0;
    }
    var now := seen + [order[0]];
    assert now == seen + order[..1];
    if visit(now) != 0 {
      return 1;
    }
    var k' := VisitedIsPrefix(visit, now, order[1..]);
    k := k' + 1;
    forall j | 0 < j <= k ensures now + order[1..][..j - 1] == seen + order[..j] {
    }
    forall j | 0 < j < k ensures Answer(visit, seen, order, j) == 0 {
      if j > 1 {
        assert Answer(visit, now, order[1..], j - 1) == 0;
        assert now + order[1..][..j - 1] == seen + order[..j];
      }
    }
    assert now + order[1..][..k'] == seen + order[..k];
  }

  /** Inserting below a floating parent counts a node that is not in the tree. */
  method FloatingInsertMiscounts() returns (t: Tree, a: Node, b: Node)
    ensures fresh(t) && fresh(a) && fresh(b) && fresh(a.child)
    ensures t.Valid() && t.root == null && t.nodeCount == 1 && !t.Counted()
    ensures b in t.shape.path && b.parent == a
  {
    t, a, b := TwoNodes();
    ghost var s0 := t.shape;
    HoldsOf(s0, b);
    var _ := t.Insert(a, b);
    assert Sub(s0.path, b) == {b};
    t.KidHasParent(a, b);
  }

  /** Two floating nodes without names beside an empty tree. */
  method TwoNodes() returns (t: Tree, a: Node, b: Node)
    ensures fresh(t) && fresh(a) && fresh(b) && fresh(a.child) && a != b
    ensures t.Valid() && t.Counted() && t.root == null && b.name == None
    ensures t.shape.path == map[a := [a], b := [b]] && t.shape.kids == map[a := [], b := []]
  {
    t := new Tree();
    a := t.NewNode(None);
    b := t.NewNode(None);
  }

  /** Setting no root resets the count, and leaves a floating node `a` with a child `b`. */
  method FloatingPair() returns (t: Tree, a: Node, b: Node)
    ensures fresh(t) && fresh(a) && fresh(b) && fresh(a.child)
    ensures t.Valid() && t.Counted() && t.root == null && b in t.shape.path && b.parent == a
  {
    t, a, b := FloatingInsertMiscounts();
    t.SetRoot(null);
  }

  /** Cutting a child from a floating parent takes away from a correct count what was not in it. */
  method FloatingDetachMiscounts() returns (t: Tree)
    ensures t.Valid() && t.root == null && t.nodeCount < 0 && !t.Counted()
  {
    var a, b;
    t, a, b := FloatingPair();
    var _ := t.DetachNode(b);
  }

  /** So does releasing such a child. */
  method FloatingFreeMiscounts() returns (t: Tree)
    ensures t.Valid() && !t.Counted()
  {
    var a, b;
    t, a, b := FloatingPair();
    var _ := t.FreeNode(b);
  }

  // ---------------------------------------------------------- one node at a time

  method LinkNodes(ghost s: Shape<Node>, p: Node, c: Node, pos: nat)
    requires Ok(s) && Linked(s) && p in s.path && IsTop(s.path, c) && c !in s.path[p]
    requires pos <= |s.kids[p]| && p.nchild < p.child.Length
    modifies p`nchild, p.child, c`parent
    ensures Linked(Attach(s, p, c, pos))
  {
    SelfOnPath(s.path, p);
    HoldsOf(s, p);
    HoldsOf(s, c);
    LinkFields(p, c, pos, s.kids[p], s.kids[c]);
    ghost var s' := Attach(s, p, c, pos);
    forall n | n in s'.path ensures Holds(n, s'.kids[n], ParentOf(s'.path, n)) {
      AttachParent(s.path, p, c, n);
      if n != p && n != c {
        assert old(Holds(n, s.kids[n], ParentOf(s.path, n)));
      }
    }
  }

  method LinkFields(p: Node, c: Node, pos: nat, ghost ks: seq<Node>, ghost cs: seq<Node>)
    requires p != c && p.child != c.child && p.nchild < p.child.Length && pos <= |ks|
    requires Holds(p, ks, if p.parent == null then None else Some(p.parent)) && Holds(c, cs, None)
    modifies p`nchild, p.child, c`parent
    ensures Holds(p, InsertAt(ks, pos, c), if p.parent == null then None else Some(p.parent)) && Holds(c, cs, Some(p))
    ensures p.nchild == old(p.nchild) + 1
  {
    assert p.child[..p.nchild][..pos] == p.child[..pos] && p.child[..p.nchild][pos..] == p.child[pos..p.nchild];
    ShiftIn(p.child, p.nchild, pos, c);
    p.nchild := p.nchild + 1;
    c.parent := p;
  }

  /** Moves the entries from `pos` on up by one and stores `x` in the gap. */
  method ShiftIn(a: array<Node?>, n: nat, pos: nat, x: Node)
    requires pos <= n < a.Length
    modifies a
    ensures a[..n + 1] == old(a[..pos]) + [x] + old(a[pos..n])
  {
    var i := n;
    while i > pos
      invariant pos <= i <= n
      invariant forall k :: 0 <= k <= i ==> a[k] == old(a[k])
      invariant forall k :: i < k <= n ==> a[k] == old(a[k - 1])
    {
      a[i] := a[i - 1];
      i := i - 1;
    }
    a[pos] := x;
  }

  method UnlinkNodes(ghost s: Shape<Node>, p: Node, n: Node, pos: nat)
    requires Ok(s) && Linked(s) && p in s.path && pos < |s.kids[p]| && s.kids[p][pos] == n
    modifies p`nchild, p.child, n`parent
    ensures n in s.path && |s.path[n]| > 0
    ensures Linked(Detach(s, p, pos))
  {
    assert KidsOk(s, p) && Below(s.path, p, n);
    SelfOnPath(s.path, p);
    KidBelow(s, p, n);
    HoldsOf(s, p);
    HoldsOf(s, n);
    UnlinkFields(p, n, pos, s.kids[p], s.kids[n]);
    ghost var s' := Detach(s, p, pos);
    forall m | m in s'.path ensures Holds(m, s'.kids[m], ParentOf(s'.path, m)) {
      DetachParent(s.path, n, m);
      if m != p && m != n {
        assert old(Holds(m, s.kids[m], ParentOf(s.path, m)));
      }
    }
  }

  method UnlinkFields(p: Node, n: Node, pos: nat, ghost ks: seq<Node>, ghost cs: seq<Node>)
    requires pos < |ks| && ks[pos] == n && p != n && p.child != n.child
    requires Holds(p, ks, if p.parent == null then None else Some(p.parent)) && Holds(n, cs, Some(p))
    modifies p`nchild, p.child, n`parent
    ensures Holds(p, RemoveAt(ks, pos), if p.parent == null then None else Some(p.parent)) && Holds(n, cs, None)
  {
    assert p.child[..p.nchild][..pos] == p.child[..pos];
    assert p.child[..p.nchild][pos + 1..] == p.child[pos + 1..p.nchild];
    ShiftOut(p.child, p.nchild, pos);
    p.nchild := p.nchild - 1;
    n.parent := null;
  }

  /** Moves the entries after `pos` down by one. */
  method ShiftOut(a: array<Node?>, n: nat, pos: nat)
    requires pos < n <= a.Length
    modifies a
    ensures a[..n - 1] == old(a[..pos]) + old(a[pos + 1..n])
  {
    for i := pos to n - 1
      invariant forall k :: 0 <= k < pos || i < k < n ==> a[k] == old(a[k])
      invariant forall k :: pos <= k < i ==> a[k] == old(a[k + 1])
    {
      a[i] := a[i + 1];
    }
  }
}
