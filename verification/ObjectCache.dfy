/**
 The object cache (src/core/Object_Cache.c) together with the branch of object_destroy
 (src/core/object.c) that gives an object back to it.
 */
module ObjectCache {
  import opened Prelude

  class CachedObj {
    const cls: string
    var cache: Cache?
    /** Set by whoever works with the object, cleared by `reset`. */
    var used: bool

    constructor (cls: string)
      ensures this.cls == cls && cache == null && !used
    {
      this.cls := cls;
      cache := null;
      used := false;
    }

    /** The virtual `reset`, reduced to what the cache relies on. */
    method Reset()
      modifies this`used
      ensures !used
    {
      used := false;
    }
  }

  /** What `object_list` holds: created objects, and the free list of each class met. */
  datatype Item = ObjItem(o: CachedObj) | ListItem(cls: string)

  // ------------------------------------------------------------- runs of clients

  /** A client obtains an object of a class from the cache, or destroys one it holds. */
  datatype Op = Take(cls: string) | Give(cls: string)

  /** How many objects of class `c` are outstanding after a run. */
  function Outstanding(run: seq<Op>, c: string): int {
    if run == [] then 0
    else
      var last := run[|run| - 1];
      Outstanding(run[..|run| - 1], c) + if last.cls != c then 0 else if last.Take? then 1 else -1
  }

  /** The largest number of objects of class `c` outstanding at once during a run. */
  function HighWater(run: seq<Op>, c: string): int {
    if run == [] then 0
    else
      var before := HighWater(run[..|run| - 1], c);
      if Outstanding(run, c) > before then Outstanding(run, c) else before
  }

  /** No moment of the run exceeds it. */
  lemma {:induction false} HighWaterBounds(run: seq<Op>, c: string, k: nat)
    requires k <= |run|
    ensures Outstanding(run[..k], c) <= HighWater(run, c)
  {
    if k == |run| {
      assert run[..k] == run;
    } else {
      var n := |run| - 1;
      assert run[..n][..k] == run[..k];
      HighWaterBounds(run[..n], c, k);
    }
  }

  /** Some moment of the run reaches it. */
  lemma {:induction false} HighWaterReached(run: seq<Op>, c: string) returns (k: nat)
    ensures k <= |run| && Outstanding(run[..k], c) == HighWater(run, c)
  {
    if run == [] {
      return 0;
    }
    var n := |run| - 1;
    k := HighWaterReached(run[..n], c);
    if HighWater(run, c) == HighWater(run[..n], c) {
      assert run[..n][..k] == run[..k];
    } else {
      k := |run|;
      assert run[..k] == run;
    }
  }

  lemma RunStep(run: seq<Op>, op: Op, c: string)
    ensures Outstanding(run + [op], c) ==
            Outstanding(run, c) + if op.cls != c then 0 else if op.Take? then 1 else -1
    ensures HighWater(run + [op], c) ==
            if Outstanding(run + [op], c) > HighWater(run, c) then Outstanding(run + [op], c) else HighWater(run, c)
  {
    assert (run + [op])[..|run|] == run;
  }

  // ---------------------------------------------------------- what the pool keeps

  /** Created objects of class `c`. */
  function Created(items: seq<Item>, c: string): nat {
    if items == [] then 0
    else
      var last := items[|items| - 1];
      Created(items[..|items| - 1], c) + if last.ObjItem? && last.o.cls == c then 1 else 0
  }

  lemma CreatedStep(items: seq<Item>, i: Item, c: string)
    ensures Created(items + [i], c) == Created(items, c) + if i.ObjItem? && i.o.cls == c then 1 else 0
  {
    assert (items + [i])[..|items|] == items;
  }

  /** The cache's lists, with the objects clients hold and the run so far. */
  datatype Pool = Pool(free: map<string, seq<CachedObj>>, items: seq<Item>, held: set<CachedObj>, run: seq<Op>)

  ghost function HeldOf(held: set<CachedObj>, c: string): set<CachedObj> {
    set o | o in held && o.cls == c
  }

  function FreeOf(free: map<string, seq<CachedObj>>, c: string): seq<CachedObj> {
    if c in free then free[c] else []
  }

  /** The free list of class `c`: objects of that class, created here, not held, none twice. */
  ghost predicate FreeListOk(p: Pool, c: string) {
    var list := FreeOf(p.free, c);
    && Distinct(list)
    && forall o :: o in list ==> o.cls == c && o !in p.held && ObjItem(o) in p.items
  }

  /** Conservation for class `c`: what was created is held or free, and its number is the run's high-water mark. */
  ghost predicate CountsOk(p: Pool, c: string) {
    && Created(p.items, c) == |HeldOf(p.held, c)| + |FreeOf(p.free, c)|
    && |HeldOf(p.held, c)| == Outstanding(p.run, c)
    && Created(p.items, c) == HighWater(p.run, c)
  }

  ghost predicate ItemOk(p: Pool, i: Item) {
    match i
    case ObjItem(o) => o.cls in p.free && (o in p.held || o in p.free[o.cls])
    case ListItem(c) => c in p.free
  }

  /** Every object held or free and every class's list is in `object_list` exactly once, and nothing else is. */
  ghost predicate ItemsOk(p: Pool) {
    && Distinct(p.items)
    && (forall i {:trigger ItemOk(p, i)} :: i in p.items ==> ItemOk(p, i))
    && (forall o :: o in p.held ==> ObjItem(o) in p.items)
    && (forall c :: c in p.free ==> ListItem(c) in p.items)
  }

  ghost predicate PoolOk(p: Pool) {
    && ItemsOk(p)
    && (forall c {:trigger FreeListOk(p, c)} :: FreeListOk(p, c))
    && (forall c {:trigger CountsOk(p, c)} :: CountsOk(p, c))
  }

  // ------------------------------------------------------------ the pool's steps

  /** The first object of a non-empty free list is handed out. */
  ghost function TakeFree(p: Pool, c: string): Pool
    requires c in p.free && p.free[c] != []
  {
    Pool(p.free[c := p.free[c][1..]], p.items, p.held + {p.free[c][0]}, p.run + [Take(c)])
  }

  /** A new object is created; the first of its class also brings the class's free list. */
  ghost function TakeNew(p: Pool, c: string, o: CachedObj): Pool {
    Pool(p.free[c := []],
         if c in p.free then p.items + [ObjItem(o)] else p.items + [ObjItem(o)] + [ListItem(c)],
         p.held + {o}, p.run + [Take(c)])
  }

  /** A held object goes to the end of its class's free list. */
  ghost function GiveBack(p: Pool, o: CachedObj): Pool
    requires o.cls in p.free
  {
    Pool(p.free[o.cls := p.free[o.cls] + [o]], p.items, p.held - {o}, p.run + [Give(o.cls)])
  }

  // ------------------------------------------------------------ first in, first out

  /** The pool after the objects `os` have been destroyed in this order. */
  ghost function GiveAll(p: Pool, c: string, os: seq<CachedObj>): (p': Pool)
    requires c in p.free && forall o :: o in os ==> o.cls == c
    ensures c in p'.free
  {
    if os == [] then p else GiveBack(GiveAll(p, c, os[..|os| - 1]), os[|os| - 1])
  }

  /** The objects that `k` requests for the class are given, in this order. */
  ghost function Handed(p: Pool, c: string, k: nat): (r: seq<CachedObj>)
    requires c in p.free && k <= |p.free[c]|
    ensures |r| == k
    decreases k
  {
    if k == 0 then [] else [p.free[c][0]] + Handed(TakeFree(p, c), c, k - 1)
  }

  lemma {:induction false} HandedInOrder(p: Pool, c: string, k: nat)
    requires c in p.free && k <= |p.free[c]|
    ensures Handed(p, c, k) == p.free[c][..k]
    decreases k
  {
    if k > 0 {
      HandedInOrder(TakeFree(p, c), c, k - 1);
      assert p.free[c][..k] == [p.free[c][0]] + p.free[c][1..][..k - 1];
    }
  }

  lemma {:induction false} GivenBehind(p: Pool, c: string, os: seq<CachedObj>)
    requires c in p.free && forall o :: o in os ==> o.cls == c
    ensures GiveAll(p, c, os).free[c] == p.free[c] + os
    decreases |os|
  {
    if os != [] {
      GivenBehind(p, c, os[..|os| - 1]);
      assert os == os[..|os| - 1] + [os[|os| - 1]];
    }
  }

  /**
   First in, first out: after objects of a class have been destroyed, requests for the class are
   given those that were free before and then the destroyed ones, in the order of destruction.
   */
  lemma FirstInFirstOut(p: Pool, c: string, os: seq<CachedObj>)
    requires c in p.free && forall o :: o in os ==> o.cls == c
    ensures |GiveAll(p, c, os).free[c]| == |p.free[c]| + |os|
    ensures Handed(GiveAll(p, c, os), c, |p.free[c]| + |os|) == p.free[c] + os
  {
    GivenBehind(p, c, os);
    HandedInOrder(GiveAll(p, c, os), c, |p.free[c]| + |os|);
  }

  // -------------------------------------------------------- every step keeps the pool

  lemma TakeFreeCounts(p: Pool, c: string, d: string)
    requires c in p.free && p.free[c] != [] && FreeListOk(p, c) && CountsOk(p, d)
    ensures CountsOk(TakeFree(p, c), d)
  {
    var o := p.free[c][0];
    RunStep(p.run, Take(c), d);
    assert o in p.free[c];
    assert HeldOf(p.held + {o}, d) == if d == c then HeldOf(p.held, d) + {o} else HeldOf(p.held, d);
  }

  lemma TakeFreeItem(p: Pool, c: string, i: Item)
    requires c in p.free && p.free[c] != [] && ItemOk(p, i)
    ensures ItemOk(TakeFree(p, c), i)
  {
    if i.ObjItem? && i.o.cls == c && i.o in p.free[c] && i.o != p.free[c][0] {
      var j :| 0 <= j < |p.free[c]| && p.free[c][j] == i.o;
      assert i.o == p.free[c][1..][j - 1];
    }
  }

  lemma TakeFreeOk(p: Pool, c: string)
    requires PoolOk(p) && c in p.free && p.free[c] != []
    ensures PoolOk(TakeFree(p, c))
  {
    var p' := TakeFree(p, c);
    assert FreeListOk(p, c);
    assert p.free[c][0] in p.free[c];
    forall d ensures FreeListOk(p', d) && CountsOk(p', d) {
      assert FreeListOk(p, d) && CountsOk(p, d);
      TakeFreeCounts(p, c, d);
    }
    forall i | i in p'.items ensures ItemOk(p', i) {
      assert ItemOk(p, i);
      TakeFreeItem(p, c, i);
    }
  }

  lemma TakeNewCounts(p: Pool, c: string, o: CachedObj, d: string)
    requires FreeOf(p.free, c) == [] && o.cls == c && o !in p.held && CountsOk(p, d)
    requires Created(p.items, c) == |HeldOf(p.held, c)|
    ensures CountsOk(TakeNew(p, c, o), d)
  {
    RunStep(p.run, Take(c), d);
    CreatedStep(p.items, ObjItem(o), d);
    CreatedStep(p.items + [ObjItem(o)], ListItem(c), d);
    assert HeldOf(p.held + {o}, d) == if d == c then HeldOf(p.held, d) + {o} else HeldOf(p.held, d);
  }

  lemma TakeNewOk(p: Pool, c: string, o: CachedObj)
    requires PoolOk(p) && FreeOf(p.free, c) == [] && o.cls == c && ObjItem(o) !in p.items
    ensures PoolOk(TakeNew(p, c, o))
  {
    var p' := TakeNew(p, c, o);
    assert CountsOk(p, c);
    forall d ensures FreeListOk(p', d) && CountsOk(p', d) {
      assert FreeListOk(p, d) && CountsOk(p, d);
      assert FreeOf(p'.free, d) == FreeOf(p.free, d);
      TakeNewCounts(p, c, o, d);
    }
    forall i | i in p'.items ensures ItemOk(p', i) {
      assert i in p.items ==> ItemOk(p, i);
    }
    assert c !in p.free ==> ListItem(c) !in p.items by {
      assert ListItem(c) in p.items ==> ItemOk(p, ListItem(c));
    }
  }

  lemma GiveBackCounts(p: Pool, o: CachedObj, d: string)
    requires o.cls in p.free && o in p.held && CountsOk(p, d)
    ensures CountsOk(GiveBack(p, o), d)
  {
    RunStep(p.run, Give(o.cls), d);
    if d == o.cls {
      assert HeldOf(p.held, d) == HeldOf(p.held - {o}, d) + {o};
    } else {
      assert HeldOf(p.held, d) == HeldOf(p.held - {o}, d);
    }
  }

  lemma GiveBackOk(p: Pool, o: CachedObj)
    requires PoolOk(p) && o in p.held
    ensures o.cls in p.free && PoolOk(GiveBack(p, o))
  {
    assert ItemOk(p, ObjItem(o));
    var p' := GiveBack(p, o);
    forall d ensures FreeListOk(p', d) && CountsOk(p', d) {
      assert FreeListOk(p, d) && CountsOk(p, d);
      GiveBackCounts(p, o, d);
    }
    forall i | i in p'.items ensures ItemOk(p', i) {
      assert ItemOk(p, i);
    }
  }

  // --------------------------------------------------------------------- the cache

  class Cache {
    var classMap: map<string, seq<CachedObj>>
    var objectList: seq<Item>
    ghost var held: set<CachedObj>
    ghost var run: seq<Op>

    ghost function Objects(): set<CachedObj>
      reads this
    {
      set i | i in objectList && i.ObjItem? :: i.o
    }

    ghost function State(): Pool
      reads this
    {
      Pool(classMap, objectList, held, run)
    }

    ghost predicate Valid()
      reads this, Objects()
    {
      && PoolOk(State())
      && forall o :: o in Objects() ==> o.cache == this && (o.used ==> o in held)
    }

    constructor ()
      ensures Valid() && State() == Pool(map[], [], {}, [])
    {
      classMap := map[];
      objectList := [];
      held := {};
      run := [];
      new;
      forall c ensures CountsOk(State(), c) {
        assert HeldOf(held, c) == {};
      }
    }

    /**
     __new: a registered class yields an object of that class that nobody holds, recycled first-in
     first-out when one is free and freshly created otherwise.
     */
    method New(c: string, registered: set<string>) returns (o: CachedObj?)
      requires Valid()
      modifies this
      ensures Valid()
      ensures o == null <==> c !in registered
      ensures o == null ==> State() == old(State())
      ensures o != null && FreeOf(old(classMap), c) == [] ==>
                objectList == old(objectList) + [ObjItem(o)] + if c in old(classMap) then [] else [ListItem(c)]
      ensures o != null ==>
                var got: CachedObj := o;
                && got.cls == c && got !in old(held) && got in held && !got.used
                && (if FreeOf(old(classMap), c) == []
                    then fresh(got) && got !in old(Objects()) && State() == TakeNew(old(State()), c, got)
                    else got == old(classMap)[c][0] && State() == TakeFree(old(State()), c))
    {
      if c !in registered {
        return null;
      }
      if c !in classMap || classMap[c] == [] {
        o := Create(c);
      } else {
        o := Reuse(c);
      }
    }

    /** The branch of __new that recycles. */
    method Reuse(c: string) returns (o: CachedObj)
      requires Valid() && c in classMap && classMap[c] != []
      modifies this
      ensures Valid() && State() == TakeFree(old(State()), c)
      ensures o == old(classMap)[c][0] && o.cls == c && o !in old(held) && !o.used
    {
      TakeFreeOk(State(), c);
      o := classMap[c][0];
      assert FreeListOk(State(), c) && o in classMap[c];
      classMap := classMap[c := classMap[c][1..]];
      held := held + {o};
      run := run + [Take(c)];
    }

    /** The branches of __new that call object_new. */
    method Create(c: string) returns (o: CachedObj)
      requires Valid() && FreeOf(classMap, c) == []
      modifies this
      ensures Valid() && fresh(o) && o.cls == c && !o.used && o !in old(Objects()) && o !in old(held)
      ensures State() == TakeNew(old(State()), c, o)
    {
      o := new CachedObj(c);
      Register(o);
    }

    /** What __new does with an object it has made. */
    method Register(o: CachedObj)
      requires Valid() && FreeOf(classMap, o.cls) == [] && o !in Objects() && !o.used
      modifies this, o`cache
      ensures Valid() && State() == TakeNew(old(State()), o.cls, o)
    {
      ghost var before := Objects();
      var c := o.cls;
      assert ObjItem(o) in objectList ==> o in before;
      TakeNewOk(State(), c, o);
      if c !in classMap {
        objectList := objectList + [ObjItem(o)] + [ListItem(c)];
      } else {
        objectList := objectList + [ObjItem(o)];
      }
      classMap := classMap[c := []];
      held := held + {o};
      run := run + [Take(c)];
      o.cache := this;
      assert Objects() == before + {o};
    }

    /**
     __deconstruct: clears every object's cache mark, drops the class map, and resets the owning
     `object_list`, which destroys its elements from the front.
     */
    method Deconstruct(r: Releases)
      requires Valid()
      modifies this, Objects(), r
      ensures r.dead == old(r.dead) + old(objectList)
      ensures Distinct(old(objectList))
      ensures forall o :: o in old(Objects()) ==> o.cache == null && ObjItem(o) in old(objectList)
      ensures forall c :: c in old(classMap) ==> ListItem(c) in old(objectList)
      ensures classMap == map[] && objectList == []
    {
      assert ItemsOk(State());
      ClearMarks();
      classMap := map[];
      ResetList(r);
    }

    /** List reset of an owning list: takes the elements off the front and destroys them. */
    method ResetList(r: Releases)
      requires forall i :: i in objectList && i.ObjItem? ==> i.o.cache == null
      modifies this`objectList, r
      ensures r.dead == old(r.dead) + old(objectList)
      ensures objectList == []
    {
      ghost var items := objectList;
      for k := 0 to |objectList|
        invariant objectList == items[k..]
        invariant r.dead == old(r.dead) + items[..k]
      {
        var e := objectList[0];
        objectList := objectList[1..];
        assert e == items[k] && items[..k + 1] == items[..k] + [e];
        match e {
          case ObjItem(o) =>
            var _ := ObjectDestroy(o, r);
          case ListItem(c) =>
            r.dead := r.dead + [ListItem(c)];
        }
      }
    }

    /** The for_each of __clear_cache_flag_in_object_list over `object_list`. */
    method ClearMarks()
      modifies Objects()
      ensures forall o :: o in Objects() ==> o.cache == null
    {
      for i := 0 to |objectList|
        invariant objectList == old(objectList)
        invariant forall j :: 0 <= j < i && objectList[j].ObjItem? ==> objectList[j].o.cache == null
      {
        if objectList[i].ObjItem? {
          assert objectList[i].o in Objects();
          objectList[i].o.cache := null;
        }
      }
    }
  }

  /** What has really been destroyed, in order. */
  class Releases {
    var dead: seq<Item>
  }

  /** object_destroy: an object that belongs to a cache is given back, any other is destroyed. */
  method ObjectDestroy(o: CachedObj, r: Releases) returns (ret: int)
    requires o.cache != null ==> o.cache.Valid() && o in o.cache.held
    modifies if o.cache == null then {r} else {o, o.cache}
    ensures ret == 1 && o.cache == old(o.cache)
    ensures o.cache == null ==> r.dead == old(r.dead) + [ObjItem(o)]
    ensures o.cache != null ==>
              && r.dead == old(r.dead)
              && o.cache.Valid() && !o.used
              && o.cls in old(o.cache.classMap)
              && FreeOf(o.cache.classMap, o.cls) == FreeOf(old(o.cache.classMap), o.cls) + [o]
              && o.cache.State() == GiveBack(old(o.cache.State()), o)
  {
    var cache := o.cache;
    if cache != null {
      GiveBackOk(cache.State(), o);
      if o.cls !in cache.classMap {
        return -1;
      }
      o.Reset();
      cache.classMap := cache.classMap[o.cls := cache.classMap[o.cls] + [o]];
      cache.held := cache.held - {o};
      cache.run := cache.run + [Give(o.cls)];
    } else {
      r.dead := r.dead + [ObjItem(o)];
    }
    return 1;
  }

  /** A client works with an object it holds; the cache does not mind. */
  method Use(cache: Cache, o: CachedObj)
    requires cache.Valid() && o in cache.held
    modifies o`used
    ensures cache.Valid() && o.used && cache.State() == old(cache.State())
  {
    o.used := true;
  }

  // ------------------------------------------------------------------ what follows

  /**
   In every reachable state the number of objects ever created for a class is the largest number
   of that class ever outstanding at once: never exceeded, and reached at some moment of the run.
   */
  lemma CreatedIsPeak(p: Pool, c: string)
    requires PoolOk(p)
    ensures forall k :: 0 <= k <= |p.run| ==> Outstanding(p.run[..k], c) <= Created(p.items, c)
    ensures exists k :: 0 <= k <= |p.run| && Outstanding(p.run[..k], c) == Created(p.items, c)
  {
    assert CountsOk(p, c);
    forall k | 0 <= k <= |p.run| ensures Outstanding(p.run[..k], c) <= Created(p.items, c) {
      HighWaterBounds(p.run, c, k);
    }
    var k := HighWaterReached(p.run, c);
  }
}
