/**
 The allocator of executable stub areas (src/stub/admin.c): areas are cut from a placeholder one
 after the other, and returned stubs are reused before new space is cut.
 */
module StubAdmin {
  import opened Prelude

  class Stub {
    const area: int

    constructor (area: int)
      ensures this.area == area
    {
      this.area := area;
    }
  }

  datatype Placeholder = Placeholder(addr: int, size: int)

  /** `admin->cur`: unset, a placeholder with the index of its free space, or already released memory. */
  datatype Current = NoPlaceholder | Current(holder: Placeholder, index: int) | Released

  /** No two areas overlap; areas are handed out at ascending addresses. */
  ghost predicate Apart(stubs: seq<Stub>, areaSize: int) {
    forall i, j :: 0 <= i < j < |stubs| ==> stubs[i].area + areaSize <= stubs[j].area
  }

  ghost predicate Inside(stubs: seq<Stub>, areaSize: int, p: Placeholder) {
    forall i :: 0 <= i < |stubs| ==> p.addr <= stubs[i].area && stubs[i].area + areaSize <= p.addr + p.size
  }

  class Admin {
    /** sizeof(stub_exec_area_t) */
    const areaSize: int
    var placeholders: seq<Placeholder>
    var freeStubs: seq<Stub>
    var cur: Current
    /** Every stub ever created, oldest first, and the stubs clients hold. */
    ghost var created: seq<Stub>
    ghost var held: set<Stub>

    /** The created stubs fill the current placeholder from its start up to its index. */
    ghost predicate Filled()
      reads this
    {
      cur.Current? ==>
        && cur.index >= 0
        && (created == [] ==> cur.index == 0)
        && (created != [] ==> created[0].area == cur.holder.addr)
        && Inside(created, areaSize, Placeholder(cur.holder.addr, cur.index))
        && (cur.holder.size >= areaSize ==> cur.index <= cur.holder.size)
    }

    ghost predicate Valid()
      reads this
    {
      && areaSize > 0
      && (cur.NoPlaceholder? ==> created == [])
      && Apart(created, areaSize)
      && Filled()
      && Distinct(freeStubs)
      && (forall s :: s in freeStubs ==> s !in held && s in created)
      && (forall s :: s in held ==> s in created)
      && (forall s :: s in created ==> s in held || s in freeStubs)
    }

    constructor (areaSize: int, addr: int, size: int)
      requires areaSize > 0
      ensures Valid() && this.areaSize == areaSize && held == {} && created == []
      ensures placeholders == [Placeholder(addr, size)] && cur == NoPlaceholder
    {
      this.areaSize := areaSize;
      placeholders := [Placeholder(addr, size)];
      freeStubs := [];
      cur := NoPlaceholder;
      created := [];
      held := {};
    }

    /**
     stub_admin_alloc; with no returned stub at hand, for as long as the first placeholder has not
     been found exhausted. The remaining size is compared as an unsigned number, so a negative
     one counts as large.
     */
    method Alloc() returns (r: Stub?)
      requires Valid() && (freeStubs == [] ==> !cur.Released?)
      modifies this
      ensures Valid()
      ensures r != null ==>
                var s: Stub := r;
                s !in old(held) && held == old(held) + {s} && s in created
      ensures r == null ==> held == old(held) && created == old(created) && freeStubs == old(freeStubs)
      ensures old(freeStubs) != [] ==>
                r == old(freeStubs)[0] && freeStubs == old(freeStubs)[1..] && created == old(created) && cur == old(cur)
      ensures old(freeStubs) == [] ==>
                freeStubs == [] && (r != null ==> var s: Stub := r; fresh(s) && created == old(created) + [s])
      ensures r == null <==>
                old(freeStubs) == [] && (if old(cur).NoPlaceholder? then old(placeholders) == []
                                         else 0 <= old(cur).holder.size - old(cur).index < areaSize)
      ensures old(freeStubs) == [] && r != null ==>
                var from := if old(cur).Current? then old(cur) else Current(old(placeholders)[0], 0);
                r.area == from.holder.addr + from.index && cur == from.(index := from.index + areaSize)
    {
      if |freeStubs| > 0 {
        r := freeStubs[0];
        freeStubs := freeStubs[1..];
        held := held + {r};
        return;
      }
      if cur.NoPlaceholder? {
        if placeholders == [] {
          return null;
        }
        cur := Current(placeholders[0], 0);
        placeholders := placeholders[1..];
      } else if 0 <= cur.holder.size - cur.index < areaSize {
        cur := Released;
        return null;
      }
      r := Carve();
    }

    /** The part of stub_admin_alloc that cuts a new area. */
    method Carve() returns (s: Stub)
      requires Valid() && cur.Current? && freeStubs == []
      requires !(0 <= cur.holder.size - cur.index < areaSize) || (created == [] && cur.index == 0)
      modifies this
      ensures Valid() && fresh(s) && s !in old(held)
      ensures created == old(created) + [s] && held == old(held) + {s} && freeStubs == []
      ensures s.area == old(cur).holder.addr + old(cur).index
      ensures cur == old(cur).(index := old(cur).index + areaSize)
    {
      s := new Stub(cur.holder.addr + cur.index);
      cur := cur.(index := cur.index + areaSize);
      created := created + [s];
      held := held + {s};
    }

    /** stub_admin_free: the stub waits behind the ones returned before it. */
    method Free(s: Stub)
      requires Valid() && s in held
      modifies this
      ensures Valid()
      ensures freeStubs == old(freeStubs) + [s] && held == old(held) - {s}
      ensures created == old(created) && cur == old(cur) && placeholders == old(placeholders)
    {
      freeStubs := freeStubs + [s];
      held := held - {s};
    }

    /** Everything handed out lies inside the placeholder exactly when that is at least one area long. */
    lemma InsideIffLongEnough()
      requires Valid() && cur.Current? && created != []
      ensures Inside(created, areaSize, cur.holder) <==> cur.holder.size >= areaSize
    {
      var bounds := Placeholder(cur.holder.addr, cur.index);
      assert Inside(created, areaSize, bounds);
      if Inside(created, areaSize, cur.holder) {
        assert created[0].area + areaSize <= cur.holder.addr + cur.holder.size;
      }
    }
  }
}
