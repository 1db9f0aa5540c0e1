/**
 Object construction, overriding and destruction (src/core/object.c, and the slot writer
 `__set` of src/core/Obj.c). An object carries one slot per class of its chain and function
 name; a slot that is absent from `slots` is NULL.
 */
module ObjectRuntime {
  import opened Prelude
  import opened ClassTable

  type Slots = map<(string, string), Fn>

  function SlotOf(slots: Slots, c: string, name: string): Option<Fn> {
    if (c, name) in slots then Some(slots[(c, name)]) else None
  }

  function Write(slots: Slots, c: string, name: string, value: Option<Fn>): Slots {
    match value
    case Some(f) => slots[(c, name) := f]
    case None => slots - {(c, name)}
  }

  /** Constructor and destructor calls; a constructor call records the slots it could see. */
  datatype Event =
    | Constructed(cls: string, fn: Fn, seen: Slots)
    | Destructed(cls: string, fn: Fn)

  function Classes(log: seq<Event>): (r: seq<string>)
    ensures |r| == |log|
  {
    seq(|log|, i requires 0 <= i < |log| => log[i].cls)
  }

  class Obj {
    const name: string
    var targetName: string
    var slots: Slots
    var log: seq<Event>

    constructor (name: string)
      ensures this.name == name && slots == map[] && log == []
    {
      this.name := name;
      targetName := "";
      slots := map[];
      log := [];
    }
  }

  // ------------------------------------------------- what the slots must become

  /** The final content of slot (c, name) of an object of class `target`. */
  ghost function FinalSlot(reg: Registry, target: string, c: string, name: string): Option<Fn>
    requires WellFormed(reg) && target in reg && c in reg
  {
    if IsVirtual(reg[c], name) then Resolve(reg, target, name) else OwnPrivate(reg[c], name)
  }

  /** The slots of every class on `c`'s chain are final for an object of class `target`. */
  ghost predicate Settled(reg: Registry, target: string, c: string, slots: Slots)
    requires WellFormed(reg) && target in reg && c in reg
  {
    forall d, n :: d in Chain(reg, c) ==> SlotOf(slots, d, n) == FinalSlot(reg, target, d, n)
  }

  /** The root class of the chain provides the virtual slot writer `set`. */
  ghost predicate HasSet(reg: Registry, c: string)
    requires WellFormed(reg) && c in reg
  {
    var chain := Chain(reg, c);
    OwnVirtual(reg[chain[|chain| - 1]], "set").Some?
  }

  /** The members of `classes`, in order, that define the private function `name`. */
  ghost function Having(reg: Registry, classes: seq<string>, name: string): (r: seq<string>)
    requires forall i :: 0 <= i < |classes| ==> classes[i] in reg
    ensures forall c :: c in r <==> c in classes && OwnPrivate(reg[c], name).Some?
  {
    if classes == [] then []
    else (if OwnPrivate(reg[classes[0]], name).Some? then [classes[0]] else []) + Having(reg, classes[1..], name)
  }

  lemma {:induction false} HasSetResolves(reg: Registry, c: string)
    requires WellFormed(reg) && c in reg
    ensures HasSet(reg, c) ==> Resolve(reg, c, "set").Some?
    ensures ParentName(reg[c]).Some? ==> HasSet(reg, c) == HasSet(reg, ParentName(reg[c]).value)
    ensures ParentName(reg[c]).None? ==> HasSet(reg, c) == Resolve(reg, c, "set").Some?
    decreases Ranking(reg)[c]
  {
    ResolveUnfold(reg, c, "set");
    if ParentName(reg[c]).Some? {
      HasSetResolves(reg, ParentName(reg[c]).value);
    }
  }

  // ------------------------------------------------------- what each pass writes

  /** The three passes over a class table while an object is initialised. */
  datatype Pass = Own | Inherit | Override

  /** What a pass over class `c` writes for entry `e` of an object of class `target`, if anything. */
  ghost function PassValue(reg: Registry, target: string, c: string, pass: Pass, e: Entry): Option<Fn>
    requires WellFormed(reg) && target in reg && c in Chain(reg, target)
  {
    match pass
    case Own => if e.kind in {Virtual, Private} then e.value else None
    case Inherit => if e.kind == Virtual && e.value.None? then Resolve(reg, c, e.name) else None
    case Override => if e.kind == Virtual then FirstVirtual(reg, ChainTo(reg, target, c), e.name) else None
  }

  /** `after` is `before` with what the pass writes for the entries `info` laid over it. */
  ghost predicate Written(reg: Registry, target: string, c: string, pass: Pass, info: Info, before: Slots, after: Slots)
    requires WellFormed(reg) && target in reg && c in Chain(reg, target)
  {
    forall d, n {:trigger SlotOf(after, d, n)} ::
      SlotOf(after, d, n) ==
      if d == c && Find(info, n).Some? && PassValue(reg, target, c, pass, Find(info, n).value).Some?
      then PassValue(reg, target, c, pass, Find(info, n).value) else SlotOf(before, d, n)
  }

  lemma WriteStep(reg: Registry, target: string, c: string, pass: Pass, i: nat,
                  before: Slots, mid: Slots, after: Slots)
    requires WellFormed(reg) && target in reg && c in Chain(reg, target) && i < |reg[c]|
    requires Written(reg, target, c, pass, reg[c][..i], before, mid)
    requires var v := PassValue(reg, target, c, pass, reg[c][i]);
             after == if v.Some? then Write(mid, c, reg[c][i].name, v) else mid
    ensures Written(reg, target, c, pass, reg[c][..i + 1], before, after)
  {
    var info := reg[c];
    assert info[..i + 1][..i] == info[..i];
    FindSound(info[..i], info[i].name);
    forall d, n
      ensures SlotOf(after, d, n) ==
              if && d == c && Find(info[..i + 1], n).Some?
                 && PassValue(reg, target, c, pass, Find(info[..i + 1], n).value).Some?
              then PassValue(reg, target, c, pass, Find(info[..i + 1], n).value) else SlotOf(before, d, n)
    {
      assert SlotOf(mid, d, n) == SlotOf(before, d, n) || (d == c && Find(info[..i], n).Some?);
    }
  }

  /** The relation between the slots before, between and after the passes over class `c`. */
  ghost predicate Passes(reg: Registry, target: string, c: string, s0: Slots, s1: Slots, s2: Slots, s3: Slots)
    requires WellFormed(reg) && target in reg && c in Chain(reg, target)
  {
    && Written(reg, target, c, Own, reg[c], s0, s1)
    && (if ParentName(reg[c]).Some? then Written(reg, target, c, Inherit, reg[c], s1, s2) else s2 == s1)
    && (if c != target then Written(reg, target, c, Override, reg[c], s2, s3) else s3 == s2)
  }

  /** The first pass fills a NULL slot with the class's own function. */
  lemma OwnPass(reg: Registry, target: string, c: string, s0: Slots, s1: Slots, n: string)
    requires WellFormed(reg) && target in reg && c in Chain(reg, target)
    requires Written(reg, target, c, Own, reg[c], s0, s1) && SlotOf(s0, c, n).None?
    ensures SlotOf(s1, c, n) == if IsFunction(reg[c], n) then Find(reg[c], n).value.value else None
  {
    FindSound(reg[c], n);
  }

  /** The second pass changes nothing but NULL virtual entries. */
  lemma InheritPass(reg: Registry, target: string, c: string, s1: Slots, s2: Slots, n: string)
    requires WellFormed(reg) && target in reg && c in Chain(reg, target)
    requires Written(reg, target, c, Inherit, reg[c], s1, s2)
    ensures SlotOf(s2, c, n) ==
            if IsVirtual(reg[c], n) && Find(reg[c], n).value.value.None? && Resolve(reg, c, n).Some?
            then Resolve(reg, c, n) else SlotOf(s1, c, n)
  {
    FindSound(reg[c], n);
  }

  /** Before the last pass a virtual slot holds what the class alone would resolve to. */
  lemma PassesInherit(reg: Registry, target: string, c: string, s0: Slots, s1: Slots, s2: Slots, s3: Slots, n: string)
    requires WellFormed(reg) && target in reg && c in Chain(reg, target)
    requires Passes(reg, target, c, s0, s1, s2, s3) && SlotOf(s0, c, n).None?
    ensures SlotOf(s2, c, n) == if IsVirtual(reg[c], n) then Resolve(reg, c, n) else OwnPrivate(reg[c], n)
  {
    ResolveUnfold(reg, c, n);
    OwnPass(reg, target, c, s0, s1, n);
    if ParentName(reg[c]).Some? {
      InheritPass(reg, target, c, s1, s2, n);
    }
  }

  /** After all passes over class `c`, its slots are final and nothing else has changed. */
  lemma PassesSettle(reg: Registry, target: string, c: string, s0: Slots, s1: Slots, s2: Slots, s3: Slots)
    requires WellFormed(reg) && target in reg && c in Chain(reg, target)
    requires Passes(reg, target, c, s0, s1, s2, s3) && forall n :: SlotOf(s0, c, n).None?
    ensures forall n :: SlotOf(s3, c, n) == FinalSlot(reg, target, c, n)
    ensures forall d, n :: d != c ==> SlotOf(s3, d, n) == SlotOf(s0, d, n)
  {
    forall n ensures SlotOf(s3, c, n) == FinalSlot(reg, target, c, n) {
      PassesInherit(reg, target, c, s0, s1, s2, s3, n);
      FindSound(reg[c], n);
      ResolveSplit(reg, target, c, n);
    }
    forall d, n | d != c ensures SlotOf(s3, d, n) == SlotOf(s0, d, n) {
      assert SlotOf(s2, d, n) == SlotOf(s1, d, n) == SlotOf(s0, d, n);
    }
  }

  // -------------------------------------------------------------- slot writing

  /** Obj's `__set`: writes the slot named `attrib` of the class the object currently targets. */
  method Set(reg: Registry, obj: Obj, attrib: string, value: Option<Fn>)
    requires WellFormed(reg) && obj.targetName in reg
    modifies obj`slots
    ensures obj.slots == if IsFunction(reg[obj.targetName], attrib)
                         then Write(old(obj.slots), obj.targetName, attrib, value) else old(obj.slots)
  {
    var entry := GetEntry(reg[obj.targetName], attrib);
    if entry.Some? && entry.value.kind in {Virtual, Private} {
      obj.slots := Write(obj.slots, obj.targetName, attrib, value);
    }
  }

  /** __object_init_funcs: every function entry that has a value. */
  method InitFuncs(reg: Registry, obj: Obj, c: string, ghost target: string) returns (ret: int)
    requires WellFormed(reg) && target in reg && c in Chain(reg, target) && obj.targetName == c
    modifies obj`slots
    ensures ret == if Resolve(reg, c, "set").Some? then 1 else -1
    ensures ret == -1 ==> obj.slots == old(obj.slots)
    ensures ret == 1 ==> Written(reg, target, c, Own, reg[c], old(obj.slots), obj.slots)
  {
    var set_ := GetLatestVirtual(reg, c, "set");
    if set_.None? {
      return -1;
    }
    var info := reg[c];
    for i := 0 to |info|
      invariant Written(reg, target, c, Own, info[..i], old(obj.slots), obj.slots)
    {
      ghost var mid := obj.slots;
      FindComplete(info, i);
      if info[i].kind in {Private, Virtual} {
        if info[i].value.Some? {
          Set(reg, obj, info[i].name, info[i].value);
        }
      }
      WriteStep(reg, target, c, Own, i, old(obj.slots), mid, obj.slots);
    }
    assert info[..|info|] == info;
    return 1;
  }

  /** __object_inherit_funcs: every virtual entry that is NULL, from the nearest ancestor that has it. */
  method InheritFuncs(reg: Registry, obj: Obj, c: string, ghost target: string) returns (ret: int)
    requires WellFormed(reg) && target in reg && c in Chain(reg, target) && obj.targetName == c
    modifies obj`slots
    ensures ret == if Resolve(reg, c, "set").Some? then 1 else -1
    ensures ret == -1 ==> obj.slots == old(obj.slots)
    ensures ret == 1 ==> Written(reg, target, c, Inherit, reg[c], old(obj.slots), obj.slots)
  {
    var set_ := GetLatestVirtual(reg, c, "set");
    if set_.None? {
      return -1;
    }
    var info := reg[c];
    for i := 0 to |info|
      invariant Written(reg, target, c, Inherit, info[..i], old(obj.slots), obj.slots)
    {
      ghost var mid := obj.slots;
      FindComplete(info, i);
      if info[i].value.None? && info[i].kind == Virtual {
        var func := GetLatestVirtual(reg, c, info[i].name);
        if func.Some? {
          Set(reg, obj, info[i].name, func);
        }
      }
      WriteStep(reg, target, c, Inherit, i, old(obj.slots), mid, obj.slots);
    }
    assert info[..|info|] == info;
    return 1;
  }

  /** __object_override_virtual_func: every virtual entry that a class below `c` implements. */
  method OverrideVirtuals(reg: Registry, obj: Obj, c: string, target: string) returns (ret: int)
    requires WellFormed(reg) && target in reg && c in Chain(reg, target) && obj.targetName == c
    modifies obj`slots
    ensures c == target ==> ret == 0 && obj.slots == old(obj.slots)
    ensures c != target ==> ret == if Resolve(reg, c, "set").Some? then 1 else -1
    ensures ret == -1 ==> obj.slots == old(obj.slots)
    ensures ret == 1 ==> Written(reg, target, c, Override, reg[c], old(obj.slots), obj.slots)
  {
    if c == target {
      return 0;
    }
    var set_ := GetLatestVirtual(reg, c, "set");
    if set_.None? {
      return -1;
    }
    var info := reg[c];
    for i := 0 to |info|
      invariant Written(reg, target, c, Override, info[..i], old(obj.slots), obj.slots)
    {
      ghost var mid := obj.slots;
      FindComplete(info, i);
      if info[i].kind == Virtual {
        var func := GetLatestVirtualBetween(reg, target, c, info[i].name);
        if func.Some? {
          Set(reg, obj, info[i].name, func);
        }
      }
      WriteStep(reg, target, c, Override, i, old(obj.slots), mid, obj.slots);
    }
    assert info[..|info|] == info;
    return 1;
  }

  // -------------------------------------------------------------- construction

  /** Constructor of `e.cls`, run when every slot of that class and its ancestors was final. */
  ghost predicate RanSettled(reg: Registry, target: string, e: Event)
    requires WellFormed(reg) && target in reg
  {
    && e.Constructed?
    && e.cls in reg
    && OwnPrivate(reg[e.cls], "construct") == Some(e.fn)
    && Settled(reg, target, e.cls, e.seen)
  }

  /** The events that initialising class `c` of an object of class `target` adds to its log. */
  ghost predicate ConstructionLog(reg: Registry, target: string, c: string, events: seq<Event>)
    requires WellFormed(reg) && target in reg && c in reg
  {
    && Classes(events) == Reverse(Having(reg, Chain(reg, c), "construct"))
    && forall e :: e in events ==> RanSettled(reg, target, e)
  }

  /** Ancestors other than `c` itself. */
  ghost function Above(reg: Registry, c: string): seq<string>
    requires WellFormed(reg) && c in reg
    ensures forall d :: d in Above(reg, c) ==> d in reg
  {
    Chain(reg, c)[1..]
  }

  lemma HavingUnfold(reg: Registry, c: string, name: string)
    requires WellFormed(reg) && c in reg
    ensures Having(reg, Chain(reg, c), name) ==
            (if OwnPrivate(reg[c], name).Some? then [c] else []) + Having(reg, Above(reg, c), name)
  {
  }

  lemma HavingStep(reg: Registry, c: string, name: string)
    requires WellFormed(reg) && c in reg
    ensures Reverse(Having(reg, Chain(reg, c), name)) ==
            Reverse(Having(reg, Above(reg, c), name)) + if OwnPrivate(reg[c], name).Some? then [c] else []
  {
    HavingUnfold(reg, c, name);
    var above := Having(reg, Above(reg, c), name);
    if OwnPrivate(reg[c], name).Some? {
      assert ([c] + above)[1..] == above;
    } else {
      assert [] + above == above;
    }
  }

  lemma ClassesAppend(events: seq<Event>, e: Event)
    ensures Classes(events + [e]) == Classes(events) + [e.cls]
  {
  }

  ghost predicate Blank(reg: Registry, c: string, slots: Slots)
    requires WellFormed(reg) && c in reg
  {
    forall d, n :: d in Chain(reg, c) ==> SlotOf(slots, d, n).None?
  }

  ghost predicate SameOff(classes: seq<string>, before: Slots, after: Slots) {
    forall d, n :: d !in classes ==> SlotOf(after, d, n) == SlotOf(before, d, n)
  }

  lemma AboveParent(reg: Registry, c: string)
    requires WellFormed(reg) && c in reg
    ensures Above(reg, c) == if ParentName(reg[c]).Some? then Chain(reg, ParentName(reg[c]).value) else []
    ensures c !in Above(reg, c)
    ensures forall d :: d in Chain(reg, c) <==> d == c || d in Above(reg, c)
  {
    ChainRanks(reg, c);
  }

  /** What is settled and logged above `c`, extended by what initialising `c` adds. */
  lemma ClassDone(reg: Registry, target: string, c: string, s0: Slots, s: Slots, log0: seq<Event>, log: seq<Event>)
    requires WellFormed(reg) && target in reg && c in reg
    requires forall d, n :: d in Above(reg, c) ==> SlotOf(s0, d, n) == FinalSlot(reg, target, d, n)
    requires forall n :: SlotOf(s, c, n) == FinalSlot(reg, target, c, n)
    requires SameOff([c], s0, s)
    requires Classes(log0) == Reverse(Having(reg, Above(reg, c), "construct"))
    requires forall e :: e in log0 ==> RanSettled(reg, target, e)
    requires var ctor := OwnPrivate(reg[c], "construct");
             log == log0 + if ctor.Some? then [Constructed(c, ctor.value, s)] else []
    ensures Settled(reg, target, c, s)
    ensures ConstructionLog(reg, target, c, log)
  {
    AboveParent(reg, c);
    forall d, n | d in Chain(reg, c) ensures SlotOf(s, d, n) == FinalSlot(reg, target, d, n) {
      if d != c {
        assert d !in [c];
      }
    }
    HavingStep(reg, c, "construct");
    var ctor := OwnPrivate(reg[c], "construct");
    if ctor.Some? {
      ClassesAppend(log0, Constructed(c, ctor.value, s));
    } else {
      assert log == log0;
    }
  }

  lemma SameOffTrans(reg: Registry, c: string, s0: Slots, s1: Slots, s2: Slots)
    requires WellFormed(reg) && c in reg
    requires SameOff(Above(reg, c), s0, s1) && SameOff([c], s1, s2)
    ensures SameOff(Chain(reg, c), s0, s2)
  {
    AboveParent(reg, c);
    forall d, n | d !in Chain(reg, c) ensures SlotOf(s2, d, n) == SlotOf(s0, d, n) {
      assert d !in [c];
    }
  }

  /** The part of __object_init that follows the parent: three passes, then the constructor. */
  method InitClass(reg: Registry, obj: Obj, c: string, target: string) returns (ret: int)
    requires WellFormed(reg) && target in reg && c in Chain(reg, target)
    requires forall n :: SlotOf(obj.slots, c, n).None?
    modifies obj
    ensures ret == if Resolve(reg, c, "set").Some? then 1 else -1
    ensures ret == -1 ==> obj.slots == old(obj.slots) && obj.log == old(obj.log)
    ensures ret == 1 ==>
              && obj.targetName == c
              && (forall n :: SlotOf(obj.slots, c, n) == FinalSlot(reg, target, c, n))
              && SameOff([c], old(obj.slots), obj.slots)
              && var ctor := OwnPrivate(reg[c], "construct");
                 obj.log == old(obj.log) + if ctor.Some? then [Constructed(c, ctor.value, obj.slots)] else []
  {
    var ctor := GetPrivateFunc(reg[c], "construct");
    var parent := GetParentEntry(reg[c]);
    ghost var s0 := obj.slots;
    obj.targetName := c;
    ret := InitFuncs(reg, obj, c, target);
    if ret < 0 {
      return -1;
    }
    ghost var s1 := obj.slots;
    if parent.Some? {
      ret := InheritFuncs(reg, obj, c, target);
    }
    ghost var s2 := obj.slots;
    ret := OverrideVirtuals(reg, obj, c, target);
    PassesSettle(reg, target, c, s0, s1, s2, obj.slots);
    if ctor.Some? {
      obj.log := obj.log + [Constructed(c, ctor.value, obj.slots)];
    }
    return 1;
  }

  /** __object_init: the parent first, then the class itself. */
  method InitChain(reg: Registry, obj: Obj, c: string, target: string) returns (ret: int)
    requires WellFormed(reg) && target in reg && c in Chain(reg, target)
    requires Blank(reg, c, obj.slots) && obj.log == []
    modifies obj
    ensures ret == if HasSet(reg, c) then 1 else -1
    ensures ret == -1 ==> obj.slots == old(obj.slots) && obj.log == []
    ensures ret == 1 ==>
              && obj.targetName == c
              && Settled(reg, target, c, obj.slots)
              && SameOff(Chain(reg, c), old(obj.slots), obj.slots)
              && ConstructionLog(reg, target, c, obj.log)
    decreases Ranking(reg)[c]
  {
    HasSetResolves(reg, c);
    AboveParent(reg, c);
    var parent := GetParentEntry(reg[c]);
    if parent.Some? {
      ChainOfMember(reg, target, c);
      ret := InitChain(reg, obj, parent.value, target);
      if ret < 0 {
        return -1;
      }
    }
    ghost var s0, log0 := obj.slots, obj.log;
    assert SlotOf(old(obj.slots), c, "").None? && SameOff(Above(reg, c), old(obj.slots), s0);
    ret := InitClass(reg, obj, c, target);
    if ret == 1 {
      ClassDone(reg, target, c, s0, obj.slots, log0, obj.log);
      SameOffTrans(reg, c, old(obj.slots), s0, obj.slots);
    }
  }

  /**
   object_init on a zeroed object: dispatch is coherent on every view of the object.
   */
  method ObjectInit(reg: Registry, obj: Obj, target: string) returns (ret: int)
    requires WellFormed(reg)
    requires obj.slots == map[] && obj.log == []
    modifies obj
    ensures ret == if target in reg && HasSet(reg, target) then 1 else -1
    ensures ret == -1 ==> obj.slots == map[] && obj.log == []
    ensures ret == 1 ==>
              && Settled(reg, target, target, obj.slots)
              && (forall k :: k in obj.slots ==> k.0 in Chain(reg, target))
              && ConstructionLog(reg, target, target, obj.log)
    ensures ret == 1 ==>
              forall c, d, m :: c in Chain(reg, target) && d in Chain(reg, target)
                                && IsVirtual(reg[c], m) && IsVirtual(reg[d], m) ==>
                                SlotOf(obj.slots, c, m) == SlotOf(obj.slots, d, m) == Resolve(reg, target, m)
  {
    if target !in reg {
      return -1;
    }
    ret := InitChain(reg, obj, target, target);
    if ret == 1 {
      forall k | k in obj.slots ensures k.0 in Chain(reg, target) {
        assert SlotOf(obj.slots, k.0, k.1).Some?;
        assert SlotOf(map[], k.0, k.1).None?;
      }
    }
  }

  // --------------------------------------------------------------- destruction

  /** One destructor call per class of `classes`, in that order. */
  ghost function Torn(reg: Registry, classes: seq<string>): (r: seq<Event>)
    requires forall c :: c in classes ==> c in reg && OwnPrivate(reg[c], "deconstruct").Some?
    ensures Classes(r) == classes
  {
    if classes == [] then []
    else [Destructed(classes[0], OwnPrivate(reg[classes[0]], "deconstruct").value)] + Torn(reg, classes[1..])
  }

  /** The destructor calls due when an object of class `c` is destroyed: target first, root last. */
  ghost function Destructions(reg: Registry, c: string): seq<Event>
    requires WellFormed(reg) && c in reg
  {
    Torn(reg, Having(reg, Chain(reg, c), "deconstruct"))
  }

  lemma Concat3<T>(a: seq<T>, b: seq<T>, c: seq<T>)
    ensures a + b + c == a + (b + c)
  {
  }

  lemma DestructionsStep(reg: Registry, c: string, dtor: Option<Fn>, parent: Option<string>)
    requires WellFormed(reg) && c in reg
    requires dtor == OwnPrivate(reg[c], "deconstruct") && parent == ParentName(reg[c])
    ensures Destructions(reg, c) ==
            (if dtor.Some? then [Destructed(c, dtor.value)] else [])
            + if parent.Some? then Destructions(reg, parent.value) else []
  {
    AboveParent(reg, c);
    HavingUnfold(reg, c, "deconstruct");
    var above := Having(reg, Above(reg, c), "deconstruct");
    if dtor.Some? {
      assert ([c] + above)[1..] == above;
    } else {
      assert [] + above == above;
    }
  }

  /** __object_destroy: the class's own destructor, then its parent's. */
  method Destroy(reg: Registry, obj: Obj, c: string)
    requires WellFormed(reg) && c in reg
    modifies obj`log
    ensures obj.log == old(obj.log) + Destructions(reg, c)
    decreases Ranking(reg)[c]
  {
    var dtor := GetPrivateFunc(reg[c], "deconstruct");
    var parent := GetParentEntry(reg[c]);
    ghost var own := if dtor.Some? then [Destructed(c, dtor.value)] else [];
    ghost var above := if parent.Some? then Destructions(reg, parent.value) else [];
    if dtor.Some? {
      obj.log := obj.log + [Destructed(c, dtor.value)];
    }
    assert obj.log == old(obj.log) + own;
    if parent.Some? {
      Destroy(reg, obj, parent.value);
    }
    assert obj.log == old(obj.log) + own + above;
    Concat3(old(obj.log), own, above);
    DestructionsStep(reg, c, dtor, parent);
  }

  lemma {:induction false} HavingSame(reg: Registry, classes: seq<string>, a: string, b: string)
    requires forall i :: 0 <= i < |classes| ==> classes[i] in reg
    requires Distinct(classes)
    requires forall c :: c in classes ==> (OwnPrivate(reg[c], a).Some? <==> OwnPrivate(reg[c], b).Some?)
    ensures Having(reg, classes, a) == Having(reg, classes, b)
    ensures Distinct(Having(reg, classes, a))
  {
    if classes != [] {
      HavingSame(reg, classes[1..], a, b);
    }
  }

  /**
   Where every class pairs a constructor with a destructor, the destructors run in exactly
   the reverse order of the constructors, each once.
   */
  lemma DestructionMirrorsConstruction(reg: Registry, target: string, built: seq<Event>)
    requires WellFormed(reg) && target in reg
    requires forall c :: c in Chain(reg, target) ==>
               (OwnPrivate(reg[c], "construct").Some? <==> OwnPrivate(reg[c], "deconstruct").Some?)
    requires ConstructionLog(reg, target, target, built)
    ensures var torn := Destructions(reg, target);
            Classes(built) == Reverse(Classes(torn)) && Distinct(Classes(torn))
  {
    ChainDistinct(reg, target);
    HavingSame(reg, Chain(reg, target), "construct", "deconstruct");
    HavingSame(reg, Chain(reg, target), "deconstruct", "construct");
  }

  lemma AscendsCons(reg: Registry, c: string, tail: seq<string>)
    requires WellFormed(reg) && Ascends(reg, tail) && forall d :: d in tail ==> ProperAncestor(reg, d, c)
    ensures Ascends(reg, [c] + tail)
  {
    var all := [c] + tail;
    forall i, j | 0 <= i < j < |all| ensures ProperAncestor(reg, all[j], all[i]) {
      assert all[j] == tail[j - 1];
      assert i > 0 ==> all[i] == tail[i - 1];
    }
  }

  lemma {:induction false} HavingAscends(reg: Registry, classes: seq<string>, name: string)
    requires WellFormed(reg) && (forall i :: 0 <= i < |classes| ==> classes[i] in reg) && Ascends(reg, classes)
    ensures Ascends(reg, Having(reg, classes, name))
  {
    if classes != [] {
      var c, rest := classes[0], classes[1..];
      assert Ascends(reg, rest);
      HavingAscends(reg, rest, name);
      forall d | d in Having(reg, rest, name) ensures ProperAncestor(reg, d, c) {
        var j :| 0 <= j < |rest| && rest[j] == d;
        assert classes[j + 1] == d;
      }
      if OwnPrivate(reg[c], name).Some? {
        AscendsCons(reg, c, Having(reg, rest, name));
      } else {
        assert Having(reg, classes, name) == Having(reg, rest, name);
      }
    }
  }

  /** What is due on a chain is due from a class to its ancestors. */
  lemma DueAscends(reg: Registry, target: string, name: string)
    requires WellFormed(reg) && target in reg
    ensures Ascends(reg, Having(reg, Chain(reg, target), name))
  {
    ChainAscends(reg, target);
    HavingAscends(reg, Chain(reg, target), name);
  }

  /** Constructors run each once, an ancestor before its descendants. */
  lemma ConstructionOrder(reg: Registry, target: string, built: seq<Event>, i: nat, j: nat)
    requires WellFormed(reg) && target in reg && ConstructionLog(reg, target, target, built) && i < j < |built|
    ensures ProperAncestor(reg, built[i].cls, built[j].cls)
  {
    DueAscends(reg, target, "construct");
    ReverseDescends(reg, Having(reg, Chain(reg, target), "construct"), Classes(built), i, j);
  }

  lemma ReverseDescends(reg: Registry, classes: seq<string>, back: seq<string>, i: nat, j: nat)
    requires WellFormed(reg) && Ascends(reg, classes) && back == Reverse(classes) && i < j < |back|
    ensures ProperAncestor(reg, back[i], back[j])
  {
    assert back[i] == classes[|classes| - 1 - i] && back[j] == classes[|classes| - 1 - j];
  }

  /** Exactly the classes of the chain that have a constructor are constructed. */
  lemma ConstructedClasses(reg: Registry, target: string, built: seq<Event>, c: string)
    requires WellFormed(reg) && target in reg && ConstructionLog(reg, target, target, built)
    ensures c in Classes(built) <==> c in Chain(reg, target) && OwnPrivate(reg[c], "construct").Some?
  {
    ReverseMembers(Having(reg, Chain(reg, target), "construct"), c);
  }

  lemma ReverseMembers<T>(s: seq<T>, x: T)
    ensures x in Reverse(s) <==> x in s
  {
    if x in s {
      var i :| 0 <= i < |s| && s[i] == x;
      assert Reverse(s)[|s| - 1 - i] == x;
    }
  }

  /** Destructors run each once, a descendant before its ancestors, each the class's own. */
  lemma DestructionOrder(reg: Registry, target: string, i: nat, j: nat)
    requires WellFormed(reg) && target in reg && i < j < |Destructions(reg, target)|
    ensures var torn := Destructions(reg, target); ProperAncestor(reg, torn[j].cls, torn[i].cls)
  {
    DueAscends(reg, target, "deconstruct");
    var torn, due := Destructions(reg, target), Having(reg, Chain(reg, target), "deconstruct");
    assert Classes(torn)[i] == due[i] && Classes(torn)[j] == due[j];
  }

  /** Exactly the classes of the chain that have a destructor are destructed, and by their own one. */
  lemma DestructedClasses(reg: Registry, target: string, c: string, i: nat)
    requires WellFormed(reg) && target in reg
    ensures c in Classes(Destructions(reg, target)) <==>
            c in Chain(reg, target) && OwnPrivate(reg[c], "deconstruct").Some?
    ensures i < |Destructions(reg, target)| ==>
              var e := Destructions(reg, target)[i];
              e.Destructed? && e.cls in reg && OwnPrivate(reg[e.cls], "deconstruct") == Some(e.fn)
  {
    var due := Having(reg, Chain(reg, target), "deconstruct");
    if i < |Destructions(reg, target)| {
      assert |Classes(Torn(reg, due))| == |due|;
      TornAt(reg, due, i);
    }
  }

  lemma {:induction false} TornAt(reg: Registry, classes: seq<string>, i: nat)
    requires forall c :: c in classes ==> c in reg && OwnPrivate(reg[c], "deconstruct").Some?
    requires i < |classes|
    ensures |Torn(reg, classes)| == |classes|
    ensures Torn(reg, classes)[i] == Destructed(classes[i], OwnPrivate(reg[classes[i]], "deconstruct").value)
  {
    assert |Classes(Torn(reg, classes))| == |classes|;
    if i > 0 {
      TornAt(reg, classes[1..], i - 1);
    }
  }

  // ---------------------------------------------------------------- overriding

  /** The slots after `value` has been written as `name` into every class of `classes` that has it. */
  ghost function Overridden(reg: Registry, classes: seq<string>, slots: Slots, name: string, value: Option<Fn>): Slots
    requires forall c :: c in classes ==> c in reg
  {
    if classes == [] then slots
    else
      var above := Overridden(reg, classes[1..], slots, name, value);
      if IsFunction(reg[classes[0]], name) then Write(above, classes[0], name, value) else above
  }

  /** __object_override_virtual_funcs: root first, one write per class of the chain. */
  method OverrideChain(reg: Registry, obj: Obj, c: string, name: string, value: Option<Fn>) returns (ret: int)
    requires WellFormed(reg) && c in reg && HasSet(reg, c)
    modifies obj`slots, obj`targetName
    ensures ret == 1 && obj.targetName == c
    ensures obj.slots == Overridden(reg, Chain(reg, c), old(obj.slots), name, value)
    decreases Ranking(reg)[c]
  {
    HasSetResolves(reg, c);
    AboveParent(reg, c);
    var set_ := GetLatestVirtual(reg, c, "set");
    if set_.None? {
      return -1;
    }
    var parent := GetParentEntry(reg[c]);
    if parent.Some? {
      var _ := OverrideChain(reg, obj, parent.value, name, value);
    }
    obj.targetName := c;
    Set(reg, obj, name, value);
    return 1;
  }

  /** object_override on an object whose initialisation succeeded. */
  method ObjectOverride(reg: Registry, obj: Obj, name: string, value: Option<Fn>) returns (ret: int)
    requires WellFormed(reg) && obj.name in reg && HasSet(reg, obj.name)
    modifies obj`slots, obj`targetName
    ensures ret == 1
    ensures obj.slots == Overridden(reg, Chain(reg, obj.name), old(obj.slots), name, value)
  {
    ret := OverrideChain(reg, obj, obj.name, name, value);
  }

  lemma {:induction false} OverriddenSlot(reg: Registry, classes: seq<string>, slots: Slots,
                                          name: string, value: Option<Fn>, d: string, n: string)
    requires forall c :: c in classes ==> c in reg
    ensures SlotOf(Overridden(reg, classes, slots, name, value), d, n) ==
            if d in classes && n == name && IsFunction(reg[d], n) then value else SlotOf(slots, d, n)
  {
    if classes != [] {
      OverriddenSlot(reg, classes[1..], slots, name, value, d, n);
    }
  }

  /** The slots after a run of `object_override` calls. */
  ghost function AfterOverrides(reg: Registry, classes: seq<string>, slots: Slots,
                                calls: seq<(string, Option<Fn>)>): Slots
    requires forall c :: c in classes ==> c in reg
  {
    if calls == [] then slots
    else
      var (name, value) := calls[|calls| - 1];
      Overridden(reg, classes, AfterOverrides(reg, classes, slots, calls[..|calls| - 1]), name, value)
  }

  /** The value of the last call that names `n`, or `original` when none does. */
  ghost function LastOverride(calls: seq<(string, Option<Fn>)>, n: string, original: Option<Fn>): Option<Fn> {
    if calls == [] then original
    else if calls[|calls| - 1].0 == n then calls[|calls| - 1].1
    else LastOverride(calls[..|calls| - 1], n, original)
  }

  /** It is the last one: later calls name other functions. */
  lemma {:induction false} LastOverrideIsLast(calls: seq<(string, Option<Fn>)>, n: string, original: Option<Fn>, k: nat)
    requires k <= |calls| && (forall i :: k <= i < |calls| ==> calls[i].0 != n)
    ensures LastOverride(calls, n, original) ==
            if k == 0 then original
            else if calls[k - 1].0 == n then calls[k - 1].1 else LastOverride(calls[..k], n, original)
  {
    if k < |calls| {
      var front := calls[..|calls| - 1];
      LastOverrideIsLast(front, n, original, k);
      assert front[..k] == calls[..k];
    } else {
      assert calls[..k] == calls;
    }
  }

  /**
   After any run of overrides of an initialised object every function slot holds the last
   override of its name, or else what initialisation put there.
   */
  lemma {:induction false} OverrideRun(reg: Registry, target: string, slots: Slots,
                                       calls: seq<(string, Option<Fn>)>, d: string, n: string)
    requires WellFormed(reg) && target in reg && d in Chain(reg, target)
    requires Settled(reg, target, target, slots)
    ensures SlotOf(AfterOverrides(reg, Chain(reg, target), slots, calls), d, n) ==
            if IsFunction(reg[d], n) then LastOverride(calls, n, FinalSlot(reg, target, d, n)) else None
  {
    if calls == [] {
      assert SlotOf(slots, d, n) == FinalSlot(reg, target, d, n);
    } else {
      var before := calls[..|calls| - 1];
      var (name, value) := calls[|calls| - 1];
      OverrideRun(reg, target, slots, before, d, n);
      var chain := Chain(reg, target);
      OverriddenSlot(reg, chain, AfterOverrides(reg, chain, slots, before), name, value, d, n);
    }
  }

  /** Dispatch stays coherent over every run of overrides. */
  lemma OverrideKeepsCoherence(reg: Registry, target: string, slots: Slots,
                               calls: seq<(string, Option<Fn>)>, c: string, d: string, m: string)
    requires WellFormed(reg) && target in reg && c in Chain(reg, target) && d in Chain(reg, target)
    requires Settled(reg, target, target, slots)
    requires IsVirtual(reg[c], m) && IsVirtual(reg[d], m)
    ensures var after := AfterOverrides(reg, Chain(reg, target), slots, calls);
            SlotOf(after, c, m) == SlotOf(after, d, m) == LastOverride(calls, m, Resolve(reg, target, m))
  {
    OverrideRun(reg, target, slots, calls, c, m);
    OverrideRun(reg, target, slots, calls, d, m);
  }
}
