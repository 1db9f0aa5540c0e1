/**
 Class tables (src/core/class_deamon.c) and the read-only lookups over them
 (src/core/object.c). A class is a table of entries; its parent, if any, is the
 entry of kind `ParentObj`, which sits at index 0.
 */
module ClassTable {
  import opened Prelude

  /** The address of a C function. */
  datatype Fn = Fn(addr: nat)

  datatype Kind = ParentObj | Private | Virtual | Attribute

  datatype Entry = Entry(kind: Kind, typeName: string, name: string, value: Option<Fn>)

  type Info = seq<Entry>
  type Registry = map<string, Info>

  // ---------------------------------------------------------------- one table

  /** Entry names are distinct, and only index 0 may name a parent. */
  ghost predicate WellFormedInfo(info: Info) {
    && (forall i, j :: 0 <= i < j < |info| ==> info[i].name != info[j].name)
    && (forall i :: 0 < i < |info| ==> info[i].kind != ParentObj)
  }

  /** The entry called `name`, if the table has one. */
  function Find(info: Info, name: string): Option<Entry> {
    if info == [] then None
    else if info[|info| - 1].name == name then Some(info[|info| - 1])
    else Find(info[..|info| - 1], name)
  }

  lemma {:induction false} FindSound(info: Info, name: string)
    ensures Find(info, name).Some? ==>
              exists i :: 0 <= i < |info| && info[i] == Find(info, name).value && info[i].name == name
  {
    if info != [] {
      var n := |info| - 1;
      FindSound(info[..n], name);
      if info[n].name != name && Find(info, name).Some? {
        var i :| 0 <= i < n && info[..n][i] == Find(info, name).value && info[..n][i].name == name;
        assert info[i] == Find(info, name).value;
      }
    }
  }

  lemma {:induction false} FindComplete(info: Info, i: nat)
    requires WellFormedInfo(info) && i < |info|
    ensures Find(info, info[i].name) == Some(info[i])
  {
    var n := |info| - 1;
    if i < n {
      FindComplete(info[..n], i);
    }
  }

  predicate IsVirtual(info: Info, name: string) {
    Find(info, name).Some? && Find(info, name).value.kind == Virtual
  }

  predicate IsFunction(info: Info, name: string) {
    Find(info, name).Some? && Find(info, name).value.kind in {Virtual, Private}
  }

  /** The implementation of virtual function `name` in this very table, or NULL. */
  function OwnVirtual(info: Info, name: string): Option<Fn> {
    if IsVirtual(info, name) then Find(info, name).value.value else None
  }

  /** What that means for the entries of the table. */
  lemma OwnVirtualEntry(info: Info, name: string)
    requires WellFormedInfo(info)
    ensures forall i :: 0 <= i < |info| && info[i].name == name && info[i].kind == Virtual ==>
              IsVirtual(info, name) && OwnVirtual(info, name) == info[i].value
    ensures (forall i :: 0 <= i < |info| && info[i].name == name ==> info[i].kind != Virtual) ==>
              !IsVirtual(info, name) && OwnVirtual(info, name) == None
  {
    FindSound(info, name);
    forall i | 0 <= i < |info| && info[i].name == name ensures Find(info, name) == Some(info[i]) {
      FindComplete(info, i);
    }
  }

  /** The private function `name` of this very table, or NULL. */
  function OwnPrivate(info: Info, name: string): Option<Fn> {
    if Find(info, name).Some? && Find(info, name).value.kind == Private
    then Find(info, name).value.value else None
  }

  function ParentName(info: Info): Option<string> {
    if |info| > 0 && info[0].kind == ParentObj then Some(info[0].typeName) else None
  }

  // ------------------------------------------------------------- the registry

  ghost predicate Ranked(reg: Registry, rank: map<string, nat>) {
    forall c :: c in reg ==>
      && c in rank
      && (var p := ParentName(reg[c]); p.Some? ==> p.value in reg && p.value in rank && rank[p.value] < rank[c])
  }

  /** Every table is well formed, every parent is registered, and no class is its own ancestor. */
  ghost predicate WellFormed(reg: Registry) {
    && (forall c :: c in reg ==> WellFormedInfo(reg[c]))
    && exists rank :: Ranked(reg, rank)
  }

  ghost function Ranking(reg: Registry): (rank: map<string, nat>)
    requires WellFormed(reg)
    ensures Ranked(reg, rank)
  {
    var rank :| Ranked(reg, rank);
    rank
  }

  /** The classes from `c` up to its root. */
  ghost function Chain(reg: Registry, c: string): (chain: seq<string>)
    requires WellFormed(reg) && c in reg
    ensures |chain| > 0 && chain[0] == c
    ensures forall i :: 0 <= i < |chain| ==> chain[i] in reg
    decreases Ranking(reg)[c]
  {
    match ParentName(reg[c])
    case None => [c]
    case Some(p) => [c] + Chain(reg, p)
  }

  /** The classes from `from` up to and including its ancestor `to`. */
  ghost function ChainTo(reg: Registry, from: string, to: string): (chain: seq<string>)
    requires WellFormed(reg) && from in reg && to in Chain(reg, from)
    ensures forall i :: 0 <= i < |chain| ==> chain[i] in reg
    decreases Ranking(reg)[from]
  {
    if from == to then [from] else [from] + ChainTo(reg, ParentName(reg[from]).value, to)
  }

  /** The first non-NULL implementation of `name` met when walking `classes` in order. */
  ghost function FirstVirtual(reg: Registry, classes: seq<string>, name: string): Option<Fn>
    requires forall i :: 0 <= i < |classes| ==> classes[i] in reg
  {
    if classes == [] then None
    else if OwnVirtual(reg[classes[0]], name).Some? then OwnVirtual(reg[classes[0]], name)
    else FirstVirtual(reg, classes[1..], name)
  }

  /** What dispatching `name` on an object of class `c` must reach. */
  ghost function Resolve(reg: Registry, c: string, name: string): Option<Fn>
    requires WellFormed(reg) && c in reg
  {
    FirstVirtual(reg, Chain(reg, c), name)
  }

  lemma ResolveUnfold(reg: Registry, c: string, name: string)
    requires WellFormed(reg) && c in reg
    ensures Resolve(reg, c, name) ==
            if OwnVirtual(reg[c], name).Some? then OwnVirtual(reg[c], name)
            else if ParentName(reg[c]).Some? then Resolve(reg, ParentName(reg[c]).value, name)
            else None
  {
    var rest := Chain(reg, c)[1..];
    assert rest == if ParentName(reg[c]).Some? then Chain(reg, ParentName(reg[c]).value) else [];
    assert OwnVirtual(reg[c], name).None? ==> Resolve(reg, c, name) == FirstVirtual(reg, rest, name);
  }

  /** What is resolved is found on the chain, with only NULL entries before it; nothing, if there are no others. */
  lemma {:induction false} FirstVirtualIsFirst(reg: Registry, classes: seq<string>, name: string)
    requires forall i :: 0 <= i < |classes| ==> classes[i] in reg
    ensures var f := FirstVirtual(reg, classes, name);
            if f.None? then forall i :: 0 <= i < |classes| ==> OwnVirtual(reg[classes[i]], name).None?
            else exists k :: 0 <= k < |classes| && OwnVirtual(reg[classes[k]], name) == f
                             && forall i :: 0 <= i < k ==> OwnVirtual(reg[classes[i]], name).None?
  {
    if classes != [] && OwnVirtual(reg[classes[0]], name).None? {
      var rest := classes[1..];
      FirstVirtualIsFirst(reg, rest, name);
      var f := FirstVirtual(reg, rest, name);
      if f.Some? {
        var k :| 0 <= k < |rest| && OwnVirtual(reg[rest[k]], name) == f
                 && forall i :: 0 <= i < k ==> OwnVirtual(reg[rest[i]], name).None?;
        assert classes[k + 1] == rest[k];
        assert forall i :: 0 < i < k + 1 ==> classes[i] == rest[i - 1];
      }
    }
  }

  // ------------------------------------------------------------- chain lemmas

  /** Each class of a chain is followed by its parent, and the last one has none. */
  lemma {:induction false} ChainLinks(reg: Registry, c: string, i: nat)
    requires WellFormed(reg) && c in reg && i < |Chain(reg, c)|
    ensures var chain := Chain(reg, c);
            ParentName(reg[chain[i]]) == if i + 1 < |chain| then Some(chain[i + 1]) else None
    decreases i
  {
    var p := ParentName(reg[c]);
    if p.Some? {
      assert Chain(reg, c) == [c] + Chain(reg, p.value);
      if i > 0 {
        ChainLinks(reg, p.value, i - 1);
      }
    }
  }

  /** Later classes of a chain are proper ancestors of earlier ones. */
  lemma {:induction false} ChainAscends(reg: Registry, c: string)
    requires WellFormed(reg) && c in reg
    ensures Ascends(reg, Chain(reg, c))
    decreases Ranking(reg)[c]
  {
    var chain := Chain(reg, c);
    ChainDistinct(reg, c);
    if ParentName(reg[c]).Some? {
      var above := Chain(reg, ParentName(reg[c]).value);
      ChainAscends(reg, ParentName(reg[c]).value);
      assert chain == [c] + above;
      forall i, j | 0 <= i < j < |chain| ensures ProperAncestor(reg, chain[j], chain[i]) {
        if i > 0 {
          assert chain[i] == above[i - 1] && chain[j] == above[j - 1];
        }
      }
    }
  }

  ghost predicate ProperAncestor(reg: Registry, a: string, c: string)
    requires WellFormed(reg)
  {
    c in reg && a != c && a in Chain(reg, c)
  }

  ghost predicate Ascends(reg: Registry, classes: seq<string>)
    requires WellFormed(reg)
  {
    forall i, j :: 0 <= i < j < |classes| ==> ProperAncestor(reg, classes[j], classes[i])
  }

  /** Ranks fall strictly along a chain, so no class occurs on it twice. */
  lemma {:induction false} ChainRanks(reg: Registry, c: string)
    requires WellFormed(reg) && c in reg
    ensures forall i :: 0 < i < |Chain(reg, c)| ==> Ranking(reg)[Chain(reg, c)[i]] < Ranking(reg)[c]
    decreases Ranking(reg)[c]
  {
    var p := ParentName(reg[c]);
    if p.Some? {
      ChainRanks(reg, p.value);
      assert Chain(reg, c)[1..] == Chain(reg, p.value);
    }
  }

  lemma {:induction false} ChainDistinct(reg: Registry, c: string)
    requires WellFormed(reg) && c in reg
    ensures Distinct(Chain(reg, c))
    decreases Ranking(reg)[c]
  {
    var p := ParentName(reg[c]);
    if p.Some? {
      ChainRanks(reg, c);
      ChainDistinct(reg, p.value);
      assert Chain(reg, c)[1..] == Chain(reg, p.value);
    }
  }

  /** Being an ancestor is transitive through the parent: a chain contains the chains of its members. */
  lemma {:induction false} ChainOfMember(reg: Registry, c: string, d: string)
    requires WellFormed(reg) && c in reg && d in Chain(reg, c)
    ensures forall e :: e in Chain(reg, d) ==> e in Chain(reg, c)
    decreases Ranking(reg)[c]
  {
    if d != c {
      var p := ParentName(reg[c]).value;
      ChainOfMember(reg, p, d);
    }
  }

  /** A chain is the walk to a member followed by the member's own chain. */
  lemma {:induction false} ChainSplit(reg: Registry, from: string, to: string)
    requires WellFormed(reg) && from in reg && to in Chain(reg, from)
    ensures |ChainTo(reg, from, to)| > 0 && ChainTo(reg, from, to)[|ChainTo(reg, from, to)| - 1] == to
    ensures Chain(reg, from) == ChainTo(reg, from, to) + Chain(reg, to)[1..]
    decreases Ranking(reg)[from]
  {
    if from != to {
      var p := ParentName(reg[from]).value;
      ChainSplit(reg, p, to);
    }
  }

  lemma {:induction false} FirstVirtualAppend(reg: Registry, a: seq<string>, b: seq<string>, name: string)
    requires forall i :: 0 <= i < |a| ==> a[i] in reg
    requires forall i :: 0 <= i < |b| ==> b[i] in reg
    ensures forall i :: 0 <= i < |a + b| ==> (a + b)[i] in reg
    ensures FirstVirtual(reg, a + b, name) ==
            (if FirstVirtual(reg, a, name).Some? then FirstVirtual(reg, a, name) else FirstVirtual(reg, b, name))
  {
    if a == [] {
      assert a + b == b;
    } else {
      assert (a + b)[1..] == a[1..] + b;
      FirstVirtualAppend(reg, a[1..], b, name);
    }
  }

  lemma {:induction false} FirstVirtualNone(reg: Registry, a: seq<string>, name: string, i: nat)
    requires forall i :: 0 <= i < |a| ==> a[i] in reg
    requires FirstVirtual(reg, a, name).None? && i < |a|
    ensures OwnVirtual(reg[a[i]], name).None?
  {
    if i > 0 {
      FirstVirtualNone(reg, a[1..], name, i - 1);
    }
  }

  /**
   The walk that stops at `to` and, should it find nothing, the walk that starts at `to`
   together give what the whole walk from `from` gives.
   */
  lemma ResolveSplit(reg: Registry, from: string, to: string, name: string)
    requires WellFormed(reg) && from in reg && to in Chain(reg, from)
    ensures to in reg
    ensures Resolve(reg, from, name) ==
            (if FirstVirtual(reg, ChainTo(reg, from, to), name).Some?
             then FirstVirtual(reg, ChainTo(reg, from, to), name) else Resolve(reg, to, name))
  {
    var walk := ChainTo(reg, from, to);
    ChainSplit(reg, from, to);
    FirstVirtualAppend(reg, walk, Chain(reg, to)[1..], name);
    if FirstVirtual(reg, walk, name).None? {
      FirstVirtualNone(reg, walk, name, |walk| - 1);
    }
  }

  // ------------------------------------------------------- the lookup routines

  /** __object_get_private_func_of_class */
  method GetPrivateFunc(info: Info, name: string) returns (f: Option<Fn>)
    requires WellFormedInfo(info)
    ensures f == OwnPrivate(info, name)
    ensures forall i :: 0 <= i < |info| && info[i].name == name && info[i].kind == Private ==> f == info[i].value
    ensures (forall i :: 0 <= i < |info| && info[i].name == name ==> info[i].kind != Private) ==> f == None
  {
    for i := 0 to |info|
      invariant forall j :: 0 <= j < i ==> !(info[j].name == name && info[j].kind == Private)
    {
      if info[i].name == name && info[i].kind == Private {
        FindComplete(info, i);
        return info[i].value;
      }
    }
    FindSound(info, name);
    return None;
  }

  /** __object_get_entry_of_parent_class: scans the whole table for a parent entry. */
  method GetParentEntry(info: Info) returns (p: Option<string>)
    requires WellFormedInfo(info)
    ensures p == ParentName(info)
  {
    for i := 0 to |info|
      invariant forall j :: 0 <= j < i ==> info[j].kind != ParentObj
    {
      if info[i].kind == ParentObj {
        return Some(info[i].typeName);
      }
    }
    return None;
  }

  /** __object_get_lastest_vitual_func: own non-NULL virtual entry, else ask the parent. */
  method GetLatestVirtual(reg: Registry, c: string, name: string) returns (f: Option<Fn>)
    requires WellFormed(reg) && c in reg
    ensures f == Resolve(reg, c, name)
    decreases Ranking(reg)[c]
  {
    var info := reg[c];
    for i := 0 to |info|
      invariant forall j :: 0 <= j < i ==> !(info[j].name == name && info[j].kind == Virtual && info[j].value.Some?)
    {
      if info[i].name == name && info[i].value.Some? && info[i].kind == Virtual {
        FindComplete(info, i);
        return info[i].value;
      }
    }
    FindSound(info, name);
    assert OwnVirtual(info, name).None?;
    ResolveUnfold(reg, c, name);
    if |info| > 0 && info[0].kind == ParentObj {
      f := GetLatestVirtual(reg, info[0].typeName, name);
    } else {
      f := None;
    }
  }

  /** object_get_lastest_virtual_func: the same walk, but never past class `to`. */
  method GetLatestVirtualBetween(reg: Registry, from: string, to: string, name: string) returns (f: Option<Fn>)
    requires WellFormed(reg) && from in reg && to in Chain(reg, from)
    ensures f == FirstVirtual(reg, ChainTo(reg, from, to), name)
    decreases Ranking(reg)[from]
  {
    var info := reg[from];
    var super := if |info| > 0 && info[0].kind == ParentObj then Some(info[0].typeName) else None;
    var i := 0;
    while i < |info|
      invariant 0 <= i <= |info|
      invariant forall j :: 0 <= j < i ==> !(info[j].name == name && info[j].kind == Virtual)
    {
      if info[i].kind == Virtual && info[i].name == name {
        FindComplete(info, i);
        if info[i].value.None? {
          break;
        }
        return info[i].value;
      }
      i := i + 1;
    }
    FindSound(info, name);
    assert OwnVirtual(info, name).None?;
    if from == to {
      f := None;
    } else {
      f := GetLatestVirtualBetween(reg, super.value, to, name);
      assert ChainTo(reg, from, to)[1..] == ChainTo(reg, super.value, to);
    }
  }

  /** __object_get_entry_of_class: the first entry of any kind with this name. */
  method GetEntry(info: Info, name: string) returns (e: Option<Entry>)
    requires WellFormedInfo(info)
    ensures e == Find(info, name)
    ensures forall i :: 0 <= i < |info| && info[i].name == name ==> e == Some(info[i])
    ensures (forall i :: 0 <= i < |info| ==> info[i].name != name) ==> e == None
  {
    for i := 0 to |info|
      invariant forall j :: 0 <= j < i ==> info[j].name != name
    {
      if info[i].name == name {
        FindComplete(info, i);
        return Some(info[i]);
      }
    }
    FindSound(info, name);
    return None;
  }
}
