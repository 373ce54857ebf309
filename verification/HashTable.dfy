/** The symbol tables of the parser (general entities, element types, attribute ids,
    prefixes): an open-addressing table with double hashing that doubles when half full,
    proved to be a finite map from names to entries. */
module HashTable {
  import opened Probing

  const INIT_POWER: nat := 6

  /** An entry; its name never changes once it is in a table. */
  class Named {
    const name: Key

    constructor (name: Key)
      ensures this.name == name
    {
      this.name := name;
    }
  }

  // ---------- Slot arrays as values ----------

  /** The first k slots on the probe path of `key` are taken. */
  ghost predicate Taken(v: seq<Named?>, power: nat, key: Key, k: nat)
    requires power >= 3 && |v| == Pow2(power)
  {
    forall m: nat :: m < k ==> v[Slot(Hash(key), power, m)] != null
  }

  /** The slots hold exactly the entries of m: the entry of `key` lies steps[key] steps down its
      own probe path, behind taken slots only, and every taken slot is the place of its entry. */
  ghost predicate Holds(v: seq<Named?>, power: nat, m: map<Key, Named>, steps: map<Key, nat>)
  {
    && power >= 3 && |v| == Pow2(power)
    && steps.Keys == m.Keys
    && (forall key :: key in m ==>
          && m[key].name == key
          && Taken(v, power, key, steps[key])
          && v[Slot(Hash(key), power, steps[key])] == m[key])
    && (forall j :: 0 <= j < |v| && v[j] != null ==>
          && v[j].name in m
          && Slot(Hash(v[j].name), power, steps[v[j].name]) == j)
  }

  /** If every slot holds an entry found back at that slot, there are at least |v| names. */
  lemma {:induction false} FullNeedsManyNames(v: seq<Named?>, names: set<Key>, place: map<Key, nat>)
    requires forall j :: 0 <= j < |v| ==>
      v[j] != null && v[j].name in names && v[j].name in place && place[v[j].name] == j
    ensures |names| >= |v|
  {
    if v != [] {
      var last := v[|v| - 1].name;
      forall j | 0 <= j < |v| - 1 ensures v[j].name in names - {last} {
        assert place[v[j].name] == j;
      }
      FullNeedsManyNames(v[..|v| - 1], names - {last}, place);
      assert names == (names - {last}) + {last};
    }
  }

  /** A probe that has passed `size` slots has passed all of them. */
  lemma {:induction false} WholePathTaken(v: seq<Named?>, power: nat, key: Key, k: nat)
    requires power >= 3 && |v| == Pow2(power) <= k
    requires Taken(v, power, key, k)
    ensures forall j :: 0 <= j < |v| ==> v[j] != null
  {
    forall j | 0 <= j < |v| ensures v[j] != null {
      var m := ProbePathMeetsEverySlot(Hash(key), power, j);
    }
  }

  /** While the table is not full, a walk over taken slots is shorter than the table:
      why every probe loop ends. */
  lemma ProbeEnds(v: seq<Named?>, power: nat, m: map<Key, Named>, steps: map<Key, nat>, key: Key, k: nat)
    requires Holds(v, power, m, steps) && |m| < |v|
    requires Taken(v, power, key, k)
    ensures k < |v|
  {
    hide Hash, Slot, Pow2;
    if k >= |v| {
      WholePathTaken(v, power, key, k);
      var place := map name | name in m.Keys :: Slot(Hash(name), power, steps[name]);
      FullNeedsManyNames(v, m.Keys, place);
    }
  }

  lemma OneMoreTaken(v: seq<Named?>, power: nat, m: map<Key, Named>, steps: map<Key, nat>, key: Key, k: nat)
    requires Holds(v, power, m, steps) && |m| < |v|
    requires Taken(v, power, key, k) && v[Slot(Hash(key), power, k)] != null
    ensures Taken(v, power, key, k + 1) && k + 1 < |v|
  {
    hide Hash, Slot, Pow2;
    assert Taken(v, power, key, k + 1) by {
      forall i: nat | i < k + 1 ensures v[Slot(Hash(key), power, i)] != null {}
    }
    ProbeEnds(v, power, m, steps, key, k + 1);
  }

  /** A search that stops at an empty slot has shown the name absent. */
  lemma MissProvesAbsent(v: seq<Named?>, power: nat, m: map<Key, Named>, steps: map<Key, nat>, key: Key, k: nat)
    requires Holds(v, power, m, steps)
    requires Taken(v, power, key, k) && v[Slot(Hash(key), power, k)] == null
    requires forall i: nat :: i < k ==> v[Slot(Hash(key), power, i)].name != key
    ensures key !in m
  {
    hide Hash, Slot, Pow2;
  }

  /** Filling the first empty slot of its path adds exactly one binding. */
  lemma FillingKeepsHolds(v: seq<Named?>, power: nat, m: map<Key, Named>, steps: map<Key, nat>, e: Named, k: nat)
    requires Holds(v, power, m, steps) && e.name !in m
    requires Taken(v, power, e.name, k) && v[Slot(Hash(e.name), power, k)] == null
    ensures Holds(v[Slot(Hash(e.name), power, k) := e], power, m[e.name := e], steps[e.name := k])
  {
    hide Hash, Slot, Pow2;
    var v' := v[Slot(Hash(e.name), power, k) := e];
    forall key, i: nat | Taken(v, power, key, i)
      ensures Taken(v', power, key, i)
    {}
  }

  lemma EmptyHoldsNothing(v: seq<Named?>, power: nat)
    requires power >= 3 && |v| == Pow2(power)
    requires forall j :: 0 <= j < |v| ==> v[j] == null
    ensures Holds(v, power, map[], map[])
  {}

  /** `moved` is the part of the map whose entries lie in v[..i]. */
  ghost predicate Moved(v: seq<Named?>, i: nat, contents: map<Key, Named>, moved: map<Key, Named>)
    requires i <= |v|
  {
    && (forall key :: key in moved ==> key in contents && moved[key] == contents[key])
    && (forall j :: 0 <= j < i && v[j] != null ==> v[j].name in moved)
    && (forall j :: i <= j < |v| && v[j] != null ==> v[j].name !in moved)
  }

  lemma RehashStarts(v: seq<Named?>, power: nat, m: map<Key, Named>, steps: map<Key, nat>)
    requires Holds(v, power, m, steps)
    ensures power >= 3 && Pow2(power + 1) == 2 * |v|
    ensures Moved(v, 0, m, map[])
  {}

  lemma MovedOne(v: seq<Named?>, power: nat, m: map<Key, Named>, steps: map<Key, nat>, i: nat, moved: map<Key, Named>)
    requires Holds(v, power, m, steps) && i < |v| && Moved(v, i, m, moved)
    ensures v[i] == null ==> Moved(v, i + 1, m, moved)
    ensures v[i] != null ==> v[i].name !in moved && Moved(v, i + 1, m, moved[v[i].name := v[i]])
    ensures |moved| <= |m|
  {
    hide Hash, Slot, Pow2;
    FewerNames(moved, m);
  }

  lemma MovedAll(v: seq<Named?>, power: nat, m: map<Key, Named>, steps: map<Key, nat>, moved: map<Key, Named>)
    requires Holds(v, power, m, steps) && Moved(v, |v|, m, moved)
    ensures moved == m
  {
    hide Hash, Slot, Pow2;
    forall key | key in m ensures key in moved {
      assert v[Slot(Hash(key), power, steps[key])] == m[key];
    }
  }

  lemma FewerNames(m: map<Key, Named>, n: map<Key, Named>)
    requires m.Keys <= n.Keys
    ensures |m| <= |n|
  {
    assert n.Keys == m.Keys + (n.Keys - m.Keys);
    assert |m.Keys| == |m| && |n.Keys| == |n|;
  }

  // ---------- The table ----------

  /** A probe loop that compares no names: walk to the first empty slot. */
  method FreeSlot(v: array<Named?>, power: nat, name: Key, ghost m: map<Key, Named>, ghost steps: map<Key, nat>)
    returns (j: nat, ghost k: nat)
    requires Holds(v[..], power, m, steps) && |m| < v.Length
    ensures j < v.Length && j == Slot(Hash(name), power, k) && v[j] == null
    ensures Taken(v[..], power, name, k)
  {
    hide Hash, Slot, ProbeStep, Pow2;
    var h := Hash(name);
    var step := 0;
    HomeSlot(h, power);
    j := h % v.Length;
    ghost var s := v[..];
    k := 0;
    while v[j] != null
      invariant j == Slot(h, power, k)
      invariant step == 0 || step == ProbeStep(h, power)
      invariant Taken(s, power, name, k)
      decreases v.Length - k
    {
      OneMoreTaken(s, power, m, steps, name, k);
      if step == 0 {
        step := ProbeStep(h, power);
      }
      NextSlotIsSlot(h, power, k);
      j := NextSlot(j, step, v.Length);
      k := k + 1;
    }
  }

  /** Store an entry in the first empty slot of its path. */
  method Insert(v: array<Named?>, power: nat, e: Named, ghost m: map<Key, Named>, ghost steps: map<Key, nat>)
    returns (ghost k: nat)
    requires Holds(v[..], power, m, steps) && e.name !in m && |m| < v.Length
    modifies v
    ensures Holds(v[..], power, m[e.name := e], steps[e.name := k])
  {
    hide Hash, Slot, Pow2;
    var j: nat;
    j, k := FreeSlot(v, power, e.name, m, steps);
    ghost var s := v[..];
    FillingKeepsHolds(s, power, m, steps, e, k);
    v[j] := e;
    assert v[..] == s[j := e];
  }

  /** The copy loop of the rehash. */
  method Rehash(v: array<Named?>, power: nat, ghost m: map<Key, Named>, ghost steps: map<Key, nat>)
    returns (newV: array<Named?>, ghost newSteps: map<Key, nat>)
    requires Holds(v[..], power, m, steps) && |m| <= v.Length
    ensures fresh(newV) && newV.Length == 2 * v.Length
    ensures Holds(newV[..], power + 1, m, newSteps)
  {
    hide Hash, Slot, Holds, Moved;
    RehashStarts(v[..], power, m, steps);
    newV := new Named?[2 * v.Length](_ => null);
    newSteps := map[];
    ghost var moved: map<Key, Named> := map[];
    ghost var s := v[..];
    assert forall j :: 0 <= j < |newV[..]| ==> newV[..][j] == null;
    EmptyHoldsNothing(newV[..], power + 1);
    var i := 0;
    while i < v.Length
      invariant i <= v.Length
      invariant v[..] == s
      invariant fresh(newV) && Holds(newV[..], power + 1, moved, newSteps)
      invariant Moved(s, i, m, moved)
    {
      MovedOne(s, power, m, steps, i, moved);
      if v[i] != null {
        ghost var k := Insert(newV, power + 1, v[i], moved, newSteps);
        newSteps := newSteps[v[i].name := k];
        moved := moved[v[i].name := v[i]];
      }
      i := i + 1;
    }
    MovedAll(s, power, m, steps, moved);
  }

  class HashTable {
    var v: array<Named?>
    var power: nat
    var size: nat
    var used: nat
    ghost var contents: map<Key, Named>
    ghost var steps: map<Key, nat>

    ghost predicate Valid()
      reads this, v
    {
      && v.Length == size
      && used == |contents|
      && (size == 0 ==> contents == map[])
      && (size > 0 ==> power >= INIT_POWER && Holds(v[..], power, contents, steps))
      && 2 * used <= size
    }

    constructor ()
      ensures Valid() && contents == map[]
    {
      v := new Named?[0];
      power, size, used := 0, 0, 0;
      contents, steps := map[], map[];
    }

    /** The probe loop: ends at the slot holding `name`, or at the first empty slot of its path. */
    method Find(name: Key) returns (i: nat, ghost k: nat)
      requires Valid() && size > 0
      ensures i < v.Length && i == Slot(Hash(name), power, k)
      ensures Taken(v[..], power, name, k)
      ensures name in contents <==> v[i] != null
      ensures v[i] != null ==> contents[name] == v[i]
    {
      hide Hash, Slot, ProbeStep, Pow2;
      var h := Hash(name);
      var step := 0;
      HomeSlot(h, power);
      i := h % size;
      k := 0;
      ghost var s := v[..];
      while v[i] != null
        invariant i == Slot(h, power, k)
        invariant step == 0 || step == ProbeStep(h, power)
        invariant Taken(s, power, name, k)
        invariant forall m: nat :: m < k ==> s[Slot(h, power, m)].name != name
        decreases size - k
      {
        OneMoreTaken(s, power, contents, steps, name, k);
        if v[i].name == name {
          return;
        }
        if step == 0 {
          step := ProbeStep(h, power);
        }
        NextSlotIsSlot(h, power, k);
        i := NextSlot(i, step, size);
        k := k + 1;
      }
      MissProvesAbsent(s, power, contents, steps, name, k);
    }

    /** The growth branch of lookup: every entry moves to a table of twice the size. */
    method Grow()
      requires Valid() && size > 0
      modifies this`v, this`power, this`size, this`steps
      ensures Valid() && fresh(v)
      ensures size == 2 * old(size)
    {
      hide Hash, Slot, Pow2, Holds;
      v, steps := Rehash(v, power, contents, steps);
      power := power + 1;
      size := 2 * size;
    }

    /** lookup(table, name, createSize): `create` says that createSize is nonzero, the other two
        how the allocations of a slot array and of an entry turn out. */
    method Lookup(name: Key, create: bool, allocTable: bool, allocEntry: bool) returns (r: Named?)
      requires Valid()
      modifies this, v
      ensures Valid() && (v == old(v) || fresh(v))
      ensures name in old(contents) ==> r == old(contents)[name] && contents == old(contents)
      ensures name !in old(contents) ==>
        (r == null <==> !create || !allocEntry || ((old(size) == 0 || 2 * old(used) >= old(size)) && !allocTable))
      ensures name !in old(contents) && r == null ==> contents == old(contents)
      ensures name !in old(contents) && r != null ==>
        fresh(r) && r.name == name && contents == old(contents)[name := r]
    {
      hide Hash, Slot, Holds;
      var i: nat;
      ghost var k: nat;
      if size == 0 {
        if !create {
          return null;
        }
        power := INIT_POWER;
        size := Pow2(INIT_POWER);
        if !allocTable {
          size := 0;
          return null;
        }
        NewTable();
        i, k := Hash(name) % size, 0;
        HomeSlot(Hash(name), power);
      } else {
        i, k := Find(name);
        if v[i] != null {
          return v[i];
        }
        if !create {
          return null;
        }
        HalfFull(used, power);
        HoldsSize(v[..], power, contents, steps);
        if used / Pow2(power - 1) != 0 {
          if !allocTable {
            return null;
          }
          Grow();
          i, k := FreeSlot(v, power, name, contents, steps);
        }
      }
      if !allocEntry {
        return null;
      }
      r := new Named(name);
      Put(i, r, k);
    }

    /** malloc and memset of the first slot array. */
    method NewTable()
      requires contents == map[] && used == 0 && power == INIT_POWER && size == Pow2(INIT_POWER)
      modifies this`v, this`steps
      ensures Valid() && fresh(v) && forall j :: 0 <= j < v.Length ==> v[j] == null
    {
      v := new Named?[size](_ => null);
      steps := map[];
      EmptyHoldsNothing(v[..], power);
    }

    /** The tail of lookup: the entry goes to the empty slot the walk ended at. */
    method Put(i: nat, e: Named, ghost k: nat)
      requires Valid() && size > 0 && e.name !in contents && 2 * used < size
      requires i == Slot(Hash(e.name), power, k) && i < v.Length && v[i] == null
      requires Taken(v[..], power, e.name, k)
      modifies this`used, this`contents, this`steps, v
      ensures Valid() && contents == old(contents)[e.name := e]
    {
      hide Hash, Slot, Pow2, Holds, Taken;
      ghost var s, m := v[..], contents;
      HoldsSize(s, power, m, steps);
      FillingKeepsHolds(s, power, m, steps, e, k);
      v[i] := e;
      assert v[..] == s[i := e];
      contents, steps := m[e.name := e], steps[e.name := k];
      used := used + 1;
    }

    /** hashTableClear: the slots stay allocated, the map becomes empty. */
    method Clear()
      requires Valid()
      modifies this`used, this`contents, this`steps, v
      ensures Valid() && contents == map[] && size == old(size)
    {
      hide Hash, Slot, Pow2;
      var i := 0;
      while i < size
        invariant i <= size
        invariant forall j :: 0 <= j < i ==> v[j] == null
      {
        v[i] := null;
        i := i + 1;
      }
      used := 0;
      contents, steps := map[], map[];
      if size > 0 {
        EmptyHoldsNothing(v[..], power);
      }
    }
  }

  lemma HoldsSize(v: seq<Named?>, power: nat, m: map<Key, Named>, steps: map<Key, nat>)
    requires Holds(v, power, m, steps)
    ensures power >= 3 && |v| == Pow2(power) == 2 * Pow2(power - 1)
  {}

  // ---------- Iteration ----------

  /** The entries of a slot array in slot order. */
  ghost function Entries(v: seq<Named?>): seq<Named> {
    if v == [] then []
    else if v[0] == null then Entries(v[1..])
    else [v[0]] + Entries(v[1..])
  }

  class HashTableIter {
    const v: array<Named?>
    var p: nat

    constructor (table: HashTable)
      ensures v == table.v && p == 0
    {
      v := table.v;
      p := 0;
    }

    /** hashTableIterNext: the next entry in slot order, or NULL after the last. */
    method Next() returns (r: Named?)
      requires p <= v.Length
      modifies this
      ensures p <= v.Length
      ensures r == null ==> Entries(v[old(p)..]) == [] && p == v.Length
      ensures r != null ==> Entries(v[old(p)..]) == [r] + Entries(v[p..])
    {
      while p != v.Length
        invariant p <= v.Length
        invariant Entries(v[old(p)..]) == Entries(v[p..])
      {
        r := v[p];
        assert v[p..][1..] == v[p + 1..];
        p := p + 1;
        if r != null {
          return;
        }
      }
      r := null;
    }
  }

  lemma {:induction false} EntriesAre(v: seq<Named?>, e: Named)
    ensures e in Entries(v) <==> e in v
  {
    if v != [] {
      EntriesAre(v[1..], e);
    }
  }

  lemma {:induction false} EntriesDistinct(v: seq<Named?>)
    requires forall i, j :: 0 <= i < j < |v| && v[i] != null ==> v[i] != v[j]
    ensures forall i, j :: 0 <= i < j < |Entries(v)| ==> Entries(v)[i] != Entries(v)[j]
  {
    if v != [] {
      EntriesDistinct(v[1..]);
      if v[0] != null {
        EntriesAre(v[1..], v[0]);
      }
    }
  }

  /** Calling Next until it returns NULL yields every entry of the map once and nothing else. */
  lemma IterationYieldsTheMap(v: seq<Named?>, power: nat, m: map<Key, Named>, steps: map<Key, nat>)
    requires Holds(v, power, m, steps)
    ensures forall e :: e in Entries(v) <==> e.name in m && m[e.name] == e
    ensures forall i, j :: 0 <= i < j < |Entries(v)| ==> Entries(v)[i] != Entries(v)[j]
  {
    hide Hash, Slot, Pow2;
    forall e: Named ensures e in Entries(v) <==> e.name in m && m[e.name] == e {
      EntriesAre(v, e);
      if e.name in m && m[e.name] == e {
        assert v[Slot(Hash(e.name), power, steps[e.name])] == e;
      }
    }
    EntriesDistinct(v);
  }
}
