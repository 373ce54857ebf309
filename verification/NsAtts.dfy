/** The attribute hash inside storeAtts that finds prefixed attributes with the same expanded
    name. It is never cleared between elements: a slot counts as taken only when it carries the
    version number of the current element. */
module NsAtts {
  import opened Probing

  const INIT_ATTS_VERSION: nat := 0xFFFFFFFF

  /** A prefixed attribute: its expanded name (URI and local part), and the string kept for it,
      which continues with the separator and the prefix when triplets are reported. */
  datatype Attribute = Attribute(name: Key, stored: Key)

  datatype NsAtt = NsAtt(version: nat, hash: nat, uriName: Key)

  /** The stored string starts with the expanded name. */
  ghost predicate WellFormed(a: Attribute) {
    a.name <= a.stored
  }

  /** The hash value computed while the name is expanded; the null character counts. */
  function NameHash(name: Key): nat {
    Hash(name + [0])
  }

  /** What the comparison against an earlier attribute tests: equal hash values, and the new
      name running out before the stored string differs from it. */
  ghost predicate Clash(earlier: Attribute, a: Attribute) {
    NameHash(earlier.name) == NameHash(a.name) && a.name <= earlier.stored
  }

  ghost predicate Taken(v: seq<NsAtt>, version: nat, power: nat, hash: nat, k: nat)
    requires power >= 3 && |v| == Pow2(power)
  {
    forall m: nat :: m < k ==> v[Slot(hash, power, m)].version == version
  }

  /** The slots with the current version are exactly the attributes in `done`: attribute i lies
      steps[i] steps down its probe path, and every such slot belongs to one attribute. */
  ghost predicate Records(v: seq<NsAtt>, version: nat, power: nat,
                          done: seq<Attribute>, steps: seq<nat>, owner: map<nat, nat>)
  {
    && power >= 3 && |v| == Pow2(power) && |steps| == |done|
    && (forall i :: 0 <= i < |done| ==>
          && Taken(v, version, power, NameHash(done[i].name), steps[i])
          && v[Slot(NameHash(done[i].name), power, steps[i])] == NsAtt(version, NameHash(done[i].name), done[i].stored))
    && (forall j :: 0 <= j < |v| && v[j].version == version ==>
          j in owner && owner[j] < |done| && Slot(NameHash(done[owner[j]].name), power, steps[owner[j]]) == j)
  }

  ghost function Below(n: nat): (s: set<nat>)
    ensures |s| == n
    ensures forall i: nat :: i in s <==> i < n
  {
    if n == 0 then {} else Below(n - 1) + {n - 1}
  }

  /** If every slot has an owner found back at that slot, there are at least `size` owners. */
  lemma {:induction false} FullNeedsManyOwners(size: nat, owners: set<nat>, owner: map<nat, nat>, place: seq<nat>)
    requires forall j: nat :: j < size ==>
      j in owner && owner[j] in owners && owner[j] < |place| && place[owner[j]] == j
    ensures |owners| >= size
  {
    if size > 0 {
      var last := owner[size - 1];
      FullNeedsManyOwners(size - 1, owners - {last}, owner, place);
      assert owners == (owners - {last}) + {last};
    }
  }

  lemma ProbeEnds(v: seq<NsAtt>, version: nat, power: nat,
                  done: seq<Attribute>, steps: seq<nat>, owner: map<nat, nat>, hash: nat, k: nat)
    requires Records(v, version, power, done, steps, owner) && |done| < |v|
    requires Taken(v, version, power, hash, k)
    ensures k < |v|
  {
    hide NameHash, Slot, Pow2;
    if k >= |v| {
      forall j | 0 <= j < |v| ensures v[j].version == version {
        var m := ProbePathMeetsEverySlot(hash, power, j);
      }
      var place := seq(|done|, i requires 0 <= i < |done| => Slot(NameHash(done[i].name), power, steps[i]));
      FullNeedsManyOwners(|v|, Below(|done|), owner, place);
    }
  }

  lemma OneMoreTaken(v: seq<NsAtt>, version: nat, power: nat,
                     done: seq<Attribute>, steps: seq<nat>, owner: map<nat, nat>, hash: nat, k: nat)
    requires Records(v, version, power, done, steps, owner) && |done| < |v|
    requires Taken(v, version, power, hash, k) && v[Slot(hash, power, k)].version == version
    ensures Taken(v, version, power, hash, k + 1) && k + 1 < |v|
  {
    hide NameHash, Slot, Pow2;
    assert Taken(v, version, power, hash, k + 1) by {
      forall m: nat | m < k + 1 ensures v[Slot(hash, power, m)].version == version {}
    }
    ProbeEnds(v, version, power, done, steps, owner, hash, k + 1);
  }

  /** The comparison made at one current slot. */
  ghost predicate Matches(v: seq<NsAtt>, j: nat, a: Attribute)
    requires j < |v|
  {
    v[j].hash == NameHash(a.name) && a.name <= v[j].uriName
  }

  /** A current slot that matches is the slot of a clashing attribute. */
  lemma MatchIsClash(v: seq<NsAtt>, version: nat, power: nat,
                     done: seq<Attribute>, steps: seq<nat>, owner: map<nat, nat>, j: nat, a: Attribute)
    requires Records(v, version, power, done, steps, owner)
    requires j < |v| && v[j].version == version && Matches(v, j, a)
    ensures exists i :: 0 <= i < |done| && Clash(done[i], a)
  {
    hide NameHash, Slot, Pow2;
    assert Clash(done[owner[j]], a);
  }

  /** A walk that met no match before a free slot shows that no earlier attribute clashes. */
  lemma NoMatchNoClash(v: seq<NsAtt>, version: nat, power: nat,
                       done: seq<Attribute>, steps: seq<nat>, owner: map<nat, nat>, a: Attribute, k: nat)
    requires Records(v, version, power, done, steps, owner)
    requires v[Slot(NameHash(a.name), power, k)].version != version
    requires forall m: nat :: m < k ==> !Matches(v, Slot(NameHash(a.name), power, m), a)
    ensures forall i :: 0 <= i < |done| ==> !Clash(done[i], a)
  {
    hide NameHash, Slot, Pow2;
    forall i | 0 <= i < |done| ensures !Clash(done[i], a) {
      var m := steps[i];
      assert Clash(done[i], a) ==> Matches(v, Slot(NameHash(done[i].name), power, m), a);
    }
  }

  lemma FillingKeepsRecords(v: seq<NsAtt>, version: nat, power: nat,
                            done: seq<Attribute>, steps: seq<nat>, owner: map<nat, nat>, a: Attribute, k: nat)
    requires Records(v, version, power, done, steps, owner)
    requires Taken(v, version, power, NameHash(a.name), k)
    requires v[Slot(NameHash(a.name), power, k)].version != version
    ensures var j := Slot(NameHash(a.name), power, k);
      Records(v[j := NsAtt(version, NameHash(a.name), a.stored)], version, power,
              done + [a], steps + [k], owner[j := |done|])
  {
    hide NameHash, Slot, Pow2;
    var v' := v[Slot(NameHash(a.name), power, k) := NsAtt(version, NameHash(a.name), a.stored)];
    forall h: nat, i: nat | Taken(v, version, power, h, i)
      ensures Taken(v', version, power, h, i)
    {}
  }

  lemma NothingCurrent(v: seq<NsAtt>, version: nat, power: nat)
    requires power >= 3 && |v| == Pow2(power)
    requires forall j :: 0 <= j < |v| ==> v[j].version > version
    ensures Records(v, version, power, [], [], map[])
  {}

  // ---------- The table ----------

  /** Some attribute clashes with an earlier one. */
  ghost predicate HasClash(atts: seq<Attribute>) {
    exists i, j :: 0 <= i < j < |atts| && Clash(atts[i], atts[j])
  }

  lemma ClashGrows(atts: seq<Attribute>, n: nat)
    requires n < |atts|
    ensures HasClash(atts[..n + 1]) <==>
      HasClash(atts[..n]) || exists i :: 0 <= i < |atts[..n]| && Clash(atts[..n][i], atts[n])
  {
    hide Clash;
    var s, t := atts[..n], atts[..n + 1];
    if HasClash(s) {
      var i, j :| 0 <= i < j < |s| && Clash(s[i], s[j]);
      assert Clash(t[i], t[j]);
    }
    if i :| 0 <= i < n && Clash(s[i], atts[n]) {
      assert Clash(t[i], t[n]);
    }
    if HasClash(t) {
      var i, j :| 0 <= i < j < |t| && Clash(t[i], t[j]);
      if j < n {
        assert Clash(s[i], s[j]);
      } else {
        assert Clash(s[i], atts[n]);
      }
    }
  }

  lemma ClashInPrefix(atts: seq<Attribute>, n: nat)
    requires n <= |atts| && HasClash(atts[..n])
    ensures HasClash(atts)
  {
    hide Clash;
    var i, j :| 0 <= i < j < n && Clash(atts[..n][i], atts[..n][j]);
    assert Clash(atts[i], atts[j]);
  }

  /** Give every slot this version, from the last slot down. */
  method ResetVersions(a: array<NsAtt>, version: nat)
    modifies a
    ensures forall i :: 0 <= i < a.Length ==> a[i] == old(a[i]).(version := version)
  {
    var j := a.Length;
    while j != 0
      invariant 0 <= j <= a.Length
      invariant forall i :: 0 <= i < j ==> a[i] == old(a[i])
      invariant forall i :: j <= i < a.Length ==> a[i] == old(a[i]).(version := version)
    {
      j := j - 1;
      a[j] := a[j].(version := version);
    }
  }

  class NsAttsTable {
    var nsAtts: array<NsAtt>
    var version: nat
    var power: nat

    /** No slot carries a version below the last one used. */
    ghost predicate Valid()
      reads this, nsAtts
    {
      && version < INIT_ATTS_VERSION
      && (power == 0 || power >= 3)
      && (power > 0 ==> nsAtts.Length == Pow2(power))
      && (power > 0 ==> forall j :: 0 <= j < nsAtts.Length ==> nsAtts[j].version >= version)
    }

    constructor ()
      ensures Valid()
    {
      nsAtts := new NsAtt[0];
      version, power := 0, 0;
    }

    /** Raise the power until the attributes are shifted out, once more, and at least to 3. */
    method NewPower(nPrefixes: nat) returns (p: nat)
      requires nPrefixes > 0
      ensures p >= 3 && 2 * nPrefixes < Pow2(p)
    {
      p := power;
      while nPrefixes / Pow2(p) != 0
        decreases nPrefixes - p
      {
        ShiftedOut(nPrefixes, p);
        p := p + 1;
      }
      BelowPow2(nPrefixes, p);
      p := p + 1;
      if p < 3 {
        Pow2Grows(p, 3);
        p := 3;
      }
    }

    /** Get the table ready for an element with nPrefixes prefixed attributes: enough slots, and a
        version no slot carries. */
    method NextElement(nPrefixes: nat)
      requires Valid() && nPrefixes > 0
      modifies this, nsAtts
      ensures Valid() && power >= 3 && (nsAtts == old(nsAtts) || fresh(nsAtts))
      ensures 2 * nPrefixes < nsAtts.Length
      ensures forall j :: 0 <= j < nsAtts.Length ==> nsAtts[j].version > version
    {
      hide Pow2;
      var v := version;
      if power == 0 || 2 * nPrefixes / Pow2(power) != 0 {
        power := NewPower(nPrefixes);
        nsAtts := new NsAtt[Pow2(power)](_ => NsAtt(0, 0, []));
        v := 0;
      } else {
        BelowPow2(2 * nPrefixes, power);
      }
      if v == 0 {
        v := INIT_ATTS_VERSION;
        ResetVersions(nsAtts, v);
      }
      v := v - 1;
      version := v;
    }

    /** The walk for one attribute: a clash, or the free slot its entry goes to. */
    method Probe(a: Attribute, ghost done: seq<Attribute>, ghost steps: seq<nat>, ghost owner: map<nat, nat>)
      returns (duplicate: bool, j: nat, ghost k: nat)
      requires power >= 3 && Records(nsAtts[..], version, power, done, steps, owner)
      requires |done| < nsAtts.Length
      ensures duplicate <==> exists i :: 0 <= i < |done| && Clash(done[i], a)
      ensures !duplicate ==>
        j == Slot(NameHash(a.name), power, k) && Taken(nsAtts[..], version, power, NameHash(a.name), k)
      ensures !duplicate ==> j < nsAtts.Length && nsAtts[j].version != version
    {
      hide NameHash, Slot, Pow2, Records, ProbeStep, Clash;
      RecordsSize(nsAtts[..], version, power, done, steps, owner);
      var h := NameHash(a.name);
      var step := 0;
      HomeSlot(h, power);
      j := h % nsAtts.Length;
      k := 0;
      ghost var s := nsAtts[..];
      while nsAtts[j].version == version
        invariant j == Slot(h, power, k) && j < nsAtts.Length
        invariant step == 0 || step == ProbeStep(h, power)
        invariant Taken(s, version, power, h, k)
        invariant forall m: nat :: m < k ==> !Matches(s, Slot(h, power, m), a)
        decreases nsAtts.Length - k
      {
        OneMoreTaken(s, version, power, done, steps, owner, h, k);
        if h == nsAtts[j].hash && a.name <= nsAtts[j].uriName {
          MatchIsClash(s, version, power, done, steps, owner, j, a);
          duplicate := true;
          return;
        }
        if step == 0 {
          step := ProbeStep(h, power);
        }
        NextSlotIsSlot(h, power, k);
        j := NextSlot(j, step, nsAtts.Length);
        k := k + 1;
      }
      NoMatchNoClash(s, version, power, done, steps, owner, a, k);
      duplicate := false;
    }

    /** The duplicate check of one element over its prefixed attributes. */
    method CheckElement(atts: seq<Attribute>)
      returns (duplicate: bool, ghost steps: seq<nat>, ghost owner: map<nat, nat>)
      requires Valid() && atts != []
      modifies this, nsAtts
      ensures Valid()
      ensures duplicate <==> HasClash(atts)
      ensures !duplicate ==> Records(nsAtts[..], version, power, atts, steps, owner)
    {
      hide NameHash, Slot, Pow2, Records, Clash, HasClash, Taken;
      NextElement(|atts|);
      steps, owner := [], map[];
      NothingCurrent(nsAtts[..], version, power);
      duplicate := false;
      var n := 0;
      NoClashYet(atts);
      while n < |atts|
        invariant n <= |atts| && Valid() && power >= 3 && nsAtts.Length > 2 * |atts|
        invariant nsAtts == old(nsAtts) || fresh(nsAtts)
        invariant Records(nsAtts[..], version, power, atts[..n], steps, owner)
        invariant !HasClash(atts[..n])
      {
        var j: nat;
        ghost var k: nat;
        duplicate, j, k := Probe(atts[n], atts[..n], steps, owner);
        ClashGrows(atts, n);
        if duplicate {
          ClashInPrefix(atts, n + 1);
          return;
        }
        ghost var s := nsAtts[..];
        FillingKeepsRecords(s, version, power, atts[..n], steps, owner, atts[n], k);
        nsAtts[j] := NsAtt(version, NameHash(atts[n].name), atts[n].stored);
        assert nsAtts[..] == s[j := NsAtt(version, NameHash(atts[n].name), atts[n].stored)];
        steps, owner := steps + [k], owner[j := n];
        assert atts[..n + 1] == atts[..n] + [atts[n]];
        n := n + 1;
      }
      assert atts[..n] == atts;
    }
  }

  lemma NoClashYet(atts: seq<Attribute>)
    ensures !HasClash(atts[..0])
  {}

  lemma RecordsSize(v: seq<NsAtt>, version: nat, power: nat, done: seq<Attribute>, steps: seq<nat>,
                    owner: map<nat, nat>)
    requires Records(v, version, power, done, steps, owner)
    ensures |v| == Pow2(power)
  {}

  /** Every genuinely repeated expanded name is reported. */
  lemma RepeatedNameClashes(atts: seq<Attribute>, i: nat, j: nat)
    requires forall n :: 0 <= n < |atts| ==> WellFormed(atts[n])
    requires i < j < |atts| && atts[i].name == atts[j].name
    ensures HasClash(atts)
  {
    assert Clash(atts[i], atts[j]);
  }

  // ---------- Sizes ----------

  lemma BelowPow2(n: nat, p: nat)
    requires n / Pow2(p) == 0
    ensures n < Pow2(p)
  {
    HalfFull(n, p + 1);
  }

  lemma {:induction false} Pow2Grows(p: nat, q: nat)
    requires p <= q
    ensures Pow2(p) <= Pow2(q)
    decreases q - p
  {
    if p < q {
      Pow2Grows(p, q - 1);
    }
  }

  lemma {:induction false} Pow2Exceeds(p: nat)
    ensures Pow2(p) > p
  {
    if p > 0 {
      Pow2Exceeds(p - 1);
    }
  }

  lemma ShiftedOut(n: nat, p: nat)
    requires n / Pow2(p) != 0
    ensures p < n
  {
    Pow2Exceeds(p);
    hide Pow2;
    if n < Pow2(p) {
      QuotientZero(n, Pow2(p));
    }
  }
}
