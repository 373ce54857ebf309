/** The converters between encodings: loops over an input range that stop at an output limit and
    can be called again for the rest. */
module Converters {
  import opened Utf

  // ---------- Strings of characters ----------

  function Utf8(cs: seq<Scalar>): seq<bv8> {
    if cs == [] then [] else Utf8Bytes(cs[0]) + Utf8(cs[1..])
  }

  function Utf16(cs: seq<Scalar>): seq<bv16> {
    if cs == [] then [] else Utf16Units(cs[0]) + Utf16(cs[1..])
  }

  lemma {:induction false} Utf8Concat(a: seq<Scalar>, b: seq<Scalar>)
    ensures Utf8(a + b) == Utf8(a) + Utf8(b)
  {
    hide Utf8Bytes;
    if a == [] {
      assert a + b == b;
    } else {
      assert (a + b)[1..] == a[1..] + b;
      Utf8Concat(a[1..], b);
    }
  }

  lemma {:induction false} Utf16Concat(a: seq<Scalar>, b: seq<Scalar>)
    ensures Utf16(a + b) == Utf16(a) + Utf16(b)
  {
    hide Utf16Units;
    if a == [] {
      assert a + b == b;
    } else {
      assert (a + b)[1..] == a[1..] + b;
      Utf16Concat(a[1..], b);
    }
  }

  lemma Utf8Snoc(cs: seq<Scalar>, k: nat)
    requires k < |cs|
    ensures Utf8(cs[..k + 1]) == Utf8(cs[..k]) + Utf8Bytes(cs[k])
  {
    hide Utf8Bytes;
    assert cs[..k + 1] == cs[..k] + [cs[k]];
    Utf8Concat(cs[..k], [cs[k]]);
    assert [cs[k]][1..] == [];
    assert Utf8Bytes(cs[k]) + [] == Utf8Bytes(cs[k]);
  }

  lemma Utf16Snoc(cs: seq<Scalar>, k: nat)
    requires k < |cs|
    ensures Utf16(cs[..k + 1]) == Utf16(cs[..k]) + Utf16Units(cs[k])
  {
    hide Utf16Units;
    assert cs[..k + 1] == cs[..k] + [cs[k]];
    Utf16Concat(cs[..k], [cs[k]]);
    assert [cs[k]][1..] == [];
    assert Utf16Units(cs[k]) + [] == Utf16Units(cs[k]);
  }

  lemma Utf8Step(cs: seq<Scalar>, k: nat)
    requires k < |cs|
    ensures Utf8(cs[k..]) == Utf8Bytes(cs[k]) + Utf8(cs[k + 1..])
    ensures 1 <= |Utf8Bytes(cs[k])| <= 4
  {
    assert cs[k..][1..] == cs[k + 1..];
    hide Byte;
  }

  lemma Utf16Step(cs: seq<Scalar>, k: nat)
    requires k < |cs|
    ensures Utf16(cs[k..]) == Utf16Units(cs[k]) + Utf16(cs[k + 1..])
    ensures 1 <= |Utf16Units(cs[k])| <= 2
  {
    assert cs[k..][1..] == cs[k + 1..];
    hide Unit;
  }

  lemma NoneDone(cs: seq<Scalar>)
    ensures cs[0..] == cs && Utf8(cs[..0]) == [] && Utf16(cs[..0]) == []
  {}

  // ---------- UTF-8 to UTF-16 ----------

  /** utf8_toUtf16: from[f..fromLim] is the input, to[t..toLim] the room. It converts whole
      characters, as many as fit. */
  method Utf8ToUtf16(from: seq<bv8>, f: nat, fromLim: nat, to: array<bv16>, t: nat, toLim: nat, ghost cs: seq<Scalar>)
    returns (f': nat, t': nat, ghost k: nat)
    requires f <= fromLim <= |from| && t <= toLim <= to.Length
    requires from[f..fromLim] == Utf8(cs)
    modifies to
    ensures k <= |cs| && f <= f' <= fromLim && t <= t' <= toLim
    ensures from[f'..fromLim] == Utf8(cs[k..])
    ensures to[t..t'] == Utf16(cs[..k])
    ensures forall j :: 0 <= j < to.Length && !(t <= j < t') ==> to[j] == old(to[j])
    ensures k < |cs| ==> toLim - t' < |Utf16Units(cs[k])|
  {
    hide Utf8, Utf16, Utf8Bytes, Utf16Units, DecodesAs, From2, From3, From4, Unit, TypeOf;
    f', t', k := f, t, 0;
    NoneDone(cs);
    while f' != fromLim && t' != toLim
      invariant k <= |cs| && f <= f' <= fromLim && t <= t' <= toLim
      invariant from[f'..fromLim] == Utf8(cs[k..])
      invariant to[t..t'] == Utf16(cs[..k])
      invariant forall j :: 0 <= j < to.Length && !(t <= j < t') ==> to[j] == old(to[j])
      decreases fromLim - f'
    {
      Utf8Nonempty(cs, k);
      Utf8Step(cs, k);
      Utf16Snoc(cs, k);
      Decodes8(cs[k]);
      HeadBytes(from, f', fromLim, Utf8Bytes(cs[k]), Utf8(cs[k + 1..]));
      ghost var before, mid := to[t..t'], t';
      var full: bool;
      f', t', full := OneToUtf16(from, f', to, t', toLim, Utf8Bytes(cs[k]), Utf16Units(cs[k]));
      if full {
        return;
      }
      assert to[t..mid] == before && to[t..t'] == to[t..mid] + to[mid..t'];
      k := k + 1;
    }
    if k < |cs| {
      Utf16Step(cs, k);
      Utf8Step(cs, k);
    }
  }

  /** The switch in the loop: one character, unless a surrogate pair does not fit. */
  method OneToUtf16(from: seq<bv8>, f: nat, to: array<bv16>, t: nat, toLim: nat, ghost u: seq<bv8>,
                    ghost units: seq<bv16>)
    returns (f': nat, t': nat, full: bool)
    requires 1 <= |u| && f + |u| <= |from| && t < toLim <= to.Length
    requires (forall i :: 0 <= i < |u| ==> from[f + i] == u[i]) && DecodesAs(u, units)
    modifies to
    ensures full ==> f' == f && t' == t && toLim - t < |units|
    ensures !full ==> f' == f + |u| && t' == t + |units| <= toLim && to[t..t'] == units
    ensures forall j :: 0 <= j < to.Length && !(t <= j < t') ==> to[j] == old(to[j])
  {
    hide DecodesAs;
    var out, width;
    f', t' := f, t;
    out, width, full := Decode(from, f, toLim - t, u, units);
    if full {
      return;
    }
    Store(to, t', out);
    t' := t' + |out|;
    f' := f' + width;
  }

  /** The units of one character and how many bytes it has, unless there is room for one unit only and
      it has two. */
  method Decode(from: seq<bv8>, f: nat, room: nat, ghost u: seq<bv8>, ghost units: seq<bv16>)
    returns (out: seq<bv16>, width: nat, full: bool)
    requires 1 <= |u| && f + |u| <= |from| && room > 0
    requires (forall i :: 0 <= i < |u| ==> from[f + i] == u[i]) && DecodesAs(u, units)
    ensures if full then room < |units| else out == units && width == |u| && |units| <= room
  {
    hide DecodesAs, From2, From3, From4, Unit, TypeOf;
    DecodedUnits(u, units);
    assert from[f + 0] == u[0];
    full, width := false, 1;
    match TypeOf(from[f]) {
      case Lead2 => out, width := [From2(from[f], from[f + 1])], 2;
      case Lead3 => out, width := [From3(from[f], from[f + 1], from[f + 2])], 3;
      case Lead4 =>
        if room == 1 {
          out, full := [], true;
          return;
        }
        var n := From4(from[f], from[f + 1], from[f + 2], from[f + 3]);
        out, width := [Unit((n >> 10) | 0xD800), Unit((n & 0x3FF) | 0xDC00)], 4;
      case Other => out := [from[f] as bv16];
    }
  }

  lemma Utf8Nonempty(cs: seq<Scalar>, k: nat)
    requires k <= |cs| && Utf8(cs[k..]) != []
    ensures k < |cs|
  {}

  /** The next bytes of the input are those of the next character. */
  lemma HeadBytes(from: seq<bv8>, f: nat, fromLim: nat, u: seq<bv8>, rest: seq<bv8>)
    requires f <= fromLim <= |from| && from[f..fromLim] == u + rest
    ensures f + |u| <= fromLim && from[f..f + |u|] == u && from[f + |u|..fromLim] == rest
    ensures forall i :: 0 <= i < |u| ==> from[f + i] == u[i]
  {
    assert forall i :: 0 <= i < |u| ==> from[f + i] == from[f..fromLim][i] == u[i];
    assert from[f..fromLim][..|u|] == from[f..f + |u|];
    assert from[f..fromLim][|u|..] == from[f + |u|..fromLim];
  }

  lemma DecodedUnits(u: seq<bv8>, units: seq<bv16>)
    requires u != [] && DecodesAs(u, units)
    ensures TypeOf(u[0]) == Lead2 ==> |u| == 2 && units == [From2(u[0], u[1])]
    ensures TypeOf(u[0]) == Lead3 ==> |u| == 3 && units == [From3(u[0], u[1], u[2])]
    ensures TypeOf(u[0]) == Lead4 ==> |u| == 4
    ensures TypeOf(u[0]) == Lead4 ==>
      var n := From4(u[0], u[1], u[2], u[3]);
      units == [Unit((n >> 10) | 0xD800), Unit((n & 0x3FF) | 0xDC00)]
    ensures TypeOf(u[0]) == Other ==> |u| == 1 && units == [u[0] as bv16]
  {
    hide From2, From3, From4, Unit, TypeOf;
  }

  // ---------- UTF-16 to UTF-8 ----------

  /** The two bytes of a unit, high byte first or last. */
  function UnitBytes(u: bv16, big: bool): seq<bv8> {
    if big then [Hi(u), Lo(u)] else [Lo(u), Hi(u)]
  }

  function Wide(units: seq<bv16>, big: bool): seq<bv8> {
    if units == [] then [] else UnitBytes(units[0], big) + Wide(units[1..], big)
  }

  lemma {:induction false} WideConcat(a: seq<bv16>, b: seq<bv16>, big: bool)
    ensures Wide(a + b, big) == Wide(a, big) + Wide(b, big)
  {
    hide UnitBytes;
    if a == [] {
      assert a + b == b;
    } else {
      assert (a + b)[1..] == a[1..] + b;
      WideConcat(a[1..], b, big);
    }
  }

  /** The byte orders of UTF-16 (RFC 2781 section 3): big-endian has the high byte first. */
  lemma {:induction false} ByteOrder(units: seq<bv16>, i: nat)
    requires i < |units|
    ensures |Wide(units, true)| == |Wide(units, false)| == 2 * |units|
    ensures Wide(units, true)[2 * i] == (units[i] >> 8) as bv8 == Wide(units, false)[2 * i + 1]
    ensures Wide(units, true)[2 * i + 1] == (units[i] & 0xFF) as bv8 == Wide(units, false)[2 * i]
  {
    if i > 0 {
      ByteOrder(units[1..], i - 1);
    } else {
      WideLength(units);
    }
  }

  lemma {:induction false} WideLength(units: seq<bv16>)
    ensures |Wide(units, true)| == |Wide(units, false)| == 2 * |units|
  {
    hide Hi, Lo;
    if units != [] {
      WideLength(units[1..]);
    }
  }

  lemma WideStep(cs: seq<Scalar>, k: nat, big: bool)
    requires k < |cs|
    ensures Wide(Utf16(cs[k..]), big) == Wide(Utf16Units(cs[k]), big) + Wide(Utf16(cs[k + 1..]), big)
  {
    hide Utf16Units, UnitBytes;
    Utf16Step(cs, k);
    WideConcat(Utf16Units(cs[k]), Utf16(cs[k + 1..]), big);
  }

  lemma WideUnits(units: seq<bv16>, big: bool)
    ensures |units| == 1 ==> Wide(units, big) == UnitBytes(units[0], big)
    ensures |units| == 2 ==> Wide(units, big) == UnitBytes(units[0], big) + UnitBytes(units[1], big)
  {
    hide Hi, Lo, UnitBytes;
    if |units| == 1 {
      assert units[1..] == [];
      assert UnitBytes(units[0], big) + [] == UnitBytes(units[0], big);
    } else if |units| == 2 {
      assert units[1..][1..] == [];
      assert UnitBytes(units[1], big) + [] == UnitBytes(units[1], big);
    }
  }

  /** GET_LO and GET_HI of the two byte orders. */
  function GetLo(from: seq<bv8>, i: nat, big: bool): bv8
    requires i + 1 < |from|
  {
    if big then from[i + 1] else from[i]
  }

  function GetHi(from: seq<bv8>, i: nat, big: bool): bv8
    requires i + 1 < |from|
  {
    if big then from[i] else from[i + 1]
  }

  /** The next bytes of the input are the units of the next character. */
  lemma HeadUnits(from: seq<bv8>, f: nat, fromLim: nat, cs: seq<Scalar>, k: nat, big: bool)
    requires f < fromLim <= |from| && k <= |cs| && from[f..fromLim] == Wide(Utf16(cs[k..]), big)
    ensures k < |cs|
    ensures var units := Utf16Units(cs[k]);
      && 1 <= |units| <= 2 && f + 2 * |units| <= fromLim
      && from[f + 2 * |units|..fromLim] == Wide(Utf16(cs[k + 1..]), big)
      && GetHi(from, f, big) == Hi(units[0]) && GetLo(from, f, big) == Lo(units[0])
      && (|units| == 2 ==> GetHi(from, f + 2, big) == Hi(units[1]) && GetLo(from, f + 2, big) == Lo(units[1]))
  {
    AllRead(cs, k, big);
    hide Utf16Units, Hi, Lo, Wide;
    Utf16Step(cs, k);
    WideStep(cs, k, big);
    WideUnits(Utf16Units(cs[k]), big);
    HeadBytes(from, f, fromLim, Wide(Utf16Units(cs[k]), big), Wide(Utf16(cs[k + 1..]), big));
    assert from[f + 1] == Wide(Utf16Units(cs[k]), big)[1];
    if |Utf16Units(cs[k])| == 2 {
      assert from[f + 2] == Wide(Utf16Units(cs[k]), big)[2];
      assert from[f + 3] == Wide(Utf16Units(cs[k]), big)[3];
    }
  }

  /** E ## toUtf8 for either byte order. */
  method Utf16ToUtf8(from: seq<bv8>, big: bool, f: nat, fromLim: nat, to: array<bv8>, t: nat, toLim: nat,
                     ghost cs: seq<Scalar>)
    returns (f': nat, t': nat, ghost k: nat)
    requires f <= fromLim <= |from| && t <= toLim <= to.Length
    requires from[f..fromLim] == Wide(Utf16(cs), big)
    modifies to
    ensures k <= |cs| && f <= f' <= fromLim && t <= t' <= toLim
    ensures from[f'..fromLim] == Wide(Utf16(cs[k..]), big)
    ensures to[t..t'] == Utf8(cs[..k])
    ensures forall j :: 0 <= j < to.Length && !(t <= j < t') ==> to[j] == old(to[j])
    ensures k < |cs| ==> toLim - t' < |Utf8Bytes(cs[k])|
    ensures k == |cs| ==> f' == fromLim
  {
    hide Utf8, Utf16, Utf8Bytes, Utf16Units, EncodesAs, Hi, Lo, IsHighSurrogate, To8, PairTo8, Wide;
    f', t', k := f, t, 0;
    NoneDone(cs);
    AllRead(cs, 0, big);
    while f' != fromLim
      invariant k <= |cs| && f <= f' <= fromLim && t <= t' <= toLim
      invariant from[f'..fromLim] == Wide(Utf16(cs[k..]), big)
      invariant to[t..t'] == Utf8(cs[..k])
      invariant forall j :: 0 <= j < to.Length && !(t <= j < t') ==> to[j] == old(to[j])
      invariant f' == fromLim ==> k == |cs|
      decreases fromLim - f'
    {
      HeadUnits(from, f', fromLim, cs, k, big);
      Encodes16(cs[k]);
      Utf8Snoc(cs, k);
      var bytes: seq<bv8>;
      var width := 2;
      var hi, lo := GetHi(from, f', big), GetLo(from, f', big);
      UnitsEncode(Utf16Units(cs[k]), Utf8Bytes(cs[k]));
      if IsHighSurrogate(hi) {
        bytes := PairTo8(hi, lo, GetHi(from, f' + 2, big), GetLo(from, f' + 2, big));
        width := 4;
      } else {
        bytes := To8(hi, lo);
      }
      if toLim - t' < |bytes| {
        return;
      }
      Store(to, t', bytes);
      t' := t' + |bytes|;
      f' := f' + width;
      k := k + 1;
      AllRead(cs, k, big);
    }
  }

  lemma AllRead(cs: seq<Scalar>, k: nat, big: bool)
    requires k <= |cs|
    ensures Wide(Utf16(cs[k..]), big) == [] <==> k == |cs|
  {
    if k < |cs| {
      WideStep(cs, k, big);
      WideUnits(Utf16Units(cs[k]), big);
      Utf16Step(cs, k);
    }
  }

  lemma UnitsEncode(units: seq<bv16>, u: seq<bv8>)
    requires EncodesAs(units, u)
    ensures units != []
    ensures IsHighSurrogate(Hi(units[0])) ==>
      |units| == 2 && u == PairTo8(Hi(units[0]), Lo(units[0]), Hi(units[1]), Lo(units[1]))
    ensures !IsHighSurrogate(Hi(units[0])) ==> |units| == 1 && u == To8(Hi(units[0]), Lo(units[0]))
  {
    hide IsHighSurrogate, Hi, Lo, PairTo8, To8;
  }

  /** The bytes of one character are stored one after the other. */
  method Store<T>(to: array<T>, t: nat, bytes: seq<T>)
    requires t + |bytes| <= to.Length
    modifies to
    ensures to[..t] == old(to[..t]) && to[t..t + |bytes|] == bytes
    ensures forall j :: 0 <= j < to.Length && !(t <= j < t + |bytes|) ==> to[j] == old(to[j])
  {
    var i := 0;
    while i < |bytes|
      invariant i <= |bytes|
      invariant to[t..t + i] == bytes[..i]
      invariant forall j :: 0 <= j < to.Length && !(t <= j < t + i) ==> to[j] == old(to[j])
    {
      to[t + i] := bytes[i];
      i := i + 1;
    }
  }

  // ---------- Round trips, in pieces ----------

  /** Enough calls with enough room: there is a limit for every character, and each is wide enough
      for the widest character. */
  predicate EnoughRoom(rooms: seq<nat>, n: nat, widest: nat) {
    |rooms| >= n && forall i :: 0 <= i < |rooms| ==> rooms[i] >= widest
  }

  /** Convert through output buffers of the given sizes, until the input is used up. */
  method Utf8ToUtf16InPieces(from: seq<bv8>, rooms: seq<nat>, ghost cs: seq<Scalar>) returns (out: seq<bv16>)
    requires from == Utf8(cs) && EnoughRoom(rooms, |cs|, 2)
    ensures out == Utf16(cs)
  {
    hide Utf8, Utf16, Utf8Bytes, Utf16Units;
    out := [];
    var f, i := 0, 0;
    ghost var k := 0;
    NoneDone(cs);
    EmptyMeansDone(cs, 0);
    while f < |from|
      invariant k <= |cs| && f <= |from| && i <= k
      invariant from[f..] == Utf8(cs[k..]) && out == Utf16(cs[..k])
      invariant f == |from| <==> k == |cs|
      decreases |rooms| - i
    {
      var buf := new bv16[rooms[i]];
      assert from[f..|from|] == from[f..];
      var f', t', more := Utf8ToUtf16(from, f, |from|, buf, 0, buf.Length, cs[k..]);
      Utf16Step(cs, k);
      AtLeastOne16(cs[k..], more, buf.Length - t');
      Utf16Concat(cs[..k], cs[k..][..more]);
      assert cs[..k] + cs[k..][..more] == cs[..k + more];
      assert cs[k..][more..] == cs[k + more..];
      out := out + buf[..t'];
      assert buf[..t'] == buf[0..t'];
      f, k, i := f', k + more, i + 1;
      assert from[f..|from|] == from[f..];
      EmptyMeansDone(cs, k);
    }
    assert cs[..k] == cs;
  }

  lemma EmptyMeansDone(cs: seq<Scalar>, k: nat)
    requires k <= |cs|
    ensures Utf8(cs[k..]) == [] <==> k == |cs|
    ensures Utf16(cs[k..]) == [] <==> k == |cs|
  {
    if k < |cs| {
      Utf8Step(cs, k);
      Utf16Step(cs, k);
    }
  }

  /** A buffer for the widest character takes at least one. */
  lemma AtLeastOne16(cs: seq<Scalar>, k: nat, left: int)
    requires cs != [] && k <= |cs|
    requires k < |cs| ==> left < |Utf16Units(cs[k])|
    ensures k == 0 ==> left < 2
  {
    hide Unit;
  }

  lemma AtLeastOne8(cs: seq<Scalar>, k: nat, left: int)
    requires cs != [] && k <= |cs|
    requires k < |cs| ==> left < |Utf8Bytes(cs[k])|
    ensures k == 0 ==> left < 4
  {
    hide Byte;
  }

  method Utf16ToUtf8InPieces(from: seq<bv8>, big: bool, rooms: seq<nat>, ghost cs: seq<Scalar>) returns (out: seq<bv8>)
    requires from == Wide(Utf16(cs), big) && EnoughRoom(rooms, |cs|, 4)
    ensures out == Utf8(cs)
  {
    hide Utf8, Utf16, Utf8Bytes, Utf16Units, Wide;
    out := [];
    var f, i := 0, 0;
    ghost var k := 0;
    NoneDone(cs);
    AllRead(cs, 0, big);
    while f < |from|
      invariant k <= |cs| && f <= |from| && i <= k
      invariant from[f..] == Wide(Utf16(cs[k..]), big) && out == Utf8(cs[..k])
      invariant f == |from| <==> k == |cs|
      decreases |rooms| - i
    {
      var buf := new bv8[rooms[i]];
      assert from[f..|from|] == from[f..];
      var f', t', more := Utf16ToUtf8(from, big, f, |from|, buf, 0, buf.Length, cs[k..]);
      AtLeastOne8(cs[k..], more, buf.Length - t');
      Utf8Concat(cs[..k], cs[k..][..more]);
      assert cs[..k] + cs[k..][..more] == cs[..k + more];
      assert cs[k..][more..] == cs[k + more..];
      out := out + buf[..t'];
      assert buf[..t'] == buf[0..t'];
      f, k, i := f', k + more, i + 1;
      assert from[f..|from|] == from[f..];
      AllRead(cs, k, big);
    }
    assert cs[..k] == cs;
  }

  /** UTF-8 to UTF-16, in either byte order, and back: the same bytes, whatever the limits. */
  method RoundTrip(bytes: seq<bv8>, big: bool, rooms16: seq<nat>, rooms8: seq<nat>,
                   ghost cs: seq<Scalar>) returns (back: seq<bv8>)
    requires bytes == Utf8(cs) && EnoughRoom(rooms16, |cs|, 2) && EnoughRoom(rooms8, |cs|, 4)
    ensures back == bytes
  {
    hide Utf8, Utf16, Wide;
    var units := Utf8ToUtf16InPieces(bytes, rooms16, cs);
    back := Utf16ToUtf8InPieces(Wide(units, big), big, rooms8, cs);
  }

  // ---------- Latin-1 and UTF-8 to UTF-8 ----------

  /** The characters of Latin-1 bytes. */
  function Latin1(bytes: seq<bv8>): (cs: seq<Scalar>)
    ensures |cs| == |bytes| && forall i :: 0 <= i < |bytes| ==> cs[i] == bytes[i] as bv32
  {
    if bytes == [] then [] else Latin1(bytes[..|bytes| - 1]) + [Latin1Char(bytes[|bytes| - 1])]
  }

  function Latin1Char(b: bv8): (c: Scalar)
    ensures c == b as bv32
  {
    b as bv32
  }

  /** What latin1_toUtf8 writes for one byte. */
  function Latin1To8(c: bv8): seq<bv8> {
    if c & 0x80 != 0 then [(c >> 6) | 0xC0, (c & 0x3F) | 0x80] else [c]
  }

  lemma Latin1Bytes(c: bv8)
    ensures Utf8Bytes(c as bv32) == Latin1To8(c)
  {}

  /** latin1_toUtf8. */
  method Latin1ToUtf8(from: seq<bv8>, f: nat, fromLim: nat, to: array<bv8>, t: nat, toLim: nat)
    returns (f': nat, t': nat)
    requires f <= fromLim <= |from| && t <= toLim <= to.Length
    modifies to
    ensures f <= f' <= fromLim && t <= t' <= toLim
    ensures to[t..t'] == Utf8(Latin1(from[f..f']))
    ensures forall j :: 0 <= j < to.Length && !(t <= j < t') ==> to[j] == old(to[j])
    ensures f' < fromLim ==> toLim - t' < |Utf8Bytes(from[f'] as bv32)|
  {
    hide Utf8Bytes, Utf8, Latin1, Latin1To8;
    f', t' := f, t;
    assert from[f..f] == [];
    NoLatin1();
    while true
      invariant f <= f' <= fromLim && t <= t' <= toLim
      invariant to[t..t'] == Utf8(Latin1(from[f..f']))
      invariant forall j :: 0 <= j < to.Length && !(t <= j < t') ==> to[j] == old(to[j])
      decreases fromLim - f'
    {
      if f' == fromLim {
        break;
      }
      var out := Latin1To8(from[f']);
      Latin1Bytes(from[f']);
      Latin1Snoc(from, f, f');
      if toLim - t' < |out| {
        break;
      }
      ghost var before := to[..];
      Store(to, t', out);
      Extended(before, to[..], t, t', out);
      t' := t' + |out|;
      f' := f' + 1;
    }
  }

  lemma Extended<T>(a: seq<T>, b: seq<T>, t: nat, mid: nat, out: seq<T>)
    requires t <= mid && mid + |out| <= |a| == |b|
    requires b[..mid] == a[..mid] && b[mid..mid + |out|] == out
    ensures b[t..mid + |out|] == a[t..mid] + out
  {
    assert b[t..mid] == b[..mid][t..] == a[t..mid];
    assert b[t..mid + |out|] == b[t..mid] + b[mid..mid + |out|];
  }

  lemma NoLatin1()
    ensures Utf8(Latin1([])) == []
  {}

  lemma Latin1Snoc(from: seq<bv8>, f: nat, i: nat)
    requires f <= i < |from|
    ensures Utf8(Latin1(from[f..i + 1])) == Utf8(Latin1(from[f..i])) + Utf8Bytes(from[i] as bv32)
  {
    hide Utf8Bytes;
    var cs := Latin1(from[f..i + 1]);
    Utf8Snoc(cs, i - f);
    assert cs[..i - f] == Latin1(from[f..i]);
    assert cs[..i - f + 1] == cs;
  }

  /** Where the back-off of utf8_toUtf8 ends: at f, or after a byte that is no trail byte. */
  function BackOff(from: seq<bv8>, f: nat, lim: nat): (e: nat)
    requires f <= lim <= |from|
    ensures f <= e <= lim && (e == f || !IsTrail(from[e - 1])) && forall i :: e <= i < lim ==> IsTrail(from[i])
  {
    if lim == f || !IsTrail(from[lim - 1]) then lim else BackOff(from, f, lim - 1)
  }

  /** How far utf8_toUtf8 copies: everything if it fits; otherwise up to the last byte within the
      room that is no trail byte. */
  function CopyEnd(from: seq<bv8>, f: nat, fromLim: nat, room: nat): nat
    requires f <= fromLim <= |from|
  {
    if fromLim - f <= room then fromLim else BackOff(from, f, f + room)
  }

  /** utf8_toUtf8. */
  method Utf8ToUtf8(from: seq<bv8>, f: nat, fromLim: nat, to: array<bv8>, t: nat, toLim: nat) returns (f': nat, t': nat)
    requires f <= fromLim <= |from| && t <= toLim <= to.Length
    modifies to
    ensures f <= f' <= fromLim && t' - t == f' - f && t' <= toLim
    ensures to[t..t'] == from[f..f']
    ensures forall j :: 0 <= j < to.Length && !(t <= j < t') ==> to[j] == old(to[j])
    ensures f' == CopyEnd(from, f, fromLim, toLim - t)
  {
    var lim := fromLim;
    if fromLim - f > toLim - t {
      lim := f + (toLim - t);
      while lim > f
        invariant f <= lim <= f + (toLim - t)
        invariant BackOff(from, f, lim) == BackOff(from, f, f + (toLim - t))
      {
        if from[lim - 1] & 0xC0 != 0x80 {
          break;
        }
        lim := lim - 1;
      }
    }
    f', t' := f, t;
    while f' != lim
      invariant f <= f' <= lim && t' - t == f' - f
      invariant to[t..t'] == from[f..f']
      invariant forall j :: 0 <= j < to.Length && !(t <= j < t') ==> to[j] == old(to[j])
      decreases lim - f'
    {
      to[t'] := from[f'];
      f', t' := f' + 1, t' + 1;
    }
  }

  /** The first n bytes are whole characters. */
  ghost predicate OnBoundary(cs: seq<Scalar>, n: nat) {
    exists k: nat :: k <= |cs| && n == |Utf8(cs[..k])|
  }

  /** "Avoid copying partial characters" is not what the back-off does: with room for a whole
      two-byte character it still stops between its bytes. */
  lemma BackOffSplitsACharacter()
    ensures var cs: seq<Scalar> := [0xE9, 0x41];
      && Utf8(cs) == [0xC3, 0xA9, 0x41] && CopyEnd(Utf8(cs), 0, 3, 2) == 1
      && !OnBoundary(cs, 1) && OnBoundary(cs, 2)
  {
    var cs: seq<Scalar> := [0xE9, 0x41];
    assert Utf8(cs[1..]) == [0x41] by { assert cs[1..][1..] == []; assert Utf8Bytes(0x41) == [0x41]; }
    assert Utf8Bytes(0xE9) == [0xC3, 0xA9];
    NonTrailBoundary(cs, 1);
    assert BackOff(Utf8(cs), 0, 1) == 1;
    assert cs[..1] == [cs[0]] && cs[..1][1..] == [];
    assert |Utf8(cs[..1])| == 2;
  }

  lemma LeadAndTrail(c: Scalar)
    ensures var u := Utf8Bytes(c);
      && 1 <= |u| <= 4 && !IsTrail(u[0]) && (u[0] < 0x80 <==> |u| == 1)
      && forall i :: 1 <= i < |u| ==> IsTrail(u[i])
  {}

  /** After a byte that is no trail byte there is a character boundary exactly if it is ASCII. */
  lemma {:induction false} NonTrailBoundary(cs: seq<Scalar>, n: nat)
    requires 1 <= n <= |Utf8(cs)| && !IsTrail(Utf8(cs)[n - 1])
    ensures OnBoundary(cs, n) <==> Utf8(cs)[n - 1] < 0x80
    decreases |cs|
  {
    hide Utf8Bytes, IsTrail;
    LeadAndTrail(cs[0]);
    var u := |Utf8Bytes(cs[0])|;
    FirstBoundary(cs, n);
    assert Utf8(cs) == Utf8Bytes(cs[0]) + Utf8(cs[1..]);
    if n > u {
      NonTrailBoundary(cs[1..], n - u);
    } else {
      assert Utf8(cs)[n - 1] == Utf8Bytes(cs[0])[n - 1];
      NoneDone(cs[1..]);
      assert 0 == |Utf8(cs[1..][..0])|;
    }
  }

  /** Boundaries of a string are its start and the boundaries after its first character. */
  lemma FirstBoundary(cs: seq<Scalar>, n: nat)
    requires cs != [] && n >= 1
    ensures var u := |Utf8Bytes(cs[0])|;
      OnBoundary(cs, n) <==> n >= u && OnBoundary(cs[1..], n - u)
  {
    hide Utf8Bytes;
    var u := |Utf8Bytes(cs[0])|;
    if OnBoundary(cs, n) {
      var k: nat :| k <= |cs| && n == |Utf8(cs[..k])|;
      assert k > 0;
      assert cs[..k][1..] == cs[1..][..k - 1];
    }
    if n >= u && OnBoundary(cs[1..], n - u) {
      var k: nat :| k <= |cs[1..]| && n - u == |Utf8(cs[1..][..k])|;
      assert cs[..k + 1][1..] == cs[1..][..k];
      assert n == |Utf8(cs[..k + 1])|;
    }
  }

  /** Well-formed text does not start with a trail byte, and none follows an ASCII character. */
  lemma {:induction false} TrailFollows(cs: seq<Scalar>, n: nat)
    requires n < |Utf8(cs)| && IsTrail(Utf8(cs)[n])
    ensures n > 0 && Utf8(cs)[n - 1] >= 0x80
    decreases |cs|
  {
    hide Utf8Bytes;
    LeadAndTrail(cs[0]);
    var u := Utf8Bytes(cs[0]);
    assert Utf8(cs) == u + Utf8(cs[1..]);
    if n < |u| {
      TrailInside(cs[0], n);
    } else {
      assert Utf8(cs)[n] == Utf8(cs[1..])[n - |u|];
      TrailFollows(cs[1..], n - |u|);
    }
  }

  lemma TrailInside(c: Scalar, n: nat)
    requires n < |Utf8Bytes(c)| && IsTrail(Utf8Bytes(c)[n])
    ensures n > 0 && Utf8Bytes(c)[n - 1] >= 0x80
  {}

  /** Well-formed text that is copied from its start ends on a character boundary exactly if all of
      it fits, or there is no room, or the last byte within the room is ASCII. */
  lemma CopyOnBoundary(cs: seq<Scalar>, room: nat)
    ensures var bytes := Utf8(cs);
      OnBoundary(cs, CopyEnd(bytes, 0, |bytes|, room)) <==>
      room >= |bytes| || room == 0 || bytes[room - 1] < 0x80
  {
    hide Utf8, BackOff, OnBoundary, IsTrail;
    var bytes := Utf8(cs);
    if room >= |bytes| {
      EndsAreBoundaries(cs);
    } else {
      EndsAreBoundaries(cs);
      var e := BackOff(bytes, 0, room);
      AsciiIsNoTrail();
      if e > 0 {
        NonTrailBoundary(cs, e);
      }
      if e < room {
        TrailFollows(cs, e);
      }
    }
  }

  lemma AsciiIsNoTrail()
    ensures forall b: bv8 :: IsTrail(b) ==> b >= 0x80
  {}

  lemma EndsAreBoundaries(cs: seq<Scalar>)
    ensures OnBoundary(cs, 0) && OnBoundary(cs, |Utf8(cs)|)
  {
    hide Utf8;
    NoneDone(cs);
    assert cs[..|cs|] == cs && 0 == |Utf8(cs[..0])|;
  }

  /** The same, of part of a larger input. */
  lemma {:induction false} CopyShifts(from: seq<bv8>, f: nat, fromLim: nat, room: nat)
    requires f <= fromLim <= |from|
    ensures CopyEnd(from, f, fromLim, room) == f + CopyEnd(from[f..fromLim], 0, fromLim - f, room)
  {
    hide BackOff;
    if room < fromLim - f {
      BackOffShifts(from, f, fromLim, room);
    }
  }

  lemma {:induction false} BackOffShifts(from: seq<bv8>, f: nat, fromLim: nat, room: nat)
    requires f + room <= fromLim <= |from|
    ensures BackOff(from, f, f + room) == f + BackOff(from[f..fromLim], 0, room)
    decreases room
  {
    hide IsTrail;
    if room > 0 {
      assert from[f..fromLim][room - 1] == from[f + room - 1];
      BackOffShifts(from, f, fromLim, room - 1);
    }
  }

  /** utf8_toUtf8 on well-formed text: the characters it is about to copy stay whole exactly if all
      of them fit, or there is no room, or the last byte within the room is ASCII. */
  lemma PartialCopyBoundary(from: seq<bv8>, f: nat, fromLim: nat, room: nat, cs: seq<Scalar>)
    requires f <= fromLim <= |from| && from[f..fromLim] == Utf8(cs)
    ensures f <= CopyEnd(from, f, fromLim, room)
    ensures OnBoundary(cs, CopyEnd(from, f, fromLim, room) - f) <==>
      room >= fromLim - f || room == 0 || from[f + room - 1] < 0x80
  {
    hide Utf8, BackOff, OnBoundary;
    CopyShifts(from, f, fromLim, room);
    CopyOnBoundary(cs, room);
  }
}
