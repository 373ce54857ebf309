/** Single characters in UTF-8 and UTF-16 (RFC 3629 section 3, RFC 2781 section 2): the encoders
    XmlUtf8Encode and XmlUtf16Encode, the byte classes, and the tests for invalid sequences. */
module Utf {

  /** A Unicode scalar value. */
  type Scalar = c: bv32 | c < 0x11_0000 && !(0xD800 <= c < 0xE000) witness 0

  /** The cast of an int to a one-byte character. */
  function Byte(x: bv32): bv8 {
    (x & 0xFF) as bv8
  }

  /** The cast of an int to an unsigned short. */
  function Unit(x: bv32): bv16 {
    (x & 0xFFFF) as bv16
  }

  // ---------- Encoding ----------

  function Utf8Bytes(c: bv32): seq<bv8> {
    if c < 0x80 then [Byte(c)]
    else if c < 0x800 then [Byte((c >> 6) | 0xC0), Byte((c & 0x3F) | 0x80)]
    else if c < 0x1_0000 then
      [Byte((c >> 12) | 0xE0), Byte(((c >> 6) & 0x3F) | 0x80), Byte((c & 0x3F) | 0x80)]
    else
      [Byte((c >> 18) | 0xF0), Byte(((c >> 12) & 0x3F) | 0x80), Byte(((c >> 6) & 0x3F) | 0x80), Byte((c & 0x3F) | 0x80)]
  }

  function Utf16Units(c: bv32): seq<bv16> {
    if c < 0x1_0000 then [Unit(c)]
    else [Unit(((c - 0x1_0000) >> 10) + 0xD800), Unit(((c - 0x1_0000) & 0x3FF) + 0xDC00)]
  }

  /** A byte that continues a character. */
  predicate IsTrail(b: bv8) {
    b & 0xC0 == 0x80
  }

  predicate Is2(c: bv32, p: bv8, q: bv8) {
    && c >= 0x80 && p & 0xE0 == 0xC0 && IsTrail(q)
    && c == ((p & 0x1F) as bv32 << 6) | (q & 0x3F) as bv32
  }

  predicate Is3(c: bv32, p: bv8, q: bv8, r: bv8) {
    && c >= 0x800 && p & 0xF0 == 0xE0 && IsTrail(q) && IsTrail(r)
    && c == ((p & 0xF) as bv32 << 12) | ((q & 0x3F) as bv32 << 6) | (r & 0x3F) as bv32
  }

  predicate Is4(c: bv32, p: bv8, q: bv8, r: bv8, s: bv8) {
    && c >= 0x1_0000 && p & 0xF8 == 0xF0 && IsTrail(q) && IsTrail(r) && IsTrail(s)
    && c == ((p & 0x7) as bv32 << 18) | ((q & 0x3F) as bv32 << 12) | ((r & 0x3F) as bv32 << 6) | (s & 0x3F) as bv32
  }

  /** RFC 3629 section 3, in the decoder's direction: the bits that mark the bytes of a sequence, what the
      others make up, and no sequence longer than needed. */
  predicate IsUtf8(c: bv32, u: seq<bv8>) {
    || (|u| == 1 && u[0] < 0x80 && c == u[0] as bv32)
    || (|u| == 2 && Is2(c, u[0], u[1]))
    || (|u| == 3 && Is3(c, u[0], u[1], u[2]))
    || (|u| == 4 && Is4(c, u[0], u[1], u[2], u[3]))
  }

  /** RFC 2781 section 2.1: one unit below 0x10000, and above it ten bits each in two surrogates. */
  predicate IsUtf16(c: bv32, u: seq<bv16>) {
    || (|u| == 1 && c == u[0] as bv32)
    || (|u| == 2 && IsPair(c, u[0], u[1]))
  }

  predicate IsPair(c: bv32, h: bv16, l: bv16) {
    && c >= 0x1_0000 && h & 0xFC00 == 0xD800 && l & 0xFC00 == 0xDC00
    && c - 0x1_0000 == ((h & 0x3FF) as bv32 << 10) | (l & 0x3FF) as bv32
  }

  lemma Utf8Values(c: bv32)
    requires c < 0x11_0000
    ensures IsUtf8(c, Utf8Bytes(c))
  {
    hide Byte, Is2, Is3, Is4;
    if c < 0x80 {
      OneByteValue(c);
    } else if c < 0x800 {
      TwoByteValue(c);
    } else if c < 0x1_0000 {
      ThreeByteValue(c);
    } else {
      FourByteValue(c);
    }
  }

  lemma OneByteValue(c: bv32)
    requires c < 0x80
    ensures Byte(c) < 0x80 && c == Byte(c) as bv32
  {}

  lemma TwoByteValue(c: bv32)
    requires 0x80 <= c < 0x800
    ensures Is2(c, Byte((c >> 6) | 0xC0), Byte((c & 0x3F) | 0x80))
  {}

  lemma ThreeByteValue(c: bv32)
    requires 0x800 <= c < 0x1_0000
    ensures Is3(c, Byte((c >> 12) | 0xE0), Byte(((c >> 6) & 0x3F) | 0x80), Byte((c & 0x3F) | 0x80))
  {}

  lemma FourByteValue(c: bv32)
    requires 0x1_0000 <= c < 0x11_0000
    ensures Is4(c, Byte((c >> 18) | 0xF0), Byte(((c >> 12) & 0x3F) | 0x80), Byte(((c >> 6) & 0x3F) | 0x80),
                Byte((c & 0x3F) | 0x80))
  {}

  lemma Utf16Values(c: bv32)
    requires c < 0x11_0000
    ensures IsUtf16(c, Utf16Units(c))
  {
    hide Unit, IsPair;
    if c < 0x1_0000 {
      UnitValue(c);
    } else {
      SurrogateValue(c);
    }
  }

  lemma UnitValue(c: bv32)
    requires c < 0x1_0000
    ensures Unit(c) as bv32 == c
  {}

  lemma SurrogateValue(c: bv32)
    requires 0x1_0000 <= c < 0x11_0000
    ensures IsPair(c, Unit(((c - 0x1_0000) >> 10) + 0xD800), Unit(((c - 0x1_0000) & 0x3FF) + 0xDC00))
  {}

  /** The sign bit of an int held in 32 bits. */
  predicate Negative(c: bv32) {
    c & 0x8000_0000 != 0
  }

  /** XmlUtf8Encode: the number of bytes written, 0 for a number that is no code point. */
  method Utf8Encode(c: bv32, buf: array<bv8>) returns (n: nat)
    requires buf.Length >= 4
    modifies buf
    ensures n == 0 <==> Negative(c) || c >= 0x11_0000
    ensures n > 0 ==> n == |Utf8Bytes(c)| && buf[..n] == Utf8Bytes(c)
  {
    if Negative(c) {
      return 0;
    }
    if c < 0x80 {
      buf[0] := Byte(c);
      return 1;
    }
    if c < 0x800 {
      buf[0] := Byte((c >> 6) | 0xC0);
      buf[1] := Byte((c & 0x3F) | 0x80);
      return 2;
    }
    if c < 0x1_0000 {
      buf[0] := Byte((c >> 12) | 0xE0);
      buf[1] := Byte(((c >> 6) & 0x3F) | 0x80);
      buf[2] := Byte((c & 0x3F) | 0x80);
      return 3;
    }
    if c < 0x11_0000 {
      buf[0] := Byte((c >> 18) | 0xF0);
      buf[1] := Byte(((c >> 12) & 0x3F) | 0x80);
      buf[2] := Byte(((c >> 6) & 0x3F) | 0x80);
      buf[3] := Byte((c & 0x3F) | 0x80);
      return 4;
    }
    return 0;
  }

  /** XmlUtf16Encode. */
  method Utf16Encode(c: bv32, buf: array<bv16>) returns (n: nat)
    requires buf.Length >= 2
    modifies buf
    ensures n == 0 <==> Negative(c) || c >= 0x11_0000
    ensures n > 0 ==> n == |Utf16Units(c)| && buf[..n] == Utf16Units(c)
  {
    if Negative(c) {
      return 0;
    }
    if c < 0x1_0000 {
      buf[0] := Unit(c);
      return 1;
    }
    if c < 0x11_0000 {
      buf[0] := Unit(((c - 0x1_0000) >> 10) + 0xD800);
      buf[1] := Unit(((c - 0x1_0000) & 0x3FF) + 0xDC00);
      return 2;
    }
    return 0;
  }

  // ---------- Decoding one character ----------

  /** The part of the byte type table that the converters consult. */
  datatype ByteType = Lead2 | Lead3 | Lead4 | Other

  function TypeOf(b: bv8): ByteType {
    if 0xC0 <= b < 0xE0 then Lead2
    else if 0xE0 <= b < 0xF0 then Lead3
    else if 0xF0 <= b < 0xF5 then Lead4
    else Other
  }

  /** What utf8_toUtf16 stores for a two-byte sequence. */
  function From2(p: bv8, q: bv8): bv16 {
    ((p & 0x1F) as bv16 << 6) | (q & 0x3F) as bv16
  }

  function From3(p: bv8, q: bv8, r: bv8): bv16 {
    ((p & 0xF) as bv16 << 12) | ((q & 0x3F) as bv16 << 6) | (r & 0x3F) as bv16
  }

  /** n in the four-byte case, after 0x10000 has been taken away. */
  function From4(p: bv8, q: bv8, r: bv8, s: bv8): bv32 {
    (((p & 0x7) as bv32 << 18) | ((q & 0x3F) as bv32 << 12) | ((r & 0x3F) as bv32 << 6) | (s & 0x3F) as bv32) - 0x1_0000
  }

  lemma Decodes1(c: bv32)
    requires c < 0x80
    ensures TypeOf(Byte(c)) == Other && Byte(c) as bv16 == Unit(c)
  {}

  lemma Decodes2(c: bv32)
    requires 0x80 <= c < 0x800
    ensures TypeOf(Byte((c >> 6) | 0xC0)) == Lead2
    ensures From2(Byte((c >> 6) | 0xC0), Byte((c & 0x3F) | 0x80)) == Unit(c)
  {}

  lemma Decodes3(c: bv32)
    requires 0x800 <= c < 0x1_0000
    ensures TypeOf(Byte((c >> 12) | 0xE0)) == Lead3
    ensures From3(Byte((c >> 12) | 0xE0), Byte(((c >> 6) & 0x3F) | 0x80), Byte((c & 0x3F) | 0x80)) == Unit(c)
  {}

  lemma Decodes4(c: bv32)
    requires 0x1_0000 <= c < 0x11_0000
    ensures TypeOf(Byte((c >> 18) | 0xF0)) == Lead4
    ensures From4(Byte((c >> 18) | 0xF0), Byte(((c >> 12) & 0x3F) | 0x80), Byte(((c >> 6) & 0x3F) | 0x80),
      Byte((c & 0x3F) | 0x80))
      == c - 0x1_0000
  {}

  lemma SurrogateBits(c: bv32, n: bv32)
    requires 0x1_0000 <= c < 0x11_0000 && n == c - 0x1_0000
    ensures Utf16Units(c) == [Unit((n >> 10) | 0xD800), Unit((n & 0x3FF) | 0xDC00)]
  {
    SurrogateSums(n);
    hide Unit;
  }

  lemma SurrogateSums(n: bv32)
    requires n < 0x10_0000
    ensures (n >> 10) | 0xD800 == (n >> 10) + 0xD800
    ensures (n & 0x3FF) | 0xDC00 == (n & 0x3FF) + 0xDC00
  {}

  /** The units stored for the sequence that starts with byte u[0]. */
  ghost predicate DecodesAs(u: seq<bv8>, units: seq<bv16>)
    requires u != []
  {
    match TypeOf(u[0])
    case Lead2 => |u| == 2 && units == [From2(u[0], u[1])]
    case Lead3 => |u| == 3 && units == [From3(u[0], u[1], u[2])]
    case Lead4 => |u| == 4 &&
      var n := From4(u[0], u[1], u[2], u[3]);
      units == [Unit((n >> 10) | 0xD800), Unit((n & 0x3FF) | 0xDC00)]
    case Other => |u| == 1 && units == [u[0] as bv16]
  }

  lemma DecodesBelow800(c: bv32)
    requires c < 0x800
    ensures DecodesAs(Utf8Bytes(c), Utf16Units(c))
  {
    hide TypeOf, From2, From3, From4, Byte, Unit;
    if c < 0x80 {
      Decodes1(c);
    } else {
      Decodes2(c);
    }
  }

  lemma DecodesBelow10000(c: bv32)
    requires 0x800 <= c < 0x1_0000
    ensures DecodesAs(Utf8Bytes(c), Utf16Units(c))
  {
    hide TypeOf, From2, From3, From4, Byte, Unit;
    Decodes3(c);
  }

  lemma DecodesAbove(c: bv32)
    requires 0x1_0000 <= c < 0x11_0000
    ensures DecodesAs(Utf8Bytes(c), Utf16Units(c))
  {
    hide TypeOf, From2, From3, From4, Byte, Unit, Utf16Units;
    hide Utf8Bytes;
    var u := FourBytes(c);
    Decodes4(c);
    var n := From4(u[0], u[1], u[2], u[3]);
    SurrogateBits(c, n);
  }

  lemma FourBytes(c: bv32) returns (u: seq<bv8>)
    requires 0x1_0000 <= c < 0x11_0000
    ensures u == Utf8Bytes(c) && |u| == 4
    ensures u[0] == Byte((c >> 18) | 0xF0) && u[1] == Byte(((c >> 12) & 0x3F) | 0x80)
    ensures u[2] == Byte(((c >> 6) & 0x3F) | 0x80) && u[3] == Byte((c & 0x3F) | 0x80)
  {
    hide Byte;
    u := Utf8Bytes(c);
  }

  /** The converter's arithmetic on the bytes of a character gives its UTF-16 units. */
  lemma Decodes8(c: Scalar)
    ensures DecodesAs(Utf8Bytes(c), Utf16Units(c))
  {
    hide DecodesAs, Utf8Bytes, Utf16Units;
    if c < 0x800 {
      DecodesBelow800(c);
    } else if c < 0x1_0000 {
      DecodesBelow10000(c);
    } else {
      DecodesAbove(c);
    }
  }

  // ---------- From UTF-16 units, byte by byte ----------

  function Hi(u: bv16): bv8 {
    (u >> 8) as bv8
  }

  function Lo(u: bv16): bv8 {
    (u & 0xFF) as bv8
  }

  predicate IsHighSurrogate(hi: bv8) {
    0xD8 <= hi <= 0xDB
  }

  /** What toUtf8 writes for a unit that is no high surrogate. */
  function To8(hi: bv8, lo: bv8): seq<bv8> {
    if hi == 0 && lo < 0x80 then [lo]
    else if hi <= 7 then [(lo >> 6) | (hi << 2) | 0xC0, (lo & 0x3F) | 0x80]
    else [(hi >> 4) | 0xE0, ((hi & 0xF) << 2) | (lo >> 6) | 0x80, (lo & 0x3F) | 0x80]
  }

  function Plane(hi: bv8, lo: bv8): bv8 {
    (((hi & 0x3) << 2) | ((lo >> 6) & 0x3)) + 1
  }

  /** What it writes for a surrogate pair. */
  function PairTo8(hi: bv8, lo: bv8, hi2: bv8, lo2: bv8): seq<bv8> {
    var plane := Plane(hi, lo);
    [(plane >> 2) | 0xF0,
     ((lo >> 2) & 0xF) | ((plane & 0x3) << 4) | 0x80,
     ((lo & 0x3) << 4) | ((hi2 & 0x3) << 2) | (lo2 >> 6) | 0x80,
     (lo2 & 0x3F) | 0x80]
  }

  lemma Encodes1(c: bv32)
    requires c < 0x80
    ensures Hi(Unit(c)) == 0 && Lo(Unit(c)) < 0x80 && Lo(Unit(c)) == Byte(c)
  {}

  lemma Encodes2(c: bv32)
    requires 0x80 <= c < 0x800
    ensures var hi, lo := Hi(Unit(c)), Lo(Unit(c));
      && hi <= 7 && !(hi == 0 && lo < 0x80)
      && (lo >> 6) | (hi << 2) | 0xC0 == Byte((c >> 6) | 0xC0) && (lo & 0x3F) | 0x80 == Byte((c & 0x3F) | 0x80)
  {}

  lemma Encodes3(c: Scalar)
    requires 0x800 <= c < 0x1_0000
    ensures var hi, lo := Hi(Unit(c)), Lo(Unit(c));
      && hi > 7 && !IsHighSurrogate(hi)
      && (hi >> 4) | 0xE0 == Byte((c >> 12) | 0xE0)
      && ((hi & 0xF) << 2) | (lo >> 6) | 0x80 == Byte(((c >> 6) & 0x3F) | 0x80)
      && (lo & 0x3F) | 0x80 == Byte((c & 0x3F) | 0x80)
  {}

  lemma SmallHigh(hi: bv8)
    requires hi <= 7
    ensures !IsHighSurrogate(hi)
  {}

  lemma Encodes4(c: bv32, h: bv16, l: bv16)
    requires 0x1_0000 <= c < 0x11_0000
    requires h == Unit(((c - 0x1_0000) >> 10) + 0xD800) && l == Unit(((c - 0x1_0000) & 0x3FF) + 0xDC00)
    ensures IsHighSurrogate(Hi(h))
    ensures var plane := Plane(Hi(h), Lo(h));
      && (plane >> 2) | 0xF0 == Byte((c >> 18) | 0xF0)
      && ((Lo(h) >> 2) & 0xF) | ((plane & 0x3) << 4) | 0x80 == Byte(((c >> 12) & 0x3F) | 0x80)
      && ((Lo(h) & 0x3) << 4) | ((Hi(l) & 0x3) << 2) | (Lo(l) >> 6) | 0x80 == Byte(((c >> 6) & 0x3F) | 0x80)
      && (Lo(l) & 0x3F) | 0x80 == Byte((c & 0x3F) | 0x80)
  {}

  lemma PairEncodes(c: bv32, h: bv16, l: bv16)
    requires 0x1_0000 <= c < 0x11_0000
    requires h == Unit(((c - 0x1_0000) >> 10) + 0xD800) && l == Unit(((c - 0x1_0000) & 0x3FF) + 0xDC00)
    ensures IsHighSurrogate(Hi(h)) && PairTo8(Hi(h), Lo(h), Hi(l), Lo(l)) == Utf8Bytes(c)
  {
    Encodes4(c, h, l);
    var u := FourBytes(c);
    hide Byte, Unit, Hi, Lo, IsHighSurrogate, Plane, Utf8Bytes;
  }

  /** The bytes written for the units of a character. */
  ghost predicate EncodesAs(units: seq<bv16>, u: seq<bv8>) {
    units != [] &&
    if IsHighSurrogate(Hi(units[0])) then
      |units| == 2 && u == PairTo8(Hi(units[0]), Lo(units[0]), Hi(units[1]), Lo(units[1]))
    else |units| == 1 && u == To8(Hi(units[0]), Lo(units[0]))
  }

  lemma EncodesBelow800(c: bv32)
    requires c < 0x800
    ensures EncodesAs(Utf16Units(c), Utf8Bytes(c))
  {
    hide Byte, Unit, Hi, Lo, IsHighSurrogate;
    if c < 0x80 {
      Encodes1(c);
    } else {
      Encodes2(c);
    }
    SmallHigh(Hi(Unit(c)));
  }

  lemma EncodesBelow10000(c: Scalar)
    requires 0x800 <= c < 0x1_0000
    ensures EncodesAs(Utf16Units(c), Utf8Bytes(c))
  {
    hide Byte, Unit, Hi, Lo, IsHighSurrogate;
    Encodes3(c);
  }

  lemma EncodesAbove(c: bv32)
    requires 0x1_0000 <= c < 0x11_0000
    ensures EncodesAs(Utf16Units(c), Utf8Bytes(c))
  {
    hide Byte, Unit, Hi, Lo, IsHighSurrogate, PairTo8, Utf8Bytes;
    var units := Utf16Units(c);
    PairEncodes(c, units[0], units[1]);
  }

  /** The converter's arithmetic on the units of a character gives its UTF-8 bytes. */
  lemma Encodes16(c: Scalar)
    ensures EncodesAs(Utf16Units(c), Utf8Bytes(c))
  {
    hide EncodesAs, Utf8Bytes, Utf16Units;
    if c < 0x800 {
      EncodesBelow800(c);
    } else if c < 0x1_0000 {
      EncodesBelow10000(c);
    } else {
      EncodesAbove(c);
    }
  }

  // ---------- Invalid sequences ----------

  /** UTF8_INVALID2 */
  predicate Invalid2(p: bv8, q: bv8) {
    p < 0xC2 || q & 0x80 == 0 || q & 0xC0 == 0xC0
  }

  /** UTF8_INVALID3 */
  predicate Invalid3(p: bv8, q: bv8, r: bv8) {
    || r & 0x80 == 0
    || (if p == 0xEF && q == 0xBF then r > 0xBD else r & 0xC0 == 0xC0)
    || (if p == 0xE0 then q < 0xA0 || q & 0xC0 == 0xC0
        else q & 0x80 == 0 || (if p == 0xED then q > 0x9F else q & 0xC0 == 0xC0))
  }

  /** UTF8_INVALID4 */
  predicate Invalid4(p: bv8, q: bv8, r: bv8, s: bv8) {
    || s & 0x80 == 0 || s & 0xC0 == 0xC0
    || r & 0x80 == 0 || r & 0xC0 == 0xC0
    || (if p == 0xF0 then q < 0x90 || q & 0xC0 == 0xC0
        else q & 0x80 == 0 || (if p == 0xF4 then q > 0x8F else q & 0xC0 == 0xC0))
  }

  /** A code point XML text may hold: no surrogate, and neither U+FFFE nor U+FFFF. */
  predicate Allowed(c: bv32) {
    c < 0x11_0000 && !(0xD800 <= c < 0xE000) && c != 0xFFFE && c != 0xFFFF
  }

  lemma Valid2IsImage(p: bv8, q: bv8)
    requires TypeOf(p) == Lead2 && !Invalid2(p, q)
    ensures var c := From2(p, q) as bv32;
      0x80 <= c < 0x800 && p == Byte((c >> 6) | 0xC0) && q == Byte((c & 0x3F) | 0x80)
  {}

  lemma Image2IsValid(c: bv32)
    requires 0x80 <= c < 0x800
    ensures !Invalid2(Byte((c >> 6) | 0xC0), Byte((c & 0x3F) | 0x80))
  {}

  lemma Valid3IsImage(p: bv8, q: bv8, r: bv8)
    requires TypeOf(p) == Lead3 && !Invalid3(p, q, r)
    ensures var c := From3(p, q, r) as bv32;
      Allowed(c) && 0x800 <= c < 0x1_0000
      && p == Byte((c >> 12) | 0xE0) && q == Byte(((c >> 6) & 0x3F) | 0x80) && r == Byte((c & 0x3F) | 0x80)
  {}

  lemma Image3IsValid(c: bv32)
    requires Allowed(c) && 0x800 <= c < 0x1_0000
    ensures !Invalid3(Byte((c >> 12) | 0xE0), Byte(((c >> 6) & 0x3F) | 0x80), Byte((c & 0x3F) | 0x80))
  {}

  lemma Valid4IsImage(p: bv8, q: bv8, r: bv8, s: bv8) returns (c: bv32)
    requires TypeOf(p) == Lead4 && !Invalid4(p, q, r, s)
    ensures 0x1_0000 <= c < 0x11_0000
    ensures p == Byte((c >> 18) | 0xF0) && q == Byte(((c >> 12) & 0x3F) | 0x80)
    ensures r == Byte(((c >> 6) & 0x3F) | 0x80) && s == Byte((c & 0x3F) | 0x80)
  {
    c := From4(p, q, r, s) + 0x1_0000;
  }

  lemma Image4IsValid(c: bv32)
    requires 0x1_0000 <= c < 0x11_0000
    ensures !Invalid4(Byte((c >> 18) | 0xF0), Byte(((c >> 12) & 0x3F) | 0x80), Byte(((c >> 6) & 0x3F) | 0x80),
      Byte((c & 0x3F) | 0x80))
  {}

  /** UTF8_INVALID2 accepts, after a lead byte of its class, exactly the encodings of characters. */
  lemma Invalid2Exact(p: bv8, q: bv8)
    requires TypeOf(p) == Lead2
    ensures !Invalid2(p, q) <==> exists c :: Allowed(c) && Utf8Bytes(c) == [p, q]
  {
    hide Invalid2, From2, Byte, TypeOf;
    if !Invalid2(p, q) {
      Valid2IsImage(p, q);
      var c := From2(p, q) as bv32;
      assert Allowed(c) && Utf8Bytes(c) == [p, q];
    }
    if c :| Allowed(c) && Utf8Bytes(c) == [p, q] {
      LengthTells(c);
      Image2IsValid(c);
    }
  }

  lemma Invalid3Exact(p: bv8, q: bv8, r: bv8)
    requires TypeOf(p) == Lead3
    ensures !Invalid3(p, q, r) <==> exists c :: Allowed(c) && Utf8Bytes(c) == [p, q, r]
  {
    hide Invalid3, From3, Byte, TypeOf;
    if !Invalid3(p, q, r) {
      Valid3IsImage(p, q, r);
      var c := From3(p, q, r) as bv32;
      assert Allowed(c) && Utf8Bytes(c) == [p, q, r];
    }
    if c :| Allowed(c) && Utf8Bytes(c) == [p, q, r] {
      LengthTells(c);
      Image3IsValid(c);
    }
  }

  lemma Invalid4Exact(p: bv8, q: bv8, r: bv8, s: bv8)
    requires TypeOf(p) == Lead4
    ensures !Invalid4(p, q, r, s) <==> exists c :: Allowed(c) && Utf8Bytes(c) == [p, q, r, s]
  {
    hide Invalid4, From4, Byte, TypeOf, Utf8Bytes, Allowed;
    if !Invalid4(p, q, r, s) {
      var c := Decode4(p, q, r, s);
      assert Allowed(c) && Utf8Bytes(c) == [p, q, r, s];
    }
    if c :| Allowed(c) && Utf8Bytes(c) == [p, q, r, s] {
      LengthTells(c);
      var u := FourBytes(c);
      Image4IsValid(c);
    }
  }

  lemma Decode4(p: bv8, q: bv8, r: bv8, s: bv8) returns (c: bv32)
    requires TypeOf(p) == Lead4 && !Invalid4(p, q, r, s)
    ensures Allowed(c) && Utf8Bytes(c) == [p, q, r, s]
  {
    hide Invalid4, Byte, TypeOf, Utf8Bytes;
    c := Valid4IsImage(p, q, r, s);
    var u := FourBytes(c);
    AboveAllowed(c);
    assert u == [p, q, r, s];
  }

  lemma AboveAllowed(c: bv32)
    requires 0x1_0000 <= c < 0x11_0000
    ensures Allowed(c)
  {}

  lemma LengthTells(c: bv32)
    requires Allowed(c)
    ensures |Utf8Bytes(c)| == 2 ==> 0x80 <= c < 0x800
    ensures |Utf8Bytes(c)| == 3 ==> 0x800 <= c < 0x1_0000
    ensures |Utf8Bytes(c)| == 4 ==> 0x1_0000 <= c < 0x11_0000
    ensures 1 <= |Utf8Bytes(c)| <= 4
  {
    hide Byte;
  }
}
