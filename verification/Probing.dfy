/** The double-hashing arithmetic shared by the parser's two open-addressing tables:
    SECOND_HASH and PROBE_STEP, the step down that wraps around at the first slot, and why a walk
    with that step meets every slot of a power-of-two table.

    Masks of the form 2^p - 1 are written as remainders and shifts as divisions. */
module Probing {

  /** A name without its terminating NUL. */
  type Key = seq<bv8>

  const ULONG: nat := 0x1_0000_0000_0000_0000

  /** CHAR_HASH on an unsigned long of 64 bits: a product, and the character, one byte, exclusively
      or-ed into its low byte. */
  function CharHash(h: nat, c: bv8): nat {
    var x := h * 0xF4243 % ULONG;
    x / 256 * 256 + (((x % 256) as bv8) ^ c) as nat
  }

  /** The multiplier and the width: all bits but those of the lowest byte, which the character can change. */
  lemma CharHashBits(h: nat, c: bv8)
    ensures CharHash(h, c) / 256 == h * 1000003 % 18446744073709551616 / 256
  {}

  /** hash(s): CHAR_HASH over the characters from first to last, starting from 0. */
  function Hash(key: Key): nat {
    if key == [] then 0 else CharHash(Hash(key[..|key| - 1]), key[|key| - 1])
  }

  function Pow2(p: nat): (r: nat)
    ensures r > 0
  {
    if p == 0 then 1 else 2 * Pow2(p - 1)
  }

  /** SECOND_HASH: the bits that the table index leaves out, shifted down and limited to a quarter of
      the table. */
  function SecondHash(hash: nat, power: nat): nat
    requires power >= 3
  {
    (hash / Pow2(power) * Pow2(power) / Pow2(power - 1)) % Pow2(power - 2)
  }

  /** The lowest bit is set. */
  function SetBit0(x: nat): nat {
    x / 2 * 2 + 1
  }

  /** PROBE_STEP, including the cast to unsigned char. */
  function ProbeStep(hash: nat, power: nat): nat
    requires power >= 3
  {
    SetBit0(SecondHash(hash, power)) % 256
  }

  /** One step of either probe loop. */
  function NextSlot(i: nat, step: nat, size: nat): nat
    requires i < size && step <= size
  {
    if i < step then i + size - step else i - step
  }

  /** The slot reached from the home slot after k steps. */
  function Slot(hash: nat, power: nat, k: nat): (i: nat)
    requires power >= 3
    ensures i < Pow2(power)
  {
    (hash - k * ProbeStep(hash, power)) % Pow2(power)
  }

  /** The step stays odd through the cast and stays below the table size. */
  lemma {:induction false} ProbeStepOddAndSmall(hash: nat, power: nat)
    requires power >= 3
    ensures ProbeStep(hash, power) % 2 == 1
    ensures 0 < ProbeStep(hash, power) < Pow2(power)
    ensures ProbeStep(hash, power) <= 255
  {
    hide SecondHash;
    var q, s := Pow2(power - 3), SecondHash(hash, power);
    assert s < Pow2(power - 2) by { SecondHashSmall(hash, power); }
    assert Pow2(power - 2) == 2 * q && Pow2(power) == 8 * q;
    OddByte(s, q);
  }

  lemma SecondHashSmall(hash: nat, power: nat)
    requires power >= 3
    ensures SecondHash(hash, power) < Pow2(power - 2)
  {
    hide Pow2;
  }

  lemma OddByte(s: nat, q: nat)
    requires s < 2 * q
    ensures (SetBit0(s) % 256) % 2 == 1
    ensures 0 < SetBit0(s) % 256 <= SetBit0(s) < 2 * q
  {
    var y := s / 2;
    var a, r := y / 128, y % 128;
    RemainderUnique(2 * y + 1, a, 256, 2 * r + 1);
    RemainderUnique(2 * r + 1, r, 2, 1);
  }

  lemma {:induction false} MulAtLeast(m: int, n: nat)
    requires n > 0 && m != 0
    ensures m > 0 ==> m * n >= n
    ensures m < 0 ==> m * n + n <= 0
    decreases if m < 0 then -m else m
  {
    if m > 1 {
      MulAtLeast(m - 1, n);
      Distr(m, 1, n);
    } else if m < -1 {
      MulAtLeast(m + 1, n);
      Distr(m, 1, n);
    }
  }

  lemma Distr(x: int, y: int, z: int)
    ensures (x - y) * z == x * z - y * z
    ensures (x + y) * z == x * z + y * z
  {}

  /** The remainder is determined by any quotient that leaves one in range. */
  lemma RemainderUnique(x: int, q: int, n: nat, r: nat)
    requires r < n && x == q * n + r
    ensures x % n == r
  {
    var q', r' := x / n, x % n;
    assert x == q' * n + r';
    Distr(q, q', n);
    if q != q' {
      MulAtLeast(q - q', n);
    }
  }

  lemma HomeSlot(hash: nat, power: nat)
    requires power >= 3
    ensures Slot(hash, power, 0) == hash % Pow2(power)
  {
    hide Pow2, ProbeStep;
  }

  /** The loop's wrapped subtraction walks Slot(0), Slot(1), Slot(2), ... */
  lemma NextSlotIsSlot(hash: nat, power: nat, k: nat)
    requires power >= 3
    ensures ProbeStep(hash, power) <= Pow2(power)
    ensures NextSlot(Slot(hash, power, k), ProbeStep(hash, power), Pow2(power)) == Slot(hash, power, k + 1)
  {
    hide Pow2, ProbeStep;
    ProbeStepOddAndSmall(hash, power);
    WrappedStep(hash, ProbeStep(hash, power), Pow2(power), k);
  }

  lemma WrappedStep(hash: nat, s: nat, n: nat, k: nat)
    requires 0 < s < n
    ensures NextSlot((hash - k * s) % n, s, n) == (hash - (k + 1) * s) % n
  {
    var x := hash - k * s;
    Distr(k, 1, s);
    var i, q := x % n, x / n;
    assert x == q * n + i;
    if i < s {
      Distr(q, 1, n);
      RemainderUnique(x - s, q - 1, n, i + n - s);
    } else {
      RemainderUnique(x - s, q, n, i - s);
    }
  }

  /** An odd number is invertible modulo a power of two: s * t == q * 2^p + 1. */
  lemma {:induction false} OddInverse(s: nat, p: nat) returns (t: nat, q: nat)
    requires s % 2 == 1
    ensures s * t == q * Pow2(p) + 1
  {
    if p == 0 {
      t, q := 1, s - 1;
    } else {
      var t0, q0 := OddInverse(s, p - 1);
      t, q := LiftInverse(s, t0, q0, Pow2(p - 1));
    }
  }

  lemma LiftInverse(s: nat, t0: nat, q0: nat, n: nat) returns (t: nat, q: nat)
    requires s % 2 == 1 && s * t0 == q0 * n + 1
    ensures s * t == q * (2 * n) + 1
  {
    if q0 % 2 == 0 {
      t, q := t0, q0 / 2;
      DoubleHalf(q0, n);
    } else {
      t, q := t0 + n, (q0 + s) / 2;
      calc {
        s * (t0 + n);
        s * t0 + s * n;
        q0 * n + 1 + s * n;
        { Distr(q0, s, n); }
        (q0 + s) * n + 1;
        { DoubleHalf(q0 + s, n); }
        q * (2 * n) + 1;
      }
    }
  }

  lemma DoubleHalf(q: nat, n: nat)
    requires q % 2 == 0
    ensures q * n == (q / 2) * (2 * n)
  {
    var m := q / 2;
    assert q == 2 * m;
  }

  /** The shift in the growth test leaves something exactly when at least half the slots are in use. */
  lemma HalfFull(used: nat, power: nat)
    requires power > 0
    ensures used / Pow2(power - 1) != 0 <==> 2 * used >= Pow2(power)
  {
    var n := Pow2(power - 1);
    assert Pow2(power) == 2 * n;
    hide Pow2;
    if used < n {
      QuotientZero(used, n);
    } else {
      var q := used / n;
      assert used == q * n + used % n;
      assert q == 0 ==> q * n == 0;
    }
  }

  lemma QuotientZero(x: nat, n: nat)
    requires x < n
    ensures x / n == 0
  {
    if x / n != 0 {
      MulAtLeast(x / n, n);
    }
  }

  /** Every slot of the table lies on every probe path. */
  lemma {:induction false} ProbePathMeetsEverySlot(hash: nat, power: nat, j: nat) returns (k: nat)
    requires power >= 3 && j < Pow2(power)
    ensures k < Pow2(power) && Slot(hash, power, k) == j
  {
    hide Pow2, ProbeStep;
    ProbeStepOddAndSmall(hash, power);
    var t, b := OddInverse(ProbeStep(hash, power), power);
    k := StepsTo(hash - j, ProbeStep(hash, power), Pow2(power), t, b);
    var m :| hash - j - k * ProbeStep(hash, power) == m * Pow2(power);
    RemainderUnique(hash - k * ProbeStep(hash, power), m, Pow2(power), j);
  }

  /** d - k * s is a multiple of n for some k < n. */
  lemma StepsTo(d: int, s: nat, n: nat, t: nat, b: nat) returns (k: nat)
    requires n > 0 && s * t == b * n + 1
    ensures k < n
    ensures exists m: int :: d - k * s == m * n
  {
    var a := (d * t) / n;
    k := (d * t) % n;
    assert d * t == a * n + k;
    var m := a * s - d * b;
    calc {
      d - k * s;
      { assert k == d * t - a * n; Distr(d * t, a * n, s); }
      d - (d * t * s - a * n * s);
      { Regroup(d, t, s, b * n + 1); }
      d - (d * (b * n + 1) - a * n * s);
      { Expand(d, b, n); Swap(a, n, s); }
      a * s * n - d * b * n;
      { Distr(a * s, d * b, n); }
      m * n;
    }
  }

  lemma Regroup(d: int, t: int, s: int, v: int)
    requires s * t == v
    ensures d * t * s == d * v
  {
    assert d * t * s == d * (s * t);
  }

  lemma Expand(d: int, b: int, n: int)
    ensures d * (b * n + 1) == d * b * n + d
  {
    assert d * (b * n) == d * b * n;
  }

  lemma Swap(x: int, y: int, z: int)
    ensures x * y * z == x * z * y
  {}
}
