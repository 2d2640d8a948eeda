/** Fixed-width integers and the byte-level arithmetic the codec is built on.

    The source works with C# `byte`, `ushort`, `uint`, `ulong` and their signed
    counterparts; here they are subset types of `int`, and every truncation or
    shift the source performs is written out explicitly:
    - a cast to `byte` keeps the low eight bits, which is `x % 256` (Dafny's `%`
      is Euclidean, so this also holds for negative `x`);
    - an arithmetic right shift by `8` is `x / 256` (Dafny's `/` by a positive
      divisor rounds towards minus infinity, exactly like `>>` on signed values).
 */
module Numerics {

  type uint8 = x: int | 0 <= x < 0x100
  type uint16 = x: int | 0 <= x < 0x1_0000
  type uint32 = x: int | 0 <= x < 0x1_0000_0000
  type uint64 = x: int | 0 <= x < 0x1_0000_0000_0000_0000
  type int8 = x: int | -0x80 <= x < 0x80
  type int16 = x: int | -0x8000 <= x < 0x8000
  type int32 = x: int | -0x8000_0000 <= x < 0x8000_0000
  type int64 = x: int | -0x8000_0000_0000_0000 <= x < 0x8000_0000_0000_0000

  /** 256^n: the number of values an n-byte field can hold. */
  function Pow256(n: nat): (r: nat)
    ensures r > 0
  {
    if n == 0 then 1 else 256 * Pow256(n - 1)
  }

  /** 2^k, used to express left shifts of non-negative values. */
  function Pow2(k: nat): (r: nat)
    ensures r > 0
  {
    if k == 0 then 1 else 2 * Pow2(k - 1)
  }

  /** Value of a byte sequence whose FIRST byte is least significant
      (what `BitConverter.ToUIntNN` computes on a little-endian host). */
  function LittleEndianValue(bs: seq<uint8>): (r: nat)
    ensures r < Pow256(|bs|)
  {
    if |bs| == 0 then 0 else bs[0] + 256 * LittleEndianValue(bs[1..])
  }

  /** Value of a byte sequence whose first byte is MOST significant (network
      byte order). Defined independently of `LittleEndianValue`. */
  function BigEndianValue(bs: seq<uint8>): (r: nat)
    ensures r < Pow256(|bs|)
  {
    if |bs| == 0 then 0 else 256 * BigEndianValue(bs[..|bs| - 1]) + bs[|bs| - 1]
  }

  /** `Enumerable.Reverse`: the same elements in the opposite order. */
  function Reverse<T>(s: seq<T>): (r: seq<T>)
    ensures |r| == |s|
    ensures forall i :: 0 <= i < |s| ==> r[i] == s[|s| - 1 - i]
  {
    if |s| == 0 then [] else [s[|s| - 1]] + Reverse(s[..|s| - 1])
  }

  /** The byte-producing loop shared by every `BinaryWriter.WriteXxx`:
      `array[i] = (byte)item; item >>= 8;` for `i` in `0 .. n-1`. It is the same
      loop for signed and unsigned items, so it is stated once over `int`. */
  function ShiftOutBytes(x: int, n: nat): (r: seq<uint8>)
    ensures |r| == n
    decreases n
  {
    if n == 0 then [] else [x % 256] + ShiftOutBytes(x / 256, n - 1)
  }

  /** Two's-complement reading of an n-byte unsigned value (`BitConverter.ToIntNN`
      and the `(sbyte)` cast). */
  function ToSigned(u: int, n: nat): int
  {
    if u >= Pow256(n) / 2 then u - Pow256(n) else u
  }

  /** Bitwise OR of two non-negative integers, bit by bit from the least
      significant end (C#'s `|` on non-negative `int`s). */
  function BitOr(a: nat, b: nat): nat
    decreases a + b
  {
    if a == 0 then b
    else if b == 0 then a
    else 2 * BitOr(a / 2, b / 2) + (if a % 2 == 1 || b % 2 == 1 then 1 else 0)
  }

  // ---------------------------------------------------------------------
  // Arithmetic helpers

  /** Quotient and remainder are unique. */
  lemma DivModUnique(x: int, m: int, q: int, r: int)
    requires m > 0 && 0 <= r < m && x == q * m + r
    ensures x / m == q && x % m == r
  {
    var d := x / m - q;
    assert d * m == r - x % m by {
      assert x == (x / m) * m + x % m;
      assert (x / m) * m - q * m == d * m;
    }
  }

  /** Dividing by `a` and then by `b` is dividing by `a * b`. */
  lemma DivDiv(x: int, a: int, b: int)
    requires a > 0 && b > 0
    ensures x / (a * b) == (x / a) / b
  {
    var q1, r1 := x / a, x % a;
    var q2, r2 := q1 / b, q1 % b;
    assert x == a * q1 + r1;
    assert q1 == b * q2 + r2;
    assert a * q1 == (a * b) * q2 + a * r2 by {
      MulAddDistributes(a, b * q2, r2);
      assert a * (b * q2) == (a * b) * q2;
    }
    assert a * r2 + r1 < a * b by {
      MulAddDistributes(a, r2, b - 1 - r2);
      assert a * (b - 1 - r2) >= 0;
      MulAddDistributes(a, b - 1, 1);
    }
    DivModUnique(x, a * b, q2, a * r2 + r1);
  }

  lemma MulAddDistributes(a: int, u: int, v: int)
    ensures a * (u + v) == a * u + a * v
  {
  }

  // ---------------------------------------------------------------------
  // Encoding laws

  /** The writer loop produces the little-endian digits of `x mod 256^n`;
      reading them back little-endian yields exactly that residue. */
  lemma {:induction false} LittleEndianOfShiftOut(x: int, n: nat)
    ensures LittleEndianValue(ShiftOutBytes(x, n)) == x % Pow256(n)
    decreases n
  {
    if n > 0 {
      var rest := ShiftOutBytes(x / 256, n - 1);
      assert ShiftOutBytes(x, n)[1..] == rest;
      LittleEndianOfShiftOut(x / 256, n - 1);
      ModSplit(x, Pow256(n - 1));
    }
  }

  /** The residue modulo `256 * p` splits into the low byte and the residue of
      the rest modulo `p`. */
  lemma ModSplit(x: int, p: int)
    requires p > 0
    ensures x % (256 * p) == x % 256 + 256 * ((x / 256) % p)
  {
    var q, lo, r := x / 256, x % 256, (x / 256) % p;
    var q2 := q / p;
    assert x == q2 * (256 * p) + (lo + 256 * r) by {
      assert x == 256 * q + lo;
      assert q == q2 * p + r;
      MulAddDistributes(256, q2 * p, r);
      assert 256 * (q2 * p) == q2 * (256 * p);
    }
    DivModUnique(x, 256 * p, q2, lo + 256 * r);
  }

  /** Byte `i` of the writer loop is `(x >> 8i) mod 256`. */
  lemma {:induction false} ShiftOutByteAt(x: int, n: nat, i: nat)
    requires i < n
    ensures ShiftOutBytes(x, n)[i] == (x / Pow256(i)) % 256
    decreases i
  {
    if i > 0 {
      ShiftOutByteAt(x / 256, n - 1, i - 1);
      assert ShiftOutBytes(x, n)[i] == ShiftOutBytes(x / 256, n - 1)[i - 1];
      DivDiv(x, 256, Pow256(i - 1));
    }
  }

  /** Encoding the value of a little-endian byte sequence gives the sequence back. */
  lemma {:induction false} ShiftOutOfLittleEndian(bs: seq<uint8>)
    ensures ShiftOutBytes(LittleEndianValue(bs), |bs|) == bs
  {
    if |bs| > 0 {
      var v := LittleEndianValue(bs);
      DivModUnique(v, 256, LittleEndianValue(bs[1..]), bs[0]);
      ShiftOutOfLittleEndian(bs[1..]);
      assert ShiftOutBytes(v, |bs|) == [bs[0]] + bs[1..];
    }
  }

  /** Only `x mod 256^n` matters to the writer loop: this is why a signed write
      emits the same bytes as the unsigned write of its two's-complement value. */
  lemma ShiftOutModulo(x: int, n: nat)
    ensures ShiftOutBytes(x, n) == ShiftOutBytes(x % Pow256(n), n)
  {
    LittleEndianOfShiftOut(x, n);
    ShiftOutOfLittleEndian(ShiftOutBytes(x, n));
  }

  /** Big-endian reading is little-endian reading of the reversed sequence. */
  lemma {:induction false} BigEndianIsReversedLittleEndian(bs: seq<uint8>)
    ensures BigEndianValue(bs) == LittleEndianValue(Reverse(bs))
  {
    if |bs| > 0 {
      var front := bs[..|bs| - 1];
      BigEndianIsReversedLittleEndian(front);
      assert Reverse(bs)[1..] == Reverse(front);
    }
  }

  lemma ReverseReverse<T>(s: seq<T>)
    ensures Reverse(Reverse(s)) == s
  {
    assert forall i :: 0 <= i < |s| ==> Reverse(Reverse(s))[i] == s[i];
  }

  /** Equal-length byte sequences with the same big-endian value are equal. */
  lemma BigEndianInjective(a: seq<uint8>, b: seq<uint8>)
    requires |a| == |b| && BigEndianValue(a) == BigEndianValue(b)
    ensures a == b
  {
    BigEndianIsReversedLittleEndian(a);
    BigEndianIsReversedLittleEndian(b);
    ShiftOutOfLittleEndian(Reverse(a));
    ShiftOutOfLittleEndian(Reverse(b));
    ReverseReverse(a);
    ReverseReverse(b);
  }

  /** Two's complement: a value in the signed n-byte range survives being
      reduced modulo 256^n and reinterpreted as signed. */
  lemma SignedRoundTrip(x: int, n: nat)
    requires n > 0 && -(Pow256(n) / 2) <= x < Pow256(n) / 2
    ensures ToSigned(x % Pow256(n), n) == x
  {
    if x < 0 {
      DivModUnique(x, Pow256(n), -1, x + Pow256(n));
    } else {
      DivModUnique(x, Pow256(n), 0, x);
    }
  }

  /** The signed reading of an n-byte value is congruent to it modulo 256^n
      and lies in the signed range. */
  lemma SignedReading(u: int, n: nat)
    requires n > 0 && 0 <= u < Pow256(n)
    ensures ToSigned(u, n) % Pow256(n) == u
    ensures -(Pow256(n) / 2) <= ToSigned(u, n) < Pow256(n) / 2
  {
    var m := Pow256(n);
    HalfPow256(n);
    if u >= m / 2 {
      assert ToSigned(u, n) == u - m;
      DivModUnique(u - m, m, -1, u);
    } else {
      assert ToSigned(u, n) == u;
      DivModUnique(u, m, 0, u);
    }
  }

  /** 256^n is even for n > 0: its half is 128 * 256^(n-1). */
  lemma HalfPow256(n: nat)
    requires n > 0
    ensures Pow256(n) / 2 == 128 * Pow256(n - 1)
    ensures Pow256(n) == 2 * (Pow256(n) / 2)
  {
    DivModUnique(Pow256(n), 2, 128 * Pow256(n - 1), 0);
  }

  /** OR-ing a multiple of 2^k with a value below 2^k is addition: the bits do
      not overlap. */
  lemma {:induction false} BitOrDisjoint(hi: nat, lo: nat, k: nat)
    requires lo < Pow2(k)
    ensures BitOr(hi * Pow2(k), lo) == hi * Pow2(k) + lo
  {
    var a := hi * Pow2(k);
    if a != 0 && lo != 0 {
      assert k > 0;
      assert a == 2 * (hi * Pow2(k - 1));
      assert a / 2 == hi * Pow2(k - 1);
      BitOrDisjoint(hi, lo / 2, k - 1);
    }
  }
}
