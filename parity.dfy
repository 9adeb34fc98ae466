/**
 * The parity codec: counting the set bits of a byte read as unsigned, the
 * parity of a byte sequence, and what a single or a double bit error does
 * to that parity.
 */
module ParityCodec {
  import opened Bytes

  function Pow2(k: nat): (p: nat)
    ensures p >= 1
  {
    if k == 0 then 1 else 2 * Pow2(k - 1)
  }

  /** The number of set bits of a natural number. */
  function PopCount(u: nat): nat {
    if u == 0 then 0 else u % 2 + PopCount(u / 2)
  }

  /** Bit `i` of `u`, bit 0 being the least significant. */
  function BitAt(u: nat, i: nat): nat {
    if i == 0 then u % 2 else BitAt(u / 2, i - 1)
  }

  /** `u` with bit `i` inverted. */
  function FlipBit(u: nat, i: nat): nat {
    if i == 0 then (if u % 2 == 1 then u - 1 else u + 1)
    else 2 * FlipBit(u / 2, i - 1) + u % 2
  }

  lemma PopCountStep(u: nat)
    ensures PopCount(u) == u % 2 + PopCount(u / 2)
  {
  }

  /** A number below 2^k has at most k set bits. */
  lemma {:induction false} PopCountBelow(u: nat, k: nat)
    requires u < Pow2(k)
    ensures PopCount(u) <= k
  {
    if u != 0 {
      assert k > 0;
      PopCountBelow(u / 2, k - 1);
    }
  }

  /**
   * FlipBit inverts bit i and leaves every other bit as it was: it is a
   * one-bit error, which is what gives `SingleBitErrorDetected` its meaning.
   */
  lemma {:induction false} FlipBitOnly(u: nat, i: nat, j: nat)
    ensures BitAt(FlipBit(u, i), j) == if j == i then 1 - BitAt(u, i) else BitAt(u, j)
  {
    var f := FlipBit(u, i);
    if i == 0 {
      assert f / 2 == u / 2;
    } else {
      assert f % 2 == u % 2 && f / 2 == FlipBit(u / 2, i - 1);
      if j > 0 {
        FlipBitOnly(u / 2, i - 1, j - 1);
      }
    }
  }

  /** Inverting one bit changes the number of set bits by exactly one. */
  lemma {:induction false} FlipBitPopCount(u: nat, i: nat)
    ensures PopCount(FlipBit(u, i)) == if BitAt(u, i) == 1 then PopCount(u) - 1 else PopCount(u) + 1
  {
    var f := FlipBit(u, i);
    PopCountStep(f);
    PopCountStep(u);
    if i == 0 {
      assert f / 2 == u / 2;
    } else {
      assert f % 2 == u % 2 && f / 2 == FlipBit(u / 2, i - 1);
      FlipBitPopCount(u / 2, i - 1);
    }
  }

  /** Inverting one of the low k bits of a number below 2^k keeps it below 2^k. */
  lemma {:induction false} FlipBitBelow(u: nat, i: nat, k: nat)
    requires u < Pow2(k) && i < k
    ensures FlipBit(u, i) < Pow2(k)
  {
    var half := Pow2(k - 1);
    assert Pow2(k) == 2 * half;
    assert u == 2 * (u / 2) + u % 2 && u / 2 < half;
    if i == 0 {
      assert u % 2 == 0 ==> u + 1 < 2 * half;
    } else {
      FlipBitBelow(u / 2, i - 1, k - 1);
      assert FlipBit(u, i) == 2 * FlipBit(u / 2, i - 1) + u % 2;
    }
  }

  /** The count sumOnes computes: the set bits of the byte's unsigned value, 0 to 8. */
  function Ones(b: Byte): (n: nat)
    ensures n <= 8
  {
    assert Pow2(8) == 256;
    PopCountBelow(Unsigned(b), 8);
    PopCount(Unsigned(b))
  }

  /** The total number of set bits of a byte sequence. */
  function OnesOf(s: seq<Byte>): nat {
    if s == [] then 0 else Ones(s[0]) + OnesOf(s[1..])
  }

  /** The parity bit of a byte sequence: 0 for an even number of set bits, 1 for an odd one. */
  function Parity(s: seq<Byte>): Byte {
    OnesOf(s) % 2
  }

  lemma {:induction false} OnesOfConcat(a: seq<Byte>, b: seq<Byte>)
    ensures OnesOf(a + b) == OnesOf(a) + OnesOf(b)
  {
    if a == [] {
      assert a + b == b;
    } else {
      assert (a + b)[1..] == a[1..] + b;
      OnesOfConcat(a[1..], b);
    }
  }

  /** Replacing one byte changes the count by the difference of the two bytes' counts. */
  lemma {:induction false} OnesOfUpdate(s: seq<Byte>, j: nat, x: Byte)
    requires j < |s|
    ensures OnesOf(s[j := x]) + Ones(s[j]) == OnesOf(s) + Ones(x)
  {
    if j == 0 {
      assert s[j := x][1..] == s[1..];
    } else {
      assert s[j := x][1..] == s[1..][j - 1 := x];
      OnesOfUpdate(s[1..], j - 1, x);
    }
  }

  /** The byte `b` with its bit `i` (0 = least significant) inverted, as a one-bit transmission error leaves it. */
  function FlipByteBit(b: Byte, i: nat): Byte
    requires i < 8
  {
    ToByte(FlipBit(Unsigned(b), i))
  }

  /** A one-bit error in a byte changes its count of set bits by one, whatever the byte's sign. */
  lemma FlipByteBitOnes(b: Byte, i: nat)
    requires i < 8
    ensures Ones(FlipByteBit(b, i)) == Ones(b) + 1 || Ones(FlipByteBit(b, i)) + 1 == Ones(b)
  {
    var u := Unsigned(b);
    assert Pow2(8) == 256;
    FlipBitBelow(u, i, 8);
    FlipBitPopCount(u, i);
    var f := FlipBit(u, i);
    UnsignedOfCast(f);
    assert Ones(FlipByteBit(b, i)) == PopCount(f);
  }

  /** Casting a value 0..255 to a byte and reading it back unsigned gives the value. */
  lemma UnsignedOfCast(x: nat)
    requires x < 256
    ensures Unsigned(ToByte(x)) == x
  {
  }

  /** A one-bit error in one byte of a sequence changes the sequence's count of set bits by one. */
  lemma FlipOnesOf(s: seq<Byte>, j: nat, i: nat)
    requires j < |s| && i < 8
    ensures var n := OnesOf(s[j := FlipByteBit(s[j], i)]);
            n == OnesOf(s) + 1 || n + 1 == OnesOf(s)
  {
    OnesOfUpdate(s, j, FlipByteBit(s[j], i));
    FlipByteBitOnes(s[j], i);
  }

  /** Counts one apart have different parities. */
  lemma AdjacentCountsDifferInParity(m: nat, n: nat)
    requires n == m + 1 || n + 1 == m
    ensures n % 2 != m % 2
  {
  }

  /** Counts that differ by zero or two have the same parity. */
  lemma CountsTwoApartAgreeInParity(m: nat, n: nat)
    requires n == m || n == m + 2 || n + 2 == m
    ensures n % 2 == m % 2
  {
  }

  /** Any one-bit error anywhere in a byte sequence changes its parity. */
  lemma SingleBitFlipChangesParity(s: seq<Byte>, j: nat, i: nat)
    requires j < |s| && i < 8
    ensures Parity(s[j := FlipByteBit(s[j], i)]) != Parity(s)
  {
    var t := s[j := FlipByteBit(s[j], i)];
    FlipOnesOf(s, j, i);
    AdjacentCountsDifferInParity(OnesOf(s), OnesOf(t));
  }

  /** Two one-bit errors in two different bytes leave the parity as it was: the detector's blind spot. */
  lemma TwoFlipsInDistinctBytesUndetected(s: seq<Byte>, j1: nat, i1: nat, j2: nat, i2: nat)
    requires j1 < |s| && j2 < |s| && j1 != j2 && i1 < 8 && i2 < 8
    ensures Parity(s[j1 := FlipByteBit(s[j1], i1)][j2 := FlipByteBit(s[j2], i2)]) == Parity(s)
  {
    var s1 := s[j1 := FlipByteBit(s[j1], i1)];
    var s2 := s1[j2 := FlipByteBit(s[j2], i2)];
    FlipOnesOf(s, j1, i1);
    assert s1[j2] == s[j2];
    FlipOnesOf(s1, j2, i2);
    CountsTwoApartAgreeInParity(OnesOf(s), OnesOf(s2));
  }

  /** One round of sumOnes: the low bit of a byte and of its unsigned value agree, and shifting drops it. */
  lemma ShiftStep(d: Byte)
    ensures d % 2 == Unsigned(d) % 2
    ensures Unsigned(ToByte(Unsigned(d) / 2)) == Unsigned(d) / 2
    ensures 0 <= d ==> ToByte(d / 2) == ToByte(Unsigned(d) / 2)
    ensures PopCount(Unsigned(d)) == Unsigned(d) % 2 + PopCount(Unsigned(d) / 2)
  {
    var u := Unsigned(d);
    LowBitOfUnsigned(d);
    HalfIsByte(u);
    PopCountStep(u);
  }

  /** The low bit of a negative byte survives adding 256. */
  lemma LowBitOfUnsigned(d: Byte)
    ensures d % 2 == Unsigned(d) % 2
  {
    if d < 0 {
      assert Unsigned(d) == d + 256;
    }
  }

  /** Half an unsigned byte value fits a byte unchanged. */
  lemma HalfIsByte(u: nat)
    requires u < 256
    ensures ToByte(u / 2) == u / 2 && Unsigned(ToByte(u / 2)) == u / 2
  {
  }
}
