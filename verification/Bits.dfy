/** Bit strings, most significant bit first, and the shifts the bit-level kernels are written with. */
module Bits {
  import opened Octets

  type BitString = seq<bool>

  function ValueOf(bits: BitString): (v: nat)
  {
    if |bits| == 0 then 0
    else 2 * ValueOf(bits[..|bits| - 1]) + (if bits[|bits| - 1] then 1 else 0)
  }

  /** The n low bits of v; for a negative v those of its two's complement. */
  function BitsOf(v: int, n: nat): (bits: BitString)
    ensures |bits| == n
    decreases n, v - v
  {
    if n == 0 then [] else BitsOf(v / 2, n - 1) + [v % 2 == 1]
  }

  function AllBits(s: Bytes): (bits: BitString)
    ensures |bits| == 8 * |s|
  {
    if |s| == 0 then [] else AllBits(s[..|s| - 1]) + BitsOf(s[|s| - 1], 8)
  }

  /** v >> k; for a negative v this is the arithmetic shift. */
  function Shr(v: int, k: nat): (r: int)
    ensures v >= 0 ==> r >= 0
    decreases k
  {
    if k == 0 then v else Shr(v / 2, k - 1)
  }

  /** (s[i / 8] >> (7 - i % 8)) & 1 */
  function BitAt(s: Bytes, i: nat): (b: bool)
    requires i < 8 * |s|
  {
    Shr(s[i / 8], 7 - i % 8) % 2 == 1
  }

  /** x | (1 << k) */
  function OrBit(x: nat, k: nat): (r: nat)
  {
    if Shr(x, k) % 2 == 1 then x else x + Power(2, k)
  }

  /** a | b */
  function Or(a: nat, b: nat): (r: nat)
    ensures a == 0 ==> r == b
    ensures b == 0 ==> r == a
  {
    if a == 0 && b == 0 then 0 else 2 * Or(a / 2, b / 2) + (if a % 2 == 1 || b % 2 == 1 then 1 else 0)
  }

  /** Where the operands share no bit positions, | is +. */
  lemma {:induction false} OrDisjoint(a: nat, b: nat, k: nat)
    requires b < Power(2, k)
    ensures Or(a * Power(2, k), b) == a * Power(2, k) + b
    decreases k
  {
    if k > 0 {
      MulRotates(a, 2, Power(2, k - 1));
      OrDisjoint(a, b / 2, k - 1);
    }
  }

  function NoBits(n: nat): (bits: BitString)
    ensures |bits| == n
  {
    seq(n, _ => false)
  }

  lemma {:induction false} ValueOfConcat(a: BitString, b: BitString)
    ensures ValueOf(a + b) == ValueOf(a) * Power(2, |b|) + ValueOf(b)
  {
    if |b| == 0 {
      assert a + b == a;
    } else {
      var b' := b[..|b| - 1];
      assert (a + b)[..|a + b| - 1] == a + b';
      ValueOfConcat(a, b');
      MulRotates(ValueOf(a), 2, Power(2, |b'|));
    }
  }

  lemma {:induction false} ValueOfBound(a: BitString)
    ensures ValueOf(a) < Power(2, |a|)
  {
    if |a| > 0 {
      ValueOfBound(a[..|a| - 1]);
    }
  }

  lemma {:induction false} BitsOfValue(a: BitString)
    ensures BitsOf(ValueOf(a), |a|) == a
  {
    if |a| > 0 {
      BitsOfValue(a[..|a| - 1]);
      assert ValueOf(a) / 2 == ValueOf(a[..|a| - 1]);
    }
  }

  lemma {:induction false} ValueOfBits(v: nat, n: nat)
    requires v < Power(2, n)
    ensures ValueOf(BitsOf(v, n)) == v
  {
    if n > 0 {
      ValueOfBits(v / 2, n - 1);
      assert BitsOf(v, n)[..n - 1] == BitsOf(v / 2, n - 1);
    }
  }

  /** Shifting right drops low bits. */
  lemma {:induction false} BitsOfShr(v: int, k: nat, n: nat)
    ensures BitsOf(Shr(v, k), n) == BitsOf(v, n + k)[..n]
    decreases k
  {
    if k > 0 {
      BitsOfShr(v / 2, k - 1, n);
    }
  }

  /** Shifting left and filling in appends low bits. */
  lemma {:induction false} BitsOfShl(v: int, w: nat, n: nat, k: nat)
    requires w < Power(2, k)
    ensures BitsOf(v * Power(2, k) + w, n + k) == BitsOf(v, n) + BitsOf(w, k)
    decreases k
  {
    if k > 0 {
      var p: int := v * Power(2, k - 1);
      MulRotates(v, 2, Power(2, k - 1));
      assert (2 * p + w) / 2 == p + w / 2;
      BitsOfShl(v, w / 2, n, k - 1);
    }
  }

  /** Bits below the wrap-around position survive it. */
  lemma {:induction false} BitsOfWrap(v: int, q: int, m: nat, n: nat)
    requires n <= m
    ensures BitsOf(v + q * Power(2, m), n) == BitsOf(v, n)
    decreases n
  {
    if n > 0 {
      var p: int := q * Power(2, m - 1);
      MulRotates(q, 2, Power(2, m - 1));
      assert (v + 2 * p) / 2 == v / 2 + p;
      BitsOfWrap(v / 2, q, m - 1, n - 1);
    }
  }

  lemma BitsOfInt32(v: int, n: nat)
    requires n <= 32
    ensures BitsOf(ToInt32(v), n) == BitsOf(v, n)
  {
    var q :| ToInt32(v) == v + q * 0x1_0000_0000;
    PowersOfTwo();
    BitsOfWrap(v, q, 32, n);
  }

  /** v & (2^n - 1) */
  lemma {:induction false} MaskValue(v: int, n: nat)
    ensures v % Power(2, n) == ValueOf(BitsOf(v, n))
    decreases n
  {
    if n > 0 {
      MaskValue(v / 2, n - 1);
      assert BitsOf(v, n)[..n - 1] == BitsOf(v / 2, n - 1);
      MaskStep(v, Power(2, n - 1));
    }
  }

  lemma {:induction false} UniqueRemainder(v: int, d: int, q: int, r: int)
    requires v == q * d + r && 0 <= r < d
    ensures v / d == q && v % d == r
  {
    var k := v / d - q;
    assert v == (v / d) * d + v % d;
    MulDistributes(v / d, -q, d);
    assert k * d == r - v % d;
    assert k >= 1 ==> k * d >= d;
    assert k <= -1 ==> k * d <= -d;
  }

  lemma {:induction false} MaskStep(v: int, p: nat)
    requires p > 0
    ensures v % (2 * p) == 2 * (v / 2 % p) + v % 2
  {
    var q, r := v / 2 / p, v / 2 % p;
    assert v / 2 == q * p + r;
    assert v == q * (2 * p) + (2 * r + v % 2);
    UniqueRemainder(v, 2 * p, q, 2 * r + v % 2);
  }

  lemma {:induction false} BitsOfAt(v: nat, n: nat, i: nat)
    requires i < n
    ensures BitsOf(v, n)[i] == (Shr(v, n - 1 - i) % 2 == 1)
  {
    if i < n - 1 {
      BitsOfAt(v / 2, n - 1, i);
    }
  }

  lemma {:induction false} ValueOfUpdate(bits: BitString, i: nat)
    requires i < |bits| && !bits[i]
    ensures ValueOf(bits[i := true]) == ValueOf(bits) + Power(2, |bits| - 1 - i)
  {
    var front := bits[..|bits| - 1];
    if i < |bits| - 1 {
      ValueOfUpdate(front, i);
      assert bits[i := true][..|bits| - 1] == front[i := true];
    } else {
      assert bits[i := true][..|bits| - 1] == front;
    }
  }

  /** OR with a single bit sets that bit and no other. */
  lemma OrBitSets(bits: BitString, i: nat)
    requires i < |bits|
    ensures OrBit(ValueOf(bits), |bits| - 1 - i) == ValueOf(bits[i := true])
  {
    BitsOfValue(bits);
    BitsOfAt(ValueOf(bits), |bits|, i);
    if bits[i] {
      assert bits[i := true] == bits;
    } else {
      ValueOfUpdate(bits, i);
    }
  }

  lemma {:induction false} AllBitsAt(s: Bytes, i: nat)
    requires i < 8 * |s|
    ensures AllBits(s)[i] == BitAt(s, i)
  {
    if i < 8 * (|s| - 1) {
      AllBitsAt(s[..|s| - 1], i);
    } else {
      BitsOfAt(s[|s| - 1], 8, i % 8);
      assert i / 8 == |s| - 1;
    }
  }

  lemma NoValue()
    ensures ValueOf([]) == 0
  {
  }

  /** A byte string and its bit string denote the same number. */
  lemma {:induction false} AllBitsValue(s: Bytes)
    ensures ValueOf(AllBits(s)) == BigEndian(s)
  {
    hide BitsOf, Power, ValueOf;
    if |s| > 0 {
      var s' := s[..|s| - 1];
      AllBitsValue(s');
      ValueOfConcat(AllBits(s'), BitsOf(s[|s| - 1], 8));
      PowersOfTwo();
      ValueOfBits(s[|s| - 1], 8);
    } else {
      NoValue();
    }
  }

  lemma {:induction false} AllBitsConcat(s: Bytes, t: Bytes)
    ensures AllBits(s + t) == AllBits(s) + AllBits(t)
  {
    if |t| == 0 {
      assert s + t == s;
    } else {
      assert (s + t)[..|s + t| - 1] == s + t[..|t| - 1];
      AllBitsConcat(s, t[..|t| - 1]);
    }
  }
}
