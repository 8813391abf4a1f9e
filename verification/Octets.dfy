/** Bytes, optional results and fixed-width unsigned integers, as the protocol code uses them. */
module Octets {

  type byte = x: int | 0 <= x < 256

  type Bytes = seq<byte>

  /** std::string: a sequence of bytes without any encoding of its own. */
  type Text = seq<byte>

  datatype Option<+T> = None | Some(value: T) {
    predicate IsFailure() {
      None?
    }

    function PropagateFailure<U>(): Option<U>
      requires None?
    {
      None
    }

    function Extract(): T
      requires Some?
    {
      value
    }

    function GetOr(default: T): T {
      match this
      case Some(v) => v
      case None => default
    }
  }


  type u16 = x: int | 0 <= x < 0x1_0000
  type u32 = x: int | 0 <= x < 0x1_0000_0000
  type u64 = x: int | 0 <= x < 0x1_0000_0000_0000_0000
  type i32 = x: int | -0x8000_0000 <= x < 0x8000_0000

  /** The value of a C++20 int after an operation whose exact result is v: two's complement wrap-around. */
  function ToInt32(v: int): (r: i32)
    ensures exists k :: r == v + k * 0x1_0000_0000
    ensures -0x8000_0000 <= v < 0x8000_0000 ==> r == v
  {
    var m := v % 0x1_0000_0000;
    var q := v / 0x1_0000_0000;
    assert m == v + (-q) * 0x1_0000_0000 && m - 0x1_0000_0000 == v + (-q - 1) * 0x1_0000_0000;
    if m >= 0x8000_0000 then m - 0x1_0000_0000 else m
  }

  /** Wrap-around of a sum does not depend on how the summands were wrapped before. */
  lemma ToInt32Congruent(v: int, w: int, k: int)
    requires v == w + k * 0x1_0000_0000
    ensures ToInt32(v) == ToInt32(w)
  {
    var q := w / 0x1_0000_0000;
    assert w == q * 0x1_0000_0000 + w % 0x1_0000_0000;
    assert v == (q + k) * 0x1_0000_0000 + w % 0x1_0000_0000;
    assert v % 0x1_0000_0000 == w % 0x1_0000_0000;
  }

  function Power(base: nat, n: nat): (p: nat)
    ensures base >= 1 ==> p >= 1
  {
    if n == 0 then 1 else base * Power(base, n - 1)
  }

  lemma MulAssociates(x: int, y: int, z: int)
    ensures x * (y * z) == (x * y) * z
  {
  }

  lemma MulRotates(x: int, y: int, z: int)
    ensures x * (y * z) == y * (x * z)
  {
  }

  lemma MulDistributes(x: int, y: int, z: int)
    ensures (x + y) * z == x * z + y * z
  {
  }

  lemma {:induction false} PowerAdd(base: nat, a: nat, b: nat)
    ensures Power(base, a + b) == Power(base, a) * Power(base, b)
  {
    if a > 0 {
      PowerAdd(base, a - 1, b);
      MulAssociates(base, Power(base, a - 1), Power(base, b));
    }
  }

  lemma PowersOfTwo()
    ensures Power(2, 5) == 32 && Power(2, 8) == 256 && Power(2, 32) == 0x1_0000_0000
  {
    assert Power(2, 1) == 2;
    assert Power(2, 2) == 4;
    assert Power(2, 3) == 8;
    assert Power(2, 4) == 16;
    assert Power(2, 5) == 32;
    PowerAdd(2, 4, 4);
    PowerAdd(2, 8, 8);
    PowerAdd(2, 16, 16);
  }

  /** The number a byte string denotes, most significant byte first. */
  function BigEndian(s: Bytes): (v: nat)
  {
    if |s| == 0 then 0 else 256 * BigEndian(s[..|s| - 1]) + s[|s| - 1]
  }

  lemma {:induction false} BigEndianBound(s: Bytes)
    ensures BigEndian(s) < Power(256, |s|)
  {
    if |s| > 0 {
      BigEndianBound(s[..|s| - 1]);
    }
  }

  lemma {:induction false} BigEndianConcat(s: Bytes, t: Bytes)
    ensures BigEndian(s + t) == BigEndian(s) * Power(256, |t|) + BigEndian(t)
  {
    if |t| == 0 {
      assert s + t == s;
    } else {
      var t' := t[..|t| - 1];
      assert (s + t)[..|s + t| - 1] == s + t';
      BigEndianConcat(s, t');
      MulRotates(BigEndian(s), 256, Power(256, |t'|));
    }
  }

  function U16BE(v: u16): (s: Bytes)
    ensures |s| == 2
  {
    [v / 256, v % 256]
  }

  function U32BE(v: u32): (s: Bytes)
    ensures |s| == 4
  {
    [v / 0x100_0000, v / 0x1_0000 % 256, v / 256 % 256, v % 256]
  }

  function U16LE(v: u16): (s: Bytes)
    ensures |s| == 2
  {
    [v % 256, v / 256]
  }

  function U32LE(v: u32): (s: Bytes)
    ensures |s| == 4
  {
    [v % 256, v / 256 % 256, v / 0x1_0000 % 256, v / 0x100_0000]
  }

  function U64LE(v: u64): (s: Bytes)
    ensures |s| == 8
  {
    U32LE(v % 0x1_0000_0000) + U32LE(v / 0x1_0000_0000)
  }

  function ReadU16(s: Bytes, offset: nat): (v: u16)
    requires offset + 2 <= |s|
  {
    256 * (s[offset] as int) + s[offset + 1] as int
  }

  function ReadU32(s: Bytes, offset: nat): (v: u32)
    requires offset + 4 <= |s|
  {
    0x100_0000 * (s[offset] as int) + 0x1_0000 * (s[offset + 1] as int) + 256 * (s[offset + 2] as int)
    + s[offset + 3] as int
  }

  function ReadU32LE(s: Bytes, offset: nat): (v: u32)
    requires offset + 4 <= |s|
  {
    s[offset] as int + 256 * (s[offset + 1] as int) + 0x1_0000 * (s[offset + 2] as int)
    + 0x100_0000 * (s[offset + 3] as int)
  }

  function ReadU64LE(s: Bytes, offset: nat): (v: u64)
    requires offset + 8 <= |s|
  {
    ReadU32LE(s, offset) + 0x1_0000_0000 * ReadU32LE(s, offset + 4)
  }

  function Zeros(n: nat): (s: Bytes)
    ensures |s| == n
    ensures forall i :: 0 <= i < n ==> s[i] == 0
  {
    seq(n, _ => 0)
  }
}
