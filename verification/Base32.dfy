/** The base32 codec of TOTP secrets (section 6 of RFC 4648, without padding). */
module Base32 {
  import opened Octets
  import opened Bits

  const PADDING: byte := 61

  /** kAlphabet[v] */
  function Symbol(v: nat): (ch: byte)
    requires v < 32
  {
    if v < 26 then 65 + v else 50 + (v - 26)
  }

  /** The five bits a character stands for; characters outside the alphabet stand for nothing. */
  function SymbolValue(ch: byte): (v: Option<nat>)
    ensures v.Some? ==> v.value < 32
  {
    if 65 <= ch <= 90 then Some(ch - 65)
    else if 50 <= ch <= 55 then Some(26 + (ch - 50))
    else None
  }

  /** The bit string cut into groups of five, the last group filled up with zero bits. */
  function Encode(bits: BitString): (s: Text)
    decreases |bits|
  {
    if |bits| == 0 then []
    else if |bits| < 5 then
      ValueOfBound(bits + NoBits(5 - |bits|));
      [Symbol(ValueOf(bits + NoBits(5 - |bits|)))]
    else
      ValueOfBound(bits[..5]);
      [Symbol(ValueOf(bits[..5]))] + Encode(bits[5..])
  }

  /** The bit string cut into whole octets; what is left over is dropped. */
  function Decode(bits: BitString): (s: Bytes)
    decreases |bits|
  {
    if |bits| < 8 then []
    else
      ValueOfBound(bits[..8]);
      [ValueOf(bits[..8])] + Decode(bits[8..])
  }

  /** The bits of the alphabet characters before the first '='. */
  function SymbolBits(s: Text): (bits: BitString)
  {
    if |s| == 0 || s[0] == PADDING then []
    else match SymbolValue(s[0])
      case Some(v) => BitsOf(v, 5) + SymbolBits(s[1..])
      case None => SymbolBits(s[1..])
  }

  /** Section 6 of RFC 4648: the characters carry exactly the bits, followed by fewer than five zero bits. */
  lemma {:induction false} EncodeCarriesBits(bits: BitString) returns (fill: nat)
    ensures fill < 5 && (|bits| + fill) % 5 == 0
    ensures SymbolBits(Encode(bits)) == bits + NoBits(fill)
    decreases |bits|
  {
    if |bits| == 0 {
      fill := 0;
    } else if |bits| < 5 {
      fill := 5 - |bits|;
      var group := bits + NoBits(fill);
      ValueOfBound(group);
      SymbolCarries(group, []);
    } else {
      fill := EncodeCarriesBits(bits[5..]);
      SymbolCarries(bits[..5], Encode(bits[5..]));
      assert bits[..5] + (bits[5..] + NoBits(fill)) == bits + NoBits(fill);
    }
  }

  lemma SymbolCarries(group: BitString, rest: Text)
    requires |group| == 5
    ensures ValueOf(group) < 32
    ensures SymbolBits([Symbol(ValueOf(group))] + rest) == group + SymbolBits(rest)
  {
    PowersOfTwo();
    ValueOfBound(group);
    BitsOfValue(group);
    assert ([Symbol(ValueOf(group))] + rest)[1..] == rest;
  }

  lemma {:induction false} DecodeDropsFill(data: Bytes, fill: nat)
    requires fill < 8
    ensures Decode(AllBits(data) + NoBits(fill)) == data
  {
    if |data| > 0 {
      var rest := data[1..];
      assert data == [data[0]] + rest;
      AllBitsConcat([data[0]], rest);
      assert AllBits([data[0]]) == BitsOf(data[0], 8) by {
        assert [data[0]][..0] == [];
      }
      var bits := AllBits(data) + NoBits(fill);
      assert bits[..8] == BitsOf(data[0], 8) && bits[8..] == AllBits(rest) + NoBits(fill);
      PowersOfTwo();
      ValueOfBits(data[0], 8);
      DecodeDropsFill(rest, fill);
    }
  }

  /** Decoding an encoded secret gives the secret back, whatever its length. */
  lemma RoundTrip(data: Bytes)
    ensures Decode(SymbolBits(Encode(AllBits(data)))) == data
  {
    var fill := EncodeCarriesBits(AllBits(data));
    DecodeDropsFill(data, fill);
  }

  // The accumulator is only ever looked at through its low `bits_left` bits, BitsOf(buffer, bitsLeft):
  // whatever wrapped away above them does not matter.

  lemma ShiftInByte(buffer: i32, bitsLeft: nat, value: nat, n: nat)
    requires n == 5 || n == 8
    requires bitsLeft + n <= 32
    requires value < Power(2, n)
    ensures n == 8
        ==> BitsOf(ToInt32(buffer * 256 + value), bitsLeft + 8) == BitsOf(buffer, bitsLeft) + BitsOf(value, 8)
    ensures n == 5 ==> BitsOf(ToInt32(buffer * 32 + value), bitsLeft + 5) == BitsOf(buffer, bitsLeft) + BitsOf(value, 5)
  {
    PowersOfTwo();
    BitsOfShl(buffer, value, bitsLeft, n);
    BitsOfInt32(buffer * Power(2, n) + value, bitsLeft + n);
  }

  lemma EmitSymbol(buffer: i32, bitsLeft: nat, rest: BitString)
    requires 5 <= bitsLeft
    ensures Encode(BitsOf(buffer, bitsLeft) + rest)
         == [Symbol(Shr(buffer, bitsLeft - 5) % 32)] + Encode(BitsOf(buffer, bitsLeft - 5) + rest)
  {
    var bits := BitsOf(buffer, bitsLeft) + rest;
    BitsOfShr(buffer, bitsLeft - 5, 5);
    MaskValue(Shr(buffer, bitsLeft - 5), 5);
    LowBits(buffer, bitsLeft, bitsLeft - 5);
    PowersOfTwo();
    assert bits[..5] == BitsOf(buffer, bitsLeft)[..5];
    assert bits[5..] == BitsOf(buffer, bitsLeft - 5) + rest;
  }

  lemma EmitOctet(buffer: i32, bitsLeft: nat, rest: BitString)
    requires 8 <= bitsLeft
    ensures Decode(BitsOf(buffer, bitsLeft) + rest)
         == [Shr(buffer, bitsLeft - 8) % 256] + Decode(BitsOf(buffer, bitsLeft - 8) + rest)
  {
    var bits := BitsOf(buffer, bitsLeft) + rest;
    BitsOfShr(buffer, bitsLeft - 8, 8);
    MaskValue(Shr(buffer, bitsLeft - 8), 8);
    LowBits(buffer, bitsLeft, bitsLeft - 8);
    PowersOfTwo();
    assert bits[..8] == BitsOf(buffer, bitsLeft)[..8];
    assert bits[8..] == BitsOf(buffer, bitsLeft - 8) + rest;
  }

  lemma {:induction false} LowBits(v: int, n: nat, k: nat)
    requires k <= n
    ensures BitsOf(v, n)[n - k..] == BitsOf(v, k)
    decreases k
  {
    if k > 0 {
      LowBits(v / 2, n - 1, k - 1);
    }
  }

  lemma EmitLastSymbol(buffer: i32, bitsLeft: nat)
    requires 0 < bitsLeft < 5
    ensures Encode(BitsOf(buffer, bitsLeft)) == [Symbol(ToInt32(buffer * Power(2, 5 - bitsLeft)) % 32)]
  {
    var fill := 5 - bitsLeft;
    var shifted := buffer * Power(2, fill);
    BitsOfShl(buffer, 0, bitsLeft, fill);
    ZeroBits(fill);
    BitsOfInt32(shifted, 5);
    MaskValue(ToInt32(shifted), 5);
    PowersOfTwo();
  }

  lemma {:induction false} ZeroBits(n: nat)
    ensures BitsOf(0, n) == NoBits(n)
  {
    if n > 0 {
      ZeroBits(n - 1);
    }
  }

  lemma TakeInOctet(data: Bytes, i: nat, buffer: i32, bitsLeft: nat)
    requires i < |data| && bitsLeft < 5
    ensures BitsOf(buffer, bitsLeft) + AllBits(data[i..])
         == BitsOf(ToInt32(buffer * 256 + data[i]), bitsLeft + 8) + AllBits(data[i + 1..])
  {
    assert data[i..] == [data[i]] + data[i + 1..];
    AllBitsConcat([data[i]], data[i + 1..]);
    assert [data[i]][..0] == [];
    PowersOfTwo();
    ShiftInByte(buffer, bitsLeft, data[i], 8);
  }

  lemma NothingLeft(buffer: i32, bitsLeft: nat)
    ensures BitsOf(buffer, bitsLeft) + AllBits([]) == BitsOf(buffer, bitsLeft)
    ensures bitsLeft == 0 ==> Encode(BitsOf(buffer, bitsLeft)) == []
  {
  }

  lemma NoSymbolLeft(rest: Text, buffer: i32, bitsLeft: nat)
    requires |rest| == 0 || rest[0] == PADDING
    requires bitsLeft < 8
    ensures Decode(BitsOf(buffer, bitsLeft) + SymbolBits(rest)) == []
  {
  }

  method Base32Encode(data: Bytes) returns (output: Text)
    ensures output == Encode(AllBits(data))
  {
    hide *;
    output := [];
    var buffer: i32 := 0;
    var bitsLeft := 0;
    ghost var whole := Encode(AllBits(data));
    assert data[0..] == data && BitsOf(buffer, 0) + AllBits(data) == AllBits(data);
    for i := 0 to |data|
      invariant 0 <= bitsLeft < 5
      invariant output + Encode(BitsOf(buffer, bitsLeft) + AllBits(data[i..])) == whole
    {
      ghost var rest := AllBits(data[i + 1..]);
      TakeInOctet(data, i, buffer, bitsLeft);
      buffer := ToInt32(buffer * 256 + data[i]);
      bitsLeft := bitsLeft + 8;
      while bitsLeft >= 5
        invariant 0 <= bitsLeft <= 12
        invariant output + Encode(BitsOf(buffer, bitsLeft) + rest) == whole
      {
        EmitSymbol(buffer, bitsLeft, rest);
        output := output + [Symbol(Shr(buffer, bitsLeft - 5) % 32)];
        bitsLeft := bitsLeft - 5;
      }
    }
    NothingLeft(buffer, bitsLeft);
    if bitsLeft > 0 {
      EmitLastSymbol(buffer, bitsLeft);
      output := output + [Symbol(ToInt32(buffer * Power(2, 5 - bitsLeft)) % 32)];
    }
  }

  lemma TakeInSymbol(input: Text, i: nat, buffer: i32, bitsLeft: nat)
    requires i < |input| && input[i] != PADDING && bitsLeft < 8
    ensures BitsOf(buffer, bitsLeft) + SymbolBits(input[i..])
         == match SymbolValue(input[i])
            case Some(value) => BitsOf(ToInt32(buffer * 32 + value), bitsLeft + 5) + SymbolBits(input[i + 1..])
            case None => BitsOf(buffer, bitsLeft) + SymbolBits(input[i + 1..])
  {
    assert input[i..][1..] == input[i + 1..];
    PowersOfTwo();
    if SymbolValue(input[i]).Some? {
      ShiftInByte(buffer, bitsLeft, SymbolValue(input[i]).value, 5);
    }
  }

  method Base32Decode(input: Text) returns (output: Bytes)
    ensures output == Decode(SymbolBits(input))
  {
    hide *;
    output := [];
    var buffer: i32 := 0;
    var bitsLeft := 0;
    var i := 0;
    ghost var whole := Decode(SymbolBits(input));
    assert input[0..] == input && BitsOf(buffer, 0) + SymbolBits(input) == SymbolBits(input);
    while i < |input| && input[i] != PADDING
      invariant i <= |input| && 0 <= bitsLeft < 8
      invariant output + Decode(BitsOf(buffer, bitsLeft) + SymbolBits(input[i..])) == whole
      decreases |input| - i
    {
      ghost var rest := SymbolBits(input[i + 1..]);
      TakeInSymbol(input, i, buffer, bitsLeft);
      match SymbolValue(input[i]) {
        case None =>
        case Some(value) =>
          buffer := ToInt32(buffer * 32 + value);
          bitsLeft := bitsLeft + 5;
          if bitsLeft >= 8 {
            EmitOctet(buffer, bitsLeft, rest);
            output := output + [Shr(buffer, bitsLeft - 8) % 256];
            bitsLeft := bitsLeft - 8;
          }
      }
      i := i + 1;
    }
    NoSymbolLeft(input[i..], buffer, bitsLeft);
  }
}
