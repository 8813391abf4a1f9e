/** The UTF-8 to UTF-16LE conversion that feeds the NT hash (section 3 of RFC 3629, section 2.1 of RFC 2781). */
module Utf16 {
  import opened Octets

  const REPLACEMENT: Scalar := 0xFFFD

  /** A Unicode scalar value. */
  type Scalar = c: int | 0 <= c < 0xD800 || 0xE000 <= c < 0x11_0000

  // ---------- The two encodings ----------

  function Utf8(c: Scalar): (s: Bytes)
    ensures 1 <= |s| <= 4
  {
    if c < 0x80 then [c]
    else if c < 0x800 then [0xC0 + c / 64, 0x80 + c % 64]
    else if c < 0x1_0000 then [0xE0 + c / 4096, 0x80 + c / 64 % 64, 0x80 + c % 64]
    else [0xF0 + c / 262144, 0x80 + c / 4096 % 64, 0x80 + c / 64 % 64, 0x80 + c % 64]
  }

  /** append_utf16le_codepoint */
  function Utf16LE(c: Scalar): (s: Bytes)
    ensures |s| == 2 || |s| == 4
  {
    if c < 0x1_0000 then U16LE(c)
    else U16LE(0xD800 + (c - 0x1_0000) / 1024) + U16LE(0xDC00 + (c - 0x1_0000) % 1024)
  }

  function Utf8Text(text: seq<Scalar>): (s: Bytes)
  {
    if |text| == 0 then [] else Utf8(text[0]) + Utf8Text(text[1..])
  }

  function Utf16Text(text: seq<Scalar>): (s: Bytes)
  {
    if |text| == 0 then [] else Utf16LE(text[0]) + Utf16Text(text[1..])
  }

  /** Reading UTF-16LE; an unpaired surrogate or an odd byte makes the string ill-formed. */
  function ReadUtf16(s: Bytes): (text: Option<seq<Scalar>>)
    decreases |s|
  {
    if |s| == 0 then Some([])
    else if |s| < 2 then None
    else
      var unit := s[0] as int + 256 * (s[1] as int);
      if unit < 0xD800 || 0xE000 <= unit then
        var rest :- ReadUtf16(s[2..]);
        Some([unit] + rest)
      else if unit < 0xDC00 && |s| >= 4 then
        var low := s[2] as int + 256 * (s[3] as int);
        if 0xDC00 <= low < 0xE000 then
          var rest :- ReadUtf16(s[4..]);
          Some([0x1_0000 + (unit - 0xD800) * 1024 + (low - 0xDC00)] + rest)
        else None
      else None
  }

  lemma ReadOne(c: Scalar, s: Bytes)
    ensures ReadUtf16(Utf16LE(c) + s)
         == match ReadUtf16(s) case Some(rest) => Some([c] + rest) case None => None
  {
    var t := Utf16LE(c) + s;
    if c < 0x1_0000 {
      assert t[2..] == s;
      assert t[0] as int + 256 * (t[1] as int) == c;
    } else {
      assert t[4..] == s;
      var high, low := 0xD800 + (c - 0x1_0000) / 1024, 0xDC00 + (c - 0x1_0000) % 1024;
      assert t[0] as int + 256 * (t[1] as int) == high && t[2] as int + 256 * (t[3] as int) == low;
      assert 0x1_0000 + (high - 0xD800) * 1024 + (low - 0xDC00) == c;
      assert 0xD800 <= high < 0xDC00 <= low < 0xE000;
    }
  }

  /** UTF-16LE loses nothing. */
  lemma {:induction false} Utf16RoundTrip(text: seq<Scalar>)
    ensures ReadUtf16(Utf16Text(text)) == Some(text)
  {
    hide ReadUtf16, Utf16LE;
    if |text| == 0 {
      NothingRead();
    } else {
      ReadOne(text[0], Utf16Text(text[1..]));
      Utf16RoundTrip(text[1..]);
      assert text == [text[0]] + text[1..];
    }
  }

  lemma NothingRead()
    ensures ReadUtf16([]) == Some([])
  {
  }

  // ---------- The conversion ----------

  predicate IsContinuation(b: byte) {
    0x80 <= b < 0xC0
  }

  function Two(b0: int, b1: int): (c: nat) {
    b0 % 32 * 64 + b1 % 64
  }

  function Three(b0: int, b1: int, b2: int): (c: nat) {
    b0 % 16 * 4096 + b1 % 64 * 64 + b2 % 64
  }

  function Four(b0: int, b1: int, b2: int, b3: int): (c: nat) {
    b0 % 8 * 262144 + b1 % 64 * 4096 + b2 % 64 * 64 + b3 % 64
  }

  /** The code point at the head of s and how many bytes it takes, before it is checked to be a scalar value. */
  function Head(s: Bytes): (r: (nat, nat))
    requires |s| > 0
    ensures 1 <= r.1 <= |s| && r.1 <= 4
  {
    var first := s[0];
    if first < 0x80 then (first, 1)
    else if 0xC0 <= first < 0xE0 && 1 < |s| && IsContinuation(s[1]) then
      (Two(first, s[1]), 2)
    else if 0xE0 <= first < 0xF0 && 2 < |s| && IsContinuation(s[1]) && IsContinuation(s[2]) then
      (Three(first, s[1], s[2]), 3)
    else if 0xF0 <= first < 0xF8 && 3 < |s| && IsContinuation(s[1]) && IsContinuation(s[2]) && IsContinuation(s[3]) then
      (Four(first, s[1], s[2], s[3]), 4)
    else (REPLACEMENT, 1)
  }

  /** What the conversion makes of a code point that may be a surrogate or too large. */
  function Checked(codepoint: nat): (c: Scalar)
    ensures codepoint < 0xD800 || 0xE000 <= codepoint < 0x11_0000 ==> c == codepoint
  {
    if codepoint > 0x10_FFFF || 0xD800 <= codepoint <= 0xDFFF then REPLACEMENT else codepoint
  }

  /** The scalar values the conversion reads from arbitrary bytes. */
  function Scalars(s: Bytes): (text: seq<Scalar>)
    decreases |s|
  {
    if |s| == 0 then [] else [Checked(Head(s).0)] + Scalars(s[Head(s).1..])
  }

  lemma SmallUnit(unit: u16)
    ensures U16LE(unit) == [unit % 256, unit / 256 % 256]
  {
  }

  method AppendUtf16LE(output: Bytes, codepoint: Scalar) returns (output': Bytes)
    ensures output' == output + Utf16LE(codepoint)
  {
    hide U16LE;
    if codepoint <= 0xFFFF {
      SmallUnit(codepoint);
      return output + [codepoint % 256, codepoint / 256 % 256];
    }
    var rest := codepoint - 0x1_0000;
    assert rest / 1024 % 1024 == rest / 1024;
    var high: u16 := 0xD800 + rest / 1024 % 1024;
    var low: u16 := 0xDC00 + rest % 1024;
    SmallUnit(high);
    SmallUnit(low);
    output' := output + [high % 256, high / 256 % 256] + [low % 256, low / 256 % 256];
  }

  /** utf16le_from_utf8 */
  method Utf16FromUtf8(value: Text) returns (output: Bytes)
    ensures output == Utf16Text(Scalars(value))
  {
    hide Two, Three, Four, Utf16LE, Utf16Text, Scalars;
    output := [];
    var offset := 0;
    assert value[0..] == value;
    while offset < |value|
      invariant 0 <= offset <= |value|
      invariant output + Utf16Text(Scalars(value[offset..])) == Utf16Text(Scalars(value))
      decreases |value| - offset
    {
      var first := value[offset];
      var codepoint := REPLACEMENT as int;
      var consumed := 1;
      if first < 0x80 {
        codepoint := first;
      } else if 0xC0 <= first < 0xE0 && offset + 1 < |value| {
        if IsContinuation(value[offset + 1]) {
          codepoint := Two(first, value[offset + 1]);
          consumed := 2;
        }
      } else if 0xE0 <= first < 0xF0 && offset + 2 < |value| {
        if IsContinuation(value[offset + 1]) && IsContinuation(value[offset + 2]) {
          codepoint := Three(first, value[offset + 1], value[offset + 2]);
          consumed := 3;
        }
      } else if 0xF0 <= first < 0xF8 && offset + 3 < |value| {
        if IsContinuation(value[offset + 1]) && IsContinuation(value[offset + 2]) && IsContinuation(value[offset + 3]) {
          codepoint := Four(first, value[offset + 1], value[offset + 2], value[offset + 3]);
          consumed := 4;
        }
      }
      NextScalar(value, offset);
      assert Head(value[offset..]) == (codepoint, consumed);
      if codepoint > 0x10_FFFF || 0xD800 <= codepoint <= 0xDFFF {
        codepoint := REPLACEMENT;
      }
      output := AppendUtf16LE(output, codepoint);
      offset := offset + consumed;
    }
    EndOfText(value[offset..]);
  }

  lemma EndOfText(rest: Text)
    requires |rest| == 0
    ensures Utf16Text(Scalars(rest)) == []
  {
  }

  lemma NextScalar(value: Text, offset: nat)
    requires offset < |value|
    ensures var (c, n) := Head(value[offset..]);
            offset + n <= |value|
            && Utf16Text(Scalars(value[offset..])) == Utf16LE(Checked(c)) + Utf16Text(Scalars(value[offset + n..]))
  {
    hide Head, Utf16LE;
    var s := value[offset..];
    var (c, n) := Head(s);
    assert s[n..] == value[offset + n..];
    assert Scalars(s)[1..] == Scalars(s[n..]);
  }

  lemma {:induction false} HeadOfUtf8(c: Scalar, s: Bytes)
    ensures Head(Utf8(c) + s) == (c as nat, |Utf8(c)|)
  {
    hide Two, Three, Four;
    PayloadBits(c);
    var t := Utf8(c) + s;
    assert t[0] == Utf8(c)[0];
    assert forall i :: 1 <= i < |Utf8(c)| ==> IsContinuation(t[i]) && t[i] == Utf8(c)[i];
  }

  lemma {:induction false} PayloadBits(c: Scalar)
    ensures 0x80 <= c < 0x800 ==> Two(0xC0 + c / 64, 0x80 + c % 64) == c
    ensures 0x800 <= c < 0x1_0000 ==> Three(0xE0 + c / 4096, 0x80 + c / 64 % 64, 0x80 + c % 64) == c
    ensures 0x1_0000 <= c ==> Four(0xF0 + c / 262144, 0x80 + c / 4096 % 64, 0x80 + c / 64 % 64, 0x80 + c % 64) == c
  {
    SixBits(c % 64, c / 64 % 64, c / 4096 % 64);
    Sextets(c);
    if 0x80 <= c < 0x800 {
      LeadBits(c / 64, 32);
    } else if 0x800 <= c < 0x1_0000 {
      LeadBits(c / 4096, 16);
    } else if 0x1_0000 <= c {
      LeadBits(c / 262144, 8);
    }
  }

  /** A number in base 64. */
  lemma Sextets(c: nat)
    ensures c == 64 * (c / 64) + c % 64
    ensures c == 4096 * (c / 4096) + 64 * (c / 64 % 64) + c % 64
    ensures c == 262144 * (c / 262144) + 4096 * (c / 4096 % 64) + 64 * (c / 64 % 64) + c % 64
  {
    assert c / 64 / 64 == c / 4096;
    assert c / 4096 / 64 == c / 262144;
  }

  lemma LeadBits(v: nat, size: nat)
    requires v < size
    ensures size == 32 ==> (0xC0 + v) % 32 == v
    ensures size == 16 ==> (0xE0 + v) % 16 == v
    ensures size == 8 ==> (0xF0 + v) % 8 == v
  {
  }

  lemma SixBits(x: nat, y: nat, z: nat)
    requires x < 64 && y < 64 && z < 64
    ensures (0x80 + x) % 64 == x && (0x80 + y) % 64 == y && (0x80 + z) % 64 == z
  {
  }

  /** The conversion inverts UTF-8 on every text. */
  lemma {:induction false} ReadsUtf8(text: seq<Scalar>)
    ensures Scalars(Utf8Text(text)) == text
  {
    if |text| > 0 {
      HeadOfUtf8(text[0], Utf8Text(text[1..]));
      assert Utf8Text(text)[|Utf8(text[0])|..] == Utf8Text(text[1..]);
      ReadsUtf8(text[1..]);
    }
  }

  /** UTF-8 in, UTF-16LE of the same scalar values out; and whatever comes in, the output is well-formed UTF-16
      that reads back as the scalar values found, so different texts never hash from the same bytes. */
  lemma {:induction false} ConversionCorrect(text: seq<Scalar>, value: Text)
    ensures Utf16Text(Scalars(Utf8Text(text))) == Utf16Text(text)
    ensures ReadUtf16(Utf16Text(Scalars(value))) == Some(Scalars(value))
    ensures Utf16Text(Scalars(value)) == Utf16Text(text) ==> Scalars(value) == text
  {
    ReadsUtf8(text);
    Utf16RoundTrip(Scalars(value));
    Utf16RoundTrip(text);
  }
}
