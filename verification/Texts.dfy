/** ASCII case mapping, trailing dots, splitting, joining and decimal numerals on byte strings. */
module Texts {
  import opened Octets

  const DOT: byte := 46

  /** std::tolower and std::toupper in the C locale. */
  function LowerByte(b: byte): (r: byte) {
    if 65 <= b <= 90 then b + 32 else b
  }

  function UpperByte(b: byte): (r: byte) {
    if 97 <= b <= 122 then b - 32 else b
  }

  function Lower(s: Text): (r: Text)
    ensures |r| == |s|
    ensures forall i :: 0 <= i < |s| ==> r[i] == LowerByte(s[i])
  {
    seq(|s|, i requires 0 <= i < |s| => LowerByte(s[i]))
  }

  function Upper(s: Text): (r: Text)
    ensures |r| == |s|
    ensures forall i :: 0 <= i < |s| ==> r[i] == UpperByte(s[i])
  {
    seq(|s|, i requires 0 <= i < |s| => UpperByte(s[i]))
  }

  lemma LowerIdempotent(s: Text)
    ensures Lower(Lower(s)) == Lower(s)
    ensures Lower(Upper(s)) == Lower(s)
    ensures Upper(Upper(s)) == Upper(s)
  {
  }

  /** trim_trailing_dot of kerberos.cpp: at most one dot goes. */
  function TrimDot(s: Text): (r: Text)
  {
    if |s| > 0 && s[|s| - 1] == DOT then s[..|s| - 1] else s
  }

  /** trim_trailing_dot of dns.cpp and of the network daemon: every trailing dot goes. */
  function TrimDots(s: Text): (r: Text)
    ensures r <= s
    ensures |r| > 0 ==> r[|r| - 1] != DOT
    ensures |s| > 0 && s[|s| - 1] != DOT ==> r == s
  {
    if |s| > 0 && s[|s| - 1] == DOT then TrimDots(s[..|s| - 1]) else s
  }

  lemma {:induction false} TrimDotsLower(s: Text)
    ensures TrimDots(Lower(s)) == Lower(TrimDots(s))
  {
    if |s| > 0 && s[|s| - 1] == DOT {
      assert Lower(s)[..|s| - 1] == Lower(s[..|s| - 1]);
      TrimDotsLower(s[..|s| - 1]);
    }
  }

  lemma TrimDotsIdempotent(s: Text)
    ensures TrimDots(TrimDots(s)) == TrimDots(s)
  {
  }

  predicate EndsWith(s: Text, suffix: Text) {
    |suffix| <= |s| && s[|s| - |suffix|..] == suffix
  }

  /** The position of the first occurrence of a byte, or the length. */
  function IndexOf(s: Text, b: byte): (i: nat)
    ensures i <= |s|
    ensures i < |s| ==> s[i] == b
    ensures forall j :: 0 <= j < i ==> s[j] != b
  {
    if |s| == 0 || s[0] == b then 0 else 1 + IndexOf(s[1..], b)
  }

  /** All pieces between separators, the empty ones included. */
  function Split(s: Text, sep: byte): (parts: seq<Text>)
    ensures |parts| >= 1
    ensures forall p :: p in parts ==> sep !in p
    decreases |s|
  {
    var i := IndexOf(s, sep);
    if i == |s| then [s] else [s[..i]] + Split(s[i + 1..], sep)
  }

  function Join(parts: seq<Text>, sep: byte): (s: Text)
  {
    if |parts| == 0 then []
    else if |parts| == 1 then parts[0]
    else parts[0] + [sep] + Join(parts[1..], sep)
  }

  lemma {:induction false} JoinSplit(s: Text, sep: byte)
    ensures Join(Split(s, sep), sep) == s
    decreases |s|
  {
    hide Join, Split, IndexOf;
    var i := IndexOf(s, sep);
    SplitFirst(s, sep);
    if i == |s| {
      JoinSingle(s, sep);
    } else {
      JoinSplit(s[i + 1..], sep);
      JoinFirst(s[..i], Split(s[i + 1..], sep), sep);
      assert s == s[..i] + [sep] + s[i + 1..];
    }
  }

  lemma {:induction false} SplitFirst(s: Text, sep: byte)
    ensures var i := IndexOf(s, sep);
            Split(s, sep) == if i == |s| then [s] else [s[..i]] + Split(s[i + 1..], sep)
  {
    hide IndexOf;
  }

  lemma JoinSingle(s: Text, sep: byte)
    ensures Join([s], sep) == s
  {
  }

  lemma JoinFirst(first: Text, rest: seq<Text>, sep: byte)
    requires |rest| > 0
    ensures Join([first] + rest, sep) == first + [sep] + Join(rest, sep)
  {
    assert ([first] + rest)[1..] == rest;
  }

  lemma ConcatAssociates<T>(a: seq<T>, b: seq<T>, c: seq<T>)
    ensures a + (b + c) == (a + b) + c
  {
  }

  lemma {:induction false} SplitJoin(parts: seq<Text>, sep: byte)
    requires |parts| >= 1
    requires forall p :: p in parts ==> sep !in p
    ensures Split(Join(parts, sep), sep) == parts
  {
    assert parts[0] in parts;
    if |parts| == 1 {
      IndexOfSeparator(parts[0], sep, []);
      assert parts == [parts[0]];
    } else {
      var rest := Join(parts[1..], sep);
      IndexOfSeparator(parts[0], sep, rest);
      SplitJoin(parts[1..], sep);
      assert (parts[0] + [sep] + rest)[|parts[0]| + 1..] == rest;
      assert parts == [parts[0]] + parts[1..];
    }
  }

  lemma IndexOfSeparator(part: Text, sep: byte, rest: Text)
    requires sep !in part
    ensures IndexOf(part, sep) == |part|
    ensures IndexOf(part + [sep] + rest, sep) == |part|
    ensures (part + [sep] + rest)[..|part|] == part
  {
    var s := part + [sep] + rest;
    assert forall k :: 0 <= k < |part| ==> s[k] == part[k];
    assert s[|part|] == sep;
  }

  lemma {:induction false} JoinConcat(a: seq<Text>, b: seq<Text>, sep: byte)
    requires |a| > 0 && |b| > 0
    ensures Join(a + b, sep) == Join(a, sep) + [sep] + Join(b, sep)
  {
    assert (a + b)[1..] == a[1..] + b;
    if |a| > 1 {
      JoinConcat(a[1..], b, sep);
    }
  }

  // ---------- Empty pieces ----------

  function NonEmpty(values: seq<Text>): (r: seq<Text>)
  {
    if |values| == 0 then []
    else (if values[0] == [] then [] else [values[0]]) + NonEmpty(values[1..])
  }

  lemma NonEmptyFirst(v: Text, rest: seq<Text>, result: seq<Text>)
    ensures result + NonEmpty([v] + rest) == (if v == [] then result else result + [v]) + NonEmpty(rest)
  {
    assert ([v] + rest)[1..] == rest;
    if v != [] {
      assert result + ([v] + NonEmpty(rest)) == result + [v] + NonEmpty(rest);
    } else {
      assert [] + NonEmpty(rest) == NonEmpty(rest);
    }
  }

  lemma {:induction false} NonEmptyConcat(a: seq<Text>, b: seq<Text>)
    ensures NonEmpty(a + b) == NonEmpty(a) + NonEmpty(b)
  {
    if |a| == 0 {
      assert a + b == b;
    } else {
      NonEmptyConcat(a[1..], b);
      assert (a + b)[1..] == a[1..] + b;
      var first := if a[0] == [] then [] else [a[0]];
      assert first + (NonEmpty(a[1..]) + NonEmpty(b)) == (first + NonEmpty(a[1..])) + NonEmpty(b);
    }
  }

  lemma {:induction false} NonEmptyMember(values: seq<Text>, v: Text)
    ensures v in NonEmpty(values) <==> v in values && v != []
  {
    if |values| > 0 {
      NonEmptyMember(values[1..], v);
    }
  }

  lemma NonEmptyOne(v: Text, rest: seq<Text>)
    ensures NonEmpty([v] + rest) == (if v == [] then NonEmpty(rest) else [v] + NonEmpty(rest))
  {
    assert ([v] + rest)[1..] == rest;
  }

  // ---------- Decimal numerals ----------

  predicate IsDigit(b: byte) {
    48 <= b <= 57
  }

  /** std::to_string of an unsigned number. */
  function Decimal(n: nat): (s: Text)
    ensures |s| > 0 && forall i :: 0 <= i < |s| ==> IsDigit(s[i])
    ensures |s| > 1 ==> s[0] != 48
  {
    if n < 10 then [48 + n] else Decimal(n / 10) + [48 + n % 10]
  }

  function DigitsValue(s: Text): (n: nat)
    requires forall i :: 0 <= i < |s| ==> IsDigit(s[i])
  {
    if |s| == 0 then 0
    else
      assert IsDigit(s[|s| - 1]);
      10 * DigitsValue(s[..|s| - 1]) + (s[|s| - 1] as int - 48)
  }

  /** How many digits a text starts with. */
  function DigitRun(s: Text): (n: nat)
    ensures n <= |s|
    ensures forall i :: 0 <= i < n ==> IsDigit(s[i])
    ensures n < |s| ==> !IsDigit(s[n])
  {
    if |s| == 0 || !IsDigit(s[0]) then 0 else 1 + DigitRun(s[1..])
  }

  lemma {:induction false} DecimalValue(n: nat)
    ensures DigitsValue(Decimal(n)) == n
  {
    if n >= 10 {
      DecimalValue(n / 10);
      assert Decimal(n)[..|Decimal(n)| - 1] == Decimal(n / 10);
    } else {
      assert Decimal(n)[..0] == [];
    }
  }

  /** A numeral in front of something that is not a digit is read back whole. */
  lemma DigitRunOfDecimal(n: nat, rest: Text)
    requires |rest| == 0 || !IsDigit(rest[0])
    ensures DigitRun(Decimal(n) + rest) == |Decimal(n)|
    ensures (Decimal(n) + rest)[..|Decimal(n)|] == Decimal(n)
  {
    var s := Decimal(n) + rest;
    var d := |Decimal(n)|;
    assert forall i :: 0 <= i < d ==> IsDigit(s[i]);
    assert d < |s| ==> s[d] == rest[0];
  }
}
