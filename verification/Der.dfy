/** The hand-written DER encoder and reader (section 8.1.3 of X.690; libs/protocol/src/kerberos.cpp). */
module Der {
  import opened Octets
  import opened Buffers

  datatype Element = Element(tag: byte, content: Bytes)

  /** Asn1Node: where an element lies in a buffer. */
  datatype Node = Node(tag: byte, tagOffset: nat, contentOffset: nat, contentLength: nat, nextOffset: nat)

  datatype Length = Length(length: nat, next: nat)

  // ---------- Writing ----------

  /** append_length: three bytes at most, so longer lengths lose their upper bits. */
  function LengthBytes(n: nat): (s: Bytes)
    ensures 1 <= |s| <= 3
  {
    if n < 0x80 then [n]
    else if n <= 0xff then [0x81, n]
    else [0x82, n / 256 % 256, n % 256]
  }

  function Tlv(tag: byte, payload: Bytes): (s: Bytes)
    ensures |payload| + 2 <= |s| <= |payload| + 4
  {
    [tag] + LengthBytes(|payload|) + payload
  }

  /** A payload built by append_tlv, one element after the other. */
  function Encode(es: seq<Element>): (s: Bytes)
  {
    if |es| == 0 then [] else Tlv(es[0].tag, es[0].content) + Encode(es[1..])
  }

  method AppendLength(out: ByteBuffer, n: nat)
    modifies out
    ensures out.data == old(out.data) + LengthBytes(n)
  {
    if n < 0x80 {
      out.Push(n);
      return;
    }
    if n <= 0xff {
      out.Push(0x81);
      out.Push(n);
      return;
    }
    out.Push(0x82);
    out.Push(n / 256 % 256);
    out.Push(n % 256);
  }

  method AppendTlv(out: ByteBuffer, tag: byte, payload: Bytes)
    modifies out
    ensures out.data == old(out.data) + Tlv(tag, payload)
  {
    out.Push(tag);
    AppendLength(out, |payload|);
    out.Append(payload);
  }

  // ---------- Reading ----------

  function ReadLength(input: Bytes, offset: nat): (r: Option<Length>)
    ensures r.Some? ==> offset < r.value.next <= |input|
  {
    if offset >= |input| then None
    else if input[offset] < 0x80 then Some(Length(input[offset], offset + 1))
    else
      var n := input[offset] as int - 0x80;
      if n == 0 || n > 4 || offset + 1 + n > |input| then None
      else Some(Length(BigEndian(input[offset + 1..offset + 1 + n]), offset + 1 + n))
  }

  method ReadLengthAt(input: Bytes, offset: nat) returns (r: Option<Length>)
    ensures r == ReadLength(input, offset)
  {
    if offset >= |input| {
      return None;
    }
    var first, next := input[offset], offset + 1;
    if first < 0x80 {
      return Some(Length(first, next));
    }
    var n := first as int - 0x80;
    if n == 0 || n > 4 || next + n > |input| {
      return None;
    }
    var length: nat := 0;
    for i := 0 to n
      invariant next == offset + 1 + i
      invariant length == BigEndian(input[offset + 1..next])
    {
      assert input[offset + 1..next + 1][..i] == input[offset + 1..next];
      length := 256 * length + input[next];
      next := next + 1;
    }
    return Some(Length(length, next));
  }

  /** On arbitrary bytes a node lies inside the limit and the buffer and moves past its own start. */
  function ReadNode(input: Bytes, offset: nat, limit: nat): (r: Option<Node>)
    ensures r.Some? ==>
              && r.value.tagOffset == offset < r.value.contentOffset
              && r.value.contentOffset + r.value.contentLength == r.value.nextOffset <= limit
              && r.value.nextOffset <= |input|
              && r.value.tag == input[offset]
  {
    if offset >= limit || offset >= |input| then None
    else
      match ReadLength(input, offset + 1)
      case None => None
      case Some(l) =>
        if l.next + l.length > limit || l.next + l.length > |input| then None
        else Some(Node(input[offset], offset, l.next, l.length, l.next + l.length))
  }

  predicate InBounds(input: Bytes, node: Node) {
    node.tagOffset < node.contentOffset && node.contentOffset + node.contentLength == node.nextOffset <= |input|
  }

  function Content(input: Bytes, node: Node): (s: Bytes)
    requires InBounds(input, node)
  {
    input[node.contentOffset..node.nextOffset]
  }

  function FindFrom(input: Bytes, offset: nat, limit: nat, tag: byte): (r: Option<Node>)
    ensures r.Some? ==> InBounds(input, r.value) && r.value.tag == tag
    ensures r.Some? ==> offset <= r.value.tagOffset && r.value.nextOffset <= limit
    decreases limit - offset
  {
    if offset >= limit then None
    else
      match ReadNode(input, offset, limit)
      case None => None
      case Some(n) => if n.tag == tag then Some(n) else FindFrom(input, n.nextOffset, limit, tag)
  }

  /** find_child */
  method FindChild(input: Bytes, parent: Node, tag: byte) returns (r: Option<Node>)
    ensures r == FindFrom(input, parent.contentOffset, parent.contentOffset + parent.contentLength, tag)
  {
    var offset := parent.contentOffset;
    var limit := parent.contentOffset + parent.contentLength;
    while offset < limit
      invariant FindFrom(input, offset, limit, tag)
             == FindFrom(input, parent.contentOffset, parent.contentOffset + parent.contentLength, tag)
      decreases limit - offset
    {
      var child := ReadNode(input, offset, limit);
      if child.None? {
        return None;
      }
      if child.value.tag == tag {
        return child;
      }
      offset := child.value.nextOffset;
    }
    return None;
  }

  // ---------- The same reader on contents ----------

  /** The elements a content starts with, up to its end or its first malformed element. */
  function Elements(s: Bytes): (es: seq<Element>)
    decreases |s|
  {
    match ReadNode(s, 0, |s|)
    case None => []
    case Some(n) => [Element(n.tag, Content(s, n))] + Elements(s[n.nextOffset..])
  }

  /** The whole content is a sequence of elements. */
  predicate Complete(s: Bytes)
    decreases |s|
  {
    s == [] || (ReadNode(s, 0, |s|).Some? && Complete(s[ReadNode(s, 0, |s|).value.nextOffset..]))
  }

  function FindTag(es: seq<Element>, tag: byte): (r: Option<Bytes>)
  {
    if |es| == 0 then None
    else if es[0].tag == tag then Some(es[0].content)
    else FindTag(es[1..], tag)
  }

  /** The content of the first child with that tag, as find_child finds it. */
  function Field(s: Bytes, tag: byte): (r: Option<Bytes>)
  {
    FindTag(Elements(s), tag)
  }

  /** The first element, as first_child finds it. */
  function Head(s: Bytes): (r: Option<Element>)
    ensures r == match ReadNode(s, 0, |s|) case None => None case Some(n) => Some(Element(n.tag, Content(s, n)))
  {
    var es := Elements(s);
    if es == [] then None else Some(es[0])
  }

  /** The content of the first element if it has that tag. */
  function Inner(s: Bytes, tag: byte): (r: Option<Bytes>)
  {
    match Head(s)
    case Some(e) => if e.tag == tag then Some(e.content) else None
    case None => None
  }

  function Shifted(r: Option<Node>, delta: nat): (q: Option<Node>)
  {
    match r
    case None => None
    case Some(n) => Some(Node(n.tag, n.tagOffset + delta, n.contentOffset + delta, n.contentLength,
                              n.nextOffset + delta))
  }

  lemma SliceOfSlice(s: Bytes, a: nat, b: nat, i: nat, j: nat)
    requires a <= b <= |s| && i <= j <= b - a
    ensures s[a..b][i..j] == s[a + i..a + j]
  {
    forall k | 0 <= k < j - i ensures s[a..b][i..j][k] == s[a + i..a + j][k] {
    }
  }

  /** What read_node finds depends on the bytes between offset and limit alone, even where it looks beyond. */
  lemma ReadNodeIsLocal(input: Bytes, offset: nat, limit: nat)
    requires offset <= limit <= |input|
    ensures ReadNode(input, offset, limit) == Shifted(ReadNode(input[offset..limit], 0, limit - offset), offset)
  {
    hide BigEndian;
    var s := input[offset..limit];
    if offset < limit && offset + 1 < |input| && input[offset + 1] >= 0x80 {
      var n := input[offset + 1] as int - 0x80;
      if offset + 2 + n <= limit {
        SliceOfSlice(input, offset, limit, 2, 2 + n);
      }
    }
  }

  /** One step of a sibling walk over input[offset..limit], seen on contents. */
  lemma WalkStep(input: Bytes, offset: nat, limit: nat)
    requires offset <= limit <= |input|
    ensures var s := input[offset..limit];
            match ReadNode(input, offset, limit)
            case None => Elements(s) == [] && (Complete(s) <==> offset == limit)
            case Some(n) =>
              && offset < n.nextOffset <= limit && InBounds(input, n)
              && Elements(s) == [Element(n.tag, Content(input, n))] + Elements(input[n.nextOffset..limit])
              && (Complete(s) <==> Complete(input[n.nextOffset..limit]))
  {
    hide ReadNode;
    ReadNodeIsLocal(input, offset, limit);
    var s := input[offset..limit];
    var r := ReadNode(s, 0, |s|);
    if r.Some? {
      var n := ReadNode(input, offset, limit).value;
      SliceOfSlice(input, offset, limit, r.value.nextOffset, |s|);
      SliceOfSlice(input, offset, limit, r.value.contentOffset, r.value.nextOffset);
      assert s[r.value.nextOffset..] == s[r.value.nextOffset..|s|];
    }
  }

  /** find_child on offsets finds what Field finds on the content. */
  lemma {:induction false} FindRefines(input: Bytes, offset: nat, limit: nat, tag: byte)
    requires offset <= limit <= |input|
    ensures var r := FindFrom(input, offset, limit, tag);
            Field(input[offset..limit], tag) == match r case None => None case Some(n) => Some(Content(input, n))
    decreases limit - offset
  {
    hide ReadNode, Elements;
    WalkStep(input, offset, limit);
    var r := ReadNode(input, offset, limit);
    if offset < limit && r.Some? && r.value.tag != tag {
      FindRefines(input, r.value.nextOffset, limit, tag);
      var e := Element(r.value.tag, Content(input, r.value));
      assert ([e] + Elements(input[r.value.nextOffset..limit]))[1..] == Elements(input[r.value.nextOffset..limit]);
    }
  }

  // ---------- Reading what was written ----------

  lemma ReadLengthBytes(tag: byte, n: nat, rest: Bytes)
    ensures ReadLength([tag] + LengthBytes(n) + rest, 1)
         == Some(Length(if n <= 0xffff then n else n % 0x1_0000, 1 + |LengthBytes(n)|))
  {
    hide BigEndian;
    var s := [tag] + LengthBytes(n) + rest;
    if n < 0x80 {
      assert s[1] == n;
    } else if n <= 0xff {
      assert s[1] == 0x81 && s[2..3] == [n];
      OneByte(n);
    } else {
      var a, b := n / 256 % 256, n % 256;
      assert s[1] == 0x82 && s[2..4] == [a, b];
      TwoBytes(a, b);
      LowBits(n);
    }
  }

  lemma LowBits(n: nat)
    ensures 256 * (n / 256 % 256) + n % 256 == n % 0x1_0000
    ensures n <= 0xffff ==> n % 0x1_0000 == n
  {
  }

  lemma OneByte(a: byte)
    ensures BigEndian([a]) == a
  {
    assert [a][..0] == [];
  }

  lemma TwoBytes(a: byte, b: byte)
    ensures BigEndian([a, b]) == 256 * a + b
  {
    OneByte(a);
    assert [a, b][..1] == [a];
  }

  /** Only the low sixteen bits of the length survive the encoding. */
  lemma ReadTlv(tag: byte, payload: Bytes, rest: Bytes)
    ensures var s := Tlv(tag, payload) + rest;
            var m := if |payload| <= 0xffff then |payload| else |payload| % 0x1_0000;
            var start := 1 + |LengthBytes(|payload|)|;
            && ReadNode(s, 0, |s|) == Some(Node(tag, 0, start, m, start + m))
            && s[start..start + m] == payload[..m]
            && (m == |payload| ==> s[start + m..] == rest)
  {
    hide ReadLength, LengthBytes;
    var s := Tlv(tag, payload) + rest;
    ReadLengthBytes(tag, |payload|, payload + rest);
    assert s == [tag] + LengthBytes(|payload|) + (payload + rest);
  }

  /** An element is read back exactly when its payload is at most 65535 bytes long. */
  lemma TlvRoundTrip(tag: byte, payload: Bytes, rest: Bytes)
    ensures Head(Tlv(tag, payload) + rest) == Some(Element(tag, payload)) <==> |payload| <= 0xffff
    ensures |payload| <= 0xffff ==> Elements(Tlv(tag, payload) + rest) == [Element(tag, payload)] + Elements(rest)
    ensures |payload| <= 0xffff ==> (Complete(Tlv(tag, payload) + rest) <==> Complete(rest))
  {
    hide ReadNode, Tlv;
    ReadTlv(tag, payload, rest);
    assert payload[..|payload|] == payload;
  }

  /** Every element is at most 65535 bytes long. */
  predicate Short(es: seq<Element>) {
    forall i :: 0 <= i < |es| ==> |es[i].content| <= 0xffff
  }

  /** A concatenation of elements is read back element by element. */
  lemma {:induction false} ElementsOfEncode(es: seq<Element>)
    requires Short(es)
    ensures Elements(Encode(es)) == es && Complete(Encode(es))
  {
    hide Tlv, ReadNode;
    if |es| == 0 {
      ReadNothing();
    } else {
      ElementsOfEncode(es[1..]);
      TlvRoundTrip(es[0].tag, es[0].content, Encode(es[1..]));
      assert es == [es[0]] + es[1..];
    }
  }

  lemma ReadNothing()
    ensures ReadNode([], 0, 0) == None
  {
  }

  /** An element is shorter than the encoding it is part of. */
  lemma {:induction false} EncodeBound(es: seq<Element>)
    ensures forall i :: 0 <= i < |es| ==> |es[i].content| + 2 <= |Encode(es)|
    ensures |Encode(es)| <= 0xffff ==> Short(es)
  {
    hide Tlv;
    if |es| > 0 {
      EncodeBound(es[1..]);
      forall i | 0 <= i < |es| ensures |es[i].content| + 2 <= |Encode(es)| {
        assert i > 0 ==> es[i] == es[1..][i - 1];
      }
    }
  }

  /** The first element with a tag is the one that is found. */
  lemma {:induction false} FindTagAt(es: seq<Element>, i: nat)
    requires i < |es| && forall j :: 0 <= j < i ==> es[j].tag != es[i].tag
    ensures FindTag(es, es[i].tag) == Some(es[i].content)
  {
    if i > 0 {
      assert es[1..][i - 1] == es[i];
      FindTagAt(es[1..], i - 1);
    }
  }

  lemma {:induction false} FindTagNone(es: seq<Element>, tag: byte)
    ensures FindTag(es, tag) == None <==> forall j :: 0 <= j < |es| ==> es[j].tag != tag
  {
    if |es| > 0 {
      FindTagNone(es[1..], tag);
      assert forall j :: 0 < j < |es| ==> es[j] == es[1..][j - 1];
      assert forall j :: 0 <= j < |es| - 1 ==> es[1..][j] == es[j + 1];
    }
  }

  /** find_child over a concatenation of elements returns the first payload with the wanted tag. */
  lemma {:induction false} FieldOfEncode(es: seq<Element>, i: nat)
    requires Short(es) && i < |es| && forall j :: 0 <= j < i ==> es[j].tag != es[i].tag
    ensures Field(Encode(es), es[i].tag) == Some(es[i].content)
  {
    hide Elements, FindTag;
    ElementsOfEncode(es);
    FindTagAt(es, i);
  }

  lemma InnerOfTlv(tag: byte, payload: Bytes)
    requires |payload| <= 0xffff
    ensures Inner(Tlv(tag, payload), tag) == Some(payload)
    ensures Head(Tlv(tag, payload)) == Some(Element(tag, payload))
  {
    hide Tlv, Elements;
    TlvRoundTrip(tag, payload, []);
    assert Tlv(tag, payload) + [] == Tlv(tag, payload);
  }

  // ---------- Integers ----------

  function StripZeros(s: Bytes): (r: Bytes)
    ensures |r| > 0 ==> r[0] != 0
    ensures |r| <= |s|
  {
    if |s| > 0 && s[0] == 0 then StripZeros(s[1..]) else s
  }

  /** The 32 bits of a two's complement integer. */
  function Unsigned(v: i32): (u: u32)
  {
    if v < 0 then v + 0x1_0000_0000 else v
  }

  function WithSignByte(s: Bytes): (r: Bytes)
  {
    if |s| > 0 && s[0] >= 0x80 then [0] + s else s
  }

  function IntegerValue(v: i32): (s: Bytes)
  {
    if 0 <= v <= 127 then [v] else WithSignByte(StripZeros(U32BE(Unsigned(v))))
  }

  function IntegerFromContent(content: Bytes): (v: i32)
  {
    ToInt32(BigEndian(content))
  }

  method IntegerBytes(value: i32) returns (encoded: Bytes)
    ensures encoded == IntegerValue(value)
  {
    if 0 <= value <= 127 {
      return [value];
    }
    var bytes := U32BE(Unsigned(value));
    encoded := [];
    var started := false;
    SomeByteIsSet(Unsigned(value));
    assert bytes[..4] == bytes;
    for i := 0 to 4
      invariant encoded == StripZeros(bytes[..i])
      invariant started <==> encoded != []
    {
      var b := bytes[i];
      StripOneMore(bytes[..i], b);
      assert bytes[..i + 1] == bytes[..i] + [b];
      if b != 0 || started || i == 3 {
        encoded := encoded + [b];
        started := true;
      }
    }
    if encoded != [] && encoded[0] >= 0x80 {
      encoded := [0] + encoded;
    }
  }

  lemma SomeByteIsSet(u: u32)
    requires u > 0
    ensures StripZeros(U32BE(u)) != []
  {
    hide BigEndian, StripZeros;
    BigEndianU32(u);
    BigEndianStripped(U32BE(u));
    NoBytes();
  }

  lemma {:induction false} StripOneMore(s: Bytes, b: byte)
    ensures StripZeros(s + [b])
         == if StripZeros(s) == [] then (if b == 0 then [] else [b]) else StripZeros(s) + [b]
  {
    if |s| > 0 {
      assert (s + [b])[1..] == s[1..] + [b];
      if s[0] == 0 {
        StripOneMore(s[1..], b);
      }
    } else {
      assert s + [b] == [b];
      var none: Bytes := [];
      assert [b][1..] == none;
      assert StripZeros(none) == none;
    }
  }

  method ReadInteger(input: Bytes, node: Node) returns (value: i32)
    requires InBounds(input, node)
    ensures value == IntegerFromContent(Content(input, node))
  {
    value := 0;
    ghost var c := Content(input, node);
    for offset := node.contentOffset to node.contentOffset + node.contentLength
      invariant value == IntegerFromContent(c[..offset - node.contentOffset])
    {
      var i := offset - node.contentOffset;
      assert c[..i + 1][..i] == c[..i] && c[i] == input[offset];
      ShiftIn(BigEndian(c[..i]), input[offset]);
      // The shift leaves the low eight bits free, so the bitwise or adds.
      value := ToInt32(256 * (value as int)) as int + input[offset] as int;
    }
    assert c[..node.contentLength] == c;
  }

  lemma ShiftIn(v: nat, b: byte)
    ensures ToInt32(256 * (ToInt32(v) as int)) as int + b as int == ToInt32(256 * v + b as int)
  {
    var w := ToInt32(v);
    var k :| w == v + k * 0x1_0000_0000;
    ToInt32Congruent(256 * v, 256 * (w as int), -256 * k);
    var x := ToInt32(256 * v);
    var j :| x == 256 * v + j * 0x1_0000_0000;
    assert x == 256 * (v + j * 0x100_0000);
    ToInt32Congruent(256 * v + b as int, x as int + b as int, -j);
  }

  lemma {:induction false} BigEndianStripped(s: Bytes)
    ensures BigEndian(StripZeros(s)) == BigEndian(s)
  {
    if |s| > 0 && s[0] == 0 {
      BigEndianStripped(s[1..]);
      BigEndianConcat([0], s[1..]);
      assert [0] + s[1..] == s;
      OneByte(0);
    }
  }

  lemma BigEndianU32(u: u32)
    ensures BigEndian(U32BE(u)) == u
  {
    hide BigEndian;
    var s := U32BE(u);
    FourBytes(s[0], s[1], s[2], s[3]);
    QuotientOfQuotient(u);
  }

  lemma FourBytes(a: byte, b: byte, c: byte, d: byte)
    ensures BigEndian([a, b, c, d]) == 0x100_0000 * a + 0x1_0000 * b + 256 * c + d
  {
    TwoBytes(a, b);
    assert [a, b, c][..2] == [a, b];
    assert [a, b, c, d][..3] == [a, b, c];
  }

  lemma QuotientOfQuotient(u: u32)
    ensures 0x100_0000 * (u / 0x100_0000) + 0x1_0000 * (u / 0x1_0000 % 256) + 256 * (u / 256 % 256) + u % 256 == u
  {
    assert u / 0x1_0000 == u / 256 / 256;
    assert u / 0x100_0000 == u / 256 / 256 / 256;
  }

  lemma BigEndianSignByte(s: Bytes)
    ensures BigEndian(WithSignByte(s)) == BigEndian(s)
  {
    BigEndianConcat([0], s);
    OneByte(0);
  }

  /** A non-negative number in as few bytes as its sign bit allows. */
  predicate Canonical(c: Bytes) {
    |c| > 0 && c[0] < 0x80 && (|c| > 1 && c[0] == 0 ==> c[1] >= 0x80)
  }

  lemma IntegerValueIsCanonical(v: i32)
    ensures Canonical(IntegerValue(v)) && BigEndian(IntegerValue(v)) == Unsigned(v)
  {
    hide BigEndian, StripZeros;
    if 0 <= v <= 127 {
      OneByte(v);
    } else {
      var u := Unsigned(v);
      var d := StripZeros(U32BE(u));
      BigEndianU32(u);
      BigEndianStripped(U32BE(u));
      BigEndianSignByte(d);
      NoBytes();
    }
  }

  lemma NoBytes()
    ensures BigEndian([]) == 0
  {
  }

  lemma {:induction false} CanonicalIsLarge(d: Bytes)
    requires Canonical(d) && |d| >= 2
    ensures BigEndian(d) >= 0x80
  {
    if |d| == 2 {
      TwoBytes(d[0], d[1]);
      assert d == [d[0], d[1]];
    } else {
      CanonicalIsLarge(d[..|d| - 1]);
    }
  }

  lemma {:induction false} CanonicalUnique(c: Bytes, d: Bytes)
    requires Canonical(c) && Canonical(d) && BigEndian(c) == BigEndian(d)
    ensures c == d
    decreases |c|
  {
    if |c| == 1 {
      OneByte(c[0]);
      assert c == [c[0]];
      if |d| == 1 {
        OneByte(d[0]);
        assert d == [d[0]];
      } else {
        CanonicalIsLarge(d);
      }
    } else if |d| == 1 {
      OneByte(d[0]);
      assert d == [d[0]];
      CanonicalIsLarge(c);
    } else {
      var m, n := |c| - 1, |d| - 1;
      assert 256 * BigEndian(c[..m]) + c[m] == 256 * BigEndian(d[..n]) + d[n];
      CanonicalUnique(c[..m], d[..n]);
      assert c == c[..m] + [c[m]] && d == d[..n] + [d[n]];
    }
  }

  /** integer_from_content undoes integer_value for every 32-bit integer, the negative ones through wrap-around. */
  lemma IntegerRoundTrip(v: i32)
    ensures IntegerFromContent(IntegerValue(v)) == v
  {
    IntegerValueIsCanonical(v);
    ToInt32Congruent(Unsigned(v), v, if v < 0 then 1 else 0);
  }

  /** Re-encoding what was read gives the same bytes exactly for canonical contents below 2^32. */
  lemma EchoedExactlyWhen(c: Bytes)
    ensures IntegerValue(IntegerFromContent(c)) == c <==> Canonical(c) && BigEndian(c) < 0x1_0000_0000
  {
    hide BigEndian, IntegerValue, ToInt32;
    var n := BigEndian(c);
    var v := IntegerFromContent(c);
    IntegerValueIsCanonical(v);
    if Canonical(c) && n < 0x1_0000_0000 {
      var w: i32 := if n >= 0x8000_0000 then n as int - 0x1_0000_0000 else n as int;
      ToInt32Congruent(n, w, if n >= 0x8000_0000 then 1 else 0);
      assert ToInt32(w) == w;
      CanonicalUnique(c, IntegerValue(v));
    }
  }
}
