/** Strings, integers, principals, keys and encrypted data inside Kerberos messages (libs/protocol/src/kerberos.cpp). */
module KerberosFields {
  import opened Octets
  import opened Texts
  import opened Buffers
  import opened Der

  const SLASH: byte := 47

  datatype EncryptedData = EncryptedData(enctype: i32, cipher: Bytes)

  datatype EncryptionKey = EncryptionKey(enctype: i32, value: Bytes)

  predicate IsStringTag(tag: byte) {
    tag == 0x1b || tag == 0x1c
  }

  // ---------- Writing ----------

  function IntegerTlv(v: i32): (s: Bytes) {
    Tlv(0x02, IntegerValue(v))
  }

  function OctetString(v: Bytes): (s: Bytes) {
    Tlv(0x04, v)
  }

  function KerberosString(v: Text): (s: Bytes) {
    Tlv(0x1b, v)
  }

  function GeneralizedTime(v: Text): (s: Bytes) {
    Tlv(0x18, v)
  }

  function BitString(flags: u32): (s: Bytes) {
    Tlv(0x03, [0] + U32BE(flags))
  }

  /** A SEQUENCE of context-tagged elements. */
  function Sequence(es: seq<Element>): (s: Bytes) {
    Tlv(0x30, Encode(es))
  }

  function KeySequence(k: EncryptionKey): (es: seq<Element>) {
    [Element(0xa0, IntegerTlv(k.enctype)), Element(0xa1, OctetString(k.value))]
  }

  /** encryption_key */
  function KeyBytes(k: EncryptionKey): (s: Bytes) {
    Sequence(KeySequence(k))
  }

  function DataSequence(d: EncryptedData): (es: seq<Element>) {
    [Element(0xa0, IntegerTlv(d.enctype)), Element(0xa2, OctetString(d.cipher))]
  }

  /** encrypted_data */
  function DataBytes(d: EncryptedData): (s: Bytes) {
    Sequence(DataSequence(d))
  }

  /** split_principal_components */
  function Components(principal: Text): (parts: seq<Text>) {
    NonEmpty(Split(principal, SLASH))
  }

  /** What principal_name_from_string writes: a name without components goes out whole. */
  function WrittenParts(principal: Text): (parts: seq<Text>)
    ensures |parts| > 0
  {
    if Components(principal) == [] then [principal] else Components(principal)
  }

  function StringElements(parts: seq<Text>): (es: seq<Element>)
    ensures |es| == |parts|
    ensures forall i :: 0 <= i < |parts| ==> es[i] == Element(0x1b, parts[i])
  {
    seq(|parts|, i requires 0 <= i < |parts| => Element(0x1b, parts[i]))
  }

  function NameSequence(principal: Text): (es: seq<Element>) {
    var parts := WrittenParts(principal);
    [Element(0xa0, IntegerTlv(if |parts| > 1 then 2 else 1)), Element(0xa1, Tlv(0x30, Encode(StringElements(parts))))]
  }

  /** principal_name_from_string */
  function PrincipalBytes(principal: Text): (s: Bytes) {
    Sequence(NameSequence(principal))
  }

  method SplitPrincipalComponents(principal: Text) returns (parts: seq<Text>)
    ensures parts == Components(principal)
  {
    hide Split, NonEmpty;
    parts := [];
    var start := 0;
    assert principal[0..] == principal;
    assert parts + NonEmpty(Split(principal[start..], SLASH)) == Components(principal);
    while start <= |principal|
      invariant start <= |principal|
      invariant parts + NonEmpty(Split(principal[start..], SLASH)) == Components(principal)
      decreases |principal| - start
    {
      var rest := principal[start..];
      var slash := IndexOf(rest, SLASH);
      var part := rest[..slash];
      SplitOnce(rest, parts);
      if part != [] {
        parts := parts + [part];
      }
      if slash == |rest| {
        break;
      }
      assert rest[slash + 1..] == principal[start + slash + 1..];
      start := start + slash + 1;
    }
  }

  lemma {:induction false} SplitOnce(s: Text, done: seq<Text>)
    ensures var i := IndexOf(s, SLASH);
            done + NonEmpty(Split(s, SLASH))
            == (if s[..i] == [] then done else done + [s[..i]])
               + (if i == |s| then [] else NonEmpty(Split(s[i + 1..], SLASH)))
  {
    hide NonEmpty, IndexOf;
    var i := IndexOf(s, SLASH);
    var none: seq<Text> := [];
    if i == |s| {
      assert s[..i] == s;
      assert [s] == [s] + none;
      NonEmptyFirst(s, none, done);
      NothingLeft();
    } else {
      NonEmptyFirst(s[..i], Split(s[i + 1..], SLASH), done);
    }
  }

  lemma NothingLeft()
    ensures NonEmpty([]) == []
  {
  }

  method PrincipalNameFromString(principal: Text) returns (s: Bytes)
    ensures s == PrincipalBytes(principal)
  {
    hide Tlv, Encode, Components, IntegerTlv, StringElements;
    var parts := SplitPrincipalComponents(principal);
    if parts == [] {
      parts := [principal];
    }
    var strings := new ByteBuffer();
    EncodeNothing();
    assert StringElements(parts)[..0] == [];
    for i := 0 to |parts|
      invariant strings.data == Encode(StringElements(parts)[..i])
    {
      EncodeOneMore(StringElements(parts)[..i], StringElements(parts)[i]);
      assert StringElements(parts)[..i + 1] == StringElements(parts)[..i] + [StringElements(parts)[i]];
      strings.Append(KerberosString(parts[i]));
    }
    assert StringElements(parts)[..|parts|] == StringElements(parts);
    var payload := new ByteBuffer();
    AppendTlv(payload, 0xa0, IntegerTlv(if |parts| > 1 then 2 else 1));
    AppendTlv(payload, 0xa1, Tlv(0x30, strings.data));
    EncodeTwo(NameSequence(principal)[0], NameSequence(principal)[1]);
    return Tlv(0x30, payload.data);
  }

  lemma EncodeNothing()
    ensures Encode([]) == []
  {
  }

  lemma {:induction false} EncodeOneMore(es: seq<Element>, e: Element)
    ensures Encode(es + [e]) == Encode(es) + Tlv(e.tag, e.content)
  {
    hide Tlv;
    if |es| == 0 {
      assert es + [e] == [e];
      assert [e][1..] == es;
    } else {
      assert (es + [e])[1..] == es[1..] + [e];
      EncodeOneMore(es[1..], e);
      var first := Tlv(es[0].tag, es[0].content);
      assert first + (Encode(es[1..]) + Tlv(e.tag, e.content)) == (first + Encode(es[1..])) + Tlv(e.tag, e.content);
    }
  }

  lemma EncodeTwo(a: Element, b: Element)
    ensures Encode([a, b]) == [] + Tlv(a.tag, a.content) + Tlv(b.tag, b.content)
  {
    hide Tlv, Encode;
    EncodeNothing();
    EncodeOneMore([], a);
    EncodeOneMore([a], b);
    assert [a] + [b] == [a, b];
    assert [] + [a] == [a];
  }

  // ---------- Reading ----------

  /** context_integer, on the content of the context element; so are the readers that follow. */
  function ContextInteger(s: Bytes): (r: Option<i32>)
  {
    match Inner(s, 0x02)
    case Some(c) => Some(IntegerFromContent(c))
    case None => None
  }

  /** Longer bit strings keep their last four bytes. */
  function ContextBits(s: Bytes): (r: Option<u32>)
  {
    match Inner(s, 0x03)
    case Some(c) => if |c| < 2 then None else Some(BigEndian(c[1..]) % 0x1_0000_0000)
    case None => None
  }

  function ContextString(s: Bytes): (r: Option<Text>)
  {
    match Head(s)
    case Some(e) => if IsStringTag(e.tag) then Some(e.content) else None
    case None => None
  }

  function ContextOctets(s: Bytes): (r: Option<Bytes>) {
    Inner(s, 0x04)
  }

  function ContextTime(s: Bytes): (r: Option<Text>) {
    Inner(s, 0x18)
  }

  function StringsIn(es: seq<Element>): (parts: seq<Text>)
  {
    if |es| == 0 then []
    else (if IsStringTag(es[0].tag) then [es[0].content] else []) + StringsIn(es[1..])
  }

  /** A slash goes in front of every part except while nothing has been written yet. */
  function JoinRead(acc: Text, parts: seq<Text>): (s: Text)
    decreases |parts|
  {
    if |parts| == 0 then acc
    else JoinRead(if acc == [] then parts[0] else acc + [SLASH] + parts[0], parts[1..])
  }

  /** context_principal */
  function ContextPrincipal(s: Bytes): (r: Option<Text>)
  {
    var name :- Inner(s, 0x30);
    var field :- Field(name, 0xa1);
    var strings :- Inner(field, 0x30);
    if Complete(strings) then Some(JoinRead([], StringsIn(Elements(strings)))) else None
  }

  function IntegersIn(es: seq<Element>): (values: seq<i32>)
  {
    if |es| == 0 then []
    else (if es[0].tag == 0x02 then [IntegerFromContent(es[0].content)] else []) + IntegersIn(es[1..])
  }

  /** context_integer_sequence: what was read before a malformed element is kept. */
  function ContextIntegers(s: Bytes): (values: seq<i32>)
  {
    match Inner(s, 0x30)
    case Some(c) => IntegersIn(Elements(c))
    case None => []
  }

  function KeyOf(sequence: Bytes): (r: Option<EncryptionKey>)
  {
    var enctypeField :- Field(sequence, 0xa0);
    var valueField :- Field(sequence, 0xa1);
    var enctype :- ContextInteger(enctypeField);
    var value :- ContextOctets(valueField);
    Some(EncryptionKey(enctype, value))
  }

  /** encryption_key_from_context */
  function ContextKey(s: Bytes): (r: Option<EncryptionKey>)
  {
    var sequence :- Inner(s, 0x30);
    KeyOf(sequence)
  }

  /** encrypted_data_from_der */
  function DataFromDer(s: Bytes): (r: Option<EncryptedData>)
  {
    var sequence :- Inner(s, 0x30);
    var enctypeField :- Field(sequence, 0xa0);
    var cipherField :- Field(sequence, 0xa2);
    var enctype :- ContextInteger(enctypeField);
    var cipher :- ContextOctets(cipherField);
    Some(EncryptedData(enctype, cipher))
  }

  // ---------- The loops over offsets ----------

  /** first_child of a node and the first element of its content are the same. */
  lemma FirstChildIsHead(input: Bytes, parent: Node)
    requires InBounds(input, parent)
    ensures var r := ReadNode(input, parent.contentOffset, parent.contentOffset + parent.contentLength);
            && (r.Some? ==> InBounds(input, r.value))
            && Head(Content(input, parent))
                == match r case None => None case Some(n) => Some(Element(n.tag, Content(input, n)))
  {
    hide ReadNode;
    WalkStep(input, parent.contentOffset, parent.nextOffset);
  }

  /** Reading the bytes of a node once more finds the same element: node_der loses nothing. */
  lemma NodeDerReads(input: Bytes, offset: nat, limit: nat)
    requires offset <= limit <= |input|
    ensures match ReadNode(input, offset, limit)
            case None => true
            case Some(n) => Head(input[n.tagOffset..n.nextOffset]) == Some(Element(n.tag, Content(input, n)))
  {
    hide BigEndian;
    var r := ReadNode(input, offset, limit);
    if r.Some? {
      var n := r.value;
      assert ReadNode(input, offset, n.nextOffset) == r;
      ReadNodeIsLocal(input, offset, n.nextOffset);
      var s := input[offset..n.nextOffset];
      assert s[n.contentOffset - offset..n.nextOffset - offset] == input[n.contentOffset..n.nextOffset];
    }
  }

  method ReadPrincipal(input: Bytes, context: Node) returns (r: Option<Text>)
    requires InBounds(input, context)
    ensures r == ContextPrincipal(Content(input, context))
  {
    hide ReadNode, Elements, JoinRead, FindFrom, Complete, Head;
    FirstChildIsHead(input, context);
    var name := ReadNode(input, context.contentOffset, context.contentOffset + context.contentLength);
    if name.None? || name.value.tag != 0x30 {
      return None;
    }
    var field := FindChild(input, name.value, 0xa1);
    FindRefines(input, name.value.contentOffset, name.value.nextOffset, 0xa1);
    if field.None? {
      return None;
    }
    FirstChildIsHead(input, field.value);
    var strings := ReadNode(input, field.value.contentOffset, field.value.contentOffset + field.value.contentLength);
    if strings.None? || strings.value.tag != 0x30 {
      return None;
    }
    var parts := ReadStrings(input, strings.value);
    if parts.None? {
      return None;
    }
    var principal := JoinParts(parts.value);
    return Some(principal);
  }

  method ReadStrings(input: Bytes, node: Node) returns (r: Option<seq<Text>>)
    requires InBounds(input, node)
    ensures r == if Complete(Content(input, node)) then Some(StringsIn(Elements(Content(input, node)))) else None
  {
    hide ReadNode, ReadLength, Elements, Complete, StringsIn, IsStringTag, BigEndian;
    var parts: seq<Text> := [];
    var offset, limit := node.contentOffset, node.contentOffset + node.contentLength;
    while offset < limit
      invariant node.contentOffset <= offset <= limit
      invariant Complete(Content(input, node)) <==> Complete(input[offset..limit])
      invariant parts + StringsIn(Elements(input[offset..limit])) == StringsIn(Elements(Content(input, node)))
      decreases limit - offset
    {
      StringStep(input, offset, limit, parts);
      var part := ReadNode(input, offset, limit);
      if part.None? {
        return None;
      }
      var n := part.value;
      if IsStringTag(n.tag) {
        parts := parts + [Content(input, n)];
      }
      offset := n.nextOffset;
    }
    StringStep(input, limit, limit, parts);
    return Some(parts);
  }

  lemma StringStep(input: Bytes, offset: nat, limit: nat, parts: seq<Text>)
    requires offset <= limit <= |input|
    ensures var s := input[offset..limit];
            match ReadNode(input, offset, limit)
            case None => parts + StringsIn(Elements(s)) == parts && (Complete(s) <==> offset == limit)
            case Some(n) =>
              && offset < n.nextOffset <= limit && InBounds(input, n)
              && parts + StringsIn(Elements(s))
                 == (if IsStringTag(n.tag) then parts + [Content(input, n)]
                     else parts) + StringsIn(Elements(input[n.nextOffset..limit]))
              && (Complete(s) <==> Complete(input[n.nextOffset..limit]))
    ensures ReadNode(input, limit, limit) == None
  {
    hide Elements, Complete, ReadLength, Content, IsStringTag;
    WalkStep(input, offset, limit);
    var r := ReadNode(input, offset, limit);
    if r.Some? {
      var rest := Elements(input[r.value.nextOffset..limit]);
      assert ([Element(r.value.tag, Content(input, r.value))] + rest)[1..] == rest;
    }
  }

  lemma {:induction false} IntegerStep(input: Bytes, offset: nat, limit: nat, values: seq<i32>)
    requires offset <= limit <= |input|
    ensures var s := input[offset..limit];
            match ReadNode(input, offset, limit)
            case None => values + IntegersIn(Elements(s)) == values
            case Some(n) =>
              && offset < n.nextOffset <= limit && InBounds(input, n)
              && values + IntegersIn(Elements(s))
                 == (if n.tag == 0x02 then values + [IntegerFromContent(Content(input, n))] else values)
                    + IntegersIn(Elements(input[n.nextOffset..limit]))
    ensures ReadNode(input, limit, limit) == None
  {
    hide Elements, Complete, ReadLength, Content, IntegerFromContent;
    WalkStep(input, offset, limit);
    var r := ReadNode(input, offset, limit);
    if r.Some? {
      var rest := Elements(input[r.value.nextOffset..limit]);
      assert ([Element(r.value.tag, Content(input, r.value))] + rest)[1..] == rest;
    }
  }

  method JoinParts(parts: seq<Text>) returns (principal: Text)
    ensures principal == JoinRead([], parts)
  {
    principal := [];
    assert parts[0..] == parts;
    for i := 0 to |parts|
      invariant JoinRead(principal, parts[i..]) == JoinRead([], parts)
    {
      assert parts[i..][1..] == parts[i + 1..];
      assert [] + parts[i] == parts[i];
      if principal != [] {
        principal := principal + [SLASH];
      }
      principal := principal + parts[i];
    }
  }

  method ReadIntegers(input: Bytes, context: Node) returns (values: seq<i32>)
    requires InBounds(input, context)
    ensures values == ContextIntegers(Content(input, context))
  {
    values := [];
    FirstChildIsHead(input, context);
    var sequence := ReadNode(input, context.contentOffset, context.contentOffset + context.contentLength);
    if sequence.None? || sequence.value.tag != 0x30 {
      return;
    }
    values := ReadIntegersFrom(input, sequence.value);
  }

  method ReadIntegersFrom(input: Bytes, node: Node) returns (values: seq<i32>)
    requires InBounds(input, node)
    ensures values == IntegersIn(Elements(Content(input, node)))
  {
    hide ReadNode, ReadLength, Elements, IntegersIn, IntegerFromContent, BigEndian;
    values := [];
    var offset, limit := node.contentOffset, node.contentOffset + node.contentLength;
    while offset < limit
      invariant node.contentOffset <= offset <= limit
      invariant values + IntegersIn(Elements(input[offset..limit])) == IntegersIn(Elements(Content(input, node)))
      decreases limit - offset
    {
      IntegerStep(input, offset, limit, values);
      var child := ReadNode(input, offset, limit);
      if child.None? {
        return;
      }
      var n := child.value;
      if n.tag == 0x02 {
        var value := ReadInteger(input, n);
        values := values + [value];
      }
      offset := n.nextOffset;
    }
    IntegerStep(input, limit, limit, values);
  }

  // ---------- Round trips ----------

  lemma IntegerValueIsShort(v: i32)
    ensures |IntegerValue(v)| <= 5
  {
  }

  lemma ContextIntegerReads(v: i32)
    ensures ContextInteger(IntegerTlv(v)) == Some(v)
  {
    hide Inner, IntegerValue, IntegerFromContent;
    IntegerValueIsShort(v);
    InnerOfTlv(0x02, IntegerValue(v));
    IntegerRoundTrip(v);
  }

  lemma ContextBitsReads(flags: u32)
    ensures ContextBits(BitString(flags)) == Some(flags)
  {
    hide Inner, Tlv, BigEndian;
    var c := [0] + U32BE(flags);
    InnerOfTlv(0x03, c);
    assert c[1..] == U32BE(flags);
    BigEndianU32(flags);
  }

  lemma ContextStringReads(v: Text)
    requires |v| <= 0xffff
    ensures ContextString(KerberosString(v)) == Some(v)
  {
    hide Head, Tlv;
    InnerOfTlv(0x1b, v);
  }

  lemma ContextOctetsReads(v: Bytes)
    requires |v| <= 0xffff
    ensures ContextOctets(OctetString(v)) == Some(v)
  {
    InnerOfTlv(0x04, v);
  }

  /** What holds of every sequence of at most 65535 bytes: its fields are found. */
  lemma {:induction false} SequenceReads(es: seq<Element>)
    requires |Encode(es)| <= 0xffff
    ensures Inner(Sequence(es), 0x30) == Some(Encode(es)) && Short(es)
    ensures forall i :: 0 <= i < |es| && (forall j :: 0 <= j < i ==> es[j].tag != es[i].tag)
              ==> Field(Encode(es), es[i].tag) == Some(es[i].content)
    ensures forall tag :: (forall i :: 0 <= i < |es| ==> es[i].tag != tag) ==> Field(Encode(es), tag) == None
  {
    hide Tlv, Encode, Elements, FindTag, Inner;
    InnerOfTlv(0x30, Encode(es));
    EncodeBound(es);
    ElementsOfEncode(es);
    forall i | 0 <= i < |es| && (forall j :: 0 <= j < i ==> es[j].tag != es[i].tag)
      ensures Field(Encode(es), es[i].tag) == Some(es[i].content)
    {
      FieldOfEncode(es, i);
    }
    forall tag | (forall i :: 0 <= i < |es| ==> es[i].tag != tag) ensures Field(Encode(es), tag) == None {
      FindTagNone(es, tag);
    }
  }

  lemma TlvBound(tag: byte, payload: Bytes)
    ensures |Tlv(tag, payload)| <= 0xffff ==> |payload| <= 0xffff
  {
  }

  /** A key that fits is read back. */
  lemma KeyReads(k: EncryptionKey)
    requires |Encode(KeySequence(k))| <= 0xffff
    ensures ContextKey(KeyBytes(k)) == Some(k)
  {
    hide Tlv, Encode, Inner, Field, ContextInteger, ContextOctets;
    var es := KeySequence(k);
    SequenceReads(es);
    assert es[0].tag != es[1].tag;
    ContextIntegerReads(k.enctype);
    assert es[1].content == Tlv(0x04, k.value);
    TlvBound(0x04, k.value);
    assert |es[1].content| <= 0xffff;
    ContextOctetsReads(k.value);
    assert Field(Encode(es), es[0].tag) == Some(es[0].content);
  }

  /** Encrypted data that fits is read back. */
  lemma DataReads(d: EncryptedData)
    requires |Encode(DataSequence(d))| <= 0xffff
    ensures DataFromDer(DataBytes(d)) == Some(d)
  {
    hide Tlv, Encode, Inner, Field, ContextInteger, ContextOctets;
    var es := DataSequence(d);
    SequenceReads(es);
    assert es[0].tag != es[1].tag;
    ContextIntegerReads(d.enctype);
    assert es[1].content == Tlv(0x04, d.cipher);
    TlvBound(0x04, d.cipher);
    assert |es[1].content| <= 0xffff;
    ContextOctetsReads(d.cipher);
    assert Field(Encode(es), es[0].tag) == Some(es[0].content);
  }

  // ---------- Principals ----------

  /** No empty component, or nothing but slashes. */
  predicate CanonicalName(principal: Text) {
    Components(principal) == [] || forall p :: p in Split(principal, SLASH) ==> p != []
  }

  lemma {:induction false} StringsOfElements(parts: seq<Text>)
    ensures StringsIn(StringElements(parts)) == parts
  {
    hide StringElements;
    if |parts| > 0 {
      assert StringElements(parts)[1..] == StringElements(parts[1..]);
      StringsOfElements(parts[1..]);
      assert parts == [parts[0]] + parts[1..];
    }
  }

  lemma {:induction false} JoinReadIsJoin(acc: Text, parts: seq<Text>)
    requires acc != [] && forall p :: p in parts ==> p != []
    ensures JoinRead(acc, parts) == Join([acc] + parts, SLASH)
    decreases |parts|
  {
    hide Join;
    var none: seq<Text> := [];
    if |parts| == 0 {
      assert [acc] + parts == [acc];
      JoinOne(acc);
    } else {
      assert parts[0] in parts;
      var acc' := acc + [SLASH] + parts[0];
      assert |acc'| > 0 && forall p :: p in parts[1..] ==> p in parts;
      JoinReadIsJoin(acc', parts[1..]);
      JoinOne(acc);
      JoinOne(parts[0]);
      JoinOne(acc');
      assert [acc] + parts == [acc] + parts[..1] + parts[1..] && parts[..1] == [parts[0]];
      JoinConcat([acc], [parts[0]], SLASH);
      if |parts| > 1 {
        JoinConcat([acc] + [parts[0]], parts[1..], SLASH);
        JoinConcat([acc'], parts[1..], SLASH);
      } else {
        assert parts[1..] == none && [acc'] + none == [acc'] && [acc] + [parts[0]] + none == [acc] + [parts[0]];
      }
    }
  }

  lemma JoinOne(s: Text)
    ensures Join([s], SLASH) == s
  {
  }

  /** The name a reader gets for the parts that were written. */
  function ReadBack(principal: Text): (s: Text)
  {
    if Components(principal) == [] then principal else Join(Components(principal), SLASH)
  }

  lemma JoinReadOfWritten(principal: Text)
    ensures JoinRead([], WrittenParts(principal)) == ReadBack(principal)
  {
    hide Join, Split, NonEmpty;
    var parts := WrittenParts(principal);
    assert JoinRead([], parts) == JoinRead(parts[0], parts[1..]);
    if Components(principal) != [] {
      forall p | p in parts ensures p != [] {
        NonEmptyMember(Split(principal, SLASH), p);
      }
      assert parts[0] in parts && forall p :: p in parts[1..] ==> p in parts;
      JoinReadIsJoin(parts[0], parts[1..]);
      assert [parts[0]] + parts[1..] == parts;
    }
  }

  lemma {:induction false} NonEmptyLength(parts: seq<Text>)
    ensures |NonEmpty(parts)| <= |parts|
    ensures NonEmpty(parts) == parts <==> forall p :: p in parts ==> p != []
    ensures |NonEmpty(parts)| == |parts| ==> NonEmpty(parts) == parts
  {
    if |parts| > 0 {
      NonEmptyLength(parts[1..]);
      assert parts == [parts[0]] + parts[1..];
      forall p | p in parts ensures p == parts[0] || p in parts[1..] {
        var i :| 0 <= i < |parts| && parts[i] == p;
        assert i > 0 ==> parts[1..][i - 1] == p;
      }
      assert parts[0] in parts && forall p :: p in parts[1..] ==> p in parts;
      assert NonEmpty(parts) != parts || parts[0] != [];
    }
  }

  /** The reader gets the written name back exactly when it has no empty component (or nothing but slashes). */
  lemma ReadBackExactlyWhen(principal: Text)
    ensures ReadBack(principal) == principal <==> CanonicalName(principal)
  {
    hide Join, Split, NonEmpty;
    var pieces := Split(principal, SLASH);
    NonEmptyLength(pieces);
    JoinSplit(principal, SLASH);
    if Components(principal) != [] && ReadBack(principal) == principal {
      forall p | p in Components(principal) ensures p in pieces && SLASH !in p {
        NonEmptyMember(pieces, p);
      }
      SplitJoin(Components(principal), SLASH);
    }
  }

  /** A name that fits is read back as its components joined. */
  lemma PrincipalReads(principal: Text)
    requires |Encode(NameSequence(principal))| <= 0xffff
    ensures ContextPrincipal(PrincipalBytes(principal)) == Some(ReadBack(principal))
    ensures ContextPrincipal(PrincipalBytes(principal)) == Some(principal) <==> CanonicalName(principal)
  {
    hide Tlv, Encode, Inner, Field, WrittenParts, ReadBack, JoinRead, Elements, Complete, IntegerTlv, StringElements,
      CanonicalName;
    var es := NameSequence(principal);
    var parts := WrittenParts(principal);
    SequenceReads(es);
    assert es[0].tag != es[1].tag;
    var strings := Encode(StringElements(parts));
    TlvBound(0x30, strings);
    assert es[1].content == Tlv(0x30, strings);
    assert |es[1].content| <= 0xffff;
    InnerOfTlv(0x30, strings);
    EncodeBound(StringElements(parts));
    ElementsOfEncode(StringElements(parts));
    StringsOfElements(parts);
    JoinReadOfWritten(principal);
    ReadBackExactlyWhen(principal);
  }
}
