/** Building a DNS response: record data, the answer section and its read-back. */
module DnsResponses {
  import opened Octets
  import opened Texts
  import opened Buffers
  import opened DnsNames
  import opened DnsZones

  const MINUS: byte := 45

  // ---------- IPv4 addresses in text form ----------

  /** std::from_chars into an int, for one part of a dotted quad; None where the caller rejects the part. */
  function ParsePart(s: Text): (b: Option<byte>)
  {
    var digits := if |s| > 0 && s[0] == MINUS then s[1..] else s;
    if |digits| == 0 || DigitRun(digits) != |digits| then None
    else
      var value := DigitsValue(digits);
      if value > 255 || (|s| > 0 && s[0] == MINUS && value != 0) then None else Some(value)
  }

  /** ipv4_bytes, part `index` onwards: a missing dot fails before the last part, further dots after it do not. */
  function IpParts(s: Text, index: nat): (r: Option<Bytes>)
    requires index <= 3
    ensures r.Some? ==> |r.value| == 4 - index
    decreases 3 - index
  {
    var dot := IndexOf(s, DOT);
    var part :- ParsePart(s[..dot]);
    if index == 3 then Some([part])
    else if dot == |s| then None
    else
      var rest :- IpParts(s[dot + 1..], index + 1);
      Some([part] + rest)
  }

  function Ipv4Bytes(value: Text): (r: Option<Bytes>)
    ensures r.Some? ==> |r.value| == 4
  {
    IpParts(value, 0)
  }

  function Ipv4Text(b0: byte, b1: byte, b2: byte, b3: byte): (s: Text)
    ensures |s| > 0
  {
    Decimal(b0) + [DOT] + Decimal(b1) + [DOT] + Decimal(b2) + [DOT] + Decimal(b3)
  }

  lemma ParseDecimal(b: byte, rest: Text)
    ensures IndexOf(Decimal(b) + [DOT] + rest, DOT) == |Decimal(b)|
    ensures IndexOf(Decimal(b), DOT) == |Decimal(b)|
    ensures (Decimal(b) + [DOT] + rest)[..|Decimal(b)|] == Decimal(b)
    ensures (Decimal(b) + [DOT] + rest)[|Decimal(b)| + 1..] == rest
    ensures ParsePart(Decimal(b)) == Some(b)
    ensures Decimal(b)[..|Decimal(b)|] == Decimal(b)
  {
    hide Decimal;
    forall i | 0 <= i < |Decimal(b)| ensures Decimal(b)[i] != DOT {
      assert IsDigit(Decimal(b)[i]);
    }
    IndexOfSeparator(Decimal(b), DOT, rest);
    DigitRunOfDecimal(b, []);
    assert Decimal(b) + [] == Decimal(b);
    assert Decimal(b) + [DOT] + rest == Decimal(b) + ([DOT] + rest);
    DecimalValue(b);
    assert IsDigit(Decimal(b)[0]);
  }

  /** An address registered in text form is served as the same four bytes. */
  lemma Ipv4RoundTrip(b0: byte, b1: byte, b2: byte, b3: byte)
    ensures Ipv4Bytes(Ipv4Text(b0, b1, b2, b3)) == Some([b0, b1, b2, b3])
  {
    hide Decimal, IpParts;
    var t2 := Decimal(b2) + [DOT] + Decimal(b3);
    var t1 := Decimal(b1) + [DOT] + t2;
    LastPart(b3);
    NextPart(b2, 2, Decimal(b3), [b3]);
    NextPart(b1, 1, t2, [b2] + [b3]);
    NextPart(b0, 0, t1, [b1] + ([b2] + [b3]));
    assert Ipv4Text(b0, b1, b2, b3) == Decimal(b0) + [DOT] + t1;
    assert [b0] + ([b1] + ([b2] + [b3])) == [b0, b1, b2, b3];
  }

  lemma LastPart(b: byte)
    ensures IpParts(Decimal(b), 3) == Some([b])
  {
    hide Decimal, ParsePart, IndexOf;
    ParseDecimal(b, []);
  }

  lemma NextPart(b: byte, index: nat, rest: Text, parts: Bytes)
    requires index < 3 && IpParts(rest, index + 1) == Some(parts)
    ensures IpParts(Decimal(b) + [DOT] + rest, index) == Some([b] + parts)
  {
    hide Decimal, ParsePart, IndexOf;
    ParseDecimal(b, rest);
  }

  // ---------- The answer section ----------

  /** append_record_data; types are compared exactly here, so other spellings carry no data. */
  function RecordData(record: Record): (s: Bytes)
  {
    if record.rtype == NAME_A then Ipv4Bytes(record.value).GetOr([])
    else if record.rtype == NAME_SRV then
      U16BE(record.priority) + U16BE(record.weight) + U16BE(record.port) + WireName(record.value)
    else if record.rtype == NAME_NS || record.rtype == NAME_CNAME then WireName(record.value)
    else if record.rtype == NAME_TXT then
      var size := if |record.value| < 255 then |record.value| else 255;
      [size] + record.value[..size]
    else []
  }

  function AnswerHead(name: Text, record: Record): (s: Bytes)
  {
    WireName(name) + U16BE(TypeCode(record.rtype)) + U16BE(CLASS_IN) + U32BE(record.ttl)
  }

  function Answer(name: Text, record: Record): (s: Bytes)
  {
    AnswerHead(name, record) + U16BE(|RecordData(record)| % 0x1_0000) + RecordData(record)
  }

  function Answers(name: Text, records: seq<Record>): (s: Bytes)
  {
    if |records| == 0 then [] else Answer(name, records[0]) + Answers(name, records[1..])
  }

  function Header(id: u16, flags: u16, questions: u16, answers: u16): (s: Bytes)
    ensures |s| == 12
  {
    U16BE(id) + U16BE(flags) + U16BE(questions) + U16BE(answers) + U16BE(0) + U16BE(0)
  }

  /** zone_exists_for_update */
  predicate ZoneExistsForUpdate(q: Question, zones: seq<Zone>) {
    exists i :: 0 <= i < |zones| && IsUpdateZone(q.name, zones[i])
  }

  const MSDCS: Text := [95, 109, 115, 100, 99, 115, 46]

  predicate IsUpdateZone(name: Text, zone: Zone) {
    Canonical(name) == Canonical(zone.name) || Canonical(name) == MSDCS + Canonical(zone.name)
  }

  predicate IsUpdateQuestion(q: Question) {
    (q.qtype == TYPE_SOA || q.qtype == TYPE_ANY) && q.qclass == CLASS_IN
  }

  /** dns_update_response: NOERROR, NOTAUTH (9) or FORMERR (1), the zone section echoed when it parses. */
  function UpdateResponse(query: Bytes, zones: seq<Zone>): (s: Bytes)
    requires |query| >= 12
  {
    var q := ParseQuestion(query);
    if q.Some? && IsUpdateQuestion(q.value) then
      Header(ReadU16(query, 0), 0xA800 + (if ZoneExistsForUpdate(q.value, zones) then 0 else 9), 1, 0)
      + query[12..q.value.endOffset]
    else Header(ReadU16(query, 0), 0xA801, 0, 0)
  }

  /** resolve_dns_query */
  function Response(query: Bytes, zones: seq<Zone>): (s: Bytes)
  {
    if |query| < 12 then []
    else if Opcode(ReadU16(query, 2)) == OPCODE_UPDATE then UpdateResponse(query, zones)
    else
      var q := ParseQuestion(query);
      if q.None? then Header(ReadU16(query, 0), 0x8181, 0, 0)
      else
        var records := MatchingRecords(q.value, zones);
        Header(ReadU16(query, 0), 0x8180, 1, |records| % 0x1_0000)
        + query[12..q.value.endOffset] + Answers(q.value.name, records)
  }

  method AppendRecordData(response: ByteBuffer, record: Record)
    modifies response
    ensures response.data == old(response.data) + RecordData(record)
  {
    hide WireName, Ipv4Bytes, U16BE;
    if record.rtype == NAME_A {
      var parts := Ipv4Bytes(record.value);
      if parts.Some? {
        response.Append(parts.value);
      }
    } else if record.rtype == NAME_SRV {
      response.Append(U16BE(record.priority));
      response.Append(U16BE(record.weight));
      response.Append(U16BE(record.port));
      WriteDnsName(response, record.value);
    } else if record.rtype == NAME_NS || record.rtype == NAME_CNAME {
      WriteDnsName(response, record.value);
    } else if record.rtype == NAME_TXT {
      var size := if |record.value| < 255 then |record.value| else 255;
      response.Push(size);
      response.Append(record.value[..size]);
    }
  }

  /** One answer, its length field patched after the data has been written. */
  method AppendAnswer(response: ByteBuffer, name: Text, record: Record)
    modifies response
    ensures response.data == old(response.data) + Answer(name, record)
  {
    hide *;
    ghost var before := response.data;
    WriteDnsName(response, name);
    response.Append(U16BE(TypeCode(record.rtype)));
    response.Append(U16BE(CLASS_IN));
    response.Append(U32BE(record.ttl));
    var rdlengthOffset := |response.data|;
    ghost var head := response.data;
    response.Append(U16BE(0));
    var rdataStart := |response.data|;
    AppendRecordData(response, record);
    var rdataSize := |response.data| - rdataStart;
    var high: byte, low: byte := rdataSize / 256 % 256, rdataSize % 256;
    response.Patch(rdlengthOffset, high);
    response.Patch(rdlengthOffset + 1, low);
    AnswerAssembled(before, name, record);
    PatchedLength(head, RecordData(record), high, low);
  }

  lemma AnswerAssembled(before: Bytes, name: Text, record: Record)
    ensures before + WireName(name) + U16BE(TypeCode(record.rtype)) + U16BE(CLASS_IN) + U32BE(record.ttl)
         == before + AnswerHead(name, record)
    ensures before + Answer(name, record)
         == before + AnswerHead(name, record) + U16BE(|RecordData(record)| % 0x1_0000) + RecordData(record)
  {
  }

  lemma PatchedLength(head: Bytes, rdata: Bytes, high: byte, low: byte)
    requires high == |rdata| / 256 % 256 && low == |rdata| % 256
    ensures (head + U16BE(0) + rdata)[|head| := high][|head| + 1 := low] == head + U16BE(|rdata| % 0x1_0000) + rdata
  {
    assert U16BE(0) == [0, 0];
    assert (head + [0, 0] + rdata)[|head| := high] == head + [high, 0] + rdata;
    assert (head + [high, 0] + rdata)[|head| + 1 := low] == head + [high, low] + rdata;
    LengthBytes(|rdata|);
  }

  lemma LengthBytes(n: nat)
    ensures n % 0x1_0000 / 256 == n / 256 % 256 && n % 0x1_0000 % 256 == n % 256
  {
  }

  method ResolveDnsQuery(query: Bytes, zones: seq<Zone>) returns (bytes: Bytes)
    ensures bytes == Response(query, zones)
  {
    hide *;
    ResponseCases(query, zones);
    if |query| < 12 {
      return [];
    }
    if Opcode(ReadU16(query, 2)) == OPCODE_UPDATE {
      return UpdateResponse(query, zones);
    }
    var question := ParseQuestion(query);
    if question.None? {
      return Header(ReadU16(query, 0), 0x8181, 0, 0);
    }
    var q := question.value;
    var answers := MatchingRecords(q, zones);
    var response := new ByteBuffer();
    response.Append(Header(ReadU16(query, 0), 0x8180, 1, |answers| % 0x1_0000));
    response.Append(query[12..q.endOffset]);
    AppendAnswers(response, q.name, answers);
    bytes := response.data;
  }

  lemma ResponseCases(query: Bytes, zones: seq<Zone>)
    ensures |query| < 12 ==> Response(query, zones) == []
    ensures |query| >= 12 && Opcode(ReadU16(query, 2)) == OPCODE_UPDATE ==>
              Response(query, zones) == UpdateResponse(query, zones)
    ensures |query| >= 12 && Opcode(ReadU16(query, 2)) != OPCODE_UPDATE && ParseQuestion(query).None? ==>
              Response(query, zones) == Header(ReadU16(query, 0), 0x8181, 0, 0)
    ensures |query| >= 12 && Opcode(ReadU16(query, 2)) != OPCODE_UPDATE && ParseQuestion(query).Some? ==>
              var q := ParseQuestion(query).value;
              Response(query, zones)
              == [] + Header(ReadU16(query, 0), 0x8180, 1, |MatchingRecords(q, zones)| % 0x1_0000)
                 + query[12..q.endOffset] + Answers(q.name, MatchingRecords(q, zones))
  {
    hide Header, MatchingRecords, Answers, ParseQuestion, UpdateResponse, Opcode, ReadU16;
  }

  /** The loop over the answers. */
  method AppendAnswers(response: ByteBuffer, name: Text, answers: seq<Record>)
    modifies response
    ensures response.data == old(response.data) + Answers(name, answers)
  {
    hide Answer;
    assert answers[0..] == answers;
    for i := 0 to |answers|
      invariant response.data + Answers(name, answers[i..]) == old(response.data) + Answers(name, answers)
    {
      assert answers[i..][1..] == answers[i + 1..];
      AppendAnswer(response, name, answers[i]);
    }
  }

  // ---------- Reading a response back ----------

  /** skip_dns_records */
  function SkipRecords(bytes: Bytes, offset: nat, count: nat): (end: Option<nat>)
    decreases count
  {
    if count == 0 then Some(offset)
    else
      var (o, _) :- ReadName(bytes, offset);
      if o + 10 > |bytes| then None
      else if o + 10 + ReadU16(bytes, o + 8) > |bytes| then None
      else SkipRecords(bytes, o + 10 + ReadU16(bytes, o + 8), count - 1)
  }

  method SkipDnsRecords(bytes: Bytes, start: nat, count: u16) returns (ok: bool, offset: nat)
    ensures ok <==> SkipRecords(bytes, start, count).Some?
    ensures ok ==> Some(offset) == SkipRecords(bytes, start, count)
  {
    hide *;
    offset := start;
    for index := 0 to count
      invariant SkipRecords(bytes, start, count) == SkipRecords(bytes, offset, count - index)
    {
      SkipOne(bytes, offset, count - index);
      var found, o, _ := ReadDnsName(bytes, offset, 0);
      ReadNameIsReadLabels(bytes, offset);
      if !found || o + 10 > |bytes| {
        return false, offset;
      }
      var rdlength := ReadU16(bytes, o + 8);
      if o + 10 + rdlength > |bytes| {
        return false, offset;
      }
      offset := o + 10 + rdlength;
    }
    SkipNone(bytes, offset);
    return true, offset;
  }

  lemma SkipNone(bytes: Bytes, offset: nat)
    ensures SkipRecords(bytes, offset, 0) == Some(offset)
  {
  }

  lemma SkipOne(bytes: Bytes, offset: nat, count: nat)
    requires count > 0
    ensures SkipRecords(bytes, offset, count)
         == match ReadName(bytes, offset)
            case None => None
            case Some((o, _)) =>
              if o + 10 > |bytes| || o + 10 + ReadU16(bytes, o + 8) > |bytes| then None
              else SkipRecords(bytes, o + 10 + ReadU16(bytes, o + 8), count - 1)
  {
    hide ReadName, ReadU16;
  }

  lemma ReadNameIsReadLabels(bytes: Bytes, offset: nat)
    ensures ReadName(bytes, offset) == ReadLabels(bytes, offset, [], 0)
    ensures 0 <= MAX_DEPTH
  {
  }

  /** An answer as a client sees it. */
  datatype Reading = Reading(name: Text, rtype: u16, rclass: u16, ttl: u32, rdata: Bytes)

  function ReadAnswers(bytes: Bytes, offset: nat, count: nat): (r: Option<(nat, seq<Reading>)>)
    decreases count
  {
    if count == 0 then Some((offset, []))
    else
      var (o, name) :- ReadName(bytes, offset);
      if o + 10 > |bytes| || o + 10 + ReadU16(bytes, o + 8) > |bytes| then None
      else
        var end := o + 10 + ReadU16(bytes, o + 8);
        var first := Reading(name, ReadU16(bytes, o), ReadU16(bytes, o + 2), ReadU32(bytes, o + 4), bytes[o + 10..end]);
        var (last, rest) :- ReadAnswers(bytes, end, count - 1);
        Some((last, [first] + rest))
  }

  lemma {:induction false} ReadAnswersSkips(bytes: Bytes, offset: nat, count: nat)
    ensures match ReadAnswers(bytes, offset, count)
            case Some((end, _)) => SkipRecords(bytes, offset, count) == Some(end)
            case None => SkipRecords(bytes, offset, count) == None
    decreases count
  {
    hide ReadName, ReadU16, ReadU32;
    if count > 0 {
      SkipOne(bytes, offset, count);
      var r := ReadName(bytes, offset);
      if r.Some? && r.value.0 + 10 <= |bytes| {
        ReadAnswersSkips(bytes, r.value.0 + 10 + ReadU16(bytes, r.value.0 + 8), count - 1);
      }
    }
  }

  /** What a client should see of a record. */
  function Seen(name: Text, record: Record): Reading {
    Reading(ReadBack(name), TypeCode(record.rtype), CLASS_IN, record.ttl, RecordData(record))
  }

  function SeenAll(name: Text, records: seq<Record>): (r: seq<Reading>)
    ensures |r| == |records|
    ensures forall i :: 0 <= i < |r| ==> r[i] == Seen(name, records[i])
  {
    seq(|records|, i requires 0 <= i < |records| => Seen(name, records[i]))
  }

  lemma FieldsOf(before: Bytes, rtype: u16, rclass: u16, ttl: u32, rdata: Bytes, after: Bytes)
    requires |rdata| < 0x1_0000
    ensures var bytes := before + (U16BE(rtype) + U16BE(rclass) + U32BE(ttl) + U16BE(|rdata|) + rdata) + after;
            var o := |before|;
            && o + 10 + |rdata| <= |bytes|
            && ReadU16(bytes, o) == rtype && ReadU16(bytes, o + 2) == rclass && ReadU32(bytes, o + 4) == ttl
            && ReadU16(bytes, o + 8) == |rdata| && bytes[o + 10..o + 10 + |rdata|] == rdata
  {
    var head := U16BE(rtype) + U16BE(rclass) + U32BE(ttl) + U16BE(|rdata|);
    HeadFields(rtype, rclass, ttl, |rdata|, rdata + after);
    assert before + (head + rdata) + after == before + (head + (rdata + after));
    FieldsShift(before, head + (rdata + after));
    assert (head + (rdata + after))[10..10 + |rdata|] == rdata;
  }

  lemma HeadFields(rtype: u16, rclass: u16, ttl: u32, size: u16, rest: Bytes)
    ensures var s := U16BE(rtype) + U16BE(rclass) + U32BE(ttl) + U16BE(size) + rest;
            ReadU16(s, 0) == rtype && ReadU16(s, 2) == rclass && ReadU32(s, 4) == ttl && ReadU16(s, 8) == size
  {
    hide U16BE, U32BE, ReadU16, ReadU32;
    var s := U16BE(rtype) + U16BE(rclass) + U32BE(ttl) + U16BE(size) + rest;
    FieldAt([], U16BE(rtype), U16BE(rclass) + U32BE(ttl) + U16BE(size) + rest, s);
    FieldAt(U16BE(rtype), U16BE(rclass), U32BE(ttl) + U16BE(size) + rest, s);
    FieldAt(U16BE(rtype) + U16BE(rclass), U32BE(ttl), U16BE(size) + rest, s);
    FieldAt(U16BE(rtype) + U16BE(rclass) + U32BE(ttl), U16BE(size), rest, s);
    FieldValue16(rtype);
    FieldValue16(rclass);
    FieldValue16(size);
    FieldValue32(ttl);
  }

  lemma FieldAt(before: Bytes, field: Bytes, after: Bytes, s: Bytes)
    requires s == before + field + after
    ensures |field| == 2 ==> ReadU16(s, |before|) == ReadU16(field, 0)
    ensures |field| == 4 ==> ReadU32(s, |before|) == ReadU32(field, 0)
  {
    assert forall i :: 0 <= i < |field| ==> s[|before| + i] == field[i];
  }

  lemma FieldValue16(v: u16)
    ensures ReadU16(U16BE(v), 0) == v
  {
  }

  lemma FieldValue32(v: u32)
    ensures ReadU32(U32BE(v), 0) == v
  {
    assert v / 0x1_0000 == 256 * (v / 0x100_0000) + v / 0x1_0000 % 256;
    assert v / 256 == 256 * (v / 0x1_0000) + v / 256 % 256;
  }

  lemma FieldsShift(before: Bytes, s: Bytes)
    requires |s| >= 10
    ensures ReadU16(before + s, |before|) == ReadU16(s, 0) && ReadU16(before + s, |before| + 2) == ReadU16(s, 2)
    ensures ReadU32(before + s, |before| + 4) == ReadU32(s, 4) && ReadU16(before + s, |before| + 8) == ReadU16(s, 8)
    ensures forall i, j :: 0 <= i <= j <= |s| ==> (before + s)[|before| + i..|before| + j] == s[i..j]
  {
  }

  /** A name that is written as a complete name: the root, or one without empty labels. */
  predicate CleanName(name: Text) {
    IsRootName(name) || NoneEmpty(Split(TrimDots(name), DOT))
  }

  lemma {:induction false} OneAnswer(before: Bytes, name: Text, record: Record, after: Bytes, count: nat)
    requires CleanName(name) && |RecordData(record)| < 0x1_0000 && count > 0
    ensures ReadAnswers(before + Answer(name, record) + after, |before|, count)
         == match ReadAnswers(before + Answer(name, record) + after, |before + Answer(name, record)|, count - 1)
            case Some((end, rest)) => Some((end, [Seen(name, record)] + rest))
            case None => None
  {
    hide ReadName, WireName, ReadBack, TypeCode, RecordData, CleanName, U16BE, U32BE, ReadU16, ReadU32;
    var rdata, owner := RecordData(record), WireName(name);
    var fields := U16BE(TypeCode(record.rtype)) + U16BE(CLASS_IN) + U32BE(record.ttl) + U16BE(|rdata|) + rdata;
    var bytes := before + Answer(name, record) + after;
    assert |rdata| % 0x1_0000 == |rdata|;
    assert Answer(name, record) == owner + fields;
    assert bytes == before + owner + (fields + after);
    assert bytes == (before + owner) + fields + after;
    OwnerReadsBack(name, before, fields + after);
    FieldsOf(before + owner, TypeCode(record.rtype), CLASS_IN, record.ttl, rdata, after);
  }

  lemma OwnerReadsBack(name: Text, before: Bytes, after: Bytes)
    requires CleanName(name)
    ensures ReadName(before + WireName(name) + after, |before|) == Some((|before| + |WireName(name)|, ReadBack(name)))
  {
    hide ReadName, WireName, ReadBack, Split;
    WrittenNameReads(name, before, after);
  }

  lemma {:induction false} AnswersReadBack(before: Bytes, name: Text, records: seq<Record>)
    requires |records| > 0 ==> CleanName(name)
    requires forall r :: r in records ==> |RecordData(r)| < 0x1_0000
    ensures ReadAnswers(before + Answers(name, records), |before|, |records|)
         == Some((|before + Answers(name, records)|, SeenAll(name, records)))
    decreases |records|
  {
    hide Answer, CleanName, RecordData, Seen;
    if |records| == 0 {
      assert SeenAll(name, records) == [];
    } else {
      var first, rest := Answer(name, records[0]), Answers(name, records[1..]);
      assert before + Answers(name, records) == before + first + rest;
      AnswersReadBack(before + first, name, records[1..]);
      OneAnswer(before, name, records[0], rest, |records|);
      assert SeenAll(name, records) == [Seen(name, records[0])] + SeenAll(name, records[1..]);
    }
  }

  /** What a zone holds for a question can be put into an answer: names without empty labels, data below 64 KiB. */
  predicate Servable(q: Question, zone: Zone) {
    forall r :: r in zone.records && MatchesQuestion(q, zone, r)
      ==> CleanName(RecordFqdn(zone, r)) && |RecordData(r)| < 0x1_0000
  }

  lemma {:induction false} ServableMatches(q: Question, zones: seq<Zone>)
    requires forall zone :: zone in zones ==> Servable(q, zone)
    ensures |MatchingRecords(q, zones)| > 0 ==> CleanName(q.name)
    ensures forall r :: r in MatchingRecords(q, zones) ==> |RecordData(r)| < 0x1_0000
  {
    hide RecordFqdn, CleanName, RecordData, MatchingIn;
    if |zones| > 0 {
      assert zones[0] in zones;
      ServableMatches(q, zones[1..]);
      var first := MatchingIn(q, zones[0], zones[0].records);
      assert |first| > 0 ==> first[0] in first;
    }
  }

  /** A well-formed response: to any query that is not an update and has a readable question, over zones whose
      matching records have names without empty labels and data below 64 KiB, fewer than 65536 of them. The id and the
      question bytes are echoed, ANCOUNT is the number of matching records, the answer section read back is exactly
      these records in zone order, and skipping ANCOUNT records from the end of the question lands on the end of the
      buffer. */
  lemma {:induction false} ResponseWellFormed(query: Bytes, zones: seq<Zone>)
    requires |query| >= 12 && Opcode(ReadU16(query, 2)) != OPCODE_UPDATE && ParseQuestion(query).Some?
    requires |MatchingRecords(ParseQuestion(query).value, zones)| < 0x1_0000
    requires forall zone :: zone in zones ==> Servable(ParseQuestion(query).value, zone)
    ensures var q, r := ParseQuestion(query).value, Response(query, zones);
            var records := MatchingRecords(q, zones);
            && q.endOffset <= |r|
            && r[..2] == query[..2] && r[12..q.endOffset] == query[12..q.endOffset]
            && ReadU16(r, 6) == |records|
            && ReadAnswers(r, q.endOffset, |records|) == Some((|r|, SeenAll(q.name, records)))
            && SkipRecords(r, q.endOffset, |records|) == Some(|r|)
  {
    hide *;
    var q := ParseQuestion(query).value;
    var records := MatchingRecords(q, zones);
    var echo := query[12..q.endOffset];
    var before := Header(ReadU16(query, 0), 0x8180, 1, |records|) + echo;
    ServableMatches(q, zones);
    ResponseParts(query, zones);
    AnswersReadBack(before, q.name, records);
    ReadAnswersSkips(before + Answers(q.name, records), q.endOffset, |records|);
    HeaderFields(ReadU16(query, 0), 0x8180, 1, |records|, echo, Answers(q.name, records));
    FirstTwo(query);
  }

  lemma {:induction false} ResponseParts(query: Bytes, zones: seq<Zone>)
    requires |query| >= 12 && Opcode(ReadU16(query, 2)) != OPCODE_UPDATE && ParseQuestion(query).Some?
    requires |MatchingRecords(ParseQuestion(query).value, zones)| < 0x1_0000
    ensures var q := ParseQuestion(query).value;
            var records := MatchingRecords(q, zones);
            Response(query, zones)
            == Header(ReadU16(query, 0), 0x8180, 1, |records|) + query[12..q.endOffset] + Answers(q.name, records)
  {
    hide Header, MatchingRecords, Answers, ParseQuestion, UpdateResponse, Opcode, ReadU16;
  }

  lemma FirstTwo(s: Bytes)
    requires |s| >= 2
    ensures s[..2] == U16BE(ReadU16(s, 0))
  {
  }

  lemma HeaderFields(id: u16, flags: u16, questions: u16, answers: u16, echo: Bytes, rest: Bytes)
    ensures var r := Header(id, flags, questions, answers) + echo + rest;
            r[..2] == U16BE(id) && ReadU16(r, 6) == answers && r[12..12 + |echo|] == echo
  {
  }
}
