/** Zones, records, questions and the matching of records to questions (dns.cpp, models.hpp). */
module DnsZones {
  import opened Octets
  import opened Texts
  import opened DnsNames

  datatype Record = Record(
    name: Text, rtype: Text, value: Text, dnsClass: Text, ttl: u32, priority: u16, weight: u16, port: u16, flags: Text)

  datatype Zone = Zone(name: Text, serial: u64, records: seq<Record>)

  datatype Question = Question(name: Text, qtype: u16, qclass: u16, endOffset: nat)

  const TYPE_A: u16 := 1
  const TYPE_NS: u16 := 2
  const TYPE_CNAME: u16 := 5
  const TYPE_SOA: u16 := 6
  const TYPE_TXT: u16 := 16
  const TYPE_AAAA: u16 := 28
  const TYPE_SRV: u16 := 33
  const TYPE_ANY: u16 := 255
  const CLASS_IN: u16 := 1
  const CLASS_NONE: u16 := 254
  const CLASS_ANY: u16 := 255
  const OPCODE_UPDATE := 5

  const NAME_A: Text := [65]
  const NAME_NS: Text := [78, 83]
  const NAME_CNAME: Text := [67, 78, 65, 77, 69]
  const NAME_SOA: Text := [83, 79, 65]
  const NAME_TXT: Text := [84, 88, 84]
  const NAME_AAAA: Text := [65, 65, 65, 65]
  const NAME_SRV: Text := [83, 82, 86]
  const NAME_ANY: Text := [65, 78, 89]
  const NAME_IN: Text := [73, 78]

  function Opcode(flags: u16): nat {
    flags / 2048 % 16
  }

  /** type_code: unknown spellings give 0. */
  function TypeCode(rtype: Text): (code: u16)
  {
    var t := Lower(rtype);
    if t == Lower(NAME_A) then TYPE_A
    else if t == Lower(NAME_NS) then TYPE_NS
    else if t == Lower(NAME_CNAME) then TYPE_CNAME
    else if t == Lower(NAME_SOA) then TYPE_SOA
    else if t == Lower(NAME_TXT) then TYPE_TXT
    else if t == Lower(NAME_AAAA) then TYPE_AAAA
    else if t == Lower(NAME_SRV) then TYPE_SRV
    else 0
  }

  /** type_name: the types an update may carry. */
  function TypeName(code: u16): (rtype: Text)
  {
    if code == TYPE_A then NAME_A
    else if code == TYPE_NS then NAME_NS
    else if code == TYPE_CNAME then NAME_CNAME
    else if code == TYPE_TXT then NAME_TXT
    else if code == TYPE_SRV then NAME_SRV
    else if code == TYPE_ANY then NAME_ANY
    else []
  }

  /** The type written into a response is the type the update named. */
  lemma TypeCodeOfName(code: u16)
    ensures TypeName(code) == [] || code == TYPE_ANY || TypeCode(TypeName(code)) == code
    ensures code == TYPE_ANY ==> TypeCode(TypeName(code)) == 0
  {
    assert |NAME_A| == 1 && |NAME_NS| == 2 && |NAME_CNAME| == 5 && |NAME_SOA| == 3 && |NAME_AAAA| == 4;
    assert Lower(NAME_TXT)[0] == 116 && Lower(NAME_SRV)[0] == 115 && Lower(NAME_ANY)[0] == 97;
    assert Lower(NAME_SOA)[1] == 111 && Lower(NAME_SRV)[1] == 114;
  }

  /** Two spellings with the same known code differ only in case. */
  lemma TypeCodeInjective(s: Text, t: Text)
    requires TypeCode(s) == TypeCode(t) != 0
    ensures Lower(s) == Lower(t)
  {
  }

  function Canonical(name: Text): (r: Text)
  {
    Lower(TrimDots(name))
  }

  function RecordFqdn(zone: Zone, record: Record): (fqdn: Text)
  {
    var zoneName := Canonical(zone.name);
    if record.name == AT_SIGN || record.name == [] then zoneName
    else
      var name := Canonical(record.name);
      if name == zoneName || (|name| > |zoneName| && EndsWith(name, [DOT] + zoneName)) then name
      else name + [DOT] + zoneName
  }

  function ParseQuestion(query: Bytes): (q: Option<Question>)
    ensures q.Some? ==> |query| >= 12 && 12 < q.value.endOffset - 4 && q.value.endOffset <= |query|
  {
    if |query| < 12 || ReadU16(query, 4) == 0 then None
    else
      var (offset, name) :- ReadName(query, 12);
      if offset + 4 > |query| then None
      else Some(Question(Canonical(name), ReadU16(query, offset), ReadU16(query, offset + 2), offset + 4))
  }

  predicate MatchesQuestion(q: Question, zone: Zone, record: Record) {
    && TypeCode(record.rtype) != 0
    && (q.qtype == TYPE_ANY || q.qtype == TypeCode(record.rtype))
    && (q.qclass == CLASS_IN || q.qclass == TYPE_ANY)
    && q.name == RecordFqdn(zone, record)
  }

  function MatchingIn(q: Question, zone: Zone, records: seq<Record>): (r: seq<Record>)
    ensures forall rec :: rec in r <==> rec in records && MatchesQuestion(q, zone, rec)
  {
    if |records| == 0 then []
    else (if MatchesQuestion(q, zone, records[0]) then [records[0]] else []) + MatchingIn(q, zone, records[1..])
  }

  /** matching_records: zone by zone, in record order. */
  function MatchingRecords(q: Question, zones: seq<Zone>): (r: seq<Record>)
  {
    if |zones| == 0 then [] else MatchingIn(q, zones[0], zones[0].records) + MatchingRecords(q, zones[1..])
  }

  lemma MatchingInStep(q: Question, zone: Zone, records: seq<Record>)
    ensures MatchingIn(q, zone, records)
         == if |records| == 0 then []
            else (if MatchesQuestion(q, zone, records[0]) then [records[0]] else []) + MatchingIn(q, zone, records[1..])
  {
    hide MatchesQuestion;
  }

  lemma {:induction false} MatchingInConcat(q: Question, zone: Zone, a: seq<Record>, b: seq<Record>)
    ensures MatchingIn(q, zone, a + b) == MatchingIn(q, zone, a) + MatchingIn(q, zone, b)
  {
    hide MatchesQuestion, MatchingIn;
    MatchingInStep(q, zone, a);
    if |a| == 0 {
      assert a + b == b;
      assert MatchingIn(q, zone, a) + MatchingIn(q, zone, b) == MatchingIn(q, zone, b);
    } else {
      MatchingInConcat(q, zone, a[1..], b);
      MatchingInStep(q, zone, a + b);
      assert (a + b)[1..] == a[1..] + b;
      var first := if MatchesQuestion(q, zone, a[0]) then [a[0]] else [];
      ConcatAssociates(first, MatchingIn(q, zone, a[1..]), MatchingIn(q, zone, b));
    }
  }

  lemma {:induction false} MatchingRecordsOwner(q: Question, zones: seq<Zone>, record: Record)
    requires record in MatchingRecords(q, zones)
    ensures exists i :: 0 <= i < |zones| && record in zones[i].records && MatchesQuestion(q, zones[i], record)
  {
    if record in MatchingIn(q, zones[0], zones[0].records) {
      assert MatchesQuestion(q, zones[0], record);
    } else {
      MatchingRecordsOwner(q, zones[1..], record);
      var i :| 0 <= i < |zones[1..]| && record in zones[1..][i].records && MatchesQuestion(q, zones[1..][i], record);
      assert zones[i + 1] == zones[1..][i];
    }
  }
}
