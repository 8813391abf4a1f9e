/** UPDATE messages with one record (sections 2.3 to 2.5 of RFC 2136), as the server parses them. */
module DnsMessages {
  import opened Octets
  import opened Texts
  import opened DnsNames
  import opened DnsZones
  import opened DnsResponses
  import opened DnsUpdates

  /** A name all of whose labels have 1 to 63 bytes. */
  predicate ProperName(name: Text) {
    !IsRootName(name) && AllShort(Split(TrimDots(name), DOT))
  }

  lemma ProperNameReads(name: Text, before: Bytes, after: Bytes)
    requires ProperName(name)
    ensures ReadName(before + WireName(name) + after, |before|) == Some((|before| + |WireName(name)|, TrimDots(name)))
  {
    hide ReadName, WireName, Split, TrimDots;
    var labels := Split(TrimDots(name), DOT);
    assert NoneEmpty(labels) by {
      assert forall i :: 0 <= i < |labels| ==> 1 <= |labels[i]|;
    }
    WrittenNameReads(name, before, after);
    JoinsToWhole(TrimDots(name));
  }

  lemma QuestionReads(head: Bytes, name: Text, code: u16, qclass: u16, after: Bytes)
    requires |head| == 12 && ReadU16(head, 4) != 0 && ProperName(name)
    ensures ParseQuestion(head + WireName(name) + (U16BE(code) + U16BE(qclass) + after))
         == Some(Question(Canonical(name), code, qclass, 12 + |WireName(name)| + 4))
  {
    hide ReadName, WireName, ProperName, TrimDots, Lower;
    var s := head + WireName(name) + (U16BE(code) + U16BE(qclass) + after);
    ProperNameReads(name, head, U16BE(code) + U16BE(qclass) + after);
    TrimDotsIdempotent(name);
    var o := 12 + |WireName(name)|;
    assert s == head + WireName(name) + U16BE(code) + (U16BE(qclass) + after);
    assert s == head + WireName(name) + U16BE(code) + U16BE(qclass) + after;
    FieldAt(head + WireName(name), U16BE(code), U16BE(qclass) + after, s);
    FieldAt(head + WireName(name) + U16BE(code), U16BE(qclass), after, s);
    FieldValue16(code);
    FieldValue16(qclass);
    assert ReadU16(s, 4) == ReadU16(head, 4);
  }

  function RecordFields(code: u16, rclass: u16, ttl: u32, rdata: Bytes): (s: Bytes)
    requires |rdata| < 0x1_0000
    ensures |s| == 10 + |rdata|
  {
    U16BE(code) + U16BE(rclass) + U32BE(ttl) + U16BE(|rdata|) + rdata
  }

  function RecordMessage(id: u16, zone: Text, owner: Text, code: u16, rclass: u16, ttl: u32, rdata: Bytes): (s: Bytes)
    requires |rdata| < 0x1_0000
  {
    U16BE(id) + U16BE(0x2800) + U16BE(1) + U16BE(0) + U16BE(1) + U16BE(0)
    + WireName(zone) + U16BE(TYPE_SOA) + U16BE(CLASS_IN)
    + WireName(owner) + RecordFields(code, rclass, ttl, rdata)
  }

  /** The zone section of such a message. */
  function MessageQuestion(zone: Text): Question {
    Question(Canonical(zone), TYPE_SOA, CLASS_IN, 16 + |WireName(zone)|)
  }

  function StorageName(z: UpdateZone): (name: Text) {
    if z.storageName == [] then z.updateName else z.storageName
  }

  /** The entry of the record, from its data alone; names inside the data would need the message for their pointers. */
  function MessageEntry(
      owner: Text, code: u16, rclass: u16, ttl: u32, rdata: Bytes, zone: UpdateZone): (e: Option<Entry>) {
    EntryFor(rdata, 0, |rdata|, owner, code, rclass, ttl, zone)
  }

  /** Record types whose data holds no name. */
  predicate NamelessData(code: u16) {
    code != TYPE_SRV && code != TYPE_NS && code != TYPE_CNAME
  }

  lemma {:induction false} RecordFieldsRead(before: Bytes, code: u16, rclass: u16, ttl: u32, rdata: Bytes)
    requires |rdata| < 0x1_0000
    ensures var s, o := before + RecordFields(code, rclass, ttl, rdata), |before|;
            && o + 10 + |rdata| == |s|
            && ReadU16(s, o) == code && ReadU16(s, o + 2) == rclass && ReadU32(s, o + 4) == ttl
            && ReadU16(s, o + 8) == |rdata| && s[o + 10..o + 10 + |rdata|] == rdata
  {
    hide U16BE, U32BE, ReadU16, ReadU32;
    FieldsOf(before, code, rclass, ttl, rdata, []);
    assert before + RecordFields(code, rclass, ttl, rdata) + [] == before + RecordFields(code, rclass, ttl, rdata);
  }

  /** An update section of one record. */
  lemma OnlyEntry(s: Bytes, offset: nat, o: nat, size: nat, owner: Text, zone: UpdateZone)
    requires ReadName(s, offset) == Some((o, owner))
    requires o + 10 + size <= |s| && ReadU16(s, o + 8) == size
    ensures ParseEntries(s, offset, 1, zone)
         == match EntryFor(s, o + 10, size, owner, ReadU16(s, o), ReadU16(s, o + 2), ReadU32(s, o + 4), zone)
            case Some(e) => Some([e])
            case None => Some([])
  {
    hide *;
    ParseOne(s, offset, 1, zone);
    ParseNone(s, o + 10 + size, zone);
    var e := EntryFor(s, o + 10, size, owner, ReadU16(s, o), ReadU16(s, o + 2), ReadU32(s, o + 4), zone);
    assert e.Some? ==> [e.value] + [] == [e.value];
  }

  /** For data without names only the data matters, not where it stands. */
  lemma EntryIsLocal(
      s: Bytes, offset: nat, rdata: Bytes, owner: Text, code: u16, rclass: u16, ttl: u32, zone: UpdateZone)
    requires offset + |rdata| <= |s| && s[offset..offset + |rdata|] == rdata && NamelessData(code)
    ensures EntryFor(s, offset, |rdata|, owner, code, rclass, ttl, zone)
         == MessageEntry(owner, code, rclass, ttl, rdata, zone)
  {
    hide RelativeUpdateName, Ipv4Text, TxtText, TypeName;
    assert forall i :: 0 <= i < |rdata| ==> s[offset + i] == rdata[i];
    assert rdata[0..0 + |rdata|] == rdata;
  }

  lemma {:induction false} RecordEntry(
      before: Bytes, owner: Text, code: u16, rclass: u16, ttl: u32, rdata: Bytes, zone: UpdateZone)
    requires |rdata| < 0x1_0000 && ProperName(owner) && NamelessData(code)
    ensures ParseEntries(before + WireName(owner) + RecordFields(code, rclass, ttl, rdata), |before|, 1, zone)
         == match MessageEntry(TrimDots(owner), code, rclass, ttl, rdata, zone)
            case Some(e) => Some([e])
            case None => Some([])
  {
    hide *;
    var s := before + WireName(owner) + RecordFields(code, rclass, ttl, rdata);
    var o := |before + WireName(owner)|;
    RecordFieldsRead(before + WireName(owner), code, rclass, ttl, rdata);
    ProperNameReads(owner, before, RecordFields(code, rclass, ttl, rdata));
    OnlyEntry(s, |before|, o, |rdata|, TrimDots(owner), zone);
    EntryIsLocal(s, o + 10, rdata, TrimDots(owner), code, rclass, ttl, zone);
  }

  /** Such a message, for an authorised zone, parses to the entry of its record, or to none if the record is skipped. */
  lemma {:induction false} RecordMessageParses(
    id: u16, zone: Text, owner: Text, code: u16, rclass: u16, ttl: u32, rdata: Bytes, zones: seq<Zone>)
    requires |rdata| < 0x1_0000 && ProperName(zone) && ProperName(owner) && NamelessData(code)
    requires AuthorizedZone(MessageQuestion(zone), zones).authorized
    ensures var z := AuthorizedZone(MessageQuestion(zone), zones);
            ParseUpdate(RecordMessage(id, zone, owner, code, rclass, ttl, rdata), zones)
            == Update(true, true, true, StorageName(z),
                      match MessageEntry(TrimDots(owner), code, rclass, ttl, rdata, z) case Some(e) => [e]
                      case None => [])
  {
    hide WireName, ProperName, AuthorizedZone, Canonical, ParseQuestion, ParseEntries, RecordFields, TrimDots,
      MessageEntry;
    var m := RecordMessage(id, zone, owner, code, rclass, ttl, rdata);
    var head := U16BE(id) + U16BE(0x2800) + U16BE(1) + U16BE(0) + U16BE(1) + U16BE(0);
    var fields := RecordFields(code, rclass, ttl, rdata);
    var before := head + WireName(zone) + U16BE(TYPE_SOA) + U16BE(CLASS_IN);
    MessageHead(id);
    assert m == before + WireName(owner) + fields;
    assert m == head + WireName(zone) + (U16BE(TYPE_SOA) + U16BE(CLASS_IN) + (WireName(owner) + fields));
    QuestionReads(head, zone, TYPE_SOA, CLASS_IN, WireName(owner) + fields);
    assert ReadU16(m, 2) == ReadU16(head, 2) && ReadU16(m, 6) == ReadU16(head, 6) && ReadU16(m, 8) == ReadU16(head, 8);
    RecordEntry(before, owner, code, rclass, ttl, rdata, AuthorizedZone(MessageQuestion(zone), zones));
    SkipNone(m, |before|);
  }

  lemma MessageHead(id: u16)
    ensures var head := U16BE(id) + U16BE(0x2800) + U16BE(1) + U16BE(0) + U16BE(1) + U16BE(0);
            |head| == 12 && ReadU16(head, 4) == 1 && Opcode(ReadU16(head, 2)) == OPCODE_UPDATE
            && ReadU16(head, 6) == 0 && ReadU16(head, 8) == 1
  {
  }
}
