/** The whole path of a client's registration: an UPDATE message on the wire, the zones, and the answer on the wire. */
module DnsRegistration {
  import opened Octets
  import opened Texts
  import opened DnsNames
  import opened DnsZones
  import opened DnsResponses
  import opened DnsUpdates
  import opened DnsStore
  import opened DnsReplicas
  import opened DnsMessages

  /** An UPDATE message with one address to add. */
  function UpdateMessage(id: u16, zone: Text, owner: Text, ttl: u32, address: Bytes): (s: Bytes)
    requires |address| == 4
  {
    RecordMessage(id, zone, owner, TYPE_A, CLASS_IN, ttl, address)
  }

  /** A standard query for the addresses of a name. */
  function AddressQuery(id: u16, owner: Text): (s: Bytes)
  {
    U16BE(id) + U16BE(0x0100) + U16BE(1) + U16BE(0) + U16BE(0) + U16BE(0)
    + WireName(owner) + U16BE(TYPE_A) + U16BE(CLASS_IN)
  }

  /** The record the update adds. */
  function Registered(owner: Text, ttl: u32, address: Bytes, zone: UpdateZone): Record
    requires |address| == 4
  {
    BlankRecord(owner, TYPE_A, ttl, zone).(value := Ipv4Text(address[0], address[1], address[2], address[3]))
  }

  /** The message parses to exactly one add of the owner's address. */
  lemma {:induction false} MessageParses(id: u16, zone: Text, owner: Text, ttl: u32, address: Bytes, zones: seq<Zone>)
    requires |address| == 4 && ProperName(zone) && ProperName(owner)
    requires AuthorizedZone(MessageQuestion(zone), zones).authorized
    ensures var z := AuthorizedZone(MessageQuestion(zone), zones);
            ParseUpdate(UpdateMessage(id, zone, owner, ttl, address), zones)
            == Update(true, true, true, StorageName(z),
                      [Entry(z.storageName, Registered(TrimDots(owner), ttl, address, z), false, false)])
  {
    hide ParseUpdate, AuthorizedZone, ProperName, Canonical, WireName, MessageEntry, RecordMessage, TrimDots,
      Registered;
    var z := AuthorizedZone(MessageQuestion(zone), zones);
    RecordMessageParses(id, zone, owner, TYPE_A, CLASS_IN, ttl, address, zones);
    AddressEntry(TrimDots(owner), ttl, address, z);
  }

  lemma AddressEntry(owner: Text, ttl: u32, address: Bytes, zone: UpdateZone)
    requires |address| == 4
    ensures MessageEntry(owner, TYPE_A, CLASS_IN, ttl, address, zone)
         == Some(Entry(zone.storageName, Registered(owner, ttl, address, zone), false, false))
  {
    hide RelativeUpdateName, Ipv4Text;
  }

  lemma QueryParses(id: u16, owner: Text)
    requires ProperName(owner)
    ensures |AddressQuery(id, owner)| >= 12 && Opcode(ReadU16(AddressQuery(id, owner), 2)) != OPCODE_UPDATE
    ensures ParseQuestion(AddressQuery(id, owner))
         == Some(Question(Canonical(owner), TYPE_A, CLASS_IN, 16 + |WireName(owner)|))
  {
    hide WireName, ProperName, Canonical, ParseQuestion;
    var head := U16BE(id) + U16BE(0x0100) + U16BE(1) + U16BE(0) + U16BE(0) + U16BE(0);
    QuestionReads(head, owner, TYPE_A, CLASS_IN, []);
    assert AddressQuery(id, owner) == head + WireName(owner) + (U16BE(TYPE_A) + U16BE(CLASS_IN) + []);
  }

  lemma {:induction false} MatchInZones(q: Question, zones: seq<Zone>, i: nat, x: Record)
    requires i < |zones| && x in MatchingIn(q, zones[i], zones[i].records)
    ensures x in MatchingRecords(q, zones)
  {
    hide MatchingIn;
    if i > 0 {
      assert zones[1..][i - 1] == zones[i];
      MatchInZones(q, zones[1..], i - 1, x);
    }
  }

  /** The registered record matches the address question and carries the registered bytes. */
  lemma {:induction false} RegisteredMatches(
      zone: Zone, updateZone: UpdateZone, owner: Text, ttl: u32, address: Bytes, endOffset: nat)
    requires |address| == 4 && updateZone.storageName == Canonical(zone.name) != []
    requires Canonical(owner) == Canonical(zone.name)
          || (EndsWith(Canonical(owner), [DOT] + Canonical(zone.name))
              && PlainRelative(RelativeUpdateName(TrimDots(owner), updateZone), Canonical(zone.name)))
    ensures MatchesQuestion(Question(Canonical(owner), TYPE_A, CLASS_IN, endOffset), zone,
                            Registered(TrimDots(owner), ttl, address, updateZone))
    ensures RecordData(Registered(TrimDots(owner), ttl, address, updateZone)) == address
  {
    hide RecordFqdn, RelativeUpdateName, PlainRelative, Ipv4Bytes, Ipv4Text, TrimDots, Lower;
    var r := Registered(TrimDots(owner), ttl, address, updateZone);
    TrimDotsIdempotent(owner);
    FqdnOfRelativeName(TrimDots(owner), zone, updateZone, r);
    TypeCodeOfName(TYPE_A);
    Ipv4RoundTrip(address[0], address[1], address[2], address[3]);
    assert [address[0], address[1], address[2], address[3]] == address;
  }

  /** The zone the client means is served here, and its name is not that of a served zone's _msdcs subtree. */
  predicate Registrable(zoneName: Text, owner: Text, zones: seq<Zone>) {
    && ProperName(zoneName) && ProperName(owner)
    && FindZone(zones, zoneName) < |zones|
    && (forall z :: z in zones ==> Canonical(zoneName) != MSDCS + Canonical(z.name))
    && (Canonical(owner) == Canonical(zoneName)
        || (EndsWith(Canonical(owner), [DOT] + Canonical(zoneName))
            && PlainRelative(Canonical(owner)[..|Canonical(owner)| - |Canonical(zoneName)| - 1], Canonical(zoneName))))
  }

  function AddressQuestion(owner: Text): Question {
    Question(Canonical(owner), TYPE_A, CLASS_IN, 16 + |WireName(owner)|)
  }

  /** After the update the record is among the matches for its owner. */
  lemma RegistrationTakesEffect(id: u16, zoneName: Text, owner: Text, ttl: u32, address: Bytes, zones: seq<Zone>)
    requires |address| == 4 && Registrable(zoneName, owner, zones)
    ensures var u := ParseUpdate(UpdateMessage(id, zoneName, owner, ttl, address), zones);
            exists x :: x in MatchingRecords(AddressQuestion(owner), UpdatedZones(zones, u))
                     && RecordData(x) == address && x.rtype == NAME_A && x.ttl == (if ttl == 0 then 300 else ttl)
  {
    hide WireName, ProperName, ParseUpdate, UpdateMessage, PlainRelative, MatchingRecords, MatchingIn, Lower, TrimDots,
      RecordData, ApplyEntries, Changes, AuthorizedZone, RelativeUpdateName, Ipv4Text, MatchesQuestion;
    var q := AddressQuestion(owner);
    var z := UpdateZone(true, Canonical(zoneName), Canonical(zoneName));
    var i := FindZone(zones, zoneName);
    ZoneIsNamed(MessageQuestion(zoneName), zoneName, zones);
    MessageParses(id, zoneName, owner, ttl, address, zones);
    var record := Registered(TrimDots(owner), ttl, address, z);
    var e := Entry(z.storageName, record, false, false);
    SameZoneFound(zones, zoneName);
    ProperIsNotEmpty(zoneName);
    var zones' := UpdatedZones(zones, ParseUpdate(UpdateMessage(id, zoneName, owner, ttl, address), zones));
    assert zones' == zones[i := UpdatedZone(zones[i], [e])];
    CanonicalFixed(zoneName);
    if Canonical(owner) != Canonical(zoneName) {
      RelativeIsPrefix(owner, z);
    }
    RegisteredMatches(zones[i], z, owner, ttl, address, q.endOffset);
    RegisteredIsListed(zones[i], e, q);
    MatchingInSameName(q, zones[i], zones'[i], ApplyEntries(MEMORY, zones[i].records, [e]));
    MatchInZones(q, zones', i, record);
  }

  /** A client that registers an address is served that address: after its UPDATE message has been applied, the
      response to an address query for the owner, read back from the wire, contains the four bytes it sent with
      the TTL it asked for (300 where it asked for 0). */
  lemma {:induction false} RegisteredAddressIsServed(
    id: u16, id': u16, zoneName: Text, owner: Text, ttl: u32, address: Bytes, zones: seq<Zone>, zones': seq<Zone>)
    requires |address| == 4 && Registrable(zoneName, owner, zones)
    requires zones' == UpdatedZones(zones, ParseUpdate(UpdateMessage(id, zoneName, owner, ttl, address), zones))
    requires |MatchingRecords(AddressQuestion(owner), zones')| < 0x1_0000
    requires forall z :: z in zones' ==> Servable(AddressQuestion(owner), z)
    ensures var r := Response(AddressQuery(id', owner), zones');
            && |r| >= 12
            && var answers := ReadAnswers(r, 16 + |WireName(owner)|, ReadU16(r, 6));
            && answers.Some?
            && exists a :: a in answers.value.1
                        && a.rtype == TYPE_A && a.rdata == address && a.ttl == (if ttl == 0 then 300 else ttl)
  {
    hide *;
    RegistrationTakesEffect(id, zoneName, owner, ttl, address, zones);
    ProperOwner(zoneName, owner, zones);
    QueryParses(id', owner);
    TheQuestion(owner);
    ResponseWellFormed(AddressQuery(id', owner), zones');
    var q := AddressQuestion(owner);
    var records := MatchingRecords(q, zones');
    var x :| x in records && RecordData(x) == address && x.rtype == NAME_A && x.ttl == (if ttl == 0 then 300 else ttl);
    var k :| 0 <= k < |records| && records[k] == x;
    SeenFields(q.name, x);
    assert SeenAll(q.name, records)[k] in SeenAll(q.name, records);
  }

  lemma ProperOwner(zoneName: Text, owner: Text, zones: seq<Zone>)
    requires Registrable(zoneName, owner, zones)
    ensures ProperName(owner)
  {
  }

  lemma TheQuestion(owner: Text)
    ensures AddressQuestion(owner) == Question(Canonical(owner), TYPE_A, CLASS_IN, 16 + |WireName(owner)|)
  {
  }

  lemma SeenFields(name: Text, x: Record)
    requires x.rtype == NAME_A
    ensures Seen(name, x).rtype == TYPE_A && Seen(name, x).rdata == RecordData(x) && Seen(name, x).ttl == x.ttl
  {
    TypeCodeOfName(TYPE_A);
  }

  lemma RegisteredIsListed(zone: Zone, e: Entry, q: Question)
    requires Adds(e) && q.qtype != TYPE_ANY && MatchesQuestion(q, zone, e.record)
    ensures e.record in MatchingIn(q, zone, ApplyEntries(MEMORY, zone.records, [e]))
  {
    hide MatchesQuestion, MatchingIn, ApplyEntries, Deletes;
    UpdateVisible(zone, [e], 0, q);
  }

  lemma {:induction false} MatchingInSameName(q: Question, a: Zone, b: Zone, records: seq<Record>)
    requires a.name == b.name
    ensures MatchingIn(q, a, records) == MatchingIn(q, b, records)
  {
    if |records| > 0 {
      MatchingInSameName(q, a, b, records[1..]);
    }
  }

  lemma {:induction false} ZoneIsNamed(q: Question, zoneName: Text, zones: seq<Zone>)
    requires q.name == Canonical(zoneName) && FindZone(zones, zoneName) < |zones|
    requires forall z :: z in zones ==> Canonical(zoneName) != MSDCS + Canonical(z.name)
    ensures AuthorizedZone(q, zones) == UpdateZone(true, Canonical(zoneName), Canonical(zoneName))
  {
    CanonicalFixed(zoneName);
    if Canonical(zones[0].name) != Canonical(zoneName) {
      ZoneIsNamed(q, zoneName, zones[1..]);
    }
  }

  lemma {:induction false} SameZoneFound(zones: seq<Zone>, zoneName: Text)
    ensures FindZone(zones, Canonical(zoneName)) == FindZone(zones, zoneName)
  {
    CanonicalFixed(zoneName);
    if |zones| > 0 {
      SameZoneFound(zones[1..], zoneName);
    }
  }

  lemma ProperIsNotEmpty(name: Text)
    requires ProperName(name)
    ensures Canonical(name) != []
  {
  }

  lemma RelativeIsPrefix(owner: Text, z: UpdateZone)
    requires z.storageName == Canonical(z.storageName)
    requires EndsWith(Canonical(owner), [DOT] + z.storageName) && z.storageName != []
    ensures RelativeUpdateName(TrimDots(owner), z) == Canonical(owner)[..|Canonical(owner)| - |z.storageName| - 1]
  {
    TrimDotsIdempotent(owner);
  }
}
