/** Parsing DNS UPDATE messages (RFC 2136) into update entries. */
module DnsUpdates {
  import opened Octets
  import opened Texts
  import opened DnsNames
  import opened DnsZones
  import opened DnsResponses

  datatype UpdateZone = UpdateZone(authorized: bool, updateName: Text, storageName: Text)

  datatype Entry = Entry(zoneName: Text, record: Record, deletion: bool, deleteRrset: bool)

  datatype Update = Update(isUpdate: bool, valid: bool, authorized: bool, zoneName: Text, entries: seq<Entry>)

  /** authorized_update_zone: the first zone that is the named one, or the parent of a named _msdcs zone. */
  function AuthorizedZone(q: Question, zones: seq<Zone>): (z: UpdateZone)
    ensures z.authorized <==> ZoneExistsForUpdate(q, zones)
    ensures z.updateName == Canonical(q.name)
    ensures z.authorized ==> z.updateName == z.storageName || z.updateName == MSDCS + z.storageName
    ensures z.authorized ==> exists i :: 0 <= i < |zones| && z.storageName == Canonical(zones[i].name)
  {
    if |zones| == 0 then UpdateZone(false, Canonical(q.name), [])
    else if IsUpdateZone(q.name, zones[0]) then UpdateZone(true, Canonical(q.name), Canonical(zones[0].name))
    else
      var z := AuthorizedZone(q, zones[1..]);
      assert forall i :: 0 <= i < |zones[1..]| ==> zones[1..][i] == zones[i + 1];
      assert ZoneExistsForUpdate(q, zones[1..]) <==> ZoneExistsForUpdate(q, zones);
      z
  }

  /** relative_update_name */
  function RelativeUpdateName(fqdn: Text, zone: UpdateZone): (name: Text)
  {
    var name, storage, update := Canonical(fqdn), Canonical(zone.storageName), Canonical(zone.updateName);
    if name == storage then AT_SIGN
    else if storage != [] && |name| > |storage| && EndsWith(name, [DOT] + storage) then
      name[..|name| - |storage| - 1]
    else if update != [] && name == update then
      if |update| > |storage| then update[..|update| - |storage| - 1] else update
    else name
  }

  /** A name below the zone that record_fqdn does not mistake for something else. */
  predicate PlainRelative(p: Text, zoneName: Text) {
    && p != [] && p != AT_SIGN && p[|p| - 1] != DOT
    && p != zoneName && !EndsWith(p, [DOT] + zoneName)
  }

  lemma CanonicalFixed(name: Text)
    ensures Canonical(Canonical(name)) == Canonical(name)
    ensures |Canonical(name)| > 0 ==> Canonical(name)[|Canonical(name)| - 1] != DOT
  {
    TrimDotsLower(name);
    TrimDotsLower(TrimDots(name));
    LowerIdempotent(TrimDots(name));
  }

  /** record_fqdn undoes relative_update_name for the apex and, below it, exactly for plain relative names. */
  lemma {:induction false} FqdnOfRelativeName(owner: Text, zone: Zone, updateZone: UpdateZone, record: Record)
    requires updateZone.storageName == Canonical(zone.name) != []
    requires record.name == RelativeUpdateName(owner, updateZone)
    requires Canonical(owner) == Canonical(zone.name) || EndsWith(Canonical(owner), [DOT] + Canonical(zone.name))
    ensures RecordFqdn(zone, record) == Canonical(owner)
       <==> Canonical(owner) == Canonical(zone.name) || PlainRelative(record.name, Canonical(zone.name))
  {
    hide TrimDots, Lower;
    CanonicalFixed(zone.name);
    CanonicalFixed(owner);
    var name, storage := Canonical(owner), Canonical(zone.name);
    if name != storage {
      var p := name[..|name| - |storage| - 1];
      assert name == p + ([DOT] + storage);
      FqdnBelowZone(owner, p, zone, record);
    }
  }

  lemma {:induction false} FqdnBelowZone(owner: Text, p: Text, zone: Zone, record: Record)
    requires record.name == p <= Canonical(owner)
    ensures RecordFqdn(zone, record) == p + ([DOT] + Canonical(zone.name)) <==> PlainRelative(p, Canonical(zone.name))
  {
    hide Lower;
    var storage := Canonical(zone.name);
    LowerOfPrefix(owner, p);
    if p != [] && p[|p| - 1] != DOT {
      assert p + ([DOT] + storage) == p + [DOT] + storage;
    } else if p != [] {
      assert |Canonical(p)| < |p|;
      assert |RecordFqdn(zone, record)| < |p + ([DOT] + storage)|;
    }
  }

  lemma LowerOfPrefix(owner: Text, p: Text)
    requires p <= Canonical(owner)
    ensures Lower(p) == p
    ensures p != [] && p[|p| - 1] != DOT ==> Canonical(p) == p
  {
    var trimmed := TrimDots(owner);
    forall i | 0 <= i < |p| ensures LowerByte(p[i]) == p[i] {
      assert p[i] == Lower(trimmed)[i];
    }
  }

  // ---------- Record data of an update ----------

  /** The character strings of a TXT record, joined by line feeds. */
  function TxtText(data: Bytes, text: Text): (r: Option<Text>)
    decreases |data|
  {
    if |data| == 0 then Some(text)
    else
      var size := data[0];
      if 1 + size > |data| then None
      else TxtText(data[1 + size..], (if text == [] then text else text + [10]) + data[1..1 + size])
  }

  /** parse_update_rdata: whether it succeeds, and the record as far as it has been filled in by then. */
  function ParseRdata(query: Bytes, offset: nat, rdlength: nat, code: u16, record: Record): (r: (bool, Record))
  {
    if offset + rdlength > |query| then (false, record)
    else if code == TYPE_A then
      if rdlength != 4 then (false, record)
      else (true, record.(value := Ipv4Text(query[offset], query[offset + 1], query[offset + 2], query[offset + 3])))
    else if code == TYPE_SRV then
      if rdlength < 7 then (false, record)
      else
        var filled := record.(priority := ReadU16(query, offset), weight := ReadU16(query, offset + 2),
                              port := ReadU16(query, offset + 4));
        ParseTarget(query, offset + 6, offset + rdlength, filled)
    else if code == TYPE_NS || code == TYPE_CNAME then ParseTarget(query, offset, offset + rdlength, record)
    else if code == TYPE_TXT then
      match TxtText(query[offset..offset + rdlength], [])
      case Some(text) => (true, record.(value := text))
      case None => (false, record)
    else (false, record)
  }

  function ParseTarget(query: Bytes, offset: nat, limit: nat, record: Record): (r: (bool, Record))
  {
    match ReadName(query, offset)
    case Some((end, target)) =>
      if end > limit then (false, record) else (true, record.(value := TrimDots(target) + [DOT]))
    case None => (false, record)
  }

  function BlankRecord(owner: Text, code: u16, ttl: u32, zone: UpdateZone): Record {
    Record(RelativeUpdateName(owner, zone), TypeName(code), [], NAME_IN, if ttl == 0 then 300 else ttl, 0, 0, 0, [])
  }

  /** What one update record turns into; None if it is skipped. */
  function EntryFor(
      query: Bytes, offset: nat, rdlength: nat, owner: Text, code: u16, rclass: u16, ttl: u32, zone: UpdateZone)
    : (e: Option<Entry>)
  {
    var blank := BlankRecord(owner, code, ttl, zone);
    var deletion := rclass == CLASS_ANY || rclass == CLASS_NONE;
    var deleteRrset := rclass == CLASS_ANY || code == TYPE_ANY;
    var (ok, filled) := ParseRdata(query, offset, rdlength, code, blank);
    if blank.rtype == [] || (!deletion && rclass != CLASS_IN) || (!deletion && !ok) then None
    else Some(Entry(zone.storageName, if deletion && rdlength == 0 then blank else filled, deletion, deleteRrset))
  }

  /** The update section; None where the message is malformed and everything in it is dropped. */
  function ParseEntries(query: Bytes, offset: nat, count: nat, zone: UpdateZone): (r: Option<seq<Entry>>)
    decreases count
  {
    if count == 0 then Some([])
    else
      var (o, owner) :- ReadName(query, offset);
      if o + 10 > |query| || o + 10 + ReadU16(query, o + 8) > |query| then None
      else
        var rdlength := ReadU16(query, o + 8);
        var rest :- ParseEntries(query, o + 10 + rdlength, count - 1, zone);
        match EntryFor(query, o + 10, rdlength, owner, ReadU16(query, o), ReadU16(query, o + 2), ReadU32(query, o + 4),
                       zone)
        case Some(e) => Some([e] + rest)
        case None => Some(rest)
  }

  /** parse_update_records */
  method ParseUpdateRecords(query: Bytes, start: nat, count: u16, zone: UpdateZone) returns (entries: seq<Entry>)
    ensures entries == ParseEntries(query, start, count, zone).GetOr([])
  {
    hide *;
    entries := [];
    var offset: nat := start;
    ghost var whole := ParseEntries(query, start, count, zone);
    GetOrEmpty(whole);
    BehindCases(entries, whole);
    for index := 0 to count
      invariant whole == Behind(entries, ParseEntries(query, offset, count - index, zone))
    {
      ParseOne(query, offset, count - index, zone);
      BehindCases(entries, ParseEntries(query, offset, count - index, zone));
      var found, o, owner := ReadDnsName(query, offset, 0);
      ReadNameIsReadLabels(query, offset);
      if !found || o + 10 > |query| {
        return [];
      }
      var code, rclass := ReadU16(query, o), ReadU16(query, o + 2);
      var ttl, rdlength := ReadU32(query, o + 4), ReadU16(query, o + 8);
      offset := o + 10;
      if offset + rdlength > |query| {
        return [];
      }
      var entry := EntryFor(query, offset, rdlength, owner, code, rclass, ttl, zone);
      offset := offset + rdlength;
      BehindCases(entries, ParseEntries(query, offset, count - index - 1, zone));
      if entry.Some? {
        BehindMore(entries, entry.value, ParseEntries(query, offset, count - index - 1, zone));
        entries := entries + [entry.value];
      }
    }
    ParseNone(query, offset, zone);
    BehindCases(entries, ParseEntries(query, offset, 0, zone));
    assert entries + [] == entries;
  }

  function Behind<T>(done: seq<T>, rest: Option<seq<T>>): Option<seq<T>> {
    match rest
    case Some(r) => Some(done + r)
    case None => None
  }

  lemma BehindCases<T>(done: seq<T>, rest: Option<seq<T>>)
    ensures rest.None? ==> Behind(done, rest) == None
    ensures rest.Some? ==> Behind(done, rest) == Some(done + rest.value)
    ensures done == [] ==> Behind(done, rest) == rest
  {
    if rest.Some? && done == [] {
      assert done + rest.value == rest.value;
    }
  }

  lemma BehindMore<T>(done: seq<T>, next: T, rest: Option<seq<T>>)
    ensures rest.Some? ==> Behind(done, Some([next] + rest.value)) == Behind(done + [next], rest)
    ensures rest.None? ==> Behind(done + [next], rest) == None
  {
    if rest.Some? {
      assert done + ([next] + rest.value) == done + [next] + rest.value;
    }
  }

  lemma GetOrEmpty<T>(o: Option<seq<T>>)
    ensures o.GetOr([]) == match o case Some(s) => s case None => []
  {
  }

  lemma ParseNone(query: Bytes, offset: nat, zone: UpdateZone)
    ensures ParseEntries(query, offset, 0, zone) == Some([])
  {
  }

  lemma {:induction false} ParseOne(query: Bytes, offset: nat, count: nat, zone: UpdateZone)
    requires count > 0
    ensures ParseEntries(query, offset, count, zone)
         == match ReadName(query, offset)
            case None => None
            case Some((o, owner)) =>
              if o + 10 > |query| || o + 10 + ReadU16(query, o + 8) > |query| then None
              else
                var rdlength := ReadU16(query, o + 8);
                match ParseEntries(query, o + 10 + rdlength, count - 1, zone)
                case None => None
                case Some(rest) =>
                  (match EntryFor(query, o + 10, rdlength, owner, ReadU16(query, o), ReadU16(query, o + 2),
                                  ReadU32(query, o + 4), zone)
                   case Some(e) => Some([e] + rest)
                   case None => Some(rest))
  {
    hide ReadName, ReadU16, ReadU32, EntryFor;
  }

  /** parse_dns_dynamic_update */
  function ParseUpdate(query: Bytes, zones: seq<Zone>): (u: Update)
    ensures u.entries != [] ==> u.isUpdate && u.valid && u.authorized
  {
    if |query| < 12 || Opcode(ReadU16(query, 2)) != OPCODE_UPDATE then Update(false, false, false, [], [])
    else
      var q := ParseQuestion(query);
      if q.None? || !IsUpdateQuestion(q.value) then Update(true, false, false, [], [])
      else
        var zone := AuthorizedZone(q.value, zones);
        var name := if zone.storageName == [] then zone.updateName else zone.storageName;
        if !zone.authorized then Update(true, true, false, name, [])
        else
          match SkipRecords(query, q.value.endOffset, ReadU16(query, 6))
          case None => Update(true, false, true, name, [])
          case Some(offset) =>
            Update(true, true, true, name, ParseEntries(query, offset, ReadU16(query, 8), zone).GetOr([]))
  }

  method ParseDnsDynamicUpdate(query: Bytes, zones: seq<Zone>) returns (u: Update)
    ensures u == ParseUpdate(query, zones)
  {
    hide ReadName, ParseEntries, SkipRecords, ParseQuestion, AuthorizedZone, IsUpdateQuestion;
    u := Update(false, false, false, [], []);
    if |query| < 12 {
      return;
    }
    u := u.(isUpdate := Opcode(ReadU16(query, 2)) == OPCODE_UPDATE);
    if !u.isUpdate {
      return;
    }
    var q := ParseQuestion(query);
    if q.None? || !IsUpdateQuestion(q.value) {
      return;
    }
    var zone := AuthorizedZone(q.value, zones);
    u := Update(true, true, zone.authorized, if zone.storageName == [] then zone.updateName else zone.storageName, []);
    if !u.authorized {
      return;
    }
    var ok, offset := SkipDnsRecords(query, q.value.endOffset, ReadU16(query, 6));
    if !ok {
      return u.(valid := false);
    }
    var entries := ParseUpdateRecords(query, offset, ReadU16(query, 8), zone);
    u := u.(entries := entries);
  }
}
