/** What can arrive in an UPDATE message, and the messages on which memory and store part. */
module DnsReceived {
  import opened Octets
  import opened Texts
  import opened DnsNames
  import opened DnsZones
  import opened DnsResponses
  import opened DnsUpdates
  import opened DnsStore
  import opened DnsReplicas
  import opened DnsMessages

  // ---------- Received entries ----------

  predicate NamesHost(rtype: Text) {
    rtype == NAME_NS || rtype == NAME_CNAME || rtype == NAME_SRV
  }

  /** No value, or a host name with its final dot. */
  ghost predicate HostValue(value: Text) {
    value == [] || exists host: Text :: value == TrimDots(host) + [DOT]
  }

  /** Class IN, no flags, a known type, a name made from an owner name, and a host name only with its final dot. */
  ghost predicate Received(e: Entry, zone: UpdateZone) {
    && e.zoneName == zone.storageName && e.record.dnsClass == NAME_IN && e.record.flags == []
    && (exists code: u16 :: e.record.rtype == TypeName(code) != [])
    && (exists owner: Text :: e.record.name == RelativeUpdateName(owner, zone))
    && (NamesHost(e.record.rtype) ==> HostValue(e.record.value))
  }

  lemma TypesApart(code: u16)
    ensures NamesHost(TypeName(code)) <==> code == TYPE_NS || code == TYPE_CNAME || code == TYPE_SRV
  {
    assert |NAME_A| == 1 && |NAME_NS| == 2 && |NAME_CNAME| == 5 && |NAME_TXT| == |NAME_SRV| == |NAME_ANY| == 3;
    assert NAME_TXT[0] == 84 && NAME_SRV[0] == 83 && NAME_ANY[0] == 65;
  }

  /** What parse_update_rdata leaves of the record it was given. */
  lemma RdataKeeps(query: Bytes, offset: nat, rdlength: nat, code: u16, record: Record)
    requires record.value == []
    ensures var (ok, r) := ParseRdata(query, offset, rdlength, code, record);
            && r.name == record.name && r.rtype == record.rtype && r.dnsClass == record.dnsClass
            && r.flags == record.flags
            && (!ok ==> r.value == [])
            && (ok && code != TYPE_TXT ==> r.value != [])
            && (code == TYPE_NS || code == TYPE_CNAME || code == TYPE_SRV ==> HostValue(r.value))
  {
    hide ParseTarget, TxtText, HostValue, ReadU16, Ipv4Text;
    NothingIsHost();
    if code == TYPE_SRV && 7 <= rdlength <= |query| - offset {
      var filled := record.(priority := ReadU16(query, offset), weight := ReadU16(query, offset + 2),
                            port := ReadU16(query, offset + 4));
      TargetKeeps(query, offset + 6, offset + rdlength, filled);
    } else {
      TargetKeeps(query, offset, offset + rdlength, record);
    }
  }

  lemma NothingIsHost()
    ensures HostValue([])
  {
  }

  lemma TargetKeeps(query: Bytes, offset: nat, limit: nat, record: Record)
    requires record.value == []
    ensures var (ok, r) := ParseTarget(query, offset, limit, record);
            && r == record.(value := r.value) && HostValue(r.value)
            && (ok <==> r.value != [])
  {
    hide ReadName, TrimDots;
  }

  lemma {:induction false} EntryIsReceived(
    query: Bytes, offset: nat, rdlength: nat, owner: Text, code: u16, rclass: u16, ttl: u32, zone: UpdateZone)
    ensures var e := EntryFor(query, offset, rdlength, owner, code, rclass, ttl, zone);
            e.Some? ==> Received(e.value, zone)
  {
    hide ParseRdata, RelativeUpdateName, TypeName, TrimDots, NamesHost;
    RdataKeeps(query, offset, rdlength, code, BlankRecord(owner, code, ttl, zone));
    TypesApart(code);
  }

  lemma {:induction false} EntriesAreReceived(query: Bytes, offset: nat, count: nat, zone: UpdateZone)
    ensures var r := ParseEntries(query, offset, count, zone);
            r.Some? ==> forall e :: e in r.value ==> Received(e, zone)
    decreases count
  {
    hide ReadName, ReadU16, ReadU32, EntryFor, Received;
    if count == 0 {
      ParseNone(query, offset, zone);
    } else {
      hide ParseEntries;
      ParseOne(query, offset, count, zone);
      match ReadName(query, offset)
      case None =>
      case Some((o, owner)) =>
        if o + 10 <= |query| && o + 10 + ReadU16(query, o + 8) <= |query| {
          var rdlength := ReadU16(query, o + 8);
          EntriesAreReceived(query, o + 10 + rdlength, count - 1, zone);
          EntryIsReceived(query, o + 10, rdlength, owner, ReadU16(query, o), ReadU16(query, o + 2),
                          ReadU32(query, o + 4), zone);
        }
    }
  }

  /** Over all byte strings: the zone name is canonical and every entry is of the received form. */
  lemma {:induction false} UpdatesAreReceived(query: Bytes, zones: seq<Zone>)
    ensures var u := ParseUpdate(query, zones);
            Canonical(u.zoneName) == u.zoneName
            && (u.entries != [] ==> exists zone: UpdateZone ::
                  Canonical(zone.storageName) == zone.storageName && Canonical(zone.updateName) == zone.updateName
                  && (zone.updateName == zone.storageName || zone.updateName == MSDCS + zone.storageName)
                  && forall e :: e in u.entries ==> Received(e, zone))
  {
    hide ParseEntries, SkipRecords, Canonical, IsUpdateQuestion, Received, ParseQuestion, AuthorizedZone;
    var u := ParseUpdate(query, zones);
    NothingIsCanonical();
    if |query| >= 12 && ParseQuestion(query).Some? {
      var q := ParseQuestion(query).value;
      var zone := AuthorizedZone(q, zones);
      ZoneIsCanonical(q, zones);
      if u.entries != [] {
        var offset := SkipRecords(query, q.endOffset, ReadU16(query, 6)).value;
        EntriesAreReceived(query, offset, ReadU16(query, 8), zone);
        assert forall e :: e in u.entries ==> Received(e, zone);
      }
    }
  }

  lemma NothingIsCanonical()
    ensures Canonical([]) == []
  {
  }

  lemma {:induction false} ZoneIsCanonical(q: Question, zones: seq<Zone>)
    ensures var z := AuthorizedZone(q, zones);
            Canonical(z.storageName) == z.storageName && Canonical(z.updateName) == z.updateName
  {
    hide Canonical, AuthorizedZone;
    CanonicalFixed(q.name);
    NothingIsCanonical();
    var z := AuthorizedZone(q, zones);
    if z.authorized {
      var i :| 0 <= i < |zones| && z.storageName == Canonical(zones[i].name);
      CanonicalFixed(zones[i].name);
    } else {
      UnauthorizedZone(q, zones);
    }
  }

  lemma {:induction false} UnauthorizedZone(q: Question, zones: seq<Zone>)
    ensures !AuthorizedZone(q, zones).authorized ==> AuthorizedZone(q, zones).storageName == []
  {
    hide Canonical, IsUpdateZone;
    if |zones| > 0 {
      UnauthorizedZone(q, zones[1..]);
    }
  }

  /** A received name is undotted exactly when the owner, in canonical form, has no second dot in front of the zone. */
  lemma {:induction false} UndottedExactlyWhen(owner: Text, zone: UpdateZone)
    requires Canonical(zone.storageName) == zone.storageName && Canonical(zone.updateName) == zone.updateName
    requires zone.updateName == zone.storageName || zone.updateName == MSDCS + zone.storageName
    ensures TrimDots(RelativeUpdateName(owner, zone)) == RelativeUpdateName(owner, zone)
       <==> !EndsWith(Canonical(owner), [DOT, DOT] + zone.storageName)
  {
    hide Canonical, TrimDots;
    var name, storage := Canonical(owner), zone.storageName;
    CanonicalFixed(owner);
    CanonicalFixed(storage);
    CanonicalIsTrimmed(owner);
    SecondDot(name, storage);
    TrimmedExactlyWhen(RelativeUpdateName(owner, zone));
  }

  lemma SecondDot(name: Text, storage: Text)
    ensures EndsWith(name, [DOT] + storage) ==> name[|name| - |storage| - 1] == DOT
    ensures EndsWith(name, [DOT, DOT] + storage)
       <==> EndsWith(name, [DOT] + storage) && |name| > |storage| + 1 && name[|name| - |storage| - 2] == DOT
  {
    var n := |name| - |storage|;
    if n >= 1 {
      assert name[n - 1..] == [name[n - 1]] + name[n..];
      assert EndsWith(name, [DOT] + storage) <==> name[n - 1] == DOT && name[n..] == storage by {
        assert ([DOT] + storage)[1..] == storage && name[n - 1..][1..] == name[n..];
      }
    }
    if n >= 2 {
      assert name[n - 2..] == [name[n - 2]] + name[n - 1..];
      assert ([DOT, DOT] + storage)[1..] == [DOT] + storage && name[n - 2..][1..] == name[n - 1..];
    }
  }

  lemma CanonicalIsTrimmed(name: Text)
    ensures TrimDots(Canonical(name)) == Canonical(name)
  {
    TrimDotsLower(TrimDots(name));
    TrimDotsIdempotent(name);
  }

  lemma TrimmedExactlyWhen(s: Text)
    ensures TrimDots(s) == s <==> s == [] || s[|s| - 1] != DOT
  {
  }

  // ---------- Deletes with unreadable data ----------

  /** A delete of one value covers the whole (name, type) set exactly when its value is empty: when it carries no data,
      when its data cannot be parsed, and when it is a text record holding the empty text. */
  lemma {:induction false} ValuelessDelete(
    query: Bytes, offset: nat, rdlength: nat, owner: Text, code: u16, ttl: u32, zone: UpdateZone)
    requires code != TYPE_ANY && TypeName(code) != []
    ensures var entry := EntryFor(query, offset, rdlength, owner, code, CLASS_NONE, ttl, zone);
            entry.Some?
            && var e := entry.value;
            && var parsed := ParseRdata(query, offset, rdlength, code, BlankRecord(owner, code, ttl, zone));
            && e.deletion && !e.deleteRrset
            && ((forall x :: Deletes(e, x) <==> SameSet(x, e.record)) <==> e.record.value == [])
            && (e.record.value == [] <==> rdlength == 0 || !parsed.0 || (code == TYPE_TXT && parsed.1.value == []))
  {
    hide ParseRdata, RelativeUpdateName, Canonical;
    RdataKeeps(query, offset, rdlength, code, BlankRecord(owner, code, ttl, zone));
    var e := EntryFor(query, offset, rdlength, owner, code, CLASS_NONE, ttl, zone).value;
    OnlyAnyIsAny(code);
    if e.record.value != [] {
      var x := e.record.(value := e.record.value + [120]);
      LongerIsOther(e.record.value);
      assert SameSet(x, e.record) && !Deletes(e, x);
    }
  }

  lemma OnlyAnyIsAny(code: u16)
    ensures code != TYPE_ANY && TypeName(code) != [] ==> Lower(TypeName(code)) != Lower(NAME_ANY)
  {
    assert |NAME_A| == 1 && |NAME_NS| == 2 && |NAME_CNAME| == 5 && |NAME_SOA| == 3 && |NAME_AAAA| == 4;
    assert Lower(NAME_TXT)[0] == 116 && Lower(NAME_SRV)[0] == 115 && Lower(NAME_ANY)[0] == 97;
  }

  lemma LongerIsOther(value: Text)
    ensures Canonical(value + [120]) != Canonical(value)
  {
    assert |TrimDots(value)| <= |value|;
  }

  // ---------- Where memory and store part ----------

  /** The text record of an owner. */
  function TextRecord(owner: Text, zone: UpdateZone, text: Text): (r: Record) {
    BlankRecord(TrimDots(owner), TYPE_TXT, 300, zone).(value := text)
  }

  /** Its data: one character string. */
  function TextData(text: Text): (s: Bytes)
    requires |text| < 256
    ensures |s| == 1 + |text|
  {
    [|text|] + text
  }

  /** What the update of such a record asks for. */
  function TextChange(owner: Text, rclass: u16, text: Text, zone: UpdateZone): (e: Entry) {
    Entry(zone.storageName, TextRecord(owner, zone, text), rclass == CLASS_NONE, false)
  }

  /** And the message that asks for it. */
  function TextMessage(id: u16, zone: Text, owner: Text, rclass: u16, text: Text): (s: Bytes)
    requires |text| < 256
  {
    RecordMessage(id, zone, owner, TYPE_TXT, rclass, 300, TextData(text))
  }

  lemma TextEntry(owner: Text, rclass: u16, text: Text, zone: UpdateZone)
    requires |text| < 256 && (rclass == CLASS_IN || rclass == CLASS_NONE)
    ensures MessageEntry(TrimDots(owner), TYPE_TXT, rclass, 300, TextData(text), zone)
         == Some(TextChange(owner, rclass, text, zone))
  {
    hide RelativeUpdateName, TrimDots;
    var rdata := TextData(text);
    assert rdata[0..0 + |rdata|] == rdata && rdata[1..1 + |text|] == text && rdata[1 + |text|..] == [];
    assert TxtText(rdata, []) == Some(text) by {
      assert [] + rdata[1..1 + |text|] == text;
    }
  }

  lemma {:induction false} TextParses(id: u16, zone: Text, owner: Text, rclass: u16, text: Text, zones: seq<Zone>)
    requires |text| < 256 && (rclass == CLASS_IN || rclass == CLASS_NONE)
    requires ProperName(zone) && ProperName(owner) && AuthorizedZone(MessageQuestion(zone), zones).authorized
    ensures ParseUpdate(TextMessage(id, zone, owner, rclass, text), zones).entries
         == [TextChange(owner, rclass, text, AuthorizedZone(MessageQuestion(zone), zones))]
  {
    hide ParseUpdate, RecordMessage, AuthorizedZone, ProperName, MessageEntry, WireName, MessageQuestion, TextChange,
      TrimDots, StorageName, TextData;
    RecordMessageParses(id, zone, owner, TYPE_TXT, rclass, 300, TextData(text), zones);
    TextEntry(owner, rclass, text, AuthorizedZone(MessageQuestion(zone), zones));
  }

  /** A text "b" has been added through one message; another deletes the text "b." of the same owner. Memory, which
      ignores trailing dots, loses the record, and every faithful server keeps it. */
  lemma {:induction false} TrailingDotsDiverge(p: Postgres, id: u16, zone: Text, owner: Text, zones: seq<Zone>)
    requires Faithful(p) && ProperName(zone) && ProperName(owner)
    requires AuthorizedZone(MessageQuestion(zone), zones).authorized
    requires Plain(RelativeUpdateName(TrimDots(owner), AuthorizedZone(MessageQuestion(zone), zones)))
    ensures var r := TextRecord(owner, AuthorizedZone(MessageQuestion(zone), zones), [98]);
            var added := ParseUpdate(TextMessage(id, zone, owner, CLASS_IN, [98]), zones);
            var deleted := ParseUpdate(TextMessage(id, zone, owner, CLASS_NONE, [98, DOT]), zones);
            && ApplyEntries(MEMORY, [], added.entries) == [r] && ApplyEntries(SqlRules(p), [], added.entries) == [r]
            && ApplyEntries(MEMORY, [r], deleted.entries) == []
            && ApplyEntries(SqlRules(p), [r], deleted.entries) == [r]
  {
    hide *;
    TextParses(id, zone, owner, CLASS_IN, [98], zones);
    TextParses(id, zone, owner, CLASS_NONE, [98, DOT], zones);
    DotEntriesDiverge(p, AuthorizedZone(MessageQuestion(zone), zones), owner);
  }

  lemma {:induction false} DotEntriesDiverge(p: Postgres, z: UpdateZone, owner: Text)
    requires Faithful(p) && Plain(RelativeUpdateName(TrimDots(owner), z))
    ensures var r := TextRecord(owner, z, [98]);
            var add, delete := [TextChange(owner, CLASS_IN, [98], z)], [TextChange(owner, CLASS_NONE, [98, DOT], z)];
            && ApplyEntries(MEMORY, [], add) == [r] && ApplyEntries(SqlRules(p), [], add) == [r]
            && ApplyEntries(MEMORY, [r], delete) == [] && ApplyEntries(SqlRules(p), [r], delete) == [r]
  {
    hide RelativeUpdateName, Faithful, ApplyEntries, SqlDeletes, Stored, Deletes, TrimDots, SqlRules, Plain;
    var r := TextRecord(owner, z, [98]);
    var add, delete := TextChange(owner, CLASS_IN, [98], z), TextChange(owner, CLASS_NONE, [98, DOT], z);
    OneAdd(MEMORY, add);
    OneAdd(SqlRules(p), add);
    OneDelete(MEMORY, r, delete);
    OneDelete(SqlRules(p), r, delete);
    SqlRulesAre(p, add, r);
    SqlRulesAre(p, delete, r);
    DotsKept(p, r, delete);
    DotsAside(r, delete);
  }

  lemma DotsKept(p: Postgres, r: Record, e: Entry)
    requires Faithful(p) && Plain(r.name) && r.rtype == NAME_TXT && r.value == [98] && r.dnsClass == NAME_IN
             && r.flags == []
    requires e.deletion && !e.deleteRrset && e.record == r.(value := [98, DOT])
    ensures Stored(p, r) == r && !SqlDeletes(p, e, r)
  {
  }

  lemma SqlRulesAre(p: Postgres, e: Entry, x: Record)
    ensures SqlRules(p).deletes(e, x) == SqlDeletes(p, e, x) && SqlRules(p).stored(x) == Stored(p, x)
    ensures MEMORY.deletes(e, x) == Deletes(e, x) && MEMORY.stored(x) == x
  {
    hide SqlDeletes, Stored, Deletes;
  }

  lemma DotsAside(r: Record, e: Entry)
    requires r.value == [98] && e.record == r.(value := [98, DOT]) && e.deletion && !e.deleteRrset
    ensures Deletes(e, r)
  {
    assert TrimDots([98, DOT]) == [98] by {
      assert [98, DOT][..1] == [98];
    }
  }

  lemma OneAdd(d: Rules, e: Entry)
    requires Adds(e)
    ensures ApplyEntries(d, [], [e]) == [d.stored(e.record)]
  {
    assert [e][1..] == [];
    assert [] + [d.stored(e.record)] == [d.stored(e.record)];
  }

  lemma WithoutNone(d: Rules, e: Entry)
    ensures Without(d, [], e) == []
  {
  }

  lemma OneDelete(d: Rules, r: Record, e: Entry)
    requires e.deletion
    ensures ApplyEntries(d, [r], [e]) == if d.deletes(e, r) then [] else [r]
  {
    WithoutStep(d, [r], e);
    WithoutNone(d, e);
    assert [e][1..] == [] && [r][1..] == [];
    var none: seq<Record> := [];
    assert [r] + none == [r] && none + none == none;
    assert ApplyEntry(d, [r], e) == Without(d, [r], e);
  }

  /** Where a literal ends at a NUL byte, a text that holds one is stored cut off, though every statement succeeds. */
  lemma {:induction false} NulBytesDiverge(p: Postgres, id: u16, zone: Text, owner: Text, zones: seq<Zone>)
    requires forall s :: p.literal(s) == s[..IndexOf(s, 0)]
    requires ProperName(zone) && ProperName(owner) && AuthorizedZone(MessageQuestion(zone), zones).authorized
    ensures var u := ParseUpdate(TextMessage(id, zone, owner, CLASS_IN, [97, 0, 98]), zones);
            ApplyEntries(SqlRules(p), [], u.entries) != ApplyEntries(MEMORY, [], u.entries)
  {
    hide *;
    TextParses(id, zone, owner, CLASS_IN, [97, 0, 98], zones);
    CutEntry(p, AuthorizedZone(MessageQuestion(zone), zones), owner);
  }

  lemma CutEntry(p: Postgres, z: UpdateZone, owner: Text)
    requires forall s :: p.literal(s) == s[..IndexOf(s, 0)]
    ensures var add := [TextChange(owner, CLASS_IN, [97, 0, 98], z)];
            ApplyEntries(SqlRules(p), [], add) != ApplyEntries(MEMORY, [], add)
  {
    hide ApplyEntries, SqlDeletes, Deletes, SqlRules, Stored, RelativeUpdateName, TrimDots;
    var add := TextChange(owner, CLASS_IN, [97, 0, 98], z);
    OneAdd(MEMORY, add);
    OneAdd(SqlRules(p), add);
    SqlRulesAre(p, add, add.record);
    CutOff(p, add.record);
  }

  lemma CutOff(p: Postgres, r: Record)
    requires forall s :: p.literal(s) == s[..IndexOf(s, 0)]
    requires r.value == [97, 0, 98]
    ensures Stored(p, r).value != r.value
  {
    assert r.value[1] == 0;
    assert IndexOf(r.value, 0) < 2;
  }
}
