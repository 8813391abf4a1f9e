/** The two places an update goes to, the zones in memory and the rows of dns_records, and their agreement
    (apps/network/main.cpp). */
module DnsReplicas {
  import opened Octets
  import opened Texts
  import opened DnsZones
  import opened DnsUpdates
  import opened DnsStore

  // ---------- In memory ----------

  predicate Effective(u: Update) {
    u.valid && u.authorized && u.zoneName != []
  }

  /** The first zone of that name up to case and trailing dots, or the number of zones. */
  function FindZone(zones: seq<Zone>, name: Text): (i: nat)
    ensures i <= |zones|
    ensures i < |zones| ==> Canonical(zones[i].name) == Canonical(name)
    ensures forall j :: 0 <= j < i ==> Canonical(zones[j].name) != Canonical(name)
  {
    if |zones| == 0 || Canonical(zones[0].name) == Canonical(name) then 0 else 1 + FindZone(zones[1..], name)
  }

  function UpdatedZone(zone: Zone, entries: seq<Entry>): (z: Zone)
    ensures z.name == zone.name
  {
    zone.(records := ApplyEntries(MEMORY, zone.records, entries),
          serial := if Changes(MEMORY, zone.records, entries) then (zone.serial + 1) % 0x1_0000_0000_0000_0000
                    else zone.serial)
  }

  function UpdatedZones(zones: seq<Zone>, u: Update): (r: seq<Zone>)
  {
    if !Effective(u) then zones
    else
      var i := FindZone(zones, u.zoneName);
      var present := if i == |zones| then zones + [Zone(u.zoneName, 1, [])] else zones;
      present[i := UpdatedZone(present[i], u.entries)]
  }

  class ZoneList {
    var zones: seq<Zone>

    constructor (zones: seq<Zone>)
      ensures this.zones == zones
    {
      this.zones := zones;
    }

    /** apply_dns_dynamic_update_to_memory */
    method ApplyUpdate(u: Update)
      modifies this
      ensures zones == UpdatedZones(old(zones), u)
    {
      hide ApplyEntries, Changes, Canonical, Without;
      if !Effective(u) {
        return;
      }
      var i := FindZone(zones, u.zoneName);
      if i == |zones| {
        zones := zones + [Zone(u.zoneName, 1, [])];
      }
      ghost var present := zones;
      ghost var before := zones[i];
      var changed := false;
      assert u.entries[0..] == u.entries;
      for k := 0 to |u.entries|
        invariant |zones| == |present| && zones == present[i := before.(records := zones[i].records)]
        invariant ApplyEntries(MEMORY, zones[i].records, u.entries[k..])
               == ApplyEntries(MEMORY, before.records, u.entries)
        invariant (changed || Changes(MEMORY, zones[i].records, u.entries[k..]))
               == Changes(MEMORY, before.records, u.entries)
      {
        var e := u.entries[k];
        ghost var current := zones[i].records;
        assert u.entries[k..][1..] == u.entries[k + 1..];
        NextEntry(current, u.entries[k..]);
        var oldSize := |zones[i].records|;
        var kept := EraseDeleted(zones[i].records, e);
        zones := zones[i := zones[i].(records := kept)];
        changed := changed || |kept| != oldSize;
        assert kept + [] == kept;
        if !e.deletion && e.record.value != [] {
          zones := zones[i := zones[i].(records := kept + [e.record])];
          changed := true;
        }
      }
      NoEntry(zones[i].records, u.entries[|u.entries|..]);
      if changed {
        zones := zones[i := zones[i].(serial := (zones[i].serial + 1) % 0x1_0000_0000_0000_0000)];
      }
      assert zones == present[i := UpdatedZone(before, u.entries)];
    }
  }

  lemma NextEntry(records: seq<Record>, entries: seq<Entry>)
    requires |entries| > 0
    ensures ApplyEntries(MEMORY, records, entries)
         == ApplyEntries(MEMORY,
                         Without(MEMORY, records, entries[0])
                         + (if Adds(entries[0]) then [entries[0].record] else []),
                         entries[1..])
    ensures |Without(MEMORY, records, entries[0])| != |records| || Adds(entries[0])
        ==> Changes(MEMORY, records, entries)
    ensures |Without(MEMORY, records, entries[0])| == |records| && !Adds(entries[0]) ==>
              Changes(MEMORY, records, entries)
                  == Changes(MEMORY, Without(MEMORY, records, entries[0]) + [], entries[1..])
  {
    hide Without;
  }

  lemma NoEntry(records: seq<Record>, entries: seq<Entry>)
    requires |entries| == 0
    ensures ApplyEntries(MEMORY, records, entries) == records && !Changes(MEMORY, records, entries)
  {
  }

  /** erase(remove_if(...)) */
  method EraseDeleted(records: seq<Record>, e: Entry) returns (kept: seq<Record>)
    ensures kept == Without(MEMORY, records, e)
  {
    hide Deletes, Without;
    MemoryIsDeletes();
    kept := [];
    assert records[0..] == records;
    assert kept + Without(MEMORY, records, e) == Without(MEMORY, records, e);
    for i := 0 to |records|
      invariant kept + Without(MEMORY, records[i..], e) == Without(MEMORY, records, e)
    {
      WithoutStep(MEMORY, records[i..], e);
      assert records[i..][1..] == records[i + 1..];
      if !Deletes(e, records[i]) {
        ConcatAssociates(kept, [records[i]], Without(MEMORY, records[i + 1..], e));
        kept := kept + [records[i]];
      } else {
        assert [] + Without(MEMORY, records[i + 1..], e) == Without(MEMORY, records[i + 1..], e);
      }
    }
    WithoutStep(MEMORY, records[|records|..], e);
    assert kept + [] == kept;
  }

  // ---------- In the database ----------

  /** What the server makes of texts: the text a literal in a statement stands for, and lower(). */
  datatype Postgres = Postgres(literal: Text -> Text, lower: Text -> Text)

  /** No NUL byte, where a literal ends, and no letter outside ASCII, whose lower case is a matter of the locale. */
  predicate Plain(s: Text) {
    forall i :: 0 <= i < |s| ==> 1 <= s[i] < 128
  }

  /** What is known of the server: on plain texts a literal stands for itself and lower() maps A-Z alone. */
  ghost predicate Faithful(p: Postgres) {
    forall s :: Plain(s) ==> p.literal(s) == s && p.lower(s) == Lower(s)
  }

  /** Servers of that kind exist, and they may still end literals at a NUL byte. */
  lemma FaithfulServers() returns (p: Postgres)
    ensures Faithful(p) && forall s :: p.literal(s) == s[..IndexOf(s, 0)]
  {
    p := Postgres(s => s[..IndexOf(s, 0)], s => Lower(s));
  }

  datatype Row = Row(zoneName: Text, record: Record)

  /** The where clause of the delete statement, without the zone. */
  predicate SqlDeletes(p: Postgres, e: Entry, x: Record) {
    && p.lower(x.name) == p.lower(p.literal(e.record.name))
    && (Lower(e.record.rtype) == Lower(NAME_ANY) || p.lower(x.rtype) == p.lower(p.literal(e.record.rtype)))
    && (e.deletion && !e.deleteRrset && e.record.value != [] ==> p.lower(x.value) == p.lower(p.literal(e.record.value)))
  }

  /** The values of an insert statement. */
  function Stored(p: Postgres, record: Record): Record {
    record.(name := p.literal(record.name),
            rtype := p.literal(record.rtype),
            value := p.literal(record.value),
            flags := p.literal(record.flags),
            dnsClass := p.literal(if record.dnsClass == [] then NAME_IN else record.dnsClass))
  }

  function SqlRules(p: Postgres): (d: Rules) {
    Rules((e, x) => SqlDeletes(p, e, x), x => Stored(p, x))
  }

  function AfterDelete(p: Postgres, rows: map<nat, Row>, zone: Text, e: Entry): (r: map<nat, Row>)
  {
    map id | id in rows && !(rows[id].zoneName == p.literal(zone) && SqlDeletes(p, e, rows[id].record)) :: rows[id]
  }

  /** The table dns_records and its id sequence. */
  datatype Table = Table(rows: map<nat, Row>, nextId: nat) {
    predicate Valid() {
      forall id :: id in rows ==> id < nextId
    }
  }

  function PersistEntry(p: Postgres, t: Table, zone: Text, e: Entry): (t': Table)
    requires t.Valid()
    ensures t'.Valid()
  {
    var rows := AfterDelete(p, t.rows, zone, e);
    if Adds(e) then Table(rows[t.nextId := Row(p.literal(zone), Stored(p, e.record))], t.nextId + 1)
    else Table(rows, t.nextId)
  }

  function PersistEntries(p: Postgres, t: Table, zone: Text, entries: seq<Entry>): (t': Table)
    requires t.Valid()
    ensures t'.Valid()
    decreases |entries|
  {
    if |entries| == 0 then t else PersistEntries(p, PersistEntry(p, t, zone, entries[0]), zone, entries[1..])
  }

  function Persisted(p: Postgres, t: Table, u: Update): (t': Table)
    requires t.Valid()
    ensures t'.Valid()
  {
    if Effective(u) then PersistEntries(p, t, u.zoneName, u.entries) else t
  }

  class DnsDatabase {
    const server: Postgres
    var rows: map<nat, Row>
    var nextId: nat
    var zoneSerials: map<Text, int>

    ghost function Contents(): Table
      reads this
    {
      Table(rows, nextId)
    }

    constructor (server: Postgres, t: Table, zoneSerials: map<Text, int>)
      ensures Contents() == t && this.zoneSerials == zoneSerials && this.server == server
    {
      this.server := server;
      rows, nextId, this.zoneSerials := t.rows, t.nextId, zoneSerials;
    }

    /** insert into dns_zones ... on conflict (name) do update set serial = dns_zones.serial + 1 */
    method UpsertZone(name: Text)
      modifies this`zoneSerials
      ensures var key := server.literal(name);
              zoneSerials == old(zoneSerials)[key := if key in old(zoneSerials) then old(zoneSerials)[key] + 1 else 1]
    {
      var key := server.literal(name);
      zoneSerials := zoneSerials[key := if key in zoneSerials then zoneSerials[key] + 1 else 1];
    }

    method DeleteRecords(zone: Text, e: Entry)
      modifies this`rows
      ensures rows == AfterDelete(server, old(rows), zone, e)
    {
      var key := server.literal(zone);
      rows := map id | id in rows && !(rows[id].zoneName == key && SqlDeletes(server, e, rows[id].record)) :: rows[id];
    }

    method InsertRecord(zone: Text, record: Record)
      modifies this`rows, this`nextId
      ensures nextId == old(nextId) + 1
      ensures rows == old(rows)[old(nextId) := Row(server.literal(zone), Stored(server, record))]
    {
      rows := rows[nextId := Row(server.literal(zone), Stored(server, record))];
      nextId := nextId + 1;
    }

    /** persist_dns_dynamic_update with every statement succeeding. */
    method PersistUpdate(u: Update)
      requires Contents().Valid()
      modifies this
      ensures Contents() == Persisted(server, old(Contents()), u)
      ensures Effective(u) ==> server.literal(u.zoneName) in zoneSerials
    {
      hide AfterDelete, Stored;
      if !Effective(u) {
        return;
      }
      UpsertZone(u.zoneName);
      assert u.entries[0..] == u.entries;
      for k := 0 to |u.entries|
        invariant Contents().Valid() && server.literal(u.zoneName) in zoneSerials
        invariant PersistEntries(server, Contents(), u.zoneName, u.entries[k..])
               == Persisted(server, old(Contents()), u)
      {
        var e := u.entries[k];
        assert u.entries[k..][1..] == u.entries[k + 1..];
        ghost var t' := PersistEntry(server, Contents(), u.zoneName, e);
        DeleteRecords(u.zoneName, e);
        if !e.deletion && e.record.value != [] {
          InsertRecord(u.zoneName, e.record);
        }
        assert Contents() == t';
      }
    }
  }

  /** select ... from dns_records order by zone_name, id: the rows of a zone below id n. */
  function Reload(rows: map<nat, Row>, zone: Text, n: nat): (r: seq<Record>)
  {
    if n == 0 then []
    else Reload(rows, zone, n - 1) + (if n - 1 in rows && rows[n - 1].zoneName == zone then [rows[n - 1].record]
                                      else [])
  }

  function LoadZone(t: Table, zone: Text): (r: seq<Record>)
  {
    Reload(t.rows, zone, t.nextId)
  }

  // ---------- The statements as a pass over the loaded list ----------

  lemma {:induction false} WithoutConcat(d: Rules, a: seq<Record>, b: seq<Record>, e: Entry)
    ensures Without(d, a + b, e) == Without(d, a, e) + Without(d, b, e)
  {
    hide Without;
    WithoutStep(d, a, e);
    if |a| == 0 {
      assert a + b == b;
      assert Without(d, a, e) + Without(d, b, e) == Without(d, b, e);
    } else {
      WithoutConcat(d, a[1..], b, e);
      WithoutStep(d, a + b, e);
      assert (a + b)[1..] == a[1..] + b;
      var first := if d.deletes(e, a[0]) then [] else [a[0]];
      ConcatAssociates(first, Without(d, a[1..], e), Without(d, b, e));
    }
  }

  lemma {:induction false} ReloadAfterDelete(p: Postgres, rows: map<nat, Row>, zone: Text, e: Entry, y: Text, n: nat)
    ensures Reload(AfterDelete(p, rows, zone, e), y, n)
         == if y == p.literal(zone) then Without(SqlRules(p), Reload(rows, y, n), e) else Reload(rows, y, n)
  {
    hide SqlDeletes, Without;
    if n == 0 {
      WithoutStep(SqlRules(p), [], e);
    } else {
      var id := n - 1;
      var own := if id in rows && rows[id].zoneName == y then [rows[id].record] else [];
      assert Reload(rows, y, n) == Reload(rows, y, id) + own;
      ReloadAfterDelete(p, rows, zone, e, y, id);
      WithoutConcat(SqlRules(p), Reload(rows, y, id), own, e);
      WithoutStep(SqlRules(p), own, e);
      WithoutStep(SqlRules(p), [], e);
      if own != [] {
        assert own[1..] == [];
      }
    }
  }

  lemma {:induction false} ReloadUnaffected(rows: map<nat, Row>, id: nat, row: Row, y: Text, n: nat)
    requires n <= id
    ensures Reload(rows[id := row], y, n) == Reload(rows, y, n)
  {
    if n > 0 {
      ReloadUnaffected(rows, id, row, y, n - 1);
    }
  }

  lemma ReloadNewest(rows: map<nat, Row>, zone: Text, n: nat)
    requires n in rows
    ensures Reload(rows, zone, n + 1)
         == Reload(rows, zone, n) + (if rows[n].zoneName == zone then [rows[n].record] else [])
  {
  }

  lemma {:induction false} PersistEntryIsPass(p: Postgres, t: Table, zone: Text, e: Entry, y: Text)
    requires t.Valid()
    ensures LoadZone(PersistEntry(p, t, zone, e), y)
         == if y == p.literal(zone) then ApplyEntry(SqlRules(p), LoadZone(t, y), e) else LoadZone(t, y)
  {
    hide AfterDelete, Reload, Without, Adds, Stored;
    ReloadAfterDelete(p, t.rows, zone, e, y, t.nextId);
    var rows := AfterDelete(p, t.rows, zone, e);
    if Adds(e) {
      var row := Row(p.literal(zone), Stored(p, e.record));
      ReloadUnaffected(rows, t.nextId, row, y, t.nextId);
      ReloadNewest(rows[t.nextId := row], y, t.nextId);
    }
    assert Reload(rows, y, t.nextId) + [] == Reload(rows, y, t.nextId);
  }

  /** An update of any length, on any server: reloading by id gives the pass of the entries, under the rules of SQL,
      over the list that was loaded before; and no other zone changes. */
  lemma {:induction false} PersistIsPass(p: Postgres, t: Table, zone: Text, entries: seq<Entry>, y: Text)
    requires t.Valid()
    ensures LoadZone(PersistEntries(p, t, zone, entries), y)
         == if y == p.literal(zone) then ApplyEntries(SqlRules(p), LoadZone(t, y), entries) else LoadZone(t, y)
    decreases |entries|
  {
    hide LoadZone, PersistEntry, ApplyEntry;
    if |entries| > 0 {
      PersistEntryIsPass(p, t, zone, entries[0], y);
      PersistIsPass(p, PersistEntry(p, t, zone, entries[0]), zone, entries[1..], y);
    }
  }

  // ---------- Memory and store on one list ----------

  predicate PlainRecord(x: Record) {
    Plain(x.name) && Plain(x.rtype) && Plain(x.value) && Plain(x.flags) && Plain(x.dnsClass) && x.dnsClass != []
  }

  predicate AllPlain(records: seq<Record>) {
    forall x :: x in records ==> PlainRecord(x)
  }

  predicate PlainEntries(entries: seq<Entry>) {
    forall e :: e in entries ==> PlainRecord(e.record)
  }

  /** On plain texts SQL deletes what has the same name up to case, the same type up to case or any, and, in the delete
      of one value, the same value up to case: always less than memory, which also ignores trailing dots. */
  lemma {:induction false} SqlDeletesSpelled(p: Postgres, e: Entry, x: Record)
    requires Faithful(p) && PlainRecord(e.record) && PlainRecord(x)
    ensures SqlDeletes(p, e, x) <==>
              && Lower(x.name) == Lower(e.record.name)
              && (Lower(e.record.rtype) == Lower(NAME_ANY) || Lower(x.rtype) == Lower(e.record.rtype))
              && (e.deletion && !e.deleteRrset && e.record.value != [] ==> Lower(x.value) == Lower(e.record.value))
    ensures SqlDeletes(p, e, x) ==> Deletes(e, x)
    ensures Stored(p, x) == x
  {
    hide Lower, Plain;
    assert Plain(x.name) && Plain(e.record.name) && Plain(x.rtype) && Plain(e.record.rtype) && Plain(x.value);
    assert Plain(e.record.value) && Plain(x.flags) && Plain(x.dnsClass);
    TrimDotsLower(x.name);
    TrimDotsLower(e.record.name);
    TrimDotsLower(x.value);
    TrimDotsLower(e.record.value);
  }

  lemma {:induction false} SqlIsNoStricter(p: Postgres, records: seq<Record>, entries: seq<Entry>)
    requires Faithful(p) && AllPlain(records) && PlainEntries(entries)
    ensures NoStricter(SqlRules(p), MEMORY, records, entries)
  {
    hide PlainRecord, SqlDeletes, Stored, Deletes, Faithful;
    forall e, x | e in entries && x in records ensures SqlDeletes(p, e, x) ==> Deletes(e, x) {
      SqlDeletesSpelled(p, e, x);
    }
    forall e, f | e in entries && f in entries
      ensures Stored(p, f.record) == f.record && (SqlDeletes(p, e, f.record) ==> Deletes(e, f.record))
    {
      SqlDeletesSpelled(p, e, f.record);
    }
  }

  /** Every record that some entry deletes in memory is deleted by some entry in SQL, and every added record that an
      entry behind it deletes in memory is deleted by one behind it in SQL. */
  ghost predicate Alike(p: Postgres, records: seq<Record>, entries: seq<Entry>) {
    DeletedAlike(SqlRules(p), MEMORY, records, entries) && OverriddenAlike(SqlRules(p), MEMORY, entries)
  }

  /** On plain data the statements and the in-memory pass end with the same list exactly when they delete alike. */
  lemma {:induction false} UpdateAgreesExactly(p: Postgres, records: seq<Record>, entries: seq<Entry>)
    requires Faithful(p) && AllPlain(records) && PlainEntries(entries)
    ensures ApplyEntries(SqlRules(p), records, entries) == ApplyEntries(MEMORY, records, entries)
       <==> Alike(p, records, entries)
  {
    hide ApplyEntries, DeletedAlike, OverriddenAlike, NoStricter, Faithful;
    SqlIsNoStricter(p, records, entries);
    PassesAgreeExactly(SqlRules(p), MEMORY, records, entries);
  }

  /** Values that differ at most in case whenever they agree up to case and trailing dots. */
  ghost predicate Separable(values: set<Text>) {
    forall v, w :: v in values && w in values && Canonical(v) == Canonical(w) ==> Lower(v) == Lower(w)
  }

  predicate Undotted(x: Record) {
    TrimDots(x.name) == x.name
  }

  ghost predicate Comparable(records: seq<Record>, values: set<Text>) {
    forall x :: x in records ==> Undotted(x) && x.value in values
  }

  ghost predicate ComparableEntries(entries: seq<Entry>, values: set<Text>) {
    forall e :: e in entries ==> Undotted(e.record) && e.record.value in values
  }

  lemma {:induction false} SameDeletes(p: Postgres, e: Entry, x: Record, values: set<Text>)
    requires Faithful(p) && PlainRecord(e.record) && PlainRecord(x)
    requires Separable(values) && Undotted(x) && x.value in values && Undotted(e.record) && e.record.value in values
    ensures SqlDeletes(p, e, x) <==> Deletes(e, x)
  {
    hide SqlDeletes, Faithful, PlainRecord, TrimDots, Lower;
    SqlDeletesSpelled(p, e, x);
  }

  /** Undotted names and separable values are enough for that. */
  lemma {:induction false} SeparableIsAlike(p: Postgres, records: seq<Record>, entries: seq<Entry>, values: set<Text>)
    requires Faithful(p) && AllPlain(records) && PlainEntries(entries)
    requires Separable(values) && Comparable(records, values) && ComparableEntries(entries, values)
    ensures Alike(p, records, entries)
  {
    hide Faithful, PlainRecord, Separable, Undotted, SqlDeletes, Deletes, Stored;
    forall e, x | e in entries && x in records ensures SqlDeletes(p, e, x) <==> Deletes(e, x) {
      SameDeletes(p, e, x, values);
    }
    forall e, f | e in entries && f in entries
      ensures Stored(p, f.record) == f.record && (SqlDeletes(p, e, f.record) <==> Deletes(e, f.record))
    {
      SameDeletes(p, e, f.record, values);
      SqlDeletesSpelled(p, e, f.record);
    }
    SameSurvivors(p, records, entries);
  }

  lemma {:induction false} SameSurvivors(p: Postgres, records: seq<Record>, entries: seq<Entry>)
    requires forall e, x :: e in entries && x in records ==> (SqlDeletes(p, e, x) <==> Deletes(e, x))
    requires forall e, f :: e in entries && f in entries ==>
               Stored(p, f.record) == f.record && (SqlDeletes(p, e, f.record) <==> Deletes(e, f.record))
    ensures Alike(p, records, entries)
  {
    hide SqlDeletes, Deletes, Stored;
    var d := SqlRules(p);
    forall x | x in records && Survives(d, x, entries) ensures Survives(MEMORY, x, entries) {
      forall i | 0 <= i < |entries| ensures !MEMORY.deletes(entries[i], x) {
        assert entries[i] in entries && !d.deletes(entries[i], x);
      }
    }
    forall k: nat | k < |entries| && Outlives(d, entries, k) ensures Outlives(MEMORY, entries, k) {
      assert entries[k] in entries;
      var later := entries[k + 1..];
      forall i | 0 <= i < |later| ensures !MEMORY.deletes(later[i], entries[k].record) {
        assert later[i] in entries && !d.deletes(later[i], d.stored(entries[k].record));
      }
    }
  }

  /** What memory holds for a zone name. */
  function Served(zones: seq<Zone>, name: Text): (r: seq<Record>)
  {
    if |zones| == 0 then []
    else if zones[0].name == name then zones[0].records
    else Served(zones[1..], name)
  }

  predicate CanonicalNames(zones: seq<Zone>) {
    forall i :: 0 <= i < |zones| ==> Canonical(zones[i].name) == zones[i].name
  }

  lemma {:induction false} ServedAt(zones: seq<Zone>, i: nat)
    requires i <= |zones| && CanonicalNames(zones)
    requires forall j :: 0 <= j < i ==> zones[j].name != (if i < |zones| then zones[i].name else [])
    ensures i < |zones| ==> Served(zones, zones[i].name) == zones[i].records
  {
    hide Canonical;
    if 0 < i < |zones| {
      assert zones[1..][i - 1] == zones[i];
      assert forall j :: 0 <= j < i - 1 ==> zones[1..][j] == zones[j + 1];
      ServedAt(zones[1..], i - 1);
    }
  }

  lemma {:induction false} ServedReplaced(zones: seq<Zone>, i: nat, z: Zone, y: Text)
    requires i < |zones| && z.name == zones[i].name
    requires forall j :: 0 <= j < i ==> zones[j].name != zones[i].name
    ensures Served(zones[i := z], y) == if y == z.name then z.records else Served(zones, y)
  {
    if i > 0 {
      ServedReplaced(zones[1..], i - 1, z, y);
      assert zones[i := z][1..] == zones[1..][i - 1 := z];
    } else {
      assert zones[i := z][1..] == zones[1..];
    }
  }

  lemma {:induction false} ServedAppended(zones: seq<Zone>, name: Text, y: Text)
    requires forall j :: 0 <= j < |zones| ==> zones[j].name != name
    ensures Served(zones + [Zone(name, 1, [])], y) == Served(zones, y)
    ensures Served(zones, name) == []
  {
    if |zones| == 0 {
      assert (zones + [Zone(name, 1, [])])[1..] == [];
    } else {
      ServedAppended(zones[1..], name, y);
      assert (zones + [Zone(name, 1, [])])[1..] == zones[1..] + [Zone(name, 1, [])];
    }
  }

  lemma {:induction false} UpdatedZonesServe(zones: seq<Zone>, u: Update, y: Text)
    requires CanonicalNames(zones) && (Effective(u) ==> Canonical(u.zoneName) == u.zoneName)
    ensures Served(UpdatedZones(zones, u), y)
         == if Effective(u) && y == u.zoneName then ApplyEntries(MEMORY, Served(zones, y), u.entries)
            else Served(zones, y)
    ensures CanonicalNames(UpdatedZones(zones, u))
  {
    hide Canonical, ApplyEntries, Changes;
    if Effective(u) {
      var i := FindZone(zones, u.zoneName);
      if i == |zones| {
        ServedAppended(zones, u.zoneName, y);
        ServedAppended(zones, u.zoneName, u.zoneName);
      }
      var present := if i == |zones| then zones + [Zone(u.zoneName, 1, [])] else zones;
      assert present[i].name == u.zoneName;
      ServedAt(present, i);
      ServedReplaced(present, i, UpdatedZone(present[i], u.entries), y);
    }
  }

  // ---------- Runs ----------

  /** Memory and table hold the same ordered records for every zone. */
  ghost predicate Agree(zones: seq<Zone>, t: Table) {
    forall y :: Served(zones, y) == LoadZone(t, y)
  }

  ghost predicate PlainTable(t: Table) {
    forall y :: AllPlain(LoadZone(t, y))
  }

  /** An update whose texts are plain, for a zone under its canonical name. */
  ghost predicate Accepted(u: Update) {
    Effective(u) ==> Canonical(u.zoneName) == u.zoneName && Plain(u.zoneName) && PlainEntries(u.entries)
  }

  /** The update deletes alike from memory and in the store. */
  ghost predicate Harmless(p: Postgres, zones: seq<Zone>, u: Update) {
    Effective(u) ==> Alike(p, Served(zones, u.zoneName), u.entries)
  }

  lemma {:induction false} StaysPlain(p: Postgres, records: seq<Record>, entries: seq<Entry>)
    requires Faithful(p) && AllPlain(records) && PlainEntries(entries)
    ensures AllPlain(ApplyEntries(SqlRules(p), records, entries))
  {
    hide PlainRecord, Survives, Survivors, Added, ApplyEntries, SqlDeletes, Stored, Lasts, Faithful;
    var d := SqlRules(p);
    UpdateShape(d, records, entries);
    forall x | x in ApplyEntries(d, records, entries) ensures PlainRecord(x) {
      if x in Survivors(d, records, entries) {
        SurvivorsMember(d, records, entries, x);
      } else {
        var i := AddedMember(d, entries, x);
        assert entries[i] in entries;
        SqlDeletesSpelled(p, entries[i], entries[i].record);
      }
    }
  }

  /** One update keeps memory and store in agreement exactly when it deletes alike on both sides. */
  lemma {:induction false} UpdateKeepsAgreementExactly(p: Postgres, zones: seq<Zone>, t: Table, u: Update)
    requires Faithful(p) && t.Valid() && CanonicalNames(zones) && Agree(zones, t) && PlainTable(t) && Accepted(u)
    ensures Agree(UpdatedZones(zones, u), Persisted(p, t, u)) <==> Harmless(p, zones, u)
    ensures CanonicalNames(UpdatedZones(zones, u)) && PlainTable(Persisted(p, t, u))
  {
    hide Faithful, AllPlain, PlainEntries, UpdatedZones, LoadZone, CanonicalNames, Served, PersistEntries, ApplyEntries,
      Alike;
    var zones', t' := UpdatedZones(zones, u), Persisted(p, t, u);
    UpdatedZonesServe(zones, u, []);
    if Effective(u) {
      var z := u.zoneName;
      LiteralOf(p, z);
      UpdateAgreesExactly(p, LoadZone(t, z), u.entries);
      StaysPlain(p, LoadZone(t, z), u.entries);
      forall y
        ensures Served(zones', y) == if y == z then ApplyEntries(MEMORY, LoadZone(t, z), u.entries) else LoadZone(t, y)
        ensures LoadZone(t', y)
             == if y == z then ApplyEntries(SqlRules(p), LoadZone(t, z), u.entries) else LoadZone(t, y)
      {
        UpdatedZonesServe(zones, u, y);
        PersistIsPass(p, t, z, u.entries, y);
      }
    } else {
      forall y ensures Served(zones', y) == Served(zones, y) {
        UpdatedZonesServe(zones, u, y);
      }
    }
  }

  lemma LiteralOf(p: Postgres, s: Text)
    requires Faithful(p) && Plain(s)
    ensures p.literal(s) == s
  {
  }

  function RunMemory(zones: seq<Zone>, updates: seq<Update>): seq<Zone>
  {
    if |updates| == 0 then zones
    else UpdatedZones(RunMemory(zones, updates[..|updates| - 1]), updates[|updates| - 1])
  }

  function RunTable(p: Postgres, t: Table, updates: seq<Update>): (t': Table)
    requires t.Valid()
    ensures t'.Valid()
  {
    if |updates| == 0 then t
    else Persisted(p, RunTable(p, t, updates[..|updates| - 1]), updates[|updates| - 1])
  }

  /** Memory and store agree after each of the updates. */
  ghost predicate AgreeThroughout(p: Postgres, zones: seq<Zone>, t: Table, updates: seq<Update>)
    requires t.Valid()
  {
    forall k :: 0 <= k <= |updates| ==> Agree(RunMemory(zones, updates[..k]), RunTable(p, t, updates[..k]))
  }

  /** Each of the updates, where it comes in the run, deletes alike on both sides. */
  ghost predicate HarmlessThroughout(p: Postgres, zones: seq<Zone>, updates: seq<Update>) {
    forall k :: 0 <= k < |updates| ==> Harmless(p, RunMemory(zones, updates[..k]), updates[k])
  }

  /** Along any run of plain updates the copy in memory and the store stay in agreement exactly as long as every update
      deletes alike on both sides. */
  lemma {:induction false} RunsAgreeExactly(p: Postgres, zones: seq<Zone>, t: Table, updates: seq<Update>)
    requires Faithful(p) && t.Valid() && CanonicalNames(zones) && Agree(zones, t) && PlainTable(t)
    requires forall u :: u in updates ==> Accepted(u)
    ensures AgreeThroughout(p, zones, t, updates) <==> HarmlessThroughout(p, zones, updates)
    ensures CanonicalNames(RunMemory(zones, updates)) && PlainTable(RunTable(p, t, updates))
  {
    hide Faithful, Agree, PlainTable, Accepted, CanonicalNames, Harmless, UpdatedZones, Persisted, AgreeThroughout,
      HarmlessThroughout;
    ThroughoutEnds(p, zones, t, updates);
    if |updates| > 0 {
      var n := |updates| - 1;
      var first, u := updates[..n], updates[n];
      assert u in updates && forall v :: v in first ==> v in updates;
      RunsAgreeExactly(p, zones, t, first);
      ThroughoutEnds(p, zones, t, first);
      SplitLast(p, zones, t, updates);
      if AgreeThroughout(p, zones, t, first) {
        UpdateKeepsAgreementExactly(p, RunMemory(zones, first), RunTable(p, t, first), u);
      } else {
        KeptPlain(p, RunMemory(zones, first), RunTable(p, t, first), u);
      }
    }
  }

  lemma ThroughoutEnds(p: Postgres, zones: seq<Zone>, t: Table, updates: seq<Update>)
    requires t.Valid()
    ensures AgreeThroughout(p, zones, t, updates) ==> Agree(RunMemory(zones, updates), RunTable(p, t, updates))
    ensures |updates| == 0 ==> HarmlessThroughout(p, zones, updates)
    ensures |updates| == 0 && Agree(zones, t) ==> AgreeThroughout(p, zones, t, updates)
  {
    hide Agree, Harmless, UpdatedZones, Persisted;
    assert updates[..|updates|] == updates;
  }

  /** The two throughout-predicates, split at the last update. */
  lemma {:induction false} SplitLast(p: Postgres, zones: seq<Zone>, t: Table, updates: seq<Update>)
    requires t.Valid() && |updates| > 0
    ensures var n := |updates| - 1;
            && (AgreeThroughout(p, zones, t, updates)
                <==> && AgreeThroughout(p, zones, t, updates[..n])
                     && Agree(RunMemory(zones, updates), RunTable(p, t, updates)))
            && (HarmlessThroughout(p, zones, updates)
                <==> && HarmlessThroughout(p, zones, updates[..n])
                     && Harmless(p, RunMemory(zones, updates[..n]), updates[n]))
  {
    hide Agree, Harmless, RunMemory, RunTable;
    var n := |updates| - 1;
    var first := updates[..n];
    forall k | 0 <= k <= n ensures first[..k] == updates[..k] {
    }
    assert updates[..n + 1] == updates;
    if AgreeThroughout(p, zones, t, updates) {
      assert Agree(RunMemory(zones, updates[..n + 1]), RunTable(p, t, updates[..n + 1]));
      forall k | 0 <= k <= |first| ensures Agree(RunMemory(zones, first[..k]), RunTable(p, t, first[..k])) {
        assert first[..k] == updates[..k];
      }
    }
    if AgreeThroughout(p, zones, t, first) && Agree(RunMemory(zones, updates), RunTable(p, t, updates)) {
      forall k | 0 <= k <= |updates| ensures Agree(RunMemory(zones, updates[..k]), RunTable(p, t, updates[..k])) {
        if k <= n {
          assert first[..k] == updates[..k];
        }
      }
    }
    if HarmlessThroughout(p, zones, updates) {
      forall k | 0 <= k < |first| ensures Harmless(p, RunMemory(zones, first[..k]), first[k]) {
        assert first[..k] == updates[..k] && first[k] == updates[k];
      }
    }
    if HarmlessThroughout(p, zones, first) && Harmless(p, RunMemory(zones, first), updates[n]) {
      forall k | 0 <= k < |updates| ensures Harmless(p, RunMemory(zones, updates[..k]), updates[k]) {
        if k < n {
          assert first[..k] == updates[..k] && first[k] == updates[k];
        }
      }
    }
  }

  /** Plain tables and canonical zone names stay so, in agreement or not. */
  lemma {:induction false} KeptPlain(p: Postgres, zones: seq<Zone>, t: Table, u: Update)
    requires Faithful(p) && t.Valid() && CanonicalNames(zones) && PlainTable(t) && Accepted(u)
    ensures CanonicalNames(UpdatedZones(zones, u)) && PlainTable(Persisted(p, t, u))
  {
    hide Faithful, AllPlain, PlainEntries, UpdatedZones, LoadZone, CanonicalNames, Served, PersistEntries, ApplyEntries;
    UpdatedZonesServe(zones, u, []);
    if Effective(u) {
      LiteralOf(p, u.zoneName);
      StaysPlain(p, LoadZone(t, u.zoneName), u.entries);
      forall y ensures AllPlain(LoadZone(Persisted(p, t, u), y)) {
        PersistIsPass(p, t, u.zoneName, u.entries, y);
      }
    }
  }

  ghost predicate AllComparable(t: Table, values: set<Text>) {
    forall y :: Comparable(LoadZone(t, y), values)
  }

  lemma {:induction false} StaysComparable(p: Postgres, records: seq<Record>, entries: seq<Entry>, values: set<Text>)
    requires Faithful(p) && PlainEntries(entries) && Comparable(records, values) && ComparableEntries(entries, values)
    ensures Comparable(ApplyEntries(SqlRules(p), records, entries), values)
  {
    hide PlainRecord, Survives, Survivors, Added, ApplyEntries, SqlDeletes, Stored, Lasts, Faithful, Undotted;
    var d := SqlRules(p);
    UpdateShape(d, records, entries);
    forall x | x in ApplyEntries(d, records, entries) ensures Undotted(x) && x.value in values {
      if x in Survivors(d, records, entries) {
        SurvivorsMember(d, records, entries, x);
      } else {
        var i := AddedMember(d, entries, x);
        assert entries[i] in entries;
        SqlDeletesSpelled(p, entries[i], entries[i].record);
      }
    }
  }

  lemma {:induction false} SeparableStep(p: Postgres, zones: seq<Zone>, t: Table, u: Update, values: set<Text>)
    requires Faithful(p) && t.Valid() && CanonicalNames(zones) && Agree(zones, t) && PlainTable(t) && Accepted(u)
    requires Separable(values) && AllComparable(t, values) && (Effective(u) ==> ComparableEntries(u.entries, values))
    ensures Agree(UpdatedZones(zones, u), Persisted(p, t, u)) && AllComparable(Persisted(p, t, u), values)
  {
    hide Faithful, AllPlain, PlainEntries, UpdatedZones, LoadZone, CanonicalNames, Served, PersistEntries, ApplyEntries,
         Alike, Comparable, ComparableEntries, Separable;
    UpdateKeepsAgreementExactly(p, zones, t, u);
    if Effective(u) {
      LiteralOf(p, u.zoneName);
      var z := u.zoneName;
      SeparableIsAlike(p, LoadZone(t, z), u.entries, values);
      StaysComparable(p, LoadZone(t, z), u.entries, values);
      forall y ensures Comparable(LoadZone(Persisted(p, t, u), y), values) {
        PersistIsPass(p, t, z, u.entries, y);
      }
    }
  }

  /** So the copy in memory and the store agree after any run of plain updates if names are undotted and no two values
      differ in trailing dots alone. */
  lemma {:induction false} RunsAgree(p: Postgres, zones: seq<Zone>, t: Table, updates: seq<Update>, values: set<Text>)
    requires Faithful(p) && t.Valid() && CanonicalNames(zones) && Agree(zones, t) && PlainTable(t)
    requires Separable(values) && AllComparable(t, values)
    requires forall u :: u in updates ==> Accepted(u) && (Effective(u) ==> ComparableEntries(u.entries, values))
    ensures Agree(RunMemory(zones, updates), RunTable(p, t, updates))
    ensures AllComparable(RunTable(p, t, updates), values)
  {
    hide Faithful, Agree, PlainTable, Accepted, CanonicalNames, UpdatedZones, Persisted, Separable, AllComparable,
      ComparableEntries;
    if |updates| > 0 {
      var n := |updates| - 1;
      var first, u := updates[..n], updates[n];
      assert u in updates && forall v :: v in first ==> v in updates;
      RunsAgree(p, zones, t, first, values);
      RunsAgreeExactly(p, zones, t, first);
      SeparableStep(p, RunMemory(zones, first), RunTable(p, t, first), u, values);
    }
  }

  /** A retransmitted update leaves every zone's records as they were after the first. */
  lemma {:induction false} RetransmissionHarmless(zones: seq<Zone>, u: Update, y: Text)
    requires CanonicalNames(zones) && (Effective(u) ==> Canonical(u.zoneName) == u.zoneName)
    ensures Served(UpdatedZones(UpdatedZones(zones, u), u), y) == Served(UpdatedZones(zones, u), y)
  {
    hide *;
    UpdatedZonesServe(zones, u, y);
    UpdatedZonesServe(UpdatedZones(zones, u), u, y);
    UpdateIdempotent(Served(zones, y), u.entries);
  }

  /** In the store as well, on plain entries. */
  lemma {:induction false} StoredRetransmissionHarmless(p: Postgres, t: Table, u: Update, y: Text)
    requires Faithful(p) && t.Valid() && PlainEntries(u.entries)
    ensures LoadZone(Persisted(p, Persisted(p, t, u), u), y) == LoadZone(Persisted(p, t, u), y)
  {
    hide LoadZone, PersistEntries, ApplyEntries, Faithful, PlainRecord, SqlDeletes, Stored;
    if Effective(u) {
      PersistIsPass(p, t, u.zoneName, u.entries, y);
      PersistIsPass(p, Persisted(p, t, u), u.zoneName, u.entries, y);
      forall e | e in u.entries && Adds(e) ensures SqlDeletes(p, e, Stored(p, e.record)) {
        SqlDeletesSpelled(p, e, e.record);
      }
      TwiceIsOnce(SqlRules(p), LoadZone(t, y), u.entries);
    }
  }
}
