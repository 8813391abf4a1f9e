/** Applying parsed updates to a list of records, as the network daemon's copy in memory does it and, under other rules,
    its SQL statements (apps/network/main.cpp). */
module DnsStore {
  import opened Octets
  import opened Texts
  import opened DnsNames
  import opened DnsZones
  import opened DnsUpdates

  // ---------- One update as a transformation of a record list ----------

  /** dns_records_match_for_delete */
  predicate MatchesForDelete(candidate: Record, requested: Record, deleteRrset: bool) {
    && Canonical(candidate.name) == Canonical(requested.name)
    && (Lower(requested.rtype) == Lower(NAME_ANY) || Lower(candidate.rtype) == Lower(requested.rtype))
    && (deleteRrset || requested.value == [] || Canonical(candidate.value) == Canonical(requested.value))
  }

  predicate Deletes(e: Entry, candidate: Record) {
    MatchesForDelete(candidate, e.record, e.deleteRrset || !e.deletion)
  }

  predicate Adds(e: Entry) {
    !e.deletion && e.record.value != []
  }

  /** How one side treats an entry: which records it deletes, and what it keeps of a record that is added. */
  datatype Rules = Rules(deletes: (Entry, Record) -> bool, stored: Record -> Record)

  const MEMORY := Rules((e, x) => Deletes(e, x), x => x)

  lemma MemoryIsDeletes()
    ensures forall e, x :: MEMORY.deletes(e, x) == Deletes(e, x)
  {
    hide Deletes;
  }

  function Without(d: Rules, records: seq<Record>, e: Entry): (r: seq<Record>)
  {
    if |records| == 0 then []
    else (if d.deletes(e, records[0]) then [] else [records[0]]) + Without(d, records[1..], e)
  }

  /** What an entry appends. */
  function Own(d: Rules, e: Entry): (r: seq<Record>) {
    if Adds(e) then [d.stored(e.record)] else []
  }

  function ApplyEntry(d: Rules, records: seq<Record>, e: Entry): (r: seq<Record>)
  {
    Without(d, records, e) + Own(d, e)
  }

  function ApplyEntries(d: Rules, records: seq<Record>, entries: seq<Entry>): (r: seq<Record>)
    decreases |entries|
  {
    if |entries| == 0 then records else ApplyEntries(d, ApplyEntry(d, records, entries[0]), entries[1..])
  }

  /** The flag `changed` of the in-memory loop. */
  function Changes(d: Rules, records: seq<Record>, entries: seq<Entry>): (b: bool)
    decreases |entries|
  {
    if |entries| == 0 then false
    else
      || |Without(d, records, entries[0])| != |records|
      || Adds(entries[0])
      || Changes(d, ApplyEntry(d, records, entries[0]), entries[1..])
  }

  // ---------- The shape of an update ----------

  predicate Survives(d: Rules, x: Record, entries: seq<Entry>) {
    forall i :: 0 <= i < |entries| ==> !d.deletes(entries[i], x)
  }

  function Survivors(d: Rules, records: seq<Record>, entries: seq<Entry>): (r: seq<Record>)
  {
    if |records| == 0 then []
    else (if Survives(d, records[0], entries) then [records[0]] else []) + Survivors(d, records[1..], entries)
  }

  /** The entry adds a record that no later entry deletes. */
  predicate Lasts(d: Rules, e: Entry, later: seq<Entry>) {
    Adds(e) && Survives(d, d.stored(e.record), later)
  }

  /** The records an update leaves behind whatever was there before. */
  function Added(d: Rules, entries: seq<Entry>): (r: seq<Record>)
  {
    if |entries| == 0 then []
    else
      (if Lasts(d, entries[0], entries[1..]) then [d.stored(entries[0].record)] else []) + Added(d, entries[1..])
  }

  lemma WithoutStep(d: Rules, records: seq<Record>, e: Entry)
    ensures Without(d, records, e)
         == if |records| == 0 then []
            else (if d.deletes(e, records[0]) then [] else [records[0]]) + Without(d, records[1..], e)
  {
  }

  lemma {:induction false} WithoutMember(d: Rules, records: seq<Record>, e: Entry, x: Record)
    ensures x in Without(d, records, e) <==> x in records && !d.deletes(e, x)
  {
    if |records| > 0 {
      WithoutMember(d, records[1..], e, x);
    }
  }

  lemma {:induction false} SurvivorsMember(d: Rules, records: seq<Record>, entries: seq<Entry>, x: Record)
    ensures x in Survivors(d, records, entries) <==> x in records && Survives(d, x, entries)
  {
    hide Survives;
    if |records| > 0 {
      SurvivorsMember(d, records[1..], entries, x);
    }
  }

  /** Whatever an update adds comes from an entry that no later entry undoes. */
  lemma {:induction false} AddedMember(d: Rules, entries: seq<Entry>, x: Record) returns (i: nat)
    requires x in Added(d, entries)
    ensures i < |entries| && Lasts(d, entries[i], entries[i + 1..]) && d.stored(entries[i].record) == x
  {
    hide Lasts;
    if Lasts(d, entries[0], entries[1..]) && d.stored(entries[0].record) == x {
      i := 0;
    } else {
      var j := AddedMember(d, entries[1..], x);
      assert entries[1..][j + 1..] == entries[j + 2..];
      i := j + 1;
    }
  }

  lemma {:induction false} SurvivorsConcat(d: Rules, a: seq<Record>, b: seq<Record>, entries: seq<Entry>)
    ensures Survivors(d, a + b, entries) == Survivors(d, a, entries) + Survivors(d, b, entries)
  {
    hide Survives;
    if |a| == 0 {
      assert a + b == b;
    } else {
      var first := if Survives(d, a[0], entries) then [a[0]] else [];
      SurvivorsConcat(d, a[1..], b, entries);
      assert (a + b)[1..] == a[1..] + b;
      assert first + (Survivors(d, a[1..], entries) + Survivors(d, b, entries))
          == (first + Survivors(d, a[1..], entries)) + Survivors(d, b, entries);
    }
  }

  lemma SurvivesFirst(d: Rules, x: Record, entries: seq<Entry>)
    requires |entries| > 0
    ensures Survives(d, x, entries) <==> !d.deletes(entries[0], x) && Survives(d, x, entries[1..])
  {
    assert forall i :: 0 < i < |entries| ==> entries[i] == entries[1..][i - 1];
    assert forall i :: 0 <= i < |entries| - 1 ==> entries[1..][i] == entries[i + 1];
  }

  lemma {:induction false} SurvivorsOfWithout(d: Rules, records: seq<Record>, entries: seq<Entry>)
    requires |entries| > 0
    ensures Survivors(d, Without(d, records, entries[0]), entries[1..]) == Survivors(d, records, entries)
  {
    hide Survives;
    if |records| > 0 {
      SurvivesFirst(d, records[0], entries);
      SurvivorsOfWithout(d, records[1..], entries);
      var rest := Without(d, records[1..], entries[0]);
      if !d.deletes(entries[0], records[0]) {
        assert ([records[0]] + rest)[1..] == rest;
      } else {
        assert [] + rest == rest;
      }
    }
  }

  lemma {:induction false} SurvivorsOfAll(d: Rules, records: seq<Record>)
    ensures Survivors(d, records, []) == records
  {
    if |records| > 0 {
      SurvivorsOfAll(d, records[1..]);
      assert Survives(d, records[0], []);
      assert records == [records[0]] + records[1..];
    }
  }

  /** One pass keeps the records no entry deletes, in order, and appends a list that depends on the update alone. */
  lemma {:induction false} UpdateShape(d: Rules, records: seq<Record>, entries: seq<Entry>)
    ensures ApplyEntries(d, records, entries) == Survivors(d, records, entries) + Added(d, entries)
    decreases |entries|
  {
    hide *;
    ShapeCases(d, records, entries);
    if |entries| == 0 {
      SurvivorsOfAll(d, records);
      assert records + [] == records;
    } else {
      var e, rest := entries[0], entries[1..];
      var kept := Without(d, records, e);
      UpdateShape(d, kept + Own(d, e), rest);
      SurvivorsConcat(d, kept, Own(d, e), rest);
      SurvivorsOfWithout(d, records, entries);
      OwnSurvivor(d, e, rest);
      var ownKept := if Lasts(d, e, rest) then [d.stored(e.record)] else [];
      ConcatAssociates(Survivors(d, records, entries), ownKept, Added(d, rest));
    }
  }

  lemma ShapeCases(d: Rules, records: seq<Record>, entries: seq<Entry>)
    ensures |entries| == 0 ==> ApplyEntries(d, records, entries) == records && Added(d, entries) == [] && entries == []
    ensures |entries| > 0 ==>
              ApplyEntries(d, records, entries)
              == ApplyEntries(d, Without(d, records, entries[0]) + Own(d, entries[0]), entries[1..])
    ensures |entries| > 0 ==>
              Added(d, entries)
              == (if Lasts(d, entries[0], entries[1..]) then [d.stored(entries[0].record)]
                  else []) + Added(d, entries[1..])
  {
    hide Without, Lasts, Own;
  }

  lemma OwnSurvivor(d: Rules, e: Entry, rest: seq<Entry>)
    ensures Survivors(d, Own(d, e), rest) == if Lasts(d, e, rest) then [d.stored(e.record)] else []
  {
    hide Survives;
    if Adds(e) {
      assert [d.stored(e.record)][1..] == [];
    }
  }

  lemma {:induction false} NoSurvivors(d: Rules, records: seq<Record>, entries: seq<Entry>)
    requires forall x :: x in records ==> !Survives(d, x, entries)
    ensures Survivors(d, records, entries) == []
  {
    if |records| > 0 {
      assert records[0] in records;
      NoSurvivors(d, records[1..], entries);
    }
  }

  lemma {:induction false} SurvivorsAgain(d: Rules, records: seq<Record>, entries: seq<Entry>)
    ensures Survivors(d, Survivors(d, records, entries), entries) == Survivors(d, records, entries)
  {
    hide Survives;
    if |records| > 0 {
      SurvivorsAgain(d, records[1..], entries);
      if Survives(d, records[0], entries) {
        var rest := Survivors(d, records[1..], entries);
        assert ([records[0]] + rest)[1..] == rest;
      } else {
        assert [] + Survivors(d, records[1..], entries) == Survivors(d, records[1..], entries);
      }
    }
  }

  /** Every entry that adds a record deletes it when it is applied again. */
  ghost predicate DeletesItself(d: Rules, entries: seq<Entry>) {
    forall e :: e in entries && Adds(e) ==> d.deletes(e, d.stored(e.record))
  }

  /** Retransmission is harmless under all such rules: applying an update twice is applying it once. */
  lemma {:induction false} TwiceIsOnce(d: Rules, records: seq<Record>, entries: seq<Entry>)
    requires DeletesItself(d, entries)
    ensures ApplyEntries(d, ApplyEntries(d, records, entries), entries) == ApplyEntries(d, records, entries)
  {
    hide *;
    var once := ApplyEntries(d, records, entries);
    var kept, added := Survivors(d, records, entries), Added(d, entries);
    UpdateShape(d, records, entries);
    UpdateShape(d, once, entries);
    SurvivorsConcat(d, kept, added, entries);
    SurvivorsAgain(d, records, entries);
    forall x | x in added ensures !Survives(d, x, entries) {
      AddedIsDeleted(d, entries, x);
    }
    NoSurvivors(d, added, entries);
    assert kept + [] + added == kept + added;
  }

  lemma {:induction false} AddedIsDeleted(d: Rules, entries: seq<Entry>, x: Record)
    requires DeletesItself(d, entries) && x in Added(d, entries)
    ensures !Survives(d, x, entries)
  {
    hide Added;
    var i := AddedMember(d, entries, x);
    assert entries[i] in entries;
  }

  /** In memory every add deletes itself, so a retransmission changes nothing. */
  lemma {:induction false} UpdateIdempotent(records: seq<Record>, entries: seq<Entry>)
    ensures ApplyEntries(MEMORY, ApplyEntries(MEMORY, records, entries), entries)
         == ApplyEntries(MEMORY, records, entries)
  {
    hide ApplyEntries;
    TwiceIsOnce(MEMORY, records, entries);
  }

  // ---------- Two sets of rules ----------

  /** Among these records and these entries, whatever d deletes m deletes too, and both keep added records alike. */
  ghost predicate NoStricter(d: Rules, m: Rules, records: seq<Record>, entries: seq<Entry>) {
    && (forall e, x :: e in entries && x in records && d.deletes(e, x) ==> m.deletes(e, x))
    && (forall e, f :: e in entries && f in entries && Adds(f) && d.deletes(e, d.stored(f.record))
          ==> m.deletes(e, d.stored(f.record)))
    && (forall e :: e in entries && Adds(e) ==> d.stored(e.record) == m.stored(e.record))
  }

  /** Every record that some entry deletes under m is deleted by some entry under d. */
  ghost predicate DeletedAlike(d: Rules, m: Rules, records: seq<Record>, entries: seq<Entry>) {
    forall x :: x in records && Survives(d, x, entries) ==> Survives(m, x, entries)
  }

  /** The record added by entry k outlives the entries behind it. */
  predicate Outlives(d: Rules, entries: seq<Entry>, k: nat)
    requires k < |entries|
  {
    Lasts(d, entries[k], entries[k + 1..])
  }

  /** And so is every added record by the entries behind it. */
  ghost predicate OverriddenAlike(d: Rules, m: Rules, entries: seq<Entry>) {
    forall k :: 0 <= k < |entries| && Outlives(d, entries, k) ==> Outlives(m, entries, k)
  }

  lemma {:induction false} SurvivorsCompare(d: Rules, m: Rules, records: seq<Record>, entries: seq<Entry>)
    requires forall x :: x in records && Survives(m, x, entries) ==> Survives(d, x, entries)
    ensures |Survivors(m, records, entries)| <= |Survivors(d, records, entries)|
    ensures |Survivors(m, records, entries)| == |Survivors(d, records, entries)|
       <==> DeletedAlike(d, m, records, entries)
    ensures DeletedAlike(d, m, records, entries) ==> Survivors(m, records, entries) == Survivors(d, records, entries)
  {
    hide Survives;
    if |records| > 0 {
      var first, rest := records[0], records[1..];
      assert first in records && forall x :: x in rest ==> x in records;
      assert forall x :: x in records ==> x == first || x in rest by {
        assert records == [first] + rest;
      }
      SurvivorsCompare(d, m, rest, entries);
      assert DeletedAlike(d, m, records, entries)
        <==> DeletedAlike(d, m, rest, entries) && (Survives(d, first, entries) ==> Survives(m, first, entries));
    }
  }

  lemma {:induction false} OverriddenFirst(d: Rules, m: Rules, entries: seq<Entry>)
    requires |entries| > 0
    ensures OverriddenAlike(d, m, entries)
       <==> && (Lasts(d, entries[0], entries[1..]) ==> Lasts(m, entries[0], entries[1..]))
            && OverriddenAlike(d, m, entries[1..])
  {
    hide Outlives;
    var rest := entries[1..];
    forall k: nat | k < |rest|
      ensures Outlives(d, rest, k) == Outlives(d, entries, k + 1) && Outlives(m, rest, k) == Outlives(m, entries, k + 1)
    {
      OutlivesLater(d, entries, k);
      OutlivesLater(m, entries, k);
    }
    OutlivesFirst(d, entries);
    OutlivesFirst(m, entries);
    if OverriddenAlike(d, m, rest) && (Outlives(d, entries, 0) ==> Outlives(m, entries, 0)) {
      forall k: nat | k < |entries| && Outlives(d, entries, k) ensures Outlives(m, entries, k) {
        if k > 0 {
          assert Outlives(d, rest, k - 1) == Outlives(d, entries, k - 1 + 1);
        }
      }
    }
  }

  lemma OutlivesLater(d: Rules, entries: seq<Entry>, k: nat)
    requires k + 1 < |entries|
    ensures Outlives(d, entries[1..], k) == Outlives(d, entries, k + 1)
  {
    hide Lasts;
    assert entries[1..][k + 1..] == entries[k + 1 + 1..];
  }

  lemma OutlivesFirst(d: Rules, entries: seq<Entry>)
    requires |entries| > 0
    ensures Outlives(d, entries, 0) == Lasts(d, entries[0], entries[1..])
  {
    hide Lasts;
  }

  lemma {:induction false} AddedCompare(d: Rules, m: Rules, entries: seq<Entry>)
    requires OverriddenAlike(m, d, entries)
    requires forall e :: e in entries && Adds(e) ==> d.stored(e.record) == m.stored(e.record)
    ensures |Added(m, entries)| <= |Added(d, entries)|
    ensures |Added(m, entries)| == |Added(d, entries)| <==> OverriddenAlike(d, m, entries)
    ensures OverriddenAlike(d, m, entries) ==> Added(m, entries) == Added(d, entries)
  {
    hide Survives, OverriddenAlike;
    if |entries| == 0 {
      NothingOverridden(d, m);
    } else {
      assert entries[0] in entries && forall e :: e in entries[1..] ==> e in entries;
      OverriddenFirst(m, d, entries);
      OverriddenFirst(d, m, entries);
      AddedCompare(d, m, entries[1..]);
    }
  }

  lemma NothingOverridden(d: Rules, m: Rules)
    ensures OverriddenAlike(d, m, [])
  {
  }

  lemma {:induction false} AddedMoreOften(d: Rules, m: Rules, records: seq<Record>, entries: seq<Entry>)
    requires NoStricter(d, m, records, entries)
    ensures OverriddenAlike(m, d, entries)
  {
    forall k: nat | k < |entries| && Outlives(m, entries, k) ensures Outlives(d, entries, k) {
      assert entries[k] in entries;
      var later := entries[k + 1..];
      forall i | 0 <= i < |later| ensures !d.deletes(later[i], d.stored(entries[k].record)) {
        assert later[i] in entries;
      }
    }
  }

  /** Under such rules the two sides end with the same list exactly when every record that m loses, d loses as well. */
  lemma {:induction false} PassesAgreeExactly(d: Rules, m: Rules, records: seq<Record>, entries: seq<Entry>)
    requires NoStricter(d, m, records, entries)
    ensures ApplyEntries(d, records, entries) == ApplyEntries(m, records, entries)
       <==> DeletedAlike(d, m, records, entries) && OverriddenAlike(d, m, entries)
  {
    hide ApplyEntries, Survivors, Added, DeletedAlike, OverriddenAlike;
    forall x | x in records && Survives(m, x, entries) ensures Survives(d, x, entries) {
      forall i | 0 <= i < |entries| ensures !d.deletes(entries[i], x) {
        assert entries[i] in entries;
      }
    }
    AddedMoreOften(d, m, records, entries);
    UpdateShape(d, records, entries);
    UpdateShape(m, records, entries);
    SurvivorsCompare(d, m, records, entries);
    AddedCompare(d, m, entries);
  }

  // ---------- Visibility ----------

  predicate SameSet(a: Record, b: Record) {
    Canonical(a.name) == Canonical(b.name) && Lower(a.rtype) == Lower(b.rtype)
  }

  lemma {:induction false} ApplyConcat(d: Rules, records: seq<Record>, a: seq<Entry>, b: seq<Entry>)
    ensures ApplyEntries(d, records, a + b) == ApplyEntries(d, ApplyEntries(d, records, a), b)
    decreases |a|
  {
    if |a| == 0 {
      assert a + b == b;
    } else {
      assert (a + b)[0] == a[0] && (a + b)[1..] == a[1..] + b;
      ApplyConcat(d, ApplyEntry(d, records, a[0]), a[1..], b);
    }
  }

  /** An add that nothing later deletes ends up in the list, alone in its (name, type) set. */
  lemma AddedAlone(records: seq<Record>, entries: seq<Entry>, k: nat) returns (left: seq<Record>, right: seq<Record>)
    requires k < |entries| && Lasts(MEMORY, entries[k], entries[k + 1..])
    ensures ApplyEntries(MEMORY, records, entries) == left + [entries[k].record] + right
    ensures forall x :: x in left || x in right ==> !SameSet(x, entries[k].record)
  {
    hide Deletes, Survives, Without, Survivors, Added, ApplyEntries, SameSet;
    var e, before, after := entries[k], entries[..k], entries[k + 1..];
    var r := e.record;
    assert entries == before + ([e] + after);
    ApplyConcat(MEMORY, records, before, [e] + after);
    var middle := ApplyEntries(MEMORY, records, before);
    ApplyFirst(middle, e, after);
    var kept := Without(MEMORY, middle, e);
    UpdateShape(MEMORY, kept + [r], after);
    SurvivorsConcat(MEMORY, kept, [r], after);
    OwnSurvivor(MEMORY, e, after);
    left, right := Survivors(MEMORY, kept, after), Added(MEMORY, after);
    forall x | x in left ensures !SameSet(x, r) {
      SurvivorsMember(MEMORY, kept, after, x);
      WithoutMember(MEMORY, middle, e, x);
      AddReplaces(e, x);
    }
    forall x | x in right ensures !SameSet(x, r) {
      var i := AddedMember(MEMORY, after, x);
      StillThere(r, after, i);
      AddReplaces(after[i], r);
    }
  }

  lemma ApplyFirst(records: seq<Record>, e: Entry, after: seq<Entry>)
    requires Adds(e)
    ensures ApplyEntries(MEMORY, records, [e] + after)
         == ApplyEntries(MEMORY, Without(MEMORY, records, e) + [e.record], after)
  {
    assert ([e] + after)[1..] == after;
  }

  /** An add replaces the whole (name, type) set. */
  lemma AddReplaces(e: Entry, x: Record)
    requires Adds(e) && !Deletes(e, x)
    ensures !SameSet(x, e.record) && !SameSet(e.record, x)
  {
  }

  lemma StillThere(r: Record, after: seq<Entry>, i: nat)
    requires Survives(MEMORY, r, after) && i < |after|
    ensures !Deletes(after[i], r)
  {
  }

  predicate IsRelative(name: Text, zoneName: Text) {
    name == AT_SIGN || (name != [] && Canonical(name) != zoneName && !EndsWith(Canonical(name), [DOT] + zoneName))
  }

  /** Records in relative form answer the same question only if they are in the same (name, type) set. */
  lemma SameQuestionSameSet(q: Question, zone: Zone, a: Record, b: Record)
    requires q.qtype != TYPE_ANY && MatchesQuestion(q, zone, a) && MatchesQuestion(q, zone, b)
    requires IsRelative(a.name, Canonical(zone.name)) && IsRelative(b.name, Canonical(zone.name))
    ensures SameSet(a, b)
  {
    hide TypeCode, Canonical;
    TypeCodeInjective(a.rtype, b.rtype);
    var z := Canonical(zone.name);
    var fa, fb := RecordFqdn(zone, a), RecordFqdn(zone, b);
    if a.name != AT_SIGN && b.name != AT_SIGN {
      assert fa == Canonical(a.name) + ([DOT] + z) && fb == Canonical(b.name) + ([DOT] + z);
      assert Canonical(a.name) == fa[..|fa| - |z| - 1] && Canonical(b.name) == fb[..|fb| - |z| - 1];
    }
  }

  lemma {:induction false} NoneMatching(q: Question, zone: Zone, records: seq<Record>)
    requires forall x :: x in records ==> !MatchesQuestion(q, zone, x)
    ensures MatchingIn(q, zone, records) == []
  {
    if |records| > 0 {
      assert records[0] in records;
      NoneMatching(q, zone, records[1..]);
    }
  }

  /** Visibility: after an update whose k-th entry adds a record no later entry deletes, a question for the record's
      own name and type finds that record in the zone; and it is the zone's only answer when all names kept in the
      zone are in relative form. */
  lemma {:induction false} UpdateVisible(zone: Zone, entries: seq<Entry>, k: nat, q: Question)
    requires k < |entries| && Lasts(MEMORY, entries[k], entries[k + 1..])
    requires q.qtype != TYPE_ANY && MatchesQuestion(q, zone, entries[k].record)
    ensures entries[k].record in MatchingIn(q, zone, ApplyEntries(MEMORY, zone.records, entries))
    ensures (forall x :: x in ApplyEntries(MEMORY, zone.records, entries) ==> IsRelative(x.name, Canonical(zone.name)))
              ==> MatchingIn(q, zone, ApplyEntries(MEMORY, zone.records, entries)) == [entries[k].record]
  {
    hide MatchesQuestion, IsRelative, SameSet;
    var r := entries[k].record;
    var left, right := AddedAlone(zone.records, entries, k);
    var records := ApplyEntries(MEMORY, zone.records, entries);
    if forall x :: x in records ==> IsRelative(x.name, Canonical(zone.name)) {
      forall x | x in left || x in right ensures !MatchesQuestion(q, zone, x) {
        assert x in records && r in records;
        if MatchesQuestion(q, zone, x) {
          SameQuestionSameSet(q, zone, x, r);
        }
      }
      NoneMatching(q, zone, left);
      NoneMatching(q, zone, right);
      MatchingInConcat(q, zone, left + [r], right);
      MatchingInConcat(q, zone, left, [r]);
      assert [r][1..] == [];
    }
  }

  /** The same for the owner name the client sent, at the apex or plainly below it. */
  lemma {:induction false} OwnerVisible(
      zone: Zone, updateZone: UpdateZone, entries: seq<Entry>, k: nat, owner: Text, q: Question)
    requires k < |entries| && Lasts(MEMORY, entries[k], entries[k + 1..])
    requires updateZone.storageName == Canonical(zone.name) != []
    requires entries[k].record.name == RelativeUpdateName(owner, updateZone)
    requires Canonical(owner) == Canonical(zone.name)
          || (EndsWith(Canonical(owner), [DOT] + Canonical(zone.name))
              && PlainRelative(entries[k].record.name, Canonical(zone.name)))
    requires q.name == Canonical(owner) && q.qtype == TypeCode(entries[k].record.rtype) != 0 && q.qtype != TYPE_ANY
    requires q.qclass == CLASS_IN
    ensures entries[k].record in MatchingIn(q, zone, ApplyEntries(MEMORY, zone.records, entries))
    ensures (forall x :: x in ApplyEntries(MEMORY, zone.records, entries) ==> IsRelative(x.name, Canonical(zone.name)))
              ==> MatchingIn(q, zone, ApplyEntries(MEMORY, zone.records, entries)) == [entries[k].record]
  {
    FqdnOfRelativeName(owner, zone, updateZone, entries[k].record);
    UpdateVisible(zone, entries, k, q);
  }
}
