/** sync_ldap_group_memberships: one loop keeps the rows and the groupRids attributes in step
    (apps/directory/main.cpp). */
module GroupSync {
  import opened Octets
  import opened Texts
  import opened ValueLists
  import opened Attributes
  import opened Membership
  import opened Enrichment

  /** ad_objects by name, and the rows of ad_memberships as (group, member). */
  datatype Tables = Tables(objects: map<Text, AttributeList>, rows: set<Row>)

  /** Which SQL statements fail: the upsert of an object, the delete of a group's rows, the insert of a member's row. */
  datatype Faults = Faults(objects: set<Text>, clear: bool, rows: set<Text>)

  function MembersOf(attrs: AttributeList): (r: seq<Text>)
  {
    SplitText(Find(attrs, MEMBER).GetOr([]), true)
  }

  /** parse_u32_or(…, 0): zero when the attribute is missing, empty or not a number. */
  function RidOf(attrs: AttributeList): (r: u32)
  {
    ToU32(Find(attrs, RID).GetOr([])).GetOr(0)
  }

  /** The names the sync visits: the first spelling of each, compared without case. */
  function Affected(previous: seq<Text>, current: seq<Text>): (r: seq<Text>)
  {
    AddMissing(AddMissing([], NonEmpty(Trimmed(previous))), NonEmpty(Trimmed(current)))
  }

  /** The member loop, one visited name at a time. */
  function Visit(objects: map<Text, AttributeList>, names: seq<Text>, current: seq<Text>, rid: u32, failing: set<Text>)
      : (r: map<Text, AttributeList>)
  {
    if |names| == 0 then objects
    else
      var before := Visit(objects, names[..|names| - 1], current, rid, failing);
      var dn := names[|names| - 1];
      if dn !in before || dn in failing then before
      else before[dn := WithMembership(before[dn], rid, Contains(current, dn))]
  }

  function Synced(
      t: Tables, group: Text, rid: u32, previous: seq<Text>, current: seq<Text>, faults: Faults): (r: Tables)
  {
    if rid == 0 then t
    else
      var objects := Visit(t.objects, Affected(previous, current), current, rid, faults.objects);
      var others := if faults.clear then t.rows else set row | row in t.rows && row.0 != group;
      Tables(objects, others + set dn | dn in current && dn in objects && dn !in faults.rows :: (group, dn))
  }

  /** No statement that the sync executes fails. */
  ghost predicate AllSucceed(t: Tables, rid: u32, previous: seq<Text>, current: seq<Text>, faults: Faults) {
    rid == 0
    || (&& (forall dn :: dn in Affected(previous, current) && dn in t.objects ==> dn !in faults.objects)
        && !faults.clear
        && (forall dn :: dn in current && dn in t.objects ==> dn !in faults.rows))
  }

  /** An LDAP modify that touches the member attribute of a stored group. */
  datatype Change = Change(group: Text, name: Text, value: Text, operation: int)

  /** The group object as it is stored: modified, then enriched. */
  function StoredGroup(before: AttributeList, c: Change, d: Domain): (after: AttributeList)
  {
    EnrichedGroup(Modified(before, c.name, c.value, c.operation), c.group, d)
  }

  function Changed(t: Tables, c: Change, d: Domain, faults: Faults): (r: Tables)
    requires c.group in t.objects
  {
    var before := t.objects[c.group];
    var after := StoredGroup(before, c, d);
    if c.group in faults.objects then t
    else Synced(t.(objects := t.objects[c.group := after]), c.group, RidOf(after), MembersOf(before), MembersOf(after),
                faults)
  }

  // ---------- The program ----------

  class Directory {
    var objects: map<Text, AttributeList>
    var rows: set<Row>

    constructor (t: Tables)
      ensures State() == t
    {
      objects, rows := t.objects, t.rows;
    }

    ghost function State(): (t: Tables)
      reads this
    {
      Tables(objects, rows)
    }

    /** The member loop. */
    method VisitMembers(names: seq<Text>, current: seq<Text>, rid: u32, faults: Faults) returns (ok: bool)
      requires forall i :: 0 <= i < |names| ==> Trim(names[i]) == names[i] && names[i] != []
      requires NonEmpty(Trimmed(current)) == current
      modifies this`objects
      ensures objects == Visit(old(objects), names, current, rid, faults.objects)
      ensures objects.Keys == old(objects).Keys
      ensures ok <==> forall dn :: dn in names && dn in old(objects) ==> dn !in faults.objects
    {
      hide Trim, Contains, NonEmpty, Trimmed, WithMembership, Visit;
      ok := true;
      VisitStep(old(objects), names[..0], current, rid, faults.objects);
      for i := 0 to |names|
        invariant objects == Visit(old(objects), names[..i], current, rid, faults.objects)
        invariant objects.Keys == old(objects).Keys
        invariant ok <==> forall dn :: dn in names[..i] && dn in old(objects) ==> dn !in faults.objects
      {
        var dn := names[i];
        assert names[..i + 1] == names[..i] + [dn];
        assert names[..i + 1][..i] == names[..i];
        VisitStep(old(objects), names[..i + 1], current, rid, faults.objects);
        if dn in objects {
          var member := new AttributeMap(objects[dn]);
          var stays := AnyEquals(current, dn);
          ApplyGroupRidMembership(member, rid, stays);
          if dn in faults.objects {
            ok := false;
          } else {
            objects := objects[dn := member.entries];
          }
        }
      }
      assert names[..|names|] == names;
    }

    /** The loop that inserts rows; a row that exists already is left alone. */
    method InsertRows(group: Text, current: seq<Text>, faults: Faults) returns (ok: bool)
      modifies this`rows
      ensures rows == old(rows) + set dn | dn in current && dn in objects && dn !in faults.rows :: (group, dn)
      ensures ok <==> forall dn :: dn in current && dn in objects ==> dn !in faults.rows
    {
      ok := true;
      for i := 0 to |current|
        invariant rows == old(rows) + set dn | dn in current[..i] && dn in objects && dn !in faults.rows :: (group, dn)
        invariant ok <==> forall dn :: dn in current[..i] && dn in objects ==> dn !in faults.rows
      {
        var dn := current[i];
        assert current[..i + 1] == current[..i] + [dn];
        if dn in objects {
          if dn in faults.rows {
            ok := false;
          } else {
            rows := rows + {(group, dn)};
          }
        }
      }
      assert current[..|current|] == current;
    }

    /** sync_ldap_group_memberships */
    method SyncGroupMemberships(
        group: Text, attrs: AttributeList, previous: seq<Text>, faults: Faults) returns (ok: bool)
      modifies this
      ensures State() == Synced(old(State()), group, RidOf(attrs), previous, MembersOf(attrs), faults)
      ensures ok <==> AllSucceed(old(State()), RidOf(attrs), previous, MembersOf(attrs), faults)
    {
      hide Visit, NonEmpty, Trimmed, SplitText, Find, ToU32, AddMissing, Trim;
      var probe := new AttributeMap(attrs);
      var ridText := probe.FindAttribute(RID);
      var rid := ToU32(ridText.GetOr([])).GetOr(0);
      if rid == 0 {
        return true;
      }
      var memberText := probe.FindAttribute(MEMBER);
      var current := SplitIntoValues(memberText.GetOr([]), true);
      assert current == MembersOf(attrs);
      var affected := MergeValues([], previous);
      affected := MergeValues(affected, current);
      assert affected == Affected(previous, current);
      AffectedAreTrimmed(previous, current);
      MembersAreTrimmed(attrs);
      ok := VisitMembers(affected, current, rid, faults);
      if faults.clear {
        ok := false;
      } else {
        rows := set row | row in rows && row.0 != group;
      }
      var inserted := InsertRows(group, current, faults);
      ok := inserted && ok;
    }

    /** An LDAP modify of a group's member attribute: the object is modified, enriched and stored, then the memberships
        are synchronised. */
    method ModifyMembers(c: Change, d: Domain, faults: Faults) returns (ok: bool)
      requires c.group in objects
      modifies this
      ensures State() == Changed(old(State()), c, d, faults)
    {
      hide Modified, SplitText, Synced, Find, EnrichedGroup;
      var entry := new AttributeMap(objects[c.group]);
      var previousText := entry.FindAttribute(MEMBER);
      var previous := SplitIntoValues(previousText.GetOr([]), true);
      entry.ApplyModify(c.name, c.value, c.operation);
      EnrichGroup(entry, c.group, d);
      if c.group in faults.objects {
        return false;
      }
      objects := objects[c.group := entry.entries];
      ok := SyncGroupMemberships(c.group, entry.entries, previous, faults);
    }
  }

  lemma VisitStep(objects: map<Text, AttributeList>, names: seq<Text>, current: seq<Text>, rid: u32, failing: set<Text>)
    ensures Visit(objects, names, current, rid, failing)
         == if |names| == 0 then objects
            else
              var before := Visit(objects, names[..|names| - 1], current, rid, failing);
              var dn := names[|names| - 1];
              if dn !in before || dn in failing then before
              else before[dn := WithMembership(before[dn], rid, Contains(current, dn))]
  {
    hide Contains, WithMembership;
  }

  lemma NonEmptyTrimmed(values: seq<Text>)
    ensures forall v :: v in NonEmpty(Trimmed(values)) ==> Trim(v) == v && v != []
  {
    hide Trim, NonEmpty;
    forall v | v in NonEmpty(Trimmed(values)) ensures Trim(v) == v && v != [] {
      NonEmptyMember(Trimmed(values), v);
      var i :| 0 <= i < |values| && Trimmed(values)[i] == v;
      TrimTwice(values[i]);
    }
  }

  lemma AffectedAreTrimmed(previous: seq<Text>, current: seq<Text>)
    ensures forall i :: 0 <= i < |Affected(previous, current)|
              ==> Trim(Affected(previous, current)[i]) == Affected(previous, current)[i]
                  && Affected(previous, current)[i] != []
  {
    hide Trim, NonEmpty, Trimmed, AddMissing, Contains;
    var a, b := NonEmpty(Trimmed(previous)), NonEmpty(Trimmed(current));
    NonEmptyTrimmed(previous);
    NonEmptyTrimmed(current);
    AddMissingContains([], a);
    AddMissingContains(AddMissing([], a), b);
    forall v | v in Affected(previous, current) ensures Trim(v) == v && v != [] {
      assert v in AddMissing([], a) || v in Affected(previous, current)[|AddMissing([], a)|..];
      assert AddMissing([], a)[0..] == AddMissing([], a);
    }
  }

  lemma {:induction false} FilteredTwice(values: seq<Text>)
    requires forall v :: v in values ==> Trim(v) == v && v != []
    ensures NonEmpty(Trimmed(values)) == values
  {
    hide Trim, Trimmed;
    if |values| == 0 {
      assert Trimmed(values) == values;
    } else {
      var v, rest := values[0], values[1..];
      assert v in values && forall w :: w in rest ==> w in values;
      FilteredTwice(rest);
      assert values == [v] + rest;
      TrimmedFirst(v, rest);
      NonEmptyOne(v, Trimmed(rest));
    }
  }

  lemma {:induction false} MembersAreTrimmed(attrs: AttributeList)
    ensures NonEmpty(Trimmed(MembersOf(attrs))) == MembersOf(attrs)
    ensures forall v :: v in MembersOf(attrs) ==> Trim(v) == v && v != []
  {
    hide Find, NonEmpty, Trim, Trimmed, Pieces;
    NonEmptyTrimmed(Pieces(Find(attrs, MEMBER).GetOr([]), [], true));
    FilteredTwice(MembersOf(attrs));
  }

  // ---------- What one sync does ----------

  ghost predicate AllCaseUnique(objects: map<Text, AttributeList>) {
    forall dn :: dn in objects ==> CaseUnique(objects[dn])
  }

  /** Every name in the list that differs from a stored name only in case is that stored name. */
  ghost predicate SpelledAsStored(objects: map<Text, AttributeList>, names: seq<Text>) {
    forall n, dn :: n in names && dn in objects && Lower(n) == Lower(dn) ==> n == dn
  }

  ghost predicate IsMemberOf(attrs: AttributeList, rid: u32) {
    rid in RidsOf(attrs)
  }

  /** How an object's attributes look after the member loop. */
  ghost predicate Visited(
      before: AttributeList, after: AttributeList, dn: Text, names: seq<Text>, current: seq<Text>, rid: u32) {
    && CaseUnique(after)
    && (IsMemberOf(after, rid) <==> if dn in names then Contains(current, dn) else IsMemberOf(before, rid))
    && Without(RidsOf(after), rid) == Without(RidsOf(before), rid)
    && (forall r :: r != rid ==> (IsMemberOf(after, r) <==> IsMemberOf(before, r)))
    && (forall name :: !SameKey(GROUP_RIDS, name) ==> Find(after, name) == Find(before, name))
  }

  lemma {:induction false} VisitSpec(objects: map<Text, AttributeList>, names: seq<Text>, current: seq<Text>, rid: u32)
    requires AllCaseUnique(objects)
    ensures Visit(objects, names, current, rid, {}).Keys == objects.Keys
    ensures forall dn :: dn in objects
              ==> Visited(objects[dn], Visit(objects, names, current, rid, {})[dn], dn, names, current, rid)
  {
    hide CaseUnique, Contains, RidsOf, Find, WithMembership, Without, SameKey;
    if |names| > 0 {
      var first, last := names[..|names| - 1], names[|names| - 1];
      VisitSpec(objects, first, current, rid);
      assert names == first + [last];
      var before := Visit(objects, first, current, rid, {});
      if last in objects {
        assert Visited(objects[last], before[last], last, first, current, rid);
        MembershipChange(before[last], rid, Contains(current, last));
      }
    }
  }

  /** Faults outside the executed statements do not matter. */
  lemma {:induction false} VisitWithoutFaults(
      objects: map<Text, AttributeList>, names: seq<Text>, current: seq<Text>, rid: u32, failing: set<Text>)
    requires forall dn :: dn in names && dn in objects ==> dn !in failing
    ensures Visit(objects, names, current, rid, failing) == Visit(objects, names, current, rid, {})
    ensures Visit(objects, names, current, rid, failing).Keys == objects.Keys
  {
    hide Contains, WithMembership;
    if |names| > 0 {
      var first, last := names[..|names| - 1], names[|names| - 1];
      assert names == first + [last];
      VisitWithoutFaults(objects, first, current, rid, failing);
    }
  }

  /** After a successful sync of a group with an identifier: its rows are exactly the stored current members, the rows
      of other groups are as before, and every object is as the visits say. */
  lemma SyncSpec(t: Tables, group: Text, rid: u32, previous: seq<Text>, current: seq<Text>, faults: Faults)
    requires rid != 0 && AllCaseUnique(t.objects)
    requires AllSucceed(t, rid, previous, current, faults)
    ensures var r := Synced(t, group, rid, previous, current, faults);
            && r.objects.Keys == t.objects.Keys
            && (forall dn :: dn in t.objects
                  ==> Visited(t.objects[dn], r.objects[dn], dn, Affected(previous, current), current, rid))
            && (forall dn :: (group, dn) in r.rows <==> dn in current && dn in t.objects)
            && (forall other, dn :: other != group ==> ((other, dn) in r.rows <==> (other, dn) in t.rows))
  {
    hide Visited, Affected, AllCaseUnique;
    var names := Affected(previous, current);
    VisitSpec(t.objects, names, current, rid);
    VisitWithoutFaults(t.objects, names, current, rid, faults.objects);
  }

  /** Which names are visited when they are spelled as stored. */
  lemma AffectedSpelled(objects: map<Text, AttributeList>, previous: seq<Text>, current: seq<Text>, dn: Text)
    requires SpelledAsStored(objects, previous + current) && dn in objects
    requires forall v :: v in previous + current ==> Trim(v) == v && v != []
    ensures dn in Affected(previous, current) <==> dn in previous || dn in current
    ensures Contains(current, dn) <==> dn in current
  {
    hide Trim, AddMissing, NonEmpty, Trimmed, Lower;
    forall v | v in previous || v in current ensures Trim(v) == v && v != [] && (Lower(v) == Lower(dn) ==> v == dn) {
      assert v in previous + current;
    }
    FilteredTwice(previous);
    FilteredTwice(current);
    var a := AddMissing([], previous);
    var r := AddMissing(a, current);
    AddMissingContains([], previous);
    AddMissingContains(a, current);
    assert a[0..] == a;
    assert r == a + r[|a|..];
    forall v | v in r ensures v in previous || v in current {}
    if dn in previous {
      ContainsMember(previous, dn);
      ContainsPrefix(a, r, dn);
    }
    if dn in previous || dn in current {
      var i :| 0 <= i < |r| && Lower(r[i]) == Lower(dn);
      assert r[i] in r;
    }
  }

  lemma ContainsMember(values: seq<Text>, v: Text)
    requires v in values
    ensures Contains(values, v)
    ensures exists i :: 0 <= i < |values| && values[i] == v
  {
    hide Lower;
  }

  /** After a successful sync the rows and the groupRids of a stored object agree exactly when the visits reached the
      stored spelling, or had nothing to change there. */
  lemma AgreesExactlyWhen(
      t: Tables, group: Text, rid: u32, previous: seq<Text>, current: seq<Text>, faults: Faults, dn: Text)
    requires rid != 0 && AllCaseUnique(t.objects) && dn in t.objects
    requires AllSucceed(t, rid, previous, current, faults)
    ensures var r := Synced(t, group, rid, previous, current, faults);
            dn in r.objects
            && (((group, dn) in r.rows <==> IsMemberOf(r.objects[dn], rid))
                <==> if dn in Affected(previous, current) then Contains(current, dn) ==> dn in current
                     else IsMemberOf(t.objects[dn], rid) <==> dn in current)
  {
    hide Contains, Synced, Affected, IsMemberOf;
    SyncSpec(t, group, rid, previous, current, faults);
    assert Visited(t.objects[dn], Synced(t, group, rid, previous, current, faults).objects[dn], dn,
                   Affected(previous, current), current, rid);
    if dn in current {
      ContainsMember(current, dn);
    }
  }

  /** They do come apart: a member that was listed in another spelling and is now listed as stored gets its row, but
      the visits try the earlier spelling only and its groupRids stay without the group. */
  lemma {:induction false} SpellingsDiverge(group: Text, dn: Text, other: Text, rid: u32)
    requires rid != 0 && other != dn && Lower(other) == Lower(dn)
    requires dn != [] && Trim(dn) == dn && Trim(other) == other
    ensures var t := Tables(map[dn := []], {});
            var r := Synced(t, group, rid, [other], [dn], Faults({}, false, {}));
            (group, dn) in r.rows && dn in r.objects && !IsMemberOf(r.objects[dn], rid)
  {
    hide Trim, Lower, Affected, RidsOf, WithMembership, Contains;
    var empty: AttributeList := [];
    var t := Tables(map[dn := empty], {});
    FirstSpellingOnly(other, dn);
    assert [other][..0] == [];
    assert Visit(t.objects, [other], [dn], rid, {}) == Visit(t.objects, [], [dn], rid, {});
    assert dn in [dn];
    NoRids();
  }

  lemma FirstSpellingOnly(other: Text, dn: Text)
    requires Lower(other) == Lower(dn)
    requires dn != [] && Trim(dn) == dn && Trim(other) == other
    ensures Affected([other], [dn]) == [other]
  {
    hide Trim, Lower;
    assert other != [] by {
      assert |Lower(other)| == |other|;
    }
    FilteredTwice([other]);
    FilteredTwice([dn]);
    assert Contains([other], dn) by {
      assert [other][0] == other;
    }
    hide Contains, NonEmpty, Trimmed;
    AddedFirst(other);
    AddNothingNew([other], [dn]);
  }

  lemma AddedFirst(v: Text)
    ensures AddMissing([], [v]) == [v]
  {
    var none: seq<Text> := [];
    assert !Contains(none, v);
    AddMissingFirst(none, v, none);
    assert [v] + none == [v] && none + [v] == [v];
  }

  lemma NoRids()
    ensures RidsOf([]) == []
  {
    hide RidList, RidText;
    var none: seq<u32> := [];
    RidListRoundTrip(none);
    FindNone([], GROUP_RIDS);
  }

  // ---------- Runs ----------

  /** The rows, the groupRids and the member attribute of one group say the same. */
  ghost predicate InStep(t: Tables, g: Text)
    requires g in t.objects
  {
    RidOf(t.objects[g]) != 0 ==> forall dn :: dn in t.objects ==> PairInStep(t, g, dn)
  }

  ghost predicate PairInStep(t: Tables, g: Text, dn: Text)
    requires g in t.objects && dn in t.objects
  {
    && ((g, dn) in t.rows <==> dn in MembersOf(t.objects[g]))
    && (IsMemberOf(t.objects[dn], RidOf(t.objects[g])) <==> dn in MembersOf(t.objects[g]))
  }

  /** The change is one of the member attribute of a stored group, to names spelled as stored. */
  ghost predicate Acceptable(t: Tables, c: Change, d: Domain) {
    && c.group in t.objects && AllCaseUnique(t.objects)
    && SameKey(c.name, MEMBER)
    && !SetByRdn(c.group, MEMBER) && !SetByRdn(c.group, GROUP_RIDS)
    && SpelledAsStored(t.objects, MembersOf(t.objects[c.group]) + MembersOf(StoredGroup(t.objects[c.group], c, d)))
  }

  const NO_FAULTS := Faults({}, false, {})

  lemma NamesDiffer(name: Text)
    requires SameKey(name, MEMBER)
    ensures !SameKey(name, RID) && !SameKey(name, GROUP_RIDS)
    ensures !SameKey(GROUP_RIDS, RID) && !SameKey(GROUP_RIDS, MEMBER)
    ensures !Derived(GROUP_RIDS) && !Derived(MEMBER)
    ensures !SameKey(SAM, MEMBER) && !SameKey(SAM, RID) && !SameKey(SAM, GROUP_RIDS)
  {
    assert |Lower(name)| == |MEMBER| && |Lower(RID)| == 3 && |Lower(GROUP_RIDS)| == 9;
    assert |Lower(SAM)| == 14 && |Lower(OBJECT_SID)| == 9 && |Lower(GROUP_TYPE)| == 9;
    assert Lower(OBJECT_SID)[0] == 111 && Lower(GROUP_RIDS)[5] == 114 && Lower(GROUP_TYPE)[5] == 116;
  }

  /** The object has an identifier: the one it was given when it was added. */
  predicate Identified(attrs: AttributeList) {
    Find(attrs, RID).GetOr([]) != []
  }

  /** Storing the changed group object first disturbs nothing but its member list. */
  lemma {:induction false} StoreGroup(t: Tables, c: Change, d: Domain)
    requires Acceptable(t, c, d)
    ensures c.group in t.objects
    ensures var before := t.objects[c.group];
            var after := StoredGroup(before, c, d);
            && CaseUnique(after) && RidsOf(after) == RidsOf(before)
            && (Identified(before) ==> RidOf(after) == RidOf(before))
  {
    hide CaseUnique, Modified, Find, SameKey, RidList, ToU32, EnrichedGroup, SetByRdn, SpelledAsStored, Sorted, Derived;
    var before := t.objects[c.group];
    var modified := Modified(before, c.name, c.value, c.operation);
    NamesDiffer(c.name);
    ModifyKeepsInvariant(before, c.name, c.value, c.operation);
    EnrichmentKeeps(modified, c.group, d, GROUP_RIDS);
    if Identified(before) {
      EnrichmentKeeps(modified, c.group, d, RID);
    }
  }

  /** One object after an accepted modify. */
  ghost predicate Settled(
      before: AttributeList, after: AttributeList, dn: Text, previous: seq<Text>, current: seq<Text>, rid: u32) {
    && CaseUnique(after)
    && (forall r :: r != rid ==> (IsMemberOf(after, r) <==> IsMemberOf(before, r)))
    && (rid != 0 ==> (IsMemberOf(after, rid) <==>
          if dn in previous || dn in current then dn in current else IsMemberOf(before, rid)))
  }

  /** An accepted modify on all objects and rows: only the changed group's members, rows and identifier are touched. */
  lemma {:induction false} StepSpec(t: Tables, c: Change, d: Domain)
    requires Acceptable(t, c, d)
    ensures var after, r := StoredGroup(t.objects[c.group], c, d), Changed(t, c, d, NO_FAULTS);
            var rid, previous, current := RidOf(after), MembersOf(t.objects[c.group]), MembersOf(after);
            && r.objects.Keys == t.objects.Keys
            && (forall dn :: dn in t.objects ==> Settled(t.objects[dn], r.objects[dn], dn, previous, current, rid))
            && (forall dn :: dn in t.objects
                  ==> RidOf(r.objects[dn]) == if dn == c.group then rid else RidOf(t.objects[dn]))
            && (forall dn :: dn in t.objects ==>
                  MembersOf(r.objects[dn]) == if dn == c.group then current else MembersOf(t.objects[dn]))
            && (rid != 0 ==> forall dn :: (c.group, dn) in r.rows <==> dn in current && dn in t.objects)
            && (forall other, dn :: other != c.group ==> ((other, dn) in r.rows <==> (other, dn) in t.rows))
  {
    hide CaseUnique, StoredGroup, Find, RidOf, MembersOf, Synced, RidsOf, Visited, IsMemberOf, Settled;
    var before, after := t.objects[c.group], StoredGroup(t.objects[c.group], c, d);
    var stored := t.(objects := t.objects[c.group := after]);
    var rid, previous, current := RidOf(after), MembersOf(before), MembersOf(after);
    var r := Changed(t, c, d, NO_FAULTS);
    StoredUnique(t, c, d);
    if rid == 0 {
      NoSync(stored, c.group, previous, current);
      forall dn | dn in t.objects ensures Settled(t.objects[dn], r.objects[dn], dn, previous, current, rid) {
        SettledUnsynced(t, c, d, dn, previous, current);
      }
    } else {
      SyncSpec(stored, c.group, rid, previous, current, NO_FAULTS);
      forall dn | dn in t.objects
        ensures Settled(t.objects[dn], r.objects[dn], dn, previous, current, rid)
        ensures RidOf(r.objects[dn]) == RidOf(stored.objects[dn])
                && MembersOf(r.objects[dn]) == MembersOf(stored.objects[dn])
      {
        SettledSynced(t, c, d, dn, r.objects[dn]);
      }
    }
  }

  lemma {:induction false} StoredUnique(t: Tables, c: Change, d: Domain)
    requires Acceptable(t, c, d)
    ensures AllCaseUnique(t.objects[c.group := StoredGroup(t.objects[c.group], c, d)])
    ensures c.group in t.objects && AllCaseUnique(t.objects)
  {
    hide CaseUnique, StoredGroup, SpelledAsStored, SetByRdn, RidsOf, RidOf, Identified;
    StoreGroup(t, c, d);
  }

  lemma NoSync(t: Tables, group: Text, previous: seq<Text>, current: seq<Text>)
    ensures Synced(t, group, 0, previous, current, NO_FAULTS) == t
  {
    hide Visit, Affected;
  }

  lemma {:induction false} SettledUnsynced(
      t: Tables, c: Change, d: Domain, dn: Text, previous: seq<Text>, current: seq<Text>)
    requires Acceptable(t, c, d) && dn in t.objects
    ensures var objects := t.objects[c.group := StoredGroup(t.objects[c.group], c, d)];
            Settled(t.objects[dn], objects[dn], dn, previous, current, 0)
  {
    hide CaseUnique, StoredGroup, SpelledAsStored, SetByRdn, RidsOf, RidOf, Identified;
    StoreGroup(t, c, d);
  }

  lemma {:induction false} SettledSynced(t: Tables, c: Change, d: Domain, dn: Text, synced: AttributeList)
    requires Acceptable(t, c, d) && dn in t.objects
    requires var after := StoredGroup(t.objects[c.group], c, d);
             var previous, current := MembersOf(t.objects[c.group]), MembersOf(after);
             Visited(t.objects[c.group := after][dn], synced, dn, Affected(previous, current), current, RidOf(after))
    ensures var stored := t.objects[c.group := StoredGroup(t.objects[c.group], c, d)];
            var after := StoredGroup(t.objects[c.group], c, d);
            && Settled(t.objects[dn], synced, dn, MembersOf(t.objects[c.group]), MembersOf(after), RidOf(after))
            && RidOf(synced) == RidOf(stored[dn]) && MembersOf(synced) == MembersOf(stored[dn])
  {
    hide CaseUnique, StoredGroup, SpelledAsStored, SetByRdn, RidsOf, RidOf, Identified, Visited, Affected, MembersOf,
      Contains, IsMemberOf;
    var before, after := t.objects[c.group], StoredGroup(t.objects[c.group], c, d);
    var stored := t.objects[c.group := after];
    var previous, current := MembersOf(before), MembersOf(after);
    StoreGroup(t, c, d);
    VisitedKeeps(stored[dn], synced, dn, Affected(previous, current), current, RidOf(after));
    SameRids(stored[dn], t.objects[dn]);
    MembersAreTrimmed(before);
    MembersAreTrimmed(after);
    StoredSpelling(t, c, d);
    AffectedSpelled(stored, previous, current, dn);
  }

  lemma {:induction false} StoredSpelling(t: Tables, c: Change, d: Domain)
    requires Acceptable(t, c, d)
    ensures var before, after := t.objects[c.group], StoredGroup(t.objects[c.group], c, d);
            SpelledAsStored(t.objects[c.group := after], MembersOf(before) + MembersOf(after))
  {
    hide StoredGroup, MembersOf, Lower, CaseUnique, SetByRdn;
  }

  lemma SameRids(a: AttributeList, b: AttributeList)
    ensures RidsOf(a) == RidsOf(b) ==> forall r :: IsMemberOf(a, r) <==> IsMemberOf(b, r)
  {
    hide RidsOf;
  }

  lemma VisitedKeeps(
      before: AttributeList, after: AttributeList, dn: Text, names: seq<Text>, current: seq<Text>, rid: u32)
    requires Visited(before, after, dn, names, current, rid)
    ensures CaseUnique(after) && RidOf(after) == RidOf(before) && MembersOf(after) == MembersOf(before)
    ensures forall other :: other != rid ==> (IsMemberOf(after, other) <==> IsMemberOf(before, other))
    ensures IsMemberOf(after, rid) <==> if dn in names then Contains(current, dn) else IsMemberOf(before, rid)
  {
    hide CaseUnique, Find, RidsOf, SameKey, IsMemberOf, Contains, SplitText, ToU32, Derived;
    SameKeyReflexive(MEMBER);
    NamesDiffer(MEMBER);
  }

  /** Whatever state it was in before, a group with an identifier is in step after an accepted modify of its members
      exactly when no object outside its old and new members lists that identifier. */
  lemma {:induction false} ChangedGroupInStep(t: Tables, c: Change, d: Domain)
    requires Acceptable(t, c, d)
    ensures var after, r := StoredGroup(t.objects[c.group], c, d), Changed(t, c, d, NO_FAULTS);
            c.group in r.objects
            && (RidOf(after) != 0 ==>
                  (InStep(r, c.group) <==>
                     forall dn :: dn in t.objects && dn !in MembersOf(t.objects[c.group]) && dn !in MembersOf(after)
                       ==> !IsMemberOf(t.objects[dn], RidOf(after))))
  {
    hide CaseUnique, StoredGroup, RidOf, MembersOf, Changed, IsMemberOf, InStep, SpelledAsStored, SetByRdn;
    StepSpec(t, c, d);
    var after, r := StoredGroup(t.objects[c.group], c, d), Changed(t, c, d, NO_FAULTS);
    var rid, previous, current := RidOf(after), MembersOf(t.objects[c.group]), MembersOf(after);
    InStepIs(r, c.group);
    forall dn | dn in t.objects
      ensures rid != 0 ==>
        (PairInStep(r, c.group, dn) <==> (dn !in previous && dn !in current ==> !IsMemberOf(t.objects[dn], rid)))
    {
      assert Settled(t.objects[dn], r.objects[dn], dn, previous, current, rid);
    }
  }

  lemma InStepIs(t: Tables, g: Text)
    requires g in t.objects
    ensures InStep(t, g) <==> RidOf(t.objects[g]) == 0 || forall dn :: dn in t.objects ==> PairInStep(t, g, dn)
  {
    hide RidOf, PairInStep;
  }

  /** The change is one of another group, whose identifier is not that of g, or of g itself, which keeps its own. */
  predicate Apart(t: Tables, c: Change, d: Domain, g: Text)
    requires c.group in t.objects && g in t.objects
  {
    if g == c.group then Identified(t.objects[g])
    else
      var rid := RidOf(StoredGroup(t.objects[c.group], c, d));
      rid == 0 || rid != RidOf(t.objects[g])
  }

  /** Every other group with another identifier is in step after the modify exactly if it was before. */
  lemma {:induction false} OtherGroupsInStep(t: Tables, c: Change, d: Domain, g: Text)
    requires Acceptable(t, c, d) && g in t.objects && g != c.group && Apart(t, c, d, g)
    ensures var r := Changed(t, c, d, NO_FAULTS);
            g in r.objects && (InStep(r, g) <==> InStep(t, g))
  {
    hide CaseUnique, StoredGroup, RidOf, MembersOf, Changed, IsMemberOf, InStep, SpelledAsStored, SetByRdn;
    StepSpec(t, c, d);
    var after, r := StoredGroup(t.objects[c.group], c, d), Changed(t, c, d, NO_FAULTS);
    InStepIs(r, g);
    InStepIs(t, g);
    forall dn | dn in t.objects ensures RidOf(t.objects[g]) != 0 ==> (PairInStep(r, g, dn) <==> PairInStep(t, g, dn)) {
      assert Settled(t.objects[dn], r.objects[dn], dn, MembersOf(t.objects[c.group]), MembersOf(after), RidOf(after));
    }
  }

  /** So an accepted modify of any group's members keeps in step every group that was. */
  lemma {:induction false} StepKeepsInStep(t: Tables, c: Change, d: Domain, g: Text)
    requires Acceptable(t, c, d) && g in t.objects && Apart(t, c, d, g) && InStep(t, g)
    ensures var r := Changed(t, c, d, NO_FAULTS);
            r.objects.Keys == t.objects.Keys && AllCaseUnique(r.objects) && InStep(r, g)
  {
    hide CaseUnique, StoredGroup, RidOf, MembersOf, Changed, IsMemberOf, Acceptable, Identified;
    StepSpec(t, c, d);
    if g == c.group {
      ChangedGroupInStep(t, c, d);
      StillIdentified(t, c, d);
    } else {
      OtherGroupsInStep(t, c, d, g);
    }
  }

  lemma {:induction false} StillIdentified(t: Tables, c: Change, d: Domain)
    requires Acceptable(t, c, d)
    ensures Identified(t.objects[c.group]) ==> RidOf(StoredGroup(t.objects[c.group], c, d)) == RidOf(t.objects[c.group])
  {
    hide CaseUnique, StoredGroup, SpelledAsStored, SetByRdn, RidsOf, RidOf, Identified;
    StoreGroup(t, c, d);
  }

  function Ran(t: Tables, changes: seq<Change>, d: Domain): (r: Tables)
  {
    if |changes| == 0 then t
    else
      var before := Ran(t, changes[..|changes| - 1], d);
      var c := changes[|changes| - 1];
      if c.group in before.objects then Changed(before, c, d, NO_FAULTS) else before
  }

  /** Every run of accepted modifies keeps in step a group that was, whatever the other groups are like. */
  lemma {:induction false} RunsKeepInStep(t: Tables, changes: seq<Change>, d: Domain, g: Text)
    requires g in t.objects && InStep(t, g)
    requires forall k :: 0 <= k < |changes| ==>
               var before := Ran(t, changes[..k], d);
               Acceptable(before, changes[k], d) && g in before.objects && Apart(before, changes[k], d, g)
    ensures Ran(t, changes, d).objects.Keys == t.objects.Keys && InStep(Ran(t, changes, d), g)
  {
    hide InStep, Acceptable, Changed, Apart;
    if |changes| > 0 {
      var first := changes[..|changes| - 1];
      assert forall k :: 0 <= k < |first| ==> first[..k] == changes[..k];
      RunsKeepInStep(t, first, d, g);
      StepKeepsInStep(Ran(t, first, d), changes[|changes| - 1], d, g);
    }
  }
}
