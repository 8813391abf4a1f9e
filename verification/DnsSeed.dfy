/** Merging the Active Directory seed zone into the stored zones (libs/protocol/src/dns.cpp). */
module DnsSeed {
  import opened Octets
  import opened Texts
  import opened DnsZones
  import opened DnsReplicas

  /** Records equal up to the case of their texts and trailing dots; the time to live does not count. */
  predicate SameRecord(a: Record, b: Record) {
    && Canonical(a.name) == Canonical(b.name)
    && Lower(a.rtype) == Lower(b.rtype)
    && Canonical(a.value) == Canonical(b.value)
    && Lower(a.dnsClass) == Lower(b.dnsClass)
    && a.priority == b.priority && a.weight == b.weight && a.port == b.port && a.flags == b.flags
  }

  predicate Holds(records: seq<Record>, r: Record) {
    exists i :: 0 <= i < |records| && SameRecord(records[i], r)
  }

  function WithMissing(records: seq<Record>, seed: seq<Record>): (r: seq<Record>)
    decreases |seed|
  {
    if |seed| == 0 then records
    else WithMissing(if Holds(records, seed[0]) then records else records + [seed[0]], seed[1..])
  }

  function Max(a: u64, b: u64): (m: u64) {
    if a < b then b else a
  }

  /** merge_active_directory_dns_zone */
  function Merged(zones: seq<Zone>, seed: Zone): (r: seq<Zone>)
  {
    var i := FindZone(zones, seed.name);
    if i == |zones| then zones + [seed]
    else zones[i := zones[i].(serial := Max(zones[i].serial, seed.serial),
                              records := WithMissing(zones[i].records, seed.records))]
  }

  method MergeSeed(list: ZoneList, seed: Zone)
    modifies list
    ensures list.zones == Merged(old(list.zones), seed)
  {
    hide Holds, Canonical;
    var i := FindZone(list.zones, seed.name);
    if i == |list.zones| {
      list.zones := list.zones + [seed];
      return;
    }
    ghost var before := list.zones[i];
    list.zones := list.zones[i := list.zones[i].(serial := Max(list.zones[i].serial, seed.serial))];
    assert seed.records[0..] == seed.records;
    for k := 0 to |seed.records|
      invariant |list.zones| == |old(list.zones)|
      invariant list.zones
             == old(list.zones)[i := before.(serial := Max(before.serial, seed.serial),
                                             records := list.zones[i].records)]
      invariant WithMissing(list.zones[i].records, seed.records[k..]) == WithMissing(before.records, seed.records)
    {
      assert seed.records[k..][1..] == seed.records[k + 1..];
      var found := Search(list.zones[i].records, seed.records[k]);
      if !found {
        list.zones := list.zones[i := list.zones[i].(records := list.zones[i].records + [seed.records[k]])];
      }
    }
  }

  method Search(records: seq<Record>, r: Record) returns (found: bool)
    ensures found <==> Holds(records, r)
  {
    hide SameRecord;
    for i := 0 to |records|
      invariant forall j :: 0 <= j < i ==> !SameRecord(records[j], r)
    {
      if SameRecord(records[i], r) {
        return true;
      }
    }
    return false;
  }

  /** The stored records stay in front, and every seed record is held afterwards. */
  lemma {:induction false} WithMissingHolds(records: seq<Record>, seed: seq<Record>)
    ensures records <= WithMissing(records, seed)
    ensures forall i :: 0 <= i < |seed| ==> Holds(WithMissing(records, seed), seed[i])
    ensures forall r :: r in WithMissing(records, seed)[|records|..] ==> r in seed
    decreases |seed|
  {
    hide SameRecord;
    if |seed| > 0 {
      var next := if Holds(records, seed[0]) then records else records + [seed[0]];
      var all := WithMissing(records, seed);
      WithMissingHolds(next, seed[1..]);
      HeldByItself(records, seed[0]);
      HeldFurther(next, all, seed[0]);
      forall i | 0 <= i < |seed| ensures Holds(all, seed[i]) {
        assert i > 0 ==> seed[1..][i - 1] == seed[i];
      }
      forall r | r in all[|records|..] ensures r in seed {
        var i :| |records| <= i < |all| && all[i] == r;
        if i >= |next| {
          assert r in all[|next|..];
        } else {
          assert r == next[i];
        }
      }
    }
  }

  lemma HeldByItself(records: seq<Record>, r: Record)
    ensures Holds(if Holds(records, r) then records else records + [r], r)
  {
    hide Canonical;
    if !Holds(records, r) {
      assert SameRecord((records + [r])[|records|], r);
    }
  }

  lemma HeldFurther(a: seq<Record>, b: seq<Record>, r: Record)
    requires a <= b && Holds(a, r)
    ensures Holds(b, r)
  {
    hide SameRecord;
    var i :| 0 <= i < |a| && SameRecord(a[i], r);
    assert b[i] == a[i];
  }

  lemma {:induction false} NothingMissing(records: seq<Record>, seed: seq<Record>)
    requires forall i :: 0 <= i < |seed| ==> Holds(records, seed[i])
    ensures WithMissing(records, seed) == records
    decreases |seed|
  {
    hide Holds;
    if |seed| > 0 {
      assert Holds(records, seed[0]);
      assert forall i :: 0 <= i < |seed| - 1 ==> seed[1..][i] == seed[i + 1];
      NothingMissing(records, seed[1..]);
    }
  }

  /** Merging the seed at every start changes the zones only the first time. */
  lemma MergeIdempotent(zones: seq<Zone>, seed: Zone)
    ensures Merged(Merged(zones, seed), seed) == Merged(zones, seed)
  {
    hide Canonical, Holds, WithMissing;
    var i := FindZone(zones, seed.name);
    var once := Merged(zones, seed);
    FoundAt(once, i, seed.name);
    if i < |zones| {
      WithMissingHolds(zones[i].records, seed.records);
    } else {
      SeedHoldsItself(seed.records);
    }
    NothingMissing(once[i].records, seed.records);
    assert once[i := once[i]] == once;
  }

  lemma SeedHoldsItself(seed: seq<Record>)
    ensures forall i :: 0 <= i < |seed| ==> Holds(seed, seed[i])
  {
    hide Canonical;
    forall i | 0 <= i < |seed| ensures Holds(seed, seed[i]) {
      assert SameRecord(seed[i], seed[i]);
    }
  }

  lemma FoundAt(zones: seq<Zone>, i: nat, name: Text)
    requires i < |zones| && Canonical(zones[i].name) == Canonical(name)
    requires forall j :: 0 <= j < i ==> Canonical(zones[j].name) != Canonical(name)
    ensures FindZone(zones, name) == i
  {
    hide Canonical;
  }

  /** Nothing stored is lost, everything in the seed is there, nothing else comes in, and other zones are as they
      were. */
  lemma MergeAdds(zones: seq<Zone>, seed: Zone)
    ensures var r, i := Merged(zones, seed), FindZone(zones, seed.name);
            && i < |r| && (forall j :: 0 <= j < |zones| && j != i ==> r[j] == zones[j])
            && r[i].serial >= seed.serial
            && (forall k :: 0 <= k < |seed.records| ==> Holds(r[i].records, seed.records[k]))
            && (i < |zones| ==> |r| == |zones| && zones[i].records <= r[i].records && r[i].serial >= zones[i].serial)
            && (i < |zones| ==> forall x :: x in r[i].records[|zones[i].records|..] ==> x in seed.records)
  {
    hide Canonical, Holds, WithMissing;
    var i := FindZone(zones, seed.name);
    if i < |zones| {
      WithMissingHolds(zones[i].records, seed.records);
    } else {
      SeedHoldsItself(seed.records);
    }
  }
}
