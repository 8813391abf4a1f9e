/** What the directory adds to a group object before it stores it: enrich_ldap_ad_object on objects of kind group
    (apps/directory/main.cpp). */
module Enrichment {
  import opened Octets
  import opened Texts
  import opened ValueLists
  import opened Attributes
  import opened Membership

  const CN: Text := [99, 110]
  const SAM: Text := [115, 65, 77, 65, 99, 99, 111, 117, 110, 116, 78, 97, 109, 101]
  const OBJECT_SID: Text := [111, 98, 106, 101, 99, 116, 83, 105, 100]
  const GROUP_TYPE: Text := [103, 114, 111, 117, 112, 84, 121, 112, 101]
  const SECURITY_GLOBAL: Text := [45, 50, 49, 52, 55, 52, 56, 51, 54, 52, 54]
  const NAMELESS: Text := [103, 114, 111, 117, 112]

  const COMMA: byte := 44
  const EQUALS: byte := 61
  const DASH: byte := 45

  /** The domain's security identifier, and the identifier derived from an account name (synthetic_rid). */
  datatype Domain = Domain(sid: Text, rid: Text -> u32)

  /** rdn_attribute_from_dn */
  function RdnOf(dn: Text): (r: Option<(Text, Text)>)
  {
    var first := dn[..IndexOf(dn, COMMA)];
    var i := IndexOf(first, EQUALS);
    if i == 0 || i + 1 >= |first| then None else Some((first[..i], first[i + 1..]))
  }

  function WithRdn(attrs: AttributeList, dn: Text): (r: AttributeList)
  {
    match RdnOf(dn)
    case Some((key, value)) => Set(attrs, key, value, true)
    case None => attrs
  }

  /** The account name: the one stored, else the common name, else the value of the RDN. */
  function SamOf(attrs: AttributeList, dn: Text): (sam: Text)
  {
    Find(attrs, SAM).GetOr(Find(attrs, CN).GetOr(match RdnOf(dn) case Some((_, value)) => value case None => NAMELESS))
  }

  function WithIdentity(attrs: AttributeList, sam: Text, d: Domain): (r: AttributeList)
  {
    var rid := Decimal(d.rid(sam));
    Set(Set(Set(Set(attrs, SAM, sam, false), RID, rid, true), OBJECT_SID, d.sid + [DASH] + rid, true),
        GROUP_TYPE, SECURITY_GLOBAL, true)
  }

  function EnrichedGroup(attrs: AttributeList, dn: Text, d: Domain): (r: AttributeList)
  {
    var named := WithRdn(attrs, dn);
    WithIdentity(named, SamOf(named, dn), d)
  }

  method EnrichGroup(group: AttributeMap, dn: Text, d: Domain)
    modifies group
    ensures group.entries == EnrichedGroup(old(group.entries), dn, d)
  {
    hide Set, Find, RdnOf, Decimal;
    var rdn := RdnOf(dn);
    var fallback := NAMELESS;
    if rdn.Some? {
      group.SetAttribute(rdn.value.0, rdn.value.1, true);
      fallback := rdn.value.1;
    }
    var stored := group.FindAttribute(SAM);
    var common := group.FindAttribute(CN);
    var sam := stored.GetOr(common.GetOr(fallback));
    var rid := Decimal(d.rid(sam));
    group.SetAttribute(SAM, sam, false);
    group.SetAttribute(RID, rid, true);
    group.SetAttribute(OBJECT_SID, d.sid + [DASH] + rid, true);
    group.SetAttribute(GROUP_TYPE, SECURITY_GLOBAL, true);
  }

  // ---------- What it leaves alone ----------

  /** An attribute that is not empty survives a setting that only fills in. */
  lemma {:induction false} FilledIn(attrs: AttributeList, name: Text, value: Text, other: Text)
    requires !SameKey(name, other) || Find(attrs, other).GetOr([]) != []
    ensures Find(Set(attrs, name, value, true), other) == Find(attrs, other)
  {
    hide KeyLess, Inserted;
    SetFinds(attrs, name, value, other);
    if SameKey(name, other) {
      SameKeyFinds(attrs, name, other);
    }
  }

  lemma SameKeyFinds(attrs: AttributeList, name: Text, other: Text)
    requires SameKey(name, other)
    ensures IndexOfKey(attrs, name) == IndexOfKey(attrs, other)
  {
    hide Lower;
  }

  predicate Derived(name: Text) {
    SameKey(RID, name) || SameKey(OBJECT_SID, name) || SameKey(GROUP_TYPE, name)
  }

  /** The RDN sets this attribute. */
  predicate SetByRdn(dn: Text, name: Text) {
    RdnOf(dn).Some? && SameKey(RdnOf(dn).value.0, name)
  }

  /** Enriching keeps the map a map, every attribute that is not empty, except for the account name, and every other
      attribute it does not derive. */
  lemma {:induction false} EnrichmentKeeps(attrs: AttributeList, dn: Text, d: Domain, name: Text)
    requires !SameKey(SAM, name)
    requires Find(attrs, name).GetOr([]) != [] || (!Derived(name) && !SetByRdn(dn, name))
    ensures Find(EnrichedGroup(attrs, dn, d), name) == Find(attrs, name)
    ensures CaseUnique(attrs) ==> CaseUnique(EnrichedGroup(attrs, dn, d))
    ensures Sorted(attrs) ==> Sorted(EnrichedGroup(attrs, dn, d))
  {
    hide Set, Find, SameKey, CaseUnique, Sorted, RdnOf, Decimal;
    var named := WithRdn(attrs, dn);
    if RdnOf(dn).Some? {
      var (key, value) := RdnOf(dn).value;
      FilledIn(attrs, key, value, name);
      SetKeepsInvariant(attrs, key, value, true);
    }
    IdentityKeeps(named, SamOf(named, dn), d, name);
  }

  lemma {:induction false} IdentityKeeps(attrs: AttributeList, sam: Text, d: Domain, name: Text)
    requires !SameKey(SAM, name) && (Find(attrs, name).GetOr([]) != [] || !Derived(name))
    ensures Find(WithIdentity(attrs, sam, d), name) == Find(attrs, name)
    ensures CaseUnique(attrs) ==> CaseUnique(WithIdentity(attrs, sam, d))
    ensures Sorted(attrs) ==> Sorted(WithIdentity(attrs, sam, d))
  {
    hide Set, Find, SameKey, CaseUnique, Sorted, Decimal;
    var rid := Decimal(d.rid(sam));
    var a := Set(attrs, SAM, sam, false);
    SetFinds(attrs, SAM, sam, name);
    SetKeepsInvariant(attrs, SAM, sam, false);
    var b := Set(a, RID, rid, true);
    FilledIn(a, RID, rid, name);
    SetKeepsInvariant(a, RID, rid, true);
    var c := Set(b, OBJECT_SID, d.sid + [DASH] + rid, true);
    FilledIn(b, OBJECT_SID, d.sid + [DASH] + rid, name);
    SetKeepsInvariant(b, OBJECT_SID, d.sid + [DASH] + rid, true);
    FilledIn(c, GROUP_TYPE, SECURITY_GLOBAL, name);
    SetKeepsInvariant(c, GROUP_TYPE, SECURITY_GLOBAL, true);
  }
}
