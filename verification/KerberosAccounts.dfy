/** Accounts, their keys, and how the KDC looks them up and chooses among them (libs/protocol/src/kerberos.cpp). */
module KerberosAccounts {
  import opened Octets
  import opened Texts
  import opened PrincipalNames

  const AES256: Text := [97, 101, 115, 50, 53, 54, 45, 99, 116, 115, 45, 104, 109, 97, 99, 45, 115, 104, 97, 49, 45,
                         57, 54]
  const AES128: Text := [97, 101, 115, 49, 50, 56, 45, 99, 116, 115, 45, 104, 109, 97, 99, 45, 115, 104, 97, 49, 45,
                         57, 54]

  datatype KerberosKey = KerberosKey(enctype: i32, enctypeName: Text, salt: Text, keyHex: Text)

  datatype Principal = Principal(
    name: Text,
    realm: Text,
    hasKeyMaterial: bool,
    keys: seq<KerberosKey>,
    accountControl: u32,
    expired: bool)

  datatype RealmInfo = RealmInfo(realm: Text, kdcName: Text, principals: seq<Principal>)

  predicate Disabled(p: Principal) {
    p.accountControl / 2 % 2 == 1
  }

  /** principal_account_blocking_reason has a value. */
  predicate Blocked(p: Principal) {
    Disabled(p) || p.expired
  }

  // ---------- Keys ----------

  function EnctypeFromName(name: Text): (e: i32) {
    if Lower(name) == AES256 then 18 else if Lower(name) == AES128 then 17 else 0
  }

  function Completed(key: KerberosKey): (k: KerberosKey) {
    if key.enctype == 0 then key.(enctype := EnctypeFromName(key.enctypeName)) else key
  }

  predicate Usable(key: KerberosKey) {
    key.enctype != 0 && key.keyHex != []
  }

  function UsableOf(keys: seq<KerberosKey>): (usable: seq<KerberosKey>)
  {
    if |keys| == 0 then []
    else (if Usable(Completed(keys[0])) then [Completed(keys[0])] else []) + UsableOf(keys[1..])
  }

  /** usable_keys */
  function UsableKeys(p: Principal): (usable: seq<KerberosKey>) {
    UsableOf(p.keys)
  }

  method CollectUsableKeys(p: Principal) returns (usable: seq<KerberosKey>)
    ensures usable == UsableKeys(p)
  {
    hide Completed, Usable;
    usable := [];
    assert p.keys[0..] == p.keys;
    for i := 0 to |p.keys|
      invariant usable + UsableOf(p.keys[i..]) == UsableKeys(p)
    {
      assert p.keys[i..][1..] == p.keys[i + 1..];
      var key := Completed(p.keys[i]);
      if Usable(key) {
        usable := usable + [key];
      }
    }
  }

  function FirstOfEtype(keys: seq<KerberosKey>, e: i32): (r: Option<KerberosKey>)
    ensures r.Some? ==> r.value in keys && r.value.enctype == e
    ensures r.None? <==> forall k :: k in keys ==> k.enctype != e
  {
    if |keys| == 0 then None else if keys[0].enctype == e then Some(keys[0]) else FirstOfEtype(keys[1..], e)
  }

  /** key_for_etype */
  function KeyFor(p: Principal, e: i32): (r: Option<KerberosKey>)
    ensures r.Some? ==> r.value in UsableKeys(p) && r.value.enctype == e
    ensures r.None? <==> forall k :: k in UsableKeys(p) ==> k.enctype != e
  {
    FirstOfEtype(UsableKeys(p), e)
  }

  /** The first requested encryption type with a key. */
  function FirstRequested(p: Principal, etypes: seq<i32>): (r: Option<KerberosKey>)
  {
    if |etypes| == 0 then None
    else if KeyFor(p, etypes[0]).Some? then KeyFor(p, etypes[0])
    else FirstRequested(p, etypes[1..])
  }

  /** select_service_key: the client's wishes first, otherwise whatever the service has. */
  function SelectServiceKey(service: Principal, etypes: seq<i32>): (r: Option<KerberosKey>)
  {
    var wished := FirstRequested(service, etypes);
    if wished.Some? then wished
    else if UsableKeys(service) == [] then None
    else Some(UsableKeys(service)[0])
  }

  predicate BothHave(client: Principal, krbtgt: Principal, e: i32) {
    KeyFor(client, e).Some? && KeyFor(krbtgt, e).Some?
  }

  function FirstCommon(client: Principal, krbtgt: Principal, etypes: seq<i32>): (r: Option<i32>)
  {
    if |etypes| == 0 then None
    else if BothHave(client, krbtgt, etypes[0]) then Some(etypes[0])
    else FirstCommon(client, krbtgt, etypes[1..])
  }

  function EtypesOf(keys: seq<KerberosKey>): (etypes: seq<i32>)
    ensures |etypes| == |keys|
    ensures forall i :: 0 <= i < |keys| ==> etypes[i] == keys[i].enctype
  {
    seq(|keys|, i requires 0 <= i < |keys| => keys[i].enctype)
  }

  /** select_as_rep_enctype */
  function SelectAsRepEnctype(etypes: seq<i32>, client: Principal, krbtgt: Principal, preauth: i32): (r: Option<i32>)
  {
    if etypes != [] then FirstCommon(client, krbtgt, etypes)
    else if BothHave(client, krbtgt, preauth) then Some(preauth)
    else FirstCommon(client, krbtgt, EtypesOf(UsableKeys(client)))
  }

  lemma {:induction false} FirstCommonSpec(client: Principal, krbtgt: Principal, etypes: seq<i32>)
    ensures var r := FirstCommon(client, krbtgt, etypes);
            match r
            case Some(e) => BothHave(client, krbtgt, e)
              && exists i :: 0 <= i < |etypes| && etypes[i] == e
                   && forall j :: 0 <= j < i ==> !BothHave(client, krbtgt, etypes[j])
            case None => forall i :: 0 <= i < |etypes| ==> !BothHave(client, krbtgt, etypes[i])
  {
    hide BothHave;
    if |etypes| > 0 {
      if BothHave(client, krbtgt, etypes[0]) {
        assert etypes[0] == etypes[0];
      } else {
        FirstCommonSpec(client, krbtgt, etypes[1..]);
        assert forall i :: 0 < i < |etypes| ==> etypes[i] == etypes[1..][i - 1];
        var r := FirstCommon(client, krbtgt, etypes);
        if r.Some? {
          var i :| 0 <= i < |etypes| - 1 && etypes[1..][i] == r.value
              && forall j :: 0 <= j < i ==> !BothHave(client, krbtgt, etypes[1..][j]);
          assert etypes[i + 1] == r.value;
        }
      }
    }
  }

  /** The reply's encryption type is held by both sides; with a request list it is the first such in the list, and it is
      missing only when they share none of the types that come into question. */
  lemma SelectedEtype(etypes: seq<i32>, client: Principal, krbtgt: Principal, preauth: i32)
    ensures match SelectAsRepEnctype(etypes, client, krbtgt, preauth)
            case Some(e) =>
              && BothHave(client, krbtgt, e)
              && (etypes != [] ==>
                    exists i :: 0 <= i < |etypes| && etypes[i] == e
                        && forall j :: 0 <= j < i ==> !BothHave(client, krbtgt, etypes[j]))
            case None =>
              if etypes != [] then forall i :: 0 <= i < |etypes| ==> !BothHave(client, krbtgt, etypes[i])
              else forall e :: !BothHave(client, krbtgt, e)
  {
    FirstCommonSpec(client, krbtgt, etypes);
    var own := EtypesOf(UsableKeys(client));
    FirstCommonSpec(client, krbtgt, own);
    if SelectAsRepEnctype(etypes, client, krbtgt, preauth) == None && etypes == [] {
      forall e ensures !BothHave(client, krbtgt, e) {
        if KeyFor(client, e).Some? {
          var k := KeyFor(client, e).value;
          var i :| 0 <= i < |UsableKeys(client)| && UsableKeys(client)[i] == k;
          assert own[i] == e;
        }
      }
    }
  }

  lemma {:induction false} FirstRequestedSpec(p: Principal, etypes: seq<i32>)
    ensures var r := FirstRequested(p, etypes);
            match r
            case Some(k) => KeyFor(p, k.enctype) == r
              && exists i :: 0 <= i < |etypes| && etypes[i] == k.enctype
                   && forall j :: 0 <= j < i ==> KeyFor(p, etypes[j]).None?
            case None => forall i :: 0 <= i < |etypes| ==> KeyFor(p, etypes[i]).None?
  {
    hide KeyFor;
    if |etypes| > 0 {
      if KeyFor(p, etypes[0]).Some? {
        assert etypes[0] == FirstRequested(p, etypes).value.enctype;
      } else {
        FirstRequestedSpec(p, etypes[1..]);
        assert forall i :: 0 < i < |etypes| ==> etypes[i] == etypes[1..][i - 1];
        var r := FirstRequested(p, etypes);
        if r.Some? {
          var i :| 0 <= i < |etypes| - 1 && etypes[1..][i] == r.value.enctype
              && forall j :: 0 <= j < i ==> KeyFor(p, etypes[1..][j]).None?;
          assert etypes[i + 1] == r.value.enctype;
        }
      }
    }
  }

  /** The chosen service key is the one that its own type finds again; there is none only when no key is usable. */
  lemma SelectedServiceKey(service: Principal, etypes: seq<i32>)
    ensures match SelectServiceKey(service, etypes)
            case Some(k) => KeyFor(service, k.enctype) == Some(k)
            case None => UsableKeys(service) == []
    ensures forall i :: 0 <= i < |etypes| && KeyFor(service, etypes[i]).Some?
              && (forall j :: 0 <= j < i ==> KeyFor(service, etypes[j]).None?)
              ==> SelectServiceKey(service, etypes) == KeyFor(service, etypes[i])
  {
    FirstRequestedSpec(service, etypes);
    var r := FirstRequested(service, etypes);
    forall i | 0 <= i < |etypes| && KeyFor(service, etypes[i]).Some?
        && (forall j :: 0 <= j < i ==> KeyFor(service, etypes[j]).None?)
      ensures r == KeyFor(service, etypes[i])
    {
      if r.Some? {
        var k :| 0 <= k < |etypes| && etypes[k] == r.value.enctype
            && forall j :: 0 <= j < k ==> KeyFor(service, etypes[j]).None?;
        assert KeyFor(service, etypes[k]).Some?;
        assert i <= k && k <= i;
      }
    }
  }

  // ---------- Lookups ----------

  function NamesOf(principals: seq<Principal>): (names: seq<Text>)
    ensures |names| == |principals|
    ensures forall i :: 0 <= i < |names| ==> names[i] == principals[i].name
  {
    seq(|principals|, i requires 0 <= i < |principals| => principals[i].name)
  }

  /** find_principal_by_name */
  function FindByName(info: RealmInfo, name: Text): (r: Option<Principal>)
  {
    var i := FirstMatch(NamesOf(info.principals), name, info.realm);
    if i < |info.principals| then Some(info.principals[i]) else None
  }

  function EffectiveRealm(realm: Text, info: RealmInfo): (r: Text) {
    Upper(if realm == [] then info.realm else realm)
  }

  /** principal_matches */
  predicate PrincipalMatches(p: Principal, client: Text, realm: Text, info: RealmInfo) {
    EffectiveRealm(realm, info) == EffectiveRealm(p.realm, info) && Matches(client, p.name, EffectiveRealm(realm, info))
  }

  function FirstPrincipal(principals: seq<Principal>, client: Text, realm: Text, info: RealmInfo): (i: nat)
    ensures i <= |principals|
  {
    if |principals| == 0 || PrincipalMatches(principals[0], client, realm, info) then 0
    else 1 + FirstPrincipal(principals[1..], client, realm, info)
  }

  /** find_principal */
  function FindPrincipal(info: RealmInfo, client: Text, realm: Text): (r: Option<Principal>)
  {
    var i := FirstPrincipal(info.principals, client, realm, info);
    if i < |info.principals| then Some(info.principals[i]) else None
  }

  /** krbtgt unless the realm names its service otherwise. */
  function KdcName(info: RealmInfo): (name: Text) {
    if info.kdcName == [] then KRBTGT else info.kdcName
  }

  /** Every account has a name that is stable here. */
  ghost predicate StableNames(info: RealmInfo) {
    forall p :: p in info.principals ==> Stable(p.name, info.realm)
  }

  ghost predicate GoodName(name: Text, info: RealmInfo) {
    Stable(name, info.realm) && Key(name, info.realm) != []
  }

  predicate RealmAgrees(realm: Text, info: RealmInfo) {
    EffectiveRealm(realm, info) == Upper(info.realm)
  }

  predicate OfRealm(p: Principal, info: RealmInfo) {
    EffectiveRealm(p.realm, info) == Upper(info.realm)
  }

  /** The account that a name alone finds, if any, is of this realm. */
  predicate FindsOwn(info: RealmInfo, client: Text) {
    match FindByName(info, client)
    case Some(p) => OfRealm(p, info)
    case None => true
  }

  /** Where the two searches stop. */
  lemma {:induction false} FirstsCompare(principals: seq<Principal>, client: Text, realm: Text, info: RealmInfo)
    requires RealmAgrees(realm, info)
    ensures var i := FirstMatch(NamesOf(principals), client, info.realm);
            var j := FirstPrincipal(principals, client, realm, info);
            && i <= j
            && (i < |principals| && OfRealm(principals[i], info) ==> j == i)
            && (j < |principals| ==> OfRealm(principals[j], info))
  {
    hide Matches, PrincipalMatches, OfRealm, NamesOf;
    if |principals| > 0 {
      MatchesHere(principals[0], client, realm, info);
      assert NamesOf(principals)[1..] == NamesOf(principals[1..]);
      FirstsCompare(principals[1..], client, realm, info);
    }
  }

  lemma MatchesHere(p: Principal, client: Text, realm: Text, info: RealmInfo)
    requires RealmAgrees(realm, info)
    ensures PrincipalMatches(p, client, realm, info) <==> OfRealm(p, info) && Matches(client, p.name, info.realm)
  {
    hide Matches, EffectiveRealm;
    LowerIdempotent(info.realm);
    RealmSpelling(client, p.name, Upper(info.realm), info.realm);
  }

  /** The AS lookup by name and realm and the later lookups by name agree exactly when the name alone finds no account,
      or one of this realm. */
  lemma {:induction false} LookupsAgreeExactlyWhen(info: RealmInfo, client: Text, realm: Text)
    requires RealmAgrees(realm, info)
    ensures FindPrincipal(info, client, realm) == FindByName(info, client) <==> FindsOwn(info, client)
  {
    hide EffectiveRealm, FirstMatch, FirstPrincipal;
    FirstsCompare(info.principals, client, realm, info);
  }

  /** So with accounts of several realms they can part: an earlier account of another realm with the same name is what
      the lookup by name alone finds. */
  lemma {:induction false} LookupsCanDiffer(info: RealmInfo, foreign: Principal, own: Principal)
    requires info.principals == [foreign, own] && foreign.name == own.name && LowerTrimmed(own.name) != []
    requires EffectiveRealm(foreign.realm, info) != Upper(info.realm) == EffectiveRealm(own.realm, info)
    ensures FindByName(info, own.name) == Some(foreign)
    ensures FindPrincipal(info, own.name, []) == Some(own)
  {
    hide Matches, Key, LowerTrimmed, EffectiveRealm;
    MatchesCases(own.name, own.name, info.realm);
    LowerIdempotent(info.realm);
    RealmSpelling(own.name, own.name, Upper(info.realm), info.realm);
    assert EffectiveRealm([], info) == Upper(info.realm) by {
      OwnRealm(info);
    }
    assert NamesOf(info.principals)[0] == own.name;
    assert info.principals[1..] == [own];
    assert FirstPrincipal([own], own.name, [], info) == 0;
    assert FirstPrincipal(info.principals, own.name, [], info) == 1;
  }

  lemma OwnRealm(info: RealmInfo)
    ensures EffectiveRealm([], info) == Upper(info.realm)
  {
  }

  /** The account that a name finds is found again under the account's own name. */
  lemma FoundAgain(info: RealmInfo, name: Text)
    requires StableNames(info) && GoodName(name, info) && FindByName(info, name).Some?
    ensures var p := FindByName(info, name).value;
            FindByName(info, p.name) == Some(p) && GoodName(p.name, info) && p in info.principals
  {
    hide Stable, FirstMatch, Key;
    var names := NamesOf(info.principals);
    forall i | 0 <= i < |names| ensures Stable(names[i], info.realm) {
      assert info.principals[i] in info.principals;
    }
    FoundNameFindsItself(names, name, info.realm);
  }

  /** The account of the AS lookup goes by the client's name: its own name finds what the client's name finds. */
  lemma {:induction false} SameNameByRealm(info: RealmInfo, client: Text, realm: Text)
    requires StableNames(info) && RealmAgrees(realm, info) && GoodName(client, info)
    requires FindPrincipal(info, client, realm).Some?
    ensures var p := FindPrincipal(info, client, realm).value;
            FindByName(info, p.name) == FindByName(info, client) && GoodName(p.name, info)
  {
    hide Matches, Stable, Key, EffectiveRealm, FirstPrincipal;
    var j := FirstPrincipal(info.principals, client, realm, info);
    FirstPrincipalMatches(info.principals, client, realm, info);
    var p := info.principals[j];
    assert p in info.principals;
    LowerIdempotent(info.realm);
    RealmSpelling(client, p.name, Upper(info.realm), info.realm);
    MatchesExactlyWhen(client, p.name, info.realm);
    var names := NamesOf(info.principals);
    forall i | 0 <= i < |names| ensures Stable(names[i], info.realm) {
      assert info.principals[i] in info.principals;
    }
    AliasesFindTheSame(names, p.name, client, info.realm);
  }

  lemma {:induction false} FirstPrincipalMatches(principals: seq<Principal>, client: Text, realm: Text, info: RealmInfo)
    ensures var j := FirstPrincipal(principals, client, realm, info);
            j < |principals| ==> PrincipalMatches(principals[j], client, realm, info)
  {
    hide PrincipalMatches;
    if |principals| > 0 && !PrincipalMatches(principals[0], client, realm, info) {
      FirstPrincipalMatches(principals[1..], client, realm, info);
    }
  }
}
