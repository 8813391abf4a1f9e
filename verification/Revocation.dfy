/** What disabling or expiring one account does to every request and ticket (libs/protocol/src/kerberos.cpp). */
module Revocation {
  import opened Octets
  import opened Texts
  import opened KerberosFields
  import opened KerberosCrypto
  import opened PrincipalNames
  import opened KerberosAccounts
  import opened KerberosTickets
  import opened Kdc

  /** The position of the account that a name finds. */
  function Position(info: RealmInfo, name: Text): (i: nat) {
    FirstMatch(NamesOf(info.principals), name, info.realm)
  }

  /** p is the account at position i with another accountControl and expiry that block it. */
  predicate Blocks(info: RealmInfo, i: nat, p: Principal) {
    && i < |info.principals| && Blocked(p)
    && p == info.principals[i].(accountControl := p.accountControl, expired := p.expired)
  }

  function WithAccount(info: RealmInfo, i: nat, p: Principal): (after: RealmInfo)
    requires i < |info.principals|
  {
    info.(principals := info.principals[i := p])
  }

  // ---------- Lookups ----------

  lemma FoundAfter(info: RealmInfo, i: nat, p: Principal, name: Text)
    requires Blocks(info, i, p)
    ensures FindByName(WithAccount(info, i, p), name)
         == if Position(info, name) == i then Some(p) else FindByName(info, name)
  {
    hide Matches;
    assert NamesOf(info.principals[i := p]) == NamesOf(info.principals);
  }

  lemma {:induction false} FirstAfter(
      principals: seq<Principal>, i: nat, p: Principal, client: Text, realm: Text, info: RealmInfo, after: RealmInfo)
    requires i < |principals| && p.name == principals[i].name && p.realm == principals[i].realm
             && after.realm == info.realm
    ensures FirstPrincipal(principals[i := p], client, realm, after) == FirstPrincipal(principals, client, realm, info)
  {
    hide Matches;
    if i == 0 {
      assert principals[i := p][1..] == principals[1..];
      SameRealm(principals[1..], client, realm, info, after);
    } else {
      assert principals[i := p][1..] == principals[1..][i - 1 := p];
      FirstAfter(principals[1..], i - 1, p, client, realm, info, after);
    }
  }

  lemma {:induction false} SameRealm(
      principals: seq<Principal>, client: Text, realm: Text, info: RealmInfo, after: RealmInfo)
    requires after.realm == info.realm
    ensures FirstPrincipal(principals, client, realm, after) == FirstPrincipal(principals, client, realm, info)
  {
    hide Matches;
    if |principals| > 0 {
      SameRealm(principals[1..], client, realm, info, after);
    }
  }

  /** Only the keys of krbtgt matter to the choice of a type. */
  lemma {:induction false} SameChoice(
      etypes: seq<i32>, client: Principal, krbtgt: Principal, other: Principal, preauth: i32)
    requires krbtgt.keys == other.keys
    ensures SelectAsRepEnctype(etypes, client, krbtgt, preauth) == SelectAsRepEnctype(etypes, client, other, preauth)
  {
    SameCommon(etypes, client, krbtgt, other);
    SameCommon(EtypesOf(UsableKeys(client)), client, krbtgt, other);
  }

  lemma {:induction false} SameCommon(etypes: seq<i32>, client: Principal, krbtgt: Principal, other: Principal)
    requires krbtgt.keys == other.keys
    ensures FirstCommon(client, krbtgt, etypes) == FirstCommon(client, other, etypes)
  {
    if |etypes| > 0 {
      SameCommon(etypes[1..], client, krbtgt, other);
    }
  }

  lemma SameKeys(p: Principal, other: Principal, e: i32)
    requires p.keys == other.keys
    ensures KeyFor(p, e) == KeyFor(other, e)
  {
  }

  // ---------- Services ----------

  /** Blocking an account rejects exactly the accepted AP-REQs of that client or for that service, and changes no other
      verdict. */
  lemma {:induction false} BlockedEnterNowhere(
    c: Crypto, info: RealmInfo, apReq: Bytes, expected: Option<Text>, i: nat, p: Principal)
    requires Lawful(c) && Blocks(info, i, p)
    ensures var r := ValidateApReq(c, info, apReq, expected);
            ValidateApReq(c, WithAccount(info, i, p), apReq, expected)
            == if r.Accepted? && (Position(info, r.client) == i || Position(info, r.service) == i) then Rejected else r
  {
    hide ParseApReq, Lower, Matches, FindByName, KeyFor, Decrypt, ParseTicketPart, ParseAuthenticator, Lawful, Blocked,
      Position;
    var ap := ParseApReq(apReq);
    if ap.Some? {
      FoundAfter(info, i, p, ap.value.service);
      SameKeys(p, info.principals[i], ap.value.ticket.enctype);
      FoundAt(info, ap.value.service);
      var service := FindByName(info, ap.value.service);
      if service.Some? {
        var key := KeyFor(service.value, ap.value.ticket.enctype);
        if key.Some? {
          var plaintext := Decrypt(c, ap.value.ticket.cipher, key.value.keyHex, 2);
          if plaintext.Some? && ParseTicketPart(plaintext.value).Some? {
            FoundAfter(info, i, p, ParseTicketPart(plaintext.value).value.client);
          }
        }
      }
    }
  }

  lemma FoundAt(info: RealmInfo, name: Text)
    ensures Position(info, name) < |info.principals|
        ==> FindByName(info, name) == Some(info.principals[Position(info, name)])
    ensures Position(info, name) >= |info.principals| ==> FindByName(info, name) == None
  {
    hide FirstMatch;
  }

  // ---------- The KDC ----------

  /** Blocking an account turns exactly the AS replies to that client into code 18. */
  lemma {:induction false} BlockedGetNoTgt(
      c: Crypto, info: RealmInfo, request: Bytes, s: Supplies, i: nat, p: Principal)
    requires Lawful(c) && Sufficient(s) && Blocks(info, i, p)
    requires Respond(c, info, request, s).AsReply?
    ensures var r := ParseRequest(request);
            Respond(c, WithAccount(info, i, p), request, s)
            == if FirstPrincipal(info.principals, r.client, r.realm, info) == i then Error(ERR_CLIENT_REVOKED)
               else Respond(c, info, request, s)
  {
    hide ParseRequest, GrantTgt, RespondTgs, FirstPrincipal, TimestampOpens, KeyFor, Lawful, Sufficient, Blocked;
    var r, after := ParseRequest(request), WithAccount(info, i, p);
    RespondTgsNeverAsReply(c, info, r, s);
    FirstAfter(info.principals, i, p, r.client, r.realm, info, after);
    var j := FirstPrincipal(info.principals, r.client, r.realm, info);
    if j < |info.principals| && |r.padata.timestamps| > 0 {
      TgtAfter(c, info, r, info.principals[j], r.padata.timestamps[0].enctype, s, i, p);
    }
  }

  lemma {:induction false} TgtAfter(
    c: Crypto, info: RealmInfo, r: RequestInfo, client: Principal, preauth: i32, s: Supplies, i: nat, p: Principal)
    requires Lawful(c) && Sufficient(s) && Blocks(info, i, p)
    ensures GrantTgt(c, WithAccount(info, i, p), r, client, preauth, s) == GrantTgt(c, info, r, client, preauth, s)
  {
    hide FindByName, SelectAsRepEnctype, KeyFor, AsRep, Lawful, Sufficient, Blocked, Position;
    var after := WithAccount(info, i, p);
    FoundAfter(info, i, p, KdcName(info));
    FoundAt(info, KdcName(info));
    SameChoice(r.etypes, client, p, info.principals[i], preauth);
    var e := SelectAsRepEnctype(r.etypes, client, p, preauth);
    if e.Some? {
      SameKeys(p, info.principals[i], e.value);
    }
    forall clientKey, krbtgtKey, enctype
      ensures AsRep(c, after, r.realm, r.client, r.nonce, client, clientKey, krbtgtKey, enctype, s)
           == AsRep(c, info, r.realm, r.client, r.nonce, client, clientKey, krbtgtKey, enctype, s)
    {
      SameAsRep(c, info, after, r, client, clientKey, krbtgtKey, enctype, s);
    }
  }

  lemma {:induction false} SameAsRep(
      c: Crypto, info: RealmInfo, after: RealmInfo, r: RequestInfo, client: Principal, clientKey: KerberosKey,
      krbtgtKey: KerberosKey, enctype: i32, s: Supplies)
    requires Lawful(c) && Sufficient(s) && after.realm == info.realm && after.kdcName == info.kdcName
    ensures AsRep(c, after, r.realm, r.client, r.nonce, client, clientKey, krbtgtKey, enctype, s)
         == AsRep(c, info, r.realm, r.client, r.nonce, client, clientKey, krbtgtKey, enctype, s)
  {
    hide SealedTicket, ReplyPart, Encrypt, ServiceTicket, Reply, PairBytes, Lawful, Sufficient;
  }

  /** And exactly the TGS replies to tickets of that client into code 18 and those for that service into code 19. */
  lemma {:induction false} BlockedGetNoTicket(
      c: Crypto, info: RealmInfo, request: Bytes, s: Supplies, i: nat, p: Principal)
    requires Lawful(c) && Sufficient(s) && Blocks(info, i, p)
    requires Respond(c, info, request, s).TgsReply?
    ensures var r := ParseRequest(request);
            var tgt := OpenTgt(c, info, r.padata.tgsApReq);
            tgt.Opened?
            && Respond(c, WithAccount(info, i, p), request, s)
               == if Position(info, tgt.session.client) == i then Error(ERR_CLIENT_REVOKED)
                  else if Position(info, r.service) == i then Error(ERR_SERVICE_REVOKED)
                  else Respond(c, info, request, s)
  {
    hide ParseRequest, OpenTgt, RespondAs, FindByName, Position, SelectServiceKey, TgsRep, Lawful, Sufficient, Blocked,
      ServiceName;
    var r, after := ParseRequest(request), WithAccount(info, i, p);
    RespondTgsNeverAsReply(c, info, r, s);
    OpenAfter(c, info, r.padata.tgsApReq, i, p);
    var tgt := OpenTgt(c, info, r.padata.tgsApReq);
    if tgt.Opened? {
      FoundAfter(info, i, p, tgt.session.client);
      FoundAfter(info, i, p, r.service);
      FoundAt(info, r.service);
      forall service, key
        ensures TgsRep(c, after, r.realm, r.nonce, tgt.session, service, key, tgt.krbtgtKey, s)
             == TgsRep(c, info, r.realm, r.nonce, tgt.session, service, key, tgt.krbtgtKey, s)
      {
        SameTgsRep(c, info, after, r, tgt.session, service, key, tgt.krbtgtKey, s);
      }
    }
  }

  lemma {:induction false} OpenAfter(c: Crypto, info: RealmInfo, apReq: Bytes, i: nat, p: Principal)
    requires Lawful(c) && Blocks(info, i, p)
    ensures OpenTgt(c, WithAccount(info, i, p), apReq) == OpenTgt(c, info, apReq)
  {
    hide FindByName, Position, ParseApReq, KeyFor, Decrypt, ParseTicketPart, ValidTgsAuthenticator, Lawful, Blocked;
    FoundAfter(info, i, p, KdcName(info));
    FoundAt(info, KdcName(info));
    if ParseApReq(apReq).Some? {
      SameKeys(p, info.principals[i], ParseApReq(apReq).value.ticket.enctype);
    }
  }

  lemma {:induction false} SameTgsRep(
      c: Crypto, info: RealmInfo, after: RealmInfo, r: RequestInfo, session: TicketSession, service: Text,
      key: KerberosKey, krbtgtKey: KerberosKey, s: Supplies)
    requires Lawful(c) && Sufficient(s) && after.realm == info.realm
    ensures TgsRep(c, after, r.realm, r.nonce, session, service, key, krbtgtKey, s)
         == TgsRep(c, info, r.realm, r.nonce, session, service, key, krbtgtKey, s)
  {
    hide SealedTicket, ReplyPart, Encrypt, ServiceTicket, Reply, PrincipalBytes, Lawful, Sufficient, BytesToHex;
  }

  // ---------- Aliases ----------

  /** A service that expects one of its names gives the same verdict on every AP-REQ as under any alias of it, provided
      neither name has two keys. */
  lemma {:induction false} AliasesEnterAlike(c: Crypto, info: RealmInfo, apReq: Bytes, expected: Text, alias: Text)
    requires Lawful(c) && Matches(expected, alias, info.realm)
    requires !HasTwoKeys(expected, info.realm) && !HasTwoKeys(alias, info.realm)
    ensures ValidateApReq(c, info, apReq, Some(expected)) == ValidateApReq(c, info, apReq, Some(alias))
  {
    hide ParseApReq, Lower, Matches, FindByName, KeyFor, Decrypt, ParseTicketPart, Admit, Lawful, Blocked, HasTwoKeys;
    TransitiveExactlyThrough(expected, info.realm);
    TransitiveExactlyThrough(alias, info.realm);
    MatchesSymmetric(expected, alias, info.realm);
  }

  lemma MatchesSymmetric(a: Text, b: Text, realm: Text)
    ensures Matches(a, b, realm) <==> Matches(b, a, realm)
  {
    hide LookupKeys;
  }
}
