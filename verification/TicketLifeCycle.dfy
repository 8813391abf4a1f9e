/** From an AS request to an accepted AP-REQ: the stateless KDC and the services read back what was issued
    (libs/protocol/src/kerberos.cpp). */
module TicketLifeCycle {
  import opened Octets
  import opened Texts
  import opened Der
  import opened KerberosFields
  import opened KerberosCrypto
  import opened PrincipalNames
  import opened KerberosAccounts
  import opened KerberosTickets
  import opened Kdc

  /** The AP-REQ of a client that holds a ticket and its session key: the authenticator sealed under that key. */
  function Presented(
      c: Crypto, options: u32, ticket: Bytes, key: EncryptionKey, authenticator: Bytes, usage: u32, confounder: Bytes)
      : (apReq: Bytes)
    requires Lawful(c)
  {
    ApReq(options, ticket,
          EncryptedData(key.enctype, Encrypt(c, authenticator, BytesToHex(key.value), usage, confounder).GetOr([])))
  }

  /** The answer to an AS request, with the account, krbtgt and the type the decision was made for. */
  ghost predicate IssuedTgt(
      c: Crypto, info: RealmInfo, request: Bytes, s: Supplies, reply: Bytes, p: Principal, krbtgt: Principal, e: i32)
    requires Lawful(c) && Sufficient(s)
  {
    var r := ParseRequest(request);
    && Respond(c, info, request, s) == AsReply(reply)
    && MayHaveTgt(c, info, r, p, krbtgt, e)
    && Some(reply) == AsRep(c, info, r.realm, r.client, r.nonce, p, KeyFor(p, e).value, KeyFor(krbtgt, e).value, e, s)
  }

  ghost predicate IssuedTicket(
      c: Crypto, info: RealmInfo, request: Bytes, s: Supplies, reply: Bytes, session: TicketSession,
      krbtgtKey: KerberosKey, service: Principal, key: KerberosKey)
    requires Lawful(c) && Sufficient(s)
  {
    var r := ParseRequest(request);
    && Respond(c, info, request, s) == TgsReply(reply)
    && MayHaveTicket(c, info, r, session, krbtgtKey, service, key)
    && Some(reply) == TgsRep(c, info, r.realm, r.nonce, session, ServiceName(service, r.service), key, krbtgtKey, s)
  }

  /** The ticket a client finds in a reply. */
  function TicketIn(reply: Bytes, tag: byte): (ticket: Bytes)
  {
    match ReadReply(reply, tag)
    case Some(r) => r.ticket
    case None => []
  }

  // ---------- The client's view ----------

  /** The client opens the AS-REP under its own long-term key and finds the session key and the nonce it sent. */
  lemma {:induction false} ClientReadsAsReply(
      c: Crypto, info: RealmInfo, request: Bytes, s: Supplies, reply: Bytes, p: Principal, krbtgt: Principal, e: i32)
    requires Lawful(c) && Sufficient(s) && IssuedTgt(c, info, request, s, reply, p, krbtgt, e) && |reply| <= 0xffff
    ensures ReadReply(reply, 0x6b).Some? && ReadReply(reply, 0x6b).value.data.enctype == e
    ensures var plaintext := Decrypt(c, ReadReply(reply, 0x6b).value.data.cipher, KeyFor(p, e).value.keyHex, 3);
            plaintext.Some?
            && var realm := EffectiveRealm(ParseRequest(request).realm, info);
            ReadReplyPart(plaintext.value, 0x79)
            == Some(Contents(FreshKey(e, s), ParseRequest(request).nonce, realm, PairText(KdcName(info), realm), s))
  {
    hide *;
    var r := ParseRequest(request);
    TgtParts(c, info, request, s, reply, p, krbtgt, e);
    AsRepOpens(c, info, r.realm, r.client, r.nonce, p, KeyFor(p, e).value, KeyFor(krbtgt, e).value, e, s);
  }

  lemma {:induction false} TgtParts(
      c: Crypto, info: RealmInfo, request: Bytes, s: Supplies, reply: Bytes, p: Principal, krbtgt: Principal, e: i32)
    requires Lawful(c) && Sufficient(s) && IssuedTgt(c, info, request, s, reply, p, krbtgt, e)
    ensures KeyFor(p, e).Some? && KeyFor(krbtgt, e).Some? && KeySize(e) != 0
            && FindByName(info, KdcName(info)) == Some(krbtgt)
    ensures var r := ParseRequest(request);
            && Some(reply)
                == AsRep(c, info, r.realm, r.client, r.nonce, p, KeyFor(p, e).value, KeyFor(krbtgt, e).value, e, s)
            && FindPrincipal(info, r.client, r.realm) == Some(p) && !Blocked(p)
  {
    hide AsRep, Respond, ParseRequest, KeyFor, FindByName, FindPrincipal, KeySize, TimestampOpens, ReplyEtype;
  }

  /** The contents of a TGS-REP, opened under the session key of the ticket-granting ticket. */
  function OpenTgsReply(c: Crypto, reply: Bytes, key: EncryptionKey): (r: Option<ReplyContents>)
    requires Lawful(c)
  {
    var message :- ReadReply(reply, 0x6d);
    if message.data.enctype != key.enctype then None
    else
      var plaintext :- Decrypt(c, message.data.cipher, BytesToHex(key.value), 8);
      ReadReplyPart(plaintext, 0x7a)
  }

  /** The session key a client finds there. */
  function HandedKey(c: Crypto, reply: Bytes, key: EncryptionKey): (r: Option<EncryptionKey>)
    requires Lawful(c)
  {
    var contents :- OpenTgsReply(c, reply, key);
    Some(contents.key)
  }

  /** The client opens the TGS-REP under its session key and finds the key for the service and the nonce it sent. */
  lemma {:induction false} ClientReadsTgsReply(
    c: Crypto, info: RealmInfo, request: Bytes, s: Supplies, reply: Bytes, session: TicketSession,
    krbtgtKey: KerberosKey, service: Principal, key: KerberosKey)
    requires Lawful(c) && Sufficient(s) && |reply| <= 0xffff
    requires IssuedTicket(c, info, request, s, reply, session, krbtgtKey, service, key)
    ensures var r, newKey := ParseRequest(request), FreshKey(key.enctype, s);
            && OpenTgsReply(c, reply, session.key)
               == Some(Contents(newKey, r.nonce, EffectiveRealm(r.realm, info),
                                ReadBack(ServiceName(service, r.service)), s))
            && HandedKey(c, reply, session.key) == Some(newKey)
  {
    hide *;
    var r := ParseRequest(request);
    TicketFacts(c, info, request, s, reply, session, krbtgtKey, service, key);
    TgsRepOpens(c, info, r.realm, r.nonce, session, ServiceName(service, r.service), key, krbtgtKey, s);
    var contents :=
      Contents(FreshKey(key.enctype, s), r.nonce, EffectiveRealm(r.realm, info),
               ReadBack(ServiceName(service, r.service)), s);
    OpensTo(c, reply, session.key, contents);
    assert contents.key == FreshKey(key.enctype, s) by {
      KeyOfContents(FreshKey(key.enctype, s), r.nonce, EffectiveRealm(r.realm, info),
                    ReadBack(ServiceName(service, r.service)), s);
    }
  }

  lemma KeyOfContents(key: EncryptionKey, nonce: i32, realm: Text, service: Text, s: Supplies)
    ensures Contents(key, nonce, realm, service, s).key == key
  {
  }

  lemma {:induction false} OpensTo(c: Crypto, reply: Bytes, key: EncryptionKey, contents: ReplyContents)
    requires Lawful(c) && ReadReply(reply, 0x6d).Some? && ReadReply(reply, 0x6d).value.data.enctype == key.enctype
    requires var plaintext := Decrypt(c, ReadReply(reply, 0x6d).value.data.cipher, BytesToHex(key.value), 8);
             plaintext.Some? && ReadReplyPart(plaintext.value, 0x7a) == Some(contents)
    ensures OpenTgsReply(c, reply, key) == Some(contents) && HandedKey(c, reply, key) == Some(contents.key)
  {
    hide ReadReply, Decrypt, BytesToHex, ReadReplyPart, Lawful;
  }

  // ---------- The ticket-granting ticket comes back ----------

  /** The TGS branch opens the ticket-granting ticket of an AS-REP, presented with an authenticator under its session
      key, to exactly the issued client, the upper-case realm, the encryption type and the session key. */
  lemma {:induction false} TgtIsAccepted(
      c: Crypto, info: RealmInfo, request: Bytes, s: Supplies, reply: Bytes, p: Principal, krbtgt: Principal, e: i32,
      options: u32, authenticator: Bytes, confounder: Bytes)
    requires Lawful(c) && Sufficient(s) && IssuedTgt(c, info, request, s, reply, p, krbtgt, e) && |reply| <= 0xffff
    requires CanonicalName(IssuedName(p, ParseRequest(request).client))
    requires Inner(authenticator, 0x62).Some? && |confounder| == 16
    requires |Presented(c, options, TicketIn(reply, 0x6b), FreshKey(e, s), authenticator, 7, confounder)| <= 0xffff
    ensures KeyFor(krbtgt, e).Some?
    ensures var r := ParseRequest(request);
            OpenTgt(c, info, Presented(c, options, TicketIn(reply, 0x6b), FreshKey(e, s), authenticator, 7, confounder))
            == Opened(TicketSession(IssuedName(p, r.client), EffectiveRealm(r.realm, info), FreshKey(e, s)),
                      KeyFor(krbtgt, e).value)
  {
    hide *;
    var r := ParseRequest(request);
    var realm, name, key := EffectiveRealm(r.realm, info), IssuedName(p, r.client), FreshKey(e, s);
    TgtParts(c, info, request, s, reply, p, krbtgt, e);
    var krbtgtKey := KeyFor(krbtgt, e).value;
    AsRepOpens(c, info, r.realm, r.client, r.nonce, p, KeyFor(p, e).value, krbtgtKey, e, s);
    var sealed := SealedTicket(c, realm, name, key, krbtgtKey, krbtgtKey, s).value;
    TicketInReads(reply, 0x6b);
    SealedFits(realm, KdcName(info) + [SLASH] + realm, EncryptedData(e, sealed));
    SealedTicketOpens(c, realm, name, key, krbtgtKey, krbtgtKey, s);
    ReadBackExactlyWhen(name);
    EffectiveRealmIsUpper(r.realm, info);
    FreshKeyIsAes(e, s);
    AuthenticatorPlaintext(authenticator);
    var session := TicketSession(name, realm, key);
    AuthenticatorOpens(c, authenticator, session, 7, confounder);
    var sealedAuthenticator := EncryptedData(e, Encrypt(c, authenticator, BytesToHex(key.value), 7, confounder).value);
    PresentedIs(c, options, TicketIn(reply, 0x6b), key, authenticator, 7, confounder);
    ApReqReads(options, realm, KdcName(info) + [SLASH] + realm, EncryptedData(e, sealed), sealedAuthenticator);
    TgsAuthenticatorAccepted(c, sealedAuthenticator, session, authenticator);
    var apReq := Presented(c, options, TicketIn(reply, 0x6b), key, authenticator, 7, confounder);
    OpenTgtSteps(c, info, apReq, krbtgt, ParseApReq(apReq).value, krbtgtKey,
                 Decrypt(c, sealed, krbtgtKey.keyHex, 2).value, session);
  }

  lemma {:induction false} OpenTgtSteps(
      c: Crypto, info: RealmInfo, apReq: Bytes, krbtgt: Principal, ap: ApReqInfo, key: KerberosKey, plaintext: Bytes,
      session: TicketSession)
    requires Lawful(c)
    requires FindByName(info, KdcName(info)) == Some(krbtgt) && ParseApReq(apReq) == Some(ap)
    requires KeyFor(krbtgt, ap.ticket.enctype) == Some(key)
             && Decrypt(c, ap.ticket.cipher, key.keyHex, 2) == Some(plaintext)
    requires ParseTicketPart(plaintext) == Some(session) && ValidTgsAuthenticator(c, ap.authenticator, session)
    ensures OpenTgt(c, info, apReq) == Opened(session, key)
  {
    OpenTgtExactly(c, info, apReq, session, key);
  }

  lemma TicketInReads(reply: Bytes, tag: byte)
    ensures ReadReply(reply, tag).Some? ==> TicketIn(reply, tag) == ReadReply(reply, tag).value.ticket
  {
    hide ReadReply;
  }

  lemma SealedFits(realm: Text, service: Text, data: EncryptedData)
    requires |ServiceTicket(realm, service, data)| <= 0xffff
    ensures |data.cipher| <= 0xffff
  {
    hide Tlv, Encode, Sequence, IntegerTlv, KerberosString, PrincipalBytes, DataBytes, DataFromDer;
    var es := ServiceTicketFields(realm, service, data);
    TlvBound(0x61, Sequence(es));
    SequenceBound(es);
    EncodeBound(es);
    assert |es[3].content| <= 0xffff;
    DataFieldReads(data);
  }

  lemma EffectiveRealmIsUpper(realm: Text, info: RealmInfo)
    ensures Upper(EffectiveRealm(realm, info)) == EffectiveRealm(realm, info)
  {
    LowerIdempotent(if realm == [] then info.realm else realm);
  }

  lemma FreshKeyIsAes(e: i32, s: Supplies)
    requires Sufficient(s) && KeySize(e) != 0
    ensures FreshKey(e, s).enctype == e && IsAesKey(FreshKey(e, s).value)
  {
  }

  lemma AuthenticatorPlaintext(authenticator: Bytes)
    ensures Inner(authenticator, 0x62).Some? ==> authenticator != []
  {
    hide ReadLength;
  }

  lemma {:induction false} PresentedIs(
      c: Crypto, options: u32, ticket: Bytes, key: EncryptionKey, authenticator: Bytes, usage: u32, confounder: Bytes)
    requires Lawful(c) && Encrypt(c, authenticator, BytesToHex(key.value), usage, confounder).Some?
    ensures Presented(c, options, ticket, key, authenticator, usage, confounder)
         == ApReq(options, ticket,
                  EncryptedData(key.enctype, Encrypt(c, authenticator, BytesToHex(key.value), usage, confounder).value))
  {
    hide ApReq, Encrypt, BytesToHex, Lawful;
  }

  lemma {:induction false} TgsAuthenticatorAccepted(
      c: Crypto, sealed: EncryptedData, session: TicketSession, authenticator: Bytes)
    requires Lawful(c) && OpenAuthenticator(c, sealed, session, 7) == Some(authenticator)
             && Inner(authenticator, 0x62).Some?
    ensures ValidTgsAuthenticator(c, sealed, session)
  {
    hide OpenAuthenticator, Inner, Lawful;
  }

  // ---------- The service accepts its ticket ----------

  /** The service ticket of a TGS-REP, presented with an authenticator under its session key, is accepted by the service
      for the client, the realm and the key that the TGS-REP was issued for. */
  lemma {:induction false} ServiceTicketIsAccepted(
      c: Crypto, info: RealmInfo, request: Bytes, s: Supplies, reply: Bytes, session: TicketSession,
      krbtgtKey: KerberosKey, service: Principal, key: KerberosKey, options: u32, authenticator: Bytes,
      confounder: Bytes, expected: Option<Text>)
    requires Lawful(c) && Sufficient(s) && |reply| <= 0xffff
    requires IssuedTicket(c, info, request, s, reply, session, krbtgtKey, service, key)
    requires StableNames(info) && RealmAgrees(ParseRequest(request).realm, info)
             && GoodName(ParseRequest(request).service, info)
    requires CanonicalName(service.name) && CanonicalName(session.client)
    requires expected.Some? ==> Matches(service.name, expected.value, info.realm)
    requires ReadAuthenticator(authenticator).Some? && |confounder| == 16
    requires |Presented(c, options, TicketIn(reply, 0x6d), FreshKey(key.enctype, s), authenticator, 11,
                        confounder)| <= 0xffff
    ensures ValidateApReq(c, info,
              Presented(c, options, TicketIn(reply, 0x6d), FreshKey(key.enctype, s), authenticator, 11,
                        confounder), expected)
         == Accepted(session.client, service.name, Upper(info.realm), FreshKey(key.enctype, s),
                     ReadAuthenticator(authenticator).value.subkey, options / 0x2000_0000 % 2 == 1)
  {
    hide *;
    var r := ParseRequest(request);
    var realm, newKey := EffectiveRealm(r.realm, info), FreshKey(key.enctype, s);
    TicketFacts(c, info, request, s, reply, session, krbtgtKey, service, key);
    ServiceNameStands(info, r.service, service);
    TgsRepOpens(c, info, r.realm, r.nonce, session, service.name, key, krbtgtKey, s);
    var sealed := SealedTicket(c, realm, session.client, newKey, key, krbtgtKey, s).value;
    TicketInReads(reply, 0x6d);
    SealedFits(realm, service.name, EncryptedData(key.enctype, sealed));
    SealedTicketOpens(c, realm, session.client, newKey, key, krbtgtKey, s);
    ReadBackExactlyWhen(session.client);
    ReadBackExactlyWhen(service.name);
    EffectiveRealmIsUpper(r.realm, info);
    AgreedRealm(r.realm, info);
    FreshKeyIsAes(key.enctype, s);
    ReadsApplication(authenticator);
    AuthenticatorPlaintext(authenticator);
    var issued := TicketSession(session.client, realm, newKey);
    AuthenticatorOpens(c, authenticator, issued, 11, confounder);
    var sealedAuthenticator := EncryptedData(key.enctype,
                                             Encrypt(c, authenticator, BytesToHex(newKey.value), 11, confounder).value);
    PresentedIs(c, options, TicketIn(reply, 0x6d), newKey, authenticator, 11, confounder);
    ApReqReads(options, realm, service.name, EncryptedData(key.enctype, sealed), sealedAuthenticator);
    var apReq := Presented(c, options, TicketIn(reply, 0x6d), newKey, authenticator, 11, confounder);
    ValidateSteps(c, info, apReq, expected, ParseApReq(apReq).value, service, key,
                  Decrypt(c, sealed, key.keyHex, 2).value, issued, authenticator);
  }

  lemma {:induction false} TicketFacts(
      c: Crypto, info: RealmInfo, request: Bytes, s: Supplies, reply: Bytes, session: TicketSession,
      krbtgtKey: KerberosKey, service: Principal, key: KerberosKey)
    requires Lawful(c) && Sufficient(s) && IssuedTicket(c, info, request, s, reply, session, krbtgtKey, service, key)
    ensures var r := ParseRequest(request);
            Some(reply)
                == TgsRep(c, info, r.realm, r.nonce, session, ServiceName(service, r.service), key, krbtgtKey, s)
            && FindByName(info, r.service) == Some(service) && service.hasKeyMaterial && !Blocked(service)
    ensures KeySize(key.enctype) != 0 && KeyFor(service, key.enctype) == Some(key)
    ensures FindByName(info, session.client).Some? ==> !Blocked(FindByName(info, session.client).value)
  {
    hide TgsRep, Respond, ParseRequest, KeyFor, FindByName, KeySize, Decrypt, ParseApReq, ParseTicketPart,
      ValidTgsAuthenticator, SelectServiceKey, AesKey, BytesToHex;
    SelectedServiceKey(service, ParseRequest(request).etypes);
  }

  lemma {:induction false} ServiceNameStands(info: RealmInfo, requested: Text, service: Principal)
    requires StableNames(info) && GoodName(requested, info) && FindByName(info, requested) == Some(service)
    ensures ServiceName(service, requested) == service.name && FindByName(info, service.name) == Some(service)
  {
    hide FindByName, Key, Stable;
    FoundAgain(info, requested);
  }

  lemma AgreedRealm(realm: Text, info: RealmInfo)
    requires RealmAgrees(realm, info)
    ensures EffectiveRealm(realm, info) == Upper(info.realm) && Lower(EffectiveRealm(realm, info)) == Lower(info.realm)
  {
    LowerIdempotent(info.realm);
  }

  lemma ReadsApplication(authenticator: Bytes)
    ensures ReadAuthenticator(authenticator).Some? ==> Inner(authenticator, 0x62).Some?
  {
    hide Inner, Field, ContextInteger, ContextTime, ContextKey;
  }

  lemma {:induction false} ValidateSteps(
      c: Crypto, info: RealmInfo, apReq: Bytes, expected: Option<Text>, ap: ApReqInfo, service: Principal,
      key: KerberosKey, plaintext: Bytes, session: TicketSession, authenticator: Bytes)
    requires Lawful(c) && ParseApReq(apReq) == Some(ap) && Lower(ap.realm) == Lower(info.realm)
    requires expected.Some? ==> Matches(ap.service, expected.value, info.realm)
    requires FindByName(info, ap.service) == Some(service) && service.hasKeyMaterial && !Blocked(service)
    requires KeyFor(service, ap.ticket.enctype) == Some(key)
             && Decrypt(c, ap.ticket.cipher, key.keyHex, 2) == Some(plaintext)
    requires ParseTicketPart(plaintext) == Some(session) && Lower(session.realm) == Lower(info.realm)
    requires FindByName(info, session.client).Some? ==> !Blocked(FindByName(info, session.client).value)
    requires OpenAuthenticator(c, ap.authenticator, session, 11) == Some(authenticator)
             && ReadAuthenticator(authenticator).Some?
    ensures ValidateApReq(c, info, apReq, expected)
         == Accepted(session.client, ap.service, session.realm, session.key,
                     ReadAuthenticator(authenticator).value.subkey,
                     ap.options / 0x2000_0000 % 2 == 1)
  {
    hide ParseApReq, Lower, Matches, FindByName, Blocked, KeyFor, Decrypt, ParseTicketPart, OpenAuthenticator,
      ReadAuthenticator, Lawful;
  }

  // ---------- The whole life cycle ----------

  /** The request that follows an AS reply: valid, for the TGS, and carrying the ticket-granting ticket with an
      authenticator under its session key. */
  ghost predicate Follows(
      c: Crypto, request: Bytes, reply: Bytes, key: EncryptionKey, options: u32, authenticator: Bytes,
      confounder: Bytes)
    requires Lawful(c)
  {
    var r := ParseRequest(request);
    && r.valid && r.messageType == 12 && 1 in r.padata.types
    && Inner(authenticator, 0x62).Some? && |confounder| == 16
    && r.padata.tgsApReq == Presented(c, options, TicketIn(reply, 0x6b), key, authenticator, 7, confounder)
    && |r.padata.tgsApReq| <= 0xffff
  }

  /** A service the client may ask for: known by a good name, not blocked, with a key the TGS will use. */
  ghost predicate Available(info: RealmInfo, r: RequestInfo, service: Principal, key: KerberosKey) {
    && GoodName(r.service, info) && FindByName(info, r.service) == Some(service)
    && service.hasKeyMaterial && !Blocked(service) && CanonicalName(service.name)
    && SelectServiceKey(service, r.etypes) == Some(key) && KeySize(key.enctype) != 0 && AesKey(key.keyHex).Some?
  }

  /** The ticket names the account it was granted to, and every later step finds that account under its name exactly
      when the name the client asked with finds no account of another realm first. */
  lemma {:induction false} SameClient(
    c: Crypto, info: RealmInfo, request: Bytes, s: Supplies, reply: Bytes, p: Principal, krbtgt: Principal, e: i32)
    requires Lawful(c) && Sufficient(s) && IssuedTgt(c, info, request, s, reply, p, krbtgt, e)
    requires StableNames(info) && RealmAgrees(ParseRequest(request).realm, info)
    requires GoodName(ParseRequest(request).client, info)
    ensures IssuedName(p, ParseRequest(request).client) == p.name && !Blocked(p)
    ensures FindByName(info, p.name) == Some(p) <==> FindsOwn(info, ParseRequest(request).client)
  {
    hide FindByName, FindPrincipal, Key, Stable, AsRep, Respond, ParseRequest, KeyFor, KeySize, RealmAgrees, FindsOwn;
    var r := ParseRequest(request);
    TgtParts(c, info, request, s, reply, p, krbtgt, e);
    LookupsAgreeExactlyWhen(info, r.client, r.realm);
    SameNameByRealm(info, r.client, r.realm);
    GoodNameIsNotEmpty(p.name, info);
  }

  /** With stable account names, good and canonical names, realms that agree, a client name that does not first find an
      account of another realm, and encodings of at most 65535 bytes: the ticket-granting ticket of an AS-REP buys a
      service ticket, the client reads the new key under its session key, and the ticket is accepted by the service for
      the same account, in the upper-case realm, under that key. */
  lemma {:induction false} TicketLifeCycle(
    c: Crypto, info: RealmInfo, request1: Bytes, s1: Supplies, reply1: Bytes, p: Principal, krbtgt: Principal, e: i32,
    request2: Bytes, s2: Supplies, service: Principal, key: KerberosKey,
    options1: u32, authenticator1: Bytes, confounder1: Bytes,
    options2: u32, authenticator2: Bytes, confounder2: Bytes, expected: Option<Text>)
    requires Lawful(c) && Sufficient(s1) && Sufficient(s2) && StableNames(info)
    requires IssuedTgt(c, info, request1, s1, reply1, p, krbtgt, e) && |reply1| <= 0xffff
    requires RealmAgrees(ParseRequest(request1).realm, info) && GoodName(ParseRequest(request1).client, info)
    requires FindsOwn(info, ParseRequest(request1).client) && CanonicalName(p.name)
    requires Follows(c, request2, reply1, FreshKey(e, s1), options1, authenticator1, confounder1)
    requires RealmAgrees(ParseRequest(request2).realm, info) && Available(info, ParseRequest(request2), service, key)
    requires expected.Some? ==> Matches(service.name, expected.value, info.realm)
    requires ReadAuthenticator(authenticator2).Some? && |confounder2| == 16
    ensures var answer, newKey := Respond(c, info, request2, s2), FreshKey(key.enctype, s2);
            && answer.TgsReply?
            && var apReq := Presented(c, options2, TicketIn(answer.message, 0x6d), newKey, authenticator2, 11,
                                      confounder2);
            |answer.message| <= 0xffff ==>
              && HandedKey(c, answer.message, FreshKey(e, s1)) == Some(newKey)
              && (|apReq| <= 0xffff ==>
                    ValidateApReq(c, info, apReq, expected)
                    == Accepted(p.name, service.name, Upper(info.realm), newKey,
                                ReadAuthenticator(authenticator2).value.subkey, options2 / 0x2000_0000 % 2 == 1))
  {
    hide *;
    var r2 := ParseRequest(request2);
    SameClient(c, info, request1, s1, reply1, p, krbtgt, e);
    Unfold(c, info, request2, reply1, FreshKey(e, s1), options1, authenticator1, confounder1, service, key);
    TgtIsAccepted(c, info, request1, s1, reply1, p, krbtgt, e, options1, authenticator1, confounder1);
    var session := TicketSession(p.name, EffectiveRealm(ParseRequest(request1).realm, info), FreshKey(e, s1));
    var krbtgtKey := KeyFor(krbtgt, e).value;
    TgtParts(c, info, request1, s1, reply1, p, krbtgt, e);
    FreshKeyIsAes(e, s1);
    SessionKeyIsUsable(FreshKey(e, s1).value);
    Granted(c, info, request2, s2, session, krbtgtKey, service, key);
    var reply2 := Respond(c, info, request2, s2).message;
    var apReq := Presented(c, options2, TicketIn(reply2, 0x6d), FreshKey(key.enctype, s2), authenticator2, 11,
                           confounder2);
    if |reply2| <= 0xffff {
      ClientReadsTgsReply(c, info, request2, s2, reply2, session, krbtgtKey, service, key);
      if |apReq| <= 0xffff {
        ServiceTicketIsAccepted(c, info, request2, s2, reply2, session, krbtgtKey, service, key,
                                options2, authenticator2, confounder2, expected);
      }
    }
  }

  lemma {:induction false} Unfold(
      c: Crypto, info: RealmInfo, request: Bytes, reply: Bytes, key: EncryptionKey, options: u32, authenticator: Bytes,
      confounder: Bytes, service: Principal, serviceKey: KerberosKey)
    requires Lawful(c) && Follows(c, request, reply, key, options, authenticator, confounder)
    requires Available(info, ParseRequest(request), service, serviceKey)
    ensures Inner(authenticator, 0x62).Some? && |confounder| == 16
    ensures var apReq := Presented(c, options, TicketIn(reply, 0x6b), key, authenticator, 7, confounder);
            ParseRequest(request).padata.tgsApReq == apReq && |apReq| <= 0xffff
    ensures ParseRequest(request).valid && ParseRequest(request).messageType == 12
            && 1 in ParseRequest(request).padata.types
    ensures GoodName(ParseRequest(request).service, info) && CanonicalName(service.name)
  {
    hide Inner, ParseRequest, Presented, TicketIn, CanonicalName, FindByName, SelectServiceKey, Lawful;
  }

  lemma {:induction false} Granted(
      c: Crypto, info: RealmInfo, request: Bytes, s: Supplies, session: TicketSession, krbtgtKey: KerberosKey,
      service: Principal, key: KerberosKey)
    requires Lawful(c) && Sufficient(s)
    requires var r := ParseRequest(request);
             && r.valid && r.messageType == 12 && 1 in r.padata.types
             && OpenTgt(c, info, r.padata.tgsApReq) == Opened(session, krbtgtKey)
             && Available(info, r, service, key)
    requires FindByName(info, session.client).Some? ==> !Blocked(FindByName(info, session.client).value)
    requires AesKey(BytesToHex(session.key.value)).Some?
    ensures Respond(c, info, request, s).TgsReply?
    ensures IssuedTicket(c, info, request, s, Respond(c, info, request, s).message, session, krbtgtKey, service, key)
  {
    hide ParseRequest, AsRep, TgsRep, OpenTgt, FindByName, SelectServiceKey, Lawful, Sufficient, ServiceName, RespondAs,
      RespondTgs, KeyFor, Decrypt, ParseTicketPart, ParseApReq, ValidTgsAuthenticator, AesKey, KeySize, BytesToHex,
      CanonicalName, Key, Stable;
    var r := ParseRequest(request);
    OpenTgtExactly(c, info, r.padata.tgsApReq, session, krbtgtKey);
    GoodNameIsNotEmpty(r.service, info);
    assert MayHaveTicket(c, info, r, session, krbtgtKey, service, key);
    TicketIsGranted(c, info, r, s, session, krbtgtKey, service, key);
  }

  lemma GoodNameIsNotEmpty(name: Text, info: RealmInfo)
    requires GoodName(name, info)
    ensures name != []
  {
    hide Stable, Stripped, LowerTrimmed;
  }
}
