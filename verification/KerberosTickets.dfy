/** Tickets, authenticators and replies: what the KDC writes, what services and clients read back
    (libs/protocol/src/kerberos.cpp; sections 5.3 to 5.5 of RFC 4120). */
module KerberosTickets {
  import opened Octets
  import opened Texts
  import opened Der
  import opened KerberosFields
  import opened KerberosCrypto
  import opened KerberosAccounts
  import Pac

  const TICKET_FLAGS: u32 := 0x40e1_0000

  /** What one reply takes from outside: formatted times, random bytes and the identity part of the certificate. */
  datatype Supplies = Supplies(
    now: Text,
    endTime: Text,
    renewTill: Text,
    lastRequest: Text,
    randomKey: Bytes,
    ticketConfounder: Bytes,
    replyConfounder: Bytes,
    identity: Pac.PacInfo)

  predicate Sufficient(s: Supplies) {
    |s.randomKey| == 32 && |s.ticketConfounder| == 16 && |s.replyConfounder| == 16
  }

  datatype TicketSession = TicketSession(client: Text, realm: Text, key: EncryptionKey)

  datatype ApReqInfo = ApReqInfo(options: u32, realm: Text, service: Text, ticket: EncryptedData,
                                 authenticator: EncryptedData)

  datatype AuthenticatorInfo = AuthenticatorInfo(cusec: i32, ctime: Text, subkey: Option<EncryptionKey>)

  // ---------- The encrypted part of a ticket ----------

  function TransitedEncoding(): (s: Bytes) {
    Sequence([Element(0xa0, IntegerTlv(0)), Element(0xa1, OctetString([]))])
  }

  function AdFields(kind: i32, value: Bytes): (es: seq<Element>) {
    [Element(0xa0, IntegerTlv(kind)), Element(0xa1, OctetString(value))]
  }

  /** authorization_data_with_pac */
  function AuthorizationData(pac: Bytes): (s: Bytes) {
    Tlv(0x30, Sequence(AdFields(1, Tlv(0x30, Sequence(AdFields(128, pac))))))
  }

  function TicketFields(
      realm: Text, client: Text, key: EncryptionKey, s: Supplies, pac: Option<Bytes>): (es: seq<Element>)
    ensures |es| >= 9
  {
    [Element(0xa0, BitString(TICKET_FLAGS)),
     Element(0xa1, KeyBytes(key)),
     Element(0xa2, KerberosString(Upper(realm))),
     Element(0xa3, PrincipalBytes(client)),
     Element(0xa4, TransitedEncoding()),
     Element(0xa5, GeneralizedTime(s.now)),
     Element(0xa6, GeneralizedTime(s.now)),
     Element(0xa7, GeneralizedTime(s.endTime)),
     Element(0xa8, GeneralizedTime(s.renewTill))]
    + (match pac case Some(p) => [Element(0xaa, AuthorizationData(p))] case None => [])
  }

  /** enc_ticket_part_for_client */
  function TicketPart(realm: Text, client: Text, key: EncryptionKey, s: Supplies, pac: Option<Bytes>): (r: Bytes) {
    Tlv(0x63, Sequence(TicketFields(realm, client, key, s, pac)))
  }

  /** parse_enc_ticket_part */
  function ParseTicketPart(plaintext: Bytes): (r: Option<TicketSession>)
  {
    var application :- Inner(plaintext, 0x63);
    var sequence :- Inner(application, 0x30);
    var keyField :- Field(sequence, 0xa1);
    var realmField :- Field(sequence, 0xa2);
    var nameField :- Field(sequence, 0xa3);
    var key :- ContextKey(keyField);
    var realm :- ContextString(realmField);
    var name :- ContextPrincipal(nameField);
    Some(TicketSession(name, realm, key))
  }

  /** The fields of a sequence inside an application tag, when the whole fits. */
  lemma {:induction false} ApplicationReads(tag: byte, es: seq<Element>)
    requires |Sequence(es)| <= 0xffff
    ensures Inner(Tlv(tag, Sequence(es)), tag) == Some(Sequence(es))
    ensures Inner(Sequence(es), 0x30) == Some(Encode(es)) && Short(es) && |Encode(es)| <= 0xffff
  {
    hide Tlv, Encode, Inner;
    TlvBound(0x30, Encode(es));
    SequenceReads(es);
    InnerOfTlv(tag, Sequence(es));
  }

  lemma {:induction false} SequenceBound(es: seq<Element>)
    ensures |Sequence(es)| <= 0xffff ==> |Encode(es)| <= 0xffff
  {
  }

  /** A ticket part that fits is read back as the issued session. */
  lemma {:induction false} TicketPartReads(
      realm: Text, client: Text, key: EncryptionKey, s: Supplies, pac: Option<Bytes>)
    requires |Sequence(TicketFields(realm, client, key, s, pac))| <= 0xffff
    ensures ParseTicketPart(TicketPart(realm, client, key, s, pac))
         == Some(TicketSession(ReadBack(client), Upper(realm), key))
  {
    hide Tlv, Encode, Inner, Field, Sequence, ContextKey, ContextString, ContextPrincipal, ReadBack, BitString,
      TransitedEncoding, AuthorizationData, GeneralizedTime, KerberosString, KeyBytes, PrincipalBytes;
    var es := TicketFields(realm, client, key, s, pac);
    ApplicationReads(0x63, es);
    FieldOfEncode(es, 1);
    FieldOfEncode(es, 2);
    FieldOfEncode(es, 3);
    KeyFieldReads(key);
    StringFieldReads(Upper(realm));
    NameFieldReads(client);
    assert |es[1].content| <= 0xffff && |es[2].content| <= 0xffff && |es[3].content| <= 0xffff;
  }

  /** The other fields of a ticket, as a service that looks at them finds them. */
  datatype TicketLife = TicketLife(flags: u32, authTime: Text, startTime: Text, endTime: Text, renewTill: Text)

  function ReadTicketLife(plaintext: Bytes): (r: Option<TicketLife>)
  {
    var application :- Inner(plaintext, 0x63);
    var sequence :- Inner(application, 0x30);
    var flagsField :- Field(sequence, 0xa0);
    var authField :- Field(sequence, 0xa5);
    var startField :- Field(sequence, 0xa6);
    var endField :- Field(sequence, 0xa7);
    var renewField :- Field(sequence, 0xa8);
    var flags :- ContextBits(flagsField);
    var authTime :- ContextTime(authField);
    var startTime :- ContextTime(startField);
    var endTime :- ContextTime(endField);
    var renewTill :- ContextTime(renewField);
    Some(TicketLife(flags, authTime, startTime, endTime, renewTill))
  }

  /** The value of the only entry of an AuthorizationData, if it has that type. */
  function AdEntry(s: Bytes, kind: i32): (r: Option<Bytes>)
  {
    var list :- Inner(s, 0x30);
    var entry :- Inner(list, 0x30);
    var typeField :- Field(entry, 0xa0);
    var valueField :- Field(entry, 0xa1);
    var found :- ContextInteger(typeField);
    if found == kind then ContextOctets(valueField) else None
  }

  /** The certificate in a ticket: AD-WIN2K-PAC (128) inside AD-IF-RELEVANT (1), section 5.2.6 of RFC 4120. */
  function ReadPac(plaintext: Bytes): (r: Option<Bytes>)
  {
    var application :- Inner(plaintext, 0x63);
    var sequence :- Inner(application, 0x30);
    var field :- Field(sequence, 0xaa);
    var relevant :- AdEntry(field, 1);
    AdEntry(relevant, 128)
  }

  lemma {:induction false} AdEntryReads(kind: i32, value: Bytes)
    requires |Tlv(0x30, Sequence(AdFields(kind, value)))| <= 0xffff
    ensures AdEntry(Tlv(0x30, Sequence(AdFields(kind, value))), kind) == Some(value) && |value| <= 0xffff
  {
    hide Tlv, Encode, Inner, Field, Sequence, IntegerTlv, ContextInteger, ContextOctets;
    var es := AdFields(kind, value);
    TlvBound(0x30, Sequence(es));
    ApplicationReads(0x30, es);
    FieldOfEncode(es, 0);
    FieldOfEncode(es, 1);
    assert es[1].content == Tlv(0x04, value) && |es[1].content| <= 0xffff;
    TlvBound(0x04, value);
    ContextIntegerReads(kind);
    ContextOctetsReads(value);
  }

  lemma {:induction false} AuthorizationDataReads(pac: Bytes)
    requires |AuthorizationData(pac)| <= 0xffff
    ensures var relevant := AdEntry(AuthorizationData(pac), 1);
            relevant.Some? && AdEntry(relevant.value, 128) == Some(pac)
  {
    hide Tlv, Sequence, AdEntry;
    var inner := Tlv(0x30, Sequence(AdFields(128, pac)));
    AdEntryReads(1, inner);
    AdEntryReads(128, pac);
  }

  /** A ticket part that fits states its flags, its times and its certificate, if it has one. */
  lemma {:induction false} TicketPartStates(
      realm: Text, client: Text, key: EncryptionKey, s: Supplies, pac: Option<Bytes>)
    requires |Sequence(TicketFields(realm, client, key, s, pac))| <= 0xffff
    ensures ReadTicketLife(TicketPart(realm, client, key, s, pac))
         == Some(TicketLife(TICKET_FLAGS, s.now, s.now, s.endTime, s.renewTill))
    ensures ReadPac(TicketPart(realm, client, key, s, pac)) == pac
  {
    hide Tlv, Encode, Inner, Field, Sequence, ContextBits, ContextTime, BitString, TransitedEncoding,
         AuthorizationData, GeneralizedTime, KerberosString, KeyBytes, PrincipalBytes, AdEntry;
    var es := TicketFields(realm, client, key, s, pac);
    ApplicationReads(0x63, es);
    FieldOfEncode(es, 0);
    FieldOfEncode(es, 5);
    FieldOfEncode(es, 6);
    FieldOfEncode(es, 7);
    FieldOfEncode(es, 8);
    assert |es[5].content| <= 0xffff && |es[7].content| <= 0xffff && |es[8].content| <= 0xffff;
    ContextBitsReads(TICKET_FLAGS);
    TimeFieldReads(s.now);
    TimeFieldReads(s.endTime);
    TimeFieldReads(s.renewTill);
    if pac.Some? {
      FieldOfEncode(es, 9);
      assert |es[9].content| <= 0xffff;
      AuthorizationDataReads(pac.value);
    } else {
      NoSuchField(es, 0xaa);
    }
  }

  lemma {:induction false} NoSuchField(es: seq<Element>, tag: byte)
    requires |Encode(es)| <= 0xffff && forall i :: 0 <= i < |es| ==> es[i].tag != tag
    ensures Field(Encode(es), tag) == None
  {
    hide Encode, Field;
    SequenceReads(es);
  }

  lemma {:induction false} KeyFieldReads(key: EncryptionKey)
    ensures |KeyBytes(key)| <= 0xffff ==> ContextKey(KeyBytes(key)) == Some(key)
  {
    hide ContextKey, Encode, KeySequence;
    SequenceBound(KeySequence(key));
    if |KeyBytes(key)| <= 0xffff {
      KeyReads(key);
    }
  }

  lemma {:induction false} TimeFieldReads(v: Text)
    ensures |GeneralizedTime(v)| <= 0xffff ==> ContextTime(GeneralizedTime(v)) == Some(v)
  {
    hide Inner, Tlv;
    TlvBound(0x18, v);
    if |v| <= 0xffff {
      InnerOfTlv(0x18, v);
    }
  }

  lemma {:induction false} StringFieldReads(v: Text)
    ensures |KerberosString(v)| <= 0xffff ==> ContextString(KerberosString(v)) == Some(v)
  {
    hide ContextString;
    if |KerberosString(v)| <= 0xffff {
      ContextStringReads(v);
    }
  }

  lemma {:induction false} NameFieldReads(name: Text)
    ensures |PrincipalBytes(name)| <= 0xffff ==> ContextPrincipal(PrincipalBytes(name)) == Some(ReadBack(name))
  {
    hide ContextPrincipal, Encode, NameSequence, ReadBack;
    SequenceBound(NameSequence(name));
    if |PrincipalBytes(name)| <= 0xffff {
      PrincipalReads(name);
    }
  }

  lemma {:induction false} DataFieldReads(d: EncryptedData)
    ensures |DataBytes(d)| <= 0xffff ==> DataFromDer(DataBytes(d)) == Some(d) && |d.cipher| <= 0xffff
  {
    hide DataFromDer, Encode, Tlv;
    var es := DataSequence(d);
    SequenceBound(es);
    if |DataBytes(d)| <= 0xffff {
      DataReads(d);
      EncodeBound(es);
      assert es[1].content == Tlv(0x04, d.cipher);
      TlvBound(0x04, d.cipher);
      assert |es[1].content| <= 0xffff;
    }
  }

  // ---------- Tickets and AP-REQ ----------

  function ServiceTicketFields(realm: Text, service: Text, data: EncryptedData): (es: seq<Element>)
    ensures |es| == 4
  {
    [Element(0xa0, IntegerTlv(5)),
     Element(0xa1, KerberosString(Upper(realm))),
     Element(0xa2, PrincipalBytes(service)),
     Element(0xa3, DataBytes(data))]
  }

  /** ticket_for_service */
  function ServiceTicket(realm: Text, service: Text, data: EncryptedData): (s: Bytes) {
    Tlv(0x61, Sequence(ServiceTicketFields(realm, service, data)))
  }

  /** parse_ap_req; encrypted_data_from_context re-reads the node's own bytes, which finds the same element. */
  function ParseApReq(apReq: Bytes): (r: Option<ApReqInfo>)
  {
    var application :- Inner(apReq, 0x6e);
    var sequence :- Inner(application, 0x30);
    var ticketField :- Field(sequence, 0xa3);
    var authenticatorField :- Field(sequence, 0xa4);
    var ticketApplication :- Inner(ticketField, 0x61);
    var ticket :- Inner(ticketApplication, 0x30);
    var realmField :- Field(ticket, 0xa1);
    var nameField :- Field(ticket, 0xa2);
    var dataField :- Field(ticket, 0xa3);
    var realm :- ContextString(realmField);
    var name :- ContextPrincipal(nameField);
    var data :- DataFromDer(dataField);
    var authenticator :- DataFromDer(authenticatorField);
    var options := match Field(sequence, 0xa2) case Some(f) => ContextBits(f).GetOr(0) case None => 0;
    Some(ApReqInfo(options, realm, name, data, authenticator))
  }

  function ApReqFields(options: u32, ticket: Bytes, authenticator: EncryptedData): (es: seq<Element>)
    ensures |es| == 5
  {
    [Element(0xa0, IntegerTlv(5)),
     Element(0xa1, IntegerTlv(14)),
     Element(0xa2, BitString(options)),
     Element(0xa3, ticket),
     Element(0xa4, DataBytes(authenticator))]
  }

  /** The AP-REQ a client makes of a ticket (section 5.5.1 of RFC 4120). */
  function ApReq(options: u32, ticket: Bytes, authenticator: EncryptedData): (s: Bytes) {
    Tlv(0x6e, Sequence(ApReqFields(options, ticket, authenticator)))
  }

  /** An AP-REQ that fits is read as the ticket and the authenticator it was made of. */
  lemma {:induction false} ApReqReads(
      options: u32, realm: Text, service: Text, data: EncryptedData, authenticator: EncryptedData)
    requires |ApReq(options, ServiceTicket(realm, service, data), authenticator)| <= 0xffff
    ensures ParseApReq(ApReq(options, ServiceTicket(realm, service, data), authenticator))
         == Some(ApReqInfo(options, Upper(realm), ReadBack(service), data, authenticator))
  {
    hide Tlv, Encode, Inner, Field, Sequence, ContextString, ContextPrincipal, DataFromDer, ContextBits, ReadBack,
      BitString, KerberosString, DataBytes, PrincipalBytes, IntegerTlv;
    var ts := ServiceTicketFields(realm, service, data);
    var es := ApReqFields(options, ServiceTicket(realm, service, data), authenticator);
    TlvBound(0x6e, Sequence(es));
    ApplicationReads(0x6e, es);
    FieldOfEncode(es, 2);
    FieldOfEncode(es, 3);
    FieldOfEncode(es, 4);
    assert |es[3].content| <= 0xffff && |es[4].content| <= 0xffff;
    TlvBound(0x61, Sequence(ts));
    ApplicationReads(0x61, ts);
    FieldOfEncode(ts, 1);
    FieldOfEncode(ts, 2);
    FieldOfEncode(ts, 3);
    assert |ts[1].content| <= 0xffff && |ts[2].content| <= 0xffff && |ts[3].content| <= 0xffff;
    StringFieldReads(Upper(realm));
    NameFieldReads(service);
    DataFieldReads(data);
    DataFieldReads(authenticator);
    ContextBitsReads(options);
  }

  // ---------- Authenticators ----------

  /** Decrypts an authenticator under the session key of its ticket. */
  function OpenAuthenticator(
      c: Crypto, authenticator: EncryptedData, session: TicketSession, usage: u32): (r: Option<Bytes>)
    requires Lawful(c)
  {
    if authenticator.enctype != session.key.enctype then None
    else Decrypt(c, authenticator.cipher, BytesToHex(session.key.value), usage)
  }

  /** validate_tgs_authenticator */
  predicate ValidTgsAuthenticator(c: Crypto, authenticator: EncryptedData, session: TicketSession)
    requires Lawful(c)
  {
    match OpenAuthenticator(c, authenticator, session, 7)
    case Some(plaintext) => Inner(plaintext, 0x62).Some?
    case None => false
  }

  function ReadAuthenticator(plaintext: Bytes): (r: Option<AuthenticatorInfo>)
  {
    var application :- Inner(plaintext, 0x62);
    var sequence :- Inner(application, 0x30);
    var cusecField :- Field(sequence, 0xa4);
    var ctimeField :- Field(sequence, 0xa5);
    var cusec :- ContextInteger(cusecField);
    var ctime :- ContextTime(ctimeField);
    Some(AuthenticatorInfo(cusec, ctime, match Field(sequence, 0xa6) case Some(f) => ContextKey(f) case None => None))
  }

  /** parse_ap_req_authenticator */
  function ParseAuthenticator(
      c: Crypto, authenticator: EncryptedData, session: TicketSession): (r: Option<AuthenticatorInfo>)
    requires Lawful(c)
  {
    var plaintext :- OpenAuthenticator(c, authenticator, session, 11);
    ReadAuthenticator(plaintext)
  }

  /** What a client seals under the session key opens under it. */
  lemma {:induction false} AuthenticatorOpens(
      c: Crypto, plaintext: Bytes, session: TicketSession, usage: u32, confounder: Bytes)
    requires Lawful(c) && plaintext != [] && IsAesKey(session.key.value) && |confounder| == 16
    ensures var cipher := Encrypt(c, plaintext, BytesToHex(session.key.value), usage, confounder);
            && cipher.Some?
            && OpenAuthenticator(c, EncryptedData(session.key.enctype, cipher.value), session, usage) == Some(plaintext)
  {
    hide Encrypt, Decrypt;
    SessionKeyIsUsable(session.key.value);
    EncryptSucceeds(c, plaintext, BytesToHex(session.key.value), usage, confounder);
    DecryptInvertsEncrypt(c, plaintext, BytesToHex(session.key.value), usage, confounder);
  }

  // ---------- Replies ----------

  function KeySize(enctype: i32): (n: nat)
    ensures n == 0 || n == 16 || n == 32
  {
    if enctype == 18 then 32 else if enctype == 17 then 16 else 0
  }

  function LastRequest(text: Text): (s: Bytes) {
    Tlv(0x30, Sequence([Element(0xa0, IntegerTlv(0)), Element(0xa1, GeneralizedTime(text))]))
  }

  function ReplyPartFields(key: EncryptionKey, nonce: i32, realm: Text, name: Bytes, s: Supplies): (es: seq<Element>)
    ensures |es| == 10
  {
    [Element(0xa0, KeyBytes(key)),
     Element(0xa1, LastRequest(s.lastRequest)),
     Element(0xa2, IntegerTlv(nonce)),
     Element(0xa4, BitString(TICKET_FLAGS)),
     Element(0xa5, GeneralizedTime(s.now)),
     Element(0xa6, GeneralizedTime(s.now)),
     Element(0xa7, GeneralizedTime(s.endTime)),
     Element(0xa8, GeneralizedTime(s.renewTill)),
     Element(0xa9, KerberosString(realm)),
     Element(0xaa, name)]
  }

  /** enc_as_rep_part (tag 0x79) and enc_tgs_rep_part (tag 0x7a). */
  function ReplyPart(tag: byte, key: EncryptionKey, nonce: i32, realm: Text, name: Bytes, s: Supplies): (r: Bytes) {
    Tlv(tag, Sequence(ReplyPartFields(key, nonce, realm, name, s)))
  }

  function ReplyFields(
      messageType: i32, realm: Text, client: Text, ticket: Bytes, data: EncryptedData): (es: seq<Element>)
    ensures |es| == 6
  {
    [Element(0xa0, IntegerTlv(5)),
     Element(0xa1, IntegerTlv(messageType)),
     Element(0xa3, KerberosString(realm)),
     Element(0xa4, PrincipalBytes(client)),
     Element(0xa5, ticket),
     Element(0xa6, DataBytes(data))]
  }

  function Reply(
      tag: byte, messageType: i32, realm: Text, client: Text, ticket: Bytes, data: EncryptedData): (r: Bytes) {
    Tlv(tag, Sequence(ReplyFields(messageType, realm, client, ticket, data)))
  }

  /** principal_name with an instance, neither of them split. */
  function PairBytes(primary: Text, instance: Text): (s: Bytes) {
    var parts := if instance == [] then [primary] else [primary, instance];
    Sequence([Element(0xa0, IntegerTlv(|parts|)), Element(0xa1, Tlv(0x30, Encode(StringElements(parts))))])
  }

  function IssuedName(client: Principal, requested: Text): (name: Text) {
    if client.name == [] then requested else client.name
  }

  function FreshKey(enctype: i32, s: Supplies): (key: EncryptionKey)
    requires Sufficient(s)
    ensures |key.value| == KeySize(enctype)
  {
    EncryptionKey(enctype, s.randomKey[..KeySize(enctype)])
  }

  /** A ticket for a service, sealed under the service's key. */
  function SealedTicket(
      c: Crypto, realm: Text, client: Text, key: EncryptionKey, serviceKey: KerberosKey, kdcKey: KerberosKey,
      s: Supplies)
      : (r: Option<Bytes>)
    requires Lawful(c) && Sufficient(s)
  {
    var pac := Pac.MinimalPac(c, s.identity, serviceKey, kdcKey);
    Encrypt(c, TicketPart(realm, client, key, s, pac), serviceKey.keyHex, 2, s.ticketConfounder)
  }

  /** as_rep; None where it throws. */
  function AsRep(c: Crypto, info: RealmInfo, requestRealm: Text, requestClient: Text, nonce: i32, client: Principal,
                 clientKey: KerberosKey, krbtgtKey: KerberosKey, enctype: i32, s: Supplies): (r: Option<Bytes>)
    requires Lawful(c) && Sufficient(s)
  {
    var realm := EffectiveRealm(requestRealm, info);
    if KeySize(enctype) == 0 then None
    else
      var name := IssuedName(client, requestClient);
      var key := FreshKey(enctype, s);
      var sealed :- SealedTicket(c, realm, name, key, krbtgtKey, krbtgtKey, s);
      var part := ReplyPart(0x79, key, nonce, realm, PairBytes(KdcName(info), realm), s);
      var cipher :- Encrypt(c, part, clientKey.keyHex, 3, s.replyConfounder);
      var ticket := ServiceTicket(realm, KdcName(info) + [SLASH] + realm, EncryptedData(enctype, sealed));
      Some(Reply(0x6b, 11, realm, name, ticket, EncryptedData(enctype, cipher)))
  }

  /** tgs_rep; None where it throws. */
  function TgsRep(c: Crypto, info: RealmInfo, requestRealm: Text, nonce: i32, tgt: TicketSession, service: Text,
                  serviceKey: KerberosKey, krbtgtKey: KerberosKey, s: Supplies): (r: Option<Bytes>)
    requires Lawful(c) && Sufficient(s)
  {
    var realm := EffectiveRealm(requestRealm, info);
    if KeySize(serviceKey.enctype) == 0 then None
    else
      var key := FreshKey(serviceKey.enctype, s);
      var sealed :- SealedTicket(c, realm, tgt.client, key, serviceKey, krbtgtKey, s);
      var part := ReplyPart(0x7a, key, nonce, realm, PrincipalBytes(service), s);
      var cipher :- Encrypt(c, part, BytesToHex(tgt.key.value), 8, s.replyConfounder);
      var ticket := ServiceTicket(realm, service, EncryptedData(serviceKey.enctype, sealed));
      Some(Reply(0x6d, 13, realm, tgt.client, ticket, EncryptedData(tgt.key.enctype, cipher)))
  }

  /** An AS-REP can be built exactly for AES types whose keys are AES keys. */
  lemma AsRepSucceeds(
      c: Crypto, info: RealmInfo, requestRealm: Text, requestClient: Text, nonce: i32, client: Principal,
      clientKey: KerberosKey, krbtgtKey: KerberosKey, enctype: i32, s: Supplies)
    requires Lawful(c) && Sufficient(s)
    ensures AsRep(c, info, requestRealm, requestClient, nonce, client, clientKey, krbtgtKey, enctype, s).Some?
       <==> KeySize(enctype) != 0 && AesKey(krbtgtKey.keyHex).Some? && AesKey(clientKey.keyHex).Some?
  {
    hide Encrypt, TicketPart, ReplyPart, FreshKey, KeySize, AesKey, PairBytes, Reply, ServiceTicket, EffectiveRealm;
    var realm := EffectiveRealm(requestRealm, info);
    var name, key := IssuedName(client, requestClient), FreshKey(enctype, s);
    EncryptSucceeds(c, TicketPart(realm, name, key, s, Pac.MinimalPac(c, s.identity, krbtgtKey, krbtgtKey)),
                    krbtgtKey.keyHex, 2, s.ticketConfounder);
    EncryptSucceeds(c, ReplyPart(0x79, key, nonce, realm, PairBytes(KdcName(info), realm), s), clientKey.keyHex, 3,
                    s.replyConfounder);
  }

  /** And a TGS-REP exactly for an AES service key and an AES session key of the presented ticket. */
  lemma TgsRepSucceeds(c: Crypto, info: RealmInfo, requestRealm: Text, nonce: i32, tgt: TicketSession, service: Text,
                       serviceKey: KerberosKey, krbtgtKey: KerberosKey, s: Supplies)
    requires Lawful(c) && Sufficient(s)
    ensures TgsRep(c, info, requestRealm, nonce, tgt, service, serviceKey, krbtgtKey, s).Some?
       <==> && KeySize(serviceKey.enctype) != 0
            && AesKey(serviceKey.keyHex).Some? && AesKey(BytesToHex(tgt.key.value)).Some?
  {
    hide Encrypt, TicketPart, ReplyPart, FreshKey, KeySize, AesKey, PrincipalBytes, Reply, ServiceTicket,
      EffectiveRealm, BytesToHex;
    var realm := EffectiveRealm(requestRealm, info);
    var key := FreshKey(serviceKey.enctype, s);
    EncryptSucceeds(c, TicketPart(realm, tgt.client, key, s, Pac.MinimalPac(c, s.identity, serviceKey, krbtgtKey)),
                    serviceKey.keyHex, 2, s.ticketConfounder);
    EncryptSucceeds(c, ReplyPart(0x7a, key, nonce, realm, PrincipalBytes(service), s), BytesToHex(tgt.key.value), 8,
                    s.replyConfounder);
  }

  // ---------- What the other side makes of a reply (sections 5.4.2 and 3.1.5 of RFC 4120) ----------

  datatype ReplyInfo = ReplyInfo(messageType: i32, realm: Text, client: Text, ticket: Bytes, data: EncryptedData)

  datatype ReplyContents = ReplyContents(
    key: EncryptionKey,
    nonce: i32,
    flags: u32,
    authTime: Text,
    startTime: Text,
    endTime: Text,
    renewTill: Text,
    realm: Text,
    service: Text)

  function Contents(key: EncryptionKey, nonce: i32, realm: Text, service: Text, s: Supplies): (r: ReplyContents) {
    ReplyContents(key, nonce, TICKET_FLAGS, s.now, s.now, s.endTime, s.renewTill, realm, service)
  }

  function ReadReply(reply: Bytes, tag: byte): (r: Option<ReplyInfo>)
  {
    var application :- Inner(reply, tag);
    var sequence :- Inner(application, 0x30);
    var typeField :- Field(sequence, 0xa1);
    var realmField :- Field(sequence, 0xa3);
    var nameField :- Field(sequence, 0xa4);
    var ticket :- Field(sequence, 0xa5);
    var dataField :- Field(sequence, 0xa6);
    var messageType :- ContextInteger(typeField);
    var realm :- ContextString(realmField);
    var client :- ContextPrincipal(nameField);
    var data :- DataFromDer(dataField);
    Some(ReplyInfo(messageType, realm, client, ticket, data))
  }

  function ReadReplyPart(plaintext: Bytes, tag: byte): (r: Option<ReplyContents>)
  {
    var application :- Inner(plaintext, tag);
    var sequence :- Inner(application, 0x30);
    var keyField :- Field(sequence, 0xa0);
    var nonceField :- Field(sequence, 0xa2);
    var flagsField :- Field(sequence, 0xa4);
    var authField :- Field(sequence, 0xa5);
    var startField :- Field(sequence, 0xa6);
    var endField :- Field(sequence, 0xa7);
    var renewField :- Field(sequence, 0xa8);
    var realmField :- Field(sequence, 0xa9);
    var nameField :- Field(sequence, 0xaa);
    var key :- ContextKey(keyField);
    var nonce :- ContextInteger(nonceField);
    var flags :- ContextBits(flagsField);
    var authTime :- ContextTime(authField);
    var startTime :- ContextTime(startField);
    var endTime :- ContextTime(endField);
    var renewTill :- ContextTime(renewField);
    var realm :- ContextString(realmField);
    var service :- ContextPrincipal(nameField);
    Some(ReplyContents(key, nonce, flags, authTime, startTime, endTime, renewTill, realm, service))
  }

  lemma {:induction false} ReplyReads(
      tag: byte, messageType: i32, realm: Text, client: Text, ticket: Bytes, data: EncryptedData)
    requires |Reply(tag, messageType, realm, client, ticket, data)| <= 0xffff
    ensures ReadReply(Reply(tag, messageType, realm, client, ticket, data), tag)
         == Some(ReplyInfo(messageType, realm, ReadBack(client), ticket, data))
    ensures |data.cipher| <= 0xffff && |ticket| <= 0xffff
  {
    hide Tlv, Encode, Inner, Field, Sequence, DataFromDer, IntegerTlv, KerberosString, PrincipalBytes, DataBytes,
      ContextInteger, ContextString, ContextPrincipal, ReadBack;
    var es := ReplyFields(messageType, realm, client, ticket, data);
    TlvBound(tag, Sequence(es));
    ApplicationReads(tag, es);
    FieldOfEncode(es, 1);
    FieldOfEncode(es, 2);
    FieldOfEncode(es, 3);
    FieldOfEncode(es, 4);
    FieldOfEncode(es, 5);
    assert |es[2].content| <= 0xffff && |es[3].content| <= 0xffff && |es[4].content| <= 0xffff
           && |es[5].content| <= 0xffff;
    ContextIntegerReads(messageType);
    StringFieldReads(realm);
    NameFieldReads(client);
    DataFieldReads(data);
  }

  /** All field contents of a reply part are short. */
  lemma {:induction false} ReplyPartFieldsRead(key: EncryptionKey, nonce: i32, realm: Text, name: Bytes, s: Supplies)
    requires |Encode(ReplyPartFields(key, nonce, realm, name, s))| <= 0xffff
    ensures var e := Encode(ReplyPartFields(key, nonce, realm, name, s));
            && Field(e, 0xa0) == Some(KeyBytes(key)) && |KeyBytes(key)| <= 0xffff
            && Field(e, 0xa2) == Some(IntegerTlv(nonce))
            && Field(e, 0xa4) == Some(BitString(TICKET_FLAGS))
            && Field(e, 0xa5) == Some(GeneralizedTime(s.now)) && |GeneralizedTime(s.now)| <= 0xffff
            && Field(e, 0xa6) == Some(GeneralizedTime(s.now))
            && Field(e, 0xa7) == Some(GeneralizedTime(s.endTime)) && |GeneralizedTime(s.endTime)| <= 0xffff
            && Field(e, 0xa8) == Some(GeneralizedTime(s.renewTill)) && |GeneralizedTime(s.renewTill)| <= 0xffff
            && Field(e, 0xa9) == Some(KerberosString(realm)) && |KerberosString(realm)| <= 0xffff
            && Field(e, 0xaa) == Some(name) && |name| <= 0xffff
  {
    hide Tlv, Encode, Field, Sequence, IntegerTlv, KerberosString, KeyBytes, BitString, GeneralizedTime, LastRequest;
    var es := ReplyPartFields(key, nonce, realm, name, s);
    EncodeBound(es);
    FieldOfEncode(es, 0);
    FieldOfEncode(es, 2);
    FieldOfEncode(es, 3);
    FieldOfEncode(es, 4);
    FieldOfEncode(es, 5);
    FieldOfEncode(es, 6);
    FieldOfEncode(es, 7);
    FieldOfEncode(es, 8);
    FieldOfEncode(es, 9);
    assert |es[0].content| <= 0xffff && |es[4].content| <= 0xffff && |es[6].content| <= 0xffff
           && |es[7].content| <= 0xffff
        && |es[8].content| <= 0xffff && |es[9].content| <= 0xffff;
  }

  lemma {:induction false} ReplyPartReads(
      tag: byte, key: EncryptionKey, nonce: i32, realm: Text, name: Bytes, service: Text, s: Supplies)
    requires |ReplyPart(tag, key, nonce, realm, name, s)| <= 0xffff
    requires |name| <= 0xffff ==> ContextPrincipal(name) == Some(service)
    ensures ReadReplyPart(ReplyPart(tag, key, nonce, realm, name, s), tag)
         == Some(Contents(key, nonce, realm, service, s))
    ensures ReplyPart(tag, key, nonce, realm, name, s) != []
  {
    hide Tlv, Encode, Inner, Field, Sequence, ContextKey, ContextInteger, ContextBits, ContextTime, ContextString,
      ContextPrincipal, IntegerTlv, KerberosString, KeyBytes, BitString, GeneralizedTime, ReplyPartFields;
    var es := ReplyPartFields(key, nonce, realm, name, s);
    TlvBound(tag, Sequence(es));
    ApplicationReads(tag, es);
    ReplyPartFieldsRead(key, nonce, realm, name, s);
    KeyFieldReads(key);
    ContextIntegerReads(nonce);
    ContextBitsReads(TICKET_FLAGS);
    TimeFieldReads(s.now);
    TimeFieldReads(s.endTime);
    TimeFieldReads(s.renewTill);
    StringFieldReads(realm);
  }

  function PairText(primary: Text, instance: Text): (s: Text) {
    if instance == [] then primary else primary + [SLASH] + instance
  }

  /** principal_name's two parts are read as one name with a slash. */
  lemma {:induction false} PairReads(primary: Text, instance: Text)
    requires primary != []
    ensures |PairBytes(primary, instance)| <= 0xffff
        ==> ContextPrincipal(PairBytes(primary, instance)) == Some(PairText(primary, instance))
  {
    hide Tlv, Encode, Inner, Field, Elements, Complete, IntegerTlv, StringElements;
    var parts := if instance == [] then [primary] else [primary, instance];
    var strings := Encode(StringElements(parts));
    var es := [Element(0xa0, IntegerTlv(|parts|)), Element(0xa1, Tlv(0x30, strings))];
    if |PairBytes(primary, instance)| <= 0xffff {
      TlvBound(0x30, Encode(es));
      SequenceReads(es);
      FieldOfEncode(es, 1);
      TlvBound(0x30, strings);
      assert |es[1].content| <= 0xffff;
      InnerOfTlv(0x30, strings);
      EncodeBound(StringElements(parts));
      ElementsOfEncode(StringElements(parts));
      StringsOfElements(parts);
      JoinPair(primary, instance);
    }
  }

  lemma {:induction false} JoinPair(primary: Text, instance: Text)
    requires primary != []
    ensures JoinRead([], if instance == [] then [primary] else [primary, instance]) == PairText(primary, instance)
  {
    var none: seq<Text> := [];
    assert [primary][1..] == none;
    if instance != [] {
      assert [primary, instance][1..] == [instance];
      assert [instance][1..] == none;
      assert JoinRead([], [primary, instance]) == JoinRead(primary, [instance]);
      assert JoinRead(primary, [instance]) == JoinRead(primary + [SLASH] + instance, none);
    }
  }

  /** A sealed ticket that fits opens, under the service's key, to exactly the issued session. */
  lemma {:induction false} SealedTicketOpens(
      c: Crypto, realm: Text, client: Text, key: EncryptionKey, serviceKey: KerberosKey, kdcKey: KerberosKey,
      s: Supplies)
    requires Lawful(c) && Sufficient(s)
    requires SealedTicket(c, realm, client, key, serviceKey, kdcKey, s).Some?
    requires |SealedTicket(c, realm, client, key, serviceKey, kdcKey, s).value| <= 0xffff
    ensures var plaintext := Decrypt(c, SealedTicket(c, realm, client, key, serviceKey, kdcKey, s).value,
                                     serviceKey.keyHex, 2);
            plaintext.Some?
            && ParseTicketPart(plaintext.value) == Some(TicketSession(ReadBack(client), Upper(realm), key))
            && ReadTicketLife(plaintext.value) == Some(TicketLife(TICKET_FLAGS, s.now, s.now, s.endTime, s.renewTill))
            && ReadPac(plaintext.value) == Pac.MinimalPac(c, s.identity, serviceKey, kdcKey)
  {
    hide Tlv, Encrypt, Decrypt, Sequence, TicketFields, ParseTicketPart, ReadBack, ReadTicketLife, ReadPac;
    var pac := Pac.MinimalPac(c, s.identity, serviceKey, kdcKey);
    var part := TicketPart(realm, client, key, s, pac);
    EncryptSucceeds(c, part, serviceKey.keyHex, 2, s.ticketConfounder);
    DecryptInvertsEncrypt(c, part, serviceKey.keyHex, 2, s.ticketConfounder);
    TlvBound(0x63, Sequence(TicketFields(realm, client, key, s, pac)));
    TicketPartReads(realm, client, key, s, pac);
    TicketPartStates(realm, client, key, s, pac);
  }

  /** An AS-REP that fits: the client, under its own key, reads the new session key and its nonce; the ticket, under
      the key of krbtgt, holds the same session key for the same client in the upper-case realm. */
  lemma {:induction false} AsRepOpens(
      c: Crypto, info: RealmInfo, requestRealm: Text, requestClient: Text, nonce: i32, client: Principal,
      clientKey: KerberosKey, krbtgtKey: KerberosKey, enctype: i32, s: Supplies)
    requires Lawful(c) && Sufficient(s)
    requires var reply := AsRep(c, info, requestRealm, requestClient, nonce, client, clientKey, krbtgtKey, enctype, s);
             reply.Some? && |reply.value| <= 0xffff
    ensures var reply := AsRep(c, info, requestRealm, requestClient, nonce, client, clientKey, krbtgtKey, enctype,
                               s).value;
            var realm := EffectiveRealm(requestRealm, info);
            var name := IssuedName(client, requestClient);
            var key := FreshKey(enctype, s);
            var sealed := SealedTicket(c, realm, name, key, krbtgtKey, krbtgtKey, s);
            && sealed.Some?
            && ReadReply(reply, 0x6b).Some?
            && var r := ReadReply(reply, 0x6b).value;
            && r.ticket == ServiceTicket(realm, KdcName(info) + [SLASH] + realm, EncryptedData(enctype, sealed.value))
            && |r.ticket| <= 0xffff
            && r.messageType == 11 && r.realm == realm && r.client == ReadBack(name) && r.data.enctype == enctype
            && var plaintext := Decrypt(c, r.data.cipher, clientKey.keyHex, 3);
            && plaintext.Some?
            && ReadReplyPart(plaintext.value, 0x79)
                == Some(Contents(key, nonce, realm, PairText(KdcName(info), realm), s))
  {
    hide SealedTicket, Encrypt, Decrypt, ReadReply, Reply, ReadReplyPart, ReplyPart, PairBytes, ServiceTicket, FreshKey,
      KeySize, ContextPrincipal, ReadBack, PairText;
    var realm := EffectiveRealm(requestRealm, info);
    var name := IssuedName(client, requestClient);
    var key := FreshKey(enctype, s);
    var sealed := SealedTicket(c, realm, name, key, krbtgtKey, krbtgtKey, s).value;
    var part := ReplyPart(0x79, key, nonce, realm, PairBytes(KdcName(info), realm), s);
    var cipher := Encrypt(c, part, clientKey.keyHex, 3, s.replyConfounder).value;
    var ticket := ServiceTicket(realm, KdcName(info) + [SLASH] + realm, EncryptedData(enctype, sealed));
    ReplyReads(0x6b, 11, realm, name, ticket, EncryptedData(enctype, cipher));
    EncryptSucceeds(c, part, clientKey.keyHex, 3, s.replyConfounder);
    DecryptInvertsEncrypt(c, part, clientKey.keyHex, 3, s.replyConfounder);
    PairReads(KdcName(info), realm);
    ReplyPartReads(0x79, key, nonce, realm, PairBytes(KdcName(info), realm), PairText(KdcName(info), realm), s);
  }

  /** The same for a TGS-REP, whose encrypted part is for the session of the ticket-granting ticket. */
  lemma {:induction false} TgsRepOpens(
      c: Crypto, info: RealmInfo, requestRealm: Text, nonce: i32, tgt: TicketSession, service: Text,
      serviceKey: KerberosKey, krbtgtKey: KerberosKey, s: Supplies)
    requires Lawful(c) && Sufficient(s)
    requires var reply := TgsRep(c, info, requestRealm, nonce, tgt, service, serviceKey, krbtgtKey, s);
             reply.Some? && |reply.value| <= 0xffff
    ensures var reply := TgsRep(c, info, requestRealm, nonce, tgt, service, serviceKey, krbtgtKey, s).value;
            var realm := EffectiveRealm(requestRealm, info);
            var key := FreshKey(serviceKey.enctype, s);
            var sealed := SealedTicket(c, realm, tgt.client, key, serviceKey, krbtgtKey, s);
            && sealed.Some?
            && ReadReply(reply, 0x6d).Some?
            && var r := ReadReply(reply, 0x6d).value;
            && r.ticket == ServiceTicket(realm, service, EncryptedData(serviceKey.enctype, sealed.value))
            && |r.ticket| <= 0xffff
            && r.messageType == 13 && r.realm == realm && r.client == ReadBack(tgt.client)
            && r.data.enctype == tgt.key.enctype
            && var plaintext := Decrypt(c, r.data.cipher, BytesToHex(tgt.key.value), 8);
            && plaintext.Some?
            && ReadReplyPart(plaintext.value, 0x7a) == Some(Contents(key, nonce, realm, ReadBack(service), s))
  {
    hide SealedTicket, Encrypt, Decrypt, ReadReply, Reply, ReadReplyPart, ReplyPart, ServiceTicket, FreshKey, KeySize,
      BytesToHex, ContextPrincipal, ReadBack, PrincipalBytes;
    var realm := EffectiveRealm(requestRealm, info);
    var key := FreshKey(serviceKey.enctype, s);
    var sealed := SealedTicket(c, realm, tgt.client, key, serviceKey, krbtgtKey, s).value;
    var part := ReplyPart(0x7a, key, nonce, realm, PrincipalBytes(service), s);
    var cipher := Encrypt(c, part, BytesToHex(tgt.key.value), 8, s.replyConfounder).value;
    var ticket := ServiceTicket(realm, service, EncryptedData(serviceKey.enctype, sealed));
    ReplyReads(0x6d, 13, realm, tgt.client, ticket, EncryptedData(tgt.key.enctype, cipher));
    EncryptSucceeds(c, part, BytesToHex(tgt.key.value), 8, s.replyConfounder);
    DecryptInvertsEncrypt(c, part, BytesToHex(tgt.key.value), 8, s.replyConfounder);
    NameFieldReads(service);
    ReplyPartReads(0x7a, key, nonce, realm, PrincipalBytes(service), ReadBack(service), s);
  }
}
