/** The whole exchange on bytes: the requests a client writes, from its long-term key to the session with a service
    (libs/protocol/src/kerberos.cpp). */
module ClientLifeCycle {
  import opened Octets
  import opened Texts
  import opened Der
  import opened KerberosFields
  import opened KerberosCrypto
  import opened PrincipalNames
  import opened KerberosAccounts
  import opened KerberosTickets
  import opened Kdc
  import opened ClientRequests
  import opened Tickets = TicketLifeCycle

  /** What a client logs in with: names, its long-term key, and the timestamp it seals. */
  datatype Login = Login(
    client: Text,
    realm: Text,
    service: Text,
    till: Text,
    nonce: i32,
    etypes: seq<i32>,
    key: KerberosKey,
    timestamp: Bytes,
    confounder: Bytes)

  /** What it asks the TGS for: names, and the authenticator it seals. */
  datatype Wish = Wish(
    realm: Text,
    service: Text,
    till: Text,
    nonce: i32,
    etypes: seq<i32>,
    options: u32,
    authenticator: Bytes,
    confounder: Bytes)

  function SealedTimestamp(c: Crypto, l: Login): (d: EncryptedData)
    requires Lawful(c)
  {
    EncryptedData(l.key.enctype, Encrypt(c, l.timestamp, l.key.keyHex, 1, l.confounder).GetOr([]))
  }

  function AsRequest(c: Crypto, l: Login): (q: ClientRequest)
    requires Lawful(c)
  {
    ClientRequest(10, 2, DataBytes(SealedTimestamp(c, l)), l.client, l.realm, l.service, l.till, l.nonce, l.etypes)
  }

  /** The ticket of an AS-REP, presented to the TGS under its session key. */
  function TgsRequest(c: Crypto, reply: Bytes, key: EncryptionKey, w: Wish): (q: ClientRequest)
    requires Lawful(c)
  {
    ClientRequest(12, 1, Presented(c, w.options, TicketIn(reply, 0x6b), key, w.authenticator, 7, w.confounder),
                  [], w.realm, w.service, w.till, w.nonce, w.etypes)
  }

  /** The session key in an AS-REP, opened under a long-term key. */
  function LoginKey(c: Crypto, reply: Bytes, key: KerberosKey): (r: Option<EncryptionKey>)
    requires Lawful(c)
  {
    var message :- ReadReply(reply, 0x6b);
    if message.data.enctype != key.enctype then None
    else
      var plaintext :- Decrypt(c, message.data.cipher, key.keyHex, 3);
      var contents :- ReadReplyPart(plaintext, 0x79);
      Some(contents.key)
  }

  /** The value of the pre-authentication element fits wherever the request does. */
  lemma {:induction false} PadataValueFits(q: ClientRequest)
    ensures |RequestBytes(q)| <= 0xffff ==> |q.padataValue| <= 0xffff
  {
    hide Tlv, Encode, IntegerTlv, BodyFields;
    if |RequestBytes(q)| <= 0xffff {
      var es, fields := RequestFields(q), PadataFields(q);
      TlvBound(if q.kind == 10 then 0x6a else 0x6c, Sequence(es));
      TlvBound(0x30, Encode(es));
      EncodeBound(es);
      var list := [Element(0x30, Encode(fields))];
      assert es[2].content == Sequence(list);
      TlvBound(0x30, Encode(list));
      EncodeBound(list);
      assert |list[0].content| <= 0xffff;
      EncodeBound(fields);
      assert fields[1].content == Tlv(0x04, q.padataValue) && |fields[1].content| <= 0xffff;
      TlvBound(0x04, q.padataValue);
    }
  }

  /** The KDC reads the login: the client's names and wishes, and the timestamp it sealed. */
  lemma {:induction false} LoginReads(c: Crypto, l: Login)
    requires Lawful(c) && CanonicalName(l.client) && |RequestBytes(AsRequest(c, l))| <= 0xffff
    ensures var r := ParseRequest(RequestBytes(AsRequest(c, l)));
            && r.valid && r.messageType == 10 && r.client == l.client && r.realm == l.realm && r.nonce == l.nonce
            && r.etypes == l.etypes
            && r.hasPadata && r.padata.types == [2] && r.padata.timestamps == [SealedTimestamp(c, l)]
  {
    hide RequestBytes, ParseRequest, Encrypt, DataBytes, DataFromDer, ReadBack, Lawful, SealedTimestamp;
    var q := AsRequest(c, l);
    PadataValueFits(q);
    RequestReads(q);
    DataFieldReads(SealedTimestamp(c, l));
    ReadBackExactlyWhen(l.client);
  }

  /** And the TGS request: the AP-REQ it carries. */
  lemma {:induction false} WishReads(c: Crypto, reply: Bytes, key: EncryptionKey, w: Wish)
    requires Lawful(c) && |RequestBytes(TgsRequest(c, reply, key, w))| <= 0xffff
    requires Inner(w.authenticator, 0x62).Some? && |w.confounder| == 16
    ensures Follows(c, RequestBytes(TgsRequest(c, reply, key, w)), reply, key, w.options, w.authenticator, w.confounder)
    ensures ParseRequest(RequestBytes(TgsRequest(c, reply, key, w))) == Meant(TgsRequest(c, reply, key, w))
  {
    hide RequestBytes, ParseRequest, DataFromDer, ReadBack, Lawful, Presented, TicketIn, Inner;
    var q := TgsRequest(c, reply, key, w);
    PadataValueFits(q);
    RequestReads(q);
  }

  /** What is sealed under a key of the account opens for it, and counts exactly if it is a timestamp. */
  lemma {:induction false} TimestampDecides(c: Crypto, l: Login, p: Principal)
    requires Lawful(c) && l.timestamp != [] && |l.confounder| == 16
    requires KeyFor(p, l.key.enctype) == Some(l.key) && AesKey(l.key.keyHex).Some?
    ensures TimestampOpens(c, p, SealedTimestamp(c, l)) <==> IsTimestamp(l.timestamp)
  {
    hide Encrypt, Decrypt, KeyFor, AesKey, IsTimestamp, Lawful;
    EncryptSucceeds(c, l.timestamp, l.key.keyHex, 1, l.confounder);
    DecryptInvertsEncrypt(c, l.timestamp, l.key.keyHex, 1, l.confounder);
  }

  lemma TimestampNotEmpty(plaintext: Bytes)
    requires IsTimestamp(plaintext)
    ensures plaintext != []
  {
    hide ReadLength;
  }

  /** The client holds a key of a known, unblocked account and seals a timestamp under it; krbtgt is known, and both
      have AES keys of the type the reply uses. */
  ghost predicate MayLogIn(info: RealmInfo, l: Login, p: Principal, krbtgt: Principal, e: i32) {
    && l.client != [] && FindPrincipal(info, l.client, l.realm) == Some(p) && p.hasKeyMaterial && !Blocked(p)
    && KeyFor(p, l.key.enctype) == Some(l.key) && AesKey(l.key.keyHex).Some?
    && IsTimestamp(l.timestamp) && |l.confounder| == 16
    && FindByName(info, KdcName(info)) == Some(krbtgt) && ReplyEtype(l.etypes, p, krbtgt, l.key.enctype, e)
    && KeySize(e) != 0 && BothHave(p, krbtgt, e)
    && AesKey(KeyFor(p, e).value.keyHex).Some? && AesKey(KeyFor(krbtgt, e).value.keyHex).Some?
  }

  /** The AS request bytes of such a client are answered with a ticket-granting ticket. */
  lemma {:induction false} LoginIsGranted(
    c: Crypto, info: RealmInfo, l: Login, s: Supplies, p: Principal, krbtgt: Principal, e: i32)
    requires Lawful(c) && Sufficient(s) && MayLogIn(info, l, p, krbtgt, e)
    requires CanonicalName(l.client) && |RequestBytes(AsRequest(c, l))| <= 0xffff
    ensures var answer := Respond(c, info, RequestBytes(AsRequest(c, l)), s);
            answer.AsReply? && IssuedTgt(c, info, RequestBytes(AsRequest(c, l)), s, answer.message, p, krbtgt, e)
  {
    hide RequestBytes, ParseRequest, Encrypt, DataBytes, Lawful, Sufficient, AsRequest, FindPrincipal, FindByName,
      KeyFor, AesKey, KeySize, IsTimestamp, ReplyEtype, TimestampOpens, AsRep, Respond, CanonicalName;
    var request := RequestBytes(AsRequest(c, l));
    LoginReads(c, l);
    TimestampNotEmpty(l.timestamp);
    TimestampDecides(c, l, p);
    var r := ParseRequest(request);
    assert MayHaveTgt(c, info, r, p, krbtgt, e);
    AsRepSucceeds(c, info, r.realm, r.client, r.nonce, p, KeyFor(p, e).value, KeyFor(krbtgt, e).value, e, s);
    var message := AsRep(c, info, r.realm, r.client, r.nonce, p, KeyFor(p, e).value, KeyFor(krbtgt, e).value, e,
                         s).value;
    AsReplyExactlyWhen(c, info, request, s, message);
  }

  /** What becomes of any login that seals something under an AES key: 6 for unknown clients, 18 for blocked ones, 14
      without a key of that type. Under the account's own key it is 24 exactly if no timestamp was sealed, and a
      ticket-granting ticket exactly if krbtgt and the keys of the reply's type allow it. */
  lemma {:induction false} LoginAnswered(c: Crypto, info: RealmInfo, l: Login, s: Supplies)
    requires Lawful(c) && Sufficient(s) && l.client != [] && AesKey(l.key.keyHex).Some? && |l.confounder| == 16
    requires CanonicalName(l.client) && |RequestBytes(AsRequest(c, l))| <= 0xffff && l.timestamp != []
    ensures var a, p := Respond(c, info, RequestBytes(AsRequest(c, l)), s), FindPrincipal(info, l.client, l.realm);
            var admitted := Known(p) && !Blocked(p.value);
            && (a == Error(6) <==> !Known(p))
            && (a == Error(18) <==> Known(p) && Blocked(p.value))
            && (admitted && KeyFor(p.value, l.key.enctype).None? ==> a == Error(14))
            && (admitted && KeyFor(p.value, l.key.enctype) == Some(l.key) ==>
                  && (a == Error(24) <==> !IsTimestamp(l.timestamp))
                  && (a.AsReply? <==> exists krbtgt, e :: MayLogIn(info, l, p.value, krbtgt, e)))
  {
    hide RequestBytes, ParseRequest, Encrypt, DataBytes, Lawful, Sufficient, AsRequest, FindPrincipal, FindByName,
      KeyFor, AesKey, KeySize, IsTimestamp, ReplyEtype, TimestampOpens, AsRep, RespondAs, CanonicalName, Blocked,
      MayLogIn;
    var request := RequestBytes(AsRequest(c, l));
    var r, p := ParseRequest(request), FindPrincipal(info, l.client, l.realm);
    LoginReads(c, l);
    AsRefusals(c, info, r, s);
    if Known(p) && !Blocked(p.value) && KeyFor(p.value, l.key.enctype) == Some(l.key) {
      TimestampDecides(c, l, p.value);
      if IsTimestamp(l.timestamp) && Respond(c, info, request, s).AsReply? {
        GrantedLogin(c, info, l, s);
      }
      if krbtgt, e :| MayLogIn(info, l, p.value, krbtgt, e) {
        LoginIsGranted(c, info, l, s, p.value, krbtgt, e);
        MayLogInSealed(info, l, p.value, krbtgt, e);
      }
    }
  }

  lemma MayLogInSealed(info: RealmInfo, l: Login, p: Principal, krbtgt: Principal, e: i32)
    requires MayLogIn(info, l, p, krbtgt, e)
    ensures IsTimestamp(l.timestamp)
  {
    hide FindPrincipal, FindByName, KeyFor, AesKey, ReplyEtype, IsTimestamp;
  }

  lemma {:induction false} GrantedLogin(c: Crypto, info: RealmInfo, l: Login, s: Supplies)
    requires Lawful(c) && Sufficient(s) && l.client != [] && AesKey(l.key.keyHex).Some? && |l.confounder| == 16
    requires CanonicalName(l.client) && |RequestBytes(AsRequest(c, l))| <= 0xffff && IsTimestamp(l.timestamp)
    requires Respond(c, info, RequestBytes(AsRequest(c, l)), s).AsReply?
    requires FindPrincipal(info, l.client, l.realm).Some?
    requires KeyFor(FindPrincipal(info, l.client, l.realm).value, l.key.enctype) == Some(l.key)
    ensures exists krbtgt, e :: MayLogIn(info, l, FindPrincipal(info, l.client, l.realm).value, krbtgt, e)
  {
    hide RequestBytes, ParseRequest, Encrypt, DataBytes, Lawful, Sufficient, AsRequest, FindPrincipal, FindByName,
      KeyFor, AesKey, KeySize, IsTimestamp, ReplyEtype, TimestampOpens, AsRep, Respond, CanonicalName;
    var request := RequestBytes(AsRequest(c, l));
    var r := ParseRequest(request);
    LoginReads(c, l);
    AsReplyExactlyWhen(c, info, request, s, Respond(c, info, request, s).message);
    var p, krbtgt, e :| MayHaveTgt(c, info, r, p, krbtgt, e);
    assert MayLogIn(info, l, p, krbtgt, e);
  }

  // ---------- From the long-term key to the service ----------

  /** The client logs in, opens the reply, asks for a service, opens that reply too and presents the ticket. With stable
      account names, names that are good and canonical, realms that agree, a client name that does not first find an
      account of another realm, and messages of at most 65535 bytes, the service accepts it for the client's account
      under the very key the client has read. */
  lemma {:induction false} LoginToService(
    c: Crypto, info: RealmInfo, l: Login, s1: Supplies, p: Principal, krbtgt: Principal, e: i32,
    w: Wish, s2: Supplies, service: Principal, key: KerberosKey,
    options: u32, authenticator: Bytes, confounder: Bytes, expected: Option<Text>)
    requires Lawful(c) && Sufficient(s1) && Sufficient(s2) && StableNames(info)
    requires MayLogIn(info, l, p, krbtgt, e) && |RequestBytes(AsRequest(c, l))| <= 0xffff
    requires CanonicalName(l.client) && GoodName(l.client, info) && FindsOwn(info, l.client) && CanonicalName(p.name)
    requires RealmAgrees(l.realm, info) && RealmAgrees(w.realm, info)
    requires Inner(w.authenticator, 0x62).Some? && |w.confounder| == 16
    requires ReadAuthenticator(authenticator).Some? && |confounder| == 16
    requires expected.Some? ==> Matches(service.name, expected.value, info.realm)
    ensures var answer1, key1 := Respond(c, info, RequestBytes(AsRequest(c, l)), s1), FreshKey(e, s1);
            && answer1.AsReply?
            && (|answer1.message| <= 0xffff ==>
                  && LoginKey(c, answer1.message, KeyFor(p, e).value) == Some(key1)
                  && Serves(c, info, TgsRequest(c, answer1.message, key1, w), key1, s2, p, service, key,
                            options, authenticator, confounder, expected))
  {
    hide *;
    var request := RequestBytes(AsRequest(c, l));
    LoginParts(info, l, p, krbtgt, e);
    LoginIsGranted(c, info, l, s1, p, krbtgt, e);
    LoginReads(c, l);
    var reply := Respond(c, info, request, s1).message;
    if |reply| <= 0xffff {
      LoginKeyIs(c, info, request, s1, reply, p, krbtgt, e);
      ThenServes(c, info, request, s1, reply, p, krbtgt, e, w, s2, service, key, options, authenticator, confounder,
                 expected);
    }
  }

  lemma LoginParts(info: RealmInfo, l: Login, p: Principal, krbtgt: Principal, e: i32)
    requires MayLogIn(info, l, p, krbtgt, e)
    ensures KeyFor(p, e).Some? && l.client != []
  {
    hide FindPrincipal, FindByName, KeyFor, AesKey, ReplyEtype, IsTimestamp;
  }

  /** A TGS request that fits and asks for an available service is answered; the client reads the new key out of the
      answer, and the service accepts the ticket under it. */
  ghost predicate Serves(
      c: Crypto, info: RealmInfo, q: ClientRequest, key1: EncryptionKey, s: Supplies, client: Principal,
      service: Principal, key: KerberosKey, options: u32, authenticator: Bytes, confounder: Bytes,
      expected: Option<Text>)
    requires Lawful(c) && Sufficient(s) && ReadAuthenticator(authenticator).Some?
  {
    var answer, key2 := Respond(c, info, RequestBytes(q), s), FreshKey(key.enctype, s);
    |RequestBytes(q)| <= 0xffff && Available(info, Meant(q), service, key) ==>
      && answer.TgsReply?
      && var apReq := Presented(c, options, TicketIn(answer.message, 0x6d), key2, authenticator, 11, confounder);
      |answer.message| <= 0xffff ==>
        && HandedKey(c, answer.message, key1) == Some(key2)
        && (|apReq| <= 0xffff ==>
              ValidateApReq(c, info, apReq, expected)
              == Accepted(client.name, service.name, Upper(info.realm), key2,
                          ReadAuthenticator(authenticator).value.subkey, options / 0x2000_0000 % 2 == 1))
  }

  lemma {:induction false} ThenServes(
    c: Crypto, info: RealmInfo, request: Bytes, s1: Supplies, reply: Bytes, p: Principal, krbtgt: Principal, e: i32,
    w: Wish, s2: Supplies, service: Principal, key: KerberosKey,
    options: u32, authenticator: Bytes, confounder: Bytes, expected: Option<Text>)
    requires Lawful(c) && Sufficient(s1) && Sufficient(s2) && StableNames(info)
    requires IssuedTgt(c, info, request, s1, reply, p, krbtgt, e) && |reply| <= 0xffff
    requires RealmAgrees(ParseRequest(request).realm, info) && GoodName(ParseRequest(request).client, info)
    requires FindsOwn(info, ParseRequest(request).client) && CanonicalName(p.name)
    requires RealmAgrees(w.realm, info) && Inner(w.authenticator, 0x62).Some? && |w.confounder| == 16
    requires ReadAuthenticator(authenticator).Some? && |confounder| == 16
    requires expected.Some? ==> Matches(service.name, expected.value, info.realm)
    ensures Serves(c, info, TgsRequest(c, reply, FreshKey(e, s1), w), FreshKey(e, s1), s2, p, service, key,
                   options, authenticator, confounder, expected)
  {
    hide Respond, ParseRequest, RequestBytes, Meant, TgsRequest, Presented, TicketIn, HandedKey, ValidateApReq,
      ReadAuthenticator, Available, Follows, IssuedTgt, RealmAgrees, GoodName, FindsOwn, CanonicalName, StableNames,
      Lawful, Sufficient, Inner, Matches, FreshKey;
    var q := TgsRequest(c, reply, FreshKey(e, s1), w);
    if |RequestBytes(q)| <= 0xffff && Available(info, Meant(q), service, key) {
      WishReads(c, reply, FreshKey(e, s1), w);
      MeantRealm(c, reply, FreshKey(e, s1), w);
      TicketLifeCycle(c, info, request, s1, reply, p, krbtgt, e, RequestBytes(q), s2, service, key,
                      w.options, w.authenticator, w.confounder, options, authenticator, confounder, expected);
    }
  }

  lemma MeantRealm(c: Crypto, reply: Bytes, key: EncryptionKey, w: Wish)
    requires Lawful(c)
    ensures Meant(TgsRequest(c, reply, key, w)).realm == w.realm
  {
    hide Presented, TicketIn, ReadBack, DataFromDer;
  }

  lemma {:induction false} LoginKeyIs(
    c: Crypto, info: RealmInfo, request: Bytes, s: Supplies, reply: Bytes, p: Principal, krbtgt: Principal, e: i32)
    requires Lawful(c) && Sufficient(s) && IssuedTgt(c, info, request, s, reply, p, krbtgt, e) && |reply| <= 0xffff
    requires KeyFor(p, e).Some?
    ensures LoginKey(c, reply, KeyFor(p, e).value) == Some(FreshKey(e, s))
  {
    hide Decrypt, ReadReply, ReadReplyPart, KeyFor, Lawful, Sufficient, ParseRequest, EffectiveRealm, KdcName,
      IssuedTgt;
    ClientReadsAsReply(c, info, request, s, reply, p, krbtgt, e);
  }

  // ---------- Such clients exist ----------

  /** An account with one AES-256 key. */
  function Account(name: Text): (p: Principal) {
    Principal(name, [], true, [KerberosKey(18, [], [], BytesToHex(Zeros(32)))], 0, false)
  }

  function TimestampText(): (s: Bytes) {
    Sequence([Element(0xa0, GeneralizedTime(Zeros(15)))])
  }

  /** A realm R of krbtgt and one client c, and a login of c that meets all that LoginToService asks of a login. */
  lemma {:induction false} LoginIsPossible() returns (info: RealmInfo, l: Login, p: Principal, krbtgt: Principal)
    ensures MayLogIn(info, l, p, krbtgt, 18) && StableNames(info)
    ensures CanonicalName(l.client) && GoodName(l.client, info) && FindsOwn(info, l.client) && CanonicalName(p.name)
    ensures RealmAgrees(l.realm, info)
  {
    hide Matches, Key, LowerTrimmed, IsTimestamp, AesKey, KeyFor, Stable, TimestampText, BytesToHex, ReplyEtype, BothHave;
    p, krbtgt := Account([99]), Account(KRBTGT);
    info := RealmInfo([82], [], [krbtgt, p]);
    l := Login([99], [], KRBTGT, [], 0, [18], p.keys[0], TimestampText(), Zeros(16));
    KeysOf(KRBTGT, [99]);
    assert Matches(KRBTGT, KRBTGT, [82]) && Matches([99], [99], [82]) && !Matches([99], KRBTGT, [82]) by {
      MatchesCases(KRBTGT, KRBTGT, [82]);
      MatchesCases([99], [99], [82]);
      MatchesCases([99], KRBTGT, [82]);
    }
    assert NamesOf(info.principals) == [KRBTGT, [99]];
    assert [KRBTGT, [99]][1..] == [[99]];
    assert FirstMatch([[99]], [99], [82]) == 0 && FirstMatch([KRBTGT, [99]], [99], [82]) == 1;
    assert FindByName(info, KdcName(info)) == Some(krbtgt) && FindByName(info, [99]) == Some(p);
    LookupsAgreeExactlyWhen(info, [99], []);
    AccountKey(KRBTGT);
    AccountKey([99]);
    TimestampReads();
    SharedType(p, krbtgt);
    OnePart();
  }

  lemma OnePart()
    ensures CanonicalName([99])
  {
    assert Split([99], SLASH) == [[99]];
  }

  lemma KeysOf(krbtgt: Text, c: Text)
    requires krbtgt == KRBTGT && c == [99]
    ensures LowerTrimmed(krbtgt) == krbtgt == Key(krbtgt, [82]) && LowerTrimmed(c) == c == Key(c, [82])
    ensures Stable(krbtgt, [82]) && Stable(c, [82])
  {
    assert LowerTrimmed([82]) == [114];
    assert LowerTrimmed(krbtgt) == krbtgt;
    assert LowerTrimmed(c) == c;
    assert |KrbtgtOf([114])| == 8 && |[AT] + [114]| == 2;
    assert krbtgt[4..][0] == 103;
    assert Stripped(krbtgt, [114]) == krbtgt && Stripped(c, [114]) == c;
  }

  lemma AccountKey(name: Text)
    ensures KeyFor(Account(name), 18) == Some(Account(name).keys[0])
    ensures AesKey(Account(name).keys[0].keyHex).Some?
  {
    hide AesKey, BytesToHex;
    SessionKeyIsUsable(Zeros(32));
    var key := Account(name).keys[0];
    assert key.keyHex != [];
    assert [key][1..] == [];
    assert UsableOf([key]) == [key] + UsableOf([]);
  }

  lemma {:induction false} TimestampReads()
    ensures IsTimestamp(TimestampText())
  {
    hide Tlv, Encode, Inner, Field;
    var es := [Element(0xa0, GeneralizedTime(Zeros(15)))];
    TimeFieldReads(Zeros(15));
    TimestampSize(es);
    ApplicationReads(0x30, es);
    SequenceReads(es);
    FieldOfEncode(es, 0);
  }

  lemma {:induction false} TimestampSize(es: seq<Element>)
    requires es == [Element(0xa0, GeneralizedTime(Zeros(15)))]
    ensures |Sequence(es)| <= 0xffff && |es[0].content| <= 0xffff
  {
    assert es[1..] == [];
    assert Encode(es) == Tlv(0xa0, es[0].content) + Encode([]);
  }

  lemma SharedType(p: Principal, krbtgt: Principal)
    requires KeyFor(p, 18).Some? && KeyFor(krbtgt, 18).Some?
    ensures ReplyEtype([18], p, krbtgt, 18, 18) && BothHave(p, krbtgt, 18)
  {
    hide KeyFor;
    assert [18][0] == 18;
  }
}
