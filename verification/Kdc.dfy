/** Requests, and what the KDC and its services decide about them (libs/protocol/src/kerberos.cpp; sections 3.1 to 3.3
    of RFC 4120). */
module Kdc {
  import opened Octets
  import opened Texts
  import opened Der
  import opened KerberosFields
  import opened KerberosCrypto
  import opened PrincipalNames
  import opened KerberosAccounts
  import opened KerberosTickets

  const ERR_C_PRINCIPAL_UNKNOWN := 6
  const ERR_S_PRINCIPAL_UNKNOWN := 7
  const ERR_ETYPE_NOSUPP := 14
  const ERR_CLIENT_REVOKED := 18
  const ERR_SERVICE_REVOKED := 19
  const ERR_PREAUTH_FAILED := 24
  const ERR_PREAUTH_REQUIRED := 25
  const ERR_SVC_UNAVAILABLE := 29
  const ERR_MSG_TYPE := 40

  datatype PadataInfo = PadataInfo(types: seq<i32>, timestamps: seq<EncryptedData>, tgsApReq: Bytes)

  datatype RequestInfo = RequestInfo(
    valid: bool,
    messageType: i32,
    hasPadata: bool,
    padata: PadataInfo,
    client: Text,
    realm: Text,
    service: Text,
    nonce: i32,
    etypes: seq<i32>)

  // ---------- Reading requests ----------

  /** What one pre-authentication element adds. */
  function WithPadata(info: PadataInfo, e: Element): (r: PadataInfo)
  {
    if e.tag != 0x30 then info
    else
      var kind := match Field(e.content, 0xa1) case Some(f) => ContextInteger(f) case None => None;
      var typed := if kind.Some? then info.(types := info.types + [kind.value]) else info;
      var value := match Field(e.content, 0xa2) case Some(f) => ContextOctets(f) case None => None;
      if value.None? then typed
      else if kind == Some(2) then
        match DataFromDer(value.value)
        case Some(d) => typed.(timestamps := typed.timestamps + [d])
        case None => typed
      else if kind == Some(1) then typed.(tgsApReq := value.value)
      else typed
  }

  function PadataIn(es: seq<Element>): (r: PadataInfo)
  {
    if |es| == 0 then PadataInfo([], [], []) else WithPadata(PadataIn(es[..|es| - 1]), es[|es| - 1])
  }

  /** read_padata, on the content of the padata context. */
  function Padata(s: Bytes): (r: PadataInfo)
  {
    match Inner(s, 0x30)
    case Some(c) => PadataIn(Elements(c))
    case None => PadataInfo([], [], [])
  }

  method ReadPadata(input: Bytes, context: Node) returns (parsed: PadataInfo)
    requires InBounds(input, context)
    ensures parsed == Padata(Content(input, context))
  {
    hide ReadNode, ReadLength, Elements, BigEndian, Head, PadataIn, PadataFrom;
    parsed := PadataInfo([], [], []);
    FirstChildIsHead(input, context);
    var first := ReadNode(input, context.contentOffset, context.contentOffset + context.contentLength);
    if first.None? || first.value.tag != 0x30 {
      return;
    }
    var sequence := first.value;
    var offset, limit := sequence.contentOffset, sequence.contentOffset + sequence.contentLength;
    StartPadata(Content(input, sequence));
    while offset < limit
      invariant sequence.contentOffset <= offset <= limit
      invariant PadataFrom(parsed, Elements(input[offset..limit])) == PadataIn(Elements(Content(input, sequence)))
      decreases limit - offset
    {
      PadataStep(input, offset, limit, parsed);
      var next := ReadNode(input, offset, limit);
      if next.None? {
        return;
      }
      parsed := WithPadata(parsed, Element(next.value.tag, Content(input, next.value)));
      offset := next.value.nextOffset;
    }
    PadataStep(input, limit, limit, parsed);
    NothingBeyond(input, limit);
  }

  /** The loop's view of the same fold. */
  function PadataFrom(info: PadataInfo, es: seq<Element>): (r: PadataInfo)
    decreases |es|
  {
    if |es| == 0 then info else PadataFrom(WithPadata(info, es[0]), es[1..])
  }

  lemma {:induction false} FoldsAgree(done: seq<Element>, rest: seq<Element>)
    ensures PadataFrom(PadataIn(done), rest) == PadataIn(done + rest)
    decreases |rest|
  {
    hide WithPadata;
    if |rest| == 0 {
      assert done + rest == done;
    } else {
      assert (done + [rest[0]])[..|done|] == done;
      FoldsAgree(done + [rest[0]], rest[1..]);
      assert done + [rest[0]] + rest[1..] == done + rest;
    }
  }

  lemma StartPadata(s: Bytes)
    ensures PadataFrom(PadataInfo([], [], []), Elements(s)) == PadataIn(Elements(s))
  {
    hide Elements, PadataFrom;
    FoldsAgree([], Elements(s));
    assert [] + Elements(s) == Elements(s);
  }

  lemma {:induction false} PadataStep(input: Bytes, offset: nat, limit: nat, info: PadataInfo)
    requires offset <= limit <= |input|
    ensures match ReadNode(input, offset, limit)
            case None => PadataFrom(info, Elements(input[offset..limit])) == info
            case Some(n) =>
              && offset < n.nextOffset <= limit && InBounds(input, n)
              && PadataFrom(info, Elements(input[offset..limit]))
                 == PadataFrom(WithPadata(info, Element(n.tag, Content(input, n))),
                               Elements(input[n.nextOffset..limit]))
  {
    hide ReadLength, Elements, Content, WithPadata;
    WalkStep(input, offset, limit);
    var r := ReadNode(input, offset, limit);
    if r.Some? {
      var rest := Elements(input[r.value.nextOffset..limit]);
      assert ([Element(r.value.tag, Content(input, r.value))] + rest)[1..] == rest;
    }
  }

  lemma NothingBeyond(input: Bytes, limit: nat)
    ensures ReadNode(input, limit, limit) == None
  {
  }

  const NO_REQUEST := RequestInfo(false, 0, false, PadataInfo([], [], []), [], [], [], 0, [])

  /** The request body. */
  function WithBody(r: RequestInfo, body: Bytes): (q: RequestInfo)
  {
    r.(valid := true,
       client := (match Field(body, 0xa1) case Some(f) => ContextPrincipal(f).GetOr([]) case None => []),
       realm := (match Field(body, 0xa2) case Some(f) => ContextString(f).GetOr([]) case None => []),
       service := (match Field(body, 0xa3) case Some(f) => ContextPrincipal(f).GetOr([]) case None => []),
       nonce := (match Field(body, 0xa7) case Some(f) => ContextInteger(f).GetOr(0) case None => 0),
       etypes := (match Field(body, 0xa8) case Some(f) => ContextIntegers(f) case None => []))
  }

  function WithSequence(tagType: i32, sequence: Bytes): (r: RequestInfo)
  {
    var messageType := match Field(sequence, 0xa2) case Some(f) => ContextInteger(f).GetOr(tagType)
                       case None => tagType;
    var header := match Field(sequence, 0xa3)
                  case Some(f) => NO_REQUEST.(messageType := messageType, hasPadata := true, padata := Padata(f))
                  case None => NO_REQUEST.(messageType := messageType);
    match Field(sequence, 0xa4)
    case Some(f) => (match Inner(f, 0x30) case Some(body) => WithBody(header, body) case None => header)
    case None => header
  }

  /** parse_kerberos_request */
  function ParseRequest(request: Bytes): (r: RequestInfo)
  {
    match Head(request)
    case Some(application) =>
      if application.tag != 0x6a && application.tag != 0x6c then NO_REQUEST
      else
        var tagType := if application.tag == 0x6a then 10 else 12;
        (match Inner(application.content, 0x30)
         case Some(sequence) => WithSequence(tagType, sequence)
         case None => NO_REQUEST.(messageType := tagType))
    case None => NO_REQUEST
  }

  /** The type of a request: from its fields if it is valid, else from its first byte. */
  function RequestType(request: Bytes, r: RequestInfo): (t: i32)
  {
    if r.valid then r.messageType
    else if request == [] then 0
    else if request[0] == 0x6a then 10
    else if request[0] == 0x6c then 12
    else 0
  }

  // ---------- Decisions ----------

  /** kerberos_error_response, with the error messages reduced to their codes. */
  datatype Answer = Error(code: nat) | AsReply(message: Bytes) | TgsReply(message: Bytes)

  /** valid_encrypted_timestamp_plaintext */
  predicate IsTimestamp(plaintext: Bytes) {
    match Inner(plaintext, 0x30)
    case Some(sequence) =>
      (match Field(sequence, 0xa0)
       case Some(f) => (match Inner(f, 0x18) case Some(time) => |time| >= 15 case None => false)
       case None => false)
    case None => false
  }

  /** validate_encrypted_timestamp */
  predicate TimestampOpens(c: Crypto, p: Principal, timestamp: EncryptedData)
    requires Lawful(c)
  {
    match KeyFor(p, timestamp.enctype)
    case Some(key) =>
      (match Decrypt(c, timestamp.cipher, key.keyHex, 1) case Some(plaintext) => IsTimestamp(plaintext)
       case None => false)
    case None => false
  }

  /** The part of the AS branch behind the timestamp check. */
  function GrantTgt(c: Crypto, info: RealmInfo, r: RequestInfo, p: Principal, preauth: i32, s: Supplies): (a: Answer)
    requires Lawful(c) && Sufficient(s)
  {
    match FindByName(info, KdcName(info))
    case None => Error(ERR_SVC_UNAVAILABLE)
    case Some(krbtgt) =>
      match SelectAsRepEnctype(r.etypes, p, krbtgt, preauth)
      case None => Error(ERR_ETYPE_NOSUPP)
      case Some(e) =>
        if KeyFor(p, e).None? then Error(ERR_ETYPE_NOSUPP)
        else if KeyFor(krbtgt, e).None? then Error(ERR_ETYPE_NOSUPP)
        else
          match AsRep(c, info, r.realm, r.client, r.nonce, p, KeyFor(p, e).value, KeyFor(krbtgt, e).value, e, s)
          case Some(message) => AsReply(message)
          case None => Error(ERR_SVC_UNAVAILABLE)
  }

  function RespondAs(c: Crypto, info: RealmInfo, r: RequestInfo, s: Supplies): (a: Answer)
    requires Lawful(c) && Sufficient(s)
  {
    var named := r.valid && r.client != [];
    var p := if named then FindPrincipal(info, r.client, r.realm) else None;
    if named && (p.None? || !p.value.hasKeyMaterial) then Error(ERR_C_PRINCIPAL_UNKNOWN)
    else if named && Blocked(p.value) then Error(ERR_CLIENT_REVOKED)
    else if !r.hasPadata || 2 !in r.padata.types then Error(ERR_PREAUTH_REQUIRED)
    else if p.Some? then
      if r.padata.timestamps == [] then Error(ERR_PREAUTH_FAILED)
      else
        var timestamp := r.padata.timestamps[0];
        if KeyFor(p.value, timestamp.enctype).None? then Error(ERR_ETYPE_NOSUPP)
        else if !TimestampOpens(c, p.value, timestamp) then Error(ERR_PREAUTH_FAILED)
        else GrantTgt(c, info, r, p.value, timestamp.enctype, s)
    else if !r.valid then Error(ERR_MSG_TYPE)
    else if r.client == [] then Error(ERR_C_PRINCIPAL_UNKNOWN)
    else Error(ERR_PREAUTH_FAILED)
  }

  datatype Opened = Opened(session: TicketSession, krbtgtKey: KerberosKey) | Refused(code: nat)

  /** The TGS branch up to the authenticator check. */
  function OpenTgt(c: Crypto, info: RealmInfo, apReq: Bytes): (o: Opened)
    requires Lawful(c)
  {
    match FindByName(info, KdcName(info))
    case None => Refused(ERR_SVC_UNAVAILABLE)
    case Some(krbtgt) =>
      match ParseApReq(apReq)
      case None => Refused(ERR_PREAUTH_FAILED)
      case Some(ap) =>
        match KeyFor(krbtgt, ap.ticket.enctype)
        case None => Refused(ERR_ETYPE_NOSUPP)
        case Some(key) =>
          match Decrypt(c, ap.ticket.cipher, key.keyHex, 2)
          case None => Refused(ERR_PREAUTH_FAILED)
          case Some(plaintext) =>
            match ParseTicketPart(plaintext)
            case None => Refused(ERR_PREAUTH_FAILED)
            case Some(session) =>
              if ValidTgsAuthenticator(c, ap.authenticator, session) then Opened(session, key)
              else Refused(ERR_PREAUTH_FAILED)
  }

  function ServiceName(service: Principal, requested: Text): (name: Text) {
    if service.name == [] then requested else service.name
  }

  /** The rest of the TGS branch. */
  function GrantTicket(
      c: Crypto, info: RealmInfo, r: RequestInfo, session: TicketSession, krbtgtKey: KerberosKey,
      s: Supplies): (a: Answer)
    requires Lawful(c) && Sufficient(s)
  {
    var client := FindByName(info, session.client);
    var service := FindByName(info, r.service);
    if client.Some? && Blocked(client.value) then Error(ERR_CLIENT_REVOKED)
    else if service.None? || !service.value.hasKeyMaterial then Error(ERR_S_PRINCIPAL_UNKNOWN)
    else if Blocked(service.value) then Error(ERR_SERVICE_REVOKED)
    else
      match SelectServiceKey(service.value, r.etypes)
      case None => Error(ERR_ETYPE_NOSUPP)
      case Some(key) =>
        match TgsRep(c, info, r.realm, r.nonce, session, ServiceName(service.value, r.service), key, krbtgtKey, s)
        case Some(message) => TgsReply(message)
        case None => Error(ERR_SVC_UNAVAILABLE)
  }

  function RespondTgs(c: Crypto, info: RealmInfo, r: RequestInfo, s: Supplies): (a: Answer)
    requires Lawful(c) && Sufficient(s)
  {
    if !r.valid || r.service == [] then Error(ERR_S_PRINCIPAL_UNKNOWN)
    else if 1 !in r.padata.types || r.padata.tgsApReq == [] then Error(ERR_PREAUTH_FAILED)
    else
      match OpenTgt(c, info, r.padata.tgsApReq)
      case Refused(code) => Error(code)
      case Opened(session, krbtgtKey) => GrantTicket(c, info, r, session, krbtgtKey, s)
  }

  /** kerberos_error_response */
  function Respond(c: Crypto, info: RealmInfo, request: Bytes, s: Supplies): (a: Answer)
    requires Lawful(c) && Sufficient(s)
  {
    var r := ParseRequest(request);
    var t := RequestType(request, r);
    if t == 10 then RespondAs(c, info, r, s)
    else if t == 12 then RespondTgs(c, info, r, s)
    else Error(ERR_MSG_TYPE)
  }

  // ---------- What the decisions guarantee ----------

  /** e is the first type in the list that both sides hold. */
  ghost predicate FirstShared(etypes: seq<i32>, client: Principal, krbtgt: Principal, e: i32) {
    exists i :: 0 <= i < |etypes| && etypes[i] == e && BothHave(client, krbtgt, e)
             && forall j :: 0 <= j < i ==> !BothHave(client, krbtgt, etypes[j])
  }

  /** The type a reply has to use: the client's first shared wish; without a list, the type of the timestamp if shared,
      else the client's first shared key. */
  ghost predicate ReplyEtype(etypes: seq<i32>, client: Principal, krbtgt: Principal, preauth: i32, e: i32) {
    if etypes != [] then FirstShared(etypes, client, krbtgt, e)
    else if BothHave(client, krbtgt, preauth) then e == preauth
    else FirstShared(EtypesOf(UsableKeys(client)), client, krbtgt, e)
  }

  lemma FirstCommonExactly(etypes: seq<i32>, client: Principal, krbtgt: Principal, e: i32)
    ensures FirstCommon(client, krbtgt, etypes) == Some(e) <==> FirstShared(etypes, client, krbtgt, e)
  {
    hide BothHave;
    FirstCommonSpec(client, krbtgt, etypes);
    if FirstShared(etypes, client, krbtgt, e) {
      var i :| 0 <= i < |etypes| && etypes[i] == e && BothHave(client, krbtgt, e)
          && forall j :: 0 <= j < i ==> !BothHave(client, krbtgt, etypes[j]);
      assert BothHave(client, krbtgt, etypes[i]);
      var r := FirstCommon(client, krbtgt, etypes);
      if r.Some? {
        var k :| 0 <= k < |etypes| && etypes[k] == r.value
            && forall j :: 0 <= j < k ==> !BothHave(client, krbtgt, etypes[j]);
        assert BothHave(client, krbtgt, etypes[k]);
        assert i <= k && k <= i;
      }
    }
  }

  lemma ReplyEtypeExactly(etypes: seq<i32>, client: Principal, krbtgt: Principal, preauth: i32, e: i32)
    ensures SelectAsRepEnctype(etypes, client, krbtgt, preauth) == Some(e)
       <==> ReplyEtype(etypes, client, krbtgt, preauth, e)
    ensures ReplyEtype(etypes, client, krbtgt, preauth, e) ==> BothHave(client, krbtgt, e)
  {
    hide BothHave, FirstShared, FirstCommon;
    FirstCommonExactly(etypes, client, krbtgt, e);
    FirstCommonExactly(EtypesOf(UsableKeys(client)), client, krbtgt, e);
    SelectedEtype(etypes, client, krbtgt, preauth);
  }

  /** The client is known with key material and is neither disabled nor expired; its first encrypted timestamp opens
      under its key and holds a time; krbtgt is known, and both have a usable key of the reply's type. */
  ghost predicate MayHaveTgt(c: Crypto, info: RealmInfo, r: RequestInfo, p: Principal, krbtgt: Principal, e: i32)
    requires Lawful(c)
  {
    && r.valid && r.client != []
    && FindPrincipal(info, r.client, r.realm) == Some(p) && p.hasKeyMaterial && !Disabled(p) && !p.expired
    && r.hasPadata && 2 in r.padata.types && |r.padata.timestamps| > 0
    && TimestampOpens(c, p, r.padata.timestamps[0])
    && FindByName(info, KdcName(info)) == Some(krbtgt)
    && ReplyEtype(r.etypes, p, krbtgt, r.padata.timestamps[0].enctype, e)
    && KeySize(e) != 0 && BothHave(p, krbtgt, e)
    && AesKey(KeyFor(p, e).value.keyHex).Some? && AesKey(KeyFor(krbtgt, e).value.keyHex).Some?
  }

  /** An AS-REP is the answer exactly for AS requests of such clients, and it is the one for the right keys and type. */
  lemma {:induction false} AsReplyExactlyWhen(c: Crypto, info: RealmInfo, request: Bytes, s: Supplies, message: Bytes)
    requires Lawful(c) && Sufficient(s)
    ensures Respond(c, info, request, s) == AsReply(message) <==>
              var r := ParseRequest(request);
              r.messageType == 10
              && exists p: Principal, krbtgt: Principal, e: i32 :: MayHaveTgt(c, info, r, p, krbtgt, e)
                   && Some(message)
                       == AsRep(c, info, r.realm, r.client, r.nonce, p, KeyFor(p, e).value, KeyFor(krbtgt, e).value, e,
                                s)
  {
    hide ParseRequest, AsRep, TgsRep, OpenTgt, FindPrincipal, FindByName, SelectAsRepEnctype, KeyFor, TimestampOpens,
      ReplyEtype, EffectiveRealm, KdcName, Lawful, Sufficient;
    var r := ParseRequest(request);
    RespondTgsNeverAsReply(c, info, r, s);
    var p := FindPrincipal(info, r.client, r.realm);
    var krbtgt := FindByName(info, KdcName(info));
    if p.Some? && krbtgt.Some? && |r.padata.timestamps| > 0 {
      var preauth := r.padata.timestamps[0].enctype;
      var selected := SelectAsRepEnctype(r.etypes, p.value, krbtgt.value, preauth);
      TimestampKey(c, p.value, r.padata.timestamps[0]);
      forall e: i32 ensures selected == Some(e) <==> ReplyEtype(r.etypes, p.value, krbtgt.value, preauth, e) {
        ReplyEtypeExactly(r.etypes, p.value, krbtgt.value, preauth, e);
      }
      if selected.Some? {
        ReplyEtypeExactly(r.etypes, p.value, krbtgt.value, preauth, selected.value);
      }
    }
    if Respond(c, info, request, s) == AsReply(message) {
      AsGranted(c, info, request, s, message);
    }
  }

  lemma {:induction false} RespondTgsNeverAsReply(c: Crypto, info: RealmInfo, r: RequestInfo, s: Supplies)
    requires Lawful(c) && Sufficient(s)
    ensures !RespondTgs(c, info, r, s).AsReply?
    ensures !RespondAs(c, info, r, s).TgsReply?
  {
    hide AsRep, TgsRep, OpenTgt, FindPrincipal, FindByName, SelectAsRepEnctype, SelectServiceKey, KeyFor,
      TimestampOpens, Lawful, Sufficient;
  }

  lemma TimestampKey(c: Crypto, p: Principal, timestamp: EncryptedData)
    requires Lawful(c)
    ensures TimestampOpens(c, p, timestamp) ==> KeyFor(p, timestamp.enctype).Some?
  {
    hide Decrypt, KeyFor, IsTimestamp;
  }

  lemma {:induction false} AsGranted(c: Crypto, info: RealmInfo, request: Bytes, s: Supplies, message: Bytes)
    requires Lawful(c) && Sufficient(s) && Respond(c, info, request, s) == AsReply(message)
    ensures var r := ParseRequest(request);
            r.messageType == 10
            && exists p: Principal, krbtgt: Principal, e: i32 :: MayHaveTgt(c, info, r, p, krbtgt, e)
                 && Some(message)
                     == AsRep(c, info, r.realm, r.client, r.nonce, p, KeyFor(p, e).value, KeyFor(krbtgt, e).value, e, s)
  {
    hide ParseRequest, AsRep, TgsRep, OpenTgt, FindPrincipal, FindByName, SelectAsRepEnctype, KeyFor, TimestampOpens,
      ReplyEtype, EffectiveRealm, KdcName, Lawful, Sufficient;
    var r := ParseRequest(request);
    RespondTgsNeverAsReply(c, info, r, s);
    var p := FindPrincipal(info, r.client, r.realm).value;
    var krbtgt := FindByName(info, KdcName(info)).value;
    var preauth := r.padata.timestamps[0].enctype;
    var e := SelectAsRepEnctype(r.etypes, p, krbtgt, preauth).value;
    ReplyEtypeExactly(r.etypes, p, krbtgt, preauth, e);
    AsRepSucceeds(c, info, r.realm, r.client, r.nonce, p, KeyFor(p, e).value, KeyFor(krbtgt, e).value, e, s);
    assert MayHaveTgt(c, info, r, p, krbtgt, e);
  }

  /** The presented ticket opens under a key of krbtgt, holds this session, and the authenticator opens under the
      session's key; the service is known, has keys and is not blocked, and the client is not blocked if it is known. */
  ghost predicate MayHaveTicket(
      c: Crypto, info: RealmInfo, r: RequestInfo, session: TicketSession, krbtgtKey: KerberosKey, service: Principal,
      key: KerberosKey)
    requires Lawful(c)
  {
    && r.valid && r.service != [] && 1 in r.padata.types
    && (exists krbtgt, ap, plaintext ::
          && FindByName(info, KdcName(info)) == Some(krbtgt)
          && ParseApReq(r.padata.tgsApReq) == Some(ap)
          && KeyFor(krbtgt, ap.ticket.enctype) == Some(krbtgtKey)
          && Decrypt(c, ap.ticket.cipher, krbtgtKey.keyHex, 2) == Some(plaintext)
          && ParseTicketPart(plaintext) == Some(session)
          && ValidTgsAuthenticator(c, ap.authenticator, session))
    && (forall client :: FindByName(info, session.client) == Some(client) ==> !Disabled(client) && !client.expired)
    && FindByName(info, r.service) == Some(service) && service.hasKeyMaterial && !Disabled(service) && !service.expired
    && SelectServiceKey(service, r.etypes) == Some(key)
    && KeySize(key.enctype) != 0 && AesKey(key.keyHex).Some? && AesKey(BytesToHex(session.key.value)).Some?
  }

  lemma {:induction false} OpenTgtExactly(
      c: Crypto, info: RealmInfo, apReq: Bytes, session: TicketSession, key: KerberosKey)
    requires Lawful(c)
    ensures OpenTgt(c, info, apReq) == Opened(session, key) <==>
              exists krbtgt, ap, plaintext ::
                && FindByName(info, KdcName(info)) == Some(krbtgt)
                && ParseApReq(apReq) == Some(ap)
                && KeyFor(krbtgt, ap.ticket.enctype) == Some(key)
                && Decrypt(c, ap.ticket.cipher, key.keyHex, 2) == Some(plaintext)
                && ParseTicketPart(plaintext) == Some(session)
                && ValidTgsAuthenticator(c, ap.authenticator, session)
  {
    hide FindByName, KdcName, ParseApReq, KeyFor, Decrypt, ParseTicketPart, ValidTgsAuthenticator, Lawful;
    if OpenTgt(c, info, apReq) == Opened(session, key) {
      var krbtgt := FindByName(info, KdcName(info)).value;
      var ap := ParseApReq(apReq).value;
      var plaintext := Decrypt(c, ap.ticket.cipher, key.keyHex, 2).value;
      assert FindByName(info, KdcName(info)) == Some(krbtgt) && ParseApReq(apReq) == Some(ap)
          && Decrypt(c, ap.ticket.cipher, key.keyHex, 2) == Some(plaintext);
    }
  }

  lemma NothingPresented()
    ensures ParseApReq([]) == None
  {
    ReadNothing();
  }

  lemma {:induction false} TicketGranted(c: Crypto, info: RealmInfo, r: RequestInfo, s: Supplies, message: Bytes)
    requires Lawful(c) && Sufficient(s) && RespondTgs(c, info, r, s) == TgsReply(message)
    ensures exists session, krbtgtKey, service, key :: MayHaveTicket(c, info, r, session, krbtgtKey, service, key)
              && Some(message)
                  == TgsRep(c, info, r.realm, r.nonce, session, ServiceName(service, r.service), key, krbtgtKey, s)
  {
    hide ParseRequest, AsRep, TgsRep, OpenTgt, FindByName, SelectServiceKey, EffectiveRealm, KdcName, ParseApReq,
      Lawful, Sufficient, ServiceName, RespondAs, KeyFor, Decrypt, ParseTicketPart, ValidTgsAuthenticator, AesKey,
      KeySize, BytesToHex;
    var tgt := OpenTgt(c, info, r.padata.tgsApReq);
    var service := FindByName(info, r.service).value;
    var key := SelectServiceKey(service, r.etypes).value;
    OpenTgtExactly(c, info, r.padata.tgsApReq, tgt.session, tgt.krbtgtKey);
    TgsRepSucceeds(c, info, r.realm, r.nonce, tgt.session, ServiceName(service, r.service), key, tgt.krbtgtKey, s);
    assert MayHaveTicket(c, info, r, tgt.session, tgt.krbtgtKey, service, key);
  }

  lemma {:induction false} TicketIsGranted(
      c: Crypto, info: RealmInfo, r: RequestInfo, s: Supplies, session: TicketSession, krbtgtKey: KerberosKey,
      service: Principal, key: KerberosKey)
    requires Lawful(c) && Sufficient(s) && MayHaveTicket(c, info, r, session, krbtgtKey, service, key)
    ensures var message := TgsRep(c, info, r.realm, r.nonce, session, ServiceName(service, r.service), key, krbtgtKey,
                                  s);
            message.Some? && RespondTgs(c, info, r, s) == TgsReply(message.value)
  {
    hide ParseRequest, AsRep, TgsRep, OpenTgt, FindByName, SelectServiceKey, EffectiveRealm, KdcName, ParseApReq,
      Lawful, Sufficient, ServiceName, RespondAs, KeyFor, Decrypt, ParseTicketPart, ValidTgsAuthenticator, AesKey,
      KeySize, BytesToHex;
    NothingPresented();
    TgsRepSucceeds(c, info, r.realm, r.nonce, session, ServiceName(service, r.service), key, krbtgtKey, s);
    OpenTgtExactly(c, info, r.padata.tgsApReq, session, krbtgtKey);
  }

  /** A TGS-REP is the answer exactly for TGS requests that meet all of this. */
  lemma {:induction false} TgsReplyExactlyWhen(c: Crypto, info: RealmInfo, request: Bytes, s: Supplies, message: Bytes)
    requires Lawful(c) && Sufficient(s)
    ensures Respond(c, info, request, s) == TgsReply(message) <==>
              var r := ParseRequest(request);
              r.messageType == 12
              && exists session, krbtgtKey, service, key :: MayHaveTicket(c, info, r, session, krbtgtKey, service, key)
                   && Some(message)
                       == TgsRep(c, info, r.realm, r.nonce, session, ServiceName(service, r.service), key, krbtgtKey, s)
  {
    hide ParseRequest, RespondTgs, RespondAs, TgsRep, Lawful, Sufficient, ServiceName, MayHaveTicket;
    var r := ParseRequest(request);
    RespondTgsNeverAsReply(c, info, r, s);
    OnlyValid(c, info, r);
    if RespondTgs(c, info, r, s) == TgsReply(message) {
      TicketGranted(c, info, r, s, message);
      RefusedWhenInvalid(c, info, r, s);
    } else if session, krbtgtKey, service, key :|
      MayHaveTicket(c, info, r, session, krbtgtKey, service, key)
      && Some(message) == TgsRep(c, info, r.realm, r.nonce, session, ServiceName(service, r.service), key, krbtgtKey, s)
    {
      TicketIsGranted(c, info, r, s, session, krbtgtKey, service, key);
    }
  }

  lemma OnlyValid(c: Crypto, info: RealmInfo, r: RequestInfo)
    requires Lawful(c)
    ensures forall session, krbtgtKey, service, key :: MayHaveTicket(c, info, r, session, krbtgtKey, service, key)
              ==> r.valid
  {
    hide ParseApReq, FindByName, KeyFor, Decrypt, ParseTicketPart, ValidTgsAuthenticator, SelectServiceKey, AesKey,
      KeySize, BytesToHex, Lawful;
  }

  lemma RefusedWhenInvalid(c: Crypto, info: RealmInfo, r: RequestInfo, s: Supplies)
    requires Lawful(c) && Sufficient(s)
    ensures RespondTgs(c, info, r, s).TgsReply? ==> r.valid
  {
    hide OpenTgt, GrantTicket, Lawful, Sufficient;
  }

  // ---------- AP-REQ at a service ----------

  /** validate_kerberos_ap_req; the session key is the one in the ticket, before a mutual reply replaces it. */
  datatype ApReqResult = Rejected | Accepted(client: Text, service: Text, realm: Text, key: EncryptionKey,
                                             subkey: Option<EncryptionKey>, mutual: bool)

  function ValidateApReq(c: Crypto, info: RealmInfo, apReq: Bytes, expected: Option<Text>): (r: ApReqResult)
    requires Lawful(c)
  {
    match ParseApReq(apReq)
    case None => Rejected
    case Some(ap) =>
      if Lower(ap.realm) != Lower(info.realm) then Rejected
      else if expected.Some? && !Matches(ap.service, expected.value, info.realm) then Rejected
      else
        match FindByName(info, ap.service)
        case None => Rejected
        case Some(service) =>
          if !service.hasKeyMaterial || Blocked(service) then Rejected
          else
            match KeyFor(service, ap.ticket.enctype)
            case None => Rejected
            case Some(key) =>
              match Decrypt(c, ap.ticket.cipher, key.keyHex, 2)
              case None => Rejected
              case Some(plaintext) =>
                match ParseTicketPart(plaintext)
                case None => Rejected
                case Some(session) => Admit(c, info, ap, session)
  }

  function Admit(c: Crypto, info: RealmInfo, ap: ApReqInfo, session: TicketSession): (r: ApReqResult)
    requires Lawful(c)
  {
    var client := FindByName(info, session.client);
    if Lower(session.realm) != Lower(info.realm) then Rejected
    else if client.Some? && Blocked(client.value) then Rejected
    else
      match ParseAuthenticator(c, ap.authenticator, session)
      case None => Rejected
      case Some(a) => Accepted(session.client, ap.service, session.realm, session.key, a.subkey,
                               ap.options / 0x2000_0000 % 2 == 1)
  }

  // ---------- Refusals ----------

  predicate Known(p: Option<Principal>) {
    p.Some? && p.value.hasKeyMaterial
  }

  /** A named client that is known, may act and sent an encrypted timestamp. */
  predicate Preauthenticates(p: Option<Principal>, r: RequestInfo) {
    Known(p) && !Blocked(p.value) && r.hasPadata && 2 in r.padata.types
  }

  /** No timestamp could be read, or the first one does not open under the client's key of its type. */
  predicate BadTimestamp(c: Crypto, p: Principal, r: RequestInfo)
    requires Lawful(c)
  {
    || r.padata.timestamps == []
    || (KeyFor(p, r.padata.timestamps[0].enctype).Some? && !TimestampOpens(c, p, r.padata.timestamps[0]))
  }

  /** The client has no key of the type of the first timestamp. */
  predicate NoKeyForTimestamp(p: Principal, r: RequestInfo) {
    |r.padata.timestamps| > 0 && KeyFor(p, r.padata.timestamps[0].enctype).None?
  }

  /** The keys of that type cannot carry an AS-REP. */
  predicate UnfitKeys(p: Principal, krbtgt: Principal, e: i32)
    requires BothHave(p, krbtgt, e)
  {
    KeySize(e) == 0 || AesKey(KeyFor(p, e).value.keyHex).None? || AesKey(KeyFor(krbtgt, e).value.keyHex).None?
  }

  /** Why a valid AS request of a named client is refused, code by code. */
  lemma AsRefusals(c: Crypto, info: RealmInfo, r: RequestInfo, s: Supplies)
    requires Lawful(c) && Sufficient(s) && r.valid && r.client != []
    ensures var a, p := RespondAs(c, info, r, s), FindPrincipal(info, r.client, r.realm);
            && (a == Error(6) <==> !Known(p))
            && (a == Error(18) <==> Known(p) && Blocked(p.value))
            && (a == Error(25) <==> Known(p) && !Blocked(p.value) && !(r.hasPadata && 2 in r.padata.types))
            && (a == Error(24) <==> Preauthenticates(p, r) && BadTimestamp(c, p.value, r))
            && (Preauthenticates(p, r) && NoKeyForTimestamp(p.value, r) ==> a == Error(14))
  {
    hide AsRep, FindPrincipal, FindByName, SelectAsRepEnctype, KeyFor, TimestampOpens, Lawful, Sufficient, Blocked,
      KdcName;
  }

  ghost predicate NoFitReply(r: RequestInfo, p: Principal, krbtgt: Principal, preauth: i32) {
    exists e: i32 :: ReplyEtype(r.etypes, p, krbtgt, preauth, e) && BothHave(p, krbtgt, e) && UnfitKeys(p, krbtgt, e)
  }

  /** Behind the timestamp check only krbtgt or its keys can be missing: 29 without krbtgt or with a key that is no AES
      key of the type, 14 when the two sides share no type that comes into question. */
  lemma {:induction false} TgtRefusals(
      c: Crypto, info: RealmInfo, r: RequestInfo, p: Principal, preauth: i32, s: Supplies)
    requires Lawful(c) && Sufficient(s)
    ensures var a, krbtgt := GrantTgt(c, info, r, p, preauth, s), FindByName(info, KdcName(info));
            && (a == Error(14) <==> krbtgt.Some? && forall e: i32 :: !ReplyEtype(r.etypes, p, krbtgt.value, preauth, e))
            && (a == Error(29) <==> krbtgt.None? || NoFitReply(r, p, krbtgt.value, preauth))
            && (a.AsReply? || a == Error(14) || a == Error(29))
  {
    hide AsRep, FindByName, SelectAsRepEnctype, KeyFor, Lawful, Sufficient, KdcName, ReplyEtype, KeySize, AesKey;
    var krbtgt := FindByName(info, KdcName(info));
    if krbtgt.Some? {
      var selected := SelectAsRepEnctype(r.etypes, p, krbtgt.value, preauth);
      forall e: i32 ensures selected == Some(e) <==> ReplyEtype(r.etypes, p, krbtgt.value, preauth, e) {
        ReplyEtypeExactly(r.etypes, p, krbtgt.value, preauth, e);
      }
      if selected.Some? {
        var e := selected.value;
        ReplyEtypeExactly(r.etypes, p, krbtgt.value, preauth, e);
        AsRepSucceeds(c, info, r.realm, r.client, r.nonce, p, KeyFor(p, e).value, KeyFor(krbtgt.value, e).value, e, s);
      }
    }
  }

  /** Why an opened ticket-granting ticket buys no service ticket, code by code. */
  lemma {:induction false} TicketRefusals(
      c: Crypto, info: RealmInfo, r: RequestInfo, session: TicketSession, krbtgtKey: KerberosKey, s: Supplies)
    requires Lawful(c) && Sufficient(s)
    ensures var a := GrantTicket(c, info, r, session, krbtgtKey, s);
            var client, service := FindByName(info, session.client), FindByName(info, r.service);
            var revoked := client.Some? && Blocked(client.value);
            && (a == Error(18) <==> revoked)
            && (a == Error(7) <==> !revoked && !Known(service))
            && (a == Error(19) <==> !revoked && Known(service) && Blocked(service.value))
            && (a == Error(14)
                <==> !revoked && Known(service) && !Blocked(service.value) && UsableKeys(service.value) == [])
            && (a.TgsReply? || a.code in {7, 14, 18, 19, 29})
  {
    hide TgsRep, FindByName, SelectServiceKey, Lawful, Sufficient, Blocked, ServiceName, UsableKeys;
    var service := FindByName(info, r.service);
    if service.Some? {
      SelectedServiceKey(service.value, r.etypes);
      NoKeys(service.value, r.etypes);
    }
  }

  lemma NoKeys(service: Principal, etypes: seq<i32>)
    ensures UsableKeys(service) == [] ==> SelectServiceKey(service, etypes) == None
  {
    SelectedServiceKey(service, etypes);
  }
}
