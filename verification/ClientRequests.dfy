/** Requests as a client writes them (section 5.4.1 of RFC 4120) are read as they were meant
    (libs/protocol/src/kerberos.cpp). */
module ClientRequests {
  import opened Octets
  import opened Texts
  import opened Der
  import opened KerberosFields
  import opened Kdc

  /** A KDC-REQ with one pre-authentication element; kind is 10 for AS and 12 for TGS requests. */
  datatype ClientRequest = ClientRequest(
    kind: i32,
    padataType: i32,
    padataValue: Bytes,
    client: Text,
    realm: Text,
    service: Text,
    till: Text,
    nonce: i32,
    etypes: seq<i32>)

  function IntegerElements(values: seq<i32>): (es: seq<Element>)
    ensures |es| == |values|
    ensures forall i :: 0 <= i < |values| ==> es[i] == Element(0x02, IntegerValue(values[i]))
  {
    seq(|values|, i requires 0 <= i < |values| => Element(0x02, IntegerValue(values[i])))
  }

  /** KDC-REQ-BODY; a TGS request names no client. */
  function BodyFields(q: ClientRequest): (es: seq<Element>)
  {
    [Element(0xa0, BitString(0))]
    + (if q.kind == 10 then [Element(0xa1, PrincipalBytes(q.client))] else [])
    + [Element(0xa2, KerberosString(q.realm)),
       Element(0xa3, PrincipalBytes(q.service)),
       Element(0xa5, GeneralizedTime(q.till)),
       Element(0xa7, IntegerTlv(q.nonce)),
       Element(0xa8, Sequence(IntegerElements(q.etypes)))]
  }

  function PadataFields(q: ClientRequest): (es: seq<Element>) {
    [Element(0xa1, IntegerTlv(q.padataType)), Element(0xa2, OctetString(q.padataValue))]
  }

  function RequestFields(q: ClientRequest): (es: seq<Element>)
    ensures |es| == 4
  {
    [Element(0xa1, IntegerTlv(5)),
     Element(0xa2, IntegerTlv(q.kind)),
     Element(0xa3, Sequence([Element(0x30, Encode(PadataFields(q)))])),
     Element(0xa4, Sequence(BodyFields(q)))]
  }

  function RequestBytes(q: ClientRequest): (s: Bytes) {
    Tlv(if q.kind == 10 then 0x6a else 0x6c, Sequence(RequestFields(q)))
  }

  /** What the KDC should make of it. */
  function Meant(q: ClientRequest): (r: RequestInfo)
  {
    var timestamps := if q.padataType == 2 && DataFromDer(q.padataValue).Some? then [DataFromDer(q.padataValue).value]
                      else [];
    var apReq := if q.padataType == 1 then q.padataValue else [];
    RequestInfo(true, q.kind, true, PadataInfo([q.padataType], timestamps, apReq),
                if q.kind == 10 then ReadBack(q.client) else [], q.realm, ReadBack(q.service), q.nonce, q.etypes)
  }

  lemma {:induction false} IntegersRead(values: seq<i32>)
    ensures IntegersIn(IntegerElements(values)) == values
  {
    hide IntegerFromContent, IntegerValue;
    if |values| > 0 {
      assert IntegerElements(values)[1..] == IntegerElements(values[1..]);
      IntegersRead(values[1..]);
      IntegerRoundTrip(values[0]);
      assert values == [values[0]] + values[1..];
    }
  }

  lemma EtypesRead(values: seq<i32>)
    requires |Sequence(IntegerElements(values))| <= 0xffff
    ensures ContextIntegers(Sequence(IntegerElements(values))) == values
  {
    hide Tlv, Encode, Elements, Inner, Complete, IntegersIn, IntegerElements;
    var es := IntegerElements(values);
    TlvBound(0x30, Encode(es));
    SequenceReads(es);
    ElementsOfEncode(es);
    IntegersRead(values);
  }

  /** The tags of the body are all different. */
  lemma BodyTags(q: ClientRequest)
    ensures forall i, j :: 0 <= i < j < |BodyFields(q)| ==> BodyFields(q)[i].tag != BodyFields(q)[j].tag
    ensures forall i :: 0 <= i < |BodyFields(q)| && BodyFields(q)[i].tag == 0xa1 ==> q.kind == 10
  {
    hide PrincipalBytes, KerberosString, GeneralizedTime, IntegerTlv, Sequence, BitString, IntegerElements;
    var es := BodyFields(q);
    if q.kind == 10 {
      assert |es| == 7;
    } else {
      assert |es| == 6;
    }
  }

  lemma FieldIs(es: seq<Element>, i: nat)
    requires |Encode(es)| <= 0xffff && i < |es|
    requires forall a, b :: 0 <= a < b < |es| ==> es[a].tag != es[b].tag
    ensures Field(Encode(es), es[i].tag) == Some(es[i].content) && |es[i].content| <= 0xffff
  {
    hide Encode, Field;
    EncodeBound(es);
    FieldOfEncode(es, i);
  }

  lemma BodyReads(q: ClientRequest, header: RequestInfo)
    requires |Encode(BodyFields(q))| <= 0xffff
    requires header == NO_REQUEST.(messageType := q.kind, hasPadata := true, padata := Meant(q).padata)
    ensures WithBody(header, Encode(BodyFields(q))) == Meant(q)
  {
    hide Tlv, Encode, Field, PrincipalBytes, KerberosString, GeneralizedTime, IntegerTlv, Sequence, BitString,
      IntegerElements, ContextPrincipal, ContextString, ContextInteger, ContextIntegers, DataFromDer, ReadBack;
    var es := BodyFields(q);
    BodyTags(q);
    var n := |es| - 5;
    FieldIs(es, n);
    FieldIs(es, n + 1);
    FieldIs(es, n + 3);
    FieldIs(es, n + 4);
    KerberosStringReads(q.realm);
    KerberosNameReads(q.service);
    ContextIntegerReads(q.nonce);
    EtypesRead(q.etypes);
    if q.kind == 10 {
      FieldIs(es, 1);
      KerberosNameReads(q.client);
    } else {
      NoField(es, 0xa1);
    }
  }

  lemma NoField(es: seq<Element>, tag: byte)
    requires |Encode(es)| <= 0xffff && forall i :: 0 <= i < |es| ==> es[i].tag != tag
    ensures Field(Encode(es), tag) == None
  {
    hide Encode, Field;
    SequenceReads(es);
  }

  lemma KerberosStringReads(v: Text)
    requires |KerberosString(v)| <= 0xffff
    ensures ContextString(KerberosString(v)) == Some(v)
  {
    hide ContextString;
    ContextStringReads(v);
  }

  lemma KerberosNameReads(name: Text)
    requires |PrincipalBytes(name)| <= 0xffff
    ensures ContextPrincipal(PrincipalBytes(name)) == Some(ReadBack(name))
  {
    hide ContextPrincipal, Encode, NameSequence, ReadBack;
    PrincipalReads(name);
  }

  lemma PadataReads(q: ClientRequest)
    requires |Sequence([Element(0x30, Encode(PadataFields(q)))])| <= 0xffff
    ensures Padata(Sequence([Element(0x30, Encode(PadataFields(q)))])) == Meant(q).padata
  {
    hide Tlv, Encode, Elements, Inner, Field, IntegerTlv, ContextInteger, ContextOctets, DataFromDer, ReadBack,
      Complete;
    var fields := PadataFields(q);
    var es := [Element(0x30, Encode(fields))];
    TlvBound(0x30, Encode(es));
    SequenceReads(es);
    EncodeBound(es);
    ElementsOfEncode(es);
    assert |es[0].content| <= 0xffff;
    FieldIs(fields, 0);
    FieldIs(fields, 1);
    assert fields[1].content == Tlv(0x04, q.padataValue);
    TlvBound(0x04, q.padataValue);
    ContextIntegerReads(q.padataType);
    ContextOctetsReads(q.padataValue);
    assert es[..0] == [];
    assert PadataIn(es) == WithPadata(PadataIn(es[..0]), es[0]);
    assert [] + [q.padataType] == [q.padataType];
  }

  /** Every request of at most 65535 bytes is read as it was meant. */
  lemma RequestReads(q: ClientRequest)
    requires q.kind == 10 || q.kind == 12
    requires |RequestBytes(q)| <= 0xffff
    ensures ParseRequest(RequestBytes(q)) == Meant(q)
  {
    hide Tlv, Encode, Inner, Field, IntegerTlv, ContextInteger, Padata, WithBody, Meant, BodyFields, PadataFields, Head;
    var es := RequestFields(q);
    var tag := if q.kind == 10 then 0x6a else 0x6c;
    TlvBound(tag, Sequence(es));
    InnerOfTlv(tag, Sequence(es));
    TlvBound(0x30, Encode(es));
    SequenceReads(es);
    FieldIs(es, 1);
    FieldIs(es, 2);
    FieldIs(es, 3);
    ContextIntegerReads(q.kind);
    PadataReads(q);
    var body := Encode(BodyFields(q));
    assert es[3].content == Tlv(0x30, body);
    TlvBound(0x30, body);
    InnerOfTlv(0x30, body);
    BodyReads(q, NO_REQUEST.(messageType := q.kind, hasPadata := true, padata := Meant(q).padata));
  }
}
