/** Layout and signatures of the privilege attribute certificate (sections 2.3, 2.4 and 2.8 of MS-PAC;
    libs/protocol/src/kerberos.cpp). */
module Pac {
  import opened Octets
  import opened Buffers
  import opened KerberosCrypto
  import opened KerberosAccounts

  datatype PacBuffer = PacBuffer(kind: u32, data: Bytes)

  function Align8(n: nat): (m: nat)
    ensures m % 8 == 0 && n <= m < n + 8
    ensures n % 8 == 0 ==> m == n
  {
    (n + 7) / 8 * 8
  }

  // ---------- The layout ----------

  function HeaderSize(n: nat): (size: nat)
  {
    8 + 16 * n
  }

  /** The aligned sizes of the buffers so far. */
  function Extent(buffers: seq<PacBuffer>): (size: nat)
    ensures size % 8 == 0
  {
    if |buffers| == 0 then 0 else Extent(buffers[..|buffers| - 1]) + Align8(|buffers[|buffers| - 1].data|)
  }

  function Padded(s: Bytes): (r: Bytes)
    ensures |r| == Align8(|s|) && s <= r
  {
    s + Zeros(Align8(|s|) - |s|)
  }

  /** The buffers one after another, each starting on a multiple of eight. */
  function Area(buffers: seq<PacBuffer>): (s: Bytes)
  {
    if |buffers| == 0 then [] else Padded(Area(buffers[..|buffers| - 1])) + buffers[|buffers| - 1].data
  }

  function Descriptor(b: PacBuffer, offset: nat): (s: Bytes)
    ensures |s| == 16
  {
    U32LE(b.kind) + U32LE(|b.data| % 0x1_0000_0000) + U64LE(offset % 0x1_0000_0000_0000_0000)
  }

  /** The first k descriptors of n buffers. */
  function Table(buffers: seq<PacBuffer>, n: nat): (s: Bytes)
    ensures |s| == 16 * |buffers|
  {
    if |buffers| == 0 then []
    else
      var first := buffers[..|buffers| - 1];
      Table(first, n) + Descriptor(buffers[|buffers| - 1], HeaderSize(n) + Extent(first))
  }

  /** pac_type */
  function PacType(buffers: seq<PacBuffer>): (s: Bytes)
  {
    U32LE(|buffers| % 0x1_0000_0000) + U32LE(0) + Table(buffers, |buffers|) + Area(buffers)
  }

  lemma {:induction false} AreaSize(buffers: seq<PacBuffer>)
    ensures Align8(|Area(buffers)|) == Extent(buffers)
  {
    if |buffers| > 0 {
      AreaSize(buffers[..|buffers| - 1]);
      AlignSum(Extent(buffers[..|buffers| - 1]), |buffers[|buffers| - 1].data|);
    }
  }

  lemma AlignSum(a: nat, n: nat)
    requires a % 8 == 0
    ensures Align8(a + n) == a + Align8(n)
  {
  }

  method BuildPac(buffers: seq<PacBuffer>) returns (pac: Bytes)
    ensures pac == PacType(buffers)
  {
    hide Table, Area, Extent, Descriptor, U32LE;
    var header := new ByteBuffer();
    header.Append(U32LE(|buffers| % 0x1_0000_0000));
    header.Append(U32LE(0));
    var data := new ByteBuffer();
    var offset := Align8(8 + |buffers| * 16);
    ghost var count := U32LE(|buffers| % 0x1_0000_0000) + U32LE(0);
    NoBuffers(buffers);
    for i := 0 to |buffers|
      invariant header.data == count + Table(buffers[..i], |buffers|) && fresh(header)
      invariant data.data == Area(buffers[..i]) && fresh(data) && data != header
      invariant offset == HeaderSize(|buffers|) + Extent(buffers[..i])
    {
      var b := buffers[i];
      OneMoreBuffer(buffers, i);
      header.Append(Descriptor(b, offset));
      data.PadTo(Align8(|data.data|));
      data.Append(b.data);
      offset := offset + Align8(|b.data|);
    }
    assert buffers[..|buffers|] == buffers;
    header.PadTo(Align8(|header.data|));
    assert header.data == count + Table(buffers, |buffers|);
    header.Append(data.data);
    pac := header.data;
  }

  lemma NoBuffers(buffers: seq<PacBuffer>)
    ensures Table(buffers[..0], |buffers|) == [] && Area(buffers[..0]) == [] && Extent(buffers[..0]) == 0
    ensures Align8(8 + |buffers| * 16) == HeaderSize(|buffers|)
  {
  }

  lemma {:induction false} OneMoreBuffer(buffers: seq<PacBuffer>, i: nat)
    requires i < |buffers|
    ensures var first, b := buffers[..i], buffers[i];
            && Table(buffers[..i + 1], |buffers|)
                == Table(first, |buffers|) + Descriptor(b, HeaderSize(|buffers|) + Extent(first))
            && Area(buffers[..i + 1]) == Area(first) + Zeros(Align8(|Area(first)|) - |Area(first)|) + b.data
            && Extent(buffers[..i + 1]) == Extent(first) + Align8(|b.data|)
  {
    hide Table, Area, Extent, Descriptor, Align8;
    assert buffers[..i + 1] == buffers[..i] + [buffers[i]];
    TableStep(buffers[..i], buffers[i], |buffers|);
    AreaStep(buffers[..i], buffers[i]);
    ExtentStep(buffers[..i], buffers[i]);
  }

  lemma TableStep(first: seq<PacBuffer>, b: PacBuffer, n: nat)
    ensures Table(first + [b], n) == Table(first, n) + Descriptor(b, HeaderSize(n) + Extent(first))
  {
    hide Descriptor, Extent, HeaderSize;
    assert (first + [b])[..|first|] == first;
  }

  lemma AreaStep(first: seq<PacBuffer>, b: PacBuffer)
    ensures Area(first + [b]) == Area(first) + Zeros(Align8(|Area(first)|) - |Area(first)|) + b.data
  {
    hide Align8;
    var all := first + [b];
    assert all[..|all| - 1] == first && all[|all| - 1] == b;
    assert Area(all) == Padded(Area(first)) + b.data;
  }

  lemma ExtentStep(first: seq<PacBuffer>, b: PacBuffer)
    ensures Extent(first + [b]) == Extent(first) + Align8(|b.data|)
  {
    hide Align8;
    assert (first + [b])[..|first|] == first;
  }

  // ---------- Reading it back ----------

  function OffsetOf(buffers: seq<PacBuffer>, i: nat): (offset: nat)
    requires i < |buffers|
    ensures offset % 8 == 0
  {
    HeaderSize(|buffers|) + Extent(buffers[..i])
  }

  lemma {:induction false} DescriptorAt(buffers: seq<PacBuffer>, n: nat, i: nat)
    requires i < |buffers|
    ensures Table(buffers, n)[16 * i..16 * i + 16] == Descriptor(buffers[i], HeaderSize(n) + Extent(buffers[..i]))
  {
    hide Descriptor, Extent;
    var last := |buffers| - 1;
    if i < last {
      DescriptorAt(buffers[..last], n, i);
      assert buffers[..last][..i] == buffers[..i];
      var t := Table(buffers[..last], n);
      assert Table(buffers, n)[..|t|] == t;
      assert Table(buffers, n)[16 * i..16 * i + 16] == t[16 * i..16 * i + 16];
    }
  }

  lemma {:induction false} BufferAt(buffers: seq<PacBuffer>, i: nat)
    requires i < |buffers|
    ensures var start, size := Extent(buffers[..i]), |buffers[i].data|;
            start + size <= |Area(buffers)| && Area(buffers)[start..start + size] == buffers[i].data
  {
    hide Extent, Padded;
    var last := |buffers| - 1;
    var before := Area(buffers[..last]);
    AreaSize(buffers[..last]);
    if i < last {
      BufferAt(buffers[..last], i);
      assert buffers[..last][..i] == buffers[..i];
      var start, size := Extent(buffers[..i]), |buffers[i].data|;
      assert Area(buffers)[..|before|] == before;
      assert Area(buffers)[start..start + size] == before[start..start + size];
    }
  }

  lemma {:induction false} ExtentGrows(buffers: seq<PacBuffer>, i: nat, j: nat)
    requires i < j <= |buffers|
    ensures Extent(buffers[..i]) + |buffers[i].data| <= Extent(buffers[..j])
    decreases j
  {
    assert buffers[..j][..j - 1] == buffers[..j - 1];
    if i < j - 1 {
      ExtentGrows(buffers, i, j - 1);
    }
  }

  lemma {:induction false} DescriptorReads(b: PacBuffer, offset: nat)
    requires |b.data| < 0x1_0000_0000 && offset < 0x1_0000_0000_0000_0000
    ensures var d := Descriptor(b, offset);
            ReadU32LE(d, 0) == b.kind && ReadU32LE(d, 4) == |b.data| && ReadU64LE(d, 8) == offset
  {
    hide U32LE, ReadU32LE;
    var d := Descriptor(b, offset);
    LittleEndian(d, 0, b.kind);
    LittleEndian(d, 4, |b.data|);
    LittleEndian(d, 8, offset % 0x1_0000_0000);
    LittleEndian(d, 12, offset / 0x1_0000_0000);
  }

  lemma {:induction false} LittleEndian(s: Bytes, at: nat, v: u32)
    requires at + 4 <= |s| && s[at..at + 4] == U32LE(v)
    ensures ReadU32LE(s, at) == v
  {
    assert s[at] == s[at..at + 4][0] && s[at + 1] == s[at..at + 4][1] && s[at + 2] == s[at..at + 4][2]
           && s[at + 3] == s[at..at + 4][3];
    BytesOfU32(v);
  }

  lemma BytesOfU32(v: u32)
    ensures v % 256 + 256 * (v / 256 % 256) + 0x1_0000 * (v / 0x1_0000 % 256) + 0x100_0000 * (v / 0x100_0000) == v
  {
    assert v / 0x1_0000 == v / 256 / 256;
    assert v / 0x100_0000 == v / 256 / 256 / 256;
  }

  /** Where descriptor i stands. */
  function EntryAt(i: nat): (at: nat) {
    8 + 16 * i
  }

  lemma PacParts(buffers: seq<PacBuffer>)
    ensures var pac := PacType(buffers); var h := HeaderSize(|buffers|);
            && |pac| == h + |Area(buffers)|
            && pac[..4] == U32LE(|buffers| % 0x1_0000_0000)
            && pac[8..h] == Table(buffers, |buffers|)
            && pac[h..] == Area(buffers)
  {
    hide Table, Area, U32LE;
  }

  lemma ReadShifted(s: Bytes, d: Bytes, at: nat)
    requires |d| == 16 && at + 16 <= |s| && s[at..at + 16] == d
    ensures ReadU32LE(s, at) == ReadU32LE(d, 0) && ReadU32LE(s, at + 4) == ReadU32LE(d, 4)
            && ReadU64LE(s, at + 8) == ReadU64LE(d, 8)
  {
    forall k | 0 <= k < 16 ensures s[at + k] == d[k] {
      assert s[at..at + 16][k] == s[at + k];
    }
  }

  /** Any list of buffers that fits in 32 bits: each descriptor's offset is a multiple of eight, and at that offset and
      size lies exactly that buffer, past the header and inside the certificate. */
  lemma {:induction false} PacLayout(buffers: seq<PacBuffer>, i: nat)
    requires i < |buffers| && |PacType(buffers)| < 0x1_0000_0000
    ensures var pac := PacType(buffers);
            && EntryAt(i) + 16 <= |pac|
            && ReadU32LE(pac, 0) == |buffers|
            && ReadU32LE(pac, EntryAt(i)) == buffers[i].kind
            && var size, offset := ReadU32LE(pac, EntryAt(i) + 4), ReadU64LE(pac, EntryAt(i) + 8);
            && offset == OffsetOf(buffers, i) && offset % 8 == 0 && HeaderSize(|buffers|) <= offset
            && offset + size <= |pac| && pac[offset..offset + size] == buffers[i].data
  {
    hide Table, Area, Extent, Descriptor, PacType, ReadU32LE, ReadU64LE, U32LE;
    var pac, h, n := PacType(buffers), HeaderSize(|buffers|), |buffers|;
    PacParts(buffers);
    assert n < 0x1_0000_0000 && pac[..4] == pac[0..4];
    DescriptorAt(buffers, n, i);
    BufferAt(buffers, i);
    LittleEndian(pac, 0, n);
    var d := Descriptor(buffers[i], OffsetOf(buffers, i));
    DescriptorReads(buffers[i], OffsetOf(buffers, i));
    SliceWithin(pac, 8, h, 16 * i, 16 * i + 16);
    ReadShifted(pac, d, EntryAt(i));
    var start, size := Extent(buffers[..i]), |buffers[i].data|;
    SliceWithin(pac, h, |pac|, start, start + size);
  }

  lemma SliceWithin(s: Bytes, a: nat, b: nat, i: nat, j: nat)
    requires a <= b <= |s| && i <= j <= b - a
    ensures s[a..b][i..j] == s[a + i..a + j]
    ensures b == |s| ==> s[a..] == s[a..b]
  {
    forall k | 0 <= k < j - i ensures s[a..b][i..j][k] == s[a + i..a + j][k] {
    }
  }

  /** No two buffers overlap. */
  lemma BuffersAreDisjoint(buffers: seq<PacBuffer>, i: nat, j: nat)
    requires i < j < |buffers|
    ensures OffsetOf(buffers, i) + |buffers[i].data| <= OffsetOf(buffers, j)
  {
    ExtentGrows(buffers, i, j);
  }

  // ---------- Replacing a buffer by one of the same size ----------

  function Spliced(s: Bytes, at: nat, d: Bytes): (r: Bytes)
    requires at + |d| <= |s|
    ensures |r| == |s|
  {
    s[..at] + d + s[at + |d|..]
  }

  predicate SameShape(a: PacBuffer, b: PacBuffer) {
    a.kind == b.kind && |a.data| == |b.data|
  }

  lemma {:induction false} SameTable(buffers: seq<PacBuffer>, i: nat, b: PacBuffer, n: nat)
    requires i < |buffers| && SameShape(buffers[i], b)
    ensures Extent(buffers[i := b]) == Extent(buffers) && Table(buffers[i := b], n) == Table(buffers, n)
  {
    hide Extent, Table, Align8, HeaderSize;
    var last := |buffers| - 1;
    var first := buffers[..last];
    assert buffers == first + [buffers[last]];
    ExtentStep(first, buffers[last]);
    TableStep(first, buffers[last], n);
    if i < last {
      assert buffers[i := b] == first[i := b] + [buffers[last]];
      SameTable(first, i, b, n);
      ExtentStep(first[i := b], buffers[last]);
      TableStep(first[i := b], buffers[last], n);
    } else {
      assert buffers[i := b] == first + [b];
      ExtentStep(first, b);
      TableStep(first, b, n);
    }
  }

  lemma {:induction false} SpliceArea(buffers: seq<PacBuffer>, i: nat, b: PacBuffer)
    requires i < |buffers| && SameShape(buffers[i], b)
    ensures Extent(buffers[..i]) + |b.data| <= |Area(buffers)|
    ensures Area(buffers[i := b]) == Spliced(Area(buffers), Extent(buffers[..i]), b.data)
  {
    hide Extent, Align8, Area, Spliced;
    var last := |buffers| - 1;
    var first := buffers[..last];
    var start := Extent(buffers[..i]);
    var fill := Zeros(Align8(|Area(first)|) - |Area(first)|);
    AreaSize(first);
    assert buffers == first + [buffers[last]];
    AreaStep(first, buffers[last]);
    if i < last {
      SpliceArea(first, i, b);
      assert buffers[i := b] == first[i := b] + [buffers[last]];
      assert first[..i] == buffers[..i];
      AreaStep(first[i := b], buffers[last]);
      SplicePadded(Area(first), start, b.data, fill + buffers[last].data);
      Reassociate(Area(first), fill, buffers[last].data);
      Reassociate(Area(first[i := b]), fill, buffers[last].data);
    } else {
      assert buffers[i := b] == first + [b];
      AreaStep(first, b);
      SpliceEnd(Area(first) + fill, buffers[i].data, b.data);
    }
  }

  lemma Reassociate(a: Bytes, b: Bytes, c: Bytes)
    ensures a + b + c == a + (b + c)
  {
  }

  lemma SpliceEnd(front: Bytes, before: Bytes, after: Bytes)
    requires |before| == |after|
    ensures front + after == Spliced(front + before, |front|, after)
  {
    assert (front + before)[..|front|] == front;
    assert (front + before)[|front| + |after|..] == [];
  }

  lemma SplicePadded(s: Bytes, at: nat, d: Bytes, tail: Bytes)
    requires at + |d| <= |s|
    ensures Spliced(s, at, d) + tail == Spliced(s + tail, at, d)
  {
    assert (s + tail)[at + |d|..] == s[at + |d|..] + tail;
  }

  /** Replacing a buffer's contents by as many bytes changes just those bytes of the certificate. */
  lemma SplicePac(buffers: seq<PacBuffer>, i: nat, b: PacBuffer)
    requires i < |buffers| && SameShape(buffers[i], b)
    ensures OffsetOf(buffers, i) + |b.data| <= |PacType(buffers)|
    ensures PacType(buffers[i := b]) == Spliced(PacType(buffers), OffsetOf(buffers, i), b.data)
  {
    hide Area, Table, Extent, U32LE;
    SameTable(buffers, i, b, |buffers|);
    SpliceArea(buffers, i, b);
    PacParts(buffers);
    var front := U32LE(|buffers| % 0x1_0000_0000) + U32LE(0) + Table(buffers, |buffers|);
    assert PacType(buffers) == front + Area(buffers);
    SpliceBehind(front, Area(buffers), Extent(buffers[..i]), b.data);
  }

  lemma SpliceBehind(front: Bytes, s: Bytes, at: nat, d: Bytes)
    requires at + |d| <= |s|
    ensures front + Spliced(s, at, d) == Spliced(front + s, |front| + at, d)
  {
    assert (front + s)[..|front| + at] == front + s[..at];
    assert (front + s)[|front| + at + |d|..] == s[at + |d|..];
  }

  // ---------- Signatures ----------

  function ChecksumType(enctype: i32): (t: u32) {
    if enctype == 18 then 16 else if enctype == 17 then 15 else 0
  }

  /** pac_signature_data: the checksum type and at most twelve bytes of signature, filled up with zeros. */
  function SignatureData(enctype: i32, signature: Bytes): (s: Bytes)
    ensures |s| == 16
  {
    var kept := if |signature| <= 12 then signature else signature[..12];
    U32LE(ChecksumType(enctype)) + kept + Zeros(12 - |kept|)
  }

  /** The buffers whose contents come from elsewhere: logon information, client name and time, UPN and DNS names. */
  datatype PacInfo = PacInfo(logon: Bytes, client: Bytes, upn: Bytes)

  function PacBuffers(info: PacInfo, server: Bytes, kdc: Bytes): (buffers: seq<PacBuffer>)
    ensures |buffers| == 5
  {
    [PacBuffer(1, info.logon), PacBuffer(10, info.client), PacBuffer(12, info.upn), PacBuffer(6, server),
     PacBuffer(7, kdc)]
  }

  function BareBuffers(info: PacInfo, serviceKey: KerberosKey, kdcKey: KerberosKey): (buffers: seq<PacBuffer>)
    ensures |buffers| == 5
  {
    PacBuffers(info, SignatureData(serviceKey.enctype, []), SignatureData(kdcKey.enctype, []))
  }

  /** minimal_pac: the server signs the certificate with empty signatures, the KDC signs the server's whole buffer. */
  function MinimalPac(c: Crypto, info: PacInfo, serviceKey: KerberosKey, kdcKey: KerberosKey): (pac: Option<Bytes>)
    requires Lawful(c)
  {
    if ChecksumType(serviceKey.enctype) == 0 || ChecksumType(kdcKey.enctype) == 0 then None
    else
      var serverSignature :- Checksum(c, serviceKey.keyHex, 17, PacType(BareBuffers(info, serviceKey, kdcKey)));
      var server := SignatureData(serviceKey.enctype, serverSignature);
      var kdcSignature :- Checksum(c, kdcKey.keyHex, 17, server);
      Some(PacType(PacBuffers(info, server, SignatureData(kdcKey.enctype, kdcSignature))))
  }

  /** What a verifier does before it recomputes the server signature: the twelve bytes behind the type become zero. */
  function WithoutSignature(pac: Bytes, offset: nat): (r: Bytes)
    requires offset + 16 <= |pac|
    ensures |r| == |pac|
  {
    Spliced(pac, offset + 4, Zeros(12))
  }

  lemma ClearSignature(s: Bytes, at: nat, enctype: i32, signature: Bytes)
    requires at + 16 <= |s| && |signature| == 12 && s[at..at + 16] == SignatureData(enctype, signature)
    ensures WithoutSignature(s, at) == Spliced(s, at, SignatureData(enctype, []))
  {
    hide U32LE, ChecksumType;
    var t := U32LE(ChecksumType(enctype));
    assert s[at..at + 4] == s[at..at + 16][..4] == t;
    assert s[..at + 4] == s[..at] + t;
    assert SignatureData(enctype, []) == t + Zeros(12);
  }

  /** A finished certificate holds, in its type-6 and type-7 buffers, the server's checksum over the certificate with
      both signatures cleared and the KDC's checksum over the whole 16-byte type-6 buffer. */
  lemma {:induction false} PacVerifies(c: Crypto, info: PacInfo, serviceKey: KerberosKey, kdcKey: KerberosKey)
    requires Lawful(c) && MinimalPac(c, info, serviceKey, kdcKey).Some?
    requires |MinimalPac(c, info, serviceKey, kdcKey).value| < 0x1_0000_0000
    ensures var pac := MinimalPac(c, info, serviceKey, kdcKey).value;
            && EntryAt(4) + 16 <= |pac|
            && ReadU32LE(pac, EntryAt(3)) == 6 && ReadU32LE(pac, EntryAt(4)) == 7
            && var s, k := ReadU64LE(pac, EntryAt(3) + 8), ReadU64LE(pac, EntryAt(4) + 8);
            && s + 16 <= k && k + 16 <= |pac|
            && var bare := WithoutSignature(WithoutSignature(pac, k), s);
            && bare == PacType(BareBuffers(info, serviceKey, kdcKey))
            && Checksum(c, serviceKey.keyHex, 17, bare) == Some(pac[s + 4..s + 16])
            && Checksum(c, kdcKey.keyHex, 17, pac[s..s + 16]) == Some(pac[k + 4..k + 16])
  {
    hide PacType, Checksum, SignatureData, ReadU32LE, ReadU64LE, WithoutSignature, OffsetOf, MinimalPac, Lawful;
    var pac := MinimalPac(c, info, serviceKey, kdcKey).value;
    var serverSignature, kdcSignature := MinimalPacIs(c, info, serviceKey, kdcKey);
    var full := PacBuffers(info, SignatureData(serviceKey.enctype, serverSignature),
                           SignatureData(kdcKey.enctype, kdcSignature));
    PacLayout(full, 3);
    PacLayout(full, 4);
    BuffersAreDisjoint(full, 3, 4);
    var s, k := OffsetOf(full, 3), OffsetOf(full, 4);
    ClearedPac(info, serviceKey.enctype, kdcKey.enctype, serverSignature, kdcSignature);
    SignatureAt(pac, s, serviceKey.enctype, serverSignature);
    SignatureAt(pac, k, kdcKey.enctype, kdcSignature);
  }

  lemma {:induction false} MinimalPacIs(
      c: Crypto, info: PacInfo, serviceKey: KerberosKey, kdcKey: KerberosKey) returns (server: Bytes, kdc: Bytes)
    requires Lawful(c) && MinimalPac(c, info, serviceKey, kdcKey).Some?
    ensures |server| == 12 && |kdc| == 12
    ensures Checksum(c, serviceKey.keyHex, 17, PacType(BareBuffers(info, serviceKey, kdcKey))) == Some(server)
    ensures Checksum(c, kdcKey.keyHex, 17, SignatureData(serviceKey.enctype, server)) == Some(kdc)
    ensures MinimalPac(c, info, serviceKey, kdcKey).value
         == PacType(PacBuffers(info, SignatureData(serviceKey.enctype, server), SignatureData(kdcKey.enctype, kdc)))
  {
    hide PacType, Checksum, SignatureData, Lawful;
    server := Checksum(c, serviceKey.keyHex, 17, PacType(BareBuffers(info, serviceKey, kdcKey))).value;
    kdc := Checksum(c, kdcKey.keyHex, 17, SignatureData(serviceKey.enctype, server)).value;
  }

  /** Clearing both signatures of a certificate gives the certificate with empty signatures. */
  lemma ClearedPac(info: PacInfo, serviceEtype: i32, kdcEtype: i32, serverSignature: Bytes, kdcSignature: Bytes)
    requires |serverSignature| == 12 && |kdcSignature| == 12
    ensures var full := PacBuffers(info, SignatureData(serviceEtype, serverSignature),
                                   SignatureData(kdcEtype, kdcSignature));
            && OffsetOf(full, 3) + 16 <= |PacType(full)| && OffsetOf(full, 4) + 16 <= |PacType(full)|
            && WithoutSignature(WithoutSignature(PacType(full), OffsetOf(full, 4)), OffsetOf(full, 3))
               == PacType(PacBuffers(info, SignatureData(serviceEtype, []), SignatureData(kdcEtype, [])))
  {
    hide PacType, SignatureData, WithoutSignature, OffsetOf;
    var full := PacBuffers(info, SignatureData(serviceEtype, serverSignature), SignatureData(kdcEtype, kdcSignature));
    var half := PacBuffers(info, SignatureData(serviceEtype, serverSignature), SignatureData(kdcEtype, []));
    assert half == full[4 := half[4]];
    ClearBuffer(full, 4, kdcEtype, kdcSignature);
    SameOffset(full, half);
    ClearBuffer(half, 3, serviceEtype, serverSignature);
    assert half[3 := PacBuffer(6, SignatureData(serviceEtype, []))]
        == PacBuffers(info, SignatureData(serviceEtype, []), SignatureData(kdcEtype, []));
    SplicePac(half, 3, half[3]);
    SplicePac(full, 4, full[4]);
    SplicePac(full, 3, full[3]);
  }

  lemma ClearBuffer(buffers: seq<PacBuffer>, i: nat, enctype: i32, signature: Bytes)
    requires i < |buffers| && |signature| == 12 && buffers[i].data == SignatureData(enctype, signature)
    ensures OffsetOf(buffers, i) + 16 <= |PacType(buffers)|
    ensures WithoutSignature(PacType(buffers), OffsetOf(buffers, i))
         == PacType(buffers[i := PacBuffer(buffers[i].kind, SignatureData(enctype, []))])
  {
    hide PacType, SignatureData, WithoutSignature, OffsetOf;
    var pac, at := PacType(buffers), OffsetOf(buffers, i);
    SplicePac(buffers, i, buffers[i]);
    assert buffers[i := buffers[i]] == buffers;
    assert pac[at..at + 16] == buffers[i].data;
    ClearSignature(pac, at, enctype, signature);
    SplicePac(buffers, i, PacBuffer(buffers[i].kind, SignatureData(enctype, [])));
  }

  lemma SameOffset(full: seq<PacBuffer>, half: seq<PacBuffer>)
    requires |full| == |half| == 5 && full[..3] == half[..3]
    ensures OffsetOf(full, 3) == OffsetOf(half, 3)
  {
  }

  lemma SignatureAt(s: Bytes, at: nat, enctype: i32, signature: Bytes)
    requires at + 16 <= |s| && |signature| == 12 && s[at..at + 16] == SignatureData(enctype, signature)
    ensures s[at + 4..at + 16] == signature
  {
    hide U32LE, ChecksumType;
    assert s[at + 4..at + 16] == s[at..at + 16][4..];
    assert SignatureData(enctype, signature)[4..] == signature + Zeros(0);
    assert signature + Zeros(0) == signature;
  }
}
