/** The DHCP range allocator of dhcp.cpp. */
module Dhcp {
  import opened Octets
  import opened Bits
  import opened Texts

  const ACTIVE: Text := [97, 99, 116, 105, 118, 101]
  const EXPIRED: Text := [101, 120, 112, 105, 114, 101, 100]
  const LAST_ADDRESS: u32 := 0xFFFF_FFFF

  datatype Lease = Lease(ipAddress: Text, clientId: Text, hostname: Text, state: Text, expiresAt: Text)

  datatype Pool = Pool(rangeStart: Text, rangeEnd: Text)

  // ---------- Dotted quads ----------

  function U32ToIp(value: u32): (ip: Text)
  {
    Decimal(value / 0x100_0000) + [DOT] + Decimal(value / 0x1_0000 % 256) + [DOT]
    + Decimal(value / 256 % 256) + [DOT] + Decimal(value % 256)
  }

  /** An input stream: what is left of it, and whether no extraction has failed yet. */
  datatype Stream = Stream(rest: Text, good: bool)

  predicate IsSpace(b: byte) {
    b == 32 || 9 <= b <= 13
  }

  function SkipSpaces(s: Text): (r: Text)
    ensures |r| <= |s|
    ensures |s| > 0 && !IsSpace(s[0]) ==> r == s
  {
    if |s| > 0 && IsSpace(s[0]) then SkipSpaces(s[1..]) else s
  }

  /** operator>> into an unsigned int that holds 0: a failed conversion leaves 0, an overflow the maximum. */
  function ExtractUnsigned(stream: Stream): (r: (Stream, u32))
  {
    if !stream.good then (stream, 0)
    else
      var s := SkipSpaces(stream.rest);
      var signed := |s| > 0 && (s[0] == 43 || s[0] == 45);
      var digits := if signed then s[1..] else s;
      var n := DigitRun(digits);
      var value := DigitsValue(digits[..n]);
      if n == 0 then (Stream(digits, false), 0)
      else if value >= 0x1_0000_0000 then (Stream(digits[n..], false), LAST_ADDRESS)
      else (Stream(digits[n..], true), if signed && s[0] == 45 then (0x1_0000_0000 - value) % 0x1_0000_0000 else value)
  }

  /** operator>> into a char. */
  function ExtractChar(stream: Stream): (r: Stream)
  {
    var s := SkipSpaces(stream.rest);
    if !stream.good || |s| == 0 then Stream(s, false) else Stream(s[1..], true)
  }

  function IpToU32(ip: Text): (value: u32)
  {
    var (s0, o0) := ExtractUnsigned(Stream(ip, true));
    var (s1, o1) := ExtractUnsigned(ExtractChar(s0));
    var (s2, o2) := ExtractUnsigned(ExtractChar(s1));
    var (s3, o3) := ExtractUnsigned(ExtractChar(s2));
    Combine(o0, o1, o2, o3)
  }

  /** (o0 << 24) | (o1 << 16) | (o2 << 8) | o3 on 32-bit operands. */
  function Combine(o0: u32, o1: u32, o2: u32, o3: u32): (value: u32)
  {
    Or(Or(Or(o0 * 0x100_0000 % 0x1_0000_0000, o1 * 0x1_0000 % 0x1_0000_0000), o2 * 256 % 0x1_0000_0000), o3)
    % 0x1_0000_0000
  }

  lemma ExtractDecimal(n: u32, rest: Text)
    requires |rest| > 0 ==> rest[0] == DOT
    ensures ExtractUnsigned(Stream(Decimal(n) + rest, true)) == (Stream(rest, true), n)
  {
    var s := Decimal(n) + rest;
    assert IsDigit(Decimal(n)[0]) && s[0] == Decimal(n)[0];
    DigitRunOfDecimal(n, rest);
    DecimalValue(n);
    assert s[|Decimal(n)|..] == rest;
  }

  /** Reading a printed address gives the address back. */
  lemma {:induction false} IpRoundTrip(value: u32)
    ensures IpToU32(U32ToIp(value)) == value
  {
    hide IpToU32, Combine, Decimal;
    var o0, o1, o2, o3 := value / 0x100_0000, value / 0x1_0000 % 256, value / 256 % 256, value % 256;
    ReadsOctets(o0, o1, o2, o3);
    CombineOctets(o0, o1, o2, o3);
    OctetsOf(value);
  }

  lemma OctetsOf(value: u32)
    ensures 0x100_0000 * (value / 0x100_0000) + 0x1_0000 * (value / 0x1_0000 % 256) + 256 * (value / 256 % 256)
            + value % 256
         == value
  {
    assert value / 0x1_0000 == 256 * (value / 0x100_0000) + value / 0x1_0000 % 256;
    assert value / 256 == 256 * (value / 0x1_0000) + value / 256 % 256;
  }

  /** The four octets of a dotted quad, one extraction after the other. */
  lemma {:induction false} ReadsOctets(o0: byte, o1: byte, o2: byte, o3: byte)
    ensures IpToU32(Decimal(o0) + [DOT] + Decimal(o1) + [DOT] + Decimal(o2) + [DOT] + Decimal(o3))
         == Combine(o0, o1, o2, o3)
  {
    hide Combine, Decimal, ExtractUnsigned, ExtractChar;
    var t3 := Decimal(o3) + [];
    var t2 := Decimal(o2) + ([DOT] + t3);
    var t1 := Decimal(o1) + ([DOT] + t2);
    var t0 := Decimal(o0) + ([DOT] + t1);
    Reassociate(Decimal(o0), Decimal(o1), Decimal(o2), Decimal(o3));
    ExtractDecimal(o0, [DOT] + t1);
    ExtractDecimal(o1, [DOT] + t2);
    ExtractDecimal(o2, [DOT] + t3);
    ExtractDecimal(o3, []);
    ExtractDot(t1);
    ExtractDot(t2);
    ExtractDot(t3);
  }

  lemma Reassociate(a: Text, b: Text, c: Text, d: Text)
    ensures a + [DOT] + b + [DOT] + c + [DOT] + d == a + ([DOT] + (b + ([DOT] + (c + ([DOT] + (d + []))))))
  {
    assert d + [] == d;
  }

  lemma ExtractDot(rest: Text)
    ensures ExtractChar(Stream([DOT] + rest, true)) == Stream(rest, true)
  {
    assert ([DOT] + rest)[1..] == rest;
  }

  lemma CombineOctets(o0: byte, o1: byte, o2: byte, o3: byte)
    ensures Combine(o0, o1, o2, o3) == 0x100_0000 * (o0 as int) + 0x1_0000 * (o1 as int) + 256 * (o2 as int) + o3
  {
    hide Or;
    InRange(o0, 0x100_0000);
    InRange(o1, 0x1_0000);
    InRange(o2, 256);
    OrInto24(o0, o1 * 0x1_0000);
    OrInto16(256 * (o0 as int) + o1, o2 * 256);
    OrInto8(0x1_0000 * (o0 as int) + 256 * (o1 as int) + o2, o3);
  }

  lemma InRange(o: nat, scale: nat)
    requires o < 256 && (scale == 0x100_0000 || scale == 0x1_0000 || scale == 256)
    ensures o * scale % 0x1_0000_0000 == o * scale
  {
  }

  lemma OrInto24(high: nat, low: nat)
    requires low < 0x100_0000
    ensures Or(high * 0x100_0000, low) == high * 0x100_0000 + low
  {
    hide Or, Power;
    Shifts();
    OrDisjoint(high, low, 24);
  }

  lemma OrInto16(high: nat, low: nat)
    requires low < 0x1_0000
    ensures Or(high * 0x1_0000, low) == high * 0x1_0000 + low
  {
    hide Or, Power;
    Shifts();
    OrDisjoint(high, low, 16);
  }

  lemma OrInto8(high: nat, low: nat)
    requires low < 256
    ensures Or(high * 256, low) == high * 256 + low
  {
    hide Or, Power;
    Shifts();
    OrDisjoint(high, low, 8);
  }

  lemma Shifts()
    ensures Power(2, 8) == 256 && Power(2, 16) == 0x1_0000 && Power(2, 24) == 0x100_0000
  {
    PowersOfTwo();
    PowerAdd(2, 8, 8);
    PowerAdd(2, 16, 8);
  }

  lemma {:induction false} PrintedAddressesDiffer(a: u32, b: u32)
    requires U32ToIp(a) == U32ToIp(b)
    ensures a == b
  {
    IpRoundTrip(a);
    IpRoundTrip(b);
  }

  // ---------- Allocation ----------

  predicate HoldsAddress(lease: Lease, address: u32) {
    lease.ipAddress == U32ToIp(address) && lease.state != EXPIRED
  }

  predicate Held(leases: seq<Lease>, address: u32) {
    exists i :: 0 <= i < |leases| && HoldsAddress(leases[i], address)
  }

  /** The first lease recorded for a client, whatever its state. */
  function LeaseOf(leases: seq<Lease>, clientId: Text): (r: Option<Lease>)
    ensures r.None? <==> forall i :: 0 <= i < |leases| ==> leases[i].clientId != clientId
    ensures r.Some? ==> r.value in leases && r.value.clientId == clientId
  {
    if |leases| == 0 then None
    else if leases[0].clientId == clientId then Some(leases[0])
    else LeaseOf(leases[1..], clientId)
  }

  /** a is the lowest address in [from..to] that no lease holds. */
  ghost predicate IsLowestFree(leases: seq<Lease>, from: u32, to: u32, a: u32) {
    && from <= a <= to && !Held(leases, a)
    && forall b: u32 :: from <= b < a ==> Held(leases, b)
  }

  ghost predicate AllHeld(leases: seq<Lease>, from: u32, to: u32) {
    forall b: u32 :: from <= b <= to ==> Held(leases, b)
  }

  /** The scan over [start..end] comes to an end: only a range ending in 255.255.255.255 makes the counter wrap,
      and then some address outside the range has to be free. */
  ghost predicate ScanEnds(leases: seq<Lease>, start: u32, end: u32) {
    start <= end == LAST_ADDRESS && AllHeld(leases, start, end) ==> exists a: u32 :: !Held(leases, a)
  }

  function Fresh(address: u32, clientId: Text, hostname: Text, expiresAt: Text): Lease {
    Lease(U32ToIp(address), clientId, hostname, ACTIVE, expiresAt)
  }

  /** The any_of over the existing leases. */
  method IsTaken(leases: seq<Lease>, address: u32) returns (taken: bool)
    ensures taken <==> Held(leases, address)
  {
    hide U32ToIp;
    for k := 0 to |leases|
      invariant forall j :: 0 <= j < k ==> !HoldsAddress(leases[j], address)
    {
      if HoldsAddress(leases[k], address) {
        return true;
      }
    }
    return false;
  }

  /** The first loop: a client that has a lease gets it back. */
  method FindLease(leases: seq<Lease>, clientId: Text) returns (r: Option<Lease>)
    ensures r == LeaseOf(leases, clientId)
  {
    var i := 0;
    assert leases[0..] == leases;
    while i < |leases|
      invariant 0 <= i <= |leases|
      invariant LeaseOf(leases, clientId) == LeaseOf(leases[i..], clientId)
    {
      if leases[i].clientId == clientId {
        return Some(leases[i]);
      }
      assert leases[i..][1..] == leases[i + 1..];
      i := i + 1;
    }
    return None;
  }

  /** allocate_next_lease; expiresAt is the clock reading twelve hours ahead. A scan that wraps around hands out an
      address below the range. */
  method AllocateNextLease(pool: Pool, leases: seq<Lease>, clientId: Text, hostname: Text, expiresAt: Text)
    returns (r: Option<Lease>)
    requires LeaseOf(leases, clientId).None? ==> ScanEnds(leases, IpToU32(pool.rangeStart), IpToU32(pool.rangeEnd))
    ensures LeaseOf(leases, clientId).Some? ==> r == LeaseOf(leases, clientId)
    ensures var start, end := IpToU32(pool.rangeStart), IpToU32(pool.rangeEnd);
            LeaseOf(leases, clientId).None? ==>
              if start <= end && !AllHeld(leases, start, end) then
                exists a: u32 :: IsLowestFree(leases, start, end, a)
                    && r == Some(Fresh(a, clientId, hostname, expiresAt))
              else if start <= end == LAST_ADDRESS then
                exists a: u32 :: IsLowestFree(leases, 0, LAST_ADDRESS, a) && a < start
                              && r == Some(Fresh(a, clientId, hostname, expiresAt))
              else r == None
  {
    hide LeaseOf, IpToU32, U32ToIp, HoldsAddress, Held;
    var start: u32 := IpToU32(pool.rangeStart);
    var end: u32 := IpToU32(pool.rangeEnd);
    var known := FindLease(leases, clientId);
    if known.Some? {
      return known;
    }
    var candidate: u32 := start;
    ghost var wrapped := false;
    while candidate <= end
      invariant !wrapped ==> start <= candidate && forall b: u32 :: start <= b < candidate ==> Held(leases, b)
      invariant wrapped ==> start <= end == LAST_ADDRESS && AllHeld(leases, start, end)
                            && candidate < start && forall b: u32 :: 0 <= b < candidate ==> Held(leases, b)
      decreases !wrapped, LAST_ADDRESS - candidate
    {
      var taken := IsTaken(leases, candidate);
      if !taken {
        assert IsLowestFree(leases, if wrapped then 0 else start, end, candidate);
        return Some(Fresh(candidate, clientId, hostname, expiresAt));
      }
      if candidate == LAST_ADDRESS {
        FreeBelow(leases, start);
        wrapped := true;
        candidate := 0;
      } else {
        if wrapped {
          FreeBelow(leases, start);
        }
        candidate := candidate + 1;
      }
    }
    return None;
  }

  lemma FreeBelow(leases: seq<Lease>, start: u32)
    requires ScanEnds(leases, start, LAST_ADDRESS) && AllHeld(leases, start, LAST_ADDRESS)
    ensures exists a: u32 :: a < start && !Held(leases, a)
  {
    hide Held;
    var a: u32 :| !Held(leases, a);
    assert a < start;
  }

  /** Pigeonhole: as many leases as held addresses. */
  lemma {:induction false} HeldNeedLeases(leases: seq<Lease>, from: u32, to: u32)
    requires from <= to && AllHeld(leases, from, to)
    ensures |leases| >= to as int - from + 1
    decreases (to as int) - from
  {
    assert Held(leases, to);
    var i :| 0 <= i < |leases| && HoldsAddress(leases[i], to);
    if from < to {
      var others := leases[..i] + leases[i + 1..];
      forall b: u32 | from <= b <= to - 1 ensures Held(others, b) {
        assert Held(leases, b);
        var j :| 0 <= j < |leases| && HoldsAddress(leases[j], b);
        if i == j {
          PrintedAddressesDiffer(b, to);
        }
        assert HoldsAddress(others[if j < i then j else j - 1], b);
      }
      HeldNeedLeases(others, from, to - 1);
    }
  }

  /** A range with more addresses than there are leases never refuses a new client, and with fewer than 2^32 leases
      every scan ends. */
  lemma RoomForNewClient(leases: seq<Lease>, start: u32, end: u32)
    requires start <= end
    ensures |leases| < end as int - start + 1 ==> !AllHeld(leases, start, end)
    ensures |leases| < 0x1_0000_0000 ==> ScanEnds(leases, start, end)
  {
    if AllHeld(leases, start, end) {
      HeldNeedLeases(leases, start, end);
    }
    if |leases| < 0x1_0000_0000 && AllHeld(leases, 0, LAST_ADDRESS) {
      HeldNeedLeases(leases, 0, LAST_ADDRESS);
    }
  }

  // ---------- Runs of allocations and expiries ----------

  /** No two non-expired leases are for the same address. */
  ghost predicate DistinctActive(leases: seq<Lease>) {
    forall i, j :: 0 <= i < j < |leases| && leases[i].state != EXPIRED && leases[j].state != EXPIRED
      ==> leases[i].ipAddress != leases[j].ipAddress
  }

  datatype Event =
    | Allocate(clientId: Text, hostname: Text, expiresAt: Text)
    | Expire(index: nat)

  /** One step of the lease table: a fresh lease is appended, an old one returned unchanged. */
  ghost predicate Step(pool: Pool, leases: seq<Lease>, event: Event, leases': seq<Lease>) {
    var start, end := IpToU32(pool.rangeStart), IpToU32(pool.rangeEnd);
    match event
    case Expire(index) =>
      index < |leases| && leases' == leases[index := leases[index].(state := EXPIRED)]
    case Allocate(clientId, hostname, expiresAt) =>
      if LeaseOf(leases, clientId).Some? || start > end || (AllHeld(leases, start, end) && end < LAST_ADDRESS) then
        leases' == leases
      else
        exists a: u32 ::
          && IsLowestFree(leases, if AllHeld(leases, start, end) then 0 else start, end, a)
          && leases' == leases + [Fresh(a, clientId, hostname, expiresAt)]
  }

  /** AllocateNextLease followed by recording what it returned is such a step. */
  method AllocateAndRecord(pool: Pool, leases: seq<Lease>, clientId: Text, hostname: Text, expiresAt: Text)
    returns (r: Option<Lease>, leases': seq<Lease>)
    requires |leases| < 0x1_0000_0000
    ensures Step(pool, leases, Allocate(clientId, hostname, expiresAt), leases')
    ensures r.Some? ==> r.value in leases' && r.value.clientId == clientId
    ensures r.None? ==> leases' == leases
  {
    var start, end := IpToU32(pool.rangeStart), IpToU32(pool.rangeEnd);
    if start <= end {
      RoomForNewClient(leases, start, end);
    }
    r := AllocateNextLease(pool, leases, clientId, hostname, expiresAt);
    leases' := leases;
    if r.Some? && LeaseOf(leases, clientId).None? {
      leases' := leases + [r.value];
    }
  }

  ghost predicate Run(pool: Pool, tables: seq<seq<Lease>>, events: seq<Event>) {
    && |tables| == |events| + 1
    && forall i :: 0 <= i < |events| ==> Step(pool, tables[i], events[i], tables[i + 1])
  }

  lemma AppendKeepsDistinct(leases: seq<Lease>, a: u32, lease: Lease)
    requires DistinctActive(leases) && !Held(leases, a) && lease.ipAddress == U32ToIp(a)
    ensures DistinctActive(leases + [lease])
  {
    hide U32ToIp;
    forall i | 0 <= i < |leases| ensures leases[i].state == EXPIRED || leases[i].ipAddress != lease.ipAddress {
      assert !HoldsAddress(leases[i], a);
    }
  }

  lemma {:induction false} StepKeepsDistinct(pool: Pool, leases: seq<Lease>, event: Event, leases': seq<Lease>)
    requires DistinctActive(leases) && Step(pool, leases, event, leases')
    ensures DistinctActive(leases')
  {
    hide Held, U32ToIp, IpToU32, LeaseOf;
    if event.Allocate? && leases' != leases {
      var a: u32 :| !Held(leases, a) && leases' == leases + [Fresh(a, event.clientId, event.hostname, event.expiresAt)];
      AppendKeepsDistinct(leases, a, Fresh(a, event.clientId, event.hostname, event.expiresAt));
    }
  }

  /** Along every run the non-expired addresses stay distinct. */
  lemma {:induction false} RunKeepsDistinct(pool: Pool, tables: seq<seq<Lease>>, events: seq<Event>, i: nat)
    requires Run(pool, tables, events) && DistinctActive(tables[0])
    requires i < |tables|
    ensures DistinctActive(tables[i])
  {
    if i > 0 {
      RunKeepsDistinct(pool, tables, events, i - 1);
      StepKeepsDistinct(pool, tables[i - 1], events[i - 1], tables[i]);
    }
  }

  /** What a known client gets back is exclusively its own unless its lease had expired and the address has been
      given away since. */
  lemma KnownClientExclusive(leases: seq<Lease>, clientId: Text, k: nat, address: u32)
    requires DistinctActive(leases) && k < |leases|
    requires LeaseOf(leases, clientId) == Some(leases[k])
    requires leases[k].ipAddress == U32ToIp(address)
    ensures (forall j :: 0 <= j < |leases| && j != k ==> !HoldsAddress(leases[j], address))
       <==> leases[k].state != EXPIRED || !Held(leases, address)
  {
  }

  /** The failing case occurs: an expired lease is handed back although its address is someone else's by then. */
  lemma ExpiredLeaseHandedBack()
    ensures exists leases: seq<Lease>, clientId: Text, k: nat, address: u32 ::
              && DistinctActive(leases) && k < |leases| && LeaseOf(leases, clientId) == Some(leases[k])
              && leases[k].ipAddress == U32ToIp(address)
              && exists j :: 0 <= j < |leases| && leases[j].clientId != clientId && HoldsAddress(leases[j], address)
  {
    var first := Fresh(7, [1], [], []).(state := EXPIRED);
    var second := Fresh(7, [2], [], []);
    var leases := [first, second];
    assert LeaseOf(leases, [1]) == Some(leases[0]);
    assert leases[1].clientId != [1] && HoldsAddress(leases[1], 7) by {
      assert second.clientId[0] == 2;
      assert |ACTIVE| != |EXPIRED|;
    }
    assert DistinctActive(leases);
    assert leases[0].ipAddress == U32ToIp(7);
  }
}
