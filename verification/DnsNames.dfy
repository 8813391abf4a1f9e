/** The DNS name codec with compression pointers (section 4.1.4 of RFC 1035), as dns.cpp writes and reads it. */
module DnsNames {
  import opened Octets
  import opened Texts
  import opened Buffers

  const ROOT: Text := [DOT]
  const AT_SIGN: Text := [64]
  const MAX_DEPTH := 8

  // ---------- Reading ----------

  /** The label loop of read_dns_name, `output` being the name collected so far. */
  function ReadLabels(bytes: Bytes, offset: nat, output: Text, depth: nat): (r: Option<(nat, Text)>)
    requires depth <= MAX_DEPTH
    ensures r.Some? ==> offset < r.value.0 <= |bytes| && |r.value.1| > 0
    decreases MAX_DEPTH - depth, |bytes| - offset
  {
    if offset >= |bytes| then None
    else
      var length := bytes[offset];
      if length == 0 then Some((offset + 1, OrRoot(output)))
      else if length >= 0xC0 then
        if offset + 1 >= |bytes| || depth == MAX_DEPTH then None
        else
          var (_, pointed) :- ReadLabels(bytes, PointerAt(bytes, offset), [], depth + 1);
          Some((offset + 2, OrRoot(if pointed == ROOT then output else Appended(output, pointed))))
      else if length >= 0x40 || offset + 1 + length > |bytes| then None
      else ReadLabels(bytes, offset + 1 + length, Appended(output, bytes[offset + 1..offset + 1 + length]), depth)
  }

  /** read_dns_name: the offset behind the name, and the name in dotted form. */
  function ReadName(bytes: Bytes, offset: nat): (r: Option<(nat, Text)>)
    ensures r.Some? ==> offset < r.value.0 <= |bytes| && |r.value.1| > 0
  {
    ReadLabels(bytes, offset, [], 0)
  }

  function OrRoot(name: Text): (r: Text)
    ensures |r| > 0
  {
    if name == [] then ROOT else name
  }

  function Appended(output: Text, more: Text): Text {
    if output == [] then more else output + [DOT] + more
  }

  function PointerAt(bytes: Bytes, offset: nat): (p: nat)
    requires offset + 1 < |bytes|
  {
    (bytes[offset] as int) % 64 * 256 + bytes[offset + 1]
  }

  /** read_dns_name; the offset is only meaningful after a success. */
  method ReadDnsName(bytes: Bytes, start: nat, depth: nat) returns (ok: bool, offset: nat, name: Text)
    ensures ok <==> depth <= MAX_DEPTH && ReadLabels(bytes, start, [], depth).Some?
    ensures ok ==> ReadLabels(bytes, start, [], depth) == Some((offset, name))
    decreases MAX_DEPTH + 1 - depth
  {
    hide ReadLabels, PointerAt, Appended, OrRoot;
    offset, name := start, [];
    if depth > MAX_DEPTH {
      return false, offset, name;
    }
    var output: Text := [];
    while offset < |bytes|
      invariant ReadLabels(bytes, start, [], depth) == ReadLabels(bytes, offset, output, depth)
    {
      ReadsOnce(bytes, offset, output, depth);
      var length := bytes[offset];
      offset := offset + 1;
      if length == 0 {
        return true, offset, OrRoot(output);
      }
      if length >= 0xC0 {
        if offset >= |bytes| {
          return false, offset, name;
        }
        var pointer := PointerAt(bytes, offset - 1);
        offset := offset + 1;
        var found, _, pointed := ReadDnsName(bytes, pointer, depth + 1);
        if !found {
          return false, offset, name;
        }
        if pointed != ROOT {
          output := Appended(output, pointed);
        }
        return true, offset, OrRoot(output);
      }
      if length >= 0x40 || offset + length > |bytes| {
        return false, offset, name;
      }
      output := Appended(output, bytes[offset..offset + length]);
      offset := offset + length;
    }
    ReadsNothing(bytes, offset, output, depth);
    return false, offset, name;
  }

  lemma ReadsNothing(bytes: Bytes, offset: nat, output: Text, depth: nat)
    requires depth <= MAX_DEPTH && offset >= |bytes|
    ensures ReadLabels(bytes, offset, output, depth) == None
  {
  }

  /** One turn of the label loop. */
  lemma ReadsOnce(bytes: Bytes, offset: nat, output: Text, depth: nat)
    requires depth <= MAX_DEPTH && offset < |bytes|
    ensures bytes[offset] == 0 ==> ReadLabels(bytes, offset, output, depth) == Some((offset + 1, OrRoot(output)))
    ensures bytes[offset] >= 0xC0 && (offset + 1 >= |bytes| || depth == MAX_DEPTH) ==>
              ReadLabels(bytes, offset, output, depth) == None
    ensures bytes[offset] >= 0xC0 && offset + 1 < |bytes| && depth < MAX_DEPTH ==>
              ReadLabels(bytes, offset, output, depth)
              == match ReadLabels(bytes, PointerAt(bytes, offset), [], depth + 1)
                 case Some((_, pointed)) =>
                   Some((offset + 2, OrRoot(if pointed == ROOT then output else Appended(output, pointed))))
                 case None => None
    ensures 0 < bytes[offset] < 0x40 && offset + 1 + bytes[offset] <= |bytes| ==>
              ReadLabels(bytes, offset, output, depth)
              == ReadLabels(bytes, offset + 1 + bytes[offset],
                            Appended(output, bytes[offset + 1..offset + 1 + bytes[offset]]), depth)
    ensures 0x40 <= bytes[offset] < 0xC0 || (0 < bytes[offset] < 0x40 && offset + 1 + bytes[offset] > |bytes|) ==>
              ReadLabels(bytes, offset, output, depth) == None
  {
    hide PointerAt, OrRoot, Appended;
  }

  // ---------- What is encoded at an offset ----------

  predicate IsLabel(part: Text) {
    1 <= |part| <= 63 && DOT !in part
  }

  /** The bytes at `offset` spell `labels`, following `hops` compression pointers on the way. */
  ghost predicate Spells(bytes: Bytes, offset: nat, labels: seq<Text>, hops: nat)
    decreases hops, |labels|
  {
    && offset < |bytes|
    && if bytes[offset] >= 0xC0 then
         offset + 1 < |bytes| && hops > 0 && Spells(bytes, PointerAt(bytes, offset), labels, hops - 1)
       else if labels == [] then
         bytes[offset] == 0 && hops == 0
       else
         && IsLabel(labels[0]) && bytes[offset] == |labels[0]| && offset + 1 + |labels[0]| <= |bytes|
         && bytes[offset + 1..offset + 1 + |labels[0]|] == labels[0]
         && Spells(bytes, offset + 1 + |labels[0]|, labels[1..], hops)
  }

  /** Just past the first pointer or the terminating zero. */
  ghost function SpellingEnd(bytes: Bytes, offset: nat, labels: seq<Text>, hops: nat): (end: nat)
    requires Spells(bytes, offset, labels, hops)
    decreases |labels|
  {
    if bytes[offset] >= 0xC0 then offset + 2
    else if labels == [] then offset + 1
    else SpellingEnd(bytes, offset + 1 + |labels[0]|, labels[1..], hops)
  }

  /** The name read is the labels joined by dots, and the offset is just past the first pointer or the final zero;
      a chain of pointers is followed exactly up to the depth limit. */
  lemma {:induction false} ReadsSpelling(
      bytes: Bytes, offset: nat, labels: seq<Text>, hops: nat, output: Text, depth: nat)
    requires Spells(bytes, offset, labels, hops) && depth <= MAX_DEPTH
    ensures ReadLabels(bytes, offset, output, depth)
         == if hops + depth <= MAX_DEPTH
            then Some((SpellingEnd(bytes, offset, labels, hops), OrRoot(Onto(output, labels))))
            else None
    decreases hops, |labels|
  {
    hide Join, PointerAt, ReadLabels;
    ReadsOnce(bytes, offset, output, depth);
    if bytes[offset] >= 0xC0 {
      if depth < MAX_DEPTH {
        ReadsSpelling(bytes, PointerAt(bytes, offset), labels, hops - 1, [], depth + 1);
        JoinedNotRoot(bytes, PointerAt(bytes, offset), labels, hops - 1);
      }
    } else if labels != [] {
      ReadsSpelling(bytes, offset + 1 + |labels[0]|, labels[1..], hops, Appended(output, labels[0]), depth);
      OntoFirst(output, labels);
    }
  }

  /** The name `output` continued by labels. */
  function Onto(output: Text, labels: seq<Text>): Text {
    if labels == [] then output else Appended(output, Join(labels, DOT))
  }

  lemma OntoFirst(output: Text, labels: seq<Text>)
    requires |labels| > 0 && |labels[0]| > 0
    ensures Onto(Appended(output, labels[0]), labels[1..]) == Onto(output, labels)
  {
    if |labels| > 1 {
      var rest := Join(labels[1..], DOT);
      assert output + [DOT] + (labels[0] + [DOT] + rest) == output + [DOT] + labels[0] + [DOT] + rest;
    }
  }

  lemma {:induction false} JoinedNotRoot(bytes: Bytes, offset: nat, labels: seq<Text>, hops: nat)
    requires Spells(bytes, offset, labels, hops)
    ensures labels != [] ==> Join(labels, DOT) != ROOT && Join(labels, DOT) != []
    decreases hops
  {
    if bytes[offset] >= 0xC0 {
      JoinedNotRoot(bytes, PointerAt(bytes, offset), labels, hops - 1);
    } else if labels != [] {
      assert Join(labels, DOT)[0] == labels[0][0];
      assert labels[0][0] in labels[0];
    }
  }

  /** Section 4.1.4 of RFC 1035: read_dns_name on any encoding, with at most eight pointers in a row. */
  lemma ReadNameOfEncoding(bytes: Bytes, offset: nat, labels: seq<Text>, hops: nat)
    requires Spells(bytes, offset, labels, hops)
    ensures ReadName(bytes, offset)
         == if hops <= MAX_DEPTH then Some((SpellingEnd(bytes, offset, labels, hops), OrRoot(Join(labels, DOT))))
            else None
  {
    ReadsSpelling(bytes, offset, labels, hops, [], 0);
  }

  // ---------- Writing ----------

  /** The labels on the wire: one over 63 bytes ends the name early. */
  function WireLabels(labels: seq<Text>): (s: Bytes)
    ensures |s| > 0
  {
    if |labels| == 0 || |labels[0]| > 63 then [0]
    else [|labels[0]|] + labels[0] + WireLabels(labels[1..])
  }

  /** A name that is empty up to trailing dots, or "@", is written as the root. */
  predicate IsRootName(name: Text) {
    TrimDots(name) == [] || TrimDots(name) == AT_SIGN
  }

  function WireName(name: Text): (s: Bytes)
    ensures |s| > 0
  {
    if IsRootName(name) then [0] else WireLabels(Split(TrimDots(name), DOT))
  }

  /** write_dns_name */
  method WriteDnsName(bytes: ByteBuffer, name: Text)
    modifies bytes
    ensures bytes.data == old(bytes.data) + WireName(name)
  {
    hide WireLabels, Split, IndexOf, TrimDots;
    var normalized := TrimDots(name);
    if normalized == [] || normalized == AT_SIGN {
      bytes.Push(0);
      return;
    }
    var start := 0;
    assert normalized[0..] == normalized;
    while start < |normalized|
      invariant 0 <= start < |normalized|
      invariant bytes.data + WireLabels(Split(normalized[start..], DOT)) == old(bytes.data) + WireName(name)
    {
      var rest := normalized[start..];
      var dot := IndexOf(rest, DOT);
      SplitOnce(rest);
      if dot > 63 {
        bytes.Push(0);
        return;
      }
      bytes.Push(dot);
      bytes.Append(rest[..dot]);
      if dot == |rest| {
        break;
      }
      assert rest[|rest| - 1] == normalized[|normalized| - 1];
      assert rest[dot + 1..] == normalized[start + dot + 1..];
      start := start + dot + 1;
    }
    bytes.Push(0);
  }

  lemma SplitOnce(rest: Text)
    requires |rest| > 0
    ensures IndexOf(rest, DOT) > 63 ==> WireLabels(Split(rest, DOT)) == [0]
    ensures IndexOf(rest, DOT) == |rest| <= 63 ==> WireLabels(Split(rest, DOT)) == [|rest|] + rest + [0]
    ensures IndexOf(rest, DOT) <= 63 && IndexOf(rest, DOT) < |rest| ==>
              WireLabels(Split(rest, DOT))
              == [IndexOf(rest, DOT)] + rest[..IndexOf(rest, DOT)] + WireLabels(Split(rest[IndexOf(rest, DOT) + 1..],
                    DOT))
    ensures rest[..|rest|] == rest
  {
    hide IndexOf;
    var dot := IndexOf(rest, DOT);
    if dot < |rest| {
      assert Split(rest, DOT)[1..] == Split(rest[dot + 1..], DOT);
    } else {
      assert Split(rest, DOT)[1..] == [];
    }
  }

  /** The labels write_dns_name gets through before an empty or an overlong one. */
  function LeadingLabels(labels: seq<Text>): (r: seq<Text>)
    ensures r <= labels
  {
    if |labels| == 0 || !(1 <= |labels[0]| <= 63) then []
    else [labels[0]] + LeadingLabels(labels[1..])
  }

  predicate NoneEmpty(labels: seq<Text>) {
    forall i :: 0 <= i < |labels| ==> |labels[i]| > 0
  }

  predicate AllShort(labels: seq<Text>) {
    forall i :: 0 <= i < |labels| ==> 1 <= |labels[i]| <= 63
  }

  lemma {:induction false} LeadingIsAll(labels: seq<Text>)
    ensures LeadingLabels(labels) == labels <==> AllShort(labels)
  {
    if |labels| > 0 && 1 <= |labels[0]| <= 63 {
      LeadingIsAll(labels[1..]);
      assert labels == [labels[0]] + labels[1..];
      assert AllShort(labels) ==> AllShort(labels[1..]);
      assert forall i :: 0 < i < |labels| ==> labels[i] == labels[1..][i - 1];
    }
  }

  /** Written labels are an encoding of their leading labels, and of nothing beyond them unless a label is empty. */
  lemma {:induction false} WireLabelsSpell(labels: seq<Text>, before: Bytes, after: Bytes)
    requires forall l :: l in labels ==> DOT !in l
    ensures Spells(before + WireLabels(labels) + after, |before|, LeadingLabels(labels), 0)
    ensures NoneEmpty(labels) ==>
              SpellingEnd(before + WireLabels(labels) + after, |before|, LeadingLabels(labels), 0)
              == |before| + |WireLabels(labels)|
  {
    if |labels| > 0 && 1 <= |labels[0]| <= 63 {
      var first, rest := labels[0], labels[1..];
      assert first in labels && forall l :: l in rest ==> l in labels;
      assert NoneEmpty(labels) ==> NoneEmpty(rest);
      WireLabelsSpell(rest, before + ([|first|] + first), after);
      OneMoreLabel(before, first, WireLabels(rest), after, LeadingLabels(rest));
    } else {
      assert (before + WireLabels(labels) + after)[|before|] == 0;
    }
  }

  /** One label in front of a spelling. */
  lemma OneMoreLabel(before: Bytes, first: Text, wire: Bytes, after: Bytes, labels: seq<Text>)
    requires IsLabel(first)
    requires Spells(before + ([|first|] + first) + wire + after, |before + ([|first|] + first)|, labels, 0)
    ensures Spells(before + ([|first|] + first + wire) + after, |before|, [first] + labels, 0)
    ensures SpellingEnd(before + ([|first|] + first + wire) + after, |before|, [first] + labels, 0)
         == SpellingEnd(before + ([|first|] + first) + wire + after, |before + ([|first|] + first)|, labels, 0)
  {
    var bytes := before + ([|first|] + first + wire) + after;
    assert bytes == before + ([|first|] + first) + wire + after;
    assert bytes[|before|] == |first|;
    assert bytes[|before| + 1..|before| + 1 + |first|] == first;
    assert ([first] + labels)[1..] == labels;
  }

  /** What a reader makes of a written name. */
  function ReadBack(name: Text): (r: Text)
  {
    if IsRootName(name) then ROOT else OrRoot(Join(LeadingLabels(Split(TrimDots(name), DOT)), DOT))
  }

  /** Reading a written name, in the middle of any message, always succeeds; the reader stops behind the written bytes
      when no label is empty. */
  lemma WrittenNameReads(name: Text, before: Bytes, after: Bytes)
    ensures ReadName(before + WireName(name) + after, |before|).Some?
    ensures ReadName(before + WireName(name) + after, |before|).value.1 == ReadBack(name)
    ensures NoneEmpty(Split(TrimDots(name), DOT)) || IsRootName(name) ==>
              ReadName(before + WireName(name) + after, |before|).value.0 == |before| + |WireName(name)|
  {
    var bytes := before + WireName(name) + after;
    var labels := Split(TrimDots(name), DOT);
    if IsRootName(name) {
      assert bytes[|before|] == 0;
      ReadNameOfEncoding(bytes, |before|, [], 0);
    } else {
      WireLabelsSpell(labels, before, after);
      ReadNameOfEncoding(bytes, |before|, LeadingLabels(labels), 0);
    }
  }

  /** read_dns_name undoes write_dns_name exactly for names whose labels all have 1 to 63 bytes. */
  lemma NameRoundTrip(name: Text)
    ensures ReadName(WireName(name), 0).Some?
    ensures !IsRootName(name) ==>
              (ReadName(WireName(name), 0).value.1 == TrimDots(name) <==> AllShort(Split(TrimDots(name), DOT)))
  {
    hide ReadName, WireName, Split;
    WrittenNameReads(name, [], []);
    assert [] + WireName(name) + [] == WireName(name);
    if !IsRootName(name) {
      JoinsToWhole(TrimDots(name));
    }
  }

  /** The leading labels make up the whole name only if they are all the labels. */
  lemma {:induction false} JoinsToWhole(n: Text)
    requires |n| > 0 && n[|n| - 1] != DOT
    ensures OrRoot(Join(LeadingLabels(Split(n, DOT)), DOT)) == n <==> AllShort(Split(n, DOT))
  {
    var labels := Split(n, DOT);
    var leading := LeadingLabels(labels);
    JoinSplit(n, DOT);
    LeadingIsAll(labels);
    if leading != [] {
      forall l | l in leading ensures DOT !in l {
        var i :| 0 <= i < |leading| && leading[i] == l;
        assert labels[i] in labels;
      }
      SplitJoin(leading, DOT);
    }
  }
}
