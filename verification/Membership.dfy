/** Group membership in two representations: rows of ad_memberships and the groupRids attribute of each member
    (apps/directory/main.cpp). */
module Membership {
  import opened Octets
  import opened Texts
  import opened ValueLists
  import opened Attributes

  const GROUP_RIDS: Text := [103, 114, 111, 117, 112, 82, 105, 100, 115]
  const RID: Text := [114, 105, 100]

  type Row = (Text, Text)

  // ---------- Lists of relative identifiers ----------

  function SkipSpaces(s: Text): (r: Text)
    ensures |s| > 0 && IsDigit(s[0]) ==> r == s
  {
    if |s| > 0 && (s[0] == 32 || 9 <= s[0] <= 13) then SkipSpaces(s[1..]) else s
  }

  /** std::stoul: None where it throws; a minus sign negates in 64 bits. */
  function StoUl(s: Text): (r: Option<u64>)
  {
    var t := SkipSpaces(s);
    var digits := if |t| > 0 && (t[0] == 45 || t[0] == 43) then t[1..] else t;
    var n := DigitRun(digits);
    if n == 0 then None
    else
      var v := DigitsValue(digits[..n]);
      if v >= 0x1_0000_0000_0000_0000 then None
      else if t[0] == 45 then Some((0x1_0000_0000_0000_0000 - v) % 0x1_0000_0000_0000_0000)
      else Some(v)
  }

  function ToU32(s: Text): (r: Option<u32>)
  {
    match StoUl(s)
    case Some(v) => Some(v % 0x1_0000_0000)
    case None => None
  }

  function ReadAll(values: seq<Text>): (r: seq<u32>)
  {
    if |values| == 0 then []
    else ReadAll(values[..|values| - 1]) + (match ToU32(values[|values| - 1]) case Some(v) => [v] case None => [])
  }

  /** parse_u32_list */
  function RidList(s: Text): (r: seq<u32>)
  {
    ReadAll(Values(s, false))
  }

  function Decimals(values: seq<u32>): (r: seq<Text>)
    ensures |r| == |values|
    ensures forall i :: 0 <= i < |r| ==> r[i] == Decimal(values[i])
  {
    seq(|values|, i requires 0 <= i < |values| => Decimal(values[i]))
  }

  /** join_u32_list */
  function RidText(values: seq<u32>): (s: Text)
  {
    Join(Decimals(values), COMMA)
  }

  method ParseU32List(value: Text) returns (result: seq<u32>)
    ensures result == RidList(value)
  {
    hide Trim, NonEmpty, ToU32, SplitText, Trimmed;
    result := [];
    var items := SplitIntoValues(value, false);
    NothingNonEmpty(items);
    for i := 0 to |items|
      invariant result == ReadAll(NonEmpty(Trimmed(items[..i])))
    {
      var trimmed := Trim(items[i]);
      NonEmptyStep(items[..i], items[i]);
      assert items[..i] + [items[i]] == items[..i + 1];
      ReadOneMore(NonEmpty(Trimmed(items[..i])), trimmed);
      if trimmed != [] {
        var v := ToU32(trimmed);
        if v.Some? {
          result := result + [v.value];
        }
      }
    }
    assert items[..|items|] == items;
  }

  lemma ReadOneMore(values: seq<Text>, v: Text)
    ensures ReadAll(values + [v]) == ReadAll(values) + (match ToU32(v) case Some(n) => [n] case None => [])
  {
    hide ToU32;
    assert (values + [v])[..|values|] == values;
  }

  method JoinU32List(values: seq<u32>) returns (joined: Text)
    ensures joined == RidText(values)
  {
    hide Join, Decimal, Decimals;
    joined := [];
    JoinNothing(COMMA);
    assert Decimals(values[..0]) == [];
    for i := 0 to |values|
      invariant joined == RidText(values[..i])
      invariant joined == [] <==> i == 0
    {
      assert Decimals(values[..i + 1]) == Decimals(values[..i]) + [Decimal(values[i])];
      JoinOneMore(Decimals(values[..i]), Decimal(values[i]), COMMA);
      if joined != [] {
        joined := joined + [COMMA];
      }
      joined := joined + Decimal(values[i]);
    }
    assert values[..|values|] == values;
  }

  lemma ToU32OfDecimal(n: u32)
    ensures ToU32(Decimal(n)) == Some(n)
  {
    hide StoUl, Decimal;
    StoUlOfDecimal(n);
  }

  lemma StoUlOfDecimal(n: u64)
    ensures StoUl(Decimal(n)) == Some(n)
  {
    hide Decimal, DigitsValue, DigitRun, SkipSpaces;
    var s := Decimal(n);
    DecimalValue(n);
    DigitRunOfDecimal(n, []);
    assert s + [] == s;
    assert IsDigit(s[0]) && SkipSpaces(s) == s;
    assert DigitRun(s) == |s| && s[..|s|] == s;
  }

  lemma DecimalIsValue(n: nat)
    ensures IsValue(Decimal(n), false)
  {
    hide Decimal, Trim;
    var s := Decimal(n);
    assert IsDigit(s[0]) && IsDigit(s[|s| - 1]);
    assert forall i :: 0 <= i < |s| ==> IsDigit(s[i]);
  }

  lemma {:induction false} ReadDecimals(values: seq<u32>)
    ensures ReadAll(Decimals(values)) == values
  {
    hide ToU32, Decimal;
    if |values| > 0 {
      var n := |values| - 1;
      ReadDecimals(values[..n]);
      assert Decimals(values)[..n] == Decimals(values[..n]);
      ToU32OfDecimal(values[n]);
      assert values == values[..n] + [values[n]];
    }
  }

  /** Every list of identifiers survives being packed into the attribute, order and repetitions included. */
  lemma RidListRoundTrip(values: seq<u32>)
    ensures RidList(RidText(values)) == values
    ensures RidText(values) == [] <==> values == []
  {
    hide IsValue, Decimal, Join, Decimals, Values, ReadAll;
    forall i | 0 <= i < |values| ensures IsValue(Decimals(values)[i], false) {
      DecimalIsValue(values[i]);
    }
    AllNonEmpty(Decimals(values), false);
    ValuesOfJoin(Decimals(values), false);
    ReadDecimals(values);
  }

  // ---------- One member ----------

  function RidsOf(attrs: AttributeList): (r: seq<u32>)
  {
    RidList(Find(attrs, GROUP_RIDS).GetOr([]))
  }

  /** std::remove and erase */
  function Without(rids: seq<u32>, rid: u32): (r: seq<u32>)
  {
    if |rids| == 0 then []
    else (if rids[0] == rid then [] else [rids[0]]) + Without(rids[1..], rid)
  }

  function Toggled(rids: seq<u32>, rid: u32, add: bool): (r: seq<u32>)
  {
    if !add then Without(rids, rid) else if rid in rids then rids else rids + [rid]
  }

  /** apply_group_rid_membership */
  function WithMembership(attrs: AttributeList, rid: u32, add: bool): (r: AttributeList)
  {
    var joined := RidText(Toggled(RidsOf(attrs), rid, add));
    if joined == [] then Removed(attrs, GROUP_RIDS) else Set(attrs, GROUP_RIDS, joined, false)
  }

  method ApplyGroupRidMembership(member: AttributeMap, rid: u32, add: bool)
    modifies member
    ensures member.entries == WithMembership(old(member.entries), rid, add)
  {
    hide Set, Removed, Find, RidText, RidList, Without;
    var text := member.FindAttribute(GROUP_RIDS);
    var rids := ParseU32List(text.GetOr([]));
    if add && rid !in rids {
      rids := rids + [rid];
    } else if !add {
      rids := EraseAll(rids, rid);
    }
    var joined := JoinU32List(rids);
    if joined == [] {
      var _ := member.RemoveAttribute(GROUP_RIDS);
    } else {
      member.SetAttribute(GROUP_RIDS, joined, false);
    }
  }

  method EraseAll(rids: seq<u32>, rid: u32) returns (kept: seq<u32>)
    ensures kept == Without(rids, rid)
  {
    kept := [];
    assert rids[0..] == rids;
    for i := 0 to |rids|
      invariant kept + Without(rids[i..], rid) == Without(rids, rid)
    {
      assert rids[i..][1..] == rids[i + 1..];
      if rids[i] != rid {
        kept := kept + [rids[i]];
      }
    }
  }

  lemma {:induction false} WithoutSpec(rids: seq<u32>, rid: u32)
    ensures rid !in Without(rids, rid)
    ensures forall r :: r != rid ==> (r in Without(rids, rid) <==> r in rids)
    ensures rid !in rids ==> Without(rids, rid) == rids
  {
    if |rids| > 0 {
      WithoutSpec(rids[1..], rid);
      assert rids == [rids[0]] + rids[1..];
    }
  }

  lemma {:induction false} WithoutConcat(a: seq<u32>, b: seq<u32>, rid: u32)
    ensures Without(a + b, rid) == Without(a, rid) + Without(b, rid)
  {
    if |a| == 0 {
      assert a + b == b;
    } else {
      WithoutConcat(a[1..], b, rid);
      assert (a + b)[1..] == a[1..] + b;
      var first := if a[0] == rid then [] else [a[0]];
      assert first + (Without(a[1..], rid) + Without(b, rid)) == (first + Without(a[1..], rid)) + Without(b, rid);
    }
  }

  /** The identifier is there afterwards exactly when it was added; the others keep their values and their order. */
  lemma ToggledSpec(rids: seq<u32>, rid: u32, add: bool)
    ensures rid in Toggled(rids, rid, add) <==> add
    ensures Without(Toggled(rids, rid, add), rid) == Without(rids, rid)
  {
    WithoutSpec(rids, rid);
    WithoutSpec(Without(rids, rid), rid);
    WithoutConcat(rids, [rid], rid);
    if add && rid !in rids {
      assert (rids + [rid])[|rids|] == rid;
    }
  }

  /** What one membership change does to the member's attributes. */
  lemma {:induction false} MembershipChange(attrs: AttributeList, rid: u32, add: bool)
    requires CaseUnique(attrs)
    ensures CaseUnique(WithMembership(attrs, rid, add))
    ensures rid in RidsOf(WithMembership(attrs, rid, add)) <==> add
    ensures Without(RidsOf(WithMembership(attrs, rid, add)), rid) == Without(RidsOf(attrs), rid)
    ensures forall r :: r != rid ==> (r in RidsOf(WithMembership(attrs, rid, add)) <==> r in RidsOf(attrs))
    ensures forall name :: !SameKey(GROUP_RIDS, name)
              ==> Find(WithMembership(attrs, rid, add), name) == Find(attrs, name)
  {
    hide Set, Removed, Find, RidText, RidList, Without, Toggled, SameKey, CaseUnique;
    var rids := Toggled(RidsOf(attrs), rid, add);
    var r := WithMembership(attrs, rid, add);
    RidListRoundTrip(rids);
    RidListRoundTrip([]);
    ToggledSpec(RidsOf(attrs), rid, add);
    WithoutSpec(RidsOf(attrs), rid);
    WithoutSpec(rids, rid);
    SetKeepsInvariant(attrs, GROUP_RIDS, RidText(rids), false);
    RemovedKeepsInvariant(attrs, GROUP_RIDS);
    SameKeyReflexive(GROUP_RIDS);
    RemovedFinds(attrs, GROUP_RIDS, GROUP_RIDS);
    SetFinds(attrs, GROUP_RIDS, RidText(rids), GROUP_RIDS);
    assert RidsOf(r) == rids;
    forall name | !SameKey(GROUP_RIDS, name) ensures Find(r, name) == Find(attrs, name) {
      RemovedFinds(attrs, GROUP_RIDS, name);
      SetFinds(attrs, GROUP_RIDS, RidText(rids), name);
    }
  }
}
