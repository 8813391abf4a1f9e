/** Multi-valued attributes packed into one string: splitting, joining and the list operations of an LDAP modify
    (apps/directory/main.cpp). */
module ValueLists {
  import opened Octets
  import opened Texts

  const SPACE: byte := 32
  const COMMA: byte := 44
  const SEMICOLON: byte := 59

  /** trim_copy: spaces at both ends. */
  function Trim(s: Text): (r: Text)
    ensures |r| <= |s|
    ensures |r| > 0 ==> r[0] != SPACE && r[|r| - 1] != SPACE
    ensures |s| > 0 && s[0] != SPACE && s[|s| - 1] != SPACE ==> r == s
    ensures forall b :: b in r ==> b in s
    decreases |s|
  {
    if |s| == 0 then []
    else if s[0] == SPACE then Trim(s[1..])
    else if s[|s| - 1] == SPACE then Trim(s[..|s| - 1])
    else s
  }

  /** ';' and line ends always separate; ',' only outside distinguished names. */
  predicate IsSeparator(b: byte, names: bool) {
    b == SEMICOLON || b == 10 || b == 13 || b == 9 || (!names && b == COMMA)
  }

  function Separator(names: bool): (b: byte)
    ensures IsSeparator(b, names)
  {
    if names then SEMICOLON else COMMA
  }

  /** All stretches between separators. */
  function Pieces(s: Text, current: Text, names: bool): (r: seq<Text>)
    decreases |s|
  {
    if |s| == 0 then [current]
    else if IsSeparator(s[0], names) then [current] + Pieces(s[1..], [], names)
    else Pieces(s[1..], current + [s[0]], names)
  }

  function Trimmed(values: seq<Text>): (r: seq<Text>)
    ensures |r| == |values|
    ensures forall i :: 0 <= i < |r| ==> r[i] == Trim(values[i])
  {
    seq(|values|, i requires 0 <= i < |values| => Trim(values[i]))
  }

  /** split_multi_value_attribute keeps spaces; split_ldap_member_dns trims. */
  function SplitText(s: Text, names: bool): (r: seq<Text>)
  {
    if names then NonEmpty(Trimmed(Pieces(s, [], names))) else NonEmpty(Pieces(s, [], names))
  }

  /** The list of values a packed attribute stands for. */
  function Values(s: Text, names: bool): (r: seq<Text>)
  {
    NonEmpty(Trimmed(SplitText(s, names)))
  }

  /** join_multi_value_attribute, and its ';' variant for member names. */
  function JoinText(values: seq<Text>, names: bool): (s: Text)
  {
    Join(NonEmpty(Trimmed(values)), Separator(names))
  }

  // ---------- The loops ----------

  method SplitIntoValues(value: Text, names: bool) returns (result: seq<Text>)
    ensures result == SplitText(value, names)
  {
    hide Trim, IsSeparator, Pieces;
    result := [];
    var current: Text := [];
    assert value[0..] == value;
    assert names ==> [] + NonEmpty(Trimmed(Pieces(value, [], names))) == SplitText(value, names);
    for i := 0 to |value|
      invariant names ==> result + NonEmpty(Trimmed(Pieces(value[i..], current, names))) == SplitText(value, names)
      invariant !names ==> result + NonEmpty(Pieces(value[i..], current, names)) == SplitText(value, names)
    {
      OnePiece(value[i..], current, names, result);
      assert value[i..][1..] == value[i + 1..];
      if IsSeparator(value[i], names) {
        var piece := if names then Trim(current) else current;
        if piece != [] {
          result := result + [piece];
        }
        current := [];
      } else {
        current := current + [value[i]];
      }
    }
    LastPiece(value[|value|..], current, names, result);
    var piece := if names then Trim(current) else current;
    if piece != [] {
      result := result + [piece];
    }
  }

  lemma OnePiece(s: Text, current: Text, names: bool, result: seq<Text>)
    requires |s| > 0
    ensures !IsSeparator(s[0], names) ==> Pieces(s, current, names) == Pieces(s[1..], current + [s[0]], names)
    ensures IsSeparator(s[0], names) ==>
              && result + NonEmpty(Pieces(s, current, names))
                 == (if current == [] then result else result + [current]) + NonEmpty(Pieces(s[1..], [], names))
              && result + NonEmpty(Trimmed(Pieces(s, current, names)))
                 == (if Trim(current) == [] then result else result + [Trim(current)])
                    + NonEmpty(Trimmed(Pieces(s[1..], [], names)))
  {
    hide Trim, IsSeparator, NonEmpty, Trimmed;
    if IsSeparator(s[0], names) {
      var rest := Pieces(s[1..], [], names);
      NonEmptyFirst(current, rest, result);
      TrimmedFirst(current, rest);
      NonEmptyFirst(Trim(current), Trimmed(rest), result);
    }
  }

  lemma TrimmedFirst(v: Text, rest: seq<Text>)
    ensures Trimmed([v] + rest) == [Trim(v)] + Trimmed(rest)
  {
    hide Trim;
  }

  lemma LastPiece(s: Text, current: Text, names: bool, result: seq<Text>)
    requires |s| == 0
    ensures result + NonEmpty(Pieces(s, current, names)) == if current == [] then result else result + [current]
    ensures result + NonEmpty(Trimmed(Pieces(s, current, names)))
         == if Trim(current) == [] then result else result + [Trim(current)]
  {
    hide Trim;
    assert [current][1..] == [];
    assert Trimmed([current]) == [Trim(current)];
    assert [Trim(current)][1..] == [];
  }

  lemma NothingNonEmpty(values: seq<Text>)
    ensures NonEmpty(Trimmed(values[..0])) == []
  {
  }

  method JoinValues(values: seq<Text>, names: bool) returns (joined: Text)
    ensures joined == JoinText(values, names)
  {
    hide Trim, Join, NonEmpty, Trimmed, Separator;
    joined := [];
    ghost var done: seq<Text> := [];
    JoinNothing(Separator(names));
    NothingNonEmpty(values);
    for i := 0 to |values|
      invariant done == NonEmpty(Trimmed(values[..i])) && joined == Join(done, Separator(names))
      invariant joined == [] ==> done == []
    {
      var trimmed := Trim(values[i]);
      NonEmptyStep(values[..i], values[i]);
      assert values[..i] + [values[i]] == values[..i + 1];
      if trimmed != [] {
        JoinOneMore(done, trimmed, Separator(names));
        if joined != [] {
          joined := joined + [Separator(names)];
        }
        joined := joined + trimmed;
        done := done + [trimmed];
      }
    }
    assert values[..|values|] == values;
  }

  lemma JoinNothing(sep: byte)
    ensures Join([], sep) == []
  {
  }

  lemma JoinOneMore(done: seq<Text>, last: Text, sep: byte)
    ensures Join(done + [last], sep) == if done == [] then last else Join(done, sep) + [sep] + last
  {
    if done != [] {
      JoinConcat(done, [last], sep);
    } else {
      assert done + [last] == [last];
    }
  }

  lemma {:induction false} NonEmptyStep(values: seq<Text>, v: Text)
    ensures NonEmpty(Trimmed(values + [v]))
         == if Trim(v) == [] then NonEmpty(Trimmed(values)) else NonEmpty(Trimmed(values)) + [Trim(v)]
  {
    hide Trim;
    assert Trimmed(values + [v]) == Trimmed(values) + [Trim(v)];
    NonEmptyConcat(Trimmed(values), [Trim(v)]);
    assert [Trim(v)][1..] == [];
  }

  // ---------- Packing and unpacking ----------

  /** A value that survives packing: not empty, no spaces at its ends, no separator inside. */
  predicate IsValue(v: Text, names: bool) {
    v != [] && Trim(v) == v && forall i :: 0 <= i < |v| ==> !IsSeparator(v[i], names)
  }

  predicate AllValues(values: seq<Text>, names: bool) {
    forall i :: 0 <= i < |values| ==> IsValue(values[i], names)
  }

  lemma {:induction false} PiecesOfClean(v: Text, rest: Text, current: Text, names: bool)
    requires forall i :: 0 <= i < |v| ==> !IsSeparator(v[i], names)
    ensures Pieces(v + rest, current, names) == Pieces(rest, current + v, names)
    decreases |v|
  {
    hide IsSeparator;
    if |v| == 0 {
      assert v + rest == rest && current + v == current;
    } else {
      assert (v + rest)[1..] == v[1..] + rest;
      PiecesOfClean(v[1..], rest, current + [v[0]], names);
      assert current + [v[0]] + v[1..] == current + v;
    }
  }

  /** Splitting a joined list gives the pieces back. */
  lemma {:induction false} PiecesOfJoin(values: seq<Text>, names: bool)
    requires |values| > 0 && AllValues(values, names)
    ensures Pieces(Join(values, Separator(names)), [], names) == values
    decreases |values|
  {
    hide Trim, IsSeparator;
    var v := values[0];
    assert IsValue(v, names);
    if |values| == 1 {
      PiecesOfClean(v, [], [], names);
      assert v + [] == v && [] + v == v;
    } else {
      var rest := Join(values[1..], Separator(names));
      PiecesOfClean(v, [Separator(names)] + rest, [], names);
      assert v + ([Separator(names)] + rest) == Join(values, Separator(names));
      assert ([Separator(names)] + rest)[1..] == rest && [] + v == v;
      PiecesOfJoin(values[1..], names);
    }
  }

  lemma {:induction false} AllNonEmpty(values: seq<Text>, names: bool)
    requires AllValues(values, names)
    ensures NonEmpty(values) == values && Trimmed(values) == values
  {
    hide Trim, IsSeparator, Trimmed;
    if |values| > 0 {
      var v, rest := values[0], values[1..];
      AllNonEmpty(rest, names);
      assert IsValue(v, names);
      assert values == [v] + rest;
      TrimmedFirst(v, rest);
    } else {
      assert Trimmed(values) == values;
    }
  }

  /** Unpacking what was packed gives the values back. */
  lemma ValuesOfJoin(values: seq<Text>, names: bool)
    requires AllValues(values, names)
    ensures JoinText(values, names) == [] <==> values == []
    ensures Values(JoinText(values, names), names) == values
  {
    hide Trim, IsSeparator, Pieces, Join;
    AllNonEmpty(values, names);
    if values == [] {
      JoinNothing(Separator(names));
      NothingPacked(names);
    } else {
      PiecesOfJoin(values, names);
      assert IsValue(values[0], names);
      JoinNotEmpty(values, Separator(names));
    }
  }

  lemma NothingPacked(names: bool)
    ensures Values([], names) == []
  {
    LastPiece([], [], names, []);
  }

  lemma JoinNotEmpty(values: seq<Text>, sep: byte)
    requires |values| > 0 && values[0] != []
    ensures Join(values, sep) != []
  {
  }

  lemma {:induction false} PiecesHaveNoSeparator(s: Text, current: Text, names: bool)
    requires forall i :: 0 <= i < |current| ==> !IsSeparator(current[i], names)
    ensures forall p, b :: p in Pieces(s, current, names) && b in p ==> !IsSeparator(b, names)
    decreases |s|
  {
    hide IsSeparator;
    if |s| > 0 {
      if IsSeparator(s[0], names) {
        PiecesHaveNoSeparator(s[1..], [], names);
      } else {
        PiecesHaveNoSeparator(s[1..], current + [s[0]], names);
      }
    }
  }

  lemma TrimTwice(v: Text)
    ensures Trim(Trim(v)) == Trim(v)
  {
  }

  /** Whatever text an attribute holds, the values read from it can be packed again. */
  lemma ValuesAreValues(s: Text, names: bool)
    ensures AllValues(Values(s, names), names)
  {
    hide Trim, IsSeparator, Pieces, NonEmpty;
    PiecesHaveNoSeparator(s, [], names);
    var pieces := Pieces(s, [], names);
    forall i | 0 <= i < |Values(s, names)| ensures IsValue(Values(s, names)[i], names) {
      var v := Values(s, names)[i];
      var split := SplitText(s, names);
      NonEmptyMember(Trimmed(split), v);
      var j :| 0 <= j < |split| && Trim(split[j]) == v;
      TrimTwice(split[j]);
      assert split[j] in split;
      PieceOf(pieces, names, split[j]);
      forall k | 0 <= k < |v| ensures !IsSeparator(v[k], names) {
        assert v[k] in v && v[k] in split[j];
      }
    }
  }

  lemma PieceOf(pieces: seq<Text>, names: bool, x: Text)
    requires forall p, b :: p in pieces && b in p ==> !IsSeparator(b, names)
    requires x in (if names then NonEmpty(Trimmed(pieces)) else NonEmpty(pieces))
    ensures forall b :: b in x ==> !IsSeparator(b, names)
  {
    hide Trim, IsSeparator, NonEmpty;
    NonEmptyMember(Trimmed(pieces), x);
    NonEmptyMember(pieces, x);
    if names {
      var j :| 0 <= j < |pieces| && Trim(pieces[j]) == x;
      assert pieces[j] in pieces;
    }
  }

  // ---------- List operations ----------

  predicate Contains(values: seq<Text>, v: Text) {
    exists i :: 0 <= i < |values| && Lower(values[i]) == Lower(v)
  }

  function AddMissing(values: seq<Text>, more: seq<Text>): (r: seq<Text>)
    decreases |more|
  {
    if |more| == 0 then values
    else AddMissing(if Contains(values, more[0]) then values else values + [more[0]], more[1..])
  }

  function RemoveAll(values: seq<Text>, gone: seq<Text>): (r: seq<Text>)
  {
    if |values| == 0 then []
    else (if Contains(gone, values[0]) then [] else [values[0]]) + RemoveAll(values[1..], gone)
  }

  lemma {:induction false} AddMissingAll(values: seq<Text>, more: seq<Text>, names: bool)
    requires AllValues(values, names) && AllValues(more, names)
    ensures AllValues(AddMissing(values, more), names)
    decreases |more|
  {
    hide IsValue, Contains;
    if |more| > 0 {
      AddMissingAll(if Contains(values, more[0]) then values else values + [more[0]], more[1..], names);
    }
  }

  lemma {:induction false} RemoveAllAll(values: seq<Text>, gone: seq<Text>, names: bool)
    requires AllValues(values, names)
    ensures AllValues(RemoveAll(values, gone), names)
  {
    hide IsValue, Contains;
    if |values| > 0 {
      RemoveAllAll(values[1..], gone, names);
    }
  }

  /** Adding keeps the old values in front and everything added is contained. */
  lemma {:induction false} AddMissingContains(values: seq<Text>, more: seq<Text>)
    ensures values <= AddMissing(values, more)
    ensures forall i :: 0 <= i < |more| ==> Contains(AddMissing(values, more), more[i])
    ensures forall v :: v in AddMissing(values, more)[|values|..] ==> v in more
    decreases |more|
  {
    hide Lower;
    if |more| > 0 {
      var next := if Contains(values, more[0]) then values else values + [more[0]];
      AddMissingContains(next, more[1..]);
      var r := AddMissing(values, more);
      assert Contains(next, more[0]) by {
        if next != values {
          assert next[|values|] == more[0];
        }
      }
      ContainsPrefix(next, r, more[0]);
      forall i | 0 <= i < |more| ensures Contains(r, more[i]) {
        if i > 0 {
          assert more[1..][i - 1] == more[i];
        }
      }
      forall v | v in r[|values|..] ensures v in more {
        var i :| |values| <= i < |r| && r[i] == v;
        if i >= |next| {
          assert v in r[|next|..];
        } else {
          assert v == next[i];
        }
      }
    }
  }

  lemma ContainsPrefix(a: seq<Text>, b: seq<Text>, v: Text)
    requires a <= b && Contains(a, v)
    ensures Contains(b, v)
  {
    var i :| 0 <= i < |a| && Lower(a[i]) == Lower(v);
    assert b[i] == a[i];
  }

  lemma {:induction false} AddNothingNew(values: seq<Text>, more: seq<Text>)
    requires forall i :: 0 <= i < |more| ==> Contains(values, more[i])
    ensures AddMissing(values, more) == values
    decreases |more|
  {
    hide Contains;
    if |more| > 0 {
      assert Contains(values, more[0]);
      assert forall i :: 0 <= i < |more| - 1 ==> more[1..][i] == more[i + 1];
      AddNothingNew(values, more[1..]);
    }
  }

  /** Adding the same values again changes nothing. */
  lemma AddIdempotent(values: seq<Text>, more: seq<Text>)
    ensures AddMissing(AddMissing(values, more), more) == AddMissing(values, more)
  {
    AddMissingContains(values, more);
    AddNothingNew(AddMissing(values, more), more);
  }

  lemma RemoveAllStep(values: seq<Text>, gone: seq<Text>)
    ensures RemoveAll(values, gone)
         == if |values| == 0 then []
            else (if Contains(gone, values[0]) then [] else [values[0]]) + RemoveAll(values[1..], gone)
  {
    hide Contains;
  }

  lemma {:induction false} RemoveAllConcat(a: seq<Text>, b: seq<Text>, gone: seq<Text>)
    ensures RemoveAll(a + b, gone) == RemoveAll(a, gone) + RemoveAll(b, gone)
  {
    hide Contains, RemoveAll;
    RemoveAllStep(a, gone);
    if |a| == 0 {
      assert a + b == b;
      assert RemoveAll(a, gone) + RemoveAll(b, gone) == RemoveAll(b, gone);
    } else {
      RemoveAllConcat(a[1..], b, gone);
      RemoveAllStep(a + b, gone);
      assert (a + b)[1..] == a[1..] + b;
      var first := if Contains(gone, a[0]) then [] else [a[0]];
      ConcatAssociates(first, RemoveAll(a[1..], gone), RemoveAll(b, gone));
    }
  }

  lemma {:induction false} RemoveAllMembers(values: seq<Text>, gone: seq<Text>)
    requires forall v :: v in values ==> v in gone
    ensures RemoveAll(values, gone) == []
  {
    if |values| > 0 {
      assert values[0] in gone;
      RemoveAllMembers(values[1..], gone);
    }
  }

  lemma {:induction false} RemoveNothing(values: seq<Text>, gone: seq<Text>)
    ensures RemoveAll(values, gone) == values <==> forall i :: 0 <= i < |values| ==> !Contains(gone, values[i])
    ensures |RemoveAll(values, gone)| <= |values|
  {
    hide Contains;
    if |values| > 0 {
      RemoveNothing(values[1..], gone);
      assert values == [values[0]] + values[1..];
      assert forall i :: 0 < i < |values| ==> values[i] == values[1..][i - 1];
      assert forall i :: 0 <= i < |values| - 1 ==> values[1..][i] == values[i + 1];
    }
  }

  /** Deleting what was just added is deleting it from the earlier list; so the earlier list comes back exactly when it
      contained none of the values. */
  lemma RemoveUndoesAdd(values: seq<Text>, more: seq<Text>)
    ensures RemoveAll(AddMissing(values, more), more) == RemoveAll(values, more)
    ensures RemoveAll(AddMissing(values, more), more) == values
       <==> forall i :: 0 <= i < |values| ==> !Contains(more, values[i])
  {
    hide Contains;
    var r := AddMissing(values, more);
    AddMissingContains(values, more);
    assert r == values + r[|values|..];
    RemoveAllConcat(values, r[|values|..], more);
    RemoveAllMembers(r[|values|..], more);
    RemoveNothing(values, more);
  }
}
