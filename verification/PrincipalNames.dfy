/** When two principal names mean the same account (libs/protocol/src/kerberos.cpp). */
module PrincipalNames {
  import opened Octets
  import opened Texts

  const AT: byte := 64
  const KRBTGT: Text := [107, 114, 98, 116, 103, 116]

  function LowerTrimmed(name: Text): (r: Text)
    ensures |r| <= |name|
  {
    Lower(TrimDot(name))
  }

  function KrbtgtOf(r: Text): (name: Text) {
    KRBTGT + [47] + r
  }

  /** What is left of a lower-case name: without its "@realm", and krbtgt/realm as krbtgt. */
  function Stripped(name: Text, r: Text): (key: Text)
    ensures |key| <= |name|
  {
    var short := if r != [] && EndsWith(name, [AT] + r) then TrimDot(name[..|name| - |[AT] + r|]) else name;
    if r != [] && short == KrbtgtOf(r) then KRBTGT else short
  }

  /** normalized_principal_lookup_key */
  function Key(name: Text, realm: Text): (key: Text)
    ensures |key| <= |name|
  {
    Stripped(LowerTrimmed(name), LowerTrimmed(realm))
  }

  /** principal_lookup_keys: no empty key, no key twice. */
  function LookupKeys(name: Text, realm: Text): (keys: seq<Text>)
  {
    var a, b := Key(name, realm), LowerTrimmed(name);
    (if a == [] then [] else [a]) + (if b == [] || b == a then [] else [b])
  }

  /** principal_name_matches */
  predicate Matches(left: Text, right: Text, realm: Text) {
    exists k :: k in LookupKeys(left, realm) && k in LookupKeys(right, realm)
  }

  lemma KeyIn(name: Text, realm: Text, k: Text)
    ensures k in LookupKeys(name, realm) <==> k != [] && (k == Key(name, realm) || k == LowerTrimmed(name))
  {
    hide Key, LowerTrimmed;
  }

  predicate Common(a: Text, b: Text, c: Text, d: Text) {
    (a != [] && (a == c || a == d)) || (b != [] && (b == c || b == d))
  }

  /** Matching spelled out. */
  lemma {:induction false} MatchesCases(left: Text, right: Text, realm: Text)
    ensures Matches(left, right, realm) <==>
              Common(Key(left, realm), LowerTrimmed(left), Key(right, realm), LowerTrimmed(right))
  {
    hide Key, LowerTrimmed, LookupKeys;
    var a, b := Key(left, realm), LowerTrimmed(left);
    KeyIn(left, realm, a);
    KeyIn(right, realm, a);
    KeyIn(left, realm, b);
    KeyIn(right, realm, b);
    if k :| k in LookupKeys(left, realm) && k in LookupKeys(right, realm) {
      KeyIn(left, realm, k);
      KeyIn(right, realm, k);
    }
  }

  /** Normalising the key once more changes nothing. */
  predicate Stable(name: Text, realm: Text) {
    Key(Key(name, realm), realm) == Key(name, realm)
  }

  lemma KeyIsLower(name: Text, realm: Text)
    ensures Lower(Key(name, realm)) == Key(name, realm)
  {
    var low := LowerTrimmed(name);
    LowerIdempotent(TrimDot(name));
    assert Lower(KRBTGT) == KRBTGT;
    assert forall i :: 0 <= i < |low| ==> LowerByte(low[i]) == low[i];
  }

  lemma StrippedIsShorter(name: Text, r: Text)
    requires r != [] && EndsWith(name, [AT] + r)
    ensures |Stripped(name, r)| < |name|
  {
    assert |[AT] + r| > 0;
    var short := TrimDot(name[..|name| - |[AT] + r|]);
    assert |short| < |name|;
    if short == KrbtgtOf(r) {
      assert |KRBTGT| < |short|;
    }
  }

  /** A key is stable exactly when it has no trailing dot and does not end in "@realm". */
  lemma {:induction false} StableExactlyWhen(name: Text, realm: Text)
    ensures var key, r := Key(name, realm), LowerTrimmed(realm);
            Stable(name, realm) <==> (key == [] || key[|key| - 1] != DOT) && !(r != [] && EndsWith(key, [AT] + r))
  {
    var key, r := Key(name, realm), LowerTrimmed(realm);
    KeyIsLower(name, realm);
    if key != [] && key[|key| - 1] == DOT {
      assert |Key(key, realm)| <= |LowerTrimmed(key)| < |key|;
    } else {
      assert LowerTrimmed(key) == key;
      if r != [] && EndsWith(key, [AT] + r) {
        StrippedIsShorter(key, r);
      } else {
        NeverKrbtgtOf(name, realm);
      }
    }
  }

  lemma NeverKrbtgtOf(name: Text, realm: Text)
    ensures LowerTrimmed(realm) != [] ==> Key(name, realm) != KrbtgtOf(LowerTrimmed(realm))
  {
    assert |KrbtgtOf(LowerTrimmed(realm))| > |KRBTGT|;
  }

  /** The key of a stable key's own name, undotted, is that key. */
  lemma StableKey(name: Text, other: Text, realm: Text)
    requires Stable(name, realm) && LowerTrimmed(other) == Key(name, realm)
    ensures Key(other, realm) == Key(name, realm)
  {
    hide Stripped;
    StableExactlyWhen(name, realm);
    KeyIsLower(name, realm);
    assert LowerTrimmed(Key(name, realm)) == Key(name, realm);
  }

  /** On stable names matching is equality of keys; only names with an empty key need the same spelling. */
  lemma MatchesExactlyWhen(left: Text, right: Text, realm: Text)
    requires Stable(left, realm) && Stable(right, realm)
    ensures Matches(left, right, realm) <==>
              && Key(left, realm) == Key(right, realm)
              && (Key(left, realm) != [] || (LowerTrimmed(left) == LowerTrimmed(right) && LowerTrimmed(left) != []))
  {
    hide Matches, Stripped, LowerTrimmed, Stable;
    MatchesCases(left, right, realm);
    if Key(left, realm) == LowerTrimmed(right) {
      StableKey(left, right, realm);
    }
    if Key(right, realm) == LowerTrimmed(left) {
      StableKey(right, left, realm);
    }
  }

  /** So it is an equivalence there. */
  lemma {:induction false} MatchesIsEquivalence(a: Text, b: Text, c: Text, realm: Text)
    requires Stable(a, realm) && Stable(b, realm) && Stable(c, realm)
    ensures Matches(a, a, realm) <==> LowerTrimmed(a) != []
    ensures Matches(a, b, realm) <==> Matches(b, a, realm)
    ensures Matches(a, b, realm) && Matches(b, c, realm) ==> Matches(a, c, realm)
  {
    hide Matches, Stable, LowerTrimmed, Stripped;
    MatchesExactlyWhen(a, a, realm);
    MatchesExactlyWhen(a, b, realm);
    MatchesExactlyWhen(b, a, realm);
    MatchesExactlyWhen(b, c, realm);
    MatchesExactlyWhen(a, c, realm);
    StrippedOfNothing(LowerTrimmed(realm));
  }

  lemma StrippedOfNothing(r: Text)
    ensures Stripped([], r) == []
  {
  }

  /** A name in its own realm, written with the realm behind it, that has another key as well. */
  predicate HasTwoKeys(b: Text, realm: Text) {
    var r := LowerTrimmed(realm);
    r != [] && EndsWith(LowerTrimmed(b), [AT] + r) && Key(b, realm) != []
  }

  /** Without any restriction, matching is transitive through a name exactly unless that name has two keys. */
  lemma {:induction false} TransitiveExactlyThrough(b: Text, realm: Text)
    ensures (forall a, c :: Matches(a, b, realm) && Matches(b, c, realm) ==> Matches(a, c, realm))
              <==> !HasTwoKeys(b, realm)
  {
    hide Matches, HasTwoKeys;
    if HasTwoKeys(b, realm) {
      var a, c := LowerTrimmed(b) + [DOT, AT] + LowerTrimmed(realm) + [DOT], Key(b, realm) + [DOT];
      Outsiders(b, realm, a, c);
      assert Matches(a, b, realm) && Matches(b, c, realm) && !Matches(a, c, realm);
    } else {
      forall a, c | Matches(a, b, realm) && Matches(b, c, realm) ensures Matches(a, c, realm) {
        OneKey(a, b, realm);
        OneKey(c, b, realm);
        MatchesCases(a, b, realm);
        MatchesCases(b, c, realm);
        MatchesCases(c, b, realm);
        MatchesCases(a, c, realm);
      }
    }
  }

  /** The key by which everything that matches such a name is found. */
  function OnlyKey(b: Text, realm: Text): (k: Text) {
    if Key(b, realm) == [] then LowerTrimmed(b) else Key(b, realm)
  }

  lemma OneKey(a: Text, b: Text, realm: Text)
    requires !HasTwoKeys(b, realm)
    ensures Common(Key(a, realm), LowerTrimmed(a), Key(b, realm), LowerTrimmed(b))
       <==> OnlyKey(b, realm) != [] && (Key(a, realm) == OnlyKey(b, realm) || LowerTrimmed(a) == OnlyKey(b, realm))
  {
    hide LowerTrimmed, EndsWith;
    NeverKrbtgtOf(a, realm);
  }

  /** Two names that match a name with two keys, one by each of them. */
  lemma {:induction false} Outsiders(b: Text, realm: Text, a: Text, c: Text)
    requires HasTwoKeys(b, realm)
    requires a == LowerTrimmed(b) + [DOT, AT] + LowerTrimmed(realm) + [DOT] && c == Key(b, realm) + [DOT]
    ensures Matches(a, b, realm) && Matches(b, c, realm) && !Matches(a, c, realm)
  {
    hide Matches, Stripped, LowerTrimmed;
    var low, r, key := LowerTrimmed(b), LowerTrimmed(realm), Key(b, realm);
    StrippedIsShorter(low, r);
    KeyIsLower(b, realm);
    DottedAway(key);
    LowerTrimmedIsLower(b);
    LowerTrimmedIsLower(realm);
    LowerConcat3(low, r);
    DottedAway(low + [DOT, AT] + r);
    StrippedTwice(low, r);
    MatchesCases(a, b, realm);
    MatchesCases(b, c, realm);
    MatchesCases(a, c, realm);
  }

  lemma DottedAway(key: Text)
    requires Lower(key) == key
    ensures LowerTrimmed(key + [DOT]) == key
  {
    assert (key + [DOT])[..|key|] == key;
  }

  lemma LowerTrimmedIsLower(name: Text)
    ensures Lower(LowerTrimmed(name)) == LowerTrimmed(name)
  {
    LowerIdempotent(TrimDot(name));
  }

  lemma LowerConcat3(low: Text, r: Text)
    requires Lower(low) == low && Lower(r) == r
    ensures Lower(low + [DOT, AT] + r) == low + [DOT, AT] + r
  {
    var s := low + [DOT, AT] + r;
    forall i | 0 <= i < |s| ensures LowerByte(s[i]) == s[i] {
      if i < |low| {
        assert s[i] == low[i] == Lower(low)[i];
      } else if i >= |low| + 2 {
        assert s[i] == r[i - |low| - 2] == Lower(r)[i - |low| - 2];
      }
    }
  }

  /** The second dot is what the stripping takes away. */
  lemma StrippedTwice(low: Text, r: Text)
    requires r != [] && EndsWith(low, [AT] + r)
    ensures Stripped(low + [DOT, AT] + r, r) == low
  {
    var s := low + [DOT, AT] + r;
    assert s == (low + [DOT]) + ([AT] + r);
    assert s[..|low| + 1] == low + [DOT] && (low + [DOT])[..|low|] == low;
    assert s[|low| + 1..] == [AT] + r;
    assert low[|low| - |r| - 1] == AT;
    assert low != KrbtgtOf(r) by {
      assert |KRBTGT| == 6 && KrbtgtOf(r)[6] == 47;
    }
  }

  /** Such names exist: x@r@r matches x@r, which matches x, which the first does not match. */
  lemma {:induction false} MatchingIsNotTransitive()
    ensures var r, x: Text := [114], [120];
            var a, b := x + [AT] + r + [AT] + r, x + [AT] + r;
            Matches(a, b, r) && Matches(b, x, r) && !Matches(a, x, r) && !Stable(a, r) && Stable(b, r) && Stable(x, r)
  {
    var r, x: Text := [114], [120];
    var a, b := x + [AT] + r + [AT] + r, x + [AT] + r;
    hide Matches, EndsWith;
    assert a == [120, 64, 114, 64, 114] && b == [120, 64, 114];
    LiteralKeys(r, x, a, b);
    MatchesCases(a, b, r);
    MatchesCases(b, x, r);
    MatchesCases(a, x, r);
    assert b != [];
    assert x != [];
  }

  lemma LiteralKeys(r: Text, x: Text, a: Text, b: Text)
    requires r == [114] && x == [120] && a == [120, 64, 114, 64, 114] && b == [120, 64, 114]
    ensures LowerTrimmed(r) == r && LowerTrimmed(x) == x && LowerTrimmed(a) == a && LowerTrimmed(b) == b
    ensures Key(a, r) == b && Key(b, r) == x && Key(x, r) == x
  {
    assert a[3..] == [AT] + r && a[..3] == b;
    assert b[1..] == [AT] + r && b[..1] == x;
    assert |KrbtgtOf(r)| == 8;
  }

  // ---------- Lookups ----------

  /** The position of the first name in a list that matches, or the length of the list. */
  function FirstMatch(names: seq<Text>, name: Text, realm: Text): (i: nat)
    ensures i <= |names|
  {
    if |names| == 0 || Matches(name, names[0], realm) then 0 else 1 + FirstMatch(names[1..], name, realm)
  }

  lemma {:induction false} FirstMatchSpec(names: seq<Text>, name: Text, realm: Text)
    ensures var i := FirstMatch(names, name, realm);
            && (i < |names| ==> Matches(name, names[i], realm))
            && forall j :: 0 <= j < i ==> !Matches(name, names[j], realm)
  {
    hide Matches;
    if |names| > 0 && !Matches(name, names[0], realm) {
      FirstMatchSpec(names[1..], name, realm);
      assert forall j :: 0 < j < |names| ==> names[j] == names[1..][j - 1];
    }
  }

  lemma {:induction false} SameFirstMatch(names: seq<Text>, a: Text, b: Text, realm: Text)
    requires forall i :: 0 <= i < |names| ==> (Matches(a, names[i], realm) <==> Matches(b, names[i], realm))
    ensures FirstMatch(names, a, realm) == FirstMatch(names, b, realm)
  {
    hide Matches;
    if |names| > 0 {
      assert forall i :: 0 <= i < |names| - 1 ==> names[1..][i] == names[i + 1];
      SameFirstMatch(names[1..], a, b, realm);
    }
  }

  /** Any two stable names with the same, non-empty key find the same entry. */
  lemma {:induction false} AliasesFindTheSame(names: seq<Text>, a: Text, b: Text, realm: Text)
    requires Stable(a, realm) && Stable(b, realm) && forall i :: 0 <= i < |names| ==> Stable(names[i], realm)
    requires Key(a, realm) == Key(b, realm) && Key(a, realm) != []
    ensures FirstMatch(names, a, realm) == FirstMatch(names, b, realm)
  {
    hide Matches, Stable, Key;
    forall i | 0 <= i < |names| ensures Matches(a, names[i], realm) <==> Matches(b, names[i], realm) {
      MatchesExactlyWhen(a, names[i], realm);
      MatchesExactlyWhen(b, names[i], realm);
    }
    SameFirstMatch(names, a, b, realm);
  }

  /** The entry that a name finds is also what the entry's own name finds. */
  lemma {:induction false} FoundNameFindsItself(names: seq<Text>, name: Text, realm: Text)
    requires Stable(name, realm) && forall i :: 0 <= i < |names| ==> Stable(names[i], realm)
    requires Key(name, realm) != [] && FirstMatch(names, name, realm) < |names|
    ensures var i := FirstMatch(names, name, realm);
            FirstMatch(names, names[i], realm) == i && Key(names[i], realm) == Key(name, realm)
  {
    hide Matches, Stable, Key;
    var i := FirstMatch(names, name, realm);
    FirstMatchSpec(names, name, realm);
    MatchesExactlyWhen(name, names[i], realm);
    AliasesFindTheSame(names, name, names[i], realm);
  }

  /** The case of the realm and one trailing dot do not matter to any key. */
  lemma {:induction false} RealmSpelling(name: Text, right: Text, realm: Text, other: Text)
    requires Lower(realm) == Lower(other)
    ensures Key(name, realm) == Key(name, other)
    ensures Matches(name, right, realm) <==> Matches(name, right, other)
    ensures Stable(name, realm) <==> Stable(name, other)
  {
    LowerTrimmedAgree(realm, other);
    hide Stripped, LowerTrimmed, Matches;
    MatchesCases(name, right, realm);
    MatchesCases(name, right, other);
  }

  lemma LowerTrimmedAgree(a: Text, b: Text)
    requires Lower(a) == Lower(b)
    ensures LowerTrimmed(a) == LowerTrimmed(b)
  {
    assert |Lower(a)| == |a| && |Lower(b)| == |b|;
    if |a| > 0 {
      assert Lower(a)[|a| - 1] == Lower(b)[|a| - 1];
      assert Lower(a[..|a| - 1]) == Lower(a)[..|a| - 1];
      assert Lower(b[..|a| - 1]) == Lower(b)[..|a| - 1];
    }
  }
}
