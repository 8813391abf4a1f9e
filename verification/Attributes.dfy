/** The case-insensitive attribute map of a directory object and LDAP modify (apps/directory/main.cpp). */
module Attributes {
  import opened Octets
  import opened Texts
  import opened ValueLists

  const MEMBER: Text := [109, 101, 109, 98, 101, 114]
  const DELETE := 1
  const ADD := 0

  datatype Attribute = Attribute(key: Text, value: Text)

  /** The contents of a std::map<std::string, std::string> in key order. */
  type AttributeList = seq<Attribute>

  /** operator< of std::string. */
  predicate KeyLess(a: Text, b: Text) {
    if |b| == 0 then false
    else if |a| == 0 then true
    else a[0] < b[0] || (a[0] == b[0] && KeyLess(a[1..], b[1..]))
  }

  predicate SameKey(a: Text, b: Text) {
    Lower(a) == Lower(b)
  }

  /** The first entry of that name up to case, or the number of entries. */
  function IndexOfKey(attrs: AttributeList, name: Text): (i: nat)
    ensures i <= |attrs|
    ensures i < |attrs| ==> SameKey(attrs[i].key, name)
    ensures forall j :: 0 <= j < i ==> !SameKey(attrs[j].key, name)
  {
    if |attrs| == 0 || SameKey(attrs[0].key, name) then 0 else 1 + IndexOfKey(attrs[1..], name)
  }

  /** find_ad_attribute */
  function Find(attrs: AttributeList, name: Text): (value: Option<Text>)
  {
    var i := IndexOfKey(attrs, name);
    if i < |attrs| then Some(attrs[i].value) else None
  }

  /** Where operator[] puts a new key. */
  function InsertionPoint(attrs: AttributeList, name: Text): (i: nat)
    ensures i <= |attrs|
    ensures forall j :: 0 <= j < i ==> KeyLess(attrs[j].key, name)
    ensures i < |attrs| ==> !KeyLess(attrs[i].key, name)
  {
    if |attrs| == 0 || !KeyLess(attrs[0].key, name) then 0 else 1 + InsertionPoint(attrs[1..], name)
  }

  function Inserted(attrs: AttributeList, name: Text, value: Text): (r: AttributeList)
    ensures |r| == |attrs| + 1
  {
    var p := InsertionPoint(attrs, name);
    attrs[..p] + [Attribute(name, value)] + attrs[p..]
  }

  /** set_ad_attribute */
  function Set(attrs: AttributeList, name: Text, value: Text, onlyIfMissing: bool): (r: AttributeList)
  {
    var i := IndexOfKey(attrs, name);
    if i == |attrs| then Inserted(attrs, name, value)
    else if !onlyIfMissing || attrs[i].value == [] then attrs[i := attrs[i].(value := value)]
    else attrs
  }

  /** remove_ad_attribute */
  function Removed(attrs: AttributeList, name: Text): (r: AttributeList)
    ensures |r| <= |attrs|
  {
    var i := IndexOfKey(attrs, name);
    if i == |attrs| then attrs else attrs[..i] + attrs[i + 1..]
  }

  // ---------- The invariant of the map ----------

  /** No two keys are equal up to case. */
  ghost predicate CaseUnique(attrs: AttributeList) {
    forall i, j :: 0 <= i < j < |attrs| ==> !SameKey(attrs[i].key, attrs[j].key)
  }

  /** The keys are in strictly ascending order. */
  ghost predicate Sorted(attrs: AttributeList) {
    forall i, j :: 0 <= i < j < |attrs| ==> KeyLess(attrs[i].key, attrs[j].key)
  }

  lemma {:induction false} KeyLessTransitive(a: Text, b: Text, c: Text)
    requires KeyLess(a, b) && KeyLess(b, c)
    ensures KeyLess(a, c)
  {
    if |a| > 0 && a[0] == b[0] == c[0] {
      KeyLessTransitive(a[1..], b[1..], c[1..]);
    }
  }

  lemma {:induction false} KeyLessTotal(a: Text, b: Text)
    ensures KeyLess(a, b) || KeyLess(b, a) || a == b
    ensures !(KeyLess(a, b) && KeyLess(b, a))
  {
    if |a| > 0 && |b| > 0 && a[0] == b[0] {
      KeyLessTotal(a[1..], b[1..]);
      assert a == [a[0]] + a[1..] && b == [b[0]] + b[1..];
    }
  }

  lemma InsertedSorted(attrs: AttributeList, name: Text, value: Text)
    requires Sorted(attrs) && forall i :: 0 <= i < |attrs| ==> attrs[i].key != name
    ensures Sorted(Inserted(attrs, name, value))
  {
    hide KeyLess;
    var p := InsertionPoint(attrs, name);
    var r := Inserted(attrs, name, value);
    forall j | p <= j < |attrs| ensures KeyLess(name, attrs[j].key) {
      KeyLessTotal(name, attrs[p].key);
      if j > p {
        KeyLessTransitive(name, attrs[p].key, attrs[j].key);
      }
    }
    forall i, j | 0 <= i < j < |r| ensures KeyLess(r[i].key, r[j].key) {
      assert i < p ==> r[i] == attrs[i];
      assert i > p ==> r[i] == attrs[i - 1];
      assert j < p ==> r[j] == attrs[j];
      assert j > p ==> r[j] == attrs[j - 1];
    }
  }

  /** Setting keeps the map a map. */
  lemma {:induction false} SetKeepsInvariant(attrs: AttributeList, name: Text, value: Text, onlyIfMissing: bool)
    ensures CaseUnique(attrs) ==> CaseUnique(Set(attrs, name, value, onlyIfMissing))
    ensures Sorted(attrs) ==> Sorted(Set(attrs, name, value, onlyIfMissing))
  {
    hide KeyLess, SameKey;
    var i := IndexOfKey(attrs, name);
    var r := Set(attrs, name, value, onlyIfMissing);
    if i == |attrs| {
      if Sorted(attrs) {
        SameKeyReflexive(name);
        InsertedSorted(attrs, name, value);
      }
      if CaseUnique(attrs) {
        var p := InsertionPoint(attrs, name);
        forall a, b | 0 <= a < b < |r| ensures !SameKey(r[a].key, r[b].key) {
          SameKeySymmetric(r[a].key, r[b].key);
          assert a < p ==> r[a] == attrs[a];
          assert a > p ==> r[a] == attrs[a - 1];
          assert b < p ==> r[b] == attrs[b];
          assert b > p ==> r[b] == attrs[b - 1];
        }
      }
    } else {
      assert forall j :: 0 <= j < |attrs| ==> r[j].key == attrs[j].key;
    }
  }

  lemma SameKeyReflexive(a: Text)
    ensures SameKey(a, a)
  {
  }

  lemma SameKeySymmetric(a: Text, b: Text)
    ensures SameKey(a, b) <==> SameKey(b, a)
  {
  }

  lemma RemovedKeepsInvariant(attrs: AttributeList, name: Text)
    ensures CaseUnique(attrs) ==> CaseUnique(Removed(attrs, name))
    ensures Sorted(attrs) ==> Sorted(Removed(attrs, name))
  {
    hide KeyLess, SameKey;
    var i := IndexOfKey(attrs, name);
    var r := Removed(attrs, name);
    if i < |attrs| {
      forall a, b | 0 <= a < b < |r|
        ensures CaseUnique(attrs) ==> !SameKey(r[a].key, r[b].key)
        ensures Sorted(attrs) ==> KeyLess(r[a].key, r[b].key)
      {
        var a', b' := if a < i then a else a + 1, if b < i then b else b + 1;
        assert r[a] == attrs[a'] && r[b] == attrs[b'];
      }
    }
  }

  // ---------- What the operations do to lookups ----------

  lemma FindUnique(attrs: AttributeList, k: nat, name: Text)
    requires k < |attrs| && SameKey(attrs[k].key, name)
    requires forall j :: 0 <= j < k ==> !SameKey(attrs[j].key, name)
    ensures IndexOfKey(attrs, name) == k && Find(attrs, name) == Some(attrs[k].value)
  {
  }

  lemma FindNone(attrs: AttributeList, name: Text)
    ensures Find(attrs, name).None? <==> forall j :: 0 <= j < |attrs| ==> !SameKey(attrs[j].key, name)
  {
  }

  lemma InsertedFinds(attrs: AttributeList, name: Text, value: Text, other: Text)
    requires Find(attrs, name).None?
    ensures Find(Inserted(attrs, name, value), other)
         == if SameKey(name, other) then Some(value) else Find(attrs, other)
  {
    hide KeyLess, Lower;
    FindNone(attrs, name);
    FindNone(attrs, other);
    var p, k := InsertionPoint(attrs, name), IndexOfKey(attrs, other);
    var r := Inserted(attrs, name, value);
    assert forall j :: 0 <= j < p ==> r[j] == attrs[j];
    assert forall j :: p < j < |r| ==> r[j] == attrs[j - 1];
    assert r[p] == Attribute(name, value);
    if SameKey(name, other) {
      hide Find;
      FindUnique(r, p, other);
    } else if k < |attrs| {
      hide SameKey;
      FindUnique(r, if k < p then k else k + 1, other);
    } else {
      FindNone(r, other);
    }
  }

  lemma SetFinds(attrs: AttributeList, name: Text, value: Text, other: Text)
    ensures Find(Set(attrs, name, value, false), other)
         == if SameKey(name, other) then Some(value) else Find(attrs, other)
  {
    hide KeyLess, Inserted;
    var i, k := IndexOfKey(attrs, name), IndexOfKey(attrs, other);
    var r := Set(attrs, name, value, false);
    if i == |attrs| {
      InsertedFinds(attrs, name, value, other);
    } else {
      assert forall j :: 0 <= j < |attrs| ==> r[j].key == attrs[j].key;
      if k < |attrs| {
        FindUnique(r, k, other);
      } else {
        FindNone(r, other);
      }
    }
  }

  lemma RemovedFinds(attrs: AttributeList, name: Text, other: Text)
    requires CaseUnique(attrs)
    ensures Find(Removed(attrs, name), other) == if SameKey(name, other) then None else Find(attrs, other)
  {
    hide Lower;
    var i, k := IndexOfKey(attrs, name), IndexOfKey(attrs, other);
    var r := Removed(attrs, name);
    if i < |attrs| {
      assert forall j :: 0 <= j < |r| ==> r[j] == attrs[if j < i then j else j + 1];
      if SameKey(name, other) {
        forall j | 0 <= j < |r| ensures !SameKey(r[j].key, other) {
          var j' := if j < i then j else j + 1;
          assert r[j] == attrs[j'];
        }
        FindNone(r, other);
      } else if k < |attrs| {
        FindUnique(r, if k < i then k else k - 1, other);
      } else {
        FindNone(r, other);
      }
    }
  }

  // ---------- LDAP modify ----------

  predicate IsMember(name: Text) {
    Lower(name) == MEMBER
  }

  /** The value list an object has for an attribute. */
  function ValuesOf(attrs: AttributeList, name: Text): (r: seq<Text>)
  {
    match Find(attrs, name)
    case Some(text) => Values(text, IsMember(name))
    case None => []
  }

  /** apply_ldap_attribute_modify: operation 1 deletes, 0 adds, anything else replaces. */
  function Modified(attrs: AttributeList, name: Text, value: Text, operation: int): (r: AttributeList)
  {
    var m := IsMember(name);
    if operation == DELETE then
      if value == [] || Find(attrs, name).None? then Removed(attrs, name)
      else
        var joined := JoinText(RemoveAll(ValuesOf(attrs, name), Values(value, m)), m);
        if joined == [] then Removed(attrs, name) else Set(Removed(attrs, name), name, joined, false)
    else if operation == ADD then
      Set(attrs, name, JoinText(AddMissing(ValuesOf(attrs, name), Values(value, m)), m), false)
    else if value == [] then Removed(attrs, name)
    else Set(attrs, name, value, false)
  }

  /** A modify removes the attribute, sets it, or does one after the other. */
  lemma {:induction false} ModifiedIs(
      attrs: AttributeList, name: Text, value: Text, operation: int) returns (text: Text)
    ensures var r := Modified(attrs, name, value, operation);
            r == Removed(attrs, name) || r == Set(Removed(attrs, name), name, text, false)
                || r == Set(attrs, name, text, false)
  {
    hide Set, Removed, Find, ValuesOf, JoinText, Values, RemoveAll, AddMissing, IsMember;
    var m := IsMember(name);
    if operation == DELETE {
      text := JoinText(RemoveAll(ValuesOf(attrs, name), Values(value, m)), m);
    } else if operation == ADD {
      text := JoinText(AddMissing(ValuesOf(attrs, name), Values(value, m)), m);
    } else {
      text := value;
    }
  }

  lemma {:induction false} ModifyKeepsOther(attrs: AttributeList, name: Text, value: Text, operation: int, other: Text)
    requires CaseUnique(attrs) && !SameKey(name, other)
    ensures Find(Modified(attrs, name, value, operation), other) == Find(attrs, other)
  {
    hide *;
    var text := ModifiedIs(attrs, name, value, operation);
    RemovedFinds(attrs, name, other);
    SetFinds(Removed(attrs, name), name, text, other);
    SetFinds(attrs, name, text, other);
  }

  /** Section 4.6 of RFC 4511: every modify keeps the map a map and leaves other attributes alone. */
  lemma {:induction false} ModifyKeepsInvariant(attrs: AttributeList, name: Text, value: Text, operation: int)
    requires CaseUnique(attrs)
    ensures CaseUnique(Modified(attrs, name, value, operation))
    ensures Sorted(attrs) ==> Sorted(Modified(attrs, name, value, operation))
    ensures forall other :: !SameKey(name, other)
              ==> Find(Modified(attrs, name, value, operation), other) == Find(attrs, other)
  {
    hide *;
    var text := ModifiedIs(attrs, name, value, operation);
    RemovedKeepsInvariant(attrs, name);
    SetKeepsInvariant(Removed(attrs, name), name, text, false);
    SetKeepsInvariant(attrs, name, text, false);
    forall other | !SameKey(name, other)
      ensures Find(Modified(attrs, name, value, operation), other) == Find(attrs, other)
    {
      ModifyKeepsOther(attrs, name, value, operation, other);
    }
  }

  lemma ValuesOfAreValues(attrs: AttributeList, name: Text)
    ensures AllValues(ValuesOf(attrs, name), IsMember(name))
  {
    hide Values, Find;
    if Find(attrs, name).Some? {
      ValuesAreValues(Find(attrs, name).value, IsMember(name));
    }
  }

  /** An add appends the missing values to the attribute's list. */
  lemma {:induction false} AddRefinesList(attrs: AttributeList, name: Text, value: Text)
    ensures ValuesOf(Modified(attrs, name, value, ADD), name)
         == AddMissing(ValuesOf(attrs, name), Values(value, IsMember(name)))
  {
    hide Set, Find, JoinText, Values, AllValues, SameKey;
    var m := IsMember(name);
    var merged := AddMissing(ValuesOf(attrs, name), Values(value, m));
    ValuesOfAreValues(attrs, name);
    ValuesAreValues(value, m);
    AddMissingAll(ValuesOf(attrs, name), Values(value, m), m);
    ValuesOfJoin(merged, m);
    SetFinds(attrs, name, JoinText(merged, m), name);
    SameKeyReflexive(name);
  }

  /** A delete with values filters the list; the attribute is there afterwards exactly when a value is left. */
  lemma {:induction false} DeleteRefinesList(attrs: AttributeList, name: Text, value: Text)
    requires CaseUnique(attrs)
    ensures ValuesOf(Modified(attrs, name, value, DELETE), name)
         == if value == [] then [] else RemoveAll(ValuesOf(attrs, name), Values(value, IsMember(name)))
    ensures Find(Modified(attrs, name, value, DELETE), name).None?
       <==> ValuesOf(Modified(attrs, name, value, DELETE), name) == []
  {
    hide Set, Removed, JoinText, Values, AllValues, SameKey, CaseUnique, Find;
    var m := IsMember(name);
    var kept := RemoveAll(ValuesOf(attrs, name), Values(value, m));
    ValuesOfAreValues(attrs, name);
    RemoveAllAll(ValuesOf(attrs, name), Values(value, m), m);
    ValuesOfJoin(kept, m);
    SameKeyReflexive(name);
    RemovedFinds(attrs, name, name);
    SetFinds(Removed(attrs, name), name, JoinText(kept, m), name);
  }

  /** Adding the same values twice leaves the whole map as adding them once. */
  lemma AddTwice(attrs: AttributeList, name: Text, value: Text)
    ensures Modified(Modified(attrs, name, value, ADD), name, value, ADD) == Modified(attrs, name, value, ADD)
  {
    hide JoinText, Values, SameKey, KeyLess;
    var m := IsMember(name);
    var once := Modified(attrs, name, value, ADD);
    AddRefinesList(attrs, name, value);
    AddIdempotent(ValuesOf(attrs, name), Values(value, m));
    SetTwice(attrs, name, JoinText(AddMissing(ValuesOf(attrs, name), Values(value, m)), m));
  }

  lemma SetTwice(attrs: AttributeList, name: Text, value: Text)
    ensures Set(Set(attrs, name, value, false), name, value, false) == Set(attrs, name, value, false)
  {
    hide KeyLess;
    var i := IndexOfKey(attrs, name);
    var r := Set(attrs, name, value, false);
    SameKeyReflexive(name);
    if i < |attrs| {
      assert forall j :: 0 <= j < |attrs| ==> r[j].key == attrs[j].key;
      FindUnique(r, i, name);
      assert r[i := r[i].(value := value)] == r;
    } else {
      var p := InsertionPoint(attrs, name);
      assert forall j :: 0 <= j < p ==> r[j] == attrs[j];
      FindUnique(r, p, name);
      assert r[p := r[p].(value := value)] == r;
    }
  }

  /** Deleting the values just added restores the earlier list exactly when it contained none of them (and a delete
      that names no value at all, which drops the attribute, had nothing to drop). */
  lemma {:induction false} DeleteUndoesAdd(attrs: AttributeList, name: Text, value: Text)
    requires CaseUnique(attrs)
    ensures ValuesOf(Modified(Modified(attrs, name, value, ADD), name, value, DELETE), name) == ValuesOf(attrs, name)
       <==> if value == [] then ValuesOf(attrs, name) == []
            else forall i :: 0 <= i < |ValuesOf(attrs, name)|
                   ==> !Contains(Values(value, IsMember(name)), ValuesOf(attrs, name)[i])
  {
    hide *;
    var once := Modified(attrs, name, value, ADD);
    ModifyKeepsInvariant(attrs, name, value, ADD);
    AddRefinesList(attrs, name, value);
    DeleteRefinesList(once, name, value);
    RemoveUndoesAdd(ValuesOf(attrs, name), Values(value, IsMember(name)));
  }

  // ---------- The object that is changed in place ----------

  class AttributeMap {
    var entries: AttributeList

    constructor (entries: AttributeList)
      ensures this.entries == entries
    {
      this.entries := entries;
    }

    method FindAttribute(name: Text) returns (value: Option<Text>)
      ensures value == Find(entries, name)
    {
      hide SameKey;
      for i := 0 to |entries|
        invariant forall j :: 0 <= j < i ==> !SameKey(entries[j].key, name)
      {
        if SameKey(entries[i].key, name) {
          FindUnique(entries, i, name);
          return Some(entries[i].value);
        }
      }
      FindNone(entries, name);
      return None;
    }

    method SetAttribute(name: Text, value: Text, onlyIfMissing: bool)
      modifies this
      ensures entries == Set(old(entries), name, value, onlyIfMissing)
    {
      hide SameKey, KeyLess, Inserted;
      for i := 0 to |entries|
        invariant entries == old(entries)
        invariant forall j :: 0 <= j < i ==> !SameKey(entries[j].key, name)
      {
        if SameKey(entries[i].key, name) {
          FindUnique(entries, i, name);
          if !onlyIfMissing || entries[i].value == [] {
            entries := entries[i := entries[i].(value := value)];
          }
          return;
        }
      }
      FindNone(entries, name);
      entries := Inserted(entries, name, value);
    }

    method RemoveAttribute(name: Text) returns (value: Option<Text>)
      modifies this
      ensures value == Find(old(entries), name) && entries == Removed(old(entries), name)
    {
      hide SameKey;
      for i := 0 to |entries|
        invariant entries == old(entries)
        invariant forall j :: 0 <= j < i ==> !SameKey(entries[j].key, name)
      {
        if SameKey(entries[i].key, name) {
          FindUnique(entries, i, name);
          value := Some(entries[i].value);
          entries := entries[..i] + entries[i + 1..];
          return;
        }
      }
      FindNone(entries, name);
      return None;
    }

    /** apply_ldap_attribute_modify */
    method ApplyModify(name: Text, value: Text, operation: int)
      modifies this
      ensures entries == Modified(old(entries), name, value, operation)
    {
      hide Set, Removed, Find, AddMissing, RemoveAll, JoinText, SplitText;
      var m := IsMember(name);
      if operation == DELETE {
        if value == [] {
          var _ := RemoveAttribute(name);
          return;
        }
        var existing := RemoveAttribute(name);
        if existing.None? {
          return;
        }
        var toRemove := SplitIntoValues(value, m);
        var current := SplitIntoValues(existing.value, m);
        var kept := KeepOthers(current, toRemove);
        var joined := JoinValues(kept, m);
        if joined != [] {
          SetAttribute(name, joined, false);
        }
      } else if operation == ADD {
        var existing := FindAttribute(name);
        var merged: seq<Text> := [];
        if existing.Some? {
          var current := SplitIntoValues(existing.value, m);
          merged := TrimValues(current);
        }
        var more := SplitIntoValues(value, m);
        merged := MergeValues(merged, more);
        var joined := JoinValues(merged, m);
        SetAttribute(name, joined, false);
      } else if value == [] {
        var _ := RemoveAttribute(name);
      } else {
        SetAttribute(name, value, false);
      }
    }
  }

  /** The loop that takes over the existing values. */
  method TrimValues(values: seq<Text>) returns (r: seq<Text>)
    ensures r == NonEmpty(Trimmed(values))
  {
    hide Trim, NonEmpty;
    r := [];
    NothingNonEmpty(values);
    for i := 0 to |values|
      invariant r == NonEmpty(Trimmed(values[..i]))
    {
      NonEmptyStep(values[..i], values[i]);
      assert values[..i] + [values[i]] == values[..i + 1];
      if Trim(values[i]) != [] {
        r := r + [Trim(values[i])];
      }
    }
    assert values[..|values|] == values;
  }

  method MergeValues(values: seq<Text>, more: seq<Text>) returns (merged: seq<Text>)
    ensures merged == AddMissing(values, NonEmpty(Trimmed(more)))
  {
    hide Trim, Contains;
    merged := values;
    for i := 0 to |more|
      invariant AddMissing(merged, NonEmpty(Trimmed(more[i..]))) == AddMissing(values, NonEmpty(Trimmed(more)))
    {
      var trimmed := Trim(more[i]);
      assert more[i..] == [more[i]] + more[i + 1..];
      TrimmedFirst(more[i], more[i + 1..]);
      NonEmptyOne(trimmed, Trimmed(more[i + 1..]));
      AddMissingFirst(merged, trimmed, NonEmpty(Trimmed(more[i + 1..])));
      if trimmed != [] && !Contains(merged, trimmed) {
        merged := merged + [trimmed];
      }
    }
    assert more[|more|..] == [];
    assert NonEmpty(Trimmed(more[|more|..])) == [];
  }

  lemma AddMissingFirst(values: seq<Text>, v: Text, rest: seq<Text>)
    ensures AddMissing(values, [v] + rest) == AddMissing(if Contains(values, v) then values else values + [v], rest)
  {
    hide Contains;
    assert ([v] + rest)[1..] == rest;
  }

  lemma RemoveAllOne(v: Text, gone: seq<Text>)
    ensures RemoveAll([v], gone) == if Contains(gone, v) then [] else [v]
  {
    var rest: seq<Text> := [];
    assert [v][1..] == rest;
  }

  method KeepOthers(values: seq<Text>, gone: seq<Text>) returns (kept: seq<Text>)
    ensures kept == RemoveAll(NonEmpty(Trimmed(values)), NonEmpty(Trimmed(gone)))
  {
    hide Trim, Contains, NonEmpty;
    kept := [];
    NothingNonEmpty(values);
    for i := 0 to |values|
      invariant kept == RemoveAll(NonEmpty(Trimmed(values[..i])), NonEmpty(Trimmed(gone)))
    {
      var trimmed := Trim(values[i]);
      NonEmptyStep(values[..i], values[i]);
      assert values[..i] + [values[i]] == values[..i + 1];
      RemoveAllConcat(NonEmpty(Trimmed(values[..i])), [trimmed], NonEmpty(Trimmed(gone)));
      RemoveAllOne(trimmed, NonEmpty(Trimmed(gone)));
      if trimmed != [] {
        var shouldRemove := AnyEquals(gone, trimmed);
        if !shouldRemove {
          kept := kept + [trimmed];
        }
      }
    }
    assert values[..|values|] == values;
  }

  /** any_of over the values to remove, each trimmed. */
  method AnyEquals(gone: seq<Text>, v: Text) returns (found: bool)
    requires v != []
    ensures found <==> Contains(NonEmpty(Trimmed(gone)), v)
  {
    hide Trim;
    for i := 0 to |gone|
      invariant forall j :: 0 <= j < i ==> Lower(Trim(gone[j])) != Lower(v)
    {
      if Lower(Trim(gone[i])) == Lower(v) {
        NonEmptyMember(Trimmed(gone), Trim(gone[i]));
        assert Trimmed(gone)[i] in Trimmed(gone);
        assert |Lower(Trim(gone[i]))| == |v|;
        return true;
      }
    }
    forall k | 0 <= k < |NonEmpty(Trimmed(gone))| ensures Lower(NonEmpty(Trimmed(gone))[k]) != Lower(v) {
      var x := NonEmpty(Trimmed(gone))[k];
      NonEmptyMember(Trimmed(gone), x);
      var j :| 0 <= j < |gone| && Trimmed(gone)[j] == x;
    }
    return false;
  }
}
