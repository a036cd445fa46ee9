/** The structural matcher: `MapIntersection`, `ArrayIntersection` and
    `Contains`. The same three functions appear, token for token, in
    internal/utility/utility.go, pkg/utility.go (exported names) and
    pkg/common.go (lower-case names); this module models all three copies.

    The code as written differs from a "contained in" relation in two ways
    that the model keeps:
    - in a filter map, the first visited key whose value is a map or a list
      decides the whole result; later keys are never examined;
    - `Contains` does not search: for a map or list needle it answers from
      the first element of the list alone, and for a scalar needle it demands
      that EVERY element equal the needle. */
module Matcher {
  import opened Outcomes
  import opened Nodes

  /** The filter key of `e` is in `b` and its value there has the same Go type. */
  predicate TypedPresent(e: (string, Node), b: Entries) {
    Lookup(b, e.0).Some? && Typeof(Lookup(b, e.0).value) == Typeof(e.1)
  }

  /** The filter entry `e` is a scalar that `b` holds under the same key,
      with the same Go type and an equal value: the loop moves on past it. */
  predicate ScalarHit(e: (string, Node), b: Entries) {
    IsScalar(e.1) && TypedPresent(e, b) && Lookup(b, e.0).value == e.1
  }

  /** Is the filter map `a` matched by the target map `b`? The entries of `a`
      are visited in sequence order. */
  function MapIntersection(a: Entries, b: Entries): (r: bool)
    decreases EntriesSize(a), 2, 0
    ensures |a| == 0 ==> r
    ensures |a| > 0 && !TypedPresent(a[0], b) ==> !r
  {
    if |a| == 0 then true
    else
      var k := a[0].0;
      var vA := a[0].1;
      assert EntriesSize(a) == Size(vA) + EntriesSize(a[1..]);
      match Lookup(b, k)
      case None => false
      case Some(vB) =>
        if Typeof(vA) != Typeof(vB) then false
        else if Typeof(vA) == MapType then MapIntersection(vA.entries, vB.entries)
        else if Typeof(vA) == ListType then ArrayIntersection(vA.items, vB.items)
        else if vA != vB then false
        else MapIntersection(a[1..], b)
  }

  /** Is every element of the filter list `small` "contained" in `big`? */
  function ArrayIntersection(small: seq<Node>, big: seq<Node>): (r: bool)
    decreases ItemsSize(small), 2, 0
    ensures |small| > |big| ==> !r
    ensures |small| == 0 ==> r
  {
    if |small| > |big| then false
    else if |small| == 0 then true
    else if !Contains(big, small[0]) then false
    else ArrayIntersection(small[1..], big)
  }

  /** `Contains(sliceBig, vSmall)` as written: true on an empty list; for a
      scalar needle, true iff every element has its type and value; for a
      map or list needle, decided by the first element. */
  function Contains(big: seq<Node>, v: Node): (r: bool)
    decreases Size(v), 1, |big|
    ensures |big| == 0 ==> r
    ensures IsScalar(v) ==>
      (r <==> forall i :: 0 <= i < |big| ==> Typeof(big[i]) == Typeof(v) && big[i] == v)
    ensures !IsScalar(v) && |big| > 0 && Typeof(big[0]) != Typeof(v) ==> !r
  {
    if |big| == 0 then true
    else
      var vBig := big[0];
      if Typeof(vBig) != Typeof(v) then false
      else if Typeof(vBig) == MapType then MapIntersection(v.entries, vBig.entries)
      else if Typeof(vBig) == ListType then ArrayIntersection(v.items, vBig.items)
      else if v != vBig then false
      else
        var r := Contains(big[1..], v);
        assert forall i :: 1 <= i < |big| ==> big[i] == big[1..][i - 1];
        r
  }

  /** A visited filter key that is missing from the target, or whose target
      value has another Go type, makes the match fail. "Visited" means every
      earlier key was a scalar the target holds. */
  lemma {:induction false} VisitedKeyMismatchFails(a: Entries, b: Entries, i: nat)
    requires i < |a|
    requires forall j :: 0 <= j < i ==> ScalarHit(a[j], b)
    requires !TypedPresent(a[i], b)
    ensures !MapIntersection(a, b)
  {
    if i > 0 {
      assert ScalarHit(a[0], b);
      assert forall j :: 0 <= j < i - 1 ==> a[1..][j] == a[j + 1];
      VisitedKeyMismatchFails(a[1..], b, i - 1);
    }
  }

  /** For a filter whose values are all scalars, the match holds exactly when
      every filter key is in the target with the same type and an equal value. */
  lemma {:induction false} AllScalarFilterIff(a: Entries, b: Entries)
    requires AllScalar(a)
    ensures MapIntersection(a, b) <==> forall i :: 0 <= i < |a| ==> ScalarHit(a[i], b)
  {
    if |a| > 0 {
      assert IsScalar(a[0].1);
      assert forall i :: 0 <= i < |a| - 1 ==> a[1..][i] == a[i + 1];
      AllScalarFilterIff(a[1..], b);
      if ScalarHit(a[0], b) {
        assert MapIntersection(a, b) == MapIntersection(a[1..], b);
        assert (forall i :: 0 <= i < |a| ==> ScalarHit(a[i], b))
          <==> (forall i :: 0 <= i < |a| - 1 ==> ScalarHit(a[1..][i], b));
      } else {
        assert !MapIntersection(a, b);
      }
    }
  }

  /** For an all-scalar filter the order in which Go happens to visit the keys
      does not matter. */
  lemma {:induction false} ScalarFilterOrderIrrelevant(a: Entries, a2: Entries, b: Entries)
    requires AllScalar(a)
    requires forall e :: e in a <==> e in a2
    ensures MapIntersection(a, b) == MapIntersection(a2, b)
  {
    assert AllScalar(a2) by {
      forall i | 0 <= i < |a2|
        ensures IsScalar(a2[i].1)
      {
        assert a2[i] in a;
      }
    }
    AllScalarFilterIff(a, b);
    AllScalarFilterIff(a2, b);
    if forall i :: 0 <= i < |a| ==> ScalarHit(a[i], b) {
      forall i | 0 <= i < |a2|
        ensures ScalarHit(a2[i], b)
      {
        assert a2[i] in a;
      }
    }
    if forall i :: 0 <= i < |a2| ==> ScalarHit(a2[i], b) {
      forall i | 0 <= i < |a|
        ensures ScalarHit(a[i], b)
      {
        assert a[i] in a2;
      }
    }
  }

  /** Adding to the target map, at any position, entries under keys the filter
      does not mention never changes the result. */
  lemma {:induction false} UnmentionedTargetKeysIrrelevant(a: Entries, b: Entries, j: nat, extra: Entries)
    requires j <= |b|
    requires forall i :: 0 <= i < |a| ==> !HasKey(extra, a[i].0)
    ensures MapIntersection(a, b[..j] + extra + b[j..]) == MapIntersection(a, b)
  {
    if |a| > 0 {
      LookupInsert(b, j, extra, a[0].0);
      assert forall i :: 0 <= i < |a| - 1 ==> a[1..][i] == a[i + 1];
      UnmentionedTargetKeysIrrelevant(a[1..], b, j, extra);
    }
  }

  /** When the visited key holds a map (and so does the target), the result is
      the recursive check of the two sub-maps, and the filter keys after it
      are never examined. */
  lemma {:induction false} NestedMapDecides(a: Entries, b: Entries, i: nat, rest: Entries)
    requires i < |a|
    requires forall j :: 0 <= j < i ==> ScalarHit(a[j], b)
    requires a[i].1.Obj? && TypedPresent(a[i], b)
    ensures MapIntersection(a, b) == MapIntersection(a[i].1.entries, Lookup(b, a[i].0).value.entries)
    ensures MapIntersection(a[..i + 1] + rest, b) == MapIntersection(a, b)
  {
    var a' := a[..i + 1] + rest;
    assert a'[0] == a[0];
    if i > 0 {
      assert ScalarHit(a[0], b);
      assert forall j :: 0 <= j < i - 1 ==> a[1..][j] == a[j + 1];
      assert a'[1..] == a[1..][..i] + rest;
      NestedMapDecides(a[1..], b, i - 1, rest);
    }
  }

  /** When the visited key holds a list (and so does the target), the result is
      exactly `ArrayIntersection` of the two lists, and later keys are skipped. */
  lemma {:induction false} NestedListDecides(a: Entries, b: Entries, i: nat, rest: Entries)
    requires i < |a|
    requires forall j :: 0 <= j < i ==> ScalarHit(a[j], b)
    requires a[i].1.Arr? && TypedPresent(a[i], b)
    ensures MapIntersection(a, b) == ArrayIntersection(a[i].1.items, Lookup(b, a[i].0).value.items)
    ensures MapIntersection(a[..i + 1] + rest, b) == MapIntersection(a, b)
  {
    var a' := a[..i + 1] + rest;
    assert a'[0] == a[0];
    if i > 0 {
      assert ScalarHit(a[0], b);
      assert forall j :: 0 <= j < i - 1 ==> a[1..][j] == a[j + 1];
      assert a'[1..] == a[1..][..i] + rest;
      NestedListDecides(a[1..], b, i - 1, rest);
    }
  }

  /** For a map or list needle only the first target element is consulted. */
  lemma ContainsDecidedByFirst(big: seq<Node>, v: Node, rest: seq<Node>)
    requires !IsScalar(v) && |big| > 0
    ensures Contains(big, v) == Contains([big[0]] + rest, v)
  {
  }

  /** For a list filter of scalars, `ArrayIntersection` holds exactly when the
      filter is no longer than the target and every filter element equals
      every target element: membership of each element is not enough. */
  lemma {:induction false} ScalarArrayIff(small: seq<Node>, big: seq<Node>)
    requires forall j :: 0 <= j < |small| ==> IsScalar(small[j])
    ensures ArrayIntersection(small, big) <==>
      |small| <= |big| &&
      forall j, i :: 0 <= j < |small| && 0 <= i < |big| ==> big[i] == small[j]
  {
    if 0 < |small| <= |big| {
      assert forall j :: 0 <= j < |small| - 1 ==> small[1..][j] == small[j + 1];
      ScalarArrayIff(small[1..], big);
      if Contains(big, small[0]) {
        assert ArrayIntersection(small, big) == ArrayIntersection(small[1..], big);
      }
    }
  }

  /** A witness that `Contains` is not membership: "a" occurs in ["a", "b"],
      yet the one-element filter list ["a"] is not matched. */
  lemma ContainsIsNotMembership()
    ensures Str("a") in [Str("a"), Str("b")]
    ensures !ArrayIntersection([Str("a")], [Str("a"), Str("b")])
  {
    assert !Contains([Str("a"), Str("b")], Str("a")) by {
      assert [Str("a"), Str("b")][1..] == [Str("b")];
    }
  }

  /** A witness that the visiting order matters once a nested map is involved:
      with "a" visited first the missing key "b" is never looked at. */
  lemma VisitOrderMatters()
    ensures MapIntersection([("a", Obj([])), ("b", Str("x"))], [("a", Obj([]))])
    ensures !MapIntersection([("b", Str("x")), ("a", Obj([]))], [("a", Obj([]))])
  {
  }

  /** A whole number from a criteria file (`int`) never matches the same
      number in an API object (`int64`): the types differ. */
  lemma WholeNumberFilterNeverMatches(k: string, n: int, b: Entries)
    requires Lookup(b, k) == Some(Int64(n))
    ensures !MapIntersection([(k, Int(n))], b)
  {
  }
}
