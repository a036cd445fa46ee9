/** `mapIntersectionCheck` of internal/internal.go: the older matcher without
    a list branch. A list value in the filter that meets a list in the target
    reaches `vA != vB`, and Go panics when it compares two `[]interface{}`
    values; the result `None` stands for that panic. */
module LegacyMatcher {
  import opened Outcomes
  import opened Nodes
  import opened Matcher

  function MapIntersectionCheck(a: Entries, b: Entries): (r: Option<bool>)
    decreases EntriesSize(a)
    ensures |a| == 0 ==> r == Some(true)
    ensures |a| > 0 && !TypedPresent(a[0], b) ==> r == Some(false)
    ensures r.None? ==> !ListFreeEntries(a)
  {
    if |a| == 0 then Some(true)
    else
      var k := a[0].0;
      var vA := a[0].1;
      assert EntriesSize(a) == Size(vA) + EntriesSize(a[1..]);
      match Lookup(b, k)
      case None => Some(false)
      case Some(vB) =>
        if Typeof(vA) != Typeof(vB) then Some(false)
        else if Typeof(vA) == MapType then MapIntersectionCheck(vA.entries, vB.entries)
        else if !IsScalar(vA) then None
        else if vA != vB then Some(false)
        else MapIntersectionCheck(a[1..], b)
  }

  /** On filters without lists the legacy matcher never panics and agrees with
      the list-aware `MapIntersection`. */
  lemma {:induction false} ListFreeAgrees(a: Entries, b: Entries)
    requires ListFreeEntries(a)
    ensures MapIntersectionCheck(a, b) == Some(MapIntersection(a, b))
    decreases EntriesSize(a)
  {
    if |a| > 0 {
      var vA := a[0].1;
      assert EntriesSize(a) == Size(vA) + EntriesSize(a[1..]);
      match Lookup(b, a[0].0)
      case None =>
      case Some(vB) =>
        if Typeof(vA) == Typeof(vB) {
          if vA.Obj? {
            ListFreeAgrees(vA.entries, vB.entries);
          } else if vA == vB {
            ListFreeAgrees(a[1..], b);
          }
        }
    }
  }

  /** With an all-scalar filter the legacy matcher is key-wise typed equality,
      whatever other keys the target holds. */
  lemma AllScalarLegacyIff(a: Entries, b: Entries)
    requires AllScalar(a)
    ensures MapIntersectionCheck(a, b) == Some(forall i :: 0 <= i < |a| ==> ScalarHit(a[i], b))
  {
    AllScalarIsListFree(a);
    ListFreeAgrees(a, b);
    AllScalarFilterIff(a, b);
  }

  /** A visited filter key holding a list, met by a list in the target, makes
      the legacy matcher panic. */
  lemma {:induction false} VisitedListPanics(a: Entries, b: Entries, i: nat)
    requires i < |a|
    requires forall j :: 0 <= j < i ==> ScalarHit(a[j], b)
    requires a[i].1.Arr? && TypedPresent(a[i], b)
    ensures MapIntersectionCheck(a, b) == None
  {
    if i > 0 {
      assert ScalarHit(a[0], b);
      assert forall j :: 0 <= j < i - 1 ==> a[1..][j] == a[j + 1];
      VisitedListPanics(a[1..], b, i - 1);
    }
  }
}
