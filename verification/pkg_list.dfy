/** pkg/list.go, with `arrayInclude` of pkg/common.go. The call at
    pkg/list.go:63 names `unstructuredArrayInclude`, which the package does
    not define; the only candidate, `arrayInclude`, is modelled in its place. */
module PkgList {
  import opened Outcomes
  import opened Nodes
  import opened Seqs
  import opened Matcher
  import opened Records
  import InternalFlag

  /** `arrayInclude`: is some element deep-equal to `element`? Deep equality
      of two objects is equality of their model values. */
  function ArrayInclude(list: seq<Record>, element: Record): (r: bool)
    ensures r <==> exists i :: 0 <= i < |list| && list[i] == element
    ensures |list| == 0 ==> !r
  {
    if |list| == 0 then false
    else if list[0] == element then true
    else
      var r := ArrayInclude(list[1..], element);
      assert forall i :: 1 <= i < |list| ==> list[i] == list[1..][i - 1];
      r
  }

  /** `filterByAge` of pkg/list.go: zero keeps everything (checked before the
      sign), a negative threshold is an error, a positive one keeps exactly
      the strictly older records in order. */
  function FilterByAge(items: seq<Record>, minAge: real): (r: Result<seq<Record>, Error>)
    ensures minAge == 0.0 ==> r == Success(items)
    ensures minAge < 0.0 ==> r == Failure(NegativeMinAge)
    ensures minAge > 0.0 ==>
      && r.Success?
      && IsSubseq(r.value, items)
      && forall x :: x in r.value <==> x in items && InternalFlag.OlderThan(x, minAge)
    ensures minAge >= 0.0 ==> r == Success(InternalFlag.KeepOlder(items, minAge))
  {
    if minAge == 0.0 then Success(items)
    else if minAge < 0.0 then Failure(NegativeMinAge)
    else Success(Filter(items, (x: Record) => InternalFlag.OlderThan(x, minAge)))
  }

  /** One entry of the `filters` map of `filterByField`: a section and its
      (possibly nil) filter. A sequence of them lists the map in the order
      Go's `range` visits it. */
  type FieldFilter = (Section, Option<Entries>)

  /** The inner loop of `filterByField` (pkg/list.go:61-66): append to `acc`
      each record of `cur` whose section matches and that `acc` does not
      already include. */
  function Collect(cur: seq<Record>, field: Section, f: Entries, acc: seq<Record>): (r: seq<Record>)
    ensures |acc| <= |r| && r[..|acc|] == acc
    ensures forall x :: x in r <==> x in acc || (x in cur && MapIntersection(f, SectionOf(x, field)))
    ensures NoDup(acc) ==> NoDup(r)
    ensures IsSubseq(r[|acc|..], cur)
  {
    if |cur| == 0 then
      acc
    else
      var item := cur[0];
      assert forall x :: x in cur <==> x == item || x in cur[1..] by {
        assert cur == [item] + cur[1..];
      }
      var acc' := if MapIntersection(f, SectionOf(item, field)) && !ArrayInclude(acc, item)
                  then acc + [item] else acc;
      var r := Collect(cur[1..], field, f, acc');
      assert r[..|acc|] == acc by {
        assert r[..|acc'|][..|acc|] == acc'[..|acc|];
      }
      if acc' == acc then
        r
      else
        assert r[|acc|..][0] == item;
        assert r[|acc|..][1..] == r[|acc'|..];
        r
  }

  /** The outer loop of `filterByField`. `responseList` (here `acc`) is never
      reset, and after each non-nil filter the records to scan become
      `responseList` itself. */
  function FieldLoop(filters: seq<FieldFilter>, cur: seq<Record>, acc: seq<Record>): seq<Record> {
    if |filters| == 0 then cur
    else if filters[0].1.None? then FieldLoop(filters[1..], cur, acc)
    else
      var acc' := Collect(cur, filters[0].0, filters[0].1.value, acc);
      FieldLoop(filters[1..], acc', acc')
  }

  /** The position of the first non-nil filter, or `|filters|`. */
  function FirstActive(filters: seq<FieldFilter>): (i: nat)
    ensures i <= |filters|
    ensures forall j :: 0 <= j < i ==> filters[j].1.None?
    ensures i < |filters| ==> filters[i].1.Some?
  {
    if |filters| == 0 || filters[0].1.Some? then 0
    else
      var i := 1 + FirstActive(filters[1..]);
      assert forall j :: 1 <= j < |filters| ==> filters[j] == filters[1..][j - 1];
      i
  }

  /** Scanning records that are all in `acc` already appends nothing. */
  lemma {:induction false} CollectNothingNew(cur: seq<Record>, field: Section, f: Entries, acc: seq<Record>)
    requires forall x :: x in cur ==> x in acc
    ensures Collect(cur, field, f, acc) == acc
  {
    if |cur| > 0 {
      assert cur[0] in cur;
      assert forall x :: x in cur[1..] ==> x in cur;
      CollectNothingNew(cur[1..], field, f, acc);
    }
  }

  /** Once the accumulator is also the list being scanned, the remaining
      filters add and remove nothing. */
  lemma {:induction false} LaterFiltersInert(filters: seq<FieldFilter>, acc: seq<Record>)
    ensures FieldLoop(filters, acc, acc) == acc
  {
    if |filters| > 0 {
      if filters[0].1.Some? {
        CollectNothingNew(acc, filters[0].0, filters[0].1.value, acc);
      }
      LaterFiltersInert(filters[1..], acc);
    }
  }

  /** Nil filters before the first non-nil one are skipped. */
  lemma {:induction false} SkipNilFilters(filters: seq<FieldFilter>, cur: seq<Record>, acc: seq<Record>)
    ensures FieldLoop(filters, cur, acc) == FieldLoop(filters[FirstActive(filters)..], cur, acc)
  {
    if |filters| > 0 && filters[0].1.None? {
      SkipNilFilters(filters[1..], cur, acc);
      assert filters[1..][FirstActive(filters[1..])..] == filters[FirstActive(filters)..];
    }
  }

  /** `filterByField`. With every filter nil it returns its input
      unchanged. Otherwise only the first non-nil filter (in iteration order)
      takes effect, because `responseList` is never reset: the result is the
      duplicate-free, order-preserving list of the input records whose
      section matches that filter. */
  function FilterByField(items: seq<Record>, filters: seq<FieldFilter>): (r: seq<Record>)
    ensures FirstActive(filters) == |filters| ==> r == items
    ensures var i := FirstActive(filters);
      i < |filters| ==>
        && r == Collect(items, filters[i].0, filters[i].1.value, [])
        && NoDup(r)
        && IsSubseq(r, items)
        && forall x :: x in r <==> x in items && MapIntersection(filters[i].1.value, SectionOf(x, filters[i].0))
  {
    var i := FirstActive(filters);
    SkipNilFilters(filters, items, []);
    if i == |filters| then FieldLoop(filters, items, [])
    else
      var c := Collect(items, filters[i].0, filters[i].1.value, []);
      assert filters[i..][1..] == filters[i + 1..];
      LaterFiltersInert(filters[i + 1..], c);
      assert c[0..] == c;
      FieldLoop(filters, items, [])
  }

  /** The test of the inner loop as a predicate on records. */
  function MatchTest(field: Section, f: Entries): Record -> bool {
    (x: Record) => MapIntersection(f, SectionOf(x, field))
  }

  /** On records that are pairwise distinct, the collecting loop is plain
      order-preserving filtering appended to the accumulator. */
  lemma {:induction false} CollectDistinct(cur: seq<Record>, field: Section, f: Entries, acc: seq<Record>)
    requires NoDup(cur)
    requires forall x :: x in cur ==> x !in acc
    ensures Collect(cur, field, f, acc) == acc + Filter(cur, MatchTest(field, f))
  {
    if |cur| > 0 {
      var p := MatchTest(field, f);
      var item := cur[0];
      assert item in cur;
      assert !ArrayInclude(acc, item);
      var acc' := if p(item) then acc + [item] else acc;
      assert Collect(cur, field, f, acc) == Collect(cur[1..], field, f, acc');
      NoDupTail(cur);
      CollectDistinct(cur[1..], field, f, acc');
      var rest := Filter(cur[1..], p);
      if p(item) {
        assert Filter(cur, p) == [item] + rest;
        AppendAssoc(acc, [item], rest);
      } else {
        assert Filter(cur, p) == rest;
      }
    }
  }

  lemma AppendAssoc(a: seq<Record>, b: seq<Record>, c: seq<Record>)
    ensures (a + b) + c == a + (b + c)
  {
  }

  /** The tail of a duplicate-free list is duplicate-free and misses its head. */
  lemma NoDupTail(s: seq<Record>)
    requires |s| > 0 && NoDup(s)
    ensures NoDup(s[1..])
    ensures forall x :: x in s[1..] ==> x in s && x != s[0]
  {
    forall x | x in s[1..]
      ensures x in s && x != s[0]
    {
      var j :| 0 <= j < |s[1..]| && s[1..][j] == x;
      assert s[j + 1] == x;
    }
    forall i, j | 0 <= i < j < |s[1..]|
      ensures s[1..][i] != s[1..][j]
    {
      assert s[1..][i] == s[i + 1] && s[1..][j] == s[j + 1];
    }
  }

  /** An iteration order of the three-entry filter map: each section once. */
  predicate SectionOrder(order: seq<Section>) {
    |order| == 3 && Metadata in order && Spec in order && Status in order
  }

  /** The filter map `{"metadata": ri.Metadata, "spec": ri.Spec, "status": ri.Status}`
      listed in the iteration order `order`. */
  function Filters(ri: Criteria, order: seq<Section>): (fs: seq<FieldFilter>)
    ensures |fs| == |order|
    ensures forall i :: 0 <= i < |order| ==> fs[i] == (order[i], FilterOf(ri, order[i]))
  {
    seq(|order|, i requires 0 <= i < |order| => (order[i], FilterOf(ri, order[i])))
  }

  /** `ListResources` of pkg/list.go: a failed list call is returned as is;
      a negative threshold is an error with no items; if the age filter
      leaves nothing, field filtering is skipped. */
  function ListResources(listing: Result<seq<Record>, Error>, ri: Criteria, order: seq<Section>): (r: Result<seq<Record>, Error>)
    requires SectionOrder(order)
    ensures listing.Failure? ==> r == Failure(listing.error)
    ensures listing.Success? && ri.minAge < 0.0 ==> r == Failure(NegativeMinAge)
    ensures listing.Success? && ri.minAge >= 0.0 ==> r.Success?
    ensures listing.Success? && ri.minAge >= 0.0 && |InternalFlag.KeepOlder(listing.value, ri.minAge)| == 0 ==>
      r == Success([])
    ensures listing.Success? && ri.minAge >= 0.0 ==>
      var fs := Filters(ri, order);
      var i := FirstActive(fs);
      && IsSubseq(r.value, listing.value)
      && (i < |fs| ==> NoDup(r.value))
      && forall x :: x in r.value <==>
           && x in listing.value
           && (ri.minAge == 0.0 || InternalFlag.OlderThan(x, ri.minAge))
           && (i < |fs| ==> MapIntersection(fs[i].1.value, SectionOf(x, fs[i].0)))
  {
    match listing
    case Failure(e) => Failure(e)
    case Success(items) =>
      match FilterByAge(items, ri.minAge)
      case Failure(e) => Failure(e)
      case Success(aged) =>
        if |aged| != 0 then
          var r := FilterByField(aged, Filters(ri, order));
          SubseqRefl(aged);
          SubseqTrans(r, aged, items);
          Success(r)
        else
          assert aged == [];
          Success(aged)
  }

  /** With all three section filters nil and a zero threshold, the store's
      listing is returned unchanged. */
  lemma NoCriteriaListsEverything(items: seq<Record>, order: seq<Section>)
    requires SectionOrder(order)
    ensures ListResources(Success(items), Criteria(0.0, None, None, None), order) == Success(items)
  {
    var fs := Filters(Criteria(0.0, None, None, None), order);
    assert FirstActive(fs) == |fs|;
  }

  /** With exactly one non-nil section filter and a non-negative threshold,
      whatever the iteration order of the filter map, the result is the
      duplicate-free, order-preserving list of the listed records that pass
      the age test and match that filter. */
  lemma SingleFilterSelection(items: seq<Record>, ri: Criteria, order: seq<Section>, s: Section)
    requires ri.minAge >= 0.0
    requires FilterOf(ri, s).Some?
    requires forall s' :: s' != s ==> FilterOf(ri, s').None?
    requires SectionOrder(order)
    ensures var r := ListResources(Success(items), ri, order);
      && r.Success?
      && NoDup(r.value)
      && IsSubseq(r.value, items)
      && forall x :: x in r.value <==>
           x in items && (ri.minAge == 0.0 || InternalFlag.OlderThan(x, ri.minAge))
           && MapIntersection(FilterOf(ri, s).value, SectionOf(x, s))
  {
    var aged := InternalFlag.KeepOlder(items, ri.minAge);
    var fs := Filters(ri, order);
    var r := ListResources(Success(items), ri, order);
    if |aged| != 0 {
      var i := FirstActive(fs);
      assert i < |fs| by {
        var j :| 0 <= j < |order| && order[j] == s;
        assert fs[j].1.Some?;
      }
      assert fs[i].0 == s;
      SubseqTrans(r.value, aged, items);
    } else {
      assert r.value == [];
    }
  }
}
