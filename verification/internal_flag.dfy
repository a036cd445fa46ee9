/** internal/flag/flag.go: the label-based selection pipeline and
    `FlagForDeletion` with its undo switch. The same `filterByAge` is also
    written out in internal/internal.go:60-75; `KeepOlder` models both. */
module InternalFlag {
  import opened Outcomes
  import opened Nodes
  import opened Seqs
  import opened Matcher
  import opened Records
  import opened Patching

  /** `age.Hours() > minAgeFilter`, with the age supplied instead of computed from a clock. */
  predicate OlderThan(r: Record, minAge: real) {
    r.ageHours > minAge
  }

  /** `filterByAge`: a zero threshold is "no age filter"; any other threshold
      (negative ones included) keeps exactly the strictly older records. */
  function KeepOlder(items: seq<Record>, minAge: real): (r: seq<Record>)
    ensures minAge == 0.0 ==> r == items
    ensures minAge != 0.0 ==> forall x :: x in r <==> x in items && OlderThan(x, minAge)
    ensures IsSubseq(r, items)
  {
    if minAge == 0.0 then
      SubseqRefl(items);
      items
    else Filter(items, (x: Record) => OlderThan(x, minAge))
  }

  /** An absent (nil) filter matches every section; a present one must be
      contained in it. */
  predicate SectionMatches(f: Option<Entries>, target: Entries) {
    f.None? || MapIntersection(f.value, target)
  }

  /** `filterByMetadata` and `filterByStatus`: a nil filter returns the input
      itself; otherwise the records whose section matches, in order. */
  function FilterBySection(items: seq<Record>, s: Section, f: Option<Entries>): (r: seq<Record>)
    ensures f.None? ==> r == items
    ensures forall x :: x in r <==> x in items && SectionMatches(f, SectionOf(x, s))
    ensures IsSubseq(r, items)
  {
    if f.None? then
      SubseqRefl(items);
      items
    else Filter(items, (x: Record) => MapIntersection(f.value, SectionOf(x, s)))
  }

  /** The conjunction a record must satisfy to be listed. The spec filter is
      not part of it. */
  predicate Selects(ri: Criteria, x: Record) {
    && (ri.minAge == 0.0 || OlderThan(x, ri.minAge))
    && SectionMatches(ri.metadata, MetadataView(x))
    && SectionMatches(ri.status, x.status)
  }

  /** `ListResources`: `listing` is the store's answer to the list call. A
      failed list gives an empty result; otherwise age, then metadata, then
      status filters are applied. */
  function ListResources(listing: Result<seq<Record>, Error>, ri: Criteria): (r: seq<Record>)
    ensures listing.Failure? ==> r == []
    ensures listing.Success? ==> IsSubseq(r, listing.value)
  {
    match listing
    case Failure(_) => []
    case Success(items) =>
      var aged := KeepOlder(items, ri.minAge);
      var byMeta := FilterBySection(aged, Metadata, ri.metadata);
      var r := FilterBySection(byMeta, Status, ri.status);
      SubseqTrans(byMeta, aged, items);
      SubseqTrans(r, byMeta, items);
      r
  }

  /** The age test of `filterByAge` as a predicate on records. */
  function AgeTest(minAge: real): Record -> bool {
    (x: Record) => minAge == 0.0 || OlderThan(x, minAge)
  }

  /** The section test of `filterByMetadata` / `filterByStatus` as a predicate on records. */
  function SectionTest(s: Section, f: Option<Entries>): Record -> bool {
    (x: Record) => SectionMatches(f, SectionOf(x, s))
  }

  lemma KeepOlderIsFilter(items: seq<Record>, minAge: real)
    ensures KeepOlder(items, minAge) == Filter(items, AgeTest(minAge))
  {
    if minAge == 0.0 {
      FilterKeepsAll(items, AgeTest(minAge));
    } else {
      FilterAgree(items, AgeTest(minAge), (x: Record) => OlderThan(x, minAge));
    }
  }

  lemma FilterBySectionIsFilter(items: seq<Record>, s: Section, f: Option<Entries>)
    ensures FilterBySection(items, s, f) == Filter(items, SectionTest(s, f))
  {
    if f.None? {
      FilterKeepsAll(items, SectionTest(s, f));
    } else {
      FilterAgree(items, SectionTest(s, f), (x: Record) => MapIntersection(f.value, SectionOf(x, s)));
    }
  }

  /** The listing as three filters in turn. */
  lemma ListResourcesStages(items: seq<Record>, ri: Criteria)
    ensures ListResources(Success(items), ri) ==
      Filter(Filter(Filter(items, AgeTest(ri.minAge)), SectionTest(Metadata, ri.metadata)), SectionTest(Status, ri.status))
  {
    var aged := KeepOlder(items, ri.minAge);
    var byMeta := FilterBySection(aged, Metadata, ri.metadata);
    KeepOlderIsFilter(items, ri.minAge);
    FilterBySectionIsFilter(aged, Metadata, ri.metadata);
    FilterBySectionIsFilter(byMeta, Status, ri.status);
  }

  /** `Selects` is the conjunction of the three stage tests. */
  lemma SelectsIsConj(ri: Criteria, x: Record)
    ensures Selects(ri, x) == (AgeTest(ri.minAge)(x) && SectionTest(Metadata, ri.metadata)(x) && SectionTest(Status, ri.status)(x))
  {
  }

  /** The listed records are exactly the listed items satisfying age AND
      metadata AND status, in the store's order; the spec filter is ignored. */
  lemma ListResourcesIsConjunction(items: seq<Record>, ri: Criteria, spec: Option<Entries>)
    ensures ListResources(Success(items), ri) == Filter(items, (x: Record) => Selects(ri, x))
    ensures ListResources(Success(items), ri.(spec := spec)) == ListResources(Success(items), ri)
  {
    var age := AgeTest(ri.minAge);
    var meta := SectionTest(Metadata, ri.metadata);
    var status := SectionTest(Status, ri.status);
    var ageMeta := (x: Record) => age(x) && meta(x);
    var sel := (x: Record) => Selects(ri, x);
    ListResourcesStages(items, ri);
    FilterConj(items, age, meta, ageMeta);
    forall x ensures sel(x) == (ageMeta(x) && status(x)) {
      SelectsIsConj(ri, x);
    }
    FilterConj(items, ageMeta, status, sel);
    ListResourcesStages(items, ri.(spec := spec));
  }

  /** `FlagForDeletion`: list, then label each listed record in order. An
      empty selection is an error and patches nothing; otherwise the result
      is that of the patch loop, which stops at the first failing patch. */
  function FlagForDeletion(store: Store, listing: Result<seq<Record>, Error>, ri: Criteria,
                           undoSwitch: bool, rejected: set<Key>): (r: StoreOutcome)
    ensures var sel := ListResources(listing, ri);
      && (|sel| == 0 ==> r == StoreOutcome(store, Some(NoMatch)))
      && (|sel| > 0 ==>
            var i := FirstFailure(store.Keys, sel, rejected);
            && (r.err.None? <==> i == |sel|)
            && (i < |sel| ==> r.err == Some(PatchError(store.Keys, KeyOf(sel[i])))))
    ensures r.store.Keys == store.Keys
  {
    var resources := ListResources(listing, ri);
    if |resources| == 0 then StoreOutcome(store, Some(NoMatch))
    else PatchEach(store, resources, LabelField, MarkerValue(undoSwitch), rejected)
  }

  /** After `FlagForDeletion`, records outside the selection are unchanged.
      The selected records before the first failing patch carry
      `kln.com/delete` with the desired value and keep all their other labels
      and fields; the failing record and the later ones are never tried and
      stay as they were. After a success that is every selected record. */
  lemma FlagForDeletionEffect(store: Store, listing: Result<seq<Record>, Error>, ri: Criteria,
                              undoSwitch: bool, rejected: set<Key>)
    ensures var sel := ListResources(listing, ri);
      var r := FlagForDeletion(store, listing, ri, undoSwitch, rejected);
      var i := FirstFailure(store.Keys, sel, rejected);
      && (forall k :: k in store && !SelectedBefore(sel, |sel|, k) ==> r.store[k] == store[k])
      && (|sel| > 0 ==> forall k :: k in store && SelectedBefore(sel, i, k) ==>
            && LabelValue(r.store[k].labels, DeleteMarker) == Some(MarkerValue(undoSwitch))
            && (forall l :: l != DeleteMarker ==> LabelValue(r.store[k].labels, l) == LabelValue(store[k].labels, l))
            && r.store[k] == store[k].(labels := r.store[k].labels))
      && (|sel| > 0 ==> forall k :: k in store && !SelectedBefore(sel, i, k) ==> r.store[k] == store[k])
      && (r.err.None? ==> forall k :: k in store && SelectedBefore(sel, |sel|, k) ==>
            LabelValue(r.store[k].labels, DeleteMarker) == Some(MarkerValue(undoSwitch)))
  {
    var sel := ListResources(listing, ri);
    if |sel| > 0 {
      PatchEachEffect(store, sel, LabelField, MarkerValue(undoSwitch), rejected);
      var i := FirstFailure(store.Keys, sel, rejected);
      forall k | k in store && !SelectedBefore(sel, |sel|, k)
        ensures !SelectedBefore(sel, i, k)
      {
      }
    }
  }
}
