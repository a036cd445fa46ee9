/** internal/internal.go: the oldest copy of the pipeline. It filters with the
    list-less `mapIntersectionCheck` (a panic there aborts the whole run,
    modelled as `Failure(UncomparablePanic)`), and `FlagForDeletion` writes
    the marker as an ANNOTATION, always with the value "true". Its
    `filterByAge` is the one of internal/flag/flag.go (`InternalFlag.KeepOlder`). */
module InternalCore {
  import opened Outcomes
  import opened Nodes
  import opened Seqs
  import opened Matcher
  import opened LegacyMatcher
  import opened Records
  import opened Patching
  import InternalFlag

  /** The filter holds no list, so the legacy matcher cannot panic on it. */
  predicate PanicFree(f: Option<Entries>) {
    f.None? || ListFreeEntries(f.value)
  }

  /** The loop of `filterByMetadata` / `filterByStatus` with a non-nil filter. */
  function CheckEach(items: seq<Record>, s: Section, f: Entries): (r: Result<seq<Record>, Error>)
    ensures r.Failure? <==> exists x :: x in items && MapIntersectionCheck(f, SectionOf(x, s)) == None
    ensures r.Failure? ==> r.error == UncomparablePanic
    ensures r.Success? ==>
      && IsSubseq(r.value, items)
      && forall x :: x in r.value <==> x in items && MapIntersectionCheck(f, SectionOf(x, s)) == Some(true)
  {
    if |items| == 0 then Success([])
    else
      assert forall x :: x in items <==> x == items[0] || x in items[1..] by {
        assert items == [items[0]] + items[1..];
      }
      match MapIntersectionCheck(f, SectionOf(items[0], s))
      case None => Failure(UncomparablePanic)
      case Some(keep) =>
        match CheckEach(items[1..], s, f)
        case Failure(e) => Failure(e)
        case Success(rest) =>
          if keep then
            var r := [items[0]] + rest;
            assert r[1..] == rest;
            Success(r)
          else Success(rest)
  }

  /** On a list-free filter the legacy loop selects what the internal/flag
      copy selects. */
  lemma {:induction false} CheckEachAgrees(items: seq<Record>, s: Section, f: Entries)
    ensures ListFreeEntries(f) ==>
      CheckEach(items, s, f) == Success(InternalFlag.FilterBySection(items, s, Some(f)))
  {
    if |items| > 0 && ListFreeEntries(f) {
      ListFreeAgrees(f, SectionOf(items[0], s));
      CheckEachAgrees(items[1..], s, f);
    }
  }

  /** `filterByMetadata` / `filterByStatus` of internal/internal.go. */
  function FilterBySectionChecked(items: seq<Record>, s: Section, f: Option<Entries>): (r: Result<seq<Record>, Error>)
    ensures f.None? ==> r == Success(items)
    ensures r.Failure? ==> r.error == UncomparablePanic
    ensures PanicFree(f) ==> r == Success(InternalFlag.FilterBySection(items, s, f))
  {
    if f.None? then Success(items)
    else
      CheckEachAgrees(items, s, f.value);
      CheckEach(items, s, f.value)
  }

  /** `ListResources` of internal/internal.go: an empty list when the store's
      list call fails, otherwise age, metadata and status filters in turn. */
  function ListResources(listing: Result<seq<Record>, Error>, ri: Criteria): (r: Result<seq<Record>, Error>)
    ensures listing.Failure? ==> r == Success([])
    ensures r.Failure? ==> r.error == UncomparablePanic
    ensures PanicFree(ri.metadata) && PanicFree(ri.status) ==>
      r == Success(InternalFlag.ListResources(listing, ri))
  {
    match listing
    case Failure(_) => Success([])
    case Success(items) =>
      var aged := InternalFlag.KeepOlder(items, ri.minAge);
      match FilterBySectionChecked(aged, Metadata, ri.metadata)
      case Failure(e) => Failure(e)
      case Success(byMeta) => FilterBySectionChecked(byMeta, Status, ri.status)
  }

  /** `resource.Object["metadata"].(map[string]interface{})["namespace"].(string)`
      succeeds: the metadata holds the key, with a string value. A missing
      key yields a nil interface, and the assertion panics. */
  predicate NamespaceReadable(x: Record) {
    var ns := Lookup(MetadataView(x), "namespace");
    ns.Some? && ns.value.Str?
  }

  /** The position of the first selected record whose namespace cannot be
      read, or `|sel|`: exactly the cluster-scoped records. */
  function FirstUnreadable(sel: seq<Record>): (p: nat)
    ensures p <= |sel|
    ensures forall j :: 0 <= j < p ==> NamespaceReadable(sel[j]) && sel[j].namespace != ""
    ensures p < |sel| ==> !NamespaceReadable(sel[p]) && sel[p].namespace == ""
  {
    if |sel| == 0 then 0
    else if !NamespaceReadable(sel[0]) then 0
    else
      var p := 1 + FirstUnreadable(sel[1..]);
      assert forall j :: 1 <= j < |sel| ==> sel[j] == sel[1..][j - 1];
      p
  }

  /** The first failing patch among the first `n` records. */
  lemma FirstFailurePrefix(keys: set<Key>, sel: seq<Record>, n: nat, rejected: set<Key>)
    requires n <= |sel|
    ensures var i := FirstFailure(keys, sel, rejected);
      FirstFailure(keys, sel[..n], rejected) == if i < n then i else n
  {
    var i := FirstFailure(keys, sel, rejected);
    var i' := FirstFailure(keys, sel[..n], rejected);
    assert forall j :: 0 <= j < n ==> sel[..n][j] == sel[j];
    if i < n {
      assert i' <= i;
    }
  }

  /** The first `n` records of a selection are the first `n` of any longer prefix. */
  lemma SelectedBeforePrefix(sel: seq<Record>, p: nat, n: nat, k: Key)
    requires n <= p <= |sel|
    ensures SelectedBefore(sel[..p], n, k) <==> SelectedBefore(sel, n, k)
  {
    if SelectedBefore(sel[..p], n, k) {
      var j :| 0 <= j < n && j < |sel[..p]| && KeyOf(sel[..p][j]) == k;
      assert KeyOf(sel[j]) == k;
    }
    if SelectedBefore(sel, n, k) {
      var j :| 0 <= j < n && j < |sel| && KeyOf(sel[j]) == k;
      assert KeyOf(sel[..p][j]) == k;
    }
  }

  /** The loop of `FlagForDeletion` in internal/internal.go: for each record
      in order, read its namespace with a type assertion (a panic on a
      cluster-scoped record) and patch the annotation; the first failing
      patch or the panic ends the loop. */
  function FlagEach(store: Store, sel: seq<Record>, rejected: set<Key>): (r: StoreOutcome)
    ensures r.store.Keys == store.Keys
    ensures var i := FirstFailure(store.Keys, sel, rejected);
      var p := FirstUnreadable(sel);
      && (r.err.None? <==> i == |sel| && p == |sel|)
      && (i < p ==> r.err == Some(PatchError(store.Keys, KeyOf(sel[i]))))
      && (p <= i && p < |sel| ==> r.err == Some(NamespacePanic))
  {
    var p := FirstUnreadable(sel);
    FirstFailurePrefix(store.Keys, sel, p, rejected);
    var out := PatchEach(store, sel[..p], AnnotationField, "true", rejected);
    if out.err.None? && p < |sel| then StoreOutcome(out.store, Some(NamespacePanic))
    else out
  }

  /** What the loop leaves in the store: the records before the first failing
      patch or unreadable namespace carry the annotation, every other record
      is exactly as it was. */
  lemma FlagEachEffect(store: Store, sel: seq<Record>, rejected: set<Key>)
    ensures var i := FirstFailure(store.Keys, sel, rejected);
      var p := FirstUnreadable(sel);
      var n := if i < p then i else p;
      var r := FlagEach(store, sel, rejected);
      forall k :: k in store ==>
        r.store[k] == if SelectedBefore(sel, n, k) then MarkRecord(store[k], AnnotationField, "true") else store[k]
  {
    var i := FirstFailure(store.Keys, sel, rejected);
    var p := FirstUnreadable(sel);
    var n := if i < p then i else p;
    var r := FlagEach(store, sel, rejected);
    FirstFailurePrefix(store.Keys, sel, p, rejected);
    var out := PatchEach(store, sel[..p], AnnotationField, "true", rejected);
    assert r.store == out.store;
    PatchEachEffect(store, sel[..p], AnnotationField, "true", rejected);
    forall k | k in store
      ensures r.store[k] == if SelectedBefore(sel, n, k) then MarkRecord(store[k], AnnotationField, "true") else store[k]
    {
      SelectedBeforePrefix(sel, p, n, k);
    }
  }

  /** `FlagForDeletion` of internal/internal.go: the annotation loop over the
      listed records. An empty selection is an error and patches nothing,
      and so is a panic while listing. */
  function FlagForDeletion(store: Store, listing: Result<seq<Record>, Error>, ri: Criteria,
                           rejected: set<Key>): (r: StoreOutcome)
    ensures r.store.Keys == store.Keys
    ensures ListResources(listing, ri) == Success([]) ==> r == StoreOutcome(store, Some(NoMatch))
    ensures ListResources(listing, ri).Failure? ==> r == StoreOutcome(store, Some(UncomparablePanic))
    ensures ListResources(listing, ri).Success? && |ListResources(listing, ri).value| > 0 ==>
      var sel := ListResources(listing, ri).value;
      var i := FirstFailure(store.Keys, sel, rejected);
      var p := FirstUnreadable(sel);
      && (r.err.None? <==> i == |sel| && p == |sel|)
      && (i < p ==> r.err == Some(PatchError(store.Keys, KeyOf(sel[i]))))
      && (p <= i && p < |sel| ==> r.err == Some(NamespacePanic))
  {
    match ListResources(listing, ri)
    case Failure(e) => StoreOutcome(store, Some(e))
    case Success(resources) =>
      if |resources| == 0 then StoreOutcome(store, Some(NoMatch))
      else FlagEach(store, resources, rejected)
  }

  /** What `FlagForDeletion` leaves in the store: the listed records before
      the first failing patch or unreadable namespace carry the annotation
      `kln.com/delete: "true"`, every other record is exactly as it was. After
      a successful run that is every listed record, with its other
      annotations and its labels kept. */
  lemma FlagForDeletionEffect(store: Store, listing: Result<seq<Record>, Error>, ri: Criteria, rejected: set<Key>)
    requires ListResources(listing, ri).Success?
    ensures var sel := ListResources(listing, ri).value;
      var i := FirstFailure(store.Keys, sel, rejected);
      var p := FirstUnreadable(sel);
      var n := if i < p then i else p;
      var r := FlagForDeletion(store, listing, ri, rejected);
      forall k :: k in store ==>
        r.store[k] == if SelectedBefore(sel, n, k) then MarkRecord(store[k], AnnotationField, "true") else store[k]
    ensures var sel := ListResources(listing, ri).value;
      var r := FlagForDeletion(store, listing, ri, rejected);
      r.err.None? ==> forall k :: k in store && SelectedBefore(sel, |sel|, k) ==>
        && LabelValue(r.store[k].annotations, DeleteMarker) == Some("true")
        && (forall l :: l != DeleteMarker ==>
              LabelValue(r.store[k].annotations, l) == LabelValue(store[k].annotations, l))
        && r.store[k] == store[k].(annotations := r.store[k].annotations)
  {
    var sel := ListResources(listing, ri).value;
    if |sel| > 0 {
      FlagEachEffect(store, sel, rejected);
    }
  }
}
