/** The loop every `FlagForDeletion` copy runs over its selection: one merge
    patch per record, in selection order, returning on the first error. The
    label-based copies (pkg/flag.go, internal/flag/flag.go) patch
    `metadata.labels`; the copy in internal/internal.go patches
    `metadata.annotations`. */
module Patching {
  import opened Outcomes
  import opened Nodes
  import opened Records

  /** Which string map of the metadata a patch writes. */
  datatype Field = LabelField | AnnotationField

  /** The record after the merge patch `{"metadata":{<field>:{"kln.com/delete": v}}}`. */
  function MarkRecord(r: Record, field: Field, v: string): (m: Record)
    ensures field.LabelField? ==>
      && LabelValue(m.labels, DeleteMarker) == Some(v)
      && (forall k :: k != DeleteMarker ==> LabelValue(m.labels, k) == LabelValue(r.labels, k))
      && m == r.(labels := m.labels)
    ensures field.AnnotationField? ==>
      && LabelValue(m.annotations, DeleteMarker) == Some(v)
      && (forall k :: k != DeleteMarker ==> LabelValue(m.annotations, k) == LabelValue(r.annotations, k))
      && m == r.(annotations := m.annotations)
  {
    match field
    case LabelField => r.(labels := SetLabel(r.labels, DeleteMarker, v))
    case AnnotationField => r.(annotations := SetLabel(r.annotations, DeleteMarker, v))
  }

  /** Marking a record twice with the same value is marking it once. */
  lemma MarkIdempotent(r: Record, field: Field, v: string)
    ensures MarkRecord(MarkRecord(r, field, v), field, v) == MarkRecord(r, field, v)
  {
    match field
    case LabelField => SetLabelIdempotent(r.labels, DeleteMarker, v);
    case AnnotationField => SetLabelIdempotent(r.annotations, DeleteMarker, v);
  }

  /** The value `FlagForDeletion` writes: "false" to undo a mark, "true" otherwise. */
  function MarkerValue(undoSwitch: bool): (v: string)
    ensures v == "false" <==> undoSwitch
    ensures v == "true" <==> !undoSwitch
  {
    if undoSwitch then "false" else "true"
  }

  /** The store refuses a patch of `key`: the record is gone, or the store
      reports a conflict or transport failure for it (the set `rejected`). */
  predicate PatchFails(keys: set<Key>, key: Key, rejected: set<Key>) {
    key !in keys || key in rejected
  }

  function PatchError(keys: set<Key>, key: Key): Error {
    if key !in keys then NotFound(key) else Rejected(key)
  }

  /** One `Patch` call of the dynamic client. */
  function Patch(store: Store, key: Key, field: Field, v: string, rejected: set<Key>): (r: Result<Store, Error>)
    ensures r.Success? <==> !PatchFails(store.Keys, key, rejected)
    ensures r.Success? ==> r.value == store[key := MarkRecord(store[key], field, v)]
    ensures r.Failure? ==> r.error == PatchError(store.Keys, key)
  {
    if key !in store then Failure(NotFound(key))
    else if key in rejected then Failure(Rejected(key))
    else Success(store[key := MarkRecord(store[key], field, v)])
  }

  /** `k` is the key of one of the first `i` selected records. */
  predicate SelectedBefore(sel: seq<Record>, i: nat, k: Key) {
    exists j :: 0 <= j < i && j < |sel| && KeyOf(sel[j]) == k
  }

  /** The position of the first selected record whose patch fails, or `|sel|`.
      Patches never add or remove records, so this depends only on the keys
      present before the loop. */
  function FirstFailure(keys: set<Key>, sel: seq<Record>, rejected: set<Key>): (i: nat)
    ensures i <= |sel|
    ensures forall j :: 0 <= j < i ==> !PatchFails(keys, KeyOf(sel[j]), rejected)
    ensures i < |sel| ==> PatchFails(keys, KeyOf(sel[i]), rejected)
  {
    if |sel| == 0 then 0
    else if PatchFails(keys, KeyOf(sel[0]), rejected) then 0
    else
      var i := 1 + FirstFailure(keys, sel[1..], rejected);
      assert forall j :: 1 <= j < |sel| ==> sel[j] == sel[1..][j - 1];
      i
  }

  /** Shifting the selection by one record. */
  lemma SelectedBeforeShift(sel: seq<Record>, i: nat, k: Key)
    requires 0 < i <= |sel|
    ensures SelectedBefore(sel, i, k) <==> k == KeyOf(sel[0]) || SelectedBefore(sel[1..], i - 1, k)
  {
    if SelectedBefore(sel[1..], i - 1, k) {
      var j :| 0 <= j < i - 1 && j < |sel[1..]| && KeyOf(sel[1..][j]) == k;
      assert KeyOf(sel[j + 1]) == k;
    }
    if SelectedBefore(sel, i, k) && k != KeyOf(sel[0]) {
      var j :| 0 <= j < i && j < |sel| && KeyOf(sel[j]) == k;
      assert j > 0;
      assert KeyOf(sel[1..][j - 1]) == k;
    }
  }

  /** The patch loop: on the first failing patch it returns that error and
      attempts nothing further; patches never add or remove records. */
  function PatchEach(store: Store, sel: seq<Record>, field: Field, v: string, rejected: set<Key>): (r: StoreOutcome)
    ensures r.store.Keys == store.Keys
    ensures var i := FirstFailure(store.Keys, sel, rejected);
      && (r.err.None? <==> i == |sel|)
      && (i < |sel| ==> r.err == Some(PatchError(store.Keys, KeyOf(sel[i]))))
  {
    if |sel| == 0 then StoreOutcome(store, None)
    else
      var key := KeyOf(sel[0]);
      match Patch(store, key, field, v, rejected)
      case Failure(e) => StoreOutcome(store, Some(e))
      case Success(store') =>
        assert forall j :: 1 <= j < |sel| ==> sel[j] == sel[1..][j - 1];
        PatchEach(store', sel[1..], field, v, rejected)
  }

  /** What the patch loop leaves in the store: the records selected before the
      first failure are marked (once, however often they were selected), and
      every other record, including the failing one and all later ones, is
      exactly as it was. */
  lemma {:induction false} PatchEachEffect(store: Store, sel: seq<Record>, field: Field, v: string, rejected: set<Key>)
    ensures var r := PatchEach(store, sel, field, v, rejected);
      var i := FirstFailure(store.Keys, sel, rejected);
      forall k :: k in store ==>
        r.store[k] == if SelectedBefore(sel, i, k) then MarkRecord(store[k], field, v) else store[k]
  {
    var r := PatchEach(store, sel, field, v, rejected);
    var i := FirstFailure(store.Keys, sel, rejected);
    if |sel| > 0 && i > 0 {
      var key := KeyOf(sel[0]);
      var store' := store[key := MarkRecord(store[key], field, v)];
      assert store'.Keys == store.Keys;
      assert r == PatchEach(store', sel[1..], field, v, rejected);
      assert FirstFailure(store'.Keys, sel[1..], rejected) == i - 1;
      PatchEachEffect(store', sel[1..], field, v, rejected);
      forall k | k in store
        ensures r.store[k] == if SelectedBefore(sel, i, k) then MarkRecord(store[k], field, v) else store[k]
      {
        SelectedBeforeShift(sel, i, k);
        if k == key {
          MarkIdempotent(store[key], field, v);
        }
      }
    }
  }

  /** `PatchEachEffect` at one key. */
  lemma PatchEachEffectAt(store: Store, sel: seq<Record>, field: Field, v: string, rejected: set<Key>, k: Key)
    requires k in store
    ensures PatchEach(store, sel, field, v, rejected).store[k]
      == if SelectedBefore(sel, FirstFailure(store.Keys, sel, rejected), k) then MarkRecord(store[k], field, v) else store[k]
  {
    PatchEachEffect(store, sel, field, v, rejected);
  }

  /** Running the patch loop a second time with the same selection and value
      after a successful run changes nothing. */
  lemma PatchEachIdempotent(store: Store, sel: seq<Record>, field: Field, v: string, rejected: set<Key>)
    requires PatchEach(store, sel, field, v, rejected).err.None?
    ensures var once := PatchEach(store, sel, field, v, rejected);
      PatchEach(once.store, sel, field, v, rejected) == once
  {
    var once := PatchEach(store, sel, field, v, rejected);
    var twice := PatchEach(once.store, sel, field, v, rejected);
    assert FirstFailure(once.store.Keys, sel, rejected) == |sel|;
    forall k | k in store
      ensures twice.store[k] == once.store[k]
    {
      PatchEachEffectAt(store, sel, field, v, rejected, k);
      PatchEachEffectAt(once.store, sel, field, v, rejected, k);
      if SelectedBefore(sel, |sel|, k) {
        MarkIdempotent(store[k], field, v);
      }
    }
    assert twice.store == once.store;
  }
}
