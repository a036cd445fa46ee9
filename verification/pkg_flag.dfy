/** pkg/flag.go: `FlagForDeletion` with its undo switch. Its call
    `resources := ListResources(client, ri)` takes one result from a function
    that returns two (pkg/list.go:13), so the file does not compile as
    written; the model takes the selected records as its input. */
module PkgFlag {
  import opened Outcomes
  import opened Records
  import opened Patching

  /** An empty selection is an error and patches nothing; otherwise each
      selected record is labelled in order and the first failing patch ends
      the loop with its error. */
  function FlagForDeletion(store: Store, resources: seq<Record>, undoSwitch: bool, rejected: set<Key>): (r: StoreOutcome)
    ensures |resources| == 0 ==> r == StoreOutcome(store, Some(NoMatch))
    ensures r.store.Keys == store.Keys
    ensures |resources| > 0 ==>
      var i := FirstFailure(store.Keys, resources, rejected);
      && (r.err.None? <==> i == |resources|)
      && (i < |resources| ==> r.err == Some(PatchError(store.Keys, KeyOf(resources[i]))))
  {
    if |resources| == 0 then StoreOutcome(store, Some(NoMatch))
    else PatchEach(store, resources, LabelField, MarkerValue(undoSwitch), rejected)
  }

  /** Records outside the selection are never patched. Records selected
      before the first failure end with `kln.com/delete` at the desired
      value whatever it was before, keep every other label (such as
      `foo=bar`) and every other field; the failing record and the ones
      after it are untouched. */
  lemma FlagForDeletionEffect(store: Store, resources: seq<Record>, undoSwitch: bool, rejected: set<Key>)
    ensures var r := FlagForDeletion(store, resources, undoSwitch, rejected);
      var i := FirstFailure(store.Keys, resources, rejected);
      && (forall k :: k in store && !SelectedBefore(resources, |resources|, k) ==> r.store[k] == store[k])
      && (|resources| > 0 ==> forall k :: k in store && SelectedBefore(resources, i, k) ==>
            && LabelValue(r.store[k].labels, DeleteMarker) == Some(MarkerValue(undoSwitch))
            && (forall l :: l != DeleteMarker ==> LabelValue(r.store[k].labels, l) == LabelValue(store[k].labels, l))
            && r.store[k] == store[k].(labels := r.store[k].labels))
      && (|resources| > 0 ==> forall k :: k in store && !SelectedBefore(resources, i, k) ==> r.store[k] == store[k])
  {
    if |resources| > 0 {
      PatchEachEffect(store, resources, LabelField, MarkerValue(undoSwitch), rejected);
      var i := FirstFailure(store.Keys, resources, rejected);
      forall k | k in store && !SelectedBefore(resources, |resources|, k)
        ensures !SelectedBefore(resources, i, k)
      {
      }
    }
  }

  /** Flagging twice with the same switch leaves the store as flagging once. */
  lemma FlagForDeletionIdempotent(store: Store, resources: seq<Record>, undoSwitch: bool, rejected: set<Key>)
    requires FlagForDeletion(store, resources, undoSwitch, rejected).err.None?
    ensures var once := FlagForDeletion(store, resources, undoSwitch, rejected);
      FlagForDeletion(once.store, resources, undoSwitch, rejected) == once
  {
    PatchEachIdempotent(store, resources, LabelField, MarkerValue(undoSwitch), rejected);
  }
}
