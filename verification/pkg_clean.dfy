/** pkg/clean.go: `DeleteResources`, the sweep that deletes every record of
    one resource type whose `kln.com/delete` label is exactly "true". */
module PkgClean {
  import opened Outcomes
  import opened Seqs
  import opened Records

  /** A resource type of the cluster API: group, version and plural name. */
  datatype Gvr = Gvr(group: string, version: string, resource: string)

  /** Every resource type the API serves, each with its records. */
  type Cluster = map<Gvr, Store>

  datatype ClusterOutcome = ClusterOutcome(cluster: Cluster, err: Option<Error>)

  /** The label selector `kln.com/delete=true`. */
  predicate MarkedTrue(r: Record) {
    LabelValue(r.labels, DeleteMarker) == Some("true")
  }

  /** The listing with that selector, in the order the API returns the keys
      (`order`). */
  function Candidates(store: Store, order: seq<Key>): (c: seq<Key>)
    ensures forall k :: k in c <==> k in order && k in store && MarkedTrue(store[k])
    ensures IsSubseq(c, order)
  {
    Filter(order, (k: Key) => k in store && MarkedTrue(store[k]))
  }

  /** One delete call: it fails when the record is gone or the API refuses it
      (the keys in `rejected`). */
  function Delete(store: Store, key: Key, rejected: set<Key>): (r: Result<Store, Error>)
    ensures r.Success? <==> key in store && key !in rejected
    ensures r.Success? ==> r.value.Keys == store.Keys - {key}
    ensures r.Success? ==> forall k :: k in r.value ==> r.value[k] == store[k]
    ensures r.Failure? ==> r.error == (if key in store then Rejected(key) else NotFound(key))
  {
    if key !in store then Failure(NotFound(key))
    else if key in rejected then Failure(Rejected(key))
    else Success(store - {key})
  }

  function KeySet(s: seq<Key>): set<Key> {
    set k | k in s
  }

  /** The `j`-th candidate can be deleted: it was present at the start, the
      API accepts it, and no earlier candidate was the same record. */
  predicate Deletable(keys: set<Key>, cands: seq<Key>, j: nat, rejected: set<Key>)
    requires j < |cands|
  {
    cands[j] in keys && cands[j] !in rejected && cands[j] !in cands[..j]
  }

  lemma DeletableShift(keys: set<Key>, cands: seq<Key>, j: nat, rejected: set<Key>)
    requires 1 <= j < |cands|
    ensures Deletable(keys, cands, j, rejected) <==> Deletable(keys - {cands[0]}, cands[1..], j - 1, rejected)
  {
    assert cands[..j] == [cands[0]] + cands[1..][..j - 1];
  }

  /** The position of the first candidate whose delete fails, or `|cands|`. */
  function FirstDeleteFailure(keys: set<Key>, cands: seq<Key>, rejected: set<Key>): (i: nat)
    ensures i <= |cands|
    ensures forall j :: 0 <= j < i ==> Deletable(keys, cands, j, rejected)
    ensures i < |cands| ==> !Deletable(keys, cands, i, rejected)
  {
    if |cands| == 0 then 0
    else if !Deletable(keys, cands, 0, rejected) then 0
    else
      var i := 1 + FirstDeleteFailure(keys - {cands[0]}, cands[1..], rejected);
      assert forall j :: 1 <= j < |cands| ==>
        (Deletable(keys, cands, j, rejected) <==> Deletable(keys - {cands[0]}, cands[1..], j - 1, rejected)) by {
        forall j | 1 <= j < |cands|
          ensures Deletable(keys, cands, j, rejected) <==> Deletable(keys - {cands[0]}, cands[1..], j - 1, rejected)
        {
          DeletableShift(keys, cands, j, rejected);
        }
      }
      i
  }

  /** The delete loop: candidates are deleted in order and the first failing
      delete ends the sweep with its error, leaving that candidate and every
      later one in place. */
  function DeleteEach(store: Store, cands: seq<Key>, rejected: set<Key>): (r: StoreOutcome)
    ensures var i := FirstDeleteFailure(store.Keys, cands, rejected);
      && (r.err.None? <==> i == |cands|)
      && (i < |cands| ==> r.err == Some(
            if cands[i] in store && cands[i] !in cands[..i] then Rejected(cands[i]) else NotFound(cands[i])))
      && r.store == store - KeySet(cands[..i])
  {
    if |cands| == 0 then StoreOutcome(store, None)
    else
      match Delete(store, cands[0], rejected)
      case Failure(e) => StoreOutcome(store, Some(e))
      case Success(store') =>
        var r := DeleteEach(store', cands[1..], rejected);
        ghost var i' := FirstDeleteFailure(store'.Keys, cands[1..], rejected);
        assert store' == store - {cands[0]};
        assert cands[..i' + 1] == [cands[0]] + cands[1..][..i'];
        assert KeySet(cands[..i' + 1]) == {cands[0]} + KeySet(cands[1..][..i']);
        r
  }

  /** `DeleteResources`: list the records of `gvr` marked "true" and delete
      them one by one, stopping at the first error. Other resource types are
      never touched, and neither is a record not marked "true". */
  function DeleteResources(cluster: Cluster, gvr: Gvr, order: seq<Key>, rejected: set<Key>): (r: ClusterOutcome)
    requires gvr in cluster
    ensures r.cluster.Keys == cluster.Keys
    ensures forall g :: g in cluster && g != gvr ==> r.cluster[g] == cluster[g]
    ensures var cands := Candidates(cluster[gvr], order);
      var i := FirstDeleteFailure(cluster[gvr].Keys, cands, rejected);
      && (|cands| == 0 ==> r == ClusterOutcome(cluster, None))
      && (r.err.None? <==> i == |cands|)
      && r.cluster[gvr] == cluster[gvr] - KeySet(cands[..i])
    ensures forall k :: k in cluster[gvr] && !MarkedTrue(cluster[gvr][k]) ==>
      k in r.cluster[gvr] && r.cluster[gvr][k] == cluster[gvr][k]
  {
    var store := cluster[gvr];
    var d := DeleteEach(store, Candidates(store, order), rejected);
    ClusterOutcome(cluster[gvr := d.store], d.err)
  }

  /** The records of `store` not marked "true". */
  function Unmarked(store: Store): (u: Store)
    ensures forall k :: k in u <==> k in store && !MarkedTrue(store[k])
  {
    map k | k in store && !MarkedTrue(store[k]) :: store[k]
  }

  lemma RemoveMarked(store: Store, gone: set<Key>)
    requires forall k :: k in gone <==> k in store && MarkedTrue(store[k])
    ensures store - gone == Unmarked(store)
  {
    var left := store - gone;
    assert left.Keys == Unmarked(store).Keys;
  }

  /** A listing without repeats whose marked records the API all accepts is
      swept without error. */
  lemma SweepSucceeds(cluster: Cluster, gvr: Gvr, order: seq<Key>, rejected: set<Key>)
    requires gvr in cluster
    requires NoDup(order)
    requires forall k :: k in cluster[gvr] && MarkedTrue(cluster[gvr][k]) ==> k !in rejected
    ensures DeleteResources(cluster, gvr, order, rejected).err.None?
  {
    var store := cluster[gvr];
    var cands := Candidates(store, order);
    FilterNoDup(order, (k: Key) => k in store && MarkedTrue(store[k]));
  }

  /** A sweep over a listing that covers the resource type without repeats,
      whose marked records the API all accepts, succeeds and leaves exactly
      the records not marked "true", each as it was. */
  lemma SweepRemovesExactlyMarked(cluster: Cluster, gvr: Gvr, order: seq<Key>, rejected: set<Key>)
    requires gvr in cluster
    requires NoDup(order)
    requires forall k :: k in cluster[gvr] ==> k in order
    requires forall k :: k in cluster[gvr] && MarkedTrue(cluster[gvr][k]) ==> k !in rejected
    ensures var r := DeleteResources(cluster, gvr, order, rejected);
      r.err.None? && r.cluster[gvr] == Unmarked(cluster[gvr])
  {
    SweepSucceeds(cluster, gvr, order, rejected);
    var store := cluster[gvr];
    var cands := Candidates(store, order);
    assert cands[..|cands|] == cands;
    RemoveMarked(store, KeySet(cands));
  }
}
