/** Concrete evaluations of the model on the fixtures the repository's tests use:
    three records of one resource type created 10, 40 and 70 minutes ago. */
module Scenarios {
  import opened Outcomes
  import opened Nodes
  import opened Records
  import InternalFlag
  import InternalCore
  import PkgFlag
  import PkgClean
  import Patching
  import Matcher
  import opened Seqs

  const Status1: Entries := [("foo", Str("bar")), ("tomato", Str("potato"))]
  const Status2: Entries := [
    ("foo", Str("bar")),
    ("status", Obj([("baz", Obj([("deep", Str("nest"))])), ("tomato", Str("potato"))]))]
  const Status3: Entries := [("foo", Str("notBar")), ("status", Obj([("baz", Str("fail"))]))]

  function Fixture(ns: string, name: string, minutes: real, status: Entries): Record {
    Record(ns, name, minutes / 60.0, [], [], [], [], status)
  }

  const R1: Record := Fixture("ns", "name1", 10.0, Status1)
  const R2: Record := Fixture("ns", "name2", 40.0, Status2)
  const R3: Record := Fixture("ns3", "name3", 70.0, Status3)
  const All: seq<Record> := [R1, R2, R3]

  function Run(ri: Criteria): seq<Record> {
    InternalFlag.ListResources(Success(All), ri)
  }

  const NoCriteria: Criteria := Criteria(0.0, None, None, None)

  lemma FilterOne<T(!new)>(c: T, p: T -> bool)
    ensures Filter([c], p) == (if p(c) then [c] else [])
  {
    assert [c][1..] == [];
  }
  lemma FilterTwo<T(!new)>(b: T, c: T, p: T -> bool)
    ensures Filter([b, c], p) == (if p(b) then [b] else []) + (if p(c) then [c] else [])
  {
    FilterOne(c, p);
    assert [b, c][1..] == [c];
  }
  lemma FilterThree<T(!new)>(a: T, b: T, c: T, p: T -> bool)
    ensures Filter([a, b, c], p) == (if p(a) then [a] else []) + (if p(b) then [b] else []) + (if p(c) then [c] else [])
  {
    FilterTwo(b, c, p);
    assert [a, b, c][1..] == [b, c];
  }

  /** A one-entry scalar filter asks for that exact value under that key. */
  lemma ScalarKey(k: string, v: Node, b: Entries)
    requires IsScalar(v)
    ensures Matcher.MapIntersection([(k, v)], b) <==> Lookup(b, k) == Some(v)
  {
    Matcher.AllScalarFilterIff([(k, v)], b);
  }

  /** A one-entry nested filter descends into the map under that key. */
  lemma NestedKey(k: string, x: Entries, b: Entries)
    ensures Matcher.MapIntersection([(k, Obj(x))], b) <==>
      Lookup(b, k).Some? && Lookup(b, k).value.Obj? && Matcher.MapIntersection(x, Lookup(b, k).value.entries)
  {
    if Lookup(b, k).Some? && Lookup(b, k).value.Obj? {
      Matcher.NestedMapDecides([(k, Obj(x))], b, 0, []);
    }
  }

  /** On the three fixtures a listing keeps exactly the records the
      criteria select, in creation order. */
  lemma RunThree(ri: Criteria)
    ensures Run(ri) ==
      (if InternalFlag.Selects(ri, R1) then [R1] else [])
      + (if InternalFlag.Selects(ri, R2) then [R2] else [])
      + (if InternalFlag.Selects(ri, R3) then [R3] else [])
  {
    InternalFlag.ListResourcesIsConjunction(All, ri, None);
    FilterThree(R1, R2, R3, (x: Record) => InternalFlag.Selects(ri, x));
  }

  /** A half-hour threshold keeps the two older records. */
  lemma HalfHour()
    ensures Run(NoCriteria.(minAge := 0.5)) == [R2, R3]
  {
    var ri := NoCriteria.(minAge := 0.5);
    RunThree(ri);
    assert !InternalFlag.Selects(ri, R1);
  }

  /** No criteria keep everything; an hour and a half keeps nothing. */
  lemma AgeBounds()
    ensures Run(NoCriteria) == All
    ensures Run(NoCriteria.(minAge := 1.5)) == []
  {
    RunThree(NoCriteria);
    RunThree(NoCriteria.(minAge := 1.5));
  }

  const ByNamespace: Criteria := NoCriteria.(metadata := Some([("namespace", Str("ns"))]))

  lemma ByNamespaceSelects()
    ensures InternalFlag.Selects(ByNamespace, R1)
    ensures InternalFlag.Selects(ByNamespace, R2)
    ensures !InternalFlag.Selects(ByNamespace, R3)
  {
    ScalarKey("namespace", Str("ns"), MetadataView(R1));
    ScalarKey("namespace", Str("ns"), MetadataView(R2));
    ScalarKey("namespace", Str("ns"), MetadataView(R3));
  }

  /** A namespace filter keeps the two records of namespace `ns`. */
  lemma NamespaceFilter()
    ensures Run(ByNamespace) == [R1, R2]
  {
    RunThree(ByNamespace);
    ByNamespaceSelects();
  }

  /** A name no record carries selects nothing. */
  lemma UnknownNameFilter()
    ensures Run(NoCriteria.(metadata := Some([("namespace", Str("ns")), ("name", Str("fake"))]))) == []
  {
    var ri := NoCriteria.(metadata := Some([("namespace", Str("ns")), ("name", Str("fake"))]));
    RunThree(ri);
    assert !InternalFlag.Selects(ri, R1);
    assert !InternalFlag.Selects(ri, R2);
    assert !InternalFlag.Selects(ri, R3);
  }

  /** A resource type with no objects lists nothing, and so does one the
      store cannot list. */
  lemma UnknownResourceType()
    ensures InternalFlag.ListResources(Success([]), NoCriteria) == []
    ensures InternalFlag.ListResources(Failure(ListFailed("the server could not find the requested resource")), NoCriteria) == []
  {
    assert Filter([], (x: Record) => InternalFlag.Selects(NoCriteria, x)) == [];
    InternalFlag.ListResourcesIsConjunction([], NoCriteria, None);
  }

  const OldUnknown: Criteria := NoCriteria.(minAge := 0.5, metadata := Some([("name", Str("fake"))]))

  /** The records old enough carry other names, so nothing is selected. */
  lemma OldUnknownName()
    ensures Run(OldUnknown) == []
  {
    RunThree(OldUnknown);
    assert !InternalFlag.Selects(OldUnknown, R1);
    ScalarKey("name", Str("fake"), MetadataView(R2));
    ScalarKey("name", Str("fake"), MetadataView(R3));
  }

  /** A cluster-scoped record: its metadata has no "namespace" key. */
  const Node1: Record := Fixture("", "node1", 10.0, Status1)

  /** Asking for the empty namespace does not select a cluster-scoped record,
      and the annotation copy of `FlagForDeletion` panics on its namespace. */
  lemma ClusterScopedRecord()
    ensures !InternalFlag.Selects(NoCriteria.(metadata := Some([("namespace", Str(""))])), Node1)
    ensures InternalCore.FlagEach(map[KeyOf(Node1) := Node1], [Node1], {})
      == StoreOutcome(map[KeyOf(Node1) := Node1], Some(NamespacePanic))
  {
    ScalarKey("namespace", Str(""), MetadataView(Node1));
    assert InternalCore.FirstUnreadable([Node1]) == 0;
    assert [Node1][..0] == [];
  }

  const OldInNamespace: Criteria := ByNamespace.(minAge := 0.5)

  lemma OldInNamespaceSelects()
    ensures !InternalFlag.Selects(OldInNamespace, R1)
    ensures InternalFlag.Selects(OldInNamespace, R2)
    ensures !InternalFlag.Selects(OldInNamespace, R3)
  {
    ScalarKey("namespace", Str("ns"), MetadataView(R2));
    ScalarKey("namespace", Str("ns"), MetadataView(R3));
  }

  /** Age and namespace together keep only the older record of `ns`. */
  lemma AgeAndNamespace()
    ensures Run(OldInNamespace) == [R2]
  {
    RunThree(OldInNamespace);
    OldInNamespaceSelects();
  }

  const FooBar: Criteria := NoCriteria.(status := Some([("foo", Str("bar"))]))
  const Tomato: Criteria := NoCriteria.(status := Some([("tomato", Str("potato"))]))

  lemma FlatStatusSelects()
    ensures InternalFlag.Selects(FooBar, R1) && InternalFlag.Selects(FooBar, R2)
    ensures !InternalFlag.Selects(FooBar, R3)
    ensures InternalFlag.Selects(Tomato, R1)
    ensures !InternalFlag.Selects(Tomato, R2) && !InternalFlag.Selects(Tomato, R3)
  {
    ScalarKey("foo", Str("bar"), Status1);
    ScalarKey("foo", Str("bar"), Status2);
    ScalarKey("foo", Str("bar"), Status3);
    ScalarKey("tomato", Str("potato"), Status1);
    ScalarKey("tomato", Str("potato"), Status2);
    ScalarKey("tomato", Str("potato"), Status3);
  }

  /** A flat status filter compares top-level status fields only. */
  lemma FooBarFilter()
    ensures Run(FooBar) == [R1, R2]
  {
    RunThree(FooBar);
    FlatStatusSelects();
  }

  /** `tomato` sits at the top of the first status but nested in the second. */
  lemma TomatoFilter()
    ensures Run(Tomato) == [R1]
  {
    RunThree(Tomato);
    FlatStatusSelects();
  }

  const DeepNest: Criteria := NoCriteria.(status := Some([("status", Obj([("baz", Obj([("deep", Str("nest"))]))]))]))
  const NestedTomato: Criteria := NoCriteria.(status := Some([("status", Obj([("tomato", Str("potato"))]))]))
  const NestedFail: Criteria := NoCriteria.(status := Some([("status", Obj([("baz", Str("fail"))]))]))

  lemma DeepNestSelects()
    ensures !InternalFlag.Selects(DeepNest, R1)
    ensures InternalFlag.Selects(DeepNest, R2)
    ensures !InternalFlag.Selects(DeepNest, R3)
  {
    var inner: Entries := [("baz", Obj([("deep", Str("nest"))]))];
    assert !InternalFlag.Selects(DeepNest, R1) by {
      NestedKey("status", inner, Status1);
    }
    assert InternalFlag.Selects(DeepNest, R2) by {
      NestedKey("status", inner, Status2);
      NestedKey("baz", [("deep", Str("nest"))], Status2[1].1.entries);
      ScalarKey("deep", Str("nest"), [("deep", Str("nest"))]);
    }
    assert !InternalFlag.Selects(DeepNest, R3) by {
      NestedKey("status", inner, Status3);
      NestedKey("baz", [("deep", Str("nest"))], Status3[1].1.entries);
    }
  }

  lemma NestedTomatoSelects()
    ensures !InternalFlag.Selects(NestedTomato, R1)
    ensures InternalFlag.Selects(NestedTomato, R2)
    ensures !InternalFlag.Selects(NestedTomato, R3)
  {
    NestedKey("status", [("tomato", Str("potato"))], Status1);
    NestedKey("status", [("tomato", Str("potato"))], Status2);
    NestedKey("status", [("tomato", Str("potato"))], Status3);
    ScalarKey("tomato", Str("potato"), Status2[1].1.entries);
    ScalarKey("tomato", Str("potato"), Status3[1].1.entries);
  }

  lemma NestedFailSelects()
    ensures !InternalFlag.Selects(NestedFail, R1)
    ensures !InternalFlag.Selects(NestedFail, R2)
    ensures InternalFlag.Selects(NestedFail, R3)
  {
    NestedKey("status", [("baz", Str("fail"))], Status1);
    NestedKey("status", [("baz", Str("fail"))], Status2);
    NestedKey("status", [("baz", Str("fail"))], Status3);
    ScalarKey("baz", Str("fail"), Status3[1].1.entries);
  }

  /** Nested status filters descend into the `status` field of the status. */
  lemma DeepNestFilter()
    ensures Run(DeepNest) == [R2]
  {
    RunThree(DeepNest);
    DeepNestSelects();
  }

  lemma NestedTomatoFilter()
    ensures Run(NestedTomato) == [R2]
  {
    RunThree(NestedTomato);
    NestedTomatoSelects();
  }

  lemma NestedFailFilter()
    ensures Run(NestedFail) == [R3]
  {
    RunThree(NestedFail);
    NestedFailSelects();
  }

  /** Flagging a record that already carries `foo=bar`, then undoing it: the
      mark is "true", then "false", and `foo=bar` survives both. */
  lemma FlagKeepsOtherLabels()
    ensures var r2 := R2.(labels := [("foo", "bar")]);
      var store := map[KeyOf(r2) := r2];
      var flagged := PkgFlag.FlagForDeletion(store, [r2], false, {});
      var undone := PkgFlag.FlagForDeletion(flagged.store, [r2], true, {});
      && flagged.err.None? && undone.err.None?
      && LabelValue(flagged.store[KeyOf(r2)].labels, DeleteMarker) == Some("true")
      && LabelValue(flagged.store[KeyOf(r2)].labels, "foo") == Some("bar")
      && LabelValue(undone.store[KeyOf(r2)].labels, DeleteMarker) == Some("false")
      && LabelValue(undone.store[KeyOf(r2)].labels, "foo") == Some("bar")
  {
    var r2 := R2.(labels := [("foo", "bar")]);
    var store := map[KeyOf(r2) := r2];
    PkgFlag.FlagForDeletionEffect(store, [r2], false, {});
    var flagged := PkgFlag.FlagForDeletion(store, [r2], false, {});
    assert Patching.SelectedBefore([r2], 1, KeyOf(r2));
    PkgFlag.FlagForDeletionEffect(flagged.store, [r2], true, {});
  }

  const True1: Record := R1.(labels := [(DeleteMarker, "true")])
  const False2: Record := R2.(labels := [(DeleteMarker, "false")])
  const Labelled: Store := map[KeyOf(True1) := True1, KeyOf(False2) := False2, KeyOf(R3) := R3]
  const Kinds: PkgClean.Gvr := PkgClean.Gvr("agroup", "aversion", "akinds")

  lemma LabelledUnmarked()
    ensures PkgClean.Unmarked(Labelled) == map[KeyOf(False2) := False2, KeyOf(R3) := R3]
  {
    assert PkgClean.MarkedTrue(True1);
    assert !PkgClean.MarkedTrue(False2);
    assert !PkgClean.MarkedTrue(R3);
    assert PkgClean.Unmarked(Labelled).Keys == {KeyOf(False2), KeyOf(R3)};
  }

  /** The sweep deletes the record labelled "true" and keeps the one
      labelled "false" and the unlabelled one. */
  lemma SweepDeletesOnlyTrue()
    ensures var r := PkgClean.DeleteResources(map[Kinds := Labelled], Kinds, [KeyOf(True1), KeyOf(False2), KeyOf(R3)], {});
      && r.err.None?
      && r.cluster[Kinds] == map[KeyOf(False2) := False2, KeyOf(R3) := R3]
  {
    var order := [KeyOf(True1), KeyOf(False2), KeyOf(R3)];
    PkgClean.SweepRemovesExactlyMarked(map[Kinds := Labelled], Kinds, order, {});
    LabelledUnmarked();
  }
}
