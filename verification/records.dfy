/** Records of the external store, the criteria that select them, and the
    errors the engine reports. A record is the engine's view of an
    `unstructured.Unstructured` object: its identity, its age (supplied as a
    number of hours rather than computed from a clock), its label and
    annotation maps, and its metadata, spec and status sections. */
module Records {
  import opened Outcomes
  import opened Nodes

  /** (namespace, name): how the store addresses a record. */
  type Key = (string, string)

  /** A `map[string]string` of labels or annotations in a fixed order; the
      maps the store hands out satisfy `KeysDistinct`. */
  type Labels = seq<(string, string)>

  /** The metadata keys the record holds in its own fields. */
  predicate ReservedMetadataKey(k: string) {
    k == "namespace" || k == "name" || k == "labels" || k == "annotations"
  }

  /** The remaining metadata fields (uid, resourceVersion, ...). */
  type OtherMetadata = e: Entries | forall i :: 0 <= i < |e| ==> !ReservedMetadataKey(e[i].0)
    witness []

  /** An empty `namespace` is a cluster-scoped object, whose metadata has no
      "namespace" key at all. */
  datatype Record = Record(
    namespace: string,
    name: string,
    ageHours: real,
    labels: Labels,
    annotations: Labels,
    otherMetadata: OtherMetadata,
    spec: Entries,
    status: Entries)

  function KeyOf(r: Record): Key {
    (r.namespace, r.name)
  }

  /** The label (in one older copy: the annotation) that marks a record for deletion. */
  const DeleteMarker: string := "kln.com/delete"

  /** `labels[k]`: the value of the first entry with key `k`. */
  function LabelValue(ls: Labels, k: string): (r: Option<string>)
    ensures r.Some? <==> exists i :: 0 <= i < |ls| && ls[i].0 == k
    ensures r.Some? ==> (k, r.value) in ls
  {
    if |ls| == 0 then None
    else if ls[0].0 == k then Some(ls[0].1)
    else
      var r := LabelValue(ls[1..], k);
      assert forall i :: 1 <= i < |ls| ==> ls[i] == ls[1..][i - 1];
      r
  }

  /** A JSON merge patch of the single key `k`: the value is overwritten in
      place when the key exists and appended otherwise. */
  function SetLabel(ls: Labels, k: string, v: string): (r: Labels)
    ensures LabelValue(r, k) == Some(v)
    ensures forall k' :: k' != k ==> LabelValue(r, k') == LabelValue(ls, k')
  {
    if |ls| == 0 then [(k, v)]
    else if ls[0].0 == k then [(k, v)] + ls[1..]
    else
      var r := [ls[0]] + SetLabel(ls[1..], k, v);
      assert r[1..] == SetLabel(ls[1..], k, v);
      r
  }

  /** Setting a key to the value it already has changes nothing. */
  lemma {:induction false} SetLabelUnchanged(ls: Labels, k: string, v: string)
    requires LabelValue(ls, k) == Some(v)
    ensures SetLabel(ls, k, v) == ls
  {
    if ls[0].0 != k {
      SetLabelUnchanged(ls[1..], k, v);
    }
  }

  /** Merge-patching the same key to the same value twice is patching it once. */
  lemma SetLabelIdempotent(ls: Labels, k: string, v: string)
    ensures SetLabel(SetLabel(ls, k, v), k, v) == SetLabel(ls, k, v)
  {
    SetLabelUnchanged(SetLabel(ls, k, v), k, v);
  }

  /** Merge-patching one key keeps the keys of a map distinct. */
  lemma {:induction false} SetLabelKeepsKeysDistinct(ls: Labels, k: string, v: string)
    requires KeysDistinct(ls)
    ensures KeysDistinct(SetLabel(ls, k, v))
  {
    var r := SetLabel(ls, k, v);
    if |ls| > 0 && ls[0].0 == k {
      assert forall i :: 0 <= i < |r| ==> r[i].0 == ls[i].0;
    } else if |ls| > 0 {
      var k0 := ls[0].0;
      var tail := SetLabel(ls[1..], k, v);
      assert r == [ls[0]] + tail;
      SetLabelKeepsKeysDistinct(ls[1..], k, v);
      assert forall m :: 0 <= m < |ls[1..]| ==> ls[1..][m].0 != k0 by {
        forall m | 0 <= m < |ls[1..]|
          ensures ls[1..][m].0 != k0
        {
          assert ls[1..][m] == ls[m + 1];
        }
      }
      assert LabelValue(tail, k0) == None;
      assert forall i, j :: 0 <= i < j < |r| ==> r[i].0 != r[j].0 by {
        forall i, j | 0 <= i < j < |r|
          ensures r[i].0 != r[j].0
        {
          assert r[j] == tail[j - 1];
          if i > 0 {
            assert r[i] == tail[i - 1];
          }
        }
      }
    }
  }

  /** With distinct keys, a label has value `v` exactly when the pair is in the map. */
  lemma LabelValueExact(ls: Labels, k: string, v: string)
    requires KeysDistinct(ls)
    ensures LabelValue(ls, k) == Some(v) <==> (k, v) in ls
  {
    if (k, v) in ls {
      var i :| 0 <= i < |ls| && ls[i] == (k, v);
      var w := LabelValue(ls, k).value;
      var j :| 0 <= j < |ls| && ls[j] == (k, w);
      assert i == j;
    }
  }

  /** A string map as the matcher sees it: string values. */
  function StrEntries(ls: Labels): (e: Entries)
    ensures |e| == |ls|
    ensures forall i :: 0 <= i < |ls| ==> e[i] == (ls[i].0, Str(ls[i].1))
  {
    seq(|ls|, i requires 0 <= i < |ls| => (ls[i].0, Str(ls[i].1)))
  }

  /** The `metadata` section of the object: the namespace when it is
      non-empty, the name, the label and annotation maps when they are
      non-empty, then every other field. Empty fields are omitted, as
      `omitempty` omits them when the object is serialised. */
  function MetadataView(r: Record): (m: Entries)
    ensures Lookup(m, "namespace") == if r.namespace == "" then None else Some(Str(r.namespace))
    ensures Lookup(m, "name") == Some(Str(r.name))
  {
    (if r.namespace == "" then [] else [("namespace", Str(r.namespace))])
    + [("name", Str(r.name))]
    + (if |r.labels| == 0 then [] else [("labels", Obj(StrEntries(r.labels)))])
    + (if |r.annotations| == 0 then [] else [("annotations", Obj(StrEntries(r.annotations)))])
    + r.otherMetadata
  }

  /** The three top-level sections a filter can address. */
  datatype Section = Metadata | Spec | Status

  function SectionOf(r: Record, s: Section): Entries {
    match s
    case Metadata => MetadataView(r)
    case Spec => r.spec
    case Status => r.status
  }

  /** `ResourceIdentifier` without the resource type: the age threshold in
      hours and one optional filter map per section (`None` is a nil Go map,
      which is not the same as an empty one). */
  datatype Criteria = Criteria(
    minAge: real,
    metadata: Option<Entries>,
    spec: Option<Entries>,
    status: Option<Entries>)

  function FilterOf(c: Criteria, s: Section): Option<Entries> {
    match s
    case Metadata => c.metadata
    case Spec => c.spec
    case Status => c.status
  }

  datatype Error =
    | ListFailed(reason: string)   // the store's list call failed
    | NoMatch                      // nothing matched the criteria
    | NegativeMinAge               // "minAge cannot be negative"
    | UncomparablePanic            // the Go runtime panics comparing two lists
    | NamespacePanic               // a `.(string)` assertion meets a missing namespace
    | NotFound(key: Key)           // patch or delete of a missing record
    | Rejected(key: Key)           // the store refused a patch or delete

  /** The records of one resource type, addressed by namespace and name. */
  type Store = map<Key, Record>

  /** The store after a sequence of mutations and the first error, if any. */
  datatype StoreOutcome = StoreOutcome(store: Store, err: Option<Error>)
}
