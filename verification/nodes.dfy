/** The semi-structured documents the engine works on: the values an
    `unstructured` Kubernetes object and a decoded criteria document hold.
    A Go `map[string]interface{}` is an `Obj` whose entries are listed in the
    order in which a `range` loop happens to visit them; that order is chosen
    by the Go runtime, so here it is an explicit part of the value. */
module Nodes {
  import opened Outcomes

  datatype Node =
    | Str(s: string)
    | Int(i: int)      // Go `int`: how yaml.v3 decodes a whole number
    | Int64(i: int)    // Go `int64`: how an API object's whole numbers arrive
    | Float(f: real)
    | Bool(b: bool)
    | Null
    | Obj(entries: seq<(string, Node)>)
    | Arr(items: seq<Node>)

  /** The entries of a map, in iteration order. */
  type Entries = seq<(string, Node)>

  /** Go type names printed by `fmt.Sprintf("%T", v)` for the two composite shapes. */
  const MapType: string := "map[string]interface {}"
  const ListType: string := "[]interface {}"

  /** `Typeof` of internal/utility/utility.go: the `%T` name of the dynamic type.
      A criteria file's whole numbers are `int`, an API object's are `int64`. */
  function Typeof(n: Node): (t: string)
    ensures t == MapType <==> n.Obj?
    ensures t == ListType <==> n.Arr?
  {
    match n
    case Str(_) => "string"
    case Int(_) => "int"
    case Int64(_) => "int64"
    case Float(_) => "float64"
    case Bool(_) => "bool"
    case Null => "<nil>"
    case Obj(_) => MapType
    case Arr(_) => ListType
  }

  /** Scalars are the values the Go code compares with `!=`; Go can compare
      two interface values unless their dynamic type is a map or a slice. */
  predicate IsScalar(n: Node) {
    !n.Obj? && !n.Arr?
  }

  /** Every value of a filter map is a scalar. */
  predicate AllScalar(a: Entries) {
    forall i :: 0 <= i < |a| ==> IsScalar(a[i].1)
  }

  /** No key occurs twice: what a Go map guarantees of its entries. */
  predicate KeysDistinct<T>(e: seq<(string, T)>) {
    forall i, j :: 0 <= i < j < |e| ==> e[i].0 != e[j].0
  }

  predicate HasKey(b: Entries, k: string) {
    exists i :: 0 <= i < |b| && b[i].0 == k
  }

  /** `v, ok := m[k]`: the value of the first entry with key `k`. */
  function Lookup(b: Entries, k: string): (r: Option<Node>)
    ensures r.Some? <==> HasKey(b, k)
    ensures r.Some? ==> (k, r.value) in b
  {
    if |b| == 0 then None
    else if b[0].0 == k then Some(b[0].1)
    else
      var r := Lookup(b[1..], k);
      assert forall i :: 1 <= i < |b| ==> b[i] == b[1..][i - 1];
      r
  }

  /** Lookup in a concatenation consults the left part first. */
  lemma {:induction false} LookupAppend(x: Entries, y: Entries, k: string)
    ensures Lookup(x + y, k) == if Lookup(x, k).Some? then Lookup(x, k) else Lookup(y, k)
  {
    if |x| > 0 {
      assert (x + y)[0] == x[0];
      assert (x + y)[1..] == x[1..] + y;
      LookupAppend(x[1..], y, k);
    } else {
      assert x + y == y;
    }
  }

  /** Inserting entries whose keys differ from `k` anywhere in a map does not change what `k` finds. */
  lemma LookupInsert(b: Entries, j: nat, extra: Entries, k: string)
    requires j <= |b|
    requires !HasKey(extra, k)
    ensures Lookup(b[..j] + extra + b[j..], k) == Lookup(b, k)
  {
    LookupAppend(b[..j] + extra, b[j..], k);
    LookupAppend(b[..j], extra, k);
    LookupAppend(b[..j], b[j..], k);
    assert b[..j] + b[j..] == b;
  }

  /** A size measure used to show that the matcher terminates. */
  function Size(n: Node): nat {
    match n
    case Obj(e) => 1 + EntriesSize(e)
    case Arr(s) => 1 + ItemsSize(s)
    case _ => 1
  }

  function EntriesSize(e: Entries): nat {
    if |e| == 0 then 0
    else
      var p := e[0];
      assert e decreases to p;
      assert p decreases to p.1;
      Size(p.1) + EntriesSize(e[1..])
  }

  function ItemsSize(s: seq<Node>): nat {
    if |s| == 0 then 0 else Size(s[0]) + ItemsSize(s[1..])
  }

  /** No list occurs anywhere in a filter node (the shape of filter the
      list-less legacy matcher can process without a runtime panic). */
  predicate ListFree(n: Node)
    decreases Size(n), 0
  {
    match n
    case Arr(_) => false
    case Obj(e) => ListFreeEntries(e)
    case _ => true
  }

  predicate ListFreeEntries(e: Entries)
    decreases EntriesSize(e), 1
  {
    |e| == 0 || (ListFree(e[0].1) && ListFreeEntries(e[1..]))
  }

  /** A filter map whose values are all scalars holds no list. */
  lemma {:induction false} AllScalarIsListFree(a: Entries)
    requires AllScalar(a)
    ensures ListFreeEntries(a)
  {
    if |a| > 0 {
      assert forall i :: 0 <= i < |a| - 1 ==> a[1..][i] == a[i + 1];
      AllScalarIsListFree(a[1..]);
    }
  }
}
