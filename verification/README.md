# kln selection and marking engine in Dafny

kln is a command-line tool that cleans up Kubernetes resources in two steps.
First it *lists* the records of one resource type that match a
`ResourceIdentifier`: a minimum age in hours plus optional `metadata`, `spec`
and `status` filter documents. Then it *flags* the listed records by merging
the label (or, in the oldest copy, the annotation) `kln.com/delete` into
them. Finally a *sweep* deletes every record of the type whose label is
exactly `"true"`.

This project models that engine as pure functions over immutable data:

- `Nodes`: the tagged value of a decoded document.
  - String, int, int64, float64, bool and null are the scalars; a map and a list are the composites.
  - A map is a sequence of entries, so the sequence order is Go's map iteration order, stated explicitly. `KeysDistinct` states that no key occurs twice, as a Go map guarantees.
  - `Typeof` gives the Go dynamic type name that the matcher compares.
- `Matcher`: `MapIntersection`, `ArrayIntersection` and `Contains`.
  - internal/utility/utility.go, pkg/utility.go and pkg/common.go hold three copies of these functions, identical up to the case of identifiers (`mapIntersection`, `typeof` and `contains` in pkg/common.go); the one module models all three.
- `LegacyMatcher`: `mapIntersectionCheck` of internal/internal.go, which has no list branch.
  - `None` stands for the Go runtime panic that comparing two lists with `!=` raises.
- `Seqs`: order-preserving filtering and subsequences. Every selection step of the engine has this shape.
- `Records`: a record (namespace, name, age in hours, labels, annotations, other metadata, spec, status), the selection criteria, the errors, and the store.
  - The store is a map from (namespace, name) to record.
- `Patching`: the merge patch of one label or annotation, and the patch loop that stops at the first error. All three `FlagForDeletion` copies share it.
- `InternalFlag`: internal/flag/flag.go. `ListResources` with the age, metadata and status filters, and the label-based `FlagForDeletion` with its undo switch.
- `InternalCore`: internal/internal.go. The same pipeline on the legacy matcher, and the annotation-based `FlagForDeletion`.
- `PkgList`: pkg/list.go with `arrayInclude` of pkg/common.go. It rejects a negative age and has the `filterByField` loop.
- `PkgFlag`: pkg/flag.go.
- `PkgClean`: pkg/clean.go, the deletion sweep over a cluster. A cluster maps each resource type to its store.
- `Scenarios`: the fixtures of the repository's list, flag and sweep tests, stated as lemmas about the model.

Inputs the engine does not compute are parameters:

- The store's answer to a list call is a `Result`.
- A record's age in hours is a field.
- The order in which the API returns keys is a sequence. For the sweep it is meant to list each key of the store once; `PkgClean.Candidates` skips keys the store lacks, and `PkgClean.SweepRemovesExactlyMarked` states the requirement as preconditions.
- The iteration order of the three-entry filter map of `filterByField` is a sequence holding each section once (`PkgList.SectionOrder`).
- The records whose patch or delete the API refuses are a set `rejected`.

Where the code's behaviour differs from its documented intent, the model follows the code:

- `Contains` is not membership. With a scalar needle it demands that *every* element of the target list equals the needle. With a map or list needle the first element alone decides. On an empty list it is true. `Matcher.ContainsIsNotMembership` exhibits the difference.
- A criteria file is decoded with yaml.v3, which gives whole numbers the Go type `int`. API objects carry `int64`. A whole-number filter value therefore never matches (`Matcher.WholeNumberFilterNeverMatches`). A number with a fraction, such as `0.5`, is `float64` on both sides and compares normally.
- A cluster-scoped object has an empty namespace, which serialisation omits, so its metadata has no "namespace" key. A filter `{namespace: ""}` does not select it. The annotation copy of `FlagForDeletion` reads the namespace with a `.(string)` assertion (internal/internal.go:37), which panics on such a record; the model returns `NamespacePanic` there.
- An empty (non-nil) filter map matches every record. A nil filter is skipped.
- The sweep returns the first delete error and does not attempt the remaining candidates.
- Copies of `MapIntersection` let the first visited key that holds a map or a list decide the whole result. Later keys are never examined, so the result can depend on Go's map iteration order (`Matcher.VisitOrderMatters`).
- The `pkg` files do not compile as one package:
  - pkg/flag.go:14 takes one result from a two-result call.
  - pkg/list.go:63 calls `unstructuredArrayInclude`, which does not exist.
  - `PkgFlag.FlagForDeletion` therefore takes the selected records as input.
  - The call at pkg/list.go:63 is modelled as `arrayInclude` (pkg/common.go:110-117).

## Model

| member | source | states |
|---|---|---|
| Nodes.Typeof | internal/utility/utility.go:54-56 | The Go type name of a value is the map type name exactly for maps and the list type name exactly for lists, the two names every matcher branch tests |
| Nodes.Lookup | internal/utility/utility.go:7 | `mapB[k]` with its `ok`: a value comes back iff the key is in the map, and it is an entry stored under that key |
| Matcher.MapIntersection | internal/utility/utility.go:5-21 | An empty filter map is matched by every target; a first visited key that is missing from the target or has another type there gives false |
| Matcher.ArrayIntersection | internal/utility/utility.go:24-34 | False whenever the filter list is longer than the target list; true for an empty filter list |
| Matcher.Contains | internal/utility/utility.go:36-52 | True on an empty target list; for a scalar needle true iff every target element has the needle's type and equals it; for a map or list needle false when the first element's type differs |
| Matcher.VisitedKeyMismatchFails | internal/utility/utility.go:7-19 | Once the loop reaches a filter key that is absent from the target or differently typed there, the result is false |
| Matcher.AllScalarFilterIff | pkg/common.go:36-52 | For a filter whose values are all scalars the result is true iff every filter key is in the target with the same type and an equal value |
| Matcher.ScalarFilterOrderIrrelevant | internal/utility/utility.go:6-21 | For an all-scalar filter, reordering the filter's entries never changes the result |
| Matcher.UnmentionedTargetKeysIrrelevant | internal/utility/utility.go:7 | Inserting target entries whose keys the filter does not mention never changes the result |
| Matcher.NestedMapDecides | internal/utility/utility.go:8-10 | When the visited key holds a map met by a map, the result is the recursive check on the two sub-maps and the later filter keys do not matter |
| Matcher.NestedListDecides | pkg/utility.go:41-43 | When the visited key holds a list met by a list, the result is `ArrayIntersection` of the two lists and the later filter keys do not matter |
| Matcher.ContainsDecidedByFirst | pkg/common.go:67-77 | For a map or list needle only the first target element matters; the rest of the list can be anything |
| Matcher.ScalarArrayIff | internal/utility/utility.go:24-52 | For a list of scalars, `ArrayIntersection` holds iff it is no longer than the target and each of its elements equals every target element |
| Matcher.ContainsIsNotMembership | pkg/utility.go:54-82 | ["a"] is not matched by ["a", "b"] although "a" is an element of it |
| Matcher.WholeNumberFilterNeverMatches | internal/utility/utility.go:7 | A whole number read from a criteria file (Go `int`) never matches the same number in a record (Go `int64`), because their types differ |
| Matcher.VisitOrderMatters | internal/utility/utility.go:6-13 | The same filter entries in two visit orders give different results against the same target |
| LegacyMatcher.MapIntersectionCheck | internal/internal.go:105-119 | An empty filter gives true, a first key missing or differently typed gives false; the result is absent (Go panics) only when the filter holds a list |
| LegacyMatcher.ListFreeAgrees | internal/internal.go:105-119 | On a filter without lists the legacy matcher never panics and agrees with `MapIntersection` |
| LegacyMatcher.AllScalarLegacyIff | internal/internal.go:105-119 | For an all-scalar filter the legacy matcher is key-wise typed equality, ignoring extra target keys |
| LegacyMatcher.VisitedListPanics | internal/internal.go:108-113 | A visited filter list met by a target list reaches the `!=` comparison of two lists: the call panics |
| Records.SetLabel | pkg/flag.go:23-28 | Merging one key into a label map gives that key the new value and every other key its old value |
| Records.SetLabelIdempotent | pkg/flag.go:28 | Merging the same key and value twice is the same as merging once |
| Records.MetadataView | internal/flag/flag.go:76 | The `metadata` section of a record holds its name, and its namespace exactly when that is non-empty (a cluster-scoped object has no "namespace" key) |
| Records.SetLabelKeepsKeysDistinct | pkg/flag.go:28-33 | Merging one key into a label map with distinct keys leaves its keys distinct |
| Records.LabelValueExact | pkg/flag.go:28-33 | In a label map with distinct keys, a key has a value exactly when that key-value pair is in the map |
| Patching.MarkRecord | internal/internal.go:39-40 | The merge patch sets `kln.com/delete` in the label (or annotation) map, keeps every other key and leaves every other field of the record as it was |
| Patching.MarkIdempotent | pkg/flag.go:28 | Patching a record that already carries the value changes nothing |
| Patching.MarkerValue | pkg/flag.go:23-27 | The value written is "false" iff the undo switch is set, and "true" otherwise |
| Patching.Patch | pkg/flag.go:28-31 | A patch succeeds iff the record exists and the store accepts it; success marks that record only, failure reports which |
| Patching.FirstFailure | pkg/flag.go:19-31 | The loop's stopping point: every record before it patches successfully and the record at it fails |
| Patching.PatchEach | pkg/flag.go:19-33 | No record is added or removed; no error iff every patch succeeds; otherwise the error is that of the first failing record |
| Patching.PatchEachEffect | pkg/flag.go:19-32 | Records selected before the first failure end marked, whatever their prior value; the failing record, later ones and unselected ones are unchanged |
| Patching.PatchEachIdempotent | internal/flag/flag.go:23-38 | Re-running a successful patch loop with the same selection and value changes nothing |
| InternalFlag.KeepOlder | internal/flag/flag.go:53-68 | A zero threshold keeps every record in order; otherwise exactly the records strictly older than the threshold, as a subsequence |
| InternalFlag.FilterBySection | internal/flag/flag.go:70-96 | A nil filter returns the input unchanged; otherwise exactly the records whose section matches, as a subsequence |
| InternalFlag.ListResources | internal/flag/flag.go:41-51 | A failed list call gives an empty result; otherwise the result is a subsequence of the listed records |
| InternalFlag.KeepOlderIsFilter | internal/flag/flag.go:53-68 | `filterByAge` equals the reference order-preserving filter with the age test |
| InternalFlag.FilterBySectionIsFilter | internal/flag/flag.go:70-96 | `filterByMetadata` / `filterByStatus` equal the reference filter with the section test |
| InternalFlag.ListResourcesIsConjunction | internal/flag/flag.go:41-51 | The listing is the single filter by age AND metadata AND status, and the spec filter has no effect |
| InternalFlag.FlagForDeletion | internal/flag/flag.go:17-39 | An empty selection is an error that patches nothing; otherwise no error iff every patch succeeds, else the first failing record's error; no record appears or disappears |
| InternalFlag.FlagForDeletionEffect | internal/flag/flag.go:23-37 | Unselected records never change; records selected before the first failing patch carry the label at "false" iff undo and keep their other labels and fields; the failing record and later ones are unchanged; after success every selected record is labelled |
| InternalCore.CheckEach | internal/internal.go:82-88 | The filter loop on the legacy matcher panics iff some record makes the matcher panic; otherwise it keeps exactly the matching records in order |
| InternalCore.CheckEachAgrees | internal/internal.go:77-103 | On a list-free filter the legacy loop selects the same records as the internal/flag loop |
| InternalCore.FilterBySectionChecked | internal/internal.go:77-103 | A nil filter is the identity; a list-free filter gives the internal/flag result; the only failure is a panic |
| InternalCore.ListResources | internal/internal.go:48-58 | A failed list call gives an empty result; with list-free filters the result is that of internal/flag |
| InternalCore.FirstUnreadable | internal/internal.go:36-37 | The first listed record whose namespace the type assertion cannot read, which is exactly the first cluster-scoped one; all before it are readable |
| InternalCore.FlagEach | internal/internal.go:36-45 | No record is added or removed; no error iff every patch succeeds and every namespace is readable; a failing patch before the first unreadable namespace gives that record's error, otherwise the panic |
| InternalCore.FlagEachEffect | internal/internal.go:36-45 | The records before the first failing patch or unreadable namespace carry the annotation; every other record is unchanged |
| InternalCore.FlagForDeletion | internal/internal.go:30-46 | An empty selection is an error that patches nothing, a panic while listing is returned; otherwise the loop's first failing patch or namespace panic, and no error iff there is neither |
| InternalCore.FlagForDeletionEffect | internal/internal.go:36-45 | The listed records before the loop stops carry annotation `kln.com/delete: "true"`, all others are unchanged; after success every listed record is annotated and keeps its other annotations and labels |
| PkgList.ArrayInclude | pkg/common.go:110-117 | True iff some element equals the argument; false on an empty list |
| PkgList.FilterByAge | pkg/list.go:32-50 | Zero keeps everything (checked before negativity); a negative threshold is the error "minAge cannot be negative"; a positive one keeps exactly the strictly older records in order |
| PkgList.Collect | pkg/list.go:61-66 | The inner loop only appends, never duplicates, appends exactly the matching records not yet collected, in order |
| PkgList.CollectNothingNew | pkg/list.go:63 | Scanning records that are all collected already appends nothing |
| PkgList.LaterFiltersInert | pkg/list.go:53-69 | Once the accumulator is the list being scanned, every later filter adds and removes nothing |
| PkgList.SkipNilFilters | pkg/list.go:57-59 | Nil filters before the first non-nil one are skipped |
| PkgList.FilterByField | pkg/list.go:52-71 | With every filter nil the input comes back unchanged; otherwise only the first non-nil filter takes effect, because the accumulator is never reset: the result is the duplicate-free subsequence of the input matching that filter |
| PkgList.CollectDistinct | pkg/list.go:61-66 | On distinct records the collecting loop is the reference order-preserving filter |
| PkgList.ListResources | pkg/list.go:13-30 | For any iteration order of the three-entry filter map: a list error is returned unchanged; a negative age is an error; otherwise the result is a subsequence of the listing holding exactly the records that pass the age test and the first non-nil filter in that order (all of them when every filter is nil), without repeats when a filter is set |
| PkgList.NoCriteriaListsEverything | pkg/list.go:13-30 | With no filters and a zero threshold every listed record is returned in order |
| PkgList.SingleFilterSelection | pkg/list.go:21-29 | With one non-nil section filter, in any map order, the result is the duplicate-free subsequence of records passing the age test and that filter |
| PkgFlag.FlagForDeletion | pkg/flag.go:13-34 | An empty selection is an error that patches nothing; otherwise no error iff every patch succeeds, else the first failing record's error; no record appears or disappears |
| PkgFlag.FlagForDeletionEffect | pkg/flag.go:19-32 | Unselected records never change; records patched before the first failure carry the desired value whatever it was before and keep labels such as `foo=bar`; later records are untouched |
| PkgFlag.FlagForDeletionIdempotent | pkg/flag.go:19-33 | Flagging again with the same switch after a success leaves the store as it is |
| PkgClean.Candidates | pkg/clean.go:12 | The candidates are exactly the listed records whose `kln.com/delete` label is "true", in list order |
| PkgClean.Delete | pkg/clean.go:21-24 | A delete succeeds iff the record exists and the API accepts it, and then removes that record only |
| PkgClean.FirstDeleteFailure | pkg/clean.go:16-25 | Every candidate before the stopping point is deletable; the one at it is not |
| PkgClean.DeleteEach | pkg/clean.go:16-26 | Candidates are deleted in order; no error iff all deletes succeed; the first failure's error is returned and it and the later candidates stay |
| PkgClean.DeleteResources | pkg/clean.go:11-27 | Only the given resource type changes; no candidates means no change and no error; records not marked "true" are never deleted |
| PkgClean.SweepRemovesExactlyMarked | pkg/clean.go:16-26 | A sweep over a complete listing without repeats, whose marked records the API accepts, succeeds; exactly the "true"-marked records are gone and all others are as they were |
| PkgClean.SweepSucceeds | pkg/clean.go:12-26 | A listing without repeats whose marked records the API all accepts is swept without error |
| Scenarios.AgeBounds | internal/flag/flag_test.go:135-161 | No criteria list all three fixture records; a threshold of 1.5 hours lists none |
| Scenarios.UnknownResourceType | internal/flag/flag_test.go:141-146 | A resource type with no objects lists nothing, and so does one the store cannot list |
| Scenarios.HalfHour | internal/flag/flag_test.go:149-154 | A threshold of 0.5 hours lists the 40- and 70-minute-old records |
| Scenarios.NamespaceFilter | internal/flag/flag_test.go:163-168 | Filter {namespace: ns} lists name1 and name2 |
| Scenarios.UnknownNameFilter | internal/flag/flag_test.go:170-175 | Filter {namespace: ns, name: fake} lists nothing |
| Scenarios.AgeAndNamespace | internal/flag/flag_test.go:177-182 | Threshold 0.5 with {namespace: ns} lists only name2 |
| Scenarios.OldUnknownName | internal/flag/flag_test.go:184-189 | Threshold 0.5 with {name: fake} lists nothing |
| Scenarios.ClusterScopedRecord | internal/internal.go:36-37 | A cluster-scoped record is not selected by {namespace: ""}, and the annotation loop stops on it with the namespace panic, patching nothing |
| Scenarios.FooBarFilter | internal/flag/flag_test.go:191-196 | Status filter {foo: bar} lists name1 and name2 |
| Scenarios.DeepNestFilter | internal/flag/flag_test.go:198-203 | Status filter {status: {baz: {deep: nest}}} lists only name2 |
| Scenarios.TomatoFilter | internal/flag/flag_test.go:205-210 | Status filter {tomato: potato} lists only name1 |
| Scenarios.NestedTomatoFilter | internal/flag/flag_test.go:212-217 | Status filter {status: {tomato: potato}} lists only name2 |
| Scenarios.NestedFailFilter | internal/flag/flag_test.go:219-224 | Status filter {status: {baz: fail}} lists only name3 |
| Scenarios.FlagKeepsOtherLabels | pkg/flag_test.go:89-119 | Flagging a record labelled foo=bar sets the mark to "true", undoing sets it to "false", and foo=bar survives both |
| Scenarios.SweepDeletesOnlyTrue | pkg/clean_test.go:12-48 | Of three records labelled "true", "false" and not at all, the sweep deletes only the first, without error |

## Left out

- Command-line and configuration wiring (cmd/*.go, main.go): flag parsing, YAML decoding, logging. None of it decides what is selected or changed.
- Client construction, file reading and the global loggers (`GetDynamicClient`, `ReadFile`, `InfoLog`). The store's list, patch and delete answers are parameters instead.
- pkg/list/list.go is not part of this model. It is a thin wrapper over the list call.
- Test scaffolding and helpers: utility/utility.go, pkg/test_helper.go and the fake clients. The tests appear only as the concrete lemmas of `Scenarios`.
- The clock: `time.Since(...).Hours()` becomes each record's `ageHours` field. Floating-point rounding and NaN are not modelled, so ages and thresholds are exact reals. So are `float64` values in filters and records: two decimal texts that round to the same `float64` are equal in Go but not in the model.
- Go's randomised map iteration. Go draws a fresh order at every `range`, so `filterByMetadata` and `filterByStatus` may visit the same filter map in a different order for each record. The model fixes one order per map value: a filter is visited in the same order for every record of a listing. For an order-sensitive filter (one whose first visited map or list value decides) Go can therefore select records the model's single order does not, and the reverse. Filters whose values are all scalars give the same result in every order (`Matcher.ScalarFilterOrderIrrelevant`), so the lemmas about them hold for Go as well.
- The merge-patch wire format. A patch is modelled as the single-key update it encodes.
- Decoding itself. A document's values arrive already tagged with the Go type the decoder gives them: `int` for whole numbers of a criteria file, `int64` for those of an API object, `float64` otherwise. Integers are unbounded, so 64-bit overflow is not modelled.
- Records whose `metadata`, `spec` or `status` is missing or is not a map make the Go type assertions panic (internal/internal.go:83 and 97, internal/flag/flag.go:76 and 90, pkg/list.go:62). Every modelled record has all its sections, so those panics cannot occur in the model.
- Every modelled record has a name, as the API server requires, so the `.(string)` assertion on the name at internal/internal.go:38 cannot fail.
- PkgClean.DeleteResources: requires the resource type to be served. A failed list call in the sweep (pkg/clean.go:12) is ignored by the code, and the next line then dereferences a nil list.
- PkgList.ArrayInclude: compares records with the model's structural equality. Go's `equality.Semantic.DeepEqual` ignores map order, whereas two entry sequences that differ only in order compare unequal here.
- Two panics become error values rather than a crash of the process: the `!=` on two lists in `mapIntersectionCheck` becomes `UncomparablePanic`, and the `.(string)` assertion on a missing namespace at internal/internal.go:37 becomes `NamespacePanic`. The other type assertions cannot fail on a modelled record.
- The annotation test in internal/flag/flag_test.go:302-322 is stale: it reads annotations where internal/flag/flag.go:28-30 writes labels. The model follows the code.
