# apollo-router JSON document engine, in Dafny

This project models the part of the Apollo Router that works on JSON
response documents. It covers the `ValueExt` operations of
`apollo-router/src/json_ext.rs`, the `Path`/`PathElement` type they are
driven by, and the `prefers_html` check on the `Accept` header in
`apollo-router/src/warp_http_server_factory.rs`. It proves what these
operations promise.

- **Documents** (`value.dfy`, module `JsonValue`). A document is a `Value`:
  `Null`, `Bool`, `Number`, `String`, `Array` or `Object`.
  - Objects keep their members in insertion order, as the router's
    order-preserving map does.
  - `WellFormed` says every object has distinct keys.
- **Paths** (`path.dfy`, module `JsonPath`).
  - `Path::from` splits on `/`, and `from_slice` parses pre-split
    segments. A segment that `usize::from_str` accepts becomes `Index`,
    `"@"` becomes `Flatten`, and anything else becomes `Key`.
  - `Display` writes `/` before every element.
  - `parent` and `join` complete the type.
  - The serde encoding writes `Flatten` as `"@"`, which makes `Key("@")`
    decode back as `Flatten`.
- **Text** (`text.dfy`, module `Text`): the string primitives the sources
  rely on. These are `str::split`, `usize::from_str` with its optional `+`
  and its overflow, decimal printing, and `str::trim`.
- **Traversal** (`traversal.dfy`, module `Traversal`).
  - `select_values_and_paths` / `iterate_path` is a read-only walk.
  - A `Flatten` fans out over every element of an array.
  - Each step is recorded by re-parsing its text with `Path::from`.
  - The callback is modelled as the sequence of (path, value) pairs it
    receives, in order.
- **Sparse construction** (`sparse.dfy`, module `Sparse`). `from_path`
  builds the smallest document holding a value at a path. It stops at the
  first `Flatten`.
- **Insertion** (`insert.dfy` and `cursor.dfy`, modules `Insertion` and
  `Cursor`). `insert` moves a mutable cursor down the document.
  - The cursor is modelled as a location in the root (`At`/`Plug`).
  - The method keeps the source's loops.
  - Three outcomes are possible: success, `ExecutionPathNotFound` with its
    reason, and the panic of the `expect` at line 290.
- **Merge** (`merge.dfy`, module `Merge`). `deep_merge` is a recursive
  method with the object loop and the array loop. It is proved equal to
  the function `Merge`, which is compared with an independent reference
  definition of the object arm.
- **Comparison** (`compare.dfy`, module `Compare`).
  - `eq_and_ordered` is a method with the source's lock-step iteration,
    proved equal to a specification function.
  - `is_subset` is a function.
- **Accept header** (`accept.dfy`, module `AcceptHeader`). `prefers_html`
  and its use at line 217.

Two behaviours of the code are easy to misread; the model follows the code:

- `insert` does not create a key that is missing from an existing object.
  The `expect` at `json_ext.rs:288-290` panics, and the model reports this
  as the `Panicked` outcome. Inserting `7` at `a/2` into `{}` therefore
  panics, while inserting it into `null` gives `{"a":[null,null,7]}`
  (`Insertion.InsertExamples`).
- `Display` writes a leading `/`. So the text round trip is
  `Display(Path::from(s)) == "/" + s`, and a path prints back from the text
  after that first character.

## Model

| member | source | states |
|---|---|---|
| Text.Split | apollo-router/src/json_ext.rs:494-495 | `str::split` always yields at least one part, and no part contains the separator |
| Text.JoinSplit | apollo-router/src/json_ext.rs:494-495 | joining the parts of a split with the separator gives back the original text |
| Text.SplitJoin | apollo-router/src/json_ext.rs:494-495 | splitting a join of separator-free parts gives back exactly those parts |
| Text.SplitAround | apollo-router/src/warp_http_server_factory.rs:369 | splitting `s + sep + t` gives the parts of `s` followed by the parts of `t` |
| Text.UsizeRoundTrip | apollo-router/src/json_ext.rs:436-437 | the decimal text of every number below 2^64 is accepted by `usize::from_str` and reads back as that number |
| Text.CanonicalUsizeText | apollo-router/src/json_ext.rs:436-437 | reading text as a `usize` and printing it back restores the text exactly when it has no `+` and no leading zero |
| Text.TrimStart | apollo-router/src/warp_http_server_factory.rs:370 | the result is a suffix of the input, everything dropped is whitespace, and the result does not start with whitespace |
| Text.TrimEnd | apollo-router/src/warp_http_server_factory.rs:370 | the result is a prefix of the input, everything dropped is whitespace, and the result does not end with whitespace |
| Text.TrimAround | apollo-router/src/warp_http_server_factory.rs:370 | trimming whitespace padding from around text with non-blank ends gives back that text |
| JsonValue.IndexOfKey | apollo-router/src/json_ext.rs:163 | an object lookup finds the first member with the key, and finds nothing exactly when no member has it |
| JsonPath.ParseSegment | apollo-router/src/json_ext.rs:436-444 | a segment is an `Index` exactly when `usize::from_str` accepts it, holding the number read; it is `Flatten` exactly when it is `@`; any other segment displays back as the segment itself |
| JsonPath.FromSlice | apollo-router/src/json_ext.rs:432-447 | one element per segment, each parsed as `Index` (usize text), `Flatten` (`"@"`) or `Key` |
| JsonPath.FromText | apollo-router/src/json_ext.rs:488-505 | `Path::from` gives one element per `/`-separated part, so at least one, and no key holds a `/` |
| JsonPath.EmptyText | apollo-router/src/json_ext.rs:488-505 | the empty text is the one-element path `[Key("")]`, not the empty path |
| JsonPath.Display | apollo-router/src/json_ext.rs:510-522 | the loop writes the path's rendering: `/` before every element, nothing for the empty path |
| JsonPath.Parent | apollo-router/src/json_ext.rs:465-471 | `None` exactly for the empty path; otherwise the path without its last element |
| JsonPath.Join | apollo-router/src/json_ext.rs:473-479 | the result is the first path followed by the second |
| JsonPath.ParentOfJoin | apollo-router/src/json_ext.rs:465-479 | the parent of `p.join(e)` is `p` |
| JsonPath.RenderJoin | apollo-router/src/json_ext.rs:510-522 | displaying a join is displaying its halves one after the other |
| JsonPath.SliceRoundTrip | apollo-router/src/json_ext.rs:432-447 | re-parsing the segment texts of a path whose keys are not usize text, `"@"` or slashed gives the path back |
| JsonPath.DisplayThenParse | apollo-router/src/json_ext.rs:491-522 | for a non-empty such path, `Path::from` of the displayed text minus its leading `/` gives the path back |
| JsonPath.ParseThenDisplay | apollo-router/src/json_ext.rs:491-522 | text whose segments are canonical displays back as itself after a leading `/` |
| JsonPath.LeadingZerosNormalise | apollo-router/src/json_ext.rs:492-522 | `"007"` parses to `Index(7)`, which displays as `/7` |
| JsonPath.NumericKeyIsLossy | apollo-router/src/json_ext.rs:492-522 | `Key("3")` displays as `/3`, which parses back as `Index(3)` |
| JsonPath.EncodeElement | apollo-router/src/json_ext.rs:367-421 | an element is written as a number exactly when it is an index, and then as that index; `Flatten` is written as the string `"@"` and a key as the string of its text; the round-trip lemmas below make it the inverse of `DecodeElement` |
| JsonPath.DecodeElement | apollo-router/src/json_ext.rs:367-414 | decoding succeeds exactly on a string or on a number that fits a `usize`; every other value is an error |
| JsonPath.EncodePath | apollo-router/src/json_ext.rs:423-429 | a path is written as an array with one encoded element per path element, in order |
| JsonPath.ElementWireRoundTrip | apollo-router/src/json_ext.rs:368-421 | every element survives the serde encoding except `Key("@")`, which decodes as `Flatten` |
| JsonPath.WireElementRoundTrip | apollo-router/src/json_ext.rs:368-421 | every encoded value that decodes re-encodes to itself |
| JsonPath.DecodeElements | apollo-router/src/json_ext.rs:427-429 | a sequence of encoded elements decodes exactly when every element does, element by element |
| JsonPath.PathWireRoundTrip | apollo-router/src/json_ext.rs:427-429 | a path without `Key("@")` survives its serde encoding |
| Cursor.PlugThenDescend | apollo-router/src/json_ext.rs:273-278 | overwriting the cursor's node and then writing inside it is one write of the updated node |
| Traversal.IteratePath | apollo-router/src/json_ext.rs:325-363 | every recorded path starts with `parent` and records at least one element for each remaining step |
| Traversal.FanOut | apollo-router/src/json_ext.rs:331-342 | every path recorded by the fan-out starts with `parent` and records at least one element for `Flatten` and for each later step |
| Traversal.SelectValuesAndPaths | apollo-router/src/json_ext.rs:317-322 | every path given to the callback has at least as many elements as the requested path; the lemmas below give its meaning |
| Traversal.SelectSound | apollo-router/src/json_ext.rs:317-363 | every yielded path conforms to the requested path (each `Flatten` recorded as an `Index`) and resolves to the yielded value |
| Traversal.SelectComplete | apollo-router/src/json_ext.rs:317-363 | every conforming path that resolves in the document is yielded with its value |
| Traversal.SelectInDocumentOrder | apollo-router/src/json_ext.rs:331-342 | for every path, the pairs come in order: at the first index where two yielded paths differ, the earlier one has the smaller index |
| Traversal.SelectWithoutFlatten | apollo-router/src/json_ext.rs:343-361 | a path without `Flatten` yields at most one pair, exactly when the path resolves, with the resolved value |
| Traversal.DeadEnds | apollo-router/src/json_ext.rs:329-361 | the empty path yields the root; `Flatten` on a non-array, an index out of range or a missing key yields nothing |
| Traversal.NumericKeyRecordedAsIndex | apollo-router/src/json_ext.rs:358 | a key `"3"` is recorded as `Index(3)`, a path that does not resolve in the document |
| Traversal.SlashKeyRecordedAsTwoKeys | apollo-router/src/json_ext.rs:358 | a key `"a/b"` is recorded as the two keys `a` and `b` |
| Traversal.NestedFlattenExample | apollo-router/src/json_ext.rs:565-596 | `obj/arr/@/prop1/@/prop2` yields the four `prop3` objects in order, with their resolved paths |
| Sparse.FromPath | apollo-router/src/json_ext.rs:185-237 | the cursor loop builds the document `Build` describes |
| Sparse.NullArray | apollo-router/src/json_ext.rs:206-210 | the new vector holds `index + 1` nulls, so the slot at `index` exists and is `null` |
| Sparse.BuildReachesLeaf | apollo-router/src/json_ext.rs:195-235 | on a path without `Flatten`, following the path in the built document reaches the value |
| Sparse.BuildStopsAtFlatten | apollo-router/src/json_ext.rs:191-193 | the first `Flatten` returns the document built so far, with `null` at the cursor and the value dropped |
| Sparse.BuildWellFormed | apollo-router/src/json_ext.rs:221-231 | the built document has distinct keys when the value does |
| Sparse.SelectWhatWasBuilt | apollo-router/src/json_ext.rs:185-237 | selecting the path in the built document yields exactly the path with the value |
| Sparse.FromPathIndexExample | apollo-router/src/json_ext.rs:667-673 | `obj/arr/1` builds `{"obj":{"arr":[null, v]}}` |
| Sparse.FromPathFlattenExample | apollo-router/src/json_ext.rs:675-681 | `obj/arr/@/obj2` builds `{"obj":{"arr":null}}` |
| Insertion.Padded | apollo-router/src/json_ext.rs:260-262 | the array keeps its elements and is padded with `null` up to the requested length |
| Insertion.PadWithNulls | apollo-router/src/json_ext.rs:260-262 | the padding loop produces the padded array |
| Insertion.Descend | apollo-router/src/json_ext.rs:245-308 | one element of the path: either the node under the cursor is rewritten and the cursor moves down without changing what remains to be done, or the step fails with the document as it stands and the error `InsertAt` gives |
| Insertion.Insert | apollo-router/src/json_ext.rs:241-314 | the cursor loop produces the document and outcome that `InsertAt` describes, including changes left behind by a failure |
| Insertion.InsertedValueIsThere | apollo-router/src/json_ext.rs:244-313 | after a successful insert, following the path (a `Flatten` staying on its node) reaches the value |
| Insertion.InsertIntoNullIsFromPath | apollo-router/src/json_ext.rs:185-314 | on a path without `Flatten`, inserting into `null` succeeds and gives what `from_path` builds |
| Insertion.InsertKeepsSiblings | apollo-router/src/json_ext.rs:257-291 | the keys of the object stay in order and every other member is unchanged; an array grows to `index + 1` if needed, other elements unchanged or `null` |
| Insertion.NullCursorRewritten | apollo-router/src/json_ext.rs:267-301 | a `null` cursor becomes `index + 1` elements with `null` before the index, or a single-key object, whatever follows |
| Insertion.InsertErrors | apollo-router/src/json_ext.rs:246-308 | `Index`/`Flatten` on a non-array reports "expected an array", `Key` on a non-object reports "expected an object", a missing key panics; the node is untouched |
| Insertion.KeyAfterFlattenFails | apollo-router/src/json_ext.rs:246-308 | a `Key` directly after a `Flatten` always fails, after a `null` has already become `[]` |
| Insertion.InsertWellFormed | apollo-router/src/json_ext.rs:241-314 | inserting keeps every object's keys distinct |
| Insertion.InsertLeavesOtherPathsAlone | apollo-router/src/json_ext.rs:241-314 | any path that leaves the write path, with the write path's `Flatten` steps dropped because they stay on their node, resolves to the same value afterwards, for every write path |
| Insertion.SelectAfterInsert | apollo-router/src/json_ext.rs:241-314 | after a successful insert along a path without `Flatten`, selecting the path yields exactly the inserted value |
| Insertion.FlattenReadWriteAsymmetry | apollo-router/src/json_ext.rs:246-255 | `Flatten` reads every element, but an insert at `[@]` replaces the whole array, and `from_path` leaves `null` |
| Insertion.InsertExamples | apollo-router/src/json_ext.rs:267-301 | inserting `7` at `a/2` into `null` gives `{"a":[null,null,7]}`, and into `{}` panics |
| Merge.Merge | apollo-router/src/json_ext.rs:83-117 | merging `null` changes nothing, merging into `null` replaces it, and an object and an array never replace each other |
| Merge.MergeEntry | apollo-router/src/json_ext.rs:86-95 | one entry step keeps every existing key in its place |
| Merge.DeepMerge | apollo-router/src/json_ext.rs:83-117 | the method with its loops computes `Merge` |
| Merge.MergeArrays | apollo-router/src/json_ext.rs:97-103 | arrays merge position by position and keep the longer tail, so the length is the larger of the two |
| Merge.MergeReplaces | apollo-router/src/json_ext.rs:111-115 | outside the container arms, a non-null value replaces whatever was there |
| Merge.MergeObjects | apollo-router/src/json_ext.rs:85-96 | two objects merge to their members in place (merged where the other has the key) followed by the other's new members in its order |
| Merge.MergeIdempotent | apollo-router/src/json_ext.rs:83-117 | merging a document with distinct keys into a copy of itself gives the document |
| Merge.MergeWellFormed | apollo-router/src/json_ext.rs:83-117 | merging keeps every object's keys distinct |
| Merge.MergeSparseAtPath | apollo-router/src/json_ext.rs:83-117 | merging a sparse `from_path` document into one where the path resolves merges the value exactly at that path |
| Merge.DeepMergeExample | apollo-router/src/json_ext.rs:598-606 | the unit test's two documents merge to the expected one |
| Compare.EqAndOrdered | apollo-router/src/json_ext.rs:119-157 | the lock-step loops answer `EqOrdered`: same keys in the same order, same lengths, equal scalars |
| Compare.EqOrderedIsEquality | apollo-router/src/json_ext.rs:119-157 | on ordered documents, `eq_and_ordered` holds exactly when the documents are equal |
| Compare.EqOrderedEquivalence | apollo-router/src/json_ext.rs:119-157 | `eq_and_ordered` is reflexive, symmetric and transitive |
| Compare.IsSubset | apollo-router/src/json_ext.rs:159-182 | a subset has the same kind as its superset, an array subset has the superset's length, and two scalars are subsets exactly when they are equal |
| Compare.IsSubsetReflexive | apollo-router/src/json_ext.rs:159-182 | every document with distinct keys is a subset of itself |
| Compare.IsSubsetNeedsDistinctKeys | apollo-router/src/json_ext.rs:162-164 | with a repeated key, the lookup lands on the first member, so reflexivity fails |
| Compare.IsSubsetTransitive | apollo-router/src/json_ext.rs:159-182 | a subset of a subset is a subset |
| Compare.SubsetResolvesInSuperset | apollo-router/src/json_ext.rs:159-182 | every path that resolves in a subset resolves in the superset, to a superset of the value |
| Compare.SubsetOfExtended | apollo-router/src/json_ext.rs:632-638 | an object is a subset of itself with more members appended |
| Compare.ArrayLengthsMustAgree | apollo-router/src/json_ext.rs:624-630 | arrays of different lengths are never subsets of each other |
| Compare.ReorderedMembers | apollo-router/src/json_ext.rs:159-182 | two well-formed objects with the same members, in any order, are subsets of each other |
| Compare.SwappedMembers | apollo-router/src/json_ext.rs:119-182 | any two members with different keys and well-formed values, in either order, give objects that are subsets of each other but not `eq_and_ordered` |
| Compare.MemberOrderExample | apollo-router/src/json_ext.rs:640-657 | `{"foo":1,"bar":2}` and `{"bar":2,"foo":1}` are subsets of each other, yet not `eq_and_ordered` |
| Compare.ExtraPropExample | apollo-router/src/json_ext.rs:616-638 | an extra member is allowed in the superset but not in the subset |
| AcceptHeader.AnyHtml | apollo-router/src/warp_http_server_factory.rs:370-371 | true exactly when some entry, trimmed, is exactly `text/html` |
| AcceptHeader.PrefersHtmlEntries | apollo-router/src/warp_http_server_factory.rs:367-372 | a header prefers HTML exactly when one of its comma-separated entries, trimmed, is `text/html` |
| AcceptHeader.RedirectsToStudio | apollo-router/src/warp_http_server_factory.rs:217 | a missing header never redirects |
| AcceptHeader.SingleEntry | apollo-router/src/warp_http_server_factory.rs:367-372 | a header without commas prefers HTML exactly when it trims to `text/html` |
| AcceptHeader.JoinedEntries | apollo-router/src/warp_http_server_factory.rs:367-372 | a comma-joined list of entries prefers HTML exactly when one entry trims to `text/html` |
| AcceptHeader.EntryOrderIrrelevant | apollo-router/src/warp_http_server_factory.rs:369-371 | swapping two groups of entries does not change the answer |
| AcceptHeader.MoreEntriesKeepPreference | apollo-router/src/warp_http_server_factory.rs:369-371 | adding entries before or after never turns a preference for HTML off |
| AcceptHeader.MatchingExamples | apollo-router/src/warp_http_server_factory.rs:367-372 | `text/html`, ` text/html ` and `application/json, text/html` prefer HTML |
| AcceptHeader.NonMatchingExamples | apollo-router/src/warp_http_server_factory.rs:369-371 | `text/html;q=0.9`, `Text/HTML`, the empty header and `application/json` do not |
| AcceptHeader.RedirectExamples | apollo-router/src/warp_http_server_factory.rs:501-546 | `text/html` redirects; `application/json` and a missing header do not |

## Left out

- The server's accept loop, shutdown, warp routes, CORS, `redirect_to_studio`,
  `run_graphql_request`, `stream_request` and the percent-decoding at
  `warp_http_server_factory.rs:224` are not modelled. They are I/O,
  concurrency and calls into libraries. `HeaderMapCarrier`, which does trace
  propagation, is left out for the same reason.
- `apollo-router/src/plugins/telemetry/metrics/prometheus.rs` is not part
  of this model. It wraps an exporter library.
- Numbers are unbounded integers. Floating-point numbers and integer-versus-float
  equality are not modelled.
- Object equality: the router's map compares objects regardless of member
  order, while `==` on the model's ordered objects is structural. The model
  applies `==` only where the source's `(a, b) => a == b` arms reach it,
  which is between scalars or values of different kinds, where the two
  notions agree.
- `failfast_debug!` at `json_ext.rs:106,109` is logging. The model keeps
  only its effect, which is to leave `self` unchanged.
- The helper macros at `json_ext.rs:14-40` are pattern-matching sugar used
  elsewhere in the router. They are not modelled.
- `Path::len`, `Path::is_empty`, `Path::iter` and `Path::empty` are `|p|`,
  `p == []`, the sequence itself and `[]`. They need no member of their own.
- Keys are `ByteString` in the source and plain strings here. The
  traversal callback is the returned sequence of pairs, so what a callback
  does with them is not modelled.
- Insertion.Insert: at `index == usize::MAX` the source's `index + 1` at
  `json_ext.rs:260,269` overflows. The run then ends in a panic: the
  overflow check in a debug build, or in a release build the `expect` at
  `json_ext.rs:263-265` or `274-278`, because the wrapped bound pushes
  nothing and the slot is missing. The model pads with `null` up to
  `index + 1` instead, so it does not model that panic. Such a padded array
  could not be held in memory anyway.
- Traversal.SelectSound: it is stated for documents whose arrays have at
  most 2^64 elements (`Addressable`) and for paths whose keys are not usize
  text, `"@"` or slashed (`PlainPath`). Outside that, the recorded path is
  re-parsed into something else (see `Traversal.NumericKeyRecordedAsIndex`
  and `Traversal.SlashKeyRecordedAsTwoKeys`). The same applies to
  Traversal.SelectComplete.
- Traversal.SelectInDocumentOrder: it needs only `Addressable`, so that every
  array position is recorded as an `Index`. Key re-parsing does not affect
  the order.
- Merge.Merge: its own contract covers only the `null` and conflict arms.
  The other arms are stated by Merge.MergeArrays, Merge.MergeReplaces and
  Merge.MergeObjects, which needs distinct keys on both sides.
- AcceptHeader.PrefersHtml has no contract of its own. What it answers is
  stated by AcceptHeader.PrefersHtmlEntries, AcceptHeader.SingleEntry and
  AcceptHeader.JoinedEntries.
