# evc-mesh: a verified model of the domain core

This project models the decision logic of evc-mesh in Dafny and proves what that logic is relied on for. Objects and
algorithms the program updates in place (the cycle finder, the canonical writer, the route walk, the token table, the
memories table) are classes and methods with loops, proved against specification functions or predicates; the laws are
lemmas over every input, every run or every interleaving. The modules named `...Laws`, and lemmas named `...InWords` or
`...InNumbers`, tell what an operation does in the columns, fields and numbers of its input, apart from the definitions
it is built from, and so check those definitions too.

Parts, each with its files:

- **Dependency cycles** (`BlockingGraph`, `CycleSearch`, `CycleFinder`). Tarjan's search with its shared maps and stack.
  The result is the cycle map of the graph, defined by paths alone, and every adjacency slot is scanned once.
- **Canonical JSON** (`Utf8`, `JsonText`, `JsonGrammar`, `CanonicalText`, `ShortestText`, `CanonicalJson`). The writer, a
  decoder that is exactly the grammar of RFC 8259, the round trip between them, why the written text is the only one it can
  be, and the exact conditions under which two bodies hash the same text.
- **Duplicate keys** (`DuplicateKeys`, `DuplicateLaws`). The explicit-stack scanner and the recursive checker against one
  definition.
- **Runtime router** (`RuntimeCatalog`, `RuntimePreview`, `RuntimeGroups`, `RuntimeWalk`, `WalkOrder`, `RuntimeRoute`,
  `RuntimeDecision`, `AssessmentLaws`, `GroupLaws`, `TraceLaws`, `PreviewLaws`). The walk as a determined step-by-step
  specification, one invariant kept by every inspection of a route over a possibly cyclic quota-edge graph, the tables that
  fix every assessment, and what a preview guarantees.
- **Admission arithmetic** (`Admission`, `AdmissionLaws`). Wrapping machine arithmetic against integers, with the exact
  difference.
- **Catalog** (`CatalogReferences`, `CatalogLaws`, `RuntimeSchema`, `CatalogProjection`, `ProjectionLaws`, `SliceLaws`,
  `StraySlice`, `ProfilePools`). Reference validation, what the schema adds to it, the slice a controller is served, and the
  pools a profile draws from.
- **Refresh tokens** (`TokenRotation`, `TokenService`, `TokenLaws`). A state machine of atomic steps in any interleaving,
  statements that fail or lose their answer included, and the sequential service code against the same steps. The scheme is
  the rotation of section 10.4 of RFC 6749.
- **Table repairs** (`MemoryCollapse`, `CollapseGroups`, `CollapseRun`, `CollapseLaws`, `LayeredKeys`, `KeyBackfill`,
  `BackfillLaws`). Two batch jobs: what one run makes of the table, and that a second run does nothing.
- **Handoff chains** (`Handoff`) and **embeddings** (`Embedding`).

`Options`, `Alphabet` and `Ordering` hold the option type, bytes and digits, string order and sorting.

## Conventions

A Go string is a Dafny `string` whose characters are Unicode scalar values, so it is always valid UTF-8; a UUID is its
text. A Go map read at a missing key gives the zero value (`ListAt`, `StringAt`, `ProfileAt`, `AccountAt`). A walk over a
Go map is a loop that takes the remaining keys in an unspecified order. A time is an integer. A table is a map from ids
to rows, one SQL statement is one atomic step, and the answer of a query is a parameter constrained by its WHERE and
ORDER BY clauses. Clocks, generated tokens, nonces, the cipher and what other sessions do are parameters.

Where the code and its own comments differ, the model follows the code:

- `Decoder.More` is false in front of `]` or `}`, so such a trailing character passes `CanonicalJSONBytes`
  (internal/domain/transition_wire.go:49-51): `CanonicalJson.TrailingCloserPasses` and, with the exact condition,
  `CanonicalJson.TrailingDataRefusedIff`.
- `PayloadDigestV1` accepts the document `null` and hashes `null` (internal/domain/transition_wire.go:80-89):
  `CanonicalJson.NullBodyIsHashed` and `CanonicalJson.NullBodyIff`.
- The post-check of the key backfill asks for one layer, not for the tag, so one untagged layer passes it and is still
  due in the next run (cmd/encrypt-integration-keys/main.go:248-279): `KeyBackfill.UntaggedLayerPassesCheck`.
- A valid catalog can have a slice that is not valid (internal/domain/runtime.go:573-576):
  `StraySlice.SliceOfValidCanBeInvalid`, with the exact condition `ProjectionLaws.SliceIsValidIff`.
- Two pools with different physical keys can share a canonical id (internal/domain/runtime_reservation.go:154-157):
  `ProfilePools.DifferentPoolsCanShareId`.

## Model

| member | source | states |
|---|---|---|
| `CycleFinder.GraphCycleComponents` | internal/domain/dependency_graph_cycles.go:11-74 | The result is the cycle map: its keys are exactly the tasks on a directed cycle of blocks edges, each mapped to the sorted list of its whole strongly connected component; every adjacency slot is scanned exactly once |
| `CycleFinder.Finder.Visit` | internal/domain/dependency_graph_cycles.go:33-67 | One call keeps the search invariant with its callers still open, numbers its task, leaves the stack below it as it was, makes its low link reachable and a bound, and scans every slot of every task it numbers once |
| `CycleFinder.Finder.ScanList` | internal/domain/dependency_graph_cycles.go:39-48 | The edge loop scans every slot of its task once and leaves the low link reachable from the task and a lower bound for all its edges |
| `CycleFinder.Finder.ScanSlot` | internal/domain/dependency_graph_cycles.go:39-48 | One step of the edge loop keeps the low link reachable from the task and a lower bound for the edges scanned |
| `CycleFinder.Finder.Leave` | internal/domain/dependency_graph_cycles.go:49-67 | When the low link is the task's own number the top of the stack is finished as one component; otherwise the task stays open with a path to something below it |
| `CycleFinder.Finder.Pop` | internal/domain/dependency_graph_cycles.go:50-59 | The popping loop removes exactly the stack from the task upwards and marks it off the stack |
| `CycleFinder.Finder.Record` | internal/domain/dependency_graph_cycles.go:60-65 | Recording keeps: every finished task on a cycle, and no other, has its sorted component |
| `CycleFinder.BuildAdjacency` | internal/domain/dependency_graph_cycles.go:12-25 | The adjacency lists and self flags hold exactly the blocks edges, and their keys are exactly the endpoints of those; other dependency types leave no trace |
| `CycleFinder.ResultIgnoresEdgeOrder` | internal/domain/dependency_graph_cycles.go:11-74 | Two dependency lists with the same blocks edges, in any order and with any repetition, have the same result |
| `BlockingGraph.CycleMapIsUnique` | internal/domain/dependency_graph_cycles.go:11-74 | A graph has one cycle map, so the map walk order cannot show in the result |
| `BlockingGraph.CyclesInChains` | internal/domain/dependency_graph_cycles.go:11-74 | Of the dependencies themselves: the keys of the result are the tasks a chain of two or more blocks dependencies leads back to, and a task is listed with another exactly when chains lead from each to the other |
| `BlockingGraph.OnCycleIff` | internal/domain/dependency_graph_cycles.go:60-65 | A task lies on a cycle exactly when it has a self edge or shares its component with another task |
| `BlockingGraph.MutualIsEquivalence` | internal/domain/dependency_graph_cycles.go:9-11 | Mutual reachability is reflexive on tasks, symmetric and transitive, so components partition the tasks |
| `CycleSearch.Enter` | internal/domain/dependency_graph_cycles.go:34-38 | Numbering and pushing a task keeps the search invariant |
| `CycleSearch.LeaveOpen` | internal/domain/dependency_graph_cycles.go:49-67 | Leaving a task open keeps the search invariant |
| `CycleSearch.TopIsComponent` | internal/domain/dependency_graph_cycles.go:49-59 | When nothing above a task leads below it, the stack from that task up is exactly its strongly connected component |
| `CycleSearch.PopTop` | internal/domain/dependency_graph_cycles.go:51-59 | Popping a finished component keeps the search invariant |
| `Utf8.ByteOrderIsCodePointOrder` | internal/domain/transition_wire.go:116-121 | Byte order on UTF-8 equals code-point order (section 1 of RFC 3629), so Go's key order is Python's |
| `Utf8.EncodeInjective` | internal/domain/transition_wire.go:142-171 | Different strings have different UTF-8 bytes |
| `Utf8.FormsInNumbers` | internal/domain/transition_wire.go:142-171 | Every rune is written in the form of section 3 of RFC 3629 for its range, whose bits add up to its code point |
| `CanonicalText.KeyOrderIsForced` | internal/domain/transition_wire.go:116-121 | The order in which an object's keys are written is a function of the key set alone |
| `Ordering.LessInWords` | internal/domain/transition_wire.go:116-121 | A string is below another exactly when it ends where the other goes on or has the smaller character where they first differ |
| `CanonicalText.ReadString` | internal/domain/transition_wire.go:140-171 | Decoding a written string (section 7 of RFC 8259) gives the string back and stops at its closing quote |
| `CanonicalText.ReadNumber` | internal/domain/transition_wire.go:101-102 | A number literal is read back as the same literal, whatever follows it in a document |
| `CanonicalText.ReadValue` | internal/domain/transition_wire.go:91-138 | Decoding the canonical text of any value gives that value back, leaving what follows |
| `CanonicalText.TextInjective` | internal/domain/transition_wire.go:91-138 | Two values with the same canonical text are equal |
| `CanonicalText.BytesInjective` | internal/domain/transition_wire.go:42-57 | Two values with the same canonical bytes are equal |
| `CanonicalText.ParsedIsDecodable` | internal/domain/transition_wire.go:42-48 | Every value the decoder delivers is one the writer's round trip covers |
| `JsonGrammar.DecoderIsGrammar` | internal/domain/transition_wire.go:42-48 | In front of anything that could not go on with a number, the decoder reads a value from a text exactly when the grammar of RFC 8259 has white space and a spelling of that value there, the last of repeated members counting |
| `JsonGrammar.ReadSpelled` | internal/domain/transition_wire.go:42-48 | A string spelled in characters, short escapes and \u escapes is read as what these mean: a surrogate pair as one character, a lone surrogate as U+FFFD |
| `JsonGrammar.LiteralsAreNumbers` | internal/domain/transition_wire.go:42-48 | The number literals are exactly an optional minus, an integer without leading zeros, a fraction and an exponent |
| `ShortestText.ShortestString` | internal/domain/transition_wire.go:140-171 | No spelling of a string the decoder accepts is shorter than the written one |
| `ShortestText.EscapesAreLowerCase` | internal/domain/transition_wire.go:162-165 | No escape is written with an upper-case letter |
| `ShortestText.ShortestValue` | internal/domain/transition_wire.go:91-138 | No spelling of a value the decoder accepts is shorter than its canonical text |
| `ShortestText.KeysStandInOrder` | internal/domain/transition_wire.go:116-133 | A reader of an object's text meets its keys once each, in the order of their UTF-8 bytes |
| `ShortestText.CanonicalIsShortest` | internal/domain/transition_wire.go:42-57 | What is canonicalised is the value decoded, and the result is never longer than the document |
| `ShortestText.PreimageInWords` | internal/domain/transition_wire.go:79-89 | An object body is hashed with every member but idempotency_key, each with its value |
| `CanonicalJson.WriteCanonicalString` | internal/domain/transition_wire.go:142-171 | Appends exactly the UTF-8 bytes of the quoted, escaped string |
| `CanonicalJson.SortedKeys` | internal/domain/transition_wire.go:117-121 | Collecting and sorting gives the forced key order |
| `CanonicalJson.WriteCanonical` | internal/domain/transition_wire.go:91-138 | Appends exactly the canonical text of the value |
| `CanonicalJson.WriteArray` | internal/domain/transition_wire.go:105-115 | Appends the items between brackets with single commas |
| `CanonicalJson.WriteObject` | internal/domain/transition_wire.go:116-133 | Appends the fields in key order between braces |
| `CanonicalJson.CanonicalJSONBytes` | internal/domain/transition_wire.go:42-57 | Fails exactly when the document has no value or more follows it; else returns the bytes of the value's canonical text |
| `CanonicalJson.TrailingDataRefusedIff` | internal/domain/transition_wire.go:49-51 | A document whose value has something other than space behind it is refused exactly when that starts with neither ] nor } |
| `CanonicalJson.TrailingCloserPasses` | internal/domain/transition_wire.go:49-51 | The text 1] is taken for the document 1 |
| `CanonicalJson.PayloadPreimageV1` | internal/domain/transition_wire.go:79-89 | The hashed text is the canonical text of the body without idempotency_key |
| `CanonicalJson.NullBodyIff` | internal/domain/transition_wire.go:80-85 | A body is taken exactly when its value is an object or null, and taken as null exactly when its value is null |
| `CanonicalJson.NullBodyIsHashed` | internal/domain/transition_wire.go:80-89 | The body null is not refused: the text null is hashed |
| `CanonicalJson.CanonicalIsStable` | internal/domain/transition_wire.go:40-57 | Canonicalising twice equals canonicalising once |
| `CanonicalJson.SameBytesIffSameValue` | internal/domain/transition_wire.go:40-57 | Two documents have the same canonical bytes exactly when they decode to the same value |
| `CanonicalJson.SamePreimageIff` | internal/domain/transition_wire.go:79-89 | Two bodies have the same digest input exactly when they are equal apart from idempotency_key |
| `DuplicateKeys.RejectDuplicateKeys` | internal/domain/native_review.go:238-292 | On the token stream of any document the scanner accepts exactly when no object at any depth repeats a key |
| `DuplicateKeys.ScanValue` | internal/domain/native_review.go:249-291 | From any stack where a value may start, the scanner passes a clean value, back to the stack it had, and refuses any other |
| `DuplicateKeys.RuntimeJSONValue` | internal/domain/runtime.go:269-311 | The recursive checker reads the decoder exactly as its specification on the unread tokens says |
| `DuplicateKeys.CheckValueIff` | internal/domain/runtime.go:269-311 | That specification consumes a document exactly when no key repeats, nesting stays within 32 and no disallowed null occurs |
| `DuplicateKeys.ChecksAgree` | internal/domain/runtime.go:269-311 | The two checks agree on duplicates for every document within the depth and null rules |
| `DuplicateLaws.ScannerAccepts` | internal/domain/native_review.go:238-292 | The scanner accepts a document exactly when no object anywhere inside repeats a key |
| `DuplicateLaws.CheckerAccepts` | internal/domain/runtime.go:269-311 | The checker consumes a document exactly when nothing lies more than 32 levels inside, no object inside repeats a key and, unless allowed, nothing inside is null |
| `RuntimePreview.AssessProfile` | internal/domain/runtime_preview.go:110-158 | The assessment's branches and loop give the specified reason for every profile |
| `RuntimePreview.PoolsVerdictMeaning` | internal/domain/runtime_preview.go:131-157 | Available needs fresh evidence that every pool is available; quota_blocked needs one exhausted pool and none in an unknown state |
| `RuntimePreview.AvailableIffUsable` | internal/domain/runtime_preview.go:110-158 | A profile is assessed available exactly when it is permitted, admitted, enabled, opted in, capable, with a current controller and every pool freshly available |
| `RuntimePreview.Relaxable` | internal/domain/runtime_preview.go:165-184 | Strict review may be relaxed exactly when the fallback is on, every permitted and admitted model is known, one is independent and all independent ones are confirmed quota_blocked |
| `AssessmentLaws.VerdictIsTabled` | internal/domain/runtime_preview.go:131-157 | Each verdict over the pools has its condition: blocked only when a fresh verified fact in its time window is known of every pool, unavailable or unknown at the first pool without one or in another state |
| `AssessmentLaws.AssessmentIsTabled` | internal/domain/runtime_preview.go:110-158 | A table in the fields of catalog, binding and evidence fixes the assessment of every profile, available or not |
| `AssessmentLaws.ReviewerSharesNothing` | internal/domain/runtime_preview.go:69-79 | A profile is an independent reviewer exactly when its model is known and shares neither developer nor family with any author, all of them known |
| `AssessmentLaws.RelaxedOnlyForQuota` | internal/domain/runtime_preview.go:159-184 | When strict review may be relaxed, by the same table |
| `RuntimeGroups.Groups` | internal/domain/runtime_preview.go:187-221 | Groups are the maximal runs of one provider and mode, each reordered by the account preference |
| `RuntimeGroups.GroupingLaws` | internal/domain/runtime_preview.go:185-221 | Flattened, the groups are a permutation of the input with the provider and mode sequence unchanged |
| `RuntimeGroups.PreferredComeFirst` | internal/domain/runtime_preview.go:204-219 | Inside a group the preferred account's profiles come first and both halves keep their order |
| `RuntimeGroups.PreferFirstPermutes` | internal/domain/runtime_preview.go:208-217 | The reordering of a group neither loses nor adds a profile and keeps its class |
| `RuntimeGroups.GroupingKeepsRefs` | internal/domain/runtime_preview.go:187-221 | Grouping loses and adds no reference and makes no empty group |
| `GroupLaws.GroupsInWords` | internal/domain/runtime_preview.go:187-221 | Grouping permutes a list, leaves the provider and mode at every position, and keeps the order among the profiles of preferred accounts and among the others |
| `GroupLaws.EachGroupInWords` | internal/domain/runtime_preview.go:187-221 | Each group is of one provider and mode, has its preferred profiles in front, and differs from the next in provider or mode |
| `RuntimeWalk.StopStays` | internal/domain/runtime_preview.go:263-275 | A profile that stops a group stops the whole group, whatever follows it |
| `RuntimeWalk.WalkIsDetermined` | internal/domain/runtime_preview.go:258-287 | From one state and worklist the walk has one result |
| `RuntimeWalk.RouteIsDetermined` | internal/domain/runtime_preview.go:226-319 | A route's trace, attempts, selection, reason and finality are a function of inputs, filter and starting reason |
| `WalkOrder.FrontIsDepthFirst` | internal/domain/runtime_preview.go:258-287 | With new edges in front of it the worklist gives what the depth-first recursion gives |
| `WalkOrder.BehindIsLayerByLayer` | internal/domain/runtime_preview.go:258-287 | With new edges behind it the worklist goes layer by layer |
| `RuntimeRoute.Router.Inspect` | internal/domain/runtime_preview.go:230-249 | Refines the specified look: a profile is judged once, a filtered one spends no attempt, and past the limit nothing is traced |
| `RuntimeRoute.Router.Try` | internal/domain/runtime_preview.go:263-279 | Refines the specified turn and keeps the route sound: distinct profiles, attempts within the limit, true reasons, each profile reached through blocked ones, primaries first |
| `RuntimeRoute.Router.TryGroup` | internal/domain/runtime_preview.go:259-279 | A whole group refines the specified turns, keeps soundness, and either ends the walk or leaves exactly its edges to be walked |
| `RuntimeRoute.Router.Walk` | internal/domain/runtime_preview.go:258-287 | The worklist terminates on any quota-edge graph, gives the specified walk's result, and ends found, out of attempts, at unknown evidence, or with everything reachable inspected and rejected |
| `RuntimeRoute.Router.RouteFromSource` | internal/domain/runtime_preview.go:293-298 | Gives the specified route from the source: final exactly when the source has no quota trigger, else a depth-first walk of its edges |
| `RuntimeRoute.Router.RouteFromPrimaries` | internal/domain/runtime_preview.go:300-318 | Gives the specified route from the primaries: final exactly when the first has no quota trigger, every primary before any reserve edge |
| `RuntimeRoute.Router.Route` | internal/domain/runtime_preview.go:226-319 | Every route is the specified one, is sound, and when not final tells how it ended |
| `RuntimeRoute.SoundAppend` | internal/domain/runtime_preview.go:230-249 | Appending a judged profile that was led to keeps every clause of soundness |
| `RuntimeRoute.TracedIsReached` | internal/domain/runtime_preview.go:263-286 | Every traced profile is reached from a root by quota edges out of blocked profiles only |
| `RuntimeRoute.ReachedIsTraced` | internal/domain/runtime_preview.go:258-287 | A route that ran out of candidates has traced everything so reachable |
| `RuntimeDecision.Refusal` | internal/domain/runtime_preview.go:83-109 | The checks before a route let exactly the enabled, well-formed requests with exact provenance and a non-author reviewer through |
| `RuntimeDecision.PreviewRuntime` | internal/domain/runtime_preview.go:82-359 | Gives the specified preview; a selected profile is usable, the only available entry and the last of its trace; in strict review it is independent of every author unless QACompromise is set, which happens only when relaxing is allowed and then it is not independent; wherever a filtered route is replaced or strict review refused, reviewers were sought first |
| `RuntimeDecision.AfterFirstRoute` | internal/domain/runtime_preview.go:331-359 | What follows the first route is its result, a refusal to relax, or the result of an unfiltered route, and keeps what review promises |
| `RuntimeDecision.SecondRoute` | internal/domain/runtime_preview.go:342-347 | The unfiltered route and the preview it gives, marked as a compromise exactly in strict mode |
| `RuntimeDecision.PreviewIsDetermined` | internal/domain/runtime_preview.go:82-359 | The specified preview is a function of the inputs: refusals in order, the filtered route, the refusal to relax, the unfiltered route |
| `RuntimeDecision.RunRoute` | internal/domain/runtime_preview.go:226-319 | One route's selection and reason with what its trace then shows |
| `RuntimeDecision.SelectedIsUsable` | internal/domain/runtime_preview.go:348-357 | A selected profile was assessed available, and under the filter it is an independent reviewer |
| `RuntimeDecision.NoRouteMissed` | internal/domain/runtime_preview.go:226-347 | A preview without a route missed none: its attempts are spent, or nothing reachable through blocked profiles would have been accepted |
| `RuntimeDecision.NoReviewerMissed` | internal/domain/runtime_preview.go:331-347 | Behind a strict refusal, a preference not met and a compromise: the filtered route spent its attempts, or no usable independent reviewer is reachable through profiles it found blocked |
| `RuntimeDecision.SelectedIsReached` | internal/domain/runtime_preview.go:226-319 | The selected profile is reached from a primary or the source through blocked profiles |
| `RuntimeDecision.ReserveComesLast` | internal/domain/runtime_preview.go:300-318 | On a new launch a non-primary is selected only after every primary was inspected and rejected |
| `RuntimeDecision.CompromiseIsNotIndependent` | internal/domain/runtime_preview.go:331-347 | When strict review may be relaxed no usable profile is an independent reviewer |
| `PreviewLaws.RefusalsInWords` | internal/domain/runtime_preview.go:83-109 | Which request is refused before a route, and with which reason, in its own fields; a refused one shows nothing |
| `PreviewLaws.FirstCandidateInWords` | internal/domain/runtime_preview.go:288-318 | Which preview is over at its source or at its first primary |
| `PreviewLaws.SelectionInWords` | internal/domain/runtime_preview.go:348-357 | A preview shows a selection exactly with its two reasons, and then the profile's account and the account its provider prefers |
| `PreviewLaws.CompromiseInWords` | internal/domain/runtime_preview.go:95-97 | The review mode shown; a compromise only in strict mode and where relaxing is allowed; strict review unavailable only where it is not |
| `PreviewLaws.UnfilteredFollows` | internal/domain/runtime_preview.go:331-347 | In strict and prefer mode a filtered route without a reviewer, for want of candidates or attempts, is followed by an unfiltered one, whose trace and selection are shown |
| `TraceLaws.TraceInWords` | internal/domain/runtime_preview.go:226-287 | Every profile is looked at once, with the reason of the table or the filter, and led to by an earlier blocked entry unless it is a root; only the last entry is available or unknown, and unknown evidence is reported as such |
| `TraceLaws.BlockedOnFreshEvidence` | internal/domain/runtime_preview.go:131-157 | A quota- or threshold-blocked entry of a trace has a fresh fact for every pool it draws on, and one pool that is exhausted or at its threshold |
| `TraceLaws.PrimariesBeforeEdges` | internal/domain/runtime_preview.go:300-318 | On a new launch every primary stands before any profile that is none |
| `TraceLaws.NothingLeftOut` | internal/domain/runtime_preview.go:258-287 | Where no route is available, every root and every target of an edge out of a blocked entry was looked at, and none was available or unknown |
| `TraceLaws.AttemptsInWords` | internal/domain/runtime_preview.go:235-249 | At most as many entries as attempts are allowed, those skipped by the filter not counted |
| `TraceLaws.SourceRouteDives` | internal/domain/runtime_preview.go:288-298 | From the source a route is a depth-first recursion over the groups of its edges |
| `TraceLaws.PrimaryRouteIsLayered` | internal/domain/runtime_preview.go:300-318 | From the primaries a route selects the first one if available, and else goes layer by layer over the other primaries, the edges of the first and what these lead to |
| `Admission.ParseNeverOverflows` | internal/domain/native_review.go:444-455 | The canonical pattern keeps every value below 10^19, so the overflow refusal can never happen |
| `Admission.ParseIsInjective` | internal/domain/native_review.go:444-455 | Two texts that parse to one value are the same text |
| `Admission.AdmittedIff` | internal/domain/native_review.go:488-516 | Wrapping arithmetic admits exactly when the integer predicate holds and om + (ex - ow) stays below 2^64 |
| `Admission.ValidWindowMeansIdeal` | internal/domain/native_review.go:430-440 | Once the window passed Validate, the machine check and the integer predicate are the same |
| `Admission.AdmissionIsSound` | internal/domain/native_review.go:467-517 | Any admission, validated or not, implies the integer predicate, the sample at most 800 ms after the outer start and at least 195 ms of wall time before expiry |
| `Admission.UnvalidatedWindowRefusesMore` | internal/domain/native_review.go:494-500 | Without the window check a concrete request inside the integer predicate is refused because the sum wraps |
| `Admission.SkewTest` | internal/domain/native_review.go:505-512 | The wrapped skew test accepts exactly the skews within the bound, and those of one family that wraps back into it, which only samples beyond the budget reach |
| `AdmissionLaws.TimesAreNumerals` | internal/domain/native_review.go:444-455 | The times are the texts of one to nineteen decimal digits without a leading zero, each with its decimal value |
| `AdmissionLaws.WindowInNumbers` | internal/domain/native_review.go:430-440 | A window is valid exactly when it starts after 0, is not empty, ends below 2^63 and is at most 60 s long |
| `AdmissionLaws.CheckInNumbers` | internal/domain/native_review.go:467-517 | Every verdict of the machine check, for all clocks and windows, as a chain of comparisons of integers |
| `AdmissionLaws.AdmittedInNumbers` | internal/domain/native_review.go:467-517 | Admission in nanoseconds: skew within 5 ms, at most 800 ms since the start, 200 ms left of the window, and no wrap |
| `AdmissionLaws.AdmissionInNumbers` | internal/domain/native_review.go:457-517 | The binding first, then the texts, then that chain |
| `CatalogReferences.ValidateReferences` | internal/domain/runtime.go:439-537 | No error exactly when no field is bad; every bad field is reported, on unambiguous pools no other, and each with a code that is its own, whatever order the maps are walked in |
| `CatalogReferences.PoolErrors` | internal/domain/runtime.go:444-460 | Reports exactly the pools whose physical key an earlier pool has, or whose aliases clash with a name, each other or an earlier pool's |
| `CatalogReferences.AccountErrors` | internal/domain/runtime.go:461-472 | Reports every account mode with a reference that leads to no pool of its provider, and no other when pools are unambiguous |
| `CatalogReferences.ListError` | internal/domain/runtime.go:463-470 | The code is one the first failing reference can get, with no failing reference before it; there is none only when every reference leads to a pool of the provider, on ambiguous pools too |
| `CatalogReferences.FailureIsBadReference` | internal/domain/runtime.go:463-470 | On unambiguous pools a reference fails exactly when it leads to no pool of the provider, and with one code |
| `CatalogReferences.ProfileErrors` | internal/domain/runtime.go:473-489 | Reports exactly the profiles with a missing controller or account, a mode without pools, or a capability the controller lacks |
| `CatalogReferences.BindingErrors` | internal/domain/runtime.go:490-535 | Reports exactly the bindings with a repeated identity, an unknown profile, an unpermitted primary or edge end, or a bad preference |
| `CatalogReferences.PreferenceError` | internal/domain/runtime.go:516-534 | Some code is reported exactly when a preferred account is missing, of another provider or used by no permitted profile, and it is the code of such an account |
| `CatalogReferences.AddExtends` | internal/domain/runtime.go:335-346 | Reporting keeps every earlier code of a field and adds only a code of the field reported |
| `CatalogReferences.ValidPools` | internal/domain/runtime.go:452-459 | No alias field is bad exactly when pool names and aliases are all different |
| `CatalogReferences.ValidIsUnambiguous` | internal/domain/runtime.go:427-437 | In a valid catalog every reference resolves to at most one pool |
| `CatalogLaws.ValidInWords` | internal/domain/runtime.go:439-537 | A catalog is valid exactly when pools and identities are distinct, every account finds its pools, and profiles and bindings name only what exists and is permitted |
| `CatalogLaws.FieldsInWords` | internal/domain/runtime.go:444-535 | Which field is reported for which fault |
| `CatalogLaws.CodesInWords` | internal/domain/runtime.go:444-535 | Which code each reported field can get |
| `RuntimeSchema.AcceptedFitsTheRouter` | internal/domain/runtime.go:393-425 | Every binding of a catalog the parser lets through meets what the router takes for granted: unambiguous references, a first primary, at least one attempt, no profile without a name |
| `CatalogReferences.ResolveAnyPool` | internal/domain/runtime.go:427-437 | Finds a pool the reference names or is an alias of, if there is one |
| `RuntimeCatalog.ResolvedIsUnique` | internal/domain/runtime.go:427-437 | On unambiguous pools the result does not depend on the walk |
| `CatalogProjection.DesiredFor` | internal/domain/runtime.go:573-655 | Exists exactly for known controllers; profiles, accounts and bindings are the specified slice on every catalog, pools too when unambiguous, and else hold a pool for every drawn reference and no undrawn one |
| `CatalogProjection.CollectProfiles` | internal/domain/runtime.go:587-610 | The profile loop builds the own profiles, their accounts narrowed to the modes used, and the pools drawn |
| `CatalogProjection.CollectBindings` | internal/domain/runtime.go:621-653 | The binding loop keeps exactly the bindings that permit an own profile, each rewritten |
| `CatalogProjection.RewriteBinding` | internal/domain/runtime.go:626-652 | Lists, edges, preferred accounts and reserve providers are filtered as specified, order and repetition kept |
| `ProjectionLaws.SliceBreaksOnlyPreference` | internal/domain/runtime.go:442-537 | Each clause of validation, clause by clause: a slice of a valid catalog breaks none but a preferred account that is stray |
| `ProjectionLaws.SliceIsValidIff` | internal/domain/runtime.go:573-655 | The slice of a valid catalog is valid exactly when no binding it serves prefers an account that only unpermitted own profiles use |
| `StraySlice.SliceOfValidCanBeInvalid` | internal/domain/runtime.go:636-642 | A concrete catalog that passes the schema and the reference rules, and whose slice fails validation |
| `ProjectionLaws.ProjectionIsIdempotent` | internal/domain/runtime.go:573-655 | Projecting the slice again gives the slice, for every catalog |
| `ProjectionLaws.NonInterference` | internal/domain/runtime.go:573-655 | Other controllers' profiles, bindings that permit no own profile, pools no own profile draws from, and accounts and pool lists of modes not used here cannot change the slice |
| `ProjectionLaws.NothingForeign` | internal/domain/runtime.go:573-576 | Every profile, account and provider a binding of the slice mentions is in the slice and belongs to this controller |
| `ProjectionLaws.ServedBindings` | internal/domain/runtime.go:621-625 | A binding is in the slice exactly when it permits an own profile |
| `SliceLaws.SliceBinding` | internal/domain/runtime.go:621-653 | A binding of the slice has the catalog's lists cut down to this controller's profiles or the providers of the accounts they use, order and repetition kept, and everything else as it was |
| `SliceLaws.SliceProfiles` | internal/domain/runtime.go:587-591 | The profiles of the slice are the controller's, unchanged |
| `SliceLaws.SliceAccounts` | internal/domain/runtime.go:592-605 | The accounts of the slice are those its profiles use, with the pool lists of the modes they use them in |
| `SliceLaws.SlicePools` | internal/domain/runtime.go:606-610 | The pools of the slice are those its profiles list, by name or alias, unchanged |
| `ProfilePools.RuntimeProfilePools` | internal/domain/runtime_reservation.go:165-193 | Succeeds exactly when profile, account and a non-empty fully resolving list exist; the ids are sorted, without repeats, one at least for every reference and each led to by a reference, on unambiguous pools exactly those the references lead to |
| `ProfilePools.OnlyPoolList` | internal/domain/runtime_reservation.go:177-193 | On unambiguous pools the list is determined: it holds exactly the ids the references lead to, whatever the map order |
| `ProfilePools.PoolListInWords` | internal/domain/runtime_reservation.go:165-193 | The ids are owner, provider and resource, with colons between, of the pools the account lists for the profile's mode |
| `ProfilePools.SliceGivesSamePools` | internal/domain/runtime_reservation.go:165-193 | For every profile of the controller, the catalog and the slice give the same ids, or neither gives any |
| `ProfilePools.ValidIsDerivable` | internal/domain/runtime_reservation.go:167-182 | In a valid catalog every profile has a pool list |
| `ProfilePools.AliasAndOrderDoNotMatter` | internal/domain/runtime_reservation.go:177-193 | Replacing a pool by one of its aliases and reordering the references leaves the ids alone |
| `ProfilePools.MatchedListsAgree` | internal/domain/runtime_reservation.go:177-193 | Lists whose references lead to the same pools, one by one, give the same ids |
| `ProfilePools.DigestInputIff` | internal/domain/runtime_reservation.go:195-201 | Two non-empty lists of one-line ids have one digest input exactly when one reorders the other |
| `ProfilePools.DigestInputInLines` | internal/domain/runtime_reservation.go:195-201 | The lines of the hashed text are the ids, sorted |
| `ProfilePools.SameIdIff` | internal/domain/runtime_reservation.go:154-157 | Two pools share a canonical id exactly when provider and resource agree or one provider runs past the other over a colon into its resource |
| `ProfilePools.DifferentPoolsCanShareId` | internal/domain/runtime_reservation.go:154-157 | Two concrete pools with different physical keys and one id |
| `TokenRotation.StepKeeps` | internal/auth/service.go:443-562 | Every atomic step of every request, with failing statements, lost answers of the revoke and of the insert, logouts, logins and deletions between, keeps the rotation invariant |
| `TokenRotation.RunKeeps` | internal/auth/service.go:443-562 | The invariant holds in every reachable state |
| `TokenRotation.OneWinner` | internal/repository/postgres/refresh_token_repo.go:52-72 | In every interleaving a stored token's conditional revoke is won at most once |
| `TokenRotation.RotatedMeansLinked` | internal/auth/service.go:478-482 | A rotated token is never visible as revoked without its successor, and every link is some win's |
| `TokenRotation.MintsAreJustified` | internal/auth/service.go:443-562 | Every mint is the winner's own successor, or a replay of a row read as revoked, linked by a win and no older than the grace window, and belongs to the token's owner |
| `TokenRotation.OnlyUnexpiredIsRotated` | internal/auth/service.go:462-464 | However requests interleave, every win and every token minted by a winner belongs to a request that read the presented token before its expiry |
| `TokenRotation.OneRotationMint` | internal/auth/service.go:488-519 | A token is rotated into at most one new token; a request mints at most once and no two mints share a token |
| `TokenRotation.RefusedMintsNothing` | internal/auth/service.go:541-562 | A request refused as unknown, expired, reused or inactive, and one not finished, minted nothing |
| `TokenRotation.MintedOrFailed` | internal/auth/service.go:624-641 | A request that minted ended with that very token, or as failed |
| `TokenRotation.FailedCanHaveMinted` | internal/auth/service.go:624-635 | A run in which the insert takes effect without an answer: the request fails and its token is live |
| `TokenService.RefreshTokens` | internal/auth/service.go:443-519 | The service code's outcome and table are those of the atomic steps, for any failures of its statements and with anything happening before its conditional revoke |
| `TokenService.HandleTokenReuse` | internal/auth/service.go:541-562 | A replay's outcome and table for any failures: grace mints at most one token and touches nothing else, otherwise it is refused as a reuse and the user's tokens are revoked unless that statement fails |
| `TokenService.IssueTokenPair` | internal/auth/service.go:509-519 | From the user lookup on: the lookup fails, the user is inactive, or the token is stored, not stored, or stored without an answer |
| `TokenService.ServiceIsARun` | internal/auth/service.go:443-562 | The service code is a run of the interleaved steps: for any failures and any interference before the revoke, some enabled steps end with exactly its table and outcome |
| `TokenService.LoserIsTreatedAsReplay` | internal/auth/service.go:466-507 | Losing the race gets exactly the verdict and table of a replay that arrives afterwards; when the second read fails it is swept as a reuse |
| `TokenService.ReplayAfterRotation` | internal/auth/service.go:521-562 | After a conditional revoke that took effect, whatever became of its request, a replay inside the window changes no other row and mints one token unless a statement fails; outside it the replay is a reuse, and unless the sweep fails the user has no live token left |
| `TokenService.OtherUsersUntouched` | internal/auth/service.go:443-562 | No request changes another user's rows, whatever fails |
| `TokenLaws.InvalidAndExpired` | internal/auth/service.go:446-464 | A request is answered as invalid exactly when its token is unknown and as expired exactly when it is unrevoked and its expiry has passed, whatever the others do, and nothing changes |
| `TokenLaws.ReplayedToken` | internal/auth/service.go:454-460 | A token read as revoked is judged at once: within the window and with a successor a row with a full lifetime is added, otherwise the user's live rows are revoked |
| `TokenLaws.LiveToken` | internal/auth/service.go:466-519 | A live token still live at the conditional revoke is replaced by its successor, which is issued; one that is not is judged by what the second read finds |
| `TokenLaws.StepsInWords` | internal/auth/service.go:443-562 | What every step of the interleaved system does to the rows of the table |
| `MemoryCollapse.RowsAreConserved` | cmd/collapse-memories/main.go:36-39 | A run loses and adds no row and changes no key, content, owner or time |
| `MemoryCollapse.NoDuplicatesLeft` | cmd/collapse-memories/main.go:24-34 | After a run no two current rows of the chosen workspaces share a scope identity |
| `MemoryCollapse.NoStrayProjectLeft` | cmd/collapse-memories/main.go:463-477 | After a run no current workspace row of the chosen workspaces keeps a project |
| `MemoryCollapse.SurvivorCarriesTheGroup` | cmd/collapse-memories/main.go:432-461 | The newest row by (updated_at, id) stays current with exactly the union of the group's tags, and every other row points to it |
| `MemoryCollapse.ChainsStillEnd` | cmd/collapse-memories/main.go:442-449 | Every superseded chain that ended at a current row still does, at most one step later |
| `MemoryCollapse.SecondRunChangesNothing` | cmd/collapse-memories/main.go:41-44 | Running again changes nothing |
| `CollapseLaws.RowsLeftAlone` | cmd/collapse-memories/main.go:258 | Archived and superseded rows, rows of other workspaces and rows without a whole identity stay exactly as they are |
| `CollapseLaws.OlderVersionIsSuperseded` | cmd/collapse-memories/main.go:432-449 | A live row that is not the latest for its fact changes in status and superseded_by only, and points to the latest |
| `CollapseLaws.LatestVersionStays` | cmd/collapse-memories/main.go:450-477 | The latest stays but for its tags, the union of all versions', and a workspace row's project; tags that are the union already are not rewritten |
| `CollapseLaws.DuplicateCountInWords` | cmd/collapse-memories/main.go:490-507 | The duplicate count is 0 exactly when no fact has two live rows |
| `CollapseLaws.StrayCountInWords` | cmd/collapse-memories/main.go:509-515 | The project count is 0 exactly when no live workspace row has a project |
| `CollapseGroups.LoadDuplicateGroupsForScope` | cmd/collapse-memories/main.go:272-332 | The grouping loop finds exactly the contested identities of a scope, each once, with all its rows newest first |
| `CollapseGroups.GroupKeyIff` | cmd/collapse-memories/main.go:310-317 | Two rows have the same grouping text exactly when they have the same identity |
| `CollapseGroups.LoadDuplicateGroups` | cmd/collapse-memories/main.go:260-270 | The three scopes together give every contested identity once |
| `CollapseRun.MergeTags` | cmd/collapse-memories/main.go:362-375 | The sorted set of all tags of the group |
| `CollapseRun.TagsEqual` | cmd/collapse-memories/main.go:377-390 | True exactly when the lists are reorderings of each other |
| `CollapseRun.ApplyCollapse` | cmd/collapse-memories/main.go:432-461 | Every grouped row becomes winner with merged tags or superseded by its winner, and every other row stays |
| `CollapseRun.AppliedIsBeforeClearing` | cmd/collapse-memories/main.go:432-461 | The statements over the groups give each row its specified form but for its project, and the losers are exactly the considered rows that do not win |
| `CollapseRun.Run` | cmd/collapse-memories/main.go:120-231 | For any answers of the queries the table ends as specified, dry runs change nothing, and the final checks never fail |
| `CollapseRun.DuplicateCountIff` | cmd/collapse-memories/main.go:490-507 | The duplicate count, grouped without separator, is 0 exactly when no two current rows share an identity |
| `CollapseRun.StrayCountIff` | cmd/collapse-memories/main.go:509-515 | The project count is 0 exactly when no current workspace row keeps a project |
| `LayeredKeys.UnwrapLayers` | cmd/encrypt-integration-keys/main.go:105-130 | The loop gives what peeling layer by layer gives |
| `LayeredKeys.UnwrapUndoesWrap` | cmd/encrypt-integration-keys/main.go:91-130 | A plaintext under up to three layers, each tagged or not, comes back with their number; four or more are refused |
| `LayeredKeys.UnwrapEndsAtPlaintext` | cmd/encrypt-integration-keys/main.go:105-130 | Whatever is returned as plaintext is text the key does not open |
| `LayeredKeys.OneLayerComesOff` | pkg/encryption/encryption.go:184-245 | Decrypting one layer, tagged or legacy, gives what was sealed, and the two can be told apart |
| `KeyBackfill.Backfill` | cmd/encrypt-integration-keys/main.go:141-246 | However statements, commit or other sessions interfere, the table is either wholly rewritten or untouched by the run; it stops at a conflict exactly when a pending row changed, and refuses exactly when a row does not unwrap |
| `KeyBackfill.RewritePending` | cmd/encrypt-integration-keys/main.go:187-236 | The transaction's loop rewrites exactly the pending rows, or stops |
| `KeyBackfill.Verify` | cmd/encrypt-integration-keys/main.go:248-279 | Passes exactly when every row read holds one layer |
| `KeyBackfill.RewriteIsCanonical` | cmd/encrypt-integration-keys/main.go:187-204 | A rewritten value is one tagged layer over the plaintext that was under the old one |
| `KeyBackfill.FinishedRunIsCanonical` | cmd/encrypt-integration-keys/main.go:144-246 | After a committed run every row read and left alone holds one tagged layer over the same plaintext, other columns unchanged, and is not due again |
| `KeyBackfill.RerunFindsNothing` | cmd/encrypt-integration-keys/main.go:156-162 | The next run has nothing to do and the check passes |
| `KeyBackfill.CheckMissesUntaggedLayer` | cmd/encrypt-integration-keys/main.go:248-279 | Of the rows with one layer, exactly the untagged ones are still due |
| `KeyBackfill.UntaggedLayerPassesCheck` | cmd/encrypt-integration-keys/main.go:248-279 | A row under one untagged layer passes the post-check and is due in the next run |
| `BackfillLaws.PeeledIsUnder` | cmd/encrypt-integration-keys/main.go:105-130 | Unwrapping gives a plaintext and a number of layers exactly when it is under that many, at most three, opened with or without the tag enc:v1: |
| `BackfillLaws.RowAfterRun` | cmd/encrypt-integration-keys/main.go:141-246 | A row without a key, outside the project or under one tagged layer stays as it was; any other read row holds its plaintext under one fresh tagged layer, its other columns unchanged |
| `BackfillLaws.RunConditions` | cmd/encrypt-integration-keys/main.go:156-175 | When a row is loaded, refused, left alone, and passes the post-check |
| `BackfillLaws.NothingOverwritten` | cmd/encrypt-integration-keys/main.go:206-229 | A run can commit exactly when every row it is to rewrite still holds the key it read, so no other session's write is lost |
| `Handoff.DecideHandoff` | internal/domain/handoff.go:87-122 | No handoff exactly when off or no cap is reached; otherwise the first candidate with a non-empty unused key, or exhausted when there is none |
| `Handoff.DecisionIsUnique` | internal/domain/handoff.go:78-122 | That description leaves one answer for every input |
| `Handoff.DecisionInWords` | internal/domain/handoff.go:87-122 | A named lead who can take the card gets it, else the first in the chain who can, else nobody is left; cap and banner are those of the policy |
| `Handoff.ReachedCap` | internal/domain/handoff.go:66-76 | No cap is named exactly when no enforced cap is reached; the one named is reached and no earlier one in the order start, turn, compaction is |
| `Handoff.KeyIgnoresSpace` | internal/domain/handoff.go:61-64 | Space around a reference does not change its key |
| `Handoff.KeyIgnoresPrefix` | internal/domain/handoff.go:61-64 | A bare reference and the same one behind "agent:" have one key |
| `Handoff.KeyInWords` | internal/domain/handoff.go:61-64 | The key of a reference is its core without surrounding space, in lower case and without the prefix agent: |
| `Handoff.OneHandoffUsesOneKey` | internal/domain/handoff.go:78-84 | A handoff adds exactly one candidate key that was not in use |
| `Handoff.ChainNeverReturns` | internal/domain/handoff.go:78-84 | Along a chain no later assignee was current or visited at an earlier point |
| `Handoff.ChainIsBounded` | internal/domain/handoff.go:78-84 | A chain makes at most one handoff per distinct candidate key not in use at its start |
| `Handoff.ExhaustedIff` | internal/domain/handoff.go:110-122 | A due card is exhausted exactly when every non-empty candidate key is in use |
| `Handoff.FullChainIsExhausted` | internal/domain/handoff.go:78-122 | The next due report of a chain is exhausted exactly when the chain is as long as its bound |
| `Embedding.EncodeEmbedding` | internal/domain/embedding_encoding.go:15-21 | The text decodes to the vector it was made from, and is the padded base64 of its little-endian words |
| `Embedding.DecodeEmbedding` | internal/domain/embedding_encoding.go:24-37 | Not base64, a byte count that is no multiple of 4, or the words of the bytes |
| `Embedding.EmbeddingRoundTrip` | internal/domain/embedding_encoding.go:9-37 | Decoding an encoded vector of any length gives the same words |
| `Embedding.DecodesIff` | internal/domain/embedding_encoding.go:30-36 | Encoded bytes decode to a vector exactly when their number is a multiple of 4, and then to the one that packs to them |
| `Embedding.Base64RoundTrip` | internal/domain/embedding_encoding.go:20-25 | Padded base64 (section 4 of RFC 4648) decodes to the bytes encoded |
| `Embedding.PackUndoesUnpack` | internal/domain/embedding_encoding.go:16-36 | Packing the words of bytes gives the bytes back |
| `Embedding.PackInNumbers` | internal/domain/embedding_encoding.go:16-19 | Each word is its four bytes, the least significant first |
| `Embedding.QuantaInNumbers` | internal/domain/embedding_encoding.go:20 | Three bytes are four digits of the same number; what is short of three is filled with zero bits and padding |
| `Embedding.AlphabetInNumbers` | internal/domain/embedding_encoding.go:20 | The digits are those of table 1 of RFC 4648 |

## Left out

- Servers, handlers, routing, object storage, queues, mail, the web client and the examples: plumbing.
- SHA-256, Ed25519, AES-GCM, JWT, bcrypt and randomness: what is hashed is modelled, the hash is not; the cipher is a
  parameter with the inverse law; generated tokens and nonces are parameters.
- Evaluating JSON Schema and regular expressions, and time parsing: the model starts from trees, tokens, strings and integers;
  `RuntimeSchema` states what the catalog schema demands of a decoded catalog.
- Invalid UTF-8, which Go replaces, and the decoder's own nesting limit of 10000.
- The `json.Marshal` step inside `CanonicalHash`: for a decoded body it delivers the same value again.
- The sort library is the function `Ordering.Sort`; arrays sorted in place are sequences.
- Aliasing between Go maps and slices: catalogs are values here, so that `DesiredFor` leaves its source alone is built in.
- Durations that overflow: times and ages are unbounded integers everywhere but in `Admission`.
- `CatalogReferences.PreferenceError`: fixes the code only up to which bad account is met first, because the source visits preferred accounts in map order.
- `CatalogReferences.ValidateReferences`: names a field by its parts; in the source's dotted text the modes of two accounts could coincide only with modes outside the schema's subscription and api.
- `RuntimeDecision.PreviewRuntime`: requires unambiguous aliases and a non-empty list of primary profiles, which `RuntimeSchema.AcceptedFitsTheRouter` grants for a parsed catalog; the source indexes the first primary.
- `RuntimeDecision.NoRouteMissed`: takes catalogs with no profile named by the empty string, as `RuntimeSchema.AcceptedFitsTheRouter` grants, because the source uses it for "none selected"; so do `NoReviewerMissed` and `TraceLaws.NothingLeftOut`.
- `ProfilePools.DigestInputIff`: takes ids without line breaks, which the reference pattern of the schema grants (`RuntimeSchema.RefIsOneLine`).
- `TokenRotation.RefusedMintsNothing`: makes no claim about a failed request, because one that lost the answer of its insert has minted (`TokenRotation.FailedCanHaveMinted`), nor about tokens other requests mint while a theft sweep runs.
- `CollapseRun.Run`: does not model failing statements, which roll the transaction back, a NULL updated_at, which stops the run before any write, or writers between the commit and the checks.
- `KeyBackfill.Backfill`: does not model writers between the statements of its transaction or between the commit and the check.
- `Embedding.DecodeEmbedding`: treats a float32 as its bit pattern.
- `Handoff.DecideHandoff`: takes the case mapping of one character as a parameter.
- The plan and report printing of both batch jobs.
