# Verified kernels of the Beads Data Protocol tools

A Dafny model of the parts of this repository whose correctness is not visible from one function body, with proofs.
`dafny verify dfyconfig.toml` checks all of it. Nothing here runs the original programs: every statement below is about
the model, and a `source` cell says which lines a member models.

## What is modelled

**Mask projection** (`ProjectionMeaning`, `MaskTries`, `ProjectionWork`, `MaskProjection`). Include and omit pointers
are inserted into mutable tries; a last-in-first-out worklist then builds the projected value out of shared heap
containers and freezes them late. The meaning is a rule on paths of the original value, and the worklist is proved to
refine it.

**Continuation capabilities** (`Continuations`, `Sessions`, `ContinuationRegistry`, `SessionOperations`). The registry
is given twice: as a value with pure operations, about which invariants and conservation are proved, and as objects with
shared history sets, whose methods are proved to be those operations. Operations of a session are a step relation; all
interleavings are covered, and the objects keep the invariant of the step relation. A body under validation may re-enter the session, so the end of a validation is a step of its
own and several validations of one operation may overlap.

**JSON text** (`JsonStrings`, `MemberNames`, `CanonicalJson`, `JsonTexts`, `JsonPointers`). The scan for repeated member names sees
a text printed from a concrete syntax tree that records all freedom of spelling. The two canonical serializers are
compared with `deepEqual` through unique readability. Numbers are an abstract type with the host's formatting as a
parameter; `undefined` members are modelled because one serializer drops them and the other refuses them.

**The bd adapter** (`FallbackBatches`, `FallbackBisection`, `SingleFlight`). Command lines of bounded size, attribution
of dependency rows by bisection against an oracle whose answers may change with every query, and the snapshot load
shared by concurrent readers as a step relation over suspensions, with the loader itself as an object.

**Graph checks** (`RefinesGraph`), **the response buffer** (`GrowingBuffer`) and **the cache directives**
(`CacheControl`) are loops over mutable state proved against declarative statements.

**Edits and ordinals** (`ObjectEdits`, `EditLimits`, `HistoryOrdinals`, with `Pointers` and `Decimals`). Compiled patches
are applied by the server's own strict algorithm, behind its limits on operations and paths.

**Readiness** (`PageChains`, `ReadinessTraversal`, `Readiness`). The page server is a function of time, the number of
questions asked before, so that results hold however a server answers. What a traversal gathers is stated without its
loops, as chains of pages the server offers; the objects of the model keep every question they ask.

Strings are sequences of UTF-16 code units, written as numbers. URLs and identities are opaque strings with equality.
Errors are values of `Result`. Where a comment of the source and its code differ, the code is followed.

Three findings are stated as lemmas. Canonical text does not separate `0` from `-0`, nor an absent member from no
member, although deep equality does: `CanonicalIdentifiesValues` gives what equal text means in all cases. Bisection
attributes all dependencies exactly when the empty answers it sees are honest: `CollectedIsPerSource`. An ordinal can be
resolved in a history of more than a hundred pages when its row is early enough, while the full listing refuses the same
history: `ResolveRevisionOrdinal` and `ListVersions` say precisely when.

## Model

| member | source | states |
|---|---|---|
| `MaskProjection.ProjectCanonicalProperties` | apps/bdp/src/canonical-projection.ts:46-189 | a text that is not well-formed Unicode or spells no path is refused, then an empty omit, then a value that is no object, and nothing else; otherwise the worklist returns a fresh tree of frozen containers, none of which stands in two places, that spells the denotation `Projected` of the paths whose spellings are listed: the includes that are in the value, or the root without a list, and all omits |
| `MaskProjection.Run` | apps/bdp/src/canonical-projection.ts:127-189 | the LIFO worklist with deferred freezing refines the recursive path rule for every object and every pair of tries, and shares no container |
| `ProjectionWork.Container.Freeze` | apps/bdp/src/canonical-projection.ts:142-144 | a container is frozen only while it is not frozen, so freezing twice or writing afterwards is impossible |
| `ProjectionWork.FreezeIsLast` | apps/bdp/src/canonical-projection.ts:128-187 | when a container is frozen it already holds every part of its value |
| `ProjectionMeaning.SurvivesIffKept` | apps/bdp/src/canonical-projection.ts:159-165 | a non-root path of the original survives iff it is prefix-related to an include that exists in the original and no omit is a prefix of it |
| `ProjectionMeaning.SurvivorKeepsItsValue` | apps/bdp/src/canonical-projection.ts:146-186 | each surviving path lands at one path of the result, array positions compacted by rank in original order, with the projection of its own value there; scalars are unchanged |
| `ProjectionMeaning.ProjectionHasOrigin` | apps/bdp/src/canonical-projection.ts:146-186 | every path of the result is where some surviving path of the original landed |
| `ProjectionMeaning.ImageIsInjective` | apps/bdp/src/canonical-projection.ts:158-171 | distinct surviving paths land on distinct paths |
| `ProjectionMeaning.RankIsMonotone` | apps/bdp/src/canonical-projection.ts:157-159 | array elements keep their original relative order |
| `ProjectionMeaning.MembersKeepOrder` | apps/bdp/src/canonical-projection.ts:151-186 | the members of a projected object keep their names and their order |
| `MaskTries.MaskTrie.Insert` | apps/bdp/src/canonical-projection.ts:61-74 | after any insertions the mutable trie stands for the set of inserted masks: order and repetition do not matter, and a mask below a whole one adds nothing |
| `MaskProjection.Exists` | apps/bdp/src/canonical-projection.ts:75-94 | the loop finds a path iff the value holds it |
| `MaskProjection.IncludeTrie` | apps/bdp/src/canonical-projection.ts:118-124 | only includes that exist in the value are inserted; without an include list the whole value is |
| `Pointers.DecodeUndoesEncode` | apps/bdp/src/canonical-projection.ts:25-39 | spelling any path as a pointer and decoding it gives the path back, for keys that are empty or hold `~` or `/` (section 4 of RFC 6901) |
| `Pointers.EncodeUndoesDecode` | apps/bdp/src/canonical-projection.ts:29-38 | every text the pattern admits is the spelling of the path it decodes to |
| `Pointers.SingleKeyPointer` | apps/bdp/src/canonical-input.ts:218-220 | the pointer of a key is well formed and decodes to that key alone |
| `Decimals.ExceedsIsGreaterThan` | packages/client/src/history-session.ts:242-249 | on canonical decimals of any length, comparing length and then code units is comparing the numbers |
| `Decimals.OrdinalAdmission` | apps/bdp/src/canonical-input.ts:67-72 | an ordinal is admitted iff it is below 2^63 |
| `Decimals.PageLimitRefusal` | packages/client/src/history-session.ts:242-250 | a page is refused iff it has more rows than the limit in the issued URL |
| `Decimals.ValueOfSpell` | packages/client/src/history-session.ts:244 | `String(n)` is read back as `n` |
| `Texts.LessIsTotal` | packages/conformance/src/canonical-json.ts:43-46 | of two distinct strings exactly one is before the other |
| `Texts.LessIsTransitive` | packages/conformance/src/canonical-json.ts:43-46 | the code-unit order is transitive |
| `Texts.LessIsLexicographic` | packages/conformance/src/canonical-json.ts:43-46 | a string is before another iff it is a proper beginning of it or has the smaller unit where they first differ |
| `Texts.ScalarTextIsExact` | apps/bdp/src/canonical-projection.ts:28 | a string is well-formed Unicode iff some characters are encoded as it |
| `ContinuationRegistry.Registry.Reserve` | packages/client/src/continuations.ts:95-111 | on the heap, with history sets shared by reference, reserving moves the first fitting entry into a new lease and changes nothing else; it fails iff nothing fits |
| `ContinuationRegistry.Registry.Commit` | packages/client/src/continuations.ts:113-197 | on the heap, a commit that throws leaves the registry as it was; one that succeeds is the pure commit, and history sets stay unaliased although they are moved and extended in place |
| `ContinuationRegistry.Registry.Refusal` | packages/client/src/continuations.ts:119-185 | the nine refusals of a commit, in order |
| `ContinuationRegistry.Registry.Restore` | packages/client/src/continuations.ts:199-202 | an active lease becomes an available entry again; any other is ignored |
| `ContinuationRegistry.Registry.Clear` | packages/client/src/continuations.ts:204-209 | nothing is left |
| `ContinuationRegistry.Registry.ForgetAvailable` | packages/client/src/continuations.ts:211-223 | the owner loses its available entries at every URL and both counters go down by exactly what they held |
| `Continuations.ReserveConserves` | packages/client/src/continuations.ts:95-111 | for every capability, available and leased copies together stay the same |
| `Continuations.RestoreConserves` | packages/client/src/continuations.ts:199-202 | for every capability, available and leased copies together stay the same |
| `Continuations.CommitMoves` | packages/client/src/continuations.ts:113-197 | a commit takes away one copy of the leased capability and adds one of the next, and touches no other |
| `Continuations.ForgetMoves` | packages/client/src/continuations.ts:211-223 | forgetting takes exactly the available capabilities of the owner |
| `Continuations.ReserveKeepsGood` | packages/client/src/continuations.ts:95-111 | counters, traversals and clash-freedom survive a reservation |
| `Continuations.RestoreKeepsGood` | packages/client/src/continuations.ts:199-202 | counters, traversals and clash-freedom survive a restoration |
| `Continuations.CommitKeepsGood` | packages/client/src/continuations.ts:113-197 | after any commit `size` counts entries and leases and is at most 1024, `historySize` is the sum of all histories and at most 10000, and no owner holds clashing capabilities at one URL |
| `Continuations.ForgetKeepsGood` | packages/client/src/continuations.ts:211-223 | the same after forgetting a scope |
| `Continuations.CommitExtendsTraversal` | packages/client/src/continuations.ts:125-130 | a next URL that is accepted is new to its traversal, whose history grows by exactly it |
| `Continuations.TraversalIsBounded` | packages/client/src/continuations.ts:182-185 | wherever a capability is held, its traversal was issued distinct URLs and at most 10000 of them |
| `Continuations.FitsAgree` | packages/client/src/continuations.ts:100-111 | all entries a reservation could pick have one context |
| `Continuations.SameContextIsEquality` | packages/client/src/continuations.ts:240-252 | two contexts are the same iff all their fields are equal |
| `Continuations.ReserveTakesFirstFit` | packages/client/src/continuations.ts:95-111 | a reservation fails iff no entry fits, and else leases the first entry that does |
| `Continuations.CommitIsAcceptedIff` | packages/client/src/continuations.ts:113-197 | a commit is accepted iff its lease is active under its own context and owner, the next URL is new to the traversal, no capability there clashes with the next one, and at most 1024 capabilities with at most 10000 URLs would be held |
| `Continuations.ClashIsExact` | packages/client/src/continuations.ts:131-170 | two capabilities of one owner clash iff they are for one Bead in two directions or both Histories |
| `Continuations.RefusalHasItsReason` | packages/client/src/continuations.ts:119-185 | each refusal of a commit names what stands against it |
| `Sessions.RunKeepsInv` | packages/client/src/read-session.ts:770-851 | every interleaving of prepare, validate, commit, release, forget and clear over any number of Read and History operations keeps the session invariant |
| `Sessions.ActiveLeases` | packages/client/src/read-session.ts:770-851 | in every reachable state the active leases are exactly those of the unsettled operations, each held once, and both counters are exact and within bounds |
| `Sessions.ReleaseMakesAvailable` | packages/client/src/read-session.ts:843-849 | release of an unsettled operation, whatever went before, makes its capability available again and conserves all others |
| `Sessions.DeliveredCommitConsumes` | packages/client/src/read-session.ts:809-842 | a delivered commit ends the lease for good and issues only the next capability of its traversal |
| `Sessions.UndeliveredCommitChangesNothing` | packages/client/src/history-session.ts:275-297 | a commit that is refused or comes too late changes nothing |
| `Sessions.RefusalIsAboutNext` | packages/client/src/continuations.ts:119-124 | no reachable commit is refused for a stale lease or a changed context or owner |
| `Sessions.PreparedIsLive` | packages/client/src/read-session.ts:770-780 | an operation just prepared is live and active under its request and owner; it leases the URL it continues, or begins in the context of its request |
| `Sessions.ValidatesBeforeStaging` | packages/client/src/read-session.ts:794-796 | after any run a validation may begin iff the operation is live and was never staged |
| `Sessions.SettledStays` | packages/client/src/history-session.ts:298-303 | a committed or released operation never changes again and never holds a lease again |
| `Sessions.ClosedStaysEmpty` | packages/client/src/continuations.ts:280-284 | after `clear` nothing comes back, whatever is still released, committed or prepared |
| `Sessions.ClearCloses` | packages/client/src/continuations.ts:280-284 | `clear` closes the session and leaves no entry, no lease and zero counters |
| `Sessions.NothingAfterClear` | packages/client/src/continuations.ts:261-284 | after `clear` and any further steps no operation is live, nothing is leased or available, and every preparation is refused |
| `Sessions.UnknownScopesAreRefused` | packages/client/src/continuations.ts:264-274 | after any run an operation is refused for its scope iff the session is open and the scope was never created while it was |
| `Sessions.ForgottenScope` | packages/client/src/continuations.ts:275-279 | forgetting takes all available capabilities of a created scope and nothing else |
| `Sessions.RequestsContinueTheirSubject` | packages/client/src/history-session.ts:161-168 | a request may continue a traversal iff it is for pages of the same kind about the same things as the first request |
| `Sessions.ContextIsOfRequest` | packages/client/src/history-session.ts:153-158 | two first requests begin in one context iff they ask for the same, direction and limit included |
| `Sessions.RunConserves` | packages/client/src/read-session.ts:770-851 | between deliveries no capability is lost or made up, however operations interleave |
| `Sessions.HistoryPageStaged` | packages/client/src/history-session.ts:220-274 | a History page is staged iff its item count is within the requested limit and its next URL carries an explicit limit on |
| `Sessions.FirstHistoryPageStaged` | packages/client/src/history-session.ts:145-274 | a prepared first page is staged iff it has at most as many rows as asked for and its next URL carries that limit |
| `Sessions.LaterHistoryPageStaged` | packages/client/src/history-session.ts:159-274 | a later page is staged iff it has at most as many rows as its URL allows and its next URL carries the limit of the first page |
| `Sessions.OtherBodyStaged` | packages/client/src/read-session.ts:794-808 | any other body is staged iff it was found well formed and the operation is still live |
| `Sessions.DeliveredWithLatestStage` | packages/client/src/history-session.ts:262-303 | after any run a commit is delivered iff the operation is live, the token is that of its latest staging, and the registry has nothing against the next URL of the body staged then |
| `SessionOperations.SessionCore.Prepare` | packages/client/src/read-session.ts:770-780 | a valid core, whose active leases are exactly those of its live operations, gains an operation that holds a fresh lease iff its request continues a traversal, and stays valid; each refusal leaves the core as it was |
| `SessionOperations.SessionCore.Clear` | packages/client/src/continuations.ts:280-284 | the object takes the step `ClearCore`: it is closed, its registry is empty and none of its operations is live |
| `SessionOperations.SessionCore.CreateContinuationScope` | packages/client/src/continuations.ts:269-274 | a closed core creates no scope; an open one knows the new scope from then on |
| `SessionOperations.SessionCore.ForgetContinuations` | packages/client/src/continuations.ts:275-279 | the object takes the step `ForgetScope`: an unknown scope forgets nothing, and the core stays valid |
| `SessionOperations.PreparedOperation.BeginValidation` | packages/client/src/read-session.ts:794-796 | a validation may begin only on a live operation that has staged nothing |
| `SessionOperations.PreparedOperation.FinishValidation` | packages/client/src/history-session.ts:220-274 | the object takes the step `EndValidate`: the check is made again after the body was inspected |
| `SessionOperations.PreparedOperation.Commit` | packages/client/src/read-session.ts:809-842 | the object and its core take the step `CommitOp`, the core stays valid, and no refusal is for a stale lease or a changed context or owner |
| `SessionOperations.PreparedOperation.Release` | packages/client/src/history-session.ts:298-303 | the object and its core take the step `ReleaseOp` and the core stays valid |
| `SessionOperations.CommitKeepsMatch` | packages/client/src/read-session.ts:809-842 | over any set of operations, a commit keeps the active leases exactly those of the live operations, each held once under its own context and owner |
| `MemberNames.AssertUniqueJsonMemberNames` | packages/client/src/index.ts:630-660 | on the text of every concrete syntax tree, whatever its whitespace, nesting and escapes, the one-pass scan rejects iff some object of the tree has two members of equal decoded name |
| `MemberNames.ScanNode` | packages/client/src/index.ts:632-659 | scanning a value anywhere inside a text either meets a repetition in it or leaves the stack of open containers as it was |
| `MemberNames.ClashesMeansRepeats` | packages/client/src/index.ts:644-650 | checking each name against the names before it is checking all pairs |
| `JsonTexts.BlanksAreExact` | packages/client/src/index.ts:626-660 | white space is space, tab, line feed and carriage return |
| `JsonTexts.TreePrintsCanonically` | packages/client/src/index.ts:626-660 | the canonical text of any value is the text of a syntax tree of it |
| `JsonTexts.TreeRepeats` | packages/client/src/index.ts:626-660 | that tree repeats a name iff some object of the value lists a name twice |
| `JsonStrings.ReadUndoesSpelling` | packages/client/src/index.ts:646 | decoding any spelling of a string, with short or `\u` escapes in either case, gives the string |
| `JsonStrings.StringEndsAtItsQuote` | packages/client/src/index.ts:638-642 | skipping one unit after each backslash ends a string at its closing quote |
| `JsonStrings.ReadIsExact` | packages/client/src/index.ts:646 | a text is read as a string iff it is made of parts that each spell a unit of it as section 7 of RFC 8259 has it: itself, a short escape, or the four digits of its number in either case |
| `JsonStrings.PiecesSpellTheirMeaning` | packages/client/src/index.ts:646 | the pieces of a name spell, by that grammar, what they are said to mean |
| `JsonStrings.QuotedIsCanonical` | packages/conformance/src/canonical-json.ts:32 | a stringified string is the shortest well-formed text the grammar reads as the string, and with lower-case digits the only one as short |
| `JsonStrings.QuotedIsSpelled` | packages/conformance/src/canonical-json.ts:32 | a stringified string is itself such a text |
| `JsonStrings.QuotedIsReadable` | packages/conformance/src/canonical-json.ts:32 | stringified strings are uniquely readable: one is never a proper beginning of another |
| `JsonStrings.QuotedIsScalarText` | packages/conformance/src/canonical-json.ts:32 | stringified strings are well-formed Unicode, lone surrogates included |
| `CanonicalJson.CanonicalIdentifiesValues` | packages/conformance/src/canonical-json.ts:23-41 | whenever two values have canonical texts, the texts are equal iff the values are deeply equal after absent members are left out and `-0` is read as `0` |
| `CanonicalJson.CanonicalAgreesWithDeepEqual` | packages/conformance/src/json-pointer-verifier.ts:53-77 | on finite values without absent members and `-0`, equal canonical text is `deepEqual` |
| `CanonicalJson.ZerosShareTheirText` | packages/conformance/src/canonical-json.ts:26-31 | outside those values the agreement fails: `0` and `-0` have one text and are not deeply equal |
| `CanonicalJson.AbsentMembersShareTheirText` | packages/conformance/src/canonical-json.ts:35-36 | an object with an `undefined` member shares its text with the empty object and is not deeply equal to it |
| `CanonicalJson.CanonicalExists` | packages/adapter-bd/src/index.ts:720-736 | a value has a canonical text iff every number in it is finite and nothing absent would have to be written |
| `CanonicalJson.CanonicalSpellsNormal` | packages/adapter-bd/src/index.ts:720-736 | both serializers write the text of the value with members sorted, numbers spelled and, where they omit, absent members dropped |
| `CanonicalJson.ScalarTexts` | packages/conformance/src/canonical-json.ts:24-32 | the texts of null, booleans, numbers and strings; absent values have none |
| `CanonicalJson.ArrayText` | packages/conformance/src/canonical-json.ts:33 | an array is the texts of its items in brackets, with commas |
| `CanonicalJson.ObjectText` | packages/conformance/src/canonical-json.ts:34-39 | an object listed in the order of its names is, in braces and with commas, each quoted name, a colon and the text of its value |
| `CanonicalJson.AbsentMember` | packages/conformance/src/canonical-json.ts:36 | an absent member is as if it were not there for one serializer and refused by the other |
| `CanonicalJson.RenderIsReadable` | packages/conformance/src/canonical-json.ts:23-40 | a canonical text followed by anything that may follow a value is the text of one value only |
| `CanonicalJson.MemberOrderIsIrrelevant` | packages/conformance/src/canonical-json.ts:34-38 | the order in which the objects of a value, at every depth, list their members changes neither its text nor whether it has one |
| `CanonicalJson.MembersAscend` | packages/conformance/src/canonical-json.ts:37 | members are written in strictly ascending code-unit order of their names |
| `CanonicalJson.ObjectDeepEqual` | packages/conformance/src/json-pointer-verifier.ts:61-76 | deep equality of objects is equality of sorted names with deeply equal values beside them |
| `CanonicalJson.DeepEqualReflexive` | packages/conformance/src/json-pointer-verifier.ts:54 | every value deeply equals itself, so the identity shortcut decides nothing |
| `CanonicalJson.DeepEqualByKind` | packages/conformance/src/json-pointer-verifier.ts:53-77 | scalars are deeply equal iff they are the same, arrays iff their items are one by one, and values of two kinds never |
| `JsonPointers.JsonPointer` | packages/conformance/src/json-pointer-verifier.ts:35-51 | a malformed pointer names nothing; any other names what its decoded tokens lead to |
| `JsonPointers.BareTildeIsUnescaped` | packages/conformance/src/json-pointer-verifier.ts:37 | the pattern for a bare tilde occurs iff the pointer is not properly escaped |
| `JsonPointers.EncodedPathEvaluates` | packages/conformance/src/json-pointer-verifier.ts:35-51 | every path can be spelled as a pointer that evaluates to what the path leads to |
| `JsonPointers.LookupsAgree` | apps/bdp/src/canonical-projection.ts:75-86 | the lookup of the projection and the lookup of pointers and patches find the same child in every representable value |
| `JsonPointers.ReplaceIsExact` | packages/server/src/retained-v01/object-edits.ts:84-126 | a strict replacement at any depth succeeds iff its path exists; then the path reads the new value and every diverging path reads what it read before |
| `JsonPointers.EditIsLocal` | packages/server/src/retained-v01/object-edits.ts:60-126 | any change succeeds iff the container its path names exists and admits it, and changes nothing that does not lead through that container |
| `JsonPointers.AddShifts` | packages/server/src/retained-v01/object-edits.ts:97-113 | adding to an array at any depth succeeds iff the index is within it or right behind it, `-` naming that end; the element then stands there and all behind it are found one further |
| `JsonPointers.RemoveShifts` | packages/server/src/retained-v01/object-edits.ts:97-113 | removing from an array at any depth succeeds iff the element is there; all behind it are found one earlier |
| `JsonPointers.MemberEdits` | packages/server/src/retained-v01/object-edits.ts:114-126 | adding to an object at any depth always succeeds, removing iff the member is there; the other members lead where they led |
| `FallbackBatches.PartitionDependencyFallbackSources` | packages/adapter-bd/src/index.ts:661-683 | the greedy partition fails iff one identifier alone is too large; otherwise its batches concatenate to the sources, none is empty or over the byte bound, and no order-preserving split has fewer |
| `FallbackBatches.SaturatedIsFewest` | packages/adapter-bd/src/index.ts:673-677 | a split whose batches could not take the next source is no longer than any split of the same or a longer list |
| `FallbackBatches.FixedArgumentsFit` | packages/adapter-bd/src/index.ts:662-665 | the fixed arguments cost nineteen bytes |
| `FallbackBatches.FitsIff` | packages/adapter-bd/src/index.ts:661-677 | a batch fits iff nineteen bytes and its identifiers with a terminator each are at most 16384 |
| `FallbackBatches.BytesAreUtf8` | packages/adapter-bd/src/index.ts:663 | the bytes of well-formed Unicode are those of its characters in UTF-8 |
| `FallbackBatches.BytesAdd` | packages/adapter-bd/src/index.ts:663 | bytes add up wherever no surrogate pair is split |
| `FallbackBatches.HalfPairTakesThree` | packages/adapter-bd/src/index.ts:663 | half of a surrogate pair takes three bytes |
| `FallbackBisection.Projection.ProjectDependency` | packages/adapter-bd/src/index.ts:306-342 | in place, an edge already projected is skipped, and each refusal changes nothing |
| `FallbackBisection.Projection.ProjectFallbackBatch` | packages/adapter-bd/src/index.ts:359-374 | the recursive bisection in place: the projection it leaves, the queries it makes and the fault it stops at |
| `FallbackBisection.Projection.ProjectFallback` | packages/adapter-bd/src/index.ts:357-375 | the batches one after another |
| `FallbackBisection.BisectionProjectsItsReadings` | packages/adapter-bd/src/index.ts:359-374 | a batch succeeds iff its queries are answered, each at its time, and its rows can be projected, and then leaves exactly those rows projected, at the exact number of queries |
| `FallbackBisection.CollectedIsPerSource` | packages/adapter-bd/src/index.ts:362-368 | for answers that may change with every query, bisection attributes to each source the rows it has alone at the moment of the query that decided about it, in source order, iff every empty answer it sees is at its time empty for each source asked about |
| `FallbackBisection.SteadyMoments` | packages/adapter-bd/src/index.ts:359-374 | where the answers do not change, the moments do not matter |
| `FallbackBisection.SilenceLosesDependencies` | packages/adapter-bd/src/index.ts:362 | without that condition dependencies are lost: two sources with a row each and a silent joint answer |
| `FallbackBisection.BisectionIsLinear` | packages/adapter-bd/src/index.ts:363-368 | a batch of n sources costs at most 2n-1 queries, however the answers change in between |
| `FallbackBisection.FallbackIsExact` | packages/adapter-bd/src/index.ts:306-375 | a run over all batches succeeds iff every query it makes is answered and every row states an acceptable dependency; the Links it adds are the distinct dependencies the rows state, in order of first occurrence; the rows are those of each source, however sources are cut, iff the empty answers seen are honest |
| `FallbackBisection.BatchesProjectTheirReadings` | packages/adapter-bd/src/index.ts:357-375 | the batches together succeed iff their queries are answered and their rows can be projected one after another, with at most two queries for each source |
| `FallbackBisection.BatchesArePerSource` | packages/adapter-bd/src/index.ts:357-368 | over all batches each source gets its own rows, in source order, iff every empty answer seen is honest |
| `FallbackBisection.ProjectionIsExact` | packages/adapter-bd/src/index.ts:306-342 | projection succeeds iff every row is well formed and names a live source, a live or external target and no Bead Type; each distinct edge then appears once, in order of first occurrence |
| `FallbackBisection.NormalizeIsExact` | packages/adapter-bd/src/index.ts:626-659 | a row is read iff its given fields are texts that agree, name the source if any and a target, and then as the edge from the source to that target of the kind given, or else of `blocks` |
| `FallbackBisection.ProjectFaults` | packages/adapter-bd/src/index.ts:314-330 | each refusal of a dependency says what is wrong with it |
| `FallbackBisection.BisectionFaults` | packages/adapter-bd/src/index.ts:359-374 | a batch that fails does so with what a query reported in its course, or for a row |
| `FallbackBisection.FreshKeepsOrder` | packages/adapter-bd/src/index.ts:312-313 | edges stay in the order of their first occurrence |
| `SingleFlight.AtMostOneLoad` | packages/adapter-bd/src/index.ts:442-460 | in every interleaving a load that is neither settled nor aborted is the current one, so there is at most one, and it has readers |
| `SingleFlight.WaitersAreReadersInside` | packages/adapter-bd/src/index.ts:449-455 | `waiters` is the number of readers between joining a load and leaving it |
| `SingleFlight.OnlyTheLastReaderAborts` | packages/adapter-bd/src/index.ts:453-459 | a step aborts a load iff it is the departure of the last reader of an unsettled load |
| `SingleFlight.AbortedStaysEmpty` | packages/adapter-bd/src/index.ts:448-459 | nobody ever joins an aborted load |
| `SingleFlight.CancellationIsPrivate` | packages/adapter-bd/src/index.ts:434-460 | a reader is told of a cancellation only if it asked for its own, and never that its load was interrupted |
| `SingleFlight.CancelledIsTold` | packages/adapter-bd/src/index.ts:434-460 | a reader that arrives cancelled, or is cancelled while it waits, is told so and changes no load |
| `SingleFlight.OthersWait` | packages/adapter-bd/src/index.ts:442-450 | a reader that is neither refused nor answered at once waits for the current load, or for a new one if there is none |
| `SingleFlight.ResultStays` | packages/adapter-bd/src/index.ts:434-460 | what a reader was told stays as it is |
| `SingleFlight.SettlingEnds` | packages/adapter-bd/src/index.ts:425-428 | a settled load is over and no longer the current one |
| `SingleFlight.NothingIsStuck` | packages/adapter-bd/src/index.ts:416-460 | in every state that keeps the invariant a waiting reader may be cancelled, or woken if its load is settled, a woken one may depart, a running body may publish or fail, and an ended one may be settled |
| `SingleFlight.OutcomeIsOfItsLoad` | packages/adapter-bd/src/index.ts:442-460 | unless it was cancelled, a reader that waited for a load hears how the body of that very load ended |
| `SingleFlight.ServedByItsLoad` | packages/adapter-bd/src/index.ts:402-460 | a reader served after waiting finds the lists last published, with indexes of exactly these, which its own load published or a load after it |
| `SingleFlight.ServedReadersFindASnapshot` | packages/adapter-bd/src/index.ts:402-410 | a reader served in any way finds a snapshot whose indexes hold exactly the listed records |
| `SingleFlight.ServedOnArrivalIsRecent` | packages/adapter-bd/src/index.ts:444-446 | a reader is served at once iff the last snapshot any load published is younger than the bound, and gets that one |
| `SingleFlight.FailedOnArrivalIsRecent` | packages/adapter-bd/src/index.ts:444-447 | a reader is failed at once iff it cannot be served and the last noted failure, with no publication since, is younger than the bound |
| `SingleFlight.IndexAgrees` | packages/adapter-bd/src/index.ts:404-405 | the index of a list without repeated identities finds exactly its records |
| `SingleFlight.NextKeepsInv` | packages/adapter-bd/src/index.ts:416-460 | every step of readers and load bodies, in any order, keeps the invariant |
| `SingleFlight.SnapshotLoader.Arrives` | packages/adapter-bd/src/index.ts:442-450 | the object takes the step `Enter` |
| `SingleFlight.SnapshotLoader.Leaves` | packages/adapter-bd/src/index.ts:453-459 | the object takes the step `Leave` |
| `SingleFlight.SnapshotLoader.Settles` | packages/adapter-bd/src/index.ts:425-428 | the object takes the step `Settle` |
| `SingleFlight.SnapshotLoader.Commits` | packages/adapter-bd/src/index.ts:402-410 | the object publishes both lists with their indexes, restarts the age and forgets an earlier failure |
| `SingleFlight.SnapshotLoader.NotesFailure` | packages/adapter-bd/src/index.ts:420-424 | the object takes the step `Fail` |
| `RefinesGraph.CheckRefinesGraph` | scripts/check_types_selected.py:158-186 | a publication is accepted iff every owned Link has the right affiliation, a recorded target and no duplicate, and the exact relation has no cycle; a cycle is reported iff it is the one thing wrong, and otherwise the fault of the first owner that has one |
| `RefinesGraph.Search.Visit` | scripts/check_types_selected.py:175-183 | the depth-first visit terminates, keeps the active path, and fails only on a cycle |
| `RefinesGraph.FinishedIsAcyclic` | scripts/check_types_selected.py:173-186 | an order in which every edge leads to an earlier place leaves no cycle |
| `RefinesGraph.SearchAll` | scripts/check_types_selected.py:173-186 | the search succeeds iff the graph has no cycle, in whatever order nodes are visited |
| `RefinesGraph.TargetsOf` | scripts/check_types_selected.py:164-171 | the targets of one owner, or the fault of its first wrong Link, or else a repeated target |
| `RefinesGraph.ExactWalk` | scripts/check_types_selected.py:189-203 | the worklist returns exactly the pins reachable through metatype, Link type and Link target, and fails iff a reachable pin is not recorded |
| `RefinesGraph.SoundIsExact` | scripts/check_types_selected.py:164-171 | an owner is sound iff every Link it owns is of the kind and leads to a recorded definition, and no target repeats |
| `RefinesGraph.EdgesAreOwned` | scripts/check_types_selected.py:163-172 | the edges of the graph are the targets of the Links owned by the recorded definitions |
| `RefinesGraph.ReferencesAreExact` | scripts/check_types_selected.py:198-202 | a definition refers to its metatype and to the kind and target of each Link it owns |
| `RefinesGraph.RecordsAreLast` | scripts/check_types_selected.py:161 | of definitions with one pin the last is recorded |
| `GrowingBuffer.ReadBody` | packages/client/src/bounded-http-transport.ts:543-572 | the loop yields the body or the first fault, never holds a buffer beyond the limit nor of twice the bytes received, and recopies fewer than twice the bytes received |
| `GrowingBuffer.BodyIsConcatenation` | packages/client/src/bounded-http-transport.ts:558-570 | the body is the concatenation of the chunks iff their total is within the limit |
| `GrowingBuffer.EmptyBodyIsEmpty` | packages/client/src/bounded-http-transport.ts:557 | where an empty body is expected, it is accepted iff all chunks are empty |
| `GrowingBuffer.BodyFailsAtFirstFault` | packages/client/src/bounded-http-transport.ts:549-558 | a body fails iff some item fails to be read, is no bytes, is not empty where it should be or is too many bytes, with the fault of the first such item |
| `CacheControl.AssertPrivateNoStore` | packages/client/src/read-update.ts:982-1020 | the loop accepts iff the header is present and its value is accepted |
| `CacheControl.AcceptedMeansListed` | packages/client/src/read-update.ts:976-1020 | a value is accepted iff it is a comma-separated list of directives, with optional whitespace and empty members, that holds bare `private` and bare `no-store` in any letter case |
| `CacheControl.ScanRecoversDirectives` | packages/client/src/read-update.ts:1000-1018 | on a printed list the scan recovers exactly the directives, whatever commas, quotes and backslashes their quoted arguments hold |
| `CacheControl.DirectiveMatches` | packages/client/src/read-update.ts:978-979 | every directive matches the pattern |
| `CacheControl.MatchIsDirective` | packages/client/src/read-update.ts:978-979 | every text that matches the pattern is a directive |
| `CacheControl.BareMeansWord` | packages/client/src/read-update.ts:1003-1005 | a member counts iff it is the word `private` or `no-store` in any mixture of letter cases, without an argument |
| `CacheControl.TokenUnitsAreExact` | packages/client/src/read-update.ts:979 | the units of a token are letters, digits and the fifteen marks of RFC 9110 |
| `CacheControl.QuotedUnitsAreExact` | packages/client/src/read-update.ts:979 | the units of a quoted string are tab and the bytes from space on, without delete, quote and backslash, and with the latter two after a backslash |
| `ObjectEdits.MergeMeansShallowMerge` | apps/bdp/src/canonical-input.ts:444-454 | applied, the patch compiled from a merge gives the shallow merge on every base object |
| `ObjectEdits.KeyedMeansLastSetThenUnset` | apps/bdp/src/canonical-input.ts:457-478 | applied, the patch compiled from keyed edits leaves each key set with its last value, each unset key gone and the rest untouched, on every base object |
| `EditLimits.MergeIsAppliedWithinLimits` | packages/server/src/retained-v01/object-edits.ts:40-52 | the server refuses the patch compiled from a merge iff it has over 100 members, counted with the patch of the other document, or a name whose escaped path takes over 2048 bytes, or the other patch exceeds the limits by itself |
| `EditLimits.KeyedIsAppliedWithinLimits` | packages/server/src/retained-v01/object-edits.ts:40-52 | the server refuses keyed edits iff distinct keys set, plus twice those unset, plus the other patch are over 100, or some path is too long |
| `EditLimits.BytesOfEscape` | apps/bdp/src/canonical-input.ts:218-220 | escaping a key costs exactly one byte for each tilde and slash |
| `ObjectEdits.CompileKeyed` | apps/bdp/src/canonical-input.ts:457-478 | keyed edits compile iff every entry has a sign and a readable value and all entries fit the input bound; a refusal is for the bound or the first entry at fault |
| `ObjectEdits.TotalBytesAdd` | apps/bdp/src/canonical-input.ts:459-471 | the bytes charged add up entry by entry |
| `ObjectEdits.SettingIsExact` | apps/bdp/src/canonical-input.ts:460-463 | an entry sets the text before its first sign to the reading of the text behind it |
| `ObjectEdits.RootChanges` | packages/server/src/retained-v01/object-edits.ts:76-80 | a change of the root replaces or removes the document |
| `ObjectEdits.PatchesCompose` | packages/server/src/retained-v01/object-edits.ts:63-126 | patches compose, and the first failure ends them |
| `EditLimits.PathFitsIff` | packages/server/src/retained-v01/object-edits.ts:40-52 | a path is within the limits iff it takes at most 2048 bytes and holds at most 64 slashes |
| `ObjectEdits.LookupAfterPut` | packages/server/src/retained-v01/object-edits.ts:119-125 | defining a member changes what its name reads and nothing else |
| `ObjectEdits.LookupAfterDelete` | packages/server/src/retained-v01/object-edits.ts:118 | deleting a member leaves its name unread and nothing else changed |
| `HistoryOrdinals.ResolveRevisionOrdinal` | apps/bdp/src/canonical-runtime.ts:97-142 | resolving n yields row n of the concatenated pages before the first problem; failing that, the problem, if it is on one of the first hundred pages; else not-found if these were all pages, and otherwise it gives up |
| `HistoryOrdinals.ResolutionIsDecided` | apps/bdp/src/canonical-runtime.ts:97-142 | row n is the row so many places into the first page that reaches up to it; a problem counts if it is on one of the first hundred pages and met before; row n is missing if at most a hundred pages hold fewer rows, and out of reach if there are more pages |
| `HistoryOrdinals.ListVersions` | apps/bdp/src/canonical-runtime.ts:684-735 | the listing numbers all rows from one, reports the first problem, refuses more than a hundred pages, and says whether it is complete |
| `HistoryOrdinals.ListingIsComplete` | apps/bdp/src/canonical-runtime.ts:693-729 | a full listing shows every row of every page at its number, and nothing else |
| `HistoryOrdinals.ListingRefusals` | apps/bdp/src/canonical-runtime.ts:693-720 | a full listing is refused with the first problem on the first hundred pages, or if these are not all |
| `HistoryOrdinals.NumberingAgrees` | apps/bdp/src/canonical-runtime.ts:723-729 | a full listing numbers a row n iff resolving n over the same pages yields that row |
| `HistoryOrdinals.PagingIsIrrelevant` | apps/bdp/src/canonical-runtime.ts:109-135 | two cuts of one history into at most a hundred pages give every ordinal the same answer |
| `ReadinessTraversal.ReadyListIsExact` | packages/bd-domain/src/index.ts:97-169 | when the traversal ends without a problem over distinct Beads, there is one reading of what the server served, page by page and answer by answer, and the list holds exactly its listed Beads that are open and whose every outbound blocking Link leads to a closed Bead of the inventory or fetched, strictly ascending, each with the gathered records of its blockers, Link by Link |
| `ReadinessTraversal.ReadyListInGeneral` | packages/bd-domain/src/index.ts:97-169 | the same over any inventory, repeated identities included: blockers resolve to the last record gathered under their identity, which stands beside the Bead, and no Bead stands behind one that belongs after it |
| `ReadinessTraversal.GatherIsExact` | packages/bd-domain/src/index.ts:97-240 | the traversal succeeds iff the server offers a finished chain of Bead pages, then without a pause a finished chain of Links for each listed Bead, then an answer or not-found for each missing blocker, all within 10000 requests and 100000 items; it returns exactly those records with those Links and the found blockers, and the budget left is short by exactly what was asked and kept |
| `ReadinessTraversal.ReadyBeadsFromClient` | packages/bd-domain/src/index.ts:97-169 | in place, with a client and a budget: a list is returned iff such a reading exists, it is the list of that reading, the questions asked are those of the reading, and never more than 10000 are asked |
| `Readiness.ReadyBeadsFromRecords` | packages/bd-domain/src/index.ts:54-75 | the list made of any records is the sorted list of the ready ones |
| `PageChains.ReadAll` | packages/bd-domain/src/index.ts:171-240 | the page loop in place, for any server, with the questions it asked and the budget it leaves |
| `PageChains.FollowIsExact` | packages/bd-domain/src/index.ts:171-240 | the page loop succeeds iff the server offers a chain of pages with new and distinct continuations, at most 10000 of them, whose pages and items the budget can pay; it returns the items in order and is charged one request for each page and one item for each item |
| `PageChains.FollowStopsForAReason` | packages/bd-domain/src/index.ts:171-240 | a page loop that stops has followed an open chain as far as it goes and stops for the repeated continuation, the page bound, the missing request, the problem reported or the page too large that comes next, with its books exact even so |
| `PageChains.FollowIsBalanced` | packages/bd-domain/src/index.ts:258-268 | however the page loop ends, each question asked is one request less |
| `ReadinessTraversal.FetchIsExact` | packages/bd-domain/src/index.ts:143-160 | all missing blockers are gathered iff each is given or not found and the budget lasts; a request is charged for each and an item for each found |
| `ReadinessTraversal.GatherIsBounded` | packages/bd-domain/src/index.ts:100-105 | over every outcome, stops included, questions asked and requests left make 10000 |
| `ReadinessTraversal.GatherPaysForItsItems` | packages/bd-domain/src/index.ts:100-105 | inventory, Links and fetched blockers together with the items left are always 100000 |
| `ReadinessTraversal.ReadingFetchesBlockers` | packages/bd-domain/src/index.ts:125-160 | the fetched Beads are distinct, in the Scope and outside the inventory |
| `ReadinessTraversal.ReadingAccountsForBlockers` | packages/bd-domain/src/index.ts:125-160 | every in-Scope blocker the inventory names is gathered or was reported as not found in the course of the traversal |
| `ReadinessTraversal.MissingInOrder` | packages/bd-domain/src/index.ts:125-142 | blockers are asked for in order of first mention |
| `ReadinessTraversal.MissingIsExact` | packages/bd-domain/src/index.ts:125-142 | what is asked for are the in-Scope targets of blocking Links in the inventory that are no Bead of it |
| `Readiness.ByIdIsLast` | packages/bd-domain/src/index.ts:58 | the table holds under each identity the last record listed |
| `Readiness.BlockingConcatenates` | packages/bd-domain/src/index.ts:62-65 | the blocking Links of a list keep their order, each as often as it is there |
| `Readiness.BeforeIsStrictOrder` | packages/bd-domain/src/index.ts:77-95 | the comparison is a strict weak order |
| `Readiness.BeforeIsTotal` | packages/bd-domain/src/index.ts:77-95 | Beads of distinct identity are never tied |
| `Readiness.OrderMeans` | packages/bd-domain/src/index.ts:77-95 | smaller priorities first and missing ones last; then newer creations first and unknown ones first; then identity |
| `PageChains.Budget.ConsumeItems` | packages/bd-domain/src/index.ts:258-262 | items are paid in full or not at all |
| `PageChains.Budget.ConsumeRequest` | packages/bd-domain/src/index.ts:264-268 | a request is paid iff one is left |
| `Sorting.SortIsOrdered` | packages/bd-domain/src/index.ts:74 | sorting with a strict weak order gives an ordered list |
| `Sorting.SortIsStable` | packages/bd-domain/src/index.ts:74 | elements tied with one another keep their order |
| `Sorting.OrderedIsUnique` | packages/conformance/src/canonical-json.ts:37 | a list of pairwise ordered elements has one ordered rearrangement |

## Left out

- Network, processes, streams, files, timers, signals and clocks: they enter as oracles, times and step relations.
- URL parsing and canonicality, record schemas and the parsers of the protocol package, which is not part of this model: a parsed body is a value and a URL is opaque, so routing is not modelled, and the limit parameter of a URL is read by a function parameter.
- Recursion limits of the host: depth is unbounded in the model, for values and for the depth-first search alike.
- The enumeration order JavaScript gives to integer-like member names: members are listed in one order, and results that could depend on it are stated through lookups or sorting.
- Doubles: numbers are spelled texts, reals in the readiness order, or an abstract type with its formatter.
- Texts that are not JSON, in the scan for repeated names: the parser has accepted the text before. The scalars of its trees may be any text without quotes and structural characters, which includes all JSON literals and numbers.
- Lower-casing of directives beyond ASCII: the letters a quoted argument may hold never become ASCII letters.
- A History operation notes the next URL before the check after inspection fails; it is settled by then, so nothing can observe the difference.
- The check that minted Link and Type identities are unique: minting is a function parameter of the bisection model.
- ObjectEdits.CompileKeyed: the reading of a value after the sign, as JSON literal or string, is a function parameter; the modes that replace or pass through a patch only forward their input and are not modelled.
- SingleFlight.NextKeepsInv: what a load body does before it publishes or fails is one step, and the time given with a step is any number.
- ReadinessTraversal.ReadyBeadsFromClient: discovery is one answer outside the budget, creation times are numbers already read from their timestamps, and releasing the continuations afterwards is covered by the session model only.
- GrowingBuffer.ReadBody: cancelling and releasing the stream reader after a fault.
- Command grammar, rendering, configuration, server composition, storage and the query language: wide but shallow, or not yet evaluated anywhere in the repository.
