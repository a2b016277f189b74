# Verification models for boltrig

Dafny models of the algorithms in this repository that are decided by loops, recursion or whole
runs, with proofs of what they compute. `dafny verify dfyconfig.toml` checks all of it.

| module | models |
|---|---|
| `ComplexNumbers`, `Fourier`, `BitReversal`, `Fft` | the in-place radix-2 transform of the familiar host |
| `Json`, `JsonPointer`, `RefInliner`, `RefExpansion`, `PathTemplate`, `PathFilling` | `$ref` inlining, JSON Pointer evaluation and path templating in the adapter generator |
| `GateCoverage` | which make targets continuous integration covers |
| `Reachability` | the call-graph closure of the reachability gate |
| `TextEnvelope` | the envelope around untrusted text |
| `RateLimiter`, `HttpRequest`, `Pagination`, `ResponseBody` | the outbound HTTP policy |
| `PresetHistory` | the version lists of the bench preset store |
| `BundleDigest` | the byte stream behind the protocol bundle pin |
| `Manifest` | pruning absent assets from a character manifest |
| `Text`, `Options`, `Bytes` | Python string operations and small shared types |

## How the models stand to the code

- Arithmetic of the transform and of times and delays is exact, over `real`. The pair
  (cosf, sinf) for each block size is a parameter `w` with `w(2) = -1` and
  `w(len)^2 = w(len/2)`; nothing else about it is used.
- `j & bit` and `j ^= bit` are written as arithmetic on a power of two.
- A JSON object is a map, so key order is not part of a value. Python's `None` and JSON's null are
  one value, as they are to the code: a pointer that lands on null counts as missing, and pruning
  drops nulls.
- A pass through the limiter's lock is one atomic poll; a run is any sequence of polls by any
  tasks at nondecreasing clock readings. Sleeping is the time between two polls of a task.
- The upstream is an arbitrary function from attempts (or page requests) to answers. The egress
  check is a boolean input and a parsed Retry-After an arbitrary optional number. Methods are
  given upper-cased.
- The tag pattern is a direct matcher over explicit character classes. Under Unicode case folding
  the letter `s` also matches U+017F. Which characters beyond ASCII are word characters is an
  arbitrary parameter.
- A file of a bundle stands for the hexadecimal digest of its canonical JSON. Directory listings
  come in any order.
- `hide` statements only remove definitions from a proof's view; they assume nothing.

## Where the code and its documentation part

- The inliner is documented to make schemas self-contained. An object whose `$ref` member is itself
  a reference landing on a bare string comes out with a string `$ref`, and nothing else does;
  `RefInliner.SelfContainedIffPlain` gives the exact condition on the document.
- A task that wakes exactly when its computed sleep ends is still refused, because eviction is
  strict: it polls again, without sleeping, until the clock moves
  (`RateLimiter.SleepIsExactThreshold`).
- A path parameter whose name contains braces can replace several placeholders at once;
  `PathTemplate.ReplacementIsRightIffSafe` gives the exact condition on a name and
  `PathFilling.FillIsRightIffGood` on a list of them.
- The preset store says the oldest of an autosave run drops past eight. The splice removes one
  version per save, so a run already longer than eight when found keeps its length
  (`PresetHistory.LongRunStaysLong`); `PresetHistory.TrimmedIffShortRuns` gives the exact condition.
- With `max_attempts` below one a request is still sent once.
- A target with no prerequisites that no workflow names is not covered, although "every component"
  of it is.

## Model

| member | source | states |
|---|---|---|
| `BitReversal.Advance` | familiar/main.c:649-652 | one increment of the reversed-binary counter takes the reversal of i-1 to the reversal of i |
| `BitReversal.RevInvolution` | familiar/main.c:649-657 | reversing the bits of an index twice gives the index back |
| `BitReversal.ReversedAt` | familiar/main.c:649-657 | the index map and the even/odd recursive listing are the same permutation |
| `BitReversal.SwapStep` | familiar/main.c:653-656 | visiting index i exchanges exactly the pair (i, reversed i), and only when i is the smaller, so each pair is swapped once |
| `BitReversal.Permute` | familiar/main.c:649-657 | the in-place swap loop leaves both arrays in bit-reversed order |
| `Fourier.EvalSplits` | familiar/main.c:663-673 | a polynomial at z is its even part at z squared plus z times its odd part at z squared |
| `Fourier.CosinesAndSinesQualify` | familiar/main.c:659-660 | all the transform needs of the cosine and sine pairs is the half turn at length two and the double-angle laws |
| `Fourier.HalfTurn` | familiar/main.c:659-660 | the root of order n raised to n/2 is minus one, from w(2) = -1 and w(len)^2 = w(len/2) alone |
| `Fourier.ButterflyEvaluates` | familiar/main.c:658-674 | all butterfly passes on the bit-reversed input give the polynomial of the input at every power of the root |
| `Fourier.ButterflyIsDft` | familiar/main.c:647-675 | for every power-of-two length and every input, bit reversal followed by the butterflies is the sum over t of x[t]*w(n)^(t*k) |
| `Fft.Cross` | familiar/main.c:665-668 | one butterfly: slots a and b become a + c*b and a - c*b, nothing else changes |
| `Fft.Turn` | familiar/main.c:669-671 | the running twiddle is multiplied by the root of the stage |
| `Fft.Block` | familiar/main.c:662-672 | the k loop performs one combining pass on its block, with twiddle w^k at step k, and leaves the rest of the arrays alone |
| `Fft.Pass` | familiar/main.c:661-673 | the i loop performs one combining pass on every block of the stage |
| `Fft.Doubled` | familiar/main.c:658-674 | the stage invariant: if every block of size h is fully transformed, one pass at 2h makes every block of size 2h so |
| `Fft.Transform` | familiar/main.c:647-675 | the whole in-place transform: slot k ends up holding the k-th value of the discrete Fourier transform of the original arrays |
| `JsonPointer.Evaluate` | boltrig/adapters/generator.py:582-592 | the cursor loop returns the value reached by the decoded tokens, or null for a missing member or a non-local pointer; anything but null was reached by a #/ pointer along existing members |
| `JsonPointer.FollowIffChain` | boltrig/adapters/generator.py:584-591 | keys lead to a value other than null if and only if a chain of existing members does |
| `JsonPointer.UnescapeUndoesEscape` | boltrig/adapters/generator.py:587 | replacing ~1 before ~0 undoes RFC 6901 escaping of every string |
| `JsonPointer.UnescapeIsOnePass` | boltrig/adapters/generator.py:587 | on every token, well formed or not, the two replacements in a row are one left-to-right pass |
| `JsonPointer.OrderOfDecodingMatters` | boltrig/adapters/generator.py:587 | the opposite order would read the key ~1 as a slash |
| `JsonPointer.PrintedPointerFollowsKeys` | boltrig/adapters/generator.py:582-592 | every non-empty list of keys, printed as an escaped #/ pointer, is read back as the same list and leads where the keys lead |
| `RefInliner.TargetRefs` | boltrig/adapters/generator.py:568-571 | a pointer target mentions only references of the document: the set of unseen references is a termination measure, cyclic documents included |
| `RefInliner.SiblingsAreAnObject` | boltrig/adapters/generator.py:572-574 | the members beside a reference are inlined as the object they form without it |
| `RefInliner.ShapeIsKept` | boltrig/adapters/generator.py:575-579 | without a string $ref lists keep length and order, objects their keys, each part inlined in place; scalars are left alone |
| `RefInliner.SeenReadsLikeMissing` | boltrig/adapters/generator.py:566-570 | a reference already seen gives what one leading nowhere gives, an empty object, whatever its siblings |
| `RefInliner.SiblingsWin` | boltrig/adapters/generator.py:571-574 | an opened reference keeps the members of its target except where a sibling overrides them; beside anything but an object siblings are dropped |
| `RefInliner.DerefIsString` | boltrig/adapters/generator.py:565-579 | the result is a string exactly for a string, or for a reference whose chain ends on a bare string |
| `RefInliner.DerefIsSelfContained` | boltrig/adapters/generator.py:558-579 | if no object in the document or the node has a $ref member that is itself a reference landing on a bare string, the result has no string $ref at any depth |
| `RefInliner.SelfContainedIffPlain` | boltrig/adapters/generator.py:558-579 | over the parts of the document, which are all the generator inlines: every part comes out self-contained if and only if the document is plain in that sense |
| `RefInliner.NoStringTargetsIsPlain` | boltrig/adapters/generator.py:565-579 | in particular a document none of whose references lands on a bare string is plain |
| `RefInliner.SelfContainedIsFixed` | boltrig/adapters/generator.py:563-579 | a self-contained value is unchanged by inlining against any document, with any references seen |
| `RefInliner.DerefIsIdempotent` | boltrig/adapters/generator.py:558-579 | inlining the result again, against any document, changes nothing |
| `RefExpansion.DerefAgreesWithInline` | boltrig/adapters/generator.py:563-579 | wherever inlining without a seen guard terminates, with any number of expansions, the guarded inliner gives the same value |
| `RefExpansion.FiresIffNeverInlined` | boltrig/adapters/generator.py:565-579 | the seen guard fires on the way to the result if and only if unguarded inlining terminates at no depth |
| `RefExpansion.AcyclicIsFullyInlined` | boltrig/adapters/generator.py:563-579 | on a document with no repeating chain of references from the node the guard never fires and the result is the full expansion, shared references expanded every time |
| `RefExpansion.CycleBecomesEmpty` | boltrig/adapters/generator.py:565-574 | a cycle of references of any length, each found at any depth in the target of the one before and with any siblings: the reference that closes it becomes an empty object, siblings dropped, and the guard fires |
| `RefExpansion.SelfReferenceBecomesEmpty` | boltrig/adapters/generator.py:566-567 | a schema that refers back to itself from any depth, with any siblings, gets an empty object there |
| `PathTemplate.Fill` | boltrig/adapters/generator.py:165-171 | the replacement loop returns the folded replacements, or the refusal, of the specification |
| `PathTemplate.UnquoteUndoesQuote` | boltrig/adapters/generator.py:171 | percent-encoding every reserved byte is undone by percent-decoding |
| `PathTemplate.QuotedAlphabet` | boltrig/adapters/generator.py:171 | an encoded value holds only ASCII letters, digits, hyphen, dot, underscore, tilde and percent signs |
| `PathTemplate.UnreservedIsKept` | boltrig/adapters/generator.py:171 | a value of unreserved characters is its own encoding |
| `PathTemplate.OneReplacement` | boltrig/adapters/generator.py:171 | one replace fills exactly the holes of that name |
| `PathTemplate.ReplacementIsRightIffSafe` | boltrig/adapters/generator.py:171 | the exact condition on a name: its replacement is right on every template if and only if its braces cannot be read as closing one hole and opening another |
| `PathFilling.FillIsSimultaneous` | boltrig/adapters/generator.py:165-171 | one replacement after another equals simultaneous substitution of all parameters, for every good list of names |
| `PathFilling.FillIsRightIffGood` | boltrig/adapters/generator.py:165-171 | the exact condition on the list: the loop is right on every template and for all values if and only if each name is safe or spans a hole that an earlier name fills |
| `PathFilling.OrderDoesNotMatter` | boltrig/adapters/generator.py:166-171 | two good lists of the same names, in any order and with any repetitions, give the same path |
| `PathFilling.BracedNameSpansHoles` | boltrig/adapters/generator.py:171 | the parameter name a}{b swallows the two holes of {a}{b} |
| `PathFilling.MissingIsFirst` | boltrig/adapters/generator.py:167-170 | the path is refused exactly when a parameter is missing, naming the first one |
| `PathFilling.SeparatorsAreThoseOfTheTemplate` | boltrig/adapters/generator.py:165-171 | the slashes of the filled path are those of the template less those inside filled names: no value can add one |
| `GateCoverage.Resolve` | scripts/check_gate_coverage.py:221-244 | terminates on every prerequisite graph and never returns an empty text |
| `GateCoverage.TextIsEvidence` | scripts/check_gate_coverage.py:233-244 | the text returned is the printed form of a genuine derivation of coverage, naming all its jobs and prerequisites, and any such derivation is the one returned |
| `GateCoverage.JoinOneMore` | scripts/check_gate_coverage.py:235-243 | the wording lists every part, each further one behind a comma and a space |
| `GateCoverage.CoveredIsLeastFixedPoint` | scripts/check_gate_coverage.py:227-232 | coverage is a fixed point of the rule "invoked, or has prerequisites and all are covered", and lies inside every set closed under it |
| `GateCoverage.ResolveIsSound` | scripts/check_gate_coverage.py:233-244 | whatever is reported as covered is covered, with the targets on the path ruled out |
| `GateCoverage.ResolveIsComplete` | scripts/check_gate_coverage.py:233-244 | the path-based cycle cut loses nothing: a target of least depth never needs one on the path above it |
| `GateCoverage.ResolveIffCovered` | scripts/check_gate_coverage.py:221-244 | for every target, graph and seen set, a value is returned if and only if the target is in the least fixed point |
| `TextEnvelope.LookaheadIsRegex` | boltrig/text_envelope.py:24-29 | the deterministic scanner accepts exactly what some split into gap, optional slash, gap, word and boundary matches |
| `TextEnvelope.TagIffSpelled` | boltrig/text_envelope.py:24-29 | a tag is exactly a < followed by any listed gap characters, an optional slash, gaps, and the word untrusted in any mix of cases, U+017F standing for an s, not followed by a word character |
| `TextEnvelope.NeutralisedLookahead` | boltrig/text_envelope.py:34-40 | rewriting other < characters changes no lookahead and no word boundary |
| `TextEnvelope.LookaheadBeforeStop` | boltrig/text_envelope.py:58-60 | across the seam: the < of the closing tag reads like the end of the content |
| `TextEnvelope.NeutralisedHasNoTag` | boltrig/text_envelope.py:34-40 | no position of neutralised content matches the tag pattern |
| `TextEnvelope.UntaggedIsKept` | boltrig/text_envelope.py:34-40 | content with no tag is returned unchanged |
| `TextEnvelope.NeutraliseIsIdempotent` | boltrig/text_envelope.py:34-40 | neutralising twice is neutralising once |
| `TextEnvelope.ContentStaysReadable` | boltrig/text_envelope.py:36-39 | nothing of the content is lost: with &lt; read as < it is the same text before and after |
| `TextEnvelope.RewrittenInPlace` | boltrig/text_envelope.py:34-40 | every character of the content stands where the rewritten tags before it push it, and only the < of a tag is rewritten |
| `TextEnvelope.SafeAttrIsSafe` | boltrig/text_envelope.py:43-45 | a label keeps its length and its safe characters; unsafe ones become underscores |
| `TextEnvelope.OpenTagIsOneTag` | boltrig/text_envelope.py:57-59 | the opening tag starts at its only < and ends at its only >, whatever the labels |
| `TextEnvelope.WrapShowsExactlyTwoTags` | boltrig/text_envelope.py:48-60 | for every kind, source and content, itself an envelope or not, the output matches the tag pattern at exactly two positions: its first character and its closing tag |
| `TextEnvelope.WrapReadsBack` | boltrig/text_envelope.py:48-60 | reading the envelope back: up to its first >, the kind and the source each between its own quotes; from there to the closing tag, text that reads like the content |
| `RateLimiter.Limiter.constructor` | boltrig/adapters/http_policy.py:29-44 | a negative limit becomes zero, the window is 1, 3600 or else 60 seconds, and the deque starts empty |
| `RateLimiter.Limiter.EvictOld` | boltrig/adapters/http_policy.py:60-62 | the popping loop drops the calls older than the window from the old end |
| `RateLimiter.Limiter.Poll` | boltrig/adapters/http_policy.py:46-56 | one pass under the lock is one step of the transition function: deque and verdict |
| `RateLimiter.EvictLeavesRecent` | boltrig/adapters/http_policy.py:60-62 | after eviction the deque is exactly the list of admissions of age at most the window |
| `RateLimiter.RunKeepsInv` | boltrig/adapters/http_policy.py:46-62 | what every poll of every run keeps: sorted, spaced, bounded, and a suffix of all admissions |
| `RateLimiter.EveryRunIsSpaced` | boltrig/adapters/http_policy.py:46-62 | over every interleaving of tasks with a nondecreasing clock, any max+1 consecutive admissions span strictly more than the window |
| `RateLimiter.ZeroAdmitsEveryPoll` | boltrig/adapters/http_policy.py:47-48 | with a limit of zero every poll of every run is admitted and the deque is never touched |
| `RateLimiter.AdmittedIffRoom` | boltrig/adapters/http_policy.py:51-56 | a poll is admitted if and only if fewer than max admissions lie in the closed window ending now; otherwise the sleep lies between zero and the window |
| `RateLimiter.SleepIsExactThreshold` | boltrig/adapters/http_policy.py:56-58 | with no other poll between, a waiting task is admitted next time if and only if it polls strictly after the moment it slept until |
| `HttpRequest.Request` | boltrig/adapters/http_base.py:263-315 | for every sequence of upstream answers: sends, limiter passes and pauses are counted exactly; anything but GET, HEAD and OPTIONS is sent once; those three repeat exactly while the answer is a transport error, a 429 or a 5xx not expected and attempts remain; the result is that of the last answer, each pause is the policy's, and the time spent asleep is at most (max_attempts - 1) * max_delay whatever Retry-After says |
| `HttpRequest.RetryableIffTransient` | boltrig/adapters/http_base.py:371-405 | the error handed over is marked retryable exactly when the last answer was transient |
| `HttpRequest.OutcomeFollowsCode` | boltrig/adapters/http_base.py:304-306 | an expected code or any 2xx is returned; every other code fails with exactly the kind, the retryable mark and the Retry-After its range stands for |
| `HttpRequest.BackoffIsGeometric` | boltrig/adapters/http_base.py:407-409 | for any policy the delay is the cap or the term of the geometric progression that starts at the base delay with the first attempt, whichever is smaller |
| `HttpRequest.BackoffFollowsBackoff` | boltrig/adapters/http_base.py:407-409 | with a factor of at least one each delay is the one before times the factor up to the cap, and stays at the cap |
| `HttpRequest.BackoffGrows` | boltrig/adapters/http_base.py:407-409 | with a factor of at least one, delays never shorten from one attempt to the next |
| `Pagination.PaginateOffset` | boltrig/adapters/http_base.py:352-368 | the loop yields, in order, the pages any server gives until an empty page, the announced total or the page budget |
| `Pagination.HonestRun` | boltrig/adapters/http_base.py:352-368 | against any honest server choosing its own page sizes: a contiguous run from the first offset, no gap or repeat, and the whole remainder unless the page budget ends it |
| `Pagination.AnnouncedLengthSavesAPage` | boltrig/adapters/http_base.py:365-368 | with the total always announced and anything left to fetch, no page is asked for in vain |
| `ResponseBody.ReadConsumed` | boltrig/adapters/http_response.py:52-56 | the already-consumed branch computes the same function of the bytes |
| `ResponseBody.ReadStream` | boltrig/adapters/http_response.py:48-72 | the chunk loop depends only on the concatenated bytes and its buffer never exceeds the bound |
| `ResponseBody.BoundedResponse` | boltrig/adapters/http_response.py:99-115 | refusals and truncation of the whole reader: raises exactly when total or declared length is above the bound, or returns the longest allowed prefix flagged exactly then |
| `Reachability.Graph.Add` | scripts/check_reachability.py:88-90 | definitions of one name pool the names they load |
| `Reachability.Graph.Root` | scripts/check_reachability.py:92-94 | a root is added and nothing else changes |
| `Reachability.Graph.Unreachable` | scripts/check_reachability.py:186-195 | the worklist terminates with exactly the names on a walk from a root, and reports exactly the other defined names |
| `Reachability.MergedIsUnion` | scripts/check_reachability.py:88-90 | the merged graph has an edge exactly where some definition of that name loads the other name |
| `Reachability.ReportedIsUnreachable` | scripts/check_reachability.py:15-21 | for every finer call graph over definition sites whose calls go through loaded names, a reported definition is on no chain of calls |
| `Reachability.Build` | scripts/check_reachability.py:81-94 | adding every definition and root in turn gives the merged graph |
| `Reachability.Gate` | scripts/check_reachability.py:186-195 | the report of the gate is exactly the defined names no walk reaches, and no chain of calls in any finer call graph arrives at a definition it reports |
| `Reachability.ReachableGrows` | scripts/check_reachability.py:19-21 | more roots or more edges never add a report |
| `PresetHistory.CountRun` | apps/worker/vite.config.ts:243-245 | the loop counts the trailing autosaves |
| `PresetHistory.Append` | apps/worker/vite.config.ts:237-251 | a push, then for an autosave the splice of the oldest of a run longer than eight |
| `PresetHistory.Presets.Post` | apps/worker/vite.config.ts:139-254 | the handler accepts exactly the listed bodies, looks and journeys, changes the store as specified, replies with the new length and leaves the store alone on every refusal; a save over a bare entry of the older format leaves both versions and replies 2 |
| `PresetHistory.SaveTrims` | apps/worker/vite.config.ts:229-251 | one save takes the trimmed history to the trimmed longer history |
| `PresetHistory.SavedFromIsTrimmed` | apps/worker/vite.config.ts:229-251 | after any saves a list with no nine autosaves in a row is the whole history without the autosaves that eight more of the same run have followed |
| `PresetHistory.TrimmedIffShortRuns` | apps/worker/vite.config.ts:243-248 | that closed form holds for all saves if and only if the list found has no nine autosaves in a row |
| `PresetHistory.SavedFromAny` | apps/worker/vite.config.ts:229-251 | any list at all: everything up to its last manual save stays, the run behind that keeps its latest eight or as many as it had, and everything from the next manual save on is trimmed |
| `PresetHistory.LongRunStaysLong` | apps/worker/vite.config.ts:246-248 | nine stored autosaves stay nine after another: the splice drops one, not all past eight |
| `PresetHistory.ManualSavesSurvive` | apps/worker/vite.config.ts:135-138 | manual saves are never lost or reordered, whatever the list held before |
| `PresetHistory.StoreIsTrimmedHistory` | apps/worker/vite.config.ts:163-254 | from any store, after every sequence of requests, accepted or not, a key holds what was stored there and what was accepted under it, trimmed, if and only if no nine autosaves in a row were stored under it |
| `PresetHistory.FreshKeysAreTrimmed` | apps/worker/vite.config.ts:135-143 | so for a key not stored before, or stored in the older format, whose bare object counts as the first version |
| `PresetHistory.KeysNeverCollide` | apps/worker/vite.config.ts:189-208 | two accepted requests share a key if and only if they name the same look or the same transition |
| `PresetHistory.TakesAreAllKept` | apps/worker/vite.config.ts:176-203 | from any store a transition keeps what it held and every take accepted for it, in order |
| `BundleDigest.ListDirectory` | scripts/check_codex_protocol.py:181-218 | one directory: refuses exactly what is not acceptable, else collects its files and queues its subdirectories |
| `BundleDigest.Scan` | scripts/check_codex_protocol.py:172-218 | the stack of directories yields every file of the tree exactly once, and is refused exactly for an unacceptable tree |
| `BundleDigest.SortSorts` | scripts/check_codex_protocol.py:219 | sorting by path orders the files and keeps them |
| `BundleDigest.LexIsFirstDifference` | scripts/check_codex_protocol.py:219 | paths are ordered as prefixes or by the first character that differs |
| `BundleDigest.PortableIffListed` | scripts/check_codex_protocol.py:206-208 | a path component is accepted exactly if it is a non-empty string of ASCII letters, digits, dot, underscore and hyphen |
| `BundleDigest.JsonNameIffSuffixed` | scripts/check_codex_protocol.py:203-204 | a file is accepted exactly if its name is something followed by .json |
| `BundleDigest.BundleStream` | scripts/check_codex_protocol.py:222-240 | the hashed bytes are the lines of the sorted files of the tree, with their count |
| `BundleDigest.OrderIsUnique` | scripts/check_codex_protocol.py:219 | files with distinct paths have one ordering |
| `BundleDigest.StreamParses` | scripts/check_codex_protocol.py:225-230 | the framing is unambiguous: equal streams have equal paths and digests line by line |
| `BundleDigest.TreeStreamReadsBack` | scripts/check_codex_protocol.py:222-240 | the stream of an acceptable tree, cut at its line feeds, is one line per file in order, path and digest either side of a space, and the path split at its slashes is the way to the file |
| `BundleDigest.FoundOnce` | scripts/check_codex_protocol.py:181-218 | in a file-system tree each file is found once and its path determines it |
| `BundleDigest.StreamIffSameFiles` | scripts/check_codex_protocol.py:222-240 | two acceptable trees give the same stream if and only if they hold the same files with the same digests |
| `BundleDigest.ReorderKeepsFiles` | scripts/check_codex_protocol.py:181-218 | listing the directories of a tree in another order, at any depth, keeps its files and whether it is accepted |
| `BundleDigest.EnumerationCannotShow` | scripts/check_codex_protocol.py:172-240 | two enumerations of one tree give the same stream and the same count |
| `Manifest.PruneKeepsPresentAssets` | scripts/export_character_bundle.py:433-457 | the file/digest pairs that survive are exactly those at nodes with no absent-file node at or above them |
| `Manifest.PrunedListKeepsOrder` | scripts/export_character_bundle.py:452-454 | a pruned list is the pruned forms of exactly the items that are neither null nor an object whose file is absent, each once and in order |
| `Manifest.DroppedIffNotPresent` | scripts/export_character_bundle.py:440-442 | pruning gives null exactly for null and for an object whose file is one of the absent ones |
| `Manifest.PruneKeepsRetainedMembers` | scripts/export_character_bundle.py:443-451 | a member survives if and only if something is left of it: no null, no absent file, no newly emptied parent |
| `Manifest.PruneIsClean` | scripts/export_character_bundle.py:439-455 | what is left names no absent file and holds no null at any depth |
| `Manifest.PruneFixesExactlyClean` | scripts/export_character_bundle.py:439-455 | a manifest is unchanged if and only if it was clean already |
| `Manifest.PruneIsIdempotent` | scripts/export_character_bundle.py:439-457 | pruning twice is pruning once |
| `Manifest.Collect` | scripts/export_character_bundle.py:376-387 | the pairs are written in document order, for some order of each dictionary, a later digest replacing an earlier one; starting empty, the dictionary is exactly the set of pairs if and only if no file has two digests |
| `Manifest.OrderHoldsAssets` | scripts/export_character_bundle.py:379-386 | whatever the order of the members, the pairs written are those of the manifest |

## Left out

- The rest of the familiar host (Wayland, EGL, GL, threads, audio capture) and the rounding of its float arithmetic.
- Egress classification of addresses, link-style pagination, credential handling and response parsing: library behaviour or easy members.
- Device and camera leases, adapter loading and the MCP consumer: what matters there rests on stores and transports that are not part of this model.
- GateCoverage.Resolve: the set of jobs naming a target is given as its sorted listing.
- Reachability.Graph.Add: where a name was first defined and why a root is a root are display data and are not modelled; extracting loads and roots from syntax trees is an input.
- RateLimiter.Limiter.Poll: is one pass through the waiting loop; the loop itself, which may never end, appears as the runs of polls.
- PresetHistory.Presets.Post: the JSON text of a version is opaque, and reading and writing the preset file around each request is not modelled.
- BundleDigest.BundleStream: strict JSON parsing, canonical encoding and the hash functions are not modelled; refusals are not told apart, and the root is taken to be a directory.
- ResponseBody.BoundedResponse: a malformed or negative content length and a bound below one, both refused before any reading, are not modelled.
- Manifest.Collect: the shared dictionary is passed along as a value instead of being filled in place, and the order of a dictionary's members is arbitrary instead of their insertion order.
- PathFilling.FillIsSimultaneous: is stated for templates whose literals are brace-free; values are taken as their UTF-8 bytes.
- Release, compose, recovery and desktop-manifest validators, branding, catalogues and the other gate scripts: flat field checks or I/O.
