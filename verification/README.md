# A verified model of the PII gateway engine

This project states in Dafny what the engine promises about personal data, locks, queues, frames,
gates and money, and proves it for every input, every interleaving and every run.  Each module
follows one part of the system:

- **PII codec** (`PiiTypes`, `PiiGrammar`, `PiiPattern`, `PiiCodec`, `PiiRoundTrip`): texts with
  detected spans are encoded against one token space, masked or not as configured, and decoded in one
  tolerant pass whose pattern is given exactly.  Decoding
  gives the source back if and only if no reversible span stands right after an exposed backslash.
  The codec is any one whose tokens tell values apart; placeholders and handles are shown to be such.
- **Streaming** (`Piecewise`, `PiiStream`): when an answer decoded round by round arrives as the decoding
  of the whole answer, exactly, in terms of where the rounds fall.
- **Detection** (`PiiSpans`, `PiiWindows`) and the parts together (`PiiEndToEnd`).
- **Slot lock** (`SlotLock`): any number of processes acquiring, polling, failing open, spawning,
  crashing; nobody gets in without a slot, at most n at once, no wait cycle, no deadlock, balanced nesting.
- **Token cache** (`TokenCache`): any number of threads over a monotone clock and a failing service.
- **Scheduler** (`Heap`, `Scheduler`): binary heaps per model group, conserved over every run.
- **Event stream** (`Crc`, `Numerals`, `Framing`, `EventStream`): frames decode to what was encoded,
  nothing else decodes, and one changed byte anywhere is never accepted.
- **Test quality** (`CallGraph`): the per-path search is reachability, so TQ001 is exact.
- **Budget gates** (`StrictGate`, `RatchetGuard`, `DiffLines`): verdict, ratchet, guard and diff reader.
- **Logs, ledger, prices, YAML** (`StdoutLog`, `BudgetLedger`, `Pricing`, `YamlEscape`).

`Text` and `Sorting` hold decimal numerals, the string order and a stable sort.  Check everything with
`dafny verify dfyconfig.toml`.

## Conventions

Protocols are state machines: `Do` gives the state after an event, runs are sequences of states, and
the theorems hold at every state of every run.  Where the source changes an object or a list, the
model has a class or a method with a loop, specified by a function whose properties are proved.
Functions that the source calls but does not define (regex character classes, what a codec mints, a
detector, a dictionary evaluator, the token service, checksums and number formats in the frame layout)
are parameters, so the results hold for each choice.  Money and time are `real`; token counts are `nat`.

## Where the code does not do what it says

- A reversible span right after a backslash comes back without that backslash, because the tolerant
  pattern takes an escaping backslash into the match (`PiiRoundTrip.BackslashLost`); the exact condition is
  in `PiiRoundTrip.RoundTripWhole`.
- A stream can end in an underflow error although a token was only split: when a round falls right behind
  the backslash that escapes a token and no earlier bracket keeps that backslash back
  (`PiiStream.SplitEscapeFails`), or when more than the holdback limit of a token is pending
  (`PiiStream.OverlongTokenFails`).  Those are all the cases (`PiiStream.ExposedExactly`), and exactly when
  they are fatal is `PiiStream.StreamIff`.  Placeholders and random handles never get so long
  (`PiiEndToEnd.PlaceholderStream`, `PiiEndToEnd.HandleStream`).
- The window planner promises that an entity straddling a cut is intact in one window.  That holds exactly
  for entities shorter than the overlap and by two than the shortest window (`PiiWindows.KeepsExactly`);
  for every other length some text loses one (`PiiWindows.OverlapIsSharp`, `PiiWindows.ShortestIsSharp`).
- Running the limit update twice takes the same fixes off twice (`StrictGate.RatchetClosedForm`); it is
  idempotent only under the condition of `StrictGate.RatchetIdempotent`.
- The diff reader gives hunks to the wrong file once an added line reads `++ b/...`
  (`DiffLines.ForgedHeader`) and misses names that git quotes (`DiffLines.QuotedNameMissed`) or ends with a
  tab.  `DiffLines.AttributionExact` says exactly when what it reads is right nevertheless.
- It also splits lines at separators that git does not (`DiffLines.SplitExact`), which can forge a header
  (`DiffLines.SeparatorForges`); `DiffLines.HarmlessSeparators` says when nothing changes.
- A test shadowed by a later one of the same name is reported even if its helpers assert
  (`CallGraph.ShadowedIsReported`, `CallGraph.ShadowedDespiteHelper`).
- `poll` with a healthy deployment answers yes without taking the request off the queue.
- An invalid duration replaces the user's record before the error is raised.
- Usage that reports cache tokens both inside and outside the prompt count is billed for them twice, and so
  are tokens inside it once any other count comes separately (`Pricing.SeparateOvercharge`).
- The YAML escaper leaves other control characters raw, which a double-quoted scalar may not hold
  (`YamlEscape.EscapeRoundTrip` is exact).

## Model

| member | source | states |
|---|---|---|
| `PiiGrammar.DecodeSplits` | code/engine/litellm/pii/codec/grammar.py:121-123 | across a clean cut two texts decode independently: no match starts in one and ends in the other |
| `PiiGrammar.DecodeUntouched` | code/engine/litellm/pii/codec/transform.py:165-175 | a text none of whose tokens is resolved decodes to itself |
| `PiiGrammar.SubstringTokens` | code/engine/litellm/pii/codec/grammar.py:125-131 | any slice of a text contains only tokens the whole text contains, so avoiding the text's tokens avoids those of its gaps |
| `PiiGrammar.MaskedScan` | code/engine/litellm/pii/codec/grammar.py:103-105 | a masked entity is never recognised as a token, escaped or not, so masking cannot be undone |
| `PiiGrammar.MintInjective` | code/engine/litellm/pii/codec/grammar.py:96-101 | different entity types or ordinals mint different tokens |
| `PiiPattern.PatternExact` | code/engine/litellm/pii/codec/grammar.py:54-65 | the text between two brackets is read as a token if and only if it is a label of the vocabulary in any case followed by `_` (escaped or not) and digits or by `:` and a handle, with spaces anywhere between and an optional backslash at the end; the canonical form is the upper-case label and the digits or handle as they stand |
| `PiiPattern.SpellingDecodes` | code/engine/litellm/pii/codec/grammar.py:60-65 | every such spelling, with or without a backslash in front, decodes to the value of the token as it was minted, and stays as it is when that has none |
| `PiiPattern.PatternKnows` | code/engine/litellm/pii/codec/grammar.py:54-70 | in particular each label's numbered tokens are read as themselves, for every vocabulary order; a bare label is not read, and nothing is read as one |
| `PiiPattern.PatternKnowsHandle` | code/engine/litellm/pii/codec/grammar.py:54-70 | and each label's handle tokens as themselves |
| `PiiCodec.MintUnused` | code/engine/litellm/pii/codec/transform.py:52-70 | the first of the allowed ordinals whose token the source does not contain; spent only if the source contains them all, refused only if the codec refuses one |
| `PiiCodec.AssignAllKeeps` | code/engine/litellm/pii/codec/transform.py:73-100 | over any list of spans the token table stays consistent and injective, and every placement carries the table's token |
| `PiiRoundTrip.SpliceRenders` | code/engine/litellm/pii/codec/transform.py:103-108 | right-to-left replacement equals rendering gaps and tokens left to right |
| `PiiRoundTrip.SharedTokens` | code/engine/litellm/pii/codec/transform.py:111-129 | across all texts of a batch two reversible placements share a token exactly when entity type and value agree |
| `PiiRoundTrip.ActionsObeyed` | code/engine/litellm/pii/codec/action_aware.py:38-55 | for every detected span of every batch, the action configured for its entity type, else the default, decides: masked, it leaves the bare entity name and nothing in the mapping; otherwise its token is mapped to exactly the detected text |
| `PiiRoundTrip.OnlyEncodedStored` | code/engine/litellm/pii/codec/transform.py:151-154 | whatever is in the mapping is the token of a span that is not to be masked, with exactly its text |
| `PiiRoundTrip.DecodeRendered` | code/engine/litellm/pii/codec/transform.py:165-175 | exactly what decoding an encoded text gives, for every source and placement, swallowed backslashes included |
| `PiiRoundTrip.RoundTrip` | code/engine/litellm/pii/codec/transform.py:111-175 | the encoded text is the source with a token in place of every span, and decoding it gives the source with masked entities masked, if and only if no reversible span follows an exposed backslash |
| `PiiRoundTrip.RoundTripWhole` | code/engine/litellm/pii/codec/transform.py:111-175 | with nothing masked the source itself comes back, under the same exact condition |
| `PiiRoundTrip.EncodeSucceeds` | code/engine/litellm/pii/codec/transform.py:64-70 | encoding succeeds on every source that spells fewer tokens than there are attempts, masked entities included, when the codec refuses none of the ordinals a batch can try (64 for each span) and no two of 64 attempts in a row give one token |
| `PiiRoundTrip.MintFails` | code/engine/litellm/pii/codec/transform.py:52-92 | a value gets no token exactly when the source contains all 64 candidates, or when the codec refuses one after candidates the source all contains; each case has its error |
| `PiiRoundTrip.AssignAllWithin` | code/engine/litellm/pii/codec/transform.py:73-100 | a batch never goes beyond ordinal 64 times its number of spans, for any codec |
| `PiiRoundTrip.BackslashLost` | code/engine/litellm/pii/codec/grammar.py:60-65 | the smallest source that does not come back |
| `PiiRoundTrip.UnknownEntityStays` | code/engine/litellm/pii/codec/grammar.py:54-65 | a token whose entity type is outside the vocabulary is never decoded, whatever is stored |
| `Piecewise.WholePrefix` | code/engine/litellm/pii/codec/grammar.py:121-123 | for any piecewise rewriting, the rewriting of a prefix that does not end inside a rewritten piece is a prefix of every later one |
| `PiiStream.RunStream` | code/engine/litellm/proxy/guardrails/guardrail_hooks/unified_guardrail/unified_guardrail.py:643-724 | the stream loop computes the rounds at the sampled lengths, then the final flush, or stops at the first underflow |
| `PiiStream.RoundsExact` | code/engine/litellm/proxy/guardrails/guardrail_hooks/unified_guardrail/unified_guardrail.py:473-525 | for any decoder whatsoever the client gets the decoding of the whole text exactly when what each round sends is a prefix of what every later round decodes; otherwise the stream ends in an underflow error |
| `PiiStream.StreamIff` | code/engine/litellm/proxy/guardrails/guardrail_hooks/unified_guardrail/unified_guardrail.py:421-532 | for every answer, choice of rounds and stored values, the client gets the decoding of the whole answer exactly when each round that exposes part of a resolved token, which its position tells, exposes what the decoding spells there anyway; otherwise an error |
| `PiiStream.PlainStreamIff` | code/engine/litellm/proxy/guardrails/guardrail_hooks/unified_guardrail/unified_guardrail.py:421-532 | for values that do not start like their token the condition is the position of the rounds alone |
| `PiiStream.ExposedExactly` | code/engine/litellm/pii/codec/grammar.py:133-149 | a round sends part of a resolved token exactly when it falls right behind the escaping backslash with no earlier bracket pending, or so far into the token that more would be pending than the limit allows; then it sends all that has arrived |
| `PiiStream.HoldbackExact` | code/engine/litellm/pii/codec/grammar.py:133-149 | exactly what a round holds back: from an unclosed last bracket on, with the backslash in front of it, if that is at most 92 characters; otherwise nothing |
| `PiiStream.SentPromptly` | code/engine/litellm/pii/codec/grammar.py:136-143 | a round that does not fail has sent all it decodes but at most 92 characters, everything when no bracket is open, and the final flush everything |
| `PiiStream.StreamAnySplit` | code/engine/litellm/pii/codec/grammar.py:133-149 | whatever the values, rounds that do not cut off an escaping backslash, nor fall inside a token longer than the holdback, deliver the decoding of the whole answer |
| `PiiStream.SplitEscapeFails` | code/engine/litellm/pii/codec/grammar.py:144-149 | the smallest stream that ends in an underflow |
| `PiiStream.OverlongTokenFails` | code/engine/litellm/pii/codec/grammar.py:144-149 | every token two characters over the holdback limit underflows when cut before its closing bracket, unless its value starts with a bracket |
| `PiiSpans.TrimExact` | code/engine/litellm/pii/detection/spans.py:12-26 | trimming drops whitespace at both ends and nothing else; only blank spans disappear |
| `PiiSpans.OutranksExact` | code/engine/litellm/pii/detection/spans.py:37-44 | rank is the lexicographic order of score, rules before the model, length, and leftmost start |
| `PiiSpans.ResolveBest` | code/engine/litellm/pii/detection/spans.py:33-57 | the result is disjoint and ascending, comes from the input, and every input span overlaps a kept one of at least its rank |
| `PiiSpans.FirstReportedWins` | code/engine/litellm/pii/detection/spans.py:53-57 | of two detections of equal priority the first reported is kept |
| `PiiSpans.MergeComplete` | code/engine/litellm/pii/detection/spans.py:60-95 | merged spans are trimmed, disjoint, ascending, with no joinable neighbours; every non-blank detection is represented; only whitespace is added |
| `PiiSpans.MergeIsRuns` | code/engine/litellm/pii/detection/spans.py:60-95 | the output is the winners cut into runs that follow each other at once or after one space, each run joined from first to last at its lowest score with its first detector |
| `PiiSpans.MergeIdempotent` | code/engine/litellm/pii/detection/spans.py:94-95 | merging merged spans changes nothing |
| `PiiWindows.PlanWindows` | code/engine/litellm/pii/detection/chunking.py:44-64 | the loop ends and gives a plan: a chain of windows cut at the preferred boundaries, one window when the text fits |
| `PiiWindows.CutExact` | code/engine/litellm/pii/detection/chunking.py:35-41 | a window is cut behind the latest occurrence of the first kind of boundary that occurs in its second part at all, else at its full size |
| `PiiWindows.PlanCovers` | code/engine/litellm/pii/detection/chunking.py:44-49 | every character lies in a window no longer than allowed, for every positive size and every overlap |
| `PiiWindows.KeepsExactly` | code/engine/litellm/pii/detection/chunking.py:44-75 | for every window size, overlap and length, all entities of that length in all texts are kept whole and clear of cuts if and only if the length is less than the overlap and at least two less than the shortest window |
| `PiiWindows.KeepsInNumbers` | code/engine/litellm/pii/detection/chunking.py:44-75 | the same in the two settings alone: length less than the overlap, at least two less than the window, and at most half the window less the overlap or a quarter of the window |
| `PiiWindows.EntitySurvives` | code/engine/litellm/pii/detection/chunking.py:44-75 | an entity of such a length is whole in some window of every plan, clear of its cuts |
| `PiiWindows.OverlapIsSharp` | code/engine/litellm/pii/detection/chunking.py:16-18 | for every size and overlap, zero and oversized ones included, a solid text loses an entity of any length from the overlap to the window size |
| `PiiWindows.ShortestIsSharp` | code/engine/litellm/pii/detection/chunking.py:35-41 | a space that cuts the first window as short as can be loses an entity shorter than the overlap that reaches the cut |
| `PiiWindows.ZeroCoversNothing` | code/engine/litellm/pii/detection/chunking.py:51-64 | with a maximum of zero no window holds any character |
| `PiiWindows.SplitDetects` | code/engine/litellm/pii/detection/chunking.py:78-129 | the wrapped detector reports such an entity at its place in the original text |
| `PiiWindows.DetectExact` | code/engine/litellm/pii/detection/chunking.py:67-86 | the wrapped detector reports exactly the detections of each window's text, moved back to their place, that do not touch a cut |
| `PiiEndToEnd.PlaceholderFits` | code/engine/litellm/pii/codec/placeholder.py:8-24 | placeholders over the pattern's vocabulary tell values apart and are read as minted, as the results below ask |
| `PiiEndToEnd.HandleFits` | code/engine/litellm/pii/codec/handle.py:11-27 | so do handle tokens, random or encrypted, when no two values draw one handle; the drawing function is partial, defined where a batch draws |
| `PiiEndToEnd.HandleFitsBatch` | code/engine/litellm/pii/codec/handle.py:11-27 | random handles of fixed length fit a batch when they are plain and do not repeat among the draws the batch can make |
| `PiiEndToEnd.PlaceholderEncodes` | code/engine/litellm/pii/codec/transform.py:64-70 | with placeholders encoding succeeds on every source that spells fewer tokens than there are attempts |
| `PiiEndToEnd.HandleEncodes` | code/engine/litellm/pii/codec/transform.py:64-70 | so it does with handles, when drawing does not fail or repeat itself within 64 attempts |
| `PiiEndToEnd.MergedRoundTrip` | code/engine/litellm/pii/detection/cascade.py:71-79 | from raw detections through merging, encoding and decoding the source comes back, under the exact condition |
| `PiiEndToEnd.EchoedStream` | code/engine/litellm/proxy/guardrails/guardrail_hooks/unified_guardrail/unified_guardrail.py:597-726 | a model that echoes an encoded text gives the client the source, masked entities masked, for every way of cutting the answer into chunks and every choice of rounds, when no span lost a backslash and no token exceeds the holdback |
| `PiiEndToEnd.PlaceholderTokensFit` | code/engine/litellm/pii/codec/grammar.py:51-52 | placeholders stay within the holdback limit as long as the last ordinal of the batch has no more digits than a discriminator may have |
| `PiiEndToEnd.PlaceholderStream` | code/engine/litellm/proxy/guardrails/guardrail_hooks/unified_guardrail/unified_guardrail.py:597-726 | with placeholders nothing need be assumed about the encoding: it succeeds, its tokens fit, and however the echoed answer is cut and sampled the source comes back |
| `PiiEndToEnd.HandleStream` | code/engine/litellm/proxy/guardrails/guardrail_hooks/unified_guardrail/unified_guardrail.py:597-726 | the same for random handles of at most 64 characters that do not repeat within the batch |
| `SlotLock.StepKeeps` | code/engine/scripts/gate_slot_lock.py:69-143 | every event of every process keeps the invariant that ties handles, kernel locks, markers, counts and children together |
| `SlotLock.MutualExclusion` | code/engine/scripts/gate_slot_lock.py:69-129 | in every run no lock file is held twice, no process holds two slots, one process per directory is past the turnstile, and holders never outnumber the largest count used |
| `SlotLock.EntersWithSlot` | code/engine/scripts/gate_slot_lock.py:109-129 | in every run a process without the marker gets into a block only with a slot below its count that the kernel gives to it, unless the filesystem refused or locking is disabled |
| `SlotLock.AtMostNInside` | code/engine/scripts/gate_slot_lock.py:109-129 | with no filesystem error and locking on, at most n processes are in a block at a time, not counting those started within one |
| `SlotLock.EnterStarts` | code/engine/scripts/gate_slot_lock.py:116-129 | entering under the marker or with locking disabled is a no-op that sets the marker; otherwise it starts an acquisition |
| `SlotLock.ClaimsFirstFree` | code/engine/scripts/gate_slot_lock.py:82-106 | in the first pass and in the poll alike a process takes the first free slot |
| `SlotLock.FindsNone` | code/engine/scripts/gate_slot_lock.py:82-107 | with every slot busy the first pass ends in the queue and the poll starts over, with nothing taken |
| `SlotLock.EnterAlone` | code/engine/scripts/gate_slot_lock.py:99-129 | a process that finds a free slot is in the block with the first one, without queueing, and nothing else changes |
| `SlotLock.QueueAlone` | code/engine/scripts/gate_slot_lock.py:82-96 | at the head of the queue it takes the first free slot and opens the turnstile behind it |
| `SlotLock.HolderNeverWaits` | code/engine/scripts/gate_slot_lock.py:109-118 | whoever holds a slot or runs under the marker waits neither for a slot nor for the turnstile |
| `SlotLock.ShelteredForLife` | code/engine/scripts/gate_slot_lock.py:116-118 | a process born under the marker never waits on the lock files for the rest of its life |
| `SlotLock.ChildrenOfHolders` | code/engine/scripts/gate_slot_lock.py:154-169 | a child spawned under a held slot is born under the marker, and so are its children |
| `SlotLock.NoWaitCycle` | code/engine/scripts/gate_slot_lock.py:82-107 | no process ever waits for itself, through turnstile, slots and child processes together |
| `SlotLock.NoDeadlock` | code/engine/scripts/gate_slot_lock.py:82-152 | every chain of waits ends at a live process that nothing blocks |
| `SlotLock.UnblockedCanGoOn` | code/engine/scripts/gate_slot_lock.py:82-152 | whoever waits for nobody has a next step, and when polling a free slot to find |
| `SlotLock.EnabledExactly` | code/engine/scripts/gate_slot_lock.py:82-152 | in any state, exactly when each event can happen to a process |
| `SlotLock.FailOpenEnters` | code/engine/scripts/gate_slot_lock.py:122-127 | a filesystem error lets the process in unlocked, with whatever it had opened closed |
| `SlotLock.InterruptUndoes` | code/engine/scripts/gate_slot_lock.py:88-96 | an interrupted acquisition leaves the process as it was, with whatever it had opened closed |
| `SlotLock.FinishFrees` | code/engine/scripts/gate_slot_lock.py:69-79 | a process can end at any time, and the kernel frees exactly the files it held |
| `SlotLock.BirthsHappen` | code/engine/scripts/gate_slot_lock.py:154-163 | new processes start with the marker they inherit and no lock |
| `SlotLock.InnerBlocksChangeNothing` | code/engine/scripts/gate_slot_lock.py:132-143 | any nesting inside an entered block leaves outer frames, marker and locks as they were |
| `SlotLock.OutermostLeave` | code/engine/scripts/gate_slot_lock.py:132-143 | leaving the outermost block releases its handle and nothing else, and leaves the marker set exactly if it was set before |
| `TokenCache.StepKeeps` | code/engine/litellm/_redis_credential_provider.py:48-81 | every step of every thread keeps lock, cache, clock and history consistent |
| `TokenCache.OneGeneration` | code/engine/litellm/_redis_credential_provider.py:67-81 | at most one generation is in flight |
| `TokenCache.NoEarlyGeneration` | code/engine/litellm/_redis_credential_provider.py:61-81 | after a refresh no generation for that account starts within the time to live of the clock read that set its expiry |
| `TokenCache.ServedIsValid` | code/engine/litellm/_redis_credential_provider.py:61-73 | every cached token served was generated for that account and unexpired when checked |
| `TokenCache.EveryAnswer` | code/engine/litellm/_redis_credential_provider.py:48-81 | in every interleaving each call returns a token generated for the account it was called with, which it found unexpired in the cache or generated and stored itself; a call that raises had started a generation |
| `TokenCache.CachedCall` | code/engine/litellm/_redis_credential_provider.py:61-65 | with an unexpired entry a call answers with it and touches neither lock nor service |
| `TokenCache.StartsGeneration` | code/engine/litellm/_redis_credential_provider.py:67-75 | without one and with the lock free, a call gets the lock, checks again and starts a generation |
| `TokenCache.ReturnsGenerated` | code/engine/litellm/_redis_credential_provider.py:75-81 | when the service answers, the call stores the token for 55 minutes from then, frees the lock and returns it |
| `TokenCache.RefreshesSpaced` | code/engine/litellm/_redis_credential_provider.py:75-81 | n refreshes of an account after the first take at least n times the time to live |
| `TokenCache.EverythingExpires` | code/engine/litellm/_redis_credential_provider.py:61-65 | after a time to live no cached entry counts as fresh |
| `TokenCache.FailureIsClean` | code/engine/litellm/_redis_credential_provider.py:67-75 | a failed generation leaves the cache alone and frees the lock |
| `TokenCache.HolderCanGoOn` | code/engine/litellm/_redis_credential_provider.py:67-81 | whoever keeps a thread from the lock can take a step itself or waits for the token service alone |
| `Heap.SiftDown` | code/engine/litellm/scheduler.py:47-48 | an item too small for its place rises until the heap is restored; same items |
| `Heap.SiftUp` | code/engine/litellm/scheduler.py:76-78 | a hole sinks to a leaf and the item rises from there; the heap is restored from that position on |
| `Heap.Heapify` | code/engine/litellm/scheduler.py:93-94 | any list becomes a heap of the same items |
| `Scheduler.Scheduler.AddRequest` | code/engine/litellm/scheduler.py:42-50 | the model's queue gains exactly the request and stays a heap; other keys untouched |
| `Scheduler.Scheduler.Poll` | code/engine/litellm/scheduler.py:52-85 | fails on an empty queue; with no healthy deployment admits exactly the front request and removes it; otherwise changes nothing |
| `Scheduler.Scheduler.Peek` | code/engine/litellm/scheduler.py:98-112 | yes exactly when the request is the least waiting one; same errors as `poll` |
| `Scheduler.Scheduler.RemoveRequest` | code/engine/litellm/scheduler.py:87-96 | the queue loses every item of that request and stays a heap; other keys untouched |
| `Scheduler.Scheduler.Play` | code/engine/litellm/scheduler.py:42-137 | any list of commands played through the class: every queue ends as a heap of the requests added less those admitted less those removed, and every command is answered as the requests then waiting demand |
| `Scheduler.DrainSorted` | code/engine/litellm/scheduler.py:52-85 | while requests are only admitted, lower priority numbers come first, and under one number the ids come in code-point order |
| `Scheduler.DrainIsSort` | code/engine/litellm/scheduler.py:52-85 | a full drain empties the queue and admits a sorted permutation of it |
| `Crc.CrcComposes` | code/engine/scripts/mock_bedrock_passthrough_target.py:106-110 | a checksum resumed over more data is the checksum of everything |
| `Crc.CrcSeesOneByte` | code/engine/scripts/mock_bedrock_passthrough_target.py:106-110 | two texts that differ in one byte have different checksums |
| `Crc.TableForm` | code/engine/scripts/mock_bedrock_passthrough_target.py:106-110 | the table-driven byte step equals eight bit steps |
| `Crc.ShiftDivides` | code/engine/scripts/mock_bedrock_passthrough_target.py:106-110 | coefficient by coefficient, a shift of the register is a step of polynomial division by the generator of CRC-32 |
| `Crc.CheckValue` | code/engine/scripts/mock_bedrock_passthrough_target.py:106-110 | the checksum of the letter "a" is E8B7BE43 |
| `Framing.Encode` | code/engine/scripts/mock_bedrock_passthrough_target.py:96-111 | encoding succeeds exactly on messages within the limits and gives their frame; otherwise it names the limit broken |
| `Framing.EncodeHeaders` | code/engine/scripts/mock_bedrock_passthrough_target.py:98-102 | the header loop gives the blob of all headers or stops at the first that does not fit |
| `Framing.HeadersRoundTrip` | code/engine/scripts/mock_bedrock_passthrough_target.py:98-102 | parsing a header blob gives back the headers in order |
| `Framing.FrameRoundTrip` | code/engine/scripts/mock_bedrock_passthrough_target.py:103-111 | whatever follows, decoding a frame gives the message and what follows; the length field is the real length |
| `Framing.DecodeBack` | code/engine/scripts/mock_bedrock_passthrough_target.py:103-111 | whatever decodes is the frame of what it decodes to |
| `Framing.CorruptionSeen` | code/engine/scripts/mock_bedrock_passthrough_target.py:106-111 | with a checksum that sees single changes, no frame with one symbol changed is accepted |
| `EventStream.EncodeMessage` | code/engine/scripts/mock_bedrock_passthrough_target.py:96-111 | the encoder with CRC-32 and big-endian numbers |
| `EventStream.HeaderLayout` | code/engine/scripts/mock_bedrock_passthrough_target.py:99-102 | byte by byte: name length, name, the byte 7, value length in two bytes, value |
| `EventStream.FrameBytes` | code/engine/scripts/mock_bedrock_passthrough_target.py:103-111 | byte by byte: own length, header length and their CRC-32 in four bytes each, headers, payload, CRC-32 of all before; most significant byte first |
| `EventStream.EventRoundTrip` | code/engine/scripts/mock_bedrock_passthrough_target.py:96-111 | the event-stream round trip; the last four bytes are the CRC-32 of all before them |
| `EventStream.EventDecodeBack` | code/engine/scripts/mock_bedrock_passthrough_target.py:96-111 | the decoder accepts exactly the encoder's frames |
| `EventStream.EventCorruptionSeen` | code/engine/scripts/mock_bedrock_passthrough_target.py:96-111 | one changed byte, anywhere, is never accepted |
| `EventStream.EventStreamUnique` | code/engine/scripts/mock_bedrock_passthrough_target.py:204-216 | concatenated frames split back into their messages, and in no other way |
| `EventStream.Deltas` | code/engine/scripts/mock_bedrock_passthrough_target.py:164-176 | the deltas join to the text, all full but the last, none empty |
| `CallGraph.SearchIsReachability` | code/engine/scripts/check_test_quality.py:303-320 | on any call graph, cycles included, the per-path search ends and finds exactly the functions with a chain to an assertion |
| `CallGraph.HelpersIsReachability` | code/engine/scripts/check_test_quality.py:323-338 | the same for the entry point, for a test without an assertion of its own |
| `CallGraph.CallsExact` | code/engine/scripts/check_test_quality.py:241-300 | the scopes resolve exactly the calls that the tree has: a bare name to the prevailing module-level function, `self.name` to the prevailing method of the caller's own class and no other |
| `CallGraph.TestFunctionsExact` | code/engine/scripts/check_test_quality.py:179-201 | exactly the test-named functions at module level and in collectible classes, shadowed ones included |
| `CallGraph.UnassertedExact` | code/engine/scripts/check_test_quality.py:378-391 | TQ001 is reported for exactly the collected tests that cannot reach an assertion through the scopes |
| `CallGraph.UnassertedOnTree` | code/engine/scripts/check_test_quality.py:378-391 | and on the tree alone: for exactly the collected tests from which no chain of such calls reaches an assertion |
| `CallGraph.EchoExact` | code/engine/scripts/check_test_quality.py:341-400 | TQ002 is reported for exactly the collected tests that assert, patch and only inspect mocks, never together with TQ001 |
| `CallGraph.AssertingCalls` | code/engine/scripts/check_test_quality.py:204-220 | a call asserts exactly when the last name of what it calls is one of four pytest helpers or starts with `assert` |
| `CallGraph.PatchingNames` | code/engine/scripts/check_test_quality.py:341-346 | a dotted name patches exactly when it ends in `patch`, `patch.object`, `patch.dict` or `patch.multiple` |
| `CallGraph.PatchesExactly` | code/engine/scripts/check_test_quality.py:349-360 | a test patches exactly when a decorator or a call below it has such a name |
| `CallGraph.OnlyDotted` | code/engine/scripts/check_test_quality.py:154-162 | only chains of attributes rooted in a plain name are dotted names |
| `CallGraph.EchoesExactly` | code/engine/scripts/check_test_quality.py:363-375 | a patching test is an echo exactly when each assertion is a mock's own `assert_` call or a statement that reads a mock's record |
| `CallGraph.ScopedExactly` | code/engine/scripts/check_test_quality.py:274-300 | a function has a scope exactly when it is the last of its name where it is defined |
| `CallGraph.ShadowedIsReported` | code/engine/scripts/check_test_quality.py:330-331 | a shadowed test without its own assertion is always reported |
| `CallGraph.ShadowedDespiteHelper` | code/engine/scripts/check_test_quality.py:330-331 | a test that calls an asserting helper is not reported until a second test of its name follows, and then it is |
| `StrictGate.Evaluate` | code/engine/scripts/ruff_strict_gate.py:125-132 | exactly the rules over limit and above base, sorted by rule; an entry without a limit is an error |
| `StrictGate.FlaggedExactly` | code/engine/scripts/ruff_strict_gate.py:125-132 | a rule breaches exactly when it was found more often than its limit allows and more often than in the base, if it was found there; the breach carries these numbers |
| `StrictGate.SkipExact` | code/engine/scripts/ruff_strict_gate.py:113-122 | with limits of at least zero, no rule is over its limit exactly when the gate passes against every base |
| `StrictGate.SkipSound` | code/engine/scripts/ruff_strict_gate.py:113-122 | with no rule over its limit the gate passes against every base, whatever the limits |
| `StrictGate.RatchetClosedForm` | code/engine/scripts/ruff_strict_gate.py:183-195 | n updates take the fixes off the limit n times, never below zero |
| `StrictGate.RatchetIdempotent` | code/engine/scripts/ruff_strict_gate.py:183-195 | a second update changes nothing exactly when, for every rule, nothing was fixed or the limit was used up |
| `StrictGate.RatchetKeepsVerdict` | code/engine/scripts/ruff_strict_gate.py:183-195 | any number of updates leaves the flagged rules the same for the same counts |
| `RatchetGuard.GuardExact` | code/engine/scripts/budget_ratchet_check.py:141-178 | the guard is silent exactly when there was no budget file, or there still is one that keeps or lowers every ceiling but those of rules that graduated |
| `RatchetGuard.ReportsExactly` | code/engine/scripts/budget_ratchet_check.py:141-178 | exactly the raised ceilings with both values and the lost ones with the old value, but for rules that graduated |
| `RatchetGuard.RatchetPassesGuard` | code/engine/scripts/ruff_strict_gate.py:183-195 | an update passes the guard exactly when no limit is below zero |
| `RatchetGuard.RatchetAlwaysPasses` | code/engine/scripts/ruff_strict_gate.py:183-195 | any number of updates passes the guard, together and one by one |
| `RatchetGuard.HistoryBound` | code/engine/scripts/budget_ratchet_check.py:141-178 | on a history where every change passes gate and guard, a rule never exceeds the larger of its first count and first limit |
| `DiffLines.ParseChangedLines` | code/engine/scripts/ruff_strict_gate.py:135-145 | the loop computes the fold of its line step |
| `DiffLines.HunkBack` | code/engine/scripts/ruff_strict_gate.py:30 | a printed hunk header is read as its new side, a left-out count meaning 1 |
| `DiffLines.HunkExact` | code/engine/scripts/ruff_strict_gate.py:30 | a line is taken for a hunk header exactly when it spells two ranges of digits with optional counts between the marks, and then means the second, a missing count meaning 1 |
| `DiffLines.ParsePrinted` | code/engine/scripts/ruff_strict_gate.py:135-145 | for every diff, each hunk counts for the file of the last line that looks like a header |
| `DiffLines.DiffRoundTrip` | code/engine/scripts/ruff_strict_gate.py:135-145 | printing files and hunks and reading them back gives exactly the new-side lines of every file, when no added line spells a header |
| `DiffLines.AttributionExact` | code/engine/scripts/ruff_strict_gate.py:135-145 | for every diff as git prints it, the lines read back are right for every file if and only if, line by line, what a file loses to other paths is given back to it by hunks of other files, and these give it nothing else |
| `DiffLines.AttributionInForce` | code/engine/scripts/ruff_strict_gate.py:135-145 | for every diff as git prints it in which misplaced hunks share no line number, the lines are right if and only if every hunk that adds lines stands under its own path |
| `DiffLines.InForceReadsRight` | code/engine/scripts/ruff_strict_gate.py:135-145 | for any names and any order of hunks, the lines are right when every hunk that adds lines stands under its own path |
| `DiffLines.OneFileExact` | code/engine/scripts/ruff_strict_gate.py:135-145 | for one file with its hunks in order, the same if and only if on that file's own record |
| `DiffLines.ForgedHeader` | code/engine/scripts/ruff_strict_gate.py:139-140 | the smallest diff whose added line takes the next hunk to another file |
| `DiffLines.QuotedNameMissed` | code/engine/scripts/ruff_strict_gate.py:139-140 | a file whose name git puts in quotes is never recorded, whatever its name and its hunk |
| `DiffLines.SplitExact` | code/engine/scripts/ruff_strict_gate.py:138 | a printed diff splits into its lines if and only if none holds a separator of its own |
| `DiffLines.LastLineKept` | code/engine/scripts/ruff_strict_gate.py:138 | a last line without a line end is a line too |
| `DiffLines.DiffTextRoundTrip` | code/engine/scripts/ruff_strict_gate.py:135-145 | from the text of a clean diff whose lines hold no separator of their own, exactly the new-side lines of every file |
| `DiffLines.HarmlessSeparators` | code/engine/scripts/ruff_strict_gate.py:138 | separators inside lines change nothing when the first piece of each broken line reads as the line does and no other piece reads as a header |
| `DiffLines.SeparatorForges` | code/engine/scripts/ruff_strict_gate.py:138 | an added line with a separator in front of a header changes the path in force, unsplit it would not |
| `StdoutLog.TruncateExact` | code/engine/litellm/_logging.py:131-144 | truncated text is within the limit; head and tail take what a full-length marker leaves, do not overlap, and the marker's number is exactly what was dropped |
| `StdoutLog.MarkerMonotone` | code/engine/litellm/_logging.py:131-135 | a marker for fewer characters is never longer |
| `StdoutLog.Filter` | code/engine/litellm/_logging.py:161-185 | every record passes, rewritten as the filter function says and in nothing else |
| `StdoutLog.LeftAlone` | code/engine/litellm/_logging.py:161-171 | records below INFO, without a positive limit or whose message cannot be rendered stay as they are |
| `StdoutLog.FilterExact` | code/engine/litellm/_logging.py:161-185 | of every other record a message or exception text within the limit reads as before, a longer one as its truncation, and nothing else changes |
| `StdoutLog.FilterBounds` | code/engine/litellm/_logging.py:161-185 | after the filter the message and the exception text are within the limit |
| `StdoutLog.StdoutIdempotent` | code/engine/litellm/_logging.py:161-185 | a second pass changes nothing, for every record and limit |
| `StdoutLog.TryParseEmbedded` | code/engine/litellm/_logging.py:240-271 | the value of the leftmost brace whose balanced text evaluates to a non-empty dictionary, and nothing exactly when there is none |
| `BudgetLedger.BudgetManager.CreateBudget` | code/engine/litellm/budget_manager.py:72-100 | replaces the record, with a schedule for a valid duration; an invalid one fails after replacing |
| `BudgetLedger.BudgetManager.UpdateCost` | code/engine/litellm/budget_manager.py:141-148 | charges the user's total and the model's share; an unknown user is an error and changes nothing |
| `BudgetLedger.BudgetManager.ResetOnDuration` | code/engine/litellm/budget_manager.py:179-192 | clears the costs and restarts the clock exactly when the duration has passed |
| `BudgetLedger.BudgetManager.UpdateBudgetAllUsers` | code/engine/litellm/budget_manager.py:194-197 | the periodic pass applies the scheduled reset to every user in turn |
| `BudgetLedger.RunBalances` | code/engine/litellm/budget_manager.py:72-197 | over every run a user's cost is the sum of the costs by model and of the charges since the last create or reset |
| `BudgetLedger.ModelShares` | code/engine/litellm/budget_manager.py:141-192 | over every run each model's share is what was charged for it since the last create or reset |
| `BudgetLedger.OthersUntouched` | code/engine/litellm/budget_manager.py:72-197 | an operation for one user leaves every other record alone |
| `BudgetLedger.ResetsApart` | code/engine/litellm/budget_manager.py:179-192 | consecutive scheduled resets are at least one duration apart |
| `BudgetLedger.PassResets` | code/engine/litellm/budget_manager.py:179-197 | the periodic pass resets every user whose days have gone by, at that very reading of the clock, and leaves all others alone |
| `BudgetLedger.NewBudgetDue` | code/engine/litellm/budget_manager.py:80-100 | a new budget falls due after one day, seven, 28 or 365, to the second, and never without a duration |
| `Pricing.Normalize` | code/engine/litellm/cost_calculator.py:376-413 | the counts passed on: separate counts win, arguments fill in for zeros, and any separate count extends the prompt count |
| `Pricing.ConventionsAgree` | code/engine/litellm/cost_calculator.py:370-424 | the same usage costs the same with cache tokens outside the prompt count or folded into it |
| `Pricing.BilledOnce` | code/engine/litellm/cost_calculator.py:376-413 | whatever the usage object and the arguments, each prompt token is billed in one class if and only if a count came separately or the prompt count covers the cache counts; otherwise more is billed |
| `Pricing.ItemisedBill` | code/engine/litellm/cost_calculator.py:204-226 | the cost is the price of the tokens one by one, each at the rate of its own kind, cache rates defaulting to the input rate |
| `Pricing.TimedBill` | code/engine/litellm/cost_calculator.py:200-230 | priced by time a call costs its seconds at the rate, all as output; without custom rates there is no custom cost |
| `Pricing.DefaultRates` | code/engine/litellm/cost_calculator.py:207-228 | with default cache rates the input cost is the tokens billed times the input rate |
| `Pricing.SeparateOvercharge` | code/engine/litellm/cost_calculator.py:388-413 | whatever reports it, once any count comes separately a prompt count that already includes the cache tokens is overcharged by exactly these tokens at the input rate |
| `Pricing.BothWaysOvercharge` | code/engine/litellm/cost_calculator.py:388-413 | in particular usage reported both ways, whatever its details say |
| `Pricing.Dedup` | code/engine/litellm/cost_calculator.py:444-451 | the loop ends and leaves one provider prefix where there was any |
| `Pricing.ModelWithProvider` | code/engine/litellm/cost_calculator.py:444-463 | the key is one prefix and the bare model, or the regional key when priced |
| `Pricing.RepeatsDoNotMatter` | code/engine/litellm/cost_calculator.py:444-463 | any number of repeated prefixes gives the same key |
| `YamlEscape.EscapeIsCharMap` | code/engine/litellm/setup_wizard.py:187-191 | the five replaces in a row are one character-by-character substitution |
| `YamlEscape.DecodeEscape` | code/engine/litellm/setup_wizard.py:187-191 | decoding the escapes returns the original, for every string |
| `YamlEscape.EscapeInjective` | code/engine/litellm/setup_wizard.py:187-191 | so different strings escape differently |
| `YamlEscape.EscapeRoundTrip` | code/engine/litellm/setup_wizard.py:187-191 | as a double-quoted scalar the escaped value reads back if and only if the source holds no other control character |
| `YamlEscape.NoBreaks` | code/engine/litellm/setup_wizard.py:187-191 | no raw line break or tab survives |
| `YamlEscape.ClosesAtItsQuote` | code/engine/litellm/setup_wizard.py:187-191 | for every value, other control characters or not, and every document after it, the scalar closes at the quote put behind the escaped value: no quote of the value is bare |
| `YamlEscape.ScalarRoundTrip` | code/engine/litellm/setup_wizard.py:187-191 | reading the quoted value off the front of a document gives the value and the rest of the document, or refuses if and only if another control character is present |

## Left out

- The token store, the recovery of encrypted tokens without it, retries and the HTTP service around the codec: decoding is given the values it resolves, the same ones in every round of a stream.
- Blocking on an entity type: which entity types block is a table lookup; encoding is modelled for every choice of actions.
- Streams with several choices or tool calls: one choice of text is modelled; extra rounds that tool calls cause are covered, since any chunk may be sampled.
- A detector that fails on some window: the whole detection fails then; the model is of detectors that answer.
- Negative overlaps, which would leave gaps between windows by definition.
- Real `flock`, signals, process ids that are reused and the first-come order of the turnstile: the slot lock is about safety and waiting, not fairness.
- The cache behind the scheduler and interleavings between its read and its write: each operation is atomic, as one event loop without that cache runs it.
- The heap operations come from the Python standard library, not from the repository; they are written out here as that library writes them.
- UTF-8 encoding of header names and values, JSON and base64 of event payloads: headers and payloads are bytes.
- The decoder of event frames is not part of the repository; it is written here from the layout as the encoder's partner.
- Parsing Python: a function is the list of nodes below it, with an identity.
- Rules TQ003 to TQ007 and suppressions: single-node pattern matches.
- Running ruff and git, merge bases and printing: counts, budgets and diff lines are inputs; digits in hunk headers are ASCII, as git prints them.
- StrictGate.RatchetClosedForm: the update is modelled on files in which every entry has a limit; on others it raises an error.
- RatchetGuard.HistoryBound: without graduations, which remove a rule from the budget on purpose.
- Secret redaction, JSON log formatting and handler wiring.
- Persistence of the ledger and the cost of a completion: the cost of a charge is an input.
- Provider-specific cost functions, floating-point rounding and `combine_usage_objects`, which depends on usage classes not modelled here.
- The setup wizard apart from its escaper.
