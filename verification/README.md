# zeroTrace, modelled and proved

zeroTrace attaches to a running process, redirects chosen functions through trampolines
into a payload, and reads the events the payload writes into a shared ring. This project
models the parts of it where correctness is hard to see, and proves what they promise for
all inputs, all interleavings and all runs.

* **Event ring** (`EventRing`, `EventRingLaps`, `RingReader`, `RingReaderLaps`): any number of producers
  reserve, zero, store word by word and commit, while the tracer reads commit words,
  events and commit words again. A run is any infinite sequence of such single accesses.
* **Call actions** (`CallActionProtocol`, `CallActionSlots`, `CallActionTrace`,
  `CallActionTable`, `CallActionRefinement`): publishing an action as disabled, data,
  enabled under a snapshot-and-recheck reader, and the assignment of 32 shared slots to
  probes, with any remote write failing; the tracer's operations are runs of the protocol.
* **Calls and returns** (`ShadowStack`, `EntryCache`): the per-thread stack of return
  addresses, call ids, and the cache that pairs a return with its entry.
* **Filters** (`FilterSyntax`, `FilterParser`, `FilterEvaluator`, `FilterLexer`,
  `FilterSpelling`, `FilterCompiler`, `FilterFacts`): the recursive descent that evaluates while it
  parses, against the meaning of a syntax tree; the validator against the grammar; the
  lexer against what a text spells and against a printer; and what the operators do, in
  plain integers.
* **Relocation** (`A64*`, `X86*`): copied prologues, as instruction words and bytes, run
  on small machine models at the new address and compared with the original.
* **Probe lifecycle** (`TrampolinePool`, `ProbeLifecycle`, `ProbeInstall`,
  `ProbeSession`, `ProbeNames`, `ProbeStop`, `RemoteMemory`): the target's code image and slot ownership
  over every sequence of operations, with every step that can fail.
* **Thread group** (`ThreadGroup`): stopping all tasks while they clone and exit, and
  moving them out of the bytes a patch overwrites.

Code that updates state in place is modelled by classes and methods; each is tied by its
postconditions to functions and predicates about which the lemmas speak. `Words`,
`ByteString`, `Options` and `Pigeonhole` hold what several modules share. Some proofs use
`hide` statements only to keep the solver's work small.

`dafny verify dfyconfig.toml` checks the project.

## What turned out false, and when it holds

* Whole-event reads need a discipline the payload does not enforce: a slot is not reserved
  again before its previous producer has committed. `EventRing.StableBetween` proves the
  double read under it; `EventRingLaps.LapCanTear` proves that from any state where the
  next reservation breaks it some continuation, made of events the handlers do write,
  announces a number whose fields are mixed, and `EventRingLaps.TornFromStart` gives one
  from a fresh ring. The reader then reports such an event as READY
  (`RingReaderLaps.ReadyCanBeTorn`).
* A return event carries its entry's call id exactly if the thread entered no other probe
  between that entry and the save of its frame (`ShadowStack.ReturnCarriesItsEntry`). A
  call action whose callee is probed breaks this.
* An exit finds the frame its entry saved exactly if the thread never had more than 256
  calls open while the call was (`ShadowStack.OwnFrameExactlyIf`);
  `ShadowStack.DeepCallLosesItsFrame` is a run of 257 nested calls.
* After a failed remote write the shared call-action table may differ from the tracer's
  view for the probes concerned, and for no others. For a probe shown in no foreign slot
  the lookup finds the current action exactly if its last update's three writes succeeded
  and no later clear emptied its slot, and the shared count is not zero
  (`CallActionTable.Table.FindCallAction` with the changes of `synced` that
  `CallActionTable.Table.Update` and `CallActionTable.Table.Clear` state). A clear that is
  tried again after its first write failed can silence another probe;
  `CallActionTable.RetriedClearSilencesAnother` runs it.
* `zt_trace_remove_probe` reports success when the clear inside it failed. The table stays
  in step exactly if the clear's own writes succeed (`CallActionTable.Table.Remove`).
* The stored symbol name is cut at 63 characters. A failed install undoes itself exactly
  unless the full name is not known but the cut one is; then the known probe is forgotten,
  and if it owned a slot the slot stays in use without an owner
  (`ProbeSession.Session.InstallProbe`, `ProbeNames.FailedReinstallLeaksTheSlot`). For the
  same reason installing a second function whose name shares the first 63 characters
  reports success without patching it (`ProbeNames.SecondNameFindsTheFirst`).
* Stopping the trace forgets a probe and gives its slot back even if its prologue could not
  be restored; the jump then stays. The text is the original one exactly if every jump that
  stays happens to be what was there (`ProbeSession.Session.Stop`);
  `ProbeStop.StopLeavesAJump` runs a stop that leaves one into a released slot.
* A successful stop of all threads can miss a task: one that a listed, running task cloned
  before it exited ahead of its turn in the last refresh
  (`ThreadGroup.StopMissesAClone` runs it). It misses none if that refresh listed no running
  task (`ThreadGroup.Tracer.InterruptAll`).
* A failed remote write may change the target: it leaves the larger of what the bulk call
  and the pokes got done, so it changes nothing exactly if those bytes were there before
  (`RemoteMemory.Target.Write`, `RemoteMemory.NothingLeft`,
  `RemoteMemory.FailedWriteLeavesAWord`). The lifecycle and call-action results assume
  failed writes that change nothing.
* A branch or call from the prologue to one of its own overwritten bytes is not preserved:
  the copy leaves for that byte, or calls it, while the original goes on there. The copy
  behaves as the original exactly if the first branch taken or call made does not land
  inside the prologue: on x86-64 for every accepted prologue
  (`X86Relocation.TrampolineBehaves`), on A64 for every run that does not end at a
  register-indirect exit (`A64Relocation.SimulatesExactlyIf`; one direction needs no such
  exception, `A64Relocation.Simulates`). `X86Relocation.BranchInsideDiffers` and
  `X86Relocation.CallInsideDiffers` give accepted prologues that differ. Neither builder
  checks this.
* The x86-64 prefix pushes the low 32 bits of the probe id, sign-extended: the id itself
  exactly as long as it is below 2^31 (`X86Relocation.TrampolineBehaves`).

## Model

| member | source | states |
|---|---|---|
| EventRing.CommitsNamedAlways | src/zt_payload.c:106-142 | in every run a slot's committed word is 0 or a reserved number that maps to this slot |
| EventRing.ExtendsAlways | src/zt_payload.c:116-132 | reservations are never forgotten, their stores never change, and committed ones stay committed |
| EventRing.LaterValueIsALapAhead | src/zt_payload.c:127-132 | a value above s in the slot of s proves that s + 4096 has been reserved |
| EventRing.OrderlyAlways | src/zt_payload.c:106-142 | in a disciplined run each slot shows exactly the stores its latest owner has made, and earlier owners have committed |
| EventRing.CommittedSlotCarries | src/zt_payload.c:136-142 | a slot that announces s holds what the producer of s stored |
| EventRing.NeverRestored | src/zt_payload.c:106-142 | a committed number that left its slot never returns |
| EventRing.StableBetween | src/zt_trace_runner.c:898-956 | if a slot shows s before and after, it holds exactly the fields of s at every instant in between |
| EventRing.DifferentSlots | src/zt_trace_runner.c:812-896 | numbers of one window of 4096 use pairwise different slots |
| EventRing.FieldsAre | src/zt_payload.c:295-390 | an entry stores every word of its event, a return its header and one value of each kind, a call its header, callee, result, count and six arguments |
| EventRingLaps.DisciplineNeverTears | src/zt_payload.c:106-142 | no disciplined run reaches a slot announcing a number whose fields it does not hold |
| EventRingLaps.LapCanTear | src/zt_payload.c:116-142 | whenever the next reservation breaks the discipline, some continuation of entry, return or call events mixes two events' fields |
| EventRingLaps.TornFromStart | src/zt_payload.c:353-392 | a concrete run of entry handlers from a fresh ring that ends with mixed fields |
| RingReaderLaps.ReadyCanBeTorn | src/zt_trace_runner.c:930-956 | a run in which an event is classified READY for s with words that the producer of s did not store |
| TraceLog.ExactlyOneRecord | src/zt_trace_runner.c:958-1066 | every number up to last_seq is in exactly one record, dumped or lost |
| TraceLog.RecordsIncrease | src/zt_trace_runner.c:958-1066 | records come in strictly increasing order |
| TraceLog.DumpedPlusLost | src/zt_trace_runner.c:793-810 | dumped plus lost equals last_seq |
| RingReader.ReadyIsWhole | src/zt_trace_runner.c:930-956 | an event classified READY for s carries exactly what the producer of s wrote, in every disciplined interleaving |
| RingReader.OverwrittenIsALapAhead | src/zt_trace_runner.c:944-950 | a value above s in any of the three reads proves that s + 4096 was reserved |
| RingReader.LogSoundLater | src/zt_trace_runner.c:958-1066 | what the log claims stays true while the target runs on |
| RingReader.Reader.ReadCommitSnapshot | src/zt_trace_runner.c:812-858 | batches of 256 fill exactly slot (s-1)%4096 for every s of the window with a value read in this pass and leave the other slots alone; failure means a failed read or a bad window |
| RingReader.Reader.ReadRun | src/zt_trace_runner.c:872-892 | one contiguous stretch fills exactly the slots of its numbers and no others |
| RingReader.Reader.ReadEventSnapshot | src/zt_trace_runner.c:860-896 | the wrap-split runs fill exactly the slots of the window and no others |
| RingReader.Reader.Refresh | src/zt_trace_runner.c:898-928 | afterwards both commit reads bracket the event copy for every number of the window |
| RingReader.Reader.SnapshotSlot | src/zt_trace_runner.c:930-956 | READY exactly if the three numbers read are s, OVERWRITTEN exactly if one is greater, PENDING otherwise; READY is a whole event, OVERWRITTEN a number lapped, PENDING a number seen uncommitted; only refreshed slots are consulted |
| RingReader.Reader.LogLost | src/zt_trace_runner.c:793-810 | a lost range is logged only for numbers already lapped, and continues the log without gap |
| RingReader.Reader.Resynchronise | src/zt_trace_runner.c:1026-1056 | OVERWRITTEN always takes the resynchronising branch, so the fallback break is unreachable, and the reader moves forward |
| RingReader.Reader.Drain | src/zt_trace_runner.c:1004-1059 | for any number of rounds of the loop every number is logged once; it stops early only at one it saw uncommitted, and it ends once the rounds exceed the target's reservations |
| RingReader.Reader.Poll | src/zt_trace_runner.c:958-1066 | whatever a poll returns and wherever it is cut off, 1..last_seq is tiled by dumped events and lost ranges that are sound; it fails only after a failed read, so each refresh covers 1 to 4096 numbers; it ends if reservations are bounded |
| CallActionProtocol.GoodAlways | src/zt_trace_runner.c:192-243 | in every run an enabled slot holds exactly what was published under its epoch and is not being written |
| CallActionProtocol.EpochNeverReturns | src/zt_trace_runner.c:263-270 | a published epoch that left a slot never comes back to it |
| CallActionProtocol.SnapshotIsPublished | src/zt_payload.c:156-191 | between two sightings of an epoch the slot holds the action published under it |
| CallActionProtocol.WholeSnapshot | src/zt_payload.c:168-188 | words read one by one between the sightings are one published action |
| CallActionProtocol.Payload.CopyIfMatch | src/zt_payload.c:156-191 | an accepted snapshot is word for word one completely published action, for this probe, with a callee and at most six arguments; while the tracer writes nothing a snapshot is accepted exactly if the slot has such an action |
| CallActionProtocol.Payload.FindCallAction | src/zt_payload.c:193-224 | the same for the whole lookup, against a tracer writing at any moment; while it writes nothing, an action is found exactly if the count is not zero and some slot matches, in the home slot or the lowest |
| CallActionSlots.SomeSlotFree | src/zt_trace_runner.c:363-390 | 31 other probes leave one of 32 slots free |
| CallActionSlots.MatchIsOwner | src/zt_payload.c:193-224 | a slot matches a probe id exactly if it is the slot of that probe's action |
| CallActionTable.Table.UsesSlot | src/zt_trace_runner.c:339-361 | true exactly if another live probe has an action in the slot |
| CallActionTable.Table.AssignSlot | src/zt_trace_runner.c:363-390 | never fails; keeps a slot that is free of others, else gives the first free one from home on |
| CallActionTable.Table.WriteCallAction | src/zt_trace_runner.c:192-243 | succeeds exactly if its own writes do, and then exactly this slot holds the action; a failed first write changes nothing, a later one leaves the slot disabled |
| CallActionTable.Table.WriteCount | src/zt_trace_runner.c:245-286 | the shared count is the number of live probes with an action |
| CallActionSlots.CountZero | src/zt_trace_runner.c:245-261 | the count is zero exactly if no action is in force |
| CallActionTable.Table.Update | src/zt_trace_runner.c:1400-1444 | the map of actions changes by exactly this action under the next epoch, which exceeds all earlier ones in any history of fewer than 2^64 updates; actions of different probes stay in different valid slots whatever writes fail; it succeeds exactly if its four writes do, and then the shared table agrees with the map if it did before; the first three decide what is left in the slot: the old action, a disabled one, or the new one |
| CallActionTable.Table.Clear | src/zt_trace_runner.c:1456-1483 | the action leaves the map; success exactly if its own writes succeed; the first one empties the remembered slot, and exactly the probes with an action there lose theirs |
| CallActionTable.Table.Remove | src/zt_trace_runner.c:1624-1670 | the probe and its action are gone from the map; the table stays in step exactly if the clear's own writes succeed, and the probe stays shown exactly if the first fails |
| CallActionTable.Table.FindCallAction | src/zt_payload.c:193-224 | after any history and any failed writes, the lookup with its zero-count shortcut takes the home slot if it matches, else the lowest that does; it finds the current action of a probe shown in no foreign slot exactly if it is published and the count is not zero; with the table in step it finds exactly the actions in force |
| CallActionTrace.UpdateTraced | src/zt_trace_runner.c:1400-1444 | publishing one action, completely or not, changes nothing that is known of any other probe |
| CallActionTrace.ClearTraced | src/zt_trace_runner.c:1456-1483 | emptying a slot, completely or not, changes what is known only of the probes in that slot |
| CallActionTable.RetriedClearSilencesAnother | src/zt_trace_runner.c:1471-1481 | runs a failed clear, a reuse of the slot and a second clear: another probe's action is in force but not found |
| CallActionRefinement.PublishCompletes | src/zt_trace_runner.c:192-243 | a publication under an epoch above all earlier ones may begin and be completed word by word; then exactly this slot shows exactly this action |
| CallActionRefinement.WritesAreSteps | src/zt_trace_runner.c:192-243 | whatever writes fail, what a publication leaves in the shared table is what some steps of the protocol leave there |
| CallActionRefinement.UpdateIsARun | src/zt_trace_runner.c:1400-1444 | every update of a session of fewer than 2^64 updates is a run of the protocol, since its epoch is new |
| CallActionRefinement.ClearIsARun | src/zt_trace_runner.c:1456-1483 | every clear is a run of the protocol |
| CallActionRefinement.StepsAreARun | src/zt_trace_runner.c:192-243 | steps from the empty table are the beginning of a run, so what holds of all runs holds of what the tracer does |
| CallActionRefinement.LookupsAgree | src/zt_payload.c:156-191 | a payload reading a slot word by word decides as the tracer's table says |
| CallActionRefinement.WordsAre | include/zt_payload.h:132-148 | the words of an action are its probe id, callee, argument count, and kind and value of six arguments, unused ones zero |
| ShadowStack.ThreadLocals.SaveProbeFrame | src/zt_payload.c:420-435 | pushes return address, probe id and latest call id, or reports a full stack and changes nothing |
| ShadowStack.ThreadLocals.ExitStub | src/isa/x86_64/stub.S:107-130 | returns probe id, call id and return address of the top frame and pops it |
| ShadowStack.ThreadLocals.GetRetAddr | src/zt_payload.c:453-460 | pops the frame whose return address it returns; 0 on an empty stack |
| ShadowStack.ThreadLocals.HandleEntry | src/zt_payload.c:353-363 | takes the next call id and remembers it |
| ShadowStack.ExitFindsItsOwnFrame | src/zt_payload.c:420-460 | for any interleaving of threads, an exit finds the return address and probe id its own entry saved, up to 256 open calls |
| ShadowStack.EveryExitEndsACall | src/zt_payload.c:420-460 | every exit of a well nested thread ends a call |
| ShadowStack.OnlyOneCallEnds | src/zt_payload.c:420-460 | and only one |
| ShadowStack.ReturnCarriesItsEntry | src/zt_payload.c:353-435 | the return event carries its entry's call id exactly if the thread entered no probe between entry and save |
| ShadowStack.CallIdsDiffer | src/zt_payload.c:362-363 | call ids grow and are never handed out twice |
| ShadowStack.OverflowLosesTheFrame | src/zt_payload.c:420-435 | once more than 256 calls were open inside a call, its frame is gone at its exit and only outer frames are left |
| ShadowStack.OwnFrameExactlyIf | src/isa/x86_64/stub.S:94-98 | an exit finds its own frame exactly if the thread never had more than 256 calls open while its call was |
| ShadowStack.DeepCallLosesItsFrame | src/isa/x86_64/stub.S:94-98 | a run of 257 nested calls in which a saved frame is not found |
| EntryCache.Dumper.DumpOne | src/zt_trace_runner.c:694-718 | the in-place cache update and the outcome are those of the history model; an entry is printed exactly if the filter passes it, a call or another event always, unpaired and without touching the cache |
| EntryCache.Dumper.IsSuppressed | src/zt_trace_runner.c:565-579 | suppressed exactly if it is an entry whose probe has an enabled filter and the filter's expression is not true of the arguments |
| EntryCache.RejectedIsFiltered | src/zt_trace_runner.c:565-579 | rejection is exactly: an entry, of a probe with an enabled filter, whose tokens are those of no expression that is non-zero on the arguments |
| EntryCache.SlotHoldsOpenEntry | src/zt_trace_runner.c:694-718 | a cache slot holds a call id exactly if its entry was dumped and nothing touched the slot since, with the decision made at that time |
| EntryCache.ReturnFollowsItsEntry | src/zt_trace_runner.c:702-718 | a return is paired exactly with the open entry of its own call id, and logged exactly if the filter in force at the entry let that entry pass |
| FilterParser.EvaluationIsMeaning | src/zt_filter.c:118-302 | evaluating the tokens of any expression gives its short-circuit uint64 value, and stops exactly at an evaluated division by zero |
| FilterParser.VerdictIsTruth | src/zt_filter.c:470-485 | the verdict is 0 exactly if that value is 0 or a division by zero is evaluated |
| FilterParser.TokensDetermineMeaning | src/zt_filter.c:118-302 | two expressions with the same tokens mean the same |
| FilterParser.AcceptsExactlyTheGrammar | src/zt_filter.c:304-315 | the validator accepts exactly the token forms of expressions |
| FilterParser.SameTokensEitherWay | src/zt_filter.c:252-302 | evaluation in any mix of modes consumes the tokens validation consumes, unless an evaluated division by zero stops it |
| FilterEvaluator.Evaluator.ParsePrimary | src/zt_filter.c:118-148 | the in-place parser refines the specification at level primary |
| FilterEvaluator.Evaluator.ParseMul | src/zt_filter.c:158-180 | and for products and quotients, with division by zero |
| FilterEvaluator.Evaluator.ParseAdd | src/zt_filter.c:182-196 | and for sums |
| FilterEvaluator.Evaluator.ParseCmp | src/zt_filter.c:236-250 | and for the single level of all six comparisons |
| FilterEvaluator.Evaluator.ParseAnd | src/zt_filter.c:276-288 | and for conjunctions, with the right side skipped |
| FilterEvaluator.Evaluator.ParseOr | src/zt_filter.c:290-302 | and for disjunctions, with the right side skipped |
| FilterEvaluator.Validate | src/zt_filter.c:304-315 | a filter is accepted exactly if it is enabled and the token form of an expression |
| FilterEvaluator.Evaluate | src/zt_filter.c:470-485 | a disabled filter keeps everything, an enabled one exactly what makes its expression true |
| FilterFacts.ComparisonsCompare | src/zt_filter.c:224-234 | for all words a and b each of the six comparisons keeps an event exactly if it holds of the integers |
| FilterFacts.ArithmeticWraps | src/zt_filter.c:158-196 | sums, differences and products are taken modulo 2^64 |
| FilterFacts.DivisionTruncates | src/zt_filter.c:158-180 | a quotient q has q * b <= a < q * b + b; a zero divisor stops the evaluation and suppresses the event |
| FilterFacts.ArgumentsRead | src/zt_filter.c:54-60 | an argument token reads that argument of the event for indices below six, and 0 otherwise |
| FilterFacts.TruthValues | src/zt_filter.c:150-156 | any word but zero is true; negation, conjunction, disjunction and comparison yield 1 or 0 |
| FilterFacts.Precedence | src/zt_filter.c:236-302 | disjunction binds loosest, then conjunction, then all comparisons alike, then sums |
| FilterFacts.SumsOfProducts | src/zt_filter.c:158-196 | products bind tighter than sums, and sums associate to the left |
| FilterFacts.ShortCircuits | src/zt_filter.c:276-302 | a side that is not needed may divide by zero |
| FilterSpelling.NextIsSpelled | src/zt_filter.c:408-439 | a token is read exactly if the text has its spelling next, as the longest word there |
| FilterSpelling.LexesWhatIsSpelled | src/zt_filter.c:441-468 | a token list is read exactly if the text is blanks and longest words spelling it, with no blanks at the end |
| FilterSpelling.CharactersAre | src/zt_filter.c:62-70 | exactly the six characters C calls blanks are skipped; digits and their values are those of a numeral in both cases |
| FilterCompiler.Compile | src/zt_filter.c:441-468 | yields a token list exactly if the text spells it, text and list fit their buffers and the list is grammatical |
| FilterLexer.NumberReadsBack | src/zt_filter.c:383-406 | a decimal numeral is read back |
| FilterLexer.HexReadsBack | src/zt_filter.c:383-406 | 0x and hexadecimal digits are read back |
| FilterLexer.OctalReadsBack | src/zt_filter.c:383-406 | 0 and octal digits are read back |
| FilterLexer.OperatorReadsBack | src/zt_filter.c:335-357 | two-character operators win over their one-character prefixes |
| FilterLexer.PrintReadsBack | src/zt_filter.c:408-439 | printing any token list with single blanks and lexing it gives the list back |
| FilterCompiler.CompilePrinted | src/zt_filter.c:441-468 | printing and compiling any grammatical list that fits gives the same list |
| A64Relocation.RunMovAbs | src/isa/aarch64/trampoline_manager.c:41-73 | the MOVZ/MOVK chain loads exactly any 64-bit value and changes nothing else |
| A64Relocation.InverseCondition | src/isa/aarch64/trampoline_manager.c:157-166 | the inverted condition holds exactly if the condition does not |
| A64Relocation.RunSkip | src/isa/aarch64/trampoline_manager.c:174-249 | an inverted B.cond, CBZ or TBZ lands exactly behind the absolute branch, or takes it to the original target |
| A64Relocation.Simulates | src/isa/aarch64/trampoline_manager.c:267-382 | from any instruction and state, unless the first branch taken or call made lands inside the prologue, the relocated code leaves like the original: same target, registers and flags, x16 aside; a call links to the copy of the next instruction |
| A64Relocation.TurningInsideDiffers | src/isa/aarch64/trampoline_manager.c:124-146 | if it does land inside, for any prologue, the copy leaves differently, unless the original goes on and leaves for that very address by a register |
| A64Relocation.SimulatesExactlyIf | src/isa/aarch64/trampoline_manager.c:267-382 | register-indirect exits aside, the copy leaves alike exactly if the run does not turn inside |
| A64Relocation.CallInsideDiffers | src/isa/aarch64/trampoline_manager.c:136-146 | for every prologue whose BL lands inside, the original calls its own instruction and the copy the overwritten one |
| A64Relocation.BranchBackDiffers | src/isa/aarch64/trampoline_manager.c:124-134 | for every prologue with a taken branch back, the original goes round and the copy leaves |
| A64Encoding.DecodeMov | src/isa/aarch64/trampoline_manager.c:41-73 | the words emitted for MOVZ and MOVK decode to them |
| A64Encoding.DecodeBCond | src/isa/aarch64/trampoline_manager.c:168-172 | the encoded B.cond decodes to its condition and offset |
| A64Encoding.DecodeCb | src/isa/aarch64/trampoline_manager.c:199-223 | the rewritten CBZ/CBNZ word is the opposite test of the same register with the skip offset |
| A64Encoding.DecodeTb | src/isa/aarch64/trampoline_manager.c:225-249 | the rewritten TBZ/TBNZ word is the opposite test of the same bit with the skip offset |
| A64Builder.RelocateWordDecodes | src/isa/aarch64/trampoline_manager.c:267-327 | the words emitted for one word decode to the relocation of its instruction |
| A64Builder.RelocateWordsDecode | src/isa/aarch64/trampoline_manager.c:329-382 | the same for a whole prologue |
| A64Builder.TrampolineBehaves | src/isa/aarch64/trampoline_manager.c:384-433 | the emitted words call entry_stub with probe id and return address, then behave as the original function unless its run turns inside the prologue, and then, register-indirect exits aside, they do not |
| A64Builder.TrampolineFits | src/isa/aarch64/trampoline_manager.c:384-433 | a prologue of at most 32 bytes gives a trampoline of at most 512 bytes |
| A64Builder.MovAbsSize | src/isa/aarch64/trampoline_manager.c:75-86 | the counted size equals the bytes emitted, for any register |
| A64Builder.CodeBuffer.EmitMovAbs | src/isa/aarch64/trampoline_manager.c:41-73 | appends exactly the chain, or fails for lack of space |
| A64Builder.BuildBody | src/isa/aarch64/trampoline_manager.c:329-382 | appends exactly the relocated prologue, or fails for an unsupported instruction or lack of space |
| A64Builder.BuildTrampoline | src/isa/aarch64/trampoline_manager.c:384-433 | succeeds exactly for usable inputs that fit, with exactly the words whose behaviour is proved |
| X86Relocation.InverseIsOpposite | src/isa/x86_64/trampoline_manager.c:110-135 | the chosen short opcode tests exactly the opposite condition |
| X86Relocation.RebasedRefersAlike | src/isa/x86_64/trampoline_manager.c:270-296 | an accepted RIP-relative copy addresses the same location, and only its displacement changed |
| X86Relocation.RefusedExactlyIf | src/isa/x86_64/trampoline_manager.c:47-61 | refused are exactly jumps on the count register and operands no 32-bit displacement reaches |
| X86Relocation.JumpPiece | src/isa/x86_64/trampoline_manager.c:161-175 | the rewritten jmp goes to the target, with only r11 changed |
| X86Relocation.SkipPiece | src/isa/x86_64/trampoline_manager.c:177-197 | the rewritten Jcc is taken under the same condition to the same target, and otherwise lands exactly behind the sequence with nothing changed |
| X86Relocation.CallPiece | src/isa/x86_64/trampoline_manager.c:137-159 | the rewritten call calls the same target |
| X86Relocation.CopyBehaves | src/isa/x86_64/trampoline_manager.c:199-309 | for every accepted prologue the copy does what the original does with every taken branch leaving, and branches go through r11 |
| X86Relocation.LeavingExactlyIf | src/isa/x86_64/trampoline_manager.c:199-309 | which is what the original does unless the first branch taken or call made lands on an overwritten byte; then it leaves for that byte |
| X86Relocation.OriginalNeverLeavesInto | src/isa/x86_64/trampoline_manager.c:199-309 | which the original never does |
| X86Relocation.CopyBehavesFrom | src/isa/x86_64/trampoline_manager.c:137-159 | the copy behaves so from every instruction on and in any state, in particular after a call has returned, where it first takes r11 back |
| X86Relocation.TakenBranchInside | src/isa/x86_64/trampoline_manager.c:161-197 | if one does, the copy leaves for that byte and the original goes on in the prologue |
| X86Relocation.BranchInsideDiffers | src/isa/x86_64/trampoline_manager.c:161-197 | an accepted prologue where the two leave for different addresses |
| X86Relocation.CallInsideDiffers | src/isa/x86_64/trampoline_manager.c:137-159 | an accepted prologue that calls its own next instruction, where the copy calls an overwritten byte |
| X86Relocation.LiteralsResolve | src/isa/x86_64/trampoline_manager.c:365-391 | for every length, prefix call and suffix jmp resolve to the entry-stub and continue literals |
| X86Relocation.CopyIsShort | src/isa/x86_64/trampoline_manager.c:199-309 | relocation grows code at most eightfold |
| X86Relocation.TrampolineBehaves | src/isa/x86_64/trampoline_manager.c:311-395 | every accepted prologue: at most 512 bytes, entry stub called with the id pushed, then the behaviour of the prologue exactly if its first branch taken or call made does not land inside it |
| X86Builder.CodeBuffer.EmitRebased | src/isa/x86_64/trampoline_manager.c:270-296 | copying and patching in place gives exactly the rebased instruction |
| X86Builder.EmitRelocated | src/isa/x86_64/trampoline_manager.c:199-309 | appends exactly the relocated prologue; fails only for a refused instruction or lack of space |
| X86Builder.BuildTrampoline | src/isa/x86_64/trampoline_manager.c:311-395 | the templates filled in place are exactly the trampoline whose behaviour is proved; in 512 bytes space never runs out |
| TrampolinePool.Pool.Alloc | src/zt_trampoline_pool.c:117-153 | a probe keeps its own slot or gets the first free one, at base + 512 times its number; fails exactly if its slot is someone else's, or none is free or mappable |
| TrampolinePool.Pool.Release | src/zt_trampoline_pool.c:155-187 | frees the slot unless it is in use for another address; unmaps only when nothing is used |
| TrampolinePool.SlotAddrsDiffer | src/zt_trampoline_pool.c:30-37 | slots do not overlap |
| TrampolinePool.WritesStayInTheirSlot | src/zt_trampoline_pool.c:30-37 | in the one mapping that holds all slots, writing at most 512 bytes to a slot leaves what was written to every other slot as it is |
| TrampolinePool.Pool.WriteSlot | src/zt_trace_runner.c:538-545 | the bytes go to the slot's place in the mapping and nowhere else |
| ProbeLifecycle.PrologueIsOriginal | src/zt_injector.c:1298-1335 | what is saved as the prologue is the original code, whatever else is installed |
| ProbeLifecycle.InstallKeeps | src/zt_injector.c:1337-1367 | a completed install keeps: text is the original overlaid with exactly the installed jumps, slots are uniquely owned |
| ProbeLifecycle.UninstallKeeps | src/zt_injector.c:1369-1398 | restoring a prologue keeps it |
| ProbeLifecycle.RemoveKeeps | src/zt_trace_runner.c:1624-1670 | giving back a slot and forgetting the probe keeps it |
| ProbeLifecycle.RegisterKeeps | src/zt_injector.c:1222-1256 | registering any symbol whose patch overlaps no other probe's keeps it |
| ProbeLifecycle.UnownedPartsMayChange | src/zt_trampoline_pool.c:84-107 | an unused pool and slots without a live jump may change freely |
| ProbeLifecycle.JumpsLeadHome | src/zt_injector.c:1337-1367 | each installed jump leads to its own trampoline in a slot of the mapped pool that no other probe owns |
| ProbeLifecycle.UsedIsOwned | src/zt_trampoline_pool.c:117-187 | used slots are exactly the owned ones, and the pool is mapped while there is one |
| ProbeLifecycle.NothingInstalled | src/zt_injector.c:1369-1398 | with nothing installed the text is the original |
| ProbeLifecycle.TextIsOriginalIf | src/zt_injector.c:1369-1398 | the text is the original one exactly if every installed jump is what was there |
| ProbeLifecycle.ForgottenJumpDangles | src/zt_trace_runner.c:1532-1538 | forgetting an installed probe breaks the image exactly if its jump differs from the original bytes |
| ProbeSession.Session.Register | src/zt_injector.c:1258-1276 | for names of any length, entry by entry: finds the probe of the full name, else of the name cut to 63 characters, else makes one exactly if the name resolves and there is room, with the next id, the cut name and the symbol's address |
| ProbeSession.Session.Prepare | src/zt_injector.c:1298-1335 | saves the prologue's bytes, or changes nothing |
| ProbeSession.Session.InstallPatch | src/zt_injector.c:1337-1367 | overwrites exactly the patch bytes with the jump, or changes nothing |
| ProbeSession.Session.UninstallPatch | src/zt_injector.c:1369-1398 | writes back exactly the saved bytes, or changes nothing |
| ProbeSession.Session.Rollback | src/zt_trace_runner.c:434-463 | gives back exactly a newly taken slot and restores or forgets the probe |
| ProbeSession.Session.TryInstall | src/zt_trace_runner.c:493-555 | succeeds exactly if nothing fails and the prologue is readable, long enough and relocatable to the slot granted; either the invariant with the probe installed, or a state rollback can undo |
| ProbeInstall.RolledBack | src/zt_trace_runner.c:434-463 | rollback of any failed attempt restores text and slots, and the invariant exactly unless a probe that owned a slot is forgotten |
| ProbeInstall.CanBeGranted | src/zt_trampoline_pool.c:117-153 | the pool never runs out of slots: a probe is refused one exactly if the pool is not mapped and cannot be |
| ProbeInstall.OnlyLongNamesAreMistaken | src/zt_injector.c:1147-1148 | only names of 64 characters or more are taken for new although their probe is known |
| ProbeSession.Session.InstallProbe | src/zt_trace_runner.c:465-563 | for names of any length: succeeds exactly if the probe is installed or nothing fails and the prologue is suitable; success keeps the invariant with the probe installed under its id, name and address, with the filter given, or else the one an installed probe has, or none; failure leaves text, slots and table as before, except that a probe mistaken for a new one is forgotten, which loses the invariant exactly if it owned a slot |
| ProbeSession.Session.SetFilter | src/zt_trace_runner.c:392-404 | changes only the filter |
| ProbeSession.Session.DisableProbe | src/zt_trace_runner.c:1334-1355 | succeeds exactly for an installed probe whose bytes can be restored; the probe keeps its slot |
| ProbeSession.Session.EnableProbe | src/zt_trace_runner.c:1485-1502 | succeeds exactly for a known probe that is installed or suitable with nothing failing; installs it again with the filter it has, or changes nothing |
| ProbeSession.Session.RemoveProbe | src/zt_trace_runner.c:1624-1670 | succeeds exactly for a known probe that is not installed or can be uninstalled; forgets exactly this probe, keeping the invariant |
| ProbeSession.Session.Stop | src/zt_trace_runner.c:1512-1547 | forgets all probes and frees all slots; exactly the jumps that cannot be taken back stay, so the text is the original one exactly if those are what was there; success exactly if none stays and the runtime clean-up works |
| ProbeStop.StopLeavesAJump | src/zt_trace_runner.c:1532-1538 | runs a stop that leaves a jump into a released slot |
| ProbeNames.FailedReinstallLeaksTheSlot | src/zt_trace_runner.c:434-463 | runs install, disable and a failing re-install of a 64-character name: the probe is gone and its slot in use without an owner |
| ProbeNames.SecondNameFindsTheFirst | src/zt_injector.c:1222-1276 | runs the install of two names with the same first 63 characters: the second reports success on the first's probe and its function is not patched |
| RemoteMemory.Target.Write | src/zt_injector.c:842-899 | leaves exactly the first bytes in place, all of them on success, else the larger of bulk count and pokes, and preserves the rest of a partly written word; unchanged exactly if what it left was there |
| RemoteMemory.NothingLeft | src/zt_injector.c:842-899 | a write leaves nothing exactly if the bulk call wrote nothing and the first word failed |
| RemoteMemory.PokedUpTo | src/zt_injector.c:872-896 | writing word by word stops at the first word that is outside the memory or whose calls fail, and succeeds if there is none |
| RemoteMemory.FailedWriteLeavesAWord | src/zt_injector.c:872-896 | a concrete failed write that changes eight bytes |
| RemoteMemory.Target.WriteChunk | src/zt_injector.c:872-896 | one word adds its bytes to those written, keeping the others |
| ThreadGroup.Tracer.SeizeThread | src/zt_injector.c:262-275 | adds a live task once; a task that is gone is tolerated; fails only after a failed call or with 256 entries |
| ThreadGroup.Tracer.Refresh | src/zt_injector.c:277-315 | unless a task that ran when listed was gone before its turn, all listed tasks are in the table or were stopped and are gone; new entries are not marked stopped; without new tasks every live task is tracked on success, and it fails only after a failed call or for lack of room |
| ThreadGroup.Tracer.WaitForStop | src/zt_injector.c:386-419 | marks stopped only what is stopped, clears only what is gone, and waits only for a task that was interrupted or stepped; fails only after a failed call |
| ThreadGroup.Tracer.Compact | src/zt_injector.c:421-442 | keeps exactly the entries with an id, in order |
| ThreadGroup.CompactedKeeps | src/zt_injector.c:421-442 | an entry survives exactly if it has an id |
| ThreadGroup.Tracer.HasUnstopped | src/zt_injector.c:444-458 | true exactly if some tracked thread is not marked stopped |
| ThreadGroup.Tracer.StopPass | src/zt_injector.c:478-504 | on success every entry with an id is stopped; entries are cleared only for tasks that are gone; it fails only after a failed call |
| ThreadGroup.Tracer.AskAll | src/zt_injector.c:478-492 | on success every thread that is not stopped has been interrupted, so that waiting for it ends |
| ThreadGroup.Tracer.WaitAll | src/zt_injector.c:494-504 | on success every entry with an id is stopped |
| ThreadGroup.Tracer.OnePass | src/zt_injector.c:473-516 | if all tasks were tracked, none starts and no call fails, a pass ends with nobody unstopped and nobody missed |
| ThreadGroup.NobodyLeftRunning | src/zt_injector.c:501-514 | if the last listing is all tracked and stopped, nothing runs, so nothing can clone |
| ThreadGroup.Tracer.InterruptAll | src/zt_injector.c:460-519 | success without a missed running task, that is with only stopped tasks in the last listing, means that every live task is tracked and stopped; if no call fails, no task starts and the tasks fit the 256 entries, it succeeds and holds every task; it gives up only after a failed call, with a full table, or after 17 listings |
| ThreadGroup.Tracer.SingleStepThread | src/zt_injector.c:671-692 | disturbs no other stopped task and ends stopped or gone |
| ThreadGroup.Tracer.MoveOut | src/zt_injector.c:702-744 | ends with the task gone or outside all patch regions, by plain addresses; fails only after a failed call, if the task goes away, or if it is inside after eight steps; does not step a task that is outside |
| ThreadGroup.Tracer.EnsurePatchRegionsAreSafe | src/zt_injector.c:694-749 | after success every held task is stopped with its pc outside every probe's overwritten bytes; fails only if the target is not stopped, a call failed, or a stopped thread went away or was inside after eight steps; steps nobody if all are outside |
| ThreadGroup.StopMissesAClone | src/zt_injector.c:460-519 | runs a stop that reports success with an empty table while a cloned task runs |

## Left out

- Memory is sequentially consistent; weak ordering of plain stores around the atomics is not modelled.
- Sequence numbers, call ids, probe ids and, in the publishing protocol, epochs do not wrap around; those of `CallActionTable` do, and its updates are runs of the protocol for the first 2^64 - 1.
- RingReader.Reader.Poll: runs a given number of rounds of the source's loop, which has no limit of its own.
- RingReader.Reader.ReadCommitSnapshot: a batch that fails half way is one failed read; the per-entry fallback of the vectored read is not modelled.
- CallActionTable.Table.FindCallAction: for a probe that moved to another slot while its old one still showed it, which takes two failed writes, it says which slot wins but not whether that is the newer action; ids in `strays` are not taken out again.
- CallActionTable.Table.Update: failed remote writes change nothing, and a successful lookup of the callee symbol is an input.
- A64Relocation.SimulatesExactlyIf: says nothing of runs that end at a register-indirect exit, which may by chance lead to the same overwritten instruction.
- A64Builder.BuildTrampoline: emits 32-bit words, not their bytes, and does not model the NOP fill behind them.
- A64 instructions that do not read the pc are an arbitrary effect on the machine; PC-relative loads are refused by the builder and their effect is not modelled.
- X86Relocation.CallPiece: states the target only; the pushed r11 shifts the stack the callee sees, and what state it returns in is left open.
- X86 indirect calls (they push the pc), LOOP instructions, EIP-relative operands, and the disassembler itself; its output is taken to cover the whole prologue.
- ProbeSession.Session.InstallProbe: that built trampolines fit their slot is assumed of the builder here and proved in `A64Builder.TrampolineFits` and `X86Relocation.TrampolineBehaves`; the patch span at an address is a function of the address, so that the prologue's own bytes decide it, and a new probe's patch overlaps no registered one's.
- ProbeSession.Session.RemoveProbe: clearing the call action is modelled in `CallActionTable`, and the runtime clean-up after the last probe is not.
- ProbeSession.Session.DisableProbe: whether stopping or resuming the target fails around the operation is not modelled, since neither changes text, table or slots.
- ThreadGroup.Tracer.InterruptAll: task ids are never reused, a task listing is one instant, and resume signals are not carried.
- ThreadGroup.Tracer.EnsurePatchRegionsAreSafe: a task that a single-stepped instruction clones is not covered.
- RemoteMemory.Target.Write: the read of a partly overwritten word counts as one call that fails or not.
- ShadowStack.ExitFindsItsOwnFrame: no probe hit (from a signal handler, say) comes between the calls one stub makes.
- Resuming threads, polling for exit events, remote syscalls, dlopen and mmap set-up, ELF and /proc parsing, symbol resolution.
- Command line, log formatting, signature files, event text, benchmarks.
