# Verified models of llama-cpp-rs

Dafny models of the self-contained machines, codecs and batching loops of llama-cpp-rs, with proofs of what
they are for. Native llama.cpp code is an arbitrary environment throughout: status codes, callback traces,
drafted tokens, file contents and the hash function are parameters.

`dafny verify dfyconfig.toml` checks everything.

## What is modelled

- **Hidden-state capture** (`CaptureModel`, `CaptureTrace`, `CaptureDelivery`, `Captures`, `ContextRun`,
  `LlamaContexts`). The
  `Capture` object is a class over a slot array; each method equals one step of a state machine on values.
  `CaptureTrace` defines, without any state, what a whole callback trace means, and proves that the machine
  computes it; `CaptureDelivery` spells that meaning out in node names and tensor layouts. `ContextRun` lifts this
  to runs of decode, encode, toggle and take. It relies on
  `BatchShapes` (the batch loop), `Tensors` (layout arithmetic and the bytes read) and `LayerName` (the name
  parser).
- **Batches and logits** (`NativeBatch`, `LlamaBatches`, `ContextRun`, `LlamaContexts`). `LlamaBatch` is a class
  over its native arrays; `Valid()` ties its side index to the per-token output flags.
- **Reranker** (`Reranker`), the greedy packing loop, on top of the two classes above.
- **Log reassembly** (`LogModel`, `LogOrder`, `LogText`, `LogFacts`, `LogStates`). The log state is a class over a text buffer;
  its ghost copy works on identified fragments, which is where conservation, order and levels are proved.
- **Build evidence** (`StringOrder`, `Evidence`, `Collection`, `ArtifactNames`, `EvidenceFacts`, `Decimal`).
- **MTP speculation** (`MtpModel`, `Mtp`), the native wrapper and the Rust layer over it.
- **Control vectors** (`ControlVector`).

Strings stand for byte strings where the source works on bytes: one `char` per byte. A `c_char` is modelled by
its byte, so the parser's result is the same for signed and unsigned `c_char`. `usize` is 32 or 64 bits wide and
the proofs hold for both. A tensor is required to be backed by an allocation that covers its layout, which is
what the callback's safety comment demands of the scheduler; floats are four little-endian bytes.

Three findings are stated as exact conditions. Log reassembly keeps arrival order exactly on the runs in which
no enabled whole line arrives while an orphaned continuation is open: `LogOrder.OrderKeptByMessages` says so of
the messages alone, and `LogModel.OrphanIsOvertaken` is a concrete failing run. It logs every fragment under the
level that was in force for it exactly on the runs in which no enabled continuation joins an open text of another
level (`LogOrder.LevelsKeptByMessages`, failing run in `LogOrder.ContinuationMislevelled`). It reaches its `unreachable!`
arm exactly when the run contains an untraceable level or starts with a continuation (`LogModel.AbortsExactly`,
failing runs in `LogModel.NoLevelAborts` and `LogModel.LeadingContinuationAborts`).

## Model

| member | source | states |
|---|---|---|
| CaptureTrace.DecodeThenTake | llama-cpp-2/src/context/hidden_states.rs:174-264 | after one decode on an enabled capture, from any earlier state, `take` answers a pure function of batch, trace and native result: native failure, else bad batch, else the first offending call, else the first unread layer, else each layer's last row in config order |
| CaptureTrace.StepTracks | llama-cpp-2/src/context/hidden_states.rs:381-437 | one callback keeps the slots equal to what the trace so far has read and latches the first offence; after an offence it changes nothing, slots included |
| CaptureTrace.ReadFollowsVerdict | llama-cpp-2/src/context/hidden_states.rs:404-433 | a read fills its slot, fails or poisons exactly as judged from the trace alone |
| CaptureDelivery.TakesExactly | llama-cpp-2/src/context/hidden_states.rs:174-264 | from any earlier enabled state, a take after one decode gives `v` exactly when the evaluation succeeded on an accepted batch, no callback lacked a tensor, and each selected "l_out-n" was handed over exactly once, as an allocated f32 tensor of all rows or only the output rows whose last row is finite and is what `v` holds for that layer |
| CaptureDelivery.DeliversExactly | llama-cpp-2/src/context/hidden_states.rs:268-437 | the same for the meaning of the trace alone |
| CaptureDelivery.TakenExactly | llama-cpp-2/src/context.rs:118-205 | over every run, a take gives `v` exactly when such a decode is the latest operation except for takes that could not allocate, on an enabled capture that nothing broke |
| CaptureDelivery.VerdictOnRead | llama-cpp-2/src/context/hidden_states.rs:404-433 | a selected layer handed over is refused for the first reason that applies: handed over before, layout or memory not acceptable, panic, a value not finite |
| CaptureDelivery.VerdictOtherwise | llama-cpp-2/src/context/hidden_states.rs:388-399 | a call without a tensor fails with CallbackFailed, one about another node is ignored |
| CaptureDelivery.StatusAndBatchFirst | llama-cpp-2/src/context/hidden_states.rs:182-205 | a failed evaluation hides every other error, and a refused batch hides the calls |
| CaptureDelivery.FirstOffenceDecides | llama-cpp-2/src/context/hidden_states.rs:381-437 | with success on an accepted batch the first call that is not fine decides the error |
| CaptureDelivery.MissingLayerDecides | llama-cpp-2/src/context/hidden_states.rs:204-211 | with no such call, the first selected layer that nobody hands over is the missing one |
| CaptureModel.SelectiveReadingSuffices | llama-cpp-2/src/context/hidden_states.rs:381-437 | reading only the tensors whose ask was answered true leaves the same state as reading all of them, for any list of tensors |
| CaptureModel.AskedExactly | llama-cpp-2/src/context/hidden_states.rs:381-402 | an ask is answered true exactly when reading that tensor would change the state |
| CaptureModel.OtherAnswers | llama-cpp-2/src/context/hidden_states.rs:381-399 | without a tensor, or for a node of no selected layer, the answer is true exactly for a read |
| CaptureModel.QuietCallbacks | llama-cpp-2/src/context/hidden_states.rs:382-387 | an inactive, failed or poisoned capture ignores any trace |
| ContextRun.TakenSnapshotIsFresh | llama-cpp-2/src/context.rs:118-205 | over every run, a take hands out a snapshot exactly when it is what the latest decode's trace yields, that decode succeeded on an enabled capture that no earlier decode broke, and no encode, toggle or successful take came since |
| ContextRun.RunAgrees | llama-cpp-2/src/context.rs:118-205 | over every run, every take answers what the history leaves pending; ready implies enabled and inactive, ready without error implies every slot seen, layers and widths stay fixed |
| ContextRun.PendingIsFresh | llama-cpp-2/src/context/hidden_states.rs:174-264 | a snapshot is pending exactly when some decode yields it and only unsuccessful takes follow |
| ContextRun.LostExactly | llama-cpp-2/src/context/hidden_states.rs:381-437 | the capture is lost for good exactly when some decode ran on it while enabled and a read of its trace panicked inside the locked region |
| ContextRun.PoisonIsPermanent | llama-cpp-2/src/context/hidden_states.rs:223-241 | a poisoned capture never changes again and every later toggle and take fails with CallbackFailed |
| ContextRun.ToggleSucceedsExactly | llama-cpp-2/src/context/hidden_states.rs:223-236 | over every run, a toggle succeeds exactly when no decode has broken the capture, and then its setting is in force |
| ContextRun.EnabledExactly | llama-cpp-2/src/context.rs:175-183 | the capture is enabled unless the last toggle disabled it |
| ContextRun.AnswerAfter | llama-cpp-2/src/context/hidden_states.rs:174-264 | what a take answers right after a toggle, an encode, a failed or refused decode, a successful take and a failed take |
| ContextRun.LogitsGate | llama-cpp-2/src/context.rs:128-162 | over every run, the logits membership check passes for a token exactly when the last successfully evaluated batch, as it stood then, requested its output |
| LlamaContexts.ReadGate | llama-cpp-2/src/context.rs:382-392 | over every run, both assertions of a logits read pass for a token exactly when it is below the context size and the last successfully evaluated batch requested its output |
| Captures.Capture.New | llama-cpp-2/src/context/hidden_states.rs:125-172 | succeeds exactly for 1 to 64 distinct layers below the model's, a width of 1 to 32768, at most 4 MiB in all and enough memory; InvalidLayers exactly for a bad selection, CapacityExceeded exactly for a bad width or size; then one unfilled slot of the width per layer |
| Captures.Capture.Begin | llama-cpp-2/src/context/hidden_states.rs:174-194 | performs the machine's begin step in place |
| Captures.Capture.Finish | llama-cpp-2/src/context/hidden_states.rs:196-213 | performs the machine's finish step; its scan finds the first unseen slot |
| Captures.Capture.Unsupported | llama-cpp-2/src/context/hidden_states.rs:215-221 | performs the machine's refusal step |
| Captures.Capture.SetEnabled | llama-cpp-2/src/context/hidden_states.rs:223-236 | performs the machine's toggle step, failing only when poisoned |
| Captures.Capture.Take | llama-cpp-2/src/context/hidden_states.rs:238-264 | copies every slot in order and consumes it, or reports why not and consumes nothing |
| Captures.Capture.Callback | llama-cpp-2/src/context/hidden_states.rs:371-450 | performs the machine's callback step and returns its answer |
| Captures.Capture.ReadInto | llama-cpp-2/src/context/hidden_states.rs:404-433 | performs the machine's read of one slot in place |
| LlamaContexts.LlamaContext.Decode | llama-cpp-2/src/context.rs:118-136 | is the decode step of the run model, and replaces the readable logits only on success |
| LlamaContexts.LlamaContext.Encode | llama-cpp-2/src/context.rs:147-162 | is the encode step of the run model, and replaces the readable logits only on success |
| LlamaContexts.LlamaContext.Conclude | llama-cpp-2/src/context.rs:128-135 | copies the batch's index of outputs exactly when the native status is zero |
| LlamaContexts.LlamaContext.SetHiddenStateCaptureEnabled | llama-cpp-2/src/context.rs:175-183 | is the toggle step of the run model; without a capture it reports NotEnabled |
| LlamaContexts.LlamaContext.TakeHiddenStates | llama-cpp-2/src/context.rs:198-205 | is the take step of the run model and returns its answer |
| BatchShapes.BatchShape | llama-cpp-2/src/context/hidden_states.rs:268-320 | the loop accepts exactly the batches with one sequence, non-negative strictly increasing positions and a requested last output, and counts rows and outputs |
| BatchShapes.AcceptedLast | llama-cpp-2/src/context/hidden_states.rs:308-319 | an accepted batch has between 1 and `rows` outputs and the last of them is its last token |
| BatchShapes.OwnedAcceptsExactly | llama-cpp-2/src/context/hidden_states.rs:268-320 | a batch that owns its arrays is accepted exactly when it is not empty, fits the microbatch, all tokens belong to one sequence id, positions are non-negative and each above the one before, and the last token requests output |
| BatchShapes.MixedSequencesRejected | llama-cpp-2/src/context/hidden_states.rs:284-300 | tokens of different sequence ids, or a token of several or none, reject the batch |
| BatchShapes.TwoAdditionsRejected | llama-cpp-2/src/llama_batch.rs:50-98 | two additions under different ids are rejected whatever the batch held |
| BatchShapes.HalfNullRejected | llama-cpp-2/src/context/hidden_states.rs:275-300 | a batch without tokens, or with only one of the two sequence arrays, is rejected |
| BatchShapes.OneSequenceAccepted | llama-cpp-2/src/llama_batch.rs:113-134 | one `add_sequence` on an empty batch is accepted exactly when non-empty and within the microbatch, with 1 or all outputs |
| BatchShapes.TwoSequencesRejected | llama-cpp-2/src/context/hidden_states.rs:301-307 | two non-empty `add_sequence` calls in one batch are always rejected |
| BatchShapes.BorrowedAccepted | llama-cpp-2/src/llama_batch.rs:169-192 | the `get_one` form is accepted exactly within the microbatch, with one output |
| Tensors.ReadIsLastToken | llama-cpp-2/src/context/hidden_states.rs:348-363 | for an accepted batch and tensor the bytes read end exactly at the tensor's end and are, by its strides, the row of the last token, in both row layouts |
| Tensors.ReadIsLastRow | llama-cpp-2/src/context/hidden_states.rs:406-421 | the contiguous read from the checked offset is the strided last row, inside the allocation |
| Tensors.RowOffsetExactly | llama-cpp-2/src/context/hidden_states.rs:348-363 | an offset is given exactly for contiguous f32 tensors of shape width by n, n the batch's rows or its outputs and not 0, without overflow, and is 4 * width * (n - 1) |
| Tensors.ReadableExactly | llama-cpp-2/src/context/hidden_states.rs:406-413 | such a tensor is read exactly when it has data and its own buffer, or that of what it views, is set |
| Tensors.BytesReadBack | llama-cpp-2/src/context/hidden_states.rs:415-421 | floats laid out in memory are read back unchanged |
| Tensors.FiniteExactly | llama-cpp-2/src/context/hidden_states.rs:424 | a float is finite exactly when its exponent is below 255 |
| LayerName.ParsesExactly | llama-cpp-2/src/context/hidden_states.rs:323-346 | a buffer parses to n exactly when it holds "l_out-" and the canonical decimal of a 32-bit n, NUL-terminated |
| LayerName.FoldOnlyPrint | llama-cpp-2/src/context/hidden_states.rs:335-345 | digits without a leading zero that fold to n are exactly the printed n |
| LlamaBatches.LlamaBatch.New | llama-cpp-2/src/llama_batch.rs:147-157 | a fresh empty batch with the given capacity |
| LlamaBatches.LlamaBatch.GetOne | llama-cpp-2/src/llama_batch.rs:169-192 | EmptyBuffer exactly for no tokens, the panic exactly above i32::MAX tokens; otherwise the borrowed form, whose index names the last token only |
| LlamaBatches.LlamaBatch.Clear | llama-cpp-2/src/llama_batch.rs:34-37 | empties the batch and its index |
| LlamaBatches.LlamaBatch.Add | llama-cpp-2/src/llama_batch.rs:50-98 | appends exactly one token to every native array and keeps the index exact, or changes nothing and reports lack of space, or the panic on a full count |
| LlamaBatches.LlamaBatch.AddSequence | llama-cpp-2/src/llama_batch.rs:113-134 | appends the whole sequence at positions 0, 1, ... or changes nothing; succeeds exactly when it fits |
| LlamaBatches.LlamaBatch.AddNth | llama-cpp-2/src/llama_batch.rs:127-131 | one round of the loop extends the laid-out prefix by its next token |
| NativeBatch.OutputsBelowExact | llama-cpp-2/src/llama_batch.rs:88-92 | the index that `Valid()` keeps is strictly increasing and lists exactly the flagged tokens |
| LlamaBatches.AppendPrefixIs | llama-cpp-2/src/llama_batch.rs:127-131 | adding token by token yields the closed form of the laid-out sequence |
| Reranker.Rerank | examples/reranker/src/main.rs:158-189 | succeeds exactly when every prompt fits, has a pooling, and every decode that next-fit packing needs has status zero, and then performs exactly those decodes; output j is the finished pooling of prompt j. An add error means the first prompt over 2048 tokens, a decode error is the status of the last decode performed, an embedding error a prompt without a pooling |
| Reranker.BatchDecode | examples/reranker/src/main.rs:223-262 | only ever called with at most 2048 tokens; succeeds exactly on status zero with every packed prompt pooled, pushes one output per packed prompt in order and clears the batch |
| Reranker.PackNext | examples/reranker/src/main.rs:163-180 | one round of the loop keeps the batch equal to the prompts between the outputs and the loop index, flushes exactly when the prompt does not fit behind them and answers everything flushed; it fails only on a prompt over 2048 tokens or on a flush whose status is not zero or that finds no pooling |
| Reranker.PackAll | examples/reranker/src/main.rs:158-189 | the loop and the final decode answer all prompts in order with one decode per flush and one more, or fail for the reason that stopped them, all earlier decodes having status zero |
| Reranker.FewFlushes | examples/reranker/src/main.rs:163-180 | the greedy flushes are at most twice the token total over 2048 |
| Reranker.BatchHoldsWhatFits | examples/reranker/src/main.rs:163-180 | since the last flush the prompts stay in one batch exactly as long as their tokens number at most 2048 |
| Reranker.ReadEmbeddings | examples/reranker/src/main.rs:243-257 | the outputs of a packed batch are its prompts' poolings in order; fails exactly when one has none |
| Reranker.PacksNext | examples/reranker/src/main.rs:178-179 | adding a prompt under the next id keeps "sequence i is exactly prompt i" |
| Reranker.AppendedSequence | llama-cpp-2/src/llama_batch.rs:113-134 | an added sequence extends only its own id |
| LogModel.AbortsExactly | llama-cpp-2/src/log.rs:86-98 | a run reaches the unreachable level arm exactly when some level is untraceable or the first message is a continuation; otherwise the remembered level is the latest non-continuation one |
| LogModel.CompletesExactly | llama-cpp-2/src/log.rs:86-98 | a run completes exactly when every level is DEBUG, INFO, WARN, ERROR or CONT and the first is not CONT |
| LogModel.NoLevelAborts | llama-cpp-2/src/log.rs:86-98 | a line without a level reaches the unreachable arm |
| LogModel.LeadingContinuationAborts | llama-cpp-2/src/log.rs:266-277 | a continuation with nothing before it reaches the unreachable arm |
| LogModel.Conservation | llama-cpp-2/src/log.rs:159-253 | on every completed run each enabled fragment is in exactly one log or in the buffer, and nothing else is |
| LogModel.OrderKeptExactly | llama-cpp-2/src/log.rs:217-226 | arrival order is kept exactly when no line ever overtakes a fragment buffered without the flag |
| LogOrder.OrderKeptByMessages | llama-cpp-2/src/log.rs:159-253 | the same from the messages alone: order is kept exactly when no enabled whole line arrives while a text that a continuation began is open |
| LogOrder.OvertakesExactly | llama-cpp-2/src/log.rs:217-226 | a line overtakes a buffered fragment somewhere in a run exactly when the messages contain such a line |
| LogOrder.BufferIsLeft | llama-cpp-2/src/log.rs:159-253 | on every run flag, buffer level and end of line are what the messages leave open: nothing, an unterminated message, or an orphaned text |
| LogOrder.OrphanFreeHasNoLineOverOrphan | llama-cpp-2/src/log.rs:159-253 | a run without orphans contains no such line |
| LogModel.OrderWithoutOrphans | llama-cpp-2/src/log.rs:159-253 | without orphaned continuations the flag equals "buffer present" and order is kept |
| LogModel.RunIsSound | llama-cpp-2/src/log.rs:159-253 | on every run the flag implies a buffer, and every fragment held is from the past |
| LogModel.LevelsFollowFirstFragment | llama-cpp-2/src/log.rs:171-210 | every log and the buffer carry the level under which their first fragment arrived |
| LogOrder.LevelsKeptExactly | llama-cpp-2/src/log.rs:159-183 | every fragment is kept under the level in force when it arrived exactly on the runs in which no continuation joins a buffer of another level |
| LogOrder.LevelsKeptByMessages | llama-cpp-2/src/log.rs:159-253 | the same from the messages alone: no enabled continuation arrives while a text of another level than the latest is open |
| LogOrder.MislevelsExactly | llama-cpp-2/src/log.rs:159-169 | a continuation joins a buffer of another level somewhere in a run exactly when the messages contain such a continuation |
| LogOrder.LevelsKeptWithoutOrphans | llama-cpp-2/src/log.rs:159-253 | that holds on every run without orphans whose enabled levels do not change |
| LogOrder.ContinuationMislevelled | llama-cpp-2/src/log.rs:159-169 | a four-message run in which a continuation of a warning is logged as information |
| LogModel.OrphanIsOvertaken | llama-cpp-2/src/log.rs:171-183 | a three-message run that loses order |
| LogModel.StepFlat | llama-cpp-2/src/lib.rs:668-689 | one message appends its fragment at the end unless disabled or overtaking |
| LogText.TranscriptIsInput | llama-cpp-2/src/lib.rs:668-689 | unless a line overtakes an orphan, the logged texts, with module prefixes and newlines put back, then the buffer, spell the enabled input |
| LogText.SinkHoldsRecords | llama-cpp-2/src/log.rs:159-253 | over a run, the logs among everything emitted, warnings set aside, are exactly the records in order |
| LogFacts.OutlineIsEmitted | llama-cpp-2/src/log.rs:159-253 | over every run, the warnings and logs emitted, in order and by level, are those that the messages alone determine |
| LogFacts.OrphansAreWarned | llama-cpp-2/src/log.rs:171-183 | the orphan warnings of a run are exactly its orphans, in order, with level and text |
| LogFacts.AdmittedExactly | llama-cpp-2/src/log.rs:255-277 | a message is enabled exactly when the subscriber enables the level of the message itself, or of the one that its row of continuations follows, disabled or not |
| LogFacts.DisabledAreSilent | llama-cpp-2/src/lib.rs:668-672 | disabled messages emit and buffer nothing |
| LogFacts.OneLine | llama-cpp-2/src/log.rs:235-241 | one enabled line at any of the four levels is one record and one log at that level, without its newline |
| LogFacts.ContinuedLine | llama-cpp-2/src/log.rs:159-169 | an unterminated message and the continuation ending it are one log of the joined text |
| LogFacts.FlushWarnsOfItsText | llama-cpp-2/src/log.rs:187-226 | a flush warns with the level and text that it then logs |
| LogFacts.UnloggableLines | llama-cpp-2/src/log.rs:234-252 | a line without a level is reported as information, one of an unknown level as a warning |
| LogText.EmittedLogs | llama-cpp-2/src/log.rs:159-253 | one message emits exactly the logs of the records that it completes |
| LogText.SplitsExactly | llama-cpp-2/src/log.rs:126-140 | a text is split exactly when it is a lowercase name, ": " and a rest; rejoining gives it back |
| LogStates.LogState.LogsToTrace | llama-cpp-2/src/lib.rs:651-690 | one callback is one step of the fragment model and emits exactly its warnings and logs in order, or nothing when disabled; incomplete exactly on an untraceable deciding level |
| LogStates.LogState.Dispatch | llama-cpp-2/src/lib.rs:683-689 | the three kinds of enabled message are the three steps of the model, with everything they emit |
| LogStates.LogState.ContBufferedLog | llama-cpp-2/src/log.rs:159-184 | is the continuation step, whatever the remembered level; emits the joined log once it ends a line, or the orphan warning |
| LogStates.LogState.BufferNonCont | llama-cpp-2/src/log.rs:187-210 | is the buffering step, for every level that is not CONT; emits a warning and then the log of what it replaces |
| LogStates.LogState.EmitNonContLine | llama-cpp-2/src/log.rs:213-253 | for every level that is not CONT, with or without metadata: flushes the buffer after a warning only under the flag, then emits the line, or the event of its level arm |
| LogStates.LogState.FlushUnderFlag | llama-cpp-2/src/log.rs:217-226 | clears the flag, and flushes the buffer after a warning exactly if the flag was set |
| LogStates.LogState.IsEnabledForLevel | llama-cpp-2/src/log.rs:266-277 | asks the subscriber about the deciding level; no answer exactly when that level has no metadata |
| LogStates.LogState.UpdatePreviousLevelForDisabledLog | llama-cpp-2/src/log.rs:255-263 | a disabled message changes only the remembered level, and only if it is not a continuation |
| LogStates.LogState.Run | llama-cpp-2/src/lib.rs:651-690 | a sequence of callbacks is a run of the model, cut short at the same message, and emits exactly the events of its messages in order |
| Evidence.PreimageInjective | llama-cpp-sys-2/build_evidence.rs:434-454 | equal digest preimages have equal features, linkage and artifacts, for validated features and names |
| EvidenceFacts.PreimageOfTwo | llama-cpp-sys-2/build_evidence.rs:434-454 | the bytes hashed for two features and two artifacts, in order, with the format tag |
| EvidenceFacts.LinkageText | llama-cpp-sys-2/build_evidence.rs:90-99 | the linkage text for every choice |
| Evidence.CanonicalLinkageInjective | llama-cpp-sys-2/build_evidence.rs:90-99 | the linkage text determines the linkage |
| Evidence.CanonicalInjective | llama-cpp-sys-2/build_evidence.rs:134-138 | the artifact text determines name, length and hash |
| Evidence.ClosedFramesDecode | llama-cpp-sys-2/build_evidence.rs:442-446 | a NUL-framed list closed by an empty text is read back, with what follows |
| Evidence.EvidenceDigest | llama-cpp-sys-2/build_evidence.rs:434-454 | the hasher is fed exactly the preimage |
| Evidence.ValidateFeatures | llama-cpp-sys-2/build_evidence.rs:323-336 | accepts exactly the known features in strictly increasing order; otherwise the error names the first offence |
| EvidenceFacts.TableSorted | llama-cpp-sys-2/build_evidence.rs:16-35 | the table's features, in its order, pass feature validation |
| EvidenceFacts.KnownExactly | llama-cpp-sys-2/build_evidence.rs:324 | only the table's features are known |
| EvidenceFacts.ValidNameExactly | llama-cpp-sys-2/build_evidence.rs:338-360 | a logical name is valid exactly when it has 1 to 96 lowercase, digit, "-", "_", "/" or "." bytes and no empty, "." or ".." part between slashes |
| EvidenceFacts.NameFaultReported | llama-cpp-sys-2/build_evidence.rs:338-360 | the length is judged first, then the bytes, then the parts |
| EvidenceFacts.ComponentBetweenSlashes | llama-cpp-sys-2/build_evidence.rs:353-355 | the components are exactly what stands between two slashes |
| Evidence.ComponentsJoin | llama-cpp-sys-2/build_evidence.rs:353-355 | the components tested are the '/'-free parts that join back to the name |
| Collection.Collect | llama-cpp-sys-2/build_evidence.rs:149-203 | succeeds exactly on 1 to 64 usable, distinctly named inputs with valid features, and then holds one artifact per input, strictly sorted by name, with the digest of the preimage; otherwise the error is the count, else the first bad feature, else the first bad input |
| Collection.Gather | llama-cpp-sys-2/build_evidence.rs:165-195 | the loop succeeds exactly on usable, distinctly named inputs and then holds their evidence once each, sorted by name; otherwise the error is that of the first input that is faulty or repeats a name |
| Collection.Inspect | llama-cpp-sys-2/build_evidence.rs:166-184 | one input passes exactly when its name, its path as a directive if external, and its fingerprint do; the error is the first of these to fail |
| Collection.CollectionIgnoresOrder | llama-cpp-sys-2/build_evidence.rs:149-203 | reordering the inputs changes neither success nor the evidence |
| Collection.CollectedPreimageInjective | llama-cpp-sys-2/build_evidence.rs:149-203 | two collected evidences with equal preimages are equal |
| EvidenceFacts.SameNameTwice | llama-cpp-sys-2/build_evidence.rs:185-193 | two good inputs of one name are a duplicate |
| EvidenceFacts.SmallerNameFirst | llama-cpp-sys-2/build_evidence.rs:165-203 | of two good inputs the smaller name comes first in the artifacts, each with the length and hash of its file, and the digest is that of these artifacts |
| EvidenceFacts.CountAndFeatureRefusals | llama-cpp-sys-2/build_evidence.rs:154-164 | the count is judged first, then the features in order |
| EvidenceFacts.InputRefusals | llama-cpp-sys-2/build_evidence.rs:165-184 | a fault of the first input is the one reported |
| EvidenceFacts.InputFaults | llama-cpp-sys-2/build_evidence.rs:362-370 | an external path must be UTF-8 without line breaks, and only then must the file be readable |
| Collection.EffectiveFeatures | llama-cpp-sys-2/build_evidence.rs:241-267 | fails exactly on an unrecognized feature variable, listing exactly those; otherwise the result is exactly the active features and passes feature validation |
| Collection.LookupInjective | llama-cpp-sys-2/build_evidence.rs:16-35 | different feature variables stand for different features |
| EvidenceFacts.VariableSpellsFeature | llama-cpp-sys-2/build_evidence.rs:16-35 | every variable of the table is "CARGO_FEATURE_" and its feature in upper case with "_" for "-" |
| EvidenceFacts.RecognizedVariables | llama-cpp-sys-2/build_evidence.rs:241-267 | the variables looked at are those that begin with "CARGO_FEATURE_", and one stands for a feature exactly when the table says so |
| ArtifactNames.LinkedNameAccepted | llama-cpp-sys-2/build.rs:251-276 | a linked name is valid exactly when the canonical component is not empty, "." or ".." and the name fits 96 bytes |
| ArtifactNames.RuntimeNameAccepted | llama-cpp-sys-2/build.rs:278-281 | the same for runtime names of the two families in use |
| EvidenceFacts.LinkedFamilies | llama-cpp-sys-2/build.rs:262-275 | the family of a component: prefix ggml, exactly llama, common anywhere, prefix mtmd, else native, the first that applies |
| EvidenceFacts.CanonicalBytes | llama-cpp-sys-2/build.rs:251-260 | upper case is lowered, canonical bytes stay, others become "_" |
| EvidenceFacts.LinkedNameIs | llama-cpp-sys-2/build.rs:262-276 | a linked name is its family, the canonical library name and "link" |
| EvidenceFacts.RuntimeNameIs | llama-cpp-sys-2/build.rs:278-281 | a runtime name is the given family, the canonical file name and "runtime" |
| ArtifactNames.ArtifactMap.InsertArtifact | llama-cpp-sys-2/build.rs:283-301 | inserts unless the name is held with another path or origin, and then changes nothing |
| ArtifactNames.ArtifactMap.InsertAll | llama-cpp-sys-2/build.rs:1372-1394 | a run of insertions completes exactly when all inputs of one name agree, and the map then holds exactly the inputs |
| ArtifactNames.NoDuplicateCollected | llama-cpp-sys-2/build.rs:1656-1661 | collecting the values of such a map never reports a duplicate |
| StringOrder.SortedUnique | llama-cpp-sys-2/build_evidence.rs:195 | two strictly sorted sequences with the same members are equal |
| StringOrder.SmallerAtDifference | llama-cpp-sys-2/build_evidence.rs:265 | at the first difference the smaller character decides |
| StringOrder.PrefixFirst | llama-cpp-sys-2/build_evidence.rs:330 | a proper prefix comes first |
| Decimal.PrintInjective | llama-cpp-sys-2/build_evidence.rs:136 | different numbers print differently |
| Decimal.PrintDenotes | llama-cpp-sys-2/build_evidence.rs:136 | the printed digits denote the number in base ten |
| MtpModel.PendingIsOutstanding | llama-cpp-sys-2/wrapper_common.cpp:230-338 | after every run, throwing calls included, a draft is pending exactly when its length is positive and exactly when one earlier non-empty draft is unconsumed, which is unique and is the recorded one |
| MtpModel.AcceptsExactly | llama-cpp-sys-2/wrapper_common.cpp:320-338 | accept(k) succeeds exactly when the engine does not throw and k is within an unconsumed earlier draft |
| MtpModel.AcceptedWithinDrafted | llama-cpp-sys-2/wrapper_common.cpp:268-338 | over every run the accepted tokens and the pending draft together never exceed the drafted tokens |
| MtpModel.DraftCanBeAccepted | llama-cpp-sys-2/wrapper_common.cpp:268-338 | a delivered draft can be accepted up to its length and blocks the next draft |
| MtpModel.DraftIsDiscarded | llama-cpp-sys-2/wrapper_common.cpp:230-338 | a begin past its prompt and a successful accept discard it |
| MtpModel.DraftIsKept | llama-cpp-sys-2/wrapper_common.cpp:230-338 | a refused or throwing accept, a refused draft, a process, and a begin that throws earlier keep it |
| MtpModel.PromptIsLatest | llama-cpp-sys-2/wrapper_common.cpp:230-290 | the engine sees the prompt of the latest call that got as far as replacing it |
| MtpModel.CompatibleExactly | llama-cpp-sys-2/wrapper_common.cpp:164-176 | with all arrays a batch is compatible exactly when not empty, of sequence 0 alone and without embeddings; without any one array it is not |
| MtpModel.OneSequenceCompatible | llama-cpp-sys-2/wrapper_common.cpp:164-176 | one `add_sequence` on an empty batch is compatible exactly when it is non-empty and its id is 0 |
| Mtp.BatchCompatible | llama-cpp-sys-2/wrapper_common.cpp:164-176 | the loop accepts exactly the batches of single-id tokens of sequence 0 with all arrays and no embeddings |
| Mtp.NativeMtp.Begin | llama-cpp-sys-2/wrapper_common.cpp:230-247 | is the begin step, for each place it may throw |
| Mtp.NativeMtp.Process | llama-cpp-sys-2/wrapper_common.cpp:249-266 | rejects incompatible batches, otherwise reports the engine's outcome; changes no protocol state |
| Mtp.NativeMtp.Draft | llama-cpp-sys-2/wrapper_common.cpp:268-318 | is the draft step, with the status for every case; on success the caller's buffer holds the whole draft, and the count is written exactly when the engine drafted |
| Mtp.NativeMtp.Accept | llama-cpp-sys-2/wrapper_common.cpp:320-338 | is the accept step |
| Mtp.MtpSpeculative.New | llama-cpp-2/src/speculative.rs:68-96 | succeeds exactly for 0 <= n_min <= n_max, 0 < n_max and a native handle |
| Mtp.MtpSpeculative.Begin | llama-cpp-2/src/speculative.rs:119-129 | is the native begin; succeeds exactly when nothing throws, and otherwise carries the exception status |
| Mtp.MtpSpeculative.Process | llama-cpp-2/src/speculative.rs:138-146 | succeeds exactly on compatible batches that the engine processes; an incompatible batch is an invalid argument, anything else the exception status |
| Mtp.MtpSpeculative.Draft | llama-cpp-2/src/speculative.rs:154-185 | returns the engine's whole draft of at most n_max tokens, or an error: overflow exactly when the engine drafted more, invalid parameters exactly for a negative position, an invalid argument exactly while a draft is pending, the exception status exactly when something throws |
| Mtp.MtpSpeculative.Accept | llama-cpp-2/src/speculative.rs:192-197 | succeeds exactly as the native accept; without a draft that long it is an invalid argument, otherwise an error is the exception status |
| ControlVector.ValidatesExactly | llama-cpp-2/src/context.rs:629-672 | accepts exactly on positive width, a range within 1..layer_count-1, the exact length without overflow, finite values and an i32 range |
| ControlVector.FaultsInOrder | llama-cpp-2/src/context.rs:629-672 | which error is reported, with its numbers, in the order of the checks |
| ControlVector.RowsTile | llama-cpp-2/src/context.rs:652-663 | in accepted data each controlled layer's row is inside, and every cell is in exactly one layer's row |

## Left out

- Native llama.cpp: decode numerics, the scheduler, samplers, tokenizers, grammars and memory fitting are arbitrary inputs.
- Threads: each log and capture call is one atomic step; a mutex matters only through its poison flag.
- CaptureModel.Callback: a panic can occur only inside the backend read, the one call that leaves the locked region; the slot values are then unspecified in the source and unobservable, and here unchanged.
- CaptureModel.Callback: backend reads always deliver the tensor's bytes; native assertions and process aborts are not modelled.
- LlamaBatches.LlamaBatch.Add: a call that writes must not carry more sequence ids than the batch was allocated for, where the source writes out of bounds; the panic on a count of 2^31-1 is the error CountOverflow.
- LlamaBatches.LlamaBatch.AddSequence: a call that writes needs a batch allocated for at least one sequence id per token, for the same reason.
- LlamaBatches.LlamaBatch.GetOne: the panic on more than 2^31-1 tokens is the error CountOverflow.
- LogStates.LogState.LogsToTrace: conversion of the C text to UTF-8 is not modelled.
- LogStates.LogState.GenerateLog: its panic on a level without metadata is a precondition, so the methods that may flush a buffer need one that can be logged; the dispatcher lets no other in.
- LogModel.LevelsFollowFirstFragment: says nothing of later fragments; `LogOrder.LevelsKeptByMessages` does.
- Evidence.PreimageInjective: is about the bytes hashed; that the hash itself has no collisions is not claimed.
- Collection.Collect: the texts of errors and Cargo directives are not modelled.
- Reranker.Rerank: native pooling of a sequence is a function of that sequence's tokens and positions; normalisation is an opaque function, and printing, timing and cache clearing are left out.
- Mtp.NativeMtp.Draft: null handles and null prompt pointers, which the Rust layer never passes, are left out; tokens are unbounded integers.
- LlamaContexts.LlamaContext.MayReadLogits: the native read behind the two assertions is left out.
- Floating-point arithmetic: a float is its bytes with a finiteness test.
- Reading the environment and files, SHA-256, the file snapshot check, globbing, CMake and link directives of the build script.
- Getters, setters, enum conversions, sessions, KV cache, GGUF, multimodal and sampling wrappers: one-branch or foreign calls.
