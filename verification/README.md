# mo_sidecar: a verified model of the control and data plane

The sidecar runs Substrait plans for MatrixOne. A client prepares an execution and receives a ticket,
may upload streamed inputs, and reads the result as numbered frames of MatrixOne native batches. This
project models the five C++ files that carry that protocol and proves what they keep over every run
and every input.

| module | source | form |
|---|---|---|
| `Bytes`, `Wire`, `ExecuteRequest`, `Identities`, `Canonical`, `Envelope` | `protocol.cpp` | reader class, parsing and appending loops, functions they are proved against |
| `Execution`, `ExecutionEntryObject`, `UploadHandlers` | `flight_runtime.cpp`, `execution_entry` | state machine over critical sections; class with the fields; composition with the streamed inputs |
| `Registry`, `RegistryInvariants`, `RegistryRequests`, `TicketRegistryObject` | `flight_runtime.cpp`, `ticket_registry` | state machine that contains one `Execution` per ticket; class with the maps |
| `StreamSlot`, `StreamInputObject`, `InputStream` | `stream_input.cpp` and the DoPut loop | state machine; class with the slot; the whole path from uploaded bytes to emitted rows |
| `NullBitmap`, `BitmapForms`, `Varlena`, `NativeBatch`, `BatchReader`, `CodecRoundTrip`, `DecoderForms`, `Scan` | `native_result.cpp`, `stream_input.cpp` | encoder and decoder functions, the decoder's cursor and loops, what it accepts, array-filling scan |
| `HostMemory`, `HostColumn`, `HostLayout`, `HostTable`, `HostEncoder`, `ChunkEncoder`, `Meaning` | `native_result.cpp` | host table encoder and its size prediction, loops proved against functions, the memory layout and the values it reads |
| `Split`, `ResultStream` | `flight_runtime.cpp`, `consume_batch` | the halving loop; the whole path from batches to delivered frames |
| `Admission`, `Leases` | `stream_admission.cpp` | checked arithmetic; controller and lease classes |

How to read it:

- **Concurrency.** Each critical section of a mutex is one function on the protected state
  (`Shared`, `Tables`, `Slot`). A `State` adds the program counters of all threads and the history the
  theorems speak of. A `Step` is one atomic step of one thread, so a sequence of steps accepted by
  `Reaches` is one interleaving, and a lemma about every such sequence is about every interleaving.
  The classes hold the same fields mutably, and every method is proved equal to its function.
- **Exceptions** are the `Failure` of `Result`. Error texts are not modelled except where two of them
  are told apart (`Refusal`, `Code`, `Split.Outcome`).
- **Environment.** `run_batches` calls the batch callback sequentially; its batches, the platform's
  `long double` rounding of a DOUBLE to a decimal (`HostColumn.Column.rounding`), the clock
  (`expired`, `stopped`), the admission answer (`leased`), the success of a network write (`written`)
  and the random ticket (fresh in `BuildSucceeds`) are parameters of steps.
- **Integers** are unbounded; 32- and 64-bit limits, wrap-around, sign extension and truncation are
  written out wherever the source relies on them.

`Sample.AssumptionsCanBeMet` exhibits a table, a split and an interleaving that meet all the
assumptions of the end-to-end theorem at once.

Properties that turned out false of the code, each with a concrete input and the exact condition:

- Decoder acceptance does not bound dates: `fill_column` computes `value - 719162` in a signed 32-bit
  int, which leaves the range for stored dates below `INT32_MIN + 719162` (`Scan.AcceptedDateMayOverflow`;
  `Scan.FillColumn` and `Scan.ScanColumn` succeed if and only if the dates convert).
- The endings of a streamed input do not all exclude each other: `cancel` does not test the consumer's
  end, so a fully consumed upload can still fail without its closing acknowledgement
  (`StreamSlot.ConsumedMayBeCancelled`; `StreamSlot.EndingsAreExclusive` shows that this happens only in
  that order, with everything emitted).
- The predicted size is not always the encoded size: it charges null text rows
  (`Counterexamples.NullTextIsCharged`; `HostTable.SizeBoundsPayload` gives the exact condition).
- The frame parser refuses payloads over 4 MiB, which the serializer accepts
  (`Counterexamples.LargeFrameIsRefused`; `Envelope.FrameRoundTrip`).
- A cancel request may carry an empty identity, although its error text asks for exactly one of 32
  bytes (`Identities.EmptyCancelIsAccepted`; `Identities.CancelCarriesIdentity`).
- A tag with bits above the 32-bit field number is accepted by the execute parser and refused by the
  upload and cancel parsers (`Counterexamples.AliasedTagIsAccepted`; `Identities.OversizedTags`).
- The chunk encoder accepts a DOUBLE for a decimal column and copies its bits, where the host encoder
  rounds (`Counterexamples.DoublesAreCopied`; `ChunkEncoder.SameSourceColumn` gives the exact condition).

## Model

| member | source | states |
|---|---|---|
| `ResultStream.CleanStreamIsTheResult` | mo-sidecar/src/flight_runtime.cpp:168-374 | in every interleaving, however the split of each batch goes: if the reader is told OK, every split reached the end of its batch, and the delivered frames 1, 2, 3, ... decode, column by column, to exactly the rows of all batches in order |
| `ResultStream.TilingDecodes` | mo-sidecar/src/flight_runtime.cpp:313-328 | the payloads of a tiling of a batch decode to exactly the batch's rows: splitting loses, repeats and reorders no cell |
| `ResultStream.HostCellsJoin` | mo-sidecar/src/native_result.cpp:251-422 | the logical rows of two adjacent ranges make up the rows of the range over both |
| `ResultStream.LaidOutColumn` | mo-sidecar/src/native_result.cpp:292-422 | the result column of a batch whose memory holds given cells is those cells |
| `Execution.CleanEndIsComplete` | mo-sidecar/src/flight_runtime.cpp:168-230 | delivered frames are a numbered prefix of the published ones, a terminal state holds no frame, an OK end means every payload of every batch was delivered and every batch was split to its end |
| `Execution.FirstTerminalStatusWins` | mo-sidecar/src/flight_runtime.cpp:202-257 | the first terminal status never changes, is what the reader is told, and nothing is delivered after it |
| `Execution.CauseDecidesStatus` | mo-sidecar/src/flight_runtime.cpp:202-257 | what ends an execution decides its status for ever: a cancel its code, a batch past the deadline DEADLINE_EXCEEDED, the worker its own status; nothing else ends one |
| `Execution.WorkerStatus` | mo-sidecar/src/flight_runtime.cpp:332-355 | the worker ends OK if `run_batches` returned, with the thrown code if it threw, and with EXECUTION_FAILED if its callback threw |
| `Execution.RunningMakesProgress` | mo-sidecar/src/flight_runtime.cpp:151-199 | a ticket is claimable exactly until it is claimed or ended, a worker starts once; the next payload is numbered and posted exactly if it is non-empty and within the limit, and the reader takes the next number |
| `Execution.QuiescenceIsFinal` | mo-sidecar/src/flight_runtime.cpp:160-257 | quiesced implies terminal, no worker inside a batch, and none can ever start |
| `Execution.NotifiedExactlyOnce` | mo-sidecar/src/flight_runtime.cpp:120-166 | the terminal callback fires at most once, only after quiescence, and is not lost when no call is pending, with handlers counted outside the mutex |
| `Execution.CancellationSettles` | mo-sidecar/src/flight_runtime.cpp:332-388 | from any terminal state, in every run, with any handlers attached, further batches and further cancels: the winding steps are bounded by a rank and three per other step, and when none is left the handlers are gone and the execution has quiesced and notified once with its first status |
| `Execution.StepInv` | mo-sidecar/src/flight_runtime.cpp:146-388 | every atomic step of every thread keeps the invariant of flags, notification, slot, flow and end |
| `Execution.SectionsAreEntered` | mo-sidecar/src/flight_runtime.cpp:202-257 | in every reachable state the flags and the slot are consistent, a canceller sets quiesced only on a terminal execution, and `finish` finds the slot empty |
| `UploadHandlers.HandlersLeave` | mo-sidecar/src/flight_runtime.cpp:120-145 | an execution composed with its streamed inputs: after any ending and its visit to all inputs, every upload handler moves only towards the exit in boundedly many steps, and when nothing is left to do every handler has left, none is counted, and the execution has quiesced and notified once, with no assumption on handlers |
| `UploadHandlers.StepInv` | mo-sidecar/src/stream_input.cpp:568-600 | every step of execution, handlers, scans, counter and visits keeps: the handler count is the number of counted handlers, and a terminal execution has released or has yet to visit every input |
| `ExecutionEntryObject.ExecutionEntry.ClaimOnce` | mo-sidecar/src/flight_runtime.cpp:151-158 | claims exactly when neither claimed nor terminal |
| `ExecutionEntryObject.ExecutionEntry.StartWorker` | mo-sidecar/src/flight_runtime.cpp:160-166 | starts a worker exactly when claimed, not running and not terminal |
| `ExecutionEntryObject.ExecutionEntry.TryRead` | mo-sidecar/src/flight_runtime.cpp:181-199 | takes the frame if there is one, else the terminal status if terminal |
| `ExecutionEntryObject.ExecutionEntry.BeginCancel` | mo-sidecar/src/flight_runtime.cpp:202-217 | marks terminal unless quiesced or already terminal, drops the frame, reports who owns quiescence |
| `ExecutionEntryObject.ExecutionEntry.NextFrame` | mo-sidecar/src/flight_runtime.cpp:291-295 | numbers a payload within the limit with the next sequence, or fails |
| `ExecutionEntryObject.ExecutionEntry.TryPost` | mo-sidecar/src/flight_runtime.cpp:296-302 | posts the frame unless terminal |
| `ExecutionEntryObject.ExecutionEntry.FinishWith` | mo-sidecar/src/flight_runtime.cpp:357-365 | sets the status only if not yet terminal, and quiesces |
| `ExecutionEntryObject.ExecutionEntry.MaybeNotify` | mo-sidecar/src/flight_runtime.cpp:376-388 | decides to notify exactly when quiesced, without handlers and not yet notified |
| `RegistryInvariants.TablesAgree` | mo-sidecar/src/flight_runtime.cpp:482-602 | entries and non-preparing records are inverse, reserved counts the preparing records, the ticket bound covers both |
| `RegistryInvariants.NoLostTicket` | mo-sidecar/src/flight_runtime.cpp:532-582 | the "lost its prepared ticket" branch is unreachable; a builder always finds its reservation and its own preparing record, and its ticket is new |
| `RegistryInvariants.CancelledPreparationIsNeverGranted` | mo-sidecar/src/flight_runtime.cpp:670-708 | after cancel-by-key on a preparing record, no caller is ever granted that record's ticket |
| `RegistryInvariants.OneTicketPerRecord` | mo-sidecar/src/flight_runtime.cpp:486-582 | grants are of the same record exactly if they are of the same ticket, at whatever time they are made |
| `RegistryRequests.GrantMatchesRequest` | mo-sidecar/src/flight_runtime.cpp:486-545 | in every run, a caller that asked for a key with a fingerprint is granted only the ticket of a record reserved for exactly that key and fingerprint |
| `RegistryRequests.OneRequestPerTicket` | mo-sidecar/src/flight_runtime.cpp:486-545 | callers granted the same ticket asked for the same key and fingerprint |
| `RegistryRequests.LookIsDecided` | mo-sidecar/src/flight_runtime.cpp:487-538 | every turn of the prepare loop gives the answer the state calls for: stopped or sealed, a new reservation within bound and admission, a conflict for another request, a wait, a terminal refusal, or the ticket of that very record |
| `RegistryRequests.ReplayIsDecided` | mo-sidecar/src/flight_runtime.cpp:541-547 | a replayed ticket is granted exactly if nobody claimed it and nothing ended its execution |
| `RegistryRequests.PublishIsDecided` | mo-sidecar/src/flight_runtime.cpp:566-601 | a built execution is granted if the registry is open and its key was not cancelled, and otherwise refused with the reason and ended with the code of that reason |
| `RegistryRequests.HaltsGiveReason` | mo-sidecar/src/flight_runtime.cpp:609-628 | the sealer ends a running execution with GPU_DEVICE_UNAVAILABLE and shutdown with CANCELLED; neither changes one that has ended, nor any other |
| `RegistryInvariants.GpuSealIsFailStop` | mo-sidecar/src/flight_runtime.cpp:609-628 | sealed stays sealed and stopped, nothing is admitted, no caller that had not been led to a ticket before, and none that arrives later, is granted one, the sealer is never stuck, and when it is done every sealed entry is terminal |
| `RegistryInvariants.RunningExecutionsAreBounded` | mo-sidecar/src/flight_runtime.cpp:710-776 | executions that are not quiesced never exceed max_active_tickets; after shutdown has cancelled and joined its two snapshots and cleared the maps, no admitted execution runs |
| `RegistryInvariants.StepShut` | mo-sidecar/src/flight_runtime.cpp:710-747 | every step of every thread keeps what shutdown relies on: cancelled executions stay terminal, joined ones at rest, and nothing enters behind its snapshots |
| `RegistryInvariants.ShutdownAdvances` | mo-sidecar/src/flight_runtime.cpp:710-747 | shutdown is never stuck: it can cancel whatever it has yet to cancel, go on when a snapshot is exhausted, and join an execution once its worker has exited |
| `RegistryInvariants.StepInv` | mo-sidecar/src/flight_runtime.cpp:482-776 | every step of every caller, execution, canceller and sealer keeps the registry invariant |
| `TicketRegistryObject.TicketRegistry.PrepareTurn` | mo-sidecar/src/flight_runtime.cpp:487-538 | the verdict of one turn of the prepare loop and the reservation it makes |
| `TicketRegistryObject.TicketRegistry.PublishEntry` | mo-sidecar/src/flight_runtime.cpp:569-582 | publishes ticket and record together, or erases the record when stopping |
| `TicketRegistryObject.TicketRegistry.ReleaseReservation` | mo-sidecar/src/flight_runtime.cpp:761-766 | gives the reservation up and erases the record |
| `TicketRegistryObject.TicketRegistry.RemoveEntry` | mo-sidecar/src/flight_runtime.cpp:768-776 | removes the entry with its record, or nothing |
| `TicketRegistryObject.TicketRegistry.RequestCancel` | mo-sidecar/src/flight_runtime.cpp:675-692 | marks the record, and waits exactly while it is preparing |
| `TicketRegistryObject.TicketRegistry.SealGpu` | mo-sidecar/src/flight_runtime.cpp:609-621 | the first seal stops the registry and snapshots the entries |
| `TicketRegistryObject.TicketRegistry.FinalClear` | mo-sidecar/src/flight_runtime.cpp:742-744 | empties both maps and nothing else |
| `StreamSlot.DeliveredExactlyOnce` | mo-sidecar/src/stream_input.cpp:425-524 | the scan sees frames 1, 2, 3, ... once each and in order, has emitted exactly the released rows plus a prefix of the held ones, and the slot holds acknowledged + 1 |
| `StreamSlot.AcknowledgedAfterRelease` | mo-sidecar/src/stream_input.cpp:459-470 | acknowledgement k comes after frame k was released and carries the totals of frames 1..k |
| `StreamSlot.FinalAckIsReceipt` | mo-sidecar/src/stream_input.cpp:472-489 | a complete, not not-needed final acknowledgement is final: every frame the handler read entered the slot and was released, all its rows were emitted, and the totals are exact |
| `StreamSlot.CleanScanIsComplete` | mo-sidecar/src/stream_input.cpp:497-512 | a scan that ends cleanly has emitted every row of every frame the handler read, and no more are read |
| `StreamSlot.EndingsAreExclusive` | mo-sidecar/src/stream_input.cpp:526-543 | not-needed excludes the other endings for ever; a cancel makes cancelled and consumed hold together exactly if the consumer had reached the end, and then everything uploaded was emitted; an input cancelled before it never reaches it; an input attaches once |
| `StreamSlot.UploadMakesProgress` | mo-sidecar/src/stream_input.cpp:425-489 | while nothing has ended the input, the next frame enters the slot and any other fails the upload unchanged; its release and the consumer's end, and only they, are acknowledged, with the totals |
| `StreamSlot.EndedUploadsAreAnswered` | mo-sidecar/src/stream_input.cpp:450-488 | an input that is not needed is acknowledged as complete and not needed with the totals released; a cancelled one fails without acknowledgement |
| `StreamSlot.ScanMakesProgress` | mo-sidecar/src/stream_input.cpp:326-346 | while nothing has ended the input, the scan obtains the batch in the slot, emits it in chunks of 2048 rows, and releases it exactly when all rows are emitted |
| `StreamSlot.ConsumedMayBeCancelled` | mo-sidecar/src/stream_input.cpp:472-541 | a run that is consumed and then cancelled: the upload fails without a closing acknowledgement |
| `StreamSlot.StepInv` | mo-sidecar/src/flight_runtime.cpp:957-997 | every step of the DoPut handler, the scan and the cancellers keeps the slot invariant |
| `InputStream.CleanInputIsTheUpload` | mo-sidecar/src/stream_input.cpp:425-543 | in every interleaving of uploader, scan and cancellers, a clean scan end, or a closing acknowledgement that is not not-needed, means that every frame the handler read entered the slot and exactly the rows sent were emitted, in order |
| `InputStream.AcceptedIsDecoded` | mo-sidecar/src/stream_input.cpp:425-433 | whatever envelope parser and batch decoder accept meets the bounds that the slot protocol assumes of a frame |
| `InputStream.SentIsAccepted` | mo-sidecar/src/stream_input.cpp:425-433 | a framed batch of the encoder is accepted with its sequence number, its size and exactly its rows |
| `StreamInputObject.StreamInput.Attach` | mo-sidecar/src/stream_input.cpp:412-423 | attaches exactly when neither attached nor cancelled |
| `StreamInputObject.StreamInput.Writable` | mo-sidecar/src/stream_input.cpp:434-439 | accepts exactly the next contiguous frame of a live producer |
| `StreamInputObject.StreamInput.TryPost` | mo-sidecar/src/stream_input.cpp:440-456 | waits, stops, acknowledges or posts, exclusively, by the state of the slot |
| `StreamInputObject.StreamInput.PollReleased` | mo-sidecar/src/stream_input.cpp:458-469 | acknowledges only after the frame left the slot |
| `StreamInputObject.StreamInput.PollFinished` | mo-sidecar/src/stream_input.cpp:476-488 | completes only after the consumer's end, or not-needed |
| `StreamInputObject.StreamInput.TryNext` | mo-sidecar/src/stream_input.cpp:497-512 | hands out the held batch without releasing it, or ends |
| `StreamInputObject.StreamInput.MarkConsumed` | mo-sidecar/src/stream_input.cpp:514-524 | releases the matching batch and adds it to the totals, modulo 2^64 |
| `StreamInputObject.StreamInput.MarkNotNeeded` | mo-sidecar/src/stream_input.cpp:526-533 | ends the input unless cancelled or consumed |
| `StreamInputObject.StreamInput.Cancel` | mo-sidecar/src/stream_input.cpp:535-543 | ends the input unless already ended |
| `CodecRoundTrip.BatchRoundTrip` | mo-sidecar/src/stream_input.cpp:350-389 | the decoder accepts every payload the encoder produces and recovers the row count and every cell |
| `CodecRoundTrip.ColumnRoundTrip` | mo-sidecar/src/stream_input.cpp:138-227 | one encoded column is accepted, and each row's nullness and value recovered |
| `CodecRoundTrip.AcceptedIsValid` | mo-sidecar/src/stream_input.cpp:138-227 | whatever the column decoder accepts has data, descriptors and null mask that cover its rows |
| `CodecRoundTrip.SplitVectorCanonical` | mo-sidecar/src/stream_input.cpp:138-162 | a vector splits into fields in one way: writing the fields gives the bytes back |
| `CodecRoundTrip.SplitVectorRoundTrip` | mo-sidecar/src/native_result.cpp:429-449 | the fields of a written vector are read back |
| `CodecRoundTrip.TypeRoundTrip` | mo-sidecar/src/native_result.cpp:433-440 | the 16 type bytes give back type, charset, not-null flag, element size, width and scale, each at its place |
| `CodecRoundTrip.DateRoundTrip` | mo-sidecar/src/native_result.cpp:379-384 | a date shifted by 719162 without overflow shifts back |
| `CodecRoundTrip.WideningKeepsValue` | mo-sidecar/src/native_result.cpp:385-387 | widening a decimal keeps its signed value |
| `CodecRoundTrip.RoundingKeepsValue` | mo-sidecar/src/native_result.cpp:388-409 | a DOUBLE for a decimal column is stored as the integer it was rounded to, and refused exactly if there is none or it leaves the storage width, a test that the source makes for decimal64 and that its magnitude limit implies for decimal128 |
| `NullBitmap.NullsRoundTrip` | mo-sidecar/src/native_result.cpp:272-290 | every encoded bitmap is accepted and gives back each row and the count |
| `NullBitmap.AcceptedCountIsExact` | mo-sidecar/src/stream_input.cpp:173-203 | the declared count of an accepted bitmap is the number of rows it marks |
| `BitmapForms.BitmapIsAccepted` | mo-sidecar/src/stream_input.cpp:173-203 | the bitmap of any list of bits that covers the rows and marks none beyond them is accepted, and each bit and the count read back |
| `BitmapForms.AcceptedIsBitmap` | mo-sidecar/src/stream_input.cpp:173-203 | nothing else is accepted: every accepted bitmap is that of such a list, byte for byte |
| `NullBitmap.PackNulls` | mo-sidecar/src/native_result.cpp:272-280 | the bit-setting loop computes the words and the count of the nulls |
| `NullBitmap.EncodeNullMask` | mo-sidecar/src/native_result.cpp:272-290 | header and words, or nothing without nulls |
| `NullBitmap.CheckWords` | mo-sidecar/src/stream_input.cpp:188-203 | accepts exactly the words without bits outside the batch whose popcount is the declared count |
| `Varlena.DescriptorRoundTrip` | mo-sidecar/src/native_result.cpp:325-353 | every descriptor lies in the area and reads back as its inline or big value |
| `BatchReader.Cursor.Read` | mo-sidecar/src/stream_input.cpp:22-62 | the next n bytes and the advanced position, or failure |
| `BatchReader.DecodeNulls` | mo-sidecar/src/stream_input.cpp:173-203 | the header test and the word loop are the bitmap decoder |
| `BatchReader.CheckDescriptors` | mo-sidecar/src/stream_input.cpp:205-225 | accepts exactly if every descriptor is inline or lies in the area |
| `BatchReader.DecodeColumn` | mo-sidecar/src/stream_input.cpp:138-227 | the cursor-based column parser is the column decoder |
| `BatchReader.DecodeBatch` | mo-sidecar/src/stream_input.cpp:350-389 | the cursor-based batch parser is the batch decoder |
| `Scan.AcceptedBatchIsValid` | mo-sidecar/src/stream_input.cpp:350-389 | an accepted batch has one valid column per schema column, of its type and of the batch's row count |
| `Scan.AcceptedBatchScans` | mo-sidecar/src/stream_input.cpp:229-293 | every row range of an accepted batch can be read, flat or constant, if its dates convert, and only date columns may fail |
| `Scan.AcceptedDateMayOverflow` | mo-sidecar/src/stream_input.cpp:265-273 | an accepted date column that does not scan, and the exact condition on its stored date |
| `Scan.FillColumn` | mo-sidecar/src/stream_input.cpp:229-293 | fills the vector with the cells of the range exactly if its dates convert |
| `Scan.ScanColumn` | mo-sidecar/src/stream_input.cpp:326-346 | the chunks of a batch concatenate to exactly its rows |
| `DecoderForms.ConstantRoundTrip` | mo-sidecar/src/stream_input.cpp:229-239 | a constant vector with one encoded value is accepted for any row count, and every row is that value, or null exactly if its bitmap marks row 0 |
| `DecoderForms.EmptyConstantIsNull` | mo-sidecar/src/stream_input.cpp:229-239 | a constant vector without data is accepted, and every row is null |
| `DecoderForms.VectorIsAcceptedExactly` | mo-sidecar/src/stream_input.cpp:138-227 | a framed vector is accepted exactly if its class, order flag, type, row count, data size, descriptors, area and bitmap are those the format describes |
| `DecoderForms.BatchIsAcceptedExactly` | mo-sidecar/src/stream_input.cpp:350-389 | a batch is accepted exactly if its row count is a positive 32-bit number, each vector is accepted, attribute names are absent or one per vector, and three zero fields close it; names change nothing |
| `Meaning.DecodesExactly` | mo-sidecar/src/stream_input.cpp:79-108 | the decoder takes exactly the vectors of the kind, width, precision and scale of the schema |
| `HostMemory.CopyHostBytes` | mo-sidecar/src/native_result.cpp:193-208 | the block-by-block copy is a slice of the concatenated blocks, and leaves the rest of the target alone |
| `HostEncoder.ReadNullRows` | mo-sidecar/src/native_result.cpp:251-269 | the nullness of the rows, or failure for a short mask or a null in a required column |
| `HostEncoder.TextRows` | mo-sidecar/src/native_result.cpp:323-355 | the text loop encodes the cells it reads, failing at the first bad offset or an overflowing area |
| `HostEncoder.FixedRows` | mo-sidecar/src/native_result.cpp:357-421 | the fixed-width loop encodes the cells it reads, with narrowing, date shift, widening and rounding |
| `HostEncoder.EncodeHostColumn` | mo-sidecar/src/native_result.cpp:292-422 | encodes exactly the logical rows of the range, or fails exactly when they cannot be read or encoded |
| `HostLayout.LayoutIsRead` | mo-sidecar/src/native_result.cpp:251-422 | for every list of cells, however laid out in memory as element buffer, validity mask, 32- or 64-bit offsets and characters, and every range, the encoded rows are exactly the cells of the range |
| `HostLayout.ReadsStayInside` | mo-sidecar/src/native_result.cpp:251-364 | rows are encoded only if the declared mask, data, offsets and characters cover them: a truncated buffer is refused |
| `HostLayout.NegativeOffsetIsRefused` | mo-sidecar/src/native_result.cpp:314-330 | a negative 32-bit text offset is refused |
| `HostLayout.MeasuresStayInside` | mo-sidecar/src/native_result.cpp:631-670 | the size prediction refuses a truncated mask and truncated offsets too |
| `Meaning.MatchesExactly` | mo-sidecar/src/native_result.cpp:216-249 | the host encoder takes exactly the source types that the target can hold, by kind, width and scale |
| `Meaning.ConversionKeepsValue` | mo-sidecar/src/native_result.cpp:370-421 | a conversion fails exactly if the target has no place for the value, and otherwise the target element stands for the same integer, date or rounded value |
| `Meaning.EncodingFailsExactly` | mo-sidecar/src/native_result.cpp:292-422 | a column cannot be encoded exactly if it is required and has a null, a value has no place in the target, or its long texts exceed 32 bits of area |
| `HostEncoder.AssembleBatch` | mo-sidecar/src/native_result.cpp:424-457 | the assembled bytes are the framed vectors between counts and closing zeros |
| `HostEncoder.EncodeRange` | mo-sidecar/src/native_result.cpp:682-698 | the encoder loop over the columns |
| `HostEncoder.MeasureColumn` | mo-sidecar/src/native_result.cpp:631-677 | what one column adds to the predicted size |
| `HostEncoder.MeasureTable` | mo-sidecar/src/native_result.cpp:609-680 | the predicted size, or failure on overflow |
| `HostTable.SizeBoundsPayload` | mo-sidecar/src/native_result.cpp:609-698 | the payload is never longer than predicted, and as long exactly if no null text row spans more than 23 bytes |
| `Counterexamples.NullTextIsCharged` | mo-sidecar/src/native_result.cpp:650-661 | one null VARCHAR row that spans 24 characters is predicted longer than it is encoded |
| `HostColumn.ColumnSizeBounds` | mo-sidecar/src/native_result.cpp:630-677 | the same for one column |
| `HostTable.SizeGrows` | mo-sidecar/src/native_result.cpp:609-680 | a part of a range is never predicted larger than the range |
| `HostTable.RangeIsChecked` | mo-sidecar/src/native_result.cpp:609-698 | a range is measured exactly if it is not empty, lies in the table and its columns can be measured; only such ranges are encoded |
| `HostTable.AreaFits` | mo-sidecar/src/native_result.cpp:647-662 | offsets telescope, so the area sum never overflows and never exceeds the character buffer |
| `HostTable.ColumnSizeFits` | mo-sidecar/src/native_result.cpp:677-677 | the unchecked per-column sum does not wrap |
| `HostTable.TableRoundTrip` | mo-sidecar/src/native_result.cpp:682-698 | every payload of the host encoder decodes to exactly the rows of its range |
| `ChunkEncoder.EncodeChunkColumn` | mo-sidecar/src/native_result.cpp:112-187 | the single pass over a DuckDB vector encodes exactly its selected rows |
| `HostLayout.SelectionIsRead` | mo-sidecar/src/native_result.cpp:112-170 | the chunk encoder reads, for each row, the element the selection names |
| `ChunkEncoder.EncodeChunkBatch` | mo-sidecar/src/native_result.cpp:474-519 | the two loops of the chunk encoder produce the assembled batch of the encoded columns, or fail exactly when a range, a column or a length does |
| `ChunkEncoder.RangeIsChecked` | mo-sidecar/src/native_result.cpp:474-479 | only a non-empty range inside the chunk, with one schema column per column, is encoded |
| `ChunkEncoder.SameColumn` | mo-sidecar/src/native_result.cpp:112-187 | for the same logical rows, in whatever source width, both encoders produce the same column exactly if every DOUBLE to be rounded has a decimal, or both refuse a null in a required column |
| `ChunkEncoder.SameSourceColumn` | mo-sidecar/src/native_result.cpp:112-187 | for the same source elements both encoders produce the same column exactly if no value is changed by rounding, or both refuse a null in a required column |
| `ChunkEncoder.EncodeBoth` | mo-sidecar/src/native_result.cpp:474-698 | the chunk encoder and the host encoder produce identical payloads for the same logical rows, widened decimals and rounded doubles included |
| `Counterexamples.DoublesAreCopied` | mo-sidecar/src/native_result.cpp:112-187 | on a DOUBLE for a decimal column the chunk encoder copies the bits that the host encoder rounds |
| `Split.Fitting` | mo-sidecar/src/flight_runtime.cpp:316-322 | the halving loop ends with a range that fits, or with a single row that does not; a narrowed range was halved from one that did not fit |
| `Split.ConsumeBatch` | mo-sidecar/src/flight_runtime.cpp:307-330 | published ranges tile the rows before the end, contiguous, non-empty and in order, each payload its encoding and within the limit; publish's size error is unreachable |
| `Split.SplitIsExact` | mo-sidecar/src/flight_runtime.cpp:315-322 | when every range can be measured, and every range that fits can be encoded, an uncancelled split publishes everything exactly if no single row exceeds the limit, else stops at the first that does |
| `Split.TilesAreDisjoint` | mo-sidecar/src/flight_runtime.cpp:314-328 | earlier ranges end before later ones begin |
| `Wire.AppendVarint` | mo-sidecar/src/protocol.cpp:97-103 | appends the base-128 form |
| `Wire.VarintRoundTrip` | mo-sidecar/src/protocol.cpp:64-80 | reading an appended 64-bit value returns it and consumes exactly its bytes |
| `Wire.ReadsUint64` | mo-sidecar/src/protocol.cpp:64-80 | whatever is read fits in 64 bits |
| `Wire.BytesRoundTrip` | mo-sidecar/src/protocol.cpp:82-90 | a length-delimited string is read back exactly if it is within the limit |
| `Wire.Int32Accepted` | mo-sidecar/src/protocol.cpp:234-251 | a value is accepted exactly if it is the sign extension of an int32, and read as that int32 |
| `Wire.WireReader.ReadNumber` | mo-sidecar/src/protocol.cpp:64-80 | the accumulating loop reads the varint at the position and advances past it |
| `Wire.WireReader.ReadText` | mo-sidecar/src/protocol.cpp:82-90 | reads the delimited bytes at the position and advances past them |
| `ExecuteRequest.ParseExecute` | mo-sidecar/src/protocol.cpp:141-204 | the parsing loop is the strict parser |
| `ExecuteRequest.AnyOrderParses` | mo-sidecar/src/protocol.cpp:141-204 | a request written field by field parses to itself exactly if the order is a permutation of the eleven fields and the two identities have their lengths |
| `ExecuteRequest.AcceptedIsSendable` | mo-sidecar/src/protocol.cpp:141-204 | every accepted request respects every limit and survives being rewritten in any order |
| `ExecuteRequest.AcceptedSaysEachField` | mo-sidecar/src/protocol.cpp:141-204 | an accepted request holds under each name what its bytes say under the number of that name |
| `Identities.ReadAllIds` | mo-sidecar/src/protocol.cpp:316-333 | the two-field loop of the upload and cancel parsers |
| `Identities.UploadIsExact` | mo-sidecar/src/protocol.cpp:310-338 | an upload request is accepted exactly in its two canonical forms |
| `Identities.CancelCarriesIdentity` | mo-sidecar/src/protocol.cpp:404-433 | at most one identity, 32 bytes long if and only if the request is 34 bytes long, else empty |
| `Identities.EmptyCancelIsAccepted` | mo-sidecar/src/protocol.cpp:428-431 | an empty identity is accepted |
| `Identities.OversizedTags` | mo-sidecar/src/protocol.cpp:127-137 | high tag bits alias in the execute parser and are refused by the upload and cancel parsers |
| `Counterexamples.AliasedTagIsAccepted` | mo-sidecar/src/protocol.cpp:127-137 | a complete request with bit 35 of a tag set parses as the request; the upload parser refuses such a tag |
| `Canonical.SerializeIsInjective` | mo-sidecar/src/protocol.cpp:105-125 | messages of one shape with equal bytes are equal, although zero and empty fields are omitted |
| `Canonical.EchoMeansSameRead` | mo-sidecar/src/protocol.cpp:469-485 | equal TaeRead bytes exactly for equal reads, which is what the resolver's echo test relies on |
| `Canonical.TaeReadSays` | mo-sidecar/src/protocol.cpp:469-485 | a reader that looks field numbers up in the bytes finds each field of the TaeRead under its own number, the account even when zero |
| `Canonical.WriteTaeRead` | mo-sidecar/src/protocol.cpp:469-485 | the appends produce the canonical bytes |
| `Canonical.StreamReadIsInjective` | mo-sidecar/src/protocol.cpp:487-500 | the same for StreamRead |
| `Canonical.StreamReadSays` | mo-sidecar/src/protocol.cpp:487-500 | the same for StreamRead |
| `Canonical.AckIsInjective` | mo-sidecar/src/protocol.cpp:340-355 | the acknowledgement bytes determine every counter and flag |
| `Canonical.AckSays` | mo-sidecar/src/protocol.cpp:340-355 | the same for the acknowledgement |
| `Envelope.FrameRoundTrip` | mo-sidecar/src/protocol.cpp:357-402 | parsing inverts serializing exactly up to 4 MiB, and refuses larger payloads |
| `Counterexamples.LargeFrameIsRefused` | mo-sidecar/src/protocol.cpp:357-402 | a payload of 4 MiB and one byte is serialized and then refused |
| `Envelope.ParseIsCanonical` | mo-sidecar/src/protocol.cpp:357-383 | every accepted byte string is the serialization of its parse |
| `Envelope.BuildFrame` | mo-sidecar/src/protocol.cpp:385-402 | filling the header in place and appending the payload is the serialization |
| `Admission.ChargeIsIdeal` | mo-sidecar/src/stream_admission.cpp:18-60 | the checked charge is the unbounded one exactly when that and the cost of one read fit in 64 bits |
| `Admission.ChargeIsMonotone` | mo-sidecar/src/stream_admission.cpp:39-60 | the charge grows strictly with the number of inputs |
| `Admission.ChargeCovers` | mo-sidecar/src/stream_admission.cpp:32-60 | the charge covers the unaligned total and wastes less than one alignment unit per buffer |
| `Admission.AdmissionNeverThrows` | mo-sidecar/src/flight_runtime.cpp:871-877 | for every request GetFlightInfo admits nothing overflows, and shrinking from the maximal charge never throws |
| `Leases.Controller.TryAcquire` | mo-sidecar/src/stream_admission.cpp:94-104 | a lease exactly if the bytes fit beside the live leases; current is their sum and at most peak at most capacity |
| `Leases.Lease.Reset` | mo-sidecar/src/stream_admission.cpp:78-84 | returns exactly the lease's bytes: the saturating branch is not taken |
| `Leases.Lease.Shrink` | mo-sidecar/src/stream_admission.cpp:86-92 | shrinks exactly when held and not growing: the controller's error is not taken |
| `Leases.Lease.Move` | mo-sidecar/src/stream_admission.cpp:64-66 | the new lease takes over, the old one is empty, the counts stay |
| `Leases.Lease.MoveAssign` | mo-sidecar/src/stream_admission.cpp:68-76 | releases what was held, takes over the other lease; a self-move changes nothing |

## Left out

- CodecRoundTrip.RoundingKeepsValue: what `long double` arithmetic makes of a DOUBLE (scaling, rounding, finiteness and the magnitude limit) is a parameter, `HostColumn.Column.rounding`; for decimal128 the model refuses a rounded value outside 128 bits, where the source casts without a test, having bounded it by ten to the column's width.
- GPU packing and tier conversion: the host encoder is the one modelled, so the size bound of `Split.ConsumeBatch` is about the host path.
- The native result schema parser: the schema's types are taken as validated, except for the int32 fields (`Wire.Int32Accepted`).
- SHA-256, random tickets, the read resolver's HTTPS client and manifests, the resolve response parser, configuration, TLS, Flight transport and process exit.
- Wall-clock time: deadlines are nondeterministic "expired" and "stopped" answers; no real-time bound is proved.
- `cancel_and_join` and the reaper: they are the cancel steps of the model at arbitrary moments; their waiting and answers are not modelled.
- RegistryInvariants.StepShut: one shutdown is modelled; a second call finds empty maps, and stopping admission alone is the `Stop` step with cancel steps at arbitrary moments.
- ExecutionEntryObject.ExecutionEntry: locking and condition variables are not represented; each method is one critical section and a wait is a step that is not enabled yet.
- RegistryInvariants.OneTicketPerRecord: tickets are assumed fresh among all executions ever constructed; the source draws 32 random bytes and checks only the live entries.
- Execution.StepInv: the worker's GPU-fatal callback before `finish` is over-approximated by cancel steps with that code at any moment.
- HostColumn.ColumnSizeBounds: the sum for one column is not wrapped at 64 bits; `HostTable.ColumnSizeFits` shows that it does not reach them for character buffers up to 2^63 bytes and at most 2^31 - 1 rows.
- HostEncoder.EncodeHostColumn: reads the flat bytes of the allocation (`HostMemory.Flat`), to which `HostMemory.CopyHostBytes` reduces the block-segmented copy; buffer offsets are not wrapped at 64 bits.
- ChunkEncoder.EncodeChunkColumn: needs every valid selected element to lie in its buffer as the encoder reads it, which the source does not test; where DuckDB stores a decimal of small precision narrower, the element read is the bytes at that place.
- UploadHandlers.HandlersLeave: a handler that waits for its client moves when the client sends, ends or disconnects; the call through which a failing handler ends the whole execution is a cancel step of the execution.
- ExecuteRequest.ParseExecute: the `seen` bit mask is a set of field numbers.
- Scan.ScanColumn: one column of the chunk loop; the chunk's columns are filled independently of each other.
