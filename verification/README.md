# A verified model of the AHP tamper-evident chain

The Agent History Protocol records what an agent does in an append-only chain file. Each record is
serialized to canonical bytes, framed with a length and a CRC-32, and linked to the record before
it by SHA-256. This project models that stack in Dafny, from the byte encoding up to guarantees over
whole runs, and proves them for all inputs.

A file is a `seq<byte>`. SHA-256 is an uninterpreted function with 32-byte results; nothing is
assumed about it, so every tamper claim reads "equal, or here are two different messages with one
hash". Text is held as its UTF-8 encoding, and which byte strings decode is left open. I/O outcomes,
clocks, record ids, signatures and the order of concurrent steps are inputs, so each theorem covers
all of them.

The layers, one module per file:

- `Bytes`, `Records`, `Crc32`: integers, record types, and CRC-32 bit by bit, with the table-driven
  loop proved equal to it, its injectivity, and the detection of four-byte bursts.
- `CrcPolynomial`, `CrcCheckValue`: the checksum as the remainder of a polynomial division, and its
  published check value.
- `Canonical`, `Parse`, `Validation`, `Layout`: the serializers as methods on a growing buffer, the
  parsers, round trip and injectivity, which records `validate_record` lets pass and what it does not
  guarantee about them, and where every field stands in the bytes.
- `Frames`: one specification of what a byte string holds (`FramesOf`, `Tail`, `Stop`); the scanners of
  `chain.py`, `recovery.py`, `cli/main.py` and `chain.ts` are all proved against it, as is reading
  files that grow or are cut.
- `Verify`, `Accounting`, `Tamper`: `verify_chain` as a decision procedure for a declarative chain
  predicate; the accounting of every number; joining and splitting chains; tail binding; damage.
- `ChainWriter`, `WriterRuns`, `WriterFields`: the writer class, exactly which writes keep a file
  verifying, and what each record holds.
- `Recovery`, `Startup`: crash recovery from a cut at any byte behind the header, and what the recorder
  does after it.
- `Recorder`, `Segments`, `Batches`, `RecorderCalls`, `RecorderTrace`, `RecorderRuns`: the recorder class;
  the one chain in several files; actions, checkpoint batches and witness records on it; which public calls
  keep it whole, which records each appends and when checkpoints come, one call at a time and over any run.
- `AsyncWriter`: producers, bounded queue, drain task and stop, as a transition system.
- `Merkle`: the root computation against section 2.1 of RFC 6962.
- `TailFollow`, `TsVerify`, `WitnessServer`, `TraceContext`, `CausalTree`: the live tail, the TypeScript
  verifier, the witness's indexes, the tracestate header, and the causal tree display.

## Where the code does less than its documentation says

Each point is a theorem here, stated as an exact condition where one exists.

- A record that fails validation is replaced by a gap record claiming its own number; once it lands
  the file never verifies again (`WriterRuns.ReplacementBreaks`).
- A failed write uses up its sequence number. Behind it a write keeps the file verifying if and only if
  it goes on from the last number on disk, which after an ordinary write only a gap that starts at the
  number used up does (`WriterRuns.AfterDiskError`).
- After a call of `safe_record` that fails, the next accepted gap, if nothing is written in between, makes
  the chain whole again if and only if the call had failed before it took a number, or what failed was the
  flush of a gap already pending (with an error text below four gigabytes, `RecorderCalls.ShortKeepsHash`);
  after a failed action, checkpoint or opening record the chain is past repair
  (`RecorderCalls.FailedCallExact`), since the remembered gap starts one number late
  (`RecorderCalls.ActionGapTooLate`). The disk is not needed for that: validation skips the response time
  and two token counts of an action, and one that does not fit 32 bits raises in `struct.pack`
  (`RecorderCalls.UnpackableAction`, `Validation.ValidatedFits`).
- `emit_checkpoint` and `send_witness_checkpoint` do not flush a pending gap. Called while one is pending,
  a checkpoint or witness record that is accepted takes the number the gap starts with, and the gap then
  puts the chain past repair: such a record keeps the recorder in a good state if and only if no gap is
  pending (`RecorderCalls.CheckpointExact`, `RecorderCalls.ReceiptsExact`, `RecorderCalls.CheckpointBetween`).
- A flushed gap claims one lost number however many calls failed early, and one more for each failed
  flush (`RecorderRuns.OneNumberLost`, `RecorderRuns.GapWidens`).
- A checkpoint's batch begins where its recorder started: records behind the last checkpoint of an earlier
  recorder on the same chain are sealed by no batch (`Startup.RestartsGood`, `RecorderRuns.RecorderRun`),
  and its record count is that of its writer, not of the file (`WriterRuns.CheckpointCounts`).
- Start-up on a chain from which recovery cut something always ends in a file that does not verify;
  it verifies if and only if nothing was cut (`Startup.StartupExact`).
- A restart finds its place from the current file alone. After a crash that leaves a rotated file without a
  whole record, or not yet created, it numbers from one again: the file verifies alone and the chain of all
  files is past repair. The restart is good if and only if no earlier file holds a record or the current
  one does (`Startup.RestartsGood`, `Startup.SegmentCrash`, `Startup.MissingFileLost`).
- A cut inside the header is not reported and never verifies as recovery leaves it
  (`Recovery.HeaderCutKept`); a resumed writer appends behind what is left of the header
  (`Recovery.HeaderCutResumed`).
- The timestamp floor belongs to the writer: over a resumed run the file's timestamps go on rising if and
  only if the first record that lands is no earlier than the last one found (`WriterRuns.ResumedClock`).
- An async writer validates nothing, and a call that raises uses its number up: a landed record keeps the
  file verifying if and only if it is within the readers' limit and accounts for exactly the calls that
  raised right in front of it, an ordinary record for none (`AsyncWriter.LandedExact`,
  `AsyncWriter.FitsSimply`). The async recorder's own pending gap never fits after a failure that took no
  number, because `write_record` does not move the counter (`AsyncWriter.PendingGapFits`).
- An async writer opened on a file that holds records starts at number one again, after which the file
  verifies no more unless the first call raised and the last record's hash is all zeros
  (`AsyncWriter.ExistingFile`). After a failed write the first call of `stop` never completes
  (`AsyncWriter.FailedWriteBlocksStop`).
- A record above the readers' limit is written but never read past (`WriterRuns.AppendExact`).
- `validate_record` leaves key and witness payload sizes unchecked. A validated record is read back if and
  only if its sizes are right, up to a last slice that may be short (`Validation.ValidatedReadBack`), and
  canonical bytes are ambiguous there: for witness records, and for every key record with a public key,
  those of the right sizes included (`Validation.KeySplitAmbiguous`, `Validation.KeyAlwaysAmbiguous`,
  `Validation.WitnessSplitAmbiguous`).
- The Merkle root is that of RFC 6962 exactly for lists whose length is a power of two
  (`Merkle.AgreesWithRfc`); otherwise it is that of a padded list (`Merkle.RootIsPaddedTree`).
- The TypeScript verifier accepts truncated and missing files (`TsVerify.TsAcceptsTruncation`,
  `TsVerify.TsAcceptsMissing`).
- `ahp trace` shows a record if and only if its parent chain reaches a root; two records that point at each
  other are silently left out (`CausalTree.ShownExactly`, `CausalTree.TwoCycleHidden`).
- A witness whose receipts file does not load at start-up gives out second receipts for keys it has stored
  (`WitnessServer.IndexedAtStart`, `WitnessServer.SecondReceipt`).
- `chain.py` names the frame checksum CRC32C in its opening comment; the code computes CRC-32
  (reflected polynomial 0xEDB88320), and the model follows the code.

## Model

| member | source | states |
|---|---|---|
| Crc32.MakeTable | packages/sdk-typescript/src/chain.ts:34-46 | the nested loops fill entry i with eight bit steps of i |
| Crc32.Compute | packages/sdk-typescript/src/chain.ts:52-58 | the table-driven loop computes bit-by-bit reflected CRC-32 on every input |
| Crc32.ByteStepInjective | packages/sdk-typescript/src/chain.ts:52-58 | two registers that agree after the same byte agreed before it |
| Crc32.BurstDetected | ahp/core/chain.py:417-427 | any change confined to four neighbouring bytes changes the checksum, whatever surrounds them |
| CrcPolynomial.CrcIsRemainder | packages/sdk-typescript/src/chain.ts:34-58 | the checksum, complemented and read from its lowest bit up, is the remainder of the message polynomial, with 32 ones in front and 32 zeros behind, by the generator of CRC-32 |
| CrcPolynomial.RemainderDivides | packages/sdk-typescript/src/chain.ts:34-58 | what long division leaves has degree below 32 and differs from the dividend by a multiple of the generator |
| CrcCheckValue.CheckValue | ahp/core/chain.py:318-321 | the checksum of the nine digits "123456789" is 0xCBF43926 |
| Canonical.Serialize | ahp/core/canonical.py:23-59 | canonical_bytes returns the canonical string exactly for records whose values fit their fields, and raises otherwise |
| Canonical.ByteArray.AppendAction | ahp/core/canonical.py:62-92 | appends head and nested authorization entries in order, or raises when a value does not fit |
| Canonical.ByteArray.AppendBoot | ahp/core/canonical.py:117-136 | appends the boot fields around a list of interceptors of any length |
| Layout.LEDigit | ahp/core/canonical.py:166-173 | byte i of an integer is its digit of weight 256^i |
| Layout.StoredLayout | ahp/core/canonical.py:23-38 | every stored record: the ids, time, number and link at their bytes, schema 2, and the code of its type twice |
| Layout.ActionLayout | ahp/core/canonical.py:62-92 | the action payload as one concatenation of its fields and entries |
| Layout.GapLayout | ahp/core/canonical.py:95-100 | the gap payload as one concatenation of its fields |
| Layout.CheckpointLayout | ahp/core/canonical.py:103-114 | the checkpoint payload as one concatenation of its fields |
| Layout.BootLayout | ahp/core/canonical.py:117-136 | the boot payload as one concatenation of its fields, the interceptors behind their number |
| Layout.RecoveryLayout | ahp/core/canonical.py:139-144 | the recovery payload as one concatenation of its fields |
| Layout.KeyLayout | ahp/core/canonical.py:147-151 | the key payload as one concatenation of its fields |
| Layout.WitnessLayout | ahp/core/canonical.py:154-160 | the witness payload as one concatenation of its fields |
| Parse.EnvelopeLayout | ahp/core/canonical.py:23-45 | pins every envelope field to its fixed byte offsets, the type appearing twice, the payload from byte 108 |
| Parse.EnvelopeRefused | ahp/core/chain.py:452-456 | parse_envelope raises exactly for fewer than 108 bytes |
| Parse.EnvelopeRoundTrip | ahp/core/chain.py:452-497 | parsing the envelope of canonical bytes gives back every field |
| Layout.EnvelopeParsed | ahp/core/chain.py:452-497 | of any bytes, parse_envelope takes every field from its own place |
| Layout.GapParsed | ahp/core/chain.py:665-684 | of any bytes, parse_gap_payload returns if and only if 32 bytes and the text are there and decode, with every field from its own place |
| Layout.OldActionRead | ahp/core/chain.py:534-549 | an action of schema version 1 is read with zeros and an empty provider for the five fields it lacks |
| Parse.ReadEntries | ahp/core/chain.py:557-581 | the entry loop reads exactly the counted entries or fails with the first error |
| Parse.ReadTexts | ahp/core/chain.py:617-622 | the interceptor loop reads exactly the counted names or fails with the first error |
| Parse.ParseActionPayload | ahp/core/chain.py:500-607 | the action parser, both schema versions, entries by loop |
| Parse.ParseBootPayload | ahp/core/chain.py:610-662 | the boot parser, interceptors by loop |
| Parse.PayloadRoundTrip | ahp/core/chain.py:500-790 | for each of the seven payload types, parsing the written payload gives back every field and leaves no byte |
| Parse.RecordRoundTrip | ahp/core/canonical.py:23-187 | envelope plus payload parsing inverts canonical_bytes on every well-formed record |
| Parse.CanonicalInjective | ahp/core/canonical.py:23-187 | different well-formed records have different canonical bytes |
| Validation.ValidatedWellFormed | ahp/core/validation.py:49-84 | a validated, encodable record of the current schema is well formed exactly when the sizes that validation skips are right |
| Validation.ValidatedReadBack | ahp/core/chain.py:748-790 | a validated, encodable record is read back unchanged if and only if key and witness sizes are right up to a short last slice |
| Validation.ValidatedFits | ahp/core/validation.py:87-132 | a validated action can be packed if and only if the numbers that validation skips fit their fields |
| Validation.OrdinaryAction | ahp/core/validation.py:87-132 | an action with empty texts passes |
| Validation.ActionTexts | ahp/core/validation.py:90-99 | each text of a passing action can be changed to any within its limit and to no longer one |
| Validation.ActionNumbers | ahp/core/validation.py:100-127 | the same for each number and enum of it |
| Validation.ActionOthers | ahp/core/validation.py:108-113 | the same for its hashes; response time, token counts and the redaction flag may be anything |
| Validation.AuthorizationLimits | ahp/core/validation.py:135-174 | none, one or 2 to 100 entries, as the kind of authorization asks, each passing by itself |
| Validation.EntryLimits | ahp/core/validation.py:157-172 | each field of a passing entry within its limit; only an agent needs an id other than zeros |
| Validation.GapLimits | ahp/core/validation.py:177-187 | a gap passes exactly if its count is that of its range, at least one, and its reason known |
| Validation.BootLimits | ahp/core/validation.py:190-202 | an ordinary boot record passes, and each field of a passing one has exactly its limit |
| Validation.CheckpointLimits | ahp/core/validation.py:205-215 | an ordinary checkpoint passes, and each field of a passing one has exactly its size |
| Validation.RecordLimits | ahp/core/validation.py:49-84 | sizes and signs of the envelope, a known type, which need not be that of the payload, and the payload by itself |
| Validation.Characters | ahp/core/validation.py:158-158 | what len of a string counts: the bytes of ASCII texts, additive over concatenation |
| Validation.KeySplitAmbiguous | ahp/core/validation.py:72-84 | moving the boundary inside a validated key payload gives a different validated record with the same bytes |
| Validation.KeyAlwaysAmbiguous | ahp/core/canonical.py:147-152 | every validated key record with a public key, also one of the right sizes, shares its bytes with another validated one |
| Validation.WitnessSplitAmbiguous | ahp/core/canonical.py:154-160 | the same for the boundary between a witness record's signature and public key |
| Validation.WitnessHead | ahp/core/chain.py:768-790 | number and hash of a witness record are read back whatever the sizes behind them |
| Frames.IterRecords | ahp/core/chain.py:379-429 | yields the frames in front of the first fault and reports which fault, at the offset the reader gives for it |
| Frames.ReadFramesFrom | ahp/cli/main.py:418-446 | from any offset: the whole frames from there on and the offset behind them |
| Frames.IterRecordsTs | packages/sdk-typescript/src/chain.ts:395-448 | yields the same frames, with the table-driven checksum, and stops silently |
| Frames.FramesOfEncoded | ahp/core/chain.py:312-325 | written frames are read back as exactly the records written, and reading goes on behind them |
| Frames.EncodedOfFrames | ahp/core/chain.py:400-429 | any byte string is the encoding of the frames read from it followed by its tail |
| Frames.CleanIff | ahp/core/chain.py:400-429 | reading ends without error if and only if the bytes are an encoding of records |
| Frames.FramesGrow | ahp/cli/main.py:418-446 | scanning a grown file is scanning it before and then going on from the tail |
| Frames.FramesOfCut | ahp/core/recovery.py:63-88 | a file body cut at any byte is read as exactly the frames wholly inside the cut |
| Layout.HeaderLayout | ahp/core/chain.py:159-163 | the header is the magic bytes, version 1 and the time of creation |
| Layout.HeaderRead | ahp/core/chain.py:391-398 | readers look at 16 bytes and the four magic ones, nothing else |
| Layout.FrameLayout | ahp/core/chain.py:318-323 | a frame is length, record and the checksum of both |
| Layout.FrameReadIff | ahp/core/chain.py:405-429 | a written frame is read back if and only if its record has at most 1048576 bytes |
| Tamper.CutReported | ahp/core/chain.py:400-427 | of a file cut at any byte behind the header, which part of the frame is reported missing, and at which offset |
| Verify.CheckRecord | ahp/core/verify.py:52-173 | one round of the loop: which fault is reported, and how, or that there is none |
| Verify.VerifyChain | ahp/core/verify.py:25-192 | the loop computes the verdict of the first bad record, or else of the reader |
| Verify.ValidIff | ahp/core/verify.py:52-192 | valid is returned exactly on files that read to the end and hold a valid chain, with exact counts |
| Verify.InvalidVerdict | ahp/core/verify.py:52-192 | an invalid verdict names the first bad record, all before it good, or the reader's error behind good records |
| Verify.VerdictDetails | ahp/core/verify.py:52-173 | an invalid verdict over a record: the one fault whose condition the first bad record meets, broken_at its number or, without an envelope, its place, and both hashes exactly for a broken link |
| Verify.OneFault | ahp/core/verify.py:52-173 | a record is good exactly if it meets the condition of no fault, and a bad one meets that of one only |
| Verify.RaisedIff | ahp/core/verify.py:118-133 | verify_chain raises exactly where the first bad record is a gap, good up to its number, whose payload cannot be parsed |
| Verify.StoppedDetails | ahp/core/verify.py:175-186 | where the reader stopped: all counts, broken_at behind the last record or none, no hashes, and the cause |
| Verify.SaysAt | ahp/core/chain.py:452-497 | number, link, schema, type and gap of a record stand at fixed places in its bytes |
| Accounting.AccountingExact | ahp/core/verify.py:118-173 | each number 1..S is one record's own or in exactly one gap's range, never both, and nothing else is |
| Accounting.AccountingTotal | ahp/core/verify.py:118-173 | records checked plus the sum of gap counts is the last sequence number |
| Accounting.ConcatValid | ahp/core/verify.py:89-116 | a concatenation is valid exactly if the front is, the seam links and counts on, and the rest is good |
| Accounting.SegmentsJoin | ahp/core/verify.py:36-40 | two verifying segments verify together exactly if the second starts with the hash and number after the first |
| Accounting.SegmentAlone | ahp/core/verify.py:89-101 | a rotated segment of a valid chain verifies alone exactly if it does not start with a gap |
| Tamper.TailBinding | ahp/core/verify.py:89-116 | two verifying chains with the same last record are equal, of whatever lengths, or a collision is exhibited |
| Tamper.FileBinding | ahp/core/verify.py:89-192 | two verifying files with the same last record are byte-equal behind the header, or a collision is exhibited |
| Tamper.ByteFlipDetected | ahp/core/chain.py:417-427 | changing any body or checksum byte of frame k makes readers stop there and verify_chain reject with k records checked |
| Tamper.BurstFlipDetected | ahp/core/verify.py:175-186 | the same for any change confined to four neighbouring body bytes |
| ChainWriter.Chain.constructor | ahp/core/chain.py:41-82 | a missing file gets a header, an existing one is kept; the byte counter is the file size |
| ChainWriter.Chain.NextRecord | ahp/core/chain.py:239-291 | number, timestamp floor and record, or the gap record that replaces one that fails validation |
| ChainWriter.Chain.Append | ahp/core/chain.py:293-343 | state and file after success, after a refused write, and after a value that cannot be packed |
| ChainWriter.Chain.WriteUnlocked | ahp/core/chain.py:235-345 | the whole of _write_record_unlocked as a function of the state before |
| ChainWriter.Chain.WriteRecord | ahp/core/chain.py:165-170 | new state and result of write_record |
| ChainWriter.Chain.WriteGap | ahp/core/chain.py:172-192 | new state and result of write_gap, which moves the counter to the last lost number first |
| ChainWriter.Chain.WriteRecovery | ahp/core/chain.py:194-210 | new state and result of write_recovery |
| ChainWriter.Chain.WriteUnsignedCheckpoint | ahp/core/chain.py:212-233 | new state and result of write_unsigned_checkpoint |
| WriterFields.AttemptFields | ahp/core/chain.py:239-263 | the envelope of the record a write builds: fresh id, the writer's agent, the session and time of the call or else of writer and clock, number, link, schema, type |
| WriterFields.AskedOrReplaced | ahp/core/chain.py:264-291 | its payload is the one asked for exactly if that passes validation or is a gap that says validation failed, else a gap of one, its own number |
| WriterFields.StepState | ahp/core/chain.py:293-343 | the state behind every write, by outcome |
| WriterFields.StoredFields | ahp/core/canonical.py:23-38 | where those values stand in the stored bytes |
| WriterFields.RunIdentity | ahp/core/chain.py:235-345 | over any run, with any failures, every record appended carries the writer's agent id, a session id that is the writer's or was given, and a record id drawn for it |
| WriterFields.FirstRecord | ahp/core/chain.py:41-82 | the first record on a new file, from header to link |
| WriterRuns.RecordSays | ahp/core/chain.py:452-497 | what the verifier reads from a written record is what the writer put in: number, link, type, gap range |
| WriterRuns.AppendExact | ahp/core/verify.py:52-192 | appending keeps a file verifying if and only if the record continues the chain and is within the size limit |
| WriterRuns.StaysBroken | ahp/core/verify.py:52-192 | a file that has stopped verifying never verifies again by growing |
| WriterRuns.StepExact | ahp/core/chain.py:235-345 | the exact condition under which one operation, in any state, keeps the file verifying |
| WriterRuns.RunExact | ahp/core/chain.py:235-345 | after any run with any failures the file verifies if and only if every landed record continued the chain |
| WriterRuns.CleanRun | ahp/core/chain.py:235-345 | clean runs keep counters, hash, number and byte count in step with the file, also from a resumed state |
| WriterRuns.FreshRunVerifies | ahp/core/chain.py:165-345 | after any clean run of a fresh writer verify_chain is valid with the writer's own counters, bytes_written is the file size, and the file holds exactly the records written, in order, read back as they were |
| WriterRuns.CheckpointCounts | ahp/core/chain.py:227-233 | an unsigned checkpoint counts its writer's records and gaps, itself included: those of the file exactly when none were there before; it carries its own link |
| WriterRuns.ClockNeverRegresses | ahp/core/chain.py:241-250 | with default timestamps and a floor at or above what is on disk, the file's timestamps never fall over any run, refused, replaced and oversized writes included |
| WriterRuns.ResumedClock | ahp/core/chain.py:62-68 | over the run of any writer, a resumed one included, the timestamps go on rising if and only if the first new record is no earlier than the last found |
| WriterRuns.ReplacementBreaks | ahp/core/chain.py:264-291 | once a replacement gap lands the file never verifies again |
| WriterRuns.GapExactlyNext | ahp/core/chain.py:172-192 | write_gap on a standing chain keeps it verifying if and only if it starts with the next number and loses at least one |
| WriterRuns.AfterDiskError | ahp/core/chain.py:297-343 | behind any refused operation, an accepted write of any payload keeps the file verifying if and only if it goes on from the last number on disk |
| Recovery.ScanFrames | ahp/core/recovery.py:63-95 | the scan loop finds exactly the whole frames, their end, and the last number that can be parsed |
| Recovery.ScanChain | ahp/core/recovery.py:31-123 | the result of scan_chain for a missing, foreign, clean or damaged file |
| Recovery.LossReported | ahp/core/recovery.py:102-115 | the loss reported: none without a tail, one where no frame is whole or the tail is half an average frame or less, else the number of average frames nearest to it, the even one of two |
| Recovery.EqualFramesLost | ahp/core/recovery.py:102-115 | behind frames of one size, a tail of m such sizes is reported as m lost records |
| Recovery.LastParsedAt | ahp/core/recovery.py:90-94 | the last number is that of the last record whose envelope can be parsed, wherever it is |
| Recovery.NoChainKept | ahp/core/recovery.py:31-62 | a file without a chain header is left alone, reported as no loss, and never verifies; a missing file has the offset of a header |
| Recovery.Disk.Recover | ahp/core/recovery.py:132-142 | recover_chain reports the scan and leaves the file cut at the last whole frame |
| Recovery.RecoveredReads | ahp/core/recovery.py:126-142 | the recovered file reads cleanly and gives the records it gave before |
| Recovery.RecoverIdempotent | ahp/core/recovery.py:132-142 | recovering twice is recovering once, with nothing left to cut |
| Recovery.CutRecovered | ahp/core/recovery.py:63-142 | a cut at any byte behind the header keeps exactly the frames inside it, and a loss is reported exactly off a frame boundary |
| Recovery.HeaderCutKept | ahp/core/recovery.py:31-62 | a cut inside the header is left as it is, reported as no loss, and never verifies |
| Recovery.HeaderCutResumed | ahp/core/chain.py:75-82 | a writer resumed on a cut header appends exactly its frames behind what is left; on an empty file the result is no chain file |
| Recovery.ResumedInSync | ahp/recorder.py:112-139 | a writer resumed from the scan stands at the end of the recovered chain |
| Recovery.CrashCycle | ahp/recorder.py:112-139 | one file, from genesis or rotated: a writer in step, a crash at any byte behind the header, recovery and a resumed run end in step again, the file holding the frames kept and the records of the new run |
| Recovery.CrashAndResume | ahp/recorder.py:112-139 | run, crash at any byte behind the header, recover, resume, run: the file verifies and its records are the kept ones followed by the new ones |
| Startup.StartupExact | ahp/recorder.py:533-555 | after start-up on a valid chain or rotated segment the file verifies if and only if recovery had cut nothing |
| Startup.StartupWrites | ahp/recorder.py:155-164 | what start-up writes: boot, key at level 2 and above, and behind a cut the recovery record and crash gap with the numbers of the scan |
| Startup.ResumedExact | ahp/recorder.py:112-139 | the resumed writer stands at the end of the chain of all files if and only if no earlier file holds a record or the current one does |
| Startup.RestartsGood | ahp/recorder.py:112-160 | a recorder started again on a whole chain is in the state that runs need, its books starting behind the records found, if and only if no earlier file holds a record or the current one does; otherwise the chain is past repair though the file verifies alone |
| Startup.MissingFileLost | ahp/recorder.py:134-141 | a restart before the rotated file exists puts the chain of all files past repair as well |
| Startup.SegmentCrash | ahp/recorder.py:112-139 | a chain in several files, a crash at any byte behind the current header, recovery and a resumed run: whole, with the records kept and the new ones, if and only if no earlier file holds a record or one was kept |
| Recorder.AHPRecorder.FlushPending | ahp/recorder.py:505-531 | writes and tracks the pending gap, at least one number long, and clears the gap fields |
| Recorder.AHPRecorder.WriteCheckpoint | ahp/recorder.py:332-350 | writes the checkpoint over the pending batch and resets it, or leaves it on failure |
| Recorder.AHPRecorder.SendWitnessCheckpoint | ahp/recorder.py:356-435 | writes each receipt untracked with the number and hash read once at the start, swallowing failures, and resets the witness counter |
| Recorder.AHPRecorder.Rotate | ahp/recorder.py:557-590 | at the size limit replaces the writer, on a new or on the old file, and writes the opening records |
| Recorder.AHPRecorder.Record | ahp/recorder.py:242-280 | the locked phase of record_action with every exit |
| Recorder.AHPRecorder.RecordSafely | ahp/recorder.py:439-457 | safe_record: success, or the failure remembered with the number the run of failures starts at |
| Segments.IntactAppend | ahp/core/verify.py:52-192 | appending keeps the chain of all files whole if and only if the record continues it and does not start a rotated file with a gap; otherwise nothing repairs it |
| Segments.WriteExact | ahp/core/chain.py:235-345 | the exact condition under which what lands, at whatever number the writer stands, keeps the chain of all files whole |
| Segments.WriteStrays | ahp/core/chain.py:235-345 | what does not fit puts the chain past repair when it lands, and moves the number past its end when it fails |
| Segments.RotationKeeps | ahp/recorder.py:557-590 | rotation, renamed or not, leaves the records of all files one chain; the writer at its end stays there, one astray stays astray |
| Segments.EachFileVerifies | ahp/core/verify.py:89-101 | the first file of a whole chain verifies from genesis, every later one as a rotated segment |
| RecorderCalls.CheckpointWrite | ahp/_base_recorder.py:265-312 | a checkpoint attests the tracked records since the one before, with chain_hash equal to its own link, and starts a new batch |
| RecorderCalls.ReceiptWrite | ahp/recorder.py:402-429 | a stored receipt names, by number and hash, the record that was sent, and is tracked by no batch |
| RecorderCalls.RecordKeeps | ahp/recorder.py:191-280 | recording an action that fails early or at its flush adds nothing; any other that is fine appends its action once, behind one gap record exactly when a failure was pending |
| RecorderTrace.RecordingWrites | ahp/recorder.py:242-280 | exactly what record_action appends, with every payload: the pending gap, the action, one checkpoint if and only if the batch has reached its interval, witness records if and only if theirs is reached, then, if and only if the file has reached its limit, a new file with the opening records |
| RecorderTrace.RecordingPlaces | ahp/recorder.py:242-280 | the type of every record it appends, by place: at most one checkpoint, right behind the action, exactly when due, and the same for witness records |
| RecorderTrace.CheckpointWrote | ahp/recorder.py:332-350 | every field of the checkpoint payload, and the state behind it |
| RecorderTrace.ReceiptsWrote | ahp/recorder.py:402-429 | one witness record for each receipt given, with the number and hash that were sent and the fields of the receipt |
| RecorderTrace.GenesisWrote | ahp/recorder.py:491-503 | the opening records: boot, and key at level 2 and above |
| RecorderTrace.CallSeals | ahp/recorder.py:242-280 | each fine call keeps batch and witness counter bounded, and its checkpoints seal at least an interval, unless asked for, and at most three records more than that, or than one where it is zero |
| RecorderCalls.CallKeeps | ahp/recorder.py:191-457 | each fine public call, of safe_record, record_action, emit_checkpoint or send_witness_checkpoint, leaves a good state and adds what its mark says |
| RecorderCalls.CallStrays | ahp/recorder.py:191-457 | any other public call, its write refused, replaced, oversized or unpackable, or landed beside a pending gap, leaves the chain past repair or the next record to land puts it there, for good |
| RecorderCalls.CallExact | ahp/recorder.py:191-457 | a public call from a good state leaves a good one if and only if it is fine |
| RecorderCalls.CheckpointExact | ahp/recorder.py:332-350 | an accepted explicit checkpoint keeps a good state good if and only if no gap is pending |
| RecorderCalls.ReceiptsExact | ahp/recorder.py:356-435 | accepted explicit witness records do so as well |
| RecorderCalls.CheckpointBetween | ahp/recorder.py:332-350 | an early failure, an explicit checkpoint, then the gap: the files are whole before the gap and past repair after it |
| RecorderCalls.FlushExact | ahp/recorder.py:505-531 | a pending gap that is accepted makes the chain whole if and only if the state was good, else it puts it past repair |
| RecorderCalls.FailedCallExact | ahp/recorder.py:439-531 | after a call of safe_record that fails, the next accepted gap, with nothing written in between, makes the chain whole if and only if the call failed early or at the flush of a pending gap |
| RecorderCalls.FlushFailsExact | ahp/core/chain.py:293-343 | a flush fails exactly if the disk refuses it, a number does not fit 64 bits, or the error text makes a record of 4 GiB |
| RecorderCalls.KeepsHashExact | ahp/core/chain.py:297-324 | a failed flush keeps the hash unless its numbers fit and its text fits the prefix but not the record, or hashes collide |
| RecorderCalls.ShortKeepsHash | ahp/core/chain.py:293-343 | a failed flush keeps the hash the next record links to, for every error text below four gigabytes |
| RecorderCalls.ActionGapTooLate | ahp/recorder.py:439-457 | the gap remembered for an action that could not be written starts one number late, and flushing it puts the chain past repair |
| RecorderCalls.UnpackableAction | ahp/core/validation.py:87-132 | a validated action with a number that packing refuses throws after its number is taken |
| RecorderRuns.OneNumberLost | ahp/recorder.py:505-522 | the gap flushed after any number of early failures claims one number and carries the last error |
| RecorderRuns.GapWidens | ahp/recorder.py:505-522 | a call that fails at the flush widens the pending gap by one number, one that fails early leaves it |
| RecorderRuns.RecorderExact | ahp/recorder.py:191-590 | after any run of the public calls with any failures the recorder is in a good state if and only if every call was fine, else the chain is past repair or the next record puts it there |
| RecorderRuns.RecorderRun | ahp/recorder.py:191-590 | over any run of fine public calls: every file verifies, one chain, the actions are those that got through, once and in order, one gap per run of remembered failures, batches attested and partitioned, witness records name records in front |
| RecorderRuns.RunSeals | ahp/recorder.py:191-590 | over any run of fine public calls, every checkpoint seals at least the interval, unless a call asks for one, and at most three records more than the interval, or than one where it is zero |
| RecorderRuns.StartsGood | ahp/recorder.py:155-164 | a recorder on a new chain starts in the state these runs need |
| AsyncWriter.InvStep | ahp/core/async_chain.py:83-198 | every step of start, write_record, drain loop and stop keeps the protocol invariant, a put that comes between the last task_done and the wake-up of stop included |
| AsyncWriter.AcceptFields | ahp/core/async_chain.py:131-165 | what write_record takes and stores, field by field, with no validation and no clock floor, and what a record that cannot be packed leaves |
| AsyncWriter.PutWaits | ahp/core/async_chain.py:161-163 | a put waits exactly while a bounded queue is full, and appends |
| AsyncWriter.AsyncIdentity | ahp/core/async_chain.py:131-165 | over every run, every accepted record carries the writer's agent id and a session id that is the writer's or was given |
| AsyncWriter.LandedExact | ahp/core/async_chain.py:131-165 | the first n accepted records are a chain within the limit if and only if each of them accounts for exactly the calls that raised right in front of it |
| AsyncWriter.FitsSimply | ahp/core/async_chain.py:131-165 | an ordinary record does so exactly if no call raised right in front of it, and a gap record never does where none did |
| AsyncWriter.PendingGapFits | ahp/async_recorder.py:253-272 | the async recorder's gap fits if and only if it starts behind the last accepted record and a call has raised since |
| AsyncWriter.ReachableSafe | ahp/core/async_chain.py:83-198 | in every reachable state: disk, in flight, queue and waiting make up the accepted records in order; queue bound; a missing or record-free file verifies, with exactly the records on disk, if and only if those fit |
| AsyncWriter.ExistingFile | ahp/core/async_chain.py:83-91 | a verifying file with records verifies no more once a record has landed, except where the first call raised and the last record's hash is all zeros |
| AsyncWriter.DrainCanStep | ahp/core/async_chain.py:167-190 | while draining some step of the drain task or of stop is always possible |
| AsyncWriter.StopTerminates | ahp/core/async_chain.py:93-121 | every draining run is finite, timeouts with items queued included, and one that cannot go on has stopped with all accepted records on disk |
| AsyncWriter.StopCompletes | ahp/core/async_chain.py:93-121 | stop, called in any state without a failed write, a waiting producer or a record beyond 32 bits, ends in a bounded number of steps with all accepted records on disk |
| AsyncWriter.FailedWriteBlocksStop | ahp/core/async_chain.py:93-190 | after a failed write the first call of stop never completes, whatever happens, later calls of stop included |
| Merkle.ComputeMerkleRoot | ahp/core/signing.py:74-92 | the nested loops compute the level-by-level root, zero for the empty list |
| Merkle.RootIsPaddedTree | ahp/core/signing.py:74-92 | the root of any list is the RFC 6962 tree hash of the padded list, whose length is a power of two |
| Merkle.AgreesWithRfc | ahp/core/signing.py:74-92 | it is the RFC 6962 hash of the list itself exactly if the length is a power of two, else a collision is exhibited |
| Merkle.RootBinding | ahp/core/signing.py:74-92 | two lists share a root exactly if their padded forms are equal, or a collision is exhibited |
| Merkle.EqualLengthBinding | ahp/core/signing.py:74-92 | lists of one length with one root are equal, or a collision is exhibited |
| Merkle.OddLengthAmbiguous | ahp/core/signing.py:88-90 | repeating the last entry of any odd list above one leaves the root unchanged |
| TailFollow.CmdTail | ahp/cli/main.py:485-534 | exits exactly without the magic bytes; else the frames and offset after any sequence of polls, shrunk and unavailable files included |
| TailFollow.PollsReadAll | ahp/cli/main.py:518-534 | over any append-only growth the polls read, frame for frame, what one scan of the file reads |
| TailFollow.PollsUpToDate | ahp/cli/main.py:518-534 | and they have taken in at least the bytes whose size the last poll saw |
| TailFollow.RotationFollowed | ahp/cli/main.py:518-534 | a file seen shorter than the offset is a new one, and the polls from then on read what one scan of it reads |
| TsVerify.VerifyChain | packages/sdk-typescript/src/verify.ts:43-159 | verifyChain decides by the first record it rejects, with both hashes for a broken link, ignoring how reading ended |
| TsVerify.VerifyChainFromBytes | packages/sdk-typescript/src/verify.ts:164-277 | the same function of a list of records, so the two agree on readAll without options |
| TsVerify.TsRejects | packages/sdk-typescript/src/verify.ts:52-150 | a rejection names the first record that is not good by its number, and gives both hashes exactly where they differ |
| TsVerify.TsThrowsIff | packages/sdk-typescript/src/verify.ts:52-150 | it throws exactly where that record is too short for an envelope, or is a linked gap past the next number with too short a payload |
| TsVerify.TsGapParsed | packages/sdk-typescript/src/canonical.ts:482-508 | of any bytes, when parseGapPayload returns and which numbers it takes |
| TsVerify.SameVerdict | packages/sdk-typescript/src/verify.ts:43-159 | for every fault that both look for, Python and TypeScript report the same record, counts and hashes; a short envelope makes TypeScript throw |
| TsVerify.PythonIffTs | packages/sdk-typescript/src/verify.ts:43-159 | Python accepts exactly if TypeScript does, the file reads to its end, and schema, type and gap text are good |
| TsVerify.PythonValidTsValid | packages/sdk-typescript/src/verify.ts:43-159 | what Python accepts TypeScript accepts with the same record and gap counts |
| TsVerify.TsAcceptsTruncation | packages/sdk-typescript/src/verify.ts:53-159 | of a verifying file cut anywhere behind the header TypeScript accepts the rest, Python exactly at a frame boundary |
| TsVerify.TsAcceptsMissing | packages/sdk-typescript/src/chain.ts:395-399 | a missing file is accepted by TypeScript and rejected by Python |
| WitnessServer.Server.constructor | witness/server.py:112-130 | the indexes built at start-up are those of the receipts on disk, or empty where the file does not load |
| WitnessServer.IndexedAtStart | witness/server.py:112-130 | start-up gives the invariant if and only if the file loads or holds no receipt |
| WitnessServer.SecondReceipt | witness/server.py:112-130 | where it had not loaded, a stored key is given a second receipt |
| WitnessServer.Server.Request | witness/server.py:220-284 | the critical section: repeat, failed load, rotation, failed save, success |
| WitnessServer.PostKeepsInv | witness/server.py:220-284 | after every request, failed ones included, the indexes are those of the disk list, one receipt per key, bounded |
| WitnessServer.PostExact | witness/server.py:220-284 | when a request is answered and with which receipt, when the file is archived, and that archives and file together gain exactly the new receipt |
| WitnessServer.RequestsConserve | witness/server.py:220-284 | over any run of requests, archives and file hold what they held and every receipt added, once and in order, each new archive 10000 receipts with different keys |
| WitnessServer.ByIdExact | witness/server.py:118-121 | looking a receipt up by id finds a stored one with that id wherever there is one |
| WitnessServer.IndexExact | witness/server.py:107-127 | a key is indexed exactly if a stored receipt has it, and leads to that receipt |
| WitnessServer.AgentListExact | witness/server.py:122-125 | an agent's list is its receipts in file order and no others |
| WitnessServer.RepeatedRequest | witness/server.py:220-229 | a repeated checkpoint gets the original receipt and changes nothing, whatever came between, until a rotation |
| TraceContext.CreateTracestate | ahp/core/context.py:113-131 | the loop over the existing entries builds the updated header |
| TraceContext.ParseTracestate | ahp/core/context.py:134-143 | the loop decodes the first ahp entry |
| TraceContext.Base64RoundTrip | ahp/core/context.py:70-110 | base64url without padding decodes to what was encoded, for every length |
| TraceContext.Alphabet | ahp/core/context.py:70-84 | the digits are those of the URL-safe alphabet |
| TraceContext.Groups | ahp/core/context.py:70-84 | every group of digits, read in base 64, is the number its bytes spell, short groups at the end included |
| TraceContext.AhpLayout | ahp/core/context.py:70-84 | the entry spells agent id, big-endian number and half the hash, 40 bytes in 54 digits |
| TraceContext.TracestateRoundTrip | ahp/core/context.py:113-143 | what is put into any existing header is parsed out again, with the first 16 bytes of the hash |
| TraceContext.UpdateKeepsOthers | ahp/core/context.py:113-131 | one ahp entry in front, every other entry kept in order |
| TraceContext.UpdateReplaces | ahp/core/context.py:113-131 | a second update replaces the first |
| TraceContext.UpdatedAnywhere | ahp/core/context.py:113-131 | an update takes the ahp entry out wherever it stood, keeps all others in order, and puts the new one in front |
| TraceContext.FirstAhpAt | ahp/core/context.py:134-143 | the entry decoded is the first that starts with ahp=, wherever it stands; without one there is none |
| TraceContext.ParsedAnywhere | ahp/core/context.py:134-143 | what another participant put behind any other entries is parsed out |
| TraceContext.ParsedNowhere | ahp/core/context.py:134-143 | a header without an ahp entry gives nothing |
| TraceContext.StripPadded | ahp/core/context.py:122-124 | stripping takes off the spaces at both ends and nothing else |
| CausalTree.BuildMaps | ahp/cli/main.py:309-332 | the maps describe children and roots of the session |
| CausalTree.TraceTree | ahp/cli/main.py:336-360 | the recursion terminates in every session with distinct ids and prints the tree below a record |
| CausalTree.CmdTrace | ahp/cli/main.py:309-365 | cmd_trace prints the display of the whole session, whatever the parent pointers are |
| CausalTree.ShownExactly | ahp/cli/main.py:315-365 | a record is displayed once if its parent chain reaches a root, and not at all otherwise |
| CausalTree.TwoCycleHidden | ahp/cli/main.py:315-365 | two records that point at each other are never displayed |
| CausalTree.ShownOnce | ahp/cli/main.py:315-365 | with pointers to earlier or foreign records every record is displayed exactly once |
| CausalTree.TreeTogether | ahp/cli/main.py:336-360 | the tree below a record is one stretch of the display, the record itself first |
| CausalTree.DisplayOrder | ahp/cli/main.py:336-360 | a parent is displayed in front of its children, and siblings in the order of their numbers |
| CausalTree.RootOrder | ahp/cli/main.py:315-365 | roots are displayed in the order of their numbers |
| CausalTree.SpansPointBack | ahp/tracing.py:85-104 | any nesting of spans, with any failures: every pointer that no caller gave leads to an earlier action or is zero |
| CausalTree.SpanPointer | ahp/tracing.py:85-104 | after any history, an action points where its caller says, else to the first action that the span around it returned, else to zero |
| CausalTree.SpansDisplayed | ahp/tracing.py:85-104 | every action recorded through spans is displayed exactly once if callers give no pointer to an action still to come |

## Left out

- Canonical.Serialize: runs of appends without branches are written as one field table per payload rather than one statement per field.
- Parse.ParseActionPayload: an offset into the payload is represented by the unread rest; where an offset has run past the end the rest is empty, with the same errors.
- Verify.VerifyChain: the records are read before the loop instead of one per round, which is not observable; error texts are constructors.
- ChainWriter.Chain.Append: file locks, fsync modes, handle reopening, a failure of fsync after a completed write, and writes that land in part, where it would depend on CRC-32 coincidences whether later bytes complete a torn frame.
- Recovery.LossReported: the loss estimate divides exactly where the source divides floats.
- Recorder.AHPRecorder.Rotate: a second rotation within one second reuses the segment name and overwrites the older segment; names are taken as distinct here. An exception from opening the new writer (lock, header or handle) is no outcome.
- Recorder.AHPRecorder.Record: PII filters, evidence storage, pricing and the record callback come before or beside the state and appear only as a failure before the lock.
- RecorderRuns.RecorderExact: error texts of four gigabytes, whose gap record would change the hash without being written, and receipt fields above 256 MiB are excluded for whole runs; FailedCallExact and KeepsHashExact cover such texts for one call. Writes through the exposed `chain` property and calls after `close` are no steps.
- AsyncWriter.ReachableSafe: cancelled producers, calls of start that overlap another one, a stop or an abandoned write, and records accepted before start (which are dropped) are outside its guarantee.
- `ahp/async_recorder.py`: its checkpoints and its gap are calls of write_record, and only the gap is stated here (PendingGapFits).
- WitnessServer.Server.Request: HTTP, client signatures and archive pruning; a receipt's other fields are one opaque value, and loading gives back what was saved.
- TraceContext.ParseTracestate: the decoder is strict as in RFC 4648, where Python's skips characters outside the alphabet.
- CausalTree.TraceTree: Python's recursion limit, which ends the display of a very deep parent chain with an exception.
- CausalTree.CmdTrace: the text of each line, and selection of the session by prefix.
- Ed25519, SHA-256 and UTF-8 internals, random ids and clocks: uninterpreted functions or arbitrary inputs.
- `recorder.ts`, `recovery.ts`, `signing.ts`, `canonical.ts` and the TypeScript writer: mirrors of the Python that would repeat the same proofs.
- `read_range`, `read_all`, `count`, traceparent, `cmd_show` and `cmd_gaps`: easy members beside the ones modelled.
- Filters, presets, configuration, pricing, interceptors, exporters and the viewer: no state of the chain.
