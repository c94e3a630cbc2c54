/** Writer and verifier together: exactly which writes keep a chain file verifying, over any run. */
module WriterRuns {
  import opened Bytes
  import opened Records
  import opened Canonical
  import opened Parse
  import opened Validation
  import opened Frames
  import opened Verify
  import opened Accounting
  import opened ChainWriter

  // ------------------------------------------------------- what a written record says

  /** A record as the writer builds it: full-size ids and hash, current schema, matching type. */
  predicate Built(r: Record) {
    && |r.recordId| == 16 && |r.agentId| == 16 && |r.sessionId| == 16 && |r.prevHash| == 32
    && r.schemaVersion == SCHEMA_VERSION && r.recordType == TypeOf(r.payload)
  }

  lemma BuiltEnvelope(r: Record)
    requires Built(r) && Fit(EnvelopeFields(r))
    ensures EnvelopeWellFormed(r)
  {
    var fs := EnvelopeFields(r);
    assert forall i :: 0 <= i < |fs| ==> FieldFits(fs[i]);
  }

  /** The verifier reads from the stored bytes what the writer put into the record. */
  lemma RecordSays(r: Record)
    requires Built(r) && Encodable(r)
    ensures var s := CanonicalBytes(r);
      && RecordOk(s) && SeqOf(s) == r.sequence && PrevHashOf(s) == r.prevHash && TypeFieldOf(s) == r.recordType
      && (IsGap(s) <==> r.payload.Gap?)
      && (r.payload.Gap? ==> GapIn(s) == Ok(r.payload.gap, []))
  {
    hide ParseEnvelope, ParseGap, CanonicalBytes, EnvelopeWellFormed, PayloadFits, GapFields, Fit;
    BuiltEnvelope(r);
    EnvelopeRoundTrip(r);
    if r.payload.Gap? {
      GapSays(r.payload.gap);
    }
  }

  lemma GapSays(g: GapPayload)
    requires PayloadFits(Gap(g))
    ensures ParseGap(PayloadBytes(Gap(g))) == Ok(g, [])
  {
    hide Encode, ParseGap;
    GapExact(g);
    GapRoundTrip(g);
  }

  // --------------------------------------------------------------- appending a frame

  lemma SnocValid(records: seq<bytes>, s: bytes, anyStart: bool)
    ensures ValidChain(records + [s], anyStart)
      <==> ValidChain(records, anyStart) && GoodAt(records + [s], |records|, anyStart)
  {
    hide GoodAt;
    forall i | 0 <= i < |records|
      ensures GoodAt(records + [s], i, anyStart) == GoodAt(records, i, anyStart)
    {
      ConcatAt(records, [s], i, anyStart);
    }
  }

  /** A frame behind a clean file is read as one more record. */
  lemma AppendedReads(file: bytes, s: bytes)
    requires ReadsClean(Some(file)) && |s| <= MAX_RECORD_SIZE
    ensures ReadsClean(Some(file + Frame(s))) && Readable(Some(file + Frame(s))) == Readable(Some(file)) + [s]
  {
    hide ReadFrame, Frame;
    var body := Body(file);
    assert Body(file + Frame(s)) == body + Frame(s) && (file + Frame(s))[..4] == file[..4];
    FramesGrow(body, Frame(s));
    EncodedOfFrames(body);
    assert Tail(body) == [] && [] + Frame(s) == Frame(s) == Frame(s) + [];
    FramesCons(s, []);
  }

  lemma OversizedAhead(s: bytes, more: bytes)
    requires MAX_RECORD_SIZE < |s| <= MAX_UINT32
    ensures ReadFrame(Frame(s) + more) == Broken(Oversized)
  {
    hide LE, FromLE, Crc32.Crc;
    U32RoundTrip(|s|);
    assert (Frame(s) + more)[..4] == U32(|s|);
  }

  /** Once a record above the limit is in the file, readers never get past it again. */
  lemma OversizedStays(file: bytes, s: bytes, more: bytes)
    requires ReadsClean(Some(file)) && MAX_RECORD_SIZE < |s| <= MAX_UINT32
    ensures !ReadsClean(Some(file + Frame(s) + more))
  {
    hide ReadFrame, Frame;
    var body, rest := Body(file), Frame(s) + more;
    assert Body(file + Frame(s) + more) == body + rest;
    FramesGrow(body, rest);
    EncodedOfFrames(body);
    assert Tail(body) == [] && [] + rest == rest;
    OversizedAhead(s, more);
  }

  // ------------------------------------------------------------- the exact condition

  /** The number the verifier expects next, for a record with this sequence number. */
  function NextExpected(records: seq<bytes>, sequence: int, anyStart: bool): int {
    if records != [] then SeqOf(records[|records| - 1]) + 1 else if anyStart then sequence else 1
  }

  predicate SequenceRule(records: seq<bytes>, r: Record, anyStart: bool) {
    var expected := NextExpected(records, r.sequence, anyStart);
    match r.payload
    case Gap(g) =>
      r.sequence > expected && g.firstLost == expected && g.lastLost == r.sequence - 1
        && g.count == g.lastLost - g.firstLost + 1
    case _ => r.sequence == expected
  }

  predicate LinkRule(records: seq<bytes>, prevHash: bytes, anyStart: bool) {
    if records != [] then prevHash == Sha256(records[|records| - 1]) else anyStart || prevHash == ZERO_HASH_32
  }

  /** The condition on an appended record, in terms of the records already on disk. */
  predicate Continues(records: seq<bytes>, r: Record, anyStart: bool) {
    && |CanonicalBytes(r)| <= MAX_RECORD_SIZE
    && LinkRule(records, r.prevHash, anyStart)
    && SequenceRule(records, r, anyStart)
  }

  lemma GoodIffContinues(records: seq<bytes>, r: Record, anyStart: bool)
    requires Built(r) && Encodable(r) && |CanonicalBytes(r)| <= MAX_RECORD_SIZE
    ensures GoodAt(records + [CanonicalBytes(r)], |records|, anyStart) <==> Continues(records, r, anyStart)
  {
    hide CanonicalBytes, RecordOk, Encodable, ParseEnvelope, ParseGap;
    RecordSays(r);
    hide SeqOf, PrevHashOf, IsGap, GapIn;
  }

  /** Appending a record to a verifying file keeps it verifying if and only if the record continues
      the chain on disk and is not above the readers' size limit. */
  lemma AppendExact(file: bytes, r: Record, anyStart: bool)
    requires Verifies(Some(file), anyStart) && Built(r) && Encodable(r) && |CanonicalBytes(r)| <= MAX_UINT32
    ensures Verifies(Some(file + Frame(CanonicalBytes(r))), anyStart) <==> Continues(Readable(Some(file)), r, anyStart)
    ensures |CanonicalBytes(r)| <= MAX_RECORD_SIZE
      ==> Readable(Some(file + Frame(CanonicalBytes(r)))) == Readable(Some(file)) + [CanonicalBytes(r)]
  {
    hide CanonicalBytes, Frame, GoodAt, Built, Encodable, ReadsClean, Readable, LinkRule, SequenceRule, ValidChain;
    var s, records := CanonicalBytes(r), Readable(Some(file));
    if |s| <= MAX_RECORD_SIZE {
      AppendedReads(file, s);
      SnocValid(records, s, anyStart);
      GoodIffContinues(records, r, anyStart);
    } else {
      OversizedStays(file, s, []);
      assert file + Frame(s) + [] == file + Frame(s);
    }
  }

  /** A file that has stopped verifying never verifies again by growing. */
  lemma StaysBroken(file: bytes, s: bytes, more: bytes, anyStart: bool)
    requires Verifies(Some(file), anyStart) && |s| <= MAX_UINT32
    requires !Verifies(Some(file + Frame(s)), anyStart)
    ensures !Verifies(Some(file + Frame(s) + more), anyStart)
  {
    hide ReadFrame, Frame, GoodAt, ValidChain;
    if |s| <= MAX_RECORD_SIZE {
      AppendedReads(file, s);
      var grown := file + Frame(s);
      assert Body(grown + more) == Body(grown) + more && (grown + more)[..4] == grown[..4];
      FramesGrow(Body(grown), more);
      var records, all := Readable(Some(grown)), Readable(Some(grown + more));
      assert all[..|records|] == records;
      if ValidChain(all, anyStart) {
        PrefixValid(all, |records|, anyStart);
      }
    } else {
      OversizedStays(file, s, more);
    }
  }

  // ------------------------------------------------------------------------- one step

  predicate Ids(w: Writer) { |w.agentId| == 16 && |w.sessionId| == 16 }

  /** Ids given to an operation have the size of an id. */
  predicate Sized(op: Op, env: World) {
    && |env.recordId| == 16
    && (SessionFor(op).Some? ==> |SessionFor(op).value| in {0, 16})
  }

  /** The record that a step tries to append. */
  function Attempt(w: Writer, op: Op, env: World): Record {
    Candidate(Taken(Positioned(w, op), TimestampFor(op), env), PayloadFor(w, op), SessionFor(op), env)
  }

  lemma AttemptBuilt(w: Writer, op: Op, env: World)
    requires Ids(w) && Sized(op, env)
    ensures Built(Attempt(w, op, env))
  {
    hide Passes;
  }

  /** What a step does to the file, and the state it leaves behind. */
  lemma StepEffect(w: Writer, op: Op, env: World)
    ensures var (v, result) := Step(w, op, env); var r := Attempt(w, op, env);
      && v.agentId == w.agentId && v.sessionId == w.sessionId
      && v.sequence == Positioned(w, op).sequence + 1 == r.sequence && r.prevHash == w.prevHash
      && (result.Written? <==> Encodable(r) && |CanonicalBytes(r)| <= MAX_UINT32 && env.diskOk)
      && (result.Written? ==>
            && v.file == w.file + Frame(CanonicalBytes(r)) && v.prevHash == Sha256(CanonicalBytes(r))
            && v.recordCount == w.recordCount + 1
            && v.gapCount == w.gapCount + (if r.recordType == GAP then 1 else 0)
            && v.bytesWritten == w.bytesWritten + |Frame(CanonicalBytes(r))|)
      && (!result.Written? ==> v.file == w.file && v.bytesWritten == w.bytesWritten)
      && (result.OsError? ==> v.prevHash == w.prevHash && v.recordCount == w.recordCount && v.gapCount == w.gapCount)
  {
    hide Passes, Encodable, CanonicalBytes, Frame, TypeOf, PayloadFor;
  }

  /** The exact condition on one step: what lands must continue the chain on disk. */
  predicate KeepsVerifying(w: Writer, op: Op, env: World, anyStart: bool) {
    Step(w, op, env).1.Written? ==> Continues(Readable(Some(w.file)), Attempt(w, op, env), anyStart)
  }

  lemma StepExact(w: Writer, op: Op, env: World, anyStart: bool)
    requires Ids(w) && Sized(op, env) && Verifies(Some(w.file), anyStart)
    ensures Verifies(Some(Step(w, op, env).0.file), anyStart) <==> KeepsVerifying(w, op, env, anyStart)
  {
    hide Step, Attempt, Continues, Verifies, Built, Encodable, CanonicalBytes, Frame, Sized, Ids, Readable;
    StepEffect(w, op, env);
    if Step(w, op, env).1.Written? {
      AttemptBuilt(w, op, env);
      AppendExact(w.file, Attempt(w, op, env), anyStart);
    }
  }

  // ------------------------------------------------------------------------ whole runs

  function Run(w: Writer, ops: seq<(Op, World)>): Writer
    decreases |ops|
  {
    if ops == [] then w else Run(Step(w, ops[0].0, ops[0].1).0, ops[1..])
  }

  predicate AllSized(ops: seq<(Op, World)>) {
    forall i :: 0 <= i < |ops| ==> Sized(ops[i].0, ops[i].1)
  }

  predicate AllKeep(w: Writer, ops: seq<(Op, World)>, anyStart: bool)
    decreases |ops|
  {
    ops == [] ||
    (KeepsVerifying(w, ops[0].0, ops[0].1, anyStart) && AllKeep(Step(w, ops[0].0, ops[0].1).0, ops[1..], anyStart))
  }

  lemma {:induction false} RunExtends(w: Writer, ops: seq<(Op, World)>)
    ensures w.file <= Run(w, ops).file
    decreases |ops|
  {
    hide Step;
    if ops != [] {
      hide Attempt, Frame, CanonicalBytes, Encodable;
      StepEffect(w, ops[0].0, ops[0].1);
      RunExtends(Step(w, ops[0].0, ops[0].1).0, ops[1..]);
    }
  }

  /** After any run, with any failures, the file verifies if and only if every step that landed
      continued the chain. */
  lemma {:induction false} RunExact(w: Writer, ops: seq<(Op, World)>, anyStart: bool)
    requires Ids(w) && AllSized(ops) && Verifies(Some(w.file), anyStart)
    ensures Verifies(Some(Run(w, ops).file), anyStart) <==> AllKeep(w, ops, anyStart)
    decreases |ops|
  {
    hide Step, KeepsVerifying, Verifies, Sized, Attempt, CanonicalBytes, Frame, Encodable, Built;
    if ops != [] {
      var op, env := ops[0].0, ops[0].1;
      var v := Step(w, op, env).0;
      assert Sized(op, env);
      StepExact(w, op, env, anyStart);
      StepEffect(w, op, env);
      if Verifies(Some(v.file), anyStart) {
        RunExact(v, ops[1..], anyStart);
      } else {
        RunExtends(v, ops[1..]);
        var final := Run(v, ops[1..]).file;
        assert final == v.file + final[|v.file|..];
        StaysBroken(w.file, CanonicalBytes(Attempt(w, op, env)), final[|v.file|..], anyStart);
      }
    }
  }

  // ---------------------------------------------------------------------- clean runs

  /** The file verifies and the writer stands at its end. */
  predicate Stands(w: Writer, anyStart: bool) {
    var records := Readable(Some(w.file));
    && Ids(w) && Verifies(Some(w.file), anyStart)
    && (if records != [] then
          w.sequence == SeqOf(records[|records| - 1]) && w.prevHash == Sha256(records[|records| - 1])
        else anyStart || (w.sequence == 0 && w.prevHash == ZERO_HASH_32))
  }

  /** Memory and file agree; n and g are the records and gaps that were there before this writer. */
  predicate InSync(w: Writer, anyStart: bool, n: nat, g: nat) {
    && Stands(w, anyStart)
    && |Readable(Some(w.file))| == n + w.recordCount && GapCount(Readable(Some(w.file))) == g + w.gapCount
    && w.bytesWritten == |w.file|
  }

  /** The disk works, the payload is validated and fits, and the record is within the size limit. */
  predicate Accepted(w: Writer, op: Op, env: World) {
    && Sized(op, env) && env.diskOk
    && Attempt(w, op, env).payload == PayloadFor(w, op)
    && Encodable(Attempt(w, op, env)) && |CanonicalBytes(Attempt(w, op, env))| <= MAX_RECORD_SIZE
  }

  /** Gap records are written by write_gap only, begin right behind the current number and lose at
      least one. */
  predicate InPlace(w: Writer, op: Op) {
    && (op.WriteRecord? ==> !op.payload.Gap?)
    && (op.WriteGap? ==> op.first == w.sequence + 1 <= op.last)
  }

  /** An accepted write in its place; a rotated segment does not start with a gap. */
  predicate Clean(w: Writer, op: Op, env: World, anyStart: bool) {
    && Accepted(w, op, env) && InPlace(w, op)
    && (op.WriteGap? && anyStart ==> Readable(Some(w.file)) != [])
  }

  lemma CleanContinues(w: Writer, op: Op, env: World, anyStart: bool, n: nat, g: nat)
    requires InSync(w, anyStart, n, g) && Clean(w, op, env, anyStart)
    ensures Continues(Readable(Some(w.file)), Attempt(w, op, env), anyStart)
  {
    hide CanonicalBytes, Encodable, Verifies, Readable, Passes, SeqOf, GapCount, Attempt, Frame, Zeros;
    StepEffect(w, op, env);
  }

  lemma GapCountLast(records: seq<bytes>, s: bytes)
    ensures GapCount(records + [s]) == GapCount(records) + if IsGap(s) then 1 else 0
  {
    hide IsGap;
    assert (records + [s])[..|records|] == records;
  }

  /** Memory follows the file when a record that continues the chain is appended. */
  lemma SyncAppended(w: Writer, v: Writer, r: Record, anyStart: bool, n: nat, g: nat)
    requires InSync(w, anyStart, n, g) && Built(r) && Encodable(r)
    requires Continues(Readable(Some(w.file)), r, anyStart)
    requires v.agentId == w.agentId && v.sessionId == w.sessionId && v.sequence == r.sequence
    requires v.file == w.file + Frame(CanonicalBytes(r)) && v.prevHash == Sha256(CanonicalBytes(r))
    requires v.recordCount == w.recordCount + 1 && v.gapCount == w.gapCount + if r.payload.Gap? then 1 else 0
    requires v.bytesWritten == w.bytesWritten + |Frame(CanonicalBytes(r))|
    ensures InSync(v, anyStart, n, g)
  {
    hide CanonicalBytes, Encodable, Verifies, Readable, SeqOf, IsGap, Frame, SequenceRule, LinkRule, GapCount, Built;
    RecordSays(r);
    AppendExact(w.file, r, anyStart);
    GapCountLast(Readable(Some(w.file)), CanonicalBytes(r));
  }

  lemma SyncIds(w: Writer, anyStart: bool, n: nat, g: nat)
    requires InSync(w, anyStart, n, g)
    ensures Ids(w)
  {
  }

  lemma CleanStep(w: Writer, op: Op, env: World, anyStart: bool, n: nat, g: nat)
    requires InSync(w, anyStart, n, g) && Clean(w, op, env, anyStart)
    ensures Step(w, op, env).1.Written? && InSync(Step(w, op, env).0, anyStart, n, g)
  {
    hide InSync, Attempt, CanonicalBytes, Encodable, Step, Frame, Continues, PayloadFor, Readable;
    CleanContinues(w, op, env, anyStart, n, g);
    StepEffect(w, op, env);
    SyncIds(w, anyStart, n, g);
    AttemptBuilt(w, op, env);
    SyncAppended(w, Step(w, op, env).0, Attempt(w, op, env), anyStart, n, g);
  }

  predicate AllClean(w: Writer, ops: seq<(Op, World)>, anyStart: bool)
    decreases |ops|
  {
    ops == [] ||
    (Clean(w, ops[0].0, ops[0].1, anyStart) && AllClean(Step(w, ops[0].0, ops[0].1).0, ops[1..], anyStart))
  }

  lemma {:induction false} CleanRun(w: Writer, ops: seq<(Op, World)>, anyStart: bool, n: nat, g: nat)
    requires InSync(w, anyStart, n, g) && AllClean(w, ops, anyStart)
    ensures InSync(Run(w, ops), anyStart, n, g)
    decreases |ops|
  {
    hide InSync, Clean, Step;
    if ops != [] {
      CleanStep(w, ops[0].0, ops[0].1, anyStart, n, g);
      CleanRun(Step(w, ops[0].0, ops[0].1).0, ops[1..], anyStart, n, g);
    }
  }

  /** The records that a run writes, in order. */
  function WrittenRecords(w: Writer, ops: seq<(Op, World)>): seq<Record>
    decreases |ops|
  {
    if ops == [] then []
    else
      var (v, result) := Step(w, ops[0].0, ops[0].1);
      (if result.Written? then [result.record] else []) + WrittenRecords(v, ops[1..])
  }

  function StoredForms(records: seq<Record>): seq<bytes> {
    seq(|records|, i requires 0 <= i < |records| => CanonicalBytes(records[i]))
  }

  /** Whatever happens, a run appends exactly the frames of the records it writes. */
  lemma {:induction false} RunAppends(w: Writer, ops: seq<(Op, World)>)
    ensures Run(w, ops).file == w.file + EncodeFrames(StoredForms(WrittenRecords(w, ops)))
    decreases |ops|
  {
    hide Step, Attempt, CanonicalBytes, Encodable, Frame;
    if ops == [] {
      assert w.file + [] == w.file;
    } else {
      var (v, result) := Step(w, ops[0].0, ops[0].1);
      StepEffect(w, ops[0].0, ops[0].1);
      RunAppends(v, ops[1..]);
      var later := WrittenRecords(v, ops[1..]);
      if result.Written? {
        StepRecord(w, ops[0].0, ops[0].1);
        assert StoredForms([result.record] + later)[0] == CanonicalBytes(result.record);
        assert StoredForms([result.record] + later)[1..] == StoredForms(later);
        Associate(w.file, Frame(CanonicalBytes(result.record)), EncodeFrames(StoredForms(later)));
      } else {
        assert [] + later == later;
      }
    }
  }

  lemma StepRecord(w: Writer, op: Op, env: World)
    requires Step(w, op, env).1.Written?
    ensures Step(w, op, env).1.record == Attempt(w, op, env)
  {
    hide Passes, Encodable, CanonicalBytes, Frame, TypeOf, PayloadFor;
  }

  /** A record that the writer did not replace is read back where its sizes allow it. */
  lemma WrittenReadBack(w: Writer, op: Op, env: World)
    requires Ids(w) && Sized(op, env) && Encodable(Attempt(w, op, env)) && ReadBackSizes(Attempt(w, op, env).payload)
    ensures ReadRecord(CanonicalBytes(Attempt(w, op, env))) == Some(Attempt(w, op, env))
  {
    hide CanonicalBytes, Encodable, ReadRecord, ReadBackSizes, Passes, TypeOf;
    AttemptBuilt(w, op, env);
    var r := Attempt(w, op, env);
    if r.payload.Gap? {
      GapReadBack(r);
    } else {
      ValidatedReadBack(r);
    }
  }

  lemma GapReadBack(r: Record)
    requires Built(r) && Encodable(r) && r.payload.Gap?
    ensures ReadRecord(CanonicalBytes(r)) == Some(r)
  {
    hide CanonicalBytes, ReadRecord, Fit, EnvelopeFields, EnvelopeWellFormed, GapFields, AllExact;
    BuiltEnvelope(r);
    GapExact(r.payload.gap);
    RecordRoundTrip(r);
  }

  /** A clean run puts the records it writes on disk, in order and one for each operation, and
      reading gives each of them back as it was where its sizes allow it. */
  lemma {:induction false} CleanRunRecords(w: Writer, ops: seq<(Op, World)>, anyStart: bool, n: nat, g: nat)
    requires InSync(w, anyStart, n, g) && AllClean(w, ops, anyStart)
    ensures var written := WrittenRecords(w, ops);
      && |written| == |ops|
      && Readable(Some(Run(w, ops).file)) == Readable(Some(w.file)) + StoredForms(written)
      && forall i :: 0 <= i < |written| && ReadBackSizes(written[i].payload) ==>
           ReadRecord(CanonicalBytes(written[i])) == Some(written[i])
    decreases |ops|
  {
    hide InSync, Clean, Step, Readable, CanonicalBytes, ReadRecord, ReadBackSizes;
    if ops == [] {
      assert Readable(Some(w.file)) + [] == Readable(Some(w.file));
    } else {
      var op, env := ops[0].0, ops[0].1;
      CleanStep(w, op, env, anyStart, n, g);
      CleanStepRecord(w, op, env, anyStart, n, g);
      var v := Step(w, op, env).0;
      CleanRunRecords(v, ops[1..], anyStart, n, g);
      var first, later := Step(w, op, env).1.record, WrittenRecords(v, ops[1..]);
      assert StoredForms([first] + later) == [CanonicalBytes(first)] + StoredForms(later);
      assert WrittenRecords(w, ops) == [first] + later;
    }
  }

  lemma CleanStepRecord(w: Writer, op: Op, env: World, anyStart: bool, n: nat, g: nat)
    requires InSync(w, anyStart, n, g) && Clean(w, op, env, anyStart)
    ensures var (v, result) := Step(w, op, env);
      && result.Written? && Readable(Some(v.file)) == Readable(Some(w.file)) + [CanonicalBytes(result.record)]
      && (ReadBackSizes(result.record.payload) ==> ReadRecord(CanonicalBytes(result.record)) == Some(result.record))
  {
    hide InSync, Step, Attempt, Encodable, CanonicalBytes, Frame, Readable, ReadsClean, ReadRecord, ReadBackSizes,
      PayloadFor, Sized;
    SyncIds(w, anyStart, n, g);
    CleanReads(w, anyStart, n, g);
    StepEffect(w, op, env);
    StepRecord(w, op, env);
    AppendedReads(w.file, CanonicalBytes(Attempt(w, op, env)));
    if ReadBackSizes(Attempt(w, op, env).payload) {
      WrittenReadBack(w, op, env);
    }
  }

  lemma CleanReads(w: Writer, anyStart: bool, n: nat, g: nat)
    requires InSync(w, anyStart, n, g)
    ensures ReadsClean(Some(w.file))
  {
    hide ValidChain, SeqOf, GapCount;
  }

  lemma HeaderVerifies(createdMs: nat, anyStart: bool)
    ensures Verifies(Some(Header(createdMs)), anyStart) && Readable(Some(Header(createdMs))) == []
  {
    hide LE;
    assert Body(Header(createdMs)) == [];
    assert Header(createdMs)[..4] == MAGIC;
  }

  /** From a fresh writer, after any run of clean writes, verify_chain accepts the file and reports
      the writer's own counters, the byte counter is the size of the file, and the file holds exactly
      the records written, in order, each read back as it was where its sizes allow it. */
  lemma FreshRunVerifies(agentId: bytes, sessionId: bytes, createdMs: nat, ops: seq<(Op, World)>)
    requires |agentId| == 16 && |sessionId| == 16
    requires AllClean(Opened(agentId, sessionId, None, createdMs, ZERO_HASH_32, 0), ops, false)
    ensures var start := Opened(agentId, sessionId, None, createdMs, ZERO_HASH_32, 0);
      var w, written := Run(start, ops), WrittenRecords(start, ops);
      && Decide(Some(w.file), false) == Returned(VerifyResult(true, w.recordCount, w.gapCount, None, None, None, None))
      && w.bytesWritten == |w.file|
      && Readable(Some(w.file)) == StoredForms(written) && |written| == |ops|
      && forall i :: 0 <= i < |written| && ReadBackSizes(written[i].payload) ==>
           ReadRecord(Readable(Some(w.file))[i]) == Some(written[i])
  {
    hide Verifies, Readable, Decide, AllClean, Run, Header, CanonicalBytes, ReadRecord, ReadBackSizes, WrittenRecords;
    var w := Opened(agentId, sessionId, None, createdMs, ZERO_HASH_32, 0);
    HeaderVerifies(createdMs, false);
    NoGapsYet();
    CleanRun(w, ops, false, 0, 0);
    CleanRunRecords(w, ops, false, 0, 0);
    ValidIff(Some(Run(w, ops).file), false);
    assert [] + StoredForms(WrittenRecords(w, ops)) == StoredForms(WrittenRecords(w, ops));
  }

  lemma NoGapsYet()
    ensures GapCount([]) == 0
  {
  }

  // ---------------------------------------------------------------------- timestamps

  function TimeOf(s: bytes): nat {
    match ParseEnvelope(s) case Some(e) => e.timestampMs case None => 0
  }

  predicate Rising(records: seq<bytes>) {
    forall i, j :: 0 <= i < j < |records| ==> TimeOf(records[i]) <= TimeOf(records[j])
  }

  /** From record n on, the timestamps on disk never fall, and the writer's floor is at or above them. */
  predicate Timely(w: Writer, n: nat) {
    var records := Readable(Some(w.file));
    && n <= |records| && Rising(records[n..])
    && (forall i :: n <= i < |records| ==> TimeOf(records[i]) <= w.lastTsMs)
  }

  lemma TimeSays(r: Record)
    requires Built(r) && Encodable(r)
    ensures TimeOf(CanonicalBytes(r)) == r.timestampMs
  {
    hide ParseEnvelope, CanonicalBytes, EnvelopeWellFormed, PayloadFits, Fit;
    BuiltEnvelope(r);
    EnvelopeRoundTrip(r);
  }

  lemma StepTime(w: Writer, op: Op, env: World)
    requires TimestampFor(op).None?
    ensures var v := Step(w, op, env).0;
      v.lastTsMs == Attempt(w, op, env).timestampMs && v.lastTsMs >= w.lastTsMs
  {
    hide Passes, Encodable, CanonicalBytes, Frame, TypeOf, PayloadFor;
  }

  /** Readers of the file never get further, whatever is appended. */
  ghost predicate Stuck(file: bytes) {
    forall more: bytes :: Readable(Some(file + more)) == Readable(Some(file))
  }

  lemma OversizedStuck(file: bytes, s: bytes)
    requires ReadsClean(Some(file)) && MAX_RECORD_SIZE < |s| <= MAX_UINT32
    ensures Stuck(file + Frame(s)) && Readable(Some(file + Frame(s))) == Readable(Some(file))
  {
    hide Readable, Frame;
    OversizedReads(file, s, []);
    assert file + Frame(s) + [] == file + Frame(s);
    forall more: bytes
      ensures Readable(Some(file + Frame(s) + more)) == Readable(Some(file + Frame(s)))
    {
      OversizedReads(file, s, more);
    }
  }

  lemma OversizedReads(file: bytes, s: bytes, more: bytes)
    requires ReadsClean(Some(file)) && MAX_RECORD_SIZE < |s| <= MAX_UINT32
    ensures Readable(Some(file + Frame(s) + more)) == Readable(Some(file))
  {
    hide ReadFrame, Frame;
    var body, rest := Body(file), Frame(s) + more;
    assert Body(file + Frame(s) + more) == body + rest && (file + Frame(s) + more)[..4] == file[..4];
    FramesGrow(body, rest);
    EncodedOfFrames(body);
    assert Tail(body) == [] && [] + rest == rest;
    OversizedAhead(s, more);
    NoFrame(rest);
  }

  lemma StuckGrows(file: bytes, more: bytes)
    requires Stuck(file)
    ensures Stuck(file + more) && Readable(Some(file + more)) == Readable(Some(file))
  {
    hide Readable;
    forall extra: bytes
      ensures Readable(Some(file + more + extra)) == Readable(Some(file + more))
    {
      assert file + more + extra == file + (more + extra);
    }
  }

  /** The file reads to its end, or readers are stuck in it for good. */
  ghost predicate Settled(file: bytes) {
    ReadsClean(Some(file)) || Stuck(file)
  }

  /** What one operation, whatever becomes of it, does to the readable records. */
  lemma StepReads(w: Writer, op: Op, env: World)
    requires Ids(w) && Sized(op, env) && Settled(w.file)
    ensures var v := Step(w, op, env).0;
      && Settled(v.file)
      && (Readable(Some(v.file)) == Readable(Some(w.file))
          || (Step(w, op, env).1.Written?
              && Readable(Some(v.file)) == Readable(Some(w.file)) + [CanonicalBytes(Attempt(w, op, env))]))
  {
    hide Attempt, CanonicalBytes, Encodable, Step, Frame, PayloadFor, Readable, ReadsClean, Built, Stuck, Sized;
    StepEffect(w, op, env);
    if Step(w, op, env).1.Written? {
      var s := CanonicalBytes(Attempt(w, op, env));
      if Stuck(w.file) {
        StuckGrows(w.file, Frame(s));
      } else if |s| <= MAX_RECORD_SIZE {
        AppendedReads(w.file, s);
      } else {
        OversizedStuck(w.file, s);
      }
    }
  }

  lemma TimelyStep(w: Writer, op: Op, env: World, n: nat)
    requires Ids(w) && Sized(op, env) && Settled(w.file) && TimestampFor(op).None? && Timely(w, n)
    ensures var v := Step(w, op, env).0;
      Timely(v, n) && Settled(v.file) && Readable(Some(w.file)) <= Readable(Some(v.file))
  {
    hide Attempt, CanonicalBytes, Encodable, Step, Frame, PayloadFor, Readable, TimeOf, Built, Settled;
    StepReads(w, op, env);
    StepEffect(w, op, env);
    StepTime(w, op, env);
    if Step(w, op, env).1.Written? {
      AttemptBuilt(w, op, env);
      TimeSays(Attempt(w, op, env));
    }
  }

  lemma {:induction false} TimelyRun(w: Writer, ops: seq<(Op, World)>, n: nat)
    requires Ids(w) && AllSized(ops) && Settled(w.file) && Timely(w, n)
    requires forall i :: 0 <= i < |ops| ==> TimestampFor(ops[i].0).None?
    ensures Timely(Run(w, ops), n) && Settled(Run(w, ops).file)
    ensures Readable(Some(w.file)) <= Readable(Some(Run(w, ops).file))
    decreases |ops|
  {
    hide Step, Timely, TimestampFor, Settled, Sized, Attempt, CanonicalBytes, Encodable, Frame, Readable;
    if ops != [] {
      assert Sized(ops[0].0, ops[0].1);
      TimelyStep(w, ops[0].0, ops[0].1, n);
      StepEffect(w, ops[0].0, ops[0].1);
      TimelyRun(Step(w, ops[0].0, ops[0].1).0, ops[1..], n);
    }
  }

  /** With default timestamps and a floor at or above what is on disk, as of a new writer, the timestamps
      of a file never fall over any run, however the wall clock jumps and whichever writes are
      refused, replaced or oversized. */
  lemma ClockNeverRegresses(w: Writer, ops: seq<(Op, World)>)
    requires Ids(w) && AllSized(ops) && Settled(w.file) && Timely(w, 0)
    requires forall i :: 0 <= i < |ops| ==> TimestampFor(ops[i].0).None?
    ensures Timely(Run(w, ops), 0) && Rising(Readable(Some(Run(w, ops).file)))
  {
    hide Step, TimestampFor, Settled, Sized, Readable, TimeOf, Run;
    TimelyRun(w, ops, 0);
    var records := Readable(Some(Run(w, ops).file));
    assert records[0..] == records;
  }

  /** The floor belongs to the writer, and that of a resumed one starts again at zero: over a resumed run
      the timestamps go on rising if and only if the first record that lands is no earlier than the
      last one found. */
  lemma ResumedClock(w: Writer, ops: seq<(Op, World)>)
    requires Ids(w) && AllSized(ops) && Settled(w.file) && Rising(Readable(Some(w.file)))
    requires forall i :: 0 <= i < |ops| ==> TimestampFor(ops[i].0).None?
    ensures var found, all := Readable(Some(w.file)), Readable(Some(Run(w, ops).file));
      && found <= all
      && (Rising(all) <==> found == [] || |all| == |found| || TimeOf(found[|found| - 1]) <= TimeOf(all[|found|]))
  {
    hide Step, TimestampFor, Settled, Sized, Readable, TimeOf, Run;
    var found, all := Readable(Some(w.file)), Readable(Some(Run(w, ops).file));
    assert found[|found|..] == [];
    TimelyRun(w, ops, |found|);
    RisingSplit(found, all[|found|..]);
    assert all == found + all[|found|..];
  }

  lemma RisingSplit(a: seq<bytes>, b: seq<bytes>)
    requires Rising(a) && Rising(b)
    ensures Rising(a + b) <==> a == [] || b == [] || TimeOf(a[|a| - 1]) <= TimeOf(b[0])
  {
    hide TimeOf;
    if a != [] && b != [] {
      assert (a + b)[|a| - 1] == a[|a| - 1] && (a + b)[|a|] == b[0];
    } else {
      assert a + b == if a == [] then b else a;
    }
  }

  // -------------------------------------------------------------------- checkpoints

  /** An unsigned checkpoint carries the hash it is linked by and counts the records and gaps of its
      writer, itself included: those of the whole file exactly when none were there before. */
  lemma CheckpointCounts(w: Writer, env: World, anyStart: bool, n: nat, g: nat)
    requires InSync(w, anyStart, n, g) && Clean(w, WriteUnsignedCheckpoint, env, anyStart)
    ensures var v := Step(w, WriteUnsignedCheckpoint, env).0; var r := Attempt(w, WriteUnsignedCheckpoint, env);
      && r.payload.Checkpoint?
      && r.payload.checkpoint.recordCount + n == |Readable(Some(v.file))|
      && r.payload.checkpoint.gapCount + g == GapCount(Readable(Some(v.file)))
      && (r.payload.checkpoint.recordCount == |Readable(Some(v.file))| <==> n == 0)
      && r.payload.checkpoint.chainHash == r.prevHash
  {
    hide Step, Attempt, Encodable, CanonicalBytes, Frame, Verifies, Readable, GapCount, SeqOf, Zeros;
    CleanStep(w, WriteUnsignedCheckpoint, env, anyStart, n, g);
    StepEffect(w, WriteUnsignedCheckpoint, env);
    AttemptBuilt(w, WriteUnsignedCheckpoint, env);
  }

  // ------------------------------------------------------------- where the code falls short

  /** A record that fails validation is replaced by a gap record that claims its own number; once
      that lands, the file verifies no more, whatever is written afterwards. */
  lemma ReplacementBreaks(w: Writer, op: Op, env: World, later: seq<(Op, World)>, anyStart: bool)
    requires Ids(w) && Sized(op, env) && AllSized(later) && Verifies(Some(w.file), anyStart)
    requires Step(w, op, env).1.Written? && Attempt(w, op, env).payload != PayloadFor(w, op)
    ensures !Verifies(Some(Run(w, [(op, env)] + later).file), anyStart)
  {
    hide Step, CanonicalBytes, Encodable, Verifies, Readable, Passes, SeqOf, PayloadFor, LinkRule;
    assert ([(op, env)] + later)[0] == (op, env);
    assert !SequenceRule(Readable(Some(w.file)), Attempt(w, op, env), anyStart);
    RunExact(w, [(op, env)] + later, anyStart);
  }

  /** A gap written where the chain stands keeps the file verifying if and only if it begins with
      the next number and loses at least one. */
  lemma GapExactlyNext(w: Writer, op: Op, env: World, anyStart: bool)
    requires Stands(w, anyStart) && op.WriteGap? && Accepted(w, op, env)
    requires anyStart ==> Readable(Some(w.file)) != []
    ensures Verifies(Some(Step(w, op, env).0.file), anyStart) <==> op.first == w.sequence + 1 <= op.last
  {
    hide CanonicalBytes, Encodable, Verifies, Readable, Passes, SeqOf, Attempt, Step, Frame, Zeros;
    StepEffect(w, op, env);
    StepExact(w, op, env, anyStart);
  }

  /** The last number taken on disk. */
  function LastNumber(records: seq<bytes>): nat {
    if records == [] then 0 else SeqOf(records[|records| - 1])
  }

  function LastHash(records: seq<bytes>): Digest {
    if records == [] then ZERO_HASH_32 else Sha256(records[|records| - 1])
  }

  /** payload, carried by the record numbered q + 1, goes on behind the number last. */
  predicate GoesOn(last: int, q: int, payload: Payload) {
    match payload
    case Gap(g) => g.firstLost == last + 1 <= g.lastLost == q && g.count == g.lastLost - g.firstLost + 1
    case _ => q == last
  }

  /** A write refused by the disk, a gap or not, leaves the counter behind the number it had taken. An
      accepted write of any payload behind it keeps the file verifying if and only if it goes on from
      the last number on disk: after a refused ordinary write, if and only if it is a gap that
      starts at the number used up. */
  lemma AfterDiskError(w: Writer, failed: Op, env0: World, op: Op, env: World)
    requires Stands(w, false) && Sized(failed, env0) && Step(w, failed, env0).1.OsError?
    requires Accepted(Step(w, failed, env0).0, op, env)
    ensures var v := Step(w, failed, env0).0; var after := Some(Step(v, op, env).0.file);
      && v.sequence == Positioned(w, failed).sequence + 1
      && (Verifies(after, false) <==> GoesOn(w.sequence, Positioned(v, op).sequence, PayloadFor(v, op)))
      && (!failed.WriteGap? && !PayloadFor(v, op).Gap? ==> !Verifies(after, false))
      && (op.WriteGap? ==> (Verifies(after, false) <==> op.first == w.sequence + 1 <= op.last))
  {
    hide CanonicalBytes, Encodable, Verifies, Readable, Passes, SeqOf, Attempt, Step, Frame, Zeros;
    var v := Step(w, failed, env0).0;
    StepEffect(w, failed, env0);
    StepEffect(v, op, env);
    StepExact(v, op, env, false);
  }
}
