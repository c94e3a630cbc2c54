/** What a writer puts into the records it appends, field by field: whose record it is, its number, time and
    link, its payload or the gap in its place, and where each stands on disk. */
module WriterFields {
  import opened Bytes
  import opened Records
  import opened Canonical
  import opened Parse
  import opened Validation
  import opened Frames
  import opened Layout
  import opened ChainWriter
  import opened WriterRuns

  /** The record id is the fresh one, the agent is the writer's, the session that of the call unless it gives
      none or an empty one; a given time is kept, and the wall clock is raised to the last time used. The
      number is the next one, behind the last lost one for a gap, and the link the hash in memory. */
  lemma AttemptFields(w: Writer, op: Op, env: World)
    ensures var r := Attempt(w, op, env);
      && r.recordId == env.recordId && r.agentId == w.agentId
      && r.sessionId == (if op.WriteRecord? && op.sessionId.Some? && op.sessionId.value != [] then op.sessionId.value
                         else w.sessionId)
      && r.timestampMs == (if op.WriteRecord? && op.timestampMs.Some? then op.timestampMs.value
                           else if env.wallMs > w.lastTsMs then env.wallMs else w.lastTsMs)
      && r.sequence == (if op.WriteGap? then op.last else w.sequence) + 1
      && r.prevHash == w.prevHash && r.schemaVersion == 2 && r.recordType == TypeCode(r.payload) as int
  {
    hide Passes, PayloadFor, IsReplacement;
  }

  /** "Validation failed:" */
  const FAILED: bytes := [0x56, 0x61, 0x6C, 0x69, 0x64, 0x61, 0x74, 0x69, 0x6F, 0x6E, 0x20,
                          0x66, 0x61, 0x69, 0x6C, 0x65, 0x64, 0x3A]

  lemma PrefixBytes()
    ensures ReplacementPrefix() == FAILED
  {
    var text := "Validation failed:";
    assert |text| == 18;
  }

  /** The payload is the one asked for if the record passes validation, or is a gap whose detail says that
      validation failed, which is not validated; and otherwise a gap of one, the record's own number. */
  lemma AskedOrReplaced(w: Writer, op: Op, env: World)
    ensures var r := Attempt(w, op, env);
      var asked := match op
        case WriteRecord(payload, _, _) => payload
        case WriteGap(first, last, reason, detail) => Gap(GapPayload(first, last, last - first + 1, reason, detail))
        case WriteRecovery(recovery) => Recovery(recovery)
        case WriteUnsignedCheckpoint =>
          Checkpoint(CheckpointPayload(w.recordCount + 1, w.gapCount, w.prevHash, Zeros(32), Zeros(64), Zeros(32),
                                       0, 0, 0, 0));
      var unchecked := asked.Gap? && FAILED <= asked.gap.detail;
      r.payload == if unchecked || Passes(r.(recordType := TypeCode(asked) as int, payload := asked)) then asked
                   else Gap(GapPayload(r.sequence, r.sequence, 1, 5, env.errors))
  {
    hide Passes, Ascii, Zeros, ReplacementPrefix;
    PrefixBytes();
  }

  /** The state behind a write: number and time are taken in any case; counters, hash and file follow the
      record where it is written, and stay where the disk refuses it or a value does not fit. Where its
      length does not fit 32 bits, the counters and the hash have moved although nothing is written. */
  lemma StepState(w: Writer, op: Op, env: World)
    ensures var (v, result) := Step(w, op, env); var r := Attempt(w, op, env); var s := CanonicalBytes(r);
      var taken := w.(sequence := r.sequence, lastTsMs := r.timestampMs);
      var counted := taken.(prevHash := Sha256(s), recordCount := w.recordCount + 1,
                            gapCount := w.gapCount + if r.payload.Gap? then 1 else 0);
      if !Encodable(r) then v == taken && result == WriteResult.StructError
      else if |s| > 0xFFFF_FFFF then v == counted && result == WriteResult.StructError
      else if !env.diskOk then v == taken && result == OsError
      else
        result == Written(r)
        && v == counted.(bytesWritten := w.bytesWritten + |s| + 8, file := w.file + Frame(s))
  {
    hide Passes, Encodable, CanonicalBytes, Frame, PayloadFor, IsReplacement;
  }

  /** The first bytes of a stored record: record, agent and session id, time, number, link, schema, type. */
  lemma StoredFields(w: Writer, op: Op, env: World)
    requires Ids(w) && Sized(op, env) && Step(w, op, env).1.Written?
    ensures var r, s := Attempt(w, op, env), CanonicalBytes(Attempt(w, op, env));
      && |s| >= 108 && s[..16] == env.recordId && s[16..32] == w.agentId
      && s[32..48] == (if op.WriteRecord? && op.sessionId.Some? && op.sessionId.value != [] then op.sessionId.value
                       else w.sessionId)
      && r.timestampMs == (if op.WriteRecord? && op.timestampMs.Some? then op.timestampMs.value
                           else if env.wallMs > w.lastTsMs then env.wallMs else w.lastTsMs)
      && s[48..56] == U64(r.timestampMs)
      && s[56..64] == U64((if op.WriteGap? then op.last else w.sequence) + 1) && s[64..96] == w.prevHash
      && s[96..108] == [2, 0, 0, 0, TypeCode(r.payload), 0, 0, 0, TypeCode(r.payload), 0, 0, 0]
      && s[108..] == PayloadBytes(r.payload)
  {
    hide Attempt, Encodable, CanonicalBytes, PayloadBytes, PayloadFits, Step, U64, TypeCode, TypeOf, Sized,
      EnvelopeWellFormed, Fit, EnvelopeFields;
    AttemptFields(w, op, env);
    AttemptBuilt(w, op, env);
    StepEffect(w, op, env);
    var r := Attempt(w, op, env);
    EncodableEnvelope(r);
    BuiltEnvelope(r);
    StoredLayout(r);
  }

  lemma EncodableEnvelope(r: Record)
    requires Encodable(r)
    ensures Fit(EnvelopeFields(r))
  {
    hide Fit, EnvelopeFields, PayloadFits;
  }

  /** Over any run of any writer, with any failures, every record appended carries the writer's agent id, a
      session id that is the writer's or was given with a call, and a record id that was drawn for it. */
  lemma {:induction false} RunIdentity(w: Writer, ops: seq<(Op, World)>)
    requires Ids(w) && AllSized(ops)
    ensures var records := StoredForms(WrittenRecords(w, ops));
      && Run(w, ops).file == w.file + EncodeFrames(records)
      && forall i :: 0 <= i < |records| ==>
           && |records[i]| >= 108 && records[i][16..32] == w.agentId
           && (exists k :: 0 <= k < |ops| && records[i][..16] == ops[k].1.recordId)
           && (records[i][32..48] == w.sessionId
               || exists k :: 0 <= k < |ops| && SessionFor(ops[k].0) == Some(records[i][32..48]))
    decreases |ops|
  {
    hide Step, Attempt, CanonicalBytes, Encodable, EncodeFrames, Run, Sized, TypeCode, PayloadBytes, U64,
      WrittenRecords;
    RunAppends(w, ops);
    forall i | 0 <= i < |WrittenRecords(w, ops)|
      ensures var s := CanonicalBytes(WrittenRecords(w, ops)[i]);
        && |s| >= 108 && s[16..32] == w.agentId
        && (exists k :: 0 <= k < |ops| && s[..16] == ops[k].1.recordId)
        && (s[32..48] == w.sessionId || exists k :: 0 <= k < |ops| && SessionFor(ops[k].0) == Some(s[32..48]))
    {
      var k, v := WrittenBy(w, ops, i);
      StoredFields(v, ops[k].0, ops[k].1);
    }
  }

  /** Each record of a run was written by one of its operations, on a writer with the same ids. */
  lemma {:induction false} WrittenBy(w: Writer, ops: seq<(Op, World)>, i: nat) returns (k: nat, v: Writer)
    requires AllSized(ops) && i < |WrittenRecords(w, ops)|
    ensures k < |ops| && v.agentId == w.agentId && v.sessionId == w.sessionId && Sized(ops[k].0, ops[k].1)
    ensures Step(v, ops[k].0, ops[k].1).1.Written?
         && WrittenRecords(w, ops)[i] == Attempt(v, ops[k].0, ops[k].1)
    decreases |ops|
  {
    hide Step, Attempt, CanonicalBytes, Encodable, Frame, Sized;
    var (next, result) := Step(w, ops[0].0, ops[0].1);
    StepEffect(w, ops[0].0, ops[0].1);
    assert Sized(ops[0].0, ops[0].1);
    if result.Written? {
      StepRecord(w, ops[0].0, ops[0].1);
    }
    if result.Written? && i == 0 {
      k, v := 0, w;
    } else {
      var k', v' := WrittenBy(next, ops[1..], if result.Written? then i - 1 else i);
      k, v := k' + 1, v';
    }
  }

  /** The first record on a new file: number one, linked to zeros, with the ids the chain was opened with and
      the time of the wall clock, behind a header with the time of creation. */
  lemma FirstRecord(agentId: bytes, sessionId: bytes, createdMs: nat, op: Op, env: World)
    requires |agentId| == 16 && |sessionId| == 16 && Sized(op, env)
    requires !op.WriteGap? && SessionFor(op).None? && TimestampFor(op).None?
    requires Step(Opened(agentId, sessionId, None, createdMs, ZERO_HASH_32, 0), op, env).1.Written?
    ensures var w := Opened(agentId, sessionId, None, createdMs, ZERO_HASH_32, 0);
      var s := CanonicalBytes(Attempt(w, op, env));
      && Step(w, op, env).0.file == [0x41, 0x48, 0x50, 0, 1, 0, 0, 0] + U64(createdMs) + Frame(s)
      && |s| >= 108 && s[..16] == env.recordId && s[16..32] == agentId && s[32..48] == sessionId
      && s[48..56] == U64(env.wallMs) && s[56..64] == U64(1) && s[64..96] == Zeros(32)
  {
    hide Attempt, Encodable, CanonicalBytes, PayloadBytes, Step, U64, TypeCode, Frame, Sized, Zeros, Header;
    var w := Opened(agentId, sessionId, None, createdMs, ZERO_HASH_32, 0);
    HeaderLayout(createdMs);
    StoredFields(w, op, env);
    StepEffect(w, op, env);
  }
}
