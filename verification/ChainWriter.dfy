/** ChainWriter (ahp/core/chain.py): its in-memory state, the file it appends to, and the class
    whose methods update both. I/O succeeds or fails as a whole; a failed write lands no bytes. */
module ChainWriter {
  import opened Bytes
  import opened Crc32
  import opened Records
  import opened Canonical
  import opened Validation
  import opened Frames

  /** An ASCII string as bytes. */
  function Ascii(text: string): bytes {
    seq(|text|, i requires 0 <= i < |text| => (text[i] as int % 256) as byte)
  }

  /** The detail with which a replacement gap record starts. */
  function ReplacementPrefix(): bytes {
    Ascii("Validation failed:")
  }

  // -------------------------------------------------------------------------- state

  /** The writer's fields and the bytes of its file. */
  datatype Writer = Writer(
    agentId: bytes, sessionId: bytes, sequence: int, prevHash: Digest, recordCount: nat, gapCount: nat,
    bytesWritten: nat, lastTsMs: int, file: bytes)

  /** What a write takes from outside: a fresh record id, the wall clock, the detail that
      describes validation errors, and whether the disk accepts the frame. */
  datatype World = World(recordId: bytes, wallMs: nat, errors: Text, diskOk: bool)

  datatype WriteResult = Written(record: Record) | StructError | OsError

  function NewRecord(w: Writer, payload: Payload, sessionId: bytes, recordId: bytes): Record {
    Record(recordId, w.agentId, sessionId, w.lastTsMs, w.sequence, w.prevHash, SCHEMA_VERSION, TypeOf(payload), payload)
  }

  /** The gap record that takes the place of a record that fails validation. */
  function Replacement(r: Record, detail: Text): Record {
    r.(recordType := GAP, payload := Gap(GapPayload(r.sequence, r.sequence, 1, INTERCEPTOR_FAILURE, detail)))
  }

  predicate IsReplacement(p: Payload) {
    p.Gap? && ReplacementPrefix() <= p.gap.detail
  }

  /** The default timestamp never runs backwards; a given one is taken as it is. */
  function Timestamp(w: Writer, given: Option<int>, wallMs: nat): int {
    match given
    case Some(t) => t
    case None => if wallMs >= w.lastTsMs then wallMs else w.lastTsMs
  }

  /** The record a write tries to append, once its number and timestamp have been taken. */
  function Candidate(w: Writer, payload: Payload, sessionId: Option<bytes>, env: World): Record {
    var session := match sessionId case Some(s) => if s == [] then w.sessionId else s case None => w.sessionId;
    var r := NewRecord(w, payload, session, env.recordId);
    if IsReplacement(payload) || Passes(r) then r
    else Replacement(r, env.errors)
  }

  /** The state after the number has been taken and the timestamp floor moved. */
  function Taken(w: Writer, timestampMs: Option<int>, env: World): Writer {
    w.(sequence := w.sequence + 1, lastTsMs := Timestamp(w, timestampMs, env.wallMs))
  }

  /** The hash and counters after a record has been serialized. */
  function Counted(w: Writer, r: Record): Writer {
    w.(prevHash := Sha256(CanonicalBytes(r)), recordCount := w.recordCount + 1,
       gapCount := w.gapCount + if r.recordType == GAP then 1 else 0)
  }

  /** Serializing and appending a record. A length beyond 32 bits raises past the rollback. */
  function Commit(w: Writer, r: Record, diskOk: bool): (Writer, WriteResult) {
    if !Encodable(r) then (w, StructError)
    else if |CanonicalBytes(r)| > MAX_UINT32 then (Counted(w, r), StructError)
    else if !diskOk then (w, OsError)
    else
      var frame := Frame(CanonicalBytes(r));
      (Counted(w, r).(bytesWritten := w.bytesWritten + |frame|, file := w.file + frame), Written(r))
  }

  /** _write_record_unlocked. The number is taken before the state is saved for rollback, so a
      failed write uses it up. */
  function Write(w: Writer, payload: Payload, sessionId: Option<bytes>, timestampMs: Option<int>, env: World)
    : (Writer, WriteResult)
  {
    var t := Taken(w, timestampMs, env);
    Commit(t, Candidate(t, payload, sessionId, env), env.diskOk)
  }

  /** The public operations. */
  datatype Op =
    | WriteRecord(payload: Payload, sessionId: Option<bytes>, timestampMs: Option<int>)
    | WriteGap(first: int, last: int, reason: int, detail: Text)
    | WriteRecovery(recovery: RecoveryPayload)
    | WriteUnsignedCheckpoint

  function GapFor(first: int, last: int, reason: int, detail: Text): Payload {
    Gap(GapPayload(first, last, last - first + 1, reason, detail))
  }

  /** The checkpoint counts itself. */
  function UnsignedCheckpoint(w: Writer): Payload {
    Checkpoint(CheckpointPayload(w.recordCount + 1, w.gapCount, w.prevHash, ZERO_HASH_32, Zeros(64), ZERO_HASH_32,
                                 0, 0, 0, 0))
  }

  /** write_gap first moves the counter to the last lost number. */
  function Positioned(w: Writer, op: Op): Writer {
    if op.WriteGap? then w.(sequence := op.last) else w
  }

  function PayloadFor(w: Writer, op: Op): Payload {
    match op
    case WriteRecord(payload, _, _) => payload
    case WriteGap(first, last, reason, detail) => GapFor(first, last, reason, detail)
    case WriteRecovery(recovery) => Recovery(recovery)
    case WriteUnsignedCheckpoint => UnsignedCheckpoint(w)
  }

  function SessionFor(op: Op): Option<bytes> {
    if op.WriteRecord? then op.sessionId else None
  }

  function TimestampFor(op: Op): Option<int> {
    if op.WriteRecord? then op.timestampMs else None
  }

  function Step(w: Writer, op: Op, env: World): (Writer, WriteResult) {
    Write(Positioned(w, op), PayloadFor(w, op), SessionFor(op), TimestampFor(op), env)
  }

  /** The state of a new writer on a file, which gets a header if it does not exist. */
  function Opened(agentId: bytes, sessionId: bytes, existing: Option<bytes>, createdMs: nat, prevHash: Digest,
                  startSequence: int)
    : Writer
  {
    var file := match existing case Some(f) => f case None => Header(createdMs);
    Writer(agentId, sessionId, startSequence, prevHash, 0, 0, |file|, 0, file)
  }

  // ------------------------------------------------------------------------ the class

  /** A chain file and the one writer that appends to it. */
  class Chain {
    const agentId: bytes
    const sessionId: bytes
    var sequence: int
    var prevHash: Digest
    var recordCount: nat
    var gapCount: nat
    var bytesWritten: nat
    var lastTsMs: int
    var file: bytes

    ghost function State(): Writer
      reads this
    {
      Writer(agentId, sessionId, sequence, prevHash, recordCount, gapCount, bytesWritten, lastTsMs, file)
    }

    constructor (agentId: bytes, sessionId: bytes, existing: Option<bytes>, createdMs: nat, prevHash: Option<Digest>,
                 startSequence: int)
      ensures State() == Opened(agentId, sessionId, existing, createdMs,
                                match prevHash case Some(h) => h case None => ZERO_HASH_32, startSequence)
    {
      this.agentId := agentId;
      this.sessionId := sessionId;
      this.sequence := startSequence;
      this.prevHash := match prevHash case Some(h) => h case None => ZERO_HASH_32;
      this.recordCount := 0;
      this.gapCount := 0;
      this.lastTsMs := 0;
      var f := match existing case Some(f) => f case None => Header(createdMs);
      this.file := f;
      this.bytesWritten := |f|;
    }

    /** _write_record_unlocked */
    method WriteUnlocked(payload: Payload, sessionId: Option<bytes>, timestampMs: Option<int>, env: World)
      returns (r: WriteResult)
      modifies this
      ensures (State(), r) == Write(old(State()), payload, sessionId, timestampMs, env)
    {
      hide Candidate, Commit;
      var record := NextRecord(payload, sessionId, timestampMs, env);
      r := Append(record, env.diskOk);
    }

    /** Takes the number and the timestamp and builds the record, or the gap record in its place. */
    method NextRecord(payload: Payload, sessionId: Option<bytes>, timestampMs: Option<int>, env: World)
      returns (record: Record)
      modifies this
      ensures State() == Taken(old(State()), timestampMs, env)
      ensures record == Candidate(State(), payload, sessionId, env)
    {
      hide Passes, TypeOf, IsReplacement;
      sequence := sequence + 1;
      var ts;
      if timestampMs.None? {
        ts := if env.wallMs >= lastTsMs then env.wallMs else lastTsMs;
      } else {
        ts := timestampMs.value;
      }
      lastTsMs := ts;
      var session := match sessionId case Some(s) => if s == [] then this.sessionId else s case None => this.sessionId;
      record := Record(env.recordId, agentId, session, ts, sequence, prevHash, SCHEMA_VERSION, TypeOf(payload),
        payload);
      assert State() == Taken(old(State()), timestampMs, env);
      assert record == NewRecord(State(), payload, session, env.recordId);
      hide Taken, NewRecord, Timestamp;
      if !IsReplacement(payload) && !Passes(record) {
        var gapPayload := GapPayload(sequence, sequence, 1, INTERCEPTOR_FAILURE, env.errors);
        record := Record(record.recordId, agentId, session, record.timestampMs, sequence, prevHash, SCHEMA_VERSION, GAP,
          Gap(gapPayload));
      }
    }

    /** Serializes the record, updates the chain state and appends the frame, undoing the update
        when the disk refuses it. */
    method Append(record: Record, diskOk: bool) returns (r: WriteResult)
      modifies this
      ensures (State(), r) == Commit(old(State()), record, diskOk)
    {
      hide Encodable, CanonicalBytes, Frame, Crc;
      var serialized := Serialize(record);
      if serialized.None? {
        return StructError;
      }
      var stored := serialized.value;
      var oldPrevHash, oldSequence, oldRecordCount, oldGapCount, oldBytesWritten :=
        prevHash, sequence, recordCount, gapCount, bytesWritten;
      prevHash := Sha256(stored);
      recordCount := recordCount + 1;
      if record.recordType == GAP {
        gapCount := gapCount + 1;
      }
      if |stored| > MAX_UINT32 {
        return StructError;
      }
      if !diskOk {
        prevHash, sequence, recordCount, gapCount, bytesWritten :=
          oldPrevHash, oldSequence, oldRecordCount, oldGapCount, oldBytesWritten;
        return OsError;
      }
      var frame := Frame(stored);
      file := file + frame;
      bytesWritten := bytesWritten + |frame|;
      return Written(record);
    }

    method WriteRecord(payload: Payload, sessionId: Option<bytes>, timestampMs: Option<int>, env: World)
      returns (r: WriteResult)
      modifies this
      ensures (State(), r) == Step(old(State()), Op.WriteRecord(payload, sessionId, timestampMs), env)
    {
      hide Write;
      r := WriteUnlocked(payload, sessionId, timestampMs, env);
    }

    method WriteGap(first: int, last: int, reason: int, detail: Text, env: World) returns (r: WriteResult)
      modifies this
      ensures (State(), r) == Step(old(State()), Op.WriteGap(first, last, reason, detail), env)
    {
      hide Write;
      var count := last - first + 1;
      sequence := last;
      r := WriteUnlocked(Gap(GapPayload(first, last, count, reason, detail)), None, None, env);
    }

    method WriteRecovery(recovery: RecoveryPayload, env: World) returns (r: WriteResult)
      modifies this
      ensures (State(), r) == Step(old(State()), Op.WriteRecovery(recovery), env)
    {
      hide Write;
      r := WriteRecord(Recovery(recovery), None, None, env);
    }

    method WriteUnsignedCheckpoint(env: World) returns (r: WriteResult)
      modifies this
      ensures (State(), r) == Step(old(State()), Op.WriteUnsignedCheckpoint, env)
    {
      hide Write;
      var payload := CheckpointPayload(recordCount + 1, gapCount, prevHash, ZERO_HASH_32, Zeros(64), ZERO_HASH_32,
        0, 0, 0, 0);
      r := WriteUnlocked(Checkpoint(payload), None, None, env);
    }
  }
}
