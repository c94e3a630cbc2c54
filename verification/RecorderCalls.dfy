/** The calls of the synchronous recorder: what each of them keeps, and which failures the gap
    protocol heals and which it does not. */
module RecorderCalls {
  import opened Bytes
  import opened Records
  import opened Canonical
  import opened Frames
  import opened Parse
  import opened Validation
  import opened Verify
  import opened ChainWriter
  import opened WriterRuns
  import opened Recorder
  import opened Segments
  import opened Batches

  // ------------------------------------------------------------------------- states

  function All(s: State): seq<bytes> { RecordsOf(s.segments, s.chain.file) }

  /** From record `base` on, where this recorder started, its counters and its batch describe the
      records on disk, every checkpoint attests its batch, and every witness record names a record in
      front of it. */
  ghost predicate Books(s: State, base: nat) {
    && base <= |All(s)|
    && s.batch == Pending(All(s)[base..]) && s.sinceCheckpoint == |s.batch|
    && CheckpointsRight(All(s)[base..]) && WitnessesRight(All(s), base)
  }

  /** Between calls: the chain is whole, the writer links to its end, and either it stands there or
      a gap is pending that starts with the next number; the current file holds a record. */
  ghost predicate Good(s: State, base: nat) {
    && Stand(s.chain, s.segments) && Books(s, base) && Readable(Some(s.chain.file)) != []
    && (if s.pendingGap then s.gapFirstLostSeq == LastNumber(All(s)) + 1 else s.chain.sequence == LastNumber(All(s)))
  }

  /** The chain is past repair, or a gap from this number no longer fits it and never will: the number is
      taken on disk, or numbers in front of it are lost that no record can account for. */
  ghost predicate Misplaced(w: Writer, segments: seq<bytes>, first: int) {
    var last := LastNumber(RecordsOf(segments, w.file));
    && Ids(w)
    && (Lost(segments, w.file)
        || (Intact(segments, w.file) && w.sequence >= last
            && (first <= last || (first > last + 1 && w.sequence > last))))
  }

  /** The chain is past repair, or the next record to land puts it there: a pending gap, or, where none is
      pending, any record. */
  ghost predicate Off(s: State) {
    if s.pendingGap then Misplaced(s.chain, s.segments, s.gapFirstLostSeq) else Astray(s.chain, s.segments)
  }

  lemma OffNotGood(s: State, base: nat)
    requires Off(s)
    ensures !Good(s, base)
  {
    hide Intact, RecordsOf, LastNumber, Lost, Books;
    if Lost(s.segments, s.chain.file) {
      LostNow(s.segments, s.chain.file);
    }
  }

  /** In the middle of a call. */
  ghost predicate Mid(s: State, base: nat) {
    InStep(s.chain, s.segments) && Books(s, base) && Readable(Some(s.chain.file)) != []
  }

  /** t is reached from s by writes among them g gap records and these actions; the gap fields are
      untouched. */
  ghost predicate Reached(s: State, t: State, base: nat, g: nat, actions: seq<ActionPayload>) {
    && Mid(t, base)
    && GapCount(All(t)) == GapCount(All(s)) + g && Actions(All(t)) == Actions(All(s)) + actions
    && t.pendingGap == s.pendingGap && t.gapFirstLostSeq == s.gapFirstLostSeq
  }

  // --------------------------------------------------------------------- single writes

  /** What one more record does to the books. */
  lemma BooksAppended(s: State, t: State, base: nat, stored: bytes)
    requires Books(s, base) && All(t) == All(s) + [stored]
    requires t.batch == if TypeFieldOf(stored) == CHECKPOINT then [] else s.batch + Hashed(stored)
    requires t.sinceCheckpoint == |t.batch|
    requires TypeFieldOf(stored) == CHECKPOINT ==> Attests(stored, s.batch)
    requires TypeFieldOf(stored) == WITNESS ==> NamesOneOf(stored, All(s))
    ensures Books(t, base)
    ensures GapCount(All(t)) == GapCount(All(s)) + if IsGap(stored) then 1 else 0
    ensures Actions(All(t)) == Actions(All(s)) + ActionIn(stored)
  {
    hide RecordsOf, TypeFieldOf, IsGap, Hashed, Attests, NamesOneOf, ActionIn, CheckpointsRight, Pending,
      WitnessesRight;
    assert All(t)[base..] == All(s)[base..] + [stored];
    PendingSnoc(All(s)[base..], stored);
    CheckpointsSnoc(All(s)[base..], stored);
    WitnessesSnoc(All(s), base, stored);
    GapCountLast(All(s), stored);
    assert All(t)[..|All(s)|] == All(s);
  }

  predicate NonGap(w: Writer, op: Op) { !op.WriteGap? && !PayloadFor(w, op).Gap? }

  /** An accepted record that is no gap fits where the writer stands at the end. */
  lemma AcceptedFits(w: Writer, segments: seq<bytes>, op: Op, env: World)
    requires InStep(w, segments) && Accepted(w, op, env) && NonGap(w, op)
    ensures Fitting(w, segments, op, env)
  {
    hide RecordsOf, LastNumber, LastHash, Accepted, PayloadFor, Intact;
  }

  /** A fitting write that is tracked. */
  lemma TrackedWrite(s: State, base: nat, op: Op, env: World)
    requires Ids(s.chain) && Intact(s.segments, s.chain.file) && s.chain.bytesWritten == |s.chain.file|
    requires Books(s, base) && Fitting(s.chain, s.segments, op, env)
    requires TypeOf(PayloadFor(s.chain, op)) !in {CHECKPOINT, WITNESS}
    ensures var t := WriteTracked(s, op, env); var p := PayloadFor(s.chain, op);
      && t.Fine? && Reached(s, t.state, base, if p.Gap? then 1 else 0, ActsOf(p))
      && t.state == s.(chain := t.state.chain, sinceCheckpoint := t.state.sinceCheckpoint,
                       sinceWitness := t.state.sinceWitness, batch := t.state.batch)
  {
    hide CanonicalBytes, TypeFieldOf, Readable, Step, RecordsOf, PayloadFor, Attempt, Attests, Pending,
      CheckpointsRight, GapCount, Actions, ActionIn, ActsOf, WitnessesRight, NamesOneOf, Intact, InStep, Accepted,
      LastNumber, LastHash, Books;
    WriteExtends(s.chain, s.segments, op, env);
    ActionStored(s.chain, op, env);
    BooksCounted(s, base);
    BooksAppended(s, WriteTracked(s, op, env).state, base, CanonicalBytes(Attempt(s.chain, op, env)));
  }

  lemma BooksCounted(s: State, base: nat)
    requires Books(s, base)
    ensures s.sinceCheckpoint == |s.batch|
  {
  }

  /** A checkpoint attests the batch and starts a new one. */
  lemma CheckpointWrite(s: State, base: nat, env: CallWorld)
    requires InStep(s.chain, s.segments) && Books(s, base)
    requires Accepted(s.chain, CheckpointOp(s, env), env.checkpoint)
    ensures var t := EmitCheckpoint(s, env);
      var stored := CanonicalBytes(Attempt(s.chain, CheckpointOp(s, env), env.checkpoint));
      && t.Fine? && Reached(s, t.state, base, 0, [])
      && t.state == s.(chain := t.state.chain, sinceCheckpoint := 0, batch := [])
      && All(t.state) == All(s) + [stored] && Attests(stored, Pending(All(s)[base..]))
  {
    hide CanonicalBytes, TypeFieldOf, Readable, Step, RecordsOf, Attempt, Attests, Pending, CheckpointsRight,
      GapCount, Actions, ActionIn, WitnessesRight, NamesOneOf, Intact, Accepted, LastNumber, LastHash, CheckpointFor;
    var op := CheckpointOp(s, env);
    AcceptedFits(s.chain, s.segments, op, env.checkpoint);
    WriteExtends(s.chain, s.segments, op, env.checkpoint);
    ActionStored(s.chain, op, env.checkpoint);
    CheckpointAttests(s, env, s.batch);
    BooksAppended(s, EmitCheckpoint(s, env).state, base, CanonicalBytes(Attempt(s.chain, op, env.checkpoint)));
  }

  /** A receipt is written untracked; it names the record r that was sent. */
  lemma ReceiptWrite(s: State, base: nat, receipt: Receipt, env: World, r: bytes)
    requires InStep(s.chain, s.segments) && Books(s, base) && r in All(s)
    requires Accepted(s.chain, ReceiptOp(SeqOf(r), Sha256(r), receipt), env)
    ensures var t := s.(chain := Step(s.chain, ReceiptOp(SeqOf(r), Sha256(r), receipt), env).0);
      Reached(s, t, base, 0, []) && r in All(t)
  {
    hide CanonicalBytes, TypeFieldOf, Readable, Step, RecordsOf, Attempt, Attests, Pending, CheckpointsRight, SeqOf,
      GapCount, Actions, ActionIn, WitnessesRight, Intact, Accepted, LastNumber, LastHash, Names;
    var op := ReceiptOp(SeqOf(r), Sha256(r), receipt);
    AcceptedFits(s.chain, s.segments, op, env);
    WriteExtends(s.chain, s.segments, op, env);
    ActionStored(s.chain, op, env);
    var stored := CanonicalBytes(Attempt(s.chain, op, env));
    ReceiptNames(s.chain, receipt, env, r);
    var j :| 0 <= j < |All(s)| && All(s)[j] == r;
    assert NamesOneOf(stored, All(s));
    BooksAppended(s, s.(chain := Step(s.chain, op, env).0), base, stored);
  }

  // ------------------------------------------------------------------ a call in phases

  /** Behind the checkpoint: witness receipts and rotation. */
  function WitnessPhase(s: State, config: Config, env: CallWorld): Recorder.Outcome {
    CheckRotation(if WitnessDue(s, config) then SendWitness(s, env) else s, config, env)
  }

  function CheckpointPhase(s: State, config: Config, env: CallWorld): Recorder.Outcome {
    var t :- if CheckpointDue(s, config) then EmitCheckpoint(s, env) else Fine(s);
    WitnessPhase(t, config, env)
  }

  function ActionOp(action: ActionPayload): Op { WriteRecord(Action(action), None, None) }

  /** record_action behind the flush. */
  function ActionPhase(s: State, config: Config, action: ActionPayload, env: CallWorld): Recorder.Outcome {
    var t :- WriteTracked(s, ActionOp(action), env.action);
    CheckpointPhase(t, config, env)
  }

  lemma CallPhases(s: State, config: Config, action: ActionPayload, env: CallWorld)
    requires !env.early
    ensures var f := FlushPendingGap(s, env.flush);
      RecordAction(s, config, action, env) == if f.Thrown? then f else ActionPhase(f.state, config, action, env)
  {
    hide FlushPendingGap, WriteTracked, EmitCheckpoint, SendWitness, CheckRotation;
  }

  // Which writes of a phase are accepted: the disk works, the record is validated, can be packed,
  // and is within the readers' limit.

  predicate GenesisAccepted(w: Writer, config: Config, env: CallWorld) {
    && Accepted(w, WriteRecord(Boot(config.boot), None, None), env.boot)
    && (config.level >= 2 && config.key.Some? ==>
          Accepted(Step(w, WriteRecord(Boot(config.boot), None, None), env.boot).0,
                   WriteRecord(Key(config.key.value), None, None), env.key))
  }

  predicate RotationAccepted(s: State, config: Config, env: CallWorld) {
    s.chain.bytesWritten >= config.maxSegmentBytes ==> GenesisAccepted(Reopened(s.chain, env), config, env)
  }

  predicate ReceiptsAccepted(w: Writer, sequence: int, hash: Digest, receipts: seq<Option<(Receipt, World)>>)
    decreases |receipts|
  {
    receipts == [] ||
    (match receipts[0]
     case None => ReceiptsAccepted(w, sequence, hash, receipts[1..])
     case Some((receipt, env)) =>
       && Accepted(w, ReceiptOp(sequence, hash, receipt), env)
       && ReceiptsAccepted(Step(w, ReceiptOp(sequence, hash, receipt), env).0, sequence, hash, receipts[1..]))
  }

  predicate WitnessAccepted(s: State, config: Config, env: CallWorld) {
    && (WitnessDue(s, config) ==> ReceiptsAccepted(s.chain, s.chain.sequence, s.chain.prevHash, env.receipts))
    && RotationAccepted(if WitnessDue(s, config) then SendWitness(s, env) else s, config, env)
  }

  predicate CheckpointAccepted(s: State, config: Config, env: CallWorld) {
    && (CheckpointDue(s, config) ==> Accepted(s.chain, CheckpointOp(s, env), env.checkpoint))
    && WitnessAccepted(if CheckpointDue(s, config) then EmitCheckpoint(s, env).state else s, config, env)
  }

  predicate ActionAccepted(s: State, config: Config, action: ActionPayload, env: CallWorld) {
    && Accepted(s.chain, ActionOp(action), env.action)
    && CheckpointAccepted(WriteTracked(s, ActionOp(action), env.action).state, config, env)
  }

  /** The pending gap cannot be written. */
  predicate FlushFails(s: State, env: CallWorld) {
    s.pendingGap && !Step(s.chain, PendingGapOp(s), env.flush).1.Written?
  }

  /** A recorded action fails before it takes a number, or the flush of the pending gap fails, or every
      write that the call makes is accepted. */
  predicate ActionFine(s: State, config: Config, action: ActionPayload, env: CallWorld) {
    || env.early
    || FlushFails(s, env)
    || ((s.pendingGap ==> Accepted(s.chain, PendingGapOp(s), env.flush))
        && ActionAccepted(FlushPendingGap(s, env.flush).state, config, action, env))
  }

  /** Record ids and the ids of a new writer have the size of an id. */
  predicate CallSized(env: CallWorld) {
    && |env.flush.recordId| == |env.action.recordId| == |env.checkpoint.recordId| == 16
    && |env.boot.recordId| == |env.key.recordId| == |env.newAgentId| == |env.newSessionId| == 16
    && ReceiptsSized(env.receipts)
  }

  predicate ReceiptsSized(receipts: seq<Option<(Receipt, World)>>) {
    forall i :: 0 <= i < |receipts| && receipts[i].Some? ==> |receipts[i].value.1.recordId| == 16
  }

  // --------------------------------------------------------- what accepted phases keep

  /** Every phase that changes no gap field leaves the chain to the next one. */
  lemma ReachedOn(s: State, t: State, u: State, base: nat, g: nat, a: seq<ActionPayload>, h: nat, b: seq<ActionPayload>)
    requires Reached(s, t, base, g, a) && Reached(t, u, base, h, b)
    ensures Reached(s, u, base, g + h, a + b)
  {
    hide Mid, All, GapCount, Actions;
    assert Actions(All(s)) + a + b == Actions(All(s)) + (a + b);
  }

  lemma StaysReached(s: State, base: nat)
    requires Mid(s, base)
    ensures Reached(s, s, base, 0, [])
  {
    hide Mid, All, GapCount, Actions;
    assert Actions(All(s)) + [] == Actions(All(s));
  }

  lemma {:induction false} ReceiptsKeep(s: State, base: nat, receipts: seq<Option<(Receipt, World)>>, r: bytes)
    requires Mid(s, base) && r in All(s) && ReceiptsAccepted(s.chain, SeqOf(r), Sha256(r), receipts)
    ensures Reached(s, s.(chain := WriteReceipts(s.chain, SeqOf(r), Sha256(r), receipts)), base, 0, [])
    decreases |receipts|
  {
    hide InStep, Accepted, Readable, GapCount, RecordsOf, Books, Actions, Step, SeqOf, ReceiptOp;
    if receipts == [] {
      StaysReached(s, base);
    } else {
      match receipts[0] {
        case None => ReceiptsKeep(s, base, receipts[1..], r);
        case Some((receipt, env)) =>
          ReceiptWrite(s, base, receipt, env, r);
          var t := s.(chain := Step(s.chain, ReceiptOp(SeqOf(r), Sha256(r), receipt), env).0);
          ReceiptsKeep(t, base, receipts[1..], r);
          ReachedOn(s, t, t.(chain := WriteReceipts(t.chain, SeqOf(r), Sha256(r), receipts[1..])), base, 0, [], 0, []);
      }
    }
  }

  /** What a recorder standing at the end of the chain sends is the number and hash of the last record. */
  lemma LastSent(s: State)
    requires InStep(s.chain, s.segments) && Readable(Some(s.chain.file)) != []
    ensures All(s) != []
    ensures var last := All(s)[|All(s)| - 1]; s.chain.sequence == SeqOf(last) && s.chain.prevHash == Sha256(last)
  {
    hide Readable, SeqOf, Intact;
  }

  lemma WitnessKeeps(s: State, base: nat, env: CallWorld)
    requires Mid(s, base) && ReceiptsAccepted(s.chain, s.chain.sequence, s.chain.prevHash, env.receipts)
    ensures Reached(s, SendWitness(s, env), base, 0, [])
  {
    hide InStep, Readable, GapCount, RecordsOf, Pending, CheckpointsRight, WitnessesRight, Actions, WriteReceipts,
      ReceiptsAccepted, SeqOf;
    LastSent(s);
    ReceiptsKeep(s, base, env.receipts, All(s)[|All(s)| - 1]);
  }

  /** The opening records of a new writer. */
  lemma GenesisKeeps(s: State, base: nat, config: Config, env: CallWorld)
    requires InStep(s.chain, s.segments) && Books(s, base) && GenesisAccepted(s.chain, config, env)
    ensures var t := EmitGenesis(s, config, env.boot, env.key); t.Fine? && Reached(s, t.state, base, 0, [])
  {
    hide Accepted, Readable, GapCount, RecordsOf, Books, Actions, Step, Intact, LastNumber, LastHash, Fitting,
      WriteTracked;
    var boot := WriteRecord(Boot(config.boot), None, None);
    AcceptedFits(s.chain, s.segments, boot, env.boot);
    TrackedWrite(s, base, boot, env.boot);
    var t := WriteTracked(s, boot, env.boot).state;
    if config.level >= 2 && config.key.Some? {
      TrackedChain(s, boot, env.boot);
      var key := WriteRecord(Key(config.key.value), None, None);
      AcceptedFits(t.chain, t.segments, key, env.key);
      TrackedWrite(t, base, key, env.key);
      ReachedOn(s, t, WriteTracked(t, key, env.key).state, base, 0, [], 0, []);
    }
  }

  lemma TrackedChain(s: State, op: Op, env: World)
    ensures var t := WriteTracked(s, op, env);
      && t.state.chain == Step(s.chain, op, env).0 && t.state.segments == s.segments
      && t.state.pendingGap == s.pendingGap && t.state.gapFirstLostSeq == s.gapFirstLostSeq
      && (t.Fine? <==> Step(s.chain, op, env).1.Written?)
  {
    hide Step, CanonicalBytes;
  }

  lemma BooksSame(s: State, t: State, base: nat)
    requires Books(s, base) && All(t) == All(s) && t.batch == s.batch && t.sinceCheckpoint == s.sinceCheckpoint
    ensures Books(t, base)
  {
    hide RecordsOf, Pending, CheckpointsRight, WitnessesRight;
  }

  /** The state behind a rotation, before the opening records. */
  function Rotated(s: State, env: CallWorld): State {
    s.(chain := Reopened(s.chain, env), segments := SegmentsAfter(s.chain, s.segments, env))
  }

  lemma RotateKeeps(s: State, base: nat, config: Config, env: CallWorld)
    requires Mid(s, base) && RotationAccepted(s, config, env) && |env.newAgentId| == 16 && |env.newSessionId| == 16
    ensures var t := CheckRotation(s, config, env); t.Fine? && Reached(s, t.state, base, 0, [])
  {
    hide Accepted, Readable, GapCount, RecordsOf, Books, Actions, EmitGenesis, GenesisAccepted, Reopened, Intact,
      LastNumber, LastHash;
    if s.chain.bytesWritten >= config.maxSegmentBytes {
      RotationKeeps(s.chain, s.segments, env);
      BooksSame(s, Rotated(s, env), base);
      GenesisKeeps(Rotated(s, env), base, config, env);
    } else {
      StaysReached(s, base);
    }
  }

  lemma WitnessPhaseKeeps(s: State, base: nat, config: Config, env: CallWorld)
    requires Mid(s, base) && WitnessAccepted(s, config, env) && CallSized(env)
    ensures var t := WitnessPhase(s, config, env); t.Fine? && Reached(s, t.state, base, 0, [])
  {
    hide Mid, GapCount, Actions, CheckRotation, ReceiptsAccepted, RotationAccepted, SendWitness, All, ReceiptsSized;
    if WitnessDue(s, config) {
      WitnessKeeps(s, base, env);
      RotateKeeps(SendWitness(s, env), base, config, env);
    } else {
      RotateKeeps(s, base, config, env);
    }
  }

  lemma CheckpointPhaseKeeps(s: State, base: nat, config: Config, env: CallWorld)
    requires Mid(s, base) && CheckpointAccepted(s, config, env) && CallSized(env)
    ensures var t := CheckpointPhase(s, config, env); t.Fine? && Reached(s, t.state, base, 0, [])
  {
    hide InStep, Books, Readable, GapCount, Actions, EmitCheckpoint, WitnessPhase, WitnessAccepted, All, ReceiptsSized,
      Accepted, CheckpointOp, CanonicalBytes, Attempt, Attests, Pending;
    if CheckpointDue(s, config) {
      CheckpointWrite(s, base, env);
      WitnessPhaseKeeps(EmitCheckpoint(s, env).state, base, config, env);
    } else {
      WitnessPhaseKeeps(s, base, config, env);
    }
  }

  lemma ActionPhaseKeeps(s: State, base: nat, config: Config, action: ActionPayload, env: CallWorld)
    requires InStep(s.chain, s.segments) && Books(s, base) && ActionAccepted(s, config, action, env) && CallSized(env)
    ensures var t := ActionPhase(s, config, action, env); t.Fine? && Reached(s, t.state, base, 0, [action])
  {
    hide Readable, GapCount, Actions, WriteTracked, CheckpointPhase, CheckpointAccepted, RecordsOf, ReceiptsSized,
      Books, Accepted, Intact, LastNumber, LastHash, Fitting;
    AcceptedFits(s.chain, s.segments, ActionOp(action), env.action);
    TrackedWrite(s, base, ActionOp(action), env.action);
    var t := WriteTracked(s, ActionOp(action), env.action).state;
    CheckpointPhaseKeeps(t, base, config, env);
    ReachedOn(s, t, CheckpointPhase(t, config, env).state, base, 0, [action], 0, []);
    assert [action] + [] == [action];
  }

  // ------------------------------------------------------- what a refused write leaves

  /** A write that is no gap, from a writer that is astray or one that refuses or replaces it. */
  lemma StepStrays(w: Writer, segments: seq<bytes>, op: Op, env: World)
    requires Sized(op, env) && NonGap(w, op)
    requires Astray(w, segments) || (InStep(w, segments) && !Accepted(w, op, env))
    ensures Astray(Step(w, op, env).0, segments)
  {
    hide RecordsOf, LastNumber, LastHash, Accepted, PayloadFor, Intact, Lost, Step, Sized, Readable;
    WriteStrays(w, segments, op, env);
  }

  lemma GenesisStrays(s: State, config: Config, env: CallWorld)
    requires CallSized(env)
    requires Astray(s.chain, s.segments) || (InStep(s.chain, s.segments) && !GenesisAccepted(s.chain, config, env))
    ensures var t := EmitGenesis(s, config, env.boot, env.key).state;
      Astray(t.chain, t.segments) && t.pendingGap == s.pendingGap
  {
    hide Accepted, Step, InStep, Astray, WriteTracked, ReceiptsSized, Fitting;
    var boot := WriteRecord(Boot(config.boot), None, None);
    TrackedChain(s, boot, env.boot);
    if Astray(s.chain, s.segments) || !Accepted(s.chain, boot, env.boot) {
      StepStrays(s.chain, s.segments, boot, env.boot);
    } else {
      AcceptedFits(s.chain, s.segments, boot, env.boot);
      StandsIntact(s.chain, s.segments);
      WriteExtends(s.chain, s.segments, boot, env.boot);
    }
    if config.level >= 2 && config.key.Some? {
      var t, key := WriteTracked(s, boot, env.boot).state, WriteRecord(Key(config.key.value), None, None);
      TrackedChain(t, key, env.key);
      StepStrays(t.chain, t.segments, key, env.key);
    }
  }

  lemma StandsIntact(w: Writer, segments: seq<bytes>)
    requires InStep(w, segments)
    ensures Ids(w) && Intact(segments, w.file) && w.bytesWritten == |w.file|
  {
  }

  lemma RotateStrays(s: State, config: Config, env: CallWorld)
    requires CallSized(env)
    requires Astray(s.chain, s.segments) || (InStep(s.chain, s.segments) && !RotationAccepted(s, config, env))
    ensures var t := CheckRotation(s, config, env).state; Astray(t.chain, t.segments) && t.pendingGap == s.pendingGap
  {
    hide EmitGenesis, GenesisAccepted, InStep, Astray, Reopened, ReceiptsSized;
    if s.chain.bytesWritten >= config.maxSegmentBytes {
      RotationKeeps(s.chain, s.segments, env);
      GenesisStrays(Rotated(s, env), config, env);
    }
  }

  lemma {:induction false} ReceiptsStray(w: Writer, segments: seq<bytes>, n: int, hash: Digest,
                                         receipts: seq<Option<(Receipt, World)>>)
    requires ReceiptsSized(receipts)
    requires Astray(w, segments) || (InStep(w, segments) && !ReceiptsAccepted(w, n, hash, receipts))
    ensures Astray(WriteReceipts(w, n, hash, receipts), segments)
    decreases |receipts|
  {
    hide Accepted, Step, InStep, Astray, Fitting;
    if receipts != [] {
      match receipts[0] {
        case None => ReceiptsStray(w, segments, n, hash, receipts[1..]);
        case Some((receipt, env)) =>
          var op := ReceiptOp(n, hash, receipt);
          assert receipts[0].value.1 == env;
          if Astray(w, segments) || !Accepted(w, op, env) {
            StepStrays(w, segments, op, env);
          } else {
            AcceptedFits(w, segments, op, env);
            StandsIntact(w, segments);
            WriteExtends(w, segments, op, env);
          }
          ReceiptsStray(Step(w, op, env).0, segments, n, hash, receipts[1..]);
      }
    }
  }

  lemma WitnessPhaseStrays(s: State, base: nat, config: Config, env: CallWorld)
    requires CallSized(env)
    requires Astray(s.chain, s.segments) || (Mid(s, base) && !WitnessAccepted(s, config, env))
    ensures var t := WitnessPhase(s, config, env).state; Astray(t.chain, t.segments) && t.pendingGap == s.pendingGap
  {
    hide Books, GapCount, Actions, CheckRotation, ReceiptsAccepted, RotationAccepted, WriteReceipts, All, ReceiptsSized,
      Astray, InStep, Readable;
    var accepted := ReceiptsAccepted(s.chain, s.chain.sequence, s.chain.prevHash, env.receipts);
    if WitnessDue(s, config) {
      if Astray(s.chain, s.segments) || !accepted {
        ReceiptsSizedOf(env);
        ReceiptsStray(s.chain, s.segments, s.chain.sequence, s.chain.prevHash, env.receipts);
      } else {
        WitnessKeeps(s, base, env);
      }
      RotateStrays(SendWitness(s, env), config, env);
    } else {
      RotateStrays(s, config, env);
    }
  }

  lemma ReceiptsSizedOf(env: CallWorld)
    requires CallSized(env)
    ensures ReceiptsSized(env.receipts)
  {
  }

  lemma CheckpointPhaseStrays(s: State, base: nat, config: Config, env: CallWorld)
    requires CallSized(env)
    requires Astray(s.chain, s.segments) || (Mid(s, base) && !CheckpointAccepted(s, config, env))
    ensures var t := CheckpointPhase(s, config, env).state; Astray(t.chain, t.segments) && t.pendingGap == s.pendingGap
  {
    hide Books, GapCount, Actions, WitnessPhase, WitnessAccepted, All, ReceiptsSized, Astray, InStep, Readable, Step,
      Accepted, CheckpointFor, CanonicalBytes, Attempt, Attests, Pending;
    if CheckpointDue(s, config) {
      var t := EmitCheckpoint(s, env);
      if Astray(s.chain, s.segments) || !Accepted(s.chain, CheckpointOp(s, env), env.checkpoint) {
        StepStrays(s.chain, s.segments, CheckpointOp(s, env), env.checkpoint);
      } else {
        CheckpointWrite(s, base, env);
      }
      if t.Fine? {
        WitnessPhaseStrays(t.state, base, config, env);
      }
    } else {
      WitnessPhaseStrays(s, base, config, env);
    }
  }

  lemma ActionPhaseStrays(s: State, base: nat, config: Config, action: ActionPayload, env: CallWorld)
    requires CallSized(env)
    requires Astray(s.chain, s.segments)
             || (InStep(s.chain, s.segments) && Books(s, base) && !ActionAccepted(s, config, action, env))
    ensures var t := ActionPhase(s, config, action, env).state;
      Astray(t.chain, t.segments) && t.pendingGap == s.pendingGap
  {
    hide Books, GapCount, Actions, CheckpointPhase, CheckpointAccepted, All, ReceiptsSized, Astray, InStep, Readable,
      Step, Accepted, WriteTracked, Fitting, ActionOp;
    var op, t := ActionOp(action), WriteTracked(s, ActionOp(action), env.action);
    ActionNoGap(s.chain, action);
    TrackedChain(s, op, env.action);
    if Astray(s.chain, s.segments) || !Accepted(s.chain, op, env.action) {
      ActionSized(env, action);
      StepStrays(s.chain, s.segments, op, env.action);
    } else {
      AcceptedFits(s.chain, s.segments, op, env.action);
      StandsIntact(s.chain, s.segments);
      TrackedWrite(s, base, op, env.action);
    }
    if t.Fine? {
      CheckpointPhaseStrays(t.state, base, config, env);
    }
  }

  lemma ActionNoGap(w: Writer, action: ActionPayload)
    ensures NonGap(w, ActionOp(action)) && TypeOf(PayloadFor(w, ActionOp(action))) == ACTION
    ensures ActsOf(PayloadFor(w, ActionOp(action))) == [action]
  {
  }

  lemma ActionSized(env: CallWorld, action: ActionPayload)
    requires CallSized(env)
    ensures Sized(ActionOp(action), env.action)
  {
  }

  // ----------------------------------------------------------------------- the flush

  /** The pending gap of a good state, once accepted, fits. */
  lemma FlushFits(s: State, base: nat, env: World)
    requires Good(s, base) && s.pendingGap && Accepted(s.chain, PendingGapOp(s), env)
    ensures Fitting(s.chain, s.segments, PendingGapOp(s), env)
  {
    hide Accepted, Intact, RecordsOf, LastNumber, LastHash, Readable, Books;
  }

  lemma FlushKeeps(s: State, base: nat, env: World)
    requires Good(s, base) && (s.pendingGap ==> Accepted(s.chain, PendingGapOp(s), env))
    ensures var t := FlushPendingGap(s, env);
      && t.Fine? && InStep(t.state.chain, t.state.segments) && Books(t.state, base) && !t.state.pendingGap
      && GapCount(All(t.state)) == GapCount(All(s)) + (if s.pendingGap then 1 else 0)
      && Actions(All(t.state)) == Actions(All(s))
  {
    hide Accepted, Intact, RecordsOf, LastNumber, LastHash, Readable, GapCount, Actions, WriteTracked, Pending,
      CheckpointsRight, WitnessesRight, Fitting;
    if s.pendingGap {
      FlushFits(s, base, env);
      TrackedWrite(s, base, PendingGapOp(s), env);
      assert Actions(All(s)) + [] == Actions(All(s));
    }
  }

  /** A flush that does not fit, from a good state or one that is off. */
  lemma FlushStrays(s: State, base: nat, env: World)
    requires s.pendingGap && |env.recordId| == 16
    requires Off(s) || (Good(s, base) && Step(s.chain, PendingGapOp(s), env).1.Written?
                        && !Accepted(s.chain, PendingGapOp(s), env))
    ensures var t := FlushPendingGap(s, env);
      && Astray(t.state.chain, t.state.segments)
      && (t.Fine? ==> !t.state.pendingGap && Lost(t.state.segments, t.state.chain.file))
      && (t.Thrown? ==> t.state == s.(chain := t.state.chain) && t.state.chain.file == s.chain.file)
  {
    hide Accepted, Intact, RecordsOf, LastNumber, LastHash, Readable, Step, Books, Lost, CanonicalBytes;
    var op := PendingGapOp(s);
    assert !Off(s) ==> !Fitting(s.chain, s.segments, op, env);
    WriteStrays(s.chain, s.segments, op, env);
  }

  // ----------------------------------------------------------------- recording an action

  /** Whatever the call did, its failure is remembered behind the number the chain needs. */
  lemma RememberedOff(t: State, text: Text)
    requires Off(t)
    ensures Off(Remembered(t, text))
  {
    hide Intact, RecordsOf, LastNumber, Lost;
  }

  lemma RememberedGood(t: State, base: nat, text: Text)
    requires Good(t, base)
    ensures Good(Remembered(t, text), base) && All(Remembered(t, text)) == All(t)
  {
    hide Intact, RecordsOf, LastNumber, LastHash, Readable, Pending, CheckpointsRight, WitnessesRight;
  }

  lemma AstrayOff(t: State)
    requires Astray(t.chain, t.segments) && !t.pendingGap
    ensures Off(t)
  {
    hide Intact, RecordsOf, LastNumber, Lost;
  }

  /** Recording an action that is not fine leaves the recorder off, and a recorder that is off stays off. */
  lemma RecordStrays(s: State, base: nat, config: Config, action: ActionPayload, env: CallWorld)
    requires CallSized(env)
    requires Off(s) || (Good(s, base) && !ActionFine(s, config, action, env))
    ensures Off(RecordAction(s, config, action, env).state)
  {
    hide Off, Good, Astray, InStep, Books, Accepted, ActionAccepted, ActionPhase, FlushPendingGap, Step, All,
      ReceiptsSized, RecordAction, Remembered, PendingGapOp;
    if env.early {
      EarlyThrown(s, config, action, env);
    } else {
      CallPhases(s, config, action, env);
      var f := FlushPendingGap(s, env.flush);
      FlushOff(s, base, env);
      if f.Fine? {
        if !Astray(f.state.chain, f.state.segments) {
          FlushKeeps(s, base, env.flush);
        }
        ActionPhaseStrays(f.state, base, config, action, env);
        AstrayOff(ActionPhase(f.state, config, action, env).state);
      }
    }
  }

  lemma EarlyThrown(s: State, config: Config, action: ActionPayload, env: CallWorld)
    requires env.early
    ensures RecordAction(s, config, action, env) == Recorder.Outcome.Thrown(s)
  {
    hide FlushPendingGap, WriteTracked, EmitCheckpoint, SendWitness, CheckRotation;
  }

  /** The flush of a recorder that is off, or that does not accept its pending gap. */
  lemma FlushOff(s: State, base: nat, env: CallWorld)
    requires CallSized(env)
    requires Off(s) || (Good(s, base) && !FlushFails(s, env))
    ensures var f := FlushPendingGap(s, env.flush);
      var strays := Off(s) || (s.pendingGap && !Accepted(s.chain, PendingGapOp(s), env.flush));
      && (f.Fine? ==> !f.state.pendingGap)
      && (f.Fine? && strays ==> Astray(f.state.chain, f.state.segments))
      && (f.Thrown? ==> Off(f.state) && f.state.pendingGap)
  {
    hide Intact, RecordsOf, LastNumber, LastHash, Lost, Accepted, Books, Step, ReceiptsSized, Readable, PendingGapOp,
      CanonicalBytes;
    if s.pendingGap && (Off(s) || !Accepted(s.chain, PendingGapOp(s), env.flush)) {
      FlushStrays(s, base, env.flush);
    }
  }

  /** A failed flush leaves the hash that the next record links to; only a gap record of more than
      32 bits' length changes it (ShortKeepsHash). */
  predicate KeepsHash(s: State, env: World) {
    Step(s.chain, PendingGapOp(s), env).0.prevHash == s.chain.prevHash
  }

  /** Recording an action that fails early or at its flush adds no record. Any other that is fine gets
      through: it puts its action on the chain, once, with one gap record in front of it exactly when
      a failure was pending. */
  lemma RecordKeeps(s: State, base: nat, config: Config, action: ActionPayload, env: CallWorld)
    requires Good(s, base) && ActionFine(s, config, action, env) && CallSized(env)
    requires !env.early && FlushFails(s, env) ==> KeepsHash(s, env.flush)
    ensures var r := RecordAction(s, config, action, env); var t, failed := r.state, env.early || FlushFails(s, env);
      && Good(t, base) && r.Thrown? == failed && t.pendingGap == (failed && s.pendingGap)
      && GapCount(All(t)) == GapCount(All(s)) + (if s.pendingGap && !failed then 1 else 0)
      && Actions(All(t)) == Actions(All(s)) + (if failed then [] else [action])
  {
    hide Good, InStep, Books, Accepted, ActionAccepted, ActionPhase, FlushPendingGap, Step, All, FlushFails,
      ReceiptsSized, RecordAction, Remembered, PendingGapOp, GapCount, Actions, Readable, KeepsHash;
    if env.early {
      EarlyThrown(s, config, action, env);
      assert Actions(All(s)) + [] == Actions(All(s));
    } else {
      CallPhases(s, config, action, env);
      FlushThrown(s, env);
      if FlushFails(s, env) {
        FailedFlushKeeps(s, base, env);
      } else {
        FlushKeeps(s, base, env.flush);
        var f := FlushPendingGap(s, env.flush).state;
        ActionPhaseKeeps(f, base, config, action, env);
        NowGood(f, ActionPhase(f, config, action, env).state, base, [action]);
      }
    }
  }

  lemma FlushThrown(s: State, env: CallWorld)
    ensures FlushFails(s, env) <==> FlushPendingGap(s, env.flush).Thrown?
  {
    hide Step, CanonicalBytes, PendingGapOp;
  }

  lemma NowGood(s: State, t: State, base: nat, actions: seq<ActionPayload>)
    requires Reached(s, t, base, 0, actions) && !s.pendingGap
    ensures Good(t, base)
  {
    hide Intact, RecordsOf, Readable, LastHash, LastNumber, Pending, CheckpointsRight, WitnessesRight, GapCount,
      Actions;
  }

  lemma FailedFlushKeeps(s: State, base: nat, env: CallWorld)
    requires Good(s, base) && FlushFails(s, env) && KeepsHash(s, env.flush)
    ensures var t := FlushPendingGap(s, env.flush).state;
      && Good(t, base) && All(t) == All(s) && t.pendingGap && s.pendingGap
      && Actions(All(t)) == Actions(All(s)) + []
  {
    hide Intact, RecordsOf, Readable, LastHash, LastNumber, Pending, CheckpointsRight, WitnessesRight, Actions, Step,
      Attempt, Encodable, CanonicalBytes, Frame;
    StepEffect(s.chain, PendingGapOp(s), env.flush);
    assert Actions(All(s)) + [] == Actions(All(s));
  }

  // ------------------------------------------------------- writes beside a pending gap

  /** The longest gap text whose record is shorter than 4 GiB, and a length that the parts of a receipt
      are taken to stay below. */
  const TEXT_LIMIT: nat := MAX_UINT32 - 140
  const RECEIPT_LIMIT: nat := 0x1000_0000

  /** A gap is pending that starts with the next number, and the writer links to the end of the chain. */
  predicate HoldsGap(w: Writer, segments: seq<bytes>, first: int) {
    Stand(w, segments) && first == LastNumber(RecordsOf(segments, w.file)) + 1
  }

  /** A record that lands on a whole chain and leaves it whole has the number the writer now stands at. */
  lemma LandedLast(w: Writer, segments: seq<bytes>, op: Op, env: World)
    requires Ids(w) && Sized(op, env) && NonGap(w, op) && Step(w, op, env).1.Written?
    requires Intact(segments, w.file) && Intact(segments, Step(w, op, env).0.file)
    ensures var v := Step(w, op, env).0;
      LastNumber(RecordsOf(segments, v.file)) == v.sequence == w.sequence + 1
  {
    hide CanonicalBytes, Encodable, Intact, Step, Frame, Attempt, RecordsOf, Readable, Lost, Continues, GoesOn,
      TypeFieldOf, IsGap, PrevHashOf, SeqOf, GapIn, RecordOk, LastHash, Sized, Built;
    StepEffect(w, op, env);
    AttemptBuilt(w, op, env);
    WriteExact(w, segments, op, env);
    AcceptedPayload(w, op, env);
    IntactAppend(segments, w.file, Attempt(w, op, env));
    RecordSays(Attempt(w, op, env));
  }

  lemma MisplacedStays(w: Writer, segments: seq<bytes>, first: int, op: Op, env: World)
    requires Sized(op, env) && NonGap(w, op) && Misplaced(w, segments, first)
    ensures Misplaced(Step(w, op, env).0, segments, first)
  {
    hide CanonicalBytes, Encodable, Intact, Step, Frame, Attempt, RecordsOf, Lost, LastNumber, Sized, PayloadFor,
      Fitting;
    StepEffect(w, op, env);
    if Lost(segments, w.file) {
      WriteStrays(w, segments, op, env);
    } else if Step(w, op, env).1.Written? {
      WriteExact(w, segments, op, env);
      if Intact(segments, Step(w, op, env).0.file) {
        LandedLast(w, segments, op, env);
        FittingNumber(w, segments, op, env);
      }
    }
  }

  lemma FittingNumber(w: Writer, segments: seq<bytes>, op: Op, env: World)
    requires NonGap(w, op) && Fitting(w, segments, op, env)
    ensures w.sequence == LastNumber(RecordsOf(segments, w.file))
  {
    hide Accepted, RecordsOf, LastNumber, PayloadFor;
  }

  /** A record that is no gap, written while a gap is pending: what lands takes the number that the gap
      starts with, or puts the chain past repair; what fails, and leaves the hash alone, does no harm. */
  lemma HeldGapWrite(w: Writer, segments: seq<bytes>, first: int, op: Op, env: World)
    requires HoldsGap(w, segments, first) && Sized(op, env) && NonGap(w, op)
    ensures var (v, result) := Step(w, op, env);
      && (result.Written? ==> Misplaced(v, segments, first))
      && (!result.Written? && v.prevHash == w.prevHash ==> HoldsGap(v, segments, first) && v.file == w.file)
  {
    hide CanonicalBytes, Encodable, Intact, Step, Frame, Attempt, RecordsOf, Lost, LastNumber, LastHash, Sized,
      PayloadFor, Fitting;
    StepEffect(w, op, env);
    if Step(w, op, env).1.Written? {
      WriteExact(w, segments, op, env);
      if Intact(segments, Step(w, op, env).0.file) {
        LandedLast(w, segments, op, env);
        FittingNumber(w, segments, op, env);
      }
    }
  }

  /** A refused record of less than 4 GiB leaves the hash alone. */
  lemma SmallKeepsHash(w: Writer, op: Op, env: World)
    requires !Step(w, op, env).1.Written?
    requires Encodable(Attempt(w, op, env)) ==> |CanonicalBytes(Attempt(w, op, env))| <= MAX_UINT32
    ensures Step(w, op, env).0.prevHash == w.prevHash
  {
    hide CanonicalBytes, Encodable, Attempt, Step;
    RefusedHash(w, op, env);
  }

  lemma {:induction false} EncodeBound(fs: seq<Field>, b: nat)
    requires forall i :: 0 <= i < |fs| ==> |FieldBytes(fs[i])| <= b
    ensures |Encode(fs)| <= |fs| * b
  {
    hide FieldBytes;
    if fs != [] {
      EncodeBound(fs[1..], b);
    }
  }

  /** The record attempted holds the payload asked for, validated, or is a replacement. */
  lemma AttemptKind(w: Writer, op: Op, env: World)
    ensures var r := Attempt(w, op, env);
      || (r.payload == PayloadFor(w, op) && (r.payload.Gap? || Passes(r)))
      || (r.payload.Gap? && r.payload.gap.detail == env.errors)
  {
    hide Passes, PayloadFor;
  }

  lemma CheckpointLength(c: CheckpointPayload)
    requires CheckpointPasses(c)
    ensures |PayloadBytes(Checkpoint(c))| <= 640
  {
    hide LE, Encode;
    var fs := CheckpointFields(c);
    assert forall i :: 0 <= i < |fs| ==> |FieldBytes(fs[i])| <= 64;
    EncodeBound(fs, 64);
  }

  lemma WitnessLength(w: WitnessPayload)
    requires |w.witnessId| <= RECEIPT_LIMIT && |w.receiptSignature| <= RECEIPT_LIMIT
    requires |w.witnessPublicKey| <= RECEIPT_LIMIT && |w.checkpointHash| == 32
    ensures |PayloadBytes(Witness(w))| <= 6 * (RECEIPT_LIMIT + 4)
  {
    hide LE, Encode;
    var fs := WitnessFields(w);
    assert forall i :: 0 <= i < |fs| ==> |FieldBytes(fs[i])| <= RECEIPT_LIMIT + 4;
    EncodeBound(fs, RECEIPT_LIMIT + 4);
  }

  lemma BuiltLength(r: Record)
    requires Built(r) && Encodable(r)
    ensures |CanonicalBytes(r)| == 108 + |PayloadBytes(r.payload)|
  {
    hide CanonicalBytes, EnvelopeFields, Fit, LE, PayloadBytes, PayloadFits;
    BuiltEnvelope(r);
    EnvelopeLayout(r);
  }

  lemma CheckpointSmall(s: State, env: CallWorld)
    requires Ids(s.chain) && |env.checkpoint.recordId| == 16 && |env.checkpoint.errors| <= TEXT_LIMIT
    ensures var r := Attempt(s.chain, CheckpointOp(s, env), env.checkpoint);
      Encodable(r) ==> |CanonicalBytes(r)| <= MAX_UINT32
  {
    hide CanonicalBytes, Encodable, Attempt, Passes, PayloadBytes, CheckpointFor;
    var r := Attempt(s.chain, CheckpointOp(s, env), env.checkpoint);
    AttemptKind(s.chain, CheckpointOp(s, env), env.checkpoint);
    if Encodable(r) {
      AttemptBuilt(s.chain, CheckpointOp(s, env), env.checkpoint);
      BuiltLength(r);
      if r.payload.Gap? {
        GapLength(r);
      } else {
        PassedCheckpoint(r);
        CheckpointLength(r.payload.checkpoint);
      }
    }
  }

  lemma PassedCheckpoint(r: Record)
    requires Passes(r) && r.payload.Checkpoint?
    ensures CheckpointPasses(r.payload.checkpoint)
  {
  }

  /** The parts of a receipt, and the text that would replace its record, are within limits. */
  predicate Moderate(receipt: Receipt, env: World) {
    && |receipt.witnessId| <= RECEIPT_LIMIT && |receipt.signature| <= RECEIPT_LIMIT
    && |receipt.publicKey| <= RECEIPT_LIMIT && |env.errors| <= TEXT_LIMIT
  }

  lemma ReceiptSmall(w: Writer, n: int, hash: Digest, receipt: Receipt, env: World)
    requires Ids(w) && |env.recordId| == 16 && Moderate(receipt, env)
    ensures var r := Attempt(w, ReceiptOp(n, hash, receipt), env);
      Encodable(r) ==> |CanonicalBytes(r)| <= MAX_UINT32
  {
    hide CanonicalBytes, Encodable, Attempt, Passes, PayloadBytes;
    var op := ReceiptOp(n, hash, receipt);
    var r := Attempt(w, op, env);
    AttemptKind(w, op, env);
    if Encodable(r) {
      AttemptBuilt(w, op, env);
      BuiltLength(r);
      if r.payload.Gap? {
        GapLength(r);
      } else {
        WitnessLength(WitnessFor(n, hash, receipt));
      }
    }
  }

  /** None of the receipts' records lands. */
  predicate NoneLands(w: Writer, n: int, hash: Digest, receipts: seq<Option<(Receipt, World)>>)
    decreases |receipts|
  {
    receipts == [] ||
    (match receipts[0]
     case None => NoneLands(w, n, hash, receipts[1..])
     case Some((receipt, env)) =>
       && !Step(w, ReceiptOp(n, hash, receipt), env).1.Written?
       && NoneLands(Step(w, ReceiptOp(n, hash, receipt), env).0, n, hash, receipts[1..]))
  }

  predicate AllModerate(receipts: seq<Option<(Receipt, World)>>) {
    forall i :: 0 <= i < |receipts| && receipts[i].Some? ==> Moderate(receipts[i].value.0, receipts[i].value.1)
  }

  lemma {:induction false} ReceiptsMisplaced(w: Writer, segments: seq<bytes>, first: int, n: int, hash: Digest,
                                             receipts: seq<Option<(Receipt, World)>>)
    requires Misplaced(w, segments, first) && ReceiptsSized(receipts)
    ensures Misplaced(WriteReceipts(w, n, hash, receipts), segments, first)
    decreases |receipts|
  {
    hide Misplaced, Step;
    if receipts != [] {
      match receipts[0] {
        case None => ReceiptsMisplaced(w, segments, first, n, hash, receipts[1..]);
        case Some((receipt, env)) =>
          assert receipts[0].value.1 == env;
          MisplacedStays(w, segments, first, ReceiptOp(n, hash, receipt), env);
          ReceiptsMisplaced(Step(w, ReceiptOp(n, hash, receipt), env).0, segments, first, n, hash, receipts[1..]);
      }
    }
  }

  lemma {:induction false} ReceiptsHeld(w: Writer, segments: seq<bytes>, first: int, n: int, hash: Digest,
                                        receipts: seq<Option<(Receipt, World)>>)
    requires HoldsGap(w, segments, first) && ReceiptsSized(receipts) && AllModerate(receipts)
    ensures var v := WriteReceipts(w, n, hash, receipts);
      if NoneLands(w, n, hash, receipts) then HoldsGap(v, segments, first) && v.file == w.file
      else Misplaced(v, segments, first)
    decreases |receipts|
  {
    hide Misplaced, HoldsGap, Step, Moderate, CanonicalBytes, Encodable, Attempt;
    if receipts != [] {
      match receipts[0] {
        case None => ReceiptsHeld(w, segments, first, n, hash, receipts[1..]);
        case Some((receipt, env)) =>
          assert receipts[0].value == (receipt, env);
          var op := ReceiptOp(n, hash, receipt);
          var v := Step(w, op, env).0;
          HeldGapWrite(w, segments, first, op, env);
          if Step(w, op, env).1.Written? {
            ReceiptsMisplaced(v, segments, first, n, hash, receipts[1..]);
          } else {
            HeldIds(w, segments, first);
            ReceiptSmall(w, n, hash, receipt, env);
            SmallKeepsHash(w, op, env);
            ReceiptsHeld(v, segments, first, n, hash, receipts[1..]);
          }
      }
    }
  }

  lemma HeldIds(w: Writer, segments: seq<bytes>, first: int)
    requires HoldsGap(w, segments, first)
    ensures Ids(w)
  {
  }

  // ------------------------------------------------------------------------ one call

  predicate Short(s: State) { |s.gapDetail| <= TEXT_LIMIT }

  /** Ids have the size of an id, and texts and receipts are within limits. */
  predicate CallWithin(call: Call) {
    && CallSized(call.env)
    && |call.env.errorText| <= TEXT_LIMIT && |call.env.checkpoint.errors| <= TEXT_LIMIT
    && AllModerate(call.env.receipts)
  }

  /** Recording an action is fine as above. A checkpoint or a witness record written by an explicit call
      must be accepted where no gap is pending, and must not land where one is. */
  predicate CallFine(s: State, config: Config, call: Call) {
    match call
    case Safe(action, env) => ActionFine(s, config, action, env)
    case Direct(action, env) => ActionFine(s, config, action, env)
    case MakeCheckpoint(env) =>
      if s.pendingGap then !Step(s.chain, CheckpointOp(s, env), env.checkpoint).1.Written?
      else Accepted(s.chain, CheckpointOp(s, env), env.checkpoint)
    case SendReceipts(env) =>
      if s.pendingGap then NoneLands(s.chain, s.chain.sequence, s.chain.prevHash, env.receipts)
      else ReceiptsAccepted(s.chain, s.chain.sequence, s.chain.prevHash, env.receipts)
  }

  /** What a call means for the chain: its action got through, safe_record remembered its failure, or
      neither. */
  datatype Mark = Through(action: ActionPayload) | Missed | Aside

  function MarkOf(s: State, config: Config, call: Call): Mark {
    match call
    case Safe(action, env) => if RecordAction(s, config, action, env).Fine? then Through(action) else Missed
    case Direct(action, env) => if RecordAction(s, config, action, env).Fine? then Through(action) else Aside
    case MakeCheckpoint(_) => Aside
    case SendReceipts(_) => Aside
  }

  function PendingAfter(m: Mark, pending: bool): bool {
    match m case Through(_) => false case Missed => true case Aside => pending
  }

  function ActionsOf(m: Mark): seq<ActionPayload> {
    if m.Through? then [m.action] else []
  }

  /** What a fine call adds to the chain. */
  ghost predicate Added(s: State, t: State, base: nat, m: Mark) {
    && Good(t, base) && Short(t) && t.pendingGap == PendingAfter(m, s.pendingGap)
    && GapCount(All(t)) == GapCount(All(s)) + (if m.Through? && s.pendingGap then 1 else 0)
    && Actions(All(t)) == Actions(All(s)) + ActionsOf(m)
  }

  lemma DetailKept(s: State, config: Config, action: ActionPayload, env: CallWorld)
    ensures RecordAction(s, config, action, env).state.gapDetail in {s.gapDetail, []}
  {
    hide Step, CanonicalBytes, WriteReceipts, PendingGapOp, Reopened, CheckpointFor;
  }

  lemma FlushKeepsHash(s: State, base: nat, env: CallWorld)
    requires Good(s, base) && Short(s) && CallSized(env)
    ensures FlushFails(s, env) ==> KeepsHash(s, env.flush)
  {
    hide Step, Intact, RecordsOf, LastNumber, LastHash, Books, Readable, KeepsHash, CanonicalBytes, PendingGapOp,
      ReceiptsSized;
    if FlushFails(s, env) {
      ShortKeepsHash(s, env.flush);
    }
  }

  lemma RecordingKeeps(s: State, base: nat, config: Config, call: Call)
    requires Good(s, base) && Short(s) && CallFine(s, config, call) && CallWithin(call)
    requires call.Safe? || call.Direct?
    ensures Added(s, AfterCall(s, config, call), base, MarkOf(s, config, call))
  {
    hide Good, RecordAction, ActionFine, All, Actions, GapCount, FlushFails, KeepsHash, CallSized, AllModerate,
      EmitCheckpoint;
    var action, env := call.action, call.env;
    FlushKeepsHash(s, base, env);
    RecordKeeps(s, base, config, action, env);
    DetailKept(s, config, action, env);
    RememberedGood(RecordAction(s, config, action, env).state, base, env.errorText);
  }

  /** Nothing is added where nothing lands. */
  lemma HeldGood(s: State, base: nat, w: Writer, n: nat)
    requires Good(s, base) && s.pendingGap
    requires HoldsGap(w, s.segments, s.gapFirstLostSeq) && w.file == s.chain.file
    ensures var t := s.(chain := w, sinceWitness := n);
      Good(t, base) && All(t) == All(s)
  {
    hide Intact, RecordsOf, LastNumber, LastHash, Readable, Pending, CheckpointsRight, WitnessesRight;
  }

  lemma GoodHolds(s: State, base: nat)
    requires Good(s, base)
    ensures Ids(s.chain)
    ensures if s.pendingGap then HoldsGap(s.chain, s.segments, s.gapFirstLostSeq) else Mid(s, base)
  {
    hide Intact, RecordsOf, LastNumber, LastHash, Readable, Books;
  }

  lemma CheckpointNoGap(s: State, env: CallWorld)
    requires CallSized(env)
    ensures Sized(CheckpointOp(s, env), env.checkpoint) && NonGap(s.chain, CheckpointOp(s, env))
  {
    hide CheckpointFor;
  }

  lemma CheckpointKept(s: State, base: nat, config: Config, call: Call)
    requires Good(s, base) && Short(s) && CallFine(s, config, call) && CallWithin(call) && call.MakeCheckpoint?
    ensures Added(s, AfterCall(s, config, call), base, Aside)
  {
    hide Good, Mid, All, Actions, GapCount, CallSized, AllModerate, CheckpointOp, Step, Accepted, HoldsGap, Books,
      InStep, Readable, Attempt, Encodable, CanonicalBytes, Attests, Pending;
    var env := call.env;
    var op := CheckpointOp(s, env);
    GoodHolds(s, base);
    CheckpointNoGap(s, env);
    assert Actions(All(s)) + [] == Actions(All(s));
    if s.pendingGap {
      HeldGapWrite(s.chain, s.segments, s.gapFirstLostSeq, op, env.checkpoint);
      SizedCheckpoint(env);
      CheckpointSmall(s, env);
      SmallKeepsHash(s.chain, op, env.checkpoint);
      HeldGood(s, base, Step(s.chain, op, env.checkpoint).0, s.sinceWitness);
    } else {
      MidParts(s, base);
      CheckpointWrite(s, base, env);
      NowGood(s, EmitCheckpoint(s, env).state, base, []);
    }
  }

  lemma SizedCheckpoint(env: CallWorld)
    requires CallSized(env)
    ensures |env.checkpoint.recordId| == 16
  {
  }

  lemma MidParts(s: State, base: nat)
    requires Mid(s, base)
    ensures InStep(s.chain, s.segments) && Books(s, base)
  {
  }

  lemma ReceiptsKept(s: State, base: nat, config: Config, call: Call)
    requires Good(s, base) && Short(s) && CallFine(s, config, call) && CallWithin(call) && call.SendReceipts?
    ensures Added(s, AfterCall(s, config, call), base, Aside)
  {
    hide Good, Mid, All, Actions, GapCount, AllModerate, Accepted, HoldsGap, NoneLands, ReceiptsAccepted, WriteReceipts,
      ReceiptsSized;
    var env := call.env;
    GoodHolds(s, base);
    assert Actions(All(s)) + [] == Actions(All(s));
    if s.pendingGap {
      ReceiptsHeld(s.chain, s.segments, s.gapFirstLostSeq, s.chain.sequence, s.chain.prevHash, env.receipts);
      HeldGood(s, base, SendWitness(s, env).chain, 0);
    } else {
      WitnessKeeps(s, base, env);
      NowGood(s, SendWitness(s, env), base, []);
    }
  }

  /** A fine call leaves the recorder in a good state, and adds to the chain what its mark says. */
  lemma CallKeeps(s: State, base: nat, config: Config, call: Call)
    requires Good(s, base) && Short(s) && CallFine(s, config, call) && CallWithin(call)
    ensures Added(s, AfterCall(s, config, call), base, MarkOf(s, config, call))
  {
    hide Good, Short, CallFine, CallWithin, Added, AfterCall, RecordAction;
    match call
    case Safe(_, _) => RecordingKeeps(s, base, config, call);
    case Direct(_, _) => RecordingKeeps(s, base, config, call);
    case MakeCheckpoint(_) => CheckpointKept(s, base, config, call);
    case SendReceipts(_) => ReceiptsKept(s, base, config, call);
  }

  lemma CheckpointStrays(s: State, base: nat, config: Config, call: Call)
    requires CallWithin(call) && call.MakeCheckpoint?
    requires Off(s) || (Good(s, base) && !CallFine(s, config, call))
    ensures Off(AfterCall(s, config, call))
  {
    hide Good, Mid, CallSized, AllModerate, CheckpointOp, Step, Accepted, HoldsGap, Misplaced, Astray, Books, InStep,
      Readable;
    var env := call.env;
    var op := CheckpointOp(s, env);
    CheckpointNoGap(s, env);
    if Off(s) {
      if s.pendingGap {
        MisplacedStays(s.chain, s.segments, s.gapFirstLostSeq, op, env.checkpoint);
      } else {
        StepStrays(s.chain, s.segments, op, env.checkpoint);
      }
    } else {
      GoodHolds(s, base);
      if s.pendingGap {
        HeldGapWrite(s.chain, s.segments, s.gapFirstLostSeq, op, env.checkpoint);
      } else {
        MidParts(s, base);
        StepStrays(s.chain, s.segments, op, env.checkpoint);
      }
    }
  }

  lemma SendingStrays(s: State, base: nat, config: Config, call: Call)
    requires CallWithin(call) && call.SendReceipts?
    requires Off(s) || (Good(s, base) && !CallFine(s, config, call))
    ensures Off(AfterCall(s, config, call))
  {
    hide Good, Mid, AllModerate, Accepted, HoldsGap, NoneLands, ReceiptsAccepted, WriteReceipts, Misplaced, Astray,
      ReceiptsSized, Books, InStep, Readable;
    var w, env := s.chain, call.env;
    if Off(s) {
      if s.pendingGap {
        ReceiptsMisplaced(w, s.segments, s.gapFirstLostSeq, w.sequence, w.prevHash, env.receipts);
      } else {
        ReceiptsStray(w, s.segments, w.sequence, w.prevHash, env.receipts);
      }
    } else {
      GoodHolds(s, base);
      if s.pendingGap {
        ReceiptsHeld(w, s.segments, s.gapFirstLostSeq, w.sequence, w.prevHash, env.receipts);
      } else {
        MidParts(s, base);
        ReceiptsStray(w, s.segments, w.sequence, w.prevHash, env.receipts);
      }
    }
  }

  /** A call that is not fine leaves the recorder off, and a recorder that is off stays off. */
  lemma CallStrays(s: State, base: nat, config: Config, call: Call)
    requires CallWithin(call)
    requires Off(s) || (Good(s, base) && !CallFine(s, config, call))
    ensures Off(AfterCall(s, config, call))
  {
    hide Off, Good, ActionFine, RecordAction, EmitCheckpoint, SendWitness, Remembered, AllModerate, Accepted, NoneLands,
      ReceiptsAccepted, Step, CheckpointOp, CallSized;
    match call
    case Safe(action, env) =>
      RecordStrays(s, base, config, action, env);
      RememberedOff(RecordAction(s, config, action, env).state, env.errorText);
    case Direct(action, env) => RecordStrays(s, base, config, action, env);
    case MakeCheckpoint(_) => CheckpointStrays(s, base, config, call);
    case SendReceipts(_) => SendingStrays(s, base, config, call);
  }

  /** The exact condition on one call. */
  lemma CallExact(s: State, base: nat, config: Config, call: Call)
    requires Good(s, base) && Short(s) && CallWithin(call)
    ensures Good(AfterCall(s, config, call), base) <==> CallFine(s, config, call)
    ensures !CallFine(s, config, call) ==> Off(AfterCall(s, config, call))
  {
    hide Off, Good, Short, CallFine, CallWithin, AfterCall, MarkOf;
    if CallFine(s, config, call) {
      CallKeeps(s, base, config, call);
    } else {
      CallStrays(s, base, config, call);
      OffNotGood(AfterCall(s, config, call), base);
    }
  }

  // ---------------------------------------------------------- which failures are healed

  /** A pending gap that is accepted makes the chain whole again if and only if the state was good. */
  lemma FlushExact(s: State, base: nat, env: World)
    requires s.pendingGap && (Good(s, base) || Off(s)) && Accepted(s.chain, PendingGapOp(s), env)
    ensures var u := FlushPendingGap(s, env);
      && u.Fine? && (Intact(u.state.segments, u.state.chain.file) <==> Good(s, base))
      && (!Good(s, base) ==> Lost(u.state.segments, u.state.chain.file))
      && (Good(s, base) ==> InStep(u.state.chain, u.state.segments) && GapCount(All(u.state)) == GapCount(All(s)) + 1)
  {
    hide Good, Off, InStep, Books, Accepted, FlushPendingGap, Step, All, Intact, Lost, PendingGapOp, GapCount,
      Actions, Readable;
    var u := FlushPendingGap(s, env);
    AcceptedWritten(s, env);
    if Good(s, base) {
      FlushKeeps(s, base, env);
      StandsIntact(u.state.chain, u.state.segments);
    } else {
      FlushStrays(s, base, env);
      LostNow(u.state.segments, u.state.chain.file);
    }
  }

  /** A call of safe_record that fails, from a good state, and then, with nothing written in between, a
      pending gap that is accepted: the chain is whole again if and only if the call had failed before
      it took a number, or the write that failed was the flush of a gap already pending and has left
      the hash alone. After any other failed write, of an action, a checkpoint or an opening record,
      refused by the disk or not packable, the chain is past repair. */
  lemma FailedCallExact(s: State, base: nat, config: Config, action: ActionPayload, env: CallWorld, later: World)
    requires Good(s, base) && CallSized(env) && RecordAction(s, config, action, env).Thrown?
    requires var t := SafeRecord(s, config, action, env); Accepted(t.chain, PendingGapOp(t), later)
    ensures var t := SafeRecord(s, config, action, env); var u := FlushPendingGap(t, later);
      var healed := env.early || (FlushFails(s, env) && KeepsHash(s, env.flush));
      && t.pendingGap && u.Fine?
      && (Intact(u.state.segments, u.state.chain.file) <==> healed)
      && (!healed ==> Lost(u.state.segments, u.state.chain.file))
      && (healed ==> InStep(u.state.chain, u.state.segments) && GapCount(All(u.state)) == GapCount(All(s)) + 1)
  {
    hide Good, InStep, Books, Accepted, ActionAccepted, FlushPendingGap, Step, All, FlushFails, Intact, Lost, Off,
      ReceiptsSized, RecordAction, Remembered, PendingGapOp, GapCount, Actions, Readable, KeepsHash;
    var r, t := RecordAction(s, config, action, env).state, SafeRecord(s, config, action, env);
    NowPending(s, config, action, env);
    if env.early || (FlushFails(s, env) && KeepsHash(s, env.flush)) {
      RecordKeeps(s, base, config, action, env);
      RememberedGood(r, base, env.errorText);
      FlushExact(t, base, later);
    } else if FlushFails(s, env) {
      AcceptedWritten(t, later);
      HashLost(s, base, config, action, env, later);
    } else {
      if ActionFine(s, config, action, env) {
        RecordKeeps(s, base, config, action, env);
        assert false;
      }
      RecordStrays(s, base, config, action, env);
      RememberedOff(r, env.errorText);
      OffNotGood(t, base);
      FlushExact(t, base, later);
    }
  }

  /** An explicit checkpoint that is accepted keeps a good state good if and only if no gap is pending. */
  lemma CheckpointExact(s: State, base: nat, config: Config, env: CallWorld)
    requires Good(s, base) && Short(s) && CallWithin(MakeCheckpoint(env))
    requires Accepted(s.chain, CheckpointOp(s, env), env.checkpoint)
    ensures Good(EmitCheckpoint(s, env).state, base) <==> !s.pendingGap
    ensures s.pendingGap ==> Off(EmitCheckpoint(s, env).state)
  {
    hide Off, Good, Short, CallWithin, CheckpointOp, Step, EmitCheckpoint, Attempt, Encodable, CanonicalBytes;
    StepEffect(s.chain, CheckpointOp(s, env), env.checkpoint);
    CallExact(s, base, config, MakeCheckpoint(env));
  }

  /** And so do accepted witness records, if there is one. */
  lemma ReceiptsExact(s: State, base: nat, config: Config, env: CallWorld)
    requires Good(s, base) && Short(s) && CallWithin(SendReceipts(env))
    requires ReceiptsAccepted(s.chain, s.chain.sequence, s.chain.prevHash, env.receipts)
    requires exists i :: 0 <= i < |env.receipts| && env.receipts[i].Some?
    ensures Good(SendWitness(s, env), base) <==> !s.pendingGap
    ensures s.pendingGap ==> Off(SendWitness(s, env))
  {
    hide Off, Good, Short, CallWithin, SendWitness, ReceiptsAccepted, NoneLands;
    SomeLands(s.chain, s.chain.sequence, s.chain.prevHash, env.receipts);
    CallExact(s, base, config, SendReceipts(env));
  }

  lemma {:induction false} SomeLands(w: Writer, n: int, hash: Digest, receipts: seq<Option<(Receipt, World)>>)
    requires ReceiptsAccepted(w, n, hash, receipts)
    requires exists i :: 0 <= i < |receipts| && receipts[i].Some?
    ensures !NoneLands(w, n, hash, receipts)
    decreases |receipts|
  {
    hide Accepted, Step, Attempt, Encodable, CanonicalBytes, Frame;
    match receipts[0] {
      case None =>
        var i :| 0 <= i < |receipts| && receipts[i].Some?;
        assert receipts[1..][i - 1] == receipts[i];
        SomeLands(w, n, hash, receipts[1..]);
      case Some((receipt, env)) =>
        AcceptedLands(w, ReceiptOp(n, hash, receipt), env);
    }
  }

  lemma AcceptedLands(w: Writer, op: Op, env: World)
    requires Accepted(w, op, env)
    ensures Step(w, op, env).1.Written?
  {
    hide Step, Attempt, Encodable, CanonicalBytes, PayloadFor, Frame;
    StepEffect(w, op, env);
  }

  /** What one explicit checkpoint between a failed call and its gap does: the files are whole before the
      gap is flushed and past repair after it. */
  lemma CheckpointBetween(s: State, base: nat, config: Config, action: ActionPayload, env: CallWorld, c: CallWorld,
                          later: World)
    requires Good(s, base) && !s.pendingGap && env.early && |env.errorText| <= TEXT_LIMIT
    requires CallWithin(MakeCheckpoint(c))
    requires var t := SafeRecord(s, config, action, env); Accepted(t.chain, CheckpointOp(t, c), c.checkpoint)
    requires var u := EmitCheckpoint(SafeRecord(s, config, action, env), c).state;
      Accepted(u.chain, PendingGapOp(u), later)
    ensures var u := EmitCheckpoint(SafeRecord(s, config, action, env), c).state;
      var v := FlushPendingGap(u, later).state;
      && u.pendingGap && Intact(u.segments, u.chain.file) && Lost(v.segments, v.chain.file)
  {
    hide Off, Good, CallWithin, CheckpointOp, Accepted, Step, Attempt, Encodable, CanonicalBytes, Intact, Lost,
      RecordAction, InStep, PendingGapOp, Books, Readable;
    var t := SafeRecord(s, config, action, env);
    EarlyThrown(s, config, action, env);
    RememberedGood(s, base, env.errorText);
    var u := EmitCheckpoint(t, c).state;
    CheckpointExact(t, base, config, c);
    GoodHolds(s, base);
    MidParts(s, base);
    assert t.chain == s.chain && t.segments == s.segments;
    CheckpointShape(t, c);
    AcceptedFits(t.chain, t.segments, CheckpointOp(t, c), c.checkpoint);
    StandsIntact(s.chain, s.segments);
    WriteExtends(t.chain, t.segments, CheckpointOp(t, c), c.checkpoint);
    StandsIntact(u.chain, u.segments);
    OffNotGood(u, base);
    FlushExact(u, base, later);
  }

  lemma CheckpointShape(s: State, env: CallWorld)
    ensures NonGap(s.chain, CheckpointOp(s, env))
    ensures var u := EmitCheckpoint(s, env).state;
      && u.chain == Step(s.chain, CheckpointOp(s, env), env.checkpoint).0 && u.segments == s.segments
      && u.pendingGap == s.pendingGap
  {
    hide Step, CheckpointFor;
  }

  lemma NowPending(s: State, config: Config, action: ActionPayload, env: CallWorld)
    requires RecordAction(s, config, action, env).Thrown?
    ensures SafeRecord(s, config, action, env).pendingGap
  {
    hide RecordAction;
  }

  lemma AcceptedWritten(t: State, env: World)
    requires t.pendingGap && Accepted(t.chain, PendingGapOp(t), env)
    ensures FlushPendingGap(t, env).Fine? && |env.recordId| == 16
  {
    hide Step, Attempt, Encodable, CanonicalBytes, PayloadFor;
    StepEffect(t.chain, PendingGapOp(t), env);
  }

  /** A failed flush that has changed the hash: the next gap links to nothing on disk. */
  lemma HashLost(s: State, base: nat, config: Config, action: ActionPayload, env: CallWorld, later: World)
    requires Good(s, base) && !env.early && FlushFails(s, env) && !KeepsHash(s, env.flush)
    requires var t := SafeRecord(s, config, action, env); Accepted(t.chain, PendingGapOp(t), later)
    ensures var t := SafeRecord(s, config, action, env); var u := FlushPendingGap(t, later).state;
      !Intact(u.segments, u.chain.file) && Lost(u.segments, u.chain.file)
  {
    hide Intact, RecordsOf, Readable, LastHash, LastNumber, Books, Step, Attempt, Encodable, CanonicalBytes, Frame,
      Lost, RecordAction, GoesOn, PayloadFor;
    CallPhases(s, config, action, env);
    StepEffect(s.chain, PendingGapOp(s), env.flush);
    var t := SafeRecord(s, config, action, env);
    assert t.chain == Step(s.chain, PendingGapOp(s), env.flush).0 && t.segments == s.segments && t.pendingGap;
    StepEffect(t.chain, PendingGapOp(t), later);
    WriteExact(t.chain, t.segments, PendingGapOp(t), later);
  }

  /** No gap text short of four gigabytes can make a failed flush lose the hash. */
  lemma ShortKeepsHash(s: State, env: World)
    requires Ids(s.chain) && s.chain.sequence >= 0 && |env.recordId| == 16 && s.pendingGap
    requires !Step(s.chain, PendingGapOp(s), env).1.Written? && |s.gapDetail| <= TEXT_LIMIT
    ensures KeepsHash(s, env)
  {
    hide CanonicalBytes, Encodable, Frame, Passes;
    var r := Attempt(s.chain, PendingGapOp(s), env);
    GapNotReplaced(s, env);
    if Encodable(r) {
      AttemptBuilt(s.chain, PendingGapOp(s), env);
      GapLength(r);
    }
  }

  lemma GapNotReplaced(s: State, env: World)
    requires Ids(s.chain) && s.chain.sequence >= 0 && |env.recordId| == 16
    ensures Attempt(s.chain, PendingGapOp(s), env).payload == PayloadFor(s.chain, PendingGapOp(s))
  {
  }

  lemma GapLength(r: Record)
    requires Built(r) && Encodable(r) && r.payload.Gap?
    ensures |CanonicalBytes(r)| == 140 + |r.payload.gap.detail|
  {
    hide CanonicalBytes, EnvelopeFields, Fit, LE;
    BuiltEnvelope(r);
    EnvelopeLayout(r);
    GapPayloadLength(r.payload.gap);
  }

  lemma EncodedLength(fs: seq<Field>)
    requires |fs| == 5
    ensures |Encode(fs)|
         == |FieldBytes(fs[0])| + |FieldBytes(fs[1])| + |FieldBytes(fs[2])| + |FieldBytes(fs[3])| + |FieldBytes(fs[4])|
  {
    hide FieldBytes;
    EncodeFrom(fs, 0);
    EncodeFrom(fs, 1);
    EncodeFrom(fs, 2);
    EncodeFrom(fs, 3);
    EncodeFrom(fs, 4);
    assert fs[0..] == fs && fs[5..] == [];
  }

  lemma GapPayloadLength(g: GapPayload)
    ensures |PayloadBytes(Gap(g))| == 32 + |g.detail|
  {
    hide LE, Encode;
    EncodedLength(GapFields(g));
  }

  /** The numbers of the pending gap's record fit 64 bits: the last one it claims, its own behind that, and
      its timestamp. */
  predicate FlushNumbersFit(s: State, env: World) {
    PendingGapOp(s).last + 1 <= MAX_UINT64 && s.chain.lastTsMs <= MAX_UINT64 && env.wallMs <= MAX_UINT64
  }

  lemma GapEncodable(r: Record)
    requires Built(r) && r.payload.Gap? && r.payload.gap.reason == INTERCEPTOR_FAILURE && r.timestampMs >= 0
    requires var g := r.payload.gap;
      0 < g.firstLost <= g.lastLost == r.sequence - 1 && g.count == g.lastLost - g.firstLost + 1
    ensures Encodable(r)
      <==> r.sequence <= MAX_UINT64 && r.timestampMs <= MAX_UINT64 && |r.payload.gap.detail| <= MAX_UINT32
  {
    var es, fs := EnvelopeFields(r), GapFields(r.payload.gap);
    assert Fit(es) <==> FieldFits(es[3]) && FieldFits(es[4]);
    assert Fit(fs) <==> FieldFits(fs[0]) && FieldFits(fs[1]) && FieldFits(fs[2]) && FieldFits(fs[4]);
  }

  /** What a caller knows of a flush that fails: the disk refuses it, a number does not fit, or the error
      text makes a record of 4 GiB or more. */
  lemma FlushFailsExact(s: State, env: CallWorld)
    requires Ids(s.chain) && s.chain.sequence >= 0 && |env.flush.recordId| == 16
    requires s.pendingGap && s.gapFirstLostSeq > 0
    ensures FlushFails(s, env)
      <==> !env.flush.diskOk || !FlushNumbersFit(s, env.flush) || |s.gapDetail| > TEXT_LIMIT
  {
    hide CanonicalBytes, Encodable, Frame, Attempt, Step;
    var op := PendingGapOp(s);
    var r := Attempt(s.chain, op, env.flush);
    StepEffect(s.chain, op, env.flush);
    FlushRecord(s, env.flush);
    GapEncodable(r);
    if Encodable(r) {
      GapLength(r);
    }
  }

  lemma FlushRecord(s: State, env: World)
    requires Ids(s.chain) && s.chain.sequence >= 0 && |env.recordId| == 16
    ensures var op := PendingGapOp(s); var r := Attempt(s.chain, op, env);
      && Built(r) && r.sequence == op.last + 1
      && r.payload == GapFor(op.first, op.last, INTERCEPTOR_FAILURE, s.gapDetail)
      && r.timestampMs == if env.wallMs >= s.chain.lastTsMs then env.wallMs else s.chain.lastTsMs
  {
    hide Passes;
    GapNotReplaced(s, env);
    AttemptBuilt(s.chain, PendingGapOp(s), env);
  }

  /** And what a caller knows of the hash behind it: it is kept unless the numbers fit and the text is one
      of those that fit their length prefix and not the record's, or the hashes collide. */
  lemma KeepsHashExact(s: State, env: CallWorld)
    requires Ids(s.chain) && s.chain.sequence >= 0 && |env.flush.recordId| == 16 && s.gapFirstLostSeq > 0
    requires FlushFails(s, env)
    ensures var r := Attempt(s.chain, PendingGapOp(s), env.flush);
      KeepsHash(s, env.flush)
      <==>
      || !(FlushNumbersFit(s, env.flush) && TEXT_LIMIT < |s.gapDetail| <= MAX_UINT32)
      || Sha256(CanonicalBytes(r)) == s.chain.prevHash
  {
    hide CanonicalBytes, Encodable, Frame, Attempt, Step, Built;
    var r := Attempt(s.chain, PendingGapOp(s), env.flush);
    FlushRecord(s, env.flush);
    GapEncodable(r);
    RefusedHash(s.chain, PendingGapOp(s), env.flush);
    if Encodable(r) {
      GapLength(r);
    }
  }

  /** A refused write changes the hash exactly where the record can be packed and its length cannot. */
  lemma RefusedHash(w: Writer, op: Op, env: World)
    requires !Step(w, op, env).1.Written?
    ensures var r := Attempt(w, op, env);
      Step(w, op, env).0.prevHash
      == if Encodable(r) && |CanonicalBytes(r)| > MAX_UINT32 then Sha256(CanonicalBytes(r)) else w.prevHash
  {
    hide CanonicalBytes, Encodable, Frame, Passes, TypeOf, PayloadFor;
  }

  /** An action that cannot be written is remembered one number too late: the gap that is flushed next
      begins behind the number the action had used up, and the chain is past repair. */
  lemma ActionGapTooLate(s: State, base: nat, config: Config, action: ActionPayload, env: CallWorld, later: World)
    requires Good(s, base) && CallSized(env) && !env.early
    requires s.pendingGap ==> Accepted(s.chain, PendingGapOp(s), env.flush)
    requires !Step(FlushPendingGap(s, env.flush).state.chain, ActionOp(action), env.action).1.Written?
    requires var t := SafeRecord(s, config, action, env); Accepted(t.chain, PendingGapOp(t), later)
    ensures var f := FlushPendingGap(s, env.flush).state; var t := SafeRecord(s, config, action, env);
      var u := FlushPendingGap(t, later).state;
      && t.pendingGap && t.chain.sequence == f.chain.sequence + 1 && t.gapFirstLostSeq == f.chain.sequence + 2
      && Lost(u.segments, u.chain.file)
  {
    hide Good, InStep, Books, Accepted, ActionAccepted, FlushPendingGap, Step, All, FlushFails, Intact, Lost,
      CanonicalBytes, ReceiptsSized, RecordAction, PendingGapOp, GapCount, Actions, Readable, KeepsHash, Attempt,
      Encodable, CheckpointPhase;
    FlushKeeps(s, base, env.flush);
    FlushThrown(s, env);
    CallPhases(s, config, action, env);
    StepEffect(FlushPendingGap(s, env.flush).state.chain, ActionOp(action), env.action);
    FailedCallExact(s, base, config, action, env, later);
  }

  /** A validated action with a number that validation skips and packing does not take, such as a
      response time beyond 32 bits or a negative token count, throws after its number is taken. */
  lemma UnpackableAction(w: Writer, action: ActionPayload, env: World)
    requires Ids(w) && |env.recordId| == 16 && w.sequence >= 0
    requires ActionPasses(action) && !UncheckedNumbersFit(action)
    ensures var (v, result) := Step(w, ActionOp(action), env);
      result.StructError? && v.sequence == w.sequence + 1 && v.file == w.file
  {
    hide ActionPasses, CanonicalBytes, EnvelopeFields, PayloadFits, UncheckedNumbersFit;
    ValidatedFits(action);
  }
}
