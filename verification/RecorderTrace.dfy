/** What a call of the recorder puts on the chain, record by record: which records, in which order, with
    which payloads, when a checkpoint and when witness records are due, and what rotation changes. */
module RecorderTrace {
  import opened Bytes
  import opened Records
  import opened Canonical
  import opened Frames
  import opened Layout
  import opened Verify
  import opened ChainWriter
  import opened WriterRuns
  import opened WriterFields
  import opened Merkle
  import opened Recorder
  import opened Segments
  import opened Batches
  import opened RecorderCalls

  // -------------------------------------------------------------------------- records

  /** The stored record s is of this agent and holds this payload. */
  predicate Carries(s: bytes, agentId: bytes, p: Payload) {
    && |s| >= 108 && s[16..32] == agentId && s[100..104] == [TypeCode(p), 0, 0, 0] && s[108..] == PayloadBytes(p)
  }

  lemma CarriesType(s: bytes, agentId: bytes, p: Payload)
    requires Carries(s, agentId, p)
    ensures TypeFieldOf(s) == TypeCode(p) as nat == TypeOf(p)
  {
    hide PayloadBytes, FromLE, GapIn;
    SaysAt(s);
    SmallRead(TypeCode(p));
  }

  lemma SmallRead(v: byte)
    ensures FromLE([v, 0, 0, 0]) == v as nat
  {
    assert [v, 0, 0, 0][1..] == [0, 0, 0] && [0 as byte, 0, 0][1..] == [0, 0] && [0 as byte, 0][1..] == [0];
  }

  function Gaps(ps: seq<Payload>): nat {
    if ps == [] then 0 else Gaps(ps[..|ps| - 1]) + if ps[|ps| - 1].Gap? then 1 else 0
  }

  lemma {:induction false} GapsAppend(a: seq<Payload>, b: seq<Payload>)
    ensures Gaps(a + b) == Gaps(a) + Gaps(b)
  {
    if b == [] {
      assert a + b == a;
    } else {
      assert (a + b)[..|a + b| - 1] == a + b[..|b| - 1];
      GapsAppend(a, b[..|b| - 1]);
    }
  }

  /** From s to t exactly the records with these payloads have been appended to the current file, in order,
      by the same writer, and counted by it. */
  ghost predicate Wrote(s: State, t: State, ps: seq<Payload>) {
    var n := |All(s)|;
    && t.segments == s.segments && t.chain.agentId == s.chain.agentId && t.chain.sessionId == s.chain.sessionId
    && t.chain.recordCount == s.chain.recordCount + |ps| && t.chain.gapCount == s.chain.gapCount + Gaps(ps)
    && |All(t)| == n + |ps| && All(t)[..n] == All(s)
    && t.chain.file == s.chain.file + EncodeFrames(All(t)[n..])
    && forall i :: 0 <= i < |ps| ==> Carries(All(t)[n + i], s.chain.agentId, ps[i])
  }

  lemma WroteNothing(s: State)
    ensures Wrote(s, s, [])
  {
    hide RecordsOf;
    assert All(s)[|All(s)|..] == [] && s.chain.file + [] == s.chain.file;
  }

  lemma WroteOn(s: State, t: State, u: State, ps: seq<Payload>, qs: seq<Payload>)
    requires Wrote(s, t, ps) && Wrote(t, u, qs)
    ensures Wrote(s, u, ps + qs)
  {
    hide RecordsOf, Carries, Gaps, EncodeFrames;
    var n, m := |All(s)|, |All(t)|;
    GapsAppend(ps, qs);
    assert All(u)[n..] == All(t)[n..] + All(u)[m..];
    EncodeFramesAppend(All(t)[n..], All(u)[m..]);
    Associate(s.chain.file, EncodeFrames(All(t)[n..]), EncodeFrames(All(u)[m..]));
    forall i | 0 <= i < |ps + qs|
      ensures Carries(All(u)[n + i], s.chain.agentId, (ps + qs)[i])
    {
      if i < |ps| {
        assert All(u)[n + i] == All(t)[n + i];
      } else {
        assert All(u)[n + i] == All(u)[m + (i - |ps|)];
      }
    }
  }

  function HashAt(records: seq<bytes>, i: nat): Digest {
    if i < |records| then Sha256(records[i]) else ZERO_HASH_32
  }

  /** A write that fits, tracked or not. */
  lemma OneWrote(s: State, t: State, op: Op, env: World)
    requires Ids(s.chain) && Intact(s.segments, s.chain.file) && s.chain.bytesWritten == |s.chain.file|
    requires Fitting(s.chain, s.segments, op, env)
    requires t.segments == s.segments && t.chain == Step(s.chain, op, env).0
    ensures Wrote(s, t, [PayloadFor(s.chain, op)])
    ensures t.chain.prevHash == HashAt(All(t), |All(s)|) == Sha256(CanonicalBytes(Attempt(s.chain, op, env)))
  {
    hide CanonicalBytes, Encodable, Intact, Step, Frame, Attempt, PayloadFor, RecordsOf, Readable, TypeFieldOf,
      PayloadBytes, Accepted, LastNumber, LastHash, GoesOn, TypeCode;
    var stored := CanonicalBytes(Attempt(s.chain, op, env));
    WriteExtends(s.chain, s.segments, op, env);
    FittingAccepted(s.chain, s.segments, op, env);
    AcceptedPayload(s.chain, op, env);
    StepState(s.chain, op, env);
    StoredFields(s.chain, op, env);
    OneGap(PayloadFor(s.chain, op));
    OneFrame(stored);
    assert All(t)[|All(s)|..] == [stored];
    CodeAt(stored, TypeCode(PayloadFor(s.chain, op)));
  }

  lemma CodeAt(s: bytes, code: byte)
    requires |s| >= 108 && s[96..108] == [2, 0, 0, 0, code, 0, 0, 0, code, 0, 0, 0]
    ensures s[100..104] == [code, 0, 0, 0]
  {
    assert s[100] == s[96..108][4] && s[101] == s[96..108][5] && s[102] == s[96..108][6] && s[103] == s[96..108][7];
    assert s[100..104] == [s[100], s[101], s[102], s[103]];
  }

  lemma FittingAccepted(w: Writer, segments: seq<bytes>, op: Op, env: World)
    requires Fitting(w, segments, op, env)
    ensures Accepted(w, op, env) && Sized(op, env)
  {
    hide Attempt, PayloadFor, RecordsOf, LastNumber, LastHash, GoesOn, Encodable, CanonicalBytes;
  }

  lemma OneGap(p: Payload)
    ensures Gaps([p]) == if p.Gap? then 1 else 0
  {
    assert [p][..0] == [];
  }

  lemma OneFrame(stored: bytes)
    ensures EncodeFrames([stored]) == Frame(stored)
  {
    hide Frame;
    assert Frame(stored) + [] == Frame(stored);
  }

  // --------------------------------------------------------------------------- phases

  /** The flush of the pending gap of a good state. */
  lemma FlushWrote(s: State, base: nat, env: World)
    requires Good(s, base) && s.pendingGap && Accepted(s.chain, PendingGapOp(s), env)
    ensures var t := FlushPendingGap(s, env).state; var first := s.gapFirstLostSeq;
      var last := if first > s.chain.sequence then first else s.chain.sequence;
      && Wrote(s, t, [Gap(GapPayload(first, last, last - first + 1, 5, s.gapDetail))])
      && t.batch == s.batch + [HashAt(All(t), |All(s)|)] && t.sinceWitness == s.sinceWitness + 1
      && t.gapDetail == [] && t.gapFirstLostSeq == 0
  {
    hide Accepted, Intact, RecordsOf, LastNumber, LastHash, Readable, Books, Fitting, Step, CanonicalBytes, Attempt,
      EncodeFrames, Carries, Wrote, GoesOn;
    var op, t := PendingGapOp(s), FlushPendingGap(s, env).state;
    FlushFits(s, base, env);
    WriteExtends(s.chain, s.segments, op, env);
    OneWrote(s, t, op, env);
  }

  /** The action itself. */
  lemma ActionWrote(s: State, base: nat, action: ActionPayload, env: World)
    requires InStep(s.chain, s.segments) && Accepted(s.chain, ActionOp(action), env)
    ensures var t := WriteTracked(s, ActionOp(action), env);
      && t.Fine? && Wrote(s, t.state, [Action(action)]) && t.state.chain.prevHash == HashAt(All(t.state), |All(s)|)
      && t.state == s.(chain := t.state.chain, sinceCheckpoint := s.sinceCheckpoint + 1,
        sinceWitness := s.sinceWitness + 1, batch := s.batch + [HashAt(All(t.state), |All(s)|)])
  {
    hide Accepted, Intact, RecordsOf, LastNumber, LastHash, Readable, Fitting, Step, CanonicalBytes, Attempt,
      EncodeFrames, Carries, Wrote, GoesOn;
    var op := ActionOp(action);
    AcceptedFits(s.chain, s.segments, op, env);
    WriteExtends(s.chain, s.segments, op, env);
    OneWrote(s, WriteTracked(s, op, env).state, op, env);
  }

  /** A checkpoint counts its writer's records, itself included, and gaps, and carries the last hash and the
      root of the batch. */
  lemma CheckpointWrote(s: State, env: CallWorld)
    requires InStep(s.chain, s.segments) && Accepted(s.chain, CheckpointOp(s, env), env.checkpoint)
    ensures var t := EmitCheckpoint(s, env);
      && t.Fine? && t.state == s.(chain := t.state.chain, sinceCheckpoint := 0, batch := [])
      && Wrote(s, t.state, [Checkpoint(CheckpointPayload(s.chain.recordCount + 1, s.chain.gapCount, s.chain.prevHash,
           MerkleRoot(s.batch), env.signature, env.signingKeyId, env.evidenceAvailable, 0, 0, env.evidenceMissing))])
  {
    hide Accepted, Intact, RecordsOf, LastNumber, LastHash, Readable, Fitting, Step, CanonicalBytes, Attempt,
      EncodeFrames, Carries, Wrote, GoesOn, MerkleRoot;
    var op := CheckpointOp(s, env);
    AcceptedFits(s.chain, s.segments, op, env.checkpoint);
    WriteExtends(s.chain, s.segments, op, env.checkpoint);
    OneWrote(s, EmitCheckpoint(s, env).state, op, env.checkpoint);
  }

  /** One witness record for each receipt given, with the number and hash that were sent. */
  function ReceiptPayloads(n: int, hash: Digest, receipts: seq<Option<(Receipt, World)>>): seq<Payload> {
    if receipts == [] then []
    else
      (match receipts[0]
       case None => []
       case Some((r, _)) =>
         [Witness(WitnessPayload(r.witnessId, n, hash, r.timestamp, r.signature, r.publicKey))])
      + ReceiptPayloads(n, hash, receipts[1..])
  }

  lemma {:induction false} ReceiptsWrote(s: State, n: int, hash: Digest, receipts: seq<Option<(Receipt, World)>>)
    requires InStep(s.chain, s.segments) && ReceiptsAccepted(s.chain, n, hash, receipts)
    ensures var t := s.(chain := WriteReceipts(s.chain, n, hash, receipts));
      Wrote(s, t, ReceiptPayloads(n, hash, receipts)) && InStep(t.chain, t.segments)
    decreases |receipts|
  {
    hide Accepted, Intact, RecordsOf, LastNumber, LastHash, Readable, Fitting, Step, CanonicalBytes, Attempt,
      EncodeFrames, Carries, Wrote, GoesOn;
    if receipts == [] {
      WroteNothing(s);
    } else {
      var rest := receipts[1..];
      match receipts[0] {
        case None =>
          ReceiptsWrote(s, n, hash, rest);
          assert [] + ReceiptPayloads(n, hash, rest) == ReceiptPayloads(n, hash, rest);
        case Some((receipt, env)) =>
          var op := ReceiptOp(n, hash, receipt);
          var t := s.(chain := Step(s.chain, op, env).0);
          AcceptedFits(s.chain, s.segments, op, env);
          WriteExtends(s.chain, s.segments, op, env);
          OneWrote(s, t, op, env);
          ReceiptsWrote(t, n, hash, rest);
          WroteOn(s, t, t.(chain := WriteReceipts(t.chain, n, hash, rest)), [PayloadFor(s.chain, op)],
            ReceiptPayloads(n, hash, rest));
      }
    }
  }

  /** The opening records of a file. */
  function Opening(config: Config): (ps: seq<Payload>)
    ensures 1 <= |ps| <= 2
  {
    [Boot(config.boot)] + if config.level >= 2 && config.key.Some? then [Key(config.key.value)] else []
  }

  lemma GenesisWrote(s: State, config: Config, env: CallWorld)
    requires InStep(s.chain, s.segments) && GenesisAccepted(s.chain, config, env)
    ensures var t := EmitGenesis(s, config, env.boot, env.key).state;
      && Wrote(s, t, Opening(config))
      && |t.batch| == |s.batch| + |Opening(config)| && t.sinceWitness == s.sinceWitness + |Opening(config)|
      && t.pendingGap == s.pendingGap
  {
    hide Accepted, Intact, RecordsOf, LastNumber, LastHash, Readable, Fitting, Step, CanonicalBytes, Attempt,
      EncodeFrames, Carries, Wrote, GoesOn;
    var boot := WriteRecord(Boot(config.boot), None, None);
    var t := WriteTracked(s, boot, env.boot).state;
    AcceptedFits(s.chain, s.segments, boot, env.boot);
    WriteExtends(s.chain, s.segments, boot, env.boot);
    OneWrote(s, t, boot, env.boot);
    if config.level >= 2 && config.key.Some? {
      var key := WriteRecord(Key(config.key.value), None, None);
      AcceptedFits(t.chain, t.segments, key, env.key);
      WriteExtends(t.chain, t.segments, key, env.key);
      var u := WriteTracked(t, key, env.key).state;
      OneWrote(t, u, key, env.key);
      WroteOn(s, t, u, [Boot(config.boot)], [Key(config.key.value)]);
    } else {
      assert [Boot(config.boot)] + [] == [Boot(config.boot)];
    }
  }

  // --------------------------------------------------------------- recording an action

  function SeqAt(records: seq<bytes>, i: nat): nat {
    if i < |records| then SeqOf(records[i]) else 0
  }

  /** A pending failure: one gap record, from the number remembered to the last one taken, at least one. */
  function GapPart(s: State): (ps: seq<Payload>)
    ensures |ps| <= 1
  {
    if !s.pendingGap then []
    else
      var first := s.gapFirstLostSeq;
      var last := if first > s.chain.sequence then first else s.chain.sequence;
      [Gap(GapPayload(first, last, last - first + 1, 5, s.gapDetail))]
  }

  /** The batch with the records that the call has tracked, which are the first ones behind `all[..n]`. */
  function BatchWith(s: State, all: seq<bytes>): seq<Digest> {
    s.batch + (if s.pendingGap then [HashAt(all, |All(s)|)] else []) + [HashAt(all, |All(s)| + |GapPart(s)|)]
  }

  /** One checkpoint over that batch, if and only if it has reached the interval. */
  function CheckpointPart(s: State, config: Config, env: CallWorld, all: seq<bytes>): (ps: seq<Payload>)
    ensures |ps| <= 1
  {
    var n, g := |All(s)|, |GapPart(s)|;
    if |s.batch| + g + 1 < config.checkpointInterval then []
    else
      [Checkpoint(CheckpointPayload(s.chain.recordCount + g + 2, s.chain.gapCount + g, HashAt(all, n + g),
         MerkleRoot(BatchWith(s, all)), env.signature, env.signingKeyId, env.evidenceAvailable, 0, 0,
         env.evidenceMissing))]
  }

  predicate Witnessing(s: State, config: Config) {
    config.level >= 3 && config.endpoints > 0 && s.sinceWitness + |GapPart(s)| + 1 >= config.witnessInterval
  }

  /** The witness records, if and only if the records tracked since the last ones have reached the interval:
      one for each receipt, naming the last record in front of them. */
  function ReceiptPart(s: State, config: Config, env: CallWorld, all: seq<bytes>): seq<Payload> {
    var last := |All(s)| + |GapPart(s)| + |CheckpointPart(s, config, env, all)|;
    if Witnessing(s, config) then ReceiptPayloads(SeqAt(all, last), HashAt(all, last), env.receipts) else []
  }

  /** Everything that recording an action appends to the current file. */
  function CallPart(s: State, config: Config, action: ActionPayload, env: CallWorld, all: seq<bytes>): seq<Payload> {
    GapPart(s) + [Action(action)] + CheckpointPart(s, config, env, all) + ReceiptPart(s, config, env, all)
  }

  /** Where a rotation has opened the next file, before its opening records. */
  function NextFile(s: State, env: CallWorld): State {
    s.(chain := Opened(env.newAgentId, env.newSessionId, if env.renameOk then None else Some(s.chain.file),
                       env.createdMs, s.chain.prevHash, s.chain.sequence),
       segments := if env.renameOk then s.segments + [s.chain.file] else s.segments)
  }

  /** The flush and the action. */
  lemma FlushAndAction(s: State, base: nat, config: Config, action: ActionPayload, env: CallWorld)
    requires Good(s, base) && CallSized(env) && (s.pendingGap ==> Accepted(s.chain, PendingGapOp(s), env.flush))
    requires ActionAccepted(FlushPendingGap(s, env.flush).state, config, action, env)
    ensures var f := FlushPendingGap(s, env.flush); var t := WriteTracked(f.state, ActionOp(action), env.action);
      && f.Fine? && t.Fine? && Wrote(s, t.state, GapPart(s) + [Action(action)]) && Mid(t.state, base)
      && t.state.batch == BatchWith(s, All(t.state)) && t.state.sinceCheckpoint == |t.state.batch|
      && t.state.sinceWitness == s.sinceWitness + |GapPart(s)| + 1 && !t.state.pendingGap
      && t.state.chain.prevHash == HashAt(All(t.state), |All(s)| + |GapPart(s)|)
      && CheckpointAccepted(t.state, config, env)
  {
    hide Accepted, Intact, RecordsOf, LastNumber, LastHash, Readable, Fitting, Step, CanonicalBytes, Attempt,
      EncodeFrames, Carries, Gaps, GoesOn, PendingGapOp, CheckpointAccepted, Pending, CheckpointsRight, WitnessesRight,
      FlushPendingGap, WriteTracked, ReceiptsSized, GapCount, Actions;
    var f := FlushPendingGap(s, env.flush).state;
    FlushKeeps(s, base, env.flush);
    if s.pendingGap {
      FlushWrote(s, base, env.flush);
    } else {
      NothingFlushed(s, env.flush);
      WroteNothing(s);
    }
    var t := WriteTracked(f, ActionOp(action), env.action).state;
    AcceptedFits(f.chain, f.segments, ActionOp(action), env.action);
    TrackedWrite(f, base, ActionOp(action), env.action);
    ActionWrote(f, base, action, env.action);
    WroteOn(s, f, t, GapPart(s), [Action(action)]);
    var g, n := |GapPart(s)|, |All(s)|;
    assert |All(f)| == n + g;
    assert f.sinceWitness == s.sinceWitness + g;
    assert g == 1 ==> All(t)[n] == All(f)[n];
    BatchSteps(s, f.batch, t.batch, All(f), All(t));
  }

  lemma BatchSteps(s: State, flushed: seq<Digest>, batch: seq<Digest>, before: seq<bytes>, all: seq<bytes>)
    requires |before| == |All(s)| + |GapPart(s)| && before <= all
    requires flushed == if s.pendingGap then s.batch + [HashAt(before, |All(s)|)] else s.batch
    requires batch == flushed + [HashAt(all, |before|)]
    ensures batch == BatchWith(s, all)
  {
    hide RecordsOf;
    if s.pendingGap {
      assert HashAt(all, |All(s)|) == HashAt(before, |All(s)|);
    }
  }

  lemma NothingFlushed(s: State, env: World)
    requires !s.pendingGap
    ensures FlushPendingGap(s, env) == Recorder.Outcome.Fine(s)
  {
  }

  /** The checkpoint, where one is due. */
  lemma CheckpointStep(s: State, base: nat, config: Config, env: CallWorld)
    requires Mid(s, base) && CheckpointAccepted(s, config, env)
    ensures var due := |s.batch| >= config.checkpointInterval;
      var t := if due then EmitCheckpoint(s, env) else Fine(s);
      && t.Fine? && Mid(t.state, base) && WitnessAccepted(t.state, config, env)
      && t == (if CheckpointDue(s, config) then EmitCheckpoint(s, env) else Fine(s))
      && t.state == s.(chain := t.state.chain, sinceCheckpoint := |t.state.batch|,
                       batch := if due then [] else s.batch)
      && Wrote(s, t.state, if !due then [] else
           [Checkpoint(CheckpointPayload(s.chain.recordCount + 1, s.chain.gapCount, s.chain.prevHash,
             MerkleRoot(s.batch), env.signature, env.signingKeyId, env.evidenceAvailable, 0, 0, env.evidenceMissing))])
  {
    hide Accepted, InStep, RecordsOf, Readable, EncodeFrames, Carries, Gaps, Pending, CheckpointsRight, WitnessesRight,
      WitnessAccepted, EmitCheckpoint, CheckpointOp, MerkleRoot, CanonicalBytes, Attempt, Attests, Wrote, GapCount,
      Actions;
    if CheckpointDue(s, config) {
      CheckpointWrote(s, env);
      CheckpointWrite(s, base, env);
    } else {
      WroteNothing(s);
    }
  }

  /** The witness records, where they are due. */
  lemma WitnessStep(s: State, base: nat, config: Config, env: CallWorld)
    requires Mid(s, base) && WitnessAccepted(s, config, env)
    ensures var due := config.level >= 3 && config.endpoints > 0 && s.sinceWitness >= config.witnessInterval;
      var t := if due then SendWitness(s, env) else s; var last := |All(s)| - 1;
      && last >= 0 && Mid(t, base) && RotationAccepted(t, config, env)
      && t == (if WitnessDue(s, config) then SendWitness(s, env) else s)
      && t == s.(chain := t.chain, sinceWitness := if due then 0 else s.sinceWitness)
      && Wrote(s, t, if due then ReceiptPayloads(SeqAt(All(s), last), HashAt(All(s), last), env.receipts) else [])
  {
    hide Accepted, Intact, RecordsOf, Readable, EncodeFrames, Carries, Gaps, Books, Wrote, ReceiptsAccepted, SeqOf,
      RotationAccepted, WriteReceipts, GapCount, Actions, LastNumber, LastHash, ReceiptPayloads;
    LastSent(s);
    if WitnessDue(s, config) {
      WitnessKeeps(s, base, env);
      ReceiptsWrote(s, s.chain.sequence, s.chain.prevHash, env.receipts);
      WroteAlike(s, s.(chain := SendWitness(s, env).chain), SendWitness(s, env),
        ReceiptPayloads(s.chain.sequence, s.chain.prevHash, env.receipts));
    } else {
      WroteNothing(s);
    }
  }

  lemma WroteAlike(s: State, t: State, u: State, ps: seq<Payload>)
    requires Wrote(s, t, ps) && u.chain == t.chain && u.segments == t.segments
    ensures Wrote(s, u, ps)
  {
    hide RecordsOf, Carries, Gaps, EncodeFrames;
  }

  /** Rotation, where the file has reached its limit: the next file gets the opening records. */
  lemma RotationStep(s: State, base: nat, config: Config, env: CallWorld)
    requires Mid(s, base) && RotationAccepted(s, config, env) && |env.newAgentId| == 16 && |env.newSessionId| == 16
    ensures var t := CheckRotation(s, config, env); var next := NextFile(s, env);
      && t.Fine?
      && if |s.chain.file| < config.maxSegmentBytes then t.state == s
         else
           && All(next) == All(s) && Wrote(next, t.state, Opening(config)) && t.state.pendingGap == s.pendingGap
           && |t.state.batch| == |s.batch| + |Opening(config)|
           && t.state.sinceWitness == s.sinceWitness + |Opening(config)|
  {
    hide Accepted, RecordsOf, Readable, EncodeFrames, Carries, Gaps, Books, Wrote, GapCount, Actions, LastNumber,
      LastHash, Intact, GenesisAccepted, EmitGenesis, Opening;
    RotateKeeps(s, base, config, env);
    if |s.chain.file| >= config.maxSegmentBytes {
      RotationKeeps(s.chain, s.segments, env);
      GenesisWrote(NextFile(s, env), config, env);
    }
  }

  /** What recording an action appends, where it does not fail before it takes a number: in order, the gap
      record of a pending failure, the action, a checkpoint exactly when the batch has reached its interval,
      the witness records exactly when theirs is reached; then, exactly when the file has reached its limit, a
      file is opened, by a new writer that goes on from the hash and number of the old one, with the opening
      records. `before` is the state in front of that. */
  lemma RecordingWrites(s: State, base: nat, config: Config, action: ActionPayload, env: CallWorld)
    returns (before: State)
    requires Good(s, base) && ActionFine(s, config, action, env) && CallSized(env)
    requires !env.early && !FlushFails(s, env)
    ensures Wrote(s, before, CallPart(s, config, action, env, All(before))) && !before.pendingGap
    ensures before.batch == if CheckpointPart(s, config, env, All(before)) == [] then BatchWith(s, All(before)) else []
    ensures before.sinceWitness == if Witnessing(s, config) then 0 else s.sinceWitness + |GapPart(s)| + 1
    ensures var r, next, n := RecordAction(s, config, action, env), NextFile(before, env), |Opening(config)|;
      && r.Fine?
      && if |before.chain.file| < config.maxSegmentBytes then r.state == before
         else
           && All(next) == All(before) && Wrote(next, r.state, Opening(config)) && !r.state.pendingGap
           && |r.state.batch| == |before.batch| + n && r.state.sinceWitness == before.sinceWitness + n
  {
    hide Good, Accepted, ActionAccepted, InStep, RecordsOf, Readable, EncodeFrames, Carries, Gaps, Books, Wrote,
      FlushPendingGap, WriteTracked, EmitCheckpoint, SendWitness, CheckRotation, WitnessAccepted, RotationAccepted,
      CheckpointAccepted, FlushFails, Step, MerkleRoot, ReceiptPayloads, RecordAction, PendingGapOp, ReceiptsSized,
      Opening, SeqOf;
    FlushThrown(s, env);
    FlushAndAction(s, base, config, action, env);
    var t2 := WriteTracked(FlushPendingGap(s, env.flush).state, ActionOp(action), env.action).state;
    CheckpointStep(t2, base, config, env);
    var t3 := (if CheckpointDue(t2, config) then EmitCheckpoint(t2, env) else Fine(t2)).state;
    WitnessStep(t3, base, config, env);
    before := if WitnessDue(t3, config) then SendWitness(t3, env) else t3;
    RotationStep(before, base, config, env);
    CallPhases(s, config, action, env);
    PartsJoined(s, t2, t3, before, config, action, env);
  }

  lemma PartsJoined(s: State, t2: State, t3: State, t4: State, config: Config, action: ActionPayload, env: CallWorld)
    requires Wrote(s, t2, GapPart(s) + [Action(action)]) && t2.batch == BatchWith(s, All(t2))
    requires t2.sinceWitness == s.sinceWitness + |GapPart(s)| + 1 && t3.sinceWitness == t2.sinceWitness
    requires t2.chain.prevHash == HashAt(All(t2), |All(s)| + |GapPart(s)|)
    requires var due := |t2.batch| >= config.checkpointInterval;
      Wrote(t2, t3, if !due then [] else
        [Checkpoint(CheckpointPayload(t2.chain.recordCount + 1, t2.chain.gapCount, t2.chain.prevHash,
          MerkleRoot(t2.batch), env.signature, env.signingKeyId, env.evidenceAvailable, 0, 0, env.evidenceMissing))])
    requires var due := config.level >= 3 && config.endpoints > 0 && t3.sinceWitness >= config.witnessInterval;
      var last := |All(t3)| - 1;
      last >= 0
      && Wrote(t3, t4, if due then ReceiptPayloads(SeqAt(All(t3), last), HashAt(All(t3), last), env.receipts) else [])
    ensures Wrote(s, t4, CallPart(s, config, action, env, All(t4)))
    ensures BatchWith(s, All(t4)) == t2.batch
    ensures CheckpointPart(s, config, env, All(t4)) == [] <==> |t2.batch| < config.checkpointInterval
  {
    hide RecordsOf, EncodeFrames, Carries, MerkleRoot, ReceiptPayloads, SeqOf, Gaps, Wrote;
    var first, all := GapPart(s) + [Action(action)], All(t4);
    WroteGrows(s, t2, first);
    GapsOfFirst(s, action);
    var due := |t2.batch| >= config.checkpointInterval;
    var sent := config.level >= 3 && config.endpoints > 0 && t3.sinceWitness >= config.witnessInterval;
    var ps := if !due then [] else
      [Checkpoint(CheckpointPayload(t2.chain.recordCount + 1, t2.chain.gapCount, t2.chain.prevHash,
        MerkleRoot(t2.batch), env.signature, env.signingKeyId, env.evidenceAvailable, 0, 0, env.evidenceMissing))];
    var last := |All(t3)| - 1;
    var qs := if sent then ReceiptPayloads(SeqAt(All(t3), last), HashAt(All(t3), last), env.receipts) else [];
    WroteGrows(t2, t3, ps);
    WroteGrows(t3, t4, qs);
    WroteOn(s, t2, t3, first, ps);
    WroteOn(s, t3, t4, first + ps, qs);
    SameBatch(s, All(t2), all);
    assert ps == CheckpointPart(s, config, env, all);
    assert SeqAt(all, last) == SeqAt(All(t3), last) && HashAt(all, last) == HashAt(All(t3), last);
    assert qs == ReceiptPart(s, config, env, all);
  }

  lemma WroteGrows(s: State, t: State, ps: seq<Payload>)
    requires Wrote(s, t, ps)
    ensures All(s) <= All(t) && |All(t)| == |All(s)| + |ps|
    ensures t.chain.recordCount == s.chain.recordCount + |ps| && t.chain.gapCount == s.chain.gapCount + Gaps(ps)
  {
    hide RecordsOf, EncodeFrames, Carries, Gaps;
  }

  lemma GapsOfFirst(s: State, action: ActionPayload)
    ensures Gaps(GapPart(s) + [Action(action)]) == |GapPart(s)|
  {
    GapsAppend(GapPart(s), [Action(action)]);
    OneGap(Action(action));
    if s.pendingGap {
      OneGap(GapPart(s)[0]);
    }
  }

  /** What lies behind the tracked records does not change the batch. */
  lemma SameBatch(s: State, few: seq<bytes>, all: seq<bytes>)
    requires few <= all && |few| == |All(s)| + |GapPart(s)| + 1
    ensures BatchWith(s, all) == BatchWith(s, few)
  {
    hide RecordsOf;
  }

  // ------------------------------------------------------------- where the records stand

  /** The receipts that witnesses gave. */
  function Given(receipts: seq<Option<(Receipt, World)>>): nat {
    if receipts == [] then 0 else (if receipts[0].Some? then 1 else 0) + Given(receipts[1..])
  }

  lemma {:induction false} ReceiptsAreWitnesses(n: int, hash: Digest, receipts: seq<Option<(Receipt, World)>>)
    ensures |ReceiptPayloads(n, hash, receipts)| == Given(receipts)
    ensures forall i :: 0 <= i < Given(receipts) ==> ReceiptPayloads(n, hash, receipts)[i].Witness?
  {
    if receipts != [] {
      ReceiptsAreWitnesses(n, hash, receipts[1..]);
    }
  }

  /** The type of each record that recording an action appends, by its place. */
  lemma PartTypes(s: State, config: Config, action: ActionPayload, env: CallWorld, all: seq<bytes>)
    ensures var ps, g := CallPart(s, config, action, env, all), if s.pendingGap then 1 else 0;
      var c := if |s.batch| + g + 1 >= config.checkpointInterval then 1 else 0;
      && |ps| == g + 1 + c + (if Witnessing(s, config) then Given(env.receipts) else 0)
      && forall i :: 0 <= i < |ps| ==>
           TypeOf(ps[i]) == if i < g then GAP else if i == g then ACTION else if i == g + c then CHECKPOINT else WITNESS
  {
    hide RecordsOf, ReceiptPayloads, Witnessing, MerkleRoot, HashAt, SeqAt;
    var last := |All(s)| + |GapPart(s)| + |CheckpointPart(s, config, env, all)|;
    ReceiptsAreWitnesses(SeqAt(all, last), HashAt(all, last), env.receipts);
  }

  lemma WroteTypes(s: State, t: State, ps: seq<Payload>)
    requires Wrote(s, t, ps)
    ensures forall i :: 0 <= i < |ps| ==> TypeFieldOf(All(t)[|All(s)| + i]) == TypeOf(ps[i])
  {
    hide RecordsOf, Carries, Gaps, EncodeFrames, TypeFieldOf, TypeOf;
    forall i | 0 <= i < |ps|
      ensures TypeFieldOf(All(t)[|All(s)| + i]) == TypeOf(ps[i])
    {
      CarriesType(All(t)[|All(s)| + i], s.chain.agentId, ps[i]);
    }
  }

  /** The call leaves what was there, and from there on its records have these types, by their place: the gap,
      the action, at most one checkpoint, the witness records, and opening records behind. */
  lemma RecordingPlaces(s: State, base: nat, config: Config, action: ActionPayload, env: CallWorld)
    requires Good(s, base) && ActionFine(s, config, action, env) && CallSized(env)
    requires !env.early && !FlushFails(s, env)
    ensures var t := RecordAction(s, config, action, env).state;
      var n, g := |All(s)|, if s.pendingGap then 1 else 0;
      var c := if |s.batch| + g + 1 >= config.checkpointInterval then 1 else 0;
      var w := if Witnessing(s, config) then Given(env.receipts) else 0;
      && |All(t)| >= n + g + 1 + c + w && All(s) <= All(t)
      && (forall k :: n <= k < |All(t)| ==>
            var kind := TypeFieldOf(All(t)[k]);
            if k < n + g then kind == GAP
            else if k == n + g then kind == ACTION
            else if k == n + g + c then kind == CHECKPOINT
            else if k <= n + g + c + w then kind == WITNESS
            else kind == BOOT || kind == KEY)
      && |t.batch| <= (if c == 1 then 0 else |s.batch| + g + 1) + 2
      && t.sinceWitness <= (if Witnessing(s, config) then 0 else s.sinceWitness + g + 1) + 2
  {
    hide Good, ActionFine, CallSized, FlushFails, RecordsOf, Carries, Gaps, EncodeFrames, TypeFieldOf, Wrote, CallPart,
      RecordAction, TypeOf, Opening;
    var before := RecordingWrites(s, base, config, action, env);
    var t, ps := RecordAction(s, config, action, env).state, CallPart(s, config, action, env, All(before));
    WroteGrows(s, before, ps);
    WroteTypes(s, before, ps);
    PartTypes(s, config, action, env, All(before));
    BatchSize(s, config, env, All(before));
    if |before.chain.file| >= config.maxSegmentBytes {
      var next := NextFile(before, env);
      WroteGrows(next, t, Opening(config));
      WroteTypes(next, t, Opening(config));
      OpeningTypes(config);
    }
    forall k | |All(s)| <= k < |All(t)|
      ensures TypeFieldOf(All(t)[k]) == if k < |All(before)| then TypeOf(ps[k - |All(s)|])
                                        else TypeOf(Opening(config)[k - |All(before)|])
    {
      if k < |All(before)| {
        assert All(t)[k] == All(before)[|All(s)| + (k - |All(s)|)];
      } else {
        assert All(t)[k] == All(t)[|All(before)| + (k - |All(before)|)];
      }
    }
  }

  lemma OpeningTypes(config: Config)
    ensures forall i :: 0 <= i < |Opening(config)| ==> TypeOf(Opening(config)[i]) in {BOOT, KEY}
  {
  }

  lemma BatchSize(s: State, config: Config, env: CallWorld, all: seq<bytes>)
    ensures |BatchWith(s, all)| == |s.batch| + |GapPart(s)| + 1 && (|GapPart(s)| == if s.pendingGap then 1 else 0)
    ensures CheckpointPart(s, config, env, all) == [] <==> |BatchWith(s, all)| < config.checkpointInterval
  {
    hide RecordsOf, MerkleRoot;
  }

  // ------------------------------------------------------------------ when checkpoints come

  /** From record `from` on, every checkpoint seals at least lo and at most hi tracked records. */
  predicate SealsWithin(own: seq<bytes>, from: nat, lo: nat, hi: nat) {
    forall k :: from <= k < |own| && TypeFieldOf(own[k]) == CHECKPOINT ==> lo <= |Pending(own[..k])| <= hi
  }

  lemma {:induction false} PendingGrows(own: seq<bytes>, added: seq<bytes>)
    requires forall i :: 0 <= i < |added| ==> TypeFieldOf(added[i]) in {GAP, ACTION}
    ensures |Pending(own + added)| == |Pending(own)| + |added|
  {
    hide TypeFieldOf, Pending;
    if added == [] {
      assert own + added == own;
    } else {
      var front, last := added[..|added| - 1], added[|added| - 1];
      PendingGrows(own, front);
      PendingSnoc(own + front, last);
      assert own + added == own + front + [last];
    }
  }

  /** The records from s to t are behind those of s, and every checkpoint among them seals at least lo and at
      most hi records tracked since the recorder started. */
  predicate Sealing(s: State, t: State, base: nat, lo: nat, hi: nat) {
    base <= |All(s)| && All(s) <= All(t) && SealsWithin(All(t)[base..], |All(s)| - base, lo, hi)
  }

  lemma NoneSealed(s: State, t: State, base: nat, lo: nat, hi: nat)
    requires base <= |All(s)| && All(s) <= All(t)
    requires forall k :: |All(s)| <= k < |All(t)| ==> TypeFieldOf(All(t)[k]) != CHECKPOINT
    ensures Sealing(s, t, base, lo, hi)
  {
    hide RecordsOf, TypeFieldOf, Pending;
    var own := All(t)[base..];
    forall k | |All(s)| - base <= k < |own|
      ensures TypeFieldOf(own[k]) != CHECKPOINT
    {
      assert own[k] == All(t)[base + k];
    }
  }

  /** One checkpoint, behind records none of which is one. */
  lemma OneSealed(s: State, t: State, base: nat, place: nat, lo: nat, hi: nat)
    requires base <= |All(s)| <= place <= |All(t)| && All(s) <= All(t)
    requires forall k :: |All(s)| <= k < |All(t)| && k != place ==> TypeFieldOf(All(t)[k]) != CHECKPOINT
    requires lo <= |Pending(All(t)[base..place])| <= hi
    ensures Sealing(s, t, base, lo, hi)
  {
    hide RecordsOf, TypeFieldOf, Pending;
    var own := All(t)[base..];
    assert own[..place - base] == All(t)[base..place];
    forall k | |All(s)| - base <= k < |own| && TypeFieldOf(own[k]) == CHECKPOINT
      ensures k == place - base
    {
      assert own[k] == All(t)[base + k];
    }
  }

  lemma SealingAlike(s: State, t: State, u: State, base: nat, lo: nat, hi: nat)
    requires Sealing(s, t, base, lo, hi) && u.chain == t.chain && u.segments == t.segments
    ensures Sealing(s, u, base, lo, hi) && All(u) == All(t)
  {
    hide RecordsOf, SealsWithin;
  }

  lemma SealingOn(s: State, t: State, u: State, base: nat, lo: nat, hi: nat)
    requires Sealing(s, t, base, lo, hi) && Sealing(t, u, base, lo, hi)
    ensures Sealing(s, u, base, lo, hi)
  {
    hide RecordsOf, TypeFieldOf, Pending;
    var few, all := All(t)[base..], All(u)[base..];
    forall k | |All(s)| - base <= k < |all| && TypeFieldOf(all[k]) == CHECKPOINT
      ensures lo <= |Pending(all[..k])| <= hi
    {
      if k < |few| {
        assert all[k] == few[k] && all[..k] == few[..k];
      }
    }
  }

  lemma SealingWeaker(s: State, t: State, base: nat, lo: nat, hi: nat)
    requires Sealing(s, t, base, lo, hi)
    ensures Sealing(s, t, base, 0, hi)
  {
    hide RecordsOf, TypeFieldOf, Pending;
  }

  /** More than this many tracked records never wait between calls. */
  function Most(interval: nat): nat {
    (if interval > 0 then interval else 1) + 1
  }

  /** Neither the batch nor the records since the last witness records exceed their intervals by more than the
      opening records of a file. */
  predicate Bounded(s: State, config: Config) {
    && |s.batch| <= Most(config.checkpointInterval)
    && (config.level >= 3 && config.endpoints > 0 ==> s.sinceWitness <= Most(config.witnessInterval))
  }

  /** What a recorded action and a pending gap in front of it add to the batch. */
  lemma RecordingPending(s: State, base: nat, config: Config, action: ActionPayload, env: CallWorld)
    requires Good(s, base) && ActionFine(s, config, action, env) && CallSized(env)
    requires !env.early && !FlushFails(s, env)
    ensures var all, place := All(RecordAction(s, config, action, env).state),
        |All(s)| + (if s.pendingGap then 1 else 0) + 1;
      && base <= |All(s)| && place <= |all|
      && |Pending(all[base..place])| == |s.batch| + (if s.pendingGap then 1 else 0) + 1
  {
    hide Good, ActionFine, CallSized, FlushFails, RecordsOf, TypeFieldOf, RecordAction, Pending, Witnessing;
    var all, n := All(RecordAction(s, config, action, env).state), |All(s)|;
    var place := n + (if s.pendingGap then 1 else 0) + 1;
    RecordingPlaces(s, base, config, action, env);
    GoodBase(s, base);
    var added := all[n..place];
    assert all[base..place] == All(s)[base..] + added;
    forall i | 0 <= i < |added|
      ensures TypeFieldOf(added[i]) in {GAP, ACTION}
    {
      assert added[i] == all[n + i];
    }
    PendingGrows(All(s)[base..], added);
  }

  lemma GoodBase(s: State, base: nat)
    requires Good(s, base)
    ensures base <= |All(s)| && s.batch == Pending(All(s)[base..])
  {
    hide RecordsOf, Pending, CheckpointsRight, WitnessesRight, Readable, LastNumber, Stand;
  }

  /** The checkpoint of a recorded action seals at least an interval, and at most two records more than may
      wait between calls. */
  lemma RecordingSeals(s: State, base: nat, config: Config, action: ActionPayload, env: CallWorld)
    requires Good(s, base) && ActionFine(s, config, action, env) && CallSized(env) && Bounded(s, config)
    requires !env.early && !FlushFails(s, env)
    ensures var t := RecordAction(s, config, action, env).state;
      && Sealing(s, t, base, config.checkpointInterval, Most(config.checkpointInterval) + 2) && Bounded(t, config)
  {
    hide Good, ActionFine, CallSized, FlushFails, RecordsOf, TypeFieldOf, RecordAction, Pending, Witnessing, Sealing;
    var t, g := RecordAction(s, config, action, env).state, if s.pendingGap then 1 else 0;
    RecordingPlaces(s, base, config, action, env);
    RecordingPending(s, base, config, action, env);
    RecordingBounded(s, base, config, action, env);
    if |s.batch| + g + 1 >= config.checkpointInterval {
      OneSealed(s, t, base, |All(s)| + g + 1, config.checkpointInterval, Most(config.checkpointInterval) + 2);
    } else {
      NoneSealed(s, t, base, config.checkpointInterval, Most(config.checkpointInterval) + 2);
    }
  }

  lemma RecordingBounded(s: State, base: nat, config: Config, action: ActionPayload, env: CallWorld)
    requires Good(s, base) && ActionFine(s, config, action, env) && CallSized(env) && Bounded(s, config)
    requires !env.early && !FlushFails(s, env)
    ensures Bounded(RecordAction(s, config, action, env).state, config)
  {
    hide Good, ActionFine, CallSized, FlushFails, All, TypeFieldOf, RecordAction;
    RecordingPlaces(s, base, config, action, env);
  }

  lemma RecordCallSeals(s: State, base: nat, config: Config, action: ActionPayload, env: CallWorld)
    requires Good(s, base) && Short(s) && ActionFine(s, config, action, env) && CallSized(env) && Bounded(s, config)
    ensures var t := RecordAction(s, config, action, env).state;
      && Sealing(s, t, base, config.checkpointInterval, Most(config.checkpointInterval) + 2) && Bounded(t, config)
  {
    hide Good, Short, CallSized, RecordAction, ActionFine, All, FlushFails, TypeFieldOf, Pending, KeepsHash, Sealing;
    GoodBase(s, base);
    if env.early {
      EarlyThrown(s, config, action, env);
      NoneSealed(s, s, base, config.checkpointInterval, Most(config.checkpointInterval) + 2);
    } else if FlushFails(s, env) {
      FlushKeepsHash(s, base, env);
      FailedFlushKeeps(s, base, env);
      FailedFlushSame(s, config, action, env);
      NoneSealed(s, FlushPendingGap(s, env.flush).state, base, config.checkpointInterval,
        Most(config.checkpointInterval) + 2);
    } else {
      RecordingSeals(s, base, config, action, env);
    }
  }

  lemma FailedFlushSame(s: State, config: Config, action: ActionPayload, env: CallWorld)
    requires !env.early && FlushFails(s, env)
    ensures var t := RecordAction(s, config, action, env).state;
      t == FlushPendingGap(s, env.flush).state && t.batch == s.batch && t.sinceWitness == s.sinceWitness
  {
    hide Step, PendingGapOp, CanonicalBytes, ActionPhase, RecordAction;
    CallPhases(s, config, action, env);
  }

  lemma CheckpointCallSeals(s: State, base: nat, config: Config, env: CallWorld)
    requires var call := MakeCheckpoint(env);
      Good(s, base) && Short(s) && CallFine(s, config, call) && CallWithin(call) && Bounded(s, config)
    ensures var t := EmitCheckpoint(s, env).state;
      Sealing(s, t, base, 0, Most(config.checkpointInterval) + 2) && Bounded(t, config)
  {
    hide Good, Mid, All, CallSized, AllModerate, CheckpointOp, Step, Accepted, HoldsGap, Attempt, Encodable,
      CanonicalBytes, Attests, Pending, TypeFieldOf, Sealing, Books, InStep;
    var t := EmitCheckpoint(s, env).state;
    GoodHolds(s, base);
    GoodBase(s, base);
    if s.pendingGap {
      CheckpointNoGap(s, env);
      HeldGapWrite(s.chain, s.segments, s.gapFirstLostSeq, CheckpointOp(s, env), env.checkpoint);
      SizedCheckpoint(env);
      CheckpointSmall(s, env);
      SmallKeepsHash(s.chain, CheckpointOp(s, env), env.checkpoint);
      HeldGood(s, base, Step(s.chain, CheckpointOp(s, env), env.checkpoint).0, s.sinceWitness);
      NoneSealed(s, t, base, 0, Most(config.checkpointInterval) + 2);
    } else {
      MidParts(s, base);
      CheckpointWrite(s, base, env);
      assert All(t)[base..|All(s)|] == All(s)[base..];
      OneSealed(s, t, base, |All(s)|, 0, Most(config.checkpointInterval) + 2);
    }
  }

  lemma ReceiptsCallSeal(s: State, base: nat, config: Config, env: CallWorld)
    requires var call := SendReceipts(env);
      Good(s, base) && Short(s) && CallFine(s, config, call) && CallWithin(call) && Bounded(s, config)
    ensures var t := SendWitness(s, env);
      && Sealing(s, t, base, config.checkpointInterval, Most(config.checkpointInterval) + 2) && Bounded(t, config)
  {
    hide Good, Mid, All, AllModerate, Accepted, HoldsGap, NoneLands, ReceiptsAccepted, WriteReceipts, ReceiptsSized,
      Wrote, TypeFieldOf, Pending, ReceiptPayloads, Sealing, Books, InStep;
    var n, hash, t := s.chain.sequence, s.chain.prevHash, SendWitness(s, env);
    GoodHolds(s, base);
    GoodBase(s, base);
    if s.pendingGap {
      ReceiptsHeld(s.chain, s.segments, s.gapFirstLostSeq, n, hash, env.receipts);
      HeldGood(s, base, t.chain, 0);
    } else {
      MidParts(s, base);
      var ps := ReceiptPayloads(n, hash, env.receipts);
      ReceiptsWrote(s, n, hash, env.receipts);
      WroteAlike(s, s.(chain := t.chain), t, ps);
      ReceiptsAreWitnesses(n, hash, env.receipts);
      WroteGrows(s, t, ps);
      WroteTypes(s, t, ps);
      forall k | |All(s)| <= k < |All(t)|
        ensures TypeFieldOf(All(t)[k]) != CHECKPOINT
      {
        var i := k - |All(s)|;
        assert ps[i].Witness? && All(t)[k] == All(t)[|All(s)| + i];
      }
    }
    NoneSealed(s, t, base, config.checkpointInterval, Most(config.checkpointInterval) + 2);
  }

  /** One fine call: the bounds hold again, and the checkpoints it adds seal at least an interval, unless the
      call asks for one, and at most two records more than may wait. */
  lemma CallSeals(s: State, base: nat, config: Config, call: Call)
    requires Good(s, base) && Short(s) && CallFine(s, config, call) && CallWithin(call) && Bounded(s, config)
    ensures var t := AfterCall(s, config, call);
      && Sealing(s, t, base, if call.MakeCheckpoint? then 0 else config.checkpointInterval,
           Most(config.checkpointInterval) + 2)
      && Bounded(t, config)
  {
    hide Good, Short, CallSized, RecordAction, ActionFine, EmitCheckpoint, SendWitness, All, Sealing, AllModerate,
      NoneLands, ReceiptsAccepted, Accepted, Step, CheckpointOp;
    match call
    case Safe(action, env) =>
      RecordCallSeals(s, base, config, action, env);
      SealingAlike(s, RecordAction(s, config, action, env).state, AfterCall(s, config, call), base,
        config.checkpointInterval, Most(config.checkpointInterval) + 2);
    case Direct(action, env) => RecordCallSeals(s, base, config, action, env);
    case MakeCheckpoint(env) => CheckpointCallSeals(s, base, config, env);
    case SendReceipts(env) => ReceiptsCallSeal(s, base, config, env);
  }
}
