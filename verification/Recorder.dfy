/** The synchronous recorder (ahp/recorder.py, ahp/_base_recorder.py): one call at a time, with the
    writer underneath, checkpoints, witness receipts, rotation and the fail-open gap protocol. */
module Recorder {
  import opened Bytes
  import opened Records
  import opened Canonical
  import opened ChainWriter
  import opened Merkle

  /** What a recorder is configured with. Payloads that only depend on the configuration are taken
      as given. */
  datatype Config = Config(
    level: nat, checkpointInterval: nat, witnessInterval: nat, endpoints: nat, maxSegmentBytes: nat,
    boot: BootPayload, key: Option<KeyPayload>)

  /** The recorder's fields, the writer it holds, and the segments renamed so far, oldest first. */
  datatype State = State(
    chain: Writer, segments: seq<bytes>, pendingGap: bool, gapDetail: Text, gapFirstLostSeq: int,
    sinceCheckpoint: nat, batch: seq<Digest>, sinceWitness: nat)

  /** What a witness answers: its id, timestamp, signature and public key. */
  datatype Receipt = Receipt(witnessId: Text, timestamp: int, signature: bytes, publicKey: bytes)

  /** What a call meets outside: whether filtering or evidence fails before the lock, what each write
      meets, the signature and evidence counts of a checkpoint, what each witness answers (None when
      it gives no receipt), and how a rotation goes. */
  datatype CallWorld = CallWorld(
    early: bool, errorText: Text, flush: World, action: World, checkpoint: World,
    signature: bytes, signingKeyId: bytes, evidenceAvailable: nat, evidenceMissing: nat,
    receipts: seq<Option<(Receipt, World)>>,
    renameOk: bool, newAgentId: bytes, newSessionId: bytes, createdMs: nat, boot: World, key: World)

  /** A step of a call: it goes on, or an exception leaves it with the state reached. */
  datatype Outcome = Fine(state: State) | Thrown(state: State) {
    predicate IsFailure() { Thrown? }
    function PropagateFailure(): Outcome requires Thrown? { this }
    function Extract(): State requires Fine? { state }
  }

  // ------------------------------------------------------------------- specification

  /** _track_record */
  function Track(s: State, r: Record): State {
    s.(sinceCheckpoint := s.sinceCheckpoint + 1, sinceWitness := s.sinceWitness + 1,
       batch := s.batch + [Sha256(CanonicalBytes(r))])
  }

  /** A write followed by _track_record. */
  function WriteTracked(s: State, op: Op, env: World): Outcome {
    match Step(s.chain, op, env)
    case (w, Written(r)) => Fine(Track(s.(chain := w), r))
    case (w, _) => Thrown(s.(chain := w))
  }

  /** The gap that _flush_pending_gap writes: at least one number is lost. */
  function PendingGapOp(s: State): Op {
    WriteGap(s.gapFirstLostSeq, if s.gapFirstLostSeq > s.chain.sequence then s.gapFirstLostSeq else s.chain.sequence,
      INTERCEPTOR_FAILURE, s.gapDetail)
  }

  /** _flush_pending_gap */
  function FlushPendingGap(s: State, env: World): Outcome {
    if !s.pendingGap then Fine(s)
    else
      var t :- WriteTracked(s, PendingGapOp(s), env);
      Fine(t.(pendingGap := false, gapDetail := [], gapFirstLostSeq := 0))
  }

  /** _build_checkpoint_payload */
  function CheckpointFor(s: State, env: CallWorld): CheckpointPayload {
    CheckpointPayload(s.chain.recordCount + 1, s.chain.gapCount, s.chain.prevHash, MerkleRoot(s.batch), env.signature,
      env.signingKeyId, env.evidenceAvailable, 0, 0, env.evidenceMissing)
  }

  function CheckpointOp(s: State, env: CallWorld): Op {
    WriteRecord(Checkpoint(CheckpointFor(s, env)), None, None)
  }

  /** emit_checkpoint */
  function EmitCheckpoint(s: State, env: CallWorld): Outcome {
    match Step(s.chain, CheckpointOp(s, env), env.checkpoint)
    case (w, Written(_)) => Fine(s.(chain := w, sinceCheckpoint := 0, batch := []))
    case (w, _) => Thrown(s.(chain := w))
  }

  /** The witness record for a receipt: it names the number and the hash that were sent. */
  function WitnessFor(sequence: int, hash: Digest, receipt: Receipt): WitnessPayload {
    WitnessPayload(receipt.witnessId, sequence, hash, receipt.timestamp, receipt.signature, receipt.publicKey)
  }

  function ReceiptOp(sequence: int, hash: Digest, receipt: Receipt): Op {
    WriteRecord(Witness(WitnessFor(sequence, hash, receipt)), None, None)
  }

  /** The receipts are written in turn; a failure is swallowed. */
  function WriteReceipts(w: Writer, sequence: int, hash: Digest, receipts: seq<Option<(Receipt, World)>>): Writer
    decreases |receipts|
  {
    if receipts == [] then w
    else
      match receipts[0]
      case None => WriteReceipts(w, sequence, hash, receipts[1..])
      case Some((receipt, env)) =>
        WriteReceipts(Step(w, ReceiptOp(sequence, hash, receipt), env).0, sequence, hash, receipts[1..])
  }

  /** send_witness_checkpoint: number and hash are read once, before anything is sent. */
  function SendWitness(s: State, env: CallWorld): State {
    s.(chain := WriteReceipts(s.chain, s.chain.sequence, s.chain.prevHash, env.receipts), sinceWitness := 0)
  }

  /** The writer that rotation opens: on a new file, or on the old one if it could not be renamed. */
  function Reopened(w: Writer, env: CallWorld): Writer {
    var existing := if env.renameOk then None else Some(w.file);
    Opened(env.newAgentId, env.newSessionId, existing, env.createdMs, w.prevHash, w.sequence)
  }

  /** _emit_boot_record, and _emit_key_genesis_record at level 2 and above. */
  function EmitGenesis(s: State, config: Config, boot: World, key: World): Outcome {
    var t :- WriteTracked(s, WriteRecord(Boot(config.boot), None, None), boot);
    if config.level >= 2 && config.key.Some? then WriteTracked(t, WriteRecord(Key(config.key.value), None, None), key)
    else Fine(t)
  }

  /** _check_rotation */
  function CheckRotation(s: State, config: Config, env: CallWorld): Outcome {
    if s.chain.bytesWritten < config.maxSegmentBytes then Fine(s)
    else
      EmitGenesis(
        s.(chain := Reopened(s.chain, env),
           segments := if env.renameOk then s.segments + [s.chain.file] else s.segments),
        config, env.boot, env.key)
  }

  predicate CheckpointDue(s: State, config: Config) { s.sinceCheckpoint >= config.checkpointInterval }

  predicate WitnessDue(s: State, config: Config) {
    config.level >= 3 && config.endpoints > 0 && s.sinceWitness >= config.witnessInterval
  }

  /** record_action */
  function RecordAction(s: State, config: Config, action: ActionPayload, env: CallWorld): Outcome {
    if env.early then Thrown(s)
    else
      var s1 :- FlushPendingGap(s, env.flush);
      var s2 :- WriteTracked(s1, WriteRecord(Action(action), None, None), env.action);
      var s3 :- if CheckpointDue(s2, config) then EmitCheckpoint(s2, env) else Fine(s2);
      var s4 := if WitnessDue(s3, config) then SendWitness(s3, env) else s3;
      CheckRotation(s4, config, env)
  }

  /** What safe_record remembers of a failure; the first one of a run gives the number it starts at. */
  function Remembered(s: State, text: Text): State {
    s.(gapFirstLostSeq := if s.pendingGap then s.gapFirstLostSeq else s.chain.sequence + 1, pendingGap := true,
       gapDetail := text)
  }

  /** safe_record */
  function SafeRecord(s: State, config: Config, action: ActionPayload, env: CallWorld): State {
    match RecordAction(s, config, action, env)
    case Fine(t) => t
    case Thrown(t) => Remembered(t, env.errorText)
  }

  /** The public operations that write: safe_record, record_action, emit_checkpoint and
      send_witness_checkpoint. What one of the others raises goes to its caller. */
  datatype Call =
    | Safe(action: ActionPayload, env: CallWorld)
    | Direct(action: ActionPayload, env: CallWorld)
    | MakeCheckpoint(env: CallWorld)
    | SendReceipts(env: CallWorld)

  function AfterCall(s: State, config: Config, call: Call): State {
    match call
    case Safe(action, env) => SafeRecord(s, config, action, env)
    case Direct(action, env) => RecordAction(s, config, action, env).state
    case MakeCheckpoint(env) => EmitCheckpoint(s, env).state
    case SendReceipts(env) => SendWitness(s, env)
  }

  // ------------------------------------------------------------------------ the class

  class AHPRecorder {
    const config: Config
    var chain: Chain
    var segments: seq<bytes>
    var pendingGap: bool
    var gapDetail: Text
    var gapFirstLostSeq: int
    var sinceCheckpoint: nat
    var batch: seq<Digest>
    var sinceWitness: nat

    ghost function Abs(): State
      reads this, chain
    {
      State(chain.State(), segments, pendingGap, gapDetail, gapFirstLostSeq, sinceCheckpoint, batch, sinceWitness)
    }

    constructor (config: Config, chain: Chain)
      ensures this.config == config && this.chain == chain
      ensures Abs() == State(chain.State(), [], false, [], 0, 0, [], 0)
    {
      this.config := config;
      this.chain := chain;
      segments, pendingGap, gapDetail, gapFirstLostSeq := [], false, [], 0;
      sinceCheckpoint, batch, sinceWitness := 0, [], 0;
    }

    method TrackRecord(r: Record)
      modifies this`sinceCheckpoint, this`sinceWitness, this`batch
      ensures Abs() == Track(old(Abs()), r)
    {
      sinceCheckpoint := sinceCheckpoint + 1;
      sinceWitness := sinceWitness + 1;
      batch := batch + [Sha256(CanonicalBytes(r))];
    }

    /** write_record, write_gap and the like, followed by _track_record. */
    method WriteAndTrack(payload: Payload, env: World) returns (ok: bool)
      modifies chain, this`sinceCheckpoint, this`sinceWitness, this`batch
      ensures (if ok then Fine(Abs()) else Thrown(Abs()))
           == WriteTracked(old(Abs()), WriteRecord(payload, None, None), env)
    {
      hide Step;
      var r := chain.WriteRecord(payload, None, None, env);
      if !r.Written? {
        return false;
      }
      TrackRecord(r.record);
      return true;
    }

    method FlushPending(env: World) returns (ok: bool)
      modifies this, chain
      ensures chain == old(chain)
      ensures (if ok then Fine(Abs()) else Thrown(Abs())) == FlushPendingGap(old(Abs()), env)
    {
      hide Step, MerkleRoot, CanonicalBytes;
      if !pendingGap {
        return true;
      }
      var firstLost := gapFirstLostSeq;
      var lastLost := chain.sequence;
      if firstLost > lastLost {
        lastLost := firstLost;
      }
      var r := chain.WriteGap(firstLost, lastLost, INTERCEPTOR_FAILURE, gapDetail, env);
      if !r.Written? {
        return false;
      }
      TrackRecord(r.record);
      pendingGap := false;
      gapDetail := [];
      gapFirstLostSeq := 0;
      return true;
    }

    method WriteCheckpoint(env: CallWorld) returns (ok: bool)
      modifies chain, this`sinceCheckpoint, this`batch
      ensures (if ok then Fine(Abs()) else Thrown(Abs())) == EmitCheckpoint(old(Abs()), env)
    {
      hide Step, MerkleRoot;
      var root := ComputeMerkleRoot(batch);
      var payload := CheckpointPayload(chain.recordCount + 1, chain.gapCount, chain.prevHash, root, env.signature,
        env.signingKeyId, env.evidenceAvailable, 0, 0, env.evidenceMissing);
      var r := chain.WriteRecord(Checkpoint(payload), None, None, env.checkpoint);
      if !r.Written? {
        return false;
      }
      sinceCheckpoint := 0;
      batch := [];
      return true;
    }

    method SendWitnessCheckpoint(env: CallWorld)
      modifies chain, this`sinceWitness
      ensures Abs() == SendWitness(old(Abs()), env)
    {
      hide Step;
      var hash, sequence := chain.prevHash, chain.sequence;
      for i := 0 to |env.receipts|
        invariant Abs() == old(Abs()).(chain := chain.State())
        invariant WriteReceipts(chain.State(), sequence, hash, env.receipts[i..])
               == WriteReceipts(old(chain.State()), sequence, hash, env.receipts)
      {
        assert env.receipts[i..][0] == env.receipts[i] && env.receipts[i..][1..] == env.receipts[i + 1..];
        match env.receipts[i] {
          case None =>
          case Some((receipt, w)) =>
            var payload := WitnessFor(sequence, hash, receipt);
            var r := chain.WriteRecord(Witness(payload), None, None, w);
        }
      }
      sinceWitness := 0;
    }

    method WriteGenesis(boot: World, key: World) returns (ok: bool)
      modifies chain, this`sinceCheckpoint, this`sinceWitness, this`batch
      ensures (if ok then Fine(Abs()) else Thrown(Abs())) == EmitGenesis(old(Abs()), config, boot, key)
    {
      hide Step;
      ok := WriteAndTrack(Boot(config.boot), boot);
      if ok && config.level >= 2 && config.key.Some? {
        ok := WriteAndTrack(Key(config.key.value), key);
      }
    }

    method Rotate(env: CallWorld) returns (ok: bool)
      modifies this, chain
      ensures chain == old(chain) || fresh(chain)
      ensures (if ok then Fine(Abs()) else Thrown(Abs())) == CheckRotation(old(Abs()), config, env)
    {
      hide Step, EmitGenesis;
      var chainSize := chain.bytesWritten;
      if chainSize < config.maxSegmentBytes {
        return true;
      }
      var prevHash, prevSequence, file := chain.prevHash, chain.sequence, chain.file;
      var existing := Some(file);
      if env.renameOk {
        segments := segments + [file];
        existing := None;
      }
      chain := new Chain(env.newAgentId, env.newSessionId, existing, env.createdMs, Some(prevHash), prevSequence);
      ok := WriteGenesis(env.boot, env.key);
    }

    method Record(action: ActionPayload, env: CallWorld) returns (ok: bool)
      modifies this, chain
      ensures chain == old(chain) || fresh(chain)
      ensures (if ok then Fine(Abs()) else Thrown(Abs())) == RecordAction(old(Abs()), config, action, env)
    {
      hide Step, FlushPendingGap, WriteTracked, EmitCheckpoint, SendWitness, CheckRotation;
      if env.early {
        return false;
      }
      ok := FlushPending(env.flush);
      if !ok {
        return;
      }
      ok := WriteAndTrack(Action(action), env.action);
      if !ok {
        return;
      }
      if sinceCheckpoint >= config.checkpointInterval {
        ok := WriteCheckpoint(env);
        if !ok {
          return;
        }
      }
      if config.level >= 3 && config.endpoints > 0 && sinceWitness >= config.witnessInterval {
        SendWitnessCheckpoint(env);
      }
      ok := Rotate(env);
    }

    method RecordSafely(action: ActionPayload, env: CallWorld)
      modifies this, chain
      ensures chain == old(chain) || fresh(chain)
      ensures Abs() == SafeRecord(old(Abs()), config, action, env)
    {
      hide RecordAction;
      var ok := Record(action, env);
      if !ok {
        if !pendingGap {
          gapFirstLostSeq := chain.sequence + 1;
        }
        pendingGap := true;
        gapDetail := env.errorText;
      }
    }
  }
}
