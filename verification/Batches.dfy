/** What the records of a chain say about the recorder: the actions, the checkpoint batches and the
    witness records (ahp/_base_recorder.py, ahp/recorder.py). */
module Batches {
  import opened Bytes
  import opened Records
  import opened Canonical
  import opened Parse
  import opened Validation
  import opened Verify
  import opened ChainWriter
  import opened WriterRuns
  import opened Merkle
  import opened Recorder

  // ---------------------------------------------------------------- checkpoint batches

  /** Records that _track_record never sees. */
  predicate Untracked(s: bytes) {
    TypeFieldOf(s) == CHECKPOINT || TypeFieldOf(s) == WITNESS
  }

  function Hashed(s: bytes): seq<Digest> {
    if Untracked(s) then [] else [Sha256(s)]
  }

  /** The hashes of all tracked records, in order. */
  function Tracked(records: seq<bytes>): seq<Digest> {
    if records == [] then [] else Tracked(records[..|records| - 1]) + Hashed(records[|records| - 1])
  }

  /** The hashes of the tracked records behind the last checkpoint. */
  function Pending(records: seq<bytes>): seq<Digest> {
    if records == [] then []
    else
      var front, last := records[..|records| - 1], records[|records| - 1];
      if TypeFieldOf(last) == CHECKPOINT then [] else Pending(front) + Hashed(last)
  }

  /** The batches that the checkpoints seal, one after the other. */
  function Sealed(records: seq<bytes>): seq<Digest> {
    if records == [] then []
    else
      var front, last := records[..|records| - 1], records[|records| - 1];
      if TypeFieldOf(last) == CHECKPOINT then Sealed(front) + Pending(front) else Sealed(front)
  }

  /** The checkpoints' batches and the pending one partition the tracked records, in order. */
  lemma {:induction false} BatchesPartition(records: seq<bytes>)
    ensures Sealed(records) + Pending(records) == Tracked(records)
  {
    hide TypeFieldOf;
    if records != [] {
      BatchesPartition(records[..|records| - 1]);
    }
  }

  lemma PendingSnoc(records: seq<bytes>, s: bytes)
    ensures Pending(records + [s]) == if TypeFieldOf(s) == CHECKPOINT then [] else Pending(records) + Hashed(s)
  {
    hide TypeFieldOf;
    assert (records + [s])[..|records|] == records;
  }

  /** The checkpoint stored in s carries the hash of its own link and the root of this batch. */
  predicate Attests(s: bytes, batch: seq<Digest>) {
    match ReadRecord(s)
    case Some(r) => r.payload.Checkpoint? && r.payload.checkpoint.chainHash == r.prevHash == PrevHashOf(s)
      && r.payload.checkpoint.merkleRoot == MerkleRoot(batch)
    case None => false
  }

  /** Every checkpoint attests the batch of tracked records since the one before it. */
  predicate CheckpointsRight(records: seq<bytes>) {
    forall k :: 0 <= k < |records| && TypeFieldOf(records[k]) == CHECKPOINT ==>
      Attests(records[k], Pending(records[..k]))
  }

  lemma CheckpointsSnoc(records: seq<bytes>, s: bytes)
    requires CheckpointsRight(records) && (TypeFieldOf(s) == CHECKPOINT ==> Attests(s, Pending(records)))
    ensures CheckpointsRight(records + [s])
  {
    hide TypeFieldOf, Attests, Pending;
    var all := records + [s];
    forall k | 0 <= k < |all| && TypeFieldOf(all[k]) == CHECKPOINT
      ensures Attests(all[k], Pending(all[..k]))
    {
      assert all[..k] == records[..k];
      assert records[..|records|] == records;
    }
  }

  /** What a checkpoint over a batch says once it is stored. */
  lemma CheckpointAttests(s: State, env: CallWorld, batch: seq<Digest>)
    requires s.batch == batch && Ids(s.chain) && Accepted(s.chain, CheckpointOp(s, env), env.checkpoint)
    ensures Attests(CanonicalBytes(Attempt(s.chain, CheckpointOp(s, env), env.checkpoint)), batch)
  {
    hide CanonicalBytes, ReadRecord, Step, Encodable, Attempt, MerkleRoot, PayloadFits, ParseEnvelope, EnvelopeFields,
      Passes, ReadBackSizes, Sized, Ids;
    var op := CheckpointOp(s, env);
    var r := Attempt(s.chain, op, env.checkpoint);
    StepEffect(s.chain, op, env.checkpoint);
    AttemptBuilt(s.chain, op, env.checkpoint);
    RecordSays(r);
    CheckpointReadBack(r.payload);
    WrittenReadBack(s.chain, op, env.checkpoint);
  }

  lemma CheckpointReadBack(p: Payload)
    requires p.Checkpoint?
    ensures ReadBackSizes(p)
  {
  }

  // ------------------------------------------------------------------------- actions

  function ActionIn(s: bytes): seq<ActionPayload> {
    if TypeFieldOf(s) != ACTION then []
    else
      match ReadRecord(s)
      case Some(r) => if r.payload.Action? then [r.payload.action] else []
      case None => []
  }

  /** The actions that a reader finds in a chain, in order. */
  function Actions(records: seq<bytes>): seq<ActionPayload> {
    if records == [] then [] else Actions(records[..|records| - 1]) + ActionIn(records[|records| - 1])
  }

  function ActsOf(p: Payload): seq<ActionPayload> {
    if p.Action? then [p.action] else []
  }

  /** A reader finds an action in a stored record exactly when one was written. */
  lemma ActionStored(w: Writer, op: Op, env: World)
    requires Ids(w) && Accepted(w, op, env)
    ensures ActionIn(CanonicalBytes(Attempt(w, op, env))) == ActsOf(PayloadFor(w, op))
  {
    hide CanonicalBytes, ReadRecord, Encodable, Attempt, PayloadFor, TypeFieldOf, ReadBackSizes, Ids, IsGap, GapIn,
      PrevHashOf, SeqOf, RecordOk, Sized;
    AttemptBuilt(w, op, env);
    RecordSays(Attempt(w, op, env));
    if PayloadFor(w, op).Action? {
      ActionReadBack(PayloadFor(w, op));
      WrittenReadBack(w, op, env);
    }
  }

  lemma ActionReadBack(p: Payload)
    requires p.Action?
    ensures ReadBackSizes(p)
  {
  }

  // ------------------------------------------------------------------- witness records

  /** The witness record s names the record r: by its number and its hash. */
  predicate Names(s: bytes, r: bytes) {
    match ParseEnvelope(s)
    case Some(e) =>
      var p := ParseWitness(e.payloadBytes);
      p.Ok? && p.value.checkpointSeq == SeqOf(r) && p.value.checkpointHash == Sha256(r)
    case None => false
  }

  ghost predicate NamesOneOf(s: bytes, records: seq<bytes>) {
    exists j :: 0 <= j < |records| && Names(s, records[j])
  }

  /** From record `base` on, every witness record names a record in front of it. */
  ghost predicate WitnessesRight(records: seq<bytes>, base: nat) {
    forall k :: base <= k < |records| && TypeFieldOf(records[k]) == WITNESS ==> NamesOneOf(records[k], records[..k])
  }

  lemma WitnessesSnoc(records: seq<bytes>, base: nat, s: bytes)
    requires WitnessesRight(records, base) && (TypeFieldOf(s) == WITNESS ==> NamesOneOf(s, records))
    ensures WitnessesRight(records + [s], base)
  {
    hide TypeFieldOf, NamesOneOf;
    var all := records + [s];
    forall k | base <= k < |all| && TypeFieldOf(all[k]) == WITNESS
      ensures NamesOneOf(all[k], all[..k])
    {
      assert all[..k] == records[..k];
      assert records[..|records|] == records;
    }
  }

  /** A stored receipt names the record whose number and hash were sent. */
  lemma ReceiptNames(w: Writer, receipt: Receipt, env: World, r: bytes)
    requires Ids(w) && Accepted(w, ReceiptOp(SeqOf(r), Sha256(r), receipt), env)
    ensures Names(CanonicalBytes(Attempt(w, ReceiptOp(SeqOf(r), Sha256(r), receipt), env)), r)
  {
    hide CanonicalBytes, Encodable, Attempt, SeqOf, ParseEnvelope, ParseWitness, PayloadBytes, Fit, EnvelopeWellFormed,
      PayloadFits, EnvelopeFields;
    var op := ReceiptOp(SeqOf(r), Sha256(r), receipt);
    var q := Attempt(w, op, env);
    AttemptBuilt(w, op, env);
    EncodableParts(q);
    BuiltEnvelope(q);
    EnvelopeRoundTrip(q);
    WitnessHead(WitnessFor(SeqOf(r), Sha256(r), receipt));
  }

  lemma EncodableParts(r: Record)
    requires Encodable(r)
    ensures Fit(EnvelopeFields(r)) && PayloadFits(r.payload)
  {
    hide Fit, PayloadFits, EnvelopeFields;
  }
}
