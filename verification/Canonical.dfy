/** Canonical serialization (ahp/core/canonical.py): the fields of a record in ascending tag
    order, and the serializers that append them to a growing buffer. */
module Canonical {
  import opened Bytes
  import opened Records

  // ------------------------------------------------------------------- fields

  /** One field as the format writes it. */
  datatype Field =
    | F32(n: int)
    | F64(n: int)
    | FStr(s: Text)
    | FRaw(b: bytes)
    | FFlag(f: bool)

  predicate Fits32(v: int) { 0 <= v <= MAX_UINT32 }

  predicate Fits64(v: int) { 0 <= v <= MAX_UINT64 }

  predicate FitsStr(s: Text) { |s| <= MAX_UINT32 }

  /** The value fits its field, so that packing it does not raise. */
  predicate FieldFits(f: Field) {
    match f
    case F32(n) => Fits32(n)
    case F64(n) => Fits64(n)
    case FStr(s) => FitsStr(s)
    case FRaw(_) => true
    case FFlag(_) => true
  }

  function FieldBytes(f: Field): bytes {
    match f
    case F32(n) => U32(n)
    case F64(n) => U64(n)
    case FStr(s) => U32(|s|) + s
    case FRaw(b) => b
    case FFlag(b) => if b then [1] else [0]
  }

  predicate Fit(fs: seq<Field>) {
    forall i :: 0 <= i < |fs| ==> FieldFits(fs[i])
  }

  function Encode(fs: seq<Field>): bytes {
    if fs == [] then [] else FieldBytes(fs[0]) + Encode(fs[1..])
  }

  function EntryFields(e: AuthorizationEntry): seq<Field> {
    [F32(e.authorizerType), FStr(e.authorizerId), FRaw(e.authorizerAgentId), F64(e.authorizerSeq),
     F32(e.decision), FStr(e.condition), F64(e.timestampMs)]
  }

  function EntryGroups(es: seq<AuthorizationEntry>): seq<seq<Field>> {
    seq(|es|, i requires 0 <= i < |es| => EntryFields(es[i]))
  }

  function EncodeGroups(gs: seq<seq<Field>>): bytes {
    if gs == [] then [] else Encode(gs[0]) + EncodeGroups(gs[1..])
  }

  predicate GroupsFit(gs: seq<seq<Field>>) {
    forall k :: 0 <= k < |gs| ==> Fit(gs[k])
  }

  /** The fields of an action up to and including the number of authorization entries. */
  function ActionHead(p: ActionPayload): seq<Field> {
    [FRaw(p.parentActionId), FStr(p.toolName), FRaw(p.parametersHash), FRaw(p.resultHash),
     F32(p.resultStatus), F32(p.responseTimeMs), F32(p.protocol), F32(p.actionType),
     FStr(p.targetEntity), FStr(p.evidenceUri), FFlag(p.redacted), FStr(p.modelId),
     F32(p.inputTokenCount), F32(p.outputTokenCount), F32(p.cacheReadTokens),
     F32(p.cacheCreationTokens), F32(p.reasoningTokens), F64(p.costNanoUsd), FStr(p.provider),
     F32(p.authorization.kind), F32(|p.authorization.entries|)]
  }

  function GapFields(p: GapPayload): seq<Field> {
    [F64(p.firstLost), F64(p.lastLost), F64(p.count), F32(p.reason), FStr(p.detail)]
  }

  function CheckpointFields(p: CheckpointPayload): seq<Field> {
    [F64(p.recordCount), F64(p.gapCount), FRaw(p.chainHash), FRaw(p.merkleRoot), FRaw(p.signature),
     FRaw(p.signingKeyId), F64(p.evidenceAvailable), F64(p.evidenceExported), F64(p.evidenceExpired),
     F64(p.evidenceMissing)]
  }

  function TextFields(ts: seq<Text>): seq<Field> {
    seq(|ts|, i requires 0 <= i < |ts| => FStr(ts[i]))
  }

  function BootHead(p: BootPayload): seq<Field> {
    [FStr(p.sdkName), FStr(p.sdkVersion), F32(|p.interceptors|)]
  }

  function BootTail(p: BootPayload): seq<Field> {
    [FStr(p.agentFramework), FStr(p.agentName), FStr(p.runtime), F32(p.chainLevel), F32(p.fsyncMode),
     FStr(p.clockSource), FFlag(p.inferenceRecording), FFlag(p.inferenceEvidence),
     FFlag(p.evidenceRecording), FRaw(p.filterConfigHash), FStr(p.matchedAgentRule),
     FStr(p.configSource), FFlag(p.authorizationRecording)]
  }

  function RecoveryFields(p: RecoveryPayload): seq<Field> {
    [F64(p.recordsVerified), F64(p.recordsTruncated), F64(p.lastValidSeq), F32(p.recoveryMethod), FStr(p.detail)]
  }

  function KeyFields(p: KeyPayload): seq<Field> {
    [FRaw(p.publicKey), FRaw(p.keyId), F64(p.expiresAt), FRaw(p.supersedesKeyId)]
  }

  function WitnessFields(p: WitnessPayload): seq<Field> {
    [FStr(p.witnessId), F64(p.checkpointSeq), FRaw(p.checkpointHash), F64(p.witnessTimestamp),
     FRaw(p.receiptSignature), FRaw(p.witnessPublicKey)]
  }

  /** The payload fields after the discriminator. */
  function PayloadBytes(p: Payload): bytes {
    match p
    case Action(a) => Encode(ActionHead(a)) + EncodeGroups(EntryGroups(a.authorization.entries))
    case Gap(g) => Encode(GapFields(g))
    case Checkpoint(c) => Encode(CheckpointFields(c))
    case Boot(b) => Encode(BootHead(b)) + (Encode(TextFields(b.interceptors)) + Encode(BootTail(b)))
    case Recovery(r) => Encode(RecoveryFields(r))
    case Key(k) => Encode(KeyFields(k))
    case Witness(w) => Encode(WitnessFields(w))
  }

  predicate PayloadFits(p: Payload) {
    match p
    case Action(a) => Fit(ActionHead(a)) && GroupsFit(EntryGroups(a.authorization.entries))
    case Gap(g) => Fit(GapFields(g))
    case Checkpoint(c) => Fit(CheckpointFields(c))
    case Boot(b) => Fit(BootHead(b)) && Fit(TextFields(b.interceptors)) && Fit(BootTail(b))
    case Recovery(r) => Fit(RecoveryFields(r))
    case Key(k) => Fit(KeyFields(k))
    case Witness(w) => Fit(WitnessFields(w))
  }

  /** The envelope, closed by the payload discriminator, which repeats the record type. */
  function EnvelopeFields(r: Record): seq<Field> {
    [FRaw(r.recordId), FRaw(r.agentId), FRaw(r.sessionId), F64(r.timestampMs), F64(r.sequence),
     FRaw(r.prevHash), F32(r.schemaVersion), F32(r.recordType), F32(r.recordType)]
  }

  /** canonical_bytes returns (rather than raises) exactly on these records. */
  predicate Encodable(r: Record) {
    Fit(EnvelopeFields(r)) && PayloadFits(r.payload)
  }

  function CanonicalBytes(r: Record): bytes {
    Encode(EnvelopeFields(r)) + PayloadBytes(r.payload)
  }

  lemma {:induction false} EncodeLast(fs: seq<Field>, f: Field)
    ensures Encode(fs + [f]) == Encode(fs) + FieldBytes(f)
  {
    if fs == [] {
      assert fs + [f] == [f];
      assert Encode([f]) == FieldBytes(f) + [];
    } else {
      assert (fs + [f])[0] == fs[0] && (fs + [f])[1..] == fs[1..] + [f];
      EncodeLast(fs[1..], f);
    }
  }

  lemma {:induction false} EncodeGroupsLast(gs: seq<seq<Field>>, g: seq<Field>)
    ensures EncodeGroups(gs + [g]) == EncodeGroups(gs) + Encode(g)
  {
    if gs == [] {
      assert gs + [g] == [g];
      assert EncodeGroups([g]) == Encode(g) + [];
    } else {
      assert (gs + [g])[0] == gs[0] && (gs + [g])[1..] == gs[1..] + [g];
      EncodeGroupsLast(gs[1..], g);
    }
  }

  // ----------------------------------------------------------- the serializers

  /** What a serializer does: return normally, or raise on a value that does not fit. */
  datatype Outcome = Pass | Raised {
    predicate IsFailure() { Raised? }
    function PropagateFailure(): Outcome requires Raised? { this }
  }

  /** Python's bytearray, extended in place by the `_serialize_*` functions. */
  class ByteArray {
    var data: bytes

    constructor ()
      ensures data == []
    {
      data := [];
    }

    method Append(f: Field) returns (r: Outcome)
      modifies this
      ensures r.Pass? <==> FieldFits(f)
      ensures data == if r.Pass? then old(data) + FieldBytes(f) else old(data)
    {
      if !FieldFits(f) {
        return Raised;
      }
      data := data + FieldBytes(f);
      return Pass;
    }

    /** A straight run of appends, in order, given up at the first that raises. */
    method AppendAll(fs: seq<Field>) returns (r: Outcome)
      modifies this
      ensures r.Pass? <==> Fit(fs)
      ensures r.Pass? ==> data == old(data) + Encode(fs)
    {
      for i := 0 to |fs|
        invariant Fit(fs[..i])
        invariant data == old(data) + Encode(fs[..i])
      {
        Associate(old(data), Encode(fs[..i]), FieldBytes(fs[i]));
        EncodeLast(fs[..i], fs[i]);
        assert fs[..i + 1] == fs[..i] + [fs[i]];
        :- Append(fs[i]);
      }
      assert fs[..|fs|] == fs;
      return Pass;
    }

    method AppendGroups(gs: seq<seq<Field>>) returns (r: Outcome)
      modifies this
      ensures r.Pass? <==> GroupsFit(gs)
      ensures r.Pass? ==> data == old(data) + EncodeGroups(gs)
    {
      for i := 0 to |gs|
        invariant GroupsFit(gs[..i])
        invariant data == old(data) + EncodeGroups(gs[..i])
      {
        Associate(old(data), EncodeGroups(gs[..i]), Encode(gs[i]));
        EncodeGroupsLast(gs[..i], gs[i]);
        assert gs[..i + 1] == gs[..i] + [gs[i]];
        :- AppendAll(gs[i]);
      }
      assert gs[..|gs|] == gs;
      return Pass;
    }

    /** _serialize_action */
    method AppendAction(p: ActionPayload) returns (r: Outcome)
      modifies this
      ensures r.Pass? <==> PayloadFits(Action(p))
      ensures r.Pass? ==> data == old(data) + PayloadBytes(Action(p))
    {
      ghost var entries := EncodeGroups(EntryGroups(p.authorization.entries));
      Associate(data, Encode(ActionHead(p)), entries);
      :- AppendAll(ActionHead(p));
      :- AppendGroups(EntryGroups(p.authorization.entries));
      return Pass;
    }

    /** _serialize_boot */
    method AppendBoot(p: BootPayload) returns (r: Outcome)
      modifies this
      ensures r.Pass? <==> PayloadFits(Boot(p))
      ensures r.Pass? ==> data == old(data) + PayloadBytes(Boot(p))
    {
      ghost var head, texts, tail := Encode(BootHead(p)), Encode(TextFields(p.interceptors)), Encode(BootTail(p));
      Associate(data + head, texts, tail);
      Associate(data, head, texts + tail);
      :- AppendAll(BootHead(p));
      :- AppendAll(TextFields(p.interceptors));
      :- AppendAll(BootTail(p));
      return Pass;
    }
  }

  /** canonical_bytes: the canonical byte string, or None where the source raises. */
  method Serialize(record: Record) returns (stored: Option<bytes>)
    ensures stored == if Encodable(record) then Some(CanonicalBytes(record)) else None
  {
    var buf := new ByteArray();
    var r := buf.AppendAll(EnvelopeFields(record));
    if r.Raised? {
      return None;
    }
    assert buf.data == Encode(EnvelopeFields(record));
    match record.payload {
      case Action(a) => r := buf.AppendAction(a);
      case Gap(g) => r := buf.AppendAll(GapFields(g));
      case Checkpoint(c) => r := buf.AppendAll(CheckpointFields(c));
      case Boot(b) => r := buf.AppendBoot(b);
      case Recovery(v) => r := buf.AppendAll(RecoveryFields(v));
      case Key(k) => r := buf.AppendAll(KeyFields(k));
      case Witness(w) => r := buf.AppendAll(WitnessFields(w));
    }
    return if r.Pass? then Some(buf.data) else None;
  }
}
