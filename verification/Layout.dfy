/** Where every field stands in the bytes: the layout of envelopes, payloads, frames and headers, written
    out as concatenations, and what the envelope and gap parsers take from any bytes. */
module Layout {
  import opened Bytes
  import opened Records
  import opened Crc32
  import opened Canonical
  import opened Parse
  import opened Frames

  // -------------------------------------------------------------------- integers

  /** Byte i of a little-endian integer is its digit of weight 256^i. */
  lemma {:induction false} LEDigit(v: nat, n: nat, i: nat)
    requires i < n
    ensures LE(v, n)[i] as nat == v / Pow256(i) % 256
    decreases n
  {
    if i > 0 {
      LEDigit(v / 256, n - 1, i - 1);
      DivideTwice(v, Pow256(i - 1));
    }
  }

  lemma DivideTwice(v: nat, p: nat)
    requires p > 0
    ensures v / 256 / p == v / (256 * p)
  {
    var q, r := v / 256 / p, v / 256 % p;
    assert v / 256 == q * p + r;
    assert v == 256 * (q * p) + (256 * r + v % 256);
    Quotient(v, 256 * p, q, 256 * r + v % 256);
  }

  lemma Quotient(v: nat, d: nat, q: nat, r: nat)
    requires d > 0 && v == q * d + r && r < d
    ensures v / d == q
  {
    Below(v / d, q, d, v % d, r);
    Below(q, v / d, d, r, v % d);
  }

  lemma Below(p: int, q: int, d: int, r: int, s: int)
    requires d > 0 && p * d + r == q * d + s && 0 <= r < d && 0 <= s < d
    ensures p <= q
  {
    if p > q {
      Multiples(p, q + 1, d);
    }
  }

  lemma Multiples(x: int, y: int, d: int)
    requires x >= y && d > 0
    ensures x * d >= y * d
  {
  }

  // --------------------------------------------------------------------- payloads

  function Str(s: Text): bytes {
    U32(|s|) + s
  }

  function Bit(f: bool): bytes {
    [if f then 1 else 0]
  }

  lemma EncodeUpTo(fs: seq<Field>, k: nat)
    requires k < |fs|
    ensures Encode(fs[..k + 1]) == Encode(fs[..k]) + FieldBytes(fs[k])
  {
    hide Encode, FieldBytes;
    assert fs[..k + 1] == fs[..k] + [fs[k]];
    EncodeLast(fs[..k], fs[k]);
  }

  lemma EncodeEnds(fs: seq<Field>)
    requires |fs| > 0
    ensures Encode(fs[..1]) == FieldBytes(fs[0]) && fs[..|fs|] == fs
  {
    hide FieldBytes;
    EncodeUpTo(fs, 0);
    NoFields();
    assert fs[..0] == [];
    assert [] + FieldBytes(fs[0]) == FieldBytes(fs[0]);
  }

  lemma NoFields()
    ensures Encode([]) == []
  {
  }

  lemma Packed32(f: Field)
    requires f.F32?
    ensures FieldBytes(f) == U32(f.n)
  {
  }

  lemma Packed64(f: Field)
    requires f.F64?
    ensures FieldBytes(f) == U64(f.n)
  {
  }

  lemma PackedStr(f: Field)
    requires f.FStr?
    ensures FieldBytes(f) == Str(f.s)
  {
  }

  lemma PackedRaw(f: Field)
    requires f.FRaw?
    ensures FieldBytes(f) == f.b
  {
  }

  lemma PackedFlag(f: Field)
    requires f.FFlag?
    ensures FieldBytes(f) == Bit(f.f)
  {
  }

  lemma GapLayout(p: GapPayload)
    ensures PayloadBytes(Gap(p))
         == U64(p.firstLost) + U64(p.lastLost) + U64(p.count) + U32(p.reason) + Str(p.detail)
  {
    hide Encode, FieldBytes, U32, U64, Str, Bit;
    var fs := GapFields(p);
    EncodeEnds(fs);
    EncodeUpTo(fs, 1);
    EncodeUpTo(fs, 2);
    EncodeUpTo(fs, 3);
    EncodeUpTo(fs, 4);
    Packed64(fs[0]);
    Packed64(fs[1]);
    Packed64(fs[2]);
    Packed32(fs[3]);
    PackedStr(fs[4]);
  }

  lemma CheckpointLayout(p: CheckpointPayload)
    ensures PayloadBytes(Checkpoint(p))
         == U64(p.recordCount) + U64(p.gapCount) + p.chainHash + p.merkleRoot + p.signature + p.signingKeyId
          + U64(p.evidenceAvailable) + U64(p.evidenceExported) + U64(p.evidenceExpired)
          + U64(p.evidenceMissing)
  {
    hide Encode, FieldBytes, U32, U64, Str, Bit;
    var fs := CheckpointFields(p);
    EncodeEnds(fs);
    EncodeUpTo(fs, 1);
    EncodeUpTo(fs, 2);
    EncodeUpTo(fs, 3);
    EncodeUpTo(fs, 4);
    EncodeUpTo(fs, 5);
    EncodeUpTo(fs, 6);
    EncodeUpTo(fs, 7);
    EncodeUpTo(fs, 8);
    EncodeUpTo(fs, 9);
    Packed64(fs[0]);
    Packed64(fs[1]);
    PackedRaw(fs[2]);
    PackedRaw(fs[3]);
    PackedRaw(fs[4]);
    PackedRaw(fs[5]);
    Packed64(fs[6]);
    Packed64(fs[7]);
    Packed64(fs[8]);
    Packed64(fs[9]);
  }

  lemma RecoveryLayout(p: RecoveryPayload)
    ensures PayloadBytes(Recovery(p))
         == U64(p.recordsVerified) + U64(p.recordsTruncated) + U64(p.lastValidSeq) + U32(p.recoveryMethod)
          + Str(p.detail)
  {
    hide Encode, FieldBytes, U32, U64, Str, Bit;
    var fs := RecoveryFields(p);
    EncodeEnds(fs);
    EncodeUpTo(fs, 1);
    EncodeUpTo(fs, 2);
    EncodeUpTo(fs, 3);
    EncodeUpTo(fs, 4);
    Packed64(fs[0]);
    Packed64(fs[1]);
    Packed64(fs[2]);
    Packed32(fs[3]);
    PackedStr(fs[4]);
  }

  lemma KeyLayout(p: KeyPayload)
    ensures PayloadBytes(Key(p))
         == p.publicKey + p.keyId + U64(p.expiresAt) + p.supersedesKeyId
  {
    hide Encode, FieldBytes, U32, U64, Str, Bit;
    var fs := KeyFields(p);
    EncodeEnds(fs);
    EncodeUpTo(fs, 1);
    EncodeUpTo(fs, 2);
    EncodeUpTo(fs, 3);
    PackedRaw(fs[0]);
    PackedRaw(fs[1]);
    Packed64(fs[2]);
    PackedRaw(fs[3]);
  }

  lemma WitnessLayout(p: WitnessPayload)
    ensures PayloadBytes(Witness(p))
         == Str(p.witnessId) + U64(p.checkpointSeq) + p.checkpointHash + U64(p.witnessTimestamp)
          + p.receiptSignature + p.witnessPublicKey
  {
    hide Encode, FieldBytes, U32, U64, Str, Bit;
    var fs := WitnessFields(p);
    EncodeEnds(fs);
    EncodeUpTo(fs, 1);
    EncodeUpTo(fs, 2);
    EncodeUpTo(fs, 3);
    EncodeUpTo(fs, 4);
    EncodeUpTo(fs, 5);
    PackedStr(fs[0]);
    Packed64(fs[1]);
    PackedRaw(fs[2]);
    Packed64(fs[3]);
    PackedRaw(fs[4]);
    PackedRaw(fs[5]);
  }

  lemma EntryLayout(p: AuthorizationEntry)
    ensures Encode(EntryFields(p))
         == U32(p.authorizerType) + Str(p.authorizerId) + p.authorizerAgentId + U64(p.authorizerSeq)
          + U32(p.decision) + Str(p.condition) + U64(p.timestampMs)
  {
    hide Encode, FieldBytes, U32, U64, Str, Bit;
    var fs := EntryFields(p);
    EncodeEnds(fs);
    EncodeUpTo(fs, 1);
    EncodeUpTo(fs, 2);
    EncodeUpTo(fs, 3);
    EncodeUpTo(fs, 4);
    EncodeUpTo(fs, 5);
    EncodeUpTo(fs, 6);
    Packed32(fs[0]);
    PackedStr(fs[1]);
    PackedRaw(fs[2]);
    Packed64(fs[3]);
    Packed32(fs[4]);
    PackedStr(fs[5]);
    Packed64(fs[6]);
  }

  lemma EncodeSeven(f0: Field, f1: Field, f2: Field, f3: Field, f4: Field, f5: Field, f6: Field)
    ensures Encode([f0, f1, f2, f3, f4, f5, f6]) == FieldBytes(f0) + FieldBytes(f1) + FieldBytes(f2) + FieldBytes(f3)
      + FieldBytes(f4) + FieldBytes(f5) + FieldBytes(f6)
  {
    hide Encode, FieldBytes;
    var fs := [f0, f1, f2, f3, f4, f5, f6];
    EncodeEnds(fs);
    EncodeUpTo(fs, 1);
    EncodeUpTo(fs, 2);
    EncodeUpTo(fs, 3);
    EncodeUpTo(fs, 4);
    EncodeUpTo(fs, 5);
    EncodeUpTo(fs, 6);
  }

  lemma EncodeSix(f0: Field, f1: Field, f2: Field, f3: Field, f4: Field, f5: Field)
    ensures Encode([f0, f1, f2, f3, f4, f5]) == FieldBytes(f0) + FieldBytes(f1) + FieldBytes(f2) + FieldBytes(f3)
      + FieldBytes(f4) + FieldBytes(f5)
  {
    hide Encode, FieldBytes;
    var fs := [f0, f1, f2, f3, f4, f5];
    EncodeEnds(fs);
    EncodeUpTo(fs, 1);
    EncodeUpTo(fs, 2);
    EncodeUpTo(fs, 3);
    EncodeUpTo(fs, 4);
    EncodeUpTo(fs, 5);
  }

  lemma {:induction false} EncodeAppend(a: seq<Field>, b: seq<Field>)
    ensures Encode(a + b) == Encode(a) + Encode(b)
  {
    hide FieldBytes;
    if a == [] {
      assert a + b == b;
    } else {
      assert (a + b)[0] == a[0] && (a + b)[1..] == a[1..] + b;
      EncodeAppend(a[1..], b);
      Associate(FieldBytes(a[0]), Encode(a[1..]), Encode(b));
    }
  }

  lemma ActionHeadLayout(p: ActionPayload)
    ensures Encode(ActionHead(p))
         == (p.parentActionId + Str(p.toolName) + p.parametersHash + p.resultHash + U32(p.resultStatus)
          + U32(p.responseTimeMs) + U32(p.protocol))
          + (U32(p.actionType) + Str(p.targetEntity) + Str(p.evidenceUri) + Bit(p.redacted) + Str(p.modelId)
          + U32(p.inputTokenCount) + U32(p.outputTokenCount))
          + (U32(p.cacheReadTokens) + U32(p.cacheCreationTokens) + U32(p.reasoningTokens)
          + U64(p.costNanoUsd) + Str(p.provider) + U32(p.authorization.kind)
          + U32(|p.authorization.entries|))
  {
    hide Encode, FieldBytes, U32, U64, Str, Bit;
    var a := [FRaw(p.parentActionId), FStr(p.toolName), FRaw(p.parametersHash), FRaw(p.resultHash),
      F32(p.resultStatus), F32(p.responseTimeMs), F32(p.protocol)];
    var b := [F32(p.actionType), FStr(p.targetEntity), FStr(p.evidenceUri), FFlag(p.redacted), FStr(p.modelId),
      F32(p.inputTokenCount), F32(p.outputTokenCount)];
    var c := [F32(p.cacheReadTokens), F32(p.cacheCreationTokens), F32(p.reasoningTokens), F64(p.costNanoUsd),
      FStr(p.provider), F32(p.authorization.kind), F32(|p.authorization.entries|)];
    EncodeSeven(a[0], a[1], a[2], a[3], a[4], a[5], a[6]);
    EncodeSeven(b[0], b[1], b[2], b[3], b[4], b[5], b[6]);
    EncodeSeven(c[0], c[1], c[2], c[3], c[4], c[5], c[6]);
    assert ActionHead(p) == a + b + c;
    EncodeAppend(a + b, c);
    EncodeAppend(a, b);
    PackedRaw(a[0]);
    PackedStr(a[1]);
    PackedRaw(a[2]);
    PackedRaw(a[3]);
    Packed32(a[4]);
    Packed32(a[5]);
    Packed32(a[6]);
    Packed32(b[0]);
    PackedStr(b[1]);
    PackedStr(b[2]);
    PackedFlag(b[3]);
    PackedStr(b[4]);
    Packed32(b[5]);
    Packed32(b[6]);
    Packed32(c[0]);
    Packed32(c[1]);
    Packed32(c[2]);
    Packed64(c[3]);
    PackedStr(c[4]);
    Packed32(c[5]);
    Packed32(c[6]);
  }

  lemma BootHeadLayout(p: BootPayload)
    ensures Encode(BootHead(p))
         == Str(p.sdkName) + Str(p.sdkVersion) + U32(|p.interceptors|)
  {
    hide Encode, FieldBytes, U32, U64, Str, Bit;
    var fs := BootHead(p);
    EncodeEnds(fs);
    EncodeUpTo(fs, 1);
    EncodeUpTo(fs, 2);
    PackedStr(fs[0]);
    PackedStr(fs[1]);
    Packed32(fs[2]);
  }

  lemma BootTailLayout(p: BootPayload)
    ensures Encode(BootTail(p))
         == (Str(p.agentFramework) + Str(p.agentName) + Str(p.runtime) + U32(p.chainLevel) + U32(p.fsyncMode)
          + Str(p.clockSource) + Bit(p.inferenceRecording))
          + (Bit(p.inferenceEvidence) + Bit(p.evidenceRecording) + p.filterConfigHash
          + Str(p.matchedAgentRule) + Str(p.configSource) + Bit(p.authorizationRecording))
  {
    hide Encode, FieldBytes, U32, U64, Str, Bit;
    var a := [FStr(p.agentFramework), FStr(p.agentName), FStr(p.runtime), F32(p.chainLevel), F32(p.fsyncMode),
      FStr(p.clockSource), FFlag(p.inferenceRecording)];
    var b := [FFlag(p.inferenceEvidence), FFlag(p.evidenceRecording), FRaw(p.filterConfigHash),
      FStr(p.matchedAgentRule), FStr(p.configSource), FFlag(p.authorizationRecording)];
    EncodeSeven(a[0], a[1], a[2], a[3], a[4], a[5], a[6]);
    EncodeSix(b[0], b[1], b[2], b[3], b[4], b[5]);
    assert BootTail(p) == a + b;
    EncodeAppend(a, b);
    PackedStr(a[0]);
    PackedStr(a[1]);
    PackedStr(a[2]);
    Packed32(a[3]);
    Packed32(a[4]);
    PackedStr(a[5]);
    PackedFlag(a[6]);
    PackedFlag(b[0]);
    PackedFlag(b[1]);
    PackedRaw(b[2]);
    PackedStr(b[3]);
    PackedStr(b[4]);
    PackedFlag(b[5]);
  }

  /** Authorization entries one after the other. */
  function EntriesBytes(es: seq<AuthorizationEntry>): bytes {
    if es == [] then []
    else
      var p := es[0];
      U32(p.authorizerType) + Str(p.authorizerId) + p.authorizerAgentId + U64(p.authorizerSeq)
      + U32(p.decision) + Str(p.condition) + U64(p.timestampMs)
      + EntriesBytes(es[1..])
  }

  lemma {:induction false} EntriesLayout(es: seq<AuthorizationEntry>)
    ensures EncodeGroups(EntryGroups(es)) == EntriesBytes(es)
  {
    hide Encode, EntryFields, U32, U64, Str;
    if es == [] {
      assert EntryGroups(es) == [];
    } else {
      EntryLayout(es[0]);
      EntriesLayout(es[1..]);
      assert EntryGroups(es)[1..] == EntryGroups(es[1..]);
    }
  }

  /** Texts one after the other, each behind its length. */
  function TextsBytes(ts: seq<Text>): bytes {
    if ts == [] then [] else Str(ts[0]) + TextsBytes(ts[1..])
  }

  lemma {:induction false} TextsLayout(ts: seq<Text>)
    ensures Encode(TextFields(ts)) == TextsBytes(ts)
  {
    hide FieldBytes, Str;
    if ts == [] {
      assert TextFields(ts) == [];
    } else {
      PackedStr(TextFields(ts)[0]);
      TextsLayout(ts[1..]);
      assert TextFields(ts)[1..] == TextFields(ts[1..]);
    }
  }

  /** An action: 19 fields, the kind of authorization, the number of its entries, the entries. */
  lemma ActionLayout(p: ActionPayload)
    ensures PayloadBytes(Action(p))
         == (p.parentActionId + Str(p.toolName) + p.parametersHash + p.resultHash + U32(p.resultStatus)
          + U32(p.responseTimeMs) + U32(p.protocol))
          + (U32(p.actionType) + Str(p.targetEntity) + Str(p.evidenceUri) + Bit(p.redacted) + Str(p.modelId)
          + U32(p.inputTokenCount) + U32(p.outputTokenCount))
          + (U32(p.cacheReadTokens) + U32(p.cacheCreationTokens) + U32(p.reasoningTokens)
          + U64(p.costNanoUsd) + Str(p.provider) + U32(p.authorization.kind)
          + U32(|p.authorization.entries|))
          + EntriesBytes(p.authorization.entries)
  {
    hide Encode, EncodeGroups, EntryGroups, ActionHead, EntriesBytes, U32, U64, Str, Bit;
    ActionHeadLayout(p);
    EntriesLayout(p.authorization.entries);
  }

  /** A boot record: name and version of the SDK, the interceptors behind their number, and 13 fields. */
  lemma BootLayout(p: BootPayload)
    ensures PayloadBytes(Boot(p))
         == (Str(p.sdkName) + Str(p.sdkVersion) + U32(|p.interceptors|))
          + (TextsBytes(p.interceptors)
          + ((Str(p.agentFramework) + Str(p.agentName) + Str(p.runtime) + U32(p.chainLevel) + U32(p.fsyncMode)
          + Str(p.clockSource) + Bit(p.inferenceRecording))
          + (Bit(p.inferenceEvidence) + Bit(p.evidenceRecording) + p.filterConfigHash
          + Str(p.matchedAgentRule) + Str(p.configSource) + Bit(p.authorizationRecording))))
  {
    hide Encode, TextFields, BootHead, BootTail, TextsBytes, U32, U64, Str, Bit;
    BootHeadLayout(p);
    TextsLayout(p.interceptors);
    BootTailLayout(p);
  }

  /** The numbers that stand for the schema and the record types. */
  function TypeCode(p: Payload): byte {
    match p
    case Action(_) => 1
    case Gap(_) => 2
    case Checkpoint(_) => 3
    case Boot(_) => 4
    case Recovery(_) => 5
    case Key(_) => 6
    case Witness(_) => 7
  }

  lemma SmallNumber(v: byte)
    ensures U32(v as int) == [v, 0, 0, 0]
  {
    assert LE(v as int, 4) == [v] + LE(0, 3);
    assert LE(0, 3) == [0] + LE(0, 2);
    assert LE(0, 2) == [0] + LE(0, 1);
    assert LE(0, 1) == [0];
  }

  /** A stored record of the current schema, byte by byte up to its payload. */
  lemma StoredLayout(r: Record)
    requires EnvelopeWellFormed(r) && r.recordType == TypeOf(r.payload) && r.schemaVersion == SCHEMA_VERSION
    ensures var s := CanonicalBytes(r); var code := TypeCode(r.payload);
      && |s| >= 108 && s[..16] == r.recordId && s[16..32] == r.agentId && s[32..48] == r.sessionId
      && s[48..56] == U64(r.timestampMs) && s[56..64] == U64(r.sequence) && s[64..96] == r.prevHash
      && s[96..108] == [2, 0, 0, 0, code, 0, 0, 0, code, 0, 0, 0] && s[108..] == PayloadBytes(r.payload)
  {
    hide Encode, LE, PayloadBytes, EnvelopeFields;
    EnvelopeLayout(r);
    SmallNumber(2);
    SmallNumber(TypeCode(r.payload));
    var s := CanonicalBytes(r);
    assert s[96..108] == s[96..100] + s[100..104] + s[104..108];
  }

  // -------------------------------------------------------------- what parsers take

  /** parse_envelope takes every field from its own place, whatever the bytes are. */
  lemma EnvelopeParsed(s: bytes)
    requires |s| >= 108
    ensures ParseEnvelope(s) == Some(Envelope(s[..16], s[16..32], s[32..48], FromLE(s[48..56]), FromLE(s[56..64]),
      s[64..96], FromLE(s[96..100]), FromLE(s[100..104]), s[108..]))
  {
    hide Encode, FieldBytes, AllExact, LE, FromLE, Decode, ParseEnvelope;
    var fs := EnvelopeFieldsIn(s);
    EncodeNine(fs);
    FieldsIn(s);
    Pieces(s);
    EnvelopeDecode(fs, s[108..]);
  }

  function EnvelopeFieldsIn(s: bytes): (fs: seq<Field>)
    requires |s| >= 108
    ensures |fs| == 9
  {
    [FRaw(s[..16]), FRaw(s[16..32]), FRaw(s[32..48]), F64(FromLE(s[48..56])), F64(FromLE(s[56..64])),
     FRaw(s[64..96]), F32(FromLE(s[96..100])), F32(FromLE(s[100..104])), F32(FromLE(s[104..108]))]
  }

  lemma FieldsIn(s: bytes)
    requires |s| >= 108
    ensures var fs := EnvelopeFieldsIn(s);
      && AllExact(fs, ENVELOPE_KINDS) && FieldBytes(fs[0]) == s[..16] && FieldBytes(fs[1]) == s[16..32]
      && FieldBytes(fs[2]) == s[32..48] && FieldBytes(fs[3]) == s[48..56] && FieldBytes(fs[4]) == s[56..64]
      && FieldBytes(fs[5]) == s[64..96] && FieldBytes(fs[6]) == s[96..100] && FieldBytes(fs[7]) == s[100..104]
      && FieldBytes(fs[8]) == s[104..108]
  {
    hide LE, FromLE;
    FixedWidths(s);
    FromLERoundTrip(s[48..56]);
    FromLERoundTrip(s[56..64]);
    FromLERoundTrip(s[96..100]);
    FromLERoundTrip(s[100..104]);
    FromLERoundTrip(s[104..108]);
  }

  lemma FixedWidths(s: bytes)
    requires |s| >= 108
    ensures Fits64(FromLE(s[48..56])) && Fits64(FromLE(s[56..64]))
    ensures Fits32(FromLE(s[96..100])) && Fits32(FromLE(s[100..104])) && Fits32(FromLE(s[104..108]))
  {
    hide FromLE;
    Widths();
  }

  lemma Pieces(s: bytes)
    requires |s| >= 108
    ensures s == (s[..16] + (s[16..32] + (s[32..48] + (s[48..56] + (s[56..64] + (s[64..96] + (s[96..100]
      + (s[100..104] + s[104..108])))))))) + s[108..]
  {
    assert s[100..104] + s[104..108] == s[100..108];
    assert s[96..100] + s[100..108] == s[96..108];
    assert s[64..96] + s[96..108] == s[64..108];
    assert s[56..64] + s[64..108] == s[56..108];
    assert s[48..56] + s[56..108] == s[48..108];
    assert s[32..48] + s[48..108] == s[32..108];
    assert s[16..32] + s[32..108] == s[16..108];
    assert s[..16] + s[16..108] == s[..108];
  }

  /** parse_gap_payload, likewise: it returns if and only if there are 32 bytes in front of the detail text
      and the text is there and decodes. */
  lemma GapParsed(data: bytes)
    ensures var n, r := (if |data| >= 32 then FromLE(data[28..32]) else 0), ParseGap(data);
      && (r.Ok? <==> |data| >= 32 && |data| >= 32 + n && ValidUtf8(data[32..32 + n]))
      && (r.Ok? ==> r.value == GapPayload(
        FromLE(data[..8]), FromLE(data[8..16]), FromLE(data[16..24]), FromLE(data[24..28]), data[32..32 + n]))
  {
    hide FromLE, Decode;
    DecodeNumber(GAP_KINDS, data);
    if |data| >= 8 {
      DecodeNumber(GAP_KINDS[1..], data[8..]);
    }
    if |data| >= 16 {
      assert data[8..][8..] == data[16..] && data[8..][..8] == data[8..16];
      DecodeNumber(GAP_KINDS[2..], data[16..]);
    }
    if |data| >= 24 {
      assert data[16..][8..] == data[24..] && data[16..][..8] == data[16..24];
      DecodeNumber(GAP_KINDS[3..], data[24..]);
    }
    if |data| >= 28 {
      assert data[24..][4..] == data[28..] && data[24..][..4] == data[24..28];
      DecodeText(data[28..]);
    }
    if |data| >= 32 {
      assert data[28..][..4] == data[28..32];
      var n := FromLE(data[28..32]);
      assert |data| >= 32 + n ==> data[28..][4..4 + n] == data[32..32 + n];
    }
  }

  /** A number in front of other fields. */
  lemma DecodeNumber(ks: seq<Kind>, data: bytes)
    requires ks != [] && (ks[0].K64? || ks[0].K32?)
    ensures var w, r := (if ks[0].K64? then 8 else 4), Decode(ks, data);
      if |data| < w then r.Err?
      else match Decode(ks[1..], data[w..])
        case Err(_) => r.Err?
        case Ok(fs, rest) =>
          r == Ok([if ks[0].K64? then F64(FromLE(data[..8])) else F32(FromLE(data[..4]))] + fs, rest)
  {
    hide FromLE;
  }

  lemma DecodeText(data: bytes)
    ensures var r := Decode([KStr], data);
      if |data| < 4 || |data| < 4 + FromLE(data[..4]) then r.Err?
      else
        var s := data[4..4 + FromLE(data[..4])];
        if ValidUtf8(s) then r.Ok? && r.value == [FStr(s)] else r.Err?
  {
    hide FromLE;
  }

  /** An action of schema version 1 lacks five fields, which are read as zeros and an empty text. */
  lemma OldActionRead(p: ActionPayload, schemaVersion: nat)
    requires PayloadWellFormed(Action(p)) && schemaVersion < 2
    ensures var head := ActionHead(p);
      ParseAction(Encode(head[..14]) + (Encode(head[19..]) + EntriesBytes(p.authorization.entries)), schemaVersion)
         == Ok(p.(cacheReadTokens := 0, cacheCreationTokens := 0, reasoningTokens := 0, costNanoUsd := 0,
                  provider := []), [])
  {
    hide Encode, EncodeGroups, EntryGroups, EntriesBytes, Exact;
    var head, entries := ActionHead(p), EntriesBytes(p.authorization.entries);
    EntriesLayout(p.authorization.entries);
    OldActionParts(head);
    DecodeEncode(head[..14], ACTION_FRONT, Encode(head[19..]) + entries);
    DecodeEncode(head[19..], ACTION_BACK, entries);
    EntriesRoundTrip(p.authorization.entries, []);
    assert entries + [] == entries;
    OldActionFields(p);
  }

  lemma OldActionParts(head: seq<Field>)
    requires AllExact(head, ACTION_KINDS)
    ensures AllExact(head[..14], ACTION_FRONT) && AllExact(head[19..], ACTION_BACK)
  {
    assert ACTION_KINDS[..14] == ACTION_FRONT && ACTION_KINDS[19..] == ACTION_BACK;
    hide Exact;
  }

  lemma OldActionFields(p: ActionPayload)
    requires PayloadWellFormed(Action(p))
    ensures var head := ActionHead(p);
      var f := head[..14] + [F32(0), F32(0), F32(0), F64(0), FStr([])] + head[19..];
      && |f| == 21 && Num(f[20]) == |p.authorization.entries|
      && ActionOf(f, p.authorization.entries)
         == p.(cacheReadTokens := 0, cacheCreationTokens := 0, reasoningTokens := 0, costNanoUsd := 0, provider := [])
  {
    ActionFields(p);
  }

  // --------------------------------------------------------------------- the file

  /** The header: magic bytes, version 1, time of creation. */
  lemma HeaderLayout(createdMs: nat)
    ensures Header(createdMs) == [0x41, 0x48, 0x50, 0, 1, 0, 0, 0] + U64(createdMs)
  {
    hide U64;
    SmallNumber(1);
  }

  /** Readers look at the four magic bytes of a header and at nothing else in it. */
  lemma HeaderRead(file: bytes)
    ensures GoodHeader(file)
        <==> |file| >= 16 && file[0] == 0x41 && file[1] == 0x48 && file[2] == 0x50 && file[3] == 0
  {
    if |file| >= 16 {
      assert file[..4] == [file[0], file[1], file[2], file[3]];
    }
  }

  /** A frame: length, record, and the checksum of both. */
  lemma FrameLayout(stored: bytes)
    ensures var f := Frame(stored);
      && |f| == |stored| + 8 && f[..4] == U32(|stored|) && f[4..4 + |stored|] == stored
      && f[4 + |stored|..] == U32(Crc(f[..4 + |stored|]))
  {
    hide LE, Crc;
    assert Frame(stored)[..4 + |stored|] == U32(|stored|) + stored;
  }

  /** A frame is read back if and only if its record has at most 1048576 bytes. */
  lemma FrameReadIff(stored: bytes, rest: bytes)
    requires |stored| <= MAX_UINT32
    ensures ReadFrame(Frame(stored) + rest)
         == if |stored| <= 1048576 then Whole(stored, rest) else Broken(Oversized)
  {
    hide Crc, LE, FromLE;
    if |stored| <= 1048576 {
      ReadsFrame(stored, rest);
    } else {
      U32RoundTrip(|stored|);
      assert (Frame(stored) + rest)[..4] == U32(|stored|);
    }
  }
}
