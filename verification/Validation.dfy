/** validate_record (ahp/core/validation.py), and what it does and does not guarantee about the
    canonical form. */
module Validation {
  import opened Bytes
  import opened Records
  import opened Canonical
  import opened Parse

  const MAX_STRING_LENGTH: nat := 65536
  const MAX_TOOL_NAME_LENGTH: nat := 1024
  const MAX_AUTH_ENTRIES: nat := 100
  const MAX_INTERCEPTORS: nat := 50
  const ZERO_UUID: bytes := Zeros(16)

  /** validate_record returns no error. Lengths are those of the encoding where the source encodes
      first, and numbers of characters where it does not. */
  predicate Passes(r: Record) {
    && |r.recordId| == 16 && |r.agentId| == 16 && |r.sessionId| == 16 && |r.prevHash| == 32
    && r.sequence >= 0 && r.timestampMs >= 0
    && ACTION <= r.recordType <= WITNESS
    && PayloadPasses(r.payload)
  }

  predicate PayloadPasses(p: Payload) {
    match p
    case Action(a) => ActionPasses(a)
    case Gap(g) => GapPasses(g)
    case Boot(b) => BootPasses(b)
    case Checkpoint(c) => CheckpointPasses(c)
    case Recovery(_) => true
    case Key(_) => true
    case Witness(_) => true
  }

  /** _validate_action */
  predicate ActionPasses(p: ActionPayload) {
    && |p.toolName| <= MAX_TOOL_NAME_LENGTH && |p.targetEntity| <= MAX_STRING_LENGTH
    && |p.evidenceUri| <= MAX_STRING_LENGTH && |p.modelId| <= MAX_TOOL_NAME_LENGTH
    && |p.provider| <= MAX_TOOL_NAME_LENGTH
    && Fits32(p.cacheReadTokens) && Fits32(p.cacheCreationTokens) && Fits32(p.reasoningTokens)
    && Fits64(p.costNanoUsd)
    && |p.parametersHash| == 16 && |p.resultHash| == 16 && |p.parentActionId| == 16
    && 1 <= p.resultStatus <= 4 && 1 <= p.protocol <= 6 && 1 <= p.actionType <= 5
    && AuthorizationPasses(p.authorization)
  }

  /** _validate_authorization */
  predicate AuthorizationPasses(a: Authorization) {
    && 1 <= a.kind <= 5
    && |a.entries| <= MAX_AUTH_ENTRIES
    && (a.kind == AUTH_NONE ==> |a.entries| == 0)
    && (a.kind == AUTH_MULTI_PARTY ==> |a.entries| >= 2)
    && (AUTH_NONE < a.kind < AUTH_MULTI_PARTY ==> |a.entries| == 1)
    && forall i :: 0 <= i < |a.entries| ==> EntryPasses(a.entries[i])
  }

  predicate EntryPasses(e: AuthorizationEntry) {
    && CharCount(e.authorizerId) <= MAX_STRING_LENGTH
    && |e.authorizerAgentId| == 16
    && 1 <= e.authorizerType <= 3 && 1 <= e.decision <= 3
    && (e.authorizerType == AUTHORIZER_AGENT ==> e.authorizerAgentId != ZERO_UUID)
  }

  /** _validate_gap */
  predicate GapPasses(p: GapPayload) {
    p.count == p.lastLost - p.firstLost + 1 && p.firstLost <= p.lastLost && 1 <= p.reason <= 7
  }

  /** _validate_boot */
  predicate BootPasses(p: BootPayload) {
    CharCount(p.agentName) <= MAX_TOOL_NAME_LENGTH && |p.interceptors| <= MAX_INTERCEPTORS
      && |p.filterConfigHash| == 32 && 1 <= p.chainLevel <= 3
  }

  /** _validate_checkpoint */
  predicate CheckpointPasses(p: CheckpointPayload) {
    |p.chainHash| == 32 && |p.merkleRoot| == 32 && |p.signature| == 64 && |p.signingKeyId| == 32
  }

  // ------------------------------------------------- validated and encodable records

  /** The sizes that validation leaves unchecked: those of key and witness payloads. */
  predicate UncheckedSizesRight(p: Payload) {
    match p
    case Key(k) => |k.publicKey| == 32 && |k.keyId| == 32 && |k.supersedesKeyId| == 32
    case Witness(w) => |w.checkpointHash| == 32 && |w.receiptSignature| == 64 && |w.witnessPublicKey| == 32
    case Action(_) => true
    case Gap(_) => true
    case Checkpoint(_) => true
    case Boot(_) => true
    case Recovery(_) => true
  }

  lemma EnvelopeExact(r: Record)
    requires Passes(r) && Fit(EnvelopeFields(r))
    ensures EnvelopeWellFormed(r)
  {
    hide PayloadPasses;
    var fs := EnvelopeFields(r);
    assert forall i :: 0 <= i < |fs| ==> FieldFits(fs[i]);
  }

  lemma ActionHeadExact(a: ActionPayload)
    requires ActionPasses(a) && Fit(ActionHead(a))
    ensures AllExact(ActionHead(a), ACTION_KINDS)
  {
    hide CharCount, Encode, AuthorizationPasses;
    var fs := ActionHead(a);
    assert forall i :: 0 <= i < |fs| ==> FieldFits(fs[i]);
  }

  lemma ActionExact(a: ActionPayload)
    requires ActionPasses(a) && PayloadFits(Action(a))
    ensures PayloadWellFormed(Action(a))
  {
    hide AllExact, EntryPasses, ActionHead, Fit, GroupsFit;
    ActionHeadExact(a);
    forall i | 0 <= i < |a.authorization.entries|
      ensures AllExact(EntryFields(a.authorization.entries[i]), ENTRY_KINDS)
    {
      EntryExact(a.authorization.entries, i);
    }
  }

  lemma EntryExact(es: seq<AuthorizationEntry>, i: nat)
    requires i < |es| && EntryPasses(es[i]) && GroupsFit(EntryGroups(es))
    ensures AllExact(EntryFields(es[i]), ENTRY_KINDS)
  {
    assert EntryGroups(es)[i] == EntryFields(es[i]);
    assert Fit(EntryFields(es[i]));
    var fs := EntryFields(es[i]);
    assert forall k :: 0 <= k < |fs| ==> FieldFits(fs[k]);
  }

  lemma BootExact(b: BootPayload)
    requires BootPasses(b) && PayloadFits(Boot(b))
    ensures PayloadWellFormed(Boot(b))
  {
    hide CharCount, Encode;
    var head, tail := BootHead(b), BootTail(b);
    assert forall i :: 0 <= i < |head| ==> FieldFits(head[i]);
    assert forall i :: 0 <= i < |tail| ==> FieldFits(tail[i]);
  }

  lemma CheckpointExact(c: CheckpointPayload)
    requires CheckpointPasses(c) && PayloadFits(Checkpoint(c))
    ensures PayloadWellFormed(Checkpoint(c))
  {
    var fs := CheckpointFields(c);
    assert forall i :: 0 <= i < |fs| ==> FieldFits(fs[i]);
  }

  lemma GapExact(g: GapPayload)
    requires PayloadFits(Gap(g))
    ensures PayloadWellFormed(Gap(g))
  {
    var fs := GapFields(g);
    assert forall i :: 0 <= i < |fs| ==> FieldFits(fs[i]);
  }

  lemma RecoveryExact(v: RecoveryPayload)
    requires PayloadFits(Recovery(v))
    ensures PayloadWellFormed(Recovery(v))
  {
    var fs := RecoveryFields(v);
    assert forall i :: 0 <= i < |fs| ==> FieldFits(fs[i]);
  }

  lemma KeyExact(k: KeyPayload)
    requires PayloadFits(Key(k))
    ensures PayloadWellFormed(Key(k)) <==> UncheckedSizesRight(Key(k))
  {
    var fs := KeyFields(k);
    assert forall i :: 0 <= i < |fs| ==> FieldFits(fs[i]);
    if PayloadWellFormed(Key(k)) {
      assert Exact(fs[0], KEY_KINDS[0]) && Exact(fs[1], KEY_KINDS[1]) && Exact(fs[3], KEY_KINDS[3]);
    }
  }

  lemma WitnessExact(w: WitnessPayload)
    requires PayloadFits(Witness(w))
    ensures PayloadWellFormed(Witness(w)) <==> UncheckedSizesRight(Witness(w))
  {
    var fs := WitnessFields(w);
    assert forall i :: 0 <= i < |fs| ==> FieldFits(fs[i]);
    if PayloadWellFormed(Witness(w)) {
      assert Exact(fs[2], WITNESS_KINDS[2]) && Exact(fs[4], WITNESS_KINDS[4]) && Exact(fs[5], WITNESS_KINDS[5]);
    }
  }

  lemma PayloadExact(p: Payload)
    requires PayloadPasses(p) && PayloadFits(p)
    ensures PayloadWellFormed(p) <==> UncheckedSizesRight(p)
  {
    hide PayloadWellFormed, PayloadFits, ActionPasses, BootPasses, CheckpointPasses;
    match p
    case Action(a) => ActionExact(a);
    case Gap(g) => GapExact(g);
    case Checkpoint(c) => CheckpointExact(c);
    case Boot(b) => BootExact(b);
    case Recovery(v) => RecoveryExact(v);
    case Key(k) => KeyExact(k);
    case Witness(w) => WitnessExact(w);
  }

  /** A record of the current schema that passes validation and that canonical_bytes accepts is
      well formed exactly when its unchecked sizes are right. */
  lemma ValidatedWellFormed(r: Record)
    requires Passes(r) && Encodable(r) && r.schemaVersion == SCHEMA_VERSION && r.recordType == TypeOf(r.payload)
    ensures WellFormed(r) <==> UncheckedSizesRight(r.payload)
  {
    hide PayloadWellFormed, EnvelopeWellFormed, UncheckedSizesRight, PayloadPasses, PayloadFits, EnvelopeFields, Fit;
    PayloadExact(r.payload);
    EnvelopeExact(r);
  }

  // ------------------------------------------------------ which validated actions fit

  /** What validation does not look at in an action, and packing needs. */
  predicate UncheckedNumbersFit(a: ActionPayload) {
    && Fits32(a.responseTimeMs) && Fits32(a.inputTokenCount) && Fits32(a.outputTokenCount)
    && forall i :: 0 <= i < |a.authorization.entries| ==> EntryNumbersFit(a.authorization.entries[i])
  }

  predicate EntryNumbersFit(e: AuthorizationEntry) {
    Fits64(e.authorizerSeq) && Fits64(e.timestampMs) && FitsStr(e.authorizerId) && FitsStr(e.condition)
  }

  /** A validated action can be packed if and only if the numbers that validation skips fit. */
  lemma ValidatedFits(a: ActionPayload)
    requires ActionPasses(a)
    ensures PayloadFits(Action(a)) <==> UncheckedNumbersFit(a)
  {
    hide ActionHead, Fit, EntryPasses, EntryNumbersFit, GroupsFit, EntryFields;
    HeadFits(a);
    GroupsFitIff(a.authorization.entries);
  }

  lemma HeadFits(a: ActionPayload)
    requires ActionPasses(a)
    ensures Fit(ActionHead(a)) <==> Fits32(a.responseTimeMs) && Fits32(a.inputTokenCount) && Fits32(a.outputTokenCount)
  {
    hide Fit, ActionHead, ActionPasses;
    if Fit(ActionHead(a)) {
      HeadNumbers(a);
    } else if Fits32(a.responseTimeMs) && Fits32(a.inputTokenCount) && Fits32(a.outputTokenCount) {
      NumbersHead(a);
    }
  }

  lemma HeadNumbers(a: ActionPayload)
    requires Fit(ActionHead(a))
    ensures Fits32(a.responseTimeMs) && Fits32(a.inputTokenCount) && Fits32(a.outputTokenCount)
  {
    var fs := ActionHead(a);
    assert FieldFits(fs[5]) && FieldFits(fs[12]) && FieldFits(fs[13]);
  }

  lemma NumbersHead(a: ActionPayload)
    requires ActionPasses(a) && Fits32(a.responseTimeMs) && Fits32(a.inputTokenCount) && Fits32(a.outputTokenCount)
    ensures Fit(ActionHead(a))
  {
    hide EntryPasses, CharCount;
    var fs := ActionHead(a);
    assert forall i :: 0 <= i < 7 ==> FieldFits(fs[i]);
    assert forall i :: 7 <= i < 14 ==> FieldFits(fs[i]);
    assert forall i :: 14 <= i < |fs| ==> FieldFits(fs[i]);
  }

  lemma GroupsFitIff(es: seq<AuthorizationEntry>)
    requires |es| <= MAX_AUTH_ENTRIES && forall i :: 0 <= i < |es| ==> EntryPasses(es[i])
    ensures GroupsFit(EntryGroups(es)) <==> forall i :: 0 <= i < |es| ==> EntryNumbersFit(es[i])
  {
    hide Fit, EntryNumbersFit, EntryPasses, EntryFields;
    forall i | 0 <= i < |es|
      ensures Fit(EntryFields(es[i])) <==> EntryNumbersFit(es[i])
    {
      EntryFits(es[i]);
    }
    assert forall i :: 0 <= i < |es| ==> EntryGroups(es)[i] == EntryFields(es[i]);
  }

  lemma EntryFits(e: AuthorizationEntry)
    requires EntryPasses(e)
    ensures Fit(EntryFields(e)) <==> EntryNumbersFit(e)
  {
    hide CharCount;
    var fs := EntryFields(e);
    assert FieldFits(fs[1]) && FieldFits(fs[3]) && FieldFits(fs[5]) && FieldFits(fs[6]) <==> EntryNumbersFit(e);
  }

  // --------------------------------------------------- which validated records are read back

  /** The sizes with which a key or witness payload is read back: the last slices of a payload may
      come back short, any other must have its full size. */
  predicate ReadBackSizes(p: Payload) {
    match p
    case Key(k) => |k.publicKey| == 32 && |k.keyId| == 32 && |k.supersedesKeyId| <= 32
    case Witness(w) => WitnessEndSizes(w.checkpointHash, w.receiptSignature, w.witnessPublicKey)
    case Action(_) => true
    case Gap(_) => true
    case Checkpoint(_) => true
    case Boot(_) => true
    case Recovery(_) => true
  }

  predicate WitnessEndSizes(hash: bytes, signature: bytes, key: bytes) {
    |hash| == 32 && if |signature| < 64 then key == [] else |signature| == 64 && |key| <= 32
  }

  /** data[at:at+n] and data[at:], which Python cuts off at the end of the data. */
  function Slice(data: bytes, at: nat, n: nat): bytes {
    if at + n <= |data| then data[at..at + n] else Behind(data, at)
  }

  function Behind(data: bytes, at: nat): bytes {
    if at <= |data| then data[at..] else []
  }

  lemma RawSlice(data: bytes, at: nat, n: nat)
    ensures ReadField(KRaw(n), Behind(data, at)) == Ok(FRaw(Slice(data, at, n)), Behind(data, at + n))
  {
    if at + n <= |data| {
      assert data[at..][..n] == data[at..at + n] && data[at..][n..] == data[at + n..];
    }
  }

  lemma NumberSlice(data: bytes, at: nat)
    ensures ReadField(K64, Behind(data, at))
         == if at + 8 <= |data| then Ok(F64(FromLE(Slice(data, at, 8))), Behind(data, at + 8)) else Err(StructError)
  {
    if at + 8 <= |data| {
      assert data[at..][..8] == data[at..at + 8] && data[at..][8..] == data[at + 8..];
    }
  }

  lemma DecodeHead(k: Kind, ks: seq<Kind>, data: bytes)
    ensures var first := ReadField(k, data);
      Decode([k] + ks, data) == if first.Err? then Err(first.error) else Prepend([first.value], Decode(ks, first.rest))
  {
    hide ReadField;
    assert ([k] + ks)[1..] == ks;
  }

  /** Two slices, a number and a slice: what a key payload consists of. */
  lemma KeySlices(data: bytes)
    ensures ParseKey(data)
         == if |data| < 72 then Err(StructError)
            else Ok(KeyPayload(Slice(data, 0, 32), Slice(data, 32, 32), FromLE(Slice(data, 64, 8)),
                               Slice(data, 72, 32)),
                    Behind(data, 104))
  {
    hide ReadField, FromLE, Slice, Behind, Decode;
    AllAhead(data);
    RawSlice(data, 0, 32);
    RawSlice(data, 32, 32);
    NumberSlice(data, 64);
    RawSlice(data, 72, 32);
    if |data| < 72 {
      assert KEY_KINDS
          == [KRaw(32)] + ([KRaw(32), K64] + [KRaw(32)]) == [KRaw(32)] + ([KRaw(32)] + ([K64] + [KRaw(32)]));
      DecodeHead(KRaw(32), [KRaw(32), K64] + [KRaw(32)], data);
      assert [K64] + [KRaw(32)] == [K64, KRaw(32)] && [KRaw(32), K64] + [KRaw(32)] == [KRaw(32)] + [K64, KRaw(32)];
      SecondFails(KRaw(32), K64, [KRaw(32)], Behind(data, 32));
    } else {
      FourRead(KRaw(32), KRaw(32), K64, KRaw(32), data);
    }
  }

  lemma KeyReadBack(k: KeyPayload)
    requires PayloadFits(Key(k))
    ensures ParseKey(PayloadBytes(Key(k))) == Ok(k, []) <==> ReadBackSizes(Key(k))
  {
    hide Encode, ParseKey, LE, FromLE;
    assert Fits64(k.expiresAt) by { assert FieldFits(KeyFields(k)[2]); }
    EncodeFour(FRaw(k.publicKey), FRaw(k.keyId), F64(k.expiresAt), FRaw(k.supersedesKeyId));
    var data := (k.publicKey + k.keyId) + (U64(k.expiresAt) + k.supersedesKeyId);
    KeySlices(data);
    assert |data| >= 72 ==> |Slice(data, 0, 32)| == 32 && |Slice(data, 32, 32)| == 32;
    if |k.publicKey| == 32 && |k.keyId| == 32 {
      assert Slice(data, 0, 32) == k.publicKey && Slice(data, 32, 32) == k.keyId;
      assert Slice(data, 64, 8) == U64(k.expiresAt);
      Widths();
      LERoundTrip(k.expiresAt, 8);
      assert data[72..] == k.supersedesKeyId;
      assert |k.supersedesKeyId| <= 32 ==> Slice(data, 72, 32) == k.supersedesKeyId;
    }
  }

  /** The raw end of a witness payload: hash, timestamp, signature, public key. */
  lemma WitnessSlices(data: bytes)
    ensures Decode([KRaw(32), K64, KRaw(64), KRaw(32)], data)
         == if |data| < 40 then Err(StructError)
            else Ok([FRaw(Slice(data, 0, 32)), F64(FromLE(Slice(data, 32, 8))), FRaw(Slice(data, 40, 64)),
                     FRaw(Slice(data, 104, 32))], Behind(data, 136))
  {
    hide ReadField, FromLE, Slice, Behind, Decode;
    AllAhead(data);
    RawSlice(data, 0, 32);
    NumberSlice(data, 32);
    RawSlice(data, 40, 64);
    RawSlice(data, 104, 32);
    if |data| < 40 {
      assert [KRaw(32), K64, KRaw(64), KRaw(32)] == [KRaw(32), K64] + [KRaw(64), KRaw(32)];
      SecondFails(KRaw(32), K64, [KRaw(64), KRaw(32)], data);
    } else {
      FourRead(KRaw(32), K64, KRaw(64), KRaw(32), data);
    }
  }

  lemma AllAhead(data: bytes)
    ensures Behind(data, 0) == data
  {
  }

  lemma SecondFails(a: Kind, b: Kind, ks: seq<Kind>, data: bytes)
    requires ReadField(a, data).Ok? && ReadField(b, ReadField(a, data).rest).Err?
    ensures Decode([a, b] + ks, data) == Err(ReadField(b, ReadField(a, data).rest).error)
  {
    hide ReadField, Decode;
    assert [a, b] + ks == [a] + ([b] + ks);
    DecodeHead(a, [b] + ks, data);
    DecodeHead(b, ks, ReadField(a, data).rest);
  }

  lemma FourRead(a: Kind, b: Kind, c: Kind, d: Kind, data: bytes)
    requires ReadField(a, data).Ok?
    requires ReadField(b, ReadField(a, data).rest).Ok?
    requires ReadField(c, ReadField(b, ReadField(a, data).rest).rest).Ok?
    requires ReadField(d, ReadField(c, ReadField(b, ReadField(a, data).rest).rest).rest).Ok?
    ensures var r1 := ReadField(a, data); var r2 := ReadField(b, r1.rest); var r3 := ReadField(c, r2.rest);
      var r4 := ReadField(d, r3.rest);
      Decode([a, b, c, d], data) == Ok([r1.value, r2.value, r3.value, r4.value], r4.rest)
  {
    hide ReadField, Decode;
    var r1 := ReadField(a, data);
    var r2 := ReadField(b, r1.rest);
    var r3 := ReadField(c, r2.rest);
    var r4 := ReadField(d, r3.rest);
    assert [a, b, c, d] == [a] + ([b] + ([c] + ([d] + [])));
    DecodeHead(a, [b] + ([c] + ([d] + [])), data);
    DecodeHead(b, [c] + ([d] + []), r1.rest);
    DecodeHead(c, [d] + [], r2.rest);
    DecodeHead(d, [], r3.rest);
    DecodeNothing(r4.rest);
    assert [r1.value] + ([r2.value] + ([r3.value] + ([r4.value] + []))) == [r1.value, r2.value, r3.value, r4.value];
  }

  lemma DecodeNothing(data: bytes)
    ensures Decode([], data) == Ok([], data)
  {
  }

  lemma WitnessEndReadBack(hash: bytes, time: nat, signature: bytes, key: bytes)
    requires Fits64(time)
    ensures var data := (hash + U64(time)) + (signature + key);
      var read := Decode([KRaw(32), K64, KRaw(64), KRaw(32)], data);
      read == Ok([FRaw(hash), F64(time), FRaw(signature), FRaw(key)], []) <==> WitnessEndSizes(hash, signature, key)
  {
    hide Decode, LE, FromLE;
    var data := (hash + U64(time)) + (signature + key);
    WitnessSlices(data);
    assert |data| >= 40 ==> |Slice(data, 0, 32)| == 32;
    if |hash| == 32 {
      assert Slice(data, 0, 32) == hash && Slice(data, 32, 8) == U64(time);
      Widths();
      LERoundTrip(time, 8);
      WitnessTail(data, signature, key);
    }
  }

  lemma WitnessTail(data: bytes, signature: bytes, key: bytes)
    requires |data| >= 40 && data[40..] == signature + key
    ensures Slice(data, 40, 64) == signature && Slice(data, 104, 32) == key && Behind(data, 136) == []
      <==> if |signature| < 64 then key == [] else |signature| == 64 && |key| <= 32
  {
    var end := signature + key;
    assert Slice(data, 40, 64) == if |end| <= 64 then end else end[..64];
    assert |Slice(data, 40, 64)| == if |end| <= 64 then |end| else 64;
    if |signature| == 64 {
      assert end[..64] == signature && data[104..] == key;
      assert |key| <= 32 ==> Slice(data, 104, 32) == key;
    } else if key == [] {
      assert end == signature;
    }
  }

  /** The end of a written witness payload, behind its id and number. */
  function WitnessEnd(w: WitnessPayload): bytes {
    (w.checkpointHash + U64(w.witnessTimestamp)) + (w.receiptSignature + w.witnessPublicKey)
  }

  /** What the witness parser makes of a written payload, whatever its sizes. */
  lemma WitnessParsed(w: WitnessPayload)
    requires PayloadFits(Witness(w))
    ensures var end := WitnessEnd(w);
      ParseWitness(PayloadBytes(Witness(w)))
      == if |end| < 40 then Err(StructError)
         else Ok(WitnessPayload(w.witnessId, w.checkpointSeq, Slice(end, 0, 32), FromLE(Slice(end, 32, 8)),
                                Slice(end, 40, 64), Slice(end, 104, 32)), Behind(end, 136))
  {
    hide Encode, Decode, ReadField, LE, FromLE;
    var fs, end := WitnessFields(w), WitnessEnd(w);
    assert FieldFits(fs[0]) && FieldFits(fs[1]) && FieldFits(fs[3]);
    EncodeSix(fs);
    EncodeFour(fs[2], fs[3], fs[4], fs[5]);
    Associate(FieldBytes(fs[0]), FieldBytes(fs[1]), end);
    assert WITNESS_KINDS == [KStr] + ([K64] + [KRaw(32), K64, KRaw(64), KRaw(32)]);
    DecodeHead(KStr, [K64] + [KRaw(32), K64, KRaw(64), KRaw(32)], FieldBytes(fs[0]) + (FieldBytes(fs[1]) + end));
    DecodeHead(K64, [KRaw(32), K64, KRaw(64), KRaw(32)], FieldBytes(fs[1]) + end);
    FieldRoundTrip(fs[0], KStr, FieldBytes(fs[1]) + end);
    FieldRoundTrip(fs[1], K64, end);
    WitnessSlices(end);
  }

  lemma WitnessReadBack(w: WitnessPayload)
    requires PayloadFits(Witness(w))
    ensures ParseWitness(PayloadBytes(Witness(w))) == Ok(w, []) <==> ReadBackSizes(Witness(w))
  {
    hide Encode, Decode, ParseWitness, PayloadBytes, LE, FromLE;
    WitnessParsed(w);
    WitnessSlices(WitnessEnd(w));
    TimeFits(w);
    WitnessEndReadBack(w.checkpointHash, w.witnessTimestamp, w.receiptSignature, w.witnessPublicKey);
  }

  lemma TimeFits(w: WitnessPayload)
    requires PayloadFits(Witness(w))
    ensures Fits64(w.witnessTimestamp)
  {
    assert FieldFits(WitnessFields(w)[3]);
  }

  /** Whatever the sizes of signature and key, number and hash of a witness record are read back. */
  lemma WitnessHead(w: WitnessPayload)
    requires PayloadFits(Witness(w)) && |w.checkpointHash| == 32
    ensures var p := ParseWitness(PayloadBytes(Witness(w)));
      p.Ok? && p.value.checkpointSeq == w.checkpointSeq && p.value.checkpointHash == w.checkpointHash
  {
    hide ParseWitness, PayloadBytes, LE, FromLE;
    WitnessParsed(w);
    assert Slice(WitnessEnd(w), 0, 32) == w.checkpointHash;
  }

  lemma EncodeSix(fs: seq<Field>)
    requires |fs| == 6
    ensures Encode(fs) == FieldBytes(fs[0]) + (FieldBytes(fs[1]) + Encode([fs[2], fs[3], fs[4], fs[5]]))
  {
    hide FieldBytes;
    EncodeFrom(fs, 0);
    EncodeFrom(fs, 1);
    assert fs[0..] == fs && fs[2..] == [fs[2], fs[3], fs[4], fs[5]];
  }

  lemma ReadRecordIff(r: Record)
    requires EnvelopeWellFormed(r) && r.schemaVersion == SCHEMA_VERSION && r.recordType == TypeOf(r.payload)
    ensures ReadRecord(CanonicalBytes(r)) == Some(r)
      <==> ParsePayload(TypeOf(r.payload), PayloadBytes(r.payload), SCHEMA_VERSION) == Ok(r.payload, [])
  {
    hide CanonicalBytes, ParsePayload, PayloadBytes, ParseEnvelope;
    EnvelopeRoundTrip(r);
  }

  /** A validated record of the current schema that canonical_bytes accepts is read back, every field
      and no byte over, if and only if the sizes that validation skips allow it. */
  lemma ValidatedReadBack(r: Record)
    requires Passes(r) && Encodable(r) && r.schemaVersion == SCHEMA_VERSION && r.recordType == TypeOf(r.payload)
    ensures ReadRecord(CanonicalBytes(r)) == Some(r) <==> ReadBackSizes(r.payload)
  {
    hide PayloadWellFormed, EnvelopeWellFormed, PayloadPasses, ReadRecord, CanonicalBytes, PayloadFits,
      EnvelopeFields, Fit, PayloadBytes, ParseKey, ParseWitness;
    EnvelopeExact(r);
    ReadRecordIff(r);
    match r.payload
    case Key(k) => ParsedAsKey(PayloadBytes(r.payload)); KeyReadBack(k);
    case Witness(w) => ParsedAsWitness(PayloadBytes(r.payload)); WitnessReadBack(w);
    case Action(_) => ValidatedWellFormed(r); PayloadRoundTrip(r.payload);
    case Gap(_) => ValidatedWellFormed(r); PayloadRoundTrip(r.payload);
    case Checkpoint(_) => ValidatedWellFormed(r); PayloadRoundTrip(r.payload);
    case Boot(_) => ValidatedWellFormed(r); PayloadRoundTrip(r.payload);
    case Recovery(_) => ValidatedWellFormed(r); PayloadRoundTrip(r.payload);
  }

  lemma ParsedAsKey(data: bytes)
    ensures var p := ParseKey(data);
      ParsePayload(KEY, data, SCHEMA_VERSION) == if p.Err? then Err(p.error) else Ok(Key(p.value), p.rest)
  {
    hide ParseKey;
  }

  lemma ParsedAsWitness(data: bytes)
    ensures var p := ParseWitness(data);
      ParsePayload(WITNESS, data, SCHEMA_VERSION) == if p.Err? then Err(p.error) else Ok(Witness(p.value), p.rest)
  {
    hide ParseWitness;
  }

  lemma EncodeFour(a: Field, b: Field, c: Field, d: Field)
    ensures Encode([a, b, c, d]) == (FieldBytes(a) + FieldBytes(b)) + (FieldBytes(c) + FieldBytes(d))
  {
    hide FieldBytes;
    assert [] + [a] == [a] && [a] + [b] == [a, b] && [a, b] + [c] == [a, b, c] && [a, b, c] + [d] == [a, b, c, d];
    Associate(FieldBytes(a) + FieldBytes(b), FieldBytes(c), FieldBytes(d));
    EncodeLast([], a);
    EncodeLast([a], b);
    EncodeLast([a, b], c);
    EncodeLast([a, b, c], d);
  }

  /** The canonical form of key payloads is ambiguous: moving the boundary between public key and key
      id gives another record that passes and has the same bytes. */
  lemma KeySplitAmbiguous(r: Record, j: KeyPayload, k: KeyPayload)
    requires Passes(r) && Encodable(r) && r.payload == Key(j) && j != k
    requires j.publicKey + j.keyId == k.publicKey + k.keyId
    requires j.expiresAt == k.expiresAt && j.supersedesKeyId == k.supersedesKeyId
    ensures var q := r.(payload := Key(k));
      q != r && Passes(q) && Encodable(q) && CanonicalBytes(q) == CanonicalBytes(r)
  {
    hide Encode;
    var q := r.(payload := Key(k));
    EncodeFour(FRaw(j.publicKey), FRaw(j.keyId), F64(j.expiresAt), FRaw(j.supersedesKeyId));
    EncodeFour(FRaw(k.publicKey), FRaw(k.keyId), F64(k.expiresAt), FRaw(k.supersedesKeyId));
    assert EnvelopeFields(q) == EnvelopeFields(r);
    assert FieldFits(KeyFields(j)[2]);
  }

  /** So every record with a non-empty public key, one of the right sizes included, shares its bytes
      with another record that passes validation. */
  lemma KeyAlwaysAmbiguous(r: Record, j: KeyPayload) returns (q: Record)
    requires Passes(r) && Encodable(r) && r.payload == Key(j) && j.publicKey != []
    ensures q != r && Passes(q) && Encodable(q) && CanonicalBytes(q) == CanonicalBytes(r)
  {
    hide Encodable, CanonicalBytes, Passes;
    var n := |j.publicKey| - 1;
    var k := j.(publicKey := j.publicKey[..n], keyId := [j.publicKey[n]] + j.keyId);
    assert j.publicKey == j.publicKey[..n] + [j.publicKey[n]];
    KeySplitAmbiguous(r, j, k);
    q := r.(payload := Key(k));
  }

  /** Witness payloads are ambiguous in the same way, between signature and public key. */
  lemma WitnessSplitAmbiguous(r: Record, v: WitnessPayload, w: WitnessPayload)
    requires Passes(r) && Encodable(r) && r.payload == Witness(v) && v != w
    requires v.receiptSignature + v.witnessPublicKey == w.receiptSignature + w.witnessPublicKey
    requires w == v.(receiptSignature := w.receiptSignature, witnessPublicKey := w.witnessPublicKey)
    ensures var q := r.(payload := Witness(w));
      q != r && Passes(q) && Encodable(q) && CanonicalBytes(q) == CanonicalBytes(r)
  {
    hide Encode, LE;
    var q := r.(payload := Witness(w));
    var fs, gs := WitnessFields(v), WitnessFields(w);
    EncodeSix(fs);
    EncodeSix(gs);
    EncodeFour(fs[2], fs[3], fs[4], fs[5]);
    EncodeFour(gs[2], gs[3], gs[4], gs[5]);
    assert EnvelopeFields(q) == EnvelopeFields(r);
    assert FieldFits(fs[0]) && FieldFits(fs[1]) && FieldFits(fs[3]);
  }

  // ---------------------------------------------------------------- which records pass

  // An ordinary payload passes, and each field of one that passes can be changed, alone, to any value within
  // its limit and to no other. So a payload passes exactly if all fields are within their limits.

  /** An action with empty texts and hashes of the right size. */
  lemma OrdinaryAction()
    ensures ActionPasses(ActionPayload(Zeros(16), [], Zeros(16), Zeros(16), 1, 0, 1, 1, [], [], false, [], 0, 0, 0, 0,
      0, 0, [], Authorization(1, [])))
  {
  }

  lemma ActionTexts(a: ActionPayload, t: Text)
    requires ActionPasses(a)
    ensures ActionPasses(a.(toolName := t)) <==> |t| <= 1024
    ensures ActionPasses(a.(targetEntity := t)) <==> |t| <= 65536
    ensures ActionPasses(a.(evidenceUri := t)) <==> |t| <= 65536
    ensures ActionPasses(a.(modelId := t)) <==> |t| <= 1024
    ensures ActionPasses(a.(provider := t)) <==> |t| <= 1024
  {
    hide AuthorizationPasses;
  }

  lemma ActionNumbers(a: ActionPayload, n: int)
    requires ActionPasses(a)
    ensures ActionPasses(a.(cacheReadTokens := n)) <==> 0 <= n < 0x1_0000_0000
    ensures ActionPasses(a.(cacheCreationTokens := n)) <==> 0 <= n < 0x1_0000_0000
    ensures ActionPasses(a.(reasoningTokens := n)) <==> 0 <= n < 0x1_0000_0000
    ensures ActionPasses(a.(costNanoUsd := n)) <==> 0 <= n < 0x1_0000_0000_0000_0000
    ensures ActionPasses(a.(resultStatus := n)) <==> n in {1, 2, 3, 4}
    ensures ActionPasses(a.(protocol := n)) <==> n in {1, 2, 3, 4, 5, 6}
    ensures ActionPasses(a.(actionType := n)) <==> n in {1, 2, 3, 4, 5}
  {
    hide AuthorizationPasses;
  }

  /** Response time and the two plain token counts are not looked at, nor is the redaction flag. */
  lemma ActionOthers(a: ActionPayload, b: bytes, n: int, f: bool)
    requires ActionPasses(a)
    ensures ActionPasses(a.(parametersHash := b)) <==> |b| == 16
    ensures ActionPasses(a.(resultHash := b)) <==> |b| == 16
    ensures ActionPasses(a.(parentActionId := b)) <==> |b| == 16
    ensures ActionPasses(a.(responseTimeMs := n)) && ActionPasses(a.(inputTokenCount := n))
    ensures ActionPasses(a.(outputTokenCount := n)) && ActionPasses(a.(redacted := f))
  {
    hide AuthorizationPasses;
  }

  /** The number of entries that goes with each kind of authorization, each entry passing by itself. */
  lemma AuthorizationLimits(a: ActionPayload, kind: int, es: seq<AuthorizationEntry>)
    requires ActionPasses(a)
    ensures ActionPasses(a.(authorization := Authorization(kind, es)))
      <==>
      && (forall i :: 0 <= i < |es| ==> EntryPasses(es[i]))
      && (kind in {1, 2, 3, 4, 5})
      && (if kind == 1 then |es| == 0 else if kind == 5 then 2 <= |es| <= 100 else |es| == 1)
  {
    hide EntryPasses;
  }

  /** An entry of a person passes; only an agent needs an agent id other than zeros. */
  lemma EntryLimits(e: AuthorizationEntry, id: Text, agent: bytes, kind: int, n: int)
    ensures EntryPasses(AuthorizationEntry(1, [], Zeros(16), 0, 1, [], 0))
    ensures EntryPasses(e) ==>
      && (EntryPasses(e.(authorizerId := id)) <==> CharCount(id) <= 65536)
      && (EntryPasses(e.(authorizerAgentId := agent)) <==>
            |agent| == 16 && (e.authorizerType == 2 ==> agent != Zeros(16)))
      && (EntryPasses(e.(authorizerType := kind)) <==>
            kind in {1, 2, 3} && (kind == 2 ==> e.authorizerAgentId != Zeros(16)))
      && (EntryPasses(e.(decision := n)) <==> n in {1, 2, 3})
      && EntryPasses(e.(authorizerSeq := n)) && EntryPasses(e.(condition := id)) && EntryPasses(e.(timestampMs := n))
  {
  }

  /** A gap passes exactly if it loses the numbers from first to last, at least one, for a known reason. */
  lemma GapLimits(first: int, lost: int, count: int, reason: int, detail: Text)
    ensures GapPasses(GapPayload(first, first + lost - 1, count, reason, detail))
        <==> count == lost >= 1 && reason in {1, 2, 3, 4, 5, 6, 7}
  {
  }

  lemma BootLimits(b: BootPayload, t: Text, ts: seq<Text>, hash: bytes, level: int)
    ensures BootPasses(BootPayload([], [], [], [], [], [], 1, 0, [], false, false, false, Zeros(32), [], [], false))
    ensures BootPasses(b) ==>
      && (BootPasses(b.(agentName := t)) <==> CharCount(t) <= 1024)
      && (BootPasses(b.(interceptors := ts)) <==> |ts| <= 50)
      && (BootPasses(b.(filterConfigHash := hash)) <==> |hash| == 32)
      && (BootPasses(b.(chainLevel := level)) <==> level in {1, 2, 3})
      && BootPasses(b.(sdkName := t)) && BootPasses(b.(sdkVersion := t)) && BootPasses(b.(agentFramework := t))
      && BootPasses(b.(runtime := t)) && BootPasses(b.(fsyncMode := level)) && BootPasses(b.(clockSource := t))
      && BootPasses(b.(matchedAgentRule := t)) && BootPasses(b.(configSource := t))
  {
    hide CharCount;
    NoChars();
  }

  lemma NoChars()
    ensures CharCount([]) == 0
  {
  }

  lemma CheckpointLimits(c: CheckpointPayload, b: bytes, n: int)
    ensures CheckpointPasses(CheckpointPayload(0, 0, Zeros(32), Zeros(32), Zeros(64), Zeros(32), 0, 0, 0, 0))
    ensures CheckpointPasses(c) ==>
      && (CheckpointPasses(c.(chainHash := b)) <==> |b| == 32)
      && (CheckpointPasses(c.(merkleRoot := b)) <==> |b| == 32)
      && (CheckpointPasses(c.(signature := b)) <==> |b| == 64)
      && (CheckpointPasses(c.(signingKeyId := b)) <==> |b| == 32)
      && CheckpointPasses(c.(recordCount := n)) && CheckpointPasses(c.(gapCount := n))
      && CheckpointPasses(c.(evidenceAvailable := n)) && CheckpointPasses(c.(evidenceExported := n))
      && CheckpointPasses(c.(evidenceExpired := n)) && CheckpointPasses(c.(evidenceMissing := n))
  {
  }

  /** A record around a payload: ids of 16 bytes, a link of 32, number and time not negative, a known type,
      which need not be that of the payload. Recovery, key and witness payloads are not looked at. */
  lemma RecordLimits(recordId: bytes, agentId: bytes, sessionId: bytes, time: int, number: int, link: bytes,
                     schema: int, kind: int, p: Payload)
    ensures Passes(Record(recordId, agentId, sessionId, time, number, link, schema, kind, p))
      <==>
      && |recordId| == 16 && |agentId| == 16 && |sessionId| == 16 && |link| == 32 && time >= 0 && number >= 0
      && kind in {1, 2, 3, 4, 5, 6, 7}
      && (p.Action? ==> ActionPasses(p.action)) && (p.Gap? ==> GapPasses(p.gap)) && (p.Boot? ==> BootPasses(p.boot))
      && (p.Checkpoint? ==> CheckpointPasses(p.checkpoint))
  {
    hide ActionPasses, GapPasses, BootPasses, CheckpointPasses;
  }

  /** The characters of a text are its bytes where all are ASCII, and of two texts those of both. */
  lemma {:induction false} Characters(s: bytes, t: bytes)
    ensures CharCount(s + t) == CharCount(s) + CharCount(t)
    ensures CharCount(s) <= |s| && ((forall i :: 0 <= i < |s| ==> s[i] < 0x80) ==> CharCount(s) == |s|)
  {
    if s == [] {
      assert s + t == t;
    } else {
      assert (s + t)[1..] == s[1..] + t;
      Characters(s[1..], t);
    }
  }
}
