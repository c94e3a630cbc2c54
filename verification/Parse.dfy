/** The parsers of ahp/core/chain.py and their round trip with the canonical form.

    A parser that advances an offset through a byte string is a function of the unread bytes:
    `rest` is what lies at the new offset. A Python slice that runs past the end is short
    rather than an error, which is why a raw field may come back short. */
module Parse {
  import opened Bytes
  import opened Records
  import opened Canonical

  /** The exceptions a parser can raise. */
  datatype ParseError = StructError | ValueError | IndexError

  datatype Parsed<+T> = Ok(value: T, rest: bytes) | Err(error: ParseError) {
    predicate IsFailure() { Err? }
    function PropagateFailure<U>(): Parsed<U> requires Err? { Err(error) }
    function Extract(): (T, bytes) requires Ok? { (value, rest) }
  }

  // ------------------------------------------------------------- field readers

  /** What a parser expects next; KRaw(n) is a slice of n bytes. */
  datatype Kind = K32 | K64 | KStr | KRaw(size: nat) | KFlag

  /** f is a field that reading kind k can yield. */
  predicate Shaped(f: Field, k: Kind) {
    match k
    case K32 => f.F32? && Fits32(f.n)
    case K64 => f.F64? && Fits64(f.n)
    case KStr => f.FStr?
    case KRaw(size) => f.FRaw? && |f.b| <= size
    case KFlag => f.FFlag?
  }

  function ReadField(k: Kind, data: bytes): (r: Parsed<Field>)
    ensures r.Ok? ==> Shaped(r.value, k)
  {
    match k
    case K32 => if |data| < 4 then Err(StructError) else Widths(); Ok(F32(FromLE(data[..4])), data[4..])
    case K64 => if |data| < 8 then Err(StructError) else Widths(); Ok(F64(FromLE(data[..8])), data[8..])
    case KStr =>
      if |data| < 4 then Err(ValueError)
      else
        var length := FromLE(data[..4]);
        if 4 + length > |data| || !ValidUtf8(data[4..4 + length]) then Err(ValueError)
        else Ok(FStr(data[4..4 + length]), data[4 + length..])
    case KRaw(size) =>
      if size <= |data| then Ok(FRaw(data[..size]), data[size..]) else Ok(FRaw(data), [])
    case KFlag => if data == [] then Err(IndexError) else Ok(FFlag(data[0] == 1), data[1..])
  }

  function Num(f: Field): nat {
    if (f.F32? || f.F64?) && f.n >= 0 then f.n else 0
  }

  function Txt(f: Field): Text {
    if f.FStr? then f.s else []
  }

  function Raw(f: Field): bytes {
    if f.FRaw? then f.b else []
  }

  function Flag(f: Field): bool {
    f.FFlag? && f.f
  }

  /** Reads fields one after the other. */
  function Decode(ks: seq<Kind>, data: bytes): (r: Parsed<seq<Field>>)
    ensures r.Ok? ==> |r.value| == |ks|
  {
    if ks == [] then Ok([], data)
    else
      var (f, r1) :- ReadField(ks[0], data);
      var (fs, r2) :- Decode(ks[1..], r1);
      Ok([f] + fs, r2)
  }

  // ----------------------------------------------------------------- envelope

  datatype Envelope = Envelope(
    recordId: bytes, agentId: bytes, sessionId: bytes, timestampMs: nat, sequence: nat,
    prevHash: bytes, schemaVersion: nat, recordType: nat, payloadBytes: bytes)

  const ENVELOPE_SIZE: nat := 108

  const ENVELOPE_KINDS := [KRaw(16), KRaw(16), KRaw(16), K64, K64, KRaw(32), K32, K32, K32]

  /** parse_envelope; None is its ValueError. The payload discriminator is skipped. */
  function ParseEnvelope(stored: bytes): Option<Envelope> {
    if |stored| < ENVELOPE_SIZE then None
    else
      match Decode(ENVELOPE_KINDS, stored)
      case Ok(f, rest) => Some(EnvelopeFrom(f, rest))
      case Err(_) => None
  }

  function EnvelopeFrom(f: seq<Field>, rest: bytes): Envelope
    requires |f| == 9
  {
    Envelope(Raw(f[0]), Raw(f[1]), Raw(f[2]), Num(f[3]), Num(f[4]), Raw(f[5]), Num(f[6]), Num(f[7]), rest)
  }

  // ----------------------------------------------------------------- payloads

  const ENTRY_KINDS := [K32, KStr, KRaw(16), K64, K32, KStr, K64]

  function ParseEntry(data: bytes): Parsed<AuthorizationEntry> {
    var (f, rest) :- Decode(ENTRY_KINDS, data);
    Ok(AuthorizationEntry(Num(f[0]), Txt(f[1]), Raw(f[2]), Num(f[3]), Num(f[4]), Txt(f[5]), Num(f[6])), rest)
  }

  function ParseEntries(data: bytes, count: nat): Parsed<seq<AuthorizationEntry>>
    decreases count
  {
    if count == 0 then Ok([], data)
    else
      var (entry, r1) :- ParseEntry(data);
      var (entries, r2) :- ParseEntries(r1, count - 1);
      Ok([entry] + entries, r2)
  }

  const ACTION_FRONT := [KRaw(16), KStr, KRaw(16), KRaw(16), K32, K32, K32, K32, KStr, KStr, KFlag, KStr, K32, K32]
  const ACTION_ADDED := [K32, K32, K32, K64, KStr]  // absent in schema version 1
  const ACTION_BACK := [K32, K32]

  function ParseActionHead(data: bytes, schemaVersion: nat): (r: Parsed<seq<Field>>)
    ensures r.Ok? ==> |r.value| == 21
  {
    if schemaVersion >= 2 then
      Decode(ACTION_FRONT + ACTION_ADDED + ACTION_BACK, data)
    else
      var (front, r1) :- Decode(ACTION_FRONT, data);
      var (back, r2) :- Decode(ACTION_BACK, r1);
      Ok(front + [F32(0), F32(0), F32(0), F64(0), FStr([])] + back, r2)
  }

  function ActionOf(f: seq<Field>, entries: seq<AuthorizationEntry>): ActionPayload
    requires |f| == 21
  {
    ActionPayload(
      Raw(f[0]), Txt(f[1]), Raw(f[2]), Raw(f[3]), Num(f[4]), Num(f[5]), Num(f[6]), Num(f[7]), Txt(f[8]), Txt(f[9]),
      Flag(f[10]), Txt(f[11]),
      Num(f[12]), Num(f[13]), Num(f[14]), Num(f[15]), Num(f[16]), Num(f[17]), Txt(f[18]),
      Authorization(Num(f[19]), entries))
  }

  /** parse_action_payload */
  function ParseAction(data: bytes, schemaVersion: nat): Parsed<ActionPayload> {
    var (f, r1) :- ParseActionHead(data, schemaVersion);
    var (entries, r2) :- ParseEntries(r1, Num(f[20]));
    Ok(ActionOf(f, entries), r2)
  }

  const GAP_KINDS := [K64, K64, K64, K32, KStr]

  function ParseGap(data: bytes): Parsed<GapPayload> {
    var (f, rest) :- Decode(GAP_KINDS, data);
    Ok(GapPayload(Num(f[0]), Num(f[1]), Num(f[2]), Num(f[3]), Txt(f[4])), rest)
  }

  const CHECKPOINT_KINDS := [K64, K64, KRaw(32), KRaw(32), KRaw(64), KRaw(32), K64, K64, K64, K64]

  function ParseCheckpoint(data: bytes): Parsed<CheckpointPayload> {
    var (f, rest) :- Decode(CHECKPOINT_KINDS, data);
    Ok(CheckpointPayload(Num(f[0]), Num(f[1]), Raw(f[2]), Raw(f[3]), Raw(f[4]), Raw(f[5]), Num(f[6]), Num(f[7]),
                         Num(f[8]), Num(f[9])), rest)
  }

  function ParseTexts(data: bytes, count: nat): Parsed<seq<Text>>
    decreases count
  {
    if count == 0 then Ok([], data)
    else
      var (f, r1) :- ReadField(KStr, data);
      var (texts, r2) :- ParseTexts(r1, count - 1);
      Ok([Txt(f)] + texts, r2)
  }

  const BOOT_FRONT := [KStr, KStr, K32]
  const BOOT_BACK := [KStr, KStr, KStr, K32, K32, KStr, KFlag, KFlag, KFlag, KRaw(32), KStr, KStr, KFlag]

  function BootOf(h: seq<Field>, interceptors: seq<Text>, f: seq<Field>): BootPayload
    requires |h| == 3 && |f| == 13
  {
    BootPayload(Txt(h[0]), Txt(h[1]), interceptors, Txt(f[0]), Txt(f[1]), Txt(f[2]), Num(f[3]), Num(f[4]), Txt(f[5]),
      Flag(f[6]), Flag(f[7]), Flag(f[8]), Raw(f[9]), Txt(f[10]), Txt(f[11]), Flag(f[12]))
  }

  /** parse_boot_payload */
  function ParseBoot(data: bytes): Parsed<BootPayload> {
    var (h, r1) :- Decode(BOOT_FRONT, data);
    var (interceptors, r2) :- ParseTexts(r1, Num(h[2]));
    var (f, r3) :- Decode(BOOT_BACK, r2);
    Ok(BootOf(h, interceptors, f), r3)
  }

  const RECOVERY_KINDS := [K64, K64, K64, K32, KStr]

  function ParseRecovery(data: bytes): Parsed<RecoveryPayload> {
    var (f, rest) :- Decode(RECOVERY_KINDS, data);
    Ok(RecoveryPayload(Num(f[0]), Num(f[1]), Num(f[2]), Num(f[3]), Txt(f[4])), rest)
  }

  const KEY_KINDS := [KRaw(32), KRaw(32), K64, KRaw(32)]

  function ParseKey(data: bytes): Parsed<KeyPayload> {
    var (f, rest) :- Decode(KEY_KINDS, data);
    Ok(KeyPayload(Raw(f[0]), Raw(f[1]), Num(f[2]), Raw(f[3])), rest)
  }

  const WITNESS_KINDS := [KStr, K64, KRaw(32), K64, KRaw(64), KRaw(32)]

  function ParseWitness(data: bytes): Parsed<WitnessPayload> {
    var (f, rest) :- Decode(WITNESS_KINDS, data);
    Ok(WitnessPayload(Txt(f[0]), Num(f[1]), Raw(f[2]), Num(f[3]), Raw(f[4]), Raw(f[5])), rest)
  }

  /** The parser that goes with a record type. */
  function ParsePayload(recordType: int, data: bytes, schemaVersion: nat): Parsed<Payload> {
    if recordType == ACTION then
      var (p, rest) :- ParseAction(data, schemaVersion); Ok(Action(p), rest)
    else if recordType == GAP then
      var (p, rest) :- ParseGap(data); Ok(Gap(p), rest)
    else if recordType == CHECKPOINT then
      var (p, rest) :- ParseCheckpoint(data); Ok(Checkpoint(p), rest)
    else if recordType == BOOT then
      var (p, rest) :- ParseBoot(data); Ok(Boot(p), rest)
    else if recordType == RECOVERY then
      var (p, rest) :- ParseRecovery(data); Ok(Recovery(p), rest)
    else if recordType == KEY then
      var (p, rest) :- ParseKey(data); Ok(Key(p), rest)
    else if recordType == WITNESS then
      var (p, rest) :- ParseWitness(data); Ok(Witness(p), rest)
    else Err(ValueError)
  }

  // ------------------------------------------------------------ the parsers' loops

  function Prepend<T>(front: seq<T>, p: Parsed<seq<T>>): Parsed<seq<T>> {
    match p
    case Ok(back, rest) => Ok(front + back, rest)
    case Err(error) => Err(error)
  }

  lemma PrependParts<T>(front: seq<T>, x: T, p: Parsed<seq<T>>)
    ensures Prepend(front, Prepend([x], p)) == Prepend(front + [x], p)
  {
    match p
    case Ok(back, _) =>
      assert front + ([x] + back) == front + [x] + back;
    case Err(_) =>
  }

  lemma EntriesStep(data: bytes, n: nat)
    requires n > 0 && ParseEntry(data).Ok?
    ensures ParseEntries(data, n) == Prepend([ParseEntry(data).value], ParseEntries(ParseEntry(data).rest, n - 1))
  {
    hide ParseEntry;
  }

  lemma TextsStep(data: bytes, n: nat)
    requires n > 0 && ReadField(KStr, data).Ok?
    ensures ParseTexts(data, n)
         == Prepend([Txt(ReadField(KStr, data).value)], ParseTexts(ReadField(KStr, data).rest, n - 1))
  {
    hide ReadField;
  }

  /** The authorization entries of parse_action_payload; `unread` is the payload from the offset on. */
  method ReadEntries(data: bytes, count: nat) returns (r: Parsed<seq<AuthorizationEntry>>)
    ensures r == ParseEntries(data, count)
  {
    hide ParseEntry;
    var entries, unread := [], data;
    assert Prepend(entries, ParseEntries(data, count)) == ParseEntries(data, count) by {
      if ParseEntries(data, count).Ok? {
        assert [] + ParseEntries(data, count).value == ParseEntries(data, count).value;
      }
    }
    for i := 0 to count
      invariant ParseEntries(data, count) == Prepend(entries, ParseEntries(unread, count - i))
    {
      var entry := ParseEntry(unread);
      if entry.Err? {
        return Err(entry.error);
      }
      EntriesStep(unread, count - i);
      PrependParts(entries, entry.value, ParseEntries(entry.rest, count - i - 1));
      entries := entries + [entry.value];
      unread := entry.rest;
    }
    assert entries + [] == entries;
    return Ok(entries, unread);
  }

  /** The interceptor names of parse_boot_payload. */
  method ReadTexts(data: bytes, count: nat) returns (r: Parsed<seq<Text>>)
    ensures r == ParseTexts(data, count)
  {
    hide ReadField;
    var texts: seq<Text>, unread := [], data;
    assert Prepend(texts, ParseTexts(data, count)) == ParseTexts(data, count) by {
      if ParseTexts(data, count).Ok? {
        assert [] + ParseTexts(data, count).value == ParseTexts(data, count).value;
      }
    }
    for i := 0 to count
      invariant ParseTexts(data, count) == Prepend(texts, ParseTexts(unread, count - i))
    {
      var text := ReadField(KStr, unread);
      if text.Err? {
        return Err(text.error);
      }
      TextsStep(unread, count - i);
      PrependParts(texts, Txt(text.value), ParseTexts(text.rest, count - i - 1));
      texts := texts + [Txt(text.value)];
      unread := text.rest;
    }
    assert texts + [] == texts;
    return Ok(texts, unread);
  }

  method ParseActionPayload(payload: bytes, schemaVersion: nat) returns (r: Parsed<ActionPayload>)
    ensures r == ParseAction(payload, schemaVersion)
  {
    hide ParseActionHead, ParseEntries, ActionOf;
    var head := ParseActionHead(payload, schemaVersion);
    if head.Err? {
      return Err(head.error);
    }
    var entries := ReadEntries(head.rest, Num(head.value[20]));
    if entries.Err? {
      return Err(entries.error);
    }
    return Ok(ActionOf(head.value, entries.value), entries.rest);
  }

  method ParseBootPayload(payload: bytes) returns (r: Parsed<BootPayload>)
    ensures r == ParseBoot(payload)
  {
    hide Decode, ParseTexts, BootOf;
    var head := Decode(BOOT_FRONT, payload);
    if head.Err? {
      return Err(head.error);
    }
    var interceptors := ReadTexts(head.rest, Num(head.value[2]));
    if interceptors.Err? {
      return Err(interceptors.error);
    }
    var tail := Decode(BOOT_BACK, interceptors.rest);
    if tail.Err? {
      return Err(tail.error);
    }
    return Ok(BootOf(head.value, interceptors.value, tail.value), tail.rest);
  }

  // --------------------------------------------------------------- round trip

  /** f has exactly the size that reading kind k takes. */
  predicate Exact(f: Field, k: Kind) {
    Shaped(f, k) && FieldFits(f) && (k.KRaw? ==> |f.b| == k.size)
  }

  predicate AllExact(fs: seq<Field>, ks: seq<Kind>) {
    |fs| == |ks| && forall i :: 0 <= i < |fs| ==> Exact(fs[i], ks[i])
  }

  /** Reading a field undoes writing it. */
  lemma FieldRoundTrip(f: Field, k: Kind, t: bytes)
    requires Exact(f, k)
    ensures ReadField(k, FieldBytes(f) + t) == Ok(f, t)
  {
    Widths();
    var data := FieldBytes(f) + t;
    SplitAt(FieldBytes(f), t);
    match f
    case F32(n) => LERoundTrip(n, 4);
    case F64(n) => LERoundTrip(n, 8);
    case FStr(s) =>
      LERoundTrip(|s|, 4);
      assert data[..4] == U32(|s|);
      assert data[4..4 + |s|] == s;
    case FRaw(_) =>
    case FFlag(_) =>
  }

  lemma {:induction false} DecodeEncode(fs: seq<Field>, ks: seq<Kind>, t: bytes)
    requires AllExact(fs, ks)
    ensures Decode(ks, Encode(fs) + t) == Ok(fs, t)
  {
    if fs == [] {
      assert Encode(fs) + t == t;
    } else {
      Associate(FieldBytes(fs[0]), Encode(fs[1..]), t);
      FieldRoundTrip(fs[0], ks[0], Encode(fs[1..]) + t);
      DecodeEncode(fs[1..], ks[1..], t);
      assert fs == [fs[0]] + fs[1..];
    }
  }

  lemma EntryRoundTrip(e: AuthorizationEntry, t: bytes)
    requires AllExact(EntryFields(e), ENTRY_KINDS)
    ensures ParseEntry(Encode(EntryFields(e)) + t) == Ok(e, t)
  {
    DecodeEncode(EntryFields(e), ENTRY_KINDS, t);
  }

  predicate EntriesWellFormed(es: seq<AuthorizationEntry>) {
    forall i :: 0 <= i < |es| ==> AllExact(EntryFields(es[i]), ENTRY_KINDS)
  }

  lemma {:induction false} EntriesRoundTrip(es: seq<AuthorizationEntry>, t: bytes)
    requires EntriesWellFormed(es)
    ensures ParseEntries(EncodeGroups(EntryGroups(es)) + t, |es|) == Ok(es, t)
  {
    hide ParseEntry, EntryFields, AllExact, Encode;
    if es == [] {
      assert EncodeGroups(EntryGroups(es)) + t == t;
    } else {
      var others := EncodeGroups(EntryGroups(es[1..]));
      assert EntryGroups(es)[1..] == EntryGroups(es[1..]);
      Associate(Encode(EntryFields(es[0])), others, t);
      EntryRoundTrip(es[0], others + t);
      EntriesRoundTrip(es[1..], t);
      assert es == [es[0]] + es[1..];
    }
  }

  function Strings(n: nat): seq<Kind> {
    seq(n, _ => KStr)
  }

  function Txts(fs: seq<Field>): seq<Text> {
    seq(|fs|, i requires 0 <= i < |fs| => Txt(fs[i]))
  }

  lemma {:induction false} TextsAreStrings(data: bytes, n: nat)
    requires Decode(Strings(n), data).Ok?
    ensures var r := Decode(Strings(n), data); ParseTexts(data, n) == Ok(Txts(r.value), r.rest)
    decreases n
  {
    if n > 0 {
      var first := ReadField(KStr, data);
      assert Strings(n)[1..] == Strings(n - 1);
      TextsAreStrings(first.rest, n - 1);
      var fs := Decode(Strings(n - 1), first.rest).value;
      assert Txts([first.value] + fs) == [Txt(first.value)] + Txts(fs);
    } else {
      assert Txts([]) == [];
    }
  }

  lemma TextsRoundTrip(ts: seq<Text>, t: bytes)
    requires Fit(TextFields(ts))
    ensures ParseTexts(Encode(TextFields(ts)) + t, |ts|) == Ok(ts, t)
  {
    DecodeEncode(TextFields(ts), Strings(|ts|), t);
    TextsAreStrings(Encode(TextFields(ts)) + t, |ts|);
    assert Txts(TextFields(ts)) == ts;
  }

  const ACTION_KINDS := ACTION_FRONT + ACTION_ADDED + ACTION_BACK

  lemma ActionDecode(f: seq<Field>, es: seq<AuthorizationEntry>)
    requires AllExact(f, ACTION_KINDS) && |f| == 21 && EntriesWellFormed(es) && Num(f[20]) == |es|
    ensures ParseAction(Encode(f) + EncodeGroups(EntryGroups(es)), SCHEMA_VERSION) == Ok(ActionOf(f, es), [])
  {
    var entries := EncodeGroups(EntryGroups(es));
    DecodeEncode(f, ACTION_KINDS, entries);
    EntriesRoundTrip(es, []);
    assert entries + [] == entries;
  }

  lemma ActionFields(p: ActionPayload)
    requires AllExact(ActionHead(p), ACTION_KINDS)
    ensures ActionOf(ActionHead(p), p.authorization.entries) == p
    ensures Num(ActionHead(p)[20]) == |p.authorization.entries|
  {
    assert forall i :: 0 <= i < 21 ==> Exact(ActionHead(p)[i], ACTION_KINDS[i]);
  }

  lemma ActionRoundTrip(p: ActionPayload)
    requires AllExact(ActionHead(p), ACTION_KINDS) && EntriesWellFormed(p.authorization.entries)
    ensures ParseAction(PayloadBytes(Action(p)), SCHEMA_VERSION) == Ok(p, [])
  {
    ActionFields(p);
    ActionDecode(ActionHead(p), p.authorization.entries);
  }

  lemma BootDecode(h: seq<Field>, ts: seq<Text>, f: seq<Field>)
    requires AllExact(h, BOOT_FRONT) && |h| == 3 && Fit(TextFields(ts)) && AllExact(f, BOOT_BACK) && |f| == 13
    requires Num(h[2]) == |ts|
    ensures ParseBoot(Encode(h) + (Encode(TextFields(ts)) + Encode(f))) == Ok(BootOf(h, ts, f), [])
  {
    DecodeEncode(h, BOOT_FRONT, Encode(TextFields(ts)) + Encode(f));
    TextsRoundTrip(ts, Encode(f));
    DecodeEncode(f, BOOT_BACK, []);
    assert Encode(f) + [] == Encode(f);
  }

  lemma BootFields(p: BootPayload)
    requires AllExact(BootHead(p), BOOT_FRONT) && AllExact(BootTail(p), BOOT_BACK)
    ensures BootOf(BootHead(p), p.interceptors, BootTail(p)) == p
    ensures Num(BootHead(p)[2]) == |p.interceptors|
  {
    assert Exact(BootTail(p)[3], BOOT_BACK[3]) && Exact(BootTail(p)[4], BOOT_BACK[4]);
  }

  lemma BootRoundTrip(p: BootPayload)
    requires AllExact(BootHead(p), BOOT_FRONT) && Fit(TextFields(p.interceptors)) && AllExact(BootTail(p), BOOT_BACK)
    ensures ParseBoot(PayloadBytes(Boot(p))) == Ok(p, [])
  {
    BootFields(p);
    BootDecode(BootHead(p), p.interceptors, BootTail(p));
  }

  /** Every integer fits its field and every raw field has its full size. */
  predicate PayloadWellFormed(p: Payload) {
    match p
    case Action(a) => AllExact(ActionHead(a), ACTION_KINDS) && EntriesWellFormed(a.authorization.entries)
    case Gap(g) => AllExact(GapFields(g), GAP_KINDS)
    case Checkpoint(c) => AllExact(CheckpointFields(c), CHECKPOINT_KINDS)
    case Boot(b) =>
      AllExact(BootHead(b), BOOT_FRONT) && Fit(TextFields(b.interceptors)) && AllExact(BootTail(b), BOOT_BACK)
    case Recovery(r) => AllExact(RecoveryFields(r), RECOVERY_KINDS)
    case Key(k) => AllExact(KeyFields(k), KEY_KINDS)
    case Witness(w) => AllExact(WitnessFields(w), WITNESS_KINDS)
  }

  lemma DecodeAll(fs: seq<Field>, ks: seq<Kind>)
    requires AllExact(fs, ks)
    ensures Decode(ks, Encode(fs)) == Ok(fs, [])
  {
    DecodeEncode(fs, ks, []);
    assert Encode(fs) + [] == Encode(fs);
  }

  lemma GapRoundTrip(p: GapPayload)
    requires AllExact(GapFields(p), GAP_KINDS)
    ensures ParseGap(Encode(GapFields(p))) == Ok(p, [])
  {
    DecodeAll(GapFields(p), GAP_KINDS);
  }

  lemma CheckpointRoundTrip(p: CheckpointPayload)
    requires AllExact(CheckpointFields(p), CHECKPOINT_KINDS)
    ensures ParseCheckpoint(Encode(CheckpointFields(p))) == Ok(p, [])
  {
    DecodeAll(CheckpointFields(p), CHECKPOINT_KINDS);
  }

  lemma RecoveryRoundTrip(p: RecoveryPayload)
    requires AllExact(RecoveryFields(p), RECOVERY_KINDS)
    ensures ParseRecovery(Encode(RecoveryFields(p))) == Ok(p, [])
  {
    DecodeAll(RecoveryFields(p), RECOVERY_KINDS);
  }

  lemma KeyRoundTrip(p: KeyPayload)
    requires AllExact(KeyFields(p), KEY_KINDS)
    ensures ParseKey(Encode(KeyFields(p))) == Ok(p, [])
  {
    DecodeAll(KeyFields(p), KEY_KINDS);
  }

  lemma WitnessRoundTrip(p: WitnessPayload)
    requires AllExact(WitnessFields(p), WITNESS_KINDS)
    ensures ParseWitness(Encode(WitnessFields(p))) == Ok(p, [])
  {
    DecodeAll(WitnessFields(p), WITNESS_KINDS);
  }

  /** Parsing the payload gives back every field and leaves no byte unread. */
  lemma PayloadRoundTrip(p: Payload)
    requires PayloadWellFormed(p)
    ensures ParsePayload(TypeOf(p), PayloadBytes(p), SCHEMA_VERSION) == Ok(p, [])
  {
    match p
    case Action(a) => ParseAsAction(a);
    case Gap(g) => ParseAsGap(g);
    case Checkpoint(c) => ParseAsCheckpoint(c);
    case Boot(b) => ParseAsBoot(b);
    case Recovery(r) => ParseAsRecovery(r);
    case Key(k) => ParseAsKey(k);
    case Witness(w) => ParseAsWitness(w);
  }

  lemma ParseAsAction(p: ActionPayload)
    requires PayloadWellFormed(Action(p))
    ensures ParsePayload(ACTION, PayloadBytes(Action(p)), SCHEMA_VERSION) == Ok(Action(p), [])
  {
    ActionRoundTrip(p);
  }

  lemma ParseAsGap(p: GapPayload)
    requires PayloadWellFormed(Gap(p))
    ensures ParsePayload(GAP, PayloadBytes(Gap(p)), SCHEMA_VERSION) == Ok(Gap(p), [])
  {
    GapRoundTrip(p);
  }

  lemma ParseAsCheckpoint(p: CheckpointPayload)
    requires PayloadWellFormed(Checkpoint(p))
    ensures ParsePayload(CHECKPOINT, PayloadBytes(Checkpoint(p)), SCHEMA_VERSION) == Ok(Checkpoint(p), [])
  {
    CheckpointRoundTrip(p);
  }

  lemma ParseAsBoot(p: BootPayload)
    requires PayloadWellFormed(Boot(p))
    ensures ParsePayload(BOOT, PayloadBytes(Boot(p)), SCHEMA_VERSION) == Ok(Boot(p), [])
  {
    BootRoundTrip(p);
  }

  lemma ParseAsRecovery(p: RecoveryPayload)
    requires PayloadWellFormed(Recovery(p))
    ensures ParsePayload(RECOVERY, PayloadBytes(Recovery(p)), SCHEMA_VERSION) == Ok(Recovery(p), [])
  {
    RecoveryRoundTrip(p);
  }

  lemma ParseAsKey(p: KeyPayload)
    requires PayloadWellFormed(Key(p))
    ensures ParsePayload(KEY, PayloadBytes(Key(p)), SCHEMA_VERSION) == Ok(Key(p), [])
  {
    KeyRoundTrip(p);
  }

  lemma ParseAsWitness(p: WitnessPayload)
    requires PayloadWellFormed(Witness(p))
    ensures ParsePayload(WITNESS, PayloadBytes(Witness(p)), SCHEMA_VERSION) == Ok(Witness(p), [])
  {
    WitnessRoundTrip(p);
  }

  predicate EnvelopeWellFormed(r: Record) {
    AllExact(EnvelopeFields(r), ENVELOPE_KINDS)
  }

  /** A record of the current schema whose type is that of its payload. */
  predicate WellFormed(r: Record) {
    EnvelopeWellFormed(r) && PayloadWellFormed(r.payload) && r.recordType == TypeOf(r.payload)
      && r.schemaVersion == SCHEMA_VERSION
  }

  function EnvelopeOf(r: Record): Envelope
    requires EnvelopeWellFormed(r)
  {
    assert Exact(EnvelopeFields(r)[3], ENVELOPE_KINDS[3]) && Exact(EnvelopeFields(r)[4], ENVELOPE_KINDS[4]);
    assert Exact(EnvelopeFields(r)[6], ENVELOPE_KINDS[6]) && Exact(EnvelopeFields(r)[7], ENVELOPE_KINDS[7]);
    Envelope(r.recordId, r.agentId, r.sessionId, r.timestampMs, r.sequence, r.prevHash, r.schemaVersion,
      r.recordType, PayloadBytes(r.payload))
  }

  lemma EnvelopeFromFields(r: Record, rest: bytes)
    requires EnvelopeWellFormed(r)
    ensures EnvelopeFrom(EnvelopeFields(r), rest) == EnvelopeOf(r).(payloadBytes := rest)
  {
  }

  lemma EnvelopeDecode(f: seq<Field>, rest: bytes)
    requires |f| == 9 && AllExact(f, ENVELOPE_KINDS)
    ensures ParseEnvelope(Encode(f) + rest) == Some(EnvelopeFrom(f, rest))
  {
    DecodeEncode(f, ENVELOPE_KINDS, rest);
    ExactSize(f, ENVELOPE_KINDS);
    assert MinSize(ENVELOPE_KINDS) == 108;
  }

  lemma {:induction false} ExactSize(fs: seq<Field>, ks: seq<Kind>)
    requires AllExact(fs, ks)
    ensures |Encode(fs)| >= MinSize(ks)
  {
    if fs != [] {
      ExactSize(fs[1..], ks[1..]);
    }
  }

  /** The least number of bytes that fields of these kinds take. */
  function MinSize(ks: seq<Kind>): nat {
    if ks == [] then 0
    else (match ks[0] case K32 => 4 case K64 => 8 case KStr => 4 case KRaw(n) => n case KFlag => 1) + MinSize(ks[1..])
  }

  /** Fixed-size fields can always be read from enough bytes. */
  lemma {:induction false} FixedFieldsRead(ks: seq<Kind>, data: bytes)
    requires forall i :: 0 <= i < |ks| ==> ks[i].K32? || ks[i].K64? || ks[i].KRaw?
    requires |data| >= MinSize(ks)
    ensures Decode(ks, data).Ok?
  {
    if ks != [] {
      FixedFieldsRead(ks[1..], ReadField(ks[0], data).rest);
    }
  }

  /** parse_envelope refuses exactly the byte strings shorter than an envelope. */
  lemma EnvelopeRefused(stored: bytes)
    ensures ParseEnvelope(stored) == None <==> |stored| < ENVELOPE_SIZE
  {
    if |stored| >= ENVELOPE_SIZE {
      assert MinSize(ENVELOPE_KINDS) == 108;
      FixedFieldsRead(ENVELOPE_KINDS, stored);
    }
  }

  /** parse_envelope on canonical bytes gives back the whole envelope. */
  lemma EnvelopeRoundTrip(r: Record)
    requires EnvelopeWellFormed(r)
    ensures ParseEnvelope(CanonicalBytes(r)) == Some(EnvelopeOf(r))
  {
    EnvelopeFromFields(r, PayloadBytes(r.payload));
    EnvelopeDecode(EnvelopeFields(r), PayloadBytes(r.payload));
  }

  lemma EncodeFrom(fs: seq<Field>, k: nat)
    requires k < |fs|
    ensures Encode(fs[k..]) == FieldBytes(fs[k]) + Encode(fs[k + 1..])
  {
    hide FieldBytes;
    assert fs[k..][1..] == fs[k + 1..];
  }

  lemma EncodeNine(fs: seq<Field>)
    requires |fs| == 9
    ensures Encode(fs)
         == FieldBytes(fs[0]) + (FieldBytes(fs[1]) + (FieldBytes(fs[2]) + (FieldBytes(fs[3]) + (FieldBytes(fs[4])
            + (FieldBytes(fs[5]) + (FieldBytes(fs[6]) + (FieldBytes(fs[7]) + FieldBytes(fs[8]))))))))
  {
    hide FieldBytes, Encode;
    EncodeNothing(fs);
    EncodeFrom(fs, 0);
    EncodeFrom(fs, 1);
    EncodeFrom(fs, 2);
    EncodeFrom(fs, 3);
    EncodeFrom(fs, 4);
    EncodeFrom(fs, 5);
    EncodeFrom(fs, 6);
    EncodeFrom(fs, 7);
    EncodeFrom(fs, 8);
  }

  lemma EncodeNothing(fs: seq<Field>)
    requires |fs| == 9
    ensures Encode(fs[9..]) == [] && fs[0..] == fs
  {
  }

  lemma Slices(a: bytes, b: bytes, c: bytes, d: bytes, e: bytes, f: bytes, g: bytes, h: bytes, i: bytes, t: bytes)
    requires |a| == |b| == |c| == 16 && |d| == |e| == 8 && |f| == 32 && |g| == |h| == |i| == 4
    ensures var s := (a + (b + (c + (d + (e + (f + (g + (h + i)))))))) + t;
      && |s| == 108 + |t| && s[..16] == a && s[16..32] == b && s[32..48] == c && s[48..56] == d && s[56..64] == e
      && s[64..96] == f && s[96..100] == g && s[100..104] == h && s[104..108] == i && s[108..] == t
  {
    var s := (a + (b + (c + (d + (e + (f + (g + (h + i)))))))) + t;
    var back := (e + (f + (g + (h + i)))) + t;
    assert s == a + b + c + d + back;
    assert s[..16] == a && s[16..32] == b && s[32..48] == c && s[48..56] == d && s[56..] == back;
    assert back == e + f + g + h + i + t;
    assert back[..8] == e && back[8..40] == f && back[40..44] == g;
    assert back[44..48] == h && back[48..52] == i && back[52..] == t;
  }

  /** The stored form of a record at its fixed offsets: three ids, timestamp, sequence, previous hash,
      schema version, record type, the type again, payload. */
  lemma EnvelopeLayout(r: Record)
    requires EnvelopeWellFormed(r)
    ensures var s := CanonicalBytes(r);
      && |s| == 108 + |PayloadBytes(r.payload)|
      && s[..16] == r.recordId && s[16..32] == r.agentId && s[32..48] == r.sessionId
      && s[48..56] == U64(r.timestampMs) && s[56..64] == U64(r.sequence) && s[64..96] == r.prevHash
      && s[96..100] == U32(r.schemaVersion) && s[100..104] == U32(r.recordType) && s[104..108] == U32(r.recordType)
      && s[108..] == PayloadBytes(r.payload)
  {
    hide Encode, LE, PayloadBytes;
    var fs := EnvelopeFields(r);
    EncodeNine(fs);
    RawSizes(r);
    Slices(r.recordId, r.agentId, r.sessionId, U64(r.timestampMs), U64(r.sequence), r.prevHash, U32(r.schemaVersion),
           U32(r.recordType), U32(r.recordType), PayloadBytes(r.payload));
  }

  lemma RawSizes(r: Record)
    requires EnvelopeWellFormed(r)
    ensures |r.recordId| == |r.agentId| == |r.sessionId| == 16 && |r.prevHash| == 32
  {
    var fs := EnvelopeFields(r);
    assert Exact(fs[0], ENVELOPE_KINDS[0]) && Exact(fs[1], ENVELOPE_KINDS[1]) && Exact(fs[2], ENVELOPE_KINDS[2]);
    assert Exact(fs[5], ENVELOPE_KINDS[5]);
  }

  /** The envelope parser followed by the payload parser: what a reader recovers. */
  function ReadRecord(stored: bytes): Option<Record> {
    match ParseEnvelope(stored)
    case None => None
    case Some(e) =>
      match ParsePayload(e.recordType, e.payloadBytes, e.schemaVersion)
      case Err(_) => None
      case Ok(p, rest) =>
        if rest != [] then None
        else Some(Record(e.recordId, e.agentId, e.sessionId, e.timestampMs, e.sequence, e.prevHash,
          e.schemaVersion, e.recordType, p))
  }

  /** Every well-formed record of every type survives serialization and parsing. */
  lemma RecordRoundTrip(r: Record)
    requires WellFormed(r)
    ensures ReadRecord(CanonicalBytes(r)) == Some(r)
  {
    EnvelopeRoundTrip(r);
    PayloadRoundTrip(r.payload);
  }

  /** canonical_bytes is injective on well-formed records. */
  lemma CanonicalInjective(r: Record, q: Record)
    requires WellFormed(r) && WellFormed(q) && CanonicalBytes(r) == CanonicalBytes(q)
    ensures r == q
  {
    RecordRoundTrip(r);
    RecordRoundTrip(q);
  }
}
