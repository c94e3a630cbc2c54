/** Chain verification (ahp/core/verify.py): the loop of verify_chain is proved to decide a
    declarative chain predicate, and that predicate is proved to account for every number. */
module Verify {
  import opened Bytes
  import opened Records
  import opened Parse
  import opened Frames
  import opened Layout

  // ---------------------------------------------------- what a stored record says

  function SeqOf(s: bytes): nat {
    match ParseEnvelope(s) case Some(e) => e.sequence case None => 0
  }

  function PrevHashOf(s: bytes): bytes {
    match ParseEnvelope(s) case Some(e) => e.prevHash case None => []
  }

  function TypeFieldOf(s: bytes): nat {
    match ParseEnvelope(s) case Some(e) => e.recordType case None => 0
  }

  function SchemaOf(s: bytes): nat {
    match ParseEnvelope(s) case Some(e) => e.schemaVersion case None => 0
  }

  function GapIn(s: bytes): Parsed<GapPayload> {
    match ParseEnvelope(s) case Some(e) => ParseGap(e.payloadBytes) case None => Err(ValueError)
  }

  predicate IsGap(s: bytes) { TypeFieldOf(s) == GAP }

  /** RecordType(value) does not raise. */
  predicate KnownType(t: int) { ACTION <= t <= WITNESS }

  // ------------------------------------------------------------ the chain predicate

  /** An envelope of the supported schema with a known record type. */
  predicate RecordOk(s: bytes) {
    ParseEnvelope(s).Some? && SchemaOf(s) == SCHEMA_VERSION && KnownType(TypeFieldOf(s))
  }

  /** The gap record loses exactly the numbers from `expected` up to its own. */
  predicate GapFits(s: bytes, expected: nat) {
    && SeqOf(s) > expected
    && GapIn(s).Ok?
    && GapIn(s).value.firstLost == expected
    && GapIn(s).value.lastLost == SeqOf(s) - 1
    && GapIn(s).value.count == GapIn(s).value.lastLost - GapIn(s).value.firstLost + 1
  }

  predicate SeqFits(s: bytes, expected: nat) {
    if IsGap(s) then GapFits(s, expected) else SeqOf(s) == expected
  }

  /** The first number not accounted for before record i. */
  function Expected(records: seq<bytes>, i: nat, anyStart: bool): nat
    requires i < |records|
  {
    if i > 0 then SeqOf(records[i - 1]) + 1 else if anyStart then SeqOf(records[0]) else 1
  }

  predicate Linked(records: seq<bytes>, i: nat, anyStart: bool)
    requires i < |records|
  {
    if i > 0 then PrevHashOf(records[i]) == Sha256(records[i - 1])
    else anyStart || PrevHashOf(records[0]) == ZERO_HASH_32
  }

  predicate GoodAt(records: seq<bytes>, i: nat, anyStart: bool)
    requires i < |records|
  {
    RecordOk(records[i]) && Linked(records, i, anyStart) && SeqFits(records[i], Expected(records, i, anyStart))
  }

  /** The whole-chain predicate; anyStart is allow_nonzero_start, for a rotated segment. */
  predicate ValidChain(records: seq<bytes>, anyStart: bool) {
    forall i :: 0 <= i < |records| ==> GoodAt(records, i, anyStart)
  }

  function GapCount(records: seq<bytes>): (n: nat) {
    if records == [] then 0
    else GapCount(records[..|records| - 1]) + if IsGap(records[|records| - 1]) then 1 else 0
  }

  // --------------------------------------------------------------------- verify_chain

  datatype Fault =
    | Malformed
    | UnsupportedSchema
    | InvalidType
    | GenesisNotZero
    | HashBroken
    | GapNotGreater
    | GapUnreadable  // parse_gap_payload raises, and verify_chain does not catch it
    | GapFirstWrong
    | GapLastWrong
    | GapCountWrong
    | SequenceWrong

  datatype VerifyError = RecordFault(fault: Fault) | ReaderStopped(cause: ReadError)

  datatype VerifyResult = VerifyResult(
    valid: bool, recordsChecked: nat, gaps: nat, brokenAt: Option<nat>,
    expectedHash: Option<bytes>, actualHash: Option<bytes>, error: Option<VerifyError>)

  datatype Verdict = Returned(result: VerifyResult) | Raised

  /** The fault reported for a record whose predecessor, if any, is prev. */
  function FaultOf(s: bytes, prev: Option<bytes>, anyStart: bool): Option<Fault> {
    var expected := match prev case Some(p) => SeqOf(p) + 1 case None => if anyStart then SeqOf(s) else 1;
    if ParseEnvelope(s).None? then Some(Malformed)
    else if SchemaOf(s) != SCHEMA_VERSION then Some(UnsupportedSchema)
    else if !KnownType(TypeFieldOf(s)) then Some(InvalidType)
    else if prev.None? && !anyStart && PrevHashOf(s) != ZERO_HASH_32 then Some(GenesisNotZero)
    else if prev.Some? && PrevHashOf(s) != Sha256(prev.value) then Some(HashBroken)
    else if !IsGap(s) then if SeqOf(s) != expected then Some(SequenceWrong) else None
    else if SeqOf(s) <= expected then Some(GapNotGreater)
    else if GapIn(s).Err? then Some(GapUnreadable)
    else if GapIn(s).value.firstLost != expected then Some(GapFirstWrong)
    else if GapIn(s).value.lastLost != SeqOf(s) - 1 then Some(GapLastWrong)
    else if GapIn(s).value.count != GapIn(s).value.lastLost - GapIn(s).value.firstLost + 1 then Some(GapCountWrong)
    else None
  }

  /** How a fault in the record at index i is reported. */
  function Report(fault: Fault, s: bytes, i: nat, gaps: nat, prev: Option<bytes>): Verdict {
    if fault == GapUnreadable then Raised
    else Returned(VerifyResult(
      false, i + 1, gaps, Some(if fault == Malformed then i + 1 else SeqOf(s)),
      if fault == HashBroken && prev.Some? then Some(Sha256(prev.value)) else None,
      if fault == HashBroken then Some(PrevHashOf(s)) else None,
      Some(RecordFault(fault))))
  }

  function Before(records: seq<bytes>, i: nat): Option<bytes>
    requires i < |records|
  {
    if i == 0 then None else Some(records[i - 1])
  }

  lemma FaultIff(records: seq<bytes>, i: nat, anyStart: bool)
    requires i < |records|
    ensures FaultOf(records[i], Before(records, i), anyStart) == None <==> GoodAt(records, i, anyStart)
  {
    hide ParseEnvelope, ParseGap;
  }

  /** The first bad record from i on, or the number of records. */
  function FirstBad(records: seq<bytes>, i: nat, anyStart: bool): (k: nat)
    requires i <= |records|
    ensures i <= k <= |records|
    decreases |records| - i
  {
    if i < |records| && GoodAt(records, i, anyStart) then FirstBad(records, i + 1, anyStart) else i
  }

  lemma {:induction false} FirstBadIs(records: seq<bytes>, i: nat, anyStart: bool)
    requires i <= |records|
    ensures var k := FirstBad(records, i, anyStart);
      && (forall j :: i <= j < k ==> GoodAt(records, j, anyStart))
      && (k < |records| ==> !GoodAt(records, k, anyStart))
    decreases |records| - i
  {
    hide GoodAt;
    if i < |records| && GoodAt(records, i, anyStart) {
      FirstBadIs(records, i + 1, anyStart);
    }
  }

  /** The records a reader yields and the error it leaves behind. */
  function Readable(file: Option<bytes>): seq<bytes> {
    if file.Some? && GoodHeader(file.value) then FramesOf(Body(file.value)) else []
  }

  /** The file is readable to its very end. */
  predicate ReadsClean(file: Option<bytes>) {
    file.Some? && GoodHeader(file.value) && Stop(Body(file.value)) == None
  }

  /** The file holds a valid chain. */
  predicate Verifies(file: Option<bytes>, anyStart: bool) {
    ReadsClean(file) && ValidChain(Readable(file), anyStart)
  }

  /** What is reported when every record that could be read is good. */
  function EndResult(records: seq<bytes>, readError: Option<ReadError>): Verdict {
    match readError
    case None => Returned(VerifyResult(true, |records|, GapCount(records), None, None, None, None))
    case Some(cause) =>
      Returned(VerifyResult(false, |records|, GapCount(records),
        if records == [] then None else Some(|records| + 1), None, None, Some(ReaderStopped(cause))))
  }

  /** The error a reader leaves behind. */
  function ReaderError(file: Option<bytes>): Option<ReadError> {
    match file
    case None => Some(NoFile)
    case Some(f) =>
      if |f| < HEADER_SIZE then Some(TruncatedHeader)
      else if !GoodHeader(f) then Some(BadMagic)
      else match Stop(Body(f))
        case None => None
        case Some(reason) => Some(Corrupt(reason, ErrorOffset(reason, |f| - |Tail(Body(f))|, Tail(Body(f)))))
  }

  /** The body of verify_chain's loop: a verdict that ends it, or what the next round needs. */
  method CheckRecord(stored: bytes, i: nat, gaps: nat, prevStored: Option<bytes>, expected: nat,
                     allowNonzeroStart: bool)
    returns (verdict: Option<Verdict>, seqNo: nat, isGap: bool)
    requires prevStored.None? <==> i == 0
    requires expected == match prevStored case Some(p) => SeqOf(p) + 1 case None => 1
    ensures match FaultOf(stored, prevStored, allowNonzeroStart)
      case Some(fault) => verdict == Some(Report(fault, stored, i, gaps, prevStored))
      case None => verdict == None && seqNo == SeqOf(stored) && isGap == IsGap(stored)
  {
    hide ParseEnvelope, ParseGap;
    var expectedSeq := expected;
    seqNo, isGap := 0, false;
    var parsed := ParseEnvelope(stored);
    if parsed == None {
      return Some(Rejected(i, gaps, i + 1, Malformed)), seqNo, isGap;
    }
    var envelope := parsed.value;
    seqNo, isGap := envelope.sequence, envelope.recordType == GAP;
    if envelope.schemaVersion != SCHEMA_VERSION {
      return Some(Rejected(i, gaps, seqNo, UnsupportedSchema)), seqNo, isGap;
    }
    if !KnownType(envelope.recordType) {
      return Some(Rejected(i, gaps, seqNo, InvalidType)), seqNo, isGap;
    }
    if i == 0 {
      if allowNonzeroStart {
        expectedSeq := seqNo;
      } else if envelope.prevHash != ZERO_HASH_32 {
        return Some(Rejected(i, gaps, seqNo, GenesisNotZero)), seqNo, isGap;
      }
    } else {
      var expectedHash := Sha256(prevStored.value);
      if envelope.prevHash != expectedHash {
        return Some(Returned(VerifyResult(false, i + 1, gaps, Some(seqNo), Some(expectedHash), Some(envelope.prevHash),
          Some(RecordFault(HashBroken))))), seqNo, isGap;
      }
    }
    if isGap {
      if seqNo <= expectedSeq {
        return Some(Rejected(i, gaps, seqNo, GapNotGreater)), seqNo, isGap;
      }
      var gap := ParseGap(envelope.payloadBytes);
      if gap.Err? {
        return Some(Raised), seqNo, isGap;
      }
      if gap.value.firstLost != expectedSeq {
        return Some(Rejected(i, gaps, seqNo, GapFirstWrong)), seqNo, isGap;
      }
      if gap.value.lastLost != seqNo - 1 {
        return Some(Rejected(i, gaps, seqNo, GapLastWrong)), seqNo, isGap;
      }
      if gap.value.count != gap.value.lastLost - gap.value.firstLost + 1 {
        return Some(Rejected(i, gaps, seqNo, GapCountWrong)), seqNo, isGap;
      }
    } else if seqNo != expectedSeq {
      return Some(Rejected(i, gaps, seqNo, SequenceWrong)), seqNo, isGap;
    }
    return None, seqNo, isGap;
  }

  function Rejected(i: nat, gaps: nat, brokenAt: nat, fault: Fault): Verdict {
    Returned(VerifyResult(false, i + 1, gaps, Some(brokenAt), None, None, Some(RecordFault(fault))))
  }

  /** The verdict on a file: that of the first bad record, or else what the reader met. */
  function Decide(file: Option<bytes>, anyStart: bool): Verdict {
    var records := Readable(file);
    var k := FirstBad(records, 0, anyStart);
    if k == |records| then EndResult(records, ReaderError(file))
    else
      match FaultOf(records[k], Before(records, k), anyStart)
      case Some(fault) => Report(fault, records[k], k, GapCount(records[..k]), Before(records, k))
      case None => Raised
  }

  /** verify_chain computes that verdict, stopping at the first bad record. */
  method VerifyChain(file: Option<bytes>, allowNonzeroStart: bool) returns (v: Verdict)
    ensures v == Decide(file, allowNonzeroStart)
  {
    hide ParseEnvelope, ParseGap, FramesOf, Stop, Tail, Body, GoodAt, FaultOf, Report;
    var records, readError := IterRecords(file);
    assert records == Readable(file) && readError == ReaderError(file);
    hide Readable, ReaderError, GoodHeader;
    var expectedSeq, gaps, prevStored, recordsChecked := 1, 0, None, 0;
    for i := 0 to |records|
      invariant recordsChecked == i
      invariant FirstBad(records, 0, allowNonzeroStart) == FirstBad(records, i, allowNonzeroStart)
      invariant gaps == GapCount(records[..i])
      invariant prevStored == if i > 0 then Some(records[i - 1]) else None
      invariant expectedSeq == if i > 0 then SeqOf(records[i - 1]) + 1 else 1
    {
      var stored := records[i];
      FaultIff(records, i, allowNonzeroStart);
      var verdict, seqNo, isGap := CheckRecord(stored, i, gaps, prevStored, expectedSeq, allowNonzeroStart);
      if verdict.Some? {
        return verdict.value;
      }
      assert records[..i + 1][..i] == records[..i];
      if isGap {
        gaps := gaps + 1;
      }
      expectedSeq := seqNo + 1;
      prevStored := Some(stored);
      recordsChecked := i + 1;
    }
    assert records[..|records|] == records;
    if readError.Some? {
      return Returned(VerifyResult(false, recordsChecked, gaps,
        if recordsChecked > 0 then Some(recordsChecked + 1) else None, None, None,
        Some(ReaderStopped(readError.value))));
    }
    return Returned(VerifyResult(true, recordsChecked, gaps, None, None, None, None));
  }

  /** verify_chain returns valid exactly on the files that hold a valid chain, and then its
      counts are the numbers of records and of gap records. */
  lemma ValidIff(file: Option<bytes>, anyStart: bool)
    ensures var v := Decide(file, anyStart); v.Returned? && v.result.valid <==> Verifies(file, anyStart)
    ensures Verifies(file, anyStart)
      ==> Decide(file, anyStart)
          == Returned(VerifyResult(true, |Readable(file)|, GapCount(Readable(file)), None, None, None, None))
  {
    hide GoodAt, FramesOf, Stop, Tail, Body, ParseEnvelope, ParseGap, FaultOf;
    var records := Readable(file);
    var k := FirstBad(records, 0, anyStart);
    FirstBadIs(records, 0, anyStart);
    if k < |records| {
      FaultIff(records, k, anyStart);
    }
  }

  /** An invalid verdict names the first bad record: the count stops there, and every record
      before it is good. When all that could be read is good, the reader's error is the cause. */
  lemma InvalidVerdict(file: Option<bytes>, anyStart: bool)
    requires Decide(file, anyStart).Returned? && !Decide(file, anyStart).result.valid
    ensures var r, records := Decide(file, anyStart).result, Readable(file);
      && r.error.Some?
      && (forall i :: 0 <= i < r.recordsChecked - 1 ==> GoodAt(records, i, anyStart))
      && if r.error.value.RecordFault? then
           0 < r.recordsChecked <= |records| && !GoodAt(records, r.recordsChecked - 1, anyStart)
             && r.gaps == GapCount(records[..r.recordsChecked - 1])
         else
           r.recordsChecked == |records| && ValidChain(records, anyStart) && !ReadsClean(file)
  {
    hide GoodAt, FramesOf, Stop, Tail, Body, ParseEnvelope, ParseGap, FaultOf;
    var records := Readable(file);
    var k := FirstBad(records, 0, anyStart);
    FirstBadIs(records, 0, anyStart);
    if k < |records| {
      FaultIff(records, k, anyStart);
    }
  }

  /** What a stored record says stands at fixed places in its bytes. */
  lemma SaysAt(s: bytes)
    requires |s| >= 108
    ensures SeqOf(s) == FromLE(s[56..64]) && PrevHashOf(s) == s[64..96]
    ensures SchemaOf(s) == FromLE(s[96..100]) && TypeFieldOf(s) == FromLE(s[100..104])
    ensures GapIn(s) == ParseGap(s[108..])
  {
    hide ParseEnvelope, ParseGap, FromLE;
    EnvelopeParsed(s);
  }

  /** The condition of each fault in record k, all records before it being good. */
  predicate Shows(fault: Fault, records: seq<bytes>, k: nat, anyStart: bool)
    requires k < |records|
  {
    var s := records[k];
    var schema, kind, seq' := SchemaOf(s), TypeFieldOf(s), SeqOf(s);
    var known := |s| >= 108 && schema == 2 && 1 <= kind <= 7;
    var linked := if k > 0 then PrevHashOf(s) == Sha256(records[k - 1]) else anyStart || PrevHashOf(s) == ZERO_HASH_32;
    var next := if k > 0 then SeqOf(records[k - 1]) + 1 else if anyStart then seq' else 1;
    var gap := known && linked && kind == 2 && seq' > next;
    match fault
    case Malformed => |s| < 108
    case UnsupportedSchema => |s| >= 108 && schema != 2
    case InvalidType => |s| >= 108 && schema == 2 && !(1 <= kind <= 7)
    case GenesisNotZero => known && !linked && k == 0
    case HashBroken => known && !linked && k > 0
    case GapNotGreater => known && linked && kind == 2 && seq' <= next
    case GapUnreadable => gap && GapIn(s).Err?
    case GapFirstWrong => gap && GapIn(s).Ok? && GapIn(s).value.firstLost != next
    case GapLastWrong => gap && GapIn(s).Ok? && GapIn(s).value.firstLost == next && GapIn(s).value.lastLost != seq' - 1
    case GapCountWrong =>
      gap && GapIn(s).Ok? && GapIn(s).value.firstLost == next && GapIn(s).value.lastLost == seq' - 1
        && GapIn(s).value.count != seq' - next
    case SequenceWrong => known && linked && kind != 2 && seq' != next
  }

  /** A record is good exactly if it shows no fault, and a bad one shows exactly one. */
  lemma OneFault(records: seq<bytes>, k: nat, anyStart: bool)
    requires k < |records|
    ensures GoodAt(records, k, anyStart) <==> forall fault :: !Shows(fault, records, k, anyStart)
    ensures forall a, b :: Shows(a, records, k, anyStart) && Shows(b, records, k, anyStart) ==> a == b
  {
    hide ParseEnvelope, ParseGap;
    EnvelopeRefused(records[k]);
    if !GoodAt(records, k, anyStart) {
      FaultShows(records, k, anyStart);
    }
  }

  lemma FaultShows(records: seq<bytes>, k: nat, anyStart: bool)
    requires k < |records| && !GoodAt(records, k, anyStart)
    ensures var fault := FaultOf(records[k], Before(records, k), anyStart);
      fault.Some? && Shows(fault.value, records, k, anyStart)
  {
    hide ParseEnvelope, ParseGap;
    EnvelopeRefused(records[k]);
  }

  /** What is reported: the one fault that the first bad record shows; the number of that record, or its
      place counted from one where the envelope is too short to hold a number; and, where the link to the
      record before does not hold, the hash of that record and the hash found, and no hash otherwise. */
  lemma VerdictDetails(file: Option<bytes>, anyStart: bool)
    requires var v := Decide(file, anyStart);
      v.Returned? && !v.result.valid && v.result.error.Some? && v.result.error.value.RecordFault?
    ensures var r, records := Decide(file, anyStart).result, Readable(file);
      && 0 < r.recordsChecked <= |records|
      && var k, fault := r.recordsChecked - 1, r.error.value.fault;
      && Shows(fault, records, k, anyStart) && fault != GapUnreadable
      && (forall i :: 0 <= i < k ==> GoodAt(records, i, anyStart))
      && r.brokenAt == Some(if |records[k]| < 108 then k + 1 else SeqOf(records[k]))
      && (if fault == HashBroken then
            k > 0 && r.expectedHash == Some(Sha256(records[k - 1])) && r.actualHash == Some(PrevHashOf(records[k]))
          else r.expectedHash == None && r.actualHash == None)
  {
    hide GoodAt, FramesOf, Stop, Tail, Body, ParseEnvelope, ParseGap, Shows, FaultOf;
    var records := Readable(file);
    var k := FirstBad(records, 0, anyStart);
    FirstBadIs(records, 0, anyStart);
    FaultShows(records, k, anyStart);
    ShowsShort(FaultOf(records[k], Before(records, k), anyStart).value, records, k, anyStart);
  }

  lemma ShowsShort(fault: Fault, records: seq<bytes>, k: nat, anyStart: bool)
    requires k < |records| && Shows(fault, records, k, anyStart)
    ensures fault == Malformed <==> |records[k]| < 108
    ensures fault == HashBroken ==> k > 0
  {
    hide ParseEnvelope, ParseGap;
  }

  /** verify_chain raises exactly where the first bad record is a gap, past every other check up to its
      number, whose payload cannot be parsed. */
  lemma RaisedIff(file: Option<bytes>, anyStart: bool)
    ensures Decide(file, anyStart).Raised?
        <==> exists k :: 0 <= k < |Readable(file)| && Shows(GapUnreadable, Readable(file), k, anyStart)
               && forall i :: 0 <= i < k ==> GoodAt(Readable(file), i, anyStart)
  {
    hide GoodAt, FramesOf, Stop, Tail, Body, ParseEnvelope, ParseGap, Shows, FaultOf;
    var records := Readable(file);
    var k := FirstBad(records, 0, anyStart);
    FirstBadIs(records, 0, anyStart);
    if k < |records| {
      FaultShows(records, k, anyStart);
      OneFault(records, k, anyStart);
    }
    forall j | 0 <= j < |records| && Shows(GapUnreadable, records, j, anyStart)
      ensures !GoodAt(records, j, anyStart)
    {
      OneFault(records, j, anyStart);
    }
  }

  /** What is reported where the reader stopped behind good records: the place behind the last of them,
      unless there is none, and the reader's error. */
  lemma StoppedDetails(file: Option<bytes>, anyStart: bool)
    requires ValidChain(Readable(file), anyStart) && !ReadsClean(file)
    ensures var n, v := |Readable(file)|, Decide(file, anyStart);
      && v.Returned? && !v.result.valid && v.result.recordsChecked == n && v.result.gaps == GapCount(Readable(file))
      && v.result.brokenAt == (if n > 0 then Some(n + 1) else None)
      && v.result.expectedHash == None && v.result.actualHash == None
      && v.result.error.Some? && v.result.error.value.ReaderStopped?
      && var cause := v.result.error.value.cause;
      match file
      case None => cause == NoFile
      case Some(f) =>
        if |f| < 16 then cause == TruncatedHeader
        else if !GoodHeader(f) then cause == BadMagic
        else cause.Corrupt? && Some(cause.reason) == Stop(Body(f))
  {
    hide GoodAt, FramesOf, Stop, Tail, Body, ParseEnvelope, ParseGap, FaultOf;
    StoppedVerdict(file, anyStart);
  }

  /** When the reader stopped early behind good records, that is the verdict. */
  lemma StoppedVerdict(file: Option<bytes>, anyStart: bool)
    requires ValidChain(Readable(file), anyStart)
    ensures Decide(file, anyStart) == EndResult(Readable(file), ReaderError(file))
  {
    hide GoodAt, FramesOf, Stop, Tail, Body, ParseEnvelope, ParseGap, FaultOf;
    FirstBadIs(Readable(file), 0, anyStart);
  }
}
