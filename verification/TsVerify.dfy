/** The TypeScript verifier (packages/sdk-typescript/src/verify.ts) and how its verdicts relate to
    those of the Python one. */
module TsVerify {
  import opened Bytes
  import opened Crc32
  import opened Records
  import opened Parse
  import opened Frames
  import opened Layout
  import opened Verify
  import opened Accounting

  /** VerifyResult: the two hashes are given for a broken link only. */
  datatype TsVerdict =
    | Result(valid: bool, recordsChecked: nat, gaps: nat, brokenAt: Option<nat>, hashes: Option<Mismatch>)
    | Thrown

  datatype Mismatch = Mismatch(expected: bytes, actual: bytes)

  /** parseGapPayload: None where it throws. Its text decoder replaces bad UTF-8, so only a short
      payload makes it throw. */
  function TsGap(data: bytes): Option<(nat, nat, nat)> {
    match Decode([K64, K64, K64, K32], data)
    case Err(_) => None
    case Ok(f, rest) =>
      if |rest| < 4 || 4 + FromLE(rest[..4]) > |rest| then None
      else Some((Num(f[0]), Num(f[1]), Num(f[2])))
  }

  function TsGapIn(s: bytes): Option<(nat, nat, nat)> {
    match ParseEnvelope(s) case Some(e) => TsGap(e.payloadBytes) case None => None
  }

  predicate TsGapFits(s: bytes, expected: nat) {
    && SeqOf(s) > expected && TsGapIn(s).Some?
    && var (first, last, count) := TsGapIn(s).value;
    && first == expected && last == SeqOf(s) - 1 && count == last - first + 1
  }

  /** What the TypeScript verifier asks of record i: neither the schema nor the type. */
  predicate TsGoodAt(records: seq<bytes>, i: nat, anyStart: bool)
    requires i < |records|
  {
    && ParseEnvelope(records[i]).Some? && Linked(records, i, anyStart)
    && var expected := Expected(records, i, anyStart);
    if IsGap(records[i]) then TsGapFits(records[i], expected) else SeqOf(records[i]) == expected
  }

  predicate TsValid(records: seq<bytes>, anyStart: bool) {
    forall i :: 0 <= i < |records| ==> TsGoodAt(records, i, anyStart)
  }

  /** The first record from i on that it rejects, or the number of records. */
  function TsFirstBad(records: seq<bytes>, i: nat, anyStart: bool): (k: nat)
    requires i <= |records|
    ensures i <= k <= |records|
    ensures forall j :: i <= j < k ==> TsGoodAt(records, j, anyStart)
    ensures k < |records| ==> !TsGoodAt(records, k, anyStart)
    decreases |records| - i
  {
    if i < |records| && TsGoodAt(records, i, anyStart) then TsFirstBad(records, i + 1, anyStart) else i
  }

  /** The exceptions: an envelope, or a gap payload that is reached, is too short. */
  predicate Throws(records: seq<bytes>, i: nat, anyStart: bool)
    requires i < |records|
  {
    ParseEnvelope(records[i]).None?
    || (Linked(records, i, anyStart) && IsGap(records[i]) && SeqOf(records[i]) > Expected(records, i, anyStart)
          && TsGapIn(records[i]).None?)
  }

  function TsDecide(records: seq<bytes>, anyStart: bool): TsVerdict {
    var k := TsFirstBad(records, 0, anyStart);
    if k == |records| then Result(true, |records|, GapCount(records), None, None)
    else if Throws(records, k, anyStart) then Thrown
    else Result(false, k + 1, GapCount(records[..k]), Some(SeqOf(records[k])), HashesAt(records, k, anyStart))
  }

  /** The hash of the record in front and the one the rejected record carries, where they differ. */
  function HashesAt(records: seq<bytes>, i: nat, anyStart: bool): Option<Mismatch>
    requires i < |records|
  {
    if i == 0 || Linked(records, i, anyStart) then None
    else Some(Mismatch(Sha256(records[i - 1]), PrevHashOf(records[i])))
  }

  /** The body of both loops: a verdict that ends them, or what the next round needs. */
  method CheckRecord(ghost records: seq<bytes>, stored: bytes, i: nat, gaps: nat, prevStored: bytes, expected: nat,
                     allowNonzeroStart: bool)
    returns (verdict: Option<TsVerdict>, seqNo: nat, isGap: bool)
    requires i < |records| && stored == records[i] && (i > 0 ==> prevStored == records[i - 1])
    requires expected == if i > 0 then SeqOf(records[i - 1]) + 1 else 1
    ensures verdict.None? <==> TsGoodAt(records, i, allowNonzeroStart)
    ensures verdict.None? ==> seqNo == SeqOf(stored) && isGap == IsGap(stored)
    ensures verdict.Some? && Throws(records, i, allowNonzeroStart) ==> verdict.value == Thrown
    ensures verdict.Some? && !Throws(records, i, allowNonzeroStart) ==>
      verdict.value == Result(false, i + 1, gaps, Some(SeqOf(stored)), HashesAt(records, i, allowNonzeroStart))
  {
    hide ParseEnvelope, TsGap;
    var expectedSeq := expected;
    seqNo, isGap := 0, false;
    var parsed := ParseEnvelope(stored);
    if parsed.None? {
      return Some(Thrown), seqNo, isGap;
    }
    var envelope := parsed.value;
    seqNo, isGap := envelope.sequence, envelope.recordType == GAP;
    if i == 0 {
      if allowNonzeroStart {
        expectedSeq := seqNo;
      } else if envelope.prevHash != ZERO_HASH_32 {
        return Some(Result(false, i + 1, gaps, Some(seqNo), None)), seqNo, isGap;
      }
    } else if envelope.prevHash != Sha256(prevStored) {
      var mismatch := Mismatch(Sha256(prevStored), envelope.prevHash);
      return Some(Result(false, i + 1, gaps, Some(seqNo), Some(mismatch))), seqNo, isGap;
    }
    if isGap {
      if seqNo <= expectedSeq {
        return Some(Result(false, i + 1, gaps, Some(seqNo), None)), seqNo, isGap;
      }
      var gapData := TsGap(envelope.payloadBytes);
      if gapData.None? {
        return Some(Thrown), seqNo, isGap;
      }
      var (first, last, count) := gapData.value;
      if first != expectedSeq || last != seqNo - 1 || count != last - first + 1 {
        return Some(Result(false, i + 1, gaps, Some(seqNo), None)), seqNo, isGap;
      }
    } else if seqNo != expectedSeq {
      return Some(Result(false, i + 1, gaps, Some(seqNo), None)), seqNo, isGap;
    }
    return None, seqNo, isGap;
  }

  /** verifyChain: the loop over iterRecords, which ends silently wherever reading stops. */
  method VerifyChain(file: Option<bytes>, table: array<word>, allowNonzeroStart: bool) returns (v: TsVerdict)
    requires IsTable(table[..])
    ensures v == TsDecide(Readable(file), allowNonzeroStart)
  {
    hide ParseEnvelope, TsGoodAt, Throws, FramesOf, GoodHeader, IsTable;
    var records := IterRecordsTs(file, table);
    assert records == Readable(file);
    var expectedSeq, gaps, i := 1, 0, 0;
    var prevStored := [];
    while i < |records|
      invariant i <= |records|
      invariant TsFirstBad(records, 0, allowNonzeroStart) == TsFirstBad(records, i, allowNonzeroStart)
      invariant gaps == GapCount(records[..i])
      invariant i > 0 ==> prevStored == records[i - 1]
      invariant expectedSeq == if i > 0 then SeqOf(records[i - 1]) + 1 else 1
    {
      var stored := records[i];
      var verdict, seqNo, isGap := CheckRecord(records, stored, i, gaps, prevStored, expectedSeq, allowNonzeroStart);
      if verdict.Some? {
        return verdict.value;
      }
      assert records[..i + 1][..i] == records[..i];
      if isGap {
        gaps := gaps + 1;
      }
      expectedSeq := seqNo + 1;
      prevStored := stored;
      i := i + 1;
    }
    assert records[..|records|] == records;
    return Result(true, i, gaps, None, None);
  }

  /** verifyChainFromBytes */
  method VerifyChainFromBytes(records: seq<bytes>) returns (v: TsVerdict)
    ensures v == TsDecide(records, false)
  {
    hide ParseEnvelope, TsGoodAt, Throws;
    if |records| == 0 {
      return Result(true, 0, 0, None, None);
    }
    var expectedSeq, gaps := 1, 0;
    var prevStored := [];
    for i := 0 to |records|
      invariant TsFirstBad(records, 0, false) == TsFirstBad(records, i, false)
      invariant gaps == GapCount(records[..i])
      invariant i > 0 ==> prevStored == records[i - 1]
      invariant expectedSeq == if i > 0 then SeqOf(records[i - 1]) + 1 else 1
    {
      var stored := records[i];
      var verdict, seqNo, isGap := CheckRecord(records, stored, i, gaps, prevStored, expectedSeq, false);
      if verdict.Some? {
        return verdict.value;
      }
      assert records[..i + 1][..i] == records[..i];
      if isGap {
        gaps := gaps + 1;
      }
      expectedSeq := seqNo + 1;
      prevStored := stored;
    }
    assert records[..|records|] == records;
    return Result(true, |records|, gaps, None, None);
  }

  // ------------------------------------------------------------------ the two verifiers

  /** Where the Python parser reads a gap payload, the TypeScript one reads the same numbers. */
  lemma SameGap(data: bytes)
    requires ParseGap(data).Ok?
    ensures var g := ParseGap(data).value;
      g.firstLost >= 0 && g.lastLost >= 0 && g.count >= 0 && TsGap(data) == Some((g.firstLost, g.lastLost, g.count))
  {
    hide FromLE, ReadField;
    var ks := [K64, K64, K64, K32];
    assert GAP_KINDS == ks + [KStr];
    DecodeSplit(ks, [KStr], data);
    var front := Decode(ks, data);
    assert Decode(GAP_KINDS, data).value[..4] == front.value;
    LastString(front.rest);
  }

  lemma LastString(data: bytes)
    requires Decode([KStr], data).Ok?
    ensures |data| >= 4 && 4 + FromLE(data[..4]) <= |data|
  {
  }

  lemma {:induction false} DecodeSplit(a: seq<Kind>, b: seq<Kind>, data: bytes)
    requires Decode(a + b, data).Ok?
    ensures var front := Decode(a, data);
      && front.Ok? && Decode(b, front.rest).Ok?
      && Decode(a + b, data).value == front.value + Decode(b, front.rest).value
  {
    hide ReadField;
    if a == [] {
      assert a + b == b;
    } else {
      assert (a + b)[0] == a[0] && (a + b)[1..] == a[1..] + b;
      DecodeSplit(a[1..], b, ReadField(a[0], data).rest);
    }
  }

  /** What Python asks of a record beyond what TypeScript asks. */
  predicate PythonOnly(s: bytes) {
    SchemaOf(s) == SCHEMA_VERSION && KnownType(TypeFieldOf(s)) && (IsGap(s) ==> GapIn(s).Ok?)
  }

  lemma GoodIffTsGood(records: seq<bytes>, i: nat, anyStart: bool)
    requires i < |records|
    ensures GoodAt(records, i, anyStart) <==> TsGoodAt(records, i, anyStart) && PythonOnly(records[i])
  {
    hide ParseGap, TsGap;
    match ParseEnvelope(records[i])
    case None =>
    case Some(e) =>
      if ParseGap(e.payloadBytes).Ok? {
        SameGap(e.payloadBytes);
      }
  }

  /** The Python verifier accepts a file if and only if the TypeScript one does, the file reads to
      its very end, and every record has the current schema, a known type and, in a gap, readable
      text. */
  lemma PythonIffTs(file: Option<bytes>, anyStart: bool)
    ensures Verifies(file, anyStart)
      <==>
      && TsValid(Readable(file), anyStart) && ReadsClean(file)
      && forall i :: 0 <= i < |Readable(file)| ==> PythonOnly(Readable(file)[i])
  {
    hide GoodAt, TsGoodAt, PythonOnly, Readable, ReadsClean;
    forall i | 0 <= i < |Readable(file)|
      ensures GoodAt(Readable(file), i, anyStart)
         <==> TsGoodAt(Readable(file), i, anyStart) && PythonOnly(Readable(file)[i])
    {
      GoodIffTsGood(Readable(file), i, anyStart);
    }
  }

  /** Any file the Python verifier accepts, the TypeScript one accepts with the same counts. */
  lemma PythonValidTsValid(file: Option<bytes>, anyStart: bool)
    requires Decide(file, anyStart).Returned? && Decide(file, anyStart).result.valid
    ensures var r := Decide(file, anyStart).result;
      TsDecide(Readable(file), anyStart) == Result(true, r.recordsChecked, r.gaps, None, None)
  {
    hide TsGoodAt, GoodAt, Readable, ReadsClean, Decide, PythonOnly;
    ValidIff(file, anyStart);
    PythonIffTs(file, anyStart);
  }

  /** The converse fails: of a verifying file, cut at any byte behind the header, the TypeScript
      verifier accepts what is left; the Python one does so exactly at a frame boundary. */
  lemma TsAcceptsTruncation(f: bytes, n: nat)
    requires Verifies(Some(f), false) && HEADER_SIZE <= n <= |f|
    ensures var records, k := Readable(Some(f)), Kept(Readable(Some(f)), n - HEADER_SIZE);
      && TsDecide(Readable(Some(f[..n])), false) == Result(true, k, GapCount(records[..k]), None, None)
      && (Verifies(Some(f[..n]), false) <==> n == HEADER_SIZE + |EncodeFrames(records[..k])|)
  {
    hide FramesOf, Tail, EncodeFrames, Kept, TsGoodAt, GoodAt, GapCount, PythonOnly, ReadFrame, Frame;
    var records, cut, k := Readable(Some(f)), f[..n], Kept(Readable(Some(f)), n - HEADER_SIZE);
    CleanIff(Body(f));
    EncodedOfFrames(Body(f));
    assert Body(cut) == Body(f)[..n - HEADER_SIZE] && cut[..4] == f[..4];
    FramesOfCut(records, n - HEADER_SIZE);
    PrefixValid(records, k, false);
    forall i | 0 <= i < k
      ensures TsGoodAt(records[..k], i, false)
    {
      GoodIffTsGood(records[..k], i, false);
    }
    EncodedOfFrames(Body(cut));
    CleanIff(Body(cut));
  }

  /** parseGapPayload returns if and only if the text behind the first 32 bytes is there, in any encoding, and
      takes the three numbers from their places. */
  lemma TsGapParsed(data: bytes)
    ensures TsGap(data).Some? <==> |data| >= 32 && |data| >= 32 + FromLE(data[28..32])
    ensures TsGap(data).Some?
        ==> TsGap(data).value == (FromLE(data[..8]), FromLE(data[8..16]), FromLE(data[16..24]))
  {
    hide FromLE, Decode;
    var ks := [K64, K64, K64, K32];
    DecodeNumber(ks, data);
    if |data| >= 8 {
      DecodeNumber(ks[1..], data[8..]);
    }
    if |data| >= 16 {
      assert data[8..][8..] == data[16..] && data[8..][..8] == data[8..16];
      DecodeNumber(ks[2..], data[16..]);
    }
    if |data| >= 24 {
      assert data[16..][8..] == data[24..] && data[16..][..8] == data[16..24];
      DecodeNumber(ks[3..], data[24..]);
    }
    if |data| >= 28 {
      assert data[24..][4..] == data[28..] && ks[4..] == [];
      DecodeNone(data[28..]);
    }
    if |data| >= 32 {
      assert data[28..][..4] == data[28..32];
    }
  }

  lemma DecodeNone(data: bytes)
    ensures Decode([], data) == Ok([], data)
  {
  }

  /** A rejection names the number of the first record that is not good, and gives the hash of the record in
      front and the hash found exactly where they differ. */
  lemma TsRejects(records: seq<bytes>, anyStart: bool)
    requires var v := TsDecide(records, anyStart); v.Result? && !v.valid
    ensures var v := TsDecide(records, anyStart);
      && 0 < v.recordsChecked <= |records|
      && var k := v.recordsChecked - 1;
      && (forall i :: 0 <= i < k ==> TsGoodAt(records, i, anyStart)) && !TsGoodAt(records, k, anyStart)
      && |records[k]| >= 108 && v.gaps == GapCount(records[..k]) && v.brokenAt == Some(SeqOf(records[k]))
      && (v.hashes.Some? <==> k > 0 && PrevHashOf(records[k]) != Sha256(records[k - 1]))
      && (v.hashes.Some? ==> v.hashes.value == Mismatch(Sha256(records[k - 1]), PrevHashOf(records[k])))
  {
    hide TsGoodAt, ParseEnvelope, TsGap;
    var k := TsFirstBad(records, 0, anyStart);
    EnvelopeRefused(records[k]);
  }

  /** It throws exactly where the first record that is not good is too short for an envelope, or is a linked
      gap record with a number past the next whose payload is too short. */
  lemma TsThrowsIff(records: seq<bytes>, anyStart: bool)
    ensures TsDecide(records, anyStart).Thrown?
        <==> exists k :: 0 <= k < |records| && (forall i :: 0 <= i < k ==> TsGoodAt(records, i, anyStart))
               && (|records[k]| < 108
                   || (Linked(records, k, anyStart) && TypeFieldOf(records[k]) == 2
                       && SeqOf(records[k]) > Expected(records, k, anyStart) && TsGapIn(records[k]).None?))
  {
    hide ParseEnvelope, TsGap, Linked, Expected;
    var k := TsFirstBad(records, 0, anyStart);
    forall j | 0 <= j < |records|
      ensures Throws(records, j, anyStart) ==> !TsGoodAt(records, j, anyStart)
      ensures ParseEnvelope(records[j]).None? <==> |records[j]| < 108
    {
      EnvelopeRefused(records[j]);
    }
  }

  /** Where Python reports a fault that TypeScript also looks for, TypeScript reports the same record, counts
      and hashes; where Python reports a short envelope, TypeScript throws. */
  lemma SameVerdict(file: Option<bytes>, anyStart: bool)
    requires var v := Decide(file, anyStart);
      v.Returned? && !v.result.valid && v.result.error.Some? && v.result.error.value.RecordFault?
    ensures var r, v := Decide(file, anyStart).result, TsDecide(Readable(file), anyStart);
      var fault := r.error.value.fault;
      && (fault == Malformed ==> v == Thrown)
      && (fault != Malformed && fault != UnsupportedSchema && fault != InvalidType ==>
            v == Result(false, r.recordsChecked, r.gaps, r.brokenAt,
              if r.expectedHash.Some? && r.actualHash.Some?
              then Some(Mismatch(r.expectedHash.value, r.actualHash.value)) else None))
  {
    hide GoodAt, TsGoodAt, ParseEnvelope, ParseGap, TsGap, Decide, Shows, Readable, Throws;
    var r, records := Decide(file, anyStart).result, Readable(file);
    VerdictDetails(file, anyStart);
    var k, fault := r.recordsChecked - 1, r.error.value.fault;
    InvalidVerdict(file, anyStart);
    forall i | 0 <= i < k
      ensures TsGoodAt(records, i, anyStart)
    {
      GoodIffTsGood(records, i, anyStart);
    }
    if fault != UnsupportedSchema && fault != InvalidType {
      ShowsShort(fault, records, k, anyStart);
      SharedFault(fault, records, k, anyStart);
      TsFirstBadAt(records, 0, k, anyStart);
    }
  }

  lemma {:induction false} TsFirstBadAt(records: seq<bytes>, i: nat, k: nat, anyStart: bool)
    requires i <= k < |records| && (forall j :: i <= j < k ==> TsGoodAt(records, j, anyStart))
    requires !TsGoodAt(records, k, anyStart)
    ensures TsFirstBad(records, i, anyStart) == k
    decreases k - i
  {
    hide TsGoodAt;
    if i < k {
      TsFirstBadAt(records, i + 1, k, anyStart);
    }
  }

  lemma SharedFault(fault: Fault, records: seq<bytes>, k: nat, anyStart: bool)
    requires k < |records| && Shows(fault, records, k, anyStart)
    requires fault != UnsupportedSchema && fault != InvalidType && fault != GapUnreadable
    ensures !TsGoodAt(records, k, anyStart) && (Throws(records, k, anyStart) <==> fault == Malformed)
    ensures var hashes := HashesAt(records, k, anyStart);
      && (fault == HashBroken ==>
            k > 0 && hashes == Some(Mismatch(Sha256(records[k - 1]), PrevHashOf(records[k]))))
      && (fault != HashBroken && fault != Malformed ==> hashes == None)
  {
    hide ParseGap, TsGap, ParseEnvelope;
    var s := records[k];
    EnvelopeRefused(s);
    if ParseEnvelope(s).Some? && ParseGap(ParseEnvelope(s).value.payloadBytes).Ok? {
      SameGap(ParseEnvelope(s).value.payloadBytes);
    }
  }

  /** And it accepts a file that does not exist, which the Python one rejects. */
  lemma TsAcceptsMissing()
    ensures TsDecide(Readable(None), false) == Result(true, 0, 0, None, None) && !Verifies(None, false)
  {
  }
}
