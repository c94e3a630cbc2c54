/** Crash recovery (ahp/core/recovery.py): scan a chain file, cut off its damaged tail, resume. */
module Recovery {
  import opened Bytes
  import opened Crc32
  import opened Parse
  import opened Frames
  import opened Verify
  import opened Accounting
  import opened ChainWriter
  import opened WriterRuns

  datatype RecoveryResult = RecoveryResult(
    recordsVerified: nat, recordsTruncated: nat, lastValidSeq: nat, lastValidOffset: nat, lastPrevHash: Digest)

  // ------------------------------------------------------------------- specification

  /** The sequence number of the last record whose envelope can be parsed. */
  function LastParsedSeq(records: seq<bytes>): nat {
    if records == [] then 0
    else
      match ParseEnvelope(records[|records| - 1])
      case Some(e) => e.sequence
      case None => LastParsedSeq(records[..|records| - 1])
  }

  /** The hash the next record links to; an empty record counts as none. */
  function ResumeHash(records: seq<bytes>): Digest {
    if records == [] || records[|records| - 1] == [] then ZERO_HASH_32 else Sha256(records[|records| - 1])
  }

  /** Python's round of a / b, for b > 0: to nearest, ties to even. */
  function Round(a: nat, b: nat): (r: nat)
    requires b > 0
  {
    var q, rest := a / b, a % b;
    if 2 * rest < b || (2 * rest == b && q % 2 == 0) then q else q + 1
  }

  /** How many records the tail is estimated to have held: its size in average frames, at least one. */
  function Estimate(corrupt: nat, good: nat, records: nat): (n: nat)
    ensures n > 0 <==> corrupt > 0
  {
    if corrupt == 0 then 0
    else if records == 0 || good == 0 then 1
    else
      var n := Round(corrupt * records, good);
      if n < 1 then 1 else n
  }

  function Scan(file: Option<bytes>): RecoveryResult {
    match file
    case None => RecoveryResult(0, 0, 0, HEADER_SIZE, ZERO_HASH_32)
    case Some(f) =>
      if !GoodHeader(f) then RecoveryResult(0, 0, 0, 0, ZERO_HASH_32)
      else
        var records, tail := FramesOf(Body(f)), Tail(Body(f));
        RecoveryResult(|records|, Estimate(|tail|, |Body(f)| - |tail|, |records|), LastParsedSeq(records),
          |f| - |tail|, ResumeHash(records))
  }

  /** What recovery leaves on disk. */
  function Recovered(f: bytes): bytes {
    var r := Scan(Some(f));
    if r.recordsTruncated > 0 && r.lastValidOffset <= |f| then f[..r.lastValidOffset] else f
  }

  // ------------------------------------------------------------------------- methods

  lemma LastParsedSnoc(records: seq<bytes>, s: bytes)
    ensures LastParsedSeq(records + [s])
      == match ParseEnvelope(s) case Some(e) => e.sequence case None => LastParsedSeq(records)
  {
    hide ParseEnvelope;
    assert (records + [s])[..|records|] == records;
  }

  lemma NothingParsed()
    ensures LastParsedSeq([]) == 0
  {
  }

  /** The loop of scan_chain over the frames behind a good header. */
  method ScanFrames(f: bytes)
    returns (recordsVerified: nat, lastValidSeq: nat, lastValidOffset: nat, lastStored: Option<bytes>)
    requires |f| >= HEADER_SIZE
    ensures var records := FramesOf(Body(f));
      && recordsVerified == |records| && lastValidSeq == LastParsedSeq(records)
      && lastValidOffset == |f| - |Tail(Body(f))|
      && lastStored == (if records == [] then None else Some(records[|records| - 1]))
      && (recordsVerified > 0 <==> lastValidOffset > HEADER_SIZE)
  {
    hide Crc, FromLE, Read, ReadFrame, FramesOf, Tail, ParseEnvelope, LastParsedSeq;
    NothingParsed();
    recordsVerified, lastValidSeq, lastValidOffset, lastStored := 0, 0, HEADER_SIZE, None;
    ghost var records := [];
    while true
      invariant HEADER_SIZE <= lastValidOffset <= |f|
      invariant FramesOf(Body(f)) == records + FramesOf(f[lastValidOffset..])
      invariant Tail(Body(f)) == Tail(f[lastValidOffset..])
      invariant recordsVerified == |records| && lastValidSeq == LastParsedSeq(records)
      invariant lastStored == if records == [] then None else Some(records[|records| - 1])
      invariant recordsVerified > 0 <==> lastValidOffset > HEADER_SIZE
      decreases |f| - lastValidOffset
    {
      ReadFrameAt(f, lastValidOffset);
      ScanStep(f, lastValidOffset);
      var lengthBytes := Read(f, lastValidOffset, 4);
      if |lengthBytes| < 4 {
        break;
      }
      var length := FromLE(lengthBytes);
      if length > MAX_RECORD_SIZE {
        break;
      }
      var stored := Read(f, lastValidOffset + 4, length);
      if |stored| < length {
        break;
      }
      var crcBytes := Read(f, lastValidOffset + 4 + length, 4);
      if |crcBytes| < 4 {
        break;
      }
      if Crc(lengthBytes + stored) != FromLE(crcBytes) {
        break;
      }
      LastParsedSnoc(records, stored);
      records := records + [stored];
      recordsVerified := recordsVerified + 1;
      lastValidOffset := lastValidOffset + 4 + length + 4;
      lastStored := Some(stored);
      var env := ParseEnvelope(stored);
      if env.Some? {
        lastValidSeq := env.value.sequence;
      }
    }
    assert FramesOf(Body(f)) == records + [] == records;
  }

  /** scan_chain */
  method ScanChain(file: Option<bytes>) returns (r: RecoveryResult)
    ensures r == Scan(file)
  {
    hide FramesOf, Tail, LastParsedSeq, Estimate;
    if file.None? {
      return RecoveryResult(0, 0, 0, HEADER_SIZE, ZERO_HASH_32);
    }
    var f := file.value;
    var header := Read(f, 0, HEADER_SIZE);
    if |header| < HEADER_SIZE || header[..4] != MAGIC {
      return RecoveryResult(0, 0, 0, 0, ZERO_HASH_32);
    }
    var recordsVerified, lastValidSeq, lastValidOffset, lastStored := ScanFrames(f);
    var lastPrevHash := ZERO_HASH_32;
    if lastStored.Some? && lastStored.value != [] {
      lastPrevHash := Sha256(lastStored.value);
    }
    var truncated := CountTruncated(|f|, lastValidOffset, recordsVerified);
    return RecoveryResult(recordsVerified, truncated, lastValidSeq, lastValidOffset, lastPrevHash);
  }

  /** The estimate at the end of scan_chain: corrupt / ((offset - header) / records), rounded, is
      taken as one exact fraction. */
  method CountTruncated(fileSize: nat, lastValidOffset: nat, recordsVerified: nat) returns (truncated: nat)
    requires HEADER_SIZE <= lastValidOffset <= fileSize && (recordsVerified > 0 <==> lastValidOffset > HEADER_SIZE)
    ensures truncated == Estimate(fileSize - lastValidOffset, lastValidOffset - HEADER_SIZE, recordsVerified)
  {
    hide Round;
    truncated := 0;
    if fileSize > lastValidOffset {
      var corruptBytes := fileSize - lastValidOffset;
      if recordsVerified > 0 {
        truncated := Round(corruptBytes * recordsVerified, lastValidOffset - HEADER_SIZE);
        if truncated < 1 {
          truncated := 1;
        }
      } else {
        truncated := 1;
      }
    }
  }

  /** A file on disk. */
  class Disk {
    var file: bytes

    constructor (f: bytes)
      ensures file == f
    {
      file := f;
    }

    /** truncate_chain */
    method Truncate(offset: nat)
      requires offset <= |file|
      modifies this
      ensures file == old(file)[..offset]
    {
      file := file[..offset];
    }

    /** recover_chain */
    method Recover() returns (r: RecoveryResult)
      modifies this
      ensures r == Scan(Some(old(file))) && file == Recovered(old(file))
    {
      hide FramesOf, Tail, Estimate, LastParsedSeq, ResumeHash;
      r := ScanChain(Some(file));
      if r.recordsTruncated > 0 {
        Truncate(r.lastValidOffset);
      }
    }
  }

  // ------------------------------------------------------------- the reported loss

  /** r is a whole number nearest to a / b, and the even one where there are two. */
  predicate Nearest(r: int, a: int, b: int) {
    var off := 2 * (r * b - a);
    -b <= off <= b && (off == -b || off == b ==> r % 2 == 0)
  }

  lemma RoundNearest(a: nat, b: nat)
    requires b > 0
    ensures Nearest(Round(a, b), a, b)
  {
    var q, rest := a / b, a % b;
    assert a == q * b + rest;
    assert (q + 1) * b == q * b + b;
  }

  lemma NearestUnique(a: int, b: nat, r: int, s: int)
    requires b > 0 && Nearest(r, a, b) && Nearest(s, a, b)
    ensures r == s
  {
    if r > s {
      ApartByOne(r, s, b);
    } else if s > r {
      ApartByOne(s, r, b);
    }
  }

  lemma ApartByOne(r: int, s: int, b: nat)
    requires r > s
    ensures r * b >= s * b + b && (r > s + 1 ==> r * b >= s * b + 2 * b)
  {
    MultipleGrows(r, s + 1, b);
    if r > s + 1 {
      MultipleGrows(r, s + 2, b);
    }
  }

  lemma MultipleGrows(x: int, y: int, b: nat)
    requires x >= y
    ensures x * b >= y * b
  {
  }

  /** The loss that scanning reports, where c bytes follow n frames of g bytes altogether: none without such
      bytes, one where no frame is whole or the bytes make up half an average frame or less, and else the
      number of average frames nearest to them, the even one of two. */
  lemma LossReported(f: bytes)
    requires GoodHeader(f)
    ensures var records, t := FramesOf(Body(f)), Scan(Some(f)).recordsTruncated;
      var n, g, c := |records|, |EncodeFrames(records)|, |Tail(Body(f))|;
      && c == |f| - HEADER_SIZE - g
      && (t == 0 <==> c == 0)
      && (c > 0 && (n == 0 || 2 * (c * n) <= g) ==> t == 1)
      && (n > 0 && 2 * (c * n) > g ==> Nearest(t, c * n, g))
  {
    hide FramesOf, Tail, EncodeFrames, LastParsedSeq, ResumeHash, Round;
    var records, t := FramesOf(Body(f)), Scan(Some(f)).recordsTruncated;
    var n, g, c := |records|, |EncodeFrames(records)|, |Tail(Body(f))|;
    EncodedOfFrames(Body(f));
    FramesTakeRoom(records);
    if n > 0 && c > 0 {
      RoundNearest(c * n, g);
      RoundSmall(c * n, g);
    }
  }

  lemma RoundSmall(a: nat, b: nat)
    requires b > 0
    ensures 2 * a <= b ==> Round(a, b) == 0
    ensures 2 * a > b ==> Round(a, b) >= 1
  {
    if 2 * a <= b {
      NearestUnique(a, b, Round(a, b), 0);
      RoundNearest(a, b);
    }
  }

  lemma {:induction false} FramesTakeRoom(records: seq<bytes>)
    ensures |EncodeFrames(records)| >= 8 * |records|
  {
    hide Frame;
    if records != [] {
      FramesTakeRoom(records[1..]);
    }
  }

  lemma {:induction false} EqualFramesRoom(records: seq<bytes>, size: nat)
    requires forall i :: 0 <= i < |records| ==> |records[i]| + 8 == size
    ensures |EncodeFrames(records)| == size * |records|
  {
    hide Frame;
    if records != [] {
      EqualFramesRoom(records[1..], size);
      assert size * |records| == size + size * |records[1..]|;
    }
  }

  /** Behind frames of one size, a damaged tail of m such sizes is reported as m lost records. */
  lemma EqualFramesLost(f: bytes, size: nat, m: nat)
    requires GoodHeader(f) && FramesOf(Body(f)) != []
    requires forall i :: 0 <= i < |FramesOf(Body(f))| ==> |FramesOf(Body(f))[i]| + 8 == size
    requires |Tail(Body(f))| == m * size
    ensures Scan(Some(f)).recordsTruncated == m
  {
    hide FramesOf, Tail, EncodeFrames, Scan, Round;
    var records, t := FramesOf(Body(f)), Scan(Some(f)).recordsTruncated;
    var n, g := |records|, |EncodeFrames(records)|;
    EqualFramesRoom(records, size);
    FramesTakeRoom(records);
    LossReported(f);
    assert m * size * n == m * g;
    if m > 0 {
      MultipleGrows(m, 1, g);
      NearestUnique(m * g, g, t, m);
    }
  }

  /** The number resumed from is that of the last record whose envelope can be parsed, wherever it is. */
  lemma {:induction false} LastParsedAt(records: seq<bytes>, k: nat)
    requires k <= |records| && forall j :: k <= j < |records| ==> ParseEnvelope(records[j]).None?
    requires k > 0 ==> ParseEnvelope(records[k - 1]).Some?
    ensures LastParsedSeq(records) == if k == 0 then 0 else ParseEnvelope(records[k - 1]).value.sequence
    decreases |records|
  {
    hide ParseEnvelope;
    if k < |records| {
      LastParsedAt(records[..|records| - 1], k);
    }
  }

  // ----------------------------------------------------------------------- properties

  /** What recovery leaves behind is exactly the header and the whole frames. */
  lemma RecoveredShape(f: bytes)
    requires GoodHeader(f)
    ensures Recovered(f) == f[..HEADER_SIZE] + EncodeFrames(FramesOf(Body(f)))
  {
    hide ReadFrame, Frame, FramesOf, Tail, EncodeFrames, LastParsedSeq, ResumeHash;
    var body := Body(f);
    EncodedOfFrames(body);
    assert f == f[..HEADER_SIZE] + body;
    var n := |f| - |Tail(body)|;
    assert f[..n] == f[..HEADER_SIZE] + body[..n - HEADER_SIZE];
    assert body[..n - HEADER_SIZE] == EncodeFrames(FramesOf(body));
  }

  /** After recovery the file reads cleanly and gives the same records as before. */
  lemma RecoveredReads(f: bytes)
    requires GoodHeader(f)
    ensures ReadsClean(Some(Recovered(f))) && Readable(Some(Recovered(f))) == Readable(Some(f))
  {
    hide ReadFrame, Frame;
    var records := FramesOf(Body(f));
    RecoveredShape(f);
    EncodedOfFrames(Body(f));
    FramesOfEncoded(records, []);
    assert Body(Recovered(f)) == EncodeFrames(records) == EncodeFrames(records) + [];
    assert records + [] == records;
    assert Recovered(f)[..4] == f[..4];
  }

  /** Recovering twice is recovering once, and the second scan finds nothing to cut. */
  lemma RecoverIdempotent(f: bytes)
    ensures Recovered(Recovered(f)) == Recovered(f)
    ensures var once, again := Scan(Some(f)), Scan(Some(Recovered(f)));
      again == if GoodHeader(f) then once.(recordsTruncated := 0) else once
  {
    hide ReadFrame, Frame, FramesOf, EncodeFrames, LastParsedSeq, ResumeHash, Round;
    if GoodHeader(f) {
      RecoveredReads(f);
      RecoveredShape(f);
      EncodedOfFrames(Body(f));
      EncodedOfFrames(Body(Recovered(f)));
      assert Tail(Body(Recovered(f))) == [];
    }
  }

  /** A file of whole frames, cut at any byte behind the header: recovery keeps exactly the frames
      that lie wholly within the cut, and reports a loss exactly when the cut is inside a frame. */
  lemma CutRecovered(f: bytes, records: seq<bytes>, n: nat)
    requires GoodHeader(f) && Body(f) == EncodeFrames(records) && AllSmall(records) && HEADER_SIZE <= n <= |f|
    ensures var k := Kept(records, n - HEADER_SIZE); var r := Scan(Some(f[..n]));
      && Recovered(f[..n]) == f[..HEADER_SIZE] + EncodeFrames(records[..k])
      && r.recordsVerified == k && r.lastValidOffset == HEADER_SIZE + |EncodeFrames(records[..k])|
      && (r.recordsTruncated > 0 <==> n != HEADER_SIZE + |EncodeFrames(records[..k])|)
  {
    hide ReadFrame, Frame, FramesOf, Tail, EncodeFrames, LastParsedSeq, ResumeHash, Kept, Round;
    var cut := f[..n];
    assert Body(cut) == Body(f)[..n - HEADER_SIZE] && cut[..4] == f[..4] && cut[..HEADER_SIZE] == f[..HEADER_SIZE];
    FramesOfCut(records, n - HEADER_SIZE);
    RecoveredShape(cut);
  }

  /** A file without the header of a chain is left as it is, whatever it holds, and no loss is reported; of a
      missing file the scan reports a header's length. */
  lemma NoChainKept(f: bytes)
    requires !GoodHeader(f)
    ensures Recovered(f) == f && Scan(Some(f)) == RecoveryResult(0, 0, 0, 0, Zeros(32))
    ensures forall anyStart :: !Verifies(Some(f), anyStart)
    ensures Scan(None) == RecoveryResult(0, 0, 0, 16, Zeros(32))
  {
    hide FramesOf, Tail, LastParsedSeq, ResumeHash, ValidChain;
  }

  /** A cut inside the header is left as it is, and no loss is reported. */
  lemma HeaderCutKept(f: bytes, n: nat)
    requires n < HEADER_SIZE && n <= |f|
    ensures Recovered(f[..n]) == f[..n]
    ensures Scan(Some(f[..n])) == RecoveryResult(0, 0, 0, 0, ZERO_HASH_32)
    ensures forall anyStart :: !Verifies(Some(Recovered(f[..n])), anyStart)
  {
    hide FramesOf, Tail, LastParsedSeq, ResumeHash, ValidChain;
  }

  /** A writer resumed on a cut header appends its frames behind what is left of it, so that none stands
      where readers look; on an empty file, what it writes is not taken for a chain file at all. */
  lemma HeaderCutResumed(f: bytes, n: nat, agentId: bytes, sessionId: bytes, ops: seq<(Op, World)>)
    requires n < HEADER_SIZE && n <= |f|
    ensures var w := Resumed(f[..n], agentId, sessionId); var records := StoredForms(WrittenRecords(w, ops));
      && Run(w, ops).file == f[..n] + EncodeFrames(records)
      && (n == 0 && (records != [] ==> |records[0]| <= MAX_RECORD_SIZE) ==> !GoodHeader(Run(w, ops).file))
  {
    hide FramesOf, Tail, LastParsedSeq, ResumeHash, Run, WrittenRecords, StoredForms, Frame;
    HeaderCutKept(f, n);
    var w := Resumed(f[..n], agentId, sessionId);
    RunAppends(w, ops);
    var records := StoredForms(WrittenRecords(w, ops));
    assert [] + EncodeFrames(records) == EncodeFrames(records);
    if n == 0 && records != [] && |records[0]| <= MAX_RECORD_SIZE {
      FramesNoHeader(records);
    }
  }

  /** The magic bytes, read as a length, are above the limit. */
  lemma FramesNoHeader(records: seq<bytes>)
    requires records != [] && |records[0]| <= MAX_RECORD_SIZE
    ensures EncodeFrames(records)[..4] != MAGIC
  {
    hide LE, FromLE, Crc;
    U32RoundTrip(|records[0]|);
    assert EncodeFrames(records)[..4] == U32(|records[0]|);
    MagicLength();
  }

  lemma MagicLength()
    ensures FromLE(MAGIC) > MAX_RECORD_SIZE
  {
    assert MAGIC[1..][1..][1..][1..] == [];
    assert FromLE(MAGIC[1..][1..][1..]) == MAGIC[3] as nat;
    assert FromLE(MAGIC[1..][1..]) == MAGIC[2] as nat + 256 * MAGIC[3] as nat;
  }

  lemma LastParsedValid(records: seq<bytes>, anyStart: bool)
    requires ValidChain(records, anyStart) && records != []
    ensures LastParsedSeq(records) == SeqOf(records[|records| - 1])
    ensures ResumeHash(records) == Sha256(records[|records| - 1])
  {
    assert GoodAt(records, |records| - 1, anyStart);
    EnvelopeRefused(records[|records| - 1]);
    hide ParseEnvelope;
  }

  /** The writer a recorder opens on a recovered file. */
  function Resumed(f: bytes, agentId: bytes, sessionId: bytes): Writer {
    var r := Scan(Some(f));
    if r.recordsVerified > 0 then Opened(agentId, sessionId, Some(Recovered(f)), 0, r.lastPrevHash, r.lastValidSeq)
    else Opened(agentId, sessionId, Some(Recovered(f)), 0, ZERO_HASH_32, 0)
  }

  /** Where the readable records form a valid chain, the resumed writer is in step with the file. */
  lemma ResumedInSync(f: bytes, agentId: bytes, sessionId: bytes, anyStart: bool)
    requires GoodHeader(f) && ValidChain(Readable(Some(f)), anyStart) && |agentId| == 16 && |sessionId| == 16
    ensures InSync(Resumed(f, agentId, sessionId), anyStart, |Readable(Some(f))|, GapCount(Readable(Some(f))))
  {
    hide FramesOf, Tail, EncodeFrames, LastParsedSeq, ResumeHash, ReadsClean, SeqOf, ValidChain, Estimate, Recovered,
      GapCount;
    RecoveredReads(f);
    var records := Readable(Some(f));
    if records != [] {
      LastParsedValid(records, anyStart);
    }
  }

  lemma ResumedReads(f: bytes, agentId: bytes, sessionId: bytes)
    requires GoodHeader(f)
    ensures Readable(Some(Resumed(f, agentId, sessionId).file)) == Readable(Some(f))
  {
    hide Readable, ReadsClean, Recovered, Scan;
    RecoveredReads(f);
  }

  /** What a cut leaves of the records of a file that reads to its end. */
  lemma CutReads(f: bytes, n: nat)
    requires ReadsClean(Some(f)) && HEADER_SIZE <= n <= |f|
    ensures var records := Readable(Some(f)); var k := Kept(records, n - HEADER_SIZE);
      GoodHeader(f[..n]) && Readable(Some(f[..n])) == records[..k]
  {
    hide FramesOf, EncodeFrames, Kept, Tail;
    var records, cut := FramesOf(Body(f)), f[..n];
    CleanIff(Body(f));
    EncodedOfFrames(Body(f));
    assert Body(cut) == Body(f)[..n - HEADER_SIZE] && cut[..4] == f[..4];
    FramesOfCut(records, n - HEADER_SIZE);
  }

  lemma CutSync(w: Writer, anyStart: bool, n: nat, i: nat, g: nat)
    requires InSync(w, anyStart, i, g) && HEADER_SIZE <= n <= |w.file|
    ensures var records := Readable(Some(w.file)); var k := Kept(records, n - HEADER_SIZE);
      && GoodHeader(w.file[..n]) && Readable(Some(w.file[..n])) == records[..k] && ValidChain(records[..k], anyStart)
  {
    hide FramesOf, EncodeFrames, Kept, GapCount, ValidChain, Tail, SeqOf, Readable, GoodHeader;
    CutReads(w.file, n);
    PrefixValid(Readable(Some(w.file)), Kept(Readable(Some(w.file)), n - HEADER_SIZE), anyStart);
  }

  lemma SyncVerdict(w: Writer, n: nat, g: nat)
    requires InSync(w, false, n, g)
    ensures Decide(Some(w.file), false)
         == Returned(VerifyResult(true, n + w.recordCount, g + w.gapCount, None, None, None, None))
    ensures w.bytesWritten == |w.file|
  {
    hide Verifies, Readable, Decide, SeqOf;
    ValidIff(Some(w.file), false);
  }

  lemma FreshInSync(agentId: bytes, sessionId: bytes, createdMs: nat)
    requires |agentId| == 16 && |sessionId| == 16
    ensures InSync(Opened(agentId, sessionId, None, createdMs, ZERO_HASH_32, 0), false, 0, 0)
  {
    hide Verifies, Readable, Header;
    HeaderVerifies(createdMs, false);
  }

  /** One cycle, for one file, from genesis or rotated: a writer in step with its file stops with any
      byte prefix behind the header on disk, recovery cuts it, a writer resumes and runs. The file then
      holds the kept records and those of the new run, and the writer is in step again, so the cycle
      can be repeated at will. */
  lemma CrashCycle(w: Writer, anyStart: bool, i: nat, g: nat, n: nat, agentId: bytes, sessionId: bytes,
                   more: seq<(Op, World)>)
    requires InSync(w, anyStart, i, g) && HEADER_SIZE <= n <= |w.file| && |agentId| == 16 && |sessionId| == 16
    requires AllClean(Resumed(w.file[..n], agentId, sessionId), more, anyStart)
    ensures var kept := Readable(Some(w.file))[..Kept(Readable(Some(w.file)), n - HEADER_SIZE)];
      var resumed := Resumed(w.file[..n], agentId, sessionId);
      && Readable(Some(w.file[..n])) == kept
      && InSync(Run(resumed, more), anyStart, |kept|, GapCount(kept))
      && Readable(Some(Run(resumed, more).file)) == kept + StoredForms(WrittenRecords(resumed, more))
  {
    hide AllClean, Run, Kept, GapCount, Resumed, ValidChain, InSync, Readable, GoodHeader, WrittenRecords, StoredForms;
    var cut := w.file[..n];
    var resumed := Resumed(cut, agentId, sessionId);
    CutSync(w, anyStart, n, i, g);
    ResumedInSync(cut, agentId, sessionId, anyStart);
    ResumedReads(cut, agentId, sessionId);
    var kept := Readable(Some(cut));
    CleanRunRecords(resumed, more, anyStart, |kept|, GapCount(kept));
    CleanRun(resumed, more, anyStart, |kept|, GapCount(kept));
  }

  /** The whole cycle: a fresh writer runs, the machine stops with any byte prefix behind the header on
      disk, recovery cuts it, a writer resumes and runs: the file verifies, and its records are
      the kept ones followed by those of the second run. */
  lemma CrashAndResume(agentId: bytes, sessionId: bytes, createdMs: nat, ops: seq<(Op, World)>, n: nat,
                       agent': bytes, session': bytes, more: seq<(Op, World)>)
    requires |agentId| == 16 && |sessionId| == 16 && |agent'| == 16 && |session'| == 16
    requires var w := Opened(agentId, sessionId, None, createdMs, ZERO_HASH_32, 0);
      && AllClean(w, ops, false)
      && HEADER_SIZE <= n <= |Run(w, ops).file|
      && AllClean(Resumed(Run(w, ops).file[..n], agent', session'), more, false)
    ensures var w := Opened(agentId, sessionId, None, createdMs, ZERO_HASH_32, 0);
      var records := Readable(Some(Run(w, ops).file));
      var k := Kept(records, n - HEADER_SIZE);
      var resumed := Run(Resumed(Run(w, ops).file[..n], agent', session'), more);
      && Readable(Some(Run(w, ops).file[..n])) == records[..k]
      && Readable(Some(resumed.file))
         == records[..k] + StoredForms(WrittenRecords(Resumed(Run(w, ops).file[..n], agent', session'), more))
      && Decide(Some(resumed.file), false)
         == Returned(VerifyResult(true, k + resumed.recordCount, GapCount(records[..k]) + resumed.gapCount,
                                  None, None, None, None))
      && resumed.bytesWritten == |resumed.file|
  {
    hide Decide, AllClean, Run, Opened, Kept, GapCount, Resumed, InSync, Readable, WrittenRecords, StoredForms;
    var w := Opened(agentId, sessionId, None, createdMs, ZERO_HASH_32, 0);
    FreshInSync(agentId, sessionId, createdMs);
    CleanRun(w, ops, false, 0, 0);
    var cut := Run(w, ops).file[..n];
    CrashCycle(Run(w, ops), false, 0, 0, n, agent', session', more);
    SyncVerdict(Run(Resumed(cut, agent', session'), more), |Readable(Some(cut))|, GapCount(Readable(Some(cut))));
  }
}
