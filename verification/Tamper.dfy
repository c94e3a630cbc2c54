/** What the hash links and the checksums reveal: the last record binds the whole chain, and a
    change inside a frame stops every reader there. */
module Tamper {
  import opened Bytes
  import opened Crc32
  import opened Parse
  import opened Frames
  import opened Verify
  import opened Accounting

  // ------------------------------------------------------------------- tail binding

  /** The only record of a chain cannot be a later record of another one. */
  lemma FirstIsNotLater(a: seq<bytes>, b: seq<bytes>)
    requires ValidChain(a, false) && ValidChain(b, false)
    requires |a| == 1 && |b| > 1
    ensures a[0] != b[|b| - 1]
  {
    hide ParseEnvelope, ParseGap;
    assert GoodAt(a, 0, false) && GoodAt(b, |b| - 1, false) && GoodAt(b, 0, false);
    RecordAccounts(b, 0, false, 0);
    if |b| > 2 {
      SequencesRise(b, 0, |b| - 2, false);
    }
  }

  /** Two chains that verify and end in the same record are equal, or two different records with
      one hash are at hand: x in the first chain and y in the second. */
  lemma {:induction false} TailBinding(a: seq<bytes>, b: seq<bytes>) returns (x: bytes, y: bytes)
    requires ValidChain(a, false) && ValidChain(b, false)
    requires a != [] && b != [] && a[|a| - 1] == b[|b| - 1]
    ensures a == b || (x in a && y in b && Collision(x, y))
    decreases |a|
  {
    hide GoodAt, ValidChain;
    x, y := [], [];
    if |a| == 1 && |b| > 1 {
      FirstIsNotLater(a, b);
    } else if |b| == 1 && |a| > 1 {
      FirstIsNotLater(b, a);
    } else if |a| > 1 {
      var m, n := |a| - 1, |b| - 1;
      HashOfPrevious(a, m);
      HashOfPrevious(b, n);
      if a[m - 1] != b[n - 1] {
        x, y := a[m - 1], b[n - 1];
      } else {
        PrefixValid(a, m, false);
        PrefixValid(b, n, false);
        x, y := TailBinding(a[..m], b[..n]);
        assert a == a[..m] + [a[m]] && b == b[..n] + [b[n]];
      }
    }
  }

  lemma HashOfPrevious(a: seq<bytes>, m: nat)
    requires ValidChain(a, false) && 0 < m < |a|
    ensures PrevHashOf(a[m]) == Sha256(a[m - 1])
  {
    assert GoodAt(a, m, false);
  }

  /** For files: both verify and end in the same stored record, so everything after the header is
      the same, or a collision is at hand. */
  lemma FileBinding(f: bytes, g: bytes) returns (x: bytes, y: bytes)
    requires Verifies(Some(f), false) && Verifies(Some(g), false)
    requires var a, b := Readable(Some(f)), Readable(Some(g));
      a != [] && b != [] && a[|a| - 1] == b[|b| - 1]
    ensures f[HEADER_SIZE..] == g[HEADER_SIZE..] || Collision(x, y)
  {
    hide ValidChain, Stop;
    x, y := TailBinding(Readable(Some(f)), Readable(Some(g)));
    CleanIff(Body(f));
    CleanIff(Body(g));
  }

  // ----------------------------------------------------------------- damaged frames

  /** A frame whose covered bytes no longer have the checksum stored behind them. */
  lemma BadChecksum(body: bytes, crc: bytes, rest: bytes)
    requires |body| <= MAX_RECORD_SIZE && |crc| == 4 && Crc(U32(|body|) + body) != FromLE(crc)
    ensures ReadFrame((U32(|body|) + body) + crc + rest) == Broken(CrcMismatch)
  {
    hide Crc, LE, FromLE;
    var data := (U32(|body|) + body) + crc + rest;
    U32RoundTrip(|body|);
    assert data[..4] == U32(|body|);
    assert data[..4 + |body|] == U32(|body|) + body;
    assert data[4 + |body|..8 + |body|] == crc;
  }

  /** Up to four neighbouring bytes of the body are changed. */
  lemma BurstRejected(before: bytes, v: bytes, w: bytes, after: bytes, rest: bytes)
    requires |v| == |w| <= 4 && v != w && |before + v + after| <= MAX_RECORD_SIZE
    ensures var stored, changed := before + v + after, before + w + after;
      ReadFrame((U32(|stored|) + changed) + U32(Crc(U32(|stored|) + stored)) + rest) == Broken(CrcMismatch)
  {
    hide Crc, LE, FromLE, ReadFrame;
    var stored, changed := before + v + after, before + w + after;
    var length := U32(|stored|);
    assert length + stored == (length + before) + v + after;
    assert length + changed == (length + before) + w + after;
    BurstDetected(length + before, v, w, after);
    U32RoundTrip(Crc(length + stored));
    BadChecksum(changed, U32(Crc(length + stored)), rest);
  }

  /** The stored checksum itself is changed. */
  lemma ChecksumRejected(stored: bytes, crc: bytes, rest: bytes)
    requires |stored| <= MAX_RECORD_SIZE && |crc| == 4 && crc != U32(Crc(U32(|stored|) + stored))
    ensures ReadFrame((U32(|stored|) + stored) + crc + rest) == Broken(CrcMismatch)
  {
    hide Crc, LE, FromLE, ReadFrame;
    FromLERoundTrip(crc);
    BadChecksum(stored, crc, rest);
  }

  /** One byte behind the length field of a frame is changed. */
  lemma ByteRejected(stored: bytes, j: nat, x: byte, rest: bytes)
    requires |stored| <= MAX_RECORD_SIZE && 4 <= j < |Frame(stored)| && x != Frame(stored)[j]
    ensures ReadFrame(Frame(stored)[j := x] + rest) == Broken(CrcMismatch)
  {
    hide Crc, LE, FromLE, ReadFrame;
    var length, crc := U32(|stored|), U32(Crc(U32(|stored|) + stored));
    if j < 4 + |stored| {
      var i := j - 4;
      assert stored == stored[..i] + [stored[i]] + stored[i + 1..];
      BurstRejected(stored[..i], [stored[i]], [x], stored[i + 1..], rest);
      assert Frame(stored)[j := x] + rest == (length + (stored[..i] + [x] + stored[i + 1..])) + crc + rest;
    } else {
      var i := j - 4 - |stored|;
      assert crc[i := x][i] != crc[i];
      ChecksumRejected(stored, crc[i := x], rest);
      assert Frame(stored)[j := x] + rest == (length + stored) + crc[i := x] + rest;
    }
  }

  // ------------------------------------------------------------------- damaged files

  lemma BrokenStops(data: bytes)
    requires ReadFrame(data).Broken?
    ensures FramesOf(data) == [] && Tail(data) == data && Stop(data) == Some(ReadFrame(data).reason)
  {
    hide ReadFrame;
  }

  /** A file whose frame k has been replaced by bytes that do not read as a frame: readers yield
      the frames before it, and verify_chain rejects the file after checking those. */
  lemma ReadersStopAt(file: bytes, records: seq<bytes>, k: nat, bad: bytes, anyStart: bool)
    requires GoodHeader(file) && AllSmall(records) && k < |records|
    requires ReadFrame(bad) == Broken(CrcMismatch)
    requires Body(file) == EncodeFrames(records[..k]) + bad
    ensures Readable(Some(file)) == records[..k] && Stop(Body(file)) == Some(CrcMismatch)
    ensures ValidChain(records, anyStart) ==>
      Decide(Some(file), anyStart) == EndResult(records[..k], Some(Corrupt(CrcMismatch, |file| - |bad|)))
  {
    hide ReadFrame, ValidChain, EncodeFrames, FramesOf, Tail, Decide, EndResult;
    assert FramesOf(Body(file)) == records[..k] && Tail(Body(file)) == bad by {
      FramesOfEncoded(records[..k], bad);
      BrokenStops(bad);
      assert records[..k] + [] == records[..k];
    }
    hide AllSmall;
    if ValidChain(records, anyStart) {
      PrefixValid(records, k, anyStart);
      StoppedVerdict(Some(file), anyStart);
    }
  }

  lemma Layout(records: seq<bytes>, k: nat)
    requires k < |records|
    ensures EncodeFrames(records)
         == EncodeFrames(records[..k]) + (Frame(records[k]) + EncodeFrames(records[k + 1..]))
  {
    hide Frame;
    assert records == records[..k] + records[k..] && records[k..][1..] == records[k + 1..];
    EncodeFramesAppend(records[..k], records[k..]);
  }

  lemma PutAt(h: bytes, front: bytes, frame: bytes, back: bytes, j: nat, x: byte)
    requires j < |frame|
    ensures (h + (front + (frame + back)))[|h| + |front| + j := x] == h + (front + (frame[j := x] + back))
  {
  }

  /** Changing any one byte of a frame behind its length field makes every reader stop at that
      frame; verify_chain then rejects the file, with exactly the frames before it checked. */
  lemma ByteFlipDetected(file: bytes, records: seq<bytes>, k: nat, j: nat, x: byte, anyStart: bool)
    requires GoodHeader(file) && AllSmall(records) && Body(file) == EncodeFrames(records)
    requires k < |records| && 4 <= j < |Frame(records[k])| && x != Frame(records[k])[j]
    ensures var pos := HEADER_SIZE + |EncodeFrames(records[..k])| + j;
      && pos < |file|
      && Readable(Some(file[pos := x])) == records[..k]
      && Stop(Body(file[pos := x])) == Some(CrcMismatch)
      && (ValidChain(records, anyStart) ==>
            var v := Decide(Some(file[pos := x]), anyStart);
            v.Returned? && !v.result.valid && v.result.recordsChecked == k && v.result.gaps == GapCount(records[..k]))
  {
    hide ReadFrame, Frame, ValidChain, Stop, Readable, Decide;
    var header, front, back := file[..HEADER_SIZE], EncodeFrames(records[..k]), EncodeFrames(records[k + 1..]);
    var bad := Frame(records[k])[j := x] + back;
    Layout(records, k);
    ByteRejected(records[k], j, x, back);
    hide EncodeFrames, AllSmall, GapCount;
    assert file == header + Body(file);
    PutAt(header, front, Frame(records[k]), back, j, x);
    var damaged := header + (front + bad);
    assert file[HEADER_SIZE + |front| + j := x] == damaged;
    assert Body(damaged) == front + bad && damaged[..4] == header[..4] == file[..4];
    ReadersStopAt(damaged, records, k, bad, anyStart);
  }

  /** Replacing v by w inside a file laid out as header, frames, one frame, frames. */
  lemma Splice(h: bytes, front: bytes, length: bytes, before: bytes, v: bytes, w: bytes, after: bytes, back: bytes,
               file: bytes)
    requires file == h + (front + ((length + (before + v + after)) + back))
    ensures var i := |h| + |front| + |length| + |before|;
      i + |v| <= |file|
        && file[..i] + w + file[i + |v|..] == h + (front + ((length + (before + w + after)) + back))
  {
    var p := h + front + length + before;
    assert file == p + v + (after + back);
  }

  /** The same for any change confined to four neighbouring bytes of a record. */
  lemma BurstFlipDetected(file: bytes, records: seq<bytes>, k: nat, before: bytes, v: bytes, w: bytes, after: bytes,
                          anyStart: bool)
    requires GoodHeader(file) && AllSmall(records) && Body(file) == EncodeFrames(records)
    requires k < |records| && records[k] == before + v + after && |v| == |w| <= 4 && v != w
    ensures var i := HEADER_SIZE + |EncodeFrames(records[..k])| + 4 + |before|;
      i + |v| <= |file|
        && var damaged := file[..i] + w + file[i + |v|..];
        && GoodHeader(damaged) && Readable(Some(damaged)) == records[..k] && Stop(Body(damaged)) == Some(CrcMismatch)
        && (ValidChain(records, anyStart) ==>
              var verdict := Decide(Some(damaged), anyStart);
              verdict.Returned? && !verdict.result.valid && verdict.result.recordsChecked == k
                && verdict.result.gaps == GapCount(records[..k]))
  {
    hide ReadFrame, GoodAt, FaultOf, ValidChain, Stop, Tail, FramesOf, Decide, Crc, LE, FromLE, Readable;
    var front, rest, header := EncodeFrames(records[..k]), EncodeFrames(records[k + 1..]), file[..HEADER_SIZE];
    Layout(records, k);
    hide EncodeFrames, AllSmall, GapCount;
    var length, crc := U32(|records[k]|), U32(Crc(U32(|records[k]|) + records[k]));
    var changed := before + w + after;
    Associate(length + records[k], crc, rest);
    Associate(length + changed, crc, rest);
    assert file == header + Body(file);
    Splice(header, front, length, before, v, w, after, crc + rest, file);
    var damaged := header + (front + ((length + changed) + (crc + rest)));
    assert Body(damaged) == front + ((length + changed) + (crc + rest));
    BurstRejected(before, v, w, after, rest);
    ReadersStopAt(damaged, records, k, (length + changed) + (crc + rest), anyStart);
  }

  // ----------------------------------------------------------------------- cut files

  /** What the reader finds in the first m bytes of a frame. */
  lemma PartialReason(stored: bytes, m: nat)
    requires 0 < m < |Frame(stored)| && |stored| <= MAX_RECORD_SIZE
    ensures ReadFrame(Frame(stored)[..m])
         == Broken(if m < 4 then TruncatedLength else if m < 4 + |stored| then TruncatedBody else MissingCrc)
    ensures m >= 4 ==> FromLE(Frame(stored)[..m][..4]) == |stored|
  {
    hide Crc, LE, FromLE;
    if m >= 4 {
      U32RoundTrip(|stored|);
      assert Frame(stored)[..m][..4] == U32(|stored|);
    }
  }

  lemma CutFrame(records: seq<bytes>, n: nat)
    requires AllSmall(records) && n <= |EncodeFrames(records)|
    ensures var k := Kept(records, n); var m := n - |EncodeFrames(records[..k])|; var cut := EncodeFrames(records)[..n];
      && (m > 0 ==> k < |records| && m < |Frame(records[k])|)
      && Tail(cut) == if m == 0 then [] else Frame(records[k])[..m]
  {
    hide Frame, FramesOf, Tail, Kept;
    var k, cut := Kept(records, n), EncodeFrames(records)[..n];
    var front, m := EncodeFrames(records[..k]), n - |EncodeFrames(records[..k])|;
    FramesOfCut(records, n);
    EncodedOfFrames(cut);
    assert cut == front + Tail(cut);
    assert Tail(cut) == cut[|front|..];
    if k == |records| {
      assert records[..k] == records;
    } else {
      Layout(records, k);
      assert cut == front + Frame(records[k])[..m];
    }
  }

  /** What readers report for a file of whole frames cut at any byte behind the header: nothing at the end of
      a frame, and otherwise which part of the frame is cut short, with the offset where that part starts. */
  lemma CutReported(f: bytes, records: seq<bytes>, n: nat)
    requires GoodHeader(f) && Body(f) == EncodeFrames(records) && AllSmall(records) && HEADER_SIZE <= n <= |f|
    ensures var k := Kept(records, n - HEADER_SIZE);
      var start, error := HEADER_SIZE + |EncodeFrames(records[..k])|, ReaderError(Some(f[..n]));
      && start <= n
      && (n == start ==> error == None)
      && (n > start ==>
            k < |records|
            && error == Some(
              if n < start + 4 then Corrupt(TruncatedLength, start)
              else if n < start + 4 + |records[k]| then Corrupt(TruncatedBody, start + 4)
              else Corrupt(MissingCrc, start + 4 + |records[k]|)))
  {
    hide Frame, FramesOf, EncodeFrames, Kept, Tail, FromLE, ReadFrame;
    var body, k := EncodeFrames(records)[..n - HEADER_SIZE], Kept(records, n - HEADER_SIZE);
    assert Body(f[..n]) == body && f[..n][..4] == f[..4];
    CutFrame(records, n - HEADER_SIZE);
    var m := n - HEADER_SIZE - |EncodeFrames(records[..k])|;
    if m > 0 {
      PartialReason(records[k], m);
    } else {
      NothingLeft();
    }
  }

  lemma NothingLeft()
    ensures ReadFrame([]) == AtEnd
  {
  }
}
