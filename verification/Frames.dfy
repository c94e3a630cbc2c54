/** The file format: a 16-byte header, then frames `[length][stored bytes][CRC-32]`.

    ReadFrame, FramesOf, Tail and Stop say what a byte string holds; the scanners of chain.py,
    recovery.py, cli/main.py and chain.ts are proved against them. */
module Frames {
  import opened Bytes
  import opened Crc32

  const MAGIC: bytes := [0x41, 0x48, 0x50, 0x00]
  const FILE_VERSION := 1
  const HEADER_SIZE: nat := 16
  const MAX_RECORD_SIZE: nat := 1048576

  /** The header that _write_header puts in front of a new file. */
  function Header(createdMs: nat): (h: bytes)
    ensures |h| == HEADER_SIZE
  {
    MAGIC + U32(FILE_VERSION) + U64(createdMs)
  }

  /** The reader's own test of a header; it looks at the magic bytes only. */
  predicate GoodHeader(file: bytes) {
    |file| >= HEADER_SIZE && file[..4] == MAGIC
  }

  // --------------------------------------------------------------- one frame

  /** The frame the writer appends for one record. */
  function Frame(stored: bytes): (f: bytes)
    ensures |f| == |stored| + 8
  {
    (U32(|stored|) + stored) + U32(Crc(U32(|stored|) + stored))
  }

  /** Why reading stopped before the end of the file. */
  datatype Reason = TruncatedLength | Oversized | TruncatedBody | MissingCrc | CrcMismatch

  datatype FrameRead =
    | AtEnd
    | Broken(reason: Reason)
    | Whole(stored: bytes, rest: bytes)

  /** What the reader finds at the head of the unread bytes. */
  function ReadFrame(data: bytes): (r: FrameRead)
    ensures r.Whole? ==> |r.stored| <= MAX_RECORD_SIZE && |data| == |r.stored| + 8 + |r.rest|
    ensures r.AtEnd? <==> data == []
  {
    if data == [] then AtEnd
    else if |data| < 4 then Broken(TruncatedLength)
    else
      var length := FromLE(data[..4]);
      if length > MAX_RECORD_SIZE then Broken(Oversized)
      else if |data| < 4 + length then Broken(TruncatedBody)
      else if |data| < 4 + length + 4 then Broken(MissingCrc)
      else if Crc(data[..4 + length]) != FromLE(data[4 + length..4 + length + 4]) then Broken(CrcMismatch)
      else Whole(data[4..4 + length], data[4 + length + 4..])
  }

  /** The records in front of the first place where no whole frame lies. */
  function FramesOf(data: bytes): (records: seq<bytes>)
    decreases |data|
  {
    match ReadFrame(data)
    case Whole(stored, rest) => [stored] + FramesOf(rest)
    case AtEnd => []
    case Broken(_) => []
  }

  /** What follows those frames. */
  function Tail(data: bytes): (rest: bytes)
    ensures |rest| <= |data|
    decreases |data|
  {
    match ReadFrame(data)
    case Whole(_, rest) => Tail(rest)
    case AtEnd => data
    case Broken(_) => data
  }

  /** Why reading stopped; None at a clean end of file. */
  function Stop(data: bytes): Option<Reason> {
    match ReadFrame(Tail(data))
    case Broken(reason) => Some(reason)
    case AtEnd => None
    case Whole(_, _) => None
  }

  /** The body of a file holding these records. */
  function EncodeFrames(records: seq<bytes>): bytes {
    if records == [] then [] else Frame(records[0]) + EncodeFrames(records[1..])
  }

  predicate AllSmall(records: seq<bytes>) {
    forall i :: 0 <= i < |records| ==> |records[i]| <= MAX_RECORD_SIZE
  }

  // ------------------------------------------------- frames and their records

  lemma U32RoundTrip(v: nat)
    requires v <= MAX_UINT32
    ensures FromLE(U32(v)) == v
  {
    Widths();
    LERoundTrip(v, 4);
  }

  /** A written frame is read back, whatever follows it. */
  lemma ReadsFrame(stored: bytes, rest: bytes)
    requires |stored| <= MAX_RECORD_SIZE
    ensures ReadFrame(Frame(stored) + rest) == Whole(stored, rest)
  {
    hide Crc, LE, FromLE;
    var data, covered := Frame(stored) + rest, U32(|stored|) + stored;
    U32RoundTrip(|stored|);
    U32RoundTrip(Crc(covered));
    assert data[..4] == U32(|stored|);
    assert data[..4 + |stored|] == covered;
    assert data[4..4 + |stored|] == stored;
    assert data[4 + |stored|..8 + |stored|] == U32(Crc(covered));
    assert data[8 + |stored|..] == rest;
  }

  /** And only a written frame is read as whole. */
  lemma WholeIsFrame(data: bytes)
    requires ReadFrame(data).Whole?
    ensures data == Frame(ReadFrame(data).stored) + ReadFrame(data).rest
  {
    hide Crc, LE, FromLE;
    var length := FromLE(data[..4]);
    var stored, rest := ReadFrame(data).stored, ReadFrame(data).rest;
    FromLERoundTrip(data[..4]);
    FromLERoundTrip(data[4 + length..4 + length + 4]);
    assert data[..4] + stored == data[..4 + length];
    assert data == (data[..4 + length] + data[4 + length..4 + length + 4]) + rest;
  }

  lemma FramesCons(stored: bytes, rest: bytes)
    requires |stored| <= MAX_RECORD_SIZE
    ensures FramesOf(Frame(stored) + rest) == [stored] + FramesOf(rest)
    ensures Tail(Frame(stored) + rest) == Tail(rest)
  {
    ReadsFrame(stored, rest);
  }

  /** Reading gives back exactly the records written, then goes on with what follows. */
  lemma {:induction false} FramesOfEncoded(records: seq<bytes>, rest: bytes)
    requires AllSmall(records)
    ensures FramesOf(EncodeFrames(records) + rest) == records + FramesOf(rest)
    ensures Tail(EncodeFrames(records) + rest) == Tail(rest)
  {
    hide ReadFrame, Frame, FramesOf, Tail;
    if records == [] {
      assert EncodeFrames(records) + rest == rest;
    } else {
      var first, others := records[0], records[1..];
      assert EncodeFrames(records) + rest == Frame(first) + (EncodeFrames(others) + rest) by {
        Associate(Frame(first), EncodeFrames(others), rest);
      }
      FramesCons(first, EncodeFrames(others) + rest);
      FramesOfEncoded(others, rest);
      assert records == [first] + others;
    }
  }

  /** Any byte string is the frames read from it followed by its tail. */
  lemma {:induction false} EncodedOfFrames(data: bytes)
    ensures data == EncodeFrames(FramesOf(data)) + Tail(data)
    ensures AllSmall(FramesOf(data))
    ensures !ReadFrame(Tail(data)).Whole?
    decreases |data|
  {
    match ReadFrame(data) {
      case Whole(stored, rest) =>
        WholeIsFrame(data);
        EncodedOfFrames(rest);
        assert FramesOf(data)[1..] == FramesOf(rest);
        Associate(Frame(stored), EncodeFrames(FramesOf(rest)), Tail(rest));
      case AtEnd =>
      case Broken(_) =>
    }
  }

  lemma {:induction false} EncodeFramesAppend(a: seq<bytes>, b: seq<bytes>)
    ensures EncodeFrames(a + b) == EncodeFrames(a) + EncodeFrames(b)
  {
    if a == [] {
      assert a + b == b;
    } else {
      assert (a + b)[0] == a[0] && (a + b)[1..] == a[1..] + b;
      EncodeFramesAppend(a[1..], b);
      Associate(Frame(a[0]), EncodeFrames(a[1..]), EncodeFrames(b));
    }
  }

  /** Reading stops cleanly exactly on encoded records. */
  lemma CleanIff(data: bytes)
    ensures Stop(data) == None <==> data == EncodeFrames(FramesOf(data))
  {
    EncodedOfFrames(data);
    if Stop(data) == None {
      assert Tail(data) == [];
      assert EncodeFrames(FramesOf(data)) + [] == EncodeFrames(FramesOf(data));
    } else {
      assert Tail(data) != [];
      assert |data| == |EncodeFrames(FramesOf(data))| + |Tail(data)|;
    }
  }

  // --------------------------------------------------- files that grow or are cut

  /** More bytes behind a whole frame do not change it. */
  lemma FrameGrows(data: bytes, more: bytes)
    requires ReadFrame(data).Whole?
    ensures ReadFrame(data + more) == Whole(ReadFrame(data).stored, ReadFrame(data).rest + more)
  {
    hide ReadFrame, Frame;
    var stored, rest := ReadFrame(data).stored, ReadFrame(data).rest;
    assert |stored| <= MAX_RECORD_SIZE;
    WholeIsFrame(data);
    Associate(Frame(stored), rest, more);
    ReadsFrame(stored, rest + more);
  }

  /** Scanning a file that has grown is scanning it before, then going on from the tail. */
  lemma {:induction false} FramesGrow(data: bytes, more: bytes)
    ensures FramesOf(data + more) == FramesOf(data) + FramesOf(Tail(data) + more)
    ensures Tail(data + more) == Tail(Tail(data) + more)
    decreases |data|
  {
    hide ReadFrame;
    match ReadFrame(data) {
      case Whole(stored, rest) =>
        FrameGrows(data, more);
        FramesGrow(rest, more);
      case AtEnd =>
      case Broken(_) =>
    }
  }

  /** How many leading frames lie wholly within n bytes. */
  function Kept(records: seq<bytes>, n: nat): (k: nat)
    ensures k <= |records|
    ensures |EncodeFrames(records[..k])| <= n
    ensures k < |records| ==> n < |EncodeFrames(records[..k])| + |Frame(records[k])|
  {
    if records == [] then 0
    else if |Frame(records[0])| > n then 0
    else
      var k := Kept(records[1..], n - |Frame(records[0])|);
      assert records[..k + 1][1..] == records[1..][..k];
      k + 1
  }

  /** A proper prefix of a frame is never read as whole. */
  lemma PartialFrame(stored: bytes, n: nat)
    requires n < |Frame(stored)| && |stored| <= MAX_RECORD_SIZE
    ensures !ReadFrame(Frame(stored)[..n]).Whole?
  {
    hide Crc, FromLE;
    if n >= 4 {
      U32RoundTrip(|stored|);
      assert Frame(stored)[..n][..4] == U32(|stored|);
    }
  }

  lemma NoFrame(data: bytes)
    requires !ReadFrame(data).Whole?
    ensures FramesOf(data) == [] && Tail(data) == data
  {
    hide ReadFrame;
  }

  /** A file of frames cut anywhere is read back as the frames that lie wholly within the cut. */
  lemma {:induction false} FramesOfCut(records: seq<bytes>, n: nat)
    requires AllSmall(records) && n <= |EncodeFrames(records)|
    ensures FramesOf(EncodeFrames(records)[..n]) == records[..Kept(records, n)]
    ensures |EncodeFrames(records[..Kept(records, n)])| + |Tail(EncodeFrames(records)[..n])| == n
  {
    hide ReadFrame, Frame, FramesOf, Tail;
    var data := EncodeFrames(records)[..n];
    if records == [] {
      NoFrame(data);
    } else {
      var first, others := Frame(records[0]), EncodeFrames(records[1..]);
      if |first| > n {
        assert data == first[..n];
        PartialFrame(records[0], n);
        NoFrame(data);
      } else {
        var k := Kept(records[1..], n - |first|);
        assert data == first + others[..n - |first|];
        FramesCons(records[0], others[..n - |first|]);
        FramesOfCut(records[1..], n - |first|);
        assert records[..k + 1][0] == records[0] && records[..k + 1][1..] == records[1..][..k];
      }
    }
  }

  // ------------------------------------------------------- reading from a file

  /** f.read(n) at a position. */
  function Read(file: bytes, pos: nat, n: nat): (r: bytes)
    requires pos <= |file|
    ensures |r| == if pos + n <= |file| then n else |file| - pos
  {
    if pos + n <= |file| then file[pos..pos + n] else file[pos..]
  }

  /** The bytes after the header. */
  function Body(file: bytes): bytes
    requires |file| >= HEADER_SIZE
  {
    file[HEADER_SIZE..]
  }

  /** The reads a scanner makes at an offset, and the frame they show. */
  lemma ReadFrameAt(file: bytes, offset: nat)
    requires offset <= |file|
    ensures var r, first := ReadFrame(file[offset..]), Read(file, offset, 4);
      if |first| == 0 then r == AtEnd
      else if |first| < 4 then r == Broken(TruncatedLength)
      else
        var length := FromLE(first);
        var stored := if offset + 4 <= |file| then Read(file, offset + 4, length) else [];
        if length > MAX_RECORD_SIZE then r == Broken(Oversized)
        else if |stored| < length then r == Broken(TruncatedBody)
        else
          var crc := if offset + 4 + length <= |file| then Read(file, offset + 4 + length, 4) else [];
          if |crc| < 4 then r == Broken(MissingCrc)
          else if Crc(first + stored) != FromLE(crc) then r == Broken(CrcMismatch)
          else offset + 8 + length <= |file| && r == Whole(stored, file[offset + 8 + length..])
  {
    hide Crc, FromLE;
    var data := file[offset..];
    if |data| >= 4 {
      assert data[..4] == Read(file, offset, 4);
      var length := FromLE(data[..4]);
      if length <= MAX_RECORD_SIZE && |data| >= 8 + length {
        assert data[4..4 + length] == Read(file, offset + 4, length);
        assert data[4 + length..4 + length + 4] == Read(file, offset + 4 + length, 4);
        assert data[..4 + length] == data[..4] + data[4..4 + length];
        assert data[8 + length..] == file[offset + 8 + length..];
      }
    }
  }

  /** The scan of what lies at an offset, one frame at a time. */
  lemma ScanStep(file: bytes, offset: nat)
    requires offset <= |file|
    ensures match ReadFrame(file[offset..])
      case Whole(stored, rest) =>
        FramesOf(file[offset..]) == [stored] + FramesOf(rest) && Tail(file[offset..]) == Tail(rest)
      case _ => FramesOf(file[offset..]) == [] && Tail(file[offset..]) == file[offset..]
  {
    hide ReadFrame;
  }

  /** The same behind the frames read before. */
  lemma ScanOn(file: bytes, start: nat, frames: seq<bytes>, offset: nat)
    requires start <= |file| && offset <= |file|
    requires FramesOf(file[start..]) == frames + FramesOf(file[offset..]) && Tail(file[start..]) == Tail(file[offset..])
    ensures match ReadFrame(file[offset..])
      case Whole(stored, rest) =>
        FramesOf(file[start..]) == (frames + [stored]) + FramesOf(rest) && Tail(file[start..]) == Tail(rest)
      case _ => FramesOf(file[start..]) == frames && Tail(file[start..]) == file[offset..]
  {
    hide ReadFrame, FramesOf, Tail;
    ScanStep(file, offset);
  }

  /** What ChainReader.iter_records reports through last_iteration_error. */
  datatype ReadError =
    | NoFile
    | TruncatedHeader
    | BadMagic
    | Corrupt(reason: Reason, offset: nat)

  /** The offset named for a fault in the frame at this offset: that of the part that is missing. */
  function ErrorOffset(reason: Reason, offset: nat, data: bytes): nat {
    match reason
    case TruncatedBody => offset + 4
    case MissingCrc => offset + 4 + if |data| >= 4 then FromLE(data[..4]) else 0
    case _ => offset
  }

  /** iter_records: the records yielded, and the error left behind when the iterator is exhausted. */
  method IterRecords(file: Option<bytes>) returns (records: seq<bytes>, error: Option<ReadError>)
    ensures file.None? ==> records == [] && error == Some(NoFile)
    ensures file.Some? && |file.value| < HEADER_SIZE ==> records == [] && error == Some(TruncatedHeader)
    ensures file.Some? && |file.value| >= HEADER_SIZE && !GoodHeader(file.value) ==>
      records == [] && error == Some(BadMagic)
    ensures file.Some? && GoodHeader(file.value) ==>
      var body := Body(file.value);
      && records == FramesOf(body)
      && error == match Stop(body)
                  case None => None
                  case Some(reason) =>
                    Some(Corrupt(reason, ErrorOffset(reason, |file.value| - |Tail(body)|, Tail(body))))
  {
    hide Crc, FromLE, ReadFrame, FramesOf, Tail;
    if file.None? {
      return [], Some(NoFile);
    }
    var f := file.value;
    var header := Read(f, 0, HEADER_SIZE);
    if |header| < HEADER_SIZE {
      return [], Some(TruncatedHeader);
    }
    if header[..4] != MAGIC {
      return [], Some(BadMagic);
    }
    var offset := HEADER_SIZE;
    records := [];
    while true
      invariant HEADER_SIZE <= offset <= |f|
      invariant FramesOf(Body(f)) == records + FramesOf(f[offset..])
      invariant Tail(Body(f)) == Tail(f[offset..])
      decreases |f| - offset
    {
      ReadFrameAt(f, offset);
      ScanStep(f, offset);
      var lengthBytes := Read(f, offset, 4);
      if |lengthBytes| == 0 {
        return records, None;
      }
      if |lengthBytes| < 4 {
        return records, Some(Corrupt(TruncatedLength, offset));
      }
      var length := FromLE(lengthBytes);
      if length > MAX_RECORD_SIZE {
        return records, Some(Corrupt(Oversized, offset));
      }
      var stored := Read(f, offset + 4, length);
      if |stored| < length {
        return records, Some(Corrupt(TruncatedBody, offset + 4));
      }
      var crcBytes := Read(f, offset + 4 + length, 4);
      if |crcBytes| < 4 {
        assert f[offset..][..4] == lengthBytes;
        return records, Some(Corrupt(MissingCrc, offset + 4 + length));
      }
      if Crc(lengthBytes + stored) != FromLE(crcBytes) {
        return records, Some(Corrupt(CrcMismatch, offset));
      }
      offset := offset + 4 + length + 4;
      records := records + [stored];
    }
  }

  /** _read_frames_from of cli/main.py: the frames from an offset on, and the offset behind them. */
  method ReadFramesFrom(file: bytes, start: nat) returns (frames: seq<bytes>, offset: nat)
    requires start <= |file|
    ensures frames == FramesOf(file[start..])
    ensures offset == |file| - |Tail(file[start..])|
  {
    hide Crc, FromLE, ReadFrame, FramesOf, Tail, Read;
    frames, offset := [], start;
    while true
      invariant start <= offset <= |file|
      invariant FramesOf(file[start..]) == frames + FramesOf(file[offset..])
      invariant Tail(file[start..]) == Tail(file[offset..])
      decreases |file| - offset
    {
      ReadFrameAt(file, offset);
      ScanOn(file, start, frames, offset);
      var lengthBytes := Read(file, offset, 4);
      if |lengthBytes| < 4 {
        break;
      }
      var length := FromLE(lengthBytes);
      if length > MAX_RECORD_SIZE {
        break;
      }
      var stored := Read(file, offset + 4, length);
      if |stored| < length {
        break;
      }
      var crcBytes := Read(file, offset + 4 + length, 4);
      if |crcBytes| < 4 {
        break;
      }
      if Crc(lengthBytes + stored) != FromLE(crcBytes) {
        break;
      }
      frames := frames + [stored];
      offset := offset + 4 + length + 4;
    }
  }

  /** iterRecords of chain.ts, which stops silently on any fault. */
  method IterRecordsTs(file: Option<bytes>, table: array<word>) returns (records: seq<bytes>)
    requires IsTable(table[..])
    ensures records == if file.Some? && GoodHeader(file.value) then FramesOf(Body(file.value)) else []
  {
    hide Crc, FromLE, ReadFrame, FramesOf, Tail;
    records := [];
    if file.None? {
      return;
    }
    var f := file.value;
    var header := Read(f, 0, HEADER_SIZE);
    if |header| < HEADER_SIZE {
      return;
    }
    if header[..4] != MAGIC {
      return;
    }
    var offset := HEADER_SIZE;
    while true
      invariant HEADER_SIZE <= offset <= |f|
      invariant FramesOf(Body(f)) == records + FramesOf(f[offset..])
      decreases |f| - offset
    {
      ReadFrameAt(f, offset);
      ScanStep(f, offset);
      var lengthBuf := Read(f, offset, 4);
      if |lengthBuf| < 4 {
        break;
      }
      var length := FromLE(lengthBuf);
      if length > MAX_RECORD_SIZE {
        break;
      }
      var stored := Read(f, offset + 4, length);
      if |stored| < length {
        break;
      }
      var crcBuf := Read(f, offset + 4 + length, 4);
      if |crcBuf| < 4 {
        break;
      }
      var actual := Compute(table, lengthBuf + stored);
      if actual != FromLE(crcBuf) {
        break;
      }
      records := records + [stored];
      offset := offset + 4 + length + 4;
    }
  }
}
