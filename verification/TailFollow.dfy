/** The live tail of the command line (ahp/cli/main.py, cmd_tail): a file is read in polls while it
    is being written. */
module TailFollow {
  import opened Bytes
  import opened Frames

  /** One poll: the file cannot be examined, or its size is taken and its bytes are read after
      that, possibly having grown in between. */
  datatype Poll = Unavailable | Seen(size: nat, content: bytes)

  /** Where the next read starts: a file that has shrunk is read from its first frame. */
  function Start(offset: nat, size: nat): nat {
    if size < offset then HEADER_SIZE else offset
  }

  /** The frames a poll reads and the offset behind them. */
  function PollStep(offset: nat, poll: Poll): (seq<bytes>, nat) {
    match poll
    case Unavailable => ([], offset)
    case Seen(size, content) =>
      var start := Start(offset, size);
      if size <= start || |content| < start then ([], start)
      else (FramesOf(content[start..]), |content| - |Tail(content[start..])|)
  }

  /** All frames read over a run of polls, and the final offset. */
  function Follow(offset: nat, polls: seq<Poll>): (seq<bytes>, nat)
    decreases |polls|
  {
    if polls == [] then ([], offset)
    else
      var (frames, next) := PollStep(offset, polls[0]);
      var (later, final) := Follow(next, polls[1..]);
      (frames + later, final)
  }

  /** The offset behind the last whole frame of a file. */
  function ReadOffset(file: bytes): (offset: nat)
    requires |file| >= HEADER_SIZE
    ensures HEADER_SIZE <= offset <= |file|
  {
    |file| - |Tail(Body(file))|
  }

  lemma FollowOn(offset: nat, polls: seq<Poll>, i: nat)
    requires i < |polls|
    ensures var (frames, next) := PollStep(offset, polls[i]);
      Follow(offset, polls[i..]) == (frames + Follow(next, polls[i + 1..]).0, Follow(next, polls[i + 1..]).1)
  {
    hide PollStep;
    assert polls[i..][0] == polls[i] && polls[i..][1..] == polls[i + 1..];
  }

  lemma FollowEnd(offset: nat)
    ensures Follow(offset, []) == ([], offset)
  {
  }

  /** The loop over the polls. */
  method PollLoop(start: nat, polls: seq<Poll>) returns (frames: seq<bytes>, endOffset: nat)
    ensures frames == Follow(start, polls).0 && endOffset == Follow(start, polls).1
  {
    hide FramesOf, Frames.Tail, Follow;
    frames, endOffset := [], start;
    for i := 0 to |polls|
      invariant Follow(start, polls).1 == Follow(endOffset, polls[i..]).1
      invariant Follow(start, polls).0 == frames + Follow(endOffset, polls[i..]).0
    {
      FollowOn(endOffset, polls, i);
      match polls[i] {
        case Unavailable =>
        case Seen(fileSize, content) =>
          if fileSize < endOffset {
            endOffset := HEADER_SIZE;
          }
          if fileSize > endOffset && endOffset <= |content| {
            var newFrames;
            newFrames, endOffset := ReadFramesFrom(content, endOffset);
            frames := frames + newFrames;
          }
      }
    }
    FollowEnd(endOffset);
    assert polls[|polls|..] == [];
  }

  /** What is read before the first poll: of a file that has shrunk below its header, nothing. */
  function FirstRead(first: bytes): (seq<bytes>, nat) {
    if |first| < HEADER_SIZE then ([], HEADER_SIZE) else (FramesOf(Body(first)), ReadOffset(first))
  }

  /** The frames that the tail has read when the polls are over and the offset behind them; None where
      it exits because the file does not begin with the magic bytes. */
  method CmdTail(first: bytes, polls: seq<Poll>) returns (tailed: Option<(seq<bytes>, nat)>)
    ensures tailed.Some? <==> |first| >= 4 && first[..4] == MAGIC
    ensures tailed.Some? ==>
      var (frames, offset) := FirstRead(first); var (later, end) := Follow(offset, polls);
      tailed.value == (frames + later, end)
  {
    hide FramesOf, Frames.Tail;
    if |first| < 4 || first[..4] != MAGIC {
      return None;
    }
    var frames, endOffset := [], HEADER_SIZE;
    if |first| >= HEADER_SIZE {
      frames, endOffset := ReadFramesFrom(first, HEADER_SIZE);
    }
    var later, end := PollLoop(endOffset, polls);
    return Some((frames + later, end));
  }

  // ---------------------------------------------------------------- growing files

  /** The file only grows: each poll sees at least what was there when the one before it read. */
  predicate AppendOnly(before: bytes, polls: seq<Poll>)
    decreases |polls|
  {
    polls == [] ||
    (match polls[0]
     case Unavailable => AppendOnly(before, polls[1..])
     case Seen(size, content) =>
       before <= content && |before| <= size <= |content| && AppendOnly(content, polls[1..]))
  }

  /** The bytes that the polls have taken into account: the content of the last poll that read. */
  function SeenSoFar(seen: bytes, polls: seq<Poll>): (t: bytes)
    requires |seen| >= HEADER_SIZE
    ensures |t| >= HEADER_SIZE
    decreases |polls|
  {
    if polls == [] then seen
    else
      match polls[0]
      case Unavailable => SeenSoFar(seen, polls[1..])
      case Seen(size, content) =>
        if size > ReadOffset(seen) && |content| >= HEADER_SIZE then SeenSoFar(content, polls[1..])
        else SeenSoFar(seen, polls[1..])
  }

  lemma ReadOn(seen: bytes, content: bytes)
    requires HEADER_SIZE <= |seen| && seen <= content
    ensures FramesOf(Body(content)) == FramesOf(Body(seen)) + FramesOf(content[ReadOffset(seen)..])
    ensures ReadOffset(content) == |content| - |Tail(content[ReadOffset(seen)..])|
  {
    hide ReadFrame, Frame, FramesOf, Frames.Tail;
    var offset := ReadOffset(seen);
    var more := content[|seen|..];
    EncodedOfFrames(Body(seen));
    FramesGrow(Body(seen), more);
    assert Body(content) == Body(seen) + more;
    assert content[offset..] == Tail(Body(seen)) + more;
  }

  lemma PollReads(seen: bytes, size: nat, content: bytes)
    requires HEADER_SIZE <= |seen| && seen <= content && |seen| <= size <= |content|
    ensures PollStep(ReadOffset(seen), Seen(size, content))
         == if size > ReadOffset(seen) then (FramesOf(content[ReadOffset(seen)..]), ReadOffset(content))
            else ([], ReadOffset(seen))
  {
    hide FramesOf, ReadFrame, Frame;
    ReadOn(seen, content);
  }

  /** For any growth of the file, with frames half written at some polls: what the polls read is,
      frame for frame, what one scan of the file reads, with nothing lost or repeated. */
  lemma {:induction false} PollsReadAll(seen: bytes, before: bytes, polls: seq<Poll>)
    requires HEADER_SIZE <= |seen| && seen <= before && AppendOnly(before, polls)
    ensures FramesOf(Body(seen)) + Follow(ReadOffset(seen), polls).0 == FramesOf(Body(SeenSoFar(seen, polls)))
    ensures Follow(ReadOffset(seen), polls).1 == ReadOffset(SeenSoFar(seen, polls))
    decreases |polls|
  {
    hide FramesOf, ReadOffset, Body, Frames.Tail, ReadFrame;
    if polls != [] {
      var rest := polls[1..];
      match polls[0] {
        case Unavailable =>
          PollsReadAll(seen, before, rest);
        case Seen(size, content) =>
          PollReads(seen, size, content);
          if size > ReadOffset(seen) {
            ReadOn(seen, content);
            PollsReadAll(content, content, rest);
          } else {
            PollsReadAll(seen, content, rest);
          }
      }
    }
  }

  /** And that file is up to date: it holds at least the bytes whose size the last poll took. */
  lemma {:induction false} PollsUpToDate(seen: bytes, before: bytes, polls: seq<Poll>)
    requires HEADER_SIZE <= |seen| && seen <= before && AppendOnly(before, polls)
    ensures polls != [] && polls[|polls| - 1].Seen? ==>
      polls[|polls| - 1].size <= |SeenSoFar(seen, polls)| && SeenSoFar(seen, polls) <= polls[|polls| - 1].content
    decreases |polls|
  {
    hide ReadOffset;
    if polls != [] {
      var rest := polls[1..];
      match polls[0] {
        case Unavailable =>
          PollsUpToDate(seen, before, rest);
        case Seen(size, content) =>
          PollsUpToDate(if size > ReadOffset(seen) then content else seen, content, rest);
      }
    }
  }

  /** A file seen shorter than the offset is a new one, read from its first frame, or from there on once it is
      longer than its header; from then on the polls read, frame for frame, what one scan of it reads. */
  lemma RotationFollowed(offset: nat, size: nat, content: bytes, polls: seq<Poll>)
    requires size < offset && size <= |content| && HEADER_SIZE <= |content| && AppendOnly(content, polls)
    ensures size > HEADER_SIZE ==>
      Follow(offset, [Seen(size, content)] + polls)
         == (FramesOf(Body(SeenSoFar(content, polls))), ReadOffset(SeenSoFar(content, polls)))
    ensures size <= HEADER_SIZE ==> Follow(offset, [Seen(size, content)] + polls) == Follow(HEADER_SIZE, polls)
  {
    hide FramesOf, ReadFrame, Frames.Tail;
    var all := [Seen(size, content)] + polls;
    assert all[0] == Seen(size, content) && all[1..] == polls;
    if size > HEADER_SIZE {
      PollsReadAll(content, content, polls);
    } else {
      assert [] + Follow(HEADER_SIZE, polls).0 == Follow(HEADER_SIZE, polls).0;
    }
  }
}
