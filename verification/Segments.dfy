/** The one chain that a rotated recorder keeps in several files: what rotation does to it, and exactly
    which writes, at whatever number the writer stands, leave it whole. */
module Segments {
  import opened Bytes
  import opened Records
  import opened Canonical
  import opened Frames
  import opened Validation
  import opened Verify
  import opened Accounting
  import opened ChainWriter
  import opened WriterRuns
  import opened Recorder

  // ------------------------------------------------------------- chains over several files

  /** The records of the segments, oldest first, and then those of the current file. */
  function RecordsOf(segments: seq<bytes>, file: bytes): seq<bytes>
    decreases |segments|
  {
    (if segments == [] then [] else RecordsOf(segments[..|segments| - 1], segments[|segments| - 1]))
    + Readable(Some(file))
  }

  /** The records in front of the current file. */
  function Earlier(segments: seq<bytes>): seq<bytes> {
    if segments == [] then [] else RecordsOf(segments[..|segments| - 1], segments[|segments| - 1])
  }

  /** Every file reads to its end, and no file behind the first starts with a gap record. */
  predicate FilesRead(segments: seq<bytes>, file: bytes)
    decreases |segments|
  {
    && ReadsClean(Some(file))
    && (segments != [] ==>
          && (Readable(Some(file)) != [] ==> !IsGap(Readable(Some(file))[0]))
          && FilesRead(segments[..|segments| - 1], segments[|segments| - 1]))
  }

  /** Every file reads to its end, and together they hold one valid chain. */
  predicate Intact(segments: seq<bytes>, file: bytes) {
    FilesRead(segments, file) && ValidChain(RecordsOf(segments, file), false)
  }

  /** For a chain in one file, being whole is what verify_chain decides. */
  lemma IntactAlone(file: bytes)
    ensures Intact([], file) <==> Verifies(Some(file), false)
  {
    hide ReadsClean, Readable, ValidChain;
    assert [] + Readable(Some(file)) == Readable(Some(file));
  }

  /** The files in front of the current one hold a whole chain as well. */
  lemma IntactInFront(segments: seq<bytes>, file: bytes)
    requires Intact(segments, file) && segments != []
    ensures Intact(segments[..|segments| - 1], segments[|segments| - 1])
  {
    hide ReadsClean, Readable, IsGap, ValidChain;
    var before := RecordsOf(segments[..|segments| - 1], segments[|segments| - 1]);
    PrefixValid(RecordsOf(segments, file), |before|, false);
    assert RecordsOf(segments, file)[..|before|] == before;
  }

  /** The files of one chain: the first verifies from genesis, every later one as a rotated segment. */
  lemma {:induction false} EachFileVerifies(segments: seq<bytes>, file: bytes, k: nat)
    requires Intact(segments, file) && k <= |segments|
    ensures Verifies(Some((segments + [file])[k]), k > 0)
    decreases |segments|
  {
    hide Intact, Verifies;
    var n := |segments|;
    if k < n {
      IntactInFront(segments, file);
      EachFileVerifies(segments[..n - 1], segments[n - 1], k);
      assert segments == segments[..n - 1] + [segments[n - 1]];
    } else if n == 0 {
      IntactAlone(file);
    } else {
      CurrentVerifies(segments, file);
    }
  }

  lemma CurrentVerifies(segments: seq<bytes>, file: bytes)
    requires Intact(segments, file) && segments != []
    ensures Verifies(Some(file), true)
  {
    hide ReadsClean, Readable, IsGap, ValidChain;
    OwnRecordsVerify(RecordsOf(segments[..|segments| - 1], segments[|segments| - 1]), Readable(Some(file)));
  }

  lemma OwnRecordsVerify(before: seq<bytes>, own: seq<bytes>)
    requires ValidChain(before + own, false) && (own != [] ==> !IsGap(own[0]))
    ensures ValidChain(own, true)
  {
    hide IsGap, RecordOk, SeqOf, PrevHashOf;
    if own != [] {
      if before == [] {
        assert before + own == own;
        FromGenesis(own);
      } else {
        SegmentAlone(before, own, false);
      }
    }
  }

  lemma FromGenesis(own: seq<bytes>)
    requires ValidChain(own, false) && own != [] && !IsGap(own[0])
    ensures ValidChain(own, true)
  {
    hide RecordOk, SeqOf, PrevHashOf;
    forall i | 0 <= i < |own|
      ensures GoodAt(own, i, true)
    {
      assert GoodAt(own, i, false);
    }
  }

  // ------------------------------------------------------------------ chains past repair

  /** Whatever is appended to the current file, the chain is never whole again. */
  ghost predicate Lost(segments: seq<bytes>, file: bytes) {
    forall more: bytes :: !Intact(segments, file + more)
  }

  lemma LostNow(segments: seq<bytes>, file: bytes)
    requires Lost(segments, file)
    ensures !Intact(segments, file)
  {
    hide Intact;
    assert file + [] == file;
  }

  lemma LostGrows(segments: seq<bytes>, file: bytes, more: bytes)
    requires Lost(segments, file)
    ensures Lost(segments, file + more)
  {
    hide Intact;
    forall extra: bytes
      ensures !Intact(segments, file + more + extra)
    {
      assert file + more + extra == file + (more + extra);
    }
  }

  /** What can be read of a clean file stays in front when the file grows. */
  lemma ReadableGrows(file: bytes, more: bytes)
    requires ReadsClean(Some(file))
    ensures Readable(Some(file)) <= Readable(Some(file + more))
  {
    hide FramesOf, Tail, Stop;
    assert Body(file + more) == Body(file) + more && (file + more)[..4] == file[..4];
    FramesGrow(Body(file), more);
  }

  /** A chain that is whole was whole before its current file grew. */
  lemma IntactBefore(segments: seq<bytes>, file: bytes, more: bytes)
    requires ReadsClean(Some(file)) && Intact(segments, file + more)
    ensures Intact(segments, file)
  {
    hide Readable, ReadsClean, IsGap, ValidChain;
    ReadableGrows(file, more);
    var all := RecordsOf(segments, file + more);
    PrefixValid(all, |RecordsOf(segments, file)|, false);
    assert all[..|RecordsOf(segments, file)|] == RecordsOf(segments, file);
  }

  lemma NotIntactLost(segments: seq<bytes>, file: bytes)
    requires ReadsClean(Some(file)) && !Intact(segments, file)
    ensures Lost(segments, file)
  {
    hide Intact, ReadsClean;
    forall more: bytes
      ensures !Intact(segments, file + more)
    {
      if Intact(segments, file + more) {
        IntactBefore(segments, file, more);
      }
    }
  }

  lemma UnreadLost(segments: seq<bytes>, file: bytes, s: bytes)
    requires ReadsClean(Some(file)) && MAX_RECORD_SIZE < |s| <= MAX_UINT32
    ensures Lost(segments, file + Frame(s))
  {
    hide Readable, ReadsClean, ValidChain, Frame;
    forall more: bytes
      ensures !Intact(segments, file + Frame(s) + more)
    {
      OversizedStays(file, s, more);
    }
  }

  /** Starting another file repairs nothing. */
  lemma LostRotated(segments: seq<bytes>, file: bytes, next: bytes)
    requires Lost(segments, file)
    ensures Lost(segments + [file], next)
  {
    hide ReadsClean, Readable, IsGap, ValidChain;
    LostNow(segments, file);
    assert (segments + [file])[..|segments|] == segments;
    forall more: bytes
      ensures !Intact(segments + [file], next + more)
    {
      if Intact(segments + [file], next + more) {
        var all, before := RecordsOf(segments + [file], next + more), RecordsOf(segments, file);
        assert all[..|before|] == before;
        PrefixValid(all, |before|, false);
      }
    }
  }

  // ------------------------------------------------------------------- appending a record

  lemma LastRead(segments: seq<bytes>, file: bytes)
    requires Intact(segments, file)
    ensures ReadsClean(Some(file))
  {
    hide ReadsClean, ValidChain;
  }

  /** One more record at the end of the current file. */
  lemma FileGrows(segments: seq<bytes>, file: bytes, file': bytes, s: bytes)
    requires FilesRead(segments, file) && ReadsClean(Some(file'))
    requires Readable(Some(file')) == Readable(Some(file)) + [s]
    ensures FilesRead(segments, file') <==> (segments != [] && Readable(Some(file)) == [] ==> !IsGap(s))
    ensures RecordsOf(segments, file') == RecordsOf(segments, file) + [s]
  {
    hide ReadsClean, Readable, IsGap;
  }

  /** Appending a record to a whole chain leaves it whole if and only if the record continues the
      chain of all files and, being a gap, does not start a rotated file; otherwise nothing written
      later makes it whole again. */
  lemma IntactAppend(segments: seq<bytes>, file: bytes, r: Record)
    requires Intact(segments, file) && Built(r) && Encodable(r) && |CanonicalBytes(r)| <= MAX_UINT32
    ensures var s := CanonicalBytes(r); var after := file + Frame(s);
      && (Intact(segments, after) <==>
            && Continues(RecordsOf(segments, file), r, false)
            && (segments != [] && Readable(Some(file)) == [] ==> !r.payload.Gap?))
      && (!Intact(segments, after) ==> Lost(segments, after))
      && (|s| <= MAX_RECORD_SIZE ==>
            && RecordsOf(segments, after) == RecordsOf(segments, file) + [s]
            && Readable(Some(after)) == Readable(Some(file)) + [s])
  {
    hide CanonicalBytes, Frame, GoodAt, Built, Encodable, ReadsClean, Readable, LinkRule, SequenceRule, ValidChain,
      Lost, IsGap, FilesRead, RecordsOf;
    var s := CanonicalBytes(r);
    var after := file + Frame(s);
    LastRead(segments, file);
    RecordSays(r);
    if |s| <= MAX_RECORD_SIZE {
      AppendedReads(file, s);
      FileGrows(segments, file, after, s);
      SnocValid(RecordsOf(segments, file), s, false);
      GoodIffContinues(RecordsOf(segments, file), r, false);
      if !Intact(segments, after) {
        NotIntactLost(segments, after);
      }
    } else {
      UnreadLost(segments, file, s);
      LostNow(segments, after);
    }
  }

  // --------------------------------------------------------------------------- one write

  /** The writer links to the end of a whole chain; failed writes may have moved its number past it. */
  predicate Stand(w: Writer, segments: seq<bytes>) {
    var records := RecordsOf(segments, w.file);
    && Ids(w) && Intact(segments, w.file) && w.bytesWritten == |w.file|
    && w.prevHash == LastHash(records) && w.sequence >= LastNumber(records)
  }

  /** Memory and files agree: the writer stands at the end of the chain. */
  predicate InStep(w: Writer, segments: seq<bytes>) {
    Stand(w, segments) && w.sequence == LastNumber(RecordsOf(segments, w.file))
  }

  /** The chain is past repair, or the next record that is no gap puts it there. */
  ghost predicate Astray(w: Writer, segments: seq<bytes>) {
    && Ids(w)
    && (Lost(segments, w.file)
        || (Intact(segments, w.file) && w.sequence > LastNumber(RecordsOf(segments, w.file))))
  }

  /** The write is accepted, links to the last record on disk, goes on from its number, and does not
      start a rotated file with a gap. */
  predicate Fitting(w: Writer, segments: seq<bytes>, op: Op, env: World) {
    var records := RecordsOf(segments, w.file);
    && Accepted(w, op, env) && w.prevHash == LastHash(records)
    && GoesOn(LastNumber(records), Positioned(w, op).sequence, PayloadFor(w, op))
    && (segments != [] && Readable(Some(w.file)) == [] ==> !PayloadFor(w, op).Gap?)
  }

  /** What an attempted record must be to continue the records on disk. */
  lemma AttemptContinues(w: Writer, op: Op, env: World, records: seq<bytes>)
    requires Sized(op, env) && Step(w, op, env).1.Written?
    ensures Continues(records, Attempt(w, op, env), false)
      <==>
      && Accepted(w, op, env) && w.prevHash == LastHash(records)
      && GoesOn(LastNumber(records), Positioned(w, op).sequence, PayloadFor(w, op))
  {
    hide CanonicalBytes, Encodable, Passes, SeqOf, Step, Frame, Attempt, PayloadFor;
    StepEffect(w, op, env);
    AttemptPayload(w, op, env);
  }

  /** The payload attempted is the one asked for, or a replacement that claims its own number. */
  lemma AttemptPayload(w: Writer, op: Op, env: World)
    ensures var r := Attempt(w, op, env);
      r.payload == PayloadFor(w, op) || (r.payload.Gap? && r.payload.gap.lastLost == r.sequence)
  {
    hide Passes, PayloadFor;
  }

  /** The exact condition on one write, at whatever number the writer stands: what lands must fit, and
      what does not fit puts the chain past repair. */
  lemma WriteExact(w: Writer, segments: seq<bytes>, op: Op, env: World)
    requires Ids(w) && Intact(segments, w.file) && Sized(op, env) && Step(w, op, env).1.Written?
    ensures var v := Step(w, op, env).0;
      && (Intact(segments, v.file) <==> Fitting(w, segments, op, env))
      && (!Intact(segments, v.file) ==> Lost(segments, v.file))
  {
    hide CanonicalBytes, Encodable, Intact, Step, Frame, Attempt, PayloadFor, Positioned, Accepted, RecordsOf,
      Readable, Lost, Continues, GoesOn, LastNumber, LastHash, Built, Sized, Ids;
    StepEffect(w, op, env);
    AttemptBuilt(w, op, env);
    IntactAppend(segments, w.file, Attempt(w, op, env));
    AttemptContinues(w, op, env, RecordsOf(segments, w.file));
    if Accepted(w, op, env) {
      AcceptedPayload(w, op, env);
    }
  }

  lemma AcceptedPayload(w: Writer, op: Op, env: World)
    requires Accepted(w, op, env)
    ensures Attempt(w, op, env).payload == PayloadFor(w, op)
    ensures |CanonicalBytes(Attempt(w, op, env))| <= MAX_RECORD_SIZE
  {
    hide Attempt, PayloadFor, Encodable, CanonicalBytes;
  }

  /** A fitting write appends one record, and the writer stands at its end. */
  lemma WriteExtends(w: Writer, segments: seq<bytes>, op: Op, env: World)
    requires Ids(w) && Intact(segments, w.file) && w.bytesWritten == |w.file| && Fitting(w, segments, op, env)
    ensures var (v, result) := Step(w, op, env); var s := CanonicalBytes(Attempt(w, op, env));
      && result.Written? && result.record == Attempt(w, op, env)
      && InStep(v, segments)
      && RecordsOf(segments, v.file) == RecordsOf(segments, w.file) + [s]
      && Readable(Some(v.file)) == Readable(Some(w.file)) + [s]
      && v.sequence == Positioned(w, op).sequence + 1
      && TypeFieldOf(s) == TypeOf(PayloadFor(w, op))
  {
    hide CanonicalBytes, Encodable, Intact, Step, Frame, Attempt, PayloadFor, RecordsOf, Readable, Lost,
      Continues, GoesOn, TypeFieldOf, IsGap, PrevHashOf, SeqOf, GapIn, RecordOk;
    StepEffect(w, op, env);
    AcceptedPayload(w, op, env);
    AttemptBuilt(w, op, env);
    StepRecord(w, op, env);
    RecordSays(Attempt(w, op, env));
    WriteExact(w, segments, op, env);
    IntactAppend(segments, w.file, Attempt(w, op, env));
  }

  /** A write that does not fit: what lands puts the chain past repair, what fails moves the number
      past the end of the chain. */
  lemma WriteStrays(w: Writer, segments: seq<bytes>, op: Op, env: World)
    requires Ids(w) && Sized(op, env)
    requires Lost(segments, w.file)
             || (Intact(segments, w.file) && Positioned(w, op).sequence >= LastNumber(RecordsOf(segments, w.file))
                 && !Fitting(w, segments, op, env))
    ensures Astray(Step(w, op, env).0, segments)
    ensures !Step(w, op, env).1.Written? ==> Step(w, op, env).0.file == w.file
    ensures Step(w, op, env).1.Written? ==> Lost(segments, Step(w, op, env).0.file)
  {
    hide CanonicalBytes, Encodable, Intact, Step, Frame, Attempt, Positioned, RecordsOf, Lost, Fitting, LastNumber,
      Sized;
    StepEffect(w, op, env);
    if Step(w, op, env).1.Written? {
      if Lost(segments, w.file) {
        LostGrows(segments, w.file, Frame(CanonicalBytes(Attempt(w, op, env))));
      } else {
        WriteExact(w, segments, op, env);
      }
    }
  }

  // --------------------------------------------------------------------------- rotation

  /** The segments after a rotation. */
  function SegmentsAfter(w: Writer, segments: seq<bytes>, env: CallWorld): seq<bytes> {
    if env.renameOk then segments + [w.file] else segments
  }

  /** Rotation, whether or not the rename succeeds, leaves the chain as it is: the new writer stands
      at its end if the old one did, and is astray if the old one was. */
  lemma RotationKeeps(w: Writer, segments: seq<bytes>, env: CallWorld)
    requires |env.newAgentId| == 16 && |env.newSessionId| == 16
    ensures var v, segments' := Reopened(w, env), SegmentsAfter(w, segments, env);
      && (Intact(segments, w.file) ==> RecordsOf(segments', v.file) == RecordsOf(segments, w.file))
      && (InStep(w, segments) ==> InStep(v, segments'))
      && (Astray(w, segments) ==> Astray(v, segments'))
  {
    hide ValidChain, SeqOf, Readable, Header, ReadsClean, IsGap, Lost;
    HeaderVerifies(env.createdMs, false);
    if env.renameOk {
      HeaderReads(env.createdMs);
      assert (segments + [w.file])[..|segments|] == segments;
      assert RecordsOf(segments, w.file) + [] == RecordsOf(segments, w.file);
      if Lost(segments, w.file) {
        LostRotated(segments, w.file, Header(env.createdMs));
      }
    }
  }

  lemma HeaderReads(createdMs: nat)
    ensures ReadsClean(Some(Header(createdMs))) && Readable(Some(Header(createdMs))) == []
  {
    hide Header, ReadsClean, Readable, ValidChain;
    HeaderVerifies(createdMs, false);
  }
}
