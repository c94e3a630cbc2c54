/** Where the recorder's start-up meets the verifier: starting on an existing chain, with or without
    something to recover (ahp/recorder.py). */
module Startup {
  import opened Bytes
  import opened Records
  import opened Canonical
  import opened Frames
  import opened Verify
  import opened Accounting
  import opened ChainWriter
  import opened WriterRuns
  import opened Recovery
  import opened Recorder
  import opened Segments
  import opened Batches
  import opened RecorderCalls
  import opened RecorderRuns

  // -------------------------------------------------------- starting on an existing chain

  /** What the constructor writes first: the boot record, the key record if there is a key, and the
      recovery record if anything was cut off. */
  function Opening(config: Config, r: RecoveryResult, detail: Text, boot: World, key: World, recovery: World)
    : seq<(Op, World)>
  {
    [(WriteRecord(Boot(config.boot), None, None), boot)]
    + (if config.level >= 2 && config.key.Some? then [(WriteRecord(Key(config.key.value), None, None), key)] else [])
    + (if r.recordsTruncated > 0 then
         var payload := RecoveryPayload(r.recordsVerified, r.recordsTruncated, r.lastValidSeq, CHAIN_SCAN, detail);
         [(WriteRecovery(payload), recovery)]
       else [])
  }

  /** The gap that _emit_recovery_records writes behind it: it begins after the last valid record. */
  function CrashGap(r: RecoveryResult, detail: Text): Op {
    WriteGap(r.lastValidSeq + 1, r.lastValidSeq + r.recordsTruncated, CRASH, detail)
  }

  /** The writer after start-up. */
  function Started(w: Writer, config: Config, r: RecoveryResult, detail: Text, boot: World, key: World, recovery: World,
                   gapDetail: Text, gap: World): Writer
  {
    var v := Run(w, Opening(config, r, detail, boot, key, recovery));
    if r.recordsTruncated > 0 then Step(v, CrashGap(r, gapDetail), gap).0 else v
  }

  lemma {:induction false} NumbersTaken(w: Writer, ops: seq<(Op, World)>)
    requires forall i :: 0 <= i < |ops| ==> !ops[i].0.WriteGap?
    ensures Run(w, ops).sequence == w.sequence + |ops|
    decreases |ops|
  {
    hide Step, Attempt, Encodable, CanonicalBytes, Frame;
    if ops != [] {
      StepEffect(w, ops[0].0, ops[0].1);
      NumbersTaken(Step(w, ops[0].0, ops[0].1).0, ops[1..]);
    }
  }

  /** The opening records are on disk. */
  lemma OpeningWritten(w: Writer, config: Config, r: RecoveryResult, detail: Text, boot: World, key: World,
                       recovery: World, anyStart: bool)
    requires AllClean(w, Opening(config, r, detail, boot, key, recovery), anyStart)
    requires Stands(Run(w, Opening(config, r, detail, boot, key, recovery)), anyStart)
    requires Stands(w, anyStart)
    ensures Readable(Some(Run(w, Opening(config, r, detail, boot, key, recovery)).file)) != []
  {
    hide Clean, Step, Verifies, Readable, Stands;
    var ops := Opening(config, r, detail, boot, key, recovery);
    var v := Step(w, ops[0].0, ops[0].1).0;
    FirstWritten(w, ops[0].0, ops[0].1, anyStart);
    RunExtends(v, ops[1..]);
    var end := Run(v, ops[1..]).file;
    assert end == v.file + end[|v.file|..];
    StaysReadable(v.file, end[|v.file|..]);
  }

  lemma FirstWritten(w: Writer, op: Op, env: World, anyStart: bool)
    requires Stands(w, anyStart) && Clean(w, op, env, anyStart) && !op.WriteGap?
    ensures var v := Step(w, op, env).0; ReadsClean(Some(v.file)) && Readable(Some(v.file)) != []
  {
    hide Step, Attempt, Encodable, CanonicalBytes, Frame, Readable, ReadsClean;
    StepEffect(w, op, env);
    AppendedReads(w.file, CanonicalBytes(Attempt(w, op, env)));
  }

  /** What can be read stays readable when the file grows. */
  lemma StaysReadable(file: bytes, more: bytes)
    requires ReadsClean(Some(file)) && Readable(Some(file)) != []
    ensures Readable(Some(file + more)) != []
  {
    hide FramesOf, Tail, Stop;
    assert Body(file + more) == Body(file) + more && (file + more)[..4] == file[..4];
    FramesGrow(Body(file), more);
  }

  /** A recorder started on a chain, or rotated segment, whose readable records are valid, all of its
      writes accepted: the file verifies afterwards if and only if recovery had cut nothing off. The gap record
      begins at a number that the boot record has already used. */
  lemma StartupExact(f: bytes, agentId: bytes, sessionId: bytes, config: Config, detail: Text, boot: World, key: World,
                     recovery: World, gapDetail: Text, gap: World, anyStart: bool)
    requires GoodHeader(f) && ValidChain(Readable(Some(f)), anyStart) && |agentId| == 16 && |sessionId| == 16
    requires var r := Scan(Some(f)); var w := Resumed(f, agentId, sessionId);
      var ops := Opening(config, r, detail, boot, key, recovery);
      && AllClean(w, ops, anyStart)
      && (r.recordsTruncated > 0 ==> Accepted(Run(w, ops), CrashGap(r, gapDetail), gap))
    ensures var r := Scan(Some(f));
      var end := Started(Resumed(f, agentId, sessionId), config, r, detail, boot, key, recovery, gapDetail, gap);
      Verifies(Some(end.file), anyStart) <==> r.recordsTruncated == 0
  {
    hide AllClean, Accepted, Step, Verifies, Readable, Run, ValidChain, GoodHeader, GapCount, Resumed, Scan;
    var r, w := Scan(Some(f)), Resumed(f, agentId, sessionId);
    var ops := Opening(config, r, detail, boot, key, recovery);
    ResumedInSync(f, agentId, sessionId, anyStart);
    CleanRun(w, ops, anyStart, |Readable(Some(f))|, GapCount(Readable(Some(f))));
    if r.recordsTruncated > 0 {
      ResumedSequence(f, agentId, sessionId);
      NumbersTaken(w, ops);
      OpeningWritten(w, config, r, detail, boot, key, recovery, anyStart);
      GapExactlyNext(Run(w, ops), CrashGap(r, gapDetail), gap, anyStart);
    }
  }

  /** What a clean run writes holds what its operations ask for, one record each. */
  lemma {:induction false} WrittenPayload(w: Writer, ops: seq<(Op, World)>, i: nat, anyStart: bool, n: nat, g: nat)
    requires InSync(w, anyStart, n, g) && AllClean(w, ops, anyStart)
    requires i < |ops| && !ops[i].0.WriteUnsignedCheckpoint?
    ensures |WrittenRecords(w, ops)| == |ops| && WrittenRecords(w, ops)[i].payload == PayloadFor(w, ops[i].0)
    decreases |ops|
  {
    hide InSync, Step, Attempt, Encodable, CanonicalBytes, Readable, Sized, WrittenRecords, Verifies,
      Run;
    var op, env := ops[0].0, ops[0].1;
    CleanRunRecords(w, ops, anyStart, n, g);
    CleanStep(w, op, env, anyStart, n, g);
    StepRecord(w, op, env);
    var v := Step(w, op, env).0;
    WrittenFirst(w, ops);
    if i > 0 {
      WrittenPayload(v, ops[1..], i - 1, anyStart, n, g);
      SamePayload(v, w, ops[i].0);
    }
  }

  lemma WrittenFirst(w: Writer, ops: seq<(Op, World)>)
    requires ops != [] && Step(w, ops[0].0, ops[0].1).1.Written?
    ensures var (v, result) := Step(w, ops[0].0, ops[0].1);
      WrittenRecords(w, ops) == [result.record] + WrittenRecords(v, ops[1..])
  {
    hide Step;
  }

  lemma SamePayload(v: Writer, w: Writer, op: Op)
    requires !op.WriteUnsignedCheckpoint?
    ensures PayloadFor(v, op) == PayloadFor(w, op)
  {
  }

  /** What start-up writes on a chain, or rotated segment, whose readable records are valid: the boot record,
      the key record at level 2 and above, and, where something was cut off, a recovery record with the
      number of records read, of those lost (LossReported) and of the last one, and a crash gap of as many
      numbers behind it. */
  lemma StartupWrites(f: bytes, agentId: bytes, sessionId: bytes, config: Config, detail: Text, boot: World, key: World,
                      recovery: World, gapDetail: Text, gap: World, anyStart: bool)
    requires GoodHeader(f) && ValidChain(Readable(Some(f)), anyStart) && |agentId| == 16 && |sessionId| == 16
    requires var r := Scan(Some(f)); var w := Resumed(f, agentId, sessionId);
      var ops := Opening(config, r, detail, boot, key, recovery);
      && AllClean(w, ops, anyStart)
      && (r.recordsTruncated > 0 ==> Accepted(Run(w, ops), CrashGap(r, gapDetail), gap))
    ensures var records, lost := Readable(Some(f)), Scan(Some(f)).recordsTruncated;
      var last := if records == [] then 0 else SeqOf(records[|records| - 1]);
      var w, ops := Resumed(f, agentId, sessionId), Opening(config, Scan(Some(f)), detail, boot, key, recovery);
      var written, keyed := WrittenRecords(w, ops), config.level >= 2 && config.key.Some?;
      && |written| == 1 + (if keyed then 1 else 0) + (if lost > 0 then 1 else 0)
      && written[0].payload == Boot(config.boot) && (keyed ==> written[1].payload == Key(config.key.value))
      && (lost > 0 ==>
            && written[|written| - 1].payload == Recovery(RecoveryPayload(|records|, lost, last, 2, detail))
            && Attempt(Run(w, ops), CrashGap(Scan(Some(f)), gapDetail), gap).payload
               == Gap(GapPayload(last + 1, last + lost, lost, 1, gapDetail)))
  {
    hide AllClean, Accepted, Step, Readable, Run, ValidChain, GoodHeader, GapCount, Resumed, Attempt, InSync, SeqOf,
      WrittenRecords, Estimate, ResumeHash, LastParsedSeq;
    var r, w := Scan(Some(f)), Resumed(f, agentId, sessionId);
    var ops, n, g := Opening(config, r, detail, boot, key, recovery), |Readable(Some(f))|, GapCount(Readable(Some(f)));
    ResumedInSync(f, agentId, sessionId, anyStart);
    ScanNumbers(f, anyStart);
    WrittenPayload(w, ops, 0, anyStart, n, g);
    if |ops| > 1 {
      WrittenPayload(w, ops, 1, anyStart, n, g);
      WrittenPayload(w, ops, |ops| - 1, anyStart, n, g);
    }
    if r.recordsTruncated > 0 {
      AcceptedAsked(Run(w, ops), CrashGap(r, gapDetail), gap);
    }
  }

  lemma AcceptedAsked(w: Writer, op: Op, env: World)
    requires Accepted(w, op, env)
    ensures Attempt(w, op, env).payload == PayloadFor(w, op)
  {
    hide Attempt, Encodable, CanonicalBytes, Sized;
  }

  lemma ScanNumbers(f: bytes, anyStart: bool)
    requires GoodHeader(f) && ValidChain(Readable(Some(f)), anyStart)
    ensures var r, records := Scan(Some(f)), Readable(Some(f));
      r.recordsVerified == |records| && r.lastValidSeq == if records == [] then 0 else SeqOf(records[|records| - 1])
  {
    hide FramesOf, Tail, ValidChain, SeqOf, Estimate, LastParsedSeq, ResumeHash;
    var records := Readable(Some(f));
    if records != [] {
      LastParsedValid(records, anyStart);
    } else {
      NothingParsed();
    }
  }

  lemma ResumedSequence(f: bytes, agentId: bytes, sessionId: bytes)
    requires GoodHeader(f)
    ensures Resumed(f, agentId, sessionId).sequence == Scan(Some(f)).lastValidSeq
  {
    hide FramesOf, Tail, Recovered, ResumeHash;
  }

  // ------------------------------------------------------------- starting on a whole chain

  /** Nothing is cut off a file that reads to its end. */
  lemma CleanRecovered(f: bytes)
    requires ReadsClean(Some(f))
    ensures GoodHeader(f) && Recovered(f) == f
  {
    hide FramesOf, EncodeFrames, LastParsedSeq, ResumeHash, Round;
    EncodedOfFrames(Body(f));
  }

  /** A restart finds its place in the chain from the current file alone. */
  predicate FindsPlace(segments: seq<bytes>, file: bytes) {
    Earlier(segments) == [] || Readable(Some(file)) != []
  }

  lemma LastOwn(segments: seq<bytes>, file: bytes)
    ensures var all, own := RecordsOf(segments, file), Readable(Some(file));
      && all == Earlier(segments) + own
      && (own != [] ==> all != [] && all[|all| - 1] == own[|own| - 1])
  {
    hide Readable;
  }

  /** The writer of a recorder started again, once recovery has left a whole chain: it stands at the end
      of that chain if and only if no earlier file holds a record or the current one does. Otherwise it
      starts at number zero with the zero hash. */
  lemma ResumedExact(segments: seq<bytes>, f: bytes, agentId: bytes, sessionId: bytes)
    requires |agentId| == 16 && |sessionId| == 16
    requires GoodHeader(f) && Intact(segments, Recovered(f))
    ensures var v := Resumed(f, agentId, sessionId);
      && v.file == Recovered(f) && Ids(v)
      && (InStep(v, segments) <==> FindsPlace(segments, f))
      && (!FindsPlace(segments, f) ==>
            v.sequence == 0 && RecordsOf(segments, v.file) != [] && LastNumber(RecordsOf(segments, v.file)) >= 1
            && InSync(v, false, 0, 0))
  {
    hide ReadsClean, Readable, ValidChain, SeqOf, GapCount, Scan, IsGap, GoodHeader, Recovered, FilesRead, RecordsOf,
      Earlier;
    RecoveredReads(f);
    LastOwn(segments, Recovered(f));
    if FindsPlace(segments, f) {
      FoundValid(segments, f);
      ResumedInSync(f, agentId, sessionId, Earlier(segments) != []);
      if Earlier(segments) == [] {
        assert [] + Readable(Some(f)) == Readable(Some(f));
      }
    } else {
      NothingFound(f, agentId, sessionId);
      assert Earlier(segments) + [] == Earlier(segments);
      NumbersStart(RecordsOf(segments, Recovered(f)));
    }
  }

  /** The records found in the current file, as a chain of their own. */
  lemma FoundValid(segments: seq<bytes>, f: bytes)
    requires GoodHeader(f) && Intact(segments, Recovered(f)) && FindsPlace(segments, f)
    ensures ValidChain(Readable(Some(f)), Earlier(segments) != [])
  {
    hide ReadsClean, Readable, ValidChain, SeqOf, IsGap, Recovered, GoodHeader;
    RecoveredReads(f);
    LastOwn(segments, Recovered(f));
    if Earlier(segments) == [] {
      assert [] + Readable(Some(f)) == Readable(Some(f));
    } else {
      CurrentVerifies(segments, Recovered(f));
    }
  }

  lemma NothingFound(f: bytes, agentId: bytes, sessionId: bytes)
    requires |agentId| == 16 && |sessionId| == 16 && GoodHeader(f) && Readable(Some(f)) == []
    ensures var v := Resumed(f, agentId, sessionId);
      v.sequence == 0 && v.file == Recovered(f) && InSync(v, false, 0, 0)
  {
    hide FramesOf, EncodeFrames, LastParsedSeq, ResumeHash, Round, Tail;
    NothingValid();
    ResumedInSync(f, agentId, sessionId, false);
  }

  lemma NothingValid()
    ensures ValidChain([], false) && GapCount([]) == 0
  {
  }

  lemma NumbersStart(records: seq<bytes>)
    requires ValidChain(records, false) && records != []
    ensures LastNumber(records) >= 1
  {
    hide SeqOf, PrevHashOf, RecordOk, IsGap, GapIn;
    assert GoodAt(records, |records| - 1, false);
    RecordAccounts(records, |records| - 1, false, 0);
  }

  /** A recorder started again on a whole chain: its opening records put it in the state that runs need,
      with its books starting behind the records it found, if and only if no earlier file holds a
      record or the current one does. Otherwise the current file verifies alone, from genesis, and the
      chain of all files is past repair: so after a crash between the header of a rotated file and its
      boot record. */
  lemma RestartsGood(config: Config, segments: seq<bytes>, f: bytes, agentId: bytes, sessionId: bytes, env: CallWorld)
    requires |agentId| == 16 && |sessionId| == 16 && Intact(segments, f)
    requires GenesisAccepted(Resumed(f, agentId, sessionId), config, env)
    ensures var found := RecordsOf(segments, f);
      var t := EmitGenesis(Fresh(Resumed(f, agentId, sessionId), segments), config, env.boot, env.key);
      && t.Fine?
      && (Good(t.state, |found|) <==> FindsPlace(segments, f))
      && (FindsPlace(segments, f) ==>
            Short(t.state) && Actions(All(t.state)) == Actions(found) && GapCount(All(t.state)) == GapCount(found))
      && (!FindsPlace(segments, f) ==>
            Lost(t.state.segments, t.state.chain.file) && Verifies(Some(t.state.chain.file), false))
  {
    hide InStep, Intact, EmitGenesis, GenesisAccepted, Resumed, Good, All, RecordsOf, Readable, GapCount, Actions,
      GoodHeader, InSync, Lost, Verifies, Recovered, Earlier;
    LastRead(segments, f);
    CleanRecovered(f);
    ResumedExact(segments, f, agentId, sessionId);
    var v := Resumed(f, agentId, sessionId);
    if FindsPlace(segments, f) {
      OpensGood(config, v, segments, env);
    } else {
      GenesisLost(Fresh(v, segments), config, env);
      var t := EmitGenesis(Fresh(v, segments), config, env.boot, env.key).state;
      LostNotGood(t, |RecordsOf(segments, f)|);
    }
  }

  /** The same where the crash came before the rotated file had its header: a missing file is a new chain. */
  lemma MissingFileLost(config: Config, segments: seq<bytes>, agentId: bytes, sessionId: bytes, createdMs: nat,
                        env: CallWorld)
    requires |agentId| == 16 && |sessionId| == 16 && segments != [] && Earlier(segments) != []
    requires Intact(segments[..|segments| - 1], segments[|segments| - 1])
    requires GenesisAccepted(Opened(agentId, sessionId, None, createdMs, ZERO_HASH_32, 0), config, env)
    ensures var w := Opened(agentId, sessionId, None, createdMs, ZERO_HASH_32, 0);
      var t := EmitGenesis(Fresh(w, segments), config, env.boot, env.key);
      && t.Fine? && Intact(segments, w.file)
      && Lost(t.state.segments, t.state.chain.file) && Verifies(Some(t.state.chain.file), false)
  {
    hide EmitGenesis, GenesisAccepted, Lost, Verifies, Readable, ReadsClean, ValidChain, IsGap, Header, SeqOf, GapCount;
    HeaderReads(createdMs);
    FreshInSync(agentId, sessionId, createdMs);
    assert Earlier(segments) + [] == Earlier(segments);
    NumbersStart(Earlier(segments));
    GenesisLost(Fresh(Opened(agentId, sessionId, None, createdMs, ZERO_HASH_32, 0), segments), config, env);
  }

  lemma LostNotGood(t: State, base: nat)
    requires Lost(t.segments, t.chain.file)
    ensures !Good(t, base)
  {
    hide Intact, RecordsOf, LastNumber, LastHash, Lost, Books, Readable;
    LostNow(t.segments, t.chain.file);
  }

  /** Opening records numbered from one behind a chain that is not empty. */
  lemma GenesisLost(s: State, config: Config, env: CallWorld)
    requires Intact(s.segments, s.chain.file) && Ids(s.chain) && InSync(s.chain, false, 0, 0)
    requires s.chain.sequence == 0 && LastNumber(RecordsOf(s.segments, s.chain.file)) >= 1
    requires GenesisAccepted(s.chain, config, env)
    ensures var t := EmitGenesis(s, config, env.boot, env.key);
      && t.Fine? && Lost(t.state.segments, t.state.chain.file) && Verifies(Some(t.state.chain.file), false)
  {
    hide InSync, Intact, Accepted, Step, Lost, Verifies, RecordsOf, LastNumber, WriteTracked, Attempt, CanonicalBytes,
      Encodable, Frame, Readable;
    var boot := WriteRecord(Boot(config.boot), None, None);
    OrdinaryClean(s.chain, boot, env.boot);
    TrackedChain(s, boot, env.boot);
    CleanStep(s.chain, boot, env.boot, false, 0, 0);
    OrdinaryLost(s.chain, s.segments, boot, env.boot);
    var t := WriteTracked(s, boot, env.boot).state;
    if config.level >= 2 && config.key.Some? {
      var key := WriteRecord(Key(config.key.value), None, None);
      OrdinaryClean(t.chain, key, env.key);
      TrackedChain(t, key, env.key);
      CleanStep(t.chain, key, env.key, false, 0, 0);
      StepEffect(t.chain, key, env.key);
      LostGrows(t.segments, t.chain.file, Frame(CanonicalBytes(Attempt(t.chain, key, env.key))));
      SyncVerifies(Step(t.chain, key, env.key).0);
    } else {
      SyncVerifies(t.chain);
    }
  }

  lemma SyncVerifies(w: Writer)
    requires InSync(w, false, 0, 0)
    ensures Verifies(Some(w.file), false)
  {
    hide Verifies, Readable, GapCount;
  }

  lemma OrdinaryClean(w: Writer, op: Op, env: World)
    requires Accepted(w, op, env) && op.WriteRecord? && !op.payload.Gap?
    ensures Clean(w, op, env, false) && NonGap(w, op)
  {
    hide Accepted, Readable;
  }

  /** An accepted record that is no gap, from a writer that stands elsewhere than at the end. */
  lemma OrdinaryLost(w: Writer, segments: seq<bytes>, op: Op, env: World)
    requires Ids(w) && Intact(segments, w.file) && Accepted(w, op, env) && NonGap(w, op)
    requires w.sequence != LastNumber(RecordsOf(segments, w.file))
    ensures Lost(segments, Step(w, op, env).0.file)
  {
    hide Intact, RecordsOf, LastNumber, LastHash, Step, Attempt, Encodable, CanonicalBytes, Lost, PayloadFor,
      Readable, Frame;
    AcceptedLands(w, op, env);
    WriteExact(w, segments, op, env);
    if Fitting(w, segments, op, env) {
      FittingNumber(w, segments, op, env);
    }
  }

  // --------------------------------------------------------- crashes of a rotated recorder

  /** A clean run of a writer at the end of the chain of all files stays there. */
  lemma {:induction false} CleanRunInStep(w: Writer, segments: seq<bytes>, ops: seq<(Op, World)>)
    requires InStep(w, segments) && AllClean(w, ops, segments != [])
    ensures var v := Run(w, ops);
      && InStep(v, segments)
      && RecordsOf(segments, v.file) == RecordsOf(segments, w.file) + StoredForms(WrittenRecords(w, ops))
    decreases |ops|
  {
    hide InStep, Clean, Step, RecordsOf, CanonicalBytes, Attempt, Fitting, WrittenRecords, StoredForms, Readable,
      TypeFieldOf, PayloadFor, Positioned, Intact;
    if ops == [] {
      NothingWritten(w);
      assert RecordsOf(segments, w.file) + [] == RecordsOf(segments, w.file);
    } else {
      var op, env := ops[0].0, ops[0].1;
      CleanFits(w, segments, op, env);
      StandsIntact(w, segments);
      WriteExtends(w, segments, op, env);
      CleanRunInStep(Step(w, op, env).0, segments, ops[1..]);
      FirstStored(w, ops);
      Prepend(RecordsOf(segments, w.file), CanonicalBytes(Attempt(w, op, env)),
        StoredForms(WrittenRecords(Step(w, op, env).0, ops[1..])));
    }
  }

  lemma NothingWritten(w: Writer)
    ensures StoredForms(WrittenRecords(w, [])) == []
  {
  }

  lemma FirstStored(w: Writer, ops: seq<(Op, World)>)
    requires ops != [] && Step(w, ops[0].0, ops[0].1).1.Written?
    ensures var (v, result) := Step(w, ops[0].0, ops[0].1);
      StoredForms(WrittenRecords(w, ops)) == [CanonicalBytes(result.record)] + StoredForms(WrittenRecords(v, ops[1..]))
  {
    hide Step, CanonicalBytes;
    var (v, result) := Step(w, ops[0].0, ops[0].1);
    assert WrittenRecords(w, ops) == [result.record] + WrittenRecords(v, ops[1..]);
  }

  lemma Prepend(a: seq<bytes>, s: bytes, b: seq<bytes>)
    ensures (a + [s]) + b == a + ([s] + b)
  {
  }

  lemma CleanFits(w: Writer, segments: seq<bytes>, op: Op, env: World)
    requires InStep(w, segments) && Clean(w, op, env, segments != [])
    ensures Fitting(w, segments, op, env)
  {
    hide RecordsOf, LastNumber, LastHash, Accepted, Intact, Readable;
  }

  /** What is left of a whole chain when its current file is cut and recovered. */
  lemma CutIntact(segments: seq<bytes>, file: bytes, n: nat)
    requires Intact(segments, file) && HEADER_SIZE <= n <= |file|
    ensures var kept := Readable(Some(file))[..Kept(Readable(Some(file)), n - HEADER_SIZE)];
      && GoodHeader(file[..n]) && Readable(Some(file[..n])) == kept
      && Intact(segments, Recovered(file[..n]))
      && RecordsOf(segments, Recovered(file[..n])) == Earlier(segments) + kept
  {
    hide ReadsClean, Readable, IsGap, ValidChain, GoodHeader, Recovered, Kept;
    CutReads(file, n);
    RecoveredReads(file[..n]);
    LastOwn(segments, file);
    LastOwn(segments, Recovered(file[..n]));
    var kept := Readable(Some(file))[..Kept(Readable(Some(file)), n - HEADER_SIZE)];
    var all := RecordsOf(segments, file);
    PrefixValid(all, |Earlier(segments)| + |kept|, false);
    assert all[..|Earlier(segments)| + |kept|] == Earlier(segments) + kept;
  }

  /** The crash cycle for a chain in several files: its writer stops with any byte prefix behind the
      header of the current file on disk, recovery cuts it, a writer resumes and runs. The chain of all
      files is whole afterwards, with the kept records and those of the new run, if and only if no
      earlier file holds a record or the cut has left one in the current file. */
  lemma SegmentCrash(w: Writer, segments: seq<bytes>, n: nat, agentId: bytes, sessionId: bytes, more: seq<(Op, World)>)
    requires InStep(w, segments) && HEADER_SIZE <= n <= |w.file| && |agentId| == 16 && |sessionId| == 16
    requires more != [] && AllClean(Resumed(w.file[..n], agentId, sessionId), more, segments != [])
    ensures var kept := Readable(Some(w.file))[..Kept(Readable(Some(w.file)), n - HEADER_SIZE)];
      var resumed := Resumed(w.file[..n], agentId, sessionId); var end := Run(resumed, more);
      && (Intact(segments, end.file) <==> Earlier(segments) == [] || kept != [])
      && (Intact(segments, end.file) ==>
            && InStep(end, segments)
            && RecordsOf(segments, end.file) == Earlier(segments) + kept + StoredForms(WrittenRecords(resumed, more)))
      && (!Intact(segments, end.file) ==> Lost(segments, end.file))
  {
    hide InStep, Intact, Kept, Readable, Resumed, RecordsOf, Earlier, AllClean, Run, WrittenRecords, StoredForms,
      GoodHeader, Recovered, Lost, InSync, LastNumber;
    var cut := w.file[..n];
    StandsIntact(w, segments);
    CutIntact(segments, w.file, n);
    ResumedExact(segments, cut, agentId, sessionId);
    var resumed := Resumed(cut, agentId, sessionId);
    if FindsPlace(segments, cut) {
      CleanRunInStep(resumed, segments, more);
      StandsIntact(Run(resumed, more), segments);
    } else {
      NoPlace(segments, cut);
      ResumedReads(cut, agentId, sessionId);
      FirstLost(resumed, segments, more);
      LostNow(segments, Run(resumed, more).file);
    }
  }

  lemma NoPlace(segments: seq<bytes>, file: bytes)
    requires !FindsPlace(segments, file)
    ensures segments != [] && Readable(Some(file)) == []
  {
    hide Readable, RecordsOf;
  }

  /** A clean run that starts elsewhere than at the end of the chain, in a file without records. */
  lemma FirstLost(w: Writer, segments: seq<bytes>, ops: seq<(Op, World)>)
    requires Ids(w) && Intact(segments, w.file) && w.sequence == 0 && LastNumber(RecordsOf(segments, w.file)) >= 1
    requires Readable(Some(w.file)) == [] && segments != [] && ops != [] && AllClean(w, ops, true)
    ensures Lost(segments, Run(w, ops).file)
  {
    hide Intact, RecordsOf, LastNumber, Step, Lost, Readable, Accepted, Frame;
    var op, env := ops[0].0, ops[0].1;
    CleanNonGap(w, op, env);
    OrdinaryLost(w, segments, op, env);
    var v := Step(w, op, env).0;
    RunExtends(v, ops[1..]);
    var end := Run(v, ops[1..]).file;
    assert end == v.file + end[|v.file|..];
    LostGrows(segments, v.file, end[|v.file|..]);
  }

  lemma CleanNonGap(w: Writer, op: Op, env: World)
    requires Clean(w, op, env, true) && Readable(Some(w.file)) == []
    ensures Accepted(w, op, env) && NonGap(w, op)
  {
    hide Accepted, Readable;
  }
}
