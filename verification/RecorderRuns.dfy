/** Runs of the synchronous recorder: any sequence of its public calls, with any failures, and what it
    leaves on disk. */
module RecorderRuns {
  import opened Bytes
  import opened Records
  import opened Canonical
  import opened Frames
  import opened Verify
  import opened ChainWriter
  import opened WriterRuns
  import opened Recorder
  import opened Segments
  import opened Batches
  import opened RecorderCalls
  import opened RecorderTrace

  // --------------------------------------------------------------------- whole runs

  function Calls(s: State, config: Config, calls: seq<Call>): State
    decreases |calls|
  {
    if calls == [] then s else Calls(AfterCall(s, config, calls[0]), config, calls[1..])
  }

  predicate AllFine(s: State, config: Config, calls: seq<Call>)
    decreases |calls|
  {
    calls == [] || (CallFine(s, config, calls[0]) && AllFine(AfterCall(s, config, calls[0]), config, calls[1..]))
  }

  predicate AllWithin(calls: seq<Call>) {
    forall i :: 0 <= i < |calls| ==> CallWithin(calls[i])
  }

  /** What each call of a run means for the chain. */
  function Marks(s: State, config: Config, calls: seq<Call>): seq<Mark>
    decreases |calls|
  {
    if calls == [] then []
    else [MarkOf(s, config, calls[0])] + Marks(AfterCall(s, config, calls[0]), config, calls[1..])
  }

  /** The runs of remembered failures that a recorded action follows. */
  function FailureRuns(marks: seq<Mark>, pending: bool): nat {
    if marks == [] then 0
    else (if marks[0].Through? && pending then 1 else 0) + FailureRuns(marks[1..], PendingAfter(marks[0], pending))
  }

  /** The actions that got through. */
  function Recorded(marks: seq<Mark>): seq<ActionPayload> {
    if marks == [] then [] else ActionsOf(marks[0]) + Recorded(marks[1..])
  }

  lemma RunSplit(s: State, config: Config, calls: seq<Call>)
    requires calls != []
    ensures var m, t := MarkOf(s, config, calls[0]), AfterCall(s, config, calls[0]);
      var marks, later := Marks(s, config, calls), Marks(t, config, calls[1..]);
      && FailureRuns(marks, s.pendingGap)
         == (if m.Through? && s.pendingGap then 1 else 0) + FailureRuns(later, PendingAfter(m, s.pendingGap))
      && Recorded(marks) == ActionsOf(m) + Recorded(later)
  {
    hide AfterCall, MarkOf, FailureRuns, Recorded;
    var m, later := MarkOf(s, config, calls[0]), Marks(AfterCall(s, config, calls[0]), config, calls[1..]);
    assert Marks(s, config, calls) == [m] + later;
    MarkSplit(m, later, s.pendingGap);
  }

  lemma MarkSplit(m: Mark, later: seq<Mark>, pending: bool)
    ensures FailureRuns([m] + later, pending)
         == (if m.Through? && pending then 1 else 0) + FailureRuns(later, PendingAfter(m, pending))
    ensures Recorded([m] + later) == ActionsOf(m) + Recorded(later)
  {
    assert ([m] + later)[1..] == later;
  }

  lemma NothingRun(s: State, config: Config)
    ensures FailureRuns(Marks(s, config, []), s.pendingGap) == 0 && Recorded(Marks(s, config, [])) == []
  {
  }

  lemma {:induction false} CallsKeep(s: State, base: nat, config: Config, calls: seq<Call>)
    requires Good(s, base) && Short(s) && AllFine(s, config, calls) && AllWithin(calls)
    ensures var t, marks := Calls(s, config, calls), Marks(s, config, calls);
      && Good(t, base)
      && GapCount(All(t)) == GapCount(All(s)) + FailureRuns(marks, s.pendingGap)
      && Actions(All(t)) == Actions(All(s)) + Recorded(marks)
    decreases |calls|
  {
    hide Good, Short, CallFine, CallWithin, AfterCall, MarkOf, All, GapCount, Actions, FailureRuns, Recorded, Marks,
      PendingAfter, ActionsOf;
    if calls == [] {
      NothingRun(s, config);
      assert Actions(All(s)) + [] == Actions(All(s));
    } else {
      var m, t := MarkOf(s, config, calls[0]), AfterCall(s, config, calls[0]);
      CallKeeps(s, base, config, calls[0]);
      CallsKeep(t, base, config, calls[1..]);
      RunSplit(s, config, calls);
      var later := Recorded(Marks(t, config, calls[1..]));
      assert Actions(All(s)) + ActionsOf(m) + later == Actions(All(s)) + (ActionsOf(m) + later);
    }
  }

  lemma {:induction false} OffStays(s: State, config: Config, calls: seq<Call>)
    requires Off(s) && AllWithin(calls)
    ensures Off(Calls(s, config, calls))
    decreases |calls|
  {
    hide Off, Good, CallFine, CallWithin, AfterCall;
    if calls != [] {
      CallStrays(s, 0, config, calls[0]);
      OffStays(AfterCall(s, config, calls[0]), config, calls[1..]);
    }
  }

  /** After any run of public calls with any failures the recorder is in a good state if and only if every
      call was fine; otherwise the chain is past repair, or the next record to land puts it there. */
  lemma {:induction false} RecorderExact(s: State, base: nat, config: Config, calls: seq<Call>)
    requires Good(s, base) && Short(s) && AllWithin(calls)
    ensures var t := Calls(s, config, calls);
      && (Good(t, base) <==> AllFine(s, config, calls))
      && (!AllFine(s, config, calls) ==> Off(t))
    decreases |calls|
  {
    hide Good, Off, Short, CallFine, CallWithin, AfterCall, MarkOf, All, GapCount, Actions;
    if calls != [] {
      var t := AfterCall(s, config, calls[0]);
      if CallFine(s, config, calls[0]) {
        CallKeeps(s, base, config, calls[0]);
        RecorderExact(t, base, config, calls[1..]);
      } else {
        CallStrays(s, base, config, calls[0]);
        OffStays(t, config, calls[1..]);
        OffNotGood(Calls(t, config, calls[1..]), base);
      }
    }
  }

  /** Over any run of fine calls: every file verifies, the first from genesis; together they hold one
      valid chain; the actions on it are those of the calls that got through, once each and in order;
      each run of remembered failures has left one gap record; the checkpoints attest, batch by batch,
      exactly the tracked records since this recorder started; and every witness record names a record
      in front of it. */
  lemma RecorderRun(s: State, base: nat, config: Config, calls: seq<Call>, k: nat)
    requires Good(s, base) && Short(s) && AllFine(s, config, calls) && AllWithin(calls)
    requires k <= |Calls(s, config, calls).segments|
    ensures base <= |All(Calls(s, config, calls))|
    ensures var t, marks := Calls(s, config, calls), Marks(s, config, calls);
      var files, own := t.segments + [t.chain.file], All(t)[base..];
      && Decide(Some(files[k]), k > 0).Returned? && Decide(Some(files[k]), k > 0).result.valid
      && ValidChain(All(t), false)
      && Actions(All(t)) == Actions(All(s)) + Recorded(marks)
      && GapCount(All(t)) == GapCount(All(s)) + FailureRuns(marks, s.pendingGap)
      && CheckpointsRight(own) && Sealed(own) + t.batch == Tracked(own)
      && WitnessesRight(All(t), base)
  {
    hide AllFine, Calls, GapCount, ValidChain, FilesRead, Decide, CheckpointsRight, Pending, Sealed, Tracked, Marks,
      Verifies, RecordsOf, Actions, Recorded, FailureRuns, WitnessesRight, AllWithin, Short, Readable, LastNumber,
      LastHash;
    CallsKeep(s, base, config, calls);
    var t := Calls(s, config, calls);
    EachFileVerifies(t.segments, t.chain.file, k);
    ValidIff(Some((t.segments + [t.chain.file])[k]), k > 0);
    BatchesPartition(All(t)[base..]);
  }

  /** Over any run of fine calls, every checkpoint seals at most two tracked records more than may wait between
      calls, and at least the configured interval if no call asks for one; and between calls there wait no
      more than the interval, where it is positive, and one. */
  lemma {:induction false} RunSeals(s: State, base: nat, config: Config, calls: seq<Call>)
    requires Good(s, base) && Short(s) && AllFine(s, config, calls) && AllWithin(calls) && Bounded(s, config)
    ensures var t := Calls(s, config, calls); var asked := exists i :: 0 <= i < |calls| && calls[i].MakeCheckpoint?;
      && Sealing(s, t, base, if asked then 0 else config.checkpointInterval, Most(config.checkpointInterval) + 2)
      && Bounded(t, config)
    decreases |calls|
  {
    hide Good, Short, CallFine, CallWithin, AfterCall, Bounded, Sealing, Added, MarkOf, All;
    var hi := Most(config.checkpointInterval) + 2;
    if calls == [] {
      StartSeals(s, base, config.checkpointInterval, hi);
    } else {
      var t, u := AfterCall(s, config, calls[0]), Calls(s, config, calls);
      CallKeeps(s, base, config, calls[0]);
      AddedGood(s, t, base, MarkOf(s, config, calls[0]));
      CallSeals(s, base, config, calls[0]);
      RunSeals(t, base, config, calls[1..]);
      if exists i :: 0 <= i < |calls| && calls[i].MakeCheckpoint? {
        var later := exists i :: 0 <= i < |calls[1..]| && calls[1..][i].MakeCheckpoint?;
        SealingWeaker(s, t, base, if calls[0].MakeCheckpoint? then 0 else config.checkpointInterval, hi);
        SealingWeaker(t, u, base, if later then 0 else config.checkpointInterval, hi);
        SealingOn(s, t, u, base, 0, hi);
      } else {
        forall i | 0 <= i < |calls[1..]|
          ensures !calls[1..][i].MakeCheckpoint?
        {
          assert calls[1..][i] == calls[i + 1];
        }
        SealingOn(s, t, u, base, config.checkpointInterval, hi);
      }
    }
  }

  lemma StartSeals(s: State, base: nat, lo: nat, hi: nat)
    requires Good(s, base)
    ensures Sealing(s, s, base, lo, hi)
  {
    hide RecordsOf, Good;
    GoodBase(s, base);
    NoneSealed(s, s, base, lo, hi);
  }

  lemma AddedGood(s: State, t: State, base: nat, m: Mark)
    requires Added(s, t, base, m)
    ensures Good(t, base) && Short(t)
  {
    hide Good, Short, All, GapCount, Actions;
  }

  /** The gap flushed after any number of safe_record calls that failed before taking a number claims one
      lost number, and carries the last error alone. */
  lemma {:induction false} OneNumberLost(s: State, config: Config, calls: seq<Call>)
    requires calls != [] && forall i :: 0 <= i < |calls| ==> calls[i].Safe? && calls[i].env.early
    requires !s.pendingGap || s.gapFirstLostSeq == s.chain.sequence + 1
    ensures var t := Calls(s, config, calls); var n := s.chain.sequence + 1;
      && t.pendingGap && t.chain == s.chain && t.gapFirstLostSeq == n
      && PendingGapOp(t) == WriteGap(n, n, INTERCEPTOR_FAILURE, calls[|calls| - 1].env.errorText)
    decreases |calls|
  {
    hide RecordAction;
    var t := AfterCall(s, config, calls[0]);
    EarlyThrown(s, config, calls[0].action, calls[0].env);
    if |calls| > 1 {
      OneNumberLost(t, config, calls[1..]);
    } else {
      assert calls[1..] == [];
    }
  }

  /** Of the calls that fail while a gap is pending, those that fail at the flush widen it by one number
      each, and the others not at all. */
  lemma GapWidens(s: State, config: Config, action: ActionPayload, env: CallWorld)
    requires s.pendingGap && (env.early || FlushFails(s, env))
    ensures var before, after := PendingGapOp(s), PendingGapOp(SafeRecord(s, config, action, env));
      && after.first == before.first && after.last == before.last + (if env.early then 0 else 1)
      && after.detail == env.errorText
  {
    hide Step, Attempt, Encodable, CanonicalBytes, Frame, RecordAction, PayloadFor;
    if env.early {
      EarlyThrown(s, config, action, env);
    } else {
      CallPhases(s, config, action, env);
      StepEffect(s.chain, PendingGapOp(s), env.flush);
    }
  }

  // --------------------------------------------------------------------- where runs start

  lemma NewChainInStep(agentId: bytes, sessionId: bytes, createdMs: nat)
    requires |agentId| == 16 && |sessionId| == 16
    ensures var w := Opened(agentId, sessionId, None, createdMs, ZERO_HASH_32, 0);
      InStep(w, []) && RecordsOf([], w.file) == []
  {
    hide Header, Readable, ReadsClean, SeqOf;
    HeaderVerifies(createdMs, false);
    assert RecordsOf([], Header(createdMs)) == [] + Readable(Some(Header(createdMs)));
  }

  /** A recorder on a chain at whose end its writer stands, before it has written anything. */
  function Fresh(w: Writer, segments: seq<bytes>): State {
    State(w, segments, false, [], 0, 0, [], 0)
  }

  lemma FreshBooks(w: Writer, segments: seq<bytes>)
    ensures Books(Fresh(w, segments), |RecordsOf(segments, w.file)|)
  {
    hide RecordsOf;
  }

  /** The opening records of a recorder whose writer stands at the end of a chain put it in a good
      state. */
  lemma OpensGood(config: Config, w: Writer, segments: seq<bytes>, env: CallWorld)
    requires InStep(w, segments) && GenesisAccepted(w, config, env)
    ensures var t := EmitGenesis(Fresh(w, segments), config, env.boot, env.key);
      && t.Fine? && Good(t.state, |RecordsOf(segments, w.file)|) && !t.state.pendingGap && Short(t.state)
      && Actions(All(t.state)) == Actions(RecordsOf(segments, w.file))
      && GapCount(All(t.state)) == GapCount(RecordsOf(segments, w.file))
  {
    hide InStep, EmitGenesis, GenesisAccepted, Readable, RecordsOf, GapCount, Actions, Books;
    var base := |RecordsOf(segments, w.file)|;
    FreshBooks(w, segments);
    GenesisKeeps(Fresh(w, segments), base, config, env);
    var t := EmitGenesis(Fresh(w, segments), config, env.boot, env.key).state;
    NowGood(Fresh(w, segments), t, base, []);
    GenesisDetail(Fresh(w, segments), config, env);
    assert Actions(RecordsOf(segments, w.file)) + [] == Actions(RecordsOf(segments, w.file));
  }

  lemma GenesisDetail(s: State, config: Config, env: CallWorld)
    ensures EmitGenesis(s, config, env.boot, env.key).state.gapDetail == s.gapDetail
  {
    hide Step, CanonicalBytes;
  }

  /** A recorder on a new chain, after its boot record and, at level 2 and above, its key record, which are what
      the chain then holds. */
  lemma StartsGood(config: Config, agentId: bytes, sessionId: bytes, createdMs: nat, env: CallWorld)
    requires |agentId| == 16 && |sessionId| == 16
    requires GenesisAccepted(Opened(agentId, sessionId, None, createdMs, ZERO_HASH_32, 0), config, env)
    ensures var w := Opened(agentId, sessionId, None, createdMs, ZERO_HASH_32, 0);
      var t := EmitGenesis(Fresh(w, []), config, env.boot, env.key);
      && t.Fine? && Good(t.state, 0) && Short(t.state) && Actions(All(t.state)) == [] && GapCount(All(t.state)) == 0
      && Wrote(Fresh(w, []), t.state, Opening(config)) && Bounded(t.state, config)
  {
    hide InStep, EmitGenesis, GenesisAccepted, Opened, Good, All, RecordsOf, Wrote, Opening;
    NewChainInStep(agentId, sessionId, createdMs);
    GenesisWrote(Fresh(Opened(agentId, sessionId, None, createdMs, ZERO_HASH_32, 0), []), config, env);
    OpensGood(config, Opened(agentId, sessionId, None, createdMs, ZERO_HASH_32, 0), [], env);
  }
}
