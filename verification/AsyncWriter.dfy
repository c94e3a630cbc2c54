/** AsyncChainWriter (ahp/core/async_chain.py) as a protocol: producers assign records and put them
    in a bounded queue, a drain task writes them to disk, stop waits for the queue.

    A step runs from one await to the next. Cancelled producers, and a call of start that overlaps
    another one, a stop, or a write left to its thread, are not part of this model. */
module AsyncWriter {
  import opened Bytes
  import opened Records
  import opened Canonical
  import opened Parse
  import opened Frames
  import opened Layout
  import opened Verify
  import opened Accounting
  import opened WriterRuns

  /** Where the drain task is: testing its loop condition, getting an item that is there, waiting for
      one that is not, writing one, about to call task_done, ended, ended by a failed write, or
      cancelled while its thread is still writing. */
  datatype Drain =
    | NotStarted
    | AtGuard
    | AtGet
    | Waiting
    | Writing(stored: bytes)
    | Wrote(stored: bytes)
    | Ended
    | Crashed(stored: bytes)
    | Abandoned(stored: bytes)

  /** Where the first call of stop is: waiting for the queue to be done, woken since it was, waiting for
      the cancelled drain task, or completed. */
  datatype Stopping = NotCalled | Joining | Released | Cancelling | Stopped

  /** What became of one call of write_record: its number was taken and packing raised, or the record
      was accepted. */
  datatype Entry = Raised | Taken(record: Record)

  /** The writer's fields and its file. The last four fields are history: what the file held when
      writing began, the calls of write_record, the records on disk, and whether one was dropped. */
  datatype State = State(
    agentId: bytes, sessionId: bytes, maxQueue: nat,
    sequence: nat, prevHash: Digest, recordCount: nat, gapCount: nat,
    queue: Option<seq<bytes>>, unfinished: nat, running: bool, putting: Option<bytes>,
    drain: Drain, stopping: Stopping, file: Option<bytes>,
    base: bytes, log: seq<Entry>, written: seq<bytes>, dropped: bool)

  datatype Event =
    | Start(createdMs: nat)
    | Assign(payload: Payload, sessionId: Option<bytes>, timestampMs: Option<nat>, recordId: bytes, wallMs: nat)
    | Put
    | Guard
    | Get
    | Timeout
    | WriteOk
    | WriteFails
    | TaskDone
    | StopCall
    | StopAgain
    | JoinDone
    | CancelDrain

  /** A new writer on a path where a file may exist: it starts at number zero either way. */
  function Unstarted(agentId: bytes, sessionId: bytes, maxQueue: nat, existing: Option<bytes>): State {
    State(agentId, sessionId, maxQueue, 0, ZERO_HASH_32, 0, 0, None, 0, false, None, NotStarted, NotCalled, existing,
      match existing case Some(f) => f case None => [], [], [], false)
  }

  /** The records accepted so far, as they are stored. */
  function Stored(log: seq<Entry>): (records: seq<bytes>)
    ensures |records| <= |log|
  {
    if log == [] then []
    else
      Stored(log[..|log| - 1])
      + match log[|log| - 1] case Raised => [] case Taken(r) => [CanonicalBytes(r)]
  }

  function Items(q: Option<seq<bytes>>): seq<bytes> {
    match q case Some(items) => items case None => []
  }

  /** asyncio.Queue.full: a maximum of zero means no bound. */
  predicate Full(s: State) {
    s.maxQueue > 0 && |Items(s.queue)| >= s.maxQueue
  }

  /** The record that write_record builds; a timestamp of zero counts as none given. */
  function NewRecord(s: State, e: Event): Record
    requires e.Assign?
  {
    var session := if e.sessionId.Some? && e.sessionId.value != [] then e.sessionId.value else s.sessionId;
    var timestamp := if e.timestampMs.Some? && e.timestampMs.value != 0 then e.timestampMs.value else e.wallMs;
    Record(e.recordId, s.agentId, session, timestamp, s.sequence + 1, s.prevHash, SCHEMA_VERSION, TypeOf(e.payload),
      e.payload)
  }

  /** write_record up to the put, under the write lock. Without a queue the record goes nowhere. */
  function Accept(s: State, e: Event): State
    requires e.Assign?
  {
    var r := NewRecord(s, e);
    var stored := CanonicalBytes(r);
    if !Encodable(r) then s.(sequence := s.sequence + 1, log := s.log + [Entry.Raised])
    else
      var t := s.(sequence := s.sequence + 1, prevHash := Sha256(stored), recordCount := s.recordCount + 1,
        gapCount := s.gapCount + if r.recordType == GAP then 1 else 0, log := s.log + [Taken(r)]);
      if s.queue.Some? then t.(putting := Some(stored)) else t.(dropped := true)
  }

  /** The state after an event, or None where the event cannot happen. */
  function Next(s: State, e: Event): Option<State> {
    match e
    case Start(createdMs) =>
      if s.running || s.stopping in {Joining, Released, Cancelling} || s.drain.Abandoned? then None
      else Some(s.(file := if s.file.None? then Some(Header(createdMs)) else s.file,
        base := if s.file.None? then Header(createdMs) else s.base, queue := Some([]), unfinished := 0,
        running := true, drain := AtGuard, stopping := NotCalled,
        dropped := s.dropped || Items(s.queue) != [] || InFlight(s) != [] || s.putting.Some?, putting := None))
    case Assign(_, _, _, _, _) => if s.putting.Some? then None else Some(Accept(s, e))
    case Put =>
      if s.putting.None? || s.queue.None? || Full(s) then None
      else Some(s.(queue := Some(s.queue.value + [s.putting.value]), unfinished := s.unfinished + 1, putting := None))
    case Guard =>
      if s.drain != AtGuard || s.stopping == Cancelling then None
      else Some(s.(drain := if Items(s.queue) != [] then AtGet else if s.running then Waiting else Ended))
    case Get =>
      if s.drain !in {AtGet, Waiting} || s.stopping == Cancelling || Items(s.queue) == [] then None
      else Some(s.(drain := Writing(s.queue.value[0]), queue := Some(s.queue.value[1..])))
    case Timeout =>
      if s.drain != Waiting || s.stopping == Cancelling then None
      else Some(s.(drain := if s.running || Items(s.queue) != [] then AtGuard else Ended))
    case WriteOk =>
      if (!s.drain.Writing? && !s.drain.Abandoned?) || s.file.None? || |s.drain.stored| > MAX_UINT32 then None
      else Some(s.(drain := if s.drain.Writing? then Wrote(s.drain.stored) else Ended,
        file := Some(s.file.value + Frame(s.drain.stored)), written := s.written + [s.drain.stored]))
    case WriteFails =>
      if !s.drain.Writing? && !s.drain.Abandoned? then None else Some(s.(drain := Crashed(s.drain.stored)))
    case TaskDone =>
      if !s.drain.Wrote? || s.unfinished == 0 || s.stopping == Cancelling then None
      else
        Some(s.(drain := AtGuard, unfinished := s.unfinished - 1,
          stopping := if s.unfinished == 1 && s.stopping == Joining then Released else s.stopping))
    case StopCall =>
      if !s.running then None
      else Some(s.(running := false, stopping := if s.unfinished == 0 then Cancelling else Joining))
    case StopAgain =>
      if s.running then None else Some(s)
    case JoinDone =>
      if s.stopping != Released then None else Some(s.(stopping := Cancelling))
    case CancelDrain =>
      if s.stopping != Cancelling then None
      else
        Some(s.(stopping := Stopped,
          drain := match s.drain case Writing(x) => Abandoned(x) case Crashed(x) => Crashed(x) case _ => Ended))
  }

  function RunEvents(s: State, es: seq<Event>): Option<State>
    decreases |es|
  {
    if es == [] then Some(s)
    else
      match Next(s, es[0])
      case None => None
      case Some(t) => RunEvents(t, es[1..])
  }

  // ----------------------------------------------------------------------- invariant

  /** The record taken from the queue and not yet on disk. */
  function InFlight(s: State): seq<bytes> {
    match s.drain
    case Writing(stored) => [stored]
    case Crashed(stored) => [stored]
    case Abandoned(stored) => [stored]
    case _ => []
  }

  function Putting(s: State): seq<bytes> {
    match s.putting case Some(stored) => [stored] case None => []
  }

  /** Nothing is lost, repeated or reordered on the way to the disk. */
  predicate Conserved(s: State) {
    ((s.written + InFlight(s)) + Items(s.queue)) + Putting(s) == Stored(s.log)
  }

  /** The hash that the record behind n calls links to. */
  function HashBefore(log: seq<Entry>, n: nat): Digest
    requires n <= |log|
  {
    if n == 0 then ZERO_HASH_32
    else match log[n - 1] case Taken(r) => Sha256(CanonicalBytes(r)) case Raised => HashBefore(log, n - 1)
  }

  /** Each call took the next number, and each record links to the one accepted before it. */
  predicate WellLogged(log: seq<Entry>) {
    forall i :: 0 <= i < |log| && log[i].Taken? ==>
      var r := log[i].record; Built(r) && Encodable(r) && r.sequence == i + 1 && r.prevHash == HashBefore(log, i)
  }

  /** The fields stand behind the last call. */
  predicate AtLog(s: State) {
    && WellLogged(s.log) && s.sequence == |s.log| && s.prevHash == HashBefore(s.log, |s.log|)
    && s.recordCount == |Stored(s.log)|
  }

  /** The file holds what was there and what was written. */
  predicate OnDisk(s: State) {
    && (forall i :: 0 <= i < |s.written| ==> |s.written[i]| <= MAX_UINT32)
    && match s.file
       case None => s.written == []
       case Some(f) => f == s.base + EncodeFrames(s.written)
  }

  /** What the queue's own counter counts. */
  predicate Counts(s: State) {
    && (!s.stopping.Stopped? ==>
          s.unfinished == |Items(s.queue)| + if s.drain.Writing? || s.drain.Wrote? || s.drain.Crashed? then 1 else 0)
    && (s.maxQueue > 0 ==> |Items(s.queue)| <= s.maxQueue)
  }

  predicate Phases(s: State) {
    && (s.drain.NotStarted? <==> s.queue.None?) && (s.queue.Some? ==> s.file.Some?)
    && (s.drain.AtGet? ==> Items(s.queue) != [])
    && (s.queue.None? ==> s.putting.None?)
    && (s.running <==> s.queue.Some? && s.stopping.NotCalled?)
    && (s.queue.None? ==> s.stopping.NotCalled?)
    && (s.running ==> !s.drain.Ended?)
    && (s.stopping.Joining? ==> s.unfinished > 0)
    && (s.drain.Abandoned? ==> s.stopping.Stopped?)
    && (s.stopping.Stopped? ==> s.drain.Ended? || s.drain.Abandoned? || s.drain.Crashed?)
  }

  predicate Inv(s: State) {
    && |s.agentId| == 16 && |s.sessionId| == 16
    && AtLog(s) && Counts(s) && OnDisk(s) && Phases(s)
    && (!s.dropped ==> Conserved(s))
  }

  lemma UnstartedInv(agentId: bytes, sessionId: bytes, maxQueue: nat, existing: Option<bytes>)
    requires |agentId| == 16 && |sessionId| == 16
    ensures Inv(Unstarted(agentId, sessionId, maxQueue, existing))
  {
  }

  /** Ids given to write_record have the size of an id. */
  predicate EventSized(e: Event) {
    e.Assign? ==> |e.recordId| == 16 && (e.sessionId.Some? ==> |e.sessionId.value| in {0, 16})
  }

  lemma StoredSnoc(log: seq<Entry>, e: Entry)
    ensures Stored(log + [e]) == Stored(log) + match e case Raised => [] case Taken(r) => [CanonicalBytes(r)]
  {
    hide CanonicalBytes;
    assert (log + [e])[..|log|] == log;
  }

  lemma {:induction false} HashPrefix(log: seq<Entry>, e: Entry, n: nat)
    requires n <= |log|
    ensures HashBefore(log + [e], n) == HashBefore(log, n)
  {
    hide CanonicalBytes;
    if n > 0 {
      HashPrefix(log, e, n - 1);
    }
  }

  lemma LoggedSnoc(log: seq<Entry>, e: Entry)
    requires WellLogged(log)
    requires e.Taken? ==> Built(e.record) && Encodable(e.record) && e.record.sequence == |log| + 1
                          && e.record.prevHash == HashBefore(log, |log|)
    ensures WellLogged(log + [e])
  {
    hide CanonicalBytes, Encodable, Built, HashBefore;
    var all := log + [e];
    forall i | 0 <= i < |all| && all[i].Taken?
      ensures Built(all[i].record) && Encodable(all[i].record) && all[i].record.sequence == i + 1
      ensures all[i].record.prevHash == HashBefore(all, i)
    {
      HashPrefix(log, e, i);
    }
  }

  /** The call adds its entry and moves the fields behind it. */
  lemma AcceptLogs(s: State, e: Event)
    requires AtLog(s) && |s.agentId| == 16 && |s.sessionId| == 16 && e.Assign? && EventSized(e)
    ensures var t := Accept(s, e);
      && AtLog(t) && t.(sequence := s.sequence, prevHash := s.prevHash, recordCount := s.recordCount,
                        gapCount := s.gapCount, log := s.log, putting := s.putting, dropped := s.dropped) == s
      && (t.dropped || Stored(t.log) == Stored(s.log) + (if t.log[|s.log|].Raised? then [] else Putting(t)))
      && |t.log| == |s.log| + 1 && (t.log[|s.log|].Raised? ==> t.putting == s.putting)
      && (t.dropped == (s.dropped || (t.log[|s.log|].Taken? && s.queue.None?)))
      && (s.queue.None? ==> t.putting == s.putting)
  {
    hide CanonicalBytes, Encodable, TypeOf, WellLogged, HashBefore, Stored;
    var entry := if Encodable(NewRecord(s, e)) then Taken(NewRecord(s, e)) else Entry.Raised;
    LoggedSnoc(s.log, entry);
    StoredSnoc(s.log, entry);
    HashSnoc(s.log, entry);
  }

  lemma HashSnoc(log: seq<Entry>, e: Entry)
    ensures HashBefore(log + [e], |log| + 1)
         == match e case Taken(r) => Sha256(CanonicalBytes(r)) case Raised => HashBefore(log, |log|)
  {
    hide CanonicalBytes;
    HashPrefix(log, e, |log|);
  }

  lemma InvAccept(s: State, e: Event)
    requires Inv(s) && e.Assign? && EventSized(e) && s.putting.None?
    ensures Inv(Accept(s, e))
  {
    hide Accept, AtLog, Stored, EncodeFrames;
    AcceptLogs(s, e);
  }

  lemma InvStart(s: State, e: Event)
    requires Inv(s) && e.Start? && Next(s, e).Some?
    ensures Inv(Next(s, e).value)
  {
    hide WellLogged, HashBefore, Stored, Header, Frame;
    assert EncodeFrames([]) == [];
  }

  lemma InvWriteOk(s: State)
    requires Inv(s) && Next(s, WriteOk).Some?
    ensures Inv(Next(s, WriteOk).value)
  {
    hide WellLogged, HashBefore, Stored, Frame, EncodeFrames;
    FrameBehind(s.base, s.written, s.drain.stored);
    assert (s.written + [s.drain.stored]) + [] == s.written + [s.drain.stored];
  }

  lemma FrameBehind(base: bytes, written: seq<bytes>, stored: bytes)
    ensures base + EncodeFrames(written) + Frame(stored) == base + EncodeFrames(written + [stored])
  {
    hide Frame;
    EncodeFramesAppend(written, [stored]);
    assert EncodeFrames([stored]) == Frame(stored) + [];
    assert base + EncodeFrames(written) + Frame(stored) == base + (EncodeFrames(written) + Frame(stored));
  }

  lemma InvPut(s: State)
    requires Inv(s) && Next(s, Put).Some?
    ensures Inv(Next(s, Put).value)
  {
    hide WellLogged, HashBefore, Stored, GoodHeader, EncodeFrames;
  }

  lemma InvGet(s: State)
    requires Inv(s) && Next(s, Get).Some?
    ensures Inv(Next(s, Get).value)
  {
    hide WellLogged, HashBefore, Stored, GoodHeader, EncodeFrames, Full, Accept, Header, Frame, Body;
    var first, rest := s.queue.value[0], s.queue.value[1..];
    assert s.queue.value == [first] + rest;
    assert (s.written + []) + ([first] + rest) == (s.written + [first]) + rest;
  }

  lemma InvGuard(s: State, e: Event)
    requires Inv(s) && Next(s, e).Some? && e == Guard
    ensures Inv(Next(s, e).value)
  {
    hide WellLogged, HashBefore, Stored, GoodHeader, EncodeFrames, Full, Accept, Header, Frame, Body;
  }

  lemma InvTimeout(s: State, e: Event)
    requires Inv(s) && Next(s, e).Some? && e == Timeout
    ensures Inv(Next(s, e).value)
  {
    hide WellLogged, HashBefore, Stored, GoodHeader, EncodeFrames, Full, Accept, Header, Frame, Body;
  }

  lemma InvWriteFails(s: State, e: Event)
    requires Inv(s) && Next(s, e).Some? && e == WriteFails
    ensures Inv(Next(s, e).value)
  {
    hide WellLogged, HashBefore, Stored, GoodHeader, EncodeFrames, Full, Accept, Header, Frame, Body;
  }

  lemma InvTaskDone(s: State, e: Event)
    requires Inv(s) && Next(s, e).Some? && e == TaskDone
    ensures Inv(Next(s, e).value)
  {
    hide WellLogged, HashBefore, Stored, GoodHeader, EncodeFrames, Full, Accept, Header, Frame, Body;
  }

  lemma InvStopping(s: State, e: Event)
    requires Inv(s) && Next(s, e).Some? && (e == StopCall || e == JoinDone || e == CancelDrain)
    ensures Inv(Next(s, e).value)
  {
    hide WellLogged, HashBefore, Stored, GoodHeader, EncodeFrames, Full, Accept, Header, Frame, Body;
  }

  /** Every step keeps the invariant. */
  lemma InvStep(s: State, e: Event)
    requires Inv(s) && EventSized(e) && Next(s, e).Some?
    ensures Inv(Next(s, e).value)
  {
    hide Inv, EventSized;
    match e
    case Start(_) => InvStart(s, e);
    case Assign(_, _, _, _, _) => InvAccept(s, e);
    case Put => InvPut(s);
    case Get => InvGet(s);
    case WriteOk => InvWriteOk(s);
    case Guard => InvGuard(s, e);
    case Timeout => InvTimeout(s, e);
    case WriteFails => InvWriteFails(s, e);
    case TaskDone => InvTaskDone(s, e);
    case StopCall => InvStopping(s, e);
    case StopAgain =>
    case JoinDone => InvStopping(s, e);
    case CancelDrain => InvStopping(s, e);
  }

  lemma {:induction false} InvRun(s: State, es: seq<Event>)
    requires Inv(s) && RunEvents(s, es).Some? && forall i :: 0 <= i < |es| ==> EventSized(es[i])
    ensures Inv(RunEvents(s, es).value)
    decreases |es|
  {
    hide Inv, Next, EventSized;
    if es != [] {
      InvStep(s, es[0]);
      InvRun(Next(s, es[0]).value, es[1..]);
    }
  }

  // ------------------------------------------------------------------------- safety

  lemma PrefixOf(a: seq<bytes>, b: seq<bytes>, c: seq<bytes>, d: seq<bytes>)
    ensures a <= ((a + b) + c) + d
  {
  }

  /** The file before the first write: the existing one, or a new header. */
  lemma {:induction false} BaseKept(s: State, es: seq<Event>)
    requires RunEvents(s, es).Some?
    ensures var t := RunEvents(s, es).value;
      && (s.file.Some? ==> t.file.Some? && t.base == s.base)
      && (s.file.None? && t.file.Some? ==> Verifies(Some(t.base), false) && Readable(Some(t.base)) == [])
    decreases |es|
  {
    hide Verifies, Readable, Next;
    if es != [] {
      BaseStep(s, es[0]);
      BaseKept(Next(s, es[0]).value, es[1..]);
    }
  }

  lemma BaseStep(s: State, e: Event)
    requires Next(s, e).Some?
    ensures var t := Next(s, e).value;
      && (s.file.Some? ==> t.file.Some? && t.base == s.base)
      && (s.file.None? && t.file.Some? ==> Verifies(Some(t.base), false) && Readable(Some(t.base)) == [])
  {
    hide Verifies, Readable, Header, Frame, Encodable, CanonicalBytes, NewRecord;
    if e.Start? {
      HeaderVerifies(e.createdMs, false);
    }
  }

  lemma ManyAppended(file: bytes, records: seq<bytes>)
    requires ReadsClean(Some(file)) && AllSmall(records)
    ensures ReadsClean(Some(file + EncodeFrames(records)))
    ensures Readable(Some(file + EncodeFrames(records))) == Readable(Some(file)) + records
  {
    hide ReadFrame, Frame, AllSmall, EncodeFrames;
    var body, more := Body(file), EncodeFrames(records);
    assert Body(file + more) == body + more && (file + more)[..4] == file[..4];
    FramesGrow(body, more);
    EncodedOfFrames(body);
    assert Tail(body) == [] && [] + more == more == more + [];
    FramesOfEncoded(records, []);
    assert records + [] == records;
  }

  // ------------------------------------------------- which accepted records go on the chain

  /** The number of the last record accepted among the first n calls. */
  function LastTaken(log: seq<Entry>, n: nat): nat
    requires n <= |log|
  {
    if n == 0 then 0 else if log[n - 1].Taken? then n else LastTaken(log, n - 1)
  }

  /** A record accepted by call i is within the readers' limit and accounts for exactly the calls that
      raised right in front of it: an ordinary record for none, a gap record for those of its range. */
  predicate FitsAt(log: seq<Entry>, i: nat)
    requires i < |log|
  {
    log[i].Taken? ==>
      && |CanonicalBytes(log[i].record)| <= MAX_RECORD_SIZE
      && GoesOn(LastTaken(log, i), i, log[i].record.payload)
  }

  /** Of the accepted records, the first n fit. */
  predicate LandedFit(log: seq<Entry>, n: nat) {
    forall i :: 0 <= i < |log| && |Stored(log[..i])| < n ==> FitsAt(log, i)
  }

  /** So an ordinary record fits exactly if it is within the limit and no call raised right in front of
      it, and a gap record never fits where none did. */
  lemma FitsSimply(log: seq<Entry>, i: nat)
    requires i < |log| && log[i].Taken?
    ensures var r, free := log[i].record, i == 0 || log[i - 1].Taken?;
      && (!r.payload.Gap? ==> (FitsAt(log, i) <==> free && |CanonicalBytes(r)| <= MAX_RECORD_SIZE))
      && (r.payload.Gap? && free ==> !FitsAt(log, i))
  {
    hide CanonicalBytes;
    LastBelow(log, i);
  }

  /** The gap that the async recorder writes through write_record, which does not move the counter first:
      with the number taken as the first lost one, it fits if and only if that number follows the last
      accepted record and a call has raised since. After a failure that took no number it never does. */
  lemma PendingGapFits(log: seq<Entry>, i: nat, first: nat)
    requires i < |log| && log[i].Taken? && log[i].record.payload.Gap?
    requires var g, last := log[i].record.payload.gap, if first > i then first else i;
      g.firstLost == first && g.lastLost == last && g.count == last - first + 1
    ensures FitsAt(log, i)
      <==> first == LastTaken(log, i) + 1 <= i && |CanonicalBytes(log[i].record)| <= MAX_RECORD_SIZE
    ensures first > i ==> !FitsAt(log, i)
  {
    hide CanonicalBytes, LastTaken;
  }

  lemma {:induction false} LastBelow(log: seq<Entry>, n: nat)
    requires n <= |log|
    ensures LastTaken(log, n) <= n && (LastTaken(log, n) == n <==> n == 0 || log[n - 1].Taken?)
  {
    if n > 0 {
      LastBelow(log, n - 1);
    }
  }

  lemma {:induction false} LastPrefix(log: seq<Entry>, e: Entry, n: nat)
    requires n <= |log|
    ensures LastTaken(log + [e], n) == LastTaken(log, n)
  {
    if n > 0 {
      LastPrefix(log, e, n - 1);
    }
  }

  lemma FitsPrefix(log: seq<Entry>, e: Entry, i: nat)
    requires i < |log|
    ensures FitsAt(log + [e], i) == FitsAt(log, i) && Stored((log + [e])[..i]) == Stored(log[..i])
  {
    hide CanonicalBytes, GoesOn, Stored;
    LastPrefix(log, e, i);
    assert (log + [e])[..i] == log[..i];
  }

  lemma {:induction false} StoredGrows(log: seq<Entry>, i: nat)
    requires i <= |log|
    ensures |Stored(log[..i])| <= |Stored(log)|
    ensures i < |log| && log[i].Taken? ==> |Stored(log[..i])| < |Stored(log)|
    decreases |log|
  {
    hide CanonicalBytes;
    if i == |log| {
      assert log[..i] == log;
    } else {
      var front := log[..|log| - 1];
      assert front[..i] == log[..i];
      StoredGrows(front, i);
    }
  }

  /** The end of the accepted records is where the next one has to go on. */
  lemma {:induction false} StoredEnd(log: seq<Entry>)
    requires WellLogged(log)
    ensures LastNumber(Stored(log)) == LastTaken(log, |log|) && LastHash(Stored(log)) == HashBefore(log, |log|)
    decreases |log|
  {
    hide CanonicalBytes, Encodable, Built, SeqOf;
    if log != [] {
      var n := |log| - 1;
      var front, e := log[..n], log[n];
      assert log == front + [e];
      LogFront(log);
      StoredEnd(front);
      LastPrefix(front, e, n);
      HashPrefix(front, e, n);
      if e.Taken? {
        RecordSays(e.record);
      }
    }
  }

  lemma LogFront(log: seq<Entry>)
    requires WellLogged(log) && log != []
    ensures WellLogged(log[..|log| - 1])
  {
    hide CanonicalBytes, Encodable, Built, HashBefore;
    var front := log[..|log| - 1];
    assert log == front + [log[|log| - 1]];
    forall i | 0 <= i < |front| && front[i].Taken?
      ensures Built(front[i].record) && Encodable(front[i].record) && front[i].record.sequence == i + 1
      ensures front[i].record.prevHash == HashBefore(front, i)
    {
      assert log[i].Taken?;
      HashPrefix(front, log[|log| - 1], i);
    }
  }

  lemma TakenRecord(log: seq<Entry>, r: Record)
    requires WellLogged(log + [Taken(r)])
    ensures WellLogged(log) && Built(r) && Encodable(r)
    ensures r.sequence == |log| + 1 && r.prevHash == HashBefore(log, |log|)
  {
    hide CanonicalBytes, Encodable, Built, HashBefore;
    var all := log + [Taken(r)];
    assert all[|log|] == Taken(r) && all[..|all| - 1] == log;
    LogFront(all);
    HashPrefix(log, Taken(r), |log|);
  }

  /** One more accepted record goes on the chain of those before exactly if it fits. */
  lemma TakenFits(log: seq<Entry>, r: Record)
    requires WellLogged(log + [Taken(r)]) && |CanonicalBytes(r)| <= MAX_RECORD_SIZE
    ensures ValidChain(Stored(log) + [CanonicalBytes(r)], false)
      <==> ValidChain(Stored(log), false) && FitsAt(log + [Taken(r)], |log|)
  {
    hide CanonicalBytes, Encodable, ValidChain, Stored, GoodAt, SeqOf, HashBefore, LastTaken, WellLogged, Built;
    TakenRecord(log, r);
    LastPrefix(log, Taken(r), |log|);
    StoredEnd(log);
    SnocValid(Stored(log), CanonicalBytes(r), false);
    GoodIffContinues(Stored(log), r, false);
  }

  /** The first n accepted records are a chain that readers get through if and only if they all fit. */
  lemma {:induction false} LandedExact(log: seq<Entry>, n: nat)
    requires WellLogged(log) && n <= |Stored(log)|
    ensures ValidChain(Stored(log)[..n], false) && AllSmall(Stored(log)[..n]) <==> LandedFit(log, n)
    decreases |log|
  {
    hide CanonicalBytes, ValidChain, WellLogged, FitsAt, HashBefore;
    if log == [] {
      NothingValid();
    } else {
      var front, e := log[..|log| - 1], log[|log| - 1];
      assert log == front + [e];
      LogFront(log);
      forall i | 0 <= i < |front|
        ensures FitsAt(log, i) == FitsAt(front, i) && Stored(log[..i]) == Stored(front[..i])
      {
        FitsPrefix(front, e, i);
      }
      assert log[..|front|] == front;
      if n <= |Stored(front)| {
        LandedExact(front, n);
        assert Stored(front)[..n] == Stored(log)[..n];
        if e.Raised? {
          RaisedFits(log);
        }
      } else {
        LandedExact(front, n - 1);
        assert Stored(front)[..n - 1] == Stored(front);
        assert Stored(log)[..n] == Stored(front) + [CanonicalBytes(e.record)];
        LastLands(front, e.record);
        forall i | 0 <= i < |front|
          ensures |Stored(front[..i])| < n - 1 || FitsAt(front, i)
        {
          if front[i].Raised? {
            RaisedAt(front, i);
          } else {
            StoredGrows(front, i);
          }
        }
      }
    }
  }

  lemma NothingValid()
    ensures ValidChain([], false) && AllSmall([])
  {
  }

  lemma RaisedAt(log: seq<Entry>, i: nat)
    requires i < |log| && log[i].Raised?
    ensures FitsAt(log, i)
  {
  }

  lemma RaisedFits(log: seq<Entry>)
    requires log != [] && log[|log| - 1].Raised?
    ensures FitsAt(log, |log| - 1)
  {
  }

  lemma LastLands(front: seq<Entry>, r: Record)
    requires WellLogged(front + [Taken(r)])
    ensures var all, s := front + [Taken(r)], CanonicalBytes(r);
      ValidChain(Stored(front) + [s], false) && AllSmall(Stored(front) + [s])
      <==> ValidChain(Stored(front), false) && AllSmall(Stored(front)) && FitsAt(all, |front|)
  {
    hide CanonicalBytes, ValidChain, WellLogged, Stored, GoesOn;
    if |CanonicalBytes(r)| <= MAX_RECORD_SIZE {
      TakenFits(front, r);
    }
    assert (Stored(front) + [CanonicalBytes(r)])[|Stored(front)|] == CanonicalBytes(r);
    assert forall i :: 0 <= i < |Stored(front)| ==> (Stored(front) + [CanonicalBytes(r)])[i] == Stored(front)[i];
  }

  // ------------------------------------------------------------------ what the file holds

  /** With a record above the limit among them, appended records are never read through. */
  lemma {:induction false} BigUnread(file: bytes, records: seq<bytes>)
    requires ReadsClean(Some(file)) && !AllSmall(records)
    requires forall i :: 0 <= i < |records| ==> |records[i]| <= MAX_UINT32
    ensures !ReadsClean(Some(file + EncodeFrames(records)))
    decreases |records|
  {
    hide Frame, ReadsClean, Readable;
    var first, rest := records[0], records[1..];
    assert file + EncodeFrames(records) == file + Frame(first) + EncodeFrames(rest);
    if |first| > MAX_RECORD_SIZE {
      OversizedStays(file, first, EncodeFrames(rest));
    } else {
      AppendedReads(file, first);
      BigUnread(file + Frame(first), rest);
    }
  }

  /** Behind a file that reads to its end, appended records verify with those it held if and only if
      all together are a chain that readers get through. */
  lemma AppendedVerify(file: bytes, records: seq<bytes>)
    requires ReadsClean(Some(file)) && forall i :: 0 <= i < |records| ==> |records[i]| <= MAX_UINT32
    ensures Verifies(Some(file + EncodeFrames(records)), false)
      <==> AllSmall(records) && ValidChain(Readable(Some(file)) + records, false)
    ensures AllSmall(records) ==> Readable(Some(file + EncodeFrames(records))) == Readable(Some(file)) + records
  {
    hide EncodeFrames, ReadsClean, Readable, ValidChain, AllSmall;
    if AllSmall(records) {
      ManyAppended(file, records);
    } else {
      BigUnread(file, records);
    }
  }

  /** What an async writer is opened on: nothing, or a file without records. */
  predicate Blank(existing: Option<bytes>) {
    existing.Some? ==> ReadsClean(existing) && Readable(existing) == []
  }

  /** What is on disk is a prefix of what was accepted. */
  lemma WrittenPrefix(s: State)
    requires Inv(s) && !s.dropped
    ensures s.written <= Stored(s.log)
  {
    hide WellLogged, HashBefore, Stored, EncodeFrames;
    PrefixOf(s.written, InFlight(s), Items(s.queue), Putting(s));
  }

  /** A file that held no record verifies if and only if the records on disk fit. */
  lemma BlankReads(s: State)
    requires Inv(s) && !s.dropped && s.file.Some? && ReadsClean(Some(s.base)) && Readable(Some(s.base)) == []
    ensures Verifies(s.file, false) <==> LandedFit(s.log, |s.written|)
    ensures LandedFit(s.log, |s.written|) ==> Readable(s.file) == s.written
  {
    hide Frame, EncodeFrames, Stored, ReadsClean, Readable, ValidChain, WellLogged, HashBefore, LandedFit, AllSmall,
      Verifies;
    WrittenPrefix(s);
    LandedExact(s.log, |s.written|);
    assert Stored(s.log)[..|s.written|] == s.written && [] + s.written == s.written;
    AppendedVerify(s.base, s.written);
  }

  /** In every reachable state, under every interleaving of producers, drain and stop: what is on
      disk, in flight, queued and waiting to be put is what was accepted, in order; the queue is
      within its bound; and a file that was missing or held no record verifies, with exactly the
      records on disk, if and only if those records fit. */
  lemma ReachableSafe(agentId: bytes, sessionId: bytes, maxQueue: nat, existing: Option<bytes>, es: seq<Event>)
    requires |agentId| == 16 && |sessionId| == 16 && forall i :: 0 <= i < |es| ==> EventSized(es[i])
    requires RunEvents(Unstarted(agentId, sessionId, maxQueue, existing), es).Some?
    ensures var s := RunEvents(Unstarted(agentId, sessionId, maxQueue, existing), es).value;
      && (!s.dropped ==> Conserved(s) && s.written <= Stored(s.log))
      && (s.maxQueue > 0 ==> |Items(s.queue)| <= s.maxQueue)
      && (!s.dropped && s.file.Some? && Blank(existing) ==>
            && (Verifies(s.file, false) <==> LandedFit(s.log, |s.written|))
            && (LandedFit(s.log, |s.written|) ==>
                  && Readable(s.file) == s.written
                  && Decide(s.file, false)
                     == Returned(VerifyResult(true, |s.written|, GapCount(s.written), None, None, None, None))))
  {
    hide RunEvents, Decide, Readable, Conserved, Items, ReadsClean, ValidChain, LandedFit, Verifies, AtLog, OnDisk,
      Stored;
    UnstartedInv(agentId, sessionId, maxQueue, existing);
    InvRun(Unstarted(agentId, sessionId, maxQueue, existing), es);
    BaseKept(Unstarted(agentId, sessionId, maxQueue, existing), es);
    var s := RunEvents(Unstarted(agentId, sessionId, maxQueue, existing), es).value;
    if !s.dropped {
      WrittenPrefix(s);
      if s.file.Some? && Blank(existing) {
        BaseClean(s);
        BlankReads(s);
        ValidIff(s.file, false);
      }
    }
  }

  lemma BaseClean(s: State)
    ensures Verifies(Some(s.base), false) ==> ReadsClean(Some(s.base))
  {
  }

  /** A new writer starts at number one, which does not go on from records that are already there, unless
      its first calls raised; the hash it links to would then have to be that of the last of them. */
  lemma NoSecondStart(before: seq<bytes>, log: seq<Entry>, written: seq<bytes>)
    requires WellLogged(log) && written <= Stored(log) && before != [] && written != []
    requires ValidChain(before + written, false)
    ensures log[0].Raised? && LastHash(before) == ZERO_HASH_32
  {
    hide CanonicalBytes, Encodable, Stored, WellLogged, GoodAt, SeqOf;
    var k := FirstTaken(log);
    var r := log[k].record;
    assert written[0] == CanonicalBytes(r);
    FirstLogged(log, k);
    RecordSays(r);
    FirstBehind(before, written);
    PrefixValid(before + written, |before|, false);
    assert (before + written)[..|before|] == before;
    NumbersFromOne(before);
  }

  lemma FirstLogged(log: seq<Entry>, k: nat)
    requires WellLogged(log) && k < |log| && log[k].Taken? && forall i :: 0 <= i < k ==> log[i].Raised?
    ensures var r := log[k].record; Built(r) && Encodable(r) && r.sequence == k + 1 && r.prevHash == ZERO_HASH_32
  {
    hide CanonicalBytes, Encodable, Built;
    NoHashYet(log, k);
  }

  lemma {:induction false} NoHashYet(log: seq<Entry>, k: nat)
    requires k <= |log| && forall i :: 0 <= i < k ==> log[i].Raised?
    ensures HashBefore(log, k) == ZERO_HASH_32
  {
    hide CanonicalBytes;
    if k > 0 {
      NoHashYet(log, k - 1);
    }
  }

  lemma {:induction false} FirstTaken(log: seq<Entry>) returns (k: nat)
    requires Stored(log) != []
    ensures k < |log| && log[k].Taken? && Stored(log)[0] == CanonicalBytes(log[k].record)
    ensures forall i :: 0 <= i < k ==> log[i].Raised?
    decreases |log|
  {
    hide CanonicalBytes;
    var front := log[..|log| - 1];
    if Stored(front) == [] {
      k := |log| - 1;
      NoneTaken(front);
    } else {
      k := FirstTaken(front);
    }
  }

  lemma {:induction false} NoneTaken(log: seq<Entry>)
    requires Stored(log) == []
    ensures forall i :: 0 <= i < |log| ==> log[i].Raised?
    decreases |log|
  {
    hide CanonicalBytes;
    if log != [] {
      NoneTaken(log[..|log| - 1]);
    }
  }

  lemma FirstBehind(before: seq<bytes>, written: seq<bytes>)
    requires ValidChain(before + written, false) && before != [] && written != []
    ensures PrevHashOf(written[0]) == LastHash(before) && SeqOf(written[0]) > LastNumber(before)
  {
    hide SeqOf, PrevHashOf, RecordOk, IsGap, GapIn;
    assert GoodAt(before + written, |before|, false);
  }

  lemma NumbersFromOne(before: seq<bytes>)
    requires ValidChain(before, false) && before != []
    ensures LastNumber(before) >= 1
  {
    hide SeqOf, PrevHashOf, RecordOk, IsGap, GapIn;
    assert GoodAt(before, |before| - 1, false) && GoodAt(before, 0, false);
    RecordAccounts(before, |before| - 1, false, 0);
  }

  /** On a file that already verifies and holds records: once a record has landed, the file verifies no
      more, except that a first call may have raised and the last record's hash may be all zeros. */
  lemma ExistingFile(agentId: bytes, sessionId: bytes, maxQueue: nat, f: bytes, es: seq<Event>)
    requires |agentId| == 16 && |sessionId| == 16 && forall i :: 0 <= i < |es| ==> EventSized(es[i])
    requires Verifies(Some(f), false) && RunEvents(Unstarted(agentId, sessionId, maxQueue, Some(f)), es).Some?
    ensures var s := RunEvents(Unstarted(agentId, sessionId, maxQueue, Some(f)), es).value;
      !s.dropped && s.written != [] && Readable(Some(f)) != [] ==>
        && s.file.Some?
        && (Verifies(s.file, false) ==> s.log != [] && s.log[0].Raised? && LastHash(Readable(Some(f))) == ZERO_HASH_32)
  {
    hide RunEvents, Readable, Items, ReadsClean, ValidChain, Stored, WellLogged, HashBefore, EncodeFrames, LastHash,
      AllSmall;
    UnstartedInv(agentId, sessionId, maxQueue, Some(f));
    InvRun(Unstarted(agentId, sessionId, maxQueue, Some(f)), es);
    BaseKept(Unstarted(agentId, sessionId, maxQueue, Some(f)), es);
    var s := RunEvents(Unstarted(agentId, sessionId, maxQueue, Some(f)), es).value;
    if !s.dropped && s.written != [] && Readable(Some(f)) != [] && Verifies(s.file, false) {
      WrittenPrefix(s);
      AppendedVerify(f, s.written);
      NoSecondStart(Readable(Some(f)), s.log, s.written);
    }
  }

  // ------------------------------------------------------------------ stop terminates

  /** The length of every accepted record fits its 32-bit prefix. */
  predicate Framed(s: State) {
    forall i :: 0 <= i < |Stored(s.log)| ==> |Stored(s.log)[i]| <= MAX_UINT32
  }

  /** stop has been called, producers are done, and no write has failed. */
  predicate Draining(s: State) {
    && Inv(s) && Framed(s) && !s.dropped && s.putting.None?
    && s.stopping in {Joining, Released, Cancelling} && !s.drain.Crashed?
    && (s.drain.Ended? ==> Items(s.queue) == [])
    && (s.stopping in {Released, Cancelling} ==> s.unfinished == 0)
  }

  /** The steps of the drain task and of stop, without disk errors. */
  predicate Internal(e: Event) {
    e in {Guard, Get, Timeout, WriteOk, TaskDone, JoinDone, CancelDrain}
  }

  function Rank(s: State): nat {
    4 * |Items(s.queue)|
    + (match s.drain
       case Writing(_) => 5 case Wrote(_) => 4 case Waiting => 4 case AtGuard => 3 case AtGet => 2 case _ => 0)
    + (match s.stopping case Joining => 3 case Released => 2 case Cancelling => 1 case _ => 0)
  }

  /** Nothing can block: some step of the drain task or of stop is always possible. */
  lemma DrainCanStep(s: State) returns (e: Event)
    requires Draining(s)
    ensures Internal(e) && Next(s, e).Some?
  {
    hide WellLogged, HashBefore, Stored, EncodeFrames;
    e := Guard;
    if s.stopping.Cancelling? {
      e := CancelDrain;
    } else if s.stopping.Released? {
      e := JoinDone;
    } else {
      match s.drain
      case AtGuard => e := Guard;
      case AtGet => e := Get;
      case Waiting => e := Timeout;
      case Writing(stored) =>
        e := WriteOk;
        assert Stored(s.log)[|s.written|] == stored;
      case Wrote(_) => e := TaskDone;
      case Ended => assert false;
    }
  }

  /** And every such step leads closer to the end, which has everything on disk. */
  lemma DrainStep(s: State, e: Event)
    requires Draining(s) && Internal(e) && Next(s, e).Some?
    ensures var t := Next(s, e).value;
      && Rank(t) < Rank(s) && t.log == s.log
      && Inv(t) && if t.stopping.Stopped? then t.written == Stored(t.log) && t.drain.Ended? else Draining(t)
  {
    hide WellLogged, HashBefore, Stored, EncodeFrames, Full, Accept, OnDisk, Header, Frame;
    InvStep(s, e);
    assert (s.written + []) + [] == s.written;
  }

  lemma NothingAfterStop(t: State)
    requires Inv(t) && t.stopping.Stopped? && t.drain.Ended?
    ensures forall e :: Internal(e) ==> Next(t, e).None?
  {
    hide WellLogged, HashBefore, Stored, EncodeFrames;
  }

  /** Once stop has been called and the producers are done, every run of the drain task and of stop
      is finite, and one that cannot go on has stopped with all accepted records on disk. */
  lemma {:induction false} StopTerminates(s: State, es: seq<Event>)
    requires Draining(s) && RunEvents(s, es).Some? && forall i :: 0 <= i < |es| ==> Internal(es[i])
    ensures |es| <= Rank(s)
    ensures (forall e :: Internal(e) ==> Next(RunEvents(s, es).value, e).None?) ==>
      var t := RunEvents(s, es).value; t.stopping.Stopped? && t.written == Stored(s.log)
    decreases |es|
  {
    hide Next, Draining;
    if es == [] {
      var e := DrainCanStep(s);
    } else {
      DrainStep(s, es[0]);
      var t := Next(s, es[0]).value;
      if t.stopping.Stopped? {
        NothingAfterStop(t);
        assert es[1..] == [];
      } else {
        StopTerminates(t, es[1..]);
      }
    }
  }

  lemma StopBegins(s: State)
    requires Inv(s) && s.running && Framed(s) && !s.dropped && s.putting.None? && !s.drain.Crashed?
    ensures Next(s, StopCall).Some? && Draining(Next(s, StopCall).value)
    ensures Next(s, StopCall).value.log == s.log
  {
    hide WellLogged, HashBefore, Stored, EncodeFrames;
    InvStopping(s, StopCall);
  }

  /** stop, called in any state with no producer waiting and no failed write: whatever the drain task
      and stop do after that, they do not go on for ever, and where they cannot go on, stop has
      completed with all accepted records on disk. */
  lemma StopCompletes(s: State, es: seq<Event>)
    requires Inv(s) && s.running && Framed(s) && !s.dropped && s.putting.None? && !s.drain.Crashed?
    requires RunEvents(s, [StopCall] + es).Some? && forall i :: 0 <= i < |es| ==> Internal(es[i])
    ensures |es| <= Rank(Next(s, StopCall).value)
    ensures (forall e :: Internal(e) ==> Next(RunEvents(s, [StopCall] + es).value, e).None?) ==>
      var t := RunEvents(s, [StopCall] + es).value; t.stopping.Stopped? && t.written == Stored(s.log)
  {
    hide Next, Draining, Inv, Internal, Rank;
    StopBegins(s);
    assert ([StopCall] + es)[0] == StopCall && ([StopCall] + es)[1..] == es;
    StopTerminates(Next(s, StopCall).value, es);
  }

  /** After a failed write the first call of stop never completes, whatever happens; later calls
      return at once and change nothing. */
  lemma {:induction false} FailedWriteBlocksStop(s: State, es: seq<Event>)
    requires Inv(s) && s.drain.Crashed? && s.stopping in {NotCalled, Joining}
    requires RunEvents(s, es).Some? && forall i :: 0 <= i < |es| ==> EventSized(es[i])
    ensures var t := RunEvents(s, es).value; t.drain.Crashed? && t.stopping in {NotCalled, Joining}
    decreases |es|
  {
    hide Inv, EventSized, Next;
    if es != [] {
      InvStep(s, es[0]);
      CrashedStep(s, es[0]);
      FailedWriteBlocksStop(Next(s, es[0]).value, es[1..]);
    }
  }

  lemma CrashedStep(s: State, e: Event)
    requires Inv(s) && s.drain.Crashed? && s.stopping in {NotCalled, Joining} && Next(s, e).Some?
    ensures var t := Next(s, e).value; t.drain.Crashed? && t.stopping in {NotCalled, Joining}
  {
    hide AtLog, OnDisk, Conserved, Stored, CanonicalBytes, Encodable, NewRecord, Frame, Header;
  }

  // -------------------------------------------------------------- whose records they are

  /** What a call of write_record takes and stores: fresh id, the writer's agent, the session and time of the
      call unless it gives none, an empty session or a time of zero, the next number, the hash in memory. A
      record whose values fit moves hash and counters and is handed to the queue; any other only uses up
      the number. Nothing is validated, and no clock floor is kept. */
  lemma AcceptFields(s: State, e: Event)
    requires e.Assign?
    ensures var r := Record(e.recordId, s.agentId,
        if e.sessionId.Some? && e.sessionId.value != [] then e.sessionId.value else s.sessionId,
        if e.timestampMs.Some? && e.timestampMs.value > 0 then e.timestampMs.value else e.wallMs,
        s.sequence + 1, s.prevHash, 2, TypeCode(e.payload) as int, e.payload);
      var stored, t := CanonicalBytes(r), Accept(s, e);
      if !Encodable(r) then t == s.(sequence := s.sequence + 1, log := s.log + [Entry.Raised])
      else
        t == s.(sequence := s.sequence + 1, prevHash := Sha256(stored), recordCount := s.recordCount + 1,
          gapCount := s.gapCount + (if e.payload.Gap? then 1 else 0), log := s.log + [Taken(r)],
          putting := if s.queue.Some? then Some(stored) else s.putting, dropped := s.dropped || s.queue.None?)
  {
    hide Encodable, CanonicalBytes;
  }

  /** A put waits exactly while a bounded queue is full. */
  lemma PutWaits(s: State)
    requires s.putting.Some? && s.queue.Some?
    ensures Next(s, Put).None? <==> s.maxQueue > 0 && |s.queue.value| >= s.maxQueue
    ensures Next(s, Put).Some? ==> Next(s, Put).value.queue == Some(s.queue.value + [s.putting.value])
  {
    hide Accept;
  }

  /** Every stored record carries this agent id and, unless a call gave another one, this session id. */
  predicate Owned(records: seq<bytes>, agentId: bytes, sessions: set<bytes>) {
    forall i :: 0 <= i < |records| ==>
      |records[i]| >= 108 && records[i][16..32] == agentId && records[i][32..48] in sessions
  }

  /** The session ids that may occur: the writer's, and those given with calls. */
  function Sessions(sessionId: bytes, es: seq<Event>): (r: set<bytes>)
    ensures sessionId in r
  {
    if es == [] then {sessionId}
    else
      Sessions(sessionId, es[..|es| - 1])
      + var e := es[|es| - 1]; if e.Assign? && e.sessionId.Some? then {e.sessionId.value} else {}
  }

  lemma OwnedStep(s: State, e: Event, sessions: set<bytes>)
    requires Inv(s) && EventSized(e) && Next(s, e).Some? && Owned(Stored(s.log), s.agentId, sessions)
    requires s.sessionId in sessions && (e.Assign? && e.sessionId.Some? ==> e.sessionId.value in sessions)
    ensures var t := Next(s, e).value;
      t.agentId == s.agentId && t.sessionId == s.sessionId && Owned(Stored(t.log), s.agentId, sessions)
  {
    hide CanonicalBytes, Encodable, Stored, Conserved, OnDisk, WellLogged, HashBefore, EncodeFrames, Frame, Header;
    if e.Assign? {
      AcceptFields(s, e);
      var r := NewRecord(s, e);
      if Encodable(r) {
        StoredSnoc(s.log, Taken(r));
        OwnRecord(r);
      } else {
        StoredSnoc(s.log, Entry.Raised);
        assert Stored(s.log) + [] == Stored(s.log);
      }
    }
  }

  lemma OwnRecord(r: Record)
    requires Built(r) && Encodable(r)
    ensures var stored := CanonicalBytes(r);
      |stored| >= 108 && stored[16..32] == r.agentId && stored[32..48] == r.sessionId
  {
    hide CanonicalBytes, PayloadFits, PayloadBytes, Fit, EnvelopeFields, EnvelopeWellFormed;
    BuiltEnvelope(r);
    StoredLayout(r);
  }

  /** Over every run, whatever happens to calls, queue, disk and stop, every accepted record carries the
      writer's agent id and a session id that is the writer's or was given with a call. */
  lemma {:induction false} AsyncIdentity(agentId: bytes, sessionId: bytes, maxQueue: nat, existing: Option<bytes>,
                                         es: seq<Event>)
    requires |agentId| == 16 && |sessionId| == 16 && (forall i :: 0 <= i < |es| ==> EventSized(es[i]))
    requires RunEvents(Unstarted(agentId, sessionId, maxQueue, existing), es).Some?
    ensures var t := RunEvents(Unstarted(agentId, sessionId, maxQueue, existing), es).value;
      && t.agentId == agentId && t.sessionId == sessionId
      && Owned(Stored(t.log), agentId, Sessions(sessionId, es))
    decreases |es|
  {
    hide Next, Inv, Owned, EventSized, Stored;
    var s := Unstarted(agentId, sessionId, maxQueue, existing);
    UnstartedInv(agentId, sessionId, maxQueue, existing);
    if es == [] {
      NothingOwned(agentId, Sessions(sessionId, es));
    } else {
      var front, e := es[..|es| - 1], es[|es| - 1];
      assert es == front + [e];
      RunSnoc(s, front, e);
      AsyncIdentity(agentId, sessionId, maxQueue, existing, front);
      InvRun(s, front);
      var t := RunEvents(s, front).value;
      OwnedMore(Stored(t.log), agentId, Sessions(sessionId, front), Sessions(sessionId, es));
      OwnedStep(t, e, Sessions(sessionId, es));
    }
  }

  lemma NothingOwned(agentId: bytes, sessions: set<bytes>)
    ensures Owned(Stored([]), agentId, sessions)
  {
  }

  lemma OwnedMore(records: seq<bytes>, agentId: bytes, few: set<bytes>, many: set<bytes>)
    requires Owned(records, agentId, few) && few <= many
    ensures Owned(records, agentId, many)
  {
  }

  lemma {:induction false} RunSnoc(s: State, es: seq<Event>, e: Event)
    ensures RunEvents(s, es + [e]) == match RunEvents(s, es) case None => None case Some(t) => Next(t, e)
    decreases |es|
  {
    hide Next;
    var all := es + [e];
    if es == [] {
      OneEvent(s, e);
      assert all == [e];
    } else {
      assert all[0] == es[0] && all[1..] == es[1..] + [e];
      if Next(s, es[0]).Some? {
        RunSnoc(Next(s, es[0]).value, es[1..], e);
      }
    }
  }

  lemma OneEvent(s: State, e: Event)
    ensures RunEvents(s, [e]) == Next(s, e)
  {
    hide Next;
  }
}
