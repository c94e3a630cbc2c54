/** The reference witness (witness/server.py): a receipts file, three in-memory indexes, and the
    critical section of a checkpoint request. */
module WitnessServer {
  import opened Bytes

  const MAX_RECEIPTS: nat := 10000

  /** A receipt; content stands for the fields that no index uses. */
  datatype Receipt = Receipt(receiptId: string, agentId: string, sequence: int, content: string)

  type Key = (string, int)

  function KeyOf(r: Receipt): Key { (r.agentId, r.sequence) }

  // --------------------------------------------------- indexes computed from a list

  function IndexOf(receipts: seq<Receipt>): map<Key, Receipt> {
    if receipts == [] then map[]
    else IndexOf(receipts[..|receipts| - 1])[KeyOf(receipts[|receipts| - 1]) := receipts[|receipts| - 1]]
  }

  function ById(receipts: seq<Receipt>): map<string, Receipt> {
    if receipts == [] then map[]
    else ById(receipts[..|receipts| - 1])[receipts[|receipts| - 1].receiptId := receipts[|receipts| - 1]]
  }

  /** _receipts_by_agent.setdefault(agent, []).append(receipt) */
  function AddTo(byAgent: map<string, seq<Receipt>>, r: Receipt): map<string, seq<Receipt>> {
    byAgent[r.agentId := (if r.agentId in byAgent then byAgent[r.agentId] else []) + [r]]
  }

  function ByAgent(receipts: seq<Receipt>): map<string, seq<Receipt>> {
    if receipts == [] then map[] else AddTo(ByAgent(receipts[..|receipts| - 1]), receipts[|receipts| - 1])
  }

  // --------------------------------------------------------------------- the server

  /** What a request meets on disk. */
  datatype DiskLuck = DiskLuck(loads: bool, renames: bool, saves: bool)

  datatype Response = Answer(receipt: Receipt) | Failed

  datatype State = State(
    disk: Option<seq<Receipt>>, archives: seq<seq<Receipt>>,
    index: map<Key, Receipt>, byId: map<string, Receipt>, byAgent: map<string, seq<Receipt>>)

  /** The receipts on disk: those of the file, or none where there is no file. */
  function Stored(s: State): seq<Receipt> {
    match s.disk case Some(receipts) => receipts case None => []
  }

  /** The critical section of a POST, for a receipt made out with a fresh id. */
  function Post(s: State, receipt: Receipt, luck: DiskLuck): (State, Response) {
    if KeyOf(receipt) in s.index then (s, Answer(s.index[KeyOf(receipt)]))
    else if !luck.loads then (s, Failed)
    else if |Stored(s)| >= MAX_RECEIPTS && s.disk.Some? && !luck.renames then (s, Failed)
    else
      var t := if |Stored(s)| >= MAX_RECEIPTS then State(None, s.archives + [Stored(s)], map[], map[], map[]) else s;
      if !luck.saves then (t, Failed)
      else
        (State(Some(Stored(t) + [receipt]), t.archives, t.index[KeyOf(receipt) := receipt],
           t.byId[receipt.receiptId := receipt], AddTo(t.byAgent, receipt)), Answer(receipt))
  }

  /** The server after start-up, on a receipts file that loads or not. */
  function AtStart(disk: Option<seq<Receipt>>, loads: bool): State {
    var indexed := if disk.Some? && loads then disk.value else [];
    State(disk, [], IndexOf(indexed), ById(indexed), ByAgent(indexed))
  }

  class Server {
    var disk: Option<seq<Receipt>>
    var archives: seq<seq<Receipt>>
    var index: map<Key, Receipt>
    var byId: map<string, Receipt>
    var byAgent: map<string, seq<Receipt>>

    ghost function Abs(): State
      reads this
    {
      State(disk, archives, index, byId, byAgent)
    }

    /** _init_receipt_index: a file that does not load leaves the indexes empty. */
    constructor (disk: Option<seq<Receipt>>, loads: bool)
      ensures Abs() == AtStart(disk, loads)
    {
      this.disk := disk;
      archives := [];
      index, byId, byAgent := map[], map[], map[];
      new;
      var receipts := match disk case Some(rs) => if loads then rs else [] case None => [];
      for i := 0 to |receipts|
        invariant this.disk == disk && archives == []
        invariant index == IndexOf(receipts[..i]) && byId == ById(receipts[..i]) && byAgent == ByAgent(receipts[..i])
      {
        assert receipts[..i + 1][..i] == receipts[..i];
        index := index[KeyOf(receipts[i]) := receipts[i]];
        byId := byId[receipts[i].receiptId := receipts[i]];
        byAgent := AddTo(byAgent, receipts[i]);
      }
      assert receipts[..|receipts|] == receipts;
    }

    method Request(receipt: Receipt, luck: DiskLuck) returns (response: Response)
      modifies this
      ensures (Abs(), response) == Post(old(Abs()), receipt, luck)
    {
      if KeyOf(receipt) in index {
        return Answer(index[KeyOf(receipt)]);
      }
      if !luck.loads {
        return Failed;
      }
      var data := match disk case Some(rs) => rs case None => [];
      if |data| >= MAX_RECEIPTS {
        if disk.Some? {
          if !luck.renames {
            return Failed;
          }
          archives := archives + [data];
          disk := None;
        }
        data := [];
        index, byId, byAgent := map[], map[], map[];
      }
      data := data + [receipt];
      if !luck.saves {
        return Failed;
      }
      disk := Some(data);
      index := index[KeyOf(receipt) := receipt];
      byId := byId[receipt.receiptId := receipt];
      byAgent := AddTo(byAgent, receipt);
      return Answer(receipt);
    }
  }

  // ----------------------------------------------------------------------- invariant

  predicate OnePerKey(receipts: seq<Receipt>) {
    forall i, j :: 0 <= i < j < |receipts| ==> KeyOf(receipts[i]) != KeyOf(receipts[j])
  }

  /** The indexes are those of the list on disk, which holds one receipt per key and is bounded. */
  predicate Inv(s: State) {
    && s.index == IndexOf(Stored(s)) && s.byId == ById(Stored(s)) && s.byAgent == ByAgent(Stored(s))
    && OnePerKey(Stored(s)) && |Stored(s)| <= MAX_RECEIPTS
  }

  /** A key is in the index exactly if some stored receipt has it, and then it leads to that one. */
  lemma {:induction false} IndexExact(receipts: seq<Receipt>, i: nat)
    requires OnePerKey(receipts)
    ensures forall k :: k in IndexOf(receipts) <==> exists j :: 0 <= j < |receipts| && KeyOf(receipts[j]) == k
    ensures i < |receipts| ==>
      KeyOf(receipts[i]) in IndexOf(receipts) && IndexOf(receipts)[KeyOf(receipts[i])] == receipts[i]
  {
    if receipts != [] {
      var n := |receipts| - 1;
      var front := receipts[..n];
      IndexExact(front, i);
      assert forall j :: 0 <= j < n ==> front[j] == receipts[j];
    }
  }

  /** The agent index lists an agent's receipts in the order of the file, and no others. */
  lemma {:induction false} AgentListExact(receipts: seq<Receipt>, agent: string)
    ensures agent in ByAgent(receipts) <==> exists j :: 0 <= j < |receipts| && receipts[j].agentId == agent
    ensures agent in ByAgent(receipts) ==> ByAgent(receipts)[agent] == OfAgent(receipts, agent)
  {
    if receipts != [] {
      var n := |receipts| - 1;
      AgentListExact(receipts[..n], agent);
      assert forall j :: 0 <= j < n ==> receipts[..n][j] == receipts[j];
      if agent !in ByAgent(receipts[..n]) {
        NoneOfAgent(receipts[..n], agent);
      }
    } else {
      assert ByAgent(receipts) == map[];
    }
  }

  function OfAgent(receipts: seq<Receipt>, agent: string): seq<Receipt> {
    if receipts == [] then []
    else OfAgent(receipts[..|receipts| - 1], agent)
         + if receipts[|receipts| - 1].agentId == agent then [receipts[|receipts| - 1]] else []
  }

  lemma {:induction false} NoneOfAgent(receipts: seq<Receipt>, agent: string)
    requires forall j :: 0 <= j < |receipts| ==> receipts[j].agentId != agent
    ensures OfAgent(receipts, agent) == []
  {
    if receipts != [] {
      NoneOfAgent(receipts[..|receipts| - 1], agent);
    }
  }

  lemma IndexesSnoc(receipts: seq<Receipt>, r: Receipt)
    ensures IndexOf(receipts + [r]) == IndexOf(receipts)[KeyOf(r) := r]
    ensures ById(receipts + [r]) == ById(receipts)[r.receiptId := r]
    ensures ByAgent(receipts + [r]) == AddTo(ByAgent(receipts), r)
  {
    hide AddTo;
    assert (receipts + [r])[..|receipts|] == receipts;
  }

  lemma SnocOnePerKey(receipts: seq<Receipt>, r: Receipt)
    requires OnePerKey(receipts) && KeyOf(r) !in IndexOf(receipts)
    ensures OnePerKey(receipts + [r])
  {
    hide IndexOf;
    IndexExact(receipts, 0);
  }

  /** Every request keeps the invariant, including those whose load, rename or save fails. */
  lemma PostKeepsInv(s: State, receipt: Receipt, luck: DiskLuck)
    requires Inv(s)
    ensures Inv(Post(s, receipt, luck).0)
  {
    hide OnePerKey, AddTo;
    EmptyIndexes();
    SnocOnePerKey([], receipt);
    IndexesSnoc([], receipt);
    assert [] + [receipt] == [receipt];
    if KeyOf(receipt) !in s.index {
      SnocOnePerKey(Stored(s), receipt);
      IndexesSnoc(Stored(s), receipt);
    }
  }

  lemma EmptyIndexes()
    ensures IndexOf([]) == map[] && ById([]) == map[] && ByAgent([]) == map[] && OnePerKey([])
  {
  }

  /** Start-up on a bounded file with one receipt per key gives the invariant if and only if the file
      loads or holds no receipt. */
  lemma IndexedAtStart(disk: Option<seq<Receipt>>, loads: bool)
    requires var stored := if disk.Some? then disk.value else []; OnePerKey(stored) && |stored| <= MAX_RECEIPTS
    ensures var stored := if disk.Some? then disk.value else [];
      Inv(AtStart(disk, loads)) <==> loads || stored == []
  {
    hide OnePerKey;
    EmptyIndexes();
    if disk.Some? && disk.value != [] {
      assert KeyOf(disk.value[|disk.value| - 1]) in IndexOf(disk.value);
    }
  }

  /** Where it had not loaded at start-up and loads later, a stored key is given a second receipt. */
  lemma SecondReceipt(disk: seq<Receipt>, j: nat, again: Receipt)
    requires j < |disk| < MAX_RECEIPTS && KeyOf(again) == KeyOf(disk[j])
    ensures var (t, response) := Post(AtStart(Some(disk), false), again, DiskLuck(true, true, true));
      response == Answer(again) && t.disk == Some(disk + [again]) && !OnePerKey(Stored(t))
  {
    EmptyIndexes();
    var t := Post(AtStart(Some(disk), false), again, DiskLuck(true, true, true)).0;
    assert KeyOf(Stored(t)[j]) == KeyOf(Stored(t)[|disk|]);
  }

  function Requests(s: State, rs: seq<(Receipt, DiskLuck)>): State
    decreases |rs|
  {
    if rs == [] then s else Requests(Post(s, rs[0].0, rs[0].1).0, rs[1..])
  }

  /** Archives only grow; while they do not, stored receipts stay where they are. */
  lemma {:induction false} RequestsKeep(s: State, rs: seq<(Receipt, DiskLuck)>)
    requires Inv(s)
    ensures var t := Requests(s, rs);
      Inv(t) && s.archives <= t.archives && (t.archives == s.archives ==> Stored(s) <= Stored(t))
    decreases |rs|
  {
    hide Inv;
    if rs != [] {
      PostKeepsInv(s, rs[0].0, rs[0].1);
      RequestsKeep(Post(s, rs[0].0, rs[0].1).0, rs[1..]);
    }
  }

  /** Once a receipt has been given, every later request for its agent and sequence, whatever
      happened in between, gets that same receipt and changes nothing, until a rotation. */
  lemma RepeatedRequest(s: State, receipt: Receipt, luck: DiskLuck, rs: seq<(Receipt, DiskLuck)>, again: Receipt,
                        luck': DiskLuck)
    requires Inv(s) && Post(s, receipt, luck).1.Answer? && KeyOf(again) == KeyOf(receipt)
    requires var t := Post(s, receipt, luck).0; Requests(t, rs).archives == t.archives
    ensures var (t, given) := Post(s, receipt, luck);
      Post(Requests(t, rs), again, luck') == (Requests(t, rs), given)
  {
    var (t, given) := Post(s, receipt, luck);
    PostKeepsInv(s, receipt, luck);
    var i := GivenIsStored(s, receipt, luck);
    RequestsKeep(t, rs);
    IndexExact(Stored(Requests(t, rs)), i);
  }

  lemma GivenIsStored(s: State, receipt: Receipt, luck: DiskLuck) returns (i: nat)
    requires Inv(s) && Post(s, receipt, luck).1.Answer?
    ensures var (t, given) := Post(s, receipt, luck);
      i < |Stored(t)| && Stored(t)[i] == given.receipt && KeyOf(given.receipt) == KeyOf(receipt)
  {
    IndexExact(Stored(s), 0);
    var t := Post(s, receipt, luck).0;
    if KeyOf(receipt) in s.index {
      i :| 0 <= i < |Stored(s)| && KeyOf(Stored(s)[i]) == KeyOf(receipt);
      IndexExact(Stored(s), i);
    } else {
      i := |Stored(t)| - 1;
    }
  }

  // ---------------------------------------------------------- nothing given is ever lost

  function Flat(archives: seq<seq<Receipt>>): seq<Receipt> {
    if archives == [] then [] else Flat(archives[..|archives| - 1]) + archives[|archives| - 1]
  }

  /** Every receipt kept: those of the archives, oldest first, and those of the file. */
  function Everything(s: State): seq<Receipt> {
    Flat(s.archives) + Stored(s)
  }

  predicate HasKey(receipts: seq<Receipt>, k: Key) {
    exists j :: 0 <= j < |receipts| && KeyOf(receipts[j]) == k
  }

  /** One request, on 10000 stored receipts at most: a stored key gets its receipt and changes nothing; any other
      gets the new receipt, appended, if and only if the file loads, can be renamed where it is full, and can
      be saved. A full file is archived as it is, even where the new receipt cannot be saved, and in no other
      case is one archived. */
  lemma PostExact(s: State, receipt: Receipt, luck: DiskLuck)
    requires Inv(s)
    ensures var (t, response) := Post(s, receipt, luck);
      var known, full := HasKey(Stored(s), KeyOf(receipt)), |Stored(s)| == 10000;
      var archived := !known && full && luck.loads && luck.renames;
      && (response.Answer? <==> known || (luck.loads && (full ==> luck.renames) && luck.saves))
      && (known ==> t == s && response.receipt in Stored(s) && KeyOf(response.receipt) == KeyOf(receipt))
      && (response.Answer? && !known ==> response.receipt == receipt)
      && t.archives == (if archived then s.archives + [Stored(s)] else s.archives)
      && Everything(t) == Everything(s) + (if response.Answer? && !known then [receipt] else [])
  {
    hide AddTo, OnePerKey, ById, ByAgent, IndexOf, Flat;
    var t, known := Post(s, receipt, luck).0, HasKey(Stored(s), KeyOf(receipt));
    IndexExact(Stored(s), 0);
    if known {
      var j :| 0 <= j < |Stored(s)| && KeyOf(Stored(s)[j]) == KeyOf(receipt);
      IndexExact(Stored(s), j);
    } else if |Stored(s)| == 10000 && luck.loads && luck.renames {
      FlatSnoc(s.archives, Stored(s));
    }
    assert Everything(s) + [] == Everything(s);
    assert Flat(s.archives) + (Stored(s) + [receipt]) == Everything(s) + [receipt];
  }

  lemma FlatSnoc(archives: seq<seq<Receipt>>, last: seq<Receipt>)
    ensures Flat(archives + [last]) == Flat(archives) + last
  {
    assert (archives + [last])[..|archives|] == archives;
  }

  /** The receipt that a request adds, if any: a key that is not stored gets one that is. */
  function Added(s: State, receipt: Receipt, luck: DiskLuck): seq<Receipt> {
    if Post(s, receipt, luck).1.Answer? && !HasKey(Stored(s), KeyOf(receipt)) then [receipt] else []
  }

  /** The receipts that a run of requests adds. */
  function AllAdded(s: State, rs: seq<(Receipt, DiskLuck)>): seq<Receipt>
    decreases |rs|
  {
    if rs == [] then [] else Added(s, rs[0].0, rs[0].1) + AllAdded(Post(s, rs[0].0, rs[0].1).0, rs[1..])
  }

  predicate ArchivesFrom(t: State, n: nat) {
    forall i :: n <= i < |t.archives| ==> |t.archives[i]| == 10000 && OnePerKey(t.archives[i])
  }

  lemma PostConserves(s: State, receipt: Receipt, luck: DiskLuck)
    requires Inv(s)
    ensures var t := Post(s, receipt, luck).0;
      && Inv(t) && Everything(t) == Everything(s) + Added(s, receipt, luck)
      && (t.archives == s.archives
          || (t.archives == s.archives + [Stored(s)] && |Stored(s)| == 10000 && OnePerKey(Stored(s))))
  {
    hide Post, Everything, OnePerKey, IndexOf, ById, ByAgent;
    PostExact(s, receipt, luck);
    PostKeepsInv(s, receipt, luck);
  }

  /** Over any run of requests, with any failures: archives and file together hold what they held before and
      then every receipt added, once and in order, and each archive made on the way holds 10000 receipts with
      different keys. */
  lemma {:induction false} RequestsConserve(s: State, rs: seq<(Receipt, DiskLuck)>)
    requires Inv(s)
    ensures var t := Requests(s, rs);
      && Everything(t) == Everything(s) + AllAdded(s, rs) && s.archives <= t.archives
      && ArchivesFrom(t, |s.archives|)
    decreases |rs|
  {
    hide Inv, Post, Everything, OnePerKey, Added, Stored;
    if rs == [] {
      assert Everything(s) + [] == Everything(s);
    } else {
      var t, first := Post(s, rs[0].0, rs[0].1).0, Added(s, rs[0].0, rs[0].1);
      PostConserves(s, rs[0].0, rs[0].1);
      RequestsConserve(t, rs[1..]);
      assert Everything(s) + first + AllAdded(t, rs[1..]) == Everything(s) + (first + AllAdded(t, rs[1..]));
    }
  }

  /** Looking a receipt up by its id finds a stored one with that id, wherever there is one. */
  lemma {:induction false} ByIdExact(receipts: seq<Receipt>, id: string)
    ensures id in ById(receipts) <==> exists j :: 0 <= j < |receipts| && receipts[j].receiptId == id
    ensures id in ById(receipts) ==> ById(receipts)[id] in receipts && ById(receipts)[id].receiptId == id
  {
    if receipts != [] {
      var n := |receipts| - 1;
      ByIdExact(receipts[..n], id);
      assert forall j :: 0 <= j < n ==> receipts[..n][j] == receipts[j];
    }
  }
}
