/** Causal trees: the display of `ahp trace` (ahp/cli/main.py, cmd_trace) and the spans that produce
    the parent pointers (ahp/tracing.py). */
module CausalTree {
  import opened Bytes

  /** A session record as cmd_trace uses it; parent is absent for records that are no actions and
      for the zero pointer. */
  datatype Node = Node(seqNo: nat, id: bytes, parent: Option<bytes>)

  /** The records of one chain: sequence numbers rise and ids are distinct. Where the parent pointers
      lead is left open. */
  predicate Session(nodes: seq<Node>) {
    && (forall i, j :: 0 <= i < j < |nodes| ==> nodes[i].seqNo < nodes[j].seqNo)
    && (forall i, j :: 0 <= i < j < |nodes| ==> nodes[i].id != nodes[j].id)
  }

  // ------------------------------------------------------------------- specification

  /** c hangs below i. */
  predicate ChildOf(nodes: seq<Node>, c: nat, i: nat)
    requires c < |nodes| && i < |nodes|
  {
    nodes[c].parent == Some(nodes[i].id)
  }

  predicate IsRoot(nodes: seq<Node>, c: nat)
    requires c < |nodes|
  {
    forall j :: 0 <= j < |nodes| ==> !ChildOf(nodes, c, j)
  }

  /** The parent chain of i reaches a root after d steps. */
  ghost predicate Depth(nodes: seq<Node>, i: nat, d: nat)
    requires i < |nodes|
    decreases d
  {
    if d == 0 then IsRoot(nodes, i)
    else exists p :: 0 <= p < |nodes| && ChildOf(nodes, i, p) && Depth(nodes, p, d - 1)
  }

  /** The parent chain of j reaches a root. */
  ghost predicate Rooted(nodes: seq<Node>, j: nat)
    requires j < |nodes|
  {
    exists d :: Depth(nodes, j, d)
  }

  /** The children of i among the first n records, in order. */
  function Children(nodes: seq<Node>, i: nat, n: nat): (cs: seq<nat>)
    requires i < |nodes| && n <= |nodes|
    ensures forall k :: 0 <= k < |cs| ==> cs[k] < n && ChildOf(nodes, cs[k], i)
    ensures forall k, l :: 0 <= k < l < |cs| ==> cs[k] < cs[l]
  {
    if n == 0 then [] else Children(nodes, i, n - 1) + if ChildOf(nodes, n - 1, i) then [n - 1] else []
  }

  function Roots(nodes: seq<Node>, n: nat): (rs: seq<nat>)
    requires n <= |nodes|
    ensures forall k :: 0 <= k < |rs| ==> rs[k] < n && IsRoot(nodes, rs[k])
    ensures forall k, l :: 0 <= k < l < |rs| ==> rs[k] < rs[l]
  {
    if n == 0 then [] else Roots(nodes, n - 1) + if IsRoot(nodes, n - 1) then [n - 1] else []
  }

  predicate Within(list: seq<nat>, n: nat) {
    forall k :: 0 <= k < |list| ==> list[k] < n
  }

  predicate Rising(list: seq<nat>) {
    forall k, l :: 0 <= k < l < |list| ==> list[k] < list[l]
  }

  ghost predicate AllAt(nodes: seq<Node>, list: seq<nat>, d: nat) {
    forall k :: 0 <= k < |list| ==> list[k] < |nodes| && Depth(nodes, list[k], d)
  }

  lemma ChildrenAt(nodes: seq<Node>, i: nat, d: nat)
    requires i < |nodes| && Depth(nodes, i, d)
    ensures AllAt(nodes, Children(nodes, i, |nodes|), d + 1) && Rising(Children(nodes, i, |nodes|))
    ensures Within(Children(nodes, i, |nodes|), |nodes|)
  {
    hide IsRoot;
  }

  lemma RootsAt(nodes: seq<Node>)
    ensures AllAt(nodes, Roots(nodes, |nodes|), 0) && Rising(Roots(nodes, |nodes|))
    ensures Within(Roots(nodes, |nodes|), |nodes|)
  {
    hide IsRoot;
  }

  // -------------------------------------------------------- the recursion comes to an end

  lemma OneParent(nodes: seq<Node>, c: nat, p: nat, q: nat)
    requires Session(nodes) && c < |nodes| && p < |nodes| && q < |nodes| && ChildOf(nodes, c, p) && ChildOf(nodes, c, q)
    ensures p == q
  {
  }

  lemma {:induction false} DepthUnique(nodes: seq<Node>, i: nat, d: nat, e: nat)
    requires Session(nodes) && i < |nodes| && Depth(nodes, i, d) && Depth(nodes, i, e)
    ensures d == e
    decreases d
  {
    hide Session, ChildOf;
    if d > 0 && e > 0 {
      var p :| 0 <= p < |nodes| && ChildOf(nodes, i, p) && Depth(nodes, p, d - 1);
      var q :| 0 <= q < |nodes| && ChildOf(nodes, i, q) && Depth(nodes, q, e - 1);
      OneParent(nodes, i, p, q);
      DepthUnique(nodes, p, d - 1, e - 1);
    }
  }

  ghost predicate WithinDepth(nodes: seq<Node>, x: nat, d: nat) {
    x < |nodes| && exists e :: 0 <= e <= d && Depth(nodes, x, e)
  }

  /** The d + 1 different records on the way from i up to its root. */
  lemma {:induction false} WayUp(nodes: seq<Node>, i: nat, d: nat) returns (way: set<nat>)
    requires Session(nodes) && i < |nodes| && Depth(nodes, i, d)
    ensures |way| == d + 1
    ensures forall x :: x in way ==> WithinDepth(nodes, x, d)
    decreases d
  {
    hide Session, ChildOf, IsRoot;
    assert WithinDepth(nodes, i, d);
    if d == 0 {
      way := {i};
    } else {
      var p :| 0 <= p < |nodes| && ChildOf(nodes, i, p) && Depth(nodes, p, d - 1);
      var above := WayUp(nodes, p, d - 1);
      if WithinDepth(nodes, i, d - 1) {
        var e :| 0 <= e <= d - 1 && Depth(nodes, i, e);
        DepthUnique(nodes, i, d, e);
      }
      assert i !in above;
      way := above + {i};
      assert forall x :: x in above ==> WithinDepth(nodes, x, d - 1) && WithinDepth(nodes, x, d);
    }
  }

  lemma {:induction false} BelowCount(s: set<nat>, n: nat)
    requires forall x :: x in s ==> x < n
    ensures |s| <= n
    decreases n
  {
    if n == 0 {
      assert s == {};
    } else {
      BelowCount(s - {n - 1}, n - 1);
      if n - 1 in s {
        assert |s| == |s - {n - 1}| + 1;
      } else {
        assert s - {n - 1} == s;
      }
    }
  }

  /** No way up to a root is longer than the session. */
  lemma DepthBound(nodes: seq<Node>, i: nat, d: nat)
    requires Session(nodes) && i < |nodes| && Depth(nodes, i, d)
    ensures d < |nodes|
  {
    hide Session, Depth;
    var way := WayUp(nodes, i, d);
    BelowCount(way, |nodes|);
  }

  /** The records shown for the tree at i: itself, then its children's trees. */
  ghost function Show(nodes: seq<Node>, i: nat, d: nat): seq<nat>
    requires Session(nodes) && i < |nodes| && Depth(nodes, i, d)
    decreases |nodes| - d, 0
  {
    DepthBound(nodes, i, d);
    ChildrenAt(nodes, i, d);
    [i] + ShowAll(nodes, Children(nodes, i, |nodes|), d + 1)
  }

  ghost function ShowAll(nodes: seq<Node>, list: seq<nat>, d: nat): seq<nat>
    requires Session(nodes) && d <= |nodes| && AllAt(nodes, list, d)
    decreases |nodes| - d, |list| + 1
  {
    if list == [] then [] else Show(nodes, list[0], d) + ShowAll(nodes, list[1..], d)
  }

  /** The whole display. */
  ghost function Display(nodes: seq<Node>): seq<nat>
    requires Session(nodes)
  {
    RootsAt(nodes);
    ShowAll(nodes, Roots(nodes, |nodes|), 0)
  }

  // ------------------------------------------------------------- what is shown, how often

  /** i is k steps above j. */
  ghost predicate Above(nodes: seq<Node>, i: nat, j: nat, k: nat)
    requires i < |nodes| && j < |nodes|
    decreases k
  {
    if k == 0 then i == j
    else exists p :: 0 <= p < |nodes| && ChildOf(nodes, j, p) && Above(nodes, i, p, k - 1)
  }

  ghost predicate IsAbove(nodes: seq<Node>, i: nat, j: nat)
    requires i < |nodes| && j < |nodes|
  {
    exists k :: Above(nodes, i, j, k)
  }

  function Count(list: seq<nat>, x: nat): nat { multiset(list)[x] }

  /** How many of these records are above j. */
  ghost function AboveCount(nodes: seq<Node>, list: seq<nat>, j: nat): nat
    requires Within(list, |nodes|) && j < |nodes|
  {
    if list == [] then 0 else (if IsAbove(nodes, list[0], j) then 1 else 0) + AboveCount(nodes, list[1..], j)
  }

  lemma {:induction false} AboveDepth(nodes: seq<Node>, i: nat, j: nat, k: nat, d: nat)
    requires i < |nodes| && j < |nodes| && Above(nodes, i, j, k) && Depth(nodes, i, d)
    ensures Depth(nodes, j, d + k)
    decreases k
  {
    hide ChildOf, IsRoot;
    if k > 0 {
      var p :| 0 <= p < |nodes| && ChildOf(nodes, j, p) && Above(nodes, i, p, k - 1);
      AboveDepth(nodes, i, p, k - 1, d);
    }
  }

  lemma {:induction false} AboveSame(nodes: seq<Node>, a: nat, b: nat, j: nat, k: nat)
    requires Session(nodes) && a < |nodes| && b < |nodes| && j < |nodes|
    requires Above(nodes, a, j, k) && Above(nodes, b, j, k)
    ensures a == b
    decreases k
  {
    hide Session, ChildOf;
    if k > 0 {
      var p :| 0 <= p < |nodes| && ChildOf(nodes, j, p) && Above(nodes, a, p, k - 1);
      var q :| 0 <= q < |nodes| && ChildOf(nodes, j, q) && Above(nodes, b, q, k - 1);
      OneParent(nodes, j, p, q);
      AboveSame(nodes, a, b, p, k - 1);
    }
  }

  /** Of the records at one depth, at most one is above j. */
  lemma LevelApart(nodes: seq<Node>, a: nat, b: nat, j: nat, d: nat)
    requires Session(nodes) && a < |nodes| && b < |nodes| && j < |nodes|
    requires Depth(nodes, a, d) && Depth(nodes, b, d) && IsAbove(nodes, a, j) && IsAbove(nodes, b, j)
    ensures a == b
  {
    hide Session, Depth, Above;
    var k :| Above(nodes, a, j, k);
    var l :| Above(nodes, b, j, l);
    AboveDepth(nodes, a, j, k, d);
    AboveDepth(nodes, b, j, l, d);
    DepthUnique(nodes, j, d + k, d + l);
    AboveSame(nodes, a, b, j, k);
  }

  /** The child of i through which j is reached. */
  lemma {:induction false} Through(nodes: seq<Node>, i: nat, j: nat, k: nat) returns (c: nat)
    requires i < |nodes| && j < |nodes| && Above(nodes, i, j, k) && k > 0
    ensures c < |nodes| && ChildOf(nodes, c, i) && Above(nodes, c, j, k - 1)
    decreases k
  {
    hide ChildOf;
    var p :| 0 <= p < |nodes| && ChildOf(nodes, j, p) && Above(nodes, i, p, k - 1);
    if k == 1 {
      c := j;
    } else {
      c := Through(nodes, i, p, k - 1);
    }
  }

  lemma {:induction false} ChildAbove(nodes: seq<Node>, i: nat, c: nat, j: nat, k: nat)
    requires i < |nodes| && c < |nodes| && j < |nodes| && ChildOf(nodes, c, i) && Above(nodes, c, j, k)
    ensures Above(nodes, i, j, k + 1)
    decreases k
  {
    hide ChildOf;
    if k == 0 {
      assert Above(nodes, i, i, 0);
    } else {
      var p :| 0 <= p < |nodes| && ChildOf(nodes, j, p) && Above(nodes, c, p, k - 1);
      ChildAbove(nodes, i, c, p, k - 1);
    }
  }

  /** Where at most one of the list is above j, namely x, the count says whether x is. */
  lemma {:induction false} CountOne(nodes: seq<Node>, list: seq<nat>, x: nat, j: nat)
    requires Within(list, |nodes|) && j < |nodes| && Rising(list)
    requires forall k :: 0 <= k < |list| && IsAbove(nodes, list[k], j) ==> list[k] == x
    ensures AboveCount(nodes, list, j) == if x in list && x < |nodes| && IsAbove(nodes, x, j) then 1 else 0
  {
    hide IsAbove;
    if list != [] {
      CountOne(nodes, list[1..], x, j);
      assert forall k :: 0 <= k < |list[1..]| ==> list[1..][k] == list[k + 1];
      assert x in list <==> x == list[0] || x in list[1..];
    }
  }

  lemma {:induction false} InChildren(nodes: seq<Node>, i: nat, n: nat, c: nat)
    requires i < |nodes| && c < n <= |nodes| && ChildOf(nodes, c, i)
    ensures c in Children(nodes, i, n)
  {
    if c < n - 1 {
      InChildren(nodes, i, n - 1, c);
    }
  }

  lemma {:induction false} InRoots(nodes: seq<Node>, n: nat, c: nat)
    requires c < n <= |nodes| && IsRoot(nodes, c)
    ensures c in Roots(nodes, n)
  {
    hide IsRoot;
    if c < n - 1 {
      InRoots(nodes, n - 1, c);
    }
  }

  /** The children's trees hold j once if i is properly above j, and not at all otherwise. */
  lemma ChildrenCount(nodes: seq<Node>, i: nat, d: nat, j: nat)
    requires Session(nodes) && i < |nodes| && j < |nodes| && Depth(nodes, i, d)
    ensures Within(Children(nodes, i, |nodes|), |nodes|)
    ensures AboveCount(nodes, Children(nodes, i, |nodes|), j) == if i != j && IsAbove(nodes, i, j) then 1 else 0
  {
    hide Children, Session, ChildOf, Depth, Above;
    var cs := Children(nodes, i, |nodes|);
    ChildrenAt(nodes, i, d);
    if i != j && IsAbove(nodes, i, j) {
      var k :| Above(nodes, i, j, k);
      AboveSelf(nodes, i, j, k);
      var c := Through(nodes, i, j, k);
      InChildren(nodes, i, |nodes|, c);
      forall l | 0 <= l < |cs| && IsAbove(nodes, cs[l], j)
        ensures cs[l] == c
      {
        LevelApart(nodes, cs[l], c, j, d + 1);
      }
      CountOne(nodes, cs, c, j);
    } else {
      forall l | 0 <= l < |cs|
        ensures !IsAbove(nodes, cs[l], j)
      {
        if IsAbove(nodes, cs[l], j) {
          var k :| Above(nodes, cs[l], j, k);
          NotAboveParent(nodes, i, cs[l], j, k, d);
        }
      }
      CountOne(nodes, cs, |nodes|, j);
    }
  }

  lemma AboveSelf(nodes: seq<Node>, i: nat, j: nat, k: nat)
    requires i < |nodes| && j < |nodes| && Above(nodes, i, j, k) && i != j
    ensures k > 0
  {
  }

  lemma NotAboveParent(nodes: seq<Node>, i: nat, c: nat, j: nat, k: nat, d: nat)
    requires Session(nodes) && i < |nodes| && c < |nodes| && j < |nodes| && Depth(nodes, i, d)
    requires ChildOf(nodes, c, i) && Above(nodes, c, j, k)
    ensures i != j && IsAbove(nodes, i, j)
  {
    hide Session, ChildOf, Depth, Above;
    ChildAbove(nodes, i, c, j, k);
    AboveDepth(nodes, i, j, k + 1, d);
    if i == j {
      DepthUnique(nodes, i, d, d + k + 1);
    }
  }

  /** The tree at i shows j once if i is above j, and not at all otherwise. */
  lemma {:induction false} ShowCount(nodes: seq<Node>, i: nat, d: nat, j: nat)
    requires Session(nodes) && i < |nodes| && j < |nodes| && Depth(nodes, i, d)
    ensures Count(Show(nodes, i, d), j) == if IsAbove(nodes, i, j) then 1 else 0
    decreases |nodes| - d, 0
  {
    hide Children, Session, ChildOf, Depth, Above, AllAt;
    var cs := Children(nodes, i, |nodes|);
    DepthBound(nodes, i, d);
    ChildrenAt(nodes, i, d);
    ChildrenCount(nodes, i, d, j);
    ShowAllCount(nodes, cs, d + 1, j);
    IsAboveSelf(nodes, i);
  }

  lemma IsAboveSelf(nodes: seq<Node>, i: nat)
    requires i < |nodes|
    ensures IsAbove(nodes, i, i)
  {
    assert Above(nodes, i, i, 0);
  }

  lemma {:induction false} ShowAllCount(nodes: seq<Node>, list: seq<nat>, d: nat, j: nat)
    requires Session(nodes) && d <= |nodes| && AllAt(nodes, list, d) && j < |nodes|
    ensures Within(list, |nodes|)
    ensures Count(ShowAll(nodes, list, d), j) == AboveCount(nodes, list, j)
    decreases |nodes| - d, |list| + 1
  {
    hide IsAbove, Session, Show, Depth;
    if list != [] {
      ShowCount(nodes, list[0], d, j);
      ShowAllCount(nodes, list[1..], d, j);
    }
  }

  lemma {:induction false} RootAbove(nodes: seq<Node>, j: nat, d: nat) returns (r: nat)
    requires j < |nodes| && Depth(nodes, j, d)
    ensures r < |nodes| && IsRoot(nodes, r) && Above(nodes, r, j, d)
    decreases d
  {
    hide IsRoot, ChildOf;
    if d == 0 {
      r := j;
    } else {
      var p :| 0 <= p < |nodes| && ChildOf(nodes, j, p) && Depth(nodes, p, d - 1);
      r := RootAbove(nodes, p, d - 1);
    }
  }

  /** In any session, the display shows a record once if its parent chain reaches a root, and not at
      all otherwise. */
  lemma ShownExactly(nodes: seq<Node>, j: nat)
    requires Session(nodes) && j < |nodes|
    ensures Count(Display(nodes), j) == if Rooted(nodes, j) then 1 else 0
  {
    hide Above, Session, IsRoot, Roots, AllAt;
    var rs := Roots(nodes, |nodes|);
    RootsAt(nodes);
    ShowAllCount(nodes, rs, 0, j);
    RootDepths(nodes, rs);
    if Rooted(nodes, j) {
      var d :| Depth(nodes, j, d);
      var r := RootAbove(nodes, j, d);
      InRoots(nodes, |nodes|, r);
      assert Depth(nodes, r, 0);
      forall k | 0 <= k < |rs| && IsAbove(nodes, rs[k], j)
        ensures rs[k] == r
      {
        LevelApart(nodes, rs[k], r, j, 0);
      }
      CountOne(nodes, rs, r, j);
    } else {
      forall k | 0 <= k < |rs|
        ensures !IsAbove(nodes, rs[k], j)
      {
        if IsAbove(nodes, rs[k], j) {
          var l :| Above(nodes, rs[k], j, l);
          AboveDepth(nodes, rs[k], j, l, 0);
        }
      }
      CountOne(nodes, rs, |nodes|, j);
    }
  }

  lemma RootDepths(nodes: seq<Node>, rs: seq<nat>)
    requires AllAt(nodes, rs, 0)
    ensures forall k :: 0 <= k < |rs| ==> rs[k] < |nodes| && Depth(nodes, rs[k], 0)
  {
    hide IsRoot;
  }

  /** Two records that point at each other are never shown. */
  lemma TwoCycleHidden(nodes: seq<Node>, a: nat, b: nat)
    requires Session(nodes) && a < |nodes| && b < |nodes| && ChildOf(nodes, a, b) && ChildOf(nodes, b, a)
    ensures Count(Display(nodes), a) == Count(Display(nodes), b) == 0
  {
    hide Session, ChildOf, Display, Rooted;
    ShownExactly(nodes, a);
    ShownExactly(nodes, b);
    CycleUnrooted(nodes, a, b);
    CycleUnrooted(nodes, b, a);
  }

  lemma CycleUnrooted(nodes: seq<Node>, a: nat, b: nat)
    requires Session(nodes) && a < |nodes| && b < |nodes| && ChildOf(nodes, a, b) && ChildOf(nodes, b, a)
    ensures !Rooted(nodes, a)
  {
    hide Session, ChildOf;
    if Rooted(nodes, a) {
      var d :| Depth(nodes, a, d);
      var e := ParentDepth(nodes, a, b, d);
      var f := ParentDepth(nodes, b, a, e);
      DepthUnique(nodes, a, d, f);
    }
  }

  lemma ParentDepth(nodes: seq<Node>, c: nat, p: nat, d: nat) returns (e: nat)
    requires Session(nodes) && c < |nodes| && p < |nodes| && ChildOf(nodes, c, p) && Depth(nodes, c, d)
    ensures d == e + 1 && Depth(nodes, p, e)
  {
    hide Session;
    assert d > 0;
    e := d - 1;
    var q :| 0 <= q < |nodes| && ChildOf(nodes, c, q) && Depth(nodes, q, d - 1);
    OneParent(nodes, c, p, q);
  }

  /** Parent pointers go to earlier records of the session or outside it. */
  predicate Backward(nodes: seq<Node>) {
    forall i, j :: 0 <= i < |nodes| && 0 <= j < |nodes| && nodes[i].parent == Some(nodes[j].id) ==> j < i
  }

  lemma {:induction false} BackwardRooted(nodes: seq<Node>, j: nat)
    requires Backward(nodes) && j < |nodes|
    ensures Rooted(nodes, j)
    decreases j
  {
    if IsRoot(nodes, j) {
      assert Depth(nodes, j, 0);
    } else {
      var p :| 0 <= p < |nodes| && ChildOf(nodes, j, p);
      BackwardRooted(nodes, p);
      var d: nat :| Depth(nodes, p, d);
      assert Depth(nodes, j, d + 1);
    }
  }

  /** Where all pointers go back, every record is shown exactly once. */
  lemma ShownOnce(nodes: seq<Node>, j: nat)
    requires Session(nodes) && Backward(nodes) && j < |nodes|
    ensures Count(Display(nodes), j) == 1
  {
    hide Session, Backward, Display, Rooted;
    BackwardRooted(nodes, j);
    ShownExactly(nodes, j);
  }

  // ------------------------------------------------------------------- in which order

  /** Somewhere in the list x comes before y. */
  ghost predicate Precedes(list: seq<nat>, x: nat, y: nat) {
    exists a, b :: 0 <= a < b < |list| && list[a] == x && list[b] == y
  }

  predicate StandsAt(part: seq<nat>, whole: seq<nat>, n: nat) {
    n + |part| <= |whole| && whole[n..n + |part|] == part
  }

  /** The part stands in the whole list without a break. */
  ghost predicate Inside(part: seq<nat>, whole: seq<nat>) {
    exists n :: StandsAt(part, whole, n)
  }

  lemma InsideAt(before: seq<nat>, part: seq<nat>, behind: seq<nat>)
    ensures Inside(part, before + part + behind)
  {
    assert StandsAt(part, before + part + behind, |before|);
  }

  lemma InsideOn(part: seq<nat>, middle: seq<nat>, whole: seq<nat>)
    requires Inside(part, middle) && Inside(middle, whole)
    ensures Inside(part, whole)
  {
    var m: nat :| StandsAt(part, middle, m);
    var n: nat :| StandsAt(middle, whole, n);
    forall i | 0 <= i < |part|
      ensures whole[n + m + i] == part[i]
    {
      assert whole[n..n + |middle|][m + i] == middle[m + i] && middle[m..m + |part|][i] == middle[m + i];
    }
    assert StandsAt(part, whole, n + m);
  }

  lemma PrecedesInside(part: seq<nat>, whole: seq<nat>, x: nat, y: nat)
    requires Inside(part, whole) && Precedes(part, x, y)
    ensures Precedes(whole, x, y)
  {
    var n: nat :| StandsAt(part, whole, n);
    var a, b :| 0 <= a < b < |part| && part[a] == x && part[b] == y;
    assert whole[n + a] == part[a] && whole[n + b] == part[b];
  }

  lemma ShowStarts(nodes: seq<Node>, i: nat, d: nat)
    requires Session(nodes) && i < |nodes| && Depth(nodes, i, d)
    ensures Show(nodes, i, d) != [] && Show(nodes, i, d)[0] == i
  {
    hide Session, Depth, ShowAll, AllAt;
    DepthBound(nodes, i, d);
    ChildrenAt(nodes, i, d);
  }

  /** Each tree of a list stands in its display without a break, the earlier ones first. */
  lemma {:induction false} TreesInside(nodes: seq<Node>, list: seq<nat>, d: nat, k: nat)
    requires Session(nodes) && d <= |nodes| && AllAt(nodes, list, d) && k < |list|
    ensures Inside(Show(nodes, list[k], d), ShowAll(nodes, list, d)) && list[k] in ShowAll(nodes, list, d)
    ensures forall l :: k < l < |list| ==> Precedes(ShowAll(nodes, list, d), list[k], list[l])
    decreases |list|
  {
    hide Session, Depth, Show, Inside, Precedes;
    var first, rest := Show(nodes, list[0], d), ShowAll(nodes, list[1..], d);
    var whole := ShowAll(nodes, list, d);
    ShowStarts(nodes, list[0], d);
    assert whole == first + rest == first + rest + [] == [] + first + rest;
    InsideAt([], first, rest);
    InsideAt(first, rest, []);
    if k > 0 {
      TreesInside(nodes, list[1..], d, k - 1);
      InsideOn(Show(nodes, list[k], d), rest, whole);
      forall l | k < l < |list|
        ensures Precedes(whole, list[k], list[l])
      {
        assert list[1..][l - 1] == list[l];
        PrecedesInside(rest, whole, list[k], list[l]);
      }
    } else {
      forall l | 0 < l < |list|
        ensures Precedes(whole, list[0], list[l])
      {
        TreesInside(nodes, list[1..], d, l - 1);
        FirstPrecedes(first, rest, list[l]);
      }
    }
  }

  lemma FirstPrecedes(first: seq<nat>, rest: seq<nat>, y: nat)
    requires first != [] && y in rest
    ensures Precedes(first + rest, first[0], y)
  {
    var b :| 0 <= b < |rest| && rest[b] == y;
    assert (first + rest)[0] == first[0] && (first + rest)[|first| + b] == y;
  }

  /** The tree below a record is one stretch of the display, the record itself first. */
  lemma {:induction false} TreeTogether(nodes: seq<Node>, j: nat, d: nat)
    requires Session(nodes) && j < |nodes| && Depth(nodes, j, d)
    ensures Inside(Show(nodes, j, d), Display(nodes)) && Show(nodes, j, d) != [] && Show(nodes, j, d)[0] == j
    decreases d
  {
    hide Session, Show, ShowAll, Inside, IsRoot, ChildOf, AllAt;
    ShowStarts(nodes, j, d);
    if d == 0 {
      RootsAt(nodes);
      InRoots(nodes, |nodes|, j);
      var k :| 0 <= k < |Roots(nodes, |nodes|)| && Roots(nodes, |nodes|)[k] == j;
      TreesInside(nodes, Roots(nodes, |nodes|), 0, k);
    } else {
      var p :| 0 <= p < |nodes| && ChildOf(nodes, j, p) && Depth(nodes, p, d - 1);
      TreeTogether(nodes, p, d - 1);
      BelowTogether(nodes, p, d - 1);
      var cs := Children(nodes, p, |nodes|);
      InChildren(nodes, p, |nodes|, j);
      var k :| 0 <= k < |cs| && cs[k] == j;
      TreesInside(nodes, cs, d, k);
      InsideOn(Show(nodes, j, d), ShowAll(nodes, cs, d), Show(nodes, p, d - 1));
      InsideOn(Show(nodes, j, d), Show(nodes, p, d - 1), Display(nodes));
    }
  }

  lemma BelowTogether(nodes: seq<Node>, p: nat, d: nat)
    requires Session(nodes) && p < |nodes| && Depth(nodes, p, d)
    ensures var cs := Children(nodes, p, |nodes|);
      && d < |nodes| && AllAt(nodes, cs, d + 1)
      && Inside(ShowAll(nodes, cs, d + 1), Show(nodes, p, d))
      && forall c :: c in ShowAll(nodes, cs, d + 1) ==> Precedes(Show(nodes, p, d), p, c)
  {
    hide Session, Depth, ShowAll, Inside, AllAt, Precedes, Children;
    DepthBound(nodes, p, d);
    ChildrenAt(nodes, p, d);
    var below := ShowAll(nodes, Children(nodes, p, |nodes|), d + 1);
    assert Show(nodes, p, d) == [p] + below == [p] + below + [];
    InsideAt([p], below, []);
    forall c | c in below
      ensures Precedes(Show(nodes, p, d), p, c)
    {
      FirstPrecedes([p], below, c);
    }
  }

  /** A parent is displayed in front of its children, and siblings stand in the order of their numbers. */
  lemma DisplayOrder(nodes: seq<Node>, p: nat, c: nat)
    requires Session(nodes) && p < |nodes| && c < |nodes| && ChildOf(nodes, c, p) && Rooted(nodes, p)
    ensures Precedes(Display(nodes), p, c)
    ensures forall e :: c < e < |nodes| && ChildOf(nodes, e, p) ==> Precedes(Display(nodes), c, e)
  {
    hide Session, Show, ShowAll, Inside, Precedes, ChildOf, AllAt, Display, Depth;
    var d: nat :| Depth(nodes, p, d);
    var cs, tree, shown := Children(nodes, p, |nodes|), Show(nodes, p, d), Display(nodes);
    TreeTogether(nodes, p, d);
    BelowTogether(nodes, p, d);
    InChildren(nodes, p, |nodes|, c);
    var k :| 0 <= k < |cs| && cs[k] == c;
    TreesInside(nodes, cs, d + 1, k);
    PrecedesInside(tree, shown, p, c);
    forall e | c < e < |nodes| && ChildOf(nodes, e, p)
      ensures Precedes(shown, c, e)
    {
      InChildren(nodes, p, |nodes|, e);
      var l :| 0 <= l < |cs| && cs[l] == e;
      assert k < l;
      PrecedesInside(ShowAll(nodes, cs, d + 1), tree, c, e);
      PrecedesInside(tree, shown, c, e);
    }
  }

  /** So do the roots. */
  lemma RootOrder(nodes: seq<Node>, r: nat, e: nat)
    requires Session(nodes) && r < e < |nodes| && IsRoot(nodes, r) && IsRoot(nodes, e)
    ensures Precedes(Display(nodes), r, e)
  {
    hide Session, Show, ShowAll, Inside, Precedes, IsRoot, AllAt;
    var rs := Roots(nodes, |nodes|);
    RootsAt(nodes);
    InRoots(nodes, |nodes|, r);
    InRoots(nodes, |nodes|, e);
    var k :| 0 <= k < |rs| && rs[k] == r;
    var l :| 0 <= l < |rs| && rs[l] == e;
    assert k < l;
    TreesInside(nodes, rs, 0, k);
  }

  // ------------------------------------------------------------------------ cmd_trace

  function SeqNos(nodes: seq<Node>, list: seq<nat>): (ns: seq<nat>)
    requires Within(list, |nodes|)
    ensures |ns| == |list|
  {
    seq(|list|, k requires 0 <= k < |list| => nodes[list[k]].seqNo)
  }

  function Get(m: map<bytes, seq<nat>>, k: bytes): seq<nat> {
    if k in m then m[k] else []
  }

  /** sorted() */
  function Sorted(s: seq<nat>): seq<nat> {
    if s == [] then [] else Insert(s[0], Sorted(s[1..]))
  }

  function Insert(x: nat, s: seq<nat>): seq<nat> {
    if s == [] || x <= s[0] then [x] + s else [s[0]] + Insert(x, s[1..])
  }

  lemma {:induction false} SortedFixed(s: seq<nat>)
    requires forall k, l :: 0 <= k < l < |s| ==> s[k] < s[l]
    ensures Sorted(s) == s
  {
    if s != [] {
      SortedFixed(s[1..]);
      assert s == [s[0]] + s[1..];
    }
  }

  lemma SeqNosAppend(nodes: seq<Node>, a: seq<nat>, b: seq<nat>)
    requires Within(a, |nodes|) && Within(b, |nodes|)
    ensures Within(a + b, |nodes|) && SeqNos(nodes, a + b) == SeqNos(nodes, a) + SeqNos(nodes, b)
  {
  }

  lemma RisingSorted(nodes: seq<Node>, list: seq<nat>)
    requires Session(nodes) && Within(list, |nodes|) && Rising(list)
    ensures Sorted(SeqNos(nodes, list)) == SeqNos(nodes, list)
  {
    hide Sorted;
    SortedFixed(SeqNos(nodes, list));
  }

  /** children_map after the first n records. */
  ghost predicate ChildMap(nodes: seq<Node>, children: map<bytes, seq<nat>>, n: nat)
    requires n <= |nodes|
  {
    forall i :: 0 <= i < |nodes| ==>
      Within(Children(nodes, i, n), |nodes|) && Get(children, nodes[i].id) == SeqNos(nodes, Children(nodes, i, n))
  }

  /** The maps that cmd_trace builds describe the session. */
  ghost predicate Maps(nodes: seq<Node>, bySeq: map<nat, Node>, children: map<bytes, seq<nat>>) {
    && (forall i :: 0 <= i < |nodes| ==> nodes[i].seqNo in bySeq && bySeq[nodes[i].seqNo] == nodes[i])
    && ChildMap(nodes, children, |nodes|)
  }

  lemma AddChild(nodes: seq<Node>, children: map<bytes, seq<nat>>, n: nat)
    requires n < |nodes| && ChildMap(nodes, children, n) && nodes[n].parent.Some?
    ensures var p := nodes[n].parent.value;
      ChildMap(nodes, children[p := Get(children, p) + [nodes[n].seqNo]], n + 1)
  {
    hide SeqNos, Children, Get;
    var p := nodes[n].parent.value;
    forall i | 0 <= i < |nodes|
      ensures Within(Children(nodes, i, n + 1), |nodes|)
      ensures Get(children[p := Get(children, p) + [nodes[n].seqNo]], nodes[i].id)
           == SeqNos(nodes, Children(nodes, i, n + 1))
    {
      AddChildAt(nodes, children, n, i);
    }
  }

  lemma AddChildAt(nodes: seq<Node>, children: map<bytes, seq<nat>>, n: nat, i: nat)
    requires n < |nodes| && nodes[n].parent.Some? && i < |nodes| && Within(Children(nodes, i, n), |nodes|)
    requires Get(children, nodes[i].id) == SeqNos(nodes, Children(nodes, i, n))
    ensures Within(Children(nodes, i, n + 1), |nodes|)
    ensures Get(children[nodes[n].parent.value := Get(children, nodes[n].parent.value) + [nodes[n].seqNo]], nodes[i].id)
         == SeqNos(nodes, Children(nodes, i, n + 1))
  {
    hide SeqNos;
    OneSeqNo(nodes, n);
    SeqNosAppend(nodes, Children(nodes, i, n), [n]);
    assert Children(nodes, i, n) + [] == Children(nodes, i, n);
  }

  lemma OneSeqNo(nodes: seq<Node>, n: nat)
    requires n < |nodes|
    ensures Within([n], |nodes|) && SeqNos(nodes, [n]) == [nodes[n].seqNo]
  {
  }

  lemma AddRoot(nodes: seq<Node>, children: map<bytes, seq<nat>>, n: nat)
    requires n < |nodes| && ChildMap(nodes, children, n) && IsRoot(nodes, n)
    ensures ChildMap(nodes, children, n + 1)
    ensures Within(Roots(nodes, n), |nodes|) && Within(Roots(nodes, n + 1), |nodes|)
    ensures SeqNos(nodes, Roots(nodes, n + 1)) == SeqNos(nodes, Roots(nodes, n)) + [nodes[n].seqNo]
  {
    hide SeqNos, ChildOf, Children, Get;
    OneSeqNo(nodes, n);
    SeqNosAppend(nodes, Roots(nodes, n), [n]);
    forall i | 0 <= i < |nodes|
      ensures Children(nodes, i, n + 1) == Children(nodes, i, n)
    {
      NoChild(nodes, i, n);
    }
  }

  lemma NoChild(nodes: seq<Node>, i: nat, n: nat)
    requires n < |nodes| && i < |nodes| && IsRoot(nodes, n)
    ensures Children(nodes, i, n + 1) == Children(nodes, i, n)
  {
    hide ChildOf;
    assert !ChildOf(nodes, n, i);
  }

  lemma NoMapsYet(nodes: seq<Node>)
    ensures ChildMap(nodes, map[], 0) && Within(Roots(nodes, 0), |nodes|) && SeqNos(nodes, Roots(nodes, 0)) == []
  {
  }

  method BuildMaps(nodes: seq<Node>) returns (bySeq: map<nat, Node>, children: map<bytes, seq<nat>>, roots: seq<nat>)
    requires Session(nodes)
    ensures Maps(nodes, bySeq, children)
    ensures Within(Roots(nodes, |nodes|), |nodes|) && roots == SeqNos(nodes, Roots(nodes, |nodes|))
  {
    hide *;
    var idToSeq: map<bytes, nat>;
    idToSeq, bySeq := Index(nodes);
    children, roots := map[], [];
    NoMapsYet(nodes);
    for n := 0 to |nodes|
      invariant ChildMap(nodes, children, n)
      invariant Within(Roots(nodes, n), |nodes|) && roots == SeqNos(nodes, Roots(nodes, n))
    {
      var node := nodes[n];
      RootIff(nodes, n);
      if node.parent.Some? && node.parent.value in idToSeq {
        var parentId := node.parent.value;
        AddChild(nodes, children, n);
        NotRoot(nodes, n);
        children := children[parentId := Get(children, parentId) + [node.seqNo]];
      } else {
        AddRoot(nodes, children, n);
        roots := roots + [node.seqNo];
      }
    }
    AllMaps(nodes, bySeq, children);
  }

  lemma AllMaps(nodes: seq<Node>, bySeq: map<nat, Node>, children: map<bytes, seq<nat>>)
    requires forall i :: 0 <= i < |nodes| ==> nodes[i].seqNo in bySeq && bySeq[nodes[i].seqNo] == nodes[i]
    requires ChildMap(nodes, children, |nodes|)
    ensures Maps(nodes, bySeq, children)
  {
    hide ChildMap;
  }

  lemma NotRoot(nodes: seq<Node>, n: nat)
    requires n < |nodes| && !IsRoot(nodes, n)
    ensures Roots(nodes, n + 1) == Roots(nodes, n)
  {
    hide IsRoot;
  }

  /** The first pass: the records by id and by sequence number. */
  method Index(nodes: seq<Node>) returns (idToSeq: map<bytes, nat>, bySeq: map<nat, Node>)
    requires Session(nodes)
    ensures forall i :: 0 <= i < |nodes| ==> nodes[i].seqNo in bySeq && bySeq[nodes[i].seqNo] == nodes[i]
    ensures forall id :: id in idToSeq <==> exists i :: 0 <= i < |nodes| && nodes[i].id == id
  {
    idToSeq, bySeq := map[], map[];
    for n := 0 to |nodes|
      invariant forall i :: 0 <= i < n ==> nodes[i].seqNo in bySeq && bySeq[nodes[i].seqNo] == nodes[i]
      invariant forall id :: id in idToSeq <==> exists i :: 0 <= i < n && nodes[i].id == id
    {
      idToSeq := idToSeq[nodes[n].id := nodes[n].seqNo];
      bySeq := bySeq[nodes[n].seqNo := nodes[n]];
    }
  }

  lemma RootIff(nodes: seq<Node>, n: nat)
    requires n < |nodes|
    ensures IsRoot(nodes, n)
      <==> nodes[n].parent.None? || !exists i :: 0 <= i < |nodes| && nodes[i].id == nodes[n].parent.value
  {
    if nodes[n].parent.Some? {
      forall i | 0 <= i < |nodes|
        ensures ChildOf(nodes, n, i) <==> nodes[i].id == nodes[n].parent.value
      {
      }
    }
  }

  /** Only records of the session are shown. */
  lemma {:induction false} ShowWithin(nodes: seq<Node>, i: nat, d: nat)
    requires Session(nodes) && i < |nodes| && Depth(nodes, i, d)
    ensures Within(Show(nodes, i, d), |nodes|)
    decreases |nodes| - d, 0
  {
    hide Session, Children, Depth;
    DepthBound(nodes, i, d);
    ChildrenAt(nodes, i, d);
    ShowAllWithin(nodes, Children(nodes, i, |nodes|), d + 1);
  }

  lemma {:induction false} ShowAllWithin(nodes: seq<Node>, list: seq<nat>, d: nat)
    requires Session(nodes) && d <= |nodes| && AllAt(nodes, list, d)
    ensures Within(ShowAll(nodes, list, d), |nodes|)
    decreases |nodes| - d, |list| + 1
  {
    hide Session, Show, Depth;
    if list != [] {
      ShowWithin(nodes, list[0], d);
      ShowAllWithin(nodes, list[1..], d);
    }
  }

  /** _trace_tree: the sequence numbers in the order in which they are printed. It comes to an end in
      every session, since no way up to a root is longer than the session. */
  method TraceTree(ghost nodes: seq<Node>, ghost i: nat, ghost d: nat, bySeq: map<nat, Node>,
                   children: map<bytes, seq<nat>>, seqNo: nat)
    returns (shown: seq<nat>)
    requires Session(nodes) && Maps(nodes, bySeq, children) && i < |nodes| && nodes[i].seqNo == seqNo
    requires Depth(nodes, i, d)
    ensures Within(Show(nodes, i, d), |nodes|) && shown == SeqNos(nodes, Show(nodes, i, d))
    decreases |nodes| - d, 1
  {
    hide *;
    DepthBound(nodes, i, d);
    MapsAt(nodes, bySeq, children, i);
    ShowWithin(nodes, i, d);
    shown := [];
    if seqNo in bySeq {
      var node := bySeq[seqNo];
      var childSeqs := Sorted(Get(children, node.id));
      ghost var cs := Children(nodes, i, |nodes|);
      ChildrenAt(nodes, i, d);
      RisingSorted(nodes, cs);
      var below := TraceEach(nodes, cs, d + 1, bySeq, children, childSeqs);
      shown := [seqNo] + below;
      ShowParts(nodes, i, d);
    }
  }

  lemma MapsAt(nodes: seq<Node>, bySeq: map<nat, Node>, children: map<bytes, seq<nat>>, i: nat)
    requires Maps(nodes, bySeq, children) && i < |nodes|
    ensures nodes[i].seqNo in bySeq && bySeq[nodes[i].seqNo] == nodes[i]
    ensures Within(Children(nodes, i, |nodes|), |nodes|)
    ensures Get(children, nodes[i].id) == SeqNos(nodes, Children(nodes, i, |nodes|))
  {
    hide SeqNos, Children;
  }

  lemma ShowParts(nodes: seq<Node>, i: nat, d: nat)
    requires Session(nodes) && i < |nodes| && Depth(nodes, i, d)
    ensures d < |nodes| && AllAt(nodes, Children(nodes, i, |nodes|), d + 1)
    ensures Within(ShowAll(nodes, Children(nodes, i, |nodes|), d + 1), |nodes|) && Within(Show(nodes, i, d), |nodes|)
    ensures SeqNos(nodes, Show(nodes, i, d))
         == [nodes[i].seqNo] + SeqNos(nodes, ShowAll(nodes, Children(nodes, i, |nodes|), d + 1))
  {
    hide Session, Children, SeqNos, Depth, AllAt;
    DepthBound(nodes, i, d);
    ChildrenAt(nodes, i, d);
    ShowAllWithin(nodes, Children(nodes, i, |nodes|), d + 1);
    OneSeqNo(nodes, i);
    SeqNosAppend(nodes, [i], ShowAll(nodes, Children(nodes, i, |nodes|), d + 1));
  }

  /** The loops over children and over roots. */
  method TraceEach(ghost nodes: seq<Node>, ghost list: seq<nat>, ghost d: nat, bySeq: map<nat, Node>,
                   children: map<bytes, seq<nat>>, seqNos: seq<nat>)
    returns (shown: seq<nat>)
    requires Session(nodes) && Maps(nodes, bySeq, children)
    requires d <= |nodes| && AllAt(nodes, list, d) && Within(list, |nodes|) && seqNos == SeqNos(nodes, list)
    ensures Within(ShowAll(nodes, list, d), |nodes|) && shown == SeqNos(nodes, ShowAll(nodes, list, d))
    decreases |nodes| - d, 2
  {
    hide Session, Maps, Show, ShowAll, Depth;
    shown := [];
    ShowAllWithin(nodes, list, d);
    assert list[0..] == list;
    for k := 0 to |seqNos|
      invariant AllAt(nodes, list[k..], d) && Within(ShowAll(nodes, list[k..], d), |nodes|)
      invariant shown + SeqNos(nodes, ShowAll(nodes, list[k..], d)) == SeqNos(nodes, ShowAll(nodes, list, d))
    {
      NextShown(nodes, list[k..], d);
      assert list[k..][0] == list[k] && list[k..][1..] == list[k + 1..];
      var part := TraceTree(nodes, list[k], d, bySeq, children, seqNos[k]);
      shown := shown + part;
    }
    NoneShown(nodes, list[|seqNos|..], d);
    assert shown + [] == shown;
  }

  lemma NoneShown(nodes: seq<Node>, list: seq<nat>, d: nat)
    requires Session(nodes) && d <= |nodes| && list == []
    ensures AllAt(nodes, list, d) && ShowAll(nodes, list, d) == [] && SeqNos(nodes, ShowAll(nodes, list, d)) == []
  {
    hide Session;
  }

  lemma NextShown(nodes: seq<Node>, list: seq<nat>, d: nat)
    requires Session(nodes) && d <= |nodes| && AllAt(nodes, list, d) && list != []
    ensures AllAt(nodes, list[1..], d) && Within(Show(nodes, list[0], d), |nodes|)
    ensures Within(ShowAll(nodes, list, d), |nodes|) && Within(ShowAll(nodes, list[1..], d), |nodes|)
    ensures SeqNos(nodes, ShowAll(nodes, list, d))
         == SeqNos(nodes, Show(nodes, list[0], d)) + SeqNos(nodes, ShowAll(nodes, list[1..], d))
  {
    hide Session, Show, SeqNos, Depth;
    ShowWithin(nodes, list[0], d);
    ShowAllWithin(nodes, list, d);
    ShowAllWithin(nodes, list[1..], d);
    SeqNosAppend(nodes, Show(nodes, list[0], d), ShowAll(nodes, list[1..], d));
  }

  /** cmd_trace prints the display, whatever the parent pointers are. */
  method CmdTrace(nodes: seq<Node>) returns (shown: seq<nat>)
    requires Session(nodes)
    ensures Within(Display(nodes), |nodes|) && shown == SeqNos(nodes, Display(nodes))
  {
    hide Session, IsRoot, Show, ShowAll, SeqNos, Maps, Sorted, Depth, AllAt;
    var bySeq, children, rootSeqs := BuildMaps(nodes);
    RootsAt(nodes);
    RisingSorted(nodes, Roots(nodes, |nodes|));
    rootSeqs := Sorted(rootSeqs);
    shown := TraceEach(nodes, Roots(nodes, |nodes|), 0, bySeq, children, rootSeqs);
  }

  // ------------------------------------------------------------------------------ spans

  /** A span: its parent span, if any, and the id of its first recorded action. */
  datatype Span = Span(parent: Option<nat>, recordId: Option<bytes>)

  /** An action on the chain: its id and its parent pointer, and whether the caller gave the pointer. */
  datatype Logged = Logged(id: bytes, pointer: bytes, given: bool)

  /** All spans opened so far and the actions recorded. */
  datatype Spans = Spans(spans: seq<Span>, log: seq<Logged>)

  /** A span is opened, at the root or below another one; an action is recorded in a span, under a
      pointer that the caller may give, and returned to the span unless a later write of the same call
      fails; or nothing is recorded. */
  datatype SpanEvent =
    | Open(parent: Option<nat>)
    | RecordIn(span: nat, id: bytes, pointer: Option<bytes>, returned: bool)
    | FailIn(span: nat)

  const ZERO_UUID: bytes := Zeros(16)

  /** _parent_action_id */
  function ParentPointer(s: Spans, span: nat): bytes
    requires span < |s.spans|
  {
    match s.spans[span].parent
    case None => ZERO_UUID
    case Some(p) =>
      if p < |s.spans| && s.spans[p].recordId.Some? then s.spans[p].recordId.value else ZERO_UUID
  }

  function SpanStep(s: Spans, e: SpanEvent): Spans {
    match e
    case Open(parent) =>
      if parent.Some? && parent.value >= |s.spans| then s else s.(spans := s.spans + [Span(parent, None)])
    case RecordIn(span, id, pointer, returned) =>
      if span >= |s.spans| then s
      else
        var own := s.spans[span];
        var marked := if own.recordId.None? && returned then own.(recordId := Some(id)) else own;
        var to := if pointer.Some? then pointer.value else ParentPointer(s, span);
        Spans(s.spans[span := marked], s.log + [Logged(id, to, pointer.Some?)])
    case FailIn(_) => s
  }

  function SpanRun(s: Spans, es: seq<SpanEvent>): Spans
    decreases |es|
  {
    if es == [] then s else SpanRun(SpanStep(s, es[0]), es[1..])
  }

  /** Every pointer that no caller gave is zero or the id of an earlier action. */
  predicate PointsBack(log: seq<Logged>) {
    forall k :: 0 <= k < |log| && !log[k].given ==>
      log[k].pointer == ZERO_UUID || exists j :: 0 <= j < k && log[j].id == log[k].pointer
  }

  /** No caller has given the id of the action itself or of a later one. */
  predicate GivenBack(log: seq<Logged>) {
    forall k, j :: 0 <= k <= j < |log| && log[k].given ==> log[j].id != log[k].pointer
  }

  predicate DistinctIds(log: seq<Logged>) {
    forall i, k :: 0 <= i < k < |log| ==> log[i].id != log[k].id
  }

  predicate IdsLogged(s: Spans) {
    forall i :: 0 <= i < |s.spans| && s.spans[i].recordId.Some? ==>
      exists j :: 0 <= j < |s.log| && s.log[j].id == s.spans[i].recordId.value
  }

  lemma SpanStepKeeps(s: Spans, e: SpanEvent)
    requires PointsBack(s.log) && IdsLogged(s)
    ensures PointsBack(SpanStep(s, e).log) && IdsLogged(SpanStep(s, e))
  {
    var t := SpanStep(s, e);
    assert s.log <= t.log;
    forall k | 0 <= k < |t.log| && !t.log[k].given
      ensures t.log[k].pointer == ZERO_UUID || exists j :: 0 <= j < k && t.log[j].id == t.log[k].pointer
    {
      if k < |s.log| && s.log[k].pointer != ZERO_UUID {
        var j :| 0 <= j < k && s.log[j].id == s.log[k].pointer;
        assert t.log[j].id == t.log[k].pointer;
      } else if k == |s.log| && t.log[k].pointer != ZERO_UUID {
        var p := s.spans[e.span].parent.value;
        var j :| 0 <= j < |s.log| && s.log[j].id == s.spans[p].recordId.value;
        assert t.log[j].id == t.log[k].pointer;
      }
    }
    forall i | 0 <= i < |t.spans| && t.spans[i].recordId.Some?
      ensures exists j :: 0 <= j < |t.log| && t.log[j].id == t.spans[i].recordId.value
    {
      if i < |s.spans| && s.spans[i].recordId == t.spans[i].recordId {
        var j :| 0 <= j < |s.log| && s.log[j].id == s.spans[i].recordId.value;
        assert t.log[j].id == t.spans[i].recordId.value;
      } else {
        assert t.log[|s.log|].id == t.spans[i].recordId.value;
      }
    }
  }

  /** Any use of spans, however nested and whatever fails: the pointers that they make themselves lead
      to earlier actions. */
  lemma {:induction false} SpansPointBack(s: Spans, es: seq<SpanEvent>)
    requires PointsBack(s.log) && IdsLogged(s)
    ensures PointsBack(SpanRun(s, es).log)
    decreases |es|
  {
    hide PointsBack, IdsLogged, SpanStep;
    if es != [] {
      SpanStepKeeps(s, es[0]);
      SpansPointBack(SpanStep(s, es[0]), es[1..]);
    }
  }

  // What a history of events says about spans: how many are open, under which one each was opened, and which
  // action each returned first.

  function OpenCount(es: seq<SpanEvent>): nat {
    if es == [] then 0
    else
      var e, n := es[|es| - 1], OpenCount(es[..|es| - 1]);
      if e.Open? && (e.parent.Some? ==> e.parent.value < n) then n + 1 else n
  }

  function OpenedUnder(es: seq<SpanEvent>, span: nat): Option<nat> {
    if es == [] then None
    else
      var e, front := es[|es| - 1], es[..|es| - 1];
      if OpenCount(es) > OpenCount(front) == span && e.Open? then e.parent else OpenedUnder(front, span)
  }

  function FirstReturned(es: seq<SpanEvent>, span: nat): Option<bytes> {
    if es == [] then None
    else
      var e, front := es[|es| - 1], es[..|es| - 1];
      match FirstReturned(front, span)
      case Some(id) => Some(id)
      case None =>
        if e.RecordIn? && e.span == span < OpenCount(front) && e.returned then Some(e.id) else None
  }

  const NO_SPANS: Spans := Spans([], [])

  lemma {:induction false} SpanRunSnoc(s: Spans, es: seq<SpanEvent>, e: SpanEvent)
    ensures SpanRun(s, es + [e]) == SpanStep(SpanRun(s, es), e)
    decreases |es|
  {
    hide SpanStep;
    var all := es + [e];
    if es == [] {
      assert all == [e] && all[1..] == [];
    } else {
      assert all[0] == es[0] && all[1..] == es[1..] + [e];
      SpanRunSnoc(SpanStep(s, es[0]), es[1..], e);
    }
  }

  lemma {:induction false} SpanHistory(es: seq<SpanEvent>)
    ensures var s := SpanRun(NO_SPANS, es);
      && |s.spans| == OpenCount(es)
      && forall i :: 0 <= i < |s.spans| ==> s.spans[i] == Span(OpenedUnder(es, i), FirstReturned(es, i))
    decreases |es|
  {
    hide SpanRun;
    if es == [] {
      NoEvents();
    } else {
      var front, e := es[..|es| - 1], es[|es| - 1];
      assert es == front + [e];
      SpanHistory(front);
      SpanRunSnoc(NO_SPANS, front, e);
      NothingReturned(front, OpenCount(front));
    }
  }

  lemma NoEvents()
    ensures SpanRun(NO_SPANS, []) == NO_SPANS
  {
  }

  lemma {:induction false} NothingReturned(es: seq<SpanEvent>, span: nat)
    requires span >= OpenCount(es)
    ensures FirstReturned(es, span) == None
  {
    if es != [] {
      NothingReturned(es[..|es| - 1], span);
    }
  }

  /** After any history, an action recorded in an open span points where its caller says, and else to the
      first action that the span around it returned, or to zero where there is no such span or action. No
      other event logs an action. */
  lemma SpanPointer(es: seq<SpanEvent>, e: SpanEvent)
    ensures var before, log := SpanRun(NO_SPANS, es).log, SpanRun(NO_SPANS, es + [e]).log;
      if !e.RecordIn? || e.span >= OpenCount(es) then log == before
      else
        var around := OpenedUnder(es, e.span);
        var first := if around.Some? then FirstReturned(es, around.value) else None;
        log == before + [Logged(e.id,
          if e.pointer.Some? then e.pointer.value else if first.Some? then first.value else Zeros(16),
          e.pointer.Some?)]
  {
    hide SpanRun, Zeros;
    SpanRunSnoc(NO_SPANS, es, e);
    SpanHistory(es);
    if e.RecordIn? && e.span < OpenCount(es) && OpenedUnder(es, e.span).Some? {
      var p := OpenedUnder(es, e.span).value;
      if p >= OpenCount(es) {
        NothingReturned(es, p);
      }
    }
  }

  /** The recorded actions as cmd_trace sees them. */
  function SpanNodes(log: seq<Logged>): seq<Node> {
    seq(|log|, k requires 0 <= k < |log| =>
      Node(k + 1, log[k].id, if log[k].pointer == ZERO_UUID then None else Some(log[k].pointer)))
  }

  /** So every action recorded through spans is displayed exactly once, given that ids are distinct and
      that callers give no pointer to an action that is still to come. */
  lemma SpansDisplayed(s: Spans, es: seq<SpanEvent>, j: nat)
    requires PointsBack(s.log) && IdsLogged(s)
    requires var log := SpanRun(s, es).log; j < |log| && DistinctIds(log) && GivenBack(log)
    ensures Session(SpanNodes(SpanRun(s, es).log)) && Count(Display(SpanNodes(SpanRun(s, es).log)), j) == 1
  {
    hide Display, SpanRun, IdsLogged;
    SpansPointBack(s, es);
    var log := SpanRun(s, es).log;
    PointersBackward(log);
    ShownOnce(SpanNodes(log), j);
  }

  lemma PointersBackward(log: seq<Logged>)
    requires PointsBack(log) && DistinctIds(log) && GivenBack(log)
    ensures Session(SpanNodes(log)) && Backward(SpanNodes(log))
  {
    var nodes := SpanNodes(log);
    forall i, j | 0 <= i < |nodes| && 0 <= j < |nodes| && nodes[i].parent == Some(nodes[j].id)
      ensures j < i
    {
      if !log[i].given {
        var k :| 0 <= k < i && log[k].id == log[i].pointer;
        assert k == j;
      }
    }
  }
}
