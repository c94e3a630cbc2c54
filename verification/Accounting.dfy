/** What a valid chain guarantees: every number up to the last is accounted for exactly once,
    chains can be cut and joined, and the last record fixes all the others. */
module Accounting {
  import opened Bytes
  import opened Parse
  import opened Verify

  // --------------------------------------------------------------------- accounting

  /** s is the record numbered n, or a gap record whose lost range contains n. */
  predicate Accounts(s: bytes, n: nat) {
    n == SeqOf(s) || InGap(s, n)
  }

  predicate InGap(s: bytes, n: nat) {
    IsGap(s) && GapIn(s).Ok? && GapIn(s).value.firstLost <= n <= GapIn(s).value.lastLost
  }

  /** The numbers lost in all gaps. */
  function LostNumbers(records: seq<bytes>): int {
    if records == [] then 0
    else
      var last := records[|records| - 1];
      LostNumbers(records[..|records| - 1]) + if IsGap(last) && GapIn(last).Ok? then GapIn(last).value.count else 0
  }

  /** A good record accounts for exactly the numbers from the expected one to its own. */
  lemma RecordAccounts(records: seq<bytes>, i: nat, anyStart: bool, n: nat)
    requires i < |records| && GoodAt(records, i, anyStart)
    ensures Expected(records, i, anyStart) <= SeqOf(records[i])
    ensures Accounts(records[i], n) <==> Expected(records, i, anyStart) <= n <= SeqOf(records[i])
  {
    hide ParseEnvelope, ParseGap;
  }

  lemma ConcatAt(a: seq<bytes>, b: seq<bytes>, i: nat, anyStart: bool)
    requires i < |a|
    ensures GoodAt(a + b, i, anyStart) == GoodAt(a, i, anyStart)
  {
    hide RecordOk, SeqFits, SeqOf, PrevHashOf;
  }

  lemma PrefixValid(records: seq<bytes>, k: nat, anyStart: bool)
    requires ValidChain(records, anyStart) && k <= |records|
    ensures ValidChain(records[..k], anyStart)
  {
    hide GoodAt;
    assert records == records[..k] + records[k..];
    forall i | 0 <= i < k
      ensures GoodAt(records[..k], i, anyStart)
    {
      ConcatAt(records[..k], records[k..], i, anyStart);
    }
  }

  /** Sequence numbers rise along a valid chain. */
  lemma {:induction false} SequencesRise(records: seq<bytes>, i: nat, j: nat, anyStart: bool)
    requires ValidChain(records, anyStart) && i < j < |records|
    ensures SeqOf(records[i]) < Expected(records, j, anyStart) <= SeqOf(records[j])
    decreases j
  {
    hide GoodAt, SeqOf;
    RecordAccounts(records, j, anyStart, 0);
    if i < j - 1 {
      SequencesRise(records, i, j - 1, anyStart);
    }
  }

  /** No number is accounted for by two records. */
  lemma AccountedOnce(records: seq<bytes>, i: nat, j: nat, anyStart: bool, n: nat)
    requires ValidChain(records, anyStart) && i < |records| && j < |records|
    requires Accounts(records[i], n) && Accounts(records[j], n)
    ensures i == j
  {
    hide GoodAt, SeqOf, Accounts;
    RecordAccounts(records, i, anyStart, n);
    RecordAccounts(records, j, anyStart, n);
    if i < j {
      SequencesRise(records, i, j, anyStart);
    } else if j < i {
      SequencesRise(records, j, i, anyStart);
    }
  }

  /** Every number from the first expected to the last sequence is accounted for. */
  lemma {:induction false} AccountedSomewhere(records: seq<bytes>, anyStart: bool, n: nat) returns (i: nat)
    requires ValidChain(records, anyStart) && records != []
    requires Expected(records, 0, anyStart) <= n <= SeqOf(records[|records| - 1])
    ensures i < |records| && Accounts(records[i], n)
    decreases |records|
  {
    hide GoodAt, SeqOf, Accounts;
    var k := |records| - 1;
    if Expected(records, k, anyStart) <= n {
      RecordAccounts(records, k, anyStart, n);
      i := k;
    } else {
      PrefixValid(records, k, anyStart);
      i := AccountedSomewhere(records[..k], anyStart, n);
    }
  }

  /** In a chain that verifies from genesis, each of 1..S (S the last sequence number) is either
      one record's own number or in one gap's lost range, and nothing else is. */
  lemma AccountingExact(records: seq<bytes>, n: nat)
    requires ValidChain(records, false) && records != []
    ensures 1 <= n <= SeqOf(records[|records| - 1])
      <==> exists i :: 0 <= i < |records| && Accounts(records[i], n)
    ensures forall i, j | 0 <= i < |records| && 0 <= j < |records| && Accounts(records[i], n) && Accounts(records[j], n)
      :: i == j
    ensures forall i :: 0 <= i < |records| ==> !(n == SeqOf(records[i]) && InGap(records[i], n))
  {
    hide SeqOf, Accounts;
    forall i, j | 0 <= i < |records| && 0 <= j < |records| && Accounts(records[i], n) && Accounts(records[j], n)
      ensures i == j
    {
      AccountedOnce(records, i, j, false, n);
    }
    if 1 <= n <= SeqOf(records[|records| - 1]) {
      var i := AccountedSomewhere(records, false, n);
    }
    forall i | 0 <= i < |records| && Accounts(records[i], n)
      ensures 1 <= n <= SeqOf(records[|records| - 1])
    {
      RecordAccounts(records, i, false, n);
      if i < |records| - 1 {
        SequencesRise(records, i, |records| - 1, false);
      }
    }
    forall i | 0 <= i < |records|
      ensures !(n == SeqOf(records[i]) && InGap(records[i], n))
    {
      assert GoodAt(records, i, false);
    }
  }

  /** Records written plus numbers lost make up the last sequence number. */
  lemma {:induction false} AccountingTotal(records: seq<bytes>, anyStart: bool)
    requires ValidChain(records, anyStart) && records != []
    ensures |records| + LostNumbers(records) == SeqOf(records[|records| - 1]) + 1 - Expected(records, 0, anyStart)
    decreases |records|
  {
    hide SeqOf, ParseGap;
    var k := |records| - 1;
    assert GoodAt(records, k, anyStart);
    if k > 0 {
      PrefixValid(records, k, anyStart);
      AccountingTotal(records[..k], anyStart);
    } else {
      assert records[..0] == [];
    }
  }

  // ------------------------------------------------------------ cutting and joining

  lemma ConcatBehind(a: seq<bytes>, b: seq<bytes>, i: nat, anyStart: bool)
    requires 0 < i < |b|
    ensures GoodAt(a + b, |a| + i, anyStart) == GoodAt(b, i, true)
  {
    hide RecordOk, SeqFits, SeqOf, PrevHashOf;
    assert (a + b)[|a| + i] == b[i] && (a + b)[|a| + i - 1] == b[i - 1];
  }

  /** b may follow the record last: its first record links to last and goes on with its number. */
  predicate Follows(last: bytes, b: seq<bytes>)
    requires b != []
  {
    PrevHashOf(b[0]) == Sha256(last) && SeqFits(b[0], SeqOf(last) + 1)
  }

  lemma Seam(a: seq<bytes>, b: seq<bytes>, anyStart: bool)
    requires a != [] && b != []
    ensures GoodAt(a + b, |a|, anyStart) <==> RecordOk(b[0]) && Follows(a[|a| - 1], b)
  {
    hide RecordOk, SeqFits, SeqOf, PrevHashOf;
  }

  /** A chain verifies as a whole exactly when its front verifies, its back is a chain from some
      start apart from its first record, and that record follows the front. */
  lemma ConcatValid(a: seq<bytes>, b: seq<bytes>, anyStart: bool)
    requires a != [] && b != []
    ensures ValidChain(a + b, anyStart)
      <==>
      && ValidChain(a, anyStart)
      && RecordOk(b[0]) && Follows(a[|a| - 1], b)
      && forall i :: 0 < i < |b| ==> GoodAt(b, i, true)
  {
    hide GoodAt, RecordOk, Follows;
    forall i | 0 <= i < |a|
      ensures GoodAt(a + b, i, anyStart) == GoodAt(a, i, anyStart)
    {
      ConcatAt(a, b, i, anyStart);
    }
    forall i | 0 < i < |b|
      ensures GoodAt(a + b, |a| + i, anyStart) == GoodAt(b, i, true)
    {
      ConcatBehind(a, b, i, anyStart);
    }
    forall i | |a| < i < |a + b|
      ensures GoodAt(a + b, i, anyStart) == GoodAt(b, i - |a|, true)
    {
      ConcatBehind(a, b, i - |a|, anyStart);
    }
    Seam(a, b, anyStart);
  }

  /** Two segments that each verify, the second as a rotated one, verify together exactly when the
      second starts with the hash and the number after the first. */
  lemma SegmentsJoin(a: seq<bytes>, b: seq<bytes>, anyStart: bool)
    requires a != [] && b != [] && ValidChain(a, anyStart) && ValidChain(b, true)
    ensures ValidChain(a + b, anyStart)
      <==> PrevHashOf(b[0]) == Sha256(a[|a| - 1]) && SeqOf(b[0]) == SeqOf(a[|a| - 1]) + 1
  {
    hide SeqOf, PrevHashOf, Linked;
    assert GoodAt(b, 0, true);
    ConcatValid(a, b, anyStart);
  }

  /** A rotated segment verifies on its own exactly when it does not start with a gap record. */
  lemma SegmentAlone(a: seq<bytes>, b: seq<bytes>, anyStart: bool)
    requires a != [] && b != [] && ValidChain(a + b, anyStart)
    ensures ValidChain(b, true) <==> !IsGap(b[0])
  {
    hide SeqOf, PrevHashOf, RecordOk;
    ConcatValid(a, b, anyStart);
    assert GoodAt(b, 0, true) <==> !IsGap(b[0]);
  }
}
