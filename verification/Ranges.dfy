/** Sequence-number arithmetic over queued packets: which numbers a queue covers, and what is left of it. */
module Ranges {
  /** The numbers a packet carries: from `seqNum` up to but not including `next`. */
  datatype Range = Range(seqNum: nat, next: nat)

  predicate Covers(p: Range, n: nat) {
    p.seqNum <= n < p.next
  }

  predicate Covered(q: seq<Range>, n: nat) {
    exists i :: 0 <= i < |q| && Covers(q[i], n)
  }

  function Horizon(q: seq<Range>): (h: nat)
    ensures forall i :: 0 <= i < |q| ==> q[i].next <= h
  {
    if q == [] then 0
    else
      var rest := Horizon(q[1..]);
      assert forall i :: 1 <= i < |q| ==> q[i] == q[1..][i - 1];
      if q[0].next > rest then q[0].next else rest
  }

  /** The least number not below `n` that no packet of `q` covers. */
  function FirstUncovered(q: seq<Range>, n: nat): (m: nat)
    ensures n <= m && !Covered(q, m)
    ensures forall k :: n <= k < m ==> Covered(q, k)
    decreases Horizon(q) - n
  {
    if Covered(q, n) then FirstUncovered(q, n + 1) else n
  }

  /** The packets that start after `n`, in arrival order. */
  function Above(q: seq<Range>, n: nat): seq<Range> {
    if q == [] then []
    else if q[0].seqNum > n then [q[0]] + Above(q[1..], n)
    else Above(q[1..], n)
  }

  /** The least starting number in a non-empty queue. */
  function LeastSeq(q: seq<Range>): nat
    requires q != []
  {
    if |q| == 1 then q[0].seqNum
    else
      var rest := LeastSeq(q[1..]);
      if q[0].seqNum < rest then q[0].seqNum else rest
  }

  predicate StartsAt(q: seq<Range>, n: nat) {
    exists i :: 0 <= i < |q| && q[i].seqNum == n
  }

  lemma {:induction false} LeastSeqIsLeast(q: seq<Range>)
    requires q != []
    ensures StartsAt(q, LeastSeq(q))
    ensures forall i :: 0 <= i < |q| ==> LeastSeq(q) <= q[i].seqNum
  {
    if |q| == 1 {
      assert q[0].seqNum == LeastSeq(q);
    } else {
      LeastSeqIsLeast(q[1..]);
      var i :| 0 <= i < |q[1..]| && q[1..][i].seqNum == LeastSeq(q[1..]);
      assert q[i + 1].seqNum == LeastSeq(q[1..]) && q[0].seqNum == q[0].seqNum;
      forall j | 0 <= j < |q| ensures LeastSeq(q) <= q[j].seqNum {
        assert j > 0 ==> q[j] == q[1..][j - 1];
      }
    }
  }

  lemma {:induction false} AboveMembers(q: seq<Range>, n: nat)
    ensures forall p :: p in Above(q, n) <==> p in q && p.seqNum > n
  {
    if q != [] {
      AboveMembers(q[1..], n);
      assert q == [q[0]] + q[1..];
    }
  }

  lemma {:induction false} AboveAppend(a: seq<Range>, b: seq<Range>, n: nat)
    ensures Above(a + b, n) == Above(a, n) + Above(b, n)
  {
    if a == [] {
      assert a + b == b;
    } else {
      assert (a + b)[1..] == a[1..] + b;
      AboveAppend(a[1..], b, n);
    }
  }

  /** Taking out a packet that does not start after `n` leaves the rest of the queue above `n` alone. */
  lemma {:induction false} AboveWithout(q: seq<Range>, i: nat, n: nat)
    requires i < |q| && q[i].seqNum <= n
    ensures Above(q[..i] + q[i + 1..], n) == Above(q, n)
  {
    AboveAppend(q[..i], q[i + 1..], n);
    AboveAppend(q[..i], q[i..], n);
    assert q == q[..i] + q[i..];
    assert q[i..][1..] == q[i + 1..];
  }

  lemma {:induction false} AboveAll(q: seq<Range>, n: nat)
    requires forall i :: 0 <= i < |q| ==> q[i].seqNum > n
    ensures Above(q, n) == q
  {
    if q != [] {
      AboveAll(q[1..], n);
    }
  }

  lemma {:induction false} AboveNone(q: seq<Range>, n: nat)
    requires forall i :: 0 <= i < |q| ==> q[i].seqNum <= n
    ensures Above(q, n) == []
  {
    if q != [] {
      AboveNone(q[1..], n);
    }
  }

  /** Filtering twice is filtering at the higher number. */
  lemma {:induction false} AboveTwice(q: seq<Range>, n: nat, m: nat)
    requires n <= m
    ensures Above(Above(q, n), m) == Above(q, m)
  {
    if q != [] {
      AboveTwice(q[1..], n, m);
      if q[0].seqNum > n {
        assert Above(q, n) == [q[0]] + Above(q[1..], n);
      }
    }
  }

  /** `FirstUncovered` is the only number with its two properties. */
  lemma FirstUncoveredUnique(q: seq<Range>, n: nat, m: nat)
    requires n <= m && !Covered(q, m)
    requires forall k :: n <= k < m ==> Covered(q, k)
    ensures FirstUncovered(q, n) == m
  {
    var f := FirstUncovered(q, n);
    assert !Covered(q, f);
  }

  /** Either nothing is covered at `n`, or the answer is where some packet ends. */
  lemma {:induction false} FirstUncoveredIsAnEnd(q: seq<Range>, n: nat)
    ensures FirstUncovered(q, n) == n || exists i :: 0 <= i < |q| && q[i].next == FirstUncovered(q, n)
  {
    var m := FirstUncovered(q, n);
    if m > n {
      assert Covered(q, m - 1);
      var i :| 0 <= i < |q| && Covers(q[i], m - 1);
      assert !Covers(q[i], m);
    }
  }
}
