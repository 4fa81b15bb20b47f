/** The packet boundaries set at loading, every so many messages, and which requests they let the server answer
    completely. */
module Boundaries {
  import opened Bytes
  import opened Mold
  import opened Retransmission

  // ----- Where the boundaries are -----

  lemma MulStep(size: nat, i: int)
    ensures size * (i + 1) == size * i + size
  {
  }

  lemma RemainderBehind(x: nat, size: nat)
    requires size > 0 && x >= size
    ensures x % size == (x - size) % size
  {
    var q := (x - size) / size;
    assert x - size == size * q + (x - size) % size;
    MulStep(size, q);
    QuotientIs(x, size, q + 1);
    assert x == size * (x / size) + x % size;
  }

  lemma RemainderOf(x: int, size: nat)
    requires size > 0
    ensures x == 0 ==> x % size == 0
    ensures 0 < x < size ==> x % size != 0
    ensures x >= size ==> x % size == (x - size) % size
  {
    if x >= size {
      RemainderBehind(x, size);
    } else if 0 < x {
      SmallRemainder(x, size);
    }
  }

  lemma SmallRemainder(x: nat, size: nat)
    requires x < size
    ensures x % size == x
  {
  }

  /** A number is a boundary if and only if it lies in the list and a whole number of packets behind the first. */
  lemma {:induction false} MarkedExactlyWhen(n: nat, limit: nat, size: nat, k: nat)
    requires size > 0
    ensures k in Marks(n, limit, size) <==> n <= k < limit && (k - n) % size == 0
    decreases limit - n
  {
    if n < limit {
      MarkedExactlyWhen(n + size, limit, size, k);
      MarksAscending(n + size, limit, size);
      RemainderOf(k - n, size);
      assert k in Marks(n, limit, size) <==> k == n || k in Marks(n + size, limit, size);
      hide Marks;
    }
  }

  /** No boundary is set twice, and they come in order. */
  lemma {:induction false} MarksRise(n: nat, limit: nat, size: nat)
    requires size > 0
    ensures forall i, j :: 0 <= i < j < |Marks(n, limit, size)| ==> Marks(n, limit, size)[i] < Marks(n, limit, size)[j]
    decreases limit - n
  {
    if n < limit {
      MarksRise(n + size, limit, size);
      MarksAscending(n + size, limit, size);
    }
  }

  /** No boundary between the end of the range and `k`. */
  predicate NoneSooner(packs: seq<nat>, from: nat, to: nat, k: nat) {
    forall b :: b in packs && from <= b && to < b ==> k <= b
  }

  /** The boundaries a request picks: those not before its start, up to the first behind its end. */
  lemma {:induction false} SelectedExactlyWhen(packs: seq<nat>, from: nat, to: nat, k: nat)
    requires forall i, j :: 0 <= i < j < |packs| ==> packs[i] < packs[j]
    ensures k in Selected(packs, from, to) <==> k in packs && from <= k && NoneSooner(packs, from, to, k)
  {
    if packs != [] {
      var b, rest := packs[0], packs[1..];
      assert forall x :: x in rest ==> b < x;
      assert forall x :: x in packs <==> x == b || x in rest;
      SelectedExactlyWhen(rest, from, to, k);
      if from <= b {
        assert NoneSooner(packs, from, to, b);
        assert k in Selected(packs, from, to) <==> k == b || (b <= to && k in Selected(rest, from, to));
        if b <= to {
          assert NoneSooner(packs, from, to, k) <==> NoneSooner(rest, from, to, k);
        } else {
          assert b in packs && (NoneSooner(packs, from, to, k) ==> k <= b);
        }
      } else {
        assert NoneSooner(packs, from, to, k) <==> NoneSooner(rest, from, to, k);
      }
    }
  }

  // ----- What a request picks of them -----

  lemma {:induction false} SelectedFrom(j: nat, limit: nat, size: nat, from: nat, to: nat)
    requires size > 0 && from <= 1 + size * j < limit
    ensures var sel := Selected(Marks(1 + size * j, limit, size), from, to);
      && sel != [] && (forall i :: 0 <= i < |sel| ==> sel[i] == 1 + size * (j + i))
      && var last := sel[|sel| - 1]; last < limit && (last > to || limit <= last + size)
    decreases limit - size * j
  {
    var a := 1 + size * j;
    MulStep(size, j);
    assert Marks(a, limit, size) == [a] + Marks(a + size, limit, size);
    if a <= to && a + size < limit {
      SelectedFrom(j + 1, limit, size, from, to);
      var sel, rest := Selected(Marks(a, limit, size), from, to), Selected(Marks(a + size, limit, size), from, to);
      assert sel == [a] + rest;
      forall i | 0 <= i < |sel| ensures sel[i] == 1 + size * (j + i) {
        if i > 0 { assert sel[i] == rest[i - 1] == 1 + size * (j + 1 + (i - 1)); }
      }
    } else {
      assert a + size >= limit ==> Marks(a + size, limit, size) == [];
    }
  }

  /** The picked boundaries follow one another, the first less than a packet behind the start. */
  lemma {:induction false} SelectedMarks(j: nat, limit: nat, size: nat, from: nat, to: nat) returns (first: nat)
    requires size > 0 && 1 + size * j < from + size
    requires Selected(Marks(1 + size * j, limit, size), from, to) != []
    ensures var sel := Selected(Marks(1 + size * j, limit, size), from, to);
      && from <= sel[0] < from + size
      && (forall i :: 0 <= i < |sel| ==> sel[i] == 1 + size * (first + i))
      && var last := sel[|sel| - 1]; last < limit && (last > to || limit <= last + size)
    decreases limit - size * j
  {
    var a := 1 + size * j;
    MulStep(size, j);
    if a < from {
      assert Marks(a, limit, size) == [a] + Marks(a + size, limit, size);
      first := SelectedMarks(j + 1, limit, size, from, to);
    } else {
      SelectedFrom(j, limit, size, from, to);
      first := j;
    }
  }

  // ----- What fits -----

  /** Any messages in a row, up to `size` of them, fit one packet. */
  predicate RowsFit(outbound: seq<Message>, size: nat) {
    forall i, j :: 0 <= i <= j <= |outbound| && j - i <= size ==> BlocksSize(outbound[i..j]) <= ROOM
  }

  /** What lies behind number `n`, it included, fits one packet. */
  predicate TailFits(outbound: seq<Message>, n: nat)
    requires 1 <= n <= |outbound| + 1
  {
    BlocksSize(outbound[n - 1..]) <= ROOM
  }

  lemma PackedReaches(outbound: seq<Message>, end: nat, from: nat, to: nat)
    requires 1 <= from <= to <= end + 1 <= |outbound| + 1
    requires BlocksSize(outbound[from - 1..to - 1]) <= ROOM
    ensures Packed(outbound, end, from) >= to
  {
    var stretch := outbound[from - 1..to - 1];
    FittingIsMaximal(stretch, ROOM);
    FittingPrefix(outbound[from - 1..end], to - from, ROOM);
    FrontOfSlice(outbound, from - 1, to - 1, end);
  }

  lemma FrontOfSlice(ms: seq<Message>, i: nat, j: nat, k: nat)
    requires i <= j <= k <= |ms|
    ensures ms[i..k][..j - i] == ms[i..j]
  {
    var a, b := ms[i..k][..j - i], ms[i..j];
    forall m | 0 <= m < j - i ensures a[m] == b[m] {
    }
  }

  lemma {:induction false} ReachByRows(outbound: seq<Message>, end: nat, from: nat, size: nat, k: nat)
    requires 1 <= from <= end + 1 <= |outbound| + 1 && RowsFit(outbound, size)
    ensures Reach(outbound, end, from, k) >= if from + size * k <= end + 1 then from + size * k else end + 1
    decreases k
  {
    if k > 0 {
      var to := if from + size <= end + 1 then from + size else end + 1;
      assert BlocksSize(outbound[from - 1..to - 1]) <= ROOM;
      PackedReaches(outbound, end, from, to);
      var next := Packed(outbound, end, from);
      ReachByRows(outbound, end, next, size, k - 1);
      hide RowsFit, BlocksSize, Packed;
      MulStep(size, k - 1);
    }
  }

  lemma {:induction false} ReachLast(outbound: seq<Message>, end: nat, from: nat, k: nat)
    requires 1 <= from <= end + 1 <= |outbound| + 1 && k > 0
    ensures Reach(outbound, end, from, k) == Packed(outbound, end, Reach(outbound, end, from, k - 1))
    decreases k
  {
    var next := Packed(outbound, end, from);
    if k > 1 {
      ReachLast(outbound, end, next, k - 1);
    } else {
      assert Reach(outbound, end, from, 0) == from && Reach(outbound, end, next, 0) == next;
    }
  }

  lemma PackedFromTail(outbound: seq<Message>, end: nat, tail: nat, from: nat)
    requires 1 <= tail <= from <= end + 1 <= |outbound| + 1 && TailFits(outbound, tail)
    ensures Packed(outbound, end, from) == end + 1
  {
    var a, b, c := outbound[tail - 1..from - 1], outbound[from - 1..end], outbound[end..];
    assert outbound[tail - 1..] == a + (b + c);
    BlocksSizeAppend(a, b + c);
    BlocksSizeAppend(b, c);
    PackedReaches(outbound, end, from, end + 1);
  }

  /** From a position that so many packets of `size` bring behind the end, or to the last boundary with one
      packet to spare, greedy packing gets to the end. */
  lemma ReachesEnd(outbound: seq<Message>, end: nat, from: nat, size: nat, k: nat, tail: nat)
    requires 1 <= from <= end + 1 <= |outbound| + 1 && RowsFit(outbound, size) && k > 0
    requires 1 <= tail <= |outbound| + 1 && TailFits(outbound, tail)
    requires from + size * k > end || from + size * (k - 1) >= tail
    ensures Reach(outbound, end, from, k) == end + 1
  {
    if from + size * k > end {
      ReachByRows(outbound, end, from, size, k);
    } else {
      ReachByRows(outbound, end, from, size, k - 1);
      ReachLast(outbound, end, from, k);
      MulStep(size, k - 1);
      PackedFromTail(outbound, end, tail, Reach(outbound, end, from, k - 1));
    }
  }

  // ----- Complete answers -----

  /** The last boundary. */
  function LastBoundary(n: nat, size: nat): (b: nat)
    requires n >= 2 && size > 0
    ensures 1 <= b < n
  {
    QuotientBelow(n - 2, size);
    1 + size * ((n - 2) / size)
  }

  lemma QuotientBelow(x: nat, size: nat)
    requires size > 0
    ensures 0 <= size * (x / size) <= x
  {
  }

  lemma LastIsLast(n: nat, size: nat, k: nat)
    requires n >= 2 && size > 0 && 1 + size * k < n <= 1 + size * k + size
    ensures LastBoundary(n, size) == 1 + size * k
  {
    QuotientIs(n - 2, size, k);
  }

  lemma LastInList(n: nat, size: nat)
    requires n >= 2 && size > 0
    ensures 1 <= LastBoundary(n, size) < n <= LastBoundary(n, size) + size
  {
    var k := LastMark(1, n, size);
    LastIsLast(n, size, k);
  }

  /** The plan of a request that starts no later than the last boundary: `first` and so on are the boundaries
      picked, and its positions are those but for the ends. */
  lemma PlanShape(n: nat, size: nat, from: nat, to: nat) returns (first: nat)
    requires size > 0 && n >= 2 && 1 <= from <= to && RecoveryList(Marks(1, n, size), from, to) != []
    ensures var list := RecoveryList(Marks(1, n, size), from, to); var c := |list| - 1;
      && list[0] == from
      && (forall i :: 1 <= i < c ==> list[i] == 1 + size * (first + i))
      && (c > 0 ==> list[c] == to)
      && from <= 1 + size * first < from + size
      && (from in Marks(1, n, size) ==> from == 1 + size * first)
      && (1 + size * (first + c) > to || LastBoundary(n, size) == 1 + size * (first + c) <= to)
  {
    var sel, list := Selected(Marks(1, n, size), from, to), RecoveryList(Marks(1, n, size), from, to);
    assert |sel| == |list| && 1 + size * 0 == 1;
    first := SelectedMarks(0, n, size, from, to);
    if sel[|sel| - 1] <= to {
      LastIsLast(n, size, first + |sel| - 1);
    }
    if from in Marks(1, n, size) {
      FirstIsStart(n, size, from, to, first);
    }
  }

  /** Every position of the plan but the first gets to the end, and so does the first if it is a boundary or
      some boundary lies behind the end. */
  lemma PositionReaches(outbound: seq<Message>, size: nat, from: nat, to: nat, i: nat)
    requires size > 0 && |outbound| >= 2 && 1 <= from <= to <= |outbound|
    requires RowsFit(outbound, size)
    requires TailFits(outbound, LastBoundary(|outbound|, size))
    requires i < |RecoveryList(Marks(1, |outbound|, size), from, to)|
    requires Ready(outbound, RecoveryList(Marks(1, |outbound|, size), from, to), to)
    requires i > 0 || to < LastBoundary(|outbound|, size) || from in Marks(1, |outbound|, size)
    ensures ReachesFrom(outbound, RecoveryList(Marks(1, |outbound|, size), from, to), to, to + 1, i)
  {
    var n, list := |outbound|, RecoveryList(Marks(1, |outbound|, size), from, to);
    var first := PlanShape(n, size, from, to);
    PositionAhead(size, from, to, first, list, i, LastBoundary(n, size), from in Marks(1, n, size));
    hide *;
    PositionGetsThere(outbound, to, list, size, i, LastBoundary(n, size));
  }

  lemma PositionGetsThere(outbound: seq<Message>, end: nat, list: seq<nat>, size: nat, i: nat, tail: nat)
    requires Ready(outbound, list, end) && i < |list| && RowsFit(outbound, size)
    requires 1 <= tail <= |outbound| && TailFits(outbound, tail)
    requires var k := |list| - i; list[i] + size * k > end || list[i] + size * (k - 1) >= tail
    ensures ReachesFrom(outbound, list, end, end + 1, i)
  {
    ReachesEnd(outbound, end, list[i], size, |list| - i, tail);
  }

  lemma PositionAhead(size: nat, from: nat, to: nat, first: nat, list: seq<nat>, i: nat, tail: nat, marked: bool)
    requires size > 0 && i < |list| && list[0] == from && from <= 1 + size * first < from + size
    requires forall j :: 1 <= j < |list| - 1 ==> list[j] == 1 + size * (first + j)
    requires |list| > 1 ==> list[|list| - 1] == to
    requires marked ==> from == 1 + size * first
    requires 1 + size * (first + (|list| - 1)) > to || tail == 1 + size * (first + (|list| - 1)) <= to
    requires i > 0 || to < tail || marked
    ensures var k := |list| - i; list[i] + size * k > to || list[i] + size * (k - 1) >= tail
  {
    var c := |list| - 1;
    if i == c && i > 0 {
      assert size * 1 == size;
    } else {
      Ahead(size, first, i, c + 1);
      if i == 0 {
        assert size * (first + 0) == size * first;
      }
    }
  }

  lemma Ahead(size: nat, first: nat, i: nat, count: nat)
    requires i < count
    ensures size * (first + i) + size * (count - i) == size * (first + count - 1) + size
    ensures size * (first + i) + size * (count - i - 1) == size * (first + count - 1)
  {
    var d := count - i;
    assert size * (first + i) + size * d == size * (first + i + d);
    MulStep(size, first + count - 1);
    MulStep(size, d - 1);
  }

  lemma FirstIsStart(n: nat, size: nat, from: nat, to: nat, first: nat)
    requires size > 0 && from in Marks(1, n, size)
    requires Selected(Marks(1, n, size), from, to) != []
    ensures Selected(Marks(1, n, size), from, to)[0] == from
  {
    var marks := Marks(1, n, size);
    var sel := Selected(marks, from, to);
    MarksRise(1, n, size);
    SelectedExactlyWhen(marks, from, to, from);
    MarksAscending(1, n, size);
    SelectedShape(marks, from, to);
  }

  lemma PlanIsReady(outbound: seq<Message>, size: nat, from: nat, to: nat)
    requires size > 0 && |outbound| >= 2 && 1 <= from <= to <= |outbound| && from <= LastBoundary(|outbound|, size)
    ensures var list := RecoveryList(Marks(1, |outbound|, size), from, to);
      list != [] && Ready(outbound, list, to) && list[0] == from
  {
    MarksAscending(1, |outbound|, size);
    RecoveryListReady(outbound, Marks(1, |outbound|, size), from, to);
    AnsweredExactlyWhen(|outbound|, size, from, to);
  }

  /** Of messages that fit a packet as many at a time as boundaries are apart, and behind the last boundary, a
      request that starts no later than that is answered completely if and only if greedy packing gets from
      its start to its end in as many packets as boundaries are picked. */
  lemma CompleteExactlyWhen(outbound: seq<Message>, size: nat, from: nat, to: nat)
    requires size > 0 && |outbound| >= 2 && 1 <= from <= to <= |outbound| && from <= LastBoundary(|outbound|, size)
    requires RowsFit(outbound, size) && TailFits(outbound, LastBoundary(|outbound|, size))
    ensures var list := RecoveryList(Marks(1, |outbound|, size), from, to);
      && Ready(outbound, list, to)
      && (Contiguous(Emitted(outbound, list, to), from, to + 1) <==> Reach(outbound, to, from, |list|) == to + 1)
  {
    hide *;
    PlanIsReady(outbound, size, from, to);
    RestOfPlanReaches(outbound, size, from, to);
    var list := RecoveryList(Marks(1, |outbound|, size), from, to);
    PlanIsExact(outbound, size, from, to);
    OnlyFirstMatters(outbound, list, to, to + 1);
  }

  predicate RestReaches(outbound: seq<Message>, list: seq<nat>, end: nat, m: nat)
    requires Ready(outbound, list, end)
  {
    forall i :: 1 <= i < |list| ==> ReachesFrom(outbound, list, end, m, i)
  }

  lemma RestOfPlanReaches(outbound: seq<Message>, size: nat, from: nat, to: nat)
    requires size > 0 && |outbound| >= 2 && 1 <= from <= to <= |outbound|
    requires RowsFit(outbound, size) && TailFits(outbound, LastBoundary(|outbound|, size))
    requires Ready(outbound, RecoveryList(Marks(1, |outbound|, size), from, to), to)
    ensures RestReaches(outbound, RecoveryList(Marks(1, |outbound|, size), from, to), to, to + 1)
  {
    hide RowsFit, TailFits, Ready, ReachesFrom, LastBoundary, RecoveryList, Marks;
    var list, m := RecoveryList(Marks(1, |outbound|, size), from, to), to + 1;
    forall i | 1 <= i < |list| ensures ReachesFrom(outbound, list, to, m, i) {
      PositionReaches(outbound, size, from, to, i);
    }
  }

  lemma PlanIsExact(outbound: seq<Message>, size: nat, from: nat, to: nat)
    requires size > 0 && |outbound| >= 2 && 1 <= from <= to <= |outbound| && from <= LastBoundary(|outbound|, size)
    ensures var list := RecoveryList(Marks(1, |outbound|, size), from, to);
      && Ready(outbound, list, to)
      && (Contiguous(Emitted(outbound, list, to), from, to + 1) <==> Reaches(outbound, list, to, to + 1))
  {
    hide Reaches, Emitted, Contiguous;
    PlanIsReady(outbound, size, from, to);
    MarksAscending(1, |outbound|, size);
    RetransmissionIsExact(outbound, Marks(1, |outbound|, size), from, to);
    SelectedNonEmpty(Marks(1, |outbound|, size), from, to);
  }

  lemma OnlyFirstMatters(outbound: seq<Message>, list: seq<nat>, end: nat, m: nat)
    requires list != [] && Ready(outbound, list, end) && RestReaches(outbound, list, end, m)
    ensures Reaches(outbound, list, end, m) <==> Reach(outbound, end, list[0], |list|) >= m
  {
    assert ReachesFrom(outbound, list, end, m, 0) <==> Reach(outbound, end, list[0], |list|) >= m;
    hide ReachesFrom, Reach, Ready;
  }

  /** Which holds whenever the request starts at a boundary or some boundary lies behind its end. */
  lemma AlignedRequestsAreComplete(outbound: seq<Message>, size: nat, from: nat, to: nat)
    requires size > 0 && |outbound| >= 2 && 1 <= from <= to <= |outbound| && from <= LastBoundary(|outbound|, size)
    requires RowsFit(outbound, size) && TailFits(outbound, LastBoundary(|outbound|, size))
    requires (from - 1) % size == 0 || to < LastBoundary(|outbound|, size)
    ensures var list := RecoveryList(Marks(1, |outbound|, size), from, to);
      Ready(outbound, list, to) && Contiguous(Emitted(outbound, list, to), from, to + 1)
  {
    PlanIsReady(outbound, size, from, to);
    LastInList(|outbound|, size);
    MarkedExactlyWhen(1, |outbound|, size, from);
    assert from in Marks(1, |outbound|, size) || to < LastBoundary(|outbound|, size);
    var list := RecoveryList(Marks(1, |outbound|, size), from, to);
    hide *;
    CompleteExactlyWhen(outbound, size, from, to);
    PositionReaches(outbound, size, from, to, 0);
    FirstReaches(outbound, list, to);
  }

  lemma FirstReaches(outbound: seq<Message>, list: seq<nat>, end: nat)
    requires list != [] && Ready(outbound, list, end) && ReachesFrom(outbound, list, end, end + 1, 0)
    ensures Reach(outbound, end, list[0], |list|) == end + 1
  {
    hide Reach;
  }

  /** And for every request when twice as many messages in a row still fit. */
  lemma AllRequestsAreComplete(outbound: seq<Message>, size: nat, from: nat, to: nat)
    requires size > 0 && |outbound| >= 2 && 1 <= from <= to <= |outbound| && from <= LastBoundary(|outbound|, size)
    requires RowsFit(outbound, 2 * size)
    ensures var list := RecoveryList(Marks(1, |outbound|, size), from, to);
      Ready(outbound, list, to) && Contiguous(Emitted(outbound, list, to), from, to + 1)
  {
    var n, list := |outbound|, RecoveryList(Marks(1, |outbound|, size), from, to);
    PlanIsReady(outbound, size, from, to);
    LastInList(n, size);
    var tail := LastBoundary(n, size);
    TwiceIsEnough(outbound, size, tail);
    var first := PlanShape(n, size, from, to);
    TwiceAhead(size, from, to, n, first, |list|, tail);
    hide *;
    CompleteExactlyWhen(outbound, size, from, to);
    ReachByTwice(outbound, to, from, size, |list|);
  }

  lemma TwiceIsEnough(outbound: seq<Message>, size: nat, tail: nat)
    requires RowsFit(outbound, 2 * size) && 1 <= tail <= |outbound| <= tail + size && size > 0
    ensures RowsFit(outbound, size) && TailFits(outbound, tail)
  {
    assert outbound[tail - 1..|outbound|] == outbound[tail - 1..];
  }

  lemma ReachByTwice(outbound: seq<Message>, end: nat, from: nat, size: nat, k: nat)
    requires 1 <= from <= end + 1 <= |outbound| + 1 && RowsFit(outbound, 2 * size) && from + 2 * size * k > end
    ensures Reach(outbound, end, from, k) == end + 1
  {
    ReachByRows(outbound, end, from, 2 * size, k);
  }

  lemma TwiceAhead(size: nat, from: nat, to: nat, n: nat, first: nat, count: nat, tail: nat)
    requires size > 0 && count > 0 && from <= 1 + size * first < from + size && to <= n <= tail + size
    requires 1 + size * (first + (count - 1)) > to || tail == 1 + size * (first + (count - 1))
    ensures from + 2 * size * count > to
  {
    Ahead(size, first, 0, count);
    assert size * (first + 0) == size * first;
    assert 2 * size * count == size * count + size * count;
    MulAtLeast(size, count);
  }

  lemma MulAtLeast(size: nat, count: nat)
    requires count > 0
    ensures size * count >= size
  {
    MulStep(size, count - 1);
  }

  // ----- A request that is not -----

  lemma {:induction false} UniformSize(ms: seq<Message>, bytes: nat)
    requires forall i :: 0 <= i < |ms| ==> |ms[i]| == bytes
    ensures BlocksSize(ms) == (2 + bytes) * |ms|
  {
    if ms != [] {
      UniformSize(ms[1..], bytes);
      MulStep(2 + bytes, |ms| - 1);
    }
  }

  /** 95 messages of 1860 bytes, boundaries every 30: any 30 in a row fit a packet and so do the last five, yet
      the gap [62, 95], with one boundary in it, is answered with 62 to 91 and no more. */
  lemma UnalignedRequestFallsShort(outbound: seq<Message>)
    requires |outbound| == 95 && forall i :: 0 <= i < 95 ==> |outbound[i]| == 1860
    ensures RowsFit(outbound, 30) && LastBoundary(95, 30) == 91 && TailFits(outbound, 91)
    ensures RecoveryList(Marks(1, 95, 30), 62, 95) == [62] && Ready(outbound, [62], 95)
    ensures Emitted(outbound, [62], 95) == [Packet(62, outbound[61..91])]
  {
    hide BlocksSize, Marks, Selected, Fitting, RecoveryList, Reach;
    RowsOfThem(outbound);
    OneBoundary();
    ThirtyOfThem(outbound);
    hide RowsFit, TailFits;
    OnePacket(outbound);
  }

  lemma OnePacket(outbound: seq<Message>)
    requires |outbound| == 95 && Fitting(outbound[61..95], ROOM) == 30
    ensures Ready(outbound, [62], 95) && Emitted(outbound, [62], 95) == [Packet(62, outbound[61..91])]
  {
    hide Fitting;
    assert Remaining(outbound, [62], 95) == [];
  }

  lemma RowsOfThem(outbound: seq<Message>)
    requires |outbound| == 95 && forall i :: 0 <= i < 95 ==> |outbound[i]| == 1860
    ensures RowsFit(outbound, 30) && LastBoundary(95, 30) == 91 && TailFits(outbound, 91)
  {
    hide BlocksSize;
    forall i, j | 0 <= i <= j <= 95 && j - i <= 30 ensures BlocksSize(outbound[i..j]) <= ROOM {
      UniformSize(outbound[i..j], 1860);
    }
    UniformSize(outbound[90..], 1860);
  }

  lemma OneBoundary()
    ensures RecoveryList(Marks(1, 95, 30), 62, 95) == [62]
  {
    assert Marks(91, 95, 30) == [91] + Marks(121, 95, 30) && Marks(61, 95, 30) == [61] + Marks(91, 95, 30);
    assert Marks(31, 95, 30) == [31] + Marks(61, 95, 30) && Marks(1, 95, 30) == [1] + Marks(31, 95, 30);
    assert Selected(Marks(91, 95, 30), 62, 95) == [91];
    assert Selected(Marks(61, 95, 30), 62, 95) == [91];
    assert Selected(Marks(31, 95, 30), 62, 95) == [91];
  }

  lemma ThirtyOfThem(outbound: seq<Message>)
    requires |outbound| == 95 && forall i :: 0 <= i < 95 ==> |outbound[i]| == 1860
    ensures Fitting(outbound[61..95], ROOM) == 30
  {
    var ms := outbound[61..95];
    FittingIsMaximal(ms, ROOM);
    var k := Fitting(ms, ROOM);
    UniformSize(ms[..k], 1860);
    if k < |ms| {
      UniformSize(ms[..k + 1], 1860);
    }
  }
}
