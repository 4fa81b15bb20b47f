/** The retransmission server's plan for one request, on values: which packet boundaries it selects,
    how it patches them, and which packets it sends. `RetransmissionServer` does it in place. */
module Retransmission {
  import opened Bytes
  import opened Mold

  const PACKET_BUFFER: nat := 56 * 1000
  const ROOM: nat := PACKET_BUFFER - HEADER

  // ----- Packing -----

  /** How many messages from the front fit in `room` bytes of blocks. */
  function Fitting(msgs: seq<Message>, room: nat): (k: nat)
    ensures k <= |msgs|
  {
    if msgs == [] || 2 + |msgs[0]| > room then 0 else 1 + Fitting(msgs[1..], room - 2 - |msgs[0]|)
  }

  /** What fits fits, and one message more would not. */
  lemma {:induction false} FittingIsMaximal(msgs: seq<Message>, room: nat)
    ensures var k := Fitting(msgs, room);
      && BlocksSize(msgs[..k]) <= room
      && (k < |msgs| ==> BlocksSize(msgs[..k + 1]) > room)
      && (k == |msgs| <==> BlocksSize(msgs) <= room)
  {
    if msgs != [] && 2 + |msgs[0]| <= room {
      var rest, left := msgs[1..], room - 2 - |msgs[0]|;
      var k := Fitting(msgs, room);
      FittingIsMaximal(rest, left);
      assert msgs[..k][1..] == rest[..k - 1];
      if k < |msgs| {
        assert msgs[..k + 1][1..] == rest[..k];
      }
    } else if msgs != [] {
      assert msgs[..1] == [msgs[0]];
    }
  }

  /** A packet buffer has 56000 bytes, and 20 of them are the header's. */
  lemma LargestMessage(m: Message)
    ensures Fitting([m], ROOM) == 1 <==> 20 + 2 + |m| <= 56_000
  {
    assert [m][1..] == [];
  }

  /** Every block takes at least its two length bytes. */
  lemma {:induction false} BlocksSizeAtLeast(msgs: seq<Message>)
    ensures BlocksSize(msgs) >= 2 * |msgs|
  {
    if msgs != [] {
      BlocksSizeAtLeast(msgs[1..]);
    }
  }

  // ----- The plan -----

  /** The packet boundaries picked for [from, to]: those not before `from`, up to the first one beyond `to`. */
  function Selected(packs: seq<nat>, from: nat, to: nat): seq<nat> {
    if packs == [] then []
    else if packs[0] < from then Selected(packs[1..], from, to)
    else [packs[0]] + if packs[0] > to then [] else Selected(packs[1..], from, to)
  }

  lemma SelectedStep(packs: seq<nat>, j: nat, from: nat, to: nat)
    requires j <= |packs|
    ensures Selected(packs[j..], from, to) ==
      if j == |packs| then []
      else if packs[j] < from then Selected(packs[j + 1..], from, to)
      else [packs[j]] + if packs[j] > to then [] else Selected(packs[j + 1..], from, to)
  {
    if j < |packs| {
      assert packs[j..][1..] == packs[j + 1..];
    }
  }

  /** The queue's front is overwritten with `from`, and its back, if that is another entry, with `to`. */
  function Patched(list: seq<nat>, from: nat, to: nat): seq<nat> {
    if list == [] then []
    else if |list| == 1 then [from]
    else [from] + list[1..|list| - 1] + [to]
  }

  function RecoveryList(packs: seq<nat>, from: nat, to: nat): seq<nat> {
    Patched(Selected(packs, from, to), from, to)
  }

  predicate Ascending(s: seq<nat>) {
    forall i, j :: 0 <= i < j < |s| ==> s[i] <= s[j]
  }

  /** A list of positions the server can work through: in order, inside the message list, none beyond `end`. */
  predicate Ready(outbound: seq<Message>, list: seq<nat>, end: nat) {
    && Ascending(list)
    && (forall i :: 0 <= i < |list| ==> 1 <= list[i] <= end)
    && end <= |outbound|
  }

  /** Up to where the next packet should reach. */
  function Target(list: seq<nat>, end: nat): nat
    requires list != []
  {
    if |list| > 1 then list[1] else end + 1
  }

  /** The next packet: as many messages towards the target as fit the packet buffer. */
  function NextPacket(outbound: seq<Message>, list: seq<nat>, end: nat): (p: Packet)
    requires list != [] && Ready(outbound, list, end)
    ensures p.seqNum == list[0] && p.Next() <= Target(list, end)
    ensures p.msgs == outbound[p.seqNum - 1..p.Next() - 1]
  {
    var from := list[0];
    var count := Fitting(outbound[from - 1..Target(list, end) - 1], ROOM);
    Packet(from, outbound[from - 1..from - 1 + count])
  }

  /** The list after that packet: its target replaced by where the packet really stopped. */
  function Remaining(outbound: seq<Message>, list: seq<nat>, end: nat): (r: seq<nat>)
    requires list != [] && Ready(outbound, list, end)
    ensures |r| == |list| - 1 && Ready(outbound, r, end)
  {
    if |list| > 1 then [NextPacket(outbound, list, end).Next()] + list[2..] else []
  }

  /** One packet sent, and what it leaves of the list. */
  lemma SendStep(outbound: seq<Message>, list: seq<nat>, end: nat)
    requires list != [] && Ready(outbound, list, end)
    ensures var next := list[0] + Fitting(outbound[list[0] - 1..Target(list, end) - 1], ROOM);
      && list[0] <= next <= |outbound| + 1
      && NextPacket(outbound, list, end) == Packet(list[0], outbound[list[0] - 1..next - 1])
      && Remaining(outbound, list, end) == if |list| > 1 then [next] + list[2..] else []
  {
  }

  /** All packets sent until the list is used up. */
  function Emitted(outbound: seq<Message>, list: seq<nat>, end: nat): seq<Packet>
    requires Ready(outbound, list, end)
    decreases |list|
  {
    if list == [] then []
    else [NextPacket(outbound, list, end)] + Emitted(outbound, Remaining(outbound, list, end), end)
  }

  // ----- What the plan achieves -----

  /** The packets carry the numbers from `a` up to but not including `b`, one after the other. */
  predicate Contiguous(ps: seq<Packet>, a: nat, b: nat)
    decreases |ps|
  {
    if ps == [] then a == b else ps[0].seqNum == a && Contiguous(ps[1..], ps[0].Next(), b)
  }

  /** Where the last packet starts. */
  function LastStart(outbound: seq<Message>, list: seq<nat>, end: nat): (n: nat)
    requires list != [] && Ready(outbound, list, end)
    ensures list[0] <= n <= end
    decreases |list|
  {
    if |list| == 1 then list[0] else LastStart(outbound, Remaining(outbound, list, end), end)
  }

  /** Where the last packet stops. */
  function Stop(outbound: seq<Message>, list: seq<nat>, end: nat): (n: nat)
    requires list != [] && Ready(outbound, list, end)
    ensures list[0] <= n <= end + 1
  {
    LastStart(outbound, list, end) + Fitting(outbound[LastStart(outbound, list, end) - 1..end], ROOM)
  }

  predicate IsSliceOf(outbound: seq<Message>, p: Packet) {
    && 1 <= p.seqNum <= p.Next() <= |outbound| + 1
    && p.msgs == outbound[p.seqNum - 1..p.Next() - 1]
    && |p.msgs| < END_OF_SESSION && BlocksSize(p.msgs) <= ROOM
  }

  lemma NextPacketIsSlice(outbound: seq<Message>, list: seq<nat>, end: nat)
    requires list != [] && Ready(outbound, list, end)
    ensures IsSliceOf(outbound, NextPacket(outbound, list, end))
  {
    var p := NextPacket(outbound, list, end);
    var stretch := outbound[p.seqNum - 1..Target(list, end) - 1];
    FittingIsMaximal(stretch, ROOM);
    assert p.msgs == stretch[..|p.msgs|];
    BlocksSizeAtLeast(p.msgs);
  }

  predicate AllSlices(outbound: seq<Message>, ps: seq<Packet>) {
    forall i {:trigger IsSliceOf(outbound, ps[i])} :: 0 <= i < |ps| ==> IsSliceOf(outbound, ps[i])
  }

  /** Every packet sent is a slice of the message list that fits the packet buffer. */
  lemma {:induction false} EmittedSlices(outbound: seq<Message>, list: seq<nat>, end: nat)
    requires Ready(outbound, list, end)
    ensures |Emitted(outbound, list, end)| == |list| && AllSlices(outbound, Emitted(outbound, list, end))
    decreases |list|
  {
    if list != [] {
      var rest := Remaining(outbound, list, end);
      NextPacketIsSlice(outbound, list, end);
      EmittedSlices(outbound, rest, end);
      var ps := Emitted(outbound, list, end);
      assert ps[1..] == Emitted(outbound, rest, end);
      assert forall i :: 1 <= i < |ps| ==> ps[i] == ps[1..][i - 1];
    }
  }

  /** Emission is contiguous from the first position to where the last packet stops, never overlapping. */
  lemma {:induction false} EmittedContiguous(outbound: seq<Message>, list: seq<nat>, end: nat)
    requires list != [] && Ready(outbound, list, end)
    ensures Contiguous(Emitted(outbound, list, end), list[0], Stop(outbound, list, end))
    decreases |list|
  {
    hide Fitting, Ascending;
    var p, rest := NextPacket(outbound, list, end), Remaining(outbound, list, end);
    var ps := Emitted(outbound, list, end);
    assert ps[0] == p && ps[1..] == Emitted(outbound, rest, end);
    if |list| == 1 {
      assert ps[1..] == [] && p.Next() == Stop(outbound, list, end);
    } else {
      EmittedContiguous(outbound, rest, end);
    }
  }

  /** Every packet but the last ends at or before `end`. */
  lemma {:induction false} EmittedWithin(outbound: seq<Message>, list: seq<nat>, end: nat)
    requires Ready(outbound, list, end)
    ensures var ps := Emitted(outbound, list, end);
      |ps| == |list| && forall i :: 0 <= i < |ps| - 1 ==> ps[i].Next() <= end
    decreases |list|
  {
    if list != [] {
      var ps := Emitted(outbound, list, end);
      var rest := Remaining(outbound, list, end);
      assert ps[1..] == Emitted(outbound, rest, end);
      EmittedWithin(outbound, rest, end);
      assert forall i :: 1 <= i < |ps| ==> ps[i] == ps[1..][i - 1];
    }
  }

  lemma {:induction false} ContiguousEnd(ps: seq<Packet>, a: nat, b: nat, c: nat)
    requires Contiguous(ps, a, b) && Contiguous(ps, a, c)
    ensures b == c
    decreases |ps|
  {
    if ps != [] {
      ContiguousEnd(ps[1..], ps[0].Next(), b, c);
    }
  }

  /** The selection is empty exactly when no packet boundary lies at or after `from`. */
  lemma {:induction false} SelectedNonEmpty(packs: seq<nat>, from: nat, to: nat)
    ensures Selected(packs, from, to) == [] <==> forall j :: 0 <= j < |packs| ==> packs[j] < from
  {
    if packs != [] && packs[0] < from {
      SelectedNonEmpty(packs[1..], from, to);
      assert forall j :: 1 <= j < |packs| ==> packs[j] == packs[1..][j - 1];
    }
  }

  lemma {:induction false} SelectedShape(packs: seq<nat>, from: nat, to: nat)
    requires Ascending(packs)
    ensures var l := Selected(packs, from, to);
      && Ascending(l)
      && (forall i :: 0 <= i < |l| ==> from <= l[i])
      && (forall i :: 0 <= i < |l| - 1 ==> l[i] <= to)
      && (packs != [] ==> forall i :: 0 <= i < |l| ==> packs[0] <= l[i])
  {
    if packs != [] {
      SelectedShape(packs[1..], from, to);
    }
  }

  lemma RecoveryListReady(outbound: seq<Message>, packs: seq<nat>, from: nat, to: nat)
    requires Ascending(packs) && 1 <= from <= to <= |outbound|
    ensures Ready(outbound, RecoveryList(packs, from, to), to)
    ensures RecoveryList(packs, from, to) != [] ==> RecoveryList(packs, from, to)[0] == from
  {
    SelectedShape(packs, from, to);
    var l, r := Selected(packs, from, to), RecoveryList(packs, from, to);
    assert forall i :: 1 <= i < |r| - 1 ==> r[i] == l[i];
  }

  // ----- A request while another is worked off -----

  /** A new request's boundaries go behind those still pending, and the ends of the whole are overwritten. */
  function Merged(pending: seq<nat>, packs: seq<nat>, from: nat, to: nat): seq<nat> {
    Patched(pending + Selected(packs, from, to), from, to)
  }

  lemma MergedWithNone(packs: seq<nat>, from: nat, to: nat)
    ensures Merged([], packs, from, to) == RecoveryList(packs, from, to)
  {
    assert [] + Selected(packs, from, to) == Selected(packs, from, to);
  }

  /** With one position pending the merged list can always be worked off. */
  lemma MergedWithOne(outbound: seq<Message>, pending: seq<nat>, packs: seq<nat>, from: nat, to: nat)
    requires Ascending(packs) && 1 <= from <= to <= |outbound| && |pending| == 1
    ensures Ready(outbound, Merged(pending, packs, from, to), to)
  {
    SelectedShape(packs, from, to);
    var sel, l := Selected(packs, from, to), Merged(pending, packs, from, to);
    hide Selected;
    assert |l| == |sel| + 1 && l[0] == from;
    assert sel != [] ==> l[|l| - 1] == to;
    assert forall i :: 1 <= i < |l| - 1 ==> l[i] == sel[i - 1];
  }

  lemma JoinAscending(a: seq<nat>, b: seq<nat>)
    requires a != [] && b != []
    ensures Ascending(a + b) <==> Ascending(a) && Ascending(b) && a[|a| - 1] <= b[0]
  {
    var l := a + b;
    if Ascending(l) {
      assert l[|a| - 1] == a[|a| - 1] && l[|a|] == b[0];
      assert forall i :: 0 <= i < |a| ==> a[i] == l[i];
      assert forall i :: 0 <= i < |b| ==> b[i] == l[|a| + i];
    }
  }

  /** A list with its ends in the range can be worked off if it ascends. */
  lemma ReadyIfAscending(outbound: seq<Message>, l: seq<nat>, end: nat)
    requires l != [] && 1 <= l[0] && l[|l| - 1] <= end <= |outbound|
    ensures Ready(outbound, l, end) <==> Ascending(l)
  {
  }

  lemma MergedShape(pending: seq<nat>, packs: seq<nat>, from: nat, to: nat)
    requires |pending| >= 2
    ensures Merged(pending, packs, from, to) == [from] + Middle(pending, packs, from, to) + Back(packs, from, to)
  {
    var all := pending + Selected(packs, from, to);
    hide Selected;
  }

  /** What stays pending of the old list. */
  function Middle(pending: seq<nat>, packs: seq<nat>, from: nat, to: nat): seq<nat>
    requires |pending| >= 2
  {
    if Selected(packs, from, to) == [] then pending[1..|pending| - 1] else pending[1..]
  }

  /** What comes behind it. */
  function Back(packs: seq<nat>, from: nat, to: nat): (back: seq<nat>)
    ensures back != [] && back[|back| - 1] == to
  {
    var sel := Selected(packs, from, to);
    if sel == [] then [to] else sel[..|sel| - 1] + [to]
  }

  lemma BackAscends(packs: seq<nat>, from: nat, to: nat)
    requires Ascending(packs) && from <= to
    ensures Ascending(Back(packs, from, to)) && from <= Back(packs, from, to)[0]
  {
    SelectedShape(packs, from, to);
    var sel := Selected(packs, from, to);
    hide Selected, Ascending;
    OneAscends(to);
    if |sel| > 1 {
      PartAscends(sel, 0, |sel| - 1);
      JoinAscending(sel[..|sel| - 1], [to]);
    }
  }

  /** With more pending it can be exactly when what stays pending fits between the new start and what comes
      behind, the first boundary selected or the end; otherwise a position goes back, and the count of its
      packet below zero. */
  lemma MergedExactlyWhen(outbound: seq<Message>, pending: seq<nat>, packs: seq<nat>, from: nat, to: nat)
    requires Ascending(packs) && Ascending(pending) && 1 <= from <= to <= |outbound| && |pending| >= 2
    ensures var mid := Middle(pending, packs, from, to);
      Ready(outbound, Merged(pending, packs, from, to), to) <==>
        mid == [] || (from <= mid[0] && mid[|mid| - 1] <= Back(packs, from, to)[0])
  {
    var mid, back := Middle(pending, packs, from, to), Back(packs, from, to);
    PartAscends(pending, 1, |mid| + 1);
    hide Selected, Merged, Ascending, Ready, Back;
    assert mid == pending[1..|mid| + 1];
    MergedShape(pending, packs, from, to);
    BackAscends(packs, from, to);
    ReadyIfAscending(outbound, Merged(pending, packs, from, to), to);
    MiddleAscending(from, mid, back);
  }

  lemma PartAscends(l: seq<nat>, i: nat, j: nat)
    requires Ascending(l) && i <= j <= |l|
    ensures Ascending(l[i..j])
  {
  }

  lemma MiddleAscending(from: nat, mid: seq<nat>, back: seq<nat>)
    requires Ascending(mid) && Ascending(back) && back != [] && from <= back[0]
    ensures Ascending([from] + mid + back) <==> (mid == [] || (from <= mid[0] && mid[|mid| - 1] <= back[0]))
  {
    OneAscends(from);
    hide Ascending;
    if mid == [] {
      assert [from] + mid == [from];
    } else {
      JoinAscending([from], mid);
    }
    JoinAscending([from] + mid, back);
  }

  lemma OneAscends(x: nat)
    ensures Ascending([x])
  {
  }

  /** Asked again for [1, 100] after its first packet, a server with boundaries every 30 numbers works through
      1, 61, 100, 1, ... and so from 100 back to 1. */
  lemma RepeatedRequestGoesBack()
    ensures RecoveryList([1, 31, 61, 91], 1, 100) == [1, 31, 61, 100]
    ensures Merged([31, 61, 100], [1, 31, 61, 91], 1, 100) == [1, 61, 100, 1, 31, 61, 100]
  {
    assert [1, 31, 61, 91][1..] == [31, 61, 91] && [31, 61, 91][1..] == [61, 91] && [61, 91][1..] == [91];
    assert Selected([91], 1, 100) == [91];
    assert Selected([61, 91], 1, 100) == [61, 91];
    assert Selected([31, 61, 91], 1, 100) == [31, 61, 91];
    assert Selected([1, 31, 61, 91], 1, 100) == [1, 31, 61, 91];
    var all := [31, 61, 100] + [1, 31, 61, 91];
    assert all == [31, 61, 100, 1, 31, 61, 91] && |all| == 7;
    assert all[1..6] == [61, 100, 1, 31, 61];
  }

  // ----- Greedy packing -----

  lemma {:induction false} FittingPrefix(msgs: seq<Message>, m: nat, room: nat)
    requires m <= |msgs|
    ensures Fitting(msgs[..m], room) == if Fitting(msgs, room) < m then Fitting(msgs, room) else m
  {
    if m > 0 && 2 + |msgs[0]| <= room {
      assert msgs[..m][1..] == msgs[1..][..m - 1];
      FittingPrefix(msgs[1..], m - 1, room - 2 - |msgs[0]|);
    }
  }

  lemma {:induction false} FittingWithout(msgs: seq<Message>, m: nat, room: nat)
    requires m <= Fitting(msgs, room)
    ensures m + Fitting(msgs[m..], room) >= Fitting(msgs, room)
  {
    if m > 0 {
      var less := room - 2 - |msgs[0]|;
      FittingWithout(msgs[1..], m - 1, less);
      assert msgs[1..][m - 1..] == msgs[m..];
      FittingInMore(msgs[m..], less, room);
    } else {
      assert msgs[0..] == msgs;
    }
  }

  lemma {:induction false} FittingInMore(msgs: seq<Message>, room: nat, more: nat)
    requires room <= more
    ensures Fitting(msgs, room) <= Fitting(msgs, more)
  {
    if msgs != [] && 2 + |msgs[0]| <= room {
      FittingInMore(msgs[1..], room - 2 - |msgs[0]|, more - 2 - |msgs[0]|);
    }
  }

  /** One packet from number `from` on, with as many messages up to `end` as fit: the number after it. */
  function Packed(outbound: seq<Message>, end: nat, from: nat): (to: nat)
    requires 1 <= from <= end + 1 <= |outbound| + 1
    ensures from <= to <= end + 1
  {
    from + Fitting(outbound[from - 1..end], ROOM)
  }

  /** The number after `k` such packets, one behind the other. */
  function Reach(outbound: seq<Message>, end: nat, from: nat, k: nat): (to: nat)
    requires 1 <= from <= end + 1 <= |outbound| + 1
    ensures from <= to <= end + 1
    decreases k
  {
    if k == 0 then from else Reach(outbound, end, Packed(outbound, end, from), k - 1)
  }

  /** Starting later never ends earlier. */
  lemma PackedMonotone(outbound: seq<Message>, end: nat, a: nat, b: nat)
    requires 1 <= a <= b <= end + 1 <= |outbound| + 1
    ensures Packed(outbound, end, a) <= Packed(outbound, end, b)
  {
    if b < Packed(outbound, end, a) {
      FittingWithout(outbound[a - 1..end], b - a, ROOM);
      assert outbound[a - 1..end][b - a..] == outbound[b - 1..end];
    }
  }

  lemma {:induction false} ReachMonotone(outbound: seq<Message>, end: nat, a: nat, b: nat, k: nat)
    requires 1 <= a <= b <= end + 1 <= |outbound| + 1
    ensures Reach(outbound, end, a, k) <= Reach(outbound, end, b, k)
    decreases k
  {
    if k > 0 {
      PackedMonotone(outbound, end, a, b);
      ReachMonotone(outbound, end, Packed(outbound, end, a), Packed(outbound, end, b), k - 1);
    }
  }

  /** Packing from position `i` of the list, with as many packets as are left from there, gets to `m`. */
  predicate ReachesFrom(outbound: seq<Message>, list: seq<nat>, end: nat, m: nat, i: nat)
    requires Ready(outbound, list, end) && i < |list|
  {
    Reach(outbound, end, list[i], |list| - i) >= m
  }

  predicate Reaches(outbound: seq<Message>, list: seq<nat>, end: nat, m: nat)
    requires Ready(outbound, list, end)
  {
    forall i :: 0 <= i < |list| ==> ReachesFrom(outbound, list, end, m, i)
  }

  lemma NextIsPacked(outbound: seq<Message>, list: seq<nat>, end: nat)
    requires list != [] && Ready(outbound, list, end)
    ensures var next := NextPacket(outbound, list, end).Next(); var greedy := Packed(outbound, end, list[0]);
      next == if greedy < Target(list, end) then greedy else Target(list, end)
  {
    var from, to := list[0], Target(list, end);
    FittingPrefix(outbound[from - 1..end], to - from, ROOM);
    assert outbound[from - 1..end][..to - from] == outbound[from - 1..to - 1];
  }

  /** The next packet's end stands for the two positions it comes from. */
  lemma NextReaches(outbound: seq<Message>, list: seq<nat>, end: nat, m: nat)
    requires |list| > 1 && Ready(outbound, list, end)
    ensures ReachesFrom(outbound, Remaining(outbound, list, end), end, m, 0) <==>
      ReachesFrom(outbound, list, end, m, 0) && ReachesFrom(outbound, list, end, m, 1)
  {
    hide Ascending, Packed, Fitting, NextPacket;
    var greedy, k := Packed(outbound, end, list[0]), |list| - 1;
    NextIsPacked(outbound, list, end);
    assert Reach(outbound, end, list[0], k + 1) == Reach(outbound, end, greedy, k);
    if greedy < list[1] {
      ReachMonotone(outbound, end, greedy, list[1], k);
    } else {
      ReachMonotone(outbound, end, list[1], greedy, k);
    }
  }

  lemma LaterReaches(outbound: seq<Message>, list: seq<nat>, end: nat, m: nat, i: nat)
    requires Ready(outbound, list, end) && 1 <= i < |list| - 1
    ensures ReachesFrom(outbound, Remaining(outbound, list, end), end, m, i) <==> ReachesFrom(outbound, list, end, m, i + 1)
  {
    hide Reach, NextPacket, Ascending;
  }

  lemma ReachesAfterNext(outbound: seq<Message>, list: seq<nat>, end: nat, m: nat)
    requires |list| > 1 && Ready(outbound, list, end)
    ensures Reaches(outbound, list, end, m) <==> Reaches(outbound, Remaining(outbound, list, end), end, m)
  {
    hide ReachesFrom, Remaining, Ready;
    var rest := Remaining(outbound, list, end);
    NextReaches(outbound, list, end, m);
    if Reaches(outbound, list, end, m) {
      forall i | 0 <= i < |rest| ensures ReachesFrom(outbound, rest, end, m, i) {
        if i > 0 { LaterReaches(outbound, list, end, m, i); }
      }
    }
    if Reaches(outbound, rest, end, m) {
      forall i | 0 <= i < |list| ensures ReachesFrom(outbound, list, end, m, i) {
        if i > 1 { LaterReaches(outbound, list, end, m, i - 1); }
      }
    }
  }

  /** Where the last packet stops, from the positions alone: as far as packing gets from the worst of them. */
  lemma {:induction false} StopsAt(outbound: seq<Message>, list: seq<nat>, end: nat, m: nat)
    requires list != [] && Ready(outbound, list, end)
    ensures Stop(outbound, list, end) >= m <==> Reaches(outbound, list, end, m)
    decreases |list|
  {
    hide Ascending, Reach, Packed, Fitting, ReachesFrom;
    if |list| == 1 {
      StopsAtOnly(outbound, list, end, m);
    } else {
      hide Reaches;
      ReachesAfterNext(outbound, list, end, m);
      StopsAt(outbound, Remaining(outbound, list, end), end, m);
    }
  }

  lemma StopsAtOnly(outbound: seq<Message>, list: seq<nat>, end: nat, m: nat)
    requires |list| == 1 && Ready(outbound, list, end)
    ensures Stop(outbound, list, end) >= m <==> ReachesFrom(outbound, list, end, m, 0)
  {
    hide Ascending, Fitting;
    assert Reach(outbound, end, list[0], 1) == Reach(outbound, end, Packed(outbound, end, list[0]), 0);
  }

  lemma EmittedExact(outbound: seq<Message>, list: seq<nat>, end: nat)
    requires list != [] && Ready(outbound, list, end)
    ensures Contiguous(Emitted(outbound, list, end), list[0], end + 1) <==> Reaches(outbound, list, end, end + 1)
  {
    hide Stop, Reaches, Emitted, Contiguous;
    var ps := Emitted(outbound, list, end);
    EmittedContiguous(outbound, list, end);
    if Contiguous(ps, list[0], end + 1) {
      ContiguousEnd(ps, list[0], end + 1, Stop(outbound, list, end));
    }
    StopsAt(outbound, list, end, end + 1);
  }

  /** The retransmission of [from, to] is exact: the packets cover the range in order without overlap
      exactly when some packet boundary lies at or after `from` and, from each boundary selected, the messages
      up to `to` can be packed into as many packets as there are boundaries from there on. */
  lemma RetransmissionIsExact(outbound: seq<Message>, packs: seq<nat>, from: nat, to: nat)
    requires Ascending(packs) && 1 <= from <= to <= |outbound|
    ensures var list := RecoveryList(packs, from, to);
      && Ready(outbound, list, to)
      && (Contiguous(Emitted(outbound, list, to), from, to + 1) <==>
           && (exists j :: 0 <= j < |packs| && packs[j] >= from)
           && Reaches(outbound, list, to, to + 1))
  {
    hide Reaches, Emitted;
    var list := RecoveryList(packs, from, to);
    RecoveryListReady(outbound, packs, from, to);
    SelectedNonEmpty(packs, from, to);
    if list != [] {
      EmittedExact(outbound, list, to);
    } else {
      NothingEmitted(outbound, to);
    }
  }

  lemma NothingEmitted(outbound: seq<Message>, end: nat)
    requires end <= |outbound|
    ensures Ready(outbound, [], end) && Emitted(outbound, [], end) == []
  {
  }

  /** A retransmission that falls short: two messages of 40000 bytes and one boundary make one packet, which
      holds the first message only. */
  lemma LargeMessagesFallShort(outbound: seq<Message>)
    requires |outbound| == 2 && |outbound[0]| == 40000 && |outbound[1]| == 40000
    ensures RecoveryList(Marks(1, 2, 30), 1, 2) == [1] && Ready(outbound, [1], 2)
    ensures Emitted(outbound, [1], 2) == [Packet(1, [outbound[0]])]
    ensures !Reaches(outbound, [1], 2, 3)
  {
    var room := ROOM - 40002;
    assert outbound[0..2] == outbound && outbound[..1] == [outbound[0]];
    assert Fitting(outbound[1..], room) == 0;
    assert Fitting(outbound, ROOM) == 1;
    assert Packed(outbound, 2, 1) == 2 == Reach(outbound, 2, 2, 0);
    assert [1][0] == 1 && Reach(outbound, 2, 1, 1) == 2;
    assert !ReachesFrom(outbound, [1], 2, 3, 0);
    assert Remaining(outbound, [1], 2) == [];
  }

  /** Every stretch between two positions, and the last one, fits a packet. */
  predicate AllFit(outbound: seq<Message>, list: seq<nat>, end: nat)
    requires list != [] && Ready(outbound, list, end)
    decreases |list|
  {
    && BlocksSize(outbound[list[0] - 1..Target(list, end) - 1]) <= ROOM
    && (|list| > 1 ==> Ready(outbound, list[1..], end) && AllFit(outbound, list[1..], end))
  }

  /** Packet by packet, the stretches between the positions of `list`, the last one up to `end`. */
  predicate Stretches(ps: seq<Packet>, list: seq<nat>, end: nat)
    decreases |list|
  {
    && |ps| == |list|
    && (list != [] ==>
          && ps[0].seqNum == list[0] && ps[0].Next() == Target(list, end)
          && Stretches(ps[1..], list[1..], end))
  }

  lemma RemainingUncut(outbound: seq<Message>, list: seq<nat>, end: nat)
    requires list != [] && Ready(outbound, list, end)
    requires BlocksSize(outbound[list[0] - 1..Target(list, end) - 1]) <= ROOM
    ensures NextPacket(outbound, list, end).Next() == Target(list, end)
    ensures Remaining(outbound, list, end) == list[1..]
  {
    FittingIsMaximal(outbound[list[0] - 1..Target(list, end) - 1], ROOM);
  }

  /** Then the packets are exactly those stretches. */
  lemma {:induction false} NothingCutShort(outbound: seq<Message>, list: seq<nat>, end: nat)
    requires list != [] && Ready(outbound, list, end) && AllFit(outbound, list, end)
    ensures Stretches(Emitted(outbound, list, end), list, end)
    decreases |list|
  {
    RemainingUncut(outbound, list, end);
    var ps := Emitted(outbound, list, end);
    assert ps[0] == NextPacket(outbound, list, end) && ps[1..] == Emitted(outbound, list[1..], end);
    if |list| > 1 {
      NothingCutShort(outbound, list[1..], end);
    }
  }

  // ----- Packet boundaries -----

  /** Every `size`-th number from `n` on, below `limit`. */
  function Marks(n: nat, limit: nat, size: nat): seq<nat>
    requires size > 0
    decreases limit - n
  {
    if n >= limit then [] else [n] + Marks(n + size, limit, size)
  }

  lemma {:induction false} MarksAscending(n: nat, limit: nat, size: nat)
    requires size > 0
    ensures Ascending(Marks(n, limit, size))
    ensures forall i :: 0 <= i < |Marks(n, limit, size)| ==> n <= Marks(n, limit, size)[i] < limit
    decreases limit - n
  {
    if n < limit {
      MarksAscending(n + size, limit, size);
    }
  }

  lemma {:induction false} MultipleBehind(size: nat, a: nat, b: nat)
    requires a > b
    ensures size * a >= size * b + size
    decreases a
  {
    assert size * a == size * (a - 1) + size;
    if a > b + 1 {
      MultipleBehind(size, a - 1, b);
    }
  }

  lemma QuotientIs(x: nat, size: nat, k: nat)
    requires size > 0 && size * k <= x < size * k + size
    ensures x / size == k
  {
    var q := x / size;
    assert size * q <= x < size * q + size;
    if q > k { MultipleBehind(size, q, k); }
    if q < k { MultipleBehind(size, k, q); }
  }

  /** The last mark. */
  lemma {:induction false} LastMark(n: nat, limit: nat, size: nat) returns (k: nat)
    requires size > 0 && n < limit
    ensures var marks := Marks(n, limit, size);
      marks != [] && marks[|marks| - 1] == n + size * k < limit <= n + size * k + size
    decreases limit - n
  {
    if n + size < limit {
      k := LastMark(n + size, limit, size);
      assert size * (k + 1) == size * k + size;
      k := k + 1;
    } else {
      k := 0;
      assert Marks(n, limit, size) == [n] + Marks(n + size, limit, size) == [n];
    }
  }

  /** Which requests are answered at all, when the boundaries are those set at loading: those that start no
      later than the last boundary. */
  lemma AnsweredExactlyWhen(n: nat, size: nat, from: nat, to: nat)
    requires size > 0 && from >= 1
    ensures RecoveryList(Marks(1, n, size), from, to) != [] <==> n >= 2 && from <= 1 + size * ((n - 2) / size)
  {
    var marks := Marks(1, n, size);
    SelectedNonEmpty(marks, from, to);
    if n >= 2 {
      var k := LastMark(1, n, size);
      QuotientIs(n - 2, size, k);
      MarksAscending(1, n, size);
    }
  }

  /** Of 95 messages in packets of 30 the last boundary is 91: a gap [92, 95] is never filled, though the same
      messages come with a gap that starts at 91. */
  lemma GapBehindLastBoundary(outbound: seq<Message>)
    requires |outbound| == 95
    ensures RecoveryList(Marks(1, |outbound|, 30), 92, 95) == []
    ensures RecoveryList(Marks(1, |outbound|, 30), 91, 95) != []
  {
    AnsweredExactlyWhen(95, 30, 92, 95);
    AnsweredExactlyWhen(95, 30, 91, 95);
  }
}
