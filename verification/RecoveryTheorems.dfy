/** What the client achieves: a maximal queue drain, the snapshot handover, arbitration between two
    multicast lines, and the closing of a gap by retransmitted packets. */
module RecoveryTheorems {
  import opened Mold
  import opened Ranges
  import opened Recovery
  import opened RecoveryLaws

  /** `r` follows `s` by delivering the stream from `s.seqNo` up to `r.seqNo`. */
  predicate Forward(stream: seq<Message>, s: State, r: State) {
    && 1 <= s.seqNo <= r.seqNo <= |stream| + 1
    && r.delivered == s.delivered + stream[s.seqNo - 1..r.seqNo - 1]
  }

  lemma ForwardTransitive(stream: seq<Message>, s: State, t: State, r: State)
    requires Forward(stream, s, t) && Forward(stream, t, r)
    ensures Forward(stream, s, r)
  {
    SliceJoin(stream, s.seqNo - 1, t.seqNo - 1, r.seqNo - 1);
  }

  lemma SliceJoin(stream: seq<Message>, a: nat, b: nat, c: nat)
    requires a <= b <= c <= |stream|
    ensures stream[a..b] + stream[b..c] == stream[a..c]
  {
  }

  lemma DrainedForward(stream: seq<Message>, s: State, ok: bool)
    requires Sound(stream, s)
    ensures Forward(stream, s, Drained(stream, s, ok))
    ensures Drained(stream, s, ok).seqNo == FirstUncovered(s.queue, s.seqNo) && !Drained(stream, s, ok).inRefresh
    ensures s.refreshRejected ==> Drained(stream, s, ok).refreshRejected
  {
    FirstUncoveredIsAnEnd(s.queue, s.seqNo);
  }

  // ----- Queue drain -----

  /** Draining delivers every number the queue covers, without a hole, and keeps exactly the packets beyond. */
  lemma DrainIsMaximal(stream: seq<Message>, s: State, ok: bool)
    requires Sound(stream, s)
    ensures var r := Drained(stream, s, ok);
      && Forward(stream, s, r)
      && !Covered(s.queue, r.seqNo) && !Covered(r.queue, r.seqNo)
      && (forall n :: s.seqNo <= n < r.seqNo ==> Covered(s.queue, n))
      && (forall p :: p in r.queue <==> p in s.queue && p.seqNum > r.seqNo)
  {
    DrainedForward(stream, s, ok);
    AboveMembers(s.queue, Drained(stream, s, ok).seqNo);
  }

  /** A drain ends with an empty queue, or it has asked for the numbers in front of the first packet
      kept: the 16-bit amount of that request is the gap exactly when the gap is below 65536. */
  lemma DrainAsksForNextGap(stream: seq<Message>, s: State, ok: bool)
    requires Sound(stream, s)
    ensures AsksForNextGap(Emptied(stream, s), Drained(stream, s, ok), ok)
  {
    var t := Emptied(stream, s);
    if t.queue != [] {
      AboveMembers(s.queue, t.seqNo);
      LeastSeqIsLeast(t.queue);
    }
  }

  predicate AsksForNextGap(s: State, r: State, ok: bool) {
    if s.queue == [] || !ok then r == s.(inRetransmit := false)
    else
      var gap := LeastSeq(s.queue) - s.seqNo;
      && gap > 0
      && r.inRetransmit && r.recoverySeqno == r.seqNo && r.recoveryEnd + 1 == r.seqNo + gap
      && r.requests == s.requests + [Request(r.seqNo, gap % 0x1_0000)]
      && (gap % 0x1_0000 == gap <==> gap < 0x1_0000)
  }

  // ----- Snapshot handover -----

  lemma PrefixAndSlice(stream: seq<Message>, k: nat, from: nat, m: nat)
    requires 1 <= from <= m <= |stream| + 1 && k <= |stream|
    ensures stream[..k] + stream[from - 1..m - 1] == stream[..m - 1] <==> from == k + 1
  {
    assert |stream[..k] + stream[from - 1..m - 1]| == k + m - from;
  }

  /** On every run of a new channel: as long as it is in refresh, what was handed on is the stream from its
      beginning, one message for each snapshot message received, and the next number follows. */
  lemma SnapshotIsPrefix(stream: seq<Message>, es: seq<Event>)
    requires Admissible(stream, Initial(), es, true) && Run(stream, Initial(), es, true).inRefresh
    ensures var r := Run(stream, Initial(), es, true);
      r.received <= |stream| && r.delivered == stream[..r.received] && r.seqNo == r.received + 1
  {
    RunExact(stream, Initial(), es);
    RefreshIsPrefix(stream, Run(stream, Initial(), es, true));
  }

  lemma RefreshIsPrefix(stream: seq<Message>, s: State)
    requires Sound(stream, s) && Exact(stream, s) && s.inRefresh
    ensures s.received <= |stream| && s.delivered == stream[..s.received] && s.seqNo == s.received + 1
  {
  }

  lemma MarkerDrains(stream: seq<Message>, s: State, n: nat, env: Env)
    requires Sound(stream, s) && n <= |stream| + 1
    ensures var r := EndOfSnapshot(stream, s, n, env); var from := if n > 0 then n else 1;
      && !r.inRefresh && r.refreshRejected
      && from <= r.seqNo == FirstUncovered(s.queue, from)
      && r.delivered == s.delivered + stream[from - 1..r.seqNo - 1]
  {
    var t := AtMarker(s, n, env.logoutOk);
    assert t.queue == s.queue && t.delivered == s.delivered && t.refreshRejected;
    DrainedForward(stream, t, env.requestOk);
  }

  /** The end marker hands over to the packets queued meanwhile: delivery goes on from number n through
      everything they cover.  The result is the whole stream so far exactly when the marker names the
      message after the last one received. */
  lemma SnapshotHandover(stream: seq<Message>, s: State, n: nat, env: Env)
    requires Sound(stream, s) && Exact(stream, s) && s.inRefresh && n <= |stream| + 1
    ensures var r := EndOfSnapshot(stream, s, n, env); var from := if n > 0 then n else 1;
      && !r.inRefresh && r.refreshRejected
      && r.seqNo == FirstUncovered(s.queue, from)
      && r.delivered == s.delivered + stream[from - 1..r.seqNo - 1]
      && (r.delivered == stream[..r.seqNo - 1] <==> from == s.received + 1)
  {
    hide EndOfSnapshot, Exact;
    var r := EndOfSnapshot(stream, s, n, env);
    var from := if n > 0 then n else 1;
    MarkerDrains(stream, s, n, env);
    RefreshIsPrefix(stream, s);
    PrefixAndSlice(stream, s.received, from, r.seqNo);
  }

  // ----- Delivery outside refresh -----

  lemma InSyncForward(stream: seq<Message>, s: State, p: Range, env: Env)
    requires Sound(stream, s) && IsSlice(stream, p) && p.seqNum == s.seqNo
    ensures Forward(stream, s, InSync(stream, s, p, env)) && InSync(stream, s, p, env).seqNo >= p.next
  {
    if p.next != p.seqNum {
      var t := Deliver(stream, s, p.next);
      assert Forward(stream, s, t);
      if t.inRetransmit && t.seqNo > t.recoveryEnd {
        var u := t.(inRetransmit := false, recoveryEnd := 0);
        DrainedForward(stream, u, env.requestOk);
        ForwardTransitive(stream, s, u, Drained(stream, u, env.requestOk));
      }
    }
  }

  /** Out of refresh, a packet that carries the expected number is delivered exactly when it starts
      there: one that starts earlier is dropped whole, new messages included. */
  lemma PartiallyNewPacketIsDropped(stream: seq<Message>, s: State, p: Range, env: Env)
    requires Sound(stream, s) && IsSlice(stream, p) && Covers(p, s.seqNo)
    requires Modes(s) && !s.inRefresh && s.dropPackets == 0
    ensures Udp(stream, s, p, env).seqNo > s.seqNo <==> p.seqNum == s.seqNo
    ensures p.seqNum < s.seqNo ==> Udp(stream, s, p, env) == s
  {
    if p.seqNum == s.seqNo {
      InSyncForward(stream, GaveUp(AtFirstMessage(s, p), p), p, env);
    }
  }

  // ----- Line arbitration -----

  predicate Increasing(cuts: seq<nat>) {
    forall i, j :: 0 <= i < j < |cuts| ==> cuts[i] < cuts[j]
  }

  /** A packet of the common packetisation (or several of its packets in one). */
  predicate Aligned(cuts: seq<nat>, p: Range) {
    p.seqNum in cuts && p.next in cuts
  }

  /** The channel is live and stands, like everything in its queue, on boundaries of the packetisation. */
  predicate OnCuts(cuts: seq<nat>, s: State) {
    && !s.inRefresh && s.seqNo > 1 && s.dropPackets == 0
    && s.seqNo in cuts
    && forall i :: 0 <= i < |s.queue| ==> Aligned(cuts, s.queue[i])
  }

  predicate AlignedEvent(cuts: seq<nat>, e: Event) {
    match e
    case Datagram(p, _) => Aligned(cuts, p)
    case NoData(_) => true
    case Disconnected(_) => true
    case _ => false
  }

  /** How far the packets `Range(cuts[k], cuts[k + 1])`, ... occur in order among the events. */
  function Progress(cuts: seq<nat>, k: nat, es: seq<Event>): (j: nat)
    requires k < |cuts|
    ensures k <= j < |cuts|
    decreases |es|
  {
    if es == [] || k + 1 == |cuts| then k
    else if es[0].Datagram? && es[0].p == Range(cuts[k], cuts[k + 1]) then Progress(cuts, k + 1, es[1..])
    else Progress(cuts, k, es[1..])
  }

  lemma DrainedOnCuts(stream: seq<Message>, cuts: seq<nat>, s: State, ok: bool)
    requires Sound(stream, s) && OnCuts(cuts, s)
    ensures OnCuts(cuts, Drained(stream, s, ok))
  {
    AboveMembers(s.queue, FirstUncovered(s.queue, s.seqNo));
    FirstUncoveredIsAnEnd(s.queue, s.seqNo);
  }

  lemma LiveOnCuts(stream: seq<Message>, cuts: seq<nat>, s: State, p: Range, env: Env)
    requires Sound(stream, s) && IsSlice(stream, p) && p.seqNum >= s.seqNo
    requires OnCuts(cuts, s) && Aligned(cuts, p)
    ensures var r := Live(stream, s, p, env);
      OnCuts(cuts, r) && Forward(stream, s, r) && (p.seqNum == s.seqNo ==> r.seqNo >= p.next)
  {
    if p.seqNum == s.seqNo {
      InSyncForward(stream, s, p, env);
      if p.next != p.seqNum {
        DrainedOnCuts(stream, cuts, Deliver(stream, s, p.next).(inRetransmit := false, recoveryEnd := 0), env.requestOk);
      }
    }
  }

  lemma UdpOnCuts(stream: seq<Message>, cuts: seq<nat>, s: State, p: Range, env: Env)
    requires Sound(stream, s) && Arrives(stream, p) && Modes(s)
    requires OnCuts(cuts, s) && Aligned(cuts, p)
    ensures var r := Udp(stream, s, p, env);
      OnCuts(cuts, r) && Forward(stream, s, r) && (p.seqNum == s.seqNo ==> r.seqNo >= p.next)
  {
    if p.seqNum >= s.seqNo && !(s.inRetransmit && p.seqNum > s.seqNo) {
      LiveOnCuts(stream, cuts, s, p, env);
    }
  }

  lemma StepOnCuts(stream: seq<Message>, cuts: seq<nat>, s: State, e: Event)
    requires Sound(stream, s) && Possible(stream, s, e) && Modes(s)
    requires OnCuts(cuts, s) && AlignedEvent(cuts, e)
    ensures var r := Step(stream, s, e); OnCuts(cuts, r) && Forward(stream, s, r)
    ensures e.Datagram? && e.p.seqNum == s.seqNo ==> Step(stream, s, e).seqNo >= e.p.next
  {
    if e.Datagram? {
      UdpOnCuts(stream, cuts, s, e.p, e.env);
    }
  }

  /** Line arbitration: if one line carries its packets in order, then whatever packets of the same
      packetisation the other line adds, early, late or twice, the channel gets at least as far as that
      line and delivers everything on the way once. */
  lemma {:induction false} LineArbitration(stream: seq<Message>, cuts: seq<nat>, k: nat, s: State, es: seq<Event>)
    requires Sound(stream, s) && Modes(s) && Admissible(stream, s, es, false)
    requires Increasing(cuts) && OnCuts(cuts, s)
    requires forall i :: 0 <= i < |es| ==> AlignedEvent(cuts, es[i])
    requires k < |cuts| && cuts[k] <= s.seqNo
    ensures var r := Run(stream, s, es, false);
      r.seqNo >= cuts[Progress(cuts, k, es)] && Forward(stream, s, r)
    decreases |es|
  {
    if es == [] {
      assert stream[s.seqNo - 1..s.seqNo - 1] == [];
    } else {
      var e := es[0];
      var t := Step(stream, s, e);
      ModesStep(stream, s, e);
      StepOnCuts(stream, cuts, s, e);
      var carried := k + 1 < |cuts| && e.Datagram? && e.p == Range(cuts[k], cuts[k + 1]);
      var j := if carried then k + 1 else k;
      if carried && s.seqNo > cuts[k] {
        var i :| 0 <= i < |cuts| && cuts[i] == s.seqNo;
        assert i > k;
      }
      LineArbitration(stream, cuts, j, t, es[1..]);
      var r := Run(stream, s, es, false);
      ForwardTransitive(stream, s, t, r);
      ProgressMonotone(cuts, k, es);
    }
  }

  lemma ProgressMonotone(cuts: seq<nat>, k: nat, es: seq<Event>)
    requires k < |cuts| && es != [] && Increasing(cuts)
    ensures var carried := k + 1 < |cuts| && es[0].Datagram? && es[0].p == Range(cuts[k], cuts[k + 1]);
      Progress(cuts, k, es) == Progress(cuts, if carried then k + 1 else k, es[1..])
  {
  }

  // ----- Gap recovery -----

  /** Packets that carry the numbers from `a` up to but not including `b` one after the other. */
  predicate Chain(stream: seq<Message>, es: seq<Event>, a: nat, b: nat)
    decreases |es|
  {
    && es != [] && es[|es| - 1].Datagram? && es[0].Datagram? && IsSlice(stream, es[0].p) && es[0].p.seqNum == a
    && if |es| == 1 then a < b && es[0].p.next == b
       else es[0].p.next < b && Chain(stream, es[1..], es[0].p.next, b)
  }

  /** The state after the gap is closed: everything up to its end delivered, retransmission left. */
  function Filled(stream: seq<Message>, s: State): State
    requires 1 <= s.seqNo <= s.recoveryEnd + 1 <= |stream| + 1
  {
    Deliver(stream, s, s.recoveryEnd + 1).(inRetransmit := false, recoveryEnd := 0)
  }

  /** In retransmission a packet that starts at the expected number goes straight to delivery. */
  lemma ExpectedPacket(stream: seq<Message>, s: State, p: Range, env: Env)
    requires Sound(stream, s) && Modes(s) && s.inRetransmit && s.dropPackets == 0
    requires IsSlice(stream, p) && p.seqNum == s.seqNo
    ensures Udp(stream, s, p, env) == InSync(stream, s, p, env)
  {
    assert AtFirstMessage(s, p) == s;
  }

  lemma RefillPart(stream: seq<Message>, s: State, p: Range, env: Env)
    requires Sound(stream, s) && s.inRetransmit
    requires IsSlice(stream, p) && p.seqNum == s.seqNo && p.next <= s.recoveryEnd
    ensures InSync(stream, s, p, env) == Deliver(stream, s, p.next)
  {
    if p.next == p.seqNum {
      assert s.delivered + stream[p.seqNum - 1..p.seqNum - 1] == s.delivered;
    }
  }

  lemma RefillLast(stream: seq<Message>, s: State, p: Range, env: Env)
    requires Sound(stream, s) && s.inRetransmit
    requires IsSlice(stream, p) && p.seqNum == s.seqNo && p.seqNum < p.next == s.recoveryEnd + 1
    ensures InSync(stream, s, p, env) == Drained(stream, Filled(stream, s), env.requestOk)
  {
    hide Drained;
  }

  lemma FilledStep(stream: seq<Message>, s: State, n: nat)
    requires 1 <= s.seqNo <= n <= s.recoveryEnd <= |stream|
    ensures Filled(stream, Deliver(stream, s, n)) == Filled(stream, s)
  {
    assert stream[s.seqNo - 1..s.recoveryEnd] == stream[s.seqNo - 1..n - 1] + stream[n - 1..s.recoveryEnd];
  }

  /** A retransmission that carries the gap in consecutive packets closes it: the missing messages are
      delivered, and the queue is drained up to the next gap. */
  lemma {:induction false} GapIsRefilled(stream: seq<Message>, s: State, es: seq<Event>)
    requires Sound(stream, s) && Modes(s) && s.inRetransmit && s.dropPackets == 0
    requires s.recoveryEnd <= |stream|
    requires Chain(stream, es, s.seqNo, s.recoveryEnd + 1)
    ensures Admissible(stream, s, es, false)
    ensures Run(stream, s, es, false) == Drained(stream, Filled(stream, s), es[|es| - 1].env.requestOk)
    decreases |es|
  {
    hide Drained, Filled;
    var e := es[0];
    ExpectedPacket(stream, s, e.p, e.env);
    var t := Step(stream, s, e);
    if |es| == 1 {
      RefillLast(stream, s, e.p, e.env);
      assert es[1..] == [];
    } else {
      RefillPart(stream, s, e.p, e.env);
      ModesStep(stream, s, e);
      FilledStep(stream, s, e.p.next);
      GapIsRefilled(stream, t, es[1..]);
    }
  }
}
