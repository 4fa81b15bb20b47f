/** What every run of a client channel keeps: its modes, and delivery of the stream exactly once and in order. */
module RecoveryLaws {
  import opened Mold
  import opened Ranges
  import opened Recovery

  // ----- Modes -----

  /** Refresh and retransmit exclude each other, refresh once left was rejected, and a retransmission
      in progress fills a gap that ends just before a queued packet. */
  predicate Modes(s: State) {
    && !(s.inRefresh && s.inRetransmit)
    && (!s.inRefresh ==> s.refreshRejected)
    && (s.inRetransmit ==> s.recoverySeqno <= s.seqNo <= s.recoveryEnd && StartsAt(s.queue, s.recoveryEnd + 1))
  }

  lemma StartsAtQueued(q: seq<Range>, p: Range, n: nat)
    requires StartsAt(q, n) || p.seqNum == n
    ensures StartsAt(q + [p], n)
  {
    if StartsAt(q, n) {
      var i :| 0 <= i < |q| && q[i].seqNum == n;
      assert (q + [p])[i].seqNum == n;
    } else {
      assert (q + [p])[|q|].seqNum == n;
    }
  }

  lemma AskNextModes(s: State, ok: bool)
    requires !s.inRefresh && s.refreshRejected
    requires forall i :: 0 <= i < |s.queue| ==> s.queue[i].seqNum > s.seqNo
    ensures Kept(s, AskNext(s, ok)) && !AskNext(s, ok).inRefresh
  {
    if s.queue != [] && ok {
      LeastSeqIsLeast(s.queue);
    }
  }

  lemma DrainedModes(stream: seq<Message>, s: State, ok: bool)
    requires Sound(stream, s) && s.refreshRejected
    ensures Kept(s, Drained(stream, s, ok)) && !Drained(stream, s, ok).inRefresh
  {
    var t := Emptied(stream, s);
    AboveMembers(s.queue, t.seqNo);
    AskNextModes(t, ok);
  }

  /** Consistent modes after `s`; leaving refresh and giving up on the snapshot are permanent. */
  predicate Kept(s: State, r: State) {
    && Modes(r)
    && (!s.inRefresh ==> !r.inRefresh)
    && (s.refreshRejected ==> r.refreshRejected)
  }

  lemma RejectModes(stream: seq<Message>, s: State, env: Env)
    requires Sound(stream, s)
    ensures Kept(s, Reject(stream, s, env))
  {
    DrainedModes(stream, Logout(s, env.logoutOk).(inRefresh := false, refreshRejected := true), env.requestOk);
  }

  lemma TryConnectModes(stream: seq<Message>, s: State, env: Env)
    requires Sound(stream, s) && Modes(s)
    ensures Kept(s, TryConnect(stream, s, env))
  {
    if !s.refreshRejected {
      RejectModes(stream, Connect(s, env.connectOk), env);
    }
  }

  lemma LiveModes(stream: seq<Message>, s: State, p: Range, env: Env)
    requires Sound(stream, s) && IsSlice(stream, p) && p.seqNum >= s.seqNo
    requires Modes(s) && !s.inRefresh && (s.inRetransmit ==> p.seqNum == s.seqNo)
    ensures Kept(s, Live(stream, s, p, env))
  {
    if p.seqNum > s.seqNo {
      StartsAtQueued(s.queue, p, p.seqNum);
    } else if p.next != p.seqNum {
      var t := Deliver(stream, s, p.next);
      DrainedModes(stream, t.(inRetransmit := false, recoveryEnd := 0), env.requestOk);
    }
  }

  lemma RefreshingModes(stream: seq<Message>, s: State, p: Range, env: Env)
    requires Sound(stream, s) && IsSlice(stream, p)
    requires s.inRefresh
    ensures Kept(s, Refreshing(stream, s, p, env))
  {
    RejectModes(stream, Queued(s.(inRetransmit := false), p), env);
  }

  lemma EarlyModes(s: State, p: Range, env: Env)
    requires Modes(s) && s.inRetransmit
    ensures Kept(s, Early(s, p, env))
  {
    StartsAtQueued(s.queue, p, s.recoveryEnd + 1);
  }

  lemma ByModeModes(stream: seq<Message>, s: State, p: Range, env: Env)
    requires Sound(stream, s) && IsSlice(stream, p) && p.seqNum >= s.seqNo && Modes(s)
    ensures Kept(s, ByMode(stream, s, p, env))
  {
    if s.inRefresh {
      RefreshingModes(stream, s, p, env);
    } else if s.inRetransmit && p.seqNum > s.seqNo {
      EarlyModes(s, p, env);
    } else {
      LiveModes(stream, GaveUp(s, p), p, env);
    }
  }

  lemma UdpModes(stream: seq<Message>, s: State, p: Range, env: Env)
    requires Sound(stream, s) && Arrives(stream, p) && Modes(s)
    ensures Kept(s, Udp(stream, s, p, env))
  {
    if p.seqNum >= 1 && s.dropPackets == 0 && p.seqNum >= s.seqNo {
      if s.seqNo == 1 && p.seqNum > 1 && s.inRefresh && s.timeout == 0 {
        TryConnectModes(stream, Queued(s, p), env);
      } else {
        ByModeModes(stream, AtFirstMessage(s, p), p, env);
      }
    }
  }

  /** One event keeps the modes consistent. */
  lemma ModesStep(stream: seq<Message>, s: State, e: Event)
    requires Sound(stream, s) && Possible(stream, s, e) && Modes(s)
    ensures Kept(s, Step(stream, s, e))
  {
    hide Udp, Reject, TryConnect, Drained;
    match e
    case Datagram(p, env) => UdpModes(stream, s, p, env);
    case LoginAccepted(_, _) =>
    case LoginRejected(env) => RejectModes(stream, s.(snapshotOn := true), env);
    case SnapshotData(_) =>
    case SnapshotEnd(n, env) =>
      DrainedModes(stream, AtMarker(s, n, env.logoutOk), env.requestOk);
    case OtherFrame =>
    case NoData(env) => RejectModes(stream, s, env);
    case Disconnected(env) => TryConnectModes(stream, s.(socketOpen := false), env);
    case DropNext(_) =>
  }

  // ----- Requests -----

  /** In retransmission the last request sent names a number the channel has not gone back behind and asks
      for everything from there to the end of the gap, as far as 16 bits can say. */
  predicate Asked(s: State) {
    s.inRetransmit ==>
      && s.requests != []
      && var q := LastRequest(s);
         s.recoverySeqno <= q.from <= s.seqNo && q.amount == (s.recoveryEnd + 1 - q.from) % 0x1_0000
  }

  function LastRequest(s: State): Request
    requires s.requests != []
  {
    s.requests[|s.requests| - 1]
  }

  lemma AskNextAsked(s: State, ok: bool)
    requires forall i :: 0 <= i < |s.queue| ==> s.queue[i].seqNum > s.seqNo
    ensures Asked(AskNext(s, ok))
  {
    if s.queue != [] && ok {
      LeastSeqIsLeast(s.queue);
    }
  }

  lemma DrainedAsked(stream: seq<Message>, s: State, ok: bool)
    requires Sound(stream, s)
    ensures Asked(Drained(stream, s, ok))
  {
    hide AskNext, FirstUncovered;
    var t := Emptied(stream, s);
    AboveMembers(s.queue, t.seqNo);
    AskNextAsked(t, ok);
  }

  lemma RejectAsked(stream: seq<Message>, s: State, env: Env)
    requires Sound(stream, s)
    ensures Asked(Reject(stream, s, env))
  {
    hide Drained;
    DrainedAsked(stream, Logout(s, env.logoutOk).(inRefresh := false, refreshRejected := true), env.requestOk);
  }

  lemma TryConnectAsked(stream: seq<Message>, s: State, env: Env)
    requires Sound(stream, s) && Asked(s)
    ensures Asked(TryConnect(stream, s, env))
  {
    hide Reject;
    if !s.refreshRejected {
      RejectAsked(stream, Connect(s, env.connectOk), env);
    }
  }

  lemma LiveAsked(stream: seq<Message>, s: State, p: Range, env: Env)
    requires Sound(stream, s) && IsSlice(stream, p) && p.seqNum >= s.seqNo && Asked(s)
    ensures Asked(Live(stream, s, p, env))
  {
    hide Drained;
    if p.seqNum == s.seqNo && p.next != p.seqNum {
      var t := Deliver(stream, s, p.next);
      DrainedAsked(stream, t.(inRetransmit := false, recoveryEnd := 0), env.requestOk);
    }
  }

  lemma ByModeAsked(stream: seq<Message>, s: State, p: Range, env: Env)
    requires Sound(stream, s) && IsSlice(stream, p) && p.seqNum >= s.seqNo && Modes(s) && Asked(s)
    ensures Asked(ByMode(stream, s, p, env))
  {
    hide Reject, Live;
    if s.inRefresh {
      RejectAsked(stream, Queued(s.(inRetransmit := false), p), env);
    } else if !(s.inRetransmit && p.seqNum > s.seqNo) {
      LiveAsked(stream, GaveUp(s, p), p, env);
    }
  }

  lemma UdpAsked(stream: seq<Message>, s: State, p: Range, env: Env)
    requires Sound(stream, s) && Arrives(stream, p) && Modes(s) && Asked(s)
    ensures Asked(Udp(stream, s, p, env))
  {
    hide TryConnect, ByMode;
    if p.seqNum >= 1 && s.dropPackets == 0 && p.seqNum >= s.seqNo {
      if s.seqNo == 1 && p.seqNum > 1 && s.inRefresh && s.timeout == 0 {
        TryConnectAsked(stream, Queued(s, p), env);
      } else {
        ByModeAsked(stream, AtFirstMessage(s, p), p, env);
      }
    }
  }

  lemma AskedStep(stream: seq<Message>, s: State, e: Event)
    requires Sound(stream, s) && Possible(stream, s, e) && Modes(s) && Asked(s)
    ensures Asked(Step(stream, s, e))
  {
    hide Udp, Reject, TryConnect, Drained;
    match e
    case Datagram(p, env) => UdpAsked(stream, s, p, env);
    case LoginRejected(env) => RejectAsked(stream, s.(snapshotOn := true), env);
    case SnapshotEnd(n, env) => DrainedAsked(stream, AtMarker(s, n, env.logoutOk), env.requestOk);
    case NoData(env) => RejectAsked(stream, s, env);
    case Disconnected(env) => TryConnectAsked(stream, s.(socketOpen := false), env);
    case _ =>
  }

  /** Over every run, a channel that waits for a gap has asked for it. */
  lemma {:induction false} RunAsked(stream: seq<Message>, s: State, es: seq<Event>)
    requires Sound(stream, s) && Modes(s) && Asked(s) && Admissible(stream, s, es, false)
    ensures Asked(Run(stream, s, es, false))
    decreases |es|
  {
    if es != [] {
      ModesStep(stream, s, es[0]);
      AskedStep(stream, s, es[0]);
      RunAsked(stream, Step(stream, s, es[0]), es[1..]);
    }
  }

  // ----- Exactly once -----

  /** The messages handed on are those just below `seqNo`, without repeat or hole; in refresh mode they
      are the whole stream so far and were all counted as snapshot messages. */
  predicate Exact(stream: seq<Message>, s: State) {
    && EndsAt(stream, s.delivered, s.seqNo)
    && (s.inRefresh ==> |s.delivered| == s.seqNo - 1 == s.received)
    && (s.inRefresh && !s.accepted ==> s.seqNo == 1)
  }

  /** `log` is a slice of the stream, the last message of which is number `n - 1`. */
  predicate EndsAt(stream: seq<Message>, log: seq<Message>, n: nat) {
    |log| < n <= |stream| + 1 && forall i :: 0 <= i < |log| ==> log[i] == stream[n - 1 - |log| + i]
  }

  /** `t` has handed on everything `s` has, and started at the same message once anything was handed on. */
  predicate Continues(s: State, t: State) {
    && s.delivered <= t.delivered
    && (s.delivered != [] ==> t.seqNo - |t.delivered| == s.seqNo - |s.delivered|)
  }

  predicate Extends(stream: seq<Message>, s: State, t: State) {
    Exact(stream, t) && Continues(s, t)
  }

  lemma DeliverExact(stream: seq<Message>, s: State, n: nat)
    requires EndsAt(stream, s.delivered, s.seqNo) && s.seqNo <= n <= |stream| + 1
    ensures var t := Deliver(stream, s, n);
      EndsAt(stream, t.delivered, t.seqNo) && Continues(s, t)
  {
  }

  lemma DrainedExact(stream: seq<Message>, s: State, ok: bool)
    requires Sound(stream, s) && EndsAt(stream, s.delivered, s.seqNo)
    ensures Extends(stream, s, Drained(stream, s, ok))
  {
    FirstUncoveredIsAnEnd(s.queue, s.seqNo);
    DeliverExact(stream, s, FirstUncovered(s.queue, s.seqNo));
    AskNextKeeps(Emptied(stream, s), ok);
    hide AskNext, FirstUncovered, Above, EndsAt;
  }

  lemma AskNextKeeps(s: State, ok: bool)
    ensures var r := AskNext(s, ok); r.delivered == s.delivered && r.seqNo == s.seqNo && r.inRefresh == s.inRefresh
  {
  }

  lemma RejectExact(stream: seq<Message>, s: State, env: Env)
    requires Sound(stream, s) && EndsAt(stream, s.delivered, s.seqNo)
    ensures Extends(stream, s, Reject(stream, s, env))
  {
    DrainedExact(stream, Logout(s, env.logoutOk).(inRefresh := false, refreshRejected := true), env.requestOk);
  }

  lemma TryConnectExact(stream: seq<Message>, s: State, env: Env)
    requires Sound(stream, s) && Modes(s) && Exact(stream, s)
    ensures Extends(stream, s, TryConnect(stream, s, env))
  {
    if !s.refreshRejected {
      RejectExact(stream, Connect(s, env.connectOk), env);
    }
  }

  lemma LiveExact(stream: seq<Message>, s: State, p: Range, env: Env)
    requires Sound(stream, s) && IsSlice(stream, p) && p.seqNum >= s.seqNo
    requires Exact(stream, s) && !s.inRefresh
    ensures Extends(stream, s, Live(stream, s, p, env))
  {
    if p.seqNum == s.seqNo && p.next != p.seqNum {
      DeliverExact(stream, s, p.next);
      var t := Deliver(stream, s, p.next);
      DrainedExact(stream, t.(inRetransmit := false, recoveryEnd := 0), env.requestOk);
    }
  }

  lemma RefreshingExact(stream: seq<Message>, s: State, p: Range, env: Env)
    requires Sound(stream, s) && IsSlice(stream, p) && Exact(stream, s)
    ensures Extends(stream, s, Refreshing(stream, s, p, env))
  {
    RejectExact(stream, Queued(s.(inRetransmit := false), p), env);
  }

  lemma GaveUpExact(stream: seq<Message>, s: State, p: Range, env: Env)
    requires Sound(stream, s) && IsSlice(stream, p) && p.seqNum >= s.seqNo
    requires Exact(stream, s) && !s.inRefresh
    ensures var r := Live(stream, GaveUp(s, p), p, env); Extends(stream, s, r)
  {
    var t := GaveUp(s, p);
    assert Exact(stream, t) && Continues(s, t);
    LiveExact(stream, t, p, env);
  }

  lemma ByModeExact(stream: seq<Message>, s: State, p: Range, env: Env)
    requires Sound(stream, s) && IsSlice(stream, p) && p.seqNum >= s.seqNo && Exact(stream, s)
    ensures Extends(stream, s, ByMode(stream, s, p, env))
  {
    if s.inRefresh {
      RefreshingExact(stream, s, p, env);
    } else if !(s.inRetransmit && p.seqNum > s.seqNo) {
      GaveUpExact(stream, s, p, env);
    }
  }

  lemma UdpExact(stream: seq<Message>, s: State, p: Range, env: Env)
    requires Sound(stream, s) && Arrives(stream, p) && Modes(s) && Exact(stream, s)
    ensures Extends(stream, s, Udp(stream, s, p, env))
  {
    if p.seqNum >= 1 && s.dropPackets == 0 && p.seqNum >= s.seqNo {
      if s.seqNo == 1 && p.seqNum > 1 && s.inRefresh && s.timeout == 0 {
        TryConnectExact(stream, Queued(s, p), env);
      } else {
        ByModeExact(stream, AtFirstMessage(s, p), p, env);
      }
    }
  }

  lemma SnapshotMessageExact(stream: seq<Message>, s: State, m: Message)
    requires Sound(stream, s) && Exact(stream, s) && s.inRefresh && s.accepted
    requires s.received < |stream| && m == stream[s.received]
    ensures Extends(stream, s, SnapshotMessage(s, m))
  {
  }

  lemma TickExact(stream: seq<Message>, s: State, env: Env)
    requires Sound(stream, s) && Modes(s) && Exact(stream, s)
    ensures Extends(stream, s, Tick(stream, s, env))
  {
    RejectExact(stream, s, env);
  }

  lemma MarkerExact(stream: seq<Message>, s: State, env: Env)
    requires Sound(stream, s) && Exact(stream, s)
    ensures Extends(stream, s, EndOfSnapshot(stream, s, s.seqNo, env))
  {
    DrainedExact(stream, AtMarker(s, s.seqNo, env.logoutOk), env.requestOk);
  }

  lemma SnapshotFrameExact(stream: seq<Message>, s: State, e: Event)
    requires Sound(stream, s) && Possible(stream, s, e) && Faithful(stream, s, e) && Exact(stream, s)
    requires e.LoginAccepted? || e.LoginRejected? || e.SnapshotData? || e.SnapshotEnd?
    ensures Extends(stream, s, Step(stream, s, e))
  {
    match e
    case LoginAccepted(_, _) =>
    case LoginRejected(env) => RejectExact(stream, s.(snapshotOn := true), env);
    case SnapshotData(m) => SnapshotMessageExact(stream, s, m);
    case SnapshotEnd(n, env) => MarkerExact(stream, s, env);
  }

  /** One faithful event keeps delivery exact and only ever extends what was delivered. */
  lemma ExactStep(stream: seq<Message>, s: State, e: Event)
    requires Sound(stream, s) && Possible(stream, s, e) && Faithful(stream, s, e)
    requires Modes(s) && Exact(stream, s)
    ensures Extends(stream, s, Step(stream, s, e))
  {
    match e
    case Datagram(p, env) => UdpExact(stream, s, p, env);
    case OtherFrame =>
    case NoData(env) => TickExact(stream, s, env);
    case Disconnected(env) => TryConnectExact(stream, s.(socketOpen := false), env);
    case DropNext(_) =>
    case _ => SnapshotFrameExact(stream, s, e);
  }

  // ----- Whole runs -----

  /** Over every run, whatever the snapshot server sends, the modes stay consistent and refresh is never re-entered. */
  lemma {:induction false} RunModes(stream: seq<Message>, s: State, es: seq<Event>)
    requires Sound(stream, s) && Modes(s) && Admissible(stream, s, es, false)
    ensures var r := Run(stream, s, es, false);
      && Modes(r)
      && (!s.inRefresh ==> !r.inRefresh)
      && (s.refreshRejected ==> r.refreshRejected)
    decreases |es|
  {
    if es != [] {
      ModesStep(stream, s, es[0]);
      RunModes(stream, Step(stream, s, es[0]), es[1..]);
    }
  }

  lemma {:induction false} RunExact(stream: seq<Message>, s: State, es: seq<Event>)
    requires Sound(stream, s) && Modes(s) && Exact(stream, s) && Admissible(stream, s, es, true)
    ensures var r := Run(stream, s, es, true); Modes(r) && Exact(stream, r) && Continues(s, r)
    decreases |es|
  {
    if es != [] {
      ModesStep(stream, s, es[0]);
      ExactStep(stream, s, es[0]);
      RunExact(stream, Step(stream, s, es[0]), es[1..]);
    }
  }

  /** Exactly-once, in-order delivery: whatever is lost, repeated, reordered or sent again, what a new
      channel hands on is one contiguous slice of the stream ending at `seqNo`. */
  lemma ExactlyOnce(stream: seq<Message>, es: seq<Event>)
    requires Admissible(stream, Initial(), es, true)
    ensures var r := Run(stream, Initial(), es, true);
      && |r.delivered| < r.seqNo
      && r.delivered == stream[r.seqNo - 1 - |r.delivered|..r.seqNo - 1]
      && Modes(r)
  {
    RunExact(stream, Initial(), es);
  }
}
