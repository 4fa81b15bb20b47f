/** Event by event, what becomes of a channel: said of its fields alone, and over runs of the packets that
    came in.  Nothing here leans on how the state machine is put together. */
module ChannelEvents {
  import opened Mold
  import opened Ranges
  import opened Recovery
  import opened RecoveryLaws
  import opened RecoveryTheorems

  // ----- Packets -----

  /** Packets numbered 0, packets thrown away on request, and packets that begin with something seen. */
  lemma PacketIgnored(stream: seq<Message>, s: State, p: Range, env: Env)
    requires Sound(stream, s) && Arrives(stream, p)
    ensures var r := Step(stream, s, Datagram(p, env));
      && (p.seqNum == 0 ==> r == s)
      && (p.seqNum > 0 && s.dropPackets > 0 ==> r == s.(dropPackets := s.dropPackets - 1))
      && (p.seqNum < s.seqNo && s.dropPackets == 0 ==> r == s)
  {
  }

  /** The packet is looked at. */
  predicate Counts(s: State, p: Range) {
    p.seqNum >= 1 && s.dropPackets == 0 && p.seqNum >= s.seqNo
  }

  /** In refresh, with the time not up, a packet waits behind those that came before; it changes nothing else,
      but the first packet of the day rules out any further snapshot. */
  lemma PacketWaitsInRefresh(stream: seq<Message>, s: State, p: Range, env: Env)
    requires Sound(stream, s) && Arrives(stream, p) && Modes(s)
    requires s.inRefresh && Counts(s, p) && env.now <= s.timeout && s.timeout > 0
    requires s.seqNo == 1 && p.seqNum == 1 ==> s.socketOpen
    ensures Step(stream, s, Datagram(p, env)) ==
      s.(queue := s.queue + [p], refreshRejected := s.refreshRejected || (s.seqNo == 1 && p.seqNum == 1))
  {
  }

  /** A day that starts in the middle of the stream, the snapshot given up, starts at the first packet. */
  lemma DayStartsMidStream(stream: seq<Message>, s: State, p: Range, env: Env)
    requires Sound(stream, s) && Arrives(stream, p) && Modes(s)
    requires !s.inRefresh && !s.inRetransmit && s.seqNo == 1 && Counts(s, p)
    ensures Step(stream, s, Datagram(p, env)) ==
      s.(seqNo := p.next, delivered := s.delivered + stream[p.seqNum - 1..p.next - 1])
  {
    if p.next == p.seqNum {
      assert s.delivered + stream[p.seqNum - 1..p.next - 1] == s.delivered;
    }
  }

  /** A gap: the packet is kept if the gap could be asked for. */
  lemma GapOpens(stream: seq<Message>, s: State, p: Range, env: Env)
    requires Sound(stream, s) && Arrives(stream, p) && Modes(s)
    requires !s.inRefresh && !s.inRetransmit && s.seqNo > 1 && s.dropPackets == 0 && p.seqNum > s.seqNo
    ensures Step(stream, s, Datagram(p, env)) ==
      if env.requestOk
      then s.(inRetransmit := true, recoverySeqno := s.seqNo, recoveryEnd := p.seqNum - 1, queue := s.queue + [p],
              requests := s.requests + [Request(s.seqNo, (p.seqNum - s.seqNo) % 0x1_0000)])
      else s
  {
  }

  /** In sync: handed on, and nothing else. */
  lemma PacketInSync(stream: seq<Message>, s: State, p: Range, env: Env)
    requires Sound(stream, s) && Arrives(stream, p) && Modes(s)
    requires !s.inRefresh && !s.inRetransmit && s.seqNo > 1 && s.dropPackets == 0 && p.seqNum == s.seqNo
    ensures Step(stream, s, Datagram(p, env)) ==
      s.(seqNo := p.next, delivered := s.delivered + stream[p.seqNum - 1..p.next - 1])
  {
    if p.next == p.seqNum {
      assert s.delivered + stream[p.seqNum - 1..p.next - 1] == s.delivered;
    }
  }

  // ----- The snapshot session -----

  /** The connection is lost, or not there yet: one attempt to connect and log in.  More than five packets
      waiting and no connection is the end of it, which `LeavingRefresh` describes. */
  lemma Connecting(stream: seq<Message>, s: State, env: Env)
    requires Sound(stream, s) && (s.refreshRejected || env.connectOk || |s.queue| <= 5)
    ensures Step(stream, s, Disconnected(env)) ==
      if s.refreshRejected then s.(socketOpen := false)
      else if !env.connectOk then s.(socketOpen := false, snapshotOn := false)
      else if !env.loginOk then s.(socketOpen := true, snapshotOn := false)
      else s.(socketOpen := true, snapshotOn := true, inRefresh := true, timeout := env.now + 10_000)
  {
  }

  /** The first packet on a channel that never logged in waits, and sets off the same attempt. */
  lemma FirstPacketConnects(stream: seq<Message>, s: State, p: Range, env: Env)
    requires Sound(stream, s) && Arrives(stream, p) && s.inRefresh && s.seqNo == 1 && s.timeout == 0
    requires s.dropPackets == 0 && p.seqNum > 1
    requires s.refreshRejected || s.socketOpen || env.connectOk || |s.queue| < 5
    ensures Step(stream, s, Datagram(p, env)) ==
      var t := s.(queue := s.queue + [p]);
      if s.refreshRejected then t
      else if s.socketOpen then
        if s.snapshotOn || env.loginOk then t.(snapshotOn := true, timeout := env.now + 10_000) else t
      else if !env.connectOk then t.(snapshotOn := false)
      else if !env.loginOk then t.(socketOpen := true, snapshotOn := false)
      else t.(socketOpen := true, snapshotOn := true, timeout := env.now + 10_000)
  {
  }

  /** An idle turn, the time not up: a login is sent on a connection that has none. */
  lemma IdleTurn(stream: seq<Message>, s: State, env: Env)
    requires Sound(stream, s) && !(s.inRefresh && 0 < s.timeout < env.now)
    ensures Step(stream, s, NoData(env)) ==
      if s.socketOpen && !s.snapshotOn && !s.refreshRejected && env.loginOk
      then s.(snapshotOn := true, inRefresh := true)
      else s
  {
  }

  /** Accept, snapshot message, other frame, and packets to be thrown away. */
  lemma SnapshotFrames(stream: seq<Message>, s: State, seqno: nat, m: Message, now: nat, count: nat)
    requires Sound(stream, s) && s.inRefresh && 1 <= seqno <= |stream| + 1 && s.seqNo <= |stream|
    ensures Step(stream, s, LoginAccepted(seqno, now)) ==
      s.(snapshotOn := true, accepted := true, seqNo := seqno, timeout := now + 3_000)
    ensures Step(stream, s, SnapshotData(m)) ==
      if s.received + 1 < s.seqNo then s.(snapshotOn := true, received := s.received + 1)
      else s.(snapshotOn := true, received := s.received + 1, seqNo := s.seqNo + 1, delivered := s.delivered + [m])
    ensures Step(stream, s, OtherFrame) == s.(snapshotOn := true)
    ensures Step(stream, s, DropNext(count)) == s.(dropPackets := count)
  {
  }

  // ----- Leaving refresh -----

  /** When refresh is left: at the end marker and on a rejected login always; when the time is up; when there is
      no connection and more than five packets wait; and at the first packet of the day without a connection. */
  predicate Leaves(s: State, e: Event) {
    match e
    case Datagram(p, env) =>
      && Counts(s, p)
      && if s.seqNo == 1 && p.seqNum > 1 && s.timeout == 0
         then !s.refreshRejected && !s.socketOpen && !env.connectOk && |s.queue| >= 5
         else s.timeout < env.now || (s.seqNo == 1 && p.seqNum == 1 && !s.socketOpen)
    case NoData(env) => 0 < s.timeout < env.now
    case Disconnected(env) => !s.refreshRejected && !env.connectOk && |s.queue| > 5
    case LoginRejected(_) => true
    case SnapshotEnd(_, _) => true
    case _ => false
  }

  /** `r` follows `s` by handing on everything packets `all` carry from number `from` on, up to the first number
      that none of them covers; those that begin beyond it are still queued, in order. */
  predicate HandsOnFrom(stream: seq<Message>, s: State, r: State, all: seq<Range>, from: nat) {
    && 1 <= from <= r.seqNo <= |stream| + 1
    && !Covered(all, r.seqNo) && (forall k :: from <= k < r.seqNo ==> Covered(all, k))
    && r.delivered == s.delivered + stream[from - 1..r.seqNo - 1]
    && r.queue == Above(all, r.seqNo)
    && !r.inRefresh && r.refreshRejected
  }

  lemma DrainHandsOn(stream: seq<Message>, s: State, ok: bool)
    requires Sound(stream, s) && s.refreshRejected
    ensures HandsOnFrom(stream, s, Drained(stream, s, ok), s.queue, s.seqNo)
  {
    DrainIsMaximal(stream, s, ok);
    DrainedModes(stream, s, ok);
    DrainKeepsAbove(stream, s, ok);
  }

  lemma DrainKeepsAbove(stream: seq<Message>, s: State, ok: bool)
    requires Sound(stream, s)
    ensures Drained(stream, s, ok).queue == Above(s.queue, Drained(stream, s, ok).seqNo)
  {
  }

  lemma RejectHandsOn(stream: seq<Message>, s: State, env: Env)
    requires Sound(stream, s)
    ensures HandsOnFrom(stream, s, Reject(stream, s, env), s.queue, s.seqNo)
  {
    hide Drained, Covered, Above;
    var t := Logout(s, env.logoutOk).(inRefresh := false, refreshRejected := true);
    DrainHandsOn(stream, t, env.requestOk);
  }

  /** What an event brings. */
  function Arrived(s: State, e: Event): seq<Range> {
    if e.Datagram? && Counts(s, e.p) then [e.p] else []
  }

  /** The first packet of the day, without a snapshot connection. */
  predicate StartsDay(s: State, e: Event) {
    e.Datagram? && s.seqNo == 1 && e.p.seqNum == 1 && !s.socketOpen
  }

  /** Where delivery goes on. */
  function GoesOnAt(s: State, e: Event): nat {
    if e.SnapshotEnd? then (if e.n > 0 then e.n else 1) else s.seqNo
  }

  /** One event in refresh: as long as it lasts the queue holds what came before and what has come now, and
      when it is left everything from there on is handed on or still queued. */
  predicate WaitsOrHandsOn(stream: seq<Message>, s: State, e: Event, r: State) {
    var all := s.queue + Arrived(s, e);
    if !Leaves(s, e) then r.inRefresh && r.queue == all
    else if StartsDay(s, e) then !r.inRefresh && r.queue == s.queue && r.seqNo == e.p.next
    else HandsOnFrom(stream, s, r, all, GoesOnAt(s, e))
  }

  lemma QueuedIsSound(stream: seq<Message>, s: State, p: Range)
    requires Sound(stream, s) && IsSlice(stream, p)
    ensures Sound(stream, Queued(s, p))
  {
  }

  lemma RefreshingEvent(stream: seq<Message>, s: State, p: Range, env: Env)
    requires Sound(stream, s) && IsSlice(stream, p) && s.inRefresh
    ensures var r := Refreshing(stream, s, p, env);
      if env.now <= s.timeout then r.inRefresh && r.queue == s.queue + [p]
      else HandsOnFrom(stream, s, r, s.queue + [p], s.seqNo)
  {
    hide Reject, HandsOnFrom, Sound;
    var t := s.(inRetransmit := false, queue := s.queue + [p]);
    QueuedIsSound(stream, s, p);
    SoundIgnoresModes(stream, Queued(s, p), t);
    RejectHandsOn(stream, t, env);
    SameHandsOn(stream, t, s, Reject(stream, t, env), t.queue, s.seqNo);
  }

  lemma SoundIgnoresModes(stream: seq<Message>, s: State, t: State)
    requires Sound(stream, s) && t.queue == s.queue && t.seqNo == s.seqNo
    ensures Sound(stream, t)
  {
  }

  lemma SameHandsOn(stream: seq<Message>, s: State, t: State, r: State, all: seq<Range>, from: nat)
    requires HandsOnFrom(stream, s, r, all, from) && s.delivered == t.delivered
    ensures HandsOnFrom(stream, t, r, all, from)
  {
  }

  lemma TryConnectEvent(stream: seq<Message>, s: State, env: Env)
    requires Sound(stream, s) && s.inRefresh
    ensures var r := TryConnect(stream, s, env);
      if !s.refreshRejected && !s.socketOpen && !env.connectOk && |s.queue| > 5
      then HandsOnFrom(stream, s, r, s.queue, s.seqNo)
      else r.inRefresh && r.queue == s.queue
  {
    hide Reject, HandsOnFrom;
    if !s.refreshRejected && !s.socketOpen && !env.connectOk && |s.queue| > 5 {
      var t := s.(snapshotOn := false);
      RejectHandsOn(stream, t, env);
      SameHandsOn(stream, t, s, Reject(stream, t, env), s.queue, s.seqNo);
    }
  }

  lemma DatagramEvent(stream: seq<Message>, s: State, p: Range, env: Env)
    requires Sound(stream, s) && Arrives(stream, p) && Modes(s) && s.inRefresh
    ensures WaitsOrHandsOn(stream, s, Datagram(p, env), Udp(stream, s, p, env))
  {
    var e := Datagram(p, env);
    if !Counts(s, p) {
      assert s.queue + [] == s.queue;
    } else if s.seqNo == 1 && p.seqNum > 1 && s.timeout == 0 {
      hide TryConnect, HandsOnFrom;
      TryConnectEvent(stream, Queued(s, p), env);
      var r := TryConnect(stream, Queued(s, p), env);
      if Leaves(s, e) {
        SameHandsOn(stream, Queued(s, p), s, r, s.queue + [p], s.seqNo);
      }
    } else if StartsDay(s, e) {
      assert s.delivered + stream[0..0] == s.delivered;
    } else {
      hide Refreshing, HandsOnFrom;
      var t := AtFirstMessage(s, p);
      RefreshingEvent(stream, t, p, env);
      if env.now > s.timeout {
        SameHandsOn(stream, t, s, Refreshing(stream, t, p, env), s.queue + [p], s.seqNo);
      }
    }
  }

  /** Refresh, event by event: nothing that came in is lost, and it is left exactly when `Leaves` says. */
  lemma RefreshEvent(stream: seq<Message>, s: State, e: Event)
    requires Sound(stream, s) && Possible(stream, s, e) && Modes(s) && s.inRefresh
    ensures WaitsOrHandsOn(stream, s, e, Step(stream, s, e))
  {
    hide Udp, Reject, TryConnect, Drained, HandsOnFrom;
    assert s.queue + [] == s.queue;
    match e
    case Datagram(p, env) => DatagramEvent(stream, s, p, env);
    case LoginRejected(env) =>
      var t := s.(snapshotOn := true);
      RejectHandsOn(stream, t, env);
      SameHandsOn(stream, t, s, Reject(stream, t, env), s.queue, s.seqNo);
    case SnapshotEnd(n, env) =>
      var t := AtMarker(s, n, env.logoutOk);
      DrainHandsOn(stream, t, env.requestOk);
      SameHandsOn(stream, t, s, Drained(stream, t, env.requestOk), s.queue, GoesOnAt(s, e));
    case NoData(env) =>
      RejectHandsOn(stream, s, env);
    case Disconnected(env) => TryConnectEvent(stream, s.(socketOpen := false), env);
      if Leaves(s, e) {
        var t := s.(socketOpen := false);
        SameHandsOn(stream, t, s, TryConnect(stream, t, env), s.queue, s.seqNo);
      }
    case _ =>
  }

  lemma LeavesRefreshExactlyWhen(stream: seq<Message>, s: State, e: Event)
    requires Sound(stream, s) && Possible(stream, s, e) && Modes(s) && s.inRefresh
    ensures !Step(stream, s, e).inRefresh <==> Leaves(s, e)
  {
    hide Step, Leaves, StartsDay;
    RefreshEvent(stream, s, e);
  }

  lemma DrainedSession(stream: seq<Message>, s: State, ok: bool)
    requires Sound(stream, s)
    ensures var r := Drained(stream, s, ok);
      r.snapshotOn == s.snapshotOn && r.socketOpen == s.socketOpen && r.timeout == s.timeout && r.received == s.received
  {
    hide FirstUncovered, Above;
  }

  /** The session when the server's frame, or the time, ends refresh: logged out if that can be sent. */
  lemma LogoutOnLeaving(stream: seq<Message>, s: State, e: Event)
    requires Sound(stream, s) && Possible(stream, s, e) && s.inRefresh
    requires e.LoginRejected? || e.SnapshotEnd? || (e.NoData? && 0 < s.timeout < e.env.now)
    ensures var r := Step(stream, s, e);
      && r.snapshotOn == ((s.snapshotOn || !e.NoData?) && !(s.socketOpen && e.env.logoutOk))
      && r.socketOpen == s.socketOpen && r.timeout == s.timeout && r.received == s.received
  {
    hide Drained;
    var t := if e.NoData? then s else s.(snapshotOn := true);
    DrainedSession(stream, Logout(t, e.env.logoutOk).(inRefresh := false, refreshRejected := true), e.env.requestOk);
    if e.SnapshotEnd? {
      DrainedSession(stream, AtMarker(s, e.n, e.env.logoutOk), e.env.requestOk);
    }
  }

  /** The packet that fills the end of a gap: it is handed on, and then everything queued that goes on from it. */
  lemma GapCloses(stream: seq<Message>, s: State, p: Range, env: Env)
    requires Sound(stream, s) && Arrives(stream, p) && Modes(s) && s.inRetransmit && s.dropPackets == 0
    requires p.seqNum == s.seqNo && p.next > s.recoveryEnd
    ensures var r := Step(stream, s, Datagram(p, env));
      && HandsOnFrom(stream, s.(delivered := s.delivered + stream[p.seqNum - 1..p.next - 1]), r, s.queue, p.next)
      && (r.inRetransmit <==> r.queue != [] && env.requestOk)
      && (!r.inRetransmit ==> r.recoveryEnd == 0)
  {
    hide Drained, HandsOnFrom;
    ExpectedPacket(stream, s, p, env);
    var t := Deliver(stream, s, p.next).(inRetransmit := false, recoveryEnd := 0);
    DrainHandsOn(stream, t, env.requestOk);
    DrainAsksForNextGap(stream, t, env.requestOk);
    DrainKeepsAbove(stream, t, env.requestOk);
    SameHandsOn(stream, t, s.(delivered := t.delivered), Drained(stream, t, env.requestOk), s.queue, p.next);
  }

  // ----- Runs -----

  /** The packets that came in over a run, in order: numbered, not thrown away, not begun below what was then
      expected. */
  function Collected(stream: seq<Message>, s: State, es: seq<Event>): seq<Range>
    requires Sound(stream, s) && Admissible(stream, s, es, false)
    decreases |es|
  {
    if es == [] then [] else Arrived(s, es[0]) + Collected(stream, Step(stream, s, es[0]), es[1..])
  }

  /** As long as refresh lasts, every packet that came in waits, in order. */
  lemma {:induction false} RunWaits(stream: seq<Message>, s: State, es: seq<Event>)
    requires Sound(stream, s) && Modes(s) && Admissible(stream, s, es, false)
    requires s.inRefresh && Run(stream, s, es, false).inRefresh
    ensures Run(stream, s, es, false).queue == s.queue + Collected(stream, s, es)
    decreases |es|
  {
    hide Step, Modes, HandsOnFrom, Leaves, StartsDay;
    if es == [] {
      assert s.queue + [] == s.queue;
    } else {
      var t := Step(stream, s, es[0]);
      ModesStep(stream, s, es[0]);
      RunModes(stream, t, es[1..]);
      RefreshEvent(stream, s, es[0]);
      StillIn(stream, s, es[0], t);
      RunWaits(stream, t, es[1..]);
    }
  }

  lemma StillIn(stream: seq<Message>, s: State, e: Event, r: State)
    requires WaitsOrHandsOn(stream, s, e, r) && r.inRefresh
    ensures r.queue == s.queue + Arrived(s, e)
  {
    hide Leaves;
  }

  /** At the server's marker a new channel goes on with everything that came in during refresh: the number
      expected next is the first from the marker's on that none of those packets covers. */
  lemma MarkerCountsAllArrivals(stream: seq<Message>, es: seq<Event>, n: nat, env: Env)
    requires Admissible(stream, Initial(), es, false) && Run(stream, Initial(), es, false).inRefresh
    requires n <= |stream| + 1
    ensures var s := Run(stream, Initial(), es, false);
      HandsOnFrom(stream, s, Step(stream, s, SnapshotEnd(n, env)), Collected(stream, Initial(), es), if n > 0 then n else 1)
  {
    hide Step, HandsOnFrom;
    var s := Run(stream, Initial(), es, false);
    RunModes(stream, Initial(), es);
    RunWaits(stream, Initial(), es);
    assert [] + Collected(stream, Initial(), es) == Collected(stream, Initial(), es);
    RefreshEvent(stream, s, SnapshotEnd(n, env));
    assert s.queue + [] == s.queue;
  }

  /** And when the snapshot is given up, whichever way, none of those packets is lost, the one just come
      included. */
  lemma GivingUpLosesNothing(stream: seq<Message>, es: seq<Event>, e: Event)
    requires Admissible(stream, Initial(), es, false)
    requires var s := Run(stream, Initial(), es, false);
      s.inRefresh && Possible(stream, s, e) && Leaves(s, e) && !StartsDay(s, e) && !e.SnapshotEnd?
    ensures var s := Run(stream, Initial(), es, false);
      HandsOnFrom(stream, s, Step(stream, s, e), Collected(stream, Initial(), es) + Arrived(s, e), s.seqNo)
  {
    hide Step, HandsOnFrom, Leaves, StartsDay;
    var s := Run(stream, Initial(), es, false);
    RunModes(stream, Initial(), es);
    RunWaits(stream, Initial(), es);
    assert [] + Collected(stream, Initial(), es) == Collected(stream, Initial(), es);
    RefreshEvent(stream, s, e);
  }

  /** The snapshot carries messages 1 and 2, a packet with 3 and 4 came in meanwhile: all four are handed on. */
  lemma PacketKeptThroughSnapshot(stream: seq<Message>, env: Env)
    requires |stream| == 4 && env == Env(5, true, true, true, true)
    ensures var es := [Disconnected(env), LoginAccepted(1, 5), Datagram(Range(3, 5), env),
                       SnapshotData(stream[0]), SnapshotData(stream[1])];
      && Admissible(stream, Initial(), es, true) && Admissible(stream, Initial(), es, false)
      && var s := Run(stream, Initial(), es, false);
         && s.inRefresh && s.queue == [Range(3, 5)] && s.delivered == stream[..2]
         && var r := Step(stream, s, SnapshotEnd(3, env)); r.seqNo == 5 && r.delivered == stream
  {
    var e0, e1, e2 := Disconnected(env), LoginAccepted(1, 5), Datagram(Range(3, 5), env);
    var e3, e4 := SnapshotData(stream[0]), SnapshotData(stream[1]);
    var s1 := Initial().(socketOpen := true, snapshotOn := true, inRefresh := true, timeout := 10_005);
    var s2 := s1.(accepted := true, timeout := 3_005);
    var s3 := s2.(queue := [Range(3, 5)]);
    var s4 := s3.(received := 1, seqNo := 2, delivered := [stream[0]]);
    var s5 := s4.(received := 2, seqNo := 3, delivered := [stream[0], stream[1]]);
    Connecting(stream, Initial(), env);
    SnapshotFrames(stream, s1, 1, stream[0], 5, 0);
    PacketWaitsInRefresh(stream, s2, Range(3, 5), env);
    SnapshotFrames(stream, s3, 1, stream[0], 5, 0);
    SnapshotFrames(stream, s4, 1, stream[1], 5, 0);
    RunFive(stream, e0, e1, e2, e3, e4, s1, s2, s3, s4, s5);
    HandsOnThirdAndFourth(stream, s5, env);
  }

  lemma RunFive(stream: seq<Message>, e0: Event, e1: Event, e2: Event, e3: Event, e4: Event,
                s1: State, s2: State, s3: State, s4: State, s5: State)
    requires Sound(stream, Initial()) && Sound(stream, s1) && Sound(stream, s2) && Sound(stream, s3) && Sound(stream, s4)
    requires Possible(stream, Initial(), e0) && Faithful(stream, Initial(), e0) && Step(stream, Initial(), e0) == s1
    requires Possible(stream, s1, e1) && Faithful(stream, s1, e1) && Step(stream, s1, e1) == s2
    requires Possible(stream, s2, e2) && Faithful(stream, s2, e2) && Step(stream, s2, e2) == s3
    requires Possible(stream, s3, e3) && Faithful(stream, s3, e3) && Step(stream, s3, e3) == s4
    requires Possible(stream, s4, e4) && Faithful(stream, s4, e4) && Step(stream, s4, e4) == s5
    ensures var es := [e0, e1, e2, e3, e4];
      && Admissible(stream, Initial(), es, true) && Admissible(stream, Initial(), es, false)
      && Run(stream, Initial(), es, false) == s5
  {
    hide Step, Possible, Faithful;
    assert Sound(stream, s5);
    assert [e0, e1, e2, e3, e4][1..] == [e1, e2, e3, e4] && [e1, e2, e3, e4][1..] == [e2, e3, e4];
    assert [e2, e3, e4][1..] == [e3, e4] && [e3, e4][1..] == [e4] && [e4][1..] == [];
    assert Admissible(stream, s5, [], true) && Admissible(stream, s5, [], false) && Run(stream, s5, [], false) == s5;
    assert Admissible(stream, s4, [e4], true) && Admissible(stream, s4, [e4], false) && Run(stream, s4, [e4], false) == s5;
    assert Admissible(stream, s3, [e3, e4], true) && Admissible(stream, s3, [e3, e4], false);
    assert Run(stream, s3, [e3, e4], false) == s5;
    assert Admissible(stream, s2, [e2, e3, e4], true) && Admissible(stream, s2, [e2, e3, e4], false);
    assert Run(stream, s2, [e2, e3, e4], false) == s5;
    assert Admissible(stream, s1, [e1, e2, e3, e4], true) && Admissible(stream, s1, [e1, e2, e3, e4], false);
    assert Run(stream, s1, [e1, e2, e3, e4], false) == s5;
  }

  lemma HandsOnThirdAndFourth(stream: seq<Message>, s: State, env: Env)
    requires |stream| == 4 && Sound(stream, s) && Modes(s) && s.inRefresh
    requires s.queue == [Range(3, 5)] && s.delivered == [stream[0], stream[1]]
    ensures var r := Step(stream, s, SnapshotEnd(3, env)); r.seqNo == 5 && r.delivered == stream
  {
    var r := Step(stream, s, SnapshotEnd(3, env));
    hide Step;
    RefreshEvent(stream, s, SnapshotEnd(3, env));
    var q := [Range(3, 5)];
    assert s.queue + [] == q;
    assert Covers(q[0], 3) && Covers(q[0], 4) && Covered(q, 3) && Covered(q, 4) && !Covered(q, 5);
    assert r.seqNo == 5;
    assert r.delivered == [stream[0], stream[1]] + stream[2..4] == stream;
  }
}
