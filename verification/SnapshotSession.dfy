/** The snapshot session from the server's side, and both sides together: what the server sends after a
    login is what the client relies on, so delivery is exact without trusting the server. */
module SnapshotSession {
  import opened Mold
  import opened Ranges
  import opened Recovery
  import opened RecoveryLaws
  import opened RecoveryTheorems
  import opened Client

  // ----- The server on values -----

  /** `lastSeqno` is 0 before the login, positive while messages are sent, and -1 after the end marker. */
  datatype Session = Session(nextOut: nat, nextMcast: nat, lastSeqno: int, frames: seq<TcpFrame>)

  /** A server whose message list is filled and whose multicast stands at `nextMcast`. */
  function Fresh(nextMcast: nat): Session {
    Session(1, nextMcast, 0, [])
  }

  /** The marker, if it can be sent. */
  function EndSession(s: Session, ok: bool): Session {
    if ok then s.(frames := s.frames + [SnapshotComplete(s.nextMcast)], lastSeqno := -1) else s
  }

  function LogIn(s: Session, seqno: nat, acceptOk: bool, endOk: bool): Session {
    var t := s.(frames := s.frames + if acceptOk then [LoginAccept(seqno)] else [], lastSeqno := seqno + 500);
    if seqno >= t.nextMcast then EndSession(t, endOk) else t
  }

  /** A login that finds messages to send opens the session for 500 numbers more than asked for. */
  lemma LogInOpens(s: Session, seqno: nat, acceptOk: bool, endOk: bool)
    requires seqno < s.nextMcast
    ensures LogIn(s, seqno, acceptOk, endOk) ==
      s.(frames := if acceptOk then s.frames + [LoginAccept(seqno)] else s.frames, lastSeqno := seqno + 500)
  {
    assert s.frames + [] == s.frames;
  }

  /** Once caught up, the session is over even if the marker could not be sent. */
  function SendMessage(outbound: seq<Message>, s: Session, ok: bool, endOk: bool): Session
    requires s.lastSeqno != -1 ==> 1 <= s.nextOut <= |outbound|
  {
    if s.lastSeqno == -1 || !ok then s
    else
      var t := s.(frames := s.frames + [SequencedData(outbound[s.nextOut - 1])], nextOut := s.nextOut + 1);
      if t.nextOut >= t.nextMcast then EndSession(t, endOk).(lastSeqno := -1) else t
  }

  /** The whole session over `k` messages: accept, the messages from the first, the end marker. */
  function Script(outbound: seq<Message>, k: nat): (r: seq<TcpFrame>)
    requires k <= |outbound|
    ensures |r| == k + 2 && r[0] == LoginAccept(1) && r[k + 1] == SnapshotComplete(k + 1)
    ensures forall i :: 1 <= i <= k ==> r[i] == SequencedData(outbound[i - 1])
  {
    [LoginAccept(1)] + seq(k, i requires 0 <= i < k => SequencedData(outbound[i])) + [SnapshotComplete(k + 1)]
  }

  /** The frames sent so far follow the script; while it runs, the marker is still ahead. */
  predicate OnScript(outbound: seq<Message>, s: Session) {
    && s.lastSeqno != 0
    && 1 <= s.nextOut <= |outbound| + 1 && s.nextMcast <= |outbound| + 1
    && (s.frames == Script(outbound, s.nextOut - 1)[..s.nextOut] ||
        (s.lastSeqno == -1 && s.frames == Script(outbound, s.nextOut - 1)))
    && (s.lastSeqno != -1 ==> s.nextOut < s.nextMcast)
  }

  lemma ScriptGrows(outbound: seq<Message>, k: nat)
    requires k < |outbound|
    ensures Script(outbound, k)[..k + 1] + [SequencedData(outbound[k])] == Script(outbound, k + 1)[..k + 2]
  {
  }

  lemma ScriptEnds(outbound: seq<Message>, k: nat)
    requires k <= |outbound|
    ensures Script(outbound, k)[..k + 1] + [SnapshotComplete(k + 1)] == Script(outbound, k)
  {
  }

  /** A login starts the script if and only if the accept goes out and so does the marker of an empty session. */
  lemma LogInOnScript(outbound: seq<Message>, nextMcast: nat, acceptOk: bool, endOk: bool)
    requires 1 <= nextMcast <= |outbound| + 1
    ensures OnScript(outbound, LogIn(Fresh(nextMcast), 1, acceptOk, endOk)) <==> acceptOk && (endOk || nextMcast > 1)
  {
    assert Script(outbound, 0) == [LoginAccept(1), SnapshotComplete(1)];
    assert Script(outbound, 0)[..1] == [LoginAccept(1)];
  }

  /** If that marker is lost, the session runs on past the multicast and ends it with a marker that names a
      message already sent. */
  lemma LostMarkerRepeatsMessage(outbound: seq<Message>)
    requires |outbound| > 0
    ensures var s := LogIn(Fresh(1), 1, true, false);
      s.lastSeqno != -1 && SendMessage(outbound, s, true, true).frames ==
        [LoginAccept(1), SequencedData(outbound[0]), SnapshotComplete(1)]
  {
  }

  lemma SendOnScript(outbound: seq<Message>, s: Session, ok: bool, endOk: bool)
    requires OnScript(outbound, s)
    ensures OnScript(outbound, SendMessage(outbound, s, ok, endOk))
  {
    if s.lastSeqno != -1 && ok {
      ScriptGrows(outbound, s.nextOut - 1);
      ScriptEnds(outbound, s.nextOut);
      hide Script;
    }
  }

  /** While a session runs, its socket becomes writable, with or without success, and multicast goes on. */
  datatype ServerEvent = Writable(ok: bool, endOk: bool) | Multicast(lastSeqno: nat)

  function ServerStep(outbound: seq<Message>, s: Session, e: ServerEvent): (r: Session)
    requires OnScript(outbound, s)
    ensures OnScript(outbound, r)
  {
    match e
    case Writable(ok, endOk) => SendOnScript(outbound, s, ok, endOk); SendMessage(outbound, s, ok, endOk)
    case Multicast(last) => if s.nextMcast <= last <= |outbound| then s.(nextMcast := last + 1) else s
  }

  function Serve(outbound: seq<Message>, s: Session, es: seq<ServerEvent>): (r: Session)
    requires OnScript(outbound, s)
    ensures OnScript(outbound, r)
    decreases |es|
  {
    if es == [] then s else Serve(outbound, ServerStep(outbound, s, es[0]), es[1..])
  }

  /** A session from its login on, the accept sent, and the marker too if there is nothing else to send. */
  function Served(outbound: seq<Message>, nextMcast: nat, endOk: bool, es: seq<ServerEvent>): Session
    requires 1 <= nextMcast <= |outbound| + 1 && (endOk || nextMcast > 1)
  {
    LogInOnScript(outbound, nextMcast, true, endOk);
    Serve(outbound, LogIn(Fresh(nextMcast), 1, true, endOk), es)
  }

  /** Whatever the interleaving of sends, failed sends and multicast: accept, then every message from the
      first in order and, when the multicast is caught up with, the marker that names the next one; that
      marker or nothing is the last frame. */
  lemma ServerFollowsScript(outbound: seq<Message>, nextMcast: nat, endOk: bool, es: seq<ServerEvent>)
    requires 1 <= nextMcast <= |outbound| + 1 && (endOk || nextMcast > 1)
    ensures var r := Served(outbound, nextMcast, endOk, es);
      && 1 <= r.nextOut <= |outbound| + 1
      && r.frames <= Script(outbound, r.nextOut - 1) && |r.frames| >= r.nextOut
      && (r.frames == Script(outbound, r.nextOut - 1) ==> r.lastSeqno == -1)
      && (r.lastSeqno == -1 ==> r.nextOut >= nextMcast)
  {
    LogInOnScript(outbound, nextMcast, true, endOk);
    NeverBehind(outbound, LogIn(Fresh(nextMcast), 1, true, endOk), es, nextMcast);
  }

  /** The marker is sent only when the multicast is caught up with. */
  lemma {:induction false} NeverBehind(outbound: seq<Message>, s: Session, es: seq<ServerEvent>, nextMcast: nat)
    requires OnScript(outbound, s)
    requires if s.lastSeqno == -1 then s.nextOut >= nextMcast else s.nextMcast >= nextMcast
    ensures var r := Serve(outbound, s, es); r.lastSeqno == -1 ==> r.nextOut >= nextMcast
    decreases |es|
  {
    if es != [] {
      NeverBehind(outbound, ServerStep(outbound, s, es[0]), es[1..], nextMcast);
    }
  }

  // ----- Server and client -----

  function FrameOf(e: Event): seq<TcpFrame> {
    match e
    case LoginAccepted(seqno, _) => [LoginAccept(seqno)]
    case LoginRejected(_) => [LoginReject]
    case SnapshotData(m) => [SequencedData(m)]
    case SnapshotEnd(n, _) => [SnapshotComplete(n)]
    case _ => []
  }

  /** The session frames among the events a client sees. */
  function FramesOf(es: seq<Event>): seq<TcpFrame> {
    if es == [] then [] else FrameOf(es[0]) + FramesOf(es[1..])
  }

  /** How many frames of the script the client has taken. */
  function Position(s: State): nat {
    if s.accepted then s.received + 1 else 0
  }

  /** While in refresh, the client's next session frames are the script's. */
  predicate InStep(stream: seq<Message>, k: nat, s: State, es: seq<Event>)
    requires k <= |stream|
  {
    s.inRefresh ==> Position(s) <= k + 1 && FramesOf(es) <= Script(stream, k)[Position(s)..]
  }

  predicate SamePlace(s: State, r: State) {
    r.accepted == s.accepted && r.received == s.received
  }

  lemma DrainedKeepsPlace(stream: seq<Message>, s: State, ok: bool)
    requires Sound(stream, s)
    ensures SamePlace(s, Drained(stream, s, ok))
  {
    hide FirstUncovered, Above;
  }

  lemma RejectKeepsPlace(stream: seq<Message>, s: State, env: Env)
    requires Sound(stream, s)
    ensures SamePlace(s, Reject(stream, s, env))
  {
    hide Drained;
    DrainedKeepsPlace(stream, Logout(s, env.logoutOk).(inRefresh := false, refreshRejected := true), env.requestOk);
  }

  lemma TryConnectKeepsPlace(stream: seq<Message>, s: State, env: Env)
    requires Sound(stream, s)
    ensures SamePlace(s, TryConnect(stream, s, env))
  {
    hide Reject;
    RejectKeepsPlace(stream, Connect(s, env.connectOk), env);
  }

  lemma LiveKeepsPlace(stream: seq<Message>, s: State, p: Range, env: Env)
    requires Sound(stream, s) && IsSlice(stream, p) && p.seqNum >= s.seqNo
    ensures SamePlace(s, Live(stream, s, p, env))
  {
    hide Drained;
    if p.seqNum == s.seqNo && p.next != p.seqNum {
      var t := Deliver(stream, s, p.next);
      DrainedKeepsPlace(stream, t.(inRetransmit := false, recoveryEnd := 0), env.requestOk);
    }
  }

  lemma ByModeKeepsPlace(stream: seq<Message>, s: State, p: Range, env: Env)
    requires Sound(stream, s) && IsSlice(stream, p) && p.seqNum >= s.seqNo
    ensures SamePlace(s, ByMode(stream, s, p, env))
  {
    hide Reject, Live;
    RejectKeepsPlace(stream, Queued(s.(inRetransmit := false), p), env);
    LiveKeepsPlace(stream, GaveUp(s, p), p, env);
  }

  lemma UdpKeepsPlace(stream: seq<Message>, s: State, p: Range, env: Env)
    requires Sound(stream, s) && Arrives(stream, p)
    ensures SamePlace(s, Udp(stream, s, p, env))
  {
    hide TryConnect, ByMode;
    if p.seqNum >= 1 && s.dropPackets == 0 && p.seqNum >= s.seqNo {
      if s.seqNo == 1 && p.seqNum > 1 && s.inRefresh && s.timeout == 0 {
        TryConnectKeepsPlace(stream, Queued(s, p), env);
      } else {
        ByModeKeepsPlace(stream, AtFirstMessage(s, p), p, env);
      }
    }
  }

  /** Only session frames move the session on. */
  lemma OtherEventsKeepPosition(stream: seq<Message>, s: State, e: Event)
    requires Sound(stream, s) && Possible(stream, s, e) && FrameOf(e) == []
    ensures Position(Step(stream, s, e)) == Position(s)
  {
    hide Udp, TryConnect, Reject;
    match e
    case Datagram(p, env) => UdpKeepsPlace(stream, s, p, env);
    case Disconnected(env) => TryConnectKeepsPlace(stream, s.(socketOpen := false), env);
    case NoData(env) => RejectKeepsPlace(stream, s, env);
    case _ =>
  }

  lemma PrefixStep(x: TcpFrame, rest: seq<TcpFrame>, script: seq<TcpFrame>, at: nat)
    requires at <= |script| && [x] + rest <= script[at..]
    ensures at < |script| && x == script[at] && rest <= script[at + 1..]
  {
    var tail := script[at..];
    assert ([x] + rest)[0] == tail[0];
    assert ([x] + rest)[1..] == rest && tail[1..] == script[at + 1..];
  }

  lemma FrameIsScripted(stream: seq<Message>, k: nat, s: State, es: seq<Event>)
    requires k <= |stream| && es != [] && s.inRefresh && InStep(stream, k, s, es)
    ensures FrameOf(es[0]) == [] ==> FramesOf(es[1..]) == FramesOf(es)
    ensures FrameOf(es[0]) != [] ==>
      && FrameOf(es[0]) == [Script(stream, k)[Position(s)]]
      && FramesOf(es[1..]) <= Script(stream, k)[Position(s) + 1..]
  {
    hide Script, FrameOf, Position;
    var rest := FramesOf(es[1..]);
    assert FramesOf(es) == FrameOf(es[0]) + rest;
    var script, pos := Script(stream, k), Position(s);
    hide *;
    if FrameOf(es[0]) != [] {
      var x := FrameOf(es[0])[0];
      assert FrameOf(es[0]) == [x] by { OneFrame(es[0]); }
      PrefixStep(x, rest, script, pos);
    }
  }

  lemma OneFrame(e: Event)
    ensures |FrameOf(e)| <= 1
  {
  }

  lemma ScriptedIsFaithful(stream: seq<Message>, k: nat, s: State, e: Event)
    requires k <= |stream| && Sound(stream, s) && Exact(stream, s) && s.inRefresh && Possible(stream, s, e)
    requires Position(s) <= k + 1 && FrameOf(e) == [Script(stream, k)[Position(s)]]
    ensures Faithful(stream, s, e)
    ensures Step(stream, s, e).inRefresh ==> Position(Step(stream, s, e)) == Position(s) + 1 <= k + 1
  {
    assert e.LoginAccepted? || e.SnapshotData? || e.SnapshotEnd?;
  }

  lemma InStepNext(stream: seq<Message>, k: nat, s: State, es: seq<Event>)
    requires k <= |stream| && Sound(stream, s) && Modes(s) && Exact(stream, s) && es != []
    requires Possible(stream, s, es[0]) && InStep(stream, k, s, es)
    ensures Faithful(stream, s, es[0])
    ensures InStep(stream, k, Step(stream, s, es[0]), es[1..])
  {
    hide Step, Exact, Sound, FramesOf;
    ModesStep(stream, s, es[0]);
    if s.inRefresh {
      FrameIsScripted(stream, k, s, es);
      if FrameOf(es[0]) == [] {
        OtherEventsKeepPosition(stream, s, es[0]);
      } else {
        ScriptedIsFaithful(stream, k, s, es[0]);
      }
    }
  }

  lemma {:induction false} RunInStep(stream: seq<Message>, k: nat, s: State, es: seq<Event>)
    requires k <= |stream| && Sound(stream, s) && Modes(s) && Exact(stream, s)
    requires Admissible(stream, s, es, false) && InStep(stream, k, s, es)
    ensures Admissible(stream, s, es, true)
    ensures Run(stream, s, es, true) == Run(stream, s, es, false)
    decreases |es|
  {
    hide Step, Exact, InStep, Possible, Faithful;
    if es != [] {
      InStepNext(stream, k, s, es);
      ModesStep(stream, s, es[0]);
      ExactStep(stream, s, es[0]);
      RunInStep(stream, k, Step(stream, s, es[0]), es[1..]);
    }
  }

  lemma InitialInStep(stream: seq<Message>, k: nat, es: seq<Event>)
    requires k <= |stream| && FramesOf(es) <= Script(stream, k)
    ensures Modes(Initial()) && Exact(stream, Initial()) && InStep(stream, k, Initial(), es)
  {
    assert Script(stream, k)[0..] == Script(stream, k);
  }

  /** Both sides: a new client that takes, among whatever packets, frames of this server in the order sent
      meets every condition exact delivery puts on the server, and hands on one slice of the stream. */
  lemma ServedClientIsExact(stream: seq<Message>, nextMcast: nat, endOk: bool, served: seq<ServerEvent>, es: seq<Event>)
    requires 1 <= nextMcast <= |stream| + 1 && (endOk || nextMcast > 1)
    requires FramesOf(es) <= Served(stream, nextMcast, endOk, served).frames
    requires Admissible(stream, Initial(), es, false)
    ensures Admissible(stream, Initial(), es, true)
    ensures var r := Run(stream, Initial(), es, false);
      && Modes(r) && Exact(stream, r)
      && |r.delivered| < r.seqNo
      && r.delivered == stream[r.seqNo - 1 - |r.delivered|..r.seqNo - 1]
  {
    hide Script, Served, InStep, FramesOf;
    ServerFollowsScript(stream, nextMcast, endOk, served);
    var k := Served(stream, nextMcast, endOk, served).nextOut - 1;
    InitialInStep(stream, k, es);
    RunInStep(stream, k, Initial(), es);
    RunExact(stream, Initial(), es);
    ExactlyOnce(stream, es);
  }

  /** And when the server's marker is the next frame of a client still in refresh, the client goes over from
      snapshot to multicast without gap or repeat: it has the stream from its beginning through everything
      it queued meanwhile. */
  lemma SnapshotEndToEnd(stream: seq<Message>, nextMcast: nat, endOk: bool, served: seq<ServerEvent>, es: seq<Event>, n: nat, env: Env)
    requires 1 <= nextMcast <= |stream| + 1 && (endOk || nextMcast > 1)
    requires FramesOf(es) + [SnapshotComplete(n)] <= Served(stream, nextMcast, endOk, served).frames
    requires Admissible(stream, Initial(), es, false) && Run(stream, Initial(), es, false).inRefresh
    ensures n <= |stream| + 1
    ensures var s := Run(stream, Initial(), es, false);
      var r := Step(stream, s, SnapshotEnd(n, env));
      && n == s.received + 1
      && r.delivered == stream[..r.seqNo - 1]
      && r.seqNo == FirstUncovered(s.queue, n)
      && !r.inRefresh
  {
    hide Exact, Step, Script, Served, InStep, FramesOf, Run, Admissible, FirstUncovered, Modes;
    ServerFollowsScript(stream, nextMcast, endOk, served);
    var k := Served(stream, nextMcast, endOk, served).nextOut - 1;
    PrefixOf(FramesOf(es), SnapshotComplete(n), Served(stream, nextMcast, endOk, served).frames);
    ServedClientIsExact(stream, nextMcast, endOk, served, es);
    InitialInStep(stream, k, es);
    MarkerInPlace(stream, k, es, n);
    HandoverAt(stream, Run(stream, Initial(), es, false), n, env);
  }

  lemma PrefixOf(a: seq<TcpFrame>, x: TcpFrame, whole: seq<TcpFrame>)
    requires a + [x] <= whole
    ensures a <= whole
  {
    assert a == (a + [x])[..|a|];
  }

  lemma HandoverAt(stream: seq<Message>, s: State, n: nat, env: Env)
    requires Sound(stream, s) && Exact(stream, s) && s.inRefresh && n == s.received + 1 && n <= |stream| + 1
    ensures var r := Step(stream, s, SnapshotEnd(n, env));
      && r.delivered == stream[..r.seqNo - 1]
      && r.seqNo == FirstUncovered(s.queue, n)
      && !r.inRefresh
  {
    hide Exact, Step, FirstUncovered;
    SnapshotHandover(stream, s, n, env);
    MarkerStep(stream, s, n, env);
  }

  /** Where the marker is the next frame, the client has received all but it. */
  lemma MarkerInPlace(stream: seq<Message>, k: nat, es: seq<Event>, n: nat)
    requires k <= |stream| && FramesOf(es) + [SnapshotComplete(n)] <= Script(stream, k)
    requires Admissible(stream, Initial(), es, false) && Run(stream, Initial(), es, false).inRefresh
    requires Modes(Initial()) && Exact(stream, Initial()) && InStep(stream, k, Initial(), es)
    ensures n == k + 1 == Run(stream, Initial(), es, false).received + 1
  {
    hide Exact, InStep, Script, FramesOf;
    var i := |FramesOf(es)|;
    assert (FramesOf(es) + [SnapshotComplete(n)])[i] == Script(stream, k)[i];
    MarkerAt(stream, k, i, n);
    SessionCounts(stream, k, Initial(), es);
  }

  lemma MarkerAt(stream: seq<Message>, k: nat, i: nat, n: nat)
    requires k <= |stream| && i < k + 2 && Script(stream, k)[i] == SnapshotComplete(n)
    ensures i == k + 1 == n
  {
  }

  lemma MarkerStep(stream: seq<Message>, s: State, n: nat, env: Env)
    requires Sound(stream, s) && s.inRefresh && n <= |stream| + 1
    ensures Step(stream, s, SnapshotEnd(n, env)) == EndOfSnapshot(stream, s, n, env)
  {
  }

  /** A client still in refresh has taken one script frame for each session frame among its events. */
  lemma {:induction false} SessionCounts(stream: seq<Message>, k: nat, s: State, es: seq<Event>)
    requires k <= |stream| && Sound(stream, s) && Modes(s) && Exact(stream, s)
    requires Admissible(stream, s, es, false) && InStep(stream, k, s, es)
    ensures var r := Run(stream, s, es, false);
      r.inRefresh ==> s.inRefresh && Position(r) == Position(s) + |FramesOf(es)|
    decreases |es|
  {
    hide Step, Exact, Possible, Faithful;
    if es != [] {
      InStepNext(stream, k, s, es);
      ModesStep(stream, s, es[0]);
      ExactStep(stream, s, es[0]);
      SessionCounts(stream, k, Step(stream, s, es[0]), es[1..]);
      RunModes(stream, Step(stream, s, es[0]), es[1..]);
      if s.inRefresh && Step(stream, s, es[0]).inRefresh {
        PositionStep(stream, k, s, es);
      }
    }
  }

  lemma PositionStep(stream: seq<Message>, k: nat, s: State, es: seq<Event>)
    requires k <= |stream| && Sound(stream, s) && Exact(stream, s) && s.inRefresh && es != []
    requires Possible(stream, s, es[0]) && InStep(stream, k, s, es) && Step(stream, s, es[0]).inRefresh
    ensures Position(Step(stream, s, es[0])) == Position(s) + |FrameOf(es[0])|
  {
    hide Step, Exact;
    FrameIsScripted(stream, k, s, es);
    if FrameOf(es[0]) == [] {
      OtherEventsKeepPosition(stream, s, es[0]);
    } else {
      ScriptedIsFaithful(stream, k, s, es[0]);
    }
  }
}
