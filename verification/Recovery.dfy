/** One channel of the ASX ITCH client as a state machine: gap recovery over UDP retransmission and
    start-of-day snapshot over TCP.  Every operation of the handler is given as a function from state
    to state; `Client.Channel` is proved to compute these functions in place. */
module Recovery {
  import opened Mold
  import opened Ranges

  const LOGIN_TIMEOUT: nat := 10 * 1000   // milliseconds
  const ACCEPT_TIMEOUT: nat := 3000

  /** A retransmission request as sent: its message count is a 16-bit field. */
  datatype Request = Request(from: nat, amount: nat)

  /** What the outside world answers during one event: the clock and the outcome of each send. */
  datatype Env = Env(now: nat, connectOk: bool, loginOk: bool, logoutOk: bool, requestOk: bool)

  datatype State = State(
    seqNo: nat,            // next message number expected
    inRefresh: bool,
    refreshRejected: bool, // never try the snapshot again
    accepted: bool,        // the snapshot login was accepted
    inRetransmit: bool,
    recoverySeqno: nat,
    recoveryEnd: nat,
    timeout: nat,          // 0 until a snapshot login was sent
    socketOpen: bool,
    snapshotOn: bool,
    received: nat,         // snapshot messages received over TCP
    dropPackets: nat,      // packets still to be thrown away on purpose
    queue: seq<Range>,    // early packets, in arrival order
    delivered: seq<Message>,
    requests: seq<Request>)

  /** A channel as set up by the handler: in refresh state, nothing received, no login sent. */
  function Initial(): State {
    State(1, true, false, false, false, 0, 0, 0, false, false, 0, 0, [], [], [])
  }

  // ----- The stream -----

  /** `p` is a slice of the session's stream; message number n is `stream[n - 1]`. */
  predicate IsSlice(stream: seq<Message>, p: Range) {
    1 <= p.seqNum <= p.next <= |stream| + 1 && p.next - p.seqNum < END_OF_SESSION
  }

  /** What the network may bring: packets numbered 0 are ignored whatever they carry. */
  predicate Arrives(stream: seq<Message>, p: Range) {
    p.seqNum < 1 || IsSlice(stream, p)
  }

  predicate Sound(stream: seq<Message>, s: State) {
    && 1 <= s.seqNo <= |stream| + 1
    && forall i :: 0 <= i < |s.queue| ==> IsSlice(stream, s.queue[i])
  }

  // ----- Operations -----

  /** Messages up to but not including number `n` have been handed on. */
  function Deliver(stream: seq<Message>, s: State, n: nat): State
    requires 1 <= s.seqNo <= n <= |stream| + 1
  {
    s.(delivered := s.delivered + stream[s.seqNo - 1..n - 1], seqNo := n)
  }

  function Ask(s: State, from: nat, gap: int, ok: bool): State {
    if ok then s.(requests := s.requests + [Request(from, gap % 0x1_0000)]) else s
  }

  /** Everything the queue carries without a hole, delivered; what lies beyond the next hole stays queued. */
  function Emptied(stream: seq<Message>, s: State): (r: State)
    requires Sound(stream, s)
    ensures Sound(stream, r)
    ensures r.queue == Above(s.queue, r.seqNo)
  {
    var m := FirstUncovered(s.queue, s.seqNo);
    FirstUncoveredIsAnEnd(s.queue, s.seqNo);
    AboveMembers(s.queue, m);
    Deliver(stream, s, m).(inRefresh := false, queue := Above(s.queue, m))
  }

  /** A request for the numbers in front of the first queued packet; without one, retransmission is over. */
  function AskNext(s: State, ok: bool): State {
    if s.queue == [] || !ok then s.(inRetransmit := false)
    else
      var least := LeastSeq(s.queue);
      Ask(s, s.seqNo, least - s.seqNo, ok).(inRetransmit := true, recoverySeqno := s.seqNo,
          recoveryEnd := if least > 0 then least - 1 else 0)
  }

  function Drained(stream: seq<Message>, s: State, ok: bool): (r: State)
    requires Sound(stream, s)
    ensures Sound(stream, r)
  {
    AskNext(Emptied(stream, s), ok)
  }

  function Logout(s: State, ok: bool): State {
    if s.snapshotOn && s.socketOpen && ok then s.(snapshotOn := false) else s
  }

  function Reject(stream: seq<Message>, s: State, env: Env): (r: State)
    requires Sound(stream, s)
    ensures Sound(stream, r)
  {
    Drained(stream, Logout(s, env.logoutOk).(inRefresh := false, refreshRejected := true), env.requestOk)
  }

  function Connect(s: State, ok: bool): State {
    if s.socketOpen then s else s.(snapshotOn := false, socketOpen := ok)
  }

  predicate LoginWorks(s: State, ok: bool) {
    !s.refreshRejected && (s.snapshotOn || (s.socketOpen && ok))
  }

  function Login(s: State, ok: bool): State {
    if LoginWorks(s, ok) && !s.snapshotOn then s.(snapshotOn := true, inRefresh := true) else s
  }

  function TryConnect(stream: seq<Message>, s: State, env: Env): (r: State)
    requires Sound(stream, s)
    ensures Sound(stream, r)
  {
    if s.refreshRejected then s
    else
      var t := Connect(s, env.connectOk);
      if !t.socketOpen then
        if |t.queue| > 5 then Reject(stream, t, env) else t
      else if LoginWorks(t, env.loginOk) then
        Login(t, env.loginOk).(inRefresh := true, timeout := env.now + LOGIN_TIMEOUT)
      else t
  }

  /** Closing the last gap number leaves retransmission mode and drains the queue. */
  function InSync(stream: seq<Message>, s: State, p: Range, env: Env): (r: State)
    requires Sound(stream, s) && IsSlice(stream, p) && p.seqNum == s.seqNo
    ensures Sound(stream, r)
  {
    if p.next == p.seqNum then s
    else
      var t := Deliver(stream, s, p.next);
      if t.inRetransmit && t.seqNo > t.recoveryEnd then
        Drained(stream, t.(inRetransmit := false, recoveryEnd := 0), env.requestOk)
      else t
  }

  function Queued(s: State, p: Range): State {
    s.(queue := s.queue + [p])
  }

  /** The very first message: a channel without a snapshot connection is in sync at once. */
  function AtFirstMessage(s: State, p: Range): State {
    if s.seqNo == 1 && p.seqNum == 1
    then s.(inRefresh := s.inRefresh && s.socketOpen, refreshRejected := true) else s
  }

  /** In refresh mode a packet waits in the queue; an overdue snapshot is given up. */
  function Refreshing(stream: seq<Message>, s: State, p: Range, env: Env): (r: State)
    requires Sound(stream, s) && IsSlice(stream, p)
    ensures Sound(stream, r)
  {
    var t := Queued(s.(inRetransmit := false), p);
    if t.timeout < env.now then Reject(stream, t, env) else t
  }

  /** While a gap is filled: packets beyond it wait, packets inside it cause a new request. */
  function Early(s: State, p: Range, env: Env): State {
    if p.seqNum > s.recoveryEnd + 1 then Queued(s, p)
    else Ask(s, s.seqNo, s.recoveryEnd - s.seqNo + 1, env.requestOk)
  }

  /** A gap in front of packet `p`. */
  function Gap(s: State, p: Range, env: Env): State
    requires p.seqNum > s.seqNo
  {
    var t := Ask(s, s.seqNo, p.seqNum - s.seqNo, env.requestOk);
    if env.requestOk
    then Queued(t, p).(inRetransmit := true, recoverySeqno := s.seqNo, recoveryEnd := p.seqNum - 1)
    else t
  }

  /** The day begins in the middle of the stream when the snapshot was given up. */
  function GaveUp(s: State, p: Range): State {
    if !s.inRetransmit && s.seqNo <= 1 then s.(seqNo := p.seqNum) else s
  }

  function Live(stream: seq<Message>, s: State, p: Range, env: Env): (r: State)
    requires Sound(stream, s) && IsSlice(stream, p) && p.seqNum >= s.seqNo
    ensures Sound(stream, r)
  {
    if p.seqNum > s.seqNo then Gap(s, p, env) else InSync(stream, s, p, env)
  }

  function ByMode(stream: seq<Message>, s: State, p: Range, env: Env): (r: State)
    requires Sound(stream, s) && IsSlice(stream, p) && p.seqNum >= s.seqNo
    ensures Sound(stream, r)
  {
    if s.inRefresh then Refreshing(stream, s, p, env)
    else if s.inRetransmit && p.seqNum > s.seqNo then Early(s, p, env)
    else Live(stream, GaveUp(s, p), p, env)
  }

  /** One packet from either multicast line or from the retransmission server. */
  function Udp(stream: seq<Message>, s: State, p: Range, env: Env): (r: State)
    requires Sound(stream, s) && Arrives(stream, p)
    ensures Sound(stream, r)
  {
    if p.seqNum < 1 then s
    else if s.dropPackets > 0 then s.(dropPackets := s.dropPackets - 1)
    else if p.seqNum < s.seqNo then s
    else if s.seqNo == 1 && p.seqNum > 1 && s.inRefresh && s.timeout == 0 then
      TryConnect(stream, Queued(s, p), env)
    else ByMode(stream, AtFirstMessage(s, p), p, env)
  }

  function Accept(s: State, seqno: nat, now: nat): State {
    s.(snapshotOn := true, seqNo := seqno, accepted := true, timeout := now + ACCEPT_TIMEOUT)
  }

  /** A snapshot message travels through the packet parser under the number of snapshot messages so far. */
  function SnapshotMessage(s: State, m: Message): State {
    var t := s.(snapshotOn := true, received := s.received + 1);
    if t.received < t.seqNo then t else t.(delivered := t.delivered + [m], seqNo := t.seqNo + 1)
  }

  /** Refresh left for good, with number `n` (or 1 for a marker without a number) expected next. */
  function AtMarker(s: State, n: nat, logoutOk: bool): State {
    Logout(s.(snapshotOn := true), logoutOk).(seqNo := if n > 0 then n else 1, inRefresh := false, refreshRejected := true)
  }

  function EndOfSnapshot(stream: seq<Message>, s: State, n: nat, env: Env): (r: State)
    requires Sound(stream, s) && n <= |stream| + 1
    ensures Sound(stream, r)
  {
    Drained(stream, AtMarker(s, n, env.logoutOk), env.requestOk)
  }

  /** The dispatcher woke the handler without data. */
  function Tick(stream: seq<Message>, s: State, env: Env): (r: State)
    requires Sound(stream, s)
    ensures Sound(stream, r)
  {
    if s.inRefresh && s.timeout > 0 && env.now > s.timeout then Reject(stream, s, env)
    else if !s.snapshotOn && !s.refreshRejected && s.socketOpen then Login(s, env.loginOk)
    else s
  }

  /** The dispatcher reports that the TCP connection is gone. */
  function Closed(stream: seq<Message>, s: State, env: Env): (r: State)
    requires Sound(stream, s)
    ensures Sound(stream, r)
  {
    TryConnect(stream, s.(socketOpen := false), env)
  }

  // ----- Runs -----

  datatype Event =
    | Datagram(p: Range, env: Env)
    | LoginAccepted(seqno: nat, now: nat)
    | LoginRejected(env: Env)
    | SnapshotData(m: Message)
    | SnapshotEnd(n: nat, env: Env)
    | OtherFrame
    | NoData(env: Env)
    | Disconnected(env: Env)
    | DropNext(count: nat)

  /** What the network may do: packets are slices of the stream, and snapshot frames come only in refresh mode. */
  predicate Possible(stream: seq<Message>, s: State, e: Event) {
    match e
    case Datagram(p, _) => Arrives(stream, p)
    case LoginAccepted(seqno, _) => s.inRefresh && 1 <= seqno <= |stream| + 1
    case LoginRejected(_) => s.inRefresh
    case SnapshotData(_) => s.inRefresh && s.seqNo <= |stream|
    case SnapshotEnd(n, _) => s.inRefresh && n <= |stream| + 1
    case _ => true
  }

  /** What the snapshot server must keep to: one accept, at message 1; the stream from its beginning;
      and an end marker that names the next message. */
  predicate Faithful(stream: seq<Message>, s: State, e: Event) {
    match e
    case LoginAccepted(seqno, _) => !s.accepted && seqno == 1
    case SnapshotData(m) => s.accepted && s.received < |stream| && m == stream[s.received]
    case SnapshotEnd(n, _) => s.accepted && n == s.seqNo
    case _ => true
  }

  function Step(stream: seq<Message>, s: State, e: Event): (r: State)
    requires Sound(stream, s) && Possible(stream, s, e)
    ensures Sound(stream, r)
  {
    match e
    case Datagram(p, env) => Udp(stream, s, p, env)
    case LoginAccepted(seqno, now) => Accept(s, seqno, now)
    case LoginRejected(env) => Reject(stream, s.(snapshotOn := true), env)
    case SnapshotData(m) => SnapshotMessage(s, m)
    case SnapshotEnd(n, env) => EndOfSnapshot(stream, s, n, env)
    case OtherFrame => s.(snapshotOn := true)
    case NoData(env) => Tick(stream, s, env)
    case Disconnected(env) => Closed(stream, s, env)
    case DropNext(count) => s.(dropPackets := count)
  }

  /** Every event is possible (and, if asked, faithful) when it happens. */
  predicate Admissible(stream: seq<Message>, s: State, es: seq<Event>, faithful: bool)
    requires Sound(stream, s)
    decreases |es|
  {
    es != [] ==>
      && Possible(stream, s, es[0])
      && (faithful ==> Faithful(stream, s, es[0]))
      && Admissible(stream, Step(stream, s, es[0]), es[1..], faithful)
  }

  function Run(stream: seq<Message>, s: State, es: seq<Event>, faithful: bool): (r: State)
    requires Sound(stream, s) && Admissible(stream, s, es, faithful)
    ensures Sound(stream, r)
    decreases |es|
  {
    if es == [] then s else Run(stream, Step(stream, s, es[0]), es[1..], faithful)
  }
}
