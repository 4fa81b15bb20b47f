/** The client channel as the handler keeps it: fields updated in place, packets as bytes.  Every method
    is proved to compute the function of the same purpose in `Recovery`. */
module Client {
  import opened Bytes
  import opened Mold
  import opened Ranges
  import opened Recovery

  const SNAPSHOT_BUFFER: nat := 360
  const MESSAGE_TYPE_G: byte := 71

  /** An entry of the early-packet queue: its numbers and a copy of its bytes. */
  datatype QueuedMessage = QueuedMessage(seqNum: nat, nextSeqNum: nat, msg: seq<byte>)

  /** SoupBinTCP packets from the snapshot server, by type. */
  datatype TcpFrame =
    | LoginAccept(seqno: nat)
    | LoginReject
    | SequencedData(m: Message)
    | SnapshotComplete(n: nat)
    | Other

  /** The numbers a packet's header names. */
  function HeaderRange(b: seq<byte>): Range
    requires |b| >= HEADER
  {
    Range(SeqNum(b), SeqNum(b) + MessageCount(b))
  }

  function SliceOf(stream: seq<Message>, r: Range): Packet
    requires IsSlice(stream, r)
  {
    Packet(r.seqNum, stream[r.seqNum - 1..r.next - 1])
  }

  /** How many bytes the packet with these numbers takes. */
  function WireLength(stream: seq<Message>, r: Range): (n: nat)
    requires IsSlice(stream, r)
    ensures n >= HEADER
  {
    Offset(SliceOf(stream, r).msgs, r.next - r.seqNum)
  }

  /** The bytes begin with a complete packet whose messages are the stream's at its numbers. */
  predicate Carries(stream: seq<Message>, b: seq<byte>) {
    |b| >= HEADER && IsSlice(stream, HeaderRange(b)) && IsPacket(b, SliceOf(stream, HeaderRange(b)))
  }

  predicate Holds(stream: seq<Message>, q: QueuedMessage) {
    Carries(stream, q.msg) && HeaderRange(q.msg) == Range(q.seqNum, q.nextSeqNum)
  }

  predicate AllHold(stream: seq<Message>, q: seq<QueuedMessage>) {
    forall i {:trigger Holds(stream, q[i])} :: 0 <= i < |q| ==> Holds(stream, q[i])
  }

  /** The event a snapshot frame stands for. */
  function FrameEvent(f: TcpFrame, env: Env): Event {
    match f
    case LoginAccept(seqno) => LoginAccepted(seqno, env.now)
    case LoginReject => LoginRejected(env)
    case SequencedData(m) => SnapshotData(m)
    case SnapshotComplete(n) => SnapshotEnd(n, env)
    case Other => OtherFrame
  }

  /** How many messages of `p` come before number `n`. */
  function Seen(p: Packet, n: nat): (k: nat)
    ensures k <= |p.msgs|
  {
    if p.seqNum >= n then 0 else if p.Next() <= n then |p.msgs| else n - p.seqNum
  }

  function QueueRanges(q: seq<QueuedMessage>): (r: seq<Range>)
    ensures |r| == |q|
    ensures forall i :: 0 <= i < |q| ==> r[i] == Range(q[i].seqNum, q[i].nextSeqNum)
  {
    seq(|q|, i requires 0 <= i < |q| => Range(q[i].seqNum, q[i].nextSeqNum))
  }

  // ----- The drain loop -----

  /** Part of queue `q0` has been drained from `n0` up to `n`; `q` is what is left of it. */
  ghost predicate Draining(q0: seq<Range>, q: seq<Range>, n0: nat, n: nat) {
    && n0 <= n
    && (forall k :: n0 <= k < n ==> Covered(q0, k))
    && (forall k {:trigger Above(q, k)} :: k >= n ==> Above(q, k) == Above(q0, k))
    && (forall i :: 0 <= i < |q0| ==> q0[i].next <= n || q0[i] in q)
    && (forall i :: 0 <= i < |q| ==> q[i] in q0)
  }

  lemma DrainPop(q0: seq<Range>, q: seq<Range>, n0: nat, n: nat, i: nat)
    requires Draining(q0, q, n0, n) && i < |q| && q[i].seqNum <= n
    ensures Draining(q0, q[..i] + q[i + 1..], n0, if q[i].next > n then q[i].next else n)
  {
    var r := q[..i] + q[i + 1..];
    var m := if q[i].next > n then q[i].next else n;
    var j :| 0 <= j < |q0| && q0[j] == q[i];
    forall k | n0 <= k < m ensures Covered(q0, k) {
      assert k >= n ==> Covers(q0[j], k);
    }
    forall k | k >= m ensures Above(r, k) == Above(q0, k) {
      AboveWithout(q, i, k);
    }
    assert q == q[..i] + [q[i]] + q[i + 1..];
  }

  lemma DrainDone(q0: seq<Range>, q: seq<Range>, n0: nat, n: nat)
    requires Draining(q0, q, n0, n)
    requires forall i :: 0 <= i < |q| ==> q[i].seqNum > n
    ensures FirstUncovered(q0, n0) == n && Above(q0, n) == q
  {
    AboveAll(q, n);
    forall i | 0 <= i < |q0| ensures !Covers(q0[i], n) {
    }
    FirstUncoveredUnique(q0, n0, n);
  }

  /** State `s` is `s0` with part of its queue drained. */
  ghost predicate DrainedSoFar(stream: seq<Message>, s0: State, s: State) {
    && 1 <= s0.seqNo <= s.seqNo <= |stream| + 1
    && Draining(s0.queue, s.queue, s0.seqNo, s.seqNo)
    && s.delivered == s0.delivered + stream[s0.seqNo - 1..s.seqNo - 1]
    && s == s0.(seqNo := s.seqNo, delivered := s.delivered, queue := s.queue)
  }

  lemma DrainStep(stream: seq<Message>, s0: State, s: State, i: nat, s': State)
    requires DrainedSoFar(stream, s0, s) && i < |s.queue| && s.queue[i].seqNum <= s.seqNo
    requires s'.seqNo == if s.queue[i].next > s.seqNo then s.queue[i].next else s.seqNo
    requires s'.seqNo <= |stream| + 1
    requires s' == s.(seqNo := s'.seqNo, delivered := s.delivered + stream[s.seqNo - 1..s'.seqNo - 1],
                      queue := s.queue[..i] + s.queue[i + 1..])
    ensures DrainedSoFar(stream, s0, s')
  {
    hide Draining;
    DrainPop(s0.queue, s.queue, s0.seqNo, s.seqNo, i);
    assert stream[s0.seqNo - 1..s'.seqNo - 1] == stream[s0.seqNo - 1..s.seqNo - 1] + stream[s.seqNo - 1..s'.seqNo - 1];
  }

  lemma DrainStarts(stream: seq<Message>, s: State)
    requires Sound(stream, s)
    ensures DrainedSoFar(stream, s, s)
  {
  }

  lemma EmptiedFromRefresh(stream: seq<Message>, s: State)
    requires Sound(stream, s)
    ensures Emptied(stream, s.(inRefresh := false)) == Emptied(stream, s)
  {
  }

  lemma DrainFinished(stream: seq<Message>, s0: State, s: State)
    requires Sound(stream, s0) && DrainedSoFar(stream, s0, s)
    requires forall i :: 0 <= i < |s.queue| ==> s.queue[i].seqNum > s.seqNo
    ensures Emptied(stream, s0) == s.(inRefresh := false) && s.inRefresh == s0.inRefresh
  {
    DrainDone(s0.queue, s.queue, s0.seqNo, s.seqNo);
  }

  class Channel {
    ghost const stream: seq<Message>

    var seqNo: nat
    var inRefresh: bool
    var refreshRejected: bool
    var receivedRefreshStart: bool
    var inRetransmit: bool
    var recoverySeqno: nat
    var recoveryEnd: nat
    var snapshotTimeout: nat
    var socketOpen: bool
    var snapshotOn: bool
    var snapshotMsgReceived: nat
    var dropPackets: nat
    var queue: seq<QueuedMessage>
    var requests: seq<Request>
    /** Every message given to `parse_message`, in order. */
    var delivered: seq<Message>

    ghost function Abs(): State
      reads this
    {
      State(seqNo, inRefresh, refreshRejected, receivedRefreshStart, inRetransmit, recoverySeqno, recoveryEnd,
            snapshotTimeout, socketOpen, snapshotOn, snapshotMsgReceived, dropPackets, QueueRanges(queue),
            delivered, requests)
    }

    ghost predicate Valid()
      reads this
    {
      && Sound(stream, Abs())
      && AllHold(stream, queue)
    }

    /** A channel as `update_channel_state` sets it up, before its first connection attempt. */
    constructor (ghost stream: seq<Message>)
      ensures this.stream == stream
      ensures Valid() && Abs() == Initial()
      ensures seqNo == 1 && inRefresh && !refreshRejected && !receivedRefreshStart && !inRetransmit
      ensures snapshotTimeout == 0 && !socketOpen && !snapshotOn && snapshotMsgReceived == 0 && dropPackets == 0
      ensures queue == [] && requests == [] && delivered == []
    {
      this.stream := stream;
      seqNo, inRefresh, refreshRejected, receivedRefreshStart := 1, true, false, false;
      inRetransmit, recoverySeqno, recoveryEnd, snapshotTimeout := false, 0, 0, 0;
      socketOpen, snapshotOn, snapshotMsgReceived, dropPackets := false, false, 0, 0;
      queue, requests, delivered := [], [], [];
    }

    // ----- Handing messages on -----

    method ParseMessage(m: Message)
      modifies this`delivered
      ensures delivered == old(delivered) + [m]
    {
      delivered := delivered + [m];
    }

    /** Hands on the messages of a packet from the expected number on, skipping those already seen. */
    method Parse2(buf: seq<byte>, ghost p: Packet) returns (parsedLen: int)
      requires IsPacket(buf, p)
      modifies this`seqNo, this`delivered
      ensures delivered == old(delivered) + p.msgs[Seen(p, old(seqNo))..]
      ensures seqNo == old(seqNo) + |p.msgs| - Seen(p, old(seqNo))
      ensures parsedLen == Offset(p.msgs, |p.msgs|)
    {
      hide IsPacket;
      var block, counter := SkipSeen(buf, p);
      ghost var skip := |p.msgs| - counter;
      parsedLen := block;
      for kk := 0 to counter
        invariant block == parsedLen == Offset(p.msgs, skip + kk)
        invariant delivered == old(delivered) + p.msgs[skip..skip + kk]
        invariant seqNo == old(seqNo) + kk
      {
        BlockOf(buf, p, skip + kk);
        var messageLength := ReadU16(buf, block);
        parsedLen := parsedLen + 2 + messageLength;
        if parsedLen > |buf| {
          parsedLen := block;
          break;
        }
        ParseMessage(buf[block + 2..block + 2 + messageLength]);
        seqNo := seqNo + 1;
        block := block + 2 + messageLength;
      }
    }

    /** Steps over the blocks of messages already seen: the next block, and how many are left. */
    method SkipSeen(buf: seq<byte>, ghost p: Packet) returns (block: nat, counter: nat)
      requires IsPacket(buf, p)
      ensures counter == |p.msgs| - Seen(p, seqNo) && block == Offset(p.msgs, Seen(p, seqNo))
    {
      var seqNum := SeqNum(buf);
      var messageCount := MessageCount(buf);
      counter := messageCount;
      block := HEADER;
      if seqNum < seqNo && messageCount > 0 {
        while seqNum < seqNo && counter > 0
          invariant counter <= |p.msgs| && block == Offset(p.msgs, |p.msgs| - counter)
          invariant seqNum == p.seqNum + |p.msgs| - counter
          invariant counter < |p.msgs| ==> seqNum <= seqNo
        {
          BlockOf(buf, p, |p.msgs| - counter);
          var messageLength := ReadU16(buf, block);
          block := block + 2 + messageLength;
          counter := counter - 1;
          seqNum := seqNum + 1;
        }
      }
    }

    /** The queue walk's own handling of a packet it has partly seen: skip by hand, then hand on the rest.
        Same effect as running `Parse2` on the whole packet. */
    method DeliverPartial(aMsg: QueuedMessage, ghost p: Packet)
      requires IsPacket(aMsg.msg, p) && p.seqNum == aMsg.seqNum && p.Next() == aMsg.nextSeqNum
      requires aMsg.seqNum < seqNo < aMsg.nextSeqNum
      modifies this`seqNo, this`delivered
      ensures delivered == old(delivered) + p.msgs[Seen(p, old(seqNo))..]
      ensures seqNo == old(seqNo) + |p.msgs| - Seen(p, old(seqNo))
    {
      hide IsPacket;
      var pNewH := SkipPartial(aMsg, p);
      ghost var skip := Seen(p, old(seqNo));
      while seqNo < aMsg.nextSeqNum
        invariant old(seqNo) <= seqNo <= aMsg.nextSeqNum
        invariant pNewH == Offset(p.msgs, seqNo - aMsg.seqNum)
        invariant delivered == old(delivered) + p.msgs[skip..seqNo - aMsg.seqNum]
      {
        BlockOf(aMsg.msg, p, seqNo - aMsg.seqNum);
        var messageLength := ReadU16(aMsg.msg, pNewH);
        ParseMessage(aMsg.msg[pNewH + 2..pNewH + 2 + messageLength]);
        seqNo := seqNo + 1;
        pNewH := pNewH + 2 + messageLength;
      }
    }

    method SkipPartial(aMsg: QueuedMessage, ghost p: Packet) returns (pNewH: nat)
      requires IsPacket(aMsg.msg, p) && p.seqNum == aMsg.seqNum && p.Next() == aMsg.nextSeqNum
      requires aMsg.seqNum < seqNo < aMsg.nextSeqNum
      ensures pNewH == Offset(p.msgs, seqNo - aMsg.seqNum)
    {
      hide IsPacket;
      var seqNum := aMsg.seqNum;
      pNewH := HEADER;
      while seqNum < seqNo
        invariant aMsg.seqNum <= seqNum <= seqNo
        invariant pNewH == Offset(p.msgs, seqNum - aMsg.seqNum)
      {
        BlockOf(aMsg.msg, p, seqNum - aMsg.seqNum);
        var messageLength := ReadU16(aMsg.msg, pNewH);
        pNewH := pNewH + 2 + messageLength;
        seqNum := seqNum + 1;
      }
    }

    // ----- The early-packet queue -----

    /** Some entry with the least number; which one, among equals, is not said. */
    method QueueTop() returns (i: nat)
      requires queue != []
      ensures i < |queue|
      ensures forall j :: 0 <= j < |queue| ==> queue[i].seqNum <= queue[j].seqNum
    {
      i := 0;
      for k := 1 to |queue|
        invariant i < |queue|
        invariant forall j :: 0 <= j < k ==> queue[i].seqNum <= queue[j].seqNum
      {
        if queue[k].seqNum < queue[i].seqNum {
          i := k;
        }
      }
    }

    method QueuePush(seqNum: nat, nextSeqNum: nat, buffer: seq<byte>, len: nat)
      requires len <= |buffer|
      modifies this`queue
      ensures queue == old(queue) + [QueuedMessage(seqNum, nextSeqNum, buffer[..len])]
    {
      queue := queue + [QueuedMessage(seqNum, nextSeqNum, buffer[..len])];
    }

    /** Queues the stream packet at the front of `buffer`. */
    method Enqueue(seqNum: nat, nextSeqNum: nat, buffer: seq<byte>, len: nat)
      requires Valid() && PacketIn(buffer, len, Range(seqNum, nextSeqNum))
      modifies this`queue
      ensures Valid() && Abs() == Queued(old(Abs()), Range(seqNum, nextSeqNum))
    {
      QueuePush(seqNum, nextSeqNum, buffer, len);
      assert QueueRanges(queue) == QueueRanges(old(queue)) + [Range(seqNum, nextSeqNum)];
    }

    method QueuePop(i: nat)
      requires i < |queue|
      modifies this`queue
      ensures queue == old(queue[..i] + queue[i + 1..])
    {
      queue := queue[..i] + queue[i + 1..];
    }

    /** A request carries its amount in 16 bits. */
    method SendRetransmitRequest(fromSeqno: nat, needTotal: int, sent: bool) returns (ok: bool)
      modifies this`requests
      ensures ok == sent && (old(Valid()) ==> Valid())
      ensures requests == if sent then old(requests) + [Request(fromSeqno, needTotal % 0x1_0000)] else old(requests)
    {
      if sent {
        requests := requests + [Request(fromSeqno, needTotal % 0x1_0000)];
      }
      ok := sent;
    }

    /** Hands on one queued packet that reaches the expected number. */
    method DeliverQueued(aMsg: QueuedMessage)
      requires Valid() && Holds(stream, aMsg) && aMsg.seqNum <= seqNo
      modifies this`seqNo, this`delivered
      ensures seqNo == if aMsg.nextSeqNum > old(seqNo) then aMsg.nextSeqNum else old(seqNo)
      ensures seqNo <= |stream| + 1
      ensures delivered == old(delivered) + stream[old(seqNo) - 1..seqNo - 1]
    {
      ghost var p := SliceOf(stream, HeaderRange(aMsg.msg));
      if aMsg.seqNum == seqNo {
        var _ := Parse2(aMsg.msg, p);
      } else if seqNo > aMsg.seqNum && seqNo < aMsg.nextSeqNum {
        DeliverPartial(aMsg, p);
        assert p.msgs[old(seqNo) - p.seqNum..] == stream[old(seqNo) - 1..seqNo - 1];
      }
    }

    /** Hands on the queue's entry `i`, as far as it is new, and takes it out. */
    method DrainEntry(i: nat, ghost s0: State)
      requires Valid() && i < |queue| && queue[i].seqNum <= seqNo
      requires DrainedSoFar(stream, s0, Abs())
      modifies this`seqNo, this`delivered, this`queue
      ensures Valid() && DrainedSoFar(stream, s0, Abs()) && |queue| < old(|queue|)
    {
      hide Draining, DrainedSoFar, IsPacket;
      ghost var s := Abs();
      DeliverQueued(queue[i]);
      QueuePop(i);
      assert QueueRanges(queue) == s.queue[..i] + s.queue[i + 1..];
      DrainStep(stream, s0, s, i, Abs());
    }

    /** The gap up to `end` is being filled. */
    method EnterRetransmit(end: nat)
      requires Valid()
      modifies this`inRetransmit, this`recoverySeqno, this`recoveryEnd
      ensures Valid() && Abs() == old(Abs()).(inRetransmit := true, recoverySeqno := seqNo, recoveryEnd := end)
    {
      hide IsSlice, Holds;
      inRetransmit := true;
      recoverySeqno := seqNo;
      recoveryEnd := end;
    }

    /** The queue begins, at entry `i`, beyond a gap: ask for the gap and wait for it. */
    method AskForGap(i: nat, requestOk: bool)
      requires Valid() && i < |queue| && queue[i].seqNum > seqNo
      requires forall j :: 0 <= j < |queue| ==> queue[i].seqNum <= queue[j].seqNum
      modifies this`requests, this`inRetransmit, this`recoverySeqno, this`recoveryEnd
      ensures Valid() && Abs() == AskNext(old(Abs()), requestOk)
    {
      hide IsSlice, Holds;
      ghost var q := QueueRanges(queue);
      assert LeastSeq(q) == queue[i].seqNum by {
        LeastSeqIsLeast(q);
        assert q[i].seqNum == queue[i].seqNum;
      }
      var aMsg := queue[i];
      var ok := SendRetransmitRequest(seqNo, aMsg.seqNum - seqNo, requestOk);
      if ok {
        EnterRetransmit(aMsg.seqNum - 1);
      } else {
        inRetransmit := false;
      }
    }

    /** Drains the queue until it is empty or begins, at the entry returned, with a gap. */
    method DrainQueue() returns (i: nat)
      requires Valid()
      modifies this`seqNo, this`delivered, this`queue, this`inRefresh
      ensures Valid() && Abs() == Emptied(stream, old(Abs()))
      ensures queue != [] ==> i < |queue| && queue[i].seqNum > seqNo
      ensures forall j :: 0 <= j < |queue| ==> queue[i].seqNum <= queue[j].seqNum
    {
      hide IsSlice, Holds, DrainedSoFar, Emptied;
      EmptiedFromRefresh(stream, Abs());
      inRefresh := false;
      ghost var s0 := Abs();
      DrainStarts(stream, s0);
      i := 0;
      while queue != []
        invariant Valid() && DrainedSoFar(stream, s0, Abs())
        decreases |queue|
      {
        i := QueueTop();
        if queue[i].seqNum > seqNo {
          break;
        }
        DrainEntry(i, s0);
      }
      DrainFinished(stream, s0, Abs());
    }

    /** Drains the queue, and asks for the gap that stopped the drain, if one did. */
    method ProcessMdq(requestOk: bool)
      requires Valid()
      modifies this
      ensures Valid() && Abs() == Drained(stream, old(Abs()), requestOk)
    {
      var i := DrainQueue();
      if queue != [] {
        AskForGap(i, requestOk);
      } else {
        inRetransmit := false;
      }
    }

    // ----- The snapshot session -----

    method SendTcpLogout(sent: bool) returns (ok: bool)
      requires Valid()
      modifies this`snapshotOn
      ensures Abs() == Logout(old(Abs()), sent)
      ensures ok == (old(snapshotOn) && socketOpen && sent)
    {
      if !snapshotOn || !socketOpen || !sent {
        return false;
      }
      snapshotOn := false;
      return true;
    }

    method ProcessSnapshotReject(env: Env)
      requires Valid()
      modifies this
      ensures Valid() && Abs() == Reject(stream, old(Abs()), env)
    {
      if socketOpen {
        var _ := SendTcpLogout(env.logoutOk);
      }
      inRefresh := false;
      refreshRejected := true;
      ProcessMdq(env.requestOk);
    }

    method EstablishRefreshConnection(connected: bool) returns (ok: bool)
      requires Valid()
      modifies this`snapshotOn, this`socketOpen
      ensures Abs() == Connect(old(Abs()), connected) && ok == socketOpen
    {
      if socketOpen {
        return true;
      }
      snapshotOn := false;
      socketOpen := connected;
      return connected;
    }

    method SendSnapshotLogin(sent: bool) returns (ok: bool)
      requires Valid()
      modifies this`snapshotOn, this`inRefresh
      ensures Abs() == Login(old(Abs()), sent) && ok == LoginWorks(old(Abs()), sent)
      ensures ok <==> !refreshRejected && (old(snapshotOn) || (socketOpen && sent))
      ensures ok ==> snapshotOn && (inRefresh || old(snapshotOn))
      ensures !ok ==> snapshotOn == old(snapshotOn) && inRefresh == old(inRefresh)
    {
      if refreshRejected {
        return false;
      }
      if snapshotOn {
        return true;
      }
      if !socketOpen || !sent {
        return false;
      }
      snapshotOn := true;
      inRefresh := true;
      return true;
    }

    method TryConnectSnapshot(env: Env)
      requires Valid()
      modifies this
      ensures Valid() && Abs() == TryConnect(stream, old(Abs()), env)
    {
      if refreshRejected {
        return;
      }
      var connected := EstablishRefreshConnection(env.connectOk);
      if !connected {
        if |queue| > 5 {
          ProcessSnapshotReject(env);
        }
        return;
      }
      var loggedIn := SendSnapshotLogin(env.loginOk);
      if loggedIn {
        inRefresh := true;
        snapshotTimeout := env.now + LOGIN_TIMEOUT;
      }
    }

    // ----- Events -----

    /** `buffer` begins with a packet of the stream that takes its first `len` bytes. */
    ghost predicate PacketIn(buffer: seq<byte>, len: nat, r: Range) {
      && HEADER <= len <= |buffer|
      && SeqNum(buffer) == r.seqNum && SeqNum(buffer) + MessageCount(buffer) == r.next
      && Holds(stream, QueuedMessage(r.seqNum, r.next, buffer[..len]))
      && len == WireLength(stream, r)
    }

    /** One UDP packet, perhaps followed by other bytes in the buffer. */
    method Parse(buffer: seq<byte>, env: Env) returns (consumed: nat)
      requires Valid() && |buffer| >= HEADER
      requires SeqNum(buffer) < 1 || Carries(stream, buffer)
      modifies this
      ensures Valid() && Abs() == Udp(stream, old(Abs()), HeaderRange(buffer), env)
      ensures consumed == if SeqNum(buffer) < 1 then |buffer| else if old(dropPackets) > 0 then 0
                          else if SeqNum(buffer) < old(seqNo) then |buffer| else WireLength(stream, HeaderRange(buffer))
    {
      hide ByMode, AtFirstMessage;
      var seqNum := SeqNum(buffer);
      var messageCount := MessageCount(buffer);
      if seqNum < 1 {
        return |buffer|;
      }
      if dropPackets > 0 {
        dropPackets := dropPackets - 1;
        return 0;
      }
      if seqNum < seqNo {
        return |buffer|;
      }
      var returnLen := Measure(buffer, messageCount);
      var nextSeqNum := seqNum + messageCount;
      if seqNo == 1 && seqNum > 1 && inRefresh && snapshotTimeout == 0 {
        Enqueue(seqNum, nextSeqNum, buffer, returnLen);
        TryConnectSnapshot(env);
        return returnLen;
      }
      FirstMessage(seqNum, nextSeqNum);
      consumed := ParseByMode(buffer, returnLen, env);
    }

    /** How much of the buffer the packet takes. */
    method Measure(buffer: seq<byte>, messageCount: nat) returns (len: nat)
      requires Valid() && Carries(stream, buffer)
      ensures PacketIn(buffer, len, HeaderRange(buffer))
    {
      ghost var p := SliceOf(stream, HeaderRange(buffer));
      var realCount;
      len, realCount := GetItchPacketLength(buffer, messageCount, p);
      IsPacketTrimmed(buffer, p);
    }

    method FirstMessage(seqNum: nat, ghost nextSeqNum: nat)
      requires Valid()
      modifies this`inRefresh, this`refreshRejected
      ensures Valid() && Abs() == AtFirstMessage(old(Abs()), Range(seqNum, nextSeqNum))
    {
      if seqNo == 1 && seqNum == 1 {
        if !socketOpen {
          inRefresh := false;
        }
        refreshRejected := true;
      }
    }

    method ParseByMode(buffer: seq<byte>, returnLen: nat, env: Env) returns (consumed: nat)
      requires Valid() && |buffer| >= HEADER && PacketIn(buffer, returnLen, HeaderRange(buffer))
      requires SeqNum(buffer) >= seqNo
      modifies this
      ensures Valid() && Abs() == ByMode(stream, old(Abs()), HeaderRange(buffer), env) && consumed == returnLen
    {
      var seqNum := SeqNum(buffer);
      if inRefresh {
        consumed := ParseInRefresh(buffer, returnLen, env);
        return;
      } else if inRetransmit {
        if seqNum > seqNo {
          consumed := ParseEarly(buffer, returnLen, env);
          return;
        }
      } else if seqNo <= 1 {
        seqNo := seqNum;
      }
      if seqNum > seqNo {
        consumed := ParseBeyondGap(buffer, returnLen, env);
      } else {
        consumed := ParseInSync(buffer, returnLen, env);
      }
    }

    method ParseInRefresh(buffer: seq<byte>, returnLen: nat, env: Env) returns (consumed: nat)
      requires Valid() && |buffer| >= HEADER && PacketIn(buffer, returnLen, HeaderRange(buffer))
      modifies this
      ensures Valid() && Abs() == Refreshing(stream, old(Abs()), HeaderRange(buffer), env) && consumed == returnLen
    {
      inRetransmit := false;
      Enqueue(SeqNum(buffer), SeqNum(buffer) + MessageCount(buffer), buffer, returnLen);
      if snapshotTimeout < env.now {
        ProcessSnapshotReject(env);
      }
      return returnLen;
    }

    method ParseEarly(buffer: seq<byte>, returnLen: nat, env: Env) returns (consumed: nat)
      requires Valid() && |buffer| >= HEADER && PacketIn(buffer, returnLen, HeaderRange(buffer))
      modifies this`queue, this`requests
      ensures Valid() && Abs() == Early(old(Abs()), HeaderRange(buffer), env) && consumed == returnLen
    {
      if SeqNum(buffer) > recoveryEnd + 1 {
        Enqueue(SeqNum(buffer), SeqNum(buffer) + MessageCount(buffer), buffer, returnLen);
        return returnLen;
      }
      var _ := SendRetransmitRequest(seqNo, recoveryEnd - seqNo + 1, env.requestOk);
      return returnLen;
    }

    method ParseBeyondGap(buffer: seq<byte>, returnLen: nat, env: Env) returns (consumed: nat)
      requires Valid() && |buffer| >= HEADER && PacketIn(buffer, returnLen, HeaderRange(buffer))
      requires SeqNum(buffer) > seqNo
      modifies this`queue, this`requests, this`inRetransmit, this`recoverySeqno, this`recoveryEnd
      ensures Valid() && Abs() == Gap(old(Abs()), HeaderRange(buffer), env) && consumed == returnLen
    {
      hide IsSlice, Holds, Carries;
      var seqNum := SeqNum(buffer);
      var ok := SendRetransmitRequest(seqNo, seqNum - seqNo, env.requestOk);
      if ok {
        EnterRetransmit(seqNum - 1);
        Enqueue(seqNum, seqNum + MessageCount(buffer), buffer, returnLen);
      }
      return returnLen;
    }

    method ParseInSync(buffer: seq<byte>, returnLen: nat, env: Env) returns (consumed: nat)
      requires Valid() && |buffer| >= HEADER && PacketIn(buffer, returnLen, HeaderRange(buffer))
      requires SeqNum(buffer) == seqNo
      modifies this
      ensures Valid() && Abs() == InSync(stream, old(Abs()), HeaderRange(buffer), env) && consumed == returnLen
    {
      var messageCount := MessageCount(buffer);
      if messageCount == 0 || messageCount == END_OF_SESSION {
        return returnLen;
      }
      consumed := HandOn(buffer, returnLen);
      if inRetransmit && seqNo > recoveryEnd {
        inRetransmit := false;
        recoveryEnd := 0;
        ProcessMdq(env.requestOk);
      }
    }

    method HandOn(buffer: seq<byte>, returnLen: nat) returns (parsedLen: int)
      requires Valid() && |buffer| >= HEADER && PacketIn(buffer, returnLen, HeaderRange(buffer))
      requires SeqNum(buffer) == seqNo
      modifies this`seqNo, this`delivered
      ensures Valid() && Abs() == Deliver(stream, old(Abs()), HeaderRange(buffer).next) && parsedLen == returnLen
    {
      ghost var p := SliceOf(stream, HeaderRange(buffer));
      parsedLen := Parse2(buffer[..returnLen], p);
      seqNo := SeqNum(buffer) + MessageCount(buffer);
      assert p.msgs[0..] == p.msgs;
    }

    /** One SoupBinTCP frame of the snapshot session. */
    method ExecuteTcpData(f: TcpFrame, env: Env)
      requires Valid() && Possible(stream, Abs(), FrameEvent(f, env))
      requires f.SequencedData? ==> 0 < |f.m| <= SNAPSHOT_BUFFER - HEADER - 2 && f.m[0] != MESSAGE_TYPE_G
      requires snapshotMsgReceived + 1 < Pow256(8)
      modifies this
      ensures Valid() && Abs() == Step(stream, old(Abs()), FrameEvent(f, env))
    {
      match f
      case LoginAccept(seqno) => AcceptLogin(seqno, env.now);
      case LoginReject =>
        snapshotOn := true;
        ProcessSnapshotReject(env);
      case SequencedData(m) => TakeSnapshotMessage(m);
      case SnapshotComplete(n) => CompleteSnapshot(n, env);
      case Other => snapshotOn := true;
    }

    method AcceptLogin(seqno: nat, now: nat)
      requires Valid() && 1 <= seqno <= |stream| + 1
      modifies this`snapshotOn, this`seqNo, this`receivedRefreshStart, this`snapshotTimeout
      ensures Valid() && Abs() == Accept(old(Abs()), seqno, now)
    {
      snapshotOn := true;
      seqNo := seqno;
      receivedRefreshStart := true;
      snapshotTimeout := now + ACCEPT_TIMEOUT;
    }

    /** A snapshot message is wrapped as a one-message packet and handed to the packet parser. */
    method TakeSnapshotMessage(m: Message)
      requires Valid() && seqNo <= |stream|
      requires 0 < |m| <= SNAPSHOT_BUFFER - HEADER - 2
      requires snapshotMsgReceived + 1 < Pow256(8)
      modifies this`snapshotOn, this`snapshotMsgReceived, this`seqNo, this`delivered
      ensures Valid() && Abs() == SnapshotMessage(old(Abs()), m)
    {
      hide IsPacket, Pow256;
      snapshotOn := true;
      snapshotMsgReceived := snapshotMsgReceived + 1;
      var newMsg := WrapMessage(snapshotMsgReceived, m);
      ParseOne(newMsg, snapshotMsgReceived, m);
    }

    method ParseOne(buf: seq<byte>, number: nat, ghost m: Message)
      requires IsPacket(buf, Packet(number, [m]))
      modifies this`seqNo, this`delivered
      ensures seqNo == if number < old(seqNo) then old(seqNo) else old(seqNo) + 1
      ensures delivered == if number < old(seqNo) then old(delivered) else old(delivered) + [m]
    {
      var _ := Parse2(buf, Packet(number, [m]));
    }

    static method WrapMessage(number: nat, m: Message) returns (newMsg: seq<byte>)
      requires number < Pow256(8) && |m| <= SNAPSHOT_BUFFER - HEADER - 2
      ensures IsPacket(newMsg, Packet(number, [m])) && |newMsg| == 22 + |m| <= 360
    {
      var p := Packet(number, [m]);
      var session: seq<byte> := seq(SESSION, _ => 32);
      newMsg := EncodePacket(session, p);
      assert newMsg + [] == newMsg;
      PacketRoundTrip(session, p, []);
      IsPacketIffDecodes(newMsg, p);
    }

    method CompleteSnapshot(n: nat, env: Env)
      requires Valid() && n <= |stream| + 1
      modifies this
      ensures Valid() && Abs() == EndOfSnapshot(stream, old(Abs()), n, env)
    {
      LeaveSnapshot(n, env.logoutOk);
      ProcessMdq(env.requestOk);
    }

    method LeaveSnapshot(n: nat, logoutOk: bool)
      requires Valid() && n <= |stream| + 1
      modifies this`snapshotOn, this`seqNo, this`inRefresh, this`refreshRejected
      ensures Valid() && Abs() == AtMarker(old(Abs()), n, logoutOk)
    {
      hide IsSlice, Holds, QueueRanges;
      snapshotOn := true;
      var _ := SendTcpLogout(logoutOk);
      seqNo := if n > 0 then n else 1;
      inRefresh := false;
      refreshRejected := true;
    }

    /** The dispatcher woke up without data for this channel. */
    method ReadNothing(env: Env)
      requires Valid()
      modifies this
      ensures Valid() && Abs() == Tick(stream, old(Abs()), env)
    {
      if inRefresh && snapshotTimeout > 0 && env.now > snapshotTimeout {
        ProcessSnapshotReject(env);
        return;
      }
      if !snapshotOn {
        if refreshRejected {
          return;
        }
        if socketOpen {
          var _ := SendSnapshotLogin(env.loginOk);
        }
      }
    }

    /** The dispatcher reports the snapshot connection closed. */
    method ReadClosed(env: Env)
      requires Valid()
      modifies this
      ensures Valid() && Abs() == Closed(stream, old(Abs()), env)
    {
      socketOpen := false;
      TryConnectSnapshot(env);
    }

    /** An operator asks for the next packets to be thrown away. */
    method DropPackets(count: nat)
      requires Valid()
      modifies this`dropPackets
      ensures Valid() && Abs() == old(Abs()).(dropPackets := count)
    {
      dropPackets := count;
    }
  }
}
