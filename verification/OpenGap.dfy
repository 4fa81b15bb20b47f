/** A client that waits for a gap to be filled, while packets of any kind keep coming: late, early, repeated,
    from either line or from the retransmission server.  Whether it gets out is decided by their numbers alone. */
module OpenGap {
  import opened Mold
  import opened Ranges
  import opened Recovery
  import opened RecoveryLaws
  import opened RecoveryTheorems
  import opened Retransmission

  predicate Packets(stream: seq<Message>, es: seq<Event>) {
    forall i :: 0 <= i < |es| ==> es[i].Datagram? && Arrives(stream, es[i].p)
  }

  /** Only a packet that starts at the expected number gets the client on. */
  function Next(n: nat, p: Range): (m: nat)
    ensures m >= n
  {
    if p.seqNum == n && p.next > n then p.next else n
  }

  function Walk(n: nat, es: seq<Event>): (m: nat)
    requires forall i :: 0 <= i < |es| ==> es[i].Datagram?
    ensures m >= n
    decreases |es|
  {
    if es == [] then n else Walk(Next(n, es[0].p), es[1..])
  }

  /** What a packet leaves in the queue of a client whose gap ends at `end`. */
  function Waits(end: nat, p: Range): seq<Range> {
    if p.seqNum > end + 1 then [p] else []
  }

  /** A packet ahead of the expected number but not beyond the gap makes the client ask again. */
  function AsksAgain(n: nat, end: nat, p: Range, ok: bool): seq<Request> {
    if n < p.seqNum <= end + 1 && ok then [Request(n, (end - n + 1) % 0x1_0000)] else []
  }

  function Waiting(end: nat, es: seq<Event>): seq<Range>
    requires forall i :: 0 <= i < |es| ==> es[i].Datagram?
    decreases |es|
  {
    if es == [] then [] else Waits(end, es[0].p) + Waiting(end, es[1..])
  }

  function AskedAgain(n: nat, end: nat, es: seq<Event>): seq<Request>
    requires forall i :: 0 <= i < |es| ==> es[i].Datagram?
    decreases |es|
  {
    if es == [] then []
    else AsksAgain(n, end, es[0].p, es[0].env.requestOk) + AskedAgain(Next(n, es[0].p), end, es[1..])
  }

  /** The client in its gap, `m` expected next, with more packets queued and more requests sent. */
  function Further(stream: seq<Message>, s: State, m: nat, waiting: seq<Range>, asked: seq<Request>): State
    requires 1 <= s.seqNo <= m <= |stream| + 1
  {
    Deliver(stream, s, m).(queue := s.queue + waiting, requests := s.requests + asked)
  }

  /** A client in a gap, ready for packets. */
  predicate Open(stream: seq<Message>, s: State) {
    Sound(stream, s) && Modes(s) && s.inRetransmit && s.dropPackets == 0
  }

  /** The packet behind the gap is queued, so the gap lies inside the stream. */
  lemma GapInStream(stream: seq<Message>, s: State)
    requires Sound(stream, s) && Modes(s) && s.inRetransmit
    ensures s.seqNo <= s.recoveryEnd <= |stream|
  {
    var i :| 0 <= i < |s.queue| && s.queue[i].seqNum == s.recoveryEnd + 1;
    assert IsSlice(stream, s.queue[i]);
  }

  lemma DeliverNothing(stream: seq<Message>, s: State)
    requires 1 <= s.seqNo <= |stream| + 1
    ensures Deliver(stream, s, s.seqNo) == s
  {
    assert s.delivered + stream[s.seqNo - 1..s.seqNo - 1] == s.delivered;
  }

  lemma DeliverTwice(stream: seq<Message>, s: State, m: nat, n: nat)
    requires 1 <= s.seqNo <= m <= n <= |stream| + 1
    ensures Deliver(stream, Deliver(stream, s, m), n) == Deliver(stream, s, n)
  {
    assert stream[s.seqNo - 1..n - 1] == stream[s.seqNo - 1..m - 1] + stream[m - 1..n - 1];
  }

  lemma FurtherTwice(stream: seq<Message>, s: State, m: nat, w: seq<Range>, a: seq<Request>,
                     n: nat, w': seq<Range>, a': seq<Request>)
    requires 1 <= s.seqNo <= m <= n <= |stream| + 1
    ensures Further(stream, Further(stream, s, m, w, a), n, w', a') == Further(stream, s, n, w + w', a + a')
  {
    DeliverTwice(stream, s, m, n);
    assert s.queue + w + w' == s.queue + (w + w');
    assert s.requests + a + a' == s.requests + (a + a');
  }

  /** One packet that leaves the gap open. */
  lemma OpenStep(stream: seq<Message>, s: State, p: Range, env: Env)
    requires Open(stream, s) && Arrives(stream, p) && Next(s.seqNo, p) <= s.recoveryEnd <= |stream|
    ensures Udp(stream, s, p, env) == Further(stream, s, Next(s.seqNo, p), Waits(s.recoveryEnd, p),
                                              AsksAgain(s.seqNo, s.recoveryEnd, p, env.requestOk))
  {
    DeliverNothing(stream, s);
    assert s.queue + [] == s.queue && s.requests + [] == s.requests;
    if p.seqNum == s.seqNo {
      ExpectedPacket(stream, s, p, env);
    }
  }

  /** As long as the walk stays in the gap, this is all that happens: messages in order, packets beyond the
      gap queued, requests repeated. */
  lemma {:induction false} StaysOpen(stream: seq<Message>, s: State, es: seq<Event>)
    requires Open(stream, s) && Packets(stream, es) && Walk(s.seqNo, es) <= s.recoveryEnd <= |stream|
    ensures Admissible(stream, s, es, false)
    ensures Run(stream, s, es, false) == Further(stream, s, Walk(s.seqNo, es), Waiting(s.recoveryEnd, es),
                                                 AskedAgain(s.seqNo, s.recoveryEnd, es))
    decreases |es|
  {
    hide Udp, Modes;
    if es == [] {
      DeliverNothing(stream, s);
    } else {
      var p, env, rest := es[0].p, es[0].env, es[1..];
      var m, w, a := Next(s.seqNo, p), Waits(s.recoveryEnd, p), AsksAgain(s.seqNo, s.recoveryEnd, p, env.requestOk);
      OpenStep(stream, s, p, env);
      UdpModes(stream, s, p, env);
      StaysOpen(stream, Udp(stream, s, p, env), rest);
      FurtherTwice(stream, s, m, w, a, Walk(m, rest), Waiting(s.recoveryEnd, rest), AskedAgain(m, s.recoveryEnd, rest));
    }
  }

  /** Out of refresh, and past the start of the day or in a gap, a packet only ever gets the client forward. */
  lemma UdpForward(stream: seq<Message>, s: State, p: Range, env: Env)
    requires Sound(stream, s) && Arrives(stream, p) && Modes(s) && !s.inRefresh && (s.inRetransmit || s.seqNo > 1)
    ensures var r := Udp(stream, s, p, env);
      && Forward(stream, s, r) && Modes(r) && !r.inRefresh && (r.inRetransmit || r.seqNo > 1)
    ensures s.dropPackets == 0 ==> Udp(stream, s, p, env).seqNo >= Next(s.seqNo, p)
  {
    hide Drained;
    UdpModes(stream, s, p, env);
    DeliverNothing(stream, s);
    if p.seqNum >= 1 && s.dropPackets == 0 && p.seqNum == s.seqNo {
      InSyncForward(stream, AtFirstMessage(s, p), p, env);
    }
  }

  lemma {:induction false} RunForward(stream: seq<Message>, s: State, es: seq<Event>)
    requires Sound(stream, s) && Packets(stream, es) && Modes(s) && !s.inRefresh && (s.inRetransmit || s.seqNo > 1)
    ensures Admissible(stream, s, es, false) && Forward(stream, s, Run(stream, s, es, false))
    decreases |es|
  {
    hide Udp, Modes, Forward;
    if es == [] {
      ForwardNothing(stream, s);
    } else {
      var t := Udp(stream, s, es[0].p, es[0].env);
      UdpForward(stream, s, es[0].p, es[0].env);
      RunForward(stream, t, es[1..]);
      ForwardTransitive(stream, s, t, Run(stream, t, es[1..], false));
    }
  }

  lemma ForwardNothing(stream: seq<Message>, s: State)
    requires Sound(stream, s)
    ensures Forward(stream, s, s)
  {
    DeliverNothing(stream, s);
  }

  lemma ForwardIsUp(stream: seq<Message>, s: State, r: State)
    requires Forward(stream, s, r)
    ensures s.seqNo <= r.seqNo
  {
  }

  /** Whatever packets come, delivery goes forward without repeat or hole, and the client gets out of its gap
      if and only if the walk over their numbers does. */
  lemma {:induction false} GapClosesIff(stream: seq<Message>, s: State, es: seq<Event>)
    requires Open(stream, s) && Packets(stream, es)
    ensures Admissible(stream, s, es, false)
    ensures var r := Run(stream, s, es, false);
      Forward(stream, s, r) && (r.seqNo > s.recoveryEnd <==> Walk(s.seqNo, es) > s.recoveryEnd)
    decreases |es|
  {
    hide Udp, Forward, Further, Modes;
    GapInStream(stream, s);
    RunForward(stream, s, es) by { OpenIsLive(stream, s); }
    if es != [] {
      var p, env, rest := es[0].p, es[0].env, es[1..];
      var t := Udp(stream, s, p, env);
      UdpModes(stream, s, p, env);
      if Next(s.seqNo, p) <= s.recoveryEnd {
        OpenStep(stream, s, p, env);
        FurtherIsOpen(stream, s, Next(s.seqNo, p), Waits(s.recoveryEnd, p), AsksAgain(s.seqNo, s.recoveryEnd, p, env.requestOk));
        GapClosesIff(stream, t, rest);
      } else {
        OpenIsLive(stream, s);
        UdpForward(stream, s, p, env);
        RunForward(stream, t, rest);
        ForwardIsUp(stream, t, Run(stream, t, rest, false));
      }
    }
  }

  lemma OpenIsLive(stream: seq<Message>, s: State)
    requires Open(stream, s)
    ensures Modes(s) && !s.inRefresh && s.inRetransmit
  {
  }

  lemma FurtherIsOpen(stream: seq<Message>, s: State, m: nat, w: seq<Range>, a: seq<Request>)
    requires 1 <= s.seqNo <= m <= |stream| + 1
    ensures var r := Further(stream, s, m, w, a);
      r.seqNo == m && r.recoveryEnd == s.recoveryEnd && r.inRetransmit == s.inRetransmit && r.dropPackets == s.dropPackets
  {
  }

  // ----- Replies amid other traffic -----

  /** A packet that starts at a cut in the gap ends at one, or beyond the gap; others may be anything. */
  predicate EndsOnCut(cuts: seq<nat>, end: nat, p: Range) {
    p.seqNum in cuts && p.seqNum <= end ==> p.next in cuts || p.next > end
  }

  predicate KeepToCuts(cuts: seq<nat>, end: nat, es: seq<Event>) {
    forall i :: 0 <= i < |es| ==> es[i].Datagram? && EndsOnCut(cuts, end, es[i].p)
  }

  lemma StandsOnOrBehind(cuts: seq<nat>, end: nat, k: nat, n: nat)
    requires Ascending(cuts) && k + 1 < |cuts| && cuts[|cuts| - 1] == end + 1
    requires n > cuts[k] && (n in cuts || n > end)
    ensures n >= cuts[k + 1]
  {
    if n in cuts {
      var i :| 0 <= i < |cuts| && cuts[i] == n;
      assert i > k;
    }
  }

  /** Replies from cut to cut, in order among other packets that keep to the cuts, take the walk along. */
  lemma {:induction false} WalkKeepsUp(cuts: seq<nat>, end: nat, k: nat, n: nat, es: seq<Event>)
    requires Ascending(cuts) && k < |cuts| && cuts[|cuts| - 1] == end + 1
    requires KeepToCuts(cuts, end, es)
    requires cuts[k] <= n && (n in cuts || n > end)
    ensures Walk(n, es) >= cuts[Progress(cuts, k, es)]
    decreases |es|
  {
    if es != [] {
      var p := es[0].p;
      var carried := k + 1 < |cuts| && p == Range(cuts[k], cuts[k + 1]);
      assert EndsOnCut(cuts, end, p);
      if carried && n > cuts[k] {
        StandsOnOrBehind(cuts, end, k, n);
      }
      if k + 1 < |cuts| {
        WalkKeepsUp(cuts, end, if carried then k + 1 else k, Next(n, p), es[1..]);
      }
    }
  }

  /** So a gap is filled amid live traffic, if the replies to it come in order and what else starts at one of
      their cuts keeps to the cuts. */
  lemma GapClosesAmidTraffic(stream: seq<Message>, s: State, cuts: seq<nat>, es: seq<Event>)
    requires Open(stream, s) && Packets(stream, es)
    requires cuts != [] && Ascending(cuts) && cuts[0] == s.seqNo && cuts[|cuts| - 1] == s.recoveryEnd + 1
    requires KeepToCuts(cuts, s.recoveryEnd, es)
    requires Progress(cuts, 0, es) == |cuts| - 1
    ensures Admissible(stream, s, es, false)
    ensures var r := Run(stream, s, es, false); Forward(stream, s, r) && r.seqNo > s.recoveryEnd
  {
    hide Run, Admissible, Progress;
    WalkKeepsUp(cuts, s.recoveryEnd, 0, s.seqNo, es);
    GapClosesIff(stream, s, es);
  }

  /** Why they have to: replies [11, 30) and [30, 31) to a gap [11, 30] are both lost on a client that a late
      packet [11, 21) got to 21. */
  lemma LatePacketStallsGap(env: Env)
    ensures var replies := [Datagram(Range(11, 30), env), Datagram(Range(30, 31), env)];
      && Walk(11, replies) == 31
      && Walk(11, [Datagram(Range(11, 21), env)] + replies) == 21
  {
    var a, b, c := Datagram(Range(11, 21), env), Datagram(Range(11, 30), env), Datagram(Range(30, 31), env);
    assert [b, c][1..] == [c] && [c][1..] == [];
    assert ([a] + [b, c])[1..] == [b, c];
    assert Walk(30, [c]) == 31 && Walk(21, [c]) == 21;
  }
}
