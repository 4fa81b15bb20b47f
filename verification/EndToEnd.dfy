/** Client and server together: a gap is asked for, retransmitted, and closed. */
module EndToEnd {
  import opened Bytes
  import opened Mold
  import opened Ranges
  import opened Recovery
  import opened RecoveryLaws
  import opened RecoveryTheorems
  import opened OpenGap
  import opened Retransmission
  import opened RetransmissionServer
  import opened Client

  /** The server's packets as they arrive at the client. */
  function Feed(ps: seq<Packet>, env: Env): (es: seq<Event>)
    ensures |es| == |ps|
    ensures forall i :: 0 <= i < |ps| ==> es[i] == Datagram(Range(ps[i].seqNum, ps[i].Next()), env)
  {
    seq(|ps|, i requires 0 <= i < |ps| => Datagram(Range(ps[i].seqNum, ps[i].Next()), env))
  }

  lemma {:induction false} FeedIsChain(stream: seq<Message>, ps: seq<Packet>, env: Env, a: nat, end: nat)
    requires ps != [] && Contiguous(ps, a, end + 1) && AllSlices(stream, ps)
    requires forall i :: 0 <= i < |ps| - 1 ==> ps[i].Next() <= end
    requires a <= end
    ensures Chain(stream, Feed(ps, env), a, end + 1)
    decreases |ps|
  {
    assert IsSliceOf(stream, ps[0]);
    var es := Feed(ps, env);
    if |ps| == 1 {
      assert ps[1..] == [];
    } else {
      assert AllSlices(stream, ps[1..]) by {
        forall i | 0 <= i < |ps[1..]| ensures IsSliceOf(stream, ps[1..][i]) {
          assert IsSliceOf(stream, ps[i + 1]);
        }
      }
      FeedIsChain(stream, ps[1..], env, ps[0].Next(), end);
      assert es[1..] == Feed(ps[1..], env);
    }
  }

  // ----- Request and answer -----

  /** A request inside the message list of a server with these packet boundaries. */
  predicate Servable(stream: seq<Message>, packs: seq<nat>, q: Request) {
    Ascending(packs) && 1 <= q.from && q.from + q.amount <= |stream| + 1
  }

  /** The server's plan for a request. */
  function Plan(stream: seq<Message>, packs: seq<nat>, q: Request): (list: seq<nat>)
    requires Servable(stream, packs, q) && q.amount > 0
    ensures Ready(stream, list, q.from + q.amount - 1)
    ensures list != [] ==> list[0] == q.from
  {
    RecoveryListReady(stream, packs, q.from, q.from + q.amount - 1);
    RecoveryList(packs, q.from, q.from + q.amount - 1)
  }

  /** The packets the server sends for a request; none for the amount 0. */
  function Answer(stream: seq<Message>, packs: seq<nat>, q: Request): seq<Packet>
    requires Servable(stream, packs, q)
  {
    if q.amount == 0 then [] else Emitted(stream, Plan(stream, packs, q), q.from + q.amount - 1)
  }

  /** Where the answer ends. */
  function AnswerEnd(stream: seq<Message>, packs: seq<nat>, q: Request): nat
    requires Servable(stream, packs, q)
  {
    if q.amount == 0 || Plan(stream, packs, q) == [] then q.from
    else Stop(stream, Plan(stream, packs, q), q.from + q.amount - 1)
  }

  /** What makes an answer complete: something is asked for, a packet boundary lies at or after its start, and
      from each boundary selected enough packets are left for what follows. */
  predicate Answerable(stream: seq<Message>, packs: seq<nat>, q: Request)
    requires Servable(stream, packs, q)
  {
    && q.amount > 0
    && (exists j :: 0 <= j < |packs| && packs[j] >= q.from)
    && Reaches(stream, Plan(stream, packs, q), q.from + q.amount - 1, q.from + q.amount)
  }

  lemma AnswerIsContiguous(stream: seq<Message>, packs: seq<nat>, q: Request)
    requires Servable(stream, packs, q)
    ensures var ps := Answer(stream, packs, q); var b := AnswerEnd(stream, packs, q);
      && q.from <= b <= q.from + q.amount
      && Contiguous(ps, q.from, b) && AllSlices(stream, ps)
      && (forall i :: 0 <= i < |ps| - 1 ==> ps[i].Next() < q.from + q.amount)
      && (q.amount > 0 ==> (b == q.from + q.amount <==> Answerable(stream, packs, q)))
  {
    hide Ready, Reaches, Stop, Emitted, RecoveryList;
    if q.amount > 0 {
      var list, end := Plan(stream, packs, q), q.from + q.amount - 1;
      PlanEmpty(stream, packs, q);
      if list == [] {
        NothingEmitted(stream, end);
      } else {
        EmittedContiguous(stream, list, end);
        EmittedSlices(stream, list, end);
        EmittedWithin(stream, list, end);
        StopsAt(stream, list, end, end + 1);
      }
    }
  }

  lemma PlanEmpty(stream: seq<Message>, packs: seq<nat>, q: Request)
    requires Servable(stream, packs, q) && q.amount > 0
    ensures Plan(stream, packs, q) == [] <==> forall j :: 0 <= j < |packs| ==> packs[j] < q.from
  {
    SelectedNonEmpty(packs, q.from, q.from + q.amount - 1);
  }

  lemma {:induction false} ContiguousGrows(ps: seq<Packet>, a: nat, b: nat)
    requires Contiguous(ps, a, b)
    ensures a <= b
    decreases |ps|
  {
    if ps != [] {
      ContiguousGrows(ps[1..], ps[0].Next(), b);
    }
  }

  /** Consecutive packets are walked to their end, and none of them waits or makes the client ask again. */
  lemma {:induction false} FeedWalks(ps: seq<Packet>, env: Env, a: nat, b: nat, end: nat)
    requires Contiguous(ps, a, b) && b <= end + 1
    ensures Walk(a, Feed(ps, env)) == b
    ensures Waiting(end, Feed(ps, env)) == [] && AskedAgain(a, end, Feed(ps, env)) == []
    decreases |ps|
  {
    if ps != [] {
      ContiguousGrows(ps, a, b);
      FeedWalks(ps[1..], env, ps[0].Next(), b, end);
      assert Feed(ps, env)[1..] == Feed(ps[1..], env);
    }
  }

  lemma FeedIsPackets(stream: seq<Message>, ps: seq<Packet>, env: Env)
    requires AllSlices(stream, ps)
    ensures Packets(stream, Feed(ps, env))
  {
    forall i | 0 <= i < |ps| ensures Arrives(stream, Feed(ps, env)[i].p) {
      assert IsSliceOf(stream, ps[i]);
    }
  }

  /** A client that has just asked for its gap: the request is for the gap's size in 16 bits, and the server
      can serve it. */
  lemma RequestOfGap(stream: seq<Message>, packs: seq<nat>, s: State)
    requires Open(stream, s) && Asked(s) && LastRequest(s).from == s.seqNo && Ascending(packs)
    ensures s.seqNo <= s.recoveryEnd <= |stream|
    ensures LastRequest(s).amount == (s.recoveryEnd + 1 - s.seqNo) % 0x1_0000
    ensures s.recoveryEnd + 1 - s.seqNo < 0x1_0000 ==> LastRequest(s).from + LastRequest(s).amount == s.recoveryEnd + 1
    ensures Servable(stream, packs, LastRequest(s))
  {
    GapInStream(stream, s);
    hide Open, Ascending;
    SixteenBits(s.recoveryEnd + 1 - s.seqNo);
  }

  // ----- The gap -----

  lemma SixteenBits(gap: nat)
    requires gap > 0
    ensures gap % 0x1_0000 <= gap
    ensures gap % 0x1_0000 == gap <==> gap < 0x1_0000
  {
  }

  /** The same of the gap's request, whichever way it is known. */
  lemma AnswerClosesGap(stream: seq<Message>, packs: seq<nat>, s: State, q: Request, env: Env)
    requires Open(stream, s) && s.seqNo <= s.recoveryEnd <= |stream|
    requires Servable(stream, packs, q) && q == Request(s.seqNo, (s.recoveryEnd + 1 - s.seqNo) % 0x1_0000)
    ensures AnswerEnd(stream, packs, q) <= s.recoveryEnd + 1
    ensures var es := Feed(Answer(stream, packs, q), env);
      && Admissible(stream, s, es, false)
      && var r := Run(stream, s, es, false);
         && (r.seqNo > s.recoveryEnd <==> s.recoveryEnd + 1 - s.seqNo < 0x1_0000 && Answerable(stream, packs, q))
         && (r.seqNo > s.recoveryEnd ==> r == Drained(stream, Filled(stream, s), env.requestOk))
         && (r.seqNo <= s.recoveryEnd ==> r == Deliver(stream, s, AnswerEnd(stream, packs, q)))
  {
    hide Run, Admissible, Answer, AnswerEnd, Answerable, Open, Drained, Filled, Deliver, AllSlices, Contiguous, Feed;
    SixteenBits(s.recoveryEnd + 1 - s.seqNo);
    AnswerIsContiguous(stream, packs, q);
    var ps, b := Answer(stream, packs, q), AnswerEnd(stream, packs, q);
    if b <= s.recoveryEnd {
      FrontOfGap(stream, s, ps, env, b);
    } else {
      WholeGap(stream, s, ps, env);
    }
  }

  /** End to end, for every gap: fed, in order, what the server sends for the client's own request, the client
      gets out of the gap if and only if the gap is below 65536 and the answer is complete.  Then it has
      exactly the missing messages and drains its queue up to the next gap; otherwise it has what was sent
      and goes on waiting, gap and queue as before. */
  lemma GapClosesExactlyWhen(stream: seq<Message>, packs: seq<nat>, s: State, env: Env)
    requires Open(stream, s) && Asked(s) && LastRequest(s).from == s.seqNo && Ascending(packs)
    ensures s.seqNo <= s.recoveryEnd <= |stream| && Servable(stream, packs, LastRequest(s))
    ensures AnswerEnd(stream, packs, LastRequest(s)) <= s.recoveryEnd + 1
    ensures var q := LastRequest(s); var es := Feed(Answer(stream, packs, q), env);
      && Admissible(stream, s, es, false)
      && var r := Run(stream, s, es, false);
         && (r.seqNo > s.recoveryEnd <==> s.recoveryEnd + 1 - s.seqNo < 0x1_0000 && Answerable(stream, packs, q))
         && (r.seqNo > s.recoveryEnd ==> r == Drained(stream, Filled(stream, s), env.requestOk))
         && (r.seqNo <= s.recoveryEnd ==> r == Deliver(stream, s, AnswerEnd(stream, packs, q)))
  {
    var q := LastRequest(s);
    RequestOfGap(stream, packs, s);
    hide Run, Admissible, Answer, AnswerEnd, Answerable, Drained, Filled, Deliver, Feed;
    AnswerClosesGap(stream, packs, s, q, env);
  }

  lemma FrontOfGap(stream: seq<Message>, s: State, ps: seq<Packet>, env: Env, b: nat)
    requires Open(stream, s) && Contiguous(ps, s.seqNo, b) && b <= s.recoveryEnd <= |stream| && AllSlices(stream, ps)
    ensures Admissible(stream, s, Feed(ps, env), false)
    ensures s.seqNo <= b && Run(stream, s, Feed(ps, env), false) == Deliver(stream, s, b)
    ensures Deliver(stream, s, b).seqNo == b
  {
    hide Run, Admissible, Contiguous;
    FeedWalks(ps, env, s.seqNo, b, s.recoveryEnd);
    FeedIsPackets(stream, ps, env);
    StaysOpen(stream, s, Feed(ps, env));
    assert s.queue + [] == s.queue && s.requests + [] == s.requests;
  }

  lemma WholeGap(stream: seq<Message>, s: State, ps: seq<Packet>, env: Env)
    requires Open(stream, s) && s.seqNo <= s.recoveryEnd <= |stream|
    requires Contiguous(ps, s.seqNo, s.recoveryEnd + 1) && AllSlices(stream, ps)
    requires forall i :: 0 <= i < |ps| - 1 ==> ps[i].Next() <= s.recoveryEnd
    ensures Admissible(stream, s, Feed(ps, env), false)
    ensures var r := Run(stream, s, Feed(ps, env), false);
      r == Drained(stream, Filled(stream, s), env.requestOk) && r.seqNo > s.recoveryEnd
  {
    hide Run, Admissible, Chain, Drained, Filled;
    assert ps != [];
    FeedIsChain(stream, ps, env, s.seqNo, s.recoveryEnd);
    GapIsRefilled(stream, s, Feed(ps, env));
    FilledDrains(stream, s, env.requestOk);
  }

  /** So a client that has asked for a gap below 65536, of a server that can answer, gets exactly the missing
      messages and those queued behind them. */
  lemma EndToEndRecovery(stream: seq<Message>, packs: seq<nat>, s: State, env: Env)
    requires Open(stream, s) && Asked(s) && LastRequest(s).from == s.seqNo && Ascending(packs)
    requires s.recoveryEnd + 1 - s.seqNo < 0x1_0000
    requires Servable(stream, packs, LastRequest(s)) && Answerable(stream, packs, LastRequest(s))
    ensures var es := Feed(Answer(stream, packs, LastRequest(s)), env);
      && Admissible(stream, s, es, false)
      && var r := Run(stream, s, es, false);
         && r.seqNo == FirstUncovered(s.queue, s.recoveryEnd + 1) > s.recoveryEnd
         && r.delivered == s.delivered + stream[s.seqNo - 1..r.seqNo - 1]
  {
    hide Run, Admissible, Answer, AnswerEnd, Answerable, Drained, Filled, Deliver;
    GapClosesExactlyWhen(stream, packs, s, env);
    FilledDrains(stream, s, env.requestOk);
  }

  /** The smallest gap that is never filled: 65536 messages are asked for with the amount 0, and the server
      sends nothing. */
  lemma GapOf65536(stream: seq<Message>, packs: seq<nat>, s: State, p: Range, env: Env)
    requires Sound(stream, s) && IsSlice(stream, p) && Ascending(packs)
    requires Modes(s) && !s.inRefresh && !s.inRetransmit && s.seqNo > 1 && s.dropPackets == 0
    requires p.seqNum == s.seqNo + 0x1_0000 && env.requestOk
    ensures var r := Udp(stream, s, p, env);
      && Open(stream, r) && Asked(r) && r.recoveryEnd + 1 - r.seqNo == 0x1_0000
      && LastRequest(r) == Request(r.seqNo, 0)
      && Servable(stream, packs, LastRequest(r)) && Answer(stream, packs, LastRequest(r)) == []
  {
    UdpModes(stream, s, p, env);
    var r := Udp(stream, s, p, env);
    assert r == Gap(s, p, env);
    assert LastRequest(r) == Request(s.seqNo, 0);
  }

  // ----- Amid other traffic -----

  /** Where the packets of an answer start, and where the gap ends. */
  function Cuts(ps: seq<Packet>, end: nat): (cuts: seq<nat>)
    ensures |cuts| == |ps| + 1 && cuts[|ps|] == end + 1
    ensures forall i :: 0 <= i < |ps| ==> cuts[i] == ps[i].seqNum
  {
    seq(|ps|, i requires 0 <= i < |ps| => ps[i].seqNum) + [end + 1]
  }

  lemma {:induction false} CutsOfAnswer(ps: seq<Packet>, a: nat, end: nat)
    requires Contiguous(ps, a, end + 1)
    ensures var cuts := Cuts(ps, end);
      && cuts[0] == a && Ascending(cuts)
      && forall i :: 0 <= i < |ps| ==> Range(ps[i].seqNum, ps[i].Next()) == Range(cuts[i], cuts[i + 1])
    decreases |ps|
  {
    if ps != [] {
      CutsOfAnswer(ps[1..], ps[0].Next(), end);
      var cuts, rest := Cuts(ps, end), Cuts(ps[1..], end);
      assert forall i :: 1 <= i < |cuts| ==> cuts[i] == rest[i - 1];
      forall i | 0 <= i < |ps| ensures Range(ps[i].seqNum, ps[i].Next()) == Range(cuts[i], cuts[i + 1]) {
        if i > 0 { assert ps[i] == ps[1..][i - 1]; }
      }
    }
  }

  /** The answer's packets on their own are in order and keep to their cuts. */
  lemma RepliesKeepUp(ps: seq<Packet>, env: Env, a: nat, end: nat)
    requires Contiguous(ps, a, end + 1)
    ensures Progress(Cuts(ps, end), 0, Feed(ps, env)) == |ps| && KeepToCuts(Cuts(ps, end), end, Feed(ps, env))
  {
    var cuts, es := Cuts(ps, end), Feed(ps, env);
    CutsOfAnswer(ps, a, end);
    assert es[0..] == es;
    RepliesProgress(ps, env, end, 0);
    forall i | 0 <= i < |es| ensures EndsOnCut(cuts, end, es[i].p) {
      assert es[i].p == Range(cuts[i], cuts[i + 1]);
    }
  }

  lemma {:induction false} RepliesProgress(ps: seq<Packet>, env: Env, end: nat, k: nat)
    requires k <= |ps|
    requires forall i :: 0 <= i < |ps| ==>
      Range(ps[i].seqNum, ps[i].Next()) == Range(Cuts(ps, end)[i], Cuts(ps, end)[i + 1])
    ensures Progress(Cuts(ps, end), k, Feed(ps, env)[k..]) == |ps|
    decreases |ps| - k
  {
    if k < |ps| {
      var es := Feed(ps, env)[k..];
      assert es[0] == Datagram(Range(ps[k].seqNum, ps[k].Next()), env) && es[1..] == Feed(ps, env)[k + 1..];
      RepliesProgress(ps, env, end, k + 1);
    }
  }

  lemma CutsOfRequest(stream: seq<Message>, packs: seq<nat>, q: Request)
    requires Servable(stream, packs, q) && Answerable(stream, packs, q)
    ensures var cuts := Cuts(Answer(stream, packs, q), q.from + q.amount - 1);
      Ascending(cuts) && cuts[0] == q.from
  {
    hide Answer, Answerable, Contiguous;
    assert q.amount > 0 by { AnswerableAsks(stream, packs, q); }
    AnswerIsContiguous(stream, packs, q);
    CutsOfAnswer(Answer(stream, packs, q), q.from, q.from + q.amount - 1);
  }

  lemma AnswerableAsks(stream: seq<Message>, packs: seq<nat>, q: Request)
    requires Servable(stream, packs, q) && Answerable(stream, packs, q)
    ensures q.amount > 0
  {
  }

  lemma AnswerAmidTraffic(stream: seq<Message>, packs: seq<nat>, s: State, q: Request, es: seq<Event>)
    requires Open(stream, s) && s.seqNo <= s.recoveryEnd
    requires Servable(stream, packs, q) && Answerable(stream, packs, q)
    requires q.from == s.seqNo && q.from + q.amount - 1 == s.recoveryEnd && Packets(stream, es)
    requires var cuts := Cuts(Answer(stream, packs, q), s.recoveryEnd);
      KeepToCuts(cuts, s.recoveryEnd, es) && Progress(cuts, 0, es) == |cuts| - 1
    ensures Admissible(stream, s, es, false)
    ensures var r := Run(stream, s, es, false); Forward(stream, s, r) && r.seqNo > s.recoveryEnd
  {
    hide Answer, Answerable, Run, Admissible, KeepToCuts, Progress, Packets, Servable, Ascending, Modes, Sound, Forward;
    CutsOfRequest(stream, packs, q);
    GapClosesAmidTraffic(stream, s, Cuts(Answer(stream, packs, q), s.recoveryEnd), es);
  }

  /** The client gets out of its gap also when other packets come in between, as long as the answer's packets
      come in order and what else starts where one of them starts ends where one of them ends, or beyond. */
  lemma RecoveryAmidTraffic(stream: seq<Message>, packs: seq<nat>, s: State, es: seq<Event>)
    requires Open(stream, s) && Asked(s) && LastRequest(s).from == s.seqNo && Ascending(packs)
    requires s.recoveryEnd + 1 - s.seqNo < 0x1_0000
    requires Servable(stream, packs, LastRequest(s)) && Answerable(stream, packs, LastRequest(s))
    requires Packets(stream, es)
    requires var cuts := Cuts(Answer(stream, packs, LastRequest(s)), s.recoveryEnd);
      KeepToCuts(cuts, s.recoveryEnd, es) && Progress(cuts, 0, es) == |cuts| - 1
    ensures Admissible(stream, s, es, false)
    ensures var r := Run(stream, s, es, false); Forward(stream, s, r) && r.seqNo > s.recoveryEnd
  {
    var q := LastRequest(s);
    RequestOfGap(stream, packs, s);
    hide *;
    AnswerAmidTraffic(stream, packs, s, q, es);
  }

  lemma FilledDrains(stream: seq<Message>, s: State, ok: bool)
    requires Sound(stream, s) && s.seqNo <= s.recoveryEnd <= |stream|
    ensures var r := Drained(stream, Filled(stream, s), ok);
      && r.seqNo == FirstUncovered(s.queue, s.recoveryEnd + 1) > s.recoveryEnd
      && r.delivered == s.delivered + stream[s.seqNo - 1..r.seqNo - 1]
  {
    var t := Filled(stream, s);
    var r := Drained(stream, t, ok);
    DrainedForward(stream, t, ok);
    assert Forward(stream, s, t);
    ForwardTransitive(stream, s, t, r);
  }

  lemma DatagramCarries(stream: seq<Message>, d: seq<byte>, p: Packet)
    requires IsPacket(d, p) && IsSliceOf(stream, p)
    ensures Carries(stream, d) && HeaderRange(d) == Range(p.seqNum, p.Next())
  {
    assert SliceOf(stream, HeaderRange(d)) == p;
  }

  /** The server's answer to a client's request, as datagrams. */
  method Retransmit(server: ServerChannel, q: Request, now: nat) returns (datagrams: seq<seq<byte>>)
    requires server.Valid() && server.pending == [] && server.recoveryEnd == 0
    requires Servable(server.outboundMsgs, server.packSeqnos, q) && q.amount < 0x1_0000
    modifies server, server.onePackBuffer
    ensures var ps := Answer(old(server.outboundMsgs), old(server.packSeqnos), q);
      |datagrams| == |ps| && forall i :: 0 <= i < |ps| ==> IsPacket(datagrams[i], ps[i])
  {
    hide Reply, Remaining, NextPacket, Selected, Patched;
    var first := |server.sent|;
    ghost var outbound, packs, session := server.outboundMsgs, server.packSeqnos, server.session;
    if q.amount > 0 {
      MergedWithNone(packs, q.from, q.from + q.amount - 1);
      RecoveryListReady(outbound, packs, q.from, q.from + q.amount - 1);
    }
    server.Parse(q.from, q.amount, now);
    server.CheckWriteEvents();
    datagrams := server.sent[first..];
    if q.amount > 0 {
      ghost var list := Plan(outbound, packs, q);
      assert datagrams == Replies(session, outbound, list, q.from + q.amount - 1);
      RepliesAreEmitted(session, outbound, list, q.from + q.amount - 1);
    }
  }

  /** Datagrams handed to the client's packet parser one after the other are a run of the channel. */
  method ParseAll(client: Channel, datagrams: seq<seq<byte>>, ghost ps: seq<Packet>, env: Env)
    requires client.Valid() && |datagrams| == |ps|
    requires forall i :: 0 <= i < |ps| ==> IsPacket(datagrams[i], ps[i])
    requires AllSlices(client.stream, ps)
    requires Admissible(client.stream, client.Abs(), Feed(ps, env), false)
    modifies client
    ensures client.Valid()
    ensures client.Abs() == Run(client.stream, old(client.Abs()), Feed(ps, env), false)
  {
    hide Udp, IsPacket, IsSlice, Sound, Carries, Covers;
    ghost var s, es := client.Abs(), Feed(ps, env);
    assert es[0..] == es;
    for i := 0 to |datagrams|
      invariant client.Valid()
      invariant Admissible(client.stream, client.Abs(), es[i..], false)
      invariant Run(client.stream, client.Abs(), es[i..], false) == Run(client.stream, s, es, false)
    {
      assert IsSliceOf(client.stream, ps[i]);
      DatagramCarries(client.stream, datagrams[i], ps[i]);
      assert es[i..][0] == es[i] && es[i..][1..] == es[i + 1..];
      var _ := client.Parse(datagrams[i], env);
    }
    assert es[|datagrams|..] == [];
  }

  /** The same on the objects, byte for byte: the client's last request goes to the server, whose datagrams go
      to the client. */
  method Recover(server: ServerChannel, client: Channel, env: Env)
    requires server.Valid() && server.pending == [] && server.recoveryEnd == 0 && Ascending(server.packSeqnos)
    requires client.Valid() && server.outboundMsgs == client.stream
    requires Open(client.stream, client.Abs()) && Asked(client.Abs())
    requires LastRequest(client.Abs()).from == client.seqNo
    modifies client, server, server.onePackBuffer
    ensures client.Valid()
    ensures var s := old(client.Abs()); var packs := old(server.packSeqnos);
      && Servable(client.stream, packs, LastRequest(s))
      && Admissible(client.stream, s, Feed(Answer(client.stream, packs, LastRequest(s)), env), false)
      && client.Abs() == Run(client.stream, s, Feed(Answer(client.stream, packs, LastRequest(s)), env), false)
      && (client.seqNo > s.recoveryEnd <==>
           s.recoveryEnd + 1 - s.seqNo < 0x1_0000 && Answerable(client.stream, packs, LastRequest(s)))
  {
    hide Run, Admissible, Answer, AnswerEnd, Answerable, IsPacket, AllSlices, Drained, Filled, Deliver;
    ghost var s, packs := client.Abs(), server.packSeqnos;
    var q := client.requests[|client.requests| - 1];
    GapClosesExactlyWhen(client.stream, packs, s, env);
    AnswerIsContiguous(client.stream, packs, q);
    var datagrams := Retransmit(server, q, env.now);
    ParseAll(client, datagrams, Answer(client.stream, packs, q), env);
  }

  /** Build and parse: a packet built from the message list, as far as it fit, measures as many bytes as
      were built, and the client delivers from it exactly the messages it has not seen yet. */
  method BuildAndParse(server: ServerChannel, client: Channel, begin: nat, count: nat) returns (built: nat, packed: nat)
    requires server.Valid()
    requires 1 <= begin && begin - 1 + count <= |server.outboundMsgs| && count < 0x1_0000
    modifies client, server.onePackBuffer
    ensures packed == Fitting(server.outboundMsgs[begin - 1..begin - 1 + count], ROOM)
    ensures var p := Packet(begin, server.outboundMsgs[begin - 1..begin - 1 + packed]);
      && built == HEADER + BlocksSize(p.msgs)
      && client.delivered == old(client.delivered) + p.msgs[Seen(p, old(client.seqNo))..]
      && client.seqNo == old(client.seqNo) + packed - Seen(p, old(client.seqNo))
  {
    hide Fitting, EncodePacket, BlocksSize;
    built, packed := server.CreatePacket(begin, count);
    ghost var p := Packet(begin, server.outboundMsgs[begin - 1..begin - 1 + packed]);
    var datagram := server.onePackBuffer[..built];
    BuiltPacket(server.session, p, datagram);
    var len, realCount := GetItchPacketLength(datagram, packed, p);
    assert len == built;
    var _ := client.Parse2(datagram, p);
  }

  /** Split, rebuild, parse: of a recorded packet the client gets exactly what the loader kept and it has not
      seen; all of it when the packet fitted the packet buffer to begin with. */
  method SplitRebuildParse(server: ServerChannel, client: Channel, buf: seq<byte>, ghost p: Packet) returns (packed: nat)
    requires server.Valid() && |server.outboundMsgs| + |p.msgs| < Pow256(8) - 1
    requires IsPacket(buf, p) && TypesInside(buf, p) && Packable(p.msgs)
    modifies client, server, server.onePackBuffer
    ensures var kept := KeptOf(buf, p, |p.msgs|);
      && packed == Fitting(kept, ROOM)
      && (BlocksSize(p.msgs) <= ROOM ==> packed == |kept|)
      && var q := Packet(old(|server.outboundMsgs|) + 1, kept[..packed]);
         && client.delivered == old(client.delivered) + q.msgs[Seen(q, old(client.seqNo))..]
         && client.seqNo == old(client.seqNo) + packed - Seen(q, old(client.seqNo))
  {
    hide Fitting, BlocksSize, IsPacket, KeptOf, TypesInside, Packable, Pow256;
    ghost var kept := KeptOf(buf, p, |p.msgs|);
    var before := |server.outboundMsgs|;
    server.FillMessageList(buf, p);
    var count := |server.outboundMsgs| - before;
    LoadedFits(buf, p);
    assert server.outboundMsgs[before..before + count] == kept;
    var built: nat;
    built, packed := BuildAndParse(server, client, before + 1, count);
    assert server.outboundMsgs[before..before + packed] == kept[..packed];
  }

  lemma LoadedFits(buf: seq<byte>, p: Packet)
    requires IsPacket(buf, p) && TypesInside(buf, p) && Packable(p.msgs)
    ensures var kept := KeptOf(buf, p, |p.msgs|);
      |kept| < 0x1_0000 && (BlocksSize(p.msgs) <= ROOM ==> Fitting(kept, ROOM) == |kept|)
  {
    hide Fitting, KeptOf, TypesInside;
    KeptOfPackable(buf, p, |p.msgs|);
    KeptOfSize(buf, p, |p.msgs|);
    assert p.msgs[..|p.msgs|] == p.msgs;
    FittingIsMaximal(KeptOf(buf, p, |p.msgs|), ROOM);
  }

  lemma BuiltPacket(session: seq<byte>, p: Packet, d: seq<byte>)
    requires |session| == SESSION && |p.msgs| < 0x1_0000 && p.seqNum < Pow256(8)
    requires d == EncodePacket(session, p)
    ensures IsPacket(d, p) && |d| == HEADER + BlocksSize(p.msgs) == Offset(p.msgs, |p.msgs|)
  {
    PacketRoundTrip(session, p, []);
    assert d + [] == d;
    IsPacketIffDecodes(d, p);
    OffsetSize(p.msgs, |p.msgs|);
    assert p.msgs[..|p.msgs|] == p.msgs;
  }
}
