/** The retransmission and packet-building side of the test server: message lists filled from recorded
    packets, packets built in one buffer, and retransmission requests worked off position by position. */
module RetransmissionServer {
  import opened Bytes
  import opened Mold
  import opened Retransmission

  const TYPE_L: byte := 76

  /** The messages that are kept from a packet: all but tick size tables. */
  function Kept(ms: seq<Message>): seq<Message> {
    if ms == [] then [] else KeptOne(ms[0]) + Kept(ms[1..])
  }

  function KeptOne(m: Message): seq<Message> {
    if m != [] && m[0] == TYPE_L then [] else [m]
  }

  lemma {:induction false} KeptAppend(a: seq<Message>, b: seq<Message>)
    ensures Kept(a + b) == Kept(a) + Kept(b)
  {
    hide KeptOne;
    if a == [] {
      assert a + b == b;
    } else {
      assert (a + b)[1..] == a[1..] + b;
      KeptAppend(a[1..], b);
      assert KeptOne(a[0]) + (Kept(a[1..]) + Kept(b)) == KeptOne(a[0]) + Kept(a[1..]) + Kept(b);
    }
  }

  /** Kept is every message but those that begin with 'L', and their order. */
  lemma {:induction false} KeptUnlessL(ms: seq<Message>, m: Message)
    ensures m in Kept(ms) <==> m in ms && !(m != [] && m[0] == 'L' as int)
  {
    if ms != [] {
      assert ms == [ms[0]] + ms[1..];
      KeptUnlessL(ms[1..], m);
    }
  }

  /** The length of a message's block fits the 16 bits the packet builder computes it in. */
  predicate Packable(ms: seq<Message>) {
    forall i :: 0 <= i < |ms| ==> |ms[i]| + 2 < 0x1_0000
  }

  lemma PackableAppend(a: seq<Message>, b: seq<Message>)
    requires Packable(a) && Packable(b)
    ensures Packable(a + b)
  {
  }

  /** The loader looks at the byte behind each block's length, which is the message's type unless the message
      is empty: then it is whatever comes next. */
  predicate TypeInside(b: seq<byte>, p: Packet, i: nat)
    requires i < |p.msgs|
  {
    Offset(p.msgs, i) + 2 < |b|
  }

  predicate TypesInside(b: seq<byte>, p: Packet) {
    forall i :: 0 <= i < |p.msgs| ==> TypeInside(b, p, i)
  }

  function TypeByte(b: seq<byte>, p: Packet, i: nat): byte
    requires i < |p.msgs| && TypeInside(b, p, i)
  {
    b[Offset(p.msgs, i) + 2]
  }

  /** What the loader keeps of the first `k` messages. */
  function KeptOf(b: seq<byte>, p: Packet, k: nat): seq<Message>
    requires TypesInside(b, p) && k <= |p.msgs|
  {
    if k == 0 then []
    else KeptOf(b, p, k - 1) + KeptBlock(b, p, k - 1)
  }

  function KeptBlock(b: seq<byte>, p: Packet, i: nat): seq<Message>
    requires i < |p.msgs| && TypeInside(b, p, i)
  {
    if TypeByte(b, p, i) == TYPE_L then [] else [p.msgs[i]]
  }

  lemma TypeOf(b: seq<byte>, p: Packet, i: nat)
    requires IsPacket(b, p) && i < |p.msgs| && p.msgs[i] != []
    ensures TypeInside(b, p, i) && TypeByte(b, p, i) == p.msgs[i][0]
  {
    BlockOf(b, p, i);
    var at := Offset(p.msgs, i) + 2;
    assert b[at] == b[at..at + |p.msgs[i]|][0];
  }

  lemma TypesAreInside(b: seq<byte>, p: Packet)
    requires IsPacket(b, p) && forall i :: 0 <= i < |p.msgs| ==> p.msgs[i] != []
    ensures TypesInside(b, p)
  {
    forall i | 0 <= i < |p.msgs| ensures TypeInside(b, p, i) {
      TypeOf(b, p, i);
    }
  }

  /** Without empty messages, the type decides. */
  lemma {:induction false} KeptOfIsKept(b: seq<byte>, p: Packet, k: nat)
    requires IsPacket(b, p) && TypesInside(b, p) && k <= |p.msgs|
    requires forall i :: 0 <= i < |p.msgs| ==> p.msgs[i] != []
    ensures KeptOf(b, p, k) == Kept(p.msgs[..k])
  {
    hide IsPacket, TypeByte, TypeInside;
    if k > 0 {
      KeptOfIsKept(b, p, k - 1);
      TypeOf(b, p, k - 1);
      KeptNext(p.msgs, k - 1);
    }
  }

  lemma {:induction false} KeptOfPackable(b: seq<byte>, p: Packet, k: nat)
    requires TypesInside(b, p) && k <= |p.msgs| && Packable(p.msgs)
    ensures Packable(KeptOf(b, p, k)) && |KeptOf(b, p, k)| <= k
  {
    hide TypeByte, TypeInside;
    if k > 0 {
      KeptOfPackable(b, p, k - 1);
    }
  }

  lemma {:induction false} KeptOfSize(b: seq<byte>, p: Packet, k: nat)
    requires TypesInside(b, p) && k <= |p.msgs|
    ensures BlocksSize(KeptOf(b, p, k)) <= BlocksSize(p.msgs[..k])
  {
    hide TypeByte, TypeInside;
    if k > 0 {
      KeptOfSize(b, p, k - 1);
      var m := p.msgs[k - 1];
      assert p.msgs[..k] == p.msgs[..k - 1] + [m] && [m][1..] == [];
      BlocksSizeAppend(p.msgs[..k - 1], [m]);
      BlocksSizeAppend(KeptOf(b, p, k - 1), [m]);
      assert KeptOf(b, p, k - 1) + [] == KeptOf(b, p, k - 1);
    }
  }

  lemma KeptNext(ms: seq<Message>, i: nat)
    requires i < |ms|
    ensures Kept(ms[..i + 1]) == Kept(ms[..i]) + KeptOne(ms[i])
  {
    KeptAppend(ms[..i], [ms[i]]);
    assert ms[..i + 1] == ms[..i] + [ms[i]];
    assert [ms[i]][1..] == [] && KeptOne(ms[i]) + [] == KeptOne(ms[i]);
  }

  lemma BlocksGrow(msgs: seq<Message>, k: nat)
    requires k < |msgs|
    ensures EncodeBlocks(msgs[..k + 1]) == EncodeBlocks(msgs[..k]) + EncodeBlock(msgs[k])
    ensures msgs[k..][1..] == msgs[k + 1..]
  {
    assert msgs[..k + 1] == msgs[..k] + [msgs[k]];
    EncodeBlocksAppend(msgs[..k], [msgs[k]]);
    assert EncodeBlocks([msgs[k]]) == EncodeBlock(msgs[k]) + [];
  }

  /** The next packet as it goes out. */
  function Reply(session: seq<byte>, outbound: seq<Message>, list: seq<nat>, end: nat): seq<byte>
    requires |session| == SESSION && list != [] && Ready(outbound, list, end)
  {
    NextPacketIsSlice(outbound, list, end);
    EncodePacket(session, NextPacket(outbound, list, end))
  }

  /** All datagrams sent until the list is used up. */
  function Replies(session: seq<byte>, outbound: seq<Message>, list: seq<nat>, end: nat): seq<seq<byte>>
    requires |session| == SESSION && Ready(outbound, list, end)
    decreases |list|
  {
    if list == [] then []
    else [Reply(session, outbound, list, end)] + Replies(session, outbound, Remaining(outbound, list, end), end)
  }

  /** The datagrams are the packets of the plan, encoded one for one. */
  lemma {:induction false} RepliesAreEmitted(session: seq<byte>, outbound: seq<Message>, list: seq<nat>, end: nat)
    requires |session| == SESSION && Ready(outbound, list, end) && |outbound| < Pow256(8) - 1
    ensures var ps := Emitted(outbound, list, end); var ds := Replies(session, outbound, list, end);
      |ds| == |ps| && forall i :: 0 <= i < |ps| ==> IsPacket(ds[i], ps[i])
    decreases |list|
  {
    if list != [] {
      var p, rest := NextPacket(outbound, list, end), Remaining(outbound, list, end);
      NextPacketIsSlice(outbound, list, end);
      PacketRoundTrip(session, p, []);
      var d := Reply(session, outbound, list, end);
      assert d + [] == d;
      IsPacketIffDecodes(d, p);
      RepliesAreEmitted(session, outbound, rest, end);
    }
  }

  class ServerChannel {
    const session: seq<byte>
    const onePackBuffer: array<byte>
    const recoveryInterval: nat

    var outboundMsgs: seq<Message>
    var packSeqnos: seq<nat>
    var pending: seq<nat>
    var nextRecoveryPacket: nat
    var recoveryEnd: nat
    var recoveryNextSendTime: nat
    /** Every datagram written to the retransmission socket. */
    var sent: seq<seq<byte>>

    ghost predicate Valid()
      reads this
    {
      && |session| == SESSION
      && onePackBuffer.Length == PACKET_BUFFER
      && |outboundMsgs| < Pow256(8) - 1
      && Packable(outboundMsgs)
    }

    /** The pending positions can be worked off, and the range is one a 16-bit count can name. */
    ghost predicate Working()
      reads this
    {
      pending != [] ==> Ready(outboundMsgs, pending, recoveryEnd) && recoveryEnd + 1 - pending[0] < 0x1_0000
    }

    constructor (session: seq<byte>, interval: nat)
      requires |session| == SESSION
      ensures Valid() && fresh(onePackBuffer) && Working()
      ensures outboundMsgs == [] && packSeqnos == [] && pending == [] && sent == [] && recoveryEnd == 0
    {
      this.session := session;
      onePackBuffer := new byte[PACKET_BUFFER](_ => 0);
      recoveryInterval := interval;
      outboundMsgs, packSeqnos, pending, sent := [], [], [], [];
      nextRecoveryPacket, recoveryEnd, recoveryNextSendTime := 0, 0, 0;
    }

    /** Appends the packet's messages to the list, except those that show type 'L'. */
    method FillMessageList(buf: seq<byte>, ghost p: Packet)
      requires IsPacket(buf, p) && Packable(p.msgs) && TypesInside(buf, p)
      requires Valid() && |outboundMsgs| + |p.msgs| < Pow256(8) - 1
      modifies this`outboundMsgs
      ensures Valid() && outboundMsgs == old(outboundMsgs) + KeptOf(buf, p, |p.msgs|)
    {
      KeptOfPackable(buf, p, |p.msgs|);
      PackableAppend(outboundMsgs, KeptOf(buf, p, |p.msgs|));
      var messageCount := MessageCount(buf);
      var block := HEADER;
      assert messageCount == |p.msgs|;
      hide IsPacket, Packable, TypeInside, KeptBlock;
      for i := 0 to messageCount
        invariant block == Offset(p.msgs, i)
        invariant outboundMsgs == old(outboundMsgs) + KeptOf(buf, p, i)
      {
        block := LoadBlock(buf, block, p, i);
      }
    }

    /** Takes over the message of one block, unless it shows type 'L'. */
    method LoadBlock(buf: seq<byte>, block: nat, ghost p: Packet, ghost i: nat) returns (next: nat)
      requires IsPacket(buf, p) && i < |p.msgs| && TypeInside(buf, p, i) && block == Offset(p.msgs, i)
      modifies this`outboundMsgs
      ensures outboundMsgs == old(outboundMsgs) + KeptBlock(buf, p, i)
      ensures next == Offset(p.msgs, i + 1)
    {
      BlockOf(buf, p, i);
      hide IsPacket;
      var messageLength := ReadU16(buf, block);
      if buf[block + 2] != TYPE_L {
        outboundMsgs := outboundMsgs + [buf[block + 2..block + 2 + messageLength]];
      }
      next := block + 2 + messageLength;
    }

    /** Packet boundaries at 1, 1 + size, 1 + 2 * size, ... below the length of the message list. */
    method MarkPackets(packetSize: nat)
      requires packetSize > 0
      modifies this`packSeqnos
      ensures packSeqnos == old(packSeqnos) + Marks(1, |outboundMsgs|, packetSize)
    {
      var mxSeqNo := |outboundMsgs|;
      var gp := 1;
      while gp < mxSeqNo
        invariant packSeqnos + Marks(gp, mxSeqNo, packetSize) == old(packSeqnos) + Marks(1, mxSeqNo, packetSize)
        decreases mxSeqNo - gp
      {
        packSeqnos := packSeqnos + [gp];
        gp := gp + packetSize;
      }
    }

    /** Writes `data` into the packet buffer at offset `at`. */
    method Put(at: nat, data: seq<byte>)
      requires at + |data| <= onePackBuffer.Length
      modifies onePackBuffer
      ensures onePackBuffer[at..at + |data|] == data
      ensures forall i :: 0 <= i < at || at + |data| <= i < onePackBuffer.Length ==> onePackBuffer[i] == old(onePackBuffer[i])
    {
      forall i | 0 <= i < |data| {
        onePackBuffer[at + i] := data[i];
      }
    }

    /** Appends one block if it fits; `next` is `loc` if it does not. */
    method AppendBlock(loc: nat, m: Message) returns (next: nat)
      requires onePackBuffer.Length == PACKET_BUFFER && loc <= PACKET_BUFFER && |m| + 2 < 0x1_0000
      modifies onePackBuffer
      ensures next == if loc + 2 + |m| > PACKET_BUFFER then loc else loc + 2 + |m|
      ensures onePackBuffer[..next] == old(onePackBuffer[..loc]) + if next == loc then [] else EncodeBlock(m)
    {
      var data := EncodeBlock(m);
      var len := (|m| + 2) % 0x1_0000;
      if loc + len > PACKET_BUFFER {
        return loc;
      }
      Put(loc, data[..len]);
      next := loc + len;
      assert onePackBuffer[..loc] == old(onePackBuffer[..loc]);
      assert onePackBuffer[..next] == onePackBuffer[..loc] + onePackBuffer[loc..next];
    }

    /** Appends blocks behind the header while they fit. */
    method AppendBlocks(msgs: seq<Message>) returns (loc: nat, packed: nat)
      requires Valid() && Packable(msgs)
      modifies onePackBuffer
      ensures packed == Fitting(msgs, ROOM) && HEADER <= loc <= PACKET_BUFFER
      ensures onePackBuffer[..loc] == old(onePackBuffer[..HEADER]) + EncodeBlocks(msgs[..packed])
    {
      hide EncodeBlock;
      loc := HEADER;
      packed := 0;
      while packed < |msgs|
        invariant packed <= |msgs| && HEADER <= loc <= PACKET_BUFFER
        invariant onePackBuffer[..loc] == old(onePackBuffer[..HEADER]) + EncodeBlocks(msgs[..packed])
        invariant packed + Fitting(msgs[packed..], PACKET_BUFFER - loc) == Fitting(msgs, ROOM)
      {
        BlocksGrow(msgs, packed);
        var next := AppendBlock(loc, msgs[packed]);
        if next == loc {
          break;
        }
        loc := next;
        packed := packed + 1;
      }
    }

    /** Packs up to `count` messages from number `seqnoBegin` on into the packet buffer. */
    method CreatePacket(seqnoBegin: nat, count: nat) returns (loc: nat, packed: nat)
      requires Valid() && 1 <= seqnoBegin && seqnoBegin - 1 + count <= |outboundMsgs| && count < 0x1_0000
      modifies onePackBuffer
      ensures packed == Fitting(outboundMsgs[seqnoBegin - 1..seqnoBegin - 1 + count], ROOM)
      ensures loc <= onePackBuffer.Length
      ensures onePackBuffer[..loc] ==
        EncodePacket(session, Packet(seqnoBegin, outboundMsgs[seqnoBegin - 1..seqnoBegin - 1 + packed]))
    {
      ghost var msgs := outboundMsgs[seqnoBegin - 1..seqnoBegin - 1 + count];
      Put(0, session + BigEndian(seqnoBegin, 8));
      ghost var head := onePackBuffer[..SESSION + 8];
      ghost var header := onePackBuffer[..HEADER];
      assert header[..SESSION + 8] == head;
      loc, packed := AppendBlocks(outboundMsgs[seqnoBegin - 1..seqnoBegin - 1 + count]);
      ghost var blocks := EncodeBlocks(msgs[..packed]);
      SplitSlice(onePackBuffer[..], 0, loc, header, blocks);
      assert onePackBuffer[..SESSION + 8] == onePackBuffer[..][0..HEADER][..SESSION + 8];
      Put(SESSION + 8, U16(packed));
      assert onePackBuffer[..SESSION + 8] == head;
      assert onePackBuffer[HEADER..loc] == blocks;
      assert onePackBuffer[..loc] == head + U16(packed) + blocks;
      assert msgs[..packed] == outboundMsgs[seqnoBegin - 1..seqnoBegin - 1 + packed];
    }

    /** Queues the packet boundaries for the requested range, then overwrites the queue's ends with the range. */
    method CreateRecoveryList()
      modifies this`pending
      ensures pending == Merged(old(pending), packSeqnos, nextRecoveryPacket, recoveryEnd)
    {
      hide Patched, Selected;
      QueueBoundaries(nextRecoveryPacket, recoveryEnd);
      OverwriteEnds(nextRecoveryPacket, recoveryEnd);
    }

    /** The boundaries not before `from`, up to the first one beyond `to`. */
    method QueueBoundaries(from: nat, to: nat)
      modifies this`pending
      ensures pending == old(pending) + Selected(packSeqnos, from, to)
    {
      hide Selected;
      assert packSeqnos[0..] == packSeqnos;
      ghost var all := pending + Selected(packSeqnos, from, to);
      for j := 0 to |packSeqnos|
        invariant pending + Selected(packSeqnos[j..], from, to) == all
      {
        SelectedStep(packSeqnos, j, from, to);
        if packSeqnos[j] < from {
          continue;
        }
        pending := pending + [packSeqnos[j]];
        if packSeqnos[j] > to {
          return;
        }
      }
      SelectedStep(packSeqnos, |packSeqnos|, from, to);
    }

    method OverwriteEnds(from: nat, to: nat)
      modifies this`pending
      ensures pending == Patched(old(pending), from, to)
    {
      if |pending| < 1 {
        return;
      }
      pending := pending[0 := from];
      if |pending| > 1 {
        pending := pending[|pending| - 1 := to];
      }
      assert pending == Patched(old(pending), from, to);
    }

    /** Builds and sends one packet with the messages from `from` up to `to`, as far as they fit. */
    method SendRange(from: nat, to: nat) returns (next: nat)
      requires Valid() && 1 <= from <= to <= |outboundMsgs| + 1 && to - from < 0x1_0000
      modifies this`sent, onePackBuffer
      ensures next == from + Fitting(outboundMsgs[from - 1..to - 1], ROOM)
      ensures sent == old(sent) + [EncodePacket(session, Packet(from, outboundMsgs[from - 1..next - 1]))]
    {
      var ret, msgCount := CreatePacket(from, to - from);
      sent := sent + [onePackBuffer[..ret]];
      next := from + msgCount;
    }

    /** Sends the next packet of the retransmission, if its time has come. */
    method SendRecoveryPacket(now: nat)
      requires Valid() && Working()
      modifies this`pending, this`recoveryEnd, this`nextRecoveryPacket, this`recoveryNextSendTime, this`sent, onePackBuffer
      ensures Valid() && Working()
      ensures old(pending) == [] ==> pending == [] && sent == old(sent) && recoveryEnd == 0
      ensures old(pending) != [] && now < old(recoveryNextSendTime) ==>
        pending == old(pending) && sent == old(sent) && recoveryEnd == old(recoveryEnd)
      ensures old(pending) != [] && now >= old(recoveryNextSendTime) ==>
        && sent == old(sent) + [Reply(session, outboundMsgs, old(pending), old(recoveryEnd))]
        && pending == Remaining(outboundMsgs, old(pending), old(recoveryEnd))
        && recoveryEnd == if pending == [] then 0 else old(recoveryEnd)
      ensures recoveryNextSendTime ==
        old(recoveryNextSendTime) + if |sent| > old(|sent|) then recoveryInterval else 0
    {
      if |pending| < 1 {
        recoveryEnd := 0;
        return;
      }
      if now < recoveryNextSendTime {
        return;
      }
      SendNext();
      recoveryNextSendTime := recoveryNextSendTime + recoveryInterval;
    }

    method SendNext()
      requires Valid() && Working() && pending != []
      modifies this`pending, this`recoveryEnd, this`nextRecoveryPacket, this`sent, onePackBuffer
      ensures Valid() && Working()
      ensures sent == old(sent) + [Reply(session, outboundMsgs, old(pending), old(recoveryEnd))]
      ensures pending == Remaining(outboundMsgs, old(pending), old(recoveryEnd))
      ensures recoveryEnd == if pending == [] then 0 else old(recoveryEnd)
    {
      hide Fitting, EncodePacket, Ascending, IsSliceOf, NextPacket, Remaining;
      ghost var list, rest := pending, Remaining(outboundMsgs, pending, recoveryEnd);
      SendStep(outboundMsgs, list, recoveryEnd);
      var from := pending[0];
      pending := pending[1..];
      var to := recoveryEnd + 1;
      if |pending| > 0 {
        to := pending[0];
      }
      nextRecoveryPacket := SendRange(from, to);
      if |pending| > 0 {
        pending := pending[0 := nextRecoveryPacket];
      } else {
        recoveryEnd := 0;
      }
      assert pending == rest;
    }

    /** A retransmission request for `messageCount` messages from number `seqNum` on, whatever is pending, as
        long as the list that results can be worked off at all. */
    method Parse(seqNum: nat, messageCount: nat, now: nat)
      requires Valid() && messageCount < 0x1_0000
      requires messageCount > 0 ==>
        var from := if seqNum > 0 then seqNum else 1; var to := from + messageCount - 1;
        var list := Merged(pending, packSeqnos, from, to);
        list != [] ==> Ready(outboundMsgs, list, to)
      modifies this`pending, this`recoveryEnd, this`nextRecoveryPacket, this`recoveryNextSendTime, this`sent, onePackBuffer
      ensures Valid()
      ensures messageCount == 0 ==> sent == old(sent) && pending == old(pending) && recoveryEnd == old(recoveryEnd)
      ensures messageCount > 0 ==>
        var from := if seqNum > 0 then seqNum else 1; var to := from + messageCount - 1;
        var list := Merged(old(pending), packSeqnos, from, to);
        && Working()
        && if list == [] then sent == old(sent) && pending == [] && recoveryEnd == 0
           else
             && sent == old(sent) + [Reply(session, outboundMsgs, list, to)]
             && pending == Remaining(outboundMsgs, list, to)
             && recoveryEnd == (if pending == [] then 0 else to)
             && recoveryNextSendTime == now + recoveryInterval
    {
      hide Reply, Remaining, Selected, NextPacket, Ready;
      if messageCount < 1 {
        return;
      }
      var from := if seqNum > 0 then seqNum else 1;
      nextRecoveryPacket := from;
      recoveryEnd := from + messageCount - 1;
      CreateRecoveryList();
      recoveryNextSendTime := now;
      SendRecoveryPacket(now);
    }

    /** The event loop's turns, each at the moment the next packet is due, until the retransmission is over. */
    method CheckWriteEvents()
      requires Valid() && Working() && (pending == [] <==> recoveryEnd == 0)
      modifies this`pending, this`recoveryEnd, this`nextRecoveryPacket, this`recoveryNextSendTime, this`sent, onePackBuffer
      ensures Valid() && Working() && pending == [] && recoveryEnd == 0
      ensures sent == old(sent) + Replies(session, outboundMsgs, old(pending), old(recoveryEnd))
      decreases |pending|
    {
      hide Reply, Ready, Remaining, NextPacket;
      if recoveryEnd > 0 {
        SendRecoveryPacket(recoveryNextSendTime);
        if pending == [] {
          assert Replies(session, outboundMsgs, [], old(recoveryEnd)) == [];
        } else {
          CheckWriteEvents();
        }
      }
    }
  }
}
