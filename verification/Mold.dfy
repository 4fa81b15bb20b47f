/** The MoldUDP64 downstream packet on the wire: a 20-byte header (session, sequence number,
    message count) followed by length-prefixed message blocks. */
module Mold {
  import opened Bytes

  const HEADER: nat := 20
  const SESSION: nat := 10
  const END_OF_SESSION: nat := 0xFFFF

  type Message = m: seq<byte> | |m| < 0x1_0000 witness []

  datatype Packet = Packet(seqNum: nat, msgs: seq<Message>) {
    /** The number of the first message after this packet. */
    function Next(): nat { seqNum + |msgs| }
  }

  // ----- Writing -----

  function EncodeBlock(m: Message): (b: seq<byte>)
    ensures |b| == 2 + |m|
  {
    U16(|m|) + m
  }

  function EncodeBlocks(ms: seq<Message>): seq<byte> {
    if ms == [] then [] else EncodeBlock(ms[0]) + EncodeBlocks(ms[1..])
  }

  function EncodePacket(session: seq<byte>, p: Packet): (b: seq<byte>)
    requires |session| == SESSION
    requires |p.msgs| < 0x1_0000
    ensures |b| >= HEADER
  {
    session + BigEndian(p.seqNum, 8) + U16(|p.msgs|) + EncodeBlocks(p.msgs)
  }

  // ----- Reading -----

  /** The block of `b` at offset `at`, or None where the bytes end too early. */
  function FirstBlock(b: seq<byte>, at: nat): Option<Message> {
    if at + 2 > |b| || at + 2 + ReadU16(b, at) > |b| then None
    else Some(b[at + 2..at + 2 + ReadU16(b, at)])
  }

  function Prepend(m: Message, r: Option<seq<Message>>): (q: Option<seq<Message>>)
    ensures q.Some? <==> r.Some?
    ensures q.Some? ==> |q.value| == 1 + |r.value| && q.value[0] == m && q.value[1..] == r.value
  {
    match r
    case None => None
    case Some(ms) => Some([m] + ms)
  }

  /** The next `count` blocks of `b` from offset `at`. */
  function Blocks(b: seq<byte>, at: nat, count: nat): (r: Option<seq<Message>>)
    ensures r.Some? ==> |r.value| == count
    decreases count
  {
    if count == 0 then Some([])
    else
      match FirstBlock(b, at)
      case None => None
      case Some(m) => Prepend(m, Blocks(b, at + 2 + |m|, count - 1))
  }

  /** Bytes taken by the blocks that carry `ms`. */
  function BlocksSize(ms: seq<Message>): nat {
    if ms == [] then 0 else 2 + |ms[0]| + BlocksSize(ms[1..])
  }

  function SeqNum(b: seq<byte>): nat
    requires |b| >= HEADER
  {
    ReadBigEndian(b[SESSION..SESSION + 8])
  }

  function MessageCount(b: seq<byte>): (n: nat)
    requires |b| >= HEADER
    ensures n < 0x1_0000
  {
    ReadU16(b, SESSION + 8)
  }

  /** The packet a buffer begins with; bytes after the packet are ignored. */
  function Decode(b: seq<byte>): Option<Packet> {
    if |b| < HEADER then None
    else
      match Blocks(b, HEADER, MessageCount(b))
      case None => None
      case Some(ms) => Some(Packet(SeqNum(b), ms))
  }

  predicate Complete(b: seq<byte>) {
    Decode(b).Some?
  }

  // ----- Laws -----

  /** Message 258, two bytes, and message 259, one byte, as one packet. */
  lemma KnownPacket(session: seq<byte>)
    requires |session| == 10
    ensures EncodePacket(session, Packet(258, [[65, 66], [67]])) ==
      session + [0, 0, 0, 0, 0, 0, 1, 2] + [0, 2] + [0, 2, 65, 66] + [0, 1, 67]
  {
    NetworkOrder();
    var ms: seq<Message> := [[65, 66], [67]];
    assert ms[1..] == [[67]] && ms[1..][1..] == [];
    assert EncodeBlock(ms[0]) == [0, 2, 65, 66] && EncodeBlock(ms[1]) == [0, 1, 67];
    assert EncodeBlocks(ms[1..]) == EncodeBlock(ms[1]) + [];
    assert EncodeBlocks(ms) == EncodeBlock(ms[0]) + EncodeBlocks(ms[1..]);
    hide EncodeBlocks, BigEndian;
  }

  lemma {:induction false} EncodeBlocksSize(ms: seq<Message>)
    ensures |EncodeBlocks(ms)| == BlocksSize(ms)
  {
    if ms != [] {
      EncodeBlocksSize(ms[1..]);
    }
  }

  lemma {:induction false} BlocksSizeAppend(a: seq<Message>, b: seq<Message>)
    ensures BlocksSize(a + b) == BlocksSize(a) + BlocksSize(b)
  {
    if a == [] {
      assert a + b == b;
    } else {
      assert (a + b)[1..] == a[1..] + b;
      BlocksSizeAppend(a[1..], b);
    }
  }

  lemma {:induction false} EncodeBlocksAppend(a: seq<Message>, b: seq<Message>)
    ensures EncodeBlocks(a + b) == EncodeBlocks(a) + EncodeBlocks(b)
  {
    if a == [] {
      assert a + b == b;
    } else {
      assert (a + b)[1..] == a[1..] + b;
      EncodeBlocksAppend(a[1..], b);
    }
  }

  /** A block is where its bytes are. */
  lemma BlockLies(b: seq<byte>, at: nat, m: Message)
    ensures BlockIs(b, at, m) <==> LiesAt(b, at, EncodeBlock(m))
  {
    if at + 2 + |m| <= |b| {
      var block := b[at..at + 2 + |m|];
      assert block[0] == b[at] && block[1] == b[at + 1];
      assert b[at + 2..at + 2 + |m|] == block[2..];
      if BlockIs(b, at, m) {
        assert U16(|m|) == b[at..at + 2];
        assert block == b[at..at + 2] + b[at + 2..at + 2 + |m|];
      }
    }
  }

  lemma BlockIsFirst(b: seq<byte>, at: nat, m: Message)
    ensures BlockIs(b, at, m) <==> FirstBlock(b, at) == Some(m)
  {
  }

  lemma PrependIs(m: Message, r: Option<seq<Message>>, ms: seq<Message>)
    requires ms != []
    ensures Prepend(m, r) == Some(ms) <==> m == ms[0] && r == Some(ms[1..])
  {
    assert ms == [ms[0]] + ms[1..];
  }

  /** Reading blocks is reading the first and then the others. */
  lemma BlocksHead(b: seq<byte>, at: nat, ms: seq<Message>)
    requires ms != []
    ensures Blocks(b, at, |ms|) == Some(ms) <==>
      BlockIs(b, at, ms[0]) && Blocks(b, at + 2 + |ms[0]|, |ms| - 1) == Some(ms[1..])
  {
    hide FirstBlock, BlockIs, Prepend;
    BlockIsFirst(b, at, ms[0]);
    match FirstBlock(b, at)
    case None =>
    case Some(m) => PrependIs(m, Blocks(b, at + 2 + |m|, |ms| - 1), ms);
  }

  /** Blocks are read from a buffer exactly where they were written. */
  lemma {:induction false} BlocksIffWritten(b: seq<byte>, at: nat, ms: seq<Message>)
    requires at <= |b|
    ensures Blocks(b, at, |ms|) == Some(ms) <==> LiesAt(b, at, EncodeBlocks(ms))
    decreases |ms|
  {
    if ms == [] {
      assert Blocks(b, at, 0) == Some([]) && b[at..at] == [];
    } else {
      var next := at + 2 + |ms[0]|;
      assert EncodeBlocks(ms) == EncodeBlock(ms[0]) + EncodeBlocks(ms[1..]);
      hide *;
      BlocksHead(b, at, ms);
      BlockLies(b, at, ms[0]);
      LiesJoined(b, at, EncodeBlock(ms[0]), EncodeBlocks(ms[1..]));
      LiesInside(b, at, EncodeBlock(ms[0]));
      if next <= |b| {
        BlocksIffWritten(b, next, ms[1..]);
      }
    }
  }

  /** Decoding undoes encoding, whatever follows the packet in the buffer. */
  lemma {:induction false} PacketRoundTrip(session: seq<byte>, p: Packet, after: seq<byte>)
    requires |session| == SESSION && |p.msgs| < 0x1_0000
    requires p.seqNum < Pow256(8)
    ensures Decode(EncodePacket(session, p) + after) == Some(p)
    ensures |EncodePacket(session, p)| == HEADER + BlocksSize(p.msgs)
  {
    var head := session + BigEndian(p.seqNum, 8) + U16(|p.msgs|);
    var b := EncodePacket(session, p) + after;
    assert b == head + EncodeBlocks(p.msgs) + after;
    assert b[SESSION..SESSION + 8] == BigEndian(p.seqNum, 8);
    BigEndianRoundTrip(p.seqNum, 8);
    assert b[SESSION + 8] == |p.msgs| / 256 && b[SESSION + 9] == |p.msgs| % 256;
    EncodeBlocksSize(p.msgs);
    assert LiesAt(b, HEADER, EncodeBlocks(p.msgs));
    BlocksIffWritten(b, HEADER, p.msgs);
  }

  lemma HeaderCanonical(b: seq<byte>)
    requires |b| >= HEADER
    ensures SeqNum(b) < Pow256(8)
    ensures b[..HEADER] == b[..SESSION] + BigEndian(SeqNum(b), 8) + U16(MessageCount(b))
  {
    BigEndianCanonical(b[SESSION..SESSION + 8]);
    assert U16(MessageCount(b)) == b[SESSION + 8..HEADER];
  }

  /** Encoding undoes decoding: a complete packet has one wire form. */
  lemma {:induction false} PacketCanonical(b: seq<byte>)
    requires Complete(b)
    ensures var p := Decode(b).value;
      && p.seqNum < Pow256(8)
      && HEADER + BlocksSize(p.msgs) <= |b|
      && b[..HEADER + BlocksSize(p.msgs)] == EncodePacket(b[..SESSION], p)
  {
    hide BlocksSize, EncodeBlocks, BigEndian, Pow256, Blocks;
    var p := Decode(b).value;
    BlocksIffWritten(b, HEADER, p.msgs);
    EncodeBlocksSize(p.msgs);
    HeaderCanonical(b);
    var last := HEADER + BlocksSize(p.msgs);
    assert b[..last] == b[..HEADER] + b[HEADER..last];
  }

  /** Cutting the bytes that follow a packet does not change the packet. */
  lemma {:induction false} DecodeTrimmed(b: seq<byte>)
    requires Complete(b)
    ensures var n := HEADER + BlocksSize(Decode(b).value.msgs);
      n <= |b| && Decode(b[..n]) == Decode(b)
  {
    var p := Decode(b).value;
    PacketCanonical(b);
    PacketRoundTrip(b[..SESSION], p, []);
    var n := HEADER + BlocksSize(p.msgs);
    assert b[..n] == EncodePacket(b[..SESSION], p) + [];
  }

  /** Where block number k of a packet begins. */
  function Offset(msgs: seq<Message>, k: nat): (at: nat)
    requires k <= |msgs|
    ensures at >= HEADER
  {
    if k == 0 then HEADER else Offset(msgs, k - 1) + 2 + |msgs[k - 1]|
  }

  /** Block k of the buffer is message k, for every k: what a pointer walk over the blocks will meet. */
  predicate LaidOut(b: seq<byte>, msgs: seq<Message>) {
    forall k {:trigger BlockIs(b, Offset(msgs, k), msgs[k])} ::
      0 <= k < |msgs| ==> BlockIs(b, Offset(msgs, k), msgs[k])
  }

  predicate BlockIs(b: seq<byte>, at: nat, m: Message) {
    at + 2 + |m| <= |b| && ReadU16(b, at) == |m| && b[at + 2..at + 2 + |m|] == m
  }

  lemma {:induction false} BlocksFrom(b: seq<byte>, msgs: seq<Message>, k: nat)
    requires k <= |msgs| && Blocks(b, HEADER, |msgs|) == Some(msgs)
    ensures Blocks(b, Offset(msgs, k), |msgs| - k) == Some(msgs[k..])
    decreases k
  {
    hide BlockIs, Blocks;
    if k == 0 {
      assert msgs[0..] == msgs;
    } else {
      BlocksFrom(b, msgs, k - 1);
      assert msgs[k - 1..][1..] == msgs[k..];
      BlocksHead(b, Offset(msgs, k - 1), msgs[k - 1..]);
    }
  }

  lemma {:induction false} OffsetSize(msgs: seq<Message>, k: nat)
    requires k <= |msgs|
    ensures Offset(msgs, k) == HEADER + BlocksSize(msgs[..k])
  {
    if k > 0 {
      OffsetSize(msgs, k - 1);
      assert msgs[..k] == msgs[..k - 1] + [msgs[k - 1]];
      BlocksSizeAppend(msgs[..k - 1], [msgs[k - 1]]);
    }
  }

  /** The buffer begins with packet `p`, said block by block. */
  predicate IsPacket(b: seq<byte>, p: Packet) {
    && |b| >= HEADER
    && SeqNum(b) == p.seqNum && MessageCount(b) == |p.msgs|
    && LaidOut(b, p.msgs)
  }

  lemma {:induction false} PacketLayout(b: seq<byte>)
    requires Complete(b)
    ensures IsPacket(b, Decode(b).value)
  {
    var msgs := Decode(b).value.msgs;
    forall k | 0 <= k < |msgs| ensures BlockIs(b, Offset(msgs, k), msgs[k]) {
      BlocksFrom(b, msgs, k);
      BlocksHead(b, Offset(msgs, k), msgs[k..]);
    }
  }

  lemma {:induction false} BlocksOfLayout(b: seq<byte>, msgs: seq<Message>, k: nat)
    requires LaidOut(b, msgs) && k <= |msgs|
    ensures Blocks(b, Offset(msgs, k), |msgs| - k) == Some(msgs[k..])
    decreases |msgs| - k
  {
    if k < |msgs| {
      BlocksOfLayout(b, msgs, k + 1);
      assert BlockIs(b, Offset(msgs, k), msgs[k]);
      hide Blocks, BlockIs;
      assert msgs[k..][1..] == msgs[k + 1..];
      BlocksHead(b, Offset(msgs, k), msgs[k..]);
    } else {
      assert msgs[k..] == [];
    }
  }

  /** The block-by-block description and the decoder agree. */
  lemma IsPacketIffDecodes(b: seq<byte>, p: Packet)
    ensures IsPacket(b, p) <==> Decode(b) == Some(p)
  {
    if Decode(b) == Some(p) {
      PacketLayout(b);
    }
    if IsPacket(b, p) {
      BlocksOfLayout(b, p.msgs, 0);
      assert p.msgs[0..] == p.msgs;
    }
  }

  /** Cutting off what follows the packet leaves the packet. */
  lemma {:induction false} IsPacketTrimmed(b: seq<byte>, p: Packet)
    requires IsPacket(b, p)
    ensures var n := Offset(p.msgs, |p.msgs|); n <= |b| && IsPacket(b[..n], p)
  {
    IsPacketIffDecodes(b, p);
    DecodeTrimmed(b);
    OffsetSize(p.msgs, |p.msgs|);
    assert p.msgs[..|p.msgs|] == p.msgs;
    IsPacketIffDecodes(b[..Offset(p.msgs, |p.msgs|)], p);
  }

  /** Block `i` of a packet: its length, its message, and where the next block begins. */
  lemma BlockOf(b: seq<byte>, p: Packet, i: nat)
    requires IsPacket(b, p) && i < |p.msgs|
    ensures var at := Offset(p.msgs, i);
      && at + 2 + |p.msgs[i]| <= |b| && ReadU16(b, at) == |p.msgs[i]|
      && b[at + 2..at + 2 + |p.msgs[i]|] == p.msgs[i]
      && Offset(p.msgs, i + 1) == at + 2 + |p.msgs[i]|
  {
    assert BlockIs(b, Offset(p.msgs, i), p.msgs[i]);
  }

  /** The length of the packet at the front of `buffer`, and the caller's count less the blocks not found. */
  method GetItchPacketLength(buffer: seq<byte>, realCount: int, ghost p: Packet) returns (parsedLen: nat, count: int)
    requires IsPacket(buffer, p)
    ensures parsedLen == Offset(p.msgs, |p.msgs|)
    ensures count == realCount
  {
    var messageCount := MessageCount(buffer);
    hide IsPacket;
    parsedLen := HEADER;
    var block := HEADER;
    while messageCount > 0
      invariant 0 <= messageCount <= |p.msgs|
      invariant block == parsedLen == Offset(p.msgs, |p.msgs| - messageCount)
    {
      BlockOf(buffer, p, |p.msgs| - messageCount);
      var messageLength := ReadU16(buffer, block);
      parsedLen := parsedLen + 2 + messageLength;
      if parsedLen > |buffer| {
        parsedLen := block;
      }
      block := block + 2 + messageLength;
      messageCount := messageCount - 1;
    }
    count := realCount - messageCount;
  }
}
