/** The snapshot session's frames as bytes: the server that writes them and the client's reading of them. */
module SoupBinTcp {
  import opened Bytes
  import opened Mold
  import opened Recovery
  import opened Client
  import opened SnapshotSession

  const TYPE_A: byte := 65
  const TYPE_J: byte := 74
  const TYPE_S: byte := 83
  const SPACE: byte := 32
  const ZERO: byte := 48
  const FIELD: nat := 20
  const CLOSING_TIME: nat := 10 * 1000   // milliseconds

  // ----- Numbers as text -----

  /** Decimal digits without leading zeros. */
  function Text(n: nat): (s: seq<byte>)
    ensures |s| > 0 && forall i :: 0 <= i < |s| ==> ZERO <= s[i] <= ZERO + 9
  {
    if n < 10 then [ZERO + n] else Text(n / 10) + [ZERO + n % 10]
  }

  function TextValue(s: seq<byte>): int {
    if s == [] then 0 else 10 * TextValue(s[..|s| - 1]) + (s[|s| - 1] - ZERO)
  }

  lemma {:induction false} TextRoundTrip(n: nat)
    ensures TextValue(Text(n)) == n
  {
    var s := Text(n);
    if n < 10 {
      assert s[..0] == [];
    } else {
      TextRoundTrip(n / 10);
      assert s[..|s| - 1] == Text(n / 10);
    }
  }

  /** `field` holds `n` from position `start` on and is padded with spaces. */
  predicate FieldAt(field: seq<byte>, start: nat, n: nat) {
    && start + |Text(n)| <= FIELD == |field|
    && field[start..start + |Text(n)|] == Text(n)
    && (forall i :: 0 <= i < start ==> field[i] == SPACE)
    && (forall i :: start + |Text(n)| <= i < FIELD ==> field[i] == SPACE)
  }

  /** Right-aligned, as servers write it. */
  predicate IsField(field: seq<byte>, n: nat) {
    |Text(n)| <= FIELD && FieldAt(field, FIELD - |Text(n)|, n)
  }

  function Spaces(n: nat): seq<byte> {
    seq(n, _ => SPACE)
  }

  function Field(n: nat): (f: seq<byte>)
    requires |Text(n)| <= FIELD
    ensures IsField(f, n)
  {
    Spaces(FIELD - |Text(n)|) + Text(n)
  }

  /** A field holds one number only. */
  lemma FieldTellsNumbersApart(field: seq<byte>, m: nat, n: nat)
    requires IsField(field, m) && IsField(field, n)
    ensures m == n
  {
    var i, j := FIELD - |Text(m)|, FIELD - |Text(n)|;
    assert field[i] == field[i..][0] && field[j] == field[j..][0];
    assert field[i..FIELD] == field[i..] && field[j..FIELD] == field[j..];
    assert i == j;
    TextRoundTrip(m);
    TextRoundTrip(n);
  }

  /** Digit by digit, as the library's number parsers read. */
  method ParseDigits(s: seq<byte>) returns (n: int)
    ensures n == TextValue(s)
  {
    n := 0;
    for i := 0 to |s|
      invariant n == TextValue(s[..i])
    {
      assert s[..i + 1][..i] == s[..i];
      n := 10 * n + (s[i] - ZERO);
    }
    assert s[..|s|] == s;
  }

  /** Blanks trimmed at both ends. */
  method Trim(field: seq<byte>, ghost start: nat, ghost n: nat) returns (p0: nat, p9: nat)
    requires FieldAt(field, start, n)
    ensures p0 == start && p9 + 1 == start + |Text(n)|
  {
    ghost var end := start + |Text(n)|;
    assert forall i :: start <= i < end ==> field[i] == field[start..end][i - start];
    hide Text;
    p0, p9 := 0, FIELD - 1;
    while p0 < p9 && field[p0] < ZERO
      invariant 0 <= p0 <= start
    {
      p0 := p0 + 1;
    }
    while p0 < p9 && field[p9] < ZERO
      invariant end - 1 <= p9 < FIELD
    {
      p9 := p9 - 1;
    }
  }

  /** The number in a login accept, a single digit read by hand. */
  method ReadAcceptSeqno(field: seq<byte>, ghost start: nat, ghost n: nat) returns (seqno: int)
    requires FieldAt(field, start, n)
    ensures seqno == n
  {
    var p0, p9 := Trim(field, start, n);
    TextRoundTrip(n);
    hide Text;
    assert field[p0..p9 + 1] == Text(n);
    if p9 > p0 {
      seqno := ParseDigits(field[p0..p9 + 1]);
    } else if field[p0] > SPACE {
      SingleDigit(field[p0..p9 + 1]);
      seqno := field[p0] - ZERO;
    } else {
      seqno := 1;
    }
  }

  lemma SingleDigit(s: seq<byte>)
    requires |s| == 1
    ensures TextValue(s) == s[0] - ZERO
  {
    assert s[..0] == [];
  }

  /** The number in an end marker: leading blanks skipped. */
  method ReadMarkerSeqno(field: seq<byte>, ghost n: nat) returns (seqno: int)
    requires IsField(field, n)
    ensures seqno == n
  {
    ghost var start := FIELD - |Text(n)|;
    assert field[start] == field[start..][0] && field[start..start + |Text(n)|] == field[start..];
    var p := 0;
    while p < FIELD && field[p] == SPACE
      invariant 0 <= p <= start
    {
      p := p + 1;
    }
    TextRoundTrip(n);
    seqno := ParseDigits(field[p..]);
  }

  // ----- Frames -----

  /** A snapshot message the session can carry: not empty, not taken for an end marker, and small enough. */
  predicate Carriable(m: Message) {
    0 < |m| <= SNAPSHOT_BUFFER - HEADER - 2 && m[0] != MESSAGE_TYPE_G
  }

  /** `b` begins with frame `f`. */
  predicate Means(b: seq<byte>, f: TcpFrame) {
    && |b| >= 3 && |b| >= ReadU16(b, 0) + 2
    && match f
       case LoginAccept(n) => |b| >= 33 && b[2] == TYPE_A && IsField(b[13..33], n)
       case LoginReject => b[2] == TYPE_J
       case SequencedData(m) => b[2] == TYPE_S && ReadU16(b, 0) == |m| + 1 && b[3..3 + |m|] == m && Carriable(m)
       case SnapshotComplete(n) => |b| >= 24 && b[2] == TYPE_S && b[3] == MESSAGE_TYPE_G && IsField(b[4..24], n)
       case Other => b[2] != TYPE_A && b[2] != TYPE_J && b[2] != TYPE_S
  }

  /** Bytes mean one frame at most. */
  lemma MeaningIsUnique(b: seq<byte>, f: TcpFrame, g: TcpFrame)
    requires Means(b, f) && Means(b, g)
    ensures f == g
  {
    hide IsField;
    match f
    case LoginAccept(m) => FieldTellsNumbersApart(b[13..33], m, g.seqno);
    case SnapshotComplete(m) =>
      assert g.SnapshotComplete? by { FirstByte(b, g); }
      FieldTellsNumbersApart(b[4..24], m, g.n);
    case SequencedData(m) => FirstByte(b, f); assert g.SequencedData?;
    case _ =>
  }

  lemma FirstByte(b: seq<byte>, f: TcpFrame)
    requires Means(b, f)
    ensures f.SequencedData? ==> b[3] != MESSAGE_TYPE_G
  {
    if f.SequencedData? {
      assert b[3] == b[3..3 + |f.m|][0];
    }
  }

  function AcceptFrame(session: seq<byte>, n: nat): (b: seq<byte>)
    requires |session| == SESSION && |Text(n)| <= FIELD
    ensures Means(b, LoginAccept(n))
  {
    var b := U16(31) + [TYPE_A] + session + Field(n);
    assert b[13..33] == Field(n);
    b
  }

  function DataFrame(m: Message): (b: seq<byte>)
    requires Carriable(m)
    ensures Means(b, SequencedData(m))
  {
    var b := U16(|m| + 1) + [TYPE_S] + m;
    assert b[3..3 + |m|] == m;
    b
  }

  function EndFrame(n: nat): (b: seq<byte>)
    requires |Text(n)| <= FIELD
    ensures Means(b, SnapshotComplete(n))
  {
    var b := U16(22) + [TYPE_S, MESSAGE_TYPE_G] + Field(n);
    assert b[4..24] == Field(n);
    b
  }

  /** The session's frames, byte for byte. */
  lemma KnownFrames(session: seq<byte>)
    requires |session| == 10
    ensures |Text(7)| <= FIELD && |Text(12)| <= FIELD
    ensures AcceptFrame(session, 7) == [0, 31, 65] + session + Spaces(19) + [55]
    ensures DataFrame([65, 66]) == [0, 3, 83, 65, 66]
    ensures EndFrame(12) == [0, 22, 83, 71] + Spaces(18) + [49, 50]
    ensures Spaces(3) == [32, 32, 32]
    ensures Means([0, 2, 74, 65], LoginReject) && Means([0, 1, 72], Other)
  {
    NetworkOrder();
    assert Text(7) == [55] && Text(12) == Text(1) + [50] == [49, 50];
  }

  /** The client's handling of a complete frame at the front of the bytes read so far. */
  method ExecuteTcpData(client: Channel, buf: seq<byte>, ghost f: TcpFrame, env: Env)
    requires Means(buf, f)
    requires client.Valid() && Possible(client.stream, client.Abs(), FrameEvent(f, env))
    requires client.snapshotMsgReceived + 1 < Pow256(8)
    modifies client
    ensures client.Valid() && client.Abs() == Step(client.stream, old(client.Abs()), FrameEvent(f, env))
  {
    hide FieldAt, Step, Possible;
    var claimLen := ReadU16(buf, 0);
    FirstByte(buf, f);
    if buf[2] == TYPE_A {
      var seqno := ReadAcceptSeqno(buf[13..33], FIELD - |Text(f.seqno)|, f.seqno);
      client.ExecuteTcpData(LoginAccept(seqno), env);
    } else if buf[2] == TYPE_J {
      client.ExecuteTcpData(LoginReject, env);
    } else if buf[2] == TYPE_S {
      if buf[3] == MESSAGE_TYPE_G {
        var seqno := ReadMarkerSeqno(buf[4..24], f.n);
        client.ExecuteTcpData(SnapshotComplete(seqno), env);
      } else {
        client.ExecuteTcpData(SequencedData(buf[3..claimLen + 2]), env);
      }
    } else {
      client.ExecuteTcpData(Other, env);
    }
  }

  // ----- The server -----

  predicate AllCarriable(ms: seq<Message>) {
    forall i :: 0 <= i < |ms| ==> Carriable(ms[i])
  }

  predicate AllMean(bs: seq<seq<byte>>, fs: seq<TcpFrame>) {
    |bs| == |fs| && forall i :: 0 <= i < |bs| ==> Means(bs[i], fs[i])
  }

  class SnapshotServer {
    const session: seq<byte>
    const outboundMsgs: seq<Message>
    const tcpInterval: nat
    var nextOut: nat
    var nextMcast: nat
    var lastSeqno: int
    var sendTime: nat
    var open: bool
    /** Every frame written to the snapshot socket. */
    var sent: seq<seq<byte>>
    ghost var frames: seq<TcpFrame>

    ghost predicate Valid()
      reads this
    {
      && |session| == SESSION && AllCarriable(outboundMsgs)
      && |Text(nextMcast)| <= FIELD
      && AllMean(sent, frames)
    }

    ghost function Abs(): Session
      reads this
    {
      Session(nextOut, nextMcast, lastSeqno, frames)
    }

    constructor (session: seq<byte>, outboundMsgs: seq<Message>, nextMcast: nat, tcpInterval: nat)
      requires |session| == SESSION && AllCarriable(outboundMsgs) && |Text(nextMcast)| <= FIELD
      ensures Valid() && Abs() == Fresh(nextMcast)
      ensures this.session == session && this.outboundMsgs == outboundMsgs
    {
      this.session, this.outboundMsgs, this.tcpInterval := session, outboundMsgs, tcpInterval;
      nextOut, this.nextMcast, lastSeqno, sendTime, open := 1, nextMcast, 0, 0, true;
      sent, frames := [], [];
    }

    /** The end marker; with it the connection gets ten more seconds. */
    method SendEndSnapshot(ok: bool)
      requires Valid()
      modifies this`sent, this`frames, this`lastSeqno, this`sendTime
      ensures Valid() && Abs() == EndSession(old(Abs()), ok)
      ensures sendTime == old(sendTime) + if ok then 10_000 else 0
    {
      hide Means, Text;
      if !ok {
        return;
      }
      sent := sent + [EndFrame(nextMcast)];
      frames := frames + [SnapshotComplete(nextMcast)];
      lastSeqno := -1;
      sendTime := sendTime + CLOSING_TIME;
    }

    method SendAccept(seqno: nat, ok: bool)
      requires Valid() && |Text(seqno)| <= FIELD
      modifies this`sent, this`frames
      ensures Valid() && Abs() == old(Abs()).(frames := old(frames) + if ok then [LoginAccept(seqno)] else [])
    {
      hide Means, Text;
      if !ok {
        return;
      }
      sent := sent + [AcceptFrame(session, seqno)];
      frames := frames + [LoginAccept(seqno)];
    }

    /** A login with the right password is accepted, and ended at once if there is nothing to send yet. */
    method ConfirmLogin(known: bool, seqno: nat, now: nat, acceptOk: bool, endOk: bool)
      requires Valid() && |Text(seqno)| <= FIELD
      modifies this
      ensures Valid() && Abs() == if known then LogIn(old(Abs()), seqno, acceptOk, endOk) else old(Abs())
      ensures known ==> sendTime == now + 10 + if seqno >= nextMcast && endOk then 10_000 else 0
      ensures !known ==> sendTime == old(sendTime)
      ensures open == old(open)
    {
      hide Means, Text;
      if known {
        SendAccept(seqno, acceptOk);
        sendTime := now + 10;
        lastSeqno := seqno + 500;
        if seqno >= nextMcast {
          SendEndSnapshot(endOk);
        }
      }
    }

    /** The next snapshot message, and the end marker when the multicast is caught up with; once it is, the
        connection is closed when its time has come. */
    method SendSnapshotMessage(ok: bool, endOk: bool, now: nat)
      requires Valid() && (lastSeqno != -1 ==> 1 <= nextOut <= |outboundMsgs|)
      modifies this
      ensures Valid() && Abs() == SendMessage(outboundMsgs, old(Abs()), ok, endOk)
      ensures sendTime == old(sendTime)
        + (if nextOut > old(nextOut) then tcpInterval else 0)
        + if nextOut > old(nextOut) && nextOut >= nextMcast && endOk then 10_000 else 0
      ensures open == (old(open) && !(old(lastSeqno) == -1 && old(sendTime) < now))
    {
      hide Means, Text;
      if lastSeqno == -1 {
        if sendTime < now {
          open := false;
        }
        return;
      }
      if !ok {
        return;
      }
      var m := outboundMsgs[nextOut - 1];
      sent := sent + [DataFrame(m)];
      frames := frames + [SequencedData(m)];
      nextOut := nextOut + 1;
      sendTime := sendTime + tcpInterval;
      if nextOut >= nextMcast {
        SendEndSnapshot(endOk);
        lastSeqno := -1;
      }
    }

    /** The multicast has gone out up to and with message `last`. */
    method Multicast(last: nat)
      requires Valid() && |Text(last + 1)| <= FIELD
      modifies this`nextMcast
      ensures Valid() && Abs() == old(Abs()).(nextMcast := last + 1)
    {
      nextMcast := last + 1;
    }
  }
}
