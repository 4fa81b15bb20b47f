/** Cutting a TCP byte stream into SoupBinTCP frames: a two-byte length, then that many bytes.  The
    dispatcher appends what it reads to one buffer, hands complete frames on, and moves the rest to the front. */
module TcpReassembly {
  import opened Bytes

  const SMALLEST: nat := 3

  /** The size of the complete frame at the front of `b`, or 0 where there is none yet. */
  function FrameSize(b: seq<byte>): (n: nat)
    ensures n <= |b| && (n != 0 ==> 2 <= n)
  {
    if |b| < SMALLEST then 0
    else if |b| < ReadU16(b, 0) + 2 then 0
    else ReadU16(b, 0) + 2
  }

  datatype Parts = Parts(frames: seq<seq<byte>>, rest: seq<byte>)

  /** All complete frames of `b` and the bytes after them. */
  function Cut(b: seq<byte>): Parts
    decreases |b|
  {
    var n := FrameSize(b);
    if n == 0 then Parts([], b)
    else
      var p := Cut(b[n..]);
      Parts([b[..n]] + p.frames, p.rest)
  }

  /** A heartbeat, a frame of two bytes more, and the first byte of another. */
  lemma KnownStream()
    ensures FrameSize([0, 0]) == 0 && FrameSize([0, 1]) == 0 && FrameSize([0, 2, 72]) == 0 && FrameSize([0, 1, 72]) == 3
    ensures Cut([0, 1, 72, 0, 2, 65, 66, 0]) == Parts([[0, 1, 72], [0, 2, 65, 66]], [0])
  {
    var b: seq<byte> := [0, 1, 72, 0, 2, 65, 66, 0];
    assert b[..3] == [0, 1, 72] && b[3..] == [0, 2, 65, 66, 0];
    assert b[3..][..4] == [0, 2, 65, 66] && b[3..][4..] == [0];
    assert Cut(b[3..]) == Parts([[0, 2, 65, 66]] + Cut([0]).frames, Cut([0]).rest);
  }

  function Joined(fs: seq<seq<byte>>): seq<byte> {
    if fs == [] then [] else fs[0] + Joined(fs[1..])
  }

  /** A frame as a sender writes it: type byte present, length field right. */
  predicate IsFrame(f: seq<byte>) {
    |f| >= SMALLEST && |f| == ReadU16(f, 0) + 2
  }

  /** Cutting loses nothing. */
  lemma {:induction false} CutKeepsBytes(b: seq<byte>)
    ensures Joined(Cut(b).frames) + Cut(b).rest == b
    decreases |b|
  {
    var n := FrameSize(b);
    if n != 0 {
      CutKeepsBytes(b[n..]);
      var f, p := b[..n], Cut(b[n..]);
      assert ([f] + p.frames)[1..] == p.frames;
      assert b == f + (Joined(p.frames) + p.rest);
    }
  }

  /** Cutting stops only where no frame is complete. */
  lemma {:induction false} CutStops(b: seq<byte>)
    ensures FrameSize(Cut(b).rest) == 0
    decreases |b|
  {
    if FrameSize(b) != 0 {
      CutStops(b[FrameSize(b)..]);
    }
  }

  /** `p` behind frames already cut. */
  function After(frames: seq<seq<byte>>, p: Parts): Parts {
    Parts(frames + p.frames, p.rest)
  }

  lemma AfterStep(frames: seq<seq<byte>>, b: seq<byte>)
    ensures var n := FrameSize(b);
      After(frames, Cut(b)) == if n == 0 then Parts(frames, b) else After(frames + [b[..n]], Cut(b[n..]))
  {
  }

  lemma CutNothing(tail: seq<byte>)
    requires FrameSize(tail) == 0
    ensures Cut(tail) == Parts([], tail)
  {
  }

  lemma FrameInFront(f: seq<byte>, rest: seq<byte>)
    requires IsFrame(f)
    ensures Cut(f + rest) == After([f], Cut(rest))
  {
    var b := f + rest;
    assert b[0] == f[0] && b[1] == f[1];
    assert b[..|f|] == f && b[|f|..] == rest;
  }

  /** The frames a sender wrote are the frames cut out, whatever partial frame follows them. */
  lemma {:induction false} FramesRoundTrip(fs: seq<seq<byte>>, tail: seq<byte>)
    requires forall i :: 0 <= i < |fs| ==> IsFrame(fs[i])
    requires FrameSize(tail) == 0
    ensures Cut(Joined(fs) + tail) == Parts(fs, tail)
    decreases |fs|
  {
    hide IsFrame, Cut;
    if fs == [] {
      assert [] + tail == tail;
      CutNothing(tail);
    } else {
      var b, f, rest := Joined(fs) + tail, fs[0], Joined(fs[1..]) + tail;
      assert b == f + rest;
      FrameInFront(f, rest);
      FramesRoundTrip(fs[1..], tail);
      assert Cut(b) == Parts([f] + fs[1..], tail);
      assert fs == [f] + fs[1..];
    }
  }

  /** What comes behind a complete frame does not change it. */
  lemma FrameKept(a: seq<byte>, b: seq<byte>)
    requires FrameSize(a) != 0
    ensures var n := FrameSize(a);
      FrameSize(a + b) == n && (a + b)[..n] == a[..n] && (a + b)[n..] == a[n..] + b
  {
    assert (a + b)[0] == a[0] && (a + b)[1] == a[1];
  }

  lemma CutStep(b: seq<byte>)
    requires FrameSize(b) != 0
    ensures Cut(b) == After([b[..FrameSize(b)]], Cut(b[FrameSize(b)..]))
  {
  }

  lemma AfterAfter(x: seq<seq<byte>>, y: seq<seq<byte>>, p: Parts)
    ensures After(x, After(y, p)) == After(x + y, p)
  {
    assert x + (y + p.frames) == x + y + p.frames;
  }

  lemma AfterNothing(p: Parts)
    ensures After([], p) == p
  {
    assert [] + p.frames == p.frames;
  }

  /** Cutting a prefix first and what it left over later gives the same frames in the same order. */
  lemma {:induction false} CutInTwo(a: seq<byte>, b: seq<byte>)
    ensures var first := Cut(a); var second := Cut(first.rest + b);
      Cut(a + b) == After(first.frames, second)
    decreases |a|
  {
    hide Cut, FrameSize;
    var n := FrameSize(a);
    if n != 0 {
      CutStep(a);
      FrameKept(a, b);
      CutStep(a + b);
      CutInTwo(a[n..], b);
      var first := Cut(a[n..]);
      AfterAfter([a[..n]], first.frames, Cut(first.rest + b));
    } else {
      CutNothing(a);
      AfterNothing(Cut(a + b));
    }
  }

  /** A buffer that is full gives up no frame exactly when the frame at its front is larger than the buffer;
      then the next read asks for zero bytes and is taken for the end of the stream. */
  lemma FullBufferStalls(b: seq<byte>, size: nat)
    requires |b| == size >= SMALLEST
    ensures Cut(b).rest == b <==> ReadU16(b, 0) + 2 > size
    ensures ReadU16(b, 0) + 2 <= size ==> |Cut(b).rest| < size
  {
    var n := FrameSize(b);
    if n != 0 {
      CutKeepsBytes(b[n..]);
      assert |Cut(b).rest| <= |b[n..]|;
    }
  }

  /** After a cut the rest fills the buffer only if the frame it begins is larger than the buffer. */
  lemma FullAfterCut(b: seq<byte>, size: nat)
    requires size >= SMALLEST && |Cut(b).rest| == size
    ensures ReadU16(Cut(b).rest, 0) + 2 > size
  {
    CutStops(b);
  }

  class TcpBuffer {
    const buffer: array<byte>
    var bufferEnd: nat
    /** The frames handed to the handler, in order. */
    var frames: seq<seq<byte>>
    /** Every byte read from the socket. */
    ghost var received: seq<byte>

    /** What was handed on and what is still held are fixed by the bytes received, not by how they came. */
    ghost predicate Valid()
      reads this, buffer
    {
      && bufferEnd <= buffer.Length
      && Cut(received) == Parts(frames, buffer[..bufferEnd])
    }

    constructor (size: nat)
      ensures Valid() && fresh(buffer) && buffer.Length == size && received == [] && frames == []
    {
      buffer := new byte[size](_ => 0);
      bufferEnd, frames, received := 0, [], [];
      new;
      assert buffer[..0] == [];
    }

    /** How many bytes the next read asks for. */
    function ReadSize(): nat
      requires bufferEnd <= buffer.Length
      reads this
    {
      buffer.Length - bufferEnd
    }

    /** The handler: takes one complete frame from the front of the bytes, or nothing. */
    method ReadFrame(begin: nat, remaining: nat) returns (msgSize: nat)
      requires begin + remaining <= buffer.Length
      modifies this`frames
      ensures msgSize == FrameSize(buffer[begin..begin + remaining])
      ensures frames == if msgSize == 0 then old(frames) else old(frames) + [buffer[begin..begin + msgSize]]
    {
      if remaining < SMALLEST {
        return 0;
      }
      var claimLen := ReadU16(buffer[begin..begin + remaining], 0);
      if remaining < claimLen + 2 {
        return 0;
      }
      frames := frames + [buffer[begin..begin + claimLen + 2]];
      return claimLen + 2;
    }

    /** The handler takes frames until it takes nothing. */
    method ConsumeFrames() returns (begin: nat, remaining: nat)
      requires bufferEnd <= buffer.Length
      modifies this`frames
      ensures begin + remaining == bufferEnd
      ensures Parts(frames, buffer[begin..bufferEnd]) == After(old(frames), Cut(buffer[..bufferEnd]))
    {
      hide Cut, After, FrameSize;
      remaining := bufferEnd;
      begin := 0;
      assert buffer[0..bufferEnd] == buffer[..bufferEnd];
      while true
        invariant begin + remaining == bufferEnd
        invariant After(frames, Cut(buffer[begin..bufferEnd])) == After(old(frames), Cut(buffer[..bufferEnd]))
        decreases remaining
      {
        ghost var b := buffer[begin..bufferEnd];
        AfterStep(frames, b);
        var msgSize := ReadFrame(begin, remaining);
        if msgSize == 0 {
          break;
        }
        assert b[..msgSize] == buffer[begin..begin + msgSize];
        assert b[msgSize..] == buffer[begin + msgSize..bufferEnd];
        begin := begin + msgSize;
        remaining := remaining - msgSize;
      }
    }

    /** The read itself, behind what is held. */
    method Append(chunk: seq<byte>)
      requires bufferEnd + |chunk| <= buffer.Length
      modifies this`bufferEnd, buffer
      ensures bufferEnd == old(bufferEnd) + |chunk| && buffer[..bufferEnd] == old(buffer[..bufferEnd]) + chunk
    {
      forall i | 0 <= i < |chunk| {
        buffer[bufferEnd + i] := chunk[i];
      }
      bufferEnd := bufferEnd + |chunk|;
    }

    /** The last `remaining` bytes move to the front. */
    method Compact(begin: nat, remaining: nat)
      requires begin + remaining == bufferEnd <= buffer.Length
      modifies this`bufferEnd, buffer
      ensures bufferEnd == remaining && buffer[..bufferEnd] == old(buffer[begin..bufferEnd])
    {
      if remaining == 0 {
        bufferEnd := 0;
      } else {
        forall i | 0 <= i < remaining {
          buffer[i] := buffer[begin + i];
        }
        bufferEnd := remaining;
      }
    }

    /** One read from the socket: append, hand complete frames on, move what is left to the front. */
    method OnRead(chunk: seq<byte>)
      requires Valid() && 0 < |chunk| <= ReadSize()
      modifies this, buffer
      ensures Valid() && received == old(received) + chunk
    {
      hide Cut;
      CutInTwo(received, chunk);
      Append(chunk);
      received := received + chunk;
      var begin, remaining := ConsumeFrames();
      Compact(begin, remaining);
    }

    /** As long as the frame being received fits the buffer, the next read asks for at least one byte. */
    lemma NeverReadsNothing()
      requires Valid() && buffer.Length >= SMALLEST
      ensures ReadSize() == 0 ==> ReadU16(buffer[..bufferEnd], 0) + 2 > buffer.Length
    {
      if ReadSize() == 0 {
        FullAfterCut(received, buffer.Length);
      }
    }
  }

  // ----- Whole runs -----

  /** The chunks fed one after the other, each behind what the one before left over. */
  function FeedAll(held: seq<byte>, chunks: seq<seq<byte>>): Parts
    decreases |chunks|
  {
    if chunks == [] then Parts([], held)
    else
      var p := Cut(held + chunks[0]);
      After(p.frames, FeedAll(p.rest, chunks[1..]))
  }

  /** However a stream is split into reads, the frames are those of the unsplit stream. */
  lemma {:induction false} ChunkingDoesNotMatter(held: seq<byte>, chunks: seq<seq<byte>>)
    requires FrameSize(held) == 0
    ensures FeedAll(held, chunks) == Cut(held + Joined(chunks))
    decreases |chunks|
  {
    hide Cut, After;
    if chunks == [] {
      CutNothing(held);
      assert held + [] == held;
    } else {
      var a := held + chunks[0];
      CutStops(a);
      ChunkingDoesNotMatter(Cut(a).rest, chunks[1..]);
      CutInTwo(a, Joined(chunks[1..]));
      assert held + Joined(chunks) == a + Joined(chunks[1..]);
    }
  }
}
