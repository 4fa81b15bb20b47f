/** Network byte order, as read by `ntohs`/`ntohll` and written by `htons`/`htonll`. */
module Bytes {
  type byte = x: int | 0 <= x < 256

  datatype Option<+T> = None | Some(value: T)

  function U16(n: nat): (b: seq<byte>)
    requires n < 0x1_0000
    ensures |b| == 2
  {
    [n / 256, n % 256]
  }

  function ReadU16(b: seq<byte>, at: nat): (n: nat)
    requires at + 2 <= |b|
    ensures n < 0x1_0000
  {
    var high: int, low: int := b[at], b[at + 1];
    high * 256 + low
  }

  function Pow256(k: nat): (p: nat)
    ensures p > 0
  {
    if k == 0 then 1 else 256 * Pow256(k - 1)
  }

  /** The low `width` bytes of n, most significant first. */
  function BigEndian(n: nat, width: nat): (b: seq<byte>)
    ensures |b| == width
  {
    if width == 0 then [] else BigEndian(n / 256, width - 1) + [n % 256]
  }

  function ReadBigEndian(b: seq<byte>): nat {
    if b == [] then 0 else ReadBigEndian(b[..|b| - 1]) * 256 + b[|b| - 1]
  }

  lemma {:induction false} BigEndianRoundTrip(n: nat, width: nat)
    requires n < Pow256(width)
    ensures ReadBigEndian(BigEndian(n, width)) == n
  {
    if width != 0 {
      var b := BigEndian(n, width);
      assert b[..|b| - 1] == BigEndian(n / 256, width - 1);
      BigEndianRoundTrip(n / 256, width - 1);
    }
  }

  lemma {:induction false} BigEndianCanonical(b: seq<byte>)
    ensures BigEndian(ReadBigEndian(b), |b|) == b
    ensures ReadBigEndian(b) < Pow256(|b|)
  {
    if b != [] {
      BigEndianCanonical(b[..|b| - 1]);
      assert b == b[..|b| - 1] + [b[|b| - 1]];
    }
  }

  lemma SliceOfSlice(s: seq<byte>, at: nat, size: nat, i: nat, j: nat)
    requires at + size <= |s| && i <= j <= size
    ensures s[at..at + size][i..j] == s[at + i..at + j]
  {
    var a, b := s[at..at + size][i..j], s[at + i..at + j];
    forall k | 0 <= k < j - i ensures a[k] == b[k] {
    }
  }

  /** Most significant byte first. */
  lemma NetworkOrder()
    ensures U16(258) == [1, 2] && ReadU16([9, 1, 2], 1) == 258
    ensures BigEndian(258, 8) == [0, 0, 0, 0, 0, 0, 1, 2]
    ensures ReadBigEndian([0, 0, 0, 0, 0, 0, 1, 2]) == 258
  {
    assert BigEndian(0, 6) == [0, 0, 0, 0, 0, 0] by {
      assert BigEndian(0, 3) == [0, 0, 0];
    }
    assert BigEndian(1, 7) == BigEndian(0, 6) + [1];
    assert BigEndian(258, 8) == BigEndian(1, 7) + [2];
    BigEndianRoundTrip(258, 8);
    assert Pow256(2) == 65536 && Pow256(8) >= Pow256(2);
  }

  /** `w` lies in `s` from position `at` on. */
  predicate LiesAt(s: seq<byte>, at: nat, w: seq<byte>) {
    at + |w| <= |s| && s[at..at + |w|] == w
  }

  lemma LiesInside(s: seq<byte>, at: nat, w: seq<byte>)
    ensures LiesAt(s, at, w) ==> at + |w| <= |s|
  {
  }

  lemma LiesJoined(s: seq<byte>, at: nat, x: seq<byte>, y: seq<byte>)
    ensures LiesAt(s, at, x + y) <==> LiesAt(s, at, x) && LiesAt(s, at + |x|, y)
  {
    var last := at + |x| + |y|;
    if last <= |s| {
      assert s[at..last] == s[at..at + |x|] + s[at + |x|..last];
      if s[at..last] == x + y {
        SplitSlice(s, at, last, x, y);
      }
    }
  }

  lemma SplitSlice(s: seq<byte>, at: nat, last: nat, x: seq<byte>, y: seq<byte>)
    requires at <= last <= |s| && s[at..last] == x + y
    ensures at + |x| <= last && s[at..at + |x|] == x && s[at + |x|..last] == y
  {
    var all := s[at..last];
    forall k | 0 <= k < |x| ensures s[at + k] == x[k] {
      assert all[k] == x[k];
    }
    forall k | 0 <= k < |y| ensures s[at + |x| + k] == y[k] {
      assert all[|x| + k] == y[k];
    }
  }
}
