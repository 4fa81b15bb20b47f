/** The byte queue of a channel: entries are written one behind the other into one buffer, each as a header
    of two machine words and its payload, and walked from the front. */
module MessageQueue {
  import opened Bytes

  const WORD: nat := 8
  const HEADER: nat := 2 * WORD
  const CAPACITY: nat := 30_000_000

  datatype Entry = Entry(context: nat, payload: seq<byte>)

  /** What fits a machine word. */
  predicate Fits(e: Entry) {
    e.context < Pow256(WORD) && |e.payload| < Pow256(WORD)
  }

  /** Words are written and read by the same machine, so their byte order does not matter. */
  function EntryBytes(e: Entry): (b: seq<byte>)
    ensures |b| == HEADER + |e.payload|
  {
    BigEndian(|e.payload|, WORD) + BigEndian(e.context, WORD) + e.payload
  }

  function Image(es: seq<Entry>): seq<byte> {
    if es == [] then [] else Image(es[..|es| - 1]) + EntryBytes(es[|es| - 1])
  }

  lemma ImagePush(es: seq<Entry>, e: Entry)
    ensures Image(es + [e]) == Image(es) + EntryBytes(e)
  {
    assert (es + [e])[..|es|] == es;
  }

  /** Where entry `i` lies in the bytes of the queue. */
  lemma {:induction false} EntryAt(es: seq<Entry>, i: nat)
    requires i < |es|
    ensures |Image(es[..i + 1])| == |Image(es[..i])| + |EntryBytes(es[i])| <= |Image(es)|
    ensures Image(es)[|Image(es[..i])|..|Image(es[..i + 1])|] == EntryBytes(es[i])
    decreases |es|
  {
    assert es[..i + 1] == es[..i] + [es[i]];
    ImagePush(es[..i], es[i]);
    if i == |es| - 1 {
      assert es[..i + 1] == es;
    } else {
      var front := es[..|es| - 1];
      EntryAt(front, i);
      assert front[..i] == es[..i] && front[..i + 1] == es[..i + 1];
    }
  }

  /** The header of an entry gives back its length and context, and its payload follows. */
  lemma EntryRoundTrip(e: Entry)
    requires Fits(e)
    ensures var b := EntryBytes(e);
      && ReadBigEndian(b[..WORD]) == |e.payload|
      && ReadBigEndian(b[WORD..HEADER]) == e.context
      && b[HEADER..] == e.payload
  {
    BigEndianRoundTrip(|e.payload|, WORD);
    BigEndianRoundTrip(e.context, WORD);
    var b := EntryBytes(e);
    assert b[..WORD] == BigEndian(|e.payload|, WORD);
    assert b[WORD..HEADER] == BigEndian(e.context, WORD);
  }

  /** Two queues with the same bytes hold the same entries in the same order. */
  lemma {:induction false} BytesTellQueuesApart(a: seq<Entry>, b: seq<Entry>)
    requires (forall i :: 0 <= i < |a| ==> Fits(a[i])) && (forall i :: 0 <= i < |b| ==> Fits(b[i]))
    ensures Image(a) == Image(b) <==> a == b
    decreases |a|
  {
    if Image(a) == Image(b) {
      AgreeUpTo(a, b, |a|);
      assert a[..|a|] == a == b[..|a|];
      if |a| < |b| {
        EntryAt(b, |a|);
        assert false;
      }
    }
  }

  lemma {:induction false} AgreeUpTo(a: seq<Entry>, b: seq<Entry>, n: nat)
    requires (forall i :: 0 <= i < |a| ==> Fits(a[i])) && (forall i :: 0 <= i < |b| ==> Fits(b[i]))
    requires n <= |a| && Image(a) == Image(b)
    ensures n <= |b| && a[..n] == b[..n]
  {
    hide Image, EntryBytes, Fits;
    if n > 0 {
      AgreeUpTo(a, b, n - 1);
      EntryAt(a, n - 1);
      assert b[..|b|] == b;
      EntryInFront(a, n - 1);
      EntryInFront(b, n - 1);
      SameFront(Image(a)[|Image(a[..n - 1])|..], a[n - 1], b[n - 1]);
      assert a[..n] == a[..n - 1] + [a[n - 1]] && b[..n] == b[..n - 1] + [b[n - 1]];
    }
  }

  lemma EntryInFront(es: seq<Entry>, i: nat)
    requires i < |es|
    ensures |Image(es[..i])| <= |Image(es)| && EntryBytes(es[i]) <= Image(es)[|Image(es[..i])|..]
  {
    hide Image, EntryBytes;
    EntryAt(es, i);
  }

  lemma SameFront(whole: seq<byte>, x: Entry, y: Entry)
    requires Fits(x) && Fits(y) && EntryBytes(x) <= whole && EntryBytes(y) <= whole
    ensures x == y
  {
    EntryRoundTrip(x);
    EntryRoundTrip(y);
    var b, c := EntryBytes(x), EntryBytes(y);
    assert b[..WORD] == whole[..WORD] == c[..WORD];
    assert b[WORD..HEADER] == whole[WORD..HEADER] == c[WORD..HEADER];
    assert b == whole[..|b|] && c == whole[..|c|];
  }

  class Queue {
    const buffer: array<byte>
    var offset: nat
    /** What was enqueued since the last reset. */
    ghost var entries: seq<Entry>

    ghost predicate Valid()
      reads this, buffer
    {
      && offset <= buffer.Length
      && (forall i :: 0 <= i < |entries| ==> Fits(entries[i]))
      && buffer[..offset] == Image(entries)
    }

    constructor ()
      ensures Valid() && fresh(buffer) && entries == [] && buffer.Length == CAPACITY
    {
      buffer := new byte[CAPACITY](_ => 0);
      offset, entries := 0, [];
      new;
      assert buffer[..0] == [];
    }

    function WouldOverflow(len: nat): bool
      reads this
    {
      offset + HEADER + len >= buffer.Length
    }

    function HasMore(at: nat): bool
      reads this
    {
      at < offset
    }

    /** An empty queue takes payloads of fewer than 30000000 - 16 bytes. */
    lemma LargestPayload(len: nat)
      requires offset == 0 && buffer.Length == 30_000_000
      ensures WouldOverflow(len) <==> len >= 29_999_984
    {
    }

    method Put(at: nat, bytes: seq<byte>)
      requires at + |bytes| <= buffer.Length
      modifies buffer
      ensures buffer[..at + |bytes|] == old(buffer[..at]) + bytes
    {
      forall i | 0 <= i < |bytes| {
        buffer[at + i] := bytes[i];
      }
    }

    method Enqueue(context: nat, payload: seq<byte>)
      requires Valid() && !WouldOverflow(|payload|) && Fits(Entry(context, payload))
      modifies this, buffer
      ensures Valid() && entries == old(entries) + [Entry(context, payload)]
    {
      hide Image, BigEndian, Pow256;
      ImagePush(entries, Entry(context, payload));
      Put(offset, BigEndian(|payload|, WORD) + BigEndian(context, WORD));
      offset := offset + HEADER;
      Put(offset, payload);
      offset := offset + |payload|;
      entries := entries + [Entry(context, payload)];
      assert buffer[..offset] == Image(old(entries)) + EntryBytes(Entry(context, payload));
    }

    method Reset()
      requires Valid()
      modifies this
      ensures Valid() && entries == []
    {
      offset, entries := 0, [];
    }

    /** The entry at `at`, which is the `i`-th, and where the next one starts. */
    method GetPayloadAt(at: nat, ghost i: nat) returns (next: nat, context: nat, payload: seq<byte>)
      requires Valid() && i < |entries| && at == |Image(entries[..i])|
      ensures Entry(context, payload) == entries[i]
      ensures next == |Image(entries[..i + 1])| <= offset
    {
      hide Image, Fits, BigEndian, ReadBigEndian, Pow256;
      ghost var e := entries[i];
      EntryAt(entries, i);
      EntryRoundTrip(e);
      hide EntryBytes;
      ghost var b := buffer[at..at + |EntryBytes(e)|];
      assert b == EntryBytes(e);
      SliceOfSlice(buffer[..], at, |b|, 0, WORD);
      SliceOfSlice(buffer[..], at, |b|, WORD, HEADER);
      SliceOfSlice(buffer[..], at, |b|, HEADER, |b|);
      var len := ReadBigEndian(buffer[at..at + WORD]);
      context := ReadBigEndian(buffer[at + WORD..at + HEADER]);
      payload := buffer[at + HEADER..at + HEADER + len];
      next := at + HEADER + len;
    }

    /** Walking from the front gives back exactly what was enqueued, in order. */
    method Walk() returns (found: seq<Entry>)
      requires Valid()
      ensures found == entries
    {
      assert Image(entries[..0]) == [];
      hide Image, EntryBytes, Fits;
      found := [];
      var at := 0;
      while HasMore(at)
        invariant |found| <= |entries| && found == entries[..|found|]
        invariant at == |Image(entries[..|found|])| <= offset
        decreases offset - at
      {
        assert entries[..|entries|] == entries;
        ghost var i := |found|;
        var context, payload;
        EntryAt(entries, i);
        at, context, payload := GetPayloadAt(at, i);
        found := found + [Entry(context, payload)];
      }
      if |found| < |entries| { EntryAt(entries, |found|); }
    }
  }
}
