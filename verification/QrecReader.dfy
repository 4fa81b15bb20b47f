/** Reading a recorded file of qRec and qRel records through a fixed buffer: whatever the buffer's size, the
    handler sees each record once and in order. */
module QrecReader {
  import opened Bytes

  /** The two record headers, declared elsewhere: their sizes and how length and context are read from them;
      and the largest context the reader accepts. */
  datatype Format = Format(shortSize: nat, longSize: nat,
                           shortLen: seq<byte> -> nat, longLen: seq<byte> -> nat,
                           shortContext: seq<byte> -> nat, longContext: seq<byte> -> nat,
                           maxContext: nat)
  {
    predicate Valid() { 4 <= shortSize <= longSize }
  }

  /** "qRec" and "qRel". */
  const SHORT_TITLE: seq<byte> := [113, 82, 101, 99]
  const LONG_TITLE: seq<byte> := [113, 82, 101, 108]

  datatype Call = Call(context: nat, payload: seq<byte>)

  /** What the header at the front of `b` announces: header size, payload length, context. */
  datatype Header = Header(size: nat, len: nat, context: nat)

  /** The header at the front of `b`, if its bytes are all there and its title is known. */
  function ReadHeader(f: Format, b: seq<byte>): Option<Header>
    requires f.Valid()
  {
    if |b| < f.shortSize then None
    else if b[..4] == SHORT_TITLE then
      Some(Header(f.shortSize, f.shortLen(b[..f.shortSize]), f.shortContext(b[..f.shortSize])))
    else if b[..4] == LONG_TITLE && |b| >= f.longSize then
      Some(Header(f.longSize, f.longLen(b[..f.longSize]), f.longContext(b[..f.longSize])))
    else None
  }

  /** The front of `b` is a whole record, no larger than `limit`. */
  predicate HasRecord(f: Format, b: seq<byte>, limit: nat)
    requires f.Valid()
  {
    match ReadHeader(f, b)
    case None => false
    case Some(h) =>
      h.size + h.len <= |b| && h.size + h.len <= limit && f.shortContext(b[..f.shortSize]) <= f.maxContext
  }

  /** A file of whole records. */
  predicate WellFormed(f: Format, file: seq<byte>, limit: nat)
    requires f.Valid()
    decreases |file|
  {
    file != [] ==> HasRecord(f, file, limit) && WellFormed(f, file[RecordSize(f, file)..], limit)
  }

  function RecordSize(f: Format, b: seq<byte>): (n: nat)
    requires f.Valid() && ReadHeader(f, b).Some?
    ensures n >= f.shortSize
  {
    ReadHeader(f, b).value.size + ReadHeader(f, b).value.len
  }

  /** The calls a reader of the whole file makes: one for each record, in order. */
  function Calls(f: Format, file: seq<byte>, limit: nat): seq<Call>
    requires f.Valid() && WellFormed(f, file, limit)
    decreases |file|
  {
    if file == [] then []
    else
      var h := ReadHeader(f, file).value;
      [Call(h.context, file[h.size..h.size + h.len])] + Calls(f, file[RecordSize(f, file)..], limit)
  }

  /** The calls this reader makes. It looks at a record only when more than a short header is left, so a
      record that is a short header without payload is passed over when it ends the file. */
  function Seen(f: Format, file: seq<byte>, limit: nat): seq<Call>
    requires f.Valid() && WellFormed(f, file, limit)
    decreases |file|
  {
    if |file| <= f.shortSize then []
    else
      var h := ReadHeader(f, file).value;
      [Call(h.context, file[h.size..h.size + h.len])] + Seen(f, file[RecordSize(f, file)..], limit)
  }

  /** The last record of the file is a short header without payload. */
  predicate EndsBare(f: Format, file: seq<byte>, limit: nat)
    requires f.Valid() && WellFormed(f, file, limit)
    decreases |file|
  {
    && file != []
    && var rest := file[RecordSize(f, file)..];
       if rest == [] then RecordSize(f, file) == f.shortSize else EndsBare(f, rest, limit)
  }

  /** Every record is handed on if and only if the file does not end in a bare header; if it does, that one
      record is all that is missing. */
  lemma {:induction false} OnlyABareEndIsMissed(f: Format, file: seq<byte>, limit: nat)
    requires f.Valid() && WellFormed(f, file, limit)
    ensures Seen(f, file, limit) == Calls(f, file, limit) <==> !EndsBare(f, file, limit)
    ensures EndsBare(f, file, limit) ==>
      Calls(f, file, limit) != [] && Seen(f, file, limit) == Calls(f, file, limit)[..|Calls(f, file, limit)| - 1]
    decreases |file|
  {
    if file != [] {
      OnlyABareEndIsMissed(f, file[RecordSize(f, file)..], limit);
    }
  }

  // ----- Writing, for the way back -----

  /** A record to be written: a long or a short one, its header's bytes and its payload. */
  datatype Record = Record(long: bool, header: seq<byte>, payload: seq<byte>)

  function FileOf(rs: seq<Record>): seq<byte> {
    if rs == [] then [] else rs[0].header + rs[0].payload + FileOf(rs[1..])
  }

  /** The header has its kind's size and title, "qRel" or "qRec", and says the length of the payload where
      its kind says it. */
  predicate IsRecord(f: Format, r: Record, limit: nat)
    requires f.Valid()
  {
    && |r.header| == (if r.long then f.longSize else f.shortSize)
    && r.header[..4] == (if r.long then [113, 82, 101, 108] else [113, 82, 101, 99])
    && (if r.long then f.longLen(r.header) else f.shortLen(r.header)) == |r.payload|
    && |r.header| + |r.payload| <= limit
    && f.shortContext(r.header[..f.shortSize]) <= f.maxContext
  }

  /** The call a record stands for: its kind's context, and its payload. */
  function CallFor(f: Format, r: Record): Call {
    Call(if r.long then f.longContext(r.header) else f.shortContext(r.header), r.payload)
  }

  /** A record in front of anything is found there. */
  lemma RecordInFront(f: Format, r: Record, tail: seq<byte>, limit: nat)
    requires f.Valid() && IsRecord(f, r, limit)
    ensures var file := r.header + r.payload + tail; var h := ReadHeader(f, file);
      && h.Some? && HasRecord(f, file, limit)
      && h.value.context == CallFor(f, r).context
      && RecordSize(f, file) == h.value.size + h.value.len > 0
      && file[h.value.size..h.value.size + h.value.len] == r.payload
      && file[h.value.size + h.value.len..] == tail
  {
    var file := r.header + r.payload + tail;
    assert file[..|r.header|] == r.header;
    assert file[..f.shortSize] == r.header[..f.shortSize];
    assert file[..4] == r.header[..4];
    assert r.header[..|r.header|] == r.header;
  }

  /** A file written record by record is well formed, and is read back as exactly those records. */
  lemma {:induction false} ReadsBackWhatWasWritten(f: Format, rs: seq<Record>, limit: nat)
    requires f.Valid() && forall i :: 0 <= i < |rs| ==> IsRecord(f, rs[i], limit)
    ensures WellFormed(f, FileOf(rs), limit)
    ensures var cs := Calls(f, FileOf(rs), limit);
      |cs| == |rs| && forall i :: 0 <= i < |rs| ==> cs[i] == CallFor(f, rs[i])
    decreases |rs|
  {
    if rs != [] {
      RecordInFront(f, rs[0], FileOf(rs[1..]), limit);
      assert FileOf(rs) == rs[0].header + rs[0].payload + FileOf(rs[1..]);
      hide ReadHeader, IsRecord;
      ReadsBackWhatWasWritten(f, rs[1..], limit);
    }
  }

  /** The first call of a file: a "qRel" record's length and context come from the long header, a "qRec"
      record's from the short one. */
  lemma FirstCall(f: Format, file: seq<byte>, limit: nat)
    requires f.Valid() && WellFormed(f, file, limit) && |file| > f.shortSize
    ensures |file| >= 4 && (file[..4] == [113, 82, 101, 108] || file[..4] == [113, 82, 101, 99])
    ensures file[..4] == [113, 82, 101, 108] ==>
      && |file| >= f.longSize && var len := f.longLen(file[..f.longSize]);
         && f.longSize + len <= |file|
         && var first := Call(f.longContext(file[..f.longSize]), file[f.longSize..f.longSize + len]);
            Seen(f, file, limit) != [] && Seen(f, file, limit)[0] == Calls(f, file, limit)[0] == first
    ensures file[..4] == [113, 82, 101, 99] ==>
      var len := f.shortLen(file[..f.shortSize]);
      && f.shortSize + len <= |file|
      && var first := Call(f.shortContext(file[..f.shortSize]), file[f.shortSize..f.shortSize + len]);
         Seen(f, file, limit) != [] && Seen(f, file, limit)[0] == Calls(f, file, limit)[0] == first
  {
    assert Calls(f, file, limit) != [] && Seen(f, file, limit) != [];
  }

  /** The titles, spelled out. */
  lemma Titles()
    ensures ['q' as int, 'R' as int, 'e' as int, 'c' as int] == [113, 82, 101, 99]
    ensures ['q' as int, 'R' as int, 'e' as int, 'l' as int] == [113, 82, 101, 108]
  {
  }

  // ----- The reader -----

  /** `view` is what the buffer holds of the record at the front of `rest`: its header reads the same, or
      it is a long header not all in yet, and then neither is the record. */
  lemma HeaderInView(f: Format, rest: seq<byte>, view: seq<byte>, limit: nat)
    requires f.Valid() && HasRecord(f, rest, limit)
    requires |view| > f.shortSize && view <= rest
    ensures ReadHeader(f, rest).Some?
    ensures ReadHeader(f, view) == ReadHeader(f, rest) || (ReadHeader(f, view).None? && |view| < RecordSize(f, rest))
  {
    assert view[..4] == rest[..4] && view[..f.shortSize] == rest[..f.shortSize];
    if |view| >= f.longSize {
      assert view[..f.longSize] == rest[..f.longSize];
    }
  }

  lemma RecordIsLongerThanHeader(f: Format, rest: seq<byte>, limit: nat)
    requires f.Valid() && HasRecord(f, rest, limit)
    ensures f.shortSize <= RecordSize(f, rest) <= limit && RecordSize(f, rest) <= |rest|
  {
  }

  lemma CallsStep(f: Format, rest: seq<byte>, limit: nat, calls: seq<Call>)
    requires f.Valid() && WellFormed(f, rest, limit) && |rest| > f.shortSize
    ensures var h := ReadHeader(f, rest).value; var n := RecordSize(f, rest);
      && n <= |rest| && WellFormed(f, rest[n..], limit)
      && calls + Seen(f, rest, limit) ==
           (calls + [Call(h.context, rest[h.size..h.size + h.len])]) + Seen(f, rest[n..], limit)
  {
  }

  /** The buffer ends inside the record at the front of `rest`, or holds no more than a short header. */
  predicate CutShort(f: Format, rest: seq<byte>, held: nat, limit: nat)
    requires f.Valid() && WellFormed(f, rest, limit)
  {
    rest == [] || held <= f.shortSize || RecordSize(f, rest) > held
  }

  /** Hands every whole record in the first `bytes` bytes of the buffer to the handler. */
  method ParseBuffer(f: Format, buffer: array<byte>, bytes: nat, ghost rest: seq<byte>, ghost limit: nat, before: seq<Call>)
    returns (parsedLen: nat, calls: seq<Call>)
    requires f.Valid() && WellFormed(f, rest, limit)
    requires bytes <= buffer.Length && bytes <= |rest| && buffer[..bytes] == rest[..bytes]
    ensures parsedLen <= bytes && WellFormed(f, rest[parsedLen..], limit)
    ensures calls + Seen(f, rest[parsedLen..], limit) == before + Seen(f, rest, limit)
    ensures CutShort(f, rest[parsedLen..], bytes - parsedLen, limit)
  {
    hide HasRecord, ReadHeader;
    parsedLen, calls := 0, before;
    assert rest[0..] == rest;
    while parsedLen + f.shortSize < bytes
      invariant parsedLen <= bytes && WellFormed(f, rest[parsedLen..], limit)
      invariant calls + Seen(f, rest[parsedLen..], limit) == before + Seen(f, rest, limit)
    {
      var view := buffer[parsedLen..bytes];
      ghost var r := rest[parsedLen..];
      assert view == rest[parsedLen..bytes] && view <= r;
      HeaderInView(f, r, view, limit);
      CallsStep(f, r, limit, calls);
      var header := ReadHeader(f, view);
      if header.None? {
        assert CutShort(f, r, bytes - parsedLen, limit);
        return;
      }
      var h := header.value;
      assert ReadHeader(f, r) == Some(h) && RecordSize(f, r) == h.size + h.len;
      if parsedLen + h.size + h.len > bytes {
        assert CutShort(f, r, bytes - parsedLen, limit);
        return;
      }
      assert view[h.size..h.size + h.len] == r[h.size..h.size + h.len];
      calls := calls + [Call(h.context, view[h.size..h.size + h.len])];
      assert r[h.size + h.len..] == rest[parsedLen + h.size + h.len..];
      parsedLen := parsedLen + h.size + h.len;
    }
  }

  lemma JoinedAt(whole: seq<byte>, front: seq<byte>, back: seq<byte>)
    requires |whole| == |front| + |back|
    requires forall i :: 0 <= i < |front| ==> whole[i] == front[i]
    requires forall i :: 0 <= i < |back| ==> whole[|front| + i] == back[i]
    ensures whole == front + back
  {
    assert forall i :: |front| <= i < |whole| ==> whole[i] == back[i - |front|] by {
      forall i | |front| <= i < |whole| ensures whole[i] == back[i - |front|] {
        assert whole[|front| + (i - |front|)] == back[i - |front|];
      }
    }
  }

  /** Moves the unparsed bytes to the front and reads on behind them; without parsed bytes there is
      nothing to move, and the buffer is read from its front. */
  method Refill(buffer: array<byte>, parsedLen: nat, bytesToParse: nat, file: seq<byte>, pos: nat)
    returns (bytes: nat, pos': nat, readMore: bool)
    requires parsedLen <= bytesToParse <= buffer.Length && pos <= |file|
    requires parsedLen > 0 || bytesToParse == 0
    modifies buffer
    ensures pos <= pos' <= |file| && bytes == bytesToParse - parsedLen + (pos' - pos) <= buffer.Length
    ensures buffer[..bytes] == old(buffer[parsedLen..bytesToParse]) + file[pos..pos']
    ensures readMore == (bytes == buffer.Length)
    ensures !readMore ==> pos' == |file|
  {
    var unparsedLen := bytesToParse - parsedLen;
    if parsedLen > 0 {
      forall i | 0 <= i < unparsedLen {
        buffer[i] := buffer[parsedLen + i];
      }
    }
    assert buffer[..unparsedLen] == old(buffer[parsedLen..bytesToParse]);
    var wanted := buffer.Length - unparsedLen;
    var got := if |file| - pos < wanted then |file| - pos else wanted;
    label read:
    forall i | 0 <= i < got {
      buffer[unparsedLen + i] := file[pos + i];
    }
    bytes, pos', readMore := unparsedLen + got, pos + got, got == wanted;
    JoinedAt(buffer[..bytes], old@read(buffer[..unparsedLen]), file[pos..pos']);
  }

  /** Reads the file through a buffer of any size that holds its largest record: the handler gets the
      records `Seen` names, each once and in order, and reading ends. */
  method ParseQrecFile(f: Format, file: seq<byte>, bufferSize: nat) returns (calls: seq<Call>)
    requires f.Valid() && bufferSize > f.shortSize && WellFormed(f, file, bufferSize)
    ensures calls == Seen(f, file, bufferSize)
    ensures calls == Calls(f, file, bufferSize) <==> !EndsBare(f, file, bufferSize)
  {
    hide HasRecord, ReadHeader, RecordSize, Seen, Calls, EndsBare, WellFormed, CutShort;
    var buffer := new byte[bufferSize](_ => 0);
    var parsedLen, bytesToParse, pos := 0, 0, 0;
    calls := [];
    ghost var rest := file;
    OnlyABareEndIsMissed(f, file, bufferSize);
    assert [] + Seen(f, file, bufferSize) == Seen(f, file, bufferSize);
    var readMore := true;
    while readMore
      invariant parsedLen <= bytesToParse <= bufferSize && pos <= |file|
      invariant readMore ==> parsedLen > 0 || bytesToParse == 0
      invariant rest == buffer[parsedLen..bytesToParse] + file[pos..]
      invariant WellFormed(f, rest, bufferSize)
      invariant calls + Seen(f, rest, bufferSize) == Seen(f, file, bufferSize)
      invariant !readMore ==> |rest| <= f.shortSize
      decreases |file| - pos, readMore
    {
      bytesToParse, pos, readMore := RefillFor(buffer, parsedLen, bytesToParse, file, pos, rest);
      parsedLen, calls := ParseBuffer(f, buffer, bytesToParse, rest, bufferSize, calls);
      DropParsed(rest, buffer[..bytesToParse], file[pos..], parsedLen);
      assert buffer[..bytesToParse][parsedLen..] == buffer[parsedLen..bytesToParse];
      rest := rest[parsedLen..];
      StopsOnlyWhenCut(f, rest, bytesToParse - parsedLen, bufferSize);
    }
    NothingSeen(f, rest, bufferSize);
    assert calls + [] == calls;
  }

  lemma DropParsed(rest: seq<byte>, held: seq<byte>, tail: seq<byte>, k: nat)
    requires rest == held + tail && k <= |held|
    ensures rest[k..] == held[k..] + tail
  {
  }

  lemma NothingSeen(f: Format, rest: seq<byte>, limit: nat)
    requires f.Valid() && WellFormed(f, rest, limit) && |rest| <= f.shortSize
    ensures Seen(f, rest, limit) == []
  {
  }

  /** A whole record at the front of a full buffer is always parsed, and at the end of the file no more than
      a bare header is left. */
  lemma StopsOnlyWhenCut(f: Format, rest: seq<byte>, held: nat, bufferSize: nat)
    requires f.Valid() && WellFormed(f, rest, bufferSize) && CutShort(f, rest, held, bufferSize)
    requires bufferSize > f.shortSize
    ensures |rest| <= f.shortSize || held <= f.shortSize || (held < bufferSize && held < |rest|)
  {
    if rest != [] {
      RecordIsLongerThanHeader(f, rest, bufferSize);
    }
  }

  /** Refilling keeps the unread part of the file: what is held, then what is still on disk. */
  method RefillFor(buffer: array<byte>, parsedLen: nat, bytesToParse: nat, file: seq<byte>, pos: nat, ghost rest: seq<byte>)
    returns (bytes: nat, pos': nat, readMore: bool)
    requires parsedLen <= bytesToParse <= buffer.Length && pos <= |file|
    requires parsedLen > 0 || bytesToParse == 0
    requires rest == buffer[parsedLen..bytesToParse] + file[pos..]
    modifies buffer
    ensures pos <= pos' <= |file| && bytes <= buffer.Length && bytes <= |rest|
    ensures rest == buffer[..bytes] + file[pos'..] && buffer[..bytes] == rest[..bytes]
    ensures readMore == (bytes == buffer.Length)
    ensures !readMore ==> pos' == |file|
    ensures readMore && buffer.Length > 0 ==> pos' > pos
  {
    bytes, pos', readMore := Refill(buffer, parsedLen, bytesToParse, file, pos);
    assert file[pos..] == file[pos..pos'] + file[pos'..];
  }
}
