/** The end of central directory: printing it (with its zip64 forms), searching for it
    backwards, parsing it, and when exactly parsing recovers what was printed. */
module EndRecord {
  import opened Bytes
  import opened Header
  import opened Streams

  datatype EndInfo = EndInfo(records: uint64, size: uint64, offset: uint64, comment: bytes)

  // ---------------------------------------------------------------- printing

  predicate NeedsZip64End(records: uint64, size: uint64, offset: uint64) {
    records >= UINT16_MAX || size >= UINT32_MAX || offset >= UINT32_MAX
  }

  /** The 22-byte record; disk numbers and comment length are zero. */
  function EndRec(records: uint16, size: uint32, offset: uint32): (r: bytes)
    ensures |r| == DIRECTORY_END_LEN
  {
    Put32(DIRECTORY_END_SIGNATURE, Put32(0, Put16(records, Put16(records, Put32(size, Put32(offset, Put16(0, [])))))))
  }

  function End64(records: uint64, size: uint64, offset: uint64): (r: bytes)
    ensures |r| == DIRECTORY64_END_LEN
  {
    Put32(DIRECTORY64_END_SIGNATURE, Put64(44, Put16(ZIP_VERSION45, Put16(ZIP_VERSION45, Put32(0, Put32(0,
      Put64(records, Put64(records, Put64(size, Put64(offset, []))))))))))
  }

  function Loc64(end64: uint64): (r: bytes)
    ensures |r| == DIRECTORY64_LOC_LEN
  {
    Put32(DIRECTORY64_LOC_SIGNATURE, Put32(0, Put64(end64, Put32(1, []))))
  }

  function DirEnd(records: uint64, size: uint64, offset: uint64): bytes {
    if NeedsZip64End(records, size, offset) then
      End64(records, size, offset) + Loc64((offset + size) % TWO64) + EndRec(UINT16_MAX, UINT32_MAX, UINT32_MAX)
    else EndRec(records, size, offset)
  }

  method PutEnd64(b: WriteBuf, records: uint64, size: uint64, offset: uint64)
    requires b.Valid() && b.pos + DIRECTORY64_END_LEN <= b.buf.Length
    modifies b, b.buf
    ensures b.Valid() && b.Done() == old(b.Done()) + End64(records, size, offset)
  {
    hide Put16, Put32, Put64, P16, P32, P64, Get16, Get32, Get64;
    b.Uint32(DIRECTORY64_END_SIGNATURE);
    b.Uint64(44);
    b.Uint16(ZIP_VERSION45);
    b.Uint16(ZIP_VERSION45);
    b.Uint32(0);
    b.Uint32(0);
    b.Uint64(records);
    b.Uint64(records);
    b.Uint64(size);
    b.Uint64(offset);
    Whole(b.Done());
  }

  method PutLoc64(b: WriteBuf, end64: uint64)
    requires b.Valid() && b.pos + DIRECTORY64_LOC_LEN <= b.buf.Length
    modifies b, b.buf
    ensures b.Valid() && b.Done() == old(b.Done()) + Loc64(end64)
  {
    hide Put16, Put32, Put64, P16, P32, P64, Get16, Get32, Get64;
    b.Uint32(DIRECTORY64_LOC_SIGNATURE);
    b.Uint32(0);
    b.Uint64(end64);
    b.Uint32(1);
    Whole(b.Done());
  }

  method PutEndRec(b: WriteBuf, records: uint16, size: uint32, offset: uint32)
    requires b.Valid() && b.pos + DIRECTORY_END_LEN <= b.buf.Length
    modifies b, b.buf
    ensures b.Valid() && b.Done() == old(b.Done()) + EndRec(records, size, offset)
  {
    hide Put16, Put32, P16, P32, Get16, Get32;
    b.Uint32(DIRECTORY_END_SIGNATURE);
    b.Uint32(0); // skips the disk numbers
    b.Uint16(records);
    b.Uint16(records);
    b.Uint32(size);
    b.Uint32(offset);
    b.Uint16(0); // the comment length stays zero
    Whole(b.Done());
  }

  method WriteEndRec(records: uint16, size: uint32, offset: uint32) returns (r: bytes)
    ensures r == EndRec(records, size, offset)
  {
    hide EndRec;
    var b := new WriteBuf(DIRECTORY_END_LEN);
    PutEndRec(b, records, size, offset);
    Whole(EndRec(records, size, offset));
    r := b.buf[..];
    assert r == b.Done();
  }

  method WriteDirectoryEnd(w: CountWriter, records: uint64, size: uint64, offset: uint64)
    modifies w
    ensures w.data == old(w.data) + DirEnd(records, size, offset)
    ensures w.count == old(w.count) + |DirEnd(records, size, offset)|
  {
    hide End64, Loc64, EndRec;
    ghost var d := w.data;
    var records32, size32, offset32: uint64 := records, size, offset;
    if records >= UINT16_MAX || size >= UINT32_MAX || offset >= UINT32_MAX {
      var b := new WriteBuf(DIRECTORY64_END_LEN + DIRECTORY64_LOC_LEN);
      PutEnd64(b, records, size, offset);
      assert b.pos == |b.Done()| == DIRECTORY64_END_LEN;
      Whole(b.Done());
      PutLoc64(b, (offset + size) % TWO64);
      assert b.pos == |b.Done()| == b.buf.Length && b.buf[..] == b.Done();
      Whole(End64(records, size, offset));
      w.Write(b.buf[..]);
      records32, size32, offset32 := UINT16_MAX, UINT32_MAX, UINT32_MAX;
    }
    var buf := WriteEndRec(records32, size32, offset32);
    ghost var d1 := w.data;
    w.Write(buf);
    if NeedsZip64End(records, size, offset) {
      Assoc(d, End64(records, size, offset) + Loc64((offset + size) % TWO64), buf);
    }
  }

  // ---------------------------------------------------------------- searching

  /** An end record starts at `i` and its comment stays inside `b`. */
  predicate EndAt(b: bytes, i: int) {
    && 0 <= i && i + DIRECTORY_END_LEN <= |b|
    && b[i] == 0x50 && b[i + 1] == 0x4b && b[i + 2] == 0x05 && b[i + 3] == 0x06
    && i + DIRECTORY_END_LEN + U16(b[i + 20..]) <= |b|
  }

  /** The last position in `[lo, hi)` where an end record starts. */
  function LastEnd(b: bytes, lo: nat, hi: int): Option<nat>
    decreases hi
  {
    if hi <= lo then None
    else if EndAt(b, hi - 1) then Some(hi - 1)
    else LastEnd(b, lo, hi - 1)
  }

  const MAX_SEARCH := 65 * 1024

  /** One backward scan over the last 65 KiB. */
  function FindEnd(file: bytes): Option<nat> {
    LastEnd(file, if |file| < MAX_SEARCH then 0 else |file| - MAX_SEARCH, |file| - DIRECTORY_END_LEN + 1)
  }

  lemma {:induction false} LastEndIsLast(b: bytes, lo: nat, hi: int)
    ensures match LastEnd(b, lo, hi)
            case Some(p) => lo <= p < hi && EndAt(b, p) && (forall q :: p < q < hi ==> !EndAt(b, q))
            case None => forall q :: lo <= q < hi ==> !EndAt(b, q)
    decreases hi
  {
    if hi > lo && !EndAt(b, hi - 1) {
      LastEndIsLast(b, lo, hi - 1);
    }
  }

  /** The search reaches every end record that ends the file with its comment,
      however long that is, if no other one follows. */
  lemma SearchReaches(file: bytes, p: nat)
    requires EndAt(file, p) && p + DIRECTORY_END_LEN + U16(file[p + 20..]) == |file|
    requires forall q: nat :: q > p ==> !EndAt(file, q)
    ensures FindEnd(file) == Some(p)
  {
    hide U16;
    LastEndIsLast(file, if |file| < MAX_SEARCH then 0 else |file| - MAX_SEARCH, |file| - DIRECTORY_END_LEN + 1);
  }

  /** Cutting off a front part moves positions but decides nothing else. */
  lemma EndAtSuffix(file: bytes, lo: nat, i: int)
    requires lo <= |file| && 0 <= i
    ensures EndAt(file[lo..], i) <==> EndAt(file, lo + i)
  {
    if i + DIRECTORY_END_LEN <= |file| - lo {
      assert file[lo..][i + 20..] == file[lo + i + 20..];
    }
  }

  method FindSignatureInBlock(b: bytes) returns (p: int)
    ensures p == -1 || EndAt(b, p)
    ensures forall q :: p < q ==> !EndAt(b, q)
  {
    p := |b| - DIRECTORY_END_LEN;
    while p >= 0
      invariant -1 <= p || p == |b| - DIRECTORY_END_LEN
      invariant p <= |b| - DIRECTORY_END_LEN
      invariant forall q :: p < q ==> !EndAt(b, q)
    {
      if b[p] == 0x50 && b[p + 1] == 0x4b && b[p + 2] == 0x05 && b[p + 3] == 0x06 {
        var n := U16(b[p + 20..]);
        if n + DIRECTORY_END_LEN + p <= |b| {
          return;
        }
      }
      p := p - 1;
    }
    p := -1;
  }

  // ---------------------------------------------------------------- parsing

  /** The zip64 end record offset in a locator; None if it is no locator or the offset is negative as an int64. */
  function ParseLoc64(buf: bytes): Option<nat>
    requires |buf| == DIRECTORY64_LOC_LEN
  {
    var (sig, b) := Get32(buf);
    if sig != DIRECTORY64_LOC_SIGNATURE then None else
    var p := Int64(Get64(b[4..]).0);
    if p < 0 then None else Some(p)
  }

  /** The locator in the 20 bytes before the end record, if the file has room for one. */
  function LocatorBefore(file: bytes, p: nat): Option<nat>
    requires p <= |file|
  {
    if p < DIRECTORY64_LOC_LEN then None else ParseLoc64(file[p - DIRECTORY64_LOC_LEN..p])
  }

  function ParseEnd64(buf: bytes): Result<(uint64, uint64, uint64)>
    requires |buf| == DIRECTORY64_END_LEN
  {
    var (sig, b) := Get32(buf);
    if sig != DIRECTORY64_END_SIGNATURE then Err(ErrFormat) else
    var (disk, b) := Get32(b[12..]);
    var (dirDisk, b) := Get32(b);
    var (here, b) := Get64(b);
    var (records, b) := Get64(b);
    var (size, b) := Get64(b);
    var (offset, b) := Get64(b);
    Ok((records, size, offset))
  }

  function ReadEnd64(file: bytes, p: nat): Result<(uint64, uint64, uint64)> {
    var buf :- ReadAt(file, p, DIRECTORY64_END_LEN);
    ParseEnd64(buf)
  }

  function ParseEndRec(b: bytes): EndInfo
    requires EndAt(b, 0)
  {
    var (disk, c) := Get16(b[4..]);
    var (dirDisk, c) := Get16(c);
    var (here, c) := Get16(c);
    var (records, c) := Get16(c);
    var (size, c) := Get32(c);
    var (offset, c) := Get32(c);
    var (n, c) := Get16(c);
    assert b[4..][2..][2..][2..][2..][4..][4..] == b[20..];
    ReadPrefix(b[20..]);
    EndInfo(records, size, offset, c[..n])
  }

  lemma ReadPrefix(b: bytes)
    requires |b| >= 2
    ensures U16(b[..2]) == U16(b)
  {
  }

  /** The end record at `p`, with the zip64 values if a locator precedes it. */
  function ParseEnd(file: bytes, p: nat): Result<EndInfo>
    requires EndAt(file, p)
  {
    EndAtSuffix(file, p, 0);
    var d := ParseEndRec(file[p..]);
    var d' :- match LocatorBefore(file, p)
      case None => Ok(d)
      case Some(p64) =>
        (var v :- ReadEnd64(file, p64);
        Ok(d.(records := v.0, size := v.1, offset := v.2)));
    if 0 <= Int64(d'.offset) < |file| then Ok(d') else Err(ErrFormat)
  }

  function ReadEnd(file: bytes): Result<EndInfo> {
    if |file| < DIRECTORY_END_LEN then Err(ErrFormat) else
    var found := FindEnd(file);
    if found == None then Err(ErrFormat) else
    LastEndIsLast(file, if |file| < MAX_SEARCH then 0 else |file| - MAX_SEARCH, |file| - DIRECTORY_END_LEN + 1);
    ParseEnd(file, found.value)
  }

  method ReadDirectory64End(file: bytes, p: nat) returns (r: Result<(uint64, uint64, uint64)>)
    ensures r == ReadEnd64(file, p)
  {
    var buf :- ReadAt(file, p, DIRECTORY64_END_LEN);
    var b := new ReadBuf(buf);
    var sig := b.Uint32();
    if sig != DIRECTORY64_END_SIGNATURE {
      return Err(ErrFormat);
    }
    b.Skip(12);
    var disk := b.Uint32();
    var dirDisk := b.Uint32();
    var here := b.Uint64();
    var records := b.Uint64();
    var size := b.Uint64();
    var offset := b.Uint64();
    return Ok((records, size, offset));
  }

  /** What a backward scan of one window says about the file. */
  lemma WindowDecides(file: bytes, lo: nat, p: int)
    requires DIRECTORY_END_LEN <= |file| && lo <= |file| && |file| <= lo + MAX_SEARCH
    requires p == -1 || EndAt(file[lo..], p)
    requires forall q :: p < q ==> !EndAt(file[lo..], q)
    ensures p >= 0 ==> FindEnd(file) == Some(lo + p)
    ensures p == -1 && (lo == 0 || lo + MAX_SEARCH == |file|) ==> FindEnd(file) == None
  {
    hide LastEnd;
    var first := if |file| < MAX_SEARCH then 0 else |file| - MAX_SEARCH;
    LastEndIsLast(file, first, |file| - DIRECTORY_END_LEN + 1);
    forall q | lo + p < q ensures !EndAt(file, q) {
      EndAtSuffix(file, lo, q - lo);
    }
    if p >= 0 {
      EndAtSuffix(file, lo, p);
    }
  }

  /** The search in the last 1 KiB and then in the last 65 KiB finds what one scan finds. */
  method SearchWindows(file: bytes) returns (r: Result<(bytes, nat)>)
    requires |file| >= DIRECTORY_END_LEN
    ensures r.Err? ==> r.error == ErrFormat && FindEnd(file) == None
    ensures r.Ok? ==> var (buf, p) := r.value;
                      && p <= |buf| <= |file| && buf == file[|file| - |buf|..]
                      && FindEnd(file) == Some(|file| - |buf| + p)
  {
    hide FindEnd;
    var i := 0;
    while true
      invariant 0 <= i < 2
      decreases 2 - i
    {
      var bLen := if i == 0 then 1024 else MAX_SEARCH;
      if bLen > |file| {
        bLen := |file|;
      }
      var buf := file[|file| - bLen..];
      var p := FindSignatureInBlock(buf);
      WindowDecides(file, |file| - bLen, p);
      if p >= 0 {
        return Ok((buf, p));
      }
      if i == 1 || bLen == |file| {
        return Err(ErrFormat);
      }
      i := i + 1;
    }
  }

  /** `findDirectory64End`: the locator read from the file instead of from the buffer. */
  method FindDirectory64End(file: bytes, endOffset: nat) returns (r: Option<nat>)
    requires endOffset <= |file|
    ensures r == LocatorBefore(file, endOffset)
  {
    if endOffset < DIRECTORY64_LOC_LEN {
      return None;
    }
    return ParseLoc64(file[endOffset - DIRECTORY64_LOC_LEN..endOffset]);
  }

  /** The locator taken from a buffered window is the one in the file. */
  lemma LocatorInBuffer(file: bytes, buf: bytes, p: nat)
    requires |buf| <= |file| && buf == file[|file| - |buf|..] && DIRECTORY64_LOC_LEN <= p <= |buf|
    ensures LocatorBefore(file, |file| - |buf| + p) == ParseLoc64(buf[p - DIRECTORY64_LOC_LEN..p])
  {
    hide ParseLoc64;
    var at := |file| - |buf| + p;
    assert buf[p - DIRECTORY64_LOC_LEN..p] == file[at - DIRECTORY64_LOC_LEN..at];
  }

  method ReadDirectoryEnd(file: bytes) returns (r: Result<EndInfo>)
    ensures r == ReadEnd(file)
  {
    hide ParseEndRec, ParseLoc64, ReadEnd64, LastEnd;
    if |file| < DIRECTORY_END_LEN {
      return Err(ErrFormat);
    }
    var w :- SearchWindows(file);
    var (buf, p) := (w.0, w.1);
    assert |file| - |buf| + p <= |file|;
    var endOffset := |file| - |buf| + p;
    LastEndIsLast(file, if |file| < MAX_SEARCH then 0 else |file| - MAX_SEARCH, |file| - DIRECTORY_END_LEN + 1);
    assert buf[p..] == file[endOffset..];
    EndAtSuffix(file, endOffset, 0);
    var d := ParseEndRec(buf[p..]);
    var p64: Option<nat>;
    if p >= DIRECTORY64_LOC_LEN {
      LocatorInBuffer(file, buf, p);
      p64 := ParseLoc64(buf[p - DIRECTORY64_LOC_LEN..p]);
    } else {
      p64 := FindDirectory64End(file, endOffset);
    }
    if p64.Some? {
      var v :- ReadDirectory64End(file, p64.value);
      d := d.(records := v.0, size := v.1, offset := v.2);
    }
    if !(0 <= Int64(d.offset) < |file|) {
      return Err(ErrFormat);
    }
    return Ok(d);
  }

  // ---------------------------------------------------------------- round trip

  lemma EndRecAtEnd(pre: bytes, records: uint16, size: uint32, offset: uint32)
    ensures var file := pre + EndRec(records, size, offset);
            && EndAt(file, |pre|) && FindEnd(file) == Some(|pre|)
            && file[|pre|..] == EndRec(records, size, offset)
            && EndAt(file[|pre|..], 0)
            && ParseEndRec(file[|pre|..]) == EndInfo(records, size, offset, [])
  {
    var e := EndRec(records, size, offset);
    var file := pre + e;
    assert file[|pre|..] == e;
    var r0 := Put16(0, []);
    var r1 := Put32(offset, r0);
    var r2 := Put32(size, r1);
    var r3 := Put16(records, r2);
    var r4 := Put16(records, r3);
    assert e[4..] == Put32(0, r4);
    assert e[20..] == r0 by {
      assert e[4..][4..] == r4 && r4[2..] == r3 && r3[2..] == r2 && r2[4..] == r1 && r1[4..] == r0;
    }
    assert P32(DIRECTORY_END_SIGNATURE) == [0x50, 0x4b, 0x05, 0x06];
    ReadPrefix(r0);
    assert EndAt(e, 0);
    EndAtSuffix(file, |pre|, 0);
    assert P32(0) == [0, 0, 0, 0];
    assert e[4..][2..][2..] == r4;
  }

  lemma Loc64RoundTrip(v: uint64)
    ensures ParseLoc64(Loc64(v)) == if Int64(v) < 0 then None else Some(Int64(v))
  {
    var r := Put64(v, Put32(1, []));
    assert Put32(0, r)[4..] == r;
  }

  lemma End64RoundTrip(records: uint64, size: uint64, offset: uint64)
    ensures ParseEnd64(End64(records, size, offset)) == Ok((records, size, offset))
  {
    hide U16, U32, U64, P16, P32, P64;
    var r0 := Put32(0, Put32(0, Put64(records, Put64(records, Put64(size, Put64(offset, []))))));
    var r1 := Put16(ZIP_VERSION45, r0);
    var r2 := Put16(ZIP_VERSION45, r1);
    assert Put64(44, r2)[8..] == r2 && r2[2..] == r1 && r1[2..] == r0;
    assert Put64(44, r2)[12..] == r0;
  }

  /** The reader reports exactly these three values and no comment. */
  predicate Recovers(file: bytes, records: uint64, size: uint64, offset: uint64) {
    ReadEnd(file) == Ok(EndInfo(records, size, offset, []))
  }

  /** Bytes that end like a zip64 locator although the writer wrote none: its target. */
  function Decoy(pre: bytes): Option<nat> {
    LocatorBefore(pre, |pre|)
  }

  lemma Zip64EndRoundTrip(pre: bytes, records: uint64, size: uint64, offset: uint64)
    requires |pre| == offset + size && |pre| + 98 < TWO63
    requires NeedsZip64End(records, size, offset)
    ensures Recovers(pre + DirEnd(records, size, offset), records, size, offset)
  {
    hide ParseEndRec, FindEnd, EndRec, End64, Loc64, EndAt, ReadEnd, ReadEnd64, LocatorBefore, DirEnd, NeedsZip64End;
    DirEnd64(records, size, offset);
    var e64, loc, e := End64(records, size, offset), Loc64(offset + size), EndRec(UINT16_MAX, UINT32_MAX, UINT32_MAX);
    var pre' := pre + e64 + loc;
    Pieces(pre, e64, loc, e);
    EndRecAtEnd(pre', UINT16_MAX, UINT32_MAX, UINT32_MAX);
    LocatorFound(pre' + e, |pre'|, offset + size);
    End64Found(pre' + e, |pre|, records, size, offset);
    EndWithLocator(pre' + e, |pre'|, |pre|, records, size, offset);
  }

  lemma DirEnd64(records: uint64, size: uint64, offset: uint64)
    requires NeedsZip64End(records, size, offset) && offset + size < TWO63
    ensures DirEnd(records, size, offset)
              == End64(records, size, offset) + Loc64(offset + size) + EndRec(UINT16_MAX, UINT32_MAX, UINT32_MAX)
  {
    hide End64, Loc64, EndRec;
  }

  lemma LocatorFound(file: bytes, p: nat, v: uint64)
    requires DIRECTORY64_LOC_LEN <= p <= |file| && file[p - DIRECTORY64_LOC_LEN..p] == Loc64(v) && v < TWO63
    ensures LocatorBefore(file, p) == Some(v)
  {
    hide Loc64, ParseLoc64;
    Loc64RoundTrip(v);
  }

  lemma End64Found(file: bytes, p: nat, records: uint64, size: uint64, offset: uint64)
    requires p + DIRECTORY64_END_LEN <= |file| && file[p..p + DIRECTORY64_END_LEN] == End64(records, size, offset)
    ensures ReadEnd64(file, p) == Ok((records, size, offset))
  {
    hide End64, ParseEnd64;
    End64RoundTrip(records, size, offset);
  }

  lemma EndWithLocator(file: bytes, p: nat, q: nat, records: uint64, size: uint64, offset: uint64)
    requires EndAt(file, p) && FindEnd(file) == Some(p) && EndAt(file[p..], 0) && ParseEndRec(file[p..]).comment == []
    requires LocatorBefore(file, p) == Some(q) && ReadEnd64(file, q) == Ok((records, size, offset))
    requires offset < |file| < TWO63
    ensures ReadEnd(file) == Ok(EndInfo(records, size, offset, []))
  {
    hide ParseEndRec, FindEnd, ReadEnd64, LocatorBefore, U16;
  }

  lemma Pieces(pre: bytes, e64: bytes, loc: bytes, e: bytes)
    requires |e64| == DIRECTORY64_END_LEN && |loc| == DIRECTORY64_LOC_LEN
    ensures var (pre', file) := (pre + e64 + loc, pre + (e64 + loc + e));
            && file == pre' + e
            && file[|pre'| - DIRECTORY64_LOC_LEN..|pre'|] == loc
            && file[|pre|..|pre| + DIRECTORY64_END_LEN] == e64
  {
    var file := pre + (e64 + loc + e);
    assert file == pre + e64 + loc + e;
  }

  lemma SmallEndRoundTrip(pre: bytes, records: uint64, size: uint64, offset: uint64)
    requires |pre| == offset + size && |pre| + 98 < TWO63
    requires !NeedsZip64End(records, size, offset)
    ensures var file := pre + DirEnd(records, size, offset);
            Recovers(file, records, size, offset) <==>
              Decoy(pre) == None || ReadEnd64(file, Decoy(pre).value) == Ok((records, size, offset))
  {
    hide ParseEndRec, ParseLoc64, ReadEnd64, FindEnd, EndRec, End64, Loc64, EndAt;
    var file := pre + EndRec(records, size, offset);
    EndRecAtEnd(pre, records, size, offset);
    if |pre| >= DIRECTORY64_LOC_LEN {
      assert file[|pre| - DIRECTORY64_LOC_LEN..|pre|] == pre[|pre| - DIRECTORY64_LOC_LEN..|pre|];
    }
  }

  /** Parsing the end record undoes printing it, at all three zip64 thresholds.
      The one way it fails: no zip64 record was needed, the bytes before the
      end record look like a locator, and what that locator points to is not a
      zip64 end record with the same values. */
  lemma EndRoundTrip(pre: bytes, records: uint64, size: uint64, offset: uint64)
    requires |pre| == offset + size && |pre| + 98 < TWO63
    ensures var file := pre + DirEnd(records, size, offset);
            Recovers(file, records, size, offset) <==>
              || NeedsZip64End(records, size, offset)
              || Decoy(pre) == None
              || ReadEnd64(file, Decoy(pre).value) == Ok((records, size, offset))
  {
    hide DirEnd, Recovers, Decoy, ReadEnd64;
    if NeedsZip64End(records, size, offset) {
      Zip64EndRoundTrip(pre, records, size, offset);
    } else {
      SmallEndRoundTrip(pre, records, size, offset);
    }
  }

  /** Such bytes exist: a 20-byte directory that is itself a locator pointing at offset 0. */
  lemma DecoyDefeatsReader()
    ensures var pre := Loc64(0);
            !NeedsZip64End(0, 20, 0) && ReadEnd(pre + DirEnd(0, 20, 0)) == Err(Eof)
  {
    hide ParseEndRec, FindEnd, EndRec;
    var pre := Loc64(0);
    var file := pre + DirEnd(0, 20, 0);
    EndRecAtEnd(pre, 0, 20, 0);
    assert file[0..20] == pre;
    Loc64RoundTrip(0);
  }
}
