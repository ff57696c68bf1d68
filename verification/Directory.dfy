/** Central directory records: printing, parsing, and the proof that parsing inverts printing. */
module Directory {
  import opened Bytes
  import opened Header
  import opened ExtraFields
  import opened Streams

  /** An entry as the reader knows it. `headerOffset` is a Go int64. */
  datatype File = File(h: FileHeader, headerOffset: int)

  // ---------------------------------------------------------------- printing

  predicate NeedsZip64Record(h: FileHeader, offset: uint64) {
    h.IsZip64() || offset >= UINT32_MAX
  }

  /** The records the writer adds after the extra of the header. */
  function AddedExtra(h: FileHeader, offset: uint64): bytes {
    (if h.xxh3 != 0 then Xxh3Record(h.xxh3) else []) +
    (if NeedsZip64Record(h, offset) then Zip64Record(h.usize, h.csize, offset) else [])
  }

  function DirExtra(h: FileHeader, offset: uint64): bytes {
    h.extra + AddedExtra(h, offset)
  }

  function Size32(v32: uint32, h: FileHeader, offset: uint64): uint32 {
    if NeedsZip64Record(h, offset) then UINT32_MAX else v32
  }

  function Offset32(offset: uint64): uint32 {
    if offset >= UINT32_MAX then UINT32_MAX else offset
  }

  /** The 46 fixed bytes, field by field; the two skipped ones stay zero. */
  datatype Fixed = Fixed(
    creatorVersion: uint16, readerVersion: uint16, flags: uint16, compMethod: uint16, modTime: uint16, modDate: uint16,
    crc: uint32, csize32: uint32, usize32: uint32, nameLen: uint16, extraLen: uint16, commentLen: uint16,
    extAttrs: uint32, offset32: uint32)

  function PrintFixed(x: Fixed): (r: bytes)
    ensures |r| == DIRECTORY_HEADER_LEN
  {
    Put32(DIRECTORY_HEADER_SIGNATURE, Put16(x.creatorVersion, Put16(x.readerVersion, Put16(x.flags,
      Put16(x.compMethod, Put16(x.modTime, Put16(x.modDate, Put32(x.crc, Put32(x.csize32, Put32(x.usize32,
      Put16(x.nameLen, Put16(x.extraLen, Put16(x.commentLen, Put32(0,
      Put32(x.extAttrs, Put32(x.offset32, []))))))))))))))))
  }

  function FixedOf(h: FileHeader, offset: uint64): Fixed
    requires |h.name| <= UINT16_MAX && |DirExtra(h, offset)| <= UINT16_MAX && |h.comment| <= UINT16_MAX
  {
    Fixed(h.creatorVersion, h.readerVersion, h.flags, h.compMethod, h.modTime, h.modDate, h.crc,
          Size32(h.csize32, h, offset), Size32(h.usize32, h, offset),
          |h.name|, |DirExtra(h, offset)|, |h.comment|, h.extAttrs, Offset32(offset))
  }

  function DirRecord(h: FileHeader, offset: uint64): (r: Result<bytes>)
    ensures r.Ok? ==> |r.value| == DIRECTORY_HEADER_LEN + |h.name| + |DirExtra(h, offset)| + |h.comment|
  {
    if |h.name| > UINT16_MAX then Err(ErrLongName)
    else if |DirExtra(h, offset)| > UINT16_MAX then Err(ErrLongExtra)
    else if |h.comment| > UINT16_MAX then Err(ErrLongComment)
    else Ok(PrintFixed(FixedOf(h, offset)) + (h.name + (DirExtra(h, offset) + h.comment)))
  }

  /** A record can be printed if and only if its three variable parts fit; the
      first that does not, in the order name, extra, comment, is the error. */
  lemma PrintedExactlyWhen(h: FileHeader, offset: uint64)
    ensures var extra := |h.extra| + (if h.xxh3 != 0 then 12 else 0)
                         + (if h.csize >= 0xFFFF_FFFF || h.usize >= 0xFFFF_FFFF || offset >= 0xFFFF_FFFF then 28 else 0);
            && (DirRecord(h, offset).Ok? <==> |h.name| <= 0xFFFF && extra <= 0xFFFF && |h.comment| <= 0xFFFF)
            && (DirRecord(h, offset).Ok? ==> |DirRecord(h, offset).value| == 46 + |h.name| + extra + |h.comment|)
            && (|h.name| > 0xFFFF ==> DirRecord(h, offset) == Err(ErrLongName))
            && (|h.name| <= 0xFFFF && extra > 0xFFFF ==> DirRecord(h, offset) == Err(ErrLongExtra))
            && (|h.name| <= 0xFFFF && extra <= 0xFFFF && |h.comment| > 0xFFFF ==> DirRecord(h, offset) == Err(ErrLongComment))
  {
    hide PrintFixed, Xxh3Record, Zip64Record;
  }

  /** Only the wire fields of a header are printed. */
  lemma DirRecordWire(h: FileHeader, offset: uint64)
    ensures DirRecord(h.Wire(), offset) == DirRecord(h, offset)
  {
    hide PrintFixed, Xxh3Record, Zip64Record;
    assert DirExtra(h.Wire(), offset) == DirExtra(h, offset);
  }

  /** From the signature to the date. */
  method PutFront(b: WriteBuf, x: Fixed)
    requires b.Valid() && b.pos + 16 <= b.buf.Length
    modifies b, b.buf
    ensures b.Valid() && b.pos == old(b.pos) + 16
    ensures forall rest: bytes {:trigger b.Done() + rest} :: b.Done() + rest == old(b.Done()) +
              Put32(DIRECTORY_HEADER_SIGNATURE, Put16(x.creatorVersion, Put16(x.readerVersion, Put16(x.flags,
              Put16(x.compMethod, Put16(x.modTime, Put16(x.modDate, rest)))))))
  {
    hide Put16, Put32, P16, P32, Get16, Get32, U16, U32;
    b.Uint32(DIRECTORY_HEADER_SIGNATURE);
    b.Uint16(x.creatorVersion);
    b.Uint16(x.readerVersion);
    b.Uint16(x.flags);
    b.Uint16(x.compMethod);
    b.Uint16(x.modTime);
    b.Uint16(x.modDate);
  }

  /** From the checksum to the offset. */
  method PutBack(b: WriteBuf, x: Fixed)
    requires b.Valid() && b.pos + 30 <= b.buf.Length
    modifies b, b.buf
    ensures b.Valid() && b.pos == old(b.pos) + 30
    ensures b.Done() == old(b.Done()) +
              Put32(x.crc, Put32(x.csize32, Put32(x.usize32, Put16(x.nameLen, Put16(x.extraLen, Put16(x.commentLen,
              Put32(0, Put32(x.extAttrs, Put32(x.offset32, [])))))))))
  {
    hide Put16, Put32, P16, P32, Get16, Get32, U16, U32;
    b.Uint32(x.crc);
    b.Uint32(x.csize32);
    b.Uint32(x.usize32);
    b.Uint16(x.nameLen);
    b.Uint16(x.extraLen);
    b.Uint16(x.commentLen);
    b.Uint32(0);
    b.Uint32(x.extAttrs);
    b.Uint32(x.offset32);
    Whole(b.Done());
  }

  /** Prints the fixed part for a header whose variable parts have been checked. */
  method WriteFixed(x: Fixed) returns (r: bytes)
    ensures r == PrintFixed(x)
  {
    hide Put16, Put32, P16, P32, Get16, Get32, U16, U32;
    var b := new WriteBuf(DIRECTORY_HEADER_LEN);
    PutFront(b, x);
    PutBack(b, x);
    Whole(PrintFixed(x));
    r := b.buf[..];
    assert r == b.Done();
  }

  lemma Put64Last(v: uint64)
    ensures Put64(v, []) == P64(v)
  {
  }

  method WriteXxh3Record(v: uint64) returns (r: bytes)
    ensures r == Xxh3Record(v)
  {
    hide Put16, Put32, Put64, P16, P32, P64, Get16, Get32, Get64, U16, U32, U64;
    var eb := new WriteBuf(12);
    eb.Uint16(XXH3_EXTRA_ID);
    eb.Uint16(8);
    eb.Uint64(v);
    Whole(eb.Done());
    Whole(Put16(XXH3_EXTRA_ID, Put16(8, Put64(v, []))));
    Put64Last(v);
    r := eb.buf[..];
    assert r == eb.Done();
  }

  method WriteZip64Record(usize: uint64, csize: uint64, offset: uint64) returns (r: bytes)
    ensures r == Zip64Record(usize, csize, offset)
  {
    hide Put16, Put32, Put64, P16, P32, P64, Get16, Get32, Get64, U16, U32, U64;
    var eb := new WriteBuf(28);
    eb.Uint16(ZIP64_EXTRA_ID);
    eb.Uint16(24);
    eb.Uint64(usize);
    eb.Uint64(csize);
    eb.Uint64(offset);
    Whole(eb.Done());
    Whole(Put16(ZIP64_EXTRA_ID, Put16(24, Put64(usize, Put64(csize, Put64(offset, []))))));
    Put64Last(offset);
    r := eb.buf[..];
    assert r == eb.Done();
  }

  /** The extra of a directory record. The caller's bytes are copied, never written to. */
  method MakeExtra(h: FileHeader, offset: uint64) returns (extra: bytes)
    ensures extra == DirExtra(h, offset)
  {
    hide Record, P16, P32, P64;
    extra := h.extra;
    if h.xxh3 != 0 {
      var xbuf := WriteXxh3Record(h.xxh3);
      extra := extra + xbuf;
    }
    if h.IsZip64() || offset >= UINT32_MAX {
      var zbuf := WriteZip64Record(h.usize, h.csize, offset);
      extra := extra + zbuf;
    }
  }

  method WriteDirectoryHeader(w: CountWriter, h: FileHeader, offset: uint64) returns (r: Result<()>)
    modifies w
    ensures match DirRecord(h, offset)
            case Ok(rec) => r == Ok(()) && w.data == old(w.data) + rec && w.count == old(w.count) + |rec|
            case Err(e) => r == Err(e) && w.data == old(w.data) && w.count == old(w.count)
  {
    hide PrintFixed, AddedExtra;
    var extra := MakeExtra(h, offset);
    if |h.name| > UINT16_MAX {
      return Err(ErrLongName);
    }
    if |extra| > UINT16_MAX {
      return Err(ErrLongExtra);
    }
    if |h.comment| > UINT16_MAX {
      return Err(ErrLongComment);
    }
    var buf := WriteFixed(FixedOf(h, offset));
    w.Write(buf);
    w.Write(h.name);
    w.Write(extra);
    w.Write(h.comment);
    Assoc4(old(w.data), buf, h.name, extra, h.comment);
    return Ok(());
  }

  lemma Assoc4(d: bytes, a: bytes, b: bytes, c: bytes, e: bytes)
    ensures d + a + b + c + e == d + (a + (b + (c + e)))
  {
  }

  // ---------------------------------------------------------------- parsing

  function ParseFixed(buf: bytes): (r: Result<Fixed>)
    requires |buf| == DIRECTORY_HEADER_LEN
    ensures r.Err? ==> r.error == ErrFormat
  {
    var (sig, b) := Get32(buf);
    if sig != DIRECTORY_HEADER_SIGNATURE then Err(ErrFormat) else
    var (creatorVersion, b) := Get16(b);
    var (readerVersion, b) := Get16(b);
    var (flags, b) := Get16(b);
    var (compMethod, b) := Get16(b);
    var (modTime, b) := Get16(b);
    var (modDate, b) := Get16(b);
    var (crc, b) := Get32(b);
    var (csize32, b) := Get32(b);
    var (usize32, b) := Get32(b);
    var (nameLen, b) := Get16(b);
    var (extraLen, b) := Get16(b);
    var (commentLen, b) := Get16(b);
    var (extAttrs, b) := Get32(b[4..]);
    var (offset32, b) := Get32(b);
    Ok(Fixed(creatorVersion, readerVersion, flags, compMethod, modTime, modDate, crc, csize32, usize32,
             nameLen, extraLen, commentLen, extAttrs, offset32))
  }

  lemma FixedRoundTrip(x: Fixed)
    ensures ParseFixed(PrintFixed(x)) == Ok(x)
  {
    var last := Put32(x.extAttrs, Put32(x.offset32, []));
    assert Put32(0, last)[4..] == last;
  }

  function VarLen(x: Fixed): nat {
    x.nameLen as int + x.extraLen as int + x.commentLen as int
  }

  /** The entry made of the fixed part, the variable part and the walk over its extra. */
  function MakeFile(x: Fixed, d: bytes, w: Walk): File
    requires |d| == VarLen(x)
  {
    var n, e: nat := x.nameLen, x.extraLen;
    File(FileHeader(d[..n], x.creatorVersion, x.readerVersion, x.flags, w.compMethod, 0, x.modTime, x.modDate,
                    x.crc, x.csize32, x.usize32, w.csize, w.usize, d[n..n + e], x.extAttrs, d[n + e..],
                    w.xxh3, false, NoEncryption, None, w.ae, w.strength), w.offset)
  }

  function Walk0(x: Fixed): Walk {
    Walk(x.usize32, x.csize32, x.offset32, x.compMethod, 0, 0, 0)
  }

  /** The reader's view of a record at the front of `s`, and what follows it. */
  function ParseDir(s: bytes): (r: Result<(File, bytes)>)
    ensures r.Ok? ==> |r.value.1| < |s|
  {
    var buf :- FullResult(s, Eof, DIRECTORY_HEADER_LEN);
    var x :- ParseFixed(buf);
    var rest := s[DIRECTORY_HEADER_LEN..];
    var d :- FullResult(rest, Eof, VarLen(x));
    var n, e: nat := x.nameLen, x.extraLen;
    var w :- WalkExtra(x.usize32, x.csize32, Walk0(x), d[n..n + e]);
    Ok((MakeFile(x, d, w), rest[VarLen(x)..]))
  }

  lemma StepReads(data: bytes)
    ensures |data| >= 7 ==> U16(data[..2]) == U16(data) && U16(data[5..][..2]) == U16(data[5..])
    ensures |data| >= 8 ==> U64(data[..8]) == U64(data)
  {
    if |data| >= 8 {
      assert data[..8][..4] == data[..4] && data[..8][4..8] == data[4..8];
    }
  }

  /** The loop over the extra records, on the fields it may replace. */
  method ReadExtra(u32: uint32, c32: uint32, w0: Walk, extra: bytes) returns (r: Result<Walk>)
    ensures r == WalkExtra(u32, c32, w0, extra)
  {
    hide U16, U64, P16;
    var w := w0;
    var b := extra;
    while HasRecord(b)
      invariant WalkExtra(u32, c32, w, b) == WalkExtra(u32, c32, w0, extra)
      decreases |b|
    {
      var tag, n := Tag(b), RecordLen(b);
      var eb := new ReadBuf(b[4..n]);
      ghost var data, before := eb.b, w;
      if tag == ZIP64_EXTRA_ID {
        if u32 == UINT32_MAX {
          if |eb.b| < 8 {
            return Err(ErrFormat);
          }
          var v := eb.Uint64();
          w := w.(usize := v);
        }
        if c32 == UINT32_MAX {
          if |eb.b| < 8 {
            return Err(ErrFormat);
          }
          var v := eb.Uint64();
          w := w.(csize := v);
        }
        if w.offset == UINT32_MAX {
          if |eb.b| < 8 {
            return Err(ErrFormat);
          }
          var v := eb.Uint64();
          w := w.(offset := Int64(v));
        }
      } else if tag == WINZIP_AES_EXTRA_ID {
        if |eb.b| >= 7 {
          var ae := eb.Uint16();
          var vendor := eb.Uint16();
          var strength := eb.b[0];
          eb.Skip(1);
          var m := eb.Uint16();
          assert data[2..][2..] == data[4..] && data[4..][1..] == data[5..];
          w := w.(ae := ae, strength := strength, compMethod := m);
        }
      } else if tag == XXH3_EXTRA_ID {
        if |eb.b| >= 8 {
          var v := eb.Uint64();
          w := w.(xxh3 := v);
        }
      }
      StepReads(data);
      assert Step(u32, c32, before, tag, data) == Ok(w);
      b := b[n..];
    }
    if |b| >= 4 {
      return Err(ErrFormat); // a size that runs past the end
    }
    var i := 0;
    while i < |b|
      invariant 0 <= i <= |b| && forall k :: 0 <= k < i ==> b[k] == 0
    {
      if b[i] != 0 {
        assert b[i] in b;
        return Err(ErrFormat);
      }
      i := i + 1;
    }
    return Ok(w);
  }

  method ReadFixed(buf: bytes) returns (r: Result<Fixed>)
    requires |buf| == DIRECTORY_HEADER_LEN
    ensures r == ParseFixed(buf)
  {
    var b := new ReadBuf(buf);
    var sig := b.Uint32();
    if sig != DIRECTORY_HEADER_SIGNATURE {
      return Err(ErrFormat);
    }
    var creatorVersion := b.Uint16();
    var readerVersion := b.Uint16();
    var flags := b.Uint16();
    var compMethod := b.Uint16();
    var modTime := b.Uint16();
    var modDate := b.Uint16();
    var crc := b.Uint32();
    var csize32 := b.Uint32();
    var usize32 := b.Uint32();
    var nameLen := b.Uint16();
    var extraLen := b.Uint16();
    var commentLen := b.Uint16();
    b.Skip(4);
    var extAttrs := b.Uint32();
    var offset32 := b.Uint32();
    return Ok(Fixed(creatorVersion, readerVersion, flags, compMethod, modTime, modDate, crc, csize32, usize32,
                    nameLen, extraLen, commentLen, extAttrs, offset32));
  }

  method ReadDirectoryHeader(src: Source) returns (r: Result<File>)
    modifies src
    ensures match ParseDir(old(src.rest))
            case Ok((f, rest)) => r == Ok(f) && src.rest == rest
            case Err(e) => r == Err(Ended(e, src.last))
  {
    hide ParseFixed, WalkExtra, FullResult;
    FullEnds(src.rest, src.last, DIRECTORY_HEADER_LEN);
    var buf :- ReadFull(src, DIRECTORY_HEADER_LEN);
    var x :- ReadFixed(buf);
    FullEnds(src.rest, src.last, VarLen(x));
    var d :- ReadFull(src, VarLen(x));
    var n, e: nat := x.nameLen, x.extraLen;
    var w :- ReadExtra(x.usize32, x.csize32, Walk0(x), d[n..n + e]);
    return Ok(MakeFile(x, d, w));
  }

  // ---------------------------------------------------------------- round trip

  /** What holds of every header that is printed: no records of the kinds the
      writer adds, and sizes that agree. The extra may be padded. */
  ghost predicate Plain(h: FileHeader) {
    && Padded(h.extra)
    && !HasTag(h.extra, ZIP64_EXTRA_ID)
    && !HasTag(h.extra, XXH3_EXTRA_ID)
    && (!h.IsZip64() ==> h.csize32 == h.csize && h.usize32 == h.usize)
  }

  /** What the writer demands in addition of the caller's extra: no padding. */
  ghost predicate Printable(h: FileHeader) {
    Plain(h) && Exact(h.extra)
  }

  /** Padding is harmless as long as no record is put behind it. */
  ghost predicate Rereadable(h: FileHeader, offset: uint64) {
    Plain(h) && (Exact(h.extra) || AddedExtra(h, offset) == [])
  }

  /** The header the reader reports for `h`: the wire fields, the full extra,
      and the method, AES version and strength its AES record announces. */
  function ReadBack(h: FileHeader, offset: uint64): FileHeader {
    var (m, ae, s) := AesInfo(h.extra, h.compMethod, 0, 0);
    h.Wire().(compMethod := m, ae := ae, strength := s, extra := DirExtra(h, offset),
      csize32 := Size32(h.csize32, h, offset), usize32 := Size32(h.usize32, h, offset))
  }

  /** What the walk over the extra of a printed record finds. */
  function Walked(h: FileHeader, offset: uint64): Result<Walk> {
    var u32, c32 := Size32(h.usize32, h, offset), Size32(h.csize32, h, offset);
    WalkExtra(u32, c32, Walk(u32, c32, Offset32(offset), h.compMethod, 0, 0, 0), DirExtra(h, offset))
  }

  /** The values that should come back. */
  function Intended(h: FileHeader, offset: uint64): Walk {
    var (m, ae, s) := AesInfo(h.extra, h.compMethod, 0, 0);
    Walk(h.usize, h.csize, offset, m, ae, s, h.xxh3)
  }

  /** The walk over the extra restores the 64-bit sizes, the offset and the checksum. */
  lemma WalkAdded(h: FileHeader, offset: uint64)
    requires Rereadable(h, offset) && offset < TWO63
    ensures Walked(h, offset) == Ok(Intended(h, offset))
  {
    hide WalkExtra, AesInfo, Padded, Exact, HasTag, Xxh3Record, Zip64Record;
    var u32, c32 := Size32(h.usize32, h, offset), Size32(h.csize32, h, offset);
    var w0 := Walk(u32, c32, Offset32(offset), h.compMethod, 0, 0, 0);
    WalkForeign(u32, c32, w0, h.extra);
    if AddedExtra(h, offset) == [] {
      Whole(h.extra);
      NothingAdded(h, offset);
    } else {
      WalkAppend(u32, c32, w0, h.extra, AddedExtra(h, offset));
      WalkRecords(h, offset, u32, c32, WalkExtra(u32, c32, w0, h.extra).value);
    }
  }

  lemma NothingAdded(h: FileHeader, offset: uint64)
    ensures AddedExtra(h, offset) == [] <==> h.xxh3 == 0 && !NeedsZip64Record(h, offset)
  {
    hide Xxh3Record, Zip64Record;
  }

  /** The added records restore what they carry. */
  lemma WalkRecords(h: FileHeader, offset: uint64, u32: uint32, c32: uint32, w: Walk)
    requires u32 == Size32(h.usize32, h, offset) && c32 == Size32(h.csize32, h, offset) && offset < TWO63
    requires w.usize == u32 && w.csize == c32 && w.offset == Offset32(offset) && w.xxh3 == 0
    requires !h.IsZip64() ==> h.csize32 == h.csize && h.usize32 == h.usize
    ensures WalkExtra(u32, c32, w, AddedExtra(h, offset))
              == Ok(w.(usize := h.usize, csize := h.csize, offset := offset, xxh3 := h.xxh3))
  {
    hide WalkExtra, Step, Xxh3Record, Zip64Record;
    var x := if h.xxh3 != 0 then Xxh3Record(h.xxh3) else [];
    var z := if NeedsZip64Record(h, offset) then Zip64Record(h.usize, h.csize, offset) else [];
    var w' := w.(xxh3 := h.xxh3);
    WalkNothing(u32, c32, w);
    WalkNothing(u32, c32, w');
    if h.xxh3 != 0 {
      WalkXxh3(u32, c32, w, h.xxh3);
    }
    WalkAppend(u32, c32, w, x, z);
    if NeedsZip64Record(h, offset) {
      WalkZip64(w', h.usize, h.csize, offset);
    }
  }

  lemma WalkNothing(u32: uint32, c32: uint32, w: Walk)
    ensures Exact([]) && WalkExtra(u32, c32, w, []) == Ok(w)
  {
  }

  lemma WalkXxh3(u32: uint32, c32: uint32, w: Walk, v: uint64)
    ensures Exact(Xxh3Record(v)) && WalkExtra(u32, c32, w, Xxh3Record(v)) == Ok(w.(xxh3 := v))
  {
    hide P64, WalkExtra, Exact;
    WalkRecord(u32, c32, w, XXH3_EXTRA_ID, P64(v));
    RecordExact(XXH3_EXTRA_ID, P64(v));
  }

  lemma WalkZip64(w: Walk, usize: uint64, csize: uint64, offset: uint64)
    requires offset < TWO63 && w.offset == Offset32(offset)
    ensures WalkExtra(UINT32_MAX, UINT32_MAX, w, Zip64Record(usize, csize, offset))
              == Ok(w.(usize := usize, csize := csize, offset := offset))
  {
    hide P64, U64, WalkExtra;
    WalkRecord(UINT32_MAX, UINT32_MAX, w, ZIP64_EXTRA_ID, Put64(usize, Put64(csize, P64(offset))));
    assert P64(offset)[..8] == P64(offset);
  }

  /** The entry reported for a printed record, given what the walk finds. */
  function ReadAs(h: FileHeader, offset: uint64, w: Walk): File {
    File(h.Wire().(compMethod := w.compMethod, ae := w.ae, strength := w.strength, usize := w.usize, csize := w.csize,
           xxh3 := w.xxh3, extra := DirExtra(h, offset),
           csize32 := Size32(h.csize32, h, offset), usize32 := Size32(h.usize32, h, offset)),
         w.offset)
  }

  /** Reading a printed record: everything but the walked values is as it was written. */
  lemma DirParses(h: FileHeader, offset: uint64, rest: bytes)
    requires DirRecord(h, offset).Ok?
    ensures ParseDir(DirRecord(h, offset).value + rest) ==
            match Walked(h, offset) case Ok(w) => Ok((ReadAs(h, offset, w), rest)) case Err(e) => Err(e)
  {
    hide PrintFixed, ParseFixed, WalkExtra, AddedExtra, U16, P16;
    var x, d := FixedOf(h, offset), h.name + (DirExtra(h, offset) + h.comment);
    var s := DirRecord(h, offset).value + rest;
    assert s[..DIRECTORY_HEADER_LEN] == PrintFixed(x);
    FixedRoundTrip(x);
    var tail := s[DIRECTORY_HEADER_LEN..];
    assert tail == d + rest;
    var n, e: nat := x.nameLen, x.extraLen;
    assert tail[..VarLen(x)] == d && tail[VarLen(x)..] == rest;
    assert d[..n] == h.name && d[n..n + e] == DirExtra(h, offset) && d[n + e..] == h.comment;
  }

  /** The walk finds exactly the values that should come back. */
  ghost predicate Restored(h: FileHeader, offset: uint64) {
    Walked(h, offset) == Ok(Intended(h, offset))
  }

  /** The entry is read back exactly when its walked values are restored. */
  lemma ReadBackExactlyWhen(h: FileHeader, offset: uint64, rest: bytes)
    requires DirRecord(h, offset).Ok?
    ensures var r := ParseDir(DirRecord(h, offset).value + rest);
            && (Restored(h, offset) ==> r == Ok((File(ReadBack(h, offset), offset), rest)))
            && (r.Ok? && r.value.0 == File(ReadBack(h, offset), offset) ==> Restored(h, offset))
            && (r.Ok? ==> r.value.1 == rest)
  {
    hide DirRecord, ParseDir, Walked, AesInfo, DirExtra, Size32;
    DirParses(h, offset, rest);
  }

  /** Parsing undoes printing, for every mix of small and zip64 sizes and
      offset and with or without a checksum record. */
  lemma DirRoundTrip(h: FileHeader, offset: uint64, rest: bytes)
    requires Rereadable(h, offset) && offset < TWO63
    requires DirRecord(h, offset).Ok?
    ensures ParseDir(DirRecord(h, offset).value + rest) == Ok((File(ReadBack(h, offset), offset), rest))
  {
    hide DirRecord, ParseDir, Walked, Intended, Rereadable, ReadBack;
    ReadBackExactlyWhen(h, offset, rest);
    WalkAdded(h, offset);
  }
}
