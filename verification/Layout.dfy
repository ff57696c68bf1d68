/** Where each field stands in the records, in bytes from their start (APPNOTE sections 4.3.7 to 4.3.16). */
module Layout {
  import opened Bytes
  import opened Header
  import opened ExtraFields
  import opened Directory
  import opened EndRecord
  import opened Archive
  import opened LocalPart

  /** Numbers are stored with the least significant byte first. */
  lemma LittleEndian(b: bytes)
    ensures |b| >= 2 ==> U16(b) == b[0] as int + 0x100 * b[1] as int
    ensures |b| >= 4 ==> U32(b) == U16(b) + 0x1_0000 * U16(b[2..])
    ensures |b| >= 8 ==> U64(b) == U32(b) + 0x1_0000_0000 * U32(b[4..])
  {
    if |b| >= 4 {
      assert b[2..4] == b[2..][..2];
      ReadHead(b, 2);
      ReadHead(b[2..], 2);
    }
    if |b| >= 8 {
      assert b[4..8] == b[4..][..4];
      ReadHead(b, 4);
      ReadHead(b[4..], 4);
    }
  }

  lemma ReadHead(b: bytes, n: nat)
    requires n in {2, 4} && |b| >= n
    ensures n == 2 ==> U16(b[..2]) == U16(b)
    ensures n == 4 ==> U32(b[..4]) == U32(b)
  {
    if n == 4 {
      assert b[..4][..2] == b[..2] && b[..4][2..4] == b[2..4];
    }
  }

  lemma Field16(b: bytes, at: nat, v: uint16, rest: bytes)
    requires at <= |b| && b[at..] == Put16(v, rest)
    ensures at + 2 <= |b| && U16(b[at..]) == v && b[at + 2..] == rest
  {
    hide U16, P16;
    ReadLocal(P16(v), rest);
    assert b[at..][2..] == b[at + 2..];
  }

  lemma Field32(b: bytes, at: nat, v: uint32, rest: bytes)
    requires at <= |b| && b[at..] == Put32(v, rest)
    ensures at + 4 <= |b| && U32(b[at..]) == v && b[at + 4..] == rest
  {
    hide U32, P32;
    ReadLocal(P32(v), rest);
    assert b[at..][4..] == b[at + 4..];
  }

  lemma Field64(b: bytes, at: nat, v: uint64, rest: bytes)
    requires at <= |b| && b[at..] == Put64(v, rest)
    ensures at + 8 <= |b| && U64(b[at..]) == v && b[at + 8..] == rest
  {
    hide U64, P64;
    ReadLocal(P64(v), rest);
    assert b[at..][8..] == b[at + 8..];
  }

  // ---------------------------------------------------------------- records

  /** Local file header, section 4.3.7. */
  lemma LocalLayout(x: Local)
    ensures var b := PrintLocal(x);
            |b| == 30
            && U32(b[0..]) == 0x0403_4b50 && U16(b[4..]) == x.readerVersion && U16(b[6..]) == x.flags
            && U16(b[8..]) == x.compMethod && U16(b[10..]) == x.modTime && U16(b[12..]) == x.modDate
            && U32(b[14..]) == x.crc && U32(b[18..]) == x.csize32 && U32(b[22..]) == x.usize32
            && U16(b[26..]) == x.nameLen && U16(b[28..]) == x.extraLen
  {
    hide U16, U32, U64, P16, P32, P64, Put16, Put32, Put64;
    var b := PrintLocal(x);
    var r10 := Put16(x.extraLen, []);
    var r9 := Put16(x.nameLen, r10);
    var r8 := Put32(x.usize32, r9);
    var r7 := Put32(x.csize32, r8);
    var r6 := Put32(x.crc, r7);
    var r5 := Put16(x.modDate, r6);
    var r4 := Put16(x.modTime, r5);
    var r3 := Put16(x.compMethod, r4);
    var r2 := Put16(x.flags, r3);
    var r1 := Put16(x.readerVersion, r2);
    assert b[0..] == Put32(0x0403_4b50, r1);
    Field32(b, 0, 0x0403_4b50, r1);
    Field16(b, 4, x.readerVersion, r2);
    Field16(b, 6, x.flags, r3);
    Field16(b, 8, x.compMethod, r4);
    Field16(b, 10, x.modTime, r5);
    Field16(b, 12, x.modDate, r6);
    Field32(b, 14, x.crc, r7);
    Field32(b, 18, x.csize32, r8);
    Field32(b, 22, x.usize32, r9);
    Field16(b, 26, x.nameLen, r10);
    Field16(b, 28, x.extraLen, []);
  }

  /** Central directory header, section 4.3.12; disk number and internal attributes are zero. */
  lemma DirectoryLayout(x: Fixed)
    ensures var b := PrintFixed(x);
            |b| == 46
            && U32(b[0..]) == 0x0201_4b50 && U16(b[4..]) == x.creatorVersion && U16(b[6..]) == x.readerVersion
            && U16(b[8..]) == x.flags && U16(b[10..]) == x.compMethod && U16(b[12..]) == x.modTime
            && U16(b[14..]) == x.modDate && U32(b[16..]) == x.crc && U32(b[20..]) == x.csize32
            && U32(b[24..]) == x.usize32 && U16(b[28..]) == x.nameLen && U16(b[30..]) == x.extraLen
            && U16(b[32..]) == x.commentLen && U32(b[34..]) == 0 && U32(b[38..]) == x.extAttrs
            && U32(b[42..]) == x.offset32
  {
    hide U16, U32, U64, P16, P32, P64, Put16, Put32, Put64;
    var b := PrintFixed(x);
    var r15 := Put32(x.offset32, []);
    var r14 := Put32(x.extAttrs, r15);
    var r13 := Put32(0, r14);
    var r12 := Put16(x.commentLen, r13);
    var r11 := Put16(x.extraLen, r12);
    var r10 := Put16(x.nameLen, r11);
    var r9 := Put32(x.usize32, r10);
    var r8 := Put32(x.csize32, r9);
    var r7 := Put32(x.crc, r8);
    var r6 := Put16(x.modDate, r7);
    var r5 := Put16(x.modTime, r6);
    var r4 := Put16(x.compMethod, r5);
    var r3 := Put16(x.flags, r4);
    var r2 := Put16(x.readerVersion, r3);
    var r1 := Put16(x.creatorVersion, r2);
    assert b[0..] == Put32(0x0201_4b50, r1);
    Field32(b, 0, 0x0201_4b50, r1);
    Field16(b, 4, x.creatorVersion, r2);
    Field16(b, 6, x.readerVersion, r3);
    Field16(b, 8, x.flags, r4);
    Field16(b, 10, x.compMethod, r5);
    Field16(b, 12, x.modTime, r6);
    Field16(b, 14, x.modDate, r7);
    Field32(b, 16, x.crc, r8);
    Field32(b, 20, x.csize32, r9);
    Field32(b, 24, x.usize32, r10);
    Field16(b, 28, x.nameLen, r11);
    Field16(b, 30, x.extraLen, r12);
    Field16(b, 32, x.commentLen, r13);
    Field32(b, 34, 0, r14);
    Field32(b, 38, x.extAttrs, r15);
    Field32(b, 42, x.offset32, []);
  }

  /** End of central directory record, section 4.3.16: the disk numbers and the
      comment length are zero, and both counts are there. */
  lemma EndLayout(records: uint16, size: uint32, offset: uint32)
    ensures var b := EndRec(records, size, offset);
            |b| == 22
            && U32(b[0..]) == 0x0605_4b50 && U32(b[4..]) == 0 && U16(b[8..]) == records
            && U16(b[10..]) == records && U32(b[12..]) == size && U32(b[16..]) == offset && U16(b[20..]) == 0
  {
    hide U16, U32, U64, P16, P32, P64, Put16, Put32, Put64;
    var b := EndRec(records, size, offset);
    var r6 := Put16(0, []);
    var r5 := Put32(offset, r6);
    var r4 := Put32(size, r5);
    var r3 := Put16(records, r4);
    var r2 := Put16(records, r3);
    var r1 := Put32(0, r2);
    assert b[0..] == Put32(0x0605_4b50, r1);
    Field32(b, 0, 0x0605_4b50, r1);
    Field32(b, 4, 0, r2);
    Field16(b, 8, records, r3);
    Field16(b, 10, records, r4);
    Field32(b, 12, size, r5);
    Field32(b, 16, offset, r6);
    Field16(b, 20, 0, []);
  }

  /** Zip64 end of central directory record, section 4.3.14: 44 more bytes, version 4.5, no disks, both counts. */
  lemma End64Layout(records: uint64, size: uint64, offset: uint64)
    ensures var b := End64(records, size, offset);
            |b| == 56
            && U32(b[0..]) == 0x0606_4b50 && U64(b[4..]) == 44 && U16(b[12..]) == 45 && U16(b[14..]) == 45
            && U32(b[16..]) == 0 && U32(b[20..]) == 0 && U64(b[24..]) == records && U64(b[32..]) == records
            && U64(b[40..]) == size && U64(b[48..]) == offset
  {
    hide U16, U32, U64, P16, P32, P64, Put16, Put32, Put64;
    var b := End64(records, size, offset);
    var r9 := Put64(offset, []);
    var r8 := Put64(size, r9);
    var r7 := Put64(records, r8);
    var r6 := Put64(records, r7);
    var r5 := Put32(0, r6);
    var r4 := Put32(0, r5);
    var r3 := Put16(45, r4);
    var r2 := Put16(45, r3);
    var r1 := Put64(44, r2);
    assert b[0..] == Put32(0x0606_4b50, r1);
    Field32(b, 0, 0x0606_4b50, r1);
    Field64(b, 4, 44, r2);
    Field16(b, 12, 45, r3);
    Field16(b, 14, 45, r4);
    Field32(b, 16, 0, r5);
    Field32(b, 20, 0, r6);
    Field64(b, 24, records, r7);
    Field64(b, 32, records, r8);
    Field64(b, 40, size, r9);
    Field64(b, 48, offset, []);
  }

  /** Zip64 end of central directory locator, section 4.3.15: no disk, the position, one disk in all. */
  lemma LocatorLayout(position: uint64)
    ensures var b := Loc64(position);
            |b| == 20
            && U32(b[0..]) == 0x0706_4b50 && U32(b[4..]) == 0 && U64(b[8..]) == position && U32(b[16..]) == 1
  {
    hide U16, U32, U64, P16, P32, P64, Put16, Put32, Put64;
    var b := Loc64(position);
    var r3 := Put32(1, []);
    var r2 := Put64(position, r3);
    var r1 := Put32(0, r2);
    assert b[0..] == Put32(0x0706_4b50, r1);
    Field32(b, 0, 0x0706_4b50, r1);
    Field32(b, 4, 0, r2);
    Field64(b, 8, position, r3);
    Field32(b, 16, 1, []);
  }

  /** The local header of an entry: version, flags, method and times are the
      header's, checksum and sizes are zero, and name and extra follow. */
  lemma EntryLayout(h: FileHeader)
    requires LocalHeader(h).Ok?
    ensures var b := LocalHeader(h).value;
            && |b| == 30 + |h.name| + |h.extra|
            && U32(b[0..]) == 0x0403_4b50 && U16(b[4..]) == h.readerVersion && U16(b[6..]) == h.flags
            && U16(b[8..]) == h.compMethod && U16(b[10..]) == h.modTime && U16(b[12..]) == h.modDate
            && U32(b[14..]) == 0 && U32(b[18..]) == 0 && U32(b[22..]) == 0
            && U16(b[26..]) == |h.name| && U16(b[28..]) == |h.extra|
            && b[30..] == h.name + h.extra
  {
    hide U16, U32, PrintLocal;
    var x := LocalOf(h);
    var lh, more := PrintLocal(x), h.name + h.extra;
    LocalLayout(x);
    Cut(lh, more);
    Extended(lh, more, 0);
    Extended(lh, more, 4);
    Extended(lh, more, 6);
    Extended(lh, more, 8);
    Extended(lh, more, 10);
    Extended(lh, more, 12);
    Extended(lh, more, 14);
    Extended(lh, more, 18);
    Extended(lh, more, 22);
    Extended(lh, more, 26);
    Extended(lh, more, 28);
  }

  lemma Extended(b: bytes, more: bytes, at: nat)
    requires at <= |b|
    ensures |b| >= at + 2 ==> U16((b + more)[at..]) == U16(b[at..])
    ensures |b| >= at + 4 ==> U32((b + more)[at..]) == U32(b[at..])
  {
    hide U16, U32;
    assert (b + more)[at..] == b[at..] + more;
    ReadLocal(b[at..], more);
  }

  /** The extra records that are added: tag, size, and the values in order. */
  lemma RecordLayouts(v: uint64, usize: uint64, csize: uint64, offset: uint64, strength: byte, compMethod: uint16)
    ensures var b := Xxh3Record(v); |b| == 12 && U16(b[0..]) == 0x7878 && U16(b[2..]) == 8 && U64(b[4..]) == v
    ensures var b := Zip64Record(usize, csize, offset);
            && |b| == 28 && U16(b[0..]) == 1 && U16(b[2..]) == 24
            && U64(b[4..]) == usize && U64(b[12..]) == csize && U64(b[20..]) == offset
    ensures var b := AesRecord(strength, compMethod);
            && |b| == 11 && U16(b[0..]) == 0x9901 && U16(b[2..]) == 7 && U16(b[4..]) == 2
            && b[6] == 0x41 && b[7] == 0x45 && b[8] == strength && U16(b[9..]) == compMethod
  {
    XxhLayout(v);
    Zip64Layout(usize, csize, offset);
    AesLayout(strength, compMethod);
  }

  lemma XxhLayout(v: uint64)
    ensures var b := Xxh3Record(v); |b| == 12 && U16(b[0..]) == 0x7878 && U16(b[2..]) == 8 && U64(b[4..]) == v
  {
    hide U16, U64, P16, P64, Put16;
    var b := Xxh3Record(v);
    assert b[0..] == Put16(0x7878, Put16(8, P64(v)));
    Field16(b, 0, 0x7878, Put16(8, P64(v)));
    Field16(b, 2, 8, P64(v));
  }

  lemma Zip64Layout(usize: uint64, csize: uint64, offset: uint64)
    ensures var b := Zip64Record(usize, csize, offset);
            && |b| == 28 && U16(b[0..]) == 1 && U16(b[2..]) == 24
            && U64(b[4..]) == usize && U64(b[12..]) == csize && U64(b[20..]) == offset
  {
    hide U16, U64, P16, P64, Put16, Put64;
    var b := Zip64Record(usize, csize, offset);
    var data := Put64(usize, Put64(csize, P64(offset)));
    assert b[0..] == Put16(1, Put16(24, data));
    Field16(b, 0, 1, Put16(24, data));
    Field16(b, 2, 24, data);
    Field64(b, 4, usize, Put64(csize, P64(offset)));
    Field64(b, 12, csize, P64(offset));
  }

  lemma AesLayout(strength: byte, compMethod: uint16)
    ensures var b := AesRecord(strength, compMethod);
            && |b| == 11 && U16(b[0..]) == 0x9901 && U16(b[2..]) == 7 && U16(b[4..]) == 2
            && b[6] == 0x41 && b[7] == 0x45 && b[8] == strength && U16(b[9..]) == compMethod
  {
    hide U16, P16, Put16;
    var b := AesRecord(strength, compMethod);
    var tail := [strength] + P16(compMethod);
    var data := Put16(2, Put16(0x4541, tail));
    assert b[0..] == Put16(0x9901, Put16(7, data));
    Field16(b, 0, 0x9901, Put16(7, data));
    Field16(b, 2, 7, data);
    Field16(b, 4, 2, Put16(0x4541, tail));
    Field16(b, 6, 0x4541, tail);
    Vendor(b, tail);
    assert b[8..][0] == strength && b[9..] == b[8..][1..] == P16(compMethod);
  }

  lemma Vendor(b: bytes, tail: bytes)
    requires |b| >= 8 && U16(b[6..]) == 0x4541
    ensures b[6] == 0x41 && b[7] == 0x45
  {
    assert b[6..][0] == b[6] && b[6..][1] == b[7];
  }

  /** Data descriptor, section 4.3.9: a signature unless the entry is an AES
      entry, the checksum, and both sizes with four or with eight bytes. */
  lemma DescriptorLayout(h: FileHeader)
    ensures var (d, at) := (Descriptor(h), if h.WritesAes() then 0 else 4);
            && |d| == at + (if h.IsZip64() then 20 else 12)
            && (at == 4 ==> U32(d[0..]) == 0x0807_4b50)
            && U32(d[at..]) == h.crc
            && (if h.IsZip64() then U64(d[at + 4..]) == h.csize && U64(d[at + 12..]) == h.usize
                else U32(d[at + 4..]) == h.csize32 && U32(d[at + 8..]) == h.usize32)
  {
    hide U16, U32, U64, P16, P32, P64, Put32, Put64, FileHeader.IsZip64, FileHeader.WritesAes;
    var (d, at) := (Descriptor(h), if h.WritesAes() then 0 else 4);
    DescriptorIs(h);
    var sizes := if h.IsZip64() then Put64(h.csize, Put64(h.usize, [])) else Put32(h.csize32, Put32(h.usize32, []));
    assert d[0..] == d;
    if at == 4 {
      Field32(d, 0, DATA_DESCRIPTOR_SIGNATURE, Put32(h.crc, sizes));
    }
    Field32(d, at, h.crc, sizes);
    if h.IsZip64() {
      Field64(d, at + 4, h.csize, Put64(h.usize, []));
      Field64(d, at + 12, h.usize, []);
    } else {
      Field32(d, at + 4, h.csize32, Put32(h.usize32, []));
      Field32(d, at + 8, h.usize32, []);
    }
  }

  lemma DescriptorIs(h: FileHeader)
    ensures Descriptor(h) ==
      var sizes := if h.IsZip64() then Put64(h.csize, Put64(h.usize, [])) else Put32(h.csize32, Put32(h.usize32, []));
      if h.WritesAes() then Put32(h.crc, sizes) else Put32(DATA_DESCRIPTOR_SIGNATURE, Put32(h.crc, sizes))
  {
    hide Put32, Put64;
  }

  // ---------------------------------------------------------------- reading the end record

  /** The comment of the end record at `p`, whose length stands in its last two bytes. */
  function CommentAt(file: bytes, p: nat): bytes
    requires p + 22 <= |file| && p + 22 + U16(file[p + 20..]) <= |file|
  {
    file[p + 22..p + 22 + U16(file[p + 20..])]
  }

  predicate HasComment(file: bytes, p: nat) {
    p + 22 <= |file| && p + 22 + U16(file[p + 20..]) <= |file|
  }

  /** What the end record says is read from its places: its comment, and without
      a zip64 locator also the number of entries, the size and the position of
      the directory. */
  lemma EndIsRead(file: bytes)
    requires ReadEnd(file).Ok?
    ensures FindEnd(file).Some? && HasComment(file, FindEnd(file).value)
    ensures var p := FindEnd(file).value;
            && ReadEnd(file).value.comment == CommentAt(file, p)
            && (LocatorBefore(file, p) == None ==>
                  && ReadEnd(file).value.records == U16(file[p + 10..])
                  && ReadEnd(file).value.size == U32(file[p + 12..])
                  && ReadEnd(file).value.offset == U32(file[p + 16..]))
  {
    hide LocatorBefore, ReadEnd64, FindEnd, U16, U32, ParseEndRec;
    var p := FindEnd(file).value;
    FoundIsEnd(file);
    EndAtSuffix(file, p, 0);
    EndRecIsRead(file[p..]);
    Suffixes(file, p);
    var n := U16(file[p + 20..]);
    assert file[p..][22..22 + n] == file[p + 22..p + 22 + n];
  }

  /** A zip64 locator stands in the 20 bytes before the end record; a position
      that is negative as an int64 does not count as one. */
  lemma LocatorIsFound(file: bytes, p: nat)
    requires p <= |file|
    ensures LocatorBefore(file, p) ==
              if p >= 20 && U32(file[p - 20..]) == 0x0706_4b50 && U64(file[p - 12..]) < TWO63
              then Some(U64(file[p - 12..])) else None
  {
    hide U32, U64;
    if p >= 20 {
      var buf := file[p - 20..p];
      assert buf[4..][4..] == buf[8..];
      ReadHead(buf, 4);
      ReadHeads(buf[8..][..8], buf[8..]);
      ReadHeads(buf, file[p - 20..]);
      ReadHeads(buf[8..], file[p - 12..]);
    }
  }

  /** Numbers in a piece are those at the front of what it was taken from. */
  lemma ReadHeads(a: bytes, b: bytes)
    requires |a| >= 8 && a <= b
    ensures U32(a) == U32(b) && U64(a) == U64(b)
  {
    LittleEndian(a);
    LittleEndian(b);
    assert a[..4] == b[..4] && a[4..][..4] == b[4..][..4];
    assert forall i :: 0 <= i < 8 ==> a[i] == b[i];
  }

  /** With a locator, number of entries, size and position of the directory are
      read from the zip64 record that it leads to. */
  lemma End64IsRead(file: bytes, p: nat)
    requires ReadEnd(file).Ok? && FindEnd(file) == Some(p)
    requires p <= |file| && LocatorBefore(file, p).Some?
    ensures var q := LocatorBefore(file, p).value;
            && q + 56 <= |file| && U32(file[q..]) == 0x0606_4b50
            && ReadEnd(file).value.records == U64(file[q + 32..])
            && ReadEnd(file).value.size == U64(file[q + 40..])
            && ReadEnd(file).value.offset == U64(file[q + 48..])
  {
    hide LocatorBefore, FindEnd, U32, U64, ParseEndRec, ParseEnd64;
    FoundIsEnd(file);
    EndAtSuffix(file, p, 0);
    var q := LocatorBefore(file, p).value;
    var buf := file[q..q + 56];
    Parsed64(buf);
    ReadHeads(buf, file[q..]);
    ReadHeads(buf[32..], file[q + 32..]);
    ReadHeads(buf[40..], file[q + 40..]);
    ReadHeads(buf[48..], file[q + 48..]);
  }

  lemma Parsed64(buf: bytes)
    requires |buf| == 56
    ensures ParseEnd64(buf) == if U32(buf) != 0x0606_4b50 then Err(ErrFormat)
                               else Ok((U64(buf[32..]), U64(buf[40..]), U64(buf[48..])))
  {
    hide U32, U64;
    assert buf[4..][12..][4..][4..][8..] == buf[32..];
    assert buf[32..][8..] == buf[40..] && buf[40..][8..] == buf[48..];
    ReadHead(buf, 4);
    ReadHeads(buf[32..][..8], buf[32..]);
    ReadHeads(buf[40..][..8], buf[40..]);
    ReadHeads(buf[48..][..8], buf[48..]);
  }

  lemma FoundIsEnd(file: bytes)
    requires |file| >= DIRECTORY_END_LEN && FindEnd(file).Some?
    ensures EndAt(file, FindEnd(file).value)
  {
    hide EndAt;
    LastEndIsLast(file, if |file| < MAX_SEARCH then 0 else |file| - MAX_SEARCH, |file| - DIRECTORY_END_LEN + 1);
  }

  lemma Suffixes(file: bytes, p: nat)
    requires p + 22 <= |file|
    ensures file[p..][10..] == file[p + 10..] && file[p..][12..] == file[p + 12..]
    ensures file[p..][16..] == file[p + 16..] && file[p..][20..] == file[p + 20..]
  {
  }

  lemma EndRecIsRead(b: bytes)
    requires EndAt(b, 0)
    ensures var d := ParseEndRec(b);
            && d.records == U16(b[10..]) && d.size == U32(b[12..]) && d.offset == U32(b[16..])
            && 22 + U16(b[20..]) <= |b| && d.comment == b[22..22 + U16(b[20..])]
  {
    hide U16, U32;
    var at4 := b[4..];
    assert at4[2..] == b[6..] && b[6..][2..] == b[8..] && b[8..][2..] == b[10..] && b[10..][2..] == b[12..];
    assert b[12..][4..] == b[16..] && b[16..][4..] == b[20..] && b[20..][2..] == b[22..];
    ReadHead(b[10..], 2);
    ReadHead(b[12..], 4);
    ReadHead(b[16..], 4);
    ReadHead(b[20..], 2);
  }

  /** The comment of an archive is what a reader of it reports. */
  lemma CommentIsReported(file: bytes)
    requires Init(file).Ok?
    ensures FindEnd(file).Some? && HasComment(file, FindEnd(file).value)
    ensures Init(file).value.comment == CommentAt(file, FindEnd(file).value)
  {
    hide ReadEnd, FindEnd, ReadFiles, HasComment, CommentAt;
    EndIsRead(file);
    OffsetInside(file);
  }

  /** An archive that announces more entries than one for every 30 bytes, or
      another number modulo 2^16 than its directory has, is not opened; neither is
      one whose directory ends with the file. */
  lemma CountsAreChecked(file: bytes)
    requires ReadEnd(file).Ok?
    ensures ReadEnd(file).value.offset <= |file|
    ensures var end := ReadEnd(file).value;
            && (end.records > |file| / 30 ==> Init(file) == Err(ErrTooManyFiles))
            && (Init(file).Ok? ==> |Init(file).value.files| % 0x1_0000 == end.records % 0x1_0000)
            && (Init(file).Ok? ==> ReadFiles(file[end.offset..]).1 in {ErrFormat, UnexpectedEof})
  {
    hide ReadEnd, ReadFiles;
    OffsetInside(file);
  }
}
