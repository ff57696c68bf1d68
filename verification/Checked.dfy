/** What a clean end of an entry vouches for, and how each mismatch is reported. */
module Checked {
  import opened Bytes
  import opened Header
  import opened Streams
  import opened Directory
  import opened Opening
  import opened Deferred

  /** The position behind the payload of an entry. */
  function BodyEnd(file: bytes, f: File): int
    requires BodyOffset(file, f.headerOffset).Ok?
  {
    f.headerOffset + BodyOffset(file, f.headerOffset).value + Int64(f.h.csize)
  }

  /** The checksum that a data descriptor at this place stores, behind a
      signature or not; nothing if the file ends too early. */
  function StoredSum(file: bytes, at: int): Option<uint32> {
    if at < 0 || |file| < at + 12 then None
    else if U32(file[at..]) != DATA_DESCRIPTOR_SIGNATURE then Some(U32(file[at..]))
    else if |file| < at + 16 then None
    else Some(U32(file[at + 4..]))
  }

  /** The content of an entry, if its payload can be deciphered and decompressed to a proper end. */
  function Content(lib: Lib, file: bytes, f: File): Option<bytes> {
    if BodyOffset(file, f.headerOffset).Err? then None else
    match RawStream(lib, f.h, Body(file, f))
    case Err(_) => None
    case Ok((s, end)) =>
      var (data, ok) := Decompressed(lib, f.h.compMethod, s, end == Eof);
      if ok then Some(data) else None
  }

  /** The end of file is reported only behind a content of the announced
      size, with the announced checksum if one is announced or a descriptor
      follows, and in front of a descriptor that stores that checksum. */
  lemma CleanEndIsChecked(lib: Lib, file: bytes, f: File)
    requires OpenFile(lib, file, f).Ok? && OpenFile(lib, file, f).value.1 == Eof && f.h.ae != 2
    ensures var data := OpenFile(lib, file, f).value.0;
            && Content(lib, file, f) == Some(data)
            && |data| % TWO64 == f.h.usize
            && (f.h.HasDataDescriptor() || f.h.crc != 0 ==> lib.crc32(data) == f.h.crc)
            && (f.h.HasDataDescriptor() ==>
                  BodyOffset(file, f.headerOffset).Ok? && StoredSum(file, BodyEnd(file, f)) == Some(f.h.crc))
  {
    hide BodyOffset, RawStream, Decompressed, HasDecompressor, DescriptorCheck, SectionAt, StoredSum;
    var data := OpenFile(lib, file, f).value.0;
    if f.h.HasDataDescriptor() {
      StoredIsChecked(file, BodyEnd(file, f), f.h.crc);
    }
  }

  /** What reading a descriptor says, by the checksum it stores. */
  lemma StoredIsChecked(file: bytes, at: int, crc: uint32)
    ensures var (d, last) := SectionAt(file, at, DATA_DESCRIPTOR_LEN);
            |d| <= DATA_DESCRIPTOR_LEN
            && match StoredSum(file, at)
               case Some(sum) => DescriptorCheck(d, last, crc) == if sum == crc then None else Some(ErrChecksum)
               case None => var e := DescriptorCheck(d, last, crc);
                            if at < 0 then e == Some(ErrNegativeOffset) else e in {Some(Eof), Some(UnexpectedEof)}
  {
    hide U32;
    if at >= 0 {
      var d := SectionAt(file, at, DATA_DESCRIPTOR_LEN).0;
      if |file| >= at + 12 {
        FrontOf(file, at, d);
      }
    }
  }

  lemma FrontOf(file: bytes, at: nat, d: bytes)
    requires |file| >= at + 12 && d == Section(file, at, DATA_DESCRIPTOR_LEN)
    ensures |d| == Min(DATA_DESCRIPTOR_LEN, |file| - at) && U32(d) == U32(file[at..])
    ensures |d| == DATA_DESCRIPTOR_LEN ==> U32(d[4..]) == U32(file[at + 4..])
  {
    hide U32;
    assert d[..4] == file[at..][..4];
    FirstFour(d);
    FirstFour(file[at..]);
    if |d| == DATA_DESCRIPTOR_LEN {
      assert d[4..][..4] == file[at + 4..][..4];
      FirstFour(d[4..]);
      FirstFour(file[at + 4..]);
    }
  }

  /** How a content that was decompressed to its end is judged: the size first,
      then the descriptor, then the checksum. */
  lemma MismatchIsReported(lib: Lib, file: bytes, f: File)
    requires Content(lib, file, f).Some? && HasDecompressor(lib, f.h.compMethod) && f.h.ae != 2
    ensures OpenFile(lib, file, f).Ok? && OpenFile(lib, file, f).value.0 == Content(lib, file, f).value
    ensures var (data, end) := OpenFile(lib, file, f).value;
            && (|data| % TWO64 != f.h.usize ==> end == UnexpectedEof)
            && (|data| % TWO64 == f.h.usize ==>
                  if f.h.HasDataDescriptor() then
                    var at := BodyEnd(file, f);
                    match StoredSum(file, at)
                    case None => end == if at < 0 then ErrNegativeOffset else UnexpectedEof
                    case Some(sum) => end == if sum == f.h.crc == lib.crc32(data) then Eof else ErrChecksum
                  else end == if f.h.crc == 0 || lib.crc32(data) == f.h.crc then Eof else ErrChecksum)
  {
    hide BodyOffset, RawStream, Decompressed, HasDecompressor, DescriptorCheck, SectionAt, StoredSum;
    if f.h.HasDataDescriptor() {
      StoredIsChecked(file, BodyEnd(file, f), f.h.crc);
    }
  }

  /** A stored entry in the clear: the bytes of its payload are delivered, and
      the end of file if and only if size and checksums are those announced. */
  lemma StoredEntry(lib: Lib, file: bytes, f: File)
    requires BodyOffset(file, f.headerOffset).Ok? && !f.h.IsEncrypted() && f.h.compMethod == STORE && f.h.ae != 2
    ensures var body := Body(file, f);
            && OpenFile(lib, file, f).Ok? && OpenFile(lib, file, f).value.0 == body
            && (OpenFile(lib, file, f).value.1 == Eof <==>
                  && |body| % TWO64 == f.h.usize
                  && (f.h.HasDataDescriptor() || f.h.crc != 0 ==> lib.crc32(body) == f.h.crc)
                  && (f.h.HasDataDescriptor() ==> StoredSum(file, BodyEnd(file, f)) == Some(f.h.crc)))
  {
    hide OpenFile, BodyOffset, StoredSum, Body, BodyEnd;
    MismatchIsReported(lib, file, f);
  }

  /** Without a decompressor nothing is read. */
  lemma UnknownMethod(lib: Lib, file: bytes, f: File)
    requires BodyOffset(file, f.headerOffset).Ok? && RawStream(lib, f.h, Body(file, f)).Ok?
    ensures OpenFile(lib, file, f) == Err(ErrAlgorithm) <==>
            f.h.compMethod != STORE && f.h.compMethod != DEFLATE && !lib.hasDecompressor(f.h.compMethod)
  {
    hide BodyOffset, RawStream, Verdict, Inflate;
  }

  /** The check of the content hash succeeds if and only if there is none, or
      the entry reads well and has it; a wrong hash is reported as such. */
  lemma HashIsChecked(lib: Lib, file: bytes, f: File)
    ensures Xxh3Verdict(lib, file, f) == None <==>
            f.h.xxh3 == 0 ||
            (OpenFile(lib, file, f).Ok? && OpenFile(lib, file, f).value.1 == Eof
             && lib.xxh3(OpenFile(lib, file, f).value.0) == f.h.xxh3)
    ensures f.h.xxh3 != 0 && OpenFile(lib, file, f).Ok? ==>
              var (data, end) := OpenFile(lib, file, f).value;
              && (end != Eof ==> Xxh3Verdict(lib, file, f) == Some(end))
              && (end == Eof && lib.xxh3(data) != f.h.xxh3 ==> Xxh3Verdict(lib, file, f) == Some(ErrXxh3))
    ensures f.h.xxh3 != 0 && OpenFile(lib, file, f).Err? ==> Xxh3Verdict(lib, file, f) == Some(OpenFile(lib, file, f).error)
  {
    hide OpenFile;
  }
}
