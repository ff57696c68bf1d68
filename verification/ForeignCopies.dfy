/** `CopyRawPart` on parts whose sizes stand in the local header, as most tools write them. */
module ForeignCopies {
  import opened Bytes
  import opened Header
  import opened ExtraFields
  import opened LocalPart
  import opened Jobs
  import opened Opening
  import opened Contents
  import opened RawCopy
  import ZipCrypto

  /** A printed local header is read field by field: the compressed size is the
      header's, and the content size is, unless a zip64 record replaces them. */
  lemma HeaderIsRead(x: Local, name: bytes, extra: bytes, rest: bytes, last: Error)
    requires x.nameLen == |name| && x.extraLen == |extra|
    ensures var r := LocalFile(PrintLocal(x) + (name + extra) + rest, last);
            && r.Ok? && r.value.1 == rest
            && var fh := r.value.0;
            && fh.name == name && fh.extra == extra && fh.readerVersion == x.readerVersion && fh.flags == x.flags
            && fh.compMethod == x.compMethod && fh.modTime == x.modTime && fh.modDate == x.modDate && fh.crc == x.crc
            && fh.csize32 == x.csize32 && fh.usize32 == x.usize32 && fh.password == None && fh.comment == []
            && (!HasTag(extra, ZIP64_EXTRA_ID) ==> fh.csize == x.csize32 && fh.usize == x.usize32)
  {
    hide PrintLocal, ParseLocal, LocalSizes, HasTag;
    Cut(PrintLocal(x), name + extra + rest);
    Assoc(PrintLocal(x), name + extra, rest);
    Assoc(name, extra, rest);
    Cut(name, extra + rest);
    Cut(extra, rest);
    LocalRoundTrip(x);
    SizesWithoutRecord(x.usize32, x.csize32, extra);
  }

  lemma {:induction false} SizesWithoutRecord(u32: uint32, c32: uint32, extra: bytes)
    ensures !HasTag(extra, ZIP64_EXTRA_ID) ==> LocalSizes(u32, c32, extra) == (u32, c32)
    decreases |extra|
  {
    hide U16;
    if HasRecord(extra) {
      SizesWithoutRecord(u32, c32, extra[RecordLen(extra)..]);
    }
  }

  /** With a zip64 record somewhere in the extra, an escaped size is taken from
      it: the content size first, then the compressed one. */
  lemma EscapedHeaderIsRead(x: Local, name: bytes, before: bytes, u: uint64, c: uint64, after: bytes, rest: bytes, last: Error)
    requires Exact(before) && !HasTag(before, ZIP64_EXTRA_ID)
    requires var extra := before + (Record(ZIP64_EXTRA_ID, Put64(u, Put64(c, []))) + after);
             x.nameLen == |name| && x.extraLen == |extra|
    ensures var extra := before + (Record(ZIP64_EXTRA_ID, Put64(u, Put64(c, []))) + after);
            var r := LocalFile(PrintLocal(x) + (name + extra) + rest, last);
            && r.Ok? && r.value.1 == rest
            && var fh := r.value.0;
            && (x.usize32 == UINT32_MAX ==> fh.usize == u && fh.csize == if x.csize32 == UINT32_MAX then c else x.csize32)
            && (x.usize32 != UINT32_MAX ==> fh.usize == x.usize32 && fh.csize == if x.csize32 == UINT32_MAX then u else x.csize32)
  {
    hide PrintLocal, LocalSizes, HasTag, Record, Exact, LocalFile;
    var data := Put64(u, Put64(c, []));
    var extra := before + (Record(ZIP64_EXTRA_ID, data) + after);
    HeaderIsFrom(x, name, extra, rest, last);
    FirstZip64Decides(x.usize32, x.csize32, before, data, after);
    EscapedSizes(x.usize32, x.csize32, u, c);
  }

  lemma HeaderIsFrom(x: Local, name: bytes, extra: bytes, rest: bytes, last: Error)
    requires x.nameLen == |name| && x.extraLen == |extra|
    ensures LocalFile(PrintLocal(x) + (name + extra) + rest, last) == Ok((HeaderFrom(x, name, extra), rest))
  {
    hide PrintLocal, ParseLocal, HeaderFrom;
    Cut(PrintLocal(x), name + extra + rest);
    Assoc(PrintLocal(x), name + extra, rest);
    Assoc(name, extra, rest);
    Cut(name, extra + rest);
    Cut(extra, rest);
    LocalRoundTrip(x);
  }

  // ---------------------------------------------------------------- the payload

  /** Without a descriptor, the payload is as long as the header says, and
      checksum and content size are the header's; a shorter part is refused. */
  lemma PayloadIsTaken(fh: FileHeader, payload: bytes, more: bytes, password: bytes)
    requires fh.flags % 16 < 8 && fh.csize == |payload| < TWO63
    ensures SourceSums(fh, payload + more) == Ok((fh.crc, fh.usize))
    ensures !fh.IsEncrypted() ==> SourceData(fh, payload + more, password) == Ok(payload)
    ensures fh.IsEncrypted() && fh.compMethod != WINZIP_AES_METHOD && password != [] ==>
              SourceData(fh, payload + more, password) ==
                ZipCrypto.ZipOpen(password, (fh.crc / 0x100_0000) as byte, true, payload)
    ensures forall n :: 0 <= n < |payload| ==> SourceSums(fh, payload[..n]) == Err(UnexpectedEof)
  {
    hide ZipCrypto.ZipOpen;
    Cut(payload, more);
  }

  /** Which parts are refused before anything is written: AES parts, encrypted
      ones without a password, and sizes of 2^63 and more in a local header. */
  lemma SourceIsRefused(fh: FileHeader, rest: bytes, password: bytes)
    ensures fh.IsEncrypted() && fh.compMethod == WINZIP_AES_METHOD ==> SourceData(fh, rest, password) == Err(ErrAesSource)
    ensures fh.IsEncrypted() && fh.compMethod != WINZIP_AES_METHOD && password == [] ==>
              SourceData(fh, rest, password) == Err(ErrPassword)
    ensures !fh.IsEncrypted() || (fh.compMethod != WINZIP_AES_METHOD && password != []) ==>
              && (fh.flags % 16 < 8 && fh.csize >= TWO63 ==> SourceData(fh, rest, password) == Err(ErrFormat))
              && (!fh.IsEncrypted() && (fh.flags % 16 >= 8 || fh.csize < TWO63) ==> SourceData(fh, rest, password).Ok?)
  {
    hide ZipCrypto.ZipOpen;
  }

  /** What a part of another tool holds: its payload, deciphered with the old
      password if it is encrypted, is what the copy's stream is. */
  ghost predicate Carries(x: Local, payload: bytes, oldPassword: bytes, stream: bytes) {
    if x.flags % 2 == 0 then payload == stream
    else
      && oldPassword != [] && x.compMethod != WINZIP_AES_METHOD
      && exists header: bytes :: IsHeaderOf(header, x.crc) && payload == ZipCrypto.ZipPayload(oldPassword, header, stream)
  }

  /** Twelve bytes, the last of which is the highest byte of the checksum. */
  predicate IsHeaderOf(header: bytes, crc: uint32) {
    |header| == 12 && header[11] as int == crc / 0x100_0000
  }

  /** Copying a complete part without a descriptor succeeds whenever the new
      entry can be created, and every copy has the part's stream, checksum and
      content size. */
  lemma ForeignIsCopied(lib: Lib, x: Local, name: bytes, extra: bytes, payload: bytes, stream: bytes, more: bytes, last: Error,
                        oldPassword: bytes, newPassword: bytes, change: Overridable -> Overridable)
    requires x.nameLen == |name| && x.extraLen == |extra| && !HasTag(extra, ZIP64_EXTRA_ID)
    requires x.flags % 16 < 8 && x.csize32 == |payload| && Carries(x, payload, oldPassword, stream)
    ensures var part := PrintLocal(x) + (name + extra) + payload + more;
            && LocalFile(part, last).Ok?
            && var g := CopiedHeader(LocalFile(part, last).value.0, newPassword, change);
            && CopyError(lib, false, part, last, oldPassword, newPassword, change) == CreateError(lib, g, true)
            && forall copy: Job :: IsCopy(copy, part, last, oldPassword, newPassword, change, copy.rnd) <==>
                 && copy.fh == g && copy.raw && Flatten(copy.writes) == stream
                 && copy.crc == x.crc && copy.usize == x.usize32
  {
    hide LocalFile, PrintLocal, SourceData, SourceSums, HasTag, CopiedHeader, CreateError, Carries;
    var part := PrintLocal(x) + (name + extra) + payload + more;
    Assoc(PrintLocal(x) + (name + extra), payload, more);
    HeaderIsRead(x, name, extra, payload + more, last);
    var fh := LocalFile(part, last).value.0;
    PayloadIsTaken(fh, payload, more, oldPassword);
    StreamIsCarried(fh, x, payload, more, oldPassword, stream);
  }

  lemma StreamIsCarried(fh: FileHeader, x: Local, payload: bytes, more: bytes, oldPassword: bytes, stream: bytes)
    requires fh.flags == x.flags && fh.crc == x.crc && fh.compMethod == x.compMethod && fh.csize == |payload|
    requires x.flags % 16 < 8 && |payload| < TWO32 && Carries(x, payload, oldPassword, stream)
    ensures SourceData(fh, payload + more, oldPassword) == Ok(stream)
  {
    hide ZipCrypto.ZipOpen, SourceData, ZipCrypto.ZipPayload;
    PayloadIsTaken(fh, payload, more, oldPassword);
    if x.flags % 2 == 1 {
      var header :| IsHeaderOf(header, x.crc) && payload == ZipCrypto.ZipPayload(oldPassword, header, stream);
      ZipCrypto.OpenPayload(oldPassword, header, stream, (x.crc / 0x100_0000) as byte);
    }
  }

  /** From end to end: if the stream decompresses to a content of the announced
      size and checksum, the copy holds that content. */
  lemma ForeignCopyHolds(lib: Lib, x: Local, name: bytes, extra: bytes, payload: bytes, stream: bytes, more: bytes, last: Error,
                         oldPassword: bytes, newPassword: bytes, change: Overridable -> Overridable, copy: Job, content: bytes)
    requires x.nameLen == |name| && x.extraLen == |extra| && !HasTag(extra, ZIP64_EXTRA_ID)
    requires x.flags % 16 < 8 && x.csize32 == |payload| && Carries(x, payload, oldPassword, stream)
    requires HasDecompressor(lib, x.compMethod) && Decompressed(lib, x.compMethod, stream, true) == (content, true)
    requires x.crc == lib.crc32(content) && x.usize32 == |content|
    requires IsCopy(copy, PrintLocal(x) + (name + extra) + payload + more, last, oldPassword, newPassword, change, copy.rnd)
    requires CreateError(lib, copy.fh, true) == None
    ensures Holds(lib, copy, content)
  {
    hide PrintLocal, HasTag, CreateError, Carries, LocalFile, CopyError, IsCopy, CopiedHeader, HasDecompressor, Decompressed;
    var part := PrintLocal(x) + (name + extra) + payload + more;
    ForeignIsCopied(lib, x, name, extra, payload, stream, more, last, oldPassword, newPassword, change);
    Assoc(PrintLocal(x) + (name + extra), payload, more);
    HeaderIsRead(x, name, extra, payload + more, last);
    CopiedKeeps(LocalFile(part, last).value.0, newPassword, change);
  }
}
