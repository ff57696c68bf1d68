/** One file part: local header, payload, data descriptor. The same length is
    predicted from a header, produced by the writer and inferred by the filter. */
module LocalPart {
  import opened Bytes
  import opened Header
  import opened ExtraFields
  import opened Streams
  import opened Directory
  import opened Archive

  // ---------------------------------------------------------------- local header

  datatype Local = Local(
    readerVersion: uint16, flags: uint16, compMethod: uint16, modTime: uint16, modDate: uint16,
    crc: uint32, csize32: uint32, usize32: uint32, nameLen: uint16, extraLen: uint16)

  function PrintLocal(x: Local): (r: bytes)
    ensures |r| == FILE_HEADER_LEN
  {
    Put32(FILE_HEADER_SIGNATURE, Put16(x.readerVersion, Put16(x.flags, Put16(x.compMethod,
      Put16(x.modTime, Put16(x.modDate, Put32(x.crc, Put32(x.csize32, Put32(x.usize32,
      Put16(x.nameLen, Put16(x.extraLen, [])))))))))))
  }

  function ParseLocal(buf: bytes): Result<Local>
    requires |buf| == FILE_HEADER_LEN
  {
    var (sig, b) := Get32(buf);
    if sig != FILE_HEADER_SIGNATURE then Err(ErrFormat) else
    var (readerVersion, b) := Get16(b);
    var (flags, b) := Get16(b);
    var (compMethod, b) := Get16(b);
    var (modTime, b) := Get16(b);
    var (modDate, b) := Get16(b);
    var (crc, b) := Get32(b);
    var (csize32, b) := Get32(b);
    var (usize32, b) := Get32(b);
    var (nameLen, b) := Get16(b);
    var (extraLen, b) := Get16(b);
    Ok(Local(readerVersion, flags, compMethod, modTime, modDate, crc, csize32, usize32, nameLen, extraLen))
  }

  lemma LocalRoundTrip(x: Local)
    ensures ParseLocal(PrintLocal(x)) == Ok(x)
  {
  }

  /** What the writer prints: a descriptor follows, so checksum and sizes are zero. */
  function LocalOf(h: FileHeader): Local
    requires |h.name| <= UINT16_MAX && |h.extra| <= UINT16_MAX
  {
    Local(h.readerVersion, h.flags, h.compMethod, h.modTime, h.modDate, 0, 0, 0, |h.name|, |h.extra|)
  }

  function LocalHeader(h: FileHeader): (r: Result<bytes>)
    ensures r.Ok? ==> |r.value| == FILE_HEADER_LEN + |h.name| + |h.extra|
  {
    if |h.name| > UINT16_MAX then Err(ErrLongName)
    else if |h.extra| > UINT16_MAX then Err(ErrLongExtra)
    else Ok(PrintLocal(LocalOf(h)) + (h.name + h.extra))
  }

  method WriteHeader(w: CountWriter, h: FileHeader) returns (r: Result<()>)
    modifies w
    ensures match LocalHeader(h)
            case Ok(b) => r == Ok(()) && w.data == old(w.data) + b && w.count == old(w.count) + |b|
            case Err(e) => r == Err(e) && w.data == old(w.data) && w.count == old(w.count)
  {
    if |h.name| > UINT16_MAX {
      return Err(ErrLongName);
    }
    if |h.extra| > UINT16_MAX {
      return Err(ErrLongExtra);
    }
    var buf := WriteLocal(LocalOf(h));
    ghost var d := w.data;
    w.Write(buf);
    w.Write(h.name);
    w.Write(h.extra);
    Assoc(d, buf, h.name);
    Assoc(d, buf + h.name, h.extra);
    Assoc(buf, h.name, h.extra);
    return Ok(());
  }

  method PutLocal(b: WriteBuf, x: Local)
    requires b.Valid() && b.pos + FILE_HEADER_LEN <= b.buf.Length
    modifies b, b.buf
    ensures b.Valid() && b.pos == old(b.pos) + FILE_HEADER_LEN && b.Done() == old(b.Done()) + PrintLocal(x)
  {
    hide Put16, Put32, P16, P32, Get16, Get32, U16, U32;
    b.Uint32(FILE_HEADER_SIGNATURE);
    b.Uint16(x.readerVersion);
    b.Uint16(x.flags);
    b.Uint16(x.compMethod);
    b.Uint16(x.modTime);
    b.Uint16(x.modDate);
    b.Uint32(x.crc);
    b.Uint32(x.csize32);
    b.Uint32(x.usize32);
    b.Uint16(x.nameLen);
    b.Uint16(x.extraLen);
    Whole(b.Done());
  }

  method WriteLocal(x: Local) returns (r: bytes)
    ensures r == PrintLocal(x)
  {
    hide PrintLocal;
    var b := new WriteBuf(FILE_HEADER_LEN);
    PutLocal(b, x);
    Whole(PrintLocal(x));
    r := b.buf[..];
    assert r == b.Done();
  }

  // ---------------------------------------------------------------- data descriptor

  /** Checksum and sizes, as 32-bit or as zip64 values. */
  function DescriptorBody(h: FileHeader): bytes {
    Put32(h.crc, if h.IsZip64() then Put64(h.csize, Put64(h.usize, [])) else Put32(h.csize32, Put32(h.usize32, [])))
  }

  /** AES entries carry no signature. */
  function Descriptor(h: FileHeader): (r: bytes)
    ensures |r| == DescriptorLen(h.IsZip64(), !h.WritesAes())
  {
    if h.WritesAes() then DescriptorBody(h) else Put32(DATA_DESCRIPTOR_SIGNATURE, DescriptorBody(h))
  }

  function DescriptorLen(zip64: bool, signed: bool): nat {
    (if zip64 then DATA_DESCRIPTOR64_LEN else DATA_DESCRIPTOR_LEN) - (if signed then 0 else 4)
  }

  method WriteDescriptor(h: FileHeader) returns (r: bytes)
    ensures r == Descriptor(h)
  {
    hide Put16, Put32, Put64, P16, P32, P64, Get16, Get32, Get64;
    var b := new WriteBuf(DATA_DESCRIPTOR64_LEN);
    if !h.WritesAes() {
      b.Uint32(DATA_DESCRIPTOR_SIGNATURE);
    }
    ghost var first := b.Done();
    assert first == first + [];
    b.Uint32(h.crc);
    if h.IsZip64() {
      b.Uint64(h.csize);
      b.Uint64(h.usize);
    } else {
      b.Uint32(h.csize32);
      b.Uint32(h.usize32);
    }
    Whole(b.Done());
    r := b.buf[..b.pos];
    assert r == b.Done();
    if !h.WritesAes() {
      assert first + DescriptorBody(h) == Put32(DATA_DESCRIPTOR_SIGNATURE, DescriptorBody(h)) by {
        SignedBody(DescriptorBody(h));
        Whole(P32(DATA_DESCRIPTOR_SIGNATURE));
      }
    } else {
      Whole(DescriptorBody(h));
    }
  }

  lemma SignedBody(body: bytes)
    ensures Put32(DATA_DESCRIPTOR_SIGNATURE, body) == P32(DATA_DESCRIPTOR_SIGNATURE) + body
  {
  }

  // ---------------------------------------------------------------- a closed part

  /** The regenerated compression method is the one the header already has. */
  predicate MethodStable(h: FileHeader) {
    var (m, ae, s) := AesInfo(h.extra, h.compMethod, 0, 0);
    h.compMethod == if ae != 0 then WINZIP_AES_METHOD else m
  }

  /** What holds of the final header of every entry the writer has closed. */
  ghost predicate FinalHeader(h: FileHeader) {
    && Printable(h)
    && MethodStable(h)
    && |h.name| <= UINT16_MAX && |h.extra| <= UINT16_MAX
    && h.HasDataDescriptor()
    && (h.IsZip64() ==> h.csize32 == UINT32_MAX && h.usize32 == UINT32_MAX)
    && (h.WritesAes() ==> h.crc == 0)
  }

  /** The bytes of an entry: header, payload, descriptor. The version needed
      was still 2.0 when the local header was written. */
  function PartBytes(h: FileHeader, payload: bytes): bytes
    requires |h.name| <= UINT16_MAX && |h.extra| <= UINT16_MAX
  {
    LocalHeader(h.(readerVersion := ZIP_VERSION20)).value + payload + Descriptor(h)
  }

  /** An item is a closed part with the given payload. */
  ghost predicate Closed(it: Item, payload: bytes) {
    FinalHeader(it.h) && it.h.csize == |payload| && it.part == PartBytes(it.h, payload)
  }

  /** What `generateCentralDirectory` charges for an entry. */
  function PredictedLen(h: FileHeader): nat {
    FILE_HEADER_LEN + |h.name| + |h.extra| + h.csize + DescriptorLen(h.IsZip64(), !h.WritesAes())
  }

  /** The prediction is the length the writer produced. */
  lemma PredictedIsWritten(it: Item, payload: bytes)
    requires Closed(it, payload)
    ensures |it.part| == PredictedLen(it.h)
  {
    hide PrintLocal, DescriptorBody;
  }
}
