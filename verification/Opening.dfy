/** `File.Open`: finding the body of an entry, undoing encryption and compression, and the final check. */
module Opening {
  import opened Bytes
  import opened Header
  import opened Streams
  import opened Directory
  import opened Archive
  import opened Ctr
  import opened Aes
  import opened Payloads
  import Filter
  import ZipCrypto

  // ---------------------------------------------------------------- the body

  /** Length of the local header with its name and extra. */
  function BodyOffset(file: bytes, off: int): (r: Result<nat>)
    ensures r.Ok? ==> 0 <= off && FILE_HEADER_LEN <= r.value
  {
    var lh :- ReadAt(file, off, FILE_HEADER_LEN);
    var (n, e) :- Filter.LocalLens(lh);
    Ok(FILE_HEADER_LEN + n + e)
  }

  method FindBodyOffset(file: bytes, off: int) returns (r: Result<nat>)
    ensures r == BodyOffset(file, off)
  {
    hide U16, U32;
    var lh :- ReadAt(file, off, FILE_HEADER_LEN);
    var b := new ReadBuf(lh);
    var sig := b.Uint32();
    if sig != FILE_HEADER_SIGNATURE {
      return Err(ErrFormat);
    }
    assert b.b == lh[4..];
    b.Skip(22);
    assert b.b == lh[26..];
    assert lh[26..][..2] == lh[26..28];
    var n := b.Uint16();
    assert b.b == lh[28..];
    var e := b.Uint16();
    assert lh[28..][..2] == lh[28..30];
    r := Ok(FILE_HEADER_LEN + n + e);
  }

  // ---------------------------------------------------------------- data descriptor

  /** What a section reader at `off` delivers, and how it ends. */
  function SectionAt(file: bytes, off: int, n: nat): (bytes, Error) {
    if off < 0 then ([], ErrNegativeOffset) else (Section(file, off, n), Eof)
  }

  /** The stored checksum, behind a signature or not, must be that of the directory; the sizes are ignored. */
  function DescriptorCheck(stored: bytes, last: Error, crc: uint32): Option<Error>
    requires |stored| <= DATA_DESCRIPTOR_LEN
  {
    var n := |stored|;
    if n < DATA_DESCRIPTOR_LEN && (last != Eof || n < DATA_DESCRIPTOR_LEN - 4) then
      Some(if last == Eof && n > 0 then UnexpectedEof else last)
    else if U32(stored) == DATA_DESCRIPTOR_SIGNATURE then
      if n < DATA_DESCRIPTOR_LEN then Some(UnexpectedEof)
      else if U32(stored[4..]) != crc then Some(ErrChecksum) else None
    else if U32(stored) != crc then Some(ErrChecksum) else None
  }

  method ReadDataDescriptor(r: Source, crc: uint32) returns (e: Option<Error>)
    modifies r
    ensures e == DescriptorCheck(old(r.rest)[..Min(DATA_DESCRIPTOR_LEN, |old(r.rest)|)], r.last, crc)
  {
    hide U32;
    var buf: bytes := [];
    ghost var stored := r.rest;
    while |buf| < DATA_DESCRIPTOR_LEN
      invariant buf + r.rest == stored && |buf| <= DATA_DESCRIPTOR_LEN
      decreases |r.rest| + r.empties
    {
      var p, st := r.Read(DATA_DESCRIPTOR_LEN - |buf|);
      buf := buf + p;
      if st.End? && |buf| < DATA_DESCRIPTOR_LEN {
        assert buf == stored;
        var err := if st.error == Eof && buf != [] then UnexpectedEof else st.error;
        if st.error != Eof || |buf| < DATA_DESCRIPTOR_LEN - 4 {
          return Some(err);
        }
        break;
      }
    }
    assert buf == stored[..Min(DATA_DESCRIPTOR_LEN, |stored|)];
    var b := new ReadBuf(buf);
    if U32(buf) == DATA_DESCRIPTOR_SIGNATURE {
      if |buf| < DATA_DESCRIPTOR_LEN {
        return Some(UnexpectedEof);
      }
      b.Skip(4);
    }
    ghost var at := b.b;
    FirstFour(at);
    var sum := b.Uint32();
    e := if sum != crc then Some(ErrChecksum) else None;
  }

  lemma FirstFour(s: bytes)
    requires |s| >= 4
    ensures U32(s[..4]) == U32(s)
  {
    assert s[..4][..2] == s[..2] && s[..4][2..4] == s[2..4];
  }

  // ---------------------------------------------------------------- the final check

  /** What the end of the data turns into: size first, then descriptor, then checksum. */
  function Verdict(lib: Lib, h: FileHeader, desc: Option<(bytes, Error)>, data: bytes): Error
    requires desc.Some? ==> |desc.value.0| <= DATA_DESCRIPTOR_LEN
  {
    if |data| % TWO64 != h.usize then UnexpectedEof
    else if desc.Some? then
      match DescriptorCheck(desc.value.0, desc.value.1, h.crc)
      case Some(e) => if e == Eof then UnexpectedEof else e
      case None => if lib.crc32(data) != h.crc then ErrChecksum else Eof
    else if h.crc != 0 && lib.crc32(data) != h.crc then ErrChecksum else Eof
  }

  /** A run that ends with the end of file delivered the announced number of
      bytes, and their checksum matched the directory's whenever there was one
      to match, and the descriptor's as well if there is a descriptor; and only then. */
  lemma EofMeansChecked(lib: Lib, h: FileHeader, desc: Option<(bytes, Error)>, data: bytes)
    requires desc.Some? ==> |desc.value.0| <= DATA_DESCRIPTOR_LEN
    ensures Verdict(lib, h, desc, data) == Eof <==>
      && |data| % TWO64 == h.usize
      && (desc.Some? || h.crc != 0 ==> lib.crc32(data) == h.crc)
      && (desc.Some? ==>
            var (d, last) := desc.value;
            if |d| >= 4 && U32(d) == DATA_DESCRIPTOR_SIGNATURE then |d| == 16 && U32(d[4..]) == h.crc
            else (|d| == 16 || (|d| >= 12 && last == Eof)) && U32(d) == h.crc)
  {
    hide U32;
  }

  lemma AddWraps(a: nat, b: nat)
    ensures (a % TWO64 + b) % TWO64 == (a + b) % TWO64
  {
  }

  class ChecksumReader {
    const lib: Lib
    const h: FileHeader
    const rc: Source
    const desr: Source?
    var hashed: bytes // what the checksum has been fed: all that was returned
    var nread: uint64
    var err: Option<Error>
    ghost const input: bytes // everything the inner reader will deliver
    ghost const desc: Option<(bytes, Error)>

    ghost predicate Valid()
      reads this, rc, desr
    {
      && rc != desr && (desc.Some? ==> |desc.value.0| <= DATA_DESCRIPTOR_LEN)
      && hashed + rc.rest == input && nread == |hashed| % TWO64
      && (desc.Some? <==> desr != null)
      && (err == None && desr != null ==> desc == Some((desr.rest, desr.last)))
      && (err.Some? ==> hashed == input && err.value == Final())
    }

    /** How the stream ends. */
    ghost function Final(): Error
      requires desc.Some? ==> |desc.value.0| <= DATA_DESCRIPTOR_LEN
    {
      if rc.last == Eof then Verdict(lib, h, desc, input) else rc.last
    }

    constructor (lib: Lib, h: FileHeader, rc: Source, desr: Source?)
      requires rc != desr && (desr != null ==> |desr.rest| <= DATA_DESCRIPTOR_LEN)
      ensures Valid() && hashed == [] && err == None && this.lib == lib && this.h == h && this.rc == rc && input == rc.rest
      ensures this.desr == desr
      ensures desc == if desr == null then None else Some((desr.rest, desr.last))
    {
      this.lib, this.h, this.rc, this.desr := lib, h, rc, desr;
      hashed, nread, err, input := [], 0, None, rc.rest;
      desc := if desr == null then None else Some((desr.rest, desr.last));
      new;
      Whole(rc.rest);
    }

    method Read(n: nat) returns (p: bytes, e: Option<Error>)
      requires Valid()
      modifies this, rc, desr
      ensures Valid() && |p| <= n && hashed == old(hashed) + p
      ensures e.Some? ==> hashed == input && e.value == Final()
      ensures e == Some(Eof) ==> Verdict(lib, h, desc, hashed) == Eof
      ensures n > 0 && e == None ==> |rc.rest| + rc.empties < old(|rc.rest| + rc.empties)
    {
      hide DescriptorCheck, Verdict;
      Whole(hashed);
      if err.Some? {
        return [], err;
      }
      var st;
      p, st := rc.Read(n);
      Assoc(hashed, p, rc.rest);
      hashed := hashed + p;
      AddWraps(|hashed| - |p|, |p|);
      nread := (nread + |p|) % TWO64;
      if st.More? {
        return p, None;
      }
      Whole(hashed);
      e := Some(st.error);
      if st.error == Eof {
        e := Judge();
      }
      err := e;
    }

    /** At the end of the data: size, descriptor, checksum. */
    method Judge() returns (e: Option<Error>)
      requires nread == |hashed| % TWO64 && err == None && (desc.Some? <==> desr != null)
      requires desr != null ==> desc == Some((desr.rest, desr.last)) && |desr.rest| <= DATA_DESCRIPTOR_LEN
      modifies desr
      ensures e == Some(Verdict(lib, h, desc, hashed))
    {
      hide DescriptorCheck;
      if nread != h.usize {
        return Some(UnexpectedEof);
      }
      if desr != null {
        Whole(desr.rest);
        var err1 := ReadDataDescriptor(desr, h.crc);
        if err1.Some? {
          return if err1.value == Eof then Some(UnexpectedEof) else err1;
        }
        if lib.crc32(hashed) != h.crc {
          return Some(ErrChecksum);
        }
      } else if h.crc != 0 && lib.crc32(hashed) != h.crc {
        return Some(ErrChecksum);
      }
      return Some(Eof);
    }
  }

  // ---------------------------------------------------------------- decryption

  /** The stream in front of the decompressor, and how it ends. */
  function RawStream(lib: Lib, h: FileHeader, section: bytes): Result<(bytes, Error)> {
    if !h.IsEncrypted() then Ok((section, Eof))
    else if h.password == None then Err(ErrPassword)
    else if h.ae == 0 then
      var data :- ZipCrypto.ZipOpen(h.password.value, ZipCrypto.CheckBytes(h.flags, h.modTime, h.crc).1, true, section);
      Ok((data, Eof))
    else
      var o :- OpenAes(lib, h, section);
      Ok(AesStream(lib, o, h.deferAuth))
  }

  method OpenStream(lib: Lib, h: FileHeader, section: bytes, empties: nat) returns (r: Result<Source>)
    ensures match RawStream(lib, h, section)
            case Err(e) => r == Err(e)
            case Ok((s, end)) => r.Ok? && fresh(r.value) && r.value.rest == s && r.value.last == end
  {
    hide ZipCrypto.ZipOpen, OpenAes, AesStream, ZipCrypto.CheckBytes;
    if !h.IsEncrypted() {
      var src := new Source(section, empties, Eof);
      return Ok(src);
    }
    if h.password == None {
      return Err(ErrPassword);
    }
    if h.ae == 0 {
      var data :- Decipher(h.password.value, ZipCrypto.CheckBytes(h.flags, h.modTime, h.crc).1, section, empties);
      var src := new Source(data, empties, Eof);
      return Ok(src);
    }
    var o :- NewDecryptionReader(lib, h, section, empties);
    var data, end;
    if h.deferAuth {
      data, end := DrainStreaming(lib, o, empties);
    } else {
      data, end := DrainBuffered(lib, o, empties);
    }
    var src := new Source(data, empties, end);
    return Ok(src);
  }

  /** A verified ZipCrypto reader, read to its end in pieces. */
  method Decipher(password: bytes, check: byte, section: bytes, empties: nat) returns (r: Result<bytes>)
    ensures r == ZipCrypto.ZipOpen(password, check, true, section)
  {
    hide ZipCrypto.ZipOpen, PayloadReader.Valid, ZipDecryptReader.Valid;
    var src := new Source(section, empties, Eof);
    var pr := new PayloadReader.Limited(src, |section|);
    Whole(section);
    var zd := new ZipDecryptReader(pr, password, check, true);
    var failed := zd.ReadHeader();
    if failed.Some? {
      return Err(failed.value);
    }
    var data: bytes := [];
    while true
      invariant zd.Valid() && zd.headerDone && zd.err == None && data == zd.out
      decreases zd.Fuel()
    {
      var p, st := zd.Read(4096);
      data := data + p;
      if st.End? {
        return Ok(data);
      }
    }
  }

  /** `newDecryptionReader`: salt and verification value first, then the layout. */
  method NewDecryptionReader(lib: Lib, h: FileHeader, section: bytes, empties: nat) returns (r: Result<Opened>)
    ensures r == OpenAes(lib, h, section)
  {
    hide Derived;
    var keyLen := KeyLen(h.strength);
    var saltLen := keyLen / 2;
    if saltLen == 0 {
      return Err(ErrDecryption);
    }
    var src := new Source(section, empties, Eof);
    var saltpwvv := ReadFull(src, saltLen + 2);
    if saltpwvv.Err? {
      return Err(if saltpwvv.error == Eof then UnexpectedEof else saltpwvv.error);
    }
    var salt, pwvv := saltpwvv.value[..saltLen], saltpwvv.value[saltLen..saltLen + 2];
    assert salt == section[..saltLen] && pwvv == section[saltLen..saltLen + 2];
    if h.password == None {
      return Err(ErrPassword);
    }
    var password := h.password.value;
    if Pwv(lib, password, salt, keyLen) != pwvv {
      return Err(ErrPassword);
    }
    var overhead := saltLen + 2 + TAG_LEN;
    if h.csize < overhead || h.csize - overhead >= TWO63 {
      return Err(ErrFormat);
    }
    var dataOff := saltLen + 2;
    var dataLen := h.csize - overhead;
    r := Ok(Opened(EncKey(lib, password, salt, keyLen), AuthKey(lib, password, salt, keyLen),
                   Section(section, dataOff, dataLen), Section(section, dataOff + dataLen, TAG_LEN)));
  }

  /** A buffered authenticating reader under the cipher, read to its end. */
  method DrainBuffered(lib: Lib, o: Opened, empties: nat) returns (data: bytes, end: Error)
    ensures (data, end) == AesStream(lib, o, false)
  {
    hide CtrXor, AuthTag, KeyByte, Counter, Xor, Increment, LowBytes, BlockFn, EncKey;
    var e := BlockFn(lib, o.encKey);
    var cipher := new Source(o.cipher, empties, Eof);
    var tag := new Source(o.tag, empties, Eof);
    var ar := new BufferedAuthReader(lib, o, cipher, tag);
    var stream := new Stream(e);
    data := [];
    NothingXored(e);
    while true
      invariant ar.Valid() && ar.o == o && ar.lib == lib && fresh(ar) && ar.data == cipher && ar.adata == tag
      invariant stream.Valid() && stream.e == e && fresh(stream) && fresh(stream.ctr) && fresh(stream.out)
      invariant data == CtrXor(e, 0, ar.released) && stream.Position() == |ar.released|
      invariant ar.released <= o.cipher && (ar.released != [] ==> Authentic(lib, o))
      decreases |o.cipher| - |ar.released|
    {
      ghost var before := ar.released;
      var p, failed := ar.Read(4096);
      var q := stream.XorPiece(p);
      CtrAppend(e, 0, before, p);
      data := data + q;
      if failed.Some? {
        return data, failed.value;
      }
    }
  }

  method DrainStreaming(lib: Lib, o: Opened, empties: nat) returns (data: bytes, end: Error)
    ensures (data, end) == AesStream(lib, o, true)
  {
    hide CtrXor, AuthTag, KeyByte, Counter, Xor, Increment, LowBytes, BlockFn, EncKey;
    var e := BlockFn(lib, o.encKey);
    var cipher := new Source(o.cipher, empties, Eof);
    var tag := new Source(o.tag, empties, Eof);
    var ar := new StreamingAuthReader(lib, o, cipher, tag);
    var stream := new Stream(e);
    data := [];
    NothingXored(e);
    while true
      invariant ar.Valid() && ar.o == o && ar.lib == lib && fresh(ar) && ar.data == cipher && ar.adata == tag && fresh(ar.mac)
      invariant stream.Valid() && stream.e == e && fresh(stream) && fresh(stream.ctr) && fresh(stream.out)
      invariant data == CtrXor(e, 0, ar.released) && stream.Position() == |ar.released|
      decreases |ar.data.rest| + ar.data.empties
    {
      ghost var before := ar.released;
      var p, failed := ar.Read(4096);
      var q := stream.XorPiece(p);
      CtrAppend(e, 0, before, p);
      data := data + q;
      if failed.Some? {
        return data, failed.value;
      }
    }
  }

  lemma NothingXored(e: Block -> Block)
    ensures CtrXor(e, 0, []) == []
  {
  }

  // ---------------------------------------------------------------- opening

  /** The decompressor's output, and how it ends; `ErrSource` stands for a failure of its own. */
  function Inflate(lib: Lib, compMethod: uint16, s: bytes, end: Error): (bytes, Error) {
    var (data, ok) := Decompressed(lib, compMethod, s, end == Eof);
    (data, if ok then Eof else if end != Eof then end else ErrSource)
  }

  predicate HasDecompressor(lib: Lib, compMethod: uint16) {
    compMethod == STORE || compMethod == DEFLATE || lib.hasDecompressor(compMethod)
  }

  function Locked(f: File, password: bytes): File {
    f.(h := WithPassword(f.h, password))
  }

  /** `Reader.SetPassword`: every entry gets the password, encrypted or not. */
  method SetPassword(z: Reader, password: bytes) returns (r: Reader)
    ensures |r.files| == |z.files| && r.comment == z.comment
    ensures forall i :: 0 <= i < |z.files| ==> r.files[i] == Locked(z.files[i], password) && r.files[i].h.IsEncrypted()
  {
    var files: seq<File> := [];
    var i := 0;
    while i < |z.files|
      invariant 0 <= i == |files| <= |z.files|
      invariant forall k :: 0 <= k < i ==> files[k] == Locked(z.files[k], password) && files[k].h.IsEncrypted()
    {
      files := files + [Locked(z.files[i], password)];
      i := i + 1;
    }
    r := Reader(files, z.comment);
  }

  /** Everything a caller reads from an entry, and how that ends; AE-2 entries skip the checksum. */
  function OpenFile(lib: Lib, file: bytes, f: File): Result<(bytes, Error)> {
    var body :- BodyOffset(file, f.headerOffset);
    var size := Int64(f.h.csize);
    var (s, end) :- RawStream(lib, f.h, Section(file, f.headerOffset + body, size));
    if !HasDecompressor(lib, f.h.compMethod) then Err(ErrAlgorithm) else
    var (data, last) := Inflate(lib, f.h.compMethod, s, end);
    if f.h.ae == 2 || last != Eof then Ok((data, last)) else
    var desc := if f.h.HasDataDescriptor()
                then Some(SectionAt(file, f.headerOffset + body + size, DATA_DESCRIPTOR_LEN)) else None;
    Ok((data, Verdict(lib, f.h, desc, data)))
  }

  datatype EntryReader = Unsummed(rc: Source) | Summed(sum: ChecksumReader) {
    ghost function Objects(): set<object> {
      match this
      case Unsummed(rc) => {rc}
      case Summed(sum) => if sum.desr == null then {sum, sum.rc} else {sum, sum.rc, sum.desr}
    }
  }

  /** What reading to the end will deliver. */
  ghost predicate Delivers(r: EntryReader, data: bytes, end: Error)
    reads r.Objects()
  {
    match r
    case Unsummed(rc) => rc.rest == data && rc.last == end
    case Summed(sum) => sum.Valid() && sum.hashed == [] && sum.err == None && sum.input == data && sum.Final() == end
  }

  method Open(lib: Lib, file: bytes, f: File, empties: nat) returns (r: Result<EntryReader>)
    ensures match OpenFile(lib, file, f)
            case Err(e) => r == Err(e)
            case Ok((data, end)) => r.Ok? && Delivers(r.value, data, end) && forall o :: o in r.value.Objects() ==> fresh(o)
  {
    hide BodyOffset, RawStream, Verdict, HasDecompressor, Inflate, DescriptorCheck;
    var bodyOffset :- FindBodyOffset(file, f.headerOffset);
    var size := Int64(f.h.csize);
    var rr := Section(file, f.headerOffset + bodyOffset, size);
    var src :- OpenStream(lib, f.h, rr, empties);
    if !HasDecompressor(lib, f.h.compMethod) {
      return Err(ErrAlgorithm);
    }
    var (data, end) := Inflate(lib, f.h.compMethod, src.rest, src.last);
    var rc := new Source(data, empties, end);
    if f.h.ae == 2 {
      return Ok(Unsummed(rc));
    }
    var desr: Source? := null;
    if f.h.HasDataDescriptor() {
      var (stored, last) := SectionAt(file, f.headerOffset + bodyOffset + size, DATA_DESCRIPTOR_LEN);
      desr := new Source(stored, empties, last);
    }
    var sum := new ChecksumReader(lib, f.h, rc, desr);
    return Ok(Summed(sum));
  }

  /** `File.VerifyXXH3`: the content must open, end well and have the recorded hash; no hash, no check. */
  function Xxh3Verdict(lib: Lib, file: bytes, f: File): Option<Error> {
    if f.h.xxh3 == 0 then None else
    match OpenFile(lib, file, f)
    case Err(e) => Some(e)
    case Ok((data, end)) => if end != Eof then Some(end) else if lib.xxh3(data) != f.h.xxh3 then Some(ErrXxh3) else None
  }

  method VerifyXxh3(lib: Lib, file: bytes, f: File, empties: nat) returns (e: Option<Error>)
    ensures e == Xxh3Verdict(lib, file, f)
  {
    hide OpenFile;
    if f.h.xxh3 == 0 {
      return None;
    }
    var rc := Open(lib, file, f, empties);
    if rc.Err? {
      return Some(rc.error);
    }
    var data, end := ReadEntry(rc.value);
    if end != Eof {
      return Some(end);
    }
    e := if lib.xxh3(data) != f.h.xxh3 then Some(ErrXxh3) else None;
  }

  /** `io.Copy` from an entry: all it delivers, and how it ends. */
  method ReadEntry(r: EntryReader) returns (data: bytes, end: Error)
    requires r.Summed? ==> r.sum.Valid() && r.sum.hashed == [] && r.sum.err == None
    modifies r.Objects()
    ensures match r
            case Unsummed(rc) => data == old(rc.rest) && end == rc.last
            case Summed(sum) => data == sum.input && end == sum.Final()
  {
    hide Verdict;
    match r
    case Unsummed(rc) =>
      data, end := ReadAll(rc);
    case Summed(sum) =>
      data := [];
      while true
        invariant sum.Valid() && data == sum.hashed
        decreases |sum.rc.rest| + sum.rc.empties
      {
        var p, e := sum.Read(512);
        data := data + p;
        if e.Some? {
          return data, e.value;
        }
      }
  }
}
