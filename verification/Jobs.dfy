/** What one entry comes to: the header the writer prepares, the payload it
    produces for a list of writes, and the finished part. */
module Jobs {
  import opened Bytes
  import opened Header
  import opened ExtraFields
  import opened Archive
  import opened LocalPart
  import opened Ctr
  import opened Aes
  import ZipCrypto

  // ---------------------------------------------------------------- creation

  /** Flags and versions as `newFileWriter` sets them. */
  function Prepared(fh: FileHeader): FileHeader {
    fh.(flags := SetBit3(fh.flags), creatorVersion := KeepHighByte(fh.creatorVersion) + ZIP_VERSION20,
        readerVersion := ZIP_VERSION20)
  }

  /** The header as it is when the local header is written. */
  function Created(fh: FileHeader): FileHeader {
    if fh.WritesAes() then
      Prepared(fh).(extra := fh.extra + AesRecord(fh.strength, fh.compMethod), compMethod := WINZIP_AES_METHOD)
    else Prepared(fh)
  }

  predicate HasCompressor(lib: Lib, compMethod: uint16) {
    compMethod == STORE || compMethod == DEFLATE || lib.hasCompressor(compMethod)
  }

  /** Why an entry cannot be created, in the order in which the writer finds out. */
  function CreateError(lib: Lib, fh: FileHeader, raw: bool): Option<Error> {
    if !raw && !HasCompressor(lib, fh.compMethod) then Some(ErrAlgorithm)
    else if fh.WritesAes() && KeyLen(fh.strength) == 0 then Some(ErrKeySize)
    else if !raw && fh.compMethod == DEFLATE && !lib.levelOk(fh.level) then Some(ErrLevel)
    else match LocalHeader(Created(fh)) case Ok(_) => None case Err(e) => Some(e)
  }

  /** An entry can be created if and only if there is a compressor for its
      method and level, its AES strength is known, and name and extra fit. */
  lemma CreatedExactlyWhen(lib: Lib, fh: FileHeader, raw: bool)
    ensures var known := raw || fh.compMethod == STORE || fh.compMethod == DEFLATE || lib.hasCompressor(fh.compMethod);
            var keyed := fh.WritesAes() ==> 1 <= fh.strength <= 3;
            var leveled := !raw && fh.compMethod == DEFLATE ==> lib.levelOk(fh.level);
            var extra := |fh.extra| + if fh.WritesAes() then 11 else 0;
            && (CreateError(lib, fh, raw) == None <==>
                  known && keyed && leveled && |fh.name| <= 0xFFFF && extra <= 0xFFFF)
            && (!known ==> CreateError(lib, fh, raw) == Some(ErrAlgorithm))
            && (known && !keyed ==> CreateError(lib, fh, raw) == Some(ErrKeySize))
            && (known && keyed && !leveled ==> CreateError(lib, fh, raw) == Some(ErrLevel))
            && (known && keyed && leveled && |fh.name| > 0xFFFF ==> CreateError(lib, fh, raw) == Some(ErrLongName))
            && (known && keyed && leveled && |fh.name| <= 0xFFFF && extra > 0xFFFF ==>
                  CreateError(lib, fh, raw) == Some(ErrLongExtra))
  {
    hide PrintLocal, AesRecord;
  }

  // ---------------------------------------------------------------- payload

  /** What the encryption layer makes of the stream `s`; `h` is the created header. */
  function Enciphered(lib: Lib, h: FileHeader, rnd: nat -> byte, s: bytes): bytes {
    if h.password == None then s
    else if h.encryption == StandardEncryption then
      ZipCrypto.ZipPayload(h.password.value, ZipCrypto.EncHeader(rnd, h), s)
    else
      var salt := Salt(h, rnd);
      salt + Pwv(lib, h.password.value, salt, KeyLen(h.strength)) + CtrXor(EncFn(lib, h, rnd), 0, s)
  }

  function Salt(h: FileHeader, rnd: nat -> byte): bytes {
    ZipCrypto.Draw(rnd, KeyLen(h.strength) / 2)
  }

  function EncFn(lib: Lib, h: FileHeader, rnd: nat -> byte): Block -> Block
    requires h.password.Some?
  {
    BlockFn(lib, EncKey(lib, h.password.value, Salt(h, rnd), KeyLen(h.strength)))
  }

  /** The authentication code that closes an AES payload. */
  function EntryTag(lib: Lib, h: FileHeader, rnd: nat -> byte, s: bytes): bytes {
    if !h.WritesAes() then [] else
      AuthTag(lib, AuthKey(lib, h.password.value, Salt(h, rnd), KeyLen(h.strength)), CtrXor(EncFn(lib, h, rnd), 0, s))
  }

  function PayloadOf(lib: Lib, h: FileHeader, rnd: nat -> byte, s: bytes): bytes {
    Enciphered(lib, h, rnd, s) + EntryTag(lib, h, rnd, s)
  }

  /** The encryption methods frame the stream as their readers expect. */
  lemma PayloadForms(lib: Lib, h: FileHeader, rnd: nat -> byte, s: bytes)
    ensures h.password == None ==> PayloadOf(lib, h, rnd, s) == s
    ensures h.password.Some? && h.encryption == StandardEncryption ==>
              PayloadOf(lib, h, rnd, s) == ZipCrypto.ZipPayload(h.password.value, ZipCrypto.EncHeader(rnd, h), s)
    ensures h.WritesAes() ==>
              PayloadOf(lib, h, rnd, s) == AesPayload(lib, h.password.value, Salt(h, rnd), KeyLen(h.strength), s)
  {
    hide ZipCrypto.ZipPayload, ZipCrypto.EncHeader, CtrXor, AuthTag, Derived;
    Whole(Enciphered(lib, h, rnd, s));
  }

  // ---------------------------------------------------------------- an entry from start to finish

  /** Everything that determines an entry: the caller's header, the mode, the
      writes, the random draws, and, for a raw entry, checksum and size as the
      header has them when the entry is closed. */
  datatype Job = Job(fh: FileHeader, raw: bool, writes: seq<bytes>, rnd: nat -> byte, crc: uint32, usize: uint64)

  /** The stream below the encryption layer: the writes themselves, or what the compressor emits for them. */
  function StreamOf(lib: Lib, job: Job): bytes {
    if job.raw then Flatten(job.writes)
    else Compressed(lib, job.fh.compMethod, job.fh.level, job.writes)
           + CompEnd(lib, job.fh.compMethod, job.fh.level, job.writes)
  }

  function JobPayload(lib: Lib, job: Job): bytes {
    PayloadOf(lib, Created(job.fh), job.rnd, StreamOf(lib, job))
  }

  /** The header that `fileWriter.Close` leaves; AES entries store no checksum. */
  function Finished(h: FileHeader, crc: uint32, xxh3: uint64, csize: uint64, usize: uint64): FileHeader {
    var h1 := h.(crc := if h.WritesAes() then 0 else crc, xxh3 := xxh3, csize := csize, usize := usize);
    if h1.IsZip64() then h1.(csize32 := UINT32_MAX, usize32 := UINT32_MAX, readerVersion := ZIP_VERSION45)
    else h1.(csize32 := csize, usize32 := usize)
  }

  function FinalHeaderOf(lib: Lib, job: Job): FileHeader {
    var csize, content := U64Of(|JobPayload(lib, job)|), Flatten(job.writes);
    if job.raw then Finished(Created(job.fh), job.crc, job.fh.xxh3, csize, job.usize)
    else Finished(Created(job.fh), lib.crc32(content), lib.xxh3(content), csize, U64Of(|content|))
  }

  function ItemOf(lib: Lib, job: Job): Item
    requires LocalHeader(Created(job.fh)).Ok?
  {
    var h := FinalHeaderOf(lib, job);
    Item(h, LocalHeader(Created(job.fh)).value + JobPayload(lib, job) + Descriptor(h))
  }

  // ---------------------------------------------------------------- a finished entry is a closed part

  /** What the writer needs of a caller's extra: whole records, none of its own kinds. */
  ghost predicate CallerExtra(extra: bytes) {
    && Exact(extra)
    && !HasTag(extra, ZIP64_EXTRA_ID) && !HasTag(extra, XXH3_EXTRA_ID) && !HasTag(extra, WINZIP_AES_EXTRA_ID)
  }

  lemma CreatedExtra(fh: FileHeader)
    requires CallerExtra(fh.extra)
    ensures var e := Created(fh).extra;
            && Exact(e) && !HasTag(e, ZIP64_EXTRA_ID) && !HasTag(e, XXH3_EXTRA_ID)
            && MethodStable(Created(fh))
            && AesInfo(e, Created(fh).compMethod, 0, 0) ==
                 (fh.compMethod, if fh.WritesAes() then 2 else 0, if fh.WritesAes() then fh.strength else 0)
  {
    var m := Created(fh).compMethod;
    AesInfoAbsent(fh.extra, m, 0, 0);
    if fh.WritesAes() {
      var r := AesRecord(fh.strength, fh.compMethod);
      AesRecordTags(fh.strength, fh.compMethod);
      ExactAppend(fh.extra, r);
      AesInfoAppend(fh.extra, r, m, 0, 0);
      AesRecordInfo(fh.strength, fh.compMethod, m, 0, 0);
    }
  }

  lemma AesRecordTags(strength: byte, compMethod: uint16)
    ensures var r := AesRecord(strength, compMethod);
            Exact(r) && !HasTag(r, ZIP64_EXTRA_ID) && !HasTag(r, XXH3_EXTRA_ID)
  {
    RecordExact(WINZIP_AES_EXTRA_ID, Put16(2, Put16(0x4541, [strength] + P16(compMethod))));
  }

  /** Finishing changes nothing that the local header or the extra walk reads. */
  lemma FinishedKeeps(h: FileHeader, crc: uint32, xxh3: uint64, csize: uint64, usize: uint64)
    requires h.readerVersion == ZIP_VERSION20
    ensures var f := Finished(h, crc, xxh3, csize, usize);
            && LocalHeader(f.(readerVersion := ZIP_VERSION20)) == LocalHeader(h)
            && f.csize == csize && f.usize == usize && f.extra == h.extra && f.name == h.name
            && f.flags == h.flags && f.compMethod == h.compMethod && f.xxh3 == xxh3
            && f.password == h.password && f.encryption == h.encryption
            && (!f.IsZip64() ==> f.csize32 == f.csize && f.usize32 == f.usize)
            && (f.IsZip64() ==> f.csize32 == UINT32_MAX && f.usize32 == UINT32_MAX)
            && f.crc == if h.WritesAes() then 0 else crc
  {
    hide PrintLocal;
  }

  /** What the final header of a job takes from its created header, and what it adds. */
  lemma FinalKeeps(lib: Lib, job: Job)
    ensures var (c, f) := (Created(job.fh), FinalHeaderOf(lib, job));
            && LocalHeader(f.(readerVersion := ZIP_VERSION20)) == LocalHeader(c)
            && f.extra == c.extra && f.name == c.name && f.flags == c.flags && f.compMethod == c.compMethod
            && f.password == c.password && f.encryption == c.encryption && f.WritesAes() == job.fh.WritesAes()
            && f.csize == U64Of(|JobPayload(lib, job)|)
            && f.usize == (if job.raw then job.usize else U64Of(|Flatten(job.writes)|))
            && f.crc == (if job.fh.WritesAes() then 0 else if job.raw then job.crc else lib.crc32(Flatten(job.writes)))
            && f.xxh3 == (if job.raw then job.fh.xxh3 else lib.xxh3(Flatten(job.writes)))
            && (!f.IsZip64() ==> f.csize32 == f.csize && f.usize32 == f.usize)
            && (f.IsZip64() ==> f.csize32 == UINT32_MAX && f.usize32 == UINT32_MAX)
  {
    hide LocalHeader, JobPayload, AesRecord, U64Of, Flatten, Finished;
    var c, csize, content := Created(job.fh), U64Of(|JobPayload(lib, job)|), Flatten(job.writes);
    if job.raw {
      FinishedKeeps(c, job.crc, job.fh.xxh3, csize, job.usize);
    } else {
      FinishedKeeps(c, lib.crc32(content), lib.xxh3(content), csize, U64Of(|content|));
    }
  }

  /** Every finished entry is a closed part: its header agrees with its bytes. */
  lemma JobIsClosed(lib: Lib, job: Job)
    requires CallerExtra(job.fh.extra) && LocalHeader(Created(job.fh)).Ok?
    requires |JobPayload(lib, job)| < TWO63
    ensures Closed(ItemOf(lib, job), JobPayload(lib, job))
  {
    hide JobPayload, Exact, Padded, HasTag, AesInfo, Descriptor, LocalHeader, AesRecord, Created, FinalHeaderOf;
    CreatedExtra(job.fh);
    ExactIsPadded(Created(job.fh).extra);
    FinalKeeps(lib, job);
    LocalHeaderFits(Created(job.fh));
    assert Created(job.fh).flags % 16 >= 8 by { CreatedFlags(job.fh); }
  }

  lemma LocalHeaderFits(h: FileHeader)
    requires LocalHeader(h).Ok?
    ensures |h.name| <= UINT16_MAX && |h.extra| <= UINT16_MAX
  {
  }

  lemma CreatedFlags(fh: FileHeader)
    ensures Created(fh).flags == SetBit3(fh.flags)
  {
  }
}
