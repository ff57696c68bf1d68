/** Copying a part under a new password preserves what it holds. */
module Rekeying {
  import opened Bytes
  import opened Header
  import opened ExtraFields
  import opened Archive
  import opened LocalPart
  import opened Jobs
  import opened Stripper
  import opened Opening
  import opened Contents
  import opened RawCopy
  import ZipCrypto

  // ---------------------------------------------------------------- any source

  /** The payload of a copy passes its check byte and deciphers under the new
      password, or stands in the clear, to the bytes that the old password
      gave; checksum and content size are the source's, and the compressed
      size is that of the new payload. */
  lemma Rekeyed(lib: Lib, job: Job, input: bytes, last: Error, oldPassword: bytes, newPassword: bytes,
                change: Overridable -> Overridable)
    requires IsCopy(job, input, last, oldPassword, newPassword, change, job.rnd)
    ensures var (fh, rest) := LocalFile(input, last).value;
            var (data, sums) := (SourceData(fh, rest, oldPassword).value, SourceSums(fh, rest).value);
            var (final, payload) := (FinalHeaderOf(lib, job), JobPayload(lib, job));
            && (if newPassword != [] && fh.IsEncrypted() then
                  && final.IsEncrypted()
                  && ZipCrypto.ZipOpen(newPassword, ZipCrypto.CheckBytes(final.flags, final.modTime, final.crc).1, true, payload)
                       == Ok(data)
                else !final.IsEncrypted() && payload == data)
            && (final.crc, final.usize) == sums && final.csize == U64Of(|payload|) && final.compMethod == fh.compMethod
  {
    hide LocalFile, SourceData, SourceSums, Enciphered, EntryTag, PayloadOf, ZipCrypto.ZipOpen, ZipCrypto.ZipPayload;
    hide ZipCrypto.EncHeader;
    hide ZipCrypto.CheckBytes, CopiedHeader, AesInfo, AesRecord, JobPayload;
    var (fh, rest) := LocalFile(input, last).value;
    var c, final := Created(job.fh), FinalHeaderOf(lib, job);
    CopiedKeeps(fh, newPassword, change);
    FinishedKeeps(c, job.crc, job.fh.xxh3, U64Of(|JobPayload(lib, job)|), job.usize);
    assert JobPayload(lib, job) == PayloadOf(lib, c, job.rnd, Flatten(job.writes)) by { PayloadOfRaw(lib, job); }
    PayloadForms(lib, c, job.rnd, Flatten(job.writes));
    if newPassword != [] && fh.IsEncrypted() {
      ZipCrypto.OpenWritten(newPassword, job.rnd, c, final, Flatten(job.writes));
    }
  }

  lemma PayloadOfRaw(lib: Lib, job: Job)
    requires job.raw
    ensures JobPayload(lib, job) == PayloadOf(lib, Created(job.fh), job.rnd, Flatten(job.writes))
  {
  }

  // ---------------------------------------------------------------- a source that the writer made

  /** The header that a written part shows to `ReadLocalFileHeader`. */
  lemma WrittenHeader(lib: Lib, job: Job)
    requires LocalHeader(Created(job.fh)).Ok?
    ensures var (c, final) := (Created(job.fh), FinalHeaderOf(lib, job));
            LocalFile(ItemOf(lib, job).part, Eof) ==
              Ok((HeaderFrom(LocalOf(c), c.name, c.extra), JobPayload(lib, job) + Descriptor(final)))
  {
    hide JobPayload, Descriptor, PrintLocal, ParseLocal, HeaderFrom, FinalHeaderOf, Created;
    var c, d := Created(job.fh), Descriptor(FinalHeaderOf(lib, job));
    var lh, body := PrintLocal(LocalOf(c)), JobPayload(lib, job) + d;
    LocalRoundTrip(LocalOf(c));
    Assoc(lh, c.name + c.extra, JobPayload(lib, job) + d);
    Assoc(lh + (c.name + c.extra), JobPayload(lib, job), d);
    Assoc(c.name, c.extra, body);
    Cut(lh, c.name + (c.extra + body));
    Cut(c.name, c.extra + body);
    Cut(c.extra, body);
  }

  /** Sizes that are not escaped stay what they are. */
  lemma {:induction false} NoEscape(extra: bytes)
    ensures LocalSizes(0, 0, extra) == (0, 0)
    decreases |extra|
  {
    if HasRecord(extra) {
      NoEscape(extra[RecordLen(extra)..]);
    }
  }

  /** Stripping and deciphering a written part gives the stream below its
      encryption; its sums are those of the directory. */
  lemma WrittenSource(lib: Lib, job: Job, password: bytes)
    requires CreateError(lib, job.fh, job.raw) == None && !job.fh.WritesAes()
    requires job.fh.password == if job.fh.IsEncrypted() then Some(password) else None
    requires job.fh.IsEncrypted() ==> password != [] && job.fh.compMethod != WINZIP_AES_METHOD
    requires |JobPayload(lib, job)| < TWO64
    requires !Misread(FinalHeaderOf(lib, job), JobPayload(lib, job))
    ensures LocalFile(ItemOf(lib, job).part, Eof).Ok?
    ensures var (fh, rest) := LocalFile(ItemOf(lib, job).part, Eof).value;
            var final := FinalHeaderOf(lib, job);
            && SourceData(fh, rest, password) == Ok(StreamOf(lib, job))
            && SourceSums(fh, rest) == Ok((final.crc, final.usize))
            && fh.compMethod == job.fh.compMethod && fh.flags == SetBit3(job.fh.flags)
  {
    hide Descriptor, PrintLocal, LocalFile, Strip, Misread, Enciphered, EntryTag, PayloadOf, StreamOf, JobPayload;
    hide LocalSizes;
    hide ZipCrypto.ZipOpen, ZipCrypto.ZipPayload, ZipCrypto.EncHeader, ZipCrypto.CheckBytes;
    var c, s, final := Created(job.fh), StreamOf(lib, job), FinalHeaderOf(lib, job);
    var fh := HeaderFrom(LocalOf(c), c.name, c.extra);
    WrittenHeader(lib, job);
    NoEscape(c.extra);
    FinalSizes(lib, job);
    StripWritten(final, JobPayload(lib, job));
    assert JobPayload(lib, job) == PayloadOf(lib, c, job.rnd, s) by { PayloadOfAny(lib, job); }
    PayloadForms(lib, c, job.rnd, s);
    if job.fh.IsEncrypted() {
      ZipCrypto.OpenWritten(password, job.rnd, c, fh, s);
    }
  }

  lemma PayloadOfAny(lib: Lib, job: Job)
    ensures JobPayload(lib, job) == PayloadOf(lib, Created(job.fh), job.rnd, StreamOf(lib, job))
  {
  }

  lemma FinalSizes(lib: Lib, job: Job)
    requires |JobPayload(lib, job)| < TWO64
    ensures SizesAgree(FinalHeaderOf(lib, job), JobPayload(lib, job))
  {
    hide JobPayload;
  }

  lemma FinalSums(lib: Lib, job: Job)
    requires !job.fh.WritesAes() && (job.raw || |Flatten(job.writes)| < TWO64)
    ensures var h := FinalHeaderOf(lib, job);
            (h.crc, h.usize) == if job.raw then (job.crc, job.usize)
                                else (lib.crc32(Flatten(job.writes)), |Flatten(job.writes)|)
  {
    hide JobPayload;
  }

  /** From end to end: what an entry holds, its copy under any new password
      holds as well, so that reading the copy's archive gives the same content. */
  lemma CopyHolds(lib: Lib, job: Job, content: bytes, password: bytes, newPassword: bytes,
                  change: Overridable -> Overridable, copy: Job)
    requires Holds(lib, job, content) && !job.fh.WritesAes()
    requires job.fh.password == if job.fh.IsEncrypted() then Some(password) else None
    requires job.fh.IsEncrypted() ==> password != [] && job.fh.compMethod != WINZIP_AES_METHOD
    requires |JobPayload(lib, job)| < TWO64
    requires !Misread(FinalHeaderOf(lib, job), JobPayload(lib, job))
    requires LocalHeader(Created(job.fh)).Ok?
    requires IsCopy(copy, ItemOf(lib, job).part, Eof, password, newPassword, change, copy.rnd)
    requires CreateError(lib, copy.fh, true) == None
    ensures Holds(lib, copy, content)
  {
    hide Inflate, Descriptor, LocalFile, SourceData, SourceSums, Misread, CreateError, JobPayload, StreamOf;
    hide CopiedHeader, HasDecompressor, ItemOf, Created, LocalHeader, FinalHeaderOf;
    FinalSums(lib, job);
    WrittenSource(lib, job, password);
    var (fh, rest) := LocalFile(ItemOf(lib, job).part, Eof).value;
    CopiedKeeps(fh, newPassword, change);
    RawStreamIs(lib, copy);
  }

  lemma RawStreamIs(lib: Lib, job: Job)
    requires job.raw
    ensures StreamOf(lib, job) == Flatten(job.writes)
  {
  }
}
