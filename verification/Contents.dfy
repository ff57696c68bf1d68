/** Opening what the writer wrote gives back what was written. */
module Contents {
  import opened Bytes
  import opened Header
  import opened ExtraFields
  import opened Streams
  import opened Directory
  import opened EndRecord
  import opened Archive
  import opened LocalPart
  import opened Ctr
  import opened Aes
  import opened Jobs
  import opened Writing
  import opened Assembly
  import opened Opening
  import FilterTheorems
  import Filter
  import ZipCrypto

  /** The settings with which an entry of a job is opened: its password, if it has one. */
  function Unlocked(f: File, password: Option<bytes>, deferAuth: bool): File {
    var h := if password.Some? then WithPassword(f.h, password.value) else f.h;
    f.(h := h.(deferAuth := deferAuth))
  }

  /** A job whose content can be read back: it could be created, its encryption
      flag and its password agree, and decompressing inverts compressing. */
  ghost predicate Readable(lib: Lib, job: Job) {
    && !job.raw && CreateError(lib, job.fh, false) == None
    && (job.fh.IsEncrypted() <==> job.fh.password.Some?)
    && HasDecompressor(lib, job.fh.compMethod) && Inverts(lib, job.fh.compMethod, job.fh.level)
  }

  /** The same of any job, raw ones too, for a given content. */
  ghost predicate Holds(lib: Lib, job: Job, content: bytes) {
    && CreateError(lib, job.fh, job.raw) == None
    && (job.fh.IsEncrypted() <==> job.fh.password.Some?)
    && HasDecompressor(lib, job.fh.compMethod)
    && Inflate(lib, job.fh.compMethod, StreamOf(lib, job), Eof) == (content, Eof)
    && |content| < TWO64
    && (if job.raw then job.crc == lib.crc32(content) && job.usize == |content| else content == Flatten(job.writes))
  }

  lemma ReadableHolds(lib: Lib, job: Job)
    requires Readable(lib, job) && |Flatten(job.writes)| < TWO64
    ensures Holds(lib, job, Flatten(job.writes))
  {
    hide Compressed, CompEnd, Decompressed, CreateError, HasDecompressor;
    var m, level := job.fh.compMethod, job.fh.level;
    assert Compressed(lib, m, level, job.writes) == Compressed(lib, m, level, job.writes);
  }

  // ---------------------------------------------------------------- finding the payload

  /** Header, payload and descriptor of a part, read back from anywhere in a file. */
  lemma PartFound(file: bytes, off: nat, x: Local, ne: bytes, payload: bytes, d: bytes)
    requires off <= |file| && PrintLocal(x) + ne + payload + d <= file[off..]
    requires x.nameLen + x.extraLen == |ne|
    ensures BodyOffset(file, off) == Ok(FILE_HEADER_LEN + |ne|)
    ensures var at := off + FILE_HEADER_LEN + |ne|;
            && Section(file, at, |payload|) == payload
            && (|d| >= DATA_DESCRIPTOR_LEN ==>
                  SectionAt(file, at + |payload|, DATA_DESCRIPTOR_LEN) == (d[..DATA_DESCRIPTOR_LEN], Eof))
  {
    hide PrintLocal, Filter.LocalLens;
    FilterTheorems.LocalLensPrinted(x);
    var lh, at := PrintLocal(x), off + FILE_HEADER_LEN + |ne|;
    var s := lh + ne + payload + d;
    Slices(file, off, s, 0, FILE_HEADER_LEN);
    Slices(file, off, s, FILE_HEADER_LEN + |ne|, |payload|);
    FourPieces(lh, ne, payload, d);
    if |d| >= DATA_DESCRIPTOR_LEN {
      Slices(file, off, s, FILE_HEADER_LEN + |ne| + |payload|, DATA_DESCRIPTOR_LEN);
    }
  }

  lemma Slices(file: bytes, off: nat, s: bytes, at: nat, n: nat)
    requires off <= |file| && s <= file[off..] && at + n <= |s|
    ensures off + at + n <= |file| && file[off + at..off + at + n] == s[at..at + n]
  {
    assert file[off..][at..at + n] == s[at..at + n];
  }

  lemma FourPieces(a: bytes, b: bytes, c: bytes, d: bytes)
    ensures var s := a + b + c + d; var at := |a| + |b| + |c|;
            && s[..|a|] == a && s[0..|a|] == a && s[|a| + |b|..at] == c
            && forall n :: 0 <= n <= |d| ==> s[at..at + n] == d[..n]
  {
  }

  // ---------------------------------------------------------------- undoing the layers

  /** Decryption with the job's password gives the stream that was encrypted. */
  lemma StreamRecovered(lib: Lib, job: Job, h: FileHeader)
    requires CreateError(lib, job.fh, job.raw) == None
    requires job.fh.IsEncrypted() <==> job.fh.password.Some?
    requires h.password == job.fh.password && h.csize == |JobPayload(lib, job)| < TWO63
    requires h.flags == SetBit3(job.fh.flags) && h.modTime == job.fh.modTime
    requires job.fh.WritesAes() ==> h.ae == 2 && h.strength == job.fh.strength
    requires !job.fh.WritesAes() ==> h.ae == 0
    ensures RawStream(lib, h, JobPayload(lib, job)) == Ok((StreamOf(lib, job), Eof))
  {
    hide StreamOf, Enciphered, EntryTag, OpenAes, AesStream, ZipCrypto.ZipOpen, ZipCrypto.ZipPayload;
    hide ZipCrypto.EncHeader;
    hide ZipCrypto.CheckBytes, AesPayload, PayloadOf, CtrXor, LocalHeader, Authentic;
    var c, s := Created(job.fh), StreamOf(lib, job);
    PayloadForms(lib, c, job.rnd, s);
    if job.fh.WritesAes() {
      AesRoundTrip(lib, h.password.value, Salt(c, job.rnd), h, s);
    } else if job.fh.password.Some? {
      ZipCrypto.OpenWritten(h.password.value, job.rnd, c, h, s);
    }
  }

  lemma DescriptorAccepted(h: FileHeader)
    requires !h.WritesAes()
    ensures |Descriptor(h)| >= DATA_DESCRIPTOR_LEN
    ensures DescriptorCheck(Descriptor(h)[..DATA_DESCRIPTOR_LEN], Eof, h.crc) == None
  {
    hide P64;
    var d := Descriptor(h);
    var s := d[..DATA_DESCRIPTOR_LEN];
    assert Get32(d) == (DATA_DESCRIPTOR_SIGNATURE, DescriptorBody(h));
    assert Get32(d[4..]).0 == h.crc;
    assert s[..4] == d[..4] && s[4..][..4] == d[4..][..4];
    FirstFour(s);
    FirstFour(s[4..]);
  }

  // ---------------------------------------------------------------- the round trip

  /** Wherever the part of a job stands in a file, opening it with a header that
      describes it delivers the content and then the end of the file. */
  lemma ContentOf(lib: Lib, file: bytes, f: File, job: Job, content: bytes, off: nat, deferAuth: bool)
    requires Holds(lib, job, content) && CallerExtra(job.fh.extra) && LocalHeader(Created(job.fh)).Ok?
    requires |JobPayload(lib, job)| < TWO63
    requires Describes(f, lib, job, off)
    requires off <= |file| && ItemOf(lib, job).part <= file[off..]
    ensures OpenFile(lib, file, Unlocked(f, job.fh.password, deferAuth)) == Ok((content, Eof))
  {
    hide JobPayload, StreamOf, CreateError, RawStream, Inflate, DescriptorCheck, Descriptor, PrintLocal, Section;
    hide SectionAt;
    hide BodyOffset, CallerExtra, HasDecompressor, Verdict, FinalHeaderOf, Created, Describes, Unlocked, LocalHeader;
    var c, h := Created(job.fh), FinalHeaderOf(lib, job);
    var g := Unlocked(f, job.fh.password, deferAuth);
    Settings(lib, f, job, off, deferAuth);
    PartIs(lib, job);
    PartFound(file, off, LocalOf(c), c.name + c.extra, JobPayload(lib, job), Descriptor(h));
    StreamRecovered(lib, job, g.h);
    if !job.fh.WritesAes() {
      Approved(lib, job, content, g.h);
    }
  }

  lemma PartIs(lib: Lib, job: Job)
    requires LocalHeader(Created(job.fh)).Ok?
    ensures var c := Created(job.fh);
            && |c.name| <= UINT16_MAX && |c.extra| <= UINT16_MAX
            && ItemOf(lib, job).part
                 == PrintLocal(LocalOf(c)) + (c.name + c.extra) + JobPayload(lib, job) + Descriptor(FinalHeaderOf(lib, job))
  {
    hide JobPayload, Created, FinalHeaderOf, PrintLocal, Descriptor;
  }

  /** The settings of an opened entry, as far as they matter. */
  lemma Settings(lib: Lib, f: File, job: Job, off: nat, deferAuth: bool)
    requires Describes(f, lib, job, off) && (job.fh.IsEncrypted() <==> job.fh.password.Some?)
    ensures var g := Unlocked(f, job.fh.password, deferAuth);
            && g.headerOffset == off && g.h.password == job.fh.password && g.h.compMethod == job.fh.compMethod
            && g.h.csize == |JobPayload(lib, job)| && g.h.flags == SetBit3(job.fh.flags) && g.h.modTime == job.fh.modTime
            && g.h.ae == (if job.fh.WritesAes() then 2 else 0)
            && (job.fh.WritesAes() ==> g.h.strength == job.fh.strength)
            && (!job.fh.WritesAes() ==> g.h.crc == if job.raw then job.crc else lib.crc32(Flatten(job.writes)))
            && g.h.usize == if job.raw then job.usize else |Flatten(job.writes)|
  {
    hide JobPayload, AesRecord, Xxh3Record, Zip64Record;
  }

  /** Size, descriptor and checksum all agree. */
  lemma Approved(lib: Lib, job: Job, content: bytes, h: FileHeader)
    requires !job.fh.WritesAes() && |content| < TWO64
    requires if job.raw then job.crc == lib.crc32(content) && job.usize == |content| else content == Flatten(job.writes)
    requires h.crc == if job.raw then job.crc else lib.crc32(Flatten(job.writes))
    requires h.usize == if job.raw then job.usize else |Flatten(job.writes)|
    ensures var d := Descriptor(FinalHeaderOf(lib, job));
            && |d| >= DATA_DESCRIPTOR_LEN
            && Verdict(lib, h, Some((d[..DATA_DESCRIPTOR_LEN], Eof)), content) == Eof
  {
    hide DescriptorCheck, Descriptor, FinalHeaderOf, Flatten, FileHeader.WritesAes;
    FinalSum(lib, job);
    DescriptorAccepted(FinalHeaderOf(lib, job));
    Agreed(lib, h, Descriptor(FinalHeaderOf(lib, job))[..DATA_DESCRIPTOR_LEN], content);
  }

  lemma FinalSum(lib: Lib, job: Job)
    requires !job.fh.WritesAes()
    ensures var f := FinalHeaderOf(lib, job);
            !f.WritesAes() && f.crc == if job.raw then job.crc else lib.crc32(Flatten(job.writes))
  {
    hide FinalHeaderOf, Created;
    FinalKeeps(lib, job);
  }

  lemma Agreed(lib: Lib, h: FileHeader, d: bytes, content: bytes)
    requires |d| <= DATA_DESCRIPTOR_LEN && DescriptorCheck(d, Eof, h.crc) == None
    requires |content| < TWO64 && h.usize == |content| && h.crc == lib.crc32(content)
    ensures Verdict(lib, h, Some((d, Eof)), content) == Eof
  {
    hide DescriptorCheck;
  }

  /** Every entry of a run that holds some content, found through the directory
      and opened with its password, delivers exactly that content. */
  lemma RunContents(lib: Lib, prefix: bytes, jobs: seq<Job>, i: nat, content: bytes, deferAuth: bool)
    requires Sound(lib, jobs) && Legible(prefix, ItemsOf(lib, jobs))
    requires i < |jobs| && Holds(lib, jobs[i], content)
    ensures var file := prefix + ArchiveBytes(|prefix|, ItemsOf(lib, jobs)).value;
            && Init(file).Ok? && i < |Init(file).value.files|
            && OpenFile(lib, file, Unlocked(Init(file).value.files[i], jobs[i].fh.password, deferAuth)) == Ok((content, Eof))
  {
    hide Created, JobPayload, ItemOf, Parts, CallerExtra, Describes, Holds, OpenFile, Unlocked, Init, Tail, Decoy;
    hide Zip64Archive, BeforeEnd;
    var items := ItemsOf(lib, jobs);
    var tail := Tail(|prefix|, items).value;
    RunRoundTrip(lib, prefix, jobs);
    assert Startable(jobs[i]);
    Assoc(prefix, Parts(items), tail);
    Tiling(prefix, items, tail, i);
    SplitParts(items, i);
    PayloadInside(lib, jobs[i]);
    ContentOf(lib, prefix + Parts(items) + tail, Init(prefix + ArchiveBytes(|prefix|, items).value).value.files[i], jobs[i],
              content, Offset(|prefix|, items, i), deferAuth);
  }

  /** In particular, what was written to a compressed entry is what is read from it. */
  lemma WrittenIsRead(lib: Lib, prefix: bytes, jobs: seq<Job>, i: nat, deferAuth: bool)
    requires Sound(lib, jobs) && Legible(prefix, ItemsOf(lib, jobs))
    requires i < |jobs| && Readable(lib, jobs[i])
    ensures var file := prefix + ArchiveBytes(|prefix|, ItemsOf(lib, jobs)).value;
            && Init(file).Ok? && i < |Init(file).value.files|
            && OpenFile(lib, file, Unlocked(Init(file).value.files[i], jobs[i].fh.password, deferAuth))
                 == Ok((Flatten(jobs[i].writes), Eof))
  {
    hide Readable, Holds, Created, JobPayload, ItemOf, Parts, CallerExtra, OpenFile, Unlocked, Init, Decoy;
    hide Zip64Archive, BeforeEnd, ArchiveBytes;
    ReadableHolds(lib, jobs[i]);
    RunContents(lib, prefix, jobs, i, Flatten(jobs[i].writes), deferAuth);
  }

  /** An entry that was written through the compressor passes the XXH3 check. */
  lemma WrittenVerifies(lib: Lib, prefix: bytes, jobs: seq<Job>, i: nat, deferAuth: bool)
    requires Sound(lib, jobs) && Legible(prefix, ItemsOf(lib, jobs))
    requires i < |jobs| && Readable(lib, jobs[i])
    ensures var file := prefix + ArchiveBytes(|prefix|, ItemsOf(lib, jobs)).value;
            && Init(file).Ok? && i < |Init(file).value.files|
            && Xxh3Verdict(lib, file, Unlocked(Init(file).value.files[i], jobs[i].fh.password, deferAuth)) == None
  {
    hide Readable, Created, JobPayload, ItemOf, Parts, CallerExtra, OpenFile, Init, Zip64Archive, Decoy, BeforeEnd;
    hide Tail;
    WrittenIsRead(lib, prefix, jobs, i, deferAuth);
    RunRoundTrip(lib, prefix, jobs);
    assert Describes(Init(prefix + ArchiveBytes(|prefix|, ItemsOf(lib, jobs)).value).value.files[i], lib, jobs[i],
                     Offset(|prefix|, ItemsOf(lib, jobs), i));
    NotRaw(lib, jobs[i]);
  }

  lemma NotRaw(lib: Lib, job: Job)
    requires Readable(lib, job)
    ensures !job.raw
  {
  }

  /** `Reader.SetPassword` marks every entry as encrypted, so an entry that is
      not encrypted no longer opens as what it is: it is deciphered. One of
      fewer than twelve bytes fails to open, any other fails unless a
      deciphered byte happens to fit, and then something twelve bytes shorter
      is decompressed. No stored entry reads as before. */
  lemma PasswordOnPlainEntry(lib: Lib, file: bytes, f: File, password: bytes)
    requires !f.h.IsEncrypted() && f.h.ae == 0 && BodyOffset(file, f.headerOffset).Ok?
    ensures var section := Section(file, f.headerOffset + BodyOffset(file, f.headerOffset).value, Int64(f.h.csize));
            var locked := OpenFile(lib, file, Locked(f, password));
            && (match Deciphered(f.h, password, section)
                case Err(e) =>
                  locked == Err(e) && e == if |section| < ZipCrypto.HEADER_LEN then UnexpectedEof else ErrPassword
                case Ok(s) =>
                  && |s| == |section| - ZipCrypto.HEADER_LEN
                  && (locked.Ok? <==> HasDecompressor(lib, f.h.compMethod))
                  && (locked.Ok? ==> locked.value.0 == Decompressed(lib, f.h.compMethod, s, true).0))
            && (f.h.compMethod == STORE ==>
                  && OpenFile(lib, file, f).Ok? && OpenFile(lib, file, f).value.0 == section
                  && locked != OpenFile(lib, file, f))
  {
    hide BodyOffset, Section, SectionAt, Verdict, RawStream, WithPassword, Deciphered;
    var section := Section(file, f.headerOffset + BodyOffset(file, f.headerOffset).value, Int64(f.h.csize));
    LockedStream(lib, f.h, password, section);
  }

  /** What deciphering with the password makes of the bytes of an entry. */
  function Deciphered(h: FileHeader, password: bytes, section: bytes): Result<bytes> {
    ZipCrypto.ZipOpen(password, ZipCrypto.CheckBytes(WithPassword(h, password).flags, h.modTime, h.crc).1, true, section)
  }

  lemma LockedStream(lib: Lib, h: FileHeader, password: bytes, section: bytes)
    requires !h.IsEncrypted() && h.ae == 0
    ensures var g := WithPassword(h, password);
            && g.csize == h.csize && g.compMethod == h.compMethod && g.ae == h.ae
            && RawStream(lib, h, section) == Ok((section, Eof))
            && match Deciphered(h, password, section)
               case Err(e) =>
                 RawStream(lib, g, section) == Err(e)
                 && e == if |section| < ZipCrypto.HEADER_LEN then UnexpectedEof else ErrPassword
               case Ok(s) =>
                 RawStream(lib, g, section) == Ok((s, Eof)) && |s| == |section| - ZipCrypto.HEADER_LEN
  {
    hide ZipCrypto.CheckBytes, ZipCrypto.ZipOpen;
    OpenEnds(password, ZipCrypto.CheckBytes(WithPassword(h, password).flags, h.modTime, h.crc).1, section);
  }

  lemma OpenEnds(password: bytes, check: byte, section: bytes)
    ensures match ZipCrypto.ZipOpen(password, check, true, section)
            case Err(e) => e == if |section| < ZipCrypto.HEADER_LEN then UnexpectedEof else ErrPassword
            case Ok(s) => |s| == |section| - ZipCrypto.HEADER_LEN
  {
    hide ZipCrypto.InitKeys;
  }
}
