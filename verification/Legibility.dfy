/** When the bytes before an end record can be taken for a zip64 locator. */
module Legibility {
  import opened Bytes
  import opened Header
  import opened ExtraFields
  import opened Directory
  import opened EndRecord
  import opened Archive
  import opened LocalPart
  import opened Jobs
  import opened Writing
  import opened Assembly

  /** The variable part of a directory record: name, extra field with the writer's records, comment. */
  function Variable(h: FileHeader, offset: uint64): bytes {
    h.name + (DirExtra(h, offset) + h.comment)
  }

  /** The last bytes of a directory are those of its last record. */
  lemma {:induction false} DirEndsWith(off: nat, items: seq<Item>, n: nat)
    requires items != [] && Dir(off, items).Ok?
    requires n <= |Variable(items[|items| - 1].h, U64Of(Offset(off, items, |items| - 1)))|
    ensures var v := Variable(items[|items| - 1].h, U64Of(Offset(off, items, |items| - 1)));
            var dir := Dir(off, items).value;
            n <= |dir| && dir[|dir| - n..] == v[|v| - n..]
    decreases |items|
  {
    hide Variable, DirRecord, U64Of, Parts, Dir, Offset;
    var last, off', rest := |items| - 1, off + |items[0].part|, items[1..];
    DirStep(off, items);
    if last == 0 {
      OffsetZero(off, items);
      RecordEndsWith(items[0].h, U64Of(off), n);
    } else {
      assert rest[last - 1] == items[last];
      OffsetStep(off, items, last);
      DirEndsWith(off', rest, n);
      EndOfSum(DirRecord(items[0].h, U64Of(off)).value, Dir(off', rest).value, n);
    }
  }

  lemma DirStep(off: nat, items: seq<Item>)
    requires items != [] && Dir(off, items).Ok?
    ensures var (first, rest) := (DirRecord(items[0].h, U64Of(off)), Dir(off + |items[0].part|, items[1..]));
            && first.Ok? && rest.Ok? && Dir(off, items).value == first.value + rest.value
            && (|items| == 1 ==> Dir(off, items) == first)
  {
    hide DirRecord, U64Of;
    if |items| == 1 {
      Whole(DirRecord(items[0].h, U64Of(off)).value);
    }
  }

  lemma RecordEndsWith(h: FileHeader, offset: uint64, n: nat)
    requires DirRecord(h, offset).Ok? && n <= |Variable(h, offset)|
    ensures var (r, v) := (DirRecord(h, offset).value, Variable(h, offset)); n <= |r| && r[|r| - n..] == v[|v| - n..]
  {
    hide PrintFixed, DirExtra;
    EndOfSum(PrintFixed(FixedOf(h, offset)), Variable(h, offset), n);
  }

  lemma EndOfSum(a: bytes, b: bytes, n: nat)
    requires n <= |b|
    ensures (a + b)[|a + b| - n..] == b[|b| - n..]
  {
  }

  /** Whether the reader is led astray is decided by the last entry alone: by
      the last 20 bytes of its name, extra field and comment. */
  lemma DecoyOfLast(prefix: bytes, items: seq<Item>)
    requires items != [] && Dir(|prefix|, items).Ok?
    requires |Variable(items[|items| - 1].h, U64Of(Offset(|prefix|, items, |items| - 1)))| >= DIRECTORY64_LOC_LEN
    ensures var v := Variable(items[|items| - 1].h, U64Of(Offset(|prefix|, items, |items| - 1)));
            Decoy(BeforeEnd(prefix, items)) == ParseLoc64(v[|v| - DIRECTORY64_LOC_LEN..])
  {
    hide Variable, U64Of, Parts, Dir, Offset, ParseLoc64;
    DirEndsWith(|prefix|, items, DIRECTORY64_LOC_LEN);
    EndOfSum(prefix + Parts(items), Dir(|prefix|, items).value, DIRECTORY64_LOC_LEN);
    var pre := BeforeEnd(prefix, items);
    assert pre[|pre| - DIRECTORY64_LOC_LEN..|pre|] == pre[|pre| - DIRECTORY64_LOC_LEN..];
  }

  /** A last entry as the writer commonly produces it: with a content hash,
      without comment or zip64 record, and with something other than a P eight
      bytes from the end of its name and the caller's extra. */
  ghost predicate Ordinary(h: FileHeader, offset: uint64) {
    && h.comment == [] && h.xxh3 != 0 && !h.IsZip64() && offset < UINT32_MAX
    && var named := h.name + h.extra; |named| >= 8 && named[|named| - 8] != 0x50
  }

  /** Such an archive is legible. */
  lemma OrdinaryIsLegible(prefix: bytes, items: seq<Item>)
    requires items != [] && Ordinary(items[|items| - 1].h, U64Of(Offset(|prefix|, items, |items| - 1)))
    requires ArchiveBytes(|prefix|, items).Ok? && |prefix| + |ArchiveBytes(|prefix|, items).value| + 98 < TWO63
    ensures Legible(prefix, items)
  {
    hide Variable, U64Of, Parts, Dir, Offset, ParseLoc64, Ordinary, DirEnd, NeedsZip64End, Decoy, BeforeEnd;
    var h, offset := items[|items| - 1].h, U64Of(Offset(|prefix|, items, |items| - 1));
    OrdinaryTail(h, offset);
    DecoyOfLast(prefix, items);
  }

  lemma OrdinaryTail(h: FileHeader, offset: uint64)
    requires Ordinary(h, offset)
    ensures var v := Variable(h, offset);
            |v| >= DIRECTORY64_LOC_LEN && ParseLoc64(v[|v| - DIRECTORY64_LOC_LEN..]) == None
  {
    hide Xxh3Record, U64;
    var v, named, x := Variable(h, offset), h.name + h.extra, Xxh3Record(h.xxh3);
    assert v == named + x by {
      Whole(x);
      Whole(h.extra + x);
      Assoc(h.name, h.extra, x);
    }
    assert v[|v| - DIRECTORY64_LOC_LEN] == named[|named| - 8];
    var w := v[|v| - DIRECTORY64_LOC_LEN..];
    assert w[..4][..2][0] == w[0];
  }

  // ---------------------------------------------------------------- when it is not legible

  /** Where a decoy locator leads, the reader takes a zip64 end record if there
      is one, and reports its values instead of the written ones. */
  lemma DecoyIsFollowed(prefix: bytes, items: seq<Item>)
    requires ArchiveBytes(|prefix|, items).Ok? && |prefix| + |ArchiveBytes(|prefix|, items).value| + 98 < TWO63
    requires !Zip64Archive(|prefix|, items) && Decoy(BeforeEnd(prefix, items)).Some?
    ensures var file := prefix + ArchiveBytes(|prefix|, items).value;
            ReadEnd(file) ==
              match ReadEnd64(file, Decoy(BeforeEnd(prefix, items)).value)
              case Err(e) => Err(e)
              case Ok((records, size, offset)) =>
                if 0 <= Int64(offset) < |file| then Ok(EndInfo(records, size, offset, [])) else Err(ErrFormat)
  {
    hide EndRec, Dir, Parts, ReadEnd64, ParseEndRec, FindEnd, EndAt, ParseLoc64, ArchiveBytes, U64Of;
    ArchiveShape(prefix, items);
    var pre := BeforeEnd(prefix, items);
    var off, dir := |prefix| + |Parts(items)|, Dir(|prefix|, items).value;
    var file := pre + EndRec(|items|, |dir|, off);
    EndRecAtEnd(pre, |items|, |dir|, off);
    assert file[|pre| - DIRECTORY64_LOC_LEN..|pre|] == pre[|pre| - DIRECTORY64_LOC_LEN..|pre|];
  }

  /** Where it leads to no zip64 end record, the archive cannot be read at all. */
  lemma DecoyMakesArchiveUnreadable(prefix: bytes, items: seq<Item>)
    requires ArchiveBytes(|prefix|, items).Ok? && |prefix| + |ArchiveBytes(|prefix|, items).value| + 98 < TWO63
    requires !Zip64Archive(|prefix|, items)
    requires var d := Decoy(BeforeEnd(prefix, items));
             d.Some? && ReadEnd64(prefix + ArchiveBytes(|prefix|, items).value, d.value).Err?
    ensures var file := prefix + ArchiveBytes(|prefix|, items).value;
            Init(file) == Err(ReadEnd64(file, Decoy(BeforeEnd(prefix, items)).value).error)
  {
    hide ArchiveBytes, Dir, Parts, ReadEnd, ReadEnd64, InitFrom, Zip64Archive, Decoy, BeforeEnd;
    DecoyIsFollowed(prefix, items);
  }

  /** A zip64 end record stands at `d`, and its directory reads as these entries. */
  ghost predicate LeadsBack(file: bytes, d: nat, files: seq<File>) {
    match ReadEnd64(file, d)
    case Err(_) => false
    case Ok((records, _, offset)) =>
      && 0 <= Int64(offset) < |file| && records <= |file| / FILE_HEADER_LEN && records % TWO16 == |files| % TWO16
      && ReadFiles(file[offset..]).0 == files && ReadFiles(file[offset..]).1 in {ErrFormat, UnexpectedEof}
  }

  /** The reader returns what was written exactly when every entry is restored
      and there is a zip64 end record or no decoy, or the decoy happens to lead
      to a zip64 end record with a directory of the same entries. The writer's
      own entries are always restored. */
  lemma ReadExactlyWhen(prefix: bytes, items: seq<Item>)
    requires ArchiveBytes(|prefix|, items).Ok? && |prefix| + |ArchiveBytes(|prefix|, items).value| + 98 < TWO63
    ensures var (file, files) := (prefix + ArchiveBytes(|prefix|, items).value, ReadBacks(|prefix|, items));
            var decoy := Decoy(BeforeEnd(prefix, items));
            && (Init(file) == Ok(Reader(files, [])) <==>
                  if Zip64Archive(|prefix|, items) || decoy == None then AllRestored(|prefix|, items)
                  else LeadsBack(file, decoy.value, files))
            && (AllPrintable(items) ==> AllRestored(|prefix|, items))
  {
    hide ArchiveBytes, Dir, Parts, ReadEnd, ReadEnd64, ReadFiles, Zip64Archive, Decoy, BeforeEnd, ReadBacks, AllRestored;
    hide AllPrintable;
    ArchiveShape(prefix, items);
    if AllPrintable(items) {
      PrintableRestored(|prefix|, items);
    }
    if Zip64Archive(|prefix|, items) || Decoy(BeforeEnd(prefix, items)) == None {
      ArchiveReads(prefix, items);
    } else {
      DecoyIsFollowed(prefix, items);
    }
  }

  // ---------------------------------------------------------------- a run that is not legible

  /** An entry whose comment is a locator makes an archive of its own that the
      reader rejects: the locator leads to the local header. */
  lemma LocatorComment(lib: Lib, job: Job)
    requires LocalHeader(Created(job.fh)).Ok? && job.fh.comment == Loc64(0)
    requires var items := [ItemOf(lib, job)];
             && ArchiveBytes(0, items).Ok? && |ArchiveBytes(0, items).value| + 98 < TWO63 && !Zip64Archive(0, items)
    ensures Init(ArchiveBytes(0, [ItemOf(lib, job)]).value) == Err(ErrFormat)
  {
    hide ItemOf, ArchiveBytes, Dir, Parts, ReadEnd, ReadEnd64, InitFrom, Zip64Archive, BeforeEnd, DirRecord, Loc64, ParseLoc64, U64Of;
    hide Created, Variable, Decoy, FinalHeaderOf;
    var items := [ItemOf(lib, job)];
    var file := ArchiveBytes(0, items).value;
    Whole(file);
    ArchiveShape([], items);
    ItemIs(lib, job);
    CommentIsDecoy(items[0]);
    DecoyIsFollowed([], items);
    StartsLocal(lib, job, file);
  }

  lemma CommentIsDecoy(it: Item)
    requires it.h.comment == Loc64(0) && Dir(0, [it]).Ok?
    ensures Decoy(BeforeEnd([], [it])) == Some(0)
  {
    hide Dir, Parts, BeforeEnd, Loc64, ParseLoc64, U64Of, Variable, Decoy, Offset;
    EndsWithComment(it.h, U64Of(Offset(0, [it], 0)));
    DecoyOfLast([], [it]);
    Loc64RoundTrip(0);
  }

  /** An empty stored entry without a name, and with this comment. */
  function Commented(comment: bytes, rnd: nat -> byte): Job {
    Job(FileHeader([], 0, 0, 0, STORE, 0, 0, 0, 0, 0, 0, 0, 0, [], 0, comment, 0, false, NoEncryption, None, 0, 0),
        false, [], rnd, 0, 0)
  }

  /** So the writer itself makes an archive that the reader rejects. */
  lemma WriterMadeDecoy(lib: Lib, rnd: nat -> byte)
    ensures var job := Commented(Loc64(0), rnd);
            && CreateError(lib, job.fh, false) == None && Sound(lib, [job])
            && var archive := ArchiveBytes(0, ItemsOf(lib, [job]));
               archive.Ok? && Init(archive.value) == Err(ErrFormat)
  {
    hide Loc64, DirEnd, PrintLocal, PrintFixed, Init;
    var job := Commented(Loc64(0), rnd);
    var it := ItemOf(lib, job);
    EmptyPart(lib, job);
    assert ItemsOf(lib, [job]) == [it];
    PartsOne(it);
    EmptyDir(it);
    LocatorComment(lib, job);
  }

  lemma EmptyPart(lib: Lib, job: Job)
    requires job == Commented(job.fh.comment, job.rnd)
    ensures LocalHeader(Created(job.fh)).Ok? && CallerExtra(job.fh.extra) && CreateError(lib, job.fh, false) == None
    ensures var it := ItemOf(lib, job);
            && |it.part| == 46 && it.h.csize == 0 && it.h.usize == 0 && it.h.name == [] && it.h.extra == []
            && it.h.comment == job.fh.comment
  {
    hide PrintLocal, DescriptorBody;
    assert JobPayload(lib, job) == [];
    FinalRest(lib, job);
  }

  /** The directory of one small item without name and extra. */
  lemma EmptyDir(it: Item)
    requires |it.part| == 46 && it.h.csize == 0 && it.h.usize == 0 && it.h.name == [] && it.h.extra == []
    requires |it.h.comment| == DIRECTORY64_LOC_LEN
    ensures Dir(0, [it]).Ok? && |Dir(0, [it]).value| <= 78 && !Zip64Archive(0, [it])
    ensures ArchiveBytes(0, [it]).Ok? && |ArchiveBytes(0, [it]).value| <= 78 + 46 + 22 + 98
  {
    hide PrintFixed, EndRec, Parts;
    PartsOne(it);
    assert U64Of(0) == 0;
    Whole(DirRecord(it.h, 0).value);
  }

  lemma ItemIs(lib: Lib, job: Job)
    requires LocalHeader(Created(job.fh)).Ok?
    ensures ItemOf(lib, job).h == FinalHeaderOf(lib, job) && FinalHeaderOf(lib, job).comment == job.fh.comment
  {
    hide LocalHeader, Created, JobPayload;
    FinalRest(lib, job);
  }

  lemma EndsWithComment(h: FileHeader, offset: uint64)
    ensures var v := Variable(h, offset); |h.comment| <= |v| && v[|v| - |h.comment|..] == h.comment
  {
    hide DirExtra;
    EndOfThree(h.name, DirExtra(h, offset), h.comment);
  }

  lemma EndOfThree(a: bytes, b: bytes, c: bytes)
    ensures var s := a + (b + c); |c| <= |s| && s[|s| - |c|..] == c
  {
  }

  /** An archive that starts with a part does not start with a zip64 end record. */
  lemma StartsLocal(lib: Lib, job: Job, file: bytes)
    requires LocalHeader(Created(job.fh)).Ok? && ArchiveBytes(0, [ItemOf(lib, job)]) == Ok(file)
    ensures ReadEnd64(file, 0) == Err(ErrFormat)
  {
    hide LocalHeader, Created, FinalHeaderOf, JobPayload, Descriptor, Dir, DirEnd, U64Of, Parts, ParseEnd64;
    var c, it := Created(job.fh), ItemOf(lib, job);
    var lh, dir := LocalHeader(c).value, Dir(0, [it]).value;
    PartsOne(it);
    LocalSignature(c);
    assert file[..4] == lh[..4];
    assert DIRECTORY_HEADER_LEN * |[it]| <= |dir|;
    var buf := file[0..DIRECTORY64_END_LEN];
    assert buf[..4] == lh[..4];
    OtherSignature(buf);
  }

  lemma LocalSignature(h: FileHeader)
    requires LocalHeader(h).Ok?
    ensures U32(LocalHeader(h).value[..4]) == FILE_HEADER_SIGNATURE
  {
    hide U32;
    var x := PrintLocal(LocalOf(h));
    assert LocalHeader(h).value[..4] == x[..4];
    assert Get32(x).0 == FILE_HEADER_SIGNATURE;
  }

  lemma OtherSignature(buf: bytes)
    requires |buf| == DIRECTORY64_END_LEN && U32(buf[..4]) != DIRECTORY64_END_SIGNATURE
    ensures ParseEnd64(buf) == Err(ErrFormat)
  {
    hide U32, U64;
  }
}
