/** An entry of a filtered archive reads as it does in the source. */
module FilteredContents {
  import opened Bytes
  import opened Header
  import opened ExtraFields
  import opened Streams
  import opened Directory
  import opened EndRecord
  import opened Archive
  import opened Sorting
  import opened Aes
  import opened Opening
  import opened Contents
  import opened Filter
  import opened FilterTheorems
  import opened Padding
  import ZipCrypto

  // ---------------------------------------------------------------- the header

  /** The fields of a header that opening an entry looks at. */
  ghost predicate OpensAlike(h: FileHeader, g: FileHeader) {
    && h.csize == g.csize && h.usize == g.usize && h.crc == g.crc && h.flags == g.flags && h.modTime == g.modTime
    && h.compMethod == g.compMethod && h.ae == g.ae && h.strength == g.strength
    && h.password == g.password && h.deferAuth == g.deferAuth
  }

  lemma SameStream(lib: Lib, h: FileHeader, g: FileHeader, section: bytes)
    requires OpensAlike(h, g)
    ensures RawStream(lib, h, section) == RawStream(lib, g, section)
  {
    hide AesStream, Derived, ZipCrypto.ZipOpen;
  }

  /** The filter keeps what matters of a header that was read from a directory. */
  lemma RegenOpensAlike(f: File, off: nat, password: Option<bytes>, deferAuth: bool)
    requires SelfDescribed(f.h) && f.h.password == None
    ensures OpensAlike(Unlocked(File(ReadBack(Regen(f.h), U64Of(off)), off), password, deferAuth).h,
                       Unlocked(f, password, deferAuth).h)
  {
    hide Padded, AesInfo, Remove, DirExtra, Size32, U64Of;
    var e1 := Remove(f.h.extra, ZIP64_EXTRA_ID);
    AesInfoRemove(f.h.extra, ZIP64_EXTRA_ID, Regen(f.h).compMethod, 0, 0);
    AesInfoRemove(e1, XXH3_EXTRA_ID, Regen(f.h).compMethod, 0, 0);
    AesInfoMethod(f.h.extra, f.h.compMethod, Regen(f.h).compMethod);
  }

  // ---------------------------------------------------------------- the part

  /** What opening finds in a part does not depend on what surrounds it. */
  lemma PartDecides(part: bytes, h: FileHeader, file: bytes, off: nat)
    requires EntryLen(part, Eof, h) == Ok(|part|) && h.csize < TWO63
    requires off <= |file| && part <= file[off..]
    ensures BodyOffset(file, off) == BodyOffset(part, 0) && BodyOffset(part, 0).Ok?
    ensures var body := BodyOffset(part, 0).value;
            && Section(file, off + body, h.csize) == Section(part, body, h.csize)
            && (h.HasDataDescriptor() ==>
                  var (stored, own) := (SectionAt(file, off + body + h.csize, 16), SectionAt(part, body + h.csize, 16));
                  stored.1 == Eof && own.1 == Eof && |stored.0| <= 16 && |own.0| <= 16
                  && DescriptorCheck(stored.0, Eof, h.crc) == DescriptorCheck(own.0, Eof, h.crc))
  {
    hide LocalLens, DescriptorCheck, InferredLen, Remove;
    var body := HeadLen(part, Eof).value.0;
    Slices(file, off, part, 0, FILE_HEADER_LEN);
    assert part[..FILE_HEADER_LEN] == part[0..FILE_HEADER_LEN];
    Slices(file, off, part, body, h.csize);
    if h.HasDataDescriptor() {
      DescriptorDecides(part, body + h.csize, file, off, h.crc);
    }
  }

  /** A descriptor of 12 bytes has no signature, so only its first four are looked at. */
  lemma DescriptorDecides(part: bytes, at: nat, file: bytes, off: nat, crc: uint32)
    requires off <= |file| && part <= file[off..] && at <= |part|
    requires exists zip64: bool :: InferredLen(part[at..], Eof, zip64) == Ok(|part| - at)
    ensures var (stored, own) := (SectionAt(file, off + at, 16), SectionAt(part, at, 16));
            && stored.1 == Eof && own.1 == Eof && |stored.0| <= 16 && |own.0| <= 16
            && DescriptorCheck(stored.0, Eof, crc) == DescriptorCheck(own.0, Eof, crc)
  {
    hide U32, SectionAt;
    var d := part[at..];
    var stored, own := SectionAt(file, off + at, 16).0, SectionAt(part, at, 16).0;
    Windows(part, at, file, off);
    assert |own| >= 12;
    FrontAgrees(own, stored);
    FrontAgrees(own, d);
    FirstFour(d);
  }

  /** Sixteen bytes of the part, or fewer at its end, are the front of those of the file. */
  lemma Windows(part: bytes, at: nat, file: bytes, off: nat)
    requires off <= |file| && part <= file[off..] && at <= |part|
    ensures var (stored, own) := (SectionAt(file, off + at, 16), SectionAt(part, at, 16));
            && stored.1 == Eof && own.1 == Eof && |stored.0| <= 16 && |own.0| == Min(16, |part| - at)
            && own.0 <= stored.0 && own.0 <= part[at..]
  {
    var n := Min(16, |part| - at);
    Slices(file, off, part, at, n);
    assert part[at..][..n] == part[at..at + n];
    var stored := Section(file, off + at, 16);
    assert stored[..n] == file[off + at..off + at + n];
  }

  lemma FrontAgrees(own: bytes, stored: bytes)
    requires own <= stored && |own| >= 4
    ensures U32(own) == U32(stored) && (|stored| <= |own| ==> own == stored)
  {
    hide U32;
    assert own[..4] == stored[..4];
    FirstFour(own);
    FirstFour(stored);
  }

  // ---------------------------------------------------------------- the entry

  /** What opening an entry gives, wherever its part stands. */
  lemma OpenOfPart(lib: Lib, part: bytes, file: bytes, f: File, h: FileHeader)
    requires EntryLen(part, Eof, f.h) == Ok(|part|) && f.h.csize < TWO63 && OpensAlike(f.h, h)
    requires 0 <= f.headerOffset <= |file| && part <= file[f.headerOffset..]
    ensures OpenFile(lib, file, f) == OpenFile(lib, part, File(h, 0))
  {
    hide EntryLen, BodyOffset, Section, SectionAt, DescriptorCheck, RawStream, Inflate, HasDecompressor;
    PartDecides(part, f.h, file, f.headerOffset);
    SameStream(lib, f.h, h, Section(part, BodyOffset(part, 0).value, h.csize));
  }

  lemma {:induction false} RangesAt(files: seq<File>, data: bytes, pos: nat, i: nat)
    requires Ranges(files, data, Eof, pos).Ok? && i < |files|
    ensures 0 <= files[i].headerOffset <= |data|
    ensures Ranges(files, data, Eof, pos).value[i] <= data[files[i].headerOffset..]
    decreases |files|
  {
    hide EntryLen;
    var off := files[0].headerOffset;
    var n := EntryLen(data[off..], Eof, files[0].h).value;
    if i == 0 {
      assert data[off..off + n] == data[off..][..n];
    } else {
      RangesAt(files[1..], data, off + n, i - 1);
    }
  }

  /** The header's password and deferred authentication do not change its part. */
  lemma UnlockedLen(part: bytes, f: File, password: Option<bytes>, deferAuth: bool)
    requires EntryLen(part, Eof, f.h) == Ok(|part|)
    ensures EntryLen(part, Eof, Unlocked(f, password, deferAuth).h) == Ok(|part|)
    ensures Unlocked(f, password, deferAuth).headerOffset == f.headerOffset
    ensures Unlocked(f, password, deferAuth).h.csize == f.h.csize
  {
    hide EntryLen, FileHeader.HasDataDescriptor;
    UnlockedKeeps(f, password, deferAuth);
    SameLen(part, f.h, Unlocked(f, password, deferAuth).h);
  }

  lemma UnlockedKeeps(f: File, password: Option<bytes>, deferAuth: bool)
    ensures var g := Unlocked(f, password, deferAuth);
            && g.headerOffset == f.headerOffset && g.h.csize == f.h.csize && g.h.usize == f.h.usize
            && g.h.HasDataDescriptor() == f.h.HasDataDescriptor()
  {
    if !f.h.IsEncrypted() {
      EvenBit3(f.h.flags);
    }
  }

  lemma EvenBit3(flags: uint16)
    requires flags % 2 == 0
    ensures flags % 16 >= 8 <==> (flags + 1) % 16 >= 8
  {
    var q, r := flags / 16, flags % 16;
    assert flags == 2 * (8 * q) + r;
    assert r != 15;
    LowDigit(q, r + 1);
  }

  lemma LowDigit(q: nat, r: nat)
    requires r < 16
    ensures (16 * q + r) % 16 == r
  {
  }

  lemma SameLen(s: bytes, h: FileHeader, g: FileHeader)
    requires h.csize == g.csize && h.usize == g.usize && h.HasDataDescriptor() == g.HasDataDescriptor()
    ensures EntryLen(s, Eof, h) == EntryLen(s, Eof, g)
  {
    hide HeadLen, InferredLen, FileHeader.HasDataDescriptor;
  }

  // ---------------------------------------------------------------- the archive

  lemma {:induction false} ReadUnlocked(s: bytes)
    ensures forall f :: f in ReadFiles(s).0 ==> f.h.password == None
    decreases |s|
  {
    if ParseDir(s).Ok? {
      ParsedUnlocked(s);
      ReadUnlocked(ParseDir(s).value.1);
    }
  }

  lemma ParsedUnlocked(s: bytes)
    requires ParseDir(s).Ok?
    ensures ParseDir(s).value.0.h.password == None
  {
    hide ParseFixed, WalkExtra;
  }

  /** The selected files are files that were read. */
  lemma SelectedAreRead(data: bytes, keep: File -> bool)
    requires Init(data).Ok?
    ensures forall f :: f in Sort(Keep(Init(data).value.files, keep), BY_OFFSET) ==>
              f in Init(data).value.files && keep(f) && SelfDescribed(f.h) && f.h.password == None
  {
    hide SelfDescribed, ReadFiles, ReadEnd, Keep, Sort;
    var files := Init(data).value.files;
    var chosen := Keep(files, keep);
    KeepIn(files, keep);
    SortElems(chosen, BY_OFFSET);
    SameElems(Sort(chosen, BY_OFFSET), chosen);
    FilesSelfDescribed(data);
    OffsetInside(data);
    ReadUnlocked(data[ReadEnd(data).value.offset..]);
  }

  /** One entry of the filtered archive. */
  lemma ReadFiltered(lib: Lib, data: bytes, matched: seq<File>, i: nat, password: Option<bytes>, deferAuth: bool)
    requires Ranges(matched, data, Eof, 0).Ok? && i < |matched| && matched[i].h.csize < TWO63
    requires SelfDescribed(matched[i].h) && matched[i].h.password == None
    requires var items := ItemsOf(matched, Ranges(matched, data, Eof, 0).value); AllRestored(0, items) && Legible([], items)
    ensures var out := ArchiveBytes(0, ItemsOf(matched, Ranges(matched, data, Eof, 0).value)).value;
            && Init(out).Ok? && |Init(out).value.files| == |matched|
            && OpenFile(lib, out, Unlocked(Init(out).value.files[i], password, deferAuth))
                 == OpenFile(lib, data, Unlocked(matched[i], password, deferAuth))
  {
    hide Init, Ranges, EntryLen, OpenFile, Unlocked, Exact, SelfDescribed, Regen, ReadBack, Decoy, BeforeEnd;
    hide AllRestored, Zip64Archive, OpensAlike, U64Of, Tail, Parts, Offset;
    var items := ItemsOf(matched, Ranges(matched, data, Eof, 0).value);
    var out, tail, f := ArchiveBytes(0, items).value, Tail(0, items).value, matched[i];
    var part, off := items[i].part, Offset(0, items, i);
    Whole(out);
    ArchiveReads([], items);
    ReadBacksAt(0, items, i);
    Whole(Parts(items));
    Tiling([], items, tail, i);
    RangesMeasured(matched, data, 0, i);
    RangesAt(matched, data, 0, i);
    RegenOpensAlike(f, off, password, deferAuth);
    OpenTwice(lib, part, out, data, f, File(ReadBack(items[i].h, U64Of(off)), off), password, deferAuth);
  }

  lemma OpenTwice(lib: Lib, part: bytes, out: bytes, data: bytes, f: File, g: File, password: Option<bytes>, deferAuth: bool)
    requires EntryLen(part, Eof, f.h) == Ok(|part|) && f.h.csize < TWO63
    requires OpensAlike(Unlocked(g, password, deferAuth).h, Unlocked(f, password, deferAuth).h)
    requires 0 <= f.headerOffset <= |data| && part <= data[f.headerOffset..]
    requires 0 <= g.headerOffset <= |out| && part <= out[g.headerOffset..]
    ensures OpenFile(lib, out, Unlocked(g, password, deferAuth)) == OpenFile(lib, data, Unlocked(f, password, deferAuth))
  {
    hide EntryLen, OpenFile;
    var f', g' := Unlocked(f, password, deferAuth), Unlocked(g, password, deferAuth);
    UnlockedLen(part, f, password, deferAuth);
    SameLen(part, f'.h, g'.h);
    OpenOfPart(lib, part, data, f', f'.h);
    OpenOfPart(lib, part, out, g', f'.h);
  }

  /** Every record of the filtered archive can be read again. */
  ghost predicate AllSurvive(items: seq<Item>) {
    forall i :: 0 <= i < |items| ==> Survives(items[i].h, U64Of(Offset(0, items, i)))
  }

  lemma SurvivorsAreRestored(items: seq<Item>)
    requires forall i :: 0 <= i < |items| ==> Plain(items[i].h)
    requires |Parts(items)| < TWO63
    ensures AllRestored(0, items) <==> AllSurvive(items)
  {
    hide Plain, Survives, Restored, AllRestored, Offset, Parts;
    RestoredAt(0, items);
    forall i | 0 <= i < |items|
      ensures Restored(items[i].h, U64Of(Offset(0, items, i))) <==> Survives(items[i].h, U64Of(Offset(0, items, i)))
    {
      Tiling([], items, [], i);
      SmallIsItself(Offset(0, items, i));
      RestoredExactlyWhen(items[i].h, Offset(0, items, i));
    }
  }

  /** Reading a filtered archive gives its entries, in order and where they
      stand, if and only if each of them, by its extra field, sizes and new
      offset, can be read again. */
  lemma FilteredReadsExactlyWhen(data: bytes, keep: File -> bool)
    requires Init(data).Ok?
    requires var items := FilteredItems(Init(data).value.files, data, Eof, keep); items.Ok? && Legible([], items.value)
    ensures var items := FilteredItems(Init(data).value.files, data, Eof, keep).value;
            var out := Filtered(Init(data).value.files, data, Eof, keep).value;
            && (Init(out) == Ok(Reader(ReadBacks(0, items), [])) <==> AllSurvive(items))
            && (AllRestored(0, items) <==> AllSurvive(items))
  {
    hide Init, Ranges, Sort, Keep, SelfDescribed, Plain, ArchiveBytes, AllRestored, AllSurvive, Decoy, BeforeEnd, Parts, Dir;
    hide NoneBehindPadding, AllGood, ReadBacks;
    var files := Init(data).value.files;
    var matched := Sort(Keep(files, keep), BY_OFFSET);
    var items := FilteredItems(files, data, Eof, keep).value;
    SelectedAreRead(data, keep);
    FilteredAreGood(matched, data);
    ArchiveShape([], items);
    SurvivorsAreRestored(items);
    ArchiveReads([], items);
    Whole(ArchiveBytes(0, items).value);
  }

  /** Filtering preserves content: if the filtered archive can be read again,
      every selected entry of any archive, found through the directory of the
      filtered one, reads exactly as it did in the source, errors included,
      with any password. */
  lemma FilterKeepsContent(lib: Lib, data: bytes, keep: File -> bool, i: nat, password: Option<bytes>, deferAuth: bool)
    requires Init(data).Ok?
    requires var items := FilteredItems(Init(data).value.files, data, Eof, keep);
             items.Ok? && Legible([], items.value) && AllSurvive(items.value)
    requires var matched := Sort(Keep(Init(data).value.files, keep), BY_OFFSET);
             i < |matched| && matched[i].h.csize < TWO63
    ensures var (files, out) := (Init(data).value.files, Filtered(Init(data).value.files, data, Eof, keep).value);
            var matched := Sort(Keep(files, keep), BY_OFFSET);
            && Init(out).Ok? && |Init(out).value.files| == |matched|
            && OpenFile(lib, out, Unlocked(Init(out).value.files[i], password, deferAuth))
                 == OpenFile(lib, data, Unlocked(matched[i], password, deferAuth))
  {
    hide Init, Ranges, Sort, Keep, Legible, OpenFile, Unlocked, SelfDescribed, ArchiveBytes, AllSurvive, AllRestored;
    var files := Init(data).value.files;
    var matched := Sort(Keep(files, keep), BY_OFFSET);
    SelectedAreRead(data, keep);
    FilteredReadsExactlyWhen(data, keep);
    assert matched[i] in matched;
    ReadFiltered(lib, data, matched, i, password, deferAuth);
  }

  /** If no entry matches, an empty archive is written, and it can be read. */
  lemma FilterKeepsNothing(files: seq<File>, data: bytes, last: Error, keep: File -> bool)
    requires forall f :: f in files ==> !keep(f)
    ensures Filtered(files, data, last, keep) == ArchiveBytes(0, []) && ArchiveBytes(0, []).Ok?
    ensures Init(ArchiveBytes(0, []).value) == Ok(Reader([], []))
  {
    hide DirEnd, EntryLen, Init;
    KeepIn(files, keep);
    assert Keep(files, keep) == [] by {
      SomeIn(Keep(files, keep));
    }
    EmptyIsLegible();
    ArchiveRoundTrip([], []);
    Whole(ArchiveBytes(0, []).value);
  }

  lemma EmptyIsLegible()
    ensures Legible([], []) && Parts([]) == [] && Dir(0, []) == Ok([])
  {
    hide EndRec, End64, Loc64;
    assert U64Of(0) == 0;
  }
}
