/** What filtering preserves: keeping everything is the identity, and filters compose. */
module FilterTheorems {
  import opened Bytes
  import opened Header
  import opened ExtraFields
  import opened Directory
  import opened EndRecord
  import opened Archive
  import opened LocalPart
  import opened Sorting
  import opened Filter

  // ---------------------------------------------------------------- the length of a part

  /** The filter measures only the part itself: what follows does not matter. */
  lemma EntryLenLocal(s: bytes, t: bytes, h: FileHeader, n: nat)
    requires EntryLen(s, Eof, h) == Ok(n)
    requires s[..n] <= t
    ensures EntryLen(t, Eof, h) == Ok(n)
  {
    hide LocalLens, Remove, DescriptorRest;
    HeadLenLocal(s, t, n);
    var body := HeadLen(s, Eof).value.0 + CopyLen(h.csize);
    if h.HasDataDescriptor() {
      assert s[body..][..4] == t[body..][..4] by {
        SamePrefix(s, t, n, body, 4);
      }
    }
  }

  lemma SamePrefix(s: bytes, t: bytes, n: nat, at: nat, k: nat)
    requires at + k <= n <= |s| && s[..n] <= t
    ensures s[at..][..k] == t[at..][..k]
  {
    assert t[..n] == s[..n];
    assert s[at..][..k] == s[..n][at..][..k];
    assert t[at..][..k] == t[..n][at..][..k];
  }

  lemma HeadLenLocal(s: bytes, t: bytes, n: nat)
    requires HeadLen(s, Eof).Ok? && HeadLen(s, Eof).value.0 <= n <= |s| && s[..n] <= t
    ensures HeadLen(t, Eof) == HeadLen(s, Eof)
  {
    hide LocalLens, Remove;
    SamePrefix(s, t, n, 0, FILE_HEADER_LEN);
    assert s[0..] == s && t[0..] == t;
    SamePrefix(s, t, n, FILE_HEADER_LEN, HeadLen(s, Eof).value.0 - FILE_HEADER_LEN);
  }

  /** Of the header only the sizes and the descriptor flag matter. */
  lemma EntryLenHeader(s: bytes, last: Error, h: FileHeader, g: FileHeader)
    requires h.csize == g.csize && h.usize == g.usize && h.flags == g.flags
    ensures EntryLen(s, last, h) == EntryLen(s, last, g)
  {
    hide HeadLen, InferredLen;
  }

  lemma LocalLensPrinted(x: Local)
    ensures LocalLens(PrintLocal(x)) == Ok((x.nameLen, x.extraLen))
  {
    hide U16, U32, P16, P32;
    var r9 := Put16(x.nameLen, Put16(x.extraLen, []));
    var r8 := Put32(x.usize32, r9);
    var r7 := Put32(x.csize32, r8);
    var r6 := Put32(x.crc, r7);
    var r5 := Put16(x.modDate, r6);
    var r4 := Put16(x.modTime, r5);
    var r3 := Put16(x.compMethod, r4);
    var r2 := Put16(x.flags, r3);
    var r1 := Put16(x.readerVersion, r2);
    var r := PrintLocal(x);
    assert r[4..] == r1 && r1[2..] == r2 && r2[2..] == r3 && r3[2..] == r4 && r4[2..] == r5;
    assert r[14..] == r6 by {
      assert r[4..][2..] == r[6..] && r[6..][2..] == r[8..] && r[8..][2..] == r[10..] && r[10..][2..] == r[12..];
      assert r[12..][2..] == r[14..];
    }
    assert r6[4..] == r7 && r7[4..] == r8 && r8[4..] == r9;
    assert r[26..] == r9 by {
      assert r[14..][4..] == r[18..] && r[18..][4..] == r[22..] && r[22..][4..] == r[26..];
    }
    assert r[26..28] == r9[..2] && r[28..30] == r9[2..][..2];
  }

  /** The filter infers the length the writer produced. */
  lemma ClosedIsMeasured(it: Item, payload: bytes, s: bytes)
    requires Closed(it, payload) && it.h.csize < TWO63 && it.part <= s
    ensures EntryLen(s, Eof, it.h) == Ok(|it.part|)
  {
    hide PrintLocal, DescriptorBody, Exact, HasTag, MethodStable, HeadLen, InferredLen, Descriptor;
    var h := it.h;
    var x := LocalOf(h.(readerVersion := ZIP_VERSION20));
    var ne, d, rest := h.name + h.extra, Descriptor(h), s[|it.part|..];
    assert s == it.part + rest;
    PartShape(PrintLocal(x), ne, payload, d, rest);
    ClosedHead(x, h.name, h.extra, payload + (d + rest), s);
    DescriptorMeasured(h, rest);
  }

  lemma PartShape(lh: bytes, ne: bytes, payload: bytes, d: bytes, rest: bytes)
    ensures lh + ne + payload + d + rest == lh + ne + (payload + (d + rest))
    ensures (lh + ne + payload + d + rest)[|lh| + |ne| + |payload|..] == d + rest
  {
    var a := lh + ne;
    Assoc(a + payload, d, rest);
    Assoc(a, payload, d + rest);
    Cut(a + payload, d + rest);
  }

  lemma ClosedHead(x: Local, name: bytes, extra: bytes, more: bytes, s: bytes)
    requires x.nameLen == |name| && x.extraLen == |extra| && !HasTag(extra, ZIP64_EXTRA_ID)
    requires s == PrintLocal(x) + (name + extra) + more
    ensures HeadLen(s, Eof) == Ok((FILE_HEADER_LEN + |name| + |extra|, false))
  {
    hide PrintLocal, Remove, HasTag, LocalLens;
    Assoc(PrintLocal(x), name + extra, more);
    Cut(PrintLocal(x), name + extra + more);
    Cut(name + extra, more);
    Cut(name, extra);
    LocalLensPrinted(x);
    RemoveLength(extra, ZIP64_EXTRA_ID);
  }

  lemma DescriptorMeasured(h: FileHeader, rest: bytes)
    requires h.WritesAes() ==> h.crc == 0
    ensures InferredLen(Descriptor(h) + rest, Eof, h.IsZip64()) == Ok(|Descriptor(h)|)
  {
    hide U32, P32;
    var d := Descriptor(h);
    assert (d + rest)[..4] == d[..4];
    assert U32(d[..4]) == Get32(d).0;
  }

  // ---------------------------------------------------------------- regenerated headers

  /** The printed form of a header, without what only steers reading and writing. */
  function Canon(h: FileHeader): FileHeader {
    h.Wire().(csize32 := Min(h.csize, UINT32_MAX), usize32 := Min(h.usize, UINT32_MAX))
  }

  ghost predicate PrintsSame(h: FileHeader, g: FileHeader) {
    forall off: uint64 :: DirRecord(h, off) == DirRecord(g, off)
  }

  lemma CanonPrintsSame(h: FileHeader)
    requires !h.IsZip64() ==> h.csize32 == h.csize && h.usize32 == h.usize
    ensures PrintsSame(Canon(h), h)
  {
    hide PrintFixed, Xxh3Record, Zip64Record;
    forall off: uint64 ensures DirRecord(Canon(h), off) == DirRecord(h, off) {
      assert DirExtra(Canon(h), off) == DirExtra(h, off);
    }
  }

  /** The filter drops exactly the records the writer added. */
  lemma RegenExtra(h: FileHeader, off: uint64)
    requires Rereadable(h, off)
    ensures Remove(Remove(DirExtra(h, off), ZIP64_EXTRA_ID), XXH3_EXTRA_ID) == h.extra
  {
    hide Xxh3Record, Zip64Record, Exact, HasTag, Padded, Remove, NeedsZip64Record;
    var x := if h.xxh3 != 0 then Xxh3Record(h.xxh3) else [];
    var z := if NeedsZip64Record(h, off) then Zip64Record(h.usize, h.csize, off) else [];
    RemoveLength(h.extra, ZIP64_EXTRA_ID);
    RemoveLength(h.extra, XXH3_EXTRA_ID);
    Whole(h.extra);
    if AddedExtra(h, off) != [] {
      Whole(x);
      AddedXxh3(h.xxh3);
      AddedZip64(h.usize, h.csize, off);
      RemoveNothing();
      RemoveAppend(h.extra, x + z, ZIP64_EXTRA_ID);
      RemoveAppend(x, z, ZIP64_EXTRA_ID);
      RemoveAppend(h.extra, x, XXH3_EXTRA_ID);
    }
  }

  lemma AddedZip64(u: uint64, c: uint64, off: uint64)
    ensures Remove(Zip64Record(u, c, off), ZIP64_EXTRA_ID) == []
  {
    hide P64;
    RemoveRecord(ZIP64_EXTRA_ID, Put64(u, Put64(c, P64(off))));
  }

  lemma RemoveNothing()
    ensures Exact([]) && Remove([], ZIP64_EXTRA_ID) == [] && Remove([], XXH3_EXTRA_ID) == []
  {
  }

  lemma RemoveRecord(id: uint16, data: bytes)
    requires |data| <= UINT16_MAX
    ensures Remove(Record(id, data), id) == []
  {
    var r := Record(id, data);
    assert r[|r|..] == [];
  }

  lemma AddedXxh3(v: uint64)
    ensures Exact(Xxh3Record(v))
    ensures Remove(Xxh3Record(v), XXH3_EXTRA_ID) == []
    ensures Remove(Xxh3Record(v), ZIP64_EXTRA_ID) == Xxh3Record(v)
  {
    RecordExact(XXH3_EXTRA_ID, P64(v));
    RemoveRecord(XXH3_EXTRA_ID, P64(v));
    RemoveLength(Xxh3Record(v), ZIP64_EXTRA_ID);
  }

  /** Reading a header back and regenerating it gives its printed form. */
  lemma RegenReadBack(h: FileHeader, off: uint64)
    requires Rereadable(h, off) && MethodStable(h)
    ensures Regen(ReadBack(h, off)).Wire() == Canon(h)
  {
    hide Remove, DirExtra, AesInfo;
    RegenExtra(h, off);
  }

  /** A regenerated header is as plain as one of the writer, padding aside. */
  lemma RegenGood(h: FileHeader)
    requires SelfDescribed(h)
    ensures Plain(Regen(h)) && MethodStable(Regen(h)) && Canon(Regen(h)) == Regen(h).Wire()
    ensures Exact(Regen(h).extra) <==> Exact(h.extra)
  {
    hide Exact, HasTag, Pad, Remove, AesInfo;
    var e1 := Remove(h.extra, ZIP64_EXTRA_ID);
    RemoveTags(h.extra, ZIP64_EXTRA_ID);
    RemoveTags(e1, XXH3_EXTRA_ID);
    AesInfoRemove(h.extra, ZIP64_EXTRA_ID, Regen(h).compMethod, 0, 0);
    AesInfoRemove(e1, XXH3_EXTRA_ID, Regen(h).compMethod, 0, 0);
    AesInfoMethod(h.extra, h.compMethod, Regen(h).compMethod);
  }

  /** The method that goes in matters only when no AES record replaces it. */
  lemma {:induction false} AesInfoMethod(b: bytes, m: uint16, k: uint16)
    ensures var (m1, ae1, s1) := AesInfo(b, m, 0, 0);
            var (k1, ae2, s2) := AesInfo(b, k, 0, 0);
            ae1 == ae2 && s1 == s2 && (m1 == k1 || (ae1 == 0 && m1 == m && k1 == k))
    decreases |b|
  {
    if HasRecord(b) && !(Tag(b) == WINZIP_AES_EXTRA_ID && RecordLen(b) >= 11) {
      AesInfoMethod(b[RecordLen(b)..], m, k);
    }
  }

  // ---------------------------------------------------------------- filtering what was printed

  /** An item that can be printed at `off`, read back, regenerated and measured again. */
  ghost predicate Good(it: Item, off: nat) {
    && Rereadable(it.h, U64Of(off)) && MethodStable(it.h)
    && (forall s: bytes :: it.part <= s ==> EntryLen(s, Eof, it.h) == Ok(|it.part|))
  }

  ghost predicate AllGood(off: nat, items: seq<Item>)
    decreases |items|
  {
    items == [] || (Good(items[0], off) && AllGood(off + |items[0].part|, items[1..]))
  }

  lemma {:induction false} GoodAt(off: nat, items: seq<Item>)
    requires forall i :: 0 <= i < |items| ==> Good(items[i], Offset(off, items, i))
    ensures AllGood(off, items)
    decreases |items|
  {
    hide Good, Offset;
    if items != [] {
      var off' := off + |items[0].part|;
      OffsetZero(off, items);
      forall i | 0 <= i < |items[1..]| ensures Good(items[1..][i], Offset(off', items[1..], i)) {
        OffsetStep(off, items, i + 1);
        assert items[1..][i] == items[i + 1];
      }
      GoodAt(off', items[1..]);
    }
  }

  /** Good items are restored when they are read. */
  lemma {:induction false} GoodAreRestored(off: nat, items: seq<Item>)
    requires AllGood(off, items) && off + |Parts(items)| < TWO63
    ensures AllRestored(off, items)
    decreases |items|
  {
    hide Rereadable, MethodStable, EntryLen, Walked, Intended, U64Of;
    if items != [] {
      SmallIsItself(off);
      WalkAdded(items[0].h, off);
      GoodAreRestored(off + |items[0].part|, items[1..]);
    }
  }

  /** The same parts under headers that print the same. */
  ghost predicate SameItems(a: seq<Item>, b: seq<Item>) {
    |a| == |b| && forall i :: 0 <= i < |a| ==> a[i].part == b[i].part && PrintsSame(a[i].h, b[i].h)
  }

  lemma {:induction false} SameDir(off: nat, a: seq<Item>, b: seq<Item>)
    requires SameItems(a, b)
    ensures Parts(a) == Parts(b) && Dir(off, a) == Dir(off, b)
    decreases |a|
  {
    hide Dir, Parts, Join, DirRecord, U64Of, PrintsSame, SameItems;
    DirOnce(off, a);
    DirOnce(off, b);
    PartsOnce(a);
    PartsOnce(b);
    SameLength(a, b);
    if a != [] {
      SameTail(a, b);
      PrintsAt(a[0].h, b[0].h, U64Of(off));
      SameDir(off + |a[0].part|, a[1..], b[1..]);
    }
  }

  lemma SameLength(a: seq<Item>, b: seq<Item>)
    requires SameItems(a, b)
    ensures |a| == |b|
  {
    hide PrintsSame;
  }

  lemma SameTail(a: seq<Item>, b: seq<Item>)
    requires SameItems(a, b) && a != []
    ensures b != [] && a[0].part == b[0].part && PrintsSame(a[0].h, b[0].h) && SameItems(a[1..], b[1..])
  {
    hide PrintsSame;
  }

  lemma PrintsAt(h: FileHeader, g: FileHeader, off: uint64)
    requires PrintsSame(h, g)
    ensures DirRecord(h, off) == DirRecord(g, off)
  {
    hide DirRecord;
  }

  lemma SameArchive(a: seq<Item>, b: seq<Item>)
    requires SameItems(a, b)
    ensures ArchiveBytes(0, a) == ArchiveBytes(0, b)
  {
    hide Parts, Dir, DirEnd, PrintsSame;
    SameDir(0, a, b);
  }

  /** A selection by what the filter may look at: the regenerated header, not the offset. */
  function OnRegen(q: FileHeader -> bool): File -> bool {
    (f: File) => q(Regen(f.h).Wire())
  }

  function OnItem(q: FileHeader -> bool): Item -> bool {
    (it: Item) => q(Canon(it.h))
  }

  lemma {:induction false} ReadBacksSorted(off: nat, items: seq<Item>)
    requires off + |Parts(items)| < TWO63
    ensures Sorted(ReadBacks(off, items), BY_OFFSET)
  {
    hide ReadBack, U64Of, Parts;
    forall i, j | 0 <= i < j < |items|
      ensures BY_OFFSET(ReadBacks(off, items)[i]) <= BY_OFFSET(ReadBacks(off, items)[j])
    {
      ReadBacksAt(off, items, i);
      ReadBacksAt(off, items, j);
      assert items[..j][..i] == items[..i];
      PartsAppend(items[..i], items[..j][i..]);
      assert items[..i] + items[..j][i..] == items[..j];
    }
  }

  /** Measuring the selected entries of a printed archive finds their parts again. */
  lemma {:induction false} RangesReread(prefix: bytes, items: seq<Item>, rest: bytes, pos: nat, q: FileHeader -> bool)
    requires AllGood(|prefix|, items) && pos <= |prefix| && |prefix| + |Parts(items)| < TWO63
    ensures var fs := Keep(ReadBacks(|prefix|, items), OnRegen(q));
            var r := Ranges(fs, prefix + Parts(items) + rest, Eof, pos);
            r.Ok? && SameItems(ItemsOf(fs, r.value), Keep(items, OnItem(q)))
    decreases |items|
  {
    hide EntryLen, Regen, ReadBack, Canon, PrintsSame, U64Of, Good;
    if items != [] {
      var it, tail := items[0], items[1..];
      var file := prefix + Parts(items) + rest;
      var f := File(ReadBack(it.h, U64Of(|prefix|)), |prefix|);
      var fs := Keep(ReadBacks(|prefix + it.part|, tail), OnRegen(q));
      FileShape(prefix, it.part, Parts(tail), rest);
      PartMeasured(it, |prefix|, file[|prefix|..]);
      assert ReadBacks(|prefix|, items) == [f] + ReadBacks(|prefix + it.part|, tail);
      KeepCons(f, ReadBacks(|prefix + it.part|, tail), OnRegen(q));
      if q(Canon(it.h)) {
        RangesReread(prefix + it.part, tail, rest, |prefix + it.part|, q);
        SelectedStep(f, it, fs, Keep(tail, OnItem(q)), file, pos);
      } else {
        RangesReread(prefix + it.part, tail, rest, pos, q);
        Whole(fs);
        Whole(Keep(tail, OnItem(q)));
      }
    }
  }

  lemma FileShape(prefix: bytes, a: bytes, b: bytes, rest: bytes)
    ensures prefix + (a + b) + rest == prefix + a + b + rest
    ensures a <= (prefix + (a + b) + rest)[|prefix|..]
  {
    Assoc(prefix, a, b);
    assert (prefix + (a + b) + rest)[|prefix|..] == a + b + rest;
  }

  lemma PartMeasured(it: Item, off: nat, s: bytes)
    requires Good(it, off) && it.part <= s
    ensures EntryLen(s, Eof, ReadBack(it.h, U64Of(off))) == Ok(|it.part|)
    ensures Regen(ReadBack(it.h, U64Of(off))).Wire() == Canon(it.h)
    ensures PrintsSame(Regen(ReadBack(it.h, U64Of(off))), it.h)
  {
    hide EntryLen, DirRecord, MethodStable, AesInfo, DirExtra, Remove, Exact, HasTag;
    var g := ReadBack(it.h, U64Of(off));
    EntryLenHeader(s, Eof, g, it.h);
    RegenReadBack(it.h, U64Of(off));
    CanonPrintsSame(it.h);
    forall o: uint64 ensures DirRecord(Regen(g), o) == DirRecord(it.h, o) {
      DirRecordWire(Regen(g), o);
    }
  }

  lemma SelectedStep(f: File, it: Item, fs: seq<File>, kept: seq<Item>, file: bytes, pos: nat)
    requires pos <= f.headerOffset <= |file|
    requires EntryLen(file[f.headerOffset..], Eof, f.h) == Ok(|it.part|) && it.part <= file[f.headerOffset..]
    requires PrintsSame(Regen(f.h), it.h)
    requires var r := Ranges(fs, file, Eof, f.headerOffset + |it.part|);
             r.Ok? && SameItems(ItemsOf(fs, r.value), kept)
    ensures var r := Ranges([f] + fs, file, Eof, pos);
            r.Ok? && SameItems(ItemsOf([f] + fs, r.value), [it] + kept)
  {
    hide EntryLen, Regen, PrintsSame, Ranges;
    var off := f.headerOffset;
    var r := Ranges(fs, file, Eof, off + |it.part|).value;
    RangesCons(f, fs, file, pos, |it.part|);
    assert file[off..off + |it.part|] == it.part by {
      assert file[off..][..|it.part|] == file[off..off + |it.part|];
    }
    ItemsCons(f, fs, it.part, r);
  }

  lemma RangesCons(f: File, fs: seq<File>, file: bytes, pos: nat, n: nat)
    requires pos <= f.headerOffset <= |file| && EntryLen(file[f.headerOffset..], Eof, f.h) == Ok(n)
    requires Ranges(fs, file, Eof, f.headerOffset + n).Ok?
    ensures Ranges([f] + fs, file, Eof, pos) ==
            Ok([file[f.headerOffset..f.headerOffset + n]] + Ranges(fs, file, Eof, f.headerOffset + n).value)
  {
    hide EntryLen;
    assert ([f] + fs)[1..] == fs;
  }

  lemma ItemsCons(f: File, fs: seq<File>, part: bytes, r: seq<bytes>)
    requires |fs| == |r|
    ensures ItemsOf([f] + fs, [part] + r) == [Item(Regen(f.h), part)] + ItemsOf(fs, r)
  {
    hide Regen;
  }

  /** Filtering an archive that was printed from good items, behind any prefix,
      prints the selected items as an archive of its own. */
  lemma FilterPrinted(prefix: bytes, items: seq<Item>, q: FileHeader -> bool)
    requires AllGood(|prefix|, items) && ArchiveBytes(|prefix|, items).Ok?
    requires |prefix| + |ArchiveBytes(|prefix|, items).value| < TWO63
    ensures Filtered(ReadBacks(|prefix|, items), prefix + ArchiveBytes(|prefix|, items).value, Eof, OnRegen(q))
            == ArchiveBytes(0, Keep(items, OnItem(q)))
  {
    hide Parts, Dir, DirEnd, AllGood, Ranges, Sort, Keep, ReadBacks, OnRegen, OnItem, SameItems, Tail;
    var files := ReadBacks(|prefix|, items);
    var tail := Tail(|prefix|, items).value;
    Assoc(prefix, Parts(items), tail);
    ReadBacksSorted(|prefix|, items);
    KeepSort(files, BY_OFFSET, OnRegen(q));
    SortOfSorted(files, BY_OFFSET);
    RangesReread(prefix, items, tail, 0, q);
    var fs := Keep(files, OnRegen(q));
    SameArchive(ItemsOf(fs, Ranges(fs, prefix + Parts(items) + tail, Eof, 0).value), Keep(items, OnItem(q)));
  }

  // ---------------------------------------------------------------- keeping everything

  ghost predicate AllClosed(items: seq<Item>, payloads: seq<bytes>) {
    |payloads| == |items| && forall i :: 0 <= i < |items| ==> Closed(items[i], payloads[i])
  }

  lemma ClosedIsGood(it: Item, payload: bytes, off: nat)
    requires Closed(it, payload) && it.h.csize < TWO63
    ensures Good(it, off)
  {
    hide EntryLen, PartBytes, Plain, Exact, MethodStable;
    forall s: bytes | it.part <= s ensures EntryLen(s, Eof, it.h) == Ok(|it.part|) {
      ClosedIsMeasured(it, payload, s);
    }
  }

  lemma ClosedAreGood(off: nat, items: seq<Item>, payloads: seq<bytes>)
    requires AllClosed(items, payloads) && |Parts(items)| < TWO63
    ensures AllGood(off, items) && AllPrintable(items)
  {
    hide Good, AllGood, PartBytes, Plain, Exact, MethodStable, Offset;
    forall i | 0 <= i < |items| ensures Good(items[i], Offset(off, items, i)) {
      SplitParts(items, i);
      PredictedIsWritten(items[i], payloads[i]);
      ClosedIsGood(items[i], payloads[i], Offset(off, items, i));
    }
    GoodAt(off, items);
  }

  const ANY_HEADER: FileHeader -> bool := (h: FileHeader) => true
  const EVERYTHING: File -> bool := (f: File) => true

  /** Keeping every entry of an archive the writer made drops the prefix it
      was appended to and otherwise gives back the archive the writer makes
      without one; without a prefix, the very same bytes. */
  lemma FilterKeepsAll(prefix: bytes, items: seq<Item>, payloads: seq<bytes>)
    requires AllClosed(items, payloads) && Legible(prefix, items)
    ensures var file := prefix + ArchiveBytes(|prefix|, items).value;
            && Init(file).Ok?
            && Filtered(Init(file).value.files, file, Eof, EVERYTHING) == ArchiveBytes(0, items)
            && (prefix == [] ==> Filtered(Init(file).value.files, file, Eof, EVERYTHING) == Ok(file))
  {
    hide Parts, Dir, Tail, Closed, Good, Printable, Decoy, BeforeEnd, Zip64Archive, Init, Sort, Ranges, Keep, ReadBacks;
    var file := prefix + ArchiveBytes(|prefix|, items).value;
    ClosedAreGood(|prefix|, items, payloads);
    ArchiveRoundTrip(prefix, items);
    FilterPrinted(prefix, items, ANY_HEADER);
    KeepAll(items, OnItem(ANY_HEADER));
    KeepEverything(ReadBacks(|prefix|, items), file);
    assert Init(file).value.files == ReadBacks(|prefix|, items);
    assert Filtered(ReadBacks(|prefix|, items), file, Eof, OnRegen(ANY_HEADER)) == ArchiveBytes(0, items);
    assert prefix == [] ==> file == ArchiveBytes(0, items).value;
  }

  lemma KeepEverything(files: seq<File>, data: bytes)
    ensures Filtered(files, data, Eof, EVERYTHING) == Filtered(files, data, Eof, OnRegen(ANY_HEADER))
  {
    hide Sort, Ranges, Regen;
    KeepAll(files, EVERYTHING);
    KeepAll(files, OnRegen(ANY_HEADER));
  }

  // ---------------------------------------------------------------- composition

  /** What holds of every header that was read: its extra is at most padded,
      and its AES settings are those the extra announces. */
  ghost predicate SelfDescribed(h: FileHeader) {
    Padded(h.extra) && AesInfo(h.extra, h.compMethod, 0, 0) == (h.compMethod, h.ae, h.strength)
  }

  lemma ParsedIsSelfDescribed(s: bytes)
    requires ParseDir(s).Ok?
    ensures SelfDescribed(ParseDir(s).value.0.h)
  {
    hide U16, U32, U64, ParseFixed, WalkExtra, Padded, AesInfo;
    var x := ParseFixed(s[..DIRECTORY_HEADER_LEN]).value;
    var h := ParseDir(s).value.0.h;
    WalkAes(x.usize32, x.csize32, Walk0(x), h.extra);
    WalkedIsPadded(x.usize32, x.csize32, Walk0(x), h.extra);
    AesInfoMethod(h.extra, x.compMethod, h.compMethod);
  }

  lemma {:induction false} ReadAreSelfDescribed(s: bytes)
    ensures forall f :: f in ReadFiles(s).0 ==> SelfDescribed(f.h)
    decreases |s|
  {
    hide ParseDir, SelfDescribed;
    if ParseDir(s).Ok? {
      ParsedIsSelfDescribed(s);
      ReadAreSelfDescribed(ParseDir(s).value.1);
    }
  }

  /** Every range was measured on exactly its own bytes. */
  lemma {:induction false} RangesMeasured(files: seq<File>, data: bytes, pos: nat, i: nat)
    requires Ranges(files, data, Eof, pos).Ok? && i < |files|
    ensures var part := Ranges(files, data, Eof, pos).value[i];
            forall s: bytes :: part <= s ==> EntryLen(s, Eof, files[i].h) == Ok(|part|)
    decreases |files|
  {
    hide EntryLen;
    var off := files[0].headerOffset;
    var n := EntryLen(data[off..], Eof, files[0].h).value;
    if i == 0 {
      var part := data[off..off + n];
      assert data[off..][..n] == part;
      forall s: bytes | part <= s ensures EntryLen(s, Eof, files[0].h) == Ok(n) {
        EntryLenLocal(data[off..], s, files[0].h, n);
      }
    } else {
      RangesMeasured(files[1..], data, off + n, i - 1);
    }
  }

  /** No regenerated record stands behind padding when the items are printed from `off`. */
  ghost predicate NoneBehindPadding(off: nat, items: seq<Item>) {
    forall i :: 0 <= i < |items| ==> UnspoiledAt(items[i].h, U64Of(Offset(off, items, i)))
  }

  /** The extra is not padded, or nothing is put behind the padding. */
  ghost predicate UnspoiledAt(h: FileHeader, offset: uint64) {
    Exact(h.extra) || AddedExtra(h, offset) == []
  }

  lemma FilteredAreGood(files: seq<File>, data: bytes)
    requires Ranges(files, data, Eof, 0).Ok?
    requires forall f :: f in files ==> SelfDescribed(f.h)
    ensures var items := ItemsOf(files, Ranges(files, data, Eof, 0).value);
            && (forall i :: 0 <= i < |items| ==> Plain(items[i].h))
            && (NoneBehindPadding(0, items) ==> AllGood(0, items))
  {
    hide EntryLen, Exact, AesInfo, Plain, MethodStable, Ranges, SelfDescribed, Regen, AddedExtra, AllGood, Offset, U64Of;
    var items := ItemsOf(files, Ranges(files, data, Eof, 0).value);
    forall i | 0 <= i < |items| ensures Plain(items[i].h) {
      assert files[i] in files;
      RegenGood(files[i].h);
    }
    if NoneBehindPadding(0, items) {
      forall i | 0 <= i < |items| ensures Good(items[i], Offset(0, items, i)) {
        assert files[i] in files;
        RegenGood(files[i].h);
        assert UnspoiledAt(items[i].h, U64Of(Offset(0, items, i)));
        ItemMeasured(files, data, i);
      }
      GoodAt(0, items);
    }
  }

  lemma ItemMeasured(files: seq<File>, data: bytes, i: nat)
    requires Ranges(files, data, Eof, 0).Ok? && i < |files|
    ensures var it := ItemsOf(files, Ranges(files, data, Eof, 0).value)[i];
            forall s: bytes :: it.part <= s ==> EntryLen(s, Eof, it.h) == Ok(|it.part|)
  {
    hide EntryLen, Ranges;
    var it := ItemsOf(files, Ranges(files, data, Eof, 0).value)[i];
    RangesMeasured(files, data, 0, i);
    forall s: bytes | it.part <= s ensures EntryLen(s, Eof, it.h) == Ok(|it.part|) {
      EntryLenHeader(s, Eof, files[i].h, it.h);
    }
  }

  /** Regenerating once is regenerating for good. */
  ghost predicate AllCanonical(files: seq<File>) {
    forall f :: f in files ==> Canon(Regen(f.h)) == Regen(f.h).Wire()
  }

  lemma CanonicalCons(files: seq<File>)
    requires files != [] && AllCanonical(files)
    ensures Canon(Regen(files[0].h)) == Regen(files[0].h).Wire() && AllCanonical(files[1..])
  {
    hide Canon, Regen;
  }

  /** A second selection, taken from the source at once, has the ranges the two steps have. */
  lemma {:induction false} RangesKeep(files: seq<File>, data: bytes, pos: nat, from: nat, q: FileHeader -> bool)
    requires from <= pos && Ranges(files, data, Eof, pos).Ok? && AllCanonical(files)
    ensures var r := Ranges(Keep(files, OnRegen(q)), data, Eof, from);
            r.Ok? && ItemsOf(Keep(files, OnRegen(q)), r.value) ==
                       Keep(ItemsOf(files, Ranges(files, data, Eof, pos).value), OnItem(q))
    decreases |files|
  {
    hide EntryLen, Regen, Canon, Ranges, Keep, ItemsOf, OnRegen, OnItem, AllCanonical;
    if files == [] {
      NothingKept(files, data, pos, from, q);
    } else {
      var f, tail := files[0], files[1..];
      CanonicalCons(files);
      RangesSplit(files, data, pos);
      var n := EntryLen(data[f.headerOffset..], Eof, f.h).value;
      var after := f.headerOffset + n;
      var rs := Ranges(tail, data, Eof, after).value;
      SameChoice(f, data[f.headerOffset..after], q);
      if OnRegen(q)(f) {
        RangesKeep(tail, data, after, after, q);
        RangesKept(f, tail, data, from, n, rs, q);
      } else {
        RangesKeep(tail, data, after, from, q);
        RangesSkipped(f, tail, data, from, n, rs, q);
      }
    }
  }

  lemma NothingKept(files: seq<File>, data: bytes, pos: nat, from: nat, q: FileHeader -> bool)
    requires files == []
    ensures Ranges(files, data, Eof, pos) == Ok([]) && Ranges(files, data, Eof, from) == Ok([])
    ensures Keep(files, OnRegen(q)) == files && Keep(ItemsOf(files, []), OnItem(q)) == ItemsOf(files, [])
  {
    hide Regen;
  }

  lemma RangesKept(f: File, tail: seq<File>, data: bytes, from: nat, n: nat, rs: seq<bytes>, q: FileHeader -> bool)
    requires from <= f.headerOffset <= |data| && EntryLen(data[f.headerOffset..], Eof, f.h) == Ok(n) && |rs| == |tail|
    requires OnRegen(q)(f) && OnItem(q)(Item(Regen(f.h), data[f.headerOffset..f.headerOffset + n]))
    requires var r := Ranges(Keep(tail, OnRegen(q)), data, Eof, f.headerOffset + n);
             r.Ok? && ItemsOf(Keep(tail, OnRegen(q)), r.value) == Keep(ItemsOf(tail, rs), OnItem(q))
    ensures var (files, parts) := ([f] + tail, [data[f.headerOffset..f.headerOffset + n]] + rs);
            var r := Ranges(Keep(files, OnRegen(q)), data, Eof, from);
            r.Ok? && ItemsOf(Keep(files, OnRegen(q)), r.value) == Keep(ItemsOf(files, parts), OnItem(q))
  {
    hide EntryLen, Regen, Ranges, Keep, ItemsOf, OnRegen, OnItem;
    var part := data[f.headerOffset..f.headerOffset + n];
    var kept := Keep(tail, OnRegen(q));
    KeepCons(f, tail, OnRegen(q));
    RangesCons(f, kept, data, from, n);
    ItemsCons(f, kept, part, Ranges(kept, data, Eof, f.headerOffset + n).value);
    ItemsCons(f, tail, part, rs);
    KeepCons(Item(Regen(f.h), part), ItemsOf(tail, rs), OnItem(q));
  }

  lemma RangesSkipped(f: File, tail: seq<File>, data: bytes, from: nat, n: nat, rs: seq<bytes>, q: FileHeader -> bool)
    requires 0 <= f.headerOffset && f.headerOffset + n <= |data| && |rs| == |tail|
    requires !OnRegen(q)(f) && !OnItem(q)(Item(Regen(f.h), data[f.headerOffset..f.headerOffset + n]))
    requires var r := Ranges(Keep(tail, OnRegen(q)), data, Eof, from);
             r.Ok? && ItemsOf(Keep(tail, OnRegen(q)), r.value) == Keep(ItemsOf(tail, rs), OnItem(q))
    ensures var (files, parts) := ([f] + tail, [data[f.headerOffset..f.headerOffset + n]] + rs);
            var r := Ranges(Keep(files, OnRegen(q)), data, Eof, from);
            r.Ok? && ItemsOf(Keep(files, OnRegen(q)), r.value) == Keep(ItemsOf(files, parts), OnItem(q))
  {
    hide EntryLen, Regen, Ranges, Keep, ItemsOf, OnRegen, OnItem;
    var part := data[f.headerOffset..f.headerOffset + n];
    KeepCons(f, tail, OnRegen(q));
    ItemsCons(f, tail, part, rs);
    KeepCons(Item(Regen(f.h), part), ItemsOf(tail, rs), OnItem(q));
    NoneFirst(Keep(tail, OnRegen(q)));
    NoneFirst(Keep(ItemsOf(tail, rs), OnItem(q)));
  }

  lemma SameChoice(f: File, part: bytes, q: FileHeader -> bool)
    requires Canon(Regen(f.h)) == Regen(f.h).Wire()
    ensures OnRegen(q)(f) == OnItem(q)(Item(Regen(f.h), part))
  {
    hide Regen, Canon;
  }

  lemma RangesSplit(files: seq<File>, data: bytes, pos: nat)
    requires files != [] && Ranges(files, data, Eof, pos).Ok?
    ensures var f, tail := files[0], files[1..];
            && files == [f] + tail && pos <= f.headerOffset <= |data|
            && EntryLen(data[f.headerOffset..], Eof, f.h).Ok?
            && var n := EntryLen(data[f.headerOffset..], Eof, f.h).value;
               var r := Ranges(tail, data, Eof, f.headerOffset + n);
               && r.Ok?
               && Ranges(files, data, Eof, pos).value == [data[f.headerOffset..f.headerOffset + n]] + r.value
  {
    hide EntryLen;
  }

  function Both(p: FileHeader -> bool, q: FileHeader -> bool): FileHeader -> bool {
    h => p(h) && q(h)
  }

  /** Filtering the source by both at once selects, of the first filter's items, those the second keeps. */
  lemma FilterBoth(files: seq<File>, data: bytes, p: FileHeader -> bool, q: FileHeader -> bool)
    requires FilteredItems(files, data, Eof, OnRegen(p)).Ok?
    requires forall f :: f in files ==> SelfDescribed(f.h)
    ensures FilteredItems(files, data, Eof, OnRegen(Both(p, q))) ==
            Ok(Keep(FilteredItems(files, data, Eof, OnRegen(p)).value, OnItem(q)))
    ensures var items := FilteredItems(files, data, Eof, OnRegen(p)).value; NoneBehindPadding(0, items) ==> AllGood(0, items)
  {
    hide Ranges, Regen, Canon, AllGood, NoneBehindPadding, Plain, Sort, Keep, SelfDescribed;
    var chosen := Keep(files, OnRegen(p));
    var matched := Sort(chosen, BY_OFFSET);
    KeepIn(files, OnRegen(p));
    SortElems(chosen, BY_OFFSET);
    SameElems(matched, chosen);
    FilteredAreGood(matched, data);
    forall f | f in matched ensures Canon(Regen(f.h)) == Regen(f.h).Wire() {
      RegenGood(f.h);
    }
    KeepKeep(files, OnRegen(p), OnRegen(q), OnRegen(Both(p, q)));
    KeepSort(chosen, BY_OFFSET, OnRegen(q));
    RangesKeep(matched, data, 0, 0, q);
  }

  /** Filters compose: filtering the re-read result of a filter gives, byte for
      byte, what filtering the source by both conditions gives. The conditions
      may look at everything the filter prints, but not at offsets. */
  lemma FiltersCompose(data: bytes, p: FileHeader -> bool, q: FileHeader -> bool)
    requires Init(data).Ok?
    requires var files := Init(data).value.files;
             var items := FilteredItems(files, data, Eof, OnRegen(p));
             items.Ok? && Legible([], items.value) && NoneBehindPadding(0, items.value)
    ensures var files := Init(data).value.files;
            var out := Filtered(files, data, Eof, OnRegen(p)).value;
            && Init(out).Ok?
            && Filtered(Init(out).value.files, out, Eof, OnRegen(q)) ==
               Filtered(files, data, Eof, OnRegen(Both(p, q)))
  {
    hide FilteredItems, ArchiveBytes, OnRegen, OnItem, Both, ReadBacks, Zip64Archive, Decoy, BeforeEnd, AllGood, Parts, Dir;
    hide SelfDescribed, NoneBehindPadding, AllRestored;
    var files := Init(data).value.files;
    FilesSelfDescribed(data);
    FilterBoth(files, data, p, q);
    var items := FilteredItems(files, data, Eof, OnRegen(p)).value;
    ArchiveShape([], items);
    GoodAreRestored(0, items);
    ArchiveReads([], items);
    FilterPrinted([], items, q);
    Whole(ArchiveBytes(0, items).value);
  }

  lemma FilesSelfDescribed(data: bytes)
    requires Init(data).Ok?
    ensures forall f :: f in Init(data).value.files ==> SelfDescribed(f.h)
  {
    hide SelfDescribed, ReadFiles, ReadEnd;
    OffsetInside(data);
    ReadAreSelfDescribed(data[ReadEnd(data).value.offset..]);
  }
}
