/** A whole archive: parts laid end to end, the directory that points at them, and the
    reader that finds them again. */
module Archive {
  import opened Bytes
  import opened Header
  import opened ExtraFields
  import opened Streams
  import opened Directory
  import opened EndRecord

  /** An entry of an archive: its final header, and its bytes in the output. */
  datatype Item = Item(h: FileHeader, part: bytes)

  datatype Reader = Reader(files: seq<File>, comment: bytes)

  function U64Of(n: nat): uint64 {
    n % TWO64
  }

  // ---------------------------------------------------------------- printing

  /** One output after the other; the first error wins. */
  function Join(a: Result<bytes>, b: Result<bytes>): Result<bytes> {
    if a.Err? then a else if b.Err? then b else Ok(a.value + b.value)
  }

  function Parts(items: seq<Item>): bytes {
    if items == [] then [] else items[0].part + Parts(items[1..])
  }

  /** The directory of items laid end to end from `off`. */
  function Dir(off: nat, items: seq<Item>): (r: Result<bytes>)
    ensures r.Ok? ==> |r.value| >= DIRECTORY_HEADER_LEN * |items|
    decreases |items|
  {
    if items == [] then Ok([])
    else Join(DirRecord(items[0].h, U64Of(off)), Dir(off + |items[0].part|, items[1..]))
  }

  /** Directory and end record behind parts that start at `base`. */
  function Tail(base: nat, items: seq<Item>): Result<bytes> {
    var dir :- Dir(base, items);
    Ok(dir + DirEnd(U64Of(|items|), U64Of(|dir|), U64Of(base + |Parts(items)|)))
  }

  function ArchiveBytes(base: nat, items: seq<Item>): Result<bytes> {
    var tail :- Tail(base, items);
    Ok(Parts(items) + tail)
  }

  // ---------------------------------------------------------------- parsing

  /** Directory records until the first that does not parse, and why it does not. */
  function ReadFiles(s: bytes): (seq<File>, Error)
    decreases |s|
  {
    match ParseDir(s)
    case Err(e) => ([], e)
    case Ok((f, rest)) =>
      var (fs, e) := ReadFiles(rest);
      ([f] + fs, e)
  }

  /** The directory that an end record leads to: record counts are only compared modulo 2^16. */
  function InitFrom(file: bytes, end: EndInfo): Result<Reader>
    requires end.offset <= |file|
  {
    if end.records > |file| / FILE_HEADER_LEN then Err(ErrTooManyFiles) else
    var (files, e) := ReadFiles(file[end.offset..]);
    if (e != ErrFormat && e != UnexpectedEof) || |files| % TWO16 != end.records % TWO16 then Err(e)
    else Ok(Reader(files, end.comment))
  }

  /** `Reader.init`. */
  function Init(file: bytes): Result<Reader> {
    var end :- ReadEnd(file);
    OffsetInside(file);
    InitFrom(file, end)
  }

  method InitReader(file: bytes, empties: nat) returns (r: Result<Reader>)
    ensures r == Init(file)
  {
    hide ReadEnd, ParseDir;
    var end :- ReadDirectoryEnd(file);
    assert end.offset < |file| by { OffsetInside(file); }
    if end.records > |file| / FILE_HEADER_LEN {
      return Err(ErrTooManyFiles);
    }
    var src := new Source(file[end.offset..], empties, Eof);
    var files: seq<File> := [];
    ghost var all := ReadFiles(src.rest);
    while true
      invariant src.last == Eof
      invariant all.0 == files + ReadFiles(src.rest).0 && all.1 == ReadFiles(src.rest).1
      decreases |src.rest|
    {
      ghost var before := src.rest;
      var f := ReadDirectoryHeader(src);
      if f.Err? {
        if f.error != ErrFormat && f.error != UnexpectedEof {
          return Err(f.error);
        }
        assert files + [] == files;
        assert all == (files, f.error);
        if |files| % TWO16 != end.records % TWO16 {
          return Err(f.error);
        }
        return Ok(Reader(files, end.comment));
      }
      assert files + ([f.value] + ReadFiles(src.rest).0) == files + [f.value] + ReadFiles(src.rest).0;
      files := files + [f.value];
    }
  }

  lemma OffsetInside(file: bytes)
    ensures ReadEnd(file).Ok? ==> ReadEnd(file).value.offset < |file|
  {
    var r := ReadEnd(file);
    if r.Ok? {
      var o := r.value.offset;
      assert 0 <= Int64(o) < |file|;
    }
  }

  // ---------------------------------------------------------------- writing a directory

  /** The records of the given headers at the given offsets. */
  function Records(hs: seq<FileHeader>, offsets: seq<uint64>): Result<bytes>
    requires |hs| == |offsets|
  {
    if hs == [] then Ok([]) else Join(DirRecord(hs[0], offsets[0]), Records(hs[1..], offsets[1..]))
  }

  /** The records up to the first that cannot be printed. */
  function Printed(hs: seq<FileHeader>, offsets: seq<uint64>): bytes
    requires |hs| == |offsets|
  {
    if hs == [] || DirRecord(hs[0], offsets[0]).Err? then []
    else DirRecord(hs[0], offsets[0]).value + Printed(hs[1..], offsets[1..])
  }

  method WriteRecords(w: CountWriter, hs: seq<FileHeader>, offsets: seq<uint64>) returns (r: Result<()>)
    requires |hs| == |offsets|
    modifies w
    ensures match Records(hs, offsets)
            case Ok(b) => r == Ok(()) && w.data == old(w.data) + b && w.count == old(w.count) + |b|
            case Err(e) => && r == Err(e) && w.data == old(w.data) + Printed(hs, offsets)
                           && w.count - |w.data| == old(w.count - |w.data|)
  {
    hide DirRecord, Records, Printed;
    var i := 0;
    ghost var done: bytes := [];
    Whole(w.data);
    assert hs[0..] == hs && offsets[0..] == offsets;
    Whole(Printed(hs, offsets));
    if Records(hs, offsets).Ok? {
      Whole(Records(hs, offsets).value);
    }
    while i < |hs|
      invariant 0 <= i <= |hs|
      invariant w.data == old(w.data) + done && w.count == old(w.count) + |done|
      invariant Records(hs, offsets) == Join(Ok(done), Records(hs[i..], offsets[i..]))
      invariant Printed(hs, offsets) == done + Printed(hs[i..], offsets[i..])
    {
      ghost var rest := Records(hs[i + 1..], offsets[i + 1..]);
      NextRecord(hs, offsets, i);
      Whole(done);
      var _ :- WriteDirectoryHeader(w, hs[i], offsets[i]);
      ghost var rec := DirRecord(hs[i], offsets[i]).value;
      if rest.Ok? {
        Assoc(done, rec, rest.value);
      }
      Assoc(done, rec, Printed(hs[i + 1..], offsets[i + 1..]));
      Assoc(old(w.data), done, rec);
      done := done + rec;
      i := i + 1;
    }
    Whole(done);
    NoRecords(hs[i..], offsets[i..]);
    return Ok(());
  }

  lemma NextRecord(hs: seq<FileHeader>, offsets: seq<uint64>, i: nat)
    requires i < |hs| == |offsets|
    ensures var first := DirRecord(hs[i], offsets[i]);
            && Records(hs[i..], offsets[i..]) == Join(first, Records(hs[i + 1..], offsets[i + 1..]))
            && Printed(hs[i..], offsets[i..]) == if first.Err? then [] else first.value + Printed(hs[i + 1..], offsets[i + 1..])
  {
    hide DirRecord;
    assert hs[i..][1..] == hs[i + 1..] && offsets[i..][1..] == offsets[i + 1..];
  }

  lemma NoRecords(hs: seq<FileHeader>, offsets: seq<uint64>)
    requires hs == [] && offsets == []
    ensures Records(hs, offsets) == Ok([]) && Printed(hs, offsets) == []
  {
  }

  function Heads(items: seq<Item>): (hs: seq<FileHeader>)
    ensures |hs| == |items|
    ensures forall i :: 0 <= i < |items| ==> hs[i] == items[i].h
  {
    seq(|items|, i requires 0 <= i < |items| => items[i].h)
  }

  /** The offsets of items laid end to end from `base`. */
  function Offsets(base: nat, items: seq<Item>): (offsets: seq<uint64>)
    ensures |offsets| == |items|
    ensures forall i :: 0 <= i < |items| ==> offsets[i] == U64Of(Offset(base, items, i))
  {
    seq(|items|, i requires 0 <= i < |items| => U64Of(Offset(base, items, i)))
  }

  /** Headers at the offsets of items laid end to end make the directory of those items. */
  lemma {:induction false} DirIsRecords(base: nat, items: seq<Item>)
    ensures Dir(base, items) == Records(Heads(items), Offsets(base, items))
    decreases |items|
  {
    hide Dir, Records, DirRecord, U64Of, Offset, Heads, Offsets;
    DirOnce(base, items);
    RecordsOnce(Heads(items), Offsets(base, items));
    if items != [] {
      TailOffsets(base, items);
      DirIsRecords(base + |items[0].part|, items[1..]);
    }
  }

  lemma DirOnce(base: nat, items: seq<Item>)
    ensures Dir(base, items) == if items == [] then Ok([]) else
      Join(DirRecord(items[0].h, U64Of(base)), Dir(base + |items[0].part|, items[1..]))
  {
    hide DirRecord, U64Of;
  }

  lemma RecordsOnce(hs: seq<FileHeader>, offsets: seq<uint64>)
    requires |hs| == |offsets|
    ensures Records(hs, offsets) == if hs == [] then Ok([]) else
      Join(DirRecord(hs[0], offsets[0]), Records(hs[1..], offsets[1..]))
  {
    hide DirRecord;
  }

  lemma OffsetZero(base: nat, items: seq<Item>)
    ensures Offset(base, items, 0) == base
  {
    assert items[..0] == [];
  }

  lemma TailOffsets(base: nat, items: seq<Item>)
    requires items != []
    ensures Heads(items)[0] == items[0].h && Heads(items)[1..] == Heads(items[1..])
    ensures Offsets(base, items)[0] == U64Of(base)
    ensures Offsets(base, items)[1..] == Offsets(base + |items[0].part|, items[1..])
  {
    hide U64Of, Offset;
    OffsetZero(base, items);
    var base' := base + |items[0].part|;
    forall i | 0 <= i < |items[1..]| ensures Offset(base, items, i + 1) == Offset(base', items[1..], i) {
      OffsetStep(base, items, i + 1);
    }
    assert Heads(items)[1..] == Heads(items[1..]);
    assert Offsets(base, items)[1..] == Offsets(base', items[1..]);
  }

  lemma OffsetStep(base: nat, items: seq<Item>, i: nat)
    requires 0 < i <= |items|
    ensures Offset(base, items, i) == Offset(base + |items[0].part|, items[1..], i - 1)
  {
    assert items[..i] == [items[0]] + items[1..][..i - 1];
    PartsAppend([items[0]], items[1..][..i - 1]);
    PartsOne(items[0]);
  }

  // ---------------------------------------------------------------- layout

  lemma {:induction false} PartsAppend(a: seq<Item>, b: seq<Item>)
    ensures Parts(a + b) == Parts(a) + Parts(b)
  {
    if a == [] {
      assert a + b == b;
    } else {
      assert (a + b)[1..] == a[1..] + b;
      PartsAppend(a[1..], b);
    }
  }

  /** Where item `i` starts when the first one starts at `base`. */
  function Offset(base: nat, items: seq<Item>, i: nat): nat
    requires i <= |items|
  {
    base + |Parts(items[..i])|
  }

  /** The items tile the output: each starts where the previous one ends, and
      its bytes are found there whatever precedes and follows. */
  lemma Tiling(prefix: bytes, items: seq<Item>, rest: bytes, i: nat)
    requires i < |items|
    ensures Offset(|prefix|, items, i + 1) == Offset(|prefix|, items, i) + |items[i].part|
    ensures Offset(|prefix|, items, |items|) == |prefix| + |Parts(items)|
    ensures Offset(|prefix|, items, i + 1) <= |prefix| + |Parts(items)|
    ensures var file, off := prefix + Parts(items) + rest, Offset(|prefix|, items, i);
            off <= |file| && items[i].part <= file[off..]
  {
    hide Parts;
    SplitParts(items, i);
    Whole(items);
    Middle(prefix, Parts(items[..i]), items[i].part, Parts(items[i + 1..]), rest);
  }

  lemma Middle(prefix: bytes, a: bytes, x: bytes, b: bytes, rest: bytes)
    ensures x <= (prefix + (a + x + b) + rest)[|prefix| + |a|..]
  {
    var file, off := prefix + (a + x + b) + rest, |prefix| + |a|;
    assert file[off..][..|x|] == x;
  }

  lemma PartsOnce(items: seq<Item>)
    ensures Parts(items) == if items == [] then [] else items[0].part + Parts(items[1..])
  {
  }

  lemma PartsOne(x: Item)
    ensures Parts([x]) == x.part
  {
    assert x.part + [] == x.part;
  }

  lemma SplitParts(items: seq<Item>, i: nat)
    requires i < |items|
    ensures Parts(items) == Parts(items[..i]) + items[i].part + Parts(items[i + 1..])
    ensures Parts(items[..i + 1]) == Parts(items[..i]) + items[i].part
  {
    hide Parts;
    var a, x, b := items[..i], [items[i]], items[i + 1..];
    SplitAt(items, i);
    PartsAppend(a, x);
    PartsAppend(a + x, b);
    PartsOne(items[i]);
  }

  // ---------------------------------------------------------------- round trip

  ghost predicate AllPrintable(items: seq<Item>) {
    forall i :: 0 <= i < |items| ==> Printable(items[i].h)
  }

  /** What the reader reports of items that start at `off`. */
  function ReadBacks(off: nat, items: seq<Item>): (r: seq<File>)
    ensures |r| == |items|
    decreases |items|
  {
    if items == [] then [] else
      [File(ReadBack(items[0].h, U64Of(off)), off)] + ReadBacks(off + |items[0].part|, items[1..])
  }

  /** Entry by entry: the header read back, at the offset the item really has. */
  lemma {:induction false} ReadBacksAt(off: nat, items: seq<Item>, i: nat)
    requires i < |items|
    ensures ReadBacks(off, items)[i] == File(ReadBack(items[i].h, U64Of(Offset(off, items, i))), Offset(off, items, i))
    decreases |items|
  {
    hide ReadBack;
    if i == 0 {
      assert items[..0] == [];
    } else {
      ReadBacksAt(off + |items[0].part|, items[1..], i - 1);
      OffsetStep(off, items, i);
    }
  }

  /** Every record of the directory gives its entry back when it is read. */
  ghost predicate AllRestored(off: nat, items: seq<Item>)
    decreases |items|
  {
    items == [] || (Restored(items[0].h, U64Of(off)) && AllRestored(off + |items[0].part|, items[1..]))
  }

  lemma {:induction false} RestoredAt(off: nat, items: seq<Item>)
    ensures AllRestored(off, items) <==> forall i :: 0 <= i < |items| ==> Restored(items[i].h, U64Of(Offset(off, items, i)))
    decreases |items|
  {
    hide Restored, U64Of, Offset;
    if items != [] {
      var off' := off + |items[0].part|;
      OffsetZero(off, items);
      RestoredAt(off', items[1..]);
      forall i | 0 <= i < |items[1..]| ensures Offset(off, items, i + 1) == Offset(off', items[1..], i) {
        OffsetStep(off, items, i + 1);
      }
      assert forall i :: 0 < i < |items| ==> items[i] == items[1..][i - 1];
    }
  }

  /** The writer's own entries are restored wherever they stand. */
  lemma {:induction false} PrintableRestored(off: nat, items: seq<Item>)
    requires AllPrintable(items) && off + |Parts(items)| < TWO63
    ensures AllRestored(off, items)
    decreases |items|
  {
    hide Printable, Restored, U64Of;
    if items != [] {
      SmallIsItself(off);
      PrintableIsRestored(items[0].h, off);
      PrintableRestored(off + |items[0].part|, items[1..]);
    }
  }

  lemma PrintableIsRestored(h: FileHeader, offset: uint64)
    requires Printable(h) && offset < TWO63
    ensures Restored(h, offset)
  {
    hide Plain, Exact, Walked, Intended, AddedExtra;
    WalkAdded(h, offset);
  }

  /** Reading the records of a directory gives back its items, and stops at
      what follows, exactly when each of them is restored. */
  lemma {:induction false} ReadFilesDir(off: nat, items: seq<Item>, tail: bytes)
    requires Dir(off, items).Ok? && off + |Parts(items)| < TWO63
    requires ParseDir(tail).Err?
    ensures var r := ReadFiles(Dir(off, items).value + tail);
            && (AllRestored(off, items) ==> r == (ReadBacks(off, items), ParseDir(tail).error))
            && (r.0 == ReadBacks(off, items) ==> AllRestored(off, items))
    decreases |items|
  {
    hide ParseDir, DirRecord, Restored, ReadBack, U64Of, AllRestored;
    RestoredStep(off, items);
    if items == [] {
      Whole(tail);
    } else {
      hide ReadFiles, Dir, ReadBacks, Parts;
      var it, rest := items[0], items[1..];
      var off' := off + |it.part|;
      DirSplit(off, items, tail);
      SmallIsItself(off);
      var rec, s := DirRecord(it.h, off).value, Dir(off', rest).value + tail;
      ReadBackExactlyWhen(it.h, off, s);
      ReadFilesDir(off', rest, tail);
      ReadFilesStep(rec + s);
      ReadBacksStep(off, items);
      var f := File(ReadBack(it.h, off), off);
      SameTail([f] + ReadBacks(off', rest), f, ReadBacks(off', rest));
      SameTail(ReadFiles(rec + s).0, f, ReadFiles(s).0);
    }
  }

  lemma SameTail(s: seq<File>, f: File, t: seq<File>)
    ensures s == [f] + t ==> s != [] && s[0] == f && s[1..] == t
  {
  }

  lemma RestoredStep(off: nat, items: seq<Item>)
    ensures items == [] ==> AllRestored(off, items)
    ensures items != [] ==>
      (AllRestored(off, items) <==> Restored(items[0].h, U64Of(off)) && AllRestored(off + |items[0].part|, items[1..]))
  {
    hide Restored, U64Of;
  }

  lemma DirSplit(off: nat, items: seq<Item>, tail: bytes)
    requires items != [] && Dir(off, items).Ok?
    ensures |Parts(items)| == |items[0].part| + |Parts(items[1..])|
    ensures DirRecord(items[0].h, U64Of(off)).Ok? && Dir(off + |items[0].part|, items[1..]).Ok?
    ensures Dir(off, items).value + tail ==
      DirRecord(items[0].h, U64Of(off)).value + (Dir(off + |items[0].part|, items[1..]).value + tail)
  {
    hide DirRecord, U64Of;
    Assoc(DirRecord(items[0].h, U64Of(off)).value, Dir(off + |items[0].part|, items[1..]).value, tail);
  }

  lemma ReadBacksStep(off: nat, items: seq<Item>)
    requires items != [] && U64Of(off) == off
    ensures ReadBacks(off, items) == [File(ReadBack(items[0].h, off), off)] + ReadBacks(off + |items[0].part|, items[1..])
  {
    hide ReadBack, U64Of;
  }

  lemma ReadFilesStep(s: bytes)
    ensures ReadFiles(s) ==
            match ParseDir(s)
            case Err(e) => ([], e)
            case Ok((f, rest)) => ([f] + ReadFiles(rest).0, ReadFiles(rest).1)
  {
    hide ParseDir;
  }

  lemma SmallIsItself(n: nat)
    requires n < TWO63
    ensures U64Of(n) == n
  {
  }

  /** An end record is not taken for another directory record. */
  lemma EndIsNoRecord(records: uint64, size: uint64, offset: uint64)
    ensures ParseDir(DirEnd(records, size, offset)).Err?
    ensures ParseDir(DirEnd(records, size, offset)).error in {ErrFormat, UnexpectedEof}
  {
    hide EndRec, Loc64, U16, U32, U64;
    if NeedsZip64End(records, size, offset) {
      var e64 := End64(records, size, offset);
      var s := DirEnd(records, size, offset);
      assert s[..DIRECTORY_HEADER_LEN][..4] == e64[..4];
      assert Get32(e64).0 == DIRECTORY64_END_SIGNATURE;
    }
  }

  /** The bytes in front of the end record. */
  function BeforeEnd(prefix: bytes, items: seq<Item>): bytes
    requires Dir(|prefix|, items).Ok?
  {
    prefix + Parts(items) + Dir(|prefix|, items).value
  }

  /** Whether the end record of the archive comes with its zip64 form. */
  predicate Zip64Archive(base: nat, items: seq<Item>)
    requires Dir(base, items).Ok?
  {
    NeedsZip64End(U64Of(|items|), U64Of(|Dir(base, items).value|), U64Of(base + |Parts(items)|))
  }

  lemma ArchiveShape(prefix: bytes, items: seq<Item>)
    requires ArchiveBytes(|prefix|, items).Ok? && |prefix| + |ArchiveBytes(|prefix|, items).value| < TWO63
    ensures Dir(|prefix|, items).Ok?
    ensures var off, dir := |prefix| + |Parts(items)|, Dir(|prefix|, items).value;
            && U64Of(|items|) == |items| && U64Of(|dir|) == |dir| && U64Of(off) == off
            && DIRECTORY_HEADER_LEN * |items| <= |dir|
    ensures var off, dir := |prefix| + |Parts(items)|, Dir(|prefix|, items).value;
            var e := DirEnd(|items|, |dir|, off);
            && prefix + ArchiveBytes(|prefix|, items).value == BeforeEnd(prefix, items) + e
            && |BeforeEnd(prefix, items)| == off + |dir|
            && (prefix + ArchiveBytes(|prefix|, items).value)[off..] == dir + e
  {
    hide DirEnd, Parts, Dir, U64Of;
    var dir := Dir(|prefix|, items).value;
    var p, e := Parts(items), DirEnd(U64Of(|items|), U64Of(|dir|), U64Of(|prefix| + |Parts(items)|));
    SmallIsItself(|items|);
    SmallIsItself(|dir|);
    SmallIsItself(|prefix| + |p|);
    Assoc(prefix, p, dir + e);
    Assoc(prefix + p, dir, e);
    Cut(prefix + p, dir + e);
  }

  /** The archive can be printed, positions stay below 2^63 and, without a zip64
      end record, the 20 bytes before the end record are no locator. */
  ghost predicate Legible(prefix: bytes, items: seq<Item>) {
    && ArchiveBytes(|prefix|, items).Ok? && |prefix| + |ArchiveBytes(|prefix|, items).value| + 98 < TWO63
    && (Zip64Archive(|prefix|, items) || Decoy(BeforeEnd(prefix, items)) == None)
  }

  /** Reading a legible archive appended to any prefix gives exactly its
      entries, in order, at their true positions, if and only if every one of
      them is restored. */
  lemma ArchiveReads(prefix: bytes, items: seq<Item>)
    requires Legible(prefix, items)
    ensures Init(prefix + ArchiveBytes(|prefix|, items).value) == Ok(Reader(ReadBacks(|prefix|, items), []))
            <==> AllRestored(|prefix|, items)
  {
    hide DirEnd, ReadEnd, ReadEnd64, Decoy, ReadFiles, ParseDir, Parts, AllRestored, ReadBacks, ArchiveBytes, Dir;
    hide U64Of, BeforeEnd, NeedsZip64End;
    ArchiveShape(prefix, items);
    var off, dir := |prefix| + |Parts(items)|, Dir(|prefix|, items).value;
    var pre := BeforeEnd(prefix, items);
    var file := prefix + ArchiveBytes(|prefix|, items).value;
    var e := DirEnd(|items|, |dir|, off);
    EndRoundTrip(pre, |items|, |dir|, off);
    assert ReadEnd(file) == Ok(EndInfo(|items|, |dir|, off, []));
    EndIsNoRecord(|items|, |dir|, off);
    ReadFilesDir(|prefix|, items, e);
    assert |items| <= |file| / FILE_HEADER_LEN;
  }

  /** What the writer prints for its own entries is read back. */
  lemma ArchiveRoundTrip(prefix: bytes, items: seq<Item>)
    requires AllPrintable(items) && Legible(prefix, items)
    ensures Init(prefix + ArchiveBytes(|prefix|, items).value) == Ok(Reader(ReadBacks(|prefix|, items), []))
  {
    hide AllPrintable, Init, ArchiveBytes, ReadBacks, Parts, AllRestored, Decoy, BeforeEnd, Zip64Archive, Dir;
    ArchiveShape(prefix, items);
    PrintableRestored(|prefix|, items);
    ArchiveReads(prefix, items);
  }
}
