/** `FilterZipStream`: selected parts are copied in stream order, and a directory for them is regenerated. */
module Filter {
  import opened Bytes
  import opened Header
  import opened ExtraFields
  import opened Streams
  import opened Directory
  import opened EndRecord
  import opened Archive
  import opened Sorting

  /** The header the filter prints for an entry: generated records dropped,
      32-bit sizes recomputed, the AES method restored. */
  function Regen(h: FileHeader): FileHeader {
    h.(extra := Remove(Remove(h.extra, ZIP64_EXTRA_ID), XXH3_EXTRA_ID),
       csize32 := Min(h.csize, UINT32_MAX), usize32 := Min(h.usize, UINT32_MAX),
       compMethod := if h.ae != 0 then WINZIP_AES_METHOD else h.compMethod)
  }

  /** What `io.CopyN` copies for a size: an int64 that is negative copies nothing. */
  function CopyLen(csize: uint64): nat {
    if Int64(csize) < 0 then 0 else Int64(csize)
  }

  /** Name and extra lengths of a local header. */
  function LocalLens(lh: bytes): Result<(nat, nat)>
    requires |lh| == FILE_HEADER_LEN
  {
    if U32(lh[..4]) != FILE_HEADER_SIGNATURE then Err(ErrFormat) else Ok((U16(lh[26..28]), U16(lh[28..30])))
  }

  /** Bytes of the descriptor after its first four, given what those are. */
  function DescriptorRest(first: bytes, zip64: bool): nat
    requires |first| == 4
  {
    (if zip64 then 16 else 8) + (if U32(first) == DATA_DESCRIPTOR_SIGNATURE then 4 else 0)
  }

  /** The length of the descriptor at the front of `s`. */
  function InferredLen(s: bytes, last: Error, zip64: bool): (r: Result<nat>)
    ensures r.Ok? ==> r.value <= |s|
  {
    var first :- FullResult(s, last, 4);
    var n := 4 + DescriptorRest(first, zip64);
    if n > |s| then Err(last) else Ok(n)
  }

  /** Length of local header, name and extra, and whether the extra has a zip64 record. */
  function HeadLen(s: bytes, last: Error): (r: Result<(nat, bool)>)
    ensures r.Ok? ==> FILE_HEADER_LEN <= r.value.0 <= |s|
  {
    var lh :- FullResult(s, last, FILE_HEADER_LEN);
    var (n, e) :- LocalLens(lh);
    var ne :- FullResult(s[FILE_HEADER_LEN..], last, n + e);
    Ok((FILE_HEADER_LEN + n + e, |Remove(ne[n..], ZIP64_EXTRA_ID)| != e))
  }

  /** The length of the part at the front of `s` for an entry of the directory. */
  function EntryLen(s: bytes, last: Error, h: FileHeader): (r: Result<nat>)
    ensures r.Ok? ==> FILE_HEADER_LEN <= r.value <= |s|
  {
    var (head, localZip64) :- HeadLen(s, last);
    var body := head + CopyLen(h.csize);
    if body > |s| then Err(last)
    else if !h.HasDataDescriptor() then Ok(body)
    else
      var dd :- InferredLen(s[body..], last, localZip64 || h.IsZip64());
      Ok(body + dd)
  }

  /** The byte ranges of the given entries, read in one pass from position `pos`. */
  function Ranges(files: seq<File>, data: bytes, last: Error, pos: nat): (r: Result<seq<bytes>>)
    ensures r.Ok? ==> |r.value| == |files|
    decreases |files|
  {
    if files == [] then Ok([]) else
    var off := files[0].headerOffset;
    if off < pos then Err(ErrBackwards)
    else if off > |data| then Err(last)
    else
      var n :- EntryLen(data[off..], last, files[0].h);
      var rest :- Ranges(files[1..], data, last, off + n);
      Ok([data[off..off + n]] + rest)
  }

  function ItemsOf(files: seq<File>, ranges: seq<bytes>): (items: seq<Item>)
    requires |files| == |ranges|
    ensures |items| == |files|
    ensures forall i :: 0 <= i < |items| ==> items[i] == Item(Regen(files[i].h), ranges[i])
  {
    seq(|files|, i requires 0 <= i < |files| => Item(Regen(files[i].h), ranges[i]))
  }

  const BY_OFFSET: File -> int := (f: File) => f.headerOffset

  /** The selected entries in stream order, each with its exact source bytes. */
  function FilteredItems(files: seq<File>, data: bytes, last: Error, keep: File -> bool): Result<seq<Item>> {
    var matched := Sort(Keep(files, keep), BY_OFFSET);
    var ranges :- Ranges(matched, data, last, 0);
    Ok(ItemsOf(matched, ranges))
  }

  /** The filtered archive: those items laid end to end from offset 0. */
  function Filtered(files: seq<File>, data: bytes, last: Error, keep: File -> bool): Result<bytes> {
    var items :- FilteredItems(files, data, last, keep);
    ArchiveBytes(0, items)
  }

  // ---------------------------------------------------------------- the loop

  /** `io.CopyN`, to a sink or to nowhere. */
  method CopyN(src: Source, w: CountWriter?, n: nat) returns (r: Result<()>)
    modifies src, w
    ensures n <= |old(src.rest)| <==> r.Ok?
    ensures r.Ok? ==> src.rest == old(src.rest)[n..]
    ensures r.Ok? && w != null ==> w.data == old(w.data) + old(src.rest)[..n]
    ensures r.Err? ==> r.error == src.last
  {
    var left := n;
    ghost var data := src.rest;
    ghost var got: bytes := [];
    if w != null { Whole(w.data); }
    while left > 0
      invariant 0 <= left <= n && |got| == n - left
      invariant got + src.rest == data
      invariant w != null ==> w.data == old(w.data) + got
      decreases |src.rest| + src.empties
    {
      var p, st := src.Read(left);
      if w != null {
        w.Write(p);
        Assoc(old(w.data), got, p);
      }
      Assoc(got, p, src.rest);
      got := got + p;
      left := left - |p|;
      if st.End? && left > 0 {
        return Err(st.error);
      }
    }
    Cut(got, src.rest);
    return Ok(());
  }

  method CopyHead(stream: Source, w: CountWriter) returns (r: Result<(nat, bool)>)
    modifies stream, w
    ensures match HeadLen(old(stream.rest), stream.last)
            case Ok(v) => && r == Ok(v) && stream.rest == old(stream.rest)[v.0..]
                          && w.data == old(w.data) + old(stream.rest)[..v.0]
            case Err(e) => r == Err(e)
  {
    hide U32, U16, Remove;
    ghost var s, d := stream.rest, w.data;
    var lHead :- ReadFull(stream, FILE_HEADER_LEN);
    var lens :- LocalLens(lHead);
    var (nameLen, extraLen) := (lens.0, lens.1);
    var nameExtra :- ReadFull(stream, nameLen + extraLen);
    var kept := RemoveExtraField(nameExtra[nameLen..], ZIP64_EXTRA_ID);
    w.Write(lHead);
    w.Write(nameExtra);
    Taken(d, s, 0, FILE_HEADER_LEN);
    Taken(d, s, FILE_HEADER_LEN, nameLen + extraLen);
    return Ok((FILE_HEADER_LEN + nameLen + extraLen, |kept| != extraLen));
  }

  method CopyDescriptor(stream: Source, w: CountWriter, zip64: bool) returns (r: Result<nat>)
    modifies stream, w
    ensures match InferredLen(old(stream.rest), stream.last, zip64)
            case Ok(n) => && r == Ok(n) && stream.rest == old(stream.rest)[n..]
                          && w.data == old(w.data) + old(stream.rest)[..n]
            case Err(e) => r == Err(e)
  {
    hide U32;
    ghost var s, d := stream.rest, w.data;
    var sig :- ReadFull(stream, 4);
    w.Write(sig);
    Taken(d, s, 0, 4);
    var remaining := DescriptorRest(sig, zip64);
    var _ :- CopyN(stream, w, remaining);
    Taken(d, s, 4, remaining);
    return Ok(4 + remaining);
  }

  /** Copies one part: local header, name, extra, payload and descriptor. */
  method CopyEntry(stream: Source, w: CountWriter, h: FileHeader) returns (r: Result<nat>)
    modifies stream, w
    ensures match EntryLen(old(stream.rest), stream.last, h)
            case Ok(n) => && r == Ok(n) && stream.rest == old(stream.rest)[n..]
                          && w.data == old(w.data) + old(stream.rest)[..n]
            case Err(e) => r == Err(e)
  {
    hide HeadLen, InferredLen, FileHeader.HasDataDescriptor, FileHeader.IsZip64;
    ghost var s, d := stream.rest, w.data;
    var head :- CopyHead(stream, w);
    var body := head.0;
    var _ :- CopyN(stream, w, CopyLen(h.csize));
    Taken(d, s, body, CopyLen(h.csize));
    body := body + CopyLen(h.csize);
    if h.HasDataDescriptor() {
      var dd :- CopyDescriptor(stream, w, head.1 || h.IsZip64());
      Taken(d, s, body, dd);
      body := body + dd;
    }
    return Ok(body);
  }

  /** Moving the next `n` bytes from a stream to a sink. */
  lemma Taken(d: bytes, s: bytes, at: nat, n: nat)
    requires at + n <= |s|
    ensures d + s[..at] + s[at..][..n] == d + s[..at + n]
    ensures s[at..][n..] == s[at + n..]
    ensures at == 0 ==> s[at..] == s && d + s[..at] == d
  {
    assert s[..at] + s[at..][..n] == s[..at + n];
    Assoc(d, s[..at], s[at..][..n]);
  }

  method FastForward(stream: Source, streamOffset: nat, hOffset: int) returns (r: Result<()>)
    modifies stream
    ensures if hOffset < streamOffset then r == Err(ErrBackwards)
            else if hOffset - streamOffset > |old(stream.rest)| then r == Err(stream.last)
            else r.Ok? && stream.rest == old(stream.rest)[hOffset - streamOffset..]
  {
    if hOffset > streamOffset {
      r := CopyN(stream, null, hOffset - streamOffset);
    } else if hOffset < streamOffset {
      r := Err(ErrBackwards);
    } else {
      r := Ok(());
    }
  }

  /** The copying loop: what it wrote, and where each part went. */
  method CopyParts(matched: seq<File>, stream: Source, w: CountWriter)
    returns (r: Result<seq<uint64>>, outOffset: nat)
    modifies stream, w
    ensures match Ranges(matched, old(stream.rest), stream.last, 0)
            case Ok(ranges) =>
              var items := ItemsOf(matched, ranges);
              && r.Ok? && |r.value| == |matched|
              && w.data == old(w.data) + Parts(items) && outOffset == |Parts(items)|
              && r.value == Offsets(0, items)
            case Err(e) => r == Err(e)
  {
    hide EntryLen, Regen, U64Of, Parts, Ranges, ItemsOf, Offsets;
    ghost var data, d := stream.rest, w.data;
    var streamOffset := 0;
    outOffset := 0;
    var newOffsets: seq<uint64> := [];
    ghost var done: seq<bytes> := [];
    var i := 0;
    Start(matched, data, stream.last);
    Whole(d);
    while i < |matched|
      invariant 0 <= i <= |matched| && |done| == i == |newOffsets|
      invariant 0 <= streamOffset <= |data| && stream.rest == data[streamOffset..]
      invariant var rest := Ranges(matched[i..], data, stream.last, streamOffset);
                Ranges(matched, data, stream.last, 0) == if rest.Ok? then Ok(done + rest.value) else rest
      invariant w.data == d + Parts(ItemsOf(matched[..i], done))
      invariant outOffset == |Parts(ItemsOf(matched[..i], done))|
      invariant newOffsets == Offsets(0, ItemsOf(matched[..i], done))
    {
      var f := matched[i];
      var hOffset := f.headerOffset;
      assert matched[i..][0] == f;
      RangesOnce(matched[i..], data, stream.last, streamOffset);
      var _ :- FastForward(stream, streamOffset, hOffset);
      Taken(data, data, streamOffset, hOffset - streamOffset);
      newOffsets := newOffsets + [U64Of(outOffset)];
      var n :- CopyEntry(stream, w, f.h);
      ghost var range := data[hOffset..][..n];
      StepRanges(matched, data, stream.last, i, done, n);
      StepItems(matched, done, i, range);
      Assoc(d, Parts(ItemsOf(matched[..i], done)), range);
      Taken(data, data, hOffset, n);
      done := done + [range];
      streamOffset := hOffset + n;
      outOffset := outOffset + n;
      i := i + 1;
    }
    Whole(done);
    Whole(matched);
    RangesNone(data, stream.last, streamOffset);
    return Ok(newOffsets), outOffset;
  }

  lemma RangesOnce(files: seq<File>, data: bytes, last: Error, pos: nat)
    requires files != []
    ensures var off := files[0].headerOffset;
            Ranges(files, data, last, pos) ==
              if off < pos then Err(ErrBackwards)
              else if off > |data| then Err(last)
              else if EntryLen(data[off..], last, files[0].h).Err? then Err(EntryLen(data[off..], last, files[0].h).error)
              else Ranges(files, data, last, off)
  {
    hide EntryLen;
  }

  lemma RangesNone(data: bytes, last: Error, pos: nat)
    ensures Ranges([], data, last, pos) == Ok([])
  {
  }

  lemma Start(matched: seq<File>, data: bytes, last: Error)
    ensures matched[0..] == matched && data[0..] == data
    ensures Ranges(matched, data, last, 0).Ok? ==>
              [] + Ranges(matched, data, last, 0).value == Ranges(matched, data, last, 0).value
    ensures Parts(ItemsOf(matched[..0], [])) == [] && Offsets(0, ItemsOf(matched[..0], [])) == []
  {
  }

  /** Directory and end record of the copied parts. */
  method WriteTail(matched: seq<File>, ghost items: seq<Item>, newOffsets: seq<uint64>, outOffset: nat)
    returns (r: Result<bytes>)
    requires |matched| == |items| == |newOffsets| && outOffset == |Parts(items)|
    requires forall k :: 0 <= k < |matched| ==>
               items[k].h == Regen(matched[k].h)
    requires newOffsets == Offsets(0, items)
    ensures r == Tail(0, items)
  {
    hide Regen, U64Of, Offset, Parts, DirEnd;
    var hs := seq(|matched|, k requires 0 <= k < |matched| => Regen(matched[k].h));
    var buf := new CountWriter();
    DirIsRecords(0, items);
    assert hs == Heads(items);
    var _ :- WriteRecords(buf, hs, newOffsets);
    Whole(Dir(0, items).value);
    WriteDirectoryEnd(buf, U64Of(|matched|), U64Of(|buf.data|), U64Of(outOffset));
    return Ok(buf.data);
  }

  method FilterZipStream(files: seq<File>, stream: Source, w: CountWriter, keep: File -> bool) returns (r: Result<()>)
    modifies stream, w
    ensures match Filtered(files, old(stream.rest), stream.last, keep)
            case Ok(out) => r == Ok(()) && w.data == old(w.data) + out
            case Err(e) => r == Err(e)
  {
    hide EntryLen, Regen, Sort, Tail, Parts, Offset, Keep;
    ghost var data, d := stream.rest, w.data;
    var matched := Select(files, keep);
    matched := Sort(matched, BY_OFFSET);
    var copied, outOffset := CopyParts(matched, stream, w);
    var newOffsets :- copied;
    ghost var items := ItemsOf(matched, Ranges(matched, data, stream.last, 0).value);
    var tail :- WriteTail(matched, items, newOffsets, outOffset);
    w.Write(tail);
    Assoc(d, Parts(items), tail);
    return Ok(());
  }

  method Select(files: seq<File>, keep: File -> bool) returns (matched: seq<File>)
    ensures matched == Keep(files, keep)
  {
    matched := [];
    var i := 0;
    while i < |files|
      invariant 0 <= i <= |files|
      invariant matched + Keep(files[i..], keep) == Keep(files, keep)
    {
      assert files[i..][1..] == files[i + 1..];
      ghost var rest := Keep(files[i + 1..], keep);
      if keep(files[i]) {
        Assoc(matched, [files[i]], rest);
        matched := matched + [files[i]];
      } else {
        Whole(rest);
      }
      i := i + 1;
    }
    Whole(matched);
  }

  lemma StepRanges(matched: seq<File>, data: bytes, last: Error, i: nat, done: seq<bytes>, n: nat)
    requires i < |matched|
    requires var off := matched[i].headerOffset;
             0 <= off <= |data| && EntryLen(data[off..], last, matched[i].h) == Ok(n)
    ensures var off := matched[i].headerOffset;
            var rest := Ranges(matched[i + 1..], data, last, off + n);
            var here := Ranges(matched[i..], data, last, off);
            && (here.Ok? <==> rest.Ok?)
            && (rest.Ok? ==> done + here.value == done + [data[off..][..n]] + rest.value)
            && (rest.Err? ==> here == rest)
  {
    hide EntryLen;
    var off := matched[i].headerOffset;
    assert matched[i..][0] == matched[i] && matched[i..][1..] == matched[i + 1..];
    assert data[off..off + n] == data[off..][..n];
    var rest := Ranges(matched[i + 1..], data, last, off + n);
    if rest.Ok? {
      Assoc(done, [data[off..][..n]], rest.value);
    }
  }

  lemma StepItems(matched: seq<File>, done: seq<bytes>, i: nat, range: bytes)
    requires i < |matched| && |done| == i
    ensures var items, items' := ItemsOf(matched[..i], done), ItemsOf(matched[..i + 1], done + [range]);
            && Parts(items') == Parts(items) + range
            && Offsets(0, items') == Offsets(0, items) + [U64Of(|Parts(items)|)]
  {
    hide U64Of, Parts;
    var it := Item(Regen(matched[i].h), range);
    var items := ItemsOf(matched[..i], done);
    assert ItemsOf(matched[..i + 1], done + [range]) == items + [it];
    PartsAppend(items, [it]);
    PartsOne(it);
    forall k | 0 <= k <= i ensures Offset(0, items + [it], k) == Offset(0, items, k) {
      assert (items + [it])[..k] == items[..k];
    }
    Whole(items);
  }
}
