/** Parts as any tool writes them: with or without a descriptor, in all of its
    forms, and with sizes in the local header. The filter measures them exactly. */
module ForeignParts {
  import opened Bytes
  import opened Header
  import opened ExtraFields
  import opened Directory
  import opened Archive
  import opened LocalPart
  import opened Sorting
  import opened Filter
  import FilterTheorems

  /** What may follow a payload: nothing, or checksum and sizes behind a signature or not. */
  datatype Trailer = NoTrailer | Trailer(signed: bool, crc: uint32, csize: uint64, usize: uint64)

  /** A part, piece by piece. */
  datatype Foreign = Foreign(x: Local, name: bytes, extra: bytes, payload: bytes, trailer: Trailer) {
    /** The lengths in the local header are those of what follows. */
    ghost predicate Named() {
      x.nameLen == |name| && x.extraLen == |extra|
    }

    /** Sizes take eight bytes each if the directory's are large or the local header has a zip64 record. */
    ghost predicate Wide(h: FileHeader) {
      HasTag(extra, ZIP64_EXTRA_ID) || h.csize >= UINT32_MAX || h.usize >= UINT32_MAX
    }

    ghost function TrailerBytes(wide: bool): bytes {
      match trailer
      case NoTrailer => []
      case Trailer(signed, crc, csize, usize) =>
        (if signed then P32(DATA_DESCRIPTOR_SIGNATURE) else []) + P32(crc)
        + (if wide then P64(csize) + P64(usize) else P32(csize % TWO32) + P32(usize % TWO32))
    }

    ghost function Part(h: FileHeader): bytes {
      PrintLocal(x) + (name + extra) + payload + TrailerBytes(Wide(h))
    }

    /** The entry of the directory that belongs to the part: its compressed size
        is the payload's, and its flag says whether a descriptor follows. The
        checksum of a descriptor without signature is not the signature. */
    ghost predicate Fits(h: FileHeader) {
      && Named() && h.csize == |payload| < TWO63
      && (h.flags % 16 >= 8 <==> trailer.Trailer?)
      && (trailer.Trailer? ==> trailer.signed || trailer.crc != DATA_DESCRIPTOR_SIGNATURE)
    }
  }

  // ---------------------------------------------------------------- measuring

  /** The length that is found is that of the part, whatever follows it. */
  lemma ForeignMeasured(p: Foreign, h: FileHeader, rest: bytes, last: Error)
    requires p.Fits(h)
    ensures EntryLen(p.Part(h) + rest, last, h) == Ok(|p.Part(h)|)
    ensures |p.Part(h)| == 30 + |p.name| + |p.extra| + |p.payload| +
              match p.trailer
              case NoTrailer => 0
              case Trailer(signed, _, _, _) => (if signed then 8 else 4) + (if p.Wide(h) then 16 else 8)
  {
    hide PrintLocal, HasTag, P32, P64, HeadLen, InferredLen, EntryLen, Foreign.TrailerBytes, FileHeader.IsZip64;
    var (lh, ne, d) := (PrintLocal(p.x), p.name + p.extra, p.TrailerBytes(p.Wide(h)));
    FilterTheorems.PartShape(lh, ne, p.payload, d, rest);
    WideIs(p, h);
    ForeignHead(p.x, p.name, p.extra, p.payload + (d + rest), last);
    EntryLenIs(p.Part(h) + rest, last, h, |lh| + |ne|, HasTag(p.extra, ZIP64_EXTRA_ID));
    TrailerLength(p, p.Wide(h));
    if p.trailer.Trailer? {
      TrailerMeasured(p, p.Wide(h), rest, last);
    }
  }

  lemma WideIs(p: Foreign, h: FileHeader)
    ensures p.Wide(h) == (HasTag(p.extra, ZIP64_EXTRA_ID) || h.IsZip64())
  {
    hide HasTag;
  }

  lemma EntryLenIs(s: bytes, last: Error, h: FileHeader, head: nat, zip64: bool)
    requires HeadLen(s, last) == Ok((head, zip64)) && h.csize < TWO63 && head + h.csize <= |s|
    ensures EntryLen(s, last, h) ==
      if h.flags % 16 < 8 then Ok(head + h.csize)
      else match InferredLen(s[head + h.csize..], last, zip64 || h.IsZip64())
           case Ok(n) => Ok(head + h.csize + n)
           case Err(e) => Err(e)
  {
    hide HeadLen, InferredLen, FileHeader.IsZip64;
  }

  lemma TrailerLength(p: Foreign, wide: bool)
    ensures |p.TrailerBytes(wide)| ==
              match p.trailer
              case NoTrailer => 0
              case Trailer(signed, _, _, _) => (if signed then 8 else 4) + (if wide then 16 else 8)
  {
    hide P32, P64;
  }

  /** Name and extra lengths, and whether the extra has a zip64 record. */
  lemma ForeignHead(x: Local, name: bytes, extra: bytes, more: bytes, last: Error)
    requires x.nameLen == |name| && x.extraLen == |extra|
    ensures HeadLen(PrintLocal(x) + (name + extra) + more, last)
              == Ok((FILE_HEADER_LEN + |name| + |extra|, HasTag(extra, ZIP64_EXTRA_ID)))
  {
    hide PrintLocal, Remove, HasTag, LocalLens;
    Assoc(PrintLocal(x), name + extra, more);
    Cut(PrintLocal(x), name + extra + more);
    Cut(name + extra, more);
    Cut(name, extra);
    FilterTheorems.LocalLensPrinted(x);
    RemoveLength(extra, ZIP64_EXTRA_ID);
  }

  lemma TrailerMeasured(p: Foreign, wide: bool, rest: bytes, last: Error)
    requires p.trailer.Trailer? && (p.trailer.signed || p.trailer.crc != DATA_DESCRIPTOR_SIGNATURE)
    ensures InferredLen(p.TrailerBytes(wide) + rest, last, wide) == Ok(|p.TrailerBytes(wide)|)
  {
    hide U32, P32, P64;
    var t := p.trailer;
    var d := p.TrailerBytes(wide);
    var first := if t.signed then P32(DATA_DESCRIPTOR_SIGNATURE) else P32(t.crc);
    assert (d + rest)[..4] == d[..4] == first;
  }

  /** A descriptor without signature whose checksum is the signature is taken
      for one with a signature: four bytes too many. */
  lemma MistakenSignature(p: Foreign, h: FileHeader, rest: bytes, last: Error)
    requires p.Named() && h.csize == |p.payload| < TWO63 && h.flags % 16 >= 8
    requires p.trailer.Trailer? && !p.trailer.signed && p.trailer.crc == DATA_DESCRIPTOR_SIGNATURE
    ensures EntryLen(p.Part(h) + rest, last, h) == if |rest| >= 4 then Ok(|p.Part(h)| + 4) else Err(last)
  {
    hide PrintLocal, HasTag, P32, P64, HeadLen, U32;
    var (lh, ne, d) := (PrintLocal(p.x), p.name + p.extra, p.TrailerBytes(p.Wide(h)));
    FilterTheorems.PartShape(lh, ne, p.payload, d, rest);
    ForeignHead(p.x, p.name, p.extra, p.payload + (d + rest), last);
    assert (d + rest)[..4] == d[..4] == P32(p.trailer.crc);
  }

  /** A compressed size that is negative as an int64 counts as none, whatever
      the payload is. */
  lemma NegativeMeasured(x: Local, name: bytes, extra: bytes, h: FileHeader, rest: bytes, last: Error)
    requires x.nameLen == |name| && x.extraLen == |extra| && h.csize >= TWO63
    ensures EntryLen(PrintLocal(x) + (name + extra) + rest, last, h) ==
              if h.flags % 16 < 8 then Ok(30 + |name| + |extra|)
              else match InferredLen(rest, last, true)
                   case Ok(n) => Ok(30 + |name| + |extra| + n)
                   case Err(e) => Err(e)
  {
    hide PrintLocal, HasTag, HeadLen, InferredLen;
    ForeignHead(x, name, extra, rest, last);
    Cut(PrintLocal(x) + (name + extra), rest);
  }

  // ---------------------------------------------------------------- filtering

  /** The entry's part lies at its offset. */
  ghost predicate Lies(f: File, p: Foreign, data: bytes) {
    p.Fits(f.h) && 0 <= f.headerOffset <= |data| && p.Part(f.h) <= data[f.headerOffset..]
  }

  /** The parts of these entries lie in the file, one behind the other, with or without gaps. */
  ghost predicate AllLie(files: seq<File>, parts: seq<Foreign>, data: bytes, pos: nat)
    requires |files| == |parts|
    decreases |files|
  {
    files == [] ||
    (pos <= files[0].headerOffset && Lies(files[0], parts[0], data)
     && AllLie(files[1..], parts[1..], data, files[0].headerOffset + |parts[0].Part(files[0].h)|))
  }

  ghost function PartsOf(files: seq<File>, parts: seq<Foreign>): (r: seq<bytes>)
    requires |files| == |parts|
    ensures |r| == |files| && forall i :: 0 <= i < |r| ==> r[i] == parts[i].Part(files[i].h)
  {
    seq(|files|, i requires 0 <= i < |files| => parts[i].Part(files[i].h))
  }

  /** Reading them in one pass gives exactly their bytes, for every source. */
  lemma {:induction false} RangesAreParts(files: seq<File>, parts: seq<Foreign>, data: bytes, last: Error, pos: nat)
    requires |files| == |parts| && AllLie(files, parts, data, pos)
    ensures Ranges(files, data, last, pos) == Ok(PartsOf(files, parts))
    decreases |files|
  {
    hide EntryLen, Lies, PartsOf, Ranges, Foreign.Part;
    PartsCons(files, parts);
    if files == [] {
      RangesNone(data, last, pos);
    } else {
      var off, part := files[0].headerOffset, parts[0].Part(files[0].h);
      LiesMeasured(files[0], parts[0], data, last);
      RangesAreParts(files[1..], parts[1..], data, last, off + |part|);
      RangesFirst(files, data, last, pos, |part|);
    }
  }

  lemma PartsCons(files: seq<File>, parts: seq<Foreign>)
    requires |files| == |parts|
    ensures PartsOf(files, parts) ==
      if files == [] then [] else [parts[0].Part(files[0].h)] + PartsOf(files[1..], parts[1..])
  {
    hide Foreign.Part;
  }

  lemma RangesFirst(files: seq<File>, data: bytes, last: Error, pos: nat, n: nat)
    requires files != [] && pos <= files[0].headerOffset <= |data|
    requires EntryLen(data[files[0].headerOffset..], last, files[0].h) == Ok(n)
    requires Ranges(files[1..], data, last, files[0].headerOffset + n).Ok?
    ensures var off := files[0].headerOffset;
            off + n <= |data|
            && Ranges(files, data, last, pos) == Ok([data[off..off + n]] + Ranges(files[1..], data, last, off + n).value)
  {
    hide EntryLen;
  }

  lemma LiesMeasured(f: File, p: Foreign, data: bytes, last: Error)
    requires Lies(f, p, data)
    ensures var (off, n) := (f.headerOffset, |p.Part(f.h)|);
            0 <= off && off + n <= |data| && EntryLen(data[off..], last, f.h) == Ok(n) && data[off..off + n] == p.Part(f.h)
  {
    hide EntryLen, Foreign.Part, Foreign.Fits;
    var s, n := data[f.headerOffset..], |p.Part(f.h)|;
    assert s == p.Part(f.h) + s[n..];
    assert s[..n] == data[f.headerOffset..f.headerOffset + n];
    ForeignMeasured(p, f.h, s[n..], last);
  }

  /** Filtering any archive whose selected entries are such parts, in stream
      order, finds every one of them and keeps exactly its bytes: the output is
      the archive of those parts under the regenerated headers. */
  lemma ForeignKept(files: seq<File>, parts: seq<Foreign>, data: bytes, last: Error, keep: File -> bool)
    requires var matched := Sort(Keep(files, keep), BY_OFFSET); |matched| == |parts| && AllLie(matched, parts, data, 0)
    ensures var matched := Sort(Keep(files, keep), BY_OFFSET);
            var items := ItemsOf(matched, PartsOf(matched, parts));
            && FilteredItems(files, data, last, keep) == Ok(items)
            && (forall i :: 0 <= i < |items| ==> items[i].part == parts[i].Part(matched[i].h))
            && Filtered(files, data, last, keep) == ArchiveBytes(0, items)
  {
    hide Sort, Keep, Ranges, AllLie, ArchiveBytes, Regen, Foreign.Part;
    RangesAreParts(Sort(Keep(files, keep), BY_OFFSET), parts, data, last, 0);
  }

  /** Parts that overlap are refused. */
  lemma OverlapIsRefused(f: File, g: File, p: Foreign, more: seq<File>, data: bytes, last: Error)
    requires Lies(f, p, data) && g.headerOffset < f.headerOffset + |p.Part(f.h)|
    ensures Ranges([f, g] + more, data, last, 0) == Err(ErrBackwards)
  {
    hide EntryLen, Foreign.Part, Lies;
    LiesMeasured(f, p, data, last);
    var all := [f, g] + more;
    assert all[1..] == [g] + more && all[0] == f;
  }
}
