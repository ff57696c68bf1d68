/** `CopyRawPart`: one part is stripped, deciphered, enciphered again and emitted, without being decompressed. */
module RawCopy {
  import opened Bytes
  import opened Header
  import opened ExtraFields
  import opened Streams
  import opened LocalPart
  import opened Jobs
  import opened FileWriting
  import opened Writing
  import opened Stripper
  import opened Payloads
  import ZipCrypto

  // ---------------------------------------------------------------- reading a local header

  /** The sizes of a local header, taken from its first zip64 record where they are escaped. */
  function LocalSizes(u32: uint32, c32: uint32, extra: bytes): (uint64, uint64)
    decreases |extra|
  {
    if !HasRecord(extra) then (u32, c32)
    else if Tag(extra) != ZIP64_EXTRA_ID then LocalSizes(u32, c32, extra[RecordLen(extra)..])
    else
      var eb := extra[4..RecordLen(extra)];
      var (u, eb) := if u32 == UINT32_MAX && |eb| >= 8 then Get64(eb) else (u32, eb);
      (u, if c32 == UINT32_MAX && |eb| >= 8 then Get64(eb).0 else c32)
  }

  function HeaderFrom(x: Local, name: bytes, extra: bytes): FileHeader {
    var (u, c) := LocalSizes(x.usize32, x.csize32, extra);
    FileHeader(name, 0, x.readerVersion, x.flags, x.compMethod, 0, x.modTime, x.modDate, x.crc, x.csize32, x.usize32,
               c, u, extra, 0, [], 0, false, NoEncryption, None, 0, 0)
  }

  /** Header and remaining bytes of a part. */
  function LocalFile(s: bytes, last: Error): Result<(FileHeader, bytes)> {
    var buf :- FullResult(s, last, FILE_HEADER_LEN);
    var x :- ParseLocal(buf);
    var s := s[FILE_HEADER_LEN..];
    var name :- FullResult(s, last, x.nameLen);
    var s := s[x.nameLen..];
    var extra :- FullResult(s, last, x.extraLen);
    Ok((HeaderFrom(x, name, extra), s[x.extraLen..]))
  }

  method ReadLocalFileHeader(src: Source) returns (r: Result<FileHeader>)
    modifies src
    ensures match LocalFile(old(src.rest), src.last)
            case Ok((fh, rest)) => r == Ok(fh) && src.rest == rest
            case Err(e) => r == Err(e)
  {
    hide ParseLocal, HeaderFrom, FullResult;
    ghost var s := src.rest;
    Taken(s, src.last, FILE_HEADER_LEN);
    var buf :- ReadFull(src, FILE_HEADER_LEN);
    var x :- ReadLocal(buf);
    ghost var s1 := src.rest;
    Taken(s1, src.last, x.nameLen);
    var name :- ReadFull(src, x.nameLen);
    ghost var s2 := src.rest;
    Taken(s2, src.last, x.extraLen);
    var extra :- ReadFull(src, x.extraLen);
    var fh := MakeHeader(x, name, extra);
    r := Ok(fh);
  }

  method MakeHeader(x: Local, name: bytes, extra: bytes) returns (fh: FileHeader)
    ensures fh == HeaderFrom(x, name, extra)
  {
    hide LocalSizes;
    fh := FileHeader(name, 0, x.readerVersion, x.flags, x.compMethod, 0, x.modTime, x.modDate, x.crc, x.csize32,
                     x.usize32, x.csize32, x.usize32, extra, 0, [], 0, false, NoEncryption, None, 0, 0);
    fh := ParseLfhZip64Extra(fh);
  }

  lemma Taken(s: bytes, last: Error, n: nat)
    ensures FullResult(s, last, n).Ok? ==> n <= |s| && Min(n, |s|) == n && |FullResult(s, last, n).value| == n
  {
  }

  method ReadLocal(buf: bytes) returns (r: Result<Local>)
    requires |buf| == FILE_HEADER_LEN
    ensures r == ParseLocal(buf)
  {
    hide Get16, Get32, U16, U32;
    var rb := new ReadBuf(buf);
    var sig := rb.Uint32();
    if sig != FILE_HEADER_SIGNATURE {
      return Err(ErrFormat);
    }
    var readerVersion := rb.Uint16();
    var flags := rb.Uint16();
    var compMethod := rb.Uint16();
    var modTime := rb.Uint16();
    var modDate := rb.Uint16();
    var crc := rb.Uint32();
    var csize32 := rb.Uint32();
    var usize32 := rb.Uint32();
    var nameLen := rb.Uint16();
    var extraLen := rb.Uint16();
    r := Ok(Local(readerVersion, flags, compMethod, modTime, modDate, crc, csize32, usize32, nameLen, extraLen));
  }

  method ParseLfhZip64Extra(fh: FileHeader) returns (r: FileHeader)
    requires fh.csize == fh.csize32 && fh.usize == fh.usize32
    ensures var (u, c) := LocalSizes(fh.usize32, fh.csize32, fh.extra); r == fh.(usize := u, csize := c)
  {
    hide U16, U32, U64;
    r := fh;
    var b := new ReadBuf(fh.extra);
    while |b.b| >= 4
      invariant LocalSizes(fh.usize32, fh.csize32, b.b) == LocalSizes(fh.usize32, fh.csize32, fh.extra)
      invariant r == fh
      decreases |b.b|
    {
      ghost var s := b.b;
      var tag := b.Uint16();
      var size := b.Uint16();
      RecordAt(s);
      if size > |b.b| {
        return;
      }
      var eb := new ReadBuf(b.b[..size]);
      if tag == ZIP64_EXTRA_ID {
        if fh.usize32 == UINT32_MAX && |eb.b| >= 8 {
          var u := eb.Uint64();
          r := r.(usize := u);
        }
        if fh.csize32 == UINT32_MAX && |eb.b| >= 8 {
          var c := eb.Uint64();
          r := r.(csize := c);
        }
        return;
      }
      b.Skip(size);
    }
  }

  /** Reading tag and size steps over the first four bytes of a record. */
  lemma RecordAt(s: bytes)
    requires |s| >= 4
    ensures var (tag, b) := Get16(s);
            var (size, b) := Get16(b);
            && b == s[4..] && (HasRecord(s) <==> size <= |b|)
            && (HasRecord(s) ==> tag == Tag(s) && b[..size] == s[4..RecordLen(s)] && b[size..] == s[RecordLen(s)..])
  {
    assert s[2..][2..] == s[4..] && s[2..][..2] == s[2..4];
  }

  /** The first zip64 record of an extra field decides, whatever precedes and follows it. */
  lemma {:induction false} FirstZip64Decides(u32: uint32, c32: uint32, before: bytes, data: bytes, rest: bytes)
    requires Exact(before) && !HasTag(before, ZIP64_EXTRA_ID) && |data| <= UINT16_MAX
    ensures LocalSizes(u32, c32, before + (Record(ZIP64_EXTRA_ID, data) + rest))
            == LocalSizes(u32, c32, Record(ZIP64_EXTRA_ID, data))
    decreases |before|
  {
    hide U16, U64, Record;
    var z := Record(ZIP64_EXTRA_ID, data);
    if before == [] {
      Whole(z + rest);
      RecordLocal(z, rest);
      assert (z + rest)[4..|z|] == z[4..|z|];
    } else {
      RecordLocal(before, z + rest);
      var n := RecordLen(before);
      assert (before + (z + rest))[n..] == before[n..] + (z + rest);
      FirstZip64Decides(u32, c32, before[n..], data, rest);
    }
  }

  /** The record holds the escaped sizes only, in order; a size that is not
      escaped is the header's. */
  lemma EscapedSizes(u32: uint32, c32: uint32, v: uint64, w: uint64)
    ensures LocalSizes(u32, c32, Record(ZIP64_EXTRA_ID, Put64(v, Put64(w, [])))) ==
      if u32 == UINT32_MAX then (v, if c32 == UINT32_MAX then w else c32)
      else (u32, if c32 == UINT32_MAX then v else c32)
    ensures LocalSizes(u32, c32, Record(ZIP64_EXTRA_ID, Put64(v, []))) ==
      if u32 == UINT32_MAX then (v, c32) else (u32, if c32 == UINT32_MAX then v else c32)
  {
    hide U16, P64, U64;
    OneRecord(Put64(v, Put64(w, [])));
    OneRecord(Put64(v, []));
  }

  lemma OneRecord(data: bytes)
    requires |data| <= UINT16_MAX
    ensures var z := Record(ZIP64_EXTRA_ID, data); z[4..RecordLen(z)] == data
  {
    hide U16;
  }

  // ---------------------------------------------------------------- the new header

  /** The metadata a caller may change on the way. */
  datatype Overridable = Overridable(
    name: bytes, modTime: uint16, modDate: uint16, comment: bytes, xxh3: uint64,
    creatorVersion: uint16, readerVersion: uint16, extAttrs: uint32, extra: bytes)

  function Overrides(fh: FileHeader): Overridable {
    Overridable(fh.name, fh.modTime, fh.modDate, fh.comment, fh.xxh3, fh.creatorVersion, fh.readerVersion, fh.extAttrs, fh.extra)
  }

  function WithOverrides(fh: FileHeader, o: Overridable): FileHeader {
    fh.(name := o.name, modTime := o.modTime, modDate := o.modDate, comment := o.comment, xxh3 := o.xxh3,
        creatorVersion := o.creatorVersion, readerVersion := o.readerVersion, extAttrs := o.extAttrs, extra := o.extra)
  }

  /** The header of the copy before it is created. */
  function CopiedHeader(fh: FileHeader, newPassword: bytes, change: Overridable -> Overridable): FileHeader {
    var g := fh.(extra := Remove(fh.extra, ZIP64_EXTRA_ID));
    var g := WithOverrides(g, change(Overrides(g)));
    if newPassword != [] && fh.IsEncrypted() then WithEncryption(WithPassword(g, newPassword), StandardEncryption)
    else g.(flags := ClearBit0(g.flags), password := None, encryption := NoEncryption)
  }

  method CopyHeader(fh: FileHeader, newPassword: bytes, change: Overridable -> Overridable) returns (cell: HeaderCell)
    ensures fresh(cell) && cell.fh == CopiedHeader(fh, newPassword, change)
  {
    hide Remove;
    cell := new HeaderCell(fh);
    var extra := RemoveExtraField(fh.extra, ZIP64_EXTRA_ID);
    cell.fh := cell.fh.(extra := extra);
    cell.fh := WithOverrides(cell.fh, change(Overrides(cell.fh)));
    if newPassword != [] && fh.IsEncrypted() {
      cell.SetPassword(newPassword);
      cell.SetEncryptionMethod(StandardEncryption);
    } else {
      cell.fh := cell.fh.(flags := ClearBit0(cell.fh.flags), password := None, encryption := NoEncryption);
    }
  }

  // ---------------------------------------------------------------- what a copy is

  /** The payload of a part without its descriptor. */
  function SourcePayload(fh: FileHeader, rest: bytes): bytes {
    if fh.HasDataDescriptor() then Strip(rest, true).0 else rest[..Min(fh.csize, |rest|)]
  }

  function SourceCheck(fh: FileHeader): byte {
    ZipCrypto.CheckBytes(fh.flags, fh.modTime, fh.crc).1
  }

  /** The deciphered payload, or the reason for which a part is refused before anything is written. */
  function SourceData(fh: FileHeader, rest: bytes, oldPassword: bytes): Result<bytes> {
    if fh.IsEncrypted() && fh.compMethod == WINZIP_AES_METHOD then Err(ErrAesSource)
    else if fh.IsEncrypted() && oldPassword == [] then Err(ErrPassword)
    else if !fh.HasDataDescriptor() && fh.csize >= TWO63 then Err(ErrFormat)
    else if fh.IsEncrypted() then ZipCrypto.ZipOpen(oldPassword, SourceCheck(fh), true, SourcePayload(fh, rest))
    else Ok(SourcePayload(fh, rest))
  }

  /** Checksum and content size of the copy: the descriptor's, or the local
      header's; missing when the part is incomplete. */
  function SourceSums(fh: FileHeader, rest: bytes): Result<(uint32, uint64)> {
    if fh.HasDataDescriptor() then
      var d := Strip(rest, true).1;
      if d.Some? then Ok((d.value.crc, d.value.usize)) else Err(ErrNoDescriptor)
    else if fh.csize > |rest| then Err(UnexpectedEof) else Ok((fh.crc, fh.usize))
  }

  /** Why a part is not copied, in the order in which that is found out. */
  function CopyError(lib: Lib, detached: bool, input: bytes, last: Error, oldPassword: bytes, newPassword: bytes,
                     change: Overridable -> Overridable): Option<Error> {
    match LocalFile(input, last)
    case Err(e) => Some(e)
    case Ok((fh, rest)) =>
      match SourceData(fh, rest, oldPassword)
      case Err(e) => Some(e)
      case Ok(_) =>
        if detached then Some(ErrDetached) else
        match CreateError(lib, CopiedHeader(fh, newPassword, change), true)
        case Some(e) => Some(e)
        case None => if SourceSums(fh, rest).Err? then Some(SourceSums(fh, rest).error) else None
  }

  /** The entry that a copy comes to, whatever the lengths of the writes. */
  ghost predicate IsCopy(job: Job, input: bytes, last: Error, oldPassword: bytes, newPassword: bytes,
                         change: Overridable -> Overridable, rnd: nat -> byte) {
    match LocalFile(input, last)
    case Err(_) => false
    case Ok((fh, rest)) =>
      && SourceData(fh, rest, oldPassword) == Ok(Flatten(job.writes))
      && job.fh == CopiedHeader(fh, newPassword, change) && job.raw && job.rnd == rnd
      && SourceSums(fh, rest) == Ok((job.crc, job.usize))
  }

  // ---------------------------------------------------------------- the reading layers

  /** A payload reader, with a deciphering reader over it when the source is encrypted. */
  datatype Layers = Layers(pr: PayloadReader, zd: ZipDecryptReader?) {
    ghost function Repr(): set<object> {
      if zd == null then pr.repr else zd.repr
    }

    ghost predicate Owned() {
      && pr in Repr() && (pr.stripper != null ==> pr.stripper in Repr())
      && (zd != null ==> zd in Repr())
    }

    ghost predicate Ready()
      reads pr, zd, Repr()
    {
      if zd == null then pr.Valid() else zd.Valid() && zd.r == pr && zd.headerDone && zd.err == None
    }

    ghost function Out(): bytes
      reads pr, zd
    {
      if zd == null then pr.out else zd.out
    }

    ghost function All(): Result<bytes> {
      if zd == null then Ok(pr.Total()) else zd.Opened()
    }

    ghost function Fuel(): nat
      requires Ready()
      reads pr, zd, Repr()
    {
      if zd == null then pr.Fuel() else zd.Fuel()
    }

    /** What has been delivered is the front of what the source holds. */
    lemma Delivered()
      requires Ready()
      ensures All().Ok? && Out() <= All().value
    {
      hide PayloadReader.Total, ZipCrypto.InitKeys, ZipCrypto.Decrypted, ZipCrypto.KeysAfter;
      if zd != null {
        DecipheredFront(zd.password, zd.check, zd.verify, pr.out, pr.Total());
      }
    }

    method Read(n: nat) returns (p: bytes, st: Status)
      requires Ready()
      modifies Repr()
      ensures Ready() && Out() == old(Out()) + p
      ensures st.End? && st.error != Eof ==> st.error == pr.src.last
      ensures st == End(Eof) ==> All() == Ok(Out()) && pr.out == pr.Total()
      ensures st == End(Eof) && pr.stripper != null ==> pr.stripper.desc == Strip(pr.input, true).1
      ensures n > 0 && st.More? ==> Fuel() < old(Fuel())
    {
      hide PayloadReader.Valid, ZipDecryptReader.Valid, PayloadReader.Total, Strip, ZipCrypto.ZipOpen;
      if zd == null {
        p, st := pr.Read(n);
      } else {
        p, st := zd.Read(n);
      }
    }
  }

  /** The error is that of what was asked for, or the source's own. */
  predicate Failure<T(==)>(asked: Result<T>, last: Error, e: Error) {
    asked == Err(e) || (last != Eof && e == last)
  }

  lemma DecipheredFront(password: bytes, check: byte, verify: bool, front: bytes, payload: bytes)
    requires ZipCrypto.HEADER_LEN <= |front| && front <= payload && ZipCrypto.ZipOpen(password, check, verify, payload).Ok?
    ensures ZipCrypto.Decrypted(ZipCrypto.InitKeys(password), front)[ZipCrypto.HEADER_LEN..]
            <= ZipCrypto.ZipOpen(password, check, verify, payload).value
  {
    hide ZipCrypto.InitKeys, ZipCrypto.Decrypted, ZipCrypto.KeysAfter;
    var k := ZipCrypto.InitKeys(password);
    assert payload == front + payload[|front|..];
    ZipCrypto.DecryptAppend(k, front, payload[|front|..]);
  }

  /** Sets up the layers; a wrong password is found out here. */
  method OpenSource(src: Source, fh: FileHeader, oldPassword: bytes) returns (r: Result<Layers>)
    modifies src
    ensures SourceData(fh, old(src.rest), oldPassword).Err? ==> r.Err?
    ensures r.Err? ==> Failure(SourceData(fh, old(src.rest), oldPassword), src.last, r.error)
    ensures r.Ok? ==>
      && r.value.Ready() && r.value.Owned() && r.value.Out() == [] && fresh(r.value.Repr() - {src})
      && r.value.All() == SourceData(fh, old(src.rest), oldPassword)
      && r.value.pr.src == src && r.value.pr.input == old(src.rest)
      && (fh.HasDataDescriptor() <==> r.value.pr.stripper != null)
      && (!fh.HasDataDescriptor() ==> r.value.pr.limit == fh.csize)
  {
    hide Strip, ZipCrypto.ZipOpen, ZipCrypto.CheckBytes, PayloadReader.Valid, ZipDecryptReader.Valid;
    if fh.IsEncrypted() {
      if fh.compMethod == WINZIP_AES_METHOD {
        return Err(ErrAesSource);
      }
      if oldPassword == [] {
        return Err(ErrPassword);
      }
    }
    if !fh.HasDataDescriptor() && fh.csize >= TWO63 {
      return Err(ErrFormat);
    }
    var pr;
    if fh.HasDataDescriptor() {
      pr := new PayloadReader.Stripped(src);
    } else {
      pr := new PayloadReader.Limited(src, fh.csize);
    }
    if !fh.IsEncrypted() {
      return Ok(Layers(pr, null));
    }
    var zd := new ZipDecryptReader(pr, oldPassword, SourceCheck(fh), true);
    var failed := zd.ReadHeader();
    if failed.Some? {
      return Err(failed.value);
    }
    return Ok(Layers(pr, zd));
  }

  // ---------------------------------------------------------------- copying

  /** `io.Copy` from the layers to the entry that is open. */
  method CopyAll(w: Writer, l: Layers) returns (e: Option<Error>)
    requires w.Valid() && !w.detached && w.Open() && w.last.Current().writes == []
    requires l.Ready() && l.Out() == [] && l.Repr() !! w.repr && l.Owned()
    modifies l.Repr(), w.last.repr
    ensures w.Valid() && w.Open() && w.jobs == old(w.jobs)
    ensures w.Kept(old(w.dir), old(w.last), old(w.repr), old(w.closed), old(w.base))
    ensures w.last.Current() == old(w.last.Current()).(writes := w.last.Current().writes)
    ensures l.All().Ok? && Flatten(w.last.Current().writes) <= l.All().value
    ensures e == None ==> l.Ready() && l.All() == Ok(Flatten(w.last.Current().writes)) && l.pr.out == l.pr.Total()
    ensures e == None && l.pr.stripper != null ==> l.pr.stripper.desc == Strip(l.pr.input, true).1
    ensures e.Some? ==> l.pr.src.last != Eof && e.value == l.pr.src.last
  {
    hide Strip, Layers.Ready, Layers.Out, Layers.All, Layers.Fuel, FileWriter.Valid, FileWriter.Current, Writer.Valid;
    hide Writer.Shape, PayloadReader.Total;
    while true
      invariant w.Valid() && w.Open() && w.jobs == old(w.jobs)
      invariant w.Kept(old(w.dir), old(w.last), old(w.repr), old(w.closed), old(w.base))
      invariant l.Ready() && l.Out() == Flatten(w.last.Current().writes)
      invariant w.last.Current() == old(w.last.Current()).(writes := w.last.Current().writes)
      decreases l.Fuel()
    {
      var st := CopyStep(w, l);
      if st.End? {
        l.Delivered();
        return if st.error == Eof then None else Some(st.error);
      }
    }
  }

  method CopyStep(w: Writer, l: Layers) returns (st: Status)
    requires w.Valid() && !w.detached && w.Open()
    requires l.Ready() && l.Out() == Flatten(w.last.Current().writes) && l.Repr() !! w.repr && l.Owned()
    modifies l.Repr(), w.last.repr
    ensures w.Valid() && w.Open() && w.jobs == old(w.jobs)
    ensures w.Kept(old(w.dir), old(w.last), old(w.repr), old(w.closed), old(w.base))
    ensures w.last.Current() == old(w.last.Current()).(writes := w.last.Current().writes)
    ensures l.Ready() && l.Out() == Flatten(w.last.Current().writes)
    ensures st == End(Eof) ==> l.All() == Ok(l.Out()) && l.pr.out == l.pr.Total()
    ensures st == End(Eof) && l.pr.stripper != null ==> l.pr.stripper.desc == Strip(l.pr.input, true).1
    ensures st.End? && st.error != Eof ==> st.error == l.pr.src.last
    ensures st.More? ==> l.Fuel() < old(l.Fuel())
  {
    hide Strip, Layers.Ready, Layers.Out, Layers.All, Layers.Fuel, Layers.Owned, FileWriter.Valid, FileWriter.Current;
    hide Writer.Valid, PayloadReader.Total;
    ghost var past := w.last.Current().writes;
    var p;
    p, st := ReadBeside(w, l);
    FlattenSnoc(past, p);
    if p != [] {
      WriteBeside(w, l, p);
    } else {
      Whole(Flatten(past));
    }
  }

  /** Reading leaves the writer alone. */
  method ReadBeside(w: Writer, l: Layers) returns (p: bytes, st: Status)
    requires w.Valid() && w.Open() && l.Ready() && l.Repr() !! w.repr
    modifies l.Repr()
    ensures w.Valid() && w.Open() && w.jobs == old(w.jobs)
    ensures w.Kept(old(w.dir), old(w.last), old(w.repr), old(w.closed), old(w.base))
    ensures w.last.Current() == old(w.last.Current())
    ensures l.Ready() && l.Out() == old(l.Out()) + p
    ensures st == End(Eof) ==> l.All() == Ok(l.Out()) && l.pr.out == l.pr.Total()
    ensures st == End(Eof) && l.pr.stripper != null ==> l.pr.stripper.desc == Strip(l.pr.input, true).1
    ensures st.End? && st.error != Eof ==> st.error == l.pr.src.last
    ensures st.More? ==> l.Fuel() < old(l.Fuel())
  {
    hide Strip, Layers.Ready, Layers.Out, Layers.All, Layers.Fuel, FileWriter.Valid, Writer.Valid, PayloadReader.Total;
    w.Owns();
    p, st := l.Read(32768);
  }

  /** Writing leaves the reading layers alone. */
  method WriteBeside(w: Writer, l: Layers, p: bytes)
    requires w.Valid() && w.Open() && l.Ready() && l.Repr() !! w.repr && l.Owned()
    modifies w.last.repr
    ensures w.Valid() && w.Open() && w.jobs == old(w.jobs)
    ensures w.Kept(old(w.dir), old(w.last), old(w.repr), old(w.closed), old(w.base))
    ensures w.last.Current() == old(w.last.Current()).(writes := old(w.last.Current()).writes + [p])
    ensures l.Ready() && l.Out() == old(l.Out()) && l.pr.out == old(l.pr.out) && l.Fuel() == old(l.Fuel())
    ensures l.pr.stripper != null ==> l.pr.stripper.desc == old(l.pr.stripper.desc)
  {
    hide Layers.Ready, Layers.Fuel, FileWriter.Valid, FileWriter.Current, Writer.Valid;
    w.Owns();
    var _ := w.WriteLast(p);
  }

  /** What a limited reader has left at its end is what the source was short of. */
  lemma LeftOver(l: Layers)
    requires l.Ready() && l.pr.stripper == null && l.pr.out == l.pr.Total()
    ensures l.pr.left == 0 <==> l.pr.limit <= |l.pr.input|
  {
    hide ZipDecryptReader.Deciphered, ZipCrypto.ZipOpen;
  }

  /** Creating the entry leaves the reading layers alone. */
  method CreateBeside(w: Writer, l: Layers, cell: HeaderCell, rnd: nat -> byte) returns (r: Result<()>)
    requires w.Valid() && l.Ready() && l.Owned()
    requires l.Repr() !! w.repr && cell !in w.repr && cell !in l.Repr()
    modifies w.repr, cell
    ensures w.Valid() && l.Ready() && l.Out() == old(l.Out()) && w.closed == old(w.closed) && w.base == old(w.base)
    ensures fresh(w.repr - old(w.repr) - {cell})
    ensures r.Ok? ==>
      && !w.detached && CreateError(w.lib, old(cell.fh), true) == None && w.Open() && l.Repr() !! w.repr
      && w.jobs == old(w.jobs) + (if old(w.Open()) then [old(w.last.Current())] else [])
      && w.last.Current() == Job(old(cell.fh), true, [], rnd, old(cell.fh).crc, old(cell.fh).usize)
      && w.last.repr <= w.repr
    ensures r.Err? ==>
      && !w.Open() && w.dir == old(w.dir)
      && if w.detached then r.error == ErrDetached && w.jobs == old(w.jobs)
         else && CreateError(w.lib, old(cell.fh), true) == Some(r.error)
              && w.jobs == old(w.jobs) + (if old(w.Open()) then [old(w.last.Current())] else [])
  {
    hide Layers.Ready, FileWriter.Valid, FileWriter.Current, Writer.Valid, CreateError;
    var _ :- w.Create(cell, true, rnd);
    w.Owns();
    r := Ok(());
  }

  /** An entry left open when the copy failed half-way: the bytes delivered so
      far, all of them if the source itself did not fail, under the checksum
      and the size of the source's local header. */
  ghost predicate HalfCopied(job: Job, g: FileHeader, rnd: nat -> byte, fh: FileHeader, all: Result<bytes>, last: Error) {
    && job == Job(g, true, job.writes, rnd, fh.crc, fh.usize)
    && all.Ok? && Flatten(job.writes) <= all.value && (last == Eof ==> Flatten(job.writes) == all.value)
  }

  /** Creates the entry, copies, and completes checksum and sizes. */
  method CopyOpened(w: Writer, l: Layers, cell: HeaderCell, rnd: nat -> byte, ghost fh: FileHeader) returns (r: Result<()>)
    requires w.Valid() && l.Ready() && l.Out() == [] && l.Owned()
    requires l.Repr() !! w.repr && cell !in w.repr && cell !in l.Repr()
    requires (fh.HasDataDescriptor() <==> l.pr.stripper != null) && (!fh.HasDataDescriptor() ==> l.pr.limit == fh.csize)
    requires cell.fh.crc == fh.crc && cell.fh.usize == fh.usize
    modifies w.repr, cell, l.Repr()
    ensures w.Valid() && w.closed == old(w.closed) && w.base == old(w.base) && fresh(w.repr - old(w.repr) - {cell})
    ensures r.Ok? ==>
      && !w.detached && CreateError(w.lib, old(cell.fh), true) == None && SourceSums(fh, l.pr.input).Ok? && !w.Open()
      && w.jobs != [] && w.jobs[..|w.jobs| - 1] == old(w.jobs) + (if old(w.Open()) then [old(w.last.Current())] else [])
      && var job := w.jobs[|w.jobs| - 1];
         var sums := SourceSums(fh, l.pr.input).value;
         job == Job(old(cell.fh), true, job.writes, rnd, sums.0, sums.1) && l.All() == Ok(Flatten(job.writes))
    ensures r.Err? ==>
      if w.detached then r.error == ErrDetached && w.jobs == old(w.jobs) && !w.Open() && w.dir == old(w.dir)
      else
        && w.jobs == old(w.jobs) + (if old(w.Open()) then [old(w.last.Current())] else [])
        && match CreateError(w.lib, old(cell.fh), true)
           case Some(e) => r.error == e && !w.Open() && w.dir == old(w.dir)
           case None => && w.Open() && HalfCopied(w.last.Current(), old(cell.fh), rnd, fh, l.All(), l.pr.src.last)
                        && Failure(SourceSums(fh, l.pr.input), l.pr.src.last, r.error)
  {
    hide Strip, Layers.Ready, Layers.Out, Layers.All, Layers.Owned, FileWriter.Valid, FileWriter.Current;
    hide Writer.Valid, CreateError, PayloadReader.Total;
    var _ :- CreateBeside(w, l, cell, rnd);
    ghost var earlier := w.jobs;
    var failed := CopyAll(w, l);
    if failed.Some? {
      return Err(failed.value);
    }
    if l.pr.stripper == null {
      LeftOver(l);
      if l.pr.left != 0 {
        return Err(UnexpectedEof);
      }
    } else {
      if l.pr.stripper.desc == None {
        return Err(ErrNoDescriptor);
      }
      var d := l.pr.stripper.desc.value;
      w.Owns();
      w.DescribeLast(d.crc, d.csize, d.usize);
    }
    w.Owns();
    w.CloseLast();
    assert w.jobs[..|w.jobs| - 1] == earlier;
    r := Ok(());
  }

  /** The writer is what it was. */
  twostate predicate Untouched(w: Writer)
    reads w, w.cw, w.last
  {
    && w.jobs == old(w.jobs) && w.Open() == old(w.Open()) && w.cw.data == old(w.cw.data)
    && w.Kept(old(w.dir), old(w.last), old(w.repr), old(w.closed), old(w.base))
  }

  /** What a failure leaves behind once the layers stand: the entry that was
      open before is closed, and unless the new one cannot be created, it stays
      open, half-copied, and will be in the archive when the writer is closed. */
  twostate predicate LeftBehind(w: Writer, fh: FileHeader, g: FileHeader, rnd: nat -> byte, data: Result<bytes>,
                                sums: Result<(uint32, uint64)>, last: Error, e: Error)
    reads w, w.last, if w.last == null then {} else {w.last.cell}
  {
    if w.detached then e == ErrDetached && w.jobs == old(w.jobs) && !w.Open() && w.dir == old(w.dir)
    else
      && w.jobs == old(w.jobs) + (if old(w.Open()) then [old(w.last.Current())] else [])
      && match CreateError(w.lib, g, true)
         case Some(x) => e == x && !w.Open() && w.dir == old(w.dir)
         case None => w.Open() && HalfCopied(w.last.Current(), g, rnd, fh, data, last) && Failure(sums, last, e)
  }

  /** How things stand after a failure behind the local header. */
  twostate predicate BodyFailed(w: Writer, fh: FileHeader, rest: bytes, last: Error, oldPassword: bytes, g: FileHeader,
                                rnd: nat -> byte, e: Error)
    reads w, w.cw, w.last, if w.last == null then {} else {w.last.cell}
  {
    var data := SourceData(fh, rest, oldPassword);
    || (Untouched(w) && Failure(data, last, e))
    || (data.Ok? && LeftBehind(w, fh, g, rnd, data, SourceSums(fh, rest), last, e))
  }

  /** Copies what follows a local header. */
  method CopyBody(w: Writer, src: Source, fh: FileHeader, oldPassword: bytes, newPassword: bytes,
                  change: Overridable -> Overridable, rnd: nat -> byte) returns (r: Result<()>)
    requires w.Valid() && src !in w.repr
    modifies src, w.repr
    ensures w.Valid() && w.closed == old(w.closed) && w.base == old(w.base) && fresh(w.repr - old(w.repr))
    ensures r.Ok? ==>
      && !w.detached && CreateError(w.lib, CopiedHeader(fh, newPassword, change), true) == None && !w.Open()
      && SourceSums(fh, old(src.rest)).Ok?
      && w.jobs != [] && w.jobs[..|w.jobs| - 1] == old(w.jobs) + (if old(w.Open()) then [old(w.last.Current())] else [])
      && var job := w.jobs[|w.jobs| - 1];
         var sums := SourceSums(fh, old(src.rest)).value;
         job == Job(CopiedHeader(fh, newPassword, change), true, job.writes, rnd, sums.0, sums.1)
         && SourceData(fh, old(src.rest), oldPassword) == Ok(Flatten(job.writes))
    ensures r.Err? ==>
      BodyFailed(w, fh, old(src.rest), src.last, oldPassword, CopiedHeader(fh, newPassword, change), rnd, r.error)
  {
    hide SourceData, SourceSums, CopiedHeader, CreateError, Writer.Valid, Layers.Ready, Layers.Owned;
    hide Layers.Out, Layers.All, FileWriter.Current, HalfCopied, Failure;
    var cell := CopyHeader(fh, newPassword, change);
    CopiedSums(fh, newPassword, change);
    w.OwnsOutput();
    var l :- OpenSource(src, fh, oldPassword);
    r := CopyOpened(w, l, cell, rnd, fh);
  }

  /** How things stand after a failed copy: a part whose data cannot be had leaves the writer as it was. */
  twostate predicate CopyFailed(w: Writer, input: bytes, last: Error, oldPassword: bytes, newPassword: bytes,
                                change: Overridable -> Overridable, rnd: nat -> byte, e: Error)
    reads w, w.cw, w.last, if w.last == null then {} else {w.last.cell}
  {
    match LocalFile(input, last)
    case Err(x) => Untouched(w) && e == x
    case Ok((fh, rest)) => BodyFailed(w, fh, rest, last, oldPassword, CopiedHeader(fh, newPassword, change), rnd, e)
  }

  /** Copies one part. With a source that does not fail, the outcome is fixed
      by the part and the passwords, however it is delivered; a part whose data
      cannot be had leaves the writer as it was, and a later failure may leave
      a half-copied entry open. */
  method CopyRawPart(w: Writer, src: Source, oldPassword: bytes, newPassword: bytes, change: Overridable -> Overridable,
                     rnd: nat -> byte) returns (r: Result<()>)
    requires w.Valid() && src !in w.repr
    modifies src, w.repr
    ensures w.Valid() && w.closed == old(w.closed) && w.base == old(w.base) && fresh(w.repr - old(w.repr))
    ensures src.last == Eof ==>
      match CopyError(w.lib, w.detached, old(src.rest), Eof, oldPassword, newPassword, change)
      case Some(e) => r == Err(e)
      case None => r.Ok?
    ensures r.Ok? ==>
      && CopyError(w.lib, w.detached, old(src.rest), src.last, oldPassword, newPassword, change) == None && !w.Open()
      && w.jobs != [] && w.jobs[..|w.jobs| - 1] == old(w.jobs) + (if old(w.Open()) then [old(w.last.Current())] else [])
      && IsCopy(w.jobs[|w.jobs| - 1], old(src.rest), src.last, oldPassword, newPassword, change, rnd)
    ensures r.Err? ==> CopyFailed(w, old(src.rest), src.last, oldPassword, newPassword, change, rnd, r.error)
  {
    hide LocalFile, SourceData, SourceSums, CopiedHeader, CreateError, Writer.Valid, FileWriter.Current;
    w.OwnsOutput();
    var fh :- ReadLocalFileHeader(src);
    r := CopyBody(w, src, fh, oldPassword, newPassword, change, rnd);
  }

  lemma CopiedSums(fh: FileHeader, newPassword: bytes, change: Overridable -> Overridable)
    ensures var g := CopiedHeader(fh, newPassword, change); g.crc == fh.crc && g.usize == fh.usize
  {
    CopiedKeeps(fh, newPassword, change);
  }

  lemma CopiedKeeps(fh: FileHeader, newPassword: bytes, change: Overridable -> Overridable)
    ensures var g := CopiedHeader(fh, newPassword, change);
            && g.crc == fh.crc && g.usize == fh.usize && g.compMethod == fh.compMethod && g.flags / 2 == fh.flags / 2
            && Overrides(g) == change(Overrides(fh.(extra := Remove(fh.extra, ZIP64_EXTRA_ID))))
            && (if newPassword != [] && fh.IsEncrypted()
                then g.password == Some(newPassword) && g.encryption == StandardEncryption && g.IsEncrypted()
                else g.password == None && !g.IsEncrypted())
  {
    hide Remove;
  }
}
