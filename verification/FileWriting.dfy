/** `fileWriter`: one entry being written, through compressor and encryption layer, to its output. */
module FileWriting {
  import opened Bytes
  import opened Header
  import opened ExtraFields
  import opened Streams
  import opened Archive
  import opened LocalPart
  import opened Ctr
  import opened Aes
  import opened Jobs
  import ZipCrypto

  /** The check bytes of a created header are fixed by its time: it announces a descriptor. */
  ghost predicate SameCheck(g: FileHeader, h: FileHeader) {
    g.flags == h.flags && g.modTime == h.modTime && h.flags % 16 >= 8
  }

  lemma SameEncHeader(rnd: nat -> byte, g: FileHeader, h: FileHeader)
    requires SameCheck(g, h)
    ensures ZipCrypto.EncHeader(rnd, g) == ZipCrypto.EncHeader(rnd, h)
  {
  }

  /** The encryption layer of an entry: none, ZipCrypto or AES. */
  class EncSink {
    const part: PartCounter
    const zc: ZipCrypto.Writer?
    const ew: EncryptionWriter?
    ghost const lib: Lib
    ghost const h: FileHeader // the created header
    ghost const rnd: nat -> byte
    ghost var sent: bytes

    ghost const core: set<object> // everything but the output
    ghost const repr: set<object>

    ghost predicate Shape() {
      && this in core && core <= repr && part in repr && part.w in repr
      && (zc != null ==> zc in core && zc.z in core)
      && (ew != null ==> ew in core && ew.es in core && ew.es.ctr in core && ew.es.out in core && ew.mac in core)
    }

    ghost predicate Valid()
      reads this, core
    {
      && Shape()
      && (zc != null <==> h.password.Some? && h.encryption == StandardEncryption)
      && (ew != null <==> h.WritesAes())
      && (zc != null ==> && zc.Valid() && zc.w == part && zc.rnd == rnd && zc.password == h.password.value
                         && zc.sent == sent && (!zc.first ==> zc.header == ZipCrypto.EncHeader(rnd, h)))
      && (ew != null ==> && ew.Valid() && ew.w == part && ew.sent == sent
                         && ew.salt == Salt(h, rnd) && ew.pwv == Pwv(lib, h.password.value, ew.salt, KeyLen(h.strength))
                         && ew.es.e == EncFn(lib, h, rnd)
                         && ew.mac.key == AuthKey(lib, h.password.value, ew.salt, KeyLen(h.strength)))
    }

    /** The bytes put out so far. */
    ghost function Emitted(): bytes
      requires Shape()
      reads this, core
    {
      if zc != null then zc.Emitted() else if ew != null then ew.Emitted() else sent
    }

    /** Whether nothing is held back any more. */
    ghost predicate Started()
      requires Shape()
      reads this, core
    {
      (zc != null ==> !zc.first) && (ew != null ==> !ew.first)
    }

    constructor (lib: Lib, part: PartCounter, cell: HeaderCell, rnd: nat -> byte)
      ensures Valid() && sent == [] && Emitted() == []
      ensures this.lib == lib && this.part == part && h == cell.fh && this.rnd == rnd
      ensures fresh(core) && Shape() && repr == core + {part, part.w}
      ensures zc != null ==> zc.cell == cell
    {
      hide KeyLen, Salt, Pwv, AuthKey, EncKey, BlockFn, CtrXor, ZipCrypto.ZipPayload, ZipCrypto.EncHeader;
      hide ZipCrypto.Writer.Valid, EncryptionWriter.Valid;
      var fh := cell.fh;
      var z: ZipCrypto.Writer?, e: EncryptionWriter? := null, null;
      ghost var layer: set<object> := {};
      if fh.password.Some? {
        if fh.encryption == StandardEncryption {
          z := new ZipCrypto.Writer(part, fh.password.value, cell, rnd);
          layer := {z, z.z};
        } else {
          e := new EncryptionWriter(part, lib, fh.password.value, Salt(fh, rnd), KeyLen(fh.strength));
          layer := {e, e.es, e.es.ctr, e.es.out, e.mac};
        }
      }
      this.part, this.lib, h, this.rnd, sent, zc, ew := part, lib, fh, rnd, [], z, e;
      core, repr := {this} + layer, {this} + layer + {part, part.w};
    }

    method Write(p: bytes) returns (ghost delta: bytes)
      requires Valid() && (zc != null ==> SameCheck(zc.cell.fh, h))
      modifies repr
      ensures Valid() && Started() && sent == old(sent) + p
      ensures Emitted() == old(Emitted()) + delta
      ensures part.w.data == old(part.w.data) + delta
      ensures part.w.count == old(part.w.count) + |delta| && part.count == old(part.count) + |delta|
    {
      hide ZipCrypto.EncHeader, ZipCrypto.ZipPayload, CtrXor, KeyLen, Salt, Pwv, AuthKey, EncFn;
      hide ZipCrypto.Writer.Valid, EncryptionWriter.Valid, ZipCrypto.Writer.Emitted, EncryptionWriter.Emitted;
      hide SameCheck;
      if zc != null {
        SameEncHeader(rnd, zc.cell.fh, h);
        delta := zc.Write(p);
      } else if ew != null {
        delta := ew.Write(p);
      } else {
        part.Write(p);
        delta := p;
      }
      sent := sent + p;
    }

    method Close() returns (ghost delta: bytes)
      requires Valid() && (zc != null ==> SameCheck(zc.cell.fh, h))
      modifies repr
      ensures Valid() && Started() && sent == old(sent)
      ensures Emitted() == old(Emitted()) + delta
      ensures part.w.data == old(part.w.data) + delta
      ensures part.w.count == old(part.w.count) + |delta| && part.count == old(part.count) + |delta|
    {
      hide ZipCrypto.EncHeader, ZipCrypto.ZipPayload, CtrXor, KeyLen, Salt, Pwv, AuthKey, EncFn;
      hide ZipCrypto.Writer.Valid, EncryptionWriter.Valid, ZipCrypto.Writer.Emitted, EncryptionWriter.Emitted;
      hide SameCheck;
      if zc != null {
        SameEncHeader(rnd, zc.cell.fh, h);
        delta := zc.Close();
      } else if ew != null {
        delta := ew.Close();
      } else {
        delta := [];
        Whole(sent);
        Whole(part.w.data);
      }
    }

    /** Once started, the output is the encryption of everything sent. */
    lemma StartedMeans()
      requires Valid() && Started()
      ensures Emitted() == Enciphered(lib, h, rnd, sent)
      ensures ew != null ==> AuthTag(lib, ew.mac.key, ew.mac.data) == EntryTag(lib, h, rnd, sent)
      ensures ew == null ==> EntryTag(lib, h, rnd, sent) == []
    {
      hide ZipCrypto.EncHeader, ZipCrypto.ZipPayload, CtrXor, AuthTag, Derived;
    }
  }

  class FileWriter {
    const lib: Lib
    const cell: HeaderCell
    const zipw: CountWriter
    const sink: EncSink
    const raw: bool
    const compMethod: uint16 // the compressor's method and level
    const level: int
    var rawCount: int
    var hashed: bytes        // what the two checksums have been fed
    var writes: seq<bytes>   // the compressor's past
    var closed: bool
    ghost const fh: FileHeader // the caller's header
    ghost const rnd: nat -> byte
    ghost const base: bytes    // the output before the local header

    ghost const repr: set<object>

    ghost predicate Shape() {
      && this in repr && cell in repr && zipw in repr && sink in repr && sink.repr <= repr
      && sink.Shape() && cell !in sink.repr && this !in sink.repr
    }

    /** What has reached the encryption layer. */
    ghost function Streamed(): bytes
      reads this
    {
      if raw then Flatten(writes) else Compressed(lib, compMethod, level, writes)
    }

    /** The entry as its writes and its header now stand. */
    ghost function Current(): Job
      reads this, cell
    {
      Job(fh, raw, writes, rnd, cell.fh.crc, cell.fh.usize)
    }

    /** Only checksum and sizes of the header may have changed since it was created. */
    ghost predicate HeaderKept()
      reads cell
    {
      var h := Created(fh);
      cell.fh == h.(crc := cell.fh.crc, csize := cell.fh.csize, usize := cell.fh.usize)
    }

    /** How the components are connected; this never changes. */
    ghost predicate Wired() {
      && sink.part.w == zipw && sink.lib == lib && sink.h == Created(fh) && sink.rnd == rnd
      && (sink.zc != null ==> sink.zc.cell == cell)
      && Shape()
      && (!raw ==> compMethod == fh.compMethod && level == fh.level)
      && LocalHeader(Created(fh)).Ok?
    }

    /** While the entry is open: everything sent so far is in the output, behind its local header. */
    ghost predicate Running()
      requires Wired()
      reads this, repr
    {
      && sink.Valid() && sink.sent == Streamed() && HeaderKept() && InOutput()
      && rawCount == |Flatten(writes)|
      && (!raw ==> hashed == Flatten(writes))
    }

    ghost predicate Valid()
      reads this, repr
    {
      Wired() && (!closed ==> Running())
    }

    constructor (lib: Lib, cell: HeaderCell, zipw: CountWriter, sink: EncSink, raw: bool, compMethod: uint16, level: int,
                 ghost fh: FileHeader, ghost base: bytes)
      requires sink.part.w == zipw && sink.lib == lib && sink.h == Created(fh) && sink.Valid() && sink.Shape()
      requires sink.zc != null ==> sink.zc.cell == cell
      requires sink.sent == [] && sink.Emitted() == [] && sink.part.count == 0
      requires cell !in sink.repr && forall o :: o in sink.repr ==> allocated(o)
      requires cell.fh == Created(fh) && (!raw ==> compMethod == fh.compMethod && level == fh.level)
      requires LocalHeader(Created(fh)).Ok? && zipw.data == base + LocalHeader(Created(fh)).value
      ensures Valid() && !closed && writes == [] && this.cell == cell && this.zipw == zipw && this.sink == sink
      ensures this.fh == fh && this.raw == raw && rnd == sink.rnd && this.lib == lib && this.base == base
      ensures repr == {this, cell, zipw, sink} + sink.repr
    {
      hide Created, LocalHeader, EncSink.Valid, EncSink.Emitted;
      this.lib, this.cell, this.zipw, this.sink, this.raw := lib, cell, zipw, sink, raw;
      this.compMethod, this.level := compMethod, level;
      rawCount, hashed, writes, closed := 0, [], [], false;
      this.fh, rnd, this.base := fh, sink.rnd, base;
      repr := {this, cell, zipw, sink} + sink.repr;
      new;
      Whole(zipw.data);
    }

    method Write(p: bytes) returns (r: Result<int>)
      requires Valid()
      modifies repr
      ensures Valid() && closed == old(closed)
      ensures closed ==> r == Err(ErrWriteClosed) && zipw.data == old(zipw.data) && zipw.count == old(zipw.count)
      ensures !closed ==> && r == Ok(|p|) && writes == old(writes) + [p]
                          && zipw.count - |zipw.data| == old(zipw.count - |zipw.data|)
      ensures cell.fh == old(cell.fh)
    {
      if closed {
        return Err(ErrWriteClosed);
      }
      hide Valid;
      WriteOpen(p);
      return Ok(|p|);
    }

    method WriteOpen(p: bytes)
      requires Valid() && !closed
      modifies repr
      ensures Valid() && !closed && writes == old(writes) + [p] && cell.fh == old(cell.fh)
      ensures zipw.count - |zipw.data| == old(zipw.count - |zipw.data|)
    {
      hide Created, LocalHeader, CompStep, Compressed, Flatten, HeaderKept, EncSink.Valid, EncSink.Emitted, InOutput;
      // the compressor, or nothing in front of a raw entry
      var out := if raw then p else CompStep(lib, compMethod, level, writes, p);
      StreamStep(p);
      Pass(out);
      Record(p);
    }

    /** What all the encryption layer's output so far comes to. */
    ghost predicate InOutput()
      requires LocalHeader(Created(fh)).Ok? && sink.Shape()
      reads sink, sink.repr, zipw
    {
      && zipw.data == base + LocalHeader(Created(fh)).value + sink.Emitted()
      && sink.part.count == |sink.Emitted()|
    }

    /** Hands bytes to the encryption layer; a compressor with nothing to say does not call it. */
    method Pass(out: bytes)
      requires Valid() && !closed
      modifies sink.repr
      ensures sink.Valid() && sink.sent == old(sink.sent) + out && InOutput() && HeaderKept()
      ensures zipw.count - |zipw.data| == old(zipw.count - |zipw.data|)
    {
      hide Created, LocalHeader, Streamed, EncSink.Valid, EncSink.Emitted, EncSink.Started, SameCheck, HeaderKept;
      if raw || compMethod == STORE || out != [] {
        KeptChecks();
        ghost var h, before := LocalHeader(Created(fh)).value, sink.Emitted();
        ghost var delta := sink.Write(out);
        Assoc(base + h, before, delta);
      } else {
        Whole(sink.sent);
      }
    }

    /** Feeds the checksums and notes the write. */
    method Record(p: bytes)
      requires Shape() && LocalHeader(Created(fh)).Ok? && sink.Valid() && HeaderKept() && InOutput()
      ensures sink.Valid() && HeaderKept() && InOutput() && sink.sent == old(sink.sent)
      ensures zipw.data == old(zipw.data) && zipw.count == old(zipw.count) && cell.fh == old(cell.fh)
      modifies this`hashed, this`writes, this`rawCount
      ensures writes == old(writes) + [p] && rawCount == old(rawCount) + |p|
      ensures hashed == if raw then old(hashed) else old(hashed) + p
    {
      hide Created, LocalHeader, EncSink.Valid, InOutput, HeaderKept;
      if !raw {
        hashed := hashed + p;
      }
      writes := writes + [p];
      rawCount := rawCount + |p|;
    }

    lemma CanStart()
      requires Valid()
      ensures LocalHeader(Created(fh)).Ok?
    {
      hide Created, LocalHeader;
    }

    lemma KeptChecks()
      requires HeaderKept()
      ensures SameCheck(cell.fh, Created(fh))
    {
    }

    lemma StreamStep(p: bytes)
      ensures Flatten(writes + [p]) == Flatten(writes) + p
      ensures Compressed(lib, compMethod, level, writes + [p]) ==
              Compressed(lib, compMethod, level, writes) + CompStep(lib, compMethod, level, writes, p)
    {
      hide CompStep;
      FlattenSnoc(writes, p);
      assert (writes + [p])[..|writes|] == writes;
    }

    /** Closes compressor and encryption layer: everything sent is then in the output. */
    method Flush()
      requires Valid() && !closed
      modifies sink.repr
      ensures sink.Valid() && sink.Started() && sink.sent == StreamOf(lib, Current())
      ensures zipw.data == base + LocalHeader(Created(fh)).value + sink.Emitted()
      ensures sink.part.count == |sink.Emitted()|
      ensures zipw.count - |zipw.data| == old(zipw.count - |zipw.data|)
    {
      hide Created, LocalHeader, CompStep, CompEnd, Compressed, EncSink.Valid, EncSink.Emitted, EncSink.Started;
      hide SameCheck, HeaderKept;
      if !raw {
        Pass(CompEnd(lib, compMethod, level, writes));
      }
      ghost var h, before := LocalHeader(Created(fh)).value, sink.Emitted();
      KeptChecks();
      ghost var delta := sink.Close();
      Assoc(base + h, before, delta);
    }

    /** Completes the payload: for AES, the authentication code follows the ciphertext. */
    method FinishPayload()
      requires Valid() && !closed
      modifies sink.repr
      ensures zipw.data == base + LocalHeader(Created(fh)).value + JobPayload(lib, Current())
      ensures sink.part.count == |JobPayload(lib, Current())|
      ensures zipw.count - |zipw.data| == old(zipw.count - |zipw.data|)
    {
      hide Created, LocalHeader, Enciphered, EntryTag, StreamOf, AuthTag, Flatten;
      hide EncSink.Valid, EncSink.Emitted, EncSink.Started, HeaderKept;
      Flush();
      sink.StartedMeans();
      ghost var h := LocalHeader(Created(fh)).value;
      ghost var enciphered := sink.Emitted();
      if sink.ew != null {
        var authCode := AuthTag(lib, sink.ew.mac.key, sink.ew.mac.data);
        sink.part.Write(authCode);
        Assoc(base + h, enciphered, authCode);
      } else {
        Whole(enciphered);
      }
    }

    /** Completes the entry: the output gains exactly the part of the job, and
        the caller's header becomes the job's final header. */
    method Close() returns (r: Result<()>)
      requires Valid()
      modifies repr
      ensures Valid() && closed
      ensures old(closed) ==> r == Err(ErrClosedTwice) && cell.fh == old(cell.fh)
                              && zipw.data == old(zipw.data) && zipw.count == old(zipw.count)
      ensures !old(closed) ==>
        && r == Ok(())
        && zipw.data == base + ItemOf(lib, old(Current())).part
        && cell.fh == FinalHeaderOf(lib, old(Current()))
        && zipw.count - |zipw.data| == old(zipw.count - |zipw.data|)
    {
      if closed {
        return Err(ErrClosedTwice);
      }
      hide Created, LocalHeader, ItemOf, FinalHeaderOf, EncSink.Valid, EncSink.Shape, InOutput, HeaderKept, Streamed;
      CloseOpen();
      return Ok(());
    }

    method CloseOpen()
      requires Valid() && !closed
      modifies repr
      ensures closed
      ensures zipw.data == base + ItemOf(lib, old(Current())).part
      ensures cell.fh == FinalHeaderOf(lib, old(Current()))
      ensures zipw.count - |zipw.data| == old(zipw.count - |zipw.data|)
    {
      hide Created, LocalHeader, JobPayload, Descriptor, U64Of, FinalHeaderOf, Flatten, ItemOf;
      hide EncSink.Valid, EncSink.Shape, InOutput, HeaderKept, Streamed;
      ghost var job := Current();
      ghost var h, payload := LocalHeader(Created(fh)).value, JobPayload(lib, job);
      PartOf(lib, job);
      FinishPayload();
      closed := true;
      UpdateHeader(U64Of(sink.part.count), job);
      var dd := WriteDescriptor(cell.fh);
      zipw.Write(dd);
      AppendPart(base, h, payload, dd);
    }

    /** Checksum and sizes of a raw entry, put into its header while it is open. */
    method Describe(crc: uint32, csize: uint64, usize: uint64)
      requires Valid() && !closed
      modifies cell
      ensures Valid() && Current() == old(Current()).(crc := crc, usize := usize)
    {
      hide Created, LocalHeader, EncSink.Valid, EncSink.Emitted, Streamed, Flatten;
      cell.fh := cell.fh.(crc := crc, csize := csize, usize := usize);
    }

    method UpdateHeader(csize: uint64, ghost job: Job)
      requires HeaderKept() && job == Current() && csize == U64Of(|JobPayload(lib, job)|)
      requires rawCount == |Flatten(writes)| && (!raw ==> hashed == Flatten(writes))
      modifies cell
      ensures cell.fh == FinalHeaderOf(lib, job)
    {
      hide Created, JobPayload, U64Of;
      var h := cell.fh;
      if raw {
        h := h.(csize := csize);
      } else {
        h := h.(crc := lib.crc32(hashed), xxh3 := lib.xxh3(hashed), csize := csize, usize := U64Of(rawCount));
      }
      if h.WritesAes() {
        h := h.(crc := 0);
      }
      if h.IsZip64() {
        h := h.(csize32 := UINT32_MAX, usize32 := UINT32_MAX, readerVersion := ZIP_VERSION45);
      } else {
        h := h.(csize32 := h.csize, usize32 := h.usize);
      }
      CreatedXxh3(fh);
      cell.fh := h;
    }
  }

  lemma PartOf(lib: Lib, job: Job)
    requires LocalHeader(Created(job.fh)).Ok?
    ensures ItemOf(lib, job).part ==
      LocalHeader(Created(job.fh)).value + JobPayload(lib, job) + Descriptor(FinalHeaderOf(lib, job))
  {
  }

  lemma AppendPart(base: bytes, h: bytes, payload: bytes, d: bytes)
    ensures base + h + payload + d == base + (h + payload + d)
  {
    Assoc(base, h, payload);
    Assoc(base, h + payload, d);
  }

  lemma CreatedXxh3(fh: FileHeader)
    ensures Created(fh).xxh3 == fh.xxh3
  {
  }

  // ---------------------------------------------------------------- creating

  /** `newFileWriter` and `newRawFileWriter`: nothing is written unless everything is in order. */
  method NewFileWriter(lib: Lib, cell: HeaderCell, w: CountWriter, raw: bool, rnd: nat -> byte) returns (r: Result<FileWriter>)
    modifies cell, w
    ensures match CreateError(lib, old(cell.fh), raw)
            case Some(e) => r == Err(e) && w.data == old(w.data) && w.count == old(w.count)
            case None =>
              && r.Ok? && r.value.Valid() && !r.value.closed && r.value.writes == []
              && fresh(r.value) && fresh(r.value.repr - {cell, w})
              && r.value.cell == cell && r.value.zipw == w && r.value.lib == lib && r.value.base == old(w.data)
              && r.value.Current() == Job(old(cell.fh), raw, [], rnd, old(cell.fh).crc, old(cell.fh).usize)
              && w.count - |w.data| == old(w.count - |w.data|)
  {
    hide LocalHeader, AesRecord, SetBit3, KeepHighByte, FileWriter.Valid;
    var fh := cell.fh;
    cell.fh := Prepared(fh);
    if !raw && !HasCompressor(lib, fh.compMethod) {
      return Err(ErrAlgorithm);
    }
    if fh.WritesAes() {
      cell.fh := cell.fh.(extra := fh.extra + AesRecord(fh.strength, fh.compMethod), compMethod := WINZIP_AES_METHOD);
      if KeyLen(fh.strength) == 0 {
        return Err(ErrKeySize);
      }
    }
    if !raw && fh.compMethod == DEFLATE && !lib.levelOk(fh.level) {
      return Err(ErrLevel);
    }
    r := Start(lib, cell, w, raw, rnd, fh);
  }

  /** Sets up the encryption layer and writes the local header. */
  method Start(lib: Lib, cell: HeaderCell, w: CountWriter, raw: bool, rnd: nat -> byte, fh: FileHeader)
    returns (r: Result<FileWriter>)
    requires cell.fh == Created(fh)
    modifies w
    ensures match LocalHeader(Created(fh))
            case Err(e) => r == Err(e) && w.data == old(w.data) && w.count == old(w.count)
            case Ok(_) =>
              && r.Ok? && r.value.Valid() && !r.value.closed && r.value.writes == []
              && fresh(r.value) && fresh(r.value.repr - {cell, w})
              && r.value.cell == cell && r.value.zipw == w && r.value.lib == lib && r.value.base == old(w.data)
              && r.value.fh == fh && r.value.raw == raw && r.value.rnd == rnd
              && w.count - |w.data| == old(w.count - |w.data|)
  {
    hide LocalHeader, Created, EncSink.Valid, EncSink.Emitted;
    ghost var base := w.data;
    var part := new PartCounter(w);
    var sink := new EncSink(lib, part, cell, rnd);
    var _ :- WriteHeader(w, cell.fh);
    var fw := new FileWriter(lib, cell, w, sink, raw, fh.compMethod, fh.level, fh, base);
    return Ok(fw);
  }
}
