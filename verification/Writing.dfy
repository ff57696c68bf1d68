/** `Writer`: entries one after the other into one output, or detached parts and a directory for them. */
module Writing {
  import opened Bytes
  import opened Header
  import opened Streams
  import opened EndRecord
  import opened Archive
  import opened LocalPart
  import opened Jobs
  import opened FileWriting
  import opened Sorting

  // ---------------------------------------------------------------- values

  ghost predicate Startable(job: Job) {
    LocalHeader(Created(job.fh)).Ok?
  }

  ghost predicate AllStartable(jobs: seq<Job>) {
    forall i :: 0 <= i < |jobs| ==> Startable(jobs[i])
  }

  /** The entries that the given jobs leave in an archive. */
  ghost function ItemsOf(lib: Lib, jobs: seq<Job>): (items: seq<Item>)
    requires AllStartable(jobs)
    ensures |items| == |jobs| && forall i :: 0 <= i < |jobs| ==> items[i] == ItemOf(lib, jobs[i])
  {
    seq(|jobs|, i requires 0 <= i < |jobs| => ItemOf(lib, jobs[i]))
  }

  /** An entry of a detached writer; offset 0 means "not given". */
  datatype Registered = Registered(h: FileHeader, order: int, offset: uint64)

  const BY_ORDER: Registered -> int := (r: Registered) => r.order

  /** Where the entries go: at a given offset, or behind what the previous one is charged. */
  function Placed(rs: seq<Registered>, running: uint64): (r: (seq<uint64>, uint64))
    ensures |r.0| == |rs|
    decreases |rs|
  {
    if rs == [] then ([], running) else
      var at := if rs[0].offset > 0 then rs[0].offset else running;
      var rest := Placed(rs[1..], U64Of(at + PredictedLen(rs[0].h)));
      ([at] + rest.0, rest.1)
  }

  function HeadersOf(rs: seq<Registered>): (hs: seq<FileHeader>)
    ensures |hs| == |rs| && forall i :: 0 <= i < |rs| ==> hs[i] == rs[i].h
  {
    seq(|rs|, i requires 0 <= i < |rs| => rs[i].h)
  }

  /** What a detached writer generates for its registered entries. */
  function CentralDirectory(rs: seq<Registered>): Result<bytes> {
    var sorted := Sort(rs, BY_ORDER);
    var (offsets, end) := Placed(sorted, 0);
    WithEnd(HeadersOf(sorted), offsets, end)
  }

  /** The records of a directory and the end record behind them. */
  function WithEnd(hs: seq<FileHeader>, offsets: seq<uint64>, end: uint64): Result<bytes>
    requires |hs| == |offsets|
  {
    var dir :- Records(hs, offsets);
    Ok(dir + DirEnd(U64Of(|hs|), U64Of(|dir|), end))
  }

  method PrintDirectory(hs: seq<FileHeader>, offsets: seq<uint64>, end: uint64) returns (r: Result<bytes>)
    requires |hs| == |offsets|
    ensures r == WithEnd(hs, offsets, end)
  {
    hide Records, DirEnd, U64Of;
    var buf := new CountWriter();
    var _ :- WriteRecords(buf, hs, offsets);
    Whole(Records(hs, offsets).value);
    WriteDirectoryEnd(buf, U64Of(|hs|), U64Of(|buf.data|), end);
    r := Ok(buf.data);
  }

  // ---------------------------------------------------------------- the class

  class DirHeader {
    const cell: HeaderCell
    const order: int
    var offset: uint64

    constructor (cell: HeaderCell, order: int, offset: uint64)
      ensures this.cell == cell && this.order == order && this.offset == offset
    {
      this.cell, this.order, this.offset := cell, order, offset;
    }
  }

  const BY_ENTRY_ORDER: DirHeader -> int := (d: DirHeader) => d.order

  /** The directory entries carry these values. */
  ghost predicate Match(dir: seq<DirHeader>, rs: seq<Registered>)
    reads set d | d in dir, set d | d in dir :: d.cell
  {
    |dir| == |rs| && forall i :: 0 <= i < |dir| ==> rs[i] == Registered(dir[i].cell.fh, dir[i].order, dir[i].offset)
  }

  function EntriesOf(ds: seq<DirHeader>): (hs: seq<FileHeader>)
    reads set d | d in ds :: d.cell
    ensures |hs| == |ds| && forall i :: 0 <= i < |ds| ==> hs[i] == ds[i].cell.fh
  {
    if ds == [] then [] else [ds[0].cell.fh] + EntriesOf(ds[1..])
  }

  function PositionsOf(ds: seq<DirHeader>): (offsets: seq<uint64>)
    reads set d | d in ds
    ensures |offsets| == |ds| && forall i :: 0 <= i < |ds| ==> offsets[i] == ds[i].offset
  {
    if ds == [] then [] else [ds[0].offset] + PositionsOf(ds[1..])
  }

  /** The registered entries as their headers now stand. */
  ghost function Registrations(ds: seq<DirHeader>): (rs: seq<Registered>)
    reads set d | d in ds, set d | d in ds :: d.cell
    ensures Match(ds, rs)
  {
    if ds == [] then [] else [Registered(ds[0].cell.fh, ds[0].order, ds[0].offset)] + Registrations(ds[1..])
  }

  class Writer {
    const lib: Lib
    const detached: bool
    const cw: CountWriter
    var dir: seq<DirHeader>
    var last: FileWriter?
    var closed: bool
    var centralDirectory: Option<bytes>
    ghost var base: nat       // what SetOffset was given
    ghost var jobs: seq<Job>  // the entries that are closed, in order
    ghost var repr: set<object>

    ghost predicate Open()
      reads this, last
    {
      last != null && !last.closed
    }

    /** Who owns what. A detached writer does not own the headers of its entries. */
    ghost predicate Shape()
      reads this`dir, this`last, this`repr
    {
      && this in repr && cw in repr
      && (forall i :: 0 <= i < |dir| ==> dir[i] in repr)
      && (forall i, j :: 0 <= i < j < |dir| ==> dir[i] != dir[j])
      && (!detached ==>
        && (forall i :: 0 <= i < |dir| ==> dir[i].cell in repr)
        && (forall i, j :: 0 <= i < j < |dir| ==> dir[i].cell != dir[j].cell))
      && (detached ==> last == null)
      && (last != null ==>
        && last in repr && last.cell in repr && last.repr <= repr && this !in last.repr && last.zipw == cw && last.lib == lib
        && (forall i :: 0 <= i < |dir| ==> dir[i] !in last.repr)
        && (forall i :: 0 <= i < |dir| && dir[i].cell != last.cell ==> dir[i].cell !in last.repr))
    }

    /** The entries closed so far tile the output, and the directory says so:
        each closed entry has its final header, and its offset is the base plus
        the lengths of the parts before it. */
    ghost predicate Tiled()
      requires Shape() && !detached
      reads this, repr
    {
      && AllStartable(jobs)
      && var items := ItemsOf(lib, jobs);
      && |dir| == |jobs| + (if Open() then 1 else 0)
      && (forall i :: 0 <= i < |jobs| ==> dir[i].cell.fh == items[i].h && dir[i].offset == U64Of(Offset(base, items, i)))
      && cw.count == base + |cw.data|
      && (if Open() then
            && last.base == Parts(items)
            && last.cell == dir[|jobs|].cell && dir[|jobs|].offset == U64Of(base + |Parts(items)|)
          else cw.data == Parts(items))
    }

    ghost predicate Valid()
      reads this, repr
    {
      Shape() && cw.count >= |cw.data| && (last != null ==> last.Valid()) && (!detached && !closed ==> Tiled())
    }

    /** Everything else about the writer is as it was. */
    ghost predicate Kept(dir: seq<DirHeader>, last: FileWriter?, repr: set<object>, closed: bool, base: nat)
      reads this
    {
      this.dir == dir && this.last == last && this.repr == repr && this.closed == closed && this.base == base
    }

    constructor (lib: Lib, detached: bool)
      ensures Valid() && fresh(repr) && this.lib == lib && this.detached == detached
      ensures !closed && dir == [] && jobs == [] && base == 0 && cw.data == [] && centralDirectory == None
    {
      this.lib, this.detached := lib, detached;
      cw := new CountWriter();
      dir, last, closed, centralDirectory, base, jobs := [], null, false, None, 0, [];
      repr := {this, cw};
    }

    /** Before any data: the output will be appended to `n` bytes. */
    method SetOffset(n: nat)
      requires Valid() && !detached && !closed && cw.count == 0
      modifies this`base, cw
      ensures Valid() && base == n && jobs == old(jobs) && dir == old(dir) && last == old(last) && repr == old(repr)
    {
      hide ItemOf, U64Of;
      NothingWritten();
      cw.count := n;
      base := n;
    }

    /** A counter of zero means that no entry has been started. */
    lemma NothingWritten()
      requires Valid() && !detached && !closed
      ensures cw.count == 0 ==> dir == [] && jobs == [] && !Open() && base == 0 && cw.data == []
    {
      hide ItemOf, EncSink.Valid, Created, FileWriter.HeaderKept;
      PartsGrow(lib, jobs);
      if Open() {
        assert |cw.data| >= FILE_HEADER_LEN;
      }
    }

    /** Closes the entry that is open: it joins the closed ones. */
    method CloseLast()
      requires Valid() && !detached && Open()
      modifies last.repr, this`jobs
      ensures Valid() && !Open() && cw.count - |cw.data| == old(cw.count - |cw.data|)
      ensures jobs == old(jobs) + [old(last.Current())]
      ensures Kept(old(dir), old(last), old(repr), old(closed), old(base))
    {
      hide ItemOf, ItemsOf, FinalHeaderOf, Created, FileWriter.Valid, FileWriter.Current, Parts, Offset, AllStartable;
      hide Tiled, U64Of, Startable;
      ghost var before, job := jobs, last.Current();
      StartedIsStartable();
      if !closed {
        OpenTiled();
      }
      CloseEntry();
      jobs := jobs + [job];
      if !closed {
        StillTiled(before, job, ItemsOf(lib, before));
      }
    }

    /** What the tiling says while an entry is open. */
    lemma OpenTiled()
      requires Shape() && !detached && Open() && Tiled()
      ensures last in repr && last.cell in repr && last.repr <= repr && this !in last.repr
      ensures var items := ItemsOf(lib, jobs);
              && AllStartable(jobs) && |dir| == |jobs| + 1 && last.base == Parts(items)
              && (forall i :: 0 <= i < |jobs| ==> dir[i].cell.fh == items[i].h && dir[i].cell != last.cell
                                                  && dir[i].offset == U64Of(Offset(base, items, i)))
              && last.cell == dir[|jobs|].cell && dir[|jobs|].offset == U64Of(base + |Parts(items)|)
              && cw.count == base + |cw.data|
    {
      hide ItemsOf, Parts, Offset, AllStartable, U64Of, Shape;
      OwnCells();
    }

    lemma OwnCells()
      requires Shape() && !detached && last != null
      ensures last in repr && last.cell in repr && last.repr <= repr && this !in last.repr
      ensures forall i, j :: 0 <= i < j < |dir| ==> dir[i].cell != dir[j].cell
    {
    }

    method CloseEntry()
      requires Shape() && last != null && last.Valid() && !last.closed
      modifies last.repr
      ensures Shape() && last.Valid() && last.closed
      ensures cw.data == old(last.base) + ItemOf(lib, old(last.Current())).part
      ensures cw.count - |cw.data| == old(cw.count - |cw.data|)
      ensures last.cell.fh == ItemOf(lib, old(last.Current())).h
      ensures forall i :: 0 <= i < |dir| ==> dir[i].offset == old(dir[i].offset)
      ensures forall i :: 0 <= i < |dir| && dir[i].cell != last.cell ==> dir[i].cell.fh == old(dir[i].cell.fh)
    {
      hide FinalHeaderOf, U64Of, Created, FileWriter.Valid, LocalHeader, JobPayload, Descriptor;
      StartedIsStartable();
      var _ := last.Close();
    }

    lemma StillTiled(before: seq<Job>, job: Job, items: seq<Item>)
      requires Shape() && !detached && !Open() && jobs == before + [job] && |dir| == |jobs|
      requires AllStartable(before) && Startable(job) && items == ItemsOf(lib, before)
      requires forall i :: 0 <= i < |items| ==>
                 dir[i].cell.fh == items[i].h && dir[i].offset == U64Of(Offset(base, items, i))
      requires dir[|items|].cell.fh == ItemOf(lib, job).h && dir[|items|].offset == U64Of(base + |Parts(items)|)
      requires cw.data == Parts(items) + ItemOf(lib, job).part && cw.count == base + |cw.data|
      ensures Tiled()
    {
      hide ItemOf, ItemsOf, FinalHeaderOf, U64Of, Created, Parts, Offset, AllStartable, Shape;
      MoreItems(lib, before, job);
      NextOffset(base, items, ItemOf(lib, job));
    }

    /** `CreateHeader`, and `CreateRaw` for content that is already compressed.
        A creation that fails writes nothing. */
    method Create(cell: HeaderCell, raw: bool, rnd: nat -> byte) returns (r: Result<FileWriter>)
      requires Valid()
      requires cell !in repr || (dir != [] && dir[|dir| - 1].cell == cell)
      modifies repr, cell
      ensures Valid() && closed == old(closed) && base == old(base)
      ensures fresh(repr - old(repr) - {cell})
      ensures detached ==> r == Err(ErrDetached) && jobs == old(jobs) && dir == old(dir)
      ensures !detached ==> jobs == old(jobs) + (if old(Open()) then [old(last.Current())] else [])
      ensures r.Err? ==> !Open() && dir == old(dir)
      ensures !detached ==>
        if old(cell in repr) then r == Err(ErrDuplicate)
        else match CreateError(lib, old(cell.fh), raw)
             case Some(e) => r == Err(e)
             case None => r.Ok? && last == r.value && Open()
                          && last.Current() == Job(old(cell.fh), raw, [], rnd, old(cell.fh).crc, old(cell.fh).usize)
    {
      hide CreateError, FileWriter.Valid, Tiled;
      if detached {
        return Err(ErrDetached);
      }
      if last != null && !last.closed {
        CloseLast();
      }
      if dir != [] && dir[|dir| - 1].cell == cell {
        return Err(ErrDuplicate);
      }
      r := AddEntry(cell, raw, rnd);
    }

    method AddEntry(cell: HeaderCell, raw: bool, rnd: nat -> byte) returns (r: Result<FileWriter>)
      requires Valid() && !detached && !Open() && cell !in repr
      modifies this, cw, cell
      ensures Valid() && closed == old(closed) && base == old(base) && jobs == old(jobs)
      ensures fresh(repr - old(repr) - {cell})
      ensures r.Err? ==> !Open() && dir == old(dir)
      ensures match CreateError(lib, old(cell.fh), raw)
              case Some(e) => r == Err(e)
              case None => r.Ok? && last == r.value && Open()
                           && last.Current() == Job(old(cell.fh), raw, [], rnd, old(cell.fh).crc, old(cell.fh).usize)
    {
      hide CreateError, FileWriter.Wired, FileWriter.Running, Created, LocalHeader, JobPayload, Startable;
      hide ItemsOf, ItemOf, Parts, Offset, AllStartable, U64Of;
      var h := new DirHeader(cell, 0, U64Of(cw.count));
      var fw :- NewFileWriter(lib, cell, cw, raw, rnd);
      Enroll(h, fw);
      r := Ok(fw);
    }

    /** The new entry joins the directory and is the open one. */
    method Enroll(h: DirHeader, fw: FileWriter)
      requires Shape() && !detached && cw.count >= |cw.data|
      requires h !in repr && h.cell !in repr && fw !in repr && h !in fw.repr
      requires forall o :: o in fw.repr && o in repr ==> o == cw
      requires fw.Valid() && !fw.closed && fw.zipw == cw && fw.lib == lib && fw.cell == h.cell
      requires !closed ==>
        && AllStartable(jobs) && |dir| == |jobs| && cw.count == base + |cw.data|
        && var items := ItemsOf(lib, jobs);
           && (forall i :: 0 <= i < |jobs| ==> dir[i].cell.fh == items[i].h && dir[i].offset == U64Of(Offset(base, items, i)))
           && fw.base == Parts(items) && h.offset == U64Of(base + |Parts(items)|)
      modifies this`dir, this`last, this`repr
      ensures Valid() && last == fw && dir == old(dir) + [h] && repr == old(repr) + {h, fw, fw.cell} + fw.repr
    {
      hide FileWriter.Wired, FileWriter.Running, FileWriter.Valid, ItemsOf, ItemOf, Parts, Offset, AllStartable;
      hide U64Of, Startable;
      dir := dir + [h];
      last := fw;
      repr := repr + {h, fw, fw.cell} + fw.repr;
    }

    /** The caller writes through what `Create` returned. */
    method WriteLast(p: bytes) returns (r: Result<int>)
      requires Valid() && last != null
      modifies last.repr
      ensures Valid() && Open() == old(Open())
      ensures jobs == old(jobs) && Kept(old(dir), old(last), old(repr), old(closed), old(base))
      ensures !Open() ==> r == Err(ErrWriteClosed)
      ensures Open() ==> r == Ok(|p|) && last.Current() == old(last.Current()).(writes := old(last.Current()).writes + [p])
    {
      hide FileWriter.Valid, ItemsOf, ItemOf, Parts, Offset, AllStartable, U64Of;
      r := last.Write(p);
    }

    /** Checksum and sizes of the raw entry that is open. */
    method DescribeLast(crc: uint32, csize: uint64, usize: uint64)
      requires Valid() && !detached && Open()
      modifies last.cell
      ensures Valid() && Open() && jobs == old(jobs) && Kept(old(dir), old(last), old(repr), old(closed), old(base))
      ensures last.Current() == old(last.Current()).(crc := crc, usize := usize)
    {
      hide FileWriter.Valid, ItemsOf, ItemOf, Parts, Offset, AllStartable, U64Of;
      last.Describe(crc, csize, usize);
    }

    /** Ends the archive: directory and end record behind the entries. */
    method Close() returns (r: Result<()>)
      requires Valid()
      modifies repr
      ensures Valid() && closed && base == old(base)
      ensures jobs == old(jobs) + (if !detached && old(Open()) then [old(last.Current())] else [])
      ensures old(closed) ==> r == Err(ErrClosedTwice)
      ensures !old(closed) && !detached ==> AllStartable(jobs)
      ensures !old(closed) && !detached ==>
        match ArchiveBytes(base, ItemsOf(lib, jobs))
        case Ok(b) => r == Ok(()) && cw.data == b
        case Err(e) => && r == Err(e)
                       && var items := ItemsOf(lib, jobs);
                          cw.data == Parts(items) + Printed(Heads(items), Offsets(base, items))
      ensures !old(closed) && detached ==>
        match old(Generated())
        case Ok(b) => r == Ok(()) && centralDirectory == Some(b)
        case Err(e) => r == Err(e)
    {
      hide FileWriter.Valid, Tiled, ArchiveBytes, CentralDirectory;
      if last != null && !last.closed {
        CloseLast();
      }
      if closed {
        return Err(ErrClosedTwice);
      }
      if detached {
        closed := true;
        r := GenerateCentralDirectory();
      } else {
        r := WriteDirectory();
      }
    }

    method WriteDirectory() returns (r: Result<()>)
      requires Valid() && !detached && !closed && !Open()
      modifies this`closed, cw
      ensures Valid() && closed
      ensures AllStartable(jobs) &&
        match ArchiveBytes(base, ItemsOf(lib, jobs))
        case Ok(b) => r == Ok(()) && cw.data == b
        case Err(e) => && r == Err(e)
                       && var items := ItemsOf(lib, jobs);
                          cw.data == Parts(items) + Printed(Heads(items), Offsets(base, items))
    {
      hide FileWriter.Wired, FileWriter.Running, ItemsOf, ItemOf, Parts, Offset, AllStartable, U64Of, DirEnd, Records;
      hide Dir, Printed;
      ghost var items := ItemsOf(lib, jobs);
      Listed();
      DirIsRecords(base, items);
      closed := true;
      var start := cw.count;
      var _ :- WriteRecords(cw, EntriesOf(dir), PositionsOf(dir));
      var end := cw.count;
      WriteDirectoryEnd(cw, U64Of(|dir|), U64Of(end - start), U64Of(start));
      Assoc(Parts(items), Dir(base, items).value, DirEnd(U64Of(|dir|), U64Of(end - start), U64Of(start)));
      r := Ok(());
    }

    /** The directory's entries are the headers of the closed items, at their offsets. */
    lemma Listed()
      requires Valid() && !detached && !closed && !Open()
      ensures AllStartable(jobs) && |dir| == |jobs|
      ensures EntriesOf(dir) == Heads(ItemsOf(lib, jobs)) && PositionsOf(dir) == Offsets(base, ItemsOf(lib, jobs))
    {
      hide FileWriter.Valid, ItemOf, Parts, Offset, AllStartable, U64Of;
    }

    // ---------------------------------------------------------------- detached

    /** The directory is generated once; later calls return the same bytes. */
    ghost function Generated(): Result<bytes>
      reads this`dir, this`centralDirectory, set d | d in dir, set d | d in dir :: d.cell
    {
      if centralDirectory.Some? then Ok(centralDirectory.value) else CentralDirectory(Registrations(dir))
    }

    /** `CreateFileParts` and `CreateRawFileParts`: the local header goes to the
        part's own output; only then is the entry registered. */
    method CreatePart(cell: HeaderCell, order: int, part: CountWriter, raw: bool, rnd: nat -> byte) returns (r: Result<FileWriter>)
      requires Valid() && detached && part !in repr && cell !in repr
      modifies this`dir, this`repr, cell, part
      ensures Valid() && fresh(repr - old(repr))
      ensures match CreateError(lib, old(cell.fh), raw)
              case Some(e) => r == Err(e) && dir == old(dir) && part.data == old(part.data)
              case None =>
                && r.Ok? && r.value.Valid() && !r.value.closed && r.value.base == old(part.data)
                && r.value.zipw == part && r.value.cell == cell && r.value.lib == lib
                && fresh(r.value) && fresh(r.value.repr - {cell, part}) && r.value.repr !! repr
                && r.value.Current() == Job(old(cell.fh), raw, [], rnd, old(cell.fh).crc, old(cell.fh).usize)
                && |dir| == |old(dir)| + 1 && dir[..|old(dir)|] == old(dir)
                && var d := dir[|old(dir)|]; fresh(d) && d.cell == cell && d.order == order && d.offset == 0
    {
      hide CreateError, FileWriter.Valid;
      var h := new DirHeader(cell, order, 0);
      var fw :- NewFileWriter(lib, cell, part, raw, rnd);
      AddDetachedHeader(h);
      r := Ok(fw);
    }

    /** One step under the lock. */
    method AddDetachedHeader(h: DirHeader)
      requires Valid() && detached && h !in repr
      modifies this`dir, this`repr
      ensures Valid() && dir == old(dir) + [h] && repr == old(repr) + {h}
    {
      dir := dir + [h];
      repr := repr + {h};
    }

    method AddFileWithOffset(cell: HeaderCell, order: int, offset: uint64)
      requires Valid() && detached
      modifies this`dir, this`repr
      ensures Valid() && fresh(repr - old(repr))
      ensures |dir| == |old(dir)| + 1 && dir[..|old(dir)|] == old(dir)
      ensures var d := dir[|old(dir)|]; d.cell == cell && d.order == order && d.offset == offset
    {
      var h := new DirHeader(cell, order, offset);
      AddDetachedHeader(h);
    }

    method GenerateCentralDirectory() returns (r: Result<()>)
      requires Valid() && detached
      modifies this`dir, this`centralDirectory, dir
      ensures Valid()
      ensures match old(Generated())
              case Ok(b) => r == Ok(()) && centralDirectory == Some(b)
              case Err(e) => r == Err(e) && centralDirectory == None
    {
      if centralDirectory.Some? {
        return Ok(());
      }
      r := GenerateOnce();
    }

    method GenerateOnce() returns (r: Result<()>)
      requires Valid() && detached && centralDirectory == None
      modifies this`dir, this`centralDirectory, dir
      ensures Valid()
      ensures match CentralDirectory(old(Registrations(dir)))
              case Ok(b) => r == Ok(()) && centralDirectory == Some(b)
              case Err(e) => r == Err(e) && centralDirectory == None
    {
      hide Placed, Sort, Valid, Shape, EntriesOf, PositionsOf, Registrations, HeadersOf, WithEnd, Records;
      ghost var sorted := Sort(Registrations(dir), BY_ORDER);
      var end := Order();
      var printed :- PrintDirectory(EntriesOf(dir), PositionsOf(dir), end);
      Cache(printed);
      r := Ok(());
    }

    method Cache(b: bytes)
      requires Valid() && detached
      modifies this`centralDirectory
      ensures Valid() && centralDirectory == Some(b)
    {
      hide FileWriter.Valid, Tiled;
      centralDirectory := Some(b);
    }

    /** Sorts the entries in place and gives them their offsets. */
    method Order() returns (end: uint64)
      requires Valid() && detached
      modifies this`dir, dir
      ensures Valid() && |dir| == |old(dir)|
      ensures var sorted := Sort(old(Registrations(dir)), BY_ORDER);
              EntriesOf(dir) == HeadersOf(sorted) && (PositionsOf(dir), end) == Placed(sorted, 0)
    {
      hide Placed, Sort, Match, Tiled, FileWriter.Valid, EntriesOf, PositionsOf, Registrations;
      ghost var rs := Registrations(dir);
      ghost var sorted := Sort(rs, BY_ORDER);
      SortMatches(dir, rs);
      SortDistinct(dir, BY_ENTRY_ORDER);
      dir := Sort(dir, BY_ENTRY_ORDER);
      end := Place(sorted);
      assert EntriesOf(dir) == HeadersOf(sorted);
    }

    /** Fills in the offsets, in order. */
    method Place(ghost rs: seq<Registered>) returns (offset: uint64)
      requires Match(dir, rs) && forall i, j :: 0 <= i < j < |dir| ==> dir[i] != dir[j]
      modifies dir
      ensures PositionsOf(dir) == Placed(rs, 0).0 && offset == Placed(rs, 0).1
      ensures forall i :: 0 <= i < |dir| ==> dir[i].cell.fh == rs[i].h
    {
      hide U64Of, PredictedLen, EntriesOf, PositionsOf, Placed;
      offset := 0;
      var i := 0;
      assert rs[0..] == rs;
      while i < |dir|
        invariant 0 <= i <= |dir|
        invariant forall j :: i <= j < |dir| ==> rs[j] == Registered(dir[j].cell.fh, dir[j].order, dir[j].offset)
        invariant Placed(rs, 0).1 == Placed(rs[i..], offset).1
        invariant forall j :: 0 <= j < i ==> Placed(rs, 0).0[j] == dir[j].offset
        invariant Placed(rs, 0).0[i..] == Placed(rs[i..], offset).0
      {
        var h := dir[i];
        assert rs[i..][1..] == rs[i + 1..] && rs[i..][0] == rs[i];
        ghost var before := offset;
        PlacedStep(rs[i..], before);
        if h.offset == 0 && offset > 0 {
          h.offset := offset;
        } else if h.offset > 0 {
          offset := h.offset;
        } else {
          h.offset := offset;
        }
        offset := U64Of(offset + PredictedLen(h.cell.fh));
        assert Placed(rs, 0).0[i + 1..] == Placed(rs, 0).0[i..][1..];
        i := i + 1;
      }
      assert rs[i..] == [];
      PlacedNone(offset);
    }

    method GetCentralDirectoryBytes() returns (r: Result<bytes>)
      requires Valid()
      modifies this`dir, this`centralDirectory, dir
      ensures Valid()
      ensures r == if detached then old(Generated()) else Err(ErrNotDetached)
      ensures detached ==> centralDirectory == if r.Ok? then Some(r.value) else None
    {
      if !detached {
        return Err(ErrNotDetached);
      }
      hide CentralDirectory, Valid;
      var _ :- GenerateCentralDirectory();
      r := Ok(centralDirectory.value);
    }

    lemma OwnsOutput()
      requires Valid()
      ensures this in repr && cw in repr && (last != null ==> last in repr && last.cell in repr)
    {
    }

    lemma Owns()
      requires Valid() && last != null
      ensures this in repr && last in repr && last.cell in repr && last.repr <= repr && this !in last.repr
    {
    }

    lemma StartedIsStartable()
      requires last != null && last.Valid()
      ensures Startable(last.Current())
    {
      hide EncSink.Valid, Created, FileWriter.HeaderKept;
    }
  }

  lemma PartsGrow(lib: Lib, jobs: seq<Job>)
    requires AllStartable(jobs)
    ensures jobs != [] ==> |Parts(ItemsOf(lib, jobs))| >= FILE_HEADER_LEN
  {
    hide Created, JobPayload, FinalHeaderOf, Descriptor;
    if jobs != [] {
      var items := ItemsOf(lib, jobs);
      assert Startable(jobs[0]) && items[0] == ItemOf(lib, jobs[0]);
      assert |Parts(items)| == |items[0].part| + |Parts(items[1..])|;
    }
  }

  lemma MoreItems(lib: Lib, jobs: seq<Job>, job: Job)
    requires AllStartable(jobs) && Startable(job)
    ensures AllStartable(jobs + [job])
    ensures ItemsOf(lib, jobs + [job]) == ItemsOf(lib, jobs) + [ItemOf(lib, job)]
    ensures Parts(ItemsOf(lib, jobs + [job])) == Parts(ItemsOf(lib, jobs)) + ItemOf(lib, job).part
  {
    hide ItemOf, LocalHeader, Created;
    assert ItemsOf(lib, jobs + [job]) == ItemsOf(lib, jobs) + [ItemOf(lib, job)];
    PartsAppend(ItemsOf(lib, jobs), [ItemOf(lib, job)]);
    PartsOne(ItemOf(lib, job));
  }

  /** A further item leaves the offsets of the earlier ones alone and starts where they end. */
  lemma NextOffset(base: nat, items: seq<Item>, it: Item)
    ensures forall i :: 0 <= i < |items| ==> Offset(base, items + [it], i) == Offset(base, items, i)
    ensures Offset(base, items + [it], |items|) == base + |Parts(items)|
  {
    hide Parts;
    forall i | 0 <= i <= |items| ensures (items + [it])[..i] == items[..i] {
    }
    Whole(items);
  }

  // ---------------------------------------------------------------- sorting entries and values alike

  lemma PlacedNone(running: uint64)
    ensures Placed([], running) == ([], running)
  {
  }

  lemma PlacedStep(rs: seq<Registered>, running: uint64)
    requires rs != []
    ensures var at := if rs[0].offset > 0 then rs[0].offset else running;
            var rest := Placed(rs[1..], U64Of(at + PredictedLen(rs[0].h)));
            Placed(rs, running) == ([at] + rest.0, rest.1)
  {
  }

  /** Given offsets are kept; an entry without one starts where its predecessor is predicted to end. */
  lemma {:induction false} PlacedAt(rs: seq<Registered>, running: uint64, i: nat)
    requires i < |rs|
    ensures var (offsets, end) := Placed(rs, running);
            && offsets[i] == (if rs[i].offset > 0 then rs[i].offset
                              else if i == 0 then running else U64Of(offsets[i - 1] + PredictedLen(rs[i - 1].h)))
            && (i == |rs| - 1 ==> end == U64Of(offsets[i] + PredictedLen(rs[i].h)))
    decreases |rs|
  {
    hide U64Of, PredictedLen, Placed;
    PlacedStep(rs, running);
    var at := if rs[0].offset > 0 then rs[0].offset else running;
    if i > 0 {
      PlacedAt(rs[1..], U64Of(at + PredictedLen(rs[0].h)), i - 1);
    } else if |rs| == 1 {
      PlacedNone(U64Of(at + PredictedLen(rs[0].h)));
    }
  }

  lemma {:induction false} InsertMatches(d: DirHeader, r: Registered, dir: seq<DirHeader>, rs: seq<Registered>)
    requires Match(dir, rs) && r == Registered(d.cell.fh, d.order, d.offset)
    ensures Match(Insert(d, dir, BY_ENTRY_ORDER), Insert(r, rs, BY_ORDER))
  {
    if dir != [] && d.order > dir[0].order {
      InsertMatches(d, r, dir[1..], rs[1..]);
    }
  }

  /** Sorting the entries sorts their values. */
  lemma {:induction false} SortMatches(dir: seq<DirHeader>, rs: seq<Registered>)
    requires Match(dir, rs)
    ensures Match(Sort(dir, BY_ENTRY_ORDER), Sort(rs, BY_ORDER))
  {
    if dir != [] {
      SortMatches(dir[1..], rs[1..]);
      InsertMatches(dir[0], rs[0], Sort(dir[1..], BY_ENTRY_ORDER), Sort(rs[1..], BY_ORDER));
    }
  }
}
