/** What a run of the writer comes to: parts assembled in any way give the
    sequential archive, and reading it gives the entries back. */
module Assembly {
  import opened Bytes
  import opened Header
  import opened ExtraFields
  import opened Directory
  import opened EndRecord
  import opened Archive
  import opened LocalPart
  import opened Jobs
  import opened Sorting
  import opened Writing
  import FilterTheorems
  import Filter

  // ---------------------------------------------------------------- predicted lengths

  /** What `generateCentralDirectory` predicts is what `fileWriter.Close` wrote. */
  lemma JobLen(lib: Lib, job: Job)
    requires LocalHeader(Created(job.fh)).Ok? && |JobPayload(lib, job)| < TWO64
    ensures |ItemOf(lib, job).part| == PredictedLen(ItemOf(lib, job).h)
  {
    hide JobPayload, LocalHeader, DescriptorBody, FinalHeaderOf, Created;
    FinalKeeps(lib, job);
  }

  ghost predicate Predicted(items: seq<Item>) {
    forall i :: 0 <= i < |items| ==> |items[i].part| == PredictedLen(items[i].h)
  }

  /** The items registered with the given orders, no offset given. */
  function InOrder(items: seq<Item>, orders: seq<int>): (rs: seq<Registered>)
    requires |orders| == |items|
    ensures |rs| == |items|
    ensures forall i :: 0 <= i < |items| ==> rs[i] == Registered(items[i].h, orders[i], 0)
  {
    seq(|items|, i requires 0 <= i < |items| => Registered(items[i].h, orders[i], 0))
  }

  /** Offsets by prediction are the sums of the real lengths. */
  lemma {:induction false} PlacedAtOffsets(run: nat, items: seq<Item>, rs: seq<Registered>)
    requires Predicted(items) && |rs| == |items|
    requires forall i :: 0 <= i < |items| ==> rs[i].h == items[i].h && rs[i].offset == 0
    ensures Placed(rs, U64Of(run)) == (Offsets(run, items), U64Of(run + |Parts(items)|))
    decreases |items|
  {
    hide Offsets, PredictedLen, U64Of, Placed;
    if items == [] {
      PlacedNone(U64Of(run));
    } else {
      var run' := run + |items[0].part|;
      PlacedStep(rs, U64Of(run));
      WrapAdd(run, |items[0].part|);
      PlacedAtOffsets(run', items[1..], rs[1..]);
      TailOffsets(run, items);
      assert Offsets(run, items) == [U64Of(run)] + Offsets(run', items[1..]);
    }
  }

  lemma WrapAdd(a: nat, b: nat)
    ensures U64Of(U64Of(a) + b) == U64Of(a + b)
  {
  }

  /** The directory generated for detached parts is the one behind the same
      parts laid end to end. */
  lemma GeneratedIsTail(items: seq<Item>, orders: seq<int>, registered: seq<Registered>)
    requires Predicted(items) && |orders| == |items|
    requires Sort(registered, BY_ORDER) == InOrder(items, orders)
    ensures CentralDirectory(registered) == Tail(0, items)
  {
    hide Sort, Placed, Records, Dir, DirEnd, U64Of, Parts, Predicted, Offset;
    var rs := InOrder(items, orders);
    assert U64Of(0) == 0 by { WrapAdd(0, 0); SmallIsItself(0); }
    PlacedAtOffsets(0, items, rs);
    DirIsRecords(0, items);
    assert HeadersOf(rs) == Heads(items);
  }

  ghost predicate Increasing(orders: seq<int>) {
    forall i, j :: 0 <= i < j < |orders| ==> orders[i] < orders[j]
  }

  /** Detached equals sequential: whatever the order in which the parts of
      these jobs were registered, the generated directory behind the parts in
      order is the archive that the sequential writer emits for the jobs. */
  lemma DetachedIsSequential(lib: Lib, jobs: seq<Job>, orders: seq<int>, registered: seq<Registered>)
    requires AllStartable(jobs) && |orders| == |jobs| && Increasing(orders)
    requires forall i :: 0 <= i < |jobs| ==> |JobPayload(lib, jobs[i])| < TWO64
    requires multiset(registered) == multiset(InOrder(ItemsOf(lib, jobs), orders))
    ensures var items := ItemsOf(lib, jobs);
            ArchiveBytes(0, items) == Join(Ok(Parts(items)), CentralDirectory(registered))
  {
    hide Created, JobPayload, ItemOf, CentralDirectory, Tail, Parts, Sort;
    var items := ItemsOf(lib, jobs);
    var rs := InOrder(items, orders);
    forall i | 0 <= i < |items| ensures |items[i].part| == PredictedLen(items[i].h) {
      assert Startable(jobs[i]);
      JobLen(lib, jobs[i]);
    }
    DistinctSorted(registered, rs);
    GeneratedIsTail(items, orders, registered);
  }

  /** Entries with distinct orders sort to the one increasing arrangement. */
  lemma DistinctSorted(registered: seq<Registered>, rs: seq<Registered>)
    requires multiset(registered) == multiset(rs)
    requires forall i, j :: 0 <= i < j < |rs| ==> rs[i].order < rs[j].order
    ensures Sort(registered, BY_ORDER) == rs
  {
    hide Sort;
    SameKeysDistinct(registered, rs);
    SortForgetsOrder(registered, rs, BY_ORDER);
    SortOfSorted(rs, BY_ORDER);
  }

  lemma SameKeysDistinct(s: seq<Registered>, t: seq<Registered>)
    requires multiset(s) == multiset(t) && DistinctKeys(t, BY_ORDER)
    ensures DistinctKeys(s, BY_ORDER)
  {
    forall i, j | 0 <= i < j < |s| ensures BY_ORDER(s[i]) != BY_ORDER(s[j]) {
      if s[i].order == s[j].order {
        SameElems(s, t);
        assert s[i] in t && s[j] in t;
        TwiceIn(s, i, j);
        OnceIn(t, s[i]);
      }
    }
  }

  lemma TwiceIn(s: seq<Registered>, i: nat, j: nat)
    requires i < j < |s| && s[i] == s[j]
    ensures multiset(s)[s[i]] >= 2
  {
    SplitAt(s, i);
    var rest := s[i + 1..];
    assert rest[j - i - 1] == s[i];
    assert s[i] in multiset(rest);
    assert s == s[..i] + [s[i]] + rest;
  }

  lemma OnceIn(t: seq<Registered>, x: Registered)
    requires DistinctKeys(t, BY_ORDER) && x in t
    ensures multiset(t)[x] == 1
  {
    var i :| 0 <= i < |t| && t[i] == x;
    SplitAt(t, i);
    assert t == t[..i] + [x] + t[i + 1..];
    assert x !in t[..i] && x !in t[i + 1..];
    assert multiset(t) == multiset(t[..i]) + multiset{x} + multiset(t[i + 1..]);
  }

  /** Concurrent registration: with distinct orders, the interleaving of the
      registrations leaves no trace in the generated bytes. */
  lemma RegistrationForgotten(a: seq<Registered>, b: seq<Registered>)
    requires multiset(a) == multiset(b) && DistinctKeys(a, BY_ORDER)
    ensures CentralDirectory(a) == CentralDirectory(b)
  {
    SameKeysDistinct(b, a);
    SortForgetsOrder(a, b, BY_ORDER);
  }

  // ---------------------------------------------------------------- reading a run back

  /** Hypotheses about what the callers supplied. */
  ghost predicate Sound(lib: Lib, jobs: seq<Job>) {
    && AllStartable(jobs)
    && forall i :: 0 <= i < |jobs| ==> CallerExtra(jobs[i].fh.extra) && |Flatten(jobs[i].writes)| < TWO64
  }

  function PayloadsOf(lib: Lib, jobs: seq<Job>): (ps: seq<bytes>)
    ensures |ps| == |jobs| && forall i :: 0 <= i < |jobs| ==> ps[i] == JobPayload(lib, jobs[i])
  {
    seq(|jobs|, i requires 0 <= i < |jobs| => JobPayload(lib, jobs[i]))
  }

  /** Every entry of a run is a closed part. */
  lemma JobsAreClosed(lib: Lib, jobs: seq<Job>)
    requires Sound(lib, jobs) && |Parts(ItemsOf(lib, jobs))| < TWO63
    ensures FilterTheorems.AllClosed(ItemsOf(lib, jobs), PayloadsOf(lib, jobs))
  {
    hide Parts, JobPayload, ItemOf, CallerExtra, Closed, Created;
    var items := ItemsOf(lib, jobs);
    forall i | 0 <= i < |jobs| ensures Closed(items[i], JobPayload(lib, jobs[i])) {
      assert Startable(jobs[i]);
      SplitParts(items, i);
      PayloadInside(lib, jobs[i]);
      JobIsClosed(lib, jobs[i]);
    }
  }

  lemma PayloadInside(lib: Lib, job: Job)
    requires LocalHeader(Created(job.fh)).Ok?
    ensures |JobPayload(lib, job)| <= |ItemOf(lib, job).part|
  {
    hide Created, JobPayload, Descriptor, FinalHeaderOf, LocalHeader;
  }

  /** Flags and creator version, bit by bit: bit 3 is set and the lower byte
      says 2.0; every other bit is the caller's. */
  ghost predicate BitsDescribed(h: FileHeader, fh: FileHeader) {
    && h.flags % 16 >= 8 && h.flags % 8 == fh.flags % 8 && h.flags / 16 == fh.flags / 16
    && h.creatorVersion % 0x100 == ZIP_VERSION20 && h.creatorVersion / 0x100 == fh.creatorVersion / 0x100
  }

  lemma BitsAreKept(h: FileHeader, fh: FileHeader)
    requires h.flags == SetBit3(fh.flags) && h.creatorVersion == KeepHighByte(fh.creatorVersion) + ZIP_VERSION20
    ensures BitsDescribed(h, fh)
  {
    hide SetBit3, KeepHighByte;
    BitsKept(fh.flags);
    BitsKept(fh.creatorVersion);
    LowerByte(KeepHighByte(fh.creatorVersion), ZIP_VERSION20);
  }

  lemma LowerByte(v: int, low: int)
    requires v % 0x100 == 0 && 0 <= low < 0x100
    ensures (v + low) % 0x100 == low && (v + low) / 0x100 == v / 0x100
  {
  }

  /** What the reader reports for the entry of a job. */
  ghost predicate Describes(f: File, lib: Lib, job: Job, offset: nat) {
    && offset < TWO64 && f.headerOffset == offset
    && f.h.name == job.fh.name && f.h.comment == job.fh.comment && f.h.password == None
    && f.h.flags == SetBit3(job.fh.flags) && BitsDescribed(f.h, job.fh)
    && f.h.readerVersion == (if f.h.IsZip64() then ZIP_VERSION45 else ZIP_VERSION20)
    && f.h.modTime == job.fh.modTime && f.h.modDate == job.fh.modDate && f.h.extAttrs == job.fh.extAttrs
    && f.h.compMethod == job.fh.compMethod
    && f.h.ae == (if job.fh.WritesAes() then 2 else 0)
    && f.h.strength == (if job.fh.WritesAes() then job.fh.strength else 0)
    && f.h.csize == |JobPayload(lib, job)|
    && f.h.usize == (if job.raw then job.usize else |Flatten(job.writes)|)
    && (if f.h.IsZip64() || offset >= UINT32_MAX then f.h.csize32 == UINT32_MAX && f.h.usize32 == UINT32_MAX
        else f.h.csize32 == f.h.csize && f.h.usize32 == f.h.usize)
    && f.h.crc == (if job.fh.WritesAes() then 0 else if job.raw then job.crc else lib.crc32(Flatten(job.writes)))
    && f.h.xxh3 == (if job.raw then job.fh.xxh3 else lib.xxh3(Flatten(job.writes)))
    && f.h.extra ==
         (if job.fh.WritesAes() then job.fh.extra + AesRecord(job.fh.strength, job.fh.compMethod) else job.fh.extra)
         + ((if f.h.xxh3 != 0 then Xxh3Record(f.h.xxh3) else [])
            + (if f.h.IsZip64() || offset >= UINT32_MAX then Zip64Record(f.h.usize, f.h.csize, offset) else []))
  }

  lemma ReadBackDescribes(lib: Lib, job: Job, offset: nat)
    requires CallerExtra(job.fh.extra) && LocalHeader(Created(job.fh)).Ok?
    requires |JobPayload(lib, job)| < TWO63 && |Flatten(job.writes)| < TWO64 && offset < TWO64
    ensures Describes(File(ReadBack(ItemOf(lib, job).h, U64Of(offset)), offset), lib, job, offset)
  {
    hide JobPayload, LocalHeader, Descriptor, AesInfo, Xxh3Record, Zip64Record, Exact, HasTag, AesRecord;
    hide MethodStable, FinalHeaderOf, SetBit3, KeepHighByte, BitsDescribed;
    CreatedExtra(job.fh);
    FinalKeeps(lib, job);
    FinalRest(lib, job);
    BitsAreKept(ReadBack(ItemOf(lib, job).h, U64Of(offset)), job.fh);
  }

  lemma FinalRest(lib: Lib, job: Job)
    ensures var (f, fh) := (FinalHeaderOf(lib, job), job.fh);
            && f.comment == fh.comment && f.modTime == fh.modTime && f.modDate == fh.modDate && f.extAttrs == fh.extAttrs
            && f.creatorVersion == KeepHighByte(fh.creatorVersion) + ZIP_VERSION20
            && f.readerVersion == (if f.IsZip64() then ZIP_VERSION45 else ZIP_VERSION20)
  {
    hide JobPayload, AesRecord;
  }

  /** Reading back what a run wrote, behind any prefix, gives exactly its
      entries, in order, each described truly and at its true position. */
  lemma RunRoundTrip(lib: Lib, prefix: bytes, jobs: seq<Job>)
    requires Sound(lib, jobs) && Legible(prefix, ItemsOf(lib, jobs))
    ensures var items := ItemsOf(lib, jobs);
            var r := Init(prefix + ArchiveBytes(|prefix|, items).value);
            && r.Ok? && |r.value.files| == |jobs| && r.value.comment == []
            && forall i :: 0 <= i < |jobs| ==> Describes(r.value.files[i], lib, jobs[i], Offset(|prefix|, items, i))
  {
    hide Created, JobPayload, ItemOf, Parts, CallerExtra, Describes, ReadBack, Init, Tail, Decoy, Zip64Archive;
    hide BeforeEnd;
    var items := ItemsOf(lib, jobs);
    JobsAreClosed(lib, jobs);
    FilterTheorems.ClosedAreGood(0, items, PayloadsOf(lib, jobs));
    ArchiveRoundTrip(prefix, items);
    forall i | 0 <= i < |jobs| ensures Describes(ReadBacks(|prefix|, items)[i], lib, jobs[i], Offset(|prefix|, items, i)) {
      assert Startable(jobs[i]);
      SplitParts(items, i);
      PayloadInside(lib, jobs[i]);
      ReadBacksAt(|prefix|, items, i);
      ReadBackDescribes(lib, jobs[i], Offset(|prefix|, items, i));
    }
  }

  /** Keeping every entry of such a run gives the very same bytes again. */
  lemma RunFiltered(lib: Lib, jobs: seq<Job>)
    requires Sound(lib, jobs) && Legible([], ItemsOf(lib, jobs))
    ensures var file := ArchiveBytes(0, ItemsOf(lib, jobs)).value;
            && Init(file).Ok?
            && Filter.Filtered(Init(file).value.files, file, Eof, FilterTheorems.EVERYTHING) == Ok(file)
  {
    hide Created, JobPayload, ItemOf, Parts, CallerExtra, Init, Tail, Decoy, Zip64Archive, BeforeEnd, Filter.Filtered;
    hide FilterTheorems.AllClosed;
    var items := ItemsOf(lib, jobs);
    JobsAreClosed(lib, jobs);
    FilterTheorems.FilterKeepsAll([], items, PayloadsOf(lib, jobs));
    Whole(ArchiveBytes(0, items).value);
  }
}
