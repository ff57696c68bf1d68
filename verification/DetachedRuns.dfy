/** A detached writer from its first part to the assembled archive. */
module DetachedRuns {
  import opened Bytes
  import opened Header
  import opened Streams
  import opened Archive
  import opened LocalPart
  import opened Jobs
  import opened FileWriting
  import opened Writing
  import opened Sorting
  import opened Assembly

  /** The directory entry of a finished part: no offset given, its header final. */
  ghost predicate Registers(d: DirHeader, it: Item, order: int)
    reads d, d.cell
  {
    d.cell.fh == it.h && d.order == order && d.offset == 0
  }

  ghost predicate HasPart(w: Writer, it: Item, order: int)
    reads w, set d | d in w.dir, set d | d in w.dir :: d.cell
  {
    exists k :: 0 <= k < |w.dir| && Registers(w.dir[k], it, order)
  }

  /** Exactly the parts of these jobs are registered, in whatever order they came. */
  ghost predicate AllRegistered(w: Writer, jobs: seq<Job>, orders: seq<int>)
    requires AllStartable(jobs) && |orders| == |jobs|
    reads w, set d | d in w.dir, set d | d in w.dir :: d.cell
  {
    && |w.dir| == |jobs|
    && forall i :: 0 <= i < |jobs| ==> HasPart(w, ItemsOf(w.lib, jobs)[i], orders[i])
  }

  /** Every run of a detached writer that ends with these parts closed, however
      creations, writes and registrations were interleaved, generates what
      completes the parts to the archive of the sequential writer. */
  lemma DetachedRun(w: Writer, jobs: seq<Job>, orders: seq<int>)
    requires AllStartable(jobs) && |orders| == |jobs| && Increasing(orders)
    requires forall i :: 0 <= i < |jobs| ==> |JobPayload(w.lib, jobs[i])| < TWO64
    requires w.centralDirectory == None && AllRegistered(w, jobs, orders)
    ensures var items := ItemsOf(w.lib, jobs);
            ArchiveBytes(0, items) == Join(Ok(Parts(items)), w.Generated())
  {
    hide ItemsOf, AllStartable, JobPayload, CentralDirectory, ArchiveBytes, Parts, Join;
    var items := ItemsOf(w.lib, jobs);
    var rs, all := Registrations(w.dir), InOrder(items, orders);
    forall i | 0 <= i < |all| ensures all[i] in rs {
      assert HasPart(w, items[i], orders[i]);
      var k :| 0 <= k < |w.dir| && Registers(w.dir[k], items[i], orders[i]);
      assert rs[k] == all[i];
    }
    SameWhenCovered(rs, all);
    DetachedIsSequential(w.lib, jobs, orders, rs);
  }

  /** As many values, each of the distinct ones among them: the same values. */
  lemma SameWhenCovered(rs: seq<Registered>, all: seq<Registered>)
    requires |rs| == |all| && DistinctKeys(all, BY_ORDER)
    requires forall i :: 0 <= i < |all| ==> all[i] in rs
    ensures multiset(rs) == multiset(all)
  {
    forall x ensures multiset(all)[x] <= multiset(rs)[x] {
      if x in all {
        OnceIn(all, x);
        assert x in multiset(rs);
      }
    }
    var rest := multiset(rs) - multiset(all);
    assert multiset(rs) == multiset(all) + rest;
    assert |rest| == 0;
  }

  // ---------------------------------------------------------------- the documented use

  /** Everything that is to be written to one part. */
  datatype Input = Input(cell: HeaderCell, writes: seq<bytes>, rnd: nat -> byte)

  /** Writes a part and closes it. */
  method FillPart(fw: FileWriter, writes: seq<bytes>)
    requires fw.Valid() && !fw.closed && fw.writes == []
    modifies fw.repr
    ensures fw.closed && Startable(old(fw.Current()).(writes := writes))
    ensures var job := old(fw.Current()).(writes := writes);
            fw.zipw.data == fw.base + ItemOf(fw.lib, job).part && fw.cell.fh == ItemOf(fw.lib, job).h
  {
    hide FileWriter.Wired, FileWriter.Running, Created, LocalHeader, FinalHeaderOf;
    var i := 0;
    while i < |writes|
      invariant 0 <= i <= |writes| && fw.Valid() && !fw.closed
      invariant fw.writes == writes[..i] && fw.cell.fh == old(fw.cell.fh)
    {
      var _ := fw.Write(writes[i]);
      assert writes[..i + 1] == writes[..i] + [writes[i]];
      i := i + 1;
    }
    Whole(writes);
    fw.CanStart();
    var _ := fw.Close();
  }

  /** The job that writing an input comes to. */
  function JobOf(fh: FileHeader, writes: seq<bytes>, rnd: nat -> byte): Job {
    Job(fh, false, writes, rnd, fh.crc, fh.usize)
  }

  /** Creates, writes and closes one part in an output of its own. */
  method AddPart(w: Writer, input: Input, order: int) returns (r: Result<bytes>)
    requires w.Valid() && w.detached && input.cell !in w.repr
    modifies w`dir, w`repr, input.cell
    ensures w.Valid() && fresh(w.repr - old(w.repr)) && input.cell !in w.repr
    ensures match CreateError(w.lib, old(input.cell.fh), false)
            case Some(e) => r == Err(e) && w.dir == old(w.dir)
            case None =>
              var job := JobOf(old(input.cell.fh), input.writes, input.rnd);
              && Startable(job) && r == Ok(ItemOf(w.lib, job).part)
              && |w.dir| == |old(w.dir)| + 1 && old(w.dir) <= w.dir
              && fresh(w.dir[|old(w.dir)|]) && w.dir[|old(w.dir)|].cell == input.cell
              && Registers(w.dir[|old(w.dir)|], ItemOf(w.lib, job), order)
  {
    hide CreateError, FileWriter.Wired, FileWriter.Running, ItemOf, LocalHeader, Created;
    w.OwnsOutput();
    var part := new CountWriter();
    var fw :- w.CreatePart(input.cell, order, part, false, input.rnd);
    w.OwnsOutput();
    FillPart(fw, input.writes);
    Whole(ItemOf(w.lib, JobOf(old(input.cell.fh), input.writes, input.rnd)).part);
    r := Ok(part.data);
  }

  /** The first jobs are registered in order, each with the header of its part. */
  ghost predicate Filled(w: Writer, inputs: seq<Input>, jobs: seq<Job>)
    reads w, set d | d in w.dir, set d | d in w.dir :: d.cell
  {
    && |w.dir| == |jobs| <= |inputs| && AllStartable(jobs)
    && forall k :: 0 <= k < |jobs| ==>
         w.dir[k].cell == inputs[k].cell && Registers(w.dir[k], ItemsOf(w.lib, jobs)[k], k)
  }

  ghost predicate OwnInputs(w: Writer, inputs: seq<Input>)
    reads w
  {
    && (forall i :: 0 <= i < |inputs| ==> inputs[i].cell !in w.repr)
    && (forall i, j :: 0 <= i < j < |inputs| ==> inputs[i].cell != inputs[j].cell)
  }

  /** The next part joins the ones that are finished. */
  method AddNext(w: Writer, inputs: seq<Input>, i: nat, ghost jobs: seq<Job>) returns (r: Result<bytes>)
    requires w.Valid() && w.detached && OwnInputs(w, inputs) && Filled(w, inputs, jobs) && |jobs| == i < |inputs|
    modifies w`dir, w`repr, inputs[i].cell
    ensures w.Valid() && fresh(w.repr - old(w.repr)) && OwnInputs(w, inputs) && old(w.dir) <= w.dir
    ensures forall k :: |old(w.dir)| <= k < |w.dir| ==> fresh(w.dir[k])
    ensures match CreateError(w.lib, old(inputs[i].cell.fh), false)
            case Some(e) => r == Err(e) && w.dir == old(w.dir)
            case None =>
              var job := old(JobOf(inputs[i].cell.fh, inputs[i].writes, inputs[i].rnd));
              && Startable(job) && r == Ok(ItemOf(w.lib, job).part) && Filled(w, inputs, jobs + [job])
  {
    hide CreateError, ItemOf, LocalHeader, Created, Writer.Valid, JobPayload;
    r := AddPart(w, inputs[i], i);
    if r.Ok? {
      MoreItems(w.lib, jobs, old(JobOf(inputs[i].cell.fh, inputs[i].writes, inputs[i].rnd)));
    }
  }

  lemma NoParts(lib: Lib)
    ensures Parts(ItemsOf(lib, [])) == []
  {
  }

  /** Creates, writes and closes the parts one after the other. */
  method AddParts(w: Writer, inputs: seq<Input>) returns (r: Result<bytes>, ghost jobs: seq<Job>)
    requires w.Valid() && w.detached && w.dir == [] && w.centralDirectory == None && OwnInputs(w, inputs)
    modifies w`dir, w`repr, set i | 0 <= i < |inputs| :: inputs[i].cell
    ensures w.Valid() && forall k :: 0 <= k < |w.dir| ==> fresh(w.dir[k])
    ensures Filled(w, inputs, jobs)
    ensures forall i :: 0 <= i < |jobs| ==> jobs[i] == old(JobOf(inputs[i].cell.fh, inputs[i].writes, inputs[i].rnd))
    ensures if |jobs| == |inputs| then r == Ok(Parts(ItemsOf(w.lib, jobs)))
            else r.Err? && CreateError(w.lib, old(inputs[|jobs|].cell.fh), false) == Some(r.error)
  {
    hide CreateError, ItemOf, ItemsOf, Startable, Writer.Valid, JobPayload, Registers, Parts;
    var parts: bytes := [];
    jobs := [];
    NoParts(w.lib);
    var i := 0;
    while i < |inputs|
      invariant 0 <= i <= |inputs| && |jobs| == i
      invariant w.Valid() && OwnInputs(w, inputs) && Filled(w, inputs, jobs)
      invariant forall k :: 0 <= k < |w.dir| ==> fresh(w.dir[k])
      invariant forall k :: 0 <= k < i ==> jobs[k] == old(JobOf(inputs[k].cell.fh, inputs[k].writes, inputs[k].rnd))
      invariant forall k :: i <= k < |inputs| ==> inputs[k].cell.fh == old(inputs[k].cell.fh)
      invariant parts == Parts(ItemsOf(w.lib, jobs))
    {
      var part := AddNext(w, inputs, i, jobs);
      if part.Err? {
        return Err(part.error), jobs;
      }
      ghost var job := old(JobOf(inputs[i].cell.fh, inputs[i].writes, inputs[i].rnd));
      MoreItems(w.lib, jobs, job);
      jobs := jobs + [job];
      parts := parts + part.value;
      i := i + 1;
    }
    r := Ok(parts);
  }

  /** The parts of detached inputs, each created, written and closed on its own,
      followed by the generated directory: the archive that the sequential writer
      makes of the same jobs. An input that cannot be created ends the run. */
  method AssembleParts(w: Writer, inputs: seq<Input>) returns (r: Result<bytes>, ghost jobs: seq<Job>)
    requires w.Valid() && w.detached && w.dir == [] && w.centralDirectory == None && OwnInputs(w, inputs)
    modifies w`dir, w`repr, w`centralDirectory, set i | 0 <= i < |inputs| :: inputs[i].cell
    ensures w.Valid() && |jobs| <= |inputs| && AllStartable(jobs)
    ensures forall i :: 0 <= i < |jobs| ==> jobs[i] == old(JobOf(inputs[i].cell.fh, inputs[i].writes, inputs[i].rnd))
    ensures |jobs| < |inputs| ==> r.Err? && CreateError(w.lib, old(inputs[|jobs|].cell.fh), false) == Some(r.error)
    ensures |jobs| == |inputs| && (forall i :: 0 <= i < |jobs| ==> |JobPayload(w.lib, jobs[i])| < TWO64) ==>
              r == ArchiveBytes(0, ItemsOf(w.lib, jobs))
  {
    hide CreateError, ItemsOf, Writer.Valid, ArchiveBytes, JobPayload, Parts, JobOf, AllStartable, AllRegistered;
    hide Writer.Generated, Startable, Registers, ItemOf;
    r, jobs := AddParts(w, inputs);
    if r.Err? {
      return;
    }
    ghost var done := w.Generated();
    if forall k :: 0 <= k < |jobs| ==> |JobPayload(w.lib, jobs[k])| < TWO64 {
      InPlace(w, inputs, jobs);
      DetachedRun(w, jobs, Ranks(|jobs|));
    }
    r := Finish(w, r.value);
  }

  function Ranks(n: nat): (r: seq<int>)
    ensures |r| == n && forall i :: 0 <= i < n ==> r[i] == i
  {
    seq(n, i => i)
  }

  /** The assembled parts, followed by the directory. */
  method Finish(w: Writer, parts: bytes) returns (r: Result<bytes>)
    requires w.Valid() && w.detached
    modifies w`dir, w`centralDirectory, w.dir
    ensures w.Valid() && r == Join(Ok(parts), old(w.Generated()))
  {
    hide Writer.Valid, Writer.Generated;
    var tail :- w.GetCentralDirectoryBytes();
    r := Ok(parts + tail);
  }

  lemma InPlace(w: Writer, inputs: seq<Input>, jobs: seq<Job>)
    requires Filled(w, inputs, jobs)
    ensures AllStartable(jobs) && AllRegistered(w, jobs, Ranks(|jobs|))
  {
    hide ItemsOf, AllStartable;
    var items, orders := ItemsOf(w.lib, jobs), Ranks(|jobs|);
    forall i | 0 <= i < |jobs| ensures HasPart(w, items[i], orders[i]) {
      assert Registers(w.dir[i], items[i], orders[i]);
    }
  }
}
