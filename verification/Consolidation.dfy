/** Copied parts merged into one archive under a common password. */
module Consolidation {
  import opened Bytes
  import opened Header
  import opened Streams
  import opened Archive
  import opened LocalPart
  import opened Jobs
  import opened Stripper
  import opened Writing
  import opened Assembly
  import opened Opening
  import opened Contents
  import opened RawCopy
  import opened Rekeying

  // ---------------------------------------------------------------- the documented use

  /** A part to be copied: where it comes from, its password, its new metadata, the random draws. */
  datatype Part = Part(src: Source, password: bytes, change: Overridable -> Overridable, rnd: nat -> byte)

  /** The parts have sources of their own. */
  ghost predicate OwnSources(w: Writer, parts: seq<Part>)
    reads w
  {
    && (forall i :: 0 <= i < |parts| ==> parts[i].src !in w.repr)
    && (forall i, j :: 0 <= i < j < |parts| ==> parts[i].src != parts[j].src)
  }

  /** The entry is the copy of a part, and could be created. */
  ghost predicate CopiedFrom(lib: Lib, copy: Job, p: Part, input: bytes, newPassword: bytes) {
    && IsCopy(copy, input, p.src.last, p.password, newPassword, p.change, p.rnd)
    && CreateError(lib, copy.fh, true) == None
  }

  lemma CopyStarts(lib: Lib, copy: Job, p: Part, input: bytes, newPassword: bytes)
    requires IsCopy(copy, input, p.src.last, p.password, newPassword, p.change, p.rnd)
    requires CopyError(lib, false, input, p.src.last, p.password, newPassword, p.change) == None
    ensures CopiedFrom(lib, copy, p, input, newPassword)
  {
    hide LocalFile, SourceData, SourceSums, CopiedHeader, CreateError;
  }

  /** Copies the parts one after the other and closes the archive: it then holds
      the earlier entries and exactly the copies, in order. */
  method Consolidate(w: Writer, parts: seq<Part>, newPassword: bytes) returns (r: Result<()>)
    requires w.Valid() && !w.detached && !w.closed && !w.Open() && OwnSources(w, parts)
    modifies w.repr, set i | 0 <= i < |parts| :: parts[i].src
    ensures w.Valid() && w.base == old(w.base)
    ensures r.Ok? ==>
      && w.closed && |w.jobs| == |old(w.jobs)| + |parts| && old(w.jobs) <= w.jobs && AllStartable(w.jobs)
      && ArchiveBytes(w.base, ItemsOf(w.lib, w.jobs)) == Ok(w.cw.data)
    ensures r.Ok? ==> forall i :: 0 <= i < |parts| ==>
      CopiedFrom(w.lib, w.jobs[|old(w.jobs)| + i], parts[i], old(parts[i].src.rest), newPassword)
    ensures r.Err? && (forall i :: 0 <= i < |parts| ==>
        var p := parts[i];
        p.src.last == Eof && CopyError(w.lib, false, old(p.src.rest), Eof, p.password, newPassword, p.change) == None) ==>
      AllStartable(w.jobs) && ArchiveBytes(w.base, ItemsOf(w.lib, w.jobs)) == Err(r.error)
  {
    hide Writer.Valid, CopyError, CopiedFrom, IsCopy, CreateError, ArchiveBytes, ItemsOf, AllStartable, CopyFailed;
    var i := 0;
    while i < |parts|
      invariant 0 <= i <= |parts|
      invariant w.Valid() && !w.closed && !w.Open() && w.base == old(w.base) && fresh(w.repr - old(w.repr))
      invariant |w.jobs| == |old(w.jobs)| + i && old(w.jobs) <= w.jobs
      invariant forall k :: i <= k < |parts| ==> parts[k].src.rest == old(parts[k].src.rest)
      invariant forall k :: 0 <= k < i ==> CopiedFrom(w.lib, w.jobs[|old(w.jobs)| + k], parts[k], old(parts[k].src.rest), newPassword)
    {
      w.OwnsOutput();
      var p := parts[i];
      var done := CopyRawPart(w, p.src, p.password, newPassword, p.change, p.rnd);
      if done.Err? {
        return done;
      }
      CopyStarts(w.lib, w.jobs[|w.jobs| - 1], p, old(p.src.rest), newPassword);
      i := i + 1;
    }
    w.OwnsOutput();
    r := w.Close();
  }

  // ---------------------------------------------------------------- what the merged archive holds

  /** A part that the writer made, that can be copied, and what it holds. */
  ghost predicate Copyable(lib: Lib, job: Job, content: bytes, password: bytes) {
    && Holds(lib, job, content) && !job.fh.WritesAes()
    && job.fh.password == (if job.fh.IsEncrypted() then Some(password) else None)
    && (job.fh.IsEncrypted() ==> password != [] && job.fh.compMethod != WINZIP_AES_METHOD)
    && |JobPayload(lib, job)| < TWO64 && !Misread(FinalHeaderOf(lib, job), JobPayload(lib, job))
    && LocalHeader(Created(job.fh)).Ok?
  }

  /** An archive with a copied part, read back and opened with the common new
      password, delivers the content of the original; other entries may be
      copies too, or not. */
  lemma MergedContent(lib: Lib, prefix: bytes, jobs: seq<Job>, i: nat, original: Job, content: bytes, p: Part,
                      newPassword: bytes, deferAuth: bool)
    requires Sound(lib, jobs) && Legible(prefix, ItemsOf(lib, jobs)) && i < |jobs|
    requires Copyable(lib, original, content, p.password) && p.src.last == Eof
    requires CopiedFrom(lib, jobs[i], p, ItemOf(lib, original).part, newPassword)
    ensures var file := prefix + ArchiveBytes(|prefix|, ItemsOf(lib, jobs)).value;
            var password := if newPassword != [] && original.fh.IsEncrypted() then Some(newPassword) else None;
            && Init(file).Ok? && i < |Init(file).value.files|
            && OpenFile(lib, file, Unlocked(Init(file).value.files[i], password, deferAuth)) == Ok((content, Eof))
  {
    hide Holds, Misread, ItemOf, JobPayload, FinalHeaderOf, Created, LocalHeader, CreateError, IsCopy, Init, Legible, OpenFile;
    hide Unlocked, ItemsOf, ArchiveBytes, Sound;
    CopyDraws(jobs[i], ItemOf(lib, original).part, p, newPassword);
    CopyHolds(lib, original, content, p.password, newPassword, p.change, jobs[i]);
    CopyPassword(lib, original, content, jobs[i], p, newPassword);
    RunContents(lib, prefix, jobs, i, content, deferAuth);
  }

  lemma CopyDraws(copy: Job, input: bytes, p: Part, newPassword: bytes)
    requires IsCopy(copy, input, p.src.last, p.password, newPassword, p.change, p.rnd)
    ensures copy.rnd == p.rnd
  {
    hide LocalFile, SourceData, SourceSums, CopiedHeader;
  }

  lemma CopyPassword(lib: Lib, original: Job, content: bytes, copy: Job, p: Part, newPassword: bytes)
    requires Copyable(lib, original, content, p.password) && p.src.last == Eof
    requires CopiedFrom(lib, copy, p, ItemOf(lib, original).part, newPassword)
    ensures copy.fh.password == if newPassword != [] && original.fh.IsEncrypted() then Some(newPassword) else None
  {
    hide Misread, ItemOf, JobPayload, FinalHeaderOf, Created, LocalHeader, CreateError, LocalFile, SourceData, SourceSums;
    hide CopiedHeader, HeaderFrom, Inflate, StreamOf;
    WrittenSource(lib, original, p.password);
    CopiedKeeps(LocalFile(ItemOf(lib, original).part, Eof).value.0, newPassword, p.change);
  }
}
