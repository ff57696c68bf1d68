/** Byte sinks and sources. A source delivers a finite sequence in pieces of any
    length, with a bounded number of empty reads, and ends with the end of file
    or with an error. */
module Streams {
  import opened Bytes

  /** An append-only output that counts what it is given. */
  class CountWriter {
    var data: bytes
    var count: int

    constructor ()
      ensures data == [] && count == 0
    {
      data, count := [], 0;
    }

    method Write(p: bytes)
      modifies this
      ensures data == old(data) + p && count == old(count) + |p|
    {
      data := data + p;
      count := count + |p|;
    }
  }

  /** Counts the bytes of one payload on their way to the output. */
  class PartCounter {
    const w: CountWriter
    var count: int

    constructor (w: CountWriter)
      ensures this.w == w && count == 0
    {
      this.w, count := w, 0;
    }

    method Write(p: bytes)
      modifies this, w
      ensures w.data == old(w.data) + p && w.count == old(w.count) + |p| && count == old(count) + |p|
    {
      w.Write(p);
      count := count + |p|;
    }
  }

  /** `ReadAt` on a file: all `n` bytes, or an error. */
  function ReadAt(file: bytes, offset: int, n: nat): Result<bytes> {
    if offset < 0 then Err(ErrNegativeOffset)
    else if offset + n > |file| then Err(Eof)
    else Ok(file[offset..offset + n])
  }

  /** `io.NewSectionReader`: a view of `n` bytes of a file, cut off where the
      file ends. A negative `n` overflows to "up to the end". */
  function Section(file: bytes, offset: nat, n: int): bytes {
    var lo := if offset < |file| then offset else |file|;
    var hi := if n < 0 || offset + n > |file| then |file| else offset + n;
    file[lo..hi]
  }

  datatype Status = More | End(error: Error)

  class Source {
    var rest: bytes
    var empties: nat
    const last: Error

    /** `last` is reported once everything has been delivered; it is `Eof` for a source that does not fail. */
    constructor (data: bytes, empties: nat, last: Error)
      ensures rest == data && this.last == last
    {
      rest, this.empties, this.last := data, empties, last;
    }

    method Read(n: nat) returns (p: bytes, st: Status)
      modifies this
      ensures |p| <= n && p + rest == old(rest)
      ensures st.End? ==> rest == [] && st.error == last
      ensures empties <= old(empties)
      ensures st.More? && n > 0 ==> |rest| + empties < old(|rest| + empties)
    {
      var k: int := *;
      var announce: bool := *;
      if k < 0 || k > n || k > |rest| {
        k := if n < |rest| then n else |rest|;
      }
      if k == 0 && n > 0 {
        if empties > 0 {
          empties := empties - 1;
        } else if rest != [] {
          k := 1;
        } else {
          announce := true;
        }
      }
      p, rest := rest[..k], rest[k..];
      st := if rest == [] && announce then End(last) else More;
    }
  }

  /** `io.Copy` into memory: everything up to the end, and how it ended. */
  method ReadAll(src: Source) returns (all: bytes, end: Error)
    modifies src
    ensures all == old(src.rest) && end == src.last && src.rest == []
  {
    all := [];
    end := Eof;
    var going := true;
    while going
      invariant all + src.rest == old(src.rest)
      invariant !going ==> src.rest == [] && end == src.last
      decreases going, |src.rest| + src.empties
    {
      var p, st := src.Read(512);
      Assoc(all, p, src.rest);
      all := all + p;
      if st.End? {
        going, end := false, st.error;
      }
    }
    Whole(all);
  }

  /** The outcome of Go's `io.ReadFull` on what a source still holds. */
  function FullResult(rest: bytes, last: Error, n: nat): Result<bytes> {
    if n <= |rest| then Ok(rest[..n])
    else if rest != [] && last == Eof then Err(UnexpectedEof)
    else Err(last)
  }

  /** How a short read ends on a stream that ends with `last` instead of the end of file. */
  function Ended(e: Error, last: Error): Error {
    if (e == Eof || e == UnexpectedEof) && last != Eof then last else e
  }

  lemma FullEnds(rest: bytes, last: Error, n: nat)
    ensures match FullResult(rest, Eof, n)
            case Ok(b) => FullResult(rest, last, n) == Ok(b) && n <= |rest| && |b| == n && Min(n, |rest|) == n
            case Err(e) => FullResult(rest, last, n) == Err(Ended(e, last))
  {
  }

  method ReadFull(src: Source, n: nat) returns (r: Result<bytes>)
    modifies src
    ensures r == FullResult(old(src.rest), src.last, n)
    ensures src.rest == old(src.rest)[Min(n, |old(src.rest)|)..]
  {
    var got: bytes := [];
    while |got| < n
      invariant |got| <= n && got + src.rest == old(src.rest)
      decreases |src.rest| + src.empties
    {
      var p, st := src.Read(n - |got|);
      got := got + p;
      if st.End? {
        assert got == old(src.rest);
        if |got| == n {
          assert old(src.rest)[..n] == got;
          return Ok(got);
        }
        return Err(if got != [] && st.error == Eof then UnexpectedEof else st.error);
      }
    }
    assert old(src.rest)[..n] == got;
    return Ok(got);
  }
}
