/** `descriptorStripper`: passes a payload through and takes the data descriptor off its end. */
module Stripper {
  import opened Bytes
  import opened Header
  import opened Streams
  import opened LocalPart

  datatype DataDescriptor = DataDescriptor(crc: uint32, csize: uint64, usize: uint64)

  /** A form a descriptor may have. */
  datatype Form = Form(size: nat, signed: bool, zip64: bool)

  const FORMS: seq<Form> := [
    Form(DATA_DESCRIPTOR64_LEN, true, true), Form(DATA_DESCRIPTOR_LEN, true, false),
    Form(DATA_DESCRIPTOR64_LEN - 4, false, true), Form(DATA_DESCRIPTOR_LEN - 4, false, false)]

  ghost predicate IsForm(c: Form) {
    c.size == DescriptorLen(c.zip64, c.signed)
  }

  /** The descriptor of the given form that the bytes `d` spell, if the signature is there. */
  function Spelled(d: bytes, c: Form): Option<DataDescriptor>
    requires IsForm(c) && |d| == c.size
  {
    if c.signed && Get32(d).0 != DATA_DESCRIPTOR_SIGNATURE then None else
    var (crc, s) := Get32(if c.signed then Get32(d).1 else d);
    if c.zip64 then
      var (csize, s) := Get64(s);
      Some(DataDescriptor(crc, csize, Get64(s).0))
    else
      var (csize, s) := Get32(s);
      Some(DataDescriptor(crc, csize, Get32(s).0))
  }

  /** The descriptor of that form at the end of `tail`, if its compressed size
      is the number of bytes of the input that precede it. */
  function Candidate(tail: bytes, total: nat, c: Form): Option<DataDescriptor>
    requires IsForm(c) && |tail| <= total
  {
    if |tail| < c.size then None else
    var d := Spelled(tail[|tail| - c.size..], c);
    if d.Some? && d.value.csize == total - c.size then d else None
  }

  /** Length and content of the first form that fits, from form `i` on. */
  function FirstFit(tail: bytes, total: nat, i: nat): (r: Option<(nat, DataDescriptor)>)
    requires |tail| <= total && i <= 4
    ensures r.Some? ==> r.value.0 <= |tail|
    decreases 4 - i
  {
    if i == 4 then None else
    var d := Candidate(tail, total, FORMS[i]);
    if d.Some? then Some((FORMS[i].size, d.value)) else FirstFit(tail, total, i + 1)
  }

  /** Payload and descriptor of a whole input. */
  function Strip(input: bytes, hasDescriptor: bool): (bytes, Option<DataDescriptor>) {
    if !hasDescriptor then (input, None) else
    var fit := FirstFit(input, |input|, 0);
    if fit == None then (input, None) else (input[..|input| - fit.value.0], Some(fit.value.1))
  }

  /** The last 24 bytes, or all there are, decide. */
  lemma {:induction false} FitOfTail(input: bytes, tail: bytes, i: nat)
    requires |tail| <= |input| && input[|input| - |tail|..] == tail
    requires |tail| >= DATA_DESCRIPTOR64_LEN || tail == input
    requires i <= 4
    ensures FirstFit(tail, |input|, i) == FirstFit(input, |input|, i)
    decreases 4 - i
  {
    hide Spelled;
    if i < 4 {
      var n := FORMS[i].size;
      if |tail| >= n {
        assert input[|input| - n..] == tail[|tail| - n..] by {
          assert input[|input| - |tail|..][|tail| - n..] == input[|input| - n..];
        }
      }
      FitOfTail(input, tail, i + 1);
    }
  }

  const STRIPPER_BUF_SIZE := 65536

  class DescriptorStripper {
    const r: Source
    const hasDescriptor: bool
    const buf: array<byte>
    var start: nat // pending bytes are buf[start..end]
    var end: nat
    var emitted: int
    var eof: bool
    var err: Option<Error>
    var desc: Option<DataDescriptor>
    ghost const input: bytes // everything the source will deliver
    ghost var out: bytes     // everything returned so far

    ghost predicate Valid()
      reads this, r, buf
    {
      && buf.Length == STRIPPER_BUF_SIZE && start <= end <= buf.Length
      && emitted == |out|
      && (eof ==> r.last == Eof && out + buf[start..end] == Strip(input, hasDescriptor).0
                  && desc == Strip(input, hasDescriptor).1 && r.rest == [])
      && (!eof ==> desc == None && out + buf[start..end] + r.rest == input)
      && (!eof && hasDescriptor && out != [] ==> end - start >= DATA_DESCRIPTOR64_LEN)
      && (err.Some? ==> !eof && err.value == r.last && r.last != Eof && r.rest == [])
    }

    constructor (r: Source, hasDescriptor: bool)
      ensures Valid() && out == [] && !eof && err == None
      ensures this.r == r && this.hasDescriptor == hasDescriptor && input == r.rest && fresh(buf)
    {
      this.r, this.hasDescriptor := r, hasDescriptor;
      buf := new byte[STRIPPER_BUF_SIZE](_ => 0);
      start, end, emitted, eof, err, desc := 0, 0, 0, false, None, None;
      input, out := r.rest, [];
      new;
      Whole(r.rest);
      assert out + buf[start..end] == [];
    }

    function HoldBack(): nat
      reads this
    {
      if hasDescriptor && !eof then DATA_DESCRIPTOR64_LEN else 0
    }

    /** Whatever the source and the caller do about lengths, the returned
        pieces concatenate to one function of the whole input. */
    method Read(n: nat) returns (p: bytes, st: Status)
      requires Valid()
      modifies this`start, this`end, this`emitted, this`eof, this`err, this`desc, this`out, r, buf
      ensures Valid() && |p| <= n && out == old(out) + p
      ensures st.More? ==> n == 0 || p != []
      ensures st.End? ==> p == [] && st.error == r.last
      ensures st == End(Eof) ==> out == Strip(input, hasDescriptor).0 && desc == Strip(input, hasDescriptor).1
      ensures |r.rest| + r.empties <= old(|r.rest| + r.empties)
    {
      if n == 0 {
        Whole(out);
        return [], More;
      }
      while true
        invariant Valid() && out == old(out)
        invariant |r.rest| + r.empties <= old(|r.rest| + r.empties)
        decreases !eof && err == None, |r.rest| + r.empties
      {
        var avail := end - start - HoldBack();
        if avail > 0 {
          p := Emit(n, avail);
          return p, More;
        }
        if eof {
          Whole(out);
          assert buf[start..end] == [];
          return [], End(Eof);
        }
        if err.Some? {
          Whole(out);
          return [], End(err.value);
        }
        Refill();
      }
    }

    method Emit(n: nat, avail: nat) returns (p: bytes)
      requires Valid() && n > 0 && avail > 0 && avail + HoldBack() == end - start
      modifies this`start, this`emitted, this`out
      ensures Valid() && 0 < |p| <= n && out == old(out) + p
    {
      hide Strip;
      var m := if n < avail then n else avail;
      p := buf[start..start + m];
      ghost var pending, rest := buf[start + m..end], r.rest;
      assert buf[start..end] == p + pending;
      Assoc(out, p, pending);
      start := start + m;
      emitted := emitted + m;
      out := out + p;
    }

    /** Moves the few pending bytes to the front and reads behind them. */
    method Refill()
      requires Valid() && !eof && err == None && end - start <= DATA_DESCRIPTOR64_LEN
      modifies this`start, this`end, this`eof, this`err, this`desc, r, buf
      ensures Valid()
      ensures |r.rest| + r.empties <= old(|r.rest| + r.empties)
      ensures eof || err.Some? || |r.rest| + r.empties < old(|r.rest| + r.empties)
    {
      hide Strip;
      if start > 0 {
        CopyDown();
      }
      ghost var pending := buf[start..end];
      var q, st := r.Read(buf.Length - end);
      Append(q);
      Assoc(out + pending, q, r.rest);
      Assoc(out, pending, q);
      if st.End? {
        if st.error == Eof {
          Whole(out + buf[start..end]);
          eof := true;
          ParseDescriptor();
        } else {
          err := Some(st.error);
        }
      }
    }

    method CopyDown()
      requires start <= end <= buf.Length
      modifies this`start, this`end, buf
      ensures start == 0 && end <= buf.Length && buf[start..end] == old(buf[start..end])
    {
      ghost var pending := buf[start..end];
      var k := 0;
      while k < end - start
        invariant 0 <= k <= end - start == |pending|
        invariant start == old(start) && end == old(end)
        invariant forall j :: 0 <= j < k ==> buf[j] == pending[j]
        invariant forall j :: k <= j < |pending| ==> buf[start + j] == pending[j]
      {
        buf[k] := buf[start + k];
        k := k + 1;
      }
      start, end := 0, k;
      assert buf[0..k] == pending;
    }

    method Append(q: bytes)
      requires start <= end && end + |q| <= buf.Length
      modifies this`end, buf
      ensures end == old(end) + |q| && buf[start..end] == old(buf[start..end]) + q
    {
      ghost var pending := buf[start..end];
      var k := 0;
      while k < |q|
        invariant 0 <= k <= |q|
        invariant start == old(start) && end == old(end) && |pending| == end - start
        invariant forall j :: 0 <= j < |pending| ==> buf[start + j] == pending[j]
        invariant forall j :: 0 <= j < k ==> buf[end + j] == q[j]
      {
        buf[end + k] := q[k];
        k := k + 1;
      }
      end := end + |q|;
      assert buf[start..end] == pending + q;
    }

    /** Tries the forms in order and cuts the first that fits off the pending bytes. */
    method ParseDescriptor()
      requires buf.Length == STRIPPER_BUF_SIZE && start <= end <= buf.Length && emitted == |out|
      requires out + buf[start..end] == input && desc == None
      requires hasDescriptor && out != [] ==> end - start >= DATA_DESCRIPTOR64_LEN
      modifies this`end, this`desc
      ensures start <= end <= buf.Length
      ensures out + buf[start..end] == Strip(input, hasDescriptor).0 && desc == Strip(input, hasDescriptor).1
    {
      hide Strip, FirstFit, Candidate;
      NothingToStrip(input);
      if !hasDescriptor {
        return;
      }
      var tail := buf[start..end];
      assert out + tail == input;
      StripOfTail(out, tail);
      var fit := FindForm(tail, emitted + |tail|);
      if fit.Some? {
        desc := Some(fit.value.1);
        end := end - fit.value.0;
        SliceOfSlice(buf, start, end, tail);
      }
    }

    /** Tries the forms in order. */
    method FindForm(tail: bytes, total: nat) returns (r: Option<(nat, DataDescriptor)>)
      requires |tail| <= total
      ensures r == FirstFit(tail, total, 0)
    {
      hide Candidate, FirstFit;
      var i := 0;
      while i < |FORMS|
        invariant 0 <= i <= 4
        invariant FirstFit(tail, total, i) == FirstFit(tail, total, 0)
      {
        var d := TryForm(tail, total, FORMS[i]);
        NextForm(tail, total, i);
        if d.Some? {
          return Some((FORMS[i].size, d.value));
        }
        i := i + 1;
      }
      NextForm(tail, total, i);
      return None;
    }

    method TryForm(tail: bytes, total: nat, c: Form) returns (d: Option<DataDescriptor>)
      requires IsForm(c) && |tail| <= total
      ensures d == Candidate(tail, total, c)
    {
      hide Spelled;
      if |tail| < c.size {
        return None;
      }
      d := Spelled(tail[|tail| - c.size..], c);
      if d.Some? && d.value.csize != total - c.size {
        d := None;
      }
    }
  }

  lemma NextForm(tail: bytes, total: nat, i: nat)
    requires |tail| <= total && i <= 4
    ensures i == 4 ==> FirstFit(tail, total, i) == None
    ensures i < 4 ==> var d := Candidate(tail, total, FORMS[i]);
                      && (d.Some? ==> FORMS[i].size <= |tail|)
                      && FirstFit(tail, total, i) == if d.Some? then Some((FORMS[i].size, d.value)) else FirstFit(tail, total, i + 1)
  {
    hide Spelled;
  }

  /** What the pending bytes at the end of an input say about all of it. */
  lemma StripOfTail(out: bytes, tail: bytes)
    requires out != [] ==> |tail| >= DATA_DESCRIPTOR64_LEN
    ensures var fit := FirstFit(tail, |out + tail|, 0);
            && (fit == None ==> Strip(out + tail, true) == (out + tail, None))
            && (fit.Some? ==> Strip(out + tail, true) == (out + tail[..|tail| - fit.value.0], Some(fit.value.1)))
  {
    hide Candidate, FirstFit;
    TailFits(out, tail);
    var fit := FirstFit(tail, |out + tail|, 0);
    if fit.Some? {
      CutTail(out, tail, fit.value.0);
    }
  }

  lemma TailFits(out: bytes, tail: bytes)
    requires out != [] ==> |tail| >= DATA_DESCRIPTOR64_LEN
    ensures FirstFit(tail, |out + tail|, 0) == FirstFit(out + tail, |out + tail|, 0)
  {
    hide Candidate, FirstFit;
    Cut(out, tail);
    Whole(tail);
    FitOfTail(out + tail, tail, 0);
  }

  lemma NothingToStrip(input: bytes)
    ensures Strip(input, false) == (input, None)
  {
  }

  lemma SliceOfSlice(buf: array<byte>, start: nat, end: nat, s: bytes)
    requires start <= end <= start + |s| <= buf.Length && buf[start..start + |s|] == s
    ensures buf[start..end] == s[..end - start]
  {
  }

  lemma CutTail(out: bytes, tail: bytes, n: nat)
    requires n <= |tail|
    ensures out + tail[..|tail| - n] == (out + tail)[..|out + tail| - n]
  {
  }

  // ---------------------------------------------------------------- disambiguation

  /** The descriptor the writer puts behind a payload, as a reader sees it. */
  function WrittenDescriptor(h: FileHeader): DataDescriptor {
    DataDescriptor(h.crc, h.csize, h.usize)
  }

  function FormOf(h: FileHeader): Form {
    Form(DescriptorLen(h.IsZip64(), !h.WritesAes()), !h.WritesAes(), h.IsZip64())
  }

  lemma SpelledWritten(h: FileHeader)
    requires !h.IsZip64() ==> h.csize32 == h.csize && h.usize32 == h.usize
    ensures Spelled(Descriptor(h), FormOf(h)) == Some(WrittenDescriptor(h))
  {
    hide U32, U64, P32, P64;
  }

  /** The end of a payload in front of a 32-bit descriptor without signature, read as a signed zip64 descriptor. */
  predicate LooksSigned(h: FileHeader, payload: bytes) {
    var n := |payload|;
    n >= 12 && h.crc == 0 && U32(payload[n - 12..]) == DATA_DESCRIPTOR_SIGNATURE && U32(payload[n - 4..]) == n - 12
  }

  /** The same, read as a zip64 descriptor without signature. */
  predicate LooksUnsigned(h: FileHeader, payload: bytes) {
    var n := |payload|;
    n >= 8 && h.crc == 0 && U32(payload[n - 4..]) == n - 8
  }

  /** When a form that is tried earlier reads other bytes as a descriptor. */
  predicate Misread(h: FileHeader, payload: bytes) {
    var n := |payload|;
    if !h.WritesAes() then
      !h.IsZip64() && h.crc == 0 && n == DATA_DESCRIPTOR_SIGNATURE as int + 8
      && U32(payload[n - 8..]) == DATA_DESCRIPTOR_SIGNATURE
    else if h.IsZip64() then n == DATA_DESCRIPTOR_SIGNATURE && h.usize % TWO32 == n + 4
    else LooksSigned(h, payload) || LooksUnsigned(h, payload)
  }

  ghost predicate SizesAgree(h: FileHeader, payload: bytes) {
    h.csize == |payload| && (!h.IsZip64() ==> h.csize32 == h.csize && h.usize32 == h.usize)
  }

  /** Stripping gives back the payload exactly when no earlier form fits. */
  lemma {:induction false} StripAt(input: bytes, i: nat, f: nat, n: nat, d: DataDescriptor)
    requires i <= f < 4 && Candidate(input, |input|, FORMS[f]) == Some(d)
    requires n == |input| - FORMS[f].size
    ensures FirstFit(input, |input|, i) == Some((FORMS[f].size, d)) <==>
              forall j :: i <= j < f ==> Candidate(input, |input|, FORMS[j]) == None
    decreases f - i
  {
    hide Spelled, Candidate;
    NextForm(input, |input|, i);
    if i < f {
      StripAt(input, i + 1, f, n, d);
      assert FORMS[i].size != FORMS[f].size;
    }
  }

  lemma StripIsFit(input: bytes, size: nat, d: DataDescriptor)
    requires size <= |input|
    ensures Strip(input, true) == (input[..|input| - size], Some(d)) <==> FirstFit(input, |input|, 0) == Some((size, d))
  {
    hide FirstFit;
    var fit := FirstFit(input, |input|, 0);
    if fit.Some? && fit.value.0 != size {
      assert |input[..|input| - fit.value.0]| != |input[..|input| - size]|;
    }
  }

  function FormIndex(h: FileHeader): (f: nat)
    ensures f < 4 && FORMS[f] == FormOf(h)
  {
    if h.WritesAes() then (if h.IsZip64() then 2 else 3) else if h.IsZip64() then 0 else 1
  }

  lemma OwnFormFits(h: FileHeader, payload: bytes)
    requires SizesAgree(h, payload)
    ensures var input := payload + Descriptor(h);
            Candidate(input, |input|, FORMS[FormIndex(h)]) == Some(WrittenDescriptor(h))
  {
    hide Spelled, Descriptor;
    SpelledWritten(h);
    Cut(payload, Descriptor(h));
  }

  /** The descriptor behind any payload is recognised, and the payload recovered
      to the byte, except in the cases of `Misread`. */
  lemma StripWritten(h: FileHeader, payload: bytes)
    requires SizesAgree(h, payload)
    ensures Strip(payload + Descriptor(h), true) == (payload, Some(WrittenDescriptor(h))) <==> !Misread(h, payload)
  {
    hide Strip, FirstFit, Candidate, Descriptor, Misread;
    var input, d := payload + Descriptor(h), WrittenDescriptor(h);
    var f := FormIndex(h);
    OwnFormFits(h, payload);
    StripAt(input, 0, f, |payload|, d);
    StripIsFit(input, FORMS[f].size, d);
    Cut(payload, Descriptor(h));
    EarlierForms(h, payload);
  }

  /** The signed case is met: by a payload of 128 MiB that ends like the start of a descriptor. */
  lemma SignedMisread(h: FileHeader)
    requires !h.WritesAes() && h.crc == 0 && h.usize32 == h.usize < UINT32_MAX
    requires h.csize == h.csize32 == DATA_DESCRIPTOR_SIGNATURE as int + 8
    ensures var payload := Zeros(DATA_DESCRIPTOR_SIGNATURE) + (P32(DATA_DESCRIPTOR_SIGNATURE) + P32(0));
            && SizesAgree(h, payload) && Misread(h, payload)
            && Strip(payload + Descriptor(h), true) != (payload, Some(WrittenDescriptor(h)))
  {
    hide Strip, Descriptor, P32, U32;
    var p, q := P32(DATA_DESCRIPTOR_SIGNATURE), P32(0);
    var payload := Zeros(DATA_DESCRIPTOR_SIGNATURE) + (p + q);
    assert payload[|payload| - 8..] == p + q;
    ReadLocal(p, q);
    StripWritten(h, payload);
  }

  /** The unsigned case is met by the eight zero bytes of a payload. */
  lemma UnsignedMisread(h: FileHeader)
    requires h.WritesAes() && h.crc == 0 && h.csize == h.csize32 == 8 && h.usize32 == h.usize < UINT32_MAX
    ensures SizesAgree(h, Zeros(8)) && Misread(h, Zeros(8))
    ensures Strip(Zeros(8) + Descriptor(h), true) != (Zeros(8), Some(WrittenDescriptor(h)))
  {
    hide Strip, Descriptor;
    var z := Zeros(8)[4..];
    assert z[..2] == [0, 0] && z[2..4] == [0, 0];
    StripWritten(h, Zeros(8));
  }

  lemma EarlierForms(h: FileHeader, payload: bytes)
    requires SizesAgree(h, payload)
    ensures var input := payload + Descriptor(h);
            (forall j :: 0 <= j < FormIndex(h) ==> Candidate(input, |input|, FORMS[j]) == None) <==> !Misread(h, payload)
  {
    hide Candidate, Descriptor, U32;
    var input := payload + Descriptor(h);
    if h.WritesAes() {
      if h.IsZip64() {
        UnsignedBig(h, payload);
        assert Misread(h, payload) <==> Candidate(input, |input|, FORMS[1]) != None;
      } else {
        UnsignedSmall(h, payload);
        assert Misread(h, payload) <==>
          Candidate(input, |input|, FORMS[0]) != None || Candidate(input, |input|, FORMS[2]) != None;
      }
    } else if !h.IsZip64() {
      SignedSmall(h, payload);
      assert Misread(h, payload) <==> Candidate(input, |input|, FORMS[0]) != None;
    }
  }

  lemma SignedSmall(h: FileHeader, payload: bytes)
    requires SizesAgree(h, payload) && !h.WritesAes() && !h.IsZip64()
    ensures var input := payload + Descriptor(h);
            Candidate(input, |input|, FORMS[0]) != None <==> Misread(h, payload)
  {
    hide U32, P32, U64, Descriptor;
    var input, n, d := payload + Descriptor(h), |payload|, Descriptor(h);
    if n >= 8 {
      var p := payload[n - 8..];
      TailOf(payload, d, 24);
      SplitEight(p);
      DescriptorIs(h);
      ReadAcross([], DATA_DESCRIPTOR_SIGNATURE, h.crc, Put32(h.csize32, Put32(h.usize32, [])));
      ReadFour(p[..4], p[4..] + d);
      ReadFour(p[4..], d);
      Assoc(p[..4], p[4..], d);
      ReadHead(p);
      assert Spelled(p + d, FORMS[0]) == if U32(p) != DATA_DESCRIPTOR_SIGNATURE then None
        else Some(DataDescriptor(U32(p[4..]), DATA_DESCRIPTOR_SIGNATURE as int + TWO32 * h.crc as int,
                                 Get64(Put32(h.csize32, Put32(h.usize32, []))).0));
    }
  }

  /** What a form makes of the end of the input. */
  lemma CandidateIs(payload: bytes, d: bytes, c: Form)
    requires IsForm(c) && |d| <= c.size
    ensures var input := payload + d;
            Candidate(input, |input|, c) ==
              if |input| < c.size then None else
                var x := Spelled(payload[|input| - c.size..] + d, c);
                if x.Some? && x.value.csize == |input| - c.size then x else None
  {
    hide Spelled;
    if |payload + d| >= c.size {
      TailOf(payload, d, c.size);
    }
  }

  lemma UnsignedBig(h: FileHeader, payload: bytes)
    requires SizesAgree(h, payload) && h.WritesAes() && h.IsZip64()
    ensures var input := payload + Descriptor(h);
            && Candidate(input, |input|, FORMS[0]) == None
            && (Candidate(input, |input|, FORMS[1]) != None <==> Misread(h, payload))
  {
    hide U32, Descriptor, Candidate, Spelled;
    var d := Descriptor(h);
    CandidateIs(payload, d, FORMS[0]);
    if |payload| >= 4 {
      SpelledBehindFour(h, payload[|payload| - 4..]);
    }
    ShortTail(h, payload);
  }

  /** Four bytes in front of the descriptor: its size is read as the content size. */
  lemma SpelledBehindFour(h: FileHeader, p: bytes)
    requires |p| == 4 && h.WritesAes() && h.IsZip64()
    ensures var x := Spelled(p + Descriptor(h), FORMS[0]); x.Some? ==> x.value.csize == h.csize
  {
    hide U32, P32, U64, P64, Descriptor;
    DescriptorIs(h);
    ReadFour(p, Descriptor(h));
  }

  /** The last 16 of the 20 bytes of the descriptor, read as a form of 32-bit sizes. */
  lemma ShortTail(h: FileHeader, payload: bytes)
    requires SizesAgree(h, payload) && h.WritesAes() && h.IsZip64()
    ensures var input := payload + Descriptor(h);
            Candidate(input, |input|, FORMS[1]) != None <==>
              |payload| == DATA_DESCRIPTOR_SIGNATURE && h.usize % TWO32 == |payload| + 4
  {
    hide U32, P32, U64, P64, Descriptor, Spelled;
    var body := Put64(h.csize, Put64(h.usize, []));
    DescriptorIs(h);
    Cut(P32(h.crc), body);
    TailInside(payload, Descriptor(h), 16);
    SpelledHalves(h.csize, h.usize);
  }

  lemma TailInside(payload: bytes, d: bytes, size: nat)
    requires size <= |d|
    ensures (payload + d)[|payload + d| - size..] == d[|d| - size..]
  {
  }

  lemma SpelledHalves(csize: uint64, usize: uint64)
    ensures Spelled(Put64(csize, Put64(usize, [])), FORMS[1]) ==
      if csize % TWO32 != DATA_DESCRIPTOR_SIGNATURE then None
      else Some(DataDescriptor(csize / TWO32, usize % TWO32, usize / TWO32))
  {
    hide U32, P32, U64, P64;
    HalvesOf(csize, Put64(usize, []));
    HalvesOf(usize, []);
  }

  lemma UnsignedSmall(h: FileHeader, payload: bytes)
    requires SizesAgree(h, payload) && h.WritesAes() && !h.IsZip64()
    ensures var input := payload + Descriptor(h);
            && Candidate(input, |input|, FORMS[1]) == None
            && ((Candidate(input, |input|, FORMS[0]) != None || Candidate(input, |input|, FORMS[2]) != None)
                <==> Misread(h, payload))
  {
    hide LooksSigned, LooksUnsigned, Candidate, Descriptor, U32;
    UnsignedSmall0(h, payload);
    UnsignedSmall1(h, payload);
    UnsignedSmall2(h, payload);
  }

  lemma UnsignedSmall0(h: FileHeader, payload: bytes)
    requires SizesAgree(h, payload) && h.WritesAes() && !h.IsZip64()
    ensures var input := payload + Descriptor(h);
            Candidate(input, |input|, FORMS[0]) != None <==> LooksSigned(h, payload)
  {
    hide U32, Descriptor, Candidate, Spelled;
    var n := |payload|;
    CandidateIs(payload, Descriptor(h), FORMS[0]);
    if n >= 12 {
      assert payload[n - 12..][8..] == payload[n - 4..];
      SpelledBehindTwelve(h, payload[n - 12..]);
    }
  }

  /** Twelve bytes in front of the descriptor: a signature, a checksum, and the
      lower half of a size whose upper half is the real checksum. */
  lemma SpelledBehindTwelve(h: FileHeader, p: bytes)
    requires |p| == 12 && h.WritesAes() && !h.IsZip64()
    ensures var x := Spelled(p + Descriptor(h), FORMS[0]);
            && (x.Some? <==> U32(p) == DATA_DESCRIPTOR_SIGNATURE)
            && (x.Some? ==> x.value.csize == U32(p[8..]) as int + TWO32 * h.crc as int)
  {
    hide U32, P32, U64, Descriptor;
    var a, b, c, d := p[..4], p[4..8], p[8..], Descriptor(h);
    DescriptorIs(h);
    assert p == a + (b + c);
    Assoc(a, b + c, d);
    Assoc(b, c, d);
    ReadFour(a, b + (c + d));
    ReadFour(b, c + d);
    ReadHead(p);
    ReadAcross(c, h.crc, h.csize32, Put32(h.usize32, []));
  }

  lemma UnsignedSmall1(h: FileHeader, payload: bytes)
    requires SizesAgree(h, payload) && h.WritesAes() && !h.IsZip64()
    ensures var input := payload + Descriptor(h); Candidate(input, |input|, FORMS[1]) == None
  {
    hide U32, P32, U64, Descriptor;
    var n, d := |payload|, Descriptor(h);
    if n >= 4 {
      TailOf(payload, d, 16);
      DescriptorIs(h);
      ReadFour(payload[n - 4..], d);
    }
  }

  lemma UnsignedSmall2(h: FileHeader, payload: bytes)
    requires SizesAgree(h, payload) && h.WritesAes() && !h.IsZip64()
    ensures var input := payload + Descriptor(h);
            Candidate(input, |input|, FORMS[2]) != None <==> LooksUnsigned(h, payload)
  {
    hide U32, Descriptor, Candidate, Spelled;
    var n := |payload|;
    CandidateIs(payload, Descriptor(h), FORMS[2]);
    if n >= 8 {
      assert payload[n - 8..][4..] == payload[n - 4..];
      SpelledBehindEight(h, payload[n - 8..]);
    }
  }

  /** Eight bytes in front of the descriptor: the checksum is read as the upper half of the size. */
  lemma SpelledBehindEight(h: FileHeader, p: bytes)
    requires |p| == 8 && h.WritesAes() && !h.IsZip64()
    ensures var x := Spelled(p + Descriptor(h), FORMS[2]);
            x.Some? && x.value.csize == U32(p[4..]) as int + TWO32 * h.crc as int
  {
    hide U32, P32, U64, Descriptor;
    var a, b, d := p[..4], p[4..], Descriptor(h);
    DescriptorIs(h);
    Assoc(a, b, d);
    SplitEight(p);
    ReadFour(a, b + d);
    ReadAcross(b, h.crc, h.csize32, Put32(h.usize32, []));
  }

  // Reading at and across the seam between payload bytes and a descriptor.

  lemma DescriptorIs(h: FileHeader)
    ensures Descriptor(h) ==
      var sizes := if h.IsZip64() then Put64(h.csize, Put64(h.usize, [])) else Put32(h.csize32, Put32(h.usize32, []));
      if h.WritesAes() then Put32(h.crc, sizes) else Put32(DATA_DESCRIPTOR_SIGNATURE, Put32(h.crc, sizes))
  {
  }

  /** The end of a payload followed by a descriptor, as far back as a form reaches. */
  lemma TailOf(payload: bytes, d: bytes, size: nat)
    requires |d| <= size <= |payload| + |d|
    ensures (payload + d)[|payload + d| - size..] == payload[|payload| - (size - |d|)..] + d
  {
  }

  lemma SplitEight(p: bytes)
    requires |p| == 8
    ensures p == p[..4] + p[4..]
  {
  }

  lemma ReadFour(a: bytes, s: bytes)
    requires |a| == 4
    ensures Get32(a + s) == (U32(a), s)
  {
    Cut(a, s);
  }

  lemma ReadHead(p: bytes)
    requires |p| >= 4
    ensures U32(p[..4]) == U32(p)
  {
    assert p[..4][..2] == p[..2] && p[..4][2..4] == p[2..4];
  }

  lemma ReadAcross(a: bytes, x: uint32, y: uint32, rest: bytes)
    requires |a| == 4 || |a| == 0
    ensures var s := Put32(x, Put32(y, rest));
            && (a == [] ==> Get64(s) == (x as int + TWO32 * y as int, rest))
            && (|a| == 4 ==> Get64(a + s) == (U32(a) as int + TWO32 * x as int, Put32(y, rest)))
  {
    hide U32, P32, U16, P16;
    var s := Put32(x, Put32(y, rest));
    assert s[4..] == Put32(y, rest) && s[4..][4..] == s[8..] && s[4..8] == s[4..][..4];
    assert s[..8][..4] == s[..4] && s[..8][4..8] == s[4..8];
    if |a| == 4 {
      var t := a + s;
      Cut(a, s);
      assert t[4..8] == s[..4] && t[8..] == s[4..];
      assert t[..8][..4] == t[..4] && t[..8][4..8] == t[4..8];
    }
  }

  /** A 64-bit value read as two 32-bit ones. */
  lemma HalvesOf(v: uint64, rest: bytes)
    ensures var s := Put64(v, rest);
            && Get32(s).0 == v % TWO32 && Get32(Get32(s).1) == (v / TWO32, rest)
            && Put64(v, rest) == Put32(v % TWO32, Put32(v / TWO32, rest))
  {
    hide U32, U16, P16;
    Assoc(P32(v % TWO32), P32(v / TWO32), rest);
  }

  // ---------------------------------------------------------------- any input

  /** The fields of a descriptor of 24, 16, 20 or 12 bytes, by their places. */
  function FieldsAt(t: bytes): DataDescriptor
    requires |t| in {12, 16, 20, 24}
  {
    if |t| == 24 then DataDescriptor(U32(t[4..]), U64(t[8..]), U64(t[16..]))
    else if |t| == 16 then DataDescriptor(U32(t[4..]), U32(t[8..]), U32(t[12..]))
    else if |t| == 20 then DataDescriptor(U32(t), U64(t[4..]), U64(t[12..]))
    else DataDescriptor(U32(t), U32(t[4..]), U32(t[8..]))
  }

  /** The last bytes of the input are a descriptor of this size: signed if it
      has 24 or 16 bytes, and naming the number of bytes in front of it. */
  predicate EndsWith(input: bytes, size: nat)
    requires size in {12, 16, 20, 24}
  {
    |input| >= size &&
    var t := input[|input| - size..];
    (size == 24 || size == 16 ==> U32(t) == DATA_DESCRIPTOR_SIGNATURE) && FieldsAt(t).csize == |input| - size
  }

  lemma SpelledFields(t: bytes, c: Form)
    requires IsForm(c) && |t| == c.size
    ensures Spelled(t, c) == if c.signed && U32(t) != DATA_DESCRIPTOR_SIGNATURE then None else Some(FieldsAt(t))
  {
    hide U32, U64;
    Heads(t);
    if c.signed {
      Heads(t[4..]);
      assert t[4..][4..] == t[8..];
      if c.zip64 {
        Heads(t[8..]);
        Heads(t[16..]);
        assert t[8..][8..] == t[16..];
      } else {
        Heads(t[8..]);
        Heads(t[12..]);
        assert t[8..][4..] == t[12..];
      }
    } else {
      Heads(t[4..]);
      if c.zip64 {
        Heads(t[12..]);
        assert t[4..][8..] == t[12..];
      } else {
        Heads(t[8..]);
        assert t[4..][4..] == t[8..];
      }
    }
  }

  lemma Heads(b: bytes)
    ensures |b| >= 4 ==> U32(b[..4]) == U32(b)
    ensures |b| >= 8 ==> U64(b[..8]) == U64(b)
  {
    if |b| >= 4 {
      ReadHead(b);
    }
    if |b| >= 8 {
      assert b[..8][..4] == b[..4] && b[..8][4..8] == b[4..8];
    }
  }

  lemma CandidateEnds(input: bytes, c: Form)
    requires IsForm(c)
    ensures c.size in {12, 16, 20, 24}
    ensures Candidate(input, |input|, c) ==
      if EndsWith(input, c.size) then Some(FieldsAt(input[|input| - c.size..])) else None
  {
    hide U32, Spelled, FieldsAt;
    if |input| >= c.size {
      SpelledFields(input[|input| - c.size..], c);
    }
  }

  /** What stripping makes of any input. Nothing is lost: the payload is the
      front of the input, and what is taken off is the first of 24, 16, 20 and
      12 bytes that end the input as a descriptor, with its fields as they
      stand there; if none does, everything is payload. */
  lemma StripExactly(input: bytes)
    ensures var (data, d) := Strip(input, true);
            && data <= input
            && (d == None <==> !EndsWith(input, 24) && !EndsWith(input, 16) && !EndsWith(input, 20) && !EndsWith(input, 12))
            && (d == None ==> data == input)
            && (d.Some? ==>
                  var t := input[|data|..];
                  && |t| == (if EndsWith(input, 24) then 24 else if EndsWith(input, 16) then 16
                             else if EndsWith(input, 20) then 20 else 12)
                  && d.value == FieldsAt(t) && d.value.csize == |data|)
  {
    hide Candidate, FieldsAt, EndsWith;
    CandidateEnds(input, FORMS[0]);
    CandidateEnds(input, FORMS[1]);
    CandidateEnds(input, FORMS[2]);
    CandidateEnds(input, FORMS[3]);
    NextForm(input, |input|, 0);
    NextForm(input, |input|, 1);
    NextForm(input, |input|, 2);
    NextForm(input, |input|, 3);
    NextForm(input, |input|, 4);
    EndsNames(input, 24);
    EndsNames(input, 16);
    EndsNames(input, 20);
    EndsNames(input, 12);
  }

  lemma EndsNames(input: bytes, size: nat)
    requires size in {12, 16, 20, 24}
    ensures EndsWith(input, size) ==> |input| >= size && FieldsAt(input[|input| - size..]).csize == |input| - size
  {
    hide U32, FieldsAt;
  }
}
