/** Readers of a payload: cut off by a length or by its descriptor, and deciphered with ZipCrypto. */
module Payloads {
  import opened Bytes
  import opened Streams
  import opened Stripper
  import opened ZipCrypto

  /** `io.LimitedReader`, or a `descriptorStripper`, over a source. */
  class PayloadReader {
    const src: Source
    const stripper: DescriptorStripper?
    var left: nat
    ghost const limit: nat
    ghost const input: bytes // everything the source will deliver
    ghost var out: bytes     // everything returned so far
    ghost const repr: set<object>

    ghost predicate Shape() {
      && this in repr && src in repr
      && (stripper != null ==> stripper in repr && stripper.buf in repr && stripper.r == src && stripper.hasDescriptor
                               && stripper.input == input)
    }

    /** All that this reader ever returns. */
    ghost function Total(): bytes {
      if stripper != null then Strip(input, true).0 else input[..Min(limit, |input|)]
    }

    ghost predicate Valid()
      reads this, repr
    {
      && Shape() && |out| <= |input| && out <= Total()
      && (stripper != null ==> stripper.Valid() && stripper.out == out)
      && (stripper == null ==> out + src.rest == input && |out| + left == limit)
    }

    /** An upper bound on the reads still to come. */
    ghost function Fuel(): nat
      requires Valid()
      reads this, repr
    {
      |input| - |out| + |src.rest| + src.empties
    }

    /** How the stream may end: as its source does, or because the limit is reached. */
    ghost predicate Ends(e: Error) {
      e == src.last || (e == Eof && stripper == null && limit <= |input|)
    }

    constructor Limited(src: Source, n: nat)
      ensures Valid() && Shape() && out == [] && this.src == src && input == src.rest && stripper == null && limit == n
      ensures repr == {this, src}
    {
      this.src, stripper, left, limit, input, out := src, null, n, n, src.rest, [];
      repr := {this, src};
      new;
      Whole(src.rest);
    }

    constructor Stripped(src: Source)
      ensures Valid() && Shape() && out == [] && this.src == src && input == src.rest && stripper != null
      ensures fresh(repr - {src})
    {
      var s := new DescriptorStripper(src, true);
      this.src, stripper, left, limit, input, out := src, s, 0, 0, src.rest, [];
      repr := {this, src, s, s.buf};
    }

    method Read(n: nat) returns (p: bytes, st: Status)
      requires Valid()
      modifies repr
      ensures Valid() && |p| <= n && out == old(out) + p
      ensures st.End? ==> Ends(st.error)
      ensures st == End(Eof) ==> out == Total()
      ensures st == End(Eof) && stripper != null ==> stripper.desc == Strip(input, true).1
      ensures Fuel() <= old(Fuel()) && (n > 0 && st.More? ==> Fuel() < old(Fuel()))
    {
      hide Strip;
      if stripper != null {
        p, st := ReadStripped(n);
      } else {
        p, st := ReadLimited(n);
      }
    }

    method ReadLimited(n: nat) returns (p: bytes, st: Status)
      requires Valid() && stripper == null
      modifies this`left, this`out, src
      ensures Valid() && |p| <= n && out == old(out) + p
      ensures st.End? ==> Ends(st.error)
      ensures st == End(Eof) ==> out == Total()
      ensures Fuel() <= old(Fuel()) && (n > 0 && st.More? ==> Fuel() < old(Fuel()))
    {
      if left == 0 {
        Cut(out, src.rest);
        Whole(out);
        return [], End(Eof);
      }
      p, st := src.Read(if n < left then n else left);
      Assoc(out, p, src.rest);
      left := left - |p|;
      out := out + p;
      Cut(out, src.rest);
      assert out == input[..|out|];
    }

    method ReadStripped(n: nat) returns (p: bytes, st: Status)
      requires Valid() && stripper != null
      modifies repr
      ensures Valid() && |p| <= n && out == old(out) + p
      ensures st.End? ==> Ends(st.error)
      ensures st == End(Eof) ==> out == Total()
      ensures st == End(Eof) ==> stripper.desc == Strip(input, true).1
      ensures Fuel() <= old(Fuel()) && (n > 0 && st.More? ==> Fuel() < old(Fuel()))
    {
      hide Strip;
      p, st := stripper.Read(n);
      out := out + p;
      EmittedIsPrefix();
    }

    /** The 24 bytes held back keep the stripper behind the end of the payload. */
    lemma EmittedIsPrefix()
      requires Shape() && stripper != null && stripper.Valid()
      ensures stripper.out <= Total() && |stripper.out| <= |input|
    {
      StripCuts(input);
      var pending := stripper.buf[stripper.start..stripper.end];
      if !stripper.eof {
        Cut(stripper.out + pending, stripper.r.rest);
        Cut(stripper.out, pending);
        assert stripper.out == input[..|stripper.out|];
      }
    }

    /** Go's `io.ReadFull`. */
    method ReadFull(n: nat) returns (got: bytes, e: Option<Error>)
      requires Valid() && out == []
      modifies repr
      ensures Valid() && out == got && |got| <= n && Fuel() <= old(Fuel())
      ensures e == None ==> |got| == n
      ensures e.Some? ==> |got| < n
      ensures e.Some? ==> || (got == Total() && e.value == if got == [] then Eof else UnexpectedEof)
                          || (src.last != Eof && e.value == src.last)
    {
      hide Valid;
      got := [];
      while |got| < n
        invariant Valid() && out == got && |got| <= n && Fuel() <= old(Fuel())
        decreases |got| < n, Fuel()
      {
        var p, st := Read(n - |got|);
        got := got + p;
        if st.End? && |got| < n {
          return got, Some(if got != [] && st.error == Eof then UnexpectedEof else st.error);
        }
      }
      e := None;
    }
  }

  /** `zipCryptoDecryptReader`: the header is read and checked once, before any data. */
  class ZipDecryptReader {
    const r: PayloadReader
    const z: Engine
    const check: byte
    const verify: bool
    var headerDone: bool
    var err: Option<Error>
    ghost const password: bytes
    ghost var out: bytes
    ghost const repr: set<object>

    ghost predicate Shape() {
      this in repr && z in repr && r in repr && r.repr <= repr && this !in r.repr && z !in r.repr
    }

    /** What opening the whole payload gives. */
    ghost function Opened(): Result<bytes> {
      ZipOpen(password, check, verify, r.Total())
    }

    ghost predicate Valid()
      reads this, repr
    {
      && Shape() && r.Valid()
      && (!headerDone ==> err == None && r.out == [] && out == [] && z.keys == InitKeys(password))
      && (headerDone && err == None ==> && Opened().Ok? && |r.out| >= HEADER_LEN && Deciphered())
      && (err.Some? ==> headerDone && out == [] && Refused(err.value))
    }

    /** The keys and the data returned so far are those of the bytes consumed. */
    ghost predicate Deciphered()
      requires |r.out| >= HEADER_LEN
      reads this, z, r
    {
      var plain := Decrypted(InitKeys(password), r.out);
      out == plain[HEADER_LEN..] && z.keys == KeysAfter(InitKeys(password), plain)
    }

    ghost predicate Refused(e: Error) {
      (Opened().Err? && e == Opened().error) || (r.src.last != Eof && e == r.src.last)
    }

    constructor (r: PayloadReader, password: bytes, check: byte, verify: bool)
      requires r.Valid() && r.out == []
      ensures Valid() && Shape() && !headerDone && out == [] && fresh(repr - r.repr)
      ensures this.r == r && this.password == password && this.check == check && this.verify == verify
    {
      hide PayloadReader.Total, InitKeys;
      this.r, this.password, this.check, this.verify := r, password, check, verify;
      z := new Engine(password);
      headerDone, err, out := false, None, [];
      repr := {this, z, r} + r.repr;
    }

    method ReadHeader() returns (e: Option<Error>)
      requires Valid()
      modifies repr
      ensures Valid() && headerDone && e == err && out == old(out) && (if e.Some? then Refused(e.value) else Opened().Ok?)
      ensures old(headerDone) ==> err == old(err)
      ensures Fuel() <= old(Fuel())
    {
      if headerDone {
        return err;
      }
      ReadHeaderOnce();
      e := err;
    }

    ghost function Fuel(): nat
      requires Valid()
      reads this, repr
    {
      r.Fuel()
    }

    method ReadHeaderOnce()
      requires Valid() && !headerDone
      modifies repr
      ensures Valid() && headerDone && out == []
      ensures Fuel() <= old(Fuel())
    {
      hide PayloadReader.Valid, PayloadReader.Total, InitKeys, Decrypted, KeysAfter;
      headerDone := true;
      var header, failed := r.ReadFull(HEADER_LEN);
      OutIsPrefix();
      if failed.Some? {
        err := if failed.value == Eof then Some(UnexpectedEof) else failed;
        return;
      }
      var plain := DecryptPiece(z, header);
      HeaderOf(password, header, r.Total());
      if verify && plain[HEADER_LEN - 1] != check {
        err := Some(ErrPassword);
      }
    }

    lemma OutIsPrefix()
      requires r.Valid()
      ensures r.out <= r.Total()
    {
    }

    method Read(n: nat) returns (p: bytes, st: Status)
      requires Valid()
      modifies repr
      ensures Valid() && headerDone && |p| <= n && out == old(out) + p
      ensures old(headerDone) ==> err == old(err)
      ensures st.End? && err.Some? ==> p == [] && st.error == err.value
      ensures st.End? && err == None ==> r.Ends(st.error)
      ensures st == End(Eof) && err == None ==> Opened() == Ok(out) && r.out == r.Total()
      ensures st == End(Eof) && err == None && r.stripper != null ==> r.stripper.desc == Strip(r.input, true).1
      ensures n > 0 && st.More? ==> Fuel() < old(Fuel())
    {
      hide PayloadReader.Valid, PayloadReader.Total, InitKeys, Decrypted, KeysAfter, Strip, ZipOpen, Deciphered;
      hide Refused;
      var e := ReadHeader();
      if e.Some? {
        return [], End(e.value);
      }
      p, st := ReadData(n);
    }

    method ReadData(n: nat) returns (p: bytes, st: Status)
      requires Valid() && headerDone && err == None
      modifies repr
      ensures Valid() && headerDone && err == None && |p| <= n && out == old(out) + p
      ensures st.End? ==> r.Ends(st.error)
      ensures st == End(Eof) ==> Opened() == Ok(out) && r.out == r.Total()
      ensures st == End(Eof) && r.stripper != null ==> r.stripper.desc == Strip(r.input, true).1
      ensures n > 0 && st.More? ==> Fuel() < old(Fuel())
    {
      hide PayloadReader.Valid, PayloadReader.Total, InitKeys, Decrypted, KeysAfter, Strip;
      ghost var before := r.out;
      var c;
      c, st := r.Read(n);
      p := DecryptPiece(z, c);
      DecryptAppend(InitKeys(password), before, c);
      KeysAppend(InitKeys(password), Decrypted(InitKeys(password), before), p);
      TailGrows(Decrypted(InitKeys(password), before), p, HEADER_LEN);
      out := out + p;
    }
  }

  /** `ZipCryptoDecryptor`: the whole payload at once, in place, without checking the password. */
  method DecryptWhole(payload: bytes, password: bytes) returns (r: Result<bytes>)
    ensures r == ZipOpen(password, 0, false, payload)
  {
    hide Decrypted, InitKeys, KeysAfter;
    if |payload| < HEADER_LEN {
      return Err(UnexpectedEof);
    }
    var z := new Engine(password);
    var b := DecryptPiece(z, payload);
    r := Ok(b[HEADER_LEN..]);
  }

  /** Deciphers a piece in place, in a buffer of its own. */
  method DecryptPiece(z: Engine, c: bytes) returns (p: bytes)
    modifies z
    ensures p == Decrypted(old(z.keys), c) && z.keys == KeysAfter(old(z.keys), p)
  {
    hide Decrypted, KeysAfter;
    var buf := Copied(c);
    z.DecryptTo(buf, buf, |c|);
    p := buf[..];
    assert buf[..|c|] == p;
  }

  method Copied(p: bytes) returns (buf: array<byte>)
    ensures fresh(buf) && buf.Length == |p| && buf[..|p|] == p
  {
    buf := new byte[|p|](i requires 0 <= i < |p| => p[i]);
    assert buf[..|p|] == buf[..] == p;
  }

  lemma TailGrows(a: bytes, b: bytes, n: nat)
    requires n <= |a|
    ensures (a + b)[n..] == a[n..] + b
  {
  }

  /** The first twelve bytes decide whether a payload opens. */
  lemma HeaderOf(password: bytes, header: bytes, payload: bytes)
    requires |header| == HEADER_LEN && header <= payload
    ensures |Decrypted(InitKeys(password), payload)| == |payload|
    ensures Decrypted(InitKeys(password), header) == Decrypted(InitKeys(password), payload)[..HEADER_LEN]
  {
    hide Decrypted, KeysAfter, InitKeys;
    var rest := payload[HEADER_LEN..];
    assert payload == header + rest;
    DecryptAppend(InitKeys(password), header, rest);
  }

  lemma StripCuts(input: bytes)
    ensures Strip(input, true).0 <= input
    ensures |Strip(input, true).0| >= |input| - 24
  {
    FitIsSmall(input, |input|, 0);
  }

  lemma {:induction false} FitIsSmall(tail: bytes, total: nat, i: nat)
    requires |tail| <= total && i <= 4
    ensures var f := FirstFit(tail, total, i); f.Some? ==> f.value.0 <= 24
    decreases 4 - i
  {
    hide Candidate;
    NextForm(tail, total, i);
    if i < 4 {
      FitIsSmall(tail, total, i + 1);
    }
  }
}
