/** Records behind padding: when a directory record with a padded extra field is read back. */
module Padding {
  import opened Bytes
  import opened Header
  import opened ExtraFields
  import opened Directory

  /** Two triples of sizes and offset whose zip64 record, shifted by two bytes
      of padding, happens to contain a zip64 record of the same values. */
  function Triple(n: nat): (int, int, int) {
    (0x100_0000 + n * 0x100_0000_0000, 0x1_0000 + n * 0x1_0000_0000, 0x100 + n * 0x100_0000)
  }

  predicate Coincides(h: FileHeader, offset: uint64) {
    && Pad(h.extra) == [0, 0] && h.xxh3 == 0
    && (h.usize as int, h.csize as int, offset as int) in {Triple(16), Triple(17)}
  }

  // ---------------------------------------------------------------- padding in front of a record

  /** What the walk sees behind the complete records of the caller's extra. */
  lemma WalkedBehindPad(h: FileHeader, offset: uint64)
    requires Plain(h)
    ensures var u32, c32 := Size32(h.usize32, h, offset), Size32(h.csize32, h, offset);
            var (m, ae, s) := AesInfo(h.extra, h.compMethod, 0, 0);
            Walked(h, offset) ==
              WalkExtra(u32, c32, Walk(u32, c32, Offset32(offset), m, ae, s, 0), Pad(h.extra) + AddedExtra(h, offset))
  {
    hide WalkExtra, AesInfo, Exact, HasTag, Xxh3Record, Zip64Record, AddedExtra, Pad;
    var u32, c32 := Size32(h.usize32, h, offset), Size32(h.csize32, h, offset);
    var w0 := Walk(u32, c32, Offset32(offset), h.compMethod, 0, 0, 0);
    var p := Pad(h.extra);
    var body := h.extra[..|h.extra| - |p|];
    SplitPad(h.extra);
    ExactIsPadded(body);
    WalkForeign(u32, c32, w0, body);
    Assoc(body, p, AddedExtra(h, offset));
    WalkAppend(u32, c32, w0, body, p + AddedExtra(h, offset));
    AesInfoAppend(body, p, h.compMethod, 0, 0);
    AesInfoOfPad(h.extra, h.compMethod, body);
  }

  lemma AesInfoOfPad(b: bytes, m: uint16, body: bytes)
    requires b == body + Pad(b) && Exact(body)
    ensures AesInfo(b, m, 0, 0) == AesInfo(body, m, 0, 0)
  {
    AesInfoAppend(body, Pad(b), m, 0, 0);
  }

  /** Padding in front of a record makes a record that is too long, except two
      bytes in front of a zip64 record. */
  lemma PadSpoils(p: bytes, y: bytes)
    requires 0 < |p| < 4 && (forall v <- p :: v == 0) && 4 <= |y| <= 40
    requires U16(y) == XXH3_EXTRA_ID || (U16(y) == ZIP64_EXTRA_ID && |p| != 2)
    requires y[2] in {8, 24} && y[3] == 0 && (U16(y) == XXH3_EXTRA_ID <==> y[2] == 8)
    ensures !HasRecord(p + y)
  {
    var q := p + y;
    assert U16(q[2..]) == q[2] as int + 0x100 * q[3] as int;
    if |p| == 1 {
      assert q[2] == y[1] && q[3] == y[2];
    } else if |p| == 2 {
      assert q[2] == y[0] && q[3] == y[1];
    } else {
      assert p[2] in p;
      assert q[2] == p[2] && q[3] == y[0];
    }
  }

  /** Header bytes of a record. */
  lemma RecordHead(id: uint16, data: bytes, rest: bytes)
    requires |data| < 0x100
    ensures var y := Record(id, data) + rest; U16(y) == id && y[2] == |data| && y[3] == 0 && y[4..] == data + rest
  {
    var r := Record(id, data);
    assert r == P16(id) + (P16(|data|) + data);
    assert r[2] == P16(|data|)[0] && r[3] == P16(|data|)[1];
    ReadLocal(r, rest);
    assert (r + rest)[4..] == r[4..] + rest && r[4..] == data;
  }

  // ---------------------------------------------------------------- two bytes in front of a zip64 record

  /** A zip64 record without its tag, its size and the first size byte swallowed by a false record. */
  function Shifted(u: uint64, c: uint64, offset: uint64): (b: bytes)
    ensures |b| == 25
  {
    [0] + (P64(u) + (P64(c) + P64(offset)))
  }

  /** The false record has tag 0 and one byte; the rest is walked on. */
  lemma WalkShifted(u32: uint32, c32: uint32, w: Walk, u: uint64, c: uint64, offset: uint64)
    ensures WalkExtra(u32, c32, w, [0, 0] + Zip64Record(u, c, offset)) == WalkExtra(u32, c32, w, Shifted(u, c, offset))
  {
    hide WalkExtra, P64, U64, Put64, Zip64Record, U16;
    var data := Put64(u, Put64(c, P64(offset)));
    var z := Zip64Record(u, c, offset);
    var q := [0, 0] + z;
    ZipRecord(u, c, offset);
    assert q[2..] == z && q[5..] == z[3..];
    FalseRecord(u32, c32, w, q);
  }

  lemma ZipRecord(u: uint64, c: uint64, offset: uint64)
    ensures var z := Zip64Record(u, c, offset);
            U16(z) == ZIP64_EXTRA_ID && z[0] == 1 && z[1] == 0 && z[2] == 24 && z[3] == 0 && z[3..] == Shifted(u, c, offset)
  {
    hide P64, U64;
    var data := Put64(u, Put64(c, P64(offset)));
    RecordHead(ZIP64_EXTRA_ID, data, []);
    Whole(Zip64Record(u, c, offset));
    Whole(data);
  }

  lemma FalseRecord(u32: uint32, c32: uint32, w: Walk, q: bytes)
    requires |q| >= 5 && q[0] == 0 && q[1] == 0 && q[2] == 1 && q[3] == 0
    ensures WalkExtra(u32, c32, w, q) == WalkExtra(u32, c32, w, q[5..])
  {
    hide U64;
    assert U16(q[2..]) == 1 && U16(q) == 0;
  }

  lemma U64Sum(b: bytes)
    requires |b| >= 8
    ensures U64(b) == b[0] as int + 0x100 * b[1] as int + 0x1_0000 * b[2] as int + 0x100_0000 * b[3] as int
      + 0x1_0000_0000 * b[4] as int + 0x100_0000_0000 * b[5] as int + 0x1_0000_0000_0000 * b[6] as int
      + 0x100_0000_0000_0000 * b[7] as int
  {
    assert b[..4][..2] == b[..2] && b[..4][2..4] == b[2..4] && b[4..8][..2] == b[4..6] && b[4..8][2..4] == b[6..8];
  }

  /** Without room for two 64-bit values, no zip64 record restores the sizes. */
  lemma {:induction false} NoRoom(w: Walk, b: bytes)
    requires |b| < 20 && WalkExtra(UINT32_MAX, UINT32_MAX, w, b).Ok?
    ensures var v := WalkExtra(UINT32_MAX, UINT32_MAX, w, b).value; v.usize == w.usize && v.csize == w.csize
    decreases |b|
  {
    hide U16, U64;
    if HasRecord(b) {
      var n := RecordLen(b);
      NoRoom(Step(UINT32_MAX, UINT32_MAX, w, Tag(b), b[4..n]).value, b[n..]);
    }
  }

  /** One record of a walk with both sizes escaped. */
  lemma WalkOne(w: Walk, b: bytes)
    requires |b| >= 4
    ensures WalkExtra(UINT32_MAX, UINT32_MAX, w, b) ==
      if !HasRecord(b) then Err(ErrFormat) else
        var s := Step(UINT32_MAX, UINT32_MAX, w, Tag(b), b[4..RecordLen(b)]);
        if s.Err? then Err(ErrFormat) else WalkExtra(UINT32_MAX, UINT32_MAX, s.value, b[RecordLen(b)..])
  {
    hide Step, U16;
  }

  /** The false record in front of the shifted values: its tag is a multiple of
      256, so it is skipped, and its size is two bytes of the content size. */
  lemma FirstSkipped(w: Walk, u: uint64, c: uint64, offset: uint64)
    ensures var (b, x) := (Shifted(u, c, offset), P64(u));
            var n := x[1] as int + 0x100 * x[2] as int;
            WalkExtra(UINT32_MAX, UINT32_MAX, w, b) ==
              if n > 21 then Err(ErrFormat) else WalkExtra(UINT32_MAX, UINT32_MAX, w, b[4 + n..])
  {
    hide WalkExtra, P64, Zip64Step, U64;
    var (b, x) := (Shifted(u, c, offset), P64(u));
    assert b[1] == x[0] && b[2] == x[1] && b[3] == x[2];
    assert U16(b) == 0x100 * x[0] as int && U16(b[2..]) == x[1] as int + 0x100 * x[2] as int;
    WalkOne(w, b);
  }

  /** The sizes are restored only by a zip64 record that is found among the shifted bytes. */
  lemma OnlyByRecord(w: Walk, b: bytes, u: uint64, c: uint64)
    requires 4 <= |b| <= 21 && w.usize == UINT32_MAX && w.csize == UINT32_MAX && u != UINT32_MAX
    requires var r := WalkExtra(UINT32_MAX, UINT32_MAX, w, b); r.Ok? && r.value.usize == u && r.value.csize == c
    ensures HasRecord(b) && Tag(b) == ZIP64_EXTRA_ID && RecordLen(b) >= 20 && w.offset != UINT32_MAX
    ensures U64(b[4..12]) == u && U64(b[12..20]) == c
  {
    hide U16, U64;
    WalkOne(w, b);
    var n := RecordLen(b);
    var data := b[4..n];
    var s := Step(UINT32_MAX, UINT32_MAX, w, Tag(b), data).value;
    NoRoom(s, b[n..]);
    assert data[..8] == b[4..12] && data[8..][..8] == b[12..20];
  }

  lemma ShiftedBytes(u: uint64, c: uint64, offset: uint64)
    ensures var (b, x, y, o) := (Shifted(u, c, offset), P64(u), P64(c), P64(offset));
            && b[4] == x[3] && b[5] == x[4] && b[6] == x[5] && b[7] == x[6]
            && b[8..16] == [x[7]] + y[..7] && b[16..24] == [y[7]] + o[..7]
            && b[9..17] == y && b[17..25] == o
  {
    hide P64;
  }

  /** A value whose bytes are those of another, one place up. */
  lemma OneByteUp(y: bytes, low: byte)
    requires |y| == 8
    ensures U64([low] + y[..7]) == low as int + 0x100 * (U64(y) as int - 0x100_0000_0000_0000 * y[7] as int)
  {
    hide U64;
    var a := [low] + y[..7];
    U64Sum(y);
    U64Sum(a);
    assert a[1] == y[0] && a[2] == y[1] && a[3] == y[2] && a[4] == y[3] && a[5] == y[4] && a[6] == y[5] && a[7] == y[6];
  }

  /** Values that contain themselves one byte further on. */
  lemma SelfShifted(x: bytes, y: bytes, o: bytes, n: nat)
    requires |x| == 8 && |y| == 8 && |o| == 8 && U64(o) < UINT32_MAX && n < 0x100
    requires x[1] == 0 && x[2] == 0 && x[3] == 1 && x[4] == 0 && x[5] == n && x[6] == 0
    requires U64(x) == U64([x[7]] + y[..7]) && U64(y) == U64([y[7]] + o[..7])
    ensures (U64(x) as int, U64(y) as int, U64(o) as int) == Triple(n)
  {
    hide U64;
    OneByteUp(y, x[7]);
    OneByteUp(o, y[7]);
    U64Sum(x);
    U64Sum(y);
    U64Sum(o);
    Arithmetic(U64(x), U64(y), U64(o), x[0], x[7], y[7], o[7], n);
  }

  lemma Arithmetic(u: int, c: int, offset: int, x0: byte, x7: byte, y7: byte, o7: byte, n: nat)
    requires n < 0x100 && 0x100_0000_0000_0000 * o7 as int <= offset < UINT32_MAX
    requires u == x0 as int + 0x100_0000 + n * 0x100_0000_0000 + 0x100_0000_0000_0000 * x7 as int
    requires u == x7 as int + 0x100 * (c - 0x100_0000_0000_0000 * y7 as int)
    requires c == y7 as int + 0x100 * (offset - 0x100_0000_0000_0000 * o7 as int)
    requires c >= 0x100_0000_0000_0000 * y7 as int
    ensures (u, c, offset) == Triple(n)
  {
    assert o7 == 0;
    assert c < 0x1_0000_0000_0000;
    assert y7 == 0;
    assert u < 0x100_0000_0000_0000;
    assert x7 == 0;
    assert u == 0x1_0000 * offset;
    assert x0 as int == 0x1_0000 * (offset - 0x100 - n * 0x100_0000);
    assert x0 == 0;
  }

  lemma PiecesOfRest(b: bytes, k: nat)
    requires k + 20 <= |b|
    ensures b[k..][4..12] == b[k + 4..k + 12] && b[k..][12..20] == b[k + 12..k + 20]
  {
  }

  /** A record that takes nothing leaves the three values where their own bytes say. */
  lemma NothingSkipped(w: Walk, rest: bytes, u: uint64, c: uint64, offset: uint64)
    requires w.usize == UINT32_MAX && w.csize == UINT32_MAX && w.offset == Offset32(offset) && offset < TWO63
    requires u != UINT32_MAX && P64(u)[1] == 0 && P64(u)[2] == 0 && rest == Shifted(u, c, offset)[4..]
    requires var r := WalkExtra(UINT32_MAX, UINT32_MAX, w, rest);
             r.Ok? && r.value.usize == u && r.value.csize == c
    ensures (u as int, c as int, offset as int) in {Triple(16), Triple(17)}
  {
    hide WalkExtra, P64, U64, Shifted, Triple;
    var (b, x, y, o) := (Shifted(u, c, offset), P64(u), P64(c), P64(offset));
    OnlyByRecord(w, rest, u, c);
    ShiftedBytes(u, c, offset);
    PiecesOfRest(b, 4);
    assert rest[0] == b[4] && rest[1] == b[5] && rest[2..][0] == b[6] && rest[2..][1] == b[7];
    SelfShifted(x, y, o, x[5]);
  }

  /** Behind a record that takes one byte the values are not found. */
  lemma OneSkipped(w: Walk, u: uint64, c: uint64, offset: uint64)
    requires w.usize == UINT32_MAX && w.csize == UINT32_MAX && w.offset == Offset32(offset)
    requires u != UINT32_MAX && P64(u)[1] == 1 && P64(u)[2] == 0
    ensures var r := WalkExtra(UINT32_MAX, UINT32_MAX, w, Shifted(u, c, offset)[5..]);
            !(r.Ok? && r.value.usize == u && r.value.csize == c)
  {
    hide WalkExtra, P64, U64, Shifted;
    var (b, x) := (Shifted(u, c, offset), P64(u));
    var rest := b[5..];
    var r := WalkExtra(UINT32_MAX, UINT32_MAX, w, rest);
    if r.Ok? && r.value.usize == u && r.value.csize == c {
      OnlyByRecord(w, rest, u, c);
      ShiftedBytes(u, c, offset);
      PiecesOfRest(b, 5);
      assert rest[0] == b[5] == x[4];
      U64Sum(x);
    }
  }

  lemma OnlyTriples(w: Walk, u: uint64, c: uint64, offset: uint64)
    requires w.usize == UINT32_MAX && w.csize == UINT32_MAX && w.offset == Offset32(offset) && offset < TWO63
    requires var r := WalkExtra(UINT32_MAX, UINT32_MAX, w, Shifted(u, c, offset));
             r.Ok? && r.value.usize == u && r.value.csize == c
    ensures (u as int, c as int, offset as int) in {Triple(16), Triple(17)}
  {
    hide WalkExtra, P64, U64, Shifted, Triple;
    var (b, x) := (Shifted(u, c, offset), P64(u));
    var n := x[1] as int + 0x100 * x[2] as int;
    FirstSkipped(w, u, c, offset);
    NotEscaped(u);
    if n >= 2 {
      NoRoom(w, b[4 + n..]);
    } else if n == 1 {
      OneSkipped(w, u, c, offset);
    } else {
      NothingSkipped(w, b[4..], u, c, offset);
    }
  }

  lemma NotEscaped(u: uint64)
    ensures u == UINT32_MAX ==> P64(u)[1] == 0xFF
  {
  }

  lemma P64Of(a: uint16, b: uint16, c: uint16, d: uint16)
    ensures P64(a + TWO16 * b + TWO32 * (c + TWO16 * d)) == P16(a) + P16(b) + (P16(c) + P16(d))
  {
    hide P16, U16;
    var lo, hi: uint32 := a + TWO16 * b, c + TWO16 * d;
    assert (lo + TWO32 * hi) % TWO32 == lo && (lo + TWO32 * hi) / TWO32 == hi;
    assert lo % TWO16 == a && lo / TWO16 == b && hi % TWO16 == c && hi / TWO16 == d;
  }

  lemma HalfWords(n: byte)
    ensures P16(n) == [n, 0] && P16(0x100 * n as int) == [0, n]
  {
  }

  lemma EightBytes(a: bytes, b: bytes, c: bytes, d: bytes)
    requires |a| == |b| == |c| == |d| == 2
    ensures a + b + (c + d) == [a[0], a[1], b[0], b[1], c[0], c[1], d[0], d[1]]
  {
  }

  lemma TripleBytes(n: byte)
    ensures P64(Triple(n).0) == [0, 0, 0, 1, 0, n, 0, 0]
    ensures P64(Triple(n).1) == [0, 0, 1, 0, n, 0, 0, 0]
    ensures P64(Triple(n).2) == [0, 1, 0, n, 0, 0, 0, 0]
  {
    hide P64, P16;
    HalfWords(0);
    HalfWords(1);
    HalfWords(n);
    P64Of(0, 0x100, 0x100 * n, 0);
    P64Of(0, 1, n, 0);
    P64Of(0x100, 0x100 * n, 0, 0);
    EightBytes(P16(0), P16(0x100), P16(0x100 * n as int), P16(0));
    EightBytes(P16(0), P16(1), P16(n), P16(0));
    EightBytes(P16(0x100), P16(0x100 * n as int), P16(0), P16(0));
  }

  /** In these two cases the values are restored after all. */
  lemma TripleRestores(w: Walk, n: byte)
    requires (n == 16 || n == 17) && w.offset == Offset32(Triple(n).2)
    ensures WalkExtra(UINT32_MAX, UINT32_MAX, w, Shifted(Triple(n).0, Triple(n).1, Triple(n).2))
              == Ok(w.(usize := Triple(n).0, csize := Triple(n).1, offset := Triple(n).2))
  {
    hide WalkExtra, P64, U64;
    var (u, c, offset) := Triple(n);
    var b := Shifted(u, c, offset);
    TripleBytes(n);
    FirstSkipped(w, u, c, offset);
    ShiftedBytes(u, c, offset);
    var rest := b[4..];
    assert rest[0] == b[4] && rest[1] == b[5] && rest[2..][0] == b[6] && rest[2..][1] == b[7];
    assert rest[4..12] == b[8..16] == P64(u) && rest[12..20] == b[16..24] == P64(c);
    RestRestores(w, rest, u, c, n);
  }

  lemma RestRestores(w: Walk, rest: bytes, u: uint64, c: uint64, n: byte)
    requires (n == 16 || n == 17) && w.offset != UINT32_MAX && |rest| == 21 && rest[20] == 0
    requires U16(rest) == ZIP64_EXTRA_ID && U16(rest[2..]) == n && rest[4..12] == P64(u) && rest[12..20] == P64(c)
    ensures WalkExtra(UINT32_MAX, UINT32_MAX, w, rest) == Ok(w.(usize := u, csize := c))
  {
    hide WalkExtra, P64, U64, U16;
    WalkOne(w, rest);
    var data := rest[4..4 + n];
    assert data[..8] == rest[4..12] && data[8..][..8] == rest[12..20];
    var end := rest[4 + n..];
    assert forall v <- end :: v == 0;
    EndOfWalk(w.(usize := u, csize := c), end);
  }

  lemma EndOfWalk(w: Walk, b: bytes)
    requires |b| < 4 && forall v <- b :: v == 0
    ensures WalkExtra(UINT32_MAX, UINT32_MAX, w, b) == Ok(w)
  {
  }

  // ---------------------------------------------------------------- exactly when

  /** The extra is not padded, nothing is put behind the padding, or what is
      put there is one of the two coincidences. */
  ghost predicate Survives(h: FileHeader, offset: uint64) {
    Exact(h.extra) || AddedExtra(h, offset) == [] || Coincides(h, offset)
  }

  /** A printed entry is read back if and only if no record stands behind
      padding, or one of the two coincidences occurs. */
  lemma RestoredExactlyWhen(h: FileHeader, offset: uint64)
    requires Plain(h) && offset < TWO63
    ensures Restored(h, offset) <==> Survives(h, offset)
  {
    hide Plain, Exact, Walked, Intended, AddedExtra, Pad;
    if Exact(h.extra) || AddedExtra(h, offset) == [] {
      WalkAdded(h, offset);
    } else {
      ExactIsUnpadded(h.extra);
      if Pad(h.extra) == [0, 0] && h.xxh3 == 0 {
        RestoredByChance(h, offset);
      } else {
        NotRestored(h, offset);
      }
    }
  }

  /** A record behind padding makes the reader refuse the entry. */
  lemma NotRestored(h: FileHeader, offset: uint64)
    requires Plain(h) && Pad(h.extra) != [] && AddedExtra(h, offset) != []
    requires Pad(h.extra) != [0, 0] || h.xxh3 != 0
    ensures Walked(h, offset) == Err(ErrFormat)
  {
    hide WalkExtra, AesInfo, HasTag, P64, Pad, Walked;
    var p, y := Pad(h.extra), AddedExtra(h, offset);
    WalkedBehindPad(h, offset);
    AddedHead(h, offset);
    if |p| == 2 {
      assert p[0] in p && p[1] in p;
      assert p == [0, 0];
    }
    PadSpoils(p, y);
    var u32, c32 := Size32(h.usize32, h, offset), Size32(h.csize32, h, offset);
    var (m, ae, s) := AesInfo(h.extra, h.compMethod, 0, 0);
    NoRecord(u32, c32, Walk(u32, c32, Offset32(offset), m, ae, s, 0), p + y);
  }

  lemma NoRecord(u32: uint32, c32: uint32, w: Walk, b: bytes)
    requires |b| >= 4 && !HasRecord(b)
    ensures WalkExtra(u32, c32, w, b) == Err(ErrFormat)
  {
  }

  lemma AddedHead(h: FileHeader, offset: uint64)
    requires AddedExtra(h, offset) != []
    ensures var y := AddedExtra(h, offset);
            && 4 <= |y| <= 40 && y[3] == 0
            && (if h.xxh3 != 0 then U16(y) == XXH3_EXTRA_ID && y[2] == 8 else U16(y) == ZIP64_EXTRA_ID && y[2] == 24)
  {
    hide P64, U64, U16;
    var z := if NeedsZip64Record(h, offset) then Zip64Record(h.usize, h.csize, offset) else [];
    if h.xxh3 != 0 {
      RecordHead(XXH3_EXTRA_ID, P64(h.xxh3), z);
    } else {
      Whole(z);
      ZipRecord(h.usize, h.csize, offset);
    }
  }

  lemma RestoredByChance(h: FileHeader, offset: uint64)
    requires Plain(h) && Pad(h.extra) == [0, 0] && h.xxh3 == 0 && AddedExtra(h, offset) != [] && offset < TWO63
    ensures Restored(h, offset) <==> Coincides(h, offset)
  {
    hide WalkExtra, AesInfo, HasTag, P64, Pad, Padded, Shifted, Zip64Record, Triple, Walked;
    var (u, c) := (h.usize, h.csize);
    var (m, ae, s) := AesInfo(h.extra, h.compMethod, 0, 0);
    var w := Walk(UINT32_MAX, UINT32_MAX, Offset32(offset), m, ae, s, 0);
    WalkedBehindPad(h, offset);
    NothingAdded(h, offset);
    Whole(Zip64Record(u, c, offset));
    assert AddedExtra(h, offset) == Zip64Record(u, c, offset);
    WalkShifted(UINT32_MAX, UINT32_MAX, w, u, c, offset);
    if Restored(h, offset) {
      OnlyTriples(w, u, c, offset);
    }
    if (u as int, c as int, offset as int) == Triple(16) {
      TripleRestores(w, 16);
    }
    if (u as int, c as int, offset as int) == Triple(17) {
      TripleRestores(w, 17);
    }
  }

  // ---------------------------------------------------------------- an input that fails

  /** The reader accepts a content hash followed by one zero byte; regenerated,
      with the hash behind the zero byte, the record is refused. */
  lemma PaddedHashIsLost(h: FileHeader, offset: uint64)
    requires h.xxh3 != 0 && offset < TWO63 && (!h.IsZip64() ==> h.csize32 == h.csize && h.usize32 == h.usize)
    ensures var read := Xxh3Record(h.xxh3) + [0];
            var kept := Remove(Remove(read, ZIP64_EXTRA_ID), XXH3_EXTRA_ID);
            && (forall u32, c32, w :: WalkExtra(u32, c32, w, read) == Ok(w.(xxh3 := h.xxh3)))
            && kept == [0] && Walked(h.(extra := kept), offset) == Err(ErrFormat)
  {
    hide WalkExtra, P64, Xxh3Record, U16, Walked;
    var x := Xxh3Record(h.xxh3);
    forall u32, c32, w ensures WalkExtra(u32, c32, w, x + [0]) == Ok(w.(xxh3 := h.xxh3)) {
      WalkXxh3(u32, c32, w, h.xxh3);
      WalkAppend(u32, c32, w, x, [0]);
      WalkZero(u32, c32, w.(xxh3 := h.xxh3));
    }
    HashRemoved(h.xxh3);
    OnePad();
    NotRestored(h.(extra := [0]), offset);
  }

  lemma WalkZero(u32: uint32, c32: uint32, w: Walk)
    ensures WalkExtra(u32, c32, w, [0]) == Ok(w)
  {
  }

  lemma OnePad()
    ensures Pad([0]) == [0] && Padded([0]) && !HasTag([0], ZIP64_EXTRA_ID) && !HasTag([0], XXH3_EXTRA_ID)
  {
  }

  lemma HashRemoved(v: uint64)
    ensures Remove(Remove(Xxh3Record(v) + [0], ZIP64_EXTRA_ID), XXH3_EXTRA_ID) == [0]
  {
    hide P64;
    var x := Xxh3Record(v);
    RecordExact(XXH3_EXTRA_ID, P64(v));
    RemoveAppend(x, [0], ZIP64_EXTRA_ID);
    RemoveLength(x, ZIP64_EXTRA_ID);
    RemoveAppend(x, [0], XXH3_EXTRA_ID);
    assert x[|x|..] == [];
  }
}
