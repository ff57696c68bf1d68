/** Extra-field records: a tag, a size, and that many bytes. */
module ExtraFields {
  import opened Bytes
  import opened Header

  /** A complete record starts at the front of `b`. */
  predicate HasRecord(b: bytes) {
    |b| >= 4 && 4 + U16(b[2..]) <= |b|
  }

  function RecordLen(b: bytes): (n: nat)
    requires HasRecord(b)
    ensures 4 <= n <= |b|
  {
    4 + U16(b[2..])
  }

  function Tag(b: bytes): uint16
    requires HasRecord(b)
  {
    U16(b)
  }

  /** `b` is a list of records with nothing after the last one. */
  predicate Exact(b: bytes) {
    b == [] || (HasRecord(b) && Exact(b[RecordLen(b)..]))
  }

  /** Some record of `b` carries the tag. */
  predicate HasTag(b: bytes, id: uint16) {
    HasRecord(b) && (Tag(b) == id || HasTag(b[RecordLen(b)..], id))
  }

  /** What follows the last complete record of `b`. */
  function Pad(b: bytes): (p: bytes)
    ensures |p| <= |b| && !HasRecord(p)
    decreases |b|
  {
    if HasRecord(b) then Pad(b[RecordLen(b)..]) else b
  }

  /** The reader accepts fewer than four zero bytes after the last record. */
  predicate Padded(b: bytes) {
    |Pad(b)| < 4 && forall v <- Pad(b) :: v == 0
  }

  lemma {:induction false} ExactIsUnpadded(b: bytes)
    ensures Exact(b) <==> Pad(b) == []
    decreases |b|
  {
    if HasRecord(b) {
      ExactIsUnpadded(b[RecordLen(b)..]);
    }
  }

  lemma ExactIsPadded(b: bytes)
    requires Exact(b)
    ensures Padded(b)
  {
    ExactIsUnpadded(b);
  }

  /** The records of `b` and its padding. */
  lemma {:induction false} SplitPad(b: bytes)
    ensures var body := b[..|b| - |Pad(b)|]; b == body + Pad(b) && Exact(body)
    ensures forall t: uint16 :: HasTag(b, t) <==> HasTag(b[..|b| - |Pad(b)|], t)
    decreases |b|
  {
    hide U16;
    if HasRecord(b) {
      var n := RecordLen(b);
      var head, tail := b[..n], b[n..];
      var rest := tail[..|tail| - |Pad(tail)|];
      SplitPad(tail);
      FirstRecord(b);
      FrontOf(b, n, |Pad(tail)|);
      Assoc(head, rest, Pad(tail));
      RecordLocal(head, rest);
      Cut(head, rest);
    }
  }

  lemma FrontOf(b: bytes, n: nat, k: nat)
    requires n + k <= |b|
    ensures b[..|b| - k] == b[..n] + b[n..][..|b| - n - k]
  {
  }

  /** The first record of `b` on its own. */
  lemma FirstRecord(b: bytes)
    requires HasRecord(b)
    ensures var n := RecordLen(b);
            var head := b[..n];
            && b == head + b[n..] && HasRecord(head) && RecordLen(head) == n && Tag(head) == Tag(b)
            && head[n..] == [] && Exact(head)
  {
    var n := RecordLen(b);
    var head, tail := b[..n], b[n..];
    assert b == head + tail;
    assert b[2..] == head[2..] + tail;
    ReadLocal(head, tail);
    ReadLocal(head[2..], tail);
  }

  function Record(id: uint16, data: bytes): (r: bytes)
    requires |data| <= UINT16_MAX
    ensures |r| == 4 + |data| && HasRecord(r) && RecordLen(r) == |r| && Tag(r) == id
  {
    var r := Put16(id, Put16(|data|, data));
    assert r[..2] == P16(id) && r[2..] == Put16(|data|, data);
    ReadLocal(P16(id), Put16(|data|, data));
    ReadLocal(P16(|data|), data);
    r
  }

  /** What follows a record does not change how it is read. */
  lemma RecordLocal(a: bytes, b: bytes)
    requires HasRecord(a)
    ensures HasRecord(a + b) && RecordLen(a + b) == RecordLen(a) && Tag(a + b) == Tag(a)
    ensures (a + b)[..RecordLen(a)] == a[..RecordLen(a)]
    ensures (a + b)[RecordLen(a)..] == a[RecordLen(a)..] + b
  {
    assert (a + b)[2..] == a[2..] + b;
    ReadLocal(a, b);
    ReadLocal(a[2..], b);
  }

  lemma RecordExact(id: uint16, data: bytes)
    requires |data| <= UINT16_MAX
    ensures Exact(Record(id, data))
    ensures forall t: uint16 :: HasTag(Record(id, data), t) <==> t == id
  {
    var r := Record(id, data);
    assert r[RecordLen(r)..] == [];
  }

  lemma {:induction false} ExactAppend(a: bytes, b: bytes)
    requires Exact(a)
    ensures Exact(a + b) <==> Exact(b)
    ensures forall t: uint16 :: HasTag(a + b, t) <==> HasTag(a, t) || HasTag(b, t)
    decreases |a|
  {
    if a == [] {
      assert a + b == b;
    } else {
      RecordLocal(a, b);
      ExactAppend(a[RecordLen(a)..], b);
    }
  }

  // ---------------------------------------------------------------- removing records

  /** `extra` without the records tagged `id`; bytes that are no record stay. */
  function Remove(extra: bytes, id: uint16): bytes
    decreases |extra|
  {
    if !HasRecord(extra) then extra else
      var n := RecordLen(extra);
      (if Tag(extra) == id then [] else extra[..n]) + Remove(extra[n..], id)
  }

  method RemoveExtraField(extra: bytes, id: uint16) returns (r: bytes)
    ensures r == Remove(extra, id)
  {
    hide U16, P16, P32;
    var out: bytes := [];
    var removed := false;
    var b := extra;
    while HasRecord(b)
      invariant out + Remove(b, id) == Remove(extra, id)
      invariant !removed ==> out + b == extra
      decreases |b|
    {
      var n := RecordLen(b);
      ghost var tail := b[n..];
      if Tag(b) == id {
        removed := true;
        assert Remove(b, id) == Remove(tail, id);
      } else {
        Assoc(out, b[..n], tail);
        Assoc(out, b[..n], Remove(tail, id));
        assert b[..n] + tail == b;
        out := out + b[..n];
      }
      b := b[n..];
    }
    return if removed then out + b else extra;
  }

  /** Removal drops bytes exactly when there was something to drop. */
  lemma {:induction false} RemoveLength(b: bytes, id: uint16)
    ensures |Remove(b, id)| <= |b|
    ensures HasTag(b, id) <==> |Remove(b, id)| != |b|
    ensures !HasTag(b, id) ==> Remove(b, id) == b
    decreases |b|
  {
    if HasRecord(b) {
      var n := RecordLen(b);
      RemoveLength(b[n..], id);
      assert b[..n] + b[n..] == b;
      if Tag(b) == id {
        assert |Remove(b, id)| == |Remove(b[n..], id)|;
      }
    }
  }

  lemma {:induction false} RemoveAppend(a: bytes, b: bytes, id: uint16)
    requires Exact(a)
    ensures Remove(a + b, id) == Remove(a, id) + Remove(b, id)
    decreases |a|
  {
    if a == [] {
      assert a + b == b;
      Whole(Remove(b, id));
    } else {
      hide U16, Remove;
      var n := RecordLen(a);
      RecordLocal(a, b);
      RemoveOnce(a, id);
      RemoveOnce(a + b, id);
      RemoveAppend(a[n..], b, id);
      Assoc(if Tag(a) == id then [] else a[..n], Remove(a[n..], id), Remove(b, id));
    }
  }

  lemma RemoveOnce(b: bytes, id: uint16)
    requires HasRecord(b)
    ensures var n := RecordLen(b); Remove(b, id) == (if Tag(b) == id then [] else b[..n]) + Remove(b[n..], id)
  {
    hide U16;
  }

  /** After removal the tag is gone, every other tag is where it was, and what
      follows the records is what it was. */
  lemma {:induction false} RemoveTags(b: bytes, id: uint16)
    ensures Pad(Remove(b, id)) == Pad(b) && (Exact(Remove(b, id)) <==> Exact(b))
    ensures forall t: uint16 :: HasTag(Remove(b, id), t) <==> t != id && HasTag(b, t)
    decreases |b|
  {
    ExactIsUnpadded(b);
    ExactIsUnpadded(Remove(b, id));
    if HasRecord(b) {
      var n := RecordLen(b);
      var head, rest := b[..n], Remove(b[n..], id);
      RemoveTags(b[n..], id);
      FirstRecord(b);
      if Tag(b) == id {
        Whole(rest);
      } else {
        RecordLocal(head, rest);
        Cut(head, rest);
      }
    }
  }

  // ---------------------------------------------------------------- what the reader takes from the extra

  /** The fields of an entry that its extra records may replace while the reader walks them. */
  datatype Walk = Walk(
    usize: uint64, csize: uint64, offset: int,
    compMethod: uint16, ae: uint16, strength: byte, xxh3: uint64)

  /** The effect of one record; `u32` and `c32` are the 32-bit sizes of the fixed part. */
  function Step(u32: uint32, c32: uint32, w: Walk, tag: uint16, data: bytes): (r: Result<Walk>)
    ensures r.Err? ==> r.error == ErrFormat
  {
    if tag == ZIP64_EXTRA_ID then Zip64Step(u32, c32, w, data)
    else if tag == WINZIP_AES_EXTRA_ID && |data| >= 7 then
      Ok(w.(ae := U16(data), strength := data[4], compMethod := U16(data[5..])))
    else if tag == XXH3_EXTRA_ID && |data| >= 8 then Ok(w.(xxh3 := U64(data)))
    else Ok(w)
  }

  /** Each value that is flagged by its 32-bit field being all ones is taken, in order. */
  function Zip64Step(u32: uint32, c32: uint32, w: Walk, data: bytes): Result<Walk> {
    if u32 == UINT32_MAX && |data| < 8 then Err(ErrFormat) else
    var (usize, d1) := if u32 == UINT32_MAX then Get64(data) else (w.usize, data);
    if c32 == UINT32_MAX && |d1| < 8 then Err(ErrFormat) else
    var (csize, d2) := if c32 == UINT32_MAX then Get64(d1) else (w.csize, d1);
    if w.offset == UINT32_MAX && |d2| < 8 then Err(ErrFormat) else
    var offset := if w.offset == UINT32_MAX then Int64(Get64(d2).0) else w.offset;
    Ok(w.(usize := usize, csize := csize, offset := offset))
  }

  function WalkExtra(u32: uint32, c32: uint32, w: Walk, b: bytes): (r: Result<Walk>)
    ensures r.Err? ==> r.error == ErrFormat
    decreases |b|
  {
    if |b| < 4 then
      if forall v <- b :: v == 0 then Ok(w) else Err(ErrFormat)
    else if !HasRecord(b) then Err(ErrFormat)
    else
      var n := RecordLen(b);
      var w' :- Step(u32, c32, w, Tag(b), b[4..n]);
      WalkExtra(u32, c32, w', b[n..])
  }

  /** The reader treats a list of records followed by more bytes one after the other. */
  lemma {:induction false} WalkAppend(u32: uint32, c32: uint32, w: Walk, a: bytes, b: bytes)
    requires Exact(a)
    ensures var r := WalkExtra(u32, c32, w, a);
            WalkExtra(u32, c32, w, a + b) == if r.Ok? then WalkExtra(u32, c32, r.value, b) else r
    decreases |a|
  {
    if a == [] {
      assert a + b == b;
    } else {
      var n := RecordLen(a);
      RecordLocal(a, b);
      assert (a + b)[4..n] == a[4..n];
      var s := Step(u32, c32, w, Tag(a), a[4..n]);
      if s.Ok? {
        WalkAppend(u32, c32, s.value, a[n..], b);
      }
    }
  }

  /** What the AES records of `b` leave in (compMethod, ae, strength). */
  function AesInfo(b: bytes, compMethod: uint16, ae: uint16, strength: byte): (uint16, uint16, byte)
    decreases |b|
  {
    if !HasRecord(b) then (compMethod, ae, strength) else
      var n := RecordLen(b);
      if Tag(b) == WINZIP_AES_EXTRA_ID && n >= 11 then AesInfo(b[n..], U16(b[9..]), U16(b[4..]), b[8])
      else AesInfo(b[n..], compMethod, ae, strength)
  }

  /** Without zip64 and xxh3 records, only the AES settings change. */
  lemma {:induction false} WalkForeign(u32: uint32, c32: uint32, w: Walk, b: bytes)
    requires Padded(b) && !HasTag(b, ZIP64_EXTRA_ID) && !HasTag(b, XXH3_EXTRA_ID)
    ensures var (m, ae, s) := AesInfo(b, w.compMethod, w.ae, w.strength);
            WalkExtra(u32, c32, w, b) == Ok(w.(compMethod := m, ae := ae, strength := s))
    decreases |b|
  {
    if HasRecord(b) {
      var n := RecordLen(b);
      var data := b[4..n];
      if Tag(b) == WINZIP_AES_EXTRA_ID && n >= 11 {
        assert data[..2] == b[4..][..2] && data[5..][..2] == b[9..][..2] && data[4] == b[8];
      }
      WalkForeign(u32, c32, Step(u32, c32, w, Tag(b), data).value, b[n..]);
    }
  }

  /** Whatever the records are, the walk takes the AES settings from the AES records alone. */
  lemma {:induction false} WalkAes(u32: uint32, c32: uint32, w: Walk, b: bytes)
    requires WalkExtra(u32, c32, w, b).Ok?
    ensures var v := WalkExtra(u32, c32, w, b).value;
            AesInfo(b, w.compMethod, w.ae, w.strength) == (v.compMethod, v.ae, v.strength)
    decreases |b|
  {
    if HasRecord(b) {
      var n := RecordLen(b);
      var data := b[4..n];
      if Tag(b) == WINZIP_AES_EXTRA_ID && n >= 11 {
        assert data[..2] == b[4..][..2] && data[5..][..2] == b[9..][..2] && data[4] == b[8];
      }
      WalkAes(u32, c32, Step(u32, c32, w, Tag(b), data).value, b[n..]);
    }
  }

  /** Whatever the reader accepts is a list of records, possibly padded. */
  lemma {:induction false} WalkedIsPadded(u32: uint32, c32: uint32, w: Walk, b: bytes)
    requires WalkExtra(u32, c32, w, b).Ok?
    ensures Padded(b)
    decreases |b|
  {
    if HasRecord(b) {
      var n := RecordLen(b);
      WalkedIsPadded(u32, c32, Step(u32, c32, w, Tag(b), b[4..n]).value, b[n..]);
    }
  }

  lemma {:induction false} AesInfoAppend(a: bytes, b: bytes, compMethod: uint16, ae: uint16, strength: byte)
    requires Exact(a)
    ensures AesInfo(a + b, compMethod, ae, strength) ==
            var (m, e, s) := AesInfo(a, compMethod, ae, strength); AesInfo(b, m, e, s)
    decreases |a|
  {
    hide U16;
    if a == [] {
      assert a + b == b;
    } else {
      hide AesInfo;
      var n := RecordLen(a);
      RecordLocal(a, b);
      AesInfoOnce(a, compMethod, ae, strength);
      AesInfoOnce(a + b, compMethod, ae, strength);
      if Tag(a) == WINZIP_AES_EXTRA_ID && n >= 11 {
        AesLocal(a, b);
        AesInfoAppend(a[n..], b, U16(a[9..]), U16(a[4..]), a[8]);
      } else {
        AesInfoAppend(a[n..], b, compMethod, ae, strength);
      }
    }
  }

  lemma AesInfoOnce(b: bytes, compMethod: uint16, ae: uint16, strength: byte)
    requires HasRecord(b)
    ensures var n := RecordLen(b);
            AesInfo(b, compMethod, ae, strength) ==
              if Tag(b) == WINZIP_AES_EXTRA_ID && n >= 11 then AesInfo(b[n..], U16(b[9..]), U16(b[4..]), b[8])
              else AesInfo(b[n..], compMethod, ae, strength)
  {
    hide U16;
  }

  lemma AesLocal(a: bytes, b: bytes)
    requires |a| >= 11
    ensures U16((a + b)[9..]) == U16(a[9..]) && U16((a + b)[4..]) == U16(a[4..]) && (a + b)[8] == a[8]
  {
    assert (a + b)[9..] == a[9..] + b && (a + b)[4..] == a[4..] + b;
    ReadLocal(a[9..], b);
    ReadLocal(a[4..], b);
  }

  lemma {:induction false} AesInfoAbsent(b: bytes, compMethod: uint16, ae: uint16, strength: byte)
    requires !HasTag(b, WINZIP_AES_EXTRA_ID)
    ensures AesInfo(b, compMethod, ae, strength) == (compMethod, ae, strength)
    decreases |b|
  {
    if HasRecord(b) {
      AesInfoAbsent(b[RecordLen(b)..], compMethod, ae, strength);
    }
  }

  /** Dropping the records a filter regenerates leaves the AES settings as they were. */
  lemma {:induction false} AesInfoRemove(b: bytes, id: uint16, compMethod: uint16, ae: uint16, strength: byte)
    requires id != WINZIP_AES_EXTRA_ID
    ensures AesInfo(Remove(b, id), compMethod, ae, strength) == AesInfo(b, compMethod, ae, strength)
    decreases |b|
  {
    if HasRecord(b) {
      var n := RecordLen(b);
      var head, tail := b[..n], b[n..];
      FirstRecord(b);
      var (m, e, s) := AesInfo(head, compMethod, ae, strength);
      AesInfoAppend(head, tail, compMethod, ae, strength);
      AesInfoRemove(tail, id, m, e, s);
      if Tag(b) == id {
        Whole(Remove(tail, id));
      } else {
        AesInfoAppend(head, Remove(tail, id), compMethod, ae, strength);
      }
    }
  }

  // ---------------------------------------------------------------- the records the writer adds

  function Xxh3Record(v: uint64): (r: bytes)
    ensures |r| == 12
  {
    Record(XXH3_EXTRA_ID, P64(v))
  }

  function Zip64Record(usize: uint64, csize: uint64, offset: uint64): (r: bytes)
    ensures |r| == 28
  {
    Record(ZIP64_EXTRA_ID, Put64(usize, Put64(csize, P64(offset))))
  }

  function AesRecord(strength: byte, compMethod: uint16): (r: bytes)
    ensures |r| == 11
  {
    Record(WINZIP_AES_EXTRA_ID, Put16(2, Put16(0x4541, [strength] + P16(compMethod))))
  }

  /** Reading one record the writer added: its step, and then what follows. */
  lemma WalkRecord(u32: uint32, c32: uint32, w: Walk, id: uint16, data: bytes)
    requires |data| <= UINT16_MAX
    ensures WalkExtra(u32, c32, w, Record(id, data)) == Step(u32, c32, w, id, data)
  {
    var r := Record(id, data);
    assert r == P16(id) + (P16(|data|) + data);
    assert r[4..|r|] == data && r[|r|..] == [];
  }

  function IfEscaped(escaped: bool, v: uint64): bytes {
    if escaped then P64(v) else []
  }

  /** A zip64 record holds exactly the values whose 32-bit fields are escaped,
      in the order content size, compressed size, offset; the others stay, and
      whatever follows is ignored. */
  lemma EscapedValues(u32: uint32, c32: uint32, w: Walk, u: uint64, c: uint64, o: uint64, more: bytes)
    requires |IfEscaped(u32 == UINT32_MAX, u) + (IfEscaped(c32 == UINT32_MAX, c)
               + (IfEscaped(w.offset == UINT32_MAX, o) + more))| <= UINT16_MAX
    ensures WalkExtra(u32, c32, w, Record(ZIP64_EXTRA_ID,
                        IfEscaped(u32 == UINT32_MAX, u) + (IfEscaped(c32 == UINT32_MAX, c)
                        + (IfEscaped(w.offset == UINT32_MAX, o) + more))))
            == Ok(w.(usize := if u32 == UINT32_MAX then u else w.usize,
                     csize := if c32 == UINT32_MAX then c else w.csize,
                     offset := if w.offset == UINT32_MAX then Int64(o) else w.offset))
  {
    hide U64, P64, WalkExtra, Record;
    var d3 := IfEscaped(w.offset == UINT32_MAX, o) + more;
    var d2 := IfEscaped(c32 == UINT32_MAX, c) + d3;
    WalkRecord(u32, c32, w, ZIP64_EXTRA_ID, IfEscaped(u32 == UINT32_MAX, u) + d2);
    TakeEscaped(u, d2);
    TakeEscaped(c, d3);
    TakeEscaped(o, more);
    Whole(d2);
    Whole(d3);
    Whole(more);
  }

  lemma TakeEscaped(v: uint64, rest: bytes)
    ensures |P64(v) + rest| >= 8 && Get64(P64(v) + rest) == (v, rest)
  {
    hide U64, P64;
    Cut(P64(v), rest);
  }

  /** A record that ends before the last escaped value is refused. */
  lemma EscapedValuesMissing(u32: uint32, c32: uint32, w: Walk, data: bytes)
    requires |data| <= UINT16_MAX
    requires |data| < 8 * ((if u32 == UINT32_MAX then 1 else 0) + (if c32 == UINT32_MAX then 1 else 0)
                           + (if w.offset == UINT32_MAX then 1 else 0))
    ensures WalkExtra(u32, c32, w, Record(ZIP64_EXTRA_ID, data)) == Err(ErrFormat)
  {
    hide U64, WalkExtra, Record;
    WalkRecord(u32, c32, w, ZIP64_EXTRA_ID, data);
  }

  lemma AesRecordInfo(strength: byte, compMethod: uint16, m: uint16, ae: uint16, s: byte)
    ensures AesInfo(AesRecord(strength, compMethod), m, ae, s) == (compMethod, 2, strength)
  {
    var data := Put16(2, Put16(0x4541, [strength] + P16(compMethod)));
    var r := AesRecord(strength, compMethod);
    assert data == P16(2) + (P16(0x4541) + ([strength] + P16(compMethod)));
    assert r == P16(WINZIP_AES_EXTRA_ID) + (P16(|data|) + data);
    assert r[4..][..2] == P16(2) && r[9..][..2] == P16(compMethod) && r[8] == strength;
    assert r[|r|..] == [];
  }
}
