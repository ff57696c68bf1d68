/** Bytes, fixed-width little-endian integers, results, and the two cursors
    (`writeBuf`, `readBuf`) that all record printers and parsers use. */
module Bytes {

  type byte = x: int | 0 <= x < 0x100
  type bytes = seq<byte>
  type uint16 = x: int | 0 <= x < 0x1_0000
  type uint32 = x: int | 0 <= x < 0x1_0000_0000
  type uint64 = x: int | 0 <= x < 0x1_0000_0000_0000_0000

  const UINT16_MAX: uint16 := 0xFFFF
  const UINT32_MAX: uint32 := 0xFFFF_FFFF
  const TWO16 := 0x1_0000
  const TWO32 := 0x1_0000_0000
  const TWO63 := 0x8000_0000_0000_0000
  const TWO64 := 0x1_0000_0000_0000_0000

  datatype Option<+T> = None | Some(value: T)

  /** The errors that cross a component boundary; `Other` stands for errors that no caller tells apart. */
  datatype Error =
    | Eof | UnexpectedEof | ErrFormat | ErrAlgorithm | ErrChecksum | ErrXxh3
    | ErrPassword | ErrDecryption | ErrAuthentication
    | ErrLongName | ErrLongExtra | ErrLongComment
    | ErrClosedTwice | ErrWriteClosed | ErrDetached | ErrNotDetached | ErrDuplicate
    | ErrLevel | ErrKeySize | ErrNegativeOffset | ErrCommentLength | ErrTooManyFiles
    | ErrBackwards | ErrNoDescriptor | ErrAesSource | ErrSource

  datatype Result<+T> = Ok(value: T) | Err(error: Error) {
    predicate IsFailure() { Err? }

    function PropagateFailure<U>(): Result<U>
      requires Err?
    {
      Err(error)
    }

    function Extract(): T
      requires Ok?
    {
      value
    }
  }

  /** Go's conversion `int64(v)` of an unsigned 64-bit value. */
  function Int64(v: uint64): int {
    if v < TWO63 then v else v - TWO64
  }

  function Min(a: int, b: int): int {
    if a < b then a else b
  }

  function Zeros(n: nat): (z: bytes)
    ensures |z| == n && forall i :: 0 <= i < n ==> z[i] == 0
  {
    seq(n, _ => 0)
  }

  function Xor(a: byte, b: byte): byte {
    ((a as bv8) ^ (b as bv8)) as byte
  }

  lemma ThroughInt(x: bv8)
    ensures (x as byte) as bv8 == x
  {
  }

  /** The `n`th bit vector, counting up. */
  function Bits(n: byte): bv8 {
    if n == 0 then 0 else Bits(n - 1) + 1
  }

  lemma NextBits(x: bv8)
    requires x as byte < 255
    ensures (x + 1) as byte == x as byte + 1
  {
  }

  lemma {:induction false} BitsCount(n: byte)
    ensures Bits(n) as byte == n
  {
    if n != 0 {
      BitsCount(n - 1);
      NextBits(Bits(n - 1));
    }
  }

  lemma ThroughBits(x: byte)
    ensures (x as bv8) as byte == x
  {
    BitsCount(x);
    ThroughInt(Bits(x));
  }

  lemma XorBits(x: bv8, y: bv8)
    ensures (x ^ y) ^ y == x
  {
  }

  lemma XorTwice(a: byte, b: byte)
    ensures Xor(Xor(a, b), b) == a
  {
    ThroughInt((a as bv8) ^ (b as bv8));
    XorBits(a as bv8, b as bv8);
    ThroughBits(a);
  }

  function ByteOf(x: bv8): byte {
    x as byte
  }

  function HalfOf(x: bv8): bv8 {
    x >> 1
  }

  function LowOf(x: bv8): bv8 {
    x & 1
  }

  function XorOf(x: bv8, y: bv8): bv8 {
    x ^ y
  }

  lemma HalfBits(x: bv8)
    ensures ByteOf(x) as int == 2 * ByteOf(HalfOf(x)) as int + ByteOf(LowOf(x)) as int && ByteOf(LowOf(x)) < 2
  {
  }

  lemma XorParts(x: bv8, y: bv8)
    ensures HalfOf(XorOf(x, y)) == XorOf(HalfOf(x), HalfOf(y)) && LowOf(XorOf(x, y)) == XorOf(LowOf(x), LowOf(y))
  {
  }

  lemma LowSum(x: bv8, y: bv8)
    ensures ByteOf(XorOf(LowOf(x), LowOf(y))) as int == (ByteOf(LowOf(x)) as int + ByteOf(LowOf(y)) as int) % 2
  {
    LowIs(x);
    LowIs(y);
  }

  lemma LowIs(x: bv8)
    ensures LowOf(x) == 0 || LowOf(x) == 1
  {
  }

  lemma XorOfBytes(x: bv8, y: bv8)
    ensures Xor(ByteOf(x), ByteOf(y)) == ByteOf(XorOf(x, y))
  {
    ThroughInt(x);
    ThroughInt(y);
  }

  lemma HasBits(a: byte) returns (x: bv8)
    ensures ByteOf(x) == a
  {
    ThroughBits(a);
    x := a as bv8;
  }

  function BitAt(a: byte, k: nat): int
    requires k < 8
  {
    if k == 0 then a as int % 2 else BitAt(a / 2, k - 1)
  }

  lemma HalfXor(a: byte, b: byte)
    ensures Xor(a, b) as int % 2 == (a as int + b as int) % 2 && Xor(a, b) / 2 == Xor(a / 2, b / 2)
  {
    hide Xor, ByteOf, HalfOf, LowOf, XorOf;
    var x := HasBits(a);
    var y := HasBits(b);
    XorOfBytes(x, y);
    XorOfBytes(HalfOf(x), HalfOf(y));
    HalfBits(x);
    HalfBits(y);
    HalfBits(XorOf(x, y));
    XorParts(x, y);
    LowSum(x, y);
    ParitySum(a as int, ByteOf(HalfOf(x)) as int, b as int, ByteOf(HalfOf(y)) as int);
  }

  lemma ParitySum(a: int, p: int, b: int, q: int)
    ensures (a - 2 * p + (b - 2 * q)) % 2 == (a + b) % 2
  {
  }

  /** Bit by bit, XOR is the sum modulo 2. */
  lemma {:induction false} XorBitwise(a: byte, b: byte, k: nat)
    requires k < 8
    ensures BitAt(Xor(a, b), k) == (BitAt(a, k) + BitAt(b, k)) % 2
    decreases k
  {
    hide Xor;
    HalfXor(a, b);
    if k > 0 {
      XorBitwise(a / 2, b / 2, k - 1);
    }
  }

  /** Bytes of a sequence of chunks, in order. */
  function Flatten(chunks: seq<bytes>): bytes {
    if chunks == [] then [] else Flatten(chunks[..|chunks| - 1]) + chunks[|chunks| - 1]
  }

  lemma FlattenSnoc(chunks: seq<bytes>, c: bytes)
    ensures Flatten(chunks + [c]) == Flatten(chunks) + c
  {
    assert (chunks + [c])[..|chunks|] == chunks;
  }

  lemma Assoc<T>(a: seq<T>, b: seq<T>, c: seq<T>)
    ensures a + b + c == a + (b + c)
  {
  }

  lemma Cut<T>(a: seq<T>, b: seq<T>)
    ensures (a + b)[..|a|] == a && (a + b)[|a|..] == b
  {
  }

  lemma SplitAt<T>(s: seq<T>, i: nat)
    requires i < |s|
    ensures s[..i] + [s[i]] + s[i + 1..] == s && s[..i] + [s[i]] == s[..i + 1]
  {
  }

  lemma Whole<T>(s: seq<T>)
    ensures s[..|s|] == s && s + [] == s && [] + s == s
  {
  }

  // ---------------------------------------------------------------- little-endian integers

  function P16(v: uint16): (b: bytes)
    ensures |b| == 2 && U16(b) == v
  {
    [v % 0x100, v / 0x100]
  }

  function P32(v: uint32): (b: bytes)
    ensures |b| == 4 && U32(b) == v
  {
    P16(v % TWO16) + P16(v / TWO16)
  }

  function P64(v: uint64): (b: bytes)
    ensures |b| == 8 && U64(b) == v
  {
    P32(v % TWO32) + P32(v / TWO32)
  }

  function U16(b: bytes): uint16
    requires 2 <= |b|
  {
    (b[0] as int) + 0x100 * (b[1] as int)
  }

  function U32(b: bytes): uint32
    requires 4 <= |b|
  {
    (U16(b[..2]) as int) + TWO16 * (U16(b[2..4]) as int)
  }

  function U64(b: bytes): uint64
    requires 8 <= |b|
  {
    (U32(b[..4]) as int) + TWO32 * (U32(b[4..8]) as int)
  }

  /** Reading ignores what follows the integer. */
  lemma ReadLocal(b: bytes, rest: bytes)
    ensures 2 <= |b| ==> U16(b + rest) == U16(b)
    ensures 4 <= |b| ==> U32(b + rest) == U32(b)
    ensures 8 <= |b| ==> U64(b + rest) == U64(b)
  {
    if 4 <= |b| {
      assert (b + rest)[..2] == b[..2] && (b + rest)[2..4] == b[2..4];
    }
    if 8 <= |b| {
      assert (b + rest)[..4] == b[..4] && (b + rest)[4..8] == b[4..8];
    }
  }

  // A record is a nest of Put's; Get undoes the outermost one.

  function Get16(b: bytes): (r: (uint16, bytes))
    requires 2 <= |b|
    ensures |r.1| == |b| - 2
  {
    (U16(b[..2]), b[2..])
  }

  function Get32(b: bytes): (r: (uint32, bytes))
    requires 4 <= |b|
    ensures |r.1| == |b| - 4
  {
    (U32(b[..4]), b[4..])
  }

  function Get64(b: bytes): (r: (uint64, bytes))
    requires 8 <= |b|
    ensures |r.1| == |b| - 8
  {
    (U64(b[..8]), b[8..])
  }

  function Put16(v: uint16, rest: bytes): (b: bytes)
    ensures |b| == 2 + |rest| && Get16(b) == (v, rest)
  {
    assert (P16(v) + rest)[..2] == P16(v) && (P16(v) + rest)[2..] == rest;
    P16(v) + rest
  }

  function Put32(v: uint32, rest: bytes): (b: bytes)
    ensures |b| == 4 + |rest| && Get32(b) == (v, rest)
  {
    assert (P32(v) + rest)[..4] == P32(v) && (P32(v) + rest)[4..] == rest;
    P32(v) + rest
  }

  function Put64(v: uint64, rest: bytes): (b: bytes)
    ensures |b| == 8 + |rest| && Get64(b) == (v, rest)
  {
    assert (P64(v) + rest)[..8] == P64(v) && (P64(v) + rest)[8..] == rest;
    P64(v) + rest
  }

  /** A fixed buffer filled from the front; what is skipped stays zero. */
  class WriteBuf {
    const buf: array<byte>
    var pos: nat

    ghost predicate Valid()
      reads this, buf
    {
      pos <= buf.Length && forall i :: pos <= i < buf.Length ==> buf[i] == 0
    }

    function Done(): bytes
      requires pos <= buf.Length
      reads this, buf
    {
      buf[..pos]
    }

    constructor (n: nat)
      ensures Valid() && fresh(buf) && buf.Length == n && Done() == []
    {
      buf := new byte[n](_ => 0);
      pos := 0;
    }

    /** Appends `data`. The second postcondition re-associates a nest of Put's. */
    method Append(data: bytes)
      requires Valid() && pos + |data| <= buf.Length
      modifies this, buf
      ensures Valid() && pos == old(pos) + |data|
      ensures Done() == old(Done()) + data
      ensures forall rest: bytes {:trigger Done() + rest} :: Done() + rest == old(Done()) + (data + rest)
    {
      ghost var before := Done();
      var i := 0;
      while i < |data|
        invariant 0 <= i <= |data| && pos == old(pos) && pos + |data| <= buf.Length
        invariant forall k :: 0 <= k < pos ==> buf[k] == before[k]
        invariant forall k :: 0 <= k < i ==> buf[pos + k] == data[k]
        invariant forall k :: pos + i <= k < buf.Length ==> buf[k] == 0
      {
        buf[pos + i] := data[i];
        i := i + 1;
      }
      pos := pos + |data|;
      assert Done() == before + data;
      forall rest: bytes ensures Done() + rest == before + (data + rest) {
        assert before + data + rest == before + (data + rest);
      }
    }

    method Uint16(v: uint16)
      requires Valid() && pos + 2 <= buf.Length
      modifies this, buf
      ensures Valid() && pos == old(pos) + 2
      ensures Done() == old(Done()) + P16(v)
      ensures forall rest: bytes {:trigger Done() + rest} :: Done() + rest == old(Done()) + Put16(v, rest)
    {
      Append(P16(v));
    }

    method Uint32(v: uint32)
      requires Valid() && pos + 4 <= buf.Length
      modifies this, buf
      ensures Valid() && pos == old(pos) + 4
      ensures Done() == old(Done()) + P32(v)
      ensures forall rest: bytes {:trigger Done() + rest} :: Done() + rest == old(Done()) + Put32(v, rest)
    {
      Append(P32(v));
    }

    method Uint64(v: uint64)
      requires Valid() && pos + 8 <= buf.Length
      modifies this, buf
      ensures Valid() && pos == old(pos) + 8
      ensures Done() == old(Done()) + P64(v)
      ensures forall rest: bytes {:trigger Done() + rest} :: Done() + rest == old(Done()) + Put64(v, rest)
    {
      Append(P64(v));
    }
  }

  /** A cursor over bytes; reading an integer moves it forward. */
  class ReadBuf {
    var b: bytes

    constructor (data: bytes)
      ensures b == data
    {
      b := data;
    }

    method Uint16() returns (v: uint16)
      requires 2 <= |b|
      modifies this
      ensures (v, b) == Get16(old(b))
    {
      v := U16(b[..2]);
      b := b[2..];
    }

    method Uint32() returns (v: uint32)
      requires 4 <= |b|
      modifies this
      ensures (v, b) == Get32(old(b))
    {
      v := U32(b[..4]);
      b := b[4..];
    }

    method Uint64() returns (v: uint64)
      requires 8 <= |b|
      modifies this
      ensures (v, b) == Get64(old(b))
    {
      v := U64(b[..8]);
      b := b[8..];
    }

    method Skip(n: nat)
      requires n <= |b|
      modifies this
      ensures b == old(b)[n..]
    {
      b := b[n..];
    }
  }
}
