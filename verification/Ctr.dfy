/** Counter mode with a little-endian counter that starts at 1, and its buffered implementation. */
module Ctr {
  import opened Bytes
  import opened Header

  const BLOCK_SIZE := 16
  const BUFFER_SIZE := 512

  // ---------------------------------------------------------------- the counter

  /** The low `w` bytes of `n`, least significant first. */
  function LowBytes(n: nat, w: nat): (b: bytes)
    ensures |b| == w
  {
    if w == 0 then [] else [n % 0x100] + LowBytes(n / 0x100, w - 1)
  }

  function Value(b: bytes): nat {
    if b == [] then 0 else b[0] as int + 0x100 * Value(b[1..])
  }

  function Pow256(w: nat): nat {
    if w == 0 then 1 else 0x100 * Pow256(w - 1)
  }

  /** Counter block `k`: the number `k + 1` in 16 bytes, modulo 2^128. */
  function Counter(k: nat): Block {
    LowBytes(k + 1, BLOCK_SIZE)
  }

  lemma {:induction false} ValueLowBytes(n: nat, w: nat)
    requires n < Pow256(w)
    ensures Value(LowBytes(n, w)) == n
  {
    if w != 0 {
      ValueLowBytes(n / 0x100, w - 1);
      assert LowBytes(n, w)[1..] == LowBytes(n / 0x100, w - 1);
    }
  }

  /** No counter block is used twice within 2^128 - 1 blocks. */
  lemma CountersDiffer(i: nat, j: nat)
    requires i < j && j + 1 < Pow256(BLOCK_SIZE)
    ensures Counter(i) != Counter(j)
  {
    hide LowBytes, Value;
    ValueLowBytes(i + 1, BLOCK_SIZE);
    ValueLowBytes(j + 1, BLOCK_SIZE);
  }

  /** Adding one to a little-endian number, with carry and wrap-around. */
  function Increment(c: bytes): (r: bytes)
    ensures |r| == |c|
  {
    if c == [] then []
    else if c[0] == 0xFF then [0] + Increment(c[1..])
    else [c[0] + 1] + c[1..]
  }

  lemma {:induction false} IncrementLowBytes(n: nat, w: nat)
    ensures Increment(LowBytes(n, w)) == LowBytes(n + 1, w)
  {
    if w != 0 {
      var low, rest := n % 0x100, LowBytes(n / 0x100, w - 1);
      assert LowBytes(n, w)[1..] == rest;
      if low == 0xFF {
        assert (n + 1) / 0x100 == n / 0x100 + 1 && (n + 1) % 0x100 == 0;
        IncrementLowBytes(n / 0x100, w - 1);
      } else {
        assert (n + 1) / 0x100 == n / 0x100 && (n + 1) % 0x100 == low + 1;
      }
    }
  }

  // ---------------------------------------------------------------- the stream

  /** Byte `i` of the key stream E(1) E(2) E(3) ... */
  function KeyByte(e: Block -> Block, i: nat): byte {
    e(Counter(i / BLOCK_SIZE))[i % BLOCK_SIZE]
  }

  /** The simple cipher: byte by byte, starting at stream position `at`. */
  function CtrXor(e: Block -> Block, at: nat, data: bytes): (r: bytes)
    ensures |r| == |data|
  {
    seq(|data|, i requires 0 <= i < |data| => Xor(data[i], KeyByte(e, at + i)))
  }

  lemma CtrInverse(e: Block -> Block, at: nat, data: bytes)
    ensures CtrXor(e, at, CtrXor(e, at, data)) == data
  {
    hide Xor, KeyByte;
    forall i | 0 <= i < |data| ensures CtrXor(e, at, CtrXor(e, at, data))[i] == data[i] {
      XorTwice(data[i], KeyByte(e, at + i));
    }
  }

  /** A message in pieces, the position carried along, is the message at once. */
  lemma CtrAppend(e: Block -> Block, at: nat, a: bytes, b: bytes)
    ensures CtrXor(e, at, a + b) == CtrXor(e, at, a) + CtrXor(e, at + |a|, b)
  {
    hide Xor, KeyByte;
    forall i | 0 <= i < |a| + |b|
      ensures CtrXor(e, at, a + b)[i] == (CtrXor(e, at, a) + CtrXor(e, at + |a|, b))[i]
    {
      if i >= |a| {
        assert at + i == (at + |a|) + (i - |a|);
      }
    }
  }

  // ---------------------------------------------------------------- the buffered implementation

  class Stream {
    const e: Block -> Block
    const ctr: array<byte>
    const out: array<byte> // holds generated bytes out[used..len] not consumed yet
    var len: nat
    var used: nat
    ghost var blocks: nat // blocks generated so far

    ghost predicate Valid()
      reads this, ctr, out
    {
      && ctr != out && ctr.Length == BLOCK_SIZE && out.Length == BUFFER_SIZE
      && used <= len <= BUFFER_SIZE && len <= BLOCK_SIZE * blocks
      && ctr[..] == Counter(blocks)
      && forall j :: 0 <= j < len ==> out[j] == KeyByte(e, BLOCK_SIZE * blocks - len + j)
    }

    /** How many stream bytes have been consumed. */
    ghost function Position(): nat
      requires len <= BLOCK_SIZE * blocks
      reads this
    {
      BLOCK_SIZE * blocks - len + used
    }

    constructor (e: Block -> Block)
      ensures Valid() && Position() == 0 && this.e == e && fresh(ctr) && fresh(out)
    {
      this.e := e;
      ctr := new byte[BLOCK_SIZE](i => if i == 0 then 1 else 0);
      out := new byte[BUFFER_SIZE](_ => 0);
      len, used, blocks := 0, 0, 0;
      new;
      assert ctr[..] == Counter(0) by { FirstCounter(ctr[..]); }
    }

    method IncrementCounter()
      requires ctr != out && ctr.Length == BLOCK_SIZE
      modifies ctr
      ensures ctr[..] == Increment(old(ctr[..]))
    {
      hide Increment, Zeros;
      ghost var c := ctr[..];
      var i := 0;
      CarryStart(c);
      while i < ctr.Length
        invariant 0 <= i <= ctr.Length
        invariant ctr[..i] == Zeros(i) && ctr[i..] == c[i..]
        invariant Increment(c) == Zeros(i) + Increment(c[i..])
      {
        RestOf(c, i);
        RestOf(ctr[..], i);
        Carried(Increment(c), Zeros(i), c[i..], c[i + 1..]);
        MoreZeros(i);
        if ctr[i] != 0xFF {
          ghost var before := ctr[..];
          ctr[i] := ctr[i] + 1;
          assert ctr[..] == before[i := c[i] + 1];
          Patch(before, i, c[i] + 1);
          assert before[..i] == ctr[..i] && before[i + 1..] == c[i + 1..];
          return;
        }
        ghost var before := ctr[..i];
        ctr[i] := 0;
        assert ctr[..i + 1] == before + [0];
        i := i + 1;
      }
      assert c[i..] == [] && ctr[..] == ctr[..i];
      CarryStart([]);
      Whole(Zeros(i));
    }

    /** Moves what is left to the front and generates blocks behind it. */
    method Refill()
      requires Valid()
      modifies this`len, this`used, this`blocks, ctr, out
      ensures Valid() && Position() == old(Position()) && used < len
    {
      hide KeyByte, Counter, Increment;
      var remain := len - used;
      if remain > used {
        return;
      }
      ghost var at := Position();
      var k := 0;
      while k < remain
        invariant 0 <= k <= remain
        invariant ctr[..] == Counter(blocks) && used == old(used) && len == old(len) && blocks == old(blocks)
        invariant forall j :: 0 <= j < k ==> out[j] == KeyByte(e, at + j)
        invariant forall j :: used <= j < len ==> out[j] == KeyByte(e, at - used + j)
      {
        assert out[used + k] == KeyByte(e, at + k);
        out[k] := out[used + k];
        k := k + 1;
      }
      while remain < BUFFER_SIZE - BLOCK_SIZE
        invariant remain <= BUFFER_SIZE && at + remain == BLOCK_SIZE * blocks
        invariant ctr[..] == Counter(blocks)
        invariant forall j :: 0 <= j < remain ==> out[j] == KeyByte(e, at + j)
      {
        EncryptBlock(remain, at);
        IncrementCounter();
        NextCounter(blocks);
        blocks := blocks + 1;
        remain := remain + BLOCK_SIZE;
      }
      len := remain;
      used := 0;
    }

    /** The block cipher's `Encrypt(out[i:], ctr)`. */
    method EncryptBlock(i: nat, ghost at: nat)
      requires ctr != out && ctr.Length == BLOCK_SIZE && out.Length == BUFFER_SIZE && i + BLOCK_SIZE <= BUFFER_SIZE
      requires at + i == BLOCK_SIZE * blocks && ctr[..] == Counter(blocks)
      modifies out
      ensures forall j :: 0 <= j < i ==> out[j] == old(out[j])
      ensures forall j :: i <= j < i + BLOCK_SIZE ==> out[j] == KeyByte(e, at + j)
    {
      hide Counter;
      var b := e(ctr[..]);
      var k := 0;
      while k < BLOCK_SIZE
        invariant 0 <= k <= BLOCK_SIZE
        invariant forall j :: 0 <= j < i ==> out[j] == old(out[j])
        invariant forall j :: i <= j < i + k ==> out[j] == b[j - i]
      {
        out[i + k] := b[k];
        k := k + 1;
      }
      forall j | i <= j < i + BLOCK_SIZE ensures out[j] == KeyByte(e, at + j) {
        assert at + j == BLOCK_SIZE * blocks + (j - i);
        assert (at + j) / BLOCK_SIZE == blocks && (at + j) % BLOCK_SIZE == j - i;
      }
    }

    /** Any number of calls with pieces of any length run the one simple
        cipher along the stream; `dst` and `src` may be the same array. */
    method XorKeyStream(dst: array<byte>, src: array<byte>, n: nat)
      requires Valid() && n <= src.Length && n <= dst.Length
      requires dst != ctr && dst != out && src != ctr && src != out
      modifies this`len, this`used, this`blocks, ctr, out, dst
      ensures Valid() && Position() == old(Position()) + n
      ensures dst[..n] == CtrXor(e, old(Position()), old(src[..n]))
      ensures dst[n..] == old(dst[n..])
    {
      hide KeyByte, Counter, Xor;
      ghost var s, at := src[..n], Position();
      var i := 0;
      while i < n
        invariant 0 <= i <= n && Valid() && Position() == at + i
        invariant forall j :: 0 <= j < i ==> dst[j] == Xor(s[j], KeyByte(e, at + j))
        invariant forall j :: i <= j < n ==> src[j] == s[j]
        invariant dst[n..] == old(dst[n..])
      {
        if used >= len - BLOCK_SIZE {
          Refill();
        }
        var m := if n - i < len - used then n - i else len - used;
        XorBytes(dst, src, i, m, s, at);
        used := used + m;
        i := i + m;
      }
    }

    /** One call, into a buffer of its own. */
    method XorPiece(p: bytes) returns (q: bytes)
      requires Valid()
      modifies this, ctr, out
      ensures Valid() && Position() == old(Position()) + |p|
      ensures q == CtrXor(e, old(Position()), p)
    {
      hide CtrXor, KeyByte;
      var buf := new byte[|p|](i requires 0 <= i < |p| => p[i]);
      assert buf[..|p|] == buf[..] == p;
      XorKeyStream(buf, buf, |p|);
      q := buf[..];
      assert q == buf[..|p|];
    }

    /** `subtle.XORBytes` on the next `m` bytes. */
    method XorBytes(dst: array<byte>, src: array<byte>, i: nat, m: nat, ghost s: bytes, ghost at: nat)
      requires Valid() && used + m <= len && Position() == at + i
      requires dst != ctr && dst != out && src != ctr && src != out
      requires i + m <= |s| <= src.Length && |s| <= dst.Length
      requires forall j :: i <= j < |s| ==> src[j] == s[j]
      modifies dst
      ensures forall j :: 0 <= j < i ==> dst[j] == old(dst[j])
      ensures forall j :: i <= j < i + m ==> dst[j] == Xor(s[j], KeyByte(e, at + j))
      ensures forall j :: i + m <= j < |s| ==> src[j] == s[j]
      ensures dst[|s|..] == old(dst[|s|..])
    {
      hide KeyByte, Counter, Xor;
      var k := 0;
      while k < m
        invariant 0 <= k <= m
        invariant forall j :: 0 <= j < i ==> dst[j] == old(dst[j])
        invariant forall j :: i <= j < i + k ==> dst[j] == Xor(s[j], KeyByte(e, at + j))
        invariant forall j :: i + k <= j < |s| ==> src[j] == s[j]
        invariant dst[|s|..] == old(dst[|s|..])
      {
        assert out[used + k] == KeyByte(e, at + (i + k));
        dst[i + k] := Xor(src[i + k], out[used + k]);
        k := k + 1;
      }
    }
  }

  lemma CarryStart(c: bytes)
    ensures c[0..] == c && Increment(c) == Zeros(0) + Increment(c) && Increment([]) == []
  {
  }

  /** One position of the carry chain. */
  lemma Carried(sum: bytes, low: bytes, rest: bytes, tail: bytes)
    requires rest != [] && tail == rest[1..] && sum == low + Increment(rest)
    ensures rest[0] == 0xFF ==> sum == low + [0] + Increment(tail)
    ensures rest[0] != 0xFF ==> sum == low + ([rest[0] + 1] + tail)
  {
    hide Increment;
    IncrementOnce(rest);
  }

  lemma RestOf(c: bytes, i: nat)
    requires i < |c|
    ensures c[i..][0] == c[i] && c[i..][1..] == c[i + 1..]
  {
  }

  lemma IncrementOnce(c: bytes)
    requires c != []
    ensures Increment(c) == if c[0] == 0xFF then [0] + Increment(c[1..]) else [c[0] + 1] + c[1..]
  {
  }

  lemma MoreZeros(i: nat)
    ensures Zeros(i + 1) == Zeros(i) + [0]
  {
  }

  lemma Patch(c: bytes, i: nat, v: byte)
    requires i < |c|
    ensures c[i := v] == c[..i] + ([v] + c[i + 1..])
  {
  }

  lemma FirstCounter(c: bytes)
    requires |c| == BLOCK_SIZE && c[0] == 1 && forall i :: 0 < i < BLOCK_SIZE ==> c[i] == 0
    ensures c == Counter(0)
  {
    ZeroLowBytes(BLOCK_SIZE - 1);
    assert LowBytes(1, BLOCK_SIZE) == [1] + LowBytes(0, BLOCK_SIZE - 1);
  }

  lemma {:induction false} ZeroLowBytes(w: nat)
    ensures LowBytes(0, w) == Zeros(w)
  {
    if w != 0 {
      ZeroLowBytes(w - 1);
    }
  }

  lemma NextCounter(k: nat)
    ensures Increment(Counter(k)) == Counter(k + 1)
  {
    hide LowBytes, Increment;
    IncrementLowBytes(k + 1, BLOCK_SIZE);
  }
}
