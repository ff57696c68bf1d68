/** The traditional PKWARE cipher: three keys that evolve with every plaintext byte. */
module ZipCrypto {
  import opened Bytes
  import opened Header
  import opened Streams

  // ---------------------------------------------------------------- keys

  datatype Keys = Keys(k0: bv32, k1: uint32, k2: bv32)

  /** One bit of the reflected CRC-32 polynomial. */
  function CrcBit(c: bv32): bv32 {
    if c & 1 == 1 then (c >> 1) ^ 0xedb8_8320 else c >> 1
  }

  function CrcTable(i: bv32): bv32 {
    CrcBit(CrcBit(CrcBit(CrcBit(CrcBit(CrcBit(CrcBit(CrcBit(i))))))))
  }

  function Wide(b: byte): bv32 {
    b as bv8 as bv32
  }

  /** The register when a byte has been added to it. */
  function Added(crc: bv32, b: byte): bv32 {
    crc ^ Wide(b)
  }

  function Crc32Update(crc: bv32, b: byte): bv32 {
    CrcTable(Added(crc, b) & 0xff) ^ (crc >> 8)
  }

  function LowByte(v: bv32): byte {
    (v & 0xff) as bv8 as byte
  }

  function UpdateKeys(k: Keys, b: byte): Keys {
    var k0 := Crc32Update(k.k0, b);
    var k1 := ((k.k1 + LowByte(k0) as int) % TWO32 * 134775813 + 1) % TWO32;
    Keys(k0, k1, Crc32Update(k.k2, (k1 / 0x100_0000) as byte))
  }

  /** The key stream byte. */
  function MagicByte(k: Keys): byte {
    var t := k.k2 | 2;
    (((t * (t ^ 1)) >> 8) & 0xff) as bv8 as byte
  }

  function KeysAfter(k: Keys, plain: bytes): Keys
    decreases |plain|
  {
    if plain == [] then k else KeysAfter(UpdateKeys(k, plain[0]), plain[1..])
  }

  const START := Keys(0x12345678, 0x23456789, 0x34567890)

  function InitKeys(password: bytes): Keys {
    KeysAfter(START, password)
  }

  // ---------------------------------------------------------------- the cipher

  function Encrypted(k: Keys, plain: bytes): (c: bytes)
    ensures |c| == |plain|
    decreases |plain|
  {
    hide UpdateKeys, MagicByte, Xor;
    if plain == [] then [] else [Xor(plain[0], MagicByte(k))] + Encrypted(UpdateKeys(k, plain[0]), plain[1..])
  }

  /** Decryption feeds the keys with what it has just recovered. */
  function Decrypted(k: Keys, cipher: bytes): (p: bytes)
    ensures |p| == |cipher|
    decreases |cipher|
  {
    hide UpdateKeys, MagicByte, Xor;
    if cipher == [] then [] else
      var v := Xor(cipher[0], MagicByte(k));
      [v] + Decrypted(UpdateKeys(k, v), cipher[1..])
  }

  /** Decryption undoes encryption. */
  lemma {:induction false} DecryptEncrypt(k: Keys, plain: bytes)
    ensures Decrypted(k, Encrypted(k, plain)) == plain
    decreases |plain|
  {
    hide Xor, MagicByte, UpdateKeys;
    if plain != [] {
      XorTwice(plain[0], MagicByte(k));
      var rest := Encrypted(UpdateKeys(k, plain[0]), plain[1..]);
      assert Encrypted(k, plain)[1..] == rest;
      DecryptEncrypt(UpdateKeys(k, plain[0]), plain[1..]);
    }
  }

  lemma {:induction false} EncryptDecrypt(k: Keys, cipher: bytes)
    ensures Encrypted(k, Decrypted(k, cipher)) == cipher
    decreases |cipher|
  {
    hide Xor, MagicByte, UpdateKeys;
    if cipher != [] {
      var v := Xor(cipher[0], MagicByte(k));
      XorTwice(cipher[0], MagicByte(k));
      assert Decrypted(k, cipher)[1..] == Decrypted(UpdateKeys(k, v), cipher[1..]);
      EncryptDecrypt(UpdateKeys(k, v), cipher[1..]);
    }
  }

  lemma {:induction false} KeysAppend(k: Keys, a: bytes, b: bytes)
    ensures KeysAfter(k, a + b) == KeysAfter(KeysAfter(k, a), b)
    decreases |a|
  {
    hide UpdateKeys;
    if a == [] {
      Whole(b);
    } else {
      assert (a + b)[1..] == a[1..] + b;
      KeysAppend(UpdateKeys(k, a[0]), a[1..], b);
    }
  }

  /** Encrypting in pieces, keys carried along, is encrypting at once. */
  lemma {:induction false} EncryptAppend(k: Keys, a: bytes, b: bytes)
    ensures Encrypted(k, a + b) == Encrypted(k, a) + Encrypted(KeysAfter(k, a), b)
    decreases |a|
  {
    hide Xor, MagicByte, UpdateKeys;
    if a == [] {
      Whole(b);
      Whole(Encrypted(k, b));
    } else {
      assert (a + b)[1..] == a[1..] + b;
      EncryptAppend(UpdateKeys(k, a[0]), a[1..], b);
    }
  }

  lemma {:induction false} DecryptAppend(k: Keys, a: bytes, b: bytes)
    ensures Decrypted(k, a + b) == Decrypted(k, a) + Decrypted(KeysAfter(k, Decrypted(k, a)), b)
    decreases |a|
  {
    hide Xor, MagicByte, UpdateKeys;
    if a == [] {
      Whole(b);
      Whole(Decrypted(k, b));
    } else {
      assert (a + b)[1..] == a[1..] + b;
      var v := Xor(a[0], MagicByte(k));
      assert Decrypted(k, a)[1..] == Decrypted(UpdateKeys(k, v), a[1..]);
      DecryptAppend(UpdateKeys(k, v), a[1..], b);
    }
  }

  /** Writer and reader have the same keys after every byte. */
  lemma KeysAgree(k: Keys, plain: bytes, i: nat)
    requires i <= |plain|
    ensures var seen := Decrypted(k, Encrypted(k, plain)[..i]);
            seen == plain[..i] && KeysAfter(k, seen) == KeysAfter(k, plain[..i])
  {
    hide Encrypted, Decrypted, KeysAfter;
    SplitAtEnd(plain, i);
    EncryptAppend(k, plain[..i], plain[i..]);
    Cut(Encrypted(k, plain[..i]), Encrypted(KeysAfter(k, plain[..i]), plain[i..]));
    DecryptEncrypt(k, plain[..i]);
  }

  lemma SplitAtEnd<T>(s: seq<T>, i: nat)
    requires i <= |s|
    ensures s == s[..i] + s[i..]
  {
  }

  lemma OneByte(k: Keys, x: byte)
    ensures Encrypted(k, [x]) == [Xor(x, MagicByte(k))] && KeysAfter(k, [x]) == UpdateKeys(k, x)
    ensures Decrypted(k, [x]) == [Xor(x, MagicByte(k))]
  {
    hide Xor, MagicByte, UpdateKeys;
  }

  // ---------------------------------------------------------------- the engine

  class Engine {
    var keys: Keys

    constructor (password: bytes)
      ensures keys == InitKeys(password)
    {
      keys := START;
      new;
      var i := 0;
      while i < |password|
        invariant 0 <= i <= |password| && keys == KeysAfter(START, password[..i])
      {
        Snoc(password, i);
        KeysAppend(START, password[..i], [password[i]]);
        keys := UpdateKeys(keys, password[i]);
        i := i + 1;
      }
      Whole(password);
    }

    /** `dst` and `src` may be the same array: in place and out of place give the same result. */
    method EncryptTo(dst: array<byte>, src: array<byte>, n: nat)
      requires n <= src.Length && n <= dst.Length
      modifies this, dst
      ensures dst[..n] == Encrypted(old(keys), old(src[..n]))
      ensures keys == KeysAfter(old(keys), old(src[..n]))
      ensures dst[n..] == old(dst[n..])
    {
      hide Encrypted, KeysAfter, Xor, MagicByte, UpdateKeys;
      ghost var k, s := keys, src[..n];
      var i := 0;
      Empty(k);
      while i < n
        invariant 0 <= i <= n
        invariant dst[..i] == Encrypted(k, s[..i]) && keys == KeysAfter(k, s[..i])
        invariant src[i..n] == s[i..]
        invariant dst[n..] == old(dst[n..])
      {
        var v := src[i];
        assert v == s[i] by { assert src[i..n][0] == s[i..][0]; }
        StepCipher(k, s, i);
        assert src[i + 1..n] == s[i + 1..] by { assert src[i..n][1..] == s[i..][1..]; }
        dst[i] := Xor(v, MagicByte(keys));
        keys := UpdateKeys(keys, v);
        assert dst[..i + 1] == dst[..i] + [dst[i]];
        i := i + 1;
      }
      Whole(s);
    }

    method DecryptTo(dst: array<byte>, src: array<byte>, n: nat)
      requires n <= src.Length && n <= dst.Length
      modifies this, dst
      ensures dst[..n] == Decrypted(old(keys), old(src[..n]))
      ensures keys == KeysAfter(old(keys), Decrypted(old(keys), old(src[..n])))
      ensures dst[n..] == old(dst[n..])
    {
      hide Decrypted, Encrypted, KeysAfter, Xor, MagicByte, UpdateKeys;
      ghost var k, s := keys, src[..n];
      var i := 0;
      Empty(k);
      while i < n
        invariant 0 <= i <= n
        invariant dst[..i] == Decrypted(k, s[..i]) && keys == KeysAfter(k, Decrypted(k, s[..i]))
        invariant src[i..n] == s[i..]
        invariant dst[n..] == old(dst[n..])
      {
        var c := src[i];
        assert c == s[i] by { assert src[i..n][0] == s[i..][0]; }
        StepDecipher(k, s, i);
        assert src[i + 1..n] == s[i + 1..] by { assert src[i..n][1..] == s[i..][1..]; }
        var v := Xor(c, MagicByte(keys));
        keys := UpdateKeys(keys, v);
        dst[i] := v;
        assert dst[..i + 1] == dst[..i] + [dst[i]];
        i := i + 1;
      }
      Whole(s);
    }
  }

  lemma Empty(k: Keys)
    ensures Encrypted(k, []) == [] && Decrypted(k, []) == [] && KeysAfter(k, []) == k
  {
  }

  lemma Snoc<T>(s: seq<T>, i: nat)
    requires i < |s|
    ensures s[..i + 1] == s[..i] + [s[i]]
  {
  }

  lemma StepCipher(k: Keys, s: bytes, i: nat)
    requires i < |s|
    ensures var here := KeysAfter(k, s[..i]);
            && Encrypted(k, s[..i + 1]) == Encrypted(k, s[..i]) + [Xor(s[i], MagicByte(here))]
            && KeysAfter(k, s[..i + 1]) == UpdateKeys(here, s[i])
  {
    hide Xor, MagicByte, UpdateKeys, Encrypted, KeysAfter;
    Snoc(s, i);
    EncryptAppend(k, s[..i], [s[i]]);
    KeysAppend(k, s[..i], [s[i]]);
    OneByte(KeysAfter(k, s[..i]), s[i]);
  }

  lemma StepDecipher(k: Keys, s: bytes, i: nat)
    requires i < |s|
    ensures var here := KeysAfter(k, Decrypted(k, s[..i]));
            var v := Xor(s[i], MagicByte(here));
            && Decrypted(k, s[..i + 1]) == Decrypted(k, s[..i]) + [v]
            && KeysAfter(k, Decrypted(k, s[..i + 1])) == UpdateKeys(here, v)
  {
    hide Xor, MagicByte, UpdateKeys, Encrypted, Decrypted, KeysAfter;
    var here := KeysAfter(k, Decrypted(k, s[..i]));
    var v := Xor(s[i], MagicByte(here));
    Snoc(s, i);
    DecryptAppend(k, s[..i], [s[i]]);
    OneByte(here, s[i]);
    KeysAppend(k, Decrypted(k, s[..i]), [v]);
    OneByte(here, v);
  }

  // ---------------------------------------------------------------- the encryption header

  const HEADER_LEN := 12
  const CHUNK_SIZE := 32 * 1024

  /** The two password check bytes: from the time when a descriptor follows, else from the checksum. */
  function CheckBytes(flags: uint16, modTime: uint16, crc: uint32): (r: (byte, byte))
    ensures r.0 as int + 0x100 * r.1 as int == if flags % 16 >= 8 then modTime as int else crc as int / 0x1_0000
  {
    if flags % 16 >= 8 then (modTime % 0x100, modTime / 0x100)
    else (crc / 0x1_0000 % 0x100, crc / 0x100_0000)
  }

  function Draw(rnd: nat -> byte, n: nat): (r: bytes)
    ensures |r| == n
  {
    seq(n, i requires 0 <= i < n => rnd(i))
  }

  /** Ten random bytes and the check bytes. */
  function EncHeader(rnd: nat -> byte, h: FileHeader): (r: bytes)
    ensures |r| == HEADER_LEN
  {
    var (lo, hi) := CheckBytes(h.flags, h.modTime, h.crc);
    Draw(rnd, HEADER_LEN - 2) + [lo, hi]
  }

  /** The encrypted payload: header and data under one key stream. */
  function ZipPayload(password: bytes, header: bytes, data: bytes): bytes {
    Encrypted(InitKeys(password), header + data)
  }

  /** What a reader makes of a payload. */
  function ZipOpen(password: bytes, check: byte, verify: bool, payload: bytes): Result<bytes> {
    if |payload| < HEADER_LEN then Err(UnexpectedEof) else
    var plain := Decrypted(InitKeys(password), payload);
    if verify && plain[HEADER_LEN - 1] != check then Err(ErrPassword) else Ok(plain[HEADER_LEN..])
  }

  /** A reader with the right password recovers the data if the last byte of
      the header is the one it expects, and refuses the password otherwise. */
  lemma OpenPayload(password: bytes, header: bytes, data: bytes, check: byte)
    requires |header| == HEADER_LEN
    ensures ZipOpen(password, check, true, ZipPayload(password, header, data))
            == if header[HEADER_LEN - 1] == check then Ok(data) else Err(ErrPassword)
    ensures ZipOpen(password, check, false, ZipPayload(password, header, data)) == Ok(data)
  {
    hide Encrypted, Decrypted, InitKeys;
    DecryptEncrypt(InitKeys(password), header + data);
    Cut(header, data);
  }

  /** Byte by byte: each is XORed with the key stream byte of the state that the
      bytes before it, in the clear, have left. */
  lemma EncryptedAt(k: Keys, plain: bytes, i: nat)
    requires i < |plain|
    ensures Encrypted(k, plain)[i] == Xor(plain[i], MagicByte(KeysAfter(k, plain[..i])))
  {
    hide Encrypted, KeysAfter, Xor, MagicByte, UpdateKeys;
    SplitAtEnd(plain, i + 1);
    EncryptAppend(k, plain[..i + 1], plain[i + 1..]);
    StepCipher(k, plain, i);
  }

  /** The encryption header: ten drawn bytes and the two check bytes. */
  lemma HeaderBytes(rnd: nat -> byte, h: FileHeader)
    ensures var b := EncHeader(rnd, h);
            && |b| == 12 && (forall i :: 0 <= i < 10 ==> b[i] == rnd(i))
            && b[10] as int + 0x100 * b[11] as int == if h.flags % 16 >= 8 then h.modTime else h.crc / 0x1_0000
  {
    hide CheckBytes;
  }

  /** The writer's header carries the check byte that the reader derives from
      the same flags and time; with a descriptor the checksum does not matter. */
  lemma OpenWritten(password: bytes, rnd: nat -> byte, h: FileHeader, final: FileHeader, data: bytes)
    requires h.flags == final.flags && h.modTime == final.modTime
    requires h.flags % 16 >= 8 || h.crc == final.crc
    ensures ZipOpen(password, CheckBytes(final.flags, final.modTime, final.crc).1, true,
                    ZipPayload(password, EncHeader(rnd, h), data)) == Ok(data)
  {
    OpenPayload(password, EncHeader(rnd, h), data, CheckBytes(final.flags, final.modTime, final.crc).1);
  }

  // ---------------------------------------------------------------- the writer

  lemma NothingYet(password: bytes)
    ensures ZipPayload(password, [], []) == []
    ensures KeysAfter(InitKeys(password), [] + []) == InitKeys(password)
  {
    hide InitKeys;
    var nothing: bytes := [];
    assert nothing + nothing == nothing;
    Empty(InitKeys(password));
  }

  /** `zipCryptoWriter`: the header goes out with the first write, or with Close if there is none. */
  class Writer {
    const w: PartCounter
    const z: Engine
    const cell: HeaderCell
    const rnd: nat -> byte
    const password: bytes
    var first: bool
    ghost var header: bytes // the header that was sent
    ghost var sent: bytes   // the data written so far

    ghost predicate Valid()
      reads this, z
    {
      && z.keys == KeysAfter(InitKeys(password), header + sent)
      && (first ==> header == [] && sent == [])
      && (!first ==> |header| == HEADER_LEN)
    }

    /** The bytes put out so far. */
    ghost function Emitted(): bytes
      reads this
    {
      ZipPayload(password, header, sent)
    }

    constructor (w: PartCounter, password: bytes, cell: HeaderCell, rnd: nat -> byte)
      ensures Valid() && first && sent == [] && Emitted() == []
      ensures this.w == w && this.cell == cell && this.rnd == rnd && this.password == password && fresh(z)
    {
      hide Encrypted, KeysAfter, InitKeys, ZipPayload, UpdateKeys;
      this.w, this.cell, this.rnd, this.password := w, cell, rnd, password;
      z := new Engine(password);
      first, header, sent := true, [], [];
      new;
      NothingYet(password);
    }

    method WriteHeader() returns (ghost delta: bytes)
      requires Valid()
      modifies this`first, this`header, z, w, w.w
      ensures Valid() && !first && sent == old(sent)
      ensures header == if old(first) then EncHeader(rnd, cell.fh) else old(header)
      ensures Emitted() == old(Emitted()) + delta
      ensures w.w.data == old(w.w.data) + delta && w.w.count == old(w.w.count) + |delta| && w.count == old(w.count) + |delta|
    {
      hide Encrypted, KeysAfter, InitKeys, EncHeader;
      if !first {
        Whole(Emitted());
        Whole(w.w.data);
        return [];
      }
      first := false;
      var h := EncHeader(rnd, cell.fh);
      var buf := new byte[HEADER_LEN](i requires 0 <= i < HEADER_LEN => h[i]);
      assert buf[..HEADER_LEN] == buf[..] == h;
      z.EncryptTo(buf, buf, HEADER_LEN);
      w.Write(buf[..]);
      header := h;
      delta := buf[..];
      NothingYet(password);
      Whole(h);
      Whole(delta);
      Whole(old(w.w.data));
      assert buf[..HEADER_LEN] == buf[..];
    }

    method Write(p: bytes) returns (ghost delta: bytes)
      requires Valid()
      modifies this`first, this`header, this`sent, z, w, w.w
      ensures Valid() && !first && sent == old(sent) + p
      ensures header == if old(first) then EncHeader(rnd, cell.fh) else old(header)
      ensures Emitted() == old(Emitted()) + delta
      ensures w.w.data == old(w.w.data) + delta && w.w.count == old(w.w.count) + |delta| && w.count == old(w.count) + |delta|
    {
      hide Encrypted, KeysAfter, InitKeys, EncHeader;
      delta := WriteHeader();
      ghost var rest := p;
      var i := 0;
      Whole(sent);
      while i < |p|
        invariant 0 <= i <= |p| && Valid() && !first && sent == old(sent) + p[..i]
        invariant header == if old(first) then EncHeader(rnd, cell.fh) else old(header)
        invariant Emitted() == old(Emitted()) + delta
        invariant w.w.data == old(w.w.data) + delta && w.w.count == old(w.w.count) + |delta| && w.count == old(w.count) + |delta|
      {
        var chunk := if |p| - i < CHUNK_SIZE then |p| - i else CHUNK_SIZE;
        ghost var out := WriteChunk(p[i..i + chunk]);
        assert p[..i] + p[i..i + chunk] == p[..i + chunk];
        Assoc(old(sent), p[..i], p[i..i + chunk]);
        Assoc(old(Emitted()), delta, out);
        Assoc(old(w.w.data), delta, out);
        delta := delta + out;
        i := i + chunk;
      }
      Whole(p);
    }

    /** Encrypts into scratch space and passes the result on. */
    method WriteChunk(chunk: bytes) returns (ghost out: bytes)
      requires Valid() && !first
      modifies this`sent, z, w, w.w
      ensures Valid() && sent == old(sent) + chunk
      ensures Emitted() == old(Emitted()) + out
      ensures w.w.data == old(w.w.data) + out && w.w.count == old(w.w.count) + |out| && w.count == old(w.count) + |out|
    {
      hide Encrypted, KeysAfter, InitKeys;
      var src := new byte[|chunk|](i requires 0 <= i < |chunk| => chunk[i]);
      var dst := new byte[|chunk|](_ => 0);
      assert src[..|chunk|] == chunk;
      z.EncryptTo(dst, src, |chunk|);
      assert dst[..] == dst[..|chunk|];
      w.Write(dst[..]);
      out := dst[..];
      EncryptAppend(InitKeys(password), header + sent, chunk);
      KeysAppend(InitKeys(password), header + sent, chunk);
      Assoc(header, sent, chunk);
      sent := sent + chunk;
    }

    method Close() returns (ghost delta: bytes)
      requires Valid()
      modifies this`first, this`header, z, w, w.w
      ensures Valid() && !first && sent == old(sent)
      ensures header == if old(first) then EncHeader(rnd, cell.fh) else old(header)
      ensures Emitted() == old(Emitted()) + delta
      ensures w.w.data == old(w.w.data) + delta && w.w.count == old(w.w.count) + |delta| && w.count == old(w.count) + |delta|
    {
      delta := WriteHeader();
    }
  }
}
