/** AES entries in terms of the primitives alone: which bytes of the derived
    material are which, what the stored tag vouches for, and what is enciphered. */
module Authentication {
  import opened Bytes
  import opened Header
  import opened Streams
  import opened Directory
  import opened Ctr
  import opened Aes
  import opened Jobs
  import opened Opening
  import opened Deferred

  /** Key length in bytes: 128, 192 or 256 bits for strength 1, 2 or 3. */
  lemma KeyLengths(strength: byte)
    ensures KeyLen(strength) == if 1 <= strength <= 3 then 8 * (strength as int + 1) else 0
  {
  }

  /** The block that is enciphered for byte `i` of a stream: the number of the
      block, counted from 1, in 16 bytes, least significant first. */
  ghost predicate IsCounter(b: Block, i: nat) {
    Value(b) == i / BLOCK_SIZE + 1
  }

  lemma CounterOf(i: nat)
    requires i < TWO63
    ensures IsCounter(Counter(i / BLOCK_SIZE), i)
  {
    hide LowBytes, Value;
    assert Pow256(BLOCK_SIZE) > TWO63 by { Pow256Of16(); }
    ValueLowBytes(i / BLOCK_SIZE + 1, BLOCK_SIZE);
  }

  lemma Pow256Of16()
    ensures Pow256(BLOCK_SIZE) == TWO64 * TWO64
  {
    assert Pow256(8) == TWO64;
    assert Pow256(12) == TWO64 * TWO32;
  }

  /** The bytes of the derived material from `from` on. */
  ghost predicate Material(lib: Lib, password: bytes, salt: bytes, from: nat, key: bytes) {
    forall i :: 0 <= i < |key| ==> key[i] == lib.pbkdf2(password, salt, from + i)
  }

  /** One is the other, each byte XORed with its byte of the key stream. */
  ghost predicate Masked(lib: Lib, key: bytes, a: bytes, b: bytes) {
    |a| == |b| && forall i :: 0 <= i < |a| ==> b[i] == Xor(a[i], lib.aesBlock(key, Counter(i / BLOCK_SIZE))[i % BLOCK_SIZE])
  }

  lemma MaterialOf(lib: Lib, password: bytes, salt: bytes, from: nat, n: nat)
    ensures Material(lib, password, salt, from, Derived(lib, password, salt, from, n))
  {
  }

  lemma MaskedBy(lib: Lib, key: bytes, data: bytes)
    ensures Masked(lib, key, data, CtrXor(BlockFn(lib, key), 0, data))
  {
    hide Xor, Counter;
  }

  /** What deciphering an AES payload delivers. The two bytes behind the salt
      are those behind both keys; the stream ends well if and only if the
      stored ten bytes are the first ten of the code of the ciphertext under
      the second key; and unless authentication is deferred, no byte is
      delivered before that is known. */
  lemma OpenedStream(lib: Lib, h: FileHeader, section: bytes)
    requires h.IsEncrypted() && h.ae != 0 && RawStream(lib, h, section).Ok?
    ensures 1 <= h.strength <= 3 && h.password.Some?
    ensures var n, password := 8 * (h.strength as int + 1), h.password.value;
            var m := n / 2;
            && m + 12 <= h.csize && m + 2 <= |section|
            && var (salt, verifier) := (section[..m], section[m..m + 2]);
            && var (cipher, tag) := (Section(section, m + 2, h.csize - m - 12), Section(section, h.csize - 10, 10));
            && var (first, second) := (EncKey(lib, password, salt, n), AuthKey(lib, password, salt, n));
            && |first| == |second| == n
            && Material(lib, password, salt, 0, first) && Material(lib, password, salt, n, second)
            && Material(lib, password, salt, 2 * n, verifier)
            && var (s, end) := RawStream(lib, h, section).value;
            && (end == Eof <==> tag == lib.hmac(second, cipher)[..10])
            && (end != Eof ==> end == if |tag| < 10 then ErrDecryption else ErrAuthentication)
            && (end == Eof || h.deferAuth ==> Masked(lib, first, cipher, s))
            && (end != Eof && !h.deferAuth ==> s == [])
  {
    hide CtrXor, BlockFn, Masked, Material;
    KeyLengths(h.strength);
    var o := OpenAes(lib, h, section).value;
    var n := KeyLen(h.strength);
    var salt, password := section[..n / 2], h.password.value;
    MaterialOf(lib, password, salt, 0, n);
    MaterialOf(lib, password, salt, n, n);
    MaterialOf(lib, password, salt, 2 * n, 2);
    MaskedBy(lib, o.encKey, o.cipher);
  }

  /** Why an AES payload is refused before a byte of it is read: an unknown
      strength, no room for salt and verifier, no password or a wrong one, or a
      size that leaves no room for the tag; and nothing else. */
  lemma RefusedStream(lib: Lib, h: FileHeader, section: bytes)
    requires h.IsEncrypted() && h.ae != 0 && h.password.Some?
    ensures !(1 <= h.strength <= 3) ==> RawStream(lib, h, section) == Err(ErrDecryption)
    ensures 1 <= h.strength <= 3 ==>
      var m, password := 4 * (h.strength as int + 1), h.password.value;
      && (|section| < m + 2 ==> RawStream(lib, h, section) == Err(UnexpectedEof))
      && (|section| >= m + 2 ==>
            var right := Derived(lib, password, section[..m], 4 * m, 2) == section[m..m + 2];
            && (!right ==> RawStream(lib, h, section) == Err(ErrPassword))
            && (right ==> if m + 12 <= h.csize < m + 12 + TWO63 then RawStream(lib, h, section).Ok?
                          else RawStream(lib, h, section) == Err(ErrFormat)))
  {
    hide CtrXor, BlockFn, Derived, AuthTag;
    KeyLengths(h.strength);
  }

  /** The stored ten bytes are those of the code of the stored ciphertext. */
  ghost predicate Vouched(lib: Lib, h: FileHeader, section: bytes)
    requires 1 <= h.strength <= 3 && h.password.Some? && h.strength as int * 4 + 16 <= h.csize
    requires h.strength as int * 4 + 4 <= |section|
  {
    var m := 4 * (h.strength as int + 1);
    Section(section, h.csize - 10, 10)
      == lib.hmac(AuthKey(lib, h.password.value, section[..m], 2 * m), Section(section, m + 2, h.csize - m - 12))[..10]
  }

  /** Reading an AES entry. A stored one that ends well, or that delivers a byte
      without deferred authentication, is vouched for; of any other without
      deferred authentication, the decompressor sees nothing before. */
  lemma EntryIsVouched(lib: Lib, file: bytes, f: File)
    requires f.h.IsEncrypted() && f.h.ae != 0 && OpenFile(lib, file, f).Ok?
    ensures BodyOffset(file, f.headerOffset).Ok? && RawStream(lib, f.h, Body(file, f)).Ok?
    ensures 1 <= f.h.strength <= 3 && f.h.password.Some? && f.h.strength as int * 4 + 16 <= f.h.csize
    ensures f.h.strength as int * 4 + 6 <= |Body(file, f)|
    ensures var (data, end) := OpenFile(lib, file, f).value;
            var vouched := Vouched(lib, f.h, Body(file, f));
            && (f.h.compMethod == STORE && end == Eof ==> vouched)
            && (f.h.compMethod == STORE && !f.h.deferAuth && data != [] ==> vouched)
            && (!f.h.deferAuth && !vouched ==> data == Decompressed(lib, f.h.compMethod, [], false).0)
            && (f.h.ae == 2 && f.h.compMethod == STORE && vouched ==> end == Eof)
  {
    hide BodyOffset, RawStream, Verdict, Masked, Material, Body, AuthKey, EncKey;
    BodyIs(file, f);
    OpenedStream(lib, f.h, Body(file, f));
  }

  lemma BodyIs(file: bytes, f: File)
    ensures BodyOffset(file, f.headerOffset).Ok? ==>
      Body(file, f) == Section(file, f.headerOffset + BodyOffset(file, f.headerOffset).value, Int64(f.h.csize))
  {
    hide BodyOffset;
  }

  /** A ciphertext that was replaced in place, under the old tag, is refused
      unless its code happens to begin with the same ten bytes. */
  lemma ReplacedIsRefused(lib: Lib, h: FileHeader, salt: bytes, verifier: bytes, cipher: bytes, forged: bytes, tag: bytes)
    requires h.IsEncrypted() && h.ae != 0 && 1 <= h.strength <= 3 && h.password.Some?
    requires |salt| == 4 * (h.strength as int + 1) && |verifier| == 2 && |tag| == 10 && |forged| == |cipher|
    requires h.csize == |salt| + 12 + |cipher| && |cipher| < TWO63
    requires RawStream(lib, h, salt + verifier + cipher + tag).Ok?
    ensures var key := AuthKey(lib, h.password.value, salt, 2 * |salt|);
            var r := RawStream(lib, h, salt + verifier + forged + tag);
            && r.Ok?
            && (r.value.1 == if lib.hmac(key, forged)[..10] == tag then Eof else ErrAuthentication)
            && (lib.hmac(key, forged)[..10] != tag && !h.deferAuth ==> r.value.0 == [])
  {
    hide CtrXor, Derived, BlockFn, OpenAes, AesStream;
    OpensTo(lib, h, salt, verifier, cipher, tag);
    OpensTo(lib, h, salt, verifier, forged, tag);
    var o := OpenAes(lib, h, salt + verifier + forged + tag).value;
    StreamOfOpened(lib, o, h.deferAuth);
  }

  lemma StreamOfOpened(lib: Lib, o: Opened, deferAuth: bool)
    requires |o.tag| == 10
    ensures var r := AesStream(lib, o, deferAuth);
            && r.1 == (if lib.hmac(o.authKey, o.cipher)[..10] == o.tag then Eof else ErrAuthentication)
            && (r.1 != Eof && !deferAuth ==> r.0 == [])
  {
    hide CtrXor;
  }

  /** A complete section is taken apart into its four pieces. */
  lemma OpensTo(lib: Lib, h: FileHeader, salt: bytes, verifier: bytes, cipher: bytes, tag: bytes)
    requires 1 <= h.strength <= 3 && h.password.Some?
    requires |salt| == 4 * (h.strength as int + 1) && |verifier| == 2 && |tag| == 10
    requires h.csize == |salt| + 12 + |cipher| && |cipher| < TWO63
    ensures var (n, password) := (2 * |salt|, h.password.value);
            OpenAes(lib, h, salt + verifier + cipher + tag) ==
              if Pwv(lib, password, salt, n) != verifier then Err(ErrPassword)
              else Ok(Opened(EncKey(lib, password, salt, n), AuthKey(lib, password, salt, n), cipher, tag))
  {
    hide Derived;
    KeyLengths(h.strength);
    FourParts(salt, verifier, cipher, tag);
  }

  /** The layout of an AES payload: the drawn salt, the two bytes behind both
      keys, the stream under the first key, and the first ten bytes of the code
      of that ciphertext under the second. */
  ghost predicate AesLayout(lib: Lib, password: bytes, strength: byte, rnd: nat -> byte, stream: bytes, payload: bytes) {
    var n := 8 * (strength as int + 1);
    var m := n / 2;
    && |payload| == m + 12 + |stream|
    && var (salt, verifier) := (payload[..m], payload[m..m + 2]);
    && var (cipher, tag) := (payload[m + 2..|payload| - 10], payload[|payload| - 10..]);
    && var (first, second) := (EncKey(lib, password, salt, n), AuthKey(lib, password, salt, n));
    && (forall i :: 0 <= i < m ==> salt[i] == rnd(i))
    && |first| == |second| == n
    && Material(lib, password, salt, 0, first) && Material(lib, password, salt, n, second)
    && Material(lib, password, salt, 2 * n, verifier)
    && Masked(lib, first, stream, cipher)
    && tag == lib.hmac(second, cipher)[..10]
  }

  /** The writer emits that layout for every AES entry. */
  lemma WrittenAes(lib: Lib, job: Job)
    requires job.fh.WritesAes() && 1 <= job.fh.strength <= 3
    ensures AesLayout(lib, job.fh.password.value, job.fh.strength, job.rnd, StreamOf(lib, job), JobPayload(lib, job))
  {
    hide CtrXor, BlockFn, Masked, Material, StreamOf, Derived;
    KeyLengths(job.fh.strength);
    var h := Created(job.fh);
    var n, s, password := KeyLen(h.strength), StreamOf(lib, job), h.password.value;
    var salt := Salt(h, job.rnd);
    var cipher := CtrXor(BlockFn(lib, EncKey(lib, password, salt, n)), 0, s);
    FourPieces(salt, Pwv(lib, password, salt, n), cipher, AuthTag(lib, AuthKey(lib, password, salt, n), cipher));
    PayloadForms(lib, h, job.rnd, s);
    MaterialOf(lib, password, salt, 0, n);
    MaterialOf(lib, password, salt, n, n);
    MaterialOf(lib, password, salt, 2 * n, 2);
    MaskedBy(lib, EncKey(lib, password, salt, n), s);
  }

  lemma FourPieces(a: bytes, b: bytes, c: bytes, d: bytes)
    ensures var s := a + b + c + d;
            && s[..|a|] == a && s[|a|..|a| + |b|] == b && s[|a| + |b|..|s| - |d|] == c && s[|s| - |d|..] == d
  {
    var s := a + b + c + d;
    assert s[..|a|] == a && s[|a|..|a| + |b|] == b;
    assert s[|a| + |b|..|s| - |d|] == c;
    assert s[|s| - |d|..] == d;
  }
}
