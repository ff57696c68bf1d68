/** WinZip AES (AE-2): keys from password and salt, the payload layout, and authentication before use. */
module Aes {
  import opened Bytes
  import opened Header
  import opened Streams
  import opened Ctr

  const TAG_LEN := 10

  function KeyLen(strength: byte): nat {
    match strength
    case 1 => 16
    case 2 => 24
    case 3 => 32
    case _ => 0
  }

  /** Choosing an AES method gives the header a strength with a key of that
      length; any other choice leaves the strength, and nothing else changes. */
  lemma MethodHasKey(fh: FileHeader, enc: Encryption)
    ensures var g := WithEncryption(fh, enc);
            && g == fh.(encryption := enc, strength := g.strength)
            && match enc
               case Aes128 => KeyLen(g.strength) == 16
               case Aes192 => KeyLen(g.strength) == 24
               case Aes256 => KeyLen(g.strength) == 32
               case _ => g.strength == fh.strength
  {
  }

  /** Bytes `from..from+n` of the derived key material. */
  function Derived(lib: Lib, password: bytes, salt: bytes, from: nat, n: nat): (r: bytes)
    ensures |r| == n
  {
    var f: (bytes, bytes, nat) -> byte := lib.pbkdf2;
    seq(n, i requires 0 <= i < n => f(password, salt, from + i))
  }

  function EncKey(lib: Lib, password: bytes, salt: bytes, keyLen: nat): bytes {
    Derived(lib, password, salt, 0, keyLen)
  }

  function AuthKey(lib: Lib, password: bytes, salt: bytes, keyLen: nat): bytes {
    Derived(lib, password, salt, keyLen, keyLen)
  }

  /** The password verification value. */
  function Pwv(lib: Lib, password: bytes, salt: bytes, keyLen: nat): bytes {
    Derived(lib, password, salt, 2 * keyLen, 2)
  }

  function BlockFn(lib: Lib, key: bytes): Block -> Block {
    (b: Block) => lib.aesBlock(key, b)
  }

  function AuthTag(lib: Lib, key: bytes, cipher: bytes): (r: bytes)
    ensures |r| == TAG_LEN
  {
    lib.hmac(key, cipher)[..TAG_LEN]
  }

  /** Salt, verification value, ciphertext and tag: the whole payload of an entry. */
  function AesPayload(lib: Lib, password: bytes, salt: bytes, keyLen: nat, data: bytes): bytes {
    var cipher := CtrXor(BlockFn(lib, EncKey(lib, password, salt, keyLen)), 0, data);
    salt + Pwv(lib, password, salt, keyLen) + cipher + AuthTag(lib, AuthKey(lib, password, salt, keyLen), cipher)
  }

  // ---------------------------------------------------------------- writing

  class Hmac {
    const key: bytes
    var data: bytes

    constructor (key: bytes)
      ensures this.key == key && data == []
    {
      this.key, data := key, [];
    }

    method Write(p: bytes)
      modifies this
      ensures data == old(data) + p
    {
      data := data + p;
    }
  }

  /** `encryptionWriter` over a stream cipher over `authWriter`. */
  class EncryptionWriter {
    const salt: bytes
    const pwv: bytes
    const w: PartCounter
    const es: Stream
    const mac: Hmac
    var first: bool
    ghost var sent: bytes

    ghost predicate Valid()
      reads this, es, es.ctr, es.out, mac
    {
      && es.Valid() && es.Position() == |sent|
      && mac.data == CtrXor(es.e, 0, sent)
      && (first ==> sent == [])
    }

    /** The bytes put out so far; the tag is added when the file is closed. */
    ghost function Emitted(): bytes
      reads this
    {
      if first then [] else salt + pwv + CtrXor(es.e, 0, sent)
    }

    constructor (w: PartCounter, lib: Lib, password: bytes, salt: bytes, keyLen: nat)
      ensures Valid() && first && Emitted() == [] && sent == [] && this.w == w
      ensures this.salt == salt && pwv == Pwv(lib, password, salt, keyLen)
      ensures es.e == BlockFn(lib, EncKey(lib, password, salt, keyLen))
      ensures mac.key == AuthKey(lib, password, salt, keyLen)
      ensures fresh(es) && fresh(es.ctr) && fresh(es.out) && fresh(mac)
    {
      this.w, this.salt := w, salt;
      pwv := Pwv(lib, password, salt, keyLen);
      es := new Stream(BlockFn(lib, EncKey(lib, password, salt, keyLen)));
      mac := new Hmac(AuthKey(lib, password, salt, keyLen));
      first, sent := true, [];
    }

    method WriteSalt() returns (ghost delta: bytes)
      requires Valid()
      modifies this`first, w, w.w
      ensures Valid() && !first && sent == old(sent)
      ensures Emitted() == old(Emitted()) + delta
      ensures w.w.data == old(w.w.data) + delta && w.w.count == old(w.w.count) + |delta| && w.count == old(w.count) + |delta|
    {
      if first {
        ghost var d := w.w.data;
        w.Write(salt);
        w.Write(pwv);
        first := false;
        Assoc(d, salt, pwv);
        Whole(salt + pwv);
        assert CtrXor(es.e, 0, sent) == [];
        return salt + pwv;
      }
      Whole(w.w.data);
      Whole(Emitted());
      return [];
    }

    method Write(p: bytes) returns (ghost delta: bytes)
      requires Valid()
      modifies this`first, this`sent, es, es.ctr, es.out, mac, w, w.w
      ensures Valid() && !first && sent == old(sent) + p
      ensures Emitted() == old(Emitted()) + delta
      ensures w.w.data == old(w.w.data) + delta && w.w.count == old(w.w.count) + |delta| && w.count == old(w.count) + |delta|
    {
      hide CtrXor;
      ghost var d := w.w.data;
      ghost var head := WriteSalt();
      var c := es.XorPiece(p);
      mac.Write(c);
      w.Write(c);
      CtrAppend(es.e, 0, sent, p);
      Assoc(salt + pwv, CtrXor(es.e, 0, sent), c);
      Assoc(d, head, c);
      Assoc(old(Emitted()), head, c);
      sent := sent + p;
      return head + c;
    }

    method Close() returns (ghost delta: bytes)
      requires Valid()
      modifies this`first, w, w.w
      ensures Valid() && !first && sent == old(sent)
      ensures Emitted() == old(Emitted()) + delta
      ensures w.w.data == old(w.w.data) + delta && w.w.count == old(w.w.count) + |delta| && w.count == old(w.count) + |delta|
    {
      delta := WriteSalt();
    }
  }

  // ---------------------------------------------------------------- reading

  /** The pieces of a payload, once the password has been checked. */
  datatype Opened = Opened(encKey: bytes, authKey: bytes, cipher: bytes, tag: bytes)

  /** `newDecryptionReader` on the section of the file that holds the payload. */
  function OpenAes(lib: Lib, h: FileHeader, section: bytes): Result<Opened> {
    var keyLen := KeyLen(h.strength);
    var saltLen := keyLen / 2;
    if saltLen == 0 then Err(ErrDecryption)
    else if |section| < saltLen + 2 then Err(UnexpectedEof)
    else if h.password == None then Err(ErrPassword) else
    var salt, pwvv := section[..saltLen], section[saltLen..saltLen + 2];
    var password := h.password.value;
    if Pwv(lib, password, salt, keyLen) != pwvv then Err(ErrPassword) else
    var overhead := saltLen + 2 + TAG_LEN;
    if h.csize < overhead || h.csize - overhead >= TWO63 then Err(ErrFormat) else
    var dataLen := h.csize - overhead;
    Ok(Opened(EncKey(lib, password, salt, keyLen), AuthKey(lib, password, salt, keyLen),
              Section(section, saltLen + 2, dataLen), Section(section, saltLen + 2 + dataLen, TAG_LEN)))
  }

  predicate Authentic(lib: Lib, o: Opened) {
    |o.tag| == TAG_LEN && AuthTag(lib, o.authKey, o.cipher) == o.tag
  }

  /** Why the stored tag does not vouch for the data. */
  function AuthError(lib: Lib, o: Opened): Option<Error> {
    if |o.tag| != TAG_LEN then Some(ErrDecryption)
    else if AuthTag(lib, o.authKey, o.cipher) != o.tag then Some(ErrAuthentication)
    else None
  }

  /** Everything a reader of the entry gets, and how the stream ends. Without
      deferred authentication, nothing before the tag has been checked. */
  function AesStream(lib: Lib, o: Opened, deferAuth: bool): (bytes, Error) {
    var end := match AuthError(lib, o) case None => Eof case Some(e) => e;
    if end != Eof && !deferAuth then ([], end) else (CtrXor(BlockFn(lib, o.encKey), 0, o.cipher), end)
  }

  /** The reader recovers the data from the layout the writer produced. */
  lemma AesRoundTrip(lib: Lib, password: bytes, salt: bytes, h: FileHeader, data: bytes)
    requires KeyLen(h.strength) > 0 && |salt| == KeyLen(h.strength) / 2
    requires h.password == Some(password)
    requires h.csize == |AesPayload(lib, password, salt, KeyLen(h.strength), data)|
    requires h.csize < TWO63
    ensures var payload := AesPayload(lib, password, salt, KeyLen(h.strength), data);
            var o := OpenAes(lib, h, payload);
            o.Ok? && Authentic(lib, o.value) && AesStream(lib, o.value, h.deferAuth) == (data, Eof)
  {
    hide CtrXor, Derived, BlockFn;
    var keyLen := KeyLen(h.strength);
    var e := BlockFn(lib, EncKey(lib, password, salt, keyLen));
    var pwv, cipher := Pwv(lib, password, salt, keyLen), CtrXor(e, 0, data);
    var tag := AuthTag(lib, AuthKey(lib, password, salt, keyLen), cipher);
    FourParts(salt, pwv, cipher, tag);
    CtrInverse(e, 0, data);
  }

  lemma FourParts(a: bytes, b: bytes, c: bytes, d: bytes)
    ensures var s := a + b + c + d;
            && s[..|a|] == a && s[|a|..|a| + |b|] == b
            && Section(s, |a| + |b|, |c|) == c && Section(s, |a| + |b| + |c|, |d|) == d
  {
    var s := a + b + c + d;
    assert s[..|a|] == a && s[|a|..|a| + |b|] == b;
    assert s[|a| + |b|..|a| + |b| + |c|] == c;
    assert s[|a| + |b| + |c|..|s|] == d;
  }

  /** `bufferedAuthReader`: reads everything, checks the tag, and only then passes data on. */
  class BufferedAuthReader {
    const lib: Lib
    const key: bytes
    const data: Source
    const adata: Source
    var buf: bytes
    var auth: bool
    var err: Option<Error>
    ghost const o: Opened // what the two sources held at the start
    ghost var released: bytes

    /** Why nothing may be released: a source that fails, or a tag that does not match. */
    ghost function Failure(): Option<Error> {
      if data.last != Eof then Some(data.last) else if adata.last != Eof then Some(adata.last) else AuthError(lib, o)
    }

    ghost predicate Valid()
      reads this, data, adata
    {
      && data != adata && key == o.authKey
      && (!auth ==> released == [] && buf == [])
      && (!auth && err == None ==> data.rest == o.cipher && adata.rest == o.tag)
      && (!auth && err.Some? ==> err == Failure())
      && (auth ==> Failure() == None && released + buf == o.cipher)
      && (auth && err.Some? ==> err.value == Eof && buf == [])
    }

    constructor (lib: Lib, o: Opened, data: Source, adata: Source)
      requires data != adata && data.rest == o.cipher && adata.rest == o.tag
      ensures Valid() && released == [] && err == None && this.o == o && this.lib == lib
      ensures this.data == data && this.adata == adata
    {
      this.lib, key, this.data, this.adata := lib, o.authKey, data, adata;
      buf, auth, err := [], false, None;
      this.o, released := o, [];
    }

    method Read(n: nat) returns (p: bytes, e: Option<Error>)
      requires Valid()
      modifies this`buf, this`auth, this`err, this`released, data, adata
      ensures Valid() && |p| <= n && released == old(released) + p
      ensures p != [] ==> Authentic(lib, o) && Failure() == None
      ensures p != [] || e == Some(Eof) ==> o.tag == lib.hmac(o.authKey, o.cipher)[..TAG_LEN]
      ensures Failure().Some? ==> p == [] && e == Failure()
      ensures Failure() == None ==> (e == None || (e == Some(Eof) && released == o.cipher))
      ensures Failure() == None && n > 0 && e == None ==> p != []
    {
      if err.Some? {
        Whole(released);
        return [], err;
      }
      if !auth {
        Authenticate();
        if err.Some? {
          return [], err;
        }
      }
      if buf == [] && n > 0 {
        err := Some(Eof);
        Whole(released);
        return [], err;
      }
      var m := if n < |buf| then n else |buf|;
      p := buf[..m];
      Cut(released + p, buf[m..]);
      assert released + buf == released + p + buf[m..];
      buf := buf[m..];
      released := released + p;
      return p, None;
    }

    /** Reads all data and the code, and compares before anything is released. */
    method Authenticate()
      requires Valid() && !auth && err == None
      modifies this`buf, this`auth, this`err, data, adata
      ensures Valid()
      ensures if Failure() == None then auth && err == None else !auth && err == Failure()
    {
      hide AuthTag;
      var all, end := ReadAll(data);
      if end != Eof {
        err := Some(end);
        return;
      }
      var ab, aend := ReadAll(adata);
      if aend != Eof {
        err := Some(aend);
      } else if |ab| != TAG_LEN {
        err := Some(ErrDecryption);
      } else if AuthTag(lib, key, all) != ab {
        err := Some(ErrAuthentication);
      } else {
        buf, auth := all, true;
        Whole(buf);
      }
    }
  }

  /** `authReader`: passes data on as it comes, and reports at the end whether the tag matched. */
  class StreamingAuthReader {
    const lib: Lib
    const key: bytes
    const data: Source
    const adata: Source
    const mac: Hmac
    var err: Option<Error>
    ghost const o: Opened
    ghost var released: bytes

    /** How the stream ends: with the end of file, or with what failed. */
    ghost function Final(): Error {
      if data.last != Eof then data.last
      else if adata.last != Eof then ErrDecryption
      else match AuthError(lib, o) case None => Eof case Some(e) => e
    }

    ghost predicate Valid()
      reads this, data, adata, mac
    {
      && data != adata && key == o.authKey
      && mac.data == released && released + data.rest == o.cipher
      && (err == None ==> adata.rest == o.tag)
      && (err.Some? ==> released == o.cipher && err.value == Final())
    }

    constructor (lib: Lib, o: Opened, data: Source, adata: Source)
      requires data != adata && data.rest == o.cipher && adata.rest == o.tag
      ensures Valid() && released == [] && err == None && this.o == o && this.lib == lib && fresh(mac)
      ensures this.data == data && this.adata == adata
    {
      this.lib, key, this.data, this.adata := lib, o.authKey, data, adata;
      mac := new Hmac(o.authKey);
      err := None;
      this.o, released := o, [];
      new;
      Whole(o.cipher);
    }

    /** A run that ends with the end of file has seen a matching tag. */
    method Read(n: nat) returns (p: bytes, e: Option<Error>)
      requires Valid()
      modifies this`err, this`released, data, adata, mac
      ensures Valid() && |p| <= n && released == old(released) + p
      ensures e.Some? ==> released == o.cipher && e.value == Final()
      ensures e == Some(Eof) ==> Authentic(lib, o) && o.tag == lib.hmac(o.authKey, o.cipher)[..TAG_LEN]
      ensures n > 0 && e == None ==> |data.rest| + data.empties < old(|data.rest| + data.empties)
    {
      if err.Some? {
        Whole(released);
        return [], err;
      }
      var st;
      p, st := data.Read(n);
      mac.Write(p);
      Assoc(released, p, data.rest);
      released := released + p;
      if st.End? {
        Whole(released);
        if st.error != Eof {
          err := Some(st.error);
          return p, err;
        }
        var ab, aend := ReadAll(adata);
        if aend != Eof || |ab| != TAG_LEN {
          err := Some(ErrDecryption);
        } else if AuthTag(lib, key, mac.data) != ab {
          err := Some(ErrAuthentication);
        } else {
          err := Some(Eof);
        }
      }
      return p, err;
    }
  }
}
