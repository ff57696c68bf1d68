/** Deferred authentication: when a clean end of an AES entry vouches for what was read. */
module Deferred {
  import opened Bytes
  import opened Header
  import opened Streams
  import opened Directory
  import opened Ctr
  import opened Aes
  import opened Opening

  /** The bytes of the entry's payload in the file. */
  function Body(file: bytes, f: File): bytes
    requires BodyOffset(file, f.headerOffset).Ok?
  {
    Section(file, f.headerOffset + BodyOffset(file, f.headerOffset).value, Int64(f.h.csize))
  }

  /** What reading an AES-2 entry to its end gives: the decompressor works on
      the deciphered stream, and learns from its end whether the tag matched. */
  lemma EndOfAes2(lib: Lib, file: bytes, f: File)
    requires f.h.IsEncrypted() && f.h.ae == 2 && OpenFile(lib, file, f).Ok?
    ensures BodyOffset(file, f.headerOffset).Ok? && OpenAes(lib, f.h, Body(file, f)).Ok?
    ensures var (data, end) := OpenFile(lib, file, f).value;
            var o := OpenAes(lib, f.h, Body(file, f)).value;
            var ok := Authentic(lib, o);
            var stream := AesStream(lib, o, f.h.deferAuth).0;
            && (data, end == Eof) == Decompressed(lib, f.h.compMethod, stream, ok)
            && (!ok && !f.h.deferAuth ==> stream == [])
            && (f.h.compMethod == STORE ==> data == stream && (end == Eof <==> ok))
            && (end != Eof ==> end == if ok then ErrSource else if |o.tag| != 10 then ErrDecryption else ErrAuthentication)
  {
    hide BodyOffset, OpenAes, AuthTag, CtrXor;
  }

  /** The entry was opened with deferred authentication and ends well, although its tag does not match. */
  ghost predicate Unvouched(lib: Lib, file: bytes, f: File) {
    && f.h.IsEncrypted() && f.h.ae == 2 && f.h.deferAuth
    && OpenFile(lib, file, f).Ok? && OpenFile(lib, file, f).value.1 == Eof
    && BodyOffset(file, f.headerOffset).Ok? && OpenAes(lib, f.h, Body(file, f)).Ok?
    && !Authentic(lib, OpenAes(lib, f.h, Body(file, f)).value)
  }

  /** A clean end vouches for the data of every entry with the method if and
      only if the decompressor never reports the end of a stream whose end it
      has not been given. Store is such a method. */
  lemma CleanEndVouchesExactlyWhen(lib: Lib, compMethod: uint16)
    requires HasDecompressor(lib, compMethod)
    ensures (forall file, f: File :: f.h.compMethod == compMethod ==> !Unvouched(lib, file, f)) <==>
            (forall s: bytes :: |s| < TWO63 ==> !Decompressed(lib, compMethod, s, false).1)
    ensures compMethod == STORE ==> forall file, f: File :: f.h.compMethod == compMethod ==> !Unvouched(lib, file, f)
  {
    hide Unvouched, Decompressed, CtrXor;
    forall file, f: File | f.h.compMethod == compMethod && Unvouched(lib, file, f)
      ensures exists s: bytes :: |s| < TWO63 && Decompressed(lib, compMethod, s, false).1
    {
      UnvouchedStream(lib, file, f);
    }
    forall s: bytes | |s| < TWO63 && Decompressed(lib, compMethod, s, false).1
      ensures Unvouched(lib, ForgedFile(lib, s), ForgedEntry(compMethod, |s|))
    {
      ForgedIsUnvouched(lib, compMethod, s);
    }
    if compMethod == STORE {
      forall s: bytes ensures !Decompressed(lib, compMethod, s, false).1 {
        StoreEnds(lib, s);
      }
    }
  }

  lemma StoreEnds(lib: Lib, s: bytes)
    ensures !Decompressed(lib, STORE, s, false).1
  {
  }

  lemma UnvouchedStream(lib: Lib, file: bytes, f: File)
    requires Unvouched(lib, file, f)
    ensures var s := AesStream(lib, OpenAes(lib, f.h, Body(file, f)).value, true).0;
            |s| < TWO63 && Decompressed(lib, f.h.compMethod, s, false).1
  {
    hide BodyOffset, AuthTag, CtrXor, Derived, OpenFile, Decompressed, OpenAes;
    EndOfAes2(lib, file, f);
    CipherIsShort(lib, f.h, Body(file, f));
  }

  lemma CipherIsShort(lib: Lib, h: FileHeader, section: bytes)
    requires OpenAes(lib, h, section).Ok?
    ensures |OpenAes(lib, h, section).value.cipher| < TWO63
  {
    hide Derived;
  }

  // ---------------------------------------------------------------- a forged entry

  const SALT: bytes := Zeros(8)

  function ForgedKey(lib: Lib): Block -> Block {
    BlockFn(lib, EncKey(lib, [], SALT, 16))
  }

  /** A tag that differs from the right one in its first byte. */
  function WrongTag(tag: bytes): (t: bytes)
    requires |tag| == TAG_LEN
    ensures |t| == TAG_LEN && t != tag
  {
    var t := tag[0 := if tag[0] == 0 then 1 else 0];
    assert t[0] != tag[0];
    t
  }

  /** The stream `s`, enciphered under an empty password, with a wrong tag. */
  function ForgedBody(lib: Lib, s: bytes): bytes {
    var cipher := CtrXor(ForgedKey(lib), 0, s);
    SALT + Pwv(lib, [], SALT, 16) + cipher + WrongTag(AuthTag(lib, AuthKey(lib, [], SALT, 16), cipher))
  }

  /** Behind a local header without name and extra. */
  function ForgedFile(lib: Lib, s: bytes): bytes {
    P32(FILE_HEADER_SIGNATURE) + Zeros(26) + ForgedBody(lib, s)
  }

  function ForgedEntry(compMethod: uint16, n: nat): File
    requires n < TWO63
  {
    File(FileHeader([], 0, 0, 1, compMethod, 0, 0, 0, 0, 0, 0, n + 20, 0, [], 0, [], 0, true, NoEncryption, Some([]), 2, 1),
         0)
  }

  lemma ForgedIsUnvouched(lib: Lib, compMethod: uint16, s: bytes)
    requires HasDecompressor(lib, compMethod) && |s| < TWO63 && Decompressed(lib, compMethod, s, false).1
    ensures Unvouched(lib, ForgedFile(lib, s), ForgedEntry(compMethod, |s|))
  {
    hide BodyOffset, OpenAes, AesStream, Authentic, CtrXor, Decompressed, HasDecompressor, ForgedFile, ForgedBody;
    var (file, f) := (ForgedFile(lib, s), ForgedEntry(compMethod, |s|));
    ForgedBodyFound(lib, s);
    ForgedOpens(lib, compMethod, s);
    assert Body(file, f) == ForgedBody(lib, s);
    var o := OpenAes(lib, f.h, ForgedBody(lib, s)).value;
    NotVouched(lib, o, s);
  }

  lemma NotVouched(lib: Lib, o: Opened, s: bytes)
    requires !Authentic(lib, o)
    ensures AesStream(lib, o, true).1 != Eof
  {
    hide AuthTag, CtrXor;
  }

  lemma ForgedBodyFound(lib: Lib, s: bytes)
    ensures BodyOffset(ForgedFile(lib, s), 0) == Ok(FILE_HEADER_LEN)
    ensures forall n: int :: n == |ForgedBody(lib, s)| || n < 0 ==>
              Section(ForgedFile(lib, s), FILE_HEADER_LEN, n) == ForgedBody(lib, s)
    ensures |ForgedBody(lib, s)| == |s| + 20
  {
    hide ForgedBody, P32, U32, U16;
    var head, body := P32(FILE_HEADER_SIGNATURE) + Zeros(26), ForgedBody(lib, s);
    var file := ForgedFile(lib, s);
    BodyLength(lib, s);
    assert file[..30] == head && file[30..] == body;
    assert head[..4] == P32(FILE_HEADER_SIGNATURE);
    assert head[26..28] == Zeros(2) && head[28..30] == Zeros(2);
    ZeroIsZero();
    assert file[0..30] == head;
  }

  lemma ZeroIsZero()
    ensures U16(Zeros(2)) == 0 && U32(P32(FILE_HEADER_SIGNATURE)) == FILE_HEADER_SIGNATURE
  {
  }

  lemma BodyLength(lib: Lib, s: bytes)
    ensures |ForgedBody(lib, s)| == |s| + 20
  {
    hide CtrXor, AuthTag;
  }

  lemma ForgedOpens(lib: Lib, compMethod: uint16, s: bytes)
    requires |s| < TWO63
    ensures var o := OpenAes(lib, ForgedEntry(compMethod, |s|).h, ForgedBody(lib, s));
            o.Ok? && !Authentic(lib, o.value) && AesStream(lib, o.value, true).0 == s
  {
    hide CtrXor, Derived, AuthTag, BlockFn;
    var cipher := CtrXor(ForgedKey(lib), 0, s);
    var tag := WrongTag(AuthTag(lib, AuthKey(lib, [], SALT, 16), cipher));
    FourParts(SALT, Pwv(lib, [], SALT, 16), cipher, tag);
    CtrInverse(ForgedKey(lib), 0, s);
  }

  /** A library whose decompressor reports the end without looking at its input. */
  const HASTY: Lib := Lib(_ => 0, _ => 0, _ => false, _ => false, (_, _, _, _) => [], (_, _, _) => [],
                          _ => true, (_, _, _) => ([], true), (_, b) => b, (_, _) => Zeros(20), (_, _, _) => 0)

  /** With such a decompressor a deferred entry ends well although its tag is wrong. */
  lemma HastyIsUnvouched()
    ensures Unvouched(HASTY, ForgedFile(HASTY, []), ForgedEntry(DEFLATE, 0))
  {
    ForgedIsUnvouched(HASTY, DEFLATE, []);
  }
}
