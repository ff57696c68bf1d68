/** The entry metadata, the layout constants, and the library functions the archive code calls. */
module Header {
  import opened Bytes

  const FILE_HEADER_SIGNATURE: uint32 := 0x04034b50
  const DIRECTORY_HEADER_SIGNATURE: uint32 := 0x02014b50
  const DIRECTORY_END_SIGNATURE: uint32 := 0x06054b50
  const DIRECTORY64_LOC_SIGNATURE: uint32 := 0x07064b50
  const DIRECTORY64_END_SIGNATURE: uint32 := 0x06064b50
  const DATA_DESCRIPTOR_SIGNATURE: uint32 := 0x08074b50
  const FILE_HEADER_LEN := 30
  const DIRECTORY_HEADER_LEN := 46
  const DIRECTORY_END_LEN := 22
  const DATA_DESCRIPTOR_LEN := 16
  const DATA_DESCRIPTOR64_LEN := 24
  const DIRECTORY64_LOC_LEN := 20
  const DIRECTORY64_END_LEN := 56

  const ZIP_VERSION20: uint16 := 20
  const ZIP_VERSION45: uint16 := 45

  const STORE: uint16 := 0
  const DEFLATE: uint16 := 8
  const WINZIP_AES_METHOD: uint16 := 99

  const ZIP64_EXTRA_ID: uint16 := 0x0001
  const WINZIP_AES_EXTRA_ID: uint16 := 0x9901
  const XXH3_EXTRA_ID: uint16 := 0x7878

  datatype Encryption = NoEncryption | StandardEncryption | Aes128 | Aes192 | Aes256

  datatype FileHeader = FileHeader(
    name: bytes,
    creatorVersion: uint16,
    readerVersion: uint16,
    flags: uint16,
    compMethod: uint16,
    level: int,
    modTime: uint16,
    modDate: uint16,
    crc: uint32,
    csize32: uint32,
    usize32: uint32,
    csize: uint64,
    usize: uint64,
    extra: bytes,
    extAttrs: uint32,
    comment: bytes,
    xxh3: uint64,
    deferAuth: bool,
    encryption: Encryption,
    password: Option<bytes>,
    ae: uint16,
    strength: byte)
  {
    /** A size of 0xFFFFFFFF itself means "see zip64", so it needs zip64 too. */
    predicate IsZip64() {
      csize >= UINT32_MAX || usize >= UINT32_MAX
    }

    predicate IsEncrypted() {
      flags % 2 == 1
    }

    predicate HasDataDescriptor() {
      flags % 16 >= 8
    }

    predicate WritesAes() {
      password.Some? && encryption != StandardEncryption
    }

    /** What the fields written to a directory record carry: everything but the
        settings that only steer reading and writing. */
    function Wire(): FileHeader {
      this.(level := 0, deferAuth := false, encryption := NoEncryption, password := None, ae := 0, strength := 0)
    }
  }

  /** A Go `*FileHeader`: several components share and update one header. */
  class HeaderCell {
    var fh: FileHeader

    constructor (fh: FileHeader)
      ensures this.fh == fh
    {
      this.fh := fh;
    }

    method SetEncryptionMethod(enc: Encryption)
      modifies this
      ensures fh == WithEncryption(old(fh), enc) && fh.encryption == enc
    {
      fh := fh.(encryption := enc);
      match enc {
        case Aes128 => fh := fh.(strength := 1);
        case Aes192 => fh := fh.(strength := 2);
        case Aes256 => fh := fh.(strength := 3);
        case _ =>
      }
    }

    method SetPassword(password: bytes)
      modifies this
      ensures fh == WithPassword(old(fh), password)
      ensures fh.IsEncrypted()
    {
      if !fh.IsEncrypted() {
        fh := fh.(flags := fh.flags + 1);
      }
      fh := fh.(password := Some(password));
    }
  }

  function WithEncryption(fh: FileHeader, enc: Encryption): FileHeader {
    var s: byte := match enc
      case Aes128 => 1
      case Aes192 => 2
      case Aes256 => 3
      case _ => fh.strength;
    fh.(encryption := enc, strength := s)
  }

  function WithPassword(fh: FileHeader, password: bytes): FileHeader {
    fh.(flags := if fh.IsEncrypted() then fh.flags else fh.flags + 1, password := Some(password))
  }

  function ClearBit0(flags: uint16): uint16 {
    flags - flags % 2
  }

  function SetBit3(flags: uint16): (r: uint16)
    ensures r % 16 >= 8 && r % 2 == flags % 2
  {
    if flags % 16 >= 8 then flags else flags + 8
  }

  function KeepHighByte(v: uint16): uint16 {
    v - v % 0x100
  }

  /** Which bits of a 16-bit field each of these changes: bit 0, bit 3, the lower byte. */
  lemma BitsKept(v: uint16)
    ensures ClearBit0(v) % 2 == 0 && ClearBit0(v) / 2 == v / 2
    ensures SetBit3(v) % 16 >= 8 && SetBit3(v) % 8 == v % 8 && SetBit3(v) / 16 == v / 16
    ensures KeepHighByte(v) % 0x100 == 0 && KeepHighByte(v) / 0x100 == v / 0x100
  {
    hide SetBit3;
    Bit3Set(v);
    HighByteKept(v);
  }

  lemma Bit3Set(v: uint16)
    ensures SetBit3(v) % 16 >= 8 && SetBit3(v) % 8 == v % 8 && SetBit3(v) / 16 == v / 16
  {
    var q, r := v / 16, v % 16;
    Digits(q, r);
    if r < 8 {
      Digits(q, r + 8);
    }
  }

  lemma Digits(q: nat, r: nat)
    requires r < 16
    ensures (16 * q + r) / 16 == q && (16 * q + r) % 16 == r && (16 * q + r) % 8 == r % 8
  {
    Digit16(q, r);
    Digit8(2 * q, r);
  }

  lemma Digit16(q: nat, r: nat)
    requires r < 16
    ensures (16 * q + r) % 16 == r && (16 * q + r) / 16 == q
  {
  }

  lemma Digit8(n: nat, r: nat)
    ensures (8 * n + r) % 8 == r % 8
  {
    var p := r / 8;
    Remains(n + p, r % 8);
  }

  lemma Remains(n: nat, r: nat)
    requires r < 8
    ensures (8 * n + r) % 8 == r
  {
  }

  lemma HighByteKept(v: uint16)
    ensures KeepHighByte(v) % 0x100 == 0 && KeepHighByte(v) / 0x100 == v / 0x100
  {
  }

  /** Setting a password sets bit 0 of the flags and changes nothing else. */
  lemma PasswordSetsBit0(fh: FileHeader, password: bytes)
    ensures var g := WithPassword(fh, password);
            g.flags % 2 == 1 && g.flags / 2 == fh.flags / 2 && g == fh.(flags := g.flags, password := Some(password))
  {
  }

  // ---------------------------------------------------------------- library functions

  type Block = b: bytes | |b| == 16 witness Zeros(16)
  type Mac = b: bytes | |b| == 20 witness Zeros(20)

  /** Code outside the repository, as functions nothing is assumed about. A
      compressor maps its past writes and the next one to the bytes it emits
      now; `compClose` is what it emits when closed. A decompressor maps its
      input, and whether that input ended without an error, to the bytes it
      delivers and whether it then reports the end of the stream. */
  datatype Lib = Lib(
    crc32: bytes -> uint32,
    xxh3: bytes -> uint64,
    hasCompressor: uint16 -> bool,
    levelOk: int -> bool,
    compWrite: (uint16, int, seq<bytes>, bytes) -> bytes,
    compClose: (uint16, int, seq<bytes>) -> bytes,
    hasDecompressor: uint16 -> bool,
    decompress: (uint16, bytes, bool) -> (bytes, bool),
    aesBlock: (bytes, Block) -> Block,
    hmac: (bytes, bytes) -> Mac,
    pbkdf2: (bytes, bytes, nat) -> byte)

  /** What a compressor has emitted after the given writes. */
  function Compressed(lib: Lib, compMethod: uint16, level: int, writes: seq<bytes>): bytes {
    if writes == [] then [] else
      var past := writes[..|writes| - 1];
      Compressed(lib, compMethod, level, past) + CompStep(lib, compMethod, level, past, writes[|writes| - 1])
  }

  /** Store passes every write through; any other method is library code. */
  function CompStep(lib: Lib, compMethod: uint16, level: int, past: seq<bytes>, p: bytes): bytes {
    if compMethod == STORE then p else lib.compWrite(compMethod, level, past, p)
  }

  function CompEnd(lib: Lib, compMethod: uint16, level: int, writes: seq<bytes>): bytes {
    if compMethod == STORE then [] else lib.compClose(compMethod, level, writes)
  }

  function Decompressed(lib: Lib, compMethod: uint16, input: bytes, ended: bool): (bytes, bool) {
    if compMethod == STORE then (input, ended) else lib.decompress(compMethod, input, ended)
  }

  /** The one law about library code that content theorems need. */
  ghost predicate Inverts(lib: Lib, compMethod: uint16, level: int) {
    forall writes: seq<bytes> {:trigger Compressed(lib, compMethod, level, writes)} ::
      Decompressed(lib, compMethod, Compressed(lib, compMethod, level, writes) + CompEnd(lib, compMethod, level, writes), true)
        == (Flatten(writes), true)
  }

  /** Store satisfies that law. */
  lemma StoreInverts(lib: Lib, level: int)
    ensures Inverts(lib, STORE, level)
  {
    forall writes: seq<bytes> ensures Compressed(lib, STORE, level, writes) == Flatten(writes) {
      StoreEmits(lib, level, writes);
    }
    assert forall x: bytes :: x + [] == x;
  }

  lemma {:induction false} StoreEmits(lib: Lib, level: int, writes: seq<bytes>)
    ensures Compressed(lib, STORE, level, writes) == Flatten(writes)
  {
    if writes != [] {
      StoreEmits(lib, level, writes[..|writes| - 1]);
    }
  }
}
