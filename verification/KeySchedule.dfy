/** What the key schedule of the traditional cipher computes: a CRC division, an
    affine step, and keys that remember every byte (APPNOTE sections 6.1.5 to 6.1.7). */
module KeySchedule {
  import opened Bytes
  import opened ZipCrypto

  // ---------------------------------------------------------------- division by the CRC polynomial

  /** x^32 + x^26 + ... + 1, that is 0x104C11DB7, with its 33 bits in reverse. */
  const POLYNOMIAL: bv64 := 0x1_DB71_0641

  /** The product, without carries, of the polynomial with one of degree 7. */
  function Times(q: bv64): bv64 {
    Times4(q) ^ (Times4(q >> 4) << 4)
  }

  function Times4(q: bv64): bv64 {
    (if q & 1 != 0 then POLYNOMIAL else 0) ^ (if q & 2 != 0 then POLYNOMIAL << 1 else 0)
    ^ (if q & 4 != 0 then POLYNOMIAL << 2 else 0) ^ (if q & 8 != 0 then POLYNOMIAL << 3 else 0)
  }

  /** Dividing `v` times x^8 by the polynomial leaves `r`; in reversed order x is a shift to the right. */
  ghost predicate Remainder(v: bv32, r: bv32) {
    exists q: bv64 :: q < 0x100 && Leaves(v, r, q)
  }

  predicate Leaves(v: bv32, r: bv32, q: bv64) {
    (r as bv64) << 8 == (v as bv64) ^ Times(q)
  }

  // Division step by step: a remainder, and what has been subtracted on the way.

  predicate Steps1(a: bv32, b: bv32, part: bv64) {
    (b as bv64) << 1 == (a as bv64) ^ part
  }

  predicate Steps2(a: bv32, b: bv32, part: bv64) {
    (b as bv64) << 2 == (a as bv64) ^ part
  }

  predicate Steps4(a: bv32, b: bv32, part: bv64) {
    (b as bv64) << 4 == (a as bv64) ^ part
  }

  predicate Steps8(a: bv32, b: bv32, part: bv64) {
    (b as bv64) << 8 == (a as bv64) ^ part
  }

  function Join1(x: bv64, y: bv64): bv64 {
    x ^ (y << 1)
  }

  function Join2(x: bv64, y: bv64): bv64 {
    x ^ (y << 2)
  }

  function Join4(x: bv64, y: bv64): bv64 {
    x ^ (y << 4)
  }

  lemma Two(a: bv32, b: bv32, c: bv32, x: bv64, y: bv64)
    requires Steps1(a, b, x) && Steps1(b, c, y)
    ensures Steps2(a, c, Join1(x, y))
  {
  }

  lemma Four(a: bv32, b: bv32, c: bv32, x: bv64, y: bv64)
    requires Steps2(a, b, x) && Steps2(b, c, y)
    ensures Steps4(a, c, Join2(x, y))
  {
  }

  lemma Eight(a: bv32, b: bv32, c: bv32, x: bv64, y: bv64)
    requires Steps4(a, b, x) && Steps4(b, c, y)
    ensures Steps8(a, c, Join4(x, y))
  {
  }

  /** What one step subtracts: the polynomial, if the lowest bit is set. */
  function Part(bit: bool): bv64 {
    if bit then POLYNOMIAL else 0
  }

  function Low(c: bv32): bool {
    c & 1 == 1
  }

  lemma BitDivides(c: bv32)
    ensures Steps1(c, CrcBit(c), Part(Low(c)))
  {
  }

  function Nibble(a: bool, b: bool, c: bool, d: bool): (q: bv64)
    ensures q < 16
  {
    (if a then 1 else 0) | (if b then 2 else 0) | (if c then 4 else 0) | (if d then 8 else 0)
  }

  function Parts(a: bool, b: bool, c: bool, d: bool): bv64 {
    Join2(Join1(Part(a), Part(b)), Join1(Part(c), Part(d)))
  }

  lemma TimesNibble(a: bool, b: bool, c: bool, d: bool)
    ensures Times4(Nibble(a, b, c, d)) == Parts(a, b, c, d)
  {
  }

  lemma TimesByte(low: bv64, high: bv64)
    requires low < 16 && high < 16
    ensures var q := Whole8(low, high); q < 0x100 && Times4(q) == Times4(low) && Upper4(q) == high
  {
  }

  lemma FourDivide(c: bv32, c1: bv32, c2: bv32, c3: bv32, c4: bv32)
    requires c1 == CrcBit(c) && c2 == CrcBit(c1) && c3 == CrcBit(c2) && c4 == CrcBit(c3)
    ensures Steps4(c, c4, Parts(Low(c), Low(c1), Low(c2), Low(c3)))
  {
    hide CrcBit, Steps1, Steps2, Steps4, Join1, Join2, Part, Low;
    BitDivides(c);
    BitDivides(c1);
    BitDivides(c2);
    BitDivides(c3);
    Two(c, c1, c2, Part(Low(c)), Part(Low(c1)));
    Two(c2, c3, c4, Part(Low(c2)), Part(Low(c3)));
    Four(c, c2, c4, Join1(Part(Low(c)), Part(Low(c1))), Join1(Part(Low(c2)), Part(Low(c3))));
  }

  lemma EightDivide(v: bv32, c4: bv32, c8: bv32, low: bv64, high: bv64)
    requires low < 16 && high < 16 && Steps4(v, c4, Times4(low)) && Steps4(c4, c8, Times4(high))
    ensures Remainder(v, c8)
  {
    hide Steps4, Steps8, Times, Times4, Join4, Remainder, Whole8;
    Eight(v, c4, c8, Times4(low), Times4(high));
    TimesJoin(low, high);
    IsRemainder(v, c8, Whole8(low, high));
  }

  function Whole8(low: bv64, high: bv64): bv64 {
    low | (high << 4)
  }

  function Upper4(q: bv64): bv64 {
    q >> 4
  }

  lemma TimesJoin(low: bv64, high: bv64)
    requires low < 16 && high < 16
    ensures Whole8(low, high) < 0x100 && Times(Whole8(low, high)) == Join4(Times4(low), Times4(high))
  {
    hide Times4, Times, Join4, Upper4, Whole8;
    TimesByte(low, high);
    TimesIs(Whole8(low, high));
  }

  lemma TimesIs(q: bv64)
    ensures Times(q) == Join4(Times4(q), Times4(Upper4(q)))
  {
    hide Times4;
  }

  /** Four steps are a division by the polynomial times x^4. */
  lemma FourTimes(c: bv32) returns (q: bv64)
    ensures q < 16 && Steps4(c, CrcBit(CrcBit(CrcBit(CrcBit(c)))), Times4(q))
  {
    hide CrcBit, Steps4, Parts, Low, Times4, Nibble;
    var c1 := CrcBit(c);
    var c2 := CrcBit(c1);
    var c3 := CrcBit(c2);
    FourDivide(c, c1, c2, c3, CrcBit(c3));
    TimesNibble(Low(c), Low(c1), Low(c2), Low(c3));
    q := Nibble(Low(c), Low(c1), Low(c2), Low(c3));
  }

  /** A table entry is a remainder. */
  lemma TableDivides(v: bv32)
    ensures Remainder(v, CrcTable(v))
  {
    hide CrcBit, Steps4, Times4, Remainder;
    var c4 := CrcBit(CrcBit(CrcBit(CrcBit(v))));
    var low := FourTimes(v);
    var high := FourTimes(c4);
    EightDivide(v, c4, CrcTable(v), low, high);
  }

  lemma IsRemainder(v: bv32, r: bv32, q: bv64)
    requires q < 0x100 && Steps8(v, r, Times(q))
    ensures Remainder(v, r)
  {
    hide Times;
    assert Leaves(v, r, q);
  }

  /** There is only one. */
  lemma OneRemainder(v: bv32, r: bv32, s: bv32)
    requires Remainder(v, r) && Remainder(v, s)
    ensures r == s
  {
    hide Times, Sums, Leaves;
    var q: bv64 :| q < 0x100 && Leaves(v, r, q);
    var p: bv64 :| p < 0x100 && Leaves(v, s, p);
    LeavesSum(v, r, q);
    LeavesSum(v, s, p);
    SameQuotient(v, r, s, q, p);
    SameShift(v, r, s, q);
  }

  predicate Sums(v: bv32, r: bv32, q: bv64) {
    ((r as bv64) << 8) ^ Times(q) == v as bv64
  }

  lemma LeavesSum(v: bv32, r: bv32, q: bv64)
    requires Leaves(v, r, q)
    ensures Sums(v, r, q)
  {
    hide Times;
  }

  lemma SameQuotient(v: bv32, r: bv32, s: bv32, q: bv64, p: bv64)
    requires q < 0x100 && p < 0x100 && Sums(v, r, q) && Sums(v, s, p)
    ensures q == p
  {
    hide Times;
    OneQuotient(q, p, r as bv64, s as bv64);
  }

  lemma SameShift(v: bv32, r: bv32, s: bv32, q: bv64)
    requires Leaves(v, r, q) && Leaves(v, s, q)
    ensures r == s
  {
    hide Times;
    Shifted8(r, s);
  }

  lemma OneQuotient(q: bv64, p: bv64, r: bv64, s: bv64)
    requires q < 0x100 && p < 0x100 && (r << 8) ^ Times(q) == (s << 8) ^ Times(p)
    ensures q == p
  {
  }

  lemma Shifted8(r: bv32, s: bv32)
    requires (r as bv64) << 8 == (s as bv64) << 8
    ensures r == s
  {
  }

  /** The table holds exactly the remainders of the division by the CRC-32 polynomial. */
  lemma TableIsDivision(v: bv32, r: bv32)
    ensures r == CrcTable(v) <==> Remainder(v, r)
  {
    hide CrcTable, Remainder;
    TableDivides(v);
    if Remainder(v, r) {
      OneRemainder(v, r, CrcTable(v));
    }
  }

  // ---------------------------------------------------------------- the register

  function Sum(a: bv32, b: bv32): bv32 {
    a ^ b
  }

  lemma EvenEven(a: bv32, b: bv32)
    requires a & 1 == 0 && b & 1 == 0
    ensures CrcBit(Sum(a, b)) == Sum(CrcBit(a), CrcBit(b))
  {
  }

  lemma OddEven(a: bv32, b: bv32)
    requires a & 1 == 1 && b & 1 == 0
    ensures CrcBit(Sum(a, b)) == Sum(CrcBit(a), CrcBit(b))
  {
  }

  lemma EvenOdd(a: bv32, b: bv32)
    requires a & 1 == 0 && b & 1 == 1
    ensures CrcBit(Sum(a, b)) == Sum(CrcBit(a), CrcBit(b))
  {
  }

  lemma OddOdd(a: bv32, b: bv32)
    requires a & 1 == 1 && b & 1 == 1
    ensures CrcBit(Sum(a, b)) == Sum(CrcBit(a), CrcBit(b))
  {
  }

  lemma ZeroOrOne(a: bv32)
    ensures a & 1 == 0 || a & 1 == 1
  {
  }

  /** A step of division is linear. */
  lemma BitLinear(a: bv32, b: bv32)
    ensures CrcBit(Sum(a, b)) == Sum(CrcBit(a), CrcBit(b))
  {
    hide CrcBit, Sum;
    ZeroOrOne(a);
    ZeroOrOne(b);
    if a & 1 == 0 {
      if b & 1 == 0 {
        EvenEven(a, b);
      } else {
        EvenOdd(a, b);
      }
    } else {
      if b & 1 == 0 {
        OddEven(a, b);
      } else {
        OddOdd(a, b);
      }
    }
  }

  function CrcNibble(c: bv32): bv32 {
    CrcBit(CrcBit(CrcBit(CrcBit(c))))
  }

  lemma NibbleLinear(a: bv32, b: bv32)
    ensures CrcNibble(Sum(a, b)) == Sum(CrcNibble(a), CrcNibble(b))
  {
    hide CrcBit, Sum;
    BitLinear(a, b);
    BitLinear(CrcBit(a), CrcBit(b));
    BitLinear(CrcBit(CrcBit(a)), CrcBit(CrcBit(b)));
    BitLinear(CrcBit(CrcBit(CrcBit(a))), CrcBit(CrcBit(CrcBit(b))));
  }

  lemma TableLinear(a: bv32, b: bv32)
    ensures CrcTable(Sum(a, b)) == Sum(CrcTable(a), CrcTable(b))
  {
    hide CrcBit, Sum;
    NibbleLinear(a, b);
    NibbleLinear(CrcNibble(a), CrcNibble(b));
  }

  /** Bits that eight steps do not reach are only shifted. */
  lemma TableOfUpper(c: bv32)
    ensures CrcTable(c & 0xffff_ff00) == c >> 8
  {
  }

  lemma TwoParts(c: bv32)
    ensures Sum(c & 0xff, c & 0xffff_ff00) == c
  {
  }

  /** Looking up the lowest byte does the eight steps of the whole register. */
  lemma TableOfRegister(c: bv32)
    ensures Sum(CrcTable(c & 0xff), c >> 8) == CrcTable(c)
  {
    hide CrcTable, Sum;
    TwoParts(c);
    TableLinear(c & 0xff, c & 0xffff_ff00);
    TableOfUpper(c);
  }

  lemma UpdateRaw(crc: bv32, b: byte)
    ensures Crc32Update(crc, b) == Sum(CrcTable(Added(crc, b) & 0xff), crc >> 8)
  {
    hide CrcTable, Added;
  }

  lemma UpdateIs(crc: bv32, b: byte)
    ensures Crc32Update(crc, b) == Sum(CrcTable(Added(crc, b) & 0xff), Added(crc, b) >> 8)
  {
    hide CrcTable, Crc32Update, Sum, Added;
    UpdateRaw(crc, b);
    UpperKept(crc, b);
  }

  lemma UpperKept(crc: bv32, b: byte)
    ensures Added(crc, b) >> 8 == crc >> 8
  {
  }

  /** The update of the register by a byte divides the sum of both. */
  lemma UpdateDivides(crc: bv32, b: byte)
    ensures Crc32Update(crc, b) == CrcTable(Added(crc, b)) && Remainder(Added(crc, b), Crc32Update(crc, b))
  {
    hide CrcTable, Crc32Update, Remainder, Sum, Added;
    UpdateIs(crc, b);
    TableOfRegister(Added(crc, b));
    TableDivides(Added(crc, b));
  }

  // ---------------------------------------------------------------- nothing is forgotten

  lemma BitInjective(a: bv32, b: bv32)
    requires CrcBit(a) == CrcBit(b)
    ensures a == b
  {
  }

  lemma TableInjective(a: bv32, b: bv32)
    requires CrcTable(a) == CrcTable(b)
    ensures a == b
  {
    hide CrcBit;
    BitInjective(CrcBit(CrcBit(CrcBit(CrcBit(CrcBit(CrcBit(CrcBit(a))))))),
                 CrcBit(CrcBit(CrcBit(CrcBit(CrcBit(CrcBit(CrcBit(b))))))));
    BitInjective(CrcBit(CrcBit(CrcBit(CrcBit(CrcBit(CrcBit(a)))))), CrcBit(CrcBit(CrcBit(CrcBit(CrcBit(CrcBit(b)))))));
    BitInjective(CrcBit(CrcBit(CrcBit(CrcBit(CrcBit(a))))), CrcBit(CrcBit(CrcBit(CrcBit(CrcBit(b))))));
    BitInjective(CrcBit(CrcBit(CrcBit(CrcBit(a)))), CrcBit(CrcBit(CrcBit(CrcBit(b)))));
    BitInjective(CrcBit(CrcBit(CrcBit(a))), CrcBit(CrcBit(CrcBit(b))));
    BitInjective(CrcBit(CrcBit(a)), CrcBit(CrcBit(b)));
    BitInjective(CrcBit(a), CrcBit(b));
    BitInjective(a, b);
  }

  lemma AddedInjective(c: bv32, d: bv32, b: byte)
    requires Added(c, b) == Added(d, b)
    ensures c == d
  {
    hide Wide;
  }

  lemma AddedDiffers(c: bv32, a: byte, b: byte)
    requires Added(c, a) == Added(c, b)
    ensures a == b
  {
    hide Wide;
    SameBits(c, Wide(a), Wide(b));
    WideInjective(a, b);
  }

  lemma SameBits(c: bv32, x: bv32, y: bv32)
    requires c ^ x == c ^ y
    ensures x == y
  {
  }

  lemma WideInjective(a: byte, b: byte)
    requires Wide(a) == Wide(b)
    ensures a == b
  {
    ThroughBits(a);
    ThroughBits(b);
    Widened(a as bv8, b as bv8);
  }

  lemma Widened(x: bv8, y: bv8)
    requires x as bv32 == y as bv32
    ensures x == y
  {
  }

  lemma CrcInjective(c: bv32, d: bv32, a: byte, b: byte)
    requires Crc32Update(c, a) == Crc32Update(d, b)
    ensures Added(c, a) == Added(d, b)
  {
    hide Crc32Update, CrcTable, Added, Remainder;
    UpdateDivides(c, a);
    UpdateDivides(d, b);
    TableInjective(Added(c, a), Added(d, b));
  }

  /** The middle key takes the affine step that 134775813 and 1 give: it moves by
      that multiple, and from minus the low byte it goes to 1. */
  lemma MiddleKey(k: Keys, b: byte, d: uint32)
    ensures var low := LowByte(Crc32Update(k.k0, b)) as int;
            && UpdateKeys(k.(k1 := (k.k1 + d) % TWO32), b).k1 == (UpdateKeys(k, b).k1 + 134775813 * d) % TWO32
            && UpdateKeys(k.(k1 := (TWO32 - low) % TWO32), b).k1 == 1
  {
    hide Crc32Update, LowByte, Middle;
    var low := LowByte(Crc32Update(k.k0, b)) as int;
    MiddleIs(k, b);
    MiddleIs(k.(k1 := (k.k1 + d) % TWO32), b);
    MiddleIs(k.(k1 := (TWO32 - low) % TWO32), b);
    Affine(k.k1, low, d);
    Intercept(low);
  }

  function Middle(x: uint32, low: int): uint32 {
    ((x + low) % TWO32 * 134775813 + 1) % TWO32
  }

  lemma MiddleIs(k: Keys, b: byte)
    ensures UpdateKeys(k, b).k1 == Middle(k.k1, LowByte(Crc32Update(k.k0, b)) as int)
  {
    hide Crc32Update, LowByte;
  }

  lemma Congruent(u: int, v: int, q: int)
    requires u == v + TWO32 * q
    ensures u % TWO32 == v % TWO32
  {
  }

  lemma Reduced(u: int)
    ensures u % TWO32 == u - TWO32 * (u / TWO32)
  {
  }

  lemma Affine(x: uint32, low: int, d: uint32)
    ensures Middle((x + d) % TWO32, low) == (Middle(x, low) + 134775813 * d) % TWO32
  {
    var y := (x + d) % TWO32;
    var a, b := (y + low) % TWO32, (x + low) % TWO32;
    Reduced(x + d);
    Reduced(y + low);
    Reduced(x + low);
    Reduced(b * 134775813 + 1);
    var q := (x + low) / TWO32 - (x + d) / TWO32 - (y + low) / TWO32;
    assert a == b + d + TWO32 * q;
    Congruent(a * 134775813 + 1, Middle(x, low) + 134775813 * d, 134775813 * q + (b * 134775813 + 1) / TWO32);
  }

  lemma Intercept(low: int)
    ensures Middle((TWO32 - low) % TWO32, low) == 1
  {
    Reduced(TWO32 - low);
    Congruent((TWO32 - low) % TWO32 + low, 0, 1 - (TWO32 - low) / TWO32);
  }

  /** The step can be undone: 3645876429 is the inverse of the multiplier. */
  lemma MiddleInjective(x: uint32, y: uint32, low: int)
    requires Middle(x, low) == Middle(y, low)
    ensures x == y
  {
    hide Middle;
    Undone(x, low);
    Undone(y, low);
    Cancelled(x, y, low);
  }

  lemma Undone(x: uint32, low: int)
    ensures ((Middle(x, low) - 1) * 3645876429) % TWO32 == (x + low) % TWO32
  {
    Inverse((x + low) % TWO32);
  }

  lemma Cancelled(x: uint32, y: uint32, low: int)
    requires (x + low) % TWO32 == (y + low) % TWO32
    ensures x == y
  {
    Reduced(x + low);
    Reduced(y + low);
  }

  lemma Inverse(s: uint32)
    ensures (((s * 134775813 + 1) % TWO32 - 1) * 3645876429) % TWO32 == s
  {
    var q := (s * 134775813 + 1) / TWO32;
    Reduced(s * 134775813 + 1);
    assert 134775813 * 3645876429 == 1 + TWO32 * 114407381;
    Congruent(((s * 134775813 + 1) % TWO32 - 1) * 3645876429, s, 114407381 * s - 3645876429 * q);
  }

  /** No two states of the keys are taken to the same state by one byte. */
  lemma UpdateInjective(k: Keys, l: Keys, b: byte)
    requires UpdateKeys(k, b) == UpdateKeys(l, b)
    ensures k == l
  {
    hide Crc32Update, Added, LowByte, Middle;
    CrcInjective(k.k0, l.k0, b, b);
    AddedInjective(k.k0, l.k0, b);
    MiddleIs(k, b);
    MiddleIs(l, b);
    MiddleInjective(k.k1, l.k1, LowByte(Crc32Update(k.k0, b)) as int);
    var top := (UpdateKeys(k, b).k1 / 0x100_0000) as byte;
    CrcInjective(k.k2, l.k2, top, top);
    AddedInjective(k.k2, l.k2, top);
  }

  /** Different bytes leave different keys. */
  lemma BytesDiffer(k: Keys, a: byte, b: byte)
    requires a != b
    ensures UpdateKeys(k, a).k0 != UpdateKeys(k, b).k0
  {
    hide Crc32Update, Added, LowByte;
    if Crc32Update(k.k0, a) == Crc32Update(k.k0, b) {
      CrcInjective(k.k0, k.k0, a, b);
      AddedDiffers(k.k0, a, b);
    }
  }

  lemma {:induction false} KeysAfterInjective(k: Keys, l: Keys, s: bytes)
    requires KeysAfter(k, s) == KeysAfter(l, s)
    ensures k == l
    decreases |s|
  {
    hide UpdateKeys;
    if s != [] {
      KeysAfterInjective(UpdateKeys(k, s[0]), UpdateKeys(l, s[0]), s[1..]);
      UpdateInjective(k, l, s[0]);
    }
  }

  /** Texts that differ in one byte leave different keys, whatever precedes and
      follows it; in particular, so do passwords. */
  lemma EveryByteMatters(k: Keys, before: bytes, a: byte, b: byte, after: bytes)
    requires a != b
    ensures KeysAfter(k, before + ([a] + after)) != KeysAfter(k, before + ([b] + after))
  {
    hide UpdateKeys, KeysAfter;
    var here := KeysAfter(k, before);
    KeysAppend(k, before, [a] + after);
    KeysAppend(k, before, [b] + after);
    KeysAppend(here, [a], after);
    KeysAppend(here, [b], after);
    OneByte(here, a);
    OneByte(here, b);
    BytesDiffer(here, a, b);
    if KeysAfter(UpdateKeys(here, a), after) == KeysAfter(UpdateKeys(here, b), after) {
      KeysAfterInjective(UpdateKeys(here, a), UpdateKeys(here, b), after);
    }
  }

  // ---------------------------------------------------------------- known answers

  /** Entries of the table as they are published. */
  lemma KnownEntries()
    ensures CrcTable(0) == 0 && CrcTable(1) == 0x7707_3096 && CrcTable(2) == 0xee0e_612c && CrcTable(0x80) == 0xedb8_8320
    ensures CrcTable(0xff) == 0x2d02_ef8d
  {
  }

  lemma MoreEntries()
    ensures CrcTable(0x0b) == 0x97d2d988
    ensures CrcTable(0x2d) == 0x45df5c75
    ensures CrcTable(0x4a) == 0x9609a88e
    ensures CrcTable(0x50) == 0x6b6b51f4
    ensures CrcTable(0x65) == 0x3dd895d7
    ensures CrcTable(0x66) == 0xa4d1c46d
    ensures CrcTable(0x6f) == 0xdd0d7cc9
    ensures CrcTable(0x8a) == 0x0d6d6a3e
    ensures CrcTable(0x9c) == 0xf9b9df6f
    ensures CrcTable(0xb1) == 0xbc66831a
    ensures CrcTable(0xbb) == 0x5cb36a04
    ensures CrcTable(0xe6) == 0x4969474d
  {
  }

  lemma KnownBytes()
    ensures Wide(0x1e) == 0x1e
    ensures Wide(0x63) == 0x63
    ensures Wide(0x65) == 0x65
    ensures Wide(0x72) == 0x72
    ensures Wide(0x73) == 0x73
    ensures Wide(0x74) == 0x74
    ensures Wide(0x89) == 0x89
    ensures Wide(0x96) == 0x96
    ensures Wide(0xa9) == 0xa9
    ensures Wide(0xd1) == 0xd1
    ensures Wide(0xf5) == 0xf5
  {
  }

  /** One update of the register, given the entry that is looked up. */
  lemma KnownCrc(c: bv32, b: byte, w: bv32, t: bv32)
    requires Wide(b) == w && CrcTable((c ^ w) & 0xff) == t
    ensures Crc32Update(c, b) == Sum(t, c >> 8)
  {
    hide CrcTable, Wide, Added, Sum, Crc32Update;
    AddedIs(c, b, w);
    UpdateRaw(c, b);
  }

  lemma AddedIs(c: bv32, b: byte, w: bv32)
    requires Wide(b) == w
    ensures Added(c, b) == c ^ w
  {
    hide Wide;
  }

  lemma KnownKeys(k: Keys, b: byte, low: int, top: byte, l: Keys)
    requires Crc32Update(k.k0, b) == l.k0 && LowByte(l.k0) as int == low
    requires Middle(k.k1, low) == l.k1 && l.k1 / 0x100_0000 == top as int
    requires Crc32Update(k.k2, top) == l.k2
    ensures UpdateKeys(k, b) == l
  {
    hide Crc32Update, LowByte;
  }

  lemma Known1()
    ensures UpdateKeys(Keys(0x12345678, 0x23456789, 0x34567890), 0x73) == Keys(0x97c0edde, 0xf5682604, 0x3decc3af)
  {
    hide CrcTable, Crc32Update, UpdateKeys, Middle, LowByte;
    KnownLow1();
    KnownMiddle1();
    KnownCrcs1();
    KnownKeys(Keys(0x12345678, 0x23456789, 0x34567890), 0x73, 0xde, 0xf5, Keys(0x97c0edde, 0xf5682604, 0x3decc3af));
  }

  lemma KnownLow1()
    ensures LowByte(0x97c0edde) as int == 0xde
  {
  }

  lemma KnownMiddle1()
    ensures Middle(0x23456789, 0xde) == 0xf5682604
  {
  }

  lemma KnownCrcs1()
    ensures Crc32Update(0x12345678, 0x73) == 0x97c0edde && Crc32Update(0x34567890, 0xf5) == 0x3decc3af
  {
    hide CrcTable, Crc32Update, Wide;
    MoreEntries();
    KnownBytes();
    KnownCrc(0x12345678, 0x73, 0x73, 0x97d2d988);
    KnownCrc(0x34567890, 0xf5, 0xf5, 0x3dd895d7);
  }

  lemma Known2()
    ensures UpdateKeys(Keys(0x97c0edde, 0xf5682604, 0x3decc3af), 0x65) == Keys(0x5c24aae9, 0x1e82f6a2, 0xbc5b6fd9)
  {
    hide CrcTable, Crc32Update, UpdateKeys, Middle, LowByte;
    KnownLow2();
    KnownMiddle2();
    KnownCrcs2();
    KnownKeys(Keys(0x97c0edde, 0xf5682604, 0x3decc3af), 0x65, 0xe9, 0x1e, Keys(0x5c24aae9, 0x1e82f6a2, 0xbc5b6fd9));
  }

  lemma KnownLow2()
    ensures LowByte(0x5c24aae9) as int == 0xe9
  {
  }

  lemma KnownMiddle2()
    ensures Middle(0xf5682604, 0xe9) == 0x1e82f6a2
  {
  }

  lemma KnownCrcs2()
    ensures Crc32Update(0x97c0edde, 0x65) == 0x5c24aae9 && Crc32Update(0x3decc3af, 0x1e) == 0xbc5b6fd9
  {
    hide CrcTable, Crc32Update, Wide;
    MoreEntries();
    KnownBytes();
    KnownCrc(0x97c0edde, 0x65, 0x65, 0x5cb36a04);
    KnownCrc(0x3decc3af, 0x1e, 0x1e, 0xbc66831a);
  }

  lemma Known3()
    ensures UpdateKeys(Keys(0x5c24aae9, 0x1e82f6a2, 0xbc5b6fd9), 0x63) == Keys(0x0d314e94, 0x89b6ac0f, 0x6bd70a9b)
  {
    hide CrcTable, Crc32Update, UpdateKeys, Middle, LowByte;
    KnownLow3();
    KnownMiddle3();
    KnownCrcs3();
    KnownKeys(Keys(0x5c24aae9, 0x1e82f6a2, 0xbc5b6fd9), 0x63, 0x94, 0x89, Keys(0x0d314e94, 0x89b6ac0f, 0x6bd70a9b));
  }

  lemma KnownLow3()
    ensures LowByte(0x0d314e94) as int == 0x94
  {
  }

  lemma KnownMiddle3()
    ensures Middle(0x1e82f6a2, 0x94) == 0x89b6ac0f
  {
  }

  lemma KnownCrcs3()
    ensures Crc32Update(0x5c24aae9, 0x63) == 0x0d314e94 && Crc32Update(0xbc5b6fd9, 0x89) == 0x6bd70a9b
  {
    hide CrcTable, Crc32Update, Wide;
    MoreEntries();
    KnownBytes();
    KnownCrc(0x5c24aae9, 0x63, 0x63, 0x0d6d6a3e);
    KnownCrc(0xbc5b6fd9, 0x89, 0x89, 0x6b6b51f4);
  }

  lemma Known4()
    ensures UpdateKeys(Keys(0x0d314e94, 0x89b6ac0f, 0x6bd70a9b), 0x72) == Keys(0x49647603, 0xd1daa45b, 0x96627f84)
  {
    hide CrcTable, Crc32Update, UpdateKeys, Middle, LowByte;
    KnownLow4();
    KnownMiddle4();
    KnownCrcs4();
    KnownKeys(Keys(0x0d314e94, 0x89b6ac0f, 0x6bd70a9b), 0x72, 0x03, 0xd1, Keys(0x49647603, 0xd1daa45b, 0x96627f84));
  }

  lemma KnownLow4()
    ensures LowByte(0x49647603) as int == 0x03
  {
  }

  lemma KnownMiddle4()
    ensures Middle(0x89b6ac0f, 0x03) == 0xd1daa45b
  {
  }

  lemma KnownCrcs4()
    ensures Crc32Update(0x0d314e94, 0x72) == 0x49647603 && Crc32Update(0x6bd70a9b, 0xd1) == 0x96627f84
  {
    hide CrcTable, Crc32Update, Wide;
    MoreEntries();
    KnownBytes();
    KnownCrc(0x0d314e94, 0x72, 0x72, 0x4969474d);
    KnownCrc(0x6bd70a9b, 0xd1, 0xd1, 0x9609a88e);
  }

  lemma Known5()
    ensures UpdateKeys(Keys(0x49647603, 0xd1daa45b, 0x96627f84), 0x65) == Keys(0xa498a01b, 0xa9c20e4f, 0x45493e0a)
  {
    hide CrcTable, Crc32Update, UpdateKeys, Middle, LowByte;
    KnownLow5();
    KnownMiddle5();
    KnownCrcs5();
    KnownKeys(Keys(0x49647603, 0xd1daa45b, 0x96627f84), 0x65, 0x1b, 0xa9, Keys(0xa498a01b, 0xa9c20e4f, 0x45493e0a));
  }

  lemma KnownLow5()
    ensures LowByte(0xa498a01b) as int == 0x1b
  {
  }

  lemma KnownMiddle5()
    ensures Middle(0xd1daa45b, 0x1b) == 0xa9c20e4f
  {
  }

  lemma KnownCrcs5()
    ensures Crc32Update(0x49647603, 0x65) == 0xa498a01b && Crc32Update(0x96627f84, 0xa9) == 0x45493e0a
  {
    hide CrcTable, Crc32Update, Wide;
    MoreEntries();
    KnownBytes();
    KnownCrc(0x49647603, 0x65, 0x65, 0xa4d1c46d);
    KnownCrc(0x96627f84, 0xa9, 0xa9, 0x45df5c75);
  }

  lemma Known6()
    ensures UpdateKeys(Keys(0xa498a01b, 0xa9c20e4f, 0x45493e0a), 0x74) == Keys(0xdda9e469, 0x96212999, 0xf9fc9651)
  {
    hide CrcTable, Crc32Update, UpdateKeys, Middle, LowByte;
    KnownLow6();
    KnownMiddle6();
    KnownCrcs6();
    KnownKeys(Keys(0xa498a01b, 0xa9c20e4f, 0x45493e0a), 0x74, 0x69, 0x96, Keys(0xdda9e469, 0x96212999, 0xf9fc9651));
  }

  lemma KnownLow6()
    ensures LowByte(0xdda9e469) as int == 0x69
  {
  }

  lemma KnownMiddle6()
    ensures Middle(0xa9c20e4f, 0x69) == 0x96212999
  {
  }

  lemma KnownCrcs6()
    ensures Crc32Update(0xa498a01b, 0x74) == 0xdda9e469 && Crc32Update(0x45493e0a, 0x96) == 0xf9fc9651
  {
    hide CrcTable, Crc32Update, Wide;
    MoreEntries();
    KnownBytes();
    KnownCrc(0xa498a01b, 0x74, 0x74, 0xdd0d7cc9);
    KnownCrc(0x45493e0a, 0x96, 0x96, 0xf9b9df6f);
  }

  const SECRET: bytes := [0x73, 0x65, 0x63, 0x72, 0x65, 0x74]

  /** The keys that the password `secret` leaves. */
  lemma KnownPassword()
    ensures InitKeys([]) == Keys(0x12345678, 0x23456789, 0x34567890)
    ensures InitKeys(SECRET) == Keys(0xdda9e469, 0x96212999, 0xf9fc9651)
  {
    hide UpdateKeys;
    Known1();
    Known2();
    Known3();
    Known4();
    Known5();
    Known6();
    KeysOfSix(START, SECRET);
  }

  lemma KeysOfSix(k: Keys, p: bytes)
    requires |p| == 6
    ensures KeysAfter(k, p) == UpdateKeys(UpdateKeys(UpdateKeys(UpdateKeys(UpdateKeys(UpdateKeys(k, p[0]), p[1]), p[2]), p[3]),
                                                     p[4]), p[5])
  {
    hide UpdateKeys, KeysAfter;
    var k1 := UpdateKeys(k, p[0]);
    var k2 := UpdateKeys(k1, p[1]);
    var k3 := UpdateKeys(k2, p[2]);
    var k4 := UpdateKeys(k3, p[3]);
    var k5 := UpdateKeys(k4, p[4]);
    Whole(p);
    KeysFrom(k, p, 0);
    KeysFrom(k1, p, 1);
    KeysFrom(k2, p, 2);
    KeysFrom(k3, p, 3);
    KeysFrom(k4, p, 4);
    KeysFrom(k5, p, 5);
    Empty(UpdateKeys(k5, p[5]));
  }

  lemma KeysFrom(k: Keys, p: bytes, i: nat)
    requires i < |p|
    ensures KeysAfter(k, p[i..]) == KeysAfter(UpdateKeys(k, p[i]), p[i + 1..]) && p[0..] == p && p[|p|..] == []
  {
    hide UpdateKeys;
    assert p[i..][1..] == p[i + 1..];
  }

  /** Key stream bytes of the states on the way. */
  lemma KnownStream()
    ensures MagicByte(Keys(0x12345678, 0x23456789, 0x34567890)) == 171
    ensures MagicByte(Keys(0x97c0edde, 0xf5682604, 0x3decc3af)) == 77
    ensures MagicByte(Keys(0x5c24aae9, 0x1e82f6a2, 0xbc5b6fd9)) == 53
    ensures MagicByte(Keys(0x0d314e94, 0x89b6ac0f, 0x6bd70a9b)) == 111
    ensures MagicByte(Keys(0x49647603, 0xd1daa45b, 0x96627f84)) == 185
    ensures MagicByte(Keys(0xa498a01b, 0xa9c20e4f, 0x45493e0a)) == 22
    ensures MagicByte(InitKeys(SECRET)) == 200
  {
    hide InitKeys;
    KnownPassword();
  }
}
