/**
 Section 6.1 of the ZIP application note over natural numbers, and CRC-32 the same way: what the registers
 of the program, which are bit vectors, have to agree with.
 */
module ZipNote {
  import opened Bits
  import opened ZipWords
  import ZipArchive
  import ZipCipher
  import ZipCrc

  type Octet = ZipCipher.Octet

  const RANGE32 := ZipCrc.RANGE32

  // CRC-32.

  /** One bit: the polynomial of CRC-32, lowest bit first. */
  function CrcBit(crc: nat): nat {
    if crc % 2 == 1 then Xor(crc / 2, 0xEDB88320) else crc / 2
  }

  function CrcByte(crc: nat, ch: nat): nat {
    ZipCipher.Iterate<nat>(CrcBit, Xor(crc, ch), 8)
  }

  function CrcBytes(crc: nat, data: seq<byte>): nat
    decreases |data|
  {
    if data == [] then crc else CrcBytes(CrcByte(crc, data[0]), data[1..])
  }

  /** CRC-32 of a text, carried on from the CRC-32 of what came before it. */
  function Crc32(data: seq<byte>, before: nat): nat {
    Xor(CrcBytes(Xor(before % RANGE32, 0xFFFF_FFFF), data), 0xFFFF_FFFF)
  }

  // Section 6.1 of the application note.

  datatype Keys = Keys(key0: nat, key1: nat, key2: nat)

  const INITIAL := Keys(305419896, 591751049, 878082192)

  function NextKey1(key1: nat, key0: nat): nat {
    ((key1 + key0 % 256) * 134775813 + 1) % RANGE32
  }

  function UpdateKeys(k: Keys, ch: byte): Keys {
    var key0 := CrcByte(k.key0, ch);
    var key1 := NextKey1(k.key1, key0);
    Keys(key0, key1, CrcByte(k.key2, key1 / 0x100_0000))
  }

  function UpdateAll(k: Keys, text: seq<byte>): Keys
    decreases |text|
  {
    if text == [] then k else UpdateAll(UpdateKeys(k, text[0]), text[1..])
  }

  /** decrypt_byte: temp is an unsigned short, and the result an unsigned char. */
  function StreamByte(k: Keys): (b: byte) {
    var temp := Or(k.key2, 2) % 0x1_0000;
    temp * Xor(temp, 1) / 256 % 256
  }

  lemma ByteXor(a: byte, b: byte)
    ensures Xor(a, b) < 256
  {
    assert Pow2(8) == 256 by { Pow2Eight(); }
    BitwiseBelow(BitXor, a, b, 8);
  }

  function Encrypt(k: Keys, plain: seq<byte>): (data: seq<byte>)
    ensures |data| == |plain|
    decreases |plain|
  {
    if plain == [] then []
    else
      ByteXor(plain[0], StreamByte(k));
      [Xor(plain[0], StreamByte(k)) as byte] + Encrypt(UpdateKeys(k, plain[0]), plain[1..])
  }

  // The registers of the program hold these numbers.

  lemma Literal(v: nat, w: Word)
    requires v < RANGE32 && w as int == v
    ensures ToWord(v) == w
  {
    ZipCrc.ToWordValue(v);
    ZipCrc.SameValue(ToWord(v), w);
  }

  lemma SplitWord(v: nat, d: nat, w: Word, q: nat, r: nat)
    requires v == q * d + r && ToWord(d) == w
    ensures ToWord(v) == ZipCipher.Add(ZipCipher.Multiply(ToWord(q), w), ToWord(r))
  {
    ToWordPlus(q * d, r);
    ToWordTimes(q, d);
  }

  lemma ByteValue(x: Word)
    requires x as int < 0x100
    ensures x <= 0xFF
  {
  }

  lemma TopValue(x: Word)
    requires x as int < 0x100_0000
    ensures x <= 0xFF_FFFF
  {
  }

  lemma ByteWord(v: nat)
    requires v < 256
    ensures ToWord(v) <= 0xFF
  {
    ZipCrc.ToWordValue(v);
    ByteValue(ToWord(v));
  }

  lemma SmallWord(v: nat)
    requires v < RANGE32
    ensures ToWord(v) <= ZipCipher.MASK
  {
    ZipCrc.ToWordValue(v);
  }

  lemma RangeMultiple(x: Word)
    ensures ZipCipher.Multiply(x, 0x1_0000_0000) & 0xFFFF_FFFF == 0
  {
  }

  lemma MaskSum(m: Word, y: Word, p: Word)
    requires m & 0xFFFF_FFFF == 0 && y <= 0xFFFF_FFFF && p == ZipCipher.Add(m, y)
    ensures p & 0xFFFF_FFFF == y
  {
  }

  lemma MaskOfSum(x: Word, y: Word, p: Word)
    requires y <= 0xFFFF_FFFF && p == ZipCipher.Add(ZipCipher.Multiply(x, 0x1_0000_0000), y)
    ensures p & 0xFFFF_FFFF == y
  {
    RangeMultiple(x);
    MaskSum(ZipCipher.Multiply(x, 0x1_0000_0000), y, p);
  }

  lemma ByteMultiple(x: Word)
    ensures ZipCipher.Multiply(x, 0x100) & 0xFF == 0 && (ZipCipher.Multiply(x, 0x100) >> 8) & 0xFF == x & 0xFF
  {
  }

  lemma ByteSum(m: Word, y: Word, p: Word)
    requires m & 0xFF == 0 && y <= 0xFF && p == ZipCipher.Add(m, y)
    ensures p & 0xFF == y && (p >> 8) & 0xFF == (m >> 8) & 0xFF
  {
  }

  lemma ByteOfSum(x: Word, y: Word, p: Word)
    requires y <= 0xFF && p == ZipCipher.Add(ZipCipher.Multiply(x, 0x100), y)
    ensures p & 0xFF == y && (p >> 8) & 0xFF == x & 0xFF
  {
    ByteMultiple(x);
    ByteSum(ZipCipher.Multiply(x, 0x100), y, p);
  }

  lemma TopSum(x: Word, y: Word, p: Word)
    requires x <= 0xFF && y <= 0xFF_FFFF && p == x * 0x100_0000 + y
    ensures p >> 24 == x
  {
  }

  lemma TopOfSum(x: Word, y: Word, p: Word)
    requires x <= 0xFF && y <= 0xFF_FFFF && p == ZipCipher.Add(ZipCipher.Multiply(x, 0x100_0000), y)
    ensures ZipCipher.Top(p) == x
  {
    TopSum(x, y, p);
  }

  lemma RangeWord()
    ensures ToWord(RANGE32) == 0x1_0000_0000
  {
    Literal(0x1_0000, 0x1_0000);
    ToWordTimes(0x1_0000, 0x1_0000);
  }

  lemma MaskIsMod(v: nat)
    ensures ZipCipher.Masked(ToWord(v)) == ToWord(v % RANGE32)
  {
    RangeWord();
    SplitWord(v, RANGE32, 0x1_0000_0000, v / RANGE32, v % RANGE32);
    SmallWord(v % RANGE32);
    MaskOfSum(ToWord(v / RANGE32), ToWord(v % RANGE32), ToWord(v));
  }

  lemma LowByteIsMod(v: nat)
    ensures ZipCipher.LowBits(ToWord(v)) == ToWord(v % 256)
  {
    Literal(256, 256);
    SplitWord(v, 256, 256, v / 256, v % 256);
    ByteWord(v % 256);
    ByteOfSum(ToWord(v / 256), ToWord(v % 256), ToWord(v));
  }

  lemma TopIsDiv(v: nat)
    requires v < RANGE32
    ensures ZipCipher.Top(ToWord(v)) == ToWord(v / 0x100_0000)
  {
    Literal(0x100_0000, 0x100_0000);
    SplitWord(v, 0x100_0000, 0x100_0000, v / 0x100_0000, v % 0x100_0000);
    ByteWord(v / 0x100_0000);
    ZipCrc.ToWordValue(v % 0x100_0000);
    TopValue(ToWord(v % 0x100_0000));
    TopOfSum(ToWord(v / 0x100_0000), ToWord(v % 0x100_0000), ToWord(v));
  }

  lemma MiddleByte(v: nat)
    ensures (ToWord(v) >> 8) & 0xFF == ToWord(v / 256 % 256)
  {
    Literal(256, 256);
    SplitWord(v, 256, 256, v / 256, v % 256);
    ByteWord(v % 256);
    ByteOfSum(ToWord(v / 256), ToWord(v % 256), ToWord(v));
    LowByteIsMod(v / 256);
  }

  // CRC-32.

  lemma RangeIsPower()
    ensures Pow2(32) == RANGE32
  {
    Pow2Eight();
    Pow2Add(8, 8);
    Pow2Add(16, 16);
  }

  lemma XorBelow(a: nat, b: nat)
    requires a < RANGE32 && b < RANGE32
    ensures Xor(a, b) < RANGE32
  {
    RangeIsPower();
    BitwiseBelow(BitXor, a, b, 32);
  }

  lemma CrcEven(x: Word)
    requires x < 0x8000_0000
    ensures ZipCipher.CrcBit(ZipCrc.Even(x)) == x
  {
  }

  lemma CrcOdd(x: Word)
    requires x < 0x8000_0000
    ensures ZipCipher.CrcBit(ZipCrc.Odd(x)) == ZipCipher.Xor(x, ZipCipher.POLYNOMIAL)
  {
  }

  lemma HalfSmall(v: nat)
    requires v < RANGE32
    ensures ToWord(v / 2) < 0x8000_0000
    ensures ToWord(v) == if v % 2 == 0 then ZipCrc.Even(ToWord(v / 2)) else ZipCrc.Odd(ToWord(v / 2))
  {
    ZipCrc.ToWordValue(v / 2);
    ZipCrc.Below31(ToWord(v / 2));
    NoBits();
  }

  lemma CrcBitOfWord(v: nat)
    requires v < RANGE32
    ensures CrcBit(v) < RANGE32 && ToWord(CrcBit(v)) == ZipCipher.CrcBit(ToWord(v))
  {
    HalfSmall(v);
    if v % 2 == 0 {
      CrcEven(ToWord(v / 2));
    } else {
      CrcOdd(ToWord(v / 2));
      XorBelow(v / 2, 0xEDB88320);
      XorOfWords(v / 2, 0xEDB88320);
      Literal(0xEDB88320, 0xEDB88320);
    }
  }

  lemma {:induction false} IterateMaps<A(!new), B>(f: A -> A, g: B -> B, to: A -> B, good: A -> bool, x: A, n: nat)
    requires good(x) && forall y :: good(y) ==> good(f(y)) && to(f(y)) == g(to(y))
    ensures good(ZipCipher.Iterate(f, x, n)) && to(ZipCipher.Iterate(f, x, n)) == ZipCipher.Iterate(g, to(x), n)
  {
    if n == 0 {
    } else {
      IterateMaps(f, g, to, good, x, n - 1);
    }
  }

  predicate Below32(v: nat) {
    v < RANGE32
  }

  lemma {:induction false} CrcBitsOfWord(v: nat, n: nat)
    requires v < RANGE32
    ensures ZipCipher.Iterate<nat>(CrcBit, v, n) < RANGE32
    ensures ToWord(ZipCipher.Iterate<nat>(CrcBit, v, n)) == ZipCipher.CrcBits(ToWord(v), n)
  {
    forall y: nat | Below32(y) ensures Below32(CrcBit(y)) && ToWord(CrcBit(y)) == ZipCipher.CrcBit(ToWord(y)) {
      CrcBitOfWord(y);
    }
    IterateMaps<nat, Word>(CrcBit, ZipCipher.CrcBit, ToWord, Below32, v, n);
  }

  lemma MixedIn(crc: Word, ch: Word)
    ensures ZipCipher.CrcByte(crc, ch) == ZipCipher.CrcBits(ZipCipher.Xor(crc, ch), 8)
  {
  }

  /** One byte into the register, as a number and as the program's vector. */
  lemma CrcByteOfWord(crc: nat, ch: byte)
    requires crc < RANGE32
    ensures CrcByte(crc, ch) < RANGE32
    ensures ToWord(CrcByte(crc, ch)) == ZipCipher.CrcByte(ToWord(crc), ToWord(ch))
  {
    XorBelow(crc, ch);
    XorOfWords(crc, ch);
    CrcBitsOfWord(Xor(crc, ch), 8);
    MixedIn(ToWord(crc), ToWord(ch));
  }

  lemma ByteIsWord(b: byte)
    ensures b as Word == ToWord(b)
  {
    ZipCrc.ToWordValue(b);
    ZipCipher.Back(ToWord(b));
  }

  lemma {:induction false} CrcBytesOfWord(crc: nat, data: seq<byte>)
    requires crc < RANGE32
    ensures CrcBytes(crc, data) < RANGE32
    ensures ToWord(CrcBytes(crc, data)) == ZipCrc.Fold(ZipCrc.BitwiseStep, ToWord(crc), data)
    decreases |data|
  {
    if data == [] {
    } else {
      CrcByteOfWord(crc, data[0]);
      ByteIsWord(data[0]);
      CrcBytesOfWord(CrcByte(crc, data[0]), data[1..]);
    }
  }

  lemma FlipOfWord(v: nat)
    requires v < RANGE32
    ensures Xor(v, 0xFFFF_FFFF) < RANGE32 && ZipCrc.Flip(ToWord(v)) == ToWord(Xor(v, 0xFFFF_FFFF))
  {
    XorBelow(v, 0xFFFF_FFFF);
    XorOfWords(v, 0xFFFF_FFFF);
    Literal(0xFFFF_FFFF, 0xFFFF_FFFF);
  }

  /** The checksum of the archive code is CRC-32, on every text and from every starting value. */
  lemma Crc32Exactly(data: seq<byte>, before: nat)
    ensures ZipCrc.Crc32With(ZipCrc.BitwiseStep)(data, before) == Crc32(data, before)
  {
    var start := Xor(before % RANGE32, 0xFFFF_FFFF);
    FlipOfWord(before % RANGE32);
    CrcBytesOfWord(start, data);
    FlipOfWord(CrcBytes(start, data));
    ZipCrc.ToWordValue(Crc32(data, before));
  }

  // The keys.

  ghost predicate Fits(k: Keys) {
    k.key0 < RANGE32 && k.key1 < RANGE32 && k.key2 < RANGE32
  }

  function ToKeys(k: Keys): ZipCipher.Keys {
    ZipCipher.Keys(ToWord(k.key0), ToWord(k.key1), ToWord(k.key2))
  }

  lemma ModStep(s: nat, m: nat)
    ensures ((s % RANGE32) * m + 1) % RANGE32 == (s * m + 1) % RANGE32
  {
    var q, r := s / RANGE32, s % RANGE32;
    var v := r * m + 1;
    assert s * m + 1 == (q * m + v / RANGE32) * RANGE32 + v % RANGE32 by {
      assert s * m == q * RANGE32 * m + r * m;
      assert q * RANGE32 * m == q * m * RANGE32;
    }
    DivUnique(s * m + 1, RANGE32, q * m + v / RANGE32, v % RANGE32);
  }

  lemma SumOfWords(a: nat, b: nat, s: nat)
    requires s == a + b % 256
    ensures ZipCipher.Masked(ZipCipher.Add(ToWord(a), ZipCipher.LowBits(ToWord(b)))) == ToWord(s % RANGE32)
  {
    LowByteIsMod(b);
    ToWordPlus(a, b % 256);
    MaskIsMod(s);
  }

  lemma ProductOfWords(s: nat, t: nat)
    requires t == s * 134775813 + 1
    ensures ZipCipher.Masked(ZipCipher.Add(ZipCipher.Multiply(ToWord(s), 134775813), 1)) == ToWord(t % RANGE32)
  {
    Literal(134775813, 134775813);
    ToWordTimes(s, 134775813);
    Literal(1, 1);
    ToWordPlus(s * 134775813, 1);
    MaskIsMod(t);
  }

  lemma NextKey1OfWord(a: nat, b: nat)
    ensures ZipCipher.NextKey1(ToWord(a), ToWord(b)) == ToWord(NextKey1(a, b))
  {
    var s := a + b % 256;
    SumOfWords(a, b, s);
    ProductOfWords(s % RANGE32, s % RANGE32 * 134775813 + 1);
    ModStep(s, 134775813);
  }

  lemma WidenOctet(y: Octet)
    ensures (y as Word) as int == y as int
  {
  }

  lemma OctetBack(y: Octet)
    ensures (y as int) as Octet == y
  {
  }

  lemma NarrowOctet(x: Word)
    requires x <= 0xFF
    ensures (x as Octet) as Word == x
  {
  }

  lemma OctetValue(b: byte, w: Word, y: Octet)
    requires w as int == b && w <= 0xFF && y == w as Octet
    ensures b as Octet == y && y as Word == w
  {
    NarrowOctet(w);
    WidenOctet(y);
    OctetBack(y);
  }

  function OctetOf(b: byte): Octet {
    b as Octet
  }

  lemma OctetIsWord(b: byte)
    ensures ToWord(b) <= 0xFF && ToWord(b) as Octet == OctetOf(b)
    ensures OctetOf(b) as Word == ToWord(b)
  {
    ZipCrc.ToWordValue(b);
    ByteWord(b);
    OctetValue(b, ToWord(b), ToWord(b) as Octet);
  }

  lemma UpdateParts(k: ZipCipher.Keys, c: Octet, w: Word, key0: Word, key1: Word, key2: Word)
    requires w == c as Word && key0 == ZipCipher.CrcByte(k.key0, w)
    requires key1 == ZipCipher.NextKey1(k.key1, key0) && key2 == ZipCipher.CrcByte(k.key2, ZipCipher.Top(key1))
    ensures ZipCipher.Update(k, c) == ZipCipher.Keys(key0, key1, key2)
  {
  }

  /** One update of the program is one of the application note. */
  lemma UpdateOfKeys(k: Keys, ch: byte)
    requires Fits(k)
    ensures Fits(UpdateKeys(k, ch)) && ToKeys(UpdateKeys(k, ch)) == ZipCipher.Update(ToKeys(k), OctetOf(ch))
  {
    OctetIsWord(ch);
    var key0 := CrcByte(k.key0, ch);
    var key1 := NextKey1(k.key1, key0);
    CrcByteOfWord(k.key0, ch);
    NextKey1OfWord(k.key1, key0);
    TopIsDiv(key1);
    CrcByteOfWord(k.key2, key1 / 0x100_0000);
    UpdateParts(ToKeys(k), OctetOf(ch), ToWord(ch), ToWord(key0), ToWord(key1),
                ToWord(CrcByte(k.key2, key1 / 0x100_0000)));
  }

  lemma XorOneParts(t: nat, h: nat, u: nat)
    requires t == 0x1_0000 * h + u
    ensures Xor(t, 1) == 0x1_0000 * h + Xor(u, 1)
  {
    XorOne(t);
    XorOne(u);
  }

  lemma ProductParts(h: nat, u: nat, w: nat)
    ensures (0x1_0000 * h + u) * (0x1_0000 * h + w) == 0x1_0000 * (h * w + u * h + 0x1_0000 * h * h) + u * w
  {
  }

  /** The second byte of a product depends only on the lowest two bytes of its factors. */
  lemma ShortProduct(t: nat, u: nat)
    requires u == t % 0x1_0000
    ensures t * Xor(t, 1) / 256 % 256 == u * Xor(u, 1) / 256 % 256
  {
    var h, w := t / 0x1_0000, Xor(u, 1);
    XorOneParts(t, h, u);
    ProductParts(h, u, w);
    SecondByteOf(t * Xor(t, 1), h * w + u * h + 0x1_0000 * h * h, u * w);
  }

  lemma SecondByteOf(v: nat, m: int, w: nat)
    requires v == 0x1_0000 * m + w
    ensures v / 256 % 256 == w / 256 % 256
  {
  }

  lemma SecondByteOfWord(v: nat)
    ensures ZipCipher.SecondByte(ToWord(v)) == OctetOf(v / 256 % 256)
  {
    MiddleByte(v);
    OctetIsWord(v / 256 % 256);
  }

  /** The byte of the key stream, from 64-bit arithmetic and from an unsigned short. */
  lemma StreamOfKeys(k: Keys)
    ensures ZipCipher.Stream(ToKeys(k)) == OctetOf(StreamByte(k))
  {
    var t := Or(k.key2, 2);
    Literal(1, 1);
    Literal(2, 2);
    OrOfWords(k.key2, 2);
    XorOfWords(t, 1);
    ToWordTimes(t, Xor(t, 1));
    SecondByteOfWord(t * Xor(t, 1));
    ShortProduct(t, t % 0x1_0000);
  }

  lemma WidenMix(a: Octet, b: Octet)
    ensures ZipCipher.Mix(a, b) as Word == ZipCipher.Xor(a as Word, b as Word)
  {
  }

  lemma SameOctet(a: Octet, b: Octet)
    requires a as Word == b as Word
    ensures a == b
  {
  }

  lemma OctetWidens(b: byte)
    ensures OctetOf(b) as Word == ToWord(b)
  {
    OctetIsWord(b);
  }

  lemma MixValue(x: Octet, y: Octet, z: Octet, a: Word, b: Word)
    requires x as Word == a && y as Word == b && z as Word == ZipCipher.Xor(a, b)
    ensures ZipCipher.Mix(x, y) == z
  {
    WidenMix(x, y);
    SameOctet(ZipCipher.Mix(x, y), z);
  }

  lemma MixOfWords(a: byte, b: byte, x: byte)
    requires ToWord(x) == ZipCipher.Xor(ToWord(a), ToWord(b))
    ensures ZipCipher.Mix(OctetOf(a), OctetOf(b)) == OctetOf(x)
  {
    OctetWidens(a);
    OctetWidens(b);
    OctetWidens(x);
    MixValue(OctetOf(a), OctetOf(b), OctetOf(x), ToWord(a), ToWord(b));
  }

  lemma MixOfBytes(a: byte, b: byte)
    ensures Xor(a, b) < 256 && ZipCipher.Mix(OctetOf(a), OctetOf(b)) == OctetOf(Xor(a, b))
  {
    ByteXor(a, b);
    XorOfWords(a, b);
    MixOfWords(a, b, Xor(a, b));
  }

  // Texts.

  function Octets(text: seq<byte>): (r: seq<Octet>)
    ensures |r| == |text|
    decreases |text|
  {
    if text == [] then [] else [OctetOf(text[0])] + Octets(text[1..])
  }

  lemma InitialKeys()
    ensures Fits(INITIAL) && ToKeys(INITIAL) == ZipCipher.INITIAL_KEYS
  {
    Literal(305419896, 305419896);
    Literal(591751049, 591751049);
    Literal(878082192, 878082192);
  }

  lemma {:induction false} UpdateAllOfKeys(k: Keys, text: seq<byte>)
    requires Fits(k)
    ensures Fits(UpdateAll(k, text))
    ensures ToKeys(UpdateAll(k, text)) == ZipCipher.UpdateAll(ZipCipher.PKWARE, ToKeys(k), Octets(text))
    decreases |text|
  {
    if text == [] {
    } else {
      UpdateOfKeys(k, text[0]);
      UpdateAllOfKeys(UpdateKeys(k, text[0]), text[1..]);
      assert Octets(text)[1..] == Octets(text[1..]);
    }
  }

  lemma {:induction false} PkwareNext(k: ZipCipher.Keys, o: Octet, text: seq<Octet>, m: Octet, next: ZipCipher.Keys)
    requires m == ZipCipher.Mix(o, ZipCipher.Stream(k)) && next == ZipCipher.Update(k, o)
    ensures ZipCipher.Encrypt(ZipCipher.PKWARE, k, [o] + text)
         == [m] + ZipCipher.Encrypt(ZipCipher.PKWARE, next, text)
  {
    assert ([o] + text)[1..] == text;
  }

  lemma {:induction false} EncryptOfKeys(k: Keys, plain: seq<byte>)
    requires Fits(k)
    ensures Octets(Encrypt(k, plain)) == ZipCipher.Encrypt(ZipCipher.PKWARE, ToKeys(k), Octets(plain))
    decreases |plain|
  {
    if plain == [] {
    } else {
      var s := StreamByte(k);
      StreamOfKeys(k);
      MixOfBytes(plain[0], s);
      UpdateOfKeys(k, plain[0]);
      var next := UpdateKeys(k, plain[0]);
      EncryptOfKeys(next, plain[1..]);
      PkwareNext(ToKeys(k), OctetOf(plain[0]), Octets(plain[1..]), OctetOf(Xor(plain[0], s)), ToKeys(next));
      assert Encrypt(k, plain)[1..] == Encrypt(next, plain[1..]);
    }
  }

  /** Decrypting gives the plain text of whatever was encrypted as the application note has it. */
  lemma {:induction false} DecryptsNote(password: seq<byte>, plain: seq<byte>)
    ensures var k := ZipCipher.UpdateAll(ZipCipher.PKWARE, ZipCipher.INITIAL_KEYS, Octets(password));
            var data := Octets(Encrypt(UpdateAll(INITIAL, password), plain));
            ZipCipher.Decrypt(ZipCipher.PKWARE, k, data) == Octets(plain)
  {
    InitialKeys();
    UpdateAllOfKeys(INITIAL, password);
    EncryptOfKeys(UpdateAll(INITIAL, password), plain);
    ZipCipher.PkwareDecryptEncrypt(Octets(password), Octets(plain));
  }

  /** The same by running the program's decrypter. */
  method DecryptNoted(password: seq<byte>, plain: seq<byte>) returns (r: seq<Octet>)
    ensures r == Octets(plain)
  {
    var decrypter := new ZipCipher.Decrypter(Octets(password));
    DecryptsNote(password, plain);
    r := decrypter.DecryptChunk(Octets(Encrypt(UpdateAll(INITIAL, password), plain)));
  }
}
