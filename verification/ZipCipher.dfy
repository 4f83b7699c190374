/**
 The table-driven CRC and the PKWARE stream cipher of bin/custom_zipfile.py (section 6.1 of the ZIP
 application note). Python's integers are 64-bit vectors here: the keys are shown to stay within 32
 bits, so that no sum or product of the program needs more.
 */
module ZipCipher {
  type Word = bv64
  type Octet = bv8

  const POLYNOMIAL: Word := 0xEDB88320
  const MASK: Word := 0xFFFF_FFFF

  /** One step of the bit-by-bit CRC. */
  function CrcBit(crc: Word): Word {
    if crc & 1 == 1 then (crc >> 1) ^ POLYNOMIAL else crc >> 1
  }

  function Iterate<T>(f: T -> T, x: T, n: nat): T {
    if n == 0 then x else f(Iterate(f, x, n - 1))
  }

  function CrcBits(crc: Word, n: nat): Word {
    Iterate(CrcBit, crc, n)
  }

  /** _gen_crc: eight bits. */
  method GenCrc(start: Word) returns (crc: Word)
    ensures crc == CrcBits(start, 8)
  {
    crc := start;
    for j := 0 to 8
      invariant crc == CrcBits(start, j)
    {
      if crc & 1 == 1 {
        crc := (crc >> 1) ^ POLYNOMIAL;
      } else {
        crc := crc >> 1;
      }
    }
  }

  /** The CRC of a byte as the standard has it: the byte is mixed in, then eight steps. */
  function CrcByte(crc: Word, ch: Word): Word {
    CrcBits(crc ^ ch, 8)
  }

  /** The table entry for a byte value. */
  function Entry(i: nat): Word
    requires i < 256
  {
    CrcBits(i as Word, 8)
  }

  predicate IsTable(table: seq<Word>) {
    |table| == 256 && forall i :: 0 <= i < 256 ==> table[i] == Entry(i)
  }

  /** The same for any number. */
  function EntryAt(i: int): Word {
    if 0 <= i < 256 then Entry(i) else 0
  }

  ghost predicate Tabulates<T>(table: seq<T>, f: int -> T) {
    forall i :: 0 <= i < |table| ==> table[i] == f(i)
  }

  lemma TabulatesNext<T>(table: seq<T>, f: int -> T, t: T)
    requires Tabulates(table, f) && t == f(|table|)
    ensures Tabulates(table + [t], f)
  {
  }

  method MakeEntry(i: nat) returns (crc: Word)
    requires i < 256
    ensures crc == Entry(i)
  {
    crc := GenCrc(i as Word);
  }

  method MakeTable() returns (table: seq<Word>)
    ensures IsTable(table)
  {
    table := [];
    for i := 0 to 256
      invariant |table| == i && Tabulates(table, EntryAt)
    {
      var crc := MakeEntry(i);
      TabulatesNext(table, EntryAt, crc);
      table := table + [crc];
    }
  }

  function LowByte(x: Word): (i: int)
    ensures 0 <= i < 256
  {
    LowByteBelow(x);
    (x & 0xFF) as int
  }

  lemma LowByteBelow(x: Word)
    ensures (x & 0xFF) as int < 256
  {
  }

  lemma LowByteBack(x: Word)
    ensures LowByte(x) as Word == x & 0xFF
  {
    Back(x & 0xFF);
  }

  lemma Back(y: Word)
    ensures (y as int) as Word == y
  {
  }

  /** crc32 of the cipher: one byte through the table. */
  function TableCrc(table: seq<Word>, ch: Word, crc: Word): Word
    requires |table| == 256
  {
    Shifted(crc, table[LowByte(crc ^ ch)])
  }

  function Shifted(crc: Word, entry: Word): Word {
    (crc >> 8) ^ entry
  }

  // The table computes the bit-by-bit CRC.

  predicate Odd(x: Word) {
    x & 1 == 1
  }

  lemma BothOdd(a: Word, b: Word)
    requires Odd(a) && Odd(b)
    ensures CrcBit(a ^ b) == CrcBit(a) ^ CrcBit(b)
  {
  }

  lemma FirstOdd(a: Word, b: Word)
    requires Odd(a) && !Odd(b)
    ensures CrcBit(a ^ b) == CrcBit(a) ^ CrcBit(b)
  {
  }

  lemma SecondOdd(a: Word, b: Word)
    requires !Odd(a) && Odd(b)
    ensures CrcBit(a ^ b) == CrcBit(a) ^ CrcBit(b)
  {
  }

  lemma NoneOdd(a: Word, b: Word)
    requires !Odd(a) && !Odd(b)
    ensures CrcBit(a ^ b) == CrcBit(a) ^ CrcBit(b)
  {
  }

  lemma CrcBitLinear(a: Word, b: Word)
    ensures CrcBit(a ^ b) == CrcBit(a) ^ CrcBit(b)
  {
    if Odd(a) {
      if Odd(b) {
        BothOdd(a, b);
      } else {
        FirstOdd(a, b);
      }
    } else if Odd(b) {
      SecondOdd(a, b);
    } else {
      NoneOdd(a, b);
    }
  }

  ghost predicate Linear<T(!new)>(f: T -> T, plus: (T, T) -> T) {
    forall a, b :: f(plus(a, b)) == plus(f(a), f(b))
  }

  lemma {:induction false} IterateLinear<T(!new)>(f: T -> T, plus: (T, T) -> T, a: T, b: T, n: nat)
    requires Linear(f, plus)
    ensures Iterate(f, plus(a, b), n) == plus(Iterate(f, a, n), Iterate(f, b, n))
  {
    if n == 0 {
    } else {
      IterateLinear(f, plus, a, b, n - 1);
    }
  }

  function Xor(a: Word, b: Word): Word {
    a ^ b
  }

  lemma CrcBitsLinear(a: Word, b: Word, n: nat)
    ensures CrcBits(Xor(a, b), n) == Xor(CrcBits(a, n), CrcBits(b, n))
  {
    forall x, y ensures CrcBit(Xor(x, y)) == Xor(CrcBit(x), CrcBit(y)) {
      CrcBitLinear(x, y);
    }
    IterateLinear(CrcBit, Xor, a, b, n);
  }

  lemma EvenBit(x: Word)
    requires x & 1 == 0
    ensures CrcBit(x) == x >> 1
  {
  }

  /** Eight steps on a value whose low byte is zero only shift it. */
  lemma HighBytesShift(x: Word)
    requires x & 0xFF == 0
    ensures CrcBits(x, 8) == x >> 8
  {
    var x1 := x >> 1;
    var x2 := x1 >> 1;
    var x3 := x2 >> 1;
    var x4 := x3 >> 1;
    var x5 := x4 >> 1;
    var x6 := x5 >> 1;
    var x7 := x6 >> 1;
    LowZeros(x);
    EvenBit(x);
    EvenBit(x1);
    EvenBit(x2);
    EvenBit(x3);
    EvenBit(x4);
    EvenBit(x5);
    EvenBit(x6);
    EvenBit(x7);
    assert CrcBits(x, 4) == x4 by {
      assert CrcBits(x, 2) == x2 by { assert CrcBits(x, 1) == x1; }
      assert CrcBits(x, 3) == x3;
    }
    assert CrcBits(x, 6) == x6 by { assert CrcBits(x, 5) == x5; }
    assert CrcBits(x, 8) == x7 >> 1 by { assert CrcBits(x, 7) == x7; }
  }

  lemma LowZeros(x: Word)
    requires x & 0xFF == 0
    ensures x & 1 == 0 && (x >> 1) & 1 == 0 && (x >> 1 >> 1) & 1 == 0 && (x >> 1 >> 1 >> 1) & 1 == 0
    ensures (x >> 1 >> 1 >> 1 >> 1) & 1 == 0 && (x >> 1 >> 1 >> 1 >> 1 >> 1) & 1 == 0
    ensures (x >> 1 >> 1 >> 1 >> 1 >> 1 >> 1) & 1 == 0 && (x >> 1 >> 1 >> 1 >> 1 >> 1 >> 1 >> 1) & 1 == 0
    ensures x >> 1 >> 1 >> 1 >> 1 >> 1 >> 1 >> 1 >> 1 == x >> 8
  {
  }

  lemma SplitLowByte(x: Word)
    ensures (x & 0xFF) ^ (x & 0xFFFF_FFFF_FFFF_FF00) == x
    ensures (x & 0xFFFF_FFFF_FFFF_FF00) & 0xFF == 0
    ensures (x & 0xFFFF_FFFF_FFFF_FF00) >> 8 == x >> 8
  {
  }

  lemma SplitCrc(x: Word)
    ensures CrcBits(x, 8) == Xor(CrcBits(x & 0xFF, 8), x >> 8)
  {
    SplitLowByte(x);
    CrcBitsLinear(x & 0xFF, x & 0xFFFF_FFFF_FFFF_FF00, 8);
    HighBytesShift(x & 0xFFFF_FFFF_FFFF_FF00);
  }

  lemma TableEntry(table: seq<Word>, x: Word)
    requires IsTable(table)
    ensures table[LowByte(x)] == CrcBits(x & 0xFF, 8)
  {
    LowByteBack(x);
  }

  lemma MixInTop(crc: Word, ch: Word, entry: Word)
    requires ch <= 0xFF
    ensures (crc >> 8) ^ entry == Xor(entry, (crc ^ ch) >> 8)
  {
  }

  /** With the right table entry, the shifted register is eight bit steps further. */
  lemma EntryStep(crc: Word, ch: Word, x: Word, entry: Word, whole: Word)
    requires ch <= 0xFF && x == crc ^ ch && whole == Xor(entry, x >> 8)
    ensures Shifted(crc, entry) == whole
  {
    MixInTop(crc, ch, entry);
  }

  lemma TableStep(table: seq<Word>, crc: Word, ch: Word, x: Word)
    requires IsTable(table) && ch <= 0xFF && x == crc ^ ch
    ensures Shifted(crc, table[LowByte(x)]) == CrcBits(x, 8)
  {
    TableEntry(table, x);
    SplitCrc(x);
    EntryStep(crc, ch, x, table[LowByte(x)], CrcBits(x, 8));
  }

  /** One table step is eight bit steps, for every register and every byte. */
  lemma TableIsBitwise(table: seq<Word>, ch: Word, crc: Word)
    requires IsTable(table) && ch <= 0xFF
    ensures TableCrc(table, ch, crc) == CrcByte(crc, ch)
  {
    TableStep(table, crc, ch, crc ^ ch);
  }

  // Stream ciphers whose state takes in the plain text.

  /** How the state moves on a plain byte, the byte that a state gives out, and how two bytes are mixed. */
  datatype Cipher<!K, !O> = Cipher(update: (K, O) -> K, stream: K -> O, mix: (O, O) -> O)

  ghost predicate Cancels<K(!new), O(!new)>(c: Cipher<K, O>) {
    forall p, s :: c.mix(c.mix(p, s), s) == p
  }

  function UpdateAll<K, O>(c: Cipher<K, O>, k: K, text: seq<O>): K
    decreases text
  {
    if text == [] then k else UpdateAll(c, c.update(k, text[0]), text[1..])
  }

  /** Encryption as section 6.1 of the application note has it: the state takes in the plain byte. */
  function Encrypt<K, O>(c: Cipher<K, O>, k: K, plain: seq<O>): (data: seq<O>)
    ensures |data| == |plain|
    decreases plain
  {
    if plain == [] then [] else [c.mix(plain[0], c.stream(k))] + Encrypt(c, c.update(k, plain[0]), plain[1..])
  }

  function Decrypt<K, O>(c: Cipher<K, O>, k: K, data: seq<O>): (plain: seq<O>)
    ensures |plain| == |data|
    decreases data
  {
    if data == [] then []
    else
      var p := c.mix(data[0], c.stream(k));
      [p] + Decrypt(c, c.update(k, p), data[1..])
  }

  /** Decryption undoes encryption and encryption undoes decryption, from every state. */
  lemma {:induction false} DecryptEncrypt<K(!new), O(!new)>(c: Cipher<K, O>, k: K, text: seq<O>)
    requires Cancels(c)
    ensures Decrypt(c, k, Encrypt(c, k, text)) == text
    ensures Encrypt(c, k, Decrypt(c, k, text)) == text
    decreases text
  {
    if text == [] {
    } else {
      var p := c.mix(text[0], c.stream(k));
      assert Encrypt(c, k, text)[1..] == Encrypt(c, c.update(k, text[0]), text[1..]);
      DecryptEncrypt(c, c.update(k, text[0]), text[1..]);
      assert Decrypt(c, k, text)[1..] == Decrypt(c, c.update(k, p), text[1..]);
      DecryptEncrypt(c, c.update(k, p), text[1..]);
    }
  }

  /** Decrypting in two pieces is decrypting the whole. */
  lemma {:induction false} DecryptChunks<K, O>(c: Cipher<K, O>, k: K, a: seq<O>, b: seq<O>)
    ensures Decrypt(c, k, a + b) == Decrypt(c, k, a) + Decrypt(c, UpdateAll(c, k, Decrypt(c, k, a)), b)
    decreases a
  {
    if a == [] {
      assert a + b == b;
    } else {
      var p := c.mix(a[0], c.stream(k));
      assert (a + b)[1..] == a[1..] + b;
      assert Decrypt(c, k, a)[1..] == Decrypt(c, c.update(k, p), a[1..]);
      DecryptChunks(c, c.update(k, p), a[1..], b);
    }
  }

  lemma {:induction false} DecryptNext<K, O>(c: Cipher<K, O>, k: K, data: seq<O>, i: nat)
    requires i < |data|
    ensures Decrypt(c, k, data[..i + 1])
         == Decrypt(c, k, data[..i]) + [c.mix(data[i], c.stream(UpdateAll(c, k, Decrypt(c, k, data[..i]))))]
  {
    assert data[..i + 1] == data[..i] + [data[i]];
    DecryptChunks(c, k, data[..i], [data[i]]);
    var k' := UpdateAll(c, k, Decrypt(c, k, data[..i]));
    assert Decrypt(c, k', [data[i]]) == [c.mix(data[i], c.stream(k'))];
  }

  lemma {:induction false} UpdateNext<K, O>(c: Cipher<K, O>, k: K, text: seq<O>, o: O)
    ensures UpdateAll(c, k, text + [o]) == c.update(UpdateAll(c, k, text), o)
    decreases text
  {
    if text == [] {
      assert text + [o] == [o];
      assert [o][1..] == [];
    } else {
      assert (text + [o])[1..] == text[1..] + [o];
      UpdateNext(c, c.update(k, text[0]), text[1..], o);
    }
  }

  lemma PrefixNext<O>(s: seq<O>, i: nat)
    requires i < |s|
    ensures s[..i + 1] == s[..i] + [s[i]]
  {
  }

  // The PKWARE cipher.

  datatype Keys = Keys(key0: Word, key1: Word, key2: Word)

  const INITIAL_KEYS := Keys(305419896, 591751049, 878082192)

  predicate Within32(k: Keys) {
    k.key0 <= MASK && k.key1 <= MASK && k.key2 <= MASK
  }

  // The arithmetic of the registers, named: the verifier does not see through nested vector operations.

  function Add(x: Word, y: Word): Word {
    x + y
  }

  function Multiply(x: Word, y: Word): Word {
    x * y
  }

  function Or(x: Word, y: Word): Word {
    x | y
  }

  function Masked(x: Word): Word {
    x & MASK
  }

  function LowBits(x: Word): Word {
    x & 0xFF
  }

  function NextKey1(key1: Word, key0: Word): Word {
    var sum := Masked(Add(key1, LowBits(key0)));
    Masked(Add(Multiply(sum, 134775813), 1))
  }

  function Top(key1: Word): Word {
    key1 >> 24
  }

  /** update_keys, for a way to take a byte into a register and a way to move the second key on. */
  function UpdateWith(crc: (Word, Word) -> Word, next1: (Word, Word) -> Word, top: Word -> Word,
      k: Keys, c: Word): Keys {
    var key0 := crc(k.key0, c);
    var key1 := next1(k.key1, key0);
    Keys(key0, key1, crc(k.key2, top(key1)))
  }

  function Update(k: Keys, c: Octet): Keys {
    UpdateWith(CrcByte, NextKey1, Top, k, c as Word)
  }

  /** The byte that the next byte is mixed with. */
  function Stream(k: Keys): Octet {
    var t := Or(k.key2, 2);
    SecondByte(Multiply(t, Xor(t, 1)))
  }

  function SecondByte(x: Word): Octet {
    LastByte(x >> 8);
    ((x >> 8) & 0xFF) as Octet
  }

  function Mix(p: Octet, s: Octet): Octet {
    p ^ s
  }

  const PKWARE: Cipher<Keys, Octet> := Cipher(Update, Stream, Mix)

  lemma LastByte(x: Word)
    ensures x & 0xFF <= 0xFF
  {
  }

  lemma PkwareCancels()
    ensures Cancels(PKWARE)
  {
    forall p, s ensures PKWARE.mix(PKWARE.mix(p, s), s) == p {
      MixCancels(p, s);
    }
  }

  lemma MixCancels(p: Octet, s: Octet)
    ensures Mix(Mix(p, s), s) == p
  {
  }

  /** For every password and every text: decrypting what was encrypted gives the text back. */
  lemma {:induction false} PkwareDecryptEncrypt(password: seq<Octet>, plain: seq<Octet>)
    ensures var k := UpdateAll(PKWARE, INITIAL_KEYS, password);
            Decrypt(PKWARE, k, Encrypt(PKWARE, k, plain)) == plain
  {
    PkwareCancels();
    DecryptEncrypt(PKWARE, UpdateAll(PKWARE, INITIAL_KEYS, password), plain);
  }

  lemma CrcBitWithin32(x: Word)
    requires x <= MASK
    ensures CrcBit(x) <= MASK
  {
  }

  lemma {:induction false} IterateKeeps<T(!new)>(f: T -> T, keeps: T -> bool, x: T, n: nat)
    requires keeps(x) && forall y :: keeps(y) ==> keeps(f(y))
    ensures keeps(Iterate(f, x, n))
  {
    if n == 0 {
    } else {
      IterateKeeps(f, keeps, x, n - 1);
    }
  }

  predicate Small(x: Word) {
    x <= MASK
  }

  lemma CrcByteWithin32(crc: Word, ch: Word)
    requires crc <= MASK && ch <= MASK
    ensures CrcByte(crc, ch) <= MASK
  {
    XorWithin32(crc, ch);
    forall y | Small(y) ensures Small(CrcBit(y)) {
      CrcBitWithin32(y);
    }
    IterateKeeps(CrcBit, Small, crc ^ ch, 8);
  }

  lemma XorWithin32(a: Word, b: Word)
    requires a <= MASK && b <= MASK
    ensures a ^ b <= MASK
  {
  }

  lemma MaskWithin32(a: Word)
    ensures Masked(a) <= MASK
  {
  }

  lemma TopByte(a: Word)
    requires a <= MASK
    ensures Top(a) <= 0xFF
  {
  }

  lemma OctetWord(c: Octet)
    ensures c as Word <= 0xFF
  {
  }

  lemma NextKey1Within32(key1: Word, key0: Word)
    ensures NextKey1(key1, key0) <= MASK
  {
    MaskWithin32(Add(Multiply(Masked(Add(key1, LowBits(key0))), 134775813), 1));
  }

  predicate IsByte(x: Word) {
    x <= 0xFF
  }

  /** What the keys' invariant needs of the three operations. */
  ghost predicate KeepsSmall(crc: (Word, Word) -> Word, next1: (Word, Word) -> Word, top: Word -> Word) {
    && (forall a, b :: Small(a) && IsByte(b) ==> Small(crc(a, b)))
    && (forall a, b :: Small(next1(a, b)))
    && (forall a :: Small(a) ==> IsByte(top(a)))
  }

  lemma UpdateWithKeeps(crc: (Word, Word) -> Word, next1: (Word, Word) -> Word, top: Word -> Word, k: Keys, c: Word)
    requires KeepsSmall(crc, next1, top) && IsByte(c)
    requires Small(k.key0) && Small(k.key2)
    ensures var n := UpdateWith(crc, next1, top, k, c); Small(n.key0) && Small(n.key1) && Small(n.key2)
  {
  }

  lemma OperationsKeepSmall()
    ensures KeepsSmall(CrcByte, NextKey1, Top)
  {
    forall a, b | Small(a) && IsByte(b) ensures Small(CrcByte(a, b)) {
      ByteSmall(b);
      CrcByteWithin32(a, b);
    }
    forall a, b ensures Small(NextKey1(a, b)) {
      NextKey1Within32(a, b);
    }
    forall a | Small(a) ensures IsByte(Top(a)) {
      TopByte(a);
    }
  }

  lemma ByteSmall(b: Word)
    requires IsByte(b)
    ensures b <= MASK
  {
  }

  /** Updating keeps the three keys within 32 bits. */
  lemma UpdateWithin32(k: Keys, c: Octet)
    requires Within32(k)
    ensures Within32(Update(k, c))
  {
    OctetWord(c);
    OperationsKeepSmall();
    UpdateWithKeeps(CrcByte, NextKey1, Top, k, c as Word);
  }

  function TableStepOf(table: seq<Word>): (Word, Word) -> Word
    requires |table| == 256
  {
    (crc: Word, ch: Word) => TableCrc(table, ch, crc)
  }

  lemma UpdateWithSame(
      f: (Word, Word) -> Word, g: (Word, Word) -> Word, next1: (Word, Word) -> Word, top: Word -> Word,
      k: Keys, c: Word)
    requires forall a, b :: IsByte(b) ==> f(a, b) == g(a, b)
    requires IsByte(c) && forall a, b :: IsByte(top(next1(a, b)))
    ensures UpdateWith(f, next1, top, k, c) == UpdateWith(g, next1, top, k, c)
  {
  }

  /** Updating through the table is updating with the bit-by-bit CRC. */
  lemma TableUpdate(table: seq<Word>, k: Keys, c: Octet)
    requires IsTable(table)
    ensures UpdateWith(TableStepOf(table), NextKey1, Top, k, c as Word) == Update(k, c)
  {
    forall a, b | IsByte(b) ensures TableStepOf(table)(a, b) == CrcByte(a, b) {
      TableIsBitwise(table, b, a);
    }
    forall a, b ensures IsByte(Top(NextKey1(a, b))) {
      NextKey1Within32(a, b);
      TopByte(NextKey1(a, b));
    }
    OctetWord(c);
    UpdateWithSame(TableStepOf(table), CrcByte, NextKey1, Top, k, c as Word);
  }

  /** _ZipDecrypter: the keys are the variables that the inner functions share. */
  class Decrypter {
    var key0: Word
    var key1: Word
    var key2: Word
    const table: seq<Word>

    constructor (password: seq<Octet>)
      ensures Valid() && CurrentKeys() == UpdateAll(PKWARE, INITIAL_KEYS, password)
    {
      key0, key1, key2 := 305419896, 591751049, 878082192;
      var t := MakeTable();
      table := t;
      new;
      TakeIn(password);
    }

    /** The loop over the password. */
    method TakeIn(password: seq<Octet>)
      requires Valid()
      modifies this
      ensures Valid() && CurrentKeys() == UpdateAll(PKWARE, old(CurrentKeys()), password)
    {
      ghost var k := CurrentKeys();
      var i := 0;
      while i < |password|
        invariant i <= |password| && Valid()
        invariant CurrentKeys() == UpdateAll(PKWARE, k, password[..i])
      {
        UpdateNext(PKWARE, k, password[..i], password[i]);
        PrefixNext(password, i);
        UpdateKeys(password[i]);
        i := i + 1;
      }
      assert password[..i] == password;
    }

    function CurrentKeys(): Keys
      reads this
    {
      Keys(key0, key1, key2)
    }

    ghost predicate Valid()
      reads this
    {
      IsTable(table) && Within32(CurrentKeys())
    }

    method UpdateKeys(c: Octet)
      requires Valid()
      modifies this
      ensures Valid() && CurrentKeys() == PKWARE.update(old(CurrentKeys()), c)
    {
      UpdateWithin32(CurrentKeys(), c);
      TableUpdate(table, CurrentKeys(), c);
      var crc32 := TableStepOf(table);
      key0 := crc32(key0, c as Word);
      key1 := NextKey1(key1, key0);
      key2 := crc32(key2, Top(key1));
    }

    /** The inner function: decrypts one chunk and is ready for the next. */
    method DecryptChunk(data: seq<Octet>) returns (plain: seq<Octet>)
      requires Valid()
      modifies this
      ensures Valid() && plain == Decrypt(PKWARE, old(CurrentKeys()), data)
      ensures CurrentKeys() == UpdateAll(PKWARE, old(CurrentKeys()), plain)
    {
      plain := [];
      ghost var keys := CurrentKeys();
      var i := 0;
      while i < |data|
        invariant i <= |data| && Valid()
        invariant plain == Decrypt(PKWARE, keys, data[..i]) && CurrentKeys() == UpdateAll(PKWARE, keys, plain)
      {
        var c := PKWARE.mix(data[i], PKWARE.stream(CurrentKeys()));
        DecryptNext(PKWARE, keys, data, i);
        UpdateNext(PKWARE, keys, plain, c);
        UpdateKeys(c);
        plain := plain + [c];
        i := i + 1;
      }
      assert data[..i] == data;
    }
  }
}
