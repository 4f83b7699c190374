/** CRC-32 as zlib has it is a checksum of the kind that the archive code relies on. */
module ZipCrc {
  import opened Bits
  import ZipStruct
  import ZipArchive
  import ZipCipher

  function Fold<S>(step: (S, byte) -> S, s: S, data: seq<byte>): S {
    if data == [] then s else Fold(step, step(s, data[0]), data[1..])
  }

  lemma {:induction false} FoldConcat<S>(step: (S, byte) -> S, s: S, a: seq<byte>, b: seq<byte>)
    ensures Fold(step, s, a + b) == Fold(step, Fold(step, s, a), b)
    decreases |a|
  {
    if a == [] {
      assert a + b == b;
    } else {
      assert (a + b)[1..] == a[1..] + b;
      FoldConcat(step, step(s, a[0]), a[1..], b);
    }
  }

  lemma {:induction false} FoldKeeps<S(!new)>(step: (S, byte) -> S, good: S -> bool, s: S, data: seq<byte>)
    requires good(s) && forall x, b :: good(x) ==> good(step(x, b))
    ensures good(Fold(step, s, data))
    decreases |data|
  {
    if data == [] {
    } else {
      FoldKeeps(step, good, step(s, data[0]), data[1..]);
    }
  }

  /** How a number goes into a register and comes out of it. */
  ghost predicate Register<S(!new)>(step: (S, byte) -> S, enter: nat -> S, leave: S -> nat, good: S -> bool) {
    && (forall x, b :: good(x) ==> good(step(x, b)))
    && (forall v: nat :: good(enter(v)))
    && (forall x :: good(x) ==> leave(x) <= ZipStruct.MAX32 && enter(leave(x)) == x)
    && (forall v: nat :: v <= ZipStruct.MAX32 ==> leave(enter(v)) == v)
  }

  function RegisterChecksum<S>(step: (S, byte) -> S, enter: nat -> S, leave: S -> nat): ZipArchive.Checksum {
    (data: seq<byte>, v: nat) => leave(Fold(step, enter(v), data))
  }

  /** Any such register gives a checksum that can be taken piece by piece. */
  lemma RegistersAreIncremental<S(!new)>(step: (S, byte) -> S, enter: nat -> S, leave: S -> nat, good: S -> bool)
    requires Register(step, enter, leave, good)
    ensures ZipArchive.Incremental(RegisterChecksum(step, enter, leave))
  {
    var f := RegisterChecksum(step, enter, leave);
    forall a, b, v: nat | ZipArchive.Pieces(a, b, v) ensures f(b, f(a, v)) == f(a + b, v) {
      FoldConcat(step, enter(v), a, b);
      FoldKeeps(step, good, enter(v), a);
    }
    forall v: nat | v <= ZipStruct.MAX32 ensures f([], v) == v {
      assert f([], v) == leave(Fold(step, enter(v), [])) == leave(enter(v));
    }
    forall a, v: nat ensures f(a, v) <= ZipStruct.MAX32 {
      FoldKeeps(step, good, enter(v), a);
    }
  }

  // CRC-32: the register is complemented on the way in and on the way out.

  type Word = ZipCipher.Word

  const RANGE32 := 0x1_0000_0000

  function WordOf(b: byte): (w: Word)
    ensures w <= 0xFF
  {
    SmallWord(b);
    b as Word
  }

  lemma SmallWord(b: byte)
    ensures b as Word <= 0xFF
  {
  }

  /** One byte, bit by bit. */
  function BitwiseStep(x: Word, b: byte): Word {
    ZipCipher.CrcByte(x, WordOf(b))
  }

  /** One byte through the table. */
  function TableStep(table: seq<Word>): (Word, byte) -> Word
    requires |table| == 256
  {
    (x: Word, b: byte) => ZipCipher.TableCrc(table, WordOf(b), x)
  }

  lemma {:induction false} FoldSame<S(!new)>(f: (S, byte) -> S, g: (S, byte) -> S, s: S, data: seq<byte>)
    requires forall x, b :: f(x, b) == g(x, b)
    ensures Fold(f, s, data) == Fold(g, s, data)
    decreases |data|
  {
    if data == [] {
    } else {
      FoldSame(f, g, f(s, data[0]), data[1..]);
    }
  }

  /** On every byte string and from every register, the table computes the bit-by-bit CRC. */
  lemma {:induction false} TableIsBitwise(table: seq<Word>, crc: Word, data: seq<byte>)
    requires ZipCipher.IsTable(table)
    ensures Fold(TableStep(table), crc, data) == Fold(BitwiseStep, crc, data)
  {
    forall x, b ensures TableStep(table)(x, b) == BitwiseStep(x, b) {
      ZipCipher.TableIsBitwise(table, WordOf(b), x);
    }
    FoldSame(TableStep(table), BitwiseStep, crc, data);
  }

  /** A number, bit by bit: the verifier knows little about conversions from integers to registers. */
  function FromBits<W>(zero: W, even: W -> W, odd: W -> W, v: nat): W {
    if v == 0 then zero
    else if v % 2 == 0 then even(FromBits(zero, even, odd, v / 2))
    else odd(FromBits(zero, even, odd, v / 2))
  }

  ghost predicate Doubles<W(!new)>(zero: W, even: W -> W, odd: W -> W, value: W -> nat) {
    && value(zero) == 0
    && forall y :: value(y) < RANGE32 / 2 ==> value(even(y)) == 2 * value(y) && value(odd(y)) == 2 * value(y) + 1
  }

  lemma {:induction false} FromBitsValue<W(!new)>(zero: W, even: W -> W, odd: W -> W, value: W -> nat, v: nat)
    requires Doubles(zero, even, odd, value) && v < RANGE32
    ensures value(FromBits(zero, even, odd, v)) == v
  {
    if v == 0 {
    } else {
      FromBitsValue(zero, even, odd, value, v / 2);
    }
  }

  function Even(x: Word): Word {
    x << 1
  }

  function Odd(x: Word): Word {
    (x << 1) | 1
  }

  function Value(x: Word): nat {
    x as nat
  }

  function ToWord(v: nat): Word {
    FromBits(0, Even, Odd, v)
  }

  lemma EvenValue(y: Word)
    requires y < 0x8000_0000
    ensures (y << 1) as int == 2 * (y as int)
  {
  }

  lemma OddValue(y: Word)
    requires y < 0x8000_0000
    ensures ((y << 1) | 1) as int == 2 * (y as int) + 1
  {
  }

  lemma Below31(y: Word)
    requires y as int < 0x8000_0000
    ensures y < 0x8000_0000
  {
  }

  lemma Below32(y: Word)
    requires y as int < RANGE32
    ensures ZipCipher.Small(y)
  {
  }

  /** Half as many bits are enough for a small register. */
  lemma HalfWord(y: Word)
    requires y <= 0xFFFF_FFFF
    ensures (y as bv32) as Word == y
  {
  }

  lemma HalfValue(z: bv32)
    ensures (z as Word) as int == z as int
  {
  }

  lemma HalfBelow(z: bv32)
    ensures z as int < 0x1_0000_0000
  {
  }

  lemma ValueOfHalf(y: Word, z: bv32)
    requires z as Word == y
    ensures y as int < 0x1_0000_0000
  {
    HalfValue(z);
    HalfBelow(z);
  }

  lemma SameValue(x: Word, y: Word)
    requires x as int == y as int
    ensures x == y
  {
    ZipCipher.Back(x);
    ZipCipher.Back(y);
  }

  lemma WordDoubles()
    ensures Doubles(0, Even, Odd, Value)
  {
    forall y: Word | Value(y) < RANGE32 / 2
      ensures Value(Even(y)) == 2 * Value(y) && Value(Odd(y)) == 2 * Value(y) + 1
    {
      Below31(y);
      EvenValue(y);
      OddValue(y);
    }
  }

  lemma ToWordValue(v: nat)
    requires v < RANGE32
    ensures Value(ToWord(v)) == v && ZipCipher.Small(ToWord(v))
  {
    WordDoubles();
    FromBitsValue(0, Even, Odd, Value, v);
    Below32(ToWord(v));
  }

  lemma FromWordValue(y: Word)
    requires ZipCipher.Small(y)
    ensures Value(y) < RANGE32 && ToWord(Value(y)) == y
  {
    HalfWord(y);
    ValueOfHalf(y, y as bv32);
    ToWordValue(Value(y));
    SameValue(ToWord(Value(y)), y);
  }

  function Flip(x: Word): Word {
    x ^ ZipCipher.MASK
  }

  lemma FlipTwice(x: Word)
    ensures Flip(Flip(x)) == x
    ensures ZipCipher.Small(x) ==> ZipCipher.Small(Flip(x))
  {
  }

  /** Numbers below 2^32 and small registers are the same, and complementing a register twice does nothing. */
  ghost predicate Converts<W(!new)>(to: nat -> W, value: W -> nat, flip: W -> W, small: W -> bool) {
    && (forall v: nat :: v < RANGE32 ==> small(to(v)) && value(to(v)) == v)
    && (forall y :: small(y) ==> value(y) < RANGE32 && to(value(y)) == y)
    && (forall x :: flip(flip(x)) == x && (small(x) ==> small(flip(x))))
  }

  function EnterBy<W>(to: nat -> W, flip: W -> W): nat -> W {
    (v: nat) => flip(to(v % RANGE32))
  }

  function LeaveBy<W>(value: W -> nat, flip: W -> W): W -> nat {
    (x: W) => value(flip(x))
  }

  lemma ConvertsRegister<W(!new)>(
      step: (W, byte) -> W, to: nat -> W, value: W -> nat, flip: W -> W, small: W -> bool)
    requires Converts(to, value, flip, small) && forall x, b :: small(x) ==> small(step(x, b))
    ensures Register(step, EnterBy(to, flip), LeaveBy(value, flip), small)
  {
  }

  lemma WordConverts()
    ensures Converts(ToWord, Value, Flip, ZipCipher.Small)
  {
    forall v: nat | v < RANGE32 ensures ZipCipher.Small(ToWord(v)) && Value(ToWord(v)) == v {
      ToWordValue(v);
    }
    forall y | ZipCipher.Small(y) ensures Value(y) < RANGE32 && ToWord(Value(y)) == y {
      FromWordValue(y);
    }
    forall x ensures Flip(Flip(x)) == x && (ZipCipher.Small(x) ==> ZipCipher.Small(Flip(x))) {
      FlipTwice(x);
    }
  }

  /** crc32 of zlib, for a way to take one byte into the register. */
  function Crc32With(step: (Word, byte) -> Word): ZipArchive.Checksum {
    RegisterChecksum(step, EnterBy(ToWord, Flip), LeaveBy(Value, Flip))
  }

  /** The checksum that the archive code relies on exists: CRC-32 is one. */
  lemma Crc32IsIncremental()
    ensures ZipArchive.Incremental(Crc32With(BitwiseStep))
  {
    forall x, b | ZipCipher.Small(x) ensures ZipCipher.Small(BitwiseStep(x, b)) {
      ZipCipher.CrcByteWithin32(x, WordOf(b));
    }
    WordConverts();
    ConvertsRegister(BitwiseStep, ToWord, Value, Flip, ZipCipher.Small);
    RegistersAreIncremental(BitwiseStep, EnterBy(ToWord, Flip), LeaveBy(Value, Flip), ZipCipher.Small);
  }

  /** It is the same checksum through the table. */
  lemma Crc32ThroughTable(table: seq<Word>, data: seq<byte>, v: nat)
    requires ZipCipher.IsTable(table)
    ensures Crc32With(TableStep(table))(data, v) == Crc32With(BitwiseStep)(data, v)
  {
    TableIsBitwise(table, EnterBy(ToWord, Flip)(v), data);
  }
}
