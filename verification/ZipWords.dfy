/** Bitwise operations on numbers, and that registers add, multiply and combine their bits as numbers do. */
module ZipWords {
  import opened Bits
  import ZipCipher
  import ZipCrc

  // Bits of numbers.

  function BitXor(i: nat, j: nat): nat {
    (i + j) % 2
  }

  function BitOr(i: nat, j: nat): nat {
    if i + j > 0 then 1 else 0
  }

  function Bitwise(op: (nat, nat) -> nat, a: nat, b: nat): nat {
    if a == 0 && b == 0 then 0 else 2 * Bitwise(op, a / 2, b / 2) + op(a % 2, b % 2)
  }

  function Xor(a: nat, b: nat): nat {
    Bitwise(BitXor, a, b)
  }

  function Or(a: nat, b: nat): nat {
    Bitwise(BitOr, a, b)
  }

  lemma {:induction false} BitwiseBelow(op: (nat, nat) -> nat, a: nat, b: nat, n: nat)
    requires a < Pow2(n) && b < Pow2(n) && forall i, j :: op(i, j) <= 1
    ensures Bitwise(op, a, b) < Pow2(n)
    decreases n
  {
    if a == 0 && b == 0 {
    } else {
      BitwiseBelow(op, a / 2, b / 2, n - 1);
    }
  }

  lemma {:induction false} XorZero(a: nat)
    ensures Xor(a, 0) == a
  {
    if a == 0 {
    } else {
      XorZero(a / 2);
    }
  }

  lemma XorOne(a: nat)
    ensures Xor(a, 1) == if a % 2 == 0 then a + 1 else a - 1
  {
    XorZero(a / 2);
  }

  // Registers count like numbers.

  type Word = ZipCipher.Word

  /** Doubling and counting of a kind of register, and its other operations. */
  ghost predicate Counts<W(!new)>(zero: W, even: W -> W, odd: W -> W, next: W -> W) {
    && even(zero) == zero
    && (forall x {:trigger odd(x)} :: odd(x) == next(even(x)))
    && (forall x {:trigger even(next(x))} :: even(next(x)) == next(next(even(x))))
  }

  lemma CountsIf<W(!new)>(zero: W, even: W -> W, odd: W -> W, next: W -> W)
    requires even(zero) == zero
    requires forall x {:trigger odd(x)} :: odd(x) == next(even(x))
    requires forall x {:trigger even(next(x))} :: even(next(x)) == next(next(even(x)))
    ensures Counts(zero, even, odd, next)
  {
  }

  lemma IterateNext<W>(f: W -> W, x: W, n: nat)
    ensures ZipCipher.Iterate(f, x, n + 1) == f(ZipCipher.Iterate(f, x, n))
  {
  }

  lemma {:induction false} CountDoubles<W(!new)>(zero: W, even: W -> W, odd: W -> W, next: W -> W, v: nat)
    requires Counts(zero, even, odd, next)
    ensures ZipCipher.Iterate(next, zero, 2 * v) == even(ZipCipher.Iterate(next, zero, v))
  {
    if v == 0 {
    } else {
      CountDoubles(zero, even, odd, next, v - 1);
      IterateNext(next, zero, v - 1);
      IterateNext(next, zero, 2 * v - 2);
      IterateNext(next, zero, 2 * v - 1);
      assert even(next(ZipCipher.Iterate(next, zero, v - 1))) == next(next(even(ZipCipher.Iterate(next, zero, v - 1))));
    }
  }

  /** Building a number bit by bit is counting up to it. */
  lemma {:induction false} BitsCount<W(!new)>(zero: W, even: W -> W, odd: W -> W, next: W -> W, v: nat)
    requires Counts(zero, even, odd, next)
    ensures ZipCrc.FromBits(zero, even, odd, v) == ZipCipher.Iterate(next, zero, v)
  {
    if v == 0 {
    } else {
      BitsCount(zero, even, odd, next, v / 2);
      CountDoubles(zero, even, odd, next, v / 2);
      if v % 2 == 1 {
        assert ZipCipher.Iterate(next, zero, v) == next(ZipCipher.Iterate(next, zero, 2 * (v / 2)));
      }
    }
  }

  lemma {:induction false} CountPlus<W(!new)>(zero: W, next: W -> W, plus: (W, W) -> W, a: nat, b: nat)
    requires forall x :: plus(x, zero) == x
    requires forall x, y {:trigger plus(x, next(y))} :: plus(x, next(y)) == next(plus(x, y))
    ensures ZipCipher.Iterate(next, zero, a + b)
         == plus(ZipCipher.Iterate(next, zero, a), ZipCipher.Iterate(next, zero, b))
  {
    if b == 0 {
    } else {
      CountPlus(zero, next, plus, a, b - 1);
    }
  }

  lemma TimesLess(a: nat, b: nat, p: nat)
    requires p == a * b && b > 0
    ensures p >= a && p - a == a * (b - 1)
  {
    assert a * (b - 1) >= 0;
  }

  lemma {:induction false} CountTimes<W(!new)>(
      zero: W, next: W -> W, plus: (W, W) -> W, times: (W, W) -> W, a: nat, b: nat, p: nat)
    requires p == a * b
    requires forall x :: plus(x, zero) == x
    requires forall x :: times(x, zero) == zero
    requires forall x, y {:trigger plus(x, next(y))} :: plus(x, next(y)) == next(plus(x, y))
    requires forall x, y {:trigger times(x, next(y))} :: times(x, next(y)) == plus(times(x, y), x)
    ensures ZipCipher.Iterate(next, zero, p)
         == times(ZipCipher.Iterate(next, zero, a), ZipCipher.Iterate(next, zero, b))
    decreases b
  {
    if b == 0 {
    } else {
      TimesLess(a, b, p);
      CountTimes(zero, next, plus, times, a, b - 1, p - a);
      CountPlus(zero, next, plus, p - a, a);
      IterateNext(next, zero, b - 1);
    }
  }

  function Double<W>(even: W -> W, odd: W -> W, x: W, i: nat): W {
    if i == 0 then even(x) else odd(x)
  }

  /** An operation on registers that does to each bit what another does to it. */
  ghost predicate ActsBitwise<W(!new)>(
      op: (nat, nat) -> nat, on: (W, W) -> W, zero: W, even: W -> W, odd: W -> W) {
    && even(zero) == zero && on(zero, zero) == zero && op(0, 0) == 0
    && (forall i, j :: op(i, j) <= 1)
    && forall x, y, i: nat, j: nat {:trigger on(Double(even, odd, x, i), Double(even, odd, y, j))} :: i < 2 && j < 2 ==>
         on(Double(even, odd, x, i), Double(even, odd, y, j)) == Double(even, odd, on(x, y), op(i, j))
  }

  /** The four ways to combine an even or odd register with another. */
  ghost predicate OnDoubles<W(!new)>(on: (W, W) -> W, even: W -> W, odd: W -> W, both: W -> W) {
    && (forall x, y {:trigger on(even(x), even(y))} :: on(even(x), even(y)) == even(on(x, y)))
    && (forall x, y {:trigger on(even(x), odd(y))} :: on(even(x), odd(y)) == odd(on(x, y)))
    && (forall x, y {:trigger on(odd(x), even(y))} :: on(odd(x), even(y)) == odd(on(x, y)))
    && (forall x, y {:trigger on(odd(x), odd(y))} :: on(odd(x), odd(y)) == both(on(x, y)))
  }

  lemma FourWays<W(!new)>(on: (W, W) -> W, even: W -> W, odd: W -> W, both: W -> W)
    requires forall x, y {:trigger on(even(x), even(y))} :: on(even(x), even(y)) == even(on(x, y))
    requires forall x, y {:trigger on(even(x), odd(y))} :: on(even(x), odd(y)) == odd(on(x, y))
    requires forall x, y {:trigger on(odd(x), even(y))} :: on(odd(x), even(y)) == odd(on(x, y))
    requires forall x, y {:trigger on(odd(x), odd(y))} :: on(odd(x), odd(y)) == both(on(x, y))
    ensures OnDoubles(on, even, odd, both)
  {
  }

  ghost predicate OnBits<W(!new)>(op: (nat, nat) -> nat, even: W -> W, odd: W -> W, both: W -> W) {
    && (forall i, j :: op(i, j) <= 1)
    && op(0, 0) == 0 && op(0, 1) == 1 && op(1, 0) == 1
    && (forall x :: both(x) == Double(even, odd, x, op(1, 1)))
  }

  lemma FourCases<W(!new)>(
      op: (nat, nat) -> nat, on: (W, W) -> W, zero: W, even: W -> W, odd: W -> W, both: W -> W)
    requires even(zero) == zero && on(zero, zero) == zero
    requires OnDoubles(on, even, odd, both) && OnBits(op, even, odd, both)
    ensures ActsBitwise(op, on, zero, even, odd)
  {
  }

  lemma {:induction false} FromBitsDoubles<W(!new)>(zero: W, even: W -> W, odd: W -> W, v: nat, i: nat)
    requires even(zero) == zero && i < 2
    ensures ZipCrc.FromBits(zero, even, odd, 2 * v + i) == Double(even, odd, ZipCrc.FromBits(zero, even, odd, v), i)
  {
  }

  lemma {:induction false} BitwiseActs<W(!new)>(
      op: (nat, nat) -> nat, on: (W, W) -> W, zero: W, even: W -> W, odd: W -> W, a: nat, b: nat)
    requires ActsBitwise(op, on, zero, even, odd)
    ensures ZipCrc.FromBits(zero, even, odd, Bitwise(op, a, b))
         == on(ZipCrc.FromBits(zero, even, odd, a), ZipCrc.FromBits(zero, even, odd, b))
  {
    if a == 0 && b == 0 {
    } else {
      BitwiseActs(op, on, zero, even, odd, a / 2, b / 2);
      FromBitsDoubles(zero, even, odd, a / 2, a % 2);
      FromBitsDoubles(zero, even, odd, b / 2, b % 2);
      FromBitsDoubles(zero, even, odd, Bitwise(op, a / 2, b / 2), op(a % 2, b % 2));
    }
  }

  // The register that holds a number.

  function ToWord(v: nat): Word {
    ZipCrc.ToWord(v)
  }

  function Next(x: Word): Word {
    x + 1
  }

  lemma OddIsNext(x: Word)
    ensures (x << 1) | 1 == (x << 1) + 1
  {
  }

  lemma DoubleNext(x: Word, p: Word)
    requires p == (x + 1) << 1
    ensures p == (x << 1) + 1 + 1
  {
  }

  lemma DoubleIsNext(x: Word, p: Word)
    requires p == (x + 1) << 1
    ensures p == Next(Next(x << 1))
  {
    DoubleNext(x, p);
  }

  lemma EvenOfNext(x: Word)
    ensures ZipCrc.Even(x + 1) == Next(Next(x << 1))
  {
    DoubleIsNext(x, ZipCrc.Even(x + 1));
  }

  lemma EvenNext(x: Word)
    ensures ZipCrc.Even(Next(x)) == Next(Next(ZipCrc.Even(x)))
  {
    EvenOfNext(x);
  }

  lemma AllOdd()
    ensures forall x :: ZipCrc.Odd(x) == Next(ZipCrc.Even(x))
  {
    forall x ensures ZipCrc.Odd(x) == Next(ZipCrc.Even(x)) {
      OddIsNext(x);
    }
  }

  lemma AllEven()
    ensures forall x :: ZipCrc.Even(Next(x)) == Next(Next(ZipCrc.Even(x)))
  {
    forall x ensures ZipCrc.Even(Next(x)) == Next(Next(ZipCrc.Even(x))) {
      EvenNext(x);
    }
  }

  lemma Associates(x: Word, y: Word, p: Word)
    requires p == x + (y + 1)
    ensures p == x + y + 1
  {
  }

  lemma AssociatesNext(x: Word, y: Word, p: Word)
    requires p == x + (y + 1)
    ensures p == Next(x + y)
  {
    Associates(x, y, p);
  }

  lemma PlusOfNext(x: Word, y: Word)
    ensures ZipCipher.Add(x, y + 1) == Next(x + y)
  {
    AssociatesNext(x, y, ZipCipher.Add(x, y + 1));
  }

  lemma PlusNext(x: Word, y: Word)
    ensures ZipCipher.Add(x, y + 1) == Next(ZipCipher.Add(x, y))
  {
    PlusOfNext(x, y);
  }

  lemma Distributes(x: Word, y: Word, p: Word)
    requires p == x * (y + 1)
    ensures p == x * y + x
  {
  }

  lemma DistributesPlus(x: Word, y: Word, p: Word)
    requires p == x * (y + 1)
    ensures p == ZipCipher.Add(x * y, x)
  {
    Distributes(x, y, p);
  }

  lemma TimesOfNext(x: Word, y: Word)
    ensures ZipCipher.Multiply(x, y + 1) == ZipCipher.Add(x * y, x)
  {
    DistributesPlus(x, y, ZipCipher.Multiply(x, y + 1));
  }

  lemma TimesNextWord(x: Word, y: Word)
    ensures ZipCipher.Multiply(x, y + 1) == ZipCipher.Add(ZipCipher.Multiply(x, y), x)
  {
    TimesOfNext(x, y);
  }

  lemma PlusZero(x: Word)
    ensures ZipCipher.Add(x, 0) == x
  {
  }

  lemma TimesZero(x: Word)
    ensures ZipCipher.Multiply(x, 0) == 0
  {
  }

  lemma PlusCounts(x: Word, y: Word)
    ensures ZipCipher.Add(x, Next(y)) == Next(ZipCipher.Add(x, y))
  {
    PlusNext(x, y);
  }

  lemma TimesCounts(x: Word, y: Word)
    ensures ZipCipher.Multiply(x, Next(y)) == ZipCipher.Add(ZipCipher.Multiply(x, y), x)
  {
    TimesNextWord(x, y);
  }

  lemma WordsAdd()
    ensures forall x, y :: ZipCipher.Add(x, Next(y)) == Next(ZipCipher.Add(x, y))
  {
    forall x, y ensures ZipCipher.Add(x, Next(y)) == Next(ZipCipher.Add(x, y)) {
      PlusCounts(x, y);
    }
  }

  lemma WordsMultiply()
    ensures forall x, y :: ZipCipher.Multiply(x, Next(y)) == ZipCipher.Add(ZipCipher.Multiply(x, y), x)
  {
    forall x, y ensures ZipCipher.Multiply(x, Next(y)) == ZipCipher.Add(ZipCipher.Multiply(x, y), x) {
      TimesCounts(x, y);
    }
  }

  lemma WordsZero()
    ensures forall x :: ZipCipher.Add(x, 0) == x
    ensures forall x :: ZipCipher.Multiply(x, 0) == 0
  {
    forall x ensures ZipCipher.Add(x, 0) == x {
      PlusZero(x);
    }
    forall x ensures ZipCipher.Multiply(x, 0) == 0 {
      TimesZero(x);
    }
  }

  lemma {:induction false} ToWordCounts(v: nat)
    ensures ToWord(v) == ZipCipher.Iterate(Next, 0, v)
  {
    NoBits();
    AllOdd();
    AllEven();
    CountsIf(0, ZipCrc.Even, ZipCrc.Odd, Next);
    BitsCount(0, ZipCrc.Even, ZipCrc.Odd, Next, v);
  }

  lemma ToWordPlus(a: nat, b: nat)
    ensures ToWord(a + b) == ZipCipher.Add(ToWord(a), ToWord(b))
  {
    ToWordCounts(a);
    ToWordCounts(b);
    ToWordCounts(a + b);
    WordsZero();
    WordsAdd();
    CountPlus(0, Next, ZipCipher.Add, a, b);
  }

  lemma {:induction false} CountedTimes(a: nat, b: nat)
    ensures ZipCipher.Iterate(Next, 0, a * b)
         == ZipCipher.Multiply(ZipCipher.Iterate(Next, 0, a), ZipCipher.Iterate(Next, 0, b))
  {
    WordsZero();
    WordsAdd();
    WordsMultiply();
    CountTimes(0, Next, ZipCipher.Add, ZipCipher.Multiply, a, b, a * b);
  }

  lemma ToWordTimes(a: nat, b: nat)
    ensures ToWord(a * b) == ZipCipher.Multiply(ToWord(a), ToWord(b))
  {
    ToWordCounts(a);
    ToWordCounts(b);
    ToWordCounts(a * b);
    CountedTimes(a, b);
  }

  lemma XorEvens(x: Word, y: Word)
    ensures ZipCipher.Xor(ZipCrc.Even(x), ZipCrc.Even(y)) == ZipCrc.Even(ZipCipher.Xor(x, y))
  {
  }

  lemma XorEvenOdd(x: Word, y: Word)
    ensures ZipCipher.Xor(ZipCrc.Even(x), ZipCrc.Odd(y)) == ZipCrc.Odd(ZipCipher.Xor(x, y))
  {
  }

  lemma XorOddEven(x: Word, y: Word)
    ensures ZipCipher.Xor(ZipCrc.Odd(x), ZipCrc.Even(y)) == ZipCrc.Odd(ZipCipher.Xor(x, y))
  {
  }

  lemma XorOdds(x: Word, y: Word)
    ensures ZipCipher.Xor(ZipCrc.Odd(x), ZipCrc.Odd(y)) == ZipCrc.Even(ZipCipher.Xor(x, y))
  {
  }

  lemma OrEvens(x: Word, y: Word)
    ensures ZipCipher.Or(ZipCrc.Even(x), ZipCrc.Even(y)) == ZipCrc.Even(ZipCipher.Or(x, y))
  {
  }

  lemma OrEvenOdd(x: Word, y: Word)
    ensures ZipCipher.Or(ZipCrc.Even(x), ZipCrc.Odd(y)) == ZipCrc.Odd(ZipCipher.Or(x, y))
  {
  }

  lemma OrOddEven(x: Word, y: Word)
    ensures ZipCipher.Or(ZipCrc.Odd(x), ZipCrc.Even(y)) == ZipCrc.Odd(ZipCipher.Or(x, y))
  {
  }

  lemma OrOdds(x: Word, y: Word)
    ensures ZipCipher.Or(ZipCrc.Odd(x), ZipCrc.Odd(y)) == ZipCrc.Odd(ZipCipher.Or(x, y))
  {
  }

  lemma NoBits()
    ensures ZipCrc.Even(0) == 0 && ZipCipher.Xor(0, 0) == 0 && ZipCipher.Or(0, 0) == 0
  {
  }

  lemma XorAllEvens()
    ensures forall x, y :: ZipCipher.Xor(ZipCrc.Even(x), ZipCrc.Even(y)) == ZipCrc.Even(ZipCipher.Xor(x, y))
  {
    forall x, y ensures ZipCipher.Xor(ZipCrc.Even(x), ZipCrc.Even(y)) == ZipCrc.Even(ZipCipher.Xor(x, y)) {
      XorEvens(x, y);
    }
  }

  lemma XorAllEvenOdd()
    ensures forall x, y :: ZipCipher.Xor(ZipCrc.Even(x), ZipCrc.Odd(y)) == ZipCrc.Odd(ZipCipher.Xor(x, y))
  {
    forall x, y ensures ZipCipher.Xor(ZipCrc.Even(x), ZipCrc.Odd(y)) == ZipCrc.Odd(ZipCipher.Xor(x, y)) {
      XorEvenOdd(x, y);
    }
  }

  lemma XorAllOddEven()
    ensures forall x, y :: ZipCipher.Xor(ZipCrc.Odd(x), ZipCrc.Even(y)) == ZipCrc.Odd(ZipCipher.Xor(x, y))
  {
    forall x, y ensures ZipCipher.Xor(ZipCrc.Odd(x), ZipCrc.Even(y)) == ZipCrc.Odd(ZipCipher.Xor(x, y)) {
      XorOddEven(x, y);
    }
  }

  lemma XorAllOdds()
    ensures forall x, y :: ZipCipher.Xor(ZipCrc.Odd(x), ZipCrc.Odd(y)) == ZipCrc.Even(ZipCipher.Xor(x, y))
  {
    forall x, y ensures ZipCipher.Xor(ZipCrc.Odd(x), ZipCrc.Odd(y)) == ZipCrc.Even(ZipCipher.Xor(x, y)) {
      XorOdds(x, y);
    }
  }

  lemma OrAllEvens()
    ensures forall x, y :: ZipCipher.Or(ZipCrc.Even(x), ZipCrc.Even(y)) == ZipCrc.Even(ZipCipher.Or(x, y))
  {
    forall x, y ensures ZipCipher.Or(ZipCrc.Even(x), ZipCrc.Even(y)) == ZipCrc.Even(ZipCipher.Or(x, y)) {
      OrEvens(x, y);
    }
  }

  lemma OrAllEvenOdd()
    ensures forall x, y :: ZipCipher.Or(ZipCrc.Even(x), ZipCrc.Odd(y)) == ZipCrc.Odd(ZipCipher.Or(x, y))
  {
    forall x, y ensures ZipCipher.Or(ZipCrc.Even(x), ZipCrc.Odd(y)) == ZipCrc.Odd(ZipCipher.Or(x, y)) {
      OrEvenOdd(x, y);
    }
  }

  lemma OrAllOddEven()
    ensures forall x, y :: ZipCipher.Or(ZipCrc.Odd(x), ZipCrc.Even(y)) == ZipCrc.Odd(ZipCipher.Or(x, y))
  {
    forall x, y ensures ZipCipher.Or(ZipCrc.Odd(x), ZipCrc.Even(y)) == ZipCrc.Odd(ZipCipher.Or(x, y)) {
      OrOddEven(x, y);
    }
  }

  lemma OrAllOdds()
    ensures forall x, y :: ZipCipher.Or(ZipCrc.Odd(x), ZipCrc.Odd(y)) == ZipCrc.Odd(ZipCipher.Or(x, y))
  {
    forall x, y ensures ZipCipher.Or(ZipCrc.Odd(x), ZipCrc.Odd(y)) == ZipCrc.Odd(ZipCipher.Or(x, y)) {
      OrOdds(x, y);
    }
  }

  lemma XorOnDoubles()
    ensures OnDoubles(ZipCipher.Xor, ZipCrc.Even, ZipCrc.Odd, ZipCrc.Even)
  {
    XorAllEvens();
    XorAllEvenOdd();
    XorAllOddEven();
    XorAllOdds();
    FourWays(ZipCipher.Xor, ZipCrc.Even, ZipCrc.Odd, ZipCrc.Even);
  }

  lemma XorOnBits()
    ensures OnBits(BitXor, ZipCrc.Even, ZipCrc.Odd, ZipCrc.Even)
  {
  }

  lemma XorActs()
    ensures ActsBitwise(BitXor, ZipCipher.Xor, 0, ZipCrc.Even, ZipCrc.Odd)
  {
    NoBits();
    XorOnDoubles();
    XorOnBits();
    FourCases(BitXor, ZipCipher.Xor, 0, ZipCrc.Even, ZipCrc.Odd, ZipCrc.Even);
  }

  lemma OrOnDoubles()
    ensures OnDoubles(ZipCipher.Or, ZipCrc.Even, ZipCrc.Odd, ZipCrc.Odd)
  {
    OrAllEvens();
    OrAllEvenOdd();
    OrAllOddEven();
    OrAllOdds();
    FourWays(ZipCipher.Or, ZipCrc.Even, ZipCrc.Odd, ZipCrc.Odd);
  }

  lemma OrOnBits()
    ensures OnBits(BitOr, ZipCrc.Even, ZipCrc.Odd, ZipCrc.Odd)
  {
  }

  lemma OrActs()
    ensures ActsBitwise(BitOr, ZipCipher.Or, 0, ZipCrc.Even, ZipCrc.Odd)
  {
    NoBits();
    OrOnDoubles();
    OrOnBits();
    FourCases(BitOr, ZipCipher.Or, 0, ZipCrc.Even, ZipCrc.Odd, ZipCrc.Odd);
  }

  lemma XorOfWords(a: nat, b: nat)
    ensures ToWord(Xor(a, b)) == ZipCipher.Xor(ToWord(a), ToWord(b))
  {
    XorActs();
    BitwiseActs(BitXor, ZipCipher.Xor, 0, ZipCrc.Even, ZipCrc.Odd, a, b);
  }

  lemma OrOfWords(a: nat, b: nat)
    ensures ToWord(Or(a, b)) == ZipCipher.Or(ToWord(a), ToWord(b))
  {
    OrActs();
    BitwiseActs(BitOr, ZipCipher.Or, 0, ZipCrc.Even, ZipCrc.Odd, a, b);
  }
}
