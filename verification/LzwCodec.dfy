/**
 The LZW filter of section 7.4.4.2 of ISO 32000-1: what the decoder in bin/pdf-parser.py computes,
 as a function of its state, an independent encoder, and the proof that the one undoes the other.
 */
module LzwCodec {
  import opened Bits
  import opened Wrappers

  const CLEAR := 256
  const END_OF_DATA := 257

  type Phrase = seq<byte>

  datatype Error = NoSuchEntry

  /** The decoder's fields other than its bit buffer. A table or prevbuf that is still None is empty here. */
  datatype State = State(table: seq<Phrase>, prevbuf: Phrase, nbits: nat)

  const START := State([], [], 9)

  /** One entry for each byte, then the two placeholders at 256 and 257. */
  function InitialTable(): (t: seq<Phrase>)
    ensures |t| == 258
    ensures forall i :: 0 <= i < 256 ==> t[i] == [i]
    ensures t[256] == [] && t[257] == []
  {
    seq(258, i requires 0 <= i < 258 => if i < 256 then [i] else [])
  }

  predicate ValidTable(table: seq<Phrase>) {
    && |table| >= 258
    && forall i :: 0 <= i < |table| ==> (table[i] == [] <==> i == CLEAR || i == END_OF_DATA)
  }

  function WidthFor(entries: nat): (w: nat)
    ensures 9 <= w <= 12
  {
    if entries < 511 then 9 else if entries < 1023 then 10 else if entries < 2047 then 11 else 12
  }

  predicate ValidState(st: State) {
    && (st.table == [] ==> st.prevbuf == [])
    && (st.table != [] ==> ValidTable(st.table))
    && st.nbits == WidthFor(|st.table|)
  }

  /** The width that a table of just this size switches to; any other size keeps the old one. */
  function Switched(entries: nat, nbits: nat): nat {
    if entries == 511 then 10 else if entries == 1023 then 11 else if entries == 2047 then 12 else nbits
  }

  /** One code through the decoder: the new state and the bytes put out. */
  function Feed(st: State, code: nat): (r: Result<(State, Phrase), Error>)
    requires ValidState(st)
    ensures r.Ok? ==> ValidState(r.value.0)
  {
    if code == CLEAR then Ok((State(InitialTable(), [], 9), []))
    else if code == END_OF_DATA then Ok((st, []))
    else if st.prevbuf == [] then
      if code < |st.table| then Ok((st.(prevbuf := st.table[code]), st.table[code])) else Err(NoSuchEntry)
    else
      var entry := st.prevbuf + [if code < |st.table| then st.table[code][0] else st.prevbuf[0]];
      var table := st.table + [entry];
      if code < |table| then
        Ok((State(table, table[code], Switched(|table|, st.nbits)), table[code]))
      else Err(NoSuchEntry)
  }

  /** The whole run over a bit string: it stops when too few bits for a code are left. */
  function Run(bits: seq<bit>, st: State): (r: Result<seq<byte>, Error>)
    requires ValidState(st)
    decreases |bits|
  {
    if |bits| < st.nbits then Ok([])
    else
      match Feed(st, BitsVal(bits[..st.nbits]))
      case Err(e) => Err(e)
      case Ok((next, x)) =>
        Prepend(x, Run(bits[st.nbits..], next))
  }

  // The encoder of section 7.4.4.2, written from the standard.

  datatype Code = Code(value: nat, width: nat)

  /** The longest table entry below k that the text starts with. */
  function LongestBelow(table: seq<Phrase>, text: seq<byte>, k: nat): (c: nat)
    requires ValidTable(table) && text != [] && 256 <= k <= |table|
    requires forall i :: 0 <= i < 256 ==> table[i] == [i]
    ensures c < k && c != CLEAR && c != END_OF_DATA
    ensures table[c] <= text
    ensures forall i :: 0 <= i < k && table[i] <= text ==> |table[i]| <= |table[c]|
  {
    if k == 256 then text[0]
    else
      var c := LongestBelow(table, text, k - 1);
      if table[k - 1] <= text && |table[k - 1]| > |table[c]| then k - 1 else c
  }

  predicate EncoderTable(table: seq<Phrase>) {
    && ValidTable(table)
    && forall i :: 0 <= i < 256 ==> table[i] == [i]
  }

  /** Code width with the table at this size, changing one code early (EarlyChange 1). */
  function EncoderWidth(entries: nat): nat {
    if entries < 512 then 9 else if entries < 1024 then 10 else if entries < 2048 then 11 else 12
  }

  /**
   The codes for the text, given the table, the number of codes put out since it was last cleared,
   and the number put out in all. clear(k) says whether to clear the table after the k-th data code.
   */
  function EncodeFrom(text: seq<byte>, table: seq<Phrase>, since: nat, clear: nat -> bool, k: nat): (codes: seq<Code>)
    requires EncoderTable(table)
    decreases |text|, 0
  {
    var width := EncoderWidth(258 + since);
    if text == [] then [Code(END_OF_DATA, width)]
    else
      var c := LongestBelow(table, text, |table|);
      var rest := text[|table[c]|..];
      [Code(c, width)] + CodesAfter(rest, table, since, clear, k, table[c])
  }

  /** What follows the k-th data code: a clear code if the policy says so, else a table one entry longer. */
  function CodesAfter(
      rest: seq<byte>, table: seq<Phrase>, since: nat, clear: nat -> bool, k: nat, phrase: Phrase): (codes: seq<Code>)
    requires EncoderTable(table) && phrase != []
    decreases |rest|, 1
  {
    if clear(k) then
      [Code(CLEAR, EncoderWidth(259 + since))] + EncodeFrom(rest, InitialTable(), 0, clear, k + 1)
    else
      var grown := if rest == [] then table else table + [phrase + [rest[0]]];
      EncodeFrom(rest, grown, since + 1, clear, k + 1)
  }

  function Encode(text: seq<byte>, clear: nat -> bool): seq<Code> {
    [Code(CLEAR, 9)] + EncodeFrom(text, InitialTable(), 0, clear, 0)
  }

  predicate TwelveBits(codes: seq<Code>) {
    forall i :: 0 <= i < |codes| ==> codes[i].value < 4096
  }

  function CodeBits(codes: seq<Code>): seq<bit> {
    if codes == [] then [] else NatBits(codes[0].value, codes[0].width) + CodeBits(codes[1..])
  }

  // Decoding undoes encoding.

  /** The decoder after `since` codes: its table lags the encoder's by the newest entry. */
  predicate InStep(st: State, text: seq<byte>, table: seq<Phrase>, since: nat) {
    && ValidState(st)
    && EncoderTable(table)
    && |st.table| == (if since == 0 then 258 else 257 + since)
    && (since == 0 <==> st.prevbuf == [])
    && (since == 0 ==> st.table == table)
    && (since > 0 && text != [] ==> table == st.table + [st.prevbuf + [text[0]]])
  }

  lemma CodeFits(value: nat, entries: nat)
    requires value < entries && value < 4096
    ensures value < Pow2(EncoderWidth(entries))
  {
    assert Pow2(9) == 512 && Pow2(10) == 1024 && Pow2(11) == 2048 && Pow2(12) == 4096 by {
      Pow2Eight();
      assert Pow2(9) == 2 * Pow2(8);
      assert Pow2(10) == 2 * Pow2(9);
      assert Pow2(11) == 2 * Pow2(10);
    }
  }

  /** A run whose input starts with a code that fits consumes exactly that code. */
  lemma {:induction false} RunCode(st: State, code: nat, rest: seq<bit>)
    requires ValidState(st) && code < Pow2(st.nbits) && Feed(st, code).Ok?
    ensures Run(NatBits(code, st.nbits) + rest, st) ==
            Prepend(Feed(st, code).value.1, Run(rest, Feed(st, code).value.0))
  {
    var bits := NatBits(code, st.nbits) + rest;
    assert bits[..st.nbits] == NatBits(code, st.nbits);
    assert bits[st.nbits..] == rest;
    NatBitsVal(code, st.nbits);
    SmallMod(code, Pow2(st.nbits));
  }

  lemma SmallMod(a: nat, b: nat)
    requires a < b
    ensures a % b == a
  {
  }

  /** One data code: the decoder puts out the phrase and takes in the encoder's newest entry. */
  lemma FeedPhrase(st: State, text: seq<byte>, table: seq<Phrase>, since: nat, c: nat)
    requires InStep(st, text, table, since) && text != []
    requires c < |table| && c != CLEAR && c != END_OF_DATA && table[c] <= text
    ensures Feed(st, c).Ok? && Feed(st, c).value.1 == table[c]
    ensures var next := Feed(st, c).value.0;
            next.prevbuf == table[c] &&
            next.table == (if since == 0 then table else st.table + [st.prevbuf + [text[0]]])
  {
    if since > 0 {
      if c < |st.table| {
        assert table[c] == st.table[c];
        assert table[c][0] == text[0];
      } else {
        assert table[c] == st.prevbuf + [text[0]];
        assert table[c][0] == st.prevbuf[0] == text[0];
      }
    }
  }

  lemma {:induction false} CodeBitsCons(c: Code, codes: seq<Code>, tail: seq<bit>)
    ensures CodeBits([c] + codes) + tail == NatBits(c.value, c.width) + (CodeBits(codes) + tail)
  {
    assert ([c] + codes)[1..] == codes;
  }

  lemma {:induction false} RunClear(st: State, rest: seq<bit>)
    requires ValidState(st)
    ensures Run(NatBits(CLEAR, st.nbits) + rest, st) == Run(rest, State(InitialTable(), [], 9))
  {
    CodeFits(CLEAR, 257);
    Pow2Mono(9, st.nbits);
    RunCode(st, CLEAR, rest);
    PrependNothing(Run(rest, State(InitialTable(), [], 9)));
  }

  /** The end-of-data code puts out nothing, and the padding after it is too short for a code. */
  lemma {:induction false} RunEnd(st: State, tail: seq<bit>)
    requires ValidState(st) && |tail| < 8
    ensures Run(NatBits(END_OF_DATA, st.nbits) + tail, st) == Ok([])
  {
    CodeFits(END_OF_DATA, 258);
    Pow2Mono(9, st.nbits);
    RunCode(st, END_OF_DATA, tail);
    assert Run(tail, st) == Ok([]);
    PrependNothing(Run(tail, st));
  }

  lemma {:induction false} Pow2Mono(a: nat, b: nat)
    requires a <= b
    ensures Pow2(a) <= Pow2(b)
    decreases b
  {
    if a == b {
    } else {
      Pow2Mono(a, b - 1);
    }
  }

  lemma TwelveBitsConcat(a: seq<Code>, b: seq<Code>)
    requires TwelveBits(a + b)
    ensures TwelveBits(a) && TwelveBits(b)
  {
    forall i | 0 <= i < |a| ensures a[i].value < 4096 {
      assert (a + b)[i] == a[i];
    }
    forall i | 0 <= i < |b| ensures b[i].value < 4096 {
      assert (a + b)[|a| + i] == b[i];
    }
  }

  lemma RunDataCode(text: seq<byte>, table: seq<Phrase>, since: nat, st: State, c: nat,
      after: seq<Code>, tail: seq<bit>)
    requires InStep(st, text, table, since) && text != []
    requires c < |table| && c < 4096 && c != CLEAR && c != END_OF_DATA && table[c] <= text
    ensures Feed(st, c).Ok?
    ensures Run(CodeBits([Code(c, EncoderWidth(258 + since))] + after) + tail, st) ==
            Prepend(table[c], Run(CodeBits(after) + tail, Feed(st, c).value.0))
  {
    FeedPhrase(st, text, table, since, c);
    CodeFits(c, 258 + since);
    CodeBitsCons(Code(c, EncoderWidth(258 + since)), after, tail);
    RunCode(st, c, CodeBits(after) + tail);
  }

  lemma {:induction false} RunClearCode(st: State, more: seq<Code>, tail: seq<bit>)
    requires ValidState(st)
    ensures Run(CodeBits([Code(CLEAR, st.nbits)] + more) + tail, st) ==
            Run(CodeBits(more) + tail, State(InitialTable(), [], 9))
  {
    CodeBitsCons(Code(CLEAR, st.nbits), more, tail);
    RunClear(st, CodeBits(more) + tail);
  }

  lemma {:induction false} RunEndCode(st: State, tail: seq<bit>)
    requires ValidState(st) && |tail| < 8
    ensures Run(CodeBits([Code(END_OF_DATA, st.nbits)]) + tail, st) == Ok([])
  {
    CodeBitsCons(Code(END_OF_DATA, st.nbits), [], tail);
    assert [Code(END_OF_DATA, st.nbits)] + [] == [Code(END_OF_DATA, st.nbits)];
    assert CodeBits([]) + tail == tail;
    RunEnd(st, tail);
  }

  lemma {:induction false} RunEncodeFrom(
      text: seq<byte>, table: seq<Phrase>, since: nat, clear: nat -> bool, k: nat, st: State, tail: seq<bit>)
    requires InStep(st, text, table, since)
    requires TwelveBits(EncodeFrom(text, table, since, clear, k))
    requires |tail| < 8
    ensures Run(CodeBits(EncodeFrom(text, table, since, clear, k)) + tail, st) == Ok(text)
    decreases |text|, 0
  {
    var codes := EncodeFrom(text, table, since, clear, k);
    if text == [] {
      RunEndCode(st, tail);
    } else {
      var c := LongestBelow(table, text, |table|);
      var rest := text[|table[c]|..];
      assert text == table[c] + rest;
      var after := codes[1..];
      assert codes == [Code(c, EncoderWidth(258 + since))] + after;
      assert codes[0].value < 4096;
      TwelveBitsConcat(codes[..1], after);
      RunDataCode(text, table, since, st, c, after, tail);
      FeedPhrase(st, text, table, since, c);
      RunAfterCode(rest, table, since, clear, k, Feed(st, c).value.0, tail, table[c]);
    }
  }

  /** The rest of a run, from the state just after the data code for the phrase. */
  lemma {:induction false} RunAfterCode(
      rest: seq<byte>, table: seq<Phrase>, since: nat, clear: nat -> bool, k: nat, next: State, tail: seq<bit>,
      phrase: Phrase)
    requires EncoderTable(table) && ValidState(next) && |next.table| == 258 + since
    requires next.prevbuf == phrase != [] && (rest != [] && !clear(k) ==> next.table == table)
    requires TwelveBits(CodesAfter(rest, table, since, clear, k, phrase))
    requires |tail| < 8
    ensures Run(CodeBits(CodesAfter(rest, table, since, clear, k, phrase)) + tail, next) == Ok(rest)
    decreases |rest|, 1
  {
    var codes := CodesAfter(rest, table, since, clear, k, phrase);
    if clear(k) {
      var more := EncodeFrom(rest, InitialTable(), 0, clear, k + 1);
      assert codes == [Code(CLEAR, next.nbits)] + more;
      TwelveBitsConcat([Code(CLEAR, next.nbits)], more);
      RunClearCode(next, more, tail);
      RunEncodeFrom(rest, InitialTable(), 0, clear, k + 1, State(InitialTable(), [], 9), tail);
    } else if rest == [] {
      RunEncodeFrom(rest, table, since + 1, clear, k + 1, next, tail);
    } else {
      RunEncodeFrom(rest, table + [phrase + [rest[0]]], since + 1, clear, k + 1, next, tail);
    }
  }

  /** The bits that packing adds. */
  lemma Padding(bits: seq<bit>) returns (tail: seq<bit>)
    ensures ByteBits(PackBits(bits)) == bits + tail && |tail| < 8
  {
    PackBitsRoundTrip(bits);
    tail := ByteBits(PackBits(bits))[|bits|..];
  }

  /**
   Decoding the packed output of the encoder gives back the text, for every text and every policy
   of clearing the table that keeps the codes at twelve bits.
   */
  lemma DecodeEncode(text: seq<byte>, clear: nat -> bool)
    requires TwelveBits(Encode(text, clear))
    ensures Run(ByteBits(PackBits(CodeBits(Encode(text, clear)))), START) == Ok(text)
  {
    var tail := Padding(CodeBits(Encode(text, clear)));
    RunEncoded(text, clear, tail);
  }

  lemma {:induction false} RunEncoded(text: seq<byte>, clear: nat -> bool, tail: seq<bit>)
    requires TwelveBits(Encode(text, clear)) && |tail| < 8
    ensures Run(CodeBits(Encode(text, clear)) + tail, START) == Ok(text)
  {
    var more := EncodeFrom(text, InitialTable(), 0, clear, 0);
    CodeBitsCons(Code(CLEAR, 9), more, tail);
    RunClear(START, CodeBits(more) + tail);
    TwelveBitsConcat([Code(CLEAR, 9)], more);
    RunEncodeFrom(text, InitialTable(), 0, clear, 0, State(InitialTable(), [], 9), tail);
  }

  /** The policy clears at least once in every 3839 codes in a row. */
  ghost predicate ClearsOften(clear: nat -> bool) {
    forall a: nat :: ClearsWithin(clear, a)
  }

  ghost predicate ClearsWithin(clear: nat -> bool, a: nat) {
    exists j: nat :: a <= j < a + 3839 && clear(j)
  }

  lemma {:induction false} EncodeFromFits(text: seq<byte>, table: seq<Phrase>, since: nat, clear: nat -> bool, k: nat)
    requires EncoderTable(table) && |table| <= 258 + since
    requires ClearsOften(clear)
    requires since <= k && forall j: nat :: k - since <= j < k ==> !clear(j)
    ensures TwelveBits(EncodeFrom(text, table, since, clear, k))
    decreases |text|, 0
  {
    if text == [] {
    } else {
      UnclearedIsShort(since, clear, k);
      var c := LongestBelow(table, text, |table|);
      var rest := text[|table[c]|..];
      CodesAfterFits(rest, table, since, clear, k, table[c]);
      TwelveBitsCons(Code(c, EncoderWidth(258 + since)), CodesAfter(rest, table, since, clear, k, table[c]));
    }
  }

  lemma {:induction false} CodesAfterFits(
      rest: seq<byte>, table: seq<Phrase>, since: nat, clear: nat -> bool, k: nat, phrase: Phrase)
    requires EncoderTable(table) && |table| <= 258 + since && phrase != []
    requires ClearsOften(clear)
    requires since <= k && forall j: nat :: k - since <= j < k ==> !clear(j)
    ensures TwelveBits(CodesAfter(rest, table, since, clear, k, phrase))
    decreases |rest|, 1
  {
    if clear(k) {
      EncodeFromFits(rest, InitialTable(), 0, clear, k + 1);
      TwelveBitsCons(Code(CLEAR, EncoderWidth(259 + since)), EncodeFrom(rest, InitialTable(), 0, clear, k + 1));
    } else {
      EncodeFromFits(rest, if rest == [] then table else table + [phrase + [rest[0]]], since + 1, clear, k + 1);
    }
  }

  lemma TwelveBitsCons(c: Code, codes: seq<Code>)
    requires c.value < 4096 && TwelveBits(codes)
    ensures TwelveBits([c] + codes)
  {
  }

  lemma UnclearedIsShort(since: nat, clear: nat -> bool, k: nat)
    requires ClearsOften(clear)
    requires since <= k && forall j: nat :: k - since <= j < k ==> !clear(j)
    ensures since <= 3838
  {
    assert ClearsWithin(clear, k - since);
  }

  /** Clearing at least once in every 3839 codes keeps every code at twelve bits. */
  lemma ClearingOftenFits(text: seq<byte>, clear: nat -> bool)
    requires ClearsOften(clear)
    ensures TwelveBits(Encode(text, clear))
  {
    EncodeFromFits(text, InitialTable(), 0, clear, 0);
  }

  // What any codes mean, encoded or not.

  /** A code that stands for a phrase when it comes j-th after a clear code: entries up to 257 + j are defined. */
  predicate Means(code: nat, j: nat) {
    code < 256 || 258 <= code <= 257 + j
  }

  predicate AllMean(ds: seq<nat>) {
    forall j :: 0 <= j < |ds| ==> Means(ds[j], j)
  }

  /**
   The phrases of the codes: a byte, or, for code 258 + i, the i-th phrase with the first byte of the phrase
   after it. When that is the phrase itself, it begins as the i-th one does.
   */
  ghost predicate Spells(ds: seq<nat>, ps: seq<Phrase>) {
    && |ps| == |ds| && AllMean(ds) && NonEmpty(ps)
    && forall j :: 0 <= j < |ds| ==> SpelledBy(ds[j], ps, j)
  }

  ghost predicate NonEmpty(ps: seq<Phrase>) {
    forall i :: 0 <= i < |ps| ==> ps[i] != []
  }

  ghost predicate SpelledBy(code: nat, ps: seq<Phrase>, j: nat)
    requires j < |ps| && Means(code, j) && NonEmpty(ps)
  {
    if code < 256 then ps[j] == [code]
    else ps[j] == ps[code - 258] + [if code - 257 == j then ps[code - 258][0] else ps[code - 257][0]]
  }

  const CLEARED := State(InitialTable(), [], 9)

  /** A list of codes through the decoder: the last state, and what each code puts out. */
  function FeedAll(st: State, ds: seq<nat>): (r: Result<(State, seq<Phrase>), Error>)
    requires ValidState(st)
    ensures r.Ok? ==> ValidState(r.value.0) && |r.value.1| == |ds|
  {
    if ds == [] then Ok((st, []))
    else
      match FeedAll(st, ds[..|ds| - 1])
      case Err(e) => Err(e)
      case Ok((next, out)) =>
        match Feed(next, ds[|ds| - 1])
        case Err(e) => Err(e)
        case Ok((last, x)) => Ok((last, out + [x]))
  }

  /** The decoder after the phrases: one entry for each two neighbours, and the last phrase. */
  ghost predicate Learned(ps: seq<Phrase>, st: State)
    requires NonEmpty(ps)
  {
    && |st.table| == 258 + (if ps == [] then 0 else |ps| - 1)
    && (forall i :: 0 <= i < 258 ==> st.table[i] == InitialTable()[i])
    && (forall i :: 0 <= i < |ps| - 1 ==> st.table[258 + i] == ps[i] + [ps[i + 1][0]])
    && st.prevbuf == (if ps == [] then [] else ps[|ps| - 1])
  }

  /** What the table has for a code, or will have for the newest one. */
  function Lookup(st: State, code: nat): Phrase
    requires ValidState(st) && (code < |st.table| || st.prevbuf != [])
  {
    if code < |st.table| then st.table[code] else st.prevbuf + [st.prevbuf[0]]
  }

  lemma LookupIs(ds: seq<nat>, ps: seq<Phrase>, st: State, code: nat)
    requires |ps| == |ds| && NonEmpty(ps) && ValidState(st) && Learned(ps, st) && Means(code, |ds|)
    ensures code < |st.table| || st.prevbuf != []
    ensures var x := Lookup(st, code);
            x != [] && x == if code < 256 then [code]
                            else ps[code - 258] + [if code - 257 == |ds| then ps[code - 258][0] else ps[code - 257][0]]
  {
  }

  lemma StillSpelled(code: nat, ps: seq<Phrase>, x: Phrase, j: nat)
    requires j < |ps| && NonEmpty(ps) && x != [] && Means(code, j) && SpelledBy(code, ps, j)
    ensures NonEmpty(ps + [x]) && SpelledBy(code, ps + [x], j)
  {
  }

  lemma LookupSpells(ds: seq<nat>, ps: seq<Phrase>, st: State, code: nat)
    requires Spells(ds, ps) && ValidState(st) && Learned(ps, st) && Means(code, |ds|)
    ensures code < |st.table| || st.prevbuf != []
    ensures Lookup(st, code) != [] && Spells(ds + [code], ps + [Lookup(st, code)])
  {
    LookupIs(ds, ps, st, code);
    var x := Lookup(st, code);
    FirstMean(ds, code);
    forall j | 0 <= j < |ds| ensures SpelledBy(ds[j], ps + [x], j) {
      StillSpelled(ds[j], ps, x, j);
    }
    assert SpelledBy(code, ps + [x], |ds|);
  }

  lemma FeedLooksUp(st: State, code: nat)
    requires ValidState(st) && st.table != [] && code != CLEAR && code != END_OF_DATA
    requires code < |st.table| || (code == |st.table| && st.prevbuf != [])
    ensures Feed(st, code).Ok? && Feed(st, code).value.1 == Lookup(st, code)
    ensures var x := Lookup(st, code);
            var next := Feed(st, code).value.0;
            x != [] && next.prevbuf == x
            && next.table == if st.prevbuf == [] then st.table else st.table + [st.prevbuf + [x[0]]]
  {
  }

  lemma LearnsNext(ps: seq<Phrase>, st: State, x: Phrase, next: State)
    requires x != [] && NonEmpty(ps) && Learned(ps, st) && next.prevbuf == x
    requires next.table == if ps == [] then st.table else st.table + [st.prevbuf + [x[0]]]
    ensures NonEmpty(ps + [x]) && Learned(ps + [x], next)
  {
  }

  /** One more code. */
  lemma FeedNext(ds: seq<nat>, ps: seq<Phrase>, st: State, code: nat)
    requires Spells(ds, ps) && ValidState(st) && Learned(ps, st) && code != CLEAR && code != END_OF_DATA
    ensures Feed(st, code).Ok? <==> Means(code, |ds|)
    ensures Means(code, |ds|) ==>
              && Spells(ds + [code], ps + [Feed(st, code).value.1])
              && Learned(ps + [Feed(st, code).value.1], Feed(st, code).value.0)
  {
    if Means(code, |ds|) {
      LookupSpells(ds, ps, st, code);
      FeedLooksUp(st, code);
      LearnsNext(ps, st, Lookup(st, code), Feed(st, code).value.0);
    }
  }

  lemma FirstMean(ds: seq<nat>, code: nat)
    ensures AllMean(ds + [code]) <==> AllMean(ds) && Means(code, |ds|)
  {
    var all := ds + [code];
    assert all[|ds|] == code && forall j :: 0 <= j < |ds| ==> all[j] == ds[j];
  }

  /**
   Any data codes after a clear code, of an encoder or not: all are taken exactly when each stands for a
   byte or an entry defined by then, and each then gives its phrase.
   */
  lemma {:induction false} CodesExactly(ds: seq<nat>)
    requires forall j :: 0 <= j < |ds| ==> ds[j] != CLEAR && ds[j] != END_OF_DATA
    ensures FeedAll(CLEARED, ds).Ok? <==> AllMean(ds)
    ensures FeedAll(CLEARED, ds).Ok? ==>
              Spells(ds, FeedAll(CLEARED, ds).value.1)
              && Learned(FeedAll(CLEARED, ds).value.1, FeedAll(CLEARED, ds).value.0)
  {
    if ds == [] {
    } else {
      var front, code := ds[..|ds| - 1], ds[|ds| - 1];
      CodesExactly(front);
      assert front + [code] == ds;
      FirstMean(front, code);
      if AllMean(front) {
        var (st, ps) := FeedAll(CLEARED, front).value;
        FeedNext(front, ps, st, code);
      }
    }
  }

  lemma Determined(code: nat, ps: seq<Phrase>, qs: seq<Phrase>, j: nat)
    requires j < |ps| && j < |qs| && NonEmpty(ps) && NonEmpty(qs) && Means(code, j)
    requires SpelledBy(code, ps, j) && SpelledBy(code, qs, j) && ps[..j] == qs[..j]
    ensures ps[j] == qs[j]
  {
    if code >= 256 {
      assert ps[code - 258] == ps[..j][code - 258] && qs[code - 258] == qs[..j][code - 258];
      if code - 257 < j {
        assert ps[code - 257] == ps[..j][code - 257] && qs[code - 257] == qs[..j][code - 257];
      }
    }
  }

  /** There is only one list of phrases that codes spell. */
  lemma {:induction false} SpellsOnce(ds: seq<nat>, ps: seq<Phrase>, qs: seq<Phrase>, n: nat)
    requires Spells(ds, ps) && Spells(ds, qs) && n <= |ds|
    ensures ps[..n] == qs[..n]
  {
    if n == 0 {
    } else {
      SpellsOnce(ds, ps, qs, n - 1);
      Determined(ds[n - 1], ps, qs, n - 1);
    }
  }

  /** The end-of-data code ends nothing: decoding goes on behind it. */
  lemma {:induction false} EndOfDataPassed(st: State, rest: seq<bit>)
    requires ValidState(st)
    ensures Run(NatBits(END_OF_DATA, st.nbits) + rest, st) == Run(rest, st)
  {
    CodeFits(END_OF_DATA, 258);
    Pow2Mono(9, st.nbits);
    RunCode(st, END_OF_DATA, rest);
    PrependNothing(Run(rest, st));
  }
}
