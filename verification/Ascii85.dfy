/** The ASCII85 filter of section 7.4.3 of ISO 32000-1: the decoder of bin/pdf-parser.py and its inverse. */
module Ascii85 {
  import opened Bits
  import opened Wrappers

  const WORD := 0x1_0000_0000

  /** struct.error: a group above 2^32 - 1. AssertionError: a 'z' inside a group. */
  datatype Error = Overflow | MisplacedZ

  /** The four bytes of a word, most significant first. */
  function PackWord(v: nat): (s: seq<byte>)
    requires v < WORD
    ensures |s| == 4
  {
    [v / 256 / 256 / 256, v / 256 / 256 % 256, v / 256 % 256, v % 256]
  }

  function Digit(c: char): (d: nat)
    requires '!' <= c <= 'u'
    ensures d < 85
  {
    c as int - 33
  }

  function DigitChar(d: nat): (c: char)
    requires d < 85
    ensures '!' <= c <= 'u' && Digit(c) == d
  {
    (d + 33) as char
  }

  /** b with k digits of value 84 appended. */
  function PadDigits(b: nat, k: nat): nat
    decreases k
  {
    if k == 0 then b else PadDigits(b * 85 + 84, k - 1)
  }

  /** What the loop has left to put out, n digits into a group of value b. */
  function DecodeFrom(text: string, n: nat, b: nat): (r: Result<seq<byte>, Error>)
    requires n < 5
  {
    if text == [] then Ok([])
    else
      var c := text[0];
      if '!' <= c <= 'u' then
        var v := b * 85 + Digit(c);
        if n + 1 < 5 then DecodeFrom(text[1..], n + 1, v)
        else if v >= WORD then Err(Overflow)
        else Prepend(PackWord(v), DecodeFrom(text[1..], 0, 0))
      else if c == 'z' then
        if n != 0 then Err(MisplacedZ) else Prepend([0, 0, 0, 0], DecodeFrom(text[1..], 0, 0))
      else if c == '~' then
        if n == 0 then Ok([])
        else if PadDigits(b, 5 - n) >= WORD then Err(Overflow)
        else Ok(PackWord(PadDigits(b, 5 - n))[..n - 1])
      else DecodeFrom(text[1..], n, b)
  }

  method Decode(data: string) returns (r: Result<seq<byte>, Error>)
    ensures r == DecodeFrom(data, 0, 0)
  {
    var n: nat, b: nat, out: seq<byte>, i := 0, 0, [], 0;
    assert data[0..] == data;
    PrependNothing(DecodeFrom(data, 0, 0));
    while i < |data|
      invariant n < 5 && i <= |data| && (n == 0 ==> b == 0)
      invariant DecodeFrom(data, 0, 0) == Prepend(out, DecodeFrom(data[i..], n, b))
    {
      var c := data[i];
      assert data[i..][1..] == data[i + 1..];
      i := i + 1;
      if '!' <= c <= 'u' {
        n := n + 1;
        b := b * 85 + Digit(c);
        if n == 5 {
          if b >= WORD {
            return Err(Overflow);
          }
          PrependTwice(out, PackWord(b), DecodeFrom(data[i..], 0, 0));
          out := out + PackWord(b);
          n, b := 0, 0;
        }
      } else if c == 'z' {
        if n != 0 {
          return Err(MisplacedZ);
        }
        PrependTwice(out, [0, 0, 0, 0], DecodeFrom(data[i..], 0, b));
        out := out + [0, 0, 0, 0];
      } else if c == '~' {
        if n != 0 {
          var k := 5 - n;
          var padded: nat := b;
          while k > 0
            invariant PadDigits(padded, k) == PadDigits(b, 5 - n)
          {
            padded := padded * 85 + 84;
            k := k - 1;
          }
          if padded >= WORD {
            return Err(Overflow);
          }
          out := out + PackWord(padded)[..n - 1];
        }
        assert DecodeFrom([], n, b) == Ok([]) && out + [] == out;
        return Ok(out);
      }
    }
    assert out + [] == out;
    return Ok(out);
  }

  // The encoder, written from the standard.

  function Horner(base: nat, high: nat, low: nat): nat {
    high * base + low
  }

  function Word(s: seq<byte>): (v: nat)
    requires |s| == 4
    ensures v < WORD
  {
    Horner(256, Horner(256, Horner(256, s[0], s[1]), s[2]), s[3])
  }

  /** The five base-85 digits of a word, most significant first. */
  function Digits(v: nat): (s: string)
    requires v < WORD
    ensures |s| == 5
  {
    [DigitChar(v / 85 / 85 / 85 / 85), DigitChar(v / 85 / 85 / 85 % 85), DigitChar(v / 85 / 85 % 85),
     DigitChar(v / 85 % 85), DigitChar(v % 85)]
  }

  /** Four bytes to five digits, four zero bytes to 'z', and n < 4 last bytes to n + 1 digits. */
  function Encode(data: seq<byte>): (text: string)
    decreases |data|
  {
    if data == [] then ""
    else if |data| < 4 then Digits(Word(data + ZeroBytes(4 - |data|)))[..|data| + 1]
    else (if data[..4] == [0, 0, 0, 0] then "z" else Digits(Word(data[..4]))) + Encode(data[4..])
  }

  /** The characters that mean something to the decoder. */
  function Significant(text: string): string {
    if text == [] then []
    else if '!' <= text[0] <= 'u' || text[0] == 'z' || text[0] == '~' then [text[0]] + Significant(text[1..])
    else Significant(text[1..])
  }

  lemma {:induction false} DecodeSignificant(text: string, n: nat, b: nat)
    requires n < 5
    ensures DecodeFrom(text, n, b) == DecodeFrom(Significant(text), n, b)
  {
    if text == [] {
    } else {
      var c := text[0];
      if '!' <= c <= 'u' {
        assert Significant(text)[1..] == Significant(text[1..]);
        DecodeSignificant(text[1..], if n + 1 < 5 then n + 1 else 0, if n + 1 < 5 then b * 85 + Digit(c) else 0);
      } else if c == 'z' {
        assert Significant(text)[1..] == Significant(text[1..]);
        DecodeSignificant(text[1..], 0, 0);
      } else if c != '~' {
        DecodeSignificant(text[1..], n, b);
      }
    }
  }

  lemma PackWordOfWord(s: seq<byte>)
    requires |s| == 4
    ensures PackWord(Word(s)) == s
  {
    var h1: nat := Horner(256, s[0], s[1]);
    var h2: nat := Horner(256, h1, s[2]);
    assert Word(s) / 256 == h2 && h2 / 256 == h1 && h1 / 256 == s[0];
  }

  /** What the decoder has accumulated after the first k digits of v. */
  function TopDigits(v: nat, k: nat): nat
    requires k <= 5
    decreases 5 - k
  {
    if k == 5 then v else TopDigits(v, k + 1) / 85
  }

  lemma {:induction false} TopDigitsOf(v: nat)
    ensures TopDigits(v, 4) == v / 85 && TopDigits(v, 3) == v / 85 / 85 && TopDigits(v, 2) == v / 85 / 85 / 85
    ensures TopDigits(v, 1) == v / 85 / 85 / 85 / 85 && TopDigits(v, 0) == v / 85 / 85 / 85 / 85 / 85
  {
    assert TopDigits(v, 5) == v;
  }

  /** The first k digits of a word bring the decoder to their value. */
  lemma {:induction false} DecodeDigits(v: nat, k: nat, rest: string)
    requires v < WORD && k < 5
    ensures DecodeFrom(Digits(v)[..k] + rest, 0, 0) == DecodeFrom(rest, k, TopDigits(v, k))
  {
    if k == 0 {
      TopDigitsOf(v);
      assert Digits(v)[..0] + rest == rest;
    } else {
      var c := Digits(v)[k - 1];
      assert Digits(v)[..k] + rest == Digits(v)[..k - 1] + ([c] + rest);
      DecodeDigits(v, k - 1, [c] + rest);
      NextDigit(v, k);
      assert ([c] + rest)[1..] == rest;
    }
  }

  lemma NextDigit(v: nat, k: nat)
    requires v < WORD && 1 <= k < 5
    ensures var c := Digits(v)[k - 1];
            '!' <= c <= 'u' && TopDigits(v, k - 1) * 85 + Digit(c) == TopDigits(v, k)
  {
    TopDigitsOf(v);
  }

  lemma {:induction false} DecodeGroup(v: nat, rest: string)
    requires v < WORD
    ensures DecodeFrom(Digits(v) + rest, 0, 0) == Prepend(PackWord(v), DecodeFrom(rest, 0, 0))
  {
    var c := Digits(v)[4];
    assert Digits(v) + rest == Digits(v)[..4] + ([c] + rest);
    DecodeDigits(v, 4, [c] + rest);
    TopDigitsOf(v);
    assert TopDigits(v, 4) * 85 + Digit(c) == v;
    assert ([c] + rest)[1..] == rest;
  }

  /** Filling up a group of the top k digits of v with the digit 84 raises v by less than 85^(5-k). */
  lemma {:induction false} PadBounds(v: nat, k: nat)
    requires 2 <= k <= 4
    ensures v <= PadDigits(TopDigits(v, k), 5 - k)
    ensures PadDigits(TopDigits(v, k), 5 - k) < v + (if k == 4 then 85 else if k == 3 then 7225 else 614125)
  {
    TopDigitsOf(v);
    var t := TopDigits(v, k);
    assert PadDigits(t, 1) == t * 85 + 84;
    assert PadDigits(t, 2) == (t * 85 + 84) * 85 + 84;
    assert PadDigits(t, 3) == ((t * 85 + 84) * 85 + 84) * 85 + 84;
  }

  /** A short last group: the padding never overflows 32 bits and leaves the kept bytes alone. */
  lemma {:induction false} DecodeShortGroup(data: seq<byte>, rest: string)
    requires 1 <= |data| <= 3
    ensures DecodeFrom(Encode(data) + ("~" + rest), 0, 0) == Ok(data)
  {
    var n := |data|;
    var s := data + ZeroBytes(4 - n);
    var v := Word(s);
    DecodeDigits(v, n + 1, "~" + rest);
    PadBounds(v, n + 1);
    KeptBytes(s, n, PadDigits(TopDigits(v, n + 1), 4 - n));
    assert s[..n] == data;
  }

  lemma KeptBytes(s: seq<byte>, n: nat, w: nat)
    requires |s| == 4 && 1 <= n <= 3 && forall i :: n <= i < 4 ==> s[i] == 0
    requires Word(s) <= w < Word(s) + (if n == 3 then 256 else if n == 2 then 256 * 256 else 256 * 256 * 256)
    ensures w < WORD && PackWord(w)[..n] == s[..n]
  {
    var h1: nat := Horner(256, s[0], s[1]);
    var h2: nat := Horner(256, h1, s[2]);
    if n == 3 {
      assert w / 256 == h2 && h2 / 256 == h1 && h1 / 256 == s[0];
    } else if n == 2 {
      assert w / 256 / 256 == h1 && h1 / 256 == s[0];
    } else {
      assert w / 256 / 256 / 256 == s[0];
    }
  }

  lemma {:induction false} DecodeEncoded(data: seq<byte>, rest: string)
    ensures DecodeFrom(Encode(data) + ("~" + rest), 0, 0) == Ok(data)
    decreases |data|
  {
    var end := "~" + rest;
    if data == [] {
      assert Encode(data) + end == end;
    } else if |data| < 4 {
      DecodeShortGroup(data, rest);
    } else {
      DecodeEncoded(data[4..], rest);
      DecodeFullGroup(data, end);
    }
  }

  /** A full group in front of what decodes. */
  lemma {:induction false} DecodeFullGroup(data: seq<byte>, end: string)
    requires |data| >= 4 && DecodeFrom(Encode(data[4..]) + end, 0, 0) == Ok(data[4..])
    ensures DecodeFrom(Encode(data) + end, 0, 0) == Ok(data)
  {
    var tail := Encode(data[4..]) + end;
    assert data == data[..4] + data[4..];
    if data[..4] == [0, 0, 0, 0] {
      assert Encode(data) + end == "z" + tail;
      DecodeZ(tail);
    } else {
      EncodeFull(data);
      Associate(Digits(Word(data[..4])), Encode(data[4..]), end);
      DecodeGroup(Word(data[..4]), tail);
      PackWordOfWord(data[..4]);
    }
  }

  lemma {:induction false} EncodeFull(data: seq<byte>)
    requires |data| >= 4 && data[..4] != [0, 0, 0, 0]
    ensures Encode(data) == Digits(Word(data[..4])) + Encode(data[4..])
  {
  }

  lemma Associate(a: string, b: string, c: string)
    ensures a + b + c == a + (b + c)
  {
  }

  lemma {:induction false} DecodeZ(tail: string)
    ensures DecodeFrom("z" + tail, 0, 0) == Prepend([0, 0, 0, 0], DecodeFrom(tail, 0, 0))
  {
    assert ("z" + tail)[1..] == tail;
  }

  /**
   Decoding undoes encoding for every byte string, wherever characters that mean nothing are put in
   between and whatever follows the end-of-data mark.
   */
  lemma {:induction false} DecodeEncode(data: seq<byte>, text: string, rest: string)
    requires Significant(text) == Encode(data) + ("~" + rest)
    ensures DecodeFrom(text, 0, 0) == Ok(data)
  {
    DecodeSignificant(text, 0, 0);
    DecodeEncoded(data, rest);
  }

  // What any text gives, encoded or not.

  /** The significant characters up to the end-of-data mark. */
  function Body(text: string): (s: string)
    ensures forall i :: 0 <= i < |s| ==> '!' <= s[i] <= 'u' || s[i] == 'z'
  {
    if text == [] || text[0] == '~' then []
    else if '!' <= text[0] <= 'u' || text[0] == 'z' then [text[0]] + Body(text[1..])
    else Body(text[1..])
  }

  /** The number that digits stand for. */
  function Number(s: string): nat
    requires forall i :: 0 <= i < |s| ==> '!' <= s[i] <= 'u'
  {
    if s == "" then 0 else Number(s[..|s| - 1]) * 85 + Digit(s[|s| - 1])
  }

  /** A group of digits filled up with 'u', the highest one. */
  function Filled(s: string): (t: string)
    requires |s| < 5
    ensures |t| == 5 && s <= t && forall i :: |s| <= i < 5 ==> t[i] == 'u'
    decreases 5 - |s|
  {
    if |s| == 4 then s + ['u'] else Filled(s + ['u'])
  }

  /** The n most significant bytes of a number, which has to fit into four. */
  function Bytes(v: nat, n: nat): Result<seq<byte>, Error>
    requires n <= 4
  {
    if v >= WORD then Err(Overflow) else Ok(PackWord(v)[..n])
  }

  /** The position of the first 'z', or the length. */
  function FirstZ(s: string): (i: nat)
    ensures i <= |s| && (forall j :: 0 <= j < i ==> s[j] != 'z') && (i < |s| ==> s[i] == 'z')
  {
    if s == "" || s[0] == 'z' then 0 else 1 + FirstZ(s[1..])
  }

  /**
   The groups of a body. A 'z' is four zero bytes, and must not come inside a group; five digits are four
   bytes; a short last group counts only before an end-of-data mark, and gives a byte less than it has digits.
   */
  function Groups(s: string, marked: bool): Result<seq<byte>, Error>
    requires forall i :: 0 <= i < |s| ==> '!' <= s[i] <= 'u' || s[i] == 'z'
    decreases |s|
  {
    var k := FirstZ(s);
    if s == "" then Ok([])
    else if k == 0 then Prepend([0, 0, 0, 0], Groups(s[1..], marked))
    else if k >= 5 then
      match Bytes(Number(s[..5]), 4)
      case Err(e) => Err(e)
      case Ok(group) => Prepend(group, Groups(s[5..], marked))
    else if k < |s| then Err(MisplacedZ)
    else if marked then Bytes(Number(Filled(s)), |s| - 1)
    else Ok([])
  }

  lemma {:induction false} NumberNext(s: string, c: char)
    requires (forall i :: 0 <= i < |s| ==> '!' <= s[i] <= 'u') && '!' <= c <= 'u'
    ensures Number(s + [c]) == Number(s) * 85 + Digit(c)
  {
    assert (s + [c])[..|s|] == s;
  }

  lemma {:induction false} FilledNumber(s: string)
    requires |s| < 5 && forall i :: 0 <= i < |s| ==> '!' <= s[i] <= 'u'
    ensures Number(Filled(s)) == PadDigits(Number(s), 5 - |s|)
    decreases 5 - |s|
  {
    NumberNext(s, 'u');
    if |s| < 4 {
      FilledNumber(s + ['u']);
    }
  }

  /** Digits that do not complete a group only add to it. */
  lemma {:induction false} DecodePart(part: string, rest: string)
    requires |part| < 5 && forall i :: 0 <= i < |part| ==> '!' <= part[i] <= 'u'
    ensures DecodeFrom(part + rest, 0, 0) == DecodeFrom(rest, |part|, Number(part))
  {
    if part == "" {
      assert part + rest == rest;
    } else {
      var front, c := part[..|part| - 1], part[|part| - 1];
      DecodePart(front, [c] + rest);
      assert part + rest == front + ([c] + rest);
      assert ([c] + rest)[1..] == rest;
      assert front + [c] == part;
    }
  }

  /** The end of a body: the mark, or the end of the text. */
  function Mark(marked: bool): string {
    if marked then "~" else ""
  }

  lemma {:induction false} DecodeEnd(s: string, marked: bool)
    requires |s| < 5 && forall i :: 0 <= i < |s| ==> '!' <= s[i] <= 'u'
    ensures DecodeFrom(s + Mark(marked), 0, 0)
         == if marked && s != "" then Bytes(Number(Filled(s)), |s| - 1) else Ok([])
  {
    DecodePart(s, Mark(marked));
    FilledNumber(s);
  }

  lemma {:induction false} DecodeFive(s: string, rest: string)
    requires |s| == 5 && forall i :: 0 <= i < |s| ==> '!' <= s[i] <= 'u'
    ensures DecodeFrom(s + rest, 0, 0)
         == if Number(s) >= WORD then Err(Overflow) else Prepend(PackWord(Number(s)), DecodeFrom(rest, 0, 0))
  {
    var front, c := s[..4], s[4];
    DecodePart(front, [c] + rest);
    assert s + rest == front + ([c] + rest);
    assert ([c] + rest)[1..] == rest;
    assert front + [c] == s;
  }

  lemma {:induction false} BodyZ(s: string, end: string)
    requires s != "" && s[0] == 'z'
    ensures DecodeFrom(s + end, 0, 0) == Prepend([0, 0, 0, 0], DecodeFrom(s[1..] + end, 0, 0))
  {
    assert s + end == "z" + (s[1..] + end);
    DecodeZ(s[1..] + end);
  }

  lemma {:induction false} BodyFive(s: string, end: string)
    requires |s| >= 5 && forall i :: 0 <= i < 5 ==> '!' <= s[i] <= 'u'
    ensures DecodeFrom(s + end, 0, 0)
         == match Bytes(Number(s[..5]), 4)
            case Err(e) => Err(e)
            case Ok(group) => Prepend(group, DecodeFrom(s[5..] + end, 0, 0))
  {
    DecodeFive(s[..5], s[5..] + end);
    assert s + end == s[..5] + (s[5..] + end);
    if Number(s[..5]) < WORD {
      assert PackWord(Number(s[..5]))[..4] == PackWord(Number(s[..5]));
    }
  }

  lemma {:induction false} BodyMisplaced(s: string, k: nat, end: string)
    requires 0 < k < 5 && k < |s| && s[k] == 'z' && forall i :: 0 <= i < k ==> '!' <= s[i] <= 'u'
    ensures DecodeFrom(s + end, 0, 0) == Err(MisplacedZ)
  {
    DecodePart(s[..k], s[k..] + end);
    assert s + end == s[..k] + (s[k..] + end);
    assert (s[k..] + end)[0] == 'z';
  }

  lemma {:induction false} DecodeBody(s: string, marked: bool)
    requires forall i :: 0 <= i < |s| ==> '!' <= s[i] <= 'u' || s[i] == 'z'
    ensures DecodeFrom(s + Mark(marked), 0, 0) == Groups(s, marked)
    decreases |s|
  {
    var k := FirstZ(s);
    if s == "" {
      DecodeEnd(s, marked);
    } else if k == 0 {
      BodyZ(s, Mark(marked));
      DecodeBody(s[1..], marked);
    } else if k >= 5 {
      BodyFive(s, Mark(marked));
      DecodeBody(s[5..], marked);
    } else if k < |s| {
      BodyMisplaced(s, k, Mark(marked));
    } else {
      DecodeEnd(s, marked);
    }
  }

  /** The body of a text, with its mark. */
  function Marked(text: string): string {
    Body(text) + Mark('~' in text)
  }

  lemma MarkedNext(text: string)
    requires text != "" && text[0] != '~'
    ensures Marked(text) == (if '!' <= text[0] <= 'u' || text[0] == 'z' then [text[0]] else []) + Marked(text[1..])
  {
    assert text == [text[0]] + text[1..];
    assert '~' in text <==> '~' in text[1..];
  }

  lemma {:induction false} DecodeSame(c: char, a: string, b: string, n: nat, v: nat)
    requires n < 5 && forall m: nat, w: nat | m < 5 :: DecodeFrom(a, m, w) == DecodeFrom(b, m, w)
    ensures DecodeFrom([c] + a, n, v) == DecodeFrom([c] + b, n, v)
  {
    assert ([c] + a)[1..] == a && ([c] + b)[1..] == b;
  }

  /** What comes after the mark, and what means nothing, is of no account. */
  lemma {:induction false} DecodeOnlyBody(text: string, n: nat, b: nat)
    requires n < 5
    ensures DecodeFrom(text, n, b) == DecodeFrom(Marked(text), n, b)
    decreases |text|
  {
    if text == [] {
    } else if text[0] == '~' {
      assert Marked(text) == "~";
    } else {
      var c, rest := text[0], text[1..];
      MarkedNext(text);
      assert text == [c] + rest;
      if '!' <= c <= 'u' || c == 'z' {
        forall m: nat, w: nat | m < 5 ensures DecodeFrom(rest, m, w) == DecodeFrom(Marked(rest), m, w) {
          DecodeOnlyBody(rest, m, w);
        }
        DecodeSame(c, rest, Marked(rest), n, b);
      } else {
        assert [] + Marked(rest) == Marked(rest);
        DecodeOnlyBody(rest, n, b);
      }
    }
  }

  /** The result of decoding, for every text there is. */
  lemma {:induction false} DecodeExactly(text: string)
    ensures DecodeFrom(text, 0, 0) == Groups(Body(text), '~' in text)
  {
    DecodeOnlyBody(text, 0, 0);
    DecodeBody(Body(text), '~' in text);
  }
}
