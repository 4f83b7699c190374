/** Printing a dictionary as tokens, and the proof that the parser of PdfDictionary reads it back. */
module PdfPrinter {
  import Wrappers
  import opened PdfTokenizer
  import opened PdfDictionary

  const OPEN_TOKEN := Token(Delimiter, OPEN)
  const CLOSE_TOKEN := Token(Delimiter, CLOSE)

  function TokenOf(x: Text): Token
    requires x != []
  {
    Token(CharacterClass(x[0]), x)
  }

  predicate Plain(xs: seq<Text>) {
    forall i :: 0 <= i < |xs| ==> xs[i] != [] && xs[i] != OPEN && xs[i] != CLOSE
  }

  /** Numbers, names, references and the like: no name after the first item, nothing to canonicalize. */
  predicate SimpleItems(xs: seq<Text>, canon: Canon) {
    && Plain(xs) && xs != []
    && CharacterClass(xs[0][0]) != Whitespace && xs[0] != LBRACKET && xs[0] != LPAREN
    && (forall i :: 1 <= i < |xs| ==> xs[i][0] != SLASH)
    && (forall i :: 0 <= i < |xs| ==> canon(xs[i]) == xs[i])
  }

  /** A bracketed array: one closing bracket, at the end. */
  predicate ArrayItems(xs: seq<Text>) {
    && Plain(xs) && |xs| >= 2 && xs[0] == LBRACKET && xs[|xs| - 1] == RBRACKET
    && forall i :: 0 <= i < |xs| - 1 ==> xs[i] != RBRACKET
  }

  /** A string: its parentheses balance, and only at the end; the percent sign of a comment is an item of its own. */
  predicate StringItems(xs: seq<Text>) {
    && Plain(xs) && |xs| >= 2 && xs[0] == LPAREN && xs[|xs| - 1] == RPAREN
    && (forall i :: 0 <= i < |xs| ==> xs[i] == COMMENT || xs[i][0] != PERCENT)
    && (forall i :: 1 <= i < |xs| ==> Balance(xs[..i]) >= 1)
    && Balance(xs) == 0
  }

  /** White space, which is put wherever it has no meaning: behind a bracket, a key and a value that is closed. */
  predicate IsGap(gap: seq<Token>) {
    forall i :: 0 <= i < |gap| ==> gap[i].kind == Whitespace && gap[i].text != []
  }

  function JoinItems(xs: seq<Text>): Text {
    if xs == [] then [] else xs[0] + JoinItems(xs[1..])
  }

  /** The items of a string and the gap after it. From a percent sign on, all that is one comment token. */
  function PrintString(xs: seq<Text>, gap: seq<Token>): (ts: seq<Token>)
    requires Plain(xs) && IsGap(gap)
    ensures NonEmptyTexts(ts)
  {
    if xs == [] then gap
    else if xs[0] == COMMENT then [Token(Delimiter, COMMENT + (JoinItems(xs[1..]) + JoinTexts(gap)))]
    else [TokenOf(xs[0])] + PrintString(xs[1..], gap)
  }

  /** What stands in a comment is what would have been printed without it. */
  ghost predicate CommentsSplit(xs: seq<Text>, gap: seq<Token>)
    requires Plain(xs) && IsGap(gap)
  {
    forall i :: 0 <= i < |xs| && xs[i] == COMMENT ==>
      Tokenize(JoinItems(xs[i + 1..]) + JoinTexts(gap)) == PrintString(xs[i + 1..], gap)
  }

  /** A name that canonicalizing leaves alone. */
  predicate GoodKey(key: Text, canon: Canon) {
    key != [] && key[0] == SLASH && canon(key) == key
  }

  /** Only the last key may go without a value. */
  ghost predicate Printable(d: seq<Entry>, gap: seq<Token>, canon: Canon)
    decreases d
  {
    && IsGap(gap)
    && (d != [] ==>
          && GoodKey(d[0].key, canon) && Printable(d[1..], gap, canon)
          && (PrintableValue(d[0].value, gap, canon) || (d[0].value == Items([]) && |d| == 1)))
  }

  ghost predicate PrintableValue(v: Value, gap: seq<Token>, canon: Canon)
    decreases v
  {
    IsGap(gap) &&
    match v
    case Items(xs) => SimpleItems(xs, canon) || ArrayItems(xs) || (StringItems(xs) && CommentsSplit(xs, gap))
    case Nested(inner) => Printable(inner, gap, canon)
    case Unparsed => false
  }

  function PrintItems(xs: seq<Text>): (ts: seq<Token>)
    requires Plain(xs)
    ensures NonEmptyTexts(ts)
  {
    if xs == [] then [] else [TokenOf(xs[0])] + PrintItems(xs[1..])
  }

  /** The entries without the brackets around them. */
  ghost function PrintEntries(d: seq<Entry>, gap: seq<Token>, canon: Canon): (ts: seq<Token>)
    requires Printable(d, gap, canon)
    ensures NonEmptyTexts(ts)
    ensures ts != [] ==> ts[0].text[0] == SLASH && ts[0].kind == Delimiter
    decreases d, 0
  {
    if d == [] then []
    else if d[0].value == Items([]) then [TokenOf(d[0].key)] + gap
    else [TokenOf(d[0].key)] + gap + PrintValue(d[0].value, gap, canon) + PrintEntries(d[1..], gap, canon)
  }

  ghost function PrintValue(v: Value, gap: seq<Token>, canon: Canon): (ts: seq<Token>)
    requires PrintableValue(v, gap, canon)
    ensures NonEmptyTexts(ts)
    decreases v, 0
  {
    match v
    case Items(xs) =>
      if SimpleItems(xs, canon) then PrintItems(xs)
      else if ArrayItems(xs) then PrintItems(xs) + gap
      else PrintString(xs, gap)
    case Nested(inner) => Print(inner, gap, canon) + gap
  }

  ghost function Print(d: seq<Entry>, gap: seq<Token>, canon: Canon): (ts: seq<Token>)
    requires Printable(d, gap, canon)
    ensures NonEmptyTexts(ts)
    decreases d, 1
  {
    [OPEN_TOKEN] + gap + PrintEntries(d, gap, canon) + [CLOSE_TOKEN]
  }

  /**
   Parsing the tokens in one state comes to parsing what is left in another. Looked into only for opened
   tokens.
   */
  ghost predicate Leads(phase: Phase, dict: seq<Entry>, tokens: seq<Token>, after: Phase, more: seq<Entry>,
      rest: seq<Token>, canon: Canon)
  {
    forall ts {:trigger Wrappers.Shown(ts)} :: Wrappers.Shown(ts) && ts == tokens ==>
      NonEmptyTexts(ts) && NonEmptyTexts(rest) && Parse(phase, dict, ts, canon) == Parse(after, more, rest, canon)
  }

  lemma {:induction false} OpenUp(phase: Phase, dict: seq<Entry>, tokens: seq<Token>, after: Phase, more: seq<Entry>,
      rest: seq<Token>, canon: Canon)
    ensures Leads(phase, dict, tokens, after, more, rest, canon) <==>
            NonEmptyTexts(tokens) && NonEmptyTexts(rest)
            && Parse(phase, dict, tokens, canon) == Parse(after, more, rest, canon)
  {
    assert Wrappers.Shown(tokens);
  }

  lemma {:induction false} LeadsOn(phase: Phase, dict: seq<Entry>, tokens: seq<Token>, mid: Phase, most: seq<Entry>,
      some: seq<Token>, after: Phase, more: seq<Entry>, rest: seq<Token>, canon: Canon)
    requires Leads(phase, dict, tokens, mid, most, some, canon) && Leads(mid, most, some, after, more, rest, canon)
    ensures Leads(phase, dict, tokens, after, more, rest, canon)
  {
    OpenUp(phase, dict, tokens, mid, most, some, canon);
    OpenUp(mid, most, some, after, more, rest, canon);
    OpenUp(phase, dict, tokens, after, more, rest, canon);
  }

  lemma {:induction false} LeadsStep(phase: Phase, dict: seq<Entry>, t: Token, rest: seq<Token>, p: Progress,
      canon: Canon)
    requires t.text != [] && NonEmptyTexts(rest) && !Stops(phase, t) && !(phase.Values? && IsOpen(t))
    requires p == Advance(phase, dict, t, rest, canon)
    ensures Leads(phase, dict, [t] + rest, p.phase, p.dict, p.tokens, canon)
  {
    assert ([t] + rest)[1..] == rest;
    OpenUp(phase, dict, [t] + rest, p.phase, p.dict, p.tokens, canon);
  }

  lemma {:induction false} LeadsNowhere(phase: Phase, dict: seq<Entry>, tokens: seq<Token>, canon: Canon)
    requires NonEmptyTexts(tokens)
    ensures Leads(phase, dict, tokens, phase, dict, tokens, canon)
  {
  }

  lemma {:induction false} ParseKey(key: Text, dict: seq<Entry>, rest: seq<Token>, canon: Canon)
    requires GoodKey(key, canon) && NonEmptyTexts(rest)
    ensures Leads(Keys, dict, [TokenOf(key)] + rest, Values(key, []), dict, rest, canon)
  {
    LeadsStep(Keys, dict, TokenOf(key), rest, Progress(Values(key, []), dict, rest), canon);
  }

  lemma {:induction false} ParseOpen(rest: seq<Token>, canon: Canon)
    requires NonEmptyTexts(rest)
    ensures Leads(Start, [], [OPEN_TOKEN] + rest, Keys, [], rest, canon)
  {
    LeadsStep(Start, [], OPEN_TOKEN, rest, Progress(Keys, [], rest), canon);
  }

  lemma NonEmptyConcat(a: seq<Token>, b: seq<Token>)
    requires NonEmptyTexts(a) && NonEmptyTexts(b)
    ensures NonEmptyTexts(a + b)
  {
  }

  /** One item of a value that is just added to it. */
  lemma {:induction false} ParseItem(key: Text, value: seq<Text>, all: seq<Text>, dict: seq<Entry>,
      x: Text, rest: seq<Token>, canon: Canon)
    requires x != [] && x != OPEN && x != CLOSE && NonEmptyTexts(rest)
    requires Classify(value, TokenOf(x), canon) == Collect(all)
    ensures Leads(Values(key, value), dict, [TokenOf(x)] + rest, Values(key, all), dict, rest, canon)
  {
    LeadsStep(Values(key, value), dict, TokenOf(x), rest, Progress(Values(key, all), dict, rest), canon);
  }

  /** The last item of a value that it completes. */
  lemma {:induction false} ParseFinal(key: Text, value: seq<Text>, all: seq<Text>, dict: seq<Entry>,
      x: Text, rest: seq<Token>, canon: Canon)
    requires x != [] && x != OPEN && x != CLOSE && NonEmptyTexts(rest)
    requires Classify(value, TokenOf(x), canon) == Finish(all)
    ensures Leads(Values(key, value), dict, [TokenOf(x)] + rest, Keys, dict + [Entry(key, Items(all))], rest, canon)
  {
    LeadsStep(Values(key, value), dict, TokenOf(x), rest, Progress(Keys, dict + [Entry(key, Items(all))], rest), canon);
  }

  lemma NoItems(xs: seq<Text>, rest: seq<Token>)
    ensures Plain(xs[|xs|..]) && PrintItems(xs[|xs|..]) + rest == rest && xs[..|xs|] == xs
  {
  }

  /** The items of a simple value, from the i-th on. */
  lemma {:induction false} ParseSimple(key: Text, xs: seq<Text>, i: nat, dict: seq<Entry>,
      rest: seq<Token>, canon: Canon)
    requires SimpleItems(xs, canon) && i <= |xs| && NonEmptyTexts(rest)
    ensures Plain(xs[i..])
    ensures Leads(Values(key, xs[..i]), dict, PrintItems(xs[i..]) + rest, Values(key, xs), dict, rest, canon)
    decreases |xs| - i
  {
    if i == |xs| {
      NoItems(xs, rest);
      LeadsNowhere(Values(key, xs), dict, rest, canon);
    } else {
      PrintItemsFrom(xs, i, rest);
      ClassifySimple(xs, i, canon);
      var left := PrintItems(xs[i + 1..]) + rest;
      NonEmptyConcat(PrintItems(xs[i + 1..]), rest);
      ParseItem(key, xs[..i], xs[..i + 1], dict, xs[i], left, canon);
      ParseSimple(key, xs, i + 1, dict, rest, canon);
      LeadsOn(Values(key, xs[..i]), dict, PrintItems(xs[i..]) + rest, Values(key, xs[..i + 1]), dict, left,
              Values(key, xs), dict, rest, canon);
    }
  }

  lemma PrintItemsFrom(xs: seq<Text>, i: nat, rest: seq<Token>)
    requires i < |xs| && Plain(xs)
    ensures Plain(xs[i..]) && Plain(xs[i + 1..])
    ensures PrintItems(xs[i..]) + rest == [TokenOf(xs[i])] + (PrintItems(xs[i + 1..]) + rest)
  {
    assert xs[i..][1..] == xs[i + 1..];
  }

  lemma ClassifySimple(xs: seq<Text>, i: nat, canon: Canon)
    requires SimpleItems(xs, canon) && i < |xs|
    ensures xs[i] != [] && xs[i] != OPEN && xs[i] != CLOSE
    ensures Classify(xs[..i], TokenOf(xs[i]), canon) == Collect(xs[..i + 1])
  {
    assert xs[..i] + [xs[i]] == xs[..i + 1];
    assert i > 0 ==> xs[..i][0] == xs[0];
  }

  lemma {:induction false} AdvanceGap(phase: Phase, dict: seq<Entry>, t: Token, rest: seq<Token>, canon: Canon)
    requires t.kind == Whitespace && t.text != [] && NonEmptyTexts(rest)
    requires phase == Keys || (phase.Values? && phase.value == [])
    ensures Leads(phase, dict, [t] + rest, phase, dict, rest, canon)
  {
    LeadsStep(phase, dict, t, rest, Progress(phase, dict, rest), canon);
  }

  /** White space between keys, and before a value, is skipped. */
  lemma {:induction false} ParseGap(phase: Phase, dict: seq<Entry>, gap: seq<Token>, rest: seq<Token>, canon: Canon)
    requires IsGap(gap) && NonEmptyTexts(rest) && (phase == Keys || (phase.Values? && phase.value == []))
    ensures NonEmptyTexts(gap + rest)
    ensures Leads(phase, dict, gap + rest, phase, dict, rest, canon)
    decreases gap
  {
    if gap == [] {
      assert gap + rest == rest;
      LeadsNowhere(phase, dict, rest, canon);
    } else {
      ParseGap(phase, dict, gap[1..], rest, canon);
      AdvanceGap(phase, dict, gap[0], gap[1..] + rest, canon);
      assert gap + rest == [gap[0]] + (gap[1..] + rest);
      LeadsOn(phase, dict, gap + rest, phase, dict, gap[1..] + rest, phase, dict, rest, canon);
    }
  }

  /** Inside an array every item is kept as it is; the last one completes the value. */
  lemma ClassifyArray(xs: seq<Text>, i: nat, canon: Canon)
    requires ArrayItems(xs) && i < |xs|
    ensures Classify(xs[..i], TokenOf(xs[i]), canon) == if i == |xs| - 1 then Finish(xs) else Collect(xs[..i + 1])
  {
    assert xs[..i] + [xs[i]] == xs[..i + 1];
    assert i > 0 ==> xs[..i][0] == xs[0];
    assert xs[..|xs|] == xs;
  }

  /** The items of an array, from the i-th on. */
  lemma {:induction false} ParseArray(key: Text, xs: seq<Text>, i: nat, dict: seq<Entry>,
      rest: seq<Token>, canon: Canon)
    requires ArrayItems(xs) && i < |xs| && NonEmptyTexts(rest)
    ensures Plain(xs[i..])
    ensures Leads(Values(key, xs[..i]), dict, PrintItems(xs[i..]) + rest, Keys, dict + [Entry(key, Items(xs))], rest,
                  canon)
    decreases |xs| - i
  {
    PrintItemsFrom(xs, i, rest);
    ClassifyArray(xs, i, canon);
    var left := PrintItems(xs[i + 1..]) + rest;
    NonEmptyConcat(PrintItems(xs[i + 1..]), rest);
    if i == |xs| - 1 {
      assert left == rest;
      ParseFinal(key, xs[..i], xs, dict, xs[i], rest, canon);
    } else {
      ParseItem(key, xs[..i], xs[..i + 1], dict, xs[i], left, canon);
      ParseArray(key, xs, i + 1, dict, rest, canon);
      LeadsOn(Values(key, xs[..i]), dict, PrintItems(xs[i..]) + rest, Values(key, xs[..i + 1]), dict, left,
              Keys, dict + [Entry(key, Items(xs))], rest, canon);
    }
  }

  /** Inside a string as well, unless it begins a comment. */
  lemma ClassifyString(xs: seq<Text>, i: nat, canon: Canon)
    requires StringItems(xs) && i < |xs| && xs[i] != COMMENT
    ensures Classify(xs[..i], TokenOf(xs[i]), canon) == if i == |xs| - 1 then Finish(xs) else Collect(xs[..i + 1])
  {
    assert xs[..i] + [xs[i]] == xs[..i + 1];
    assert i > 0 ==> xs[..i][0] == xs[0];
    assert xs[..|xs|] == xs;
  }

  lemma {:induction false} AdvanceComment(key: Text, value: seq<Text>, dict: seq<Entry>, t: Token, text: Text,
      rest: seq<Token>, canon: Canon)
    requires value != [] && value[0] == LPAREN && NonEmptyTexts(rest)
    requires t.text == COMMENT + text && t.text[0] == PERCENT && !IsOpen(t) && !IsClose(t)
    ensures NonEmptyTexts(Tokenize(text))
    ensures Advance(Values(key, value), dict, t, rest, canon)
         == Progress(Values(key, value + [COMMENT]), dict, Tokenize(text) + rest)
  {
    assert t.text[1..] == text && t.text != RPAREN;
    TokenizeLossless(text);
  }

  /** A comment token inside a string counts as a percent sign and the tokens of the text after it. */
  lemma {:induction false} ParseComment(key: Text, value: seq<Text>, dict: seq<Entry>, text: Text,
      rest: seq<Token>, canon: Canon)
    requires value != [] && value[0] == LPAREN && NonEmptyTexts(rest)
    ensures NonEmptyTexts(Tokenize(text))
    ensures Leads(Values(key, value), dict, [Token(Delimiter, COMMENT + text)] + rest,
                  Values(key, value + [COMMENT]), dict, Tokenize(text) + rest, canon)
  {
    var t := Token(Delimiter, COMMENT + text);
    assert t.text[0] == PERCENT && OPEN[0] == LESS && CLOSE[0] == GREATER;
    AdvanceComment(key, value, dict, t, text, rest, canon);
    LeadsStep(Values(key, value), dict, t, rest,
              Progress(Values(key, value + [COMMENT]), dict, Tokenize(text) + rest), canon);
  }

  /** The last item of a string, and the gap after it. */
  lemma {:induction false} ParseLast(key: Text, xs: seq<Text>, dict: seq<Entry>, gap: seq<Token>, rest: seq<Token>,
      canon: Canon)
    requires StringItems(xs) && IsGap(gap) && NonEmptyTexts(rest)
    ensures Leads(Values(key, xs[..|xs| - 1]), dict, [TokenOf(xs[|xs| - 1])] + (gap + rest),
                  Keys, dict + [Entry(key, Items(xs))], rest, canon)
  {
    var i, more := |xs| - 1, dict + [Entry(key, Items(xs))];
    ParseGap(Keys, more, gap, rest, canon);
    ClassifyString(xs, i, canon);
    ParseFinal(key, xs[..i], xs, dict, xs[i], gap + rest, canon);
    LeadsOn(Values(key, xs[..i]), dict, [TokenOf(xs[i])] + (gap + rest), Keys, more, gap + rest, Keys, more, rest,
            canon);
  }

  lemma CommentInside(xs: seq<Text>, i: nat)
    requires StringItems(xs) && i < |xs| && xs[i] == COMMENT
    ensures xs[..i] != [] && xs[..i][0] == LPAREN && xs[..i] + [COMMENT] == xs[..i + 1]
  {
    assert xs[0] != COMMENT;
  }

  lemma {:induction false} StringFrom(xs: seq<Text>, i: nat, gap: seq<Token>, rest: seq<Token>)
    requires Plain(xs) && i < |xs| && IsGap(gap)
    ensures Plain(xs[i..]) && Plain(xs[i + 1..])
    ensures PrintString(xs[i..], gap) + rest
         == if xs[i] == COMMENT then [Token(Delimiter, COMMENT + (JoinItems(xs[i + 1..]) + JoinTexts(gap)))] + rest
            else [TokenOf(xs[i])] + (PrintString(xs[i + 1..], gap) + rest)
  {
    assert xs[i..][1..] == xs[i + 1..];
  }

  /** An item before the last, be it one that begins a comment. */
  lemma {:induction false} ParseStringItem(key: Text, xs: seq<Text>, i: nat, dict: seq<Entry>,
      gap: seq<Token>, rest: seq<Token>, canon: Canon)
    requires StringItems(xs) && IsGap(gap) && CommentsSplit(xs, gap) && i < |xs| - 1 && NonEmptyTexts(rest)
    ensures Plain(xs[i..]) && Plain(xs[i + 1..])
    ensures Leads(Values(key, xs[..i]), dict, PrintString(xs[i..], gap) + rest,
                  Values(key, xs[..i + 1]), dict, PrintString(xs[i + 1..], gap) + rest, canon)
  {
    StringFrom(xs, i, gap, rest);
    NonEmptyConcat(PrintString(xs[i + 1..], gap), rest);
    if xs[i] == COMMENT {
      CommentInside(xs, i);
      ParseComment(key, xs[..i], dict, JoinItems(xs[i + 1..]) + JoinTexts(gap), rest, canon);
    } else {
      ClassifyString(xs, i, canon);
      ParseItem(key, xs[..i], xs[..i + 1], dict, xs[i], PrintString(xs[i + 1..], gap) + rest, canon);
    }
  }

  /** The items of a string, from the i-th on, and the gap after it. */
  lemma {:induction false} ParseString(key: Text, xs: seq<Text>, i: nat, dict: seq<Entry>,
      gap: seq<Token>, rest: seq<Token>, canon: Canon)
    requires StringItems(xs) && IsGap(gap) && CommentsSplit(xs, gap)
    requires i < |xs| && NonEmptyTexts(rest)
    ensures Plain(xs[i..])
    ensures Leads(Values(key, xs[..i]), dict, PrintString(xs[i..], gap) + rest,
                  Keys, dict + [Entry(key, Items(xs))], rest, canon)
    decreases |xs| - i
  {
    if i == |xs| - 1 {
      StringFrom(xs, i, gap, rest);
      assert xs[i + 1..] == [];
      ParseLast(key, xs, dict, gap, rest, canon);
    } else {
      ParseStringItem(key, xs, i, dict, gap, rest, canon);
      ParseString(key, xs, i + 1, dict, gap, rest, canon);
      LeadsOn(Values(key, xs[..i]), dict, PrintString(xs[i..], gap) + rest,
              Values(key, xs[..i + 1]), dict, PrintString(xs[i + 1..], gap) + rest,
              Keys, dict + [Entry(key, Items(xs))], rest, canon);
    }
  }

  predicate EndsValue(rest: seq<Token>) {
    rest != [] && (rest[0] == CLOSE_TOKEN ||
                   (rest[0].kind == Delimiter && rest[0].text != [] && rest[0].text[0] == SLASH))
  }

  /** A value is over at the next name and at the closing bracket. */
  lemma {:induction false} ParseAfterSimple(key: Text, xs: seq<Text>, dict: seq<Entry>, rest: seq<Token>, canon: Canon)
    requires SimpleItems(xs, canon) && EndsValue(rest) && NonEmptyTexts(rest)
    ensures Leads(Values(key, xs), dict, rest, Keys, dict + [Entry(key, Items(xs))], rest, canon)
  {
    OpenUp(Values(key, xs), dict, rest, Keys, dict + [Entry(key, Items(xs))], rest, canon);
  }

  lemma Associate(a: seq<Token>, b: seq<Token>, c: seq<Token>)
    ensures a + b + c == a + (b + c)
  {
  }

  lemma {:induction false} ParseItems(key: Text, xs: seq<Text>, dict: seq<Entry>, gap: seq<Token>,
      rest: seq<Token>, canon: Canon)
    requires PrintableValue(Items(xs), gap, canon) && EndsValue(rest) && NonEmptyTexts(rest)
    ensures Leads(Values(key, []), dict, PrintValue(Items(xs), gap, canon) + rest,
                  Keys, dict + [Entry(key, Items(xs))], rest, canon)
  {
    var more := dict + [Entry(key, Items(xs))];
    assert xs[0..] == xs && xs[..0] == [];
    if SimpleItems(xs, canon) {
      ParseSimple(key, xs, 0, dict, rest, canon);
      ParseAfterSimple(key, xs, dict, rest, canon);
      LeadsOn(Values(key, []), dict, PrintItems(xs) + rest, Values(key, xs), dict, rest, Keys, more, rest, canon);
    } else if ArrayItems(xs) {
      ParseGap(Keys, more, gap, rest, canon);
      ParseArray(key, xs, 0, dict, gap + rest, canon);
      Associate(PrintItems(xs), gap, rest);
      LeadsOn(Values(key, []), dict, PrintItems(xs) + gap + rest, Keys, more, gap + rest, Keys, more, rest, canon);
    } else {
      ParseString(key, xs, 0, dict, gap, rest, canon);
    }
  }

  /** A nested dictionary that is read up to its closing bracket is the value of its key. */
  lemma {:induction false} ParseInner(key: Text, inner: seq<Entry>, dict: seq<Entry>, tokens: seq<Token>,
      rest: seq<Token>, canon: Canon)
    requires NonEmptyTexts(tokens) && NonEmptyTexts(rest) && tokens != [] && IsOpen(tokens[0])
    requires Parse(Start, [], tokens, canon) == (Wrappers.Some(inner), [CLOSE_TOKEN] + rest)
    ensures Leads(Values(key, []), dict, tokens, Keys, dict + [Entry(key, Nested(inner))], rest, canon)
  {
    assert Drop([CLOSE_TOKEN] + rest) == rest;
    OpenUp(Values(key, []), dict, tokens, Keys, dict + [Entry(key, Nested(inner))], rest, canon);
  }

  /** A nested dictionary, with its gap. */
  lemma {:induction false} ParseNested(key: Text, inner: seq<Entry>, dict: seq<Entry>, gap: seq<Token>,
      rest: seq<Token>, canon: Canon)
    requires Printable(inner, gap, canon) && NonEmptyTexts(rest)
    ensures Leads(Values(key, []), dict, Print(inner, gap, canon) + gap + rest,
                  Keys, dict + [Entry(key, Nested(inner))], rest, canon)
    decreases inner, 2
  {
    var tokens, more := Print(inner, gap, canon) + (gap + rest), dict + [Entry(key, Nested(inner))];
    ParseGap(Keys, more, gap, rest, canon);
    ParsePrinted(inner, gap, gap + rest, canon);
    assert tokens[0] == OPEN_TOKEN;
    Associate(Print(inner, gap, canon), gap, rest);
    ParseInner(key, inner, dict, tokens, gap + rest, canon);
    LeadsOn(Values(key, []), dict, tokens, Keys, more, gap + rest, Keys, more, rest, canon);
  }

  lemma {:induction false} ParseValue(key: Text, v: Value, dict: seq<Entry>, gap: seq<Token>, rest: seq<Token>,
      canon: Canon)
    requires PrintableValue(v, gap, canon) && EndsValue(rest) && NonEmptyTexts(rest)
    ensures Leads(Values(key, []), dict, PrintValue(v, gap, canon) + rest, Keys, dict + [Entry(key, v)], rest, canon)
    decreases v, 0
  {
    match v
    case Items(xs) => ParseItems(key, xs, dict, gap, rest, canon);
    case Nested(inner) => ParseNested(key, inner, dict, gap, rest, canon);
  }

  /** The entries of a dictionary up to its closing bracket. */
  lemma {:induction false} ParseEntries(d: seq<Entry>, dict: seq<Entry>, gap: seq<Token>, end: seq<Token>, canon: Canon)
    requires Printable(d, gap, canon) && NonEmptyTexts(end) && end != [] && end[0] == CLOSE_TOKEN
    ensures Leads(Keys, dict, PrintEntries(d, gap, canon) + end, Keys, dict + d, end, canon)
    decreases d, 0
  {
    if d == [] {
      assert PrintEntries(d, gap, canon) + end == end && dict + d == dict;
      LeadsNowhere(Keys, dict, end, canon);
    } else if d[0].value == Items([]) {
      ParseBareKey(d[0].key, dict, gap, end, canon);
      assert d == [d[0]];
    } else {
      ParseEntries(d[1..], dict + [d[0]], gap, end, canon);
      assert dict + [d[0]] + d[1..] == dict + d;
      ParseFirstEntry(d, dict, gap, end, canon);
      LeadsOn(Keys, dict, PrintEntries(d, gap, canon) + end, Keys, dict + [d[0]],
              PrintEntries(d[1..], gap, canon) + end, Keys, dict + d, end, canon);
    }
  }

  /** A key right before the closing bracket has no items. */
  lemma {:induction false} ParseBareKey(key: Text, dict: seq<Entry>, gap: seq<Token>, end: seq<Token>, canon: Canon)
    requires GoodKey(key, canon) && IsGap(gap) && NonEmptyTexts(end) && end != [] && end[0] == CLOSE_TOKEN
    ensures Leads(Keys, dict, [TokenOf(key)] + gap + end, Keys, dict + [Entry(key, Items([]))], end, canon)
  {
    var tokens, more := [TokenOf(key)] + (gap + end), dict + [Entry(key, Items([]))];
    ParseGap(Values(key, []), dict, gap, end, canon);
    ParseKey(key, dict, gap + end, canon);
    LeadsOn(Keys, dict, tokens, Values(key, []), dict, gap + end, Values(key, []), dict, end, canon);
    OpenUp(Values(key, []), dict, end, Keys, more, end, canon);
    LeadsOn(Keys, dict, tokens, Values(key, []), dict, end, Keys, more, end, canon);
    Associate([TokenOf(key)], gap, end);
  }

  lemma {:induction false} ParseFirstEntry(d: seq<Entry>, dict: seq<Entry>, gap: seq<Token>, end: seq<Token>,
      canon: Canon)
    requires d != [] && Printable(d, gap, canon) && d[0].value != Items([]) && NonEmptyTexts(end) && EndsValue(end)
    ensures Leads(Keys, dict, PrintEntries(d, gap, canon) + end,
                  Keys, dict + [d[0]], PrintEntries(d[1..], gap, canon) + end, canon)
    decreases d[0].value, 1
  {
    var key, v := d[0].key, d[0].value;
    var more := PrintEntries(d[1..], gap, canon) + end;
    NonEmptyConcat(PrintEntries(d[1..], gap, canon), end);
    assert EndsValue(more);
    ParseValue(key, v, dict, gap, more, canon);
    ParseKeyed(key, v, dict, gap, PrintValue(v, gap, canon), more, canon);
    Regroup([TokenOf(key)], gap, PrintValue(v, gap, canon), PrintEntries(d[1..], gap, canon), end);
  }

  /** A key, the gap after it, and a value that is read. */
  lemma {:induction false} ParseKeyed(key: Text, v: Value, dict: seq<Entry>, gap: seq<Token>, value: seq<Token>,
      more: seq<Token>, canon: Canon)
    requires GoodKey(key, canon) && IsGap(gap) && NonEmptyTexts(value) && NonEmptyTexts(more)
    requires Leads(Values(key, []), dict, value + more, Keys, dict + [Entry(key, v)], more, canon)
    ensures Leads(Keys, dict, [TokenOf(key)] + (gap + (value + more)), Keys, dict + [Entry(key, v)], more, canon)
  {
    var tokens := [TokenOf(key)] + (gap + (value + more));
    NonEmptyConcat(value, more);
    ParseGap(Values(key, []), dict, gap, value + more, canon);
    ParseKey(key, dict, gap + (value + more), canon);
    LeadsOn(Keys, dict, tokens, Values(key, []), dict, gap + (value + more), Values(key, []), dict, value + more,
            canon);
    LeadsOn(Keys, dict, tokens, Values(key, []), dict, value + more, Keys, dict + [Entry(key, v)], more, canon);
  }

  lemma Regroup(a: seq<Token>, b: seq<Token>, c: seq<Token>, d: seq<Token>, e: seq<Token>)
    ensures a + b + c + d + e == a + (b + (c + (d + e)))
  {
  }

  /**
   Parsing the printed dictionary, with white space at all places where it means nothing and whatever
   follows, gives the dictionary and stops at its closing bracket.
   */
  lemma {:induction false} ParsePrinted(d: seq<Entry>, gap: seq<Token>, rest: seq<Token>, canon: Canon)
    requires Printable(d, gap, canon) && NonEmptyTexts(rest)
    ensures NonEmptyTexts(Print(d, gap, canon) + rest)
    ensures Parse(Start, [], Print(d, gap, canon) + rest, canon) == (Wrappers.Some(d), [CLOSE_TOKEN] + rest)
    decreases d, 1
  {
    var end := [CLOSE_TOKEN] + rest;
    var tokens, inside := Print(d, gap, canon) + rest, PrintEntries(d, gap, canon) + end;
    NonEmptyConcat([CLOSE_TOKEN], rest);
    NonEmptyConcat(PrintEntries(d, gap, canon), end);
    ParseEntries(d, [], gap, end, canon);
    ParseGap(Keys, [], gap, inside, canon);
    ParseOpen(gap + inside, canon);
    Regroup([OPEN_TOKEN], gap, PrintEntries(d, gap, canon), [CLOSE_TOKEN], rest);
    LeadsOn(Start, [], tokens, Keys, [], gap + inside, Keys, [], inside, canon);
    assert [] + d == d;
    LeadsOn(Start, [], tokens, Keys, [], inside, Keys, d, end, canon);
    OpenUp(Start, [], tokens, Keys, d, end, canon);
  }

  /** Tokens that do not begin with an opening bracket are no dictionary, and stay as they are. */
  lemma {:induction false} ParseStart(tokens: seq<Token>, canon: Canon)
    requires NonEmptyTexts(tokens) && (tokens == [] || !IsOpen(tokens[0]))
    ensures Parse(Start, [], tokens, canon) == (Wrappers.None, tokens)
  {
  }

  /** Without a closing bracket there is no dictionary, and nothing is left. */
  lemma {:induction false} ParseUnclosed(tokens: seq<Token>, canon: Canon)
    requires NonEmptyTexts(tokens) && tokens != [] && IsOpen(tokens[0])
    requires Parse(Start, [], tokens, canon).0.None?
    ensures Parse(Start, [], tokens, canon).1 == []
  {
    UnclosedFrom(Keys, [], tokens[1..], canon);
  }

  lemma {:induction false} UnclosedFrom(phase: Phase, dict: seq<Entry>, tokens: seq<Token>, canon: Canon)
    requires NonEmptyTexts(tokens) && phase != Start && Parse(phase, dict, tokens, canon).0.None?
    ensures Parse(phase, dict, tokens, canon).1 == []
    decreases TextLength(tokens)
  {
    if tokens == [] {
    } else {
      DropShortens(tokens);
      if phase.Values? && IsOpen(tokens[0]) {
        var (inner, left) := Parse(Start, [], tokens, canon);
        AfterNested(tokens, canon);
        UnclosedFrom(Keys, dict + [Entry(phase.key, NestedValue(inner))], Drop(left), canon);
      } else if !Stops(phase, tokens[0]) {
        var p := Advance(phase, dict, tokens[0], tokens[1..], canon);
        UnclosedFrom(p.phase, p.dict, p.tokens, canon);
      }
    }
  }

  /** A nested dictionary leaves less than there was. */
  lemma {:induction false} AfterNested(tokens: seq<Token>, canon: Canon)
    requires NonEmptyTexts(tokens) && tokens != [] && IsOpen(tokens[0])
    ensures NonEmptyTexts(Drop(Parse(Start, [], tokens, canon).1))
    ensures TextLength(Drop(Parse(Start, [], tokens, canon).1)) < TextLength(tokens)
  {
    var left := Parse(Start, [], tokens, canon).1;
    DropShortens(left);
    DropShortens(tokens);
  }
}
