/** The recursive dictionary parser of bin/pdf-parser.py and the printer it inverts. */
module PdfDictionary {
  import Bits
  import opened Wrappers
  import opened PdfTokenizer

  const OPEN: Text := [LESS, LESS]
  const CLOSE: Text := [GREATER, GREATER]
  const LBRACKET: Text := [0x5B]
  const RBRACKET: Text := [0x5D]
  const LPAREN: Text := [0x28]
  const RPAREN: Text := [0x29]
  const COMMENT: Text := [PERCENT]
  const SLASH: Bits.byte := 0x2F

  /** A value is a list of texts, or what the nested call returned: a dictionary or None. */
  datatype Value = Items(items: seq<Text>) | Nested(entries: seq<Entry>) | Unparsed

  datatype Entry = Entry(key: Text, value: Value)

  datatype Phase = Start | Keys | Values(key: Text, value: seq<Text>)

  type Canon = Text -> Text

  /**
   What ConditionalCanonicalize does to a token's text, as far as parsing depends on it: texts that
   do not start with a slash stay as they are, the others still start with one.
   */
  ghost predicate Canonical(canon: Canon) {
    forall t: Text :: t != [] ==>
      if t[0] == SLASH then canon(t) != [] && canon(t)[0] == SLASH else canon(t) == t
  }

  predicate IsOpen(t: Token) {
    t.kind == Delimiter && t.text == OPEN
  }

  predicate IsClose(t: Token) {
    t.kind == Delimiter && t.text == CLOSE
  }

  /** Opening minus closing parentheses. */
  function Balance(items: seq<Text>): int {
    if items == [] then 0
    else
      var last := items[|items| - 1];
      Balance(items[..|items| - 1]) + if last == LPAREN then 1 else if last == RPAREN then -1 else 0
  }

  function TextLength(ts: seq<Token>): nat {
    if ts == [] then 0 else |ts[0].text| + TextLength(ts[1..])
  }

  lemma {:induction false} TextLengthConcat(a: seq<Token>, b: seq<Token>)
    ensures TextLength(a + b) == TextLength(a) + TextLength(b)
  {
    if a == [] {
      assert a + b == b;
    } else {
      assert (a + b)[1..] == a[1..] + b;
      TextLengthConcat(a[1..], b);
    }
  }

  lemma {:induction false} JoinTextsLength(ts: seq<Token>)
    ensures |JoinTexts(ts)| == TextLength(ts)
  {
    if ts == [] {
    } else {
      JoinTextsLength(ts[1..]);
    }
  }

  /** The tokens of a comment inside a string, with the percent sign taken off and the rest split again. */
  function Reopened(t: Token, rest: seq<Token>): (ts: seq<Token>)
    requires t.text != [] && NonEmptyTexts(rest)
    ensures NonEmptyTexts(ts)
    ensures TextLength(ts) == |t.text| - 1 + TextLength(rest)
  {
    TokenizeLossless(t.text[1..]);
    JoinTextsLength(Tokenize(t.text[1..]));
    TextLengthConcat(Tokenize(t.text[1..]), rest);
    Tokenize(t.text[1..]) + rest
  }

  /** The state after one token of a value that is neither a dictionary bracket nor a reopened comment. */
  datatype Move = Stay | Collect(value: seq<Text>) | Finish(value: seq<Text>) | NextKey | Reopen

  function Classify(value: seq<Text>, t: Token, canon: Canon): Move
    requires t.text != []
  {
    if value == [] && t.kind == Whitespace then Stay
    else if value == [] && t.text == LBRACKET then Collect([t.text])
    else if value != [] && value[0] == LBRACKET && t.text != RBRACKET then Collect(value + [t.text])
    else if value != [] && value[0] == LBRACKET then Finish(value + [t.text])
    else if value == [] && t.text == LPAREN then Collect([t.text])
    else if value != [] && value[0] == LPAREN && t.text != RPAREN then
      if t.text[0] == PERCENT then Reopen else Collect(value + [t.text])
    else if value != [] && value[0] == LPAREN then
      if Balance(value + [t.text]) < 1 then Finish(value + [t.text]) else Collect(value + [t.text])
    else if value != [] && t.text[0] == SLASH then NextKey
    else Collect(value + [canon(t.text)])
  }

  /** Whether the parser returns at this token. */
  predicate Stops(phase: Phase, t: Token) {
    (phase == Start && !IsOpen(t)) || (phase != Start && IsClose(t))
  }

  function Returned(phase: Phase, dict: seq<Entry>): Option<seq<Entry>> {
    match phase
    case Start => None
    case Keys => Some(dict)
    case Values(key, value) => Some(dict + [Entry(key, Items(value))])
  }

  datatype Progress = Progress(phase: Phase, dict: seq<Entry>, tokens: seq<Token>)

  /** One token that neither ends the parse nor opens a nested dictionary. */
  function Advance(phase: Phase, dict: seq<Entry>, t: Token, rest: seq<Token>, canon: Canon): (p: Progress)
    requires t.text != [] && NonEmptyTexts(rest) && !Stops(phase, t) && !(phase.Values? && IsOpen(t))
    ensures NonEmptyTexts(p.tokens) && TextLength(p.tokens) < |t.text| + TextLength(rest)
  {
    match phase
    case Start => Progress(Keys, dict, rest)
    case Keys =>
      if IsOpen(t) || t.kind == Whitespace then Progress(Keys, dict, rest)
      else Progress(Values(canon(t.text), []), dict, rest)
    case Values(key, value) =>
      match Classify(value, t, canon)
      case Stay => Progress(phase, dict, rest)
      case Collect(more) => Progress(Values(key, more), dict, rest)
      case Finish(all) => Progress(Keys, dict + [Entry(key, Items(all))], rest)
      case NextKey => Progress(Values(canon(t.text), []), dict + [Entry(key, Items(value))], rest)
      case Reopen => Progress(Values(key, value + [COMMENT]), dict, Reopened(t, rest))
  }

  function NestedValue(inner: Option<seq<Entry>>): Value {
    if inner.Some? then Nested(inner.value) else Unparsed
  }

  function Drop(ts: seq<Token>): seq<Token> {
    if ts == [] then [] else ts[1..]
  }

  lemma {:induction false} DropShortens(ts: seq<Token>)
    requires NonEmptyTexts(ts)
    ensures TextLength(Drop(ts)) <= TextLength(ts)
    ensures ts != [] ==> TextLength(Drop(ts)) + |ts[0].text| == TextLength(ts)
  {
  }

  /** The parse of the tokens from a phase on: the dictionary, or None, and the tokens left. */
  function Parse(phase: Phase, dict: seq<Entry>, tokens: seq<Token>,
      canon: Canon): (r: (Option<seq<Entry>>, seq<Token>))
    requires NonEmptyTexts(tokens)
    ensures NonEmptyTexts(r.1) && TextLength(r.1) <= TextLength(tokens)
    ensures r.0.Some? ==> r.1 != [] && IsClose(r.1[0])
    decreases TextLength(tokens), if phase == Start then 0 else 1
  {
    if tokens == [] then (None, [])
    else if Stops(phase, tokens[0]) then (Returned(phase, dict), tokens)
    else if phase.Values? && IsOpen(tokens[0]) then
      var (inner, left) := Parse(Start, [], tokens, canon);
      Parse(Keys, dict + [Entry(phase.key, NestedValue(inner))], Drop(left), canon)
    else
      var p := Advance(phase, dict, tokens[0], tokens[1..], canon);
      Parse(p.phase, p.dict, p.tokens, canon)
  }

  method CountBalance(value: seq<Text>) returns (balanced: int)
    ensures balanced == Balance(value)
  {
    balanced := 0;
    var i := 0;
    while i < |value|
      invariant i <= |value| && balanced == Balance(value[..i])
    {
      assert value[..i + 1][..i] == value[..i];
      if value[i] == LPAREN {
        balanced := balanced + 1;
      } else if value[i] == RPAREN {
        balanced := balanced - 1;
      }
      i := i + 1;
    }
    assert value[..i] == value;
  }

  /** A string value being collected always has an open parenthesis. */
  predicate OpenString(value: seq<Text>) {
    value != [] && value[0] == LPAREN ==> Balance(value) >= 1
  }

  lemma {:induction false} BalanceAppend(value: seq<Text>, t: Text)
    ensures Balance(value + [t]) == Balance(value) + if t == LPAREN then 1 else if t == RPAREN then -1 else 0
  {
    assert (value + [t])[..|value|] == value;
  }

  /** The branches of state 2 that stay inside the loop body; the token is still at the front afterwards. */
  method ValueToken(key: Text, value: seq<Text>, dictionary: seq<Entry>, tokens: seq<Token>, canon: Canon)
    returns (p: Progress, attributeError: bool)
    requires NonEmptyTexts(tokens) && tokens != [] && Canonical(canon) && OpenString(value)
    requires !IsOpen(tokens[0]) && !IsClose(tokens[0])
    ensures !attributeError
    ensures NonEmptyTexts(p.tokens) && p.tokens != []
    ensures p.(tokens := Drop(p.tokens)) == Advance(Values(key, value), dictionary, tokens[0], tokens[1..], canon)
    ensures p.phase != Start && (p.phase.Values? ==> OpenString(p.phase.value))
  {
    var t := tokens[0];
    attributeError := false;
    p := Progress(Values(key, value), dictionary, tokens);
    if value == [] && t.kind == Whitespace {
    } else if value == [] && t.text == LBRACKET {
      p := p.(phase := Values(key, [t.text]));
    } else if value != [] && value[0] == LBRACKET && t.text != RBRACKET {
      p := p.(phase := Values(key, value + [t.text]));
    } else if value != [] && value[0] == LBRACKET && t.text == RBRACKET {
      p := p.(phase := Keys, dict := dictionary + [Entry(key, Items(value + [t.text]))]);
    } else if value == [] && t.text == LPAREN {
      BalanceAppend([], t.text);
      assert [] + [t.text] == [t.text];
      p := p.(phase := Values(key, [t.text]));
    } else if value != [] && value[0] == LPAREN && t.text != RPAREN {
      if t.text[0] == PERCENT {
        p := StringComment(key, value, dictionary, tokens, canon);
      } else {
        BalanceAppend(value, t.text);
        p := p.(phase := Values(key, value + [t.text]));
      }
    } else if value != [] && value[0] == LPAREN && t.text == RPAREN {
      BalanceAppend(value, t.text);
      var collected := value + [t.text];
      var balanced := CountBalance(collected);
      if balanced < 0 {
        attributeError := true;
        return;
      }
      if balanced < 1 {
        p := p.(phase := Keys, dict := dictionary + [Entry(key, Items(collected))]);
      } else {
        p := p.(phase := Values(key, collected));
      }
    } else if value != [] && t.text[0] == SLASH {
      p := p.(phase := Values(canon(t.text), []), dict := dictionary + [Entry(key, Items(value))]);
    } else {
      p := p.(phase := Values(key, value + [canon(t.text)]));
    }
  }

  /** A comment inside a string: its text after the percent sign is tokenized again. */
  method StringComment(key: Text, value: seq<Text>, dictionary: seq<Entry>, tokens: seq<Token>, canon: Canon)
    returns (p: Progress)
    requires NonEmptyTexts(tokens) && tokens != [] && OpenString(value)
    requires value != [] && value[0] == LPAREN && tokens[0].text[0] == PERCENT
    ensures NonEmptyTexts(p.tokens) && p.tokens != []
    ensures p.(tokens := Drop(p.tokens))
         == Progress(Values(key, value + [COMMENT]), dictionary, Reopened(tokens[0], tokens[1..]))
    ensures OpenString(value + [COMMENT])
  {
    BalanceAppend(value, COMMENT);
    assert NonEmptyTexts(Reopened(tokens[0], tokens[1..]));
    var tokenizer := new Tokenizer(tokens[0].text[1..]);
    var more := tokenizer.Tokens();
    var all := [tokens[0]] + more + tokens[1..];
    PushFront(tokens[0], more, tokens[1..]);
    p := Progress(Values(key, value + [COMMENT]), dictionary, all);
  }

  lemma PushFront(t: Token, more: seq<Token>, rest: seq<Token>)
    requires t.text != [] && NonEmptyTexts(more + rest)
    ensures NonEmptyTexts([t] + more + rest)
    ensures Drop([t] + more + rest) == more + rest
  {
    assert [t] + more + rest == [t] + (more + rest);
  }

  /**
   The parser itself. It stops on every token list without empty tokens, and the lookup of the missing
   attribute `verbose`, which a negative balance would lead to, is never reached.
   */
  method ParseDictionary(input: seq<Token>, canon: Canon)
    returns (r: Option<seq<Entry>>, left: seq<Token>, attributeError: bool)
    requires NonEmptyTexts(input) && Canonical(canon)
    ensures (r, left) == Parse(Start, [], input, canon)
    ensures !attributeError
    decreases TextLength(input)
  {
    var tokens, phase := input, Start;
    var dictionary: seq<Entry> := [];
    attributeError := false;
    while tokens != []
      invariant NonEmptyTexts(tokens) && !attributeError
      invariant phase == Start ==> tokens == input
      invariant phase != Start ==> TextLength(tokens) < TextLength(input)
      invariant phase.Values? ==> OpenString(phase.value)
      invariant Parse(Start, [], input, canon) == Parse(phase, dictionary, tokens, canon)
      decreases TextLength(tokens)
    {
      var t := tokens[0];
      DropShortens(tokens);
      match phase {
        case Start =>
          if !IsOpen(t) {
            return None, tokens, false;
          }
          phase := Keys;
        case Keys =>
          if IsOpen(t) {
          } else if IsClose(t) {
            return Some(dictionary), tokens, false;
          } else if t.kind != Whitespace {
            phase := Values(canon(t.text), []);
          }
        case Values(key, value) =>
          if IsOpen(t) {
            var inner, after, _ := ParseDictionary(tokens, canon);
            tokens := after;
            dictionary := dictionary + [Entry(key, NestedValue(inner))];
            phase := Keys;
          } else if IsClose(t) {
            return Some(dictionary + [Entry(key, Items(value))]), tokens, false;
          } else {
            var p, _ := ValueToken(key, value, dictionary, tokens, canon);
            phase, dictionary, tokens := p.phase, p.dict, p.tokens;
          }
      }
      DropShortens(tokens);
      tokens := Drop(tokens);
    }
    return None, tokens, false;
  }

  /** The text of what is left unparsed ends the text of the tokens. */
  ghost predicate LeavesEnd(tokens: seq<Token>, left: seq<Token>) {
    EndsWith(JoinTexts(tokens), JoinTexts(left))
  }

  lemma LeavesEndTwice(a: seq<Token>, b: seq<Token>, c: seq<Token>)
    requires LeavesEnd(a, b) && LeavesEnd(b, c)
    ensures LeavesEnd(a, c)
  {
    EndsWithTransitive(JoinTexts(a), JoinTexts(b), JoinTexts(c));
  }

  /** The same across a nested dictionary: `left` is what it leaves, and the next round starts after one token. */
  lemma NestedLeavesEnd(tokens: seq<Token>, left: seq<Token>, end: seq<Token>)
    requires LeavesEnd(tokens, left) && LeavesEnd(Drop(left), end)
    ensures LeavesEnd(tokens, end)
  {
    DropEndsWith(left);
    LeavesEndTwice(tokens, left, Drop(left));
    LeavesEndTwice(tokens, Drop(left), end);
  }

  /** What is left unparsed is always the end of the text that was given. */
  lemma {:induction false} LeftoverIsSuffix(phase: Phase, dict: seq<Entry>, tokens: seq<Token>, canon: Canon)
    requires NonEmptyTexts(tokens)
    ensures LeavesEnd(tokens, Parse(phase, dict, tokens, canon).1)
    decreases TextLength(tokens), if phase == Start then 0 else 1, 1
  {
    if tokens == [] || Stops(phase, tokens[0]) {
    } else if phase.Values? && IsOpen(tokens[0]) {
      LeftoverOfNested(phase.key, phase.value, dict, tokens, canon);
    } else {
      LeftoverOfStep(phase, dict, tokens, canon);
    }
  }

  lemma {:induction false} LeftoverOfNested(
      key: Text, value: seq<Text>, dict: seq<Entry>, tokens: seq<Token>, canon: Canon)
    requires NonEmptyTexts(tokens) && tokens != [] && IsOpen(tokens[0])
    ensures LeavesEnd(tokens, Parse(Values(key, value), dict, tokens, canon).1)
    decreases TextLength(tokens), 1, 0
  {
    LeftoverIsSuffix(Start, [], tokens, canon);
    var (inner, left) := Parse(Start, [], tokens, canon);
    var more := dict + [Entry(key, NestedValue(inner))];
    LeftoverIsSuffix(Keys, more, Drop(left), canon);
    NestedLeavesEnd(tokens, left, Parse(Keys, more, Drop(left), canon).1);
  }

  lemma {:induction false} LeftoverOfStep(phase: Phase, dict: seq<Entry>, tokens: seq<Token>, canon: Canon)
    requires NonEmptyTexts(tokens) && tokens != []
    requires !Stops(phase, tokens[0]) && !(phase.Values? && IsOpen(tokens[0]))
    ensures LeavesEnd(tokens, Parse(phase, dict, tokens, canon).1)
    decreases TextLength(tokens), if phase == Start then 0 else 1, 0
  {
    var p := Advance(phase, dict, tokens[0], tokens[1..], canon);
    AdvanceEndsWith(phase, dict, tokens, canon);
    LeftoverIsSuffix(p.phase, p.dict, p.tokens, canon);
    LeavesEndTwice(tokens, p.tokens, Parse(p.phase, p.dict, p.tokens, canon).1);
  }

  lemma {:induction false} AdvanceEndsWith(phase: Phase, dict: seq<Entry>, tokens: seq<Token>, canon: Canon)
    requires NonEmptyTexts(tokens) && tokens != []
    requires !Stops(phase, tokens[0]) && !(phase.Values? && IsOpen(tokens[0]))
    ensures EndsWith(JoinTexts(tokens), JoinTexts(Advance(phase, dict, tokens[0], tokens[1..], canon).tokens))
  {
    var left := Advance(phase, dict, tokens[0], tokens[1..], canon).tokens;
    AdvanceTokens(phase, dict, tokens[0], tokens[1..], canon);
    if left == tokens[1..] {
      DropEndsWith(tokens);
    } else {
      ReopenedEndsWith(tokens[0], tokens[1..]);
      assert [tokens[0]] + tokens[1..] == tokens;
    }
  }

  lemma AdvanceTokens(phase: Phase, dict: seq<Entry>, t: Token, rest: seq<Token>, canon: Canon)
    requires t.text != [] && NonEmptyTexts(rest) && !Stops(phase, t) && !(phase.Values? && IsOpen(t))
    ensures Advance(phase, dict, t, rest, canon).tokens in {rest, Reopened(t, rest)}
  {
  }

  lemma {:induction false} DropEndsWith(ts: seq<Token>)
    ensures EndsWith(JoinTexts(ts), JoinTexts(Drop(ts)))
  {
  }

  lemma {:induction false} JoinTextsConcat(a: seq<Token>, b: seq<Token>)
    ensures JoinTexts(a + b) == JoinTexts(a) + JoinTexts(b)
  {
    if a == [] {
      assert a + b == b;
    } else {
      assert (a + b)[1..] == a[1..] + b;
      JoinTextsConcat(a[1..], b);
    }
  }

  lemma {:induction false} ReopenedEndsWith(t: Token, rest: seq<Token>)
    requires t.text != [] && NonEmptyTexts(rest)
    ensures JoinTexts(Reopened(t, rest)) == t.text[1..] + JoinTexts(rest)
    ensures EndsWith(JoinTexts([t] + rest), JoinTexts(Reopened(t, rest)))
  {
    TokenizeLossless(t.text[1..]);
    JoinTextsConcat(Tokenize(t.text[1..]), rest);
    assert ([t] + rest)[1..] == rest;
    CutFirst(t.text, JoinTexts(rest));
  }

  lemma CutFirst(a: Text, b: Text)
    requires a != []
    ensures EndsWith(a + b, a[1..] + b)
  {
  }

  ghost predicate EndsWith(all: Text, end: Text) {
    |end| <= |all| && all[|all| - |end|..] == end
  }

  lemma EndsWithTransitive(a: Text, b: Text, c: Text)
    requires EndsWith(a, b) && EndsWith(b, c)
    ensures EndsWith(a, c)
  {
  }
}
