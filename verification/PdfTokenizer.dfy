/** The push-back document reader and the tokenizer of bin/pdf-parser.py. */
module PdfTokenizer {
  import opened Bits
  import opened Wrappers

  type Text = seq<byte>

  datatype Kind = Whitespace | Delimiter | Regular

  datatype Token = Token(kind: Kind, text: Text)

  const LF: byte := 10
  const CR: byte := 13
  const LESS: byte := 0x3C
  const GREATER: byte := 0x3E
  const PERCENT: byte := 0x25

  function CharacterClass(b: byte): Kind {
    if b in {0, 9, 10, 12, 13, 32} then Whitespace
    else if b in {0x28, 0x29, 0x3C, 0x3E, 0x5B, 0x5D, 0x7B, 0x7D, 0x2F, 0x25} then Delimiter
    else Regular
  }

  /** Length of the longest run of one class that the text starts with. */
  function RunLength(s: Text, kind: Kind): (n: nat)
    ensures n <= |s|
    ensures forall i :: 0 <= i < n ==> CharacterClass(s[i]) == kind
    ensures n < |s| ==> CharacterClass(s[n]) != kind
  {
    if s == [] || CharacterClass(s[0]) != kind then 0 else 1 + RunLength(s[1..], kind)
  }

  /** Length of a comment: up to the first line end, plus a line feed right after that. */
  function CommentLength(s: Text): (n: nat)
    ensures n <= |s|
    ensures s != [] ==> n > 0
  {
    if s == [] then 0
    else if s[0] == LF || s[0] == CR then if |s| > 1 && s[1] == LF then 2 else 1
    else 1 + CommentLength(s[1..])
  }

  /** The token that a non-empty text starts with. */
  function NextToken(s: Text): (t: Token)
    requires s != []
    ensures t.text != [] && t.text <= s
    ensures t.kind == CharacterClass(s[0])
    ensures t.kind != Delimiter ==>
              && (forall b :: b in t.text ==> CharacterClass(b) == t.kind)
              && (|t.text| < |s| ==> CharacterClass(s[|t.text|]) != t.kind)
    ensures t.kind == Delimiter && s[0] != PERCENT ==>
            t.text == s[..1] || t.text == [LESS, LESS] || t.text == [GREATER, GREATER]
  {
    var kind := CharacterClass(s[0]);
    if kind != Delimiter then Token(kind, s[..RunLength(s, kind)])
    else if s[0] == LESS && |s| > 1 && s[1] == LESS then Token(Delimiter, s[..2])
    else if s[0] == GREATER && |s| > 1 && s[1] == GREATER then Token(Delimiter, s[..2])
    else if s[0] == PERCENT then Token(Delimiter, s[..CommentLength(s)])
    else Token(Delimiter, s[..1])
  }

  function Tokenize(s: Text): (ts: seq<Token>) {
    if s == [] then []
    else
      var t := NextToken(s);
      [t] + Tokenize(s[|t.text|..])
  }

  function JoinTexts(ts: seq<Token>): Text {
    if ts == [] then [] else ts[0].text + JoinTexts(ts[1..])
  }

  ghost predicate NonEmptyTexts(ts: seq<Token>) {
    forall i :: 0 <= i < |ts| ==> ts[i].text != []
  }

  /** Tokenizing loses nothing, and no token is empty. */
  lemma {:induction false} TokenizeLossless(s: Text)
    ensures JoinTexts(Tokenize(s)) == s
    ensures NonEmptyTexts(Tokenize(s))
  {
    if s == [] {
    } else {
      var t := NextToken(s);
      TokenizeLossless(s[|t.text|..]);
      assert Tokenize(s)[1..] == Tokenize(s[|t.text|..]);
      assert s == t.text + s[|t.text|..];
    }
  }

  /** White space and regular runs are never split: two neighbours of one such kind do not occur. */
  lemma {:induction false} TokenizeMaximal(s: Text, i: nat)
    requires i + 1 < |Tokenize(s)|
    ensures Tokenize(s)[i].kind == Delimiter || Tokenize(s)[i].kind != Tokenize(s)[i + 1].kind
  {
    var t := NextToken(s);
    var rest := s[|t.text|..];
    assert Tokenize(s)[1..] == Tokenize(rest);
    if i == 0 {
      assert Tokenize(s)[1] == NextToken(rest);
    } else {
      TokenizeMaximal(rest, i - 1);
    }
  }

  class Document {
    const data: Text
    var pos: nat
    var closed: bool
    var ungetted: seq<Option<byte>>
    var position: int

    constructor (data: Text)
      ensures Valid() && fresh(this) && Rest() == data && Open()
    {
      this.data := data;
      pos, closed, ungetted, position := 0, false, [], -1;
    }

    /** At most one value is pushed back; a pushed-back None means that the input is over. */
    ghost predicate Valid()
      reads this
    {
      && pos <= |data|
      && |ungetted| <= 1
      && position == pos - |ungetted| - 1
      && (closed ==> pos == |data|)
      && (ungetted != [] ==> (closed <==> ungetted[0].None?))
    }

    /** Whether byte() may be called: it never reads from a file that is closed. */
    ghost predicate Open()
      reads this
    {
      ungetted != [] || !closed
    }

    ghost function Rest(): Text
      requires pos <= |data|
      reads this
    {
      (if ungetted != [] && ungetted[0].Some? then [ungetted[0].value] else []) + data[pos..]
    }

    method Byte() returns (b: Option<byte>)
      requires Valid() && Open()
      modifies this
      ensures Valid() && ungetted == []
      ensures b.None? <==> old(Rest()) == []
      ensures b.None? ==> closed && Rest() == []
      ensures b.Some? ==> !closed && old(Rest()) == [b.value] + Rest() && position == old(position) + 1
    {
      if |ungetted| != 0 {
        position := position + 1;
        b := ungetted[|ungetted| - 1];
        ungetted := ungetted[..|ungetted| - 1];
        return;
      }
      if pos == |data| {
        closed := true;
        return None;
      }
      position := position + 1;
      b := Some(data[pos]);
      pos := pos + 1;
    }

    method Unget(b: Option<byte>)
      requires Valid() && ungetted == [] && (closed <==> b.None?)
      modifies this`position, this`ungetted
      ensures Valid() && Open()
      ensures Rest() == (if b.Some? then [b.value] else []) + old(Rest())
      ensures position == old(position) - 1
    {
      position := position - 1;
      ungetted := ungetted + [b];
    }
  }

  class Tokenizer {
    var oPDF: Document?
    var ungetted: seq<Token>

    constructor (data: Text)
      ensures Valid() && Rest() == data && ungetted == []
      ensures fresh(oPDF)
    {
      oPDF := new Document(data);
      ungetted := [];
    }

    ghost predicate Valid()
      reads this, oPDF
    {
      oPDF != null ==> oPDF.Valid() && oPDF.Open()
    }

    /** The text not yet made into tokens. */
    ghost function Rest(): Text
      requires Valid()
      reads this, oPDF
    {
      if oPDF == null then [] else oPDF.Rest()
    }

    /** The bytes of one class from `first` on, and the byte after them. */
    method TakeRun(doc: Document, first: byte) returns (text: Text, b: Option<byte>)
      requires doc.Valid() && doc.ungetted == [] && !doc.closed
      modifies doc
      ensures doc.Valid() && doc.ungetted == [] && (doc.closed <==> b.None?) && (b.None? ==> doc.Rest() == [])
      ensures [first] + old(doc.Rest()) == text + (if b.Some? then [b.value] else []) + doc.Rest()
      ensures forall c :: c in text ==> CharacterClass(c) == CharacterClass(first)
      ensures b.Some? ==> CharacterClass(b.value) != CharacterClass(first)
    {
      ghost var all := [first] + doc.Rest();
      text, b := [], Some(first);
      while b.Some? && CharacterClass(b.value) == CharacterClass(first)
        invariant doc.Valid() && doc.ungetted == [] && (doc.closed <==> b.None?)
        invariant all == text + (if b.Some? then [b.value] else []) + doc.Rest()
        invariant b.None? ==> doc.Rest() == []
        invariant forall c :: c in text ==> CharacterClass(c) == CharacterClass(first)
        decreases |doc.Rest()|, b.Some?
      {
        text := text + [b.value];
        b := doc.Byte();
      }
    }

    /** The bytes of one class from `first` on; the byte after them is pushed back. */
    method ReadRun(doc: Document, first: byte) returns (text: Text)
      requires oPDF == doc && doc.Valid() && doc.ungetted == [] && !doc.closed
      modifies this`oPDF, doc
      ensures Valid() && (oPDF == doc || oPDF == null)
      ensures var all := [first] + old(doc.Rest());
              text == all[..RunLength(all, CharacterClass(first))] && Rest() == all[|text|..]
    {
      ghost var all := [first] + doc.Rest();
      var b;
      text, b := TakeRun(doc, first);
      RunIs(all, text, CharacterClass(first));
      PutBack(doc, b);
    }

    /** The byte after a token goes back; at the end of the input the document is let go. */
    method PutBack(doc: Document, b: Option<byte>)
      requires oPDF == doc && doc.Valid() && doc.ungetted == [] && (doc.closed <==> b.None?)
      requires b.None? ==> doc.Rest() == []
      modifies this`oPDF, doc
      ensures Valid() && (oPDF == doc || oPDF == null)
      ensures Rest() == (if b.Some? then [b.value] else []) + old(doc.Rest())
    {
      if b.Some? {
        doc.Unget(b);
      } else {
        oPDF := null;
      }
    }

    /** The rest of a comment that starts with '%'. */
    method ReadComment(doc: Document) returns (text: Text)
      requires oPDF == doc && doc.Valid() && doc.ungetted == [] && !doc.closed
      modifies this`oPDF, doc
      ensures Valid() && (oPDF == doc || oPDF == null)
      ensures var all := [PERCENT] + old(doc.Rest());
              text == all[..CommentLength(all)] && Rest() == all[|text|..]
    {
      ghost var all := [PERCENT] + doc.Rest();
      text := [];
      var b := Some(PERCENT);
      var ended := false;
      while b.Some? && !ended
        invariant oPDF == doc && doc.Valid() && doc.ungetted == [] && (doc.closed <==> b.None?)
        invariant all == text + (if b.Some? then [b.value] else []) + doc.Rest()
        invariant b.None? ==> doc.Rest() == []
        invariant !ended ==> forall i :: 0 <= i < |text| ==> text[i] != LF && text[i] != CR
        invariant ended ==> text != [] && text[|text| - 1] in {LF, CR}
        invariant ended ==> forall i :: 0 <= i < |text| - 1 ==> text[i] != LF && text[i] != CR
        decreases |doc.Rest()|, b.Some? && !ended
      {
        text := text + [b.value];
        ended := b.value == LF || b.value == CR;
        b := doc.Byte();
      }
      CommentIs(all, text, ended, b);
      if b.Some? {
        if b.value == LF {
          text := text + [b.value];
        } else {
          doc.Unget(b);
        }
      } else {
        oPDF := null;
      }
    }

    /** The token that begins with a byte. */
    method TokenFrom(doc: Document, b: byte) returns (t: Token)
      requires oPDF == doc && doc.Valid() && doc.ungetted == [] && !doc.closed
      modifies this`oPDF, doc
      ensures Valid() && (oPDF == doc || oPDF == null)
      ensures var all := [b] + old(doc.Rest()); t == NextToken(all) && Rest() == all[|t.text|..]
    {
      var kind := CharacterClass(b);
      var text;
      if kind != Delimiter {
        text := ReadRun(doc, b);
      } else if b == LESS || b == GREATER {
        var second := doc.Byte();
        if second == Some(b) {
          text := [b, b];
        } else {
          doc.Unget(second);
          text := [b];
        }
      } else if b == PERCENT {
        text := ReadComment(doc);
      } else {
        text := [b];
      }
      return Token(kind, text);
    }

    /** The next token, or None at the end of the input. */
    method NextOf() returns (r: Option<Token>)
      requires Valid()
      modifies this, oPDF
      ensures Valid() && (oPDF == old(oPDF) || oPDF == null)
      ensures old(ungetted) != [] ==>
                && r == Some(old(ungetted)[|old(ungetted)| - 1])
                && Rest() == old(Rest()) && ungetted == old(ungetted)[..|old(ungetted)| - 1]
      ensures old(ungetted) == [] ==> ungetted == []
      ensures old(ungetted) == [] && old(Rest()) == [] ==> r == None && Rest() == []
      ensures old(ungetted) == [] && old(Rest()) != [] ==>
                r == Some(NextToken(old(Rest()))) && Rest() == old(Rest())[|r.value.text|..]
    {
      if |ungetted| != 0 {
        r := Some(ungetted[|ungetted| - 1]);
        ungetted := ungetted[..|ungetted| - 1];
        return;
      }
      if oPDF == null {
        return None;
      }
      var doc := oPDF;
      var first := doc.Byte();
      if first.None? {
        oPDF := null;
        return None;
      }
      var t := TokenFrom(doc, first.value);
      return Some(t);
    }

    /** What is pushed back here is the next token. */
    method UngetToken(t: Token)
      requires Valid()
      modifies this`ungetted
      ensures Valid() && ungetted == old(ungetted) + [t] && Rest() == old(Rest())
    {
      ungetted := ungetted + [t];
    }

    method Tokens() returns (tokens: seq<Token>)
      requires Valid() && ungetted == []
      modifies this, oPDF
      ensures tokens == Tokenize(old(Rest()))
      ensures JoinTexts(tokens) == old(Rest())
    {
      tokens := [];
      ghost var all := Rest();
      var token := NextOf();
      PendingOf(all, token, Rest());
      while token.Some?
        invariant Valid() && ungetted == [] && (oPDF == old(oPDF) || oPDF == null)
        invariant token.None? ==> Rest() == []
        invariant Tokenize(all) == tokens + Pending(token, Rest())
        decreases token.Some?, |Rest()|
      {
        ghost var rest := Rest();
        MovePending(tokens, token.value, rest);
        tokens := tokens + [token.value];
        token := NextOf();
        PendingOf(rest, token, Rest());
      }
      TokenizeLossless(all);
    }
  }

  ghost function Pending(token: Option<Token>, rest: Text): seq<Token> {
    if token.Some? then [token.value] + Tokenize(rest) else []
  }

  lemma {:induction false} MovePending(tokens: seq<Token>, t: Token, rest: Text)
    ensures tokens + Pending(Some(t), rest) == (tokens + [t]) + Tokenize(rest)
  {
  }

  lemma {:induction false} PendingOf(before: Text, token: Option<Token>, after: Text)
    requires if before == [] then token.None?
             else token == Some(NextToken(before)) && after == before[|token.value.text|..]
    ensures Tokenize(before) == Pending(token, after)
  {
  }

  lemma {:induction false} RunIs(all: Text, text: Text, kind: Kind)
    requires text <= all && forall c :: c in text ==> CharacterClass(c) == kind
    requires |text| < |all| ==> CharacterClass(all[|text|]) != kind
    ensures RunLength(all, kind) == |text|
  {
    assert forall i :: 0 <= i < |text| ==> all[i] == text[i];
  }

  lemma {:induction false} CommentIs(all: Text, text: Text, ended: bool, b: Option<byte>)
    requires text <= all && text != []
    requires |all| == |text| <==> b.None?
    requires b.Some? ==> all[|text|] == b.value
    requires if ended then text[|text| - 1] in {LF, CR} else b.None? && text[|text| - 1] != LF && text[|text| - 1] != CR
    requires forall i :: 0 <= i < |text| - 1 ==> text[i] != LF && text[i] != CR
    ensures CommentLength(all) == if b == Some(LF) then |text| + 1 else |text|
  {
    assert all[0] == text[0];
    if |text| > 1 {
      assert text[0] != LF && text[0] != CR;
      CommentIs(all[1..], text[1..], ended, b);
    }
  }

  // The tokens of a text, told without reading it.

  /** No line end in it. */
  ghost predicate IsPlain(s: Text) {
    LF !in s && CR !in s
  }

  /** '%', then up to the first line end and, right after that, one line feed; or up to the end of the text. */
  ghost predicate IsComment(text: Text, rest: Text) {
    exists body: Text :: IsPlain(body) && [PERCENT] <= body && EndsComment(text, body, rest)
  }

  ghost predicate EndsComment(text: Text, body: Text, rest: Text) {
    || (text == body && rest == [])
    || ((text == body + [CR] || text == body + [LF]) && !([LF] <= rest))
    || text == body + [CR, LF]
    || text == body + [LF, LF]
  }

  /** What a token is, given the text after it. */
  ghost predicate IsToken(t: Token, rest: Text) {
    && t.text != []
    && if t.kind != Delimiter then
         && (forall b :: b in t.text ==> CharacterClass(b) == t.kind)
         && (rest != [] ==> CharacterClass(rest[0]) != t.kind)
       else if t.text[0] == PERCENT then IsComment(t.text, rest)
       else if t.text[0] == LESS then t.text == [LESS, LESS] || (t.text == [LESS] && !([LESS] <= rest))
       else if t.text[0] == GREATER then t.text == [GREATER, GREATER] || (t.text == [GREATER] && !([GREATER] <= rest))
       else |t.text| == 1 && CharacterClass(t.text[0]) == Delimiter
  }

  ghost predicate AreTokens(ts: seq<Token>) {
    ts == [] || (IsToken(ts[0], JoinTexts(ts[1..])) && AreTokens(ts[1..]))
  }

  function LineLength(s: Text): (n: nat)
    ensures n <= |s| && IsPlain(s[..n]) && (n < |s| ==> s[n] == LF || s[n] == CR)
  {
    if s == [] || s[0] == LF || s[0] == CR then 0
    else
      var n := LineLength(s[1..]);
      assert s[..n + 1] == [s[0]] + s[1..][..n];
      n + 1
  }

  lemma {:induction false} CommentEnd(s: Text)
    ensures var k := LineLength(s);
            CommentLength(s) == if k == |s| then k else if k + 1 < |s| && s[k + 1] == LF then k + 2 else k + 1
  {
    if s == [] || s[0] == LF || s[0] == CR {
    } else {
      CommentEnd(s[1..]);
    }
  }

  lemma {:induction false} CommentShape(s: Text)
    requires s != [] && s[0] == PERCENT
    ensures IsComment(s[..CommentLength(s)], s[CommentLength(s)..])
  {
    CommentEnd(s);
    var n, k := CommentLength(s), LineLength(s);
    var body := s[..k];
    assert [PERCENT] <= body;
    if k == |s| {
      assert s[..n] == body && s[n..] == [];
    } else if n == k + 1 {
      assert s[..n] == body + [s[k]];
    } else {
      assert s[..n] == body + [s[k], LF];
    }
    assert EndsComment(s[..n], body, s[n..]);
  }

  lemma {:induction false} LineIs(s: Text, body: Text)
    requires body <= s && IsPlain(body) && (|body| < |s| ==> s[|body|] == LF || s[|body|] == CR)
    ensures LineLength(s) == |body|
  {
    if body == [] {
    } else {
      assert s[0] == body[0] && body[0] in body;
      LineIs(s[1..], body[1..]);
    }
  }

  lemma {:induction false} EndIs(s: Text, k: nat, text: Text, rest: Text)
    requires s == text + rest && k == LineLength(s) && EndsComment(text, s[..k], rest)
    ensures |text| == CommentLength(s)
  {
    CommentEnd(s);
    if rest != [] {
      assert s[|text|] == rest[0];
    }
  }

  lemma {:induction false} CommentOnly(s: Text, text: Text, rest: Text)
    requires s == text + rest && IsComment(text, rest)
    ensures s[0] == PERCENT && |text| == CommentLength(s)
  {
    var body: Text :| IsPlain(body) && [PERCENT] <= body && EndsComment(text, body, rest);
    assert body <= s && s[0] == body[0];
    LineIs(s, body);
    assert s[..|body|] == body;
    EndIs(s, |body|, text, rest);
  }

  lemma NextTokenIs(s: Text)
    requires s != []
    ensures IsToken(NextToken(s), s[|NextToken(s).text|..])
  {
    if s[0] == PERCENT {
      CommentShape(s);
    }
  }

  lemma TokenOnly(s: Text, t: Token, rest: Text)
    requires s == t.text + rest && IsToken(t, rest)
    ensures s != [] && t == NextToken(s)
  {
    assert s[0] == t.text[0];
    if t.kind != Delimiter {
      assert t.text[0] in t.text;
      RunIs(s, t.text, t.kind);
    } else if s[0] == PERCENT {
      CommentOnly(s, t.text, rest);
    } else if |t.text| < |s| {
      assert s[|t.text|] == rest[0];
    }
    assert s[..|t.text|] == t.text;
  }

  /** The tokens found are the only list of tokens whose texts make up the input. */
  lemma {:induction false} TokenizeExactly(s: Text, ts: seq<Token>)
    ensures JoinTexts(ts) == s && AreTokens(ts) <==> ts == Tokenize(s)
    decreases |s|, |ts|
  {
    if s == [] {
      if ts != [] && AreTokens(ts) {
        assert ts[0].text != [];
      }
    } else {
      NextTokenIs(s);
      TokenizeLossless(s);
      var t := NextToken(s);
      var rest := s[|t.text|..];
      assert s == t.text + rest;
      TokenizeExactly(rest, Tokenize(rest));
      assert Tokenize(s)[1..] == Tokenize(rest);
      if JoinTexts(ts) == s && AreTokens(ts) {
        TokenOnly(s, ts[0], JoinTexts(ts[1..]));
        TokenizeExactly(rest, ts[1..]);
      }
    }
  }
}
