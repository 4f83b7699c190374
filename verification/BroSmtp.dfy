/**
 The splitter of saq/bro.py: it cuts one recorded SMTP session into several emails. First what it
 computes, as functions of the lines; then the printer of a session and the proof that splitting undoes it.
 */
module BroSmtp {
  import opened Wrappers

  const MAIL_FROM := "> MAIL FROM:<"
  const RCPT_TO := "> RCPT TO:<"
  const DATA := "< DATA 354"
  const TERMINATOR := "> . ."

  predicate IsSpace(c: char) {
    c == ' ' || '\t' <= c <= '\r' || 28 as char <= c <= 31 as char
  }

  predicate IsDigit(c: char) {
    '0' <= c <= '9'
  }

  function StripLeft(s: string): string {
    if s != "" && IsSpace(s[0]) then StripLeft(s[1..]) else s
  }

  function StripRight(s: string): string {
    if s != "" && IsSpace(s[|s| - 1]) then StripRight(s[..|s| - 1]) else s
  }

  function Strip(s: string): string {
    StripRight(StripLeft(s))
  }

  /** Position of the first c, or the length. */
  function IndexOf(s: string, c: char): (i: nat)
    ensures i <= |s|
    ensures forall j :: 0 <= j < i ==> s[j] != c
    ensures i < |s| ==> s[i] == c
  {
    if s == "" || s[0] == c then 0 else 1 + IndexOf(s[1..], c)
  }

  /** The text between a prefix and the next '>', if there is such text. */
  function Bracketed(line: string, prefix: string): (r: Option<string>)
    ensures r.Some? ==> r.value != "" && '>' !in r.value && prefix + r.value + ">" <= line
  {
    if prefix <= line then
      var rest := line[|prefix|..];
      var i := IndexOf(rest, '>');
      if 0 < i < |rest| then Some(rest[..i]) else None
    else None
  }

  /** readline, until it returns nothing. */
  function ReadLines(text: string): seq<string> {
    var n := IndexOf(text, '\n');
    if text == "" then []
    else if n == |text| then [text]
    else [text[..n + 1]] + ReadLines(text[n + 1..])
  }

  /** A whole line: a line end at its end, and nowhere else. */
  predicate IsLine(line: string) {
    line != "" && line[|line| - 1] == '\n' && '\n' !in line[..|line| - 1]
  }

  function DigitsLength(s: string): (n: nat)
    ensures n <= |s|
    ensures forall j :: 0 <= j < n ==> IsDigit(s[j])
    ensures n < |s| ==> !IsDigit(s[n])
  {
    if s == "" || !IsDigit(s[0]) then 0 else 1 + DigitsLength(s[1..])
  }

  /** Address and port of the first line. */
  function Source(line: string): Option<(string, string)> {
    var i := IndexOf(line, ':');
    if 0 < i < |line| then
      var n := DigitsLength(line[i + 1..]);
      if n > 0 then Some((line[..i], line[i + 1..i + 1 + n])) else None
    else None
  }

  predicate IsCommand(line: string) {
    line != "" && (line[0] == '<' || line[0] == '>')
  }

  predicate IsReset(line: string) {
    "< RSET" <= line || "> RSET" <= line
  }

  predicate IsTerminator(line: string) {
    Strip(line) == TERMINATOR
  }

  datatype Phase = Smtp | Data

  /** The locals of the loop; body is what has been written to the file that is open. */
  datatype State = State(phase: Phase, envelopeFrom: Option<string>, envelopeTo: seq<string>, messageIndex: nat,
        body: seq<string>)

  datatype Header = Header(sourceIp: Option<string>, sourcePort: Option<string>, received: int)

  datatype Email = Email(header: Header, envelopeFrom: Option<string>, envelopeTo: seq<string>, index: nat,
        body: seq<string>)

  /** Between messages, with n files opened so far. */
  function Idle(n: nat): State {
    State(Smtp, None, [], n, [])
  }

  ghost predicate ValidState(st: State) {
    st.phase == Data ==> st.messageIndex > 0
  }

  /** The email of the message that is being read. */
  function Current(h: Header, st: State): Email
    requires st.phase == Data && st.messageIndex > 0
  {
    Email(h, st.envelopeFrom, st.envelopeTo, st.messageIndex - 1, st.body)
  }

  function Step(h: Header, st: State, line: string): (r: (State, seq<Email>))
    requires ValidState(st)
    ensures ValidState(r.0)
  {
    match st.phase
    case Smtp =>
      if Bracketed(line, MAIL_FROM).Some? then (st.(envelopeFrom := Bracketed(line, MAIL_FROM)), [])
      else if Bracketed(line, RCPT_TO).Some? then
        (st.(envelopeTo := st.envelopeTo + [Bracketed(line, RCPT_TO).value]), [])
      else if DATA <= line || !IsCommand(line) then
        (st.(phase := Data, messageIndex := st.messageIndex + 1, body := if IsCommand(line) then [] else [line]), [])
      else if IsReset(line) then (Idle(st.messageIndex), [])
      else (st, [])
    case Data =>
      if IsTerminator(line) then (Idle(st.messageIndex), [Current(h, st)])
      else (st.(body := st.body + [line]), [])
  }

  /** The state after the lines and the emails yielded on the way. */
  function Run(h: Header, st: State, lines: seq<string>): (r: (State, seq<Email>))
    requires ValidState(st)
    ensures ValidState(r.0)
    decreases lines
  {
    if lines == [] then (st, [])
    else
      var (next, out) := Step(h, st, lines[0]);
      var (last, more) := Run(h, next, lines[1..]);
      (last, out + more)
  }

  /** A message that the end of the file cuts off is yielded too. */
  function AtEnd(h: Header, st: State): seq<Email>
    requires ValidState(st)
  {
    if st.phase == Data then [Current(h, st)] else []
  }

  function Emails(h: Header, st: State, lines: seq<string>): seq<Email>
    requires ValidState(st)
  {
    var (last, out) := Run(h, st, lines);
    out + AtEnd(h, last)
  }

  datatype Error = ValueError

  /**
   The whole parse. timeOf is Python's int() on the stripped second line, modified the file's own time,
   used when the first line is not an address; that line then counts as the first of the session.
   */
  function Parse(lines: seq<string>, timeOf: string -> Option<int>, modified: int): Result<seq<Email>, Error> {
    var first := if lines == [] then "" else lines[0];
    match Source(first)
    case None => Ok(Emails(Header(None, None, modified), Idle(0), lines))
    case Some((ip, port)) =>
      match timeOf(Strip(if |lines| < 2 then "" else lines[1]))
      case None => Err(ValueError)
      case Some(t) => Ok(Emails(Header(Some(ip), Some(port), t), Idle(0), if |lines| < 2 then [] else lines[2..]))
  }

  // What holds for every input.

  lemma {:induction false} RunConcat(h: Header, st: State, a: seq<string>, b: seq<string>)
    requires ValidState(st)
    ensures var (mid, out) := Run(h, st, a);
            var (last, more) := Run(h, mid, b);
            Run(h, st, a + b) == (last, out + more)
    decreases a
  {
    if a == [] {
      assert a + b == b;
      assert [] + Run(h, st, b).1 == Run(h, st, b).1;
    } else {
      assert (a + b)[1..] == a[1..] + b;
      var (next, out) := Step(h, st, a[0]);
      RunConcat(h, next, a[1..], b);
      var (mid, more) := Run(h, next, a[1..]);
      assert out + (more + Run(h, mid, b).1) == out + more + Run(h, mid, b).1;
    }
  }

  /** The emails have the file indexes from n on, in order, and every file opened is in exactly one of them. */
  ghost predicate Indexed(emails: seq<Email>, n: nat) {
    forall i :: 0 <= i < |emails| ==> emails[i].index == n + i
  }

  /** Files whose message has been yielded. */
  function Closed(st: State): nat
    requires ValidState(st)
  {
    if st.phase == Data then st.messageIndex - 1 else st.messageIndex
  }

  lemma {:induction false} RunIndexes(h: Header, st: State, lines: seq<string>)
    requires ValidState(st)
    ensures Indexed(Run(h, st, lines).1, Closed(st))
    ensures Closed(st) + |Run(h, st, lines).1| == Closed(Run(h, st, lines).0)
    decreases lines
  {
    if lines == [] {
    } else {
      var next := Step(h, st, lines[0]).0;
      RunIndexes(h, next, lines[1..]);
    }
  }

  /** For any lines at all: emails 0, 1, 2, ..., one for each file that was opened. */
  lemma {:induction false} EmailsIndexes(h: Header, lines: seq<string>)
    ensures Indexed(Emails(h, Idle(0), lines), 0)
    ensures |Emails(h, Idle(0), lines)| == Run(h, Idle(0), lines).0.messageIndex
  {
    RunIndexes(h, Idle(0), lines);
  }

  /**
   Messages are independent: once a message has ended, what came before it has no effect on the later
   ones but for their file indexes.
   */
  lemma {:induction false} MessagesIndependent(h: Header, st: State, before: seq<string>, end: string,
      after: seq<string>)
    requires ValidState(st)
    requires Run(h, st, before).0.phase == Data && IsTerminator(end)
    ensures var n := Run(h, st, before).0.messageIndex;
            Emails(h, st, before + [end] + after) == Run(h, st, before + [end]).1 + Emails(h, Idle(n), after)
  {
    RunConcat(h, st, before + [end], after);
    RunConcat(h, st, before, [end]);
    var mid := Run(h, st, before).0;
    assert Run(h, mid, [end]).0 == Idle(mid.messageIndex) by {
      assert [end][1..] == [];
    }
  }

  /**
   A reset between messages forgets the envelope: what came before it has no effect on the later messages
   but for their file indexes.
   */
  lemma {:induction false} ResetForgets(h: Header, st: State, before: seq<string>, reset: string, after: seq<string>)
    requires ValidState(st)
    requires Run(h, st, before).0.phase == Smtp && ("< RSET" <= reset || "> RSET" <= reset)
    ensures var (mid, out) := Run(h, st, before);
            Emails(h, st, before + [reset] + after) == out + Emails(h, Idle(mid.messageIndex), after)
  {
    var (mid, out) := Run(h, st, before);
    StepReset(h, mid, reset);
    RunOne(h, mid, reset);
    RunBoth(h, st, before, mid, out, [reset], Idle(mid.messageIndex), []);
    assert out + [] == out;
    EmailsAfter(h, st, before + [reset], Idle(mid.messageIndex), out, after);
  }

  lemma {:induction false} EmailsAfter(h: Header, st: State, a: seq<string>, mid: State, out: seq<Email>,
      b: seq<string>)
    requires ValidState(st) && Run(h, st, a) == (mid, out)
    ensures Emails(h, st, a + b) == out + Emails(h, mid, b)
  {
    RunConcat(h, st, a, b);
  }

  // The printer.

  datatype Envelope = Envelope(sender: string, recipients: seq<string>)

  /**
   A message of a session. Before it come envelopes that the client gave up with a reset; the replies are
   lines that the splitter has no use for.
   */
  datatype Mail = Mail(abandoned: seq<Envelope>, envelope: Envelope, body: seq<string>, replies: seq<string>)

  predicate IsAddress(a: string) {
    a != "" && '>' !in a && '\n' !in a
  }

  /** A command or a reply that changes nothing. */
  predicate IsIgnored(line: string) {
    && IsCommand(line) && !(MAIL_FROM <= line) && !(RCPT_TO <= line) && !(DATA <= line) && !IsReset(line)
  }

  predicate HasAddresses(e: Envelope) {
    IsAddress(e.sender) && forall a :: a in e.recipients ==> IsAddress(a)
  }

  predicate Printable(m: Mail) {
    && HasAddresses(m.envelope)
    && (forall e :: e in m.abandoned ==> HasAddresses(e))
    && (forall l :: l in m.body ==> IsLine(l) && !IsTerminator(l))
    && (forall l :: l in m.replies ==> IsLine(l) && IsIgnored(l))
  }

  function PrintRecipients(rcpts: seq<string>, replies: seq<string>): seq<string> {
    if rcpts == [] then [] else [RCPT_TO + rcpts[0] + ">\n"] + replies + PrintRecipients(rcpts[1..], replies)
  }

  function PrintEnvelope(e: Envelope, replies: seq<string>): seq<string> {
    [MAIL_FROM + e.sender + ">\n"] + replies + PrintRecipients(e.recipients, replies)
  }

  function PrintAbandoned(es: seq<Envelope>, replies: seq<string>): seq<string> {
    if es == [] then []
    else PrintEnvelope(es[0], replies) + ["> RSET\n"] + replies + PrintAbandoned(es[1..], replies)
  }

  function PrintContents(m: Mail): seq<string> {
    [DATA + " Enter mail\n"] + m.body + [TERMINATOR + "\n"]
  }

  function PrintMail(m: Mail): seq<string> {
    PrintAbandoned(m.abandoned, m.replies) + PrintEnvelope(m.envelope, m.replies) + PrintContents(m) + m.replies
  }

  function PrintMails(ms: seq<Mail>): seq<string> {
    if ms == [] then [] else PrintMail(ms[0]) + PrintMails(ms[1..])
  }

  function ToEmail(h: Header, m: Mail, index: nat): Email {
    Email(h, Some(m.envelope.sender), m.envelope.recipients, index, m.body)
  }

  function ToEmails(h: Header, ms: seq<Mail>, n: nat): (es: seq<Email>)
    ensures |es| == |ms|
    ensures forall i :: 0 <= i < |ms| ==> es[i] == ToEmail(h, ms[i], n + i)
  {
    if ms == [] then [] else [ToEmail(h, ms[0], n)] + ToEmails(h, ms[1..], n + 1)
  }

  // Splitting undoes printing.

  lemma {:induction false} IndexOfFirst(a: string, c: char, b: string)
    requires c !in a
    ensures IndexOf(a + [c] + b, c) == |a|
  {
    var s := a + [c] + b;
    var i := IndexOf(s, c);
    assert s[|a|] == c;
    assert forall j :: 0 <= j < |a| ==> s[j] == a[j];
  }

  lemma BracketedOf(prefix: string, a: string, rest: string)
    requires IsAddress(a)
    ensures Bracketed(prefix + a + ">" + rest, prefix) == Some(a)
  {
    var line := prefix + a + ">" + rest;
    assert line == prefix + (a + ">" + rest);
    assert line[|prefix|..] == a + ['>'] + rest;
    IndexOfFirst(a, '>', rest);
    assert line[|prefix|..][..|a|] == a;
  }

  lemma StepSender(h: Header, st: State, a: string)
    requires st.phase == Smtp && IsAddress(a)
    ensures Step(h, st, MAIL_FROM + a + ">\n") == (st.(envelopeFrom := Some(a)), [])
  {
    BracketedOf(MAIL_FROM, a, "\n");
    assert MAIL_FROM + a + ">\n" == MAIL_FROM + a + ">" + "\n";
  }

  lemma StepRecipient(h: Header, st: State, a: string)
    requires st.phase == Smtp && IsAddress(a)
    ensures Step(h, st, RCPT_TO + a + ">\n") == (st.(envelopeTo := st.envelopeTo + [a]), [])
  {
    BracketedOf(RCPT_TO, a, "\n");
    var line := RCPT_TO + a + ">\n";
    assert line == RCPT_TO + a + ">" + "\n";
    assert line[2] == 'R' && MAIL_FROM[2] == 'M';
  }

  lemma StepData(h: Header, st: State)
    requires st.phase == Smtp
    ensures Step(h, st, DATA + " Enter mail\n")
         == (st.(phase := Data, messageIndex := st.messageIndex + 1, body := []), [])
  {
    var line := DATA + " Enter mail\n";
    assert line[0] == '<' && MAIL_FROM[0] == '>' && RCPT_TO[0] == '>';
  }

  lemma StepTerminator(h: Header, st: State)
    requires st.phase == Data && ValidState(st)
    ensures Step(h, st, TERMINATOR + "\n") == (Idle(st.messageIndex), [Current(h, st)])
  {
    var line := TERMINATOR + "\n";
    assert line[..|line| - 1] == TERMINATOR;
    assert StripRight(TERMINATOR) == TERMINATOR;
    assert StripRight(line) == StripRight(line[..|line| - 1]);
    assert StripLeft(line) == line;
  }

  lemma {:induction false} RunOne(h: Header, st: State, line: string)
    requires ValidState(st)
    ensures Run(h, st, [line]) == Step(h, st, line)
  {
    assert [line][1..] == [];
    var out := Step(h, st, line).1;
    assert out + [] == out;
  }

  lemma {:induction false} RunNext(h: Header, st: State, lines: seq<string>, next: State)
    requires ValidState(st) && lines != [] && Step(h, st, lines[0]) == (next, [])
    ensures Run(h, st, lines) == Run(h, next, lines[1..])
  {
    var more := Run(h, next, lines[1..]).1;
    assert [] + more == more;
  }

  lemma {:induction false} RunIgnored(h: Header, st: State, replies: seq<string>)
    requires st.phase == Smtp && forall l :: l in replies ==> IsIgnored(l)
    ensures Run(h, st, replies) == (st, [])
    decreases replies
  {
    if replies == [] {
    } else {
      assert replies[0] in replies;
      RunNext(h, st, replies, st);
      RunIgnored(h, st, replies[1..]);
    }
  }

  lemma ConsSplit<T>(a: seq<T>, b: seq<T>)
    requires b != []
    ensures a + [b[0]] + b[1..] == a + b
  {
    assert b == [b[0]] + b[1..];
  }

  lemma {:induction false} RunBody(h: Header, st: State, body: seq<string>)
    requires ValidState(st) && st.phase == Data && forall l :: l in body ==> !IsTerminator(l)
    ensures Run(h, st, body) == (st.(body := st.body + body), [])
    decreases body
  {
    if body == [] {
      assert st.body + body == st.body;
    } else {
      assert body[0] in body;
      RunNext(h, st, body, st.(body := st.body + [body[0]]));
      RunBody(h, st.(body := st.body + [body[0]]), body[1..]);
      ConsSplit(st.body, body);
    }
  }

  /** A sequel to a run that has yielded nothing so far. */
  lemma {:induction false} RunThen(h: Header, st: State, a: seq<string>, mid: State, b: seq<string>, end: State,
      out: seq<Email>)
    requires ValidState(st) && Run(h, st, a) == (mid, []) && Run(h, mid, b) == (end, out)
    ensures Run(h, st, a + b) == (end, out)
  {
    RunConcat(h, st, a, b);
    assert [] + out == out;
  }

  lemma {:induction false} RunBoth(h: Header, st: State, a: seq<string>, mid: State, out: seq<Email>,
      b: seq<string>, end: State, more: seq<Email>)
    requires ValidState(st) && Run(h, st, a) == (mid, out) && Run(h, mid, b) == (end, more)
    ensures Run(h, st, a + b) == (end, out + more)
  {
    RunConcat(h, st, a, b);
  }

  lemma {:induction false} RunRecipients(h: Header, st: State, rcpts: seq<string>, replies: seq<string>)
    requires st.phase == Smtp
    requires forall a :: a in rcpts ==> IsAddress(a)
    requires forall l :: l in replies ==> IsIgnored(l)
    ensures Run(h, st, PrintRecipients(rcpts, replies)) == (st.(envelopeTo := st.envelopeTo + rcpts), [])
    decreases rcpts
  {
    if rcpts == [] {
      assert st.envelopeTo + rcpts == st.envelopeTo;
    } else {
      assert rcpts[0] in rcpts;
      var line := RCPT_TO + rcpts[0] + ">\n";
      var next := st.(envelopeTo := st.envelopeTo + [rcpts[0]]);
      StepRecipient(h, st, rcpts[0]);
      RunOne(h, st, line);
      RunIgnored(h, next, replies);
      RunThen(h, st, [line], next, replies, next, []);
      RunRecipients(h, next, rcpts[1..], replies);
      RunThen(h, st, [line] + replies, next, PrintRecipients(rcpts[1..], replies),
              next.(envelopeTo := next.envelopeTo + rcpts[1..]), []);
      ConsSplit(st.envelopeTo, rcpts);
    }
  }

  /** The lines lead from one state to another and yield the emails. Looked into only for opened lines. */
  ghost predicate Leads(h: Header, st: State, lines: seq<string>, end: State, out: seq<Email>) {
    forall l {:trigger Shown(l)} :: Shown(l) && l == lines ==> ValidState(st) && Run(h, st, l) == (end, out)
  }

  lemma {:induction false} OpenUp(h: Header, st: State, lines: seq<string>, end: State, out: seq<Email>)
    ensures Leads(h, st, lines, end, out) <==> ValidState(st) && Run(h, st, lines) == (end, out)
  {
    assert Shown(lines);
  }

  /** What the splitter holds of an envelope. */
  function Holding(e: Envelope, n: nat): State {
    State(Smtp, Some(e.sender), e.recipients, n, [])
  }

  lemma RunEnvelope(h: Header, e: Envelope, replies: seq<string>, n: nat)
    requires HasAddresses(e) && forall l :: l in replies ==> IsIgnored(l)
    ensures Leads(h, Idle(n), PrintEnvelope(e, replies), Holding(e, n), [])
  {
    var s0 := Idle(n);
    var s1 := s0.(envelopeFrom := Some(e.sender));
    var s2 := Holding(e, n);
    var p1 := [MAIL_FROM + e.sender + ">\n"];
    StepSender(h, s0, e.sender);
    RunOne(h, s0, p1[0]);
    RunIgnored(h, s1, replies);
    RunThen(h, s0, p1, s1, replies, s1, []);
    RunRecipients(h, s1, e.recipients, replies);
    assert [] + e.recipients == e.recipients;
    RunThen(h, s0, p1 + replies, s1, PrintRecipients(e.recipients, replies), s2, []);
    OpenUp(h, s0, PrintEnvelope(e, replies), s2, []);
  }

  lemma StepReset(h: Header, st: State, line: string)
    requires st.phase == Smtp && ("< RSET" <= line || "> RSET" <= line)
    ensures Step(h, st, line) == (Idle(st.messageIndex), [])
  {
    assert line[2] == 'R' && MAIL_FROM[2] == 'M' && DATA[2] == 'D';
    assert line[3] == 'S' && RCPT_TO[3] == 'C';
  }

  lemma RunReset(h: Header, st: State, replies: seq<string>)
    requires st.phase == Smtp && forall l :: l in replies ==> IsIgnored(l)
    ensures Leads(h, st, ["> RSET\n"] + replies, Idle(st.messageIndex), [])
  {
    assert "> RSET" <= "> RSET\n";
    StepReset(h, st, "> RSET\n");
    RunOne(h, st, "> RSET\n");
    RunIgnored(h, Idle(st.messageIndex), replies);
    RunThen(h, st, ["> RSET\n"], Idle(st.messageIndex), replies, Idle(st.messageIndex), []);
    OpenUp(h, st, ["> RSET\n"] + replies, Idle(st.messageIndex), []);
  }

  /** An envelope given up with a reset leaves no trace. */
  lemma {:induction false} RunAbandoned(h: Header, es: seq<Envelope>, replies: seq<string>, n: nat)
    requires (forall e :: e in es ==> HasAddresses(e)) && forall l :: l in replies ==> IsIgnored(l)
    ensures Leads(h, Idle(n), PrintAbandoned(es, replies), Idle(n), [])
    decreases es
  {
    if es == [] {
      OpenUp(h, Idle(n), [], Idle(n), []);
    } else {
      assert es[0] in es;
      RunEnvelope(h, es[0], replies, n);
      RunReset(h, Holding(es[0], n), replies);
      RunAbandoned(h, es[1..], replies, n);
      LeadsThen(h, Idle(n), PrintEnvelope(es[0], replies), Holding(es[0], n), ["> RSET\n"] + replies, Idle(n), []);
      LeadsThen(h, Idle(n), PrintEnvelope(es[0], replies) + (["> RSET\n"] + replies), Idle(n),
                PrintAbandoned(es[1..], replies), Idle(n), []);
      assert PrintEnvelope(es[0], replies) + (["> RSET\n"] + replies)
          == PrintEnvelope(es[0], replies) + ["> RSET\n"] + replies;
    }
  }

  lemma LeadsThen(h: Header, st: State, a: seq<string>, mid: State, b: seq<string>, end: State, out: seq<Email>)
    requires Leads(h, st, a, mid, []) && Leads(h, mid, b, end, out)
    ensures Leads(h, st, a + b, end, out)
  {
    OpenUp(h, st, a, mid, []);
    OpenUp(h, mid, b, end, out);
    RunThen(h, st, a, mid, b, end, out);
    OpenUp(h, st, a + b, end, out);
  }

  /** The rest of a printed message, up to its terminator. */
  lemma RunContents(h: Header, s2: State, body: seq<string>)
    requires s2.phase == Smtp && s2.body == [] && forall l :: l in body ==> !IsTerminator(l)
    ensures Leads(h, s2, [DATA + " Enter mail\n"] + body + [TERMINATOR + "\n"], Idle(s2.messageIndex + 1),
                  [Email(h, s2.envelopeFrom, s2.envelopeTo, s2.messageIndex, body)])
  {
    var s3 := s2.(phase := Data, messageIndex := s2.messageIndex + 1);
    var s4 := s3.(body := body);
    StepData(h, s2);
    RunOne(h, s2, DATA + " Enter mail\n");
    RunBody(h, s3, body);
    assert [] + body == body;
    RunThen(h, s2, [DATA + " Enter mail\n"], s3, body, s4, []);
    StepTerminator(h, s4);
    RunOne(h, s4, TERMINATOR + "\n");
    var out := [Current(h, s4)];
    RunThen(h, s2, [DATA + " Enter mail\n"] + body, s4, [TERMINATOR + "\n"], Idle(s2.messageIndex + 1), out);
    OpenUp(h, s2, [DATA + " Enter mail\n"] + body + [TERMINATOR + "\n"], Idle(s2.messageIndex + 1), out);
  }

  /** A run that yields only in its middle part. */
  lemma RunThree(
      h: Header, st: State, a: seq<string>, mid: State, b: seq<string>, end: State, out: seq<Email>, c: seq<string>)
    requires Leads(h, st, a, mid, []) && Leads(h, mid, b, end, out) && Leads(h, end, c, end, [])
    ensures Leads(h, st, a + b + c, end, out)
  {
    OpenUp(h, st, a, mid, []);
    OpenUp(h, mid, b, end, out);
    OpenUp(h, end, c, end, []);
    RunThen(h, st, a, mid, b, end, out);
    RunBoth(h, st, a + b, end, out, c, end, []);
    assert out + [] == out;
    OpenUp(h, st, a + b + c, end, out);
  }

  lemma RunsIgnored(h: Header, st: State, replies: seq<string>)
    requires ValidState(st) && st.phase == Smtp && forall l :: l in replies ==> IsIgnored(l)
    ensures Leads(h, st, replies, st, [])
  {
    RunIgnored(h, st, replies);
    OpenUp(h, st, replies, st, []);
  }

  /** One printed message gives its email and leaves the splitter between messages. */
  lemma {:induction false} RunMail(h: Header, m: Mail, n: nat)
    requires Printable(m)
    ensures Leads(h, Idle(n), PrintMail(m), Idle(n + 1), [ToEmail(h, m, n)])
  {
    var s2, end := Holding(m.envelope, n), Idle(n + 1);
    RunAbandoned(h, m.abandoned, m.replies, n);
    RunEnvelope(h, m.envelope, m.replies, n);
    LeadsThen(h, Idle(n), PrintAbandoned(m.abandoned, m.replies), Idle(n), PrintEnvelope(m.envelope, m.replies), s2,
              []);
    RunContents(h, s2, m.body);
    RunsIgnored(h, end, m.replies);
    RunThree(h, Idle(n), PrintAbandoned(m.abandoned, m.replies) + PrintEnvelope(m.envelope, m.replies), s2,
             PrintContents(m), end, [ToEmail(h, m, n)], m.replies);
  }

  lemma RunBothMails(
      h: Header, st: State, a: seq<string>, mid: State, out: seq<Email>, b: seq<string>, end: State, more: seq<Email>)
    requires ValidState(st) && Leads(h, st, a, mid, out) && Leads(h, mid, b, end, more)
    ensures Leads(h, st, a + b, end, out + more)
  {
    OpenUp(h, st, a, mid, out);
    OpenUp(h, mid, b, end, more);
    RunBoth(h, st, a, mid, out, b, end, more);
    OpenUp(h, st, a + b, end, out + more);
  }

  lemma {:induction false} RunMails(h: Header, ms: seq<Mail>, n: nat, end: nat)
    requires end == n + |ms| && forall m :: m in ms ==> Printable(m)
    ensures Leads(h, Idle(n), PrintMails(ms), Idle(end), ToEmails(h, ms, n))
    decreases ms
  {
    if ms == [] {
      OpenUp(h, Idle(n), [], Idle(n), []);
    } else {
      assert ms[0] in ms;
      RunMail(h, ms[0], n);
      RunMails(h, ms[1..], n + 1, end);
      RunBothMails(h, Idle(n), PrintMail(ms[0]), Idle(n + 1), [ToEmail(h, ms[0], n)], PrintMails(ms[1..]),
                   Idle(end), ToEmails(h, ms[1..], n + 1));
    }
  }

  lemma {:induction false} DigitsThen(port: string, rest: string)
    requires (forall c :: c in port ==> IsDigit(c)) && (rest != "" ==> !IsDigit(rest[0]))
    ensures DigitsLength(port + rest) == |port|
  {
    if port == "" {
      assert port + rest == rest;
    } else {
      assert port[0] in port;
      assert (port + rest)[1..] == port[1..] + rest;
      DigitsThen(port[1..], rest);
    }
  }

  lemma SourceSlices(ip: string, port: string, rest: string, line: string)
    requires line == ip + ":" + port + rest
    ensures |ip| < |line| && line[..|ip|] == ip && line[|ip| + 1..] == port + rest
    ensures line[|ip| + 1..|ip| + 1 + |port|] == port
  {
  }

  lemma SourceOf(ip: string, port: string, rest: string)
    requires ip != "" && ':' !in ip && port != "" && (forall c :: c in port ==> IsDigit(c))
    requires rest != "" ==> !IsDigit(rest[0])
    ensures Source(ip + ":" + port + rest) == Some((ip, port))
  {
    assert ip + ":" + port + rest == ip + [':'] + (port + rest);
    IndexOfFirst(ip, ':', port + rest);
    DigitsThen(port, rest);
    SourceSlices(ip, port, rest, ip + ":" + port + rest);
  }

  /** Splitting a printed session gives back its messages: same envelopes, same bodies, files 0, 1, 2, ... */
  lemma {:induction false} ParsePrinted(
      ip: string, port: string, rest: string, time: string, ms: seq<Mail>, timeOf: string -> Option<int>, modified: int)
    requires ip != "" && ':' !in ip && port != "" && (forall c :: c in port ==> IsDigit(c))
    requires rest != "" ==> !IsDigit(rest[0])
    requires timeOf(Strip(time)).Some?
    requires forall m :: m in ms ==> Printable(m)
    ensures Parse([ip + ":" + port + rest, time] + PrintMails(ms), timeOf, modified)
         == Ok(ToEmails(Header(Some(ip), Some(port), timeOf(Strip(time)).value), ms, 0))
  {
    var h := Header(Some(ip), Some(port), timeOf(Strip(time)).value);
    SourceOf(ip, port, rest);
    RunMails(h, ms, 0, |ms|);
    OpenUp(h, Idle(0), PrintMails(ms), Idle(|ms|), ToEmails(h, ms, 0));
    var lines := [ip + ":" + port + rest, time] + PrintMails(ms);
    assert lines[2..] == PrintMails(ms);
    assert ToEmails(h, ms, 0) + [] == ToEmails(h, ms, 0);
  }

  // The same for the text of the session.

  predicate AllLines(lines: seq<string>) {
    forall l :: l in lines ==> IsLine(l)
  }

  function Text(lines: seq<string>): string {
    if lines == [] then "" else lines[0] + Text(lines[1..])
  }

  lemma {:induction false} ReadLinesOf(lines: seq<string>)
    requires AllLines(lines)
    ensures ReadLines(Text(lines)) == lines
  {
    if lines == [] {
    } else {
      var line, rest := lines[0], Text(lines[1..]);
      assert line in lines;
      var front := line[..|line| - 1];
      assert line + rest == front + ['\n'] + rest;
      IndexOfFirst(front, '\n', rest);
      assert (line + rest)[..|line|] == line && (line + rest)[|line|..] == rest;
      ReadLinesOf(lines[1..]);
    }
  }

  lemma LineOf(command: string, a: string, end: string)
    requires '\n' !in command && '\n' !in a && IsLine(end)
    ensures IsLine(command + a + end)
  {
    var line := command + a + end;
    assert line[..|line| - 1] == command + a + end[..|end| - 1];
  }

  lemma {:induction false} RecipientsAreLines(rcpts: seq<string>, replies: seq<string>)
    requires (forall a :: a in rcpts ==> IsAddress(a)) && AllLines(replies)
    ensures AllLines(PrintRecipients(rcpts, replies))
  {
    if rcpts == [] {
    } else {
      assert rcpts[0] in rcpts;
      LineOf(RCPT_TO, rcpts[0], ">\n");
      RecipientsAreLines(rcpts[1..], replies);
    }
  }

  lemma EnvelopeIsLines(e: Envelope, replies: seq<string>)
    requires HasAddresses(e) && AllLines(replies)
    ensures AllLines(PrintEnvelope(e, replies))
  {
    LineOf(MAIL_FROM, e.sender, ">\n");
    RecipientsAreLines(e.recipients, replies);
  }

  lemma {:induction false} AbandonedAreLines(es: seq<Envelope>, replies: seq<string>)
    requires (forall e :: e in es ==> HasAddresses(e)) && AllLines(replies)
    ensures AllLines(PrintAbandoned(es, replies))
    decreases es
  {
    if es == [] {
    } else {
      assert es[0] in es;
      EnvelopeIsLines(es[0], replies);
      LineOf("> RSET", "", "\n");
      assert "> RSET" + "" + "\n" == "> RSET\n";
      AbandonedAreLines(es[1..], replies);
    }
  }

  lemma MailIsLines(m: Mail)
    requires Printable(m)
    ensures AllLines(PrintMail(m))
  {
    AbandonedAreLines(m.abandoned, m.replies);
    EnvelopeIsLines(m.envelope, m.replies);
    LineOf(DATA, " Enter mail", "\n");
    LineOf(TERMINATOR, "", "\n");
  }

  lemma {:induction false} MailsAreLines(ms: seq<Mail>)
    requires forall m :: m in ms ==> Printable(m)
    ensures AllLines(PrintMails(ms))
  {
    if ms == [] {
    } else {
      MailIsLines(ms[0]);
      MailsAreLines(ms[1..]);
    }
  }

  /** Reading a printed session line by line and splitting it gives back its messages. */
  lemma {:induction false} ParseText(
      ip: string, port: string, rest: string, time: string, ms: seq<Mail>, timeOf: string -> Option<int>, modified: int)
    requires ip != "" && ':' !in ip && port != "" && (forall c :: c in port ==> IsDigit(c))
    requires rest != "" ==> !IsDigit(rest[0])
    requires IsLine(ip + ":" + port + rest) && IsLine(time) && timeOf(Strip(time)).Some?
    requires forall m :: m in ms ==> Printable(m)
    ensures Parse(ReadLines(Text([ip + ":" + port + rest, time] + PrintMails(ms))), timeOf, modified)
         == Ok(ToEmails(Header(Some(ip), Some(port), timeOf(Strip(time)).value), ms, 0))
  {
    MailsAreLines(ms);
    ReadLinesOf([ip + ":" + port + rest, time] + PrintMails(ms));
    ParsePrinted(ip, port, rest, time, ms, timeOf, modified);
  }

  // What the lines of interest look like.

  ghost predicate AllSpace(s: string) {
    forall c :: c in s ==> IsSpace(c)
  }

  lemma {:induction false} StripLeftOf(s: string) returns (a: string)
    ensures AllSpace(a) && s == a + StripLeft(s)
  {
    if s != "" && IsSpace(s[0]) {
      var rest := StripLeftOf(s[1..]);
      a := [s[0]] + rest;
    } else {
      a := "";
    }
  }

  lemma {:induction false} StripRightOf(s: string) returns (b: string)
    ensures AllSpace(b) && s == StripRight(s) + b
  {
    if s != "" && IsSpace(s[|s| - 1]) {
      var rest := StripRightOf(s[..|s| - 1]);
      b := rest + [s[|s| - 1]];
    } else {
      b := "";
    }
  }

  lemma {:induction false} StripLeftIs(a: string, t: string)
    requires AllSpace(a) && t != "" && !IsSpace(t[0])
    ensures StripLeft(a + t) == t
  {
    if a == "" {
      assert a + t == t;
    } else {
      assert a[0] in a && (a + t)[1..] == a[1..] + t;
      StripLeftIs(a[1..], t);
    }
  }

  lemma {:induction false} StripRightIs(t: string, b: string)
    requires AllSpace(b) && t != "" && !IsSpace(t[|t| - 1])
    ensures StripRight(t + b) == t
  {
    if b == "" {
      assert t + b == t;
    } else {
      var front := b[..|b| - 1];
      assert b[|b| - 1] in b && (t + b)[..|t + b| - 1] == t + front;
      StripRightIs(t, front);
    }
  }

  /** The line "> . .", with any white space around it, and no other line, ends a message. */
  lemma TerminatorExactly(line: string)
    ensures IsTerminator(line) <==>
            exists a: string, b: string :: AllSpace(a) && AllSpace(b) && line == a + "> . ." + b
  {
    if IsTerminator(line) {
      var a := StripLeftOf(line);
      var b := StripRightOf(StripLeft(line));
      assert line == a + "> . ." + b;
    }
    if a: string, b: string :| AllSpace(a) && AllSpace(b) && line == a + "> . ." + b {
      assert line == a + ("> . ." + b);
      StripLeftIs(a, "> . ." + b);
      StripRightIs("> . .", b);
    }
  }

  /** An address is what stands between the command and the first '>' after it. */
  lemma BracketedExactly(line: string, command: string, a: string)
    ensures (Bracketed(line, command) == Some(a)) <==> (a != "" && '>' !in a && command + a + ">" <= line)
  {
    if a != "" && '>' !in a && command + a + ">" <= line {
      var end := line[|command + a + ">"|..];
      assert line == command + (a + ['>'] + end);
      assert line[|command|..] == a + ['>'] + end;
      IndexOfFirst(a, '>', end);
      assert (a + ['>'] + end)[..|a|] == a;
    }
  }

  // A session told message by message, without a state.

  /** The line that opens a file for a message: the reply to DATA, or any line that is no command or reply. */
  predicate OpensFile(line: string) {
    DATA <= line || !IsCommand(line)
  }

  /** How many lines come before the first message. */
  function EnvelopeLength(lines: seq<string>): (k: nat)
    ensures k <= |lines|
    ensures forall i :: 0 <= i < k ==> !OpensFile(lines[i])
    ensures k < |lines| ==> OpensFile(lines[k])
  {
    if lines == [] || OpensFile(lines[0]) then 0 else 1 + EnvelopeLength(lines[1..])
  }

  function BodyLength(lines: seq<string>): (k: nat)
    ensures k <= |lines|
    ensures forall i :: 0 <= i < k ==> !IsTerminator(lines[i])
    ensures k < |lines| ==> IsTerminator(lines[k])
  {
    if lines == [] || IsTerminator(lines[0]) then 0 else 1 + BodyLength(lines[1..])
  }

  /** How many lines there are up to the last reset, and with it. */
  function ResetLength(lines: seq<string>): (k: nat)
    ensures k <= |lines|
    ensures k > 0 ==> IsReset(lines[k - 1])
    ensures forall i :: k <= i < |lines| ==> !IsReset(lines[i])
  {
    if lines == [] || IsReset(lines[|lines| - 1]) then |lines| else ResetLength(lines[..|lines| - 1])
  }

  function Address(line: string, command: string): seq<string> {
    var a := Bracketed(line, command);
    if a.Some? then [a.value] else []
  }

  /** The addresses in the lines of one command, in order. */
  function Addresses(lines: seq<string>, command: string): seq<string> {
    if lines == [] then [] else Address(lines[0], command) + Addresses(lines[1..], command)
  }

  function Last(s: seq<string>): Option<string> {
    if s == [] then None else Some(s[|s| - 1])
  }

  /**
   The first message. Its envelope is made of the lines after the last reset: the last sender, and all
   recipients. It goes on to its terminator or to the end.
   */
  function FirstEmail(h: Header, lines: seq<string>, n: nat): Email
    requires EnvelopeLength(lines) < |lines|
  {
    var k := EnvelopeLength(lines);
    var envelope := lines[..k][ResetLength(lines[..k])..];
    var first := if IsCommand(lines[k]) then [] else [lines[k]];
    var rest := lines[k + 1..];
    Email(h, Last(Addresses(envelope, MAIL_FROM)), Addresses(envelope, RCPT_TO), n, first + rest[..BodyLength(rest)])
  }

  /** The lines after the first message and its terminator. */
  function AfterFirst(lines: seq<string>): (r: seq<string>)
    requires EnvelopeLength(lines) < |lines|
    ensures |r| < |lines|
  {
    var rest := lines[EnvelopeLength(lines) + 1..];
    if BodyLength(rest) == |rest| then [] else rest[BodyLength(rest) + 1..]
  }

  /** The emails of a session, files from n on. */
  function Session(h: Header, lines: seq<string>, n: nat): seq<Email>
    decreases |lines|
  {
    if EnvelopeLength(lines) == |lines| then []
    else [FirstEmail(h, lines, n)] + Session(h, AfterFirst(lines), n + 1)
  }

  lemma {:induction false} AddressesNext(lines: seq<string>, line: string, command: string)
    ensures Addresses(lines + [line], command) == Addresses(lines, command) + Address(line, command)
  {
    if lines == [] {
      assert [] + [line] == [line] && [line][1..] == [];
    } else {
      var a, b, c := Address(lines[0], command), Addresses(lines[1..], command), Address(line, command);
      assert (lines + [line])[1..] == lines[1..] + [line];
      AddressesNext(lines[1..], line, command);
      assert a + (b + c) == a + b + c;
    }
  }

  /** What the splitter knows of an envelope. */
  function Known(lines: seq<string>, n: nat): State {
    var envelope := lines[ResetLength(lines)..];
    State(Smtp, Last(Addresses(envelope, MAIL_FROM)), Addresses(envelope, RCPT_TO), n, [])
  }

  lemma NotBoth(line: string)
    ensures MAIL_FROM <= line ==> !(RCPT_TO <= line) && !IsReset(line)
    ensures RCPT_TO <= line ==> !IsReset(line)
  {
    assert MAIL_FROM[2] == 'M' && RCPT_TO[2] == 'R' && RCPT_TO[3] == 'C';
    assert IsReset(line) ==> line[2] == 'R' && line[3] == 'S';
  }

  lemma {:induction false} ResetNext(lines: seq<string>, line: string)
    ensures ResetLength(lines + [line]) == if IsReset(line) then |lines| + 1 else ResetLength(lines)
  {
    assert (lines + [line])[..|lines|] == lines;
  }

  lemma KnownNext(lines: seq<string>, line: string, n: nat)
    ensures var st := Known(lines, n);
            var a, b := Bracketed(line, MAIL_FROM), Bracketed(line, RCPT_TO);
            Known(lines + [line], n) == if IsReset(line) then Idle(n) else
              st.(envelopeFrom := if a.Some? then a else st.envelopeFrom,
                  envelopeTo := st.envelopeTo + if b.Some? then [b.value] else [])
  {
    ResetNext(lines, line);
    var k := ResetLength(lines);
    var all := lines + [line];
    if IsReset(line) {
      assert all[|all|..] == [];
    } else {
      assert all[k..] == lines[k..] + [line];
      AddressesNext(lines[k..], line, MAIL_FROM);
      AddressesNext(lines[k..], line, RCPT_TO);
    }
  }

  lemma StepEnvelope(h: Header, st: State, line: string, next: State)
    requires st.phase == Smtp && !OpensFile(line)
    requires var a, b := Bracketed(line, MAIL_FROM), Bracketed(line, RCPT_TO);
             next == if IsReset(line) then Idle(st.messageIndex) else
               st.(envelopeFrom := if a.Some? then a else st.envelopeFrom,
                   envelopeTo := st.envelopeTo + if b.Some? then [b.value] else [])
    ensures Leads(h, st, [line], next, [])
  {
    NotBoth(line);
    assert st.envelopeTo + [] == st.envelopeTo;
    RunOne(h, st, line);
    OpenUp(h, st, [line], next, []);
  }

  lemma {:induction false} EnvelopeRun(h: Header, lines: seq<string>, n: nat)
    requires forall i :: 0 <= i < |lines| ==> !OpensFile(lines[i])
    ensures Leads(h, Idle(n), lines, Known(lines, n), [])
  {
    if lines == [] {
      OpenUp(h, Idle(n), lines, Known(lines, n), []);
    } else {
      var front, line := lines[..|lines| - 1], lines[|lines| - 1];
      EnvelopeRun(h, front, n);
      KnownNext(front, line, n);
      StepEnvelope(h, Known(front, n), line, Known(front + [line], n));
      LeadsThen(h, Idle(n), front, Known(front, n), [line], Known(front + [line], n), []);
      assert front + [line] == lines;
    }
  }

  /** The emails of the lines. Looked into only for opened lines. */
  ghost predicate Gives(h: Header, st: State, lines: seq<string>, emails: seq<Email>) {
    forall l {:trigger Shown(l)} :: Shown(l) && l == lines ==> ValidState(st) && Emails(h, st, l) == emails
  }

  lemma GivesAtEnd(h: Header, st: State, lines: seq<string>, end: State)
    requires Leads(h, st, lines, end, [])
    ensures ValidState(end) && Gives(h, st, lines, AtEnd(h, end))
  {
    OpenUp(h, st, lines, end, []);
    assert [] + AtEnd(h, end) == AtEnd(h, end);
  }

  lemma GivesAfter(h: Header, st: State, a: seq<string>, mid: State, out: seq<Email>, b: seq<string>, more: seq<Email>)
    requires Leads(h, st, a, mid, out) && Gives(h, mid, b, more)
    ensures Gives(h, st, a + b, out + more)
  {
    OpenUp(h, st, a, mid, out);
    assert Shown(b);
    EmailsAfter(h, st, a, mid, out, b);
  }

  lemma StepOpens(h: Header, st: State, line: string)
    requires st.phase == Smtp && OpensFile(line)
    ensures Step(h, st, line) == (st.(phase := Data, messageIndex := st.messageIndex + 1,
                                      body := if IsCommand(line) then [] else [line]), [])
  {
    assert MAIL_FROM[0] == '>' && RCPT_TO[0] == '>' && DATA[0] == '<';
  }

  /** The state with a message read up to its end. */
  function Reading(st: State, body: seq<string>): State {
    State(Data, st.envelopeFrom, st.envelopeTo, st.messageIndex + 1, body)
  }

  /** From the line that opens the file on, to the end of the message. */
  lemma {:induction false} MessageRun(h: Header, st: State, line: string, body: seq<string>)
    requires st.phase == Smtp && OpensFile(line) && forall l :: l in body ==> !IsTerminator(l)
    ensures Leads(h, st, [line] + body, Reading(st, (if IsCommand(line) then [] else [line]) + body), [])
  {
    var first := if IsCommand(line) then [] else [line];
    StepOpens(h, st, line);
    RunOne(h, st, line);
    OpenUp(h, st, [line], Reading(st, first), []);
    RunBody(h, Reading(st, first), body);
    OpenUp(h, Reading(st, first), body, Reading(st, first + body), []);
    LeadsThen(h, st, [line], Reading(st, first), body, Reading(st, first + body), []);
  }

  lemma MessageEnds(h: Header, st: State, end: string)
    requires st.phase == Data && ValidState(st) && IsTerminator(end)
    ensures Leads(h, st, [end], Idle(st.messageIndex), [Current(h, st)])
  {
    RunOne(h, st, end);
    OpenUp(h, st, [end], Idle(st.messageIndex), [Current(h, st)]);
  }

  lemma SessionParts(lines: seq<string>, k: nat, e: nat)
    requires k < |lines| && k + 1 + e <= |lines|
    ensures var rest := lines[k + 1..];
            && (e == |rest| ==> lines[..k] + ([lines[k]] + rest[..e]) == lines)
            && (e < |rest| ==> lines[..k] + ([lines[k]] + rest[..e]) + [rest[e]] + rest[e + 1..] == lines)
  {
  }

  lemma {:induction false} SessionRun(h: Header, lines: seq<string>, n: nat, k: nat, e: nat, body: seq<string>)
    requires k == EnvelopeLength(lines) < |lines| && e == BodyLength(lines[k + 1..])
    requires body == (if IsCommand(lines[k]) then [] else [lines[k]]) + lines[k + 1..][..e]
    ensures Leads(h, Idle(n), lines[..k] + ([lines[k]] + lines[k + 1..][..e]), Reading(Known(lines[..k], n), body), [])
  {
    EnvelopeRun(h, lines[..k], n);
    MessageRun(h, Known(lines[..k], n), lines[k], lines[k + 1..][..e]);
    LeadsThen(h, Idle(n), lines[..k], Known(lines[..k], n), [lines[k]] + lines[k + 1..][..e],
              Reading(Known(lines[..k], n), body), []);
  }

  /** The first message as the splitter holds it when it ends. */
  function FirstRead(lines: seq<string>, n: nat): State
    requires EnvelopeLength(lines) < |lines|
  {
    var k := EnvelopeLength(lines);
    var rest := lines[k + 1..];
    Reading(Known(lines[..k], n), (if IsCommand(lines[k]) then [] else [lines[k]]) + rest[..BodyLength(rest)])
  }

  lemma {:induction false} FirstIs(h: Header, lines: seq<string>, n: nat)
    requires EnvelopeLength(lines) < |lines|
    ensures Current(h, FirstRead(lines, n)) == FirstEmail(h, lines, n)
  {
  }

  lemma {:induction false} LastMessage(h: Header, lines: seq<string>, n: nat, k: nat, e: nat)
    requires k == EnvelopeLength(lines) < |lines| && e == BodyLength(lines[k + 1..]) == |lines[k + 1..]|
    ensures Gives(h, Idle(n), lines, [FirstEmail(h, lines, n)])
  {
    var read := FirstRead(lines, n);
    SessionRun(h, lines, n, k, e, read.body);
    SessionParts(lines, k, e);
    FirstIs(h, lines, n);
    GivesAtEnd(h, Idle(n), lines, read);
  }

  lemma {:induction false} MessageThen(h: Header, lines: seq<string>, n: nat, k: nat, e: nat, more: seq<Email>)
    requires k == EnvelopeLength(lines) < |lines| && e == BodyLength(lines[k + 1..]) < |lines[k + 1..]|
    requires Gives(h, Idle(n + 1), lines[k + 1..][e + 1..], more)
    ensures Gives(h, Idle(n), lines, [FirstEmail(h, lines, n)] + more)
  {
    var rest := lines[k + 1..];
    var read := FirstRead(lines, n);
    var before := lines[..k] + ([lines[k]] + rest[..e]);
    SessionRun(h, lines, n, k, e, read.body);
    SessionParts(lines, k, e);
    MessageEnds(h, read, rest[e]);
    FirstIs(h, lines, n);
    LeadsThen(h, Idle(n), before, read, [rest[e]], Idle(n + 1), [Current(h, read)]);
    GivesAfter(h, Idle(n), before + [rest[e]], Idle(n + 1), [Current(h, read)], rest[e + 1..], more);
  }

  lemma {:induction false} GivesNothing(h: Header, n: nat)
    ensures Gives(h, Idle(n), [], []) && Session(h, [], n) == []
  {
    assert Emails(h, Idle(n), []) == [];
  }

  lemma {:induction false} SessionGives(h: Header, lines: seq<string>, n: nat)
    ensures Gives(h, Idle(n), lines, Session(h, lines, n))
    decreases |lines|
  {
    var k := EnvelopeLength(lines);
    if k == |lines| {
      assert lines[..k] == lines;
      EnvelopeRun(h, lines, n);
      GivesAtEnd(h, Idle(n), lines, Known(lines, n));
    } else {
      var e := BodyLength(lines[k + 1..]);
      if e == |lines[k + 1..]| {
        LastMessage(h, lines, n, k, e);
        GivesNothing(h, n + 1);
        assert [FirstEmail(h, lines, n)] + [] == [FirstEmail(h, lines, n)];
      } else {
        SessionGives(h, AfterFirst(lines), n + 1);
        MessageThen(h, lines, n, k, e, Session(h, AfterFirst(lines), n + 1));
      }
    }
  }

  /** Whatever the lines are: the emails found are those of the session told message by message. */
  lemma {:induction false} SessionExactly(h: Header, lines: seq<string>, n: nat)
    ensures Emails(h, Idle(n), lines) == Session(h, lines, n)
  {
    SessionGives(h, lines, n);
    assert Shown(lines);
  }

  /** The line begins with an address, a ':' and all the digits of a port. */
  ghost predicate NamesSource(line: string, ip: string, port: string) {
    && ip != "" && ':' !in ip && port != "" && (forall c :: c in port ==> IsDigit(c))
    && ip + ":" + port <= line && (|ip| + 1 + |port| < |line| ==> !IsDigit(line[|ip| + 1 + |port|]))
  }

  lemma {:induction false} DigitsTaken(rest: string, n: nat, port: string)
    requires n == DigitsLength(rest) && port == rest[..n]
    ensures forall c :: c in port ==> IsDigit(c)
  {
  }

  lemma Reassembled(line: string, i: nat, n: nat)
    requires i < |line| && line[i] == ':' && i + 1 + n <= |line|
    ensures line[..i] + ":" + line[i + 1..i + 1 + n] <= line
  {
  }

  lemma SourceIsNamed(line: string, ip: string, port: string)
    requires Source(line) == Some((ip, port))
    ensures NamesSource(line, ip, port)
  {
    var i := IndexOf(line, ':');
    var rest := line[i + 1..];
    var n := DigitsLength(rest);
    assert ip == line[..i] && port == line[i + 1..i + 1 + n] == rest[..n];
    DigitsTaken(rest, n, port);
    Reassembled(line, i, n);
    assert i + 1 + n < |line| ==> line[i + 1 + n] == rest[n];
  }

  lemma NamedIsSource(line: string, ip: string, port: string)
    requires NamesSource(line, ip, port)
    ensures Source(line) == Some((ip, port))
  {
    var rest := line[|ip| + 1 + |port|..];
    assert line == ip + ":" + port + rest;
    SourceOf(ip, port, rest);
  }

  lemma SourceExactly(line: string, ip: string, port: string)
    ensures Source(line) == Some((ip, port)) <==> NamesSource(line, ip, port)
  {
    if Source(line) == Some((ip, port)) {
      SourceIsNamed(line, ip, port);
    }
    if NamesSource(line, ip, port) {
      NamedIsSource(line, ip, port);
    }
  }

  /**
   The whole parse: two lines of header when the first one names the source and the second one is a time, an
   error when it is no time, and otherwise a session from the first line on.
   */
  lemma {:induction false} ParseExactly(lines: seq<string>, timeOf: string -> Option<int>, modified: int)
    ensures var source := Source(if lines == [] then "" else lines[0]);
            var time := timeOf(Strip(if |lines| < 2 then "" else lines[1]));
            Parse(lines, timeOf, modified) ==
              if source.None? then Ok(Session(Header(None, None, modified), lines, 0))
              else if time.None? then Err(ValueError)
              else Ok(Session(Header(Some(source.value.0), Some(source.value.1), time.value),
                              if |lines| < 2 then [] else lines[2..], 0))
  {
    var source := Source(if lines == [] then "" else lines[0]);
    var time := timeOf(Strip(if |lines| < 2 then "" else lines[1]));
    if source.None? {
      SessionExactly(Header(None, None, modified), lines, 0);
    } else if time.Some? {
      SessionExactly(Header(Some(source.value.0), Some(source.value.1), time.value),
                     if |lines| < 2 then [] else lines[2..], 0);
    }
  }

  // The parser as the program runs it.

  /** A Python list of addresses: an object that may be shared. */
  class AddressList {
    var items: seq<string>

    constructor ()
      ensures items == []
    {
      items := [];
    }

    method Append(a: string)
      modifies this
      ensures items == old(items) + [a]
    {
      items := items + [a];
    }
  }

  /** The named tuple that is yielded; it shares its recipient list with nobody once it is out. */
  datatype Yielded = Yielded(header: Header, envelopeFrom: Option<string>, envelopeTo: AddressList, index: nat)

  class Splitter {
    const header: Header
    var state: Phase
    var envelopeFrom: Option<string>
    var envelopeTo: AddressList
    var messageIndex: nat
    var files: seq<seq<string>>  // the lines written to file 0, 1, 2, ...

    constructor (header: Header)
      ensures this.header == header && Valid() && fresh(envelopeTo)
      ensures CurrentState() == Idle(0) && files == []
    {
      this.header := header;
      state, envelopeFrom, messageIndex, files := Smtp, None, 0, [];
      envelopeTo := new AddressList();
    }

    ghost predicate Valid()
      reads this
    {
      |files| == messageIndex && (state == Data ==> messageIndex > 0)
    }

    ghost function CurrentState(): State
      requires Valid()
      reads this, envelopeTo
    {
      State(state, envelopeFrom, envelopeTo.items, messageIndex, if state == Data then files[messageIndex - 1] else [])
    }

    method ResetState()
      requires Valid()
      modifies this
      ensures Valid() && CurrentState() == Idle(messageIndex)
      ensures fresh(envelopeTo) && messageIndex == old(messageIndex) && files == old(files)
    {
      envelopeFrom := None;
      envelopeTo := new AddressList();
      state := Smtp;
    }

    method Finalize() returns (y: Yielded)
      requires Valid() && state == Data
      modifies this
      ensures Valid() && CurrentState() == Idle(messageIndex)
      ensures y == Yielded(header, old(envelopeFrom), old(envelopeTo), old(messageIndex) - 1)
      ensures fresh(envelopeTo) && messageIndex == old(messageIndex) && files == old(files)
    {
      y := Yielded(header, envelopeFrom, envelopeTo, messageIndex - 1);
      ResetState();
    }

    /** The loop body for one line. */
    method Take(line: string) returns (out: seq<Yielded>)
      requires Valid()
      modifies this, envelopeTo
      ensures Valid() && (envelopeTo == old(envelopeTo) || fresh(envelopeTo))
      ensures CurrentState() == Step(header, old(CurrentState()), line).0
      ensures |out| == |Step(header, old(CurrentState()), line).1| <= 1
      ensures out != [] ==> fresh(envelopeTo) && out[0].envelopeTo == old(envelopeTo)
                            && old(envelopeTo).items == old(envelopeTo.items)
                            && files == old(files) && out[0].index == |files| - 1
                            && ToValue(out[0], files) == Step(header, old(CurrentState()), line).1[0]
      ensures |old(files)| <= |files|
      ensures forall i :: 0 <= i < |old(files)| - (if old(state) == Data then 1 else 0) ==> files[i] == old(files)[i]
    {
      out := [];
      if state == Smtp {
        var sender := Bracketed(line, MAIL_FROM);
        if sender.Some? {
          envelopeFrom := sender;
          return;
        }
        var recipient := Bracketed(line, RCPT_TO);
        if recipient.Some? {
          envelopeTo.Append(recipient.value);
          return;
        }
        if DATA <= line || !IsCommand(line) {
          state := Data;
          messageIndex := messageIndex + 1;
          files := files + [if IsCommand(line) then [] else [line]];
          return;
        }
        if IsReset(line) {
          ResetState();
        }
        return;
      }
      if IsTerminator(line) {
        var y := Finalize();
        return [y];
      }
      files := files[|files| - 1 := files[|files| - 1] + [line]];
    }
  }

  /** What a consumer sees in a yielded email. */
  ghost function ToValue(y: Yielded, files: seq<seq<string>>): Email
    requires y.index < |files|
    reads y.envelopeTo
  {
    Email(y.header, y.envelopeFrom, y.envelopeTo.items, y.index, files[y.index])
  }

  /** The consumer sees exactly these emails; no two of them share a recipient list. */
  ghost predicate Shows(ys: seq<Yielded>, files: seq<seq<string>>, emails: seq<Email>)
    reads set i | 0 <= i < |ys| :: ys[i].envelopeTo
  {
    && |ys| == |emails|
    && (forall i :: 0 <= i < |ys| ==> ys[i].index < |files| && ToValue(ys[i], files) == emails[i])
    && (forall i, j :: 0 <= i < j < |ys| ==> ys[i].envelopeTo != ys[j].envelopeTo)
  }

  /** What the consumer holds is out of the splitter's reach: neither its list nor its open file. */
  ghost predicate Collected(splitter: Splitter, ys: seq<Yielded>, emails: seq<Email>)
    reads splitter, set i | 0 <= i < |ys| :: ys[i].envelopeTo
  {
    && splitter.Valid()
    && Shows(ys, splitter.files, emails)
    && (forall i :: 0 <= i < |ys| ==> ys[i].envelopeTo != splitter.envelopeTo)
    && (forall i :: 0 <= i < |ys| ==> ys[i].index < |splitter.files| - if splitter.state == Data then 1 else 0)
  }

  method Collect(splitter: Splitter, line: string, ys: seq<Yielded>, ghost emails: seq<Email>)
    returns (more: seq<Yielded>)
    requires Collected(splitter, ys, emails)
    modifies splitter, splitter.envelopeTo
    ensures splitter.envelopeTo == old(splitter.envelopeTo) || fresh(splitter.envelopeTo)
    ensures Collected(splitter, more, emails + Step(splitter.header, old(splitter.CurrentState()), line).1)
    ensures splitter.CurrentState() == Step(splitter.header, old(splitter.CurrentState()), line).0
  {
    var out := splitter.Take(line);
    more := ys;
    if |out| == 1 {
      more := ys + [out[0]];
    } else {
      assert emails + [] == emails;
    }
  }

  lemma {:induction false} RunSnoc(h: Header, st: State, lines: seq<string>, i: nat)
    requires ValidState(st) && i < |lines|
    ensures Run(h, st, lines[..i + 1]).0 == Step(h, Run(h, st, lines[..i]).0, lines[i]).0
    ensures Run(h, st, lines[..i + 1]).1 == Run(h, st, lines[..i]).1 + Step(h, Run(h, st, lines[..i]).0, lines[i]).1
  {
    assert lines[..i + 1] == lines[..i] + [lines[i]];
    RunConcat(h, st, lines[..i], [lines[i]]);
    RunOne(h, Run(h, st, lines[..i]).0, lines[i]);
  }

  /** The end of the file: a message that is still open is yielded. */
  method CollectLast(splitter: Splitter, ys: seq<Yielded>, ghost emails: seq<Email>) returns (more: seq<Yielded>)
    requires Collected(splitter, ys, emails)
    modifies splitter
    ensures splitter.messageIndex == old(splitter.messageIndex)
    ensures splitter.Valid()
    ensures Shows(more, splitter.files, emails + AtEnd(splitter.header, old(splitter.CurrentState())))
  {
    more := ys;
    if splitter.state == Data {
      var y := splitter.Finalize();
      more := ys + [y];
    } else {
      assert emails + [] == emails;
    }
  }

  /**
   The generator, run to its end: the emails of the session, with the files as they are then. What was
   yielded early still reads as it did, although the loop went on to fill other lists and files.
   */
  method ParseSession(header: Header, lines: seq<string>) returns (ys: seq<Yielded>, files: seq<seq<string>>)
    ensures Shows(ys, files, Emails(header, Idle(0), lines))
    ensures |files| == |ys|
  {
    var splitter := new Splitter(header);
    ys := [];
    var i := 0;
    while i < |lines|
      invariant i <= |lines|
      invariant fresh(splitter) && fresh(splitter.envelopeTo) && splitter.header == header
      invariant Collected(splitter, ys, Run(header, Idle(0), lines[..i]).1)
      invariant splitter.CurrentState() == Run(header, Idle(0), lines[..i]).0
    {
      RunSnoc(header, Idle(0), lines, i);
      ys := Collect(splitter, lines[i], ys, Run(header, Idle(0), lines[..i]).1);
      i := i + 1;
    }
    assert lines[..i] == lines;
    EmailsIndexes(header, lines);
    ys := CollectLast(splitter, ys, Run(header, Idle(0), lines).1);
    files := splitter.files;
  }

  /** parse_bro_smtp: the two header lines, then the session. */
  method ParseBroSmtp(lines: seq<string>, timeOf: string -> Option<int>, modified: int)
    returns (r: Result<(seq<Yielded>, seq<seq<string>>), Error>)
    ensures r.Ok? <==> Parse(lines, timeOf, modified).Ok?
    ensures r.Ok? ==> Shows(r.value.0, r.value.1, Parse(lines, timeOf, modified).value)
  {
    var first := if lines == [] then "" else lines[0];
    var source := Source(first);
    var header, rest := Header(None, None, modified), lines;
    if source.Some? {
      var second := if |lines| < 2 then "" else lines[1];
      var time := timeOf(Strip(second));
      if time.None? {
        return Err(ValueError);
      }
      header := Header(Some(source.value.0), Some(source.value.1), time.value);
      rest := if |lines| < 2 then [] else lines[2..];
    }
    var ys, files := ParseSession(header, rest);
    return Ok((ys, files));
  }
}
