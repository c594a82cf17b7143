/** The grammar's messages are framed well: the bridge from the grammar to the read buffer. */
module HttpFraming {
  import opened Options
  import opened CStrings
  import opened Framing
  import opened HttpGrammar
  import opened Numerals
  import opened LetterCase

  /** The request line, the field lines and the blank line. */
  function Head(m: Message): string {
    Join(Lines(m)) + BLANK_LINE
  }

  /** "content-length:" occurs in the text, in any letter case. */
  ghost predicate Mentions(t: string) {
    exists j: nat :: OccursUpToCase(t, "content-length:", j)
  }

  lemma MentionIsFound(t: string)
    ensures Mentions(t) <==> StrCaseStr(t, CONTENT_LENGTH).Some?
  {
    hide OccursUpToCase, StrStr, Lower;
    CaseStrMeans(t, "content-length:");
    PatternInLowerCase();
  }

  /** Field `i` is called content-length, in any letter case, and has a decimal number, and
    * neither the request line nor an earlier field has "content-length:" anywhere in it. */
  ghost predicate FirstLengthField(m: Message, i: nat, n: nat)
    requires i < |m.fields|
  {
    && SameUpToCase(m.fields[i].name, "content-length")
    && m.fields[i].value != [] && AllDigits(m.fields[i].value) && Decimal(m.fields[i].value) == n
    && !Mentions(m.Line()) && forall k :: 0 <= k < i ==> !Mentions(m.fields[k].Text())
  }

  /** The message fits the buffer, and its first content-length field gives the length of its
    * body; or no line mentions a content-length and there is no body. */
  ghost predicate SaysItsLength(m: Message) {
    && |m.Text()| < BUFFER_SIZE
    && ((exists i :: 0 <= i < |m.fields| && FirstLengthField(m, i, |m.body|))
        || (m.body == [] && !Mentions(m.Line()) && forall k :: 0 <= k < |m.fields| ==> !Mentions(m.fields[k].Text())))
  }

  // ------------------------------------------------------- where a pattern first occurs

  /** A pattern without line breaks that begins in a line is in the line. */
  lemma OccursWithinLine(l: string, rest: string, pattern: string, j: nat)
    requires pattern != [] && '\r' !in pattern && '\n' !in pattern && j < |l| + 2
    ensures OccursAt(l + CRLF + rest, pattern, j) ==> OccursAt(l, pattern, j)
  {
    var t := l + CRLF + rest;
    assert l <= t && t[|l|] == '\r' && t[|l| + 1] == '\n';
    if j + |pattern| <= |l| {
      OccursInPrefix(l, t, pattern, j);
    } else if j <= |l| {
      NotIn(pattern, |l| - j, '\r');
      Differs(t, pattern, j, |l| - j);
    } else {
      NotIn(pattern, 0, '\n');
      Differs(t, pattern, j, 0);
    }
  }

  lemma NotIn(t: string, k: nat, c: char)
    requires k < |t| && c !in t
    ensures t[k] != c
  {
  }

  function Offset(lines: seq<string>, k: nat): nat
    requires k < |lines|
  {
    if k == 0 then 0 else |lines[0]| + 2 + Offset(lines[1..], k - 1)
  }

  /** The first occurrence in joined lines, if the k-th one begins with the pattern and no earlier
    * one has it. */
  lemma {:induction false} FirstInLines(lines: seq<string>, rest: string, pattern: string, k: nat)
    requires k < |lines| && pattern != [] && '\r' !in pattern && '\n' !in pattern
    requires OccursAt(lines[k], pattern, 0)
    requires forall i :: 0 <= i < k ==> StrStr(lines[i], pattern).None?
    ensures StrStr(Join(lines) + rest, pattern) == Some(Offset(lines, k))
    decreases |lines|
  {
    hide OccursAt, StrStr;
    var t := Join(lines) + rest;
    if k == 0 {
      LineStartsText(lines, rest);
      OccursFits(lines[0], pattern, 0);
      OccursInPrefix(lines[0], t, pattern, 0);
      StrStrIs(t, pattern, 0);
    } else {
      var l, more := lines[0], Join(lines[1..]) + rest;
      assert t == l + CRLF + more;
      forall i | 0 <= i < k - 1
        ensures StrStr(lines[1..][i], pattern).None?
      {
        assert lines[1..][i] == lines[i + 1];
      }
      FirstInLines(lines[1..], rest, pattern, k - 1);
      FirstBehindLine(l, more, pattern, Offset(lines[1..], k - 1));
    }
  }

  lemma LineStartsText(lines: seq<string>, rest: string)
    requires lines != []
    ensures lines[0] <= Join(lines) + rest
  {
  }

  lemma FirstBehindLine(l: string, more: string, pattern: string, at: nat)
    requires pattern != [] && '\r' !in pattern && '\n' !in pattern
    requires StrStr(l, pattern).None? && StrStr(more, pattern) == Some(at)
    ensures StrStr(l + CRLF + more, pattern) == Some(|l| + 2 + at)
  {
    hide OccursAt;
    var t := l + CRLF + more;
    forall j: nat | j < |l| + 2 + at
      ensures !OccursAt(t, pattern, j)
    {
      if j < |l| + 2 {
        OccursWithinLine(l, more, pattern, j);
      } else {
        OccursBehind(l + CRLF, more, pattern, j);
      }
    }
    OccursBehind(l + CRLF, more, pattern, |l| + 2 + at);
    StrStrIs(t, pattern, |l| + 2 + at);
  }

  /** A pattern that no line has is not in the joined lines. */
  lemma {:induction false} NotInLines(lines: seq<string>, pattern: string)
    requires lines != [] && pattern != [] && '\r' !in pattern && '\n' !in pattern
    requires forall i :: 0 <= i < |lines| ==> StrStr(lines[i], pattern).None?
    ensures StrStr(Join(lines) + BLANK_LINE, pattern) == None
    decreases |lines|
  {
    hide OccursAt, StrStr;
    if |lines| == 1 {
      assert Join(lines) + BLANK_LINE == lines[0] + CRLF + CRLF;
      NotBehindLine(lines[0], CRLF, pattern) by { NotInBreak(pattern); }
    } else {
      var more := Join(lines[1..]) + BLANK_LINE;
      assert Join(lines) + BLANK_LINE == lines[0] + CRLF + more;
      NotInLines(lines[1..], pattern);
      NotBehindLine(lines[0], more, pattern);
    }
  }

  lemma NotInBreak(pattern: string)
    requires pattern != [] && '\r' !in pattern && '\n' !in pattern
    ensures StrStr(CRLF, pattern) == None
  {
    forall j: nat
      ensures !OccursAt(CRLF, pattern, j)
    {
      NotIn(pattern, 0, '\r');
      NotIn(pattern, 0, '\n');
      Differs(CRLF, pattern, j, 0);
    }
    StrStrIsNone(CRLF, pattern);
  }

  lemma NotBehindLine(l: string, more: string, pattern: string)
    requires pattern != [] && '\r' !in pattern && '\n' !in pattern
    requires StrStr(l, pattern).None? && StrStr(more, pattern).None?
    ensures StrStr(l + CRLF + more, pattern) == None
  {
    hide OccursAt;
    var t := l + CRLF + more;
    forall j: nat
      ensures !OccursAt(t, pattern, j)
    {
      if j < |l| + 2 {
        OccursWithinLine(l, more, pattern, j);
      } else {
        OccursBehind(l + CRLF, more, pattern, j);
      }
    }
    StrStrIsNone(t, pattern);
  }

  // ------------------------------------------------------- the length a message declares

  lemma {:induction false} JoinIsNulFree(lines: seq<string>)
    requires lines != [] && forall i :: 0 <= i < |lines| ==> IsLine(lines[i])
    ensures NulFree(Join(lines))
    decreases |lines|
  {
    LineIsNulFree(lines[0]);
    if |lines| > 1 {
      JoinIsNulFree(lines[1..]);
    }
  }

  lemma LineIsNulFree(l: string)
    requires IsLine(l)
    ensures NulFree(l)
  {
  }

  lemma LinesOfMessage(m: Message)
    requires m.Valid()
    ensures forall i :: 0 <= i < |Lines(m)| ==> IsLine(Lines(m)[i])
  {
    RequestLineIsLine(m);
    forall i | 0 <= i < |m.fields|
      ensures IsLine(FieldTexts(m.fields)[i])
    {
      FieldIsLine(m.fields[i]);
    }
  }

  function LowerAll(lines: seq<string>): (r: seq<string>)
    ensures |r| == |lines| && forall i :: 0 <= i < |r| ==> r[i] == Lower(lines[i])
  {
    seq(|lines|, i requires 0 <= i < |lines| => Lower(lines[i]))
  }

  lemma LowerAppended(s: string, t: string)
    ensures Lower(s + t) == Lower(s) + Lower(t)
  {
  }

  lemma {:induction false} LowerJoined(lines: seq<string>)
    requires lines != []
    ensures Lower(Join(lines)) == Join(LowerAll(lines))
    decreases |lines|
  {
    if |lines| > 1 {
      LowerJoined(lines[1..]);
      LowerAppended(lines[0], CRLF + Join(lines[1..]));
      LowerAppended(CRLF, Join(lines[1..]));
      assert Lower(CRLF) == CRLF;
      assert LowerAll(lines)[1..] == LowerAll(lines[1..]);
    }
  }

  /** The line `l` is in the text from `at` on, and ends there. */
  predicate LineAt(t: string, at: nat, l: string) {
    at + |l| < |t| && t[at..at + |l|] == l && t[at + |l|] == '\r'
  }

  lemma LineAtBehind(s: string, t: string, at: nat, l: string)
    requires LineAt(t, at, l)
    ensures LineAt(s + t, |s| + at, l)
  {
    assert (s + t)[|s| + at..|s| + at + |l|] == t[at..at + |l|];
  }

  lemma FirstLineAt(lines: seq<string>, rest: string)
    requires lines != [] && rest != [] && rest[0] == '\r'
    ensures LineAt(Join(lines) + rest, 0, lines[0])
  {
  }

  /** Where the k-th line is. */
  lemma {:induction false} LineIsAtOffset(lines: seq<string>, rest: string, k: nat)
    requires k < |lines| && rest != [] && rest[0] == '\r'
    ensures LineAt(Join(lines) + rest, Offset(LowerAll(lines), k), lines[k])
    decreases |lines|
  {
    hide LineAt;
    if k == 0 {
      FirstLineAt(lines, rest);
    } else {
      LineIsAtOffset(lines[1..], rest, k - 1);
      assert LowerAll(lines)[1..] == LowerAll(lines[1..]);
      LineAtBehind(lines[0] + CRLF, Join(lines[1..]) + rest, Offset(LowerAll(lines[1..]), k - 1), lines[k]);
      assert Join(lines) + rest == lines[0] + CRLF + (Join(lines[1..]) + rest);
    }
  }

  lemma PatternInLowerCase()
    ensures Lower(CONTENT_LENGTH) == "content-length:" == Lower("content-length:")
    ensures Lower("content-length") == "content-length"
  {
  }

  /** A length field begins with the pattern, */
  lemma LengthFieldBegins(f: Field)
    requires SameUpToCase(f.name, "content-length")
    ensures OccursAt(Lower(f.Text()), "content-length:", 0)
  {
    hide OccursAt;
    var more := f.before + f.value + f.after;
    SameUpToCaseIsSameLower(f.name, "content-length");
    PatternInLowerCase();
    LowerAppended(f.name, [':'] + more);
    LowerAppended([':'], more);
    OccursHere([], "content-length:", Lower(more));
    assert Lower([':']) == [':'];
    assert Lower(f.Text()) == [] + ("content-length:" + Lower(more));
  }

  /** and its number follows it. */
  lemma LengthFieldReads(f: Field, t: string, at: nat)
    requires f.Valid() && |f.name| == 14 && f.value != [] && AllDigits(f.value) && LineAt(t, at, f.Text())
    ensures at + |CONTENT_LENGTH| <= |t|
    ensures DigitRun(SkipSpace(t[at + |CONTENT_LENGTH|..])) == f.value
  {
    hide SkipSpace, DigitRun;
    var rest := t[at + |f.Text()|..];
    var u := f.value + (f.after + rest);
    assert t[at + |CONTENT_LENGTH|..] == f.before + u by { AfterName(f, t, at); }
    assert u[0] == f.value[0] && IsDigit(f.value[0]);
    SkipSpaceIs(f.before, u);
    AfterNumber(f, rest);
  }

  lemma AfterName(f: Field, t: string, at: nat)
    requires |f.name| == 14 && LineAt(t, at, f.Text())
    ensures t[at + |CONTENT_LENGTH|..] == f.before + (f.value + (f.after + t[at + |f.Text()|..]))
  {
    var l := f.Text();
    assert t[at + 15..at + |l|] == t[at..at + |l|][15..] == l[15..] == f.before + f.value + f.after;
    assert t[at + 15..] == t[at + 15..at + |l|] + t[at + |l|..];
  }

  lemma AfterNumber(f: Field, t: string)
    requires f.Valid() && AllDigits(f.value) && t != [] && t[0] == '\r'
    ensures DigitRun(f.value + (f.after + t)) == f.value
  {
    assert (f.after + t)[0] in {' ', '\t', '\r'};
    DigitRunIs(f.value + (f.after + t), f.value);
  }

  lemma HeadInLowerCase(m: Message)
    ensures Lower(Head(m)) == Join(LowerAll(Lines(m))) + BLANK_LINE
  {
    hide Join;
    LowerJoined(Lines(m));
    LowerAppended(Join(Lines(m)), BLANK_LINE);
    assert Lower(BLANK_LINE) == BLANK_LINE;
  }

  /** The first content-length is where the first length field is. */
  lemma FirstMention(m: Message, i: nat, n: nat)
    requires i < |m.fields| && FirstLengthField(m, i, n)
    ensures StrCaseStr(Head(m), CONTENT_LENGTH) == Some(Offset(LowerAll(Lines(m)), i + 1))
  {
    hide Join, OccursAt, StrStr, Decimal, Offset, Mentions;
    var lines := Lines(m);
    HeadInLowerCase(m);
    PatternInLowerCase();
    LengthFieldBegins(m.fields[i]);
    forall k | 0 <= k < i + 1
      ensures StrStr(LowerAll(lines)[k], "content-length:").None?
    {
      assert k > 0 ==> lines[k] == m.fields[k - 1].Text();
      MentionIsFound(lines[k]);
    }
    FirstInLines(LowerAll(lines), BLANK_LINE, "content-length:", i + 1);
  }

  lemma LengthFieldFacts(m: Message, i: nat, n: nat)
    requires m.Valid() && i < |m.fields| && FirstLengthField(m, i, n)
    ensures i + 1 < |Lines(m)| && Lines(m)[i + 1] == m.fields[i].Text()
    ensures var f := m.fields[i];
            f.Valid() && |f.name| == 14 && f.value != [] && AllDigits(f.value) && Decimal(f.value) == n
  {
    hide Mentions, Decimal;
  }

  lemma DeclaresFrom(head: string, at: nat, value: string)
    requires StrCaseStr(head, CONTENT_LENGTH) == Some(at) && at + |CONTENT_LENGTH| <= |head|
    requires value != [] && AllDigits(value) && DigitRun(SkipSpace(head[at + |CONTENT_LENGTH|..])) == value
    ensures DeclaresLength(head, Decimal(value))
  {
    hide StrCaseStr, SkipSpace, DigitRun, Decimal;
  }

  /** The first content-length field of a message is the length the completion test finds. */
  lemma LengthFieldIsDeclared(m: Message, i: nat, n: nat)
    requires m.Valid() && i < |m.fields| && FirstLengthField(m, i, n)
    ensures DeclaresLength(Head(m), n)
  {
    hide *;
    FirstMention(m, i, n);
    LengthFieldFacts(m, i, n);
    var at := Offset(LowerAll(Lines(m)), i + 1);
    LineOfHead(m, i + 1);
    LengthFieldReads(m.fields[i], Head(m), at);
    DeclaresFrom(Head(m), at, m.fields[i].value);
  }

  lemma LineOfHead(m: Message, k: nat)
    requires k < |Lines(m)|
    ensures LineAt(Head(m), Offset(LowerAll(Lines(m)), k), Lines(m)[k])
  {
    hide Join, Offset, LineAt;
    LineIsAtOffset(Lines(m), BLANK_LINE, k);
  }

  lemma NoLengthIsDeclared(m: Message)
    requires !Mentions(m.Line()) && forall k :: 0 <= k < |m.fields| ==> !Mentions(m.fields[k].Text())
    ensures StrCaseStr(Head(m), CONTENT_LENGTH) == None
  {
    hide Join, OccursAt, StrStr, Mentions;
    var lines := Lines(m);
    HeadInLowerCase(m);
    PatternInLowerCase();
    forall k | 0 <= k < |lines|
      ensures StrStr(LowerAll(lines)[k], "content-length:").None?
    {
      assert k > 0 ==> lines[k] == m.fields[k - 1].Text();
      MentionIsFound(lines[k]);
    }
    NotInLines(LowerAll(lines), "content-length:");
  }

  /** Every message that says its length is framed well. */
  lemma MessageIsWellFramed(m: Message)
    requires m.Valid() && SaysItsLength(m)
    ensures WellFramed(Head(m), m.body) && Head(m) + m.body == m.Text()
  {
    hide Join, IsLine, DeclaresLength, StrStr, StrCaseStr, FirstLengthField, Mentions;
    LinesOfMessage(m);
    JoinIsNulFree(Lines(m));
    TextIsJoin(m);
    FirstBlankLineOf(Lines(m));
    if i :| 0 <= i < |m.fields| && FirstLengthField(m, i, |m.body|) {
      LengthFieldIsDeclared(m, i, |m.body|);
    } else {
      NoLengthIsDeclared(m);
    }
  }

  lemma FirstBlankLineOf(lines: seq<string>)
    requires lines != [] && forall i :: 0 <= i < |lines| ==> IsLine(lines[i])
    ensures StrStr(Join(lines) + BLANK_LINE, BLANK_LINE) == Some(|Join(lines)|)
  {
    hide Join, IsLine, OccursAt;
    var head := Join(lines);
    assert head + (BLANK_LINE + []) == head + BLANK_LINE;
    forall j: nat | j < |head|
      ensures !OccursAt(head + BLANK_LINE, BLANK_LINE, j)
    {
      FirstBlankLine(lines, [], j);
    }
    OccursHere(head, BLANK_LINE, []);
    StrStrIs(head + BLANK_LINE, BLANK_LINE, |head|);
  }

  // --------------------------------------------------- requests that declare any length

  /** A request that declares `n` bytes of body. */
  function Declaring(n: nat, body: string): Message {
    Message("POST", " ", "/", " ", "HTTP/1.1", [Field("Content-Length", " ", Numeral(n), "")], body)
  }

  predicate WithoutC(t: string) {
    forall j :: 0 <= j < |t| ==> t[j] != 'C' && t[j] != 'c'
  }

  lemma WithoutCAppended(s: string, t: string)
    requires WithoutC(s) && WithoutC(t)
    ensures WithoutC(s + t)
  {
  }

  lemma NotMentionedWithoutC(t: string)
    requires WithoutC(t)
    ensures !Mentions(t)
  {
    hide OccursAt, StrStr;
    forall j: nat
      ensures !OccursAt(Lower(t), Lower(CONTENT_LENGTH), j)
    {
      OccursFits(Lower(t), Lower(CONTENT_LENGTH), j);
      if j < |t| {
        Differs(Lower(t), Lower(CONTENT_LENGTH), j, 0);
      }
    }
    StrStrIsNone(Lower(t), Lower(CONTENT_LENGTH));
    MentionIsFound(t);
  }

  lemma LengthFieldIsValid(n: nat)
    ensures Field("Content-Length", " ", Numeral(n), "").Valid()
    ensures |Field("Content-Length", " ", Numeral(n), "").Text()| == 16 + |Numeral(n)|
  {
    hide Numeral;
    var value := Numeral(n);
    forall k | 0 <= k < |value|
      ensures !IsSpace(value[k]) && value[k] != NUL
    {
      assert IsDigit(value[k]);
    }
  }

  lemma PostLine(m: Message)
    requires m.verb == "POST" && m.gap1 == " " && m.uri == "/" && m.gap2 == " " && m.version == "HTTP/1.1"
    ensures |m.Line()| == 15 && !Mentions(m.Line())
  {
    hide Mentions;
    WithoutCAppended(" ", "HTTP/1.1");
    WithoutCAppended("/", " " + "HTTP/1.1");
    WithoutCAppended(" ", "/" + (" " + "HTTP/1.1"));
    WithoutCAppended("POST", " " + ("/" + (" " + "HTTP/1.1")));
    NotMentionedWithoutC(m.Line());
  }

  lemma OneField(f: Field)
    ensures FieldSection([f]) == f.Text() + CRLF
  {
    assert FieldSection([f]) == f.Text() + CRLF + [];
  }

  /** It is a message, and that is what its first length field says. */
  lemma DeclaringDeclares(n: nat, body: string)
    ensures Declaring(n, body).Valid() && FirstLengthField(Declaring(n, body), 0, n)
    ensures |Declaring(n, body).Text()| == 37 + |Numeral(n)| + |body|
  {
    hide Numeral, Mentions, Decimal;
    var m := Declaring(n, body);
    NumeralReadsBack(n);
    LengthFieldIsValid(n);
    PostLine(m);
    OneField(m.fields[0]);
    LengthFieldName();
    hide FieldSection, m.Line;
  }

  lemma LengthFieldName()
    ensures SameUpToCase("Content-Length", "content-length")
  {
    PatternInLowerCase();
    assert Lower("Content-Length") == "content-length";
    SameUpToCaseIsSameLower("Content-Length", "content-length");
  }

  lemma NumeralLength(n: nat)
    requires n < 10000
    ensures |Numeral(n)| <= 4
  {
    assert n >= 10 ==> |Numeral(n)| == |Numeral(n / 10)| + 1;
    assert n >= 100 ==> |Numeral(n / 10)| == |Numeral(n / 10 / 10)| + 1;
    assert n >= 1000 ==> |Numeral(n / 10 / 10)| == |Numeral(n / 10 / 10 / 10)| + 1;
  }

  /** There is a message that says its length for every body of up to 8150 bytes. */
  lemma EveryBodyCanBeSent(body: string)
    requires |body| <= 8150
    ensures Declaring(|body|, body).Valid() && SaysItsLength(Declaring(|body|, body))
  {
    hide FirstLengthField, Mentions, Numeral;
    DeclaringDeclares(|body|, body);
    NumeralLength(|body|);
  }

  /** What the theorems about declared lengths need of a head. */
  lemma HeadOfMessage(m: Message, i: nat, n: nat)
    requires m.Valid() && i < |m.fields| && FirstLengthField(m, i, n)
    ensures NulFree(Head(m)) && |Head(m)| >= |BLANK_LINE|
    ensures StrStr(Head(m), BLANK_LINE) == Some(|Head(m)| - |BLANK_LINE|) && DeclaresLength(Head(m), n)
  {
    hide Join, IsLine, DeclaresLength, StrStr, FirstLengthField;
    LinesOfMessage(m);
    JoinIsNulFree(Lines(m));
    FirstBlankLineOf(Lines(m));
    LengthFieldIsDeclared(m, i, n);
  }

  /** A request that declares a body the buffer cannot hold, and an int can, is never found
    * complete, whatever follows its head. */
  lemma DeclaredBeyondBuffer(n: nat, x: string)
    requires BUFFER_SIZE <= n <= 0x7FFF_FFFF
    requires Head(Declaring(n, "")) <= x && |x| < BUFFER_SIZE
    ensures !Complete(CStr(x), |x|)
  {
    hide *;
    DeclaringDeclares(n, "");
    OnlyField(n);
    HeadOfMessage(Declaring(n, ""), 0, n);
    NarrowedIffSmall(n);
    OversizeNeverCompletes(Head(Declaring(n, "")), n, x);
  }

  lemma OnlyField(n: nat)
    ensures |Declaring(n, "").fields| == 1
  {
  }

  /** A request that declares 4294967296 bytes, which narrow to 0, is complete with its head. */
  lemma DeclaredNarrowsToNothing()
    ensures var head := Head(Declaring(0x1_0000_0000, "")); Complete(CStr(head), |head|)
  {
    hide *;
    DeclaringDeclares(0x1_0000_0000, "");
    OnlyField(0x1_0000_0000);
    var head := Head(Declaring(0x1_0000_0000, ""));
    HeadOfMessage(Declaring(0x1_0000_0000, ""), 0, 0x1_0000_0000);
    CompleteFromDeclaredEnd(head, 0x1_0000_0000, head);
    assert Narrow32(Saturate64(0x1_0000_0000)) == 0 by { NarrowsToNothing(); }
  }

  lemma NarrowsToNothing()
    ensures Narrow32(Saturate64(0x1_0000_0000)) == 0
  {
  }

  /** With its body cut at the first NUL, a message's text is the C string of its text. */
  lemma TextAsCString(m: Message)
    requires NulFree(Head(m)) && Head(m) + m.body == m.Text()
    ensures CStr(m.Text()) == m.(body := CStr(m.body)).Text()
  {
    hide Join, CStr;
    var cut := m.(body := CStr(m.body));
    TextIsJoin(cut);
    assert Lines(cut) == Lines(m);
    assert cut.Text() == Head(m) + CStr(m.body);
    assert NulFree(Head(m) + CStr(m.body));
    CStrUnique(m.Text(), Head(m) + CStr(m.body));
  }
}
