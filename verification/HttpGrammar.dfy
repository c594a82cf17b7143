/** The request grammar of RFC 9112 (sections 2.1, 3, 5) and what the parser makes of it. */
module HttpGrammar {
  import opened Options
  import opened CStrings
  import opened Dictionary
  import opened HttpRequest
  import opened LetterCase

  /** A non-empty word without white space, line breaks or NUL. */
  predicate IsWord(t: string) {
    t != [] && forall i :: 0 <= i < |t| ==> !IsSpace(t[i]) && t[i] != NUL
  }

  predicate NoLineBreak(t: string) {
    forall i :: 0 <= i < |t| ==> t[i] != '\r' && t[i] != '\n' && t[i] != NUL
  }

  predicate Spaces(t: string) {
    forall i :: 0 <= i < |t| ==> t[i] == ' '
  }

  /** OWS */
  predicate OptionalSpace(t: string) {
    forall i :: 0 <= i < |t| ==> t[i] == ' ' || t[i] == '\t'
  }

  /** field-line = field-name ":" OWS field-value OWS */
  datatype Field = Field(name: string, before: string, value: string, after: string) {
    predicate Valid() {
      && IsWord(name) && ':' !in name
      && OptionalSpace(before) && OptionalSpace(after)
      && NoLineBreak(value)
      && (value != [] ==> !IsSpace(value[0]) && !IsSpace(value[|value| - 1]))
    }

    function Text(): string {
      name + [':'] + (before + value + after)
    }
  }

  /** request-line CRLF *( field-line CRLF ) CRLF body, with any number of spaces between the
    * words of the request line. */
  datatype Message = Message(verb: string, gap1: string, uri: string, gap2: string, version: string,
                             fields: seq<Field>, body: string) {
    predicate Valid() {
      && IsWord(verb) && IsWord(uri) && IsWord(version)
      && gap1 != [] && Spaces(gap1) && gap2 != [] && Spaces(gap2)
      && (forall i :: 0 <= i < |fields| ==> fields[i].Valid())
    }

    function Line(): string {
      verb + (gap1 + (uri + (gap2 + version)))
    }

    function Text(): string {
      Line() + CRLF + FieldSection(fields) + CRLF + body
    }
  }

  function FieldSection(fields: seq<Field>): string {
    if fields == [] then [] else fields[0].Text() + CRLF + FieldSection(fields[1..])
  }

  // ----------------------------------------------------------------------- tokenising

  lemma SkipsDelimiters(d: string, t: string, delimiters: string)
    requires forall i :: 0 <= i < |d| ==> d[i] in delimiters
    requires t != [] ==> t[0] !in delimiters
    ensures SkipDelimiters(d + t, delimiters) == t
  {
    if d == [] {
      assert d + t == t;
    } else {
      assert (d + t)[1..] == d[1..] + t;
      SkipsDelimiters(d[1..], t, delimiters);
    }
  }

  lemma {:induction false} SpanIs(w: string, t: string, delimiters: string)
    requires forall i :: 0 <= i < |w| ==> w[i] !in delimiters
    requires t != [] ==> t[0] in delimiters
    ensures Span(w + t, delimiters) == w
  {
    if w == [] {
      assert w + t == t;
    } else {
      assert (w + t)[1..] == w[1..] + t;
      SpanIs(w[1..], t, delimiters);
    }
  }

  /** Delimiters, a word, and the end or another delimiter. */
  lemma NextWord(d: string, w: string, t: string, delimiters: string)
    requires forall i :: 0 <= i < |d| ==> d[i] in delimiters
    requires w != [] && forall i :: 0 <= i < |w| ==> w[i] !in delimiters
    requires t != [] ==> t[0] in delimiters
    ensures NextToken(d + (w + t), delimiters) == Some((w, if t == [] then [] else t[1..]))
  {
    hide *;
    assert (w + t)[0] == w[0];
    SkipsDelimiters(d, w + t, delimiters);
    SpanIs(w, t, delimiters);
    NextTokenIs(d + (w + t), w, t, delimiters);
  }

  lemma NextTokenIs(s: string, w: string, t: string, delimiters: string)
    requires SkipDelimiters(s, delimiters) == w + t && Span(w + t, delimiters) == w && w != []
    ensures NextToken(s, delimiters) == Some((w, if t == [] then [] else t[1..]))
  {
    hide SkipDelimiters, Span;
    if t != [] {
      assert (w + t)[|w| + 1..] == t[1..];
    }
  }

  lemma NoWord(d: string, delimiters: string)
    requires forall i :: 0 <= i < |d| ==> d[i] in delimiters
    ensures NextToken(d, delimiters) == None
  {
    SkipsDelimiters(d, [], delimiters);
    assert d + [] == d;
  }

  // ------------------------------------------------------------------ the request line

  lemma FirstWord(d: string, w: string, t: string, c: char)
    requires forall i :: 0 <= i < |d| ==> d[i] == c
    requires w != [] && c !in w
    requires t != [] ==> t[0] == c
    ensures Tokens(d + (w + t), [c]) == [w] + Tokens(if t == [] then [] else t[1..], [c])
  {
    NextWord(d, w, t, [c]);
  }

  /** A request line of three words yields exactly these. */
  lemma RequestLineParses(m: Message)
    requires m.Valid()
    ensures RequestLineInserts(m.Line()) == [("method", m.verb), ("uri", m.uri), ("http_version", m.version)]
  {
    hide Tokens;
    var t2 := m.gap2 + m.version;
    var t1 := m.gap1 + (m.uri + t2);
    assert [] + (m.verb + t1) == m.Line();
    FirstWord([], m.verb, t1, ' ');
    assert t1[1..] == m.gap1[1..] + (m.uri + t2);
    FirstWord(m.gap1[1..], m.uri, t2, ' ');
    assert t2[1..] == m.gap2[1..] + (m.version + []);
    FirstWord(m.gap2[1..], m.version, [], ' ');
    assert Tokens([], " ") == [] by { NoTokens(" "); }
  }

  lemma NoTokens(delimiters: string)
    ensures Tokens([], delimiters) == []
  {
  }

  // ------------------------------------------------------------------- the field lines

  lemma {:induction false} TrimRightDrops(t: string, w: string)
    requires forall i :: 0 <= i < |w| ==> IsSpace(w[i])
    requires t != [] ==> !IsSpace(t[|t| - 1])
    ensures TrimRight(t + w) == t
  {
    if w == [] {
      assert t + w == t;
    } else {
      assert (t + w)[..|t + w| - 1] == t + w[..|w| - 1];
      TrimRightDrops(t, w[..|w| - 1]);
    }
  }

  lemma TrimDrops(v: string, t: string, w: string)
    requires forall i :: 0 <= i < |v| ==> IsSpace(v[i])
    requires forall i :: 0 <= i < |w| ==> IsSpace(w[i])
    requires t != [] ==> !IsSpace(t[0]) && !IsSpace(t[|t| - 1])
    ensures Trim(v + t + w) == t
  {
    if t == [] {
      SkipSpaceIs(v + w, []);
      assert v + t + w == (v + w) + [];
    } else {
      SkipSpaceIs(v, t + w);
      assert v + t + w == v + (t + w);
      TrimRightDrops(t, w);
    }
  }

  /** A field line yields its name in lower case and its value without the optional space. */
  lemma FieldParses(f: Field)
    requires f.Valid()
    ensures FieldInserts(f.Text()) == [(Lower(f.name), f.value)]
  {
    var t := f.Text();
    assert t[..|f.name|] == f.name && t[|f.name| + 1..] == f.before + f.value + f.after;
    StrChrIs(t, ':', |f.name|);
    TrimDrops(f.before, f.value, f.after);
    TrimDrops([], f.name, []);
    assert [] + f.name + [] == f.name;
  }

  /** A line of a message's head: not empty, and without line breaks. */
  predicate IsLine(t: string) {
    t != [] && NoLineBreak(t)
  }

  lemma FieldIsLine(f: Field)
    requires f.Valid()
    ensures IsLine(f.Text())
  {
  }

  lemma RequestLineIsLine(m: Message)
    requires m.Valid()
    ensures IsLine(m.Line())
  {
  }

  // ------------------------------------------------------------------- joined lines

  function Join(lines: seq<string>): string
    requires lines != []
  {
    if |lines| == 1 then lines[0] else lines[0] + (CRLF + Join(lines[1..]))
  }

  lemma Differs(t: string, pattern: string, j: nat, k: nat)
    requires k < |pattern|
    ensures j + k < |t| && t[j + k] != pattern[k] ==> !OccursAt(t, pattern, j)
  {
    if OccursAt(t, pattern, j) {
      assert t[j..j + |pattern|][k] == t[j + k];
    }
  }

  lemma OccursBehind(s: string, t: string, pattern: string, j: nat)
    requires |s| <= j
    ensures OccursAt(s + t, pattern, j) == OccursAt(t, pattern, j - |s|)
  {
    if j + |pattern| <= |s + t| {
      assert (s + t)[j..j + |pattern|] == t[j - |s|..j - |s| + |pattern|];
    }
  }

  /** No blank line begins within a line or at its end when another line follows. */
  lemma NoBlankLineHere(l: string, next: string, j: nat)
    requires IsLine(l) && next != [] && next[0] != '\r'
    requires j < |l| + 2
    ensures !OccursAt(l + CRLF + next, BLANK_LINE, j)
  {
    var t := l + CRLF + next;
    assert t[|l| + 1] == '\n' && t[|l| + 2] == next[0];
    if j < |l| {
      assert t[j] == l[j];
      Differs(t, BLANK_LINE, j, 0);
    } else if j == |l| {
      Differs(t, BLANK_LINE, j, 2);
    } else {
      Differs(t, BLANK_LINE, j, 0);
    }
  }

  lemma JoinStarts(lines: seq<string>)
    requires lines != [] && IsLine(lines[0])
    ensures Join(lines) != [] && Join(lines)[0] == lines[0][0] != '\r'
  {
  }

  /** Where the first blank line is. */
  lemma {:induction false} FirstBlankLine(lines: seq<string>, body: string, j: nat)
    requires lines != [] && forall i :: 0 <= i < |lines| ==> IsLine(lines[i])
    requires j < |Join(lines)|
    ensures !OccursAt(Join(lines) + (BLANK_LINE + body), BLANK_LINE, j)
    decreases |lines|
  {
    hide OccursAt, IsLine;
    var l, t := lines[0], Join(lines) + (BLANK_LINE + body);
    if |lines| == 1 {
      assert t[j] == l[j] && l[j] != '\r' by { LineHasNoReturn(l, j); }
      Differs(t, BLANK_LINE, j, 0);
    } else {
      var rest := Join(lines[1..]) + (BLANK_LINE + body);
      JoinStarts(lines[1..]);
      assert t == l + CRLF + rest;
      if j < |l| + 2 {
        NoBlankLineHere(l, rest, j);
      } else {
        OccursBehind(l + CRLF, rest, BLANK_LINE, j);
        FirstBlankLine(lines[1..], body, j - |l| - 2);
      }
    }
  }

  lemma LineHasNoReturn(l: string, j: nat)
    requires IsLine(l) && j < |l|
    ensures l[j] != '\r'
  {
  }

  lemma SplitsAtBlankLine(lines: seq<string>, body: string)
    requires lines != [] && forall i :: 0 <= i < |lines| ==> IsLine(lines[i])
    ensures SplitBody(Join(lines) + (BLANK_LINE + body)) == (Join(lines), body)
  {
    hide Join, IsLine, OccursAt;
    var head := Join(lines);
    var t := head + (BLANK_LINE + body);
    forall j: nat | j < |head|
      ensures !OccursAt(t, BLANK_LINE, j)
    {
      FirstBlankLine(lines, body, j);
    }
    OccursHere(head, BLANK_LINE, body);
    SplitsBodyAt(head, body);
  }

  lemma SplitsBodyAt(head: string, body: string)
    requires OccursAt(head + (BLANK_LINE + body), BLANK_LINE, |head|)
    requires forall j: nat :: j < |head| ==> !OccursAt(head + (BLANK_LINE + body), BLANK_LINE, j)
    ensures SplitBody(head + (BLANK_LINE + body)) == (head, body)
  {
    hide OccursAt;
    var t := head + (BLANK_LINE + body);
    StrStrIs(t, BLANK_LINE, |head|);
    assert t[..|head|] == head && t[|head| + |BLANK_LINE|..] == body;
  }

  lemma OccursHere(s: string, pattern: string, t: string)
    ensures OccursAt(s + (pattern + t), pattern, |s|)
  {
  }

  lemma SplitsAtFirstLine(lines: seq<string>)
    requires lines != [] && forall i :: 0 <= i < |lines| ==> IsLine(lines[i])
    ensures SplitLine(Join(lines)) == (lines[0], if |lines| == 1 then [] else Join(lines[1..]))
  {
    hide IsLine, OccursAt, Join;
    var l, t := lines[0], Join(lines);
    JoinUnfolds(lines);
    assert |l| <= |t| && t[..|l|] == l;
    forall j: nat | j < |l|
      ensures !OccursAt(t, CRLF, j)
    {
      LineHasNoReturn(l, j);
      assert t[j] == l[j];
      Differs(t, CRLF, j, 0);
    }
    if |lines| == 1 {
      forall j: nat | j >= |l|
        ensures !OccursAt(t, CRLF, j)
      {
        OccursFits(t, CRLF, j);
      }
      StrStrIsNone(t, CRLF);
    } else {
      OccursHere(l, CRLF, Join(lines[1..]));
      SplitsLineAt(l, Join(lines[1..]));
    }
  }

  lemma JoinUnfolds(lines: seq<string>)
    requires lines != []
    ensures Join(lines) == if |lines| == 1 then lines[0] else lines[0] + (CRLF + Join(lines[1..]))
  {
  }

  lemma SplitsLineAt(l: string, rest: string)
    requires OccursAt(l + (CRLF + rest), CRLF, |l|)
    requires forall j: nat :: j < |l| ==> !OccursAt(l + (CRLF + rest), CRLF, j)
    ensures SplitLine(l + (CRLF + rest)) == (l, rest)
  {
    hide OccursAt;
    var t := l + (CRLF + rest);
    StrStrIs(t, CRLF, |l|);
    assert t[..|l|] == l && t[|l| + |CRLF|..] == rest;
  }

  lemma OccursFits(t: string, pattern: string, j: nat)
    ensures OccursAt(t, pattern, j) ==> j + |pattern| <= |t|
  {
  }

  // ------------------------------------------------------------------ the header section

  function FieldPairs(fields: seq<Field>): (pairs: Inserts)
    ensures |pairs| == |fields|
    ensures forall i :: 0 <= i < |fields| ==> pairs[i] == (Lower(fields[i].name), fields[i].value)
  {
    seq(|fields|, i requires 0 <= i < |fields| => (Lower(fields[i].name), fields[i].value))
  }

  function FieldTexts(fields: seq<Field>): (texts: seq<string>)
    ensures |texts| == |fields|
    ensures forall i :: 0 <= i < |fields| ==> texts[i] == fields[i].Text()
  {
    seq(|fields|, i requires 0 <= i < |fields| => fields[i].Text())
  }

  lemma NoHeaders(d: string)
    requires forall i :: 0 <= i < |d| ==> d[i] in CRLF
    ensures HeaderInserts(d) == []
  {
    NoWord(d, CRLF);
  }

  lemma FirstHeader(d: string, l: string, t: string)
    requires forall i :: 0 <= i < |d| ==> d[i] in CRLF
    requires IsLine(l) && (t != [] ==> t[0] in CRLF)
    ensures HeaderInserts(d + (l + t)) == FieldInserts(l) + HeaderInserts(if t == [] then [] else t[1..])
  {
    NextWord(d, l, t, CRLF);
  }

  /** Field lines yield their names and values, in order. */
  lemma {:induction false} FieldsParse(d: string, fields: seq<Field>)
    requires forall i :: 0 <= i < |d| ==> d[i] in CRLF
    requires fields != [] && forall i :: 0 <= i < |fields| ==> fields[i].Valid()
    ensures HeaderInserts(d + Join(FieldTexts(fields))) == FieldPairs(fields)
    decreases |fields|
  {
    hide HeaderInserts, FieldInserts;
    var f := fields[0];
    FieldIsLine(f);
    FieldParses(f);
    if |fields| == 1 {
      FirstHeader(d, f.Text(), []);
      assert f.Text() + [] == Join(FieldTexts(fields));
      NoHeaders([]);
    } else {
      var rest := Join(FieldTexts(fields[1..]));
      assert FieldTexts(fields)[1..] == FieldTexts(fields[1..]);
      FirstHeader(d, f.Text(), CRLF + rest);
      assert (CRLF + rest)[1..] == ['\n'] + rest;
      FieldsParse(['\n'], fields[1..]);
      assert FieldPairs(fields) == [(Lower(f.name), f.value)] + FieldPairs(fields[1..]);
    }
  }

  lemma {:induction false} SectionIsJoin(fields: seq<Field>)
    requires fields != []
    ensures FieldSection(fields) == Join(FieldTexts(fields)) + CRLF
  {
    var f := fields[0];
    if |fields| == 1 {
      assert FieldSection(fields) == f.Text() + CRLF + [];
    } else {
      SectionIsJoin(fields[1..]);
      assert FieldTexts(fields)[1..] == FieldTexts(fields[1..]);
    }
  }

  function Lines(m: Message): seq<string> {
    [m.Line()] + FieldTexts(m.fields)
  }

  lemma TextIsJoin(m: Message)
    ensures m.Text() == Join(Lines(m)) + (BLANK_LINE + m.body)
  {
    if m.fields == [] {
    } else {
      SectionIsJoin(m.fields);
      assert Lines(m)[1..] == FieldTexts(m.fields);
    }
  }

  /** The parser agrees with the grammar: a message yields exactly its method, target and
    * version, its fields in order under lower-case names, and what its body holds. */
  lemma MessageParses(m: Message)
    requires m.Valid()
    ensures Parse(m.Text()).requestLine == [("method", m.verb), ("uri", m.uri), ("http_version", m.version)]
    ensures Parse(m.Text()).headerFields == FieldPairs(m.fields)
    ensures Parse(m.Text()).body == if m.body == [] then [] else BodyInserts(m.body, FirstOfEach(FieldPairs(m.fields)))
  {
    hide Join, RequestLineInserts, HeaderInserts, BodyInserts, FirstOfEach, SplitBody, SplitLine;
    RequestLineIsLine(m);
    forall i | 0 <= i < |m.fields|
      ensures IsLine(FieldTexts(m.fields)[i])
    {
      FieldIsLine(m.fields[i]);
    }
    TextIsJoin(m);
    SplitsAtBlankLine(Lines(m), m.body);
    SplitsAtFirstLine(Lines(m));
    RequestLineParses(m);
    if m.fields == [] {
      NoHeaders([]);
    } else {
      assert Lines(m)[1..] == FieldTexts(m.fields);
      FieldsParse([], m.fields);
      assert [] + Join(FieldTexts(m.fields)) == Join(FieldTexts(m.fields));
    }
  }

  /** The first field of that name, up to letter case. */
  predicate FirstNamed(fields: seq<Field>, i: nat, name: string)
    requires i < |fields|
  {
    SameUpToCase(fields[i].name, name) && forall j :: 0 <= j < i ==> !SameUpToCase(fields[j].name, name)
  }

  /** A name in any letter case maps to the value of its first field line, when it is looked up
    * in lower case; a name that no field has, and a key with an upper-case letter, map to
    * nothing. */
  lemma HeaderOfMessage(m: Message, key: string)
    requires m.Valid()
    ensures forall i :: 0 <= i < |m.fields| && !HasUpper(key) && FirstNamed(m.fields, i, key) ==>
              Lookup(FirstOfEach(Parse(m.Text()).headerFields), key) == Some(m.fields[i].value)
    ensures (forall j :: 0 <= j < |m.fields| ==> !SameUpToCase(m.fields[j].name, key)) || HasUpper(key) ==>
              Lookup(FirstOfEach(Parse(m.Text()).headerFields), key) == None
  {
    hide Parse, FirstOfEach, SameUpToCase, HasUpper, Lower;
    MessageParses(m);
    LowerHasNoUpper(key);
    forall j | 0 <= j < |m.fields|
      ensures Lower(m.fields[j].name) == key <==> !HasUpper(key) && SameUpToCase(m.fields[j].name, key)
    {
      SameUpToCaseIsSameLower(m.fields[j].name, key);
      LowerHasNoUpper(m.fields[j].name);
    }
    FirstInsertCounts(FieldPairs(m.fields), key);
  }

  /** A message asks to close exactly if its first connection field has the value "close", both
    * in any letter case. */
  lemma CloseIsHeard(m: Message)
    requires m.Valid()
    ensures forall i :: 0 <= i < |m.fields| && FirstNamed(m.fields, i, "connection") ==>
              (KeepsAlive(m.Text()) <==> !SameUpToCase(m.fields[i].value, "close"))
    ensures (forall j :: 0 <= j < |m.fields| ==> !SameUpToCase(m.fields[j].name, "connection")) ==> KeepsAlive(m.Text())
  {
    hide Parse, FirstOfEach, SameUpToCase, HasUpper, Lower;
    HeaderOfMessage(m, "connection");
    LiteralsAreLower();
    forall i | 0 <= i < |m.fields|
      ensures Lower(m.fields[i].value) == "close" <==> SameUpToCase(m.fields[i].value, "close")
    {
      SameUpToCaseIsSameLower(m.fields[i].value, "close");
    }
  }

  lemma LiteralsAreLower()
    ensures !HasUpper("connection") && !HasUpper("content-type") && Lower("close") == "close"
  {
    hide HasUpper, Lower;
    LowerByCodes("connection");
    LowerByCodes("content-type");
    LowerByCodes("close");
  }

  /** The message's first content-type field, in any letter case, has the form type somewhere in
    * its value. */
  ghost predicate DeclaresForm(m: Message) {
    exists i :: 0 <= i < |m.fields| && FirstNamed(m.fields, i, "content-type") &&
                exists j: nat :: OccursAt(m.fields[i].value, "application/x-www-form-urlencoded", j)
  }

  /** Its body is taken for a form exactly then. */
  lemma FormIsDeclared(m: Message)
    requires m.Valid()
    ensures IsForm(FirstOfEach(Parse(m.Text()).headerFields)) <==> DeclaresForm(m)
  {
    hide Parse, FirstOfEach, SameUpToCase, HasUpper, OccursAt;
    HeaderOfMessage(m, "content-type");
    LiteralsAreLower();
    if k :| 0 <= k < |m.fields| && SameUpToCase(m.fields[k].name, "content-type") {
      var i := FirstOfName(m.fields, "content-type", k);
      forall j | 0 <= j < |m.fields| && FirstNamed(m.fields, j, "content-type")
        ensures j == i
      {
      }
    }
  }

  lemma {:induction false} FirstOfName(fields: seq<Field>, name: string, k: nat) returns (i: nat)
    requires k < |fields| && SameUpToCase(fields[k].name, name)
    ensures i <= k && FirstNamed(fields, i, name)
  {
    hide SameUpToCase;
    if j :| 0 <= j < k && SameUpToCase(fields[j].name, name) {
      i := FirstOfName(fields, name, j);
    } else {
      i := k;
    }
  }

  // ------------------------------------------------- what the grammar's characters are

  /** tchar */
  predicate IsTokenCharacter(c: char) {
    c in "!#$%&'*+-.^_`|~" || c in "0123456789" || c in UPPER || c in LOWER
  }

  predicate IsToken(t: string) {
    t != [] && forall i :: 0 <= i < |t| ==> IsTokenCharacter(t[i])
  }

  /** VCHAR or obs-text */
  predicate IsVisible(c: char) {
    33 <= c as int <= 126 || 128 <= c as int <= 255
  }

  /** field-value: visible characters, with blanks and tabs between them. */
  predicate IsFieldValue(t: string) {
    && (forall i :: 0 <= i < |t| ==> IsVisible(t[i]) || t[i] == ' ' || t[i] == '\t')
    && (t != [] ==> IsVisible(t[0]) && IsVisible(t[|t| - 1]))
  }

  lemma TokenCharactersAreVisible(c: char)
    requires IsTokenCharacter(c)
    ensures 33 <= c as int <= 126 && c != ':'
  {
    if c in UPPER {
      var k :| 0 <= k < 26 && UPPER[k] == c;
      Codes(k);
    } else if c in LOWER {
      var k :| 0 <= k < 26 && LOWER[k] == c;
      Codes(k);
    }
  }

  lemma VisibleIsNoSpace(c: char)
    ensures IsVisible(c) ==> !IsSpace(c) && c != NUL
  {
    SpacesAre(c);
  }

  /** Text that begins and ends visibly survives trimming, whatever white space surrounds it. */
  lemma VisibleTextSurvives(v: string, t: string, w: string)
    requires forall i :: 0 <= i < |v| ==> v[i] as int == 32 || 9 <= v[i] as int <= 13
    requires forall i :: 0 <= i < |w| ==> w[i] as int == 32 || 9 <= w[i] as int <= 13
    requires t != [] ==> IsVisible(t[0]) && IsVisible(t[|t| - 1])
    ensures Trim(v + t + w) == t
  {
    hide IsSpace, Trim;
    forall i | 0 <= i < |v|
      ensures IsSpace(v[i])
    {
      SpacesAre(v[i]);
    }
    forall i | 0 <= i < |w|
      ensures IsSpace(w[i])
    {
      SpacesAre(w[i]);
    }
    if t != [] {
      VisibleIsNoSpace(t[0]);
      VisibleIsNoSpace(t[|t| - 1]);
    }
    TrimDrops(v, t, w);
  }

  /** Every field line of RFC 9112, section 5, is a field here. */
  lemma StandardFieldIsValid(f: Field)
    requires IsToken(f.name) && IsFieldValue(f.value) && OptionalSpace(f.before) && OptionalSpace(f.after)
    ensures f.Valid()
  {
    hide IsSpace;
    forall i | 0 <= i < |f.name|
      ensures !IsSpace(f.name[i]) && f.name[i] != NUL && f.name[i] != ':'
    {
      TokenCharactersAreVisible(f.name[i]);
      VisibleIsNoSpace(f.name[i]);
    }
    forall i | 0 <= i < |f.value|
      ensures f.value[i] != '\r' && f.value[i] != '\n' && f.value[i] != NUL
    {
    }
    if f.value != [] {
      VisibleIsNoSpace(f.value[0]);
      VisibleIsNoSpace(f.value[|f.value| - 1]);
    }
  }

  /** Every non-empty text of visible characters is a word. */
  lemma VisibleTextIsWord(t: string)
    requires t != [] && forall i :: 0 <= i < |t| ==> IsVisible(t[i])
    ensures IsWord(t)
  {
    hide IsSpace, IsVisible;
    forall i | 0 <= i < |t|
      ensures !IsSpace(t[i]) && t[i] != NUL
    {
      VisibleIsNoSpace(t[i]);
    }
  }

  // ----------------------------------------------------------- outside the grammar

  /** A line without a colon, or with nothing but white space before it, adds nothing. */
  lemma MalformedLinesAddNothing(blanks: string, rest: string)
    requires forall i :: 0 <= i < |blanks| ==> blanks[i] as int == 32 || 9 <= blanks[i] as int <= 13
    ensures ':' !in rest ==> FieldInserts(rest) == []
    ensures FieldInserts(blanks + ([':'] + rest)) == []
  {
    var t := blanks + ([':'] + rest);
    assert t[..|blanks|] == blanks;
    StrChrIs(t, ':', |blanks|);
    VisibleTextSurvives(blanks, [], []);
    assert blanks + [] + [] == blanks;
  }

  /** Of a request line with fewer words these are stored, */
  lemma ShortRequestLines(word: string, gap: string, second: string)
    requires word != [] && ' ' !in word && second != [] && ' ' !in second && gap != [] && Spaces(gap)
    ensures RequestLineInserts([]) == []
    ensures RequestLineInserts(word) == [("method", word)]
    ensures RequestLineInserts(word + (gap + second)) == [("method", word), ("uri", second)]
  {
    hide Tokens;
    NoTokens(" ");
    FirstWord([], word, [], ' ');
    assert [] + (word + []) == word;
    FirstWord([], word, gap + second, ' ');
    assert [] + (word + (gap + second)) == word + (gap + second);
    assert (gap + second)[1..] == gap[1..] + (second + []);
    FirstWord(gap[1..], second, [], ' ');
  }

  /** and of one with more the first three. */
  lemma LongRequestLine(m: Message, rest: string)
    requires m.Valid()
    ensures RequestLineInserts(m.Line() + ([' '] + rest)) ==
              [("method", m.verb), ("uri", m.uri), ("http_version", m.version)]
  {
    hide Tokens;
    var t3 := [' '] + rest;
    var t2 := m.gap2 + (m.version + t3);
    var t1 := m.gap1 + (m.uri + t2);
    assert m.Line() + t3 == [] + (m.verb + t1);
    FirstWord([], m.verb, t1, ' ');
    assert t1[1..] == m.gap1[1..] + (m.uri + t2);
    FirstWord(m.gap1[1..], m.uri, t2, ' ');
    assert t2[1..] == m.gap2[1..] + (m.version + t3);
    FirstWord(m.gap2[1..], m.version, t3, ' ');
  }
}
