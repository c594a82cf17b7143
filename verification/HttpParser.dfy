/** The request parser of http_parser.c in place: it cuts a mutable copy of the request into
  * C strings by writing NULs, trims and lower-cases them there, and inserts them into
  * dictionaries.  A pointer is an index into the copy.
  */
module HttpParser {
  import opened Options
  import opened CStrings
  import opened Dictionary
  import opened HttpRequest

  /** The C string at index `i` of the buffer is `t`. */
  ghost predicate HoldsAt(b: string, i: int, t: string) {
    0 <= i && i + |t| < |b| && b[i..i + |t|] == t && NulFree(t) && b[i + |t|] == NUL
  }

  /** The buffers agree outside the indices from `lo` up to `hi`. */
  ghost predicate SameOutside(b: string, c: string, lo: int, hi: int) {
    |b| == |c| && forall k :: 0 <= k < |b| && (k < lo || hi <= k) ==> b[k] == c[k]
  }

  lemma HoldsFrame(b: string, c: string, lo: int, hi: int, i: int, t: string)
    requires SameOutside(b, c, lo, hi) && HoldsAt(b, i, t) && (lo == hi || hi <= i || i + |t| < lo)
    ensures HoldsAt(c, i, t)
  {
    assert c[i..i + |t|] == b[i..i + |t|];
  }

  lemma SameWhenEqual(b: string, c: string, lo: int, hi: int)
    ensures b == c ==> SameOutside(b, c, lo, hi)
  {
  }

  lemma HoldsInside(b: string, i: int, t: string)
    requires HoldsAt(b, i, t)
    ensures 0 <= i && i + |t| < |b|
  {
  }

  lemma HoldsIsCStr(b: string, i: int, t: string)
    requires HoldsAt(b, i, t)
    ensures CStr(b[i..]) == t
  {
    CStrUnique(b[i..], t);
  }

  lemma HoldsTail(b: string, i: int, t: string, k: nat)
    requires HoldsAt(b, i, t) && k <= |t|
    ensures HoldsAt(b, i + k, t[k..])
  {
  }

  /** Cutting a C string by a NUL. */
  lemma HoldsCut(b: string, i: int, t: string, k: nat)
    requires HoldsAt(b, i, t) && k < |t|
    ensures HoldsAt(b[i + k := NUL], i, t[..k])
    ensures HoldsAt(b[i + k := NUL], i + k + 1, t[k + 1..])
  {
    assert b[i + k := NUL][i..i + k] == b[i..i + |t|][..k];
    assert b[i + k := NUL][i + k + 1..i + |t|] == b[i..i + |t|][k + 1..];
  }

  /** The text of the C string at an index: what strlen, strchr and copies of it see. */
  method Text(buf: array<char>, str: nat, ghost t: string) returns (s: string)
    requires HoldsAt(buf[..], str, t)
    ensures s == t
  {
    HoldsIsCStr(buf[..], str, t);
    assert buf[str..] == buf[..][str..];
    s := CStr(buf[str..]);
  }

  /** strtok_r, with `start` the string or the saved pointer: the token's index or -1. */
  method StrTokR(buf: array<char>, start: nat, delimiters: string, ghost t: string)
    returns (token: int, save: nat, ghost rest: string)
    requires HoldsAt(buf[..], start, t)
    modifies buf
    ensures token == -1 ==>
              NextToken(t, delimiters) == None && buf[..] == old(buf[..]) && rest == [] && HoldsAt(buf[..], save, rest)
    ensures token != -1 ==>
              && NextToken(t, delimiters).Some? && NextToken(t, delimiters).value.1 == rest
              && var text := NextToken(t, delimiters).value.0;
              && start <= token && token + |text| <= save && save + |rest| <= start + |t|
              && (rest != [] ==> token + |text| < save)
              && HoldsAt(buf[..], token, text) && HoldsAt(buf[..], save, rest)
    ensures SameOutside(old(buf[..]), buf[..], start, start + |t|)
  {
    hide HoldsAt, SkipDelimiters, Span;
    ghost var b := buf[..];
    HoldsInside(b, start, t);
    var text := Text(buf, start, t);
    var u := SkipDelimiters(text, delimiters);
    token := start + |text| - |u|;
    HoldsTail(b, start, t, |t| - |u|);
    if u == [] {
      assert t[|t|..] == [];
      token, save, rest := -1, token, [];
    } else {
      var n := |Span(u, delimiters)|;
      assert u[..n] == Span(u, delimiters);
      if n == |u| {
        assert u[..n] == u;
        HoldsTail(b, token, u, n);
        assert u[n..] == [];
        save, rest := token + n, [];
      } else {
        HoldsCut(b, token, u, n);
        buf[token + n] := NUL;
        assert buf[..] == b[token + n := NUL];
        save, rest := token + n + 1, u[n + 1..];
      }
    }
  }

  lemma NulIsNoSpace()
    ensures !IsSpace(NUL)
  {
  }

  lemma HoldsChar(b: string, i: int, t: string, k: nat)
    requires HoldsAt(b, i, t) && k <= |t|
    ensures 0 <= i && i + |t| < |b| && b[i + k] == if k < |t| then t[k] else NUL
  {
    if k < |t| {
      assert b[i..i + |t|][k] == t[k];
    }
  }

  lemma HoldsNotNul(b: string, i: int, t: string)
    requires HoldsAt(b, i, t)
    ensures b[i] == NUL <==> t == []
  {
    HoldsChar(b, i, t, 0);
    if t != [] {
      assert t[0] in t;
    }
  }

  lemma HoldsTerminator(b: string, i: int, t: string)
    requires HoldsAt(b, i, t)
    ensures b[i + |t| := NUL] == b
  {
  }

  lemma TrimRightStops(t: string)
    ensures t == [] || !IsSpace(t[|t| - 1]) ==> TrimRight(t) == t
    ensures TrimRight([]) == []
  {
  }

  lemma {:induction false} SkipsTo(t: string, k: nat)
    requires k <= |t| && (k < |t| ==> !IsSpace(t[k])) && forall i :: 0 <= i < k ==> IsSpace(t[i])
    ensures SkipSpace(t) == t[k..]
  {
    hide IsSpace;
    if k == 0 {
      assert t[0..] == t;
    } else {
      assert IsSpace(t[0]);
      var u := t[1..];
      assert forall i :: 0 <= i < k - 1 ==> u[i] == t[i + 1];
      SkipsTo(u, k - 1);
      assert u[k - 1..] == t[k..];
    }
  }

  lemma TrimsTo(t: string, k: nat)
    requires k <= |t| && (k > 0 ==> !IsSpace(t[k - 1])) && forall i :: k <= i < |t| ==> IsSpace(t[i])
    ensures TrimRight(t) == t[..k]
  {
    if k == |t| {
      assert t[..k] == t;
    } else {
      var u := t[..|t| - 1];
      assert u[..k] == t[..k];
      TrimsTo(u, k);
    }
  }

  /** The second half of trim_whitespace, for a string that does not begin with a space. */
  method TrimTrailing(buf: array<char>, str: nat, ghost t: string)
    requires HoldsAt(buf[..], str, t) && t != [] && !IsSpace(t[0])
    modifies buf
    ensures HoldsAt(buf[..], str, TrimRight(t))
    ensures SameOutside(old(buf[..]), buf[..], str, str + |t|)
  {
    hide HoldsAt, TrimRight, IsSpace;
    ghost var b := buf[..];
    HoldsInside(b, str, t);
    var text := Text(buf, str, t);
    var end := str + |text| - 1;
    HoldsChar(b, str, t, end - str);
    while end > str && IsSpace(buf[end])
      invariant str <= end < str + |t| && buf[..] == b
      invariant buf[end] == t[end - str]
      invariant forall i :: end - str < i < |t| ==> IsSpace(t[i])
    {
      end := end - 1;
      HoldsChar(b, str, t, end - str);
    }
    TrimsTo(t, end - str + 1);
    buf[end + 1] := NUL;
    assert buf[..] == b[end + 1 := NUL];
    if end + 1 < str + |t| {
      HoldsCut(b, str, t, end + 1 - str);
    } else {
      assert t[..|t|] == t;
      HoldsTerminator(b, str, t);
    }
  }

  /** The first half of trim_whitespace. */
  method SkipLeading(buf: array<char>, str: nat, ghost t: string) returns (p: nat)
    requires HoldsAt(buf[..], str, t)
    ensures str <= p <= str + |t| && SkipSpace(t) == t[p - str..]
    ensures HoldsAt(buf[..], p, SkipSpace(t))
  {
    hide HoldsAt, SkipSpace, IsSpace;
    ghost var b := buf[..];
    p := str;
    HoldsChar(b, str, t, 0);
    while IsSpace(buf[p])
      invariant str <= p <= str + |t| < buf.Length
      invariant buf[p] == if p < str + |t| then t[p - str] else NUL
      invariant forall i :: 0 <= i < p - str ==> IsSpace(t[i])
      decreases str + |t| - p
    {
      NulIsNoSpace();
      p := p + 1;
      HoldsChar(b, str, t, p - str);
    }
    SkipsTo(t, p - str);
    HoldsTail(b, str, t, p - str);
  }

  /** trim_whitespace */
  method TrimWhitespace(buf: array<char>, str: nat, ghost t: string) returns (p: nat)
    requires HoldsAt(buf[..], str, t)
    modifies buf
    ensures str <= p && p + |Trim(t)| <= str + |t|
    ensures HoldsAt(buf[..], p, Trim(t))
    ensures SameOutside(old(buf[..]), buf[..], str, str + |t|)
  {
    hide HoldsAt, SkipSpace, IsSpace, TrimRight;
    p := SkipLeading(buf, str, t);
    ghost var u := SkipSpace(t);
    HoldsInside(buf[..], p, u);
    HoldsNotNul(buf[..], p, u);
    TrimRightStops(u);
    if buf[p] != NUL {
      TrimTrailing(buf, p, u);
    }
  }

  /** The loop of extract_header_fields that lower-cases a key. */
  method LowerKey(buf: array<char>, key: nat, ghost t: string)
    requires HoldsAt(buf[..], key, t)
    modifies buf
    ensures HoldsAt(buf[..], key, Lower(t))
    ensures SameOutside(old(buf[..]), buf[..], key, key + |t|)
  {
    hide HoldsAt, LowerChar, Lower;
    ghost var b := buf[..];
    HoldsInside(b, key, t);
    HoldsChars(b, key, t);
    HoldsNulEnds(b, key, t, 0);
    var i := 0;
    while buf[key + i] != NUL
      invariant 0 <= i <= |t| && (buf[key + i] == NUL <==> i == |t|)
      invariant forall j :: key <= j < key + i ==> buf[j] == LowerChar(t[j - key])
      invariant forall j :: 0 <= j < buf.Length && (j < key || key + i <= j) ==> buf[j] == b[j]
      decreases |t| - i
    {
      buf[key + i] := LowerChar(buf[key + i]);
      i := i + 1;
      HoldsNulEnds(b, key, t, i);
    }
    HoldsIsNulFree(b, key, t);
    LoweredHolds(buf[..], key, t);
  }

  lemma HoldsChars(b: string, i: int, t: string)
    requires HoldsAt(b, i, t)
    ensures 0 <= i && i + |t| < |b| && b[i + |t|] == NUL
    ensures forall j :: i <= j < i + |t| ==> b[j] == t[j - i]
  {
    forall j | i <= j < i + |t|
      ensures b[j] == t[j - i]
    {
      HoldsChar(b, i, t, j - i);
    }
  }

  lemma HoldsNulEnds(b: string, i: int, t: string, k: nat)
    requires HoldsAt(b, i, t) && k <= |t|
    ensures 0 <= i && i + |t| < |b| && (b[i + k] == NUL <==> k == |t|)
  {
    HoldsChar(b, i, t, k);
    if k < |t| {
      assert t[k] in t;
    }
  }

  lemma LoweredHolds(b: string, i: int, t: string)
    requires 0 <= i && i + |t| < |b| && b[i + |t|] == NUL && NulFree(t)
    requires forall j :: i <= j < i + |t| ==> b[j] == LowerChar(t[j - i])
    ensures HoldsAt(b, i, Lower(t))
  {
    var u := b[i..i + |t|];
    forall k | 0 <= k < |t|
      ensures u[k] == Lower(t)[k] && u[k] != NUL
    {
      assert b[i + k] == LowerChar(t[k]);
      assert t[k] in t;
    }
    assert u == Lower(t);
  }

  /** A turn of the loop of extract_header_fields up to the insertion: the line is cut at its
    * colon, both sides are trimmed, and the key is lower-cased. */
  method ReadField(buf: array<char>, line: nat, ghost t: string) returns (field: Option<(string, string)>)
    requires HoldsAt(buf[..], line, t)
    modifies buf
    ensures FieldInserts(t) == if field.Some? then [field.value] else []
    ensures SameOutside(old(buf[..]), buf[..], line, line + |t|)
  {
    hide HoldsAt, Trim, Lower;
    ghost var b := buf[..];
    HoldsInside(b, line, t);
    var text := Text(buf, line, t);
    var colon := StrChr(text, ':');
    field := None;
    if colon.Some? {
      var c := colon.value;
      HoldsCut(b, line, t, c);
      buf[line + c] := NUL;
      ghost var b1 := buf[..];
      assert b1 == b[line + c := NUL];
      var key := TrimWhitespace(buf, line, t[..c]);
      ghost var b2 := buf[..];
      HoldsFrame(b1, b2, line, line + c, line + c + 1, t[c + 1..]);
      var value := TrimWhitespace(buf, line + c + 1, t[c + 1..]);
      ghost var b3 := buf[..];
      HoldsFrame(b2, b3, line + c + 1, line + |t|, key, Trim(t[..c]));
      var keyText := Text(buf, key, Trim(t[..c]));
      if keyText != [] {
        LowerKey(buf, key, Trim(t[..c]));
        HoldsFrame(b3, buf[..], key, key + |Trim(t[..c])|, value, Trim(t[c + 1..]));
        keyText := Text(buf, key, Lower(Trim(t[..c])));
        var valueText := Text(buf, value, Trim(t[c + 1..]));
        field := Some((keyText, valueText));
      }
    }
  }

  /** A dictionary and a buffer never share memory. */
  lemma BufferApart(buf: array<char>, d: Dict<string>)
    ensures buf !in d.Repr()
  {
  }

  /** A turn of that loop with the insertion; the text behind the line is left alone. */
  method InsertField(buf: array<char>, line: nat, headerFields: Dict<string>, ghost t: string, save: nat, ghost rest: string)
    requires HoldsAt(buf[..], line, t) && HoldsAt(buf[..], save, rest) && line + |t| <= save && headerFields.Valid()
    modifies buf, headerFields.Repr()
    ensures headerFields.Valid() && headerFields.inserts == old(headerFields.inserts) + FieldInserts(t)
    ensures fresh(headerFields.Repr() - old(headerFields.Repr()))
    ensures HoldsAt(buf[..], save, rest) && SameOutside(old(buf[..]), buf[..], line, line + |t|)
  {
    hide HoldsAt, FieldInserts, SameOutside, headerFields.Valid, FirstOfEach;
    BufferApart(buf, headerFields);
    ghost var b := buf[..];
    var field := ReadField(buf, line, t);
    HoldsFrame(b, buf[..], line, line + |t|, save, rest);
    if field.Some? {
      headerFields.Insert(field.value.0, field.value.1);
    }
  }

  lemma FirstFields(t: string)
    ensures NextToken(t, CRLF).None? ==> HeaderInserts(t) == []
    ensures NextToken(t, CRLF).Some? ==>
              HeaderInserts(t) == FieldInserts(NextToken(t, CRLF).value.0) + HeaderInserts(NextToken(t, CRLF).value.1)
  {
  }

  lemma SameOutsideWider(a: string, b: string, c: string, lo: int, hi: int, lo1: int, hi1: int)
    requires SameOutside(a, b, lo, hi) && SameOutside(b, c, lo1, hi1) && lo <= lo1 && hi1 <= hi
    ensures SameOutside(a, c, lo, hi)
  {
  }

  /** extract_header_fields */
  method ExtractHeaderFields(buf: array<char>, start: nat, headerFields: Dict<string>, ghost t: string)
    requires HoldsAt(buf[..], start, t) && headerFields.Valid()
    modifies buf, headerFields.Repr()
    ensures headerFields.Valid() && headerFields.inserts == old(headerFields.inserts) + HeaderInserts(t)
    ensures fresh(headerFields.Repr() - old(headerFields.Repr()))
    ensures SameOutside(old(buf[..]), buf[..], start, start + |t|)
  {
    hide HoldsAt, FieldInserts, HeaderInserts, NextToken, SameOutside, headerFields.Valid, headerFields.Repr, FirstOfEach;
    ghost var b := buf[..];
    ghost var done: Inserts := [];
    BufferApart(buf, headerFields);
    FirstFields(t);
    var line, save, rest := StrTokR(buf, start, CRLF, t);
    ghost var text := if line == -1 then "" else NextToken(t, CRLF).value.0;
    while line != -1
      invariant headerFields.Valid() && headerFields.inserts == old(headerFields.inserts) + done
      invariant fresh(headerFields.Repr() - old(headerFields.Repr()))
      invariant HeaderInserts(t) == done + if line == -1 then [] else FieldInserts(text) + HeaderInserts(rest)
      invariant line != -1 ==>
                  && start <= line && line + |text| <= save && save + |rest| <= start + |t|
                  && HoldsAt(buf[..], line, text) && HoldsAt(buf[..], save, rest)
      invariant SameOutside(b, buf[..], start, start + |t|)
      decreases if line == -1 then 0 else 1 + |rest|
    {
      BufferApart(buf, headerFields);
      ghost var b1, had := buf[..], headerFields.Repr();
      label L:
      InsertField(buf, line, headerFields, text, save, rest);
      assert forall o :: o in headerFields.Repr() && o !in had ==> fresh@L(o);
      ghost var b2 := buf[..];
      SameOutsideWider(b, b1, b2, start, start + |t|, line, line + |text|);
      BufferApart(buf, headerFields);
      done := done + FieldInserts(text);
      ghost var left, from := rest, save;
      FirstFields(left);
      line, save, rest := StrTokR(buf, save, CRLF, left);
      text := if line == -1 then "" else NextToken(left, CRLF).value.0;
      SameOutsideWider(b, b2, buf[..], start, start + |t|, from, from + |left|);
    }
  }

  // ------------------------------------------------------------- the request line

  lemma FirstTokens(t: string, d: string)
    ensures NextToken(t, d).None? ==> Tokens(t, d) == []
    ensures NextToken(t, d).Some? ==> Tokens(t, d) == [NextToken(t, d).value.0] + Tokens(NextToken(t, d).value.1, d)
  {
  }

  /** Inserting a token unless strtok_r found none. */
  method InsertToken(buf: array<char>, token: int, ghost text: string, d: Dict<string>, key: string)
    requires d.Valid() && (token != -1 ==> HoldsAt(buf[..], token, text))
    modifies d.Repr()
    ensures d.Valid() && d.inserts == old(d.inserts) + (if token != -1 then [(key, text)] else [])
    ensures fresh(d.Repr() - old(d.Repr()))
    ensures buf[..] == old(buf[..])
  {
    hide d.Valid, FirstOfEach;
    BufferApart(buf, d);
    if token != -1 {
      HoldsInside(buf[..], token, text);
      var s := Text(buf, token, text);
      d.Insert(key, s);
    }
  }

  /** The three calls of strtok_r on a request line. */
  method CutRequestLine(buf: array<char>, line: nat, ghost t: string, ghost tokens: seq<string>)
    returns (verb: int, uri: int, version: int)
    requires HoldsAt(buf[..], line, t) && tokens == Tokens(t, " ")
    modifies buf
    ensures verb != -1 <==> |tokens| > 0
    ensures uri != -1 <==> |tokens| > 1
    ensures version != -1 <==> |tokens| > 2
    ensures verb != -1 ==> HoldsAt(buf[..], verb, tokens[0])
    ensures uri != -1 ==> HoldsAt(buf[..], uri, tokens[1])
    ensures version != -1 ==> HoldsAt(buf[..], version, tokens[2])
    ensures SameOutside(old(buf[..]), buf[..], line, line + |t|)
  {
    hide HoldsAt, Tokens, NextToken;
    var save1, save2, save3;
    ghost var rest1, rest2, rest3;
    verb, save1, rest1 := StrTokR(buf, line, " ", t);
    ghost var b1 := buf[..];
    uri, save2, rest2 := StrTokR(buf, save1, " ", rest1);
    ghost var b2 := buf[..];
    version, save3, rest3 := StrTokR(buf, save2, " ", rest2);
    ghost var b3 := buf[..];
    FirstTokens(t, " ");
    FirstTokens(rest1, " ");
    FirstTokens(rest2, " ");
    if verb != -1 {
      HoldsFrame(b1, b2, save1, save1 + |rest1|, verb, tokens[0]);
      HoldsFrame(b2, b3, save2, save2 + |rest2|, verb, tokens[0]);
    }
    if uri != -1 {
      HoldsFrame(b2, b3, save2, save2 + |rest2|, uri, tokens[1]);
    }
  }

  /** extract_request_line_fields */
  method ExtractRequestLineFields(buf: array<char>, line: nat, requestLine: Dict<string>, ghost t: string)
    requires HoldsAt(buf[..], line, t) && requestLine.Valid()
    modifies buf, requestLine.Repr()
    ensures requestLine.Valid() && requestLine.inserts == old(requestLine.inserts) + RequestLineInserts(t)
    ensures fresh(requestLine.Repr() - old(requestLine.Repr()))
    ensures SameOutside(old(buf[..]), buf[..], line, line + |t|)
  {
    hide HoldsAt, Tokens, requestLine.Valid, FirstOfEach;
    ghost var tokens := Tokens(t, " ");
    var verb, uri, version := CutRequestLine(buf, line, t, tokens);
    InsertToken(buf, verb, if verb != -1 then tokens[0] else "", requestLine, "method");
    InsertToken(buf, uri, if uri != -1 then tokens[1] else "", requestLine, "uri");
    InsertToken(buf, version, if version != -1 then tokens[2] else "", requestLine, "http_version");
  }

  // ----------------------------------------------------------------------- the body

  /** A turn of the loop of extract_body up to the insertion: the piece is cut at its '='. */
  method ReadPair(buf: array<char>, piece: nat, ghost t: string) returns (pair: Option<(string, string)>)
    requires HoldsAt(buf[..], piece, t)
    modifies buf
    ensures PairInserts(t) == if pair.Some? then [pair.value] else []
    ensures SameOutside(old(buf[..]), buf[..], piece, piece + |t|)
  {
    hide HoldsAt;
    ghost var b := buf[..];
    HoldsInside(b, piece, t);
    var text := Text(buf, piece, t);
    var eq := StrChr(text, '=');
    pair := None;
    if eq.Some? {
      var e := eq.value;
      HoldsCut(b, piece, t, e);
      buf[piece + e] := NUL;
      assert buf[..] == b[piece + e := NUL];
      var key := Text(buf, piece, t[..e]);
      var value := Text(buf, piece + e + 1, t[e + 1..]);
      pair := Some((key, value));
    }
  }

  /** A turn of the loop of extract_body with the insertion. */
  method InsertPair(buf: array<char>, piece: nat, body: Dict<string>, ghost t: string, save: nat, ghost rest: string)
    requires HoldsAt(buf[..], piece, t) && HoldsAt(buf[..], save, rest) && piece + |t| <= save && body.Valid()
    modifies buf, body.Repr()
    ensures body.Valid() && body.inserts == old(body.inserts) + PairInserts(t)
    ensures fresh(body.Repr() - old(body.Repr()))
    ensures HoldsAt(buf[..], save, rest)
  {
    hide HoldsAt, PairInserts, SameOutside, body.Valid, FirstOfEach;
    BufferApart(buf, body);
    ghost var b := buf[..];
    var pair := ReadPair(buf, piece, t);
    HoldsFrame(b, buf[..], piece, piece + |t|, save, rest);
    if pair.Some? {
      body.Insert(pair.value.0, pair.value.1);
    }
  }

  lemma FirstPairs(t: string)
    ensures NextToken(t, "&").None? ==> FormInserts(t) == []
    ensures NextToken(t, "&").Some? ==>
              FormInserts(t) == PairInserts(NextToken(t, "&").value.0) + FormInserts(NextToken(t, "&").value.1)
  {
  }

  /** The loop of extract_body over the pieces of a form. */
  method ExtractPairs(buf: array<char>, start: nat, body: Dict<string>, ghost t: string)
    requires HoldsAt(buf[..], start, t) && body.Valid()
    modifies buf, body.Repr()
    ensures body.Valid() && body.inserts == old(body.inserts) + FormInserts(t)
    ensures fresh(body.Repr() - old(body.Repr()))
  {
    hide HoldsAt, PairInserts, FormInserts, NextToken, SameOutside, body.Valid, body.Repr, FirstOfEach;
    ghost var done: Inserts := [];
    BufferApart(buf, body);
    FirstPairs(t);
    var piece, save, rest := StrTokR(buf, start, "&", t);
    ghost var text := if piece == -1 then "" else NextToken(t, "&").value.0;
    while piece != -1
      invariant body.Valid() && body.inserts == old(body.inserts) + done
      invariant fresh(body.Repr() - old(body.Repr()))
      invariant FormInserts(t) == done + if piece == -1 then [] else PairInserts(text) + FormInserts(rest)
      invariant piece != -1 ==>
                  0 <= piece <= piece + |text| <= save && HoldsAt(buf[..], piece, text) && HoldsAt(buf[..], save, rest)
      decreases if piece == -1 then 0 else 1 + |rest|
    {
      BufferApart(buf, body);
      ghost var had := body.Repr();
      label L:
      InsertPair(buf, piece, body, text, save, rest);
      assert forall o :: o in body.Repr() && o !in had ==> fresh@L(o);
      BufferApart(buf, body);
      done := done + PairInserts(text);
      ghost var left := rest;
      FirstPairs(left);
      piece, save, rest := StrTokR(buf, save, "&", left);
      text := if piece == -1 then "" else NextToken(left, "&").value.0;
    }
  }

  /** A new C string with the text of another: malloc and strcpy. */
  method CopyOf(text: string) returns (copy: array<char>)
    requires NulFree(text)
    ensures fresh(copy) && HoldsAt(copy[..], 0, text) && copy.Length == |text| + 1
  {
    copy := new char[|text| + 1](i requires 0 <= i => if i < |text| then text[i] else NUL);
    assert copy[..][0..|text|] == text;
  }

  /** Nothing the first dictionary may change is part of the second. */
  lemma DictsApart(d: Dict<string>, e: Dict<string>)
    requires d.Repr() !! e.Repr()
    ensures e !in d.Repr() && e.tree !in d.Repr() && e.keys !in d.Repr()
    ensures forall o :: o in e.tree.nodes ==> o !in d.Repr()
    ensures forall o :: o in e.keys.nodes ==> o !in d.Repr()
  {
    assert e in e.Repr();
    assert e.tree in e.Repr();
    assert e.keys in e.Repr();
    forall o | o in e.tree.nodes
      ensures o !in d.Repr()
    {
      assert o in e.Repr();
    }
    forall o | o in e.keys.nodes
      ensures o !in d.Repr()
    {
      assert o in e.Repr();
    }
  }

  /** The copy of the body that extract_body tokenises. */
  method ExtractForm(text: string, body: Dict<string>)
    requires NulFree(text) && body.Valid()
    modifies body.Repr()
    ensures body.Valid() && body.inserts == old(body.inserts) + FormInserts(text)
    ensures fresh(body.Repr() - old(body.Repr()))
  {
    hide HoldsAt, FormInserts, body.Valid, FirstOfEach;
    var copy := CopyOf(text);
    ExtractPairs(copy, 0, body, text);
  }

  /** extract_body */
  method ExtractBody(buf: array<char>, start: nat, headerFields: Dict<string>, body: Dict<string>, ghost t: string)
    requires HoldsAt(buf[..], start, t) && headerFields.Valid() && body.Valid()
    requires body.Repr() !! headerFields.Repr()
    modifies body.Repr()
    ensures body.Valid() && body.inserts == old(body.inserts) + BodyInserts(t, headerFields.View())
  {
    hide HoldsAt, FormInserts, body.Valid, body.Repr, FirstOfEach, StrStr, NulFree;
    DictsApart(body, headerFields);
    var text := Text(buf, start, t);
    HoldsIsNulFree(buf[..], start, t);
    HoldsInside(buf[..], start, t);
    body.Insert("data", text);
    var contentType := headerFields.Search("content-type");
    if contentType.Some? && StrStr(contentType.value, FORM).Some? {
      ExtractForm(text, body);
    }
  }

  lemma HoldsIsNulFree(b: string, i: int, t: string)
    requires HoldsAt(b, i, t)
    ensures NulFree(t)
  {
  }

  // ------------------------------------------------------------------ the constructor

  datatype Request = Request(requestLine: Dict<string>, headerFields: Dict<string>, body: Dict<string>)

  /** strstr, a NUL over the first character found, and a pointer past the separator. */
  method CutAt(buf: array<char>, start: nat, separator: string, ghost t: string)
    returns (tail: int, ghost head: string, ghost rest: string)
    requires HoldsAt(buf[..], start, t) && separator != []
    modifies buf
    ensures (head, rest) == match StrStr(t, separator)
                            case None => (t, [])
                            case Some(end) => (t[..end], t[end + |separator|..])
    ensures HoldsAt(buf[..], start, head) && |head| <= |t|
    ensures tail == -1 ==> rest == []
    ensures tail != -1 ==>
              start + |head| < tail && tail + |rest| == start + |t| && HoldsAt(buf[..], tail, rest)
    ensures SameOutside(old(buf[..]), buf[..], start, start + |t|)
  {
    hide HoldsAt;
    ghost var b := buf[..];
    HoldsInside(b, start, t);
    var text := Text(buf, start, t);
    var end := StrStr(text, separator);
    tail, head, rest := -1, t, [];
    if end.Some? {
      var k := end.value;
      HoldsCut(b, start, t, k);
      buf[start + k] := NUL;
      assert buf[..] == b[start + k := NUL];
      HoldsTail(buf[..], start + k + 1, t[k + 1..], |separator| - 1);
      tail, head, rest := start + k + |separator|, t[..k], t[k + |separator|..];
      assert t[k + 1..][|separator| - 1..] == rest;
    }
  }

  lemma NothingFromNothing()
    ensures RequestLineInserts([]) == [] && HeaderInserts([]) == [] && Parse([]) == Parsed([], [], [])
  {
  }

  lemma ReprIsAllocated(d: Dict<string>)
    ensures forall o :: o in d.Repr() ==> allocated(o)
  {
  }

  /** The header fields, and then the body, which lies behind them. */
  method ExtractFieldsAndBody(buf: array<char>, headerFields: Dict<string>, bodyDict: Dict<string>,
                              fields: int, body: int, ghost fieldsText: string, ghost bodyText: string)
    requires headerFields.Valid() && headerFields.inserts == [] && bodyDict.Valid() && bodyDict.inserts == []
    requires headerFields.Repr() !! bodyDict.Repr()
    requires if fields == -1 then fieldsText == [] else HoldsAt(buf[..], fields, fieldsText)
    requires if body == -1 then bodyText == []
             else (fields != -1 ==> fields + |fieldsText| < body) && HoldsAt(buf[..], body, bodyText)
    modifies buf, headerFields.Repr(), bodyDict.Repr()
    ensures headerFields.Valid() && headerFields.inserts == HeaderInserts(fieldsText)
    ensures bodyDict.Valid()
    ensures bodyDict.inserts ==
              if bodyText == [] then [] else BodyInserts(bodyText, FirstOfEach(HeaderInserts(fieldsText)))
  {
    hide HoldsAt, HeaderInserts, BodyInserts, FirstOfEach;
    hide headerFields.Valid, bodyDict.Valid, headerFields.Repr, bodyDict.Repr;
    ghost var b := buf[..];
    NothingFromNothing();
    DictsApart(headerFields, bodyDict);
    DictsApart(bodyDict, headerFields);
    BufferApart(buf, headerFields);
    BufferApart(buf, bodyDict);
    ReprIsAllocated(bodyDict);
    if fields != -1 {
      HoldsInside(b, fields, fieldsText);
      var text := Text(buf, fields, fieldsText);
      if |text| > 0 {
        ExtractHeaderFields(buf, fields, headerFields, fieldsText);
      }
    }
    assert headerFields.Repr() !! bodyDict.Repr();
    if body != -1 {
      if fields != -1 {
        HoldsFrame(b, buf[..], fields, fields + |fieldsText|, body, bodyText);
      }
      HoldsInside(buf[..], body, bodyText);
      var text := Text(buf, body, bodyText);
      if |text| > 0 {
        DictsApart(bodyDict, headerFields);
        ExtractBody(buf, body, headerFields, bodyDict, bodyText);
      }
    }
  }

  /** The two cuts of http_request_constructor: the blank line, then the first line break. */
  method CutRequest(copy: array<char>, ghost t: string)
    returns (fieldsPart: int, bodyPart: int, ghost line: string, ghost fields: string, ghost body: string)
    requires HoldsAt(copy[..], 0, t)
    modifies copy
    ensures SplitBody(t).1 == body && SplitLine(SplitBody(t).0) == (line, fields)
    ensures HoldsAt(copy[..], 0, line)
    ensures if fieldsPart == -1 then fields == [] else |line| < fieldsPart && HoldsAt(copy[..], fieldsPart, fields)
    ensures if bodyPart == -1 then body == []
            else |line| < bodyPart && (fieldsPart != -1 ==> fieldsPart + |fields| < bodyPart)
                 && HoldsAt(copy[..], bodyPart, body)
  {
    hide HoldsAt, SameOutside, StrStr;
    ghost var head;
    bodyPart, head, body := CutAt(copy, 0, BLANK_LINE, t);
    ghost var b1 := copy[..];
    fieldsPart, line, fields := CutAt(copy, 0, CRLF, head);
    if bodyPart != -1 {
      HoldsFrame(b1, copy[..], 0, |head|, bodyPart, body);
    }
  }

  /** The rest of http_request_constructor, on the copy of a request. */
  method ParseCopy(copy: array<char>, requestLine: Dict<string>, headerFields: Dict<string>, body: Dict<string>,
                   ghost t: string)
    requires HoldsAt(copy[..], 0, t)
    requires requestLine.Valid() && requestLine.inserts == [] && headerFields.Valid() && headerFields.inserts == []
    requires body.Valid() && body.inserts == []
    requires requestLine.Repr() !! headerFields.Repr() !! body.Repr()
    modifies copy, requestLine.Repr(), headerFields.Repr(), body.Repr()
    ensures requestLine.Valid() && headerFields.Valid() && body.Valid()
    ensures Parsed(requestLine.inserts, headerFields.inserts, body.inserts) == Parse(t)
  {
    hide HoldsAt, RequestLineInserts, HeaderInserts, BodyInserts, FirstOfEach, SameOutside, SplitBody, SplitLine;
    hide requestLine.Valid, headerFields.Valid, body.Valid, requestLine.Repr, headerFields.Repr, body.Repr;
    DictsApart(requestLine, headerFields);
    DictsApart(requestLine, body);
    BufferApart(copy, requestLine);
    BufferApart(copy, headerFields);
    BufferApart(copy, body);
    ReprIsAllocated(headerFields);
    ReprIsAllocated(body);
    NothingFromNothing();
    var fieldsPart, bodyPart, line, fieldsText, bodyText := CutRequest(copy, t);
    ghost var b2 := copy[..];
    var lineText := Text(copy, 0, line);
    if |lineText| > 0 {
      ExtractRequestLineFields(copy, 0, requestLine, line);
    }
    ghost var b3 := copy[..];
    SameWhenEqual(b2, b3, 0, |line|);
    if fieldsPart != -1 {
      HoldsFrame(b2, b3, 0, |line|, fieldsPart, fieldsText);
    }
    if bodyPart != -1 {
      HoldsFrame(b2, b3, 0, |line|, bodyPart, bodyText);
    }
    DictsApart(headerFields, requestLine);
    DictsApart(body, requestLine);
    ExtractFieldsAndBody(copy, headerFields, body, fieldsPart, bodyPart, fieldsText, bodyText);
  }

  /** http_request_constructor, for the C string at the start of `request` or no string at all. */
  method Construct(request: array?<char>, ghost t: string) returns (r: Request)
    requires if request == null then t == [] else HoldsAt(request[..], 0, t)
    ensures r.requestLine.Valid() && r.headerFields.Valid() && r.body.Valid()
    ensures Parsed(r.requestLine.inserts, r.headerFields.inserts, r.body.inserts) == Parse(t)
  {
    hide *;
    var requestLine := new Dict<string>();
    ReprIsAllocated(requestLine);
    var headerFields := new Dict<string>();
    ReprIsAllocated(requestLine);
    ReprIsAllocated(headerFields);
    var body := new Dict<string>();
    r := Request(requestLine, headerFields, body);
    NothingFromNothing();
    if request == null {
      return;
    }
    HoldsNotNul(request[..], 0, t);
    HoldsInside(request[..], 0, t);
    if request[0] == NUL {
      return;
    }
    HoldsIsNulFree(request[..], 0, t);
    var text := Text(request, 0, t);
    var copy := CopyOf(text);
    ParseCopy(copy, requestLine, headerFields, body, t);
  }
}
