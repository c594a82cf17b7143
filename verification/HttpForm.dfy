/** Form bodies: what extract_body stores, against the pieces between '&' characters. */
module HttpForm {
  import opened Options
  import opened CStrings
  import opened Dictionary
  import opened HttpRequest
  import opened HttpGrammar

  /** The pieces of a text between separators; they may be empty. */
  function Split(t: string, c: char): (pieces: seq<string>)
    ensures pieces != [] && JoinWith(pieces, c) == t
    ensures forall i :: 0 <= i < |pieces| ==> c !in pieces[i]
    decreases |t|
  {
    match StrChr(t, c)
    case None => [t]
    case Some(i) =>
      var rest := Split(t[i + 1..], c);
      assert t == t[..i] + ([c] + t[i + 1..]);
      assert ([t[..i]] + rest)[1..] == rest;
      [t[..i]] + rest
  }

  function JoinWith(pieces: seq<string>, c: char): string
    requires pieces != []
  {
    if |pieces| == 1 then pieces[0] else pieces[0] + ([c] + JoinWith(pieces[1..], c))
  }

  /** Pieces without the separator are recovered from their join: Split has no other choice. */
  lemma {:induction false} SplitOfJoin(pieces: seq<string>, c: char)
    requires pieces != [] && forall i :: 0 <= i < |pieces| ==> c !in pieces[i]
    ensures Split(JoinWith(pieces, c), c) == pieces
    decreases |pieces|
  {
    var t := JoinWith(pieces, c);
    if |pieces| > 1 {
      var i := |pieces[0]|;
      assert t[..i] == pieces[0] && t[i + 1..] == JoinWith(pieces[1..], c);
      StrChrIs(t, c, i);
      SplitOfJoin(pieces[1..], c);
    }
  }

  /** The text after the first '=' of the first piece whose key, the text before it, is `key`. */
  function FirstValue(pieces: seq<string>, key: string): Option<string> {
    if pieces == [] then None
    else
      match StrChr(pieces[0], '=')
      case Some(eq) =>
        if pieces[0][..eq] == key then Some(pieces[0][eq + 1..]) else FirstValue(pieces[1..], key)
      case None => FirstValue(pieces[1..], key)
  }

  /** What FirstValue finds, without StrChr. */
  lemma {:induction false} FirstValueMeans(pieces: seq<string>, key: string, i: nat, value: string)
    requires i < |pieces| && '=' !in key && pieces[i] == key + ['='] + value
    requires forall j :: 0 <= j < i ==> !(key + ['='] <= pieces[j])
    ensures FirstValue(pieces, key) == Some(value)
  {
    if i == 0 {
      var t := pieces[0];
      assert t[..|key|] == key && t[|key| + 1..] == value;
      StrChrIs(t, '=', |key|);
    } else {
      var t := pieces[0];
      match StrChr(t, '=') {
        case Some(eq) =>
          assert t == t[..eq] + ['='] + t[eq + 1..];
        case None =>
      }
      FirstValueMeans(pieces[1..], key, i - 1, value);
    }
  }

  // --------------------------------------------------------------- the first insertion

  function FirstIn(inserts: Inserts, key: string): Option<string> {
    if inserts == [] then None
    else if inserts[0].0 == key then Some(inserts[0].1)
    else FirstIn(inserts[1..], key)
  }

  lemma {:induction false} FirstInAppend(one: Inserts, two: Inserts, key: string)
    ensures FirstIn(one + two, key) == if FirstIn(one, key).Some? then FirstIn(one, key) else FirstIn(two, key)
  {
    if one == [] {
      assert one + two == two;
    } else {
      assert (one + two)[1..] == one[1..] + two;
      FirstInAppend(one[1..], two, key);
    }
  }

  /** A search after some insertions finds the first of them under the key. */
  lemma {:induction false} LookupIsFirst(inserts: Inserts, key: string)
    ensures Lookup(FirstOfEach(inserts), key) == FirstIn(inserts, key)
  {
    if inserts != [] {
      var before, last := inserts[..|inserts| - 1], inserts[|inserts| - 1];
      LookupIsFirst(before, key);
      assert inserts == before + [last];
      FirstInAppend(before, [last], key);
      assert [last][1..] == [];
    }
  }

  // -------------------------------------------------------------------- the form's pieces

  lemma {:induction false} SplitAtStart(t: string, c: char)
    requires t != [] && t[0] == c
    ensures Split(t, c) == [[]] + Split(t[1..], c)
  {
    StrChrIs(t, c, 0);
  }

  lemma SkipOne(t: string, delimiters: string)
    requires t != [] && t[0] in delimiters
    ensures NextToken(t, delimiters) == NextToken(t[1..], delimiters)
  {
  }

  lemma TokenIsPiece(t: string, c: char)
    requires t != [] && t[0] != c
    ensures StrChr(t, c) == None ==> NextToken(t, [c]) == Some((t, []))
    ensures forall i :: StrChr(t, c) == Some(i) ==> NextToken(t, [c]) == Some((t[..i], t[i + 1..]))
  {
    hide SkipDelimiters, Span;
    assert SkipDelimiters(t, [c]) == t;
    var token := Span(t, [c]);
    if |token| == |t| {
      assert token == t;
    } else {
      assert t[..|token|] == token;
      StrChrIs(t, c, |token|);
    }
  }

  /** The form's insertions under a key are decided by its pieces; empty ones and those without
    * '=' add nothing. */
  lemma {:induction false} FormFinds(t: string, key: string)
    ensures FirstIn(FormInserts(t), key) == FirstValue(Split(t, '&'), key)
    decreases |t|
  {
    hide NextToken, FirstIn;
    if t == [] {
      assert FormInserts(t) == [] by { NothingInNothing(); }
      assert FirstIn([], key) == None by { NoneIn(key); }
    } else if t[0] == '&' {
      SkipOne(t, "&");
      SplitAtStart(t, '&');
      FormFinds(t[1..], key);
      assert ([[]] + Split(t[1..], '&'))[1..] == Split(t[1..], '&');
    } else {
      TokenIsPiece(t, '&');
      var (piece, rest) := NextToken(t, "&").value;
      FormFinds(rest, key);
      FirstInAppend(PairInserts(piece), FormInserts(rest), key);
      PieceFinds(piece, Split(rest, '&'), key);
      hide FormInserts, PairInserts, FirstValue;
    }
  }

  lemma NothingInNothing()
    ensures FormInserts([]) == []
  {
  }

  lemma NoneIn(key: string)
    ensures FirstIn([], key) == None
  {
  }

  lemma PieceFinds(piece: string, rest: seq<string>, key: string)
    ensures FirstValue([piece] + rest, key) ==
              if FirstIn(PairInserts(piece), key).Some? then FirstIn(PairInserts(piece), key) else FirstValue(rest, key)
    ensures FirstIn(PairInserts(piece), key).None? ==> FirstValue([piece], key) == None
  {
    assert ([piece] + rest)[1..] == rest;
  }

  /** The body dictionary of a form: "data" is the whole body even if the form has a field of
    * that name; every other key is decided by the first piece that has it. */
  lemma FormBody(body: string, headerFields: map<string, string>, key: string)
    ensures Lookup(FirstOfEach(BodyInserts(body, headerFields)), key) ==
              if key == "data" then Some(body)
              else if IsForm(headerFields) then FirstValue(Split(body, '&'), key)
              else None
  {
    hide FirstOfEach, FirstValue, Split, IsForm, FormInserts;
    LookupIsFirst(BodyInserts(body, headerFields), key);
    var form := if IsForm(headerFields) then FormInserts(body) else [];
    assert ([("data", body)] + form)[1..] == form;
    FormFinds(body, key);
  }

  /** What a message's body is stored as: all of it under "data", and, exactly if its first
    * content-type field declares a form, the form's fields under their keys. */
  lemma BodyOfMessage(m: Message, key: string)
    requires m.Valid() && m.body != []
    ensures Lookup(FirstOfEach(Parse(m.Text()).body), key) ==
              if key == "data" then Some(m.body)
              else if DeclaresForm(m) then FirstValue(Split(m.body, '&'), key)
              else None
  {
    hide FirstOfEach, FirstValue, Split, IsForm, Parse, BodyInserts, DeclaresForm;
    MessageParses(m);
    FormIsDeclared(m);
    FormBody(m.body, FirstOfEach(FieldPairs(m.fields)), key);
  }
}
