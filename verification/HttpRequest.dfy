/** What the request parser extracts from a text (http_parser.c), as functions on strings:
  * the insertions into its three dictionaries, in order.
  */
module HttpRequest {
  import opened Options
  import opened CStrings
  import opened Dictionary

  type Inserts = seq<(string, string)>

  datatype Parsed = Parsed(requestLine: Inserts, headerFields: Inserts, body: Inserts)

  const FORM: string := "application/x-www-form-urlencoded"

  // ------------------------------------------------------------------- strtok_r

  function SkipDelimiters(t: string, delimiters: string): (r: string)
    ensures |r| <= |t| && r == t[|t| - |r|..]
    ensures r != [] ==> r[0] !in delimiters
    ensures forall i :: 0 <= i < |t| - |r| ==> t[i] in delimiters
  {
    if t != [] && t[0] in delimiters then SkipDelimiters(t[1..], delimiters) else t
  }

  /** The longest prefix without delimiters. */
  function Span(t: string, delimiters: string): (r: string)
    ensures r <= t
    ensures forall i :: 0 <= i < |r| ==> r[i] !in delimiters
    ensures |r| < |t| ==> t[|r|] in delimiters
  {
    if t == [] || t[0] in delimiters then []
    else
      var rest := Span(t[1..], delimiters);
      assert t == [t[0]] + t[1..];
      [t[0]] + rest
  }

  /** One call of strtok_r: the token and the text left for the next call. */
  function NextToken(t: string, delimiters: string): (r: Option<(string, string)>)
    ensures r.Some? ==> r.value.0 != [] && |r.value.0| + |r.value.1| <= |t|
  {
    var u := SkipDelimiters(t, delimiters);
    if u == [] then None
    else
      var token := Span(u, delimiters);
      Some((token, if |token| == |u| then [] else u[|token| + 1..]))
  }

  function Tokens(t: string, delimiters: string): seq<string>
    decreases |t|
  {
    match NextToken(t, delimiters)
    case None => []
    case Some((token, rest)) => [token] + Tokens(rest, delimiters)
  }

  // ---------------------------------------------------------------------- trimming

  function TrimRight(t: string): (r: string)
    ensures r <= t && (r != [] ==> !IsSpace(r[|r| - 1]))
    ensures forall i :: |r| <= i < |t| ==> IsSpace(t[i])
  {
    if t != [] && IsSpace(t[|t| - 1]) then TrimRight(t[..|t| - 1]) else t
  }

  /** trim_whitespace */
  function Trim(t: string): string {
    TrimRight(SkipSpace(t))
  }

  // ------------------------------------------------------------------ the three parts

  /** extract_request_line_fields */
  function RequestLineInserts(line: string): Inserts {
    var tokens := Tokens(line, " ");
    (if |tokens| > 0 then [("method", tokens[0])] else []) +
    (if |tokens| > 1 then [("uri", tokens[1])] else []) +
    (if |tokens| > 2 then [("http_version", tokens[2])] else [])
  }

  /** One line of extract_header_fields */
  function FieldInserts(line: string): Inserts {
    match StrChr(line, ':')
    case None => []
    case Some(colon) =>
      var key := Trim(line[..colon]);
      if key == [] then [] else [(Lower(key), Trim(line[colon + 1..]))]
  }

  /** extract_header_fields */
  function HeaderInserts(t: string): Inserts
    decreases |t|
  {
    match NextToken(t, CRLF)
    case None => []
    case Some((line, rest)) => FieldInserts(line) + HeaderInserts(rest)
  }

  function PairInserts(piece: string): Inserts {
    match StrChr(piece, '=')
    case None => []
    case Some(eq) => [(piece[..eq], piece[eq + 1..])]
  }

  function FormInserts(t: string): Inserts
    decreases |t|
  {
    match NextToken(t, "&")
    case None => []
    case Some((piece, rest)) => PairInserts(piece) + FormInserts(rest)
  }

  predicate IsForm(headerFields: map<string, string>) {
    match Lookup(headerFields, "content-type")
    case None => false
    case Some(contentType) => StrStr(contentType, FORM).Some?
  }

  /** extract_body, for a body that is not empty */
  function BodyInserts(body: string, headerFields: map<string, string>): Inserts {
    [("data", body)] + if IsForm(headerFields) then FormInserts(body) else []
  }

  /** The header section and the body. */
  function SplitBody(t: string): (string, string) {
    match StrStr(t, BLANK_LINE)
    case None => (t, [])
    case Some(end) => (t[..end], t[end + |BLANK_LINE|..])
  }

  /** The request line and the field lines. */
  function SplitLine(head: string): (string, string) {
    match StrStr(head, CRLF)
    case None => (head, [])
    case Some(end) => (head[..end], head[end + |CRLF|..])
  }

  /** http_request_constructor */
  function Parse(t: string): Parsed {
    var (head, body) := SplitBody(t);
    var (line, fields) := SplitLine(head);
    var headerFields := HeaderInserts(fields);
    Parsed(RequestLineInserts(line), headerFields,
           if body == [] then [] else BodyInserts(body, FirstOfEach(headerFields)))
  }

  /** Whether the worker keeps the connection after a request: not if its header field
    * connection is "close", in any letter case. */
  predicate KeepsAlive(t: string) {
    match Lookup(FirstOfEach(Parse(t).headerFields), "connection")
    case None => true
    case Some(value) => Lower(value) != "close"
  }
}
