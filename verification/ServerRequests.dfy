/** From the bytes of a message to what the parser stores, in every run of the server: the
  * grammar, the framing and the transition system put together.
  */
module ServerRequests {
  import opened CStrings
  import opened Framing
  import opened Dictionary
  import opened HttpRequest
  import opened HttpGrammar
  import opened HttpFraming
  import opened Server
  import opened ServerFraming
  import opened ServerSafety

  /** In every run of the server: once the bytes of a message have come in through a slot with
    * nothing left over, cut into any chunks, the parser has been called for them exactly
    * once, and what it stores are the message's method, target, version and fields and its
    * body up to the first NUL. */
  lemma MessageIsServedOnce(s: State, i: SlotIndex, before: seq<string>, chunks: seq<string>, m: Message)
    requires Reachable(s) && NotReading(s, i)
    requires s.slots[i].chunks == before + chunks && Replay(before).0 == ""
    requires m.Valid() && SaysItsLength(m)
    requires Concat(chunks) == m.Text() && NoneEmpty(chunks)
    ensures s.slots[i].heard == "" && s.slots[i].requests == Replay(before).1 + [CStr(m.Text())]
    ensures var parsed, body := Parse(CStr(m.Text())), CStr(m.body);
            && parsed.requestLine == [("method", m.verb), ("uri", m.uri), ("http_version", m.version)]
            && parsed.headerFields == FieldPairs(m.fields)
            && parsed.body == if body == [] then [] else BodyInserts(body, FirstOfEach(FieldPairs(m.fields)))
  {
    hide *;
    MessageIsWellFramed(m);
    WellFramedIsNulFree(Head(m), m.body);
    TextAsCString(m);
    FragmentationIndependentInEveryRun(s, i, before, chunks, Head(m), m.body);
    CutIsValid(m);
    MessageParses(m.(body := CStr(m.body)));
  }

  lemma WellFramedIsNulFree(head: string, body: string)
    requires WellFramed(head, body)
    ensures NulFree(head)
  {
    hide StrStr, StrCaseStr, DeclaresLength;
  }

  lemma CutIsValid(m: Message)
    requires m.Valid()
    ensures m.(body := CStr(m.body)).Valid()
  {
  }
}
