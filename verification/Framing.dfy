/** The read buffer of a client connection and the test that decides when a request
  * is complete (thread_pool.c, the worker's read; network.h, `ClientConnection`).
  */
module Framing {
  import opened Options
  import opened CStrings

  const BUFFER_SIZE: nat := 8192
  const CONTENT_LENGTH: string := "Content-Length:"

  datatype Buffer = Buffer(bytes: string, length: int)

  /** What holds of a buffer whenever no worker is in the middle of a read. */
  predicate Settled(b: Buffer) {
    && |b.bytes| == BUFFER_SIZE
    && 0 <= b.length < BUFFER_SIZE
    && b.bytes[b.length] == NUL
  }

  /** The bytes received and not yet consumed. */
  function Received(b: Buffer): string
    requires Settled(b)
  {
    b.bytes[..b.length]
  }

  /** recv: `chunk` lands behind the received bytes; the length is not yet advanced. */
  function Fill(b: Buffer, chunk: string): (r: Buffer)
    requires |b.bytes| == BUFFER_SIZE
    requires 0 <= b.length && b.length + |chunk| < BUFFER_SIZE
    ensures |r.bytes| == BUFFER_SIZE && r.length == b.length
    ensures r.bytes[..b.length + |chunk|] == b.bytes[..b.length] + chunk
  {
    b.(bytes := b.bytes[..b.length] + chunk + b.bytes[b.length + |chunk|..])
  }

  /** Count `n` new bytes and put a NUL behind them. */
  function Advance(b: Buffer, n: nat): (r: Buffer)
    requires |b.bytes| == BUFFER_SIZE
    requires 0 <= b.length && b.length + n < BUFFER_SIZE
    ensures Settled(r) && Received(r) == b.bytes[..b.length + n]
  {
    Buffer(b.bytes[b.length + n := NUL], b.length + n)
  }

  function Zeros(n: nat): (r: string)
    ensures |r| == n && forall i :: 0 <= i < n ==> r[i] == NUL
  {
    seq(n, _ => NUL)
  }

  const EMPTY: Buffer := Buffer(Zeros(BUFFER_SIZE), 0)

  /** The completion test on a C string `text` of a buffer holding `length` bytes. */
  predicate Complete(text: string, length: int) {
    match StrStr(text, BLANK_LINE)
    case None => false
    case Some(headersEnd) =>
      match StrCaseStr(text, CONTENT_LENGTH)
      case None => true
      case Some(cl) => length >= headersEnd + |BLANK_LINE| + AToI(text[cl + |CONTENT_LENGTH|..])
  }

  predicate RequestComplete(b: Buffer) {
    Complete(CStr(b.bytes), b.length)
  }

  /** What the parser is called with. */
  function ParserInput(b: Buffer): string {
    CStr(b.bytes)
  }

  /** Whatever an earlier request left behind the terminator does not matter: test and
    * parser see the received bytes only. */
  lemma OnlyReceivedBytesMatter(b: Buffer)
    requires Settled(b)
    ensures ParserInput(b) == CStr(Received(b))
    ensures RequestComplete(b) == Complete(CStr(Received(b)), |Received(b)|)
  {
    hide Complete;
    CStrOfPrefix(Received(b), b.bytes);
  }

  // ------------------------------------------------------------ one and many reads

  /** The buffer after some reads, and the inputs the parser was called with meanwhile,
    * each given by all the bytes the buffer held. */
  datatype Delivery = Delivery(buffer: Buffer, parsed: seq<string>)

  predicate Fits(b: Buffer, chunk: string) {
    |b.bytes| == BUFFER_SIZE && 0 <= b.length && b.length + |chunk| < BUFFER_SIZE
  }

  /** One successful read of `chunk`. */
  function Deliver(b: Buffer, chunk: string): (r: Delivery)
    requires Fits(b, chunk)
    ensures Settled(r.buffer) && r.buffer.length <= b.length + |chunk|
  {
    var c := Advance(Fill(b, chunk), |chunk|);
    if RequestComplete(c) then Delivery(EMPTY, [Received(c)]) else Delivery(c, [])
  }

  predicate NoneEmpty(chunks: seq<string>) {
    forall i :: 0 <= i < |chunks| ==> |chunks[i]| > 0
  }

  function Concat(chunks: seq<string>): string {
    if chunks == [] then [] else chunks[0] + Concat(chunks[1..])
  }

  function DeliverAll(b: Buffer, chunks: seq<string>): (r: Delivery)
    requires Settled(b) && Fits(b, Concat(chunks))
    ensures Settled(r.buffer)
    decreases |chunks|
  {
    if chunks == [] then Delivery(b, [])
    else
      var first := Deliver(b, chunks[0]);
      var rest := DeliverAll(first.buffer, chunks[1..]);
      Delivery(rest.buffer, first.parsed + rest.parsed)
  }

  // ------------------------------------------------------ self-delimited requests

  predicate DeclaresLength(head: string, n: nat) {
    match StrCaseStr(head, CONTENT_LENGTH)
    case None => false
    case Some(cl) =>
      var digits := DigitRun(SkipSpace(head[cl + |CONTENT_LENGTH|..]));
      digits != [] && Decimal(digits) == n
  }

  /** A request that fits the buffer and says where it ends: its header section has no
    * NUL and ends at its first blank line, and either its first Content-Length, in any
    * letter case, gives the length of the body, or there is none and no body. */
  predicate WellFramed(head: string, body: string) {
    && |head| + |body| < BUFFER_SIZE
    && NulFree(head)
    && |head| >= |BLANK_LINE|
    && StrStr(head, BLANK_LINE) == Some(|head| - |BLANK_LINE|)
    && (DeclaresLength(head, |body|) || (body == [] && StrCaseStr(head, CONTENT_LENGTH).None?))
  }

  lemma LowerOfPrefix(p: string, t: string)
    requires p <= t
    ensures Lower(p) <= Lower(t)
  {
  }

  /** A first occurrence in a prefix is the first occurrence in the whole text. */
  lemma FirstInPrefix(p: string, t: string, pattern: string)
    requires p <= t && StrStr(p, pattern).Some?
    ensures StrStr(t, pattern) == StrStr(p, pattern)
  {
    var i := StrStr(p, pattern).value;
    OccursInPrefix(p, t, pattern, i);
    forall j: nat | j < i
      ensures !OccursAt(t, pattern, j)
    {
      OccursInPrefix(p, t, pattern, j);
    }
    StrStrIs(t, pattern, i);
  }

  /** Whatever follows the header section, the test finds its end and its declared length. */
  lemma HeadDecides(head: string, n: nat, t: string)
    requires head <= t
    requires |head| >= |BLANK_LINE| && StrStr(head, BLANK_LINE) == Some(|head| - |BLANK_LINE|)
    requires DeclaresLength(head, n)
    ensures StrStr(t, BLANK_LINE) == Some(|head| - |BLANK_LINE|)
    ensures StrCaseStr(t, CONTENT_LENGTH) == StrCaseStr(head, CONTENT_LENGTH)
    ensures AToI(t[StrCaseStr(head, CONTENT_LENGTH).value + |CONTENT_LENGTH|..]) == Narrow32(Saturate64(n))
  {
    hide FindFrom, SkipSpace, DigitRun, Decimal, AToI, Narrow32, Saturate64;
    FirstInPrefix(head, t, BLANK_LINE);
    LowerOfPrefix(head, t);
    FirstInPrefix(Lower(head), Lower(t), Lower(CONTENT_LENGTH));
    var cl := StrCaseStr(head, CONTENT_LENGTH).value + |CONTENT_LENGTH|;
    assert t[cl..] == head[cl..] + t[|head|..];
    LastIsNotADigit(head, SkipSpace(head[cl..]));
    AToIStopsAtNonDigit(head[cl..], t[|head|..]);
  }

  lemma LastIsNotADigit(head: string, u: string)
    requires |head| >= |BLANK_LINE| && StrStr(head, BLANK_LINE) == Some(|head| - |BLANK_LINE|)
    requires |u| <= |head| && u == head[|head| - |u|..]
    ensures |DigitRun(u)| < |u| || u == []
  {
    assert head[|head| - 4..][3] == BLANK_LINE[3];
    if u != [] {
      assert u[|u| - 1] == '\n';
    }
  }

  /** With its head complete, a request is found complete exactly from the end it declares on,
    * the declared number being narrowed to an int. */
  lemma CompleteFromDeclaredEnd(head: string, n: nat, x: string)
    requires NulFree(head) && |head| >= |BLANK_LINE|
    requires StrStr(head, BLANK_LINE) == Some(|head| - |BLANK_LINE|)
    requires DeclaresLength(head, n) && head <= x
    ensures Complete(CStr(x), |x|) <==> |x| >= |head| + Narrow32(Saturate64(n))
  {
    CStrOfNulFree(head);
    CStrOfPrefix(head, x);
    DeclaredIsFound(head, n);
    hide StrStr, StrCaseStr, AToI, DeclaresLength, CStr, Narrow32, Saturate64;
    HeadDecides(head, n, CStr(x));
  }

  lemma DeclaredIsFound(head: string, n: nat)
    requires DeclaresLength(head, n)
    ensures StrCaseStr(head, CONTENT_LENGTH).Some?
  {
  }

  /** Without a blank line nothing is complete. */
  lemma PartOfHeadIsIncomplete(r: string, x: string)
    requires x <= r
    requires forall j: nat :: OccursAt(r, BLANK_LINE, j) ==> |x| < j + |BLANK_LINE|
    ensures !Complete(CStr(x), |x|)
  {
    forall j: nat
      ensures !OccursAt(CStr(x), BLANK_LINE, j)
    {
      if j + |BLANK_LINE| <= |CStr(x)| {
        OccursInPrefix(CStr(x), r, BLANK_LINE, j);
      }
    }
    StrStrIsNone(CStr(x), BLANK_LINE);
  }

  lemma OnlyAtEnd(head: string, x: string)
    requires |head| >= |BLANK_LINE| && StrStr(head, BLANK_LINE) == Some(|head| - |BLANK_LINE|) && |x| < |head|
    ensures forall j: nat :: OccursAt(head, BLANK_LINE, j) ==> |x| < j + |BLANK_LINE|
  {
  }

  /** No part of a well-framed request passes the completion test before its last byte. */
  lemma ProperPrefixIsIncomplete(head: string, body: string, x: string)
    requires WellFramed(head, body)
    requires x <= head + body && |x| < |head + body|
    ensures !Complete(CStr(x), |x|)
  {
    hide Complete, StrStr, StrCaseStr, CStr, DeclaresLength, OccursAt;
    if |x| < |head| {
      assert x <= head;
      OnlyAtEnd(head, x);
      PartOfHeadIsIncomplete(head, x);
    } else {
      assert body != [];
      assert head <= x;
      CompleteFromDeclaredEnd(head, |body|, x);
      NarrowedIffSmall(|body|);
    }
  }

  lemma WholeIsComplete(head: string, body: string)
    requires WellFramed(head, body)
    ensures Complete(CStr(head + body), |head + body|)
  {
    hide StrStr, StrCaseStr, CStr, AToI, DeclaresLength;
    var r := head + body;
    CStrOfNulFree(head);
    if DeclaresLength(head, |body|) {
      hide Complete;
      CompleteFromDeclaredEnd(head, |body|, r);
      NarrowedIffSmall(|body|);
    } else {
      assert r == head;
    }
  }

  /** While the bytes received stay short of the request, nothing is parsed. */
  lemma {:induction false} NothingParsedEarly(b: Buffer, chunks: seq<string>, head: string, body: string)
    requires Settled(b) && Fits(b, Concat(chunks))
    requires WellFramed(head, body)
    requires Received(b) + Concat(chunks) <= head + body
    requires |Received(b) + Concat(chunks)| < |head + body|
    ensures DeliverAll(b, chunks).parsed == []
    ensures Received(DeliverAll(b, chunks).buffer) == Received(b) + Concat(chunks)
    decreases |chunks|
  {
    hide Complete, WellFramed;
    if chunks == [] {
      assert Received(b) + Concat(chunks) == Received(b);
    } else {
      var c := Advance(Fill(b, chunks[0]), |chunks[0]|);
      assert Received(c) + Concat(chunks[1..]) == Received(b) + Concat(chunks);
      assert Received(c) <= head + body;
      OnlyReceivedBytesMatter(c);
      ProperPrefixIsIncomplete(head, body, Received(c));
      NothingParsedEarly(c, chunks[1..], head, body);
    }
  }

  lemma {:induction false} ConcatSnoc(chunks: seq<string>)
    requires chunks != []
    ensures Concat(chunks) == Concat(chunks[..|chunks| - 1]) + chunks[|chunks| - 1]
  {
    if |chunks| > 1 {
      assert chunks[1..][..|chunks| - 2] == chunks[..|chunks| - 1][1..];
      ConcatSnoc(chunks[1..]);
    }
  }

  /** A text cut into non-empty chunks, before its last chunk. */
  lemma BeforeLastChunk(chunks: seq<string>, r: string)
    requires Concat(chunks) == r && r != [] && NoneEmpty(chunks)
    ensures chunks != []
    ensures var front, last := Concat(chunks[..|chunks| - 1]), chunks[|chunks| - 1];
            last != [] && front + last == r && front <= r && |front| < |r|
  {
    ConcatSnoc(chunks);
  }

  lemma {:induction false} DeliverAllSnoc(b: Buffer, chunks: seq<string>)
    requires chunks != [] && Settled(b) && Fits(b, Concat(chunks))
    ensures Fits(b, Concat(chunks[..|chunks| - 1]))
    ensures var before := DeliverAll(b, chunks[..|chunks| - 1]);
            && Fits(before.buffer, chunks[|chunks| - 1])
            && var last := Deliver(before.buffer, chunks[|chunks| - 1]);
            DeliverAll(b, chunks) == Delivery(last.buffer, before.parsed + last.parsed)
    decreases |chunks|
  {
    hide Deliver, Complete, RequestComplete;
    ConcatSnoc(chunks);
    var first := Deliver(b, chunks[0]);
    if |chunks| == 1 {
      assert first.parsed + [] == [] + first.parsed;
    } else {
      assert chunks[1..][..|chunks| - 2] == chunks[..|chunks| - 1][1..];
      DeliverAllSnoc(first.buffer, chunks[1..]);
      var before := DeliverAll(first.buffer, chunks[1..][..|chunks| - 2]);
      var last := Deliver(before.buffer, chunks[|chunks| - 1]);
      assert first.parsed + (before.parsed + last.parsed) == first.parsed + before.parsed + last.parsed;
    }
  }

  lemma HeadIsNotEmpty(head: string, body: string)
    requires WellFramed(head, body)
    ensures 0 < |head + body| < BUFFER_SIZE
  {
  }

  lemma LastReadCompletes(b: Buffer, chunk: string, head: string, body: string)
    requires Settled(b) && Fits(b, chunk)
    requires WellFramed(head, body) && Received(b) + chunk == head + body
    ensures Deliver(b, chunk) == Delivery(EMPTY, [head + body])
  {
    hide Complete, WellFramed, CStr;
    OnlyReceivedBytesMatter(Advance(Fill(b, chunk), |chunk|));
    WholeIsComplete(head, body);
  }

  /** Framing does not depend on fragmentation (RFC 9112, section 6.3): however a
    * well-framed request is cut into non-empty chunks, the parser is called exactly once,
    * by the read of the last chunk, with exactly the request in the buffer. */
  lemma FragmentationIndependent(b: Buffer, chunks: seq<string>, head: string, body: string)
    requires Settled(b) && b.length == 0
    requires WellFramed(head, body)
    requires Concat(chunks) == head + body
    requires NoneEmpty(chunks)
    ensures chunks != []
    ensures Fits(b, Concat(chunks[..|chunks| - 1]))
    ensures DeliverAll(b, chunks[..|chunks| - 1]).parsed == []
    ensures DeliverAll(b, chunks) == Delivery(EMPTY, [head + body])
  {
    hide WellFramed, DeliverAll, Deliver, Concat;
    HeadIsNotEmpty(head, body);
    BeforeLastChunk(chunks, head + body);
    var front, last := chunks[..|chunks| - 1], chunks[|chunks| - 1];
    assert Received(b) + Concat(front) == Concat(front);
    NothingParsedEarly(b, front, head, body);
    DeliverAllSnoc(b, chunks);
    LastReadCompletes(DeliverAll(b, front).buffer, last, head, body);
  }

  lemma LeftOverIsParsedToo(b: Buffer, r: string)
    requires Settled(b) && b.length > 0 && Fits(b, r) && Fits(b, Concat([r]))
    ensures DeliverAll(b, [r]).parsed != [r]
  {
    hide Complete, RequestComplete, CStr;
    var first := Deliver(b, r);
    assert DeliverAll(first.buffer, []).parsed == [];
    assert first.parsed != [] ==> |first.parsed[0]| > |r|;
    assert [r][1..] == [];
  }

  /** Every byte of the chunks is received, and the parser is called for them once, with `r`. */
  predicate FramedAs(b: Buffer, chunks: seq<string>, r: string)
    requires Settled(b)
  {
    Fits(b, Concat(chunks)) && DeliverAll(b, chunks).parsed == [r]
  }

  /** A reused slot keeps the bytes of its last connection.  Every way of cutting the next
    * request is framed correctly exactly when there are no such bytes. */
  lemma FramedIffNothingLeftOver(b: Buffer, head: string, body: string)
    requires Settled(b) && WellFramed(head, body)
    ensures (forall chunks: seq<string> ::
               Concat(chunks) == head + body && NoneEmpty(chunks) ==> FramedAs(b, chunks, head + body))
            <==> b.length == 0
  {
    hide Complete, RequestComplete, WellFramed;
    var r := head + body;
    HeadIsNotEmpty(head, body);
    if b.length == 0 {
      forall chunks: seq<string> | Concat(chunks) == r && NoneEmpty(chunks)
        ensures FramedAs(b, chunks, r)
      {
        FragmentationIndependent(b, chunks, head, body);
      }
    } else {
      var whole := [r];
      assert whole[1..] == [] && Concat(whole[1..]) == [];
      assert Concat(whole) == r && NoneEmpty(whole);
      if Fits(b, r) {
        LeftOverIsParsedToo(b, r);
      }
      assert !FramedAs(b, whole, r);
    }
  }

  // ------------------------------------------------------------- requests that do not fit

  /** A request whose declared end, narrowed to an int, lies beyond the buffer is never found
    * complete: the buffer fills up first, and then the read size is 0. */
  lemma OversizeNeverCompletes(head: string, n: nat, x: string)
    requires NulFree(head) && |head| >= |BLANK_LINE|
    requires StrStr(head, BLANK_LINE) == Some(|head| - |BLANK_LINE|) && DeclaresLength(head, n)
    requires |head| + Narrow32(Saturate64(n)) >= BUFFER_SIZE
    requires |x| < BUFFER_SIZE && (head <= x || (x <= head && x != head))
    ensures !Complete(CStr(x), |x|)
  {
    hide Complete, StrStr, CStr, DeclaresLength, Narrow32, Saturate64;
    if head <= x {
      CompleteFromDeclaredEnd(head, n, x);
    } else {
      OnlyAtEnd(head, x);
      PartOfHeadIsIncomplete(head, x);
    }
  }

  /** For every declared number: the request can be found complete within the buffer if and only
    * if its head fits and the end it declares, narrowed to an int, does. */
  lemma CompletesInBufferIff(head: string, n: nat)
    requires NulFree(head) && |head| >= |BLANK_LINE|
    requires StrStr(head, BLANK_LINE) == Some(|head| - |BLANK_LINE|) && DeclaresLength(head, n)
    ensures (exists x :: head <= x && |x| < BUFFER_SIZE && Complete(CStr(x), |x|))
            <==> |head| < BUFFER_SIZE && |head| + Narrow32(Saturate64(n)) < BUFFER_SIZE
  {
    hide Complete, StrStr, CStr, DeclaresLength, Narrow32, Saturate64;
    var end := |head| + Narrow32(Saturate64(n));
    forall x | head <= x
      ensures Complete(CStr(x), |x|) <==> |x| >= end
    {
      CompleteFromDeclaredEnd(head, n, x);
    }
    if |head| < BUFFER_SIZE && end < BUFFER_SIZE {
      var x := head + Zeros(if end < |head| then 0 else end - |head|);
      assert head <= x && Complete(CStr(x), |x|);
    }
  }

  /** For which declared numbers the test's sum of two ints is an int: all but those that the
    * narrowing leaves within a head's length of the greatest int. */
  lemma SumIsAnInt(headLength: nat, n: nat)
    requires headLength < BUFFER_SIZE
    ensures -0x8000_0000 <= headLength + Narrow32(Saturate64(n)) <= 0x7FFF_FFFF <==>
              !(0x8000_0000 - headLength <= Saturate64(n) % 0x1_0000_0000 < 0x8000_0000)
  {
  }

  /** A head that does not end within the bytes that fit the buffer is never found complete. */
  lemma LongHeadNeverCompletes(r: string, x: string)
    requires forall j: nat :: OccursAt(r, BLANK_LINE, j) ==> BUFFER_SIZE <= j + |BLANK_LINE|
    requires x <= r && |x| < BUFFER_SIZE
    ensures !Complete(CStr(x), |x|)
  {
    hide OccursAt, Complete, CStr;
    PartOfHeadIsIncomplete(r, x);
  }

  // ------------------------------------------------------------- the code, in place

  /** The part of a connection slot that a worker's read changes. */
  class ReadState {
    var readBuffer: array<char>
    var readLength: int

    ghost predicate Valid()
      reads this, readBuffer
    {
      Settled(View())
    }

    ghost function View(): Buffer
      reads this, readBuffer
    {
      Buffer(readBuffer[..], readLength)
    }

    constructor ()
      ensures Valid() && View() == EMPTY && fresh(readBuffer)
    {
      readBuffer := new char[BUFFER_SIZE](_ => NUL);
      readLength := 0;
      new;
      assert readBuffer[..] == EMPTY.bytes;
    }

    /** recv with result |chunk|: the bytes are stored behind the received ones. */
    method Receive(chunk: string)
      requires Fits(View(), chunk)
      modifies readBuffer
      ensures View() == Fill(old(View()), chunk)
    {
      ghost var before := readBuffer[..];
      for i := 0 to |chunk|
        invariant forall k :: readLength <= k < readLength + i ==> readBuffer[k] == chunk[k - readLength]
        invariant forall k :: 0 <= k < BUFFER_SIZE && (k < readLength || readLength + i <= k) ==> readBuffer[k] == before[k]
      {
        readBuffer[readLength + i] := chunk[i];
      }
      assert readBuffer[..] == before[..readLength] + chunk + before[readLength + |chunk|..];
    }

    /** The reset after a request: the length and a memset. */
    method Clear()
      requires readBuffer.Length == BUFFER_SIZE
      modifies this, readBuffer
      ensures readBuffer == old(readBuffer) && View() == EMPTY
    {
      readLength := 0;
      for i := 0 to BUFFER_SIZE
        invariant readLength == 0 && readBuffer == old(readBuffer)
        invariant forall k :: 0 <= k < i ==> readBuffer[k] == NUL
      {
        readBuffer[i] := NUL;
      }
      assert readBuffer[..] == EMPTY.bytes;
    }

    /** recv with result |chunk| > 0, followed by the worker's handling of it. */
    method Read(chunk: string) returns (parsed: Option<string>)
      requires Valid() && chunk != [] && Fits(View(), chunk)
      modifies this, readBuffer
      ensures Valid() && readBuffer == old(readBuffer)
      ensures View() == Deliver(old(View()), chunk).buffer
      ensures Deliver(old(View()), chunk).parsed == (if parsed.Some? then [parsed.value] else [])
    {
      hide Complete, CStr;
      Receive(chunk);
      ghost var filled := View();
      readLength := readLength + |chunk|;
      readBuffer[readLength] := NUL;
      assert View() == Advance(filled, |chunk|);
      parsed := None;
      if Complete(CStr(readBuffer[..]), readLength) {
        parsed := Some(readBuffer[..readLength]);
        Clear();
      }
    }
  }
}
