/** The parts of the C string library the server relies on.
  * A byte is modelled as a `char`; a buffer is a `string` that may hold NULs, and
  * the C string it denotes is the text before its first NUL.
  */
module CStrings {
  import opened Options

  const NUL: char := '\0'
  const CRLF: string := "\r\n"
  const BLANK_LINE: string := "\r\n\r\n"

  predicate NulFree(t: string) {
    NUL !in t
  }

  /** The C string that starts at the beginning of `b`. */
  function CStr(b: string): (t: string)
    ensures t <= b && NulFree(t)
    ensures |t| < |b| ==> b[|t|] == NUL
  {
    if b == [] || b[0] == NUL then []
    else
      var rest := CStr(b[1..]);
      assert [b[0]] + b[1..] == b;
      [b[0]] + rest
  }

  /** A NUL-free text followed by a NUL, or by nothing, is the C string there. */
  lemma CStrUnique(b: string, t: string)
    requires t <= b && NulFree(t)
    requires |t| < |b| ==> b[|t|] == NUL
    ensures CStr(b) == t
  {
  }

  lemma CStrOfNulFree(t: string)
    requires NulFree(t)
    ensures CStr(t) == t
  {
  }

  /** The C string of a prefix is a prefix of the C string. */
  lemma {:induction false} CStrOfPrefix(p: string, b: string)
    requires p <= b
    ensures CStr(p) <= CStr(b)
    ensures |CStr(b)| <= |p| ==> CStr(p) == CStr(b)
  {
    if p != [] && p[0] != NUL {
      assert p[1..] <= b[1..];
      CStrOfPrefix(p[1..], b[1..]);
    }
  }

  // ------------------------------------------------------------------ searching

  predicate OccursAt(text: string, pattern: string, i: nat) {
    i + |pattern| <= |text| && text[i..i + |pattern|] == pattern
  }

  /** strstr: the position of the first occurrence of `pattern`, starting at `from`. */
  function FindFrom(text: string, pattern: string, from: nat): (r: Option<nat>)
    ensures r.Some? ==> from <= r.value && OccursAt(text, pattern, r.value)
    ensures r.Some? ==> forall j: nat :: from <= j < r.value ==> !OccursAt(text, pattern, j)
    ensures r.None? ==> forall j: nat :: from <= j ==> !OccursAt(text, pattern, j)
    decreases |text| - from
  {
    if |text| < from + |pattern| then None
    else if OccursAt(text, pattern, from) then Some(from)
    else if from == |text| then None
    else FindFrom(text, pattern, from + 1)
  }

  function StrStr(text: string, pattern: string): (r: Option<nat>)
    ensures r.Some? ==> OccursAt(text, pattern, r.value)
    ensures r.Some? ==> forall j: nat :: j < r.value ==> !OccursAt(text, pattern, j)
    ensures r.None? ==> forall j: nat :: !OccursAt(text, pattern, j)
  {
    FindFrom(text, pattern, 0)
  }

  lemma StrStrIs(text: string, pattern: string, i: nat)
    requires OccursAt(text, pattern, i)
    requires forall j: nat :: j < i ==> !OccursAt(text, pattern, j)
    ensures StrStr(text, pattern) == Some(i)
  {
  }

  lemma StrStrIsNone(text: string, pattern: string)
    requires forall j: nat :: !OccursAt(text, pattern, j)
    ensures StrStr(text, pattern) == None
  {
  }

  /** An occurrence that lies in the prefix `p` of `t` is an occurrence in `t`, and back. */
  lemma OccursInPrefix(p: string, t: string, pattern: string, i: nat)
    requires p <= t && i + |pattern| <= |p|
    ensures OccursAt(p, pattern, i) == OccursAt(t, pattern, i)
  {
  }

  /** strchr for a character other than NUL. */
  function StrChr(text: string, c: char): (r: Option<nat>)
    ensures r.Some? ==> r.value < |text| && text[r.value] == c
    ensures r.Some? ==> c !in text[..r.value]
    ensures r.None? ==> c !in text
  {
    if text == [] then None
    else if text[0] == c then Some(0)
    else
      var rest := StrChr(text[1..], c);
      assert text == [text[0]] + text[1..];
      if rest.None? then None
      else
        assert text[..rest.value + 1] == [text[0]] + text[1..][..rest.value];
        Some(rest.value + 1)
  }

  lemma StrChrIs(text: string, c: char, i: nat)
    requires i < |text| && text[i] == c && c !in text[..i]
    ensures StrChr(text, c) == Some(i)
  {
  }

  // ------------------------------------------------------- characters (C locale)

  function LowerChar(c: char): char {
    if 'A' <= c <= 'Z' then (c as int + 32) as char else c
  }

  function Lower(t: string): (r: string)
    ensures |r| == |t|
    ensures forall i :: 0 <= i < |t| ==> r[i] == LowerChar(t[i])
  {
    seq(|t|, i requires 0 <= i < |t| => LowerChar(t[i]))
  }

  /** strcasestr: the first occurrence up to letter case. */
  function StrCaseStr(text: string, pattern: string): (r: Option<nat>)
    ensures r == StrStr(Lower(text), Lower(pattern))
  {
    StrStr(Lower(text), Lower(pattern))
  }

  predicate IsSpace(c: char) {
    c in {' ', '\t', '\n', '\U{0B}', '\U{0C}', '\r'}
  }

  predicate IsDigit(c: char) {
    '0' <= c <= '9'
  }

  function DigitValue(c: char): nat
    requires IsDigit(c)
  {
    c as int - '0' as int
  }

  predicate AllDigits(t: string) {
    forall i :: 0 <= i < |t| ==> IsDigit(t[i])
  }

  /** The number a string of decimal digits denotes. */
  function Decimal(t: string): nat
    requires AllDigits(t)
  {
    if t == [] then 0 else 10 * Decimal(t[..|t| - 1]) + DigitValue(t[|t| - 1])
  }

  // -------------------------------------------------------------------- atoi

  /** The longest prefix of digits. */
  function DigitRun(t: string): (r: string)
    ensures r <= t && AllDigits(r)
    ensures |r| < |t| ==> !IsDigit(t[|r|])
  {
    if t == [] || !IsDigit(t[0]) then []
    else
      var rest := DigitRun(t[1..]);
      assert t == [t[0]] + t[1..];
      [t[0]] + rest
  }

  lemma DigitRunIs(t: string, r: string)
    requires r <= t && AllDigits(r)
    requires |r| < |t| ==> !IsDigit(t[|r|])
    ensures DigitRun(t) == r
  {
  }

  function SkipSpace(t: string): (r: string)
    ensures |r| <= |t| && r == t[|t| - |r|..]
    ensures r != [] ==> !IsSpace(r[0])
    ensures forall i :: 0 <= i < |t| - |r| ==> IsSpace(t[i])
  {
    if t != [] && IsSpace(t[0]) then SkipSpace(t[1..]) else t
  }

  lemma SkipSpaceIs(w: string, t: string)
    requires forall i :: 0 <= i < |w| ==> IsSpace(w[i])
    requires t != [] ==> !IsSpace(t[0])
    ensures SkipSpace(w + t) == t
  {
    if w == [] {
      assert w + t == t;
    } else {
      assert (w + t)[1..] == w[1..] + t;
      SkipSpaceIs(w[1..], t);
    }
  }

  const INT64_MAX := 0x7FFF_FFFF_FFFF_FFFF

  function Saturate64(v: int): int {
    if v > INT64_MAX then INT64_MAX else if v < -INT64_MAX - 1 then -INT64_MAX - 1 else v
  }

  /** The narrowing conversion from long to int. */
  function Narrow32(v: int): int {
    var m := v % 0x1_0000_0000;
    if m >= 0x8000_0000 then m - 0x1_0000_0000 else m
  }

  function LeadingNumber(u: string): int {
    if u != [] && u[0] == '-' then 0 - Decimal(DigitRun(u[1..])) as int
    else if u != [] && u[0] == '+' then Decimal(DigitRun(u[1..]))
    else Decimal(DigitRun(u))
  }

  /** atoi as the C library computes it: strtol in base ten, narrowed to int. */
  function AToI(t: string): int {
    Narrow32(Saturate64(LeadingNumber(SkipSpace(t))))
  }

  /** The narrowed number is the number itself exactly if it fits an int. */
  lemma NarrowedIffSmall(v: int)
    requires 0 <= v
    ensures Narrow32(Saturate64(v)) == v <==> v <= 0x7FFF_FFFF
    ensures Narrow32(Saturate64(v)) <= 0x7FFF_FFFF
  {
  }

  /** On optional blanks, digits and a non-digit, atoi reads the number the digits denote,
    * narrowed to an int. */
  lemma AToIReadsDigits(w: string, digits: string, rest: string)
    requires forall i :: 0 <= i < |w| ==> IsSpace(w[i])
    requires digits != [] && AllDigits(digits)
    requires rest != [] ==> !IsDigit(rest[0])
    ensures AToI(w + digits + rest) == Narrow32(Saturate64(Decimal(digits)))
  {
    var u := digits + rest;
    assert LeadingNumber(u) == Decimal(digits) by {
      hide Decimal;
      assert u[0] == digits[0];
      DigitRunIs(u, digits);
    }
    hide LeadingNumber, SkipSpace, Decimal, Narrow32, Saturate64;
    assert w + digits + rest == w + u;
    assert u[0] == digits[0];
    SkipSpaceIs(w, u);
  }

  lemma SplitRight(a: string, b: string, c: string, d: string)
    ensures a + b + c + d == a + b + (c + d)
  {
  }

  /** The number atoi reads does not change when text is added behind its end. */
  lemma AToIStopsAtNonDigit(value: string, more: string)
    requires var digits := DigitRun(SkipSpace(value));
             digits != [] && |digits| < |SkipSpace(value)|
    ensures AToI(value + more) == Narrow32(Saturate64(Decimal(DigitRun(SkipSpace(value)))))
  {
    hide SkipSpace, DigitRun, Decimal, AToI;
    var u := SkipSpace(value);
    var digits := DigitRun(u);
    var blanks := value[..|value| - |u|];
    var rest := u[|digits|..];
    assert value == blanks + digits + rest;
    SplitRight(blanks, digits, rest, more);
    AToIReadsDigits(blanks, digits, rest + more);
  }
}
