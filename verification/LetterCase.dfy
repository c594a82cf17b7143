/** Characters, spelled out: letter case, white space and digits, and what the functions of the
  * C library make of them.
  */
module LetterCase {
  import opened Options
  import opened CStrings

  const UPPER := "ABCDEFGHIJKLMNOPQRSTUVWXYZ"
  const LOWER := "abcdefghijklmnopqrstuvwxyz"

  /** The same character, or the same letter of the two alphabets. */
  predicate SameLetter(c: char, d: char) {
    c == d || exists k :: 0 <= k < 26 && ((c == UPPER[k] && d == LOWER[k]) || (c == LOWER[k] && d == UPPER[k]))
  }

  /** The same text up to letter case. */
  predicate SameUpToCase(s: string, t: string) {
    |s| == |t| && forall k :: 0 <= k < |s| ==> SameLetter(s[k], t[k])
  }

  predicate HasUpper(t: string) {
    exists k :: 0 <= k < |t| && t[k] in UPPER
  }

  lemma Codes(k: nat)
    requires k < 26
    ensures |UPPER| == |LOWER| == 26
    ensures UPPER[k] as int == 65 + k && LOWER[k] as int == 97 + k
  {
  }

  /** tolower maps the upper-case alphabet to the lower-case one, and nothing else. */
  lemma LowersTheAlphabet(c: char)
    ensures forall k :: 0 <= k < 26 ==> LowerChar(UPPER[k]) == LOWER[k]
    ensures c !in UPPER ==> LowerChar(c) == c
    ensures LowerChar(c) !in UPPER
  {
    forall k | 0 <= k < 26
      ensures LowerChar(UPPER[k]) == LOWER[k]
    {
      Codes(k);
    }
    if 'A' <= c <= 'Z' {
      Codes(c as int - 65);
      assert UPPER[c as int - 65] == c;
    }
    if LowerChar(c) in UPPER {
      var k :| 0 <= k < 26 && UPPER[k] == LowerChar(c);
      Codes(k);
    }
  }

  lemma LowerOfAlphabet()
    ensures Lower(UPPER) == LOWER
  {
    forall k | 0 <= k < 26
      ensures Lower(UPPER)[k] == LOWER[k]
    {
      LowersTheAlphabet(UPPER[k]);
    }
  }

  lemma SameLetterIsSameLower(c: char, d: char)
    ensures LowerChar(c) == LowerChar(d) <==> SameLetter(c, d)
  {
    LowersTheAlphabet(c);
    LowersTheAlphabet(d);
    if c in UPPER {
      var k :| 0 <= k < 26 && UPPER[k] == c;
      Codes(k);
      if d in UPPER {
        var l :| 0 <= l < 26 && UPPER[l] == d;
        Codes(l);
      }
    } else if d in UPPER {
      var l :| 0 <= l < 26 && UPPER[l] == d;
      Codes(l);
    }
    LowerIsNotUpper(c, d);
  }

  lemma LowerIsNotUpper(c: char, d: char)
    ensures forall k, l :: 0 <= k < 26 && 0 <= l < 26 ==> UPPER[k] != LOWER[l]
    ensures forall k, l :: 0 <= k < 26 && 0 <= l < 26 && LOWER[k] == LOWER[l] ==> k == l
  {
    hide UPPER, LOWER;
    Codes(0);
    forall k, l | 0 <= k < 26 && 0 <= l < 26
      ensures UPPER[k] != LOWER[l] && (LOWER[k] == LOWER[l] ==> k == l)
    {
      Codes(k);
      Codes(l);
    }
  }

  /** Texts are the same up to case exactly if their lower-case forms are the same. */
  lemma SameUpToCaseIsSameLower(s: string, t: string)
    ensures SameUpToCase(s, t) <==> Lower(s) == Lower(t)
  {
    hide LowerChar, SameLetter;
    forall k | 0 <= k < |s| && k < |t|
      ensures LowerChar(s[k]) == LowerChar(t[k]) <==> SameLetter(s[k], t[k])
      ensures Lower(s)[k] == LowerChar(s[k]) && Lower(t)[k] == LowerChar(t[k])
    {
      SameLetterIsSameLower(s[k], t[k]);
    }
    if SameUpToCase(s, t) {
      assert Lower(s) == Lower(t);
    }
  }

  /** A text without upper-case letters is its own lower-case form; no other text is one. */
  lemma LowerHasNoUpper(t: string)
    ensures !HasUpper(Lower(t))
    ensures !HasUpper(t) <==> Lower(t) == t
  {
    hide LowerChar;
    forall k | 0 <= k < |t|
      ensures Lower(t)[k] !in UPPER && (t[k] !in UPPER ==> Lower(t)[k] == t[k])
    {
      LowersTheAlphabet(t[k]);
    }
  }

  lemma LowerByCodes(t: string)
    requires forall k :: 0 <= k < |t| ==> t[k] as int < 65 || 97 <= t[k] as int
    ensures !HasUpper(t) && Lower(t) == t
  {
    if HasUpper(t) {
      var k :| 0 <= k < |t| && t[k] in UPPER;
      var l :| 0 <= l < 26 && UPPER[l] == t[k];
      Codes(l);
    }
    LowerHasNoUpper(t);
  }

  predicate OccursUpToCase(text: string, pattern: string, j: nat) {
    j + |pattern| <= |text| && SameUpToCase(text[j..j + |pattern|], pattern)
  }

  lemma OccursInEitherCase(text: string, pattern: string, j: nat)
    ensures OccursAt(Lower(text), Lower(pattern), j) <==> OccursUpToCase(text, pattern, j)
  {
    hide SameUpToCase;
    if j + |pattern| <= |text| {
      assert Lower(text)[j..j + |pattern|] == Lower(text[j..j + |pattern|]);
      SameUpToCaseIsSameLower(text[j..j + |pattern|], pattern);
    }
  }

  /** strcasestr finds the first occurrence up to letter case, or none if there is none. */
  lemma CaseStrMeans(text: string, pattern: string)
    ensures match StrCaseStr(text, pattern)
            case None => forall j: nat :: !OccursUpToCase(text, pattern, j)
            case Some(i) => OccursUpToCase(text, pattern, i) && forall j: nat :: j < i ==> !OccursUpToCase(text, pattern, j)
  {
    hide OccursAt, OccursUpToCase, StrStr;
    forall j: nat
      ensures OccursAt(Lower(text), Lower(pattern), j) <==> OccursUpToCase(text, pattern, j)
    {
      OccursInEitherCase(text, pattern, j);
    }
  }

  // ------------------------------------------------------------- white space and digits

  /** isspace: the blank, and the codes from tab to carriage return. */
  lemma SpacesAre(c: char)
    ensures IsSpace(c) <==> c as int == 32 || 9 <= c as int <= 13
  {
  }

  /** isdigit, and the values of the digits. */
  lemma DigitsAre(c: char)
    ensures IsDigit(c) <==> c in "0123456789"
    ensures forall d :: 0 <= d < 10 ==> IsDigit("0123456789"[d]) && DigitValue("0123456789"[d]) == d
  {
    if IsDigit(c) {
      assert "0123456789"[DigitValue(c)] == c;
    }
  }

  // ------------------------------------------------------------------- numbers of atoi

  /** The narrowed number is the int that differs from it by a multiple of 2^32. */
  lemma NarrowMeans(v: int)
    ensures -0x8000_0000 <= Narrow32(v) < 0x8000_0000 && (v - Narrow32(v)) % 0x1_0000_0000 == 0
  {
  }

  /** The saturated number is the nearest long. */
  lemma SaturateMeans(v: int)
    ensures var s := Saturate64(v);
            && -0x8000_0000_0000_0000 <= s < 0x8000_0000_0000_0000
            && (-0x8000_0000_0000_0000 <= v < 0x8000_0000_0000_0000 ==> s == v)
            && (v >= 0x8000_0000_0000_0000 ==> s == 0x7FFF_FFFF_FFFF_FFFF)
            && (v < -0x8000_0000_0000_0000 ==> s == -0x8000_0000_0000_0000)
  {
  }

  /** A sign in front of the digits. */
  lemma AToIReadsSign(w: string, sign: char, digits: string, rest: string)
    requires forall i :: 0 <= i < |w| ==> IsSpace(w[i])
    requires sign == '+' || sign == '-'
    requires digits != [] && AllDigits(digits)
    requires rest != [] ==> !IsDigit(rest[0])
    ensures AToI(w + ([sign] + (digits + rest))) ==
              Narrow32(Saturate64(if sign == '-' then 0 - Decimal(digits) as int else Decimal(digits)))
  {
    var u := [sign] + (digits + rest);
    assert u[1..] == digits + rest;
    assert DigitRun(u[1..]) == digits by {
      DigitRunIs(digits + rest, digits);
    }
    hide SkipSpace, Decimal, DigitRun, Narrow32, Saturate64;
    SkipSpaceIs(w, u);
  }
}
