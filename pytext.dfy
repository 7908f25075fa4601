/**
 * Character-level models of the Python library calls the system relies on:
 * `str(n)`, `html.escape`, `str.rfind`, one-character `str.replace`,
 * `str.join`, `str.lower` restricted to ASCII, and the POSIX versions of
 * `os.path.basename` and `os.path.splitext`. Each comes with the property
 * that says what it promises (a round trip, a characterisation of its
 * result), so that the models built on top of them can rely on it.
 */
module PyText {

  // ---------------------------------------------------------------------
  // Decimal formatting: f"{n}"
  // ---------------------------------------------------------------------

  predicate IsDigit(c: char) { '0' <= c <= '9' }

  predicate AllDigits(s: string) { forall i :: 0 <= i < |s| ==> IsDigit(s[i]) }

  /** A decimal numeral as `str` writes one: digits, no superfluous leading zero. */
  predicate Canonical(s: string)
  {
    |s| > 0 && AllDigits(s) && (s[0] == '0' ==> |s| == 1)
  }

  function DigitChar(d: nat): (c: char)
    requires d < 10
    ensures IsDigit(c)
  {
    ('0' as int + d) as char
  }

  function DigitValue(c: char): (d: nat)
    requires IsDigit(c)
    ensures d < 10 && DigitChar(d) == c
  {
    c as int - '0' as int
  }

  /** `str(n)` for a non-negative integer. */
  function NatToString(n: nat): (s: string)
    ensures Canonical(s)
    ensures s[0] == '0' <==> n == 0
    decreases n
  {
    if n < 10 then [DigitChar(n)] else NatToString(n / 10) + [DigitChar(n % 10)]
  }

  /** `str(n)` for any integer: a `-` sign in front of a negative one. */
  function IntToString(n: int): (s: string)
    ensures |s| > 0
    ensures n < 0 <==> s[0] == '-'
  {
    if n < 0 then "-" + NatToString(-n) else NatToString(n)
  }

  /** The value of a string of decimal digits (the inverse of NatToString). */
  function ParseNat(s: string): nat
    requires AllDigits(s)
  {
    if s == [] then 0 else ParseNat(s[..|s| - 1]) * 10 + DigitValue(s[|s| - 1])
  }

  /** The value of an optionally signed numeral (the inverse of IntToString). */
  function ParseInt(s: string): int
    requires |s| > 0
    requires s[0] == '-' ==> AllDigits(s[1..])
    requires s[0] != '-' ==> AllDigits(s)
  {
    if s[0] == '-' then -(ParseNat(s[1..]) as int) else ParseNat(s)
  }

  lemma {:induction false} ParseNatOfNatToString(n: nat)
    ensures ParseNat(NatToString(n)) == n
    decreases n
  {
    if n >= 10 {
      ParseNatOfNatToString(n / 10);
      var s := NatToString(n);
      assert s[..|s| - 1] == NatToString(n / 10);
    }
  }

  lemma ParseIntOfIntToString(n: int)
    ensures var s := IntToString(n);
      && (s[0] == '-' ==> AllDigits(s[1..]))
      && (s[0] != '-' ==> AllDigits(s))
      && ParseInt(s) == n
  {
    if n < 0 {
      ParseNatOfNatToString(-n);
      assert IntToString(n)[1..] == NatToString(-n);
    } else {
      ParseNatOfNatToString(n);
    }
  }

  /** Distinct integers print differently. */
  lemma IntToStringInjective(m: int, n: int)
    requires m != n
    ensures IntToString(m) != IntToString(n)
  {
    ParseIntOfIntToString(m);
    ParseIntOfIntToString(n);
  }

  lemma {:induction false} ParseNatPositive(s: string)
    requires |s| > 0 && AllDigits(s) && s[0] != '0'
    ensures ParseNat(s) > 0
    decreases |s|
  {
    if |s| > 1 {
      ParseNatPositive(s[..|s| - 1]);
    }
  }

  /** Every canonical numeral is what `str` prints for its value. */
  lemma {:induction false} NatToStringOfParseNat(s: string)
    requires Canonical(s)
    ensures NatToString(ParseNat(s)) == s
    decreases |s|
  {
    var init := s[..|s| - 1];
    if |s| > 1 {
      NatToStringOfParseNat(init);
      ParseNatPositive(init);
      var n := ParseNat(s);
      assert n / 10 == ParseNat(init) && n % 10 == DigitValue(s[|s| - 1]);
      assert s == init + [s[|s| - 1]];
    } else {
      assert ParseNat(s) == DigitValue(s[0]);
    }
  }

  // ---------------------------------------------------------------------
  // html.escape(s) (quote=True) and its inverse on the five entities
  // ---------------------------------------------------------------------

  /** The characters html.escape never lets through. */
  const MARKUP_CHARS: set<char> := {'<', '>', '"', '\''}

  function EscapeChar(c: char): string
  {
    if c == '&' then "&amp;"
    else if c == '<' then "&lt;"
    else if c == '>' then "&gt;"
    else if c == '"' then "&quot;"
    else if c == '\'' then "&#x27;"
    else [c]
  }

  /** html.escape: `&`, `<`, `>`, `"` and `'` become character references. */
  function Escape(s: string): (r: string)
    ensures forall i :: 0 <= i < |r| ==> r[i] !in MARKUP_CHARS
    ensures |r| >= |s|
  {
    if s == [] then [] else EscapeChar(s[0]) + Escape(s[1..])
  }

  /** Decodes the five references Escape produces; everything else is kept. */
  function Unescape(s: string): string
    decreases |s|
  {
    if s == [] then []
    else if s[0] != '&' then [s[0]] + Unescape(s[1..])
    else if |s| >= 5 && s[..5] == "&amp;" then "&" + Unescape(s[5..])
    else if |s| >= 4 && s[..4] == "&lt;" then "<" + Unescape(s[4..])
    else if |s| >= 4 && s[..4] == "&gt;" then ">" + Unescape(s[4..])
    else if |s| >= 6 && s[..6] == "&quot;" then "\"" + Unescape(s[6..])
    else if |s| >= 6 && s[..6] == "&#x27;" then "'" + Unescape(s[6..])
    else "&" + Unescape(s[1..])
  }

  lemma UnescapeEscapeChar(c: char, rest: string)
    ensures Unescape(EscapeChar(c) + rest) == [c] + Unescape(rest)
  {
    var e := EscapeChar(c);
    var t := e + rest;
    assert t[..|e|] == e && t[|e|..] == rest;
    if c == '&' {
      assert t[..5] == "&amp;";
    } else if c == '<' {
      assert t[..4] == "&lt;" && t[1] != 'a';
    } else if c == '>' {
      assert t[..4] == "&gt;" && t[1] != 'a' && t[1] != 'l';
    } else if c == '"' {
      assert t[..6] == "&quot;" && t[1] != 'a' && t[1] != 'l' && t[1] != 'g';
    } else if c == '\'' {
      assert t[..6] == "&#x27;" && t[1] != 'a' && t[1] != 'l' && t[1] != 'g' && t[1] != 'q';
    } else {
      assert t[0] == c && t[1..] == rest;
    }
  }

  /** Escaping loses nothing: unescaping gives the original text back. */
  lemma {:induction false} UnescapeEscape(s: string)
    ensures Unescape(Escape(s)) == s
    decreases |s|
  {
    if s != [] {
      UnescapeEscape(s[1..]);
      UnescapeEscapeChar(s[0], Escape(s[1..]));
      assert s == [s[0]] + s[1..];
    }
  }

  // ---------------------------------------------------------------------
  // Searching: str.rfind and scans for a class of characters
  // ---------------------------------------------------------------------

  predicate OccursAt(s: string, pat: string, k: int)
  {
    0 <= k && k + |pat| <= |s| && s[k..k + |pat|] == pat
  }

  function LastOccurrence(s: string, pat: string, k: int): (r: int)
    ensures -1 <= r <= (if k < 0 then -1 else k)
    ensures r == -1 || OccursAt(s, pat, r)
    ensures forall j :: r < j <= k ==> !OccursAt(s, pat, j)
    decreases k + 1
  {
    if k < 0 then -1
    else if OccursAt(s, pat, k) then k
    else LastOccurrence(s, pat, k - 1)
  }

  /** str.rfind: the last position at which `pat` occurs in `s`, or -1. */
  function RFind(s: string, pat: string): (r: int)
    ensures r == -1 || OccursAt(s, pat, r)
    ensures forall k :: r < k ==> !OccursAt(s, pat, k)
  {
    LastOccurrence(s, pat, |s| - |pat|)
  }

  /** An occurrence in a suffix is an occurrence in the whole string, shifted. */
  lemma OccursAtSuffix(s: string, pat: string, m: nat, k: nat)
    requires m <= |s|
    ensures OccursAt(s[m..], pat, k) <==> OccursAt(s, pat, k + m)
  {
    if k + |pat| <= |s| - m {
      assert s[m..][k..k + |pat|] == s[k + m..k + m + |pat|];
    }
  }

  /** rfind on a suffix is rfind on the whole string, shifted, when the hit lies in the suffix. */
  lemma RFindSuffix(s: string, pat: string, m: nat)
    requires m <= |s|
    ensures RFind(s[m..], pat) == (if RFind(s, pat) >= m then RFind(s, pat) - m else -1)
  {
    var r, q := RFind(s, pat), RFind(s[m..], pat);
    if q >= 0 {
      OccursAtSuffix(s, pat, m, q);
      if r > q + m {
        OccursAtSuffix(s, pat, m, r - m);
      }
    } else if r >= m {
      OccursAtSuffix(s, pat, m, r - m);
    }
  }

  /** The first index in [lo, hi) whose character is in `cs`, or `hi`. */
  function FirstIn(s: string, lo: nat, hi: nat, cs: set<char>): (r: nat)
    requires lo <= hi <= |s|
    ensures lo <= r <= hi
    ensures r < hi ==> s[r] in cs
    ensures forall k :: lo <= k < r ==> s[k] !in cs
    decreases hi - lo
  {
    if lo == hi then hi
    else if s[lo] in cs then lo
    else FirstIn(s, lo + 1, hi, cs)
  }

  /** The last index in [lo, hi) whose character is in `cs`, or `lo - 1`. */
  function LastIn(s: string, lo: nat, hi: nat, cs: set<char>): (r: int)
    requires lo <= hi <= |s|
    ensures lo - 1 <= r < hi
    ensures r >= lo ==> s[r] in cs
    ensures forall k :: r < k < hi ==> s[k] !in cs
    decreases hi - lo
  {
    if lo == hi then lo - 1
    else if s[hi - 1] in cs then hi - 1
    else LastIn(s, lo, hi - 1, cs)
  }

  /** No character of s[lo..hi] is in `cs`. */
  predicate NoneIn(s: string, lo: int, hi: int, cs: set<char>)
    requires 0 <= lo && hi <= |s|
  {
    forall k :: lo <= k < hi ==> s[k] !in cs
  }

  /** FirstIn is the only index with its two defining properties. */
  lemma FirstInAt(s: string, lo: nat, hi: nat, cs: set<char>, r: nat)
    requires lo <= r <= hi <= |s|
    requires NoneIn(s, lo, r, cs) && (r < hi ==> s[r] in cs)
    ensures FirstIn(s, lo, hi, cs) == r
  {
  }

  /** LastIn is the only index with its two defining properties. */
  lemma LastInAt(s: string, lo: nat, hi: nat, cs: set<char>, r: int)
    requires lo <= hi <= |s| && lo - 1 <= r < hi
    requires NoneIn(s, r + 1, hi, cs) && (r >= lo ==> s[r] in cs)
    ensures LastIn(s, lo, hi, cs) == r
  {
  }

  /** s[lo:hi] for non-negative bounds: clamped to the string, empty when lo >= hi. */
  function Slice(s: string, lo: nat, hi: nat): (r: string)
    ensures lo <= hi <= |s| ==> r == s[lo..hi]
  {
    var h := if hi <= |s| then hi else |s|;
    if lo >= h then [] else s[lo..h]
  }

  /** min(a, b) */
  function Min(a: int, b: int): int
  {
    if a <= b then a else b
  }

  // ---------------------------------------------------------------------
  // str.replace of one character, str.join, str.lower
  // ---------------------------------------------------------------------

  /** s.replace(a, b) for one-character `a` and `b`. */
  function ReplaceChar(s: string, a: char, b: char): (r: string)
    ensures |r| == |s|
    ensures forall i :: 0 <= i < |s| ==> r[i] == (if s[i] == a then b else s[i])
  {
    if s == [] then [] else [if s[0] == a then b else s[0]] + ReplaceChar(s[1..], a, b)
  }

  /** sep.join(parts) */
  function Join(parts: seq<string>, sep: string): string
  {
    if |parts| == 0 then ""
    else if |parts| == 1 then parts[0]
    else parts[0] + sep + Join(parts[1..], sep)
  }

  /** Concatenation of a sequence of strings, in order. */
  function Concat(parts: seq<string>): string
  {
    if |parts| == 0 then "" else Concat(parts[..|parts| - 1]) + parts[|parts| - 1]
  }

  lemma {:induction false} ConcatAppend(parts: seq<string>, more: seq<string>)
    ensures Concat(parts + more) == Concat(parts) + Concat(more)
    decreases |more|
  {
    if |more| == 0 {
      assert parts + more == parts;
    } else {
      var init, last := more[..|more| - 1], more[|more| - 1];
      ConcatAppend(parts, init);
      assert (parts + more)[..|parts + more| - 1] == parts + init;
      assert (parts + more)[|parts + more| - 1] == last;
      assert Concat(parts + more) == Concat(parts + init) + last;
      assert Concat(more) == Concat(init) + last;
    }
  }

  function AsciiLowerChar(c: char): char
  {
    if 'A' <= c <= 'Z' then (c as int + 32) as char else c
  }

  /** str.lower, restricted to the ASCII letters. */
  function AsciiLower(s: string): (r: string)
    ensures |r| == |s|
    ensures forall i :: 0 <= i < |s| ==> r[i] == AsciiLowerChar(s[i])
  {
    if s == [] then [] else [AsciiLowerChar(s[0])] + AsciiLower(s[1..])
  }

  // ---------------------------------------------------------------------
  // os.path (POSIX): basename and splitext
  // ---------------------------------------------------------------------

  /** os.path.basename: everything after the last `/`. */
  function Basename(p: string): (r: string)
    ensures '/' !in r
    ensures |r| <= |p| && p[|p| - |r|..] == r
    ensures |r| < |p| ==> p[|p| - |r| - 1] == '/'
  {
    var sep := LastIn(p, 0, |p|, {'/'});
    assert forall k :: sep + 1 <= k < |p| ==> p[k] != '/';
    p[sep + 1..]
  }

  predicate HasNonDot(p: string, lo: nat, hi: nat)
    requires lo <= hi <= |p|
  {
    exists k :: lo <= k < hi && p[k] != '.'
  }

  /**
   * os.path.splitext: splits at the last `.` of the last path component,
   * unless everything before that dot in the component is dots.
   */
  function SplitExt(p: string): (r: (string, string))
    ensures r.0 + r.1 == p
    ensures r.1 == [] || (r.1[0] == '.' && '.' !in r.1[1..] && '/' !in r.1)
  {
    var sep := LastIn(p, 0, |p|, {'/'});
    var dot := LastIn(p, 0, |p|, {'.'});
    if dot > sep && HasNonDot(p, sep + 1, dot) then
      assert forall k :: dot < k < |p| ==> p[k] != '.' && p[k] != '/';
      (p[..dot], p[dot..])
    else
      (p, "")
  }

  /** The file name without its directory and its extension. */
  function Stem(p: string): (r: string)
    ensures '/' !in r && r <= Basename(p)
  {
    var b := Basename(p);
    assert b == SplitExt(b).0 + SplitExt(b).1;
    SplitExt(b).0
  }

  /**
   * A path with no `/` splits at the dot `dot` when no dot follows it and
   * something other than a dot precedes it.
   */
  lemma SplitExtAt(p: string, dot: nat)
    requires dot < |p| && p[dot] == '.' && '/' !in p
    requires NoneIn(p, dot + 1, |p|, {'.'}) && HasNonDot(p, 0, dot)
    ensures Basename(p) == p
    ensures SplitExt(p) == (p[..dot], p[dot..])
    ensures Stem(p) == p[..dot]
  {
    LastInAt(p, 0, |p|, {'/'}, -1);
    LastInAt(p, 0, |p|, {'.'}, dot);
    assert p[0..] == p;
  }

  /** `stem + ext` splits back into the two when `ext` is one dot-led extension. */
  lemma SplitExtOf(stem: string, ext: string)
    requires '/' !in stem && exists k :: 0 <= k < |stem| && stem[k] != '.'
    requires |ext| > 0 && ext[0] == '.' && forall i :: 0 < i < |ext| ==> ext[i] != '.' && ext[i] != '/'
    ensures Stem(stem + ext) == stem && SplitExt(stem + ext) == (stem, ext)
  {
    var p := stem + ext;
    assert p[..|stem|] == stem && p[|stem|..] == ext;
    var k :| 0 <= k < |stem| && stem[k] != '.';
    assert p[k] != '.';
    SplitExtAt(p, |stem|);
  }

  /** The three parts of `a + sep + b + c` can be cut back out of it. */
  lemma Parts(a: string, sep: string, b: string, c: string)
    ensures var n := a + sep + b + c;
      && n[..|a| + |sep|] == a + sep
      && n[|a| + |sep|..|n| - |c|] == b
      && n[|n| - |c|..] == c
  {
    var n := a + sep + b + c;
    assert n == (a + sep) + b + c;
  }

}
