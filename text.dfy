/** String helpers modelling the Python string methods the scraper uses: strip(), split(),
    split(sep), split(sep, 1), replace(old, new), int() and '%d'. Whitespace is the ASCII and
    Latin-1 part of Python's set, and int() reads ASCII digits without '_' separators. */
module Text {
  import opened Wrappers

  /** The characters str.strip() and str.split() treat as whitespace (ASCII and Latin-1 range). */
  predicate IsSpace(c: char) {
    c == ' ' || ('\t' <= c <= '\r') || ('\U{1c}' <= c <= '\U{1f}') || c == '\U{85}' || c == '\U{a0}'
  }

  predicate NoSpace(s: string) {
    forall i :: 0 <= i < |s| ==> !IsSpace(s[i])
  }

  predicate StartsWith(s: string, prefix: string) {
    |prefix| <= |s| && s[..|prefix|] == prefix
  }

  // ---------------------------------------------------------------------------
  // strip()

  function TrimStart(s: string): (r: string)
    ensures r == [] || !IsSpace(r[0])
    ensures |r| <= |s| && r == s[|s| - |r|..]
    decreases |s|
  {
    if |s| > 0 && IsSpace(s[0]) then TrimStart(s[1..]) else s
  }

  function TrimEnd(s: string): (r: string)
    ensures r == [] || !IsSpace(r[|r| - 1])
    ensures |r| <= |s| && r == s[..|r|]
    decreases |s|
  {
    if |s| > 0 && IsSpace(s[|s| - 1]) then TrimEnd(s[..|s| - 1]) else s
  }

  /** str.strip(): drops leading and trailing whitespace. */
  function Trim(s: string): (r: string)
    ensures r == [] || (!IsSpace(r[0]) && !IsSpace(r[|r| - 1]))
  {
    TrimEnd(TrimStart(s))
  }

  /** A string whose two ends are not whitespace is left alone by strip(). */
  lemma TrimNoSpaceEnds(s: string)
    requires s == [] || (!IsSpace(s[0]) && !IsSpace(s[|s| - 1]))
    ensures Trim(s) == s
  {
  }

  // ---------------------------------------------------------------------------
  // Decimal numbers: '%d' and int()

  predicate IsDigit(c: char) {
    '0' <= c <= '9'
  }

  predicate AllDigits(s: string) {
    forall i :: 0 <= i < |s| ==> IsDigit(s[i])
  }

  predicate IsDigits(s: string) {
    |s| > 0 && AllDigits(s)
  }

  function DigitChar(d: nat): (c: char)
    requires d < 10
    ensures IsDigit(c)
  {
    (48 + d) as char
  }

  function DigitValue(c: char): (d: nat)
    requires IsDigit(c)
    ensures d < 10
  {
    (c as int) - 48
  }

  /** '%d' of a natural number: its decimal digits, without leading zeros. */
  function NatToString(n: nat): (s: string)
    ensures IsDigits(s)
    decreases n
  {
    if n < 10 then [DigitChar(n)] else NatToString(n / 10) + [DigitChar(n % 10)]
  }

  /** The number a string of decimal digits denotes (leading zeros allowed). */
  function DigitsValue(s: string): nat
    requires AllDigits(s)
    decreases |s|
  {
    if s == [] then 0 else DigitsValue(s[..|s| - 1]) * 10 + DigitValue(s[|s| - 1])
  }

  lemma {:induction false} NatToStringValue(n: nat)
    ensures DigitsValue(NatToString(n)) == n
  {
    if n >= 10 {
      NatToStringValue(n / 10);
      var s := NatToString(n);
      assert s[..|s| - 1] == NatToString(n / 10);
    }
  }

  /** Digits and minus signs only: no whitespace and no separator the scraper splits on. */
  predicate Numeral(s: string) {
    forall i :: 0 <= i < |s| ==> IsDigit(s[i]) || s[i] == '-'
  }

  /** '%d' of an integer. */
  function IntToString(n: int): (s: string)
    ensures |s| > 0 && !IsSpace(s[0]) && IsDigit(s[|s| - 1])
    ensures Numeral(s)
  {
    if n < 0 then "-" + NatToString(-n) else NatToString(n)
  }

  /** Python's int(s) on text: surrounding whitespace, an optional sign and at least one ASCII digit;
      None where int() raises ValueError. */
  function ParseInt(s: string): Option<int> {
    ParseSigned(Trim(s))
  }

  /** int() once the surrounding whitespace is gone. */
  function ParseSigned(t: string): Option<int> {
    if |t| > 0 && (t[0] == '-' || t[0] == '+') then
      if IsDigits(t[1..]) then
        var v: int := DigitsValue(t[1..]);
        Some(if t[0] == '-' then -v else v)
      else None
    else if IsDigits(t) then Some(DigitsValue(t))
    else None
  }

  /** A string whose ends are not whitespace is read as it stands. */
  lemma ParseUntrimmed(s: string)
    requires s == [] || (!IsSpace(s[0]) && !IsSpace(s[|s| - 1]))
    ensures ParseInt(s) == ParseSigned(s)
  {
    TrimNoSpaceEnds(s);
  }

  /** int() of a string of digits is the number they denote. */
  lemma ParseDigits(d: string)
    requires IsDigits(d)
    ensures ParseInt(d) == Some(DigitsValue(d))
  {
    assert IsDigit(d[0]) && IsDigit(d[|d| - 1]);
    ParseUntrimmed(d);
    assert d[0] != '-' && d[0] != '+';
  }

  /** int() of '-' followed by digits is the negated number. */
  lemma ParseNegative(d: string)
    requires IsDigits(d)
    ensures ParseInt("-" + d) == Some(-(DigitsValue(d) as int))
  {
    var s := "-" + d;
    assert s[0] == '-' && s[|s| - 1] == d[|d| - 1];
    assert IsDigit(d[|d| - 1]);
    ParseUntrimmed(s);
    assert s[1..] == d;
  }

  /** int('%d' % n) == n. */
  lemma ParseIntOfIntToString(n: int)
    ensures ParseInt(IntToString(n)) == Some(n)
  {
    if n < 0 {
      NatToStringValue(-n);
      ParseNegative(NatToString(-n));
    } else {
      NatToStringValue(n);
      ParseDigits(NatToString(n));
    }
  }

  /** '%02d' of an integer: zero-padded to two characters. */
  function Pad2(n: int): (s: string)
    ensures |s| >= 2
    ensures Numeral(s)
  {
    if 0 <= n < 10 then ['0', DigitChar(n)] else IntToString(n)
  }

  /** int() reads back what '%02d' wrote. */
  lemma Pad2Parses(n: int)
    ensures ParseInt(Pad2(n)) == Some(n)
  {
    if 0 <= n < 10 {
      var s := Pad2(n);
      assert DigitsValue(s) == n by {
        assert s[..1] == "0";
        assert DigitsValue("0") == 0 by { assert "0"[..0] == []; }
      }
      ParseDigits(s);
    } else {
      ParseIntOfIntToString(n);
    }
  }

  // ---------------------------------------------------------------------------
  // split(), split(sep), split(sep, 1) and their inverse, join

  /** Length of the leading run of non-whitespace characters. */
  function TokenLength(s: string): (k: nat)
    ensures k <= |s|
    ensures NoSpace(s[..k])
    ensures k < |s| ==> IsSpace(s[k])
  {
    if s == [] || IsSpace(s[0]) then 0 else 1 + TokenLength(s[1..])
  }

  /** str.split() with no argument: the maximal runs of non-whitespace characters, in order. */
  function SplitWs(s: string): (parts: seq<string>)
    ensures forall i :: 0 <= i < |parts| ==> parts[i] != [] && NoSpace(parts[i])
    decreases |s|
  {
    if s == [] then []
    else if IsSpace(s[0]) then SplitWs(s[1..])
    else
      var k := TokenLength(s);
      [s[..k]] + SplitWs(s[k..])
  }

  /** sep.join(parts). */
  function Join(parts: seq<string>, sep: string): string {
    if parts == [] then []
    else if |parts| == 1 then parts[0]
    else parts[0] + sep + Join(parts[1..], sep)
  }

  /** str.split() recovers the words that ' '.join put together. */
  lemma {:induction false} SplitWsJoin(parts: seq<string>)
    requires forall i :: 0 <= i < |parts| ==> parts[i] != [] && NoSpace(parts[i])
    ensures SplitWs(Join(parts, " ")) == parts
  {
    if parts != [] {
      var w := parts[0];
      var s := Join(parts, " ");
      assert TokenLength(s) == |w| by { TokenOfWord(w, s[|w|..]); assert s == w + s[|w|..]; }
      assert s[..|w|] == w;
      if |parts| == 1 {
        assert s[|w|..] == [];
      } else {
        var rest := Join(parts[1..], " ");
        assert s[|w|..] == " " + rest;
        assert SplitWs(" " + rest) == SplitWs(rest) by { assert (" " + rest)[1..] == rest; }
        SplitWsJoin(parts[1..]);
      }
    }
  }

  lemma {:induction false} TokenOfWord(w: string, t: string)
    requires w != [] && NoSpace(w)
    requires t == [] || IsSpace(t[0])
    ensures TokenLength(w + t) == |w|
    decreases |w|
  {
    if |w| > 1 {
      assert (w + t)[1..] == w[1..] + t;
      TokenOfWord(w[1..], t);
    } else {
      assert (w + t)[1..] == t;
    }
  }

  /** str.split(sep) for a one-character separator: always one more part than separators. */
  function SplitOn(s: string, sep: char): (parts: seq<string>)
    ensures |parts| >= 1
    decreases |s|
  {
    if s == [] then [""]
    else
      var rest := SplitOn(s[1..], sep);
      if s[0] == sep then [""] + rest else [[s[0]] + rest[0]] + rest[1..]
  }

  lemma {:induction false} SplitOnNoSep(s: string, sep: char)
    requires sep !in s
    ensures SplitOn(s, sep) == [s]
    decreases |s|
  {
    if s != [] {
      SplitOnNoSep(s[1..], sep);
      assert [s[0]] + s[1..] == s;
    }
  }

  lemma {:induction false} SplitOnConcat(a: string, sep: char, b: string)
    requires sep !in a
    ensures SplitOn(a + [sep] + b, sep) == [a] + SplitOn(b, sep)
    decreases |a|
  {
    if a == [] {
      assert ([sep] + b)[1..] == b;
    } else {
      assert (a + [sep] + b)[1..] == a[1..] + [sep] + b;
      SplitOnConcat(a[1..], sep, b);
      assert [a[0]] + a[1..] == a;
    }
  }

  /** str.split(sep) recovers the parts that sep.join put together. */
  lemma {:induction false} SplitOnJoin(parts: seq<string>, sep: char)
    requires parts != []
    requires forall i :: 0 <= i < |parts| ==> sep !in parts[i]
    ensures SplitOn(Join(parts, [sep]), sep) == parts
  {
    if |parts| == 1 {
      SplitOnNoSep(parts[0], sep);
    } else {
      SplitOnConcat(parts[0], sep, Join(parts[1..], [sep]));
      SplitOnJoin(parts[1..], sep);
    }
  }

  /** str.split(sep, 1): the text before the first separator and everything after it,
      or the whole string when there is no separator. */
  function SplitOnce(s: string, sep: char): (parts: seq<string>)
    ensures |parts| == 1 || |parts| == 2
    ensures |parts| == 1 <==> sep !in s
    ensures |parts| == 1 ==> parts[0] == s
    ensures |parts| == 2 ==> sep !in parts[0] && s == parts[0] + [sep] + parts[1]
    decreases |s|
  {
    if s == [] then [""]
    else if s[0] == sep then ["", s[1..]]
    else
      var rest := SplitOnce(s[1..], sep);
      [[s[0]] + rest[0]] + rest[1..]
  }

  // ---------------------------------------------------------------------------
  // replace(old, new)

  /** str.replace(pat, rep): every non-overlapping occurrence of pat, scanning left to right, is
      replaced by rep. */
  function ReplaceAll(s: string, pat: string, rep: string): string
    requires pat != []
    decreases |s|
  {
    if s == [] then []
    else if StartsWith(s, pat) then rep + ReplaceAll(s[|pat|..], pat, rep)
    else [s[0]] + ReplaceAll(s[1..], pat, rep)
  }

  /** pat occurs somewhere in s. */
  predicate Occurs(s: string, pat: string)
    decreases |s|
  {
    StartsWith(s, pat) || (s != [] && Occurs(s[1..], pat))
  }

  /** A string without pat is left alone by replace. */
  lemma {:induction false} ReplaceAbsent(s: string, pat: string, rep: string)
    requires pat != [] && !Occurs(s, pat)
    ensures ReplaceAll(s, pat, rep) == s
    decreases |s|
  {
    if s != [] {
      ReplaceAbsent(s[1..], pat, rep);
    }
  }

  /** A leading occurrence is replaced and the scan resumes right after it. */
  lemma ReplaceLeading(pat: string, t: string, rep: string)
    requires pat != []
    ensures ReplaceAll(pat + t, pat, rep) == rep + ReplaceAll(t, pat, rep)
  {
    var s := pat + t;
    assert StartsWith(s, pat) && s[|pat|..] == t;
  }

  /** Strings shorter than pat cannot hold it. */
  lemma {:induction false} ShortHasNoOccurrence(s: string, pat: string)
    requires |s| < |pat|
    ensures !Occurs(s, pat)
    decreases |s|
  {
    if s != [] {
      ShortHasNoOccurrence(s[1..], pat);
    }
  }

  /** s with every c removed, the other characters in their order. */
  function Without(s: string, c: char): (r: string)
    ensures c !in r
    ensures forall x :: x != c ==> multiset(r)[x] == multiset(s)[x]
    decreases |s|
  {
    if s == [] then []
    else
      var rest := Without(s[1..], c);
      assert s == [s[0]] + s[1..];
      if s[0] == c then rest else [s[0]] + rest
  }

  /** replace(c, '') on a single character is Without. */
  lemma {:induction false} RemoveCharIsWithout(s: string, c: char)
    ensures ReplaceAll(s, [c], "") == Without(s, c)
    decreases |s|
  {
    if s != [] {
      RemoveCharIsWithout(s[1..], c);
      if s[0] == c {
        assert StartsWith(s, [c]);
      } else {
        assert !StartsWith(s, [c]);
      }
    }
  }

  lemma {:induction false} WithoutAbsent(s: string, c: char)
    requires c !in s
    ensures Without(s, c) == s
    decreases |s|
  {
    if s != [] {
      WithoutAbsent(s[1..], c);
    }
  }

  lemma {:induction false} WithoutKeepsAbsent(s: string, c: char, d: char)
    requires d !in s
    ensures d !in Without(s, c)
    decreases |s|
  {
    if s != [] {
      WithoutKeepsAbsent(s[1..], c, d);
    }
  }

  /** A one-character pattern occurs exactly where that character is. */
  lemma {:induction false} AbsentCharNoOccurrence(s: string, c: char)
    requires c !in s
    ensures !Occurs(s, [c])
    decreases |s|
  {
    if s != [] {
      AbsentCharNoOccurrence(s[1..], c);
      assert s[..1] == [s[0]] != [c];
    }
  }

  /** Splitting at the first separator is determined by a separator-free head. */
  lemma SplitOnceAt(a: string, sep: char, b: string)
    requires sep !in a
    ensures SplitOnce(a + [sep] + b, sep) == [a, b]
  {
    var s := a + [sep] + b;
    assert s[|a|] == sep;
    var parts := SplitOnce(s, sep);
    var p0 := parts[0];
    assert forall i :: 0 <= i < |a| ==> s[i] == a[i] != sep;
    assert forall i :: 0 <= i < |p0| ==> s[i] == p0[i] != sep;
    var k := if |a| < |p0| then |a| else |p0|;
    assert s[k] == sep;
    assert |p0| == |a|;
    assert forall i :: 0 <= i < |a| ==> p0[i] == s[i] == a[i];
    assert p0 == a;
    assert parts[1] == s[|a| + 1..] == b;
  }

  /** A pattern holding a character that s lacks does not occur in s. */
  lemma {:induction false} MissingCharNoOccurrence(s: string, pat: string, k: nat)
    requires k < |pat| && pat[k] !in s
    ensures !Occurs(s, pat)
    decreases |s|
  {
    if s != [] {
      MissingCharNoOccurrence(s[1..], pat, k);
    }
  }

  /** Numerals hold no whitespace. */
  lemma NumeralNoSpace(s: string)
    requires Numeral(s)
    ensures NoSpace(s)
  {
  }
}
