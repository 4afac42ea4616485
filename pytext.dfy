/** The parts of Python's `str` behaviour the scraper relies on, over ASCII:
    `strip()`, `split()`, `isdigit()`, `replace()`, `lower()`, `int()` and
    the decimal-literal subset of `float()`. Strings are `seq<char>`. */
module PyText {
  import opened Wrappers

  // ---------------------------------------------------------------------
  // Whitespace, strip and split

  /** `str.isspace()` on one character, restricted to ASCII: space, the
      controls \t \n \v \f \r, and the separators \x1c-\x1f. */
  predicate IsSpace(c: char) {
    c == ' ' || ('\t' <= c <= '\r') || ('\U{1C}' <= c <= '\U{1F}')
  }

  predicate NoSpace(s: string) {
    forall i | 0 <= i < |s| :: !IsSpace(s[i])
  }

  predicate AllSpace(s: string) {
    forall i | 0 <= i < |s| :: IsSpace(s[i])
  }

  /** Number of whitespace characters at the front of `s`. */
  function LeadingSpaces(s: string): (n: nat)
    ensures n <= |s|
    ensures AllSpace(s[..n])
    ensures n < |s| ==> !IsSpace(s[n])
  {
    if |s| > 0 && IsSpace(s[0]) then
      var n := 1 + LeadingSpaces(s[1..]);
      assert s[..n] == [s[0]] + s[1..][..n - 1];
      n
    else 0
  }

  /** Number of whitespace characters at the end of `s`. */
  function TrailingSpaces(s: string): (n: nat)
    ensures n <= |s|
    ensures AllSpace(s[|s| - n..])
    ensures n < |s| ==> !IsSpace(s[|s| - 1 - n])
  {
    if |s| > 0 && IsSpace(s[|s| - 1]) then
      var t := s[..|s| - 1];
      var m := TrailingSpaces(t);
      assert forall i | |t| - m <= i < |t| :: t[i] == t[|t| - m..][i - (|t| - m)];
      assert forall i | |s| - (m + 1) <= i < |s| :: IsSpace(s[i]);
      assert m < |t| ==> s[|s| - 1 - (m + 1)] == t[|t| - 1 - m];
      m + 1
    else 0
  }

  /** `s.strip()`: the result begins and ends with a non-space character. */
  function Strip(s: string): (r: string)
    ensures |r| <= |s|
    ensures r != [] ==> !IsSpace(r[0]) && !IsSpace(r[|r| - 1])
    ensures NoSpace(s) ==> r == s
  {
    var t := s[LeadingSpaces(s)..];
    t[..|t| - TrailingSpaces(t)]
  }

  /** Strip removes exactly the whitespace padding around a trimmed core. */
  lemma StripPadded(pre: string, core: string, post: string)
    requires AllSpace(pre) && AllSpace(post)
    requires core != [] ==> !IsSpace(core[0]) && !IsSpace(core[|core| - 1])
    ensures Strip(pre + core + post) == core
  {
    var s := pre + core + post;
    var a := LeadingSpaces(s);
    if core == [] {
      assert AllSpace(s);
      assert a == |s|;
    } else {
      assert !IsSpace(s[|pre|]);
      assert a == |pre|;
      var t := s[a..];
      assert t == core + post;
      var b := TrailingSpaces(t);
      assert !IsSpace(t[|core| - 1]);
      assert b == |post|;
      assert t[..|t| - b] == core;
    }
  }

  /** Strip leaves a string that neither begins nor ends with a space. */
  lemma StripTrimmed(s: string)
    requires s != [] && !IsSpace(s[0]) && !IsSpace(s[|s| - 1])
    ensures Strip(s) == s
  {
    StripPadded("", s, "");
    assert "" + s + "" == s;
  }

  /** Stripping twice is stripping once. */
  lemma StripTwice(s: string)
    ensures Strip(Strip(s)) == Strip(s)
  {
    StripPadded("", Strip(s), "");
    assert "" + Strip(s) + "" == Strip(s);
  }

  /** Length of the run of non-space characters at the front of `s`. */
  function WordLength(s: string): (n: nat)
    ensures n <= |s|
    ensures NoSpace(s[..n])
    ensures n < |s| ==> IsSpace(s[n])
  {
    if |s| > 0 && !IsSpace(s[0]) then
      var n := 1 + WordLength(s[1..]);
      assert s[..n] == [s[0]] + s[1..][..n - 1];
      n
    else 0
  }

  /** `s.split()` with no separator: the maximal runs of non-space
      characters, in order. */
  function Split(s: string): (r: seq<string>)
    ensures forall i | 0 <= i < |r| :: r[i] != [] && NoSpace(r[i])
    decreases |s|
  {
    var a := LeadingSpaces(s);
    if a == |s| then []
    else
      var rest := s[a..];
      var w := WordLength(rest);
      [rest[..w]] + Split(rest[w..])
  }

  /** The inverse of `Split` on well-formed word lists: `" ".join(ws)`. */
  function JoinWords(ws: seq<string>): string {
    if ws == [] then ""
    else if |ws| == 1 then ws[0]
    else ws[0] + " " + JoinWords(ws[1..])
  }

  lemma SplitSkipsSpace(s: string)
    ensures Split([' '] + s) == Split(s)
  {
    var s' := [' '] + s;
    assert s'[1..] == s;
    assert LeadingSpaces(s') == 1 + LeadingSpaces(s);
    assert s'[LeadingSpaces(s')..] == s[LeadingSpaces(s)..];
  }

  /** Splitting a space-joined list of words gives the words back. */
  lemma {:induction false} SplitJoinWords(ws: seq<string>)
    requires forall i | 0 <= i < |ws| :: ws[i] != [] && NoSpace(ws[i])
    ensures Split(JoinWords(ws)) == ws
  {
    if |ws| == 1 {
      var w := ws[0];
      SplitWordThen(w, "");
      assert w + "" == w;
    } else if |ws| > 1 {
      SplitJoinStep(ws);
      var more := ws[1..];
      assert forall i | 0 <= i < |more| :: more[i] == ws[i + 1];
      SplitJoinWords(more);
      assert [ws[0]] + more == ws;
    }
  }

  /** Splitting a space-joined list of two or more words: the first word,
      then the split of the rest. */
  lemma SplitJoinStep(ws: seq<string>)
    requires |ws| > 1 && ws[0] != [] && NoSpace(ws[0])
    ensures Split(JoinWords(ws)) == [ws[0]] + Split(JoinWords(ws[1..]))
  {
    var w, rest := ws[0], JoinWords(ws[1..]);
    var tail := [' '] + rest;
    assert JoinWords(ws) == w + tail;
    SplitWordThen(w, tail);
    SplitSkipsSpace(rest);
  }

  /** A word followed by nothing or by a space splits off as the first word. */
  lemma SplitWordThen(w: string, tail: string)
    requires w != [] && NoSpace(w)
    requires tail == [] || IsSpace(tail[0])
    ensures Split(w + tail) == [w] + Split(tail)
  {
    var s := w + tail;
    assert LeadingSpaces(s) == 0;
    assert s[0..] == s;
    WordOfPrefix(w, tail);
    assert s[..|w|] == w;
    assert s[|w|..] == tail;
  }

  lemma {:induction false} WordOfPrefix(w: string, tail: string)
    requires NoSpace(w)
    requires tail == [] || IsSpace(tail[0])
    ensures WordLength(w + tail) == |w|
  {
    if w != [] {
      assert (w + tail)[1..] == w[1..] + tail;
      WordOfPrefix(w[1..], tail);
    } else {
      assert w + tail == tail;
    }
  }

  // ---------------------------------------------------------------------
  // Character replacement and case

  /** `s.replace(c, d)` for one-character `c` and `d`. */
  function ReplaceChar(s: string, c: char, d: char): (r: string)
    ensures |r| == |s|
    ensures forall i | 0 <= i < |s| :: r[i] == (if s[i] == c then d else s[i])
  {
    if s == [] then [] else [if s[0] == c then d else s[0]] + ReplaceChar(s[1..], c, d)
  }

  /** `s.replace(c, "")`: every occurrence of `c` removed, the rest kept in order. */
  function RemoveChar(s: string, c: char): (r: string)
    ensures |r| <= |s|
    ensures c !in r
    ensures forall x | x != c :: multiset(r)[x] == multiset(s)[x]
  {
    if s == [] then []
    else
      var rest := RemoveChar(s[1..], c);
      assert s == [s[0]] + s[1..];
      if s[0] == c then rest else [s[0]] + rest
  }

  lemma {:induction false} RemoveAbsent(s: string, c: char)
    requires c !in s
    ensures RemoveChar(s, c) == s
  {
    if s != [] {
      assert c !in s[1..];
      RemoveAbsent(s[1..], c);
    }
  }

  lemma {:induction false} RemoveConcat(s: string, t: string, c: char)
    ensures RemoveChar(s + t, c) == RemoveChar(s, c) + RemoveChar(t, c)
  {
    if s == [] {
      assert s + t == t;
    } else {
      assert (s + t)[1..] == s[1..] + t;
      RemoveConcat(s[1..], t, c);
    }
  }

  lemma {:induction false} ReplaceAbsent(s: string, c: char, d: char)
    requires c !in s
    ensures ReplaceChar(s, c, d) == s
  {
    if s != [] {
      assert c !in s[1..];
      ReplaceAbsent(s[1..], c, d);
    }
  }

  lemma {:induction false} ReplaceConcat(s: string, t: string, c: char, d: char)
    ensures ReplaceChar(s + t, c, d) == ReplaceChar(s, c, d) + ReplaceChar(t, c, d)
  {
    if s == [] {
      assert s + t == t;
    } else {
      assert (s + t)[1..] == s[1..] + t;
      ReplaceConcat(s[1..], t, c, d);
    }
  }

  function LowerChar(c: char): char {
    if 'A' <= c <= 'Z' then (c as int - 'A' as int + 'a' as int) as char else c
  }

  /** `s.lower()` on ASCII letters; every other character is unchanged. */
  function Lower(s: string): (r: string)
    ensures |r| == |s|
    ensures forall i | 0 <= i < |s| :: r[i] == LowerChar(s[i])
    ensures forall i | 0 <= i < |r| :: !('A' <= r[i] <= 'Z')
  {
    if s == [] then [] else [LowerChar(s[0])] + Lower(s[1..])
  }

  lemma {:induction false} LowerConcat(s: string, t: string)
    ensures Lower(s + t) == Lower(s) + Lower(t)
  {
    if s == [] {
      assert s + t == t;
    } else {
      assert (s + t)[1..] == s[1..] + t;
      LowerConcat(s[1..], t);
    }
  }

  /** Lower-casing text without upper-case letters changes nothing. */
  lemma LowerOfLower(s: string)
    requires forall i | 0 <= i < |s| :: !('A' <= s[i] <= 'Z')
    ensures Lower(s) == s
  {
    assert forall i | 0 <= i < |s| :: Lower(s)[i] == LowerChar(s[i]) == s[i];
  }

  /** `sub in s`. */
  predicate HasInfix(s: string, sub: string)
    decreases |s|
  {
    |sub| <= |s| && (s[..|sub|] == sub || (|s| > 0 && HasInfix(s[1..], sub)))
  }

  // ---------------------------------------------------------------------
  // Digits and integer parsing

  predicate IsDigit(c: char) { '0' as int <= c as int <= '9' as int }

  predicate AllDigits(s: string) {
    forall i | 0 <= i < |s| :: IsDigit(s[i])
  }

  /** `s.isdigit()`: non-empty and made of digits only. */
  predicate IsDigitString(s: string)
    ensures IsDigitString(s) ==> s != []
  {
    s != [] && AllDigits(s)
  }

  function DigitValue(c: char): nat
    requires IsDigit(c)
  {
    c as int - '0' as int
  }

  /** The base-10 value of a string of digits ("" has value 0). */
  function DigitsValue(s: string): nat
    requires AllDigits(s)
  {
    if s == [] then 0 else 10 * DigitsValue(s[..|s| - 1]) + DigitValue(s[|s| - 1])
  }

  function DigitChar(d: nat): (c: char)
    requires d < 10
    ensures IsDigit(c) && DigitValue(c) == d
  {
    ('0' as int + d) as char
  }

  /** `str(n)`: the decimal numeral of `n`, without leading zeros. */
  function NatToString(n: nat): (r: string)
    ensures IsDigitString(r)
    ensures r[0] == '0' ==> n == 0
  {
    if n < 10 then [DigitChar(n)] else NatToString(n / 10) + [DigitChar(n % 10)]
  }

  /** `int(str(n)) == n`: reading back a numeral gives the number. */
  lemma {:induction false} NatToStringValue(n: nat)
    ensures DigitsValue(NatToString(n)) == n
  {
    if n >= 10 {
      var s := NatToString(n);
      assert s[..|s| - 1] == NatToString(n / 10);
      NatToStringValue(n / 10);
    }
  }

  /** A run of digits in which single underscores may separate two digits,
      as Python's `int()` and `float()` accept. */
  predicate IsDigitGroups(s: string) {
    && s != []
    && IsDigit(s[0])
    && forall i | 0 <= i < |s| :: IsDigit(s[i]) || (s[i] == '_' && i + 1 < |s| && IsDigit(s[i + 1]))
  }

  lemma DigitGroupsDigits(s: string)
    requires IsDigitGroups(s)
    ensures AllDigits(RemoveChar(s, '_'))
  {
    var r := RemoveChar(s, '_');
    forall i | 0 <= i < |r| ensures IsDigit(r[i]) {
      assert r[i] in r;
      assert multiset(r)[r[i]] > 0;
      assert r[i] in s;
    }
  }

  function GroupsValue(s: string): nat
    requires IsDigitGroups(s)
  {
    DigitGroupsDigits(s);
    DigitsValue(RemoveChar(s, '_'))
  }

  /** Python's `int(s)` for base 10: surrounding whitespace is ignored, one
      optional sign, then digit groups; anything else is a `ValueError`,
      modelled as `None`. */
  function PyInt(s: string): (r: Option<int>)
    ensures r.Some? ==> Strip(s) != []
  {
    var t := Strip(s);
    if t != [] && (t[0] == '+' || t[0] == '-') then
      if IsDigitGroups(t[1..]) then
        var v: int := GroupsValue(t[1..]);
        Some(if t[0] == '-' then -v else v)
      else None
    else if IsDigitGroups(t) then Some(GroupsValue(t))
    else None
  }

  lemma DigitsAreGroups(s: string)
    requires IsDigitString(s)
    ensures IsDigitGroups(s)
    ensures GroupsValue(s) == DigitsValue(s)
  {
    assert '_' !in s by {
      assert forall i | 0 <= i < |s| :: s[i] != '_';
    }
    RemoveAbsent(s, '_');
  }

  lemma DigitsNoSpace(s: string)
    requires AllDigits(s)
    ensures NoSpace(s)
  {
  }

  /** What `isdigit()` accepts, `int()` reads: the guard before
      `int(parts[-1])` rules out its `ValueError`. */
  lemma PyIntOfDigitString(s: string)
    requires IsDigitString(s)
    ensures PyInt(s) == Some(DigitsValue(s))
  {
    assert Strip(s) == s by {
      StripTrimmed(s);
    }
    assert s[0] != '+' && s[0] != '-';
    DigitsAreGroups(s);
  }

  /** Every numeral that `str` produces is read back by `int`. */
  lemma PyIntOfNatToString(n: nat)
    ensures PyInt(NatToString(n)) == Some(n)
  {
    var s := NatToString(n);
    DigitsNoSpace(s);
    assert Strip(s) == s;
    DigitsAreGroups(s);
    NatToStringValue(n);
  }

  /** Digit groups have a digit at each end, so they are already stripped. */
  lemma GroupsStripped(g: string, sign: string)
    requires IsDigitGroups(g) && (sign == "" || sign == "-" || sign == "+")
    ensures Strip(sign + g) == sign + g
  {
    var t := sign + g;
    assert g[|g| - 1] != '_';
    assert t[0] == '-' || t[0] == '+' || t[0] == g[0];
    assert t[|t| - 1] == g[|g| - 1];
    StripTrimmed(t);
  }

  /** Digit groups read as their value. */
  lemma PyIntOfGroups(g: string)
    requires IsDigitGroups(g)
    ensures PyInt(g) == Some(GroupsValue(g))
  {
    assert Strip(g) == g by {
      GroupsStripped(g, "");
      assert "" + g == g;
    }
    assert g[0] != '+' && g[0] != '-';
  }

  /** A minus sign in front of digit groups negates their value:
      `int("-1_0") == -10`. */
  lemma PyIntOfNegatedGroups(g: string)
    requires IsDigitGroups(g)
    ensures PyInt("-" + g) == Some(-(GroupsValue(g) as int))
  {
    var t := "-" + g;
    assert Strip(t) == t by {
      GroupsStripped(g, "-");
    }
    assert t[0] == '-' && t[1..] == g;
  }

  /** `int("-" + str(n)) == -n`. */
  lemma PyIntOfNegative(n: nat)
    ensures PyInt("-" + NatToString(n)) == Some(-(n as int))
  {
    var s := NatToString(n);
    DigitsAreGroups(s);
    PyIntOfNegatedGroups(s);
    NatToStringValue(n);
  }

  /** Two numerals joined by one underscore are digit groups whose value is
      that of the two numerals written together. */
  lemma UnderscoreJoinsDigits(p: string, q: string)
    requires IsDigitString(p) && IsDigitString(q)
    ensures AllDigits(p + q)
    ensures IsDigitGroups(p + "_" + q)
    ensures GroupsValue(p + "_" + q) == DigitsValue(p + q)
  {
    assert forall i | 0 <= i < |p + q| :: (p + q)[i] == if i < |p| then p[i] else q[i - |p|];
    var g := p + "_" + q;
    forall i | 0 <= i < |g| ensures IsDigit(g[i]) || (g[i] == '_' && i + 1 < |g| && IsDigit(g[i + 1])) {
      if i < |p| {
        assert g[i] == p[i];
      } else if i == |p| {
        assert g[i + 1] == q[0];
      } else {
        assert g[i] == q[i - |p| - 1];
      }
    }
    assert '_' !in p by {
      assert forall i | 0 <= i < |p| :: p[i] != '_';
    }
    assert '_' !in q by {
      assert forall i | 0 <= i < |q| :: q[i] != '_';
    }
    RemoveConcat(p + "_", q, '_');
    RemoveConcat(p, "_", '_');
    RemoveAbsent(p, '_');
    RemoveAbsent(q, '_');
    assert RemoveChar("_", '_') == "";
    assert p + "" == p;
  }

  /** `int()` ignores an underscore between digits: `int("1_0") == 10`. */
  lemma PyIntUnderscore(p: string, q: string)
    requires IsDigitString(p) && IsDigitString(q)
    ensures PyInt(p + "_" + q) == Some(DigitsValue(p + q))
  {
    var g := p + "_" + q;
    assert IsDigitGroups(g) && GroupsValue(g) == DigitsValue(p + q) by {
      UnderscoreJoinsDigits(p, q);
    }
    PyIntOfGroups(g);
  }

  // ---------------------------------------------------------------------
  // Decimal parsing (the subset of float() that prices use)

  function Pow10(n: nat): (r: nat)
    ensures r >= 1
  {
    if n == 0 then 1 else 10 * Pow10(n - 1)
  }

  /** Index of the first `c` in `s`, or `|s|` when there is none. */
  function IndexOf(s: string, c: char): (k: nat)
    ensures k <= |s|
    ensures k < |s| ==> s[k] == c
    ensures c !in s[..k]
  {
    if s == [] then 0
    else if s[0] == c then 0
    else
      var k := 1 + IndexOf(s[1..], c);
      assert s[..k] == [s[0]] + s[1..][..k - 1];
      k
  }

  /** The unsigned part of a decimal literal: `ip`, `ip.`, `ip.fp` or `.fp`,
      where both parts are digit groups. */
  function UnsignedDecimal(t: string): Option<real> {
    var k := IndexOf(t, '.');
    if k == |t| then
      if IsDigitGroups(t) then Some(GroupsValue(t) as real) else None
    else
      var ip, fp := t[..k], t[k + 1..];
      if (ip == [] && fp == []) || (ip != [] && !IsDigitGroups(ip)) || (fp != [] && !IsDigitGroups(fp)) then None
      else
        var whole := if ip == [] then 0 else GroupsValue(ip);
        var frac := if fp == [] then 0.0
                    else GroupsValue(fp) as real / Pow10(|RemoveChar(fp, '_')|) as real;
        Some(whole as real + frac)
  }

  /** Python's `float(s)` on decimal literals: surrounding whitespace ignored,
      one optional sign, then `UnsignedDecimal`; the value is the exact
      rational the literal denotes. */
  function PyDecimal(s: string): (r: Option<real>)
    ensures r.Some? ==> Strip(s) != []
  {
    var t := Strip(s);
    if t != [] && (t[0] == '+' || t[0] == '-') then
      match UnsignedDecimal(t[1..])
      case None => None
      case Some(v) => Some(if t[0] == '-' then -v else v)
    else UnsignedDecimal(t)
  }

  /** `float` strips its argument, so a stripped text reads the same. */
  lemma PyDecimalOfStripped(s: string)
    ensures PyDecimal(Strip(s)) == PyDecimal(s)
  {
    StripTwice(s);
  }

  /** A plain numeral reads as the same number through `float`. */
  lemma PyDecimalOfNatToString(n: nat)
    ensures PyDecimal(NatToString(n)) == Some(n as real)
  {
    var s := NatToString(n);
    DigitsNoSpace(s);
    assert Strip(s) == s;
    assert '.' !in s by {
      assert forall i | 0 <= i < |s| :: s[i] != '.';
    }
    assert IndexOf(s, '.') == |s|;
    DigitsAreGroups(s);
    NatToStringValue(n);
  }

  /** `float("-" + str(n)) == -n`. */
  lemma PyDecimalOfNegative(n: nat)
    ensures PyDecimal("-" + NatToString(n)) == Some(-(n as real))
  {
    var s := NatToString(n);
    var t := "-" + s;
    assert UnsignedDecimal(s) == Some(n as real) by {
      PyDecimalOfNatToString(n);
      DigitsAreGroups(s);
      GroupsStripped(s, "");
      assert "" + s == s;
      assert s[0] != '+' && s[0] != '-';
    }
    assert Strip(t) == t by {
      DigitsAreGroups(s);
      GroupsStripped(s, "-");
    }
    assert t[0] == '-' && t[1..] == s;
  }
}
