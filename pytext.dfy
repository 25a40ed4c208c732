/**
  The Python text built-ins the script relies on: `str.strip()` with no
  argument, `str.split(sep)` with a one-character separator, and `int(str)`
  in base 10. `str(n)` for an integer is given as the partner of `int`.
 */
module PyText {
  import opened Wrappers

  /** The characters for which Python's `str.isspace()` holds: those `str.strip()` removes. */
  const StrSpaces: set<char> := {
      '\U{9}', '\U{A}', '\U{B}', '\U{C}', '\U{D}', '\U{1C}', '\U{1D}', '\U{1E}',
      '\U{1F}', '\U{20}', '\U{85}', '\U{A0}', '\U{1680}', '\U{2000}', '\U{2001}', '\U{2002}',
      '\U{2003}', '\U{2004}', '\U{2005}', '\U{2006}', '\U{2007}', '\U{2008}', '\U{2009}', '\U{200A}',
      '\U{2028}', '\U{2029}', '\U{202F}', '\U{205F}', '\U{3000}'
    }

  /** The information separators U+001C..U+001F: `str.isspace()` accepts them, `int()` does not. */
  const Separators: set<char> := {'\U{1C}', '\U{1D}', '\U{1E}', '\U{1F}'}

  /**
    The whitespace `int()` skips around its literal. Below U+007F only the
    ASCII space, tab, newline, vertical tab, form feed and carriage return
    count; above it, every `str.isspace()` character does.
   */
  const IntSpaces: set<char> := StrSpaces - Separators

  predicate AllSpace(ws: set<char>, s: string) {
    forall i | 0 <= i < |s| :: s[i] in ws
  }

  /** True of a string that trimming `ws` leaves as it is. */
  predicate Stripped(ws: set<char>, s: string) {
    s == [] || (s[0] !in ws && s[|s| - 1] !in ws)
  }

  /** Number of whitespace characters at the front of `s`. */
  function LeadingSpaces(ws: set<char>, s: string): (k: nat)
    ensures k <= |s|
    ensures forall i | 0 <= i < k :: s[i] in ws
    ensures k < |s| ==> s[k] !in ws
  {
    if s == [] || s[0] !in ws then 0 else 1 + LeadingSpaces(ws, s[1..])
  }

  /** Number of whitespace characters at the end of `s`. */
  function TrailingSpaces(ws: set<char>, s: string): (k: nat)
    ensures k <= |s|
    ensures forall i | |s| - k <= i < |s| :: s[i] in ws
    ensures k < |s| ==> s[|s| - 1 - k] !in ws
  {
    if s == [] || s[|s| - 1] !in ws then 0 else 1 + TrailingSpaces(ws, s[..|s| - 1])
  }

  /**
    `s` without its leading and trailing whitespace, the characters of `ws`:
    `Strip(StrSpaces, s)` is `s.strip()`, and `Strip(IntSpaces, s)` is the
    text `int(s)` reads its literal from.
   */
  function Strip(ws: set<char>, s: string): (r: string)
    ensures Stripped(ws, r)
    ensures |r| <= |s|
  {
    var t := s[LeadingSpaces(ws, s)..];
    t[..|t| - TrailingSpaces(ws, t)]
  }

  /** What a trim removes is whitespace on either side of its result. */
  lemma StripDecomposes(ws: set<char>, s: string) returns (pre: string, post: string)
    ensures s == pre + Strip(ws, s) + post
    ensures AllSpace(ws, pre) && AllSpace(ws, post)
  {
    var a := LeadingSpaces(ws, s);
    var b := TrailingSpaces(ws, s[a..]);
    var k := |s| - a - b;
    TrimParts(ws, s, a, b);
    assert Strip(ws, s) == s[a..][..k];
    pre, post := s[..a], s[a + k..];
  }

  /** The parts of `s` around `s[a..][..|s| - a - b]`, given `a` leading and `b` trailing whitespace characters of `s[a..]`. */
  lemma TrimParts(ws: set<char>, s: string, a: nat, b: nat)
    requires a <= |s| && forall i | 0 <= i < a :: s[i] in ws
    requires b <= |s| - a && forall i | |s[a..]| - b <= i < |s[a..]| :: s[a..][i] in ws
    ensures var k := |s| - a - b;
            && s == s[..a] + s[a..][..k] + s[a + k..]
            && AllSpace(ws, s[..a]) && AllSpace(ws, s[a + k..])
  {
    var t := s[a..];
    var k := |s| - a - b;
    SplitThree(s, a, k);
    PrefixSpaces(ws, s, a);
    SuffixSpaces(ws, t, b);
    assert s[a + k..] == t[k..];
  }

  lemma SplitThree(s: string, a: nat, k: nat)
    requires a + k <= |s|
    ensures s == s[..a] + s[a..][..k] + s[a + k..]
  {
    assert s[a..] == s[a..][..k] + s[a + k..];
  }

  lemma PrefixSpaces(ws: set<char>, s: string, a: nat)
    requires a <= |s| && forall i | 0 <= i < a :: s[i] in ws
    ensures AllSpace(ws, s[..a])
  {
    forall i | 0 <= i < a ensures s[..a][i] in ws {
      assert s[..a][i] == s[i];
    }
  }

  lemma SuffixSpaces(ws: set<char>, t: string, b: nat)
    requires b <= |t| && forall i | |t| - b <= i < |t| :: t[i] in ws
    ensures AllSpace(ws, t[|t| - b..])
  {
    var u := t[|t| - b..];
    forall i | 0 <= i < b ensures u[i] in ws {
      assert u[i] == t[|t| - b + i];
    }
  }

  lemma {:induction false} LeadingSpacesOfPadded(ws: set<char>, p: string, t: string)
    requires AllSpace(ws, p)
    requires t == [] || t[0] !in ws
    ensures LeadingSpaces(ws, p + t) == |p|
  {
    if p != [] {
      assert (p + t)[1..] == p[1..] + t;
      LeadingSpacesOfPadded(ws, p[1..], t);
    } else {
      assert p + t == t;
    }
  }

  lemma {:induction false} TrailingSpacesOfPadded(ws: set<char>, t: string, q: string)
    requires AllSpace(ws, q)
    requires t == [] || t[|t| - 1] !in ws
    ensures TrailingSpaces(ws, t + q) == |q|
  {
    if q != [] {
      assert (t + q)[..|t + q| - 1] == t + q[..|q| - 1];
      TrailingSpacesOfPadded(ws, t, q[..|q| - 1]);
    } else {
      assert t + q == t;
    }
  }

  /** A trim is determined by its result: remove any whitespace padding from a stripped core and that core is what is left. */
  lemma StripUnique(ws: set<char>, p: string, r: string, q: string)
    requires AllSpace(ws, p) && AllSpace(ws, q) && Stripped(ws, r)
    ensures Strip(ws, p + r + q) == r
  {
    var s := p + r + q;
    if r == [] {
      assert s == (p + q) + [];
      assert AllSpace(ws, p + q);
      LeadingSpacesOfPadded(ws, p + q, []);
      assert s[LeadingSpaces(ws, s)..] == [];
    } else {
      assert s == p + (r + q);
      LeadingSpacesOfPadded(ws, p, r + q);
      assert s[|p|..] == r + q;
      TrailingSpacesOfPadded(ws, r, q);
      assert (r + q)[..|r|] == r;
    }
  }

  /** Stripping twice is stripping once. */
  lemma StripIdempotent(ws: set<char>, s: string)
    ensures Strip(ws, Strip(ws, s)) == Strip(ws, s)
  {
    var r := Strip(ws, s);
    assert [] + r + [] == r;
    StripUnique(ws, [], r, []);
  }

  /** Surrounding whitespace does not change what a trim returns. */
  lemma StripIgnoresPadding(ws: set<char>, p: string, s: string, q: string)
    requires AllSpace(ws, p) && AllSpace(ws, q)
    ensures Strip(ws, p + s + q) == Strip(ws, s)
  {
    var pre, post := StripDecomposes(ws, s);
    var r := Strip(ws, s);
    assert p + s + q == (p + pre) + r + (post + q);
    assert AllSpace(ws, p + pre) && AllSpace(ws, post + q);
    StripUnique(ws, p + pre, r, post + q);
  }

  predicate IsDigit(c: char) {
    '0' <= c <= '9'
  }

  /** The digits of a base-10 integer literal: ASCII digits, with single underscores allowed between two digits. */
  predicate WellFormedDigits(s: string) {
    && |s| > 0
    && IsDigit(s[0])
    && IsDigit(s[|s| - 1])
    && (forall i | 0 <= i < |s| :: IsDigit(s[i]) || s[i] == '_')
    && (forall i | 0 <= i < |s| - 1 :: s[i] == '_' ==> IsDigit(s[i + 1]))
  }

  /** The number written by a run of digits and underscores; underscores carry no value. */
  function DigitsValue(s: string): (v: nat)
    requires forall i | 0 <= i < |s| :: IsDigit(s[i]) || s[i] == '_'
  {
    if s == [] then 0
    else
      var init := DigitsValue(s[..|s| - 1]);
      var last := s[|s| - 1];
      assert IsDigit(last) || last == '_';
      if last == '_' then init else init * 10 + (last as int - '0' as int)
  }

  /** How many digits `s` holds; underscores do not count. */
  function DigitCount(s: string): nat {
    if s == [] then 0 else DigitCount(s[..|s| - 1]) + (if IsDigit(s[|s| - 1]) then 1 else 0)
  }

  /**
    The default of `sys.get_int_max_str_digits()` (Python 3.11 and later):
    `int()` raises `ValueError` on a decimal literal with more digits, and
    `str()` on an integer that has more.
   */
  const MaxStrDigits := 4300

  /** The text `int()` accepts once its whitespace is gone: an optional sign, then well-formed digits, at most `MaxStrDigits` of them. */
  predicate IntLiteral(t: string) {
    var body := if t != [] && (t[0] == '+' || t[0] == '-') then t[1..] else t;
    WellFormedDigits(body) && DigitCount(body) <= MaxStrDigits
  }

  /** An optionally signed base-10 literal, with nothing around it. */
  function ParseLiteral(t: string): Option<int> {
    if t != [] && (t[0] == '+' || t[0] == '-') then
      var body := t[1..];
      if WellFormedDigits(body) && DigitCount(body) <= MaxStrDigits then
        var v: int := DigitsValue(body);
        Some(if t[0] == '-' then -v else v)
      else None
    else if WellFormedDigits(t) && DigitCount(t) <= MaxStrDigits then
      Some(DigitsValue(t))
    else None
  }

  /**
    `int(s)` for a string: `Some(n)` when Python returns `n`, `None` when
    it raises `ValueError`. The whitespace `int()` skips is ignored at both
    ends; the sign, if any, must touch the digits; a negative result comes
    only from a leading `-`.
   */
  function ParseInt(s: string): (r: Option<int>)
    ensures r.Some? <==> IntLiteral(Strip(IntSpaces, s))
    ensures r.Some? && r.value < 0 ==> Strip(IntSpaces, s)[0] == '-'
    ensures r.Some? && Strip(IntSpaces, s)[0] == '-' ==> r.value <= 0
  {
    ParseLiteral(Strip(IntSpaces, s))
  }

  function DigitChar(d: nat): (c: char)
    requires d < 10
    ensures IsDigit(c) && c as int - '0' as int == d
  {
    ('0' as int + d) as char
  }

  /** The decimal digits of a natural number, without leading zeros. */
  function Digits(n: nat): (s: string)
    ensures |s| > 0
  {
    if n < 10 then [DigitChar(n)] else Digits(n / 10) + [DigitChar(n % 10)]
  }

  /** `str(n)` for an integer `n`. */
  function DecimalString(n: int): string {
    if n < 0 then "-" + Digits(-n) else Digits(n)
  }

  function Abs(n: int): nat {
    if n < 0 then -n else n
  }

  lemma {:induction false} DigitsWellFormed(n: nat)
    ensures WellFormedDigits(Digits(n))
    ensures DigitsValue(Digits(n)) == n
    ensures DigitCount(Digits(n)) == |Digits(n)|
  {
    if n >= 10 {
      var init := Digits(n / 10);
      DigitsWellFormed(n / 10);
      var s := init + [DigitChar(n % 10)];
      assert s[..|s| - 1] == init;
      assert forall i | 0 <= i < |s| - 1 :: s[i] == init[i];
    }
  }

  lemma DecimalStringStripped(n: int)
    ensures Strip(IntSpaces, DecimalString(n)) == DecimalString(n)
  {
    var s := DecimalString(n);
    DigitsWellFormed(Abs(n));
    assert IsDigit(Digits(Abs(n))[|Digits(Abs(n))| - 1]);
    assert s[|s| - 1] == Digits(Abs(n))[|Digits(Abs(n))| - 1];
    assert s[0] !in IntSpaces && s[|s| - 1] !in IntSpaces;
    assert [] + s + [] == s;
    StripUnique(IntSpaces, [], s, []);
  }

  lemma ParseLiteralDecimal(n: int)
    requires |Digits(Abs(n))| <= MaxStrDigits
    ensures ParseLiteral(DecimalString(n)) == Some(n)
  {
    var s := DecimalString(n);
    if n < 0 {
      DigitsWellFormed(-n);
      assert s[0] == '-' && s[1..] == Digits(-n);
    } else {
      DigitsWellFormed(n);
      assert IsDigit(s[0]);
    }
  }

  /** `int(str(n)) == n` for every integer that `str()` can write, that is, one of at most `MaxStrDigits` digits. */
  lemma ParseIntRoundTrip(n: int)
    requires |Digits(Abs(n))| <= MaxStrDigits
    ensures ParseInt(DecimalString(n)) == Some(n)
  {
    DecimalStringStripped(n);
    ParseLiteralDecimal(n);
  }

  /** `int()` ignores the whitespace it skips around its argument. */
  lemma ParseIntIgnoresPadding(p: string, s: string, q: string)
    requires AllSpace(IntSpaces, p) && AllSpace(IntSpaces, q)
    ensures ParseInt(p + s + q) == ParseInt(s)
  {
    StripIgnoresPadding(IntSpaces, p, s, q);
  }

  /** An empty string, or one of whitespace `int()` skips, is not an integer. */
  lemma ParseIntRejectsBlank(s: string)
    requires AllSpace(IntSpaces, s)
    ensures ParseInt(s) == None
  {
  }

  /** U+001C, which `strip()` removes, makes `int()` raise: `"\x1c5".strip()` is `"5"` but `int("\x1c5")` fails. */
  lemma ParseIntKeepsSeparators()
    ensures Strip(StrSpaces, [0x1C as char, '5']) == "5"
    ensures ParseInt([0x1C as char, '5']) == None
  {
    var s := [0x1C as char, '5'];
    assert [0x1C as char] + "5" + [] == s;
    StripUnique(StrSpaces, [0x1C as char], "5", []);
    IntStripKeepsSeparator(s);
    assert !IsDigit(s[0]) && s[0] != '+' && s[0] != '-';
  }

  lemma IntStripKeepsSeparator(s: string)
    requires s == [0x1C as char, '5']
    ensures Strip(IntSpaces, s) == s
  {
    assert s[0] !in IntSpaces && s[1] !in IntSpaces;
    assert [] + s + [] == s;
    StripUnique(IntSpaces, [], s, []);
  }

  /** A literal of more than `MaxStrDigits` digits makes `int()` raise. */
  lemma ParseIntRejectsLongLiteral(s: string)
    requires |s| > MaxStrDigits && forall i | 0 <= i < |s| :: IsDigit(s[i])
    ensures ParseInt(s) == None
  {
    AllDigitsCount(s);
    assert Stripped(IntSpaces, s) by {
      assert IsDigit(s[0]) && IsDigit(s[|s| - 1]);
    }
    assert [] + s + [] == s;
    StripUnique(IntSpaces, [], s, []);
    assert s[0] != '+' && s[0] != '-';
    assert DigitCount(s) > MaxStrDigits;
  }

  lemma {:induction false} AllDigitsCount(s: string)
    requires forall i | 0 <= i < |s| :: IsDigit(s[i])
    ensures DigitCount(s) == |s|
  {
    if s != [] {
      AllDigitsCount(s[..|s| - 1]);
    }
  }

  /** `s.split(c)`: the pieces of `s` between occurrences of `c`, empty pieces included. */
  function SplitOn(s: string, c: char): (r: seq<string>)
    ensures |r| >= 1
    ensures forall i | 0 <= i < |r| :: c !in r[i]
  {
    if s == [] then [""]
    else
      var rest := SplitOn(s[1..], c);
      if s[0] == c then [""] + rest else [[s[0]] + rest[0]] + rest[1..]
  }

  /** `s.split(c)` has one piece more than `s` has occurrences of `c`. */
  lemma {:induction false} SplitOnCount(s: string, c: char)
    ensures |SplitOn(s, c)| == multiset(s)[c] + 1
  {
    if s != [] {
      SplitOnCount(s[1..], c);
      assert s == [s[0]] + s[1..];
      assert multiset(s) == multiset{s[0]} + multiset(s[1..]);
    }
  }

  /** `c.join(parts)`: the parts with `c` between each two of them. */
  function JoinWith(parts: seq<string>, c: char): string {
    if parts == [] then ""
    else if |parts| == 1 then parts[0]
    else parts[0] + [c] + JoinWith(parts[1..], c)
  }

  /** Joining the pieces of a split with the separator gives back the string. */
  lemma {:induction false} JoinSplit(s: string, c: char)
    ensures JoinWith(SplitOn(s, c), c) == s
  {
    if s != [] {
      var rest := SplitOn(s[1..], c);
      JoinSplit(s[1..], c);
      if s[0] == c {
        assert ([""] + rest)[1..] == rest;
      } else {
        var r := [[s[0]] + rest[0]] + rest[1..];
        if |rest| == 1 {
          assert JoinWith(rest, c) == rest[0];
        } else {
          assert r[1..] == rest[1..];
          assert JoinWith(rest, c) == rest[0] + [c] + JoinWith(rest[1..], c);
        }
      }
    }
  }

  lemma {:induction false} SplitOnPrefix(a: string, rest: string, c: char)
    requires c !in a
    ensures SplitOn(a + rest, c) == [a + SplitOn(rest, c)[0]] + SplitOn(rest, c)[1..]
  {
    if a != [] {
      assert (a + rest)[1..] == a[1..] + rest;
      SplitOnPrefix(a[1..], rest, c);
      assert [a[0]] + (a[1..] + SplitOn(rest, c)[0]) == a + SplitOn(rest, c)[0];
    } else {
      var r := SplitOn(rest, c);
      assert a + rest == rest;
      assert a + r[0] == r[0];
      assert r == [r[0]] + r[1..];
    }
  }

  /** Splitting a join of separator-free parts gives back the parts. */
  lemma {:induction false} SplitJoin(parts: seq<string>, c: char)
    requires |parts| >= 1
    requires forall i | 0 <= i < |parts| :: c !in parts[i]
    ensures SplitOn(JoinWith(parts, c), c) == parts
  {
    if |parts| == 1 {
      SplitOnPrefix(parts[0], [], c);
      assert SplitOn([], c) == [""];
      assert parts[0] + [] == parts[0];
      assert parts == [parts[0]];
    } else {
      var tail := JoinWith(parts[1..], c);
      SplitJoin(parts[1..], c);
      assert parts[0] + [c] + tail == parts[0] + ([c] + tail);
      SplitOnPrefix(parts[0], [c] + tail, c);
      assert ([c] + tail)[1..] == tail;
      assert SplitOn([c] + tail, c) == [""] + SplitOn(tail, c);
      assert parts[0] + "" == parts[0];
      assert parts == [parts[0]] + parts[1..];
    }
  }
}
