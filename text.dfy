/**
 * The few Python string operations the QC script relies on, over `seq<char>`:
 * `startswith`, `strip()` / `strip('"')`, `split(sep)`, `split()`, substring
 * containment with `in`, and `int()` on a coordinate field.
 * Whitespace is the ASCII whitespace of Python's `str.isspace`: space, tab,
 * line feed, vertical tab, form feed, carriage return and the four
 * separator controls 0x1C to 0x1F.
 */
module Text {
  import opened Wrappers

  const Tab: char := '\t'
  const Whitespace: set<char> := set c: char | ' ' == c || '\t' <= c <= '\r' || '\U{001C}' <= c <= '\U{001F}'

  /** `s.startswith(p)` */
  predicate StartsWith(s: string, p: string): (b: bool)
    ensures b <==> |p| <= |s| && s[..|p|] == p
  {
    p <= s
  }

  // ---------------------------------------------------------------------
  // strip

  /** Drops the longest prefix made only of characters in `cs`. */
  function TrimLeft(s: string, cs: set<char>): (r: string)
    ensures |r| <= |s| && r == s[|s| - |r|..]
    ensures forall k :: 0 <= k < |s| - |r| ==> s[k] in cs
    ensures r != [] ==> r[0] !in cs
    decreases |s|
  {
    if s != [] && s[0] in cs then TrimLeft(s[1..], cs) else s
  }

  /** Drops the longest suffix made only of characters in `cs`. */
  function TrimRight(s: string, cs: set<char>): (r: string)
    ensures |r| <= |s| && r == s[..|r|]
    ensures forall k :: |r| <= k < |s| ==> s[k] in cs
    ensures r != [] ==> r[|r| - 1] !in cs
    decreases |s|
  {
    if s != [] && s[|s| - 1] in cs then TrimRight(s[..|s| - 1], cs) else s
  }

  /**
   * `s.strip(chars)`: the middle slice `s[i..i + |r|]` left once every leading
   * and trailing character in `cs` is gone.
   */
  function Trim(s: string, cs: set<char>): (r: string)
    ensures var i := |s| - |TrimLeft(s, cs)|;
      i + |r| <= |s| && r == s[i..i + |r|] &&
      (forall k :: 0 <= k < i ==> s[k] in cs) &&
      (forall k :: i + |r| <= k < |s| ==> s[k] in cs)
    ensures r != [] ==> r[0] !in cs && r[|r| - 1] !in cs
  {
    TrimTail(s, TrimLeft(s, cs), TrimRight(TrimLeft(s, cs), cs), cs);
    TrimRight(TrimLeft(s, cs), cs)
  }

  /** Cutting a suffix `l` of `s` down to its prefix `r` leaves a middle slice of `s`. */
  lemma TrimTail(s: string, l: string, r: string, cs: set<char>)
    requires |l| <= |s| && l == s[|s| - |l|..]
    requires |r| <= |l| && r == l[..|r|]
    requires forall k :: |r| <= k < |l| ==> l[k] in cs
    ensures var i := |s| - |l|; i + |r| <= |s| && r == s[i..i + |r|]
    ensures forall k :: |s| - |l| + |r| <= k < |s| ==> s[k] in cs
  {
    var i := |s| - |l|;
    assert r == s[i..i + |r|];
    forall k | i + |r| <= k < |s|
      ensures s[k] in cs
    {
      assert s[k] == l[k - i];
    }
  }

  /** `s.strip()` */
  function Strip(s: string): string {
    Trim(s, Whitespace)
  }

  /**
   * What `strip()` leaves: the middle slice of `s` once the whitespace at
   * both ends is cut, starting and ending with non-whitespace when non-empty.
   */
  lemma StripShape(s: string)
    ensures var r, i := Strip(s), |s| - |TrimLeft(s, Whitespace)|;
      i + |r| <= |s| && r == s[i..i + |r|] &&
      (forall k :: 0 <= k < i ==> s[k] in Whitespace) &&
      (forall k :: i + |r| <= k < |s| ==> s[k] in Whitespace) &&
      (r != [] ==> r[0] !in Whitespace && r[|r| - 1] !in Whitespace)
  {
    var r := Trim(s, Whitespace);
  }

  /** Stripping twice is stripping once: a stripped value has nothing left to strip. */
  lemma TrimIdempotent(s: string, cs: set<char>)
    ensures Trim(Trim(s, cs), cs) == Trim(s, cs)
  {
    var r := Trim(s, cs);
    if r != [] {
      assert TrimLeft(r, cs) == r;
      assert TrimRight(r, cs) == r;
    }
  }

  /** A string neither starting nor ending with a character of `cs` is left alone. */
  lemma TrimUnchanged(s: string, cs: set<char>)
    requires s != [] && s[0] !in cs && s[|s| - 1] !in cs
    ensures TrimLeft(s, cs) == s && TrimRight(s, cs) == s && Trim(s, cs) == s
  {
  }

  // ---------------------------------------------------------------------
  // split(sep)

  /** The inverse of `split(sep)`: `sep.join(parts)`. */
  function Join(parts: seq<string>, sep: char): string
    decreases |parts|
  {
    if parts == [] then []
    else if |parts| == 1 then parts[0]
    else Join(parts[..|parts| - 1], sep) + [sep] + parts[|parts| - 1]
  }

  /**
   * `s.split(sep)` for a single-character separator: at least one piece, no
   * piece holds `sep`, and joining the pieces with `sep` gives `s` back.
   */
  function Split(s: string, sep: char): (parts: seq<string>)
    ensures |parts| >= 1
    ensures forall k :: 0 <= k < |parts| ==> sep !in parts[k]
    ensures Join(parts, sep) == s
    decreases |s|
  {
    if s == [] then [[]]
    else
      var init := Split(s[..|s| - 1], sep);
      var c := s[|s| - 1];
      if c == sep then
        init + [[]]
      else
        var n := |init| - 1;
        assert Join(init, sep) + [c] == s;
        assert n > 0 ==> Join(init[..n], sep) + [sep] + init[n] == Join(init, sep);
        assert (init[..n] + [init[n] + [c]])[..n] == init[..n];
        init[..n] + [init[n] + [c]]
  }

  /** Appending `sep` and a separator-free piece appends one field. */
  lemma {:induction false} SplitAppendField(a: string, sep: char, x: string)
    requires sep !in x
    ensures Split(a + [sep] + x, sep) == Split(a, sep) + [x]
    decreases |x|
  {
    if x == [] {
      assert a + [sep] + x == a + [sep];
      assert (a + [sep])[..|a|] == a;
    } else {
      var x' := x[..|x| - 1];
      assert (a + [sep] + x)[..|a + [sep] + x| - 1] == a + [sep] + x';
      SplitAppendField(a, sep, x');
      assert x' + [x[|x| - 1]] == x;
    }
  }

  /** Splitting a join gives back the pieces: `split` and `join` are inverses. */
  lemma {:induction false} SplitJoin(parts: seq<string>, sep: char)
    requires |parts| >= 1
    requires forall k :: 0 <= k < |parts| ==> sep !in parts[k]
    ensures Split(Join(parts, sep), sep) == parts
    decreases |parts|
  {
    if |parts| == 1 {
      SplitNoSeparator(parts[0], sep);
    } else {
      var init := parts[..|parts| - 1];
      var last := parts[|parts| - 1];
      SplitJoin(init, sep);
      assert Join(parts, sep) == Join(init, sep) + [sep] + last;
      SplitAppendField(Join(init, sep), sep, last);
      assert init + [last] == parts;
    }
  }

  /** A string without the separator is one field. */
  lemma {:induction false} SplitNoSeparator(s: string, sep: char)
    requires sep !in s
    ensures Split(s, sep) == [s]
    decreases |s|
  {
    if s != [] {
      SplitNoSeparator(s[..|s| - 1], sep);
      assert s[..|s| - 1] + [s[|s| - 1]] == s;
    }
  }

  // ---------------------------------------------------------------------
  // split()

  /** The pieces joined by single spaces, as `' '.join(words)`. */
  function Unwords(words: seq<string>): string
    decreases |words|
  {
    Join(words, ' ')
  }

  predicate IsWord(w: string) {
    w != [] && forall c :: c in w ==> c !in Whitespace
  }

  /**
   * `s.split()`: the maximal runs of non-whitespace characters, in order.
   * Every word is non-empty and holds no whitespace.
   */
  function Words(s: string): (ws: seq<string>)
    ensures forall k :: 0 <= k < |ws| ==> IsWord(ws[k])
    ensures s != [] && s[|s| - 1] !in Whitespace ==> ws != []
    decreases |s|
  {
    if s == [] then []
    else
      var init := s[..|s| - 1];
      var c := s[|s| - 1];
      var ws := Words(init);
      if c in Whitespace then ws
      else if init == [] || init[|init| - 1] in Whitespace then ws + [[c]]
      else ws[..|ws| - 1] + [ws[|ws| - 1] + [c]]
  }

  /** Splitting words joined by single spaces gives the words back. */
  lemma {:induction false} WordsUnwords(words: seq<string>)
    requires forall k :: 0 <= k < |words| ==> IsWord(words[k])
    ensures Words(Unwords(words)) == words
    decreases |words|
  {
    if |words| == 1 {
      WordsOfWord(words[0]);
    } else if |words| > 1 {
      var init := words[..|words| - 1];
      var last := words[|words| - 1];
      assert words == init + [last];
      assert Unwords(words) == Unwords(init) + [' '] + last;
      WordsUnwords(init);
      WordsAppendWord(Unwords(init), [' '], last);
    }
  }

  lemma {:induction false} WordsOfWord(w: string)
    requires forall c :: c in w ==> c !in Whitespace
    ensures Words(w) == if w == [] then [] else [w]
    decreases |w|
  {
    if w != [] {
      WordsOfWord(w[..|w| - 1]);
      assert w[..|w| - 1] + [w[|w| - 1]] == w;
    }
  }

  /** Appending whitespace adds no word. */
  lemma {:induction false} WordsAppendSpace(a: string, r: string)
    requires forall c :: c in r ==> c in Whitespace
    ensures Words(a + r) == Words(a)
    decreases |r|
  {
    if r == [] {
      assert a + r == a;
    } else {
      var r' := r[..|r| - 1];
      assert (a + r)[..|a + r| - 1] == a + r';
      WordsAppendSpace(a, r');
    }
  }

  /** Text made of whitespace alone has no words. */
  lemma WordsOfSpace(r: string)
    requires forall c :: c in r ==> c in Whitespace
    ensures Words(r) == []
  {
    WordsAppendSpace([], r);
    assert [] + r == r;
  }

  /**
   * Words of `a + r + w` for a run `r` of whitespace and a run `w` of
   * non-whitespace: the words of `a`, then `w` when it is not empty.
   * With `WordsOfSpace`, this fixes `split()` on every text, which
   * alternates such runs.
   */
  lemma {:induction false} WordsAppendWord(a: string, r: string, w: string)
    requires r != [] && forall c :: c in r ==> c in Whitespace
    requires forall c :: c in w ==> c !in Whitespace
    ensures Words(a + r + w) == Words(a) + (if w == [] then [] else [w])
    decreases |w|
  {
    if w == [] {
      assert a + r + w == a + r;
      WordsAppendSpace(a, r);
    } else {
      var w' := w[..|w| - 1];
      assert (a + r + w)[..|a + r + w| - 1] == a + r + w';
      WordsAppendWord(a, r, w');
      assert w' + [w[|w| - 1]] == w;
    }
  }

  // ---------------------------------------------------------------------
  // substring test `p in s`

  /** `p in s` for strings: `p` occurs somewhere in `s`. */
  predicate Contains(s: string, p: string): (b: bool)
    ensures b ==> |p| <= |s|
    ensures p == [] ==> b
    ensures StartsWith(s, p) ==> b
    decreases |s|
  {
    |p| <= |s| && (p <= s || Contains(s[1..], p))
  }

  /** `p` occurs in `s` starting at index `i`. */
  predicate OccursAt(s: string, p: string, i: int) {
    0 <= i <= |s| - |p| && s[i..i + |p|] == p
  }

  /** `Contains` holds exactly when `p` occurs in `s` at some index. */
  lemma {:induction false} ContainsAt(s: string, p: string)
    ensures Contains(s, p) <==> exists i :: OccursAt(s, p, i)
    decreases |s|
  {
    if |p| <= |s| && !(p <= s) {
      ContainsAt(s[1..], p);
      if exists i :: OccursAt(s, p, i) {
        var i :| OccursAt(s, p, i);
        assert i != 0;
        assert s[1..][i - 1..i - 1 + |p|] == s[i..i + |p|];
        assert OccursAt(s[1..], p, i - 1);
      }
      if Contains(s[1..], p) {
        var i :| OccursAt(s[1..], p, i);
        assert s[i + 1..i + 1 + |p|] == s[1..][i..i + |p|];
        assert OccursAt(s, p, i + 1);
      }
    } else if |p| <= |s| {
      assert s[0..|p|] == p;
      assert OccursAt(s, p, 0);
    }
  }

  /** Whoever contains `p + q` contains `p`. */
  lemma {:induction false} ContainsPrefixOfPattern(s: string, p: string, q: string)
    requires Contains(s, p + q)
    ensures Contains(s, p)
    decreases |s|
  {
    if !(p + q <= s) {
      ContainsPrefixOfPattern(s[1..], p, q);
    } else {
      assert s[..|p|] == (p + q)[..|p|] == p;
    }
  }

  // ---------------------------------------------------------------------
  // int()

  predicate IsDigit(c: char) {
    '0' <= c <= '9'
  }

  function DigitValue(c: char): nat
    requires IsDigit(c)
  {
    (c as int - '0' as int) as nat
  }

  function DigitChar(d: nat): (c: char)
    requires d < 10
    ensures IsDigit(c) && DigitValue(c) == d
  {
    ('0' as int + d) as char
  }

  predicate AllDigits(s: string) {
    forall k :: 0 <= k < |s| ==> IsDigit(s[k])
  }

  /** The decimal value of a digit string (most significant digit first). */
  function DigitsValue(s: string): nat
    requires AllDigits(s)
    decreases |s|
  {
    if s == [] then 0 else 10 * DigitsValue(s[..|s| - 1]) + DigitValue(s[|s| - 1])
  }

  /**
   * `int(s)`: an optional `+` or `-` followed by one or more decimal digits;
   * anything else is a failure.
   */
  function ParseInt(s: string): (r: Option<int>)
    ensures r.Some? ==> s != [] && IsDigit(s[|s| - 1])
    ensures r.Some? && r.value < 0 ==> s[0] == '-'
  {
    if s != [] && (s[0] == '-' || s[0] == '+') then
      var digits := s[1..];
      if digits != [] && AllDigits(digits) then
        var v: int := DigitsValue(digits);
        Some(if s[0] == '-' then -v else v)
      else None
    else if s != [] && AllDigits(s) then Some(DigitsValue(s))
    else None
  }

  /** The decimal digits of `n`, without leading zeros. */
  function FormatNat(n: nat): (s: string)
    ensures s != [] && AllDigits(s)
    decreases n
  {
    if n < 10 then [DigitChar(n)] else FormatNat(n / 10) + [DigitChar(n % 10)]
  }

  /** `str(n)` */
  function FormatInt(n: int): string {
    if n < 0 then "-" + FormatNat(-n) else FormatNat(n)
  }

  lemma {:induction false} DigitsOfFormatNat(n: nat)
    ensures DigitsValue(FormatNat(n)) == n
    decreases n
  {
    if n >= 10 {
      DigitsOfFormatNat(n / 10);
      var s := FormatNat(n);
      assert s[..|s| - 1] == FormatNat(n / 10);
    }
  }

  /** Every integer printed in decimal parses back to itself. */
  lemma ParseFormatInt(n: int)
    ensures ParseInt(FormatInt(n)) == Some(n)
  {
    if n < 0 {
      DigitsOfFormatNat(-n);
      assert FormatInt(n)[1..] == FormatNat(-n);
    } else {
      DigitsOfFormatNat(n);
    }
  }

  /**
   * A field is no integer when it is empty, is a bare sign, starts with a
   * character that is neither sign nor digit, or has a non-digit after
   * its first character.
   */
  lemma ParseIntRejects(s: string)
    requires s == [] || s == "+" || s == "-" ||
             (!IsDigit(s[0]) && s[0] != '+' && s[0] != '-') ||
             exists k :: 0 < k < |s| && !IsDigit(s[k])
    ensures ParseInt(s) == None
  {
  }

  /**
   * Every non-empty digit string is accepted, leading zeros and all, and
   * so is that string after a `+` or a `-`.
   */
  lemma ParseIntAccepts(d: string)
    requires d != [] && AllDigits(d)
    ensures ParseInt(d) == Some(DigitsValue(d))
    ensures ParseInt("+" + d) == Some(DigitsValue(d))
    ensures ParseInt("-" + d) == Some(-(DigitsValue(d) as int))
  {
    assert ("+" + d)[1..] == d;
    assert ("-" + d)[1..] == d;
  }

  /** `int("+5")`, `int("007")` and `int("-05")`. */
  lemma ParseIntExamples()
    ensures ParseInt("+5") == Some(5)
    ensures ParseInt("007") == Some(7)
    ensures ParseInt("-05") == Some(-5)
  {
    ParseIntAccepts("5");
    ParseIntAccepts("05");
    assert DigitsValue("007") == 10 * DigitsValue("00") + 7;
    assert DigitsValue("00") == 10 * DigitsValue("0") + 0;
    assert DigitsValue("05") == 10 * DigitsValue("0") + 5;
    assert DigitsValue("0") == 10 * DigitsValue("") + 0;
  }

  predicate AllZeros(z: string) {
    forall k :: 0 <= k < |z| ==> z[k] == '0'
  }

  /** `d` is the decimal spelling of `m` after some leading zeros. */
  ghost predicate ZeroPadded(d: string, m: nat) {
    exists z :: AllZeros(z) && d == z + FormatNat(m)
  }

  lemma {:induction false} ZeroValue(d: string)
    requires AllDigits(d) && DigitsValue(d) == 0
    ensures AllZeros(d)
    decreases |d|
  {
    if d != [] {
      ZeroValue(d[..|d| - 1]);
    }
  }

  /** A non-empty digit string is its value's spelling after leading zeros. */
  lemma {:induction false} DigitsPadded(d: string)
    requires d != [] && AllDigits(d)
    ensures ZeroPadded(d, DigitsValue(d))
    decreases |d|
  {
    var init, c := d[..|d| - 1], d[|d| - 1];
    assert d == init + [c];
    var v := DigitsValue(d);
    assert DigitChar(DigitValue(c)) == c;
    if DigitsValue(init) == 0 {
      ZeroValue(init);
      assert FormatNat(v) == [c];
      assert AllZeros(init) && d == init + FormatNat(v);
    } else {
      DigitsPadded(init);
      var z :| AllZeros(z) && init == z + FormatNat(DigitsValue(init));
      assert v / 10 == DigitsValue(init) && v % 10 == DigitValue(c);
      assert FormatNat(v) == FormatNat(DigitsValue(init)) + [c];
      assert d == z + FormatNat(v);
    }
  }

  /**
   * The converse of `ParseFormatInt`: a field `int()` accepts is its
   * value written in decimal, after an optional sign and leading zeros;
   * a `-` field is never positive, a `+` field or an unsigned one never negative.
   */
  lemma ParseIntSpelling(s: string)
    requires ParseInt(s).Some?
    ensures s != []
    ensures var n := ParseInt(s).value;
      var d := if s[0] == '+' || s[0] == '-' then s[1..] else s;
      ZeroPadded(d, if n < 0 then -n else n) &&
      (n < 0 ==> s[0] == '-') && (s[0] == '+' ==> n >= 0) && (s[0] == '-' ==> n <= 0)
  {
    var d := if s[0] == '+' || s[0] == '-' then s[1..] else s;
    DigitsPadded(d);
  }
}
