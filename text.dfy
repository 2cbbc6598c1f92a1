/**
 * The Python `str` operations the script's decisions rest on, on `seq<char>`:
 * the substring test `needle in s`, `s.split(sep)` with a one-character
 * separator, `int(token)` (simplified) and `s.strip()`.
 */
module Text {
  import opened Wrappers

  // ---------------------------------------------------------------------
  // `needle in s`

  /** `needle` occurs in `s` starting at index `i`. */
  ghost predicate OccursAt(s: string, needle: string, i: int) {
    0 <= i <= |s| - |needle| && s[i..i + |needle|] == needle
  }

  /** `s` starts with `prefix`, compared one character at a time. */
  function StartsWith(s: string, prefix: string): (r: bool)
    ensures r ==> |prefix| <= |s|
    decreases |prefix|
  {
    prefix == [] || (s != [] && s[0] == prefix[0] && StartsWith(s[1..], prefix[1..]))
  }

  lemma {:induction false} StartsWithIff(s: string, prefix: string)
    ensures StartsWith(s, prefix) <==> prefix <= s
    decreases |prefix|
  {
    if prefix != [] && s != [] {
      StartsWithIff(s[1..], prefix[1..]);
      assert s == [s[0]] + s[1..];
      assert prefix == [prefix[0]] + prefix[1..];
    }
  }

  /** Python's `needle in s` for two strings. */
  function Contains(s: string, needle: string): (found: bool)
    ensures needle == [] ==> found
    ensures found ==> |needle| <= |s|
    decreases |s|
  {
    StartsWith(s, needle) || (s != [] && Contains(s[1..], needle))
  }

  /** `Contains` holds exactly when `needle` occurs somewhere in `s`. */
  lemma {:induction false} ContainsIff(s: string, needle: string)
    ensures Contains(s, needle) <==> exists i :: OccursAt(s, needle, i)
    decreases |s|
  {
    StartsWithIff(s, needle);
    if needle <= s {
      assert OccursAt(s, needle, 0);
    } else if s != [] {
      ContainsIff(s[1..], needle);
      if exists i :: OccursAt(s[1..], needle, i) {
        var i :| OccursAt(s[1..], needle, i);
        OccursInTail(s, needle, i + 1);
      }
      if exists i :: OccursAt(s, needle, i) {
        var i :| OccursAt(s, needle, i);
        assert i != 0;
        OccursInTail(s, needle, i);
      }
    } else {
      NoRoomForNeedle(needle);
    }
  }

  /** An occurrence past the first character is an occurrence in the tail. */
  lemma OccursInTail(s: string, needle: string, i: int)
    requires s != [] && i >= 1
    ensures OccursAt(s, needle, i) <==> OccursAt(s[1..], needle, i - 1)
  {
  }

  /** A non-empty needle does not occur in the empty string. */
  lemma NoRoomForNeedle(needle: string)
    requires needle != []
    ensures forall i :: !OccursAt([], needle, i)
  {
  }

  // ---------------------------------------------------------------------
  // `s.split(sep)`

  /**
   * Python's `s.split(sep)` for a one-character separator: every occurrence
   * of `sep` ends a token, so adjacent separators (or a leading one) give
   * empty tokens, and the result always has at least one token.
   */
  function Split(s: string, sep: char): (tokens: seq<string>)
    ensures |tokens| >= 1
    ensures forall k :: 0 <= k < |tokens| ==> sep !in tokens[k]
    decreases |s|
  {
    if s == [] then [[]]
    else
      var rest := Split(s[1..], sep);
      if s[0] == sep then [[]] + rest
      else [[s[0]] + rest[0]] + rest[1..]
  }

  /** Python's `sep.join(tokens)`, the inverse of `Split`. */
  function Join(tokens: seq<string>, sep: char): string
    requires |tokens| >= 1
    decreases |tokens|
  {
    if |tokens| == 1 then tokens[0] else tokens[0] + [sep] + Join(tokens[1..], sep)
  }

  /** Splitting loses nothing: joining the tokens back gives the string. */
  lemma {:induction false} JoinSplit(s: string, sep: char)
    ensures Join(Split(s, sep), sep) == s
    decreases |s|
  {
    if s != [] {
      var rest := Split(s[1..], sep);
      JoinSplit(s[1..], sep);
      assert s == [s[0]] + s[1..];
      if s[0] == sep {
        assert ([[]] + rest)[1..] == rest;
      } else {
        var tokens := [[s[0]] + rest[0]] + rest[1..];
        if |rest| > 1 {
          assert tokens[1..] == rest[1..];
        }
      }
    }
  }

  /** A string without the separator is a single token. */
  lemma {:induction false} SplitWithoutSep(a: string, sep: char)
    requires sep !in a
    ensures Split(a, sep) == [a]
    decreases |a|
  {
    if a != [] {
      SplitWithoutSep(a[1..], sep);
      assert a == [a[0]] + a[1..];
    }
  }

  /** The text before the first separator is the first token. */
  lemma {:induction false} SplitAfterToken(a: string, b: string, sep: char)
    requires sep !in a
    ensures Split(a + [sep] + b, sep) == [a] + Split(b, sep)
    decreases |a|
  {
    if a == [] {
      assert ([] + [sep] + b)[1..] == b;
    } else {
      assert (a + [sep] + b)[1..] == a[1..] + [sep] + b;
      SplitAfterToken(a[1..], b, sep);
      assert a == [a[0]] + a[1..];
    }
  }

  /** Tokens that do not contain the separator come back from `Split` unchanged. */
  lemma {:induction false} SplitJoin(tokens: seq<string>, sep: char)
    requires |tokens| >= 1
    requires forall k :: 0 <= k < |tokens| ==> sep !in tokens[k]
    ensures Split(Join(tokens, sep), sep) == tokens
    decreases |tokens|
  {
    if |tokens| == 1 {
      SplitWithoutSep(tokens[0], sep);
    } else {
      SplitJoin(tokens[1..], sep);
      SplitAfterToken(tokens[0], Join(tokens[1..], sep), sep);
      assert tokens == [tokens[0]] + tokens[1..];
    }
  }

  // ---------------------------------------------------------------------
  // `int(token)`

  predicate IsDigit(c: char) {
    '0' <= c <= '9'
  }

  predicate AllDigits(s: string) {
    forall i :: 0 <= i < |s| ==> IsDigit(s[i])
  }

  /** The value of a string of decimal digits, most significant first. */
  function DigitsValue(ds: string): nat
    requires AllDigits(ds)
    decreases |ds|
  {
    if ds == [] then 0
    else 10 * DigitsValue(ds[..|ds| - 1]) + (ds[|ds| - 1] as int - '0' as int)
  }

  /**
   * The most digits `int` converts from a decimal string: the default of
   * `sys.get_int_max_str_digits()` (CPython 3.11 and later, and
   * the 3.10.7, 3.9.14, 3.8.14 and 3.7.14 releases). Leading zeros
   * count towards it; a longer digit string raises `ValueError`.
   */
  const MaxStrDigits: nat := 4300

  /**
   * Python's `int(token)` in base 10, simplified: an optional `+` or `-`
   * followed by one to `MaxStrDigits` ASCII digits (leading zeros allowed);
   * anything else is the `ValueError` case, `None`.
   */
  function ParseInt(s: string): (r: Option<int>)
    ensures r.Some? ==> 1 <= |s| <= MaxStrDigits + 1 && IsDigit(s[|s| - 1])
    ensures r.Some? ==>
      if s[0] == '+' || s[0] == '-' then AllDigits(s[1..]) && |s| - 1 <= MaxStrDigits
      else AllDigits(s) && |s| <= MaxStrDigits
    ensures r.Some? && r.value < 0 ==> s[0] == '-'
  {
    if |s| >= 2 && (s[0] == '+' || s[0] == '-') && AllDigits(s[1..]) then
      if |s| - 1 > MaxStrDigits then None
      else
        var magnitude: int := DigitsValue(s[1..]);
        Some(if s[0] == '-' then -magnitude else magnitude)
    else if |s| >= 1 && AllDigits(s) then
      if |s| > MaxStrDigits then None else Some(DigitsValue(s))
    else
      None
  }

  function DigitChar(d: nat): (c: char)
    requires d < 10
    ensures IsDigit(c)
  {
    ('0' as int + d) as char
  }

  /** Python's `str(n)` for a natural number: its decimal digits, no leading zero. */
  function ShowNat(n: nat): (s: string)
    ensures |s| >= 1 && AllDigits(s)
    decreases n
  {
    if n < 10 then [DigitChar(n)] else ShowNat(n / 10) + [DigitChar(n % 10)]
  }

  lemma {:induction false} DigitsValueShowNat(n: nat)
    ensures DigitsValue(ShowNat(n)) == n
    decreases n
  {
    if n >= 10 {
      DigitsValueShowNat(n / 10);
      var s := ShowNat(n);
      assert s[..|s| - 1] == ShowNat(n / 10);
    }
  }

  /**
   * `int(str(n)) == n`, also with a sign in front, as long as `str(n)` is
   * within the digit limit; beyond it every form raises `ValueError`.
   */
  lemma ParseShowNat(n: nat)
    ensures |ShowNat(n)| <= MaxStrDigits ==> ParseInt(ShowNat(n)) == Some(n)
    ensures |ShowNat(n)| <= MaxStrDigits ==> ParseInt("+" + ShowNat(n)) == Some(n)
    ensures |ShowNat(n)| <= MaxStrDigits ==> ParseInt("-" + ShowNat(n)) == Some(-(n as int))
    ensures |ShowNat(n)| > MaxStrDigits ==> ParseInt(ShowNat(n)) == None
    ensures |ShowNat(n)| > MaxStrDigits ==> ParseInt("+" + ShowNat(n)) == None
    ensures |ShowNat(n)| > MaxStrDigits ==> ParseInt("-" + ShowNat(n)) == None
  {
    DigitsValueShowNat(n);
    assert ("+" + ShowNat(n))[1..] == ShowNat(n);
    assert ("-" + ShowNat(n))[1..] == ShowNat(n);
  }

  ghost predicate HasNonZeroDigit(ds: string) {
    exists i :: 0 <= i < |ds| && ds[i] != '0'
  }

  /** A digit string has a positive value exactly when some digit is not `0`. */
  lemma {:induction false} DigitsValuePositive(ds: string)
    requires AllDigits(ds)
    ensures DigitsValue(ds) > 0 <==> HasNonZeroDigit(ds)
    decreases |ds|
  {
    if ds != [] {
      var init := ds[..|ds| - 1];
      DigitsValuePositive(init);
      if HasNonZeroDigit(init) {
        var i :| 0 <= i < |init| && init[i] != '0';
        assert ds[i] != '0';
      }
      if HasNonZeroDigit(ds) {
        var i :| 0 <= i < |ds| && ds[i] != '0';
        if i < |init| {
          assert init[i] != '0';
        }
      }
    }
  }

  /**
   * A numeral whose value is positive: no minus sign, at most `MaxStrDigits`
   * digits, and some digit that is not `0`.
   */
  ghost predicate PositiveNumeral(t: string) {
    || (1 <= |t| <= MaxStrDigits && AllDigits(t) && HasNonZeroDigit(t))
    || (2 <= |t| <= MaxStrDigits + 1 && t[0] == '+' && AllDigits(t[1..]) && HasNonZeroDigit(t[1..]))
  }

  /** Reading `t` as a count, with 0 for a failed parse, gives a positive count exactly for a positive numeral. */
  lemma ParsedCountPositive(t: string)
    ensures ParseInt(t).GetOr(0) > 0 <==> PositiveNumeral(t)
  {
    if |t| >= 2 && AllDigits(t[1..]) {
      DigitsValuePositive(t[1..]);
    }
    if |t| >= 1 && AllDigits(t) {
      DigitsValuePositive(t);
    }
  }

  // ---------------------------------------------------------------------
  // `s.strip()`

  /** The characters for which Python's `str.isspace()` holds, which `str.strip()` removes. */
  predicate IsSpace(c: char) {
    || c == ' '
    || '\t' <= c <= '\r'
    || '\U{1c}' <= c <= '\U{1f}'
    || c == '\U{85}' || c == '\U{a0}' || c == '\U{1680}'
    || '\U{2000}' <= c <= '\U{200a}'
    || c == '\U{2028}' || c == '\U{2029}' || c == '\U{202f}' || c == '\U{205f}' || c == '\U{3000}'
  }

  /** `s.lstrip()`: the suffix of `s` left after dropping its leading whitespace. */
  function StripStart(s: string): (r: string)
    ensures |r| <= |s| && r == s[|s| - |r|..]
    ensures forall i :: 0 <= i < |s| - |r| ==> IsSpace(s[i])
    ensures r == [] || !IsSpace(r[0])
    decreases |s|
  {
    if s != [] && IsSpace(s[0]) then StripStart(s[1..]) else s
  }

  /** `s.rstrip()`: the prefix of `s` left after dropping its trailing whitespace. */
  function StripEnd(s: string): (r: string)
    ensures |r| <= |s| && r == s[..|r|]
    ensures forall i :: |r| <= i < |s| ==> IsSpace(s[i])
    ensures r == [] || !IsSpace(r[|r| - 1])
    decreases |s|
  {
    if s != [] && IsSpace(s[|s| - 1]) then StripEnd(s[..|s| - 1]) else s
  }

  /** `s.strip()`: empty exactly when `s` is all whitespace (or empty). */
  function Strip(s: string): (r: string)
    ensures r == [] <==> forall i :: 0 <= i < |s| ==> IsSpace(s[i])
    ensures r == [] || (!IsSpace(r[0]) && !IsSpace(r[|r| - 1]))
  {
    StripEnd(StripStart(s))
  }
}
