/**
 * The few pieces of Python's `str` and `int` that the menu engine relies on:
 * `str.strip()`, `str.lower()` and `int(str)` in base 10.
 */
module Text {
  import opened Wrappers

  /** Python's `str.isspace()` for one character: the characters `str.strip()` removes. */
  predicate IsSpace(c: char)
  {
    c == ' ' || ('\t' <= c <= '\r') || ('\U{1C}' <= c <= '\U{1F}') ||
    c == '\U{85}' || c == '\U{A0}' || c == '\U{1680}' || ('\U{2000}' <= c <= '\U{200A}') ||
    c == '\U{2028}' || c == '\U{2029}' || c == '\U{202F}' || c == '\U{205F}' || c == '\U{3000}'
  }

  predicate AllSpace(s: string)
  {
    forall i :: 0 <= i < |s| ==> IsSpace(s[i])
  }

  /** No whitespace at either end: what `str.strip()` leaves behind. */
  predicate Trimmed(s: string)
  {
    s == [] || (!IsSpace(s[0]) && !IsSpace(s[|s| - 1]))
  }

  /** Python's `str.lstrip()`: drops the whitespace at the start. */
  function StripStart(s: string): string
  {
    if |s| > 0 && IsSpace(s[0]) then StripStart(s[1..]) else s
  }

  /** Python's `str.rstrip()`: drops the whitespace at the end. */
  function StripEnd(s: string): string
  {
    if |s| > 0 && IsSpace(s[|s| - 1]) then StripEnd(s[..|s| - 1]) else s
  }

  /** Python's `str.strip()`: a part of `s` with no whitespace at either end. */
  function Strip(s: string): (r: string)
    ensures |r| <= |s| && Trimmed(r)
  {
    StripStartSpec(s);
    StripEndSpec(StripStart(s));
    StripEnd(StripStart(s))
  }

  /** `lstrip` leaves a suffix that does not start with whitespace, and drops only whitespace. */
  lemma {:induction false} StripStartSpec(s: string)
    ensures var r := StripStart(s);
      |r| <= |s| && r == s[|s| - |r|..] && AllSpace(s[..|s| - |r|]) && (r == [] || !IsSpace(r[0]))
  {
    if |s| > 0 && IsSpace(s[0]) {
      StripStartSpec(s[1..]);
      var r := StripStart(s);
      assert s[1..][|s| - 1 - |r|..] == s[|s| - |r|..];
      assert forall i :: 1 <= i < |s| - |r| ==> s[i] == s[1..][..|s| - 1 - |r|][i - 1];
    }
  }

  /** `rstrip` leaves a prefix that does not end with whitespace, and drops only whitespace. */
  lemma {:induction false} StripEndSpec(s: string)
    ensures var r := StripEnd(s);
      |r| <= |s| && r == s[..|r|] && AllSpace(s[|r|..]) && (r == [] || !IsSpace(r[|r| - 1]))
  {
    if |s| > 0 && IsSpace(s[|s| - 1]) {
      StripEndSpec(s[..|s| - 1]);
      var r := StripEnd(s);
      assert s[..|s| - 1][..|r|] == s[..|r|];
      assert forall i :: |r| <= i < |s| - 1 ==> s[i] == s[..|s| - 1][|r|..][i - |r|];
    }
  }

  /** `Strip` removes exactly the whitespace padding around a trimmed core, whatever that core is. */
  lemma {:induction false} StripPadded(w1: string, m: string, w2: string)
    requires AllSpace(w1) && AllSpace(w2) && Trimmed(m)
    ensures Strip(w1 + m + w2) == m
  {
    if m == [] {
      assert w1 + m + w2 == (w1 + w2) + [];
      StripStartPadded(w1 + w2, []);
    } else {
      assert w1 + m + w2 == w1 + (m + w2);
      StripStartPadded(w1, m + w2);
      StripEndPadded(m, w2);
    }
  }

  lemma {:induction false} StripStartPadded(w: string, s: string)
    requires AllSpace(w) && (s == [] || !IsSpace(s[0]))
    ensures StripStart(w + s) == s
  {
    if w != [] {
      assert (w + s)[1..] == w[1..] + s;
      StripStartPadded(w[1..], s);
    } else {
      assert w + s == s;
    }
  }

  lemma {:induction false} StripEndPadded(s: string, w: string)
    requires AllSpace(w) && (s == [] || !IsSpace(s[|s| - 1]))
    ensures StripEnd(s + w) == s
  {
    if w != [] {
      assert (s + w)[..|s + w| - 1] == s + w[..|w| - 1];
      StripEndPadded(s, w[..|w| - 1]);
    } else {
      assert s + w == s;
    }
  }

  /** Every string is its stripped core padded with whitespace on both sides. */
  lemma StripSplits(s: string)
    ensures exists i, j :: 0 <= i <= j <= |s| && AllSpace(s[..i]) && AllSpace(s[j..]) && Strip(s) == s[i..j]
  {
    StripStartSpec(s);
    var a := StripStart(s);
    var i := |s| - |a|;
    StripEndSpec(a);
    var b := StripEnd(a);
    assert s[i..][..|b|] == s[i..i + |b|];
    assert s[i + |b|..] == a[|b|..];
  }

  /** Python's `str.lower()` on ASCII letters; other characters are left as they are. */
  function LowerChar(c: char): (r: char)
    ensures ('A' <= c <= 'Z') == (r != c)
    ensures 'A' <= c <= 'Z' ==> 'a' <= r <= 'z'
  {
    if 'A' <= c <= 'Z' then (c as int + 32) as char else c
  }

  function Lower(s: string): (r: string)
    ensures |r| == |s|
  {
    if s == [] then [] else [LowerChar(s[0])] + Lower(s[1..])
  }

  lemma {:induction false} LowerSpec(s: string)
    ensures |Lower(s)| == |s| && forall i :: 0 <= i < |s| ==> Lower(s)[i] == LowerChar(s[i])
  {
    if s != [] {
      LowerSpec(s[1..]);
    }
  }

  predicate IsDigit(c: char)
  {
    '0' <= c <= '9'
  }

  /**
   * The digit part accepted by Python's `int(str)` in base 10: one or more ASCII digits,
   * with single underscores allowed between two digits (`1_000`, but not `_1`, `1_` or `1__0`).
   */
  predicate DigitString(d: string)
    decreases |d|
  {
    |d| > 0 && IsDigit(d[0]) &&
    (|d| == 1 || DigitString(d[1..]) || (d[1] == '_' && DigitString(d[2..])))
  }

  /** The value of a digit string, underscores ignored. */
  function DigitsValue(d: string): nat
  {
    if d == [] then 0
    else if IsDigit(d[|d| - 1]) then 10 * DigitsValue(d[..|d| - 1]) + (d[|d| - 1] as int - '0' as int)
    else DigitsValue(d[..|d| - 1])
  }

  /**
   * The information separators U+001C..U+001F: `str.isspace()` counts them as whitespace, but
   * CPython's `int()` skips only ASCII ` \t\n\v\f\r` and the non-ASCII Unicode spaces, and
   * these are not digits either, so one of them anywhere in a line makes `int()` raise.
   */
  predicate IsSeparator(c: char)
  {
    '\U{1C}' <= c <= '\U{1F}'
  }

  predicate HasSeparator(s: string)
  {
    exists i :: 0 <= i < |s| && IsSeparator(s[i])
  }

  /** The whitespace `int()` skips around a number. */
  predicate IsNumberSpace(c: char)
  {
    IsSpace(c) && !IsSeparator(c)
  }

  predicate AllNumberSpace(s: string)
  {
    forall i :: 0 <= i < |s| ==> IsNumberSpace(s[i])
  }

  /** CPython's default limit on the digits `int()` converts (`sys.int_info.default_max_str_digits`). */
  const MaxStrDigits: nat := 4300

  /** The number of digits in `d`, underscores not counted. */
  function DigitCount(d: string): (r: nat)
    ensures r <= |d|
  {
    if d == [] then 0 else (if IsDigit(d[0]) then 1 else 0) + DigitCount(d[1..])
  }

  /** The digit part `int()` converts: well formed, and no more digits than the limit. */
  predicate Numeral(d: string)
  {
    DigitString(d) && DigitCount(d) <= MaxStrDigits
  }

  /**
   * Python's `int(s)` in base 10: surrounding whitespace is ignored, an optional `+` or `-`
   * sign comes first; `None` stands for the `ValueError` it raises on anything else.
   */
  function ParseInt(s: string): (r: Option<int>)
    ensures HasSeparator(s) ==> r.None?
    ensures Strip(s) == [] ==> r.None?
  {
    if HasSeparator(s) then None
    else
      var t := Strip(s);
      if |t| > 0 && (t[0] == '+' || t[0] == '-') then
        var magnitude: int := DigitsValue(t[1..]);
        if Numeral(t[1..]) then Some(if t[0] == '-' then -magnitude else magnitude)
        else None
      else if Numeral(t) then Some(DigitsValue(t))
      else None
  }

  function DigitChar(d: nat): (c: char)
    requires d < 10
    ensures IsDigit(c) && c as int - '0' as int == d
  {
    ('0' as int + d) as char
  }

  /** Python's `str(n)` for a natural number: its decimal digits, most significant first. */
  function NatToString(n: nat): (s: string)
    ensures |s| > 0 && forall i :: 0 <= i < |s| ==> IsDigit(s[i])
  {
    if n < 10 then [DigitChar(n)] else NatToString(n / 10) + [DigitChar(n % 10)]
  }

  /** Python's `str(n)`: starts with `-` exactly when `n` is negative. */
  function IntToString(n: int): (r: string)
    ensures |r| > 0 && (r[0] == '-' <==> n < 0)
  {
    if n < 0 then "-" + NatToString(-n) else NatToString(n)
  }

  lemma {:induction false} AllDigitsIsDigitString(d: string)
    requires |d| > 0 && forall i :: 0 <= i < |d| ==> IsDigit(d[i])
    ensures DigitString(d)
  {
    if |d| > 1 {
      AllDigitsIsDigitString(d[1..]);
    }
  }

  lemma {:induction false} NatToStringValue(n: nat)
    ensures DigitsValue(NatToString(n)) == n
  {
    var s := NatToString(n);
    if n >= 10 {
      NatToStringValue(n / 10);
      assert s[..|s| - 1] == NatToString(n / 10);
    } else {
      assert s[..|s| - 1] == [];
    }
  }

  /**
   * What `str()` prints reads back as the same number, as long as it has no more digits than
   * `int()` converts; a longer one makes `int()` raise.
   */
  lemma ParseIntRoundTrip(n: int)
    ensures ParseInt(IntToString(n)) ==
      if |NatToString(if n < 0 then -n else n)| <= MaxStrDigits then Some(n) else None
  {
    var m: nat := if n < 0 then -n else n;
    DigitsRead(m);
    IntToStringShape(n);
    var s := IntToString(n);
    StripIsIdentity(s);
    assert Strip(s) == s;
  }

  /** `str(n)`: a `-` for a negative number, then the digits; nothing `int()` would trip on. */
  lemma IntToStringShape(n: int)
    ensures var s := IntToString(n);
      Trimmed(s) && !HasSeparator(s) &&
      (n < 0 ==> s[0] == '-' && s[1..] == NatToString(-n)) && (n >= 0 ==> s == NatToString(n))
  {
    var m: nat := if n < 0 then -n else n;
    var digits := NatToString(m);
    var s := IntToString(n);
    assert s[|s| - 1] == digits[|digits| - 1];
    if n < 0 {
      assert s[1..] == digits;
      assert forall i :: 1 <= i < |s| ==> s[i] == digits[i - 1];
    } else {
      assert s == digits;
    }
  }

  /** The decimal digits of `m` form a digit string worth `m`, with one digit per character. */
  lemma DigitsRead(m: nat)
    ensures DigitString(NatToString(m)) && DigitsValue(NatToString(m)) == m
    ensures DigitCount(NatToString(m)) == |NatToString(m)|
  {
    AllDigitsIsDigitString(NatToString(m));
    AllDigitsCount(NatToString(m));
    NatToStringValue(m);
  }

  lemma {:induction false} AllDigitsCount(d: string)
    requires forall i :: 0 <= i < |d| ==> IsDigit(d[i])
    ensures DigitCount(d) == |d|
  {
    if d != [] {
      AllDigitsCount(d[1..]);
    }
  }

  /** A larger number never has fewer decimal digits. */
  lemma {:induction false} NatToStringLonger(a: nat, b: nat)
    requires a <= b
    ensures |NatToString(a)| <= |NatToString(b)|
  {
    if a >= 10 {
      NatToStringLonger(a / 10, b / 10);
    }
  }

  lemma StripIsIdentity(s: string)
    requires Trimmed(s)
    ensures Strip(s) == s
  {
    StripPadded([], s, []);
    assert [] + s + [] == s;
  }

  /** Whitespace that `int()` skips, around a number, does not change what it reads. */
  lemma ParseIntIgnoresPadding(w1: string, s: string, w2: string)
    requires AllNumberSpace(w1) && AllNumberSpace(w2) && Trimmed(s)
    ensures ParseInt(w1 + s + w2) == ParseInt(s)
  {
    var p := w1 + s + w2;
    assert forall i :: 0 <= i < |s| ==> p[|w1| + i] == s[i];
    if !HasSeparator(s) {
      forall i | 0 <= i < |p|
        ensures !IsSeparator(p[i])
      {
        if i < |w1| {
          assert p[i] == w1[i];
        } else if i < |w1| + |s| {
          assert p[i] == s[i - |w1|];
        } else {
          assert p[i] == w2[i - |w1| - |s|];
        }
      }
    }
    StripPadded(w1, s, w2);
    StripIsIdentity(s);
  }

  /** An information separator is not padding for `int()`: a line holding one never reads as a number. */
  lemma SeparatorIsNotPadding()
    ensures ParseInt("\U{1C}3").None? && ParseInt(" 3") == Some(3)
  {
    assert IsSeparator("\U{1C}3"[0]);
    assert !HasSeparator(" 3");
    StripPadded(" ", "3", "");
    assert " " + "3" + "" == " 3";
  }
}
