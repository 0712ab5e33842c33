/** The three Python string builtins the core leans on, as CPython 3.11 and
    later define them on ASCII digits:
    - `s.split(" ")`: split at EVERY single space, keeping empty fields;
    - `s.strip()`: remove leading and trailing characters for which `isspace()` holds;
    - `int(s)` with the default base 10: optional surrounding whitespace (every
      `isspace()` character except U+001C..U+001F), an optional sign, decimal digits
      with single underscores allowed between digits, and at most 4300 digits. */
module PyStr {
  import opened Outcomes

  /** Python's `str.isspace()` on a single character. */
  predicate IsSpace(c: char) {
    || c == ' '
    || '\t' <= c <= '\r'
    || '\U{1c}' <= c <= '\U{1f}'
    || c == '\U{85}' || c == '\U{a0}' || c == '\U{1680}'
    || '\U{2000}' <= c <= '\U{200a}'
    || c == '\U{2028}' || c == '\U{2029}' || c == '\U{202f}' || c == '\U{205f}' || c == '\U{3000}'
  }

  predicate AllSpace(s: string) {
    forall i :: 0 <= i < |s| ==> IsSpace(s[i])
  }

  /** The whitespace `int()` skips around its digits: every `isspace()` character
      except the information separators U+001C..U+001F, which `int()` rejects. */
  predicate IsIntSpace(c: char) {
    IsSpace(c) && !('\U{1c}' <= c <= '\U{1f}')
  }

  predicate AllIntSpace(s: string) {
    forall i :: 0 <= i < |s| ==> IsIntSpace(s[i])
  }

  /** Neither end of `s` is whitespace (vacuously true of the empty string). */
  predicate Trimmed(s: string) {
    |s| == 0 || (!IsSpace(s[0]) && !IsSpace(s[|s| - 1]))
  }

  // ----- s.split(sep) with a one-character separator -----

  /** `sep.join(fields)`, the inverse of `Split`. */
  function Join(fields: seq<string>, sep: char): string
    requires |fields| >= 1
  {
    if |fields| == 1 then fields[0] else fields[0] + [sep] + Join(fields[1..], sep)
  }

  /** `s.split(sep)`: there is always at least one field, no field contains the
      separator, and joining the fields back gives `s`. */
  function Split(s: string, sep: char): (fields: seq<string>)
    ensures |fields| >= 1
    ensures forall i :: 0 <= i < |fields| ==> sep !in fields[i]
    ensures Join(fields, sep) == s
    decreases |s|
  {
    if |s| == 0 then [""]
    else
      var rest := Split(s[1..], sep);
      if s[0] == sep then
        assert ([""] + rest)[1..] == rest;
        [""] + rest
      else
        var fields := [[s[0]] + rest[0]] + rest[1..];
        assert fields[1..] == rest[1..];
        assert |rest| > 1 ==> Join(rest, sep) == rest[0] + [sep] + Join(rest[1..], sep);
        fields
  }

  /** A separator-free word glued to the front of `t` extends `t`'s first field. */
  lemma {:induction false} SplitPrefix(w: string, t: string, sep: char)
    requires sep !in w
    ensures Split(w + t, sep) == [w + Split(t, sep)[0]] + Split(t, sep)[1..]
    decreases |w|
  {
    if |w| > 0 {
      assert (w + t)[1..] == w[1..] + t;
      assert sep !in w[1..] by {
        forall k | 0 <= k < |w[1..]| ensures w[1..][k] != sep {
          assert w[1..][k] == w[k + 1];
        }
      }
      SplitPrefix(w[1..], t, sep);
      assert (w + t)[0] == w[0] != sep;
      assert [w[0]] + (w[1..] + Split(t, sep)[0]) == w + Split(t, sep)[0];
    } else {
      assert w + t == t;
      assert w + Split(t, sep)[0] == Split(t, sep)[0];
      assert Split(t, sep) == [Split(t, sep)[0]] + Split(t, sep)[1..];
    }
  }

  /** A leading separator opens an empty first field. */
  lemma SplitSeparator(t: string, sep: char)
    ensures Split([sep] + t, sep) == [""] + Split(t, sep)
  {
    assert ([sep] + t)[1..] == t;
  }

  /** Splitting a join of separator-free fields gives the fields back. */
  lemma {:induction false} SplitJoin(fields: seq<string>, sep: char)
    requires |fields| >= 1
    requires forall i :: 0 <= i < |fields| ==> sep !in fields[i]
    ensures Split(Join(fields, sep), sep) == fields
    decreases |fields|
  {
    if |fields| == 1 {
      SplitPrefix(fields[0], "", sep);
      assert fields[0] + "" == fields[0];
    } else {
      var tail := Join(fields[1..], sep);
      var rest := [sep] + tail;
      assert Join(fields, sep) == fields[0] + rest;
      SplitJoin(fields[1..], sep);
      SplitSeparator(tail, sep);
      var after := Split(rest, sep);
      assert after[0] == "" && after[1..] == fields[1..];
      SplitPrefix(fields[0], rest, sep);
      assert Split(fields[0] + rest, sep) == [fields[0] + ""] + fields[1..];
      assert fields[0] + "" == fields[0];
      assert [fields[0]] + fields[1..] == fields;
    }
  }

  /** `s.split(sep)` has a second field exactly when `sep` occurs in `s`. */
  lemma SplitHasSeparator(s: string, sep: char)
    ensures |Split(s, sep)| >= 2 <==> sep in s
  {
    var fields := Split(s, sep);
    if |fields| >= 2 {
      assert s == fields[0] + [sep] + Join(fields[1..], sep);
      assert s[|fields[0]|] == sep;
    } else {
      assert s == fields[0];
    }
  }

  // ----- s.strip() -----

  /** The first index at or after `i` that does not hold whitespace (or `|s|`). */
  function TextStart(s: string, i: nat): (k: nat)
    requires i <= |s|
    ensures i <= k <= |s|
    ensures forall j :: i <= j < k ==> IsSpace(s[j])
    ensures k == |s| || !IsSpace(s[k])
    decreases |s| - i
  {
    if i < |s| && IsSpace(s[i]) then TextStart(s, i + 1) else i
  }

  /** Moving down from `j`, the end of the last non-whitespace character above `lo`. */
  function TextEnd(s: string, lo: nat, j: nat): (k: nat)
    requires lo <= j <= |s|
    ensures lo <= k <= j
    ensures forall m :: k <= m < j ==> IsSpace(s[m])
    ensures k == lo || !IsSpace(s[k - 1])
    decreases j
  {
    if j > lo && IsSpace(s[j - 1]) then TextEnd(s, lo, j - 1) else j
  }

  /** `s.strip()`: the infix of `s` left after removing whitespace from both ends. */
  function Strip(s: string): (r: string)
    ensures Trimmed(r)
    ensures |r| <= |s|
  {
    var lo := TextStart(s, 0);
    s[lo..TextEnd(s, lo, |s|)]
  }

  /** Where the text of `p + t + q` starts and ends, for whitespace padding `p`
      and `q` around a non-empty text whose ends are not whitespace. */
  lemma PaddedBounds(p: string, t: string, q: string)
    requires AllSpace(p) && AllSpace(q) && Trimmed(t) && |t| > 0
    ensures TextStart(p + t + q, 0) == |p|
    ensures TextEnd(p + t + q, |p|, |p + t + q|) == |p| + |t|
  {
    var s := p + t + q;
    assert forall j :: 0 <= j < |p| ==> s[j] == p[j];
    assert forall j :: 0 <= j < |q| ==> s[|p| + |t| + j] == q[j];
    assert s[|p|] == t[0];
    assert s[|p| + |t| - 1] == t[|t| - 1];
  }

  /** `strip()` removes exactly the surrounding whitespace: padding a trimmed
      text with whitespace on both sides and stripping gives the text back. */
  lemma StripPadded(p: string, t: string, q: string)
    requires AllSpace(p) && AllSpace(q) && Trimmed(t)
    ensures Strip(p + t + q) == t
  {
    var s := p + t + q;
    if |t| == 0 {
      assert forall j :: 0 <= j < |s| ==> s[j] == (p + q)[j];
      assert TextStart(s, 0) == |s|;
    } else {
      PaddedBounds(p, t, q);
      assert s[|p|..|p| + |t|] == t;
    }
  }

  // ----- int(s), base 10 -----

  predicate IsDigit(c: char) {
    '0' <= c <= '9'
  }

  predicate AllDigits(s: string) {
    forall i :: 0 <= i < |s| ==> IsDigit(s[i])
  }

  function DigitValue(c: char): nat
    requires IsDigit(c)
  {
    (c as int) - ('0' as int)
  }

  function DigitChar(n: nat): (c: char)
    requires n < 10
    ensures IsDigit(c) && DigitValue(c) == n
  {
    (('0' as int) + n) as char
  }

  /** The value of a string of decimal digits, most significant first. */
  function DigitsValue(s: string): nat
    requires AllDigits(s)
  {
    if |s| == 0 then 0 else DigitsValue(s[..|s| - 1]) * 10 + DigitValue(s[|s| - 1])
  }

  /** Python's digit syntax for `int()`: digits, with single underscores
      allowed between two digits. */
  predicate DigitGroups(s: string) {
    && |s| > 0
    && IsDigit(s[0]) && IsDigit(s[|s| - 1])
    && (forall i :: 0 <= i < |s| ==> IsDigit(s[i]) || s[i] == '_')
    && (forall i :: 0 <= i < |s| - 1 ==> s[i] == '_' ==> s[i + 1] != '_')
  }

  /** The digits of `s`, underscores dropped. */
  function DropUnderscores(s: string): (r: string)
    requires forall i :: 0 <= i < |s| ==> IsDigit(s[i]) || s[i] == '_'
    ensures AllDigits(r)
    ensures AllDigits(s) ==> r == s
  {
    if |s| == 0 then ""
    else if s[0] == '_' then DropUnderscores(s[1..])
    else [s[0]] + DropUnderscores(s[1..])
  }

  /** CPython's default `sys.get_int_max_str_digits()`: `int()` refuses a text
      with more digits than this, underscores not counted. */
  const IntMaxStrDigits: nat := 4300

  /** `int(s)`: `None` where Python raises ValueError.  The text between the
      `isspace()` padding is parsed; the padding itself must be whitespace that
      `int()` skips, or `int()` stops at the first separator it meets and fails. */
  function ParseInt(s: string): (r: Option<int>)
    ensures r.Some? ==> ParseSignedDigits(Strip(s)) == r
    ensures (forall i :: 0 <= i < |s| ==> !('\U{1c}' <= s[i] <= '\U{1f}')) ==> r == ParseSignedDigits(Strip(s))
  {
    var lo := TextStart(s, 0);
    var hi := TextEnd(s, lo, |s|);
    if AllIntSpace(s[..lo]) && AllIntSpace(s[hi..]) then ParseSignedDigits(s[lo..hi]) else None
  }

  /** `int()` on text whose surrounding whitespace is already gone. */
  function ParseSignedDigits(t: string): Option<int> {
    if |t| > 0 && (t[0] == '+' || t[0] == '-') then
      if DigitGroups(t[1..]) && |DropUnderscores(t[1..])| <= IntMaxStrDigits then
        var n: int := DigitsValue(DropUnderscores(t[1..]));
        Some(if t[0] == '-' then -n else n)
      else None
    else if DigitGroups(t) && |DropUnderscores(t)| <= IntMaxStrDigits then Some(DigitsValue(DropUnderscores(t)))
    else None
  }

  /** The decimal text of a non-negative integer, digits without leading zeros:
      what `str(n)` gives wherever it does not refuse the size. */
  function NatToDecimal(n: nat): (s: string)
    ensures |s| > 0 && AllDigits(s)
  {
    if n < 10 then [DigitChar(n)] else NatToDecimal(n / 10) + [DigitChar(n % 10)]
  }

  /** The decimal text of any integer, `-` first when it is negative. */
  function IntToDecimal(n: int): string {
    if n < 0 then "-" + NatToDecimal(-n) else NatToDecimal(n)
  }

  lemma {:induction false} NatToDecimalValue(n: nat)
    ensures DigitsValue(NatToDecimal(n)) == n
  {
    if n >= 10 {
      var s := NatToDecimal(n);
      assert s[..|s| - 1] == NatToDecimal(n / 10);
      NatToDecimalValue(n / 10);
    }
  }

  lemma DigitIsText(c: char)
    requires IsDigit(c)
    ensures !IsSpace(c) && c != '+' && c != '-' && c != '_'
  {
  }

  /** A non-empty run of digits is valid `int()` syntax. */
  lemma DigitsAreGroups(s: string)
    requires |s| > 0 && AllDigits(s)
    ensures DigitGroups(s)
    ensures Trimmed(s)
  {
    DigitIsText(s[0]);
    DigitIsText(s[|s| - 1]);
    forall i | 0 <= i < |s| - 1
      ensures s[i] == '_' ==> s[i + 1] != '_'
    {
      DigitIsText(s[i]);
    }
  }

  /** The digits `str` writes for a natural number read back as it. */
  lemma DecimalDigits(m: nat)
    ensures DigitGroups(NatToDecimal(m))
    ensures DigitsValue(DropUnderscores(NatToDecimal(m))) == m
    ensures Trimmed(NatToDecimal(m))
    ensures !(NatToDecimal(m)[0] in "+-")
    ensures DropUnderscores(NatToDecimal(m)) == NatToDecimal(m)
  {
    var d := NatToDecimal(m);
    NatToDecimalValue(m);
    DigitsAreGroups(d);
    DigitIsText(d[0]);
    assert DropUnderscores(d) == d;
  }

  /** The text of `n` has at most `int()`'s digit limit of digits. */
  predicate FitsIntLimit(n: int) {
    |NatToDecimal(if n < 0 then -n else n)| <= IntMaxStrDigits
  }

  /** `int()` reads the digits of `m` back as `m`, unless there are too many. */
  lemma ParseNatDecimal(m: nat)
    ensures ParseSignedDigits(NatToDecimal(m)) == if |NatToDecimal(m)| <= IntMaxStrDigits then Some(m) else None
  {
    var d := NatToDecimal(m);
    DecimalDigits(m);
    assert !(d[0] == '+' || d[0] == '-');
  }

  /** `int()` reads `-` followed by the digits of `m` back as `-m`, unless there
      are too many digits. */
  lemma ParseNegatedDecimal(m: nat, t: string)
    requires t == "-" + NatToDecimal(m)
    ensures ParseSignedDigits(t) == if |NatToDecimal(m)| <= IntMaxStrDigits then Some(-(m as int)) else None
  {
    var d := NatToDecimal(m);
    DecimalDigits(m);
    assert t[0] == '-' && t[1..] == d;
    assert DigitGroups(t[1..]) && DropUnderscores(t[1..]) == d;
    var n: int := DigitsValue(d);
    assert n == m;
  }

  /** A minus sign followed by the digits of `m` has no whitespace at either end. */
  lemma NegatedTrimmed(m: nat, t: string)
    requires t == "-" + NatToDecimal(m)
    ensures Trimmed(t)
  {
    var d := NatToDecimal(m);
    DecimalDigits(m);
    assert t[|t| - 1] == d[|d| - 1];
    assert !IsSpace(t[0]);
  }

  /** The decimal text of a negative `n` is a minus sign and the digits of `-n`;
      `int()` reads it back unless there are too many digits. */
  lemma ParseNegativeDecimal(n: int, m: nat)
    requires n < 0 && m == -n
    ensures IntToDecimal(n) == "-" + NatToDecimal(m)
    ensures Trimmed(IntToDecimal(n))
    ensures ParseSignedDigits(IntToDecimal(n)) == if |NatToDecimal(m)| <= IntMaxStrDigits then Some(n) else None
  {
    var t := IntToDecimal(n);
    assert t == "-" + NatToDecimal(m);
    NegatedTrimmed(m, t);
    ParseNegatedDecimal(m, t);
  }

  /** `int()` reads the decimal text of `n` back as `n`, unless it has too many digits. */
  lemma ParseSignedDecimal(n: int)
    ensures Trimmed(IntToDecimal(n))
    ensures ParseSignedDigits(IntToDecimal(n)) == if FitsIntLimit(n) then Some(n) else None
  {
    if n < 0 {
      ParseNegativeDecimal(n, -n);
    } else {
      DecimalDigits(n);
      ParseNatDecimal(n);
    }
  }


  /** `int()` reads the decimal text of `n` back as `n` (unless it has too many
      digits), even with whitespace around it that `int()` skips, as a version
      file's first field may have. */
  lemma ParseIntDecimal(n: int, p: string, q: string)
    requires AllIntSpace(p) && AllIntSpace(q)
    ensures ParseInt(p + IntToDecimal(n) + q) == if FitsIntLimit(n) then Some(n) else None
  {
    var t := IntToDecimal(n);
    var s := p + t + q;
    ParseSignedDecimal(n);
    PaddedBounds(p, t, q);
    assert s[..|p|] == p && s[|p| + |t|..] == q && s[|p|..|p| + |t|] == t;
  }

  /** An information separator in the padding, before the text or after it,
      makes `int()` fail, although `strip()` would remove it. */
  lemma ParseIntRejectsSeparator(p: string, t: string, q: string, j: nat)
    requires AllSpace(p) && AllSpace(q) && Trimmed(t)
    requires || (j < |p| && '\U{1c}' <= p[j] <= '\U{1f}')
             || (j < |q| && '\U{1c}' <= q[j] <= '\U{1f}')
    ensures Strip(p + t + q) == t
    ensures ParseInt(p + t + q) == None
  {
    var s := p + t + q;
    StripPadded(p, t, q);
    if |t| > 0 {
      PaddedBounds(p, t, q);
      if j < |p| && '\U{1c}' <= p[j] <= '\U{1f}' {
        assert s[..|p|][j] == p[j];
      } else {
        assert s[|p| + |t|..][j] == q[j];
      }
    }
  }
}
