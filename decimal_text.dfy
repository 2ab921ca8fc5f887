/** The text that travels between the browser widget and the backend node:
    Python's `str.split` on one separator character, Python's `int()` on the
    text one piece carries, and the decimal spelling a JavaScript
    template literal gives an integer-valued number. */
module DecimalText {
  import opened Wrappers

  /** Number of occurrences of `c` in `s`. */
  function Occurrences(s: string, c: char): nat
    decreases |s|
  {
    if s == [] then 0 else (if s[0] == c then 1 else 0) + Occurrences(s[1..], c)
  }

  /** Python's `s.split(sep)` for a one-character separator: the pieces between
      separators, including empty ones, so there is always one piece more than
      there are separators. */
  function Split(s: string, sep: char): (parts: seq<string>)
    ensures |parts| == Occurrences(s, sep) + 1
    ensures forall i :: 0 <= i < |parts| ==> sep !in parts[i]
    decreases |s|
  {
    if s == [] then [""]
    else
      var rest := Split(s[1..], sep);
      if s[0] == sep then [""] + rest
      else [[s[0]] + rest[0]] + rest[1..]
  }

  /** Python's `sep.join(parts)`, the inverse of `Split`. */
  function Join(parts: seq<string>, sep: char): string
    requires |parts| >= 1
    decreases |parts|
  {
    if |parts| == 1 then parts[0] else parts[0] + [sep] + Join(parts[1..], sep)
  }

  lemma {:induction false} SplitNoSeparator(s: string, sep: char)
    requires sep !in s
    ensures Split(s, sep) == [s]
    decreases |s|
  {
    if s != [] {
      SplitNoSeparator(s[1..], sep);
      assert [s[0]] + s[1..] == s;
    }
  }

  lemma {:induction false} SplitAfterPiece(p: string, sep: char, q: string)
    requires sep !in p
    ensures Split(p + [sep] + q, sep) == [p] + Split(q, sep)
    decreases |p|
  {
    var s := p + [sep] + q;
    if p == [] {
      assert s[1..] == q;
    } else {
      assert s[1..] == p[1..] + [sep] + q;
      SplitAfterPiece(p[1..], sep, q);
      assert [p[0]] + p[1..] == p;
    }
  }

  /** Splitting a joined list of separator-free pieces gives the pieces back. */
  lemma {:induction false} SplitJoin(parts: seq<string>, sep: char)
    requires |parts| >= 1
    requires forall i :: 0 <= i < |parts| ==> sep !in parts[i]
    ensures Split(Join(parts, sep), sep) == parts
    decreases |parts|
  {
    if |parts| == 1 {
      SplitNoSeparator(parts[0], sep);
    } else {
      SplitJoin(parts[1..], sep);
      SplitAfterPiece(parts[0], sep, Join(parts[1..], sep));
      assert [parts[0]] + parts[1..] == parts;
    }
  }

  /** Joining the pieces of a split gives the original string back. */
  lemma {:induction false} JoinSplit(s: string, sep: char)
    ensures Join(Split(s, sep), sep) == s
    decreases |s|
  {
    if s != [] {
      var rest := Split(s[1..], sep);
      JoinSplit(s[1..], sep);
      if s[0] == sep {
        assert ([""] + rest)[1..] == rest;
      } else if |rest| > 1 {
        var parts := [[s[0]] + rest[0]] + rest[1..];
        assert parts[1..] == rest[1..];
        assert Join(rest, sep) == rest[0] + [sep] + Join(rest[1..], sep);
      }
    }
  }

  predicate IsDigit(c: char) {
    '0' <= c <= '9'
  }

  /** The six ASCII whitespace characters Python's `int()` strips around the
      number in an ASCII string: space, tab, line feed, carriage return,
      vertical tab and form feed. */
  predicate IsSpace(c: char) {
    c == ' ' || c == '\t' || c == '\n' || c == '\r' || c == '\U{000B}' || c == '\U{000C}'
  }

  predicate AllDigits(s: string) {
    forall i :: 0 <= i < |s| ==> IsDigit(s[i])
  }

  function DigitChar(d: nat): (c: char)
    requires d < 10
    ensures IsDigit(c)
  {
    ('0' as int + d) as char
  }

  function DigitValue(c: char): (d: nat)
    requires IsDigit(c)
    ensures d < 10 && DigitChar(d) == c
  {
    c as int - '0' as int
  }

  /** The decimal spelling of a natural number: digits only, no leading zero
      except for zero itself. */
  function FormatNat(n: nat): (s: string)
    ensures |s| >= 1 && AllDigits(s)
    ensures s[0] == '0' <==> n == 0
    decreases n
  {
    if n < 10 then [DigitChar(n)] else FormatNat(n / 10) + [DigitChar(n % 10)]
  }

  /** How JavaScript spells an integer-valued number in a template literal:
      a minus sign for a negative value, then the digits of its magnitude. */
  function FormatInt(i: int): (s: string)
    ensures |s| >= 1 && !IsSpace(s[0]) && IsDigit(s[|s| - 1])
    ensures s[0] == '-' <==> i < 0
    ensures ',' !in s && 'x' !in s
  {
    if i < 0 then "-" + FormatNat(-i) else FormatNat(i)
  }

  /** The value of a string of decimal digits, most significant first. */
  function DigitsValue(s: string): nat
    requires AllDigits(s)
    decreases |s|
  {
    if s == [] then 0
    else
      10 * DigitsValue(s[..|s| - 1]) + DigitValue(s[|s| - 1])
  }

  /** Removes the leading whitespace. */
  function TrimStart(s: string): string
    decreases |s|
  {
    if s != [] && IsSpace(s[0]) then TrimStart(s[1..]) else s
  }

  /** Removes the trailing whitespace. */
  function TrimEnd(s: string): string
    decreases |s|
  {
    if s != [] && IsSpace(s[|s| - 1]) then TrimEnd(s[..|s| - 1]) else s
  }

  /** `TrimStart` keeps a suffix that does not start with whitespace and drops
      only whitespace. */
  lemma {:induction false} TrimStartDropsOnlySpace(s: string)
    ensures var t := TrimStart(s);
      |t| <= |s| && t == s[|s| - |t|..] && (t == [] || !IsSpace(t[0])) &&
      forall i :: 0 <= i < |s| - |t| ==> IsSpace(s[i])
    decreases |s|
  {
    if s != [] && IsSpace(s[0]) {
      TrimStartDropsOnlySpace(s[1..]);
    }
  }

  /** `TrimEnd` keeps a prefix that does not end with whitespace and drops
      only whitespace. */
  lemma {:induction false} TrimEndDropsOnlySpace(s: string)
    ensures var t := TrimEnd(s);
      |t| <= |s| && t == s[..|t|] && (t == [] || !IsSpace(t[|t| - 1])) &&
      forall i :: |t| <= i < |s| ==> IsSpace(s[i])
    decreases |s|
  {
    if s != [] && IsSpace(s[|s| - 1]) {
      TrimEndDropsOnlySpace(s[..|s| - 1]);
    }
  }

  /** Removes the surrounding whitespace. */
  function Strip(s: string): string {
    TrimEnd(TrimStart(s))
  }

  /** CPython's default `sys.int_max_str_digits`: `int()` refuses a decimal
      string with more digits than this. */
  const MaxStrDigits: nat := 4300

  /** A non-empty run of at most `MaxStrDigits` decimal digits, read as a
      natural number. */
  function ParseDigits(t: string): Option<nat> {
    if 1 <= |t| <= MaxStrDigits && AllDigits(t) then Some(DigitsValue(t)) else None
  }

  /** An optional sign followed by a non-empty run of decimal digits. */
  function ParseSigned(t: string): Option<int> {
    if |t| >= 1 && (t[0] == '+' || t[0] == '-') then
      match ParseDigits(t[1..])
      case Some(n) => Some(if t[0] == '-' then -(n as int) else n)
      case None => None
    else
      match ParseDigits(t)
      case Some(n) => Some(n)
      case None => None
  }

  /** Python's `int(s)` on the text the crop string carries: optional
      surrounding whitespace, an optional sign, then one to `MaxStrDigits`
      decimal digits. Anything else is the `ValueError` case, `None`. */
  function ParseInt(s: string): (r: Option<int>)
    ensures r.Some? ==>
      1 <= |Strip(s)| <= MaxStrDigits + (if Strip(s)[0] == '+' || Strip(s)[0] == '-' then 1 else 0)
    ensures r.Some? && r.value < 0 ==> Strip(s)[0] == '-'
  {
    ParseSigned(Strip(s))
  }

  /** The magnitude of `i` is spelled in at most `MaxStrDigits` digits. */
  predicate WithinDigitLimit(i: int) {
    |FormatNat(if i < 0 then -i else i)| <= MaxStrDigits
  }

  /** A longer spelling belongs to a larger number. */
  lemma {:induction false} FormatNatLengthMonotone(m: nat, n: nat)
    requires m <= n
    ensures |FormatNat(m)| <= |FormatNat(n)|
    decreases n
  {
    if m >= 10 {
      FormatNatLengthMonotone(m / 10, n / 10);
    }
  }

  /** `int()` refuses a run of digits longer than `MaxStrDigits`, whatever
      its value. */
  lemma OverlongDigitsRejected(s: string)
    requires |s| > MaxStrDigits && AllDigits(s)
    ensures ParseInt(s).None?
  {
    assert !IsSpace(s[0]) && !IsSpace(s[|s| - 1]);
    StripUnpadded(s);
  }

  lemma {:induction false} DigitsValueOfFormatNat(n: nat)
    ensures DigitsValue(FormatNat(n)) == n
    decreases n
  {
    if n >= 10 {
      var s := FormatNat(n);
      assert s[..|s| - 1] == FormatNat(n / 10);
      DigitsValueOfFormatNat(n / 10);
    }
  }

  /** A digit string that does not start with `0` has a positive value. */
  lemma {:induction false} LeadingDigitPositive(s: string)
    requires |s| >= 1 && AllDigits(s) && s[0] != '0'
    ensures DigitsValue(s) >= 1
    decreases |s|
  {
    if |s| > 1 {
      LeadingDigitPositive(s[..|s| - 1]);
    } else {
      assert DigitChar(DigitValue(s[0])) == s[0];
    }
  }

  /** Every digit string without a superfluous leading zero is the spelling
      `FormatNat` gives its value: that spelling is the only canonical one. */
  lemma {:induction false} FormatNatOfDigitsValue(s: string)
    requires |s| >= 1 && AllDigits(s)
    requires s[0] == '0' ==> |s| == 1
    ensures FormatNat(DigitsValue(s)) == s
    decreases |s|
  {
    if |s| > 1 {
      var prefix := s[..|s| - 1];
      LeadingDigitPositive(prefix);
      FormatNatOfDigitsValue(prefix);
      assert s == prefix + [s[|s| - 1]];
    }
  }

  /** A string with no whitespace at either end is its own stripped form. */
  lemma StripUnpadded(s: string)
    requires |s| >= 1 && !IsSpace(s[0]) && !IsSpace(s[|s| - 1])
    ensures Strip(s) == s
  {
    assert TrimStart(s) == s;
  }

  lemma ParseDigitsFormatNat(n: nat)
    requires |FormatNat(n)| <= MaxStrDigits
    ensures ParseDigits(FormatNat(n)) == Some(n)
  {
    DigitsValueOfFormatNat(n);
  }

  /** `int()` reads back the number a template literal spelled, as long as
      it is within the digit limit. */
  lemma ParseFormatInt(i: int)
    requires WithinDigitLimit(i)
    ensures ParseInt(FormatInt(i)) == Some(i)
  {
    var s := FormatInt(i);
    StripUnpadded(s);
    if i < 0 {
      assert s[1..] == FormatNat(-i);
      ParseDigitsFormatNat(-i);
    } else {
      ParseDigitsFormatNat(i);
    }
  }

  /** Conversely, a string `int()` accepts that carries no whitespace, no `+`
      and no superfluous leading zero is exactly the spelling of its value. */
  lemma CanonicalIntText(s: string, v: int)
    requires ParseInt(s) == Some(v)
    requires forall i :: 0 <= i < |s| ==> !IsSpace(s[i]) && s[i] != '+'
    requires |s| >= 2 && s[0] == '-' ==> s[1] != '0'
    requires |s| >= 2 && s[0] != '-' ==> s[0] != '0'
    ensures FormatInt(v) == s
  {
    assert |Strip(s)| >= 1;
    assert |s| >= 1 && !IsSpace(s[0]) && !IsSpace(s[|s| - 1]) && s[0] != '+';
    StripUnpadded(s);
    assert ParseSigned(s) == Some(v);
    if s[0] == '-' {
      var digits := s[1..];
      var n :| ParseDigits(digits) == Some(n) && v == -n;
      assert |digits| >= 1 && AllDigits(digits) && DigitsValue(digits) == n;
      FormatNatOfDigitsValue(digits);
      LeadingDigitPositive(digits);
      assert "-" + digits == s;
    } else {
      assert ParseDigits(s) == Some(v);
      FormatNatOfDigitsValue(s);
    }
  }
}
