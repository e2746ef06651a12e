/**
 * The pieces of the Python runtime that the cleaning pass leans on when it
 * touches text: `str.isspace`, `str.strip`, the syntax `int()` and `float()`
 * accept, and `str.split` with a fixed separator.
 */
module Text {
  import opened Outcomes

  /** Python's `str.isspace` on a single character. */
  predicate IsSpace(c: char)
  {
    || c == ' '
    || ('\t' <= c <= '\r')
    || ('\U{1c}' <= c <= '\U{1f}')
    || c == '\U{85}' || c == '\U{a0}' || c == '\U{1680}'
    || ('\U{2000}' <= c <= '\U{200a}')
    || c == '\U{2028}' || c == '\U{2029}' || c == '\U{202f}' || c == '\U{205f}' || c == '\U{3000}'
  }

  /** No whitespace at either end: what `Strip` leaves and leaves alone. */
  predicate Trimmed(s: string)
  {
    s == [] || (!IsSpace(s[0]) && !IsSpace(s[|s| - 1]))
  }

  /** Removes the longest whitespace prefix. */
  function StripLeft(s: string): (r: string)
    ensures |r| <= |s| && r == s[|s| - |r|..]
    ensures r != [] ==> !IsSpace(r[0])
  {
    if s != [] && IsSpace(s[0]) then StripLeft(s[1..]) else s
  }

  /** Removes the longest whitespace suffix. */
  function StripRight(s: string): (r: string)
    ensures |r| <= |s| && r == s[..|r|]
    ensures r != [] ==> !IsSpace(r[|r| - 1])
  {
    if s != [] && IsSpace(s[|s| - 1]) then StripRight(s[..|s| - 1]) else s
  }

  lemma {:induction false} StripLeftRemovesSpace(s: string)
    ensures forall k :: 0 <= k < |s| - |StripLeft(s)| ==> IsSpace(s[k])
  {
    if s != [] && IsSpace(s[0]) {
      StripLeftRemovesSpace(s[1..]);
      forall k | 0 <= k < |s| - |StripLeft(s)| ensures IsSpace(s[k]) {
        if k > 0 { assert s[k] == s[1..][k - 1]; }
      }
    }
  }

  lemma {:induction false} StripRightRemovesSpace(s: string)
    ensures forall k :: |StripRight(s)| <= k < |s| ==> IsSpace(s[k])
  {
    if s != [] && IsSpace(s[|s| - 1]) {
      StripRightRemovesSpace(s[..|s| - 1]);
      forall k | |StripRight(s)| <= k < |s| ensures IsSpace(s[k]) {
        if k < |s| - 1 { assert s[k] == s[..|s| - 1][k]; }
      }
    }
  }

  /** The number of leading whitespace characters `Strip` removes. */
  function Lead(s: string): nat { |s| - |StripLeft(s)| }

  /**
   * Python's `str.strip()` with no argument: the result is the slice of `s`
   * left once every leading and trailing whitespace character is gone.
   */
  function Strip(s: string): (r: string)
    ensures Trimmed(r)
    ensures Trimmed(s) ==> r == s
  {
    StripTrimmed(s);
    StripRight(StripLeft(s))
  }

  lemma StripTrimmed(s: string)
    ensures Trimmed(StripRight(StripLeft(s)))
    ensures Trimmed(s) ==> StripRight(StripLeft(s)) == s
  {
    var l := StripLeft(s);
    var r := StripRight(l);
    if r != [] {
      assert r[0] == l[0];
    }
  }

  /** What `Strip` leaves is a slice of `s`, starting after the `Lead(s)` characters it removes. */
  lemma StripSlice(s: string)
    ensures Lead(s) + |Strip(s)| <= |s|
    ensures Strip(s) == s[Lead(s)..Lead(s) + |Strip(s)|]
  {
    var l := StripLeft(s);
    assert l == s[Lead(s)..];
    assert StripRight(l) == l[..|StripRight(l)|];
  }

  /** Only whitespace is removed, from either end. */
  lemma StripRemovesSpace(s: string)
    ensures forall k :: 0 <= k < Lead(s) ==> IsSpace(s[k])
    ensures forall k :: Lead(s) + |Strip(s)| <= k < |s| ==> IsSpace(s[k])
  {
    var l := StripLeft(s);
    var i := Lead(s);
    StripSlice(s);
    StripLeftRemovesSpace(s);
    StripRightRemovesSpace(l);
    assert l == s[i..];
    forall k | i + |Strip(s)| <= k < |s|
      ensures IsSpace(s[k])
    {
      assert s[k] == l[k - i];
    }
  }

  /** Stripping twice is stripping once. */
  lemma StripIdempotent(s: string)
    ensures Strip(Strip(s)) == Strip(s)
  {
  }

  predicate IsDigit(c: char) { '0' <= c <= '9' }

  function DigitValue(c: char): nat
    requires IsDigit(c)
  {
    c as int - '0' as int
  }

  function DigitChar(d: nat): (c: char)
    requires d < 10
    ensures IsDigit(c) && DigitValue(c) == d
  {
    ('0' as int + d) as char
  }

  predicate AllDigits(s: string) { forall k :: 0 <= k < |s| ==> IsDigit(s[k]) }

  /**
   * A run of decimal digits in which single underscores may separate two
   * digits, the digit syntax Python's `int()` and `float()` accept.
   */
  predicate IsDigitRun(s: string)
  {
    && |s| > 0 && IsDigit(s[0]) && IsDigit(s[|s| - 1])
    && forall k :: 0 <= k < |s| ==>
         IsDigit(s[k]) || (s[k] == '_' && 0 < k < |s| - 1 && IsDigit(s[k - 1]) && IsDigit(s[k + 1]))
  }

  /** The value of a digit run, underscores ignored. */
  function RunValue(s: string): nat
  {
    if s == [] then 0
    else if IsDigit(s[|s| - 1]) then 10 * RunValue(s[..|s| - 1]) + DigitValue(s[|s| - 1])
    else RunValue(s[..|s| - 1])
  }

  /** Python's `int(s)` in base 10: surrounding whitespace, an optional sign, a digit run. */
  function ParseInt(s: string): Option<int>
  {
    var t := Strip(s);
    if |t| > 0 && (t[0] == '-' || t[0] == '+') then
      if IsDigitRun(t[1..]) then
        Some(if t[0] == '-' then -(RunValue(t[1..]) as int) else RunValue(t[1..]))
      else None
    else if IsDigitRun(t) then Some(RunValue(t))
    else None
  }

  const Int64Min: int := -0x8000_0000_0000_0000
  const Int64Max: int := 0x7fff_ffff_ffff_ffff

  predicate InInt64(n: int) { Int64Min <= n <= Int64Max }

  /**
   * `astype('int64')` on a text cell: `int()` followed by the overflow check
   * of a 64-bit column.
   */
  function ParseInt64(s: string): (r: Option<int>)
    ensures r.Some? <==> ParseInt(s).Some? && InInt64(ParseInt(s).value)
    ensures r.Some? ==> r.value == ParseInt(s).value
  {
    match ParseInt(s)
    case Some(n) => if InInt64(n) then Some(n) else None
    case None => None
  }

  /** Python's `str(n)` for a natural number. */
  function Digits(n: nat): (r: string)
    ensures |r| > 0 && AllDigits(r)
  {
    if n < 10 then [DigitChar(n)] else Digits(n / 10) + [DigitChar(n % 10)]
  }

  /** Python's `str(n)` for an integer. */
  function Decimal(n: int): string
  {
    if n < 0 then "-" + Digits(-n) else Digits(n)
  }

  lemma {:induction false} DigitsValue(n: nat)
    ensures IsDigitRun(Digits(n)) && RunValue(Digits(n)) == n
  {
    var s := Digits(n);
    if n >= 10 {
      DigitsValue(n / 10);
      assert s[..|s| - 1] == Digits(n / 10);
    }
  }

  /** `int()` reads back exactly what `str()` wrote. */
  lemma DecimalRoundTrip(n: int)
    ensures ParseInt(Decimal(n)) == Some(n)
  {
    var s := Decimal(n);
    StripDecimal(n);
    if n < 0 {
      DigitsValue(-n);
      assert s[1..] == Digits(-n);
    } else {
      DigitsValue(n);
      assert IsDigit(s[0]);
    }
  }

  lemma StripDecimal(n: int)
    ensures Strip(Decimal(n)) == Decimal(n)
  {
    var s := Decimal(n);
    var d := if n < 0 then Digits(-n) else Digits(n);
    assert s[|s| - 1] == d[|d| - 1];
    assert IsDigit(s[|s| - 1]) && (IsDigit(s[0]) || s[0] == '-');
    NotSpace(s[0]);
    NotSpace(s[|s| - 1]);
  }

  /** `str()` writes only digits and a minus sign. */
  lemma DecimalChars(n: int)
    ensures forall k :: 0 <= k < |Decimal(n)| ==> IsDigit(Decimal(n)[k]) || Decimal(n)[k] == '-'
  {
    if n < 0 {
      var d := Digits(-n);
      assert forall k :: 1 <= k < |Decimal(n)| ==> Decimal(n)[k] == d[k - 1];
    }
  }

  lemma NotSpace(c: char)
    requires IsDigit(c) || c == '-'
    ensures !IsSpace(c)
  {
  }

  /** The sentinel for a missing value is not a number. */
  lemma SentinelIsNotInt()
    ensures ParseInt("NaN ") == None && ParseInt("NaN") == None
  {
    assert Strip("NaN ") == "NaN" by {
      assert !IsSpace("NaN "[0]) && IsSpace("NaN "[3]);
      assert StripLeft("NaN ") == "NaN ";
      assert StripRight("NaN ") == StripRight("NaN");
    }
    assert !IsDigitRun("NaN");
  }

  /** An ASCII letter. */
  predicate IsLetter(c: char) { 'a' <= c <= 'z' || 'A' <= c <= 'Z' }

  /**
   * Nor is a word: a letter anywhere in the text is no whitespace, so it
   * survives the strip, and it is neither a sign, a digit nor an underscore.
   */
  lemma WordIsNotInt(s: string, k: nat)
    requires k < |s| && IsLetter(s[k])
    ensures ParseInt(s) == None
  {
    var t, i := Strip(s), Lead(s);
    StripSlice(s);
    StripRemovesSpace(s);
    assert !IsSpace(s[k]);
    assert i <= k < i + |t|;
    var j := k - i;
    assert t[j] == s[k];
    if |t| > 0 && (t[0] == '-' || t[0] == '+') {
      assert t[1..][j - 1] == t[j];
      NotDigitRun(t[1..], j - 1);
    } else {
      NotDigitRun(t, j);
    }
  }

  /** A text holding something other than a digit or an underscore is no digit run. */
  lemma NotDigitRun(u: string, j: nat)
    requires j < |u| && !IsDigit(u[j]) && u[j] != '_'
    ensures !IsDigitRun(u)
  {
    if 0 < j < |u| - 1 {
      var before, after := u[j - 1], u[j + 1];
    }
  }

  // ---------------------------------------------------------------------
  // float()

  function LowerAscii(s: string): (r: string)
    ensures |r| == |s|
  {
    if s == [] then []
    else [if 'A' <= s[0] <= 'Z' then (s[0] as int + 32) as char else s[0]] + LowerAscii(s[1..])
  }

  function IndexOf(s: string, c: char): (r: Option<nat>)
    ensures r.Some? ==> r.value < |s| && s[r.value] == c && c !in s[..r.value]
    ensures r.None? ==> c !in s
  {
    if s == [] then None
    else if s[0] == c then Some(0)
    else match IndexOf(s[1..], c)
      case None => None
      case Some(i) => assert s[..i + 1] == [s[0]] + s[1..][..i]; Some(i + 1)
  }

  /** Digits with an optional decimal point; at least one digit overall. */
  predicate IsMantissa(m: string)
  {
    match IndexOf(m, '.')
    case None => IsDigitRun(m)
    case Some(i) =>
      var whole, frac := m[..i], m[i + 1..];
      && (whole != [] || frac != [])
      && (whole == [] || IsDigitRun(whole))
      && (frac == [] || IsDigitRun(frac))
  }

  predicate IsExponent(x: string)
  {
    if |x| > 0 && (x[0] == '+' || x[0] == '-') then IsDigitRun(x[1..]) else IsDigitRun(x)
  }

  predicate IsDecimalFloat(u: string)
  {
    match IndexOf(LowerAscii(u), 'e')
    case None => IsMantissa(u)
    case Some(i) => IsMantissa(u[..i]) && IsExponent(u[i + 1..])
  }

  /** What Python's `float()` accepts: decimal notation, `inf`, `infinity` or `nan`, signed, in any case. */
  predicate IsFloatText(s: string)
  {
    var t := Strip(s);
    var u := if |t| > 0 && (t[0] == '+' || t[0] == '-') then t[1..] else t;
    var v := LowerAscii(u);
    v == "inf" || v == "infinity" || v == "nan" || IsDecimalFloat(u)
  }

  /** Every integer written by `str()` is also valid `float()` input. */
  lemma DecimalIsFloatText(n: int)
    ensures IsFloatText(Decimal(n))
  {
    var s := Decimal(n);
    StripDecimal(n);
    var u := if n < 0 then Digits(-n) else Digits(n);
    assert u == (if |s| > 0 && (s[0] == '+' || s[0] == '-') then s[1..] else s) by {
      if n < 0 { assert s[1..] == u; } else { assert IsDigit(s[0]); }
    }
    DigitsAreFloatText(u, if n < 0 then -n else n);
  }

  lemma DigitsAreFloatText(u: string, m: nat)
    requires u == Digits(m)
    ensures IsDecimalFloat(u)
  {
    DigitsValue(m);
    LowerAsciiKeepsDigits(u);
    assert 'e' !in u && '.' !in u;
  }

  lemma {:induction false} LowerAsciiKeepsDigits(u: string)
    requires AllDigits(u)
    ensures LowerAscii(u) == u
  {
    if u != [] { LowerAsciiKeepsDigits(u[1..]); }
  }

  // ---------------------------------------------------------------------
  // str.split(sep)[1]

  predicate MatchAt(s: string, sep: string, k: int)
  {
    0 <= k && k + |sep| <= |s| && s[k..k + |sep|] == sep
  }

  /** The first position at or after `from` where `sep` occurs. */
  function FindFrom(s: string, sep: string, from: nat): (r: Option<nat>)
    requires sep != []
    ensures r.Some? ==> from <= r.value && MatchAt(s, sep, r.value)
    ensures r.Some? ==> forall k :: from <= k < r.value ==> !MatchAt(s, sep, k)
    ensures r.None? ==> forall k :: from <= k ==> !MatchAt(s, sep, k)
    decreases |s| - from
  {
    if from + |sep| > |s| then None
    else if s[from..from + |sep|] == sep then Some(from)
    else FindFrom(s, sep, from + 1)
  }

  /**
   * `s.split(sep)[1]`: the text between the first occurrence of `sep` and
   * the next one (or the end); `None` when `sep` does not occur, where
   * Python raises IndexError.
   */
  function SplitSecond(s: string, sep: string): (r: Option<string>)
    requires sep != []
    ensures r.None? <==> forall k :: !MatchAt(s, sep, k)
  {
    match FindFrom(s, sep, 0)
    case None => None
    case Some(i) =>
      var rest := s[i + |sep|..];
      match FindFrom(rest, sep, 0)
      case None => Some(rest)
      case Some(j) => Some(rest[..j])
  }

  /** Splitting `a + sep + b` gives `b` when `sep` first occurs after `a` and never in `b`. */
  lemma SplitSecondOf(a: string, sep: string, b: string)
    requires sep != []
    requires forall k :: 0 <= k < |a| ==> !MatchAt(a + sep + b, sep, k)
    requires forall k :: !MatchAt(b, sep, k)
    ensures SplitSecond(a + sep + b, sep) == Some(b)
  {
    var s := a + sep + b;
    assert MatchAt(s, sep, |a|) by { assert s[|a|..|a| + |sep|] == sep; }
    var i := FindFrom(s, sep, 0);
    assert i == Some(|a|);
    assert s[|a| + |sep|..] == b;
  }
}
