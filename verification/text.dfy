/** Option and Result, the two failure-carrying datatypes the counter uses. */
module Common {

  /** A value that may be absent; `None` also stands for JavaScript's `undefined`. */
  datatype Option<+T> = None | Some(value: T)

  /** The outcome of an operation that can be rejected with a reason. */
  datatype Result<+T, +E> = Ok(value: T) | Err(error: E)
}

/** The string handling the counter relies on: `String.prototype.trim`, decimal
    rendering of counts (`String(n)`), and a decimal whole-number parser standing
    in for `parseInt`/`Number`. */
module Text {
  import opened Common

  /** The white-space characters removed by `trim`: the ASCII ones, no-break
      space, the byte-order mark and the line and paragraph separators. */
  predicate IsSpace(c: char) {
    c == ' ' || c == '\t' || c == '\n' || c == '\r' || c == '\U{B}' || c == '\U{C}'
    || c == '\U{A0}' || c == '\U{FEFF}' || c == '\U{2028}' || c == '\U{2029}'
  }

  predicate AllSpace(s: string) {
    forall i :: 0 <= i < |s| ==> IsSpace(s[i])
  }

  /** Drops the white space at the front of `s`. */
  function TrimStart(s: string): (r: string)
    ensures |r| <= |s| && r == s[|s| - |r|..]
    ensures |r| > 0 ==> !IsSpace(r[0])
    ensures AllSpace(s[..|s| - |r|])
  {
    if |s| > 0 && IsSpace(s[0]) then TrimStart(s[1..]) else s
  }

  /** Drops the white space at the back of `s`. */
  function TrimEnd(s: string): (r: string)
    ensures |r| <= |s| && r == s[..|r|]
    ensures |r| > 0 ==> !IsSpace(r[|r| - 1])
    ensures AllSpace(s[|r|..])
  {
    if |s| > 0 && IsSpace(s[|s| - 1]) then
      var r := TrimEnd(s[..|s| - 1]);
      assert s[|r|..] == s[..|s| - 1][|r|..] + [s[|s| - 1]];
      r
    else s
  }

  /** `s.trim()`: the longest infix of `s` that neither starts nor ends with white
      space, found after dropping only white space on both sides. */
  function Trim(s: string): (r: string)
    ensures |r| <= |s|
    ensures |r| > 0 ==> !IsSpace(r[0]) && !IsSpace(r[|r| - 1])
    ensures r == [] <==> AllSpace(s)
  {
    TrimShape(s);
    TrimEnd(TrimStart(s))
  }

  lemma TrimShape(s: string)
    ensures TrimEnd(TrimStart(s)) == [] <==> AllSpace(s)
  {
    var t := TrimStart(s);
    var k := |s| - |t|;
    if |t| > 0 {
      assert t[0] == s[k] && !IsSpace(t[0]);
    } else {
      assert s[..k] == s;
    }
  }

  /** JavaScript's "blank" test on optional text: `!text || text.trim() === ''`.
      Such text is absent or consists of white space alone. */
  function IsBlank(text: Option<string>): (r: bool)
    ensures r <==> text.None? || AllSpace(text.value)
  {
    text.None? || Trim(text.value) == []
  }

  /** JavaScript's `length` of a string: its UTF-16 code units, two for each
      character outside the Basic Multilingual Plane and one for every other. */
  function Utf16Length(s: string): (n: nat)
    ensures |s| <= n <= 2 * |s|
    ensures (forall i :: 0 <= i < |s| ==> (s[i] as int) < 0x10000) ==> n == |s|
  {
    if |s| == 0 then 0
    else (if (s[0] as int) < 0x10000 then 1 else 2) + Utf16Length(s[1..])
  }

  predicate IsDigit(c: char) {
    '0' <= c <= '9'
  }

  predicate AllDigits(s: string) {
    forall i :: 0 <= i < |s| ==> IsDigit(s[i])
  }

  function DigitValue(c: char): (d: nat)
    requires IsDigit(c)
    ensures d < 10
  {
    (c as int) - ('0' as int)
  }

  function DigitChar(d: nat): (c: char)
    requires d < 10
    ensures IsDigit(c) && DigitValue(c) == d
  {
    ((d + '0' as int) as char)
  }

  /** `String(n)` for a whole number: its decimal digits, most significant first,
      without leading zeros. */
  function NatToString(n: nat): (r: string)
    ensures |r| > 0 && AllDigits(r)
    ensures r[0] == '0' ==> n == 0
    decreases n
  {
    if n < 10 then [DigitChar(n)] else NatToString(n / 10) + [DigitChar(n % 10)]
  }

  /** `String(i)` for a possibly negative whole number. */
  function IntToString(i: int): (r: string)
    ensures |r| > 0
    ensures r[0] == '-' <==> i < 0
  {
    if i < 0 then "-" + NatToString(-i) else NatToString(i)
  }

  /** The number a non-empty string of decimal digits denotes. */
  function DigitsValue(s: string): nat
    requires AllDigits(s)
  {
    if |s| == 0 then 0 else DigitsValue(s[..|s| - 1]) * 10 + DigitValue(s[|s| - 1])
  }

  /** A whole number written in decimal: at least one digit, after an optional
      sign. Leading zeros are allowed. */
  predicate Numeral(t: string) {
    || (|t| > 0 && AllDigits(t))
    || (|t| > 1 && (t[0] == '-' || t[0] == '+') && AllDigits(t[1..]))
  }

  /** The number a trimmed text denotes: at least one digit after an optional
      sign, and nothing else. */
  function ParseNumeral(t: string): (r: Option<int>)
    // every sign-and-digits text is accepted, and nothing else
    ensures r.Some? <==> Numeral(t)
    // the sign decides the sign of the value, and the digits its magnitude
    ensures r.Some? ==> (r.value < 0 ==> t[0] == '-') && (t[0] == '+' ==> r.value >= 0)
    ensures r.Some? && IsDigit(t[0]) ==> r.value == DigitsValue(t)
    ensures r.Some? && !IsDigit(t[0]) ==>
              r.value == (if t[0] == '-' then -1 else 1) * DigitsValue(t[1..])
  {
    if |t| > 1 && (t[0] == '-' || t[0] == '+') && AllDigits(t[1..]) then
      var magnitude: int := DigitsValue(t[1..]);
      Some(if t[0] == '-' then -magnitude else magnitude)
    else if |t| > 0 && AllDigits(t) then
      Some(DigitsValue(t))
    else
      None
  }

  /** Decimal parse of a whole number: surrounding white space, an optional
      sign, then at least one digit and nothing else. */
  function ParseInt(s: string): (r: Option<int>)
    ensures r.Some? ==> Trim(s) != []
    ensures r.Some? ==> AllDigits(Trim(s)[1..]) && (IsDigit(Trim(s)[0]) || Trim(s)[0] in "+-")
    ensures r.Some? <==> Numeral(Trim(s))
    ensures r.Some? && Trim(s)[0] == '-' ==> r.value <= 0
    ensures r.Some? && Trim(s)[0] != '-' ==> r.value >= 0
  {
    ParseNumeral(Trim(s))
  }

  /** Reading back the digits `NatToString` writes gives the number. */
  lemma {:induction false} DigitsRoundTrip(n: nat)
    ensures DigitsValue(NatToString(n)) == n
    decreases n
  {
    if n >= 10 {
      DigitsRoundTrip(n / 10);
      var s := NatToString(n);
      assert s[..|s| - 1] == NatToString(n / 10);
    }
  }

  /** A string with no white space at either end is its own trim. */
  lemma TrimUnpadded(s: string)
    requires |s| > 0 && !IsSpace(s[0]) && !IsSpace(s[|s| - 1])
    ensures Trim(s) == s
  {
  }

  /** Trimming removes any white-space padding around such a string. */
  lemma {:induction false} TrimPadded(pre: string, s: string, post: string)
    requires AllSpace(pre) && AllSpace(post)
    requires |s| > 0 && !IsSpace(s[0]) && !IsSpace(s[|s| - 1])
    ensures Trim(pre + s + post) == s
  {
    TrimStartPadded(pre, s + post);
    assert pre + s + post == pre + (s + post);
    assert TrimStart(pre + s + post) == s + post;
    assert Trim(pre + s + post) == TrimEnd(s + post);
    TrimEndPadded(s, post);
  }

  lemma {:induction false} TrimStartPadded(pre: string, s: string)
    requires AllSpace(pre)
    requires |s| > 0 && !IsSpace(s[0])
    ensures TrimStart(pre + s) == s
    decreases |pre|
  {
    if |pre| > 0 {
      assert (pre + s)[1..] == pre[1..] + s;
      TrimStartPadded(pre[1..], s);
    }
  }

  lemma {:induction false} TrimEndPadded(s: string, post: string)
    requires AllSpace(post)
    requires |s| > 0 && !IsSpace(s[|s| - 1])
    ensures TrimEnd(s + post) == s
    decreases |post|
  {
    if |post| > 0 {
      assert (s + post)[..|s + post| - 1] == s + post[..|post| - 1];
      TrimEndPadded(s, post[..|post| - 1]);
    }
  }

  /** Parsing what `IntToString` renders, with any white-space padding, gives the
      number back. */
  lemma ParseRoundTrip(i: int, pre: string, post: string)
    requires AllSpace(pre) && AllSpace(post)
    ensures ParseInt(pre + IntToString(i) + post) == Some(i)
  {
    var s := IntToString(i);
    RenderedNumeralValue(i);
    TrimPadded(pre, s, post);
    ParseOfTrimmed(pre + s + post, s);
  }

  /** What `IntToString` writes has no white space at its ends and reads back
      as the number. */
  lemma RenderedNumeralValue(i: int)
    ensures var s := IntToString(i);
            !IsSpace(s[0]) && !IsSpace(s[|s| - 1]) && ParseNumeral(s) == Some(i)
  {
    var n: nat := if i < 0 then -i else i;
    assert Zeros(0) + NatToString(n) == NatToString(n);
    if i < 0 {
      SignedNumeralValue(n, '-', 0);
    } else {
      UnsignedNumeralValue(n, 0);
    }
  }

  /** `n` zero digits. */
  function Zeros(n: nat): (r: string)
    ensures |r| == n && AllDigits(r)
    ensures forall i :: 0 <= i < n ==> r[i] == '0'
  {
    seq(n, _ => '0')
  }

  /** A leading zero does not change the number a digit string denotes. */
  lemma {:induction false} LeadingZeroValue(s: string)
    requires AllDigits(s)
    ensures AllDigits("0" + s) && DigitsValue("0" + s) == DigitsValue(s)
    decreases |s|
  {
    if |s| > 0 {
      var z := "0" + s;
      assert z[..|z| - 1] == "0" + s[..|s| - 1];
      LeadingZeroValue(s[..|s| - 1]);
    }
  }

  /** Any number of leading zeros leave the value unchanged. */
  lemma {:induction false} LeadingZerosValue(k: nat, s: string)
    requires AllDigits(s)
    ensures AllDigits(Zeros(k) + s) && DigitsValue(Zeros(k) + s) == DigitsValue(s)
    decreases k
  {
    if k == 0 {
      assert Zeros(k) + s == s;
    } else {
      assert Zeros(k) + s == "0" + (Zeros(k - 1) + s);
      LeadingZerosValue(k - 1, s);
      LeadingZeroValue(Zeros(k - 1) + s);
    }
  }

  /** The digits `NatToString` writes, behind any number of leading zeros,
      denote the number. */
  lemma ZeroPaddedValue(n: nat, k: nat)
    ensures AllDigits(Zeros(k) + NatToString(n))
    ensures DigitsValue(Zeros(k) + NatToString(n)) == n
  {
    LeadingZerosValue(k, NatToString(n));
    DigitsRoundTrip(n);
  }

  /** Any number of leading zeros, then the digits of `n`, read as `n`. */
  lemma UnsignedNumeralValue(n: nat, k: nat)
    ensures var d := Zeros(k) + NatToString(n);
            && |d| > 0 && !IsSpace(d[0]) && !IsSpace(d[|d| - 1])
            && ParseNumeral(d) == Some(n)
  {
    var d := Zeros(k) + NatToString(n);
    ZeroPaddedValue(n, k);
    assert IsDigit(d[0]) && IsDigit(d[|d| - 1]);
  }

  /** A sign, any number of leading zeros, then the digits of `n`, read as `n`
      or its negation. */
  lemma SignedNumeralValue(n: nat, sign: char, k: nat)
    requires sign == '+' || sign == '-'
    ensures var b := [sign] + (Zeros(k) + NatToString(n));
            var v: int := if sign == '-' then -(n as int) else n;
            && |b| > 1 && !IsSpace(b[0]) && !IsSpace(b[|b| - 1])
            && ParseNumeral(b) == Some(v)
  {
    var d := Zeros(k) + NatToString(n);
    var b := [sign] + d;
    ZeroPaddedValue(n, k);
    assert IsDigit(d[|d| - 1]) && b[|b| - 1] == d[|d| - 1];
    assert b[0] == sign && b[1..] == d;
  }

  /** Parsing depends on the trimmed text alone. */
  lemma ParseOfTrimmed(s: string, t: string)
    requires Trim(s) == t
    ensures ParseInt(s) == ParseNumeral(t)
  {
  }

  /** Parsing a number written with any number of leading zeros, padded with
      white space, gives that number. */
  lemma ParseZeroPadded(n: nat, k: nat, pre: string, post: string)
    requires AllSpace(pre) && AllSpace(post)
    ensures ParseInt(pre + (Zeros(k) + NatToString(n)) + post) == Some(n)
  {
    var d := Zeros(k) + NatToString(n);
    UnsignedNumeralValue(n, k);
    TrimPadded(pre, d, post);
    ParseOfTrimmed(pre + d + post, d);
  }

  /** Parsing a number written with a `+` or `-` sign and any number of
      leading zeros, padded with white space, gives that number, negated
      under `-`. */
  lemma ParseSignedPadded(n: nat, sign: char, k: nat, pre: string, post: string)
    requires sign == '+' || sign == '-'
    requires AllSpace(pre) && AllSpace(post)
    ensures var v: int := if sign == '-' then -(n as int) else n;
            ParseInt(pre + ([sign] + (Zeros(k) + NatToString(n))) + post) == Some(v)
  {
    var b := [sign] + (Zeros(k) + NatToString(n));
    SignedNumeralValue(n, sign, k);
    TrimPadded(pre, b, post);
    ParseOfTrimmed(pre + b + post, b);
  }
}
