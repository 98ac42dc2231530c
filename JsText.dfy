// The JavaScript string behaviour the game relies on: a template literal
// `${n}` rendering a non-negative integer, String.prototype.trim, and
// parseInt(s, 10).
module JsText {
  import opened Types

  predicate IsDigit(c: char) {
    '0' <= c <= '9'
  }

  predicate AllDigits(s: string) {
    forall i :: 0 <= i < |s| ==> IsDigit(s[i])
  }

  function DigitValue(c: char): (d: nat)
    requires IsDigit(c)
    ensures d < 10
  {
    c as int - '0' as int
  }

  function DigitChar(d: nat): (c: char)
    requires d < 10
    ensures IsDigit(c) && DigitValue(c) == d
  {
    "0123456789"[d]
  }

  /** The decimal text of a non-negative integer, most significant digit first. */
  function Decimal(n: nat): (s: string)
    ensures |s| >= 1 && AllDigits(s)
    ensures |s| > 1 ==> s[0] != '0'
  {
    if n < 10 then [DigitChar(n)] else Decimal(n / 10) + [DigitChar(n % 10)]
  }

  /** The value of a string of decimal digits, most significant digit first. */
  function DigitsValue(s: string): nat
    requires AllDigits(s)
  {
    if s == [] then 0 else DigitsValue(s[..|s| - 1]) * 10 + DigitValue(s[|s| - 1])
  }

  /** Reading the decimal text of n gives n back. */
  lemma {:induction false} DecimalRoundTrip(n: nat)
    ensures DigitsValue(Decimal(n)) == n
  {
    if n >= 10 {
      DecimalRoundTrip(n / 10);
      var s := Decimal(n);
      assert s[..|s| - 1] == Decimal(n / 10);
    }
  }

  /** The number of decimal digits s starts with. */
  function LeadingDigitCount(s: string): (n: nat)
    ensures n <= |s|
    ensures forall i :: 0 <= i < n ==> IsDigit(s[i])
    ensures n < |s| ==> !IsDigit(s[n])
  {
    if s != [] && IsDigit(s[0]) then 1 + LeadingDigitCount(s[1..]) else 0
  }

  /** Any run of digits at the start of s that the next character ends is the
      run LeadingDigitCount counts. */
  lemma LeadingDigitCountUnique(s: string, n: nat)
    requires n <= |s| && forall i :: 0 <= i < n ==> IsDigit(s[i])
    requires n < |s| ==> !IsDigit(s[n])
    ensures LeadingDigitCount(s) == n
  {
  }

  /** The longest prefix of s made of decimal digits. */
  function LeadingDigits(s: string): string {
    s[..LeadingDigitCount(s)]
  }

  /** The digits of n, followed by text that does not start with a digit, lead
      with exactly the digits of n. */
  lemma DecimalLeads(n: nat, rest: string)
    requires rest == [] || !IsDigit(rest[0])
    ensures LeadingDigits(Decimal(n) + rest) == Decimal(n)
  {
    DigitsLead(Decimal(n), rest);
  }

  /** Any digits followed by text that does not start with a digit lead with
      exactly those digits. */
  lemma DigitsLead(d: string, rest: string)
    requires AllDigits(d)
    requires rest == [] || !IsDigit(rest[0])
    ensures LeadingDigits(d + rest) == d
  {
    var s := d + rest;
    forall i | 0 <= i < |d| ensures IsDigit(s[i]) {
      assert s[i] == d[i];
    }
    if |d| < |s| {
      assert s[|d|] == rest[0];
    }
    LeadingDigitCountUnique(s, |d|);
    assert s[..|d|] == d;
  }

  /** WhiteSpace and LineTerminator code points of ECMAScript: TAB, LF, VT, FF,
      CR, every Unicode space separator (category Zs), LS, PS and the BOM. */
  predicate IsJsWhitespace(c: char) {
    || c == '\t' || c == '\n' || c == '\U{000B}' || c == '\U{000C}' || c == '\r'
    || c == ' ' || c == '\U{00A0}' || c == '\U{1680}'
    || ('\U{2000}' <= c <= '\U{200A}')
    || c == '\U{2028}' || c == '\U{2029}' || c == '\U{202F}' || c == '\U{205F}'
    || c == '\U{3000}' || c == '\U{FEFF}'
  }

  /** The number of whitespace characters s starts with. */
  function LeadingWhitespaceCount(s: string): (n: nat)
    ensures n <= |s|
    ensures forall i :: 0 <= i < n ==> IsJsWhitespace(s[i])
    ensures n < |s| ==> !IsJsWhitespace(s[n])
  {
    if s != [] && IsJsWhitespace(s[0]) then 1 + LeadingWhitespaceCount(s[1..]) else 0
  }

  /** The number of whitespace characters s ends with. */
  function TrailingWhitespaceCount(s: string): (n: nat)
    ensures n <= |s|
    ensures forall i :: |s| - n <= i < |s| ==> IsJsWhitespace(s[i])
    ensures n < |s| ==> !IsJsWhitespace(s[|s| - n - 1])
  {
    if s != [] && IsJsWhitespace(s[|s| - 1]) then 1 + TrailingWhitespaceCount(s[..|s| - 1]) else 0
  }

  /** Any run of whitespace at the start of s that the next character ends is
      the run LeadingWhitespaceCount counts. */
  lemma LeadingWhitespaceCountUnique(s: string, n: nat)
    requires n <= |s| && forall i :: 0 <= i < n ==> IsJsWhitespace(s[i])
    requires n < |s| ==> !IsJsWhitespace(s[n])
    ensures LeadingWhitespaceCount(s) == n
  {
  }

  /** s without its leading whitespace: the suffix of s that starts with the
      first character that is not whitespace. */
  function TrimStart(s: string): (r: string)
    ensures |r| <= |s| && r == s[|s| - |r|..]
    ensures forall k :: 0 <= k < |s| - |r| ==> IsJsWhitespace(s[k])
    ensures r == [] || !IsJsWhitespace(r[0])
  {
    s[LeadingWhitespaceCount(s)..]
  }

  /** s without its trailing whitespace: the prefix of s that ends with the
      last character that is not whitespace. */
  function TrimEnd(s: string): (r: string)
    ensures |r| <= |s| && r == s[..|r|]
    ensures forall k :: |r| <= k < |s| ==> IsJsWhitespace(s[k])
    ensures r == [] || !IsJsWhitespace(r[|r| - 1])
  {
    s[..|s| - TrailingWhitespaceCount(s)]
  }

  /** String.prototype.trim: s without leading and trailing whitespace. */
  function Trim(s: string): string {
    TrimEnd(TrimStart(s))
  }

  /** Trim cuts s down to a slice s[i..i + |Trim(s)|] with only whitespace
      around it. */
  lemma TrimSlice(s: string)
    ensures var r := Trim(s);
      var i := LeadingWhitespaceCount(s);
      && i + |r| <= |s|
      && r == s[i..i + |r|]
      && (forall k :: 0 <= k < i ==> IsJsWhitespace(s[k]))
      && (forall k :: i + |r| <= k < |s| ==> IsJsWhitespace(s[k]))
  {
    var i := LeadingWhitespaceCount(s);
    var t := TrimStart(s);
    var r := TrimEnd(t);
    assert r == s[i..i + |r|];
    forall k | i + |r| <= k < |s| ensures IsJsWhitespace(s[k]) {
      assert s[k] == t[k - i];
    }
  }

  /** Trimmed text neither starts nor ends with whitespace. */
  lemma TrimEnds(s: string)
    requires Trim(s) != []
    ensures !IsJsWhitespace(Trim(s)[0]) && !IsJsWhitespace(Trim(s)[|Trim(s)| - 1])
  {
    var t := TrimStart(s);
    var j := TrailingWhitespaceCount(t);
    assert Trim(s)[0] == t[0] == s[LeadingWhitespaceCount(s)];
    assert Trim(s)[|Trim(s)| - 1] == t[|t| - j - 1];
  }

  /** The trimmed text is empty exactly when s is whitespace only. */
  lemma TrimEmpty(s: string)
    ensures Trim(s) == [] <==> forall k :: 0 <= k < |s| ==> IsJsWhitespace(s[k])
  {
    TrimSlice(s);
  }

  /** parseInt(s, 10): skip leading whitespace, then read the rest as a signed
      number. With no digits the result is NaN, here None. */
  function ParseInt(s: string): Option<int> {
    ParseSigned(TrimStart(s))
  }

  /** An optional sign, then the leading decimal digits; whatever follows the
      digits is ignored. */
  function ParseSigned(t: string): Option<int> {
    var negative := |t| > 0 && t[0] == '-';
    var unsigned := if |t| > 0 && (t[0] == '-' || t[0] == '+') then t[1..] else t;
    var digits := LeadingDigits(unsigned);
    if digits == [] then None
    else
      var value: int := DigitsValue(digits);
      Some(if negative then -value else value)
  }

  /** Text that starts with something other than whitespace is not trimmed at
      the start. */
  lemma TrimStartKeeps(s: string)
    requires s != [] && !IsJsWhitespace(s[0])
    ensures TrimStart(s) == s
  {
    assert LeadingWhitespaceCount(s) == 0;
    assert s[0..] == s;
  }

  /** parseInt reads back a decimal integer, whatever non-digit text follows it. */
  lemma ParseIntOfDecimal(n: nat, rest: string)
    requires rest == [] || !IsDigit(rest[0])
    ensures ParseInt(Decimal(n) + rest) == Some(n)
  {
    var d := Decimal(n) + rest;
    assert d[0] == Decimal(n)[0];
    TrimStartKeeps(d);
    DecimalLeads(n, rest);
    DecimalRoundTrip(n);
  }

  /** parseInt reads back a signed decimal integer, whatever non-digit text
      follows it. */
  lemma ParseIntOfSignedDecimal(sign: char, n: nat, rest: string)
    requires sign == '+' || sign == '-'
    requires rest == [] || !IsDigit(rest[0])
    ensures ParseInt([sign] + Decimal(n) + rest) == Some(if sign == '-' then -(n as int) else n)
  {
    var d := Decimal(n) + rest;
    var t := [sign] + d;
    assert [sign] + Decimal(n) + rest == t;
    TrimStartKeeps(t);
    DecimalLeads(n, rest);
    DecimalRoundTrip(n);
    SignedDigits(t, n);
  }

  /** A sign followed by digits whose leading run reads n is read as n or -n. */
  lemma SignedDigits(t: string, n: nat)
    requires |t| > 0 && (t[0] == '-' || t[0] == '+')
    requires LeadingDigits(t[1..]) == Decimal(n) && DigitsValue(Decimal(n)) == n
    ensures ParseSigned(t) == Some(if t[0] == '-' then -(n as int) else n)
  {
  }

  /** Leading whitespace does not change what parseInt reads. */
  lemma ParseIntSkipsWhitespace(w: string, s: string)
    requires forall k :: 0 <= k < |w| ==> IsJsWhitespace(w[k])
    ensures ParseInt(w + s) == ParseInt(s)
  {
    TrimStartSkipsWhitespace(w, s);
  }

  lemma TrimStartSkipsWhitespace(w: string, s: string)
    requires forall k :: 0 <= k < |w| ==> IsJsWhitespace(w[k])
    ensures TrimStart(w + s) == TrimStart(s)
  {
    var ws := w + s;
    var c := LeadingWhitespaceCount(s);
    forall i | 0 <= i < |w| + c ensures IsJsWhitespace(ws[i]) {
      if i >= |w| {
        assert ws[i] == s[i - |w|];
      }
    }
    if |w| + c < |ws| {
      assert ws[|w| + c] == s[c];
    }
    LeadingWhitespaceCountUnique(ws, |w| + c);
    assert ws[|w| + c..] == s[c..];
  }

  /** A player who types the decimal text of a non-negative integer a submits a:
      trimming leaves the text as it is and parseInt reads a. */
  lemma TypedNumberIsRead(a: nat)
    ensures Trim(Decimal(a)) == Decimal(a)
    ensures ParseInt(Trim(Decimal(a))) == Some(a)
  {
    var s := Decimal(a);
    TrimStartKeeps(s);
    assert TrailingWhitespaceCount(s) == 0 by {
      assert !IsJsWhitespace(s[|s| - 1]);
    }
    assert s[..|s|] == s;
    ParseIntOfDecimal(a, []);
    assert s + [] == s;
  }

  /** What parseInt reads from any text, split as leading whitespace w, an
      optional sign, a run of digits d (leading zeros allowed) and a rest that
      does not continue the digits: NaN when there are no digits, and
      otherwise the value of d, negated after a minus sign. */
  lemma ParseIntReads(w: string, sign: string, d: string, rest: string)
    requires forall k :: 0 <= k < |w| ==> IsJsWhitespace(w[k])
    requires sign == [] || sign == "+" || sign == "-"
    requires AllDigits(d)
    requires rest == [] || !IsDigit(rest[0])
    requires sign == [] && d == [] && rest != [] ==>
      !IsJsWhitespace(rest[0]) && rest[0] != '+' && rest[0] != '-'
    ensures ParseInt(w + (sign + d + rest)) ==
      if d == [] then None
      else Some(if sign == "-" then -(DigitsValue(d) as int) else DigitsValue(d))
  {
    ParseIntSkipsWhitespace(w, sign + d + rest);
    ParseIntOfSigned(sign, d, rest);
  }

  /** The same reading when there is no leading whitespace. */
  lemma ParseIntOfSigned(sign: string, d: string, rest: string)
    requires sign == [] || sign == "+" || sign == "-"
    requires AllDigits(d)
    requires rest == [] || !IsDigit(rest[0])
    requires sign == [] && d == [] && rest != [] ==>
      !IsJsWhitespace(rest[0]) && rest[0] != '+' && rest[0] != '-'
    ensures ParseInt(sign + d + rest) ==
      if d == [] then None
      else Some(if sign == "-" then -(DigitsValue(d) as int) else DigitsValue(d))
  {
    SignedStartsTrimmed(sign, d, rest);
    ParseSignedReads(sign, d, rest);
  }

  /** Text made of a sign, digits and a rest as above has no leading whitespace. */
  lemma SignedStartsTrimmed(sign: string, d: string, rest: string)
    requires sign == [] || sign == "+" || sign == "-"
    requires AllDigits(d)
    requires sign == [] && d == [] && rest != [] ==> !IsJsWhitespace(rest[0])
    ensures TrimStart(sign + d + rest) == sign + d + rest
  {
    var t := sign + d + rest;
    if t != [] {
      if sign != [] {
        assert t[0] == sign[0];
      } else if d != [] {
        assert t[0] == d[0];
      } else {
        assert t[0] == rest[0];
      }
      TrimStartKeeps(t);
    }
  }

  /** The sign-and-digits reading of parseInt on text split as above. */
  lemma ParseSignedReads(sign: string, d: string, rest: string)
    requires sign == [] || sign == "+" || sign == "-"
    requires AllDigits(d)
    requires rest == [] || !IsDigit(rest[0])
    requires sign == [] && d == [] && rest != [] ==> rest[0] != '+' && rest[0] != '-'
    ensures ParseSigned(sign + d + rest) ==
      if d == [] then None
      else Some(if sign == "-" then -(DigitsValue(d) as int) else DigitsValue(d))
  {
    var t := sign + d + rest;
    DigitsLead(d, rest);
    if sign == [] {
      assert t == d + rest;
      if d != [] {
        assert t[0] == d[0];
      }
      UnsignedReads(t, d);
    } else {
      assert t[0] == sign[0];
      assert t[1..] == d + rest;
      SignReads(t, d);
    }
  }

  /** Text without a sign reads as its leading digits. */
  lemma UnsignedReads(t: string, d: string)
    requires t == [] || (t[0] != '+' && t[0] != '-')
    requires AllDigits(d) && LeadingDigits(t) == d
    ensures ParseSigned(t) == if d == [] then None else Some(DigitsValue(d))
  {
  }

  /** Text with a sign reads as the digits after it, negated after a minus. */
  lemma SignReads(t: string, d: string)
    requires |t| > 0 && (t[0] == '+' || t[0] == '-')
    requires AllDigits(d) && LeadingDigits(t[1..]) == d
    ensures ParseSigned(t) ==
      if d == [] then None
      else Some(if t[0] == '-' then -(DigitsValue(d) as int) else DigitsValue(d))
  {
  }

  /** Every text splits as ParseIntReads expects, so that lemma states what
      parseInt returns for every input. */
  lemma ParseIntSplits(s: string) returns (w: string, sign: string, d: string, rest: string)
    ensures s == w + (sign + d + rest)
    ensures forall k :: 0 <= k < |w| ==> IsJsWhitespace(w[k])
    ensures sign == [] || sign == "+" || sign == "-"
    ensures AllDigits(d)
    ensures rest == [] || !IsDigit(rest[0])
    ensures sign == [] && d == [] && rest != [] ==>
      !IsJsWhitespace(rest[0]) && rest[0] != '+' && rest[0] != '-'
  {
    var i := LeadingWhitespaceCount(s);
    w := s[..i];
    sign, d, rest := SignedSplits(s[i..]);
    assert s == w + s[i..];
    if sign == [] && d == [] && rest != [] {
      assert rest[0] == s[i];
    }
  }

  /** Text splits into an optional sign, its leading digits and the rest. */
  lemma SignedSplits(t: string) returns (sign: string, d: string, rest: string)
    ensures t == sign + d + rest
    ensures sign == [] || sign == "+" || sign == "-"
    ensures AllDigits(d)
    ensures rest == [] || !IsDigit(rest[0])
    ensures sign == [] && d == [] && rest != [] ==> rest == t && rest[0] != '+' && rest[0] != '-'
  {
    if t != [] && (t[0] == '+' || t[0] == '-') {
      sign := [t[0]];
      d, rest := DigitsSplit(t[1..]);
      assert t == sign + t[1..];
    } else {
      sign := [];
      d, rest := DigitsSplit(t);
    }
  }

  /** Text splits into its leading digits and the rest. */
  lemma DigitsSplit(u: string) returns (d: string, rest: string)
    ensures u == d + rest && d == LeadingDigits(u)
    ensures AllDigits(d)
    ensures rest == [] || !IsDigit(rest[0])
  {
    d := LeadingDigits(u);
    rest := u[|d|..];
    assert u == d + rest;
    if |d| < |u| {
      assert rest[0] == u[|d|];
    }
  }
}
