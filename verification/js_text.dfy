/**
 * The JavaScript string built-ins the application relies on, written out
 * explicitly: white space as matched by `\s` and skipped by `parseInt`,
 * `parseInt` itself, the number prefix `parseFloat` accepts, decimal
 * rendering of integers, `toLowerCase` (per character) and `includes`.
 */
module JsText {
  import opened Wrappers

  /** JavaScript's WhiteSpace and LineTerminator characters: what `\s` matches. */
  predicate IsSpace(c: char) {
    || c == ' ' || c == '\t' || c == '\n' || c == '\U{000B}' || c == '\U{000C}' || c == '\r'
    || c == '\U{00A0}' || c == '\U{1680}' || ('\U{2000}' <= c <= '\U{200A}')
    || c == '\U{2028}' || c == '\U{2029}' || c == '\U{202F}' || c == '\U{205F}'
    || c == '\U{3000}' || c == '\U{FEFF}'
  }

  /** No character of `s` is white space. */
  predicate NoSpace(s: string) {
    forall i :: 0 <= i < |s| ==> !IsSpace(s[i])
  }

  predicate IsDigit(c: char) {
    '0' <= c <= '9'
  }

  predicate AllDigits(s: string) {
    forall i :: 0 <= i < |s| ==> IsDigit(s[i])
  }

  function DigitValue(c: char): nat
    requires IsDigit(c)
  {
    c as int - '0' as int
  }

  function DigitChar(d: nat): (c: char)
    requires d < 10
    ensures IsDigit(c) && DigitValue(c) == d
  {
    ('0' as int + d) as char
  }

  /** Drops the leading white space, as `parseInt` and `parseFloat` do. */
  function TrimStart(s: string): (r: string)
    ensures |r| <= |s| && r == s[|s| - |r|..]
    ensures r == [] || !IsSpace(r[0])
    ensures forall i :: 0 <= i < |s| - |r| ==> IsSpace(s[i])
  {
    if |s| > 0 && IsSpace(s[0]) then TrimStart(s[1..]) else s
  }

  /** The longest prefix of `s` made of decimal digits. */
  function LeadingDigits(s: string): (r: string)
    ensures r <= s
    ensures AllDigits(r)
    ensures |r| == |s| || !IsDigit(s[|r|])
  {
    if |s| > 0 && IsDigit(s[0]) then [s[0]] + LeadingDigits(s[1..]) else []
  }

  /** The value of a string of decimal digits, most significant first. */
  function DigitsValue(ds: string): nat
    requires AllDigits(ds)
  {
    if |ds| == 0 then 0 else DigitsValue(ds[..|ds| - 1]) * 10 + DigitValue(ds[|ds| - 1])
  }

  /** The decimal rendering of a natural number, with no leading zeros. */
  function NatToDigits(n: nat): (r: string)
    ensures |r| > 0 && AllDigits(r)
    ensures DigitsValue(r) == n
    ensures |r| > 1 ==> r[0] != '0'
  {
    if n < 10 then [DigitChar(n)]
    else
      var front := NatToDigits(n / 10);
      var r := front + [DigitChar(n % 10)];
      assert r[..|r| - 1] == front;
      r
  }

  /** JavaScript's `String(i)` for an integer. */
  function IntToString(i: int): string {
    if i < 0 then "-" + NatToDigits(-i) else NatToDigits(i)
  }

  /** What follows the leading white space and at most one sign character. */
  function Unsigned(s: string): string {
    var t := TrimStart(s);
    if |t| > 0 && (t[0] == '-' || t[0] == '+') then t[1..] else t
  }

  /** True when, after white space, the first character is a minus sign. */
  predicate Negative(s: string) {
    var t := TrimStart(s);
    |t| > 0 && t[0] == '-'
  }

  /**
   * JavaScript's `parseInt(s)` for decimal input: skip white space, read an
   * optional sign and then the longest run of digits; `None` is NaN.
   */
  function ParseIntJS(s: string): (r: Option<int>)
    ensures r.Some? <==> |Unsigned(s)| > 0 && IsDigit(Unsigned(s)[0])
    ensures r.Some? && !Negative(s) ==> r.value == DigitsValue(LeadingDigits(Unsigned(s)))
    ensures r.Some? && Negative(s) ==> r.value == -(DigitsValue(LeadingDigits(Unsigned(s))) as int)
    ensures r.Some? && !Negative(s) ==> r.value >= 0
    ensures r.Some? && Negative(s) ==> r.value <= 0
  {
    DigitsReading(Negative(s), LeadingDigits(Unsigned(s)))
  }

  /** The number a run of digits denotes, negated when a minus sign came before it. */
  function DigitsReading(negative: bool, ds: string): Option<int>
    requires AllDigits(ds)
  {
    if |ds| == 0 then None
    else if negative then Some(-(DigitsValue(ds) as int))
    else Some(DigitsValue(ds))
  }

  function Pow10(n: nat): nat {
    if n == 0 then 1 else 10 * Pow10(n - 1)
  }

  /** Positional notation read from the front: the first digit counts `10^(|ds|)` times. */
  lemma {:induction false} DigitsValueFront(d: char, ds: string)
    requires IsDigit(d) && AllDigits(ds)
    ensures DigitsValue([d] + ds) == DigitValue(d) * Pow10(|ds|) + DigitsValue(ds)
  {
    if |ds| > 0 {
      var init := ds[..|ds| - 1];
      assert ([d] + ds)[..|ds|] == [d] + init;
      DigitsValueFront(d, init);
      assert Pow10(|ds|) == Pow10(|init|) * 10;
      ShiftDigit(DigitValue(d), Pow10(|init|), DigitsValue(init), DigitValue(ds[|ds| - 1]));
    } else {
      assert [d] + ds == [d];
    }
  }

  /** Appending a digit multiplies every earlier place by ten. */
  lemma ShiftDigit(lead: nat, place: nat, rest: nat, last: nat)
    ensures (lead * place + rest) * 10 + last == lead * (place * 10) + (rest * 10 + last)
  {
  }

  /** Leading zeros do not change the value read: `parseInt("0042") == 42`. */
  lemma LeadingZeroIgnored(ds: string)
    requires AllDigits(ds)
    ensures DigitsValue("0" + ds) == DigitsValue(ds)
  {
    DigitsValueFront('0', ds);
  }

  /** A run of `k` digits stays below `10^k`. */
  lemma {:induction false} DigitsValueBelow(ds: string)
    requires AllDigits(ds)
    ensures DigitsValue(ds) < Pow10(|ds|)
  {
    if |ds| > 0 {
      DigitsValueBelow(ds[..|ds| - 1]);
    }
  }

  /** The digits of the year 2020 read as 2020. */
  lemma Value2020()
    ensures AllDigits("2020") && DigitsValue("2020") == 2020
  {
    assert "2020"[..3] == "202" && "202"[..2] == "20" && "20"[..1] == "2" && "2"[..0] == "";
  }

  /** Leading white space does not change what `parseInt` reads. */
  lemma ParseIntSkipsSpace(s: string)
    requires |s| > 0 && IsSpace(s[0])
    ensures ParseIntJS(s) == ParseIntJS(s[1..])
  {
    assert TrimStart(s) == TrimStart(s[1..]);
  }

  /** `parseInt(" 2020") == 2020`. */
  lemma ParseIntOfSpacedYear()
    ensures ParseIntJS(" 2020") == Some(2020)
  {
    var s := " 2020";
    assert IsSpace(s[0]) && s[1..] == "2020";
    ParseIntSkipsSpace(s);
    Value2020();
    ParseIntOfDigits("2020", "");
    assert "2020" + "" == "2020";
  }

  /** `parseInt` reads a plus sign and ignores it. */
  lemma ParseIntReadsPlus()
    ensures ParseIntJS("+2020") == Some(2020)
  {
    var s := "+2020";
    assert !IsSpace(s[0]) && s[1..] == "2020";
    assert Unsigned(s) == "2020";
    Value2020();
    LeadingDigitsOfDigits("2020", "");
    assert "2020" + "" == "2020";
  }

  /** `parseInt` reads a minus sign and leading zeros. */
  lemma ParseIntReadsMinusAndZeros()
    ensures ParseIntJS("-07") == Some(-7)
  {
    var s := "-07";
    MinusText(s);
    assert s[1..] == "07" == "07" + "";
    LeadingDigitsOfDigits("07", "");
    LeadingZeroIgnored("7");
    assert "0" + "7" == "07";
    NegativeReading(s, "07");
  }

  /** `parseInt` stops at the first character that is not a digit. */
  lemma ParseIntStopsAtDot()
    ensures ParseIntJS("12.5") == Some(12)
  {
    var s, d, tail := "12.5", "12", ".5";
    assert s == d + tail;
    Value12();
    ParseIntOfDigits(d, tail);
  }

  /** The digits "12" read as twelve. */
  lemma Value12()
    ensures AllDigits("12") && DigitsValue("12") == 12
  {
    assert "12"[..1] == "1" && "1"[..0] == "";
  }

  /** Text that does not start with a digit is NaN. */
  lemma ParseIntOfWord()
    ensures ParseIntJS("abc") == None && ParseIntJS("") == None
  {
    var s := "abc";
    assert !IsSpace(s[0]) && !IsDigit(s[0]);
    assert TrimStart(s) == s;
  }

  /** The sign read after white space, as text: empty when there is none. */
  function SignText(s: string): (r: string)
    ensures TrimStart(s) == r + Unsigned(s)
    ensures r == [] || r == ['-'] || r == ['+']
    ensures Negative(s) <==> r == ['-']
  {
    var t := TrimStart(s);
    if |t| > 0 && (t[0] == '-' || t[0] == '+') then
      assert t == [t[0]] + t[1..];
      [t[0]]
    else
      assert t == "" + t;
      ""
  }

  /**
   * A decimal literal without sign or exponent: a run of digits, or a dot
   * with digits before and after it, at least one digit in all.
   */
  predicate DecimalLexeme(p: string) {
    || (|p| > 0 && AllDigits(p))
    || (|p| > 1 && exists k | 0 <= k < |p| :: p[k] == '.' && AllDigits(p[..k]) && AllDigits(p[k + 1..]))
  }

  /** The first `n` characters of `u` are the longest prefix of `u` that is a decimal literal. */
  predicate LongestDecimal(u: string, n: nat) {
    && 0 < n <= |u| && DecimalLexeme(u[..n])
    && forall m :: n < m <= |u| ==> !DecimalLexeme(u[..m])
  }

  /** No non-empty prefix of `u` is a decimal literal. */
  predicate NoDecimalPrefix(u: string) {
    forall m :: 0 < m <= |u| ==> !DecimalLexeme(u[..m])
  }

  /** A character other than a digit or a dot ends every decimal literal before it. */
  lemma StrayBreaksLexeme(p: string, j: nat)
    requires j < |p| && !IsDigit(p[j]) && p[j] != '.'
    ensures !DecimalLexeme(p)
  {
    forall k | 0 <= k < j ensures !(p[k] == '.' && AllDigits(p[..k]) && AllDigits(p[k + 1..])) {
      assert p[k + 1..][j - k - 1] == p[j];
    }
    forall k | j < k < |p| ensures !(p[k] == '.' && AllDigits(p[..k]) && AllDigits(p[k + 1..])) {
      assert p[..k][j] == p[j];
    }
  }

  /** A decimal literal holds at most one character that is not a digit. */
  lemma TwoNonDigitsBreakLexeme(p: string, i: nat, j: nat)
    requires i < j < |p| && !IsDigit(p[i]) && !IsDigit(p[j])
    ensures !DecimalLexeme(p)
  {
    forall k | 0 <= k < j ensures !(p[k] == '.' && AllDigits(p[..k]) && AllDigits(p[k + 1..])) {
      assert p[k + 1..][j - k - 1] == p[j];
    }
    forall k | j <= k < |p| ensures !(p[k] == '.' && AllDigits(p[..k]) && AllDigits(p[k + 1..])) {
      assert p[..k][i] == p[i];
    }
  }

  /**
   * The length of the longest decimal literal at the start of `u`: digits,
   * then a dot and more digits if a dot follows; 0 when there is none.
   */
  function DecimalPrefix(u: string): (n: nat)
    ensures n <= |u|
    ensures n > 0 ==> LongestDecimal(u, n)
    ensures n == 0 ==> NoDecimalPrefix(u)
    ensures n > 0 <==> (|u| > 0 && IsDigit(u[0])) || (|u| > 1 && u[0] == '.' && IsDigit(u[1]))
  {
    var w := LeadingDigits(u);
    if |w| < |u| && u[|w|] == '.' then
      DottedPrefix(u, w, LeadingDigits(u[|w| + 1..]))
    else
      UndottedPrefix(u, w)
  }

  /** `DecimalPrefix` when the digits at the start of `u` are followed by a dot. */
  function DottedPrefix(u: string, w: string, f: string): (n: nat)
    requires w == LeadingDigits(u) && |w| < |u| && u[|w|] == '.'
    requires f == LeadingDigits(u[|w| + 1..])
    ensures n <= |u|
    ensures n > 0 ==> LongestDecimal(u, n)
    ensures n == 0 ==> NoDecimalPrefix(u)
    ensures n > 0 <==> |w| > 0 || |f| > 0
  {
    var n := |w| + 1 + |f|;
    if |w| == 0 && |f| == 0 then
      forall m | 0 < m <= |u| ensures !DecimalLexeme(u[..m]) {
        if m > 1 {
          TwoNonDigitsBreakLexeme(u[..m], 0, 1);
        }
      }
      0
    else
      var p := u[..n];
      assert p[..|w|] == w && p[|w| + 1..] == f;
      assert DecimalLexeme(p) by {
        assert p[|w|] == '.';
      }
      forall m | n < m <= |u| ensures !DecimalLexeme(u[..m]) {
        assert u[n] == u[|w| + 1..][|f|];
        TwoNonDigitsBreakLexeme(u[..m], |w|, n);
      }
      n
  }

  /** `DecimalPrefix` when the digits at the start of `u` are not followed by a dot. */
  function UndottedPrefix(u: string, w: string): (n: nat)
    requires w == LeadingDigits(u) && !(|w| < |u| && u[|w|] == '.')
    ensures n <= |u|
    ensures n > 0 ==> LongestDecimal(u, n)
    ensures n == 0 ==> NoDecimalPrefix(u)
    ensures n > 0 <==> |w| > 0
  {
    forall m | |w| < m <= |u| ensures !DecimalLexeme(u[..m]) {
      StrayBreaksLexeme(u[..m], |w|);
    }
    assert |w| > 0 ==> u[..|w|] == w;
    |w|
  }

  /**
   * The number literal `parseFloat(s)` reads, as text: after white space
   * the sign, then the longest prefix of the rest that is a decimal
   * literal. `None` is NaN.
   */
  function ParseFloatJS(s: string): (r: Option<string>)
    ensures r.Some? <==>
      var u := Unsigned(s);
      (|u| > 0 && IsDigit(u[0])) || (|u| > 1 && u[0] == '.' && IsDigit(u[1]))
    ensures r.Some? ==>
      && |SignText(s)| < |r.value| <= |SignText(s)| + |Unsigned(s)|
      && LongestDecimal(Unsigned(s), |r.value| - |SignText(s)|)
      && r.value == SignText(s) + Unsigned(s)[..|r.value| - |SignText(s)|]
    ensures r.None? <==> NoDecimalPrefix(Unsigned(s))
  {
    var u := Unsigned(s);
    var n := DecimalPrefix(u);
    if n == 0 then None
    else
      var lexeme := SignText(s) + u[..n];
      assert |lexeme| - |SignText(s)| == n;
      Some(lexeme)
  }

  /** Digits, a dot and digits, followed by something that does not continue them. */
  lemma DottedLiteralPrefix(w: string, f: string, tail: string)
    requires AllDigits(w) && AllDigits(f) && |w| + |f| > 0
    requires tail == [] || !IsDigit(tail[0])
    ensures DecimalPrefix(w + "." + f + tail) == |w| + 1 + |f|
  {
    var u := w + "." + f + tail;
    assert u == w + ("." + f + tail);
    LeadingDigitsOfDigits(w, "." + f + tail);
    assert u[|w|] == '.' && u[|w| + 1..] == f + tail;
    LeadingDigitsOfDigits(f, tail);
  }

  /** A text that starts with a digit is read from its start, with no sign. */
  lemma ParseFloatOfDigitText(s: string)
    requires |s| > 0 && IsDigit(s[0])
    ensures ParseFloatJS(s) == Some(s[..DecimalPrefix(s)])
  {
    DigitText(s);
    var n := DecimalPrefix(s);
    assert n > 0;
    assert SignText(s) == "";
    assert SignText(s) + s[..n] == s[..n];
  }

  /** `parseFloat` reads up to the second dot: `parseFloat("1.2.3") == 1.2`. */
  lemma ParseFloatStopsAtSecondDot()
    ensures ParseFloatJS("1.2.3") == Some("1.2")
  {
    var s, w, f, tail := "1.2.3", "1", "2", ".3";
    var lexeme := w + "." + f;
    assert s == lexeme + tail;
    assert s[..|lexeme|] == lexeme == "1.2";
    DottedLiteralPrefix(w, f, tail);
    assert s[0] == '1';
    ParseFloatOfDigitText(s);
  }

  /** Digits followed by something that does not continue the number. */
  lemma {:induction false} LeadingDigitsOfDigits(d: string, tail: string)
    requires AllDigits(d)
    requires tail == [] || !IsDigit(tail[0])
    ensures LeadingDigits(d + tail) == d
  {
    if |d| > 0 {
      assert (d + tail)[1..] == d[1..] + tail;
      LeadingDigitsOfDigits(d[1..], tail);
    } else {
      assert d + tail == tail;
    }
  }

  /** Text starting with a digit or a minus sign is not trimmed. */
  lemma NumberTextNotTrimmed(s: string)
    requires |s| > 0 && (s[0] == '-' || IsDigit(s[0]))
    ensures TrimStart(s) == s
  {
    assert !IsSpace(s[0]);
  }

  /** A text that starts with a minus sign is negative and reads on after it. */
  lemma MinusText(s: string)
    requires |s| > 0 && s[0] == '-'
    ensures Negative(s) && Unsigned(s) == s[1..]
  {
    NumberTextNotTrimmed(s);
  }

  /** A text that starts with a digit is not negative and is read from its start. */
  lemma DigitText(s: string)
    requires |s| > 0 && IsDigit(s[0])
    ensures !Negative(s) && Unsigned(s) == s
  {
    NumberTextNotTrimmed(s);
  }

  /** A non-negative text whose digits are `d` reads as their value. */
  lemma PositiveReading(s: string, d: string)
    requires |d| > 0 && AllDigits(d)
    requires !Negative(s) && LeadingDigits(Unsigned(s)) == d
    ensures ParseIntJS(s) == Some(DigitsValue(d))
  {
    assert ParseIntJS(s) == DigitsReading(false, d);
  }

  /** A negative text whose digits are `d` reads as minus their value. */
  lemma NegativeReading(s: string, d: string)
    requires |d| > 0 && AllDigits(d)
    requires Negative(s) && LeadingDigits(Unsigned(s)) == d
    ensures ParseIntJS(s) == Some(-(DigitsValue(d) as int))
  {
    assert |Unsigned(s)| > 0 && Unsigned(s)[0] == d[0];
    assert ParseIntJS(s).Some?;
  }

  /** An unsigned rendering is read back by `parseInt`. */
  lemma ParseIntOfDigits(d: string, tail: string)
    requires |d| > 0 && AllDigits(d)
    requires tail == [] || !IsDigit(tail[0])
    ensures ParseIntJS(d + tail) == Some(DigitsValue(d))
  {
    var s := d + tail;
    assert s[0] == d[0];
    DigitText(s);
    LeadingDigitsOfDigits(d, tail);
    PositiveReading(s, d);
  }

  /**
   * `parseInt` reads back what `String` wrote, whatever non-digit text
   * follows: `parseInt("1750abc") == 1750`.
   */
  lemma ParseIntOfIntToString(i: int, tail: string)
    requires tail == [] || !IsDigit(tail[0])
    ensures ParseIntJS(IntToString(i) + tail) == Some(i)
  {
    if i < 0 {
      ParseIntOfNegative(i, tail);
    } else {
      ParseIntOfDigits(NatToDigits(i), tail);
    }
  }

  /** `String` writes a negative integer as a minus sign and the digits of its magnitude. */
  lemma NegativeRendering(i: int, tail: string)
    requires i < 0
    ensures |IntToString(i) + tail| > 0 && (IntToString(i) + tail)[0] == '-'
    ensures (IntToString(i) + tail)[1..] == NatToDigits(-i) + tail
  {
    var d := NatToDigits(-i);
    assert IntToString(i) + tail == ['-'] + (d + tail);
  }

  /** A negative integer is read back by `parseInt`. */
  lemma ParseIntOfNegative(i: int, tail: string)
    requires i < 0
    requires tail == [] || !IsDigit(tail[0])
    ensures ParseIntJS(IntToString(i) + tail) == Some(i)
  {
    var d := NatToDigits(-i);
    var s := IntToString(i) + tail;
    NegativeRendering(i, tail);
    MinusText(s);
    LeadingDigitsOfDigits(d, tail);
    NegativeReading(s, d);
  }

  /**
   * `toLowerCase` on one character, for the ASCII capitals A-Z, the Cyrillic
   * capitals U+0400-U+042F and U+0490; every other character is returned
   * unchanged, including Latin capitals outside ASCII.
   */
  function Lower(c: char): char {
    if 'A' <= c <= 'Z' then (c as int + 32) as char
    else if '\U{0410}' <= c <= '\U{042F}' then (c as int + 32) as char
    else if '\U{0400}' <= c <= '\U{040F}' then (c as int + 80) as char
    else if c == '\U{0490}' then '\U{0491}'
    else c
  }

  /** `toLowerCase` on a string, character by character. */
  function LowerStr(s: string): (r: string)
    ensures |r| == |s|
    ensures forall i :: 0 <= i < |s| ==> r[i] == Lower(s[i])
  {
    seq(|s|, i requires 0 <= i < |s| => Lower(s[i]))
  }

  /** `s.includes(t)`. */
  predicate Includes(s: string, t: string) {
    exists i | 0 <= i <= |s| - |t| :: IncludesAt(s, t, i)
  }

  /** `t` occurs in `s` starting at position `i`. */
  predicate IncludesAt(s: string, t: string, i: int) {
    0 <= i && i + |t| <= |s| && s[i..i + |t|] == t
  }

  lemma EmptyIncluded(s: string)
    ensures Includes(s, "")
  {
    assert IncludesAt(s, "", 0);
  }

  lemma {:induction false} IncludesTransitive(s: string, m: string, t: string)
    requires Includes(s, m) && Includes(m, t)
    ensures Includes(s, t)
  {
    var i :| 0 <= i <= |s| - |m| && IncludesAt(s, m, i);
    var j :| 0 <= j <= |m| - |t| && IncludesAt(m, t, j);
    forall k | 0 <= k < |t|
      ensures s[i + j + k] == t[k]
    {
      assert t[k] == m[j + k] == s[i + j + k];
    }
    assert IncludesAt(s, t, i + j);
  }

  /** Lower-casing both sides keeps a substring a substring. */
  lemma LowerKeepsIncludes(s: string, t: string)
    requires Includes(s, t)
    ensures Includes(LowerStr(s), LowerStr(t))
  {
    var i :| 0 <= i <= |s| - |t| && IncludesAt(s, t, i);
    assert LowerStr(s)[i..i + |t|] == LowerStr(t);
    assert IncludesAt(LowerStr(s), LowerStr(t), i);
  }

  /** Text found in a string is found in any string around it. */
  lemma IncludedInConcat(x: string, y: string, t: string)
    requires Includes(x, t)
    ensures Includes(x + y, t) && Includes(y + x, t)
  {
    var i :| 0 <= i <= |x| - |t| && IncludesAt(x, t, i);
    assert (x + y)[i..i + |t|] == x[i..i + |t|];
    assert IncludesAt(x + y, t, i);
    assert (y + x)[|y| + i..|y| + i + |t|] == x[i..i + |t|];
    assert IncludesAt(y + x, t, |y| + i);
  }

  /** `parts.join(sep)`. */
  function Join(parts: seq<string>, sep: string): (r: string)
    ensures |parts| == 0 ==> r == ""
    ensures |parts| == 1 ==> r == parts[0]
  {
    if |parts| == 0 then ""
    else if |parts| == 1 then parts[0]
    else parts[0] + sep + Join(parts[1..], sep)
  }

  /** Each part of a joined list appears in the result. */
  lemma {:induction false} JoinIncludesParts(parts: seq<string>, sep: string, k: nat)
    requires k < |parts|
    ensures Includes(Join(parts, sep), parts[k])
  {
    var r := Join(parts, sep);
    if |parts| == 1 || k == 0 {
      assert r[0..|parts[0]|] == parts[0];
      assert IncludesAt(r, parts[k], 0);
    } else {
      JoinIncludesParts(parts[1..], sep, k - 1);
      var rest := Join(parts[1..], sep);
      var off := |parts[0]| + |sep|;
      assert r[off..off + |rest|] == rest;
      assert IncludesAt(r, rest, off);
      IncludesTransitive(r, rest, parts[k]);
    }
  }
}
