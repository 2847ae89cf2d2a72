/** The JavaScript string operations the core relies on: `String.prototype.trim`,
    `String.prototype.split` on one character, `parseInt` without a radix, and the
    decimal rendering of a non-negative integer inside a template literal. */
module JsText {

  /** ECMAScript WhiteSpace and LineTerminator code points: what `trim` removes and
      what `parseInt` skips before the number. */
  predicate IsJsSpace(c: char) {
    || c == ' ' || c == '\t' || c == '\n' || c == '\r'
    || c == '\U{000B}' || c == '\U{000C}' || c == '\U{00A0}' || c == '\U{1680}'
    || ('\U{2000}' <= c <= '\U{200A}')
    || c == '\U{2028}' || c == '\U{2029}' || c == '\U{202F}' || c == '\U{205F}'
    || c == '\U{3000}' || c == '\U{FEFF}'
  }

  /** Drops leading white space: only white space goes, and what remains does not start with it. */
  function TrimStart(s: string): (r: string)
    ensures |r| <= |s| && r == s[|s| - |r|..]
    ensures forall i :: 0 <= i < |s| - |r| ==> IsJsSpace(s[i])
    ensures r == [] || !IsJsSpace(r[0])
  {
    if |s| > 0 && IsJsSpace(s[0]) then TrimStart(s[1..]) else s
  }

  /** Drops trailing white space: only white space goes, and what remains does not end with it. */
  function TrimEnd(s: string): (r: string)
    ensures |r| <= |s| && r == s[..|r|]
    ensures forall i :: |r| <= i < |s| ==> IsJsSpace(s[i])
    ensures r == [] || !IsJsSpace(r[|r| - 1])
  {
    if |s| > 0 && IsJsSpace(s[|s| - 1]) then TrimEnd(s[..|s| - 1]) else s
  }

  /** A prefix `r` of a suffix `t` of `s`, followed in `t` only by white space, is an
      infix of `s` followed in `s` only by white space; it starts as `t` starts. */
  lemma TrimmedInfix(s: string, t: string, r: string)
    requires |t| <= |s| && t == s[|s| - |t|..]
    requires |r| <= |t| && r == t[..|r|]
    requires forall i :: |r| <= i < |t| ==> IsJsSpace(t[i])
    requires t == [] || !IsJsSpace(t[0])
    requires r == [] || !IsJsSpace(r[|r| - 1])
    ensures var k := |s| - |t|; k + |r| <= |s| && r == s[k..k + |r|]
    ensures var k := |s| - |t|; forall i :: k + |r| <= i < |s| ==> IsJsSpace(s[i])
    ensures r == [] || (!IsJsSpace(r[0]) && !IsJsSpace(r[|r| - 1]))
  {
    var k := |s| - |t|;
    forall i | k + |r| <= i < |s|
      ensures IsJsSpace(s[i])
    {
      assert s[i] == t[i - k];
    }
    if r != [] {
      assert r[0] == t[0];
    }
  }

  /** `s.trim()`: the infix of `s` left after white space is removed from both ends.
      What goes before it is white space by `TrimStart`'s contract, and what goes
      after it is white space too. */
  function Trim(s: string): (r: string)
    ensures var k := |s| - |TrimStart(s)|; k + |r| <= |s| && r == s[k..k + |r|]
    ensures var k := |s| - |TrimStart(s)|; forall i :: k + |r| <= i < |s| ==> IsJsSpace(s[i])
    ensures r == [] || (!IsJsSpace(r[0]) && !IsJsSpace(r[|r| - 1]))
  {
    var t := TrimStart(s);
    TrimmedInfix(s, t, TrimEnd(t));
    TrimEnd(t)
  }

  /** A trimmed string is empty exactly when the input is all white space. */
  lemma TrimEmpty(s: string)
    ensures Trim(s) == [] <==> forall i :: 0 <= i < |s| ==> IsJsSpace(s[i])
  {
    var t := TrimStart(s);
    var k := |s| - |t|;
    assert t != [] ==> t[0] == s[k];
    assert Trim(s) == TrimEnd(t);
  }

  /** Trimming twice is trimming once. */
  lemma TrimIdempotent(s: string)
    ensures Trim(Trim(s)) == Trim(s)
  {
    var r := Trim(s);
    if r != [] {
      assert TrimStart(r) == r;
      assert TrimEnd(r) == r;
    }
  }

  /** `s.split(sep)` for a one-character separator: the pieces between separators,
      one more piece than there are separators. */
  function Split(s: string, sep: char): (parts: seq<string>)
    ensures |parts| >= 1
    ensures forall i :: 0 <= i < |parts| ==> sep !in parts[i]
  {
    if s == [] then [""]
    else
      var rest := Split(s[1..], sep);
      if s[0] == sep then [""] + rest else [[s[0]] + rest[0]] + rest[1..]
  }

  /** Without a separator, `split` returns the whole string. */
  lemma {:induction false} SplitNoSeparator(s: string, sep: char)
    requires sep !in s
    ensures Split(s, sep) == [s]
  {
    if s != [] {
      assert sep !in s[1..];
      SplitNoSeparator(s[1..], sep);
      assert [s[0]] + s[1..] == s;
    }
  }

  /** The first piece ends at the first separator, and splitting goes on after it. */
  lemma {:induction false} SplitAtFirst(a: string, sep: char, b: string)
    requires sep !in a
    ensures Split(a + [sep] + b, sep) == [a] + Split(b, sep)
  {
    if a == [] {
      assert a + [sep] + b == [sep] + b;
      assert ([sep] + b)[1..] == b;
    } else {
      assert (a + [sep] + b)[1..] == a[1..] + [sep] + b;
      assert sep !in a[1..];
      SplitAtFirst(a[1..], sep, b);
      assert [a[0]] + a[1..] == a;
    }
  }

  /** The result of `parseInt`: an integer, or NaN when no digit could be read. */
  datatype Parsed = Num(value: int) | NaN

  /** The value of `c` as a digit of radix up to 36, or 36 when it is not a digit at all. */
  function DigitValue(c: char): (d: nat)
    ensures d <= 36
  {
    if '0' <= c <= '9' then c as int - '0' as int
    else if 'a' <= c <= 'z' then c as int - 'a' as int + 10
    else if 'A' <= c <= 'Z' then c as int - 'A' as int + 10
    else 36
  }

  /** The digit values of the longest prefix of `s` made of digits of `radix`. */
  function LeadingDigits(s: string, radix: nat): (ds: seq<nat>)
    ensures |ds| <= |s|
    ensures forall i :: 0 <= i < |ds| ==> ds[i] == DigitValue(s[i]) < radix
    ensures |ds| < |s| ==> DigitValue(s[|ds|]) >= radix
  {
    if |s| > 0 && DigitValue(s[0]) < radix then [DigitValue(s[0])] + LeadingDigits(s[1..], radix) else []
  }

  /** The number a sequence of digits denotes, most significant first. */
  function DigitsValue(ds: seq<nat>, radix: nat): nat {
    if ds == [] then 0 else DigitsValue(ds[..|ds| - 1], radix) * radix + ds[|ds| - 1]
  }

  /** What follows one optional leading sign. */
  function AfterSign(t: string): (u: string)
    ensures |u| <= |t| && u == t[|t| - |u|..]
  {
    if |t| > 0 && (t[0] == '-' || t[0] == '+') then t[1..] else t
  }

  /** Whether `u` starts with the `0x`/`0X` prefix of a hexadecimal number. */
  predicate HexPrefixed(u: string) {
    |u| >= 2 && u[0] == '0' && (u[1] == 'x' || u[1] == 'X')
  }

  /** `parseInt` once leading white space is gone: read one optional sign, read a
      hexadecimal number after `0x`/`0X` or else a decimal one, stop at the first
      character that is not a digit; NaN when no digit was read. */
  function ParseTrimmed(t: string): Parsed {
    var u := AfterSign(t);
    var hex := HexPrefixed(u);
    var ds := if hex then LeadingDigits(u[2..], 16) else LeadingDigits(u, 10);
    if ds == [] then NaN
    else
      var v: int := if hex then DigitsValue(ds, 16) else DigitsValue(ds, 10);
      Num(if |t| > 0 && t[0] == '-' then -v else v)
  }

  /** `ParseTrimmed` reads a number only when the string holds a decimal digit: the
      first digit of a decimal number, or the `0` of the `0x` prefix. */
  lemma ParseTrimmedHasDigit(t: string)
    ensures ParseTrimmed(t).Num? ==> exists k :: 0 <= k < |t| && '0' <= t[k] <= '9'
  {
    var u := AfterSign(t);
    if ParseTrimmed(t).Num? {
      var k := |t| - |u|;
      if HexPrefixed(u) {
        assert t[k] == u[0] == '0';
      } else {
        assert LeadingDigits(u, 10) != [];
        assert DigitValue(u[0]) < 10;
        assert t[k] == u[0];
      }
    }
  }

  /** A digit in a suffix of `s` is a digit of `s`. */
  lemma SuffixDigit(s: string, n: nat)
    requires n <= |s|
    ensures (exists j :: 0 <= j < |s[n..]| && '0' <= s[n..][j] <= '9') ==> exists k :: 0 <= k < |s| && '0' <= s[k] <= '9'
  {
    if j :| 0 <= j < |s[n..]| && '0' <= s[n..][j] <= '9' {
      assert s[n + j] == s[n..][j];
    }
  }

  /** Skipping leading white space keeps the digit `ParseTrimmedHasDigit` finds. */
  lemma ParseIntHasDigit(s: string)
    ensures ParseTrimmed(TrimStart(s)).Num? ==> exists k :: 0 <= k < |s| && '0' <= s[k] <= '9'
  {
    var t := TrimStart(s);
    ParseTrimmedHasDigit(t);
    SuffixDigit(s, |s| - |t|);
  }

  /** `parseInt(s)` with no radix: skip white space, then read a signed number. A
      number comes out only when `s` holds a decimal digit; otherwise it is NaN. */
  function ParseInt(s: string): (r: Parsed)
    ensures r.Num? ==> exists k :: 0 <= k < |s| && '0' <= s[k] <= '9'
  {
    ParseIntHasDigit(s);
    ParseTrimmed(TrimStart(s))
  }

  /** The decimal digit character for `d`. */
  function DigitChar(d: nat): (c: char)
    requires d < 10
    ensures DigitValue(c) == d
  {
    ['0', '1', '2', '3', '4', '5', '6', '7', '8', '9'][d]
  }

  /** `${n}` for a non-negative integer: its decimal digits, most significant first. */
  function NatToString(n: nat): (r: string)
    ensures |r| >= 1
    ensures forall i :: 0 <= i < |r| ==> '0' <= r[i] <= '9'
  {
    if n < 10 then [DigitChar(n)] else NatToString(n / 10) + [DigitChar(n % 10)]
  }

  /** A string of decimal digits is read to its end, digit by digit. */
  lemma {:induction false} LeadingDigitsOfDecimal(a: string, b: string)
    requires forall i :: 0 <= i < |a| ==> '0' <= a[i] <= '9'
    ensures LeadingDigits(a + b, 10) == LeadingDigits(a, 10) + LeadingDigits(b, 10)
    ensures |LeadingDigits(a, 10)| == |a|
  {
    if a != [] {
      assert DigitValue(a[0]) < 10;
      assert (a + b)[0] == a[0];
      assert (a + b)[1..] == a[1..] + b;
      LeadingDigitsOfDecimal(a[1..], b);
      calc {
        LeadingDigits(a + b, 10);
        [DigitValue(a[0])] + LeadingDigits(a[1..] + b, 10);
        [DigitValue(a[0])] + (LeadingDigits(a[1..], 10) + LeadingDigits(b, 10));
        ([DigitValue(a[0])] + LeadingDigits(a[1..], 10)) + LeadingDigits(b, 10);
        LeadingDigits(a, 10) + LeadingDigits(b, 10);
      }
    } else {
      assert a + b == b;
    }
  }

  /** The digits of `${n}` denote `n`. */
  lemma {:induction false} NatToStringValue(n: nat)
    ensures DigitsValue(LeadingDigits(NatToString(n), 10), 10) == n
  {
    if n >= 10 {
      var ds := LeadingDigits(NatToString(n / 10), 10);
      LeadingDigitsOfDecimal(NatToString(n / 10), [DigitChar(n % 10)]);
      assert LeadingDigits(NatToString(n), 10) == ds + [n % 10];
      assert (ds + [n % 10])[..|ds|] == ds;
      NatToStringValue(n / 10);
    }
  }

  /** Without a leading minus sign, the number read is never negative. */
  lemma ParseTrimmedUnsigned(t: string)
    requires t == [] || t[0] != '-'
    ensures ParseTrimmed(t).Num? ==> ParseTrimmed(t).value >= 0
  {
    assert !(|t| > 0 && t[0] == '-');
  }

  /** Without a sign or a `0x` prefix, a string of decimal digits is read whole. */
  lemma ParseTrimmedOfDigits(s: string)
    requires |s| >= 1 && forall i :: 0 <= i < |s| ==> '0' <= s[i] <= '9'
    ensures ParseTrimmed(s) == Num(DigitsValue(LeadingDigits(s, 10), 10))
  {
    assert s[0] != '-' && s[0] != '+';
    assert AfterSign(s) == s;
    assert !HexPrefixed(s);
    assert DigitValue(s[0]) < 10;
    assert LeadingDigits(s, 10) != [];
  }

  /** A non-empty string of decimal digits is read whole, as a decimal number. */
  lemma ParseIntOfDigits(s: string)
    requires |s| >= 1 && forall i :: 0 <= i < |s| ==> '0' <= s[i] <= '9'
    ensures ParseInt(s) == Num(DigitsValue(LeadingDigits(s, 10), 10))
  {
    assert !IsJsSpace(s[0]);
    assert TrimStart(s) == s;
    ParseTrimmedOfDigits(s);
  }

  /** `parseInt` reads back every decimal rendering `${n}`. */
  lemma ParseIntOfNatToString(n: nat)
    ensures ParseInt(NatToString(n)) == Num(n)
  {
    ParseIntOfDigits(NatToString(n));
    NatToStringValue(n);
  }

  /** `parseInt` ignores leading white space. */
  lemma ParseIntSkipsSpace(c: char, s: string)
    requires IsJsSpace(c)
    ensures ParseInt([c] + s) == ParseInt(s)
  {
    assert ([c] + s)[1..] == s;
    assert TrimStart([c] + s) == TrimStart(s);
  }
}
