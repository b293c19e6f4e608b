/** The pieces of Python's string behaviour that the report formatter relies on:
    `str.replace`, `str.lower`, `str.capitalize`, the `in` substring test, and
    the format specifications `{:,.0f}` and `{:.2%}`. Numbers are exact reals;
    the formatter rounds half to even, as CPython does on the exact value. */
module PyStr {

  // ---------------------------------------------------------------------------
  // Characters and case

  predicate IsAsciiUpper(c: char) { 'A' <= c <= 'Z' }
  predicate IsAsciiLower(c: char) { 'a' <= c <= 'z' }
  predicate IsDigit(c: char) { '0' <= c <= '9' }

  function Upper(c: char): (u: char)
    ensures !IsAsciiLower(u)
    ensures IsAsciiLower(c) || u == c
  {
    if IsAsciiLower(c) then (c as int - 32) as char else c
  }

  function Lower(c: char): (l: char)
    ensures !IsAsciiUpper(l)
    ensures IsAsciiUpper(c) || l == c
  {
    if IsAsciiUpper(c) then (c as int + 32) as char else c
  }

  /** `s.lower()` */
  function LowerStr(s: string): (r: string)
    ensures |r| == |s|
    ensures forall i :: 0 <= i < |s| ==> r[i] == Lower(s[i])
  {
    if s == [] then [] else [Lower(s[0])] + LowerStr(s[1..])
  }

  /** `s.replace(from, to)` for one-character `from` and `to`: every occurrence is replaced. */
  function Replace(s: string, from: char, to: char): (r: string)
    ensures |r| == |s|
    ensures forall i :: 0 <= i < |s| ==> r[i] == (if s[i] == from then to else s[i])
  {
    if s == [] then [] else [if s[0] == from then to else s[0]] + Replace(s[1..], from, to)
  }

  /** `s.capitalize()`: the first character upper-cased, all others lower-cased. */
  function Capitalize(s: string): string
  {
    if s == [] then [] else [Upper(s[0])] + LowerStr(s[1..])
  }

  lemma CapitalizeShape(s: string)
    ensures |Capitalize(s)| == |s|
    ensures s != [] ==> Capitalize(s)[0] == Upper(s[0])
    ensures forall i :: 0 < i < |s| ==> Capitalize(s)[i] == Lower(s[i])
  {
    if s != [] {
      var rest := LowerStr(s[1..]);
      var c := Capitalize(s);
      assert c == [Upper(s[0])] + rest;
      forall i | 0 < i < |s| ensures c[i] == Lower(s[i]) {
        assert c[i] == rest[i - 1];
        assert s[1..][i - 1] == s[i];
      }
    }
  }

  lemma {:induction false} LowerStrIdempotent(s: string)
    ensures LowerStr(LowerStr(s)) == LowerStr(s)
  {
    if s != [] {
      LowerStrIdempotent(s[1..]);
      assert LowerStr(s)[1..] == LowerStr(s[1..]);
    }
  }

  // ---------------------------------------------------------------------------
  // Substring test `t in s`

  /** True when `t` occurs in `s` starting at index `i`. */
  predicate OccursAt(s: string, t: string, i: nat)
  {
    i + |t| <= |s| && s[i..i + |t|] == t
  }

  /** `t in s`, scanning `s` from the left. */
  predicate Contains(s: string, t: string)
    decreases |s|
  {
    if |s| < |t| then false
    else s[..|t|] == t || Contains(s[1..], t)
  }

  /** The scan agrees with the definition of a substring: some position holds `t`. */
  lemma {:induction false} ContainsIsSubstring(s: string, t: string)
    ensures Contains(s, t) <==> exists i: nat :: OccursAt(s, t, i)
    decreases |s|
  {
    if |s| < |t| {
      forall i: nat ensures !OccursAt(s, t, i) { }
    } else if s[..|t|] == t {
      assert OccursAt(s, t, 0);
    } else {
      ContainsIsSubstring(s[1..], t);
      if Contains(s[1..], t) {
        var i: nat :| OccursAt(s[1..], t, i);
        assert s[i + 1..i + 1 + |t|] == s[1..][i..i + |t|];
        assert OccursAt(s, t, i + 1);
      } else {
        forall i: nat | OccursAt(s, t, i) ensures false {
          if i > 0 {
            assert s[1..][i - 1..i - 1 + |t|] == s[i..i + |t|];
            assert OccursAt(s[1..], t, i - 1);
          }
        }
      }
    }
  }

  /** Turning underscores into spaces does not change whether a text free of both
      characters occurs. */
  lemma ContainsReplaced(s: string, t: string)
    requires forall j :: 0 <= j < |t| ==> t[j] != '_' && t[j] != ' '
    ensures Contains(Replace(s, '_', ' '), t) <==> Contains(s, t)
  {
    var r := Replace(s, '_', ' ');
    ContainsIsSubstring(r, t);
    ContainsIsSubstring(s, t);
    forall i: nat | i + |t| <= |s|
      ensures OccursAt(r, t, i) <==> OccursAt(s, t, i)
    {
      if OccursAt(r, t, i) {
        forall j | 0 <= j < |t| ensures s[i + j] == t[j] {
          assert r[i..i + |t|][j] == r[i + j];
        }
        assert s[i..i + |t|] == t;
      }
      if OccursAt(s, t, i) {
        forall j | 0 <= j < |t| ensures r[i + j] == t[j] {
          assert s[i..i + |t|][j] == s[i + j];
        }
        assert r[i..i + |t|] == t;
      }
    }
  }

  // ---------------------------------------------------------------------------
  // Decimal digits

  function DigitChar(d: nat): (c: char)
    requires d < 10
    ensures IsDigit(c) && DigitValue(c) == d
  {
    ('0' as int + d) as char
  }

  function DigitValue(c: char): (d: nat)
    ensures d < 10
  {
    if IsDigit(c) then c as int - '0' as int else 0
  }

  /** The decimal digits of `n`, most significant first, without leading zeros. */
  function Digits(n: nat): (s: string)
    ensures 1 <= |s|
    ensures forall i :: 0 <= i < |s| ==> IsDigit(s[i])
    ensures n < 10 ==> |s| == 1
    ensures n < 100 ==> |s| <= 2
    ensures n < 1000 ==> |s| <= 3
  {
    if n < 10 then [DigitChar(n)] else Digits(n / 10) + [DigitChar(n % 10)]
  }

  /** Reads a string of decimal digits as a number (the inverse of Digits). */
  function DecimalValue(s: string): nat
  {
    if s == [] then 0 else 10 * DecimalValue(s[..|s| - 1]) + DigitValue(s[|s| - 1])
  }

  /** Reading back the digits of `n` gives `n`; the leading digit is zero only for 0. */
  lemma {:induction false} DigitsRoundTrip(n: nat)
    ensures DecimalValue(Digits(n)) == n
    ensures Digits(n)[0] == '0' <==> n == 0
  {
    if n >= 10 {
      DigitsRoundTrip(n / 10);
      var s := Digits(n);
      assert s[..|s| - 1] == Digits(n / 10);
      assert s[0] == Digits(n / 10)[0];
    }
  }

  /** Exactly three digits, zero-padded: the `{:03}` of a group below 1000. */
  function Pad3(m: nat): (s: string)
    requires m < 1000
    ensures |s| == 3
  {
    [DigitChar(m / 100), DigitChar(m / 10 % 10), DigitChar(m % 10)]
  }

  /** Exactly two digits, zero-padded. */
  function Pad2(m: nat): (s: string)
    requires m < 100
    ensures |s| == 2 && IsDigit(s[0]) && IsDigit(s[1])
  {
    [DigitChar(m / 10), DigitChar(m % 10)]
  }

  lemma Pad2Value(m: nat)
    requires m < 100
    ensures DecimalValue(Pad2(m)) == m
  {
    var s := Pad2(m);
    assert s[..1] == [DigitChar(m / 10)];
    assert s[..1][..0] == [];
    assert DecimalValue(s[..1]) == m / 10;
    assert DecimalValue(s) == 10 * (m / 10) + m % 10;
  }

  lemma DigitsSplit3(n: nat)
    requires n >= 1000
    ensures Digits(n) == Digits(n / 1000) + Pad3(n % 1000)
  {
    var q, m := n / 1000, n % 1000;
    var a, b, c := m / 100, m / 10 % 10, m % 10;
    assert m == 100 * a + 10 * b + c;
    assert n == 1000 * q + 100 * a + 10 * b + c;
    assert n / 10 == 100 * q + 10 * a + b;
    assert n % 10 == c;
    assert n / 10 / 10 == 10 * q + a;
    assert n / 10 % 10 == b;
    assert n / 10 / 10 / 10 == q;
    assert n / 10 / 10 % 10 == a;
    calc {
      Digits(n);
      Digits(n / 10) + [DigitChar(c)];
      Digits(n / 10 / 10) + [DigitChar(b)] + [DigitChar(c)];
      Digits(q) + [DigitChar(a)] + [DigitChar(b)] + [DigitChar(c)];
      Digits(q) + Pad3(m);
    }
  }

  // ---------------------------------------------------------------------------
  // Thousands grouping `{:,}`

  /** The digits of `n` with a comma between every group of three, counted from the right. */
  function Grouped(n: nat): (s: string)
    ensures 1 <= |s|
  {
    if n < 1000 then Digits(n) else Grouped(n / 1000) + "," + Pad3(n % 1000)
  }

  /** `s` with every comma taken out. */
  function RemoveCommas(s: string): (r: string)
    ensures |r| <= |s|
  {
    if s == [] then [] else (if s[0] == ',' then [] else [s[0]]) + RemoveCommas(s[1..])
  }

  lemma {:induction false} RemoveCommasAppend(a: string, b: string)
    ensures RemoveCommas(a + b) == RemoveCommas(a) + RemoveCommas(b)
  {
    if a == [] {
      assert a + b == b;
    } else {
      assert (a + b)[0] == a[0];
      assert (a + b)[1..] == a[1..] + b;
      RemoveCommasAppend(a[1..], b);
    }
  }

  lemma {:induction false} RemoveCommasNoComma(s: string)
    requires forall i :: 0 <= i < |s| ==> IsDigit(s[i])
    ensures RemoveCommas(s) == s
  {
    if s != [] {
      RemoveCommasNoComma(s[1..]);
    }
  }

  /** Taking the commas out of the grouped form gives the plain decimal digits. */
  lemma {:induction false} GroupedUngroup(n: nat)
    ensures RemoveCommas(Grouped(n)) == Digits(n)
  {
    if n < 1000 {
      RemoveCommasNoComma(Digits(n));
    } else {
      GroupedUngroup(n / 1000);
      RemoveCommasAppend(Grouped(n / 1000) + ",", Pad3(n % 1000));
      RemoveCommasAppend(Grouped(n / 1000), ",");
      RemoveCommasNoComma(Pad3(n % 1000));
      DigitsSplit3(n);
    }
  }

  /** Every comma stands where three, seven, eleven ... characters follow it, and only there. */
  predicate CommasEveryThird(s: string)
  {
    forall i :: 0 <= i < |s| ==> (s[i] == ',' <==> (|s| - 1 - i) % 4 == 3)
  }

  predicate DigitsAndCommas(s: string)
  {
    forall i :: 0 <= i < |s| ==> s[i] == ',' || IsDigit(s[i])
  }

  lemma AppendGroup(p: string, g: string)
    requires CommasEveryThird(p) && DigitsAndCommas(p)
    requires |g| == 3 && forall i :: 0 <= i < 3 ==> IsDigit(g[i])
    ensures CommasEveryThird(p + "," + g) && DigitsAndCommas(p + "," + g)
  {
    var s := p + "," + g;
    forall i | 0 <= i < |s|
      ensures (s[i] == ',' <==> (|s| - 1 - i) % 4 == 3)
      ensures s[i] == ',' || IsDigit(s[i])
    {
      if i < |p| {
        assert s[i] == p[i];
        assert (|s| - 1 - i) % 4 == (|p| - 1 - i) % 4;
      } else if i > |p| {
        assert s[i] == g[i - |p| - 1];
      }
    }
  }

  /** The grouped form is digits and commas with a comma before every third digit from
      the right; it starts with a digit, which is '0' only for 0. */
  lemma {:induction false} GroupedShape(n: nat)
    ensures CommasEveryThird(Grouped(n)) && DigitsAndCommas(Grouped(n))
    ensures Grouped(n)[0] == Digits(n)[0]
  {
    if n < 1000 {
      var s := Digits(n);
      assert forall i :: 0 <= i < |s| ==> s[i] != ',' && |s| - 1 - i < 3;
    } else {
      GroupedShape(n / 1000);
      var p := Grouped(n / 1000);
      AppendGroup(p, Pad3(n % 1000));
      DigitsSplit3(n);
      assert Grouped(n) == p + "," + Pad3(n % 1000);
      assert Grouped(n)[0] == p[0];
      assert Digits(n)[0] == Digits(n / 1000)[0];
    }
  }

  // ---------------------------------------------------------------------------
  // Rounding

  /** Rounding to the nearest integer, ties to the even neighbour. */
  function RoundHalfEven(x: real): (k: int)
    ensures -1.0 / 2.0 <= k as real - x <= 1.0 / 2.0
    ensures x >= 0.0 ==> k >= 0
  {
    var f := x.Floor;
    var frac := x - f as real;
    if frac < 1.0 / 2.0 then f
    else if frac > 1.0 / 2.0 then f + 1
    else if f % 2 == 0 then f else f + 1
  }

  lemma RoundHalfEvenTies(x: real)
    ensures RoundHalfEven(x) as real == x <==> x == x.Floor as real
    ensures x - x.Floor as real == 1.0 / 2.0 ==> RoundHalfEven(x) % 2 == 0
  {
  }

  // ---------------------------------------------------------------------------
  // Format specifications

  /** `'{:,.0f}'.format(x)`: rounded to a whole number, grouped by thousands. The '-'
      of a negative `x` is kept to match Python's format; the row formatter only ever
      passes a non-negative amount. */
  function FormatThousands(x: real): string
  {
    (if x < 0.0 then "-" else "") + Grouped(RoundHalfEven(if x < 0.0 then -x else x))
  }

  /** `'{:.2%}'.format(x)`: `x` times 100 with exactly two decimals, then '%'. */
  function FormatPercent(x: real): string
  {
    var hundredths := RoundHalfEven(10000.0 * (if x < 0.0 then -x else x));
    (if x < 0.0 then "-" else "") + Digits(hundredths / 100) + "." + Pad2(hundredths % 100) + "%"
  }

  /** Reads a percentage written as `[-]digits.dd%` back as a number of percent. */
  function ReadPercent(s: string): real
  {
    var neg := |s| > 0 && s[0] == '-';
    var body := if |s| > 0 && s[|s| - 1] == '%' then s[(if neg then 1 else 0)..|s| - 1] else [];
    if neg then -ReadFixed2(body) else ReadFixed2(body)
  }

  /** Reads `digits.dd` as the whole part plus the hundredths. */
  function ReadFixed2(b: string): real
  {
    if |b| < 3 then 0.0
    else DecimalValue(b[..|b| - 3]) as real + DecimalValue(b[|b| - 2..]) as real / 100.0
  }

  /** Reading `[-]ip.fp%` gives the signed value of `ip` plus `fp` hundredths. */
  lemma ReadPercentParts(neg: bool, ip: string, fp: string)
    requires |ip| >= 1 && ip[0] != '-' && |fp| == 2
    ensures var s := (if neg then "-" else "") + ip + "." + fp + "%";
      var magnitude := DecimalValue(ip) as real + DecimalValue(fp) as real / 100.0;
      ReadPercent(s) == if neg then -magnitude else magnitude
  {
    var sign: string := if neg then "-" else "";
    var b := ip + "." + fp;
    AppendAssoc(sign, ip, ".");
    AppendAssoc(sign, ip + ".", fp);
    PercentTextParts(neg, b);
    PercentBodyParts(ip, fp);
  }

  lemma AppendAssoc(a: string, b: string, c: string)
    ensures a + b + c == a + (b + c)
  {
  }

  /** `[-]b%` reads as `b`, negated when the sign is there. */
  lemma PercentTextParts(neg: bool, b: string)
    requires |b| >= 1 && b[0] != '-'
    ensures var s := (if neg then "-" else "") + b + "%";
      ReadPercent(s) == if neg then -ReadFixed2(b) else ReadFixed2(b)
  {
    var sign: string := if neg then "-" else "";
    var s := sign + b + "%";
    if !neg { assert s[0] == b[0]; }
    assert s[|sign|..|s| - 1] == b;
  }

  /** `ip.fp` with a two-character `fp` reads as `ip` plus `fp` hundredths. */
  lemma PercentBodyParts(ip: string, fp: string)
    requires |fp| == 2
    ensures ReadFixed2(ip + "." + fp) == DecimalValue(ip) as real + DecimalValue(fp) as real / 100.0
  {
    var b := ip + "." + fp;
    assert b[..|b| - 3] == ip;
    assert b[|b| - 2..] == fp;
  }

  /** A whole number of hundredths, split at the hundreds, is that number over 100. */
  lemma HundredthsValue(h: nat)
    ensures (h / 100) as real + (h % 100) as real / 100.0 == h as real / 100.0
  {
    assert h == 100 * (h / 100) + h % 100;
    assert h as real == 100.0 * (h / 100) as real + (h % 100) as real;
  }

  /** `[-]digits.dd%`: an optional '-', a whole part of digits without a leading zero
      (other than "0" itself), a '.', two digits and a final '%'. */
  predicate IsPercentText(s: string)
  {
    var k := if |s| > 0 && s[0] == '-' then 1 else 0;
    && k + 5 <= |s| && s[|s| - 1] == '%' && s[|s| - 4] == '.'
    && (forall i :: k <= i < |s| - 4 ==> IsDigit(s[i]))
    && IsDigit(s[|s| - 3]) && IsDigit(s[|s| - 2])
    && (s[k] == '0' ==> k + 1 == |s| - 4)
  }

  /** The percentage text has the shape `[-]digits.dd%` and is negative exactly when
      `x` is. */
  lemma FormatPercentShape(x: real)
    ensures IsPercentText(FormatPercent(x))
    ensures FormatPercent(x)[0] == '-' <==> x < 0.0
  {
    var a := if x < 0.0 then -x else x;
    var h := RoundHalfEven(10000.0 * a);
    var ip, fp := Digits(h / 100), Pad2(h % 100);
    assert FormatPercent(x) == (if x < 0.0 then "-" else "") + ip + "." + fp + "%";
    DigitsRoundTrip(h / 100);
    PercentTextOf(x < 0.0, ip, fp);
  }

  /** `[-]ip.fp%` is a percentage text when `ip` is digits without a leading zero and
      `fp` two digits. */
  lemma PercentTextOf(neg: bool, ip: string, fp: string)
    requires 1 <= |ip| && (forall i :: 0 <= i < |ip| ==> IsDigit(ip[i])) && (ip[0] == '0' ==> |ip| == 1)
    requires |fp| == 2 && IsDigit(fp[0]) && IsDigit(fp[1])
    ensures var s := (if neg then "-" else "") + ip + "." + fp + "%";
      IsPercentText(s) && (s[0] == '-' <==> neg)
  {
    var sign: string := if neg then "-" else "";
    var s := sign + ip + "." + fp + "%";
    var k := |sign|;
    assert s[|s| - 4] == '.';
    assert s[|s| - 3] == fp[0] && s[|s| - 2] == fp[1];
    assert s[k] == ip[0];
    forall i | k <= i < |s| - 4
      ensures IsDigit(s[i])
    {
      assert s[i] == ip[i - k];
    }
  }

  /** The percentage text reads back within half a hundredth of `100 * x`. */
  lemma FormatPercentReadBack(x: real)
    ensures -1.0 / 200.0 <= ReadPercent(FormatPercent(x)) - 100.0 * x <= 1.0 / 200.0
  {
    var a := if x < 0.0 then -x else x;
    var h := RoundHalfEven(10000.0 * a);
    var ip, fp := Digits(h / 100), Pad2(h % 100);
    assert FormatPercent(x) == (if x < 0.0 then "-" else "") + ip + "." + fp + "%";
    assert IsDigit(ip[0]);
    ReadPercentParts(x < 0.0, ip, fp);
    DigitsRoundTrip(h / 100);
    Pad2Value(h % 100);
    HundredthsValue(h);
    assert -1.0 / 200.0 <= h as real / 100.0 - 100.0 * a <= 1.0 / 200.0;
  }

  /** A number of percent `v`, passed as the fraction `v / 100`, is written as a
      percentage text signed as `v` that reads back within half a hundredth of `v`. */
  lemma PercentOfFraction(v: real)
    ensures IsPercentText(FormatPercent(v / 100.0))
    ensures FormatPercent(v / 100.0)[0] == '-' <==> v < 0.0
    ensures -1.0 / 200.0 <= ReadPercent(FormatPercent(v / 100.0)) - v <= 1.0 / 200.0
  {
    var y := v / 100.0;
    FormatPercentShape(y);
    FormatPercentReadBack(y);
    assert 100.0 * y == v;
  }

  /** A worked text: a 6% rate, passed as the fraction 0.06, is written `6.00%`. */
  lemma FormatExamples()
    ensures FormatPercent(6.0 / 100.0) == "6.00%"
  {
    assert (10000.0 * (6.0 / 100.0)).Floor == 600;
    assert RoundHalfEven(10000.0 * (6.0 / 100.0)) == 600;
    assert Digits(6) == "6";
    assert Pad2(0) == "00";
  }
}
