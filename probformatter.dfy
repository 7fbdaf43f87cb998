/** ProbFormatter.java: prints a threshold pn (out of div) as a percentage
    with as many decimals as the configured probabilities need.  Java's
    32-bit and 64-bit integer arithmetic is written out (Int32, Long, JDiv,
    JRem), and the part of String.format that the formatter uses is modelled
    by Render. */
module ProbFormat {
  import opened Lattice
  import opened Wrappers

  const INT_MIN: int := -0x8000_0000
  const LONG_MIN: int := -0x8000_0000_0000_0000
  const LONG_MAX: int := 0x7fff_ffff_ffff_ffff

  /** A Java int result: x reduced into [INT_MIN, MAX_VALUE] modulo 2^32. */
  function Int32(x: int): (r: int)
    ensures INT_MIN <= r <= MAX_VALUE && (x - r) % 0x1_0000_0000 == 0
    ensures INT_MIN <= x <= MAX_VALUE ==> r == x
  {
    (x - INT_MIN) % 0x1_0000_0000 + INT_MIN
  }

  /** A Java long result: x reduced into [LONG_MIN, LONG_MAX] modulo 2^64. */
  function Long(x: int): (r: int)
    ensures LONG_MIN <= r <= LONG_MAX && (x - r) % 0x1_0000_0000_0000_0000 == 0
    ensures LONG_MIN <= x <= LONG_MAX ==> r == x
  {
    (x - LONG_MIN) % 0x1_0000_0000_0000_0000 + LONG_MIN
  }

  /** Java's `/` by a positive divisor: the quotient truncates toward zero,
      and with JRem it splits the dividend. */
  function JDiv(a: int, b: int): (q: int)
    requires b > 0
    ensures a == b * q + JRem(a, b) && -b < JRem(a, b) < b
    ensures a >= 0 ==> q >= 0 && JRem(a, b) >= 0
    ensures a < 0 ==> q <= 0 && JRem(a, b) <= 0
  {
    if a >= 0 then a / b else -((-a) / b)
  }

  function Pow10(k: nat): (r: nat)
    ensures r >= 1
  {
    if k == 0 then 1 else 10 * Pow10(k - 1)
  }

  // ---------------------------------------------------------------- getPrec

  /** The test in getPrec's loop for the multiplier m: some of the two
      hundredths digits of m*from/div and m*(from+step)/div is non-zero. */
  predicate Shows(from: int, step: int, div: int, m: int)
    requires div >= 1
  {
    JRem(JDiv(Long(m * from), div), 100) > 0 ||
    JRem(JDiv(Long(m * Int32(from + step)), div), 100) > 0
  }

  /** The test for precision k, whose multiplier is 10^(k+3). */
  predicate ShowsAt(from: int, step: int, div: int, k: nat)
    requires div >= 1
  {
    Shows(from, step, div, Pow10(k + 3))
  }

  /** p is the precision getPrec must choose: the largest p in 1..4 whose
      multiplier 10^(p+3) shows a digit, or 0 when there is none. */
  ghost predicate IsPrec(from: int, step: int, div: int, p: int)
    requires div >= 1
  {
    0 <= p <= 4 &&
    (p > 0 ==> ShowsAt(from, step, div, p)) &&
    forall k: nat :: p < k <= 4 ==> !ShowsAt(from, step, div, k)
  }

  /** getPrec(from, step, div): counts prec down from 4 while the multiplier
      is divided by 10, stopping at the first multiplier that shows a digit. */
  method GetPrec(from: int, step: int, div: int) returns (prec: int)
    requires div >= 1
    ensures IsPrec(from, step, div, prec)
  {
    prec := 4;
    var mul := 10000000;
    assert Pow10(7) == 10 * Pow10(6) && Pow10(6) == 10 * Pow10(5) && Pow10(5) == 10 * Pow10(4);
    assert Pow10(4) == 10 * Pow10(3) && Pow10(3) == 1000;
    while prec > 0
      invariant 0 <= prec <= 4 && mul == Pow10(prec + 3)
      invariant forall k: nat :: prec < k <= 4 ==> !ShowsAt(from, step, div, k)
    {
      if JRem(JDiv(Long(mul * from), div), 100) > 0 ||
         JRem(JDiv(Long(mul * Int32(from + step)), div), 100) > 0 {
        break;
      }
      prec, mul := prec - 1, mul / 10;
    }
  }

  /** getPrec's products are computed in long and never wrap: the int
      operand times a multiplier of at most 10^7 stays within 64 bits. */
  lemma {:induction false} NoLongOverflow(x: int, k: nat)
    requires INT_MIN <= x <= MAX_VALUE && k <= 7
    ensures Long(Pow10(k) * x) == Pow10(k) * x
  {
    Pow10Le(k, 7);
    var m := Pow10(k);
    assert Pow10(7) == 10000000;
    if x >= 0 {
      MulLe(m, 10000000, x, MAX_VALUE);
    } else {
      MulLe(m, 10000000, -x, -INT_MIN);
      assert m * x == -(m * -x);
    }
  }

  lemma {:induction false} Pow10Le(j: nat, k: nat)
    requires j <= k
    ensures Pow10(j) <= Pow10(k)
    decreases k
  {
    if j < k {
      Pow10Le(j, k - 1);
    }
  }

  lemma MulLe(a: nat, b: nat, c: nat, d: nat)
    requires a <= b && c <= d
    ensures a * c <= b * d
  {
    assert a * c <= b * c;
  }

  // ---------------------------------------------------------- String.format

  predicate IsDigit(c: char) { '0' <= c <= '9' }

  function Digit(k: int): (c: char)
    requires 0 <= k < 10
    ensures IsDigit(c) && c as int - '0' as int == k
  {
    ('0' as int + k) as char
  }

  /** The decimal digits of n, most significant first, with no leading zero. */
  function Digits(n: nat): (s: string)
    ensures |s| >= 1 && forall i :: 0 <= i < |s| ==> IsDigit(s[i])
    ensures |s| > 1 ==> s[0] != '0'
  {
    if n < 10 then [Digit(n)] else Digits(n / 10) + [Digit(n % 10)]
  }

  /** The number a string of digits denotes. */
  function Value(s: string): nat
    requires forall i :: 0 <= i < |s| ==> IsDigit(s[i])
  {
    if s == [] then 0 else 10 * Value(s[..|s| - 1]) + DigitValue(s[|s| - 1])
  }

  function DigitValue(c: char): nat
    requires IsDigit(c)
  {
    c as int - '0' as int
  }

  /** Reading back the digits of n gives n. */
  lemma {:induction false} DigitsValue(n: nat)
    ensures Value(Digits(n)) == n
  {
    if n >= 10 {
      DigitsValue(n / 10);
      var s := Digits(n);
      assert s[..|s| - 1] == Digits(n / 10);
    }
  }

  /** Leading zeros do not change the value of a digit string. */
  lemma {:induction false} ZerosValue(k: int, s: string)
    requires forall i :: 0 <= i < |s| ==> IsDigit(s[i])
    ensures Value(Zeros(k) + s) == Value(s)
    decreases |s|
  {
    var t := Zeros(k) + s;
    if s == [] {
      assert t == Zeros(k);
      ZerosValueAlone(k);
    } else {
      assert t[..|t| - 1] == Zeros(k) + s[..|s| - 1];
      assert t[|t| - 1] == s[|s| - 1];
      ZerosValue(k, s[..|s| - 1]);
    }
  }

  lemma {:induction false} ZerosValueAlone(k: int)
    ensures Value(Zeros(k)) == 0
    decreases k
  {
    if k > 0 {
      var z := Zeros(k);
      assert z[..|z| - 1] == Zeros(k - 1);
      ZerosValueAlone(k - 1);
    }
  }

  function Zeros(k: int): (s: string)
    ensures |s| == (if k > 0 then k else 0) && forall i :: 0 <= i < |s| ==> s[i] == '0'
    decreases k
  {
    if k <= 0 then [] else ['0'] + Zeros(k - 1)
  }

  /** `%d`: an optional minus sign, then the digits of the magnitude. */
  function Decimal(n: int): (s: string)
    ensures n >= 0 ==> (forall i :: 0 <= i < |s| ==> IsDigit(s[i])) && Value(s) == n
    ensures n < 0 ==> |s| >= 2 && s[0] == '-' && (forall i :: 1 <= i < |s| ==> IsDigit(s[i])) &&
                      Value(s[1..]) == -n
  {
    if n < 0 then
      DigitsValue(-n);
      assert ("-" + Digits(-n))[1..] == Digits(-n);
      "-" + Digits(-n)
    else
      DigitsValue(n);
      Digits(n)
  }

  /** `%0wd`: like `%d`, with zeros between the sign and the digits so that
      the field is at least w characters wide. */
  function Padded(n: int, w: int): (s: string)
    ensures |s| >= w
    ensures n >= 0 ==> (forall i :: 0 <= i < |s| ==> IsDigit(s[i])) && Value(s) == n
  {
    var sign := if n < 0 then "-" else "";
    var ds := Digits(if n < 0 then -n else n);
    var z := Zeros(w - |sign| - |ds|);
    if n < 0 then sign + z + ds
    else
      ZerosValue(w - |ds|, ds);
      DigitsValue(n);
      z + ds
  }

  /** String.format restricted to the directives `%d`, `%0wd` (w a single
      digit 1..9) and `%%`; every other character is copied.  A directive
      with no argument left, or any other directive, throws in Java: None.
      Arguments beyond the last directive are ignored, as in Java. */
  function Render(fmt: string, args: seq<int>): (r: Option<string>)
    decreases |fmt|
  {
    if fmt == [] then Some([])
    else if fmt[0] != '%' then Prefix([fmt[0]], Render(fmt[1..], args))
    else if |fmt| >= 2 && fmt[1] == '%' then Prefix("%", Render(fmt[2..], args))
    else if |fmt| >= 2 && fmt[1] == 'd' && args != [] then
      Prefix(Decimal(args[0]), Render(fmt[2..], args[1..]))
    else if |fmt| >= 4 && fmt[1] == '0' && '1' <= fmt[2] <= '9' && fmt[3] == 'd' && args != [] then
      Prefix(Padded(args[0], fmt[2] as int - '0' as int), Render(fmt[4..], args[1..]))
    else None
  }

  function Prefix(p: string, r: Option<string>): Option<string>
  {
    if r.Some? then Some(p + r.value) else None
  }

  // ------------------------------------------------------------ the format

  /** The format string the constructor derives from prec. */
  function FmtFor(prec: int): string
    requires 0 <= prec <= 4
  {
    if prec > 0 then "%d.%0" + [Digit(prec)] + "d%%" else "%d%%"
  }

  /** What the derived format string prints for the pair (a, b): a, and only
      when prec > 0 a point and b zero-padded to prec places; then a percent
      sign.  With prec == 0 the second value is not printed. */
  lemma FmtRenders(prec: int, a: int, b: int)
    requires 0 <= prec <= 4
    ensures Render(FmtFor(prec), [a, b]) ==
            Some(Decimal(a) + (if prec > 0 then "." + Padded(b, prec) else "") + "%")
  {
    var f := FmtFor(prec);
    assert [a, b][1..] == [b];
    if prec > 0 {
      var p := Padded(b, prec);
      FracRenders(prec, b);
      assert Decimal(a) + ("." + p + "%") == Decimal(a) + ("." + p) + "%";
    } else {
      assert f == ['%', 'd'] + PercentSign();
      assert f[2..] == PercentSign();
      PercentRenders([b]);
      assert Decimal(a) + "" + "%" == Decimal(a) + "%";
    }
  }

  function PercentSign(): string { ['%', '%'] }

  /** `%%` prints a percent sign and takes no argument. */
  lemma PercentRenders(args: seq<int>)
    ensures Render(PercentSign(), args) == Some("%")
  {
    var pp, e: string := PercentSign(), [];
    assert pp[2..] == e && "%" + e == "%";
  }

  /** The tail ".%0<prec>d%%" of the format prints the point and the
      padded fraction. */
  lemma FracRenders(prec: int, b: int)
    requires 1 <= prec <= 4
    ensures Render(FmtFor(prec)[2..], [b]) == Some("." + Padded(b, prec) + "%")
  {
    var f := FmtFor(prec);
    var c := Digit(prec);
    assert f == ['%', 'd', '.', '%', '0', c, 'd'] + PercentSign();
    var p := Padded(b, prec);
    assert Render(f[3..], [b]) == Some(p + "%") by {
      assert f[3..][4..] == PercentSign();
      PercentRenders([b][1..]);
    }
    assert f[2..][1..] == f[3..];
    assert ['.'] + (p + "%") == "." + p + "%";
  }

  /** A ProbFormatter: its multiplier 10^prec, the divisor and the format
      string, all fixed when it is built. */
  datatype Formatter = Formatter(mul: int, div: int, fmt: string)

  /** The formatter built for precision prec. */
  function Built(prec: int, div: int): Formatter
    requires 0 <= prec <= 4
  {
    Formatter(Pow10(prec), div, FmtFor(prec))
  }

  /** The constructor ProbFormatter(gc): prec is getPrec(from, step, div),
      mul is 10^prec and fmt carries a prec-digit fraction field only when
      prec > 0. */
  method NewFormatter(from: int, step: int, div: int) returns (f: Formatter)
    requires div >= 1
    ensures f.div == div
    ensures exists p :: IsPrec(from, step, div, p) && f == Built(p, div)
  {
    var prec := GetPrec(from, step, div);
    f := Formatter(Pow10(prec), div, if prec > 0 then "%d.%0" + [Digit(prec)] + "d%%" else "%d%%");
    assert f == Built(prec, div);
  }

  /** The first field of the printed value: 100*pn/div, in int arithmetic. */
  function Whole(div: int, pn: int): int
    requires div >= 1
  {
    JDiv(Int32(100 * pn), div)
  }

  /** The second field as written: pn*mul%100/mul, in int arithmetic. */
  function FracAsWritten(mul: int, pn: int): int
    requires mul >= 1
  {
    JDiv(JRem(Int32(pn * mul), 100), mul)
  }

  /** The second field as intended: the first prec decimals of 100*pn/div,
      that is 100*pn*mul/div % mul (the product fits in a long). */
  function Frac(mul: int, div: int, pn: int): int
    requires mul >= 1 && div >= 1
  {
    JRem(JDiv(100 * pn * mul, div), mul)
  }

  /** format(pn) as written: null (None) exactly for a negative pn and for
      the MAX_VALUE sentinel, with line 33's fraction field otherwise. */
  function FormatAsWritten(f: Formatter, pn: int): (r: Option<string>)
    requires f.mul >= 1 && f.div >= 1
    requires exists p :: 0 <= p <= 4 && f == Built(p, f.div)
    ensures r.None? <==> pn < 0 || pn == MAX_VALUE
  {
    var a, b := Whole(f.div, pn), FracAsWritten(f.mul, pn);
    FmtDefined(f, a, b);
    if pn < 0 || pn == MAX_VALUE then None else Render(f.fmt, [a, b])
  }

  /** format(pn) with the fraction field corrected: null (None) exactly for a
      negative pn and for the MAX_VALUE sentinel of an unreached vertex. */
  function Format(f: Formatter, pn: int): (r: Option<string>)
    requires f.mul >= 1 && f.div >= 1
    requires exists p :: 0 <= p <= 4 && f == Built(p, f.div)
    ensures r.None? <==> pn < 0 || pn == MAX_VALUE
  {
    var a, b := Whole(f.div, pn), Frac(f.mul, f.div, pn);
    FmtDefined(f, a, b);
    if pn < 0 || pn == MAX_VALUE then None else Render(f.fmt, [a, b])
  }

  lemma FmtDefined(f: Formatter, a: int, b: int)
    requires exists p :: 0 <= p <= 4 && f == Built(p, f.div)
    ensures Render(f.fmt, [a, b]).Some?
  {
    var p :| 0 <= p <= 4 && f == Built(p, f.div);
    FmtRenders(p, a, b);
  }

  /** The printed text of a threshold: the whole percent, then for prec > 0
      a point and the prec-digit fraction, then a percent sign. */
  lemma FormatText(prec: int, div: int, pn: int)
    requires 0 <= prec <= 4 && div >= 1 && 0 <= pn < MAX_VALUE
    ensures Format(Built(prec, div), pn) == Some(Decimal(Whole(div, pn)) +
              (if prec > 0 then "." + Padded(Frac(Pow10(prec), div, pn), prec) else "") + "%")
  {
    FmtRenders(prec, Whole(div, pn), Frac(Pow10(prec), div, pn));
  }

  /** The corrected fields print pn/div truncated to prec decimals of a
      percent: while 100*pn fits in an int, whole*10^prec + frac is
      100*pn*10^prec/div, and frac has at most prec digits. */
  lemma FracTruncates(prec: int, div: int, pn: int)
    requires 0 <= prec <= 4 && div >= 1 && 0 <= pn && 100 * pn <= MAX_VALUE
    ensures 0 <= Frac(Pow10(prec), div, pn) < Pow10(prec)
    ensures Whole(div, pn) * Pow10(prec) + Frac(Pow10(prec), div, pn) == 100 * pn * Pow10(prec) / div
  {
    var m := Pow10(prec);
    var a := 100 * pn;
    var q := a * m / div;
    assert Whole(div, pn) == a / div by {
      assert Int32(a) == a;
    }
    assert Frac(m, div, pn) == q % m by {
      assert JDiv(a * m, div) == q;
    }
    assert q / m == a / div by {
      DivMulSwap(a, m, div);
    }
    Euclid(q, m);
  }

  lemma Euclid(x: int, m: int)
    requires m >= 1
    ensures x == (x / m) * m + x % m
  {
  }

  /** Scaling the dividend by m and dividing the quotient by m again gives
      the plain quotient. */
  lemma DivMulSwap(a: nat, m: nat, d: nat)
    requires m >= 1 && d >= 1
    ensures a * m / d / m == a / d
  {
    var s := MulDivSplit(a, m, d);
    SmallAdd(a / d, s, m);
  }

  /** a*m/d is (a/d)*m plus a part below m. */
  lemma MulDivSplit(a: nat, m: nat, d: nat) returns (s: nat)
    requires m >= 1 && d >= 1
    ensures a * m / d == (a / d) * m + s && s < m
  {
    var q, r := a / d, a % d;
    Euclid(a, d);
    var rm := r * m;
    BelowTimes(r, m, d);
    s := rm / d;
    DivBelow(rm, d, m);
    MulSplit(a, q, r, m, d);
    DivAddTo(a * m, q * m, rm, d);
  }

  lemma BelowTimes(r: nat, m: nat, d: nat)
    requires r < d
    ensures r * m <= d * m - m
  {
    MulLe(r, d - 1, m, m);
    Distrib(d, -1, m);
  }

  lemma DivAddTo(t: nat, x: nat, y: nat, d: nat)
    requires d >= 1 && t == x * d + y
    ensures t / d == x + y / d
  {
    DivAdd(x, y, d);
  }

  lemma MulSplit(a: nat, q: nat, r: nat, m: nat, d: nat)
    requires a == q * d + r
    ensures a * m == (q * m) * d + r * m
  {
    Distrib(q * d, r, m);
    assert (q * d) * m == (q * m) * d;
  }

  lemma SmallAdd(q: nat, s: nat, m: nat)
    requires m >= 1 && s < m
    ensures (q * m + s) / m == q
  {
    DivUnique(q * m + s, m, q, s);
  }

  lemma Distrib(x: int, y: int, m: int)
    ensures (x + y) * m == x * m + y * m
  {
  }

  /** x below d*m has a quotient by d below m. */
  lemma DivBelow(x: nat, d: nat, m: nat)
    requires d >= 1 && x < d * m
    ensures x / d < m
  {
    assert x == (x / d) * d + x % d;
  }

  /** a == q*d + r with 0 <= r < d fixes the quotient and remainder. */
  lemma DivUnique(a: int, d: int, q: int, r: int)
    requires d >= 1 && 0 <= r < d && a == q * d + r
    ensures a / d == q && a % d == r
  {
    var q', r' := a / d, a % d;
    assert a == q' * d + r';
    if q' < q {
      Distrib(q', 1, d);
      MulMono(q' + 1, q, d);
    } else if q < q' {
      Distrib(q, 1, d);
      MulMono(q + 1, q', d);
    }
  }

  lemma MulMono(x: int, y: int, d: int)
    requires x <= y && d >= 1
    ensures x * d <= y * d
  {
    Distrib(x, y - x, d);
    assert (y - x) * d >= 0;
  }

  /** (x*d + y) / d == x + y / d for non-negative x, y. */
  lemma DivAdd(x: nat, y: nat, d: nat)
    requires d >= 1
    ensures (x * d + y) / d == x + y / d
  {
    var t := y / d;
    assert y == t * d + y % d;
    Distrib(x, t, d);
    DivUnique(x * d + y, d, x + t, y % d);
  }

  // --------------------------------------------------------------- finding

  /** As written, the fraction field is a remainder below 100 divided by mul,
      so from prec 2 on (mul >= 100) it is always 0. */
  lemma FracAsWrittenVanishes(mul: int, pn: int)
    requires mul >= 100
    ensures FracAsWritten(mul, pn) == 0
  {
    SmallQuotient(JRem(Int32(pn * mul), 100), mul);
  }

  lemma SmallQuotient(t: int, mul: int)
    requires -100 < t < 100 && mul >= 100
    ensures JDiv(t, mul) == 0
  {
    if t >= 0 {
      DivUnique(t, mul, 0, t);
    } else {
      DivUnique(-t, mul, 0, -t);
    }
  }

  /** from = 0, step = 1 and div = 10000 make the precision 2. */
  lemma ExamplePrec()
    ensures IsPrec(0, 1, 10000, 2)
  {
    assert Pow10(5) == 100000 && Pow10(6) == 1000000 && Pow10(7) == 10000000;
    assert JDiv(100000, 10000) == 10 && JRem(10, 100) == 10;
    assert JDiv(1000000, 10000) == 100 && JRem(100, 100) == 0;
    assert JDiv(10000000, 10000) == 1000 && JRem(1000, 100) == 0;
    assert JDiv(0, 10000) == 0 && JRem(0, 100) == 0;
    assert ShowsAt(0, 1, 10000, 2);
    assert !ShowsAt(0, 1, 10000, 3) && !ShowsAt(0, 1, 10000, 4);
  }

  /** With that formatter the threshold pn = 1234 is 12.34 percent; as
      written it prints "12.00%". */
  lemma FormatAsWrittenExample()
    ensures FormatAsWritten(Built(2, 10000), 1234) == Some("12.00%")
  {
    ExampleWhole();
    FracAsWrittenVanishes(100, 1234);
    FmtRenders(2, 12, 0);
    ExampleText(0, "00");
    assert "12." + "00" + "%" == "12.00%";
  }

  /** Corrected, the same threshold prints "12.34%". */
  lemma FormatExample()
    ensures Format(Built(2, 10000), 1234) == Some("12.34%")
  {
    ExampleWhole();
    assert Frac(100, 10000, 1234) == 34 by {
      assert JDiv(12340000, 10000) == 1234;
    }
    FmtRenders(2, 12, 34);
    ExampleText(34, "34");
    assert "12." + "34" + "%" == "12.34%";
  }

  lemma ExampleWhole()
    ensures Built(2, 10000) == Formatter(100, 10000, FmtFor(2)) && Whole(10000, 1234) == 12
  {
    assert Pow10(2) == 100;
    assert JDiv(123400, 10000) == 12;
  }

  lemma ExampleText(frac: int, t: string)
    requires (frac == 0 && t == "00") || (frac == 34 && t == "34")
    ensures Decimal(12) + ("." + Padded(frac, 2)) + "%" == "12." + t + "%"
  {
    Example12();
    if frac == 0 {
      Example00();
    } else {
      Example34();
    }
  }

  lemma Example12()
    ensures Decimal(12) == "12"
  {
    assert Digits(12) == "12";
  }

  lemma Example00()
    ensures Padded(0, 2) == "00"
  {
    assert Digits(0) == "0" && Zeros(1) == "0";
  }

  lemma Example34()
    ensures Padded(34, 2) == "34"
  {
    assert Digits(34) == "34" && Zeros(0) == "";
  }
}
