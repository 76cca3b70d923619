// parseFullToDecimal(input): reads a trimmed decimal number as an Integer, a
// Long, a BigInteger or a BigDecimal. The digit-string comparisons against
// the digits of Integer.MAX_VALUE and Long.MAX_VALUE are proved to be
// numeric comparisons, and the reading is proved to invert
// Integer.toString / Long.toString.
module UniversalStringNumber {
  import opened JavaText
  import UniversalString
  import UniversalStringTrim
  import UniversalStringParsing
  import opened UniversalStringDecimal

  /**
   * The java.lang.Number the parser returns: Integer and Long by value,
   * BigInteger and BigDecimal by the text handed to their constructors.
   */
  datatype Number = IntValue(v: int) | LongValue(v: int) | BigIntegerOf(text: JString) | BigDecimalOf(text: JString)

  const IntMax: int := 0x7fff_ffff
  const LongMax: int := 0x7fff_ffff_ffff_ffff

  predicate IsInt(v: int) { -IntMax - 1 <= v <= IntMax }

  predicate IsLong(v: int) { -LongMax - 1 <= v <= LongMax }

  // ------------------------------------------------------ decimal digits

  function Pow10(k: nat): (r: nat)
    ensures r >= 1
  {
    if k == 0 then 1 else 10 * Pow10(k - 1)
  }

  /** The value of a sequence of decimal digits, most significant first. */
  function DecValue(s: seq<int>): (r: int)
    ensures AllDigits(s) ==> 0 <= r < Pow10(|s|)
  {
    if s == [] then 0
    else
      var init := s[..|s| - 1];
      assert AllDigits(s) ==> AllDigits(init) && IsAsciiDigit(s[|s| - 1]);
      DecValue(init) * 10 + (s[|s| - 1] - '0' as int)
  }

  /** The magnitude with the sign the text carries. */
  function Signed(negative: bool, magnitude: int): int
  {
    if negative then -magnitude else magnitude
  }

  /** The decimal digits of a natural number without leading zeros (Integer.toString for n >= 0). */
  function Digits(n: nat): (r: JString)
    ensures |r| > 0 && AllDigits(r)
    ensures IsAsciiDigit(r[0]) && (n > 0 ==> r[0] != '0' as int)
    ensures r[|r| - 1] == n % 10 + '0' as int
    decreases n
  {
    if n < 10 then [n + '0' as int]
    else
      var init := Digits(n / 10);
      assert forall k | 0 <= k < |init| + 1 :: (init + [n % 10 + '0' as int])[k] == if k < |init| then init[k] else n % 10 + '0' as int;
      init + [n % 10 + '0' as int]
  }

  /** Integer.toString(v) and Long.toString(v). */
  function Text(v: int): (r: JString)
    ensures |r| > 0
  {
    if v < 0 then ['-' as int] + Digits(-v) else Digits(v)
  }

  lemma {:induction false} Pow10Add(a: nat, b: nat)
    ensures Pow10(a + b) == Pow10(a) * Pow10(b)
    decreases a
  {
    if a > 0 {
      Pow10Add(a - 1, b);
      assert Pow10(a + b) == 10 * Pow10(a - 1 + b);
    }
  }

  /** A number from 10^k up to below 10^(k+1) has k + 1 digits. */
  lemma {:induction false} DigitsCount(n: nat, k: nat)
    requires Pow10(k) <= n < Pow10(k + 1)
    ensures |Digits(n)| == k + 1
    decreases k
  {
    if k > 0 {
      DigitsCount(n / 10, k - 1);
    }
  }

  /** The digits of Integer.MAX_VALUE, the INTEGER_MAX_CHAR table: ten of them, the last a 7. */
  function IntMaxText(): (r: JString)
    ensures |r| == 10 && r[9] == '7' as int
  {
    IntMaxDigits();
    Digits(IntMax)
  }

  lemma {:induction false} IntMaxDigits()
    ensures |Digits(IntMax)| == 10 && Digits(IntMax)[9] == '7' as int
  {
    assert Pow10(9) == 1_000_000_000 && Pow10(10) == 10_000_000_000;
    DigitsCount(IntMax, 9);
  }

  /** The digits of Long.MAX_VALUE, the LONG_MAX_CHAR table: nineteen of them, the last a 7. */
  function LongMaxText(): (r: JString)
    ensures |r| == 19 && r[18] == '7' as int
  {
    LongMaxDigits();
    Digits(LongMax)
  }

  lemma {:induction false} LongMaxDigits()
    ensures |Digits(LongMax)| == 19 && Digits(LongMax)[18] == '7' as int
  {
    assert Pow10(9) == 1_000_000_000;
    Pow10Add(9, 9);
    assert Pow10(19) == 10 * Pow10(18);
    DigitsCount(LongMax, 18);
  }

  // ----------------------------------------------- the scan for marks

  /** The indices of the exponent mark, the decimal point and the point after the mark; -1 when absent. */
  datatype Marks = Marks(e: int, d: int, ed: int)

  const NoMarks := Marks(-1, -1, -1)

  predicate InRange(m: Marks, n: int)
  {
    -1 <= m.e < n && -1 <= m.d < n && -1 <= m.ed < n
  }

  /**
   * The scanning loop of parseFullToDecimal from index i with the marks
   * found so far: one `.` before the mark and one after it, one `e` or `E`,
   * a sign only right after the mark, digits everywhere else; None when
   * the loop gives up.
   */
  function Scan(chars: JString, i: nat, m: Marks): (r: Option<Marks>)
    requires i <= |chars| && InRange(m, |chars|)
    ensures r.Some? ==> InRange(r.value, |chars|)
    ensures r.Some? ==> (m.e != -1 ==> r.value.e == m.e) && (m.d != -1 ==> r.value.d == m.d) && (m.ed != -1 ==> r.value.ed == m.ed)
    decreases |chars| - i
  {
    if i == |chars| then Some(m)
    else
      var c := chars[i];
      if c == '.' as int then
        if m.e == -1 then (if m.d != -1 then None else Scan(chars, i + 1, m.(d := i)))
        else (if m.ed != -1 then None else Scan(chars, i + 1, m.(ed := i)))
      else if IsExponentMark(c) then (if m.e != -1 then None else Scan(chars, i + 1, m.(e := i)))
      else if IsSign(c) then (if m.e + 1 != i then None else Scan(chars, i + 1, m))
      else if IsAsciiDigit(c) then Scan(chars, i + 1, m)
      else None
  }

  // ------------------------------------------- the comparison of digits

  /**
   * The loop that compares the digits of a 10- or 19-digit number with
   * those of MAX_VALUE from index i: the first difference decides; for a
   * negative number the last limit digit counts one higher.
   */
  function Fits(d: seq<int>, m: seq<int>, negative: bool, i: nat): bool
    requires |d| == |m| && i <= |m|
    decreases |m| - i
  {
    if i == |m| then true
    else
      var cmp := d[i] - m[i] - (if negative && i == |m| - 1 then 1 else 0);
      if cmp < 0 then true else if cmp > 0 then false else Fits(d, m, negative, i + 1)
  }

  // ----------------------------------------------------- the reading

  /**
   * What parseFullToDecimal returns for the trimmed characters `chars`,
   * with the BigInteger or BigDecimal text cut from `origin` at the
   * indices of `chars`.
   */
  function ReadNumber(chars: JString, origin: JString): (r: Result<Option<Number>>)
    requires 0 < |chars| <= |origin|
    ensures r.Err? ==> r.error == IndexOutOfBounds && |chars| == 1 && IsSign(chars[0])
    ensures r.Ok? && r.value.Some? && r.value.value.BigIntegerOf? ==> |chars| >= 19
  {
    var negative := chars[0] == '-' as int;
    var si := if IsSign(chars[0]) then 1 else 0;
    var ei := |chars| - 1;
    var marks := Scan(chars, si, NoMarks);
    if marks.None? then Ok(None)
    else
      var m := marks.value;
      if m.e != -1 && m.e == ei then Ok(None)
      else if m.e != -1 && IsSign(chars[m.e + 1]) && m.e + 1 == ei then Ok(None)
      else
        var number := origin[si - (if negative then 1 else 0)..ei + 1];
        if m != NoMarks then Ok(Some(BigDecimalOf(number))) else Integral(chars, si, negative, number)
  }

  /**
   * The branch for a number without mark or point: an Integer when it has
   * fewer than 10 digits or 10 that compare within Integer.MAX_VALUE, else a
   * Long on the same terms with 19 digits, else a BigInteger of `number`;
   * a lone sign fails on reading the first digit.
   */
  function Integral(chars: JString, si: nat, negative: bool, number: JString): (r: Result<Option<Number>>)
    requires si <= |chars|
    ensures r.Err? ==> r.error == IndexOutOfBounds && si == |chars|
    // never null and never a BigDecimal; the kind follows the number of digits
    ensures r.Ok? ==> r.value.Some? && !r.value.value.BigDecimalOf?
    ensures r.Ok? && r.value.value.IntValue? ==> |chars| - si <= 10
    ensures r.Ok? && r.value.value.LongValue? ==> |chars| - si <= 19
    ensures r.Ok? && r.value.value.BigIntegerOf? ==> |chars| - si >= 19
  {
    var digits, len := chars[si..], |chars| - si;
    if len == 0 then Err(IndexOutOfBounds)
    else if len < 10 || (len == 10 && Fits(digits, IntMaxText(), negative, 0)) then
      Ok(Some(IntValue(Signed(negative, DecValue(digits)))))
    else if len < 19 || (len == 19 && Fits(digits, LongMaxText(), negative, 0)) then
      Ok(Some(LongValue(Signed(negative, DecValue(digits)))))
    else Ok(Some(BigIntegerOf(number)))
  }

  /** The trimmed characters parseFullToDecimal reads. */
  function Trimmed(input: Option<JString>): (r: JString)
    ensures input.Some? ==> |r| <= |input.value|
  {
    UniversalStringParsing.AsCharacters(input, UniversalString.IsWhitespace)
  }

  /**
   * parseFullToDecimal(input) as written: the BigInteger and BigDecimal
   * text is cut from the untrimmed input at the indices of the trimmed
   * characters.
   */
  function ParseNumberAsWritten(input: Option<JString>): Result<Option<Number>>
  {
    var chars := Trimmed(input);
    if UniversalString.IsEmpty(input) || chars == [] then Ok(None) else ReadNumber(chars, input.value)
  }

  /** parseFullToDecimal(input) with the text cut from the trimmed characters. */
  function ParseNumber(input: Option<JString>): (r: Result<Option<Number>>)
    ensures UniversalString.IsEmpty(input) ==> r == Ok(None)
    ensures r.Err? ==> r.error == IndexOutOfBounds && |Trimmed(input)| == 1 && IsSign(Trimmed(input)[0])
  {
    var chars := Trimmed(input);
    if UniversalString.IsEmpty(input) || chars == [] then Ok(None) else ReadNumber(chars, chars)
  }

  // ------------------------------------------------ digits and values

  /** Digits and DecValue are inverse: the digits of n read back as n. */
  lemma {:induction false} DigitsValue(n: nat)
    ensures DecValue(Digits(n)) == n
    decreases n
  {
    var r := Digits(n);
    if n >= 10 {
      DigitsValue(n / 10);
      assert r[..|r| - 1] == Digits(n / 10);
    } else {
      assert r[..0] == [];
    }
  }

  /** DecValue read from the front: the first digit weighs 10^(|s|-1). */
  lemma {:induction false} DecValueCons(s: seq<int>)
    requires |s| > 0
    ensures DecValue(s) == (s[0] - '0' as int) * Pow10(|s| - 1) + DecValue(s[1..])
    decreases |s|
  {
    var n := |s|;
    if n == 1 {
      assert s[..0] == [] && s[1..] == [];
    } else {
      var init := s[..n - 1];
      DecValueCons(init);
      assert s[1..][..n - 2] == init[1..];
      assert init[0] == s[0];
      ShiftDigit(s[0] - '0' as int, Pow10(n - 2), DecValue(init[1..]), s[n - 1] - '0' as int);
    }
  }

  lemma {:induction false} ShiftDigit(a: int, p: int, x: int, l: int)
    ensures (a * p + x) * 10 + l == a * (10 * p) + (x * 10 + l)
  {
  }

  /** A run of digits that does not end in 9 stays two below the next power of ten. */
  lemma {:induction false} DecValueBelow(s: seq<int>)
    requires |s| > 0 && AllDigits(s) && s[|s| - 1] < '9' as int
    ensures DecValue(s) <= Pow10(|s|) - 2
  {
    var init := s[..|s| - 1];
    assert AllDigits(init);
  }

  /**
   * One step of the comparison in numbers: with the first digits di and
   * mi of weight p over rests rd < p and rm <= p - 2, the first
   * difference decides the comparison even with the bound raised by one.
   */
  lemma {:induction false} FirstDifferenceDecides(di: int, mi: int, rd: int, rm: int, p: int, b: int)
    requires 0 <= di && 0 <= mi && 0 <= rd < p && 0 <= rm <= p - 2 && 0 <= b <= 1
    ensures di < mi ==> di * p + rd <= mi * p + rm + b
    ensures di > mi ==> di * p + rd > mi * p + rm + b
    ensures di == mi ==> (di * p + rd <= mi * p + rm + b <==> rd <= rm + b)
  {
    if di < mi {
      SmallerFirstDigit(di, mi, rd, rm, p, b);
    } else if di > mi {
      SmallerFirstDigit(mi, di, rm + b, rd, p, 0);
    }
  }

  lemma {:induction false} SmallerFirstDigit(di: int, mi: int, rd: int, rm: int, p: int, b: int)
    requires 0 <= di < mi && 0 <= rd < p && 0 <= rm && 0 <= b
    ensures di * p + rd < mi * p + rm + b
  {
    MoreTimes(mi - di, p);
    assert mi * p == di * p + (mi - di) * p;
  }

  lemma {:induction false} MoreTimes(k: int, p: int)
    requires k >= 1 && p >= 0
    ensures k * p >= p
  {
    assert k * p == (k - 1) * p + p;
  }

  /**
   * The comparison loop from index i decides the numeric comparison of
   * the remaining digits, the bound raised by one for a negative number,
   * when the last limit digit is below 9.
   */
  lemma {:induction false} FitsFrom(d: seq<int>, m: seq<int>, negative: bool, i: nat)
    requires |d| == |m| > 0 && i <= |m| && AllDigits(d) && AllDigits(m) && m[|m| - 1] < '9' as int
    ensures Fits(d, m, negative, i) <==> DecValue(d[i..]) <= DecValue(m[i..]) + (if negative then 1 else 0)
    decreases |m| - i
  {
    if i == |m| - 1 {
      FitsLast(d, m, negative);
    } else if i < |m| - 1 {
      FitsFrom(d, m, negative, i + 1);
      FitsStep(d, m, negative, i);
    }
  }

  /** At the last digit the comparison subtracts the raised bound from it directly. */
  lemma {:induction false} FitsLast(d: seq<int>, m: seq<int>, negative: bool)
    requires |d| == |m| > 0 && AllDigits(d) && AllDigits(m)
    ensures Fits(d, m, negative, |m| - 1) <==> DecValue(d[|m| - 1..]) <= DecValue(m[|m| - 1..]) + (if negative then 1 else 0)
  {
    var i := |m| - 1;
    assert d[i..] == [d[i]] && m[i..] == [m[i]];
    assert [d[i]][..0] == [] && [m[i]][..0] == [];
    assert DecValue([d[i]]) == d[i] - '0' as int;
    assert DecValue([m[i]]) == m[i] - '0' as int;
  }

  /** Before the last digit, the first difference decides, and equal digits defer to the rest. */
  lemma {:induction false} FitsStep(d: seq<int>, m: seq<int>, negative: bool, i: nat)
    requires |d| == |m| && i + 1 < |m| && AllDigits(d) && AllDigits(m) && m[|m| - 1] < '9' as int
    requires Fits(d, m, negative, i + 1) <==> DecValue(d[i + 1..]) <= DecValue(m[i + 1..]) + (if negative then 1 else 0)
    ensures Fits(d, m, negative, i) <==> DecValue(d[i..]) <= DecValue(m[i..]) + (if negative then 1 else 0)
  {
    var ds, ms := d[i..], m[i..];
    assert ds[0] == d[i] && ms[0] == m[i];
    assert ds[1..] == d[i + 1..] && ms[1..] == m[i + 1..];
    assert AllDigits(d[i + 1..]) && AllDigits(m[i + 1..]);
    DecValueCons(ds);
    DecValueCons(ms);
    DecValueBelow(m[i + 1..]);
    FirstDifferenceDecides(d[i] - '0' as int, m[i] - '0' as int, DecValue(d[i + 1..]), DecValue(m[i + 1..]),
                           Pow10(|m| - i - 1), if negative then 1 else 0);
  }

  /** The comparison against MAX_VALUE's digits is the numeric bound MAX_VALUE, or MAX_VALUE + 1 for a negative number. */
  lemma {:induction false} FitsIsBound(d: seq<int>, max: int, negative: bool)
    requires max > 0 && max % 10 != 9 && AllDigits(d) && |d| == |Digits(max)|
    ensures Fits(d, Digits(max), negative, 0) <==> DecValue(d) <= max + (if negative then 1 else 0)
  {
    var m := Digits(max);
    DigitsValue(max);
    FitsFrom(d, m, negative, 0);
    assert d[0..] == d && m[0..] == m;
  }

  lemma {:induction false} Pow10Mono(a: nat, b: nat)
    requires a <= b
    ensures Pow10(a) <= Pow10(b)
    decreases b
  {
    if a < b {
      Pow10Mono(a, b - 1);
    }
  }

  lemma Pow10Values()
    ensures Pow10(9) == 1_000_000_000 && Pow10(10) == 10_000_000_000
    ensures Pow10(18) == 1_000_000_000_000_000_000 && Pow10(19) == 10_000_000_000_000_000_000
  {
    assert Pow10(9) == 1_000_000_000;
    Pow10Add(9, 9);
    assert Pow10(19) == 10 * Pow10(18);
  }

  /** Digits(n) has at most L digits exactly when n is below 10^L. */
  lemma {:induction false} DigitsLength(n: nat, len: nat)
    requires len >= 1
    ensures |Digits(n)| <= len <==> n < Pow10(len)
    decreases n
  {
    if n >= 10 {
      if len == 1 {
        assert Pow10(1) == 10;
      } else {
        DigitsLength(n / 10, len - 1);
      }
    } else {
      Pow10Mono(1, len);
      assert Pow10(1) == 10;
    }
  }

  /** Leading zeros do not change the value of a run of digits. */
  lemma {:induction false} LeadingZero(s: seq<int>)
    requires |s| > 0 && s[0] == '0' as int
    ensures DecValue(s) == DecValue(s[1..])
  {
    DecValueCons(s);
  }

  // ------------------------------------------------------ the scan

  /** A run of digits passes the scan and leaves the marks as they are. */
  lemma {:induction false} ScanDigits(chars: JString, i: nat, m: Marks)
    requires i <= |chars| && InRange(m, |chars|) && AllDigits(chars[i..])
    ensures Scan(chars, i, m) == Some(m)
    decreases |chars| - i
  {
    if i < |chars| {
      assert chars[i] == chars[i..][0];
      assert chars[i + 1..] == chars[i..][1..];
      ScanDigits(chars, i + 1, m);
    }
  }

  /**
   * A scan that finds no mark and no point saw digits only: a sign is
   * accepted only at index 0, which the reading has already stepped over.
   */
  lemma {:induction false} ScanUnmarked(chars: JString, i: nat)
    requires i <= |chars| && (i == 0 && |chars| > 0 ==> !IsSign(chars[0]))
    requires Scan(chars, i, NoMarks) == Some(NoMarks)
    ensures AllDigits(chars[i..])
    decreases |chars| - i
  {
    if i < |chars| {
      var c := chars[i];
      if IsAsciiDigit(c) {
        ScanUnmarked(chars, i + 1);
        assert chars[i..] == [c] + chars[i + 1..];
      } else {
        assert false;
      }
    }
  }

  // ------------------------------------------------- the integral branch

  /** What the integer branch promises for a value: an Integer in int range, else a Long in long range, else a BigInteger. */
  function Kind(v: int, number: JString): Number
  {
    if IsInt(v) then IntValue(v) else if IsLong(v) then LongValue(v) else BigIntegerOf(number)
  }

  /** The integer branch yields Integer and Long values within the range of int and long. */
  lemma {:induction false} IntegralRange(chars: JString, si: nat, negative: bool, number: JString)
    requires si <= |chars| && AllDigits(chars[si..])
    ensures var r := Integral(chars, si, negative, number);
      && (r.Ok? && r.value.Some? && r.value.value.IntValue? ==> IsInt(r.value.value.v))
      && (r.Ok? && r.value.Some? && r.value.value.LongValue? ==> IsLong(r.value.value.v))
  {
    var digits, len := chars[si..], |chars| - si;
    Pow10Values();
    if len > 0 {
      var x := DecValue(digits);
      if len < 10 {
        Pow10Mono(len, 9);
      } else if len == 10 && Fits(digits, IntMaxText(), negative, 0) {
        FitsIsBound(digits, IntMax, negative);
      } else if len < 19 {
        Pow10Mono(len, 18);
      } else if len == 19 && Fits(digits, LongMaxText(), negative, 0) {
        FitsIsBound(digits, LongMax, negative);
      }
    }
  }

  /**
   * On the digits of n without leading zeros the integer branch picks the
   * narrowest of Integer, Long and BigInteger that holds the value.
   */
  lemma {:induction false} IntegralOfDigits(chars: JString, si: nat, negative: bool, number: JString, n: nat)
    requires si <= |chars| && chars[si..] == Digits(n)
    ensures Integral(chars, si, negative, number) == Ok(Some(Kind(Signed(negative, n), number)))
  {
    var b := if negative then 1 else 0;
    var w := Signed(negative, n);
    assert IsInt(w) <==> n <= IntMax + b;
    assert IsLong(w) <==> n <= LongMax + b;
    if n <= IntMax + b {
      IntegralInt(chars, si, negative, number, n);
    } else if n <= LongMax + b {
      IntegralLong(chars, si, negative, number, n);
    } else {
      IntegralBig(chars, si, negative, number, n);
    }
  }

  lemma {:induction false} IntegralInt(chars: JString, si: nat, negative: bool, number: JString, n: nat)
    requires si <= |chars| && chars[si..] == Digits(n) && n <= IntMax + (if negative then 1 else 0)
    ensures Integral(chars, si, negative, number) == Ok(Some(IntValue(Signed(negative, n))))
  {
    Pow10Values();
    DigitsValue(n);
    DigitsLength(n, 10);
    if |chars| - si == 10 {
      assert IntMaxText() == Digits(IntMax);
      FitsIsBound(chars[si..], IntMax, negative);
    }
  }

  lemma {:induction false} IntegralLong(chars: JString, si: nat, negative: bool, number: JString, n: nat)
    requires si <= |chars| && chars[si..] == Digits(n)
    requires IntMax + (if negative then 1 else 0) < n <= LongMax + (if negative then 1 else 0)
    ensures Integral(chars, si, negative, number) == Ok(Some(LongValue(Signed(negative, n))))
  {
    var digits, len := chars[si..], |chars| - si;
    Pow10Values();
    DigitsValue(n);
    assert DecValue(digits) == n;
    DigitsLength(n, 9);
    DigitsLength(n, 19);
    assert 10 <= len <= 19;
    if len == 10 {
      assert IntMaxText() == Digits(IntMax);
      FitsIsBound(digits, IntMax, negative);
    }
    assert !(len < 10 || (len == 10 && Fits(digits, IntMaxText(), negative, 0)));
    if len == 19 {
      assert LongMaxText() == Digits(LongMax);
      FitsIsBound(digits, LongMax, negative);
    }
    assert len < 19 || (len == 19 && Fits(digits, LongMaxText(), negative, 0));
    IntegralPicksLong(chars, si, negative, number);
  }

  lemma {:induction false} IntegralPicksLong(chars: JString, si: nat, negative: bool, number: JString)
    requires si < |chars|
    requires !(|chars| - si < 10 || (|chars| - si == 10 && Fits(chars[si..], IntMaxText(), negative, 0)))
    requires |chars| - si < 19 || (|chars| - si == 19 && Fits(chars[si..], LongMaxText(), negative, 0))
    ensures Integral(chars, si, negative, number) == Ok(Some(LongValue(Signed(negative, DecValue(chars[si..])))))
  {
  }

  lemma {:induction false} IntegralBig(chars: JString, si: nat, negative: bool, number: JString, n: nat)
    requires si <= |chars| && chars[si..] == Digits(n) && LongMax + (if negative then 1 else 0) < n
    ensures Integral(chars, si, negative, number) == Ok(Some(BigIntegerOf(number)))
  {
    var digits, len := chars[si..], |chars| - si;
    Pow10Values();
    DigitsLength(n, 18);
    assert len >= 19;
    if len == 19 {
      DigitsValue(n);
      assert LongMaxText() == Digits(LongMax);
      FitsIsBound(digits, LongMax, negative);
    }
    assert !(len < 19 || (len == 19 && Fits(digits, LongMaxText(), negative, 0)));
  }

  // ------------------------------------------------------ the reading

  /** Every Integer and Long parseFullToDecimal returns lies within the range of its type. */
  lemma {:induction false} ReadNumberRange(chars: JString, origin: JString)
    requires 0 < |chars| <= |origin|
    ensures var r := ReadNumber(chars, origin);
      && (r.Ok? && r.value.Some? && r.value.value.IntValue? ==> IsInt(r.value.value.v))
      && (r.Ok? && r.value.Some? && r.value.value.LongValue? ==> IsLong(r.value.value.v))
  {
    var negative := chars[0] == '-' as int;
    var si := if IsSign(chars[0]) then 1 else 0;
    var marks := Scan(chars, si, NoMarks);
    if marks == Some(NoMarks) {
      ScanUnmarked(chars, si);
      var number := origin[si - (if negative then 1 else 0)..|chars|];
      IntegralRange(chars, si, negative, number);
    }
  }

  /** The reading fails, with an IndexOutOfBoundsException, exactly on a lone sign. */
  lemma {:induction false} ReadNumberFails(chars: JString, origin: JString)
    requires 0 < |chars| <= |origin|
    ensures ReadNumber(chars, origin).Err? <==> |chars| == 1 && IsSign(chars[0])
    ensures ReadNumber(chars, origin).Err? ==> ReadNumber(chars, origin).error == IndexOutOfBounds
  {
    var negative := chars[0] == '-' as int;
    var si := if IsSign(chars[0]) then 1 else 0;
    var number := origin[si - (if negative then 1 else 0)..|chars|];
    IntegralFails(chars, si, negative, number);
    if |chars| == 1 && IsSign(chars[0]) {
      assert Scan(chars, 1, NoMarks) == Some(NoMarks);
    }
  }

  /** The integral branch fails exactly when no digit follows the sign. */
  lemma {:induction false} IntegralFails(chars: JString, si: nat, negative: bool, number: JString)
    requires si <= |chars|
    ensures Integral(chars, si, negative, number).Err? <==> si == |chars|
    ensures Integral(chars, si, negative, number).Err? ==> Integral(chars, si, negative, number).error == IndexOutOfBounds
  {
    var digits := chars[si..];
    var value := Signed(negative, DecValue(digits));
    var r := Integral(chars, si, negative, number);
    if si < |chars| {
      assert r == Ok(Some(IntValue(value))) || r == Ok(Some(LongValue(value))) || r == Ok(Some(BigIntegerOf(number)));
    }
  }

  /** With the text cut from the trimmed characters, a BigInteger or BigDecimal gets the characters without a leading `+`. */
  lemma {:induction false} ReadNumberText(chars: JString)
    requires 0 < |chars|
    ensures var r := ReadNumber(chars, chars);
      r.Ok? && r.value.Some? && (r.value.value.BigIntegerOf? || r.value.value.BigDecimalOf?) ==>
        r.value.value.text == if chars[0] == '+' as int then chars[1..] else chars
  {
    var negative := chars[0] == '-' as int;
    var si := if IsSign(chars[0]) then 1 else 0;
    var number := chars[si - (if negative then 1 else 0)..|chars|];
    assert chars[0..|chars|] == chars;
    assert number == if chars[0] == '+' as int then chars[1..] else chars;
    IntegralText(chars, si, negative, number);
  }

  /** The integral branch's only text-carrying result is a BigInteger of `number`. */
  lemma {:induction false} IntegralText(chars: JString, si: nat, negative: bool, number: JString)
    requires si <= |chars|
    ensures var r := Integral(chars, si, negative, number);
      r.Ok? && r.value.Some? && (r.value.value.BigIntegerOf? || r.value.value.BigDecimalOf?) ==> r.value.value == BigIntegerOf(number)
  {
    var digits := chars[si..];
    var value := Signed(negative, DecValue(digits));
    var r := Integral(chars, si, negative, number);
    assert r == Err(IndexOutOfBounds) || r == Ok(Some(IntValue(value))) || r == Ok(Some(LongValue(value))) || r == Ok(Some(BigIntegerOf(number)));
  }

  /** Integer.toString and Long.toString read back as the same value, in the narrowest type; wider values as a BigInteger of the same text. */
  lemma {:induction false} TextRoundTrip(v: int)
    ensures ParseNumber(Some(Text(v))) == Ok(Some(Kind(v, Text(v))))
  {
    var t := Text(v);
    var ws := UniversalString.IsWhitespace;
    assert !IsPairAt(t, |t| - 1);
    if v < 0 {
      assert t[0] == '-' as int && !IsPairAt(t, 0);
    } else {
      assert IsAsciiDigit(t[0]) && !IsPairAt(t, 0);
    }
    UniversalStringTrim.NothingToTrim(t, Some(ws), Some(ws));
    assert Trimmed(Some(t)) == t;
    assert ParseNumber(Some(t)) == ReadNumber(t, t);
    var n: nat := if v < 0 then -v else v;
    var si := if v < 0 then 1 else 0;
    assert t[si..] == Digits(n);
    ScanDigits(t, si, NoMarks);
    assert t[0..|t|] == t;
    IntegralOfDigits(t, si, v < 0, t, n);
    assert Signed(v < 0, n) == v;
  }

  /** On text with nothing to trim, the code as written and the corrected reading agree. */
  lemma {:induction false} AsWrittenAgrees(input: Option<JString>)
    requires input.Some? && Trimmed(input) == input.value
    ensures ParseNumberAsWritten(input) == ParseNumber(input)
  {
  }

  // ------------------------------------------------------- the method

  /** parseFullToDecimal(CharSequence input). */
  method ParseFullToDecimal(input: Option<JString>) returns (r: Result<Option<Number>>)
    ensures r == ParseNumberAsWritten(input)
  {
    if input.None? || |input.value| == 0 {
      return Ok(None);
    }
    var chars := UniversalStringParsing.Characters(input, UniversalString.IsWhitespace);
    assert chars == Trimmed(input);
    if |chars| == 0 {
      return Ok(None);
    }
    r := ReadTrimmed(chars, input.value);
  }

  /** The body of parseFullToDecimal after trimming: the sign, the scan and the chosen type, the text cut from `origin`. */
  method ReadTrimmed(chars: JString, origin: JString) returns (r: Result<Option<Number>>)
    requires 0 < |chars| <= |origin|
    ensures r == ReadNumber(chars, origin)
  {
    var si, ei := 0, |chars| - 1;
    var isNegative := false;
    if chars[si] == '-' as int {
      isNegative := true;
      si := si + 1;
    } else if chars[si] == '+' as int {
      si := si + 1;
    }
    var ok, e, d, ed := ScanMarks(chars, si);
    if !ok {
      return Ok(None);
    }
    if e != -1 && e == ei {
      return Ok(None);
    }
    if e != -1 && IsSign(chars[e + 1]) && e + 1 == ei {
      return Ok(None);
    }
    var number := origin[si - (if isNegative then 1 else 0)..ei + 1];
    if e == -1 && d == -1 && ed == -1 {
      r := ReadIntegral(chars, si, ei, isNegative, number);
      return;
    }
    return Ok(Some(BigDecimalOf(number)));
  }

  /** The integer branch of parseFullToDecimal: the two range checks and the two accumulations. */
  method ReadIntegral(chars: JString, si: nat, ei: int, isNegative: bool, number: JString) returns (r: Result<Option<Number>>)
    requires si <= |chars| && ei == |chars| - 1
    ensures r == Integral(chars, si, isNegative, number)
  {
    var len := ei - si + 1;
    ghost var digits := chars[si..];
    assert chars[si..ei + 1] == digits;
    var isInt := true;
    if len == 10 {
      isInt := FitsWithin(chars, si, ei, IntMaxText(), isNegative);
    } else if len > 10 {
      isInt := false;
    }
    assert isInt <==> len < 10 || (len == 10 && Fits(digits, IntMaxText(), isNegative, 0));
    if isInt {
      if si > ei {
        return Err(IndexOutOfBounds);
      }
      var result := Accumulate(chars, si, ei, isNegative);
      return Ok(Some(IntValue(result)));
    }
    var isLong := true;
    if len == 19 {
      isLong := FitsWithin(chars, si, ei, LongMaxText(), isNegative);
    } else if len > 19 {
      isLong := false;
    }
    assert isLong <==> len < 19 || (len == 19 && Fits(digits, LongMaxText(), isNegative, 0));
    if isLong {
      var result := Accumulate(chars, si, ei, isNegative);
      return Ok(Some(LongValue(result)));
    }
    return Ok(Some(BigIntegerOf(number)));
  }

  /** The scanning loop: the marks found, or false when it gives up. */
  method ScanMarks(chars: JString, si: nat) returns (ok: bool, e: int, d: int, ed: int)
    requires si <= |chars|
    ensures ok <==> Scan(chars, si, NoMarks).Some?
    ensures ok ==> Marks(e, d, ed) == Scan(chars, si, NoMarks).value
  {
    e, d, ed := -1, -1, -1;
    var i := si;
    while i < |chars|
      invariant si <= i <= |chars| && InRange(Marks(e, d, ed), |chars|)
      invariant Scan(chars, i, Marks(e, d, ed)) == Scan(chars, si, NoMarks)
    {
      var c := chars[i];
      if c == '.' as int {
        if e == -1 {
          if d != -1 {
            return false, e, d, ed;
          }
          d := i;
        } else {
          if ed != -1 {
            return false, e, d, ed;
          }
          ed := i;
        }
      } else if c == 'e' as int || c == 'E' as int {
        if e != -1 {
          return false, e, d, ed;
        }
        e := i;
      } else if c == '-' as int || c == '+' as int {
        if e + 1 != i {
          return false, e, d, ed;
        }
      } else if !IsAsciiDigit(c) {
        return false, e, d, ed;
      }
      i := i + 1;
    }
    return true, e, d, ed;
  }

  /** The comparison loop against the digits of MAX_VALUE. */
  method FitsWithin(chars: JString, si: nat, ei: nat, max: JString, negative: bool) returns (fits: bool)
    requires si <= ei == |chars| - 1 && ei - si + 1 == |max| && ei >= |max| - 1
    ensures fits == Fits(chars[si..], max, negative, 0)
  {
    var digits := chars[si..];
    fits := true;
    var i := 0;
    while i < |max| && i <= ei
      invariant 0 <= i <= |max|
      invariant Fits(digits, max, negative, i) == Fits(digits, max, negative, 0)
    {
      var cmp := (chars[si + i] as int) - (max[i] as int) - (if negative && i == |max| - 1 then 1 else 0);
      if cmp < 0 {
        break;
      } else if cmp > 0 {
        fits := false;
        break;
      }
      i := i + 1;
    }
  }

  /**
   * The accumulation loop: the first digit, negated for a negative
   * number, then each further digit shifted in with the sign.
   */
  method Accumulate(chars: JString, si: nat, ei: nat, negative: bool) returns (result: int)
    requires si <= ei < |chars|
    ensures result == Signed(negative, DecValue(chars[si..ei + 1]))
  {
    result := chars[si] - '0' as int;
    if negative {
      result := -result;
    }
    assert chars[si..si + 1][..0] == [];
    var i := si + 1;
    while i <= ei
      invariant si + 1 <= i <= ei + 1
      invariant result == Signed(negative, DecValue(chars[si..i]))
    {
      assert chars[si..i + 1][..i - si] == chars[si..i];
      if negative {
        result := result * 10;
        result := result - (chars[i] - '0' as int);
      } else {
        result := result * 10;
        result := result + (chars[i] - '0' as int);
      }
      i := i + 1;
    }
  }
}

module UniversalStringNumberExamples {
  import opened JavaText
  import UniversalString
  import UniversalStringTrim
  import opened UniversalStringDecimal
  import opened UniversalStringNumber

  /**
   * " 1.5": the code as written cuts the BigDecimal text from the
   * untrimmed input at the trimmed indices and hands " 1." on; the
   * corrected reading hands on "1.5".
   */
  lemma {:induction false} UntrimmedTextIsCut()
    ensures ParseNumberAsWritten(Some(SpaceOnePointFive))
         == Ok(Some(BigDecimalOf([' ' as int, '1' as int, '.' as int])))
    ensures ParseNumber(Some(SpaceOnePointFive))
         == Ok(Some(BigDecimalOf(['1' as int, '.' as int, '5' as int])))
  {
    var s := SpaceOnePointFive;
    var t := s[1..];
    SpaceOnePointFiveTrimmed();
    SpaceOnePointFiveMarks();
    assert s[0..3] == [' ' as int, '1' as int, '.' as int];
    assert t[0..3] == t;
  }

  /** " 1.5" */
  const SpaceOnePointFive: JString := [' ' as int, '1' as int, '.' as int, '5' as int]

  /** " 1.5" trims to "1.5". */
  lemma {:induction false} SpaceOnePointFiveTrimmed()
    ensures Trimmed(Some(SpaceOnePointFive)) == SpaceOnePointFive[1..]
  {
    var s := SpaceOnePointFive;
    var t := s[1..];
    var ws := UniversalString.IsWhitespace;
    assert UniversalStringTrim.NoSurrogates(s);
    UniversalStringTrim.TrimWithoutSurrogatesIsStripped(s, true, true, ws);
    UniversalStringTrim.DropWhileAt(ws, s, 1);
    UniversalStringTrim.DropLastWhileAt(ws, t, 3);
    assert t[..3] == t;
  }

  /** "1.5" has its '.' at index 1, and no sign or exponent. */
  lemma {:induction false} SpaceOnePointFiveMarks()
    ensures Scan(SpaceOnePointFive[1..], 0, NoMarks) == Some(Marks(-1, 1, -1))
  {
    var t := SpaceOnePointFive[1..];
    assert t[0] == '1' as int && t[1] == '.' as int && t[2] == '5' as int;
    assert Scan(t, 3, Marks(-1, 1, -1)) == Some(Marks(-1, 1, -1));
    assert Scan(t, 2, Marks(-1, 1, -1)) == Some(Marks(-1, 1, -1));
    assert Scan(t, 1, NoMarks) == Some(Marks(-1, 1, -1));
  }

  /** "00000000001" */
  const ZerosThenOne: JString := seq(10, _ => '0' as int) + ['1' as int]

  /** "00000000001": eleven characters go past the Integer test, so the value 1 comes back as a Long. */
  lemma {:induction false} LeadingZerosMakeALong()
    ensures ParseNumber(Some(ZerosThenOne)) == Ok(Some(LongValue(1)))
  {
    ZerosThenOneTrimmed();
    ZerosThenOneRead();
  }

  lemma {:induction false} ZerosThenOneTrimmed()
    ensures Trimmed(Some(ZerosThenOne)) == ZerosThenOne
  {
    var s, ws := ZerosThenOne, UniversalString.IsWhitespace;
    assert !IsPairAt(s, 0) && !IsPairAt(s, 10);
    UniversalStringTrim.NothingToTrim(s, Some(ws), Some(ws));
  }

  lemma {:induction false} ZerosThenOneRead()
    ensures ReadNumber(ZerosThenOne, ZerosThenOne) == Ok(Some(LongValue(1)))
  {
    var s := ZerosThenOne;
    assert AllDigits(s);
    UnsignedDigits(s, s);
    ZerosThenOneValue();
    LongLength(s, s[0..|s|]);
  }

  /** A run of digits without a sign goes to the integer branch with all of it. */
  lemma {:induction false} UnsignedDigits(chars: JString, origin: JString)
    requires 0 < |chars| <= |origin| && AllDigits(chars)
    ensures ReadNumber(chars, origin) == Integral(chars, 0, false, origin[0..|chars|])
  {
    assert chars[0..] == chars && !IsSign(chars[0]);
    ScanDigits(chars, 0, NoMarks);
  }

  /** Eleven to eighteen unsigned characters skip the Integer test and make a Long. */
  lemma {:induction false} LongLength(chars: JString, number: JString)
    requires 10 < |chars| < 19
    ensures Integral(chars, 0, false, number) == Ok(Some(LongValue(Signed(false, DecValue(chars)))))
  {
    assert chars[0..] == chars;
  }

  lemma {:induction false} ZerosThenOneValue()
    ensures DecValue(ZerosThenOne) == 1
  {
    var s := ZerosThenOne;
    var k := 0;
    while k < 10
      invariant 0 <= k <= 10 && DecValue(s[k..]) == DecValue(s)
    {
      LeadingZero(s[k..]);
      assert s[k..][1..] == s[k + 1..];
      k := k + 1;
    }
    assert s[10..] == ['1' as int] && s[10..][..0] == [];
    assert s[0..] == s;
  }

  /** A lone sign fails on reading its first digit. */
  lemma {:induction false} LoneSignFails()
    ensures ParseNumber(Some(['-' as int])) == Err(IndexOutOfBounds)
  {
    var s: JString := ['-' as int];
    var ws := UniversalString.IsWhitespace;
    UniversalStringTrim.NothingToTrim(s, Some(ws), Some(ws));
    ReadNumberFails(s, s);
  }
}
