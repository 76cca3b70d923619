// parseFullToDecimal(input, source, target): rewrites a loosely written
// decimal number into the canonical form `[sign] digits [. digits]
// [E sign digits]`. The code point reading is a decimal value read back from
// its rendering (Parsed of Render), and the method that fills the `number`
// array with a write index and a read index is proved to render that value.
module UniversalStringDecimal {
  import opened JavaText
  import UniversalString
  import UniversalStringTrim

  predicate IsSign(c: int) { c == '+' as int || c == '-' as int }

  predicate IsExponentMark(c: int) { c == 'e' as int || c == 'E' as int }

  /** The characters of a canonical number. */
  predicate IsNumberChar(c: int) { IsAsciiDigit(c) || IsSign(c) || c == '.' as int || c == 'E' as int }

  /** Every element is one of `0`-`9` (Character.isDigit, on the ASCII range). */
  predicate AllDigits(s: seq<int>)
  {
    forall k | 0 <= k < |s| :: IsAsciiDigit(s[k])
  }

  // ------------------------------------------------------- canonical form

  datatype Exponent = Exponent(sign: int, digits: seq<int>)

  /**
   * A number in canonical form: an optional sign, the integer digits, an
   * optional fraction and an optional exponent with its sign.
   */
  datatype Decimal = Decimal(sign: seq<int>, whole: seq<int>, fraction: Option<seq<int>>, exponent: Option<Exponent>)

  /** The forms the parser produces: every part that is present holds at least one digit. */
  predicate Valid(d: Decimal)
  {
    && (d.sign == [] || (|d.sign| == 1 && IsSign(d.sign[0])))
    && |d.whole| > 0 && AllDigits(d.whole)
    && (d.fraction.Some? ==> |d.fraction.value| > 0 && AllDigits(d.fraction.value))
    && (d.exponent.Some? ==> IsSign(d.exponent.value.sign) && |d.exponent.value.digits| > 0 && AllDigits(d.exponent.value.digits))
  }

  function FractionText(fraction: Option<seq<int>>): seq<int>
  {
    if fraction.Some? then ['.' as int] + fraction.value else []
  }

  function ExponentText(exponent: Option<Exponent>): seq<int>
  {
    if exponent.Some? then ['E' as int, exponent.value.sign] + exponent.value.digits else []
  }

  /** The code points of the string the parser returns for a value. */
  function Render(d: Decimal): (r: seq<int>)
    // a valid value renders to digits, signs, '.' and 'E' only, with a digit right after the optional sign
    ensures Valid(d) ==> |r| > |d.sign| && IsAsciiDigit(r[|d.sign|])
    ensures Valid(d) ==> forall k | 0 <= k < |r| :: IsNumberChar(r[k])
  {
    d.sign + d.whole + FractionText(d.fraction) + ExponentText(d.exponent)
  }

  // ------------------------------------------------------ the reading

  /** What the integer-part loop takes at index k: a digit, a `,`, or a `.` before the last one. */
  predicate InInteger(cps: seq<int>, k: int, dot: int)
    requires 0 <= k < |cps|
  {
    cps[k] == ',' as int || (cps[k] == '.' as int && dot != -1 && k < dot) || IsAsciiDigit(cps[k])
  }

  /** Where the integer-part loop started at `i` stops. */
  function IntegerEnd(cps: seq<int>, i: nat, dot: int): (j: nat)
    requires i <= |cps|
    ensures i <= j <= |cps|
    ensures forall k | i <= k < j :: InInteger(cps, k, dot)
    ensures j < |cps| ==> !InInteger(cps, j, dot)
    decreases |cps| - i
  {
    if i < |cps| && InInteger(cps, i, dot) then IntegerEnd(cps, i + 1, dot) else i
  }

  /** Where a run of digits started at `i` ends. */
  function DigitsEnd(cps: seq<int>, i: nat): (j: nat)
    requires i <= |cps|
    ensures i <= j <= |cps|
    ensures AllDigits(cps[i..j])
    ensures j < |cps| ==> !IsAsciiDigit(cps[j])
    decreases |cps| - i
  {
    if i < |cps| && IsAsciiDigit(cps[i]) then
      var j := DigitsEnd(cps, i + 1);
      assert cps[i..j] == [cps[i]] + cps[i + 1..j];
      j
    else i
  }

  /** The digits of a sequence, in order, everything else dropped. */
  function DigitsOf(s: seq<int>): (r: seq<int>)
    ensures AllDigits(r)
    ensures |r| <= |s|
  {
    if s == [] then []
    else
      var init := s[..|s| - 1];
      DigitsOf(init) + (if IsAsciiDigit(s[|s| - 1]) then [s[|s| - 1]] else [])
  }

  /** Filtering a run of digits keeps all of it. */
  lemma {:induction false} DigitsOfDigits(s: seq<int>)
    requires AllDigits(s)
    ensures DigitsOf(s) == s
  {
    if s != [] {
      var init := s[..|s| - 1];
      assert AllDigits(init);
      DigitsOfDigits(init);
      assert init + [s[|s| - 1]] == s;
    }
  }

  /** DigitsOf over a slice grows by the next code point when it is a digit. */
  lemma {:induction false} DigitsOfStep(s: seq<int>, i0: nat, i: nat)
    requires i0 <= i < |s|
    ensures IsAsciiDigit(s[i]) ==> DigitsOf(s[i0..i + 1]) == DigitsOf(s[i0..i]) + [s[i]]
    ensures !IsAsciiDigit(s[i]) ==> DigitsOf(s[i0..i + 1]) == DigitsOf(s[i0..i])
  {
    assert s[i0..i + 1][..i - i0] == s[i0..i];
  }

  /** The optional sign: its length, 1 when the first code point is `+` or `-`. */
  function SignEnd(cps: seq<int>): nat
    requires |cps| > 0
  {
    if IsSign(cps[0]) then 1 else 0
  }

  /** The exponent read at index i2 (a mark there): the index after its optional sign. */
  function ExponentDigitsStart(cps: seq<int>, i2: nat): nat
    requires i2 < |cps|
  {
    if i2 + 1 < |cps| && IsSign(cps[i2 + 1]) then i2 + 2 else i2 + 1
  }

  /**
   * The fraction read at index i1: present when a `.` stands there, its
   * digits running to the next code point that is not a digit, `0` when
   * there are none; with the index after it.
   */
  function FractionAt(cps: seq<int>, i1: nat): (r: (Option<seq<int>>, nat))
    requires i1 <= |cps|
    ensures i1 <= r.1 <= |cps|
    ensures r.0.Some? <==> i1 < |cps| && cps[i1] == '.' as int
    ensures r.0.Some? ==> |r.0.value| > 0 && AllDigits(r.0.value)
  {
    if i1 < |cps| && cps[i1] == '.' as int then
      var i2 := DigitsEnd(cps, i1 + 1);
      (Some(if i2 == i1 + 1 then ['0' as int] else cps[i1 + 1..i2]), i2)
    else (None, i1)
  }

  /**
   * The exponent read at index i2: present when an `e` or `E` stands there
   * followed, after an optional sign (`+` by default), by at least one digit;
   * with the index after everything read, including a mark and sign that
   * carry no digits.
   */
  function ExponentAt(cps: seq<int>, i2: nat): (r: (Option<Exponent>, nat))
    requires i2 <= |cps|
    ensures i2 <= r.1 <= |cps|
    ensures r.0.Some? ==> IsSign(r.0.value.sign) && |r.0.value.digits| > 0 && AllDigits(r.0.value.digits)
  {
    if i2 < |cps| && IsExponentMark(cps[i2]) then
      var i3 := ExponentDigitsStart(cps, i2);
      var i4 := DigitsEnd(cps, i3);
      (if i4 > i3 then Some(Exponent(if i3 == i2 + 2 then cps[i2 + 1] else '+' as int, cps[i3..i4])) else None, i4)
    else (None, i2)
  }

  /**
   * The value parseFullToDecimal reads from the trimmed and replaced code
   * points, phase by phase: sign; integer digits, skipping `,` and all but
   * the last `.`; the fraction, with `0` supplied for a missing integer
   * part; the exponent. There must be a digit or a `.`, and nothing may be
   * left over.
   */
  function Parsed(cps: seq<int>): (r: Option<Decimal>)
    ensures r.Some? ==> Valid(r.value)
  {
    if cps == [] then None
    else
      var i0 := SignEnd(cps);
      var i1 := IntegerEnd(cps, i0, LastIndexOf(cps, '.' as int));
      var digits := DigitsOf(cps[i0..i1]);
      var fraction := FractionAt(cps, i1);
      if fraction.0.None? && digits == [] then None
      else
        var exponent := ExponentAt(cps, fraction.1);
        if exponent.1 == |cps| then
          Some(Decimal(cps[..i0], if digits == [] then ['0' as int] else digits, fraction.0, exponent.0))
        else None
  }

  /** The result of parseFullToDecimal for the code points, as code points. */
  function Canonical(cps: seq<int>): (r: Option<seq<int>>)
    ensures r.Some? <==> Parsed(cps).Some?
    ensures r.Some? ==> r.value != [] && forall k | 0 <= k < |r.value| :: IsNumberChar(r.value[k])
  {
    var d := Parsed(cps);
    if d.Some? then Some(Render(d.value)) else None
  }

  // ------------------------------------------------------- round trip

  /** Where the parts of a rendering sit. */
  lemma {:induction false} RenderLayout(d: Decimal)
    ensures var cps, a, b := Render(d), |d.sign|, |d.sign| + |d.whole|;
      var c := b + |FractionText(d.fraction)|;
      && |cps| == c + |ExponentText(d.exponent)|
      && cps[..a] == d.sign && cps[a..b] == d.whole
      && cps[b..c] == FractionText(d.fraction) && cps[c..] == ExponentText(d.exponent)
  {
    var cps, a, b := Render(d), |d.sign|, |d.sign| + |d.whole|;
    var f, e := FractionText(d.fraction), ExponentText(d.exponent);
    assert cps == d.sign + d.whole + f + e;
    assert cps[..a] == d.sign;
    assert cps[a..b] == d.whole;
    assert cps[b..b + |f|] == f;
  }

  /** The integer loop crosses a run of digits and stops at the first code point it does not take. */
  lemma {:induction false} IntegerEndOfDigits(cps: seq<int>, i: nat, j: nat, dot: int)
    requires i <= j <= |cps|
    requires AllDigits(cps[i..j])
    requires j < |cps| ==> !InInteger(cps, j, dot)
    ensures IntegerEnd(cps, i, dot) == j
    decreases j - i
  {
    if i < j {
      assert cps[i] == cps[i..j][0];
      assert cps[i + 1..j] == cps[i..j][1..];
      IntegerEndOfDigits(cps, i + 1, j, dot);
    }
  }

  /** A run of digits ends at the first code point that is not a digit. */
  lemma {:induction false} DigitsEndOfDigits(cps: seq<int>, i: nat, j: nat)
    requires i <= j <= |cps|
    requires AllDigits(cps[i..j])
    requires j < |cps| ==> !IsAsciiDigit(cps[j])
    ensures DigitsEnd(cps, i) == j
    decreases j - i
  {
    if i < j {
      assert cps[i] == cps[i..j][0];
      assert cps[i + 1..j] == cps[i..j][1..];
      DigitsEndOfDigits(cps, i + 1, j);
    }
  }

  /** The last `.` of a rendering is the decimal point, if any. */
  lemma {:induction false} RenderDot(d: Decimal)
    requires Valid(d)
    ensures LastIndexOf(Render(d), '.' as int) == if d.fraction.Some? then |d.sign| + |d.whole| else -1
  {
    var cps, a, b := Render(d), |d.sign|, |d.sign| + |d.whole|;
    var f, e := FractionText(d.fraction), ExponentText(d.exponent);
    var c := b + |f|;
    assert cps == d.sign + d.whole + f + e;
    forall k | 0 <= k < |cps| && !(d.fraction.Some? && k == b)
      ensures cps[k] != '.' as int
    {
      if k < a {
        assert cps[k] == d.sign[k];
      } else if k < b {
        assert cps[k] == d.whole[k - a];
      } else if k < c {
        assert cps[k] == f[k - b];
        if k > b {
          assert f[k - b] == d.fraction.value[k - b - 1];
        }
      } else {
        assert cps[k] == e[k - c];
        if k > c + 1 {
          assert e[k - c] == d.exponent.value.digits[k - c - 2];
        }
      }
    }
    if d.fraction.Some? {
      assert cps[b] == f[0];
    }
  }

  /** Reading a rendering gives back the value rendered. */
  lemma {:induction false} ParsedRender(d: Decimal)
    requires Valid(d)
    ensures Parsed(Render(d)) == Some(d)
  {
    var cps := Render(d);
    RenderLayout(d);
    RenderDot(d);
    var a, b := |d.sign|, |d.sign| + |d.whole|;
    var c := b + |FractionText(d.fraction)|;
    var dot := LastIndexOf(cps, '.' as int);
    assert cps[a] == d.whole[0];
    assert SignEnd(cps) == a by {
      if a == 1 { assert cps[0] == d.sign[0]; }
    }
    if c < |cps| {
      assert cps[c] == cps[c..][0] == 'E' as int;
    }
    if d.fraction.Some? {
      assert cps[b] == cps[b..c][0] == '.' as int;
    }
    IntegerEndOfDigits(cps, a, b, dot);
    DigitsOfDigits(d.whole);
    FractionAtOf(cps, b, c, d.fraction);
    ExponentAtOf(cps, c, d.exponent);
  }

  /** FractionAt reads back a rendered fraction. */
  lemma {:induction false} FractionAtOf(cps: seq<int>, b: nat, c: nat, fraction: Option<seq<int>>)
    requires b <= c <= |cps| && cps[b..c] == FractionText(fraction)
    requires fraction.Some? ==> |fraction.value| > 0 && AllDigits(fraction.value)
    requires fraction.None? ==> b == |cps| || cps[b] != '.' as int
    requires c < |cps| ==> !IsAsciiDigit(cps[c])
    ensures FractionAt(cps, b) == (fraction, c)
  {
    if fraction.Some? {
      assert cps[b] == cps[b..c][0];
      assert cps[b + 1..c] == cps[b..c][1..];
      DigitsEndOfDigits(cps, b + 1, c);
    }
  }

  /** ExponentAt reads back a rendered exponent placed at the end. */
  lemma {:induction false} ExponentAtOf(cps: seq<int>, c: nat, exponent: Option<Exponent>)
    requires c <= |cps| && cps[c..] == ExponentText(exponent)
    requires exponent.Some? ==> IsSign(exponent.value.sign) && |exponent.value.digits| > 0 && AllDigits(exponent.value.digits)
    ensures ExponentAt(cps, c) == (exponent, |cps|)
  {
    if exponent.Some? {
      var e := exponent.value;
      assert cps[c] == 'E' as int && cps[c + 1] == e.sign;
      assert ExponentDigitsStart(cps, c) == c + 2;
      assert cps[c + 2..|cps|] == cps[c..][2..];
      DigitsEndOfDigits(cps, c + 2, |cps|);
    }
  }

  /** The parser is idempotent on code points: its output is read back unchanged. */
  lemma {:induction false} CanonicalIdempotent(cps: seq<int>)
    requires Canonical(cps).Some?
    ensures Canonical(Canonical(cps).value) == Canonical(cps)
  {
    ParsedRender(Parsed(cps).value);
  }

  // ------------------------------------------------------ the method

  /**
   * The code points parseFullToDecimal works on: the input trimmed of
   * whitespace and quotes at both ends, each code point then looked up in
   * the source to target replacement table.
   */
  function TrimmedCodepoints(input: JString, source: Option<JString>, target: Option<JString>): seq<int>
  {
    var cond := Some(UniversalString.IsWhitespaceOrQuotes);
    var b := UniversalStringTrim.CodePointTrimBounds(input, cond, cond);
    if b.startInclusive >= b.endExclusive then []
    else UniversalStringTrim.Replace(UniversalStringTrim.CodePointsFrom(input, b.startInclusive, b.endExclusive),
                                     UniversalStringTrim.MappingOf(source, target))
  }

  /**
   * parseFullToDecimal(input, source, target), returning the code points of
   * the canonical string, or None for null.
   */
  method ParseFullToDecimal(input: Option<JString>, source: Option<JString>, target: Option<JString>) returns (r: Option<seq<int>>)
    ensures UniversalString.IsEmpty(input) ==> r == None
    ensures !UniversalString.IsEmpty(input) ==> r == Canonical(TrimmedCodepoints(input.value, source, target))
  {
    if input.None? || |input.value| == 0 {
      return None;
    }
    var cond := Some(UniversalString.IsWhitespaceOrQuotes);
    var codepoints := UniversalStringTrim.AsCodepoints(input, cond, cond, source, target);
    if |codepoints| == 0 {
      return None;
    }
    r := Canonicalize(codepoints);
  }

  /** The body of parseFullToDecimal after the code points are taken. */
  method Canonicalize(codepoints: seq<int>) returns (r: Option<seq<int>>)
    requires |codepoints| > 0
    ensures r == Canonical(codepoints)
  {
    var n := |codepoints|;
    var dotIndex := n - 1;
    while 0 <= dotIndex && codepoints[dotIndex] != '.' as int
      invariant -1 <= dotIndex < n
      invariant forall k | dotIndex < k < n :: codepoints[k] != '.' as int
    {
      dotIndex := dotIndex - 1;
    }
    assert dotIndex == LastIndexOf(codepoints, '.' as int);
    var number := new int[n + 8];
    var c, i := 0, 0;
    if IsSign(codepoints[i]) {
      Append(number, c, codepoints[i]);
      c, i := c + 1, i + 1;
    }
    ghost var i0 := i;
    assert number[..c] == codepoints[..i0];
    var hasDigit;
    c, i, hasDigit := IntegerPass(codepoints, dotIndex, number, c, i);
    ghost var digits := DigitsOf(codepoints[i0..i]);
    ghost var integer := number[..c];
    assert integer == codepoints[..i0] + digits;
    ghost var hadDigit := hasDigit;
    ghost var fraction := FractionAt(codepoints, i);
    c, i, hasDigit := FractionPass(codepoints, number, c, i, hasDigit);
    if !hasDigit {
      return None;
    }
    ghost var exponent := ExponentAt(codepoints, i);
    ghost var whole := if digits == [] then ['0' as int] else digits;
    MantissaLayout(codepoints[..i0], digits, hadDigit, fraction.0);
    assert number[..c] == codepoints[..i0] + whole + FractionText(fraction.0);
    ghost var mantissa := number[..c];
    c, i := ExponentPass(codepoints, number, c, i);
    ExponentLayout(Decimal(codepoints[..i0], whole, fraction.0, exponent.0), mantissa);
    if i == n {
      return Some(number[..c]);
    }
    return None;
  }

  /** The integer digits and the fraction as written to `number` form the mantissa of the rendering. */
  lemma {:induction false} MantissaLayout(sign: seq<int>, digits: seq<int>, hadDigit: bool, fraction: Option<seq<int>>)
    requires hadDigit <==> digits != []
    requires hadDigit || fraction.Some?
    ensures var whole := if digits == [] then ['0' as int] else digits;
      && (fraction.None? ==> sign + digits == sign + whole + FractionText(fraction))
      && (fraction.Some? ==> sign + digits + (if hadDigit then [] else ['0' as int]) + ['.' as int] + fraction.value
                             == sign + whole + FractionText(fraction))
  {
    if fraction.Some? {
      assert FractionText(fraction) == ['.' as int] + fraction.value;
      if hadDigit {
        assert sign + digits + [] == sign + digits;
      } else {
        assert sign + digits == sign;
      }
    }
  }

  /** The exponent as written to `number` completes the rendering. */
  lemma {:induction false} ExponentLayout(d: Decimal, mantissa: seq<int>)
    requires mantissa == d.sign + d.whole + FractionText(d.fraction)
    ensures d.exponent.None? ==> Render(d) == mantissa
    ensures d.exponent.Some? ==> Render(d) == mantissa + ['E' as int, d.exponent.value.sign] + d.exponent.value.digits
  {
    if d.exponent.Some? {
      assert ExponentText(d.exponent) == ['E' as int, d.exponent.value.sign] + d.exponent.value.digits;
    }
  }

  /**
   * The decimal point step of parseFullToDecimal: at a `.`, a `0` stands in
   * for a missing integer part, then the point and the fraction digits, or
   * `0` when there are none.
   */
  method FractionPass(cps: seq<int>, number: array<int>, c0: nat, i1: nat, hasDigit0: bool) returns (c: nat, i: nat, hasDigit: bool)
    requires c0 <= i1 <= |cps| && |cps| + 8 <= number.Length
    modifies number
    ensures var f := FractionAt(cps, i1);
      && i == f.1 && c <= i + 2
      && (hasDigit <==> hasDigit0 || f.0.Some?)
      && (f.0.None? ==> c == c0 && number[..c] == old(number[..c0]))
      && (f.0.Some? ==> number[..c] == old(number[..c0]) + (if hasDigit0 then [] else ['0' as int]) + ['.' as int] + f.0.value)
  {
    c, i, hasDigit := c0, i1, hasDigit0;
    if i < |cps| && cps[i] == '.' as int {
      i := i + 1;
      ghost var head := number[..c];
      ghost var zeros := if hasDigit0 then [] else ['0' as int];
      if !hasDigit {
        Append(number, c, '0' as int);
        c := c + 1;
      }
      assert number[..c] == head + zeros;
      Append(number, c, '.' as int);
      c := c + 1;
      hasDigit := true;
      ghost var point := number[..c];
      assert point == head + zeros + ['.' as int];
      ghost var digits;
      if i < |cps| && IsAsciiDigit(cps[i]) {
        c, i := DigitsPass(cps, number, c, i);
        digits := cps[i1 + 1..i];
      } else {
        Append(number, c, '0' as int);
        c := c + 1;
        digits := ['0' as int];
      }
      assert FractionAt(cps, i1) == (Some(digits), i);
      assert number[..c] == point + digits;
    }
  }

  /** One write at the end of the filled prefix of `number`. */
  method Append(number: array<int>, c: nat, x: int)
    requires c < number.Length
    modifies number
    ensures number[..c + 1] == old(number[..c]) + [x]
    ensures number[..c] == old(number[..c])
  {
    number[c] := x;
  }

  /**
   * The exponent step of parseFullToDecimal: at an `e` or `E`, the mark, the
   * sign (`+` by default) and the digits are copied; when there are no
   * digits the write index goes back to where the mark was written.
   */
  method ExponentPass(cps: seq<int>, number: array<int>, c0: nat, i2: nat) returns (c: nat, i: nat)
    requires i2 <= |cps| && c0 <= i2 + 2 && |cps| + 8 <= number.Length
    modifies number
    ensures var e := ExponentAt(cps, i2);
      && i == e.1 && c <= i + 3
      && (e.0.None? ==> number[..c] == old(number[..c0]))
      && (e.0.Some? ==> number[..c] == old(number[..c0]) + ['E' as int, e.0.value.sign] + e.0.value.digits)
  {
    c, i := c0, i2;
    if i < |cps| && IsExponentMark(cps[i]) {
      i := i + 1;
      var record := c;
      ghost var head := number[..c];
      Append(number, c, 'E' as int);
      c := c + 1;
      ghost var sign;
      if i < |cps| && IsSign(cps[i]) {
        sign := cps[i];
        Append(number, c, cps[i]);
        c, i := c + 1, i + 1;
      } else {
        sign := '+' as int;
        Append(number, c, '+' as int);
        c := c + 1;
      }
      ghost var marked := number[..c];
      assert marked == head + ['E' as int, sign];
      ghost var i3 := i;
      assert i3 == ExponentDigitsStart(cps, i2);
      var signEnd := c;
      c, i := DigitsPass(cps, number, c, i);
      assert number[..c] == marked + cps[i3..i];
      if signEnd == c {
        assert number[..record] == number[..c][..record] == head;
        c := record;
      } else {
        assert ExponentAt(cps, i2).0 == Some(Exponent(sign, cps[i3..i]));
      }
    }
  }

  /**
   * The integer-part loop of parseFullToDecimal: digits are copied to
   * `number`, `,` and every `.` before the last one are skipped.
   */
  method IntegerPass(cps: seq<int>, dot: int, number: array<int>, c0: nat, i0: nat) returns (c: nat, i: nat, hasDigit: bool)
    requires c0 <= i0 <= |cps| && |cps| + 8 <= number.Length
    modifies number
    ensures i == IntegerEnd(cps, i0, dot)
    ensures c == c0 + |DigitsOf(cps[i0..i])| && c <= i
    ensures number[..c] == old(number[..c0]) + DigitsOf(cps[i0..i])
    ensures hasDigit <==> DigitsOf(cps[i0..i]) != []
  {
    c, i, hasDigit := c0, i0, false;
    ghost var base, ds := number[..c0], [];
    while i < |cps|
      invariant i0 <= i <= |cps| && c0 <= c <= i
      invariant IntegerEnd(cps, i, dot) == IntegerEnd(cps, i0, dot)
      invariant ds == DigitsOf(cps[i0..i]) && c == c0 + |ds|
      invariant number[..c] == base + ds
      invariant hasDigit <==> ds != []
    {
      DigitsOfStep(cps, i0, i);
      if cps[i] == ',' as int || (cps[i] == '.' as int && dot != -1 && i < dot) {
        i := i + 1;
      } else if IsAsciiDigit(cps[i]) {
        hasDigit := true;
        Append(number, c, cps[i]);
        c, i, ds := c + 1, i + 1, ds + [cps[i]];
      } else {
        break;
      }
    }
  }

  /** A digit-copying loop of parseFullToDecimal (fraction and exponent digits). */
  method DigitsPass(cps: seq<int>, number: array<int>, c0: nat, i0: nat) returns (c: nat, i: nat)
    requires i0 <= |cps| && c0 <= i0 + 3 && |cps| + 8 <= number.Length
    modifies number
    ensures i == DigitsEnd(cps, i0)
    ensures c == c0 + (i - i0)
    ensures number[..c] == old(number[..c0]) + cps[i0..i]
  {
    c, i := c0, i0;
    while i < |cps| && IsAsciiDigit(cps[i])
      invariant i0 <= i <= |cps| && c == c0 + (i - i0)
      invariant DigitsEnd(cps, i) == DigitsEnd(cps, i0)
      invariant number[..c] == old(number[..c0]) + cps[i0..i]
    {
      Append(number, c, cps[i]);
      assert cps[i0..i + 1] == cps[i0..i] + [cps[i]];
      c, i := c + 1, i + 1;
    }
  }
}

/** Readings of the documented examples of parseFullToDecimal. */
module UniversalStringDecimalExamples {
  import opened JavaText
  import opened UniversalStringDecimal

  /** "." reads as 0.0; a missing part on either side of the point is a zero. */
  lemma {:induction false} LonePointIsZero()
    ensures Canonical(['.' as int]) == Some(['0' as int, '.' as int, '0' as int])
  {
    var cps := ['.' as int];
    assert LastIndexOf(cps, '.' as int) == 0;
    assert !InInteger(cps, 0, 0);
    assert IntegerEnd(cps, 0, 0) == 0;
    assert DigitsOf(cps[0..0]) == [];
    assert DigitsEnd(cps, 1) == 1;
    assert FractionAt(cps, 0) == (Some(['0' as int]), 1);
    assert ExponentAt(cps, 1) == (None, 1);
    assert Parsed(cps) == Some(Decimal([], ['0' as int], Some(['0' as int]), None));
    assert Render(Decimal([], ['0' as int], Some(['0' as int]), None)) == ['0' as int, '.' as int, '0' as int];
  }

  /** "7.6.4": every `.` but the last is a grouping mark and is dropped. */
  lemma {:induction false} GroupingDotDropped()
    ensures Canonical(['7' as int, '.' as int, '6' as int, '.' as int, '4' as int])
         == Some(['7' as int, '6' as int, '.' as int, '4' as int])
  {
    var cps := ['7' as int, '.' as int, '6' as int, '.' as int, '4' as int];
    assert cps[3] == '.' as int && cps[4] != '.' as int;
    assert LastIndexOf(cps, '.' as int) == 3;
    assert IntegerEnd(cps, 3, 3) == 3;
    assert IntegerEnd(cps, 2, 3) == 3;
    assert IntegerEnd(cps, 1, 3) == 3;
    assert IntegerEnd(cps, 0, 3) == 3;
    DigitsOfStep(cps, 0, 0);
    DigitsOfStep(cps, 0, 1);
    DigitsOfStep(cps, 0, 2);
    assert DigitsOf(cps[0..0]) == [];
    assert DigitsOf(cps[0..3]) == ['7' as int, '6' as int];
    assert cps[4..5] == ['4' as int];
    DigitsEndOfDigits(cps, 4, 5);
    assert FractionAt(cps, 3) == (Some(['4' as int]), 5);
    assert ExponentAt(cps, 5) == (None, 5);
    assert Parsed(cps) == Some(Decimal([], ['7' as int, '6' as int], Some(['4' as int]), None));
    assert Render(Decimal([], ['7' as int, '6' as int], Some(['4' as int]), None)) == ['7' as int, '6' as int, '.' as int, '4' as int];
  }

  /** "+" and "-" hold no digit and no point: there is no number. */
  lemma {:induction false} LoneSignIsNothing(c: int)
    requires IsSign(c)
    ensures Canonical([c]) == None
  {
    assert LastIndexOf([c], '.' as int) == -1;
  }

  /** "1.2e+": an exponent without digits is dropped with its mark and sign. */
  lemma {:induction false} EmptyExponentDropped()
    ensures Canonical(['1' as int, '.' as int, '2' as int, 'e' as int, '+' as int])
         == Some(['1' as int, '.' as int, '2' as int])
  {
    var cps := ['1' as int, '.' as int, '2' as int, 'e' as int, '+' as int];
    assert cps[1] == '.' as int && cps[2] != '.' as int && cps[3] != '.' as int && cps[4] != '.' as int;
    assert LastIndexOf(cps, '.' as int) == 1;
    assert cps[0..1] == ['1' as int];
    IntegerEndOfDigits(cps, 0, 1, 1);
    DigitsOfDigits(cps[0..1]);
    assert cps[2..3] == ['2' as int];
    DigitsEndOfDigits(cps, 2, 3);
    assert FractionAt(cps, 1) == (Some(['2' as int]), 3);
    DigitsEndOfDigits(cps, 5, 5);
    assert ExponentDigitsStart(cps, 3) == 5;
    assert ExponentAt(cps, 3) == (None, 5);
    assert Parsed(cps) == Some(Decimal([], ['1' as int], Some(['2' as int]), None));
    assert Render(Decimal([], ['1' as int], Some(['2' as int]), None)) == ['1' as int, '.' as int, '2' as int];
  }
}
