// The small parsers of UniversalStringParsing: hex digit values, the
// \uXXXX / \UXXXXXXXX code point decoder, the escape letter mapping and the
// null / boolean literal recognisers, both over a prefetching operator and
// over a whole trimmed text.
//
// An IntUnaryOperator prefetcher is a function from an offset to the code
// point there (-1 past the end); the consuming operator is modelled by the
// count it would be called with, 0 when it is not called.
module UniversalStringParsing {
  import opened JavaText
  import UniversalString
  import UniversalStringTrim

  // ------------------------------------------------------------ hex digits

  /** The lower-case hex digit of a value below 16. */
  function HexDigit(v: int): (r: int)
    requires 0 <= v < 16
    ensures UniversalString.IsHex(r) && ToLower(r) == r
  {
    if v < 10 then '0' as int + v else 'a' as int + (v - 10)
  }

  /** parseHexToNumber: the value of a hex digit of either case, -1 for anything else. */
  function HexValue(cp: int): (r: int)
    ensures -1 <= r < 16
    ensures r == -1 <==> !UniversalString.IsHex(cp)
    ensures r != -1 ==> HexDigit(r) == ToLower(cp)
  {
    if '0' as int <= cp <= '9' as int then cp - '0' as int
    else if 'a' as int <= cp <= 'f' as int then cp - 'a' as int + 10
    else if 'A' as int <= cp <= 'F' as int then cp - 'A' as int + 10
    else -1
  }

  /** Every digit value is read back from its digit, in either case. */
  lemma {:induction false} HexDigitRoundTrip(v: int)
    requires 0 <= v < 16
    ensures HexValue(HexDigit(v)) == v
    ensures HexValue(ToUpper(HexDigit(v))) == v
  {
  }

  // ------------------------------------------------ \u and \U code points

  /**
   * The hex values a prefetcher yields from offset `i` on: it stops before the
   * first character that is not a hex digit and after offset `max - 1`.
   */
  function HexRun(f: int -> int, i: nat, max: nat): (r: seq<int>)
    requires i <= max
    ensures |r| <= max - i
    ensures forall k | 0 <= k < |r| :: r[k] == HexValue(f(i + k)) && 0 <= r[k] < 16
    ensures i + |r| < max ==> HexValue(f(i + |r|)) == -1
    decreases max - i
  {
    if i == max || HexValue(f(i)) == -1 then [] else [HexValue(f(i))] + HexRun(f, i + 1, max)
  }

  /** The number a sequence of hex digit values spells, most significant first. */
  function HexNumber(ds: seq<int>): int
  {
    if ds == [] then 0 else HexNumber(ds[..|ds| - 1]) * 16 + ds[|ds| - 1]
  }

  /** 16 to the power `n`. */
  function Pow16(n: nat): nat
  {
    if n == 0 then 1 else 16 * Pow16(n - 1)
  }

  /** `n` hex digits spell a number below 16^n. */
  lemma {:induction false} HexNumberBound(ds: seq<int>)
    requires forall k | 0 <= k < |ds| :: 0 <= ds[k] < 16
    ensures 0 <= HexNumber(ds) < Pow16(|ds|)
  {
    if ds != [] {
      var init := ds[..|ds| - 1];
      HexNumberBound(init);
      assert HexNumber(ds) == HexNumber(init) * 16 + ds[|ds| - 1];
    }
  }

  /** The outcome of one decoding: the code point (or -1) and the count handed to the consuming operator (0 when it is not called). */
  datatype Decoded = Decoded(codepoint: int, consumed: nat)

  /** The number of hex digits the decoder reads at most: 4 for `\u`, 8 for `\U`. */
  function MaxDigits(isBMP: bool): nat
  {
    if isBMP then 4 else 8
  }

  /** The code points the decoder refuses: 0, a UTF-16 surrogate and anything above U+10FFFF. */
  predicate Refused(cp: int)
  {
    cp == 0 || (0xD800 <= cp <= 0xDFFF) || cp > 0x10FFFF
  }

  /**
   * parseUnicodeToCodepoint as written: the digits are combined with
   * `(codepoint << 4) | digit` in Java `int` arithmetic, so eight digits
   * from 8 on wrap to a negative value, which the `> 0x10FFFF` test lets
   * through.
   */
  function UnicodeAsWritten(prefetch: Option<int -> int>, hasConsumer: bool, isBMP: bool): (r: Decoded)
  {
    if prefetch.None? || !hasConsumer then Decoded(-1, 0)
    else
      var ds := HexRun(prefetch.value, 0, MaxDigits(isBMP));
      if |ds| < 4 then Decoded(-1, 0)
      else
        var cp := Int32(HexNumber(ds));
        if Refused(cp) then Decoded(-1, 0) else Decoded(cp, |ds|)
  }

  /** The decoder as evidently intended: the value of the digits is tested before any narrowing to `int`. */
  function UnicodeCodepoint(prefetch: Option<int -> int>, hasConsumer: bool, isBMP: bool): (r: Decoded)
    // -1 exactly when nothing is consumed; otherwise 4 to MaxDigits digits spell a code point above 0
    ensures r.codepoint == -1 <==> r.consumed == 0
    ensures r.consumed != 0 ==> prefetch.Some? && hasConsumer && 4 <= r.consumed <= MaxDigits(isBMP)
    ensures r.consumed != 0 ==> 0 < r.codepoint <= 0x10FFFF
  {
    if prefetch.None? || !hasConsumer then Decoded(-1, 0)
    else
      var ds := HexRun(prefetch.value, 0, MaxDigits(isBMP));
      HexNumberBound(ds);
      if |ds| < 4 || Refused(HexNumber(ds)) then Decoded(-1, 0) else Decoded(HexNumber(ds), |ds|)
  }

  /**
   * What the corrected decoder promises: either -1 with nothing consumed, or
   * a non-zero Unicode scalar value spelled by exactly the `consumed` digits
   * read, 4 of them for `\u` and 4 to 8 for `\U`, reading stopping early
   * only at a character that is not a hex digit.
   */
  lemma {:induction false} UnicodeCodepointIsScalarValue(prefetch: Option<int -> int>, hasConsumer: bool, isBMP: bool)
    ensures var r := UnicodeCodepoint(prefetch, hasConsumer, isBMP);
      || r == Decoded(-1, 0)
      || (&& prefetch.Some? && hasConsumer
          && 4 <= r.consumed <= MaxDigits(isBMP)
          && IsCodePoint(r.codepoint) && r.codepoint != 0 && !(0xD800 <= r.codepoint <= 0xDFFF)
          && r.codepoint == HexNumber(HexRun(prefetch.value, 0, MaxDigits(isBMP)))
          && |HexRun(prefetch.value, 0, MaxDigits(isBMP))| == r.consumed
          && (r.consumed < MaxDigits(isBMP) ==> HexValue(prefetch.value(r.consumed)) == -1))
  {
    if prefetch.Some? {
      HexNumberBound(HexRun(prefetch.value, 0, MaxDigits(isBMP)));
    }
  }

  /** Fewer than four hex digits, or a refused value, consume nothing and give -1. */
  lemma {:induction false} UnicodeCodepointRejects(f: int -> int, isBMP: bool)
    requires var ds := HexRun(f, 0, MaxDigits(isBMP)); |ds| < 4 || Refused(HexNumber(ds))
    ensures UnicodeCodepoint(Some(f), true, isBMP) == Decoded(-1, 0)
  {
  }

  /** Below 2^31 the narrowing never happens, so the code as written decodes as intended. */
  lemma {:induction false} UnicodeAsWrittenAgrees(prefetch: Option<int -> int>, hasConsumer: bool, isBMP: bool)
    requires prefetch.Some? ==> HexNumber(HexRun(prefetch.value, 0, MaxDigits(isBMP))) < 0x8000_0000
    ensures UnicodeAsWritten(prefetch, hasConsumer, isBMP) == UnicodeCodepoint(prefetch, hasConsumer, isBMP)
  {
    if prefetch.Some? {
      HexNumberBound(HexRun(prefetch.value, 0, MaxDigits(isBMP)));
    }
  }

  /** `\u` reads four digits, whose value is below 2^16, so the two agree there. */
  lemma {:induction false} UnicodeAsWrittenAgreesOnBMP(prefetch: Option<int -> int>, hasConsumer: bool)
    ensures UnicodeAsWritten(prefetch, hasConsumer, true) == UnicodeCodepoint(prefetch, hasConsumer, true)
  {
    if prefetch.Some? {
      var ds := HexRun(prefetch.value, 0, 4);
      HexNumberBound(ds);
      Pow16UpToFour(|ds|);
    }
    UnicodeAsWrittenAgrees(prefetch, hasConsumer, true);
  }

  lemma {:induction false} Pow16UpToFour(n: nat)
    requires n <= 4
    ensures Pow16(n) <= 0x1_0000
  {
    assert Pow16(0) == 1;
    assert Pow16(1) == 16;
    assert Pow16(2) == 256;
    assert Pow16(3) == 4096;
    assert Pow16(4) == 0x1_0000;
  }

  /**
   * `\U88888888`: the code as written returns the negative value
   * 0x88888888 - 2^32 and consumes all eight digits; the intended decoder
   * returns -1 and consumes nothing.
   */
  lemma {:induction false} UnicodeAsWrittenWraps()
    ensures var f := (i: int) => '8' as int;
      && UnicodeAsWritten(Some(f), true, false) == Decoded(0x8888_8888 - 0x1_0000_0000, 8)
      && UnicodeCodepoint(Some(f), true, false) == Decoded(-1, 0)
  {
    var f := (i: int) => '8' as int;
    var ds := HexRun(f, 0, 8);
    assert HexValue(f(|ds|)) == 8;
    assert |ds| == 8;
    var d1 := [8];
    var d2 := d1 + [8];
    var d3 := d2 + [8];
    var d4 := d3 + [8];
    var d5 := d4 + [8];
    var d6 := d5 + [8];
    var d7 := d6 + [8];
    var d8 := d7 + [8];
    assert d2[..1] == d1 && d3[..2] == d2 && d4[..3] == d3 && d5[..4] == d4;
    assert d6[..5] == d5 && d7[..6] == d6 && d8[..7] == d7;
    assert [8][..0] == [];
    assert HexNumber(d1) == 8;
    assert HexNumber(d2) == 0x88;
    assert HexNumber(d3) == 0x888;
    assert HexNumber(d4) == 0x8888;
    assert HexNumber(d5) == 0x8_8888;
    assert HexNumber(d6) == 0x88_8888;
    assert HexNumber(d7) == 0x888_8888;
    assert HexNumber(d8) == 0x8888_8888;
    assert ds == d8;
    assert HexNumber(ds) == 0x8888_8888;
  }

  /**
   * parseUnicodeToCodepoint(prefetchOperator, consumeOperator, isBMP): the
   * digits are read into an eight-slot array with a counter, then combined;
   * `hasConsumer` says whether the consuming operator is non-null.
   */
  method ParseUnicodeToCodepoint(prefetch: Option<int -> int>, hasConsumer: bool, isBMP: bool) returns (codepoint: int, consumed: nat)
    ensures Decoded(codepoint, consumed) == UnicodeAsWritten(prefetch, hasConsumer, isBMP)
  {
    if prefetch.None? || !hasConsumer {
      return -1, 0;
    }
    var hexes := new int[8];
    var count, enough := ReadHexDigits(prefetch.value, MaxDigits(isBMP), hexes);
    if !enough {
      return -1, 0;
    }
    codepoint := CombineHexDigits(hexes, count);
    if Refused(codepoint) {
      return -1, 0;
    }
    consumed := count;
  }

  /**
   * The reading loop of parseUnicodeToCodepoint: `hexes[count++]` takes each
   * digit value until a non-hex character or `maxDigits`; a non-hex
   * character among the first four fails the whole decoding.
   */
  method ReadHexDigits(f: int -> int, maxDigits: nat, hexes: array<int>) returns (count: nat, enough: bool)
    requires maxDigits <= hexes.Length
    modifies hexes
    ensures enough <==> |HexRun(f, 0, maxDigits)| >= 4
    ensures enough ==> count <= maxDigits && hexes[..count] == HexRun(f, 0, maxDigits)
    ensures enough ==> forall k | 0 <= k < count :: 0 <= hexes[k] < 16
  {
    var minDigits := 4;
    count := 0;
    ghost var ds := HexRun(f, 0, maxDigits);
    while count < maxDigits
      invariant count <= |ds|
      invariant hexes[..count] == ds[..count]
    {
      var hexValue := HexValue(f(count));
      if hexValue == -1 {
        assert count == |ds|;
        if count < minDigits {
          return count, false;
        }
        break;
      }
      assert count < |ds| && ds[count] == hexValue;
      hexes[count] := hexValue;
      count := count + 1;
    }
    assert count == |ds| && ds[..count] == ds;
    enough := count >= minDigits;
  }

  /** The combining loop of parseUnicodeToCodepoint: `codepoint = (codepoint << 4) | hexes[i]` in Java `int` arithmetic. */
  method CombineHexDigits(hexes: array<int>, count: nat) returns (codepoint: int)
    requires count <= 8 && count <= hexes.Length
    requires forall k | 0 <= k < count :: 0 <= hexes[k] < 16
    ensures codepoint == Int32(HexNumber(hexes[..count]))
  {
    ghost var ds := hexes[..count];
    codepoint := 0;
    var i := 0;
    while i < count
      invariant i <= count
      invariant codepoint == Int32(HexNumber(ds[..i]))
    {
      CombineStep(ds, i, codepoint);
      // the shift clears the low four bits the digit then fills
      codepoint := Int32(codepoint * 16 + hexes[i]);
      i := i + 1;
    }
    assert ds[..count] == ds;
  }

  /** One turn of the combining loop: before the eighth digit the value still fits an `int`, so only the last turn can wrap. */
  lemma {:induction false} CombineStep(ds: seq<int>, i: nat, codepoint: int)
    requires i < |ds| <= 8
    requires forall k | 0 <= k < |ds| :: 0 <= ds[k] < 16
    requires codepoint == Int32(HexNumber(ds[..i]))
    ensures Int32(codepoint * 16 + ds[i]) == Int32(HexNumber(ds[..i + 1]))
  {
    var prefix := ds[..i];
    HexNumberBound(prefix);
    PowMonotone(i, 7);
    assert Pow16(7) == 0x1000_0000;
    assert codepoint == HexNumber(prefix);
    assert ds[..i + 1][..i] == prefix;
  }

  lemma {:induction false} PowMonotone(m: nat, n: nat)
    requires m <= n
    ensures Pow16(m) <= Pow16(n)
    decreases n
  {
    if m < n {
      PowMonotone(m, n - 1);
    }
  }

  // ------------------------------------------------------------ escapes

  /** The five control characters parseEscape knows: tab, line feed, carriage return, form feed, backspace. */
  const Controls: seq<int> := [0x09, 0x0A, 0x0D, 0x0C, 0x08]

  /** Their escape letters, position by position. */
  const Letters: seq<int> := ['t' as int, 'n' as int, 'r' as int, 'f' as int, 'b' as int]

  /**
   * parseEscape(input, unescape): with `unescape` a control character
   * becomes its escape letter, otherwise an escape letter becomes its
   * control character; every other character is returned unchanged.
   */
  function Escape(input: int, unescape: bool): (r: int)
    ensures forall k | 0 <= k < 5 :: unescape && input == Controls[k] ==> r == Letters[k]
    ensures forall k | 0 <= k < 5 :: !unescape && input == Letters[k] ==> r == Controls[k]
    ensures unescape && input !in Controls ==> r == input
    ensures !unescape && input !in Letters ==> r == input
  {
    if unescape then
      if input == 0x09 then 't' as int
      else if input == 0x0A then 'n' as int
      else if input == 0x0D then 'r' as int
      else if input == 0x0C then 'f' as int
      else if input == 0x08 then 'b' as int
      else input
    else
      if input == 't' as int then 0x09
      else if input == 'n' as int then 0x0A
      else if input == 'r' as int then 0x0D
      else if input == 'f' as int then 0x0C
      else if input == 'b' as int then 0x08
      else input
  }

  /** The two directions undo each other on the five pairs. */
  lemma {:induction false} EscapeRoundTrip(c: int)
    ensures c in Controls ==> Escape(Escape(c, true), false) == c
    ensures c in Letters ==> Escape(Escape(c, false), true) == c
  {
  }

  /** Beyond the five pairs the two directions do not undo each other: `t` is kept, then turned into a tab. */
  lemma {:induction false} EscapeOnlyInverseOnPairs()
    ensures Escape(Escape('t' as int, true), false) == 0x09
  {
  }

  // ------------------------------------------- literals over a prefetcher

  const NullWord: JString := ['n' as int, 'u' as int, 'l' as int, 'l' as int]
  const UndefinedWord: JString := ['u' as int, 'n' as int, 'd' as int, 'e' as int, 'f' as int, 'i' as int, 'n' as int, 'e' as int, 'd' as int]
  const TrueWord: JString := ['t' as int, 'r' as int, 'u' as int, 'e' as int]
  const FalseWord: JString := ['f' as int, 'a' as int, 'l' as int, 's' as int, 'e' as int]

  /** The four keywords are lower case, so lower-casing a text is how it is compared with them. */
  lemma {:induction false} KeywordsAreLowerCase()
    ensures LowerAll(NullWord) == NullWord && LowerAll(UndefinedWord) == UndefinedWord
    ensures LowerAll(TrueWord) == TrueWord && LowerAll(FalseWord) == FalseWord
  {
  }

  /**
   * What isEquals(ignoreCase, prefetch, target...) answers: the prefetcher
   * yields a character at every offset of the target (never -1), each one
   * equal to the target's under isEquals(ignoreCase, int, int).
   */
  predicate PrefetchMatches(ignoreCase: bool, f: int -> int, target: seq<int>)
  {
    forall i | 0 <= i < |target| :: f(i) != -1 && UniversalString.IsEqualsChar(ignoreCase, f(i), target[i])
  }

  /** isEquals(ignoreCase, IntUnaryOperator, int...) */
  method PrefetchEquals(ignoreCase: bool, f: int -> int, target: seq<int>) returns (r: bool)
    ensures r <==> PrefetchMatches(ignoreCase, f, target)
  {
    for i := 0 to |target|
      invariant forall k | 0 <= k < i :: f(k) != -1 && UniversalString.IsEqualsChar(ignoreCase, f(k), target[k])
    {
      var codepoint := f(i);
      if codepoint == -1 {
        return false;
      }
      if !UniversalString.IsEqualsChar(ignoreCase, codepoint, target[i]) {
        return false;
      }
    }
    return true;
  }

  /** parsePartialToNull: `null`, else `undefined`, ignoring case; the matched keyword is consumed. */
  method ParsePartialToNull(f: int -> int) returns (r: bool, consumed: nat)
    ensures r <==> PrefetchMatches(true, f, NullWord) || PrefetchMatches(true, f, UndefinedWord)
    ensures consumed == if PrefetchMatches(true, f, NullWord) then 4
                        else if PrefetchMatches(true, f, UndefinedWord) then 9 else 0
  {
    var isNull := PrefetchEquals(true, f, NullWord);
    if isNull {
      return true, |NullWord|;
    }
    var isUndefined := PrefetchEquals(true, f, UndefinedWord);
    if isUndefined {
      return true, |UndefinedWord|;
    }
    return false, 0;
  }

  /** parsePartialToBoolean: `true` or `false`, ignoring case, with the keyword consumed; null otherwise. */
  method ParsePartialToBoolean(f: int -> int) returns (r: Option<bool>, consumed: nat)
    ensures r == Some(true) <==> PrefetchMatches(true, f, TrueWord)
    ensures r == Some(false) <==> !PrefetchMatches(true, f, TrueWord) && PrefetchMatches(true, f, FalseWord)
    ensures consumed == if r == Some(true) then 4 else if r == Some(false) then 5 else 0
  {
    var isTrue := PrefetchEquals(true, f, TrueWord);
    if isTrue {
      return Some(true), |TrueWord|;
    }
    var isFalse := PrefetchEquals(true, f, FalseWord);
    if isFalse {
      return Some(false), |FalseWord|;
    }
    return None, 0;
  }

  /** The prefetcher over a text: the unit at an offset inside it, -1 past its end. */
  function TextPrefetch(s: JString): int -> int
  {
    (i: int) => if 0 <= i < |s| then s[i] as int else -1
  }

  /** Over a text, a prefetch match of a lower-case keyword is a case-insensitive prefix match. */
  lemma {:induction false} PrefetchMatchesPrefix(s: JString, word: JString)
    requires LowerAll(word) == word
    ensures PrefetchMatches(true, TextPrefetch(s), word) <==> |word| <= |s| && LowerAll(s[..|word|]) == word
  {
    var f := TextPrefetch(s);
    if PrefetchMatches(true, f, word) {
      assert f(|s|) == -1;
      assert |word| <= |s|;
      forall i | 0 <= i < |word|
        ensures ToLower(s[i]) == word[i]
      {
        assert f(i) == s[i];
        assert ToLower(word[i]) == word[i];
      }
      assert LowerAll(s[..|word|]) == word;
    }
    if |word| <= |s| && LowerAll(s[..|word|]) == word {
      forall i | 0 <= i < |word|
        ensures f(i) != -1 && UniversalString.IsEqualsChar(true, f(i), word[i])
      {
        assert LowerAll(s[..|word|])[i] == ToLower(s[i]);
        assert ToLower(word[i]) == word[i];
      }
    }
  }

  // --------------------------------------------- literals over a whole text

  /**
   * asCharacters(input, trimCondition): the units of the input inside the
   * bounds that trimming both ends by `cond` leaves (none for a null or
   * empty input).
   */
  function AsCharacters(input: Option<JString>, cond: int -> bool): (r: JString)
  {
    if UniversalString.IsEmpty(input) then []
    else UniversalStringTrim.Kept(input.value, UniversalStringTrim.CodePointTrimBounds(input.value, Some(cond), Some(cond)))
  }

  method Characters(input: Option<JString>, cond: int -> bool) returns (r: JString)
    ensures r == AsCharacters(input, cond)
  {
    r := UniversalStringTrim.Trim(input, true, true, Some(cond));
  }

  /** Whether a text spells `null` or `undefined`, ignoring case. */
  predicate NullLiteral(chars: JString)
  {
    LowerAll(chars) == NullWord || LowerAll(chars) == UndefinedWord
  }

  /** The boolean a text spells ignoring case, if any. */
  function BooleanLiteral(chars: JString): Option<bool>
  {
    if LowerAll(chars) == TrueWord then Some(true)
    else if LowerAll(chars) == FalseWord then Some(false)
    else None
  }

  /** The keyword of a boolean. */
  function Keyword(b: bool): JString
  {
    if b then TrueWord else FalseWord
  }

  /**
   * The comparison loop of parseFullToNull and parseFullToBoolean: every unit
   * of `chars`, lower-cased, equals the keyword's unit at its position.
   */
  method LowerEquals(chars: JString, word: JString) returns (r: bool)
    requires |chars| == |word| && LowerAll(word) == word
    ensures r <==> LowerAll(chars) == word
  {
    for i := 0 to |word|
      invariant forall k | 0 <= k < i :: ToLower(chars[k]) == word[k]
    {
      if !UniversalString.IsEqualsChar(true, chars[i], word[i]) {
        assert ToLower(word[i]) == word[i];
        assert LowerAll(chars)[i] != word[i];
        return false;
      }
    }
    assert LowerAll(chars) == word;
    return true;
  }

  /** parseFullToNull: after trimming the library whitespace, `null` or `undefined` ignoring case. */
  method ParseFullToNull(input: Option<JString>) returns (r: bool)
    ensures r <==> NullLiteral(AsCharacters(input, UniversalString.IsWhitespace))
  {
    if input.None? || |input.value| == 0 {
      return false;
    }
    var chars := Characters(input, UniversalString.IsWhitespace);
    KeywordsAreLowerCase();
    if |chars| == 4 {
      r := LowerEquals(chars, NullWord);
    } else if |chars| == 9 {
      r := LowerEquals(chars, UndefinedWord);
    } else {
      r := false;
    }
  }

  /** parseFullToBoolean: after trimming the library whitespace, `true` or `false` ignoring case, null otherwise. */
  method ParseFullToBoolean(input: Option<JString>) returns (r: Option<bool>)
    ensures r == BooleanLiteral(AsCharacters(input, UniversalString.IsWhitespace))
  {
    if input.None? || |input.value| == 0 {
      return None;
    }
    var chars := Characters(input, UniversalString.IsWhitespace);
    KeywordsAreLowerCase();
    r := None;
    if |chars| == 4 {
      var isTrue := LowerEquals(chars, TrueWord);
      if isTrue {
        r := Some(true);
      }
    } else if |chars| == 5 {
      var isFalse := LowerEquals(chars, FalseWord);
      if isFalse {
        r := Some(false);
      }
    }
  }

  /**
   * The whole-text recogniser accepts exactly the texts the prefix
   * recogniser matches in full: a text spells boolean `b` iff the prefetch
   * over it matches that keyword and the keyword consumes the whole text.
   */
  lemma {:induction false} BooleanLiteralIsWholeMatch(s: JString, b: bool)
    ensures BooleanLiteral(s) == Some(b) <==> PrefetchMatches(true, TextPrefetch(s), Keyword(b)) && |Keyword(b)| == |s|
  {
    KeywordsAreLowerCase();
    PrefetchMatchesPrefix(s, TrueWord);
    PrefetchMatchesPrefix(s, FalseWord);
    assert s[..|s|] == s;
    assert |s| == |TrueWord| ==> LowerAll(s) != FalseWord;
  }

  /** Likewise for the null keywords. */
  lemma {:induction false} NullLiteralIsWholeMatch(s: JString)
    ensures NullLiteral(s) <==>
              || (PrefetchMatches(true, TextPrefetch(s), NullWord) && |s| == 4)
              || (PrefetchMatches(true, TextPrefetch(s), UndefinedWord) && |s| == 9)
  {
    KeywordsAreLowerCase();
    PrefetchMatchesPrefix(s, NullWord);
    PrefetchMatchesPrefix(s, UndefinedWord);
    assert s[..|s|] == s;
  }

  /** The recognisers ignore case: a text and its upper-cased form spell the same literal. */
  lemma {:induction false} LiteralsIgnoreCase(s: JString)
    ensures BooleanLiteral(UpperAll(s)) == BooleanLiteral(s)
    ensures NullLiteral(UpperAll(s)) <==> NullLiteral(s)
  {
    assert LowerAll(UpperAll(s)) == LowerAll(s) by {
      forall i | 0 <= i < |s|
        ensures ToLower(ToUpper(s[i])) == ToLower(s[i])
      {
      }
    }
  }
}
