// UniversalString, part 1: the index-range validators, the character
// classes, the emptiness tests and region matching (regionMatches,
// isStartsWith, isEndsWith, isSurround). A Java `char[]` or `String` is a
// JString, an `int[]` a `seq<int>`; a null argument is `None`.

module UniversalString {
  import opened JavaText
  import opened IndexBounds

  // ------------------------------------------------------ range validators

  /** isValidateByIndex(start, end, length): [start, end) is a non-empty range inside [0, length). */
  function IsValidateByIndex(startInclusive: int, endExclusive: int, length: int): (r: bool)
    ensures r <==> 0 <= startInclusive < endExclusive <= length
  {
    if length <= 0 then false
    else if startInclusive < 0 || startInclusive >= length then false
    else if endExclusive <= 0 || endExclusive > length then false
    else startInclusive < endExclusive
  }

  /** Both ranges are valid and the input range is at least as long as the target range. */
  function IsValidateByIndexPair(inputStart: int, inputEnd: int, inputLength: int,
                                 targetStart: int, targetEnd: int, targetLength: int): (r: bool)
    ensures r <==> (0 <= inputStart < inputEnd <= inputLength
                && 0 <= targetStart < targetEnd <= targetLength
                && targetEnd - targetStart <= inputEnd - inputStart)
  {
    if !IsValidateByIndex(inputStart, inputEnd, inputLength) then false
    else if !IsValidateByIndex(targetStart, targetEnd, targetLength) then false
    else inputEnd - inputStart >= targetEnd - targetStart
  }

  /**
   * isValidateByOffset(offset, count, length) with `offset + count` taken
   * exactly: the `count` indices from `offset` all lie inside [0, length).
   */
  function IsValidateByOffset(offset: int, count: int, length: int): (r: bool)
    ensures r <==> 0 <= offset && 0 < count && offset + count <= length
  {
    if offset < 0 || count <= 0 || length <= 0 then false
    else offset + count <= length
  }

  /** Both regions are valid and the input region ends at or after the target region. */
  function IsValidateByOffsetPair(inputOffset: int, inputCount: int, inputLength: int,
                                  targetOffset: int, targetCount: int, targetLength: int): (r: bool)
    ensures r <==> (0 <= inputOffset && 0 < inputCount && inputOffset + inputCount <= inputLength
                && 0 <= targetOffset && 0 < targetCount && targetOffset + targetCount <= targetLength
                && targetOffset + targetCount <= inputOffset + inputCount)
  {
    if !IsValidateByOffset(inputOffset, inputCount, inputLength) then false
    else if !IsValidateByOffset(targetOffset, targetCount, targetLength) then false
    else inputOffset + inputCount >= targetOffset + targetCount
  }

  /**
   * isValidateByOffset(offset, count, length) as the source computes it:
   * `offset + count` is a Java `int` sum, so a sum above Integer.MAX_VALUE
   * wraps to a negative number and passes the final comparison.
   */
  function IsValidateByOffsetAsWritten(offset: int, count: int, length: int): (r: bool)
    requires IsInt32(offset) && IsInt32(count) && IsInt32(length)
    ensures r <==> (0 <= offset && 0 < count && 0 < length
                && (offset + count <= length || offset + count > IntMax))
  {
    if offset < 0 || count <= 0 || length <= 0 then false
    else
      WrapPositiveSum(offset, count);
      Int32(offset + count) <= length
  }

  /** The six-argument isValidateByOffset as the source computes it, every sum in Java `int`. */
  function IsValidateByOffsetPairAsWritten(inputOffset: int, inputCount: int, inputLength: int,
                                           targetOffset: int, targetCount: int, targetLength: int): (r: bool)
    requires IsInt32(inputOffset) && IsInt32(inputCount) && IsInt32(inputLength)
    requires IsInt32(targetOffset) && IsInt32(targetCount) && IsInt32(targetLength)
    ensures r ==> IsValidateByOffsetAsWritten(inputOffset, inputCount, inputLength)
    ensures r ==> IsValidateByOffsetAsWritten(targetOffset, targetCount, targetLength)
  {
    if !IsValidateByOffsetAsWritten(inputOffset, inputCount, inputLength) then false
    else if !IsValidateByOffsetAsWritten(targetOffset, targetCount, targetLength) then false
    else Int32(inputOffset + inputCount) >= Int32(targetOffset + targetCount)
  }

  /** The Java `int` sum of two non-negative `int`s is the exact sum, or the sum less 2^32. */
  lemma {:induction false} WrapPositiveSum(a: int, b: int)
    requires 0 <= a <= IntMax && 0 <= b <= IntMax
    ensures a + b <= IntMax ==> Int32(a + b) == a + b
    ensures a + b > IntMax ==> Int32(a + b) == a + b - 0x1_0000_0000
  {
    if a + b > IntMax {
      var m := (a + b - IntMin) % 0x1_0000_0000;
      assert a + b - IntMin == m + 0x1_0000_0000;
    }
  }

  /** Without overflow the source's validator is the exact one. */
  lemma {:induction false} OffsetPairAsWrittenWithoutOverflow(inputOffset: int, inputCount: int, inputLength: int,
                                                             targetOffset: int, targetCount: int, targetLength: int)
    requires IsInt32(inputOffset) && IsInt32(inputCount) && IsInt32(inputLength)
    requires IsInt32(targetOffset) && IsInt32(targetCount) && IsInt32(targetLength)
    requires IsInt32(inputOffset + inputCount) && IsInt32(targetOffset + targetCount)
    ensures IsValidateByOffsetPairAsWritten(inputOffset, inputCount, inputLength, targetOffset, targetCount, targetLength)
        == IsValidateByOffsetPair(inputOffset, inputCount, inputLength, targetOffset, targetCount, targetLength)
  {
    assert Int32(inputOffset + inputCount) == inputOffset + inputCount;
    assert Int32(targetOffset + targetCount) == targetOffset + targetCount;
  }

  /**
   * With both offsets at Integer.MAX_VALUE and a count of 1 the two sums wrap
   * to the same negative number, so the source accepts two regions that lie
   * wholly outside arrays of length 5, and regionMatches goes on to read index
   * 2147483647.
   */
  lemma {:induction false} OffsetPairAsWrittenAcceptsOverflow()
    ensures IsValidateByOffsetPairAsWritten(IntMax, 1, 5, IntMax, 1, 5)
    ensures !IsValidateByOffsetPair(IntMax, 1, 5, IntMax, 1, 5)
  {
    WrapPositiveSum(IntMax, 1);
  }

  // ------------------------------------------------------ character classes

  /** isAscii: every value below 128, negative ones included. */
  predicate IsAscii(c: int) { c < 128 }

  predicate IsAsciiPrintable(c: int) { 32 <= c < 127 }

  predicate IsAsciiControl(c: int) { c < 32 || c == 127 }

  /** isHex: a decimal digit (Character.isDigit, on the ASCII range) or a-f / A-F. */
  predicate IsHex(c: int)
    ensures IsHex(c) ==> '0' as int <= c <= 'f' as int
    // case does not matter: lower-cased, a hex digit is 0-9 or a-f
    ensures IsHex(c) <==> IsAsciiDigit(ToLower(c)) || 'a' as int <= ToLower(c) <= 'f' as int
  {
    IsAsciiDigit(c) || ('a' as int <= c <= 'f' as int) || ('A' as int <= c <= 'F' as int)
  }

  /** isEmoji: the nine supplementary blocks the source lists. */
  predicate IsEmoji(c: int)
    // the blocks run without a break from U+1F300 to U+1FAFF, except for U+1F650-U+1F67F
    ensures IsEmoji(c) <==> 0x1F300 <= c <= 0x1FAFF && !(0x1F650 <= c <= 0x1F67F)
  {
    (0x1F600 <= c <= 0x1F64F) || (0x1F300 <= c <= 0x1F5FF) || (0x1F680 <= c <= 0x1F6FF)
    || (0x1F700 <= c <= 0x1F77F) || (0x1F780 <= c <= 0x1F7FF) || (0x1F800 <= c <= 0x1F8FF)
    || (0x1F900 <= c <= 0x1F9FF) || (0x1FA00 <= c <= 0x1FA6F) || (0x1FA70 <= c <= 0x1FAFF)
  }

  predicate IsPathSeparator(c: int) { c == '/' as int || c == '\\' as int }

  /** The library's own whitespace: space, tab, line feed, carriage return and form feed. */
  predicate IsWhitespace(c: int)
  {
    c == ' ' as int || c == '\t' as int || c == '\n' as int || c == '\r' as int || c == 0x0C
  }

  predicate IsWhitespaceOrSingleQuote(c: int) { IsWhitespace(c) || c == '\'' as int }

  predicate IsWhitespaceOrDoubleQuotes(c: int) { IsWhitespace(c) || c == '"' as int }

  predicate IsWhitespaceOrQuotes(c: int) { IsWhitespace(c) || c == '"' as int || c == '\'' as int }

  /** How the classes relate: control and printable split 0..127, and the library's whitespace is JDK whitespace. */
  lemma {:induction false} CharacterClasses(c: int)
    ensures 0 <= c < 128 ==> (IsAsciiControl(c) <==> !IsAsciiPrintable(c))
    ensures IsAsciiPrintable(c) ==> IsAscii(c)
    ensures IsWhitespace(c) ==> IsJavaWhitespace(c) && IsAscii(c)
    ensures IsWhitespaceOrQuotes(c) <==> IsWhitespaceOrSingleQuote(c) || IsWhitespaceOrDoubleQuotes(c)
    ensures IsHex(c) ==> IsAsciiPrintable(c)
    ensures IsEmoji(c) ==> IsCodePoint(c) && CharCount(c) == 2
  {
  }

  // -------------------------------------------------------- emptiness tests

  predicate IsEmpty(input: Option<JString>) { input.None? || |input.value| == 0 }

  predicate IsNotEmpty(input: Option<JString>) { input.Some? && |input.value| > 0 }

  /** Every code unit is Character.isWhitespace, and a null text counts as blank. */
  predicate Blank(input: Option<JString>)
  {
    input.None? || forall i | 0 <= i < |input.value| :: IsJavaWhitespace(input.value[i])
  }

  /** isBlank */
  method IsBlank(input: Option<JString>) returns (r: bool)
    ensures r <==> Blank(input)
  {
    if input.None? || |input.value| == 0 {
      return true;
    }
    var s := input.value;
    for i := 0 to |s|
      invariant forall k | 0 <= k < i :: IsJavaWhitespace(s[k])
    {
      if !IsJavaWhitespace(s[i]) {
        return false;
      }
    }
    return true;
  }

  /** isNotBlank: the complement of isBlank. */
  method IsNotBlank(input: Option<JString>) returns (r: bool)
    ensures r <==> !Blank(input)
  {
    if input.None? || |input.value| == 0 {
      return false;
    }
    var s := input.value;
    for i := 0 to |s|
      invariant forall k | 0 <= k < i :: IsJavaWhitespace(s[k])
    {
      if !IsJavaWhitespace(s[i]) {
        return true;
      }
    }
    return false;
  }

  /** areAllEmpty: a non-empty argument list whose every element is empty. */
  method AreAllEmpty(input: Option<seq<Option<JString>>>) returns (r: bool)
    ensures r <==> input.Some? && |input.value| > 0 && forall k | 0 <= k < |input.value| :: IsEmpty(input.value[k])
  {
    if input.None? || |input.value| == 0 {
      return false;
    }
    var xs := input.value;
    for i := 0 to |xs|
      invariant forall k | 0 <= k < i :: IsEmpty(xs[k])
    {
      if !IsEmpty(xs[i]) {
        return false;
      }
    }
    return true;
  }

  /** areAllNotEmpty: a non-empty argument list none of whose elements is empty. */
  method AreAllNotEmpty(input: Option<seq<Option<JString>>>) returns (r: bool)
    ensures r <==> input.Some? && |input.value| > 0 && forall k | 0 <= k < |input.value| :: IsNotEmpty(input.value[k])
  {
    if input.None? || |input.value| == 0 {
      return false;
    }
    var xs := input.value;
    for i := 0 to |xs|
      invariant forall k | 0 <= k < i :: IsNotEmpty(xs[k])
    {
      if IsEmpty(xs[i]) {
        return false;
      }
    }
    return true;
  }

  /** areAllBlank: a non-empty argument list whose every element is blank. */
  method AreAllBlank(input: Option<seq<Option<JString>>>) returns (r: bool)
    ensures r <==> input.Some? && |input.value| > 0 && forall k | 0 <= k < |input.value| :: Blank(input.value[k])
  {
    if input.None? || |input.value| == 0 {
      return false;
    }
    var xs := input.value;
    for i := 0 to |xs|
      invariant forall k | 0 <= k < i :: Blank(xs[k])
    {
      var b := IsBlank(xs[i]);
      if !b {
        return false;
      }
    }
    return true;
  }

  /** areAllNotBlank: a non-empty argument list none of whose elements is blank. */
  method AreAllNotBlank(input: Option<seq<Option<JString>>>) returns (r: bool)
    ensures r <==> input.Some? && |input.value| > 0 && forall k | 0 <= k < |input.value| :: !Blank(input.value[k])
  {
    if input.None? || |input.value| == 0 {
      return false;
    }
    var xs := input.value;
    for i := 0 to |xs|
      invariant forall k | 0 <= k < i :: !Blank(xs[k])
    {
      var b := IsBlank(xs[i]);
      if b {
        return false;
      }
    }
    return true;
  }

  // --------------------------------------------------------- region matching

  /** isEquals(ignoreCase, int, int) */
  function IsEqualsChar(ignoreCase: bool, a: int, b: int): (r: bool)
    ensures r <==> SameValue(ignoreCase, a, b)
  {
    if a == b then true
    else ignoreCase && ToLower(a) == ToLower(b)
  }

  /** The per-element comparison of regionMatches: `Character.toLowerCase` on both sides when case is ignored. */
  predicate SameValue(ignoreCase: bool, a: int, b: int)
  {
    if ignoreCase then ToLower(a) == ToLower(b) else a == b
  }

  /**
   * What regionMatches(ignoreCase, input, inputOffset, target, targetOffset, count)
   * answers: both arrays present, both regions valid for the six-argument
   * offset validator, and the regions equal element by element.
   */
  predicate Matches(ignoreCase: bool, input: Option<seq<int>>, inputOffset: int,
                    target: Option<seq<int>>, targetOffset: int, count: int)
  {
    && input.Some? && target.Some?
    && IsValidateByOffsetPair(inputOffset, count, |input.value|, targetOffset, count, |target.value|)
    && SameValues(ignoreCase, input.value[inputOffset..inputOffset + count], target.value[targetOffset..targetOffset + count])
  }

  /** Two sequences of the same length that agree element by element under SameValue. */
  predicate SameValues(ignoreCase: bool, a: seq<int>, b: seq<int>)
  {
    |a| == |b| && forall k | 0 <= k < |a| :: SameValue(ignoreCase, a[k], b[k])
  }

  /** Case-sensitive agreement is equality. */
  lemma {:induction false} SameValuesIsEquality(a: seq<int>, b: seq<int>)
    ensures SameValues(false, a, b) <==> a == b
  {
  }

  /** regionMatches on `char[]` and `int[]` (and on two `String`s, whose comparison it delegates to String.regionMatches). */
  method RegionMatches(ignoreCase: bool, input: Option<seq<int>>, inputOffset: int,
                       target: Option<seq<int>>, targetOffset: int, count: int) returns (r: bool)
    ensures r <==> Matches(ignoreCase, input, inputOffset, target, targetOffset, count)
  {
    if input.None? || target.None? {
      return false;
    }
    var a, b := input.value, target.value;
    if !IsValidateByOffsetPair(inputOffset, count, |a|, targetOffset, count, |b|) {
      return false;
    }
    ghost var sa, sb := a[inputOffset..inputOffset + count], b[targetOffset..targetOffset + count];
    for i := 0 to count
      invariant forall k | 0 <= k < i :: SameValue(ignoreCase, sa[k], sb[k])
    {
      var x, y := a[inputOffset + i], b[targetOffset + i];
      assert x == sa[i] && y == sb[i];
      if ignoreCase {
        if ToLower(x) != ToLower(y) {
          return false;
        }
      } else {
        if x != y {
          return false;
        }
      }
    }
    return true;
  }

  /**
   * Because the count is shared, the offset validator also demands that the
   * target region start no later than the input region: unlike
   * String.regionMatches, a match never has targetOffset > inputOffset.
   */
  lemma {:induction false} MatchesNeedsOffsetOrder(ignoreCase: bool, input: Option<seq<int>>, inputOffset: int,
                                target: Option<seq<int>>, targetOffset: int, count: int)
    requires Matches(ignoreCase, input, inputOffset, target, targetOffset, count)
    ensures targetOffset <= inputOffset
  {
  }

  /** isStartsWith(ignoreCase, input, start, end, target) */
  function IsStartsWith(ignoreCase: bool, input: Option<seq<int>>, startInclusive: int, endExclusive: int,
                        target: Option<seq<int>>): (r: bool)
    ensures r <==> (input.Some? && target.Some? && 0 < |target.value|
                && 0 <= startInclusive && startInclusive + |target.value| <= endExclusive <= |input.value|
                && SameValues(ignoreCase, input.value[startInclusive..startInclusive + |target.value|], target.value))
  {
    if input.None? || target.None? then false
    else if !IsValidateByIndexPair(startInclusive, endExclusive, |input.value|, 0, |target.value|, |target.value|) then false
    else Matches(ignoreCase, input, startInclusive, target, 0, |target.value|)
  }

  /** isEndsWith(ignoreCase, input, start, end, target) */
  function IsEndsWith(ignoreCase: bool, input: Option<seq<int>>, startInclusive: int, endExclusive: int,
                      target: Option<seq<int>>): (r: bool)
    ensures r <==> (input.Some? && target.Some? && 0 < |target.value|
                && 0 <= startInclusive && startInclusive + |target.value| <= endExclusive <= |input.value|
                && SameValues(ignoreCase, input.value[endExclusive - |target.value|..endExclusive], target.value))
  {
    if input.None? || target.None? then false
    else if !IsValidateByIndexPair(startInclusive, endExclusive, |input.value|, 0, |target.value|, |target.value|) then false
    else Matches(ignoreCase, input, endExclusive - |target.value|, target, 0, |target.value|)
  }

  /** Case-sensitively, a range starts with the target exactly when its first |target| elements are the target. */
  lemma {:induction false} StartsWithIsPrefix(input: seq<int>, startInclusive: int, endExclusive: int, target: seq<int>)
    requires 0 < |target| && 0 <= startInclusive && startInclusive + |target| <= endExclusive <= |input|
    ensures IsStartsWith(false, Some(input), startInclusive, endExclusive, Some(target))
        <==> input[startInclusive..startInclusive + |target|] == target
  {
    assert target[0..|target|] == target;
    SameValuesIsEquality(input[startInclusive..startInclusive + |target|], target);
  }

  /** Case-sensitively, a range ends with the target exactly when its last |target| elements are the target. */
  lemma {:induction false} EndsWithIsSuffix(input: seq<int>, startInclusive: int, endExclusive: int, target: seq<int>)
    requires 0 < |target| && 0 <= startInclusive && startInclusive + |target| <= endExclusive <= |input|
    ensures IsEndsWith(false, Some(input), startInclusive, endExclusive, Some(target))
        <==> input[endExclusive - |target|..endExclusive] == target
  {
    assert target[0..|target|] == target;
    SameValuesIsEquality(input[endExclusive - |target|..endExclusive], target);
  }

  /** An empty target, a null argument or an invalid range never matches. */
  lemma {:induction false} StartsEndsWithRejects(ignoreCase: bool, input: Option<seq<int>>, startInclusive: int, endExclusive: int,
                              target: Option<seq<int>>)
    requires input.None? || target.None? || |target.value| == 0 || |input.value| == 0
          || !IsValidateByIndex(startInclusive, endExclusive, |input.value|)
    ensures !IsStartsWith(ignoreCase, input, startInclusive, endExclusive, target)
    ensures !IsEndsWith(ignoreCase, input, startInclusive, endExclusive, target)
  {
  }

  /**
   * isSurround(ignoreCase, input, start, end, prefix, suffix) as the source
   * writes it: the length guard looks at the whole input, not at the range.
   */
  function IsSurroundAsWritten(ignoreCase: bool, input: Option<seq<int>>, startInclusive: int, endExclusive: int,
                               prefix: Option<seq<int>>, suffix: Option<seq<int>>): (r: bool)
    ensures r <==> (input.Some? && prefix.Some? && suffix.Some?
                && |prefix.value| + |suffix.value| <= |input.value|
                && IsStartsWith(ignoreCase, input, startInclusive, endExclusive, prefix)
                && IsEndsWith(ignoreCase, input, startInclusive, endExclusive, suffix))
  {
    if input.None? || prefix.None? || suffix.None? then false
    else if |input.value| < |prefix.value| + |suffix.value| then false
    else (IsStartsWith(ignoreCase, input, startInclusive, endExclusive, prefix)
          && IsEndsWith(ignoreCase, input, startInclusive, endExclusive, suffix))
  }

  /** In "abaXX" the range [0, 3) is "aba": it both starts with "ab" and ends with "ba", yet cannot hold the two apart. */
  lemma {:induction false} SurroundAsWrittenOverlaps()
    ensures var input := Some([97, 98, 97, 88, 88]);
      IsSurroundAsWritten(false, input, 0, 3, Some([97, 98]), Some([98, 97]))
      && !IsSurround(false, input, 0, 3, Some([97, 98]), Some([98, 97]))
  {
    var input := [97, 98, 97, 88, 88];
    assert input[0..2] == [97, 98];
    assert input[1..3] == [98, 97];
    StartsWithIsPrefix(input, 0, 3, [97, 98]);
    EndsWithIsSuffix(input, 0, 3, [98, 97]);
  }

  /**
   * isSurround with the length guard on the range: the range starts with the
   * prefix, ends with the suffix, and the two do not overlap.
   */
  function IsSurround(ignoreCase: bool, input: Option<seq<int>>, startInclusive: int, endExclusive: int,
                      prefix: Option<seq<int>>, suffix: Option<seq<int>>): (r: bool)
    ensures r <==> (input.Some? && prefix.Some? && suffix.Some?
                && 0 < |prefix.value| && 0 < |suffix.value|
                && 0 <= startInclusive && startInclusive + |prefix.value| <= endExclusive - |suffix.value|
                && endExclusive <= |input.value|
                && IsStartsWith(ignoreCase, input, startInclusive, endExclusive, prefix)
                && IsEndsWith(ignoreCase, input, startInclusive, endExclusive, suffix))
  {
    if input.None? || prefix.None? || suffix.None? then false
    else if endExclusive - startInclusive < |prefix.value| + |suffix.value| then false
    else (IsStartsWith(ignoreCase, input, startInclusive, endExclusive, prefix)
          && IsEndsWith(ignoreCase, input, startInclusive, endExclusive, suffix))
  }

  /**
   * isSurround(ignoreCase, input, prefix, suffix): over the whole input the
   * range is the input, so the source's guard and the corrected one agree.
   */
  function IsSurroundWhole(ignoreCase: bool, input: Option<seq<int>>, prefix: Option<seq<int>>, suffix: Option<seq<int>>): (r: bool)
    ensures input.Some? ==>
      r == IsSurroundAsWritten(ignoreCase, input, 0, |input.value|, prefix, suffix)
  {
    input.Some? && IsSurround(ignoreCase, input, 0, |input.value|, prefix, suffix)
  }

  /** isStartsWith(ignoreCase, input, target): the whole input as the range. */
  function IsStartsWithWhole(ignoreCase: bool, input: Option<seq<int>>, target: Option<seq<int>>): (r: bool)
    ensures !ignoreCase ==> (r <==> (input.Some? && target.Some? && 0 < |target.value| <= |input.value|
                                   && input.value[..|target.value|] == target.value))
  {
    if input.Some? && target.Some? && 0 < |target.value| <= |input.value| then
      StartsWithIsPrefix(input.value, 0, |input.value|, target.value);
      IsStartsWith(ignoreCase, input, 0, |input.value|, target)
    else
      input.Some? && IsStartsWith(ignoreCase, input, 0, |input.value|, target)
  }

  /** isEndsWith(ignoreCase, input, target): the whole input as the range. */
  function IsEndsWithWhole(ignoreCase: bool, input: Option<seq<int>>, target: Option<seq<int>>): (r: bool)
    ensures !ignoreCase ==> (r <==> (input.Some? && target.Some? && 0 < |target.value| <= |input.value|
                                   && input.value[|input.value| - |target.value|..] == target.value))
  {
    if input.Some? && target.Some? && 0 < |target.value| <= |input.value| then
      EndsWithIsSuffix(input.value, 0, |input.value|, target.value);
      IsEndsWith(ignoreCase, input, 0, |input.value|, target)
    else
      input.Some? && IsEndsWith(ignoreCase, input, 0, |input.value|, target)
  }
}
