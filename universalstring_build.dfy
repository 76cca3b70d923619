// The deterministic text builders of UniversalString: brief, reverse,
// substring, clean by predicate, join, repeat, desensitize and the styled
// number characters. Each StringBuilder loop of the library is a method
// proved equal to a specification function; the properties the library
// promises are lemmas about those functions.
module UniversalStringBuild {
  import opened JavaText
  import opened IndexBounds
  import UniversalString
  import UniversalStringTrim

  /** A nullable text appended only when it is not null. */
  function OrEmpty(x: Option<JString>): JString
  {
    if x.Some? then x.value else []
  }

  /** Java string concatenation of a nullable reference: null becomes the four letters "null". */
  function JavaString(x: Option<JString>): JString
  {
    if x.Some? then x.value else Lit("null")
  }

  /** `x` appended `k` times. */
  function Times(x: JString, k: nat): JString
  {
    if k == 0 then [] else Times(x, k - 1) + x
  }

  /** Of a one-unit text, `k` copies are that unit repeated. */
  lemma {:induction false} TimesOfUnit(x: JString, k: nat)
    requires |x| == 1
    ensures Times(x, k) == Repeat(x[0], k)
  {
    if k > 0 {
      TimesOfUnit(x, k - 1);
    }
  }

  /** The sequence read backwards. */
  function Rev(xs: seq<int>): (r: seq<int>)
    ensures |r| == |xs|
    ensures forall k | 0 <= k < |xs| :: r[k] == xs[|xs| - 1 - k]
  {
    if xs == [] then [] else Rev(xs[1..]) + [xs[0]]
  }

  lemma {:induction false} RevAppend(a: seq<int>, b: seq<int>)
    ensures Rev(a + b) == Rev(b) + Rev(a)
  {
    assert Rev(a + b) == Rev(b) + Rev(a);
  }

  /** Reading a sequence backwards twice gives it back. */
  lemma {:induction false} RevRev(xs: seq<int>)
    ensures Rev(Rev(xs)) == xs
  {
    assert Rev(Rev(xs)) == xs;
  }

  // ------------------------------------------------------------------ brief

  /**
   * brief(input, briefChar, briefLength, leadingLength, trailingLength): the
   * first leadingLength units, briefLength copies of briefChar, then the
   * last trailingLength units; the input itself when the kept ends already
   * cover it. The sum leadingLength + trailingLength is taken exactly here.
   */
  function Briefed(input: Option<JString>, briefChar: CodeUnit, briefLength: int, leadingLength: int, trailingLength: int): (r: Result<JString>)
    ensures input.None? ==> r == Ok([])
    ensures input.Some? ==> (r.Err? <==> briefLength < 0 || leadingLength < 0 || trailingLength < 0)
    ensures r.Err? ==> r.error == IllegalArgument
    ensures r.Ok? && input.Some? && leadingLength + trailingLength >= |input.value| ==> r.value == input.value
    ensures r.Ok? && input.Some? && leadingLength + trailingLength < |input.value| ==>
      (|r.value| == leadingLength + briefLength + trailingLength
       && r.value[..leadingLength] == input.value[..leadingLength]
       && (forall k | leadingLength <= k < leadingLength + briefLength :: r.value[k] == briefChar)
       && r.value[leadingLength + briefLength..] == input.value[|input.value| - trailingLength..])
  {
    if input.None? then Ok([])
    else if briefLength < 0 || leadingLength < 0 || trailingLength < 0 then Err(IllegalArgument)
    else
      var s := input.value;
      if leadingLength + trailingLength >= |s| then Ok(s)
      else
        var r := s[..leadingLength] + Repeat(briefChar, briefLength) + s[|s| - trailingLength..];
        assert r[..leadingLength] == s[..leadingLength];
        assert r[leadingLength + briefLength..] == s[|s| - trailingLength..];
        Ok(r)
  }

  /** brief as the library writes it: the StringBuilder loop appending briefLength copies. */
  method Brief(input: Option<JString>, briefChar: CodeUnit, briefLength: int, leadingLength: int, trailingLength: int) returns (r: Result<JString>)
    ensures r == Briefed(input, briefChar, briefLength, leadingLength, trailingLength)
  {
    if input.None? {
      return Ok([]);
    }
    if briefLength < 0 || leadingLength < 0 || trailingLength < 0 {
      return Err(IllegalArgument);
    }
    var s := input.value;
    var inputLength := |s|;
    if leadingLength + trailingLength >= inputLength {
      return Ok(s);
    }
    var sb: JString := [];
    if leadingLength > 0 {
      sb := sb + s[..leadingLength];
    }
    assert sb == s[..leadingLength] + Repeat(briefChar, 0);
    for i := 0 to briefLength
      invariant sb == s[..leadingLength] + Repeat(briefChar, i)
    {
      assert Repeat(briefChar, i) + [briefChar] == Repeat(briefChar, i + 1);
      sb := sb + [briefChar];
    }
    if trailingLength > 0 {
      sb := sb + s[inputLength - trailingLength..];
    } else {
      assert s[inputLength - trailingLength..] == [];
    }
    assert sb == s[..leadingLength] + Repeat(briefChar, briefLength) + s[inputLength - trailingLength..];
    return Ok(sb);
  }

  /**
   * brief with Java int arithmetic: the sum leadingLength + trailingLength
   * and the StringBuilder capacity leadingLength + briefLength +
   * trailingLength wrap around, a negative capacity throws
   * NegativeArraySizeException, and appending a range beyond the input
   * throws IndexOutOfBoundsException.
   */
  function BriefAsWritten(input: Option<JString>, briefChar: CodeUnit, briefLength: int, leadingLength: int, trailingLength: int): (r: Result<JString>)
    requires IsInt32(briefLength) && IsInt32(leadingLength) && IsInt32(trailingLength)
    ensures input.Some? && 0 <= briefLength && 0 <= leadingLength && 0 <= trailingLength
            && leadingLength + briefLength + trailingLength <= IntMax
            ==> r == Briefed(input, briefChar, briefLength, leadingLength, trailingLength)
  {
    if input.None? then Ok([])
    else if briefLength < 0 || leadingLength < 0 || trailingLength < 0 then Err(IllegalArgument)
    else
      var s := input.value;
      if Int32(leadingLength + trailingLength) >= |s| then Ok(s)
      else if Int32(leadingLength + briefLength + trailingLength) < 0 then Err(NegativeArraySize)
      else if leadingLength > |s| || trailingLength > |s| then Err(IndexOutOfBounds)
      else Ok(s[..leadingLength] + Repeat(briefChar, briefLength) + s[|s| - trailingLength..])
  }

  /** Keeping IntMax leading units and one trailing unit of "Hello" overflows the guard: an exception instead of "Hello". */
  lemma {:induction false} BriefAsWrittenOverflows()
    ensures BriefAsWritten(Some(Lit("Hello")), '*' as int, 0, IntMax, 1) == Err(NegativeArraySize)
    ensures Briefed(Some(Lit("Hello")), '*' as int, 0, IntMax, 1) == Ok(Lit("Hello"))
  {
    assert |Lit("Hello")| == 5;
  }

  // ---------------------------------------------------------------- reverse

  /**
   * The backward loop of reverse as written: codePointAt at i, then a step
   * back by that code point's width; at the low half of a pair it reads the
   * low surrogate alone, and at the high half it reads the whole pair.
   */
  function BackwardAsWritten(s: JString, i: int): (r: JString)
    requires -2 <= i < |s|
    decreases i + 2
  {
    if i < 0 then []
    else
      var cp := CodePointAt(s, i);
      Encode(cp) + BackwardAsWritten(s, i - CharCount(cp))
  }

  /** reverse(input) as written. */
  function ReverseAsWritten(input: Option<JString>): (r: JString)
    ensures UniversalString.IsEmpty(input) ==> r == []
  {
    if input.None? || |input.value| == 0 then [] else BackwardAsWritten(input.value, |input.value| - 1)
  }

  /** "a" followed by U+1F600: the loop skips the "a" and emits a stray low surrogate instead. */
  lemma {:induction false} ReverseAsWrittenLosesUnit()
    ensures ReverseAsWritten(Some([97, 0xD83D, 0xDE00])) == [0xDE00, 0xD83D, 0xDE00]
    ensures ReverseCodePoints([97, 0xD83D, 0xDE00]) == [0xD83D, 0xDE00, 97]
  {
    var s: JString := [97, 0xD83D, 0xDE00];
    assert !IsPairAt(s, 2) && IsPairAt(s, 1);
    assert CodePointAt(s, 1) == 0x1F600;
    assert BackwardAsWritten(s, 2) == [0xDE00] + BackwardAsWritten(s, 1);
    assert BackwardAsWritten(s, 1) == Encode(0x1F600) + BackwardAsWritten(s, -1);
    assert !IsPairAt(s, 0);
    assert CodePoints(s[1..]) == [0x1F600] + CodePoints(s[3..]);
    assert CodePoints(s) == [97, 0x1F600];
    assert Rev(CodePoints(s)) == [0x1F600, 97];
    assert EncodeAll([0x1F600, 97]) == Encode(0x1F600) + EncodeAll([97]);
  }

  /** On text without surrogates the as-written loop does reverse the units. */
  lemma {:induction false} BackwardAsWrittenPlain(s: JString, i: int)
    requires UniversalStringTrim.NoSurrogates(s)
    requires -1 <= i < |s|
    ensures BackwardAsWritten(s, i) == Rev(s[..i + 1])
    decreases i + 1
  {
    if i >= 0 {
      assert !IsPairAt(s, i);
      BackwardAsWrittenPlain(s, i - 1);
      assert s[..i + 1] == s[..i] + [s[i]];
      RevAppend(s[..i], [s[i]]);
    }
  }

  /** Character.codePointBefore(CharSequence, int) */
  function CodePointBefore(s: JString, i: int): (cp: int)
    requires 0 < i <= |s|
    ensures IsCodePoint(cp)
    ensures CharCount(cp) <= i
  {
    if i >= 2 && IsPairAt(s, i - 2) then CodePointAt(s, i - 2) else s[i - 1]
  }

  /** The reverse the library means: the code points of the text in the opposite order. */
  function ReverseCodePoints(s: JString): JString
  {
    EncodeAll(Rev(CodePoints(s)))
  }

  /** Decoding a concatenation decodes each part, unless a pair straddles the seam. */
  lemma {:induction false} CodePointsAppend(a: JString, b: JString)
    requires !(|a| > 0 && |b| > 0 && IsHighSurrogate(a[|a| - 1]) && IsLowSurrogate(b[0]))
    ensures CodePoints(a + b) == CodePoints(a) + CodePoints(b)
    decreases |a|, 1
  {
    if a == [] {
      assert a + b == b;
    } else if IsPairAt(a, 0) {
      CodePointsAppendPair(a, b);
    } else {
      CodePointsAppendUnit(a, b);
    }
  }

  lemma {:induction false} CodePointsAppendPair(a: JString, b: JString)
    requires IsPairAt(a, 0)
    requires !(|b| > 0 && IsHighSurrogate(a[|a| - 1]) && IsLowSurrogate(b[0]))
    ensures CodePoints(a + b) == CodePoints(a) + CodePoints(b)
    decreases |a|, 0
  {
    var ab, cp := a + b, CodePointAt(a, 0);
    assert ab[0] == a[0] && ab[1] == a[1];
    assert IsPairAt(ab, 0) && CodePointAt(ab, 0) == cp;
    assert ab[2..] == a[2..] + b;
    CodePointsAppend(a[2..], b);
    assert CodePoints(ab) == [cp] + CodePoints(a[2..] + b);
    assert CodePoints(a) == [cp] + CodePoints(a[2..]);
  }

  lemma {:induction false} CodePointsAppendUnit(a: JString, b: JString)
    requires a != [] && !IsPairAt(a, 0)
    requires !(|b| > 0 && IsHighSurrogate(a[|a| - 1]) && IsLowSurrogate(b[0]))
    ensures CodePoints(a + b) == CodePoints(a) + CodePoints(b)
    decreases |a|, 0
  {
    var ab := a + b;
    assert ab[0] == a[0];
    assert !IsPairAt(ab, 0);
    assert ab[1..] == a[1..] + b;
    CodePointsAppend(a[1..], b);
    assert CodePoints(ab) == [a[0] as int] + CodePoints(a[1..] + b);
    assert CodePoints(a) == [a[0] as int] + CodePoints(a[1..]);
  }

  /** Stepping back by codePointBefore peels the last code point off the decoded prefix. */
  lemma {:induction false} CodePointsBeforeStep(s: JString, i: int)
    requires 0 < i <= |s|
    ensures CodePoints(s[..i]) == CodePoints(s[..i - CharCount(CodePointBefore(s, i))]) + [CodePointBefore(s, i)]
  {
    if i >= 2 && IsPairAt(s, i - 2) {
      var b := s[i - 2..i];
      assert s[..i] == s[..i - 2] + b;
      CodePointsAppend(s[..i - 2], b);
      assert IsPairAt(b, 0) && b[2..] == [];
    } else {
      var b := [s[i - 1]];
      assert s[..i] == s[..i - 1] + b;
      CodePointsAppend(s[..i - 1], b);
      assert !IsPairAt(b, 0) && b[1..] == [];
    }
  }

  /** reverse with the backward loop reading codePointBefore: every code point, pairs kept whole. */
  method Reverse(input: Option<JString>) returns (r: JString)
    ensures r == ReverseCodePoints(OrEmpty(input))
  {
    if input.None? || |input.value| == 0 {
      return [];
    }
    r := ReverseUnits(input.value);
  }

  /** The backward loop of reverse over a non-null text. */
  method ReverseUnits(s: JString) returns (r: JString)
    ensures r == EncodeAll(Rev(CodePoints(s)))
  {
    var i := |s|;
    ghost var done: seq<int> := [];
    r := [];
    assert s[..i] == s;
    while i > 0
      invariant 0 <= i <= |s|
      invariant CodePoints(s) == CodePoints(s[..i]) + done
      invariant forall k | 0 <= k < |done| :: IsCodePoint(done[k])
      invariant r == EncodeAll(Rev(done))
      decreases i
    {
      var codePoint := CodePointBefore(s, i);
      ReverseStep(s, i, done, r);
      r := r + Encode(codePoint);
      i := i - CharCount(codePoint);
      done := [codePoint] + done;
    }
    assert s[..0] == [];
    assert [] + done == done;
  }

  /** One turn of the backward loop: the code point before `i` moves from the undecoded prefix to the front of `done`. */
  lemma {:induction false} ReverseStep(s: JString, i: int, done: seq<int>, r: JString)
    requires 0 < i <= |s|
    requires CodePoints(s) == CodePoints(s[..i]) + done
    requires forall k | 0 <= k < |done| :: IsCodePoint(done[k])
    requires r == EncodeAll(Rev(done))
    ensures var cp := CodePointBefore(s, i);
      var next := i - CharCount(cp);
      && 0 <= next < i
      && CodePoints(s) == CodePoints(s[..next]) + ([cp] + done)
      && (forall k | 0 <= k < |[cp] + done| :: IsCodePoint(([cp] + done)[k]))
      && r + Encode(cp) == EncodeAll(Rev([cp] + done))
  {
    var cp := CodePointBefore(s, i);
    var next := i - CharCount(cp);
    CodePointsBeforeStep(s, i);
    assert CodePoints(s) == CodePoints(s[..next]) + ([cp] + done);
    RevAppend([cp], done);
    EncodeAllAppend(Rev(done), [cp]);
    assert EncodeAll([cp]) == Encode(cp);
  }

  /** Reversing keeps every unit: the result is exactly as long as the input. */
  lemma {:induction false} EncodeAllRevLength(cps: seq<int>)
    requires forall k | 0 <= k < |cps| :: IsCodePoint(cps[k])
    ensures |EncodeAll(Rev(cps))| == |EncodeAll(cps)|
  {
    if cps != [] {
      EncodeAllRevLength(cps[1..]);
      EncodeAllAppend(Rev(cps[1..]), [cps[0]]);
      assert EncodeAll([cps[0]]) == Encode(cps[0]);
    }
  }

  lemma {:induction false} ReverseKeepsLength(s: JString)
    ensures |ReverseCodePoints(s)| == |s|
  {
    EncodeAllRevLength(CodePoints(s));
    CodePointsRoundTrip(s);
  }

  /** Without surrogates each unit is its own code point. */
  lemma {:induction false} PlainCodePoints(s: JString)
    requires UniversalStringTrim.NoSurrogates(s)
    ensures CodePoints(s) == s
    ensures EncodeAll(s) == s
  {
    if s != [] {
      assert !IsPairAt(s, 0);
      assert UniversalStringTrim.NoSurrogates(s[1..]);
      PlainCodePoints(s[1..]);
    }
  }

  /** On text without surrogates reverse is the plain reversal of the units, and the as-written loop agrees. */
  lemma {:induction false} ReversePlain(s: JString)
    requires UniversalStringTrim.NoSurrogates(s)
    ensures ReverseCodePoints(s) == Rev(s)
    ensures ReverseAsWritten(Some(s)) == Rev(s)
  {
    PlainCodePoints(s);
    PlainCodePoints(Rev(s));
    BackwardAsWrittenPlain(s, |s| - 1);
    assert s[..|s|] == s;
  }

  /** Reversing plain text twice gives it back. */
  lemma {:induction false} ReverseTwice(s: JString)
    requires UniversalStringTrim.NoSurrogates(s)
    ensures ReverseCodePoints(ReverseCodePoints(s)) == s
  {
    ReversePlain(s);
    assert UniversalStringTrim.NoSurrogates(Rev(s));
    ReversePlain(Rev(s));
    RevRev(s);
  }

  // -------------------------------------------------------------- substring

  /** substring(input, start, end): start clamped up to 0, end clamped down to the length. */
  function Substring(input: Option<JString>, start: int, end: int): (r: JString)
    ensures input.None? || start >= end ==> r == []
    ensures input.Some? && 0 <= start <= end <= |input.value| ==> r == input.value[start..end]
    ensures input.Some? && 0 <= start && end >= |input.value| ==> r == input.value[Min(start, |input.value|)..]
    ensures input.Some? && start <= 0 && 0 <= end ==> r == input.value[..Min(end, |input.value|)]
  {
    if input.None? then []
    else
      var s := input.value;
      var n := |s|;
      if n == 0 then []
      else
        var lo := if start < 0 then 0 else start;
        var hi := if end > n then n else end;
        if lo >= hi then [] else s[lo..hi]
  }

  // ------------------------------------------------------ clean(predicate)

  /** The code points the remove condition does not hold for, in order. */
  function Filtered(cps: seq<int>, remove: int -> bool): (r: seq<int>)
    ensures |r| <= |cps|
    ensures forall k | 0 <= k < |r| :: !remove(r[k])
    ensures (forall k | 0 <= k < |cps| :: IsCodePoint(cps[k])) ==> forall k | 0 <= k < |r| :: IsCodePoint(r[k])
  {
    if cps == [] then []
    else
      var last := cps[|cps| - 1];
      Filtered(cps[..|cps| - 1], remove) + (if remove(last) then [] else [last])
  }

  /** clean(input, removeCondition) as a value: the unremoved code points, encoded again. */
  function Cleaned(input: Option<JString>, removeCondition: Option<int -> bool>): JString
  {
    if UniversalString.IsEmpty(input) then []
    else if removeCondition.None? then input.value
    else EncodeAll(Filtered(CodePoints(input.value), removeCondition.value))
  }

  lemma {:induction false} MovePiece(a: JString, x: JString, rest: JString)
    ensures a + (x + rest) == (a + x) + rest
  {
  }

  /** clean(input, removeCondition): the code point loop appending what the condition does not remove. */
  method Clean(input: Option<JString>, removeCondition: Option<int -> bool>) returns (r: JString)
    ensures r == Cleaned(input, removeCondition)
  {
    if input.None? || |input.value| == 0 {
      return [];
    }
    if removeCondition.None? {
      return input.value;
    }
    r := CleanUnits(input.value, removeCondition.value);
  }

  /** The code point loop of clean over a non-null input. */
  method CleanUnits(s: JString, remove: int -> bool) returns (r: JString)
    ensures r == EncodeAll(Filtered(CodePoints(s), remove))
  {
    ghost var done: seq<int> := [];
    r := [];
    var i := 0;
    assert s[0..] == s;
    while i < |s|
      invariant 0 <= i <= |s|
      invariant CodePoints(s) == done + CodePoints(s[i..])
      invariant forall k | 0 <= k < |done| :: IsCodePoint(done[k])
      invariant r == EncodeAll(Filtered(done, remove))
      decreases |s| - i
    {
      var codePoint := CodePointAt(s, i);
      i, r := CleanPass(s, i, r, remove, done);
      done := done + [codePoint];
    }
    assert s[i..] == [];
    assert done == CodePoints(s);
  }

  /** One turn of clean's loop: the code point at `i` is appended unless the condition removes it. */
  method CleanPass(s: JString, i: nat, r: JString, remove: int -> bool, ghost done: seq<int>) returns (i': nat, r': JString)
    requires i < |s|
    requires CodePoints(s) == done + CodePoints(s[i..])
    requires forall k | 0 <= k < |done| :: IsCodePoint(done[k])
    requires r == EncodeAll(Filtered(done, remove))
    ensures var next := done + [CodePointAt(s, i)];
      && i < i' <= |s|
      && CodePoints(s) == next + CodePoints(s[i'..])
      && (forall k | 0 <= k < |next| :: IsCodePoint(next[k]))
      && r' == EncodeAll(Filtered(next, remove))
  {
    var codePoint := CodePointAt(s, i);
    CleanStep(s, i, done);
    FilteredSnoc(done, codePoint, remove);
    r' := r;
    if !remove(codePoint) {
      r' := r + Encode(codePoint);
    }
    i' := i + CharCount(codePoint);
  }

  /** One turn of clean's loop moves the next code point of the input to `done`. */
  lemma {:induction false} CleanStep(s: JString, i: nat, done: seq<int>)
    requires i < |s|
    requires CodePoints(s) == done + CodePoints(s[i..])
    requires forall k | 0 <= k < |done| :: IsCodePoint(done[k])
    ensures var cp := CodePointAt(s, i);
      && i + CharCount(cp) <= |s|
      && CodePoints(s) == done + [cp] + CodePoints(s[i + CharCount(cp)..])
      && (forall k | 0 <= k < |done| + 1 :: IsCodePoint((done + [cp])[k]))
  {
    var codePoint := CodePointAt(s, i);
    UniversalStringTrim.CodePointsStep(s, i);
    var rest := CodePoints(s[i + CharCount(codePoint)..]);
    assert CodePoints(s) == done + ([codePoint] + rest);
    UniversalStringTrim.MoveHead(done, [codePoint], rest);
  }

  /** The code point is kept after what was kept so far, unless the condition removes it. */
  lemma {:induction false} FilteredSnoc(done: seq<int>, cp: int, remove: int -> bool)
    requires forall k | 0 <= k < |done| :: IsCodePoint(done[k])
    requires IsCodePoint(cp)
    ensures EncodeAll(Filtered(done + [cp], remove))
      == EncodeAll(Filtered(done, remove)) + (if remove(cp) then [] else Encode(cp))
  {
    var next := done + [cp];
    assert next[..|done|] == done && next[|done|] == cp;
    var kept := Filtered(done, remove);
    if remove(cp) {
      assert Filtered(next, remove) == kept + [];
      assert kept + [] == kept;
    } else {
      assert Filtered(next, remove) == kept + [cp];
      EncodeAllAppend(kept, [cp]);
      assert EncodeAll([cp]) == Encode(cp) + [];
    }
  }

  /** A condition that holds for no code point of the input removes nothing. */
  lemma {:induction false} FilteredNone(cps: seq<int>, remove: int -> bool)
    requires forall k | 0 <= k < |cps| :: !remove(cps[k])
    ensures Filtered(cps, remove) == cps
  {
    if cps != [] {
      FilteredNone(cps[..|cps| - 1], remove);
    }
  }

  /** A condition that holds for every code point of the input removes them all. */
  lemma {:induction false} FilteredAll(cps: seq<int>, remove: int -> bool)
    requires forall k | 0 <= k < |cps| :: remove(cps[k])
    ensures Filtered(cps, remove) == []
  {
    if cps != [] {
      FilteredAll(cps[..|cps| - 1], remove);
    }
  }

  lemma {:induction false} CleanRemovesNothing(s: JString, remove: int -> bool)
    requires forall k | 0 <= k < |CodePoints(s)| :: !remove(CodePoints(s)[k])
    ensures Cleaned(Some(s), Some(remove)) == s
  {
    FilteredNone(CodePoints(s), remove);
    CodePointsRoundTrip(s);
  }

  lemma {:induction false} CleanRemovesEverything(s: JString, remove: int -> bool)
    requires forall k | 0 <= k < |CodePoints(s)| :: remove(CodePoints(s)[k])
    ensures Cleaned(Some(s), Some(remove)) == []
  {
    FilteredAll(CodePoints(s), remove);
  }

  /** Filtering twice by the same condition filters once. */
  lemma {:induction false} FilteredTwice(cps: seq<int>, remove: int -> bool)
    ensures Filtered(Filtered(cps, remove), remove) == Filtered(cps, remove)
  {
    FilteredNone(Filtered(cps, remove), remove);
  }

  /** On plain text, cleaning twice cleans once. */
  lemma {:induction false} CleanTwice(s: JString, remove: int -> bool)
    requires UniversalStringTrim.NoSurrogates(s)
    ensures Cleaned(Some(Cleaned(Some(s), Some(remove))), Some(remove)) == Cleaned(Some(s), Some(remove))
  {
    PlainCodePoints(s);
    var f := Filtered(s, remove);
    FilteredSubset(s, remove);
    assert UniversalStringTrim.NoSurrogates(f);
    PlainCodePoints(f);
    FilteredTwice(s, remove);
  }

  /** Every kept code point is one of the input's. */
  lemma {:induction false} FilteredSubset(cps: seq<int>, remove: int -> bool)
    ensures forall k | 0 <= k < |Filtered(cps, remove)| :: Filtered(cps, remove)[k] in cps
  {
    if cps != [] {
      FilteredSubset(cps[..|cps| - 1], remove);
      var f := Filtered(cps[..|cps| - 1], remove);
      forall k | 0 <= k < |f|
        ensures f[k] in cps
      {
        assert f[k] in cps[..|cps| - 1];
      }
    }
  }

  // ------------------------------------------------------------------- join

  /** Every element between elementPrefix and elementSuffix, with the delimiter between neighbours. */
  function Items(delimiter: JString, elementPrefix: JString, elementSuffix: JString, elements: seq<JString>): JString
    decreases |elements|
  {
    if elements == [] then []
    else if |elements| == 1 then elementPrefix + elements[0] + elementSuffix
    else
      var k := |elements| - 1;
      Items(delimiter, elementPrefix, elementSuffix, elements[..k]) + delimiter + elementPrefix + elements[k] + elementSuffix
  }

  /** The elements of a list with null elements read as empty text. */
  function Present(elements: seq<Option<JString>>): (r: seq<JString>)
    ensures |r| == |elements|
    ensures forall k | 0 <= k < |elements| :: r[k] == OrEmpty(elements[k])
  {
    if elements == [] then [] else Present(elements[..|elements| - 1]) + [OrEmpty(elements[|elements| - 1])]
  }

  /**
   * join(delimiter, elementPrefix, elementSuffix, prefix, suffix, Iterable):
   * "" for a null list, otherwise prefix, the framed elements joined by the
   * delimiter, and suffix, where every null part is left out.
   */
  function Joined(delimiter: Option<JString>, elementPrefix: Option<JString>, elementSuffix: Option<JString>,
                  prefix: Option<JString>, suffix: Option<JString>, input: Option<seq<Option<JString>>>): JString
  {
    if input.None? then []
    else OrEmpty(prefix) + Items(OrEmpty(delimiter), OrEmpty(elementPrefix), OrEmpty(elementSuffix), Present(input.value)) + OrEmpty(suffix)
  }

  /** `sb.append(x)` guarded by `x != null`. */
  method AppendIfPresent(sb: JString, x: Option<JString>) returns (r: JString)
    ensures r == sb + OrEmpty(x)
  {
    if x.Some? {
      r := sb + x.value;
    } else {
      r := sb;
    }
  }

  /** One more element extends the joined items by the delimiter (but before the first) and that framed element. */
  lemma {:induction false} ItemsSnoc(d: JString, ep: JString, es: JString, xs: seq<JString>, x: JString)
    ensures Items(d, ep, es, xs + [x]) == Items(d, ep, es, xs) + (if xs == [] then [] else d) + ep + x + es
  {
    assert (xs + [x])[..|xs|] == xs;
    if xs == [] {
      assert xs + [x] == [x];
    }
  }

  /** One framed element: the delimiter unless it comes first, then the element between its prefix and suffix. */
  function Framed(first: bool, d: JString, ep: JString, x: JString, es: JString): JString
  {
    (if first then [] else d) + ep + x + es
  }

  /** The loop body shared by join and repeat: delimiter (unless first), prefix, element and suffix, each only when non-null. */
  method AppendElement(sb: JString, first: bool, delimiter: Option<JString>, elementPrefix: Option<JString>,
                       element: Option<JString>, elementSuffix: Option<JString>) returns (r: JString)
    ensures r == sb + Framed(first, OrEmpty(delimiter), OrEmpty(elementPrefix), OrEmpty(element), OrEmpty(elementSuffix))
  {
    ghost var c: JString := if first then [] else OrEmpty(delimiter);
    r := sb;
    if !first {
      r := AppendIfPresent(r, delimiter);
    } else {
      assert sb == sb + c;
    }
    r := AppendIfPresent(r, elementPrefix);
    r := AppendIfPresent(r, element);
    r := AppendIfPresent(r, elementSuffix);
    Reassociate(sb, c, OrEmpty(elementPrefix), OrEmpty(element), OrEmpty(elementSuffix));
  }

  /** Appending four pieces one by one to `p` appends them as one piece. */
  lemma {:induction false} Reassociate(p: JString, c: JString, d: JString, e: JString, f: JString)
    ensures p + c + d + e + f == p + (c + d + e + f)
  {
  }

  /** Appending a piece after `p + b` appends it after `b`. */
  lemma {:induction false} AppendAfter(p: JString, b: JString, c: JString)
    ensures p + b + c == p + (b + c)
  {
  }

  /** One turn of the join loop extends the joined items by one framed element. */
  lemma {:induction false} JoinStep(p: JString, before: JString, d: JString, ep: JString, es: JString, elements: seq<Option<JString>>, i: nat)
    requires i < |elements|
    requires before == p + Items(d, ep, es, Present(elements[..i]))
    ensures before + Framed(i == 0, d, ep, OrEmpty(elements[i]), es) == p + Items(d, ep, es, Present(elements[..i + 1]))
  {
    PresentSnoc(elements, i);
    ItemsSnoc(d, ep, es, Present(elements[..i]), OrEmpty(elements[i]));
    AppendAfter(p, Items(d, ep, es, Present(elements[..i])), Framed(i == 0, d, ep, OrEmpty(elements[i]), es));
  }

  /** One turn of the repeat loop extends the joined copies by one framed copy. */
  lemma {:induction false} RepeatStep(p: JString, before: JString, d: JString, ep: JString, es: JString, x: JString, i: nat)
    requires before == p + Items(d, ep, es, Repeat(x, i))
    ensures before + Framed(i == 0, d, ep, x, es) == p + Items(d, ep, es, Repeat(x, i + 1))
  {
    assert Repeat(x, i + 1) == Repeat(x, i) + [x];
    ItemsSnoc(d, ep, es, Repeat(x, i), x);
    AppendAfter(p, Items(d, ep, es, Repeat(x, i)), Framed(i == 0, d, ep, x, es));
  }

  lemma {:induction false} PresentSnoc(elements: seq<Option<JString>>, i: nat)
    requires i < |elements|
    ensures Present(elements[..i + 1]) == Present(elements[..i]) + [OrEmpty(elements[i])]
  {
    assert elements[..i + 1][..i] == elements[..i];
  }

  /** join over an Iterable: the loop with its `first` flag. */
  method Join(delimiter: Option<JString>, elementPrefix: Option<JString>, elementSuffix: Option<JString>,
              prefix: Option<JString>, suffix: Option<JString>, input: Option<seq<Option<JString>>>) returns (r: JString)
    ensures r == Joined(delimiter, elementPrefix, elementSuffix, prefix, suffix, input)
  {
    if input.None? {
      return [];
    }
    var elements := input.value;
    ghost var d, ep, es := OrEmpty(delimiter), OrEmpty(elementPrefix), OrEmpty(elementSuffix);
    var sb: JString := [];
    sb := AppendIfPresent(sb, prefix);
    assert sb == OrEmpty(prefix) + Items(d, ep, es, Present(elements[..0]));
    var first := true;
    for i := 0 to |elements|
      invariant first <==> i == 0
      invariant sb == OrEmpty(prefix) + Items(d, ep, es, Present(elements[..i]))
    {
      JoinStep(OrEmpty(prefix), sb, d, ep, es, elements, i);
      sb := AppendElement(sb, first, delimiter, elementPrefix, elements[i], elementSuffix);
      first := false;
    }
    sb := AppendIfPresent(sb, suffix);
    assert elements[..|elements|] == elements;
    return sb;
  }

  /** join over an array: a null array joins like an empty list, leaving prefix and suffix. */
  method JoinArray(delimiter: Option<JString>, elementPrefix: Option<JString>, elementSuffix: Option<JString>,
                   prefix: Option<JString>, suffix: Option<JString>, input: Option<seq<Option<JString>>>) returns (r: JString)
    ensures input.None? ==> r == OrEmpty(prefix) + OrEmpty(suffix)
    ensures input.Some? ==> r == Joined(delimiter, elementPrefix, elementSuffix, prefix, suffix, input)
  {
    r := Join(delimiter, elementPrefix, elementSuffix, prefix, suffix, if input.None? then Some([]) else input);
  }

  /** Joining two non-empty lists is joining each, with one delimiter between. */
  lemma {:induction false} ItemsAppend(d: JString, ep: JString, es: JString, xs: seq<JString>, ys: seq<JString>)
    requires xs != [] && ys != []
    ensures Items(d, ep, es, xs + ys) == Items(d, ep, es, xs) + d + Items(d, ep, es, ys)
    decreases |ys|
  {
    var k := |ys| - 1;
    var init, last := ys[..k], ys[k];
    assert ys == init + [last];
    assert xs + ys == (xs + init) + [last];
    ItemsSnoc(d, ep, es, xs + init, last);
    ItemsSnoc(d, ep, es, init, last);
    var fx := Items(d, ep, es, xs);
    var piece := ep + last + es;
    if k == 0 {
      assert init == [];
      assert xs + init == xs;
      assert Items(d, ep, es, ys) == piece;
      assert Items(d, ep, es, xs + ys) == fx + d + ep + last + es;
      AppendAfter(fx + d, ep, last);
      AppendAfter(fx + d, ep + last, es);
    } else {
      ItemsAppend(d, ep, es, xs, init);
      var fi := Items(d, ep, es, init);
      assert Items(d, ep, es, xs + ys) == fx + d + fi + d + ep + last + es;
      assert Items(d, ep, es, ys) == fi + d + ep + last + es;
      Reassociate(fx + d, fi, d, ep, last);
      AppendAfter(fx + d, fi + d + ep + last, es);
    }
  }

  /** With no delimiter and no frames, joining is concatenation. */
  lemma {:induction false} ItemsConcatenates(xs: seq<JString>)
    ensures Items([], [], [], xs) == Flat(xs)
    decreases |xs|
  {
    if |xs| > 1 {
      ItemsConcatenates(xs[..|xs| - 1]);
    }
  }

  /** The texts one after the other. */
  function Flat(xs: seq<JString>): JString
  {
    if xs == [] then [] else Flat(xs[..|xs| - 1]) + xs[|xs| - 1]
  }

  // ----------------------------------------------------------------- repeat

  /**
   * repeat(delimiter, elementPrefix, elementSuffix, prefix, suffix, input,
   * repeat) as written: for a null or empty input with a positive count it
   * returns `prefix + "" + suffix`, Java string concatenation that turns a
   * null prefix or suffix into the text "null".
   */
  function RepeatedAsWritten(delimiter: Option<JString>, elementPrefix: Option<JString>, elementSuffix: Option<JString>,
                             prefix: Option<JString>, suffix: Option<JString>, input: Option<JString>, count: int): JString
  {
    if count <= 0 then
      var emptyPrefix := UniversalString.IsEmpty(prefix);
      var emptySuffix := UniversalString.IsEmpty(suffix);
      if emptyPrefix && emptySuffix then []
      else if emptyPrefix then suffix.value
      else if emptySuffix then prefix.value
      else prefix.value + suffix.value
    else if UniversalString.IsEmpty(input) then JavaString(prefix) + JavaString(suffix)
    else OrEmpty(prefix) + Items(OrEmpty(delimiter), OrEmpty(elementPrefix), OrEmpty(elementSuffix), Repeat(input.value, count)) + OrEmpty(suffix)
  }

  /** A null input repeated three times between a null prefix and a null suffix yields "nullnull". */
  lemma {:induction false} RepeatAsWrittenPrintsNull()
    ensures RepeatedAsWritten(Some(Lit(",")), None, None, None, None, None, 3) == Lit("nullnull")
    ensures Repeated(Some(Lit(",")), None, None, None, None, None, 3) == []
  {
  }

  /** repeat as the library means it: a null prefix or suffix always counts as "". */
  function Repeated(delimiter: Option<JString>, elementPrefix: Option<JString>, elementSuffix: Option<JString>,
                    prefix: Option<JString>, suffix: Option<JString>, input: Option<JString>, count: int): (r: JString)
    ensures count <= 0 || UniversalString.IsEmpty(input) ==> r == OrEmpty(prefix) + OrEmpty(suffix)
  {
    if count <= 0 || UniversalString.IsEmpty(input) then OrEmpty(prefix) + OrEmpty(suffix)
    else OrEmpty(prefix) + Items(OrEmpty(delimiter), OrEmpty(elementPrefix), OrEmpty(elementSuffix), Repeat(input.value, count)) + OrEmpty(suffix)
  }

  /** The two forms differ only where the library prints "null": a null input repeated with a null prefix or suffix. */
  lemma {:induction false} RepeatedAsWrittenAgrees(delimiter: Option<JString>, elementPrefix: Option<JString>, elementSuffix: Option<JString>,
                                prefix: Option<JString>, suffix: Option<JString>, input: Option<JString>, count: int)
    requires (prefix.Some? && suffix.Some?) || count <= 0 || !UniversalString.IsEmpty(input)
    ensures Repeated(delimiter, elementPrefix, elementSuffix, prefix, suffix, input, count)
         == RepeatedAsWritten(delimiter, elementPrefix, elementSuffix, prefix, suffix, input, count)
  {
  }

  /** repeat: the loop appending the delimiter before every copy but the first. */
  method RepeatText(delimiter: Option<JString>, elementPrefix: Option<JString>, elementSuffix: Option<JString>,
                    prefix: Option<JString>, suffix: Option<JString>, input: Option<JString>, count: int) returns (r: JString)
    ensures r == Repeated(delimiter, elementPrefix, elementSuffix, prefix, suffix, input, count)
  {
    if count <= 0 || input.None? || |input.value| == 0 {
      return OrEmpty(prefix) + OrEmpty(suffix);
    }
    var x := input.value;
    var d, ep, es := OrEmpty(delimiter), OrEmpty(elementPrefix), OrEmpty(elementSuffix);
    var result := RepeatCopies(OrEmpty(prefix), d, ep, es, x, count);
    r := result + OrEmpty(suffix);
  }

  /** The loop of repeat: after `head`, `count` framed copies with the delimiter before every copy but the first. */
  method RepeatCopies(head: JString, d: JString, ep: JString, es: JString, x: JString, count: nat) returns (result: JString)
    ensures result == head + Items(d, ep, es, Repeat(x, count))
  {
    result := head;
    assert result == head + Items(d, ep, es, Repeat(x, 0));
    for i := 0 to count
      invariant result == head + Items(d, ep, es, Repeat(x, i))
    {
      RepeatStep(head, result, d, ep, es, x, i);
      result := AppendElement(result, i == 0, Some(d), Some(ep), Some(x), Some(es));
    }
  }

  /** Repeating a text is joining that many copies of it. */
  lemma {:induction false} RepeatIsJoin(delimiter: Option<JString>, elementPrefix: Option<JString>, elementSuffix: Option<JString>,
                     prefix: Option<JString>, suffix: Option<JString>, x: JString, count: nat)
    requires x != [] && count > 0
    ensures Repeated(delimiter, elementPrefix, elementSuffix, prefix, suffix, Some(x), count)
         == Joined(delimiter, elementPrefix, elementSuffix, prefix, suffix, Some(Repeat(Some(x), count)))
  {
    assert Present(Repeat(Some(x), count)) == Repeat(x, count);
  }

  /** Without delimiter and frames, count copies of x are x appended count times. */
  lemma {:induction false} RepeatIsTimes(x: JString, count: nat)
    ensures Repeated(None, None, None, None, None, Some(x), count) == Times(x, count)
  {
    if x != [] && count > 0 {
      ItemsConcatenates(Repeat(x, count));
      FlatRepeat(x, count);
    } else if x == [] {
      TimesEmpty(count);
    }
  }

  lemma {:induction false} FlatRepeat(x: JString, count: nat)
    ensures Flat(Repeat(x, count)) == Times(x, count)
  {
    if count > 0 {
      FlatRepeat(x, count - 1);
      assert Repeat(x, count)[..count - 1] == Repeat(x, count - 1);
    }
  }

  lemma {:induction false} TimesEmpty(count: nat)
    ensures Times([], count) == []
  {
    if count > 0 {
      TimesEmpty(count - 1);
    }
  }

  // ------------------------------------------------------------ desensitize

  /** The units the keep-loop of desensitize appends: code points read from `from` until `len` units are covered. */
  function KeptText(s: JString, from: int, len: int): JString
    requires 0 <= from <= from + len <= |s|
  {
    EncodeAll(UniversalStringTrim.CodePointsFrom(s, from, from + len))
  }

  /**
   * desensitize(input, mark, leading, center, trailing): the mask lengths
   * clamped to 0; the mark repeated once per input unit when the masks
   * cannot all fit; otherwise leading marks, the first ceil(r/2) kept units,
   * center marks, floor(r/2) kept units and trailing marks, with r the units
   * left over.
   */
  function Desensitized(input: Option<JString>, mark: Option<JString>, markLeadingLength: int, markCenterLength: int, markTailingLength: int): JString
  {
    if UniversalString.IsEmpty(input) || UniversalString.IsEmpty(mark) then []
    else
      var s, m := input.value, mark.value;
      var n := |s|;
      var l := if markLeadingLength < 0 then 0 else markLeadingLength;
      var c := if markCenterLength < 0 then 0 else markCenterLength;
      var t := if markTailingLength < 0 then 0 else markTailingLength;
      if l + c + t > n then Times(m, n)
      else
        var rest := n - l - c - t;
        var half := rest / 2;
        Masked(s, m, l, rest - half, c, half, t)
  }

  /** The five stretches of a masked text: marks, kept units, marks, kept units, marks. */
  function Masked(s: JString, m: JString, l: nat, startLength: nat, c: nat, endLength: nat, t: nat): JString
    requires l + startLength + c + endLength + t <= |s|
  {
    Times(m, l) + KeptText(s, l, startLength) + Times(m, c) + KeptText(s, l + startLength + c, endLength) + Times(m, t)
  }

  /** One keep-loop of desensitize: codePointAt at from + i, and one more step for the low half of a pair. */
  method AppendKept(s: JString, from: int, len: int) returns (piece: JString)
    requires 0 <= from <= from + len <= |s|
    ensures piece == KeptText(s, from, len)
  {
    piece := [];
    var i := 0;
    ghost var remaining := UniversalStringTrim.CodePointsFrom(s, from, from + len);
    while i < len
      invariant 0 <= i && from + i <= |s|
      invariant remaining == UniversalStringTrim.CodePointsFrom(s, from + i, from + len)
      invariant forall k | 0 <= k < |remaining| :: IsCodePoint(remaining[k])
      invariant piece + EncodeAll(remaining) == KeptText(s, from, len)
      decreases len - i
    {
      var codePoint := CodePointAt(s, from + i);
      ghost var rest := UniversalStringTrim.CodePointsFrom(s, from + i + CharCount(codePoint), from + len);
      assert remaining == [codePoint] + rest;
      assert EncodeAll(remaining) == Encode(codePoint) + EncodeAll(rest);
      MovePiece(piece, Encode(codePoint), EncodeAll(rest));
      piece := piece + Encode(codePoint);
      if CharCount(codePoint) != 1 {
        i := i + 1;
      }
      i := i + 1;
      remaining := rest;
    }
    assert remaining == [];
    assert piece + [] == piece;
  }

  /** desensitize with its five loops and the library's seven-way all-mask test. */
  method Desensitize(input: Option<JString>, mark: Option<JString>, markLeadingLength: int, markCenterLength: int, markTailingLength: int) returns (r: JString)
    ensures r == Desensitized(input, mark, markLeadingLength, markCenterLength, markTailingLength)
  {
    if input.None? || |input.value| == 0 || mark.None? || |mark.value| == 0 {
      return [];
    }
    var s, m := input.value, mark.value;
    var inputLength := |s|;
    var l := if markLeadingLength < 0 then 0 else markLeadingLength;
    var c := if markCenterLength < 0 then 0 else markCenterLength;
    var t := if markTailingLength < 0 then 0 else markTailingLength;
    var isAllMark := l > inputLength || c > inputLength || t > inputLength
      || l + t > inputLength || c + l > inputLength || c + t > inputLength
      || l + c + t > inputLength;
    if isAllMark {
      assert l + c + t > inputLength;
      r := RepeatText(None, None, None, None, None, mark, inputLength);
      RepeatIsTimes(m, inputLength);
      assert r == Times(m, inputLength);
      assert input == Some(s) && mark == Some(m);
      assert r == Desensitized(input, mark, markLeadingLength, markCenterLength, markTailingLength);
      return;
    }
    var length := inputLength - l - c - t;
    var startLength, endLength := length / 2 + length % 2, length / 2;
    assert startLength == length - endLength;
    r := MaskStretches(s, m, l, startLength, c, endLength, t);
    assert input == Some(s) && mark == Some(m);
  }

  /** The mark and keep loops of desensitize, with `count` the units passed so far. */
  method MaskStretches(s: JString, m: JString, l: nat, startLength: nat, c: nat, endLength: nat, t: nat) returns (r: JString)
    requires l + startLength + c + endLength + t <= |s|
    ensures r == Masked(s, m, l, startLength, c, endLength, t)
  {
    var sb: JString := [];
    var count := 0;
    sb := AppendMarks(sb, m, l);
    assert sb == Times(m, l);
    count := count + l;
    var kept := AppendKept(s, count, startLength);
    sb := sb + kept;
    count := count + startLength;
    sb := AppendMarks(sb, m, c);
    count := count + c;
    kept := AppendKept(s, count, endLength);
    sb := sb + kept;
    count := count + endLength;
    sb := AppendMarks(sb, m, t);
    r := sb;
  }

  /** One mark-loop of desensitize: the mark appended k times. */
  method AppendMarks(sb: JString, mark: JString, k: int) returns (r: JString)
    requires k >= 0
    ensures r == sb + Times(mark, k)
  {
    r := sb;
    for i := 0 to k
      invariant r == sb + Times(mark, i)
    {
      r := r + mark;
    }
  }

  /** On plain text the keep-loop copies exactly the units in range. */
  lemma {:induction false} KeptPlain(s: JString, from: int, end: int)
    requires UniversalStringTrim.NoSurrogates(s)
    requires 0 <= from <= end <= |s|
    ensures EncodeAll(UniversalStringTrim.CodePointsFrom(s, from, end)) == s[from..end]
    decreases end - from
  {
    if from < end {
      assert !IsPairAt(s, from);
      KeptPlain(s, from + 1, end);
      assert s[from..end] == [s[from]] + s[from + 1..end];
    }
  }

  /** Unit by unit, marks in the three masked stretches and the text's own units elsewhere. */
  lemma {:induction false} MarkedStretches(r: JString, s: JString, m: CodeUnit, l: nat, sl: nat, c: nat, el: nat, t: nat)
    requires l + sl + c + el + t == |s|
    requires r == Repeat(m, l) + s[l..l + sl] + Repeat(m, c) + s[l + sl + c..l + sl + c + el] + Repeat(m, t)
    ensures |r| == |s|
    ensures forall k | 0 <= k < |s| :: r[k] == if k < l || l + sl <= k < l + sl + c || |s| - t <= k then m else s[k]
  {
    var a, b, d, e, f := Repeat(m, l), s[l..l + sl], Repeat(m, c), s[l + sl + c..l + sl + c + el], Repeat(m, t);
    var head := a + b + d + e;
    assert r == head + f;
    forall k | 0 <= k < |s|
      ensures r[k] == if k < l || l + sl <= k < l + sl + c || |s| - t <= k then m else s[k]
    {
      if k < |head| {
        assert r[k] == head[k];
        HeadAt(head, a, b, d, e, s, m, l, sl, c, k);
      } else {
        assert r[k] == f[k - |head|];
      }
    }
  }

  /** One unit of the first four stretches: marks, kept units, marks, kept units. */
  lemma {:induction false} HeadAt(head: JString, a: JString, b: JString, d: JString, e: JString, s: JString, m: CodeUnit, l: nat, sl: nat, c: nat, k: nat)
    requires head == a + b + d + e && k < |head|
    requires |a| == l && |b| == sl && |d| == c && l + sl + c + |e| <= |s|
    requires forall i | 0 <= i < l :: a[i] == m
    requires forall i | 0 <= i < c :: d[i] == m
    requires forall i | 0 <= i < sl :: b[i] == s[l + i]
    requires forall i | 0 <= i < |e| :: e[i] == s[l + sl + c + i]
    ensures head[k] == if k < l || l + sl <= k < l + sl + c then m else s[k]
  {
    var ab, abd := a + b, a + b + d;
    if k < l {
      assert head[k] == abd[k] == ab[k] == a[k];
    } else if k < l + sl {
      assert head[k] == abd[k] == ab[k] == b[k - l];
    } else if k < l + sl + c {
      assert head[k] == abd[k] == d[k - l - sl];
    } else {
      assert head[k] == e[k - l - sl - c];
    }
  }

  /**
   * With a one-unit mark and plain text, desensitize keeps the length and
   * masks exactly the leading, center and trailing stretches.
   */
  lemma {:induction false} DesensitizeMasks(s: JString, m: CodeUnit, l: nat, c: nat, t: nat)
    requires UniversalStringTrim.NoSurrogates(s) && s != []
    requires l + c + t <= |s|
    ensures var r := Desensitized(Some(s), Some([m]), l, c, t);
      var startLength := (|s| - l - c - t) - (|s| - l - c - t) / 2;
      |r| == |s|
      && (forall k | 0 <= k < |s| ::
            r[k] == if k < l || l + startLength <= k < l + startLength + c || |s| - t <= k then m else s[k])
  {
    var rest := |s| - l - c - t;
    var sl := (|s| - l - c - t) - (|s| - l - c - t) / 2;
    var el := rest - sl;
    var r := Desensitized(Some(s), Some([m]), l, c, t);
    assert r == Masked(s, [m], l, sl, c, el, t);
    MaskedPlain(s, m, l, sl, c, el, t);
    MarkedStretches(r, s, m, l, sl, c, el, t);
  }

  /** On plain text with a one-unit mark, the five stretches are runs of the mark and slices of the text. */
  lemma {:induction false} MaskedPlain(s: JString, m: CodeUnit, l: nat, sl: nat, c: nat, el: nat, t: nat)
    requires UniversalStringTrim.NoSurrogates(s)
    requires l + sl + c + el + t <= |s|
    ensures Masked(s, [m], l, sl, c, el, t)
      == Repeat(m, l) + s[l..l + sl] + Repeat(m, c) + s[l + sl + c..l + sl + c + el] + Repeat(m, t)
  {
    var mid := l + sl + c;
    var a, b, d, e, f := Times([m], l), KeptText(s, l, sl), Times([m], c), KeptText(s, mid, el), Times([m], t);
    assert Masked(s, [m], l, sl, c, el, t) == a + b + d + e + f;
    TimesOfUnit([m], l);
    TimesOfUnit([m], c);
    TimesOfUnit([m], t);
    KeptTextPlain(s, l, sl);
    KeptTextPlain(s, mid, el);
    var a', b', d', e', f' := Repeat(m, l), s[l..l + sl], Repeat(m, c), s[mid..mid + el], Repeat(m, t);
    assert a == a' && b == b' && d == d' && e == e' && f == f';
    assert a + b + d + e + f == a' + b' + d' + e' + f';
  }

  lemma {:induction false} KeptTextPlain(s: JString, from: nat, len: nat)
    requires UniversalStringTrim.NoSurrogates(s)
    requires from + len <= |s|
    ensures KeptText(s, from, len) == s[from..from + len]
  {
    KeptPlain(s, from, from + len);
  }

  /** When the masks cannot fit, the whole text is masked unit for unit. */
  lemma {:induction false} DesensitizeAllMarks(s: JString, m: CodeUnit, l: nat, c: nat, t: nat)
    requires s != [] && l + c + t > |s|
    ensures Desensitized(Some(s), Some([m]), l, c, t) == Repeat(m, |s|)
  {
    TimesOfUnit([m], |s|);
  }

  // ---------------------------------------------------- toStyledNumberChar

  /**
   * toStyledNumberChar(number, type) as written: style 3 picks the block of
   * U+24F5 while the zero-based number is at most 10, one step too far.
   */
  function StyledNumberCharAsWritten(number: int, style: int): (r: Result<CodeUnit>)
    ensures r.Err? <==> number <= 0 || number > 20
  {
    if number <= 0 || number > 20 then Err(IllegalArgument)
    else
      var n := number - 1;
      Ok(if style == 1 then 0x2460 + n
         else if style == 2 then 0x2474 + n
         else if style == 3 then (if n <= 10 then 0x24F5 + n else 0x24EB + n - 10)
         else 0x2488 + n)
  }

  /**
   * toStyledNumberChar as documented: circled numbers from U+2460, parenthesized
   * from U+2474, double-circled 1-10 from U+24F5 and negative-circled 11-20
   * from U+24EB, full-stop numbers from U+2488.
   */
  function StyledNumberChar(number: int, style: int): (r: Result<CodeUnit>)
    ensures r.Err? <==> number <= 0 || number > 20
    ensures r.Ok? && style == 3 && number <= 10 ==> 0x24F5 <= r.value <= 0x24FE
    ensures r.Ok? && style == 3 && number > 10 ==> 0x24EB <= r.value <= 0x24F4
    ensures r.Ok? && style == 1 ==> 0x2460 <= r.value <= 0x2473
    ensures r.Ok? && style == 2 ==> 0x2474 <= r.value <= 0x2487
    ensures r.Ok? && style != 1 && style != 2 && style != 3 ==> 0x2488 <= r.value <= 0x249B
  {
    if number <= 0 || number > 20 then Err(IllegalArgument)
    else
      var n := number - 1;
      Ok(if style == 1 then 0x2460 + n
         else if style == 2 then 0x2474 + n
         else if style == 3 then (if n < 10 then 0x24F5 + n else 0x24EB + n - 10)
         else 0x2488 + n)
  }

  /** The number a styled character stands for, the inverse of StyledNumberChar. */
  function StyledNumberValue(ch: int, style: int): (r: Option<int>)
  {
    if style == 1 then (if 0x2460 <= ch <= 0x2473 then Some(ch - 0x2460 + 1) else None)
    else if style == 2 then (if 0x2474 <= ch <= 0x2487 then Some(ch - 0x2474 + 1) else None)
    else if style == 3 then
      (if 0x24F5 <= ch <= 0x24FE then Some(ch - 0x24F5 + 1)
       else if 0x24EB <= ch <= 0x24F4 then Some(ch - 0x24EB + 11)
       else None)
    else (if 0x2488 <= ch <= 0x249B then Some(ch - 0x2488 + 1) else None)
  }

  /** Every number 1-20 of every style is read back from its character. */
  lemma {:induction false} StyledNumberRoundTrip(number: int, style: int)
    requires 1 <= number <= 20
    ensures StyledNumberValue(StyledNumberChar(number, style).value, style) == Some(number)
  {
  }

  /** As written, 11 in style 3 becomes U+24FF, which stands for no number of the style. */
  lemma {:induction false} StyledNumberAsWrittenEleven()
    ensures StyledNumberCharAsWritten(11, 3) == Ok(0x24FF)
    ensures StyledNumberValue(0x24FF, 3) == None
    ensures StyledNumberChar(11, 3) == Ok(0x24EB)
  {
  }

  /** Both forms agree on every number but 11 of style 3. */
  lemma {:induction false} StyledNumberAsWrittenOtherwiseAgrees(number: int, style: int)
    requires !(number == 11 && style == 3)
    ensures StyledNumberCharAsWritten(number, style) == StyledNumberChar(number, style)
  {
  }
}
