// Java's text model shared by every other module: UTF-16 code units, the
// surrogate-pair rules of java.lang.Character, the JDK character predicates
// the library relies on, and the Option/Result wrappers that stand for
// Java's null returns and thrown exceptions.

module JavaText {

  /** One UTF-16 code unit (a Java `char`); lone surrogates are allowed. */
  type CodeUnit = c: int | 0 <= c < 0x1_0000

  /** A Java `String`, `char[]` or `CharSequence`, as its code units. */
  type JString = seq<CodeUnit>

  datatype Option<T> = None | Some(value: T)

  /** The Java exception types the modelled code throws. */
  datatype Exception = IllegalArgument | IndexOutOfBounds | NullPointer | NegativeArraySize

  datatype Result<T> = Ok(value: T) | Err(error: Exception)

  /** Converts a Dafny string literal of BMP characters into code units. */
  function Lit(s: string): (r: JString)
    requires forall i | 0 <= i < |s| :: s[i] as int < 0x1_0000
    ensures |r| == |s|
    ensures forall i | 0 <= i < |s| :: r[i] == s[i] as int
  {
    if s == [] then [] else [s[0] as int] + Lit(s[1..])
  }

  // ---------------------------------------------------------------- UTF-16

  predicate IsHighSurrogate(c: int) { 0xD800 <= c <= 0xDBFF }

  predicate IsLowSurrogate(c: int) { 0xDC00 <= c <= 0xDFFF }

  /** Character.toCodePoint */
  function ToCodePoint(high: int, low: int): int
  {
    (high - 0xD800) * 0x400 + (low - 0xDC00) + 0x10000
  }

  /** A high surrogate at `i` followed by a low surrogate forms one code point. */
  predicate IsPairAt(s: JString, i: int)
  {
    0 <= i && i + 1 < |s| && IsHighSurrogate(s[i]) && IsLowSurrogate(s[i + 1])
  }

  /** Character.codePointAt(CharSequence, int) */
  function CodePointAt(s: JString, i: int): (cp: int)
    requires 0 <= i < |s|
    ensures 0 <= cp <= 0x10FFFF
    ensures cp < 0x1_0000 <==> !IsPairAt(s, i)
  {
    if IsPairAt(s, i) then ToCodePoint(s[i], s[i + 1]) else s[i]
  }

  /** Character.charCount */
  function CharCount(cp: int): int
  {
    if cp >= 0x1_0000 then 2 else 1
  }

  /** String.codePoints(): the code points of `s`, pairs decoded. */
  function CodePoints(s: JString): (r: seq<int>)
    ensures |r| <= |s|
    ensures forall k | 0 <= k < |r| :: IsCodePoint(r[k])
    decreases |s|
  {
    if s == [] then []
    else if IsPairAt(s, 0) then [CodePointAt(s, 0)] + CodePoints(s[2..])
    else [s[0] as int] + CodePoints(s[1..])
  }

  /** StringBuilder.appendCodePoint: the code units of one code point. */
  function Encode(cp: int): (r: JString)
    requires IsCodePoint(cp)
    ensures |r| == CharCount(cp)
  {
    if cp < 0x1_0000 then [cp]
    else [0xD800 + (cp - 0x10000) / 0x400, 0xDC00 + (cp - 0x10000) % 0x400]
  }

  predicate IsCodePoint(cp: int) { 0 <= cp <= 0x10FFFF }

  /** The code units of a sequence of code points, concatenated. */
  function EncodeAll(cps: seq<int>): (r: JString)
    requires forall k | 0 <= k < |cps| :: IsCodePoint(cps[k])
  {
    if cps == [] then [] else Encode(cps[0]) + EncodeAll(cps[1..])
  }

  lemma {:induction false} EncodeAllAppend(a: seq<int>, b: seq<int>)
    requires forall k | 0 <= k < |a| :: IsCodePoint(a[k])
    requires forall k | 0 <= k < |b| :: IsCodePoint(b[k])
    ensures EncodeAll(a + b) == EncodeAll(a) + EncodeAll(b)
  {
    if a == [] {
      assert a + b == b;
    } else {
      assert (a + b)[1..] == a[1..] + b;
      EncodeAllAppend(a[1..], b);
    }
  }

  /** Decoding the code points of a text and encoding them again gives the text back. */
  lemma {:induction false} CodePointsRoundTrip(s: JString)
    ensures EncodeAll(CodePoints(s)) == s
    decreases |s|
  {
    if s == [] {
    } else if IsPairAt(s, 0) {
      CodePointsRoundTrip(s[2..]);
      var cp := CodePointAt(s, 0);
      assert Encode(cp) == s[..2];
      assert s == s[..2] + s[2..];
    } else {
      CodePointsRoundTrip(s[1..]);
      assert s == [s[0]] + s[1..];
    }
  }

  // ---------------------------------------------------- JDK classification

  /**
   * Character.isWhitespace(int): the Unicode space, line and paragraph
   * separators other than the no-break spaces U+00A0, U+2007 and U+202F,
   * plus U+0009-U+000D and U+001C-U+001F. The separators are those of
   * Unicode 6.3 and later (the JDK 9+ tables): U+180E MONGOLIAN VOWEL
   * SEPARATOR is no longer a space separator there, so it is not whitespace.
   */
  predicate IsJavaWhitespace(cp: int)
  {
    (9 <= cp <= 13) || (28 <= cp <= 32) || cp == 0x1680
    || (0x2000 <= cp <= 0x2006) || (0x2008 <= cp <= 0x200A)
    || cp == 0x2028 || cp == 0x2029 || cp == 0x205F || cp == 0x3000
  }

  /** Character.isISOControl(int) */
  predicate IsISOControl(cp: int)
  {
    (0 <= cp <= 0x1F) || (0x7F <= cp <= 0x9F)
  }

  predicate IsAsciiUpper(c: int) { 'A' as int <= c <= 'Z' as int }

  predicate IsAsciiLower(c: int) { 'a' as int <= c <= 'z' as int }

  predicate IsAsciiDigit(c: int) { '0' as int <= c <= '9' as int }

  predicate IsAsciiLetter(c: int) { IsAsciiUpper(c) || IsAsciiLower(c) }

  /** Character.toLowerCase, on the ASCII range; other characters are left unchanged. */
  function ToLower(c: int): (r: int)
    ensures IsAsciiUpper(c) ==> r == c + 32
    ensures !IsAsciiUpper(c) ==> r == c
  {
    if IsAsciiUpper(c) then c + 32 else c
  }

  /** Character.toUpperCase, on the ASCII range; other characters are left unchanged. */
  function ToUpper(c: int): (r: int)
    ensures IsAsciiLower(c) ==> r == c - 32
    ensures !IsAsciiLower(c) ==> r == c
  {
    if IsAsciiLower(c) then c - 32 else c
  }

  function LowerAll(s: JString): (r: JString)
    ensures |r| == |s|
    ensures forall i | 0 <= i < |s| :: r[i] == ToLower(s[i])
  {
    seq(|s|, i requires 0 <= i < |s| => ToLower(s[i]))
  }

  function UpperAll(s: JString): (r: JString)
    ensures |r| == |s|
    ensures forall i | 0 <= i < |s| :: r[i] == ToUpper(s[i])
  {
    seq(|s|, i requires 0 <= i < |s| => ToUpper(s[i]))
  }

  /** Two characters are equal ignoring case (Character case folding, ASCII range). */
  predicate CharEqualsIgnoreCase(a: int, b: int)
  {
    a == b || ToUpper(a) == ToUpper(b) || ToLower(ToUpper(a)) == ToLower(ToUpper(b))
  }

  lemma {:induction false} CharEqualsIgnoreCaseIsLower(a: int, b: int)
    ensures CharEqualsIgnoreCase(a, b) <==> ToLower(a) == ToLower(b)
  {
  }

  /** String.equalsIgnoreCase */
  predicate EqualsIgnoreCase(a: JString, b: JString)
  {
    |a| == |b| && forall i | 0 <= i < |a| :: CharEqualsIgnoreCase(a[i], b[i])
  }

  /** String.lastIndexOf(int): the last index of `c` in `s`, or -1. */
  function LastIndexOf(s: seq<int>, c: int): (r: int)
    ensures -1 <= r < |s|
    ensures r >= 0 ==> s[r] == c && forall k | r < k < |s| :: s[k] != c
    ensures r == -1 ==> forall k | 0 <= k < |s| :: s[k] != c
    decreases |s|
  {
    if s == [] then -1
    else if s[|s| - 1] == c then |s| - 1
    else LastIndexOf(s[..|s| - 1], c)
  }

  /** `n` copies of `x`. */
  function Repeat<T>(x: T, n: nat): (r: seq<T>)
    ensures |r| == n
    ensures forall k | 0 <= k < n :: r[k] == x
  {
    if n == 0 then [] else [x] + Repeat(x, n - 1)
  }

  /** Math.min(int, int) */
  function Min(a: int, b: int): int { if a <= b then a else b }

  /** Math.max(int, int) */
  function Max(a: int, b: int): int { if a >= b then a else b }

  // ------------------------------------------------------ 32-bit hashing

  /** A Java `int`, as its 32-bit pattern read unsigned. */
  type Bits32 = x: int | 0 <= x < 0x1_0000_0000

  /** A mathematical integer narrowed to a Java `int`: the two's-complement value of its low 32 bits. */
  function Int32(x: int): (r: int)
    ensures -0x8000_0000 <= r < 0x8000_0000
    ensures (r - x) % 0x1_0000_0000 == 0
    ensures -0x8000_0000 <= x < 0x8000_0000 ==> r == x
  {
    (x + 0x8000_0000) % 0x1_0000_0000 - 0x8000_0000
  }

  /** `31 * h + c` in Java `int` arithmetic, which wraps around modulo 2^32. */
  function HashStep(h: Bits32, c: int): Bits32
  {
    (31 * h + c) % 0x1_0000_0000
  }
}
