// parseArray(input, separator, escapeChar): a bracketed array expression is
// cut into its elements. One matching outer pair of brackets is stripped;
// the loop walks the remaining code points with an escape flag, two quote
// flags and a bracket depth, and cuts at a separator found outside quotes at
// depth 0; every element is trimmed of Character.isWhitespace and dropped
// when empty.
module UniversalStringArray {
  import opened JavaText
  import opened IndexBounds
  import UniversalString
  import UniversalStringTrim

  predicate IsOpener(c: int) { c == '[' as int || c == '{' as int || c == '(' as int }

  predicate IsCloser(c: int) { c == ']' as int || c == '}' as int || c == ')' as int }

  predicate IsMatchingPair(first: int, last: int)
  {
    (first == '[' as int && last == ']' as int) || (first == '{' as int && last == '}' as int)
    || (first == '(' as int && last == ')' as int)
  }

  /** The loop's variables: the StringBuilder, the list, the bracket count and the four flags. */
  datatype Scanner = Scanner(sb: JString, list: seq<JString>, brackets: int, escape: bool,
                             inDoubleQuotes: bool, inSingleQuotes: bool, hasNonWhitespace: bool)

  const Initial := Scanner([], [], 0, false, false, false, false)

  // -------------------------------------------------- the elements

  /** extractString(sb, list, true, true, false, Character::isWhitespace): the builder trimmed of Java whitespace. */
  function Extracted(sb: JString): JString
  {
    if sb == [] then []
    else UniversalStringTrim.Kept(sb, UniversalStringTrim.CodePointTrimBounds(sb, Some(IsJavaWhitespace), Some(IsJavaWhitespace)))
  }

  /** The list after extractString: the trimmed builder is added unless it is empty. */
  function Extract(sb: JString, list: seq<JString>): seq<JString>
  {
    var e := Extracted(sb);
    if e == [] then list else list + [e]
  }

  /** An element as the list holds it: non-empty, with no Java whitespace at either end. */
  predicate IsElement(e: JString)
  {
    e != [] && !IsJavaWhitespace(e[0]) && !IsJavaWhitespace(e[|e| - 1])
  }

  /** What extractString adds is an element. */
  lemma {:induction false} ExtractedIsElement(sb: JString)
    requires Extracted(sb) != []
    ensures IsElement(Extracted(sb))
  {
    var b := UniversalStringTrim.CodePointTrimBounds(sb, Some(IsJavaWhitespace), Some(IsJavaWhitespace));
    var e := Extracted(sb);
    assert e == sb[b.startInclusive..b.endExclusive];
    assert e[0] == sb[b.startInclusive] && e[|e| - 1] == sb[b.endExclusive - 1];
    if IsPairAt(sb, b.endExclusive - 1) {
      assert IsHighSurrogate(e[|e| - 1]);
    }
  }

  // -------------------------------------------------------- one step

  /** What an escaped code point appends: a control character for t, n, r, f and b, the separator itself, or a backslash and the code point. */
  function Unescaped(c: int, separator: CodeUnit): JString
    requires IsCodePoint(c)
  {
    if c == 't' as int then ['\t' as int]
    else if c == 'n' as int then ['\n' as int]
    else if c == 'r' as int then ['\r' as int]
    else if c == 'f' as int then [0x0C]
    else if c == 'b' as int then [0x08]
    else if c == separator as int then [separator]
    else ['\\' as int] + Encode(c)
  }

  /**
   * One turn of the loop on code point c; an IllegalArgumentException
   * when a closer brings the bracket count below 0.
   */
  function Step(st: Scanner, c: int, separator: CodeUnit, escapeChar: CodeUnit): (r: Result<Scanner>)
    requires IsCodePoint(c)
    ensures r.Err? ==> r.error == IllegalArgument && st.brackets <= 0 && !st.escape
    ensures r.Err? && st.brackets >= 0 ==> IsCloser(c) && st.brackets == 0
  {
    if !st.hasNonWhitespace && IsJavaWhitespace(c) then Ok(st)
    else if c == escapeChar as int then
      Ok(if st.escape then st.(sb := st.sb + [escapeChar], hasNonWhitespace := true, escape := false) else st.(escape := true))
    else if st.escape then
      Ok(st.(sb := st.sb + Unescaped(c, separator), escape := false, hasNonWhitespace := true))
    else
      var inDouble := if c == '"' as int && !st.inSingleQuotes then !st.inDoubleQuotes else st.inDoubleQuotes;
      var inSingle := if c == '\'' as int && !st.inDoubleQuotes then !st.inSingleQuotes else st.inSingleQuotes;
      var brackets := if IsOpener(c) then st.brackets + 1 else if IsCloser(c) then st.brackets - 1 else st.brackets;
      if brackets < 0 then Err(IllegalArgument)
      else if !inSingle && !inDouble && brackets == 0 && c == separator as int then
        Ok(Scanner([], Extract(st.sb, st.list), brackets, false, inDouble, inSingle, false))
      else
        Ok(Scanner(st.sb + Encode(c), st.list, brackets, false, inDouble, inSingle, st.hasNonWhitespace || !IsJavaWhitespace(c)))
  }

  /** The loop over the code points from index i up to and including endInclusive. */
  function Run(s: JString, i: nat, endInclusive: int, st: Scanner, separator: CodeUnit, escapeChar: CodeUnit): (r: Result<Scanner>)
    requires i <= |s| && endInclusive < |s|
    ensures r.Err? ==> r.error == IllegalArgument
    decreases |s| - i
  {
    if i > endInclusive then Ok(st)
    else
      var c := CodePointAt(s, i);
      var next := Step(st, c, separator, escapeChar);
      if next.Err? then next else Run(s, i + CharCount(c), endInclusive, next.value, separator, escapeChar)
  }

  /** After the loop: an unclosed bracket fails; a non-empty builder is extracted. */
  function Finish(st: Scanner): Result<seq<JString>>
  {
    if st.brackets != 0 then Err(IllegalArgument)
    else Ok(if |st.sb| != 0 then Extract(st.sb, st.list) else st.list)
  }

  /** The elements between start and endInclusive, outer brackets already removed. */
  function ElementsBetween(s: JString, start: nat, endInclusive: int, separator: CodeUnit, escapeChar: CodeUnit): (r: Result<seq<JString>>)
    requires start <= |s| && endInclusive < |s|
    ensures start > endInclusive ==> r == Ok([])
    ensures r.Err? ==> r.error == IllegalArgument
  {
    if start > endInclusive then Ok([])
    else
      var run := Run(s, start, endInclusive, Initial, separator, escapeChar);
      if run.Err? then Err(run.error) else Finish(run.value)
  }

  /**
   * parseArray(input, separator, escapeChar): the empty array for a null,
   * empty or blank text; one matching outer pair of brackets stripped; an
   * IllegalArgumentException for a bracket on one side only.
   */
  function ParsedArray(input: Option<JString>, separator: CodeUnit, escapeChar: CodeUnit): (r: Result<seq<JString>>)
    ensures UniversalString.IsEmpty(input) ==> r == Ok([])
    ensures r.Err? ==> r.error == IllegalArgument
  {
    if UniversalString.IsEmpty(input) then Ok([])
    else
      var s := input.value;
      var b := UniversalStringTrim.CodePointTrimBounds(s, Some(UniversalString.IsWhitespace), Some(UniversalString.IsWhitespace));
      if b.startInclusive >= b.endExclusive then Ok([])
      else Unbracketed(s, b.startInclusive, b.endExclusive, separator, escapeChar)
  }

  /**
   * The trimmed text s[lo..hi) without its brackets: a matching pair is
   * dropped, a lone opener or closer at either end is rejected.
   */
  function Unbracketed(s: JString, lo: nat, hi: int, separator: CodeUnit, escapeChar: CodeUnit): (r: Result<seq<JString>>)
    requires lo < hi <= |s|
    // a bracket on one side only is rejected
    ensures var first, last := CodePointAt(s, lo), CodePointAt(s, hi - 1);
      !IsMatchingPair(first, last) && (IsOpener(first) || IsCloser(last)) ==> r == Err(IllegalArgument)
    ensures r.Err? ==> r.error == IllegalArgument
  {
    var first, last := CodePointAt(s, lo), CodePointAt(s, hi - 1);
    if IsMatchingPair(first, last) then
      ElementsBetween(s, lo + CharCount(first), hi - 1 - CharCount(last), separator, escapeChar)
    else if IsOpener(first) || IsCloser(last) then Err(IllegalArgument)
    else ElementsBetween(s, lo, hi - 1, separator, escapeChar)
  }

  // ----------------------------------------------------- the elements

  predicate AllElements(list: seq<JString>)
  {
    forall k | 0 <= k < |list| :: IsElement(list[k])
  }

  lemma {:induction false} ExtractKeepsElements(sb: JString, list: seq<JString>)
    requires AllElements(list)
    ensures AllElements(Extract(sb, list))
  {
    if Extracted(sb) != [] {
      ExtractedIsElement(sb);
    }
  }

  /** The loop only ever adds elements to the list. */
  lemma {:induction false} RunKeepsElements(s: JString, i: nat, endInclusive: int, st: Scanner, separator: CodeUnit, escapeChar: CodeUnit)
    requires i <= |s| && endInclusive < |s| && AllElements(st.list)
    ensures var r := Run(s, i, endInclusive, st, separator, escapeChar); r.Ok? ==> AllElements(r.value.list)
    decreases |s| - i
  {
    if i <= endInclusive {
      var c := CodePointAt(s, i);
      var next := Step(st, c, separator, escapeChar);
      if next.Ok? {
        StepKeepsElements(st, c, separator, escapeChar);
        RunKeepsElements(s, i + CharCount(c), endInclusive, next.value, separator, escapeChar);
        assert Run(s, i, endInclusive, st, separator, escapeChar) == Run(s, i + CharCount(c), endInclusive, next.value, separator, escapeChar);
      }
    }
  }

  lemma StepKeepsElements(st: Scanner, c: int, separator: CodeUnit, escapeChar: CodeUnit)
    requires IsCodePoint(c) && AllElements(st.list)
    ensures var next := Step(st, c, separator, escapeChar); next.Ok? ==> AllElements(next.value.list)
  {
    ExtractKeepsElements(st.sb, st.list);
  }

  lemma {:induction false} ElementsBetweenAreElements(s: JString, start: nat, endInclusive: int, separator: CodeUnit, escapeChar: CodeUnit)
    requires start <= |s| && endInclusive < |s|
    ensures var r := ElementsBetween(s, start, endInclusive, separator, escapeChar); r.Ok? ==> AllElements(r.value)
  {
    if start <= endInclusive {
      RunKeepsElements(s, start, endInclusive, Initial, separator, escapeChar);
      var run := Run(s, start, endInclusive, Initial, separator, escapeChar);
      if run.Ok? {
        ExtractKeepsElements(run.value.sb, run.value.list);
      }
    }
  }

  /** Every element parseArray returns is non-empty and has no Java whitespace at either end. */
  lemma {:induction false} ParsedElements(input: Option<JString>, separator: CodeUnit, escapeChar: CodeUnit)
    ensures var r := ParsedArray(input, separator, escapeChar); r.Ok? ==> AllElements(r.value)
  {
    if !UniversalString.IsEmpty(input) {
      var s := input.value;
      var b := UniversalStringTrim.CodePointTrimBounds(s, Some(UniversalString.IsWhitespace), Some(UniversalString.IsWhitespace));
      if b.startInclusive < b.endExclusive {
        UnbracketedElements(s, b.startInclusive, b.endExclusive, separator, escapeChar);
      }
    }
  }

  lemma {:induction false} UnbracketedElements(s: JString, lo: nat, hi: int, separator: CodeUnit, escapeChar: CodeUnit)
    requires lo < hi <= |s|
    ensures var r := Unbracketed(s, lo, hi, separator, escapeChar); r.Ok? ==> AllElements(r.value)
  {
    var first, last := CodePointAt(s, lo), CodePointAt(s, hi - 1);
    if IsMatchingPair(first, last) {
      var start, endInclusive := lo + CharCount(first), hi - 1 - CharCount(last);
      ElementsBetweenAreElements(s, start, endInclusive, separator, escapeChar);
      assert Unbracketed(s, lo, hi, separator, escapeChar) == ElementsBetween(s, start, endInclusive, separator, escapeChar);
    } else if !IsOpener(first) && !IsCloser(last) {
      ElementsBetweenAreElements(s, lo, hi - 1, separator, escapeChar);
      assert Unbracketed(s, lo, hi, separator, escapeChar) == ElementsBetween(s, lo, hi - 1, separator, escapeChar);
    }
  }

  // ------------------------------------------------- plain elements

  /** The pieces of s between separators, empty ones included. */
  function Pieces(s: JString, separator: CodeUnit): (r: seq<JString>)
    ensures |r| >= 1
    decreases |s|
  {
    if s == [] then [[]]
    else
      var rest := Pieces(s[1..], separator);
      if s[0] == separator then [[]] + rest else [[s[0]] + rest[0]] + rest[1..]
  }

  /** The pieces joined with the separator. */
  function JoinPieces(fs: seq<JString>, separator: CodeUnit): JString
    requires |fs| >= 1
  {
    if |fs| == 1 then fs[0] else fs[0] + [separator] + JoinPieces(fs[1..], separator)
  }

  /** The non-empty pieces, in order. */
  function NonEmpty(fs: seq<JString>): (r: seq<JString>)
    ensures forall k | 0 <= k < |r| :: r[k] != []
  {
    if fs == [] then [] else (if fs[0] == [] then [] else [fs[0]]) + NonEmpty(fs[1..])
  }

  /** Splitting then joining gives the text back, and no piece holds a separator. */
  lemma {:induction false} PiecesJoin(s: JString, separator: CodeUnit)
    ensures JoinPieces(Pieces(s, separator), separator) == s
    ensures forall j, k | 0 <= j < |Pieces(s, separator)| && 0 <= k < |Pieces(s, separator)[j]| :: Pieces(s, separator)[j][k] != separator
    decreases |s|
  {
    if s != [] {
      var rest := Pieces(s[1..], separator);
      PiecesJoin(s[1..], separator);
      if s[0] == separator {
        assert Pieces(s, separator)[1..] == rest;
      } else {
        var fs := Pieces(s, separator);
        assert fs[0] == [s[0]] + rest[0];
        if |rest| == 1 {
          assert JoinPieces(fs, separator) == [s[0]] + rest[0];
        } else {
          assert fs[1..] == rest[1..];
          assert JoinPieces(fs, separator) == ([s[0]] + rest[0]) + [separator] + JoinPieces(rest[1..], separator);
          assert JoinPieces(rest, separator) == rest[0] + [separator] + JoinPieces(rest[1..], separator);
        }
        assert s == [s[0]] + s[1..];
        forall j, k | 0 <= j < |fs| && 0 <= k < |fs[j]| ensures fs[j][k] != separator {
          if j == 0 && k > 0 {
            assert fs[0][k] == rest[0][k - 1];
          } else if j > 0 {
            assert fs[j] == rest[j];
          }
        }
      }
    }
  }

  /** A prefix without a separator joins the first piece of what follows it. */
  lemma {:induction false} PiecesAfter(sb: JString, t: JString, separator: CodeUnit)
    requires forall k | 0 <= k < |sb| :: sb[k] != separator
    ensures Pieces(sb + t, separator) == [sb + Pieces(t, separator)[0]] + Pieces(t, separator)[1..]
    decreases |sb|
  {
    var pieces := Pieces(t, separator);
    if sb == [] {
      assert sb + t == t;
      assert sb + pieces[0] == pieces[0];
      assert [pieces[0]] + pieces[1..] == pieces;
    } else {
      PiecesAfter(sb[1..], t, separator);
      assert (sb + t)[0] == sb[0];
      assert (sb + t)[1..] == sb[1..] + t;
      var rest := Pieces(sb[1..] + t, separator);
      assert rest[0] == sb[1..] + pieces[0] && rest[1..] == pieces[1..];
      assert [sb[0]] + (sb[1..] + pieces[0]) == sb + pieces[0];
    }
  }

  /** A code unit the loop passes through unchanged: no whitespace, quote, bracket, escape character or high surrogate. */
  predicate IsPlainUnit(c: int, escapeChar: CodeUnit)
  {
    !IsJavaWhitespace(c) && c != '"' as int && c != '\'' as int && !IsOpener(c) && !IsCloser(c)
    && c != escapeChar as int && !IsHighSurrogate(c)
  }

  predicate IsPlainText(t: JString, separator: CodeUnit, escapeChar: CodeUnit)
  {
    IsPlainUnit(separator, escapeChar) && forall k | 0 <= k < |t| :: IsPlainUnit(t[k], escapeChar)
  }

  /** A builder whose ends are neither whitespace nor a surrogate pair is extracted as it is. */
  lemma {:induction false} ExtractAsIs(sb: JString, list: seq<JString>)
    requires sb != [] ==> !IsJavaWhitespace(sb[0]) && !IsHighSurrogate(sb[0]) && !IsJavaWhitespace(sb[|sb| - 1])
    ensures Extract(sb, list) == list + (if sb == [] then [] else [sb])
  {
    if sb != [] {
      assert CodePointAt(sb, 0) == sb[0];
      assert CodePointAt(sb, |sb| - 1) == sb[|sb| - 1];
      UniversalStringTrim.NothingToTrim(sb, Some(IsJavaWhitespace), Some(IsJavaWhitespace));
    }
  }

  /** A separator closes the piece the builder holds. */
  lemma {:induction false} SeparatorPieces(sb: JString, rest: JString, list: seq<JString>, separator: CodeUnit)
    requires forall k | 0 <= k < |sb| :: sb[k] != separator
    ensures list + NonEmpty(Pieces(sb + ([separator] + rest), separator))
         == (list + (if sb == [] then [] else [sb])) + NonEmpty(Pieces(rest, separator))
  {
    PiecesAfter(sb, [separator] + rest, separator);
    assert ([separator] + rest)[1..] == rest;
    var ps := Pieces(rest, separator);
    assert Pieces([separator] + rest, separator) == [[]] + ps;
    assert sb + [] == sb;
    assert Pieces(sb + ([separator] + rest), separator) == [sb] + ps;
    assert ([sb] + ps)[1..] == ps;
    assert NonEmpty([sb] + ps) == (if sb == [] then [] else [sb]) + NonEmpty(ps);
  }

  /** One turn of the loop on a plain code unit outside quotes and brackets. */
  lemma {:induction false} PlainStep(st: Scanner, c: CodeUnit, separator: CodeUnit, escapeChar: CodeUnit)
    requires IsPlainUnit(c, escapeChar) && st.brackets == 0 && !st.escape && !st.inDoubleQuotes && !st.inSingleQuotes
    ensures Step(st, c, separator, escapeChar)
         == Ok(if c == separator then Scanner([], Extract(st.sb, st.list), 0, false, false, false, false)
               else Scanner(st.sb + [c], st.list, 0, false, false, false, true))
  {
  }

  /** What the loop from index i, with builder sb and list so far, returns after the final checks over plain text. */
  predicate RunsToPieces(s: JString, i: nat, endInclusive: int, sb: JString, list: seq<JString>, separator: CodeUnit, escapeChar: CodeUnit)
    requires i <= endInclusive + 1 <= |s|
  {
    PiecesFrom(Run(s, i, endInclusive, Scanner(sb, list, 0, false, false, false, sb != []), separator, escapeChar), sb + s[i..endInclusive + 1], list, separator)
  }

  /** A loop result whose final checks give list followed by the non-empty pieces of text. */
  predicate PiecesFrom(r: Result<Scanner>, text: JString, list: seq<JString>, separator: CodeUnit)
  {
    r.Ok? && Finish(r.value) == Ok(list + NonEmpty(Pieces(text, separator)))
  }

  /** The loop over plain code units from index i: the elements are the non-empty pieces. */
  lemma {:induction false} PlainRun(s: JString, i: nat, endInclusive: int, sb: JString, list: seq<JString>, separator: CodeUnit, escapeChar: CodeUnit)
    requires i <= endInclusive + 1 <= |s|
    requires IsPlainUnit(separator, escapeChar)
    requires forall k | i <= k <= endInclusive :: IsPlainUnit(s[k], escapeChar)
    requires forall k | 0 <= k < |sb| :: IsPlainUnit(sb[k], escapeChar) && sb[k] != separator
    ensures RunsToPieces(s, i, endInclusive, sb, list, separator, escapeChar)
    decreases endInclusive + 1 - i, 1
  {
    if i > endInclusive {
      PlainRunEnd(s, i, endInclusive, sb, list, separator, escapeChar);
    } else if s[i] == separator {
      PlainRunSeparator(s, i, endInclusive, sb, list, separator, escapeChar);
    } else {
      PlainRunUnit(s, i, endInclusive, sb, list, separator, escapeChar);
    }
  }

  lemma {:induction false} PlainRunEnd(s: JString, i: nat, endInclusive: int, sb: JString, list: seq<JString>, separator: CodeUnit, escapeChar: CodeUnit)
    requires i == endInclusive + 1 <= |s|
    requires forall k | 0 <= k < |sb| :: IsPlainUnit(sb[k], escapeChar) && sb[k] != separator
    ensures RunsToPieces(s, i, endInclusive, sb, list, separator, escapeChar)
  {
    var st := Scanner(sb, list, 0, false, false, false, sb != []);
    assert sb + s[i..endInclusive + 1] == sb;
    PiecesAfter(sb, [], separator);
    assert sb + [] == sb;
    assert Pieces(sb, separator) == [sb];
    assert [sb][1..] == [];
    assert NonEmpty([sb]) == (if sb == [] then [] else [sb]);
    ExtractAsIs(sb, list);
    assert Run(s, i, endInclusive, st, separator, escapeChar) == Ok(st);
  }

  lemma {:induction false} PlainRunSeparator(s: JString, i: nat, endInclusive: int, sb: JString, list: seq<JString>, separator: CodeUnit, escapeChar: CodeUnit)
    requires i <= endInclusive < |s| && s[i] == separator
    requires IsPlainUnit(separator, escapeChar)
    requires forall k | i <= k <= endInclusive :: IsPlainUnit(s[k], escapeChar)
    requires forall k | 0 <= k < |sb| :: IsPlainUnit(sb[k], escapeChar) && sb[k] != separator
    ensures RunsToPieces(s, i, endInclusive, sb, list, separator, escapeChar)
    decreases endInclusive + 1 - i, 0
  {
    var st := Scanner(sb, list, 0, false, false, false, sb != []);
    var c := s[i];
    assert CodePointAt(s, i) == c;
    var rest := s[i + 1..endInclusive + 1];
    assert s[i..endInclusive + 1] == [c] + rest;
    PlainStep(st, c, separator, escapeChar);
    var next := Scanner([], Extract(sb, list), 0, false, false, false, false);
    Walk(s, i, endInclusive, st, next, separator, escapeChar);
    PlainRun(s, i + 1, endInclusive, [], Extract(sb, list), separator, escapeChar);
    assert [] + rest == rest;
    ExtractAsIs(sb, list);
    SeparatorPieces(sb, rest, list, separator);
  }

  lemma {:induction false} PlainRunUnit(s: JString, i: nat, endInclusive: int, sb: JString, list: seq<JString>, separator: CodeUnit, escapeChar: CodeUnit)
    requires i <= endInclusive < |s| && s[i] != separator
    requires IsPlainUnit(separator, escapeChar)
    requires forall k | i <= k <= endInclusive :: IsPlainUnit(s[k], escapeChar)
    requires forall k | 0 <= k < |sb| :: IsPlainUnit(sb[k], escapeChar) && sb[k] != separator
    ensures RunsToPieces(s, i, endInclusive, sb, list, separator, escapeChar)
    decreases endInclusive + 1 - i, 0
  {
    var st := Scanner(sb, list, 0, false, false, false, sb != []);
    var c := s[i];
    assert CodePointAt(s, i) == c;
    var rest := s[i + 1..endInclusive + 1];
    assert s[i..endInclusive + 1] == [c] + rest;
    PlainStep(st, c, separator, escapeChar);
    var next := Scanner(sb + [c], list, 0, false, false, false, true);
    Walk(s, i, endInclusive, st, next, separator, escapeChar);
    PlainAppend(sb, c, separator, escapeChar);
    PlainRun(s, i + 1, endInclusive, sb + [c], list, separator, escapeChar);
    UnitShift(s, i, endInclusive, sb, list, separator, escapeChar);
  }

  lemma PlainAppend(sb: JString, c: CodeUnit, separator: CodeUnit, escapeChar: CodeUnit)
    requires IsPlainUnit(c, escapeChar) && c != separator
    requires forall k | 0 <= k < |sb| :: IsPlainUnit(sb[k], escapeChar) && sb[k] != separator
    ensures forall k | 0 <= k < |sb + [c]| :: IsPlainUnit((sb + [c])[k], escapeChar) && (sb + [c])[k] != separator
  {
  }

  /** One unit moved from the text onto the buffer leaves the run to pieces as it was. */
  lemma UnitShift(s: JString, i: nat, endInclusive: int, sb: JString, list: seq<JString>, separator: CodeUnit, escapeChar: CodeUnit)
    requires i <= endInclusive < |s|
    requires Run(s, i, endInclusive, Scanner(sb, list, 0, false, false, false, sb != []), separator, escapeChar)
          == Run(s, i + 1, endInclusive, Scanner(sb + [s[i]], list, 0, false, false, false, true), separator, escapeChar)
    requires RunsToPieces(s, i + 1, endInclusive, sb + [s[i]], list, separator, escapeChar)
    ensures RunsToPieces(s, i, endInclusive, sb, list, separator, escapeChar)
  {
    assert Scanner(sb + [s[i]], list, 0, false, false, false, sb + [s[i]] != []) == Scanner(sb + [s[i]], list, 0, false, false, false, true);
    BufferSlice(sb, s, i, endInclusive + 1);
  }

  lemma BufferSlice(sb: JString, s: JString, i: nat, j: nat)
    requires i < j <= |s|
    ensures (sb + [s[i]]) + s[i + 1..j] == sb + s[i..j]
  {
    assert s[i..j] == [s[i]] + s[i + 1..j];
  }

  /** Between start and endInclusive over plain text, the elements are the non-empty pieces. */
  lemma {:induction false} PlainElements(s: JString, start: nat, endInclusive: int, separator: CodeUnit, escapeChar: CodeUnit)
    requires start <= endInclusive + 1 <= |s|
    requires IsPlainUnit(separator, escapeChar)
    requires forall k | start <= k <= endInclusive :: IsPlainUnit(s[k], escapeChar)
    ensures ElementsBetween(s, start, endInclusive, separator, escapeChar) == Ok(NonEmpty(Pieces(s[start..endInclusive + 1], separator)))
  {
    if start > endInclusive {
      assert s[start..endInclusive + 1] == [];
      assert NonEmpty(Pieces([], separator)) == [];
    } else {
      var empty: JString := [];
      var none: seq<JString> := [];
      var st := Scanner(empty, none, 0, false, false, false, empty != []);
      assert st == Initial;
      PlainRun(s, start, endInclusive, empty, none, separator, escapeChar);
      var t := s[start..endInclusive + 1];
      assert empty + t == t;
      assert none + NonEmpty(Pieces(t, separator)) == NonEmpty(Pieces(t, separator));
    }
  }

  /**
   * A text of plain code units, bare or in one matching pair of brackets,
   * is cut at every separator and the empty pieces are dropped.
   */
  lemma {:induction false} PlainSplit(t: JString, separator: CodeUnit, escapeChar: CodeUnit)
    requires IsPlainText(t, separator, escapeChar)
    ensures ParsedArray(Some(t), separator, escapeChar) == Ok(NonEmpty(Pieces(t, separator)))
  {
    if t == [] {
      assert NonEmpty([[]]) == [];
    } else {
      assert CodePointAt(t, 0) == t[0];
      assert CodePointAt(t, |t| - 1) == t[|t| - 1];
      UniversalStringTrim.NothingToTrim(t, Some(UniversalString.IsWhitespace), Some(UniversalString.IsWhitespace));
      PlainElements(t, 0, |t| - 1, separator, escapeChar);
      assert t[0..|t|] == t;
    }
  }

  /** A text in one matching pair of brackets, with no whitespace around them: the elements between the brackets. */
  lemma {:induction false} Bracketed(opener: CodeUnit, t: JString, closer: CodeUnit, separator: CodeUnit, escapeChar: CodeUnit)
    requires IsMatchingPair(opener, closer)
    ensures ParsedArray(Some([opener] + t + [closer]), separator, escapeChar)
         == ElementsBetween([opener] + t + [closer], 1, |t|, separator, escapeChar)
  {
    var s := [opener] + t + [closer];
    assert CodePointAt(s, 0) == opener;
    assert CodePointAt(s, |s| - 1) == closer;
    UniversalStringTrim.NothingToTrim(s, Some(UniversalString.IsWhitespace), Some(UniversalString.IsWhitespace));
  }

  /** The same, for a text whose first and last code units are a matching pair. */
  lemma {:induction false} BracketedText(s: JString, separator: CodeUnit, escapeChar: CodeUnit)
    requires |s| >= 2 && IsMatchingPair(s[0], s[|s| - 1])
    ensures ParsedArray(Some(s), separator, escapeChar) == ElementsBetween(s, 1, |s| - 2, separator, escapeChar)
  {
    var t := s[1..|s| - 1];
    assert s == [s[0]] + t + [s[|s| - 1]];
    Bracketed(s[0], t, s[|s| - 1], separator, escapeChar);
  }

  lemma {:induction false} BracketedPlainSplit(opener: CodeUnit, t: JString, closer: CodeUnit, separator: CodeUnit, escapeChar: CodeUnit)
    requires IsMatchingPair(opener, closer) && IsPlainText(t, separator, escapeChar)
    ensures ParsedArray(Some([opener] + t + [closer]), separator, escapeChar) == Ok(NonEmpty(Pieces(t, separator)))
  {
    var s := [opener] + t + [closer];
    Bracketed(opener, t, closer, separator, escapeChar);
    PlainElements(s, 1, |t|, separator, escapeChar);
    assert s[1..|t| + 1] == t;
  }

  /** A separator at depth 0 outside quotes moves a builder with clean ends into the list. */
  lemma {:induction false} WalkCut(s: JString, i: nat, endInclusive: int, st: Scanner, separator: CodeUnit, escapeChar: CodeUnit)
    requires i <= endInclusive < |s| && s[i] == separator && IsPlainUnit(separator, escapeChar)
    requires st.brackets == 0 && !st.escape && !st.inDoubleQuotes && !st.inSingleQuotes
    requires st.sb != [] && !IsJavaWhitespace(st.sb[0]) && !IsHighSurrogate(st.sb[0]) && !IsJavaWhitespace(st.sb[|st.sb| - 1])
    ensures Run(s, i, endInclusive, st, separator, escapeChar)
         == Run(s, i + 1, endInclusive, Scanner([], st.list + [st.sb], 0, false, false, false, false), separator, escapeChar)
  {
    assert CodePointAt(s, i) == s[i];
    PlainStep(st, separator, separator, escapeChar);
    ExtractAsIs(st.sb, st.list);
  }

  /** After the loop, with no open bracket, a builder with clean ends is the last element. */
  lemma {:induction false} FinishAsIs(st: Scanner)
    requires st.brackets == 0
    requires st.sb != [] && !IsJavaWhitespace(st.sb[0]) && !IsHighSurrogate(st.sb[0]) && !IsJavaWhitespace(st.sb[|st.sb| - 1])
    ensures Finish(st) == Ok(st.list + [st.sb])
  {
    ExtractAsIs(st.sb, st.list);
  }

  /** One turn of the loop at a code unit that is not a high surrogate, when it does not fail. */
  lemma {:induction false} Walk(s: JString, i: nat, endInclusive: int, st: Scanner, next: Scanner, separator: CodeUnit, escapeChar: CodeUnit)
    requires i <= endInclusive < |s| && !IsHighSurrogate(s[i])
    requires Step(st, s[i], separator, escapeChar) == Ok(next)
    ensures Run(s, i, endInclusive, st, separator, escapeChar) == Run(s, i + 1, endInclusive, next, separator, escapeChar)
  {
    assert CodePointAt(s, i) == s[i];
  }

  /**
   * One turn at a unit that is not a high surrogate, the escape character or
   * a quote, outside an escape and leading whitespace, that neither fails
   * nor cuts: the unit joins the builder and the count moves by Delta.
   */
  lemma {:induction false} WalkAppend(s: JString, i: nat, endInclusive: int, st: Scanner, separator: CodeUnit, escapeChar: CodeUnit)
    requires i <= endInclusive < |s| && !IsHighSurrogate(s[i])
    requires s[i] != escapeChar as int && s[i] != '"' as int && s[i] != '\'' as int
    requires !st.escape && (st.hasNonWhitespace || !IsJavaWhitespace(s[i]))
    requires st.brackets + Delta(s[i]) >= 0
    requires s[i] != separator as int || st.brackets + Delta(s[i]) > 0 || st.inDoubleQuotes || st.inSingleQuotes
    ensures Run(s, i, endInclusive, st, separator, escapeChar)
         == Run(s, i + 1, endInclusive, st.(sb := st.sb + [s[i]], brackets := st.brackets + Delta(s[i]), hasNonWhitespace := true), separator, escapeChar)
  {
    var next := st.(sb := st.sb + [s[i]], brackets := st.brackets + Delta(s[i]), hasNonWhitespace := true);
    assert Encode(s[i]) == [s[i]];
    assert Step(st, s[i], separator, escapeChar) == Ok(next);
    Walk(s, i, endInclusive, st, next, separator, escapeChar);
  }

  // ------------------------------------------- brackets and separators

  /** What one code point adds to the bracket count. */
  function Delta(c: int): (r: int)
    ensures IsOpener(c) ==> r == 1
    ensures IsCloser(c) ==> r == -1
    ensures !IsOpener(c) && !IsCloser(c) ==> r == 0
  {
    if IsOpener(c) then 1 else if IsCloser(c) then -1 else 0
  }

  /** Openers minus closers among the code units s[i..j). */
  function Balance(s: JString, i: nat, j: int): int
    requires j <= |s|
    decreases j - i
  {
    if j <= i then 0 else Delta(s[i]) + Balance(s, i + 1, j)
  }

  /** Some prefix of s[i..e] holds more closers than `base` plus its openers. */
  predicate DipsBelowZero(s: JString, i: nat, e: int, base: int)
    requires e < |s|
  {
    exists j | i <= j <= e + 1 :: base + Balance(s, i, j) < 0
  }

  /** One turn of the loop, outside an escape and not at the escape character: the count moves by Delta, and fails below 0. */
  lemma {:induction false} StepBrackets(st: Scanner, c: int, separator: CodeUnit, escapeChar: CodeUnit)
    requires IsCodePoint(c) && c != escapeChar as int && !st.escape && st.brackets >= 0
    ensures var r := Step(st, c, separator, escapeChar);
      && (r.Err? <==> st.brackets + Delta(c) < 0)
      && (r.Ok? ==> r.value.brackets == st.brackets + Delta(c) && !r.value.escape)
  {
  }

  /** A surrogate pair adds nothing to the count. */
  lemma {:induction false} PairBalance(s: JString, i: nat, j: int)
    requires IsPairAt(s, i) && i + 2 <= j <= |s|
    ensures Balance(s, i, j) == Balance(s, i + 2, j)
    ensures Balance(s, i, i + 1) == 0
  {
    assert Balance(s, i + 1, j) == Delta(s[i + 1]) + Balance(s, i + 2, j);
  }

  /**
   * The loop over text with no escape character: it fails exactly when some
   * prefix has more closers than the count it starts with plus its openers;
   * otherwise it ends with the count moved by the balance of the text.
   */
  lemma {:induction false} RunBrackets(s: JString, i: nat, e: int, st: Scanner, separator: CodeUnit, escapeChar: CodeUnit)
    requires i <= |s| && e < |s| && st.brackets >= 0 && !st.escape
    requires forall k | i <= k <= e :: s[k] != escapeChar as int
    ensures var r := Run(s, i, e, st, separator, escapeChar);
      && (r.Err? <==> DipsBelowZero(s, i, e, st.brackets))
      && (r.Ok? ==> r.value.brackets == st.brackets + Balance(s, i, e + 1) && !r.value.escape)
    decreases |s| - i
  {
    if i > e {
      assert !DipsBelowZero(s, i, e, st.brackets) by {
        forall j | i <= j <= e + 1 ensures st.brackets + Balance(s, i, j) >= 0 { }
      }
    } else {
      var c := CodePointAt(s, i);
      var n := i + CharCount(c);
      StepBrackets(st, c, separator, escapeChar);
      var next := Step(st, c, separator, escapeChar);
      if next.Err? {
        assert c == s[i];
        assert st.brackets + Balance(s, i, i + 1) < 0;
      } else {
        RunBrackets(s, n, e, next.value, separator, escapeChar);
        RunBracketsStep(s, i, e, st.brackets, c);
      }
    }
  }

  /** How the prefixes from i relate to those from the next code point. */
  lemma {:induction false} RunBracketsStep(s: JString, i: nat, e: int, base: int, c: int)
    requires i <= e < |s| && c == CodePointAt(s, i) && base >= 0 && base + Delta(c) >= 0
    ensures var n := i + CharCount(c);
      && (DipsBelowZero(s, i, e, base) <==> n <= |s| && DipsBelowZero(s, n, e, base + Delta(c)))
      && Balance(s, i, e + 1) == Delta(c) + Balance(s, n, e + 1)
  {
    var n := i + CharCount(c);
    if IsPairAt(s, i) {
      assert Delta(c) == 0;
      if i + 2 <= e + 1 {
        PairBalance(s, i, e + 1);
      }
      if DipsBelowZero(s, i, e, base) {
        var j :| i <= j <= e + 1 && base + Balance(s, i, j) < 0;
        assert j >= i + 2 by {
          if j == i + 1 {
            PairBalance(s, i, i + 2);
          }
        }
        PairBalance(s, i, j);
        assert base + Balance(s, n, j) < 0;
      }
      if n <= e + 1 && DipsBelowZero(s, n, e, base) {
        var j :| n <= j <= e + 1 && base + Balance(s, n, j) < 0;
        PairBalance(s, i, j);
        assert base + Balance(s, i, j) < 0;
      }
    } else {
      assert c == s[i];
      if DipsBelowZero(s, i, e, base) {
        var j :| i <= j <= e + 1 && base + Balance(s, i, j) < 0;
        assert j > i;
        assert base + Delta(c) + Balance(s, n, j) < 0;
      }
      if DipsBelowZero(s, n, e, base + Delta(c)) {
        var j :| n <= j <= e + 1 && base + Delta(c) + Balance(s, n, j) < 0;
        assert base + Balance(s, i, j) < 0;
      }
    }
  }

  /**
   * Between start and endInclusive, in text without the escape character,
   * the elements fail exactly when some prefix has more closers than
   * openers, or the text leaves a bracket open.
   */
  lemma {:induction false} ElementsBetweenBrackets(s: JString, start: nat, endInclusive: int, separator: CodeUnit, escapeChar: CodeUnit)
    requires start <= |s| && endInclusive < |s|
    requires forall k | start <= k <= endInclusive :: s[k] != escapeChar as int
    ensures ElementsBetween(s, start, endInclusive, separator, escapeChar).Err?
        <==> DipsBelowZero(s, start, endInclusive, 0) || Balance(s, start, endInclusive + 1) != 0
  {
    RunBrackets(s, start, endInclusive, Initial, separator, escapeChar);
  }

  /** The same for a whole text inside one matching pair of brackets. */
  lemma {:induction false} BracketedTextBrackets(s: JString, separator: CodeUnit, escapeChar: CodeUnit)
    requires |s| >= 2 && IsMatchingPair(s[0], s[|s| - 1])
    requires forall k | 1 <= k <= |s| - 2 :: s[k] != escapeChar as int
    ensures ParsedArray(Some(s), separator, escapeChar).Err?
        <==> DipsBelowZero(s, 1, |s| - 2, 0) || Balance(s, 1, |s| - 1) != 0
  {
    BracketedText(s, separator, escapeChar);
    ElementsBetweenBrackets(s, 1, |s| - 2, separator, escapeChar);
  }

  /**
   * A separator the loop reads outside an escape and past any leading
   * whitespace cuts the element exactly when it stands outside quotes at
   * depth 0; inside brackets or quotes it is kept in the builder and the
   * list is left as it was.
   */
  lemma {:induction false} SeparatorCutsOnlyOutside(st: Scanner, separator: CodeUnit, escapeChar: CodeUnit)
    requires separator != escapeChar && !IsOpener(separator) && !IsCloser(separator)
    requires separator != '"' as int && separator != '\'' as int
    requires !st.escape && st.brackets >= 0
    ensures !st.hasNonWhitespace && IsJavaWhitespace(separator) ==> Step(st, separator, separator, escapeChar) == Ok(st)
    ensures st.hasNonWhitespace || !IsJavaWhitespace(separator) ==>
      if st.brackets == 0 && !st.inDoubleQuotes && !st.inSingleQuotes then
        Step(st, separator, separator, escapeChar) == Ok(Scanner([], Extract(st.sb, st.list), 0, false, false, false, false))
      else
        Step(st, separator, separator, escapeChar) == Ok(st.(sb := st.sb + [separator], hasNonWhitespace := true))
  {
  }

  // ------------------------------------------------------- the method

  /** parseArray(CharSequence input, char arrayElementSeparator, char escapeChar). */
  method ParseArray(input: Option<JString>, separator: CodeUnit, escapeChar: CodeUnit) returns (r: Result<seq<JString>>)
    ensures r == ParsedArray(input, separator, escapeChar)
  {
    if input.None? || |input.value| == 0 {
      return Ok([]);
    }
    var s := input.value;
    var bounds := UniversalStringTrim.CalculateTrimBoundsOf(s, Some(UniversalString.IsWhitespace), Some(UniversalString.IsWhitespace));
    if IsEmpty(bounds) {
      return Ok([]);
    }
    var startInclusive, endInclusive := bounds.startInclusive, bounds.endExclusive - 1;
    var firstChar := CodePointAt(s, startInclusive);
    var lastChar := CodePointAt(s, endInclusive);
    if IsMatchingPair(firstChar, lastChar) {
      startInclusive := startInclusive + CharCount(firstChar);
      endInclusive := endInclusive - CharCount(lastChar);
    } else if IsOpener(firstChar) || IsCloser(lastChar) {
      return Err(IllegalArgument);
    }
    if startInclusive > endInclusive {
      return Ok([]);
    }
    r := Elements(s, startInclusive, endInclusive, separator, escapeChar);
  }

  /** The scanning loop and the checks after it. */
  method Elements(s: JString, start: nat, endInclusive: int, separator: CodeUnit, escapeChar: CodeUnit) returns (r: Result<seq<JString>>)
    requires start <= endInclusive < |s|
    ensures r == ElementsBetween(s, start, endInclusive, separator, escapeChar)
  {
    var sb: JString := [];
    var list: seq<JString> := [];
    var bracketsCount := 0;
    var escape, inDoubleQuotes, inSingleQuotes, hasNonWhitespace := false, false, false, false;
    var i := start;
    while i <= endInclusive
      invariant start <= i <= |s|
      invariant Run(s, i, endInclusive, Scanner(sb, list, bracketsCount, escape, inDoubleQuotes, inSingleQuotes, hasNonWhitespace), separator, escapeChar)
             == Run(s, start, endInclusive, Initial, separator, escapeChar)
      decreases |s| - i
    {
      var c := CodePointAt(s, i);
      ghost var before := Scanner(sb, list, bracketsCount, escape, inDoubleQuotes, inSingleQuotes, hasNonWhitespace);
      if !hasNonWhitespace && IsJavaWhitespace(c) {
      } else if c == escapeChar as int {
        if escape {
          sb := sb + [escapeChar];
          hasNonWhitespace := true;
        }
        escape := !escape;
      } else if escape {
        if c == 't' as int {
          sb := sb + ['\t' as int];
        } else if c == 'n' as int {
          sb := sb + ['\n' as int];
        } else if c == 'r' as int {
          sb := sb + ['\r' as int];
        } else if c == 'f' as int {
          sb := sb + [0x0C];
        } else if c == 'b' as int {
          sb := sb + [0x08];
        } else if c == separator as int {
          sb := sb + [separator];
        } else {
          sb := sb + (['\\' as int] + Encode(c));
        }
        escape := false;
        hasNonWhitespace := true;
      } else {
        if c == '"' as int {
          if !inSingleQuotes {
            inDoubleQuotes := !inDoubleQuotes;
          }
        } else if c == '\'' as int {
          if !inDoubleQuotes {
            inSingleQuotes := !inSingleQuotes;
          }
        } else if IsOpener(c) {
          bracketsCount := bracketsCount + 1;
        } else if IsCloser(c) {
          bracketsCount := bracketsCount - 1;
        }
        if bracketsCount < 0 {
          assert Step(before, c, separator, escapeChar) == Err(IllegalArgument);
          return Err(IllegalArgument);
        }
        if !inSingleQuotes && !inDoubleQuotes && bracketsCount == 0 && c == separator as int {
          list := Extract(sb, list);
          sb := [];
          hasNonWhitespace := false;
        } else {
          sb := sb + Encode(c);
          if !hasNonWhitespace && !IsJavaWhitespace(c) {
            hasNonWhitespace := true;
          }
        }
      }
      assert Step(before, c, separator, escapeChar)
          == Ok(Scanner(sb, list, bracketsCount, escape, inDoubleQuotes, inSingleQuotes, hasNonWhitespace));
      i := i + CharCount(c);
    }
    if bracketsCount != 0 {
      return Err(IllegalArgument);
    }
    if |sb| != 0 {
      var e := ExtractString(sb);
      if e != [] {
        list := list + [e];
      }
    }
    return Ok(list);
  }

  /** extractString on the builder: its text trimmed of Character.isWhitespace. */
  method ExtractString(sb: JString) returns (e: JString)
    ensures e == Extracted(sb)
  {
    e := UniversalStringTrim.Trim(Some(sb), true, true, Some(IsJavaWhitespace));
  }
}

// Worked cases of parseArray with ',' as separator and '\' as escape character.
module UniversalStringArrayExamples {
  import opened JavaText
  import opened UniversalStringArray
  import UniversalString
  import UniversalStringTrim

  const Comma: CodeUnit := 44
  const Backslash: CodeUnit := 92

  const EmptyPieceInput: JString := [91, 97, 44, 44, 98, 93]

  lemma {:induction false} EmptyPiecePieces()
    ensures NonEmpty(Pieces([97, 44, 44, 98], Comma)) == [[97], [98]]
  {
    var b: JString := [98];
    var none: JString := [];
    assert b[1..] == none && Pieces(none, Comma) == [none];
    assert b + none == b && [b] + [none][1..] == [b];
    assert Pieces(b, Comma) == [b];
    var sb: JString := [44, 98];
    assert sb[1..] == b;
    assert Pieces(sb, Comma) == [none, b];
    var ssb: JString := [44, 44, 98];
    assert ssb[1..] == sb;
    assert Pieces(ssb, Comma) == [none, none, b];
    var assb: JString := [97, 44, 44, 98];
    assert assb[1..] == ssb;
    assert [97] + none == [97] && [[97]] + [none, none, b][1..] == [[97], none, b];
    assert Pieces(assb, Comma) == [[97], none, b];
    assert NonEmpty([[98]]) == [[98]];
    assert NonEmpty([[], [98]]) == [[98]];
  }

  /** "[a,,b]": the empty piece between two separators is dropped. */
  lemma {:induction false} EmptyPieceDropped()
    ensures ParsedArray(Some(EmptyPieceInput), Comma, Backslash) == Ok([[97], [98]])
  {
    var t: JString := [97, 44, 44, 98];
    assert IsPlainText(t, Comma, Backslash);
    assert EmptyPieceInput == [91] + t + [93];
    BracketedPlainSplit(91, t, 93, Comma, Backslash);
    EmptyPiecePieces();
  }

  const NestedInput: JString := [91, 97, 40, 98, 44, 99, 41, 44, 100, 93]

  lemma {:induction false} NestedBracketsStayTogetherRun1()
    ensures Run(NestedInput, 1, 8, Initial, Comma, Backslash) == Run(NestedInput, 4, 8, Scanner([97, 40, 98], [], 1, false, false, false, true), Comma, Backslash)
  {
    NestedWalk1();
    NestedWalk2();
    NestedWalk3();
  }

  lemma {:induction false} NestedBracketsStayTogetherRun2()
    ensures Run(NestedInput, 4, 8, Scanner([97, 40, 98], [], 1, false, false, false, true), Comma, Backslash) == Run(NestedInput, 7, 8, Scanner([97, 40, 98, 44, 99, 41], [], 0, false, false, false, true), Comma, Backslash)
  {
    NestedWalk4();
    NestedWalk5();
    NestedWalk6();
  }

  /** The unit at 1 of NestedInput joins the builder. */
  lemma {:induction false} NestedWalk1()
    ensures Run(NestedInput, 1, 8, Initial, Comma, Backslash) == Run(NestedInput, 2, 8, Scanner([97], [], 0, false, false, false, true), Comma, Backslash)
  {
    var st := Initial;
    WalkAppend(NestedInput, 1, 8, st, Comma, Backslash);
    assert st.sb + [97] == Scanner([97], [], 0, false, false, false, true).sb;
  }

  /** The unit at 2 of NestedInput joins the builder. */
  lemma {:induction false} NestedWalk2()
    ensures Run(NestedInput, 2, 8, Scanner([97], [], 0, false, false, false, true), Comma, Backslash) == Run(NestedInput, 3, 8, Scanner([97, 40], [], 1, false, false, false, true), Comma, Backslash)
  {
    var st := Scanner([97], [], 0, false, false, false, true);
    WalkAppend(NestedInput, 2, 8, st, Comma, Backslash);
    assert st.sb + [40] == Scanner([97, 40], [], 1, false, false, false, true).sb;
  }

  /** The unit at 3 of NestedInput joins the builder. */
  lemma {:induction false} NestedWalk3()
    ensures Run(NestedInput, 3, 8, Scanner([97, 40], [], 1, false, false, false, true), Comma, Backslash) == Run(NestedInput, 4, 8, Scanner([97, 40, 98], [], 1, false, false, false, true), Comma, Backslash)
  {
    var st := Scanner([97, 40], [], 1, false, false, false, true);
    WalkAppend(NestedInput, 3, 8, st, Comma, Backslash);
    assert st.sb + [98] == Scanner([97, 40, 98], [], 1, false, false, false, true).sb;
  }

  /** The unit at 4 of NestedInput joins the builder. */
  lemma {:induction false} NestedWalk4()
    ensures Run(NestedInput, 4, 8, Scanner([97, 40, 98], [], 1, false, false, false, true), Comma, Backslash) == Run(NestedInput, 5, 8, Scanner([97, 40, 98, 44], [], 1, false, false, false, true), Comma, Backslash)
  {
    var st := Scanner([97, 40, 98], [], 1, false, false, false, true);
    WalkAppend(NestedInput, 4, 8, st, Comma, Backslash);
    assert st.sb + [44] == Scanner([97, 40, 98, 44], [], 1, false, false, false, true).sb;
  }

  /** The unit at 5 of NestedInput joins the builder. */
  lemma {:induction false} NestedWalk5()
    ensures Run(NestedInput, 5, 8, Scanner([97, 40, 98, 44], [], 1, false, false, false, true), Comma, Backslash) == Run(NestedInput, 6, 8, Scanner([97, 40, 98, 44, 99], [], 1, false, false, false, true), Comma, Backslash)
  {
    var st := Scanner([97, 40, 98, 44], [], 1, false, false, false, true);
    WalkAppend(NestedInput, 5, 8, st, Comma, Backslash);
    assert st.sb + [99] == Scanner([97, 40, 98, 44, 99], [], 1, false, false, false, true).sb;
  }

  /** The unit at 6 of NestedInput joins the builder. */
  lemma {:induction false} NestedWalk6()
    ensures Run(NestedInput, 6, 8, Scanner([97, 40, 98, 44, 99], [], 1, false, false, false, true), Comma, Backslash) == Run(NestedInput, 7, 8, Scanner([97, 40, 98, 44, 99, 41], [], 0, false, false, false, true), Comma, Backslash)
  {
    var st := Scanner([97, 40, 98, 44, 99], [], 1, false, false, false, true);
    WalkAppend(NestedInput, 6, 8, st, Comma, Backslash);
    assert st.sb + [41] == Scanner([97, 40, 98, 44, 99, 41], [], 0, false, false, false, true).sb;
  }

  lemma {:induction false} NestedBracketsStayTogetherRun3()
    ensures Run(NestedInput, 7, 8, Scanner([97, 40, 98, 44, 99, 41], [], 0, false, false, false, true), Comma, Backslash) == Ok(Scanner([100], [[97, 40, 98, 44, 99, 41]], 0, false, false, false, true))
  {
    NestedCut7();
    NestedLast8();
  }

  /** The comma at 7 of NestedInput, at depth 0, cuts the first element. */
  lemma {:induction false} NestedCut7()
    ensures Run(NestedInput, 7, 8, Scanner([97, 40, 98, 44, 99, 41], [], 0, false, false, false, true), Comma, Backslash)
         == Run(NestedInput, 8, 8, Scanner([], [[97, 40, 98, 44, 99, 41]], 0, false, false, false, false), Comma, Backslash)
  {
    var st6 := Scanner([97, 40, 98, 44, 99, 41], [], 0, false, false, false, true);
    WalkCut(NestedInput, 7, 8, st6, Comma, Backslash);
    assert st6.list + [st6.sb] == [[97, 40, 98, 44, 99, 41]];
  }

  /** The last unit of NestedInput before the closing bracket starts the next element. */
  lemma {:induction false} NestedLast8()
    ensures Run(NestedInput, 8, 8, Scanner([], [[97, 40, 98, 44, 99, 41]], 0, false, false, false, false), Comma, Backslash)
         == Ok(Scanner([100], [[97, 40, 98, 44, 99, 41]], 0, false, false, false, true))
  {
    var st7 := Scanner([], [[97, 40, 98, 44, 99, 41]], 0, false, false, false, false);
    var st8 := Scanner([100], [[97, 40, 98, 44, 99, 41]], 0, false, false, false, true);
    assert st7.sb + [100] == st8.sb;
    assert Encode(100) == [100];
    Walk(NestedInput, 8, 8, st7, st8, Comma, Backslash);
    assert Run(NestedInput, 9, 8, st8, Comma, Backslash) == Ok(st8);
  }

  lemma {:induction false} NestedBracketsStayTogetherElements()
    ensures ElementsBetween(NestedInput, 1, 8, Comma, Backslash) == Ok([[97, 40, 98, 44, 99, 41], [100]])
  {
    NestedRun();
    var st := Scanner([100], [[97, 40, 98, 44, 99, 41]], 0, false, false, false, true);
    FinishAsIs(st);
    assert st.list + [st.sb] == [[97, 40, 98, 44, 99, 41], [100]];
  }

  /** The whole loop over the inside of NestedInput. */
  lemma {:induction false} NestedRun()
    ensures Run(NestedInput, 1, 8, Initial, Comma, Backslash) == Ok(Scanner([100], [[97, 40, 98, 44, 99, 41]], 0, false, false, false, true))
  {
    NestedBracketsStayTogetherRun1();
    NestedBracketsStayTogetherRun2();
    NestedBracketsStayTogetherRun3();
  }

  /** "[a(b,c),d]": a separator inside nested brackets does not cut. */
  lemma {:induction false} NestedBracketsStayTogether()
    ensures ParsedArray(Some(NestedInput), Comma, Backslash) == Ok([[97, 40, 98, 44, 99, 41], [100]])
  {
    BracketedText(NestedInput, Comma, Backslash);
    NestedBracketsStayTogetherElements();
  }

  const QuotedInput: JString := [91, 34, 97, 44, 98, 34, 44, 99, 93]

  lemma {:induction false} QuotedSeparatorKeptRun1()
    ensures Run(QuotedInput, 1, 7, Initial, Comma, Backslash) == Run(QuotedInput, 4, 7, Scanner([34, 97, 44], [], 0, false, true, false, true), Comma, Backslash)
  {
    QuotedWalk1();
    QuotedWalk2();
    QuotedWalk3();
  }

  lemma {:induction false} QuotedSeparatorKeptRun2()
    ensures Run(QuotedInput, 4, 7, Scanner([34, 97, 44], [], 0, false, true, false, true), Comma, Backslash) == Run(QuotedInput, 7, 7, Scanner([], [[34, 97, 44, 98, 34]], 0, false, false, false, false), Comma, Backslash)
  {
    QuotedWalk4();
    QuotedWalk5();
    QuotedCut6();
  }

  /** The unit at 1 of QuotedInput joins the builder. */
  lemma {:induction false} QuotedWalk1()
    ensures Run(QuotedInput, 1, 7, Initial, Comma, Backslash) == Run(QuotedInput, 2, 7, Scanner([34], [], 0, false, true, false, true), Comma, Backslash)
  {
    var st := Initial;
    var st' := Scanner([34], [], 0, false, true, false, true);
    assert st.sb + [34] == st'.sb;
    assert Encode(34) == [34];
    Walk(QuotedInput, 1, 7, st, st', Comma, Backslash);
  }

  /** The unit at 2 of QuotedInput joins the builder. */
  lemma {:induction false} QuotedWalk2()
    ensures Run(QuotedInput, 2, 7, Scanner([34], [], 0, false, true, false, true), Comma, Backslash) == Run(QuotedInput, 3, 7, Scanner([34, 97], [], 0, false, true, false, true), Comma, Backslash)
  {
    var st := Scanner([34], [], 0, false, true, false, true);
    var st' := Scanner([34, 97], [], 0, false, true, false, true);
    assert st.sb + [97] == st'.sb;
    assert Encode(97) == [97];
    Walk(QuotedInput, 2, 7, st, st', Comma, Backslash);
  }

  /** The unit at 3 of QuotedInput joins the builder. */
  lemma {:induction false} QuotedWalk3()
    ensures Run(QuotedInput, 3, 7, Scanner([34, 97], [], 0, false, true, false, true), Comma, Backslash) == Run(QuotedInput, 4, 7, Scanner([34, 97, 44], [], 0, false, true, false, true), Comma, Backslash)
  {
    var st := Scanner([34, 97], [], 0, false, true, false, true);
    var st' := Scanner([34, 97, 44], [], 0, false, true, false, true);
    assert st.sb + [44] == st'.sb;
    assert Encode(44) == [44];
    Walk(QuotedInput, 3, 7, st, st', Comma, Backslash);
  }

  /** The unit at 4 of QuotedInput joins the builder. */
  lemma {:induction false} QuotedWalk4()
    ensures Run(QuotedInput, 4, 7, Scanner([34, 97, 44], [], 0, false, true, false, true), Comma, Backslash) == Run(QuotedInput, 5, 7, Scanner([34, 97, 44, 98], [], 0, false, true, false, true), Comma, Backslash)
  {
    var st := Scanner([34, 97, 44], [], 0, false, true, false, true);
    var st' := Scanner([34, 97, 44, 98], [], 0, false, true, false, true);
    assert st.sb + [98] == st'.sb;
    assert Encode(98) == [98];
    Walk(QuotedInput, 4, 7, st, st', Comma, Backslash);
  }

  /** The unit at 5 of QuotedInput joins the builder. */
  lemma {:induction false} QuotedWalk5()
    ensures Run(QuotedInput, 5, 7, Scanner([34, 97, 44, 98], [], 0, false, true, false, true), Comma, Backslash) == Run(QuotedInput, 6, 7, Scanner([34, 97, 44, 98, 34], [], 0, false, false, false, true), Comma, Backslash)
  {
    var st := Scanner([34, 97, 44, 98], [], 0, false, true, false, true);
    var st' := Scanner([34, 97, 44, 98, 34], [], 0, false, false, false, true);
    assert st.sb + [34] == st'.sb;
    assert Encode(34) == [34];
    Walk(QuotedInput, 5, 7, st, st', Comma, Backslash);
  }

  /** The comma at 6 of QuotedInput, after the closing quote, cuts the first element. */
  lemma {:induction false} QuotedCut6()
    ensures Run(QuotedInput, 6, 7, Scanner([34, 97, 44, 98, 34], [], 0, false, false, false, true), Comma, Backslash) == Run(QuotedInput, 7, 7, Scanner([], [[34, 97, 44, 98, 34]], 0, false, false, false, false), Comma, Backslash)
  {
    var st := Scanner([34, 97, 44, 98, 34], [], 0, false, false, false, true);
    WalkCut(QuotedInput, 6, 7, st, Comma, Backslash);
    assert st.list + [st.sb] == [[34, 97, 44, 98, 34]];
  }

  lemma {:induction false} QuotedSeparatorKeptRun3()
    ensures Run(QuotedInput, 7, 7, Scanner([], [[34, 97, 44, 98, 34]], 0, false, false, false, false), Comma, Backslash) == Ok(Scanner([99], [[34, 97, 44, 98, 34]], 0, false, false, false, true))
  {
    var st6 := Scanner([], [[34, 97, 44, 98, 34]], 0, false, false, false, false);
    var st7 := Scanner([99], [[34, 97, 44, 98, 34]], 0, false, false, false, true);
    assert st6.sb + [99] == st7.sb;
    assert Encode(99) == [99];
    Walk(QuotedInput, 7, 7, st6, st7, Comma, Backslash);
    assert Run(QuotedInput, 8, 7, st7, Comma, Backslash) == Ok(st7);
  }

  lemma {:induction false} QuotedSeparatorKeptElements()
    ensures ElementsBetween(QuotedInput, 1, 7, Comma, Backslash) == Ok([[34, 97, 44, 98, 34], [99]])
  {
    QuotedRun();
    var st := Scanner([99], [[34, 97, 44, 98, 34]], 0, false, false, false, true);
    FinishAsIs(st);
    assert st.list + [st.sb] == [[34, 97, 44, 98, 34], [99]];
  }

  /** The whole loop over the inside of QuotedInput. */
  lemma {:induction false} QuotedRun()
    ensures Run(QuotedInput, 1, 7, Initial, Comma, Backslash) == Ok(Scanner([99], [[34, 97, 44, 98, 34]], 0, false, false, false, true))
  {
    QuotedSeparatorKeptRun1();
    QuotedSeparatorKeptRun2();
    QuotedSeparatorKeptRun3();
  }

  /** "[\"a,b\",c]": a separator inside double quotes does not cut, and the quotes are kept. */
  lemma {:induction false} QuotedSeparatorKept()
    ensures ParsedArray(Some(QuotedInput), Comma, Backslash) == Ok([[34, 97, 44, 98, 34], [99]])
  {
    BracketedText(QuotedInput, Comma, Backslash);
    QuotedSeparatorKeptElements();
  }

  const EscapedInput: JString := [91, 97, 92, 44, 98, 93]

  lemma {:induction false} EscapedSeparatorRun1()
    ensures Run(EscapedInput, 1, 4, Initial, Comma, Backslash) == Run(EscapedInput, 4, 4, Scanner([97, 44], [], 0, false, false, false, true), Comma, Backslash)
  {
    var st0 := Initial;
    var st1 := Scanner([97], [], 0, false, false, false, true);
    assert st0.sb + [97] == st1.sb;
    assert Encode(97) == [97];
    Walk(EscapedInput, 1, 4, st0, st1, Comma, Backslash);
    var st2 := Scanner([97], [], 0, true, false, false, true);
    Walk(EscapedInput, 2, 4, st1, st2, Comma, Backslash);
    var st3 := Scanner([97, 44], [], 0, false, false, false, true);
    assert st2.sb + [44] == st3.sb;
    Walk(EscapedInput, 3, 4, st2, st3, Comma, Backslash);
  }

  lemma {:induction false} EscapedSeparatorRun2()
    ensures Run(EscapedInput, 4, 4, Scanner([97, 44], [], 0, false, false, false, true), Comma, Backslash) == Ok(Scanner([97, 44, 98], [], 0, false, false, false, true))
  {
    var st3 := Scanner([97, 44], [], 0, false, false, false, true);
    var st4 := Scanner([97, 44, 98], [], 0, false, false, false, true);
    assert st3.sb + [98] == st4.sb;
    assert Encode(98) == [98];
    Walk(EscapedInput, 4, 4, st3, st4, Comma, Backslash);
    assert Run(EscapedInput, 5, 4, st4, Comma, Backslash) == Ok(st4);
  }

  lemma {:induction false} EscapedSeparatorElements()
    ensures ElementsBetween(EscapedInput, 1, 4, Comma, Backslash) == Ok([[97, 44, 98]])
  {
    EscapedSeparatorRun1();
    EscapedSeparatorRun2();
    var st := Scanner([97, 44, 98], [], 0, false, false, false, true);
    FinishAsIs(st);
    assert st.list + [st.sb] == [st.sb];
  }

  /** "[a\\,b]": an escaped separator is kept as a plain separator. */
  lemma {:induction false} EscapedSeparator()
    ensures ParsedArray(Some(EscapedInput), Comma, Backslash) == Ok([[97, 44, 98]])
  {
    BracketedText(EscapedInput, Comma, Backslash);
    EscapedSeparatorElements();
  }

  const UnclosedQuoteInput: JString := [91, 34, 97, 44, 98, 93]

  lemma {:induction false} UnclosedQuoteAcceptedRun1()
    ensures Run(UnclosedQuoteInput, 1, 4, Initial, Comma, Backslash) == Run(UnclosedQuoteInput, 4, 4, Scanner([34, 97, 44], [], 0, false, true, false, true), Comma, Backslash)
  {
    var st0 := Initial;
    var st1 := Scanner([34], [], 0, false, true, false, true);
    assert st0.sb + [34] == st1.sb;
    assert Encode(34) == [34];
    Walk(UnclosedQuoteInput, 1, 4, st0, st1, Comma, Backslash);
    var st2 := Scanner([34, 97], [], 0, false, true, false, true);
    assert st1.sb + [97] == st2.sb;
    assert Encode(97) == [97];
    Walk(UnclosedQuoteInput, 2, 4, st1, st2, Comma, Backslash);
    var st3 := Scanner([34, 97, 44], [], 0, false, true, false, true);
    assert st2.sb + [44] == st3.sb;
    assert Encode(44) == [44];
    Walk(UnclosedQuoteInput, 3, 4, st2, st3, Comma, Backslash);
  }

  lemma {:induction false} UnclosedQuoteAcceptedRun2()
    ensures Run(UnclosedQuoteInput, 4, 4, Scanner([34, 97, 44], [], 0, false, true, false, true), Comma, Backslash) == Ok(Scanner([34, 97, 44, 98], [], 0, false, true, false, true))
  {
    var st3 := Scanner([34, 97, 44], [], 0, false, true, false, true);
    var st4 := Scanner([34, 97, 44, 98], [], 0, false, true, false, true);
    assert st3.sb + [98] == st4.sb;
    assert Encode(98) == [98];
    Walk(UnclosedQuoteInput, 4, 4, st3, st4, Comma, Backslash);
    assert Run(UnclosedQuoteInput, 5, 4, st4, Comma, Backslash) == Ok(st4);
  }

  lemma {:induction false} UnclosedQuoteAcceptedElements()
    ensures ElementsBetween(UnclosedQuoteInput, 1, 4, Comma, Backslash) == Ok([[34, 97, 44, 98]])
  {
    UnclosedQuoteAcceptedRun1();
    UnclosedQuoteAcceptedRun2();
    var st := Scanner([34, 97, 44, 98], [], 0, false, true, false, true);
    FinishAsIs(st);
    assert st.list + [st.sb] == [st.sb];
  }

  /** "[\"a,b]": an unclosed double quote is not an error; the rest of the text is one element. */
  lemma {:induction false} UnclosedQuoteAccepted()
    ensures ParsedArray(Some(UnclosedQuoteInput), Comma, Backslash) == Ok([[34, 97, 44, 98]])
  {
    BracketedText(UnclosedQuoteInput, Comma, Backslash);
    UnclosedQuoteAcceptedElements();
  }

  const SurplusCloserInput: JString := [91, 97, 41, 93]

  lemma {:induction false} MismatchedCloserRun1()
    ensures Run(SurplusCloserInput, 1, 2, Initial, Comma, Backslash) == Run(SurplusCloserInput, 2, 2, Scanner([97], [], 0, false, false, false, true), Comma, Backslash)
  {
    var st0 := Initial;
    var st1 := Scanner([97], [], 0, false, false, false, true);
    assert st0.sb + [97] == st1.sb;
    assert Encode(97) == [97];
    Walk(SurplusCloserInput, 1, 2, st0, st1, Comma, Backslash);
  }

  lemma {:induction false} MismatchedCloserRun2()
    ensures Run(SurplusCloserInput, 2, 2, Scanner([97], [], 0, false, false, false, true), Comma, Backslash) == Err(IllegalArgument)
  {
    var st := Scanner([97], [], 0, false, false, false, true);
    assert CodePointAt(SurplusCloserInput, 2) == 41;
    assert Step(st, 41, Comma, Backslash) == Err(IllegalArgument);
  }

  lemma {:induction false} MismatchedCloserElements()
    ensures ElementsBetween(SurplusCloserInput, 1, 2, Comma, Backslash) == Err(IllegalArgument)
  {
    MismatchedCloserRun1();
    MismatchedCloserRun2();
  }

  /** "[a)]": the closer brings the bracket count below zero. */
  lemma {:induction false} MismatchedCloser()
    ensures ParsedArray(Some(SurplusCloserInput), Comma, Backslash) == Err(IllegalArgument)
  {
    BracketedText(SurplusCloserInput, Comma, Backslash);
    MismatchedCloserElements();
  }

  const UnclosedOpenerInput: JString := [91, 97, 40, 93]

  lemma {:induction false} UnclosedOpenerRun1()
    ensures Run(UnclosedOpenerInput, 1, 2, Initial, Comma, Backslash) == Ok(Scanner([97, 40], [], 1, false, false, false, true))
  {
    var st0 := Initial;
    var st1 := Scanner([97], [], 0, false, false, false, true);
    assert st0.sb + [97] == st1.sb;
    assert Encode(97) == [97];
    Walk(UnclosedOpenerInput, 1, 2, st0, st1, Comma, Backslash);
    var st2 := Scanner([97, 40], [], 1, false, false, false, true);
    assert st1.sb + [40] == st2.sb;
    assert Encode(40) == [40];
    Walk(UnclosedOpenerInput, 2, 2, st1, st2, Comma, Backslash);
    assert Run(UnclosedOpenerInput, 3, 2, st2, Comma, Backslash) == Ok(st2);
  }

  lemma {:induction false} UnclosedOpenerElements()
    ensures ElementsBetween(UnclosedOpenerInput, 1, 2, Comma, Backslash) == Err(IllegalArgument)
  {
    UnclosedOpenerRun1();
  }

  /** "[a(]": the bracket count is not zero after the loop. */
  lemma {:induction false} UnclosedOpener()
    ensures ParsedArray(Some(UnclosedOpenerInput), Comma, Backslash) == Err(IllegalArgument)
  {
    BracketedText(UnclosedOpenerInput, Comma, Backslash);
    UnclosedOpenerElements();
  }

  /** "a]": a closer without its opener. */
  lemma {:induction false} OneSidedBracket()
    ensures ParsedArray(Some([97, 93]), Comma, Backslash) == Err(IllegalArgument)
  {
    var s: JString := [97, 93];
    assert CodePointAt(s, 0) == 97 && CodePointAt(s, 1) == 93;
    UniversalStringTrim.NothingToTrim(s, Some(UniversalString.IsWhitespace), Some(UniversalString.IsWhitespace));
  }
}
