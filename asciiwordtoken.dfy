// AsciiWordToken: an identifier split into its words, with a hash that
// ignores letter case and the '-'/'_' separators, rendered back in camel,
// underscore or kebab style.

module AsciiWordToken {
  import opened JavaText

  /** The style a factory records for toString. */
  datatype Format =
    | UpperCamelCase | LowerCamelCase
    | UpperUnderLine | LowerUnderLine
    | UpperKebabCase | LowerKebabCase

  /**
   * An immutable token: its words, the cached hash (the bit pattern of a
   * Java int) and the style recorded by the factory (None for plain `of`).
   */
  datatype Token = Token(parts: seq<JString>, hash: Bits32, format: Option<Format>)
  {
    /** What holds of every token the factories build (OfIsValid). */
    predicate Valid()
    {
      forall k | 0 <= k < |parts| :: IsSplitPart(parts[k])
    }
  }

  /**
   * The shared empty token, with the hash of an empty character stream, so
   * that it agrees with every other token without words.
   */
  const Empty: Token := Token([], 1, None)

  /** EMPTY as the library declares it: with hash 0. */
  const EmptyAsWritten: Token := Token([], 0, None)

  /** The argument of equals(Object). */
  datatype Object = Null | Text(text: JString) | WordToken(token: Token) | Foreign

  // ------------------------------------------------------------ characters

  /** The characters that make up words and enter the hash. */
  predicate IsWordChar(c: int)
  {
    c == '$' as int || IsAsciiDigit(c) || IsAsciiLetter(c)
  }

  /** The characters asciiStream lets through. */
  predicate IsTokenChar(c: int)
  {
    IsWordChar(c) || c == '_' as int || c == '-' as int
  }

  /** The characters that close a word in parts. */
  predicate IsDelimiter(c: int)
  {
    c == '-' as int || c == '_' as int || c == '&' as int
  }

  predicate IsUpperOrDigit(c: int) { IsAsciiUpper(c) || IsAsciiDigit(c) }

  /** A stored word: non-empty, of word characters, with '$' only in front. */
  predicate IsSplitPart(p: JString)
  {
    && p != []
    && (forall k | 0 <= k < |p| :: IsWordChar(p[k]))
    && (forall k | 0 < k < |p| :: p[k] != '$' as int)
  }

  const Hyphen: JString := ['-' as int]

  const Underscore: JString := ['_' as int]

  // ----------------------------------------------------------- asciiStream

  /**
   * asciiStream: the code points of `s`, or IllegalArgumentException at the
   * first one outside `$ _ - 0-9 a-z A-Z` (AsciiStreamDecodes relates this
   * to the decoded code points).
   */
  function AsciiStream(s: JString): Result<JString>
  {
    if forall k | 0 <= k < |s| :: IsTokenChar(s[k]) then Ok(s) else Err(IllegalArgument)
  }

  // ------------------------------------------------------------------ hash

  /** The word characters of `s`, in order. */
  function WordChars(s: JString): (r: JString)
    ensures |r| <= |s|
    ensures forall k | 0 <= k < |r| :: IsWordChar(r[k])
    decreases |s|
  {
    if s == [] then []
    else WordChars(s[..|s| - 1]) + (if IsWordChar(s[|s| - 1]) then [s[|s| - 1]] else [])
  }

  /** The Java hash of a sequence, starting at 1: `h = 31 * h + c` for each `c`. */
  function FoldHash(xs: seq<int>): Bits32
    decreases |xs|
  {
    if xs == [] then 1 else HashStep(FoldHash(xs[..|xs| - 1]), xs[|xs| - 1])
  }

  /** The token hash: the Java hash of the lower-cased word characters. */
  function Hash(cps: JString): Bits32
  {
    FoldHash(LowerAll(WordChars(cps)))
  }

  /** hashcode(int[]) */
  method HashCode(cps: JString) returns (h: Bits32)
    ensures h == Hash(cps)
  {
    h := 1;
    var i := 0;
    while i < |cps|
      invariant 0 <= i <= |cps|
      invariant h == Hash(cps[..i])
    {
      var v := cps[i];
      if IsWordChar(v) {
        h := HashStep(h, v + if IsAsciiUpper(v) then 32 else 0);
      }
      assert cps[..i + 1] == cps[..i] + [v];
      HashSnoc(cps[..i], v);
      i := i + 1;
    }
    assert cps[..|cps|] == cps;
  }

  lemma {:induction false} HashSnoc(s: JString, v: CodeUnit)
    ensures Hash(s + [v]) == if IsWordChar(v) then HashStep(Hash(s), ToLower(v)) else Hash(s)
  {
    assert (s + [v])[..|s|] == s;
    var w := WordChars(s);
    if IsWordChar(v) {
      assert LowerAll(w + [v]) == LowerAll(w) + [ToLower(v)];
      assert (LowerAll(w) + [ToLower(v)])[..|w|] == LowerAll(w);
    } else {
      assert w + [] == w;
    }
  }

  // ----------------------------------------------------------------- parts

  /** A completed word joins the list; an empty builder adds nothing. */
  function Flush(list: seq<JString>, sb: JString): seq<JString>
  {
    if sb != [] then list + [sb] else list
  }

  /** The end of the run of upper-case letters and digits that starts at `j`. */
  function RunEnd(cps: JString, j: nat): (r: nat)
    requires j <= |cps|
    ensures j <= r <= |cps|
    ensures forall m | j <= m < r :: IsUpperOrDigit(cps[m])
    ensures r < |cps| ==> !IsUpperOrDigit(cps[r])
    decreases |cps| - j
  {
    if j < |cps| && IsUpperOrDigit(cps[j]) then RunEnd(cps, j + 1) else j
  }

  /** The characters parts accepts: separators and word characters. */
  predicate IsPartChar(c: int) { IsDelimiter(c) || IsWordChar(c) }

  /**
   * One turn of the loop of parts on the accepted character at `i`: the
   * index it resumes at, the finished words and the word under
   * construction. An upper-case letter or '$' starts a word that takes the
   * run of upper-case letters and digits after it, except that the run's
   * last character is left to start the next word when a lower-case letter
   * follows.
   */
  function Turn(cps: JString, i: nat, list: seq<JString>, sb: JString): (r: (nat, seq<JString>, JString))
    requires i < |cps| && IsPartChar(cps[i])
    ensures i < r.0 <= |cps|
    ensures forall m | i < m < r.0 :: IsUpperOrDigit(cps[m])
    ensures IsDelimiter(cps[i]) ==> r == (i + 1, Flush(list, sb), [])
    ensures IsAsciiLower(cps[i]) || IsAsciiDigit(cps[i]) ==> r == (i + 1, list, sb + [cps[i]])
    ensures IsAsciiUpper(cps[i]) || cps[i] == '$' as int ==>
      r.0 <= RunEnd(cps, i + 1) && r.1 == Flush(list, sb) && r.2 == cps[i..r.0]
  {
    var c := cps[i];
    if IsDelimiter(c) then (i + 1, Flush(list, sb), [])
    else if IsAsciiLower(c) || IsAsciiDigit(c) then (i + 1, list, sb + [c])
    else
      var j := RunEnd(cps, i + 1);
      assert [c] + cps[i + 1..j] == cps[i..j];
      assert j > i + 1 ==> [c] + cps[i + 1..j - 1] == cps[i..j - 1];
      if j > i + 1 then
        if j < |cps| && IsAsciiLower(cps[j]) then (j - 1, Flush(list, sb), [c] + cps[i + 1..j - 1])
        else (j, Flush(list, sb), [c] + cps[i + 1..j])
      else (i + 1, Flush(list, sb), [c])
  }

  /** The loop of parts from index `i`, with the finished words `list` and the word `sb` under construction. */
  function SplitFrom(cps: JString, i: nat, list: seq<JString>, sb: JString): (r: Result<seq<JString>>)
    requires i <= |cps|
    ensures r.Err? ==> r.error == IllegalArgument && exists k | i <= k < |cps| :: !IsPartChar(cps[k])
    decreases |cps| - i
  {
    if i == |cps| then Ok(Flush(list, sb))
    else if !IsPartChar(cps[i]) then Err(IllegalArgument)
    else
      var (n, l, w) := Turn(cps, i, list, sb);
      SplitFrom(cps, n, l, w)
  }

  /** The words of a character stream (SplitParts and SplitOkIff say what they are). */
  function Split(cps: JString): (r: Result<seq<JString>>)
    ensures cps == [] ==> r == Ok([])
    // the only error is a character that is neither a separator nor a word character
    ensures r.Err? ==> r.error == IllegalArgument && exists k | 0 <= k < |cps| :: !IsPartChar(cps[k])
  {
    SplitFrom(cps, 0, [], [])
  }

  /** The `k` loops of parts: `sb` followed by `cps[from..to]`. */
  method AppendRange(sb: JString, cps: JString, from: nat, to: nat) returns (r: JString)
    requires from <= to <= |cps|
    ensures r == sb + cps[from..to]
  {
    r := sb;
    var k := from;
    while k < to
      invariant from <= k <= to
      invariant r == sb + cps[from..k]
    {
      assert cps[from..k + 1] == cps[from..k] + [cps[k]];
      r := r + [cps[k]];
      k := k + 1;
    }
  }

  /**
   * The branch of parts for an upper-case letter or '$' at `i`: flush the
   * word under construction and collect the new word's run.
   */
  method UpperWord(cps: JString, i: nat, list: seq<JString>, sb: JString) returns (n: nat, l: seq<JString>, w: JString)
    requires i < |cps| && (IsAsciiUpper(cps[i]) || cps[i] == '$' as int)
    ensures (n, l, w) == Turn(cps, i, list, sb)
  {
    var c := cps[i];
    l := list;
    w := sb;
    if w != [] {
      l := l + [w];
      w := [];
    }
    w := w + [c];
    var j := i + 1;
    while j < |cps| && IsUpperOrDigit(cps[j])
      invariant i + 1 <= j <= |cps|
      invariant forall m | i + 1 <= m < j :: IsUpperOrDigit(cps[m])
    {
      j := j + 1;
    }
    assert j == RunEnd(cps, i + 1);
    assert l == Flush(list, sb) && w == [c];
    n := i;
    if j > i + 1 {
      if j < |cps| && IsAsciiLower(cps[j]) {
        w := AppendRange(w, cps, i + 1, j - 1);
        n := j - 2;
      } else {
        w := AppendRange(w, cps, i + 1, j);
        n := j - 1;
      }
    }
    n := n + 1;
  }

  /** parts(int[]) */
  method Parts(cps: JString) returns (r: Result<seq<JString>>)
    ensures r == Split(cps)
  {
    var list: seq<JString> := [];
    var sb: JString := [];
    var i: nat := 0;
    while i < |cps|
      invariant i <= |cps|
      invariant SplitFrom(cps, i, list, sb) == Split(cps)
      decreases |cps| - i
    {
      var c := cps[i];
      ghost var i0, list0, sb0 := i, list, sb;
      if IsDelimiter(c) {
        if sb != [] {
          list := list + [sb];
          sb := [];
        }
        i := i + 1;
        assert (i, list, sb) == Turn(cps, i0, list0, sb0);
      } else if IsAsciiLower(c) || IsAsciiDigit(c) {
        sb := sb + [c];
        i := i + 1;
        assert (i, list, sb) == Turn(cps, i0, list0, sb0);
      } else if IsAsciiUpper(c) || c == '$' as int {
        i, list, sb := UpperWord(cps, i, list, sb);
      } else {
        return Err(IllegalArgument);
      }
    }
    if sb != [] {
      list := list + [sb];
    }
    return Ok(list);
  }

  // ------------------------------------------------------------- factories

  /**
   * of(String, FormatType): the empty token for null or "", otherwise the
   * validated stream's words and hash. The factories ofUpperCamelCase ...
   * ofLowerKebabCase pass their own format and of(String) passes None.
   */
  function Of(s: Option<JString>, format: Option<Format>): Result<Token>
  {
    if s.None? || s.value == [] then Ok(Empty)
    else
      match AsciiStream(s.value)
      case Err(e) => Err(e)
      case Ok(cps) =>
        match Split(cps)
        case Err(e) => Err(e)
        case Ok(parts) => Ok(Token(parts, Hash(cps), format))
  }

  /** of(String, FormatType) as written, whose empty token has hash 0. */
  function OfAsWritten(s: Option<JString>, format: Option<Format>): Result<Token>
  {
    if s.None? || s.value == [] then Ok(EmptyAsWritten) else Of(s, format)
  }

  // ---------------------------------------------------------- rendering

  /** The first letter of `s` sits at index `k`. */
  predicate IsFirstLetter(s: JString, k: int)
    requires 0 <= k < |s|
  {
    IsAsciiLetter(s[k]) && forall m | 0 <= m < k :: !IsAsciiLetter(s[m])
  }

  /**
   * `s` lower-cased, except for its first letter, which is upper-cased when
   * `upper` holds.
   */
  function Capitalize(s: JString, upper: bool): (r: JString)
    ensures |r| == |s|
  {
    seq(|s|, k requires 0 <= k < |s| =>
      if IsFirstLetter(s, k) && upper then ToUpper(s[k]) else ToLower(s[k]))
  }

  function CaseAll(s: JString, upper: bool): JString
  {
    if upper then UpperAll(s) else LowerAll(s)
  }

  /**
   * How marge renders the first word. In camel style a word that already
   * begins upper-case and ends lower-case is copied (upper camel) or
   * lower-cased (lower camel) instead of being capitalized.
   */
  function StyledFirst(p: JString, camel: bool, upper: bool): (r: JString)
    requires p != []
    ensures |r| == |p|
  {
    if camel then
      if IsAsciiUpper(p[0]) && IsAsciiLower(p[|p| - 1]) then
        (if upper then p else LowerAll(p))
      else Capitalize(p, upper)
    else CaseAll(p, upper)
  }

  /** The number of characters in all of `parts`. */
  function TotalLength(parts: seq<JString>): nat
  {
    if parts == [] then 0 else TotalLength(parts[..|parts| - 1]) + |parts[|parts| - 1]|
  }

  /** How marge renders every later word. */
  function Styled(p: JString, camel: bool, upper: bool): (r: JString)
    ensures |r| == |p|
  {
    if camel then Capitalize(p, true) else CaseAll(p, upper)
  }

  /**
   * The rendering of `parts` with `delimiter` between the words; the empty
   * delimiter selects camel style.
   */
  function Render(parts: seq<JString>, delimiter: JString, upper: bool): (r: JString)
    requires parts == [] || parts[0] != []
    // every word keeps its length, and one delimiter sits between each two
    ensures parts == [] ==> r == []
    ensures parts != [] ==> |r| == TotalLength(parts) + (|parts| - 1) * |delimiter|
    decreases |parts|
  {
    if parts == [] then []
    else if |parts| == 1 then StyledFirst(parts[0], delimiter == [], upper)
    else
      Render(parts[..|parts| - 1], delimiter, upper) + delimiter
        + Styled(parts[|parts| - 1], delimiter == [], upper)
  }

  /** The character loops of marge: `sb` followed by `Capitalize(s, upper)`. */
  method CapitalizeInto(sb: JString, s: JString, upper: bool) returns (r: JString)
    ensures r == sb + Capitalize(s, upper)
  {
    r := sb;
    var seen := false;
    var i := 0;
    while i < |s|
      invariant 0 <= i <= |s|
      invariant seen <==> exists m | 0 <= m < i :: IsAsciiLetter(s[m])
      invariant r == sb + Capitalize(s, upper)[..i]
    {
      var c := s[i];
      assert Capitalize(s, upper)[..i + 1] == Capitalize(s, upper)[..i] + [Capitalize(s, upper)[i]];
      if !seen && IsAsciiLetter(c) {
        r := r + [if upper then ToUpper(c) else ToLower(c)];
        seen := true;
      } else {
        r := r + [ToLower(c)];
      }
      i := i + 1;
    }
  }

  /** marge(String, boolean), with the empty delimiter standing for null. */
  method Marge(parts: seq<JString>, delimiter: JString, upper: bool) returns (r: JString)
    requires parts == [] || parts[0] != []
    ensures r == Render(parts, delimiter, upper)
  {
    if parts == [] {
      return [];
    }
    var first := parts[0];
    var camel := delimiter == [];
    r := [];
    if camel {
      if IsAsciiUpper(first[0]) && IsAsciiLower(first[|first| - 1]) {
        r := if upper then first else LowerAll(first);
      } else {
        r := CapitalizeInto(r, first, upper);
      }
    } else {
      r := CaseAll(first, upper);
    }
    assert parts[..1] == [first];
    var x := 1;
    while x < |parts|
      invariant 1 <= x <= |parts|
      invariant r == Render(parts[..x], delimiter, upper)
    {
      r := r + delimiter;
      var part := parts[x];
      if camel {
        r := CapitalizeInto(r, part, true);
      } else {
        r := r + CaseAll(part, upper);
      }
      assert parts[..x + 1][..x] == parts[..x];
      x := x + 1;
    }
    assert parts[..|parts|] == parts;
  }

  /** toUpperCamelCase / toLowerCamelCase */
  function ToCamelCase(t: Token, upper: bool): JString
    requires t.Valid()
  {
    Render(t.parts, [], upper)
  }

  /** toUpperUnderLine / toLowerUnderLine */
  function ToUnderLine(t: Token, upper: bool): JString
    requires t.Valid()
  {
    Render(t.parts, Underscore, upper)
  }

  /** toUpperKebabCase / toLowerKebabCase */
  function ToKebabCase(t: Token, upper: bool): JString
    requires t.Valid()
  {
    Render(t.parts, Hyphen, upper)
  }

  /** toString: the style recorded by the factory, lower camel without one. */
  function ToString(t: Token): JString
    requires t.Valid()
  {
    match t.format
    case Some(UpperCamelCase) => ToCamelCase(t, true)
    case Some(LowerCamelCase) => ToCamelCase(t, false)
    case Some(UpperUnderLine) => ToUnderLine(t, true)
    case Some(LowerUnderLine) => ToUnderLine(t, false)
    case Some(UpperKebabCase) => ToKebabCase(t, true)
    case Some(LowerKebabCase) => ToKebabCase(t, false)
    case None => ToCamelCase(t, false)
  }

  // -------------------------------------------------------------- equality

  /** The same number of words, pairwise equal ignoring case. */
  predicate SameParts(a: seq<JString>, b: seq<JString>)
  {
    |a| == |b| && forall k | 0 <= k < |a| :: EqualsIgnoreCase(a[k], b[k])
  }

  /**
   * equals(Object): a String is tokenised first (and may throw); a token
   * must agree in hash and in its words ignoring case; anything else is
   * unequal. The identity shortcut agrees with the value comparison.
   */
  function Equals(t: Token, other: Object): Result<bool>
  {
    match other
    case Null => Ok(false)
    case Foreign => Ok(false)
    case WordToken(u) => Ok(t.hash == u.hash && SameParts(t.parts, u.parts))
    case Text(s) =>
      match AsciiStream(s)
      case Err(e) => Err(e)
      case Ok(cps) =>
        match Split(cps)
        case Err(e) => Err(e)
        case Ok(parts) => Ok(t.hash == Hash(cps) && SameParts(t.parts, parts))
  }
}
