// What the AsciiWordToken operations promise: validation of the character
// stream, the words parts produces, the case- and separator-insensitive
// hash, equality, and the renderings.

module AsciiWordTokenProofs {
  import opened JavaText
  import opened AsciiWordToken

  // ----------------------------------------------------------- asciiStream

  /**
   * Validating the code units is validating the decoded code points: no
   * surrogate, paired or not, is let through, and what is let through are
   * the code points themselves.
   */
  lemma {:induction false} AsciiStreamDecodes(s: JString)
    ensures AsciiStream(s).Ok? <==> forall k | 0 <= k < |CodePoints(s)| :: IsTokenChar(CodePoints(s)[k])
    ensures AsciiStream(s).Ok? ==> AsciiStream(s).value == CodePoints(s)
    ensures AsciiStream(s).Err? ==> AsciiStream(s).error == IllegalArgument
    decreases |s|
  {
    if s == [] {
    } else if IsPairAt(s, 0) {
      assert !IsTokenChar(s[0]);
      assert !IsTokenChar(CodePoints(s)[0]);
    } else {
      var tail := s[1..];
      AsciiStreamDecodes(tail);
      var cs := CodePoints(tail);
      assert CodePoints(s) == [s[0] as int] + cs;
      assert AsciiStream(s).Ok? <==> IsTokenChar(s[0]) && AsciiStream(tail).Ok? by {
        assert forall k | 1 <= k < |s| :: s[k] == tail[k - 1];
      }
      var cp := CodePoints(s);
      if IsTokenChar(s[0]) && forall k | 0 <= k < |cs| :: IsTokenChar(cs[k]) {
        forall k | 0 <= k < |cp|
          ensures IsTokenChar(cp[k])
        {
          if k > 0 {
            assert cp[k] == cs[k - 1];
          }
        }
      }
      if forall k | 0 <= k < |cp| :: IsTokenChar(cp[k]) {
        forall k | 0 <= k < |cs|
          ensures IsTokenChar(cs[k])
        {
          assert cs[k] == cp[k + 1];
        }
        assert IsTokenChar(cp[0]);
      }
      if AsciiStream(s).Ok? {
        assert s == [s[0]] + tail;
      }
    }
  }

  // ------------------------------------------------------------ word chars

  lemma {:induction false} WordCharsAppend(a: JString, b: JString)
    ensures WordChars(a + b) == WordChars(a) + WordChars(b)
    decreases |b|
  {
    if b == [] {
      assert a + b == a;
    } else {
      var init := b[..|b| - 1];
      assert (a + b)[..|a + b| - 1] == a + init;
      WordCharsAppend(a, init);
    }
  }

  lemma {:induction false} WordCharsOfWord(s: JString)
    requires forall k | 0 <= k < |s| :: IsWordChar(s[k])
    ensures WordChars(s) == s
    decreases |s|
  {
    if s != [] {
      WordCharsOfWord(s[..|s| - 1]);
      assert s == s[..|s| - 1] + [s[|s| - 1]];
    }
  }

  lemma {:induction false} WordCharsOfNone(s: JString)
    requires forall k | 0 <= k < |s| :: !IsWordChar(s[k])
    ensures WordChars(s) == []
    decreases |s|
  {
    if s != [] {
      WordCharsOfNone(s[..|s| - 1]);
    }
  }

  /** A stretch of word characters passes through unchanged. */
  lemma {:induction false} WordCharsSkip(cps: JString, i: nat, e: nat)
    requires i <= e <= |cps|
    requires forall m | i <= m < e :: IsWordChar(cps[m])
    ensures WordChars(cps[i..]) == cps[i..e] + WordChars(cps[e..])
  {
    assert cps[i..] == cps[i..e] + cps[e..];
    WordCharsAppend(cps[i..e], cps[e..]);
    WordCharsOfWord(cps[i..e]);
  }

  /** Any other character is dropped. */
  lemma {:induction false} WordCharsDrop(cps: JString, i: nat)
    requires i < |cps| && !IsWordChar(cps[i])
    ensures WordChars(cps[i..]) == WordChars(cps[i + 1..])
  {
    assert cps[i..] == [cps[i]] + cps[i + 1..];
    WordCharsAppend([cps[i]], cps[i + 1..]);
    WordCharsOfNone([cps[i]]);
  }

  lemma {:induction false} LowerAllAppend(a: JString, b: JString)
    ensures LowerAll(a + b) == LowerAll(a) + LowerAll(b)
  {
    assert forall k | 0 <= k < |a + b| :: LowerAll(a + b)[k] == (LowerAll(a) + LowerAll(b))[k];
  }

  // ----------------------------------------------------------------- parts

  /** The words of a list, concatenated. */
  function Concat(parts: seq<JString>): JString
    decreases |parts|
  {
    if parts == [] then [] else Concat(parts[..|parts| - 1]) + parts[|parts| - 1]
  }

  lemma {:induction false} ConcatFlush(list: seq<JString>, sb: JString)
    ensures Concat(Flush(list, sb)) == Concat(list) + sb
  {
    if sb != [] {
      assert (list + [sb])[..|list|] == list;
    } else {
      assert Concat(list) + sb == Concat(list);
    }
  }

  predicate AllSplitParts(ps: seq<JString>)
  {
    forall k | 0 <= k < |ps| :: IsSplitPart(ps[k])
  }

  /** A successful split yields well-formed words that spell out `words`. */
  predicate SplitsInto(r: Result<seq<JString>>, words: JString)
  {
    r.Ok? ==> Concat(r.value) == words && AllSplitParts(r.value)
  }

  /** A word started by an upper-case letter or '$' and continued by upper-case letters and digits. */
  lemma {:induction false} RunIsSplitPart(cps: JString, i: nat, n: nat)
    requires i < n <= |cps|
    requires IsAsciiUpper(cps[i]) || cps[i] == '$' as int
    requires forall m | i < m < n :: IsUpperOrDigit(cps[m])
    ensures IsSplitPart(cps[i..n])
  {
    var w := cps[i..n];
    forall k | 0 < k < |w|
      ensures IsUpperOrDigit(w[k])
    {
      assert w[k] == cps[i + k];
    }
  }

  lemma {:induction false} FlushSplits(list: seq<JString>, sb: JString)
    requires AllSplitParts(list)
    requires sb == [] || IsSplitPart(sb)
    ensures AllSplitParts(Flush(list, sb))
  {
    if sb != [] {
      assert forall k | 0 <= k < |list| :: (list + [sb])[k] == list[k];
    }
  }

  lemma {:induction false} ExtendSplitPart(sb: JString, c: int)
    requires sb == [] || IsSplitPart(sb)
    requires IsAsciiLower(c) || IsAsciiDigit(c)
    ensures IsSplitPart(sb + [c])
  {
    var w := sb + [c];
    assert forall k | 0 <= k < |w| :: w[k] == if k < |sb| then sb[k] else c;
  }

  /** One turn keeps the words well formed and the characters seen so far accounted for. */
  lemma {:induction false} TurnSplits(cps: JString, i: nat, list: seq<JString>, sb: JString)
    requires i < |cps| && IsPartChar(cps[i])
    requires AllSplitParts(list)
    requires sb == [] || IsSplitPart(sb)
    ensures var (n, l, w) := Turn(cps, i, list, sb);
      && AllSplitParts(l)
      && (w == [] || IsSplitPart(w))
      && Concat(l) + w + WordChars(cps[n..]) == Concat(list) + sb + WordChars(cps[i..])
  {
    var c := cps[i];
    if IsDelimiter(c) {
      DelimiterTurnSplits(cps, i, list, sb);
    } else if IsAsciiLower(c) || IsAsciiDigit(c) {
      LowerTurnSplits(cps, i, list, sb);
    } else {
      RunTurnSplits(cps, i, list, sb);
    }
  }

  lemma {:induction false} DelimiterTurnSplits(cps: JString, i: nat, list: seq<JString>, sb: JString)
    requires i < |cps| && IsDelimiter(cps[i])
    requires AllSplitParts(list)
    requires sb == [] || IsSplitPart(sb)
    ensures AllSplitParts(Flush(list, sb))
    ensures Concat(Flush(list, sb)) + [] + WordChars(cps[i + 1..]) == Concat(list) + sb + WordChars(cps[i..])
  {
    ConcatFlush(list, sb);
    FlushSplits(list, sb);
    WordCharsDrop(cps, i);
    assert Concat(Flush(list, sb)) + [] == Concat(list) + sb;
  }

  lemma {:induction false} LowerTurnSplits(cps: JString, i: nat, list: seq<JString>, sb: JString)
    requires i < |cps| && (IsAsciiLower(cps[i]) || IsAsciiDigit(cps[i]))
    requires sb == [] || IsSplitPart(sb)
    ensures IsSplitPart(sb + [cps[i]])
    ensures Concat(list) + (sb + [cps[i]]) + WordChars(cps[i + 1..]) == Concat(list) + sb + WordChars(cps[i..])
  {
    var c := cps[i];
    WordCharsSkip(cps, i, i + 1);
    assert cps[i..i + 1] == [c];
    ExtendSplitPart(sb, c);
  }

  lemma {:induction false} RunTurnSplits(cps: JString, i: nat, list: seq<JString>, sb: JString)
    requires i < |cps| && (IsAsciiUpper(cps[i]) || cps[i] == '$' as int)
    requires AllSplitParts(list)
    requires sb == [] || IsSplitPart(sb)
    ensures var (n, l, w) := Turn(cps, i, list, sb);
      && AllSplitParts(l)
      && IsSplitPart(w)
      && Concat(l) + w + WordChars(cps[n..]) == Concat(list) + sb + WordChars(cps[i..])
  {
    var (n, l, w) := Turn(cps, i, list, sb);
    assert l == Flush(list, sb) && w == cps[i..n];
    RunWords(cps, i, n);
    ConcatFlush(list, sb);
    FlushSplits(list, sb);
    assert Concat(l) + w + WordChars(cps[n..]) == Concat(list) + sb + (cps[i..n] + WordChars(cps[n..]));
  }

  /** A run taken by an upper-case letter or '$' is a word, and all of it counts as word characters. */
  lemma {:induction false} RunWords(cps: JString, i: nat, n: nat)
    requires i < n <= |cps|
    requires IsAsciiUpper(cps[i]) || cps[i] == '$' as int
    requires forall m | i < m < n :: IsUpperOrDigit(cps[m])
    ensures IsSplitPart(cps[i..n])
    ensures WordChars(cps[i..]) == cps[i..n] + WordChars(cps[n..])
  {
    forall m | i <= m < n
      ensures IsWordChar(cps[m])
    {
      assert m == i || IsUpperOrDigit(cps[m]);
    }
    WordCharsSkip(cps, i, n);
    RunIsSplitPart(cps, i, n);
  }

  lemma {:induction false} SplitFromParts(cps: JString, i: nat, list: seq<JString>, sb: JString)
    requires i <= |cps|
    requires AllSplitParts(list)
    requires sb == [] || IsSplitPart(sb)
    ensures SplitsInto(SplitFrom(cps, i, list, sb), Concat(list) + sb + WordChars(cps[i..]))
    decreases |cps| - i
  {
    if i == |cps| {
      assert cps[i..] == [];
      ConcatFlush(list, sb);
      FlushSplits(list, sb);
      assert WordChars([]) == [];
      assert Concat(list) + sb + [] == Concat(list) + sb;
    } else if IsPartChar(cps[i]) {
      var (n, l, w) := Turn(cps, i, list, sb);
      TurnSplits(cps, i, list, sb);
      SplitFromParts(cps, n, l, w);
    }
  }

  lemma {:induction false} SplitFromOk(cps: JString, i: nat, list: seq<JString>, sb: JString)
    requires i <= |cps|
    ensures SplitFrom(cps, i, list, sb).Ok? <==> forall k | i <= k < |cps| :: IsPartChar(cps[k])
    ensures SplitFrom(cps, i, list, sb).Err? ==> SplitFrom(cps, i, list, sb).error == IllegalArgument
    decreases |cps| - i
  {
    if i < |cps| && IsPartChar(cps[i]) {
      var (n, l, w) := Turn(cps, i, list, sb);
      SplitFromOk(cps, n, l, w);
    }
  }

  /**
   * The words parts produces are non-empty, free of '-', '_' and '&', and
   * concatenated give back the input without its separators.
   */
  lemma {:induction false} SplitParts(cps: JString)
    ensures SplitsInto(Split(cps), WordChars(cps))
  {
    SplitFromParts(cps, 0, [], []);
    assert cps[0..] == cps;
  }

  /** parts throws IllegalArgumentException exactly when some character is neither a separator nor a word character. */
  lemma {:induction false} SplitOkIff(cps: JString)
    ensures Split(cps).Ok? <==> forall k | 0 <= k < |cps| :: IsPartChar(cps[k])
    ensures Split(cps).Err? ==> Split(cps).error == IllegalArgument
  {
    SplitFromOk(cps, 0, [], []);
  }

  // ------------------------------------------------------------- factories

  /**
   * of throws IllegalArgumentException exactly when a character is outside
   * `$ _ - 0-9 a-z A-Z`; null and "" give the empty token.
   */
  lemma {:induction false} OfFailsOnInvalid(s: Option<JString>, f: Option<Format>)
    ensures s.None? || s.value == [] ==> Of(s, f) == Ok(Empty)
    ensures s.Some? ==> (Of(s, f).Err? <==> exists k | 0 <= k < |s.value| :: !IsTokenChar(s.value[k]))
    ensures Of(s, f).Err? ==> Of(s, f).error == IllegalArgument
  {
    if s.Some? && s.value != [] && AsciiStream(s.value).Ok? {
      SplitOkIff(s.value);
    }
  }

  /**
   * Every token built is valid, and its hash is the Java hash of its words,
   * lower-cased and concatenated.
   */
  lemma {:induction false} OfIsValid(s: Option<JString>, f: Option<Format>)
    requires Of(s, f).Ok?
    ensures Of(s, f).value.Valid()
    ensures Of(s, f).value.hash == FoldHash(LowerAll(Concat(Of(s, f).value.parts)))
  {
    if s.Some? && s.value != [] {
      SplitParts(s.value);
    }
  }

  /** The hash ignores letter case and the placement of '-' and '_'. */
  lemma {:induction false} HashIgnoresCaseAndSeparators(a: JString, b: JString, f: Option<Format>, g: Option<Format>)
    requires Of(Some(a), f).Ok? && Of(Some(b), g).Ok?
    requires LowerAll(WordChars(a)) == LowerAll(WordChars(b))
    ensures Of(Some(a), f).value.hash == Of(Some(b), g).value.hash
  {
    if a != [] {
      SplitParts(a);
    }
    if b != [] {
      SplitParts(b);
    }
  }

  // -------------------------------------------------------------- equality

  lemma {:induction false} SamePartsLower(a: seq<JString>, b: seq<JString>)
    requires SameParts(a, b)
    ensures LowerAll(Concat(a)) == LowerAll(Concat(b))
    decreases |a|
  {
    if a != [] {
      var n := |a| - 1;
      SamePartsLower(a[..n], b[..n]);
      forall i | 0 <= i < |a[n]|
        ensures ToLower(a[n][i]) == ToLower(b[n][i])
      {
        CharEqualsIgnoreCaseIsLower(a[n][i], b[n][i]);
      }
      LowerAllAppend(Concat(a[..n]), a[n]);
      LowerAllAppend(Concat(b[..n]), b[n]);
    }
  }

  /**
   * Two built tokens are equal exactly when their words agree pairwise
   * ignoring case: the hash comparison never decides.
   */
  lemma {:induction false} EqualsIffSameParts(a: Option<JString>, f: Option<Format>, b: Option<JString>, g: Option<Format>)
    requires Of(a, f).Ok? && Of(b, g).Ok?
    ensures Equals(Of(a, f).value, WordToken(Of(b, g).value))
      == Ok(SameParts(Of(a, f).value.parts, Of(b, g).value.parts))
  {
    OfIsValid(a, f);
    OfIsValid(b, g);
    if SameParts(Of(a, f).value.parts, Of(b, g).value.parts) {
      SamePartsLower(Of(a, f).value.parts, Of(b, g).value.parts);
    }
  }

  /** A token equals the text it was built from, the empty text included. */
  lemma {:induction false} EqualsItsText(s: JString, f: Option<Format>)
    requires Of(Some(s), f).Ok?
    ensures Equals(Of(Some(s), f).value, Text(s)) == Ok(true)
  {
    var t := Of(Some(s), f).value;
    assert SameParts(t.parts, t.parts);
    if s == [] {
      assert Split(s) == Ok([]);
      assert LowerAll(WordChars(s)) == [];
    }
  }

  /** With EMPTY's hash 0, the empty token differs from "" and from a token of separators only. */
  lemma {:induction false} EmptyAsWrittenDiffers()
    ensures OfAsWritten(Some([]), None) == Ok(EmptyAsWritten)
    ensures Equals(EmptyAsWritten, Text([])) == Ok(false)
    ensures OfAsWritten(Some(Hyphen), None).Ok?
    ensures OfAsWritten(Some(Hyphen), None).value.parts == []
    ensures Equals(EmptyAsWritten, WordToken(OfAsWritten(Some(Hyphen), None).value)) == Ok(false)
  {
    assert Split([]) == Ok([]);
    assert LowerAll(WordChars([])) == [];
    assert Hyphen[0] == '-' as int;
    assert SplitFrom(Hyphen, 1, [], []) == Ok([]);
    assert Split(Hyphen) == Ok([]);
    assert WordChars(Hyphen) == [];
  }

  /** All tokens without words are equal, and equal to the empty text. */
  lemma {:induction false} WordlessTokensAreEqual(a: Option<JString>, f: Option<Format>, b: Option<JString>, g: Option<Format>)
    requires Of(a, f).Ok? && Of(b, g).Ok?
    requires Of(a, f).value.parts == [] && Of(b, g).value.parts == []
    ensures Equals(Of(a, f).value, WordToken(Of(b, g).value)) == Ok(true)
    ensures Equals(Of(a, f).value, Text([])) == Ok(true)
  {
    EqualsIffSameParts(a, f, b, g);
    OfIsValid(a, f);
    assert Concat([]) == [] && LowerAll([]) == [];
    assert Split([]) == Ok([]);
  }

  // ------------------------------------------------------------- rendering

  lemma {:induction false} StyledWords(p: JString, camel: bool, upper: bool)
    requires forall k | 0 <= k < |p| :: IsWordChar(p[k])
    ensures forall k | 0 <= k < |Styled(p, camel, upper)| :: IsWordChar(Styled(p, camel, upper)[k])
    ensures LowerAll(Styled(p, camel, upper)) == LowerAll(p)
  {
  }

  lemma {:induction false} StyledFirstWords(p: JString, camel: bool, upper: bool)
    requires p != []
    requires forall k | 0 <= k < |p| :: IsWordChar(p[k])
    ensures forall k | 0 <= k < |StyledFirst(p, camel, upper)| :: IsWordChar(StyledFirst(p, camel, upper)[k])
    ensures LowerAll(StyledFirst(p, camel, upper)) == LowerAll(p)
  {
  }

  /** The word characters of `a`, a delimiter without any, and a word, lower-cased. */
  lemma {:induction false} WordsOfJoin(a: JString, d: JString, q: JString)
    requires forall k | 0 <= k < |d| :: !IsWordChar(d[k])
    requires forall k | 0 <= k < |q| :: IsWordChar(q[k])
    ensures LowerAll(WordChars(a + d + q)) == LowerAll(WordChars(a)) + LowerAll(q)
  {
    WordCharsAppend(a + d, q);
    WordCharsAppend(a, d);
    WordCharsOfNone(d);
    WordCharsOfWord(q);
    assert WordChars(a) + [] == WordChars(a);
    LowerAllAppend(WordChars(a), q);
  }

  /**
   * A rendering changes only letter case and the separators between words:
   * its word characters, lower-cased, are the token's words, lower-cased.
   */
  lemma {:induction false} RenderWords(parts: seq<JString>, d: JString, upper: bool)
    requires AllSplitParts(parts)
    requires forall k | 0 <= k < |d| :: !IsWordChar(d[k])
    ensures LowerAll(WordChars(Render(parts, d, upper))) == LowerAll(Concat(parts))
    decreases |parts|
  {
    if |parts| == 1 {
      RenderWordsOne(parts, d, upper);
    } else if |parts| > 1 {
      assert AllSplitParts(parts[..|parts| - 1]);
      RenderWords(parts[..|parts| - 1], d, upper);
      RenderWordsStep(parts, d, upper);
    }
  }

  /** The base case of RenderWords: a single word. */
  lemma {:induction false} RenderWordsOne(parts: seq<JString>, d: JString, upper: bool)
    requires |parts| == 1 && AllSplitParts(parts)
    ensures LowerAll(WordChars(Render(parts, d, upper))) == LowerAll(Concat(parts))
  {
    var p := parts[0];
    var q := StyledFirst(p, d == [], upper);
    assert parts[..0] == [];
    assert Concat(parts) == [] + p;
    assert Render(parts, d, upper) == q;
    StyledFirstWords(p, d == [], upper);
    WordCharsOfWord(q);
    assert LowerAll(WordChars(q)) == LowerAll(p);
  }

  /** The inductive step of RenderWords: one more word after a delimiter. */
  lemma {:induction false} RenderWordsStep(parts: seq<JString>, d: JString, upper: bool)
    requires |parts| > 1 && AllSplitParts(parts)
    requires forall k | 0 <= k < |d| :: !IsWordChar(d[k])
    requires LowerAll(WordChars(Render(parts[..|parts| - 1], d, upper))) == LowerAll(Concat(parts[..|parts| - 1]))
    ensures LowerAll(WordChars(Render(parts, d, upper))) == LowerAll(Concat(parts))
  {
    var n := |parts| - 1;
    var init := parts[..n];
    var r0 := Render(init, d, upper);
    var q := Styled(parts[n], d == [], upper);
    StyledWords(parts[n], d == [], upper);
    assert Render(parts, d, upper) == r0 + d + q;
    WordsOfJoin(r0, d, q);
    assert Concat(parts) == Concat(init) + parts[n];
    LowerAllAppend(Concat(init), parts[n]);
  }

  /** Every character of a rendering passes asciiStream. */
  lemma {:induction false} RenderTokenChars(parts: seq<JString>, d: JString, upper: bool)
    requires AllSplitParts(parts)
    requires d == [] || d == Hyphen || d == Underscore
    ensures forall k | 0 <= k < |Render(parts, d, upper)| :: IsTokenChar(Render(parts, d, upper)[k])
    decreases |parts|
  {
    if |parts| == 1 {
      StyledFirstWords(parts[0], d == [], upper);
    } else if |parts| > 1 {
      var n := |parts| - 1;
      RenderTokenChars(parts[..n], d, upper);
      StyledWords(parts[n], d == [], upper);
    }
  }

  /**
   * Rendering and hashing again gives the token's own hash, in every style
   * (camel, underscore, kebab; upper or lower).
   */
  lemma {:induction false} RenderingKeepsHash(s: Option<JString>, f: Option<Format>, d: JString, upper: bool)
    requires Of(s, f).Ok?
    requires d == [] || d == Hyphen || d == Underscore
    ensures Of(s, f).value.Valid()
    ensures Hash(Render(Of(s, f).value.parts, d, upper)) == Of(s, f).value.hash
  {
    OfIsValid(s, f);
    RenderWords(Of(s, f).value.parts, d, upper);
  }

  /** toString renders in some style, so it hashes back to the token's hash. */
  lemma {:induction false} ToStringKeepsHash(s: Option<JString>, f: Option<Format>)
    requires Of(s, f).Ok?
    ensures Of(s, f).value.Valid()
    ensures Hash(ToString(Of(s, f).value)) == Of(s, f).value.hash
  {
    var t := Of(s, f).value;
    OfIsValid(s, f);
    match t.format
    case Some(UpperCamelCase) => RenderingKeepsHash(s, f, [], true);
    case Some(LowerCamelCase) => RenderingKeepsHash(s, f, [], false);
    case Some(UpperUnderLine) => RenderingKeepsHash(s, f, Underscore, true);
    case Some(LowerUnderLine) => RenderingKeepsHash(s, f, Underscore, false);
    case Some(UpperKebabCase) => RenderingKeepsHash(s, f, Hyphen, true);
    case Some(LowerKebabCase) => RenderingKeepsHash(s, f, Hyphen, false);
    case None => RenderingKeepsHash(s, f, [], false);
  }

  /** Lower camel case lower-cases the whole first word, whichever branch marge takes. */
  lemma {:induction false} LowerCamelFirstWord(p: JString)
    requires p != []
    ensures StyledFirst(p, true, false) == LowerAll(p)
  {
    if !(IsAsciiUpper(p[0]) && IsAsciiLower(p[|p| - 1])) {
      assert forall k | 0 <= k < |p| :: Capitalize(p, false)[k] == LowerAll(p)[k];
    }
  }

  // ------------------------------------------- lower-case delimited round trip

  /** A word of a lower-case delimited rendering: '$' may lead, the rest is lower-case letters and digits. */
  predicate IsLowerPart(q: JString)
  {
    && q != []
    && (q[0] == '$' as int || IsAsciiLower(q[0]) || IsAsciiDigit(q[0]))
    && forall k | 0 < k < |q| :: IsAsciiLower(q[k]) || IsAsciiDigit(q[k])
  }

  function LowerParts(ps: seq<JString>): (r: seq<JString>)
    ensures |r| == |ps|
    ensures forall k | 0 <= k < |ps| :: r[k] == LowerAll(ps[k])
  {
    seq(|ps|, k requires 0 <= k < |ps| => LowerAll(ps[k]))
  }

  lemma {:induction false} LowerRun(str: JString, a: nat, e: nat, list: seq<JString>, sb: JString)
    requires a <= e <= |str|
    requires forall m | a <= m < e :: IsAsciiLower(str[m]) || IsAsciiDigit(str[m])
    ensures SplitFrom(str, a, list, sb) == SplitFrom(str, e, list, sb + str[a..e])
    decreases e - a
  {
    if a == e {
      assert sb + str[a..e] == sb;
    } else {
      LowerRun(str, a + 1, e, list, sb + [str[a]]);
      assert sb + [str[a]] + str[a + 1..e] == sb + str[a..e];
    }
  }

  lemma {:induction false} RunEndBefore(str: JString, a: nat, e: nat)
    requires a <= e <= |str|
    requires e == |str| || !IsUpperOrDigit(str[e])
    ensures RunEnd(str, a) <= e
  {
  }

  lemma {:induction false} LoweredSplitPart(p: JString)
    requires IsSplitPart(p)
    ensures IsLowerPart(LowerAll(p))
  {
  }

  lemma {:induction false} DelimiterTurn(str: JString, i: nat, list: seq<JString>, sb: JString)
    requires i < |str| && IsDelimiter(str[i])
    ensures SplitFrom(str, i, list, sb) == SplitFrom(str, i + 1, Flush(list, sb), [])
  {
  }

  /** parts reads one lower-case word up to the next separator or the end. */
  lemma {:induction false} ScanLowerWord(str: JString, i: nat, q: JString, list: seq<JString>)
    requires i + |q| <= |str| && str[i..i + |q|] == q && IsLowerPart(q)
    requires i + |q| == |str| || IsDelimiter(str[i + |q|])
    ensures SplitFrom(str, i, list, []) == SplitFrom(str, i + |q|, list, q)
  {
    var e := i + |q|;
    forall m | i < m < e
      ensures IsAsciiLower(str[m]) || IsAsciiDigit(str[m])
    {
      assert str[m] == q[m - i];
    }
    assert str[i] == q[0];
    if q[0] == '$' as int {
      ScanDollarWord(str, i, e, list);
    } else {
      LowerRun(str, i, e, list, []);
    }
    assert [] + str[i..e] == q;
  }

  /** A word that starts with '$' and goes on in lower case letters and digits. */
  lemma {:induction false} ScanDollarWord(str: JString, i: nat, e: nat, list: seq<JString>)
    requires i < e <= |str| && str[i] == '$' as int
    requires forall m | i < m < e :: IsAsciiLower(str[m]) || IsAsciiDigit(str[m])
    requires e == |str| || IsDelimiter(str[e])
    ensures SplitFrom(str, i, list, []) == SplitFrom(str, e, list, str[i..e])
  {
    var (n, l, w) := Turn(str, i, list, []);
    RunEndBefore(str, i + 1, e);
    assert l == list && w == str[i..n];
    assert SplitFrom(str, i, list, []) == SplitFrom(str, n, l, w);
    LowerRun(str, n, e, list, w);
    assert w + str[n..e] == str[i..e];
  }

  /** Words joined by a delimiter. */
  function Joined(qs: seq<JString>, d: JString): JString
    requires qs != []
    decreases |qs|
  {
    if |qs| == 1 then qs[0] else Joined(qs[..|qs| - 1], d) + d + qs[|qs| - 1]
  }

  /** A lower-case delimited rendering joins the lower-cased words. */
  lemma {:induction false} RenderLowerIsJoined(ps: seq<JString>, d: JString)
    requires ps != [] && AllSplitParts(ps)
    requires d != []
    ensures Render(ps, d, false) == Joined(LowerParts(ps), d)
    decreases |ps|
  {
    if |ps| > 1 {
      var n := |ps| - 1;
      assert AllSplitParts(ps[..n]);
      RenderLowerIsJoined(ps[..n], d);
      assert LowerParts(ps)[..n] == LowerParts(ps[..n]);
    }
  }

  /**
   * A delimiter at `i` then the lower-case word `q` carry a scan that has
   * collected `init` one word further, to `e`, having collected `qs`.
   */
  lemma {:induction false} ScanNextWord(str: JString, i: nat, init: seq<JString>, q: JString, qs: seq<JString>, e: nat)
    requires init != [] && init[|init| - 1] != [] && i < |str| && IsDelimiter(str[i])
    requires SplitFrom(str, 0, [], []) == SplitFrom(str, i, init[..|init| - 1], init[|init| - 1])
    requires e == i + 1 + |q| <= |str| && str[i + 1..e] == q && IsLowerPart(q)
    requires e == |str| || IsDelimiter(str[e])
    requires qs == init + [q]
    ensures SplitFrom(str, 0, [], []) == SplitFrom(str, e, qs[..|qs| - 1], qs[|qs| - 1])
  {
    var done := init[..|init| - 1];
    var last := init[|init| - 1];
    DelimiterTurn(str, i, done, last);
    InitLast(init);
    assert Flush(done, last) == init;
    ScanLowerWord(str, i + 1, q, init);
    SnocInit(init, q);
    assert qs[..|qs| - 1] == init && qs[|qs| - 1] == q;
  }

  lemma {:induction false} ScanJoinedLower(qs: seq<JString>, d: JString, str: JString, rest: JString)
    requires qs != [] && forall k | 0 <= k < |qs| :: IsLowerPart(qs[k])
    requires |d| == 1 && IsDelimiter(d[0])
    requires str == Joined(qs, d) + rest
    requires rest == [] || IsDelimiter(rest[0])
    ensures SplitFrom(str, 0, [], []) == SplitFrom(str, |Joined(qs, d)|, qs[..|qs| - 1], qs[|qs| - 1])
    decreases |qs|
  {
    if |qs| == 1 {
      ScanFirstWord(qs, str, rest);
    } else {
      var init := qs[..|qs| - 1];
      assert Joined(qs, d) == Joined(init, d) + d + qs[|qs| - 1];
      ScanJoinedLower(init, d, str, d + qs[|qs| - 1] + rest);
      ScanJoinedStep(qs, init, d, str, rest);
    }
  }

  lemma {:induction false} InitLast<T>(xs: seq<T>)
    requires xs != []
    ensures xs == xs[..|xs| - 1] + [xs[|xs| - 1]]
  {
  }

  lemma {:induction false} SnocInit<T>(xs: seq<T>, x: T)
    ensures (xs + [x])[..|xs|] == xs
  {
  }

  /** The base case of ScanJoinedLower: the first word. */
  lemma {:induction false} ScanFirstWord(qs: seq<JString>, str: JString, rest: JString)
    requires |qs| == 1 && IsLowerPart(qs[0])
    requires str == qs[0] + rest
    requires rest == [] || IsDelimiter(rest[0])
    ensures SplitFrom(str, 0, [], []) == SplitFrom(str, |qs[0]|, qs[..0], qs[0])
  {
    var q := qs[0];
    assert str[0..|q|] == q;
    assert |q| < |str| ==> str[|q|] == rest[0];
    ScanLowerWord(str, 0, q, []);
    assert qs[..0] == [];
  }

  /** The inductive step of ScanJoinedLower: a delimiter and one more word. */
  lemma {:induction false} ScanJoinedStep(qs: seq<JString>, init: seq<JString>, d: JString, str: JString, rest: JString)
    requires |qs| > 1 && forall k | 0 <= k < |qs| :: IsLowerPart(qs[k])
    requires init == qs[..|qs| - 1]
    requires |d| == 1 && IsDelimiter(d[0])
    requires str == Joined(qs, d) + rest
    requires rest == [] || IsDelimiter(rest[0])
    requires SplitFrom(str, 0, [], []) == SplitFrom(str, |Joined(init, d)|, init[..|init| - 1], init[|init| - 1])
    ensures SplitFrom(str, 0, [], []) == SplitFrom(str, |Joined(qs, d)|, qs[..|qs| - 1], qs[|qs| - 1])
  {
    JoinedLayout(qs, init, d, str, rest);
    ScanNextWord(str, |Joined(init, d)|, init, qs[|qs| - 1], qs, |Joined(qs, d)|);
  }

  /** Where the last delimiter and the last word of a join sit in a text that starts with it. */
  lemma {:induction false} JoinedLayout(qs: seq<JString>, init: seq<JString>, d: JString, str: JString, rest: JString)
    requires |qs| > 1 && forall k | 0 <= k < |qs| :: IsLowerPart(qs[k])
    requires init == qs[..|qs| - 1]
    requires |d| == 1 && IsDelimiter(d[0])
    requires str == Joined(qs, d) + rest
    requires rest == [] || IsDelimiter(rest[0])
    ensures init != [] && init[|init| - 1] != []
    ensures |Joined(init, d)| < |str| && IsDelimiter(str[|Joined(init, d)|])
    ensures |Joined(qs, d)| == |Joined(init, d)| + 1 + |qs[|qs| - 1]| <= |str|
    ensures str[|Joined(init, d)| + 1..|Joined(qs, d)|] == qs[|qs| - 1] && IsLowerPart(qs[|qs| - 1])
    ensures |Joined(qs, d)| == |str| || IsDelimiter(str[|Joined(qs, d)|])
    ensures qs == init + [qs[|qs| - 1]]
  {
    var n := |qs| - 1;
    var j := Joined(qs, d);
    var j0 := Joined(init, d);
    var q := qs[n];
    assert j == j0 + d + q;
    assert init[n - 1] == qs[n - 1];
    assert str[|j0|] == d[0];
    assert str[|j0| + 1..|j|] == q;
    assert |j| < |str| ==> str[|j|] == rest[0];
    InitLast(qs);
  }


  /** Lower-case words joined by a delimiter split back into the words. */
  lemma {:induction false} SplitJoined(qs: seq<JString>, d: JString)
    requires qs != [] && forall k | 0 <= k < |qs| :: IsLowerPart(qs[k])
    requires |d| == 1 && IsDelimiter(d[0])
    ensures Split(Joined(qs, d)) == Ok(qs)
  {
    var r := Joined(qs, d);
    assert r + [] == r;
    ScanJoinedLower(qs, d, r, []);
    InitLast(qs);
    assert Flush(qs[..|qs| - 1], qs[|qs| - 1]) == qs;
  }

  /** Splitting a lower-case kebab or underscore rendering gives back the words, lower-cased. */
  lemma {:induction false} LowerDelimitedRoundTrip(ps: seq<JString>, d: JString)
    requires AllSplitParts(ps)
    requires d == Hyphen || d == Underscore
    ensures Split(Render(ps, d, false)) == Ok(LowerParts(ps))
  {
    if ps != [] {
      var qs := LowerParts(ps);
      forall k | 0 <= k < |qs|
        ensures IsLowerPart(qs[k])
      {
        LoweredSplitPart(ps[k]);
      }
      RenderLowerIsJoined(ps, d);
      SplitJoined(qs, d);
    } else {
      assert LowerParts(ps) == [];
    }
  }

  /** Lower-casing the words keeps them equal ignoring case. */
  lemma {:induction false} LowerPartsSame(ps: seq<JString>)
    ensures SameParts(LowerParts(ps), ps)
  {
    var qs := LowerParts(ps);
    forall k | 0 <= k < |ps|
      ensures EqualsIgnoreCase(qs[k], ps[k])
    {
      forall i | 0 <= i < |ps[k]|
        ensures CharEqualsIgnoreCase(qs[k][i], ps[k][i])
      {
        CharEqualsIgnoreCaseIsLower(qs[k][i], ps[k][i]);
      }
    }
  }

  /** Well-formed words concatenate to nothing only when there are none. */
  lemma {:induction false} ConcatEmpty(ps: seq<JString>)
    requires AllSplitParts(ps)
    ensures Concat(ps) == [] <==> ps == []
  {
    if ps != [] {
      assert |Concat(ps)| >= |ps[|ps| - 1]|;
    }
  }

  /** of on a non-empty text of token characters that splits into `parts`. */
  lemma {:induction false} OfTokenText(r: JString, parts: seq<JString>, g: Option<Format>)
    requires r != [] && forall k | 0 <= k < |r| :: IsTokenChar(r[k])
    requires Split(r) == Ok(parts)
    ensures Of(Some(r), g) == Ok(Token(parts, Hash(r), g))
  {
  }

  /** Tokenising the lower-case delimited rendering of valid words gives them back lower-cased, with the same hash. */
  lemma {:induction false} OfRenderLower(t: Token, d: JString, g: Option<Format>)
    requires t.Valid() && t.hash == FoldHash(LowerAll(Concat(t.parts)))
    requires d == Hyphen || d == Underscore
    ensures Of(Some(Render(t.parts, d, false)), g).Ok?
    ensures Of(Some(Render(t.parts, d, false)), g).value.parts == LowerParts(t.parts)
    ensures Of(Some(Render(t.parts, d, false)), g).value.hash == t.hash
  {
    var r := Render(t.parts, d, false);
    RenderWords(t.parts, d, false);
    ConcatEmpty(t.parts);
    if r == [] {
      assert WordChars(r) == [];
      assert t.parts == [];
      assert LowerAll(Concat(t.parts)) == [];
    } else {
      RenderTokenChars(t.parts, d, false);
      LowerDelimitedRoundTrip(t.parts, d);
      OfTokenText(r, LowerParts(t.parts), g);
      assert Hash(r) == t.hash;
    }
  }

  /**
   * Building a token from its own lower-case kebab or underscore rendering
   * gives a token equal to it, whose words are its words lower-cased.
   */
  lemma {:induction false} LowerDelimitedTokenRoundTrip(s: Option<JString>, f: Option<Format>, d: JString, g: Option<Format>)
    requires Of(s, f).Ok?
    requires d == Hyphen || d == Underscore
    ensures Of(s, f).value.Valid()
    ensures Of(Some(Render(Of(s, f).value.parts, d, false)), g).Ok?
    ensures Of(Some(Render(Of(s, f).value.parts, d, false)), g).value.parts == LowerParts(Of(s, f).value.parts)
    ensures Equals(Of(Some(Render(Of(s, f).value.parts, d, false)), g).value, WordToken(Of(s, f).value)) == Ok(true)
  {
    var t := Of(s, f).value;
    OfIsValid(s, f);
    OfRenderLower(t, d, g);
    LowerPartsSame(t.parts);
  }
}
