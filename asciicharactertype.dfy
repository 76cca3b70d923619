// AsciiCharacterType: 25 character classes over the ASCII range, stored as
// one bit per class in a shared 128-entry table of Java `int` masks.

module AsciiCharacterType {

  /**
   * A class, as its ordinal: the enum constants in declaration order. The
   * class's bit in a table entry is bit number `ordinal`; an entry (a Java
   * `int` used as a bit mask) is modelled as the set of its bit positions.
   */
  type CharType = t: nat | t < 25

  /** A Java `int` bit mask, as the set of bit positions that are 1. */
  type Mask = set<CharType>

  const CONTROL: CharType := 0
  const DEVICE: CharType := 1
  const INVISIBLE: CharType := 2
  const LINE_BREAKS: CharType := 3
  const BLANK: CharType := 4
  const LETTER: CharType := 5
  const UPPER_LETTER: CharType := 6
  const LOWER_LETTER: CharType := 7
  const NUMBER: CharType := 8
  const NUM_DEC: CharType := 9
  const NUM_HEX: CharType := 10
  const NUM_OCT: CharType := 11
  const PUNCTUATION: CharType := 12
  const ARITHMETIC: CharType := 13
  const COMPARISON: CharType := 14
  const BRACKETS: CharType := 15
  const LEFT_BRACKETS: CharType := 16
  const RIGHT_BRACKETS: CharType := 17
  const PATH_SEPARATOR: CharType := 18
  const WHITESPACE: CharType := 19
  const SYMBOL: CharType := 20
  const PRINTABLE: CharType := 21
  const ALPHANUMERIC: CharType := 22
  const QUOTE: CharType := 23
  const SPECIAL: CharType := 24

  /** `x | (1 << t)` */
  function WithBit(x: Mask, t: CharType): Mask
  {
    x + {t}
  }

  /** `(x & (1 << t)) != 0` */
  predicate Has(x: Mask, t: CharType)
  {
    t in x
  }

  // ------------------------------------------------- the classes' members

  /** Char literal, as the table index it stands for. */
  function Ch(c: char): int { c as int }

  /**
   * The membership the class constants document: each class is the union of
   * the ranges and characters its documentation names.
   */
  predicate InType(t: CharType, c: int)
  {
    if t == CONTROL then 0 <= c <= 31 || c == 127
    else if t == DEVICE then 17 <= c <= 20
    else if t == INVISIBLE then c in {8, 12, Ch('\r'), Ch('\n'), Ch('\t'), Ch(' ')}
    else if t == LINE_BREAKS then c in {Ch('\r'), Ch('\n')}
    else if t == BLANK then c in {Ch('\t'), Ch(' ')}
    else if t == LETTER then Ch('A') <= c <= Ch('Z') || Ch('a') <= c <= Ch('z')
    else if t == UPPER_LETTER then Ch('A') <= c <= Ch('Z')
    else if t == LOWER_LETTER then Ch('a') <= c <= Ch('z')
    else if t == NUMBER then Ch('0') <= c <= Ch('9') || c in {Ch('+'), Ch('-'), Ch('.')}
    else if t == NUM_DEC then Ch('0') <= c <= Ch('9')
    else if t == NUM_HEX then Ch('0') <= c <= Ch('9') || Ch('a') <= c <= Ch('f') || Ch('A') <= c <= Ch('F')
    else if t == NUM_OCT then Ch('0') <= c <= Ch('7')
    else if t == PUNCTUATION then 33 <= c <= 47 || 58 <= c <= 64 || 91 <= c <= 96 || 123 <= c <= 126
    else if t == ARITHMETIC then c in {Ch('+'), Ch('-'), Ch('*'), Ch('/')}
    else if t == COMPARISON then c in {Ch('<'), Ch('>'), Ch('=')}
    else if t == BRACKETS then c in {Ch('<'), Ch('>'), Ch('('), Ch(')'), Ch('['), Ch(']'), Ch('{'), Ch('}')}
    else if t == LEFT_BRACKETS then c in {Ch('<'), Ch('('), Ch('['), Ch('{')}
    else if t == RIGHT_BRACKETS then c in {Ch('>'), Ch(')'), Ch(']'), Ch('}')}
    else if t == PATH_SEPARATOR then c in {Ch('/'), Ch('\\')}
    else if t == WHITESPACE then c in {Ch('\t'), Ch('\n'), Ch('\r'), Ch(' ')}
    else if t == SYMBOL then 33 <= c <= 47 || 58 <= c <= 64 || 91 <= c <= 96 || 123 <= c <= 126
    else if t == PRINTABLE then Ch(' ') <= c <= Ch('~')
    else if t == ALPHANUMERIC then Ch('A') <= c <= Ch('Z') || Ch('a') <= c <= Ch('z') || Ch('0') <= c <= Ch('9')
    else if t == QUOTE then c in {Ch('"'), Ch('\''), Ch('`')}
    else
    /* SPECIAL */ c in {Ch('@'), Ch('#'), Ch('$'), Ch('%'), Ch('^'), Ch('&'), Ch('*')}
  }

  // --------------------------------------------------- the static block

  /** One setSymbol(type, startInclusive, endInclusive, chars...) call. */
  datatype SymbolCall = SymbolCall(t: CharType, startInclusive: int, endInclusive: int, chars: seq<int>)

  /** setSymbol marks the inclusive range only when it is well formed and starts inside the table. */
  predicate RangeMarked(call: SymbolCall)
  {
    call.startInclusive <= call.endInclusive && call.startInclusive >= 0 && call.startInclusive < 128
  }

  /** The indices one call ORs its class's bit into. */
  predicate Marks(call: SymbolCall, c: int)
  {
    (RangeMarked(call) && call.startInclusive <= c <= call.endInclusive) || c in call.chars
  }

  /** Whether the call writes only inside the table (otherwise Java throws ArrayIndexOutOfBoundsException). */
  predicate InBounds(call: SymbolCall)
  {
    (RangeMarked(call) ==> call.endInclusive < 128)
    && forall k | 0 <= k < |call.chars| :: 0 <= call.chars[k] < 128
  }

  /** The setSymbol calls of the static block for class `t`, in source order. */
  function CallsOf(t: CharType): (r: seq<SymbolCall>)
    ensures forall k | 0 <= k < |r| :: r[k].t == t
  {
    if t == CONTROL then [SymbolCall(t, 0, 31, [127])]
    else if t == DEVICE then [SymbolCall(t, 17, 20, [])]
    else if t == INVISIBLE then [SymbolCall(t, -1, -1, [8, 12, Ch('\r'), Ch('\n'), Ch('\t'), Ch(' ')])]
    else if t == LINE_BREAKS then [SymbolCall(t, -1, -1, [Ch('\r'), Ch('\n')])]
    else if t == BLANK then [SymbolCall(t, -1, -1, [Ch('\t'), Ch(' ')])]
    else if t == LETTER then [SymbolCall(t, Ch('A'), Ch('Z'), []), SymbolCall(t, Ch('a'), Ch('z'), [])]
    else if t == UPPER_LETTER then [SymbolCall(t, Ch('A'), Ch('Z'), [])]
    else if t == LOWER_LETTER then [SymbolCall(t, Ch('a'), Ch('z'), [])]
    else if t == NUMBER then [SymbolCall(t, Ch('0'), Ch('9'), [Ch('+'), Ch('-'), Ch('.')])]
    else if t == NUM_DEC then [SymbolCall(t, Ch('0'), Ch('9'), [])]
    else if t == NUM_HEX then [SymbolCall(t, Ch('0'), Ch('9'), [Ch('a'), Ch('b'), Ch('c'), Ch('d'), Ch('e'), Ch('f'),
                                                     Ch('A'), Ch('B'), Ch('C'), Ch('D'), Ch('E'), Ch('F')])]
    else if t == NUM_OCT then [SymbolCall(t, Ch('0'), Ch('7'), [])]
    else if t == PUNCTUATION then [SymbolCall(t, 33, 47, []), SymbolCall(t, 58, 64, []),
                         SymbolCall(t, 91, 96, []), SymbolCall(t, 123, 126, [])]
    else if t == ARITHMETIC then [SymbolCall(t, -1, -1, [Ch('+'), Ch('-'), Ch('*'), Ch('/')])]
    else if t == COMPARISON then [SymbolCall(t, -1, -1, [Ch('<'), Ch('>'), Ch('=')])]
    else if t == BRACKETS then [SymbolCall(t, -1, -1, [Ch('<'), Ch('>'), Ch('('), Ch(')'), Ch('['), Ch(']'), Ch('{'), Ch('}')])]
    else if t == LEFT_BRACKETS then [SymbolCall(t, -1, -1, [Ch('<'), Ch('('), Ch('['), Ch('{')])]
    else if t == RIGHT_BRACKETS then [SymbolCall(t, -1, -1, [Ch('>'), Ch(')'), Ch(']'), Ch('}')])]
    else if t == PATH_SEPARATOR then [SymbolCall(t, -1, -1, [Ch('/'), Ch('\\')])]
    else if t == WHITESPACE then [SymbolCall(t, -1, -1, [Ch('\t'), Ch('\n'), Ch('\r'), Ch(' ')])]
    else if t == SYMBOL then [SymbolCall(t, 33, 47, []), SymbolCall(t, 58, 64, []),
                    SymbolCall(t, 91, 96, []), SymbolCall(t, 123, 126, [])]
    else if t == PRINTABLE then [SymbolCall(t, Ch(' '), Ch('~'), [])]
    else if t == ALPHANUMERIC then [SymbolCall(t, Ch('A'), Ch('Z'), []), SymbolCall(t, Ch('a'), Ch('z'), []),
                          SymbolCall(t, Ch('0'), Ch('9'), [])]
    else if t == QUOTE then [SymbolCall(t, -1, -1, [Ch('"'), Ch('\''), Ch('`')])]
    else
    /* SPECIAL */ [SymbolCall(t, -1, -1, [Ch('@'), Ch('#'), Ch('$'), Ch('%'), Ch('^'), Ch('&'), Ch('*')])]
  }

  /** Whether one of the calls marks `c`. */
  predicate AnyMarks(calls: seq<SymbolCall>, c: int)
  {
    exists k | 0 <= k < |calls| :: Marks(calls[k], c)
  }

  lemma {:induction false} AnyMarksSnoc(calls: seq<SymbolCall>, j: nat, c: int)
    requires j < |calls|
    ensures AnyMarks(calls[..j + 1], c) <==> AnyMarks(calls[..j], c) || Marks(calls[j], c)
  {
    if AnyMarks(calls[..j + 1], c) {
      var k :| 0 <= k < j + 1 && Marks(calls[..j + 1][k], c);
      if k < j { assert calls[..j][k] == calls[k]; }
    }
    if AnyMarks(calls[..j], c) {
      var k :| 0 <= k < j && Marks(calls[..j][k], c);
      assert calls[..j + 1][k] == calls[k];
    }
    if Marks(calls[j], c) {
      assert calls[..j + 1][j] == calls[j];
    }
  }

  /**
   * The static block's calls mark exactly the documented members of each
   * class, and stay inside the table. The proof goes class by class.
   */
  lemma {:induction false} CallsMarkTheirType(t: CharType, c: int)
    ensures AnyMarks(CallsOf(t), c) <==> InType(t, c)
    ensures forall k | 0 <= k < |CallsOf(t)| :: InBounds(CallsOf(t)[k])
  {
    if t < INVISIBLE + 1 { CallsMarkControlToInvisible(t, c); }
    else if t < LETTER + 1 { CallsMarkLineBreaksToLetter(t, c); }
    else if t < NUMBER + 1 { CallsMarkUpperLetterToNumber(t, c); }
    else if t < NUM_DEC + 1 { CallsMarkNumDec(t, c); }
    else if t < NUM_HEX + 1 { CallsMarkNumHex(t, c); }
    else if t < PUNCTUATION + 1 { CallsMarkNumOctToPunctuation(t, c); }
    else if t < COMPARISON + 1 { CallsMarkArithmeticToComparison(t, c); }
    else if t < BRACKETS + 1 { CallsMarkBrackets(t, c); }
    else if t < RIGHT_BRACKETS + 1 { CallsMarkLeftBracketsToRightBrackets(t, c); }
    else if t < WHITESPACE + 1 { CallsMarkPathSeparatorToWhitespace(t, c); }
    else if t < PRINTABLE + 1 { CallsMarkSymbolToPrintable(t, c); }
    else if t < QUOTE + 1 { CallsMarkAlphanumericToQuote(t, c); }
    else { CallsMarkSpecial(t, c); }
  }

  lemma {:induction false} CallsMarkControlToInvisible(t: CharType, c: int)
    requires CONTROL <= t <= INVISIBLE
    ensures AnyMarks(CallsOf(t), c) <==> InType(t, c)
    ensures forall k | 0 <= k < |CallsOf(t)| :: InBounds(CallsOf(t)[k])
  {
    AnyMarksOfFew(CallsOf(t), c);
  }

  lemma {:induction false} CallsMarkLineBreaksToLetter(t: CharType, c: int)
    requires LINE_BREAKS <= t <= LETTER
    ensures AnyMarks(CallsOf(t), c) <==> InType(t, c)
    ensures forall k | 0 <= k < |CallsOf(t)| :: InBounds(CallsOf(t)[k])
  {
    AnyMarksOfFew(CallsOf(t), c);
  }

  lemma {:induction false} CallsMarkUpperLetterToNumber(t: CharType, c: int)
    requires UPPER_LETTER <= t <= NUMBER
    ensures AnyMarks(CallsOf(t), c) <==> InType(t, c)
    ensures forall k | 0 <= k < |CallsOf(t)| :: InBounds(CallsOf(t)[k])
  {
    AnyMarksOfFew(CallsOf(t), c);
  }

  lemma {:induction false} CallsMarkNumDec(t: CharType, c: int)
    requires t == NUM_DEC
    ensures AnyMarks(CallsOf(t), c) <==> InType(t, c)
    ensures forall k | 0 <= k < |CallsOf(t)| :: InBounds(CallsOf(t)[k])
  {
    AnyMarksOfFew(CallsOf(t), c);
  }

  lemma {:induction false} CallsMarkNumHex(t: CharType, c: int)
    requires t == NUM_HEX
    ensures AnyMarks(CallsOf(t), c) <==> InType(t, c)
    ensures forall k | 0 <= k < |CallsOf(t)| :: InBounds(CallsOf(t)[k])
  {
    var chars := [Ch('a'), Ch('b'), Ch('c'), Ch('d'), Ch('e'), Ch('f'),
                  Ch('A'), Ch('B'), Ch('C'), Ch('D'), Ch('E'), Ch('F')];
    var call := SymbolCall(t, Ch('0'), Ch('9'), chars);
    assert CallsOf(t) == [call];
    assert RangeMarked(call);
    var lower, upper := chars[..6], chars[6..];
    assert chars == lower + upper;
    ConsecutiveRun(lower, Ch('a'), c);
    ConsecutiveRun(upper, Ch('A'), c);
    assert c in chars <==> c in lower || c in upper;
    AnyMarksOfFew(CallsOf(t), c);
  }

  /** A run of consecutive values holds exactly the values of its range. */
  lemma {:induction false} ConsecutiveRun(xs: seq<int>, base: int, c: int)
    requires forall i | 0 <= i < |xs| :: xs[i] == base + i
    ensures c in xs <==> base <= c < base + |xs|
  {
    if base <= c < base + |xs| {
      assert xs[c - base] == c;
    }
  }

  lemma {:induction false} CallsMarkNumOctToPunctuation(t: CharType, c: int)
    requires NUM_OCT <= t <= PUNCTUATION
    ensures AnyMarks(CallsOf(t), c) <==> InType(t, c)
    ensures forall k | 0 <= k < |CallsOf(t)| :: InBounds(CallsOf(t)[k])
  {
    AnyMarksOfFew(CallsOf(t), c);
  }

  lemma {:induction false} CallsMarkArithmeticToComparison(t: CharType, c: int)
    requires ARITHMETIC <= t <= COMPARISON
    ensures AnyMarks(CallsOf(t), c) <==> InType(t, c)
    ensures forall k | 0 <= k < |CallsOf(t)| :: InBounds(CallsOf(t)[k])
  {
    AnyMarksOfFew(CallsOf(t), c);
  }

  lemma {:induction false} CallsMarkBrackets(t: CharType, c: int)
    requires t == BRACKETS
    ensures AnyMarks(CallsOf(t), c) <==> InType(t, c)
    ensures forall k | 0 <= k < |CallsOf(t)| :: InBounds(CallsOf(t)[k])
  {
    var chars := [Ch('<'), Ch('>'), Ch('('), Ch(')'), Ch('['), Ch(']'), Ch('{'), Ch('}')];
    var call := SymbolCall(t, -1, -1, chars);
    assert CallsOf(t) == [call];
    assert !RangeMarked(call);
    assert InType(t, c) <==> c in chars;
    AnyMarksOfFew(CallsOf(t), c);
  }

  lemma {:induction false} CallsMarkLeftBracketsToRightBrackets(t: CharType, c: int)
    requires LEFT_BRACKETS <= t <= RIGHT_BRACKETS
    ensures AnyMarks(CallsOf(t), c) <==> InType(t, c)
    ensures forall k | 0 <= k < |CallsOf(t)| :: InBounds(CallsOf(t)[k])
  {
    AnyMarksOfFew(CallsOf(t), c);
  }

  lemma {:induction false} CallsMarkPathSeparatorToWhitespace(t: CharType, c: int)
    requires PATH_SEPARATOR <= t <= WHITESPACE
    ensures AnyMarks(CallsOf(t), c) <==> InType(t, c)
    ensures forall k | 0 <= k < |CallsOf(t)| :: InBounds(CallsOf(t)[k])
  {
    AnyMarksOfFew(CallsOf(t), c);
  }

  lemma {:induction false} CallsMarkSymbolToPrintable(t: CharType, c: int)
    requires SYMBOL <= t <= PRINTABLE
    ensures AnyMarks(CallsOf(t), c) <==> InType(t, c)
    ensures forall k | 0 <= k < |CallsOf(t)| :: InBounds(CallsOf(t)[k])
  {
    AnyMarksOfFew(CallsOf(t), c);
  }

  lemma {:induction false} CallsMarkAlphanumericToQuote(t: CharType, c: int)
    requires ALPHANUMERIC <= t <= QUOTE
    ensures AnyMarks(CallsOf(t), c) <==> InType(t, c)
    ensures forall k | 0 <= k < |CallsOf(t)| :: InBounds(CallsOf(t)[k])
  {
    AnyMarksOfFew(CallsOf(t), c);
  }

  lemma {:induction false} CallsMarkSpecial(t: CharType, c: int)
    requires t == SPECIAL
    ensures AnyMarks(CallsOf(t), c) <==> InType(t, c)
    ensures forall k | 0 <= k < |CallsOf(t)| :: InBounds(CallsOf(t)[k])
  {
    AnyMarksOfFew(CallsOf(t), c);
  }

  lemma {:induction false} AnyMarksOfFew(calls: seq<SymbolCall>, c: int)
    requires |calls| <= 4
    ensures AnyMarks(calls, c) <==>
      (|calls| > 0 && Marks(calls[0], c)) || (|calls| > 1 && Marks(calls[1], c))
      || (|calls| > 2 && Marks(calls[2], c)) || (|calls| > 3 && Marks(calls[3], c))
  {
  }

  // ------------------------------------------------------------ the table

  /**
   * The table after classes below `k` are complete and the first `j` calls
   * of class `k` are done.
   */
  ghost predicate Filled(a: seq<Mask>, k: CharType, calls: seq<SymbolCall>, j: nat)
    requires j <= |calls|
  {
    |a| == 128
    && forall c, u: CharType | 0 <= c < 128 ::
      Has(a[c], u) <==> (u < k && InType(u, c)) || (u == k && AnyMarks(calls[..j], c))
  }

  /** One more setSymbol call of class `k` keeps the table filled. */
  lemma {:induction false} FilledStep(before: seq<Mask>, after: seq<Mask>, k: CharType, calls: seq<SymbolCall>, j: nat)
    requires j < |calls| && calls[j].t == k
    requires Filled(before, k, calls, j) && |after| == 128
    requires forall c | 0 <= c < 128 ::
      after[c] == if Marks(calls[j], c) then WithBit(before[c], k) else before[c]
    ensures Filled(after, k, calls, j + 1)
  {
    forall c, u: CharType | 0 <= c < 128
      ensures Has(after[c], u) <==> (u < k && InType(u, c)) || (u == k && AnyMarks(calls[..j + 1], c))
    {
      AnyMarksSnoc(calls, j, c);
      assert Has(before[c], u) <==> (u < k && InType(u, c)) || (u == k && AnyMarks(calls[..j], c));
      if Marks(calls[j], c) {
        assert after[c] == before[c] + {k};
      } else {
        assert after[c] == before[c];
      }
    }
  }

  /** Once every call of class `k` is done, class `k` is complete. */
  lemma {:induction false} FilledClass(a: seq<Mask>, k: CharType, calls: seq<SymbolCall>)
    requires calls == CallsOf(k) && Filled(a, k, calls, |calls|)
    ensures forall c, u: CharType | 0 <= c < 128 :: Has(a[c], u) <==> u < k + 1 && InType(u, c)
  {
    assert calls[..|calls|] == calls;
    forall c, u: CharType | 0 <= c < 128
      ensures Has(a[c], u) <==> u < k + 1 && InType(u, c)
    {
      CallsMarkTheirType(k, c);
    }
  }

  /** The shared ASCII table that the static block fills. */
  class CharacterTable {
    const ascii: array<Mask>

    /** Each entry carries exactly the bits of the classes the character belongs to. */
    ghost predicate Valid()
      reads this, ascii
    {
      ascii.Length == 128
      && forall c, t | 0 <= c < 128 :: Has(ascii[c], t) <==> InType(t, c)
    }

    /** The static initialiser: every class's setSymbol calls, in source order. */
    constructor ()
      ensures Valid()
      ensures fresh(ascii)
    {
      ascii := new Mask[128](_ => {});
      new;
      var k := 0;
      while k < 25
        invariant 0 <= k <= 25
        invariant ascii.Length == 128
        invariant forall c, u: CharType | 0 <= c < 128 :: Has(ascii[c], u) <==> u < k && InType(u, c)
      {
        var t: CharType := k;
        var calls := CallsOf(t);
        var j := 0;
        while j < |calls|
          invariant 0 <= j <= |calls|
          invariant Filled(ascii[..], t, calls, j)
        {
          CallsMarkTheirType(t, 0);
          ghost var before := ascii[..];
          var ok := SetSymbol(calls[j]);
          assert ok;
          FilledStep(before, ascii[..], t, calls, j);
          j := j + 1;
        }
        FilledClass(ascii[..], t, calls);
        k := k + 1;
      }
    }

    /**
     * setSymbol: ORs the call's bit into the range (when it is marked) and
     * into each listed character. `ok` is false when Java would throw
     * ArrayIndexOutOfBoundsException; entries written before that keep the bit.
     */
    method SetSymbol(call: SymbolCall) returns (ok: bool)
      requires ascii.Length == 128
      modifies ascii
      ensures ok <==> InBounds(call)
      ensures ok ==> forall c | 0 <= c < 128 ::
        ascii[c] == if Marks(call, c) then WithBit(old(ascii[c]), call.t) else old(ascii[c])
      ensures forall c | 0 <= c < 128 ::
        ascii[c] == old(ascii[c]) || ascii[c] == WithBit(old(ascii[c]), call.t)
    {
      if RangeMarked(call) {
        var i := call.startInclusive;
        while i <= call.endInclusive
          invariant call.startInclusive <= i <= call.endInclusive + 1
          invariant i <= 128
          invariant forall c | 0 <= c < 128 ::
            ascii[c] == if call.startInclusive <= c < i then WithBit(old(ascii[c]), call.t) else old(ascii[c])
        {
          if i >= 128 { return false; }
          ascii[i] := WithBit(ascii[i], call.t);
          i := i + 1;
        }
      }
      ghost var afterRange := ascii[..];
      var k := 0;
      while k < |call.chars|
        invariant 0 <= k <= |call.chars|
        invariant forall x | 0 <= x < k :: 0 <= call.chars[x] < 128
        invariant forall c | 0 <= c < 128 ::
          ascii[c] == if c in call.chars[..k] then WithBit(afterRange[c], call.t) else afterRange[c]
      {
        var c := call.chars[k];
        if c < 0 || c >= 128 { return false; }
        ascii[c] := WithBit(ascii[c], call.t);
        k := k + 1;
      }
      assert call.chars[..k] == call.chars;
      return true;
    }

    /** isMatch: whether code point `c` belongs to class `t`; false outside the table. */
    function IsMatch(t: CharType, c: int): (r: bool)
      reads this, ascii
      requires Valid()
      ensures r <==> 0 <= c < 128 && InType(t, c)
    {
      if c < 0 || c >= ascii.Length then false
      else {t} <= ascii[c]
    }

    /** isMatchAll: whether `c` belongs to every listed class (vacuously true for none). */
    method IsMatchAll(c: int, types: seq<CharType>) returns (r: bool)
      requires Valid()
      ensures r <==> 0 <= c < 128 && forall k | 0 <= k < |types| :: InType(types[k], c)
    {
      if c < 0 || c >= ascii.Length {
        return false;
      }
      var mask := BuildMask(types);
      r := mask <= ascii[c];
    }

    /** isMatchAny: whether `c` belongs to at least one listed class (false for none). */
    method IsMatchAny(c: int, types: seq<CharType>) returns (r: bool)
      requires Valid()
      ensures r <==> 0 <= c < 128 && exists k | 0 <= k < |types| :: InType(types[k], c)
    {
      if c < 0 || c >= ascii.Length {
        return false;
      }
      var mask := BuildMask(types);
      r := mask * ascii[c] != {};
      if r {
        var u :| u in mask * ascii[c];
        var k :| 0 <= k < |types| && types[k] == u;
        assert InType(types[k], c);
      }
      if exists k | 0 <= k < |types| :: InType(types[k], c) {
        var k :| 0 <= k < |types| && InType(types[k], c);
        assert types[k] in mask * ascii[c];
      }
    }
  }

  /** The loop that ORs the listed classes' bits into one mask. */
  method BuildMask(types: seq<CharType>) returns (mask: Mask)
    ensures forall u :: u in mask <==> exists k | 0 <= k < |types| :: types[k] == u
  {
    mask := {};
    var i := 0;
    while i < |types|
      invariant 0 <= i <= |types|
      invariant forall u :: u in mask <==> exists k | 0 <= k < i :: types[k] == u
    {
      mask := WithBit(mask, types[i]);
      i := i + 1;
    }
  }

  // ------------------------------------------------- facts about the classes

  /** CONTROL and PRINTABLE partition the ASCII range. */
  lemma {:induction false} ControlPrintablePartition(table: CharacterTable, c: int)
    requires table.Valid()
    requires 0 <= c < 128
    ensures table.IsMatch(CONTROL, c) != table.IsMatch(PRINTABLE, c)
  {
  }

  /** LETTER is UPPER_LETTER or LOWER_LETTER; ALPHANUMERIC is LETTER or NUM_DEC; SYMBOL is PUNCTUATION. */
  lemma {:induction false} ClassUnions(table: CharacterTable, c: int)
    requires table.Valid()
    ensures table.IsMatch(LETTER, c) <==> table.IsMatch(UPPER_LETTER, c) || table.IsMatch(LOWER_LETTER, c)
    ensures table.IsMatch(ALPHANUMERIC, c) <==> table.IsMatch(LETTER, c) || table.IsMatch(NUM_DEC, c)
    ensures table.IsMatch(SYMBOL, c) <==> table.IsMatch(PUNCTUATION, c)
  {
  }
}
