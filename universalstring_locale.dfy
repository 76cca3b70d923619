// parseFullToLocale(input): the locale name is checked and its separators
// rewritten to `_` in place, the text is cut at each `_` into parts packed
// as (start << 32 | length), and language, country and variant are read
// off the parts. The packed parts are proved to decode to the `_`-separated
// fields of the text, so the reading is stated on the fields alone.
module UniversalStringLocale {
  import opened JavaText
  import UniversalString

  /** The (language, country, variant) a java.util.Locale is constructed from. */
  datatype LocaleParts = LocaleParts(language: JString, country: JString, variant: JString)

  const Separator: CodeUnit := '_' as int

  /** 2^31: no Java array, and so no part offset or length, reaches it. */
  const HalfShift: int := 0x8000_0000

  /** 2^32: the weight of the offset in a packed part. */
  const Shift: int := 0x1_0000_0000

  // ------------------------------------------------- the characters

  /** The characters the check accepts: `_`, `#`, space, `-`, letters and digits. */
  predicate IsLocaleChar(c: int)
  {
    c == '_' as int || c == '#' as int || c == ' ' as int || c == '-' as int || IsAsciiLetter(c) || IsAsciiDigit(c)
  }

  predicate AllLocaleChars(s: JString)
  {
    forall k | 0 <= k < |s| :: IsLocaleChar(s[k])
  }

  /** A space or a `-` becomes the separator `_`; everything else stays. */
  function Separated(c: CodeUnit): CodeUnit
  {
    if c == ' ' as int || c == '-' as int then Separator else c
  }

  function Rewritten(s: JString): (r: JString)
    ensures |r| == |s|
  {
    seq(|s|, k requires 0 <= k < |s| => Separated(s[k]))
  }

  // ----------------------------------------------------- the fields

  predicate NoSeparator(s: JString)
  {
    forall k | 0 <= k < |s| :: s[k] != Separator
  }

  /** The texts between consecutive `_`, empty ones included: String.split on `_` with a negative limit. */
  function Fields(s: JString): (r: seq<JString>)
    ensures |r| >= 1
    decreases |s|
  {
    if s == [] then [[]]
    else
      var rest := Fields(s[1..]);
      if s[0] == Separator then [[]] + rest else [[s[0]] + rest[0]] + rest[1..]
  }

  /** The fields put back together with `_` between them. */
  function Join(fs: seq<JString>): JString
    requires |fs| >= 1
  {
    if |fs| == 1 then fs[0] else fs[0] + [Separator] + Join(fs[1..])
  }

  /** Joining the fields of a text gives the text back. */
  lemma {:induction false} JoinFields(s: JString)
    ensures Join(Fields(s)) == s
    decreases |s|
  {
    if s != [] {
      var rest := Fields(s[1..]);
      JoinFields(s[1..]);
      if s[0] == Separator {
        assert ([[]] + rest)[1..] == rest;
      } else if |rest| > 1 {
        var fs := [[s[0]] + rest[0]] + rest[1..];
        assert fs[1..] == rest[1..];
        assert Join(rest) == rest[0] + [Separator] + Join(rest[1..]);
      }
    }
  }

  /** No field holds a separator. */
  lemma {:induction false} FieldsHaveNoSeparator(s: JString)
    ensures forall j | 0 <= j < |Fields(s)| :: NoSeparator(Fields(s)[j])
    decreases |s|
  {
    if s != [] {
      FieldsHaveNoSeparator(s[1..]);
      var rest := Fields(s[1..]);
      if s[0] != Separator {
        var f := [s[0]] + rest[0];
        assert forall k | 1 <= k < |f| :: f[k] == rest[0][k - 1];
      }
    }
  }

  /** A text up to its first separator (or its end) is its first field; what follows the separator has the remaining fields. */
  lemma {:induction false} FieldsAt(t: JString, k: nat)
    requires k <= |t| && NoSeparator(t[..k]) && (k == |t| || t[k] == Separator)
    ensures Fields(t)[0] == t[..k]
    ensures k == |t| ==> |Fields(t)| == 1
    ensures k < |t| ==> Fields(t)[1..] == Fields(t[k + 1..])
    decreases k
  {
    if k > 0 {
      assert t[0] == t[..k][0];
      assert t[1..][..k - 1] == t[..k][1..];
      assert t[1..][k - 1..] == t[k..];
      FieldsAt(t[1..], k - 1);
      if k < |t| {
        assert t[1..][k..] == t[k + 1..];
      }
    }
  }

  /** Splitting the join of separator-free fields gives the fields back. */
  lemma {:induction false} FieldsOfJoin(fs: seq<JString>)
    requires |fs| >= 1 && forall j | 0 <= j < |fs| :: NoSeparator(fs[j])
    ensures Fields(Join(fs)) == fs
    decreases |fs|
  {
    var f := fs[0];
    assert f[..|f|] == f;
    if |fs| == 1 {
      FieldsAt(f, |f|);
    } else {
      var t := f + [Separator] + Join(fs[1..]);
      assert t[..|f|] == f && t[|f| + 1..] == Join(fs[1..]);
      FieldsAt(t, |f|);
      FieldsOfJoin(fs[1..]);
      assert Fields(t) == [Fields(t)[0]] + Fields(t)[1..];
    }
  }

  // ------------------------------------------------------ the parts

  /** ((start & 0xFFFFFFFFL) << 32) | len: the low half is free, so the `|` adds. */
  function Pack(start: int, len: int): int
  {
    (start % Shift) * Shift + len
  }

  /** (int) (part >>> 32) */
  function Offset(part: int): int
  {
    part / Shift
  }

  /** (int) part */
  function Length(part: int): int
  {
    Int32(part)
  }

  /** The part the splitting loop adds for a field from start up to end: 0 for an empty field. */
  function Part(start: int, end: int): int
  {
    if end > start then Pack(start, end - start) else 0
  }

  /** A packed part decodes to its offset and length, and is never 0. */
  lemma {:induction false} PackRoundTrip(start: int, len: int)
    requires 0 <= start < HalfShift && 0 < len < HalfShift
    ensures Pack(start, len) != 0
    ensures Offset(Pack(start, len)) == start && Length(Pack(start, len)) == len
  {
    assert start % Shift == start;
    var p := start * Shift + len;
    assert p / Shift == start;
    assert (p + HalfShift) % Shift == len + HalfShift;
  }

  /** The parts of the fields fs, the first of which begins at base. */
  function FieldParts(fs: seq<JString>, base: int): (r: seq<int>)
    ensures |r| == |fs|
  {
    if fs == [] then [] else [Part(base, base + |fs[0]|)] + FieldParts(fs[1..], base + |fs[0]| + 1)
  }

  /** Where field j begins in the joined text. */
  function Start(fs: seq<JString>, j: nat): int
    requires j <= |fs|
  {
    if j == 0 then 0 else |fs[0]| + 1 + Start(fs[1..], j - 1)
  }

  /** The splitting loop from index i, the current field having begun at start. */
  function PartsFrom(s: JString, i: nat, start: nat): seq<int>
    requires start <= i <= |s|
    decreases |s| - i
  {
    if i == |s| then [Part(start, i)]
    else if s[i] == Separator then [Part(start, i)] + PartsFrom(s, i + 1, i + 1)
    else PartsFrom(s, i + 1, start)
  }

  /** The splitting loop yields one part per field, each at its place in the text. */
  lemma {:induction false} PartsFromFields(s: JString, i: nat, start: nat)
    requires start <= i <= |s| && NoSeparator(s[start..i])
    ensures PartsFrom(s, i, start) == FieldParts(Fields(s[start..]), start)
    decreases |s| - i
  {
    if i == |s| {
      PartsAtEnd(s, start);
    } else if s[i] == Separator {
      assert s[i + 1..i + 1] == [];
      PartsFromFields(s, i + 1, i + 1);
      PartsAtSeparator(s, i, start);
    } else {
      assert s[start..i + 1] == s[start..i] + [s[i]];
      PartsFromFields(s, i + 1, start);
    }
  }

  /** At the end of the text the loop adds the part of the last field. */
  lemma {:induction false} PartsAtEnd(s: JString, start: nat)
    requires start <= |s| && NoSeparator(s[start..])
    ensures PartsFrom(s, |s|, start) == FieldParts(Fields(s[start..]), start)
  {
    var t := s[start..];
    assert t[..|s| - start] == t;
    FieldsAt(t, |s| - start);
    assert Fields(t) == [t];
    assert FieldParts(Fields(t), start) == [Part(start, |s|)] + FieldParts([], |s| + 1);
  }

  /** At a separator the loop adds the current field's part and starts the next field after it. */
  lemma {:induction false} PartsAtSeparator(s: JString, i: nat, start: nat)
    requires start <= i < |s| && s[i] == Separator && NoSeparator(s[start..i])
    requires PartsFrom(s, i + 1, i + 1) == FieldParts(Fields(s[i + 1..]), i + 1)
    ensures PartsFrom(s, i, start) == FieldParts(Fields(s[start..]), start)
  {
    var t := s[start..];
    assert t[..i - start] == s[start..i];
    FieldsAt(t, i - start);
    assert t[i - start + 1..] == s[i + 1..];
    var fs := Fields(t);
    assert fs == [fs[0]] + fs[1..];
    assert |fs[0]| == i - start;
    assert FieldParts(fs, start) == [Part(start, i)] + FieldParts(fs[1..], i + 1);
  }

  lemma {:induction false} FieldPartsAt(fs: seq<JString>, base: int, j: nat)
    requires j < |fs|
    ensures FieldParts(fs, base)[j] == Part(base + Start(fs, j), base + Start(fs, j) + |fs[j]|)
    decreases j
  {
    if j > 0 {
      FieldPartsAt(fs[1..], base + |fs[0]| + 1, j - 1);
    }
  }

  /** Field j begins at Start(fs, j) and the joined text from there is the join of the fields from j on. */
  lemma {:induction false} JoinFrom(fs: seq<JString>, j: nat)
    requires j < |fs|
    ensures 0 <= Start(fs, j) && Start(fs, j) + |fs[j]| <= |Join(fs)|
    ensures Join(fs)[Start(fs, j)..] == Join(fs[j..])
    ensures Join(fs[j..])[..|fs[j]|] == fs[j]
    decreases j
  {
    if j == 0 {
      assert fs[0..] == fs;
    } else {
      JoinFrom(fs[1..], j - 1);
      assert fs[1..][j - 1..] == fs[j..];
      var head := fs[0] + [Separator];
      assert Join(fs) == head + Join(fs[1..]);
    }
    var rest := fs[j..];
    if |rest| > 1 {
      assert Join(rest) == rest[0] + ([Separator] + Join(rest[1..]));
    }
  }

  /**
   * In a text that fits a Java array, part j of its fields is 0 exactly
   * when field j is empty, and otherwise decodes to field j and, to the
   * end of the text, to the fields from j on joined again.
   */
  lemma {:induction false} PartDecodes(s: JString, j: nat)
    requires |s| < HalfShift && j < |Fields(s)|
    ensures var p, fs := FieldParts(Fields(s), 0)[j], Fields(s);
      && (p == 0 <==> fs[j] == [])
      && (p != 0 ==> 0 <= Offset(p) && 0 < Length(p) && Offset(p) + Length(p) <= |s|
                     && s[Offset(p)..Offset(p) + Length(p)] == fs[j]
                     && s[Offset(p)..] == Join(fs[j..]))
  {
    var fs := Fields(s);
    FieldPartsAt(fs, 0, j);
    JoinFields(s);
    JoinFrom(fs, j);
    var st := Start(fs, j);
    if |fs[j]| > 0 {
      PackRoundTrip(st, |fs[j]|);
      assert s[st..st + |fs[j]|] == s[st..][..|fs[j]|];
    }
  }

  // ------------------------------------------------------ the reading

  /** The first non-empty field from index j on, or |fs| when there is none. */
  function FirstNonEmpty(fs: seq<JString>, j: nat): (r: nat)
    ensures r == |fs| || (j <= r < |fs| && fs[r] != [])
    decreases |fs| - j
  {
    if j >= |fs| then |fs| else if fs[j] != [] then j else FirstNonEmpty(fs, j + 1)
  }

  /**
   * The locale the fields name: none without a language; the language is
   * the first field and the country the second; the variant is the rest
   * of the text from the next non-empty field on; a country that begins
   * with `#` and comes without a variant becomes the variant.
   */
  function LocaleOfFields(fs: seq<JString>): (r: Option<LocaleParts>)
    requires |fs| >= 1
    ensures r.Some? <==> fs[0] != []
    ensures r.Some? ==> r.value.language == fs[0]
    ensures r.Some? && r.value.country != [] ==> |fs| > 1 && r.value.country == fs[1]
  {
    if fs[0] == [] then None
    else
      var country := if |fs| > 1 then fs[1] else [];
      var j := FirstNonEmpty(fs, 2);
      var variant := if j < |fs| then Join(fs[j..]) else [];
      if variant == [] && |country| > 0 && country[0] == '#' as int then Some(LocaleParts(fs[0], [], country))
      else Some(LocaleParts(fs[0], country, variant))
  }

  /** parseFullToLocale(input): null for a null or empty text, IllegalArgumentException for a stray character. */
  function ParseLocale(input: Option<JString>): (r: Result<Option<LocaleParts>>)
    ensures UniversalString.IsEmpty(input) ==> r == Ok(None)
    ensures r.Err? <==> !UniversalString.IsEmpty(input) && !AllLocaleChars(input.value)
    ensures r.Err? ==> r.error == IllegalArgument
    ensures r.Ok? && r.value.Some? ==> r.value.value.language != []
  {
    if UniversalString.IsEmpty(input) then Ok(None)
    else if !AllLocaleChars(input.value) then Err(IllegalArgument)
    else Ok(LocaleOfFields(Fields(Rewritten(input.value))))
  }

  /** Language and country never hold a separator, and a locale always has a language. */
  lemma {:induction false} LocaleFieldsClean(s: JString)
    ensures var l := LocaleOfFields(Fields(s));
      l.Some? ==> l.value.language != [] && NoSeparator(l.value.language) && NoSeparator(l.value.country)
  {
    FieldsHaveNoSeparator(s);
  }

  /** A separator-free, `#`-free text is all language; a second field is the country. */
  lemma {:induction false} LanguageAndCountry(language: JString, country: JString)
    requires language != [] && NoSeparator(language) && NoSeparator(country)
    requires country == [] || country[0] != '#' as int
    ensures LocaleOfFields(Fields(language)) == Some(LocaleParts(language, [], []))
    ensures LocaleOfFields(Fields(language + [Separator] + country)) == Some(LocaleParts(language, country, []))
  {
    assert language[..|language|] == language;
    FieldsAt(language, |language|);
    var t := language + [Separator] + country;
    assert t[..|language|] == language && t[|language| + 1..] == country;
    FieldsAt(t, |language|);
    assert country[..|country|] == country;
    FieldsAt(country, |country|);
    assert Fields(t) == [language, country];
  }

  // ------------------------------------------------------- the method

  /** parseFullToLocale(CharSequence input). */
  method ParseFullToLocale(input: Option<JString>) returns (r: Result<Option<LocaleParts>>)
    requires input.Some? ==> |input.value| < HalfShift
    ensures r == ParseLocale(input)
  {
    if input.None? || |input.value| == 0 {
      return Ok(None);
    }
    var s := input.value;
    var inputChars := new CodeUnit[|s|](k requires 0 <= k < |s| => s[k]);
    assert inputChars[..] == s;
    var ok := Normalize(inputChars);
    if !ok {
      return Err(IllegalArgument);
    }
    var chars := inputChars[..];
    var parts := SplitParts(chars);
    var locale := ReadLocale(chars, parts);
    return Ok(locale);
  }

  /** The reading of language, country and variant off the parts. */
  method ReadLocale(chars: JString, parts: seq<int>) returns (r: Option<LocaleParts>)
    requires |chars| < HalfShift && parts == FieldParts(Fields(chars), 0)
    ensures r == LocaleOfFields(Fields(chars))
  {
    ghost var fs := Fields(chars);
    ZeroPartsAreEmpty(chars);
    if |parts| == 0 || parts[0] == 0 {
      return None;
    }
    var language := TextOfPart(chars, parts, 0);
    var country: JString := [];
    if |parts| > 1 && parts[1] != 0 {
      country := TextOfPart(chars, parts, 1);
    }
    var variant: JString := [];
    var j := FirstPart(parts);
    FirstNonEmptyIs(fs, 2, j);
    if j < |parts| {
      variant := TextFromPart(chars, parts, j);
    }
    if |variant| == 0 && |country| > 0 && country[0] == '#' as int {
      variant := country;
      country := [];
    }
    return Some(LocaleParts(language, country, variant));
  }

  /** new String(inputChars, offset, length) for a non-zero part: the field it stands for. */
  method TextOfPart(chars: JString, parts: seq<int>, j: nat) returns (f: JString)
    requires |chars| < HalfShift && parts == FieldParts(Fields(chars), 0)
    requires j < |parts| && parts[j] != 0
    ensures f == Fields(chars)[j]
  {
    PartDecodes(chars, j);
    f := chars[Offset(parts[j])..Offset(parts[j]) + Length(parts[j])];
  }

  /** new String(inputChars, offset, inputChars.length - offset) for a non-zero part: the fields from it on, joined. */
  method TextFromPart(chars: JString, parts: seq<int>, j: nat) returns (f: JString)
    requires |chars| < HalfShift && parts == FieldParts(Fields(chars), 0)
    requires j < |parts| && parts[j] != 0
    ensures f == Join(Fields(chars)[j..])
  {
    PartDecodes(chars, j);
    f := chars[Offset(parts[j])..];
  }

  /** A part is 0 exactly when its field is empty. */
  lemma {:induction false} ZeroPartsAreEmpty(s: JString)
    requires |s| < HalfShift
    ensures forall k | 0 <= k < |Fields(s)| :: FieldParts(Fields(s), 0)[k] == 0 <==> Fields(s)[k] == []
  {
    forall k | 0 <= k < |Fields(s)| ensures FieldParts(Fields(s), 0)[k] == 0 <==> Fields(s)[k] == [] {
      PartDecodes(s, k);
    }
  }

  /** The first loop: a stray character fails the check; spaces and `-` are rewritten to `_` in place. */
  method Normalize(a: array<CodeUnit>) returns (ok: bool)
    modifies a
    ensures ok <==> AllLocaleChars(old(a[..]))
    ensures ok ==> a[..] == Rewritten(old(a[..]))
  {
    var i := 0;
    while i < a.Length
      invariant 0 <= i <= a.Length
      invariant forall k | 0 <= k < i :: IsLocaleChar(old(a[k])) && a[k] == Separated(old(a[k]))
      invariant forall k | i <= k < a.Length :: a[k] == old(a[k])
    {
      if a[i] == '_' as int || a[i] == '#' as int {
        i := i + 1;
        continue;
      }
      if a[i] == ' ' as int || a[i] == '-' as int {
        a[i] := Separator;
      } else if !(IsAsciiLetter(a[i]) || IsAsciiDigit(a[i])) {
        assert !IsLocaleChar(old(a[..])[i]);
        return false;
      }
      i := i + 1;
    }
    return true;
  }

  /** The second loop: one packed part per `_`-separated field, 0 for an empty one. */
  method SplitParts(chars: JString) returns (parts: seq<int>)
    requires |chars| < HalfShift
    ensures parts == FieldParts(Fields(chars), 0)
  {
    parts := [];
    var i, start := 0, 0;
    while i <= |chars|
      invariant start <= i <= |chars| + 1
      invariant i <= |chars| ==> parts + PartsFrom(chars, i, start) == PartsFrom(chars, 0, 0)
      invariant i == |chars| + 1 ==> parts == PartsFrom(chars, 0, 0)
      decreases |chars| + 1 - i
    {
      if i == |chars| || chars[i] == Separator {
        parts := parts + [if i > start then Pack(start, i - start) else 0];
        start := i + 1;
      }
      i := i + 1;
    }
    assert chars[0..] == chars && chars[0..0] == [];
    PartsFromFields(chars, 0, 0);
  }

  /** The variant loop: the first non-zero part from index 2 on, or an index past the parts. */
  method FirstPart(parts: seq<int>) returns (j: nat)
    ensures 2 <= j && (j < |parts| ==> parts[j] != 0)
    ensures forall k | 2 <= k < j && k < |parts| :: parts[k] == 0
  {
    j := 2;
    while j < |parts|
      invariant 2 <= j
      invariant forall k | 2 <= k < j && k < |parts| :: parts[k] == 0
    {
      if parts[j] != 0 {
        return;
      }
      j := j + 1;
    }
  }

  lemma {:induction false} FirstNonEmptyIs(fs: seq<JString>, i: nat, j: nat)
    requires i <= j && (j < |fs| ==> fs[j] != [])
    requires forall k | i <= k < j && k < |fs| :: fs[k] == []
    ensures FirstNonEmpty(fs, i) == if j < |fs| then j else |fs|
    decreases j - i
  {
    if i < j && i < |fs| {
      FirstNonEmptyIs(fs, i + 1, j);
    }
  }
}

module UniversalStringLocaleExamples {
  import opened JavaText
  import opened UniversalStringLocale

  const En: JString := ['e' as int, 'n' as int]
  const Us: JString := ['U' as int, 'S' as int]
  const Win: JString := ['W' as int, 'I' as int, 'N' as int]
  const Latn: JString := ['#' as int, 'L' as int, 'A' as int, 'T' as int, 'N' as int]
  const Sep: JString := [Separator]

  /** "en_US_WIN": language, country and variant. */
  lemma {:induction false} LanguageCountryVariant()
    ensures ParseLocale(Some(En + Sep + Us + Sep + Win)) == Ok(Some(LocaleParts(En, Us, Win)))
  {
    var s := En + Sep + Us + Sep + Win;
    var fs := [En, Us, Win];
    assert AllLocaleChars(s);
    assert Rewritten(s) == s;
    assert fs[1..] == [Us, Win] && fs[1..][1..] == [Win];
    assert Join(fs[1..]) == Us + Sep + Win;
    assert Join(fs) == En + Sep + (Us + Sep + Win);
    assert Join(fs) == s;
    FieldsOfJoin(fs);
    assert fs[2..] == [Win];
  }

  /** "en-US" and "en US": a `-` or a space separates like `_`. */
  lemma {:induction false} DashAndSpaceSeparate()
    ensures ParseLocale(Some(En + ['-' as int] + Us)) == Ok(Some(LocaleParts(En, Us, [])))
    ensures ParseLocale(Some(En + [' ' as int] + Us)) == Ok(Some(LocaleParts(En, Us, [])))
  {
    var t := En + Sep + Us;
    assert Rewritten(En + ['-' as int] + Us) == t && Rewritten(En + [' ' as int] + Us) == t;
    assert AllLocaleChars(En + ['-' as int] + Us) && AllLocaleChars(En + [' ' as int] + Us);
    assert [En, Us][1..] == [Us];
    assert Join([En, Us]) == t;
    FieldsOfJoin([En, Us]);
  }

  /** "en__#LATN": an empty country is skipped over to the variant. */
  lemma {:induction false} EmptyCountryKeepsVariant()
    ensures ParseLocale(Some(En + Sep + Sep + Latn)) == Ok(Some(LocaleParts(En, [], Latn)))
  {
    var s := En + Sep + Sep + Latn;
    var fs := [En, [], Latn];
    assert AllLocaleChars(s);
    assert Rewritten(s) == s;
    assert fs[1..] == [[], Latn] && fs[1..][1..] == [Latn];
    assert Join(fs[1..]) == [] + Sep + Latn;
    assert Join(fs) == En + Sep + ([] + Sep + Latn);
    assert Join(fs) == s;
    FieldsOfJoin(fs);
    assert fs[2..] == [Latn];
  }

  /** "en_#LATN": a `#` country without a variant becomes the variant. */
  lemma {:induction false} HashCountryBecomesVariant()
    ensures ParseLocale(Some(En + Sep + Latn)) == Ok(Some(LocaleParts(En, [], Latn)))
  {
    var s := En + Sep + Latn;
    var fs := [En, Latn];
    assert AllLocaleChars(s);
    assert Rewritten(s) == s;
    assert fs[1..] == [Latn];
    assert Join(fs) == s;
    FieldsOfJoin(fs);
  }

  /** "_US" has no language; "en@US" has a stray character. */
  lemma {:induction false} NoLanguageOrStrayCharacter()
    ensures ParseLocale(Some(Sep + Us)) == Ok(None)
    ensures ParseLocale(Some(En + ['@' as int] + Us)) == Err(IllegalArgument)
  {
    var s := Sep + Us;
    assert AllLocaleChars(s);
    assert Rewritten(s) == s;
    assert [[], Us][1..] == [Us];
    assert Join([[], Us]) == s;
    FieldsOfJoin([[], Us]);
    assert !IsLocaleChar((En + ['@' as int] + Us)[2]);
  }
}
