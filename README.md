# universal-string in Dafny

A model of the core of the Java library `com.github.zhitron.universal`:
the path value `StringPath`, the text utilities of `UniversalString`, the
parsers of `UniversalStringParsing`, the identifier splitter
`AsciiWordToken`, the character class table `AsciiCharacterType` and the
interval `IndexBounds`.

Text is UTF-16, as in Java: a `JString` is a `seq<CodeUnit>` with
`CodeUnit = 0 ..< 0x10000`, so lone surrogates can be expressed. Every JDK
predicate the library calls is defined explicitly in module `JavaText`:
`Character.isWhitespace`, `isISOControl`, the surrogate tests,
`codePointAt`, `charCount` and code point encoding. Java `null` is `None`.
A thrown exception is the `Err` case of a `Result`, which names the
exception's class. Java `int` arithmetic is written out with
`JavaText.Int32` for the sums and differences the model reduces, and
with `% 2^32` for the hashes; the sums it leaves unbounded are named under
"Left out".

Where the source loops or mutates, the model does too. Each such
operation is a `method` with a `while` loop and invariants, proved equal
to a specification function. Properties are then proved about the
function. The rest is functions and lemmas. The modules follow the source
files:

- `JavaText` (javatext.dfy): the JDK text facts the library relies on.
- `IndexBounds` (indexbounds.dfy): IndexBounds.java.
- `AsciiCharacterType` (asciicharactertype.dfy): AsciiCharacterType.java, the table as a class over an `array`.
- `AsciiWordToken`, `AsciiWordTokenProofs` (asciiwordtoken*.dfy): AsciiWordToken.java.
- `StringPath`, `StringPathProofs`, `StringPathExamples` (string_path*.dfy): StringPath.java.
- `UniversalString` (universalstring.dfy): validators, character predicates, emptiness, region matching.
- `UniversalStringTrim` (universalstring_trim.dfy): calculateTrimBounds, trim, asCodepoints.
- `UniversalStringBuild` (universalstring_build.dfy): brief, reverse, substring, clean, join, repeat, desensitize, toStyledNumberChar.
- `UniversalStringDistance` (universalstring_distance.dfy): similarDistance.
- `UniversalStringParsing` (universalstring_parsing.dfy): hex, unicode escapes, parseEscape, null and boolean literals.
- `UniversalStringDecimal` (universalstring_decimal.dfy): the three-argument parseFullToDecimal.
- `UniversalStringNumber` (universalstring_number.dfy): the one-argument parseFullToDecimal.
- `UniversalStringLocale` (universalstring_locale.dfy): parseFullToLocale.
- `UniversalStringArray` (universalstring_array.dfy): parseArray and the extractString it calls.

Points where the code and its own documentation disagree. The model
follows the code in each case:

- `parseArray` accepts an unclosed quote, although its Javadoc says it throws: compare `UniversalStringArrayExamples.UnclosedQuoteAccepted`.
- `parseArray` counts brackets inside quotes as well.
- `parseArray` keeps the quotes around a quoted element. The table in its Javadoc (UniversalStringParsing.java:690-704) shows them stripped, but the code copies every quote character into the element, as the library's own tests expect: compare `UniversalStringArrayExamples.QuotedSeparatorKept`.
- `parseArray` trims the outer text with the library's whitespace (space, tab, line feed, carriage return, form feed). The elements are trimmed with `Character.isWhitespace`, so an escaped `\t` at the end of an element is trimmed away again.
- `StringPath` uses `Character.isWhitespace`, not `UniversalString.isWhitespace`.
- `relativize` followed by `resolve` gives the target back only for a descendant of the base. The root limit stops the ".." segments at the base, so a sibling branch cannot be reached: compare `StringPathProofs.ResolveRelativeExactlyForDescendants` and `StringPathExamples.ResolveStopsAtTheBase`.
- The scanner's counters carry over from one fragment to the next, so `of(" a", "b")` is `a`: compare `StringPathExamples.CountersCarryOverFragments`.
- Leading zeros count towards the Integer test in the one-argument `parseFullToDecimal`, so `"00000000001"` comes back as a Long.
- `regionMatches` demands `targetOffset <= inputOffset`, through its six-argument offset validator. `String.regionMatches` has no such rule.

## Model

| member | source | states |
|---|---|---|
| JavaText.Int32 | src/main/java/com/github/zhitron/universal/IndexBounds.java:68-71 | the Java `int` reduction: in range, the identity on `int`s, and congruent to its argument modulo 2^32 |
| IndexBounds.EndInclusive | src/main/java/com/github/zhitron/universal/IndexBounds.java:59-61 | getEndInclusive is an `int` one below endExclusive, and Integer.MAX_VALUE when endExclusive is Integer.MIN_VALUE |
| IndexBounds.Length | src/main/java/com/github/zhitron/universal/IndexBounds.java:68-79 | length() is 0 exactly when the interval is empty, and otherwise start + length == end |
| IndexBounds.LengthAsWritten | src/main/java/com/github/zhitron/universal/IndexBounds.java:68-71 | the 32-bit computation is never negative and agrees with Length whenever the difference fits an `int` |
| IndexBounds.LengthAsWrittenWrapsAround | src/main/java/com/github/zhitron/universal/IndexBounds.java:68-71 | [Integer.MIN_VALUE, 0) is not empty, yet the 32-bit length() is 0 |
| IndexBounds.Indices | src/main/java/com/github/zhitron/universal/IndexBounds.java:98-103 | the indices each() visits number exactly length() |
| IndexBounds.Each | src/main/java/com/github/zhitron/universal/IndexBounds.java:98-103 | each(IntConsumer) calls the consumer on start, start+1, ..., end-1 in increasing order, and never on an empty interval |
| IndexBounds.EachSkip | src/main/java/com/github/zhitron/universal/IndexBounds.java:110-115 | each(IntUnaryOperator) starts at start, steps by the skip each time, stays inside the interval, and stops only when the next step would leave it |
| IndexBounds.EachIndexed | src/main/java/com/github/zhitron/universal/IndexBounds.java:123-130 | each(int, IntBinaryOperator): every call sees `index` equal to `initialIndex` plus the distance walked, reduced to an `int`, and `current` walks the interval by the operator's skips |
| IndexBounds.IndexAt | src/main/java/com/github/zhitron/universal/IndexBounds.java:123-130 | the `index` each(int, IntBinaryOperator) passes at `current` is an `int` |
| IndexBounds.IndexAtAdvance | src/main/java/com/github/zhitron/universal/IndexBounds.java:126-128 | stepping `current` by the skip moves `index` by the same skip, reduced to an `int` |
| IndexBounds.IndexedCallsSnoc | src/main/java/com/github/zhitron/universal/IndexBounds.java:123-130 | a call recorded at the right `index` keeps every recorded call at its right `index` |
| IndexBounds.IndexedLoopStep | src/main/java/com/github/zhitron/universal/IndexBounds.java:125-129 | one pass of the loop keeps the loop invariant of each(int, IntBinaryOperator) |
| IndexBounds.IndexedPass | src/main/java/com/github/zhitron/universal/IndexBounds.java:125-129 | one pass records the call, moves `current` by the skip and `index` by the same skip as an `int`, and keeps the loop invariant |
| IndexBounds.IndexedLoopDone | src/main/java/com/github/zhitron/universal/IndexBounds.java:125-129 | once `current` reaches the end, the invariant gives every promise of EachIndexed |
| IndexBounds.WalkedCallsSnoc | src/main/java/com/github/zhitron/universal/IndexBounds.java:125-129 | a call at a `current` inside the interval extends a walk by the operator's skips |
| IndexBounds.WrapAddWrap | src/main/java/com/github/zhitron/universal/IndexBounds.java:126-128 | reducing a running `int` sum before each addition gives the reduced total |
| IndexBounds.Int32Congruent | src/main/java/com/github/zhitron/universal/IndexBounds.java:126-128 | two `int`s congruent modulo 2^32 are equal |
| IndexBounds.WrapKeepsParity | src/main/java/com/github/zhitron/universal/IndexBounds.java:113 | the 32-bit reduction keeps parity |
| IndexBounds.SkipIndexAsWritten | src/main/java/com/github/zhitron/universal/IndexBounds.java:112-114 | after n passes with a constant skip, the as-written loop variable is start + n * skip reduced to an `int` |
| IndexBounds.SkipStep | src/main/java/com/github/zhitron/universal/IndexBounds.java:113 | one more `i += skip` in 32-bit arithmetic gives start + n * skip reduced to an `int` |
| IndexBounds.EachSkipAsWrittenNeverEnds | src/main/java/com/github/zhitron/universal/IndexBounds.java:110-115 | on [Integer.MAX_VALUE - 1, Integer.MAX_VALUE) with skip 2, `i += skip` wraps to Integer.MIN_VALUE and the loop variable stays below the end forever |
| AsciiCharacterType.CallsOf | src/main/java/com/github/zhitron/universal/AsciiCharacterType.java:110-198 | the static block's setSymbol calls for one class, in source order, each carrying that class |
| AsciiCharacterType.CallsMarkTheirType | src/main/java/com/github/zhitron/universal/AsciiCharacterType.java:110-198 | the calls of each class mark exactly the characters its documentation lists, and none writes outside the 128-entry table |
| AsciiCharacterType.CharacterTable.constructor | src/main/java/com/github/zhitron/universal/AsciiCharacterType.java:108-198 | after the static initialiser, every entry holds exactly the classes its character belongs to |
| AsciiCharacterType.CharacterTable.SetSymbol | src/main/java/com/github/zhitron/universal/AsciiCharacterType.java:208-218 | setSymbol only adds the call's class to the range and the listed characters; the range counts only when well formed and starting inside the table; it fails exactly on an out-of-table write |
| AsciiCharacterType.CharacterTable.IsMatch | src/main/java/com/github/zhitron/universal/AsciiCharacterType.java:262-268 | isMatch holds iff the code point is in 0..127 and belongs to the class |
| AsciiCharacterType.CharacterTable.IsMatchAll | src/main/java/com/github/zhitron/universal/AsciiCharacterType.java:227-236 | isMatchAll holds iff the code point is ASCII and in every listed class (vacuously for none) |
| AsciiCharacterType.CharacterTable.IsMatchAny | src/main/java/com/github/zhitron/universal/AsciiCharacterType.java:245-254 | isMatchAny holds iff the code point is ASCII and in some listed class (false for none) |
| AsciiCharacterType.BuildMask | src/main/java/com/github/zhitron/universal/AsciiCharacterType.java:227-254 | the mask loop collects exactly the listed classes |
| AsciiCharacterType.ControlPrintablePartition | src/main/java/com/github/zhitron/universal/AsciiCharacterType.java:116-186 | CONTROL and PRINTABLE partition 0..127 |
| AsciiCharacterType.ClassUnions | src/main/java/com/github/zhitron/universal/AsciiCharacterType.java:131-191 | LETTER is UPPER_LETTER or LOWER_LETTER, ALPHANUMERIC is LETTER or NUM_DEC, and SYMBOL marks what PUNCTUATION marks |
| AsciiWordToken.WordChars | src/main/java/com/github/zhitron/universal/AsciiWordToken.java:151-159 | the characters that enter the hash: a subsequence of word characters |
| AsciiWordToken.HashCode | src/main/java/com/github/zhitron/universal/AsciiWordToken.java:151-159 | hashcode(int[]) is the fold `h = 31 * h + c`, from 1, over the lower-cased word characters, modulo 2^32 |
| AsciiWordToken.HashSnoc | src/main/java/com/github/zhitron/universal/AsciiWordToken.java:151-159 | one more character extends the hash by one step exactly when it is a word character |
| AsciiWordToken.RunEnd | src/main/java/com/github/zhitron/universal/AsciiWordToken.java:188-215 | the run of upper-case letters and digits after a capital: every unit inside it qualifies and the unit after it does not |
| AsciiWordToken.Turn | src/main/java/com/github/zhitron/universal/AsciiWordToken.java:167-227 | one turn of parts: a separator flushes the word; a lower-case letter or digit extends it; a capital or '$' starts a word that takes the following upper-case run |
| AsciiWordToken.AppendRange | src/main/java/com/github/zhitron/universal/AsciiWordToken.java:188-215 | the copying loops append exactly the slice |
| AsciiWordToken.UpperWord | src/main/java/com/github/zhitron/universal/AsciiWordToken.java:188-215 | the capital branch of parts computes Turn |
| AsciiWordToken.Parts | src/main/java/com/github/zhitron/universal/AsciiWordToken.java:167-227 | parts(int[]) as the source runs it, index rewinds included, computes Split |
| AsciiWordToken.Capitalize | src/main/java/com/github/zhitron/universal/AsciiWordToken.java:320-369 | a rendered word keeps its length |
| AsciiWordToken.CapitalizeInto | src/main/java/com/github/zhitron/universal/AsciiWordToken.java:320-369 | marge's character loops append the word capitalised |
| AsciiWordToken.Marge | src/main/java/com/github/zhitron/universal/AsciiWordToken.java:320-369 | marge, with its camel and delimited branches, computes Render |
| AsciiWordTokenProofs.AsciiStreamDecodes | src/main/java/com/github/zhitron/universal/AsciiWordToken.java:135-143 | asciiStream fails, with IllegalArgumentException, exactly when a decoded code point is outside `$ _ - 0-9 a-z A-Z`; otherwise it yields the code points |
| AsciiWordTokenProofs.SplitParts | src/main/java/com/github/zhitron/universal/AsciiWordToken.java:167-227 | the words are non-empty and hold no separator, and together they are the input without its separators |
| AsciiWordTokenProofs.SplitOkIff | src/main/java/com/github/zhitron/universal/AsciiWordToken.java:167-227 | parts throws IllegalArgumentException exactly when a character is neither a separator nor a word character |
| AsciiWordTokenProofs.OfFailsOnInvalid | src/main/java/com/github/zhitron/universal/AsciiWordToken.java:121-143 | of throws exactly on a character outside `$ _ - 0-9 a-z A-Z`; null and "" give the empty token, with the corrected EMPTY |
| AsciiWordTokenProofs.OfIsValid | src/main/java/com/github/zhitron/universal/AsciiWordToken.java:38-127 | every token built is well formed, and its hash is the hash of its words, lower-cased and concatenated |
| AsciiWordTokenProofs.HashIgnoresCaseAndSeparators | src/main/java/com/github/zhitron/universal/AsciiWordToken.java:151-159 | texts with the same lower-cased word characters hash alike |
| AsciiWordTokenProofs.EqualsIffSameParts | src/main/java/com/github/zhitron/universal/AsciiWordToken.java:386-408 | two tokens are equal iff their words agree pairwise ignoring case; the hash test never decides |
| AsciiWordTokenProofs.EqualsItsText | src/main/java/com/github/zhitron/universal/AsciiWordToken.java:386-408 | a token equals the text it was built from, with the corrected EMPTY |
| AsciiWordTokenProofs.EmptyAsWrittenDiffers | src/main/java/com/github/zhitron/universal/AsciiWordToken.java:17 | with EMPTY's hash 0, EMPTY differs from "" and from a token of separators only |
| AsciiWordTokenProofs.WordlessTokensAreEqual | src/main/java/com/github/zhitron/universal/AsciiWordToken.java:17 | with the corrected EMPTY, all wordless tokens are equal, and equal to "" |
| AsciiWordTokenProofs.RenderWords | src/main/java/com/github/zhitron/universal/AsciiWordToken.java:320-369 | a rendering changes only letter case and the separators: its word characters are the token's words |
| AsciiWordTokenProofs.RenderTokenChars | src/main/java/com/github/zhitron/universal/AsciiWordToken.java:234-311 | every rendering passes asciiStream |
| AsciiWordTokenProofs.RenderingKeepsHash | src/main/java/com/github/zhitron/universal/AsciiWordToken.java:234-311 | every rendering, in every style, hashes to the token's own hash |
| AsciiWordTokenProofs.ToStringKeepsHash | src/main/java/com/github/zhitron/universal/AsciiWordToken.java:426-444 | toString hashes to the token's hash |
| AsciiWordTokenProofs.LowerCamelFirstWord | src/main/java/com/github/zhitron/universal/AsciiWordToken.java:320-369 | lower camel case lower-cases the whole first word on either branch of marge |
| AsciiWordTokenProofs.RenderLowerIsJoined | src/main/java/com/github/zhitron/universal/AsciiWordToken.java:289-301 | lower kebab and underline join the lower-cased words with the delimiter |
| AsciiWordTokenProofs.SplitJoined | src/main/java/com/github/zhitron/universal/AsciiWordToken.java:167-227 | lower-case words joined by '-' or '_' split back into those words |
| AsciiWordTokenProofs.LowerDelimitedRoundTrip | src/main/java/com/github/zhitron/universal/AsciiWordToken.java:289-301 | splitting a lower kebab or underline rendering gives back the words, lower-cased |
| AsciiWordTokenProofs.LowerPartsSame | src/main/java/com/github/zhitron/universal/AsciiWordToken.java:386-408 | lower-casing the words keeps them equal ignoring case |
| AsciiWordTokenProofs.OfRenderLower | src/main/java/com/github/zhitron/universal/AsciiWordToken.java:121-127 | tokenising a lower delimited rendering gives the lower-cased words and the same hash |
| AsciiWordTokenProofs.LowerDelimitedTokenRoundTrip | src/main/java/com/github/zhitron/universal/AsciiWordToken.java:289-301 | a token built from its own lower kebab or underline rendering equals the token |
| StringPath.ApplySpan | src/main/java/com/github/zhitron/universal/StringPath.java:181-219 | the segment resolver: an empty span or "." stores nothing; ".." pops above the root limit and is otherwise dropped, or throws IndexOutOfBounds on an empty list during the root scan; three or more dots throw IllegalArgument; anything else is appended; segments below the root limit are kept |
| StringPath.StoreSpan | src/main/java/com/github/zhitron/universal/StringPath.java:181-219 | the resolver with its all-dots loop computes ApplySpan |
| StringPath.ScanCodePoint | src/main/java/com/github/zhitron/universal/StringPath.java:96-105 | a high surrogate followed by a low one is read as one supplementary code point, anything else as itself |
| StringPath.LastUnit | src/main/java/com/github/zhitron/universal/StringPath.java:99-105 | the scanner consumes one unit, or two at a pair, never past the end |
| StringPath.StepAt | src/main/java/com/github/zhitron/universal/StringPath.java:106-150 | the switch never moves the span start past the units consumed |
| StringPath.ScanChar | src/main/java/com/github/zhitron/universal/StringPath.java:95-150 | one pass of the inner loop body computes StepAt and the last unit read |
| StringPathProofs.StartCounters | src/main/java/com/github/zhitron/universal/StringPath.java:91-95 | a text begun from zeroed counters satisfies the counter rules |
| StringPathProofs.StepKeepsCounters | src/main/java/com/github/zhitron/universal/StringPath.java:95-150 | every unit the switch accepts keeps the counter rules: the leading-whitespace count covers only whitespace, nothing is trailing before content, content begins with a non-whitespace unit, and each colon counts as content |
| StringPath.ScanText | src/main/java/com/github/zhitron/universal/StringPath.java:92-156 | the inner loop over one text computes ScanFrom, the final flush included |
| StringPath.RemainingStep | src/main/java/com/github/zhitron/universal/StringPath.java:157-166 | the cursor (ci, pi) moves to the next fragment of the array, or to the next array |
| StringPath.RemainingAll | src/main/java/com/github/zhitron/universal/StringPath.java:91 | before the first array the remaining fragments are all of them |
| StringPath.ScanFragmentsCons | src/main/java/com/github/zhitron/universal/StringPath.java:153-166 | scanning a leading fragment and then the rest, with the counters carried over |
| StringPath.ScanAtRemaining | src/main/java/com/github/zhitron/universal/StringPath.java:157-166 | the cursor walk scans exactly the remaining fragments in order |
| StringPath.BuildPath | src/main/java/com/github/zhitron/universal/StringPath.java:64-170 | build(Object, String[]...) as the source runs it computes Build |
| StringPath.ScanPaths | src/main/java/com/github/zhitron/universal/StringPath.java:91-167 | the fragment loop scans the flattened fragments with the counters carried over |
| StringPath.Parent | src/main/java/com/github/zhitron/universal/StringPath.java:241-246 | getParent is null exactly without segments, and otherwise drops the last segment and keeps the flag |
| StringPath.Segment | src/main/java/com/github/zhitron/universal/StringPath.java:257-262 | getSegment throws IndexOutOfBounds exactly outside [0, count), and otherwise returns that segment |
| StringPath.FileName | src/main/java/com/github/zhitron/universal/StringPath.java:280-285 | getFileName is null exactly without segments, and otherwise the last segment |
| StringPath.FileBaseName | src/main/java/com/github/zhitron/universal/StringPath.java:296-303 | getFileBaseName is null exactly without segments |
| StringPath.FileExtension | src/main/java/com/github/zhitron/universal/StringPath.java:314-321 | getFileExtension is null exactly without segments |
| StringPath.Sub | src/main/java/com/github/zhitron/universal/StringPath.java:333-344 | sub throws IndexOutOfBounds exactly unless 0 <= b <= e <= count, and otherwise is segments [b, e), absolute only when b == 0 of an absolute path |
| StringPath.StartsWith | src/main/java/com/github/zhitron/universal/StringPath.java:439-455 | startsWith is false for a null, empty or longer argument, and otherwise is the segment-wise prefix test |
| StringPath.EndsWith | src/main/java/com/github/zhitron/universal/StringPath.java:476-492 | endsWith is false for a null, empty or longer argument, and otherwise is the segment-wise suffix test |
| StringPath.CommonPrefixLength | src/main/java/com/github/zhitron/universal/StringPath.java:354-375 | the longest common prefix: both lists agree up to it and differ right after it |
| StringPath.Relativize | src/main/java/com/github/zhitron/universal/StringPath.java:354-375 | relativize with its loop and array copies computes Relative |
| StringPath.EqualsPath | src/main/java/com/github/zhitron/universal/StringPath.java:551-568 | equals holds exactly for the same flag and the same segments |
| StringPath.EqualsIgnoringCase | src/main/java/com/github/zhitron/universal/StringPath.java:516-539 | equalsIgnoreCase holds exactly for the same flag and segments equal ignoring case |
| StringPath.HashCode | src/main/java/com/github/zhitron/universal/StringPath.java:579-595 | hashCode with its two loops computes the fold of the lower-cased segment hashes; the flag takes no part |
| StringPath.HashSegment | src/main/java/com/github/zhitron/universal/StringPath.java:584-590 | the inner loop computes the lower-cased hash of one segment |
| StringPath.ToString | src/main/java/com/github/zhitron/universal/StringPath.java:606-618 | toString computes the builder's text without its last character |
| StringPathProofs.ScanCleanFragments | src/main/java/com/github/zhitron/universal/StringPath.java:91-167 | clean fragments are appended to the segment list in order, whatever the counters held |
| StringPathProofs.RelativeShape | src/main/java/com/github/zhitron/universal/StringPath.java:354-375 | relativize is always relative: one ".." per segment of this path past the common prefix, then the rest of the other path |
| StringPathProofs.RelativeOfDescendant | src/main/java/com/github/zhitron/universal/StringPath.java:354-366 | relative to an ancestor, a path is its remaining segments |
| StringPathProofs.ResolveRelativeRoundTrip | src/main/java/com/github/zhitron/universal/StringPath.java:395-400 | resolve undoes relativize for a descendant with the same flag whose segments below the base are kept (inner whitespace and ':' allowed), a ':' among them only in a target of at most three segments |
| StringPathProofs.ResolveRelativeExactlyForDescendants | src/main/java/com/github/zhitron/universal/StringPath.java:354-400 | resolve(relativize(t)) == t holds exactly when t lies under the base, for targets with the same flag whose segments past the base length are resolvable as above |
| StringPathProofs.StepKeepsRoot | src/main/java/com/github/zhitron/universal/StringPath.java:158-198 | no step of the scanner removes a segment below the root limit or changes a fixed flag |
| StringPathProofs.ScanFromKeepsRoot | src/main/java/com/github/zhitron/universal/StringPath.java:95-155 | scanning one text keeps the protected segments and a fixed flag |
| StringPathProofs.ScanFragmentsKeepsRoot | src/main/java/com/github/zhitron/universal/StringPath.java:91-167 | scanning all fragments keeps the protected segments and a fixed flag |
| StringPathProofs.BuildOnPathKeepsRoot | src/main/java/com/github/zhitron/universal/StringPath.java:77-80 | built onto a path root, the result starts with all of the root's segments and keeps its flag: no ".." climbs above the root |
| StringPathProofs.BuildOnTextKeepsRoot | src/main/java/com/github/zhitron/universal/StringPath.java:158 | built after a text root, the segments the root produced stay in front |
| StringPathProofs.ResolveAndConcatKeepBase | src/main/java/com/github/zhitron/universal/StringPath.java:395-430 | resolve of a relative path, and concat of any path, stay under this path with its flag |
| StringPathProofs.ScanDotFragment | src/main/java/com/github/zhitron/universal/StringPath.java:183-191 | a "." fragment stores nothing |
| StringPathProofs.ScanDotDotFragment | src/main/java/com/github/zhitron/universal/StringPath.java:192-198 | a ".." fragment pops the last segment above the root limit and is dropped at it |
| StringPathProofs.ApplySpanStores | src/main/java/com/github/zhitron/universal/StringPath.java:181-219 | the resolver stores only well-formed segments |
| StringPathProofs.ScanFromStores | src/main/java/com/github/zhitron/universal/StringPath.java:95-155 | a successful scan met no forbidden character and no control character but whitespace, and stored only well-formed segments |
| StringPathProofs.ScanFragmentsStores | src/main/java/com/github/zhitron/universal/StringPath.java:91-167 | a successful scan of all fragments keeps every stored segment well formed |
| StringPathProofs.BuildStoresWellFormed | src/main/java/com/github/zhitron/universal/StringPath.java:64-170 | a path built from text holds only non-empty segments of permitted characters, none of them "." or "..", and every unit of its input was permitted |
| StringPathProofs.ScanJoined | src/main/java/com/github/zhitron/universal/StringPath.java:120-133 | kept segments joined by '/', a ':' only where the list is within the colon limit, are appended in order and fix the flag to relative at the first separator |
| StringPathProofs.PathStringRoundTrip | src/main/java/com/github/zhitron/universal/StringPath.java:606-618 | the documented string form of a path parses back to the path, for kept segments (inner whitespace and ':' included) with a ':' only in the first three |
| StringPathProofs.ToStringIsPathString | src/main/java/com/github/zhitron/universal/StringPath.java:606-618 | toString is the documented form on every path except ROOT_STRING_PATH, where it is "" |
| StringPathProofs.RootToStringLosesTheRoot | src/main/java/com/github/zhitron/universal/StringPath.java:606-618 | ROOT_STRING_PATH.toString() is "", which parses to EMPTY_STRING_PATH, a different path |
| StringPathProofs.ToStringRoundTrip | src/main/java/com/github/zhitron/universal/StringPath.java:606-618 | of(toString()) gives a path with kept segments (a ':' only in the first three) back iff it is not ROOT_STRING_PATH |
| StringPathProofs.SegmentHashIgnoresCase | src/main/java/com/github/zhitron/universal/StringPath.java:584-590 | ASCII segments equal ignoring case hash alike |
| StringPathProofs.HashAgreesWithEqualsIgnoreCase | src/main/java/com/github/zhitron/universal/StringPath.java:516-595 | paths of ASCII segments that equalsIgnoreCase relates have the same hashCode |
| StringPathProofs.AsciiCase | src/main/java/com/github/zhitron/universal/StringPath.java:533-534 | the case mapping the model uses is JavaText's ASCII toUpperCase, toLowerCase and isUpperCase |
| StringPathProofs.AsciiCaseEqualsIgnoreCase | src/main/java/com/github/zhitron/universal/StringPath.java:532-536 | under the ASCII mapping, the general per-character equalsIgnoreCase is the model's |
| StringPathProofs.SegmentHashAsWritten | src/main/java/com/github/zhitron/universal/StringPath.java:582-591 | the segment hash for any case mapping, lowering only what isUpperCase accepts |
| StringPathProofs.AsciiCaseHashAsWritten | src/main/java/com/github/zhitron/universal/StringPath.java:582-591 | under the ASCII mapping, the as-written hash is SegmentHash |
| StringPathProofs.HashAsWrittenSplitsLongS | src/main/java/com/github/zhitron/universal/StringPath.java:579-595 | with Java's facts for U+017F, "ſ" and "s" are equal ignoring case but hash to 0x17F and 0x73 |
| StringPathProofs.SegmentHashFolded | src/main/java/com/github/zhitron/universal/StringPath.java:582-591 | the intended segment hash, folding each character to lower(upper(c)) |
| StringPathProofs.FoldedHashIgnoresCase | src/main/java/com/github/zhitron/universal/StringPath.java:579-595 | under every case mapping, segments equal ignoring case have equal folded hashes |
| StringPathProofs.AsciiCaseHashFolded | src/main/java/com/github/zhitron/universal/StringPath.java:579-595 | under the ASCII mapping, the folded hash is SegmentHash |
| StringPathProofs.LowerOfUpper | src/main/java/com/github/zhitron/universal/StringPath.java:582-591 | for ASCII case mapping, lower(upper(c)) is lower(c) |
| StringPathProofs.AsciiCaseFoldedStep | src/main/java/com/github/zhitron/universal/StringPath.java:579-595 | one more character keeps the folded hash equal to SegmentHash under the ASCII mapping |
| StringPathProofs.FileNameSplit | src/main/java/com/github/zhitron/universal/StringPath.java:296-321 | base name and extension split the file name at its last '.' when it is past the first character; otherwise the base name is the whole name and the extension "" |
| StringPathExamples.DotSegmentIsDropped | src/test/java/com/github/zhitron/universal/StringPathTest.java:196 | of(u, ".", d) is u/d |
| StringPathExamples.DotDotStopsAtRootText | src/test/java/com/github/zhitron/universal/StringPathTest.java:202 | of(u, "..", o, f) is u/o/f: the ".." stops at the root text's segments |
| StringPathExamples.RepeatedSeparator | src/main/java/com/github/zhitron/universal/StringPath.java:120-133 | a separator right after another stores nothing |
| StringPathExamples.SeparatorsAreNormalized | src/test/java/com/github/zhitron/universal/StringPathTest.java:208 | of("user//documents\\\\file.txt") is user/documents/file.txt |
| StringPathExamples.AllDotsAreRejected | src/test/java/com/github/zhitron/universal/StringPathTest.java:224 | of("....") throws IllegalArgumentException |
| StringPathExamples.DotDotAtTheStartFails | src/main/java/com/github/zhitron/universal/StringPath.java:196-198 | of("..") throws IndexOutOfBoundsException |
| StringPathExamples.ForbiddenAfterPlain | src/test/java/com/github/zhitron/universal/StringPathTest.java:218-219 | a plain prefix followed by a forbidden character throws IllegalArgumentException |
| StringPathExamples.RelativizeDivergentBranches | src/test/java/com/github/zhitron/universal/StringPathTest.java:123-127 | a/b/c relativize a/x/y is ../../x/y |
| StringPathExamples.ResolveStopsAtTheBase | src/main/java/com/github/zhitron/universal/StringPath.java:395-400 | resolving ../../x/y against a/b/c gives a/b/c/x/y |
| StringPathExamples.CountersCarryOverFragments | src/main/java/com/github/zhitron/universal/StringPath.java:91 | of(" a", "b") is just a: the counters carry over between fragments |
| StringPathExamples.ColonAfterSpaceIsCut | src/main/java/com/github/zhitron/universal/StringPath.java:107-112 | the stored span of "a :" keeps the space and ends before the ':' |
| UniversalString.IsValidateByIndex | src/main/java/com/github/zhitron/universal/UniversalString.java:49-64 | true iff [start, end) is a non-empty range inside [0, length) |
| UniversalString.IsValidateByIndexPair | src/main/java/com/github/zhitron/universal/UniversalString.java:77-89 | both ranges valid and the input range at least as long as the target range |
| UniversalString.IsValidateByOffset | src/main/java/com/github/zhitron/universal/UniversalString.java:99-106 | the exact-sum reading: the count indices from offset all lie inside [0, length) |
| UniversalString.IsValidateByOffsetPair | src/main/java/com/github/zhitron/universal/UniversalString.java:119-131 | both regions valid, exact sums, and the input region ending at or after the target region |
| UniversalString.IsValidateByOffsetAsWritten | src/main/java/com/github/zhitron/universal/UniversalString.java:99-106 | the source's form, its sum in Java `int` |
| UniversalString.IsValidateByOffsetPairAsWritten | src/main/java/com/github/zhitron/universal/UniversalString.java:119-131 | the six-argument form with `int` sums implies the as-written three-argument check on both regions |
| UniversalString.WrapPositiveSum | src/main/java/com/github/zhitron/universal/UniversalString.java:99-106 | an `int` sum of two non-negative `int`s is the sum, or the sum less 2^32 |
| UniversalString.OffsetPairAsWrittenWithoutOverflow | src/main/java/com/github/zhitron/universal/UniversalString.java:119-131 | without overflow the source's six-argument validator is the exact one |
| UniversalString.OffsetPairAsWrittenAcceptsOverflow | src/main/java/com/github/zhitron/universal/UniversalString.java:119-131 | offsets at Integer.MAX_VALUE with count 1 pass as written, though both regions lie outside arrays of length 5 |
| UniversalString.CharacterClasses | src/main/java/com/github/zhitron/universal/UniversalString.java:148-284 | control and printable split 0..127; printable is ASCII, and so is hex with isDigit taken on ASCII; library whitespace is JDK whitespace; emoji are supplementary code points |
| UniversalString.IsBlank | src/main/java/com/github/zhitron/universal/UniversalString.java:312-322 | isBlank holds iff the text is null or all Character.isWhitespace |
| UniversalString.IsNotBlank | src/main/java/com/github/zhitron/universal/UniversalString.java:330-340 | isNotBlank is the complement of isBlank |
| UniversalString.AreAllEmpty | src/main/java/com/github/zhitron/universal/UniversalString.java:348-358 | a non-empty argument list all of whose elements are empty |
| UniversalString.AreAllNotEmpty | src/main/java/com/github/zhitron/universal/UniversalString.java:366-376 | a non-empty argument list none of whose elements is empty |
| UniversalString.AreAllBlank | src/main/java/com/github/zhitron/universal/UniversalString.java:384-394 | a non-empty argument list all of whose elements are blank |
| UniversalString.AreAllNotBlank | src/main/java/com/github/zhitron/universal/UniversalString.java:402-412 | a non-empty argument list none of whose elements is blank |
| UniversalString.IsEqualsChar | src/main/java/com/github/zhitron/universal/UniversalString.java:508-513 | isEquals(ignoreCase, int, int) is the per-element comparison, lower-casing both sides when case is ignored |
| UniversalString.SameValuesIsEquality | src/main/java/com/github/zhitron/universal/UniversalString.java:924-991 | case-sensitive agreement of two regions is equality |
| UniversalString.RegionMatches | src/main/java/com/github/zhitron/universal/UniversalString.java:924-991 | regionMatches holds iff both arrays are present, both regions pass the offset validator, and the regions agree element by element |
| UniversalString.MatchesNeedsOffsetOrder | src/main/java/com/github/zhitron/universal/UniversalString.java:119-131 | a match never has targetOffset > inputOffset |
| UniversalString.IsStartsWith | src/main/java/com/github/zhitron/universal/UniversalString.java:720-764 | false for a null argument, an empty target or an invalid range; otherwise the range starts with the target |
| UniversalString.IsEndsWith | src/main/java/com/github/zhitron/universal/UniversalString.java:822-866 | false for a null argument, an empty target or an invalid range; otherwise the range ends with the target |
| UniversalString.StartsWithIsPrefix | src/main/java/com/github/zhitron/universal/UniversalString.java:754-764 | case-sensitively, isStartsWith holds iff `input[s..s+|t|)` equals the target |
| UniversalString.EndsWithIsSuffix | src/main/java/com/github/zhitron/universal/UniversalString.java:856-866 | case-sensitively, isEndsWith holds iff `input[e-|t|..e)` equals the target |
| UniversalString.StartsEndsWithRejects | src/main/java/com/github/zhitron/universal/UniversalString.java:720-866 | an empty target, a null argument or an invalid range never matches |
| UniversalString.IsSurroundAsWritten | src/main/java/com/github/zhitron/universal/UniversalString.java:612-624 | the source's isSurround, whose length guard looks at the whole input rather than the range |
| UniversalString.SurroundAsWrittenOverlaps | src/main/java/com/github/zhitron/universal/UniversalString.java:612-624 | in "abaXX", [0, 3) passes with prefix "ab" and suffix "ba", which overlap |
| UniversalString.IsSurround | src/main/java/com/github/zhitron/universal/UniversalString.java:612-624 | starts with the prefix, ends with the suffix, and the two fit the range without overlapping |
| UniversalString.IsSurroundWhole | src/main/java/com/github/zhitron/universal/UniversalString.java:597-599 | over the whole input the as-written and corrected guards agree |
| UniversalString.IsStartsWithWhole | src/main/java/com/github/zhitron/universal/UniversalString.java:706-708 | case-sensitively, a non-empty target is a prefix of the input |
| UniversalString.IsEndsWithWhole | src/main/java/com/github/zhitron/universal/UniversalString.java:808-810 | case-sensitively, a non-empty target is a suffix of the input |
| UniversalStringTrim.Turn | src/main/java/com/github/zhitron/universal/UniversalString.java:1102-1124 | one pass of the loop: the leading side, then the trailing side |
| UniversalStringTrim.Run | src/main/java/com/github/zhitron/universal/UniversalString.java:1098-1127 | the loop over passes while a side is active and the bounds are open |
| UniversalStringTrim.RunProperties | src/main/java/com/github/zhitron/universal/UniversalString.java:1098-1127 | the bounds only close in; the loop ends with both sides stopped or the bounds crossed; a stopped side declined where it stands |
| UniversalStringTrim.RunKeepsDecliningSides | src/main/java/com/github/zhitron/universal/UniversalString.java:1098-1127 | a side whose skipper declines at its starting bound never moves |
| UniversalStringTrim.TrimBounds | src/main/java/com/github/zhitron/universal/UniversalString.java:1098-1127 | bound[0] never decreases and bound[1] never increases, a null side never moves, and a non-empty result has both skippers declining at its ends |
| UniversalStringTrim.CalculateTrimBounds | src/main/java/com/github/zhitron/universal/UniversalString.java:1098-1127 | the in-place loop leaves TrimBounds in bound[0] and bound[1], returns the same bounds, and changes no other cell |
| UniversalStringTrim.TrimPass | src/main/java/com/github/zhitron/universal/UniversalString.java:1102-1124 | one pass on the array cells is Turn |
| UniversalStringTrim.CodePointTrimBounds | src/main/java/com/github/zhitron/universal/UniversalString.java:1026-1048 | over a text, trimming whole code points: inside the text, untouched on null sides, and at non-trimmed code points when non-empty |
| UniversalStringTrim.NothingToTrim | src/main/java/com/github/zhitron/universal/UniversalString.java:1026-1048 | a text whose end code points are not trimmed keeps its whole extent |
| UniversalStringTrim.CalculateTrimBoundsOf | src/main/java/com/github/zhitron/universal/UniversalString.java:1026-1048 | calculateTrimBounds(CharSequence, ...) computes CodePointTrimBounds |
| UniversalStringTrim.SameSkipsSameRun | src/main/java/com/github/zhitron/universal/UniversalString.java:1086-1088 | for a side that is not trimmed, a present skipper that declines there gives the bounds a null one would |
| UniversalStringTrim.UnitTrimIsStripped | src/main/java/com/github/zhitron/universal/UniversalString.java:2456-2499 | trimming one element at a time by p removes exactly the leading and trailing runs satisfying p |
| UniversalStringTrim.TrimChars | src/main/java/com/github/zhitron/universal/UniversalString.java:2456-2472 | trim(char[]) is "" for a null or empty array, and otherwise the array with the chosen runs stripped, whitespace by default |
| UniversalStringTrim.TrimCodePointArray | src/main/java/com/github/zhitron/universal/UniversalString.java:2483-2499 | trim(int[]) strips the chosen runs; an invalid code point left in the result throws IllegalArgumentException |
| UniversalStringTrim.Kept | src/main/java/com/github/zhitron/universal/UniversalString.java:2439-2444 | the kept slice is exactly as long as the bounds |
| UniversalStringTrim.Trim | src/main/java/com/github/zhitron/universal/UniversalString.java:2434-2445 | trim(CharSequence, ...) keeps the slice the code point bounds give, "" for null or empty |
| UniversalStringTrim.TrimWithoutSurrogatesIsStripped | src/main/java/com/github/zhitron/universal/UniversalString.java:2434-2445 | without surrogates, trimming by code points is the element-wise strip |
| UniversalStringTrim.UsableTrims | src/main/java/com/github/zhitron/universal/UniversalString.java:2379 | the trims kept are exactly the non-null ones shorter than the input |
| UniversalStringTrim.FirstMatchIsFirst | src/main/java/com/github/zhitron/universal/UniversalString.java:2388-2394 | the inner for loop finds the first trim that matches, or none when none does |
| UniversalStringTrim.LeadCutStops | src/main/java/com/github/zhitron/universal/UniversalString.java:2384-2399 | where the leading loop stops short of the end, no trim matches |
| UniversalStringTrim.TrailCutStops | src/main/java/com/github/zhitron/universal/UniversalString.java:2401-2416 | where the trailing loop stops short of the start, no trim ends there |
| UniversalStringTrim.FindTrim | src/main/java/com/github/zhitron/universal/UniversalString.java:2388-2394 | the for loop with its break computes FirstMatch |
| UniversalStringTrim.TrimLeading | src/main/java/com/github/zhitron/universal/UniversalString.java:2384-2399 | the leading while loop computes LeadCut |
| UniversalStringTrim.TrimTrailing | src/main/java/com/github/zhitron/universal/UniversalString.java:2401-2416 | the trailing while loop computes TrailCut |
| UniversalStringTrim.TrimTargets | src/main/java/com/github/zhitron/universal/UniversalString.java:2368-2423 | "" for a null or empty input; the whitespace trim when no usable trim is left; otherwise the text between the two cuts |
| UniversalStringTrim.CodePointsFromSuffix | src/main/java/com/github/zhitron/universal/UniversalString.java:1344-1365 | over the whole text the each(skipper) loop reads exactly the text's code points |
| UniversalStringTrim.MappingIsLastOccurrence | src/main/java/com/github/zhitron/universal/UniversalString.java:1323-1335 | a source code point maps to the target code point at the position of its last occurrence, or to null past the target's end |
| UniversalStringTrim.BuildMapping | src/main/java/com/github/zhitron/universal/UniversalString.java:1317-1339 | the table loop computes Mapping over the decoded source and target |
| UniversalStringTrim.ReplaceEach | src/main/java/com/github/zhitron/universal/UniversalString.java:1342-1368 | the each(skipper) loop yields each code point's replacement, nothing for a null one, the code point itself when unmapped |
| UniversalStringTrim.AsCodepoints | src/main/java/com/github/zhitron/universal/UniversalString.java:1282-1301 | empty for null or empty input; otherwise the replaced code points inside the trim bounds; without trims or a table, the text's code points |
| UniversalStringBuild.Rev | src/main/java/com/github/zhitron/universal/UniversalString.java:1660-1682 | the reversal: same length, element k is element n-1-k |
| UniversalStringBuild.RevRev | src/main/java/com/github/zhitron/universal/UniversalString.java:1660-1682 | reversing twice gives the sequence back |
| UniversalStringBuild.Briefed | src/main/java/com/github/zhitron/universal/UniversalString.java:1599-1624 | "" for null; IllegalArgument exactly on a negative length; the input when leading + trailing covers it; otherwise the leading units, briefLength marks, and the trailing units |
| UniversalStringBuild.Brief | src/main/java/com/github/zhitron/universal/UniversalString.java:1599-1624 | brief with its StringBuilder loop computes Briefed |
| UniversalStringBuild.BriefAsWritten | src/main/java/com/github/zhitron/universal/UniversalString.java:1599-1624 | with `int` sums, for non-negative lengths, the source agrees with Briefed whenever nothing overflows |
| UniversalStringBuild.BriefAsWrittenOverflows | src/main/java/com/github/zhitron/universal/UniversalString.java:1609 | leading Integer.MAX_VALUE and trailing 1 of "Hello" wrap the guard and throw instead of returning "Hello" |
| UniversalStringBuild.ReverseAsWritten | src/main/java/com/github/zhitron/universal/UniversalString.java:1660-1682 | the source's loop: "" for null or empty |
| UniversalStringBuild.ReverseAsWrittenLosesUnit | src/main/java/com/github/zhitron/universal/UniversalString.java:1671-1680 | for "a" then U+1F600 the loop emits a stray low surrogate and the pair, losing the "a" |
| UniversalStringBuild.BackwardAsWrittenPlain | src/main/java/com/github/zhitron/universal/UniversalString.java:1671-1680 | without surrogates the source's loop does reverse the units |
| UniversalStringBuild.CodePointBefore | src/main/java/com/github/zhitron/universal/UniversalString.java:1671-1680 | the code point before an index is valid and fits before it |
| UniversalStringBuild.Reverse | src/main/java/com/github/zhitron/universal/UniversalString.java:1660-1682 | reverse with codePointBefore yields the code points in the opposite order, pairs kept whole |
| UniversalStringBuild.ReverseUnits | src/main/java/com/github/zhitron/universal/UniversalString.java:1671-1680 | the backward loop encodes the reversed code points |
| UniversalStringBuild.ReverseKeepsLength | src/main/java/com/github/zhitron/universal/UniversalString.java:1660-1682 | reversing keeps every unit: same length |
| UniversalStringBuild.ReversePlain | src/main/java/com/github/zhitron/universal/UniversalString.java:1660-1682 | without surrogates reverse is the plain reversal, and the source's loop agrees |
| UniversalStringBuild.ReverseTwice | src/main/java/com/github/zhitron/universal/UniversalString.java:1660-1682 | reversing plain text twice gives it back |
| UniversalStringBuild.Substring | src/main/java/com/github/zhitron/universal/UniversalString.java:1692-1710 | "" for null or start >= end; otherwise the slice with start clamped up to 0 and end down to the length |
| UniversalStringBuild.Filtered | src/main/java/com/github/zhitron/universal/UniversalString.java:1780-1803 | the kept code points are no more than the input's, none satisfies the remove condition, and all stay valid |
| UniversalStringBuild.Clean | src/main/java/com/github/zhitron/universal/UniversalString.java:1780-1803 | clean(input, removeCondition) computes Cleaned |
| UniversalStringBuild.CleanUnits | src/main/java/com/github/zhitron/universal/UniversalString.java:1780-1803 | the loop encodes the kept code points |
| UniversalStringBuild.CleanRemovesNothing | src/main/java/com/github/zhitron/universal/UniversalString.java:1780-1803 | a condition true of no code point keeps the text |
| UniversalStringBuild.CleanRemovesEverything | src/main/java/com/github/zhitron/universal/UniversalString.java:1780-1803 | a condition true of every code point removes everything |
| UniversalStringBuild.CleanTwice | src/main/java/com/github/zhitron/universal/UniversalString.java:1780-1803 | cleaning twice cleans once |
| UniversalStringBuild.FilteredSubset | src/main/java/com/github/zhitron/universal/UniversalString.java:1780-1803 | every kept code point is one of the input's |
| UniversalStringBuild.Present | src/main/java/com/github/zhitron/universal/UniversalString.java:1945-1978 | null elements read as "" |
| UniversalStringBuild.AppendIfPresent | src/main/java/com/github/zhitron/universal/UniversalString.java:1945-1978 | a null piece appends nothing |
| UniversalStringBuild.AppendElement | src/main/java/com/github/zhitron/universal/UniversalString.java:1955-1972 | one turn appends the delimiter (unless first), the element prefix, the element and the suffix, each only when non-null |
| UniversalStringBuild.Join | src/main/java/com/github/zhitron/universal/UniversalString.java:1945-1978 | join over an Iterable computes Joined: "" for null, otherwise prefix, framed elements joined by the delimiter, suffix |
| UniversalStringBuild.JoinArray | src/main/java/com/github/zhitron/universal/UniversalString.java:1930-1932 | join over an array: prefix + suffix for null, Joined otherwise |
| UniversalStringBuild.ItemsAppend | src/main/java/com/github/zhitron/universal/UniversalString.java:1945-1978 | joining two non-empty lists is joining each, with one delimiter between |
| UniversalStringBuild.ItemsConcatenates | src/main/java/com/github/zhitron/universal/UniversalString.java:1945-1978 | with no delimiter and no frames, join is concatenation |
| UniversalStringBuild.RepeatAsWrittenPrintsNull | src/main/java/com/github/zhitron/universal/UniversalString.java:2254-2256 | a null input repeated 3 times with null prefix and suffix yields "nullnull" |
| UniversalStringBuild.Repeated | src/main/java/com/github/zhitron/universal/UniversalString.java:2239-2282 | prefix + suffix for count <= 0 or an empty input |
| UniversalStringBuild.RepeatedAsWrittenAgrees | src/main/java/com/github/zhitron/universal/UniversalString.java:2239-2282 | the source and the corrected form differ only where the source prints "null" |
| UniversalStringBuild.RepeatText | src/main/java/com/github/zhitron/universal/UniversalString.java:2239-2282 | repeat with its loop computes Repeated |
| UniversalStringBuild.RepeatCopies | src/main/java/com/github/zhitron/universal/UniversalString.java:2273-2280 | the loop appends count framed copies, the delimiter before every copy but the first |
| UniversalStringBuild.RepeatIsJoin | src/main/java/com/github/zhitron/universal/UniversalString.java:2239-2282 | repeating a text is joining that many copies of it |
| UniversalStringBuild.RepeatIsTimes | src/main/java/com/github/zhitron/universal/UniversalString.java:2239-2282 | without delimiter and frames, count copies concatenated |
| UniversalStringBuild.Desensitize | src/main/java/com/github/zhitron/universal/UniversalString.java:2096-2166 | desensitize with its five loops and seven-way test computes Desensitized |
| UniversalStringBuild.MaskStretches | src/main/java/com/github/zhitron/universal/UniversalString.java:2096-2166 | the mark and keep loops produce the five stretches |
| UniversalStringBuild.AppendKept | src/main/java/com/github/zhitron/universal/UniversalString.java:2096-2166 | a keep loop copies code points until its unit count is covered |
| UniversalStringBuild.AppendMarks | src/main/java/com/github/zhitron/universal/UniversalString.java:2096-2166 | a mark loop appends the mark k times |
| UniversalStringBuild.DesensitizeMasks | src/main/java/com/github/zhitron/universal/UniversalString.java:2096-2166 | with a one-unit mark on plain text: same length, marks in the leading, center and trailing stretches, the text's own units elsewhere |
| UniversalStringBuild.DesensitizeAllMarks | src/main/java/com/github/zhitron/universal/UniversalString.java:2096-2166 | when the masks cannot fit, every unit is masked |
| UniversalStringBuild.StyledNumberCharAsWritten | src/main/java/com/github/zhitron/universal/UniversalString.java:2509-2538 | the source throws exactly outside 1..20 |
| UniversalStringBuild.StyledNumberChar | src/main/java/com/github/zhitron/universal/UniversalString.java:2509-2538 | throws exactly outside 1..20; each style lands in its documented block |
| UniversalStringBuild.StyledNumberRoundTrip | src/main/java/com/github/zhitron/universal/UniversalString.java:2509-2538 | every number 1..20 of every style is read back from its character |
| UniversalStringBuild.StyledNumberAsWrittenEleven | src/main/java/com/github/zhitron/universal/UniversalString.java:2509-2531 | 11 in style 3 gives U+24FF, which is no number of that style |
| UniversalStringBuild.StyledNumberAsWrittenOtherwiseAgrees | src/main/java/com/github/zhitron/universal/UniversalString.java:2509-2538 | the source agrees with the corrected form on every other input |
| UniversalStringDistance.SimilarDistance | src/main/java/com/github/zhitron/universal/UniversalString.java:2323-2356 | similarDistance computes Distance: for a null argument the other's length(), otherwise the table's last cell over code points |
| UniversalStringDistance.FillTable | src/main/java/com/github/zhitron/universal/UniversalString.java:2333-2354 | every cell of the dp table holds the distance of its prefixes |
| UniversalStringDistance.FillCell | src/main/java/com/github/zhitron/universal/UniversalString.java:2343-2352 | one cell from its three neighbours keeps the table filled |
| UniversalStringDistance.Swapped | src/main/java/com/github/zhitron/universal/UniversalString.java:2323-2356 | the two texts swapped, options unchanged |
| UniversalStringDistance.DistSelf | src/main/java/com/github/zhitron/universal/UniversalString.java:2323-2356 | a text is at distance 0 from itself |
| UniversalStringDistance.DistAtMostLonger | src/main/java/com/github/zhitron/universal/UniversalString.java:2323-2356 | the distance never exceeds the longer prefix |
| UniversalStringDistance.DistAtLeastGap | src/main/java/com/github/zhitron/universal/UniversalString.java:2323-2356 | without an ignore predicate, the distance is at least the difference of the lengths |
| UniversalStringDistance.DistSymmetric | src/main/java/com/github/zhitron/universal/UniversalString.java:2323-2356 | the table does not depend on which text is the input |
| UniversalStringDistance.DistZeroIff | src/main/java/com/github/zhitron/universal/UniversalString.java:2323-2356 | without an ignore predicate, 0 exactly for equal-length prefixes that agree under the case option |
| UniversalStringDistance.DistanceToItself | src/test/java/com/github/zhitron/universal/UniversalStringTest.java:915-927 | similarDistance(s, s) is 0 |
| UniversalStringDistance.DistanceToEmpty | src/test/java/com/github/zhitron/universal/UniversalStringTest.java:915-927 | against "", in either order, the distance is the number of code points |
| UniversalStringDistance.NullAndEmptyDiffer | src/main/java/com/github/zhitron/universal/UniversalString.java:2325-2331 | for one emoji, null counts 2 UTF-16 units, "" counts 1 code point |
| UniversalStringDistance.DistanceSymmetric | src/main/java/com/github/zhitron/universal/UniversalString.java:2323-2356 | similarDistance is symmetric, null arguments included |
| UniversalStringDistance.DistanceBounds | src/main/java/com/github/zhitron/universal/UniversalString.java:2323-2356 | the difference of the code point counts is a lower bound and the larger count an upper bound |
| UniversalStringDistance.DistanceZeroIffEqual | src/main/java/com/github/zhitron/universal/UniversalString.java:2323-2356 | case-sensitive and without ignore predicate, 0 exactly for equal texts |
| UniversalStringParsing.HexValue | src/main/java/com/github/zhitron/universal/UniversalStringParsing.java:58-73 | a value in -1..15: -1 exactly for a non-hex character, otherwise the digit's value in either case |
| UniversalStringParsing.HexDigitRoundTrip | src/main/java/com/github/zhitron/universal/UniversalStringParsing.java:58-73 | every digit value is read back from its digit in either case |
| UniversalStringParsing.HexRun | src/main/java/com/github/zhitron/universal/UniversalStringParsing.java:102-113 | the digit values read: at most max, all hex, and stopping at the first non-hex character |
| UniversalStringParsing.HexNumberBound | src/main/java/com/github/zhitron/universal/UniversalStringParsing.java:121-123 | n hex digits spell a number below 16^n |
| UniversalStringParsing.UnicodeCodepointIsScalarValue | src/main/java/com/github/zhitron/universal/UniversalStringParsing.java:87-139 | the corrected decoder yields -1 and consumes nothing, or a non-zero, non-surrogate value up to U+10FFFF spelled by exactly the digits consumed |
| UniversalStringParsing.UnicodeCodepointRejects | src/main/java/com/github/zhitron/universal/UniversalStringParsing.java:102-133 | fewer than four digits, or a refused value, give -1 and consume nothing |
| UniversalStringParsing.UnicodeAsWrittenAgrees | src/main/java/com/github/zhitron/universal/UniversalStringParsing.java:121-133 | below 2^31 the source decodes as intended |
| UniversalStringParsing.UnicodeAsWrittenAgreesOnBMP | src/main/java/com/github/zhitron/universal/UniversalStringParsing.java:87-139 | for `\u` the source decodes as intended |
| UniversalStringParsing.UnicodeAsWrittenWraps | src/main/java/com/github/zhitron/universal/UniversalStringParsing.java:121-133 | `\U88888888` returns a negative value and consumes eight digits; the intended decoder refuses it |
| UniversalStringParsing.ParseUnicodeToCodepoint | src/main/java/com/github/zhitron/universal/UniversalStringParsing.java:87-139 | the method with its digit array and counter computes UnicodeAsWritten |
| UniversalStringParsing.ReadHexDigits | src/main/java/com/github/zhitron/universal/UniversalStringParsing.java:102-118 | the reading loop collects HexRun, and reports whether at least four digits arrived |
| UniversalStringParsing.CombineHexDigits | src/main/java/com/github/zhitron/universal/UniversalStringParsing.java:121-123 | the combining loop yields the digits' value narrowed to `int` |
| UniversalStringParsing.CombineStep | src/main/java/com/github/zhitron/universal/UniversalStringParsing.java:121-123 | only the eighth digit can overflow |
| UniversalStringParsing.Escape | src/main/java/com/github/zhitron/universal/UniversalStringParsing.java:626-658 | unescape maps `\t \n \r \f \b` to `t n r f b`, escape maps them back, all else unchanged |
| UniversalStringParsing.EscapeRoundTrip | src/main/java/com/github/zhitron/universal/UniversalStringParsing.java:626-658 | the two directions undo each other on the five pairs |
| UniversalStringParsing.EscapeOnlyInverseOnPairs | src/main/java/com/github/zhitron/universal/UniversalStringParsing.java:626-658 | beyond the pairs they do not: 't' is kept, then becomes a tab |
| UniversalStringParsing.PrefetchEquals | src/main/java/com/github/zhitron/universal/UniversalString.java:523-548 | isEquals(ignoreCase, prefetch, target...) holds iff the prefetcher yields every target character in order |
| UniversalStringParsing.ParsePartialToNull | src/main/java/com/github/zhitron/universal/UniversalStringParsing.java:151-161 | true exactly on a case-insensitive `null` or `undefined` prefix; consumes 4 or 9, else nothing |
| UniversalStringParsing.ParsePartialToBoolean | src/main/java/com/github/zhitron/universal/UniversalStringParsing.java:173-184 | true or false on a case-insensitive `true` or `false` prefix, consuming 4 or 5; null and nothing consumed otherwise |
| UniversalStringParsing.PrefetchMatchesPrefix | src/main/java/com/github/zhitron/universal/UniversalStringParsing.java:151-184 | over a text, a prefetch match of a lower-case keyword is a case-insensitive prefix match |
| UniversalStringParsing.Characters | src/main/java/com/github/zhitron/universal/UniversalString.java:1146-1148 | asCharacters(input, trimCondition) keeps the units inside the trim bounds |
| UniversalStringParsing.LowerEquals | src/main/java/com/github/zhitron/universal/UniversalStringParsing.java:193-261 | the comparison loop holds iff the lower-cased units are the keyword |
| UniversalStringParsing.ParseFullToNull | src/main/java/com/github/zhitron/universal/UniversalStringParsing.java:193-222 | true iff the trimmed text is `null` or `undefined` ignoring case |
| UniversalStringParsing.ParseFullToBoolean | src/main/java/com/github/zhitron/universal/UniversalStringParsing.java:231-261 | true or false iff the trimmed text is `true` or `false` ignoring case, null otherwise |
| UniversalStringParsing.BooleanLiteralIsWholeMatch | src/main/java/com/github/zhitron/universal/UniversalStringParsing.java:173-261 | the whole-text recogniser accepts exactly what the prefix recogniser matches in full |
| UniversalStringParsing.NullLiteralIsWholeMatch | src/main/java/com/github/zhitron/universal/UniversalStringParsing.java:151-222 | likewise for the null keywords |
| UniversalStringParsing.LiteralsIgnoreCase | src/main/java/com/github/zhitron/universal/UniversalStringParsing.java:193-261 | a text and its upper-cased form are the same literal |
| UniversalStringDecimal.IntegerEnd | src/main/java/com/github/zhitron/universal/UniversalStringParsing.java:465-475 | where the integer loop stops: past every digit, ',' and non-last '.' |
| UniversalStringDecimal.DigitsEnd | src/main/java/com/github/zhitron/universal/UniversalStringParsing.java:486-490 | where a digit run ends |
| UniversalStringDecimal.DigitsOf | src/main/java/com/github/zhitron/universal/UniversalStringParsing.java:465-475 | the digits of a sequence, in order |
| UniversalStringDecimal.FractionAt | src/main/java/com/github/zhitron/universal/UniversalStringParsing.java:477-495 | the fraction read at a '.', "0" supplied when no digit follows |
| UniversalStringDecimal.ExponentAt | src/main/java/com/github/zhitron/universal/UniversalStringParsing.java:503-522 | the exponent read at 'e' or 'E': present only with a digit, sign '+' by default |
| UniversalStringDecimal.Parsed | src/main/java/com/github/zhitron/universal/UniversalStringParsing.java:448-528 | the value read phase by phase: sign, integer digits, fraction, exponent; none without a digit or with input left over |
| UniversalStringDecimal.ParsedRender | src/main/java/com/github/zhitron/universal/UniversalStringParsing.java:448-528 | reading a rendering gives back the value rendered |
| UniversalStringDecimal.CanonicalIdempotent | src/main/java/com/github/zhitron/universal/UniversalStringParsing.java:437-529 | the parser's output parses to itself |
| UniversalStringDecimal.ParseFullToDecimal | src/main/java/com/github/zhitron/universal/UniversalStringParsing.java:437-529 | the three-argument parseFullToDecimal returns the canonical form of the trimmed, replaced code points, null for null |
| UniversalStringDecimal.Canonicalize | src/main/java/com/github/zhitron/universal/UniversalStringParsing.java:448-528 | the body after the code points are taken computes Canonical |
| UniversalStringDecimal.IntegerPass | src/main/java/com/github/zhitron/universal/UniversalStringParsing.java:465-475 | the integer loop copies digits and skips ',' and every '.' but the last |
| UniversalStringDecimal.FractionPass | src/main/java/com/github/zhitron/universal/UniversalStringParsing.java:477-495 | the point step supplies "0" for a missing integer part or fraction |
| UniversalStringDecimal.ExponentPass | src/main/java/com/github/zhitron/universal/UniversalStringParsing.java:503-522 | the exponent step copies mark, sign and digits, and rolls back when there are no digits |
| UniversalStringDecimal.DigitsPass | src/main/java/com/github/zhitron/universal/UniversalStringParsing.java:486-490 | a digit loop copies the run |
| UniversalStringDecimalExamples.LonePointIsZero | src/main/java/com/github/zhitron/universal/UniversalStringParsing.java:477-495 | "." reads as 0.0 |
| UniversalStringDecimalExamples.GroupingDotDropped | src/main/java/com/github/zhitron/universal/UniversalStringParsing.java:466 | "7.6.4" reads as 76.4 |
| UniversalStringDecimalExamples.LoneSignIsNothing | src/main/java/com/github/zhitron/universal/UniversalStringParsing.java:498-500 | "+" and "-" are no number |
| UniversalStringDecimalExamples.EmptyExponentDropped | src/main/java/com/github/zhitron/universal/UniversalStringParsing.java:519-521 | "1.2e+" reads as 1.2 |
| UniversalStringNumber.DecValue | src/main/java/com/github/zhitron/universal/UniversalStringParsing.java:366-381 | the value of a sequence of decimal digits |
| UniversalStringNumber.Digits | src/main/java/com/github/zhitron/universal/UniversalStringParsing.java:21-26 | Integer.toString of a natural number: decimal digits without leading zeros |
| UniversalStringNumber.Text | src/main/java/com/github/zhitron/universal/UniversalStringParsing.java:21-26 | Integer.toString and Long.toString |
| UniversalStringNumber.IntMaxText | src/main/java/com/github/zhitron/universal/UniversalStringParsing.java:21 | INTEGER_MAX_CHAR: ten digits ending in 7 |
| UniversalStringNumber.LongMaxText | src/main/java/com/github/zhitron/universal/UniversalStringParsing.java:26 | LONG_MAX_CHAR: nineteen digits ending in 7 |
| UniversalStringNumber.Scan | src/main/java/com/github/zhitron/universal/UniversalStringParsing.java:296-336 | the scanning loop: one '.' on each side of the mark, one mark, a sign only after the mark, digits otherwise |
| UniversalStringNumber.Trimmed | src/main/java/com/github/zhitron/universal/UniversalStringParsing.java:276 | the trimmed characters |
| UniversalStringNumber.DigitsValue | src/main/java/com/github/zhitron/universal/UniversalStringParsing.java:366-381 | Digits and DecValue are inverse |
| UniversalStringNumber.FitsFrom | src/main/java/com/github/zhitron/universal/UniversalStringParsing.java:351-363 | the comparison loop from index i decides the numeric comparison of the remaining digits |
| UniversalStringNumber.FitsIsBound | src/main/java/com/github/zhitron/universal/UniversalStringParsing.java:351-398 | the comparison with MAX_VALUE's digits is the bound MAX_VALUE, or MAX_VALUE + 1 for a negative number |
| UniversalStringNumber.DigitsLength | src/main/java/com/github/zhitron/universal/UniversalStringParsing.java:21-26 | a number has at most L digits exactly when it is below 10^L |
| UniversalStringNumber.LeadingZero | src/main/java/com/github/zhitron/universal/UniversalStringParsing.java:366-381 | leading zeros do not change the value |
| UniversalStringNumber.ScanUnmarked | src/main/java/com/github/zhitron/universal/UniversalStringParsing.java:296-336 | a scan without mark or point saw only digits |
| UniversalStringNumber.IntegralRange | src/main/java/com/github/zhitron/universal/UniversalStringParsing.java:346-419 | the integer branch yields Integer and Long values within `int` and `long` range |
| UniversalStringNumber.IntegralOfDigits | src/main/java/com/github/zhitron/universal/UniversalStringParsing.java:346-419 | on digits without leading zeros it picks the narrowest of Integer, Long and BigInteger that holds the value |
| UniversalStringNumber.ReadNumberRange | src/main/java/com/github/zhitron/universal/UniversalStringParsing.java:269-424 | every Integer and Long returned lies within the range of its type |
| UniversalStringNumber.ReadNumberFails | src/main/java/com/github/zhitron/universal/UniversalStringParsing.java:285-291 | reading fails, with IndexOutOfBounds, exactly on a lone sign |
| UniversalStringNumber.IntegralFails | src/main/java/com/github/zhitron/universal/UniversalStringParsing.java:346-419 | the integral branch fails, with IndexOutOfBounds, exactly when no digit follows the sign |
| UniversalStringNumber.IntegralText | src/main/java/com/github/zhitron/universal/UniversalStringParsing.java:346-419 | the only text-carrying result of the integral branch is a BigInteger of the number text |
| UniversalStringNumber.ReadNumberText | src/main/java/com/github/zhitron/universal/UniversalStringParsing.java:343 | cut from the trimmed characters, a BigInteger or BigDecimal gets the characters without a leading '+' |
| UniversalStringNumber.TextRoundTrip | src/main/java/com/github/zhitron/universal/UniversalStringParsing.java:269-424 | Integer.toString and Long.toString read back as the same value in the narrowest type; wider values as a BigInteger of the same text |
| UniversalStringNumber.AsWrittenAgrees | src/main/java/com/github/zhitron/universal/UniversalStringParsing.java:343 | with nothing to trim, the source and the corrected reading agree |
| UniversalStringNumber.ParseFullToDecimal | src/main/java/com/github/zhitron/universal/UniversalStringParsing.java:269-424 | the method computes ParseNumberAsWritten |
| UniversalStringNumber.ReadTrimmed | src/main/java/com/github/zhitron/universal/UniversalStringParsing.java:285-424 | the body after trimming computes ReadNumber: sign, scan, and the type chosen, with the text cut from the given origin |
| UniversalStringNumberExamples.UnsignedDigits | src/main/java/com/github/zhitron/universal/UniversalStringParsing.java:285-346 | an unsigned run of digits passes the scan and goes to the integer branch whole |
| UniversalStringNumberExamples.LongLength | src/main/java/com/github/zhitron/universal/UniversalStringParsing.java:346-415 | eleven to eighteen unsigned digits make a Long of their value |
| UniversalStringNumber.ReadIntegral | src/main/java/com/github/zhitron/universal/UniversalStringParsing.java:346-419 | the two range checks and accumulations compute Integral |
| UniversalStringNumber.ScanMarks | src/main/java/com/github/zhitron/universal/UniversalStringParsing.java:296-336 | the scanning loop computes Scan |
| UniversalStringNumber.FitsWithin | src/main/java/com/github/zhitron/universal/UniversalStringParsing.java:351-363 | the comparison loop computes Fits |
| UniversalStringNumber.Accumulate | src/main/java/com/github/zhitron/universal/UniversalStringParsing.java:366-381 | the accumulation, negated for a negative number, yields the signed value |
| UniversalStringNumberExamples.UntrimmedTextIsCut | src/main/java/com/github/zhitron/universal/UniversalStringParsing.java:343 | " 1.5" hands " 1." to BigDecimal as written; the corrected reading hands "1.5" on |
| UniversalStringNumberExamples.LeadingZerosMakeALong | src/main/java/com/github/zhitron/universal/UniversalStringParsing.java:346-363 | "00000000001" is a Long |
| UniversalStringNumberExamples.LoneSignFails | src/main/java/com/github/zhitron/universal/UniversalStringParsing.java:285-291 | a lone sign throws on reading its first digit |
| UniversalStringLocale.Rewritten | src/main/java/com/github/zhitron/universal/UniversalStringParsing.java:549-559 | the normalising loop's rewrite keeps the length; it turns ' ' and '-' into '_' |
| UniversalStringLocale.Fields | src/main/java/com/github/zhitron/universal/UniversalStringParsing.java:562-568 | the texts between consecutive '_', empty ones included |
| UniversalStringLocale.JoinFields | src/main/java/com/github/zhitron/universal/UniversalStringParsing.java:562-568 | joining the fields gives the text back |
| UniversalStringLocale.FieldsHaveNoSeparator | src/main/java/com/github/zhitron/universal/UniversalStringParsing.java:562-568 | no field holds a '_' |
| UniversalStringLocale.FieldsOfJoin | src/main/java/com/github/zhitron/universal/UniversalStringParsing.java:562-568 | splitting the join of separator-free fields gives them back |
| UniversalStringLocale.PackRoundTrip | src/main/java/com/github/zhitron/universal/UniversalStringParsing.java:565 | a packed part decodes to its offset and length and is never 0 |
| UniversalStringLocale.PartsFromFields | src/main/java/com/github/zhitron/universal/UniversalStringParsing.java:562-568 | the splitting loop yields one part per field, at its place in the text |
| UniversalStringLocale.PartDecodes | src/main/java/com/github/zhitron/universal/UniversalStringParsing.java:571-588 | part j is 0 exactly for an empty field, and otherwise decodes to field j and to the joined fields from j on |
| UniversalStringLocale.FirstNonEmpty | src/main/java/com/github/zhitron/universal/UniversalStringParsing.java:585-591 | the first non-empty field from j on, or the end |
| UniversalStringLocale.LocaleFieldsClean | src/main/java/com/github/zhitron/universal/UniversalStringParsing.java:571-599 | language and country never hold a separator, and a locale always has a language |
| UniversalStringLocale.LanguageAndCountry | src/main/java/com/github/zhitron/universal/UniversalStringParsing.java:577-583 | a separator-free, '#'-free text is all language; a second field is the country |
| UniversalStringLocale.ParseFullToLocale | src/main/java/com/github/zhitron/universal/UniversalStringParsing.java:539-600 | parseFullToLocale computes ParseLocale: null for null or empty, IllegalArgument on a stray character |
| UniversalStringLocale.ReadLocale | src/main/java/com/github/zhitron/universal/UniversalStringParsing.java:571-599 | reading language, country and variant off the parts |
| UniversalStringLocale.TextOfPart | src/main/java/com/github/zhitron/universal/UniversalStringParsing.java:577-582 | new String(chars, offset, length) of a part is its field |
| UniversalStringLocale.TextFromPart | src/main/java/com/github/zhitron/universal/UniversalStringParsing.java:587-588 | the variant from a part's offset is the joined fields from there |
| UniversalStringLocale.ZeroPartsAreEmpty | src/main/java/com/github/zhitron/universal/UniversalStringParsing.java:565 | a part is 0 exactly when its field is empty |
| UniversalStringLocale.Normalize | src/main/java/com/github/zhitron/universal/UniversalStringParsing.java:549-559 | the in-place loop fails on a stray character and rewrites ' ' and '-' to '_' |
| UniversalStringLocale.SplitParts | src/main/java/com/github/zhitron/universal/UniversalStringParsing.java:562-571 | the splitting loop computes the packed parts of the fields |
| UniversalStringLocale.FirstPart | src/main/java/com/github/zhitron/universal/UniversalStringParsing.java:585-591 | the variant loop finds the first non-zero part from index 2 |
| UniversalStringLocale.FirstNonEmptyIs | src/main/java/com/github/zhitron/universal/UniversalStringParsing.java:585-591 | FirstNonEmpty is the first non-empty field from j on |
| UniversalStringLocaleExamples.LanguageCountryVariant | src/test/java/com/github/zhitron/universal/UniversalStringParsingTest.java:169-174 | "en_US_WIN" has language en, country US, variant WIN |
| UniversalStringLocaleExamples.DashAndSpaceSeparate | src/main/java/com/github/zhitron/universal/UniversalStringParsing.java:554-555 | "en-US" and "en US" read like "en_US" |
| UniversalStringLocaleExamples.EmptyCountryKeepsVariant | src/test/java/com/github/zhitron/universal/UniversalStringParsingTest.java:176-181 | "en__#LATN" skips the empty country to the variant |
| UniversalStringLocaleExamples.HashCountryBecomesVariant | src/main/java/com/github/zhitron/universal/UniversalStringParsing.java:594-597 | "en_#LATN" has language en, no country, variant #LATN |
| UniversalStringLocaleExamples.NoLanguageOrStrayCharacter | src/main/java/com/github/zhitron/universal/UniversalStringParsing.java:554-574 | "_US" has no language; "en@US" throws IllegalArgumentException |
| UniversalStringArray.ExtractedIsElement | src/main/java/com/github/zhitron/universal/UniversalString.java:2689-2731 | what extractString adds has no Java whitespace at either end |
| UniversalStringArray.RunKeepsElements | src/main/java/com/github/zhitron/universal/UniversalStringParsing.java:746-820 | the loop only ever adds elements to the list |
| UniversalStringArray.StepKeepsElements | src/main/java/com/github/zhitron/universal/UniversalStringParsing.java:746-820 | one character of the loop only ever adds elements to the list |
| UniversalStringArray.ElementsBetweenAreElements | src/main/java/com/github/zhitron/universal/UniversalStringParsing.java:742-829 | the elements between the brackets are all well formed |
| UniversalStringArray.ParsedElements | src/main/java/com/github/zhitron/universal/UniversalStringParsing.java:719-830 | every element parseArray returns is non-empty with no Java whitespace at either end |
| UniversalStringArray.UnbracketedElements | src/main/java/com/github/zhitron/universal/UniversalStringParsing.java:727-829 | after the bracket check, whichever branch is taken, every element returned is well formed |
| UniversalStringArray.Pieces | src/main/java/com/github/zhitron/universal/UniversalStringParsing.java:746-820 | a text has at least one piece between separators |
| UniversalStringArray.NonEmpty | src/main/java/com/github/zhitron/universal/UniversalStringParsing.java:826-828 | the non-empty pieces |
| UniversalStringArray.PiecesJoin | src/main/java/com/github/zhitron/universal/UniversalStringParsing.java:746-820 | joining the pieces gives the text back, and no piece holds the separator |
| UniversalStringArray.PlainRun | src/main/java/com/github/zhitron/universal/UniversalStringParsing.java:746-820 | over plain units the loop yields the non-empty pieces |
| UniversalStringArray.PlainElements | src/main/java/com/github/zhitron/universal/UniversalStringParsing.java:742-829 | between the brackets, over plain text, the elements are the non-empty pieces |
| UniversalStringArray.PlainSplit | src/main/java/com/github/zhitron/universal/UniversalStringParsing.java:719-830 | a plain text, bare or in a matching pair of brackets, is cut at every separator and the empty pieces dropped |
| UniversalStringArray.Bracketed | src/main/java/com/github/zhitron/universal/UniversalStringParsing.java:727-740 | a text in one matching pair of brackets yields the elements between them |
| UniversalStringArray.BracketedText | src/main/java/com/github/zhitron/universal/UniversalStringParsing.java:727-740 | the same for a text whose end units are a matching pair |
| UniversalStringArray.BracketedPlainSplit | src/main/java/com/github/zhitron/universal/UniversalStringParsing.java:719-830 | plain text in brackets is split at every separator |
| UniversalStringArray.Walk | src/main/java/com/github/zhitron/universal/UniversalStringParsing.java:746-820 | one turn at a unit that is not a high surrogate |
| UniversalStringArray.Delta | src/main/java/com/github/zhitron/universal/UniversalStringParsing.java:800-804 | an opener adds one to the count, a closer takes one away, anything else leaves it |
| UniversalStringArray.StepBrackets | src/main/java/com/github/zhitron/universal/UniversalStringParsing.java:800-807 | outside an escape, one turn moves the count by Delta and fails exactly when that takes it below 0 |
| UniversalStringArray.PairBalance | src/main/java/com/github/zhitron/universal/UniversalStringParsing.java:800-804 | a surrogate pair leaves the count as it is |
| UniversalStringArray.RunBrackets | src/main/java/com/github/zhitron/universal/UniversalStringParsing.java:746-820 | without the escape character, the loop fails exactly when some prefix has more closers than openers, and otherwise ends with the count moved by the text's balance |
| UniversalStringArray.RunBracketsStep | src/main/java/com/github/zhitron/universal/UniversalStringParsing.java:746-820 | the prefixes from a code point relate to those from the next one |
| UniversalStringArray.ElementsBetweenBrackets | src/main/java/com/github/zhitron/universal/UniversalStringParsing.java:742-829 | without the escape character, the elements fail exactly when some prefix has more closers than openers or a bracket is left open |
| UniversalStringArray.BracketedTextBrackets | src/main/java/com/github/zhitron/universal/UniversalStringParsing.java:719-830 | the same for a text in one matching pair of brackets |
| UniversalStringArray.SeparatorCutsOnlyOutside | src/main/java/com/github/zhitron/universal/UniversalStringParsing.java:746-818 | an unescaped separator past the leading whitespace cuts exactly at depth 0 outside quotes; in brackets or quotes it joins the builder and the list is unchanged |
| UniversalStringArray.WalkAppend | src/main/java/com/github/zhitron/universal/UniversalStringParsing.java:746-820 | an unescaped code unit that is no quote, escape or cutting separator joins the builder, moves the bracket count by its kind and marks the element non-blank |
| UniversalStringArray.WalkCut | src/main/java/com/github/zhitron/universal/UniversalStringParsing.java:810-812 | a separator at depth 0 outside quotes moves the builder into the list |
| UniversalStringArray.FinishAsIs | src/main/java/com/github/zhitron/universal/UniversalStringParsing.java:822-828 | after the loop, with no open bracket, a clean builder is the last element |
| UniversalStringArray.ParseArray | src/main/java/com/github/zhitron/universal/UniversalStringParsing.java:719-830 | parseArray computes ParsedArray |
| UniversalStringArray.Elements | src/main/java/com/github/zhitron/universal/UniversalStringParsing.java:742-829 | the scanning loop and the checks after it compute ElementsBetween |
| UniversalStringArray.ExtractString | src/main/java/com/github/zhitron/universal/UniversalString.java:2689-2731 | extractString trims the builder of Character.isWhitespace |
| UniversalStringArrayExamples.EmptyPieceDropped | src/test/java/com/github/zhitron/universal/UniversalStringParsingTest.java:125 | "[a,,b]" is a, b |
| UniversalStringArrayExamples.NestedBracketsStayTogether | src/test/java/com/github/zhitron/universal/UniversalStringParsingTest.java:90 | "[a(b,c),d]" is a(b,c), d |
| UniversalStringArrayExamples.QuotedSeparatorKept | src/test/java/com/github/zhitron/universal/UniversalStringParsingTest.java:78 | "[\"a,b\",c]" is "a,b" (quotes kept), c |
| UniversalStringArrayExamples.EscapedSeparator | src/main/java/com/github/zhitron/universal/UniversalStringParsing.java:753-790 | "[a\\,b]" is one element a,b |
| UniversalStringArrayExamples.UnclosedQuoteAccepted | src/main/java/com/github/zhitron/universal/UniversalStringParsing.java:719-830 | "[\"a,b]" is one element, not an error |
| UniversalStringArrayExamples.MismatchedCloser | src/main/java/com/github/zhitron/universal/UniversalStringParsing.java:800-808 | "[a)]" throws IllegalArgumentException |
| UniversalStringArrayExamples.UnclosedOpener | src/main/java/com/github/zhitron/universal/UniversalStringParsing.java:821-824 | "[a(]" throws IllegalArgumentException |
| UniversalStringArrayExamples.OneSidedBracket | src/main/java/com/github/zhitron/universal/UniversalStringParsing.java:727-736 | "a]" throws IllegalArgumentException |
| AsciiCharacterType.FilledClass | src/main/java/com/github/zhitron/universal/AsciiCharacterType.java:110-198 | once all calls of a class are done, each entry holds exactly its classes up to that one |
| StringPathProofs.ScanPlain | src/main/java/com/github/zhitron/universal/StringPath.java:95-150 | plain units only raise the content count, and the whitespace and colon counts stay 0 |
| StringPathProofs.ScanCleanFragment | src/main/java/com/github/zhitron/universal/StringPath.java:91-156 | a clean segment scanned as one fragment is appended and nothing else changes |
| StringPathProofs.ScanLastKept | src/main/java/com/github/zhitron/universal/StringPath.java:153-155 | the last kept segment of a text is stored, as written, when the text ends |
| StringPathProofs.ScanKeptThenSeparator | src/main/java/com/github/zhitron/universal/StringPath.java:120-133 | a kept segment before a separator is stored, as written, at the separator, the flag fixed to relative if unset, and a fresh span begins |
| StringPathProofs.SeparatorStoresSpan | src/main/java/com/github/zhitron/universal/StringPath.java:120-133 | a separator after content without surrounding whitespace stores that span |
| StringPath.OfText | src/main/java/com/github/zhitron/universal/StringPath.java:230-232 | of("") is EMPTY_STRING_PATH and of a lone separator is ROOT_STRING_PATH |
| StringPath.Relative | src/main/java/com/github/zhitron/universal/StringPath.java:354-375 | relativize of null is this path; otherwise the result is relative, empty for the path itself, and for a descendant it is the segments that follow this path |
| StringPath.Resolve | src/main/java/com/github/zhitron/universal/StringPath.java:395-400 | an absolute argument is returned as it is; an empty relative argument gives this path |
| StringPath.Concat | src/main/java/com/github/zhitron/universal/StringPath.java:418-421 | concatenating a path without segments gives this path, whatever its flag |
| StringPath.SegmentHash | src/main/java/com/github/zhitron/universal/StringPath.java:584-590 | the empty segment hashes to 0 and a one-character segment to the lower-cased character |
| StringPath.ToStringAsWritten | src/main/java/com/github/zhitron/universal/StringPath.java:606-618 | toString of a path without segments is "", the root included; one segment gives the segment after the optional '/' |
| StringPath.PathString | src/main/java/com/github/zhitron/universal/StringPath.java:598-602 | the documented form starts with '/' for an absolute path, is empty for a path without segments exactly when it is relative, and is one segment after the optional '/' |
| StringPathProofs.TrailingBlanks | src/main/java/com/github/zhitron/universal/StringPath.java:106-150 | the trailing whitespace the scanner leaves out of a span: at most the span's length, and 0 when its last unit is content other than ':' |
| StringPathProofs.TrailingBlanksZero | src/main/java/com/github/zhitron/universal/StringPath.java:134-149 | no whitespace is left out of a span exactly when every whitespace unit in it has a later unit that is neither whitespace nor ':' |
| StringPathProofs.TrailingBlanksAt | src/main/java/com/github/zhitron/universal/StringPath.java:134-149 | the trailing whitespace of a slice is that of the same units in place |
| StringPathProofs.CleanIsKept | src/main/java/com/github/zhitron/universal/StringPath.java:106-150 | a segment of plain units is kept |
| StringPathProofs.ScanSpan | src/main/java/com/github/zhitron/universal/StringPath.java:95-150 | scanning permitted non-separator units inside one span leaves list and flag alone, sets the pending whitespace to TrailingBlanks, raises the content count and lets the colon count grow only by ':' |
| StringPathProofs.SpanStep | src/main/java/com/github/zhitron/universal/StringPath.java:106-150 | one unit or surrogate pair of such a span: the colon case counts content and a ':', whitespace is pending, other units take the pending whitespace in |
| StringPathProofs.KeptUnits | src/main/java/com/github/zhitron/universal/StringPath.java:95-150 | a kept segment placed in a text supplies the unit facts ScanSpan needs |
| StringPathProofs.ScanKeptFragment | src/main/java/com/github/zhitron/universal/StringPath.java:91-156 | a kept segment scanned as one fragment is appended as written, with the counters left clean and the colon count grown only by its ':' |
| StringPathProofs.ScanKeptFragments | src/main/java/com/github/zhitron/universal/StringPath.java:91-167 | kept fragments scanned one after another are appended in order, provided a pending or coming ':' leaves every fragment within the colon limit |
| StringPathExamples.ColonAfterSpaceBreaksRoundTrip | src/main/java/com/github/zhitron/universal/StringPath.java:107-112 | of("a :") is "a ", whose toString "a " parses to "a": of(of("a :").toString()) differs from of("a :") |
| StringPathExamples.DriveIsKept | src/main/java/com/github/zhitron/universal/StringPath.java:107-112 | "C:" is a kept segment |
| StringPathExamples.DriveFragment | src/main/java/com/github/zhitron/universal/StringPath.java:107-112 | "C:" scanned as the first fragment is stored and leaves the colon count at 1 |
| StringPathExamples.DriveTextIsBuilt | src/main/java/com/github/zhitron/universal/StringPath.java:64-170 | of("C:/a/b/x") is the relative path C:, a, b, x |
| StringPathExamples.CarriedColonScan | src/main/java/com/github/zhitron/universal/StringPath.java:143-145 | rescanning C:, a, b, x as fragments throws at "x": three segments are stored and the colon count carried from "C:" is not 0 |
| StringPathExamples.ResolveCarriedColonFails | src/main/java/com/github/zhitron/universal/StringPath.java:395-400 | for the descendant of("C:/a/b/x") of EMPTY_STRING_PATH, resolve(relativize) throws IllegalArgumentException |
| AsciiWordToken.SplitFrom | src/main/java/com/github/zhitron/universal/AsciiWordToken.java:167-227 | the loop of parts fails, with IllegalArgument, only on a character that is neither a separator nor a word character |
| AsciiWordToken.Split | src/main/java/com/github/zhitron/universal/AsciiWordToken.java:167-227 | parts of nothing is no words; it fails, with IllegalArgument, only on a character that is neither a separator nor a word character |
| AsciiWordToken.StyledFirst | src/main/java/com/github/zhitron/universal/AsciiWordToken.java:320-369 | the first word keeps its length |
| AsciiWordToken.Styled | src/main/java/com/github/zhitron/universal/AsciiWordToken.java:320-369 | every later word keeps its length |
| AsciiWordToken.Render | src/main/java/com/github/zhitron/universal/AsciiWordToken.java:320-369 | marge of no words is ""; otherwise its length is the words' total plus one delimiter between each two |
| UniversalString.IsHex | src/main/java/com/github/zhitron/universal/UniversalString.java:202-204 | a hex character lies in '0'..'f'; case does not matter: lower-cased, it is a digit or a-f |
| UniversalString.IsEmoji | src/main/java/com/github/zhitron/universal/UniversalString.java:212-232 | the nine blocks are exactly U+1F300..U+1FAFF without U+1F650..U+1F67F |
| UniversalStringParsing.HexDigit | src/main/java/com/github/zhitron/universal/UniversalStringParsing.java:58-73 | the digit for a value is a lower-case hex character |
| UniversalStringParsing.UnicodeCodepoint | src/main/java/com/github/zhitron/universal/UniversalStringParsing.java:87-139 | the corrected decoder gives -1 exactly when it consumes nothing; otherwise it consumed 4 to 8 digits (4 for \u), with a prefetcher and a consumer, and yields a code point above 0 and at most U+10FFFF |
| UniversalStringDecimal.Render | src/main/java/com/github/zhitron/universal/UniversalStringParsing.java:448-528 | a valid value renders to digits, signs, '.' and 'E' only, with a digit right after the optional sign |
| UniversalStringDecimal.Canonical | src/main/java/com/github/zhitron/universal/UniversalStringParsing.java:437-529 | a canonical form exists exactly when the code points read as a number, and it is non-empty text of digits, signs, '.' and 'E' |
| UniversalStringNumber.Integral | src/main/java/com/github/zhitron/universal/UniversalStringParsing.java:346-419 | the integral branch never gives null or a BigDecimal; an Integer has at most 10 digits, a Long at most 19, a BigInteger at least 19; it fails, with IndexOutOfBounds, only without digits |
| UniversalStringNumber.ReadNumber | src/main/java/com/github/zhitron/universal/UniversalStringParsing.java:285-424 | reading fails, with IndexOutOfBounds, only on a lone sign, and a BigInteger needs at least 19 characters |
| UniversalStringNumber.ParseNumber | src/main/java/com/github/zhitron/universal/UniversalStringParsing.java:269-424 | null or empty input gives null; the only failure is IndexOutOfBounds on a lone sign after trimming |
| UniversalStringLocale.LocaleOfFields | src/main/java/com/github/zhitron/universal/UniversalStringParsing.java:571-599 | a locale exists exactly when the first field is not empty; it is the language, and a country, when present, is the second field |
| UniversalStringLocale.ParseLocale | src/main/java/com/github/zhitron/universal/UniversalStringParsing.java:539-600 | null for null or empty input; IllegalArgument exactly for a non-empty text with a stray character; a locale always has a language |
| UniversalStringArray.Step | src/main/java/com/github/zhitron/universal/UniversalStringParsing.java:749-819 | a turn fails, with IllegalArgument, only outside an escape when a closer meets a count of 0 |
| UniversalStringArray.Run | src/main/java/com/github/zhitron/universal/UniversalStringParsing.java:746-820 | the loop fails only with IllegalArgument |
| UniversalStringArray.ElementsBetween | src/main/java/com/github/zhitron/universal/UniversalStringParsing.java:742-829 | nothing between the brackets gives the empty array; the only failure is IllegalArgument |
| UniversalStringArray.Unbracketed | src/main/java/com/github/zhitron/universal/UniversalStringParsing.java:727-740 | a bracket on one side only throws IllegalArgumentException, and no other exception is thrown |
| UniversalStringArray.ParsedArray | src/main/java/com/github/zhitron/universal/UniversalStringParsing.java:719-830 | null or empty input gives the empty array; the only failure is IllegalArgument |
| UniversalStringTrim.Stripped | src/main/java/com/github/zhitron/universal/UniversalString.java:2456-2499 | stripping never lengthens the text, strips nothing when neither side is chosen, and leaves no element satisfying the condition at a chosen end |
| UniversalStringTrim.DropWhileHead | src/main/java/com/github/zhitron/universal/UniversalString.java:2456-2499 | what remains after the leading run does not start with an element satisfying the condition |
| UniversalStringTrim.DropLastWhileKeepsPrefix | src/main/java/com/github/zhitron/universal/UniversalString.java:2456-2499 | what remains after the trailing run is a prefix that does not end with an element satisfying the condition |
| StringPathProofs.StepStores | src/main/java/com/github/zhitron/universal/StringPath.java:106-150 | a step over permitted non-separator units keeps every stored segment well formed |
| StringPathProofs.SegmentsHashIgnoresCase | src/main/java/com/github/zhitron/universal/StringPath.java:579-595 | ASCII segment lists equal ignoring case have the same path hash |
| StringPathExamples.CleanThenTwoSeparators | src/main/java/com/github/zhitron/universal/StringPath.java:120-133 | a clean segment then two separators is stored once |
| StringPathExamples.SpaceThenA | src/main/java/com/github/zhitron/universal/StringPath.java:134-149 | " a" stores a and leaves one leading space and one content unit counted |
| StringPathExamples.LetterAfterCarriedSpace | src/main/java/com/github/zhitron/universal/StringPath.java:89-91 | with the carried counts, "b" then stores an empty span: nothing |
| UniversalStringBuild.FilteredNone | src/main/java/com/github/zhitron/universal/UniversalString.java:1780-1803 | a condition true of no code point keeps all of them |
| UniversalStringBuild.FilteredAll | src/main/java/com/github/zhitron/universal/UniversalString.java:1780-1803 | a condition true of every code point keeps none |
| UniversalStringBuild.FilteredTwice | src/main/java/com/github/zhitron/universal/UniversalString.java:1780-1803 | filtering twice by one condition filters once |
| UniversalStringBuild.KeptPlain | src/main/java/com/github/zhitron/universal/UniversalString.java:2096-2166 | on plain text a keep loop copies exactly the units in range |
| UniversalStringBuild.MaskedPlain | src/main/java/com/github/zhitron/universal/UniversalString.java:2096-2166 | on plain text with a one-unit mark the five stretches are mark runs and slices of the text |
| UniversalStringBuild.ReverseStep | src/main/java/com/github/zhitron/universal/UniversalString.java:1671-1680 | one turn of the backward loop moves the code point before i to the front of the reversed part |
| UniversalStringDecimal.FractionAtOf | src/main/java/com/github/zhitron/universal/UniversalStringParsing.java:477-495 | reading a rendered fraction gives the fraction back and stops after it |
| UniversalStringDecimal.ExponentAtOf | src/main/java/com/github/zhitron/universal/UniversalStringParsing.java:503-522 | reading a rendered exponent gives the exponent back and reaches the end |
| UniversalStringParsing.KeywordsAreLowerCase | src/main/java/com/github/zhitron/universal/UniversalStringParsing.java:151-261 | null, undefined, true and false are lower case, so comparing lower-cased text with them ignores case |
| UniversalStringTrim.DropWhile | src/main/java/com/github/zhitron/universal/UniversalString.java:2456-2499 | dropping the leading run never lengthens the text |
| UniversalStringTrim.DropLastWhile | src/main/java/com/github/zhitron/universal/UniversalString.java:2456-2499 | dropping the trailing run never lengthens the text |
| UniversalStringTrim.FirstMatch | src/main/java/com/github/zhitron/universal/UniversalString.java:2388-2394 | a trim found lies at or after the start index of the search and matches at the position |
| UniversalStringTrim.LeadCut | src/main/java/com/github/zhitron/universal/UniversalString.java:2384-2399 | the leading loop never moves startInclusive backwards |
| UniversalStringTrim.TrailCut | src/main/java/com/github/zhitron/universal/UniversalString.java:2401-2416 | the trailing loop never moves endExclusive forwards |
| UniversalStringTrim.Mapping | src/main/java/com/github/zhitron/universal/UniversalString.java:1317-1339 | the table has a key for exactly the source's code points |
| UniversalStringTrim.Replace | src/main/java/com/github/zhitron/universal/UniversalString.java:1344-1365 | without a table the code points pass unchanged, and replacing never lengthens them |
| UniversalStringNumber.DigitsCount | src/main/java/com/github/zhitron/universal/UniversalStringParsing.java:21-26 | a number in [10^k, 10^(k+1)) has k + 1 digits |
| UniversalStringNumber.ScanDigits | src/main/java/com/github/zhitron/universal/UniversalStringParsing.java:296-336 | a run of digits passes the scan and leaves the marks unchanged |

## Left out

- `File` and `Path` roots of StringPath, and `toPath`/`toFile`: these are java.io and java.nio types. A root of any other type yields the modelled "unsupported root" error.
- The `KMP`-based operations (`countOccurrences`, `indexOf`, `lastIndexOf`, `isContain*`, `clean` with a target list, `replace`, `split`, `format`): KMP is not part of this model.
- `similarity`, because it returns a `double`; `replacePlaceholder`, because it uses regular expressions; `toMethodTag` and `toString(Locale)`, because they use reflection and `Locale`.
- `toLowerCase`, `toUpperCase` and `capitalize`. Case mapping beyond ASCII is the identity in `JavaText`.
- `Character.isDigit` and `isLetterOrDigit` in `JavaText` accept ASCII digits and letters only. `parseFullToDecimal` and `parseFullToLocale` therefore reject non-ASCII digits and letters that Java would accept.
- The `String.regionMatches` fast path for two `String`s is taken to compare as the array loop does.
- BigInteger and BigDecimal: the one-argument `parseFullToDecimal` returns `BigIntegerOf` or `BigDecimalOf` with the text the constructor would receive. The text's own validation by that constructor is not modelled.
- The `Locale` constructor: `parseFullToLocale` returns the (language, country, variant) triple before `Locale`'s own normalisation, which lower-cases the language and upper-cases the country.
- `IndexBounds.each()` returning an `IntStream`, and `IndexBounds.toString`.
- The callbacks (`IntConsumer`, `IntUnaryOperator`, `IntPredicate`) are Dafny functions. A method's result lists the calls made. Callback side effects are not modelled.
- `AsciiCharacterType`'s `int` masks are sets of class ordinals: `x | (1 << t)` adds `t`, and `(x & m) == m` is inclusion.
- IndexBounds.EachSkip: it requires positive skips, so that the walk stays inside [start, end): the source loops forever on a skip of 0, and a negative skip steps below start (or, in `int` arithmetic, wraps past end). It adds `i + skip` without the 32-bit wrap, which is the loop as intended; as written, the sum can wrap and the loop then never ends (see Findings).
- IndexBounds.EachIndexed: `index += skip` is reduced to an `int`, but `current += skip` is not, for the same reason as in EachSkip.
- IndexBounds.EndInclusive: the datatype's fields are unbounded; the contract speaks of endExclusive within `int` range, as Java's fields are.
- StringPathProofs.SegmentHashIgnoresCase, StringPathProofs.SegmentsHashIgnoresCase, StringPathProofs.HashAgreesWithEqualsIgnoreCase: stated for ASCII segments only. Beyond ASCII, Java's equalsIgnoreCase relates characters that hashCode keeps apart, such as U+017F and 's' (see Findings).
- UniversalString.IsHex, UniversalString.CharacterClasses: isHex takes Character.isDigit on ASCII only, so digits such as U+0660 are not hex here, and the claim that hex digits are printable ASCII holds of the model only.
- UniversalStringLocale.ParseFullToLocale: `|input| < 2^31` stands for the Java array length limit.
- UniversalStringLocale.PartDecodes: `|input| < 2^31` stands for the Java array length limit.
- UniversalStringBuild.Desensitize: its seven-way all-mask test adds the mask lengths as unbounded integers. The `int` overflow of that sum is not modelled.
- The null operator and array arguments that the source dereferences without a check: they would throw NullPointerException and are outside each method's `requires`.
- AsciiWordTokenProofs.LowerDelimitedRoundTrip: the round trip is proved only for lower-case kebab and underline renderings. Camel and upper-case renderings split differently (`XMLHttp` versus `XmlHttp`).
- `StringPath.build` over several arrays of fragments is modelled; the proofs about kept segments take one array, as every caller passes.
- StringPathProofs.PathStringRoundTrip, StringPathProofs.ToStringRoundTrip: proved for kept segments with a ':' only in the first three, not for every path value. Outside that, the source itself does not give the path back: a leading or trailing blank is trimmed away, "a :" is stored as "a " (`StringPathExamples.ColonAfterSpaceBreaksRoundTrip`), and a ':' with three segments already stored throws.
- StringPathProofs.ResolveRelativeRoundTrip, StringPathProofs.ResolveRelativeExactlyForDescendants: proved when the segments past the base are kept and a ':' among them comes only in a target of at most three segments. The colon count carries over from fragment to fragment, so the source throws otherwise: `StringPathExamples.ResolveCarriedColonFails` shows of("C:/a/b/x"), a descendant of EMPTY_STRING_PATH, failing to come back.

## Findings

| source | as written | input that shows it | evidently intended | confidence | as-written member | corrected member |
|---|---|---|---|---|---|---|
| src/main/java/com/github/zhitron/universal/StringPath.java:606-618 | toString drops the builder's last character, which for ROOT_STRING_PATH is its only "/" | ROOT_STRING_PATH gives "", which parses to EMPTY_STRING_PATH | "/" for the root: a leading '/' then the segments joined by '/' | not executed | StringPath.ToString, StringPathProofs.RootToStringLosesTheRoot | StringPathProofs.PathStringRoundTrip |
| src/main/java/com/github/zhitron/universal/IndexBounds.java:68-71 | length() subtracts in 32-bit `int` and then clamps at 0 | [Integer.MIN_VALUE, 0) has length 0 but is not empty | the number of indices, end - start | not executed | IndexBounds.LengthAsWritten, IndexBounds.LengthAsWrittenWrapsAround | IndexBounds.Length |
| src/main/java/com/github/zhitron/universal/IndexBounds.java:110-115 | `i += skip` is an `int` sum, so a skip past Integer.MAX_VALUE wraps the loop variable negative | [Integer.MAX_VALUE - 1, Integer.MAX_VALUE) with skip 2 never returns | one call at Integer.MAX_VALUE - 1, then stop | not executed | IndexBounds.SkipIndexAsWritten, IndexBounds.EachSkipAsWrittenNeverEnds | IndexBounds.EachSkip |
| src/main/java/com/github/zhitron/universal/StringPath.java:579-595 | hashCode lowers only characters isUpperCase accepts, while equalsIgnoreCase also compares upper-case forms; the comment at line 585 says the lowering keeps hashCode consistent with ignoring case | "ſ" and "s" are equal ignoring case, but hash to 0x17F and 0x73 | a hash folding every character as equalsIgnoreCase does | not executed | StringPathProofs.SegmentHashAsWritten, StringPathProofs.HashAsWrittenSplitsLongS | StringPathProofs.SegmentHashFolded, StringPathProofs.FoldedHashIgnoresCase, StringPathProofs.AsciiCaseHashFolded |
| src/main/java/com/github/zhitron/universal/AsciiWordToken.java:17 | EMPTY has hash 0, while an empty word stream hashes to 1 | of("") is EMPTY, yet EMPTY.equals("") is false | hash 1, so all wordless tokens are equal | not executed | AsciiWordTokenProofs.EmptyAsWrittenDiffers | AsciiWordTokenProofs.WordlessTokensAreEqual |
| src/main/java/com/github/zhitron/universal/UniversalString.java:119-131 | the offset sums are `int` sums and wrap | offsets Integer.MAX_VALUE, count 1, lengths 5 pass | reject regions past the array ends | not executed | UniversalString.OffsetPairAsWrittenAcceptsOverflow | UniversalString.RegionMatches |
| src/main/java/com/github/zhitron/universal/UniversalString.java:612-624 | the length guard compares prefix + suffix with the whole input, not the range | "abaXX", range [0, 3), prefix "ab", suffix "ba" is accepted | prefix and suffix fit the range without overlap | not executed | UniversalString.SurroundAsWrittenOverlaps | UniversalString.IsSurround |
| src/main/java/com/github/zhitron/universal/UniversalString.java:1609 | leadingLength + trailingLength is an `int` sum | "Hello", leading Integer.MAX_VALUE, trailing 1 throws NegativeArraySizeException | "Hello" unchanged | not executed | UniversalStringBuild.BriefAsWrittenOverflows | UniversalStringBuild.Brief |
| src/main/java/com/github/zhitron/universal/UniversalString.java:1671-1680 | the backward loop reads codePointAt(i), which at the low half of a pair reads that half alone | "a" + U+1F600 gives a stray low surrogate, then the pair, and the "a" is lost | the code points in reverse order | not executed | UniversalStringBuild.ReverseAsWrittenLosesUnit | UniversalStringBuild.Reverse |
| src/main/java/com/github/zhitron/universal/UniversalString.java:2254-2256 | `prefix + "" + suffix` with null prefix and suffix concatenates "null" twice | repeat(",", null, null, null, null, null, 3) is "nullnull" | "", as every other branch treats null as "" | not executed | UniversalStringBuild.RepeatAsWrittenPrintsNull | UniversalStringBuild.RepeatText |
| src/main/java/com/github/zhitron/universal/UniversalString.java:2509-2531 | `number <= 10` after the decrement sends 11 to the 1-10 block | toStyledNumberChar(11, 3) is U+24FF | U+24EB, negative circled 11 | not executed | UniversalStringBuild.StyledNumberAsWrittenEleven | UniversalStringBuild.StyledNumberRoundTrip |
| src/main/java/com/github/zhitron/universal/UniversalStringParsing.java:121-133 | eight digits are combined in `int` before the range check, so a value of 2^31 or more wraps negative and passes `> 0x10FFFF` | `\U88888888` returns a negative code point and consumes eight digits | -1, consuming nothing | not executed | UniversalStringParsing.UnicodeAsWrittenWraps | UniversalStringParsing.UnicodeCodepointIsScalarValue |
| src/main/java/com/github/zhitron/universal/UniversalStringParsing.java:343 | the number text is cut from the untrimmed input at the indices of the trimmed characters | " 1.5" hands " 1." to BigDecimal, which rejects it | the trimmed characters "1.5" | not executed | UniversalStringNumberExamples.UntrimmedTextIsCut | UniversalStringNumber.ReadNumberText |
