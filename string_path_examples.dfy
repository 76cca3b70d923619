// Concrete builds: the behaviours the library documents for dot segments,
// "..", repeated separators, forbidden characters and relativize, and two
// behaviours of the scanner as written (counters carried from one fragment
// to the next, and a ':' after whitespace).

module StringPathExamples {
  import opened JavaText
  import opened StringPath
  import opened StringPathProofs

  const Dot: JString := ['.' as int]
  const Slash: JString := ['/' as int]
  const Backslash: JString := ['\\' as int]

  /** The state after scanning a clean root text `u`. */
  lemma {:induction false} CleanRoot(u: JString) returns (st: Scan)
    requires IsCleanSegment(u)
    ensures st == Scan([u], None, 0, 0, st.dc, 0)
    ensures ScanFrom(Start([], None), -1, u, 0, 0) == Ok(st)
  {
    ScanCleanFragment(Start([], None), -1, u);
    st := ScanFrom(Start([], None), -1, u, 0, 0).value;
  }

  /** of(u, ".", d) is u/d, as of("user", ".", "documents") is user/documents. */
  lemma {:induction false} DotSegmentIsDropped(u: JString, d: JString)
    requires IsCleanSegment(u) && IsCleanSegment(d)
    ensures Of(TextRoot(u), [Dot, d]) == Ok(Path(false, [u, d]))
  {
    var s1 := CleanRoot(u);
    ScanDotFragment(s1, 1);
    var s2 := ScanFrom(s1, 1, Dot, 0, 0).value;
    ScanCleanFragment(s2, 1, d);
    FlattenSingle([Dot, d]);
    assert [Dot, d][1..] == [d];
    var s3 := ScanFrom(s2, 1, d, 0, 0).value;
    assert ScanFragments(s2, 1, [d]) == Ok(s3);
    assert ScanFragments(s1, 1, [Dot, d]) == Ok(s3);
    assert [u] + [d] == [u, d];
  }

  /**
   * of(u, "..", o, f) is u/o/f, as of("user", "..", "other", "file.txt") is
   * user/other/file.txt: the ".." stops at the segments of the root text.
   */
  lemma {:induction false} DotDotStopsAtRootText(u: JString, o: JString, f: JString)
    requires IsCleanSegment(u) && IsCleanSegment(o) && IsCleanSegment(f)
    ensures Of(TextRoot(u), [DotDot(), o, f]) == Ok(Path(false, [u, o, f]))
  {
    var s1 := CleanRoot(u);
    ScanDotDotFragment(s1, 1);
    var s2 := ScanFrom(s1, 1, DotDot(), 0, 0).value;
    ScanCleanFragments(s2, 1, [o, f]);
    FlattenSingle([DotDot(), o, f]);
    assert [DotDot(), o, f][1..] == [o, f];
    assert ScanFragments(s1, 1, [DotDot(), o, f]) == ScanFragments(s2, 1, [o, f]);
    assert [u] + [o, f] == [u, o, f];
  }

  /** A separator right after another one stores nothing and keeps the fixed flag. */
  lemma {:induction false} RepeatedSeparator(list: seq<JString>, b: bool, rl: int, str: JString, i: nat)
    requires i < |str| && IsSeparator(str[i])
    ensures ScanFrom(Start(list, Some(b)), rl, str, i, i) == ScanFrom(Start(list, Some(b)), rl, str, i + 1, i + 1)
  {
    var next: nat := i + 1;
    assert StepAt(Start(list, Some(b)), rl, str, i, i) == Ok((Start(list, Some(b)), next));
  }

  /** A clean segment followed by two separators is appended once; the flag becomes relative if not yet fixed. */
  lemma {:induction false} CleanThenTwoSeparators(st: Scan, rl: int, str: JString, i: nat, seg: JString)
    requires st == Start(st.list, st.slash) && st.slash != Some(true)
    requires IsCleanSegment(seg)
    requires i + |seg| + 1 < |str| && str[i..i + |seg|] == seg
    requires IsSeparator(str[i + |seg|]) && IsSeparator(str[i + |seg| + 1])
    ensures var next := i + |seg| + 2;
      ScanFrom(st, rl, str, i, i) == ScanFrom(Start(st.list + [seg], Some(false)), rl, str, next, next)
  {
    CleanIsKept(seg);
    ScanKeptThenSeparator(st, rl, str, i, seg);
    if st.slash.Some? {
      assert !st.slash.value;
    }
    RepeatedSeparator(st.list + [seg], false, rl, str, i + |seg| + 1);
  }

  /** The scan of u//d\\\\f after the root text: three segments, relative. */
  lemma {:induction false} ScanSeparated(str: JString, u: JString, d: JString, f: JString)
    requires IsCleanSegment(u) && IsCleanSegment(d) && IsCleanSegment(f)
    requires str == u + Slash + Slash + d + Backslash + Backslash + f
    ensures var r := ScanFrom(Start([], None), -1, str, 0, 0);
      r.Ok? && r.value.list == [u, d, f] && r.value.slash == Some(false)
  {
    var i2 := |u| + 2;
    var i3 := i2 + |d| + 2;
    SeparatedPieces(str, u, d, f);
    var none: seq<JString> := [];
    CleanThenTwoSeparators(Start(none, None), -1, str, 0, u);
    assert none + [u] == [u];
    CleanThenTwoSeparators(Start([u], Some(false)), -1, str, i2, d);
    assert [u] + [d] == [u, d];
    CleanIsKept(f);
    ScanLastKept(Start([u, d], Some(false)), -1, str, i3, f);
    assert [u, d] + [f] == [u, d, f];
  }

  /** Where the pieces of u//d\\\\f sit. */
  lemma {:induction false} SeparatedPieces(str: JString, u: JString, d: JString, f: JString)
    requires str == u + Slash + Slash + d + Backslash + Backslash + f
    ensures var i2, i3 := |u| + 2, |u| + |d| + 4;
      && |str| == i3 + |f| && str[0..|u|] == u && str[i2..i2 + |d|] == d && str[i3..] == f
      && str[|u|] == '/' as int && str[|u| + 1] == '/' as int
      && str[i2 + |d|] == '\\' as int && str[i2 + |d| + 1] == '\\' as int
  {
  }

  /**
   * of(u + "//" + d + "\\\\" + f) is u/d/f, as of("user//documents\\\\file.txt")
   * is user/documents/file.txt: repeated separators of either kind collapse.
   */
  lemma {:induction false} SeparatorsAreNormalized(u: JString, d: JString, f: JString)
    requires IsCleanSegment(u) && IsCleanSegment(d) && IsCleanSegment(f)
    ensures OfText(u + Slash + Slash + d + Backslash + Backslash + f) == Ok(Path(false, [u, d, f]))
  {
    ScanSeparated(u + Slash + Slash + d + Backslash + Backslash + f, u, d, f);
    FlattenSingle([]);
  }

  /** of("....") throws IllegalArgumentException: a segment of three or more dots. */
  lemma {:induction false} AllDotsAreRejected()
    ensures OfText(['.' as int, '.' as int, '.' as int, '.' as int]) == Err(IllegalArgument)
  {
    var str: JString := ['.' as int, '.' as int, '.' as int, '.' as int];
    var d := ScanPlain(Start([], None), -1, str, 0, 0, 4);
  }

  /** of("..") throws IndexOutOfBoundsException: ".." with nothing stored while the root text is scanned. */
  lemma {:induction false} DotDotAtTheStartFails()
    ensures OfText(DotDot()) == Err(IndexOutOfBounds)
  {
    var d := ScanPlain(Start([], None), -1, DotDot(), 0, 0, 2);
  }

  /**
   * A text whose plain prefix is followed by a forbidden character is
   * rejected, as of("user<invalid>") and of("user|path") are.
   */
  lemma {:induction false} ForbiddenAfterPlain(str: JString, i: nat)
    requires i < |str| && IsForbidden(str[i])
    requires forall k | 0 <= k < i :: IsPlainUnit(str[k])
    ensures OfText(str) == Err(IllegalArgument)
  {
    var d := ScanPlain(Start([], None), -1, str, 0, 0, i);
  }

  const A: JString := ['a' as int]
  const B: JString := ['b' as int]
  const C: JString := ['c' as int]
  const X: JString := ['x' as int]
  const Y: JString := ['y' as int]

  /** relativize of a/b/c against a/x/y is ../../x/y. */
  lemma {:induction false} RelativizeDivergentBranches()
    ensures Relative(Path(false, [A, B, C]), Some(Path(false, [A, X, Y])))
      == Path(false, [DotDot(), DotDot(), X, Y])
  {
    var abc: seq<JString>, axy: seq<JString> := [A, B, C], [A, X, Y];
    assert CommonPrefixLength(axy, abc) == 1 by {
      var t1, t2 := axy[1..], abc[1..];
      assert t1[0] == X && t2[0] == B;
    }
    RelativeShape(Path(false, abc), Path(false, axy));
    assert Repeat(DotDot(), 2) == [DotDot(), DotDot()];
    assert axy[1..] == [X, Y];
  }

  /** Resolving ../../x/y against a/b/c gives a/b/c/x/y: the ".." segments stop at the base. */
  lemma {:induction false} ResolveStopsAtTheBase()
    ensures Resolve(Path(false, [A, B, C]), Path(false, [DotDot(), DotDot(), X, Y]))
      == Ok(Path(false, [A, B, C, X, Y]))
  {
    var abc: seq<JString> := [A, B, C];
    var frags := [DotDot(), DotDot(), X, Y];
    FlattenSingle(frags);
    var s0 := Start(abc, Some(false));
    ScanDotDotFragment(s0, 3);
    var s1 := ScanFrom(s0, 3, DotDot(), 0, 0).value;
    ScanDotDotFragment(s1, 3);
    var s2 := ScanFrom(s1, 3, DotDot(), 0, 0).value;
    assert X[0] == 'x' as int && Y[0] == 'y' as int;
    ScanCleanFragments(s2, 3, [X, Y]);
    assert frags[1..] == [DotDot(), X, Y] && frags[1..][1..] == [X, Y];
    assert ScanFragments(s1, 3, frags[1..]) == ScanFragments(s2, 3, [X, Y]);
    assert ScanFragments(s0, 3, frags) == ScanFragments(s1, 3, frags[1..]);
    assert abc + [X, Y] == [A, B, C, X, Y];
  }

  /**
   * The scanner's counters carry over from the root text to the next
   * fragment: after " a" the leading-space count is 1, so of(" a", "b")
   * stores an empty span for "b" and the result is just a.
   */
  lemma {:induction false} CountersCarryOverFragments()
    ensures Of(TextRoot([' ' as int, 'a' as int]), [B]) == Ok(Path(false, [A]))
  {
    var s3 := SpaceThenA();
    var s4 := LetterAfterCarriedSpace(s3);
    FlattenSingle([B]);
    assert ScanFragments(s3, 1, [B]) == Ok(s4);
  }

  /** Scanning the root text " a" stores a and leaves the counts at one space and one content unit. */
  lemma {:induction false} SpaceThenA() returns (s3: Scan)
    ensures s3 == Scan([A], None, 1, 0, 1, 0)
    ensures ScanFrom(Start([], None), -1, [' ' as int, 'a' as int], 0, 0) == Ok(s3)
  {
    var f1: JString := [' ' as int, 'a' as int];
    var z: nat := 0;
    var s0 := Start([], None);
    var s1 := s0.(sc := 1);
    assert StepAt(s0, -1, f1, 0, 0) == Ok((s1, z));
    var s2 := s1.(dc := 1);
    assert StepAt(s1, -1, f1, 0, 1) == Ok((s2, z));
    assert f1[1..2] == A;
    var none: seq<JString> := [];
    assert none + [f1[1..2]] == [A];
    s3 := s2.(list := [A]);
    assert Flush(s2, -1, f1, 0) == Ok(s3);
    assert ScanFrom(s2, -1, f1, 0, 2) == Ok(s3);
    assert ScanFrom(s1, -1, f1, 0, 1) == Ok(s3);
  }

  /** With the counts carried over, "b" stores an empty span, that is nothing. */
  lemma {:induction false} LetterAfterCarriedSpace(s3: Scan) returns (s4: Scan)
    requires s3 == Scan([A], None, 1, 0, 1, 0)
    ensures s4 == s3.(dc := 2)
    ensures ScanFrom(s3, 1, B, 0, 0) == Ok(s4)
  {
    var z: nat := 0;
    s4 := s3.(dc := 2);
    assert StepAt(s3, 1, B, 0, 0) == Ok((s4, z));
    assert Flush(s4, 1, B, 0) == Ok(s4);
    assert ScanFrom(s4, 1, B, 0, 1) == Ok(s4);
  }

  /**
   * A ':' counts as content but does not take in the whitespace before it,
   * so the stored span of "a :" ends before the ':' and keeps the space.
   */
  lemma {:induction false} ColonAfterSpaceIsCut()
    ensures OfText(['a' as int, ' ' as int, ':' as int]) == Ok(Path(false, [['a' as int, ' ' as int]]))
  {
    var str: JString := ['a' as int, ' ' as int, ':' as int];
    var z: nat := 0;
    var s0 := Start([], None);
    var s1 := s0.(dc := 1);
    assert StepAt(s0, -1, str, 0, 0) == Ok((s1, z));
    var s2 := s1.(ec := 1);
    assert StepAt(s1, -1, str, 0, 1) == Ok((s2, z));
    var s3 := s2.(colon := 1, dc := 2);
    assert StepAt(s2, -1, str, 0, 2) == Ok((s3, z));
    assert str[0..2] == ['a' as int, ' ' as int];
    var none: seq<JString> := [];
    assert none + [str[0..2]] == [['a' as int, ' ' as int]];
    var s4 := s3.(list := [['a' as int, ' ' as int]]);
    assert Flush(s3, -1, str, 0) == Ok(s4);
    assert ScanFrom(s3, -1, str, 0, 3) == Ok(s4);
    assert ScanFrom(s2, -1, str, 0, 2) == Ok(s4);
    assert ScanFrom(s1, -1, str, 0, 1) == Ok(s4);
    assert ScanFrom(s0, -1, str, 0, 0) == Ok(s4);
    FlattenSingle([]);
  }

  /**
   * of("a :") is the path "a ", whose toString() "a " parses to "a": a built
   * path that of(toString()) does not give back. "a " is not a kept segment.
   */
  lemma {:induction false} ColonAfterSpaceBreaksRoundTrip()
    ensures OfText(['a' as int, ' ' as int, ':' as int]) == Ok(Path(false, [['a' as int, ' ' as int]]))
    ensures ToStringAsWritten(Path(false, [['a' as int, ' ' as int]])) == ['a' as int, ' ' as int]
    ensures OfText(['a' as int, ' ' as int]) == Ok(Path(false, [A]))
    ensures !IsKeptSegment(['a' as int, ' ' as int])
  {
    ColonAfterSpaceIsCut();
    var str: JString := ['a' as int, ' ' as int];
    var one: seq<JString> := [str];
    assert one[1..] == [];
    assert JoinTrailing(one) == str + ['/' as int];
    var z: nat := 0;
    var s0 := Start([], None);
    var s1 := s0.(dc := 1);
    assert StepAt(s0, -1, str, 0, 0) == Ok((s1, z));
    var s2 := s1.(ec := 1);
    assert StepAt(s1, -1, str, 0, 1) == Ok((s2, z));
    assert str[0..1] == A;
    var none: seq<JString> := [];
    assert none + [str[0..1]] == [A];
    var s3 := s2.(list := [A]);
    assert Flush(s2, -1, str, 0) == Ok(s3);
    assert ScanFrom(s2, -1, str, 0, 2) == Ok(s3);
    assert ScanFrom(s1, -1, str, 0, 1) == Ok(s3);
    assert ScanFrom(s0, -1, str, 0, 0) == Ok(s3);
    FlattenSingle([]);
    assert TrailingBlanks(str, 0, 2) == 1;
  }

  const Drive: JString := ['C' as int, ':' as int]

  /** "C:" is a kept segment: the colon ends it, with no whitespace before it. */
  lemma {:induction false} DriveIsKept()
    ensures IsKeptSegment(Drive)
  {
    assert Drive[0] != '.' as int;
    assert TrailingBlanks(Drive, 0, 1) == 0;
  }

  /** Scanning the fragment "C:" onto no segments stores it and leaves the colon count at 1. */
  lemma {:induction false} DriveFragment() returns (s3: Scan)
    ensures s3 == Scan([Drive], Some(false), 0, 0, 2, 1)
    ensures ScanFrom(Start([], Some(false)), 0, Drive, 0, 0) == Ok(s3)
  {
    var z: nat := 0;
    var s0 := Start([], Some(false));
    var s1 := s0.(dc := 1);
    assert StepAt(s0, 0, Drive, 0, 0) == Ok((s1, z));
    var s2 := s1.(colon := 1, dc := 2);
    assert StepAt(s1, 0, Drive, 0, 1) == Ok((s2, z));
    assert Drive[0..2] == Drive;
    var none: seq<JString> := [];
    assert none + [Drive] == [Drive];
    s3 := s2.(list := [Drive]);
    assert Flush(s2, 0, Drive, 0) == Ok(s3);
    assert ScanFrom(s2, 0, Drive, 0, 2) == Ok(s3);
    assert ScanFrom(s1, 0, Drive, 0, 1) == Ok(s3);
  }

  /**
   * of("C:/a/b/x") is C:/a/b/x, a descendant of EMPTY_STRING_PATH, yet
   * resolving its relativization onto EMPTY_STRING_PATH throws
   * IllegalArgumentException: the colon count of "C:" carries over to the
   * later fragments, and "x" is scanned with three segments stored.
   */
  lemma {:induction false} ResolveCarriedColonFails()
    ensures OfText(Drive + Slash + A + Slash + B + Slash + X) == Ok(Path(false, [Drive, A, B, X]))
    ensures IsDescendant(Path(false, [Drive, A, B, X]), Empty)
    ensures Resolve(Empty, Relative(Empty, Some(Path(false, [Drive, A, B, X])))) == Err(IllegalArgument)
  {
    var segs: seq<JString> := [Drive, A, B, X];
    DriveTextIsBuilt();
    RelativeOfDescendant(Empty, Path(false, segs));
    assert segs[0..] == segs;
    FlattenSingle(segs);
    CarriedColonScan();
  }

  /** of("C:/a/b/x") is C:/a/b/x. */
  lemma {:induction false} DriveTextIsBuilt()
    ensures OfText(Drive + Slash + A + Slash + B + Slash + X) == Ok(Path(false, [Drive, A, B, X]))
  {
    var segs: seq<JString> := [Drive, A, B, X];
    var target := Path(false, segs);
    DriveIsKept();
    assert A[0] != '.' as int && B[0] != '.' as int && X[0] != '.' as int;
    assert KeptSegments(segs, 0);
    PathStringRoundTrip(target);
    var t1, t2, t3: seq<JString> := [A, B, X], [B, X], [X];
    assert segs[1..] == t1 && t1[1..] == t2 && t2[1..] == t3;
    assert Join(t2) == B + Slash + X;
    assert Join(t1) == A + Slash + B + Slash + X;
    assert PathString(target) == Drive + Slash + A + Slash + B + Slash + X;
  }

  /** The fragments "C:", "a", "b", "x" onto no segments: "x" throws. */
  lemma {:induction false} CarriedColonScan()
    ensures ScanFragments(Start([], Some(false)), 0, [Drive, A, B, X]) == Err(IllegalArgument)
  {
    var segs: seq<JString> := [Drive, A, B, X];
    var s1 := DriveFragment();
    var c2 := ScanKeptFragment(s1, 0, A);
    var s2 := ScanFrom(s1, 0, A, 0, 0).value;
    var c3 := ScanKeptFragment(s2, 0, B);
    var s3 := ScanFrom(s2, 0, B, 0, 0).value;
    assert s3.list == [Drive, A, B] && s3.colon == 1;
    assert StepAt(s3, 0, X, 0, 0) == Err(IllegalArgument);
    assert ScanFrom(s3, 0, X, 0, 0) == Err(IllegalArgument);
    var t1, t2, t3: seq<JString> := [A, B, X], [B, X], [X];
    assert segs[1..] == t1 && t1[1..] == t2 && t2[1..] == t3;
    assert ScanFragments(s3, 0, t3) == Err(IllegalArgument);
    assert ScanFragments(s2, 0, t2) == Err(IllegalArgument);
    assert ScanFragments(s1, 0, t1) == Err(IllegalArgument);
  }
}
