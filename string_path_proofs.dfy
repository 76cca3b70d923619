// Properties of the StringPath model: what a successful build guarantees
// about the segments it stores, the protection of a root against "..",
// resolve/relativize as inverses, the string form and its round trip, and
// the case-insensitive hash.

module StringPathProofs {
  import opened JavaText
  import opened StringPath

  // ------------------------------------------------------ plain segments

  /** A unit the scanner treats as ordinary content, whatever surrounds it. */
  predicate IsPlainUnit(c: int)
  {
    !IsSeparator(c) && !IsForbidden(c) && c != ':' as int && !IsJavaWhitespace(c) && !IsISOControl(c)
  }

  /** A segment build stores exactly as written: plain units, not all dots. */
  predicate IsCleanSegment(s: JString)
  {
    (forall k | 0 <= k < |s| :: IsPlainUnit(s[k])) && exists k | 0 <= k < |s| :: s[k] != '.' as int
  }

  /**
   * Scanning a run str[ei..j) of plain units, not followed by a low
   * surrogate, only raises the content count: the whitespace counts and the
   * colon count stay 0.
   */
  lemma {:induction false} ScanPlain(st: Scan, rl: int, str: JString, si: nat, ei: nat, j: nat) returns (d: nat)
    requires si <= ei <= j <= |str|
    requires forall k | ei <= k < j :: IsPlainUnit(str[k])
    requires j < |str| ==> !IsLowSurrogate(str[j])
    requires st.ec == 0 && st.colon == 0
    ensures d >= st.dc && (ei < j ==> d > 0)
    ensures ScanFrom(st, rl, str, si, ei) == ScanFrom(st.(dc := d), rl, str, si, j)
    decreases j - ei
  {
    if ei == j {
      d := st.dc;
      assert st.(dc := st.dc) == st;
    } else {
      var extra := if IsHighSurrogate(str[ei]) then 1 else 0;
      if PairAt(str, ei) {
        assert ei + 1 < j;
      }
      var st' := st.(dc := st.dc + extra + 1);
      assert StepAt(st, rl, str, si, ei) == Ok((st', si));
      d := ScanPlain(st', rl, str, si, LastUnit(str, ei) + 1, j);
      assert st'.(dc := d) == st.(dc := d);
    }
  }

  /** A clean segment scanned as one fragment is appended to the list, and nothing else changes. */
  lemma {:induction false} ScanCleanFragment(st: Scan, rl: int, seg: JString)
    requires IsCleanSegment(seg)
    requires st.sc == 0 && st.ec == 0 && st.colon == 0
    ensures var r := ScanFrom(st, rl, seg, 0, 0);
      && r.Ok? && r.value.list == st.list + [seg] && r.value.slash == st.slash
      && r.value.sc == 0 && r.value.ec == 0 && r.value.colon == 0
  {
    var d := ScanPlain(st, rl, seg, 0, 0, |seg|);
    assert !AllDots(seg, 0, |seg|);
    assert seg[0..|seg|] == seg;
  }

  /** Clean fragments scanned one after another are appended in order. */
  lemma {:induction false} ScanCleanFragments(st: Scan, rl: int, segs: seq<JString>)
    requires forall k | 0 <= k < |segs| :: IsCleanSegment(segs[k])
    requires st.sc == 0 && st.ec == 0 && st.colon == 0
    ensures var r := ScanFragments(st, rl, segs);
      r.Ok? && r.value.list == st.list + segs && r.value.slash == st.slash
    decreases |segs|
  {
    if segs == [] {
      assert st.list + segs == st.list;
    } else {
      ScanCleanFragment(st, rl, segs[0]);
      var st' := ScanFrom(st, rl, segs[0], 0, 0).value;
      ScanCleanFragments(st', rl, segs[1..]);
      assert st.list + segs == st.list + [segs[0]] + segs[1..];
    }
  }

  // ------------------------------------------------------- kept segments

  /**
   * The whitespace units in the run of whitespace and colons that ends
   * str[b..n): the trailing whitespace the scanner leaves out of a span. A
   * colon does not end the run, because the colon case of the switch counts
   * content without taking in the whitespace before it.
   */
  function TrailingBlanks(str: JString, b: nat, n: nat): (r: nat)
    requires b <= n <= |str|
    ensures r <= n - b
    ensures n > b && !IsJavaWhitespace(str[n - 1]) && str[n - 1] != ':' as int ==> r == 0
    decreases n - b
  {
    if n == b then 0
    else if IsJavaWhitespace(str[n - 1]) then TrailingBlanks(str, b, n - 1) + 1
    else if str[n - 1] == ':' as int then TrailingBlanks(str, b, n - 1)
    else 0
  }

  /** A unit of str[b..n) with a unit after it that is neither whitespace nor a colon. */
  predicate ContentAfter(str: JString, k: nat, n: nat)
    requires n <= |str|
  {
    exists m | k < m < n :: !IsJavaWhitespace(str[m]) && str[m] != ':' as int
  }

  /**
   * No whitespace is left out of str[b..n) exactly when every whitespace
   * unit in it is followed by a unit that is neither whitespace nor a colon.
   */
  lemma {:induction false} TrailingBlanksZero(str: JString, b: nat, n: nat)
    requires b <= n <= |str|
    ensures TrailingBlanks(str, b, n) == 0 <==>
      forall k | b <= k < n && IsJavaWhitespace(str[k]) :: ContentAfter(str, k, n)
    decreases n - b
  {
    if n > b {
      var u := str[n - 1];
      TrailingBlanksZero(str, b, n - 1);
      if !IsJavaWhitespace(u) && u != ':' as int {
        forall k | b <= k < n && IsJavaWhitespace(str[k])
          ensures ContentAfter(str, k, n)
        {
          assert k < n - 1;
        }
      } else if IsJavaWhitespace(u) {
        assert !ContentAfter(str, n - 1, n);
      } else {
        forall k | b <= k < n - 1
          ensures ContentAfter(str, k, n) <==> ContentAfter(str, k, n - 1)
        {
          if ContentAfter(str, k, n) {
            var m :| k < m < n && !IsJavaWhitespace(str[m]) && str[m] != ':' as int;
            assert m < n - 1;
          }
        }
      }
    }
  }

  /** TrailingBlanks of a slice equals TrailingBlanks of the same units in place. */
  lemma {:induction false} TrailingBlanksAt(str: JString, b: nat, seg: JString, n: nat)
    requires b + |seg| <= |str| && str[b..b + |seg|] == seg && n <= |seg|
    ensures TrailingBlanks(str, b, b + n) == TrailingBlanks(seg, 0, n)
    decreases n
  {
    if n > 0 {
      assert str[b + n - 1] == seg[n - 1];
      TrailingBlanksAt(str, b, seg, n - 1);
    }
  }

  /**
   * A segment the scanner stores exactly as written when it starts a span:
   * a well-formed stored segment whose first unit is not whitespace and
   * whose trailing run of whitespace and colons holds no whitespace. Inner
   * whitespace and colons are kept ("My Documents", "C:", "a:b"); " a",
   * "a " and "a :" are not ("a :" is stored as "a ").
   */
  predicate IsKeptSegment(s: JString)
  {
    |s| > 0 && IsStoredSegment(s) && !IsJavaWhitespace(s[0]) && TrailingBlanks(s, 0, |s|) == 0
  }

  /** A clean segment is kept. */
  lemma {:induction false} CleanIsKept(s: JString)
    requires IsCleanSegment(s)
    ensures IsKeptSegment(s)
  {
    var k :| 0 <= k < |s| && s[k] != '.' as int;
    assert IsPlainUnit(s[|s| - 1]);
  }

  /**
   * Segments that build keeps when they are scanned in one text from a
   * fresh span each, the first of them at list size `offset`: every one is
   * kept, and one holding a ':' lands where a colon is accepted.
   */
  predicate KeptSegments(segs: seq<JString>, offset: nat)
  {
    forall k | 0 <= k < |segs| :: IsKeptSegment(segs[k]) && (':' as int in segs[k] ==> offset + k <= ColonLimit)
  }

  /**
   * Scanning str[ei..j), permitted non-separator units, within a span with no
   * leading whitespace: the list and flag are untouched, the pending
   * whitespace count becomes TrailingBlanks of the span, the content count
   * grows, and the colon count grows only by colons (and stays 0 above the
   * colon limit).
   */
  lemma {:induction false} ScanSpan(st: Scan, rl: int, str: JString, si: nat, ei: nat, j: nat) returns (d: nat, c: nat)
    requires si <= ei <= j <= |str|
    requires forall k | ei <= k < j :: IsPermittedUnit(str[k]) && !IsSeparator(str[k])
    requires |st.list| > ColonLimit ==> st.colon == 0 && forall k | ei <= k < j :: str[k] != ':' as int
    requires j < |str| ==> !IsLowSurrogate(str[j])
    requires st.sc == 0 && st.ec == TrailingBlanks(str, si, ei)
    requires st.dc == 0 ==> ei == si && (ei < j ==> !IsJavaWhitespace(str[ei]))
    ensures d >= st.dc && (ei < j ==> d > 0)
    ensures (forall k | ei <= k < j :: str[k] != ':' as int) ==> c == st.colon
    ensures |st.list| > ColonLimit ==> c == 0
    ensures ScanFrom(st, rl, str, si, ei)
      == ScanFrom(st.(ec := TrailingBlanks(str, si, j), dc := d, colon := c), rl, str, si, j)
    decreases j - ei
  {
    if ei == j {
      d, c := st.dc, st.colon;
      assert st.(ec := TrailingBlanks(str, si, j), dc := d, colon := c) == st;
    } else {
      var st' := SpanStep(st, rl, str, si, ei, j);
      d, c := ScanSpan(st', rl, str, si, LastUnit(str, ei) + 1, j);
      assert st'.(ec := TrailingBlanks(str, si, j), dc := d, colon := c)
        == st.(ec := TrailingBlanks(str, si, j), dc := d, colon := c);
    }
  }

  /** One step of ScanSpan: the state after the unit (or pair) at `ei`. */
  lemma {:induction false} SpanStep(st: Scan, rl: int, str: JString, si: nat, ei: nat, j: nat) returns (st': Scan)
    requires si <= ei < j <= |str|
    requires forall k | ei <= k < j :: IsPermittedUnit(str[k]) && !IsSeparator(str[k])
    requires |st.list| > ColonLimit ==> st.colon == 0 && forall k | ei <= k < j :: str[k] != ':' as int
    requires j < |str| ==> !IsLowSurrogate(str[j])
    requires st.sc == 0 && st.ec == TrailingBlanks(str, si, ei)
    requires st.dc == 0 ==> ei == si && !IsJavaWhitespace(str[ei])
    ensures LastUnit(str, ei) < j
    ensures StepAt(st, rl, str, si, ei) == Ok((st', si))
    ensures st'.list == st.list && st'.slash == st.slash && st'.sc == 0
    ensures st'.ec == TrailingBlanks(str, si, LastUnit(str, ei) + 1)
    ensures st'.dc > 0 && st'.dc >= st.dc
    ensures st'.colon == (if str[ei] == ':' as int then st.colon + 1 else st.colon)
  {
    var cp := ScanCodePoint(str, ei);
    if PairAt(str, ei) {
      assert ei + 1 < j;
      assert !IsJavaWhitespace(str[ei + 1]) && str[ei + 1] != ':' as int;
      st' := st.(dc := st.dc + 1 + st.ec + 1, ec := 0);
    } else if cp == ':' as int {
      st' := st.(colon := st.colon + 1, dc := st.dc + 1);
    } else if IsJavaWhitespace(cp) {
      st' := st.(ec := st.ec + 1);
    } else {
      var extra := if IsHighSurrogate(str[ei]) then 1 else 0;
      st' := st.(dc := st.dc + extra + st.ec + 1, ec := 0);
    }
  }

  /** Where a kept segment sits in a text: its units, as ScanSpan needs them. */
  lemma {:induction false} KeptUnits(str: JString, i: nat, seg: JString, n: nat)
    requires IsKeptSegment(seg) && i + |seg| <= |str| && str[i..i + |seg|] == seg
    requires n > ColonLimit ==> ':' as int !in seg
    ensures forall k | i <= k < i + |seg| :: IsPermittedUnit(str[k]) && !IsSeparator(str[k])
    ensures n > ColonLimit ==> forall k | i <= k < i + |seg| :: str[k] != ':' as int
    ensures !IsJavaWhitespace(str[i]) && TrailingBlanks(str, i, i + |seg|) == 0
    ensures !AllDots(str, i, i + |seg|)
  {
    forall k | i <= k < i + |seg|
      ensures str[k] == seg[k - i]
    {
    }
    TrailingBlanksAt(str, i, seg, |seg|);
    var x :| 0 <= x < |seg| && seg[x] != '.' as int;
    assert str[i + x] == seg[x];
  }

  /**
   * A kept segment scanned as one fragment, with no pending whitespace
   * before it, is appended to the list; the content count is then non-zero
   * and the colon count has grown only by the segment's colons.
   */
  lemma {:induction false} ScanKeptFragment(st: Scan, rl: int, seg: JString) returns (c: nat)
    requires IsKeptSegment(seg)
    requires st.sc == 0 && st.ec == 0
    requires |st.list| > ColonLimit ==> st.colon == 0 && ':' as int !in seg
    ensures var r := ScanFrom(st, rl, seg, 0, 0);
      && r.Ok? && r.value.list == st.list + [seg] && r.value.slash == st.slash
      && r.value.sc == 0 && r.value.ec == 0 && r.value.dc != 0 && r.value.colon == c
    ensures ':' as int !in seg ==> c == st.colon
    ensures |st.list| > ColonLimit ==> c == 0
  {
    assert seg[0..|seg|] == seg;
    KeptUnits(seg, 0, seg, |st.list|);
    var d;
    d, c := ScanSpan(st, rl, seg, 0, 0, |seg|);
    if ':' as int !in seg {
      assert forall k | 0 <= k < |seg| :: seg[k] != ':' as int;
    }
  }

  /**
   * The colons of the fragments still to come fit: when a colon is pending
   * or some fragment holds one, every fragment lands within the colon limit.
   */
  predicate FragmentColonsFit(n: nat, colon: nat, segs: seq<JString>)
  {
    segs == [] || ((colon != 0 || exists k | 0 <= k < |segs| :: ':' as int in segs[k]) ==> n + |segs| <= ColonLimit + 1)
  }

  /** Kept fragments scanned one after another, the counters carried over, are appended in order. */
  lemma {:induction false} ScanKeptFragments(st: Scan, rl: int, segs: seq<JString>)
    requires forall k | 0 <= k < |segs| :: IsKeptSegment(segs[k])
    requires st.sc == 0 && st.ec == 0
    requires FragmentColonsFit(|st.list|, st.colon, segs)
    ensures var r := ScanFragments(st, rl, segs);
      r.Ok? && r.value.list == st.list + segs && r.value.slash == st.slash
    decreases |segs|
  {
    if segs == [] {
      assert st.list + segs == st.list;
    } else {
      if |st.list| > ColonLimit {
        assert ':' as int !in segs[0];
      }
      var c := ScanKeptFragment(st, rl, segs[0]);
      var st' := ScanFrom(st, rl, segs[0], 0, 0).value;
      assert FragmentColonsFit(|st'.list|, st'.colon, segs[1..]) by {
        if segs[1..] != [] && exists k | 0 <= k < |segs[1..]| :: ':' as int in segs[1..][k] {
          var k :| 0 <= k < |segs[1..]| && ':' as int in segs[1..][k];
          assert ':' as int in segs[k + 1];
        }
      }
      ScanKeptFragments(st', rl, segs[1..]);
      assert st.list + segs == st.list + [segs[0]] + segs[1..];
    }
  }

  // ------------------------------------------------- relativize and resolve

  /** `q` lies under `p` (or is `p`): `p`'s segments are a prefix of `q`'s. */
  predicate IsDescendant(q: Path, p: Path)
  {
    |p.segments| <= |q.segments| && q.segments[..|p.segments|] == p.segments
  }

  /** The common prefix of a list and one of its prefixes is that prefix. */
  lemma {:induction false} CommonPrefixOfPrefix(a: seq<JString>, b: seq<JString>)
    requires |b| <= |a| && a[..|b|] == b
    ensures CommonPrefixLength(a, b) == |b|
  {
    if b != [] {
      assert a[0] == a[..|b|][0];
      assert a[1..][..|b| - 1] == b[1..];
      CommonPrefixOfPrefix(a[1..], b[1..]);
    }
  }

  /**
   * relativize always yields a relative path made of one ".." per segment
   * of `p` past the common prefix, followed by the rest of `other`: the
   * startsWith shortcut is the case where the common prefix is all of `p`.
   */
  lemma {:induction false} RelativeShape(p: Path, other: Path)
    ensures var r := Relative(p, Some(other));
      var k := CommonPrefixLength(other.segments, p.segments);
      !r.startsWithSlash && r.segments == Repeat(DotDot(), |p.segments| - k) + other.segments[k..]
  {
    if HasPrefix(other, Some(p)) {
      CommonPrefixOfPrefix(other.segments, p.segments);
      assert Repeat(DotDot(), 0) == [];
    }
  }

  /** Relative to an ancestor, a path is its own remaining segments. */
  lemma {:induction false} RelativeOfDescendant(p: Path, q: Path)
    requires IsDescendant(q, p)
    ensures Relative(p, Some(q)) == Path(false, q.segments[|p.segments|..])
  {
    RelativeShape(p, q);
    CommonPrefixOfPrefix(q.segments, p.segments);
    assert Repeat(DotDot(), 0) == [];
  }

  /**
   * The segments of `target` past the first `n` can be rescanned as
   * fragments onto n segments: each is kept, and since the colon count
   * carries over from one fragment to the next, a colon among them needs
   * the whole target within the colon limit.
   */
  predicate ResolvableTail(target: Path, n: nat)
  {
    && (forall k | n <= k < |target.segments| :: IsKeptSegment(target.segments[k]))
    && ((exists k | n <= k < |target.segments| :: ':' as int in target.segments[k]) ==> |target.segments| <= ColonLimit + 1)
  }

  /**
   * resolve undoes relativize for a descendant with the same flag whose
   * segments below `base` are resolvable (kept, inner whitespace and colons
   * allowed).
   */
  lemma {:induction false} ResolveRelativeRoundTrip(base: Path, target: Path)
    requires IsDescendant(target, base) && target.startsWithSlash == base.startsWithSlash
    requires ResolvableTail(target, |base.segments|)
    ensures Resolve(base, Relative(base, Some(target))) == Ok(target)
  {
    RelativeOfDescendant(base, target);
    var n := |base.segments|;
    var rest := target.segments[n..];
    FlattenSingle(rest);
    ResolvableTailFits(target, n);
    ScanKeptFragments(Start(base.segments, Some(base.startsWithSlash)), n, rest);
    assert base.segments + rest == target.segments;
  }

  /** The segments past `n` of a resolvable tail meet the requirements of ScanKeptFragments. */
  lemma {:induction false} ResolvableTailFits(target: Path, n: nat)
    requires n <= |target.segments| && ResolvableTail(target, n)
    ensures var rest := target.segments[n..];
      (forall k | 0 <= k < |rest| :: IsKeptSegment(rest[k])) && FragmentColonsFit(n, 0, rest)
  {
    var rest := target.segments[n..];
    forall k | 0 <= k < |rest|
      ensures rest[k] == target.segments[n + k]
    {
    }
    if rest != [] && exists k | 0 <= k < |rest| :: ':' as int in rest[k] {
      var k :| 0 <= k < |rest| && ':' as int in rest[k];
      assert ':' as int in target.segments[n + k];
    }
  }

  // ------------------------------------------------------- root protection

  /** One step of the scanner never changes the protected segments or a fixed flag. */
  lemma {:induction false} StepKeepsRoot(st: Scan, rl: int, str: JString, si: nat, ei: nat)
    requires si <= ei < |str|
    requires 0 <= rl <= |st.list|
    ensures var r := StepAt(st, rl, str, si, ei);
      r.Ok? ==> KeepsRoot(st, rl, r.value.0)
  {
  }

  /** `st'` keeps the first `rl` segments of `st`, and its flag once fixed. */
  predicate KeepsRoot(st: Scan, rl: int, st': Scan)
    requires 0 <= rl <= |st.list|
  {
    rl <= |st'.list| && st'.list[..rl] == st.list[..rl] && (st.slash.Some? ==> st'.slash == st.slash)
  }

  lemma {:induction false} ScanFromKeepsRoot(st: Scan, rl: int, str: JString, si: nat, ei: nat)
    requires si <= ei <= |str|
    requires 0 <= rl <= |st.list|
    ensures var r := ScanFrom(st, rl, str, si, ei);
      r.Ok? ==> KeepsRoot(st, rl, r.value)
    decreases |str| - ei
  {
    if ei < |str| {
      var step := StepAt(st, rl, str, si, ei);
      if step.Ok? {
        StepKeepsRoot(st, rl, str, si, ei);
        var st' := step.value.0;
        ScanFromKeepsRoot(st', rl, str, step.value.1, LastUnit(str, ei) + 1);
        var r := ScanFrom(st', rl, str, step.value.1, LastUnit(str, ei) + 1);
        if r.Ok? {
          assert r.value.list[..rl] == st'.list[..rl];
        }
      }
    }
  }

  lemma {:induction false} ScanFragmentsKeepsRoot(st: Scan, rl: int, frags: seq<JString>)
    requires 0 <= rl <= |st.list|
    ensures var r := ScanFragments(st, rl, frags);
      r.Ok? ==> KeepsRoot(st, rl, r.value)
    decreases |frags|
  {
    if frags != [] {
      var first := ScanFrom(st, rl, frags[0], 0, 0);
      ScanFromKeepsRoot(st, rl, frags[0], 0, 0);
      if first.Ok? {
        ScanFragmentsKeepsRoot(first.value, rl, frags[1..]);
      }
    }
  }

  /**
   * Building onto a path root keeps all of the root's segments in front and
   * the root's flag: no ".." in the fragments can climb above the root.
   */
  lemma {:induction false} BuildOnPathKeepsRoot(p: Path, pathsList: seq<seq<JString>>)
    ensures var r := Build(PathRoot(p), pathsList);
      r.Ok? ==> IsDescendant(r.value, p) && r.value.startsWithSlash == p.startsWithSlash
  {
    var st := Start(p.segments, Some(p.startsWithSlash));
    ScanFragmentsKeepsRoot(st, |p.segments|, Flatten(pathsList));
    assert p.segments[..|p.segments|] == p.segments;
  }

  /** Building after a text root keeps the segments the root text produced in front. */
  lemma {:induction false} BuildOnTextKeepsRoot(t: JString, pathsList: seq<seq<JString>>)
    ensures var r := Build(TextRoot(t), pathsList);
      r.Ok? ==> OfText(t).Ok? && IsDescendant(r.value, OfText(t).value)
  {
    var root := ScanFrom(Start([], None), -1, t, 0, 0);
    if root.Ok? {
      FlattenSingle([]);
      var st := root.value;
      ScanFragmentsKeepsRoot(st, |st.list|, Flatten(pathsList));
      assert st.list[..|st.list|] == st.list;
    }
  }

  /** resolve of a relative path, and concat of any path, stay under `p` with its flag. */
  lemma {:induction false} ResolveAndConcatKeepBase(p: Path, x: Path)
    ensures !x.startsWithSlash && Resolve(p, x).Ok? ==>
      IsDescendant(Resolve(p, x).value, p) && Resolve(p, x).value.startsWithSlash == p.startsWithSlash
    ensures Concat(p, x).Ok? ==>
      IsDescendant(Concat(p, x).value, p) && Concat(p, x).value.startsWithSlash == p.startsWithSlash
  {
    BuildOnPathKeepsRoot(p, [x.segments]);
  }

  /**
   * resolve(relativize(target)) gives `target` back exactly when `target`
   * lies under `base`, for targets with the same flag whose segments past
   * |base| are resolvable: a sibling branch cannot be reached because the
   * ".." segments stop at `base`.
   */
  lemma {:induction false} ResolveRelativeExactlyForDescendants(base: Path, target: Path)
    requires target.startsWithSlash == base.startsWithSlash
    requires ResolvableTail(target, |base.segments|)
    ensures Resolve(base, Relative(base, Some(target))) == Ok(target) <==> IsDescendant(target, base)
  {
    if IsDescendant(target, base) {
      ResolveRelativeRoundTrip(base, target);
    } else {
      RelativeShape(base, target);
      ResolveAndConcatKeepBase(base, Relative(base, Some(target)));
    }
  }

  /** A "." fragment stores nothing. */
  lemma {:induction false} ScanDotFragment(st: Scan, rl: int)
    requires st.sc == 0 && st.ec == 0 && st.colon == 0
    ensures var r := ScanFrom(st, rl, ['.' as int], 0, 0);
      && r.Ok? && r.value.list == st.list && r.value.slash == st.slash
      && r.value.sc == 0 && r.value.ec == 0 && r.value.colon == 0
  {
    var d := ScanPlain(st, rl, ['.' as int], 0, 0, 1);
  }

  /**
   * A ".." fragment removes the last segment when the list is above the root
   * limit, and is dropped at the root limit.
   */
  lemma {:induction false} ScanDotDotFragment(st: Scan, rl: int)
    requires st.sc == 0 && st.ec == 0 && st.colon == 0 && (|st.list| > 0 || rl >= 0)
    ensures var r := ScanFrom(st, rl, DotDot(), 0, 0);
      && r.Ok? && r.value.slash == st.slash
      && r.value.list == (if |st.list| > rl then st.list[..|st.list| - 1] else st.list)
      && r.value.sc == 0 && r.value.ec == 0 && r.value.colon == 0
  {
    var d := ScanPlain(st, rl, DotDot(), 0, 0, 2);
  }

  // ------------------------------------------------------- span counters

  /**
   * The counters of one text scanned from a fresh state, with the span
   * started at si and the next unit at ei: the sc leading units are
   * whitespace; before any content every unit read is leading whitespace
   * and none is trailing; once there is content, the first unit after the
   * leading whitespace is not whitespace; and every colon counts as content.
   */
  predicate SpanCounters(st: Scan, str: JString, si: nat, ei: nat)
  {
    si + st.sc <= ei <= |str|
    && (forall k | si <= k < si + st.sc :: IsJavaWhitespace(str[k]))
    && (st.dc == 0 ==> st.ec == 0 && si + st.sc == ei)
    && (st.dc != 0 ==> si + st.sc < ei && !IsJavaWhitespace(str[si + st.sc]))
    && st.colon <= st.dc
  }

  /** A fresh scanner at any index keeps the counter rules. */
  lemma {:induction false} StartCounters(list: seq<JString>, slash: Option<bool>, str: JString, i: nat)
    requires i <= |str|
    ensures SpanCounters(Start(list, slash), str, i, i)
  {
  }

  /** Every successful step of the scanner keeps the counter rules. */
  lemma {:induction false} StepKeepsCounters(st: Scan, rl: int, str: JString, si: nat, ei: nat)
    requires si <= ei < |str|
    requires SpanCounters(st, str, si, ei)
    ensures var r := StepAt(st, rl, str, si, ei);
      r.Ok? ==> SpanCounters(r.value.0, str, r.value.1, LastUnit(str, ei) + 1)
  {
    if PairAt(str, ei) {
      assert !IsJavaWhitespace(str[ei]);
    }
  }

  // ----------------------------------------------------- stored segments

  /** A unit a successful build accepts: no forbidden character, no control character but whitespace. */
  predicate IsPermittedUnit(c: int)
  {
    !IsForbidden(c) && (IsISOControl(c) ==> IsJavaWhitespace(c))
  }

  /**
   * A segment build can store: non-empty, made of permitted units other than
   * separators, and not made of dots only (so never "." or "..").
   */
  predicate IsStoredSegment(s: JString)
  {
    (forall k | 0 <= k < |s| :: IsPermittedUnit(s[k]) && !IsSeparator(s[k]))
    && exists k | 0 <= k < |s| :: s[k] != '.' as int
  }

  predicate AllStored(list: seq<JString>)
  {
    forall k | 0 <= k < |list| :: IsStoredSegment(list[k])
  }

  /** Storing a span of permitted non-separator units keeps every stored segment well formed. */
  lemma {:induction false} ApplySpanStores(list: seq<JString>, rl: int, str: JString, s: int, e: int)
    requires 0 <= s && e <= |str|
    requires forall k | s <= k < e :: IsPermittedUnit(str[k]) && !IsSeparator(str[k])
    requires AllStored(list)
    ensures ApplySpan(list, rl, str, s, e).Ok? ==> AllStored(ApplySpan(list, rl, str, s, e).value)
  {
    var r := ApplySpan(list, rl, str, s, e);
    if r.Ok? && s < e && !AllDots(str, s, e) {
      var seg := str[s..e];
      var i :| s <= i < e && str[i] != '.' as int;
      assert seg[i - s] != '.' as int;
      assert r.value == list + [seg];
    }
  }

  lemma {:induction false} StepStores(st: Scan, rl: int, str: JString, si: nat, ei: nat)
    requires si <= ei < |str|
    requires forall k | si <= k < ei :: IsPermittedUnit(str[k]) && !IsSeparator(str[k])
    requires AllStored(st.list)
    ensures var r := StepAt(st, rl, str, si, ei);
      r.Ok? ==>
        && AllStored(r.value.0.list)
        && (forall k | ei <= k <= LastUnit(str, ei) :: IsPermittedUnit(str[k]))
        && (forall k | r.value.1 <= k <= LastUnit(str, ei) :: !IsSeparator(str[k]))
        && (r.value.1 == si || r.value.1 == LastUnit(str, ei) + 1)
  {
    var cp := ScanCodePoint(str, ei);
    if IsSeparator(cp) && st.dc != 0 {
      ApplySpanStores(st.list, rl, str, si + st.sc, ei - st.ec);
    }
  }

  /**
   * A successful scan of `str` from `ei` on meets no forbidden unit and no
   * control unit other than whitespace, and stores only well-formed segments.
   */
  lemma {:induction false} ScanFromStores(st: Scan, rl: int, str: JString, si: nat, ei: nat)
    requires si <= ei <= |str|
    requires forall k | si <= k < ei :: IsPermittedUnit(str[k]) && !IsSeparator(str[k])
    requires AllStored(st.list)
    ensures var r := ScanFrom(st, rl, str, si, ei);
      r.Ok? ==> AllStored(r.value.list) && forall k | ei <= k < |str| :: IsPermittedUnit(str[k])
    decreases |str| - ei
  {
    if ei == |str| {
      if st.dc != 0 {
        ApplySpanStores(st.list, rl, str, si + st.sc, |str| - st.ec);
      }
    } else {
      var step := StepAt(st, rl, str, si, ei);
      if step.Ok? {
        StepStores(st, rl, str, si, ei);
        var next := LastUnit(str, ei) + 1;
        ScanFromStores(step.value.0, rl, str, step.value.1, next);
      }
    }
  }

  lemma {:induction false} ScanFragmentsStores(st: Scan, rl: int, frags: seq<JString>)
    requires AllStored(st.list)
    ensures var r := ScanFragments(st, rl, frags);
      r.Ok? ==> (
        && AllStored(r.value.list)
        && forall i, k | 0 <= i < |frags| && 0 <= k < |frags[i]| :: IsPermittedUnit(frags[i][k]))
    decreases |frags|
  {
    if frags != [] {
      var first := ScanFrom(st, rl, frags[0], 0, 0);
      ScanFromStores(st, rl, frags[0], 0, 0);
      if first.Ok? {
        ScanFragmentsStores(first.value, rl, frags[1..]);
        var r := ScanFragments(st, rl, frags);
        if r.Ok? {
          forall i, k | 0 <= i < |frags| && 0 <= k < |frags[i]|
            ensures IsPermittedUnit(frags[i][k])
          {
            if i > 0 {
              assert frags[i] == frags[1..][i - 1];
            }
          }
        }
      }
    }
  }

  /**
   * A path built from text (no root, or a text root) holds only well-formed
   * segments, and every unit of the root text and of the fragments was
   * permitted; with a path root this holds when the root's segments are well formed.
   */
  lemma {:induction false} BuildStoresWellFormed(root: Root, pathsList: seq<seq<JString>>)
    requires root.PathRoot? ==> AllStored(root.path.segments)
    ensures var r := Build(root, pathsList);
      r.Ok? ==> (
        && AllStored(r.value.segments)
        && (root.TextRoot? ==> forall k | 0 <= k < |root.text| :: IsPermittedUnit(root.text[k]))
        && forall i, k | 0 <= i < |Flatten(pathsList)| && 0 <= k < |Flatten(pathsList)[i]| ::
             IsPermittedUnit(Flatten(pathsList)[i][k]))
  {
    var frags := Flatten(pathsList);
    match root
    case UnsupportedRoot =>
    case NoRoot => ScanFragmentsStores(Start([], None), 0, frags);
    case PathRoot(p) =>
      ScanFragmentsStores(Start(p.segments, Some(p.startsWithSlash)), |p.segments|, frags);
    case TextRoot(t) =>
      var first := ScanFrom(Start([], None), -1, t, 0, 0);
      ScanFromStores(Start([], None), -1, t, 0, 0);
      if first.Ok? {
        ScanFragmentsStores(first.value, |first.value.list|, frags);
      }
  }

  // ---------------------------------------------------- the string form

  /** The text after a prefix `pre`: every unit of str[i..i+|s|) is the matching unit of `s`. */
  lemma {:induction false} ConcatAt(pre: JString, s: JString, post: JString, k: int)
    requires 0 <= k < |s|
    ensures (pre + s + post)[|pre| + k] == s[k]
  {
  }

  /** The last kept segment of a text, from position `i` on, is appended when the text ends. */
  lemma {:induction false} ScanLastKept(st: Scan, rl: int, str: JString, i: nat, seg: JString)
    requires st == Start(st.list, st.slash)
    requires IsKeptSegment(seg) && (':' as int in seg ==> |st.list| <= ColonLimit)
    requires i + |seg| == |str| && str[i..] == seg
    ensures var r := ScanFrom(st, rl, str, i, i);
      r.Ok? && r.value.list == st.list + [seg] && r.value.slash == st.slash
  {
    assert str[i..i + |seg|] == seg;
    KeptUnits(str, i, seg, |st.list|);
    var d, c := ScanSpan(st, rl, str, i, i, |str|);
    assert str[i..|str|] == seg;
  }

  /**
   * A kept segment at position `i` followed by a separator is appended at the
   * separator, and the flag, when not yet fixed, becomes relative; a fresh span
   * starts after it.
   */
  lemma {:induction false} ScanKeptThenSeparator(st: Scan, rl: int, str: JString, i: nat, seg: JString)
    requires st == Start(st.list, st.slash)
    requires IsKeptSegment(seg) && (':' as int in seg ==> |st.list| <= ColonLimit)
    requires i + |seg| < |str| && str[i..i + |seg|] == seg && IsSeparator(str[i + |seg|])
    ensures var slash := if st.slash == None then Some(false) else st.slash;
      var next := i + |seg| + 1;
      ScanFrom(st, rl, str, i, i) == ScanFrom(Start(st.list + [seg], slash), rl, str, next, next)
  {
    var j := i + |seg|;
    KeptUnits(str, i, seg, |st.list|);
    var d, c := ScanSpan(st, rl, str, i, i, j);
    SeparatorStoresSpan(st.(ec := 0, dc := d, colon := c), rl, str, i, j);
  }

  /** A separator after a span with content and no whitespace around it stores the span. */
  lemma {:induction false} SeparatorStoresSpan(st: Scan, rl: int, str: JString, si: nat, j: nat)
    requires si < j < |str| && IsSeparator(str[j]) && !AllDots(str, si, j)
    requires st.sc == 0 && st.ec == 0 && st.dc != 0
    ensures var slash := if st.slash == None then Some(false) else st.slash;
      ScanFrom(st, rl, str, si, j) == ScanFrom(Start(st.list + [str[si..j]], slash), rl, str, j + 1, j + 1)
  {
    var slash := if st.slash == None then Some(false) else st.slash;
    var next: nat := j + 1;
    assert !PairAt(str, j);
    assert ScanCodePoint(str, j) == str[j] && LastUnit(str, j) == j;
    assert ApplySpan(st.list, rl, str, si, j) == Ok(st.list + [str[si..j]]);
    assert StepAt(st, rl, str, si, j) == Ok((Start(st.list + [str[si..j]], slash), next));
  }

  /** What ScanJoined establishes about the scan after `pre`. */
  predicate JoinedScanned(st: Scan, rl: int, str: JString, pre: JString, segs: seq<JString>)
    requires |pre| <= |str|
  {
    var r := ScanFrom(st, rl, str, |pre|, |pre|);
    && r.Ok? && r.value.list == st.list + segs
    && r.value.slash == (if |segs| >= 2 && st.slash == None then Some(false) else st.slash)
  }

  /**
   * Scanning kept segments joined by '/', starting right after `pre` with a
   * fresh span, appends the segments in order; the flag, when not yet fixed,
   * is fixed to relative at the first separator.
   */
  lemma {:induction false} ScanJoined(st: Scan, rl: int, str: JString, pre: JString, segs: seq<JString>)
    requires str == pre + Join(segs)
    requires st == Start(st.list, st.slash)
    requires KeptSegments(segs, |st.list|)
    ensures JoinedScanned(st, rl, str, pre, segs)
    decreases |segs|
  {
    if segs == [] {
      assert str == pre;
      assert st.list + segs == st.list;
    } else if |segs| == 1 {
      assert str == pre + segs[0];
      assert str[|pre|..] == segs[0];
      ScanLastKept(st, rl, str, |pre|, segs[0]);
    } else {
      ScanJoinedStep(st, rl, str, pre, segs);
    }
  }

  /** The step of ScanJoined past the first segment and its separator. */
  lemma {:induction false} ScanJoinedStep(st: Scan, rl: int, str: JString, pre: JString, segs: seq<JString>)
    requires |segs| >= 2 && str == pre + Join(segs)
    requires st == Start(st.list, st.slash)
    requires KeptSegments(segs, |st.list|)
    ensures JoinedScanned(st, rl, str, pre, segs)
    decreases |segs|, 0
  {
    var pre' := JoinedHead(str, pre, segs);
    ScanKeptThenSeparator(st, rl, str, |pre|, segs[0]);
    var slash' := if st.slash == None then Some(false) else st.slash;
    var st' := Start(st.list + [segs[0]], slash');
    assert KeptSegments(segs[1..], |st'.list|) by {
      forall k | 0 <= k < |segs[1..]|
        ensures segs[1..][k] == segs[k + 1]
      {
      }
    }
    ScanJoined(st', rl, str, pre', segs[1..]);
    assert JoinedScanned(st', rl, str, pre', segs[1..]);
    assert st.list + segs == st'.list + segs[1..];
  }

  /** Where the first segment of a joined text and the '/' after it sit. */
  lemma {:induction false} JoinedHead(str: JString, pre: JString, segs: seq<JString>) returns (pre': JString)
    requires |segs| >= 2 && str == pre + Join(segs)
    ensures |pre| + |segs[0]| < |str| && str[|pre|..|pre| + |segs[0]|] == segs[0]
    ensures str[|pre| + |segs[0]|] == '/' as int
    ensures |pre'| == |pre| + |segs[0]| + 1 && str == pre' + Join(segs[1..])
  {
    var rest := Join(segs[1..]);
    assert Join(segs) == segs[0] + ['/' as int] + rest;
    pre' := pre + segs[0] + ['/' as int];
    assert str == pre' + rest;
    assert str[|pre|..|pre| + |segs[0]|] == segs[0];
  }

  /**
   * The documented string form of a path parses back to the path, for
   * kept segments (inner whitespace and colons included) with a colon only
   * among the first three.
   */
  lemma {:induction false} PathStringRoundTrip(p: Path)
    requires KeptSegments(p.segments, 0)
    ensures OfText(PathString(p)) == Ok(p)
  {
    var str := PathString(p);
    FlattenSingle([]);
    if p.startsWithSlash {
      var st := Start([], Some(true));
      var one: nat := 1;
      assert StepAt(Start([], None), -1, str, 0, 0) == Ok((st, one));
      ScanJoined(st, -1, str, ['/' as int], p.segments);
    } else {
      assert str == [] + Join(p.segments);
      ScanJoined(Start([], None), -1, str, [], p.segments);
    }
    assert [] + p.segments == p.segments;
  }

  lemma {:induction false} JoinTrailingIsJoin(segs: seq<JString>)
    requires segs != []
    ensures JoinTrailing(segs) == Join(segs) + ['/' as int]
    decreases |segs|
  {
    if |segs| > 1 {
      JoinTrailingIsJoin(segs[1..]);
    }
  }

  /** toString() agrees with the documented string form on every path but ROOT_STRING_PATH, where it returns "". */
  lemma {:induction false} ToStringIsPathString(p: Path)
    ensures p != RootPath ==> ToStringAsWritten(p) == PathString(p)
    ensures ToStringAsWritten(RootPath) == [] && PathString(RootPath) == ['/' as int]
  {
    if p.segments != [] {
      JoinTrailingIsJoin(p.segments);
      var head: JString := if p.startsWithSlash then ['/' as int] else [];
      var sb := head + JoinTrailing(p.segments);
      assert sb == head + Join(p.segments) + ['/' as int];
      assert sb[..|sb| - 1] == head + Join(p.segments);
    }
  }

  /** ROOT_STRING_PATH.toString() parses back to EMPTY_STRING_PATH, which is not ROOT_STRING_PATH. */
  lemma {:induction false} RootToStringLosesTheRoot()
    ensures ToStringAsWritten(RootPath) == []
    ensures OfText(ToStringAsWritten(RootPath)) == Ok(Empty)
    ensures Empty != RootPath
  {
    FlattenSingle([]);
  }

  /** toString() then of(String) gives back every path with kept segments except ROOT_STRING_PATH. */
  lemma {:induction false} ToStringRoundTrip(p: Path)
    requires KeptSegments(p.segments, 0)
    ensures OfText(ToStringAsWritten(p)) == Ok(p) <==> p != RootPath
  {
    ToStringIsPathString(p);
    if p != RootPath {
      PathStringRoundTrip(p);
    } else {
      RootToStringLosesTheRoot();
    }
  }

  // ------------------------------------------------------------- hashing

  /**
   * Every code unit of the segment is ASCII: the range on which the case
   * mapping of JavaText is Java's own.
   */
  predicate IsAsciiSegment(s: JString)
  {
    forall k | 0 <= k < |s| :: s[k] < 0x80
  }

  /** ASCII segments equal ignoring case hash alike (beyond ASCII, see SegmentHashAsWritten). */
  lemma {:induction false} SegmentHashIgnoresCase(a: JString, b: JString)
    requires IsAsciiSegment(a) && IsAsciiSegment(b)
    requires EqualsIgnoreCase(a, b)
    ensures SegmentHash(a) == SegmentHash(b)
    decreases |a|
  {
    if a != [] {
      var n := |a| - 1;
      assert EqualsIgnoreCase(a[..n], b[..n]) by {
        forall i | 0 <= i < n
          ensures CharEqualsIgnoreCase(a[..n][i], b[..n][i])
        {
          assert a[..n][i] == a[i] && b[..n][i] == b[i];
        }
      }
      assert IsAsciiSegment(a[..n]) && IsAsciiSegment(b[..n]) by {
        forall i | 0 <= i < n
          ensures a[..n][i] < 0x80 && b[..n][i] < 0x80
        {
          assert a[..n][i] == a[i] && b[..n][i] == b[i];
        }
      }
      SegmentHashIgnoresCase(a[..n], b[..n]);
      CharEqualsIgnoreCaseIsLower(a[n], b[n]);
    }
  }

  lemma {:induction false} SegmentsHashIgnoresCase(s: seq<JString>, t: seq<JString>)
    requires |s| == |t| && forall i | 0 <= i < |s| :: IsAsciiSegment(s[i]) && IsAsciiSegment(t[i])
    requires forall i | 0 <= i < |s| :: EqualsIgnoreCase(s[i], t[i])
    ensures PathHash(s) == PathHash(t)
    decreases |s|
  {
    if s != [] {
      var n := |s| - 1;
      forall i | 0 <= i < n
        ensures EqualsIgnoreCase(s[..n][i], t[..n][i])
        ensures IsAsciiSegment(s[..n][i]) && IsAsciiSegment(t[..n][i])
      {
        assert s[..n][i] == s[i] && t[..n][i] == t[i];
      }
      SegmentsHashIgnoresCase(s[..n], t[..n]);
      SegmentHashIgnoresCase(s[n], t[n]);
    }
  }

  /** Paths of ASCII segments that equalsIgnoreCase says are equal have the same hashCode(). */
  lemma {:induction false} HashAgreesWithEqualsIgnoreCase(p: Path, q: Path)
    requires forall i | 0 <= i < |p.segments| :: IsAsciiSegment(p.segments[i])
    requires forall i | 0 <= i < |q.segments| :: IsAsciiSegment(q.segments[i])
    requires SameIgnoringCase(p, q)
    ensures PathHash(p.segments) == PathHash(q.segments)
  {
    SegmentsHashIgnoresCase(p.segments, q.segments);
  }

  // ------------------------------------------- case mappings beyond ASCII

  /**
   * A character case mapping as java.lang.Character supplies it:
   * toUpperCase, toLowerCase and the isUpperCase test. JavaText fixes the
   * ASCII one; these members hold for any.
   */
  datatype CaseMapping = CaseMapping(upper: int -> int, lower: int -> int, isUpper: int -> bool)

  /** The mapping JavaText uses throughout the model. */
  function AsciiCase(): (m: CaseMapping)
    ensures forall c :: m.upper(c) == ToUpper(c)
    ensures forall c :: m.lower(c) == ToLower(c)
    ensures forall c :: m.isUpper(c) <==> IsAsciiUpper(c)
  {
    CaseMapping(ToUpper, ToLower, IsAsciiUpper)
  }

  /**
   * String.equalsIgnoreCase on one pair of characters under `m`: equal, or
   * equal once upper-cased, or equal once upper-cased and then lower-cased.
   */
  predicate CharEqualsIgnoreCaseUnder(m: CaseMapping, a: int, b: int)
  {
    a == b || m.upper(a) == m.upper(b) || m.lower(m.upper(a)) == m.lower(m.upper(b))
  }

  predicate EqualsIgnoreCaseUnder(m: CaseMapping, a: JString, b: JString)
  {
    |a| == |b| && forall i | 0 <= i < |a| :: CharEqualsIgnoreCaseUnder(m, a[i], b[i])
  }

  /** Under the ASCII mapping, the comparison is the one the model uses. */
  lemma {:induction false} AsciiCaseEqualsIgnoreCase(a: int, b: int)
    ensures CharEqualsIgnoreCaseUnder(AsciiCase(), a, b) <==> CharEqualsIgnoreCase(a, b)
  {
  }

  /**
   * The segment hash of hashCode() as written, under `m`: a character is
   * lowered only when isUpperCase accepts it.
   */
  function SegmentHashAsWritten(m: CaseMapping, s: JString): (r: Bits32)
    ensures s == [] ==> r == 0
    ensures s != [] ==> var c := s[|s| - 1];
      r == HashStep(SegmentHashAsWritten(m, s[..|s| - 1]), if m.isUpper(c) then m.lower(c) else c)
  {
    if s == [] then 0
    else
      var c := s[|s| - 1];
      HashStep(SegmentHashAsWritten(m, s[..|s| - 1]), if m.isUpper(c) then m.lower(c) else c)
  }

  /** Under the ASCII mapping, the as-written hash is SegmentHash. */
  lemma {:induction false} AsciiCaseHashAsWritten(s: JString)
    ensures SegmentHashAsWritten(AsciiCase(), s) == SegmentHash(s)
    decreases |s|
  {
    if s != [] {
      AsciiCaseHashAsWritten(s[..|s| - 1]);
    }
  }

  /**
   * What java.lang.Character says of U+017F (LATIN SMALL LETTER LONG S) and
   * 's': both upper-case to 'S', and neither is an upper-case letter.
   */
  predicate LongSAsJava(m: CaseMapping)
  {
    && m.upper(0x17F) == 'S' as int && m.upper('s' as int) == 'S' as int
    && !m.isUpper(0x17F) && !m.isUpper('s' as int)
  }

  /**
   * With Java's case mapping, "ſ" and "s" are equal ignoring case, yet
   * hashCode() as written gives the segments different hashes, so two paths
   * that equalsIgnoreCase relates hash differently.
   */
  lemma {:induction false} HashAsWrittenSplitsLongS(m: CaseMapping)
    requires LongSAsJava(m)
    ensures EqualsIgnoreCaseUnder(m, [0x17F], ['s' as int])
    ensures SegmentHashAsWritten(m, [0x17F]) == 0x17F
    ensures SegmentHashAsWritten(m, ['s' as int]) == 's' as int
  {
    var long: JString, short: JString := [0x17F], ['s' as int];
    assert long[..0] == [] && short[..0] == [];
  }

  /**
   * A segment hash that folds every character to lower(upper(c)), the last
   * form equalsIgnoreCase compares.
   */
  function SegmentHashFolded(m: CaseMapping, s: JString): (r: Bits32)
    ensures s == [] ==> r == 0
    ensures s != [] ==> var c := s[|s| - 1];
      r == HashStep(SegmentHashFolded(m, s[..|s| - 1]), m.lower(m.upper(c)))
  {
    if s == [] then 0
    else HashStep(SegmentHashFolded(m, s[..|s| - 1]), m.lower(m.upper(s[|s| - 1])))
  }

  /** Under every case mapping, segments equal ignoring case have equal folded hashes. */
  lemma {:induction false} FoldedHashIgnoresCase(m: CaseMapping, a: JString, b: JString)
    requires EqualsIgnoreCaseUnder(m, a, b)
    ensures SegmentHashFolded(m, a) == SegmentHashFolded(m, b)
    decreases |a|
  {
    if a != [] {
      var n := |a| - 1;
      assert EqualsIgnoreCaseUnder(m, a[..n], b[..n]) by {
        forall i | 0 <= i < n
          ensures CharEqualsIgnoreCaseUnder(m, a[..n][i], b[..n][i])
        {
          assert a[..n][i] == a[i] && b[..n][i] == b[i];
        }
      }
      FoldedHashIgnoresCase(m, a[..n], b[..n]);
      assert CharEqualsIgnoreCaseUnder(m, a[n], b[n]);
    }
  }

  lemma {:induction false} LowerOfUpper(c: int)
    ensures ToLower(ToUpper(c)) == ToLower(c)
  {
  }

  /**
   * Under the ASCII mapping the folded hash is SegmentHash, the hash the
   * rest of the model uses.
   */
  lemma {:induction false} AsciiCaseHashFolded(s: JString)
    ensures SegmentHashFolded(AsciiCase(), s) == SegmentHash(s)
    decreases |s|
  {
    if s != [] {
      AsciiCaseHashFolded(s[..|s| - 1]);
      AsciiCaseFoldedStep(s);
    }
  }

  lemma {:induction false} AsciiCaseFoldedStep(s: JString)
    requires s != []
    requires SegmentHashFolded(AsciiCase(), s[..|s| - 1]) == SegmentHash(s[..|s| - 1])
    ensures SegmentHashFolded(AsciiCase(), s) == SegmentHash(s)
  {
    var n, c := |s| - 1, s[|s| - 1];
    var m := AsciiCase();
    assert m.lower(m.upper(c)) == ToLower(c) by {
      LowerOfUpper(c);
    }
    calc {
      SegmentHashFolded(m, s);
      HashStep(SegmentHashFolded(m, s[..n]), m.lower(m.upper(c)));
      HashStep(SegmentHash(s[..n]), ToLower(c));
      SegmentHash(s);
    }
  }

  // ---------------------------------------------------------- file names

  /**
   * getFileBaseName() and getFileExtension() split the file name at its
   * last '.' when a '.' occurs past the first character; otherwise the base
   * name is the whole name and the extension is "".
   */
  lemma {:induction false} FileNameSplit(p: Path)
    requires p.segments != []
    ensures var name, base, ext := FileName(p).value, FileBaseName(p).value, FileExtension(p).value;
      && ((exists i | 0 < i < |name| :: name[i] == '.' as int) ==> (
        && base + ['.' as int] + ext == name
        && base != []
        && forall k | 0 <= k < |ext| :: ext[k] != '.' as int))
      && (!(exists i | 0 < i < |name| :: name[i] == '.' as int) ==> base == name && ext == [])
  {
    var name := FileName(p).value;
    var dot := LastIndexOf(name, '.' as int);
    if exists i | 0 < i < |name| :: name[i] == '.' as int {
      var i :| 0 < i < |name| && name[i] == '.' as int;
      assert dot >= i;
      assert name[..dot] + ['.' as int] + name[dot + 1..] == name;
      var ext := name[dot + 1..];
      forall k | 0 <= k < |ext|
        ensures ext[k] != '.' as int
      {
        assert ext[k] == name[dot + 1 + k];
      }
    }
  }
}
