// StringPath: a platform-independent path value, an optional leading slash
// and a list of segments, together with the scanner that builds one from a
// root and text fragments, and the path algebra over the result.

module StringPath {
  import opened JavaText

  /** A path: whether it starts with a slash, and its segments. */
  datatype Path = Path(startsWithSlash: bool, segments: seq<JString>)

  /** EMPTY_STRING_PATH */
  const Empty: Path := Path(false, [])

  /** ROOT_STRING_PATH */
  const RootPath: Path := Path(true, [])

  /**
   * The untyped `root` argument of build: null, a String, a StringPath, or
   * any other object (File and Path roots are not part of this model).
   */
  datatype Root = NoRoot | TextRoot(text: JString) | PathRoot(path: Path) | UnsupportedRoot

  /** colonLimit: a ':' is accepted only while at most this many segments are stored. */
  const ColonLimit: int := 2

  predicate IsSeparator(c: int) { c == '/' as int || c == '\\' as int }

  /** The characters build never accepts in a path. */
  predicate IsForbidden(c: int)
  {
    c == '*' as int || c == '?' as int || c == '"' as int
    || c == '<' as int || c == '>' as int || c == '|' as int
  }

  /** Every unit of str[s..e) is a dot (vacuously true for an empty or negative span). */
  predicate AllDots(str: JString, s: int, e: int)
    requires 0 <= s && e <= |str|
  {
    forall i | s <= i < e :: str[i] == '.' as int
  }

  /** The span str[s..e) is exactly "..". */
  predicate IsDotDot(str: JString, s: int, e: int)
    requires 0 <= s && e <= |str|
  {
    e - s == 2 && str[s] == '.' as int && str[s + 1] == '.' as int
  }

  // ------------------------------------------------------ segment resolver

  /**
   * build(List, int, String, int, int): what storing the span str[s..e) does
   * to the segment list. `rootLimit` is the number of leading segments a ".."
   * may not remove (-1 while the root text itself is scanned).
   */
  function ApplySpan(list: seq<JString>, rootLimit: int, str: JString, s: int, e: int): (r: Result<seq<JString>>)
    requires 0 <= s && e <= |str|
    // errors: an all-dot span of three or more (or a negative span), and a
    // ".." that pops below an empty list while the root is scanned
    ensures r == Err(IllegalArgument) <==> AllDots(str, s, e) && (e - s < 0 || e - s >= 3)
    ensures r == Err(IndexOutOfBounds) <==> IsDotDot(str, s, e) && |list| == 0 && rootLimit < 0
    // nothing is stored for an empty span or "."
    ensures e == s || (e - s == 1 && str[s] == '.' as int) ==> r == Ok(list)
    // ".." pops only above the root limit, and is otherwise dropped
    ensures IsDotDot(str, s, e) && |list| > 0 && |list| > rootLimit ==> r == Ok(list[..|list| - 1])
    ensures IsDotDot(str, s, e) && |list| <= rootLimit ==> r == Ok(list)
    // every other span is appended as it is
    ensures s < e && !AllDots(str, s, e) ==> r == Ok(list + [str[s..e]])
    // the segments below the root limit are never touched
    ensures r.Ok? && 0 <= rootLimit <= |list| ==>
      rootLimit <= |r.value| && r.value[..rootLimit] == list[..rootLimit]
  {
    if e - s == 0 then Ok(list)
    else if e - s == 1 then
      if str[s] != '.' as int then Ok(list + [str[s..e]]) else Ok(list)
    else if e - s == 2 then
      if str[s] == '.' as int && str[s + 1] == '.' as int then
        if |list| > rootLimit then
          if |list| == 0 then Err(IndexOutOfBounds) else Ok(list[..|list| - 1])
        else Ok(list)
      else Ok(list + [str[s..e]])
    else if AllDots(str, s, e) then Err(IllegalArgument)
    else Ok(list + [str[s..e]])
  }

  /** The segment resolver as the source runs it, with its all-dots loop. */
  method StoreSpan(list: seq<JString>, rootLimit: int, str: JString, s: int, e: int)
    returns (r: Result<seq<JString>>)
    requires 0 <= s && e <= |str|
    ensures r == ApplySpan(list, rootLimit, str, s, e)
  {
    var n := e - s;
    if n == 0 {
      r := Ok(list);
    } else if n == 1 {
      if str[s] != '.' as int {
        r := Ok(list + [str[s..e]]);
      } else {
        r := Ok(list);
      }
    } else if n == 2 {
      if str[s] == '.' as int && str[s + 1] == '.' as int {
        if |list| > rootLimit {
          if |list| == 0 {
            return Err(IndexOutOfBounds);
          }
          r := Ok(list[..|list| - 1]);
        } else {
          r := Ok(list);
        }
      } else {
        r := Ok(list + [str[s..e]]);
      }
    } else {
      var all := true;
      var i := s;
      while i < e
        invariant s <= i
        invariant i <= e || i == s
        invariant all <==> forall k | s <= k < i :: str[k] == '.' as int
        decreases e - i
      {
        if str[i] != '.' as int {
          all := false;
          break;
        }
        i := i + 1;
      }
      if all {
        assert AllDots(str, s, e);
        return Err(IllegalArgument);
      }
      r := Ok(list + [str[s..e]]);
    }
  }

  // ------------------------------------------------------------ the scanner

  /**
   * The scanner's state between two characters: the segments stored so far,
   * the absolute flag once it is fixed, the leading-whitespace count `sc`,
   * the pending trailing-whitespace count `ec`, the content count `dc` and the
   * colon count of the current span.
   */
  datatype Scan = Scan(list: seq<JString>, slash: Option<bool>, sc: nat, ec: nat, dc: nat, colon: nat)

  /** A fresh scanner over the given stored segments and flag. */
  function Start(list: seq<JString>, slash: Option<bool>): Scan
  {
    Scan(list, slash, 0, 0, 0, 0)
  }

  /** Whether a surrogate pair starts at `ei`, so the scanner reads two units there. */
  predicate PairAt(str: JString, ei: int)
    requires 0 <= ei < |str|
  {
    IsHighSurrogate(str[ei]) && ei + 1 < |str| && IsLowSurrogate(str[ei + 1])
  }

  /** The code point the scanner classifies at `ei`. */
  function ScanCodePoint(str: JString, ei: int): (cp: int)
    requires 0 <= ei < |str|
    ensures !PairAt(str, ei) ==> cp == str[ei]
    ensures PairAt(str, ei) ==> cp >= 0x1_0000
  {
    if PairAt(str, ei) then ToCodePoint(str[ei], str[ei + 1]) else str[ei]
  }

  /** The index of the last unit the scanner consumes at `ei`. */
  function LastUnit(str: JString, ei: int): (r: int)
    requires 0 <= ei < |str|
    ensures ei <= r < |str|
  {
    if PairAt(str, ei) then ei + 1 else ei
  }

  /**
   * The switch of build's inner loop on the code point at `ei`: the new state
   * and span start, or the exception thrown.
   */
  function StepAt(st: Scan, rootLimit: int, str: JString, si: nat, ei: nat): (r: Result<(Scan, nat)>)
    requires si <= ei < |str|
    ensures r.Ok? ==> r.value.1 <= LastUnit(str, ei) + 1
  {
    var cp := ScanCodePoint(str, ei);
    var next := LastUnit(str, ei) + 1;
    if cp == ':' as int && |st.list| <= ColonLimit then
      Ok((st.(colon := st.colon + 1, dc := st.dc + 1), si))
    else if cp == ':' as int || IsForbidden(cp) then
      Err(IllegalArgument)
    else if IsSeparator(cp) then
      var flushed := if st.dc != 0 then ApplySpan(st.list, rootLimit, str, si + st.sc, ei - st.ec) else Ok(st.list);
      match flushed
      case Err(x) => Err(x)
      case Ok(l) =>
        var slash := if st.slash == None then Some(|l| == 0) else st.slash;
        Ok((Start(l, slash), next))
    else if IsJavaWhitespace(cp) then
      if st.dc == 0 then Ok((st.(sc := st.sc + 1), si))
      else Ok((st.(ec := st.ec + 1), si))
    else if IsISOControl(cp) || (|st.list| > ColonLimit && st.colon != 0) then
      Err(IllegalArgument)
    else
      var extra := if IsHighSurrogate(str[ei]) then 1 else 0;
      Ok((st.(dc := st.dc + extra + st.ec + 1, ec := 0), si))
  }

  /** After the last character: the pending span is stored when it has content. */
  function Flush(st: Scan, rootLimit: int, str: JString, si: nat): Result<Scan>
    requires si <= |str|
  {
    if st.dc != 0 then
      match ApplySpan(st.list, rootLimit, str, si + st.sc, |str| - st.ec)
      case Err(x) => Err(x)
      case Ok(l) => Ok(st.(list := l))
    else Ok(st)
  }

  /**
   * The inner loop of build over one text `str`, from index `ei` with the
   * current span starting at `si`, followed by the flush of the last span.
   */
  function ScanFrom(st: Scan, rootLimit: int, str: JString, si: nat, ei: nat): (r: Result<Scan>)
    requires si <= ei <= |str|
    decreases |str| - ei
  {
    if ei == |str| then Flush(st, rootLimit, str, si)
    else
      match StepAt(st, rootLimit, str, si, ei)
      case Err(x) => Err(x)
      case Ok(p) => ScanFrom(p.0, rootLimit, str, p.1, LastUnit(str, ei) + 1)
  }

  /** The fragments scanned one after another; the counters carry over from one to the next. */
  function ScanFragments(st: Scan, rootLimit: int, frags: seq<JString>): Result<Scan>
    decreases |frags|
  {
    if frags == [] then Ok(st)
    else
      match ScanFrom(st, rootLimit, frags[0], 0, 0)
      case Err(x) => Err(x)
      case Ok(st') => ScanFragments(st', rootLimit, frags[1..])
  }

  /** The fragment arrays handed to build, in order. */
  function Flatten(pathsList: seq<seq<JString>>): (r: seq<JString>)
  {
    if pathsList == [] then [] else pathsList[0] + Flatten(pathsList[1..])
  }

  lemma {:induction false} FlattenSingle(frags: seq<JString>)
    ensures Flatten([frags]) == frags
  {
    assert [frags][1..] == [];
  }

  /** The path a finished scan describes: absolute only when the flag was fixed to true. */
  function Finish(r: Result<Scan>): Result<Path>
  {
    match r
    case Err(x) => Err(x)
    case Ok(st) => Ok(Path(st.slash == Some(true), st.list))
  }

  /**
   * build(Object, String[]...): the root is scanned first (a text root with
   * no root limit, a path root contributing its segments and flag), the
   * root limit is then fixed to the number of segments stored, and the
   * fragments follow.
   */
  function Build(root: Root, pathsList: seq<seq<JString>>): Result<Path>
  {
    match root
    case UnsupportedRoot => Err(IllegalArgument)
    case NoRoot => Finish(ScanFragments(Start([], None), 0, Flatten(pathsList)))
    case PathRoot(p) =>
      Finish(ScanFragments(Start(p.segments, Some(p.startsWithSlash)), |p.segments|, Flatten(pathsList)))
    case TextRoot(t) =>
      match ScanFrom(Start([], None), -1, t, 0, 0)
      case Err(x) => Err(x)
      case Ok(st) => Finish(ScanFragments(st, |st.list|, Flatten(pathsList)))
  }

  /** of(Object, String...): the fragments arrive as build's single array. */
  function Of(root: Root, paths: seq<JString>): Result<Path>
  {
    Build(root, [paths])
  }

  /** of(String) with no fragments. */
  function OfText(text: JString): (r: Result<Path>)
    ensures text == [] ==> r == Ok(Empty)
    ensures |text| == 1 && IsSeparator(text[0]) ==> r == Ok(RootPath)
  {
    FlattenSingle([]);
    assert |text| == 1 && IsSeparator(text[0]) ==> ScanFrom(Start([], None), -1, text, 0, 0) == Ok(Start([], Some(true))) by {
      if |text| == 1 && IsSeparator(text[0]) {
        assert !PairAt(text, 0);
        assert StepAt(Start([], None), -1, text, 0, 0) == Ok((Start([], Some(true)), 1));
      }
    }
    Of(TextRoot(text), [])
  }

  /** The fragments from position (ci, pi) on. */
  function Remaining(pathsList: seq<seq<JString>>, ci: int, pi: int): seq<JString>
    requires 0 <= ci <= |pathsList|
    requires ci < |pathsList| ==> 0 <= pi <= |pathsList[ci]|
  {
    if ci == |pathsList| then [] else pathsList[ci][pi..] + Flatten(pathsList[ci + 1..])
  }

  /**
   * One pass of build's inner loop body: the surrogate-pair decoding and the
   * switch on the code point. `last` is the index of the last unit read.
   */
  method ScanChar(st: Scan, rootLimit: int, str: JString, si: nat, ei: nat)
    returns (r: Result<(Scan, nat)>, last: nat)
    requires si <= ei < |str|
    ensures r == StepAt(st, rootLimit, str, si, ei)
    ensures last == LastUnit(str, ei)
  {
    var ch := str[ei];
    var codePoint := ch;
    last := ei;
    if IsHighSurrogate(ch) && ei + 1 < |str| {
      var chl := str[ei + 1];
      if IsLowSurrogate(chl) {
        codePoint := ToCodePoint(ch, chl);
        last := ei + 1;
      }
    }
    var sc, ec, dc, colon := st.sc, st.ec, st.dc, st.colon;
    if codePoint == ':' as int && |st.list| <= ColonLimit {
      return Ok((st.(colon := colon + 1, dc := dc + 1), si)), last;
    } else if codePoint == ':' as int || IsForbidden(codePoint) {
      return Err(IllegalArgument), last;
    } else if IsSeparator(codePoint) {
      var list := st.list;
      if dc != 0 {
        var stored := StoreSpan(list, rootLimit, str, si + sc, ei - ec);
        if stored.Err? {
          return Err(stored.error), last;
        }
        list := stored.value;
      }
      var slash := st.slash;
      if slash == None {
        slash := Some(|list| == 0);
      }
      return Ok((Start(list, slash), last + 1)), last;
    } else if IsJavaWhitespace(codePoint) {
      if dc == 0 {
        sc := sc + 1;
      } else {
        ec := ec + 1;
      }
    } else {
      if IsISOControl(codePoint) || (|st.list| > ColonLimit && colon != 0) {
        return Err(IllegalArgument), last;
      }
      if IsHighSurrogate(ch) {
        dc := dc + 1;
      }
      dc := dc + ec + 1;
      ec := 0;
    }
    r := Ok((st.(sc := sc, ec := ec, dc := dc), si));
  }

  /** The inner loop of build over one text, as the source runs it. */
  method ScanText(st: Scan, rootLimit: int, str: JString) returns (r: Result<Scan>)
    ensures r == ScanFrom(st, rootLimit, str, 0, 0)
  {
    var cur := st;
    var si: nat, ei: nat := 0, 0;
    while ei < |str|
      invariant si <= ei <= |str|
      invariant ScanFrom(cur, rootLimit, str, si, ei) == ScanFrom(st, rootLimit, str, 0, 0)
      decreases |str| - ei
    {
      var step, last := ScanChar(cur, rootLimit, str, si, ei);
      if step.Err? {
        return Err(step.error);
      }
      cur, si := step.value.0, step.value.1;
      ei := last + 1;
    }
    if cur.dc != 0 {
      var stored := StoreSpan(cur.list, rootLimit, str, si + cur.sc, ei - cur.ec);
      if stored.Err? {
        return Err(stored.error);
      }
      cur := cur.(list := stored.value);
    }
    r := Ok(cur);
  }

  /** Where build's cursor (ci, pi) moves next: the next fragment, or the start of the next array. */
  lemma {:induction false} RemainingStep(pathsList: seq<seq<JString>>, ci: nat, pi: nat)
    requires ci < |pathsList| && pi <= |pathsList[ci]|
    ensures pi < |pathsList[ci]| ==> Remaining(pathsList, ci, pi) == [pathsList[ci][pi]] + Remaining(pathsList, ci, pi + 1)
    ensures pi == |pathsList[ci]| ==> Remaining(pathsList, ci, pi) == Remaining(pathsList, ci + 1, 0)
  {
    if pi < |pathsList[ci]| {
      RemainingNext(pathsList, ci, pi);
    } else {
      RemainingRowEnd(pathsList, ci);
    }
  }

  lemma {:induction false} RemainingNext(pathsList: seq<seq<JString>>, ci: nat, pi: nat)
    requires ci < |pathsList| && pi < |pathsList[ci]|
    ensures Remaining(pathsList, ci, pi) == [pathsList[ci][pi]] + Remaining(pathsList, ci, pi + 1)
  {
    var row, tail := pathsList[ci], Flatten(pathsList[ci + 1..]);
    assert row[pi..] == [row[pi]] + row[pi + 1..];
    assert Remaining(pathsList, ci, pi) == row[pi..] + tail;
    assert Remaining(pathsList, ci, pi + 1) == row[pi + 1..] + tail;
    assert ([row[pi]] + row[pi + 1..]) + tail == [row[pi]] + (row[pi + 1..] + tail);
  }

  lemma {:induction false} RemainingRowEnd(pathsList: seq<seq<JString>>, ci: nat)
    requires ci < |pathsList|
    ensures Remaining(pathsList, ci, |pathsList[ci]|) == Remaining(pathsList, ci + 1, 0)
  {
    var rest := pathsList[ci + 1..];
    assert pathsList[ci][|pathsList[ci]|..] == [];
    assert Remaining(pathsList, ci, |pathsList[ci]|) == [] + Flatten(rest);
    if ci + 1 < |pathsList| {
      assert rest[1..] == pathsList[ci + 2..];
      assert rest[0][0..] == rest[0];
      assert Flatten(rest) == rest[0] + Flatten(rest[1..]);
    }
  }

  /** Before the first array, the remaining fragments are all of them. */
  lemma {:induction false} RemainingAll(pathsList: seq<seq<JString>>)
    ensures Remaining(pathsList, 0, 0) == Flatten(pathsList)
  {
    if |pathsList| > 0 {
      assert pathsList[0][0..] == pathsList[0];
      assert pathsList[1..] == pathsList[0 + 1..];
    }
  }

  /** Scanning a leading fragment first. */
  lemma {:induction false} ScanFragmentsCons(st: Scan, rootLimit: int, x: JString, rest: seq<JString>)
    ensures var first := ScanFrom(st, rootLimit, x, 0, 0);
      ScanFragments(st, rootLimit, [x] + rest) == if first.Err? then Err(first.error) else ScanFragments(first.value, rootLimit, rest)
  {
    assert ([x] + rest)[1..] == rest;
  }

  /**
   * build(Object, String[]...) as the source runs it. The first turn of the
   * source's loop (ci == -1) scans the root with no root limit; the root
   * limit is then the number of segments stored, and the fragments follow.
   */
  method BuildPath(root: Root, pathsList: seq<seq<JString>>) returns (r: Result<Path>)
    ensures r == Build(root, pathsList)
  {
    if root.NoRoot? && |pathsList| == 0 {
      return Ok(Empty);
    }
    var cur := Start([], None);
    match root {
      case NoRoot =>
      case TextRoot(t) =>
        var scanned := ScanText(cur, -1, t);
        if scanned.Err? {
          return Err(scanned.error);
        }
        cur := scanned.value;
      case PathRoot(p) =>
        cur := Start(p.segments, Some(p.startsWithSlash));
      case UnsupportedRoot => return Err(IllegalArgument);
    }
    var scanned := ScanPaths(cur, |cur.list|, pathsList);
    if scanned.Err? {
      return Err(scanned.error);
    }
    r := Ok(Path(scanned.value.slash == Some(true), scanned.value.list));
  }

  /** The rest of build's loop: `ci`/`pi` walk every fragment of every array, the counters carried over. */
  method ScanPaths(st: Scan, rootLimit: int, pathsList: seq<seq<JString>>) returns (r: Result<Scan>)
    ensures r == ScanFragments(st, rootLimit, Flatten(pathsList))
  {
    var cur := st;
    var ci, pi := 0, 0;
    ghost var goal := ScanAt(st, rootLimit, pathsList, 0, 0);
    var str: Option<JString> := if 0 < |pathsList| && 0 < |pathsList[0]| then Some(pathsList[0][0]) else None;
    while ci < |pathsList|
      invariant 0 <= ci <= |pathsList|
      invariant ci < |pathsList| ==> pi <= |pathsList[ci]|
      invariant str == (if ci < |pathsList| && pi < |pathsList[ci]| then Some(pathsList[ci][pi]) else None)
      invariant ScanAt(cur, rootLimit, pathsList, ci, pi) == goal
      decreases |pathsList| - ci, if ci < |pathsList| then |pathsList[ci]| - pi + 1 else 0
    {
      if str.Some? {
        var scanned := ScanText(cur, rootLimit, str.value);
        if scanned.Err? {
          r := Err(scanned.error);
          break;
        }
        cur := scanned.value;
        pi := pi + 1;
      } else {
        ci, pi := ci + 1, 0;
      }
      str := if ci < |pathsList| && pi < |pathsList[ci]| then Some(pathsList[ci][pi]) else None;
    }
    if ci == |pathsList| {
      r := Ok(cur);
    }
    ScanAtRemaining(st, rootLimit, pathsList, 0, 0);
    RemainingAll(pathsList);
  }

  /** The fragments from position (ci, pi) on, scanned in the order build's cursor visits them. */
  function ScanAt(st: Scan, rootLimit: int, pathsList: seq<seq<JString>>, ci: nat, pi: nat): Result<Scan>
    requires ci <= |pathsList| && (ci < |pathsList| ==> pi <= |pathsList[ci]|)
    decreases |pathsList| - ci, if ci < |pathsList| then |pathsList[ci]| - pi else 0
  {
    if ci == |pathsList| then Ok(st)
    else if pi == |pathsList[ci]| then ScanAt(st, rootLimit, pathsList, ci + 1, 0)
    else
      var first := ScanFrom(st, rootLimit, pathsList[ci][pi], 0, 0);
      if first.Err? then Err(first.error) else ScanAt(first.value, rootLimit, pathsList, ci, pi + 1)
  }

  /** The cursor walk scans exactly the remaining fragments, one after another. */
  lemma {:induction false} ScanAtRemaining(st: Scan, rootLimit: int, pathsList: seq<seq<JString>>, ci: nat, pi: nat)
    requires ci <= |pathsList| && (ci < |pathsList| ==> pi <= |pathsList[ci]|)
    ensures ScanAt(st, rootLimit, pathsList, ci, pi) == ScanFragments(st, rootLimit, Remaining(pathsList, ci, pi))
    decreases |pathsList| - ci, if ci < |pathsList| then |pathsList[ci]| - pi else 0
  {
    if ci < |pathsList| {
      RemainingStep(pathsList, ci, pi);
      if pi == |pathsList[ci]| {
        ScanAtRemaining(st, rootLimit, pathsList, ci + 1, 0);
      } else {
        ScanFragmentsCons(st, rootLimit, pathsList[ci][pi], Remaining(pathsList, ci, pi + 1));
        var first := ScanFrom(st, rootLimit, pathsList[ci][pi], 0, 0);
        if first.Ok? {
          ScanAtRemaining(first.value, rootLimit, pathsList, ci, pi + 1);
        }
      }
    }
  }

  // -------------------------------------------------------- the path algebra

  /** getParent(): the path without its last segment and with the same flag; null when there are no segments. */
  function Parent(p: Path): (r: Option<Path>)
    ensures r.None? <==> p.segments == []
    ensures r.Some? ==>
      && r.value.startsWithSlash == p.startsWithSlash
      && r.value.segments + [p.segments[|p.segments| - 1]] == p.segments
  {
    if |p.segments| == 0 then None
    else Some(Path(p.startsWithSlash, p.segments[..|p.segments| - 1]))
  }

  /** getSegment(int): the segment at `index`, or IndexOutOfBoundsException. */
  function Segment(p: Path, index: int): (r: Result<JString>)
    ensures r.Err? <==> index < 0 || index >= |p.segments|
    ensures r.Err? ==> r.error == IndexOutOfBounds
    ensures r.Ok? ==> r.value == p.segments[index]
  {
    if index < 0 || index >= |p.segments| then Err(IndexOutOfBounds) else Ok(p.segments[index])
  }

  /** getSegmentCount() */
  function SegmentCount(p: Path): nat
  {
    |p.segments|
  }

  /** getFileName(): the last segment, or null when there is none. */
  function FileName(p: Path): (r: Option<JString>)
    ensures r.None? <==> p.segments == []
    ensures r.Some? ==> r.value == p.segments[|p.segments| - 1]
  {
    if |p.segments| == 0 then None else Some(p.segments[|p.segments| - 1])
  }

  /** getFileBaseName(): the file name before its last '.', when that dot is not the first character. */
  function FileBaseName(p: Path): (r: Option<JString>)
    ensures r.None? <==> p.segments == []
  {
    match FileName(p)
    case None => None
    case Some(name) =>
      var dot := LastIndexOf(name, '.' as int);
      if dot > 0 then Some(name[..dot]) else Some(name)
  }

  /** getFileExtension(): the file name after its last '.', or "" when there is no such dot past the first character. */
  function FileExtension(p: Path): (r: Option<JString>)
    ensures r.None? <==> p.segments == []
  {
    match FileName(p)
    case None => None
    case Some(name) =>
      var dot := LastIndexOf(name, '.' as int);
      if dot > 0 then Some(name[dot + 1..]) else Some([])
  }

  /**
   * sub(int, int): segments [begin, end); relative unless it starts at 0 of
   * an absolute path; IndexOutOfBoundsException for bad indices.
   */
  function Sub(p: Path, begin: int, end: int): (r: Result<Path>)
    ensures r.Err? <==> !(0 <= begin <= end <= |p.segments|)
    ensures r.Err? ==> r.error == IndexOutOfBounds
    ensures r.Ok? ==>
      && r.value.segments == p.segments[begin..end]
      && (r.value.startsWithSlash <==> begin == 0 && p.startsWithSlash)
  {
    if begin < 0 || end > |p.segments| || begin > end then Err(IndexOutOfBounds)
    else if begin > 0 then Ok(Path(false, p.segments[begin..end]))
    else Ok(Path(p.startsWithSlash, p.segments[begin..end]))
  }

  /** What startsWith(StringPath) decides: `other` is a non-empty segment-wise prefix of `p`. */
  predicate HasPrefix(p: Path, other: Option<Path>)
  {
    other.Some? && 0 < |other.value.segments| <= |p.segments|
    && p.segments[..|other.value.segments|] == other.value.segments
  }

  /** What endsWith(StringPath) decides: `other` is a non-empty segment-wise suffix of `p`. */
  predicate HasSuffix(p: Path, other: Option<Path>)
  {
    other.Some? && 0 < |other.value.segments| <= |p.segments|
    && p.segments[|p.segments| - |other.value.segments|..] == other.value.segments
  }

  /** startsWith(StringPath): false for null, empty or longer arguments, else a segment-by-segment comparison. */
  method StartsWith(p: Path, other: Option<Path>) returns (r: bool)
    ensures r == HasPrefix(p, other)
  {
    if other.None? || |other.value.segments| == 0 || |other.value.segments| > |p.segments| {
      return false;
    }
    var ta, oa := p.segments, other.value.segments;
    for i := 0 to |oa|
      invariant forall k | 0 <= k < i :: ta[k] == oa[k]
    {
      if ta[i] != oa[i] {
        return false;
      }
    }
    assert ta[..|oa|] == oa;
    return true;
  }

  /** endsWith(StringPath): as startsWith, comparing from the last segments backwards. */
  method EndsWith(p: Path, other: Option<Path>) returns (r: bool)
    ensures r == HasSuffix(p, other)
  {
    if other.None? || |other.value.segments| == 0 || |other.value.segments| > |p.segments| {
      return false;
    }
    var ta, oa := p.segments, other.value.segments;
    for i := 0 to |oa|
      invariant ta[|ta| - i..] == oa[|oa| - i..]
    {
      if ta[|ta| - 1 - i] != oa[|oa| - 1 - i] {
        SuffixDiffers(ta, oa, i);
        return false;
      }
      assert ta[|ta| - 1 - i..] == [ta[|ta| - 1 - i]] + ta[|ta| - i..];
      assert oa[|oa| - 1 - i..] == [oa[|oa| - 1 - i]] + oa[|oa| - i..];
    }
    assert oa[|oa| - |oa|..] == oa;
    return true;
  }

  lemma {:induction false} SuffixDiffers(ta: seq<JString>, oa: seq<JString>, i: nat)
    requires i < |oa| <= |ta|
    requires ta[|ta| - 1 - i] != oa[|oa| - 1 - i]
    ensures ta[|ta| - |oa|..] != oa
  {
    assert ta[|ta| - |oa|..][|oa| - 1 - i] == ta[|ta| - 1 - i];
  }

  /** The length of the longest common prefix of two segment lists. */
  function CommonPrefixLength(a: seq<JString>, b: seq<JString>): (k: nat)
    ensures k <= |a| && k <= |b|
    ensures a[..k] == b[..k]
    ensures k < |a| && k < |b| ==> a[k] != b[k]
  {
    if a == [] || b == [] || a[0] != b[0] then 0
    else
      var k := 1 + CommonPrefixLength(a[1..], b[1..]);
      assert a[..k] == [a[0]] + a[1..][..k - 1];
      assert b[..k] == [b[0]] + b[1..][..k - 1];
      k
  }

  /** The segment "..". */
  function DotDot(): JString
  {
    ['.' as int, '.' as int]
  }

  /**
   * The path relativize(StringPath) returns: `p` itself for null; the rest
   * of `other` when it starts with `p`; otherwise one ".." per segment of `p`
   * past the common prefix, followed by the rest of `other`.
   */
  function Relative(p: Path, other: Option<Path>): (r: Path)
    ensures other.None? ==> r == p
    ensures other.Some? ==> !r.startsWithSlash
    // a path relative to itself is empty; one below `p` is relative by the segments past `p`
    ensures other == Some(p) ==> r == Empty
    ensures other.Some? && HasPrefix(other.value, Some(p)) ==> other.value.segments == p.segments + r.segments
  {
    if other.None? then p
    else
      var ta, oa := p.segments, other.value.segments;
      if HasPrefix(other.value, Some(p)) then Path(false, oa[|ta|..])
      else
        var k := CommonPrefixLength(oa, ta);
        Path(false, Repeat(DotDot(), |ta| - k) + oa[k..])
  }

  /** relativize(StringPath), with its common-prefix loop and its copies. */
  method Relativize(p: Path, other: Option<Path>) returns (r: Path)
    ensures r == Relative(p, other)
  {
    if other.None? {
      return p;
    }
    var ta, oa := p.segments, other.value.segments;
    var prefixed := StartsWith(other.value, Some(p));
    if prefixed {
      var sub := Sub(other.value, |ta|, |oa|);
      return sub.value;
    }
    var minLen := if |oa| < |ta| then |oa| else |ta|;
    var i := 0;
    while i < minLen && oa[i] == ta[i]
      invariant 0 <= i <= minLen
      invariant oa[..i] == ta[..i]
    {
      assert oa[..i + 1] == oa[..i] + [oa[i]];
      assert ta[..i + 1] == ta[..i] + [ta[i]];
      i := i + 1;
    }
    ghost var common := CommonPrefixLength(oa, ta);
    if i < common {
      EqualPrefixAt(oa, ta, common, i);
    } else if common < i {
      EqualPrefixAt(oa, ta, i, common);
    }
    var relative: seq<JString> := [];
    for j := 0 to |ta| - i
      invariant relative == Repeat(DotDot(), j)
    {
      RepeatSnoc(DotDot(), j);
      relative := relative + [DotDot()];
    }
    relative := relative + oa[i..];
    r := Path(false, relative);
  }

  lemma {:induction false} EqualPrefixAt(a: seq<JString>, b: seq<JString>, n: nat, i: nat)
    requires n <= |a| && n <= |b| && a[..n] == b[..n] && i < n
    ensures a[i] == b[i]
  {
    assert a[..n][i] == b[..n][i];
  }

  lemma {:induction false} RepeatSnoc<T>(x: T, n: nat)
    ensures Repeat(x, n + 1) == Repeat(x, n) + [x]
  {
  }

  /** resolve(StringPath): an absolute argument as it is, else its segments rescanned onto `p`. */
  function Resolve(p: Path, other: Path): (r: Result<Path>)
    ensures other.startsWithSlash ==> r == Ok(other)
    ensures !other.startsWithSlash && other.segments == [] ==> r == Ok(p)
  {
    FlattenSingle(other.segments);
    if other.startsWithSlash then Ok(other) else Of(PathRoot(p), other.segments)
  }

  /** resolve(String) */
  function ResolveText(p: Path, text: JString): Result<Path>
  {
    match OfText(text)
    case Err(x) => Err(x)
    case Ok(other) => Resolve(p, other)
  }

  /** concat(StringPath): the argument's segments rescanned onto `p`, whatever its flag. */
  function Concat(p: Path, other: Path): (r: Result<Path>)
    ensures other.segments == [] ==> r == Ok(p)
  {
    FlattenSingle(other.segments);
    Build(PathRoot(p), [other.segments])
  }

  /** concat(String): the text scanned as one fragment onto `p`. */
  function ConcatText(p: Path, text: JString): Result<Path>
  {
    Build(PathRoot(p), [[text]])
  }

  /** relativize(String) */
  function RelativeText(p: Path, text: JString): Result<Path>
  {
    match OfText(text)
    case Err(x) => Err(x)
    case Ok(other) => Ok(Relative(p, Some(other)))
  }

  /** startsWith(String) */
  function StartsWithText(p: Path, text: JString): Result<bool>
  {
    match OfText(text)
    case Err(x) => Err(x)
    case Ok(other) => Ok(HasPrefix(p, Some(other)))
  }

  /** endsWith(String) */
  function EndsWithText(p: Path, text: JString): Result<bool>
  {
    match OfText(text)
    case Err(x) => Err(x)
    case Ok(other) => Ok(HasSuffix(p, Some(other)))
  }

  /** equals(Object): the same flag and the same segments, compared from the last one. */
  method EqualsPath(p: Path, o: Option<Path>) returns (r: bool)
    ensures r <==> o == Some(p)
  {
    if o.None? {
      return false;
    }
    var other := o.value;
    if other.startsWithSlash != p.startsWithSlash {
      return false;
    }
    if |p.segments| != |other.segments| {
      return false;
    }
    var i := |p.segments| - 1;
    while i >= 0
      invariant -1 <= i < |p.segments|
      invariant forall k | i < k < |p.segments| :: p.segments[k] == other.segments[k]
    {
      if p.segments[i] != other.segments[i] {
        return false;
      }
      i := i - 1;
    }
    assert p.segments == other.segments;
    return true;
  }

  /** Two paths with the same flag whose segments are pairwise equal ignoring case. */
  predicate SameIgnoringCase(p: Path, q: Path)
  {
    p.startsWithSlash == q.startsWithSlash && |p.segments| == |q.segments|
    && forall i | 0 <= i < |p.segments| :: EqualsIgnoreCase(p.segments[i], q.segments[i])
  }

  /** equalsIgnoreCase(Object) */
  method EqualsIgnoringCase(p: Path, o: Option<Path>) returns (r: bool)
    ensures r <==> o.Some? && SameIgnoringCase(p, o.value)
  {
    if o.None? {
      return false;
    }
    var other := o.value;
    if other.startsWithSlash != p.startsWithSlash {
      return false;
    }
    if |p.segments| != |other.segments| {
      return false;
    }
    var i := |p.segments| - 1;
    while i >= 0
      invariant -1 <= i < |p.segments|
      invariant forall k | i < k < |p.segments| :: EqualsIgnoreCase(p.segments[k], other.segments[k])
    {
      if !EqualsIgnoreCase(p.segments[i], other.segments[i]) {
        return false;
      }
      i := i - 1;
    }
    return true;
  }

  /** The hash of one segment: h = 31 * h + c over its characters, upper case folded to lower, in 32-bit arithmetic. */
  function SegmentHash(s: JString): (r: Bits32)
    ensures s == [] ==> r == 0
    ensures |s| == 1 ==> r == ToLower(s[0])
  {
    if s == [] then 0
    else HashStep(SegmentHash(s[..|s| - 1]), ToLower(s[|s| - 1]))
  }

  /** hashCode() as a value: r = 31 * r + h over the segment hashes; the flag does not take part. */
  function PathHash(segments: seq<JString>): Bits32
  {
    if segments == [] then 0
    else HashStep(PathHash(segments[..|segments| - 1]), SegmentHash(segments[|segments| - 1]))
  }

  /** hashCode(), with its two loops. */
  method HashCode(p: Path) returns (r: Bits32)
    ensures r == PathHash(p.segments)
  {
    r := 0;
    for k := 0 to |p.segments|
      invariant r == PathHash(p.segments[..k])
    {
      var h := HashSegment(p.segments[k]);
      PathHashStep(p.segments, k);
      r := HashStep(r, h);
    }
    assert p.segments[..|p.segments|] == p.segments;
  }

  /** The inner loop of hashCode() over one segment. */
  method HashSegment(e: JString) returns (h: Bits32)
    ensures h == SegmentHash(e)
  {
    h := 0;
    for i := 0 to |e|
      invariant h == SegmentHash(e[..i])
    {
      var ch := e[i];
      SegmentHashStep(e, i);
      if IsAsciiUpper(ch) {
        h := HashStep(h, ToLower(ch));
      } else {
        h := HashStep(h, ch);
      }
    }
    assert e[..|e|] == e;
  }

  lemma {:induction false} SegmentHashStep(e: JString, i: nat)
    requires i < |e|
    ensures SegmentHash(e[..i + 1]) == HashStep(SegmentHash(e[..i]), ToLower(e[i]))
  {
    assert e[..i + 1][..i] == e[..i];
  }

  lemma {:induction false} PathHashStep(segments: seq<JString>, k: nat)
    requires k < |segments|
    ensures PathHash(segments[..k + 1]) == HashStep(PathHash(segments[..k]), SegmentHash(segments[k]))
  {
    assert segments[..k + 1][..k] == segments[..k];
  }

  /** The segments joined by '/'. */
  function Join(segments: seq<JString>): JString
  {
    if segments == [] then []
    else if |segments| == 1 then segments[0]
    else segments[0] + ['/' as int] + Join(segments[1..])
  }

  /** Each segment followed by '/', as the builder of toString() accumulates them. */
  function JoinTrailing(segments: seq<JString>): JString
  {
    if segments == [] then [] else segments[0] + ['/' as int] + JoinTrailing(segments[1..])
  }

  /** The string toString() returns: the builder's text with its last character removed when it is not empty. */
  function ToStringAsWritten(p: Path): (r: JString)
    ensures p.segments == [] ==> r == []
    ensures |p.segments| == 1 ==> r == (if p.startsWithSlash then ['/' as int] else []) + p.segments[0]
  {
    assert |p.segments| == 1 ==> JoinTrailing(p.segments) == p.segments[0] + ['/' as int] by {
      if |p.segments| == 1 {
        assert p.segments[1..] == [];
      }
    }
    var sb := (if p.startsWithSlash then ['/' as int] else []) + JoinTrailing(p.segments);
    if |sb| != 0 then sb[..|sb| - 1] else sb
  }

  /** The string form the documentation describes: an optional leading '/', then the segments joined by '/'. */
  function PathString(p: Path): (r: JString)
    ensures p.startsWithSlash ==> |r| > 0 && r[0] == '/' as int
    ensures p.segments == [] ==> (r == [] <==> !p.startsWithSlash)
    ensures |p.segments| == 1 ==> r == (if p.startsWithSlash then ['/' as int] else []) + p.segments[0]
  {
    (if p.startsWithSlash then ['/' as int] else []) + Join(p.segments)
  }

  /** toString(), with its builder loop. */
  method ToString(p: Path) returns (r: JString)
    ensures r == ToStringAsWritten(p)
  {
    var sb: JString := if p.startsWithSlash then ['/' as int] else [];
    ghost var head := sb;
    for k := 0 to |p.segments|
      invariant sb == head + JoinTrailing(p.segments[..k])
    {
      var piece := p.segments[k] + ['/' as int];
      JoinTrailingStep(p.segments, k);
      AppendAssoc(head, JoinTrailing(p.segments[..k]), piece);
      sb := sb + piece;
    }
    assert p.segments[..|p.segments|] == p.segments;
    if |sb| != 0 {
      sb := sb[..|sb| - 1];
    }
    r := sb;
  }

  lemma {:induction false} JoinTrailingStep(segments: seq<JString>, k: nat)
    requires k < |segments|
    ensures JoinTrailing(segments[..k + 1]) == JoinTrailing(segments[..k]) + (segments[k] + ['/' as int])
  {
    assert segments[..k + 1] == segments[..k] + [segments[k]];
    JoinTrailingSnoc(segments[..k], segments[k]);
  }

  lemma {:induction false} AppendAssoc(a: JString, b: JString, c: JString)
    ensures a + b + c == a + (b + c)
  {
  }

  lemma {:induction false} JoinTrailingSnoc(segments: seq<JString>, s: JString)
    ensures JoinTrailing(segments + [s]) == JoinTrailing(segments) + s + ['/' as int]
    decreases |segments|
  {
    if segments == [] {
      assert [] + [s] == [s];
    } else {
      assert (segments + [s])[1..] == segments[1..] + [s];
      JoinTrailingSnoc(segments[1..], s);
    }
  }
}
