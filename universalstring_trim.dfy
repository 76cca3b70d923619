// UniversalString, part 2: calculateTrimBounds, which moves the two cells
// of a bound array towards each other, the trim overloads built on it,
// trimming by a list of target texts, and asCodepoints with its
// replacement table.

module UniversalStringTrim {
  import opened JavaText
  import opened IndexBounds
  import opened UniversalString

  // ------------------------------------------------- calculateTrimBounds

  /** One side of calculateTrimBounds: an IntUnaryOperator skipper, or null. */
  type Skipper = Option<int -> int>

  /**
   * The loop state of calculateTrimBounds: bound[0], bound[1] and the two
   * bits of `tag` (0b01 while the leading side is active, 0b10 while the
   * trailing side is).
   */
  datatype TrimState = TrimState(lo: int, hi: int, leadOn: bool, trailOn: bool)

  /** Only a side with a skipper is ever active. */
  predicate Consistent(s: TrimState, lead: Skipper, trail: Skipper)
  {
    (s.leadOn ==> lead.Some?) && (s.trailOn ==> trail.Some?)
  }

  /** A side that has stopped did so because its skipper declined at the bound it left in place. */
  predicate Declined(s: TrimState, lead: Skipper, trail: Skipper)
  {
    (lead.Some? && !s.leadOn ==> lead.value(s.lo) <= 0)
    && (trail.Some? && !s.trailOn ==> trail.value(s.hi - 1) <= 0)
  }

  /** The active sides plus the width still open: the loop's termination measure. */
  function Measure(s: TrimState): nat
  {
    (if s.leadOn then 1 else 0) + (if s.trailOn then 1 else 0) + (if s.lo < s.hi then s.hi - s.lo else 0)
  }

  /**
   * One pass of the loop body: the leading side asks its skipper at bound[0]
   * and moves on a positive answer or stops; then, in the same pass and
   * without looking at the bounds again, the trailing side does the same at
   * bound[1] - 1.
   */
  function Turn(s: TrimState, lead: Skipper, trail: Skipper): (r: TrimState)
    requires Consistent(s, lead, trail)
    ensures Consistent(r, lead, trail)
    ensures r.lo >= s.lo && r.hi <= s.hi
    ensures (s.leadOn || s.trailOn) && s.lo < s.hi ==> Measure(r) < Measure(s)
    ensures Declined(s, lead, trail) ==> Declined(r, lead, trail)
    ensures (lead.Some? ==> lead.value(s.lo) <= 0) ==> r.lo == s.lo
    ensures (trail.Some? ==> trail.value(s.hi - 1) <= 0) ==> r.hi == s.hi
  {
    var s1 := if lead.Some? && s.leadOn then
                var i := lead.value(s.lo);
                if i > 0 then s.(lo := s.lo + i) else s.(leadOn := false)
              else s;
    if trail.Some? && s1.trailOn then
      var i := trail.value(s1.hi - 1);
      if i > 0 then s1.(hi := s1.hi - i) else s1.(trailOn := false)
    else s1
  }

  /** The loop: passes are made while some side is active and bound[0] < bound[1]. */
  function Run(s: TrimState, lead: Skipper, trail: Skipper): (r: TrimState)
    requires Consistent(s, lead, trail)
    ensures Consistent(r, lead, trail)
    decreases Measure(s)
  {
    if (s.leadOn || s.trailOn) && s.lo < s.hi then Run(Turn(s, lead, trail), lead, trail) else s
  }

  /** What the loop guarantees: the bounds only close in, it ends stopped or crossed, and a stopped side declined where it stands. */
  lemma {:induction false} RunProperties(s: TrimState, lead: Skipper, trail: Skipper)
    requires Consistent(s, lead, trail)
    ensures var r := Run(s, lead, trail);
      && r.lo >= s.lo && r.hi <= s.hi
      && (!(r.leadOn || r.trailOn) || r.lo >= r.hi)
      && (Declined(s, lead, trail) ==> Declined(r, lead, trail))
    decreases Measure(s)
  {
    if (s.leadOn || s.trailOn) && s.lo < s.hi {
      RunProperties(Turn(s, lead, trail), lead, trail);
    }
  }

  /** A side whose skipper declines at its starting bound never moves. */
  lemma {:induction false} RunKeepsDecliningSides(s: TrimState, lead: Skipper, trail: Skipper)
    requires Consistent(s, lead, trail)
    ensures (lead.Some? ==> lead.value(s.lo) <= 0) ==> Run(s, lead, trail).lo == s.lo
    ensures (trail.Some? ==> trail.value(s.hi - 1) <= 0) ==> Run(s, lead, trail).hi == s.hi
    decreases Measure(s)
  {
    if (s.leadOn || s.trailOn) && s.lo < s.hi {
      var t := Turn(s, lead, trail);
      RunKeepsDecliningSides(t, lead, trail);
    }
  }

  /**
   * What calculateTrimBounds(bound, lead, trail) returns for bound = {lo, hi}:
   * every non-null skipper starts active, a null side never moves, and
   * when the result is non-empty each skipper declines at its final bound.
   */
  function TrimBounds(lo: int, hi: int, lead: Skipper, trail: Skipper): (r: Bounds)
    ensures r.startInclusive >= lo && r.endExclusive <= hi
    ensures lead.None? ==> r.startInclusive == lo
    ensures trail.None? ==> r.endExclusive == hi
    ensures r.startInclusive < r.endExclusive ==>
              (lead.Some? ==> lead.value(r.startInclusive) <= 0)
              && (trail.Some? ==> trail.value(r.endExclusive - 1) <= 0)
  {
    var s := TrimState(lo, hi, lead.Some?, trail.Some?);
    RunProperties(s, lead, trail);
    RunKeepsDecliningSides(s, lead, trail);
    var f := Run(s, lead, trail);
    Bounds(f.lo, f.hi)
  }

  /** calculateTrimBounds(int[] bound, lead, trail): moves bound[0] and bound[1] in place and returns them as an IndexBounds. */
  method CalculateTrimBounds(bound: array<int>, lead: Skipper, trail: Skipper) returns (r: Bounds)
    requires bound.Length >= 2
    modifies bound
    ensures r == TrimBounds(old(bound[0]), old(bound[1]), lead, trail)
    ensures bound[0] == r.startInclusive && bound[1] == r.endExclusive
    ensures forall k | 2 <= k < bound.Length :: bound[k] == old(bound[k])
  {
    ghost var s0 := TrimState(bound[0], bound[1], lead.Some?, trail.Some?);
    var leadOn, trailOn := lead.Some?, trail.Some?;
    while (leadOn || trailOn) && bound[0] < bound[1]
      invariant Consistent(TrimState(bound[0], bound[1], leadOn, trailOn), lead, trail)
      invariant Run(TrimState(bound[0], bound[1], leadOn, trailOn), lead, trail) == Run(s0, lead, trail)
      invariant forall k | 2 <= k < bound.Length :: bound[k] == old(bound[k])
      decreases Measure(TrimState(bound[0], bound[1], leadOn, trailOn))
    {
      leadOn, trailOn := TrimPass(bound, lead, trail, leadOn, trailOn);
    }
    r := Bounds(bound[0], bound[1]);
  }

  /** One pass of the calculateTrimBounds loop on the array cells: the leading side, then the trailing side. */
  method TrimPass(bound: array<int>, lead: Skipper, trail: Skipper, leadOn: bool, trailOn: bool) returns (leadOn': bool, trailOn': bool)
    requires bound.Length >= 2
    requires Consistent(TrimState(bound[0], bound[1], leadOn, trailOn), lead, trail)
    modifies bound
    ensures TrimState(bound[0], bound[1], leadOn', trailOn') == Turn(old(TrimState(bound[0], bound[1], leadOn, trailOn)), lead, trail)
    ensures forall k | 2 <= k < bound.Length :: bound[k] == old(bound[k])
  {
    leadOn', trailOn' := leadOn, trailOn;
    if lead.Some? && leadOn {
      var i := lead.value(bound[0]);
      if i > 0 {
        bound[0] := bound[0] + i;
      } else {
        leadOn' := false;
      }
    }
    if trail.Some? && trailOn {
      var i := trail.value(bound[1] - 1);
      if i > 0 {
        bound[1] := bound[1] - i;
      } else {
        trailOn' := false;
      }
    }
  }

  // ---------------------------------------------- skippers over a text

  /** `f` on one side when that side is trimmed, null otherwise (the `isTrimLeading ? skipper : null` of the source). */
  function Side(on: bool, f: int -> int): Skipper
  {
    if on then Some(f) else None
  }

  /** A trim condition that was not given falls back to Character.isWhitespace. */
  function Condition(cond: Option<int -> bool>): int -> bool
  {
    if cond.Some? then cond.value else c => IsJavaWhitespace(c)
  }

  /**
   * The skipper of trim(char[]) and trim(int[]): 1 when the condition holds
   * of the element at i, else 0. (The source indexes the array directly; the
   * loop only ever asks inside it, so the range guard never decides.)
   */
  function UnitSkipper(input: seq<int>, p: int -> bool): int -> int
  {
    i => if 0 <= i < |input| && p(input[i]) then 1 else 0
  }

  /**
   * The skipper calculateTrimBounds(CharSequence, ...) builds for one side:
   * the width of the code point that starts at i when the condition holds of
   * it, else 0. It is built for both sides even when a condition is null, and
   * then always declines. On the trailing side the code point read at
   * bound[1] - 1 is a lone low surrogate when the text ends in a pair, so a
   * supplementary character is never trimmed from the end.
   */
  function CodePointSkipper(input: JString, cond: Option<int -> bool>): int -> int
  {
    i => if 0 <= i < |input| && cond.Some? && cond.value(CodePointAt(input, i)) then CharCount(CodePointAt(input, i)) else 0
  }

  /** calculateTrimBounds(input, trimLeading, trimTrailing) over the whole of a text. */
  function CodePointTrimBounds(input: JString, lead: Option<int -> bool>, trail: Option<int -> bool>): (r: Bounds)
    ensures 0 <= r.startInclusive && r.endExclusive <= |input|
    ensures lead.None? ==> r.startInclusive == 0
    ensures trail.None? ==> r.endExclusive == |input|
    ensures r.startInclusive < r.endExclusive ==>
              (lead.Some? ==> !lead.value(CodePointAt(input, r.startInclusive)))
              && (trail.Some? ==> !trail.value(CodePointAt(input, r.endExclusive - 1)))
  {
    var f, g := CodePointSkipper(input, lead), CodePointSkipper(input, trail);
    var s := TrimState(0, |input|, true, true);
    RunKeepsDecliningSides(s, Some(f), Some(g));
    TrimBounds(0, |input|, Some(f), Some(g))
  }

  /** A text whose first and last code points are not trimmed keeps its whole extent. */
  lemma {:induction false} NothingToTrim(input: JString, lead: Option<int -> bool>, trail: Option<int -> bool>)
    requires |input| > 0
    requires lead.Some? ==> !lead.value(CodePointAt(input, 0))
    requires trail.Some? ==> !trail.value(CodePointAt(input, |input| - 1))
    ensures CodePointTrimBounds(input, lead, trail) == Bounds(0, |input|)
    ensures Kept(input, CodePointTrimBounds(input, lead, trail)) == input
  {
    var f, g := CodePointSkipper(input, lead), CodePointSkipper(input, trail);
    var s := TrimState(0, |input|, true, true);
    RunKeepsDecliningSides(s, Some(f), Some(g));
    RunProperties(s, Some(f), Some(g));
    assert input[0..|input|] == input;
  }

  /** calculateTrimBounds(CharSequence input, trimLeading, trimTrailing): a fresh bound array {0, length}. */
  method CalculateTrimBoundsOf(input: JString, lead: Option<int -> bool>, trail: Option<int -> bool>) returns (r: Bounds)
    ensures r == CodePointTrimBounds(input, lead, trail)
  {
    var bound := new int[2];
    bound[0], bound[1] := 0, |input|;
    r := CalculateTrimBounds(bound, Some(CodePointSkipper(input, lead)), Some(CodePointSkipper(input, trail)));
  }

  // ---------------------------------------------- reference definitions

  /** `s` without its longest prefix of elements satisfying `p`. */
  function DropWhile(p: int -> bool, s: seq<int>): (r: seq<int>)
    ensures |r| <= |s|
  {
    if s == [] || !p(s[0]) then s else DropWhile(p, s[1..])
  }

  /** `s` without its longest suffix of elements satisfying `p`. */
  function DropLastWhile(p: int -> bool, s: seq<int>): (r: seq<int>)
    ensures |r| <= |s|
  {
    if s == [] || !p(s[|s| - 1]) then s else DropLastWhile(p, s[..|s| - 1])
  }

  /** Trimming by an element condition: the leading and/or trailing run of elements satisfying it removed. */
  function Stripped(isLead: bool, isTrail: bool, p: int -> bool, s: seq<int>): (r: seq<int>)
    ensures |r| <= |s|
    ensures !isLead && !isTrail ==> r == s
    // what is left neither starts nor ends with an element satisfying `p`, on the sides trimmed
    ensures isLead && r != [] ==> !p(r[0])
    ensures isTrail && r != [] ==> !p(r[|r| - 1])
  {
    var t := if isLead then DropWhile(p, s) else s;
    DropWhileHead(p, s);
    DropLastWhileKeepsPrefix(p, t);
    if isTrail then DropLastWhile(p, t) else t
  }

  /** What DropWhile leaves does not start with an element satisfying `p`. */
  lemma {:induction false} DropWhileHead(p: int -> bool, s: seq<int>)
    ensures DropWhile(p, s) != [] ==> !p(DropWhile(p, s)[0])
    decreases |s|
  {
    if s != [] && p(s[0]) {
      DropWhileHead(p, s[1..]);
    }
  }

  /** What DropLastWhile leaves is a prefix that does not end with an element satisfying `p`. */
  lemma {:induction false} DropLastWhileKeepsPrefix(p: int -> bool, s: seq<int>)
    ensures var r := DropLastWhile(p, s); r == s[..|r|] && (r != [] ==> !p(r[|r| - 1]))
    decreases |s|
  {
    if s != [] && p(s[|s| - 1]) {
      var t := s[..|s| - 1];
      DropLastWhileKeepsPrefix(p, t);
      var r := DropLastWhile(p, t);
      assert t[..|r|] == s[..|r|];
    } else {
      assert s[..|s|] == s;
    }
  }

  lemma {:induction false} DropWhileAt(p: int -> bool, s: seq<int>, k: int)
    requires 0 <= k <= |s|
    requires forall j | 0 <= j < k :: p(s[j])
    requires k == |s| || !p(s[k])
    ensures DropWhile(p, s) == s[k..]
  {
    if k > 0 {
      assert p(s[0]);
      DropWhileAt(p, s[1..], k - 1);
      assert s[1..][k - 1..] == s[k..];
    }
  }

  lemma {:induction false} DropLastWhileAt(p: int -> bool, s: seq<int>, k: int)
    requires 0 <= k <= |s|
    requires forall j | k <= j < |s| :: p(s[j])
    requires k == 0 || !p(s[k - 1])
    ensures DropLastWhile(p, s) == s[..k]
  {
    if k < |s| {
      assert p(s[|s| - 1]);
      var t := s[..|s| - 1];
      forall j | k <= j < |t|
        ensures p(t[j])
      {
        assert t[j] == s[j];
      }
      assert k > 0 ==> t[k - 1] == s[k - 1];
      DropLastWhileAt(p, t, k);
      assert t[..k] == s[..k];
    } else {
      assert s[..k] == s;
    }
  }

  // --------------------------------------- trimming a unit at a time

  /** The invariant of the loop when each skip is one element that satisfies `p`. */
  predicate UnitInv(s: seq<int>, p: int -> bool, isLead: bool, isTrail: bool, st: TrimState)
  {
    && 0 <= st.lo <= |s| && 0 <= st.hi <= |s|
    && (forall k | 0 <= k < st.lo :: p(s[k]))
    && (forall k | st.hi <= k < |s| :: p(s[k]))
    && (!isLead ==> st.lo == 0 && !st.leadOn)
    && (!isTrail ==> st.hi == |s| && !st.trailOn)
    && (isLead && !st.leadOn && st.lo < st.hi ==> !p(s[st.lo]))
    && (isTrail && !st.trailOn && st.lo < st.hi ==> !p(s[st.hi - 1]))
  }

  /** Skippers that agree with the unit skipper inside the text. */
  predicate IsUnitSkipper(s: seq<int>, p: int -> bool, f: int -> int)
  {
    forall i | 0 <= i < |s| :: f(i) == (if p(s[i]) then 1 else 0)
  }

  lemma {:induction false} UnitTurn(s: seq<int>, p: int -> bool, f: int -> int, isLead: bool, isTrail: bool, st: TrimState)
    requires IsUnitSkipper(s, p, f)
    requires Consistent(st, Side(isLead, f), Side(isTrail, f))
    requires UnitInv(s, p, isLead, isTrail, st)
    requires (st.leadOn || st.trailOn) && st.lo < st.hi
    ensures UnitInv(s, p, isLead, isTrail, Turn(st, Side(isLead, f), Side(isTrail, f)))
  {
  }

  lemma {:induction false} UnitRun(s: seq<int>, p: int -> bool, f: int -> int, isLead: bool, isTrail: bool, st: TrimState)
    requires IsUnitSkipper(s, p, f)
    requires Consistent(st, Side(isLead, f), Side(isTrail, f))
    requires UnitInv(s, p, isLead, isTrail, st)
    ensures var r := Run(st, Side(isLead, f), Side(isTrail, f));
      UnitInv(s, p, isLead, isTrail, r) && (!(r.leadOn || r.trailOn) || r.lo >= r.hi)
    decreases Measure(st)
  {
    if (st.leadOn || st.trailOn) && st.lo < st.hi {
      UnitTurn(s, p, f, isLead, isTrail, st);
      UnitRun(s, p, f, isLead, isTrail, Turn(st, Side(isLead, f), Side(isTrail, f)));
    }
  }

  /** The final state of a unit-at-a-time loop, read as a slice, is the reference trim. */
  lemma {:induction false} UnitFinal(s: seq<int>, p: int -> bool, isLead: bool, isTrail: bool, r: TrimState)
    requires UnitInv(s, p, isLead, isTrail, r)
    requires !(r.leadOn || r.trailOn) || r.lo >= r.hi
    ensures (if r.lo >= r.hi then [] else s[r.lo..r.hi]) == Stripped(isLead, isTrail, p, s)
  {
    if r.lo >= r.hi {
      if isLead {
        DropWhileAt(p, s, |s|);
      } else if isTrail {
        DropLastWhileAt(p, s, 0);
      }
    } else {
      var t := if isLead then DropWhile(p, s) else s;
      if isLead {
        DropWhileAt(p, s, r.lo);
      }
      assert t == s[r.lo..];
      if isTrail {
        forall j | r.hi - r.lo <= j < |t|
          ensures p(t[j])
        {
          assert t[j] == s[r.lo + j];
        }
        assert t[r.hi - r.lo - 1] == s[r.hi - 1];
        DropLastWhileAt(p, t, r.hi - r.lo);
      }
      assert t[..r.hi - r.lo] == s[r.lo..r.hi];
    }
  }

  /** Trimming one element at a time by `p` removes exactly the leading and trailing runs that satisfy `p`. */
  lemma {:induction false} UnitTrimIsStripped(s: seq<int>, p: int -> bool, f: int -> int, isLead: bool, isTrail: bool)
    requires IsUnitSkipper(s, p, f)
    ensures var b := TrimBounds(0, |s|, Side(isLead, f), Side(isTrail, f));
      (if b.startInclusive >= b.endExclusive then [] else s[b.startInclusive..b.endExclusive]) == Stripped(isLead, isTrail, p, s)
  {
    var st := TrimState(0, |s|, isLead, isTrail);
    UnitRun(s, p, f, isLead, isTrail, st);
    UnitFinal(s, p, isLead, isTrail, Run(st, Side(isLead, f), Side(isTrail, f)));
  }

  // ------------------------------------------------------- trim overloads

  /** trim(char[] input, isTrimLeading, isTrimTrailing, trimCondition) */
  method TrimChars(input: Option<JString>, isLead: bool, isTrail: bool, cond: Option<int -> bool>) returns (r: JString)
    ensures UniversalString.IsEmpty(input) ==> r == []
    ensures input.Some? ==> r == Stripped(isLead, isTrail, Condition(cond), input.value)
  {
    if input.None? || |input.value| == 0 {
      return [];
    }
    var s := input.value;
    var p := Condition(cond);
    var f := UnitSkipper(s, p);
    var indexes := new int[2];
    indexes[0], indexes[1] := 0, |s|;
    var b := CalculateTrimBounds(indexes, Side(isLead, f), Side(isTrail, f));
    UnitTrimIsStripped(s, p, f, isLead, isTrail);
    if indexes[0] >= indexes[1] {
      return [];
    }
    return s[indexes[0]..indexes[1]];
  }

  /**
   * trim(int[] input, isTrimLeading, isTrimTrailing, trimCondition): the kept
   * code points become a String, and new String(int[], ...) throws
   * IllegalArgumentException for a value that is not a code point.
   */
  method TrimCodePointArray(input: Option<seq<int>>, isLead: bool, isTrail: bool, cond: Option<int -> bool>)
    returns (r: Result<JString>)
    ensures input.None? || |input.value| == 0 ==> r == Ok([])
    ensures input.Some? ==>
      var kept := Stripped(isLead, isTrail, Condition(cond), input.value);
      if forall k | 0 <= k < |kept| :: IsCodePoint(kept[k]) then r == Ok(EncodeAll(kept)) else r == Err(IllegalArgument)
  {
    if input.None? || |input.value| == 0 {
      return Ok([]);
    }
    var s := input.value;
    var p := Condition(cond);
    var f := UnitSkipper(s, p);
    var indexes := new int[2];
    indexes[0], indexes[1] := 0, |s|;
    var b := CalculateTrimBounds(indexes, Side(isLead, f), Side(isTrail, f));
    UnitTrimIsStripped(s, p, f, isLead, isTrail);
    if indexes[0] >= indexes[1] {
      return Ok([]);
    }
    var kept := s[indexes[0]..indexes[1]];
    if forall k | 0 <= k < |kept| :: IsCodePoint(kept[k]) {
      return Ok(EncodeAll(kept));
    }
    return Err(IllegalArgument);
  }

  /** The slice of `s` a bounds value keeps; empty when the bounds are empty. */
  function Kept(s: JString, b: Bounds): (r: JString)
    requires 0 <= b.startInclusive && b.endExclusive <= |s|
    ensures |r| == Length(b)
  {
    if b.startInclusive >= b.endExclusive then [] else s[b.startInclusive..b.endExclusive]
  }

  /** trim(CharSequence input, isTrimLeading, isTrimTrailing, trimCondition), trimming whole code points. */
  method Trim(input: Option<JString>, isLead: bool, isTrail: bool, cond: Option<int -> bool>) returns (r: JString)
    ensures UniversalString.IsEmpty(input) ==> r == []
    ensures !UniversalString.IsEmpty(input) ==>
      r == Kept(input.value, CodePointTrimBounds(input.value, SideCondition(isLead, cond), SideCondition(isTrail, cond)))
  {
    if input.None? || |input.value| == 0 {
      return [];
    }
    var b := CalculateTrimBoundsOf(input.value, SideCondition(isLead, cond), SideCondition(isTrail, cond));
    if IndexBounds.IsEmpty(b) {
      return [];
    }
    return input.value[b.startInclusive..b.endExclusive];
  }

  /** `isTrimLeading ? trimCondition : null`, the condition defaulting to Character.isWhitespace. */
  function SideCondition(on: bool, cond: Option<int -> bool>): Option<int -> bool>
  {
    if on then Some(Condition(cond)) else None
  }

  /** A text with no surrogate code unit: every code point is one unit. */
  predicate NoSurrogates(s: JString)
  {
    forall i | 0 <= i < |s| :: !IsHighSurrogate(s[i]) && !IsLowSurrogate(s[i])
  }

  /** On a text without surrogates, trimming by code points is the reference trim. */
  lemma {:induction false} TrimWithoutSurrogatesIsStripped(s: JString, isLead: bool, isTrail: bool, p: int -> bool)
    requires NoSurrogates(s)
    ensures Kept(s, CodePointTrimBounds(s, if isLead then Some(p) else None, if isTrail then Some(p) else None))
         == Stripped(isLead, isTrail, p, s)
  {
    var lead: Option<int -> bool> := if isLead then Some(p) else None;
    var trail: Option<int -> bool> := if isTrail then Some(p) else None;
    var f, g := CodePointSkipper(s, lead), CodePointSkipper(s, trail);
    var u := UnitSkipper(s, p);
    forall i | 0 <= i < |s|
      ensures f(i) == (if isLead then u(i) else 0) && g(i) == (if isTrail then u(i) else 0)
    {
      assert !IsPairAt(s, i);
      assert CodePointAt(s, i) == s[i] && CharCount(s[i]) == 1;
    }
    SameSkipsSameRun(s, TrimState(0, |s|, true, true), f, g, u, isLead, isTrail);
    UnitTrimIsStripped(s, p, u, isLead, isTrail);
  }

  /**
   * Always-present skippers that decline on an untrimmed side give the same
   * bounds as a null skipper there, when both agree with one unit skipper
   * inside the text.
   */
  lemma {:induction false} SameSkipsSameRun(s: JString, st: TrimState, f: int -> int, g: int -> int, u: int -> int, isLead: bool, isTrail: bool)
    requires st == TrimState(0, |s|, true, true)
    requires forall i | 0 <= i < |s| :: f(i) == (if isLead then u(i) else 0) && g(i) == (if isTrail then u(i) else 0)
    requires forall i | 0 <= i < |s| :: 0 <= u(i) <= 1
    ensures Run(st, Some(f), Some(g)).lo == Run(TrimState(0, |s|, isLead, isTrail), Side(isLead, u), Side(isTrail, u)).lo
    ensures Run(st, Some(f), Some(g)).hi == Run(TrimState(0, |s|, isLead, isTrail), Side(isLead, u), Side(isTrail, u)).hi
  {
    if |s| > 0 {
      var t := Turn(st, Some(f), Some(g));
      var t' := Turn(TrimState(0, |s|, isLead, isTrail), Side(isLead, u), Side(isTrail, u));
      assert t.lo == t'.lo && t.hi == t'.hi;
      assert t.leadOn == t'.leadOn && t.trailOn == t'.trailOn;
      SameSkipsRun(s, t, f, g, u, isLead, isTrail);
    }
  }

  /** After the first pass the present-but-declining skippers and the null ones run in lockstep. */
  lemma {:induction false} SameSkipsRun(s: JString, st: TrimState, f: int -> int, g: int -> int, u: int -> int, isLead: bool, isTrail: bool)
    requires forall i | 0 <= i < |s| :: f(i) == (if isLead then u(i) else 0) && g(i) == (if isTrail then u(i) else 0)
    requires forall i | 0 <= i < |s| :: 0 <= u(i) <= 1
    requires 0 <= st.lo && st.hi <= |s|
    requires Consistent(st, Side(isLead, u), Side(isTrail, u))
    ensures Run(st, Some(f), Some(g)) == Run(st, Side(isLead, u), Side(isTrail, u))
    decreases Measure(st)
  {
    if (st.leadOn || st.trailOn) && st.lo < st.hi {
      var t := Turn(st, Some(f), Some(g));
      assert t == Turn(st, Side(isLead, u), Side(isTrail, u));
      SameSkipsRun(s, t, f, g, u, isLead, isTrail);
    }
  }

  // ------------------------------------------------ trimming by targets

  /** The trims the target-list trim keeps: the non-null ones shorter than the input, in order. */
  function UsableTrims(trims: seq<Option<JString>>, n: int): (r: seq<JString>)
    ensures forall t :: t in r <==> Some(t) in trims && |t| < n
  {
    if trims == [] then []
    else (if trims[0].Some? && |trims[0].value| < n then [trims[0].value] else []) + UsableTrims(trims[1..], n)
  }

  /** Where the two loops compare a trim: at `pos` on the leading side, ending at `pos` on the trailing side. */
  function MatchPosition(pos: int, t: JString, trailing: bool): int
  {
    if trailing then pos - |t| else pos
  }

  /** regionMatches(ignoreCase, input, position, t, 0, t.length()) for one trim. */
  predicate TrimMatches(ignoreCase: bool, input: JString, pos: int, t: JString, trailing: bool)
  {
    Matches(ignoreCase, Some(input), MatchPosition(pos, t, trailing), Some(t), 0, |t|)
  }

  /** The first trim, from index j on, that matches: the inner `for` loop with its `break`. */
  function FirstMatch(ignoreCase: bool, input: JString, pos: int, trims: seq<JString>, trailing: bool, j: nat): (r: Option<nat>)
    requires j <= |trims|
    ensures r.Some? ==> j <= r.value < |trims| && TrimMatches(ignoreCase, input, pos, trims[r.value], trailing)
    decreases |trims| - j
  {
    if j == |trims| then None
    else if TrimMatches(ignoreCase, input, pos, trims[j], trailing) then Some(j)
    else FirstMatch(ignoreCase, input, pos, trims, trailing, j + 1)
  }

  /** No trim before the one found matches; when none is found, no trim from j on matches. */
  lemma {:induction false} FirstMatchIsFirst(ignoreCase: bool, input: JString, pos: int, trims: seq<JString>, trailing: bool, j: nat)
    requires j <= |trims|
    ensures var r := FirstMatch(ignoreCase, input, pos, trims, trailing, j);
      && (r.Some? ==> forall q | j <= q < r.value :: !TrimMatches(ignoreCase, input, pos, trims[q], trailing))
      && (r.None? ==> forall q | j <= q < |trims| :: !TrimMatches(ignoreCase, input, pos, trims[q], trailing))
    decreases |trims| - j
  {
    if j < |trims| && !TrimMatches(ignoreCase, input, pos, trims[j], trailing) {
      FirstMatchIsFirst(ignoreCase, input, pos, trims, trailing, j + 1);
    }
  }

  /** Where the leading loop leaves startInclusive: it stops at `end` or where no trim matches. */
  function LeadCut(ignoreCase: bool, input: JString, trims: seq<JString>, start: int, end: int): (r: int)
    requires 0 <= start
    ensures start <= r
    decreases end - start
  {
    if start >= end then start
    else match FirstMatch(ignoreCase, input, start, trims, false, 0)
      case None => start
      case Some(j) => LeadCut(ignoreCase, input, trims, start + |trims[j]|, end)
  }

  /** Where the trailing loop leaves endExclusive: it stops at `start` or where no trim ends. */
  function TrailCut(ignoreCase: bool, input: JString, trims: seq<JString>, start: int, end: int): (r: int)
    ensures r <= end
    decreases end - start
  {
    if start >= end then end
    else match FirstMatch(ignoreCase, input, end, trims, true, 0)
      case None => end
      case Some(j) => TrailCut(ignoreCase, input, trims, start, end - |trims[j]|)
  }

  /** Where the leading loop stops short of `end`, no trim matches. */
  lemma {:induction false} LeadCutStops(ignoreCase: bool, input: JString, trims: seq<JString>, start: int, end: int)
    requires 0 <= start
    ensures var r := LeadCut(ignoreCase, input, trims, start, end);
      r < end ==> forall q | 0 <= q < |trims| :: !TrimMatches(ignoreCase, input, r, trims[q], false)
    decreases end - start
  {
    if start < end {
      var f := FirstMatch(ignoreCase, input, start, trims, false, 0);
      if f.None? {
        FirstMatchIsFirst(ignoreCase, input, start, trims, false, 0);
      } else {
        LeadCutStops(ignoreCase, input, trims, start + |trims[f.value]|, end);
      }
    }
  }

  /** Where the trailing loop stops short of `start`, no trim ends there. */
  lemma {:induction false} TrailCutStops(ignoreCase: bool, input: JString, trims: seq<JString>, start: int, end: int)
    ensures var r := TrailCut(ignoreCase, input, trims, start, end);
      start < r ==> forall q | 0 <= q < |trims| :: !TrimMatches(ignoreCase, input, r, trims[q], true)
    decreases end - start
  {
    if start < end {
      var f := FirstMatch(ignoreCase, input, end, trims, true, 0);
      if f.None? {
        FirstMatchIsFirst(ignoreCase, input, end, trims, true, 0);
      } else {
        TrailCutStops(ignoreCase, input, trims, start, end - |trims[f.value]|);
      }
    }
  }

  /** The first usable trim that matches at `pos`, found by the `for` loop over the trims. */
  method FindTrim(ignoreCase: bool, input: JString, pos: int, trims: seq<JString>, trailing: bool) returns (r: Option<nat>)
    ensures r == FirstMatch(ignoreCase, input, pos, trims, trailing, 0)
  {
    for j := 0 to |trims|
      invariant FirstMatch(ignoreCase, input, pos, trims, trailing, 0) == FirstMatch(ignoreCase, input, pos, trims, trailing, j)
    {
      var t := trims[j];
      var m := RegionMatches(ignoreCase, Some(input), MatchPosition(pos, t, trailing), Some(t), 0, |t|);
      if m {
        return Some(j);
      }
    }
    return None;
  }

  /** One pass of the leading loop, in terms of LeadCut. */
  lemma {:induction false} LeadCutStep(ignoreCase: bool, s: JString, trims: seq<JString>, start: int, end: int, j: Option<nat>)
    requires 0 <= start < end
    requires j == FirstMatch(ignoreCase, s, start, trims, false, 0)
    ensures j.None? ==> LeadCut(ignoreCase, s, trims, start, end) == start
    ensures j.Some? ==> (j.value < |trims| && |trims[j.value]| > 0
                     && LeadCut(ignoreCase, s, trims, start, end) == LeadCut(ignoreCase, s, trims, start + |trims[j.value]|, end))
  {
  }

  /** One pass of the trailing loop, in terms of TrailCut. */
  lemma {:induction false} TrailCutStep(ignoreCase: bool, s: JString, trims: seq<JString>, start: int, end: int, j: Option<nat>)
    requires start < end
    requires j == FirstMatch(ignoreCase, s, end, trims, true, 0)
    ensures j.None? ==> TrailCut(ignoreCase, s, trims, start, end) == end
    ensures j.Some? ==> (j.value < |trims| && |trims[j.value]| > 0
                     && TrailCut(ignoreCase, s, trims, start, end) == TrailCut(ignoreCase, s, trims, start, end - |trims[j.value]|))
  {
  }

  /** One pass of the leading loop: the start after the first trim found there, or None when none matches. */
  method LeadPass(ignoreCase: bool, s: JString, trims: seq<JString>, start: int, end: int) returns (next: Option<int>)
    requires 0 <= start < end
    ensures next.None? ==> LeadCut(ignoreCase, s, trims, start, end) == start
    ensures next.Some? ==> start < next.value && LeadCut(ignoreCase, s, trims, start, end) == LeadCut(ignoreCase, s, trims, next.value, end)
  {
    var j := FindTrim(ignoreCase, s, start, trims, false);
    LeadCutStep(ignoreCase, s, trims, start, end, j);
    if j.None? {
      next := None;
    } else {
      var k := start + |trims[j.value]|;
      next := Some(k);
    }
  }

  /** One pass of the trailing loop: the end before the first trim found there, or None when none matches. */
  method TrailPass(ignoreCase: bool, s: JString, trims: seq<JString>, start: int, end: int) returns (next: Option<int>)
    requires start < end
    ensures next.None? ==> TrailCut(ignoreCase, s, trims, start, end) == end
    ensures next.Some? ==> next.value < end && TrailCut(ignoreCase, s, trims, start, end) == TrailCut(ignoreCase, s, trims, start, next.value)
  {
    var j := FindTrim(ignoreCase, s, end, trims, true);
    TrailCutStep(ignoreCase, s, trims, start, end, j);
    if j.None? {
      next := None;
    } else {
      var k := end - |trims[j.value]|;
      next := Some(k);
    }
  }

  /** The leading loop: strips the first matching trim from `start` on, as long as start < end. */
  method TrimLeading(ignoreCase: bool, s: JString, trims: seq<JString>, end: int) returns (start: int)
    ensures start == LeadCut(ignoreCase, s, trims, 0, end)
  {
    start := 0;
    ghost var cut := LeadCut(ignoreCase, s, trims, 0, end);
    while start < end
      invariant 0 <= start
      invariant LeadCut(ignoreCase, s, trims, start, end) == cut
      decreases end - start
    {
      var next := LeadPass(ignoreCase, s, trims, start, end);
      if next.None? {
        break;
      }
      start := next.value;
    }
  }

  /** The trailing loop: strips the first trim that ends at `end`, as long as start < end. */
  method TrimTrailing(ignoreCase: bool, s: JString, trims: seq<JString>, start: int, n: int) returns (end: int)
    ensures end == TrailCut(ignoreCase, s, trims, start, n)
  {
    end := n;
    ghost var cut := TrailCut(ignoreCase, s, trims, start, n);
    while start < end
      invariant TrailCut(ignoreCase, s, trims, start, end) == cut
      decreases end - start
    {
      var next := TrailPass(ignoreCase, s, trims, start, end);
      if next.None? {
        break;
      }
      end := next.value;
    }
  }

  /** The part of the target-list trim that runs once usable trims are known, as a function of the cuts. */
  function TrimmedByTargets(ignoreCase: bool, s: JString, isLead: bool, isTrail: bool, trims: seq<JString>): (r: JString)
    ensures |r| <= |s|
  {
    var a := if isLead then LeadCut(ignoreCase, s, trims, 0, |s|) else 0;
    var b := if isTrail then TrailCut(ignoreCase, s, trims, a, |s|) else |s|;
    if a >= b then [] else s[a..b]
  }

  /**
   * trim(ignoreCase, input, isTrimLeading, isTrimTrailing, trims...): when no
   * usable trim is left it trims Character.isWhitespace code points;
   * otherwise it strips matching trims from the front while start < end,
   * then from the back while start < end.
   */
  method TrimTargets(ignoreCase: bool, input: Option<JString>, isLead: bool, isTrail: bool,
                     trims: Option<seq<Option<JString>>>) returns (r: JString)
    ensures UniversalString.IsEmpty(input) ==> r == []
    ensures !UniversalString.IsEmpty(input) && (trims.None? || UsableTrims(trims.value, |input.value|) == []) ==>
      r == Kept(input.value, CodePointTrimBounds(input.value, SideCondition(isLead, None), SideCondition(isTrail, None)))
    ensures !UniversalString.IsEmpty(input) && trims.Some? && UsableTrims(trims.value, |input.value|) != [] ==>
      r == TrimmedByTargets(ignoreCase, input.value, isLead, isTrail, UsableTrims(trims.value, |input.value|))
  {
    if input.None? || |input.value| == 0 {
      return [];
    }
    var s := input.value;
    var n := |s|;
    if trims.None? || |trims.value| == 0 {
      r := Trim(input, isLead, isTrail, None);
      return;
    }
    var ts := UsableTrims(trims.value, n);
    if |ts| == 0 {
      r := Trim(input, isLead, isTrail, None);
      return;
    }
    var start, end := 0, n;
    if isLead {
      start := TrimLeading(ignoreCase, s, ts, n);
    }
    if isTrail {
      end := TrimTrailing(ignoreCase, s, ts, start, n);
    }
    if start >= end {
      return [];
    }
    return s[start..end];
  }

  // ---------------------------------------------------------- asCodepoints

  /** The code points the each(skipper) loop reads from i up to end: codePointAt at i, then a step of its width. */
  function CodePointsFrom(s: JString, i: int, end: int): (r: seq<int>)
    requires 0 <= i <= |s|
    ensures forall k | 0 <= k < |r| :: IsCodePoint(r[k])
    decreases end - i
  {
    if i >= end || i == |s| then []
    else [CodePointAt(s, i)] + CodePointsFrom(s, i + CharCount(CodePointAt(s, i)), end)
  }

  /** Decoding from a unit index is decoding the suffix there. */
  lemma {:induction false} CodePointsStep(s: JString, i: int)
    requires 0 <= i < |s|
    ensures i + CharCount(CodePointAt(s, i)) <= |s|
    ensures CodePoints(s[i..]) == [CodePointAt(s, i)] + CodePoints(s[i + CharCount(CodePointAt(s, i))..])
  {
    var t := s[i..];
    assert IsPairAt(t, 0) <==> IsPairAt(s, i);
    if IsPairAt(s, i) {
      assert t[2..] == s[i + 2..];
    } else {
      assert t[1..] == s[i + 1..];
    }
  }

  /** Over the whole text the each(skipper) loop reads exactly the text's code points. */
  lemma {:induction false} CodePointsFromSuffix(s: JString, i: int)
    requires 0 <= i <= |s|
    ensures CodePointsFrom(s, i, |s|) == CodePoints(s[i..])
    decreases |s| - i
  {
    if i < |s| {
      CodePointsStep(s, i);
      CodePointsFromSuffix(s, i + CharCount(CodePointAt(s, i)));
    }
  }

  /**
   * The replacement table of asCodepoints: the k-th code point of the
   * source maps to the k-th code point of the target, or to null once the
   * target has run out, and a later put overwrites an earlier one.
   */
  function Mapping(src: seq<int>, tgt: seq<int>): (m: map<int, Option<int>>)
    ensures forall c :: c in m <==> c in src
    decreases |src|
  {
    if src == [] then map[]
    else
      var k := |src| - 1;
      Mapping(src[..k], tgt)[src[k] := if k < |tgt| then Some(tgt[k]) else None]
  }

  /** A source code point maps to the target code point at the position of its last occurrence. */
  lemma {:induction false} MappingIsLastOccurrence(src: seq<int>, tgt: seq<int>, k: int)
    requires 0 <= k < |src|
    requires forall j | k < j < |src| :: src[j] != src[k]
    ensures Mapping(src, tgt)[src[k]] == if k < |tgt| then Some(tgt[k]) else None
    decreases |src|
  {
    var last := |src| - 1;
    if k < last {
      assert src[..last][k] == src[k];
      MappingIsLastOccurrence(src[..last], tgt, k);
    }
  }

  /** The table asCodepoints builds, or null when there is no replaceSource. */
  function MappingOf(replaceSource: Option<JString>, replaceTarget: Option<JString>): Option<map<int, Option<int>>>
  {
    if replaceSource.None? then None
    else Some(Mapping(CodePoints(replaceSource.value), if replaceTarget.Some? then CodePoints(replaceTarget.value) else []))
  }

  /** What the each(skipper) body adds for one code point: its replacement, nothing for a null replacement, or the code point itself. */
  function Replace(cps: seq<int>, m: Option<map<int, Option<int>>>): (r: seq<int>)
    ensures m.None? ==> r == cps
    ensures |r| <= |cps|
  {
    if cps == [] then []
    else
      var c := cps[0];
      (if m.Some? && c in m.value then (if m.value[c].Some? then [m.value[c].value] else []) else [c])
      + Replace(cps[1..], m)
  }

  lemma {:induction false} ReplaceAppend(a: seq<int>, b: seq<int>, m: Option<map<int, Option<int>>>)
    ensures Replace(a + b, m) == Replace(a, m) + Replace(b, m)
  {
    if a == [] {
      assert a + b == b;
    } else {
      assert (a + b)[1..] == a[1..] + b;
      ReplaceAppend(a[1..], b, m);
    }
  }

  /** One put into the table: the next source code point takes the target code point at the same position, if any. */
  lemma {:induction false} MappingSnoc(done: seq<int>, tgt: seq<int>, c: int)
    ensures Mapping(done + [c], tgt) == Mapping(done, tgt)[c := if |done| < |tgt| then Some(tgt[|done|]) else None]
  {
    assert (done + [c])[..|done|] == done;
  }

  lemma {:induction false} MoveHead(a: seq<int>, x: seq<int>, rest: seq<int>)
    ensures a + (x + rest) == (a + x) + rest
  {
  }

  /** Reading the code point at i of s, or nothing once i is at the end. */
  method NextCodePoint(s: JString, i: int) returns (c: Option<int>, next: int)
    requires 0 <= i <= |s|
    ensures i <= next <= |s|
    ensures i < |s| ==> c == Some(CodePointAt(s, i)) && next == i + CharCount(CodePointAt(s, i))
    ensures i == |s| ==> c.None? && next == i
    ensures CodePoints(s[i..]) == (if c.Some? then [c.value] else []) + CodePoints(s[next..])
  {
    if i < |s| {
      CodePointsStep(s, i);
      var cp := CodePointAt(s, i);
      c, next := Some(cp), i + CharCount(cp);
    } else {
      c, next := None, i;
      assert s[i..] == [];
    }
  }

  /** Builds the replacement table, walking replaceSource and replaceTarget one code point at a time. */
  method BuildMapping(replaceSource: JString, replaceTarget: Option<JString>) returns (m: map<int, Option<int>>)
    ensures m == Mapping(CodePoints(replaceSource), if replaceTarget.Some? then CodePoints(replaceTarget.value) else [])
  {
    var tgt: JString := if replaceTarget.Some? then replaceTarget.value else [];
    ghost var T := CodePoints(tgt);
    ghost var S := CodePoints(replaceSource);
    var sourceIndex, targetIndex := 0, 0;
    ghost var done: seq<int> := [];
    ghost var taken: seq<int> := [];
    m := map[];
    assert replaceSource[0..] == replaceSource && tgt[0..] == tgt;
    while sourceIndex < |replaceSource|
      invariant 0 <= sourceIndex <= |replaceSource| && 0 <= targetIndex <= |tgt|
      invariant done + CodePoints(replaceSource[sourceIndex..]) == S
      invariant taken + CodePoints(tgt[targetIndex..]) == T
      invariant |taken| == if |done| < |T| then |done| else |T|
      invariant m == Mapping(done, T)
      decreases |replaceSource| - sourceIndex
    {
      var sourceCodepoint, nextSource := NextCodePoint(replaceSource, sourceIndex);
      var targetCodepoint, nextTarget := NextCodePoint(tgt, targetIndex);
      assert targetCodepoint == if |done| < |T| then Some(T[|done|]) else None by {
        if targetCodepoint.Some? {
          assert T == (taken + [targetCodepoint.value]) + CodePoints(tgt[nextTarget..]);
        }
      }
      MappingSnoc(done, T, sourceCodepoint.value);
      m := m[sourceCodepoint.value := targetCodepoint];
      MoveHead(done, [sourceCodepoint.value], CodePoints(replaceSource[nextSource..]));
      done := done + [sourceCodepoint.value];
      if targetCodepoint.Some? {
        MoveHead(taken, [targetCodepoint.value], CodePoints(tgt[nextTarget..]));
        taken := taken + [targetCodepoint.value];
      } else {
        assert taken + [] == taken;
      }
      sourceIndex, targetIndex := nextSource, nextTarget;
    }
    assert replaceSource[sourceIndex..] == [];
    assert done + [] == done;
  }

  /** The each(skipper) loop of asCodepoints: every code point from start up to end, looked up in the table. */
  method ReplaceEach(s: JString, start: int, end: int, m: Option<map<int, Option<int>>>) returns (r: seq<int>)
    requires 0 <= start <= end <= |s|
    ensures r == Replace(CodePointsFrom(s, start, end), m)
  {
    ghost var all := Replace(CodePointsFrom(s, start, end), m);
    r := [];
    var i := start;
    ghost var remaining := CodePointsFrom(s, i, end);
    while i < end
      invariant start <= i <= |s|
      invariant remaining == CodePointsFrom(s, i, end)
      invariant r + Replace(remaining, m) == all
      decreases end - i
    {
      var value := CodePointAt(s, i);
      var skip := CharCount(value);
      ghost var rest := CodePointsFrom(s, i + skip, end);
      assert CodePointsFrom(s, i, end) == [value] + rest;
      ReplaceAppend([value], rest, m);
      ghost var piece := Replace([value], m);
      ghost var before := r;
      MoveHead(before, piece, Replace(rest, m));
      assert (before + piece) + Replace(rest, m) == all by {
        assert Replace([value] + rest, m) == piece + Replace(rest, m);
      }
      if m.Some? && value in m.value {
        var replacement := m.value[value];
        if replacement.Some? {
          r := r + [replacement.value];
        }
      } else {
        r := r + [value];
      }
      assert r == before + piece;
      i := i + skip;
      remaining := rest;
    }
    assert r + Replace(remaining, m) == r + [];
  }

  /**
   * asCodepoints(input, trimLeading, trimTrailing, replaceSource,
   * replaceTarget): the code points inside the trim bounds, each looked up
   * in the replacement table.
   */
  method AsCodepoints(input: Option<JString>, lead: Option<int -> bool>, trail: Option<int -> bool>,
                      replaceSource: Option<JString>, replaceTarget: Option<JString>) returns (r: seq<int>)
    ensures UniversalString.IsEmpty(input) ==> r == []
    ensures !UniversalString.IsEmpty(input) ==>
      var b := CodePointTrimBounds(input.value, lead, trail);
      r == if b.startInclusive >= b.endExclusive then []
           else Replace(CodePointsFrom(input.value, b.startInclusive, b.endExclusive), MappingOf(replaceSource, replaceTarget))
    ensures input.Some? && lead.None? && trail.None? && replaceSource.None? ==> r == CodePoints(input.value)
  {
    if input.None? || |input.value| == 0 {
      return [];
    }
    var s := input.value;
    var b := CalculateTrimBoundsOf(s, lead, trail);
    if IndexBounds.IsEmpty(b) {
      return [];
    }
    var m: Option<map<int, Option<int>>> := None;
    if replaceSource.Some? {
      var table := BuildMapping(replaceSource.value, replaceTarget);
      m := Some(table);
    }
    assert m == MappingOf(replaceSource, replaceTarget);
    r := ReplaceEach(s, b.startInclusive, b.endExclusive, m);
    if lead.None? && trail.None? && replaceSource.None? {
      CodePointsFromSuffix(s, 0);
      assert s[0..] == s;
    }
  }
}
