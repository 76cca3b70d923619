// similarDistance: the edit-distance table over the code points of two
// texts. The table filling of the library is a method over a 2-D array
// whose every cell is proved equal to a recursive definition of the cell;
// the properties of the distance are lemmas about that definition.
module UniversalStringDistance {
  import opened JavaText
  import UniversalString

  /** The two code point arrays and the comparison options of one call. */
  datatype Problem = Problem(ignoreCase: bool, a: seq<int>, b: seq<int>, ignored: Option<int -> bool>)

  /** Whether the ignore predicate is given and holds for one of the two code points before cell (i, j). */
  predicate Skipped(p: Problem, i: nat, j: nat)
    requires 0 < i <= |p.a| && 0 < j <= |p.b|
  {
    p.ignored.Some? && (p.ignored.value(p.a[i - 1]) || p.ignored.value(p.b[j - 1]))
  }

  /**
   * dp[i][j]: the distance between the first `i` code points of `a` and the
   * first `j` of `b`. An ignored pair takes the least neighbour at no cost,
   * an equal pair the diagonal, any other pair the least neighbour plus one.
   */
  function Dist(p: Problem, i: nat, j: nat): nat
    requires i <= |p.a| && j <= |p.b|
    decreases i + j
  {
    if i == 0 then j
    else if j == 0 then i
    else if Skipped(p, i, j) then
      Min(Min(Dist(p, i - 1, j), Dist(p, i, j - 1)), Dist(p, i - 1, j - 1))
    else if UniversalString.IsEqualsChar(p.ignoreCase, p.a[i - 1], p.b[j - 1]) then
      Dist(p, i - 1, j - 1)
    else
      Min(Min(Dist(p, i - 1, j), Dist(p, i, j - 1)), Dist(p, i - 1, j - 1)) + 1
  }

  /**
   * similarDistance(ignoreCase, input, target, ignored): with a null
   * argument, the other argument's length() in UTF-16 units (0 when both
   * are null); otherwise the table's last cell over the code points.
   */
  function Distance(ignoreCase: bool, input: Option<JString>, target: Option<JString>, ignored: Option<int -> bool>): nat
  {
    if input.None? && target.None? then 0
    else if input.None? then |target.value|
    else if target.None? then |input.value|
    else
      var p := Problem(ignoreCase, CodePoints(input.value), CodePoints(target.value), ignored);
      Dist(p, |p.a|, |p.b|)
  }

  /** similarDistance: the null checks, then the table over both code point arrays. */
  method SimilarDistance(ignoreCase: bool, input: Option<JString>, target: Option<JString>, ignored: Option<int -> bool>)
    returns (d: int)
    ensures d == Distance(ignoreCase, input, target, ignored)
  {
    if input.None? || target.None? {
      if input.None? && target.None? {
        d := 0;
      } else if input.None? {
        d := |target.value|;
      } else {
        d := |input.value|;
      }
      return;
    }
    var p := Problem(ignoreCase, CodePoints(input.value), CodePoints(target.value), ignored);
    var dp := FillTable(p);
    d := dp[|p.a|, |p.b|];
  }

  /** The cells before (i, j) in row order, with the first row and column, hold their distance. */
  ghost predicate Filled(p: Problem, dp: array2<int>, i: nat, j: nat)
    reads dp
    requires dp.Length0 == |p.a| + 1 && dp.Length1 == |p.b| + 1
  {
    forall i', j' | 0 <= i' <= |p.a| && 0 <= j' <= |p.b| && (i' == 0 || j' == 0 || i' < i || (i' == i && j' < j)) ::
      dp[i', j'] == Dist(p, i', j')
  }

  /** The dp table: both borders first, then the rows top to bottom, each left to right. */
  method FillTable(p: Problem) returns (dp: array2<int>)
    ensures fresh(dp)
    ensures dp.Length0 == |p.a| + 1 && dp.Length1 == |p.b| + 1
    ensures forall i, j | 0 <= i <= |p.a| && 0 <= j <= |p.b| :: dp[i, j] == Dist(p, i, j)
  {
    var m, n := |p.a|, |p.b|;
    dp := new int[m + 1, n + 1];
    for i := 0 to m + 1
      invariant forall i' | 0 <= i' < i :: dp[i', 0] == i'
    {
      dp[i, 0] := i;
    }
    for j := 0 to n + 1
      invariant forall i' | 0 <= i' <= m :: dp[i', 0] == i'
      invariant forall j' | 0 <= j' < j :: dp[0, j'] == j'
    {
      dp[0, j] := j;
    }
    for i := 1 to m + 1
      invariant Filled(p, dp, i, 1)
    {
      for j := 1 to n + 1
        invariant Filled(p, dp, i, j)
      {
        FillCell(p, dp, i, j);
      }
      assert Filled(p, dp, i + 1, 1);
    }
    assert Filled(p, dp, m + 1, 1);
  }

  /** One cell of the table, from its upper, left and diagonal neighbours. */
  method FillCell(p: Problem, dp: array2<int>, i: nat, j: nat)
    requires dp.Length0 == |p.a| + 1 && dp.Length1 == |p.b| + 1
    requires 0 < i <= |p.a| && 0 < j <= |p.b|
    requires Filled(p, dp, i, j)
    modifies dp
    ensures Filled(p, dp, i, j + 1)
  {
    var up, left, diagonal := dp[i - 1, j], dp[i, j - 1], dp[i - 1, j - 1];
    if p.ignored.Some? && (p.ignored.value(p.a[i - 1]) || p.ignored.value(p.b[j - 1])) {
      dp[i, j] := Min(Min(up, left), diagonal);
    } else if UniversalString.IsEqualsChar(p.ignoreCase, p.a[i - 1], p.b[j - 1]) {
      dp[i, j] := diagonal;
    } else {
      dp[i, j] := Min(Min(up, left), diagonal) + 1;
    }
  }

  // ------------------------------------------------------------ properties

  /** A text is at distance 0 from itself, whatever the options. */
  lemma {:induction false} DistSelf(p: Problem, i: nat)
    requires p.a == p.b && i <= |p.a|
    ensures Dist(p, i, i) == 0
  {
    if i > 0 {
      DistSelf(p, i - 1);
    }
  }

  /** The distance never exceeds the longer of the two prefixes. */
  lemma {:induction false} DistAtMostLonger(p: Problem, i: nat, j: nat)
    requires i <= |p.a| && j <= |p.b|
    ensures Dist(p, i, j) <= Max(i, j)
    decreases i + j
  {
    if i > 0 && j > 0 {
      DistAtMostLonger(p, i - 1, j - 1);
    }
  }

  /** Without an ignore predicate, the distance is at least the difference of the lengths. */
  lemma {:induction false} DistAtLeastGap(p: Problem, i: nat, j: nat)
    requires p.ignored.None? && i <= |p.a| && j <= |p.b|
    ensures Dist(p, i, j) >= i - j && Dist(p, i, j) >= j - i
    decreases i + j
  {
    if i > 0 && j > 0 {
      DistAtLeastGap(p, i - 1, j);
      DistAtLeastGap(p, i, j - 1);
      DistAtLeastGap(p, i - 1, j - 1);
    }
  }

  /** The problem with its two texts swapped. */
  function Swapped(p: Problem): (q: Problem)
    ensures q.a == p.b && q.b == p.a && q.ignoreCase == p.ignoreCase && q.ignored == p.ignored
  {
    p.(a := p.b, b := p.a)
  }

  /** The distance does not depend on which text is the input. */
  lemma {:induction false} DistSymmetric(p: Problem, i: nat, j: nat)
    requires i <= |p.a| && j <= |p.b|
    ensures Dist(p, i, j) == Dist(Swapped(p), j, i)
    decreases i + j
  {
    if i > 0 && j > 0 {
      var q := Swapped(p);
      DistSymmetric(p, i - 1, j);
      DistSymmetric(p, i, j - 1);
      DistSymmetric(p, i - 1, j - 1);
      var up, left, diagonal := Dist(p, i - 1, j), Dist(p, i, j - 1), Dist(p, i - 1, j - 1);
      assert Dist(q, j, i - 1) == up && Dist(q, j - 1, i) == left && Dist(q, j - 1, i - 1) == diagonal;
      assert Skipped(p, i, j) <==> Skipped(q, j, i);
      assert UniversalString.IsEqualsChar(p.ignoreCase, p.a[i - 1], p.b[j - 1])
        <==> UniversalString.IsEqualsChar(q.ignoreCase, q.a[j - 1], q.b[i - 1]);
      assert Min(Min(up, left), diagonal) == Min(Min(left, up), diagonal);
    }
  }

  /**
   * Without an ignore predicate, the distance is 0 exactly when the prefixes
   * have the same length and agree unit for unit under the case option.
   */
  lemma {:induction false} DistZeroIff(p: Problem, i: nat, j: nat)
    requires p.ignored.None? && i <= |p.a| && j <= |p.b|
    ensures Dist(p, i, j) == 0 <==>
      i == j && forall k | 0 <= k < i :: UniversalString.SameValue(p.ignoreCase, p.a[k], p.b[k])
    decreases i + j
  {
    if i > 0 && j > 0 {
      DistZeroIff(p, i - 1, j - 1);
      if !UniversalString.IsEqualsChar(p.ignoreCase, p.a[i - 1], p.b[j - 1]) {
        assert Dist(p, i, j) > 0;
      }
    }
  }

  // ------------------------------------------------------ on the whole texts

  /** similarDistance(s, s) is 0, as similarDistance("hello", "hello") is. */
  lemma {:induction false} DistanceToItself(ignoreCase: bool, s: JString, ignored: Option<int -> bool>)
    ensures Distance(ignoreCase, Some(s), Some(s), ignored) == 0
  {
    DistSelf(Problem(ignoreCase, CodePoints(s), CodePoints(s), ignored), |CodePoints(s)|);
  }

  /** Against the empty text, and in either order, the distance is the number of code points. */
  lemma {:induction false} DistanceToEmpty(ignoreCase: bool, s: JString, ignored: Option<int -> bool>)
    ensures Distance(ignoreCase, Some(s), Some([]), ignored) == |CodePoints(s)|
    ensures Distance(ignoreCase, Some([]), Some(s), ignored) == |CodePoints(s)|
  {
    assert CodePoints([]) == [];
  }

  /**
   * A null argument counts the other's UTF-16 units, an empty one its code
   * points: for a single emoji the two answers are 2 and 1.
   */
  lemma {:induction false} NullAndEmptyDiffer(ignoreCase: bool, ignored: Option<int -> bool>)
    ensures var emoji: JString := [0xD83D, 0xDE00];
      Distance(ignoreCase, None, Some(emoji), ignored) == 2
      && Distance(ignoreCase, Some([]), Some(emoji), ignored) == 1
  {
    var emoji: JString := [0xD83D, 0xDE00];
    assert IsPairAt(emoji, 0);
    assert emoji[2..] == [];
    assert CodePoints(emoji) == [CodePointAt(emoji, 0)] + CodePoints([]);
    DistanceToEmpty(ignoreCase, emoji, ignored);
  }

  /** The distance is symmetric in the two texts, null or not. */
  lemma {:induction false} DistanceSymmetric(ignoreCase: bool, x: Option<JString>, y: Option<JString>, ignored: Option<int -> bool>)
    ensures Distance(ignoreCase, x, y, ignored) == Distance(ignoreCase, y, x, ignored)
  {
    if x.Some? && y.Some? {
      var p := Problem(ignoreCase, CodePoints(x.value), CodePoints(y.value), ignored);
      DistSymmetric(p, |p.a|, |p.b|);
      assert Swapped(p) == Problem(ignoreCase, CodePoints(y.value), CodePoints(x.value), ignored);
    }
  }

  /**
   * Without an ignore predicate, the difference of the code point counts
   * is a lower bound and the larger count an upper bound.
   */
  lemma {:induction false} DistanceBounds(ignoreCase: bool, s: JString, t: JString)
    ensures var m, n := |CodePoints(s)|, |CodePoints(t)|;
      var d := Distance(ignoreCase, Some(s), Some(t), None);
      m - n <= d && n - m <= d && d <= Max(m, n)
  {
    var p := Problem(ignoreCase, CodePoints(s), CodePoints(t), None);
    DistAtLeastGap(p, |p.a|, |p.b|);
    DistAtMostLonger(p, |p.a|, |p.b|);
  }

  /** Case-sensitive and without an ignore predicate, the distance is 0 exactly for equal texts. */
  lemma {:induction false} DistanceZeroIffEqual(s: JString, t: JString)
    ensures Distance(false, Some(s), Some(t), None) == 0 <==> s == t
  {
    var p := Problem(false, CodePoints(s), CodePoints(t), None);
    DistZeroIff(p, |p.a|, |p.b|);
    if Dist(p, |p.a|, |p.b|) == 0 {
      assert p.a == p.b;
      CodePointsRoundTrip(s);
      CodePointsRoundTrip(t);
    }
    if s == t {
      DistanceToItself(false, s, None);
    }
  }
}
