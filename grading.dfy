/**
 * Zhejiang's "5 grades, 20 levels" rescaling of one elective column.
 *
 * The non-null raw scores of a column are ranked from best to worst (ties in
 * order of appearance); the rank fixes a level 1..20 through the cumulative
 * population ceilings; inside each level the group's raw scores are mapped
 * linearly onto that level's target range and rounded half-up. Everything is
 * exact: ceilings are kept in hundredths and the interpolation in `real`.
 */
module ZhejiangGrading {
  import opened Common
  import opened Frames

  /** Cumulative population ceilings of levels 1..20, in hundredths (0.03, 0.06, ..., 1.00). */
  const LevelCumRatios: seq<int> :=
    [3, 6, 10, 15, 21, 28, 36, 43, 50, 57, 64, 71, 78, 84, 89, 93, 96, 98, 99, 100]

  /** Target score range (low, high) of levels 1..20. */
  const LevelScoreRanges: seq<(int, int)> := [
    (97, 100), (94, 96), (91, 93), (88, 90), (85, 87),
    (82, 84), (79, 81), (76, 78), (73, 75), (70, 72),
    (67, 69), (64, 66), (61, 63), (58, 60), (55, 57),
    (52, 54), (49, 51), (46, 48), (43, 45), (40, 42)
  ]

  const LevelCount := 20

  function Low(level: int): int
    requires 1 <= level <= LevelCount
  {
    LevelScoreRanges[level - 1].0
  }

  function High(level: int): int
    requires 1 <= level <= LevelCount
  {
    LevelScoreRanges[level - 1].1
  }

  /**
   * The ceilings increase up to 1.00, every target range lies inside [40, 100],
   * and the ranges are disjoint and fall as the level grows.
   */
  lemma TablesWellFormed()
    ensures |LevelCumRatios| == LevelCount && |LevelScoreRanges| == LevelCount
    ensures 0 < LevelCumRatios[0] && LevelCumRatios[LevelCount - 1] == 100
    ensures forall i, j :: 0 <= i < j < LevelCount ==> LevelCumRatios[i] < LevelCumRatios[j]
    ensures forall l :: 1 <= l <= LevelCount ==> 40 <= Low(l) <= High(l) <= 100
    ensures forall l, m :: 1 <= l < m <= LevelCount ==> High(m) < Low(l)
  {
    forall i | 0 <= i < LevelCount - 1
      ensures LevelCumRatios[i] < LevelCumRatios[i + 1]
    {
      assert i in {0, 1, 2, 3, 4, 5, 6, 7, 8, 9, 10, 11, 12, 13, 14, 15, 16, 17, 18};
    }
    forall l | 1 <= l <= LevelCount
      ensures 40 <= Low(l) <= High(l) <= 100
      ensures l < LevelCount ==> High(l + 1) < Low(l)
    {
      assert l in {1, 2, 3, 4, 5, 6, 7, 8, 9, 10, 11, 12, 13, 14, 15, 16, 17, 18, 19, 20};
    }
    forall i, j | 0 <= i < j < LevelCount
      ensures LevelCumRatios[i] < LevelCumRatios[j]
    {
      StepsAccumulate(i, j);
    }
    forall l, m | 1 <= l < m <= LevelCount
      ensures High(m) < Low(l)
    {
      RangesFall(l, m);
    }
  }

  lemma {:induction false} StepsAccumulate(i: int, j: int)
    requires 0 <= i < j < LevelCount
    requires forall k :: 0 <= k < LevelCount - 1 ==> LevelCumRatios[k] < LevelCumRatios[k + 1]
    ensures LevelCumRatios[i] < LevelCumRatios[j]
    decreases j - i
  {
    if i + 1 < j {
      StepsAccumulate(i + 1, j);
    }
  }

  lemma {:induction false} RangesFall(l: int, m: int)
    requires 1 <= l < m <= LevelCount
    requires forall k :: 1 <= k < LevelCount ==> High(k + 1) < Low(k)
    requires forall k :: 1 <= k <= LevelCount ==> Low(k) <= High(k)
    ensures High(m) < Low(l)
    decreases m - l
  {
    if l + 1 < m {
      RangesFall(l + 1, m);
    }
  }

  // ---------------------------------------------------------------------------
  // Rounding

  /** Rounds a non-negative value to the nearest integer, an exact half going up: floor(x + 1/2). */
  function RoundHalfUp(x: real): (r: int)
    requires 0.0 <= x
    ensures 0 <= r
    ensures r as real - 0.5 <= x < r as real + 0.5
  {
    (x + 0.5).Floor
  }

  // ---------------------------------------------------------------------------
  // Ranking

  /**
   * Candidate j is ranked ahead of candidate i: a higher raw score, or the same
   * raw score in an earlier row.
   */
  predicate RankedAhead(raw: Column, j: int, i: int)
    requires 0 <= j < |raw| && 0 <= i < |raw|
  {
    raw[j].Some? && raw[i].Some? &&
    (raw[j].value > raw[i].value || (raw[j].value == raw[i].value && j < i))
  }

  function Ahead(raw: Column, i: int): set<int>
    requires 0 <= i < |raw|
  {
    set j | 0 <= j < |raw| && RankedAhead(raw, j, i)
  }

  /** Descending rank of a non-null raw score among the n non-null scores of the column. */
  function Rank(raw: Column, i: int): (r: int)
    requires 0 <= i < |raw| && raw[i].Some?
    ensures 1 <= r <= |Present(raw)|
  {
    SubsetCard(Ahead(raw, i), Present(raw) - {i});
    SubsetCard(Present(raw) - {i}, Present(raw));
    1 + |Ahead(raw, i)|
  }

  /** A candidate ranked ahead of another has the smaller rank. */
  lemma RankOrder(raw: Column, i: int, j: int)
    requires 0 <= i < |raw| && 0 <= j < |raw| && raw[i].Some? && raw[j].Some?
    requires RankedAhead(raw, i, j)
    ensures Rank(raw, i) < Rank(raw, j)
  {
    assert Ahead(raw, i) <= Ahead(raw, j);
    assert i in Ahead(raw, j) && i !in Ahead(raw, i);
    SubsetCard(Ahead(raw, i), Ahead(raw, j));
  }

  /** Higher raw scores get smaller ranks; equal raw scores are ranked in order of appearance. */
  lemma RankFollowsScore(raw: Column, i: int, j: int)
    requires 0 <= i < |raw| && 0 <= j < |raw| && raw[i].Some? && raw[j].Some?
    ensures raw[i].value > raw[j].value ==> Rank(raw, i) < Rank(raw, j)
    ensures raw[i].value == raw[j].value && i < j ==> Rank(raw, i) < Rank(raw, j)
    ensures i != j ==> Rank(raw, i) != Rank(raw, j)
  {
    if i != j {
      if RankedAhead(raw, i, j) {
        RankOrder(raw, i, j);
      } else {
        RankOrder(raw, j, i);
      }
    }
  }

  /** The ranks of the n non-null scores are exactly 1..n, each used once. */
  lemma RanksArePermutation(raw: Column)
    ensures (set i | i in Present(raw) :: Rank(raw, i)) == Interval(1, |Present(raw)| + 1)
  {
    var n := |Present(raw)|;
    var ranks := set i | i in Present(raw) :: Rank(raw, i);
    assert ranks <= Interval(1, n + 1);
    RankImageCard(raw, Present(raw));
    IntervalCard(1, n + 1);
    SubsetSameCard(ranks, Interval(1, n + 1));
  }

  /** Ranks are distinct, so the ranks of a set of candidates are as many as the candidates. */
  lemma {:induction false} RankImageCard(raw: Column, s: set<int>)
    requires s <= Present(raw)
    ensures |set i | i in s :: Rank(raw, i)| == |s|
    decreases |s|
  {
    if s != {} {
      var x :| x in s;
      var rest := s - {x};
      RankImageCard(raw, rest);
      var image := set i | i in s :: Rank(raw, i);
      var restImage := set i | i in rest :: Rank(raw, i);
      assert image == restImage + {Rank(raw, x)};
      forall i | i in rest
        ensures Rank(raw, i) != Rank(raw, x)
      {
        RankFollowsScore(raw, i, x);
      }
      assert Rank(raw, x) !in restImage;
    }
  }

  // ---------------------------------------------------------------------------
  // Levels

  /** How many of the ceilings cs (in hundredths) are at or below the fraction k/n. */
  function CeilingsReached(cs: seq<int>, n: int, k: int): (c: int)
    ensures 0 <= c <= |cs|
    ensures |cs| > 0 && 100 * k < cs[|cs| - 1] * n ==> c < |cs|
  {
    if cs == [] then 0
    else (if cs[0] * n <= 100 * k then 1 else 0) + CeilingsReached(cs[1..], n, k)
  }

  /**
   * The level of the candidate ranked `rank` among n: one more than the number
   * of ceilings at or below p = (rank - 1) / n.
   */
  function LevelOf(n: int, rank: int): (level: int)
    requires 1 <= rank <= n
    ensures 1 <= level <= LevelCount
  {
    TablesWellFormed();
    1 + CeilingsReached(LevelCumRatios, n, rank - 1)
  }

  lemma {:induction false} CeilingsReachedMonotone(cs: seq<int>, n: int, k1: int, k2: int)
    requires k1 <= k2
    ensures CeilingsReached(cs, n, k1) <= CeilingsReached(cs, n, k2)
  {
    if cs != [] {
      CeilingsReachedMonotone(cs[1..], n, k1, k2);
    }
  }

  /** A worse rank never gets a better (smaller) level. */
  lemma LevelMonotone(n: int, rank1: int, rank2: int)
    requires 1 <= rank1 <= rank2 <= n
    ensures LevelOf(n, rank1) <= LevelOf(n, rank2)
  {
    CeilingsReachedMonotone(LevelCumRatios, n, rank1 - 1, rank2 - 1);
  }

  /** The level test compares ceiling * n: scaling two ceilings by the candidate count n keeps their order. */
  lemma ScaledCeilingsKeepOrder(c1: int, c2: int, n: int)
    requires c1 <= c2 && 0 <= n
    ensures c1 * n <= c2 * n
  {
  }

  /** On increasing ceilings the reached ones form a prefix: exactly the first c of them. */
  lemma {:induction false} CeilingsReachedPrefix(cs: seq<int>, n: int, k: int)
    requires 0 <= n
    requires forall i, j :: 0 <= i < j < |cs| ==> cs[i] <= cs[j]
    ensures forall i :: 0 <= i < CeilingsReached(cs, n, k) ==> cs[i] * n <= 100 * k
    ensures forall i :: CeilingsReached(cs, n, k) <= i < |cs| ==> 100 * k < cs[i] * n
  {
    if cs != [] {
      CeilingsReachedPrefix(cs[1..], n, k);
      var c := CeilingsReached(cs, n, k);
      if cs[0] * n <= 100 * k {
        forall i | 0 <= i < c
          ensures cs[i] * n <= 100 * k
        {
          if i > 0 {
            assert cs[i] == cs[1..][i - 1];
          }
        }
        forall i | c <= i < |cs|
          ensures 100 * k < cs[i] * n
        {
          assert cs[i] == cs[1..][i - 1];
        }
      } else {
        forall i | 0 <= i < |cs|
          ensures 100 * k < cs[i] * n
        {
          ScaledCeilingsKeepOrder(cs[0], cs[i], n);
        }
      }
    }
  }

  /**
   * The level is the first one whose ceiling lies strictly above p = (rank - 1) / n,
   * i.e. ceiling(level - 1) <= p < ceiling(level), and it is the only such level.
   */
  lemma LevelBrackets(n: int, rank: int, level: int)
    requires 1 <= rank <= n && 1 <= level <= LevelCount
    ensures LevelOf(n, rank) == level <==>
      (level == 1 || LevelCumRatios[level - 2] * n <= 100 * (rank - 1)) &&
      100 * (rank - 1) < LevelCumRatios[level - 1] * n
  {
    TablesWellFormed();
    CeilingsReachedPrefix(LevelCumRatios, n, rank - 1);
  }

  // ---------------------------------------------------------------------------
  // Grading one column

  /** Level 1..20 of every non-null raw score; null where the raw score is null. */
  function AssignLevels(raw: Column): (levels: Column)
    ensures |levels| == |raw|
    ensures forall i :: 0 <= i < |raw| ==> (levels[i].Some? <==> raw[i].Some?)
    ensures forall i :: 0 <= i < |raw| && raw[i].Some? ==> 1 <= levels[i].value <= LevelCount
  {
    var n := |Present(raw)|;
    seq(|raw|, i requires 0 <= i < |raw| =>
      if raw[i].Some? then Some(LevelOf(n, Rank(raw, i))) else None)
  }

  /** The raw scores of the candidates placed at `level`, in row order. */
  function GroupScores(raw: Column, levels: Column, level: int): (g: seq<int>)
    requires |levels| == |raw|
    ensures forall i :: 0 <= i < |raw| && levels[i] == Some(level) && raw[i].Some? ==> raw[i].value in g
    ensures forall v :: v in g ==> exists i :: 0 <= i < |raw| && levels[i] == Some(level) && raw[i] == Some(v)
  {
    if raw == [] then []
    else
      var rest := GroupScores(raw[1..], levels[1..], level);
      assert forall i :: 1 <= i < |raw| ==> raw[i] == raw[1..][i - 1] && levels[i] == levels[1..][i - 1];
      (if levels[0] == Some(level) && raw[0].Some? then [raw[0].value] else []) + rest
  }

  function Min(s: seq<int>): (m: int)
    requires |s| > 0
    ensures m in s && forall x :: x in s ==> m <= x
  {
    if |s| == 1 then s[0]
    else
      var m := Min(s[1..]);
      assert forall x :: x in s ==> x == s[0] || x in s[1..];
      if s[0] <= m then s[0] else m
  }

  function Max(s: seq<int>): (m: int)
    requires |s| > 0
    ensures m in s && forall x :: x in s ==> x <= m
  {
    if |s| == 1 then s[0]
    else
      var m := Max(s[1..]);
      assert forall x :: x in s ==> x == s[0] || x in s[1..];
      if m <= s[0] then s[0] else m
  }

  /**
   * The unrounded graded score of raw score s in a group spanning [s1, s2]:
   * the linear map of [s1, s2] onto [low, high], or the middle of the range
   * when every raw score in the group is the same.
   */
  function Target(low: int, high: int, s1: int, s2: int, s: int): (t: real)
    requires low <= high && s1 <= s <= s2
    ensures low as real <= t <= high as real
    ensures s1 < s2 && s == s1 ==> t == low as real
    ensures s1 < s2 && s == s2 ==> t == high as real
  {
    if s2 == s1 then (low + high) as real / 2.0
    else
      var t := low as real + (s - s1) as real * (high - low) as real / (s2 - s1) as real;
      InterpolationBounds(low, high, s1, s2, s);
      t
  }

  lemma InterpolationBounds(low: int, high: int, s1: int, s2: int, s: int)
    requires low <= high && s1 <= s <= s2 && s1 < s2
    ensures var d := (s - s1) as real * (high - low) as real / (s2 - s1) as real;
      0.0 <= d <= (high - low) as real &&
      (s == s2 ==> d == (high - low) as real)
  {
    var w := (high - low) as real;
    var x := (s - s1) as real;
    var den := (s2 - s1) as real;
    assert 0.0 <= x * w <= den * w;
    assert den * w / den == w;
  }

  lemma TargetMonotone(low: int, high: int, s1: int, s2: int, a: int, b: int)
    requires low <= high && s1 <= a <= b <= s2
    ensures Target(low, high, s1, s2, a) <= Target(low, high, s1, s2, b)
  {
    if s1 < s2 {
      var w := (high - low) as real;
      var den := (s2 - s1) as real;
      var x, y := (a - s1) as real * w, (b - s1) as real * w;
      assert y - x == (b - a) as real * w;
      assert 0.0 <= (b - a) as real * w;
      assert x / den <= y / den;
    }
  }

  /** The graded score, before clamping, of raw score s in a group of `level` spanning [s1, s2]. */
  function Rescaled(level: int, s1: int, s2: int, s: int): (g: int)
    requires 1 <= level <= LevelCount && s1 <= s <= s2
    ensures Low(level) <= g <= High(level)
  {
    TablesWellFormed();
    RoundHalfUp(Target(Low(level), High(level), s1, s2, s))
  }

  /** The graded column: every non-null raw score replaced by its graded score, nulls kept. */
  function GradedColumn(raw: Column): (out: Column)
    ensures |out| == |raw|
    ensures forall i :: 0 <= i < |raw| ==> (out[i].Some? <==> raw[i].Some?)
    ensures forall i :: 0 <= i < |raw| && out[i].Some? ==> 40 <= out[i].value <= 100
  {
    var levels := AssignLevels(raw);
    seq(|raw|, i requires 0 <= i < |raw| => GradeWithLevels(raw, levels, i))
  }

  /** The level of the non-null raw score in row i. */
  function LevelAt(raw: Column, i: int): (level: int)
    requires 0 <= i < |raw| && raw[i].Some?
    ensures 1 <= level <= LevelCount
  {
    AssignLevels(raw)[i].value
  }

  /** The raw scores of the level group that row i belongs to. */
  function GroupAt(raw: Column, i: int): (g: seq<int>)
    requires 0 <= i < |raw| && raw[i].Some?
    ensures raw[i].value in g
  {
    GroupScores(raw, AssignLevels(raw), LevelAt(raw, i))
  }

  /**
   * Every graded score lies inside its level's target range, which is inside
   * [40, 100], so clamping to [40, 100] never changes it.
   */
  lemma GradeWithinLevelRange(raw: Column, i: int)
    requires 0 <= i < |raw| && raw[i].Some?
    ensures var g := GradedColumn(raw)[i];
      g.Some? && Low(LevelAt(raw, i)) <= g.value <= High(LevelAt(raw, i)) &&
      g.value == Rescaled(LevelAt(raw, i), Min(GroupAt(raw, i)), Max(GroupAt(raw, i)), raw[i].value)
  {
    TablesWellFormed();
  }

  lemma RoundHalfUpMonotone(x: real, y: real)
    requires 0.0 <= x <= y
    ensures RoundHalfUp(x) <= RoundHalfUp(y)
  {
  }

  /** Within one level group, a higher raw score never gets a lower graded score. */
  lemma GroupMonotone(raw: Column, i: int, j: int)
    requires 0 <= i < |raw| && 0 <= j < |raw| && raw[i].Some? && raw[j].Some?
    requires LevelAt(raw, i) == LevelAt(raw, j)
    requires raw[i].value <= raw[j].value
    ensures GradedColumn(raw)[i].value <= GradedColumn(raw)[j].value
  {
    var level, group := LevelAt(raw, i), GroupAt(raw, i);
    assert GroupAt(raw, j) == group;
    TablesWellFormed();
    TargetMonotone(Low(level), High(level), Min(group), Max(group), raw[i].value, raw[j].value);
    RoundHalfUpMonotone(Target(Low(level), High(level), Min(group), Max(group), raw[i].value),
                        Target(Low(level), High(level), Min(group), Max(group), raw[j].value));
    GradeWithinLevelRange(raw, i);
    GradeWithinLevelRange(raw, j);
  }

  /** When a level group's raw scores differ, its lowest raw score gets the range's low end and its highest the high end. */
  lemma GroupEndpoints(raw: Column, i: int)
    requires 0 <= i < |raw| && raw[i].Some?
    requires Min(GroupAt(raw, i)) < Max(GroupAt(raw, i))
    ensures raw[i].value == Min(GroupAt(raw, i)) ==> GradedColumn(raw)[i] == Some(Low(LevelAt(raw, i)))
    ensures raw[i].value == Max(GroupAt(raw, i)) ==> GradedColumn(raw)[i] == Some(High(LevelAt(raw, i)))
  {
    GradeWithinLevelRange(raw, i);
    var level, group := LevelAt(raw, i), GroupAt(raw, i);
    RescaledEndpoints(level, Min(group), Max(group), raw[i].value);
  }

  lemma RescaledEndpoints(level: int, s1: int, s2: int, s: int)
    requires 1 <= level <= LevelCount && s1 <= s <= s2 && s1 < s2
    ensures s == s1 ==> Rescaled(level, s1, s2, s) == Low(level)
    ensures s == s2 ==> Rescaled(level, s1, s2, s) == High(level)
  {
    TablesWellFormed();
  }

  /** The middle of a level's range, an exact half rounded up: 99 for level 1, 95 for level 2. */
  function HalfUpMidpoint(level: int): int
    requires 1 <= level <= LevelCount
  {
    (Low(level) + High(level) + 1) / 2
  }

  lemma MidpointValues()
    ensures HalfUpMidpoint(1) == 99 && HalfUpMidpoint(2) == 95 && HalfUpMidpoint(5) == 86
    ensures HalfUpMidpoint(8) == 77 && HalfUpMidpoint(10) == 71 && HalfUpMidpoint(11) == 68
    ensures HalfUpMidpoint(14) == 59
  {
  }

  lemma RescaledMidpoint(level: int, s1: int, s2: int, s: int)
    requires 1 <= level <= LevelCount && s1 <= s <= s2
    ensures s1 == s2 ==> Rescaled(level, s1, s2, s) == HalfUpMidpoint(level)
  {
    TablesWellFormed();
    var r := RoundHalfUp((Low(level) + High(level)) as real / 2.0);
    assert 2 * r - 1 <= Low(level) + High(level) < 2 * r + 1;
  }

  /**
   * The interpolation in integer arithmetic: with d = s2 - s1 > 0, the graded
   * score is (2 low d + 2 (s - s1)(high - low) + d) div 2d.
   */
  lemma RescaledClosedForm(level: int, s1: int, s2: int, s: int)
    requires 1 <= level <= LevelCount && s1 <= s <= s2 && s1 < s2
    ensures Rescaled(level, s1, s2, s) ==
      (2 * Low(level) * (s2 - s1) + 2 * (s - s1) * (High(level) - Low(level)) + (s2 - s1)) / (2 * (s2 - s1))
  {
    TablesWellFormed();
    var low, w, d := Low(level), High(level) - Low(level), s2 - s1;
    var num := 2 * low * d + 2 * (s - s1) * w + d;
    var q := num / (2 * d);
    var x := Target(Low(level), High(level), s1, s2, s);
    HalfUpAsQuotient(low, w, d, s - s1, x);
    FloorOfQuotient(num, 2 * d);
    var r := RoundHalfUp(x);
    assert r as real <= num as real / (2 * d) as real < r as real + 1.0;
  }

  lemma HalfUpAsQuotient(low: int, w: int, d: int, k: int, x: real)
    requires d > 0 && x == low as real + k as real * w as real / d as real
    ensures x + 0.5 == (2 * low * d + 2 * k * w + d) as real / (2 * d) as real
  {
    var L, K, W, D := low as real, k as real, w as real, d as real;
    var t := K * W / D;
    assert t * D == K * W;
    assert (low * d) as real == L * D && (k * w) as real == K * W;
    var num := (2 * low * d + 2 * k * w + d) as real;
    assert num == 2.0 * L * D + 2.0 * K * W + D;
    assert (x + 0.5) * (2.0 * D) == num;
    QuotientUnique(x + 0.5, num, 2.0 * D);
    assert (2 * d) as real == 2.0 * D;
  }

  lemma QuotientUnique(y: real, a: real, b: real)
    requires b > 0.0 && y * b == a
    ensures y == a / b
  {
    assert (y - a / b) * b == 0.0;
  }

  /** The real quotient a / b lies in [a div b, a div b + 1). */
  lemma FloorOfQuotient(a: int, b: int)
    requires b > 0
    ensures (a / b) as real <= a as real / b as real < (a / b + 1) as real
  {
    var q := a / b;
    assert q * b <= a < (q + 1) * b;
    assert (q * b) as real == q as real * b as real;
    assert ((q + 1) * b) as real == (q + 1) as real * b as real;
  }

  /**
   * When every raw score of a level group is the same (a single candidate, for
   * one), each member gets the middle of the range rounded half-up.
   */
  lemma DegenerateGroupMidpoint(raw: Column, i: int)
    requires 0 <= i < |raw| && raw[i].Some?
    requires Min(GroupAt(raw, i)) == Max(GroupAt(raw, i))
    ensures GradedColumn(raw)[i] == Some(HalfUpMidpoint(LevelAt(raw, i)))
  {
    var group := GroupAt(raw, i);
    GradeWithinLevelRange(raw, i);
    RescaledMidpoint(LevelAt(raw, i), Min(group), Max(group), raw[i].value);
  }

  /**
   * Across the whole column a strictly higher raw score never gets a lower
   * graded score: it has a smaller rank, hence a level no worse, and the level
   * ranges are disjoint and fall with the level.
   */
  lemma HigherRawNotLowerGrade(raw: Column, i: int, j: int)
    requires 0 <= i < |raw| && 0 <= j < |raw| && raw[i].Some? && raw[j].Some?
    requires raw[i].value > raw[j].value
    ensures GradedColumn(raw)[i].value >= GradedColumn(raw)[j].value
  {
    var n := |Present(raw)|;
    RankFollowsScore(raw, i, j);
    LevelMonotone(n, Rank(raw, i), Rank(raw, j));
    TablesWellFormed();
    GradeWithinLevelRange(raw, i);
    GradeWithinLevelRange(raw, j);
    if LevelAt(raw, i) == LevelAt(raw, j) {
      GroupMonotone(raw, j, i);
    }
  }

  /** A column without any non-null raw score (a missing subject, say) grades to all nulls. */
  lemma AllNullColumn(raw: Column)
    requires Present(raw) == {}
    ensures GradedColumn(raw) == Nulls(|raw|)
  {
    forall i | 0 <= i < |raw|
      ensures raw[i].None?
    {
      assert i !in Present(raw);
    }
  }

  /** A candidate alone at its level forms a degenerate group and gets the level's half-up midpoint. */
  lemma LoneInLevel(raw: Column, i: int)
    requires 0 <= i < |raw| && raw[i].Some?
    requires forall j :: 0 <= j < |raw| && j != i && raw[j].Some? ==> LevelAt(raw, j) != LevelAt(raw, i)
    ensures GradedColumn(raw)[i] == Some(HalfUpMidpoint(LevelAt(raw, i)))
  {
    var group := GroupAt(raw, i);
    forall v | v in group
      ensures v == raw[i].value
    {
      var j :| 0 <= j < |raw| && AssignLevels(raw)[j] == Some(LevelAt(raw, i)) && raw[j] == Some(v);
      assert LevelAt(raw, j) == LevelAt(raw, i);
    }
    DegenerateGroupMidpoint(raw, i);
  }

  lemma LevelFromRank(raw: Column, i: int)
    requires 0 <= i < |raw| && raw[i].Some?
    ensures AssignLevels(raw)[i] == Some(LevelOf(|Present(raw)|, Rank(raw, i)))
  {
  }

  /** When no two candidates share a level, every candidate gets its level's half-up midpoint. */
  lemma DistinctLevelsMidpoints(raw: Column)
    requires forall i, j :: 0 <= i < |raw| && 0 <= j < |raw| && i != j && raw[i].Some? && raw[j].Some? ==>
      LevelAt(raw, i) != LevelAt(raw, j)
    ensures forall i :: 0 <= i < |raw| && raw[i].Some? ==> GradedColumn(raw)[i] == Some(HalfUpMidpoint(LevelAt(raw, i)))
  {
    forall i | 0 <= i < |raw| && raw[i].Some?
      ensures GradedColumn(raw)[i] == Some(HalfUpMidpoint(LevelAt(raw, i)))
    {
      LoneInLevel(raw, i);
    }
  }

  /** In a column of non-null, strictly falling raw scores the candidate in row i has rank i + 1. */
  lemma StrictlyFallingRanks(raw: Column)
    requires forall i :: 0 <= i < |raw| ==> raw[i].Some?
    requires forall i, j :: 0 <= i < j < |raw| ==> raw[i].value > raw[j].value
    ensures |Present(raw)| == |raw|
    ensures forall i :: 0 <= i < |raw| ==> Rank(raw, i) == i + 1
  {
    assert Present(raw) == Interval(0, |raw|);
    IntervalCard(0, |raw|);
    forall i | 0 <= i < |raw|
      ensures Rank(raw, i) == i + 1
    {
      forall j | 0 <= j < |raw|
        ensures RankedAhead(raw, j, i) <==> j < i
      {
        if j < i {
          assert raw[j].value > raw[i].value;
        } else if i < j {
          assert raw[i].value > raw[j].value;
        }
      }
      assert Ahead(raw, i) == Interval(0, i);
      IntervalCard(0, i);
    }
  }

  /** The bracket condition of LevelBrackets, read from right to left. */
  lemma LevelIs(n: int, rank: int, level: int)
    requires 1 <= rank <= n && 1 <= level <= LevelCount
    requires level == 1 || LevelCumRatios[level - 2] * n <= 100 * (rank - 1)
    requires 100 * (rank - 1) < LevelCumRatios[level - 1] * n
    ensures LevelOf(n, rank) == level
  {
    LevelBrackets(n, rank, level);
  }

  lemma LevelsOfFive(n: int)
    requires n == 5
    ensures LevelOf(n, 1) == 1 && LevelOf(n, 2) == 5 && LevelOf(n, 3) == 8
    ensures LevelOf(n, 4) == 11 && LevelOf(n, 5) == 14
  {
    CeilingValues();
    LevelIs(n, 1, 1);
    LevelIs(n, 2, 5);
    LevelIs(n, 3, 8);
    LevelsOfFiveLast(n);
  }

  lemma LevelsOfFiveLast(n: int)
    requires n == 5
    ensures LevelOf(n, 4) == 11 && LevelOf(n, 5) == 14
  {
    CeilingValues();
    LevelIs(n, 4, 11);
    LevelIs(n, 5, 14);
  }

  lemma CeilingValues()
    ensures LevelCumRatios[0] == 3 && LevelCumRatios[3] == 15 && LevelCumRatios[4] == 21
    ensures LevelCumRatios[6] == 36 && LevelCumRatios[7] == 43 && LevelCumRatios[8] == 50
    ensures LevelCumRatios[9] == 57 && LevelCumRatios[12] == 78 && LevelCumRatios[13] == 84
  {
  }

  /** Five distinct raw scores fall at levels 1, 5, 8, 11 and 14. */
  lemma WorkedExampleLevels(raw: Column)
    requires raw == [Some(100), Some(90), Some(80), Some(70), Some(60)]
    ensures AssignLevels(raw)[0] == Some(1) && AssignLevels(raw)[1] == Some(5)
    ensures AssignLevels(raw)[2] == Some(8) && AssignLevels(raw)[3] == Some(11)
    ensures AssignLevels(raw)[4] == Some(14)
  {
    StrictlyFallingRanks(raw);
    LevelsOfFive(|Present(raw)|);
    LevelFromRank(raw, 0);
    LevelFromRank(raw, 1);
    LevelFromRank(raw, 2);
    LevelFromRank(raw, 3);
    LevelFromRank(raw, 4);
  }

  /** Each of the five is alone at its level, so each is graded at its level's midpoint. */
  lemma WorkedExample(raw: Column)
    requires raw == [Some(100), Some(90), Some(80), Some(70), Some(60)]
    ensures |GradedColumn(raw)| == 5
    ensures GradedColumn(raw)[0] == Some(99) && GradedColumn(raw)[1] == Some(86)
    ensures GradedColumn(raw)[2] == Some(77) && GradedColumn(raw)[3] == Some(68)
    ensures GradedColumn(raw)[4] == Some(59)
  {
    WorkedExampleLevels(raw);
    forall i, j | 0 <= i < 5 && 0 <= j < 5 && i != j
      ensures LevelAt(raw, i) != LevelAt(raw, j)
    {
      assert i in {0, 1, 2, 3, 4} && j in {0, 1, 2, 3, 4};
    }
    DistinctLevelsMidpoints(raw);
    MidpointValues();
    assert LevelAt(raw, 0) == 1 && LevelAt(raw, 1) == 5 && LevelAt(raw, 2) == 8;
    assert LevelAt(raw, 3) == 11 && LevelAt(raw, 4) == 14;
  }

  /** Two equal raw scores of 80 straddle the ceiling 0.03: the first is placed at level 1, the second at level 10. */
  lemma EqualRawsStraddleLevels(raw: Column)
    requires raw == [Some(80), Some(80)]
    ensures AssignLevels(raw)[0] == Some(1) && AssignLevels(raw)[1] == Some(10)
  {
    EqualRawsRanks(raw);
    LevelsOfTwo(|Present(raw)|);
    LevelFromRank(raw, 0);
    LevelFromRank(raw, 1);
  }

  lemma EqualRawsRanks(raw: Column)
    requires raw == [Some(80), Some(80)]
    ensures |Present(raw)| == 2 && Rank(raw, 0) == 1 && Rank(raw, 1) == 2
  {
    assert Present(raw) == {0, 1};
    assert Ahead(raw, 0) == {};
    assert Ahead(raw, 1) == {0};
  }

  lemma LevelsOfTwo(n: int)
    requires n == 2
    ensures LevelOf(n, 1) == 1 && LevelOf(n, 2) == 10
  {
    CeilingValues();
    LevelIs(n, 1, 1);
    LevelIs(n, 2, 10);
  }

  /** ... and so the same raw score is graded 99 in the first row and 71 in the second. */
  lemma EqualRawsStraddle(raw: Column)
    requires raw == [Some(80), Some(80)]
    ensures |GradedColumn(raw)| == 2 && GradedColumn(raw)[0] == Some(99) && GradedColumn(raw)[1] == Some(71)
  {
    EqualRawsStraddleLevels(raw);
    forall i, j | 0 <= i < 2 && 0 <= j < 2 && i != j
      ensures LevelAt(raw, i) != LevelAt(raw, j)
    {
      assert i in {0, 1} && j in {0, 1};
    }
    DistinctLevelsMidpoints(raw);
    MidpointValues();
    assert LevelAt(raw, 0) == 1 && LevelAt(raw, 1) == 10;
  }

  // ---------------------------------------------------------------------------
  // The grading loop and the per-subject driver

  /**
   * The graded score of row i given the levels of the whole column: the
   * rescaling over the raw range of the rows sharing its level, clipped to
   * [40, 100]; null where the raw score is null.
   */
  function GradeWithLevels(raw: Column, levels: Column, i: int): (g: Option<int>)
    requires |levels| == |raw| && 0 <= i < |raw|
    requires levels[i].Some? <==> raw[i].Some?
    requires levels[i].Some? ==> 1 <= levels[i].value <= LevelCount
    ensures g.Some? <==> raw[i].Some?
    ensures g.Some? ==> Low(levels[i].value) <= g.value <= High(levels[i].value)
  {
    TablesWellFormed();
    if raw[i].Some? then
      var group := GroupScores(raw, levels, levels[i].value);
      Some(Clamp(Rescaled(levels[i].value, Min(group), Max(group), raw[i].value), 40, 100))
    else None
  }

  /**
   * Grades one column level by level: for each level that has candidates, its
   * group's raw range [s1, s2] is mapped onto the level's target range and the
   * results are written into the output in place. Null raw scores stay null.
   */
  method ZhejiangGradeScore(raw: Column) returns (out: Column)
    ensures out == GradedColumn(raw)
  {
    var levels := AssignLevels(raw);
    out := GradeByLevels(raw, levels);
  }

  /** The loop of the grading step, once every non-null raw score has its level. */
  method GradeByLevels(raw: Column, levels: Column) returns (out: Column)
    requires |levels| == |raw|
    requires forall j :: 0 <= j < |raw| ==> (levels[j].Some? <==> raw[j].Some?)
    requires forall j :: 0 <= j < |raw| && levels[j].Some? ==> 1 <= levels[j].value <= LevelCount
    ensures |out| == |raw|
    ensures forall j :: 0 <= j < |raw| ==> out[j] == GradeWithLevels(raw, levels, j)
  {
    var a := new Option<int>[|raw|](_ => None);
    for level := 1 to LevelCount + 1
      invariant forall j :: 0 <= j < |raw| ==>
        a[j] == if levels[j].Some? && levels[j].value < level then GradeWithLevels(raw, levels, j) else None
    {
      GradeLevel(a, raw, levels, level);
      forall j | 0 <= j < |raw|
        ensures a[j] == if levels[j].Some? && levels[j].value <= level then GradeWithLevels(raw, levels, j) else None
      {
        if levels[j] == Some(level) {
          assert a[j] == GradeWithLevels(raw, levels, j);
        }
      }
    }
    out := a[..];
  }

  /** Grades the candidates placed at `level`, leaving every other cell as it was. */
  method GradeLevel(a: array<Option<int>>, raw: Column, levels: Column, level: int)
    requires a.Length == |raw| == |levels| && 1 <= level <= LevelCount
    requires forall j :: 0 <= j < |raw| ==> (levels[j].Some? <==> raw[j].Some?)
    requires forall j :: 0 <= j < |raw| && levels[j].Some? ==> 1 <= levels[j].value <= LevelCount
    modifies a
    ensures forall j :: 0 <= j < |raw| ==>
      a[j] == if levels[j] == Some(level) then GradeWithLevels(raw, levels, j) else old(a[j])
  {
    var group := GroupScores(raw, levels, level);
    if |group| == 0 {
      return;
    }
    var s1, s2 := Min(group), Max(group);
    ghost var spec := seq(|raw|, j requires 0 <= j < |raw| =>
      if levels[j] == Some(level) then GradeWithLevels(raw, levels, j) else None);
    forall j | 0 <= j < |raw| && levels[j] == Some(level)
      ensures raw[j].Some? && s1 <= raw[j].value <= s2
      ensures spec[j] == Some(Clamp(Rescaled(level, s1, s2, raw[j].value), 40, 100))
    {
      assert raw[j].value in group;
    }
    WriteLevel(a, raw, levels, level, s1, s2, spec);
  }

  /** Writes the graded score of every candidate placed at `level`, whose group spans [s1, s2]. */
  method WriteLevel(a: array<Option<int>>, raw: Column, levels: Column, level: int, s1: int, s2: int,
                    ghost spec: seq<Option<int>>)
    requires a.Length == |raw| == |levels| == |spec| && 1 <= level <= LevelCount
    requires forall j :: 0 <= j < |raw| && levels[j] == Some(level) ==>
      raw[j].Some? && s1 <= raw[j].value <= s2 && spec[j] == Some(Clamp(Rescaled(level, s1, s2, raw[j].value), 40, 100))
    modifies a
    ensures forall j :: 0 <= j < |raw| ==> a[j] == if levels[j] == Some(level) then spec[j] else old(a[j])
  {
    for i := 0 to |raw|
      invariant forall j :: 0 <= j < i ==> a[j] == if levels[j] == Some(level) then spec[j] else old(a[j])
      invariant forall j :: i <= j < |raw| ==> a[j] == old(a[j])
    {
      if levels[i] == Some(level) {
        a[i] := Some(Clamp(Rescaled(level, s1, s2, raw[i].value), 40, 100));
      }
    }
  }

  /**
   * Regrades every elective of a table: a missing raw or graded column is first
   * added as all-null (raw before graded, in listing order), then the graded
   * column is recomputed from the raw one. The core columns are untouched.
   */
  method ApplyToFrame(f: Frame) returns (g: Frame)
    requires f.Valid()
    ensures g.Valid() && g.height == f.height && g.core == f.core
    ensures g.columns == AddElectiveColumns(f.columns)
    ensures forall s :: 0 <= s < ElectiveCount ==> g.raw[s] == RawOrNulls(f, s)
    ensures forall s :: 0 <= s < ElectiveCount ==> g.graded[s] == GradedColumn(g.raw[s])
  {
    var columns, raw, graded := f.columns, f.raw, f.graded;
    for s := 0 to ElectiveCount
      invariant |raw| == ElectiveCount && |graded| == ElectiveCount
      invariant forall t :: 0 <= t < ElectiveCount ==> |raw[t]| == f.height && |graded[t]| == f.height
      invariant columns == AddElectiveColumnsUpTo(f.columns, s)
      invariant forall t :: s <= t < ElectiveCount ==> raw[t] == f.raw[t]
      invariant forall t :: 0 <= t < s ==> raw[t] == RawOrNulls(f, t)
      invariant forall t :: 0 <= t < s ==> graded[t] == GradedColumn(raw[t])
    {
      columns, raw, graded := GradeElective(f, s, columns, raw, graded);
    }
    g := Frame(columns, f.height, f.core, raw, graded);
  }

  /**
   * One step of ApplyToFrame: adds elective s's raw column and graded column
   * as nulls when absent, then overwrites the graded column with the grades.
   */
  method GradeElective(f: Frame, s: int, columns: seq<string>, raw: seq<Column>, graded: seq<Column>)
    returns (newColumns: seq<string>, newRaw: seq<Column>, newGraded: seq<Column>)
    requires f.Valid() && 0 <= s < ElectiveCount && |raw| == ElectiveCount && |graded| == ElectiveCount
    requires columns == AddElectiveColumnsUpTo(f.columns, s)
    requires raw[s] == f.raw[s]
    ensures newColumns == AddElectiveColumnsUpTo(f.columns, s + 1)
    ensures newRaw == raw[s := RawOrNulls(f, s)]
    ensures newGraded == graded[s := GradedColumn(RawOrNulls(f, s))]
  {
    UnvisitedRawName(f.columns, s, s);
    newColumns, newRaw, newGraded := columns, raw, graded;
    if RawName(s) !in newColumns {
      newColumns := newColumns + [RawName(s)];
      newRaw := newRaw[s := Nulls(f.height)];
    }
    if GradedName(s) !in newColumns {
      newColumns := newColumns + [GradedName(s)];
      newGraded := newGraded[s := Nulls(f.height)];
    }
    var out := ZhejiangGradeScore(newRaw[s]);
    newGraded := newGraded[s := out];
  }

  /** A subject whose raw column is missing gets an all-null graded column. */
  lemma MissingSubjectGradesNull(f: Frame, s: int)
    requires f.Valid() && 0 <= s < ElectiveCount && RawName(s) !in f.columns
    ensures GradedColumn(RawOrNulls(f, s)) == Nulls(f.height)
  {
    var raw := RawOrNulls(f, s);
    assert Present(raw) == {};
    AllNullColumn(raw);
  }

  // ---------------------------------------------------------------------------
  // Regrading the graded column

  /** Graded scores follow the raw ranking: a candidate ranked ahead never gets the lower grade. */
  lemma GradeFollowsRank(raw: Column, a: int, b: int)
    requires 0 <= a < |raw| && 0 <= b < |raw| && RankedAhead(raw, a, b)
    ensures GradedColumn(raw)[a].value >= GradedColumn(raw)[b].value
  {
    if raw[a].value > raw[b].value {
      HigherRawNotLowerGrade(raw, a, b);
    } else {
      var n := |Present(raw)|;
      RankOrder(raw, a, b);
      LevelMonotone(n, Rank(raw, a), Rank(raw, b));
      if LevelAt(raw, a) == LevelAt(raw, b) {
        GroupMonotone(raw, b, a);
      } else {
        TablesWellFormed();
        GradeWithinLevelRange(raw, a);
        GradeWithinLevelRange(raw, b);
      }
    }
  }

  /** The level ranges are disjoint, so equal graded scores come from the same level. */
  lemma SameGradeSameLevel(raw: Column, a: int, b: int)
    requires 0 <= a < |raw| && 0 <= b < |raw| && raw[a].Some? && raw[b].Some?
    requires GradedColumn(raw)[a] == GradedColumn(raw)[b]
    ensures LevelAt(raw, a) == LevelAt(raw, b)
  {
    TablesWellFormed();
    GradeWithinLevelRange(raw, a);
    GradeWithinLevelRange(raw, b);
  }

  /** g orders the rows as the raw ranking does: a row ranked ahead never has the lower value. */
  predicate FollowsRanking(raw: Column, g: Column)
  {
    |g| == |raw| &&
    (forall j :: 0 <= j < |raw| ==> (g[j].Some? <==> raw[j].Some?)) &&
    (forall a, b :: 0 <= a < |raw| && 0 <= b < |raw| && RankedAhead(raw, a, b) ==> g[a].value >= g[b].value)
  }

  /**
   * For a column g that follows the raw ranking, the rows sharing row i's value
   * of g hold, in the raw ranking, the ranks just after the rows with larger values.
   */
  lemma SameValueRanks(raw: Column, g: Column, v: int, above: set<int>, same: set<int>)
    requires FollowsRanking(raw, g)
    requires above == set j | 0 <= j < |raw| && raw[j].Some? && g[j].value > v
    requires same == set j | 0 <= j < |raw| && raw[j].Some? && g[j].value == v
    ensures (set e | e in same :: Rank(raw, e)) == Interval(|above| + 1, |above| + |same| + 1)
  {
    var first, last := |above| + 1, |above| + |same|;
    forall e | e in same
      ensures first <= Rank(raw, e) <= last
    {
      BlockRankBounds(raw, g, e, v, above, same);
    }
    RanksFillInterval(raw, same, first, last);
  }

  /** Candidates whose distinct ranks all lie in an interval of their own size fill it. */
  lemma RanksFillInterval(raw: Column, rows: set<int>, first: int, last: int)
    requires rows <= Present(raw) && |rows| == last - first + 1
    requires forall e | e in rows :: first <= Rank(raw, e) <= last
    ensures (set e | e in rows :: Rank(raw, e)) == Interval(first, last + 1)
  {
    var ranks := set e | e in rows :: Rank(raw, e);
    var block := Interval(first, last + 1);
    assert ranks <= block;
    RankImageCard(raw, rows);
    IntervalCard(first, last + 1);
    SubsetSameCard(ranks, block);
  }

  /** A row of the block is ranked behind every row with a larger value and ahead of no other row. */
  lemma BlockRankBounds(raw: Column, g: Column, e: int, v: int, above: set<int>, same: set<int>)
    requires FollowsRanking(raw, g) && 0 <= e < |raw| && raw[e].Some? && g[e].value == v
    requires above == set j | 0 <= j < |raw| && raw[j].Some? && g[j].value > v
    requires same == set j | 0 <= j < |raw| && raw[j].Some? && g[j].value == v
    ensures |above| + 1 <= Rank(raw, e) <= |above| + |same|
  {
    AboveRankedAhead(raw, g, e, v, above);
    SubsetCard(above, Ahead(raw, e));
    AheadWithinBlock(raw, g, e, v, above, same);
    SubsetCard(Ahead(raw, e), above + (same - {e}));
    assert above * (same - {e}) == {};
    assert e in same;
  }

  /** Every row with a larger value is ranked ahead of row e. */
  lemma AboveRankedAhead(raw: Column, g: Column, e: int, v: int, above: set<int>)
    requires FollowsRanking(raw, g) && 0 <= e < |raw| && raw[e].Some? && g[e].value == v
    requires above == set j | 0 <= j < |raw| && raw[j].Some? && g[j].value > v
    ensures above <= Ahead(raw, e)
  {
    forall a | a in above
      ensures a in Ahead(raw, e)
    {
      if !RankedAhead(raw, a, e) {
        assert RankedAhead(raw, e, a);
      }
    }
  }

  /** Every row ranked ahead of row e has a larger value or the same one. */
  lemma AheadWithinBlock(raw: Column, g: Column, e: int, v: int, above: set<int>, same: set<int>)
    requires FollowsRanking(raw, g) && 0 <= e < |raw| && raw[e].Some? && g[e].value == v
    requires above == set j | 0 <= j < |raw| && raw[j].Some? && g[j].value > v
    requires same == set j | 0 <= j < |raw| && raw[j].Some? && g[j].value == v
    ensures Ahead(raw, e) <= above + (same - {e})
  {
    forall j | j in Ahead(raw, e)
      ensures j in above + (same - {e})
    {
      assert g[j].value >= g[e].value;
    }
  }

  /**
   * Ranking such a column g puts row i between two rows of its own value in the
   * raw ranking.
   */
  lemma RankWithinBlock(raw: Column, g: Column, i: int) returns (lo: int, hi: int)
    requires FollowsRanking(raw, g) && 0 <= i < |raw| && raw[i].Some?
    ensures 0 <= lo < |raw| && 0 <= hi < |raw| && raw[lo].Some? && raw[hi].Some?
    ensures g[lo] == g[i] && g[hi] == g[i]
    ensures Present(g) == Present(raw)
    ensures Rank(raw, lo) <= Rank(g, i) <= Rank(raw, hi)
  {
    assert Present(g) == Present(raw);
    var above := set j | 0 <= j < |raw| && raw[j].Some? && g[j].value > g[i].value;
    var same := set j | 0 <= j < |raw| && raw[j].Some? && g[j].value == g[i].value;
    var earlier := set j | j in same && j < i;
    assert Ahead(g, i) == above + earlier;
    assert above * earlier == {};
    SubsetCard(earlier, same - {i});
    assert i in same;
    SameValueRanks(raw, g, g[i].value, above, same);
    assert |above| + 1 in Interval(|above| + 1, |above| + |same| + 1);
    assert |above| + |same| in Interval(|above| + 1, |above| + |same| + 1);
    lo :| lo in same && Rank(raw, lo) == |above| + 1;
    hi :| hi in same && Rank(raw, hi) == |above| + |same|;
  }

  /** Ranking the graded column puts row i at a rank of the same level as before. */
  lemma RegradeKeepsLevel(raw: Column, i: int)
    requires 0 <= i < |raw| && raw[i].Some?
    ensures var g := GradedColumn(raw);
      g[i].Some? && Present(g) == Present(raw) && LevelOf(|Present(g)|, Rank(g, i)) == LevelAt(raw, i)
  {
    var g := GradedColumn(raw);
    forall a, b | 0 <= a < |raw| && 0 <= b < |raw| && RankedAhead(raw, a, b)
      ensures g[a].value >= g[b].value
    {
      GradeFollowsRank(raw, a, b);
    }
    var lo, hi := RankWithinBlock(raw, g, i);
    var n := |Present(raw)|;
    SameGradeSameLevel(raw, lo, i);
    SameGradeSameLevel(raw, hi, i);
    LevelMonotone(n, Rank(raw, lo), Rank(g, i));
    LevelMonotone(n, Rank(g, i), Rank(raw, hi));
  }
  /**
   * Grading the graded column again places every candidate at the same level:
   * the grades keep the ranking's blocks, and equal grades share one level.
   */
  lemma RegradeKeepsLevels(raw: Column)
    ensures AssignLevels(GradedColumn(raw)) == AssignLevels(raw)
  {
    var g := GradedColumn(raw);
    forall i | 0 <= i < |raw|
      ensures AssignLevels(g)[i] == AssignLevels(raw)[i]
    {
      if raw[i].Some? {
        RegradeKeepsLevel(raw, i);
      }
    }
  }
}
