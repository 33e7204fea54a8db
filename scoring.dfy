/**
 * `get_assignment_satisfaction_scores` in `app/algorithm.py` and the numpy
 * reductions the best-of-N search applies to its result.
 *
 * The scores are numpy floats: a held module the student left unranked adds
 * an infinite rank, and the formula divides by zero for a group where the
 * student holds no module or every module. `Ext` keeps those outcomes apart.
 */
module Scoring {
  import opened Wrappers
  import opened Sequences
  import opened Engine
  import opened Reports

  /** A numpy float: a real number, an infinity, or NaN. */
  datatype Ext = Real(r: real) | PosInf | NegInf | NaN

  /** `x + y`: NaN wins, and infinities of opposite sign give NaN. */
  function Add(x: Ext, y: Ext): Ext
  {
    match (x, y)
    case (NaN, _) => NaN
    case (_, NaN) => NaN
    case (PosInf, NegInf) => NaN
    case (NegInf, PosInf) => NaN
    case (PosInf, _) => PosInf
    case (_, PosInf) => PosInf
    case (NegInf, _) => NegInf
    case (_, NegInf) => NegInf
    case (Real(a), Real(b)) => Real(a + b)
  }

  /** `x / d` for a real divisor; a zero divisor gives NaN for 0 and an infinity of the dividend's sign otherwise. */
  function Divide(x: Ext, d: real): Ext
  {
    match x
    case NaN => NaN
    case PosInf => if d >= 0.0 then PosInf else NegInf
    case NegInf => if d >= 0.0 then NegInf else PosInf
    case Real(a) =>
      if d != 0.0 then Real(a / d)
      else if a == 0.0 then NaN
      else if a > 0.0 then PosInf
      else NegInf
  }

  /** `1 - x`. */
  function OneMinus(x: Ext): Ext
  {
    match x
    case Real(a) => Real(1.0 - a)
    case PosInf => NegInf
    case NegInf => PosInf
    case NaN => NaN
  }

  /** numpy `x >= y`: false whenever either side is NaN. */
  predicate Ge(x: Ext, y: Ext)
  {
    match (x, y)
    case (NaN, _) => false
    case (_, NaN) => false
    case (PosInf, _) => true
    case (_, PosInf) => false
    case (_, NegInf) => true
    case (NegInf, _) => false
    case (Real(a), Real(b)) => a >= b
  }

  lemma GeNaN(x: Ext, y: Ext)
    ensures Ge(x, y) ==> !x.NaN? && !y.NaN?
    ensures !x.NaN? && !y.NaN? ==> Ge(x, y) || Ge(y, x)
  {
  }

  // ----- the formula -----

  /** `np.sum(np.arange(lo, hi) + 1)`: the integers from `lo + 1` to `hi`. */
  function RangeSum(lo: int, hi: int): int
    decreases hi - lo
  {
    if hi <= lo then 0 else RangeSum(lo, hi - 1) + hi
  }

  lemma {:induction false} RangeSumLow(lo: int, hi: int)
    requires lo < hi
    ensures RangeSum(lo, hi) == RangeSum(lo + 1, hi) + lo + 1
    decreases hi - lo
  {
    if lo + 1 < hi {
      RangeSumLow(lo, hi - 1);
    }
  }

  /** Gauss: twice the sum is the count times the sum of the two ends. */
  lemma {:induction false} RangeSumClosed(lo: int, hi: int)
    requires lo <= hi
    ensures 2 * RangeSum(lo, hi) == (hi - lo) * (hi + lo + 1)
    decreases hi - lo
  {
    if lo < hi {
      RangeSumClosed(lo, hi - 1);
    }
  }

  /** The score of one group where the held ranks add up to `total` over `k` of its `m` modules. */
  function GroupScore(total: Ext, k: int, m: int): Ext
  {
    Score(total, RangeSum(0, k) as real, RangeSum(m - k, m) as real)
  }

  /** `1 - (total - best) / (worst - best)`, with the group's best and worst totals given. */
  function Score(total: Ext, best: real, worst: real): Ext
  {
    OneMinus(Divide(Add(total, Real(-best)), worst - best))
  }

  lemma {:induction false} Positive(a: int, b: int)
    requires a > 0 && b > 0
    ensures a * b > 0
  {
    if a > 1 {
      Positive(a - 1, b);
      assert a * b == (a - 1) * b + b;
    }
  }

  /** The spread between the worst and the best total for `k` of `m` modules is `k(m - k)`. */
  lemma Spread(k: int, m: int)
    requires 0 <= k <= m
    ensures RangeSum(m - k, m) - RangeSum(0, k) == k * (m - k)
    ensures (RangeSum(m - k, m) as real) - (RangeSum(0, k) as real) == (k * (m - k)) as real
    ensures 0 < k < m ==> k * (m - k) > 0
  {
    RangeSumClosed(m - k, m);
    RangeSumClosed(0, k);
    if 0 < k < m {
      Positive(k, m - k);
    }
  }

  /** The score divides the excess over the best total by the spread. */
  lemma GroupScoreReal(t: int, k: int, m: int)
    requires 0 < k < m
    ensures GroupScore(Real(t as real), k, m) == OneMinus(Real(((t - RangeSum(0, k)) as real) / ((k * (m - k)) as real)))
  {
    var b, w := RangeSum(0, k), RangeSum(m - k, m);
    Spread(k, m);
    ScoreReal(t as real, b as real, w as real);
    assert (t as real) - (b as real) == (t - b) as real;
  }

  /** For `0 < k < m` and finite ranks the score is `1 - (total - k(k+1)/2) / (k(m - k))`. */
  lemma GroupScoreFormula(t: int, k: int, m: int)
    requires 0 < k < m
    ensures GroupScore(Real(t as real), k, m) == Real(1.0 - ((t - RangeSum(0, k)) as real) / ((k * (m - k)) as real))
    ensures 2 * RangeSum(0, k) == k * (k + 1)
  {
    GroupScoreReal(t, k, m);
    RangeSumClosed(0, k);
  }

  /** With a spread the score is the real number `1 - (total - best) / (worst - best)`. */
  lemma ScoreReal(t: real, b: real, w: real)
    requires w != b
    ensures Score(Real(t), b, w) == Real(1.0 - (t - b) / (w - b))
    ensures t == b ==> Score(Real(t), b, w) == Real(1.0)
    ensures t == w ==> Score(Real(t), b, w) == Real(0.0)
  {
    assert Add(Real(t), Real(-b)) == Real(t - b);
    if t == b {
      QuotientEnds(w - b);
    } else if t == w {
      QuotientEnds(w - b);
    }
  }

  lemma QuotientEnds(d: real)
    requires d != 0.0
    ensures 0.0 / d == 0.0 && d / d == 1.0
  {
  }

  /** With no spread the formula divides by zero. */
  lemma ZeroSpread(total: Ext, k: int, m: int)
    requires RangeSum(m - k, m) == RangeSum(0, k)
    ensures GroupScore(total, k, m) == OneMinus(Divide(Add(total, Real(-(RangeSum(0, k) as real))), 0.0))
  {
  }

  /** No module held in the group: 0 / 0. */
  lemma GroupScoreNoneHeld(m: int)
    ensures GroupScore(Real(0.0), 0, m) == NaN
  {
    assert RangeSum(0, 0) == 0 && RangeSum(m - 0, m) == 0;
    assert Score(Real(0.0), 0.0, 0.0) == NaN;
  }

  /** Every module held: the spread is 0 and the score is not a number. */
  lemma GroupScoreAllHeld(total: Ext, m: int)
    requires 0 <= m
    ensures !GroupScore(total, m, m).Real?
  {
    Spread(m, m);
  }

  /** Holding the best-ranked `k` modules scores 1. */
  lemma GroupScoreBest(k: int, m: int)
    requires 0 < k < m
    ensures GroupScore(Real(RangeSum(0, k) as real), k, m) == Real(1.0)
  {
    Spread(k, m);
    ScoreReal(RangeSum(0, k) as real, RangeSum(0, k) as real, RangeSum(m - k, m) as real);
  }

  /** Holding the worst-ranked `k` modules scores 0. */
  lemma GroupScoreWorst(k: int, m: int)
    requires 0 < k < m
    ensures GroupScore(Real(RangeSum(m - k, m) as real), k, m) == Real(0.0)
  {
    Spread(k, m);
    ScoreReal(RangeSum(m - k, m) as real, RangeSum(0, k) as real, RangeSum(m - k, m) as real);
  }

  /** A total between the best and the worst gives a score between 0 and 1. */
  lemma GroupScoreBounds(t: int, k: int, m: int)
    requires 0 < k < m && RangeSum(0, k) <= t <= RangeSum(m - k, m)
    ensures GroupScore(Real(t as real), k, m).Real?
    ensures 0.0 <= GroupScore(Real(t as real), k, m).r <= 1.0
  {
    GroupScoreReal(t, k, m);
    Spread(k, m);
    var d := (k * (m - k)) as real;
    var x := (t - RangeSum(0, k)) as real;
    UnitQuotient(x, d);
  }

  lemma UnitQuotient(x: real, d: real)
    requires 0.0 <= x <= d && d > 0.0
    ensures 0.0 <= x / d <= 1.0
  {
    assert (x / d) * d == x;
  }

  // ----- distinct ranks -----

  /** The members of `s` among `1..top`, added up, and counted. */
  function SumIn(s: set<int>, top: int): int
    decreases top
  {
    if top <= 0 then 0 else SumIn(s, top - 1) + (if top in s then top else 0)
  }

  function CountIn(s: set<int>, top: int): int
    decreases top
  {
    if top <= 0 then 0 else CountIn(s, top - 1) + (if top in s then 1 else 0)
  }

  /** `k` distinct ranks out of `1..top` add up to at least `1 + .. + k` and at most `top - k + 1 + .. + top`. */
  lemma {:induction false} DistinctSumBounds(s: set<int>, top: int)
    requires top >= 0
    ensures 0 <= CountIn(s, top) <= top
    ensures RangeSum(0, CountIn(s, top)) <= SumIn(s, top) <= RangeSum(top - CountIn(s, top), top)
    decreases top
  {
    if top > 0 {
      DistinctSumBounds(s, top - 1);
      var k := CountIn(s, top - 1);
      if top in s {
        assert RangeSum(top - 1 - k, top) == RangeSum(top - 1 - k, top - 1) + top;
      } else {
        if k > 0 {
          RangeSumLow(top - 1 - k, top - 1);
          assert RangeSum(top - k, top) == RangeSum(top - k, top - 1) + top;
        }
      }
    }
  }

  lemma {:induction false} SumInEmpty(top: int)
    ensures SumIn({}, top) == 0 && CountIn({}, top) == 0
    decreases top
  {
    if top > 0 {
      SumInEmpty(top - 1);
    }
  }

  lemma {:induction false} SumInAdd(s: set<int>, x: int, top: int)
    requires x !in s && 1 <= x
    ensures SumIn(s + {x}, top) == SumIn(s, top) + (if x <= top then x else 0)
    ensures CountIn(s + {x}, top) == CountIn(s, top) + (if x <= top then 1 else 0)
    decreases top
  {
    if top > 0 {
      SumInAdd(s, x, top - 1);
    }
  }

  // ----- a student's score in one group -----

  /** The finite ranks of the held modules, 0 elsewhere. */
  function HeldRanks(row: seq<int>, ranks: seq<Rank>): (xs: seq<int>)
    requires |ranks| == |row|
    ensures |xs| == |row|
  {
    seq(|row|, m requires 0 <= m < |row| => if row[m] != 0 && ranks[m].Fin? then ranks[m].value else 0)
  }

  /** 1 at the held modules, 0 elsewhere. */
  function HeldOnes(row: seq<int>): (xs: seq<int>)
    ensures |xs| == |row|
  {
    seq(|row|, m requires 0 <= m < |row| => if row[m] != 0 then 1 else 0)
  }

  /** `per_group_pref_scores[g]`: the ranks of the held modules of group `g`, infinite if one of them is unranked. */
  function RankTotal(c: Config, row: seq<int>, ranks: seq<Rank>, g: nat): Ext
    requires |ranks| == |row|
  {
    if exists m :: 0 <= m < |row| && Selected(c, InGroup(g), m) && row[m] != 0 && ranks[m].Inf? then PosInf
    else Real(SumOver(c, HeldRanks(row, ranks), InGroup(g)) as real)
  }

  /** `per_group_assignment_counts[g]`. */
  function HeldCount(c: Config, row: seq<int>, g: nat): int
  {
    SumOver(c, HeldOnes(row), InGroup(g))
  }

  function StudentScore(c: Config, row: seq<int>, s: nat, g: nat): Ext
    requires ValidConfig(c) && s < |c.students| && |row| == |c.modules|
  {
    GroupScore(RankTotal(c, row, c.students[s].ranks, g), HeldCount(c, row, g), GroupSize(c, g))
  }

  /**
   * `get_assignment_satisfaction_scores`: one score per student and group;
   * `np.stack` of the empty list of rows raises when there is no student.
   */
  function Scores(c: Config, credits: seq<seq<int>>): (r: Result<seq<seq<Ext>>, string>)
    requires ValidConfig(c) && Rows(c, credits)
    ensures r.Failure? <==> |c.students| == 0
    ensures r.Success? ==> |r.value| == |c.students| && forall s :: 0 <= s < |c.students| ==>
              |r.value[s]| == |c.groups| && forall g :: 0 <= g < |c.groups| ==> r.value[s][g] == StudentScore(c, credits[s], s, g)
  {
    if |c.students| == 0 then Failure("ValueError: need at least one array to stack")
    else Success(seq(|c.students|, s requires 0 <= s < |c.students| =>
                   seq(|c.groups|, g requires 0 <= g < |c.groups| => StudentScore(c, credits[s], s, g))))
  }

  lemma {:induction false} SumOverPositive(c: Config, xs: seq<int>, sel: Selector, m: nat)
    requires forall i :: 0 <= i < |xs| ==> xs[i] >= 0
    requires m < |xs| && Selected(c, sel, m) && xs[m] > 0
    ensures SumOver(c, xs, sel) > 0
  {
    var n := |xs| - 1;
    SumOverNonNegative(c, xs[..n], sel);
    if m < n {
      SumOverPositive(c, xs[..n], sel, m);
    }
  }

  /** A student who holds no module of a group has an undefined score there. */
  lemma StudentScoreNoneHeld(c: Config, row: seq<int>, s: nat, g: nat)
    requires ValidConfig(c) && s < |c.students| && |row| == |c.modules|
    requires HeldCount(c, row, g) == 0
    ensures StudentScore(c, row, s, g) == NaN
  {
    var ranks := c.students[s].ranks;
    forall m | 0 <= m < |row| && Selected(c, InGroup(g), m)
      ensures row[m] == 0
    {
      if row[m] != 0 {
        SumOverPositive(c, HeldOnes(row), InGroup(g), m);
      }
    }
    SumOverZero(c, HeldRanks(row, ranks), InGroup(g));
    assert RankTotal(c, row, ranks, g) == Real(0.0);
    GroupScoreNoneHeld(GroupSize(c, g));
  }

  /** A student who holds every module of a group has no real score there. */
  lemma StudentScoreAllHeld(c: Config, row: seq<int>, s: nat, g: nat)
    requires ValidConfig(c) && s < |c.students| && |row| == |c.modules|
    requires HeldCount(c, row, g) == GroupSize(c, g) && GroupSize(c, g) >= 0
    ensures !StudentScore(c, row, s, g).Real?
  {
    GroupScoreAllHeld(RankTotal(c, row, c.students[s].ranks, g), GroupSize(c, g));
  }

  /** The group's modules carry distinct finite ranks between 1 and `top`. */
  predicate RanksDistinct(c: Config, ranks: seq<Rank>, g: nat, top: int)
  {
    && (forall m :: 0 <= m < |ranks| && Selected(c, InGroup(g), m) ==> ranks[m].Fin? && 1 <= ranks[m].value <= top)
    && forall a, b :: 0 <= a < b < |ranks| && Selected(c, InGroup(g), a) && Selected(c, InGroup(g), b) ==> ranks[a] != ranks[b]
  }

  /** The ranks of the held modules of group `g` below `n`. */
  ghost function RankSet(c: Config, row: seq<int>, ranks: seq<Rank>, g: nat, n: nat): set<int>
    requires n <= |row| == |ranks|
  {
    set m | 0 <= m < n && Selected(c, InGroup(g), m) && row[m] != 0 && ranks[m].Fin? :: ranks[m].value
  }

  /** Over distinct ranks, the rank total and the held count are the sum and the size of the set of held ranks. */
  lemma {:induction false} RankSetSums(c: Config, row: seq<int>, ranks: seq<Rank>, g: nat, n: nat, top: int)
    requires n <= |row| == |ranks| && RanksDistinct(c, ranks, g, top)
    ensures SumOver(c, HeldRanks(row, ranks)[..n], InGroup(g)) == SumIn(RankSet(c, row, ranks, g, n), top)
    ensures SumOver(c, HeldOnes(row)[..n], InGroup(g)) == CountIn(RankSet(c, row, ranks, g, n), top)
  {
    var xs, ones := HeldRanks(row, ranks), HeldOnes(row);
    if n == 0 {
      assert RankSet(c, row, ranks, g, 0) == {};
      SumInEmpty(top);
    } else {
      var p := n - 1;
      RankSetSums(c, row, ranks, g, p, top);
      assert xs[..n][..p] == xs[..p] && ones[..n][..p] == ones[..p];
      var before := RankSet(c, row, ranks, g, p);
      if Selected(c, InGroup(g), p) && row[p] != 0 {
        var x := ranks[p].value;
        assert RankSet(c, row, ranks, g, n) == before + {x};
        forall q | 0 <= q < p && Selected(c, InGroup(g), q) && row[q] != 0 && ranks[q].Fin?
          ensures ranks[q].value != x
        {
          assert ranks[q] != ranks[p];
        }
        assert x !in before;
        SumInAdd(before, x, top);
      } else {
        assert RankSet(c, row, ranks, g, n) == before;
      }
    }
  }

  /**
   * The promise of the score's documentation: when the group's ranks are
   * `1..m` in some order and the student holds some but not all of its `m`
   * modules, the score is a number between 0 and 1.
   */
  lemma StudentScoreInUnitRange(c: Config, row: seq<int>, s: nat, g: nat)
    requires ValidConfig(c) && s < |c.students| && |row| == |c.modules|
    requires RanksDistinct(c, c.students[s].ranks, g, GroupSize(c, g))
    requires 0 < HeldCount(c, row, g) < GroupSize(c, g)
    ensures StudentScore(c, row, s, g).Real?
    ensures 0.0 <= StudentScore(c, row, s, g).r <= 1.0
  {
    var ranks, m := c.students[s].ranks, GroupSize(c, g);
    RankSetSums(c, row, ranks, g, |row|, m);
    assert HeldRanks(row, ranks)[..|row|] == HeldRanks(row, ranks);
    assert HeldOnes(row)[..|row|] == HeldOnes(row);
    var set_ := RankSet(c, row, ranks, g, |row|);
    DistinctSumBounds(set_, m);
    GroupScoreBounds(SumOver(c, HeldRanks(row, ranks), InGroup(g)), HeldCount(c, row, g), m);
  }

  // ----- reductions -----

  /** The scores of every student, row after row, as numpy reduces them. */
  function Flatten(t: seq<seq<Ext>>): (xs: seq<Ext>)
    ensures forall s, g :: 0 <= s < |t| && 0 <= g < |t[s]| ==> t[s][g] in xs
  {
    if |t| == 0 then [] else Flatten(t[..|t| - 1]) + t[|t| - 1]
  }

  /** The entries added up, from the front. */
  function Total(xs: seq<Ext>): Ext
  {
    if |xs| == 0 then Real(0.0) else Add(Total(xs[..|xs| - 1]), xs[|xs| - 1])
  }

  /** The total is NaN exactly when an entry is, or when both infinities occur. */
  lemma {:induction false} TotalNaN(xs: seq<Ext>)
    ensures Total(xs).NaN? <==> NaN in xs || (PosInf in xs && NegInf in xs)
    ensures Total(xs).PosInf? <==> NaN !in xs && PosInf in xs && NegInf !in xs
    ensures Total(xs).NegInf? <==> NaN !in xs && NegInf in xs && PosInf !in xs
  {
    if |xs| > 0 {
      var p := xs[..|xs| - 1];
      TotalNaN(p);
      assert xs == p + [xs[|xs| - 1]];
    }
  }

  /** `np.mean`: NaN for no entries. */
  function Mean(xs: seq<Ext>): Ext
  {
    if |xs| == 0 then NaN else Divide(Total(xs), |xs| as real)
  }

  /** The entries that are not NaN. */
  function Defined(xs: seq<Ext>): (ys: seq<Ext>)
    ensures forall x :: x in ys <==> x in xs && !x.NaN?
  {
    if |xs| == 0 then []
    else Defined(xs[..|xs| - 1]) + (if xs[|xs| - 1].NaN? then [] else [xs[|xs| - 1]])
  }

  /** `np.nanmean`: the mean of the entries that are not NaN. */
  function NanMean(xs: seq<Ext>): Ext
  {
    Mean(Defined(xs))
  }

  /** One NaN makes the plain mean NaN. */
  lemma MeanNaN(xs: seq<Ext>)
    requires NaN in xs
    ensures Mean(xs) == NaN
  {
    TotalNaN(xs);
  }

  /** The NaN-skipping mean is NaN only when every entry is NaN or both infinities occur. */
  lemma NanMeanNaN(xs: seq<Ext>)
    ensures NanMean(xs).NaN? <==> (forall x :: x in xs ==> x.NaN?) || (PosInf in xs && NegInf in xs)
  {
    var ys := Defined(xs);
    TotalNaN(ys);
    if |ys| > 0 {
      assert ys[0] in ys;
    }
  }

  /** The smaller of two values; NaN propagates, as in `np.min`. */
  function Lower(x: Ext, y: Ext): Ext
  {
    if x.NaN? || y.NaN? then NaN else if Ge(y, x) then x else y
  }

  function MinOf(xs: seq<Ext>): Ext
    requires |xs| > 0
  {
    if |xs| == 1 then xs[0] else Lower(MinOf(xs[..|xs| - 1]), xs[|xs| - 1])
  }

  /** `np.min`: raises on no entries. */
  function Min(xs: seq<Ext>): (r: Result<Ext, string>)
    ensures r.Failure? <==> |xs| == 0
  {
    if |xs| == 0 then Failure("ValueError: zero-size array") else Success(MinOf(xs))
  }

  /** The minimum is NaN when an entry is; otherwise it is an entry and no entry is below it. */
  lemma {:induction false} MinOfMeaning(xs: seq<Ext>)
    requires |xs| > 0
    ensures NaN in xs ==> MinOf(xs) == NaN
    ensures NaN !in xs ==> MinOf(xs) in xs && forall x :: x in xs ==> Ge(x, MinOf(xs))
  {
    if |xs| > 1 {
      var p := xs[..|xs| - 1];
      MinOfMeaning(p);
      assert xs == p + [xs[|xs| - 1]];
      forall x: Ext, y: Ext | !x.NaN? && !y.NaN? ensures Ge(x, y) || Ge(y, x) { GeNaN(x, y); }
    } else {
      assert xs == [xs[0]];
    }
  }
}
