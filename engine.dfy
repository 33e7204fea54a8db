/**
 * The value layer of `ModuleAssigner` in `app/algorithm.py`: the deep-copied
 * modules and students, one student's row of assigned credits, the bundle a
 * round offers, the checks a bundle must pass, and what committing it does.
 *
 * Modules are numbered by their position in `_modules`; module groups and
 * semesters by their position in `_unique_module_groups` and
 * `_unique_semesters`. The per-group credit matrices of the source are the
 * column blocks of one row per student, indexed by module.
 */
module Engine {
  import opened Sequences

  /** A loaded rank: a number, or infinity for a module the student left unranked. */
  datatype Rank = Fin(value: int) | Inf

  predicate RankLe(a: Rank, b: Rank)
  {
    b.Inf? || (a.Fin? && a.value <= b.value)
  }

  /** A module as the assigner sees it; its relations name other modules by position. */
  datatype ModuleInfo = ModuleInfo(id: string, name: string, credits: int, semester: int, group: string,
                                   totalSpaces: int, available: int, exclusions: set<nat>, requirements: set<nat>)

  /** A student: preferred credits per group (by group position) and a rank per module (by module position). */
  datatype StudentInfo = StudentInfo(name: string, id: string, groupPrefs: seq<int>, ranks: seq<Rank>, excluded: seq<string>)

  /** What the assigner is built from; the caps are listed by group and by semester position. */
  datatype Config = Config(modules: seq<ModuleInfo>, students: seq<StudentInfo>,
                           groups: seq<string>, semesters: seq<int>, required: int,
                           maxPerGroup: seq<int>, maxPerSemester: seq<int>,
                           minPerGroup: seq<int>, minPerSemester: seq<int>)

  /** Module `m`'s group and semester are listed, and its relations name modules; requirements share its group. */
  predicate ModuleFits(c: Config, m: nat)
    requires m < |c.modules|
  {
    var mod := c.modules[m];
    && mod.group in c.groups && mod.semester in c.semesters
    && (forall x :: x in mod.exclusions ==> x < |c.modules|)
    && (forall x :: x in mod.requirements ==> x < |c.modules| && c.modules[x].group == mod.group)
  }

  predicate ValidConfig(c: Config)
  {
    && Distinct(c.groups) && Distinct(c.semesters)
    && |c.maxPerGroup| == |c.groups| && |c.minPerGroup| == |c.groups|
    && |c.maxPerSemester| == |c.semesters| && |c.minPerSemester| == |c.semesters|
    && (forall m :: 0 <= m < |c.modules| ==> ModuleFits(c, m))
    && (forall s :: 0 <= s < |c.students| ==>
          |c.students[s].groupPrefs| == |c.groups| && |c.students[s].ranks| == |c.modules|)
  }

  // ----- Sums over a student's row -----

  /** The modules of a group, or of a semester. */
  datatype Selector = InGroup(g: nat) | InSemester(t: nat)

  predicate Selected(c: Config, sel: Selector, m: nat)
  {
    && m < |c.modules|
    && match sel
       case InGroup(g) => g < |c.groups| && c.modules[m].group == c.groups[g]
       case InSemester(t) => t < |c.semesters| && c.modules[m].semester == c.semesters[t]
  }

  /** The entries of `xs` at the selected modules, added up. */
  function SumOver(c: Config, xs: seq<int>, sel: Selector): int
  {
    if |xs| == 0 then 0
    else
      var n := |xs| - 1;
      SumOver(c, xs[..n], sel) + (if Selected(c, sel, n) then xs[n] else 0)
  }

  lemma {:induction false} SumOverPlus(c: Config, xs: seq<int>, ys: seq<int>, sel: Selector)
    requires |xs| == |ys|
    ensures SumOver(c, Plus(xs, ys), sel) == SumOver(c, xs, sel) + SumOver(c, ys, sel)
  {
    if |xs| > 0 {
      var n := |xs| - 1;
      assert Plus(xs, ys)[..n] == Plus(xs[..n], ys[..n]);
      SumOverPlus(c, xs[..n], ys[..n], sel);
    }
  }

  /** Only selected modules count. */
  lemma {:induction false} SumOverZero(c: Config, xs: seq<int>, sel: Selector)
    requires forall m :: 0 <= m < |xs| && Selected(c, sel, m) ==> xs[m] == 0
    ensures SumOver(c, xs, sel) == 0
  {
    if |xs| > 0 {
      SumOverZero(c, xs[..|xs| - 1], sel);
    }
  }

  /** Sums over non-negative entries are non-negative. */
  lemma {:induction false} SumOverNonNegative(c: Config, xs: seq<int>, sel: Selector)
    requires forall m :: 0 <= m < |xs| ==> xs[m] >= 0
    ensures SumOver(c, xs, sel) >= 0
  {
    if |xs| > 0 {
      SumOverNonNegative(c, xs[..|xs| - 1], sel);
    }
  }

  /** The number of modules in group `g`: `modules_per_group[g]`. */
  function GroupSize(c: Config, g: nat): int
  {
    SumOver(c, seq(|c.modules|, m => 1), InGroup(g))
  }

  /** The modules a row holds: `np.nonzero` of the row. */
  function Held(row: seq<int>): set<nat>
  {
    set m: nat | m < |row| && row[m] != 0
  }

  /** `np.sum(a, axis=1)` of group `g`'s matrix, for one student. */
  function GroupTotal(c: Config, row: seq<int>, g: nat): int
  {
    SumOver(c, row, InGroup(g))
  }

  /** A student's row of `assigned_credits_total`: the credits held in each group. */
  function GroupTotals(c: Config, row: seq<int>): (ts: seq<int>)
    ensures |ts| == |c.groups| && forall g :: 0 <= g < |c.groups| ==> ts[g] == GroupTotal(c, row, g)
  {
    seq(|c.groups|, g requires 0 <= g < |c.groups| => GroupTotal(c, row, g))
  }

  /** `np.sum(assigned_credits_total[s])`. */
  function StudentTotal(c: Config, row: seq<int>): int
  {
    Sum(GroupTotals(c, row))
  }

  /** A sequence with one entry `x` and zeros elsewhere adds up to `x`. */
  lemma {:induction false} SumSingle(ys: seq<int>, j: nat, x: int)
    requires j < |ys| && ys[j] == x
    requires forall k :: 0 <= k < |ys| && k != j ==> ys[k] == 0
    ensures Sum(ys) == x
  {
    var n := |ys| - 1;
    if n == j {
      SumZero(ys[..n]);
    } else {
      SumSingle(ys[..n], j, x);
    }
  }

  lemma {:induction false} SumZero(ys: seq<int>)
    requires forall k :: 0 <= k < |ys| ==> ys[k] == 0
    ensures Sum(ys) == 0
  {
    if |ys| > 0 {
      SumZero(ys[..|ys| - 1]);
    }
  }

  /**
   * Every module lies in exactly one group, so adding up the group totals
   * gives the sum of the whole row.
   */
  lemma {:induction false} GroupPartition(c: Config, xs: seq<int>)
    requires ValidConfig(c) && |xs| <= |c.modules|
    ensures StudentTotal(c, xs) == Sum(xs)
  {
    if |xs| == 0 {
      SumZero(GroupTotals(c, xs));
    } else {
      var n := |xs| - 1;
      var x := xs[n];
      GroupPartition(c, xs[..n]);
      var ind := seq(|c.groups|, g requires 0 <= g < |c.groups| => if Selected(c, InGroup(g), n) then x else 0);
      assert GroupTotals(c, xs) == Plus(GroupTotals(c, xs[..n]), ind);
      SumPlus(GroupTotals(c, xs[..n]), ind);
      assert ModuleFits(c, n);
      var j := FirstIndex(c.groups, c.modules[n].group);
      forall k | 0 <= k < |ind| && k != j
        ensures ind[k] == 0
      {
        if j < k { assert c.groups[j] != c.groups[k]; } else { assert c.groups[k] != c.groups[j]; }
      }
      SumSingle(ind, j, x);
    }
  }

  /** The credits of each held module, as the round adds them up per semester. */
  function HeldCredits(c: Config, row: seq<int>): (hs: seq<int>)
    requires |row| == |c.modules|
    ensures |hs| == |row|
  {
    seq(|row|, m requires 0 <= m < |row| => if row[m] != 0 then c.modules[m].credits else 0)
  }

  /** A student's credits in semester `t`, counted over the modules held. */
  function SemesterCredits(c: Config, row: seq<int>, t: nat): int
    requires |row| == |c.modules|
  {
    SumOver(c, HeldCredits(c, row), InSemester(t))
  }

  // ----- Bundles -----

  /** `set(module.requirements + [module]).difference(student_assigned_modules)`. */
  function Bundle(c: Config, row: seq<int>, k: nat): (b: set<nat>)
    requires ValidConfig(c) && k < |c.modules|
    ensures forall m :: m in b ==> m !in Held(row) && m < |c.modules|
  {
    assert ModuleFits(c, k);
    ({k} + c.modules[k].requirements) - Held(row)
  }

  /** The bundle's credits placed at its modules. */
  function Delta(c: Config, b: set<nat>): (d: seq<int>)
    ensures |d| == |c.modules|
  {
    seq(|c.modules|, m requires 0 <= m < |c.modules| => if m in b then c.modules[m].credits else 0)
  }

  /** `requested_credits_per_group[g]`. */
  function BundleGroup(c: Config, b: set<nat>, g: nat): int
  {
    SumOver(c, Delta(c, b), InGroup(g))
  }

  /** `requested_credits_per_semester[t]`. */
  function BundleSemester(c: Config, b: set<nat>, t: nat): int
  {
    SumOver(c, Delta(c, b), InSemester(t))
  }

  /** The seven checks the round makes on a bundle. */
  datatype Flags = Flags(spaceRemaining: bool, notExcluded: bool, notExcludedByStudent: bool,
                         notTooManyPerGroup: bool, notTooManyTotal: bool, semesterOk: bool,
                         preferencesOk: bool)

  predicate AllPass(f: Flags)
  {
    f.spaceRemaining && f.notExcluded && f.notExcludedByStudent && f.notTooManyPerGroup
    && f.notTooManyTotal && f.semesterOk && f.preferencesOk
  }

  /** Module `m` has the student's largest rank in group `g`. */
  predicate LeastPreferred(c: Config, s: nat, g: nat, m: nat)
    requires ValidConfig(c) && s < |c.students| && m < |c.modules|
  {
    forall x :: 0 <= x < |c.modules| && Selected(c, InGroup(g), x) ==> RankLe(c.students[s].ranks[x], c.students[s].ranks[m])
  }

  /** Every member of the bundle still has a free space. */
  predicate HasSpace(spaces: seq<int>, b: set<nat>)
  {
    forall m :: m in b ==> m < |spaces| && spaces[m] > 0
  }

  /** The credits a student would hold in each group after taking the bundle. */
  function TotalsAfter(c: Config, row: seq<int>, b: set<nat>): (ts: seq<int>)
    ensures |ts| == |c.groups|
  {
    seq(|c.groups|, g requires 0 <= g < |c.groups| => GroupTotal(c, row, g) + BundleGroup(c, b, g))
  }

  /** No member is excluded by a module the student holds. */
  predicate NotExcluded(c: Config, row: seq<int>, b: set<nat>)
    requires ValidConfig(c) && |row| == |c.modules|
  {
    forall m, h :: m in b && h in Held(row) ==> m !in c.modules[h].exclusions
  }

  /** No member's id is among the student's excluded ids. */
  predicate NotExcludedByStudent(c: Config, s: nat, b: set<nat>)
    requires ValidConfig(c) && s < |c.students| && forall m :: m in b ==> m < |c.modules|
  {
    forall m :: m in b ==> c.modules[m].id !in c.students[s].excluded
  }

  /** Every group stays within its maximum. */
  predicate WithinGroupCaps(c: Config, row: seq<int>, b: set<nat>)
    requires ValidConfig(c)
  {
    var after := TotalsAfter(c, row, b);
    forall x :: 0 <= x < |c.groups| ==> after[x] <= c.maxPerGroup[x]
  }

  /** The total stays within the required credits. */
  predicate WithinTotal(c: Config, row: seq<int>, b: set<nat>)
  {
    Sum(TotalsAfter(c, row, b)) <= c.required
  }

  /** Every semester stays within its maximum. */
  predicate WithinSemesterCaps(c: Config, row: seq<int>, b: set<nat>)
    requires ValidConfig(c) && |row| == |c.modules|
  {
    forall t :: 0 <= t < |c.semesters| ==> SemesterCredits(c, row, t) + BundleSemester(c, b, t) <= c.maxPerSemester[t]
  }

  /** No member is the student's least preferred module of the group, unless that is allowed. */
  predicate PreferencesOk(c: Config, s: nat, g: nat, b: set<nat>, allow: bool)
    requires ValidConfig(c) && s < |c.students| && forall m :: m in b ==> m < |c.modules|
  {
    !(exists m :: m in b && LeastPreferred(c, s, g, m)) || allow
  }

  /** The six checks that do not depend on the spaces left. */
  predicate Admissible(c: Config, row: seq<int>, s: nat, g: nat, b: set<nat>, allow: bool)
    requires ValidConfig(c) && s < |c.students| && |row| == |c.modules|
    requires forall m :: m in b ==> m < |c.modules|
  {
    && NotExcluded(c, row, b) && NotExcludedByStudent(c, s, b) && WithinGroupCaps(c, row, b)
    && WithinTotal(c, row, b) && WithinSemesterCaps(c, row, b) && PreferencesOk(c, s, g, b, allow)
  }

  /** The checks of `run_assignment_round` on the bundle `b` offered to student `s` from group `g`. */
  function Evaluate(c: Config, row: seq<int>, spaces: seq<int>, s: nat, g: nat, b: set<nat>, allow: bool): (f: Flags)
    requires ValidConfig(c) && s < |c.students| && |row| == |c.modules|
    requires forall m :: m in b ==> m < |c.modules|
    ensures AllPass(f) <==> HasSpace(spaces, b) && Admissible(c, row, s, g, b, allow)
  {
    Flags(HasSpace(spaces, b), NotExcluded(c, row, b), NotExcludedByStudent(c, s, b), WithinGroupCaps(c, row, b),
          WithinTotal(c, row, b), WithinSemesterCaps(c, row, b), PreferencesOk(c, s, g, b, allow))
  }

  /** The row after the bundle is taken: each member's cell holds the module's credits. */
  function Take(c: Config, row: seq<int>, b: set<nat>): (r: seq<int>)
    requires |row| == |c.modules|
    ensures |r| == |row|
  {
    seq(|row|, m requires 0 <= m < |row| => if m in b then c.modules[m].credits else row[m])
  }

  /** The spaces after the bundle is taken: one fewer on each member. */
  function Release(spaces: seq<int>, b: set<nat>): (r: seq<int>)
    ensures |r| == |spaces|
  {
    seq(|spaces|, m requires 0 <= m < |spaces| => if m in b then spaces[m] - 1 else spaces[m])
  }

  /** One step of the commit loop: module `m` moves from the rest of `b` to the part already taken. */
  lemma TakeNext(c: Config, row: seq<int>, b: set<nat>, rest: set<nat>, m: nat)
    requires |row| == |c.modules| && m < |c.modules| && m in rest && rest <= b
    ensures Take(c, row, b - (rest - {m})) == Take(c, row, b - rest)[m := c.modules[m].credits]
  {
    assert b - (rest - {m}) == (b - rest) + {m};
  }

  lemma ReleaseNext(spaces: seq<int>, b: set<nat>, rest: set<nat>, m: nat)
    requires m < |spaces| && m in rest && rest <= b
    ensures Release(spaces, b - (rest - {m})) == Release(spaces, b - rest)[m := Release(spaces, b - rest)[m] - 1]
  {
    assert b - (rest - {m}) == (b - rest) + {m};
  }

  /** Taking a bundle of unheld modules adds its credits to the row. */
  lemma TakeIsPlus(c: Config, row: seq<int>, b: set<nat>)
    requires |row| == |c.modules| && forall m :: m in b ==> m !in Held(row)
    ensures Take(c, row, b) == Plus(row, Delta(c, b))
    ensures HeldCredits(c, Take(c, row, b)) == Plus(HeldCredits(c, row), Delta(c, b))
  {
    forall m | 0 <= m < |row| && m in b ensures row[m] == 0 {
      assert m !in Held(row);
    }
  }

  /**
   * A bundle that passed the checks leaves the student within the required
   * total, within every group's and every semester's maximum, holding nothing
   * excluded by what it held before or by the student.
   */
  lemma {:induction false} TakeKeepsCaps(c: Config, row: seq<int>, s: nat, g: nat, b: set<nat>, allow: bool)
    requires ValidConfig(c) && s < |c.students| && |row| == |c.modules|
    requires forall m :: m in b ==> m !in Held(row) && m < |c.modules|
    requires Admissible(c, row, s, g, b, allow)
    ensures StudentTotal(c, Take(c, row, b)) <= c.required
    ensures forall x :: 0 <= x < |c.groups| ==> GroupTotal(c, Take(c, row, b), x) <= c.maxPerGroup[x]
    ensures forall t :: 0 <= t < |c.semesters| ==> SemesterCredits(c, Take(c, row, b), t) <= c.maxPerSemester[t]
    ensures forall m, h :: m in b && h in Held(row) ==> m !in c.modules[h].exclusions
    ensures forall m :: m in b ==> c.modules[m].id !in c.students[s].excluded
    ensures !allow ==> forall m :: m in b ==> !LeastPreferred(c, s, g, m)
  {
    var row' := Take(c, row, b);
    TakeIsPlus(c, row, b);
    forall x | 0 <= x < |c.groups|
      ensures GroupTotal(c, row', x) == GroupTotal(c, row, x) + BundleGroup(c, b, x)
    {
      SumOverPlus(c, row, Delta(c, b), InGroup(x));
    }
    assert GroupTotals(c, row') == TotalsAfter(c, row, b);
    forall t | 0 <= t < |c.semesters|
      ensures SemesterCredits(c, row', t) == SemesterCredits(c, row, t) + BundleSemester(c, b, t)
    {
      SumOverPlus(c, HeldCredits(c, row), Delta(c, b), InSemester(t));
    }
  }
}
