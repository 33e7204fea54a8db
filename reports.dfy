/**
 * The read-only views of `ModuleAssigner` in `app/algorithm.py`, as functions
 * of the assigner's configuration and of its fields: the credit totals, the
 * modules a student holds, the allocation table, the two minimum checks and
 * the excess-request report.
 */
module Reports {
  import opened Wrappers
  import opened Sequences
  import opened Engine
  import opened Rounds

  /** `_student_ids`. */
  function Ids(c: Config): (ids: seq<string>)
    ensures |ids| == |c.students| && forall s :: 0 <= s < |c.students| ==> ids[s] == c.students[s].id
  {
    seq(|c.students|, s requires 0 <= s < |c.students| => c.students[s].id)
  }

  /** Every row has one cell per module. */
  predicate Rows(c: Config, credits: seq<seq<int>>)
  {
    |credits| == |c.students| && forall s :: 0 <= s < |credits| ==> |credits[s]| == |c.modules|
  }

  // ----- get_assigned_credits_totals -----

  /** `get_assigned_credits_totals`: per student, the group totals added up. */
  function AssignedCreditsTotals(c: Config, credits: seq<seq<int>>): (ts: seq<int>)
    requires Rows(c, credits)
    ensures |ts| == |credits|
  {
    seq(|credits|, s requires 0 <= s < |credits| => StudentTotal(c, credits[s]))
  }

  /** Each total is the sum of the student's whole row: every module lies in one group. */
  lemma AssignedCreditsTotalsMeaning(c: Config, credits: seq<seq<int>>, s: nat)
    requires ValidConfig(c) && Rows(c, credits) && s < |credits|
    ensures AssignedCreditsTotals(c, credits)[s] == Sum(credits[s])
  {
    GroupPartition(c, credits[s]);
  }

  // ----- get_assigned_modules -----

  /** `np.nonzero(group[s_idx])` for group `g`: its held modules below `n`, in module order. */
  function GroupHeld(c: Config, row: seq<int>, g: nat, n: nat): (ms: seq<nat>)
    requires n <= |row|
    ensures forall x: nat :: x in ms <==> x < n && Selected(c, InGroup(g), x) && row[x] != 0
    ensures forall i, j :: 0 <= i < j < |ms| ==> ms[i] < ms[j]
  {
    if n == 0 then []
    else
      var p := GroupHeld(c, row, g, n - 1);
      assert forall i :: 0 <= i < |p| ==> p[i] in p;
      p + (if Selected(c, InGroup(g), n - 1) && row[n - 1] != 0 then [n - 1] else [])
  }

  /** The held modules of the first `k` groups, group after group. */
  function Listing(c: Config, row: seq<int>, k: nat): (ms: seq<nat>)
    requires k <= |c.groups|
  {
    if k == 0 then [] else Listing(c, row, k - 1) + GroupHeld(c, row, k - 1, |row|)
  }

  /** A module is listed exactly when it belongs to one of the first `k` groups and is held; none twice. */
  lemma {:induction false} ListingMeaning(c: Config, row: seq<int>, k: nat)
    requires ValidConfig(c) && k <= |c.groups|
    ensures Distinct(Listing(c, row, k))
    ensures forall x: nat :: x in Listing(c, row, k) <==>
              x < |row| && row[x] != 0 && x < |c.modules| && c.modules[x].group in c.groups[..k]
  {
    if k > 0 {
      ListingMeaning(c, row, k - 1);
      var a := Listing(c, row, k - 1);
      var b := GroupHeld(c, row, k - 1, |row|);
      assert c.groups[..k] == c.groups[..k - 1] + [c.groups[k - 1]];
      forall i, j | 0 <= i < |a| && 0 <= j < |b|
        ensures a[i] != b[j]
      {
        assert a[i] in a && b[j] in b;
        assert c.groups[k - 1] !in c.groups[..k - 1] by {
          forall q | 0 <= q < k - 1 ensures c.groups[q] != c.groups[k - 1] {}
        }
      }
      assert Distinct(a + b) by {
        forall i, j | 0 <= i < j < |a + b|
          ensures (a + b)[i] != (a + b)[j]
        {
          if j < |a| {
          } else if i >= |a| {
            assert b[i - |a|] < b[j - |a|];
          } else {
            assert (a + b)[i] == a[i] && (a + b)[j] == b[j - |a|];
          }
        }
      }
    }
  }

  /**
   * `get_assigned_modules(id)`: `.index` finds the first student with the id
   * (a ValueError when there is none); that student's held modules are listed
   * group by group.
   */
  function AssignedModules(c: Config, credits: seq<seq<int>>, id: string): (r: Result<seq<nat>, string>)
    requires Rows(c, credits)
    ensures r.Failure? <==> id !in Ids(c)
  {
    if id in Ids(c) then Success(Listing(c, credits[FirstIndex(Ids(c), id)], |c.groups|))
    else Failure("ValueError: " + id + " is not in list")
  }

  /** The list holds, once each, exactly the modules the first student with the id holds. */
  lemma AssignedModulesMeaning(c: Config, credits: seq<seq<int>>, id: string)
    requires ValidConfig(c) && Rows(c, credits) && id in Ids(c)
    ensures var row := credits[FirstIndex(Ids(c), id)];
            var ms := AssignedModules(c, credits, id).value;
            Distinct(ms) && forall x: nat :: x in ms <==> x < |c.modules| && row[x] != 0
  {
    var row := credits[FirstIndex(Ids(c), id)];
    ListingMeaning(c, row, |c.groups|);
    assert c.groups[..|c.groups|] == c.groups;
    forall x: nat | x < |c.modules| ensures c.modules[x].group in c.groups { assert ModuleFits(c, x); }
  }

  /** With distinct ids, a student's own row is the one read. */
  lemma AssignedModulesOwnRow(c: Config, credits: seq<seq<int>>, s: nat)
    requires Rows(c, credits) && Distinct(Ids(c)) && s < |c.students|
    ensures AssignedModules(c, credits, c.students[s].id) == Success(Listing(c, credits[s], |c.groups|))
  {
    FirstIndexOfDistinct(Ids(c), s);
  }

  // ----- get_all_assigned_modules -----

  /** The allocation columns of `get_all_assigned_modules`: the student's rank of each module assigned, else 0. */
  function AllAssignedModules(c: Config, credits: seq<seq<int>>): (t: seq<seq<Rank>>)
    requires ValidConfig(c) && Rows(c, credits)
    ensures |t| == |c.students| && forall s :: 0 <= s < |t| ==> |t[s]| == |c.modules|
  {
    seq(|c.students|, s requires 0 <= s < |c.students| =>
      var held := AssignedModules(c, credits, c.students[s].id).value;
      seq(|c.modules|, m requires 0 <= m < |c.modules| => if m in held then c.students[s].ranks[m] else Fin(0)))
  }

  /** With distinct ids, a cell shows the rank exactly where the student's own row holds the module. */
  lemma AllAssignedModulesMeaning(c: Config, credits: seq<seq<int>>, s: nat, m: nat)
    requires ValidConfig(c) && Rows(c, credits) && Distinct(Ids(c)) && s < |c.students| && m < |c.modules|
    ensures AllAssignedModules(c, credits)[s][m] == if credits[s][m] != 0 then c.students[s].ranks[m] else Fin(0)
  {
    AssignedModulesOwnRow(c, credits, s);
    AssignedModulesMeaning(c, credits, c.students[s].id);
    FirstIndexOfDistinct(Ids(c), s);
  }

  // ----- get_assigned_module_students -----

  /** The students among the first `n`, in order, whose assigned modules include module `m`. */
  function ModuleStudents(c: Config, credits: seq<seq<int>>, m: nat, n: nat): (ss: seq<nat>)
    requires ValidConfig(c) && Rows(c, credits) && n <= |c.students|
    ensures forall i, j :: 0 <= i < j < |ss| ==> ss[i] < ss[j]
    ensures forall s :: s in ss ==> s < n
  {
    if n == 0 then []
    else
      var p := ModuleStudents(c, credits, m, n - 1);
      assert forall i :: 0 <= i < |p| ==> p[i] in p;
      p + (if m in AssignedModules(c, credits, c.students[n - 1].id).value then [n - 1] else [])
  }

  /** With distinct ids, module `m`'s list holds exactly the students whose row holds it. */
  lemma {:induction false} ModuleStudentsMeaning(c: Config, credits: seq<seq<int>>, m: nat, n: nat)
    requires ValidConfig(c) && Rows(c, credits) && Distinct(Ids(c)) && m < |c.modules| && n <= |c.students|
    ensures forall s: nat :: s in ModuleStudents(c, credits, m, n) <==> s < n && credits[s][m] != 0
  {
    if n > 0 {
      ModuleStudentsMeaning(c, credits, m, n - 1);
      var s := n - 1;
      AssignedModulesOwnRow(c, credits, s);
      AssignedModulesMeaning(c, credits, c.students[s].id);
      FirstIndexOfDistinct(Ids(c), s);
      assert m in AssignedModules(c, credits, c.students[s].id).value <==> credits[s][m] != 0;
    }
  }

  // ----- the minimum checks -----

  /** `assignment_satisfies_minimum_credits_per_group`: one flag per student and group. */
  function MinimumPerGroup(c: Config, credits: seq<seq<int>>): (t: seq<seq<bool>>)
    requires ValidConfig(c) && Rows(c, credits)
    ensures |t| == |credits| && forall s :: 0 <= s < |t| ==> |t[s]| == |c.groups|
  {
    seq(|credits|, s requires 0 <= s < |credits| =>
      seq(|c.groups|, g requires 0 <= g < |c.groups| => GroupTotal(c, credits[s], g) >= c.minPerGroup[g]))
  }

  /** A student meeting every group minimum holds at least the minima added up. */
  lemma GroupMinimaBoundTotal(c: Config, credits: seq<seq<int>>, s: nat)
    requires ValidConfig(c) && Rows(c, credits) && s < |credits|
    requires forall g :: 0 <= g < |c.groups| ==> MinimumPerGroup(c, credits)[s][g]
    ensures Sum(credits[s]) >= Sum(c.minPerGroup)
  {
    forall g | 0 <= g < |c.groups|
      ensures c.minPerGroup[g] <= GroupTotals(c, credits[s])[g]
    {
      assert MinimumPerGroup(c, credits)[s][g];
    }
    SumMonotone(c.minPerGroup, GroupTotals(c, credits[s]));
    GroupPartition(c, credits[s]);
  }

  /** Group `g` has no module of semester `t`. */
  predicate NoModuleIn(c: Config, t: nat, g: nat)
  {
    forall m :: 0 <= m < |c.modules| ==> !(Selected(c, InGroup(g), m) && Selected(c, InSemester(t), m))
  }

  /** The catalogue makes the semester check as written raise, whatever the credits. */
  predicate SemesterStackFails(c: Config)
  {
    |c.semesters| == 0 || |c.groups| == 0 || exists t, g :: 0 <= t < |c.semesters| && 0 <= g < |c.groups| && NoModuleIn(c, t, g)
  }

  /**
   * `assignment_satisfies_minimum_credits_per_semester` as written: the
   * innermost `np.stack` gets an empty list, and raises, for a group with no
   * module in some semester; so does the outer one when there is no semester
   * and the middle one when there is no group.
   */
  function MinimumPerSemesterAsWritten(c: Config, credits: seq<seq<int>>): (r: Result<seq<seq<bool>>, string>)
    requires ValidConfig(c) && Rows(c, credits)
    ensures r.Failure? <==> |c.semesters| == 0 || |c.groups| == 0 ||
                            exists t, g :: 0 <= t < |c.semesters| && 0 <= g < |c.groups| && NoModuleIn(c, t, g)
    ensures r.Failure? <==> SemesterStackFails(c)
    ensures r.Success? ==> r.value == MinimumPerSemester(c, credits)
  {
    if |c.semesters| == 0 || |c.groups| == 0 then Failure("ValueError: need at least one array to stack")
    else if exists t, g :: 0 <= t < |c.semesters| && 0 <= g < |c.groups| && NoModuleIn(c, t, g) then
      Failure("ValueError: need at least one array to stack")
    else Success(MinimumPerSemester(c, credits))
  }

  /** The semester check as intended: a group without modules in a semester adds nothing to it. */
  function MinimumPerSemester(c: Config, credits: seq<seq<int>>): (t: seq<seq<bool>>)
    requires ValidConfig(c) && Rows(c, credits)
    ensures |t| == |credits| && forall s :: 0 <= s < |t| ==> |t[s]| == |c.semesters|
  {
    seq(|credits|, s requires 0 <= s < |credits| =>
      seq(|c.semesters|, t requires 0 <= t < |c.semesters| => SumOver(c, credits[s], InSemester(t)) >= c.minPerSemester[t]))
  }

  /** On rows whose cells are empty or their module's credits, the check counts the semester credits the round caps. */
  lemma MinimumPerSemesterMeaning(c: Config, credits: seq<seq<int>>, s: nat, t: nat)
    requires ValidConfig(c) && Rows(c, credits) && s < |credits| && t < |c.semesters|
    requires CellsOk(c, credits[s])
    ensures MinimumPerSemester(c, credits)[s][t] <==> SemesterCredits(c, credits[s], t) >= c.minPerSemester[t]
  {
    assert credits[s] == HeldCredits(c, credits[s]);
  }

  /**
   * Two groups, each with modules in one semester only: the pair (semester 1,
   * group B) has no module, so the check as written raises, where the intended
   * check passes.
   */
  function SplitSemesters(): Config
  {
    Config([ModuleInfo("A1", "a", 10, 1, "A", 5, 5, {}, {}), ModuleInfo("B2", "b", 10, 2, "B", 5, 5, {}, {})],
           [StudentInfo("s", "1", [0, 0], [Fin(1), Fin(1)], [])],
           ["A", "B"], [1, 2], 20, [20, 20], [20, 20], [0, 0], [0, 0])
  }

  lemma SemesterCheckRaises()
    ensures ValidConfig(SplitSemesters()) && Rows(SplitSemesters(), [[0, 0]])
    ensures MinimumPerSemesterAsWritten(SplitSemesters(), [[0, 0]]).Failure?
    ensures MinimumPerSemester(SplitSemesters(), [[0, 0]]) == [[true, true]]
  {
    var c := SplitSemesters();
    assert ModuleFits(c, 0) && ModuleFits(c, 1);
    assert NoModuleIn(c, 0, 1) by {
      assert !Selected(c, InGroup(1), 0) && !Selected(c, InSemester(0), 1);
    }
    assert SumOver(c, [0, 0], InSemester(0)) == 0 by { assert [0, 0][..1] == [0]; assert [0][..0] == []; }
    assert SumOver(c, [0, 0], InSemester(1)) == 0 by { assert [0, 0][..1] == [0]; assert [0][..0] == []; }
    var t := MinimumPerSemester(c, [[0, 0]]);
    assert t[0][0] && t[0][1];
    assert t[0] == [true, true];
  }

  // ----- the held modules the round reads -----

  /**
   * The row `run_assignment_round` reads a student's held modules from, as
   * written: `get_assigned_modules(self._student_ids[student_idx])` finds the
   * first student with the same id. The round's semester credits, bundle and
   * exclusions all come from this row; its group totals and its commit use the
   * student's own row.
   */
  function HeldRowAsWritten(c: Config, credits: seq<seq<int>>, s: nat): seq<int>
    requires Rows(c, credits) && s < |c.students|
  {
    credits[FirstIndex(Ids(c), c.students[s].id)]
  }

  /** With distinct ids the row read is the student's own, as the round of this model reads it. */
  lemma HeldRowAsWrittenOwn(c: Config, credits: seq<seq<int>>, s: nat)
    requires Rows(c, credits) && Distinct(Ids(c)) && s < |c.students|
    ensures HeldRowAsWritten(c, credits, s) == credits[s]
  {
    FirstIndexOfDistinct(Ids(c), s);
  }

  /**
   * Two students with id "7"; one module group; two 10-credit modules in
   * semester 1, capped at 10. Both students rank Y first, so Y is the first
   * module the round offers them.
   */
  function SharedId(): Config
  {
    Config([ModuleInfo("X", "x", 10, 1, "A", 5, 5, {}, {}), ModuleInfo("Y", "y", 10, 1, "A", 5, 5, {}, {})],
           [StudentInfo("p", "7", [20], [Fin(2), Fin(1)], []), StudentInfo("q", "7", [20], [Fin(2), Fin(1)], [])],
           ["A"], [1], 20, [20], [10], [0], [0])
  }

  /**
   * The second student holds X. Reading the first student's row, the round as
   * written sees no semester-1 credits, lets the bundle {Y} through the
   * semester check, and the commit leaves the second student 20 credits in a
   * semester capped at 10.
   */
  lemma SharedIdBreaksSemesterCap()
    ensures ValidConfig(SharedId()) && Rows(SharedId(), [[0, 0], [10, 0]])
    ensures HeldRowAsWritten(SharedId(), [[0, 0], [10, 0]], 1) == [0, 0]
    ensures Bundle(SharedId(), [0, 0], 1) == {1}
    ensures WithinSemesterCaps(SharedId(), [0, 0], {1})
    ensures SemesterCredits(SharedId(), Take(SharedId(), [10, 0], {1}), 0) > SharedId().maxPerSemester[0]
  {
    var c := SharedId();
    assert ModuleFits(c, 0) && ModuleFits(c, 1);
    assert Ids(c) == ["7", "7"];
    assert Held([0, 0]) == {} by { assert forall m: nat :: m in Held([0, 0]) ==> false; }
    assert Delta(c, {1}) == [0, 10];
    assert SemesterCredits(c, [0, 0], 0) == 0 by {
      assert HeldCredits(c, [0, 0]) == [0, 0];
      assert [0, 0][..1] == [0]; assert [0][..0] == [];
    }
    assert BundleSemester(c, {1}, 0) == 10 by { assert [0, 10][..1] == [0]; assert [0][..0] == []; }
    assert Take(c, [10, 0], {1}) == [10, 10];
    assert SemesterCredits(c, [10, 10], 0) == 20 by {
      assert HeldCredits(c, [10, 10]) == [10, 10];
      assert [10, 10][..1] == [10]; assert [10][..0] == [];
    }
  }

  // ----- get_excess_module_requests -----

  /** One line of the excess-request report. */
  datatype ExcessLine = ExcessLine(id: string, name: string, requests: int, proportion: real)

  /**
   * `get_excess_module_requests`: each module's excess requests and their
   * proportion of its capacity. Both are Python integers, so a module with no
   * capacity raises a ZeroDivisionError.
   */
  function ExcessRequests(c: Config, excess: seq<int>): (r: Result<seq<ExcessLine>, string>)
    requires |excess| == |c.modules|
    ensures r.Failure? <==> exists m :: 0 <= m < |c.modules| && c.modules[m].totalSpaces == 0
    ensures r.Success? ==> |r.value| == |c.modules| && forall m :: 0 <= m < |c.modules| ==>
              && r.value[m].id == c.modules[m].id && r.value[m].requests == excess[m]
              && r.value[m].proportion * c.modules[m].totalSpaces as real == excess[m] as real
  {
    if exists m :: 0 <= m < |c.modules| && c.modules[m].totalSpaces == 0 then Failure("ZeroDivisionError: division by zero")
    else Success(seq(|c.modules|, m requires 0 <= m < |c.modules| =>
      var mod := c.modules[m];
      ExcessLine(mod.id, mod.name, excess[m], excess[m] as real / mod.totalSpaces as real)))
  }
}
