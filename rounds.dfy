/**
 * The specification of one round of `run_assignment_round` in
 * `app/algorithm.py`: what serving a student means, how the spaces a round
 * takes are counted, and what the loop over the students establishes turn by
 * turn.
 */
module Rounds {
  import opened Wrappers
  import opened Sequences
  import opened Engine
  /** One entry of the round's trace: a student who received nothing, with the flags last computed in the round. */
  datatype TraceEntry = TraceEntry(studentId: string, spaceRemaining: bool, notExcluded: bool,
                                   notTooManyPerGroup: bool, notTooManyTotal: bool, semesterOk: bool,
                                   preferencesOk: bool)

  /** The trace keeps every flag but the student-exclusion one. */
  function Entry(id: string, f: Flags): TraceEntry
  {
    TraceEntry(id, f.spaceRemaining, f.notExcluded, f.notTooManyPerGroup, f.notTooManyTotal, f.semesterOk, f.preferencesOk)
  }

  function Zeros(n: nat): (z: seq<int>)
    ensures |z| == n && forall i :: 0 <= i < n ==> z[i] == 0
  {
    seq(n, i => 0)
  }

  /** Each cell of a row is empty or holds its module's credits. */
  predicate CellsOk(c: Config, row: seq<int>)
  {
    |row| == |c.modules| && forall m :: 0 <= m < |row| ==> row[m] == 0 || row[m] == c.modules[m].credits
  }

  lemma TakeCellsOk(c: Config, row: seq<int>, b: set<nat>)
    requires CellsOk(c, row)
    ensures CellsOk(c, Take(c, row, b))
  {
  }

  predicate IsPermutation(order: seq<nat>, n: nat)
  {
    && |order| == n && Distinct(order)
    && (forall i :: 0 <= i < |order| ==> order[i] < n)
    && forall s :: 0 <= s < n ==> s in order
  }

  /** How far a student is from the credits they prefer in group `g`: the key the round sorts groups by. */
  function Deficit(c: Config, row: seq<int>, s: nat, g: nat): int
    requires ValidConfig(c) && s < |c.students| && g < |c.groups|
  {
    GroupTotal(c, row, g) - c.students[s].groupPrefs[g]
  }

  /** `np.argsort` of the deficits: every group once, smallest deficit first, ties in any order. */
  predicate GroupOrderOk(c: Config, row: seq<int>, s: nat, o: seq<nat>)
    requires ValidConfig(c) && s < |c.students|
  {
    && IsPermutation(o, |c.groups|)
    && forall i, j :: 0 <= i < j < |o| ==> Deficit(c, row, s, o[i]) <= Deficit(c, row, s, o[j])
  }

  /** `np.argsort` of the student's ranks in group `g`: every module of the group once, best rank first. */
  predicate ModuleOrderOk(c: Config, s: nat, g: nat, o: seq<nat>)
    requires ValidConfig(c) && s < |c.students|
  {
    && Distinct(o) && |o| == GroupSize(c, g)
    && (forall i :: 0 <= i < |o| ==> Selected(c, InGroup(g), o[i]))
    && forall i, j :: 0 <= i < j < |o| ==> RankLe(c.students[s].ranks[o[i]], c.students[s].ranks[o[j]])
  }

  /** The bundle of module `k`, offered from group `g`, passed every check but the spaces one. */
  predicate Committed(c: Config, row: seq<int>, s: nat, allow: bool, gk: (nat, nat))
    requires ValidConfig(c) && s < |c.students| && |row| == |c.modules|
  {
    var (g, k) := gk;
    && g < |c.groups| && k < |c.modules| && Selected(c, InGroup(g), k)
    && Bundle(c, row, k) != {}
    && Admissible(c, row, s, g, Bundle(c, row, k), allow)
  }

  /**
   * What a round did to one student: nothing, or (when the student was short
   * of the required credits) exactly one bundle that passed the checks.
   */
  predicate Served(c: Config, row0: seq<int>, row1: seq<int>, s: nat, allow: bool, ch: Option<(nat, nat)>)
    requires ValidConfig(c) && s < |c.students| && |row0| == |c.modules|
  {
    && (ch.None? ==> row1 == row0)
    && (ch.Some? ==>
          && StudentTotal(c, row0) < c.required
          && Committed(c, row0, s, allow, ch.value)
          && row1 == Take(c, row0, Bundle(c, row0, ch.value.1)))
  }

  /** Student `ch` took module `m` in the round. */
  ghost predicate Takes(c: Config, row: seq<int>, ch: Option<(nat, nat)>, m: nat)
  {
    ValidConfig(c) && ch.Some? && ch.value.1 < |c.modules| && m in Bundle(c, row, ch.value.1)
  }

  /** How many of the first `n` students took module `m`. */
  ghost function Uses(c: Config, rows: seq<seq<int>>, chosen: seq<Option<(nat, nat)>>, m: nat, n: nat): int
    requires n <= |rows| && n <= |chosen|
  {
    if n == 0 then 0
    else Uses(c, rows, chosen, m, n - 1) + (if Takes(c, rows[n - 1], chosen[n - 1], m) then 1 else 0)
  }

  lemma {:induction false} UsesNone(c: Config, rows: seq<seq<int>>, chosen: seq<Option<(nat, nat)>>, m: nat, n: nat)
    requires n <= |rows| && n <= |chosen| && forall s :: 0 <= s < |chosen| ==> chosen[s].None?
    ensures Uses(c, rows, chosen, m, n) == 0
  {
    if n > 0 {
      UsesNone(c, rows, chosen, m, n - 1);
    }
  }

  /** Recording one more student's choice adds one use to each module of its bundle. */
  lemma {:induction false} UsesUpdate(c: Config, rows: seq<seq<int>>, chosen: seq<Option<(nat, nat)>>, s: nat,
                                      v: Option<(nat, nat)>, m: nat, n: nat)
    requires n <= |rows| && n <= |chosen| && s < |chosen| && chosen[s].None?
    ensures Uses(c, rows, chosen[s := v], m, n) == Uses(c, rows, chosen, m, n) + (if s < n && Takes(c, rows[s], v, m) then 1 else 0)
  {
    if n > 0 {
      UsesUpdate(c, rows, chosen, s, v, m, n - 1);
    }
  }

  /**
   * One more student served in a round: the served-or-untouched record, the
   * count of spaces taken and the spaces' sign all carry over.
   */
  lemma RoundStep(c: Config, rows0: seq<seq<int>>, rows: seq<seq<int>>, chosen: seq<Option<(nat, nat)>>,
                  spaces0: seq<int>, spaces: seq<int>, s: nat, allow: bool, ch: Option<(nat, nat)>)
    requires ValidConfig(c) && |rows0| == |c.students| && |rows| == |c.students| && |chosen| == |c.students|
    requires forall x :: 0 <= x < |rows0| ==> |rows0[x]| == |c.modules|
    requires |spaces0| == |c.modules| && |spaces| == |c.modules|
    requires s < |c.students| && chosen[s].None? && ch.Some?
    requires forall x :: 0 <= x < |rows0| ==> Served(c, rows0[x], rows[x], x, allow, chosen[x])
    requires forall m :: 0 <= m < |c.modules| ==> spaces[m] == spaces0[m] - Uses(c, rows0, chosen, m, |chosen|)
    requires forall m :: 0 <= m < |c.modules| && spaces0[m] >= 0 ==> spaces[m] >= 0
    requires StudentTotal(c, rows0[s]) < c.required && Committed(c, rows0[s], s, allow, ch.value)
    requires HasSpace(spaces, Bundle(c, rows0[s], ch.value.1))
    ensures var b := Bundle(c, rows0[s], ch.value.1);
            var rows' := rows[s := Take(c, rows0[s], b)];
            var chosen' := chosen[s := ch];
            && (forall x :: 0 <= x < |rows0| ==> Served(c, rows0[x], rows'[x], x, allow, chosen'[x]))
            && (forall m :: 0 <= m < |c.modules| ==> Release(spaces, b)[m] == spaces0[m] - Uses(c, rows0, chosen', m, |chosen|))
            && (forall m :: 0 <= m < |c.modules| && spaces0[m] >= 0 ==> Release(spaces, b)[m] >= 0)
  {
    var b := Bundle(c, rows0[s], ch.value.1);
    forall m | 0 <= m < |c.modules|
      ensures Release(spaces, b)[m] == spaces0[m] - Uses(c, rows0, chosen[s := ch], m, |chosen|)
    {
      UsesUpdate(c, rows0, chosen, s, ch, m, |chosen|);
    }
  }

  /** No student has taken anything yet. */
  lemma UsesAllNone(c: Config, rows0: seq<seq<int>>, chosen: seq<Option<(nat, nat)>>, spaces0: seq<int>, spaces: seq<int>)
    requires |rows0| == |chosen| && forall s :: 0 <= s < |chosen| ==> chosen[s].None?
    requires spaces == spaces0
    ensures forall m :: 0 <= m < |spaces| ==> spaces[m] == spaces0[m] - Uses(c, rows0, chosen, m, |chosen|)
  {
    forall m | 0 <= m < |spaces| {
      UsesNone(c, rows0, chosen, m, |chosen|);
    }
  }

  /** In a permutation, the student at position `i` is not among those before it. */
  lemma NotYetServed(order: seq<nat>, i: nat, chosen: seq<Option<(nat, nat)>>)
    requires Distinct(order) && i < |order| && order[i] < |chosen|
    requires forall s :: 0 <= s < |chosen| && chosen[s].Some? ==> s in order[..i]
    ensures chosen[order[i]].None? && order[i] !in order[..i]
  {
    forall j | 0 <= j < i
      ensures order[..i][j] != order[i]
    {
      assert order[j] != order[i];
    }
  }

  /** The oracles a round is given: the argsorts and the permutation the source computes, and the leftover member. */
  ghost predicate Oracles(c: Config, rows: seq<seq<int>>, order: seq<nat>, groupOrder: seq<seq<nat>>,
                    moduleOrder: seq<seq<seq<nat>>>, pick: set<nat> -> nat)
    requires ValidConfig(c) && |rows| == |c.students|
  {
    && IsPermutation(order, |c.students|)
    && |groupOrder| == |c.students|
    && (forall s :: 0 <= s < |c.students| ==> GroupOrderOk(c, rows[s], s, groupOrder[s]))
    && |moduleOrder| == |c.students|
    && (forall s :: 0 <= s < |c.students| ==>
          |moduleOrder[s]| == |c.groups| &&
          forall g :: 0 <= g < |c.groups| ==> ModuleOrderOk(c, s, g, moduleOrder[s][g]))
    && forall b: set<nat> :: b != {} ==> pick(b) in b
  }

  /**
   * What a round leaves behind, from the rows, spaces and excess counters it
   * started with: every student served at most once (`chosen`), each module's
   * spaces reduced by the number of students who took it and never below zero
   * when they started at zero or more, each excess counter raised by at most
   * one per student, and a trace naming exactly the students who were short
   * and received nothing. A round that fails changes nothing.
   */
  ghost predicate RoundDone(c: Config, rows0: seq<seq<int>>, spaces0: seq<int>, excess0: seq<int>,
                            rows: seq<seq<int>>, spaces: seq<int>, excess: seq<int>, allow: bool,
                            r: Result<seq<TraceEntry>, string>, chosen: seq<Option<(nat, nat)>>, who: seq<nat>)
    requires ValidConfig(c) && |rows0| == |c.students| && forall s :: 0 <= s < |rows0| ==> |rows0[s]| == |c.modules|
    requires |spaces0| == |c.modules| && |excess0| == |c.modules|
  {
    && |rows| == |c.students| && |spaces| == |c.modules| && |excess| == |c.modules| && |chosen| == |c.students|
    && (forall s :: 0 <= s < |c.students| ==> Served(c, rows0[s], rows[s], s, allow, chosen[s]))
    && (forall m :: 0 <= m < |c.modules| ==> spaces[m] == spaces0[m] - Uses(c, rows0, chosen, m, |c.students|))
    && (forall m :: 0 <= m < |c.modules| && spaces0[m] >= 0 ==> spaces[m] >= 0)
    && (forall m :: 0 <= m < |c.modules| ==> excess0[m] <= excess[m] <= excess0[m] + |c.students|)
    && (r.Success? ==>
          && |who| == |r.value|
          && (forall j :: 0 <= j < |who| ==>
                && who[j] < |c.students| && r.value[j].studentId == c.students[who[j]].id
                && chosen[who[j]].None? && StudentTotal(c, rows0[who[j]]) < c.required)
          && forall s :: 0 <= s < |c.students| && chosen[s].None? && StudentTotal(c, rows0[s]) < c.required ==> s in who)
    && (r.Failure? ==>
          && rows == rows0 && spaces == spaces0 && excess == excess0
          && exists s :: 0 <= s < |c.students| && StudentTotal(c, rows0[s]) < c.required)
  }

  /** What the loop over the students has established after `i` turns. */
  ghost predicate Progress(c: Config, rows0: seq<seq<int>>, spaces0: seq<int>, excess0: seq<int>, allow: bool,
                           order: seq<nat>, i: nat, rows: seq<seq<int>>, spaces: seq<int>, excess: seq<int>,
                           chosen: seq<Option<(nat, nat)>>, who: seq<nat>, trace: seq<TraceEntry>, last: Option<Flags>)
    requires ValidConfig(c) && |rows0| == |c.students| && forall s :: 0 <= s < |rows0| ==> |rows0[s]| == |c.modules|
    requires |spaces0| == |c.modules| && |excess0| == |c.modules| && i <= |order|
  {
    var n := |c.students|;
    && |rows| == n && |spaces| == |c.modules| && |excess| == |c.modules| && |chosen| == n
    && (forall s :: 0 <= s < n ==> Served(c, rows0[s], rows[s], s, allow, chosen[s]))
    && (forall s :: 0 <= s < n && chosen[s].Some? ==> s in order[..i])
    && (forall m :: 0 <= m < |c.modules| ==> spaces[m] == spaces0[m] - Uses(c, rows0, chosen, m, n))
    && (forall m :: 0 <= m < |c.modules| && spaces0[m] >= 0 ==> spaces[m] >= 0)
    && (forall m :: 0 <= m < |c.modules| ==> excess0[m] <= excess[m] <= excess0[m] + i)
    && |who| == |trace|
    && (forall j :: 0 <= j < |who| ==>
          && who[j] in order[..i] && who[j] < n && trace[j].studentId == c.students[who[j]].id
          && chosen[who[j]].None? && StudentTotal(c, rows0[who[j]]) < c.required)
    && (forall s :: s in order[..i] && 0 <= s < n && chosen[s].None? && StudentTotal(c, rows0[s]) < c.required ==> s in who)
    && (last.None? ==> rows == rows0 && spaces == spaces0 && excess == excess0)
    && (last.None? ==> forall s :: 0 <= s < n ==> chosen[s].None?)
  }

  /** A student who already holds the required credits is passed over. */
  lemma SkipStep(c: Config, rows0: seq<seq<int>>, spaces0: seq<int>, excess0: seq<int>, allow: bool,
                 order: seq<nat>, i: nat, rows: seq<seq<int>>, spaces: seq<int>, excess: seq<int>,
                 chosen: seq<Option<(nat, nat)>>, who: seq<nat>, trace: seq<TraceEntry>, last: Option<Flags>)
    requires ValidConfig(c) && |rows0| == |c.students| && forall s :: 0 <= s < |rows0| ==> |rows0[s]| == |c.modules|
    requires |spaces0| == |c.modules| && |excess0| == |c.modules|
    requires Distinct(order) && i < |order| && order[i] < |c.students|
    requires Progress(c, rows0, spaces0, excess0, allow, order, i, rows, spaces, excess, chosen, who, trace, last)
    requires StudentTotal(c, rows[order[i]]) >= c.required
    ensures Progress(c, rows0, spaces0, excess0, allow, order, i + 1, rows, spaces, excess, chosen, who, trace, last)
  {
    NotYetServed(order, i, chosen);
    assert order[..i + 1] == order[..i] + [order[i]];
  }

  /** A student short of credits who received nothing is traced with the last flags computed. */
  lemma TraceStep(c: Config, rows0: seq<seq<int>>, spaces0: seq<int>, excess0: seq<int>, allow: bool,
                  order: seq<nat>, i: nat, rows: seq<seq<int>>, spaces: seq<int>, excess: seq<int>,
                  chosen: seq<Option<(nat, nat)>>, who: seq<nat>, trace: seq<TraceEntry>, last: Option<Flags>,
                  excess': seq<int>, f: Flags)
    requires ValidConfig(c) && |rows0| == |c.students| && forall s :: 0 <= s < |rows0| ==> |rows0[s]| == |c.modules|
    requires |spaces0| == |c.modules| && |excess0| == |c.modules|
    requires Distinct(order) && i < |order| && order[i] < |c.students|
    requires Progress(c, rows0, spaces0, excess0, allow, order, i, rows, spaces, excess, chosen, who, trace, last)
    requires StudentTotal(c, rows[order[i]]) < c.required
    requires |excess'| == |c.modules| && forall m :: 0 <= m < |c.modules| ==> excess[m] <= excess'[m] <= excess[m] + 1
    ensures Progress(c, rows0, spaces0, excess0, allow, order, i + 1, rows, spaces, excess', chosen,
                     who + [order[i]], trace + [Entry(c.students[order[i]].id, f)], Some(f))
  {
    NotYetServed(order, i, chosen);
    assert order[..i + 1] == order[..i] + [order[i]];
  }

  /** A student short of credits who committed a bundle. */
  lemma CommitStep(c: Config, rows0: seq<seq<int>>, spaces0: seq<int>, excess0: seq<int>, allow: bool,
                   order: seq<nat>, i: nat, rows: seq<seq<int>>, spaces: seq<int>, excess: seq<int>,
                   chosen: seq<Option<(nat, nat)>>, who: seq<nat>, trace: seq<TraceEntry>, last: Option<Flags>,
                   excess': seq<int>, f: Flags, gk: (nat, nat))
    requires ValidConfig(c) && |rows0| == |c.students| && forall s :: 0 <= s < |rows0| ==> |rows0[s]| == |c.modules|
    requires |spaces0| == |c.modules| && |excess0| == |c.modules|
    requires Distinct(order) && i < |order| && order[i] < |c.students|
    requires Progress(c, rows0, spaces0, excess0, allow, order, i, rows, spaces, excess, chosen, who, trace, last)
    requires StudentTotal(c, rows[order[i]]) < c.required
    requires |excess'| == |c.modules| && forall m :: 0 <= m < |c.modules| ==> excess[m] <= excess'[m] <= excess[m] + 1
    requires Committed(c, rows[order[i]], order[i], allow, gk)
    requires HasSpace(spaces, Bundle(c, rows[order[i]], gk.1))
    ensures var s := order[i];
            var b := Bundle(c, rows[s], gk.1);
            Progress(c, rows0, spaces0, excess0, allow, order, i + 1, rows[s := Take(c, rows[s], b)], Release(spaces, b),
                     excess', chosen[s := Some(gk)], who, trace, Some(f))
  {
    var s := order[i];
    NotYetServed(order, i, chosen);
    assert order[..i + 1] == order[..i] + [s];
    RoundStep(c, rows0, rows, chosen, spaces0, spaces, s, allow, Some(gk));
  }

  /** A round cut short by the missing flags leaves everything as it was, with a student short of credits. */
  lemma FailDone(c: Config, rows0: seq<seq<int>>, spaces0: seq<int>, excess0: seq<int>, allow: bool,
                 order: seq<nat>, i: nat, rows: seq<seq<int>>, spaces: seq<int>, excess: seq<int>,
                 chosen: seq<Option<(nat, nat)>>, who: seq<nat>, trace: seq<TraceEntry>, e: string)
    requires ValidConfig(c) && |rows0| == |c.students| && forall s :: 0 <= s < |rows0| ==> |rows0[s]| == |c.modules|
    requires |spaces0| == |c.modules| && |excess0| == |c.modules|
    requires i < |order| && order[i] < |c.students|
    requires Progress(c, rows0, spaces0, excess0, allow, order, i, rows, spaces, excess, chosen, who, trace, None)
    requires StudentTotal(c, rows[order[i]]) < c.required
    ensures RoundDone(c, rows0, spaces0, excess0, rows, spaces, excess, allow, Failure(e), chosen, who)
  {
    assert StudentTotal(c, rows0[order[i]]) < c.required;
  }

  /** Before the first turn nothing has been taken, traced or charged. */
  lemma StartProgress(c: Config, rows0: seq<seq<int>>, spaces0: seq<int>, excess0: seq<int>, allow: bool, order: seq<nat>)
    requires ValidConfig(c) && |rows0| == |c.students| && forall s :: 0 <= s < |rows0| ==> |rows0[s]| == |c.modules|
    requires |spaces0| == |c.modules| && |excess0| == |c.modules|
    ensures Progress(c, rows0, spaces0, excess0, allow, order, 0, rows0, spaces0, excess0,
                     seq(|c.students|, s => None), [], [], None)
  {
    UsesAllNone(c, rows0, seq(|c.students|, s => None), spaces0, spaces0);
  }

  /** After every student's turn, the round is done and its trace names exactly the students left short. */
  lemma FinishDone(c: Config, rows0: seq<seq<int>>, spaces0: seq<int>, excess0: seq<int>, allow: bool, order: seq<nat>,
                   rows: seq<seq<int>>, spaces: seq<int>, excess: seq<int>,
                   chosen: seq<Option<(nat, nat)>>, who: seq<nat>, trace: seq<TraceEntry>, last: Option<Flags>)
    requires ValidConfig(c) && |rows0| == |c.students| && forall s :: 0 <= s < |rows0| ==> |rows0[s]| == |c.modules|
    requires |spaces0| == |c.modules| && |excess0| == |c.modules|
    requires IsPermutation(order, |c.students|)
    requires Progress(c, rows0, spaces0, excess0, allow, order, |order|, rows, spaces, excess, chosen, who, trace, last)
    ensures RoundDone(c, rows0, spaces0, excess0, rows, spaces, excess, allow, Success(trace), chosen, who)
  {
    assert order[..|order|] == order;
  }

  /** A row within every cap the round checks: the required total, each group's maximum and each semester's maximum. */
  predicate WithinCaps(c: Config, row: seq<int>)
    requires ValidConfig(c) && |row| == |c.modules|
  {
    && StudentTotal(c, row) <= c.required
    && (forall g :: 0 <= g < |c.groups| ==> GroupTotal(c, row, g) <= c.maxPerGroup[g])
    && forall t :: 0 <= t < |c.semesters| ==> SemesterCredits(c, row, t) <= c.maxPerSemester[t]
  }

  /** A student who received a bundle ends within the caps; one who started within them stays within them. */
  lemma RoundKeepsCaps(c: Config, row0: seq<int>, row1: seq<int>, s: nat, allow: bool, ch: Option<(nat, nat)>)
    requires ValidConfig(c) && s < |c.students| && |row0| == |c.modules|
    requires Served(c, row0, row1, s, allow, ch)
    ensures ch.Some? ==> WithinCaps(c, row1)
    ensures WithinCaps(c, row0) ==> WithinCaps(c, row1)
  {
    if ch.Some? {
      TakeKeepsCaps(c, row0, s, ch.value.0, Bundle(c, row0, ch.value.1), allow);
    }
  }

  /** A round keeps every cell empty or holding its module's credits. */
  lemma RoundKeepsCells(c: Config, rows0: seq<seq<int>>, rows: seq<seq<int>>, allow: bool, chosen: seq<Option<(nat, nat)>>)
    requires ValidConfig(c) && |rows0| == |c.students| && |rows| == |c.students| && |chosen| == |c.students|
    requires forall s :: 0 <= s < |rows0| ==> CellsOk(c, rows0[s]) && |rows0[s]| == |c.modules|
    requires forall s :: 0 <= s < |c.students| ==> Served(c, rows0[s], rows[s], s, allow, chosen[s])
    ensures forall s :: 0 <= s < |rows| ==> CellsOk(c, rows[s])
  {
    forall s | 0 <= s < |rows|
      ensures CellsOk(c, rows[s])
    {
      if chosen[s].Some? {
        TakeCellsOk(c, rows0[s], Bundle(c, rows0[s], chosen[s].value.1));
      }
    }
  }
}
