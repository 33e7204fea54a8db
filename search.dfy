/**
 * The best-of-N search of the two apps: `run_assignments` and the loop over
 * the repetitions in `show_message`, in `app/app.py` and in the older
 * `app.py`. A repetition builds a fresh `ModuleAssigner`, seeds it from the
 * earlier assignments when there are some, runs a fixed number of rounds,
 * and then decides whether the result replaces the best one so far.
 *
 * The best assignment is carried as a snapshot of the assigner's fields
 * (nothing changes an assigner after its repetition ends). The random
 * permutations, the argsorts and the leftover bundle member are oracles.
 */
module Search {
  import opened Wrappers
  import opened Sequences
  import opened Engine
  import opened Rounds
  import opened Reports
  import opened Validation
  import opened PriorLoad
  import opened Scoring
  import opened Assigner
  import opened Greedy

  /** What a finished repetition leaves: the credit rows, the spaces left and the excess requests. */
  datatype Assignment = Assignment(credits: seq<seq<int>>, spaces: seq<int>, excess: seq<int>)

  predicate Shaped(c: Config, a: Assignment)
  {
    Rows(c, a.credits) && |a.spaces| == |c.modules| && |a.excess| == |c.modules|
  }

  // ----- seeds -----

  /** `np.random.RandomState(seed)` accepts seeds from 0 to 2^32 - 1 and raises a ValueError otherwise. */
  predicate SeedOk(seed: int)
  {
    0 <= seed < 0x1_0000_0000
  }

  /** Repetition `r`'s seed in `app/app.py`, from the user's seed `user`. */
  function SeedV2(user: int, r: nat): int
  {
    user + r * user + 1
  }

  /** Repetition `r`'s seed in `app.py`. */
  function SeedV1(r: nat): int
  {
    r * 123
  }

  lemma ProductZero(a: int, b: int)
    ensures a * b == 0 <==> a == 0 || b == 0
  {
    if a != 0 && b != 0 {
      if a > 0 && b > 0 { Positive(a, b); }
      else if a > 0 { Positive(a, -b); assert a * b == -(a * -b); }
      else if b > 0 { Positive(-a, b); assert a * b == -(-a * b); }
      else { Positive(-a, -b); assert a * b == -a * -b; }
    }
  }

  /** Two repetitions of `app/app.py` share a seed exactly when they are the same one or the user's seed is 0. */
  lemma SeedV2Collide(user: int, r1: nat, r2: nat)
    ensures SeedV2(user, r1) == SeedV2(user, r2) <==> r1 == r2 || user == 0
  {
    assert SeedV2(user, r1) - SeedV2(user, r2) == (r1 - r2) * user;
    ProductZero(r1 - r2, user);
  }

  /** The repetitions of `app.py` all use different seeds. */
  lemma SeedV1Distinct(r1: nat, r2: nat)
    ensures SeedV1(r1) == SeedV1(r2) <==> r1 == r2
  {
  }

  // ----- one repetition's rounds -----

  /** The oracles of every round of every repetition: a permutation per seed and round, an argsort per state. */
  ghost predicate RunOracles(c: Config, perm: (int, nat) -> seq<nat>, groupOrd: seq<seq<int>> -> seq<seq<nat>>,
                             moduleOrder: seq<seq<seq<nat>>>, pick: set<nat> -> nat)
    requires ValidConfig(c)
  {
    && (forall seed: int, i: nat :: IsPermutation(perm(seed, i), |c.students|))
    && (forall rows: seq<seq<int>> :: |rows| == |c.students| ==>
          |groupOrd(rows)| == |c.students| &&
          forall s :: 0 <= s < |c.students| ==> GroupOrderOk(c, rows[s], s, groupOrd(rows)[s]))
    && |moduleOrder| == |c.students|
    && (forall s :: 0 <= s < |c.students| ==>
          |moduleOrder[s]| == |c.groups| &&
          forall g :: 0 <= g < |c.groups| ==> ModuleOrderOk(c, s, g, moduleOrder[s][g]))
    && forall b: set<nat> :: b != {} ==> pick(b) in b
  }

  function ZeroRows(c: Config): (rows: seq<seq<int>>)
    ensures Rows(c, rows)
  {
    seq(|c.students|, s => Zeros(|c.modules|))
  }

  /** The assigner as built, after the earlier assignments are loaded when there are some. */
  function Start(c: Config, loaded: Option<Table>): (a: Assignment)
    requires loaded.Some? ==> WellFormed(loaded.value)
    ensures Shaped(c, a)
  {
    var credits := if loaded.Some? then Loaded(c, loaded.value, ZeroRows(c)) else ZeroRows(c);
    Assignment(credits, seq(|c.modules|, m requires 0 <= m < |c.modules| => c.modules[m].available), Zeros(|c.modules|))
  }

  /** Each state follows the one before by a round that did not raise. */
  ghost predicate RoundsFrom(c: Config, states: seq<Assignment>, chosen: seq<seq<Option<(nat, nat)>>>,
                             who: seq<seq<nat>>, traces: seq<seq<TraceEntry>>, allow: bool)
    requires ValidConfig(c)
  {
    && |states| == |chosen| + 1 && |who| == |chosen| && |traces| == |chosen|
    && (forall i :: 0 <= i < |states| ==> Shaped(c, states[i]))
    && forall i :: 0 <= i < |chosen| ==>
         RoundDone(c, states[i].credits, states[i].spaces, states[i].excess,
                   states[i + 1].credits, states[i + 1].spaces, states[i + 1].excess,
                   allow, Success(traces[i]), chosen[i], who[i])
  }

  lemma RoundsFromSnoc(c: Config, states: seq<Assignment>, chosen: seq<seq<Option<(nat, nat)>>>,
                       who: seq<seq<nat>>, traces: seq<seq<TraceEntry>>, allow: bool,
                       next: Assignment, ch: seq<Option<(nat, nat)>>, wh: seq<nat>, tr: seq<TraceEntry>)
    requires ValidConfig(c) && RoundsFrom(c, states, chosen, who, traces, allow) && Shaped(c, next)
    requires var last := states[|states| - 1];
             RoundDone(c, last.credits, last.spaces, last.excess, next.credits, next.spaces, next.excess,
                       allow, Success(tr), ch, wh)
    ensures RoundsFrom(c, states + [next], chosen + [ch], who + [wh], traces + [tr], allow)
  {
    var states', chosen' := states + [next], chosen + [ch];
    forall i | 0 <= i < |chosen'|
      ensures RoundDone(c, states'[i].credits, states'[i].spaces, states'[i].excess,
                        states'[i + 1].credits, states'[i + 1].spaces, states'[i + 1].excess,
                        allow, Success((traces + [tr])[i]), chosen'[i], (who + [wh])[i])
    {
      if i < |chosen| {
        assert states'[i] == states[i] && states'[i + 1] == states[i + 1];
      }
    }
  }

  /**
   * The round from `a` to `b` is, turn by turn, the greedy round of
   * `Assigner.Round` with the student order `order` and the group orders
   * `groupOrder`, and it did not raise.
   */
  ghost predicate GreedyRound(c: Config, a: Assignment, b: Assignment, allow: bool, order: seq<nat>, groupOrder: seq<seq<nat>>,
                              moduleOrder: seq<seq<seq<nat>>>, pick: set<nat> -> nat,
                              tr: seq<TraceEntry>, ch: seq<Option<(nat, nat)>>, at: seq<TurnState>)
  {
    var x := Inputs(c, a.credits, allow, order, groupOrder, moduleOrder, pick);
    Shapes(x) && RoundTurns(x, a.spaces, a.excess, Success(tr), b.spaces, b.excess, ch, at)
  }

  /** Each round of a repetition is a greedy round, with that round's student order `perm(seed, i)`. */
  ghost predicate GreedyRounds(c: Config, states: seq<Assignment>, chosen: seq<seq<Option<(nat, nat)>>>,
                               traces: seq<seq<TraceEntry>>, ats: seq<seq<TurnState>>, allow: bool, seed: int,
                               perm: (int, nat) -> seq<nat>, groupOrd: seq<seq<int>> -> seq<seq<nat>>,
                               moduleOrder: seq<seq<seq<nat>>>, pick: set<nat> -> nat)
  {
    && |states| == |chosen| + 1 && |traces| == |chosen| && |ats| == |chosen|
    && forall i :: 0 <= i < |chosen| ==>
         GreedyRound(c, states[i], states[i + 1], allow, perm(seed, i), groupOrd(states[i].credits), moduleOrder, pick,
                     traces[i], chosen[i], ats[i])
  }

  lemma GreedyRoundsSnoc(c: Config, states: seq<Assignment>, chosen: seq<seq<Option<(nat, nat)>>>,
                         traces: seq<seq<TraceEntry>>, ats: seq<seq<TurnState>>, allow: bool, seed: int,
                         perm: (int, nat) -> seq<nat>, groupOrd: seq<seq<int>> -> seq<seq<nat>>,
                         moduleOrder: seq<seq<seq<nat>>>, pick: set<nat> -> nat,
                         next: Assignment, ch: seq<Option<(nat, nat)>>, tr: seq<TraceEntry>, at: seq<TurnState>)
    requires GreedyRounds(c, states, chosen, traces, ats, allow, seed, perm, groupOrd, moduleOrder, pick)
    requires var last := states[|states| - 1];
             GreedyRound(c, last, next, allow, perm(seed, |chosen|), groupOrd(last.credits), moduleOrder, pick, tr, ch, at)
    ensures GreedyRounds(c, states + [next], chosen + [ch], traces + [tr], ats + [at], allow, seed, perm, groupOrd, moduleOrder, pick)
  {
    var states', chosen', traces', ats' := states + [next], chosen + [ch], traces + [tr], ats + [at];
    forall i | 0 <= i < |chosen'|
      ensures GreedyRound(c, states'[i], states'[i + 1], allow, perm(seed, i), groupOrd(states'[i].credits), moduleOrder, pick,
                          traces'[i], chosen'[i], ats'[i])
    {
      if i < |chosen| {
        assert states'[i] == states[i] && states'[i + 1] == states[i + 1];
      }
    }
  }

  /**
   * The part both apps share: build the assigner with `seed`, load the
   * earlier assignments, run `halt` rounds. Raises for a seed out of range,
   * a table that cannot be loaded, or a round that raises.
   */
  method RunRounds(c: Config, seed: int, loaded: Option<Table>, halt: nat, allow: bool,
                   perm: (int, nat) -> seq<nat>, groupOrd: seq<seq<int>> -> seq<seq<nat>>,
                   moduleOrder: seq<seq<seq<nat>>>, pick: set<nat> -> nat)
    returns (r: Result<Assignment, string>, ghost states: seq<Assignment>, ghost chosen: seq<seq<Option<(nat, nat)>>>,
             ghost who: seq<seq<nat>>, ghost traces: seq<seq<TraceEntry>>, ghost ats: seq<seq<TurnState>>)
    requires ValidConfig(c) && RunOracles(c, perm, groupOrd, moduleOrder, pick)
    requires loaded.Some? ==> WellFormed(loaded.value)
    ensures !SeedOk(seed) ==> r.Failure?
    ensures loaded.Some? && LoadFails(c, loaded.value) ==> r.Failure?
    ensures r.Success? ==> && |states| == halt + 1 && states[0] == Start(c, loaded) && states[halt] == r.value
                           && RoundsFrom(c, states, chosen, who, traces, allow)
                           && GreedyRounds(c, states, chosen, traces, ats, allow, seed, perm, groupOrd, moduleOrder, pick)
  {
    states, chosen, who, traces, ats := [], [], [], [], [];
    if !SeedOk(seed) {
      return Failure("ValueError: seed out of range"), states, chosen, who, traces, ats;
    }
    var a := new ModuleAssigner(c);
    if loaded.Some? {
      var lr := a.SetLoadedModuleAssignments(loaded.value);
      if lr.Failure? {
        return Failure(lr.error), states, chosen, who, traces, ats;
      }
    }
    states := [Assignment(a.credits, a.spaces, a.excess)];
    assert states[0] == Start(c, loaded);
    for i := 0 to halt
      invariant a.Valid() && a.cfg == c
      invariant |states| == i + 1 && states[0] == Start(c, loaded) && states[i] == Assignment(a.credits, a.spaces, a.excess)
      invariant RoundsFrom(c, states, chosen, who, traces, allow)
      invariant GreedyRounds(c, states, chosen, traces, ats, allow, seed, perm, groupOrd, moduleOrder, pick)
    {
      var rr;
      rr, states, chosen, who, traces, ats := NextRound(a, c, seed, i, allow, perm, groupOrd, moduleOrder, pick, states, chosen, who, traces, ats);
      if rr.Failure? {
        return Failure(rr.error), states, chosen, who, traces, ats;
      }
    }
    return Success(Assignment(a.credits, a.spaces, a.excess)), states, chosen, who, traces, ats;
  }

  /** Round `i` of a repetition, recorded after the rounds before it when it does not raise. */
  method NextRound(a: ModuleAssigner, c: Config, seed: int, i: nat, allow: bool,
                   perm: (int, nat) -> seq<nat>, groupOrd: seq<seq<int>> -> seq<seq<nat>>,
                   moduleOrder: seq<seq<seq<nat>>>, pick: set<nat> -> nat,
                   ghost states: seq<Assignment>, ghost chosen: seq<seq<Option<(nat, nat)>>>,
                   ghost who: seq<seq<nat>>, ghost traces: seq<seq<TraceEntry>>, ghost ats: seq<seq<TurnState>>)
    returns (rr: Result<seq<TraceEntry>, string>, ghost states': seq<Assignment>, ghost chosen': seq<seq<Option<(nat, nat)>>>,
             ghost who': seq<seq<nat>>, ghost traces': seq<seq<TraceEntry>>, ghost ats': seq<seq<TurnState>>)
    requires ValidConfig(c) && RunOracles(c, perm, groupOrd, moduleOrder, pick)
    requires a.Valid() && a.cfg == c
    requires |states| == i + 1 && states[i] == Assignment(a.credits, a.spaces, a.excess)
    requires RoundsFrom(c, states, chosen, who, traces, allow)
    requires GreedyRounds(c, states, chosen, traces, ats, allow, seed, perm, groupOrd, moduleOrder, pick)
    modifies a
    ensures a.Valid()
    ensures rr.Success? ==>
              && states' == states + [Assignment(a.credits, a.spaces, a.excess)]
              && RoundsFrom(c, states', chosen', who', traces', allow)
              && GreedyRounds(c, states', chosen', traces', ats', allow, seed, perm, groupOrd, moduleOrder, pick)
  {
    ghost var ch, wh, at;
    rr, ch, wh, at := a.RunAssignmentRound(allow, perm(seed, i), groupOrd(a.credits), moduleOrder, pick);
    states', chosen', who', traces', ats' := states, chosen, who, traces, ats;
    if rr.Success? {
      ghost var next := Assignment(a.credits, a.spaces, a.excess);
      RoundsFromSnoc(c, states, chosen, who, traces, allow, next, ch, wh, rr.value);
      GreedyRoundsSnoc(c, states, chosen, traces, ats, allow, seed, perm, groupOrd, moduleOrder, pick, next, ch, rr.value, at);
      states', chosen', who', traces', ats' := states + [next], chosen + [ch], who + [wh], traces + [rr.value], ats + [at];
    }
  }

  /** Spaces that start at zero or more stay so through every round of a repetition. */
  lemma {:induction false} RunKeepsSpaces(c: Config, states: seq<Assignment>, chosen: seq<seq<Option<(nat, nat)>>>,
                                          who: seq<seq<nat>>, traces: seq<seq<TraceEntry>>, allow: bool, i: nat)
    requires ValidConfig(c) && RoundsFrom(c, states, chosen, who, traces, allow) && i < |states|
    requires forall m :: 0 <= m < |c.modules| ==> states[0].spaces[m] >= 0
    ensures forall m :: 0 <= m < |c.modules| ==> states[i].spaces[m] >= 0
  {
    if i > 0 {
      RunKeepsSpaces(c, states, chosen, who, traces, allow, i - 1);
      var a, b := states[i - 1], states[i];
      assert RoundDone(c, a.credits, a.spaces, a.excess, b.credits, b.spaces, b.excess,
                       allow, Success(traces[i - 1]), chosen[i - 1], who[i - 1]);
    }
  }

  /** Every cell stays empty or holds its module's credits through a repetition. */
  lemma {:induction false} RunKeepsCells(c: Config, states: seq<Assignment>, chosen: seq<seq<Option<(nat, nat)>>>,
                                         who: seq<seq<nat>>, traces: seq<seq<TraceEntry>>, allow: bool, i: nat)
    requires ValidConfig(c) && RoundsFrom(c, states, chosen, who, traces, allow) && i < |states|
    requires forall s :: 0 <= s < |c.students| ==> CellsOk(c, states[0].credits[s])
    ensures forall s :: 0 <= s < |c.students| ==> CellsOk(c, states[i].credits[s])
  {
    if i > 0 {
      RunKeepsCells(c, states, chosen, who, traces, allow, i - 1);
      var a, b := states[i - 1], states[i];
      assert RoundDone(c, a.credits, a.spaces, a.excess, b.credits, b.spaces, b.excess,
                       allow, Success(traces[i - 1]), chosen[i - 1], who[i - 1]);
      RoundKeepsCells(c, a.credits, b.credits, allow, chosen[i - 1]);
    }
  }

  /** A student within the caps at the start of a repetition stays within them; one who received a bundle is within them from then on. */
  lemma {:induction false} RunKeepsCaps(c: Config, states: seq<Assignment>, chosen: seq<seq<Option<(nat, nat)>>>,
                                        who: seq<seq<nat>>, traces: seq<seq<TraceEntry>>, allow: bool, s: nat, j: nat, i: nat)
    requires ValidConfig(c) && RoundsFrom(c, states, chosen, who, traces, allow) && s < |c.students| && j <= i < |states|
    requires WithinCaps(c, states[j].credits[s]) || (j > 0 && chosen[j - 1][s].Some?)
    ensures WithinCaps(c, states[i].credits[s])
  {
    if i > j {
      RunKeepsCaps(c, states, chosen, who, traces, allow, s, j, i - 1);
    }
    if i > 0 && (i > j || !WithinCaps(c, states[j].credits[s])) {
      var a, b := states[i - 1], states[i];
      assert RoundDone(c, a.credits, a.spaces, a.excess, b.credits, b.spaces, b.excess,
                       allow, Success(traces[i - 1]), chosen[i - 1], who[i - 1]);
      RoundKeepsCaps(c, a.credits[s], b.credits[s], s, allow, chosen[i - 1][s]);
    }
  }

  /** The assigner starts with each module's available spaces, no excess requests, and cells that are empty or hold their module's credits. */
  lemma StartMeaning(c: Config, loaded: Option<Table>)
    requires ValidConfig(c) && (loaded.Some? ==> WellFormed(loaded.value))
    ensures forall m :: 0 <= m < |c.modules| ==> Start(c, loaded).spaces[m] == c.modules[m].available && Start(c, loaded).excess[m] == 0
    ensures forall s :: 0 <= s < |c.students| ==> CellsOk(c, Start(c, loaded).credits[s])
  {
    forall s | 0 <= s < |c.students| ensures CellsOk(c, Start(c, loaded).credits[s]) {
      if loaded.Some? {
        LoadedCellsOk(c, loaded.value, ZeroRows(c), s);
      }
    }
  }

  // ----- acceptance -----

  /** The hard constraints of `run_assignments`: every minimum met and every total exactly the required credits, or checking switched off. */
  predicate Accepted(c: Config, credits: seq<seq<int>>, check: bool)
    requires ValidConfig(c) && Rows(c, credits)
  {
    || !check
    || (&& (forall s, t :: 0 <= s < |credits| && 0 <= t < |c.semesters| ==> MinimumPerSemester(c, credits)[s][t])
        && (forall s, g :: 0 <= s < |credits| && 0 <= g < |c.groups| ==> MinimumPerGroup(c, credits)[s][g])
        && forall s :: 0 <= s < |credits| ==> AssignedCreditsTotals(c, credits)[s] == c.required)
  }

  /** An accepted assignment under checking gives every student the required credits and the minimum credits of every group and semester. */
  lemma AcceptedMeaning(c: Config, credits: seq<seq<int>>, s: nat)
    requires ValidConfig(c) && Rows(c, credits) && s < |credits| && CellsOk(c, credits[s])
    requires Accepted(c, credits, true)
    ensures Sum(credits[s]) == c.required
    ensures forall g :: 0 <= g < |c.groups| ==> GroupTotal(c, credits[s], g) >= c.minPerGroup[g]
    ensures forall t :: 0 <= t < |c.semesters| ==> SemesterCredits(c, credits[s], t) >= c.minPerSemester[t]
  {
    AssignedCreditsTotalsMeaning(c, credits, s);
    forall g | 0 <= g < |c.groups| ensures GroupTotal(c, credits[s], g) >= c.minPerGroup[g] {
      assert MinimumPerGroup(c, credits)[s][g];
    }
    forall t | 0 <= t < |c.semesters| ensures SemesterCredits(c, credits[s], t) >= c.minPerSemester[t] {
      assert MinimumPerSemester(c, credits)[s][t];
      MinimumPerSemesterMeaning(c, credits, s, t);
    }
  }

  // ----- keeping the best -----

  /** `proportion_overrequested` as numpy floats. */
  function Proportions(ls: seq<ExcessLine>): (xs: seq<Ext>)
    ensures |xs| == |ls|
  {
    seq(|ls|, i requires 0 <= i < |ls| => Real(ls[i].proportion))
  }

  /**
   * The comparison of `app/app.py`: the current assignment replaces the best
   * when its NaN-skipping mean score is at least the best's; a second test
   * that also asks for a mean over-request proportion no higher replaces it
   * too. The scores raise without students, the proportions for a module
   * of no capacity.
   */
  function KeepBestV2(c: Config, best: Assignment, cur: Assignment): (r: Result<Assignment, string>)
    requires ValidConfig(c) && Shaped(c, best) && Shaped(c, cur)
    ensures r.Failure? <==> |c.students| == 0 || exists m :: 0 <= m < |c.modules| && c.modules[m].totalSpaces == 0
    ensures r.Success? ==> r.value == best || r.value == cur
  {
    match (Scores(c, best.credits), Scores(c, cur.credits))
    case (Failure(e), _) => Failure(e)
    case (_, Failure(e)) => Failure(e)
    case (Success(bs), Success(cs)) =>
      match (ExcessRequests(c, best.excess), ExcessRequests(c, cur.excess))
      case (Failure(e), _) => Failure(e)
      case (_, Failure(e)) => Failure(e)
      case (Success(bo), Success(co)) =>
        var bm, cm := NanMean(Flatten(bs)), NanMean(Flatten(cs));
        var bom, com := Mean(Proportions(bo)), Mean(Proportions(co));
        var first := if Ge(cm, bm) then cur else best;
        Success(if Ge(cm, bm) && Ge(bom, com) then cur else first)
  }

  /** The over-request test cannot change the outcome: the current assignment wins exactly when its mean score is not below the best's. */
  lemma KeepBestV2ByScore(c: Config, best: Assignment, cur: Assignment)
    requires ValidConfig(c) && Shaped(c, best) && Shaped(c, cur)
    requires KeepBestV2(c, best, cur).Success?
    ensures KeepBestV2(c, best, cur).value ==
            if Ge(NanMean(Flatten(Scores(c, cur.credits).value)), NanMean(Flatten(Scores(c, best.credits).value))) then cur else best
  {
  }

  /**
   * The comparison of `app.py`: the current assignment replaces the best
   * when both its plain mean and its minimum score are at least the best's.
   * `np.min` raises on the empty score table of a catalogue with no group.
   */
  function KeepBestV1(c: Config, best: Assignment, cur: Assignment): (r: Result<Assignment, string>)
    requires ValidConfig(c) && Shaped(c, best) && Shaped(c, cur)
    ensures r.Failure? <==> |c.students| == 0 || |c.groups| == 0
    ensures r.Success? ==> r.value == best || r.value == cur
  {
    match (Scores(c, best.credits), Scores(c, cur.credits))
    case (Failure(e), _) => Failure(e)
    case (_, Failure(e)) => Failure(e)
    case (Success(bs), Success(cs)) =>
      FlattenSize(bs, |c.groups|);
      FlattenSize(cs, |c.groups|);
      match (Min(Flatten(bs)), Min(Flatten(cs)))
      case (Failure(e), _) => Failure(e)
      case (_, Failure(e)) => Failure(e)
      case (Success(bmin), Success(cmin)) =>
        var bm, cm := Mean(Flatten(bs)), Mean(Flatten(cs));
        Success(if Ge(cm, bm) && Ge(cmin, bmin) then cur else best)
  }

  lemma {:induction false} FlattenSize(t: seq<seq<Ext>>, w: nat)
    requires forall i :: 0 <= i < |t| ==> |t[i]| == w
    ensures |Flatten(t)| == |t| * w
  {
    if |t| > 0 {
      FlattenSize(t[..|t| - 1], w);
    }
  }

  /**
   * Under `app.py`'s plain mean, one undefined score keeps the earlier best:
   * in particular when some student of the new assignment holds no module
   * of some group.
   */
  lemma KeepBestV1Undefined(c: Config, best: Assignment, cur: Assignment, s: nat, g: nat)
    requires ValidConfig(c) && Shaped(c, best) && Shaped(c, cur)
    requires s < |c.students| && g < |c.groups| && HeldCount(c, cur.credits[s], g) == 0
    requires KeepBestV1(c, best, cur).Success?
    ensures KeepBestV1(c, best, cur).value == best
  {
    var cs := Scores(c, cur.credits).value;
    StudentScoreNoneHeld(c, cur.credits[s], s, g);
    assert cs[s][g] == NaN;
    MeanNaN(Flatten(cs));
  }

  // ----- the end of a repetition -----

  /**
   * `app/app.py`: the semester check runs first, checking on or off, and
   * raises for a catalogue it cannot stack; otherwise an unaccepted
   * assignment leaves the best as it was and the first accepted one becomes
   * the best.
   */
  function NextBestV2(c: Config, best: Option<Assignment>, cur: Assignment, check: bool): (r: Result<Option<Assignment>, string>)
    requires ValidConfig(c) && Shaped(c, cur) && (best.Some? ==> Shaped(c, best.value))
    ensures SemesterStackFails(c) ==> r.Failure?
    ensures !SemesterStackFails(c) && !Accepted(c, cur.credits, check) ==> r == Success(best)
    ensures !SemesterStackFails(c) && Accepted(c, cur.credits, check) && best.None? ==> r == Success(Some(cur))
    ensures r.Success? ==> r.value == best || r.value == Some(cur)
  {
    match MinimumPerSemesterAsWritten(c, cur.credits)
    case Failure(e) => Failure(e)
    case Success(_) =>
      if !Accepted(c, cur.credits, check) then Success(best)
      else if best.None? then Success(Some(cur))
      else
        match KeepBestV2(c, best.value, cur)
        case Failure(e) => Failure(e)
        case Success(a) => Success(Some(a))
  }

  /**
   * `app.py`: the semester check runs and may raise as in `app/app.py`;
   * checking is switched off, so every assignment that gets past it is accepted.
   */
  function NextBestV1(c: Config, best: Option<Assignment>, cur: Assignment): (r: Result<Option<Assignment>, string>)
    requires ValidConfig(c) && Shaped(c, cur) && (best.Some? ==> Shaped(c, best.value))
    ensures SemesterStackFails(c) ==> r.Failure?
    ensures r.Success? ==> r.value.Some? && (r.value == best || r.value == Some(cur))
    ensures !SemesterStackFails(c) && best.None? ==> r == Success(Some(cur))
  {
    assert Accepted(c, cur.credits, false);
    match MinimumPerSemesterAsWritten(c, cur.credits)
    case Failure(e) => Failure(e)
    case Success(_) =>
      if best.None? then Success(Some(cur))
      else
        match KeepBestV1(c, best.value, cur)
        case Failure(e) => Failure(e)
        case Success(a) => Success(Some(a))
  }

  // ----- the repetitions -----

  /** The best after the repetitions that produced `runs`, in `app/app.py`; the first error stops the loop. */
  function FoldV2(c: Config, runs: seq<Assignment>, check: bool): (r: Result<Option<Assignment>, string>)
    requires ValidConfig(c) && forall k :: 0 <= k < |runs| ==> Shaped(c, runs[k])
    ensures r.Success? && r.value.Some? ==> r.value.value in runs
    ensures SemesterStackFails(c) && |runs| > 0 ==> r.Failure?
  {
    if |runs| == 0 then Success(None)
    else
      var p := runs[..|runs| - 1];
      match FoldV2(c, p, check)
      case Failure(e) => Failure(e)
      case Success(best) =>
        assert best.Some? ==> Shaped(c, best.value) by {
          if best.Some? { var k :| 0 <= k < |p| && p[k] == best.value; }
        }
        NextBestV2(c, best, runs[|runs| - 1], check)
  }

  /** One more repetition of `app/app.py`. */
  lemma FoldV2Snoc(c: Config, runs: seq<Assignment>, cur: Assignment, check: bool)
    requires ValidConfig(c) && (forall k :: 0 <= k < |runs| ==> Shaped(c, runs[k])) && Shaped(c, cur)
    requires FoldV2(c, runs, check).Success?
    ensures FoldV2(c, runs, check).value.Some? ==> Shaped(c, FoldV2(c, runs, check).value.value)
    ensures FoldV2(c, runs + [cur], check) == NextBestV2(c, FoldV2(c, runs, check).value, cur, check)
  {
    var best := FoldV2(c, runs, check).value;
    if best.Some? {
      var k :| 0 <= k < |runs| && runs[k] == best.value;
    }
    assert (runs + [cur])[..|runs|] == runs;
  }

  /**
   * One repetition of `app/app.py` keeps the best an accepted assignment, and
   * leaves no best only when there was none and the current one is not accepted.
   */
  lemma NextBestV2Kept(c: Config, best: Option<Assignment>, cur: Assignment, check: bool)
    requires ValidConfig(c) && Shaped(c, cur) && (best.Some? ==> Shaped(c, best.value))
    requires best.Some? ==> Accepted(c, best.value.credits, check)
    ensures var r := NextBestV2(c, best, cur, check);
            r.Success? ==>
              && (r.value.None? <==> best.None? && !Accepted(c, cur.credits, check))
              && (r.value.Some? ==> Accepted(c, r.value.value.credits, check))
  {
    var r := NextBestV2(c, best, cur, check);
    if r.Success? {
      assert !SemesterStackFails(c);
      if !Accepted(c, cur.credits, check) {
        assert r.value == best;
      } else if best.None? {
        assert r.value == Some(cur);
      } else {
        assert r.value == best || r.value == Some(cur);
      }
    }
  }

  /** The best is a run that met the constraints, and there is none exactly when no run did. */
  lemma {:induction false} FoldV2Best(c: Config, runs: seq<Assignment>, check: bool)
    requires ValidConfig(c) && forall k :: 0 <= k < |runs| ==> Shaped(c, runs[k])
    ensures FoldV2(c, runs, check).Success? ==>
              var best := FoldV2(c, runs, check).value;
              && (best.None? <==> forall k :: 0 <= k < |runs| ==> !Accepted(c, runs[k].credits, check))
              && (best.Some? ==> Accepted(c, best.value.credits, check))
  {
    if |runs| > 0 {
      var p := runs[..|runs| - 1];
      var cur := runs[|runs| - 1];
      FoldV2Best(c, p, check);
      if FoldV2(c, p, check).Success? {
        FoldV2Snoc(c, p, cur, check);
        assert runs == p + [cur];
        var best, r := FoldV2(c, p, check).value, FoldV2(c, runs, check);
        assert r == NextBestV2(c, best, cur, check);
        NextBestV2Kept(c, best, cur, check);
        if r.Success? {
          assert forall k :: 0 <= k < |p| ==> p[k] == runs[k];
          assert (forall k :: 0 <= k < |runs| ==> !Accepted(c, runs[k].credits, check)) <==>
                 (forall k :: 0 <= k < |p| ==> !Accepted(c, p[k].credits, check)) && !Accepted(c, cur.credits, check);
        }
      }
    }
  }

  /** The best after the repetitions that produced `runs`, in `app.py`. */
  function FoldV1(c: Config, runs: seq<Assignment>): (r: Result<Option<Assignment>, string>)
    requires ValidConfig(c) && forall k :: 0 <= k < |runs| ==> Shaped(c, runs[k])
    ensures r.Success? && r.value.Some? ==> r.value.value in runs
    ensures SemesterStackFails(c) && |runs| > 0 ==> r.Failure?
  {
    if |runs| == 0 then Success(None)
    else
      var p := runs[..|runs| - 1];
      match FoldV1(c, p)
      case Failure(e) => Failure(e)
      case Success(best) =>
        assert best.Some? ==> Shaped(c, best.value) by {
          if best.Some? { var k :| 0 <= k < |p| && p[k] == best.value; }
        }
        NextBestV1(c, best, runs[|runs| - 1])
  }

  /** One more repetition of `app.py`. */
  lemma FoldV1Snoc(c: Config, runs: seq<Assignment>, cur: Assignment)
    requires ValidConfig(c) && (forall k :: 0 <= k < |runs| ==> Shaped(c, runs[k])) && Shaped(c, cur)
    requires FoldV1(c, runs).Success?
    ensures FoldV1(c, runs).value.Some? ==> Shaped(c, FoldV1(c, runs).value.value)
    ensures FoldV1(c, runs + [cur]) == NextBestV1(c, FoldV1(c, runs).value, cur)
  {
    var best := FoldV1(c, runs).value;
    if best.Some? {
      var k :| 0 <= k < |runs| && runs[k] == best.value;
    }
    assert (runs + [cur])[..|runs|] == runs;
  }

  /** Without checking, a best exists after any repetition, and it is one of the runs. */
  lemma {:induction false} FoldV1Best(c: Config, runs: seq<Assignment>)
    requires ValidConfig(c) && forall k :: 0 <= k < |runs| ==> Shaped(c, runs[k])
    ensures FoldV1(c, runs).Success? ==>
              var best := FoldV1(c, runs).value;
              && (best.None? <==> |runs| == 0)
              && (best.Some? ==> best.value in runs && Shaped(c, best.value))
  {
    if |runs| > 0 {
      var p := runs[..|runs| - 1];
      FoldV1Best(c, p);
      assert forall k :: 0 <= k < |p| ==> p[k] == runs[k];
    }
  }

  /** `run_assignments` of `app/app.py`: the user's seed per repetition, rounds that may take least preferred modules, the nanmean comparison. */
  method RunAssignmentsV2(c: Config, repetition: nat, user: int, best: Option<Assignment>, halt: nat, check: bool,
                          loaded: Option<Table>, perm: (int, nat) -> seq<nat>, groupOrd: seq<seq<int>> -> seq<seq<nat>>,
                          moduleOrder: seq<seq<seq<nat>>>, pick: set<nat> -> nat)
    returns (r: Result<Option<Assignment>, string>, ghost cur: Assignment)
    requires ValidConfig(c) && RunOracles(c, perm, groupOrd, moduleOrder, pick)
    requires loaded.Some? ==> WellFormed(loaded.value)
    requires best.Some? ==> Shaped(c, best.value)
    ensures !SeedOk(SeedV2(user, repetition)) ==> r.Failure?
    ensures SemesterStackFails(c) ==> r.Failure?
    ensures r.Success? ==> Shaped(c, cur) && r == NextBestV2(c, best, cur, check)
  {
    var run, states, chosen, who, traces, ats := RunRounds(c, SeedV2(user, repetition), loaded, halt, true, perm, groupOrd, moduleOrder, pick);
    if run.Failure? {
      return Failure(run.error), Start(c, loaded);
    }
    cur := run.value;
    r := NextBestV2(c, best, run.value, check);
  }

  /** `run_assignments` of `app.py`: seed `r * 123`, the user's least-preferred flag, no checking, the mean-and-minimum comparison. */
  method RunAssignmentsV1(c: Config, repetition: nat, allow: bool, best: Option<Assignment>, halt: nat,
                          loaded: Option<Table>, perm: (int, nat) -> seq<nat>, groupOrd: seq<seq<int>> -> seq<seq<nat>>,
                          moduleOrder: seq<seq<seq<nat>>>, pick: set<nat> -> nat)
    returns (r: Result<Option<Assignment>, string>, ghost cur: Assignment)
    requires ValidConfig(c) && RunOracles(c, perm, groupOrd, moduleOrder, pick)
    requires loaded.Some? ==> WellFormed(loaded.value)
    requires best.Some? ==> Shaped(c, best.value)
    ensures !SeedOk(SeedV1(repetition)) ==> r.Failure?
    ensures SemesterStackFails(c) ==> r.Failure?
    ensures r.Success? ==> Shaped(c, cur) && r == NextBestV1(c, best, cur)
  {
    var run, states, chosen, who, traces, ats := RunRounds(c, SeedV1(repetition), loaded, halt, allow, perm, groupOrd, moduleOrder, pick);
    if run.Failure? {
      return Failure(run.error), Start(c, loaded);
    }
    cur := run.value;
    r := NextBestV1(c, best, run.value);
  }

  /**
   * The repetition loop of `show_message` in `app/app.py`. `Success(None)`
   * is the outcome where the error notification is shown and no result set.
   */
  method ShowMessageV2(c: Config, repetitions: nat, user: int, halt: nat, check: bool, loaded: Option<Table>,
                       perm: (int, nat) -> seq<nat>, groupOrd: seq<seq<int>> -> seq<seq<nat>>,
                       moduleOrder: seq<seq<seq<nat>>>, pick: set<nat> -> nat)
    returns (r: Result<Option<Assignment>, string>, ghost runs: seq<Assignment>)
    requires ValidConfig(c) && RunOracles(c, perm, groupOrd, moduleOrder, pick)
    requires loaded.Some? ==> WellFormed(loaded.value)
    ensures SemesterStackFails(c) && repetitions > 0 ==> r.Failure?
    ensures r.Success? ==> |runs| == repetitions && (forall k :: 0 <= k < |runs| ==> Shaped(c, runs[k]))
                           && r == FoldV2(c, runs, check)
  {
    var best: Option<Assignment> := None;
    runs := [];
    for rep := 0 to repetitions
      invariant |runs| == rep && forall k :: 0 <= k < |runs| ==> Shaped(c, runs[k])
      invariant FoldV2(c, runs, check) == Success(best)
    {
      FoldV2Snoc(c, runs, Start(c, loaded), check);
      var next, cur := RunAssignmentsV2(c, rep, user, best, halt, check, loaded, perm, groupOrd, moduleOrder, pick);
      if next.Failure? {
        return next, runs;
      }
      FoldV2Snoc(c, runs, cur, check);
      runs := runs + [cur];
      best := next.value;
    }
    return Success(best), runs;
  }

  /** The repetition loop of `show_message` in `app.py`. */
  method ShowMessageV1(c: Config, repetitions: nat, allow: bool, halt: nat, loaded: Option<Table>,
                       perm: (int, nat) -> seq<nat>, groupOrd: seq<seq<int>> -> seq<seq<nat>>,
                       moduleOrder: seq<seq<seq<nat>>>, pick: set<nat> -> nat)
    returns (r: Result<Option<Assignment>, string>, ghost runs: seq<Assignment>)
    requires ValidConfig(c) && RunOracles(c, perm, groupOrd, moduleOrder, pick)
    requires loaded.Some? ==> WellFormed(loaded.value)
    ensures SemesterStackFails(c) && repetitions > 0 ==> r.Failure?
    ensures r.Success? ==> |runs| == repetitions && (forall k :: 0 <= k < |runs| ==> Shaped(c, runs[k]))
                           && r == FoldV1(c, runs)
  {
    var best: Option<Assignment> := None;
    runs := [];
    for rep := 0 to repetitions
      invariant |runs| == rep && forall k :: 0 <= k < |runs| ==> Shaped(c, runs[k])
      invariant FoldV1(c, runs) == Success(best)
    {
      FoldV1Snoc(c, runs, Start(c, loaded));
      var next, cur := RunAssignmentsV1(c, rep, allow, best, halt, loaded, perm, groupOrd, moduleOrder, pick);
      if next.Failure? {
        return next, runs;
      }
      FoldV1Snoc(c, runs, cur);
      runs := runs + [cur];
      best := next.value;
    }
    return Success(best), runs;
  }
}
