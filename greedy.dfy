/**
 * The greedy choice of `run_assignment_round` (`app/algorithm.py`), turn by
 * turn. A round is a chain of states, one between each two turns: the
 * spaces, the excess counters, the flags last computed and the trace. Each
 * turn of a student short of the required credits scans the student's offers
 * from the state before it; the chain records what that scan committed,
 * charged and left behind. The lemmas at the end say what the scan means in
 * the round's own terms: the committed bundle is the first offered one that
 * fits, the counters grow exactly for the bundles without space met before
 * it, and a student left short is traced with the flags of the last bundle
 * evaluated.
 */
module Greedy {
  import opened Wrappers
  import opened Sequences
  import opened Engine
  import opened Rounds
  import opened Offers

  /** What a round is given: the configuration, the rows it starts from, the flag and the oracles. */
  datatype Inputs = Inputs(c: Config, rows0: seq<seq<int>>, allow: bool, order: seq<nat>,
                           groupOrder: seq<seq<nat>>, moduleOrder: seq<seq<seq<nat>>>, pick: set<nat> -> nat)

  /** The state between two turns. */
  datatype TurnState = TurnState(spaces: seq<int>, excess: seq<int>, last: Option<Flags>, trace: seq<TraceEntry>)

  /** The inputs have the sizes the round relies on. */
  predicate Shapes(x: Inputs)
  {
    && ValidConfig(x.c) && |x.rows0| == |x.c.students|
    && (forall s :: 0 <= s < |x.rows0| ==> |x.rows0[s]| == |x.c.modules|)
    && |x.groupOrder| == |x.c.students| && |x.moduleOrder| == |x.c.students|
    && (forall i :: 0 <= i < |x.order| ==> x.order[i] < |x.c.students|)
  }

  lemma OraclesShapes(x: Inputs)
    requires ValidConfig(x.c) && |x.rows0| == |x.c.students| && forall s :: 0 <= s < |x.rows0| ==> |x.rows0[s]| == |x.c.modules|
    requires Oracles(x.c, x.rows0, x.order, x.groupOrder, x.moduleOrder, x.pick)
    ensures Shapes(x) && Distinct(x.order)
  {
  }

  /** The student of turn `i` is short of the required credits and so is served. */
  predicate Short(x: Inputs, i: nat)
    requires Shapes(x) && i < |x.order|
  {
    StudentTotal(x.c, x.rows0[x.order[i]]) < x.c.required
  }

  /** The offers of turn `i`: the student's groups in deficit order, each group's modules in rank order. */
  function TurnOffers(x: Inputs, i: nat): seq<Offer>
    requires Shapes(x) && i < |x.order|
  {
    var s := x.order[i];
    Offered(x.groupOrder[s], x.moduleOrder[s])
  }

  /** The scan of turn `i` from the state `st`. */
  function TurnScan(x: Inputs, i: nat, st: TurnState): Scan
    requires Shapes(x) && i < |x.order|
  {
    var s := x.order[i];
    Run(EvalOf(x.c, x.rows0[s], st.spaces, s, x.allow), ChargeOf(x.c, x.rows0[s], x.pick), Scan(None, st.last, {}), TurnOffers(x, i))
  }

  /** What turn `i` commits: nothing for a student holding the required credits, otherwise what the scan commits. */
  function TurnChoice(x: Inputs, i: nat, st: TurnState): Option<Offer>
    requires Shapes(x) && i < |x.order|
  {
    if Short(x, i) then TurnScan(x, i, st).choice else None
  }

  /**
   * Turn `i` leads from `st` to `st'`: a student holding the required credits
   * changes nothing; otherwise the scan has computed flags, the charged
   * modules' counters grow by one, the committed bundle's spaces shrink by
   * one, and a student who received nothing is traced with the last flags.
   */
  ghost predicate TurnOk(x: Inputs, i: nat, st: TurnState, st': TurnState)
    requires Shapes(x) && i < |x.order|
  {
    var s := x.order[i];
    if !Short(x, i) then st' == st
    else
      var r := TurnScan(x, i, st);
      && r.last.Some?
      && st'.excess == Charge(st.excess, r.requested)
      && st'.last == r.last
      && st'.spaces == (if r.choice.Some? then Release(st.spaces, BundleAt(x.c, x.rows0[s], r.choice.value.1)) else st.spaces)
      && st'.trace == (if r.choice.None? then st.trace + [Entry(x.c.students[s].id, r.last.value)] else st.trace)
  }

  /** The turns so far: each leads from its state to the next, and each student's record is what its turn committed. */
  ghost predicate Chain(x: Inputs, at: seq<TurnState>, chosen: seq<Option<Offer>>)
    requires Shapes(x)
  {
    && 1 <= |at| <= |x.order| + 1 && |chosen| == |x.c.students|
    && forall k :: 0 <= k < |at| - 1 ==> TurnOk(x, k, at[k], at[k + 1]) && chosen[x.order[k]] == TurnChoice(x, k, at[k])
  }

  /**
   * A round, turn by turn, from `spaces0` and `excess0`: a round that
   * succeeds took every turn and ends in the last state, its trace the
   * round's result; a round that fails stopped at a short student whose scan
   * found no flags to report.
   */
  ghost predicate RoundTurns(x: Inputs, spaces0: seq<int>, excess0: seq<int>, r: Result<seq<TraceEntry>, string>,
                         spaces: seq<int>, excess: seq<int>, chosen: seq<Option<Offer>>, at: seq<TurnState>)
    requires Shapes(x)
  {
    && Chain(x, at, chosen)
    && at[0] == TurnState(spaces0, excess0, None, [])
    && (r.Success? ==>
          |at| == |x.order| + 1 && at[|x.order|].spaces == spaces && at[|x.order|].excess == excess && at[|x.order|].trace == r.value)
    && (r.Failure? ==> |at| <= |x.order| && Short(x, |at| - 1) && TurnScan(x, |at| - 1, at[|at| - 1]).last.None?)
  }

  /** One more turn extends the chain. */
  lemma ChainStep(x: Inputs, at: seq<TurnState>, chosen: seq<Option<Offer>>, st': TurnState)
    requires Shapes(x) && Distinct(x.order) && Chain(x, at, chosen) && |at| <= |x.order|
    requires TurnOk(x, |at| - 1, at[|at| - 1], st')
    ensures Chain(x, at + [st'], chosen[x.order[|at| - 1] := TurnChoice(x, |at| - 1, at[|at| - 1])])
  {
    var i := |at| - 1;
    var chosen' := chosen[x.order[i] := TurnChoice(x, i, at[i])];
    var at' := at + [st'];
    forall k | 0 <= k < |at'| - 1
      ensures TurnOk(x, k, at'[k], at'[k + 1]) && chosen'[x.order[k]] == TurnChoice(x, k, at'[k])
    {
      if k < i {
        assert x.order[k] != x.order[i];
        assert at'[k] == at[k] && at'[k + 1] == at[k + 1];
      }
    }
  }

  /** A round that has not started. */
  lemma ChainStart(x: Inputs, spaces0: seq<int>, excess0: seq<int>)
    requires Shapes(x)
    ensures Chain(x, [TurnState(spaces0, excess0, None, [])], seq(|x.c.students|, s => None))
  {
  }

  /**
   * Turn `i`'s effect, from what serving the student returned: the scan's
   * choice, flags and charges, and the spaces the committed bundle released.
   */
  lemma TurnServed(x: Inputs, i: nat, st: TurnState, ch: Option<Offer>, spaces': seq<int>, excess': seq<int>, last': Option<Flags>,
                   trace': seq<TraceEntry>)
    requires Shapes(x) && i < |x.order| && Short(x, i)
    requires var r := TurnScan(x, i, st);
             ch == r.choice && last' == r.last && excess' == Charge(st.excess, r.requested)
    requires last'.Some?
    requires ch.Some? ==> ch.value.1 < |x.c.modules| && spaces' == Release(st.spaces, Bundle(x.c, x.rows0[x.order[i]], ch.value.1))
    requires ch.None? ==> spaces' == st.spaces && trace' == st.trace + [Entry(x.c.students[x.order[i]].id, last'.value)]
    requires ch.Some? ==> trace' == st.trace
    ensures TurnOk(x, i, st, TurnState(spaces', excess', last', trace')) && TurnChoice(x, i, st) == ch
  {
  }

  /** A student holding the required credits is passed over. */
  lemma TurnSkipped(x: Inputs, i: nat, st: TurnState)
    requires Shapes(x) && i < |x.order| && !Short(x, i)
    ensures TurnOk(x, i, st, st) && TurnChoice(x, i, st) == None
  {
  }

  /** The bundle of offer `gk` is not empty, has space, and passes every other check. */
  predicate Fits(c: Config, row: seq<int>, spaces: seq<int>, s: nat, allow: bool, gk: Offer)
    requires ValidConfig(c) && s < |c.students| && |row| == |c.modules|
  {
    gk.1 < |c.modules| && Bundle(c, row, gk.1) != {}
    && HasSpace(spaces, Bundle(c, row, gk.1)) && Admissible(c, row, s, gk.0, Bundle(c, row, gk.1), allow)
  }

  /** The bundle of offer `gk` is not empty, lacks space, and its leftover member is `m`. */
  predicate Charged(c: Config, row: seq<int>, spaces: seq<int>, pick: set<nat> -> nat, gk: Offer, m: nat)
    requires ValidConfig(c)
  {
    gk.1 < |c.modules| && Bundle(c, row, gk.1) != {} && !HasSpace(spaces, Bundle(c, row, gk.1)) && pick(Bundle(c, row, gk.1)) == m
  }

  /** An offer passes the scan exactly when it fits. */
  lemma PassesFits(c: Config, row: seq<int>, spaces: seq<int>, s: nat, allow: bool, offers: seq<Offer>)
    requires ValidConfig(c) && s < |c.students| && |row| == |c.modules|
    ensures forall j :: 0 <= j < |offers| ==>
              (Passes(EvalOf(c, row, spaces, s, allow), offers[j]) <==> Fits(c, row, spaces, s, allow, offers[j]))
  {
    forall j | 0 <= j < |offers|
      ensures Passes(EvalOf(c, row, spaces, s, allow), offers[j]) <==> Fits(c, row, spaces, s, allow, offers[j])
    {
      EvalOfMeaning(c, row, spaces, s, allow, offers[j]);
    }
  }

  /**
   * The scan of a turn commits the first offer that fits, and nothing
   * exactly when none fits.
   */
  lemma ScanFirstFit(c: Config, row: seq<int>, spaces: seq<int>, s: nat, allow: bool, pick: set<nat> -> nat,
                     last: Option<Flags>, offers: seq<Offer>)
    requires ValidConfig(c) && s < |c.students| && |row| == |c.modules|
    ensures var r := Run(EvalOf(c, row, spaces, s, allow), ChargeOf(c, row, pick), Scan(None, last, {}), offers);
            && (r.choice.None? <==> forall j :: 0 <= j < |offers| ==> !Fits(c, row, spaces, s, allow, offers[j]))
            && (r.choice.Some? ==>
                  exists j :: 0 <= j < |offers| && offers[j] == r.choice.value && Fits(c, row, spaces, s, allow, offers[j])
                              && forall i :: 0 <= i < j ==> !Fits(c, row, spaces, s, allow, offers[i]))
  {
    var eval, charge := EvalOf(c, row, spaces, s, allow), ChargeOf(c, row, pick);
    var r := Run(eval, charge, Scan(None, last, {}), offers);
    PassesFits(c, row, spaces, s, allow, offers);
    RunNone(eval, charge, Scan(None, last, {}), offers);
    RunFirst(eval, charge, Scan(None, last, {}), offers);
    if r.choice.Some? {
      var j :| 0 <= j < |offers| && offers[j] == r.choice.value && Passes(eval, offers[j]) && NonePasses(eval, offers[..j]);
      forall i | 0 <= i < j ensures !Fits(c, row, spaces, s, allow, offers[i]) {
        assert offers[..j][i] == offers[i];
      }
    }
  }

  /** Module `m` is the leftover member of an offered bundle without space met before any offer fits. */
  predicate Requested(c: Config, row: seq<int>, spaces: seq<int>, s: nat, allow: bool, pick: set<nat> -> nat,
                      offers: seq<Offer>, m: nat)
    requires ValidConfig(c) && s < |c.students| && |row| == |c.modules|
  {
    exists j :: 0 <= j < |offers| && Charged(c, row, spaces, pick, offers[j], m)
                && forall i :: 0 <= i < j ==> !Fits(c, row, spaces, s, allow, offers[i])
  }

  /** The scan of a turn charges exactly the leftover members of the bundles without space met before one fits. */
  lemma ScanCharges(c: Config, row: seq<int>, spaces: seq<int>, s: nat, allow: bool, pick: set<nat> -> nat,
                    last: Option<Flags>, offers: seq<Offer>, m: nat)
    requires ValidConfig(c) && s < |c.students| && |row| == |c.modules|
    ensures m in Run(EvalOf(c, row, spaces, s, allow), ChargeOf(c, row, pick), Scan(None, last, {}), offers).requested
            <==> Requested(c, row, spaces, s, allow, pick, offers, m)
  {
    ScanChargesSound(c, row, spaces, s, allow, pick, last, offers, m);
    if Requested(c, row, spaces, s, allow, pick, offers, m) {
      ScanChargesComplete(c, row, spaces, s, allow, pick, last, offers, m);
    }
  }

  lemma ScanChargesSound(c: Config, row: seq<int>, spaces: seq<int>, s: nat, allow: bool, pick: set<nat> -> nat,
                         last: Option<Flags>, offers: seq<Offer>, m: nat)
    requires ValidConfig(c) && s < |c.students| && |row| == |c.modules|
    ensures m in Run(EvalOf(c, row, spaces, s, allow), ChargeOf(c, row, pick), Scan(None, last, {}), offers).requested
            ==> Requested(c, row, spaces, s, allow, pick, offers, m)
  {
    var eval, charge := EvalOf(c, row, spaces, s, allow), ChargeOf(c, row, pick);
    var st := Scan(None, last, {});
    RunChargedSound(eval, charge, st, offers, m);
    if m in Run(eval, charge, st, offers).requested {
      var j :| 0 <= j < |offers| && ChargesTo(eval, charge, offers[j], m) && NonePasses(eval, offers[..j]);
      ChargesCharged(c, row, spaces, s, allow, pick, offers[j], m);
      PassesFits(c, row, spaces, s, allow, offers);
      forall i | 0 <= i < j ensures !Fits(c, row, spaces, s, allow, offers[i]) {
        assert offers[..j][i] == offers[i];
      }
    }
  }

  lemma ScanChargesComplete(c: Config, row: seq<int>, spaces: seq<int>, s: nat, allow: bool, pick: set<nat> -> nat,
                            last: Option<Flags>, offers: seq<Offer>, m: nat)
    requires ValidConfig(c) && s < |c.students| && |row| == |c.modules|
    requires Requested(c, row, spaces, s, allow, pick, offers, m)
    ensures m in Run(EvalOf(c, row, spaces, s, allow), ChargeOf(c, row, pick), Scan(None, last, {}), offers).requested
  {
    var eval, charge := EvalOf(c, row, spaces, s, allow), ChargeOf(c, row, pick);
    var j :| 0 <= j < |offers| && Charged(c, row, spaces, pick, offers[j], m)
             && forall i :: 0 <= i < j ==> !Fits(c, row, spaces, s, allow, offers[i]);
    ChargesCharged(c, row, spaces, s, allow, pick, offers[j], m);
    PassesFits(c, row, spaces, s, allow, offers);
    forall i | 0 <= i < j ensures !Passes(eval, offers[..j][i]) {
      assert offers[..j][i] == offers[i];
    }
    RunChargedComplete(eval, charge, Scan(None, last, {}), offers, j, m);
  }

  /** An offer charges `m` in the scan exactly when its bundle is charged to `m`. */
  lemma ChargesCharged(c: Config, row: seq<int>, spaces: seq<int>, s: nat, allow: bool, pick: set<nat> -> nat, gk: Offer, m: nat)
    requires ValidConfig(c) && s < |c.students| && |row| == |c.modules|
    ensures ChargesTo(EvalOf(c, row, spaces, s, allow), ChargeOf(c, row, pick), gk, m) <==> Charged(c, row, spaces, pick, gk, m)
  {
    EvalOfMeaning(c, row, spaces, s, allow, gk);
    if gk.1 < |c.modules| {
      assert BundleAt(c, row, gk.1) == Bundle(c, row, gk.1);
    }
  }

  /**
   * The flags a turn leaves: those of the committed bundle; with nothing
   * committed, those of the last non-empty bundle offered, or the earlier
   * flags when every bundle was empty.
   */
  lemma ScanLastFlags(c: Config, row: seq<int>, spaces: seq<int>, s: nat, allow: bool, pick: set<nat> -> nat,
                      last: Option<Flags>, offers: seq<Offer>, j: nat)
    requires ValidConfig(c) && s < |c.students| && |row| == |c.modules|
    ensures var r := Run(EvalOf(c, row, spaces, s, allow), ChargeOf(c, row, pick), Scan(None, last, {}), offers);
            && (r.choice.Some? ==>
                  && r.choice.value.1 < |c.modules|
                  && r.last == Some(Evaluate(c, row, spaces, s, r.choice.value.0, Bundle(c, row, r.choice.value.1), allow)))
            && ((forall i :: 0 <= i < |offers| ==> !(offers[i].1 < |c.modules| && Bundle(c, row, offers[i].1) != {})) ==> r.last == last)
            && (r.choice.None? && j < |offers| && offers[j].1 < |c.modules| && Bundle(c, row, offers[j].1) != {}
                && (forall i :: j < i < |offers| ==> !(offers[i].1 < |c.modules| && Bundle(c, row, offers[i].1) != {})) ==>
                  r.last == Some(Evaluate(c, row, spaces, s, offers[j].0, Bundle(c, row, offers[j].1), allow)))
  {
    ScanChosenFlags(c, row, spaces, s, allow, pick, last, offers);
    ScanEmptyFlags(c, row, spaces, s, allow, pick, last, offers);
    ScanEvaluatedFlags(c, row, spaces, s, allow, pick, last, offers, j);
  }

  /** The flags a turn leaves when it commits a bundle are that bundle's. */
  lemma ScanChosenFlags(c: Config, row: seq<int>, spaces: seq<int>, s: nat, allow: bool, pick: set<nat> -> nat,
                        last: Option<Flags>, offers: seq<Offer>)
    requires ValidConfig(c) && s < |c.students| && |row| == |c.modules|
    ensures var r := Run(EvalOf(c, row, spaces, s, allow), ChargeOf(c, row, pick), Scan(None, last, {}), offers);
            r.choice.Some? ==>
              && r.choice.value.1 < |c.modules|
              && r.last == Some(Evaluate(c, row, spaces, s, r.choice.value.0, Bundle(c, row, r.choice.value.1), allow))
  {
    var eval, charge := EvalOf(c, row, spaces, s, allow), ChargeOf(c, row, pick);
    var st := Scan(None, last, {});
    var r := Run(eval, charge, st, offers);
    if r.choice.Some? {
      RunLastChosen(eval, charge, st, offers);
      EvalOfMeaning(c, row, spaces, s, allow, r.choice.value);
    }
  }

  /** A turn whose offered bundles are all empty leaves the flags as they were. */
  lemma ScanEmptyFlags(c: Config, row: seq<int>, spaces: seq<int>, s: nat, allow: bool, pick: set<nat> -> nat,
                       last: Option<Flags>, offers: seq<Offer>)
    requires ValidConfig(c) && s < |c.students| && |row| == |c.modules|
    ensures var r := Run(EvalOf(c, row, spaces, s, allow), ChargeOf(c, row, pick), Scan(None, last, {}), offers);
            (forall i :: 0 <= i < |offers| ==> !(offers[i].1 < |c.modules| && Bundle(c, row, offers[i].1) != {})) ==> r.last == last
  {
    var eval, charge := EvalOf(c, row, spaces, s, allow), ChargeOf(c, row, pick);
    var st := Scan(None, last, {});
    if forall i :: 0 <= i < |offers| ==> !(offers[i].1 < |c.modules| && Bundle(c, row, offers[i].1) != {}) {
      forall i | 0 <= i < |offers| ensures eval(offers[i]).None? {
        EvalOfMeaning(c, row, spaces, s, allow, offers[i]);
      }
      RunUntouched(eval, charge, st, offers);
    }
  }

  /** A turn that commits nothing leaves the flags of the last non-empty bundle offered. */
  lemma ScanEvaluatedFlags(c: Config, row: seq<int>, spaces: seq<int>, s: nat, allow: bool, pick: set<nat> -> nat,
                           last: Option<Flags>, offers: seq<Offer>, j: nat)
    requires ValidConfig(c) && s < |c.students| && |row| == |c.modules|
    ensures var r := Run(EvalOf(c, row, spaces, s, allow), ChargeOf(c, row, pick), Scan(None, last, {}), offers);
            r.choice.None? && j < |offers| && offers[j].1 < |c.modules| && Bundle(c, row, offers[j].1) != {}
            && (forall i :: j < i < |offers| ==> !(offers[i].1 < |c.modules| && Bundle(c, row, offers[i].1) != {})) ==>
              r.last == Some(Evaluate(c, row, spaces, s, offers[j].0, Bundle(c, row, offers[j].1), allow))
  {
    var eval, charge := EvalOf(c, row, spaces, s, allow), ChargeOf(c, row, pick);
    var st := Scan(None, last, {});
    var r := Run(eval, charge, st, offers);
    if r.choice.None? && j < |offers| && offers[j].1 < |c.modules| && Bundle(c, row, offers[j].1) != {}
       && (forall i :: j < i < |offers| ==> !(offers[i].1 < |c.modules| && Bundle(c, row, offers[i].1) != {})) {
      EvalOfMeaning(c, row, spaces, s, allow, offers[j]);
      forall i | j < i < |offers| ensures eval(offers[i]).None? {
        EvalOfMeaning(c, row, spaces, s, allow, offers[i]);
      }
      RunLastEvaluated(eval, charge, st, offers, j);
    }
  }

  /**
   * In a round, each short student's turn commits the first of its offers
   * whose bundle fits the spaces left by the turns before it, and commits
   * nothing exactly when none fits.
   */
  lemma GreedyChoice(x: Inputs, at: seq<TurnState>, chosen: seq<Option<Offer>>, k: nat)
    requires Shapes(x) && Chain(x, at, chosen) && k < |at| - 1 && Short(x, k)
    ensures var s, offers, spaces := x.order[k], TurnOffers(x, k), at[k].spaces;
            && (chosen[s].None? <==> forall j :: 0 <= j < |offers| ==> !Fits(x.c, x.rows0[s], spaces, s, x.allow, offers[j]))
            && (chosen[s].Some? ==>
                  exists j :: 0 <= j < |offers| && offers[j] == chosen[s].value && Fits(x.c, x.rows0[s], spaces, s, x.allow, offers[j])
                              && forall i :: 0 <= i < j ==> !Fits(x.c, x.rows0[s], spaces, s, x.allow, offers[i]))
  {
    var s := x.order[k];
    ScanFirstFit(x.c, x.rows0[s], at[k].spaces, s, x.allow, x.pick, at[k].last, TurnOffers(x, k));
  }

  /** In a round, a short student's turn raises exactly the counters of the modules it requested. */
  lemma GreedyExcess(x: Inputs, at: seq<TurnState>, chosen: seq<Option<Offer>>, k: nat, m: nat)
    requires Shapes(x) && Chain(x, at, chosen) && k < |at| - 1 && Short(x, k) && m < |at[k].excess|
    ensures var s := x.order[k];
            at[k + 1].excess[m] == at[k].excess[m] + if Requested(x.c, x.rows0[s], at[k].spaces, s, x.allow, x.pick, TurnOffers(x, k), m) then 1 else 0
  {
    var s := x.order[k];
    assert TurnOk(x, k, at[k], at[k + 1]);
    ScanCharges(x.c, x.rows0[s], at[k].spaces, s, x.allow, x.pick, at[k].last, TurnOffers(x, k), m);
  }

  /**
   * In a round, a short student who received nothing is traced with the flags
   * of the last non-empty bundle offered to them, or those of an earlier
   * turn when every bundle was empty.
   */
  lemma GreedyTrace(x: Inputs, at: seq<TurnState>, chosen: seq<Option<Offer>>, k: nat, j: nat)
    requires Shapes(x) && Chain(x, at, chosen) && k < |at| - 1 && Short(x, k) && chosen[x.order[k]].None?
    ensures var s, offers, row := x.order[k], TurnOffers(x, k), x.rows0[x.order[k]];
            (j < |offers| && offers[j].1 < |x.c.modules| && Bundle(x.c, row, offers[j].1) != {}
                && (forall i :: j < i < |offers| ==> !(offers[i].1 < |x.c.modules| && Bundle(x.c, row, offers[i].1) != {})) ==>
                  at[k + 1].trace == at[k].trace + [Entry(x.c.students[s].id, Evaluate(x.c, row, at[k].spaces, s, offers[j].0, Bundle(x.c, row, offers[j].1), x.allow))])
  {
    var s := x.order[k];
    assert TurnOk(x, k, at[k], at[k + 1]);
    ScanLastFlags(x.c, x.rows0[s], at[k].spaces, s, x.allow, x.pick, at[k].last, TurnOffers(x, k), j);
  }
}
