/**
 * `ModuleAssigner` in `app/algorithm.py`: the credits each student holds in
 * each module, the spaces left on each module and the count of requests made
 * for modules that had no space, and the greedy round that hands out modules.
 */
module Assigner {
  import opened Wrappers
  import opened Sequences
  import opened Engine
  import opened Rounds
  import opened Offers
  import opened Greedy
  import opened Validation
  import opened Reports
  import opened PriorLoad

  /** The loop of the commit: each member's cell gets its credits and one of its spaces. */
  method TakeBundle(c: Config, row0: seq<int>, spaces0: seq<int>, b: set<nat>) returns (row: seq<int>, left: seq<int>)
    requires |row0| == |c.modules| && |spaces0| == |c.modules| && forall m :: m in b ==> m < |c.modules|
    ensures row == Take(c, row0, b) && left == Release(spaces0, b)
  {
    row, left := row0, spaces0;
    var rest := b;
    assert row == Take(c, row0, b - rest);
    assert left == Release(spaces0, b - rest);
    while rest != {}
      invariant rest <= b
      invariant row == Take(c, row0, b - rest)
      invariant left == Release(spaces0, b - rest)
      decreases |rest|
    {
      var m :| m in rest;
      TakeNext(c, row0, b, rest, m);
      ReleaseNext(spaces0, b, rest, m);
      row := row[m := c.modules[m].credits];
      left := left[m := left[m] - 1];
      rest := rest - {m};
    }
    assert b - rest == b;
  }

  /**
   * One pass of the inner loop of `run_assignment_round`: module `k` of group
   * `g` is offered to student `s`. A non-empty bundle is evaluated, an excess
   * request charged to `pick` of it when it lacks space (once per module per
   * student), and `taken` says whether it passes every check.
   */
  method TryModule(c: Config, row: seq<int>, spaces: seq<int>, excess: seq<int>, s: nat, g: nat, k: nat,
                   allow: bool, pick: set<nat> -> nat, requested: set<nat>, last: Option<Flags>)
    returns (taken: bool, excess': seq<int>, requested': set<nat>, last': Option<Flags>)
    requires ValidConfig(c) && s < |c.students| && g < |c.groups| && Selected(c, InGroup(g), k)
    requires |row| == |c.modules| && |excess| == |c.modules|
    requires forall b: set<nat> :: b != {} ==> pick(b) in b
    requires forall m :: m in requested ==> m < |c.modules|
    ensures |excess'| == |c.modules|
    ensures requested <= requested' && forall m :: m in requested' ==> m < |c.modules|
    ensures forall m :: 0 <= m < |c.modules| ==> excess'[m] == excess[m] + (if m in requested' - requested then 1 else 0)
    ensures taken ==> Committed(c, row, s, allow, (g, k)) && HasSpace(spaces, Bundle(c, row, k))
    ensures Step(EvalOf(c, row, spaces, s, allow), ChargeOf(c, row, pick), Scan(None, last, requested), (g, k))
            == Scan(if taken then Some((g, k)) else None, last', requested')
  {
    StepAt(c, row, spaces, s, allow, pick, last, requested, g, k);
    taken, excess', requested', last' := false, excess, requested, last;
    var b := Bundle(c, row, k);
    if b != {} {
      var f := Evaluate(c, row, spaces, s, g, b, allow);
      last' := Some(f);
      if !f.spaceRemaining {
        var m := pick(b);
        if m !in requested' {
          excess' := excess'[m := excess'[m] + 1];
          requested' := requested' + {m};
        }
      }
      taken := AllPass(f);
    }
  }

  /**
   * The inner loop of `run_assignment_round`: offers student `s` (whose row is
   * `row`) the modules of group `g` in the order `o` and commits the first
   * bundle that passes every check.
   */
  method TryGroup(c: Config, row: seq<int>, spaces: seq<int>, excess: seq<int>, s: nat, g: nat, o: seq<nat>,
                  allow: bool, pick: set<nat> -> nat, requested: set<nat>, last: Option<Flags>)
    returns (k: Option<nat>, row': seq<int>, spaces': seq<int>, excess': seq<int>, requested': set<nat>, last': Option<Flags>)
    requires ValidConfig(c) && s < |c.students| && g < |c.groups|
    requires |row| == |c.modules| && |spaces| == |c.modules| && |excess| == |c.modules|
    requires forall j :: 0 <= j < |o| ==> Selected(c, InGroup(g), o[j])
    requires forall b: set<nat> :: b != {} ==> pick(b) in b
    requires forall m :: m in requested ==> m < |c.modules|
    ensures |excess'| == |c.modules|
    ensures requested <= requested' && forall m :: m in requested' ==> m < |c.modules|
    ensures forall m :: 0 <= m < |c.modules| ==> excess'[m] == excess[m] + (if m in requested' - requested then 1 else 0)
    ensures k.None? ==> row' == row && spaces' == spaces
    ensures k.Some? ==>
              && Committed(c, row, s, allow, (g, k.value))
              && HasSpace(spaces, Bundle(c, row, k.value))
              && row' == Take(c, row, Bundle(c, row, k.value))
              && spaces' == Release(spaces, Bundle(c, row, k.value))
    ensures last'.None? ==> last.None? && k.None? && requested' == requested
    ensures Run(EvalOf(c, row, spaces, s, allow), ChargeOf(c, row, pick), Scan(None, last, requested), GroupOffers(g, o))
            == Scan(if k.Some? then Some((g, k.value)) else None, last', requested')
  {
    ghost var eval, charge := EvalOf(c, row, spaces, s, allow), ChargeOf(c, row, pick);
    ghost var offers := GroupOffers(g, o);
    excess', requested', last' := excess, requested, last;
    for j := 0 to |o|
      invariant |excess'| == |c.modules|
      invariant requested <= requested' && forall m :: m in requested' ==> m < |c.modules|
      invariant forall m :: 0 <= m < |c.modules| ==> excess'[m] == excess[m] + (if m in requested' - requested then 1 else 0)
      invariant last'.None? ==> last.None? && requested' == requested
      invariant Run(eval, charge, Scan(None, last, requested), offers[..j]) == Scan(None, last', requested')
    {
      assert offers[j] == (g, o[j]);
      RunNext(eval, charge, Scan(None, last, requested), offers, j);
      var taken;
      taken, excess', requested', last' := TryModule(c, row, spaces, excess', s, g, o[j], allow, pick, requested', last');
      if taken {
        row', spaces' := TakeBundle(c, row, spaces, Bundle(c, row, o[j]));
        RunCommitted(eval, charge, Scan(None, last, requested), offers, j);
        return Some(o[j]), row', spaces', excess', requested', last';
      }
    }
    k, row', spaces' := None, row, spaces;
    assert offers[..|o|] == offers;
  }

  /**
   * One student's turn in `run_assignment_round`: the groups in the order
   * `gord`, each group's modules in the order `mord[g]`, until a bundle is
   * committed.
   */
  method Serve(c: Config, row: seq<int>, spaces: seq<int>, excess: seq<int>, s: nat, allow: bool,
               gord: seq<nat>, mord: seq<seq<nat>>, pick: set<nat> -> nat, last: Option<Flags>)
    returns (ch: Option<(nat, nat)>, row': seq<int>, spaces': seq<int>, excess': seq<int>, last': Option<Flags>)
    requires ValidConfig(c) && s < |c.students|
    requires |row| == |c.modules| && |spaces| == |c.modules| && |excess| == |c.modules|
    requires forall j :: 0 <= j < |gord| ==> gord[j] < |c.groups|
    requires |mord| == |c.groups|
    requires forall g, j :: 0 <= g < |mord| && 0 <= j < |mord[g]| ==> Selected(c, InGroup(g), mord[g][j])
    requires forall b: set<nat> :: b != {} ==> pick(b) in b
    ensures |excess'| == |c.modules|
    ensures ch.None? ==> row' == row && spaces' == spaces
    ensures ch.Some? ==>
              && Committed(c, row, s, allow, ch.value)
              && HasSpace(spaces, Bundle(c, row, ch.value.1))
              && row' == Take(c, row, Bundle(c, row, ch.value.1))
              && spaces' == Release(spaces, Bundle(c, row, ch.value.1))
    ensures forall m :: 0 <= m < |c.modules| ==> excess[m] <= excess'[m] <= excess[m] + 1
    ensures last'.None? ==> last.None? && ch.None? && excess' == excess
    ensures var r := Run(EvalOf(c, row, spaces, s, allow), ChargeOf(c, row, pick), Scan(None, last, {}), Offered(gord, mord));
            ch == r.choice && last' == r.last && excess' == Charge(excess, r.requested)
  {
    ghost var eval, charge := EvalOf(c, row, spaces, s, allow), ChargeOf(c, row, pick);
    var requested: set<nat> := {};
    excess', last' := excess, last;
    assert excess == Charge(excess, {});
    for i := 0 to |gord|
      invariant forall m :: m in requested ==> m < |c.modules|
      invariant excess' == Charge(excess, requested)
      invariant last'.None? ==> last.None? && requested == {}
      invariant Run(eval, charge, Scan(None, last, {}), Offered(gord[..i], mord)) == Scan(None, last', requested)
    {
      var g := gord[i];
      OfferedStep(eval, charge, Scan(None, last, {}), gord, mord, i);
      var k, row1, spaces1, excess1, requested1, last1 := TryGroup(c, row, spaces, excess', s, g, mord[g], allow, pick, requested, last');
      ChargeMore(excess, excess1, requested, requested1);
      excess', requested, last' := excess1, requested1, last1;
      if k.Some? {
        ChargeBounds(excess, requested);
        return Some((g, k.value)), row1, spaces1, excess', last';
      }
    }
    ch, row', spaces' := None, row, spaces;
    assert gord[..|gord|] == gord;
    ChargeBounds(excess, requested);
  }

  /** The turn of student `order[i]`: served if short of the required credits, traced if it received nothing. */
  method Turn(c: Config, rows0: seq<seq<int>>, spaces0: seq<int>, excess0: seq<int>, allow: bool,
              order: seq<nat>, groupOrder: seq<seq<nat>>, moduleOrder: seq<seq<seq<nat>>>, pick: set<nat> -> nat,
              i: nat, rows: seq<seq<int>>, spaces: seq<int>, excess: seq<int>,
              ghost chosen: seq<Option<(nat, nat)>>, ghost who: seq<nat>, trace: seq<TraceEntry>, last: Option<Flags>)
    returns (failed: bool, rows': seq<seq<int>>, spaces': seq<int>, excess': seq<int>,
             ghost chosen': seq<Option<(nat, nat)>>, ghost who': seq<nat>, trace': seq<TraceEntry>, last': Option<Flags>)
    requires ValidConfig(c) && |rows0| == |c.students| && forall s :: 0 <= s < |rows0| ==> |rows0[s]| == |c.modules|
    requires |spaces0| == |c.modules| && |excess0| == |c.modules|
    requires Oracles(c, rows0, order, groupOrder, moduleOrder, pick) && i < |order|
    requires Progress(c, rows0, spaces0, excess0, allow, order, i, rows, spaces, excess, chosen, who, trace, last)
    ensures !failed ==> Progress(c, rows0, spaces0, excess0, allow, order, i + 1, rows', spaces', excess', chosen', who', trace', last')
    ensures failed ==> last.None? && order[i] < |c.students| && StudentTotal(c, rows[order[i]]) < c.required
    ensures Shapes(Inputs(c, rows0, allow, order, groupOrder, moduleOrder, pick))
    ensures var x, st := Inputs(c, rows0, allow, order, groupOrder, moduleOrder, pick), TurnState(spaces, excess, last, trace);
            && (!failed ==> TurnOk(x, i, st, TurnState(spaces', excess', last', trace')) && chosen' == chosen[order[i] := TurnChoice(x, i, st)])
            && (failed ==> Short(x, i) && TurnScan(x, i, st).last.None?)
  {
    ghost var x := Inputs(c, rows0, allow, order, groupOrder, moduleOrder, pick);
    OraclesShapes(x);
    var s := order[i];
    NotYetServed(order, i, chosen);
    if StudentTotal(c, rows[s]) >= c.required {
      SkipStep(c, rows0, spaces0, excess0, allow, order, i, rows, spaces, excess, chosen, who, trace, last);
      TurnSkipped(x, i, TurnState(spaces, excess, last, trace));
      assert chosen[s := None] == chosen;
      return false, rows, spaces, excess, chosen, who, trace, last;
    }
    failed, rows', spaces', excess', chosen', who', trace', last' :=
      ServeTurn(c, rows0, spaces0, excess0, allow, order, groupOrder, moduleOrder, pick, i, rows, spaces, excess, chosen, who, trace, last);
  }

  /** A turn of a student short of the required credits: `Serve`, then record the outcome. */
  method ServeTurn(c: Config, rows0: seq<seq<int>>, spaces0: seq<int>, excess0: seq<int>, allow: bool,
                   order: seq<nat>, groupOrder: seq<seq<nat>>, moduleOrder: seq<seq<seq<nat>>>, pick: set<nat> -> nat,
                   i: nat, rows: seq<seq<int>>, spaces: seq<int>, excess: seq<int>,
                   ghost chosen: seq<Option<(nat, nat)>>, ghost who: seq<nat>, trace: seq<TraceEntry>, last: Option<Flags>)
    returns (failed: bool, rows': seq<seq<int>>, spaces': seq<int>, excess': seq<int>,
             ghost chosen': seq<Option<(nat, nat)>>, ghost who': seq<nat>, trace': seq<TraceEntry>, last': Option<Flags>)
    requires ValidConfig(c) && |rows0| == |c.students| && forall s :: 0 <= s < |rows0| ==> |rows0[s]| == |c.modules|
    requires |spaces0| == |c.modules| && |excess0| == |c.modules|
    requires Oracles(c, rows0, order, groupOrder, moduleOrder, pick) && i < |order|
    requires Progress(c, rows0, spaces0, excess0, allow, order, i, rows, spaces, excess, chosen, who, trace, last)
    requires order[i] < |rows| && rows[order[i]] == rows0[order[i]] && chosen[order[i]].None?
    requires StudentTotal(c, rows[order[i]]) < c.required
    requires Shapes(Inputs(c, rows0, allow, order, groupOrder, moduleOrder, pick)) && Distinct(order)
    ensures !failed ==> Progress(c, rows0, spaces0, excess0, allow, order, i + 1, rows', spaces', excess', chosen', who', trace', last')
    ensures failed ==> last.None?
    ensures var x, st := Inputs(c, rows0, allow, order, groupOrder, moduleOrder, pick), TurnState(spaces, excess, last, trace);
            && (!failed ==> TurnOk(x, i, st, TurnState(spaces', excess', last', trace')) && chosen' == chosen[order[i] := TurnChoice(x, i, st)])
            && (failed ==> Short(x, i) && TurnScan(x, i, st).last.None?)
  {
    var s := order[i];
    var ch, row1, spaces1, excess1, last1, trace1 :=
      ScanTurn(c, rows0, allow, order, groupOrder, moduleOrder, pick, i, spaces, excess, trace, last);
    failed, rows', spaces', excess', chosen', who', trace', last' := false, rows, spaces1, excess1, chosen, who, trace1, last1;
    if last1.None? {
      return true, rows, spaces, excess, chosen, who, trace, last;
    }
    if ch.None? {
      TraceStep(c, rows0, spaces0, excess0, allow, order, i, rows, spaces, excess, chosen, who, trace, last, excess1, last1.value);
      who' := who + [s];
      assert chosen[s := None] == chosen;
    } else {
      CommitStep(c, rows0, spaces0, excess0, allow, order, i, rows, spaces, excess, chosen, who, trace, last,
                 excess1, last1.value, ch.value);
      chosen', rows' := chosen[s := ch], rows[s := row1];
    }
  }

  /**
   * The scan of one short student's turn, from the student's row at the
   * start of the round: `Serve`, and the trace entry when nothing was
   * committed but flags were computed.
   */
  method ScanTurn(c: Config, rows0: seq<seq<int>>, allow: bool,
                  order: seq<nat>, groupOrder: seq<seq<nat>>, moduleOrder: seq<seq<seq<nat>>>, pick: set<nat> -> nat,
                  i: nat, spaces: seq<int>, excess: seq<int>, trace: seq<TraceEntry>, last: Option<Flags>)
    returns (ch: Option<(nat, nat)>, row': seq<int>, spaces': seq<int>, excess': seq<int>, last': Option<Flags>, trace': seq<TraceEntry>)
    requires ValidConfig(c) && |rows0| == |c.students| && forall s :: 0 <= s < |rows0| ==> |rows0[s]| == |c.modules|
    requires Oracles(c, rows0, order, groupOrder, moduleOrder, pick) && i < |order|
    requires Shapes(Inputs(c, rows0, allow, order, groupOrder, moduleOrder, pick))
    requires |spaces| == |c.modules| && |excess| == |c.modules|
    requires StudentTotal(c, rows0[order[i]]) < c.required
    ensures var s, row := order[i], rows0[order[i]];
            && |excess'| == |c.modules|
            && (ch.None? ==> row' == row && spaces' == spaces)
            && (ch.Some? ==>
                  && Committed(c, row, s, allow, ch.value)
                  && HasSpace(spaces, Bundle(c, row, ch.value.1))
                  && row' == Take(c, row, Bundle(c, row, ch.value.1))
                  && spaces' == Release(spaces, Bundle(c, row, ch.value.1)))
            && (forall m :: 0 <= m < |c.modules| ==> excess[m] <= excess'[m] <= excess[m] + 1)
            && (last'.None? ==> last.None? && ch.None? && excess' == excess)
            && (ch.None? && last'.Some? ==> trace' == trace + [Entry(c.students[s].id, last'.value)])
    ensures var x, st := Inputs(c, rows0, allow, order, groupOrder, moduleOrder, pick), TurnState(spaces, excess, last, trace);
            && (last'.Some? ==> TurnOk(x, i, st, TurnState(spaces', excess', last', trace')) && ch == TurnChoice(x, i, st))
            && (last'.None? ==> Short(x, i) && TurnScan(x, i, st).last.None?)
  {
    ghost var x, st := Inputs(c, rows0, allow, order, groupOrder, moduleOrder, pick), TurnState(spaces, excess, last, trace);
    var s := order[i];
    ch, row', spaces', excess', last' := Serve(c, rows0[s], spaces, excess, s, allow, groupOrder[s], moduleOrder[s], pick, last);
    trace' := if ch.None? && last'.Some? then trace + [Entry(c.students[s].id, last'.value)] else trace;
    if last'.Some? {
      TurnServed(x, i, st, ch, spaces', excess', last', trace');
    }
  }

  /** The loop of `run_assignment_round` over the students, on the state's values. */
  method Round(c: Config, rows0: seq<seq<int>>, spaces0: seq<int>, excess0: seq<int>, allow: bool,
               order: seq<nat>, groupOrder: seq<seq<nat>>, moduleOrder: seq<seq<seq<nat>>>, pick: set<nat> -> nat)
    returns (r: Result<seq<TraceEntry>, string>, rows: seq<seq<int>>, spaces: seq<int>, excess: seq<int>,
             ghost chosen: seq<Option<(nat, nat)>>, ghost who: seq<nat>, ghost at: seq<TurnState>)
    requires ValidConfig(c) && |rows0| == |c.students| && forall s :: 0 <= s < |rows0| ==> |rows0[s]| == |c.modules|
    requires |spaces0| == |c.modules| && |excess0| == |c.modules|
    requires Oracles(c, rows0, order, groupOrder, moduleOrder, pick)
    ensures RoundDone(c, rows0, spaces0, excess0, rows, spaces, excess, allow, r, chosen, who)
    ensures Shapes(Inputs(c, rows0, allow, order, groupOrder, moduleOrder, pick))
    ensures RoundTurns(Inputs(c, rows0, allow, order, groupOrder, moduleOrder, pick), spaces0, excess0, r, spaces, excess, chosen, at)
  {
    ghost var x := Inputs(c, rows0, allow, order, groupOrder, moduleOrder, pick);
    OraclesShapes(x);
    rows, spaces, excess := rows0, spaces0, excess0;
    chosen := seq(|c.students|, s => None);
    who := [];
    var trace: seq<TraceEntry> := [];
    var last: Option<Flags> := None;
    at := [TurnState(spaces0, excess0, None, [])];
    StartProgress(c, rows0, spaces0, excess0, allow, order);
    ChainStart(x, spaces0, excess0);
    for i := 0 to |order|
      invariant Progress(c, rows0, spaces0, excess0, allow, order, i, rows, spaces, excess, chosen, who, trace, last)
      invariant |at| == i + 1 && at[0] == TurnState(spaces0, excess0, None, []) && at[i] == TurnState(spaces, excess, last, trace)
      invariant Chain(x, at, chosen)
    {
      var failed, rows1, spaces1, excess1, chosen1, who1, trace1, last1 :=
        Turn(c, rows0, spaces0, excess0, allow, order, groupOrder, moduleOrder, pick, i, rows, spaces, excess, chosen, who, trace, last);
      if failed {
        r := Failure("UnboundLocalError: modules_have_space_remaining");
        FailDone(c, rows0, spaces0, excess0, allow, order, i, rows, spaces, excess, chosen, who, trace, r.error);
        return;
      }
      ChainStep(x, at, chosen, TurnState(spaces1, excess1, last1, trace1));
      at := at + [TurnState(spaces1, excess1, last1, trace1)];
      rows, spaces, excess, chosen, who, trace, last := rows1, spaces1, excess1, chosen1, who1, trace1, last1;
    }
    FinishDone(c, rows0, spaces0, excess0, allow, order, rows, spaces, excess, chosen, who, trace, last);
    r := Success(trace);
  }

  class ModuleAssigner {
    const cfg: Config
    /** `_student_assigned_credits`: one row per student, one cell per module. */
    var credits: seq<seq<int>>
    /** `available_spaces` of the assigner's own copies of the modules. */
    var spaces: seq<int>
    /** `_module_spaces_excess_requests`, per module. */
    var excess: seq<int>

    predicate Valid()
      reads this
    {
      && ValidConfig(cfg)
      && |credits| == |cfg.students| && |spaces| == |cfg.modules| && |excess| == |cfg.modules|
      && forall s :: 0 <= s < |credits| ==> CellsOk(cfg, credits[s])
    }

    /** `__init__`: no credits assigned, each module's spaces as loaded, no excess requests. */
    constructor (c: Config)
      requires ValidConfig(c)
      ensures Valid() && cfg == c
      ensures credits == seq(|c.students|, s => Zeros(|c.modules|))
      ensures |spaces| == |c.modules| && forall m :: 0 <= m < |c.modules| ==> spaces[m] == c.modules[m].available
      ensures excess == Zeros(|c.modules|)
    {
      cfg := c;
      credits := seq(|c.students|, s => Zeros(|c.modules|));
      spaces := seq(|c.modules|, m requires 0 <= m < |c.modules| => c.modules[m].available);
      excess := Zeros(|c.modules|);
    }

    /**
     * `run_assignment_round`: each student of the permutation `order` who is
     * short of the required credits is served once; those who receive nothing
     * are listed in the trace with the flags last computed in the round.
     */
    method RunAssignmentRound(allow: bool, order: seq<nat>, groupOrder: seq<seq<nat>>, moduleOrder: seq<seq<seq<nat>>>,
                              pick: set<nat> -> nat)
      returns (r: Result<seq<TraceEntry>, string>, ghost chosen: seq<Option<(nat, nat)>>, ghost who: seq<nat>,
               ghost at: seq<TurnState>)
      requires Valid()
      requires Oracles(cfg, credits, order, groupOrder, moduleOrder, pick)
      modifies this
      ensures Valid()
      ensures RoundDone(cfg, old(credits), old(spaces), old(excess), credits, spaces, excess, allow, r, chosen, who)
      ensures Shapes(Inputs(cfg, old(credits), allow, order, groupOrder, moduleOrder, pick))
      ensures RoundTurns(Inputs(cfg, old(credits), allow, order, groupOrder, moduleOrder, pick), old(spaces), old(excess),
                     r, spaces, excess, chosen, at)
    {
      var rows, left, counts;
      r, rows, left, counts, chosen, who, at := Round(cfg, credits, spaces, excess, allow, order, groupOrder, moduleOrder, pick);
      RoundKeepsCells(cfg, credits, rows, allow, chosen);
      credits, spaces, excess := rows, left, counts;
    }

    /**
     * `set_loaded_module_assignments`: seeds the credit rows from a table of
     * earlier assignments; spaces and excess requests are left as they are.
     */
    method SetLoadedModuleAssignments(t: Table) returns (r: Result<(), string>)
      requires Valid() && WellFormed(t)
      modifies this
      ensures Valid()
      ensures r.Failure? <==> LoadFails(cfg, t)
      ensures credits == if r.Success? then Loaded(cfg, t, old(credits)) else old(credits)
      ensures spaces == old(spaces) && excess == old(excess)
    {
      var rows := LoadRows(cfg, t, credits);
      if rows.Failure? {
        return Failure(rows.error);
      }
      forall s | 0 <= s < |cfg.students| ensures CellsOk(cfg, rows.value[s]) {
        LoadedCellsOk(cfg, t, credits, s);
      }
      credits := rows.value;
      return Success(());
    }
  }
}
