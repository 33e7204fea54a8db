/**
 * One student's turn in `run_assignment_round` (`app/algorithm.py`) as a
 * scan over the offers it makes: the groups in the student's argsort of
 * deficits, each group's modules in the student's argsort of ranks. The scan
 * evaluates each non-empty bundle, charges an excess request to the leftover
 * member of a bundle without space, and stops at the first bundle that
 * passes every check.
 *
 * The scan is stated over two functions: `eval`, the flags of an offer's
 * bundle (`None` when the bundle is empty and the offer is skipped), and
 * `charge`, the module an offer without space charges. `EvalOf` and
 * `ChargeOf` are the two the round uses.
 */
module Offers {
  import opened Wrappers
  import opened Engine

  /** An offer: a group and one of its modules. */
  type Offer = (nat, nat)

  /** Where a turn's scan stands: the offer committed, the flags last computed, the modules charged an excess request. */
  datatype Scan = Scan(choice: Option<Offer>, last: Option<Flags>, requested: set<nat>)

  /** The offers of group `g`, its modules in the order `o`. */
  function GroupOffers(g: nat, o: seq<nat>): (r: seq<Offer>)
    ensures |r| == |o| && forall j :: 0 <= j < |o| ==> r[j] == (g, o[j])
  {
    seq(|o|, j requires 0 <= j < |o| => (g, o[j]))
  }

  /** The offers of a turn: the groups in the order `gord`, each group `g`'s modules in the order `mord[g]`. */
  function Offered(gord: seq<nat>, mord: seq<seq<nat>>): seq<Offer>
  {
    if |gord| == 0 then []
    else
      var g := gord[|gord| - 1];
      Offered(gord[..|gord| - 1], mord) + GroupOffers(g, if g < |mord| then mord[g] else [])
  }

  /** The offers of the first `i` groups come first among a turn's offers. */
  lemma {:induction false} OfferedPrefix(gord: seq<nat>, mord: seq<seq<nat>>, i: nat)
    requires i <= |gord|
    ensures Offered(gord[..i], mord) <= Offered(gord, mord)
    decreases |gord|
  {
    if i < |gord| {
      var n := |gord| - 1;
      assert gord[..n][..i] == gord[..i];
      OfferedPrefix(gord[..n], mord, i);
      var g := gord[n];
      var p, q := Offered(gord[..n], mord), GroupOffers(g, if g < |mord| then mord[g] else []);
      assert Offered(gord, mord) == p + q;
      assert p <= p + q;
    } else {
      assert gord[..i] == gord;
    }
  }

  /** The offers of the first `i + 1` groups: those of the first `i`, then group `gord[i]`'s. */
  lemma OfferedNext(gord: seq<nat>, mord: seq<seq<nat>>, i: nat)
    requires i < |gord|
    ensures Offered(gord[..i + 1], mord) == Offered(gord[..i], mord) + GroupOffers(gord[i], if gord[i] < |mord| then mord[gord[i]] else [])
  {
    assert gord[..i + 1][..i] == gord[..i];
  }

  /** Every offer is a module of the group it is offered from. */
  predicate OffersOk(c: Config, offers: seq<Offer>)
  {
    forall j :: 0 <= j < |offers| ==> Selected(c, InGroup(offers[j].0), offers[j].1)
  }

  lemma {:induction false} OfferedOk(c: Config, gord: seq<nat>, mord: seq<seq<nat>>)
    requires forall j :: 0 <= j < |gord| ==> gord[j] < |c.groups|
    requires forall g, j :: 0 <= g < |mord| && 0 <= j < |mord[g]| ==> Selected(c, InGroup(g), mord[g][j])
    ensures OffersOk(c, Offered(gord, mord))
  {
    if |gord| > 0 {
      var n := |gord| - 1;
      OfferedOk(c, gord[..n], mord);
      var g := gord[n];
      var p: seq<Offer> := Offered(gord[..n], mord);
      var q := GroupOffers(g, if g < |mord| then mord[g] else []);
      var pq := p + q;
      forall j | 0 <= j < |pq|
        ensures Selected(c, InGroup(pq[j].0), pq[j].1)
      {
        if j >= |p| {
          assert pq[j] == q[j - |p|];
        }
      }
    }
  }

  /**
   * What the round learns of an offer: `None` when its bundle is empty (the
   * module and its prerequisites are all held), otherwise the seven flags of
   * `Evaluate` on the bundle.
   */
  function EvalOf(c: Config, row: seq<int>, spaces: seq<int>, s: nat, allow: bool): Offer -> Option<Flags>
    requires ValidConfig(c) && s < |c.students| && |row| == |c.modules|
  {
    (gk: Offer) => if gk.1 < |c.modules| && Bundle(c, row, gk.1) != {}
                   then Some(Evaluate(c, row, spaces, s, gk.0, Bundle(c, row, gk.1), allow))
                   else None
  }

  /**
   * An offer is evaluated exactly when its bundle is non-empty, and then
   * passes exactly when the bundle has space and is admissible.
   */
  lemma EvalOfMeaning(c: Config, row: seq<int>, spaces: seq<int>, s: nat, allow: bool, gk: Offer)
    requires ValidConfig(c) && s < |c.students| && |row| == |c.modules|
    ensures var e := EvalOf(c, row, spaces, s, allow)(gk);
            && (e.Some? <==> gk.1 < |c.modules| && Bundle(c, row, gk.1) != {})
            && (e.Some? ==> e.value == Evaluate(c, row, spaces, s, gk.0, Bundle(c, row, gk.1), allow))
            && (e.Some? ==> e.value.spaceRemaining == HasSpace(spaces, Bundle(c, row, gk.1)))
            && (e.Some? ==> (AllPass(e.value) <==> HasSpace(spaces, Bundle(c, row, gk.1)) && Admissible(c, row, s, gk.0, Bundle(c, row, gk.1), allow)))
  {
  }

  /** The module an offer without space charges: the leftover element `pick` chooses from its bundle. */
  function ChargeOf(c: Config, row: seq<int>, pick: set<nat> -> nat): Offer -> nat
  {
    (gk: Offer) => pick(BundleAt(c, row, gk.1))
  }

  /** The bundle of module `k`, empty for a module the catalogue does not have. */
  function BundleAt(c: Config, row: seq<int>, k: nat): set<nat>
  {
    if ValidConfig(c) && k < |c.modules| then Bundle(c, row, k) else {}
  }

  /** The module an offer charges is a member of its bundle. */
  lemma ChargeOfMeaning(c: Config, row: seq<int>, pick: set<nat> -> nat, gk: Offer)
    requires ValidConfig(c)
    requires forall b: set<nat> :: b != {} ==> pick(b) in b
    requires gk.1 < |c.modules| && Bundle(c, row, gk.1) != {}
    ensures ChargeOf(c, row, pick)(gk) in Bundle(c, row, gk.1)
  {
    assert BundleAt(c, row, gk.1) == Bundle(c, row, gk.1);
  }

  /** Offer `gk`'s bundle is evaluated and passes every check. */
  predicate Passes(eval: Offer -> Option<Flags>, gk: Offer)
  {
    eval(gk).Some? && AllPass(eval(gk).value)
  }

  /** No offer passes. */
  predicate NonePasses(eval: Offer -> Option<Flags>, offers: seq<Offer>)
  {
    forall j :: 0 <= j < |offers| ==> !Passes(eval, offers[j])
  }

  /** Offer `gk`'s bundle is evaluated, lacks space, and charges `m`. */
  predicate ChargesTo(eval: Offer -> Option<Flags>, charge: Offer -> nat, gk: Offer, m: nat)
  {
    eval(gk).Some? && !eval(gk).value.spaceRemaining && charge(gk) == m
  }

  /**
   * One offer: nothing once a bundle is committed or when the bundle is
   * empty; otherwise the flags are recorded, the leftover member charged when
   * the bundle lacks space, and the offer committed when it passes.
   */
  function Step(eval: Offer -> Option<Flags>, charge: Offer -> nat, st: Scan, gk: Offer): Scan
  {
    if st.choice.Some? || eval(gk).None? then st
    else
      var f := eval(gk).value;
      Scan(if AllPass(f) then Some(gk) else None, Some(f),
           if f.spaceRemaining then st.requested else st.requested + {charge(gk)})
  }

  /** The scan over `offers` from the state `st`. */
  function Run(eval: Offer -> Option<Flags>, charge: Offer -> nat, st: Scan, offers: seq<Offer>): (r: Scan)
    ensures r.choice == st.choice || (r.choice.Some? && r.choice.value in offers)
  {
    if |offers| == 0 then st
    else Step(eval, charge, Run(eval, charge, st, offers[..|offers| - 1]), offers[|offers| - 1])
  }

  /** Once a bundle is committed, further offers change nothing. */
  lemma {:induction false} RunStays(eval: Offer -> Option<Flags>, charge: Offer -> nat, st: Scan, offers: seq<Offer>)
    requires st.choice.Some?
    ensures Run(eval, charge, st, offers) == st
  {
    if |offers| > 0 {
      RunStays(eval, charge, st, offers[..|offers| - 1]);
    }
  }

  /** Scanning two runs of offers one after the other is scanning them joined. */
  lemma {:induction false} RunAppend(eval: Offer -> Option<Flags>, charge: Offer -> nat, st: Scan,
                                     a: seq<Offer>, b: seq<Offer>)
    ensures Run(eval, charge, st, a + b) == Run(eval, charge, Run(eval, charge, st, a), b)
    decreases |b|
  {
    if |b| == 0 {
      assert a + b == a;
    } else {
      var n := |b| - 1;
      assert (a + b)[..|a + b| - 1] == a + b[..n];
      assert (a + b)[|a + b| - 1] == b[n];
      RunAppend(eval, charge, st, a, b[..n]);
    }
  }

  /** Scanning one more offer of a sequence is one more step. */
  lemma RunNext(eval: Offer -> Option<Flags>, charge: Offer -> nat, st: Scan, offers: seq<Offer>, j: nat)
    requires j < |offers|
    ensures Run(eval, charge, st, offers[..j + 1]) == Step(eval, charge, Run(eval, charge, st, offers[..j]), offers[j])
  {
    assert offers[..j + 1][..j] == offers[..j];
  }

  /** Once the offer at `j` is committed, the scan of the whole sequence ends where the scan up to `j` did. */
  lemma RunCommitted(eval: Offer -> Option<Flags>, charge: Offer -> nat, st: Scan, offers: seq<Offer>, j: nat)
    requires j < |offers| && Run(eval, charge, st, offers[..j + 1]).choice.Some?
    ensures Run(eval, charge, st, offers) == Run(eval, charge, st, offers[..j + 1])
  {
    assert offers == offers[..j + 1] + offers[j + 1..];
    RunAppend(eval, charge, st, offers[..j + 1], offers[j + 1..]);
    RunStays(eval, charge, Run(eval, charge, st, offers[..j + 1]), offers[j + 1..]);
  }

  /** Once a prefix of the offers commits one, the scan of them all ends where the prefix's did. */
  lemma RunPrefixCommitted(eval: Offer -> Option<Flags>, charge: Offer -> nat, st: Scan, p: seq<Offer>, offers: seq<Offer>)
    requires p <= offers && Run(eval, charge, st, p).choice.Some?
    ensures Run(eval, charge, st, offers) == Run(eval, charge, st, p)
  {
    assert offers == p + offers[|p|..];
    RunAppend(eval, charge, st, p, offers[|p|..]);
    RunStays(eval, charge, Run(eval, charge, st, p), offers[|p|..]);
  }

  /**
   * One more group of a turn: the scan of the first `i + 1` groups' offers
   * continues the scan of the first `i` over group `gord[i]`'s, and once it
   * commits an offer, the scan of all the turn's offers ends there.
   */
  lemma {:induction false} OfferedStep(eval: Offer -> Option<Flags>, charge: Offer -> nat, st: Scan,
                                       gord: seq<nat>, mord: seq<seq<nat>>, i: nat)
    requires i < |gord| && gord[i] < |mord|
    ensures var next := Run(eval, charge, Run(eval, charge, st, Offered(gord[..i], mord)), GroupOffers(gord[i], mord[gord[i]]));
            && Run(eval, charge, st, Offered(gord[..i + 1], mord)) == next
            && (next.choice.Some? ==> Run(eval, charge, st, Offered(gord, mord)) == next)
  {
    OfferedNext(gord, mord, i);
    RunAppend(eval, charge, st, Offered(gord[..i], mord), GroupOffers(gord[i], mord[gord[i]]));
    var next := Run(eval, charge, st, Offered(gord[..i + 1], mord));
    if next.choice.Some? {
      OfferedPrefix(gord, mord, i + 1);
      RunPrefixCommitted(eval, charge, st, Offered(gord[..i + 1], mord), Offered(gord, mord));
    }
  }

  /** One step of the round's scan at the offer of module `k` from group `g`. */
  lemma StepAt(c: Config, row: seq<int>, spaces: seq<int>, s: nat, allow: bool, pick: set<nat> -> nat,
               last: Option<Flags>, requested: set<nat>, g: nat, k: nat)
    requires ValidConfig(c) && s < |c.students| && |row| == |c.modules| && k < |c.modules|
    requires forall b: set<nat> :: b != {} ==> pick(b) in b
    ensures var b := Bundle(c, row, k);
            var f := Evaluate(c, row, spaces, s, g, b, allow);
            Step(EvalOf(c, row, spaces, s, allow), ChargeOf(c, row, pick), Scan(None, last, requested), (g, k))
            == if b == {} then Scan(None, last, requested)
               else Scan(if AllPass(f) then Some((g, k)) else None, Some(f),
                         if f.spaceRemaining then requested else requested + {pick(b)})
  {
    var b := Bundle(c, row, k);
    var e := EvalOf(c, row, spaces, s, allow)((g, k));
    assert e == if b == {} then None else Some(Evaluate(c, row, spaces, s, g, b, allow));
    assert BundleAt(c, row, k) == b;
    assert ChargeOf(c, row, pick)((g, k)) == pick(b);
  }

  /** The scan commits nothing exactly when no offer passes. */
  lemma {:induction false} RunNone(eval: Offer -> Option<Flags>, charge: Offer -> nat, st: Scan, offers: seq<Offer>)
    requires st.choice.None?
    ensures Run(eval, charge, st, offers).choice.None? <==> NonePasses(eval, offers)
  {
    if |offers| > 0 {
      var n := |offers| - 1;
      var p := offers[..n];
      RunNone(eval, charge, st, p);
      var q := Run(eval, charge, st, p);
      if q.choice.Some? {
        var j :| 0 <= j < n && Passes(eval, p[j]);
        assert Passes(eval, offers[j]);
      } else if !Passes(eval, offers[n]) {
        forall j | 0 <= j < |offers| ensures !Passes(eval, offers[j]) {
          if j < n {
            assert offers[j] == p[j];
          }
        }
      }
    }
  }

  /** The scan commits the first offer that passes. */
  lemma {:induction false} RunFirst(eval: Offer -> Option<Flags>, charge: Offer -> nat, st: Scan, offers: seq<Offer>)
    requires st.choice.None?
    ensures var r := Run(eval, charge, st, offers);
            r.choice.Some? ==>
              exists j :: 0 <= j < |offers| && offers[j] == r.choice.value && Passes(eval, offers[j])
                          && NonePasses(eval, offers[..j])
  {
    if |offers| > 0 {
      var n := |offers| - 1;
      var p := offers[..n];
      var q := Run(eval, charge, st, p);
      if q.choice.None? {
        if Passes(eval, offers[n]) {
          RunNone(eval, charge, st, p);
          assert offers[..n] == p;
        }
      } else {
        RunFirst(eval, charge, st, p);
        var j :| 0 <= j < n && p[j] == q.choice.value && Passes(eval, p[j]) && NonePasses(eval, p[..j]);
        assert offers[j] == p[j] && offers[..j] == p[..j];
      }
    }
  }

  /** The scan charges a module only as the charge of an evaluated offer without space reached before any offer passes. */
  lemma {:induction false} RunChargedSound(eval: Offer -> Option<Flags>, charge: Offer -> nat, st: Scan,
                                           offers: seq<Offer>, m: nat)
    requires st.choice.None?
    ensures var r := Run(eval, charge, st, offers);
            && st.requested <= r.requested
            && (m in r.requested - st.requested ==>
                  exists j :: 0 <= j < |offers| && ChargesTo(eval, charge, offers[j], m) && NonePasses(eval, offers[..j]))
  {
    if |offers| > 0 {
      var n := |offers| - 1;
      var p := offers[..n];
      var q := Run(eval, charge, st, p);
      var r := Run(eval, charge, st, offers);
      RunChargedSound(eval, charge, st, p, m);
      if m in r.requested - st.requested {
        if m in q.requested {
          var j :| 0 <= j < n && ChargesTo(eval, charge, p[j], m) && NonePasses(eval, p[..j]);
          assert offers[j] == p[j] && offers[..j] == p[..j];
        } else {
          assert q.choice.None?;
          RunNone(eval, charge, st, p);
          assert ChargesTo(eval, charge, offers[n], m) && offers[..n] == p;
        }
      }
    }
  }

  /** Every offer without space that the scan reaches before any offer passes is charged. */
  lemma {:induction false} RunChargedComplete(eval: Offer -> Option<Flags>, charge: Offer -> nat, st: Scan,
                                              offers: seq<Offer>, j: nat, m: nat)
    requires st.choice.None?
    requires j < |offers| && ChargesTo(eval, charge, offers[j], m) && NonePasses(eval, offers[..j])
    ensures m in Run(eval, charge, st, offers).requested
  {
    var n := |offers| - 1;
    var p := offers[..n];
    var q := Run(eval, charge, st, p);
    if j < n {
      assert p[j] == offers[j] && p[..j] == offers[..j];
      RunChargedComplete(eval, charge, st, p, j, m);
    } else {
      RunNone(eval, charge, st, p);
      assert p == offers[..j];
    }
  }

  /** When an offer is committed, the flags the scan leaves are that offer's. */
  lemma {:induction false} RunLastChosen(eval: Offer -> Option<Flags>, charge: Offer -> nat, st: Scan, offers: seq<Offer>)
    requires st.choice.None?
    ensures var r := Run(eval, charge, st, offers);
            r.choice.Some? ==> r.last == eval(r.choice.value)
  {
    if |offers| > 0 {
      var n := |offers| - 1;
      var q := Run(eval, charge, st, offers[..n]);
      if q.choice.Some? {
        RunLastChosen(eval, charge, st, offers[..n]);
      }
    }
  }

  /** No offer is evaluated: the scan leaves its state as it was. */
  lemma {:induction false} RunUntouched(eval: Offer -> Option<Flags>, charge: Offer -> nat, st: Scan, offers: seq<Offer>)
    requires forall j :: 0 <= j < |offers| ==> eval(offers[j]).None?
    ensures Run(eval, charge, st, offers) == st
  {
    if |offers| > 0 {
      var n := |offers| - 1;
      RunUntouched(eval, charge, st, offers[..n]);
    }
  }

  /** With nothing committed, the flags the scan leaves are those of the last offer it evaluated. */
  lemma {:induction false} RunLastEvaluated(eval: Offer -> Option<Flags>, charge: Offer -> nat, st: Scan,
                                            offers: seq<Offer>, j: nat)
    requires st.choice.None?
    requires j < |offers| && eval(offers[j]).Some?
    requires forall i :: j < i < |offers| ==> eval(offers[i]).None?
    ensures var r := Run(eval, charge, st, offers);
            r.choice.None? ==> r.last == eval(offers[j])
  {
    var n := |offers| - 1;
    var p := offers[..n];
    if j < n {
      assert p[j] == offers[j];
      forall i | j < i < n ensures eval(p[i]).None? {
        assert p[i] == offers[i];
      }
      RunLastEvaluated(eval, charge, st, p, j);
    }
  }

  /** The scan records flags exactly when it started with some or evaluates an offer. */
  lemma {:induction false} RunLastSome(eval: Offer -> Option<Flags>, charge: Offer -> nat, st: Scan, offers: seq<Offer>)
    requires st.choice.None?
    ensures Run(eval, charge, st, offers).last.Some? <==> st.last.Some? || exists j :: 0 <= j < |offers| && eval(offers[j]).Some?
  {
    if |offers| > 0 {
      var n := |offers| - 1;
      var p := offers[..n];
      RunLastSome(eval, charge, st, p);
      var q := Run(eval, charge, st, p);
      if q.choice.Some? {
        RunFirst(eval, charge, st, p);
        var j :| 0 <= j < n && p[j] == q.choice.value && Passes(eval, p[j]) && NonePasses(eval, p[..j]);
        assert offers[j] == p[j];
      } else {
        forall i | 0 <= i < n ensures offers[i] == p[i] {}
      }
    }
  }

  /** The excess counters after a turn: one more request for each module charged. */
  function Charge(excess: seq<int>, requested: set<nat>): (r: seq<int>)
    ensures |r| == |excess|
    ensures forall m :: 0 <= m < |excess| ==> r[m] == excess[m] + if m in requested then 1 else 0
  {
    seq(|excess|, m requires 0 <= m < |excess| => excess[m] + if m in requested then 1 else 0)
  }

  /** Counters that grew by one exactly at the charged modules are `Charge`'s. */
  lemma ChargeIs(excess: seq<int>, excess': seq<int>, requested: set<nat>)
    requires |excess'| == |excess|
    requires forall m :: 0 <= m < |excess| ==> excess'[m] == excess[m] + (if m in requested then 1 else 0)
    ensures excess' == Charge(excess, requested)
  {
  }

  /** Each counter grows by at most one in a turn. */
  lemma ChargeBounds(excess: seq<int>, requested: set<nat>)
    ensures forall m :: 0 <= m < |excess| ==> excess[m] <= Charge(excess, requested)[m] <= excess[m] + 1
  {
  }

  /** Charging `requested` and then the modules of `requested'` not yet charged is charging `requested'`. */
  lemma ChargeMore(excess: seq<int>, excess': seq<int>, requested: set<nat>, requested': set<nat>)
    requires requested <= requested' && |excess'| == |excess|
    requires forall m :: 0 <= m < |excess| ==> excess'[m] == Charge(excess, requested)[m] + (if m in requested' - requested then 1 else 0)
    ensures excess' == Charge(excess, requested')
  {
  }
}
