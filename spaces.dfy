/**
 * `check_sufficient_module_spaces` in `app/data_loading.py`: for each module
 * group, the spaces the students ask for against the spaces its modules offer.
 */
module Spaces {
  import opened Wrappers
  import opened Sequences
  import opened Validation
  import opened ModuleLoading

  /**
   * What a column sum returns: a number, or, for a column of text only, the
   * texts joined in row order.
   */
  datatype Total = Num(n: int) | Text(s: string)

  /** The first `n` cells of a column hold text and something other than text. */
  predicate Mixed(t: Table, column: string, n: nat)
    requires WellFormed(t) && column in t.columns && n <= |t.rows|
  {
    (exists i :: 0 <= i < n && At(t, i, column).Str?) && exists i :: 0 <= i < n && !At(t, i, column).Str?
  }

  /**
   * `t[column][:n].sum()`: pandas puts 0 in place of the NA cells and adds
   * the cells up from the first: numbers add, texts join, and a number and a
   * text cannot be added.
   */
  function ColumnSum(t: Table, column: string, n: nat): (r: Result<Total, string>)
    requires WellFormed(t) && column in t.columns && n <= |t.rows|
    ensures r.Failure? <==> Mixed(t, column, n)
    ensures r.Success? ==> (r.value.Text? <==> exists i :: 0 <= i < n && At(t, i, column).Str?)
  {
    if n == 0 then Success(Num(0))
    else
      var prefix := ColumnSum(t, column, n - 1);
      var c := At(t, n - 1, column);
      var v := if c.Number? then c.n else 0;
      if prefix.Failure? then prefix
      else if n == 1 then Success(if c.Str? then Text(c.s) else Num(v))
      else
        match prefix.value
        case Num(total) =>
          if c.Str? then Failure("TypeError: unsupported operand type(s) for +: 'int' and 'str'") else Success(Num(total + v))
        case Text(text) =>
          if c.Str? then Success(Text(text + c.s)) else Failure("TypeError: can only concatenate str (not \"int\") to str")
  }

  /** `module_group_preference_data[group].sum()`: a group with no column raises a KeyError. */
  function Requested(t: Table, group: string): (r: Result<Total, string>)
    requires WellFormed(t)
    ensures r.Failure? <==> group !in t.columns || Mixed(t, group, |t.rows|)
  {
    if group !in t.columns then Failure("KeyError: " + group)
    else ColumnSum(t, group, |t.rows|)
  }

  /** When every student asks for a non-negative number of spaces in a group, the request is non-negative. */
  lemma {:induction false} ColumnSumNonNegative(t: Table, column: string, n: nat)
    requires WellFormed(t) && column in t.columns && n <= |t.rows|
    requires forall i :: 0 <= i < n ==> At(t, i, column).Number? ==> At(t, i, column).n >= 0
    ensures ColumnSum(t, column, n).Success? && ColumnSum(t, column, n).value.Num? ==> ColumnSum(t, column, n).value.n >= 0
  {
    if n > 0 {
      ColumnSumNonNegative(t, column, n - 1);
    }
  }

  /** The joined text of a column of text has every cell's text, in row order. */
  lemma {:induction false} ColumnSumText(t: Table, column: string, n: nat)
    requires WellFormed(t) && column in t.columns && n <= |t.rows|
    requires forall i :: 0 <= i < n ==> At(t, i, column).Str?
    ensures ColumnSum(t, column, n).Success?
    ensures n > 0 ==> ColumnSum(t, column, n).value == Text(Joined(t, column, n))
  {
    if n > 1 {
      ColumnSumText(t, column, n - 1);
    }
  }

  /** The texts of the first `n` cells of a column of text, one after the other. */
  function Joined(t: Table, column: string, n: nat): (s: string)
    requires WellFormed(t) && column in t.columns && n <= |t.rows|
    requires forall i :: 0 <= i < n ==> At(t, i, column).Str?
    ensures n > 0 ==> At(t, 0, column).s <= s && |At(t, n - 1, column).s| <= |s|
  {
    if n == 0 then [] else Joined(t, column, n - 1) + At(t, n - 1, column).s
  }

  /** The capacity of the group's modules: `module_metadata[module_metadata.module_group == group].capacity.sum()`. */
  function Capacity(rows: seq<ModuleRow>, group: string): int
  {
    if |rows| == 0 then 0
    else
      var n := |rows| - 1;
      Capacity(rows[..n], group) + (if rows[n].group == group then rows[n].capacity else 0)
  }

  /** The capacity of every module. */
  function TotalCapacity(rows: seq<ModuleRow>): int
  {
    if |rows| == 0 then 0 else TotalCapacity(rows[..|rows| - 1]) + rows[|rows| - 1].capacity
  }

  /** The capacities of several groups added up. */
  function CapacityOf(rows: seq<ModuleRow>, groups: seq<string>): int
  {
    if |groups| == 0 then 0
    else CapacityOf(rows, groups[..|groups| - 1]) + Capacity(rows, groups[|groups| - 1])
  }

  /** One result: the group, the spaces requested and the spaces available. */
  datatype SpaceCheck = SpaceCheck(group: string, requested: Total, available: int)

  /**
   * `check_sufficient_module_spaces`: one result per distinct group of the
   * module table, in order of first appearance; it fails on the first group
   * whose requests cannot be summed.
   */
  method CheckSufficientModuleSpaces(rows: seq<ModuleRow>, prefs: Table) returns (r: Result<seq<SpaceCheck>, string>)
    requires WellFormed(prefs)
    ensures var groups := Unique(GroupColumn(rows));
      r.Failure? <==> exists k :: 0 <= k < |groups| && Requested(prefs, groups[k]).Failure?
    ensures var groups := Unique(GroupColumn(rows));
      r.Success? ==> |r.value| == |groups| && forall k :: 0 <= k < |groups| ==>
                       r.value[k] == SpaceCheck(groups[k], Requested(prefs, groups[k]).value, Capacity(rows, groups[k]))
  {
    var groups := Unique(GroupColumn(rows));
    var results: seq<SpaceCheck> := [];
    for k := 0 to |groups|
      invariant |results| == k
      invariant forall j :: 0 <= j < k ==>
        (Requested(prefs, groups[j]).Success? &&
         results[j] == SpaceCheck(groups[j], Requested(prefs, groups[j]).value, Capacity(rows, groups[j])))
    {
      var requested := Requested(prefs, groups[k]);
      if requested.Failure? {
        r := Failure(requested.error);
        assert var gs := Unique(GroupColumn(rows)); 0 <= k < |gs| && Requested(prefs, gs[k]).Failure?;
        return;
      }
      results := results + [SpaceCheck(groups[k], requested.value, Capacity(rows, groups[k]))];
    }
    return Success(results);
  }

  /** A group no module belongs to offers nothing. */
  lemma {:induction false} CapacityAbsent(rows: seq<ModuleRow>, group: string)
    requires group !in GroupColumn(rows)
    ensures Capacity(rows, group) == 0
  {
    if |rows| > 0 {
      var n := |rows| - 1;
      RowsSnoc(rows[..n], rows[n]);
      assert rows[..n] + [rows[n]] == rows;
      CapacityAbsent(rows[..n], group);
    }
  }

  /** One more module adds its capacity to the one group it belongs to. */
  lemma {:induction false} CapacityOfSnoc(rows: seq<ModuleRow>, r: ModuleRow, groups: seq<string>)
    requires Distinct(groups)
    ensures CapacityOf(rows + [r], groups) == CapacityOf(rows, groups) + (if r.group in groups then r.capacity else 0)
  {
    assert (rows + [r])[..|rows|] == rows;
    if |groups| > 0 {
      var n := |groups| - 1;
      assert groups == groups[..n] + [groups[n]];
      assert r.group in groups <==> r.group in groups[..n] || r.group == groups[n];
      assert groups[n] !in groups[..n];
      CapacityOfSnoc(rows, r, groups[..n]);
    }
  }

  /** The results split the capacity of the module table exactly: every module is counted in one group. */
  lemma {:induction false} CapacityPartition(rows: seq<ModuleRow>)
    ensures CapacityOf(rows, Unique(GroupColumn(rows))) == TotalCapacity(rows)
  {
    if |rows| > 0 {
      var n := |rows| - 1;
      CapacityPartition(rows[..n]);
      CapacityPartitionStep(rows[..n], rows[n]);
      assert rows == rows[..n] + [rows[n]];
    }
  }

  /** One more module keeps the split exact, whether it opens a new group or joins a known one. */
  lemma CapacityPartitionStep(p: seq<ModuleRow>, r: ModuleRow)
    requires CapacityOf(p, Unique(GroupColumn(p))) == TotalCapacity(p)
    ensures CapacityOf(p + [r], Unique(GroupColumn(p + [r]))) == TotalCapacity(p + [r])
  {
    var u' := Unique(GroupColumn(p) + [r.group]);
    assert GroupColumn(p + [r]) == GroupColumn(p) + [r.group] by { RowsSnoc(p, r); }
    assert r.group in u';
    assert CapacityOf(p + [r], u') == CapacityOf(p, u') + r.capacity by { CapacityOfSnoc(p, r, u'); }
    assert CapacityOf(p, u') == CapacityOf(p, Unique(GroupColumn(p))) by { CapacitySameGroups(p, r.group); }
    assert TotalCapacity(p + [r]) == TotalCapacity(p) + r.capacity by {
      assert (p + [r])[..|p|] == p;
    }
  }

  /** Listing one more group, new or known, does not change the capacity of the modules so far. */
  lemma CapacitySameGroups(p: seq<ModuleRow>, group: string)
    ensures CapacityOf(p, Unique(GroupColumn(p) + [group])) == CapacityOf(p, Unique(GroupColumn(p)))
  {
    var u := Unique(GroupColumn(p));
    UniqueSnoc(GroupColumn(p), group);
    if group !in GroupColumn(p) {
      assert (u + [group])[..|u|] == u;
      CapacityAbsent(p, group);
    }
  }
}
