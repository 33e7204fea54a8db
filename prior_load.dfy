/**
 * `set_loaded_module_assignments` in `app/algorithm.py`: seeding the credit
 * rows from a table of earlier assignments, one row per student id and one
 * column per module id.
 */
module PriorLoad {
  import opened Wrappers
  import opened Sequences
  import opened Validation
  import opened Engine
  import opened Rounds
  import opened Reports

  /** `data[(data.student_id == id)]`'s first row: only a text cell equal to the id matches. */
  function FirstRow(t: Table, id: string, n: nat): (r: Option<nat>)
    requires WellFormed(t) && "student_id" in t.columns && n <= |t.rows|
    ensures r.Some? ==> r.value < n && At(t, r.value, "student_id") == Str(id)
    ensures r.Some? ==> forall i :: 0 <= i < r.value ==> At(t, i, "student_id") != Str(id)
    ensures r.None? ==> forall i :: 0 <= i < n ==> At(t, i, "student_id") != Str(id)
  {
    if n == 0 then None
    else
      var p := FirstRow(t, id, n - 1);
      if p.Some? then p
      else if At(t, n - 1, "student_id") == Str(id) then Some(n - 1)
      else None
  }

  /**
   * `student_data[m.module_id].values[0] > 0` for student `s` and module `m`:
   * a KeyError without the module's column, an IndexError without a row for
   * the student, a TypeError for a text cell; an NA cell is not above 0.
   */
  function Cell(c: Config, t: Table, s: nat, m: nat): Result<bool, string>
    requires WellFormed(t) && "student_id" in t.columns && s < |c.students| && m < |c.modules|
  {
    var id := c.modules[m].id;
    var row := FirstRow(t, c.students[s].id, |t.rows|);
    if id !in t.columns then Failure("KeyError: " + id)
    else if row.None? then Failure("IndexError: index 0 is out of bounds")
    else match At(t, row.value, id)
      case Number(n) => Success(n > 0)
      case Missing => Success(false)
      case Str(_) => Failure("TypeError: '>' not supported")
  }

  /** The load raises: at the first student without a `student_id` column, or at some cell. */
  predicate LoadFails(c: Config, t: Table)
    requires WellFormed(t)
  {
    if "student_id" !in t.columns then |c.students| > 0
    else exists s, m :: 0 <= s < |c.students| && 0 <= m < |c.modules| && Cell(c, t, s, m).Failure?
  }

  /** Student `s`'s row after a load that does not raise: a cell takes its module's credits where the table's entry is above 0. */
  function LoadedRow(c: Config, t: Table, s: nat, row: seq<int>): (r: seq<int>)
    requires WellFormed(t) && "student_id" in t.columns && s < |c.students| && |row| == |c.modules|
    ensures |r| == |c.modules|
  {
    seq(|c.modules|, m requires 0 <= m < |c.modules| => if Cell(c, t, s, m) == Success(true) then c.modules[m].credits else row[m])
  }

  /** The rows after a load that does not raise. */
  function Loaded(c: Config, t: Table, credits: seq<seq<int>>): (rows: seq<seq<int>>)
    requires WellFormed(t) && Rows(c, credits)
    ensures Rows(c, rows)
  {
    if "student_id" !in t.columns then credits
    else seq(|c.students|, s requires 0 <= s < |c.students| => LoadedRow(c, t, s, credits[s]))
  }

  /** The position of module `m`'s group: the index `mg_idx` of the block that holds it. */
  function GroupOf(c: Config, m: nat): (g: nat)
    requires ValidConfig(c) && m < |c.modules|
    ensures g < |c.groups| && Selected(c, InGroup(g), m)
    ensures forall h :: 0 <= h < |c.groups| && Selected(c, InGroup(h), m) ==> h == g
  {
    assert ModuleFits(c, m);
    var g := FirstIndex(c.groups, c.modules[m].group);
    assert forall h :: 0 <= h < |c.groups| && h != g ==> c.groups[h] != c.groups[g] by {
      forall h | 0 <= h < |c.groups| && h != g ensures c.groups[h] != c.groups[g] {
        if h < g { assert c.groups[h] != c.groups[g]; } else { assert c.groups[g] != c.groups[h]; }
      }
    }
    g
  }

  /** One student's row: the group blocks in order, each block's modules in order. */
  method LoadRow(c: Config, t: Table, s: nat, row0: seq<int>) returns (r: Result<seq<int>, string>)
    requires ValidConfig(c) && WellFormed(t) && "student_id" in t.columns
    requires s < |c.students| && |row0| == |c.modules|
    ensures r.Failure? <==> exists m :: 0 <= m < |c.modules| && Cell(c, t, s, m).Failure?
    ensures r.Success? ==> r.value == LoadedRow(c, t, s, row0)
  {
    var row := row0;
    for g := 0 to |c.groups|
      invariant |row| == |c.modules|
      invariant forall m :: 0 <= m < |c.modules| ==> Cell(c, t, s, m).Success? || GroupOf(c, m) >= g
      invariant forall m :: 0 <= m < |c.modules| ==>
                  row[m] == if GroupOf(c, m) < g && Cell(c, t, s, m) == Success(true) then c.modules[m].credits else row0[m]
    {
      for m := 0 to |c.modules|
        invariant |row| == |c.modules|
        invariant forall x :: 0 <= x < |c.modules| ==> Cell(c, t, s, x).Success? || GroupOf(c, x) > g || (GroupOf(c, x) == g && x >= m)
        invariant forall x :: 0 <= x < |c.modules| ==>
                    row[x] == if (GroupOf(c, x) < g || (GroupOf(c, x) == g && x < m)) && Cell(c, t, s, x) == Success(true)
                              then c.modules[x].credits else row0[x]
      {
        if Selected(c, InGroup(g), m) {
          var cell := Cell(c, t, s, m);
          if cell.Failure? {
            return Failure(cell.error);
          }
          if cell.value {
            row := row[m := c.modules[m].credits];
          }
        }
      }
    }
    return Success(LoadedRow(c, t, s, row0));
  }

  /** The loop over the students: the rows a load leaves, or the error it raises. */
  method LoadRows(c: Config, t: Table, credits: seq<seq<int>>) returns (r: Result<seq<seq<int>>, string>)
    requires ValidConfig(c) && WellFormed(t) && Rows(c, credits)
    ensures r.Failure? <==> LoadFails(c, t)
    ensures r.Success? ==> r.value == Loaded(c, t, credits)
  {
    if "student_id" !in t.columns {
      if |c.students| == 0 {
        return Success(credits);
      }
      return Failure("AttributeError: student_id");
    }
    var rows := credits;
    for s := 0 to |c.students|
      invariant Rows(c, rows)
      invariant forall x, m :: 0 <= x < s && 0 <= m < |c.modules| ==> Cell(c, t, x, m).Success?
      invariant forall x :: 0 <= x < |c.students| ==> rows[x] == if x < s then LoadedRow(c, t, x, credits[x]) else credits[x]
    {
      var row := LoadRow(c, t, s, rows[s]);
      if row.Failure? {
        return Failure(row.error);
      }
      rows := rows[s := row.value];
    }
    return Success(Loaded(c, t, credits));
  }

  /** A load keeps every cell empty or holding its module's credits. */
  lemma LoadedCellsOk(c: Config, t: Table, credits: seq<seq<int>>, s: nat)
    requires WellFormed(t) && Rows(c, credits) && s < |c.students|
    requires CellsOk(c, credits[s])
    ensures CellsOk(c, Loaded(c, t, credits)[s])
  {
  }

  /** A student holds after a load what they held before and the modules whose entry is above 0 and which carry credits. */
  lemma LoadedHeld(c: Config, t: Table, credits: seq<seq<int>>, s: nat)
    requires WellFormed(t) && "student_id" in t.columns && Rows(c, credits) && s < |c.students|
    ensures Held(Loaded(c, t, credits)[s]) ==
            Held(credits[s]) - (set m: nat | m < |c.modules| && Cell(c, t, s, m) == Success(true))
            + (set m: nat | m < |c.modules| && Cell(c, t, s, m) == Success(true) && c.modules[m].credits != 0)
  {
  }

  /** Loading the same table twice is loading it once. */
  lemma LoadedIdempotent(c: Config, t: Table, credits: seq<seq<int>>)
    requires WellFormed(t) && "student_id" in t.columns && Rows(c, credits)
    ensures Loaded(c, t, Loaded(c, t, credits)) == Loaded(c, t, credits)
  {
    var once := Loaded(c, t, credits);
    forall s | 0 <= s < |c.students|
      ensures LoadedRow(c, t, s, once[s]) == once[s]
    {
    }
  }
}
