/**
 * The table validators of `app/data_loading.py` and of the older
 * `data_loading.py`: required columns, blank and duplicated student ids, and
 * cells holding the Unicode replacement character U+FFFD (what pandas leaves
 * for bytes it could not decode).
 */
module Validation {
  import opened Wrappers
  import opened Text
  import opened Sequences

  /** A table cell as pandas reads it: NA, a string or a number. */
  datatype Cell = Missing | Str(s: string) | Number(n: int)

  /** `str(cell)`: NA prints as "nan". */
  function CellText(c: Cell): string
  {
    match c
    case Missing => "nan"
    case Str(s) => s
    case Number(n) => IntToString(n)
  }

  /** A data frame: distinct column labels and rows of cells, one per column. */
  datatype Table = Table(columns: seq<string>, rows: seq<seq<Cell>>)

  predicate WellFormed(t: Table)
  {
    Distinct(t.columns) && forall i :: 0 <= i < |t.rows| ==> |t.rows[i]| == |t.columns|
  }

  /** The cell of row `i` in the column labelled `column`. */
  function At(t: Table, i: nat, column: string): Cell
    requires WellFormed(t) && i < |t.rows| && column in t.columns
  {
    t.rows[i][FirstIndex(t.columns, column)]
  }

  const ReplacementChar: char := '\U{FFFD}'

  /** The cell's text holds the replacement character; only a string cell can (see `FlaggedMeaning`). */
  predicate Flagged(c: Cell)
  {
    c.Str? && ReplacementChar in c.s
  }

  /** `'\ufffd' in str(cell)`: "nan" and printed numbers are digits and signs only. */
  lemma FlaggedMeaning(c: Cell)
    ensures Flagged(c) <==> ReplacementChar in CellText(c)
  {
    if c.Number? {
      IntToStringDigits(c.n);
    }
  }

  /** The position of the first cell of `row` holding the replacement character, if any. */
  function FirstFlagged(row: seq<Cell>): (r: Option<nat>)
    ensures r.Some? ==> r.value < |row| && Flagged(row[r.value])
    ensures r.Some? ==> forall j :: 0 <= j < r.value ==> !Flagged(row[j])
    ensures r.None? <==> forall j :: 0 <= j < |row| ==> !Flagged(row[j])
  {
    if |row| == 0 then None
    else if Flagged(row[0]) then Some(0)
    else
      var rest := FirstFlagged(row[1..]);
      if rest.Some? then Some(rest.value + 1) else None
  }

  /** `check_for_replacement_char`: scans the row's cells in column order, stopping at the first hit. */
  method CheckForReplacementChar(row: seq<Cell>) returns (found: bool, idx: Option<nat>)
    ensures found <==> exists j :: 0 <= j < |row| && Flagged(row[j])
    ensures idx == FirstFlagged(row) && (found <==> idx.Some?)
  {
    for j := 0 to |row|
      invariant forall k :: 0 <= k < j ==> !Flagged(row[k])
    {
      FlaggedMeaning(row[j]);
      if ReplacementChar in CellText(row[j]) {
        return true, Some(j);
      }
    }
    return false, None;
  }

  /** Every (row, column) pair of `ixs` is a cell of the table. */
  predicate Positions(t: Table, ixs: seq<(nat, nat)>)
  {
    forall a :: 0 <= a < |ixs| ==> ixs[a].0 < |t.rows| && ixs[a].1 < |t.rows[ixs[a].0]|
  }

  /** (row, first flagged column) for each flagged row among the first `n`, in row order. */
  function FlaggedRows(t: Table, n: nat): (ixs: seq<(nat, nat)>)
    requires n <= |t.rows|
    ensures Positions(t, ixs)
  {
    if n == 0 then []
    else
      var f := FirstFlagged(t.rows[n - 1]);
      FlaggedRows(t, n - 1) + (if f.Some? then [(n - 1, f.value)] else [])
  }

  /** Each listed pair is a flagged row below `n` with its first flagged column, in increasing row order. */
  lemma {:induction false} FlaggedRowsSound(t: Table, n: nat)
    requires n <= |t.rows|
    ensures forall a :: 0 <= a < |FlaggedRows(t, n)| ==>
      FlaggedRows(t, n)[a].0 < n && FirstFlagged(t.rows[FlaggedRows(t, n)[a].0]) == Some(FlaggedRows(t, n)[a].1)
    ensures forall a, b :: 0 <= a < b < |FlaggedRows(t, n)| ==> FlaggedRows(t, n)[a].0 < FlaggedRows(t, n)[b].0
  {
    if n > 0 {
      FlaggedRowsSound(t, n - 1);
    }
  }

  /** Every flagged row among the first `n` is listed. */
  lemma {:induction false} FlaggedRowsComplete(t: Table, n: nat, i: nat)
    requires i < n <= |t.rows| && FirstFlagged(t.rows[i]).Some?
    ensures (i, FirstFlagged(t.rows[i]).value) in FlaggedRows(t, n)
  {
    var f := FirstFlagged(t.rows[n - 1]);
    var rest := FlaggedRows(t, n - 1);
    var last: seq<(nat, nat)> := if f.Some? then [(n - 1, f.value)] else [];
    assert FlaggedRows(t, n) == rest + last;
    if i < n - 1 {
      FlaggedRowsComplete(t, n - 1, i);
      assert (i, FirstFlagged(t.rows[i]).value) in rest;
    } else {
      assert last == [(i, FirstFlagged(t.rows[i]).value)];
    }
  }

  /** `find_replacement_character_indices`: one pair per flagged row (see `FindReplacementCharacterIndicesMeaning`). */
  function FindReplacementCharacterIndices(t: Table): (ixs: seq<(nat, nat)>)
    ensures Positions(t, ixs)
  {
    FlaggedRows(t, |t.rows|)
  }

  /**
   * The pairs are exactly the flagged rows, each with its first flagged column,
   * in increasing row order.
   */
  lemma FindReplacementCharacterIndicesMeaning(t: Table)
    ensures forall i: nat, j: nat :: (i, j) in FindReplacementCharacterIndices(t) <==> i < |t.rows| && FirstFlagged(t.rows[i]) == Some(j)
    ensures forall a, b :: 0 <= a < b < |FindReplacementCharacterIndices(t)| ==>
      FindReplacementCharacterIndices(t)[a].0 < FindReplacementCharacterIndices(t)[b].0
  {
    FlaggedRowsSound(t, |t.rows|);
    forall i: nat, j: nat | i < |t.rows| && FirstFlagged(t.rows[i]) == Some(j)
      ensures (i, j) in FindReplacementCharacterIndices(t)
    {
      FlaggedRowsComplete(t, |t.rows|, i);
    }
  }

  /**
   * A validation error. The validators return these values; `Render` gives the
   * exact text the program shows for each.
   */
  datatype Message =
    | UnrecognisedCharacters
    | UnrecognisedCell(row: nat, col: nat, cell: Cell)
    | MissingColumn(heading: string)
    | NoStudentId(name: Cell)
    | DuplicateId(id: Cell, file: string)

  function Render(m: Message): string
  {
    match m
    case UnrecognisedCharacters =>
      "Unrecognised characters were found in this data file. Please edit the file to remove these characters and try again."
    case UnrecognisedCell(r, c, cell) =>
      "The item in row " + NatToString(r + 1) + ", column " + NatToString(c + 1)
      + " contains unrecognised characters: '" + CellText(cell) + "'"
    case MissingColumn(c) => "Column '" + c + "' was not found in the module data file"
    case NoStudentId(name) => "Student " + CellText(name) + " has no listed student ID"
    case DuplicateId(id, file) => "Student ID '" + CellText(id) + "' is used more than once in the " + file + " file"
  }

  /** `df.iloc[r, c]`; only ever taken at a listed position, which `Positions` keeps in range. */
  function CellAt(t: Table, r: nat, c: nat): Cell
  {
    if r < |t.rows| && c < |t.rows[r]| then t.rows[r][c] else Missing
  }

  /** The message for one flagged cell (its row and column numbers print 1-based). */
  function CellMessage(t: Table, p: (nat, nat)): Message
  {
    UnrecognisedCell(p.0, p.1, CellAt(t, p.0, p.1))
  }

  /** The messages for the flagged rows `ixs`, one each. */
  function CellMessages(t: Table, ixs: seq<(nat, nat)>): (msgs: seq<Message>)
    ensures |msgs| == |ixs|
    ensures forall k :: 0 <= k < |ixs| ==> msgs[k] == UnrecognisedCell(ixs[k].0, ixs[k].1, CellAt(t, ixs[k].0, ixs[k].1))
  {
    if |ixs| == 0 then [] else CellMessages(t, ixs[..|ixs| - 1]) + [CellMessage(t, ixs[|ixs| - 1])]
  }

  /** `get_replacement_character_error_messages`: a header, then one message per flagged row. */
  method GetReplacementCharacterErrorMessages(t: Table) returns (errors: seq<Message>)
    ensures errors == ReplacementErrors(t)
  {
    var ixs := FindReplacementCharacterIndices(t);
    errors := [];
    if |ixs| > 0 {
      errors := errors + [UnrecognisedCharacters];
    }
    ghost var header := errors;
    for a := 0 to |ixs|
      invariant errors == header + CellMessages(t, ixs[..a])
    {
      assert ixs[..a + 1][..a] == ixs[..a];
      errors := errors + [CellMessage(t, ixs[a])];
    }
    assert ixs[..|ixs|] == ixs;
  }

  /** The replacement-character messages of a table: a header and one message per flagged row, or none. */
  function ReplacementErrors(t: Table): (errors: seq<Message>)
  {
    var ixs := FindReplacementCharacterIndices(t);
    (if |ixs| > 0 then [UnrecognisedCharacters] else []) + CellMessages(t, ixs)
  }

  /** No cell of the table holds the replacement character. */
  predicate Clean(t: Table)
  {
    forall i, j :: 0 <= i < |t.rows| && 0 <= j < |t.rows[i]| ==> !Flagged(t.rows[i][j])
  }

  /**
   * The replacement-character messages are empty exactly when no cell holds the
   * character; otherwise there is the header plus one message per flagged row.
   */
  lemma ReplacementErrorsEmpty(t: Table)
    ensures ReplacementErrors(t) == [] <==> Clean(t)
    ensures ReplacementErrors(t) != [] ==> |ReplacementErrors(t)| == 1 + |FindReplacementCharacterIndices(t)|
  {
    if !Clean(t) {
      UncleanIsListed(t);
    }
    if FindReplacementCharacterIndices(t) != [] {
      ListedIsUnclean(t);
    }
  }

  lemma UncleanIsListed(t: Table)
    requires !Clean(t)
    ensures FindReplacementCharacterIndices(t) != []
  {
    var i, j :| 0 <= i < |t.rows| && 0 <= j < |t.rows[i]| && Flagged(t.rows[i][j]);
    FlaggedRowsComplete(t, |t.rows|, i);
  }

  lemma ListedIsUnclean(t: Table)
    requires FindReplacementCharacterIndices(t) != []
    ensures !Clean(t)
  {
    FlaggedRowsSound(t, |t.rows|);
    var p := FindReplacementCharacterIndices(t)[0];
    assert Flagged(t.rows[p.0][p.1]);
  }

  /** The error for each required column absent from `columns`, in the order required. */
  function MissingColumnErrors(columns: seq<string>, required: seq<string>): (errors: seq<Message>)
    ensures |errors| <= |required|
  {
    if |required| == 0 then []
    else
      var c := required[|required| - 1];
      MissingColumnErrors(columns, required[..|required| - 1])
      + (if c !in columns then [MissingColumn(c)] else [])
  }

  /** A required column's error is reported exactly when that column is missing. */
  lemma {:induction false} MissingColumnErrorsMeaning(columns: seq<string>, required: seq<string>, c: string)
    ensures MissingColumn(c) in MissingColumnErrors(columns, required) <==> c in required && c !in columns
  {
    if |required| > 0 {
      var last := required[|required| - 1];
      var init := required[..|required| - 1];
      MissingColumnErrorsMeaning(columns, init, c);
      assert required == init + [last];
    }
  }

  /** No column errors exactly when every required column is present. */
  lemma {:induction false} NoMissingColumnErrors(columns: seq<string>, required: seq<string>)
    ensures MissingColumnErrors(columns, required) == [] <==> forall c :: c in required ==> c in columns
  {
    if |required| > 0 {
      var init := required[..|required| - 1];
      NoMissingColumnErrors(columns, init);
      assert required == init + [required[|required| - 1]];
    }
  }

  /** The loop over the required columns, appending one error per missing column. */
  method CheckColumns(columns: seq<string>, required: seq<string>) returns (errors: seq<Message>)
    ensures errors == MissingColumnErrors(columns, required)
  {
    errors := [];
    for k := 0 to |required|
      invariant errors == MissingColumnErrors(columns, required[..k])
    {
      assert required[..k + 1][..k] == required[..k];
      if required[k] !in columns {
        errors := errors + [MissingColumn(required[k])];
      }
    }
    assert required[..|required|] == required;
  }

  const ModuleColumns: seq<string> := ["module_id", "module_name", "module_group", "semester", "credits",
                                       "capacity", "available_spaces", "required_modules", "mutually_excluded_modules"]

  const StudentColumns: seq<string> := ["student_name", "student_id"]

  /** Both student columns are present. */
  predicate HasStudentColumns(t: Table)
  {
    "student_name" in t.columns && "student_id" in t.columns
  }

  /** The student id of row `i` is blank: NA or the empty string. */
  predicate BlankId(t: Table, i: nat)
    requires WellFormed(t) && i < |t.rows| && "student_id" in t.columns
  {
    At(t, i, "student_id") == Missing || At(t, i, "student_id") == Str("")
  }

  /** One message per row of the first `n` with a blank id, naming that row's student. */
  function BlankIdErrors(t: Table, n: nat): (errors: seq<Message>)
    requires WellFormed(t) && HasStudentColumns(t) && n <= |t.rows|
    ensures |errors| <= n
    ensures errors == [] <==> forall i :: 0 <= i < n ==> !BlankId(t, i)
  {
    if n == 0 then []
    else
      BlankIdErrors(t, n - 1) + (if BlankId(t, n - 1) then [NoStudentId(At(t, n - 1, "student_name"))] else [])
  }

  /** The loop over the rows whose id is blank. */
  method ReportBlankIds(t: Table) returns (errors: seq<Message>)
    requires WellFormed(t) && HasStudentColumns(t)
    ensures errors == BlankIdErrors(t, |t.rows|)
  {
    errors := [];
    for i := 0 to |t.rows|
      invariant errors == BlankIdErrors(t, i)
    {
      if At(t, i, "student_id") == Missing || At(t, i, "student_id") == Str("") {
        errors := errors + [NoStudentId(At(t, i, "student_name"))];
      }
    }
  }

  /** The student id column. */
  function IdColumn(t: Table): (ids: seq<Cell>)
    requires WellFormed(t) && "student_id" in t.columns
    ensures |ids| == |t.rows|
  {
    seq(|t.rows|, i requires 0 <= i < |t.rows| => At(t, i, "student_id"))
  }

  /** The values of `xs` that repeat an earlier one (`duplicated(keep="first")`), in order. */
  function Repeats<T(==)>(xs: seq<T>): (r: seq<T>)
  {
    if |xs| == 0 then []
    else
      var x := xs[|xs| - 1];
      Repeats(xs[..|xs| - 1]) + (if x in xs[..|xs| - 1] then [x] else [])
  }

  /** A value repeats exactly when it occurs at two positions. */
  lemma {:induction false} RepeatsMeaning<T>(xs: seq<T>, x: T)
    ensures x in Repeats(xs) <==> exists i, j :: 0 <= i < j < |xs| && xs[i] == x && xs[j] == x
  {
    if |xs| > 0 {
      var init := xs[..|xs| - 1];
      RepeatsMeaning(init, x);
      if x in Repeats(xs) && x !in Repeats(init) {
        var i :| 0 <= i < |init| && init[i] == x;
        assert xs[i] == x && xs[|xs| - 1] == x;
      }
      if exists i, j :: 0 <= i < j < |xs| && xs[i] == x && xs[j] == x {
        var i, j :| 0 <= i < j < |xs| && xs[i] == x && xs[j] == x;
        if j < |xs| - 1 {
          assert init[i] == x && init[j] == x;
        } else {
          assert init[i] == x;
        }
      }
    }
  }

  /** `data[data.duplicated('student_id')]['student_id'].unique()`: each repeated id once. */
  function DuplicateIds(t: Table): (ids: seq<Cell>)
    requires WellFormed(t) && "student_id" in t.columns
    ensures Distinct(ids)
  {
    Unique(Repeats(IdColumn(t)))
  }

  /** An id is reported as duplicated exactly when two rows carry it. */
  lemma DuplicateIdsMeaning(t: Table, id: Cell)
    requires WellFormed(t) && "student_id" in t.columns
    ensures id in DuplicateIds(t) <==>
      exists i, j :: 0 <= i < j < |t.rows| && At(t, i, "student_id") == id && At(t, j, "student_id") == id
  {
    var ids := IdColumn(t);
    RepeatsMeaning(ids, id);
    if exists i, j :: 0 <= i < j < |t.rows| && At(t, i, "student_id") == id && At(t, j, "student_id") == id {
      var i, j :| 0 <= i < j < |t.rows| && At(t, i, "student_id") == id && At(t, j, "student_id") == id;
      assert ids[i] == id && ids[j] == id;
    }
    if exists i, j :: 0 <= i < j < |ids| && ids[i] == id && ids[j] == id {
      var i, j :| 0 <= i < j < |ids| && ids[i] == id && ids[j] == id;
      assert At(t, i, "student_id") == id && At(t, j, "student_id") == id;
    }
  }

  /** One message per duplicated id, in order. */
  function DuplicateErrors(ids: seq<Cell>, file: string): (errors: seq<Message>)
    ensures |errors| == |ids|
    ensures forall k :: 0 <= k < |ids| ==> errors[k] == DuplicateId(ids[k], file)
  {
    seq(|ids|, k requires 0 <= k < |ids| => DuplicateId(ids[k], file))
  }

  /** `validate_module_data` (current): the missing columns, then the replacement-character errors. */
  method ValidateModuleData(t: Table) returns (errors: seq<Message>)
    ensures errors == MissingColumnErrors(t.columns, ModuleColumns) + ReplacementErrors(t)
    ensures errors == [] <==> (forall c :: c in ModuleColumns ==> c in t.columns) && Clean(t)
  {
    errors := CheckColumns(t.columns, ModuleColumns);
    var more := GetReplacementCharacterErrorMessages(t);
    errors := errors + more;
    NoMissingColumnErrors(t.columns, ModuleColumns);
    ReplacementErrorsEmpty(t);
  }

  /** `validate_module_data` (older): the missing columns only. */
  method ValidateModuleDataV1(t: Table) returns (errors: seq<Message>)
    ensures errors == MissingColumnErrors(t.columns, ModuleColumns)
    ensures errors == [] <==> forall c :: c in ModuleColumns ==> c in t.columns
  {
    errors := CheckColumns(t.columns, ModuleColumns);
    NoMissingColumnErrors(t.columns, ModuleColumns);
  }

  /**
   * The older rankings, group-preferences and assignments validators (one body):
   * the missing student columns, then, when both are present, one error per blank id.
   */
  method ValidateStudentTableV1(t: Table) returns (errors: seq<Message>)
    requires WellFormed(t)
    ensures errors == MissingColumnErrors(t.columns, StudentColumns)
      + (if HasStudentColumns(t) then BlankIdErrors(t, |t.rows|) else [])
    ensures errors == [] <==>
      HasStudentColumns(t) && forall i :: 0 <= i < |t.rows| ==> !BlankId(t, i)
  {
    errors := CheckColumns(t.columns, StudentColumns);
    NoMissingColumnErrors(t.columns, StudentColumns);
    if "student_id" in t.columns && "student_name" in t.columns {
      var blanks := ReportBlankIds(t);
      errors := errors + blanks;
    }
  }

  /** `validate_module_assignments_data` (current): the older checks, then the replacement-character errors. */
  method ValidateModuleAssignmentsData(t: Table) returns (errors: seq<Message>)
    requires WellFormed(t)
    ensures errors == MissingColumnErrors(t.columns, StudentColumns)
      + (if HasStudentColumns(t) then BlankIdErrors(t, |t.rows|) else []) + ReplacementErrors(t)
    ensures errors == [] <==>
      HasStudentColumns(t) && (forall i :: 0 <= i < |t.rows| ==> !BlankId(t, i)) && Clean(t)
  {
    errors := ValidateStudentTableV1(t);
    var more := GetReplacementCharacterErrorMessages(t);
    errors := errors + more;
    ReplacementErrorsEmpty(t);
  }

  /** No two rows share a student id. */
  predicate UniqueIds(t: Table)
    requires WellFormed(t) && "student_id" in t.columns
  {
    forall i, j :: 0 <= i < j < |t.rows| ==> At(t, i, "student_id") != At(t, j, "student_id")
  }

  lemma NoDuplicateIds(t: Table)
    requires WellFormed(t) && "student_id" in t.columns
    ensures DuplicateIds(t) == [] <==> UniqueIds(t)
  {
    if DuplicateIds(t) != [] {
      DuplicateIdsMeaning(t, DuplicateIds(t)[0]);
    }
    if !UniqueIds(t) {
      var i, j :| 0 <= i < j < |t.rows| && At(t, i, "student_id") == At(t, j, "student_id");
      DuplicateIdsMeaning(t, At(t, i, "student_id"));
    }
  }

  /** The student-id errors of the current validators: one per blank id, then one per duplicated id. */
  function StudentIdErrors(t: Table, file: string): (errors: seq<Message>)
    requires WellFormed(t) && HasStudentColumns(t)
  {
    BlankIdErrors(t, |t.rows|) + DuplicateErrors(DuplicateIds(t), file)
  }

  lemma StudentIdErrorsEmpty(t: Table, file: string)
    requires WellFormed(t) && HasStudentColumns(t)
    ensures StudentIdErrors(t, file) == [] <==> (forall i :: 0 <= i < |t.rows| ==> !BlankId(t, i)) && UniqueIds(t)
  {
    NoDuplicateIds(t);
  }

  /** The guarded block of the current rankings validator: blank ids, then duplicated ids when there are any. */
  method CheckStudentIds(t: Table, file: string) returns (errors: seq<Message>)
    requires WellFormed(t) && HasStudentColumns(t)
    ensures errors == StudentIdErrors(t, file)
  {
    errors := ReportBlankIds(t);
    var duplicates := DuplicateIds(t);
    if |duplicates| > 0 {
      errors := errors + DuplicateErrors(duplicates, file);
    }
  }

  /** What the current rankings validator reports for a table, naming duplicates as in `file`. */
  function RankingsErrors(t: Table, file: string): (errors: seq<Message>)
    requires WellFormed(t)
  {
    MissingColumnErrors(t.columns, StudentColumns)
    + (if HasStudentColumns(t) then StudentIdErrors(t, file) else [])
    + ReplacementErrors(t)
  }

  /** No errors exactly when both columns exist, no id is blank or repeated, and no cell is garbled. */
  lemma RankingsErrorsEmpty(t: Table, file: string)
    requires WellFormed(t)
    ensures RankingsErrors(t, file) == [] <==>
      HasStudentColumns(t) && (forall i :: 0 <= i < |t.rows| ==> !BlankId(t, i)) && UniqueIds(t) && Clean(t)
  {
    NoMissingColumnErrors(t.columns, StudentColumns);
    ReplacementErrorsEmpty(t);
    if HasStudentColumns(t) {
      StudentIdErrorsEmpty(t, file);
    }
  }

  /**
   * `validate_module_rankings_data` (current): the missing columns; when both
   * student columns are present, one error per blank id and one per duplicated
   * id; then the replacement-character errors.
   */
  method ValidateModuleRankingsData(t: Table) returns (errors: seq<Message>)
    requires WellFormed(t)
    ensures errors == RankingsErrors(t, "Rankings")
    ensures errors == [] <==>
      HasStudentColumns(t) && (forall i :: 0 <= i < |t.rows| ==> !BlankId(t, i)) && UniqueIds(t) && Clean(t)
  {
    errors := CheckColumns(t.columns, StudentColumns);
    if "student_id" in t.columns && "student_name" in t.columns {
      var more := CheckStudentIds(t, "Rankings");
      errors := errors + more;
    }
    var more := GetReplacementCharacterErrorMessages(t);
    errors := errors + more;
    RankingsErrorsEmpty(t, "Rankings");
  }

  /**
   * `validate_module_group_preferences_data` (current) as written: the duplicate
   * check sits outside the column guard, so a table without a `student_id`
   * column raises a KeyError instead of reporting the missing column.
   */
  method ValidateModuleGroupPreferencesDataAsWritten(t: Table) returns (result: Result<seq<Message>, string>)
    requires WellFormed(t)
    ensures result.Failure? <==> "student_id" !in t.columns
    ensures result.Success? ==>
      result.value == MissingColumnErrors(t.columns, StudentColumns)
        + (if HasStudentColumns(t) then BlankIdErrors(t, |t.rows|) else [])
        + DuplicateErrors(DuplicateIds(t), "Group Preferences") + ReplacementErrors(t)
  {
    var errors := CheckColumns(t.columns, StudentColumns);
    if "student_id" in t.columns && "student_name" in t.columns {
      var blanks := ReportBlankIds(t);
      errors := errors + blanks;
    }
    if "student_id" !in t.columns {
      return Failure("KeyError: 'student_id'");
    }
    var duplicates := DuplicateIds(t);
    if |duplicates| > 0 {
      errors := errors + DuplicateErrors(duplicates, "Group Preferences");
    }
    var more := GetReplacementCharacterErrorMessages(t);
    return Success(errors + more);
  }

  /** The group-preferences validator with its duplicate check inside the column guard, as the rankings one has it. */
  method ValidateModuleGroupPreferencesData(t: Table) returns (errors: seq<Message>)
    requires WellFormed(t)
    ensures errors == RankingsErrors(t, "Group Preferences")
    ensures errors == [] <==>
      HasStudentColumns(t) && (forall i :: 0 <= i < |t.rows| ==> !BlankId(t, i)) && UniqueIds(t) && Clean(t)
  {
    errors := CheckColumns(t.columns, StudentColumns);
    if "student_id" in t.columns && "student_name" in t.columns {
      var more := CheckStudentIds(t, "Group Preferences");
      errors := errors + more;
    }
    var more := GetReplacementCharacterErrorMessages(t);
    errors := errors + more;
    RankingsErrorsEmpty(t, "Group Preferences");
  }

  /** A group-preferences table with a name column but no id column, and no rows. */
  const NoIdColumn: Table := Table(["student_name"], [])

  /**
   * On a table without `student_id`, the validator as written raises, where the
   * guarded one reports the missing column.
   */
  method GroupPreferencesWithoutIdColumn() returns (asWritten: Result<seq<Message>, string>, corrected: seq<Message>)
    ensures asWritten.Failure?
    ensures corrected == [MissingColumn("student_id")]
  {
    assert MissingColumnErrors(NoIdColumn.columns, StudentColumns) == [MissingColumn("student_id")] by {
      assert StudentColumns[..1] == ["student_name"] && StudentColumns[..1][..0] == [];
    }
    asWritten := ValidateModuleGroupPreferencesDataAsWritten(NoIdColumn);
    corrected := ValidateModuleGroupPreferencesData(NoIdColumn);
  }
}
