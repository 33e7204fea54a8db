/**
 * Loading students from the rankings and group-preference tables (`load_students`
 * in `app/data_loading.py` and in the older `data_loading.py`), the check that the
 * two tables list the same student ids, and the per-group capacity check.
 */
module StudentLoading {
  import opened Wrappers
  import opened Text
  import opened Sequences
  import opened Validation
  import ModuleLoading

  // ----- Student uids -----

  /** The name part of a uid: `str(name).lower().strip().replace(" ", "")`. */
  function NameKey(name: Cell): string
  {
    RemoveSpaces(Strip(Lower(CellText(name))))
  }

  /** The id part of a uid: the id with spaces removed, or nothing for a missing id. */
  function IdKey(id: Cell): string
  {
    if id.Missing? then [] else RemoveSpaces(Strip(CellText(id)))
  }

  /** `student_to_uid` (current): `"{name}_{id}"`, or `"{name}_"` when the id is missing. */
  function StudentToUid(name: Cell, id: Cell): string
  {
    NameKey(name) + "_" + IdKey(id)
  }

  /** A uid holds no space, and its name key ends at an underscore; a missing id adds nothing after it. */
  lemma UidShape(name: Cell, id: Cell)
    ensures ' ' !in NameKey(name) && ' ' !in IdKey(id) && ' ' !in StudentToUid(name, id)
    ensures id.Missing? ==> IdKey(id) == []
    ensures StudentToUid(name, id) == NameKey(name) + ['_'] + IdKey(id)
  {
  }

  /** A separator absent from both left parts splits two joined strings at the same place. */
  lemma JoinedAt(a: string, b: string, c: string, d: string, sep: char)
    requires sep !in a && sep !in c && a + [sep] + b == c + [sep] + d
    ensures a == c && b == d
  {
    var s := a + [sep] + b;
    assert s[|a|] == sep && forall k :: 0 <= k < |a| ==> s[k] != sep;
    assert s[|c|] == sep && forall k :: 0 <= k < |c| ==> s[k] != sep;
    assert |a| == |c| by {
      FirstOccurrence(s, sep, |a|);
      FirstOccurrence(s, sep, |c|);
    }
    assert a == s[..|a|] && c == s[..|c|];
    assert b == s[|a| + 1..] && d == s[|c| + 1..];
  }

  /** A position holding `x` with no `x` before it is `x`'s first position. */
  lemma FirstOccurrence(s: string, x: char, i: nat)
    requires i < |s| && s[i] == x && forall k :: 0 <= k < i ==> s[k] != x
    ensures FirstIndex(s, x) == i
  {
  }

  /**
   * Two students with the same uid have the same name key and the same id key,
   * as long as their name keys hold no underscore.
   */
  lemma UidDeterminesKeys(n1: Cell, i1: Cell, n2: Cell, i2: Cell)
    requires '_' !in NameKey(n1) && '_' !in NameKey(n2)
    requires StudentToUid(n1, i1) == StudentToUid(n2, i2)
    ensures NameKey(n1) == NameKey(n2) && IdKey(i1) == IdKey(i2)
  {
    JoinedAt(NameKey(n1), IdKey(i1), NameKey(n2), IdKey(i2), '_');
  }

  /** A missing id and an empty id give one uid, so such rows share one dict entry. */
  lemma MissingIdSharesUid(name: Cell)
    ensures StudentToUid(name, Missing) == StudentToUid(name, Str(""))
  {
    assert Strip("") == [] && RemoveSpaces([]) == [];
  }

  /**
   * `student_to_uid` (older lambda): the same string, but `.lower()` and
   * `.strip()` are applied to the raw cells, so a name that is not text, or an
   * id that is a number, raises.
   */
  function StudentToUidV1(name: Cell, id: Cell): (r: Result<string, string>)
    ensures r.Success? <==> name.Str? && !id.Number?
  {
    if !name.Str? then Failure("AttributeError: student_name has no attribute 'lower'")
    else if id.Number? then Failure("AttributeError: student_id has no attribute 'strip'")
    else
      var n := RemoveSpaces(Strip(Lower(name.s)));
      if id.Missing? then Success(n + "_") else Success(n + "_" + RemoveSpaces(Strip(id.s)))
  }

  /** Where the older lambda forms a uid, it is the current one. */
  lemma UidV1Agrees(name: Cell, id: Cell)
    ensures StudentToUidV1(name, id).Success? ==> StudentToUidV1(name, id).value == StudentToUid(name, id)
  {
  }

  // ----- Group preferences -----

  /** Every column of the group-preference table other than the two student columns. */
  function GroupNames(columns: seq<string>): (names: seq<string>)
    ensures forall c :: c in names <==> c in columns && c != "student_name" && c != "student_id"
  {
    if |columns| == 0 then []
    else
      var c := columns[|columns| - 1];
      assert columns == columns[..|columns| - 1] + [c];
      GroupNames(columns[..|columns| - 1]) + (if c != "student_name" && c != "student_id" then [c] else [])
  }

  /** A rankings table `load_students` can index: the two student columns, which form each row's uid. */
  predicate RankingsReadable(t: Table)
  {
    WellFormed(t) && HasStudentColumns(t)
  }

  /** The uid of row `i`. */
  function RowUid(t: Table, i: nat): string
    requires WellFormed(t) && HasStudentColumns(t) && i < |t.rows|
  {
    StudentToUid(At(t, i, "student_name"), At(t, i, "student_id"))
  }

  /** The uids of the rows, in row order. */
  function Uids(t: Table): (uids: seq<string>)
    requires WellFormed(t) && HasStudentColumns(t)
    ensures |uids| == |t.rows|
    ensures forall i :: 0 <= i < |t.rows| ==> uids[i] == RowUid(t, i)
  {
    seq(|t.rows|, i requires 0 <= i < |t.rows| => RowUid(t, i))
  }

  /** `dict(zip(group_names, [r[g] for g in group_names]))` for row `i`. */
  function PrefsOf(t: Table, i: nat): (p: map<string, Cell>)
    requires WellFormed(t) && i < |t.rows|
    ensures forall g :: g in p <==> g in GroupNames(t.columns)
  {
    map g | g in GroupNames(t.columns) :: At(t, i, g)
  }

  /** Each row's group preferences, in row order. */
  function PrefsColumn(t: Table): (ps: seq<map<string, Cell>>)
    requires WellFormed(t)
    ensures |ps| == |t.rows| && forall i :: 0 <= i < |t.rows| ==> ps[i] == PrefsOf(t, i)
  {
    seq(|t.rows|, i requires 0 <= i < |t.rows| => PrefsOf(t, i))
  }

  /** The group preferences keyed by uid: a later row with the same uid replaces an earlier one. */
  function PrefsByUid(t: Table): map<string, map<string, Cell>>
    requires WellFormed(t) && HasStudentColumns(t)
  {
    LastWins(Uids(t), PrefsColumn(t))
  }

  /** The uids with preferences are the rows' uids, each with its last row's preferences. */
  lemma PrefsByUidMeaning(t: Table, u: string)
    requires WellFormed(t) && HasStudentColumns(t)
    ensures u in PrefsByUid(t) <==> u in Uids(t)
    ensures u in PrefsByUid(t) ==> PrefsByUid(t)[u] == PrefsOf(t, LastIndexOf(Uids(t), u))
  {
    LastWinsMeaning(Uids(t), PrefsColumn(t), u);
  }

  /** The first loop of `load_students`: group preferences keyed by uid. */
  method LoadGroupPreferences(t: Table) returns (prefs: map<string, map<string, Cell>>)
    requires WellFormed(t) && HasStudentColumns(t)
    ensures prefs == PrefsByUid(t)
  {
    ghost var uids := Uids(t);
    ghost var column := PrefsColumn(t);
    prefs := map[];
    for i := 0 to |t.rows|
      invariant prefs == LastWins(uids[..i], column[..i])
    {
      PrefixSnoc(uids, i);
      PrefixSnoc(column, i);
      LastWinsSnoc(uids[..i], column[..i], uids[i], column[i]);
      prefs := prefs[RowUid(t, i) := PrefsOf(t, i)];
    }
    PrefixAll(uids);
    PrefixAll(column);
  }

  // ----- Rankings -----

  /** `[m for m in ids if m in columns]`. */
  function Present(ids: seq<string>, columns: seq<string>): (r: seq<string>)
    ensures forall m :: m in r <==> m in ids && m in columns
  {
    if |ids| == 0 then []
    else
      var m := ids[|ids| - 1];
      assert ids == ids[..|ids| - 1] + [m];
      Present(ids[..|ids| - 1], columns) + (if m in columns then [m] else [])
  }

  /** `missing_modules`: `[m for m in ids if m not in columns]`. */
  function MissingModules(ids: seq<string>, columns: seq<string>): (r: seq<string>)
    ensures forall m :: m in r <==> m in ids && m !in columns
  {
    if |ids| == 0 then []
    else
      var m := ids[|ids| - 1];
      assert ids == ids[..|ids| - 1] + [m];
      MissingModules(ids[..|ids| - 1], columns) + (if m !in columns then [m] else [])
  }

  /** Every module id is either ranked or reported missing, never both, counting repeats. */
  lemma {:induction false} RankedOrMissing(ids: seq<string>, columns: seq<string>)
    ensures |Present(ids, columns)| + |MissingModules(ids, columns)| == |ids|
  {
    if |ids| > 0 {
      RankedOrMissing(ids[..|ids| - 1], columns);
    }
  }

  /** A module's rank as loaded: the cell, or `np.inf` for a blank one. */
  datatype LoadedRank = Value(c: Cell) | Infinity

  function RankOf(c: Cell): (r: LoadedRank)
    ensures r.Value? ==> !r.c.Missing?
  {
    if c.Missing? then Infinity else Value(c)
  }

  /** The rank of each module of `ids` that has a column, for row `i`. */
  function RanksOf(t: Table, i: nat, ids: seq<string>): (r: map<string, LoadedRank>)
    requires WellFormed(t) && i < |t.rows|
    ensures forall m :: m in r <==> m in ids && m in t.columns
    ensures forall m :: m in r ==> m in t.columns && r[m] == RankOf(At(t, i, m))
  {
    map m | m in Present(ids, t.columns) :: RankOf(At(t, i, m))
  }

  /** Row `i` ranks every module that has a column. */
  predicate AllRanked(t: Table, i: nat, ids: seq<string>)
    requires WellFormed(t) && i < |t.rows|
  {
    forall m :: m in Present(ids, t.columns) ==> !At(t, i, m).Missing?
  }

  /** A student ranks everything exactly when no loaded rank is infinite. */
  lemma AllRankedMeaning(t: Table, i: nat, ids: seq<string>)
    requires WellFormed(t) && i < |t.rows|
    ensures AllRanked(t, i, ids) <==> forall m :: m in RanksOf(t, i, ids) ==> RanksOf(t, i, ids)[m] != Infinity
  {
    var r := RanksOf(t, i, ids);
    var present := Present(ids, t.columns);
    assert forall m :: m in r <==> m in present;
    assert forall m :: m in r ==> (r[m] != Infinity <==> !At(t, i, m).Missing?);
  }

  /** The module ids occurring as substrings of an exclusion text, in module order. */
  function ExcludedIds(text: string, ids: seq<string>): (r: seq<string>)
    ensures forall m :: m in r <==> m in ids && Contains(text, m)
  {
    if |ids| == 0 then []
    else
      var m := ids[|ids| - 1];
      assert ids == ids[..|ids| - 1] + [m];
      ExcludedIds(text, ids[..|ids| - 1]) + (if Contains(text, m) then [m] else [])
  }

  /**
   * A student's excluded modules: none for a blank cell; a number cannot be
   * searched and raises, as soon as there is a module to search it for.
   */
  function ExcludedOf(c: Cell, ids: seq<string>): (r: Result<seq<string>, string>)
    ensures r.Failure? <==> c.Number? && |ids| > 0
    ensures c.Missing? || (c.Number? && |ids| == 0) ==> r == Success([])
    ensures c.Str? ==> r == Success(ExcludedIds(c.s, ids))
  {
    match c
    case Missing => Success([])
    case Str(s) => Success(ExcludedIds(s, ids))
    case Number(_) => if |ids| == 0 then Success([]) else Failure("TypeError: argument of a numeric type is not iterable")
  }

  /** `str(student_id).strip()`, with the name standing in for a missing id. */
  function StudentIdOf(name: Cell, id: Cell): string
  {
    Strip(CellText(if id.Missing? then name else id))
  }

  /** A loaded student (the `Student` record of `app/algorithm.py`). */
  datatype Student = Student(name: Cell, id: string, groupPrefs: map<string, Cell>,
                             ranks: map<string, LoadedRank>, excluded: seq<string>)

  /**
   * Row `i`'s excluded modules: the row has no `excluded_modules` attribute,
   * and raises, when the table has no such column.
   */
  function ExcludedAt(rankings: Table, i: nat, ids: seq<string>): (r: Result<seq<string>, string>)
    requires RankingsReadable(rankings) && i < |rankings.rows|
    ensures "excluded_modules" !in rankings.columns ==> r.Failure?
    ensures "excluded_modules" in rankings.columns ==> r == ExcludedOf(At(rankings, i, "excluded_modules"), ids)
  {
    if "excluded_modules" in rankings.columns then ExcludedOf(At(rankings, i, "excluded_modules"), ids)
    else Failure("AttributeError: 'Series' object has no attribute 'excluded_modules'")
  }

  /**
   * One pass of the rankings loop: the student of row `i`, or the error it
   * raises. The exclusion cell is read first (AttributeError without the
   * column, TypeError on a number), then the uid is looked up among the group
   * preferences (KeyError).
   */
  function LoadRow(rankings: Table, prefs: map<string, map<string, Cell>>, ids: seq<string>, i: nat): (r: Result<Student, string>)
    requires RankingsReadable(rankings) && i < |rankings.rows|
    ensures r.Success? <==> && "excluded_modules" in rankings.columns
                            && ExcludedOf(At(rankings, i, "excluded_modules"), ids).Success?
                            && RowUid(rankings, i) in prefs
    ensures r.Success? ==> r.value.excluded == ExcludedOf(At(rankings, i, "excluded_modules"), ids).value
                           && r.value.groupPrefs == prefs[RowUid(rankings, i)]
  {
    var excluded := ExcludedAt(rankings, i, ids);
    var uid := RowUid(rankings, i);
    if excluded.Failure? then Failure(excluded.error)
    else if uid !in prefs then Failure("KeyError: " + uid)
    else
      var name := At(rankings, i, "student_name");
      Success(Student(name, StudentIdOf(name, At(rankings, i, "student_id")), prefs[uid],
                      RanksOf(rankings, i, ids), excluded.value))
  }

  /** A rankings table with rows but no exclusions column cannot be loaded. */
  lemma NoExclusionsColumn(rankings: Table, prefs: map<string, map<string, Cell>>, ids: seq<string>)
    requires RankingsReadable(rankings) && "excluded_modules" !in rankings.columns
    ensures AllRowsLoad(rankings, prefs, ids) <==> |rankings.rows| == 0
  {
    if |rankings.rows| > 0 {
      assert LoadRow(rankings, prefs, ids, 0).Failure?;
    }
  }

  /** The ids of the first `n` rows that leave some module unranked, in row order. */
  function MissingRanks(t: Table, ids: seq<string>, n: nat): (r: seq<Cell>)
    requires WellFormed(t) && "student_id" in t.columns && n <= |t.rows|
    ensures |r| <= n
  {
    if n == 0 then []
    else MissingRanks(t, ids, n - 1) + (if !AllRanked(t, n - 1, ids) then [At(t, n - 1, "student_id")] else [])
  }

  /** The names of the first `n` rows whose id is missing, in row order. */
  function MissingIdNames(t: Table, n: nat): (r: seq<Cell>)
    requires WellFormed(t) && HasStudentColumns(t) && n <= |t.rows|
    ensures |r| <= n
  {
    if n == 0 then []
    else MissingIdNames(t, n - 1) + (if At(t, n - 1, "student_id").Missing? then [At(t, n - 1, "student_name")] else [])
  }

  /** Every row can be loaded. */
  predicate AllRowsLoad(rankings: Table, prefs: map<string, map<string, Cell>>, ids: seq<string>)
    requires RankingsReadable(rankings)
  {
    forall i :: 0 <= i < |rankings.rows| ==> LoadRow(rankings, prefs, ids, i).Success?
  }

  /** The students of all rows, in row order. */
  function RowStudents(rankings: Table, prefs: map<string, map<string, Cell>>, ids: seq<string>): (ss: seq<Student>)
    requires RankingsReadable(rankings) && AllRowsLoad(rankings, prefs, ids)
    ensures |ss| == |rankings.rows|
  {
    seq(|rankings.rows|, i requires 0 <= i < |rankings.rows| => LoadRow(rankings, prefs, ids, i).value)
  }

  /** `list(loaded_students.values())` once every row has been put in the dict under its uid. */
  function StudentsOf(rankings: Table, prefs: map<string, map<string, Cell>>, ids: seq<string>): seq<Student>
    requires RankingsReadable(rankings) && AllRowsLoad(rankings, prefs, ids)
  {
    var uids := Uids(rankings);
    var rows := RowStudents(rankings, prefs, ids);
    FilledValues(uids, rows);
    Values(Filled(uids, rows))
  }

  /**
   * The loaded students: one per distinct uid, in order of the uid's first
   * row, built from the uid's last row.
   */
  lemma StudentsOfMeaning(rankings: Table, prefs: map<string, map<string, Cell>>, ids: seq<string>)
    requires RankingsReadable(rankings) && AllRowsLoad(rankings, prefs, ids)
    ensures var uids := Uids(rankings);
      && |StudentsOf(rankings, prefs, ids)| == |Unique(uids)|
      && forall k :: 0 <= k < |Unique(uids)| ==>
           StudentsOf(rankings, prefs, ids)[k] == LoadRow(rankings, prefs, ids, LastIndexOf(uids, Unique(uids)[k])).value
  {
    FilledValues(Uids(rankings), RowStudents(rankings, prefs, ids));
  }

  /** What `load_students` returns. */
  datatype Loaded = Loaded(students: seq<Student>, missingRanks: seq<Cell>, missingIds: seq<Cell>, missingModules: seq<string>)

  /**
   * `load_students` (current): group preferences by uid, then one student per
   * rankings row, kept in a dict keyed by uid. It fails on the first row whose
   * exclusion cell is a number or whose uid has no group preferences.
   */
  method LoadStudents(rankings: Table, prefsTable: Table, ids: seq<string>) returns (r: Result<Loaded, string>)
    requires RankingsReadable(rankings) && WellFormed(prefsTable) && HasStudentColumns(prefsTable)
    ensures r.Failure? <==> !AllRowsLoad(rankings, PrefsByUid(prefsTable), ids)
    ensures r.Success? ==> r.value == Loaded(StudentsOf(rankings, PrefsByUid(prefsTable), ids),
                                             MissingRanks(rankings, ids, |rankings.rows|),
                                             MissingIdNames(rankings, |rankings.rows|),
                                             MissingModules(ids, rankings.columns))
  {
    var prefs := LoadGroupPreferences(prefsTable);
    r := LoadRankings(rankings, prefs, ids);
  }

  /** The second loop of `load_students`: one student per rankings row, in a dict keyed by uid. */
  method LoadRankings(rankings: Table, prefs: map<string, map<string, Cell>>, ids: seq<string>) returns (r: Result<Loaded, string>)
    requires RankingsReadable(rankings)
    ensures r.Failure? <==> !AllRowsLoad(rankings, prefs, ids)
    ensures r.Success? ==> r.value == Loaded(StudentsOf(rankings, prefs, ids),
                                             MissingRanks(rankings, ids, |rankings.rows|),
                                             MissingIdNames(rankings, |rankings.rows|),
                                             MissingModules(ids, rankings.columns))
  {
    var loaded: Dict<string, Student> := Dict([], map[]);
    var missingRanks: seq<Cell> := [];
    var missingIds: seq<Cell> := [];
    ghost var uids: seq<string> := [];
    ghost var built: seq<Student> := [];
    for i := 0 to |rankings.rows|
      invariant Gathered(rankings, prefs, ids, i, loaded, missingRanks, missingIds, uids, built)
    {
      var row := LoadRow(rankings, prefs, ids, i);
      if row.Failure? {
        return Failure(row.error);
      }
      loaded, missingRanks, missingIds, uids, built := KeepRow(rankings, prefs, ids, i, row.value, loaded, missingRanks, missingIds, uids, built);
    }
    RowsGathered(rankings, prefs, ids, uids, built);
    FilledValues(uids, built);
    r := Success(Loaded(Values(loaded), missingRanks, missingIds, MissingModules(ids, rankings.columns)));
  }

  /** What the loop of `load_students` has gathered from the first `i` rankings rows. */
  ghost predicate Gathered(rankings: Table, prefs: map<string, map<string, Cell>>, ids: seq<string>, i: nat,
                           loaded: Dict<string, Student>, missingRanks: seq<Cell>, missingIds: seq<Cell>,
                           uids: seq<string>, built: seq<Student>)
    requires RankingsReadable(rankings) && i <= |rankings.rows|
  {
    && |uids| == i && |built| == i
    && (forall j :: 0 <= j < i ==> uids[j] == RowUid(rankings, j) && LoadRow(rankings, prefs, ids, j) == Success(built[j]))
    && loaded == Filled(uids, built)
    && missingRanks == MissingRanks(rankings, ids, i)
    && missingIds == MissingIdNames(rankings, i)
  }

  /** One loaded row: the student is stored under its uid, and the row is noted if it lacks a rank or an id. */
  method KeepRow(rankings: Table, prefs: map<string, map<string, Cell>>, ids: seq<string>, i: nat, student: Student,
                 loaded: Dict<string, Student>, missingRanks: seq<Cell>, missingIds: seq<Cell>,
                 ghost uids: seq<string>, ghost built: seq<Student>)
    returns (loaded': Dict<string, Student>, missingRanks': seq<Cell>, missingIds': seq<Cell>,
             ghost uids': seq<string>, ghost built': seq<Student>)
    requires RankingsReadable(rankings) && i < |rankings.rows|
    requires Gathered(rankings, prefs, ids, i, loaded, missingRanks, missingIds, uids, built)
    requires LoadRow(rankings, prefs, ids, i) == Success(student)
    ensures Gathered(rankings, prefs, ids, i + 1, loaded', missingRanks', missingIds', uids', built')
    ensures loaded' == Put(loaded, RowUid(rankings, i), student)
  {
    var uid := RowUid(rankings, i);
    FilledSnoc(uids, built, uid, student);
    RowsStep(rankings, prefs, ids, i, uids, built, LoadRow(rankings, prefs, ids, i));
    loaded' := Put(loaded, uid, student);
    uids' := uids + [uid];
    built' := built + [student];
    missingRanks', missingIds' := NoteMissing(rankings, ids, i, missingRanks, missingIds);
  }

  /** Row `i`'s entries in the list of students missing ranks and the list of students missing ids. */
  method NoteMissing(t: Table, ids: seq<string>, i: nat, missingRanks: seq<Cell>, missingIds: seq<Cell>)
    returns (missingRanks': seq<Cell>, missingIds': seq<Cell>)
    requires RankingsReadable(t) && i < |t.rows|
    requires missingRanks == MissingRanks(t, ids, i) && missingIds == MissingIdNames(t, i)
    ensures missingRanks' == MissingRanks(t, ids, i + 1) && missingIds' == MissingIdNames(t, i + 1)
  {
    missingIds' := missingIds;
    if At(t, i, "student_id").Missing? {
      missingIds' := missingIds + [At(t, i, "student_name")];
    }
    missingRanks' := missingRanks;
    if !AllRanked(t, i, ids) {
      missingRanks' := missingRanks + [At(t, i, "student_id")];
    }
  }

  /** The rows loaded so far, extended by row `i`. */
  lemma RowsStep(rankings: Table, prefs: map<string, map<string, Cell>>, ids: seq<string>, i: nat,
                 uids: seq<string>, built: seq<Student>, row: Result<Student, string>)
    requires RankingsReadable(rankings) && i < |rankings.rows| && |uids| == i && |built| == i
    requires forall j :: 0 <= j < i ==> uids[j] == RowUid(rankings, j) && LoadRow(rankings, prefs, ids, j) == Success(built[j])
    requires row == LoadRow(rankings, prefs, ids, i) && row.Success?
    ensures forall j :: 0 <= j < i + 1 ==>
      (uids + [RowUid(rankings, i)])[j] == RowUid(rankings, j) && LoadRow(rankings, prefs, ids, j) == Success((built + [row.value])[j])
  {
    var uids' := uids + [RowUid(rankings, i)];
    var built' := built + [row.value];
    forall j | 0 <= j < i + 1
      ensures uids'[j] == RowUid(rankings, j) && LoadRow(rankings, prefs, ids, j) == Success(built'[j])
    {
      if j < i {
        assert uids'[j] == uids[j] && built'[j] == built[j];
      }
    }
  }

  /** After the loop has seen every row, its ghost sequences are the rows' uids and students. */
  lemma RowsGathered(rankings: Table, prefs: map<string, map<string, Cell>>, ids: seq<string>,
                     uids: seq<string>, built: seq<Student>)
    requires RankingsReadable(rankings) && |uids| == |built| == |rankings.rows|
    requires forall j :: 0 <= j < |uids| ==> uids[j] == RowUid(rankings, j) && LoadRow(rankings, prefs, ids, j) == Success(built[j])
    ensures AllRowsLoad(rankings, prefs, ids)
    ensures uids == Uids(rankings) && built == RowStudents(rankings, prefs, ids)
  {
    var rows := RowStudents(rankings, prefs, ids);
    forall j | 0 <= j < |uids|
      ensures uids[j] == Uids(rankings)[j] && built[j] == rows[j]
    {
    }
  }
  // ----- The older loader -----

  /** Every row's uid can be formed by the older lambda: a text name, and an id that is not a number. */
  predicate UidsReadable(t: Table)
    requires WellFormed(t) && HasStudentColumns(t)
  {
    forall i :: 0 <= i < |t.rows| ==> At(t, i, "student_name").Str? && !At(t, i, "student_id").Number?
  }

  /** Checks, row by row, that the older lambda can form every uid of a table. */
  method CheckUidsV1(t: Table) returns (r: Result<(), string>)
    requires WellFormed(t) && HasStudentColumns(t)
    ensures r.Success? <==> UidsReadable(t)
  {
    for i := 0 to |t.rows|
      invariant forall j :: 0 <= j < i ==> At(t, j, "student_name").Str? && !At(t, j, "student_id").Number?
    {
      var uid := StudentToUidV1(At(t, i, "student_name"), At(t, i, "student_id"));
      if uid.Failure? {
        return Failure(uid.error);
      }
      assert At(t, i, "student_name").Str? && !At(t, i, "student_id").Number?;
      ReadableSnoc(t, i);
    }
    return Success(());
  }

  /** The rows before `i + 1` are readable when those before `i` and row `i` are. */
  lemma ReadableSnoc(t: Table, i: nat)
    requires WellFormed(t) && HasStudentColumns(t) && i < |t.rows|
    requires forall j :: 0 <= j < i ==> At(t, j, "student_name").Str? && !At(t, j, "student_id").Number?
    requires At(t, i, "student_name").Str? && !At(t, i, "student_id").Number?
    ensures forall j :: 0 <= j < i + 1 ==> At(t, j, "student_name").Str? && !At(t, j, "student_id").Number?
  {
  }

  /**
   * `load_students` (older): the same loops, but forming a uid raises on a
   * name that is not text or an id that is a number, in either table. Once
   * every uid can be formed the uids, and so the result, are the current ones.
   */
  method LoadStudentsV1(rankings: Table, prefsTable: Table, ids: seq<string>) returns (r: Result<Loaded, string>)
    requires RankingsReadable(rankings) && WellFormed(prefsTable) && HasStudentColumns(prefsTable)
    ensures r.Failure? <==>
      !UidsReadable(prefsTable) || !UidsReadable(rankings) || !AllRowsLoad(rankings, PrefsByUid(prefsTable), ids)
    ensures r.Success? ==> r.value == Loaded(StudentsOf(rankings, PrefsByUid(prefsTable), ids),
                                             MissingRanks(rankings, ids, |rankings.rows|),
                                             MissingIdNames(rankings, |rankings.rows|),
                                             MissingModules(ids, rankings.columns))
  {
    var readable := CheckUidsV1(prefsTable);
    if readable.Failure? {
      return Failure(readable.error);
    }
    readable := CheckUidsV1(rankings);
    if readable.Failure? {
      return Failure(readable.error);
    }
    r := LoadStudents(rankings, prefsTable, ids);
  }

  // ----- Matching ids across the two tables -----

  /** `set([str(s) for s in t['student_id']])`. */
  function IdTexts(t: Table): set<string>
    requires WellFormed(t) && "student_id" in t.columns
  {
    set i | 0 <= i < |t.rows| :: CellText(At(t, i, "student_id"))
  }

  /**
   * `check_ranking_and_group_ids_match`: the ids only the group-preference table
   * lists, then the ids only the rankings table lists.
   */
  function CheckRankingAndGroupIdsMatch(rankings: Table, prefs: Table): (r: (set<string>, set<string>))
    requires WellFormed(rankings) && "student_id" in rankings.columns
    requires WellFormed(prefs) && "student_id" in prefs.columns
    ensures r.0 !! r.1
    ensures r.0 + r.1 == (IdTexts(rankings) + IdTexts(prefs)) - (IdTexts(rankings) * IdTexts(prefs))
    ensures r.0 == {} && r.1 == {} <==> IdTexts(rankings) == IdTexts(prefs)
  {
    var inRankings := IdTexts(rankings);
    var inPrefs := IdTexts(prefs);
    (inPrefs - inRankings, inRankings - inPrefs)
  }

  /** Swapping the tables swaps the two reports. */
  lemma IdsMatchSymmetric(rankings: Table, prefs: Table)
    requires WellFormed(rankings) && "student_id" in rankings.columns
    requires WellFormed(prefs) && "student_id" in prefs.columns
    ensures CheckRankingAndGroupIdsMatch(rankings, prefs).0 == CheckRankingAndGroupIdsMatch(prefs, rankings).1
    ensures CheckRankingAndGroupIdsMatch(rankings, prefs).1 == CheckRankingAndGroupIdsMatch(prefs, rankings).0
  {
  }
}
