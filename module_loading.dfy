/**
 * `get_formatted_module_data`: builds the Module objects from the rows of the
 * module table and links them through the comma-separated id lists in the
 * `mutually_excluded_modules` and `required_modules` columns.
 */
module ModuleLoading {
  import opened Wrappers
  import opened Text
  import opened Sequences
  import opened Catalogue

  /** One row of the module table, its columns already typed. */
  datatype ModuleRow = ModuleRow(
    id: string, name: string, group: string, semester: int, credits: int,
    capacity: int, availableSpaces: int,
    requiredModules: Option<string>, mutuallyExcludedModules: Option<string>)

  datatype Relation = Exclusion | Requirement

  /** The ids a row lists for a relation; an NA cell lists none. */
  function ListedIds(r: ModuleRow, rel: Relation): seq<string>
  {
    var cell := if rel == Exclusion then r.mutuallyExcludedModules else r.requiredModules;
    if cell.Some? then ParseIdList(cell.value) else []
  }

  function Ids(rows: seq<ModuleRow>): seq<string>
  {
    seq(|rows|, i requires 0 <= i < |rows| => rows[i].id)
  }

  function GroupColumn(rows: seq<ModuleRow>): seq<string>
  {
    seq(|rows|, i requires 0 <= i < |rows| => rows[i].group)
  }

  function SemesterColumn(rows: seq<ModuleRow>): seq<int>
  {
    seq(|rows|, i requires 0 <= i < |rows| => rows[i].semester)
  }

  function KnownIds(rows: seq<ModuleRow>): set<string>
  {
    set r | r in rows :: r.id
  }

  /** The position of the last row with this id: a later row replaces an earlier one in the id-keyed dict. */
  function LastIndex(rows: seq<ModuleRow>, id: string): (i: nat)
    requires id in KnownIds(rows)
    ensures i < |rows| && rows[i].id == id
    ensures forall j :: i < j < |rows| ==> rows[j].id != id
  {
    var n := |rows| - 1;
    if rows[n].id == id then n
    else
      assert id in KnownIds(rows[..n]) by {
        var r :| r in rows && r.id == id;
        var i :| 0 <= i < |rows| && rows[i] == r;
        assert rows[..n][i] == r;
      }
      LastIndex(rows[..n], id)
  }

  /** The row the module with this id is built from. */
  function LastRow(rows: seq<ModuleRow>, id: string): (r: ModuleRow)
    requires id in KnownIds(rows)
    ensures r.id == id
  {
    rows[LastIndex(rows, id)]
  }

  /** Some row of module `a` lists `b` under `rel`. */
  ghost predicate Linked(rows: seq<ModuleRow>, rel: Relation, a: string, b: string)
  {
    exists r :: r in rows && r.id == a && b in ListedIds(r, rel)
  }

  /** A row's id with the ids it lists under one relation, already parsed. */
  datatype Listing = Listing(owner: string, ids: seq<string>)

  /** The listings of all rows under one relation, in row order. */
  function Listings(rows: seq<ModuleRow>, rel: Relation): (ls: seq<Listing>)
    ensures |ls| == |rows|
  {
    seq(|rows|, i requires 0 <= i < |rows| => Listing(rows[i].id, ListedIds(rows[i], rel)))
  }

  lemma ListingsSnoc(rows: seq<ModuleRow>, r: ModuleRow, rel: Relation)
    ensures Listings(rows + [r], rel) == Listings(rows, rel) + [Listing(r.id, ListedIds(r, rel))]
  {
  }

  /** Some listing of `a` names `b`. */
  ghost predicate Lists(ls: seq<Listing>, a: string, b: string)
  {
    exists i :: 0 <= i < |ls| && ls[i].owner == a && b in ls[i].ids
  }

  lemma ListsLinked(rows: seq<ModuleRow>, rel: Relation, a: string, b: string)
    ensures Lists(Listings(rows, rel), a, b) <==> Linked(rows, rel, a, b)
  {
    var ls := Listings(rows, rel);
    if Linked(rows, rel, a, b) {
      var r :| r in rows && r.id == a && b in ListedIds(r, rel);
      var i :| 0 <= i < |rows| && rows[i] == r;
      assert ls[i].owner == a && b in ls[i].ids;
    }
    if Lists(ls, a, b) {
      var i :| 0 <= i < |ls| && ls[i].owner == a && b in ls[i].ids;
      assert rows[i] in rows;
    }
  }

  /** The listed ids that name no loaded module, listing by listing. */
  ghost function NotFound(ls: seq<Listing>, known: set<string>): set<string>
  {
    if |ls| == 0 then {}
    else NotFound(ls[..|ls| - 1], known) + (set x | x in ls[|ls| - 1].ids && x !in known)
  }

  lemma NotFoundSnoc(ls: seq<Listing>, l: Listing, known: set<string>)
    ensures NotFound(ls + [l], known) == NotFound(ls, known) + (set x | x in l.ids && x !in known)
  {
    assert (ls + [l])[..|ls|] == ls;
  }

  lemma {:induction false} NotFoundIn(ls: seq<Listing>, known: set<string>, x: string)
    ensures x in NotFound(ls, known) <==> x !in known && exists i :: 0 <= i < |ls| && x in ls[i].ids
  {
    if |ls| > 0 {
      var front := ls[..|ls| - 1];
      NotFoundIn(front, known, x);
      if exists i :: 0 <= i < |ls| && x in ls[i].ids {
        var i :| 0 <= i < |ls| && x in ls[i].ids;
        if i < |front| {
          assert x in front[i].ids;
        }
      }
      if exists i :: 0 <= i < |front| && x in front[i].ids {
        var i :| 0 <= i < |front| && x in front[i].ids;
        assert x in ls[i].ids;
      }
    }
  }

  /** An id is reported as not found exactly when some row lists it and no row defines it. */
  lemma NotFoundMeaning(rows: seq<ModuleRow>, rel: Relation, x: string)
    ensures x in NotFound(Listings(rows, rel), KnownIds(rows)) <==>
      x !in KnownIds(rows) && exists r :: r in rows && x in ListedIds(r, rel)
  {
    var ls := Listings(rows, rel);
    NotFoundIn(ls, KnownIds(rows), x);
    if exists r :: r in rows && x in ListedIds(r, rel) {
      var r :| r in rows && x in ListedIds(r, rel);
      var i :| 0 <= i < |rows| && rows[i] == r;
      assert x in ls[i].ids;
    }
    if exists i :: 0 <= i < |ls| && x in ls[i].ids {
      var i :| 0 <= i < |ls| && x in ls[i].ids;
      assert rows[i] in rows;
    }
  }

  ghost predicate Injective(loaded: map<string, Module>)
  {
    forall a, b :: a in loaded && b in loaded && a != b ==> loaded[a] != loaded[b]
  }

  /** The object carries the row's fields. */
  ghost predicate Built(m: Module, r: ModuleRow)
    reads m
  {
    && m.id == r.id && m.name == r.name && m.credits == r.credits && m.semester == r.semester
    && m.group == r.group && m.totalSpaces == r.capacity && m.availableSpaces == r.availableSpaces
  }

  /** The loaded modules named in `ids`. */
  ghost function Objs(loaded: map<string, Module>, ids: seq<string>): set<Module>
  {
    set y | y in ids && y in loaded :: loaded[y]
  }

  lemma ObjsSnoc(loaded: map<string, Module>, ids: seq<string>, y: string)
    ensures Objs(loaded, ids + [y]) == Objs(loaded, ids) + (if y in loaded then {loaded[y]} else {})
  {
    assert forall z :: z in ids + [y] <==> z in ids || z == y;
  }

  /** The loaded modules that the listings of `x` name. */
  ghost function Targets(loaded: map<string, Module>, ls: seq<Listing>, x: string): set<Module>
  {
    if |ls| == 0 then {}
    else
      var last := ls[|ls| - 1];
      Targets(loaded, ls[..|ls| - 1], x) + (if last.owner == x then Objs(loaded, last.ids) else {})
  }

  /** The loaded modules whose listings name `x`. */
  ghost function Sources(loaded: map<string, Module>, ls: seq<Listing>, x: string): set<Module>
  {
    if |ls| == 0 then {}
    else
      var last := ls[|ls| - 1];
      Sources(loaded, ls[..|ls| - 1], x)
      + (if x in last.ids && last.owner in loaded then {loaded[last.owner]} else {})
  }

  lemma TargetsSourcesSnoc(loaded: map<string, Module>, ls: seq<Listing>, l: Listing)
    ensures forall x ::
              Targets(loaded, ls + [l], x) ==
              Targets(loaded, ls, x) + (if l.owner == x then Objs(loaded, l.ids) else {})
    ensures forall x ::
              Sources(loaded, ls + [l], x) ==
              Sources(loaded, ls, x) + (if x in l.ids && l.owner in loaded then {loaded[l.owner]} else {})
  {
    assert (ls + [l])[..|ls|] == ls;
  }

  /** A loaded module is a target of `x` exactly when a listing of `x` names its id. */
  lemma {:induction false} TargetsMeaning(loaded: map<string, Module>, ls: seq<Listing>, x: string, y: string)
    requires Injective(loaded) && y in loaded
    ensures loaded[y] in Targets(loaded, ls, x) <==> Lists(ls, x, y)
  {
    if |ls| > 0 {
      var front, last := ls[..|ls| - 1], ls[|ls| - 1];
      TargetsMeaning(loaded, front, x, y);
      assert loaded[y] in Objs(loaded, last.ids) <==> y in last.ids;
      if Lists(ls, x, y) {
        var i :| 0 <= i < |ls| && ls[i].owner == x && y in ls[i].ids;
        if i < |front| {
          assert front[i] == ls[i];
        }
      }
      if Lists(front, x, y) {
        var i :| 0 <= i < |front| && front[i].owner == x && y in front[i].ids;
        assert ls[i] == front[i];
      }
    }
  }

  /** A loaded module is a source of `x` exactly when one of its listings names `x`. */
  lemma {:induction false} SourcesMeaning(loaded: map<string, Module>, ls: seq<Listing>, x: string, y: string)
    requires Injective(loaded) && y in loaded
    requires forall i :: 0 <= i < |ls| ==> ls[i].owner in loaded
    ensures loaded[y] in Sources(loaded, ls, x) <==> Lists(ls, y, x)
  {
    if |ls| > 0 {
      var front, last := ls[..|ls| - 1], ls[|ls| - 1];
      SourcesMeaning(loaded, front, x, y);
      if Lists(ls, y, x) {
        var i :| 0 <= i < |ls| && ls[i].owner == y && x in ls[i].ids;
        if i < |front| {
          assert front[i] == ls[i];
        }
      }
      if Lists(front, y, x) {
        var i :| 0 <= i < |front| && front[i].owner == y && x in front[i].ids;
        assert ls[i] == front[i];
      }
    }
  }

  /** Every target and source is a loaded module. */
  lemma {:induction false} LinksLoaded(loaded: map<string, Module>, ls: seq<Listing>, x: string)
    ensures Targets(loaded, ls, x) <= loaded.Values
    ensures Sources(loaded, ls, x) <= loaded.Values
  {
    if |ls| > 0 {
      LinksLoaded(loaded, ls[..|ls| - 1], x);
    }
  }

  /** The exclusions each loaded module holds are exactly those listed, either way round. */
  ghost predicate ExclusionsAre(loaded: map<string, Module>, ls: seq<Listing>)
    reads loaded.Values
  {
    forall x :: x in loaded ==> loaded[x].mutualExclusions == Targets(loaded, ls, x) + Sources(loaded, ls, x)
  }

  /** The requirements each loaded module holds are exactly those listed. */
  ghost predicate RequirementsAre(loaded: map<string, Module>, ls: seq<Listing>)
    reads loaded.Values
  {
    forall x :: x in loaded ==> loaded[x].requirements == Targets(loaded, ls, x)
  }

  /** Links modules `a` and `b` as mutually exclusive; nothing else changes. */
  method LinkExclusionPair(loaded: map<string, Module>, a: string, b: string)
    requires a in loaded && b in loaded && Injective(loaded)
    modifies loaded.Values
    ensures forall x :: x in loaded ==>
      loaded[x].mutualExclusions == old(loaded[x].mutualExclusions)
        + (if x == a then {loaded[b]} else {}) + (if x == b then {loaded[a]} else {})
    ensures forall x :: x in loaded ==>
      loaded[x].requirements == old(loaded[x].requirements) && loaded[x].availableSpaces == old(loaded[x].availableSpaces)
  {
    loaded[a].AddMutualExclusions([loaded[b]]);
  }

  /**
   * The exclusion sets of `loaded` once module `a` has been linked with the modules
   * `targets`, and each id in `sources` with `a`: what they were in `before`, plus those.
   */
  ghost predicate ExclusionsSoFar(loaded: map<string, Module>, before: map<string, set<Module>>, a: string,
                                  targets: set<Module>, sources: set<string>)
    requires a in loaded
    reads loaded.Values
  {
    forall x :: x in loaded ==>
      x in before && loaded[x].mutualExclusions == before[x]
        + (if x == a then targets else {}) + (if x in sources then {loaded[a]} else {})
  }

  /** One step of the exclusion loop: id `y` is linked with `a` when it is loaded. */
  method LinkExclusion(loaded: map<string, Module>, ghost before: map<string, set<Module>>, a: string, y: string,
                       ghost targets: set<Module>, ghost sources: set<string>)
    requires a in loaded && Injective(loaded)
    requires ExclusionsSoFar(loaded, before, a, targets, sources)
    modifies loaded.Values
    ensures ExclusionsSoFar(loaded, before, a, targets + (if y in loaded then {loaded[y]} else {}),
                            sources + (if y in loaded then {y} else {}))
    ensures forall x :: x in loaded ==>
      loaded[x].requirements == old(loaded[x].requirements) && loaded[x].availableSpaces == old(loaded[x].availableSpaces)
  {
    if y in loaded {
      ghost var was := map x | x in loaded :: loaded[x].mutualExclusions;
      LinkExclusionPair(loaded, a, y);
      forall x | x in loaded
        ensures loaded[x].mutualExclusions == before[x]
          + (if x == a then targets + {loaded[y]} else {}) + (if x in sources + {y} then {loaded[a]} else {})
      {
        assert loaded[x].mutualExclusions == was[x] + (if x == a then {loaded[y]} else {}) + (if x == y then {loaded[a]} else {});
      }
    }
  }

  /** Links module `a` with every loaded module named in `ids`; collects the unknown ids. */
  method LinkExclusions(loaded: map<string, Module>, a: string, ids: seq<string>) returns (notFound: set<string>)
    requires a in loaded && Injective(loaded)
    modifies loaded.Values
    ensures forall x :: x in loaded ==>
      loaded[x].mutualExclusions == old(loaded[x].mutualExclusions)
        + (if x == a then Objs(loaded, ids) else {}) + (if x in ids then {loaded[a]} else {})
    ensures forall x :: x in loaded ==>
      loaded[x].requirements == old(loaded[x].requirements) && loaded[x].availableSpaces == old(loaded[x].availableSpaces)
    ensures notFound == set y | y in ids && y !in loaded
  {
    ghost var before := map x | x in loaded :: loaded[x].mutualExclusions;
    ghost var targets: set<Module> := {};
    ghost var sources: set<string> := {};
    for j := 0 to |ids|
      invariant targets == Objs(loaded, ids[..j])
      invariant forall x :: x in sources <==> x in ids[..j] && x in loaded
      invariant ExclusionsSoFar(loaded, before, a, targets, sources)
      invariant forall x :: x in loaded ==>
        loaded[x].requirements == old(loaded[x].requirements) && loaded[x].availableSpaces == old(loaded[x].availableSpaces)
    {
      var y := ids[j];
      PrefixSnoc(ids, j);
      ObjsSnoc(loaded, ids[..j], y);
      LinkExclusion(loaded, before, a, y, targets, sources);
      targets := targets + (if y in loaded then {loaded[y]} else {});
      sources := sources + (if y in loaded then {y} else {});
    }
    PrefixAll(ids);
    notFound := set y | y in ids && y !in loaded;
  }

  /** Makes module `a` require every loaded module named in `ids`; collects the unknown ids. */
  method LinkRequirements(loaded: map<string, Module>, a: string, ids: seq<string>) returns (notFound: set<string>)
    requires a in loaded && Injective(loaded)
    modifies loaded.Values
    ensures forall x :: x in loaded ==>
      loaded[x].requirements == old(loaded[x].requirements) + (if x == a then Objs(loaded, ids) else {})
    ensures forall x :: x in loaded ==>
      loaded[x].mutualExclusions == old(loaded[x].mutualExclusions) && loaded[x].availableSpaces == old(loaded[x].availableSpaces)
    ensures notFound == set y | y in ids && y !in loaded
  {
    for j := 0 to |ids|
      invariant forall x :: x in loaded ==>
        loaded[x].requirements == old(loaded[x].requirements) + (if x == a then Objs(loaded, ids[..j]) else {})
      invariant forall x :: x in loaded ==>
        loaded[x].mutualExclusions == old(loaded[x].mutualExclusions) && loaded[x].availableSpaces == old(loaded[x].availableSpaces)
    {
      var y := ids[j];
      PrefixSnoc(ids, j);
      ObjsSnoc(loaded, ids[..j], y);
      if y in loaded {
        loaded[a].AddRequirements([loaded[y]]);
      }
    }
    PrefixAll(ids);
    notFound := set y | y in ids && y !in loaded;
  }

  /** Appending a row appends its id, and the id becomes known with that row as its last. */
  lemma RowsSnoc(rows: seq<ModuleRow>, r: ModuleRow)
    ensures Ids(rows + [r]) == Ids(rows) + [r.id]
    ensures GroupColumn(rows + [r]) == GroupColumn(rows) + [r.group]
    ensures SemesterColumn(rows + [r]) == SemesterColumn(rows) + [r.semester]
    ensures KnownIds(rows + [r]) == KnownIds(rows) + {r.id}
    ensures LastRow(rows + [r], r.id) == r
    ensures forall k :: k in KnownIds(rows) && k != r.id ==> LastRow(rows + [r], k) == LastRow(rows, k)
  {
    assert forall q :: q in rows + [r] <==> q in rows || q == r;
    assert (rows + [r])[..|rows|] == rows;
    forall k | k in KnownIds(rows) && k != r.id
      ensures LastRow(rows + [r], k) == LastRow(rows, k)
    {
      assert LastIndex(rows + [r], k) == LastIndex(rows, k);
    }
  }

  /** The known ids are the entries of the id column. */
  lemma IdsAreKnown(rows: seq<ModuleRow>)
    ensures forall x :: x in Ids(rows) <==> x in KnownIds(rows)
  {
    forall x | x in KnownIds(rows) ensures x in Ids(rows) {
      var r :| r in rows && r.id == x;
      var i :| 0 <= i < |rows| && rows[i] == r;
      assert Ids(rows)[i] == x;
    }
  }

  /** The ids the first loop has seen, and their first-appearance order, after one more row. */
  lemma KeysSnoc(keys: seq<string>, done: seq<ModuleRow>, r: ModuleRow)
    requires keys == Unique(Ids(done))
    ensures KnownIds(done + [r]) == KnownIds(done) + {r.id}
    ensures (if r.id in KnownIds(done) then keys else keys + [r.id]) == Unique(Ids(done + [r]))
  {
    RowsSnoc(done, r);
    UniqueSnoc(Ids(done), r.id);
    IdsAreKnown(done);
  }

  /** After one more row, that row is its id's last, and every other id keeps its last row. */
  lemma LastRowSnoc(done: seq<ModuleRow>, r: ModuleRow)
    ensures LastRow(done + [r], r.id) == r
    ensures forall k :: k in KnownIds(done) && k != r.id ==> LastRow(done + [r], k) == LastRow(done, k)
  {
    RowsSnoc(done, r);
  }

  /** The state of the first loop after the rows `done`. */
  ghost predicate Created(loaded: map<string, Module>, keys: seq<string>, done: seq<ModuleRow>)
    reads loaded.Values
  {
    && keys == Unique(Ids(done))
    && loaded.Keys == KnownIds(done)
    && Injective(loaded)
    && (forall k :: k in loaded ==>
          Built(loaded[k], LastRow(done, k))
          && loaded[k].mutualExclusions == {} && loaded[k].requirements == {})
  }

  /** One step of the first loop: a new object for the row, replacing any earlier one of its id. */
  method CreateModule(loaded: map<string, Module>, keys: seq<string>, ghost done: seq<ModuleRow>, r: ModuleRow)
    returns (loaded': map<string, Module>, keys': seq<string>)
    requires Created(loaded, keys, done)
    ensures Created(loaded', keys', done + [r])
    ensures forall k :: k in loaded' ==> fresh(loaded'[k]) || (k in loaded && loaded'[k] == loaded[k])
  {
    var m := new Module(r.id, r.name, r.credits, r.semester, r.group, r.capacity, r.availableSpaces, {}, {});
    keys' := if r.id in loaded then keys else keys + [r.id];
    loaded' := loaded[r.id := m];
    CreatedSnoc(loaded, keys, done, r, m);
  }

  /** Putting a new object built from row `r` under its id extends the state by that row. */
  lemma CreatedSnoc(loaded: map<string, Module>, keys: seq<string>, done: seq<ModuleRow>, r: ModuleRow, m: Module)
    requires Created(loaded, keys, done)
    requires Built(m, r) && m.mutualExclusions == {} && m.requirements == {}
    requires forall k :: k in loaded ==> loaded[k] != m
    ensures Created(loaded[r.id := m], if r.id in loaded then keys else keys + [r.id], done + [r])
  {
    KeysSnoc(keys, done, r);
    BuiltSnoc(loaded, done, r, m);
    InjectiveSnoc(loaded, r.id, m);
  }

  /** Every object still carries the last row of its id, the new one included. */
  lemma BuiltSnoc(loaded: map<string, Module>, done: seq<ModuleRow>, r: ModuleRow, m: Module)
    requires loaded.Keys == KnownIds(done)
    requires forall k :: k in loaded ==>
      Built(loaded[k], LastRow(done, k)) && loaded[k].mutualExclusions == {} && loaded[k].requirements == {}
    requires Built(m, r) && m.mutualExclusions == {} && m.requirements == {}
    ensures forall k :: k in loaded[r.id := m] ==>
      Built(loaded[r.id := m][k], LastRow(done + [r], k))
      && loaded[r.id := m][k].mutualExclusions == {} && loaded[r.id := m][k].requirements == {}
  {
    LastRowSnoc(done, r);
    var loaded' := loaded[r.id := m];
    forall k | k in loaded'
      ensures Built(loaded'[k], LastRow(done + [r], k))
      ensures loaded'[k].mutualExclusions == {} && loaded'[k].requirements == {}
    {
      if k != r.id {
        assert loaded'[k] == loaded[k] && LastRow(done + [r], k) == LastRow(done, k);
      }
    }
  }

  /** A new object keeps the map injective. */
  lemma InjectiveSnoc(loaded: map<string, Module>, id: string, m: Module)
    requires Injective(loaded)
    requires forall k :: k in loaded ==> loaded[k] != m
    ensures Injective(loaded[id := m])
  {
    var loaded' := loaded[id := m];
    forall a, b | a in loaded' && b in loaded' && loaded'[a] == loaded'[b] ensures a == b {
      if a != id && b != id {
        assert loaded[a] == loaded[b];
      }
    }
  }

  /** The first loop: one fresh, unlinked Module per distinct id, built from its last row. */
  method CreateModules(rows: seq<ModuleRow>) returns (loaded: map<string, Module>, keys: seq<string>)
    ensures Created(loaded, keys, rows)
    ensures forall k :: k in loaded ==> fresh(loaded[k])
  {
    loaded := map[];
    keys := [];
    for i := 0 to |rows|
      invariant Created(loaded, keys, rows[..i])
      invariant forall k :: k in loaded ==> fresh(loaded[k])
    {
      PrefixSnoc(rows, i);
      loaded, keys := CreateModule(loaded, keys, rows[..i], rows[i]);
    }
    PrefixAll(rows);
  }

  /** The state of the second loop after the listings `exc` and `req`. */
  ghost predicate Linking(loaded: map<string, Module>, exc: seq<Listing>, req: seq<Listing>,
                          requiredNotFound: set<string>, excludedNotFound: set<string>)
    reads loaded.Values
  {
    && ExclusionsAre(loaded, exc) && RequirementsAre(loaded, req)
    && requiredNotFound == NotFound(req, loaded.Keys)
    && excludedNotFound == NotFound(exc, loaded.Keys)
  }

  /** The exclusions one listing adds; requirements and spaces stay as they are. */
  method LinkListedExclusions(loaded: map<string, Module>, ghost exc: seq<Listing>, l: Listing) returns (notFound: set<string>)
    requires l.owner in loaded && Injective(loaded)
    requires ExclusionsAre(loaded, exc)
    modifies loaded.Values
    ensures ExclusionsAre(loaded, exc + [l])
    ensures notFound == set x | x in l.ids && x !in loaded
    ensures forall x :: x in loaded ==>
      loaded[x].requirements == old(loaded[x].requirements) && loaded[x].availableSpaces == old(loaded[x].availableSpaces)
  {
    TargetsSourcesSnoc(loaded, exc, l);
    notFound := LinkExclusions(loaded, l.owner, l.ids);
  }

  /** The requirements one listing adds; exclusions and spaces stay as they are. */
  method LinkListedRequirements(loaded: map<string, Module>, ghost req: seq<Listing>, l: Listing) returns (notFound: set<string>)
    requires l.owner in loaded && Injective(loaded)
    requires RequirementsAre(loaded, req)
    modifies loaded.Values
    ensures RequirementsAre(loaded, req + [l])
    ensures notFound == set x | x in l.ids && x !in loaded
    ensures forall x :: x in loaded ==>
      loaded[x].mutualExclusions == old(loaded[x].mutualExclusions) && loaded[x].availableSpaces == old(loaded[x].availableSpaces)
  {
    TargetsSourcesSnoc(loaded, req, l);
    notFound := LinkRequirements(loaded, l.owner, l.ids);
  }

  /** One step of the second loop: the links one row lists, and its unknown ids. */
  method LinkRow(loaded: map<string, Module>, ghost exc: seq<Listing>, ghost req: seq<Listing>, r: ModuleRow,
                 requiredNotFound: set<string>, excludedNotFound: set<string>)
    returns (requiredNotFound': set<string>, excludedNotFound': set<string>)
    requires r.id in loaded && Injective(loaded)
    requires Linking(loaded, exc, req, requiredNotFound, excludedNotFound)
    modifies loaded.Values
    ensures Linking(loaded, exc + [Listing(r.id, ListedIds(r, Exclusion))], req + [Listing(r.id, ListedIds(r, Requirement))],
                    requiredNotFound', excludedNotFound')
    ensures forall k :: k in loaded ==> loaded[k].availableSpaces == old(loaded[k].availableSpaces)
  {
    var e := Listing(r.id, ListedIds(r, Exclusion));
    var q := Listing(r.id, ListedIds(r, Requirement));
    NotFoundSnoc(req, q, loaded.Keys);
    NotFoundSnoc(exc, e, loaded.Keys);
    var excNF := LinkListedExclusions(loaded, exc, e);
    var reqNF := LinkListedRequirements(loaded, req, q);
    requiredNotFound' := requiredNotFound + reqNF;
    excludedNotFound' := excludedNotFound + excNF;
  }

  /** The second loop: every row's listed ids become links or land in a not-found set. */
  method LinkAll(loaded: map<string, Module>, rows: seq<ModuleRow>)
    returns (requiredNotFound: set<string>, excludedNotFound: set<string>)
    requires loaded.Keys == KnownIds(rows) && Injective(loaded)
    requires forall k :: k in loaded ==> loaded[k].mutualExclusions == {} && loaded[k].requirements == {}
    modifies loaded.Values
    ensures Linking(loaded, Listings(rows, Exclusion), Listings(rows, Requirement), requiredNotFound, excludedNotFound)
    ensures forall k :: k in loaded ==> loaded[k].availableSpaces == old(loaded[k].availableSpaces)
  {
    requiredNotFound := {};
    excludedNotFound := {};
    ghost var exc: seq<Listing> := [];
    ghost var req: seq<Listing> := [];
    for i := 0 to |rows|
      invariant exc == Listings(rows[..i], Exclusion) && req == Listings(rows[..i], Requirement)
      invariant Linking(loaded, exc, req, requiredNotFound, excludedNotFound)
      invariant forall k :: k in loaded ==> loaded[k].availableSpaces == old(loaded[k].availableSpaces)
    {
      var r := rows[i];
      PrefixSnoc(rows, i);
      ListingsSnoc(rows[..i], r, Exclusion);
      ListingsSnoc(rows[..i], r, Requirement);
      assert r.id in KnownIds(rows);
      requiredNotFound, excludedNotFound := LinkRow(loaded, exc, req, r, requiredNotFound, excludedNotFound);
      exc := exc + [Listing(r.id, ListedIds(r, Exclusion))];
      req := req + [Listing(r.id, ListedIds(r, Requirement))];
    }
    PrefixAll(rows);
  }

  /** The per-id link sets, read back as the pairwise relations between the listed modules. */
  lemma AssembledLinks(loaded: map<string, Module>, rows: seq<ModuleRow>, keys: seq<string>, modules: seq<Module>)
    requires Injective(loaded) && loaded.Keys == KnownIds(rows)
    requires ExclusionsAre(loaded, Listings(rows, Exclusion)) && RequirementsAre(loaded, Listings(rows, Requirement))
    requires |modules| == |keys|
    requires forall k :: 0 <= k < |keys| ==> keys[k] in loaded && modules[k] == loaded[keys[k]]
    requires forall x :: x in loaded ==> x in keys
    ensures forall p, q :: 0 <= p < |modules| && 0 <= q < |modules| ==>
      (modules[q] in modules[p].mutualExclusions <==>
         Lists(Listings(rows, Exclusion), keys[p], keys[q]) || Lists(Listings(rows, Exclusion), keys[q], keys[p]))
    ensures forall p, q :: 0 <= p < |modules| && 0 <= q < |modules| ==>
      (modules[q] in modules[p].requirements <==> Lists(Listings(rows, Requirement), keys[p], keys[q]))
    ensures forall p :: 0 <= p < |modules| ==>
      (forall m :: m in modules[p].mutualExclusions ==> m in modules)
      && (forall m :: m in modules[p].requirements ==> m in modules)
  {
    var exc, req := Listings(rows, Exclusion), Listings(rows, Requirement);
    assert forall i :: 0 <= i < |exc| ==> exc[i].owner in loaded by {
      forall i | 0 <= i < |exc| ensures exc[i].owner in loaded {
        assert exc[i].owner == rows[i].id && rows[i] in rows;
      }
    }
    forall p, q | 0 <= p < |modules| && 0 <= q < |modules|
      ensures modules[q] in modules[p].mutualExclusions <==> Lists(exc, keys[p], keys[q]) || Lists(exc, keys[q], keys[p])
      ensures modules[q] in modules[p].requirements <==> Lists(req, keys[p], keys[q])
    {
      TargetsMeaning(loaded, exc, keys[p], keys[q]);
      TargetsMeaning(loaded, req, keys[p], keys[q]);
      SourcesMeaning(loaded, exc, keys[p], keys[q]);
    }
    forall p | 0 <= p < |modules|
      ensures forall m :: m in modules[p].mutualExclusions ==> m in modules
      ensures forall m :: m in modules[p].requirements ==> m in modules
    {
      LinksLoaded(loaded, exc, keys[p]);
      LinksLoaded(loaded, req, keys[p]);
      forall m | m in loaded.Values ensures m in modules {
        var x :| x in loaded && loaded[x] == m;
        var k :| 0 <= k < |keys| && keys[k] == x;
        assert modules[k] == m;
      }
    }
  }

  /**
   * Module `q` is in `p`'s exclusions exactly when either one lists the other, and
   * in `p`'s requirements exactly when `p` lists `q`; no link leads outside `modules`.
   */
  ghost predicate LinkedAsListed(rows: seq<ModuleRow>, modules: seq<Module>)
    reads modules
  {
    && (forall p, q :: 0 <= p < |modules| && 0 <= q < |modules| ==>
          (modules[q] in modules[p].mutualExclusions <==>
             Lists(Listings(rows, Exclusion), modules[p].id, modules[q].id)
             || Lists(Listings(rows, Exclusion), modules[q].id, modules[p].id)))
    && (forall p, q :: 0 <= p < |modules| && 0 <= q < |modules| ==>
          (modules[q] in modules[p].requirements <==> Lists(Listings(rows, Requirement), modules[p].id, modules[q].id)))
    && (forall p :: 0 <= p < |modules| ==>
          (forall m :: m in modules[p].mutualExclusions ==> m in modules)
          && (forall m :: m in modules[p].requirements ==> m in modules))
  }

  /** Everything the loader promises about its result, from the state its two loops leave. */
  lemma Formatted(loaded: map<string, Module>, rows: seq<ModuleRow>, keys: seq<string>, modules: seq<Module>)
    requires keys == Unique(Ids(rows)) && loaded.Keys == KnownIds(rows) && Injective(loaded)
    requires forall k :: k in loaded ==> loaded[k].id == k
    requires ExclusionsAre(loaded, Listings(rows, Exclusion)) && RequirementsAre(loaded, Listings(rows, Requirement))
    requires |modules| == |keys| && forall k :: 0 <= k < |keys| ==> keys[k] in loaded && modules[k] == loaded[keys[k]]
    ensures modules != [] <==> rows != []
    ensures Distinct(modules)
    ensures forall k :: 0 <= k < |modules| ==> modules[k].id == keys[k]
    ensures LinkedAsListed(rows, modules)
    ensures ExclusionSymmetric(set m | m in modules)
  {
    IdsAreKnown(rows);
    assert forall k :: 0 <= k < |keys| ==> modules[k].id == keys[k];
    forall i, j | 0 <= i < j < |modules| ensures modules[i] != modules[j] {
      assert keys[i] != keys[j];
    }
    AssembledLinks(loaded, rows, keys, modules);
    assert rows != [] ==> rows[0].id in Ids(rows);
  }

  /**
   * One Module per distinct id (first-appearance order, fields from the id's last
   * row); exclusion links exactly the listed pairs in both directions, requirement
   * links exactly the listed pairs in the listed direction; the unknown ids
   * collected per relation; the distinct groups and semesters in row order.
   * `ListsLinked` and `NotFoundMeaning` read the listings back in terms of the rows.
   */
  method GetFormattedModuleData(rows: seq<ModuleRow>)
    returns (modules: seq<Module>, groups: seq<string>, semesters: seq<int>,
             requiredNotFound: set<string>, excludedNotFound: set<string>)
    ensures |modules| == |Unique(Ids(rows))|
    ensures forall k :: 0 <= k < |modules| ==> fresh(modules[k]) && modules[k].id == Unique(Ids(rows))[k]
    ensures modules != [] <==> rows != []
    ensures Distinct(modules)
    ensures forall k :: 0 <= k < |modules| ==>
      modules[k].id in KnownIds(rows) && Built(modules[k], LastRow(rows, modules[k].id))
    ensures LinkedAsListed(rows, modules)
    ensures ExclusionSymmetric(set m | m in modules)
    ensures requiredNotFound == NotFound(Listings(rows, Requirement), KnownIds(rows))
    ensures excludedNotFound == NotFound(Listings(rows, Exclusion), KnownIds(rows))
    ensures groups == Unique(GroupColumn(rows)) && semesters == Unique(SemesterColumn(rows))
  {
    var loaded, keys := CreateModules(rows);
    requiredNotFound, excludedNotFound := LinkAll(loaded, rows);
    IdsAreKnown(rows);
    modules := seq(|keys|, k requires 0 <= k < |keys| => loaded[keys[k]]);
    Formatted(loaded, rows, keys, modules);
    groups := Unique(GroupColumn(rows));
    semesters := Unique(SemesterColumn(rows));
  }
}
