/**
 * The year tables of the SQLite catalogue (`years`, `categories`, `films`,
 * `film_years`, `nominations`, `default_seen`) as values, with the statements
 * that both the year importer and the seeder issue on them.
 *
 * Rows are kept in rowid order, so a `SELECT ... fetchone()` without `ORDER BY`
 * returns the earliest matching row. Foreign keys are enforced
 * (`PRAGMA foreign_keys = ON`).
 */
module Catalog {
  import opened Wrappers
  import opened YearData

  datatype CategoryRow = CategoryRow(id: nat, year: int, name: string, yearStarted: Option<int>, yearEnded: Option<int>)

  datatype FilmRow = FilmRow(id: string, title: string, externalId: Option<string>)

  datatype NominationRow = NominationRow(id: nat, year: int, categoryId: nat, filmId: string, nominee: string)

  datatype Tables = Tables(
    years: map<int, string>,
    categories: seq<CategoryRow>,
    nextCategoryId: nat,
    films: seq<FilmRow>,
    filmYears: map<(int, string), Availability>,
    nominations: seq<NominationRow>,
    nextNominationId: nat,
    defaultSeen: set<(int, string)>)

  /** What makes a statement raise, so that the whole transaction is rolled back. */
  datatype TableError =
    | MissingValue(key: string)          // a KeyError on a required key, or a null where a string is needed
    | NotIterable(key: string)           // iterating over a null list
    | UnknownCategoryName(name: string)  // a KeyError in `category_id_by_name`
    | UnknownSourceId(filmId: string)    // a KeyError in `source_to_canonical`
    | DuplicateSeen(filmId: string)      // PRIMARY KEY(year, film_id) of `default_seen`
    | NoSuchFilm(filmId: string)         // the FOREIGN KEY of `default_seen.film_id`
    | BadYearKey(key: string)            // `int(year_key)` raised
    | NotADict(key: string)              // subscripting a value under `key` that is not an object
    | ExternalIdInUse(externalId: string) // the UNIQUE index `idx_films_external_id`

  // ---------------------------------------------------------------- keys and ids

  /** AUTOINCREMENT ids grow with rowid and stay below the next one; (year, name) is UNIQUE. */
  predicate CategoriesValid(cats: seq<CategoryRow>, nextId: nat) {
    (forall i, j :: 0 <= i < j < |cats| ==> cats[i].id < cats[j].id)
    && (forall i :: 0 <= i < |cats| ==> cats[i].id < nextId)
    && (forall i, j :: 0 <= i < j < |cats| ==> !(cats[i].year == cats[j].year && cats[i].name == cats[j].name))
  }

  /** A non-empty external id: the only kind the partial index `idx_films_external_id` holds. */
  predicate Indexed(e: Option<string>) {
    e.Some? && e.value != ""
  }

  /** `films.id` is the PRIMARY KEY, and the UNIQUE index on `external_id`, restricted to
      non-null, non-empty values, admits each such value on one row only. */
  predicate FilmsValid(films: seq<FilmRow>) {
    && (forall i, j :: 0 <= i < j < |films| ==> films[i].id != films[j].id)
    && (forall i, j :: 0 <= i < j < |films| && Indexed(films[i].externalId) ==> films[i].externalId != films[j].externalId)
  }

  predicate Valid(t: Tables) {
    CategoriesValid(t.categories, t.nextCategoryId) && FilmsValid(t.films)
  }

  /** A freshly created database; SQLite's AUTOINCREMENT hands out 1 first. */
  const EmptyTables := Tables(map[], [], 1, [], map[], [], 1, {})

  /** The first category row of `year` named `name`, or the row count when there is none. */
  function CategoryIndex(cats: seq<CategoryRow>, year: int, name: string): (i: nat)
    ensures i <= |cats|
    ensures i < |cats| ==> cats[i].year == year && cats[i].name == name
    ensures forall j :: 0 <= j < i ==> !(cats[j].year == year && cats[j].name == name)
  {
    if |cats| == 0 then 0
    else if cats[0].year == year && cats[0].name == name then 0
    else 1 + CategoryIndex(cats[1..], year, name)
  }

  /** `SELECT id FROM categories WHERE year = ? AND name = ?`. */
  function CategoryIdOf(cats: seq<CategoryRow>, year: int, name: string): Option<nat> {
    var i := CategoryIndex(cats, year, name);
    if i < |cats| then Some(cats[i].id) else None
  }

  function CategoryKeys(cats: seq<CategoryRow>): set<(int, string)> {
    set i | 0 <= i < |cats| :: (cats[i].year, cats[i].name)
  }

  /** The ids of the rows of one year. */
  function CategoryIdsOfYear(cats: seq<CategoryRow>, year: int): set<nat> {
    set i | 0 <= i < |cats| && cats[i].year == year :: cats[i].id
  }

  /** Two tables with the same keys row by row answer every lookup alike. */
  lemma CategoryIndexSameKeys(a: seq<CategoryRow>, b: seq<CategoryRow>, year: int, name: string)
    requires |a| == |b|
    requires forall k :: 0 <= k < |a| ==> a[k].year == b[k].year && a[k].name == b[k].name
    ensures CategoryIndex(a, year, name) == CategoryIndex(b, year, name)
  {
  }

  /** Appending a row changes no lookup that already succeeded. */
  lemma CategoryIndexAppend(a: seq<CategoryRow>, row: CategoryRow, year: int, name: string)
    ensures var i := CategoryIndex(a + [row], year, name);
            if CategoryIndex(a, year, name) < |a| then i == CategoryIndex(a, year, name)
            else i == if row.year == year && row.name == name then |a| else |a| + 1
  {
    var s := a + [row];
    assert forall k :: 0 <= k < |a| ==> s[k] == a[k];
    assert s[|a|] == row;
  }

  /** With unique keys, the row with a given key is the one the lookup finds. */
  lemma CategoryIndexUnique(cats: seq<CategoryRow>, nextId: nat, k: nat)
    requires CategoriesValid(cats, nextId) && k < |cats|
    ensures CategoryIndex(cats, cats[k].year, cats[k].name) == k
  {
  }

  // ---------------------------------------------------------------- statements on the tables

  /** `INSERT INTO years ... ON CONFLICT(year) DO UPDATE SET label`. */
  function UpsertYear(t: Tables, year: int, yearLabel: string): Tables {
    t.(years := t.years[year := yearLabel])
  }

  /** `INSERT INTO categories ... ON CONFLICT(year, name) DO UPDATE SET year_started, year_ended`. */
  function UpsertCategory(t: Tables, year: int, name: string, yearStarted: Option<int>, yearEnded: Option<int>): (r: Tables)
    ensures CategoryIdOf(r.categories, year, name).Some?
  {
    var i := CategoryIndex(t.categories, year, name);
    if i < |t.categories| then
      CategoryIndexSameKeys(t.categories[i := t.categories[i].(yearStarted := yearStarted, yearEnded := yearEnded)], t.categories, year, name);
      t.(categories := t.categories[i := t.categories[i].(yearStarted := yearStarted, yearEnded := yearEnded)])
    else
      CategoryIndexAppend(t.categories, CategoryRow(t.nextCategoryId, year, name, yearStarted, yearEnded), year, name);
      t.(categories := t.categories + [CategoryRow(t.nextCategoryId, year, name, yearStarted, yearEnded)],
         nextCategoryId := t.nextCategoryId + 1)
  }

  /** Rewriting the years of a row keeps every key, id and lookup. */
  lemma SetCategoryYears(cats: seq<CategoryRow>, nextId: nat, i: nat, yearStarted: Option<int>, yearEnded: Option<int>)
    requires CategoriesValid(cats, nextId) && i < |cats|
    ensures var c := cats[i := cats[i].(yearStarted := yearStarted, yearEnded := yearEnded)];
            && CategoriesValid(c, nextId)
            && CategoryKeys(c) == CategoryKeys(cats)
            && forall y, n :: CategoryIdOf(c, y, n) == CategoryIdOf(cats, y, n)
  {
    var c := cats[i := cats[i].(yearStarted := yearStarted, yearEnded := yearEnded)];
    forall y, n ensures CategoryIndex(c, y, n) == CategoryIndex(cats, y, n) {
      CategoryIndexSameKeys(c, cats, y, n);
    }
    forall x | x in CategoryKeys(cats) ensures x in CategoryKeys(c) {
      var k :| 0 <= k < |cats| && x == (cats[k].year, cats[k].name);
      assert x == (c[k].year, c[k].name);
    }
  }

  /** Appending a row under a new key with the next id keeps the table valid and
      answers the new key with that id and every other key as before. */
  lemma AppendCategory(cats: seq<CategoryRow>, nextId: nat, year: int, name: string, yearStarted: Option<int>, yearEnded: Option<int>)
    requires CategoriesValid(cats, nextId) && CategoryIndex(cats, year, name) == |cats|
    ensures var c := cats + [CategoryRow(nextId, year, name, yearStarted, yearEnded)];
            && CategoriesValid(c, nextId + 1)
            && CategoryKeys(c) == CategoryKeys(cats) + {(year, name)}
            && CategoryIdOf(c, year, name) == Some(nextId)
            && forall y, n :: !(y == year && n == name) ==> CategoryIdOf(c, y, n) == CategoryIdOf(cats, y, n)
  {
    var row := CategoryRow(nextId, year, name, yearStarted, yearEnded);
    var c := cats + [row];
    forall y, n ensures (y == year && n == name) || CategoryIdOf(c, y, n) == CategoryIdOf(cats, y, n) {
      CategoryIndexAppend(cats, row, y, n);
    }
    CategoryIndexAppend(cats, row, year, name);
    forall x | x in CategoryKeys(cats) ensures x in CategoryKeys(c) {
      var k :| 0 <= k < |cats| && x == (cats[k].year, cats[k].name);
      assert x == (c[k].year, c[k].name);
    }
    assert (year, name) == (c[|cats|].year, c[|cats|].name);
  }

  /** The upsert keeps the keys unique, adds exactly its own key, keeps the id of an
      existing row, changes no other lookup and touches no other table. */
  lemma UpsertCategoryEffect(t: Tables, year: int, name: string, yearStarted: Option<int>, yearEnded: Option<int>)
    requires CategoriesValid(t.categories, t.nextCategoryId)
    ensures var r := UpsertCategory(t, year, name, yearStarted, yearEnded);
            && CategoriesValid(r.categories, r.nextCategoryId)
            && r == t.(categories := r.categories, nextCategoryId := r.nextCategoryId)
            && CategoryKeys(r.categories) == CategoryKeys(t.categories) + {(year, name)}
            && (forall y, n :: !(y == year && n == name) ==> CategoryIdOf(r.categories, y, n) == CategoryIdOf(t.categories, y, n))
            && (CategoryIdOf(t.categories, year, name).Some? ==> CategoryIdOf(r.categories, year, name) == CategoryIdOf(t.categories, year, name))
            && (var i := CategoryIndex(r.categories, year, name);
                r.categories[i].yearStarted == yearStarted && r.categories[i].yearEnded == yearEnded)
  {
    var i := CategoryIndex(t.categories, year, name);
    if i < |t.categories| {
      SetCategoryYears(t.categories, t.nextCategoryId, i, yearStarted, yearEnded);
      CategoryIndexSameKeys(t.categories[i := t.categories[i].(yearStarted := yearStarted, yearEnded := yearEnded)], t.categories, year, name);
    } else {
      AppendCategory(t.categories, t.nextCategoryId, year, name, yearStarted, yearEnded);
      CategoryIndexAppend(t.categories, CategoryRow(t.nextCategoryId, year, name, yearStarted, yearEnded), year, name);
    }
  }

  function FilmIndex(films: seq<FilmRow>, id: string): (i: nat)
    ensures i <= |films|
    ensures i < |films| ==> films[i].id == id
    ensures forall j :: 0 <= j < i ==> films[j].id != id
  {
    if |films| == 0 then 0 else if films[0].id == id then 0 else 1 + FilmIndex(films[1..], id)
  }

  /** `SELECT id FROM films WHERE external_id = ?` */
  function ExternalIdIndex(films: seq<FilmRow>, externalId: string): (i: nat)
    ensures i <= |films|
    ensures i < |films| ==> films[i].externalId == Some(externalId)
    ensures forall j :: 0 <= j < i ==> films[j].externalId != Some(externalId)
  {
    if |films| == 0 then 0
    else if films[0].externalId == Some(externalId) then 0
    else 1 + ExternalIdIndex(films[1..], externalId)
  }

  /** `SELECT id FROM films WHERE title = ?` */
  function TitleIndex(films: seq<FilmRow>, title: string): (i: nat)
    ensures i <= |films|
    ensures i < |films| ==> films[i].title == title
    ensures forall j :: 0 <= j < i ==> films[j].title != title
  {
    if |films| == 0 then 0 else if films[0].title == title then 0 else 1 + TitleIndex(films[1..], title)
  }

  function FilmIds(films: seq<FilmRow>): set<string> {
    set i | 0 <= i < |films| :: films[i].id
  }

  /** `COALESCE(NULLIF(films.external_id, ''), excluded.external_id)`. */
  function KeptExternalId(stored: Option<string>, given: string): Option<string> {
    if stored.Some? && stored.value != "" then stored else Some(given)
  }

  /** The external id the film upsert leaves on the row of its id (`i < |films|`, the
      DO UPDATE branch) or on the row it inserts. */
  function WrittenExternalId(films: seq<FilmRow>, i: nat, given: string): Option<string> {
    if i < |films| then KeptExternalId(films[i].externalId, given) else Some(given)
  }

  /** The unique index refuses `e` on row `i` (or on a new row, `i == |films|`) when
      `e` is non-empty and some other row already holds it. */
  predicate ExternalIdTaken(films: seq<FilmRow>, i: nat, e: Option<string>) {
    Indexed(e) && exists j :: 0 <= j < |films| && j != i && films[j].externalId == e
  }

  /** `INSERT INTO films ... ON CONFLICT(id) DO UPDATE SET title, external_id = COALESCE(...)`.
      The conflict target is the id only, so a clash on the external-id index raises
      IntegrityError, which rolls the transaction back. */
  function UpsertFilm(films: seq<FilmRow>, id: string, title: string, externalId: string): Result<seq<FilmRow>, TableError> {
    var i := FilmIndex(films, id);
    var e := WrittenExternalId(films, i, externalId);
    if ExternalIdTaken(films, i, e) then Err(ExternalIdInUse(e.value))
    else if i < |films| then Ok(films[i := FilmRow(id, title, e)])
    else Ok(films + [FilmRow(id, title, e)])
  }

  /** The film upsert fails exactly when the index already holds the external id it
      would write on another row. Otherwise it leaves one row with that id, carrying
      the new title, keeps the primary key and the index unique, never overwrites a
      non-empty stored external id, leaves every other row where it was, and
      removes no film. */
  lemma UpsertFilmEffect(films: seq<FilmRow>, id: string, title: string, externalId: string)
    requires FilmsValid(films)
    ensures var i := FilmIndex(films, id);
            var e := WrittenExternalId(films, i, externalId);
            UpsertFilm(films, id, title, externalId).Err?
            <==> Indexed(e) && exists j :: 0 <= j < |films| && j != i && films[j].externalId == e
    ensures UpsertFilm(films, id, title, externalId).Err? ==>
              UpsertFilm(films, id, title, externalId).error == ExternalIdInUse(WrittenExternalId(films, FilmIndex(films, id), externalId).value)
    ensures UpsertFilm(films, id, title, externalId).Ok? ==>
            var r := UpsertFilm(films, id, title, externalId).value;
            var i := FilmIndex(films, id);
            && FilmsValid(r)
            && FilmIds(r) == FilmIds(films) + {id}
            && |films| <= |r| <= |films| + 1
            && (forall j :: 0 <= j < |films| && j != i ==> r[j] == films[j])
            && FilmIndex(r, id) == i && i < |r|
            && r[i].title == title
            && r[i].externalId == (if i < |films| then KeptExternalId(films[i].externalId, externalId) else Some(externalId))
  {
    var i := FilmIndex(films, id);
    var e := WrittenExternalId(films, i, externalId);
    if !ExternalIdTaken(films, i, e) {
      if i < |films| {
        UpsertFilmExisting(films, i, FilmRow(id, title, e));
      } else {
        UpsertFilmNew(films, FilmRow(id, title, e));
      }
    }
  }

  /** Overwriting the row of an id with a row of the same id. */
  lemma UpsertFilmExisting(films: seq<FilmRow>, i: nat, row: FilmRow)
    requires FilmsValid(films) && i < |films| && row.id == films[i].id
    requires forall j :: 0 <= j < i ==> films[j].id != row.id
    requires !ExternalIdTaken(films, i, row.externalId)
    ensures var r := films[i := row];
            FilmsValid(r) && FilmIds(r) == FilmIds(films) && FilmIndex(r, row.id) == i
  {
    var r := films[i := row];
    assert FilmIds(r) == FilmIds(films) by {
      forall x | x in FilmIds(films) ensures x in FilmIds(r) {
        var k :| 0 <= k < |films| && x == films[k].id;
        assert x == r[k].id;
      }
      forall x | x in FilmIds(r) ensures x in FilmIds(films) {
        var k :| 0 <= k < |r| && x == r[k].id;
        assert x == films[k].id;
      }
    }
    forall a, b | 0 <= a < b < |r| && Indexed(r[a].externalId) ensures r[a].externalId != r[b].externalId {
      if a == i {
        assert films[b] == r[b];
      } else if b == i {
        assert films[a] == r[a];
      }
    }
    FilmIndexAt(r, i);
  }

  /** Appending a row whose id is not yet there. */
  lemma UpsertFilmNew(films: seq<FilmRow>, row: FilmRow)
    requires FilmsValid(films) && forall j :: 0 <= j < |films| ==> films[j].id != row.id
    requires !ExternalIdTaken(films, |films|, row.externalId)
    ensures var r := films + [row];
            FilmsValid(r) && FilmIds(r) == FilmIds(films) + {row.id} && FilmIndex(r, row.id) == |films|
  {
    var r := films + [row];
    assert FilmIds(r) == FilmIds(films) + {row.id} by {
      forall x | x in FilmIds(films) ensures x in FilmIds(r) {
        var k :| 0 <= k < |films| && x == films[k].id;
        assert x == r[k].id;
      }
      assert row.id == r[|films|].id;
    }
    forall a, b | 0 <= a < b < |r| && Indexed(r[a].externalId) ensures r[a].externalId != r[b].externalId {
      assert r[a] == films[a];
      if b < |films| {
        assert r[b] == films[b];
      }
    }
    FilmIndexAt(r, |films|);
  }

  /** The first row with an id is found at its position. */
  lemma FilmIndexAt(films: seq<FilmRow>, i: nat)
    requires i < |films| && forall j :: 0 <= j < i ==> films[j].id != films[i].id
    ensures FilmIndex(films, films[i].id) == i
  {
  }

  /** `INSERT INTO film_years ... ON CONFLICT(year, film_id) DO UPDATE SET base_*`. */
  function UpsertFilmYear(t: Tables, year: int, filmId: string, a: Availability): Tables {
    t.(filmYears := t.filmYears[(year, filmId) := a])
  }

  // ---------------------------------------------------------------- the category loop

  /** The tables after the category loop, `category_id_by_name` and the names seen. */
  datatype CategoryPhase = CategoryPhase(tables: Tables, ids: map<string, nat>, names: set<string>)

  /** One iteration: upsert the category, then read back its id. */
  function CategoryStep(ph: CategoryPhase, year: int, c: CategoryIn): Result<CategoryPhase, TableError> {
    match c.name
    case None => Err(MissingValue("name"))
    case Some(name) =>
      var t := UpsertCategory(ph.tables, year, name, c.yearStarted, c.yearEnded);
      Ok(CategoryPhase(t, ph.ids[name := CategoryIdOf(t.categories, year, name).value], ph.names + {name}))
  }

  function CategoriesUpserted(t: Tables, year: int, cats: seq<CategoryIn>): Result<CategoryPhase, TableError> {
    if |cats| == 0 then Ok(CategoryPhase(t, map[], {}))
    else
      match CategoriesUpserted(t, year, cats[..|cats| - 1])
      case Err(e) => Err(e)
      case Ok(ph) => CategoryStep(ph, year, cats[|cats| - 1])
  }

  method UpsertCategories(t: Tables, year: int, cats: seq<CategoryIn>) returns (r: Result<CategoryPhase, TableError>)
    ensures r == CategoriesUpserted(t, year, cats)
  {
    var cur := t;
    var ids: map<string, nat> := map[];
    var names: set<string> := {};
    for i := 0 to |cats|
      invariant CategoriesUpserted(t, year, cats[..i]) == Ok(CategoryPhase(cur, ids, names))
    {
      assert cats[..i + 1][..i] == cats[..i];
      if cats[i].name.None? {
        CategoriesErrSticks(t, year, cats, i + 1);
        return Err(MissingValue("name"));
      }
      var name := cats[i].name.value;
      names := names + {name};
      cur := UpsertCategory(cur, year, name, cats[i].yearStarted, cats[i].yearEnded);
      ids := ids[name := CategoryIdOf(cur.categories, year, name).value];
    }
    assert cats[..|cats|] == cats;
    return Ok(CategoryPhase(cur, ids, names));
  }

  lemma {:induction false} CategoriesErrSticks(t: Tables, year: int, cats: seq<CategoryIn>, k: nat)
    requires k <= |cats| && CategoriesUpserted(t, year, cats[..k]).Err?
    ensures CategoriesUpserted(t, year, cats) == CategoriesUpserted(t, year, cats[..k])
  {
    if k < |cats| {
      var init := cats[..|cats| - 1];
      assert init[..k] == cats[..k];
      CategoriesErrSticks(t, year, init, k);
    } else {
      assert cats[..k] == cats;
    }
  }

  predicate Named(cats: seq<CategoryIn>) {
    forall k :: 0 <= k < |cats| ==> cats[k].name.Some?
  }

  function Names(cats: seq<CategoryIn>): set<string>
    requires Named(cats)
  {
    set k | 0 <= k < |cats| :: cats[k].name.value
  }

  lemma NamesAppend(cats: seq<CategoryIn>)
    requires |cats| > 0 && Named(cats)
    ensures Named(cats[..|cats| - 1])
    ensures Names(cats) == Names(cats[..|cats| - 1]) + {cats[|cats| - 1].name.value}
  {
    var init := cats[..|cats| - 1];
    forall x | x in Names(cats) ensures x in Names(init) || x == cats[|cats| - 1].name.value {
      var k :| 0 <= k < |cats| && x == cats[k].name.value;
      if k < |init| {
        assert init[k] == cats[k];
      }
    }
    forall x | x in Names(init) ensures x in Names(cats) {
      var k :| 0 <= k < |init| && x == init[k].name.value;
      assert cats[k] == init[k];
    }
    assert cats[|cats| - 1].name.value in Names(cats);
  }

  function YearKeys(year: int, names: set<string>): set<(int, string)> {
    set n | n in names :: (year, n)
  }

  /** The loop raises exactly when some category has no name. */
  lemma {:induction false} CategoriesUpsertedOk(t: Tables, year: int, cats: seq<CategoryIn>)
    ensures CategoriesUpserted(t, year, cats).Ok? <==> Named(cats)
  {
    if |cats| > 0 {
      var init := cats[..|cats| - 1];
      CategoriesUpsertedOk(t, year, init);
      assert forall k :: 0 <= k < |init| ==> init[k] == cats[k];
    }
  }

  /** After the loop the tables are still valid, only the category table changed,
      no key is lost and exactly the payload's names are added for the year. */
  lemma CategoriesUpsertedKeys(t: Tables, year: int, cats: seq<CategoryIn>)
    requires Valid(t) && CategoriesUpserted(t, year, cats).Ok?
    ensures var ph := CategoriesUpserted(t, year, cats).value;
            && Valid(ph.tables)
            && ph.tables == t.(categories := ph.tables.categories, nextCategoryId := ph.tables.nextCategoryId)
            && Named(cats) && ph.names == Names(cats)
            && ph.ids.Keys == ph.names
            && CategoryKeys(ph.tables.categories) == CategoryKeys(t.categories) + YearKeys(year, ph.names)
  {
    CategoriesUpsertedNames(t, year, cats);
    CategoriesUpsertedTable(t, year, cats);
  }

  /** The names the loop collects, and the keys of its id map. */
  lemma {:induction false} CategoriesUpsertedNames(t: Tables, year: int, cats: seq<CategoryIn>)
    requires CategoriesUpserted(t, year, cats).Ok?
    ensures var ph := CategoriesUpserted(t, year, cats).value;
            Named(cats) && ph.names == Names(cats) && ph.ids.Keys == ph.names
  {
    CategoriesUpsertedOk(t, year, cats);
    if |cats| > 0 {
      CategoriesUpsertedOk(t, year, cats[..|cats| - 1]);
      CategoriesUpsertedNames(t, year, cats[..|cats| - 1]);
      NamesAppend(cats);
    }
  }

  /** The tables the loop leaves: valid, changed in the category table only, with one
      key added per collected name. */
  lemma {:induction false} CategoriesUpsertedTable(t: Tables, year: int, cats: seq<CategoryIn>)
    requires Valid(t) && CategoriesUpserted(t, year, cats).Ok?
    ensures var ph := CategoriesUpserted(t, year, cats).value;
            && Valid(ph.tables)
            && ph.tables == t.(categories := ph.tables.categories, nextCategoryId := ph.tables.nextCategoryId)
            && CategoryKeys(ph.tables.categories) == CategoryKeys(t.categories) + YearKeys(year, ph.names)
  {
    if |cats| > 0 {
      var init := cats[..|cats| - 1];
      var c := cats[|cats| - 1];
      CategoriesUpsertedTable(t, year, init);
      var ph := CategoriesUpserted(t, year, init).value;
      var name := c.name.value;
      UpsertCategoryEffect(ph.tables, year, name, c.yearStarted, c.yearEnded);
      assert YearKeys(year, ph.names + {name}) == YearKeys(year, ph.names) + {(year, name)};
    }
  }

  /** After the loop every payload name has a row of the year whose id the map
      holds, a row that existed keeps its id, and every other lookup is unchanged. */
  lemma {:induction false} CategoriesUpsertedIds(t: Tables, year: int, cats: seq<CategoryIn>)
    requires Valid(t) && CategoriesUpserted(t, year, cats).Ok?
    ensures var ph := CategoriesUpserted(t, year, cats).value;
            && (forall n :: n in ph.names ==> n in ph.ids && CategoryIdOf(ph.tables.categories, year, n) == Some(ph.ids[n]))
            && (forall n :: n in ph.names && CategoryIdOf(t.categories, year, n).Some? ==> ph.ids[n] == CategoryIdOf(t.categories, year, n).value)
            && (forall y, n :: y != year || n !in ph.names ==> CategoryIdOf(ph.tables.categories, y, n) == CategoryIdOf(t.categories, y, n))
  {
    if |cats| > 0 {
      var init := cats[..|cats| - 1];
      var c := cats[|cats| - 1];
      CategoriesUpsertedKeys(t, year, init);
      CategoriesUpsertedIds(t, year, init);
      var ph := CategoriesUpserted(t, year, init).value;
      UpsertCategoryEffect(ph.tables, year, c.name.value, c.yearStarted, c.yearEnded);
    }
  }

  // ---------------------------------------------------------------- nominations

  /** The nomination rows of one year, in rowid order. */
  function YearRows(rows: seq<NominationRow>, year: int): (r: seq<NominationRow>)
    ensures forall k :: 0 <= k < |r| ==> r[k].year == year
  {
    if |rows| == 0 then []
    else YearRows(rows[..|rows| - 1], year) + (if rows[|rows| - 1].year == year then [rows[|rows| - 1]] else [])
  }

  /** `DELETE FROM nominations WHERE year = ?`: the rows of every other year. */
  function OtherYearRows(rows: seq<NominationRow>, year: int): (r: seq<NominationRow>)
    ensures forall k :: 0 <= k < |r| ==> r[k].year != year
  {
    if |rows| == 0 then []
    else OtherYearRows(rows[..|rows| - 1], year) + (if rows[|rows| - 1].year != year then [rows[|rows| - 1]] else [])
  }

  /** A table whose rows are all of other years has no rows of this one. */
  lemma {:induction false} YearRowsOfOthers(rows: seq<NominationRow>, year: int)
    requires forall k :: 0 <= k < |rows| ==> rows[k].year != year
    ensures YearRows(rows, year) == [] && OtherYearRows(rows, year) == rows
  {
    if |rows| > 0 {
      YearRowsOfOthers(rows[..|rows| - 1], year);
    }
  }

  /** A row appended for this year shows up last among its rows and leaves the rest alone. */
  lemma AppendYearRow(rows: seq<NominationRow>, row: NominationRow, year: int)
    requires row.year == year
    ensures YearRows(rows + [row], year) == YearRows(rows, year) + [row]
    ensures OtherYearRows(rows + [row], year) == OtherYearRows(rows, year)
  {
    assert (rows + [row])[..|rows|] == rows;
  }

  /** `INSERT INTO nominations(year, category_id, film_id, nominee)`. */
  function AddNomination(t: Tables, year: int, categoryId: nat, filmId: string, nominee: string): Tables {
    t.(nominations := t.nominations + [NominationRow(t.nextNominationId, year, categoryId, filmId, nominee)],
       nextNominationId := t.nextNominationId + 1)
  }

  /** A key the nomination loop looks up: a missing or null key raises. */
  function KeyText(f: Field<string>, key: string): Result<string, TableError> {
    if f.Present? then Ok(f.value) else Err(MissingValue(key))
  }

  /** One iteration of the nomination loop. */
  function NominationStep(t: Tables, year: int, n: NominationIn, ids: map<string, nat>, canonical: map<string, string>): Result<Tables, TableError> {
    match KeyText(n.category, "category")
    case Err(e) => Err(e)
    case Ok(name) =>
      if name !in ids then Err(UnknownCategoryName(name))
      else
        match KeyText(n.filmId, "filmId")
        case Err(e) => Err(e)
        case Ok(source) =>
          if source !in canonical then Err(UnknownSourceId(source))
          else Ok(AddNomination(t, year, ids[name], canonical[source], n.nominee))
  }

  /** The year's nominations deleted, then the payload's inserted one by one. */
  function NominationsReplaced(t: Tables, year: int, noms: seq<NominationIn>, ids: map<string, nat>, canonical: map<string, string>): Result<Tables, TableError> {
    if |noms| == 0 then Ok(t.(nominations := OtherYearRows(t.nominations, year)))
    else
      match NominationsReplaced(t, year, noms[..|noms| - 1], ids, canonical)
      case Err(e) => Err(e)
      case Ok(t1) => NominationStep(t1, year, noms[|noms| - 1], ids, canonical)
  }

  method ReplaceNominations(t: Tables, year: int, noms: seq<NominationIn>, ids: map<string, nat>, canonical: map<string, string>)
    returns (r: Result<Tables, TableError>)
    ensures r == NominationsReplaced(t, year, noms, ids, canonical)
  {
    var cur := t.(nominations := OtherYearRows(t.nominations, year));
    var i := 0;
    while i < |noms|
      invariant 0 <= i <= |noms|
      invariant NominationsReplaced(t, year, noms[..i], ids, canonical) == Ok(cur)
    {
      assert noms[..i + 1][..i] == noms[..i];
      var n := noms[i];
      var failure: Option<TableError> := None;
      if !n.category.Present? {
        failure := Some(MissingValue("category"));
      } else if n.category.value !in ids {
        failure := Some(UnknownCategoryName(n.category.value));
      } else if !n.filmId.Present? {
        failure := Some(MissingValue("filmId"));
      } else if n.filmId.value !in canonical {
        failure := Some(UnknownSourceId(n.filmId.value));
      }
      if failure.Some? {
        NominationsErrSticks(t, year, noms, i + 1, ids, canonical);
        return Err(failure.value);
      }
      cur := AddNomination(cur, year, ids[n.category.value], canonical[n.filmId.value], n.nominee);
      i := i + 1;
    }
    assert noms[..|noms|] == noms;
    return Ok(cur);
  }

  /** Whether every nomination names a known category and a known source film. */
  predicate Resolvable(noms: seq<NominationIn>, ids: map<string, nat>, canonical: map<string, string>) {
    forall k :: 0 <= k < |noms| ==>
      noms[k].category.Present? && noms[k].category.value in ids
      && noms[k].filmId.Present? && noms[k].filmId.value in canonical
  }

  /** Once an iteration has raised, the loop has raised with that error. */
  lemma {:induction false} NominationsErrSticks(t: Tables, year: int, noms: seq<NominationIn>, k: nat, ids: map<string, nat>, canonical: map<string, string>)
    requires k <= |noms| && NominationsReplaced(t, year, noms[..k], ids, canonical).Err?
    ensures NominationsReplaced(t, year, noms, ids, canonical) == NominationsReplaced(t, year, noms[..k], ids, canonical)
  {
    if k < |noms| {
      var init := noms[..|noms| - 1];
      assert init[..k] == noms[..k];
      NominationsErrSticks(t, year, init, k, ids, canonical);
    } else {
      assert noms[..k] == noms;
    }
  }

  /** The replacement fails exactly when some nomination cannot be mapped. */
  lemma {:induction false} NominationsReplacedOk(t: Tables, year: int, noms: seq<NominationIn>, ids: map<string, nat>, canonical: map<string, string>)
    ensures NominationsReplaced(t, year, noms, ids, canonical).Ok? <==> Resolvable(noms, ids, canonical)
  {
    if |noms| > 0 {
      var init := noms[..|noms| - 1];
      NominationsReplacedOk(t, year, init, ids, canonical);
      assert forall k :: 0 <= k < |init| ==> init[k] == noms[k];
    }
  }

  /** After the replacement the year holds exactly the payload's nominations, in
      order, with the category mapped to its row id and the film to its canonical
      id; the rows of other years and every other table are as before. */
  lemma NominationsReplacedExactly(t: Tables, year: int, noms: seq<NominationIn>, ids: map<string, nat>, canonical: map<string, string>)
    requires NominationsReplaced(t, year, noms, ids, canonical).Ok?
    ensures var u := NominationsReplaced(t, year, noms, ids, canonical).value;
            var rows := YearRows(u.nominations, year);
            && u == t.(nominations := u.nominations, nextNominationId := u.nextNominationId)
            && OtherYearRows(u.nominations, year) == OtherYearRows(t.nominations, year)
            && |rows| == |noms|
            && forall k :: 0 <= k < |noms| ==>
                 && noms[k].category.Present? && noms[k].filmId.Present?
                 && noms[k].category.value in ids && noms[k].filmId.value in canonical
                 && rows[k].categoryId == ids[noms[k].category.value]
                 && rows[k].filmId == canonical[noms[k].filmId.value]
                 && rows[k].nominee == noms[k].nominee
  {
    NominationsReplacedFrame(t, year, noms, ids, canonical);
    NominationsReplacedRows(t, year, noms, ids, canonical);
  }

  /** Only the nomination table and its counter change; other years keep their rows,
      and the year gets one row per payload nomination. */
  lemma {:induction false} NominationsReplacedFrame(t: Tables, year: int, noms: seq<NominationIn>, ids: map<string, nat>, canonical: map<string, string>)
    requires NominationsReplaced(t, year, noms, ids, canonical).Ok?
    ensures var u := NominationsReplaced(t, year, noms, ids, canonical).value;
            && u == t.(nominations := u.nominations, nextNominationId := u.nextNominationId)
            && OtherYearRows(u.nominations, year) == OtherYearRows(t.nominations, year)
            && |YearRows(u.nominations, year)| == |noms|
  {
    if |noms| == 0 {
      YearRowsOfOthers(OtherYearRows(t.nominations, year), year);
    } else {
      var init := noms[..|noms| - 1];
      var n := noms[|noms| - 1];
      NominationsReplacedFrame(t, year, init, ids, canonical);
      var t1 := NominationsReplaced(t, year, init, ids, canonical).value;
      NominationStepOk(t1, year, n, ids, canonical);
      var row := NominationRow(t1.nextNominationId, year, ids[n.category.value], canonical[n.filmId.value], n.nominee);
      AppendYearRow(t1.nominations, row, year);
    }
  }

  /** The row stored for a payload nomination: both keys found and mapped. */
  predicate RowFor(row: NominationRow, n: NominationIn, ids: map<string, nat>, canonical: map<string, string>) {
    && n.category.Present? && n.filmId.Present?
    && n.category.value in ids && n.filmId.value in canonical
    && row.categoryId == ids[n.category.value]
    && row.filmId == canonical[n.filmId.value]
    && row.nominee == n.nominee
  }

  /** Row k of the year is payload nomination k, with its name and source id mapped. */
  lemma {:induction false} NominationsReplacedRows(t: Tables, year: int, noms: seq<NominationIn>, ids: map<string, nat>, canonical: map<string, string>)
    requires NominationsReplaced(t, year, noms, ids, canonical).Ok?
    ensures var rows := YearRows(NominationsReplaced(t, year, noms, ids, canonical).value.nominations, year);
            forall k :: 0 <= k < |noms| ==> k < |rows| && RowFor(rows[k], noms[k], ids, canonical)
  {
    if |noms| > 0 {
      var init := noms[..|noms| - 1];
      var n := noms[|noms| - 1];
      NominationsReplacedRows(t, year, init, ids, canonical);
      NominationsReplacedFrame(t, year, init, ids, canonical);
      var t1 := NominationsReplaced(t, year, init, ids, canonical).value;
      NominationStepOk(t1, year, n, ids, canonical);
      var row := NominationRow(t1.nextNominationId, year, ids[n.category.value], canonical[n.filmId.value], n.nominee);
      AppendYearRow(t1.nominations, row, year);
      var before := YearRows(t1.nominations, year);
      var rows := YearRows(NominationsReplaced(t, year, noms, ids, canonical).value.nominations, year);
      assert rows == before + [row];
      assert RowFor(row, n, ids, canonical);
      forall k | 0 <= k < |noms| ensures k < |rows| && RowFor(rows[k], noms[k], ids, canonical) {
        if k < |init| {
          assert noms[k] == init[k] && rows[k] == before[k];
        } else {
          assert noms[k] == n && rows[k] == row;
        }
      }
    }
  }

  /** A nomination step that succeeds found both keys and appended one row. */
  lemma NominationStepOk(t: Tables, year: int, n: NominationIn, ids: map<string, nat>, canonical: map<string, string>)
    requires NominationStep(t, year, n, ids, canonical).Ok?
    ensures n.category.Present? && n.filmId.Present?
    ensures n.category.value in ids && n.filmId.value in canonical
    ensures NominationStep(t, year, n, ids, canonical).value
            == AddNomination(t, year, ids[n.category.value], canonical[n.filmId.value], n.nominee)
  {
  }
}
