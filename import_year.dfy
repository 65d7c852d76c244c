/**
 * `import_year.py`: one year's payload written into the catalogue inside a single
 * transaction. Film ids are resolved to canonical ids shared across years, the
 * year's nominations and default-seen films are replaced, and with `--prune`
 * the year's films and categories that the payload no longer names are removed.
 * A payload the validator rejects is never imported.
 */
module ImportYear {
  import opened Wrappers
  import opened Text
  import opened YearData
  import opened Catalog

  // ---------------------------------------------------------------- canonical film ids

  /** `film.get('externalId')`: an absent key and `null` both read as None. */
  function RawExternalId(f: FilmIn): Option<string> {
    if f.externalId.Present? then Some(f.externalId.value) else None
  }

  /** `(external_id or '').strip()`. */
  function CleanExternalId(externalId: Option<string>): string {
    PyStrip(externalId.GetOr(""))
  }

  /** The resolver's UPDATE applies only where the stored external id is null, empty
      or the film's own id. */
  predicate Overwritable(f: FilmRow) {
    f.externalId.None? || f.externalId == Some("") || f.externalId == Some(f.id)
  }

  /** `_resolve_canonical_film_id`: the canonical id, and the films table after the
      UPDATE it may issue on a film found by title. It never changes an id or a title. */
  function Resolve(films: seq<FilmRow>, sourceId: string, title: string, externalId: Option<string>): (r: (string, seq<FilmRow>))
    ensures |r.1| == |films|
    ensures forall k :: 0 <= k < |films| ==> r.1[k].id == films[k].id && r.1[k].title == films[k].title
  {
    var ext := CleanExternalId(externalId);
    if ext != "" then
      var i := ExternalIdIndex(films, ext);
      if i < |films| then (films[i].id, films)
      else
        var j := TitleIndex(films, title);
        if j < |films| then
          (films[j].id, if Overwritable(films[j]) then films[j := films[j].(externalId := Some(ext))] else films)
        else (ext, films)
    else (sourceId, films)
  }

  /** A non-empty external id that some film carries resolves to the earliest such
      film, and nothing is written. */
  lemma ResolveByExternalId(films: seq<FilmRow>, sourceId: string, title: string, externalId: Option<string>, k: nat)
    requires CleanExternalId(externalId) != ""
    requires k < |films| && films[k].externalId == Some(CleanExternalId(externalId))
    requires forall m :: 0 <= m < k ==> films[m].externalId != Some(CleanExternalId(externalId))
    ensures Resolve(films, sourceId, title, externalId) == (films[k].id, films)
  {
  }

  /** Otherwise the earliest film with the same title supplies the id; its external
      id is set to the new one only when it was null, empty or its own id. */
  lemma ResolveByTitle(films: seq<FilmRow>, sourceId: string, title: string, externalId: Option<string>, k: nat)
    requires CleanExternalId(externalId) != ""
    requires forall m :: 0 <= m < |films| ==> films[m].externalId != Some(CleanExternalId(externalId))
    requires k < |films| && films[k].title == title
    requires forall m :: 0 <= m < k ==> films[m].title != title
    ensures var (id, after) := Resolve(films, sourceId, title, externalId);
            && id == films[k].id
            && after[k].externalId == (if Overwritable(films[k]) then Some(CleanExternalId(externalId)) else films[k].externalId)
            && forall m :: 0 <= m < |films| && m != k ==> after[m] == films[m]
  {
  }

  /** An external id that matches nothing becomes the canonical id; without one the
      source id is kept. */
  lemma ResolveUnmatched(films: seq<FilmRow>, sourceId: string, title: string, externalId: Option<string>)
    requires forall m :: 0 <= m < |films| ==> films[m].externalId != Some(CleanExternalId(externalId)) && films[m].title != title
    ensures Resolve(films, sourceId, title, externalId)
            == (if CleanExternalId(externalId) != "" then CleanExternalId(externalId) else sourceId, films)
  {
  }

  lemma ResolveWithoutExternalId(films: seq<FilmRow>, sourceId: string, title: string, externalId: Option<string>)
    requires CleanExternalId(externalId) == ""
    ensures Resolve(films, sourceId, title, externalId) == (sourceId, films)
  {
  }

  /** `(external_id or canonical_film_id)`: the raw, unstripped external id when it
      is non-empty. */
  function StoredExternalId(externalId: Option<string>, canonical: string): string {
    if externalId.Some? && externalId.value != "" then externalId.value else canonical
  }

  /** The films table after resolving and upserting one film, or the index's refusal. */
  function FilmWritten(films: seq<FilmRow>, sourceId: string, title: string, externalId: Option<string>): Result<seq<FilmRow>, TableError> {
    var r := Resolve(films, sourceId, title, externalId);
    UpsertFilm(r.1, r.0, title, StoredExternalId(externalId, r.0))
  }

  /** Resolution never changes the set of film ids and keeps the primary key and the
      external-id index: it only writes an external id that no film carries. */
  lemma ResolveKeepsIds(films: seq<FilmRow>, sourceId: string, title: string, externalId: Option<string>)
    requires FilmsValid(films)
    ensures var after := Resolve(films, sourceId, title, externalId).1;
            FilmsValid(after) && FilmIds(after) == FilmIds(films)
  {
    var after := Resolve(films, sourceId, title, externalId).1;
    forall x | x in FilmIds(films) ensures x in FilmIds(after) {
      var k :| 0 <= k < |films| && films[k].id == x;
      assert after[k].id == x;
    }
    var ext := CleanExternalId(externalId);
    if after != films {
      var j := TitleIndex(films, title);
      assert ExternalIdIndex(films, ext) == |films|;
      forall a, b | 0 <= a < b < |after| && Indexed(after[a].externalId) ensures after[a].externalId != after[b].externalId {
        if a != j && b != j {
          assert after[a] == films[a] && after[b] == films[b];
        }
      }
    }
  }

  /** The film upsert rewrites the row at the id's position and nothing else. */
  lemma UpsertFilmAt(films: seq<FilmRow>, id: string, title: string, stored: string)
    requires FilmsValid(films) && UpsertFilm(films, id, title, stored).Ok?
    ensures var w := UpsertFilm(films, id, title, stored).value;
            var p := FilmIndex(films, id);
            && p < |w| && |films| <= |w| && |w| <= |films| + 1
            && w[p].id == id && w[p].title == title
            && w[p].externalId == (if p < |films| then KeptExternalId(films[p].externalId, stored) else Some(stored))
            && (forall m :: 0 <= m < |films| && m != p ==> w[m] == films[m])
  {
    UpsertFilmEffect(films, id, title, stored);
  }

  /** Stability when the external id matched a film. */
  lemma StableByExternalId(films: seq<FilmRow>, sourceId: string, title: string, externalId: Option<string>)
    requires FilmsValid(films)
    requires CleanExternalId(externalId) != "" && ExternalIdIndex(films, CleanExternalId(externalId)) < |films|
    requires FilmWritten(films, sourceId, title, externalId).Ok?
    ensures Resolve(FilmWritten(films, sourceId, title, externalId).value, sourceId, title, externalId).0
            == Resolve(films, sourceId, title, externalId).0
  {
    var ext := CleanExternalId(externalId);
    var i := ExternalIdIndex(films, ext);
    var id := films[i].id;
    assert Resolve(films, sourceId, title, externalId) == (id, films);
    assert FilmIndex(films, id) == i;
    UpsertFilmAt(films, id, title, StoredExternalId(externalId, id));
    var w := FilmWritten(films, sourceId, title, externalId).value;
    assert w[i].externalId == Some(ext);
    assert ExternalIdIndex(w, ext) == i;
  }

  /** Stability when the title matched a film whose external id was written over. */
  lemma StableByTitle(films: seq<FilmRow>, sourceId: string, title: string, externalId: Option<string>)
    requires FilmsValid(films)
    requires CleanExternalId(externalId) != "" && ExternalIdIndex(films, CleanExternalId(externalId)) == |films|
    requires TitleIndex(films, title) < |films|
    requires FilmWritten(films, sourceId, title, externalId).Ok?
    ensures Resolve(FilmWritten(films, sourceId, title, externalId).value, sourceId, title, externalId).0
            == Resolve(films, sourceId, title, externalId).0
  {
    var ext := CleanExternalId(externalId);
    var j := TitleIndex(films, title);
    var id := films[j].id;
    var after := Resolve(films, sourceId, title, externalId).1;
    assert Resolve(films, sourceId, title, externalId).0 == id;
    ResolveKeepsIds(films, sourceId, title, externalId);
    assert FilmIndex(after, id) == j;
    UpsertFilmAt(after, id, title, StoredExternalId(externalId, id));
    var w := FilmWritten(films, sourceId, title, externalId).value;
    if Overwritable(films[j]) {
      assert w[j].externalId == Some(ext);
      assert forall m :: 0 <= m < j ==> w[m] == films[m];
      assert ExternalIdIndex(w, ext) == j;
    } else {
      assert after == films;
      assert forall m :: 0 <= m < |films| ==> w[m].externalId != Some(ext);
      assert ExternalIdIndex(w, ext) == |w|;
      assert TitleIndex(w, title) == j;
    }
  }

  /** Stability when nothing matched and the external id became the canonical id. */
  lemma StableUnmatched(films: seq<FilmRow>, sourceId: string, title: string, externalId: Option<string>)
    requires FilmsValid(films)
    requires CleanExternalId(externalId) != "" && ExternalIdIndex(films, CleanExternalId(externalId)) == |films|
    requires TitleIndex(films, title) == |films|
    requires FilmWritten(films, sourceId, title, externalId).Ok?
    ensures Resolve(FilmWritten(films, sourceId, title, externalId).value, sourceId, title, externalId).0
            == Resolve(films, sourceId, title, externalId).0
  {
    var ext := CleanExternalId(externalId);
    assert Resolve(films, sourceId, title, externalId) == (ext, films);
    var p := FilmIndex(films, ext);
    UpsertFilmAt(films, ext, title, StoredExternalId(externalId, ext));
    var w := FilmWritten(films, sourceId, title, externalId).value;
    assert forall m :: 0 <= m < |w| && m != p ==> w[m].externalId != Some(ext) && w[m].title != title;
    if ExternalIdIndex(w, ext) < |w| {
      assert ExternalIdIndex(w, ext) == p;
    } else {
      assert TitleIndex(w, title) == p;
    }
  }

  /** Importing the same film record again resolves it to the same canonical id, so
      re-running an import does not fork a film into two rows. */
  lemma ResolveStable(films: seq<FilmRow>, sourceId: string, title: string, externalId: Option<string>)
    requires FilmsValid(films)
    ensures FilmWritten(films, sourceId, title, externalId).Ok? ==>
            Resolve(FilmWritten(films, sourceId, title, externalId).value, sourceId, title, externalId).0
            == Resolve(films, sourceId, title, externalId).0
  {
    var ext := CleanExternalId(externalId);
    if ext != "" && FilmWritten(films, sourceId, title, externalId).Ok? {
      if ExternalIdIndex(films, ext) < |films| {
        StableByExternalId(films, sourceId, title, externalId);
      } else if TitleIndex(films, title) < |films| {
        StableByTitle(films, sourceId, title, externalId);
      } else {
        StableUnmatched(films, sourceId, title, externalId);
      }
    }
  }

  // ---------------------------------------------------------------- the film loop

  /** The tables after the film loop, `source_to_canonical` and `imported_film_ids`. */
  datatype FilmPhase = FilmPhase(tables: Tables, canonical: map<string, string>, imported: set<string>)

  /** One iteration: resolve the id, upsert the film, upsert its row for the year. */
  function FilmStep(ph: FilmPhase, year: int, f: FilmIn): Result<FilmPhase, TableError> {
    match KeyText(f.id, "id")
    case Err(e) => Err(e)
    case Ok(source) =>
      match KeyText(f.title, "title")
      case Err(e) => Err(e)
      case Ok(title) =>
        var raw := RawExternalId(f);
        var r := Resolve(ph.tables.films, source, title, raw);
        match UpsertFilm(r.1, r.0, title, StoredExternalId(raw, r.0))
        case Err(e) => Err(e)
        case Ok(written) =>
          Ok(FilmPhase(UpsertFilmYear(ph.tables.(films := written), year, r.0, f.availability),
                       ph.canonical[source := r.0], ph.imported + {r.0}))
  }

  function FilmsImported(t: Tables, year: int, films: seq<FilmIn>): Result<FilmPhase, TableError> {
    if |films| == 0 then Ok(FilmPhase(t, map[], {}))
    else
      match FilmsImported(t, year, films[..|films| - 1])
      case Err(e) => Err(e)
      case Ok(ph) => FilmStep(ph, year, films[|films| - 1])
  }

  method ImportFilms(t: Tables, year: int, films: seq<FilmIn>) returns (r: Result<FilmPhase, TableError>)
    ensures r == FilmsImported(t, year, films)
  {
    var cur := t;
    var canonical: map<string, string> := map[];
    var imported: set<string> := {};
    for i := 0 to |films|
      invariant FilmsImported(t, year, films[..i]) == Ok(FilmPhase(cur, canonical, imported))
    {
      assert films[..i + 1][..i] == films[..i];
      var f := films[i];
      if !f.id.Present? {
        FilmsErrSticks(t, year, films, i + 1);
        return Err(MissingValue("id"));
      }
      if !f.title.Present? {
        FilmsErrSticks(t, year, films, i + 1);
        return Err(MissingValue("title"));
      }
      var source, title, raw := f.id.value, f.title.value, RawExternalId(f);
      var id, after := Resolve(cur.films, source, title, raw).0, Resolve(cur.films, source, title, raw).1;
      var written := UpsertFilm(after, id, title, StoredExternalId(raw, id));
      if written.Err? {
        FilmsErrSticks(t, year, films, i + 1);
        return Err(written.error);
      }
      imported := imported + {id};
      canonical := canonical[source := id];
      cur := UpsertFilmYear(cur.(films := written.value), year, id, f.availability);
    }
    assert films[..|films|] == films;
    return Ok(FilmPhase(cur, canonical, imported));
  }

  lemma {:induction false} FilmsErrSticks(t: Tables, year: int, films: seq<FilmIn>, k: nat)
    requires k <= |films| && FilmsImported(t, year, films[..k]).Err?
    ensures FilmsImported(t, year, films) == FilmsImported(t, year, films[..k])
  {
    if k < |films| {
      var init := films[..|films| - 1];
      assert init[..k] == films[..k];
      FilmsErrSticks(t, year, init, k);
    } else {
      assert films[..k] == films;
    }
  }

  predicate Keyed(films: seq<FilmIn>) {
    forall k :: 0 <= k < |films| ==> films[k].id.Present? && films[k].title.Present?
  }

  /** The source ids of the payload's films. */
  function SourceIdSet(films: seq<FilmIn>): set<string>
    requires Keyed(films)
  {
    set k | 0 <= k < |films| :: films[k].id.value
  }

  /** The errors the film loop can raise: a missing id or title, or a refusal of the
      external-id index, which is the only one left when every film has both. */
  predicate FilmLoopError(e: TableError, keyed: bool) {
    if keyed then e.ExternalIdInUse? else e == MissingValue("id") || e == MissingValue("title") || e.ExternalIdInUse?
  }

  /** One step fails on a missing id or title, or on the external-id index. */
  lemma FilmStepOutcome(ph: FilmPhase, year: int, f: FilmIn)
    ensures FilmStep(ph, year, f).Ok? ==> f.id.Present? && f.title.Present?
    ensures FilmStep(ph, year, f).Err? ==> FilmLoopError(FilmStep(ph, year, f).error, f.id.Present? && f.title.Present?)
  {
  }

  /** The loop raises when some film lacks its id or its title, and otherwise only
      when the external-id index refuses a write. */
  lemma {:induction false} FilmsImportedOk(t: Tables, year: int, films: seq<FilmIn>)
    ensures FilmsImported(t, year, films).Ok? ==> Keyed(films)
    ensures FilmsImported(t, year, films).Err? ==> FilmLoopError(FilmsImported(t, year, films).error, Keyed(films))
  {
    if |films| > 0 {
      var init := films[..|films| - 1];
      var f := films[|films| - 1];
      FilmsImportedOk(t, year, init);
      assert Keyed(films) <==> Keyed(init) && f.id.Present? && f.title.Present? by {
        assert forall k :: 0 <= k < |init| ==> init[k] == films[k];
      }
      if FilmsImported(t, year, init).Ok? {
        FilmStepOutcome(FilmsImported(t, year, init).value, year, f);
      }
    }
  }

  /** One film step keeps the primary key, never removes a film, writes a row for the
      year under the canonical id, and touches no other table. */
  lemma FilmStepTables(ph: FilmPhase, year: int, f: FilmIn)
    requires FilmsValid(ph.tables.films) && FilmStep(ph, year, f).Ok?
    ensures var q := FilmStep(ph, year, f).value;
            var id := Resolve(ph.tables.films, f.id.value, f.title.value, RawExternalId(f)).0;
            && FilmsValid(q.tables.films)
            && q.tables == ph.tables.(films := q.tables.films, filmYears := q.tables.filmYears)
            && FilmIds(q.tables.films) == FilmIds(ph.tables.films) + {id}
            && q.imported == ph.imported + {id}
            && q.canonical == ph.canonical[f.id.value := id]
            && q.tables.filmYears == ph.tables.filmYears[(year, id) := f.availability]
  {
    var raw := RawExternalId(f);
    var r := Resolve(ph.tables.films, f.id.value, f.title.value, raw);
    ResolveKeepsIds(ph.tables.films, f.id.value, f.title.value, raw);
    UpsertFilmEffect(r.1, r.0, f.title.value, StoredExternalId(raw, r.0));
  }

  /** After the loop the films keep their primary key, no film was removed, every
      imported id is a film with a row for the year, the year's rows gained exactly
      the imported ids, and nothing else changed. */
  lemma {:induction false} FilmsImportedTables(t: Tables, year: int, films: seq<FilmIn>)
    requires FilmsValid(t.films) && FilmsImported(t, year, films).Ok?
    ensures var ph := FilmsImported(t, year, films).value;
            && FilmsValid(ph.tables.films)
            && ph.tables == t.(films := ph.tables.films, filmYears := ph.tables.filmYears)
            && FilmIds(t.films) <= FilmIds(ph.tables.films)
            && ph.imported <= FilmIds(ph.tables.films)
            && ph.tables.filmYears.Keys == t.filmYears.Keys + YearKeys(year, ph.imported)
            && (forall k :: k in t.filmYears && k.0 != year ==> ph.tables.filmYears[k] == t.filmYears[k])
            && (forall s :: s in ph.canonical ==> ph.canonical[s] in ph.imported)
  {
    if |films| > 0 {
      var init := films[..|films| - 1];
      FilmsImportedTables(t, year, init);
      var ph := FilmsImported(t, year, init).value;
      var f := films[|films| - 1];
      FilmStepTables(ph, year, f);
      var id := Resolve(ph.tables.films, f.id.value, f.title.value, RawExternalId(f)).0;
      assert YearKeys(year, ph.imported + {id}) == YearKeys(year, ph.imported) + {(year, id)};
    }
  }

  lemma FilmStepSources(ph: FilmPhase, year: int, f: FilmIn)
    requires FilmStep(ph, year, f).Ok?
    ensures f.id.Present? && FilmStep(ph, year, f).value.canonical.Keys == ph.canonical.Keys + {f.id.value}
  {
  }

  lemma SourceIdSetAppend(films: seq<FilmIn>)
    requires |films| > 0 && Keyed(films)
    ensures Keyed(films[..|films| - 1])
    ensures SourceIdSet(films) == SourceIdSet(films[..|films| - 1]) + {films[|films| - 1].id.value}
  {
    var init := films[..|films| - 1];
    forall x | x in SourceIdSet(films) ensures x in SourceIdSet(init) || x == films[|films| - 1].id.value {
      var k :| 0 <= k < |films| && x == films[k].id.value;
      if k < |init| { assert init[k] == films[k]; }
    }
    forall x | x in SourceIdSet(init) ensures x in SourceIdSet(films) {
      var k :| 0 <= k < |init| && x == init[k].id.value;
      assert films[k] == init[k];
    }
    assert films[|films| - 1].id.value in SourceIdSet(films);
  }

  /** `source_to_canonical` holds every source id of the payload and nothing else. */
  lemma {:induction false} FilmsImportedSources(t: Tables, year: int, films: seq<FilmIn>)
    requires FilmsImported(t, year, films).Ok?
    ensures Keyed(films) && FilmsImported(t, year, films).value.canonical.Keys == SourceIdSet(films)
  {
    FilmsImportedOk(t, year, films);
    if |films| > 0 {
      var init := films[..|films| - 1];
      FilmsImportedSources(t, year, init);
      FilmStepSources(FilmsImported(t, year, init).value, year, films[|films| - 1]);
      SourceIdSetAppend(films);
    }
  }

  /** The external-id index can refuse a payload whose non-empty external ids are
      distinct: "x" is stored with its own id as external id, "k" matches it by
      title and overwrites that with "y", and "y", which has no external id, is then
      inserted under its own id with "y" as external id. */
  lemma ExternalIdClash()
    ensures FilmsImported(EmptyTables, 2024, ClashFilms) == Err(ExternalIdInUse("y"))
  {
    var films := ClashFilms;
    assert films[..2][..1] == films[..1] && films[..1][..0] == [] && films[..3] == films;
    assert FilmsImported(EmptyTables, 2024, films[..0]) == Ok(FilmPhase(EmptyTables, map[], {}));
    ClashFirst();
    assert FilmsImported(EmptyTables, 2024, films[..1]) == Ok(ClashPhase1);
    ClashSecond();
    assert FilmsImported(EmptyTables, 2024, films[..2]) == Ok(ClashPhase2);
    ClashThird();
  }

  const NoAvailability := Availability("", "", "", "")

  const ClashFilms := [FilmIn(Present("x"), Present("T"), Missing, NoAvailability),
                       FilmIn(Present("k"), Present("T"), Present("y"), NoAvailability),
                       FilmIn(Present("y"), Present("V"), Missing, NoAvailability)]

  const ClashPhase1 := FilmPhase(EmptyTables.(films := [FilmRow("x", "T", Some("x"))],
                                              filmYears := map[(2024, "x") := NoAvailability]),
                                 map["x" := "x"], {"x"})

  const ClashPhase2 := FilmPhase(ClashPhase1.tables.(films := [FilmRow("x", "T", Some("y"))]),
                                 map["x" := "x", "k" := "x"], {"x"})

  lemma ClashFirst()
    ensures FilmStep(FilmPhase(EmptyTables, map[], {}), 2024, ClashFilms[0]) == Ok(ClashPhase1)
  {
    assert PyStrip("") == "" by { StripUnchanged("", Python); }
    var rows1 := [FilmRow("x", "T", Some("x"))];
    assert Resolve([], "x", "T", None) == ("x", []);
    assert UpsertFilm([], "x", "T", "x") == Ok(rows1) by {
      assert !ExternalIdTaken([], 0, Some("x"));
      assert [] + [FilmRow("x", "T", Some("x"))] == rows1;
    }
    var f := ClashFilms[0];
    assert f == FilmIn(Present("x"), Present("T"), Missing, NoAvailability);
    assert RawExternalId(f) == None;
    assert KeyText(f.id, "id") == Ok("x") && KeyText(f.title, "title") == Ok("T");
    assert StoredExternalId(None, "x") == "x";
    assert map[]["x" := "x"] == map["x" := "x"];
    assert map[][(2024, "x") := NoAvailability] == map[(2024, "x") := NoAvailability];
    assert UpsertFilmYear(EmptyTables.(films := rows1), 2024, "x", NoAvailability) == ClashPhase1.tables;
    var ph0 := FilmPhase(EmptyTables, map[], {});
    assert ph0.tables.films == [];
    var r := Resolve(ph0.tables.films, "x", "T", RawExternalId(f));
    assert r == ("x", []);
    assert UpsertFilm(r.1, r.0, "T", StoredExternalId(RawExternalId(f), r.0)) == Ok(rows1);
    var q := FilmPhase(UpsertFilmYear(ph0.tables.(films := rows1), 2024, "x", f.availability), ph0.canonical["x" := "x"], ph0.imported + {"x"});
    assert FilmStep(ph0, 2024, f) == Ok(q);
    assert q.tables == ClashPhase1.tables;
    assert q.canonical == ClashPhase1.canonical;
    assert q.imported == ClashPhase1.imported;
  }

  lemma ClashSecond()
    ensures FilmStep(ClashPhase1, 2024, ClashFilms[1]) == Ok(ClashPhase2)
  {
    assert PyStrip("y") == "y" by { StripUnchanged("y", Python); }
    var rows1 := [FilmRow("x", "T", Some("x"))];
    var rows2 := [FilmRow("x", "T", Some("y"))];
    assert ExternalIdIndex(rows1, "y") == 1 && TitleIndex(rows1, "T") == 0;
    assert rows1[0 := rows1[0].(externalId := Some("y"))] == rows2;
    assert Resolve(rows1, "k", "T", Some("y")) == ("x", rows2);
    assert UpsertFilm(rows2, "x", "T", "y") == Ok(rows2) by {
      assert FilmIndex(rows2, "x") == 0;
      assert !ExternalIdTaken(rows2, 0, Some("y"));
      assert rows2[0 := FilmRow("x", "T", Some("y"))] == rows2;
    }
    var f := ClashFilms[1];
    assert f == FilmIn(Present("k"), Present("T"), Present("y"), NoAvailability);
    assert RawExternalId(f) == Some("y") && StoredExternalId(Some("y"), "x") == "y";
    var ph1 := ClashPhase1;
    assert ph1.tables.films == rows1;
    var q := FilmPhase(UpsertFilmYear(ph1.tables.(films := rows2), 2024, "x", f.availability), ph1.canonical["k" := "x"], ph1.imported + {"x"});
    assert FilmStep(ph1, 2024, f) == Ok(q);
    assert ph1.tables.filmYears[(2024, "x") := NoAvailability] == ph1.tables.filmYears;
    assert q.tables == ClashPhase2.tables;
    assert q.canonical == ClashPhase2.canonical;
    assert q.imported == ClashPhase2.imported;
  }

  lemma ClashThird()
    ensures FilmStep(ClashPhase2, 2024, ClashFilms[2]) == Err(ExternalIdInUse("y"))
  {
    assert PyStrip("") == "" by { StripUnchanged("", Python); }
    var rows2 := [FilmRow("x", "T", Some("y"))];
    assert Resolve(rows2, "y", "V", None) == ("y", rows2);
    assert FilmIndex(rows2, "y") == 1;
    assert ExternalIdTaken(rows2, 1, Some("y")) by { assert rows2[0].externalId == Some("y"); }
  }

  // ---------------------------------------------------------------- default-seen films

  /** One iteration: insert the canonical id; the primary key refuses a repeat. */
  function SeenStep(t: Tables, year: int, source: string, canonical: map<string, string>): Result<Tables, TableError> {
    if source !in canonical then Err(UnknownSourceId(source))
    else if (year, canonical[source]) in t.defaultSeen then Err(DuplicateSeen(canonical[source]))
    else Ok(t.(defaultSeen := t.defaultSeen + {(year, canonical[source])}))
  }

  function OtherYearSeen(seen: set<(int, string)>, year: int): set<(int, string)> {
    set e | e in seen && e.0 != year
  }

  function YearSeen(seen: set<(int, string)>, year: int): set<string> {
    set e | e in seen && e.0 == year :: e.1
  }

  /** `DELETE FROM default_seen WHERE year = ?`, then one INSERT per entry. */
  function SeenReplaced(t: Tables, year: int, seen: seq<string>, canonical: map<string, string>): Result<Tables, TableError> {
    if |seen| == 0 then Ok(t.(defaultSeen := OtherYearSeen(t.defaultSeen, year)))
    else
      match SeenReplaced(t, year, seen[..|seen| - 1], canonical)
      case Err(e) => Err(e)
      case Ok(t1) => SeenStep(t1, year, seen[|seen| - 1], canonical)
  }

  method ReplaceDefaultSeen(t: Tables, year: int, seen: seq<string>, canonical: map<string, string>)
    returns (r: Result<Tables, TableError>)
    ensures r == SeenReplaced(t, year, seen, canonical)
  {
    var cur := t.(defaultSeen := OtherYearSeen(t.defaultSeen, year));
    for i := 0 to |seen|
      invariant SeenReplaced(t, year, seen[..i], canonical) == Ok(cur)
    {
      assert seen[..i + 1][..i] == seen[..i];
      var source := seen[i];
      if source !in canonical {
        SeenErrSticks(t, year, seen, i + 1, canonical);
        return Err(UnknownSourceId(source));
      }
      if (year, canonical[source]) in cur.defaultSeen {
        SeenErrSticks(t, year, seen, i + 1, canonical);
        return Err(DuplicateSeen(canonical[source]));
      }
      cur := cur.(defaultSeen := cur.defaultSeen + {(year, canonical[source])});
    }
    assert seen[..|seen|] == seen;
    return Ok(cur);
  }

  lemma {:induction false} SeenErrSticks(t: Tables, year: int, seen: seq<string>, k: nat, canonical: map<string, string>)
    requires k <= |seen| && SeenReplaced(t, year, seen[..k], canonical).Err?
    ensures SeenReplaced(t, year, seen, canonical) == SeenReplaced(t, year, seen[..k], canonical)
  {
    if k < |seen| {
      var init := seen[..|seen| - 1];
      assert init[..k] == seen[..k];
      SeenErrSticks(t, year, init, k, canonical);
    } else {
      assert seen[..k] == seen;
    }
  }

  predicate Mappable(seen: seq<string>, canonical: map<string, string>) {
    forall k :: 0 <= k < |seen| ==> seen[k] in canonical
  }

  /** The entries mapped through `source_to_canonical`. */
  function MappedSeen(seen: seq<string>, canonical: map<string, string>): (r: seq<string>)
    requires Mappable(seen, canonical)
    ensures |r| == |seen| && forall k :: 0 <= k < |seen| ==> r[k] == canonical[seen[k]]
  {
    seq(|seen|, k requires 0 <= k < |seen| => canonical[seen[k]])
  }

  /** After the replacement the year's default-seen films are exactly the mapped
      entries; the other years' entries and every other table are as before. */
  lemma {:induction false} SeenReplacedEffect(t: Tables, year: int, seen: seq<string>, canonical: map<string, string>)
    requires SeenReplaced(t, year, seen, canonical).Ok?
    ensures var u := SeenReplaced(t, year, seen, canonical).value;
            && Mappable(seen, canonical)
            && u == t.(defaultSeen := u.defaultSeen)
            && OtherYearSeen(u.defaultSeen, year) == OtherYearSeen(t.defaultSeen, year)
            && YearSeen(u.defaultSeen, year) == Elements(MappedSeen(seen, canonical))
  {
    if |seen| == 0 {
      var u := SeenReplaced(t, year, seen, canonical).value;
      assert YearSeen(u.defaultSeen, year) == {};
    } else {
      var init := seen[..|seen| - 1];
      SeenReplacedEffect(t, year, init, canonical);
      assert forall k :: 0 <= k < |init| ==> init[k] == seen[k];
      var u1 := SeenReplaced(t, year, init, canonical).value;
      var c := canonical[seen[|seen| - 1]];
      var u := SeenReplaced(t, year, seen, canonical).value;
      assert u.defaultSeen == u1.defaultSeen + {(year, c)};
      assert MappedSeen(seen, canonical) == MappedSeen(init, canonical) + [c];
      assert YearSeen(u.defaultSeen, year) == YearSeen(u1.defaultSeen, year) + {c};
    }
  }

  /** The replacement succeeds exactly when every entry has a canonical id and no two
      entries map to the same one. */
  lemma {:induction false} SeenReplacedOk(t: Tables, year: int, seen: seq<string>, canonical: map<string, string>)
    ensures SeenReplaced(t, year, seen, canonical).Ok?
            <==> Mappable(seen, canonical) && Distinct(MappedSeen(seen, canonical))
  {
    if |seen| > 0 {
      var init := seen[..|seen| - 1];
      var x := seen[|seen| - 1];
      SeenReplacedOk(t, year, init, canonical);
      assert forall k :: 0 <= k < |init| ==> init[k] == seen[k];
      if Mappable(seen, canonical) {
        var m := MappedSeen(init, canonical);
        assert MappedSeen(seen, canonical) == m + [canonical[x]];
        DistinctAppend(m, canonical[x]);
        if SeenReplaced(t, year, init, canonical).Ok? {
          SeenReplacedEffect(t, year, init, canonical);
          var u1 := SeenReplaced(t, year, init, canonical).value;
          assert (year, canonical[x]) in u1.defaultSeen <==> canonical[x] in YearSeen(u1.defaultSeen, year);
        }
      }
    }
  }

  // ---------------------------------------------------------------- pruning

  /** `DELETE FROM film_years WHERE year = ? AND film_id NOT IN (...)`; with nothing
      imported the statement is `DELETE FROM film_years WHERE year = ?`, which is the
      same rule for an empty set. */
  function PrunedFilmYears(filmYears: map<(int, string), Availability>, year: int, imported: set<string>): map<(int, string), Availability> {
    if imported != {} then map k | k in filmYears && (k.0 != year || k.1 in imported) :: filmYears[k]
    else map k | k in filmYears && k.0 != year :: filmYears[k]
  }

  /** The category rows that survive the prune, in rowid order. */
  function KeptCategories(cats: seq<CategoryRow>, year: int, names: set<string>): seq<CategoryRow> {
    if |cats| == 0 then []
    else
      var c := cats[|cats| - 1];
      KeptCategories(cats[..|cats| - 1], year, names) + (if c.year != year || c.name in names then [c] else [])
  }

  /** The ids of the category rows the prune deletes. */
  function DroppedCategoryIds(cats: seq<CategoryRow>, year: int, names: set<string>): set<nat> {
    set k | 0 <= k < |cats| && cats[k].year == year && cats[k].name !in names :: cats[k].id
  }

  /** `ON DELETE CASCADE` from `categories` to `nominations`. */
  function WithoutCategoryIds(rows: seq<NominationRow>, dropped: set<nat>): seq<NominationRow> {
    if |rows| == 0 then []
    else
      var n := rows[|rows| - 1];
      WithoutCategoryIds(rows[..|rows| - 1], dropped) + (if n.categoryId in dropped then [] else [n])
  }

  /** `DELETE FROM categories WHERE year = ? AND name NOT IN (...)` with its cascade;
      with no names the statement deletes every category of the year, the same rule. */
  function PrunedCategories(t: Tables, year: int, names: set<string>): Tables {
    t.(categories := KeptCategories(t.categories, year, names),
       nominations := WithoutCategoryIds(t.nominations, DroppedCategoryIds(t.categories, year, names)))
  }

  function Pruned(t: Tables, year: int, imported: set<string>, names: set<string>): Tables {
    PrunedCategories(t.(filmYears := PrunedFilmYears(t.filmYears, year, imported)), year, names)
  }

  /** A film row of the year survives exactly when its film was imported; rows of
      other years are untouched. With nothing imported, the year loses every row. */
  lemma PrunedFilmYearsKeys(filmYears: map<(int, string), Availability>, year: int, imported: set<string>)
    ensures var r := PrunedFilmYears(filmYears, year, imported);
            && (forall k :: k in r <==> k in filmYears && (k.0 != year || k.1 in imported))
            && (forall k :: k in r ==> r[k] == filmYears[k])
  {
  }

  /** A row survives the prune exactly when it is of another year or its name was imported. */
  lemma {:induction false} KeptCategoriesMembers(cats: seq<CategoryRow>, year: int, names: set<string>, r: CategoryRow)
    ensures r in KeptCategories(cats, year, names) <==> r in cats && (r.year != year || r.name in names)
  {
    if |cats| > 0 {
      var init := cats[..|cats| - 1];
      KeptCategoriesMembers(init, year, names, r);
      assert cats == init + [cats[|cats| - 1]];
    }
  }

  /** Deleting rows keeps the ids increasing and the keys unique. */
  lemma {:induction false} KeptCategoriesValid(cats: seq<CategoryRow>, nextId: nat, year: int, names: set<string>)
    requires CategoriesValid(cats, nextId)
    ensures CategoriesValid(KeptCategories(cats, year, names), nextId)
  {
    if |cats| > 0 {
      var init := cats[..|cats| - 1];
      var c := cats[|cats| - 1];
      assert CategoriesValid(init, nextId);
      KeptCategoriesValid(init, nextId, year, names);
      var k0 := KeptCategories(init, year, names);
      if c.year != year || c.name in names {
        forall k | 0 <= k < |k0| ensures k0[k].id < c.id && !(k0[k].year == c.year && k0[k].name == c.name) {
          KeptCategoriesMembers(init, year, names, k0[k]);
          var m :| 0 <= m < |init| && init[m] == k0[k];
          assert cats[m] == k0[k];
        }
        var kept := k0 + [c];
        assert KeptCategories(cats, year, names) == kept;
        assert c.id < nextId;
        assert forall k :: 0 <= k < |k0| ==> kept[k] == k0[k];
      }
    }
  }

  /** In a valid table every row is what the lookup of its key finds. */
  lemma CategoryIdOfRow(cats: seq<CategoryRow>, nextId: nat, r: CategoryRow)
    requires CategoriesValid(cats, nextId) && r in cats
    ensures CategoryIdOf(cats, r.year, r.name) == Some(r.id)
  {
    var k :| 0 <= k < |cats| && cats[k] == r;
    CategoryIndexUnique(cats, nextId, k);
  }

  /** A category row survives exactly when it is of another year or its name was
      imported, and every surviving key is looked up as before. */
  lemma KeptCategoriesKeys(cats: seq<CategoryRow>, nextId: nat, year: int, names: set<string>)
    requires CategoriesValid(cats, nextId)
    ensures var kept := KeptCategories(cats, year, names);
            && CategoriesValid(kept, nextId)
            && (forall x :: x in CategoryKeys(kept) <==> x in CategoryKeys(cats) && (x.0 != year || x.1 in names))
            && (forall y, n :: y != year || n in names ==> CategoryIdOf(kept, y, n) == CategoryIdOf(cats, y, n))
  {
    var kept := KeptCategories(cats, year, names);
    KeptCategoriesValid(cats, nextId, year, names);
    forall x ensures x in CategoryKeys(kept) <==> x in CategoryKeys(cats) && (x.0 != year || x.1 in names) {
      if x in CategoryKeys(kept) {
        var k :| 0 <= k < |kept| && x == (kept[k].year, kept[k].name);
        KeptCategoriesMembers(cats, year, names, kept[k]);
        var m :| 0 <= m < |cats| && cats[m] == kept[k];
        assert x == (cats[m].year, cats[m].name);
      }
      if x in CategoryKeys(cats) && (x.0 != year || x.1 in names) {
        var m :| 0 <= m < |cats| && x == (cats[m].year, cats[m].name);
        KeptCategoriesMembers(cats, year, names, cats[m]);
        var k :| 0 <= k < |kept| && kept[k] == cats[m];
        assert x == (kept[k].year, kept[k].name);
      }
    }
    forall y, n | y != year || n in names ensures CategoryIdOf(kept, y, n) == CategoryIdOf(cats, y, n) {
      var p := CategoryIndex(cats, y, n);
      if p < |cats| {
        KeptCategoriesMembers(cats, year, names, cats[p]);
        CategoryIdOfRow(kept, nextId, cats[p]);
      } else {
        var q := CategoryIndex(kept, y, n);
        if q < |kept| {
          KeptCategoriesMembers(cats, year, names, kept[q]);
          CategoryIdOfRow(cats, nextId, kept[q]);
        }
      }
    }
  }

  /** The row found for an imported name is not among the deleted ones. */
  lemma NotDropped(cats: seq<CategoryRow>, nextId: nat, year: int, names: set<string>, n: string)
    requires CategoriesValid(cats, nextId) && n in names && CategoryIdOf(cats, year, n).Some?
    ensures CategoryIdOf(cats, year, n).value !in DroppedCategoryIds(cats, year, names)
  {
    var p := CategoryIndex(cats, year, n);
    forall q | 0 <= q < |cats| && cats[q].year == year && cats[q].name !in names
      ensures cats[q].id != cats[p].id
    {
      assert q != p;
    }
  }

  /** The cascade keeps every row whose category was not deleted. */
  lemma {:induction false} YearRowsSurvive(rows: seq<NominationRow>, dropped: set<nat>, year: int)
    requires forall k :: 0 <= k < |YearRows(rows, year)| ==> YearRows(rows, year)[k].categoryId !in dropped
    ensures YearRows(WithoutCategoryIds(rows, dropped), year) == YearRows(rows, year)
  {
    if |rows| > 0 {
      var init := rows[..|rows| - 1];
      var n := rows[|rows| - 1];
      var w := WithoutCategoryIds(init, dropped);
      assert YearRows(rows, year) == YearRows(init, year) + (if n.year == year then [n] else []);
      assert forall k :: 0 <= k < |YearRows(init, year)| ==> YearRows(init, year)[k] == YearRows(rows, year)[k];
      YearRowsSurvive(init, dropped, year);
      if n.year == year {
        var ys := YearRows(rows, year);
        assert ys[|ys| - 1] == n;
        assert WithoutCategoryIds(rows, dropped) == w + [n];
        assert (w + [n])[..|w|] == w;
      } else {
        assert YearRows(rows, year) == YearRows(init, year);
        if n.categoryId in dropped {
          assert WithoutCategoryIds(rows, dropped) == w;
        } else {
          assert WithoutCategoryIds(rows, dropped) == w + [n];
          assert (w + [n])[..|w|] == w;
        }
      }
    }
  }

  // ---------------------------------------------------------------- `_import_year`

  /** What the steps of `_import_year` leave before the optional prune: the category
      loop, the film loop, and the tables once nominations and default-seen films
      are replaced. */
  datatype Phases = Phases(categories: CategoryPhase, films: FilmPhase, replaced: Tables)

  function ImportPhases(t: Tables, year: int, p: Payload): Result<Phases, TableError> {
    match KeyText(p.yearLabel, "label")
    case Err(e) => Err(e)
    case Ok(yearLabel) =>
      match CategoriesUpserted(UpsertYear(t, year, yearLabel), year, OrEmpty(p.categories))
      case Err(e) => Err(e)
      case Ok(cp) =>
        match FilmsImported(cp.tables, year, OrEmpty(p.films))
        case Err(e) => Err(e)
        case Ok(fp) =>
          match NominationsReplaced(fp.tables, year, OrEmpty(p.nominations), cp.ids, fp.canonical)
          case Err(e) => Err(e)
          case Ok(t4) =>
            match SeenReplaced(t4, year, OrEmpty(p.defaultSeen), fp.canonical)
            case Err(e) => Err(e)
            case Ok(t5) => Ok(Phases(cp, fp, t5))
  }

  /** The tables `_import_year` commits, or the error that rolls the transaction back. */
  function Imported(t: Tables, year: int, p: Payload, prune: bool): Result<Tables, TableError> {
    match ImportPhases(t, year, p)
    case Err(e) => Err(e)
    case Ok(ph) => Ok(if prune then Pruned(ph.replaced, year, ph.films.imported, ph.categories.names) else ph.replaced)
  }

  /** `_import_year`. */
  method ImportPayload(t: Tables, year: int, p: Payload, prune: bool) returns (r: Result<Tables, TableError>)
    ensures r == Imported(t, year, p, prune)
  {
    if !p.yearLabel.Present? {
      return Err(MissingValue("label"));
    }
    var t1 := UpsertYear(t, year, p.yearLabel.value);
    var cats := UpsertCategories(t1, year, OrEmpty(p.categories));
    if cats.Err? {
      return Err(cats.error);
    }
    var films := ImportFilms(cats.value.tables, year, OrEmpty(p.films));
    if films.Err? {
      return Err(films.error);
    }
    var noms := ReplaceNominations(films.value.tables, year, OrEmpty(p.nominations), cats.value.ids, films.value.canonical);
    if noms.Err? {
      return Err(noms.error);
    }
    var seen := ReplaceDefaultSeen(noms.value, year, OrEmpty(p.defaultSeen), films.value.canonical);
    if seen.Err? {
      return Err(seen.error);
    }
    var u := seen.value;
    if prune {
      u := u.(filmYears := PrunedFilmYears(u.filmYears, year, films.value.imported));
      u := PrunedCategories(u, year, cats.value.names);
    }
    return Ok(u);
  }

  /** Before the prune: the category rows of the payload's names were added, the
      films and the year's film rows were upserted, and the lookups hold. */
  lemma PhasesTables(t: Tables, year: int, p: Payload)
    requires Valid(t) && ImportPhases(t, year, p).Ok?
    ensures var ph := ImportPhases(t, year, p).value;
            var u := ph.replaced;
            && Valid(u)
            && u.years == t.years[year := p.yearLabel.value]
            && CategoryKeys(u.categories) == CategoryKeys(t.categories) + YearKeys(year, ph.categories.names)
            && ph.categories.ids.Keys == ph.categories.names
            && (forall n :: n in ph.categories.names ==> n in ph.categories.ids && CategoryIdOf(u.categories, year, n) == Some(ph.categories.ids[n]))
            && (forall y, n :: y != year ==> CategoryIdOf(u.categories, y, n) == CategoryIdOf(t.categories, y, n))
            && FilmIds(t.films) <= FilmIds(u.films)
            && ph.films.imported <= FilmIds(u.films)
            && u.filmYears.Keys == t.filmYears.Keys + YearKeys(year, ph.films.imported)
            && (forall k :: k in t.filmYears && k.0 != year ==> u.filmYears[k] == t.filmYears[k])
            && (forall s :: s in ph.films.canonical ==> ph.films.canonical[s] in ph.films.imported)
  {
    var ph := ImportPhases(t, year, p).value;
    var t1 := UpsertYear(t, year, p.yearLabel.value);
    CategoriesUpsertedKeys(t1, year, OrEmpty(p.categories));
    CategoriesUpsertedIds(t1, year, OrEmpty(p.categories));
    FilmsImportedTables(ph.categories.tables, year, OrEmpty(p.films));
    NominationsReplacedExactly(ph.films.tables, year, OrEmpty(p.nominations), ph.categories.ids, ph.films.canonical);
    var t4 := NominationsReplaced(ph.films.tables, year, OrEmpty(p.nominations), ph.categories.ids, ph.films.canonical).value;
    SeenReplacedEffect(t4, year, OrEmpty(p.defaultSeen), ph.films.canonical);
  }

  /** Before the prune: the year's nominations and default-seen films are the
      payload's, mapped; the other years' rows are as they were. */
  lemma PhasesRows(t: Tables, year: int, p: Payload)
    requires Valid(t) && ImportPhases(t, year, p).Ok?
    ensures var ph := ImportPhases(t, year, p).value;
            var u := ph.replaced;
            var noms := OrEmpty(p.nominations);
            var rows := YearRows(u.nominations, year);
            var seen := OrEmpty(p.defaultSeen);
            && OtherYearRows(u.nominations, year) == OtherYearRows(t.nominations, year)
            && |rows| == |noms|
            && (forall k :: 0 <= k < |noms| ==>
                 && noms[k].category.Present? && noms[k].filmId.Present?
                 && noms[k].category.value in ph.categories.ids && noms[k].filmId.value in ph.films.canonical
                 && rows[k].categoryId == ph.categories.ids[noms[k].category.value]
                 && rows[k].filmId == ph.films.canonical[noms[k].filmId.value]
                 && rows[k].nominee == noms[k].nominee)
            && Mappable(seen, ph.films.canonical)
            && OtherYearSeen(u.defaultSeen, year) == OtherYearSeen(t.defaultSeen, year)
            && YearSeen(u.defaultSeen, year) == Elements(MappedSeen(seen, ph.films.canonical))
  {
    var ph := ImportPhases(t, year, p).value;
    NominationsReplacedExactly(ph.films.tables, year, OrEmpty(p.nominations), ph.categories.ids, ph.films.canonical);
    var t4 := NominationsReplaced(ph.films.tables, year, OrEmpty(p.nominations), ph.categories.ids, ph.films.canonical).value;
    SeenReplacedEffect(t4, year, OrEmpty(p.defaultSeen), ph.films.canonical);
    CategoriesUpsertedKeys(UpsertYear(t, year, p.yearLabel.value), year, OrEmpty(p.categories));
    FilmsImportedTables(ph.categories.tables, year, OrEmpty(p.films));
  }

  /** After the import the year's nominations are exactly the payload's, in order:
      each lists the year's category of that name, the canonical id its film
      resolved to (a film of the table), and its nominee. This holds with and
      without the prune. */
  lemma ImportedNominations(t: Tables, year: int, p: Payload, prune: bool)
    requires Valid(t) && Imported(t, year, p, prune).Ok?
    ensures var ph := ImportPhases(t, year, p).value;
            var u := Imported(t, year, p, prune).value;
            var noms := OrEmpty(p.nominations);
            var rows := YearRows(u.nominations, year);
            && |rows| == |noms|
            && forall k :: 0 <= k < |noms| ==>
                 && noms[k].category.Present? && noms[k].filmId.Present? && noms[k].filmId.value in ph.films.canonical
                 && CategoryIdOf(u.categories, year, noms[k].category.value) == Some(rows[k].categoryId)
                 && rows[k].filmId == ph.films.canonical[noms[k].filmId.value]
                 && rows[k].filmId in FilmIds(u.films)
                 && rows[k].nominee == noms[k].nominee
  {
    var ph := ImportPhases(t, year, p).value;
    PhasesTables(t, year, p);
    PhasesRows(t, year, p);
    if prune {
      var v := ph.replaced.(filmYears := PrunedFilmYears(ph.replaced.filmYears, year, ph.films.imported));
      var names := ph.categories.names;
      KeptCategoriesKeys(v.categories, v.nextCategoryId, year, names);
      var dropped := DroppedCategoryIds(v.categories, year, names);
      var rows := YearRows(v.nominations, year);
      var noms := OrEmpty(p.nominations);
      forall k | 0 <= k < |rows| ensures rows[k].categoryId !in dropped {
        NotDropped(v.categories, v.nextCategoryId, year, names, noms[k].category.value);
      }
      YearRowsSurvive(v.nominations, dropped, year);
    }
  }

  /** After the import the year's default-seen films are exactly the payload's
      entries mapped to canonical ids, each a film of the table. */
  lemma ImportedDefaultSeen(t: Tables, year: int, p: Payload, prune: bool)
    requires Valid(t) && Imported(t, year, p, prune).Ok?
    ensures var ph := ImportPhases(t, year, p).value;
            var u := Imported(t, year, p, prune).value;
            var seen := OrEmpty(p.defaultSeen);
            && Mappable(seen, ph.films.canonical)
            && YearSeen(u.defaultSeen, year) == Elements(MappedSeen(seen, ph.films.canonical))
            && YearSeen(u.defaultSeen, year) <= FilmIds(u.films)
            && OtherYearSeen(u.defaultSeen, year) == OtherYearSeen(t.defaultSeen, year)
  {
    PhasesTables(t, year, p);
    PhasesRows(t, year, p);
  }

  /** Without the prune nothing is deleted outside the year's nominations and
      default-seen films: category and film-year rows are only upserted, films are
      never removed, and other years' nominations stay. */
  lemma ImportedWithoutPrune(t: Tables, year: int, p: Payload)
    requires Valid(t) && Imported(t, year, p, false).Ok?
    ensures var ph := ImportPhases(t, year, p).value;
            var u := Imported(t, year, p, false).value;
            && CategoryKeys(u.categories) == CategoryKeys(t.categories) + YearKeys(year, ph.categories.names)
            && Named(OrEmpty(p.categories)) && ph.categories.names == Names(OrEmpty(p.categories))
            && u.filmYears.Keys == t.filmYears.Keys + YearKeys(year, ph.films.imported)
            && FilmIds(t.films) <= FilmIds(u.films)
            && OtherYearRows(u.nominations, year) == OtherYearRows(t.nominations, year)
            && u.years == t.years[year := p.yearLabel.value]
  {
    PhasesTables(t, year, p);
    PhasesRows(t, year, p);
    CategoriesUpsertedKeys(UpsertYear(t, year, p.yearLabel.value), year, OrEmpty(p.categories));
  }

  /** Keys left by the category prune when the year's keys were first extended by
      `names`. */
  lemma PrunedCategoryKeys(before: seq<CategoryRow>, cats: seq<CategoryRow>, nextId: nat, year: int, names: set<string>)
    requires CategoriesValid(cats, nextId)
    requires CategoryKeys(cats) == CategoryKeys(before) + YearKeys(year, names)
    ensures var kept := CategoryKeys(KeptCategories(cats, year, names));
            && (forall n :: (year, n) in kept <==> n in names)
            && (forall y, n :: y != year ==> ((y, n) in kept <==> (y, n) in CategoryKeys(before)))
  {
    KeptCategoriesKeys(cats, nextId, year, names);
    forall n | n in names ensures (year, n) in CategoryKeys(cats) {
      assert (year, n) in YearKeys(year, names);
    }
    forall y, n | y != year ensures (y, n) in CategoryKeys(cats) <==> (y, n) in CategoryKeys(before) {
      assert (y, n) !in YearKeys(year, names);
    }
  }

  /** With the prune the year keeps exactly the payload's categories; other years'
      categories are untouched. */
  lemma ImportedWithPruneCategories(t: Tables, year: int, p: Payload)
    requires Valid(t) && Imported(t, year, p, true).Ok?
    ensures var ph := ImportPhases(t, year, p).value;
            var u := Imported(t, year, p, true).value;
            && Named(OrEmpty(p.categories)) && ph.categories.names == Names(OrEmpty(p.categories))
            && (forall n :: (year, n) in CategoryKeys(u.categories) <==> n in ph.categories.names)
            && (forall y, n :: y != year ==> ((y, n) in CategoryKeys(u.categories) <==> (y, n) in CategoryKeys(t.categories)))
  {
    var ph := ImportPhases(t, year, p).value;
    var t1 := UpsertYear(t, year, p.yearLabel.value);
    CategoriesUpsertedKeys(t1, year, OrEmpty(p.categories));
    PhasesTables(t, year, p);
    var cats := ph.replaced.categories;
    assert Imported(t, year, p, true).value.categories == KeptCategories(cats, year, ph.categories.names);
    PrunedCategoryKeys(t.categories, cats, ph.replaced.nextCategoryId, year, ph.categories.names);
  }

  /** With the prune the year keeps exactly the film rows of the films it imported
      (none at all when it imported none); other years' film rows are untouched,
      and films are never removed. */
  lemma ImportedWithPruneFilms(t: Tables, year: int, p: Payload)
    requires Valid(t) && Imported(t, year, p, true).Ok?
    ensures var ph := ImportPhases(t, year, p).value;
            var u := Imported(t, year, p, true).value;
            && (forall f :: (year, f) in u.filmYears <==> f in ph.films.imported)
            && (forall k: (int, string) :: k.0 != year ==> (k in u.filmYears <==> k in t.filmYears))
            && FilmIds(t.films) <= FilmIds(u.films)
  {
    var ph := ImportPhases(t, year, p).value;
    PhasesTables(t, year, p);
    var fy := ph.replaced.filmYears;
    PrunedFilmYearsKeys(fy, year, ph.films.imported);
    assert Imported(t, year, p, true).value.filmYears == PrunedFilmYears(fy, year, ph.films.imported);
    forall f ensures (year, f) in fy <==> f in ph.films.imported || (year, f) in t.filmYears {
      assert (year, f) in YearKeys(year, ph.films.imported) <==> f in ph.films.imported;
    }
    forall k: (int, string) | k.0 != year ensures k in fy <==> k in t.filmYears {
      assert k !in YearKeys(year, ph.films.imported);
    }
  }

  // ---------------------------------------------------------------- `main`

  /** The `status` (and, for failures, the cause behind `details`) of a row of
      `year_import_runs`. */
  datatype RunStatus = ValidationFailed(errors: seq<Issue>) | Failed(error: TableError) | Succeeded

  datatype ImportRun = ImportRun(year: int, sourcePath: string, dataHash: string, schemaVersion: Option<string>, status: RunStatus)

  /** The database after a run: the committed tables and the import log. */
  datatype Store = Store(tables: Tables, runs: seq<ImportRun>)

  /** `main` after the file is read: load, validate, import in one transaction, and
      record the run in its own transaction. A load error escapes before anything
      is recorded. */
  function RunImport(db: Store, doc: Document, yearArg: Option<int>, prune: bool, sourcePath: string, dataHash: string): Result<Store, LoadError> {
    match LoadYearPayload(doc, yearArg)
    case Err(e) => Err(e)
    case Ok(loaded) =>
      var errors := ValidationReport(loaded.year, loaded.payload).errors;
      var run := (s: RunStatus) => ImportRun(loaded.year, sourcePath, dataHash, loaded.schemaVersion, s);
      if errors != [] then Ok(Store(db.tables, db.runs + [run(ValidationFailed(errors))]))
      else
        match Imported(db.tables, loaded.year, loaded.payload, prune)
        case Err(e) => Ok(Store(db.tables, db.runs + [run(Failed(e))]))
        case Ok(t) => Ok(Store(t, db.runs + [run(Succeeded)]))
  }

  /** A run that loads records exactly one row, for the loaded year; the tables
      change only on a clean validation and a committed import, and then they are
      that import's result. */
  lemma RunImportOutcome(db: Store, doc: Document, yearArg: Option<int>, prune: bool, sourcePath: string, dataHash: string)
    ensures var r := RunImport(db, doc, yearArg, prune, sourcePath, dataHash);
            && (r.Err? <==> LoadYearPayload(doc, yearArg).Err?)
            && (r.Err? ==> r.error == LoadYearPayload(doc, yearArg).error)
            && (r.Ok? ==>
                 var loaded := LoadYearPayload(doc, yearArg).value;
                 var errors := ValidationReport(loaded.year, loaded.payload).errors;
                 var imported := Imported(db.tables, loaded.year, loaded.payload, prune);
                 && |r.value.runs| == |db.runs| + 1
                 && r.value.runs[..|db.runs|] == db.runs
                 && var run := r.value.runs[|db.runs|];
                 && run.year == loaded.year && run.sourcePath == sourcePath && run.dataHash == dataHash
                 && run.schemaVersion == loaded.schemaVersion
                 && (run.status.ValidationFailed? <==> errors != [])
                 && (run.status.ValidationFailed? ==> run.status.errors == errors)
                 && (run.status.Failed? <==> errors == [] && imported.Err?)
                 && (run.status.Failed? ==> run.status.error == imported.error)
                 && (run.status.Succeeded? <==> errors == [] && imported.Ok?)
                 && (r.value.tables == if run.status.Succeeded? then imported.value else db.tables))
  {
  }

  /** A payload whose category name carries a trailing space that its nomination's
      category does not. */
  const RawNameSample := Payload(Missing, Present("2024"),
                                 Present([CategoryIn(Some("A "), None, None)]),
                                 Present([FilmIn(Present("f"), Present("T"), Missing, Availability("", "", "", ""))]),
                                 Present([NominationIn(Present("A"), Present("f"), "")]),
                                 Missing)

  lemma RawNameSampleStrips()
    ensures PyStrip("A ") == "A" && PyStrip("A") == "A" && PyStrip("f") == "f" && PyStrip("T") == "T"
  {
    assert TrimStart("A ", Python) == "A ";
    assert "A "[..1] == "A";
  }

  lemma RawNameSampleKeys()
    ensures KeyIssues(RawNameSample) == []
  {
    var p, keys := RawNameSample, RequiredKeys;
    forall i | 0 <= i < |keys| ensures !KeyMissing(p, keys[i]) {
      assert keys[i] in ["label", "categories", "films", "nominations"];
    }
    assert MissingKeyIssues(p, keys[..0]) == [];
    assert MissingKeyIssues(p, keys[..1]) == [] by { assert keys[..1][..0] == keys[..0]; }
    assert MissingKeyIssues(p, keys[..2]) == [] by { assert keys[..2][..1] == keys[..1]; }
    assert MissingKeyIssues(p, keys[..3]) == [] by { assert keys[..3][..2] == keys[..2]; }
    assert MissingKeyIssues(p, keys[..4]) == [] by { assert keys[..4][..3] == keys[..3]; }
    assert keys[..4] == keys;
  }

  lemma RawNameSampleNames()
    ensures CategoryNames(OrEmpty(RawNameSample.categories)) == ["A"]
    ensures NameIssues(RawNameSample) == []
  {
    RawNameSampleStrips();
  }

  lemma RawNameSampleFilms()
    ensures SourceIds(OrEmpty(RawNameSample.films)) == ["f"]
    ensures FilmPartIssues(RawNameSample) == []
  {
    var films := OrEmpty(RawNameSample.films);
    RawNameSampleStrips();
    assert films[..0] == [];
    assert ExternalIds(films) == [];
  }

  lemma RawNameSampleReferences()
    ensures ReferenceIssues(RawNameSample) == []
  {
    var p := RawNameSample;
    RawNameSampleStrips();
    RawNameSampleNames();
    RawNameSampleFilms();
    assert Elements(["A"]) == {"A"} && Elements(["f"]) == {"f"};
    assert OrEmpty(p.nominations)[..0] == [];
  }

  lemma RawNameSampleValidates()
    ensures ValidationReport(2024, RawNameSample).errors == []
  {
    RawNameSampleKeys();
    RawNameSampleNames();
    RawNameSampleFilms();
    RawNameSampleReferences();
  }

  lemma RawNameSampleRejected()
    ensures Imported(EmptyTables, 2024, RawNameSample, false) == Err(UnknownCategoryName("A"))
  {
    var p := RawNameSample;
    var cats, films, noms := OrEmpty(p.categories), OrEmpty(p.films), OrEmpty(p.nominations);
    RawNameSampleStrips();
    var t1 := UpsertYear(EmptyTables, 2024, "2024");
    var cp := CategoriesUpserted(t1, 2024, cats);
    CategoriesUpsertedOk(t1, 2024, cats);
    CategoriesUpsertedNames(t1, 2024, cats);
    assert Names(cats) == {"A "};
    var fp := FilmsImported(cp.value.tables, 2024, films);
    FilmsImportedOk(cp.value.tables, 2024, films);
    FilmsImportedSources(cp.value.tables, 2024, films);
    assert SourceIdSet(films) == {"f"};
    assert noms[..0] == [];
    assert NominationsReplaced(fp.value.tables, 2024, noms, cp.value.ids, fp.value.canonical) == Err(UnknownCategoryName("A"));
  }

  /** A payload that validation accepts and the import still rejects: validation
      compares stripped category names, the import looks the nomination's category
      up by its raw text. */
  lemma ValidatedButRejected()
    ensures ValidationReport(2024, RawNameSample).errors == []
    ensures Imported(EmptyTables, 2024, RawNameSample, false) == Err(UnknownCategoryName("A"))
  {
    RawNameSampleValidates();
    RawNameSampleRejected();
  }
}
