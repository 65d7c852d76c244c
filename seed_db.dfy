/**
 * `seed_db.py`: every year of the bundled nominee file written into the catalogue
 * inside one transaction that is committed only when all years went through.
 * The seed follows the import's table rewrites, but resolves canonical film ids
 * by its own rule, subscripts the payload's lists instead of defaulting them, and
 * stores a default-seen entry it cannot map under its raw id.
 */
module SeedDb {
  import opened Wrappers
  import opened Text
  import opened YearData
  import opened Catalog
  import opened ImportYear

  // ---------------------------------------------------------------- canonical film ids

  /** The seed's canonical id for a film with source id `sourceId` and stripped
      external id `ext`: a film carrying that external id, or failing that one with
      the same title, supplies the id; an id still equal to the source id is then
      replaced by the external id. The films table is only read. */
  function SeedCanonical(films: seq<FilmRow>, sourceId: string, title: string, ext: string): string {
    if ext == "" then sourceId
    else
      var i := ExternalIdIndex(films, ext);
      var found := if i < |films| then films[i].id
                   else if TitleIndex(films, title) < |films| then films[TitleIndex(films, title)].id
                   else sourceId;
      if found == sourceId then ext else found
  }

  /** Without an external id the source id is the canonical id. */
  lemma SeedWithoutExternalId(films: seq<FilmRow>, sourceId: string, title: string)
    ensures SeedCanonical(films, sourceId, title, "") == sourceId
  {
  }

  /** The earliest film carrying the external id supplies the canonical id, unless it
      is the source id itself, which the external id then replaces. */
  lemma SeedByExternalId(films: seq<FilmRow>, sourceId: string, title: string, ext: string, k: nat)
    requires ext != ""
    requires k < |films| && films[k].externalId == Some(ext)
    requires forall m :: 0 <= m < k ==> films[m].externalId != Some(ext)
    ensures SeedCanonical(films, sourceId, title, ext) == if films[k].id == sourceId then ext else films[k].id
  {
  }

  /** With no film carrying the external id, the earliest film of the same title
      supplies it, on the same condition. */
  lemma SeedByTitle(films: seq<FilmRow>, sourceId: string, title: string, ext: string, k: nat)
    requires ext != ""
    requires forall m :: 0 <= m < |films| ==> films[m].externalId != Some(ext)
    requires k < |films| && films[k].title == title
    requires forall m :: 0 <= m < k ==> films[m].title != title
    ensures SeedCanonical(films, sourceId, title, ext) == if films[k].id == sourceId then ext else films[k].id
  {
  }

  /** A film that matches nothing takes its external id as canonical id. */
  lemma SeedUnmatched(films: seq<FilmRow>, sourceId: string, title: string, ext: string)
    requires ext != ""
    requires forall m :: 0 <= m < |films| ==> films[m].externalId != Some(ext) && films[m].title != title
    ensures SeedCanonical(films, sourceId, title, ext) == ext
  {
  }

  /** The two resolvers agree except where the import's answer is the source id
      despite a non-empty external id: the seed then answers the external id. */
  lemma SeedVersusImport(films: seq<FilmRow>, sourceId: string, title: string, externalId: Option<string>)
    ensures var ext := CleanExternalId(externalId);
            var c := Resolve(films, sourceId, title, externalId).0;
            SeedCanonical(films, sourceId, title, ext) == if ext != "" && c == sourceId then ext else c
  {
  }

  /** A film whose external id points at a row under its own source id: the import
      keeps the source id, the seed switches to the external id. */
  lemma SeedDiffersFromImport()
    ensures var films := [FilmRow("a", "T", Some("tt1"))];
            && Resolve(films, "a", "T", Some("tt1")).0 == "a"
            && SeedCanonical(films, "a", "T", "tt1") == "tt1"
  {
    var films := [FilmRow("a", "T", Some("tt1"))];
    assert PyStrip("tt1") == "tt1" by { StripUnchanged("tt1", Python); }
    assert ExternalIdIndex(films, "tt1") == 0;
  }

  // ---------------------------------------------------------------- the film loop

  /** The tables after the film loop and `source_to_canonical`. */
  datatype SeedFilmPhase = SeedFilmPhase(tables: Tables, canonical: map<string, string>)

  /** `external_id or canonical_film_id`, on the stripped external id. */
  function SeedStoredExternalId(ext: string, canonical: string): string {
    if ext != "" then ext else canonical
  }

  /** One iteration: resolve the id, upsert the film, upsert its row for the year. */
  function SeedFilmStep(ph: SeedFilmPhase, year: int, f: FilmIn): Result<SeedFilmPhase, TableError> {
    match KeyText(f.id, "id")
    case Err(e) => Err(e)
    case Ok(source) =>
      match KeyText(f.title, "title")
      case Err(e) => Err(e)
      case Ok(title) =>
        var ext := CleanExternalId(RawExternalId(f));
        var id := SeedCanonical(ph.tables.films, source, title, ext);
        match UpsertFilm(ph.tables.films, id, title, SeedStoredExternalId(ext, id))
        case Err(e) => Err(e)
        case Ok(written) =>
          Ok(SeedFilmPhase(UpsertFilmYear(ph.tables.(films := written), year, id, f.availability), ph.canonical[source := id]))
  }

  function FilmsSeeded(t: Tables, year: int, films: seq<FilmIn>): Result<SeedFilmPhase, TableError> {
    if |films| == 0 then Ok(SeedFilmPhase(t, map[]))
    else
      match FilmsSeeded(t, year, films[..|films| - 1])
      case Err(e) => Err(e)
      case Ok(ph) => SeedFilmStep(ph, year, films[|films| - 1])
  }

  method SeedFilms(t: Tables, year: int, films: seq<FilmIn>) returns (r: Result<SeedFilmPhase, TableError>)
    ensures r == FilmsSeeded(t, year, films)
  {
    var cur := t;
    var canonical: map<string, string> := map[];
    for i := 0 to |films|
      invariant FilmsSeeded(t, year, films[..i]) == Ok(SeedFilmPhase(cur, canonical))
    {
      assert films[..i + 1][..i] == films[..i];
      var f := films[i];
      if !f.id.Present? {
        SeedFilmsErrSticks(t, year, films, i + 1);
        return Err(MissingValue("id"));
      }
      if !f.title.Present? {
        SeedFilmsErrSticks(t, year, films, i + 1);
        return Err(MissingValue("title"));
      }
      var source, title := f.id.value, f.title.value;
      var ext := CleanExternalId(RawExternalId(f));
      var id := SeedCanonical(cur.films, source, title, ext);
      var written := UpsertFilm(cur.films, id, title, SeedStoredExternalId(ext, id));
      if written.Err? {
        SeedFilmsErrSticks(t, year, films, i + 1);
        return Err(written.error);
      }
      canonical := canonical[source := id];
      cur := UpsertFilmYear(cur.(films := written.value), year, id, f.availability);
    }
    assert films[..|films|] == films;
    return Ok(SeedFilmPhase(cur, canonical));
  }

  lemma {:induction false} SeedFilmsErrSticks(t: Tables, year: int, films: seq<FilmIn>, k: nat)
    requires k <= |films| && FilmsSeeded(t, year, films[..k]).Err?
    ensures FilmsSeeded(t, year, films) == FilmsSeeded(t, year, films[..k])
  {
    if k < |films| {
      var init := films[..|films| - 1];
      assert init[..k] == films[..k];
      SeedFilmsErrSticks(t, year, init, k);
    } else {
      assert films[..k] == films;
    }
  }

  /** One step fails on a missing id or title, or on the external-id index. */
  lemma SeedFilmStepOutcome(ph: SeedFilmPhase, year: int, f: FilmIn)
    ensures SeedFilmStep(ph, year, f).Ok? ==> f.id.Present? && f.title.Present?
    ensures SeedFilmStep(ph, year, f).Err? ==> FilmLoopError(SeedFilmStep(ph, year, f).error, f.id.Present? && f.title.Present?)
  {
  }

  /** The loop raises when some film lacks its id or its title, and otherwise only
      when the external-id index refuses a write. */
  lemma {:induction false} FilmsSeededOk(t: Tables, year: int, films: seq<FilmIn>)
    ensures FilmsSeeded(t, year, films).Ok? ==> Keyed(films)
    ensures FilmsSeeded(t, year, films).Err? ==> FilmLoopError(FilmsSeeded(t, year, films).error, Keyed(films))
  {
    if |films| > 0 {
      var init := films[..|films| - 1];
      var f := films[|films| - 1];
      FilmsSeededOk(t, year, init);
      assert Keyed(films) <==> Keyed(init) && f.id.Present? && f.title.Present? by {
        assert forall k :: 0 <= k < |init| ==> init[k] == films[k];
      }
      if FilmsSeeded(t, year, init).Ok? {
        SeedFilmStepOutcome(FilmsSeeded(t, year, init).value, year, f);
      }
    }
  }

  /** One step writes the film under its canonical id, keeping a non-empty stored
      external id and otherwise storing the stripped external id or the canonical
      id; every other film row stays as it was. */
  lemma SeedFilmStepTables(ph: SeedFilmPhase, year: int, f: FilmIn)
    requires FilmsValid(ph.tables.films) && SeedFilmStep(ph, year, f).Ok?
    ensures var q := SeedFilmStep(ph, year, f).value;
            var films := ph.tables.films;
            var ext := CleanExternalId(RawExternalId(f));
            var id := SeedCanonical(films, f.id.value, f.title.value, ext);
            var i := FilmIndex(films, id);
            && FilmsValid(q.tables.films)
            && q.tables == ph.tables.(films := q.tables.films, filmYears := q.tables.filmYears)
            && FilmIds(q.tables.films) == FilmIds(films) + {id}
            && q.canonical == ph.canonical[f.id.value := id]
            && q.tables.filmYears == ph.tables.filmYears[(year, id) := f.availability]
            && FilmIndex(q.tables.films, id) == i
            && q.tables.films[i].title == f.title.value
            && q.tables.films[i].externalId
               == (if i < |films| then KeptExternalId(films[i].externalId, SeedStoredExternalId(ext, id))
                   else Some(SeedStoredExternalId(ext, id)))
            && (forall j :: 0 <= j < |films| && j != i ==> q.tables.films[j] == films[j])
  {
    var ext := CleanExternalId(RawExternalId(f));
    var id := SeedCanonical(ph.tables.films, f.id.value, f.title.value, ext);
    UpsertFilmEffect(ph.tables.films, id, f.title.value, SeedStoredExternalId(ext, id));
  }

  /** After the loop no film was removed, every source id maps to a film that has a
      row for the year, rows of other years are untouched, and no other table changed. */
  lemma {:induction false} FilmsSeededTables(t: Tables, year: int, films: seq<FilmIn>)
    requires FilmsValid(t.films) && FilmsSeeded(t, year, films).Ok?
    ensures var ph := FilmsSeeded(t, year, films).value;
            && FilmsValid(ph.tables.films)
            && ph.tables == t.(films := ph.tables.films, filmYears := ph.tables.filmYears)
            && FilmIds(t.films) <= FilmIds(ph.tables.films)
            && t.filmYears.Keys <= ph.tables.filmYears.Keys
            && (forall k :: k in ph.tables.filmYears && k.0 != year ==> k in t.filmYears && ph.tables.filmYears[k] == t.filmYears[k])
            && (forall s :: s in ph.canonical ==> ph.canonical[s] in FilmIds(ph.tables.films) && (year, ph.canonical[s]) in ph.tables.filmYears)
  {
    if |films| > 0 {
      var init := films[..|films| - 1];
      FilmsSeededTables(t, year, init);
      var ph := FilmsSeeded(t, year, init).value;
      SeedFilmStepTables(ph, year, films[|films| - 1]);
    }
  }

  lemma SeedFilmStepSources(ph: SeedFilmPhase, year: int, f: FilmIn)
    requires SeedFilmStep(ph, year, f).Ok?
    ensures f.id.Present? && SeedFilmStep(ph, year, f).value.canonical.Keys == ph.canonical.Keys + {f.id.value}
  {
  }

  /** `source_to_canonical` holds every source id of the payload and nothing else. */
  lemma {:induction false} FilmsSeededSources(t: Tables, year: int, films: seq<FilmIn>)
    requires FilmsSeeded(t, year, films).Ok?
    ensures Keyed(films) && FilmsSeeded(t, year, films).value.canonical.Keys == SourceIdSet(films)
  {
    FilmsSeededOk(t, year, films);
    if |films| > 0 {
      var init := films[..|films| - 1];
      FilmsSeededSources(t, year, init);
      SeedFilmStepSources(FilmsSeeded(t, year, init).value, year, films[|films| - 1]);
      SourceIdSetAppend(films);
    }
  }

  /** A title match whose stored external id is the film's own id: the import's
      UPDATE overwrites it with the new external id, the seed leaves it. */
  lemma SeedKeepsOwnExternalId()
    ensures var t := EmptyTables.(films := [FilmRow("b", "T", Some("b"))]);
            var f := FilmIn(Present("x"), Present("T"), Present("tt9"), Availability("", "", "", ""));
            && FilmStep(FilmPhase(t, map[], {}), 2024, f).value.tables.films == [FilmRow("b", "T", Some("tt9"))]
            && SeedFilmStep(SeedFilmPhase(t, map[]), 2024, f).value.tables.films == [FilmRow("b", "T", Some("b"))]
  {
    ImportOverwritesOwnId();
    SeedLeavesOwnId();
  }

  lemma ImportOverwritesOwnId()
    ensures var t := EmptyTables.(films := [FilmRow("b", "T", Some("b"))]);
            var f := FilmIn(Present("x"), Present("T"), Present("tt9"), Availability("", "", "", ""));
            && FilmStep(FilmPhase(t, map[], {}), 2024, f).Ok?
            && FilmStep(FilmPhase(t, map[], {}), 2024, f).value.tables.films == [FilmRow("b", "T", Some("tt9"))]
  {
    var films := [FilmRow("b", "T", Some("b"))];
    assert PyStrip("tt9") == "tt9" by { StripUnchanged("tt9", Python); }
    assert ExternalIdIndex(films, "tt9") == 1;
    assert TitleIndex(films, "T") == 0;
    var after := films[0 := films[0].(externalId := Some("tt9"))];
    assert Resolve(films, "x", "T", Some("tt9")) == ("b", after);
    assert FilmIndex(after, "b") == 0;
    assert UpsertFilm(after, "b", "T", "tt9") == Ok([FilmRow("b", "T", Some("tt9"))]) by {
      assert WrittenExternalId(after, 0, "tt9") == Some("tt9");
      assert !ExternalIdTaken(after, 0, Some("tt9"));
      assert after[0 := FilmRow("b", "T", Some("tt9"))] == [FilmRow("b", "T", Some("tt9"))];
    }
  }

  lemma SeedLeavesOwnId()
    ensures var t := EmptyTables.(films := [FilmRow("b", "T", Some("b"))]);
            var f := FilmIn(Present("x"), Present("T"), Present("tt9"), Availability("", "", "", ""));
            && SeedFilmStep(SeedFilmPhase(t, map[]), 2024, f).Ok?
            && SeedFilmStep(SeedFilmPhase(t, map[]), 2024, f).value.tables.films == [FilmRow("b", "T", Some("b"))]
  {
    var films := [FilmRow("b", "T", Some("b"))];
    assert PyStrip("tt9") == "tt9" by { StripUnchanged("tt9", Python); }
    assert ExternalIdIndex(films, "tt9") == 1;
    assert TitleIndex(films, "T") == 0;
    assert SeedCanonical(films, "x", "T", "tt9") == "b";
    assert FilmIndex(films, "b") == 0;
    assert UpsertFilm(films, "b", "T", "tt9") == Ok(films) by {
      assert WrittenExternalId(films, 0, "tt9") == Some("b");
      assert !ExternalIdTaken(films, 0, Some("b"));
      assert films[0 := FilmRow("b", "T", Some("b"))] == films;
    }
  }

  /** The external-id index can refuse a seed: a film stored under "x" with external
      id "y" (as the import's title match leaves it), then a film "y" without an
      external id, which the seed inserts under "y" with "y" as external id. */
  lemma SeedExternalIdClash()
    ensures var t := EmptyTables.(films := [FilmRow("x", "T", Some("y"))]);
            var f := FilmIn(Present("y"), Present("V"), Missing, NoAvailability);
            && Valid(t)
            && SeedFilmStep(SeedFilmPhase(t, map[]), 2024, f) == Err(ExternalIdInUse("y"))
  {
    var rows := [FilmRow("x", "T", Some("y"))];
    assert PyStrip("") == "" by { StripUnchanged("", Python); }
    assert SeedCanonical(rows, "y", "V", "") == "y";
    assert FilmIndex(rows, "y") == 1;
    assert ExternalIdTaken(rows, 1, Some("y")) by { assert rows[0].externalId == Some("y"); }
  }

  // ---------------------------------------------------------------- default-seen films

  /** `source_to_canonical.get(film_id, film_id)`. */
  function SeenId(source: string, canonical: map<string, string>): string {
    if source in canonical then canonical[source] else source
  }

  /** One iteration: the primary key refuses a repeat, the foreign key a film that
      does not exist. */
  function SeedSeenStep(t: Tables, year: int, source: string, canonical: map<string, string>): Result<Tables, TableError> {
    var id := SeenId(source, canonical);
    if (year, id) in t.defaultSeen then Err(DuplicateSeen(id))
    else if id !in FilmIds(t.films) then Err(NoSuchFilm(id))
    else Ok(t.(defaultSeen := t.defaultSeen + {(year, id)}))
  }

  /** `DELETE FROM default_seen WHERE year = ?`, then one INSERT per entry. */
  function SeenSeeded(t: Tables, year: int, seen: seq<string>, canonical: map<string, string>): Result<Tables, TableError> {
    if |seen| == 0 then Ok(t.(defaultSeen := OtherYearSeen(t.defaultSeen, year)))
    else
      match SeenSeeded(t, year, seen[..|seen| - 1], canonical)
      case Err(e) => Err(e)
      case Ok(t1) => SeedSeenStep(t1, year, seen[|seen| - 1], canonical)
  }

  method SeedDefaultSeen(t: Tables, year: int, seen: seq<string>, canonical: map<string, string>)
    returns (r: Result<Tables, TableError>)
    ensures r == SeenSeeded(t, year, seen, canonical)
  {
    var cur := t.(defaultSeen := OtherYearSeen(t.defaultSeen, year));
    for i := 0 to |seen|
      invariant SeenSeeded(t, year, seen[..i], canonical) == Ok(cur)
    {
      assert seen[..i + 1][..i] == seen[..i];
      var id := if seen[i] in canonical then canonical[seen[i]] else seen[i];
      if (year, id) in cur.defaultSeen {
        SeedSeenErrSticks(t, year, seen, i + 1, canonical);
        return Err(DuplicateSeen(id));
      }
      if id !in FilmIds(cur.films) {
        SeedSeenErrSticks(t, year, seen, i + 1, canonical);
        return Err(NoSuchFilm(id));
      }
      cur := cur.(defaultSeen := cur.defaultSeen + {(year, id)});
    }
    assert seen[..|seen|] == seen;
    return Ok(cur);
  }

  lemma {:induction false} SeedSeenErrSticks(t: Tables, year: int, seen: seq<string>, k: nat, canonical: map<string, string>)
    requires k <= |seen| && SeenSeeded(t, year, seen[..k], canonical).Err?
    ensures SeenSeeded(t, year, seen, canonical) == SeenSeeded(t, year, seen[..k], canonical)
  {
    if k < |seen| {
      var init := seen[..|seen| - 1];
      assert init[..k] == seen[..k];
      SeedSeenErrSticks(t, year, init, k, canonical);
    } else {
      assert seen[..k] == seen;
    }
  }

  /** The entries mapped through `source_to_canonical`, unmapped ones kept as they are. */
  function SeenIds(seen: seq<string>, canonical: map<string, string>): (r: seq<string>)
    ensures |r| == |seen| && forall k :: 0 <= k < |seen| ==> r[k] == SeenId(seen[k], canonical)
  {
    seq(|seen|, k requires 0 <= k < |seen| => SeenId(seen[k], canonical))
  }

  /** After the replacement the year's default-seen films are exactly the mapped
      entries; the other years' entries and every other table are as before. */
  lemma {:induction false} SeenSeededEffect(t: Tables, year: int, seen: seq<string>, canonical: map<string, string>)
    requires SeenSeeded(t, year, seen, canonical).Ok?
    ensures var u := SeenSeeded(t, year, seen, canonical).value;
            && u == t.(defaultSeen := u.defaultSeen)
            && OtherYearSeen(u.defaultSeen, year) == OtherYearSeen(t.defaultSeen, year)
            && YearSeen(u.defaultSeen, year) == Elements(SeenIds(seen, canonical))
  {
    if |seen| == 0 {
      var u := SeenSeeded(t, year, seen, canonical).value;
      assert YearSeen(u.defaultSeen, year) == {};
    } else {
      var init := seen[..|seen| - 1];
      SeenSeededEffect(t, year, init, canonical);
      assert forall k :: 0 <= k < |init| ==> init[k] == seen[k];
      var u1 := SeenSeeded(t, year, init, canonical).value;
      var c := SeenId(seen[|seen| - 1], canonical);
      var u := SeenSeeded(t, year, seen, canonical).value;
      assert u.defaultSeen == u1.defaultSeen + {(year, c)};
      assert SeenIds(seen, canonical) == SeenIds(init, canonical) + [c];
      assert YearSeen(u.defaultSeen, year) == YearSeen(u1.defaultSeen, year) + {c};
    }
  }

  /** The replacement succeeds exactly when every mapped entry is a film and no two
      entries map to the same one. */
  lemma {:induction false} SeenSeededOk(t: Tables, year: int, seen: seq<string>, canonical: map<string, string>)
    ensures SeenSeeded(t, year, seen, canonical).Ok?
            <==> Distinct(SeenIds(seen, canonical)) && forall k :: 0 <= k < |seen| ==> SeenIds(seen, canonical)[k] in FilmIds(t.films)
  {
    if |seen| > 0 {
      var init := seen[..|seen| - 1];
      var m := SeenIds(init, canonical);
      var c := SeenId(seen[|seen| - 1], canonical);
      SeenSeededOk(t, year, init, canonical);
      assert forall k :: 0 <= k < |init| ==> init[k] == seen[k];
      assert SeenIds(seen, canonical) == m + [c];
      DistinctAppend(m, c);
      if SeenSeeded(t, year, init, canonical).Ok? {
        SeenSeededEffect(t, year, init, canonical);
        var u1 := SeenSeeded(t, year, init, canonical).value;
        assert (year, c) in u1.defaultSeen <==> c in YearSeen(u1.defaultSeen, year);
      }
    }
  }

  /** An entry that is not a source id of the payload but is a film: the import
      raises, the seed stores it under its raw id. */
  lemma SeenRawIdKept()
    ensures var t := EmptyTables.(films := [FilmRow("z", "Z", None)]);
            && SeenReplaced(t, 2024, ["z"], map[]) == Err(UnknownSourceId("z"))
            && SeenSeeded(t, 2024, ["z"], map[]) == Ok(t.(defaultSeen := {(2024, "z")}))
  {
    var t := EmptyTables.(films := [FilmRow("z", "Z", None)]);
    assert ["z"][..0] == [];
    assert "z" in FilmIds(t.films) by { assert t.films[0].id == "z"; }
    var t1 := t.(defaultSeen := OtherYearSeen({}, 2024));
    assert OtherYearSeen({}, 2024) == {};
    assert SeenSeeded(t, 2024, [], map[]) == Ok(t1);
    assert t1 == t;
    assert SeedSeenStep(t, 2024, "z", map[]) == Ok(t.(defaultSeen := {} + {(2024, "z")}));
    assert {} + {(2024, "z")} == {(2024, "z")};
  }

  // ---------------------------------------------------------------- `seed_year`

  /** `payload[key]` iterated: an absent key raises KeyError, a null TypeError. */
  function RequiredList<T>(f: Field<seq<T>>, key: string): Result<seq<T>, TableError> {
    match f
    case Missing => Err(MissingValue(key))
    case Null => Err(NotIterable(key))
    case Present(v) => Ok(v)
  }

  /** `payload.get(key, [])` iterated: only a null raises. */
  function OptionalList<T>(f: Field<seq<T>>, key: string): Result<seq<T>, TableError> {
    match f
    case Missing => Ok([])
    case Null => Err(NotIterable(key))
    case Present(v) => Ok(v)
  }

  /** What the steps of `seed_year` leave: the year, the category loop, the film
      loop, and the tables after nominations and default-seen films are replaced. */
  datatype SeedPhases = SeedPhases(year: int, categories: CategoryPhase, films: SeedFilmPhase, seeded: Tables)

  function SeedYearPhases(t: Tables, key: string, p: Payload): Result<SeedPhases, TableError> {
    match ParsePyInt(key)
    case None => Err(BadYearKey(key))
    case Some(year) =>
      match KeyText(p.yearLabel, "label")
      case Err(e) => Err(e)
      case Ok(yearLabel) =>
        match RequiredList(p.categories, "categories")
        case Err(e) => Err(e)
        case Ok(cats) =>
          match CategoriesUpserted(UpsertYear(t, year, yearLabel), year, cats)
          case Err(e) => Err(e)
          case Ok(cp) =>
            match RequiredList(p.films, "films")
            case Err(e) => Err(e)
            case Ok(films) =>
              match FilmsSeeded(cp.tables, year, films)
              case Err(e) => Err(e)
              case Ok(fp) =>
                match RequiredList(p.nominations, "nominations")
                case Err(e) => Err(e)
                case Ok(noms) =>
                  match NominationsReplaced(fp.tables, year, noms, cp.ids, fp.canonical)
                  case Err(e) => Err(e)
                  case Ok(t4) =>
                    match OptionalList(p.defaultSeen, "defaultSeenFilmIds")
                    case Err(e) => Err(e)
                    case Ok(seen) =>
                      match SeenSeeded(t4, year, seen, fp.canonical)
                      case Err(e) => Err(e)
                      case Ok(t5) => Ok(SeedPhases(year, cp, fp, t5))
  }

  /** The tables after `seed_year`, or the error it raises. */
  function SeedYear(t: Tables, key: string, p: Payload): Result<Tables, TableError> {
    match SeedYearPhases(t, key, p)
    case Err(e) => Err(e)
    case Ok(ph) => Ok(ph.seeded)
  }

  method SeedOneYear(t: Tables, key: string, p: Payload) returns (r: Result<Tables, TableError>)
    ensures r == SeedYear(t, key, p)
  {
    var year := ParsePyInt(key);
    if year.None? {
      return Err(BadYearKey(key));
    }
    if !p.yearLabel.Present? {
      return Err(MissingValue("label"));
    }
    var t1 := UpsertYear(t, year.value, p.yearLabel.value);
    var cats := RequiredList(p.categories, "categories");
    if cats.Err? {
      return Err(cats.error);
    }
    var cp := UpsertCategories(t1, year.value, cats.value);
    if cp.Err? {
      return Err(cp.error);
    }
    var films := RequiredList(p.films, "films");
    if films.Err? {
      return Err(films.error);
    }
    var fp := SeedFilms(cp.value.tables, year.value, films.value);
    if fp.Err? {
      return Err(fp.error);
    }
    var noms := RequiredList(p.nominations, "nominations");
    if noms.Err? {
      return Err(noms.error);
    }
    var t4 := ReplaceNominations(fp.value.tables, year.value, noms.value, cp.value.ids, fp.value.canonical);
    if t4.Err? {
      return Err(t4.error);
    }
    var seen := OptionalList(p.defaultSeen, "defaultSeenFilmIds");
    if seen.Err? {
      return Err(seen.error);
    }
    r := SeedDefaultSeen(t4.value, year.value, seen.value, fp.value.canonical);
  }

  /** The year key is read as Python's `int` reads it; a seeded year carries the
      payload's label, keeps the table invariants, gains exactly the payload's
      category names, and loses no film. */
  lemma SeedYearTables(t: Tables, key: string, p: Payload)
    requires Valid(t) && SeedYear(t, key, p).Ok?
    ensures var ph := SeedYearPhases(t, key, p).value;
            var u := ph.seeded;
            && ParsePyInt(key) == Some(ph.year)
            && p.yearLabel.Present? && p.categories.Present? && p.films.Present? && p.nominations.Present?
            && Valid(u)
            && u.years == t.years[ph.year := p.yearLabel.value]
            && Named(p.categories.value) && ph.categories.names == Names(p.categories.value)
            && CategoryKeys(u.categories) == CategoryKeys(t.categories) + YearKeys(ph.year, ph.categories.names)
            && FilmIds(t.films) <= FilmIds(u.films)
            && t.filmYears.Keys <= u.filmYears.Keys
            && (forall k :: k in u.filmYears && k.0 != ph.year ==> k in t.filmYears && u.filmYears[k] == t.filmYears[k])
  {
    var ph := SeedYearPhases(t, key, p).value;
    var t1 := UpsertYear(t, ph.year, p.yearLabel.value);
    CategoriesUpsertedKeys(t1, ph.year, p.categories.value);
    FilmsSeededTables(ph.categories.tables, ph.year, p.films.value);
    NominationsReplacedExactly(ph.films.tables, ph.year, p.nominations.value, ph.categories.ids, ph.films.canonical);
    var t4 := NominationsReplaced(ph.films.tables, ph.year, p.nominations.value, ph.categories.ids, ph.films.canonical).value;
    SeenSeededEffect(t4, ph.year, OptionalList(p.defaultSeen, "defaultSeenFilmIds").value, ph.films.canonical);
  }

  /** The year's nominations are exactly the payload's, in order, each naming the
      year's category of that name and the film its source id resolved to; the
      year's default-seen films are the entries mapped, unmapped ones under their
      raw id, each a film; other years' rows are untouched. */
  lemma SeedYearRows(t: Tables, key: string, p: Payload)
    requires Valid(t) && SeedYear(t, key, p).Ok?
    ensures var ph := SeedYearPhases(t, key, p).value;
            var u := ph.seeded;
            var noms := p.nominations.value;
            var rows := YearRows(u.nominations, ph.year);
            var seen := OptionalList(p.defaultSeen, "defaultSeenFilmIds").value;
            && p.nominations.Present?
            && OtherYearRows(u.nominations, ph.year) == OtherYearRows(t.nominations, ph.year)
            && |rows| == |noms|
            && (forall k :: 0 <= k < |noms| ==>
                 && noms[k].category.Present? && noms[k].filmId.Present? && noms[k].filmId.value in ph.films.canonical
                 && CategoryIdOf(u.categories, ph.year, noms[k].category.value) == Some(rows[k].categoryId)
                 && rows[k].filmId == ph.films.canonical[noms[k].filmId.value]
                 && rows[k].filmId in FilmIds(u.films)
                 && rows[k].nominee == noms[k].nominee)
            && YearSeen(u.defaultSeen, ph.year) == Elements(SeenIds(seen, ph.films.canonical))
            && YearSeen(u.defaultSeen, ph.year) <= FilmIds(u.films)
            && OtherYearSeen(u.defaultSeen, ph.year) == OtherYearSeen(t.defaultSeen, ph.year)
  {
    var ph := SeedYearPhases(t, key, p).value;
    var t1 := UpsertYear(t, ph.year, p.yearLabel.value);
    var noms := p.nominations.value;
    var seen := OptionalList(p.defaultSeen, "defaultSeenFilmIds").value;
    CategoriesUpsertedKeys(t1, ph.year, p.categories.value);
    CategoriesUpsertedIds(t1, ph.year, p.categories.value);
    FilmsSeededTables(ph.categories.tables, ph.year, p.films.value);
    NominationsReplacedExactly(ph.films.tables, ph.year, noms, ph.categories.ids, ph.films.canonical);
    var t4 := NominationsReplaced(ph.films.tables, ph.year, noms, ph.categories.ids, ph.films.canonical).value;
    SeenSeededEffect(t4, ph.year, seen, ph.films.canonical);
    SeenSeededOk(t4, ph.year, seen, ph.films.canonical);
    var u := ph.seeded;
    forall x | x in YearSeen(u.defaultSeen, ph.year) ensures x in FilmIds(u.films) {
      var k :| 0 <= k < |seen| && SeenIds(seen, ph.films.canonical)[k] == x;
    }
    forall k | 0 <= k < |noms| ensures CategoryIdOf(u.categories, ph.year, noms[k].category.value) == Some(YearRows(u.nominations, ph.year)[k].categoryId) {
      assert noms[k].category.value in ph.categories.names;
    }
  }

  // ---------------------------------------------------------------- `main`

  /** The loop over `data['years'].items()`. `seed_year` runs `int(year_key)` before it
      subscripts the value, so a bad key raises first, and a value that is not an object
      raises under a good key. */
  function Seeded(t: Tables, entries: seq<(string, YearEntry)>): Result<Tables, TableError> {
    if |entries| == 0 then Ok(t)
    else
      match Seeded(t, entries[..|entries| - 1])
      case Err(e) => Err(e)
      case Ok(t1) =>
        var key, entry := entries[|entries| - 1].0, entries[|entries| - 1].1;
        if entry.PayloadEntry? then SeedYear(t1, key, entry.payload)
        else if ParsePyInt(key).None? then Err(BadYearKey(key))
        else Err(NotADict(key))
  }

  method SeedEntries(t: Tables, entries: seq<(string, YearEntry)>) returns (r: Result<Tables, TableError>)
    ensures r == Seeded(t, entries)
  {
    var cur := t;
    for i := 0 to |entries|
      invariant Seeded(t, entries[..i]) == Ok(cur)
    {
      assert entries[..i + 1][..i] == entries[..i];
      var (key, entry) := entries[i];
      if !entry.PayloadEntry? {
        SeededErrSticks(t, entries, i + 1);
        if ParsePyInt(key).None? {
          return Err(BadYearKey(key));
        }
        return Err(NotADict(key));
      }
      var next := SeedOneYear(cur, key, entry.payload);
      if next.Err? {
        SeededErrSticks(t, entries, i + 1);
        return next;
      }
      cur := next.value;
    }
    assert entries[..|entries|] == entries;
    return Ok(cur);
  }

  lemma {:induction false} SeededErrSticks(t: Tables, entries: seq<(string, YearEntry)>, k: nat)
    requires k <= |entries| && Seeded(t, entries[..k]).Err?
    ensures Seeded(t, entries) == Seeded(t, entries[..k])
  {
    if k < |entries| {
      var init := entries[..|entries| - 1];
      assert init[..k] == entries[..k];
      SeededErrSticks(t, init, k);
    } else {
      assert entries[..k] == entries;
    }
  }

  /** `main` after the file is parsed: the whole seed is one transaction, so any
      error leaves the tables as they were (the caller keeps `t`). */
  function SeedDocument(t: Tables, doc: Document): Result<Tables, TableError> {
    match doc
    case NonObject => Err(NotADict("years"))
    case Object(_, years, _) =>
      match years
      case Missing => Err(MissingValue("years"))
      case Null => Err(NotADict("years"))
      case Present(entries) => Seeded(t, entries)
  }

  lemma SeedYearKeeps(t: Tables, key: string, p: Payload)
    requires Valid(t) && SeedYear(t, key, p).Ok?
    ensures var u := SeedYear(t, key, p).value;
            Valid(u) && t.years.Keys <= u.years.Keys && KeyYearIn(key, u.years)
  {
    SeedYearTables(t, key, p);
  }

  /** The year key parses to a year of `years`. */
  predicate KeyYearIn(key: string, years: map<int, string>) {
    ParsePyInt(key).Some? && ParsePyInt(key).value in years
  }

  /** A committed seed keeps the table invariants and loses no year. */
  lemma {:induction false} SeededValid(t: Tables, entries: seq<(string, YearEntry)>)
    requires Valid(t) && Seeded(t, entries).Ok?
    ensures var u := Seeded(t, entries).value;
            && Valid(u)
            && t.years.Keys <= u.years.Keys
  {
    if |entries| > 0 {
      var init := entries[..|entries| - 1];
      SeededValid(t, init);
      var t1 := Seeded(t, init).value;
      var key, entry := entries[|entries| - 1].0, entries[|entries| - 1].1;
      assert entry.PayloadEntry?;
      var u := SeedYear(t1, key, entry.payload).value;
      assert Seeded(t, entries) == Ok(u);
      SeedYearKeeps(t1, key, entry.payload);
    }
  }

  lemma KeysStillIn(entries: seq<(string, YearEntry)>, a: map<int, string>, b: map<int, string>)
    requires |entries| > 0 && a.Keys <= b.Keys
    requires var init := entries[..|entries| - 1]; forall k :: 0 <= k < |init| ==> KeyYearIn(init[k].0, a)
    requires KeyYearIn(entries[|entries| - 1].0, b)
    ensures forall k :: 0 <= k < |entries| ==> KeyYearIn(entries[k].0, b)
  {
    var init := entries[..|entries| - 1];
    forall k | 0 <= k < |entries| ensures KeyYearIn(entries[k].0, b) {
      if k < |init| {
        assert init[k] == entries[k];
        assert KeyYearIn(init[k].0, a);
      }
    }
  }

  /** Every year key of the file names a year of a committed seed. */
  lemma {:induction false} SeededYears(t: Tables, entries: seq<(string, YearEntry)>)
    requires Valid(t) && Seeded(t, entries).Ok?
    ensures forall k :: 0 <= k < |entries| ==> KeyYearIn(entries[k].0, Seeded(t, entries).value.years)
  {
    if |entries| > 0 {
      var init := entries[..|entries| - 1];
      SeededYears(t, init);
      SeededValid(t, init);
      var t1 := Seeded(t, init).value;
      var key, entry := entries[|entries| - 1].0, entries[|entries| - 1].1;
      var u := SeedYear(t1, key, entry.payload).value;
      SeedYearKeeps(t1, key, entry.payload);
      KeysStillIn(entries, t1.years, u.years);
    }
  }
}
