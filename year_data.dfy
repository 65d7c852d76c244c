/**
 * A nominee year as read from its JSON file: how the payload is selected from a
 * document, and the validator that lists what is wrong with it before anything
 * is imported.
 */
module YearData {
  import opened Wrappers
  import opened Text

  // ---------------------------------------------------------------- the payload

  /** A key of a JSON object: absent, `null`, or present with a value. */
  datatype Field<T> = Missing | Null | Present(value: T)

  /** `payload.get(key) or []`. */
  function OrEmpty<T>(f: Field<seq<T>>): seq<T> {
    if f.Present? then f.value else []
  }

  /** `str(obj.get(key, '')).strip()` for a field holding a string or `null`. */
  function FieldText(f: Field<string>): string {
    match f
    case Missing => ""
    case Null => "None"
    case Present(s) => PyStrip(s)
  }

  datatype YearValue = YearNumber(n: int) | YearText(text: string)

  /** The `availability` object of a film; a missing key reads as ''. */
  datatype Availability = Availability(free: string, subscription: string, rent: string, theaters: string)

  /** A category; `name` is None when the key is absent. */
  datatype CategoryIn = CategoryIn(name: Option<string>, yearStarted: Option<int>, yearEnded: Option<int>)

  datatype FilmIn = FilmIn(id: Field<string>, title: Field<string>, externalId: Field<string>, availability: Availability)

  datatype NominationIn = NominationIn(category: Field<string>, filmId: Field<string>, nominee: string)

  datatype Payload = Payload(
    year: Field<YearValue>,
    yearLabel: Field<string>,
    categories: Field<seq<CategoryIn>>,
    films: Field<seq<FilmIn>>,
    nominations: Field<seq<NominationIn>>,
    defaultSeen: Field<seq<string>>)

  // ---------------------------------------------------------------- selecting the payload

  /** A value of the `years` object. */
  datatype YearEntry = PayloadEntry(payload: Payload) | NullEntry | OtherEntry

  /** The parsed file: something other than an object, or an object with an optional
      `years` bundle whose own keys, when it is not a bundle, are the payload. */
  datatype Document =
    | NonObject
    | Object(schemaVersion: Option<string>, years: Field<seq<(string, YearEntry)>>, body: Payload)

  datatype LoadError =
    | MultipleYears      // 'File contains multiple years; pass --year explicitly.'
    | YearNotFound(year: int)
    | InvalidPayload     // 'Invalid year payload.'
    | BadYear            // `int()` of the year key or field raised
    | NotAnObject        // `.get` on a document that is not an object

  datatype Loaded = Loaded(year: int, payload: Payload, schemaVersion: Option<string>)

  /** The value stored under `key`, as `dict.get` finds it. */
  function Lookup(items: seq<(string, YearEntry)>, key: string): Option<YearEntry> {
    if |items| == 0 then None
    else if items[0].0 == key then Some(items[0].1)
    else Lookup(items[1..], key)
  }

  /** `load_year_payload` on the already-parsed document. */
  function LoadYearPayload(doc: Document, year: Option<int>): Result<Loaded, LoadError> {
    match doc
    case NonObject => if year.None? then Err(NotAnObject) else Err(InvalidPayload)
    case Object(schema, years, body) =>
      if !years.Missing? then
        var items := OrEmpty(years);
        if year.None? then
          if |items| != 1 then Err(MultipleYears)
          else
            match ParsePyInt(items[0].0)
            case None => Err(BadYear)
            case Some(y) =>
              match items[0].1
              case PayloadEntry(p) => Ok(Loaded(y, p, schema))
              case _ => Err(InvalidPayload)
        else
          match Lookup(items, IntToDecimal(year.value))
          case None => Err(YearNotFound(year.value))
          case Some(NullEntry) => Err(YearNotFound(year.value))
          case Some(OtherEntry) => Err(InvalidPayload)
          case Some(PayloadEntry(p)) => Ok(Loaded(year.value, p, schema))
      else if year.Some? then Ok(Loaded(year.value, body, schema))
      else
        match body.year
        case Present(YearNumber(n)) => Ok(Loaded(n, body, schema))
        case Present(YearText(s)) =>
          (match ParsePyInt(s) case Some(n) => Ok(Loaded(n, body, schema)) case None => Err(BadYear))
        case _ => Err(BadYear)
  }

  lemma {:induction false} LookupFound(items: seq<(string, YearEntry)>, key: string)
    ensures Lookup(items, key).Some? <==> exists i :: 0 <= i < |items| && items[i].0 == key
  {
    if |items| > 0 && items[0].0 != key {
      LookupFound(items[1..], key);
      if exists i :: 0 <= i < |items| && items[i].0 == key {
        var i :| 0 <= i < |items| && items[i].0 == key;
        assert items[1..][i - 1].0 == key;
      }
    }
  }

  /** A bundle read without a year loads only when it holds exactly one year, and
      then takes that year from the key. */
  lemma BundleWithoutYear(schema: Option<string>, items: seq<(string, YearEntry)>, body: Payload)
    ensures var r := LoadYearPayload(Object(schema, Present(items), body), None);
            (r.Ok? ==> |items| == 1 && Some(r.value.year) == ParsePyInt(items[0].0)
                       && items[0].1 == PayloadEntry(r.value.payload))
            && (|items| != 1 ==> r == Err(MultipleYears))
  {
  }

  /** A bundle read for a year loads that year's payload, and fails when the year is
      not among its keys. */
  lemma BundleWithYear(schema: Option<string>, items: seq<(string, YearEntry)>, body: Payload, year: int)
    ensures var r := LoadYearPayload(Object(schema, Present(items), body), Some(year));
            (r.Ok? ==> r.value.year == year && Lookup(items, IntToDecimal(year)) == Some(PayloadEntry(r.value.payload)))
            && ((forall i :: 0 <= i < |items| ==> items[i].0 != IntToDecimal(year)) ==> r == Err(YearNotFound(year)))
  {
    LookupFound(items, IntToDecimal(year));
  }

  /** A document without a bundle is the payload, with the requested year or else
      its own `year` field; a document that is not an object never loads. */
  lemma PlainDocument(schema: Option<string>, body: Payload, year: Option<int>, n: nat)
    ensures LoadYearPayload(Object(schema, Missing, body), Some(n)) == Ok(Loaded(n, body, schema))
    ensures body.year == Present(YearNumber(n)) ==>
              LoadYearPayload(Object(schema, Missing, body), None) == Ok(Loaded(n, body, schema))
    ensures body.year == Present(YearText(NatToDecimal(n))) ==>
              LoadYearPayload(Object(schema, Missing, body), None) == Ok(Loaded(n, body, schema))
    ensures LoadYearPayload(NonObject, year).Err?
  {
    ParseDecimal(n);
  }

  // ---------------------------------------------------------------- validation

  /** The entries of the validation result. There is no error for the shape of an
      external id: that is only ever a warning. */
  datatype Issue =
    | MissingKey(key: string)            // 'Missing required key: <key>'
    | EmptyCategoryName                  // 'All categories must have a non-empty name.'
    | DuplicateCategoryName              // 'Category names must be unique within the year.'
    | EmptyFilmId                        // 'Each film must have a non-empty id.'
    | EmptyTitle(film: string)           // 'Film <id or <missing id>> has empty title.'
    | DuplicateFilmId                    // 'Film ids must be unique within the year payload.'
    | DuplicateExternalId                // 'externalId values must be unique within the year payload.'
    | UnknownCategory(name: string)      // 'Nomination references unknown category: <name>'
    | UnknownFilm(filmId: string)        // 'Nomination references unknown filmId: <id>'
    | UnknownDefaultSeen(filmId: string) // 'defaultSeenFilmIds contains unknown filmId: <id>'

  /** 'Film <id> has externalId "<ext>" not matching tt1234567 format.' */
  datatype Warning = BadExternalId(filmId: string, externalId: string)

  datatype Counts = Counts(categories: nat, films: nat, nominations: nat, defaultSeen: nat)

  datatype Report = Report(year: int, errors: seq<Issue>, warnings: seq<Warning>, counts: Counts)

  const RequiredKeys: seq<string> := ["label", "categories", "films", "nominations"]

  /** `key not in payload` for the required keys. */
  predicate KeyMissing(p: Payload, key: string) {
    match key
    case "label" => p.yearLabel.Missing?
    case "categories" => p.categories.Missing?
    case "films" => p.films.Missing?
    case "nominations" => p.nominations.Missing?
    case _ => false
  }

  function MissingKeyIssues(p: Payload, keys: seq<string>): seq<Issue> {
    if |keys| == 0 then []
    else MissingKeyIssues(p, keys[..|keys| - 1]) + (if KeyMissing(p, keys[|keys| - 1]) then [MissingKey(keys[|keys| - 1])] else [])
  }

  function CategoryNames(cats: seq<CategoryIn>): seq<string> {
    seq(|cats|, i requires 0 <= i < |cats| => PyStrip(cats[i].name.GetOr("")))
  }

  function CategoryIssues(names: seq<string>): seq<Issue> {
    (if "" in names then [EmptyCategoryName] else []) + (if !Distinct(names) then [DuplicateCategoryName] else [])
  }

  function FilmId(f: FilmIn): string { FieldText(f.id) }
  function FilmTitle(f: FilmIn): string { FieldText(f.title) }
  function FilmExternalId(f: FilmIn): string { FieldText(f.externalId) }

  /** `^tt\d+$` on the stripped external id. */
  predicate ImdbShaped(ext: string) {
    |ext| > 2 && ext[..2] == "tt" && AllDigits(ext[2..])
  }

  function FilmIssues(f: FilmIn): seq<Issue> {
    (if FilmId(f) == "" then [EmptyFilmId] else [])
    + (if FilmTitle(f) == "" then [EmptyTitle(if FilmId(f) == "" then "<missing id>" else FilmId(f))] else [])
  }

  function AllFilmIssues(films: seq<FilmIn>): seq<Issue> {
    if |films| == 0 then [] else AllFilmIssues(films[..|films| - 1]) + FilmIssues(films[|films| - 1])
  }

  function SourceIds(films: seq<FilmIn>): (ids: seq<string>)
    ensures |ids| == |films|
  {
    if |films| == 0 then [] else SourceIds(films[..|films| - 1]) + [FilmId(films[|films| - 1])]
  }

  function ExternalIds(films: seq<FilmIn>): seq<string> {
    if |films| == 0 then []
    else ExternalIds(films[..|films| - 1]) + (if FilmExternalId(films[|films| - 1]) != "" then [FilmExternalId(films[|films| - 1])] else [])
  }

  /** The warning one film gives: a non-empty external id that is not IMDb-shaped. */
  function FilmWarning(f: FilmIn): seq<Warning> {
    if FilmExternalId(f) != "" && !ImdbShaped(FilmExternalId(f)) then [BadExternalId(FilmId(f), FilmExternalId(f))] else []
  }

  function FilmWarnings(films: seq<FilmIn>): seq<Warning> {
    if |films| == 0 then [] else FilmWarnings(films[..|films| - 1]) + FilmWarning(films[|films| - 1])
  }

  function NominationIssues(n: NominationIn, names: set<string>, ids: set<string>): seq<Issue> {
    (if FieldText(n.category) !in names then [UnknownCategory(FieldText(n.category))] else [])
    + (if FieldText(n.filmId) !in ids then [UnknownFilm(FieldText(n.filmId))] else [])
  }

  function AllNominationIssues(noms: seq<NominationIn>, names: set<string>, ids: set<string>): seq<Issue> {
    if |noms| == 0 then []
    else AllNominationIssues(noms[..|noms| - 1], names, ids) + NominationIssues(noms[|noms| - 1], names, ids)
  }

  /** The default-seen entries are compared as they are, neither converted nor stripped. */
  function DefaultSeenIssues(seen: seq<string>, ids: set<string>): seq<Issue> {
    if |seen| == 0 then []
    else DefaultSeenIssues(seen[..|seen| - 1], ids) + (if seen[|seen| - 1] !in ids then [UnknownDefaultSeen(seen[|seen| - 1])] else [])
  }

  /** The four parts of the error list, in the order they are appended. */
  function KeyIssues(p: Payload): seq<Issue> { MissingKeyIssues(p, RequiredKeys) }

  function NameIssues(p: Payload): seq<Issue> { CategoryIssues(CategoryNames(OrEmpty(p.categories))) }

  function FilmPartIssues(p: Payload): seq<Issue> {
    var films := OrEmpty(p.films);
    AllFilmIssues(films)
    + (if !Distinct(SourceIds(films)) then [DuplicateFilmId] else [])
    + (if !Distinct(ExternalIds(films)) then [DuplicateExternalId] else [])
  }

  function ReferenceIssues(p: Payload): seq<Issue> {
    var ids := Elements(SourceIds(OrEmpty(p.films)));
    AllNominationIssues(OrEmpty(p.nominations), Elements(CategoryNames(OrEmpty(p.categories))), ids)
    + DefaultSeenIssues(OrEmpty(p.defaultSeen), ids)
  }

  /** Everything `validate_year_payload` reports, in the order it reports it. */
  function ValidationReport(year: int, p: Payload): Report {
    Report(year, KeyIssues(p) + NameIssues(p) + FilmPartIssues(p) + ReferenceIssues(p),
           FilmWarnings(OrEmpty(p.films)),
           Counts(|OrEmpty(p.categories)|, |OrEmpty(p.films)|, |OrEmpty(p.nominations)|, |OrEmpty(p.defaultSeen)|))
  }

  method CheckRequiredKeys(p: Payload) returns (errors: seq<Issue>)
    ensures errors == KeyIssues(p)
  {
    errors := [];
    for i := 0 to |RequiredKeys|
      invariant errors == MissingKeyIssues(p, RequiredKeys[..i])
    {
      if KeyMissing(p, RequiredKeys[i]) {
        errors := errors + [MissingKey(RequiredKeys[i])];
      }
      assert RequiredKeys[..i + 1][..i] == RequiredKeys[..i];
    }
    assert RequiredKeys[..|RequiredKeys|] == RequiredKeys;
  }

  method CheckCategoryNames(names: seq<string>) returns (errors: seq<Issue>)
    ensures errors == CategoryIssues(names)
  {
    errors := [];
    if "" in names {
      errors := errors + [EmptyCategoryName];
    }
    ElementsSize(names);
    if |Elements(names)| != |names| {
      errors := errors + [DuplicateCategoryName];
    }
  }

  /** The film loop: its errors, its warnings, and the id lists it collects. */
  method CheckFilms(films: seq<FilmIn>) returns (errors: seq<Issue>, warnings: seq<Warning>, sourceIds: seq<string>)
    ensures errors == AllFilmIssues(films)
                      + (if !Distinct(SourceIds(films)) then [DuplicateFilmId] else [])
                      + (if !Distinct(ExternalIds(films)) then [DuplicateExternalId] else [])
    ensures warnings == FilmWarnings(films)
    ensures sourceIds == SourceIds(films)
  {
    errors, warnings, sourceIds := [], [], [];
    var externalIds: seq<string> := [];
    for i := 0 to |films|
      invariant errors == AllFilmIssues(films[..i])
      invariant warnings == FilmWarnings(films[..i])
      invariant sourceIds == SourceIds(films[..i])
      invariant externalIds == ExternalIds(films[..i])
    {
      FilmsStep(films, i);
      var sourceId := FieldText(films[i].id);
      var title := FieldText(films[i].title);
      var externalId := FieldText(films[i].externalId);
      if sourceId == "" {
        errors := errors + [EmptyFilmId];
      }
      if title == "" {
        errors := errors + [EmptyTitle(if sourceId == "" then "<missing id>" else sourceId)];
      }
      sourceIds := sourceIds + [sourceId];
      if externalId != "" {
        externalIds := externalIds + [externalId];
        if !ImdbShaped(externalId) {
          warnings := warnings + [BadExternalId(sourceId, externalId)];
        }
      }
    }
    assert films[..|films|] == films;
    ElementsSize(sourceIds);
    if |Elements(sourceIds)| != |sourceIds| {
      errors := errors + [DuplicateFilmId];
    }
    ElementsSize(externalIds);
    if |Elements(externalIds)| != |externalIds| {
      errors := errors + [DuplicateExternalId];
    }
  }

  /** One step of the film loop: each list grows by what the next film gives. */
  lemma FilmsStep(films: seq<FilmIn>, i: nat)
    requires i < |films|
    ensures AllFilmIssues(films[..i + 1]) == AllFilmIssues(films[..i]) + FilmIssues(films[i])
    ensures FilmWarnings(films[..i + 1]) == FilmWarnings(films[..i]) + FilmWarning(films[i])
    ensures SourceIds(films[..i + 1]) == SourceIds(films[..i]) + [FilmId(films[i])]
    ensures ExternalIds(films[..i + 1]) == ExternalIds(films[..i]) + (if FilmExternalId(films[i]) != "" then [FilmExternalId(films[i])] else [])
  {
    assert films[..i + 1][..i] == films[..i];
  }

  method CheckReferences(nominations: seq<NominationIn>, defaultSeen: seq<string>, categorySet: set<string>, sourceIdSet: set<string>)
    returns (errors: seq<Issue>)
    ensures errors == AllNominationIssues(nominations, categorySet, sourceIdSet) + DefaultSeenIssues(defaultSeen, sourceIdSet)
  {
    errors := [];
    for i := 0 to |nominations|
      invariant errors == AllNominationIssues(nominations[..i], categorySet, sourceIdSet)
    {
      var categoryName := FieldText(nominations[i].category);
      var filmId := FieldText(nominations[i].filmId);
      if categoryName !in categorySet {
        errors := errors + [UnknownCategory(categoryName)];
      }
      if filmId !in sourceIdSet {
        errors := errors + [UnknownFilm(filmId)];
      }
      assert nominations[..i + 1][..i] == nominations[..i];
    }
    assert nominations[..|nominations|] == nominations;
    ghost var before := errors;
    for i := 0 to |defaultSeen|
      invariant errors == before + DefaultSeenIssues(defaultSeen[..i], sourceIdSet)
    {
      if defaultSeen[i] !in sourceIdSet {
        errors := errors + [UnknownDefaultSeen(defaultSeen[i])];
      }
      assert defaultSeen[..i + 1][..i] == defaultSeen[..i];
    }
    assert defaultSeen[..|defaultSeen|] == defaultSeen;
  }

  /** `validate_year_payload`. */
  method Validate(year: int, p: Payload) returns (report: Report)
    ensures report == ValidationReport(year, p)
  {
    var keyErrors := CheckRequiredKeys(p);
    var categories := OrEmpty(p.categories);
    var films := OrEmpty(p.films);
    var nominations := OrEmpty(p.nominations);
    var defaultSeen := OrEmpty(p.defaultSeen);
    var names := CategoryNames(categories);
    var nameErrors := CheckCategoryNames(names);
    var filmErrors, warnings, sourceIds := CheckFilms(films);
    var referenceErrors := CheckReferences(nominations, defaultSeen, Elements(names), Elements(sourceIds));
    report := Report(year, keyErrors + nameErrors + filmErrors + referenceErrors, warnings,
                     Counts(|categories|, |films|, |nominations|, |defaultSeen|));
  }

  // ---------------------------------------------------------------- what the report says

  lemma {:induction false} MissingKeyCount(p: Payload, keys: seq<string>, key: string)
    requires Distinct(keys)
    ensures multiset(MissingKeyIssues(p, keys))[MissingKey(key)]
            == if key in keys && KeyMissing(p, key) then 1 else 0
  {
    if |keys| > 0 {
      var init := keys[..|keys| - 1];
      assert Distinct(init);
      MissingKeyCount(p, init, key);
      assert keys == init + [keys[|keys| - 1]];
      assert key in keys <==> key in init || key == keys[|keys| - 1];
      assert key == keys[|keys| - 1] ==> key !in init;
    }
  }

  lemma {:induction false} MissingKeyIssuesKind(p: Payload, keys: seq<string>)
    ensures forall x :: x in MissingKeyIssues(p, keys) ==> x.MissingKey?
  {
    if |keys| > 0 {
      MissingKeyIssuesKind(p, keys[..|keys| - 1]);
    }
  }

  lemma {:induction false} AllFilmIssuesConcat(films: seq<FilmIn>)
    ensures AllFilmIssues(films) == Concat(films, FilmIssues)
  {
    if |films| > 0 {
      AllFilmIssuesConcat(films[..|films| - 1]);
    }
  }

  lemma AllFilmIssuesMembers(films: seq<FilmIn>, x: Issue)
    ensures x in AllFilmIssues(films) <==> exists i :: 0 <= i < |films| && x in FilmIssues(films[i])
  {
    AllFilmIssuesConcat(films);
    ConcatMembers(films, FilmIssues, x);
  }

  lemma {:induction false} ExternalIdsMembers(films: seq<FilmIn>, x: string)
    ensures x in ExternalIds(films) <==> x != "" && exists i :: 0 <= i < |films| && FilmExternalId(films[i]) == x
  {
    if |films| > 0 {
      var init := films[..|films| - 1];
      ExternalIdsMembers(init, x);
      if x != "" && exists i :: 0 <= i < |films| && FilmExternalId(films[i]) == x {
        var i :| 0 <= i < |films| && FilmExternalId(films[i]) == x;
        if i < |init| { assert init[i] == films[i]; }
      }
      if x in ExternalIds(init) {
        var i :| 0 <= i < |init| && FilmExternalId(init[i]) == x;
        assert films[i] == init[i];
      }
    }
  }

  lemma {:induction false} FilmWarningsConcat(films: seq<FilmIn>)
    ensures FilmWarnings(films) == Concat(films, FilmWarning)
  {
    if |films| > 0 {
      FilmWarningsConcat(films[..|films| - 1]);
    }
  }

  lemma FilmWarningsMembers(films: seq<FilmIn>, w: Warning)
    ensures w in FilmWarnings(films) <==>
      exists i :: 0 <= i < |films| && FilmExternalId(films[i]) != "" && !ImdbShaped(FilmExternalId(films[i]))
                  && w == BadExternalId(FilmId(films[i]), FilmExternalId(films[i]))
  {
    FilmWarningsConcat(films);
    ConcatMembers(films, FilmWarning, w);
  }

  lemma {:induction false} AllNominationIssuesMembers(noms: seq<NominationIn>, names: set<string>, ids: set<string>, x: Issue)
    ensures x in AllNominationIssues(noms, names, ids) <==>
            exists i :: 0 <= i < |noms| && x in NominationIssues(noms[i], names, ids)
  {
    if |noms| > 0 {
      var init := noms[..|noms| - 1];
      AllNominationIssuesMembers(init, names, ids, x);
      if x in AllNominationIssues(init, names, ids) {
        var i :| 0 <= i < |init| && x in NominationIssues(init[i], names, ids);
        assert noms[i] == init[i];
      }
      if exists i :: 0 <= i < |noms| && x in NominationIssues(noms[i], names, ids) {
        var i :| 0 <= i < |noms| && x in NominationIssues(noms[i], names, ids);
        if i < |init| { assert init[i] == noms[i]; }
      }
    }
  }

  lemma {:induction false} DefaultSeenIssuesMembers(seen: seq<string>, ids: set<string>, x: Issue)
    ensures x in DefaultSeenIssues(seen, ids) <==> exists i :: 0 <= i < |seen| && seen[i] !in ids && x == UnknownDefaultSeen(seen[i])
  {
    if |seen| > 0 {
      var init := seen[..|seen| - 1];
      DefaultSeenIssuesMembers(init, ids, x);
      if x in DefaultSeenIssues(init, ids) {
        var i :| 0 <= i < |init| && init[i] !in ids && x == UnknownDefaultSeen(init[i]);
        assert seen[i] == init[i];
      }
      if exists i :: 0 <= i < |seen| && seen[i] !in ids && x == UnknownDefaultSeen(seen[i]) {
        var i :| 0 <= i < |seen| && seen[i] !in ids && x == UnknownDefaultSeen(seen[i]);
        if i < |init| { assert init[i] == seen[i]; }
      }
    }
  }

  predicate IsNameIssue(x: Issue) { x.EmptyCategoryName? || x.DuplicateCategoryName? }
  predicate IsFilmIssue(x: Issue) { x.EmptyFilmId? || x.EmptyTitle? || x.DuplicateFilmId? || x.DuplicateExternalId? }
  predicate IsReferenceIssue(x: Issue) { x.UnknownCategory? || x.UnknownFilm? || x.UnknownDefaultSeen? }

  /** An entry found in none of the later parts is counted in the first part alone. */
  lemma CountInFirst(a: seq<Issue>, b: seq<Issue>, c: seq<Issue>, d: seq<Issue>, x: Issue)
    requires x !in b && x !in c && x !in d
    ensures multiset(a + b + c + d)[x] == multiset(a)[x]
  {
    assert multiset(a + b + c + d) == multiset(a) + multiset(b) + multiset(c) + multiset(d);
  }

  /** An entry of the film kind is in the report exactly when it is in the film part. */
  lemma FilmOnly(year: int, p: Payload, x: Issue)
    requires IsFilmIssue(x)
    ensures x in ValidationReport(year, p).errors <==> x in FilmPartIssues(p)
  {
    PartKinds(p, x);
  }

  lemma FilmPartKind(p: Payload, x: Issue)
    ensures x in FilmPartIssues(p) ==> IsFilmIssue(x)
  {
    var films := OrEmpty(p.films);
    if x in AllFilmIssues(films) {
      AllFilmIssuesMembers(films, x);
      var i :| 0 <= i < |films| && x in FilmIssues(films[i]);
    }
  }

  lemma ReferencePartKind(p: Payload, x: Issue)
    ensures x in ReferenceIssues(p) ==> IsReferenceIssue(x)
  {
    var ids := Elements(SourceIds(OrEmpty(p.films)));
    var names := Elements(CategoryNames(OrEmpty(p.categories)));
    var noms := OrEmpty(p.nominations);
    if x in AllNominationIssues(noms, names, ids) {
      AllNominationIssuesMembers(noms, names, ids, x);
      var i :| 0 <= i < |noms| && x in NominationIssues(noms[i], names, ids);
    }
    if x in DefaultSeenIssues(OrEmpty(p.defaultSeen), ids) {
      DefaultSeenIssuesMembers(OrEmpty(p.defaultSeen), ids, x);
    }
  }

  /** Each part of the error list holds only its own kind of entry. */
  lemma PartKinds(p: Payload, x: Issue)
    ensures x in KeyIssues(p) ==> x.MissingKey?
    ensures x in NameIssues(p) ==> IsNameIssue(x)
    ensures x in FilmPartIssues(p) ==> IsFilmIssue(x)
    ensures x in ReferenceIssues(p) ==> IsReferenceIssue(x)
  {
    MissingKeyIssuesKind(p, RequiredKeys);
    FilmPartKind(p, x);
    ReferencePartKind(p, x);
  }

  /** A reference error is in the report exactly when it is in the reference part. */
  lemma ReferenceOnly(year: int, p: Payload, x: Issue)
    requires IsReferenceIssue(x)
    ensures x in ValidationReport(year, p).errors <==> x in ReferenceIssues(p)
  {
    PartKinds(p, x);
  }

  /** Each required key that is absent gives exactly one error, and a present one none. */
  lemma MissingKeysReported(year: int, p: Payload, key: string)
    requires key in RequiredKeys
    ensures multiset(ValidationReport(year, p).errors)[MissingKey(key)] == if KeyMissing(p, key) then 1 else 0
  {
    var e := MissingKey(key);
    KeyCount(p, key);
    PartKinds(p, e);
    CountInFirst(KeyIssues(p), NameIssues(p), FilmPartIssues(p), ReferenceIssues(p), e);
  }

  lemma KeyCount(p: Payload, key: string)
    requires key in RequiredKeys
    ensures multiset(KeyIssues(p))[MissingKey(key)] == if KeyMissing(p, key) then 1 else 0
  {
    assert Distinct(RequiredKeys);
    MissingKeyCount(p, RequiredKeys, key);
  }

  /** The category errors: one for any empty name, one for any repeated name. */
  lemma CategoryErrorsReported(year: int, p: Payload)
    ensures var names := CategoryNames(OrEmpty(p.categories));
            var errors := ValidationReport(year, p).errors;
            (EmptyCategoryName in errors <==> "" in names)
            && (DuplicateCategoryName in errors <==> !Distinct(names))
  {
    PartKinds(p, EmptyCategoryName);
    PartKinds(p, DuplicateCategoryName);
  }

  /** Film errors: an empty id of any film is reported, an empty title is reported
      under its film's id (or "<missing id>") and no other title error appears, and a
      repeated id or a repeated non-empty external id is reported. */
  lemma FilmErrorsReported(year: int, p: Payload)
    ensures var films := OrEmpty(p.films);
            var errors := ValidationReport(year, p).errors;
            (EmptyFilmId in errors <==> exists i :: 0 <= i < |films| && FilmId(films[i]) == "")
            && (forall s :: EmptyTitle(s) in errors <==>
                  exists i :: 0 <= i < |films| && FilmTitle(films[i]) == ""
                              && s == (if FilmId(films[i]) == "" then "<missing id>" else FilmId(films[i])))
            && (DuplicateFilmId in errors <==> !Distinct(SourceIds(films)))
            && (DuplicateExternalId in errors <==> !Distinct(ExternalIds(films)))
  {
    var films := OrEmpty(p.films);
    var errors := ValidationReport(year, p).errors;
    FilmOnly(year, p, EmptyFilmId);
    FilmOnly(year, p, DuplicateFilmId);
    FilmOnly(year, p, DuplicateExternalId);
    FilmPartMembers(p);
    forall s {
      EmptyTitleReported(year, p, s);
    }
  }

  /** The empty-title error for `s` is reported exactly when a film with an empty
      title is listed under `s`. */
  lemma EmptyTitleReported(year: int, p: Payload, s: string)
    ensures var films := OrEmpty(p.films);
            EmptyTitle(s) in ValidationReport(year, p).errors <==>
              exists i :: 0 <= i < |films| && FilmTitle(films[i]) == ""
                          && s == (if FilmId(films[i]) == "" then "<missing id>" else FilmId(films[i]))
  {
    var films := OrEmpty(p.films);
    var x := EmptyTitle(s);
    FilmOnly(year, p, x);
    AllFilmIssuesMembers(films, x);
    assert x in FilmPartIssues(p) <==> x in AllFilmIssues(films);
    forall i | 0 <= i < |films|
      ensures x in FilmIssues(films[i]) <==>
                FilmTitle(films[i]) == "" && s == (if FilmId(films[i]) == "" then "<missing id>" else FilmId(films[i]))
    {
    }
  }

  /** The film part, entry kind by entry kind. */
  lemma FilmPartMembers(p: Payload)
    ensures var films := OrEmpty(p.films);
            (EmptyFilmId in FilmPartIssues(p) <==> exists i :: 0 <= i < |films| && FilmId(films[i]) == "")
            && (DuplicateFilmId in FilmPartIssues(p) <==> !Distinct(SourceIds(films)))
            && (DuplicateExternalId in FilmPartIssues(p) <==> !Distinct(ExternalIds(films)))
  {
    var films := OrEmpty(p.films);
    AllFilmIssuesMembers(films, EmptyFilmId);
    AllFilmIssuesMembers(films, DuplicateFilmId);
    AllFilmIssuesMembers(films, DuplicateExternalId);
  }

  /** Reference errors: a nomination naming an unknown category or film, and a
      default-seen entry that is not a film id as written, are each reported. */
  lemma UnknownCategoryReported(year: int, p: Payload, x: string)
    ensures var noms := OrEmpty(p.nominations);
            UnknownCategory(x) in ValidationReport(year, p).errors <==>
              x !in CategoryNames(OrEmpty(p.categories)) && exists i :: 0 <= i < |noms| && FieldText(noms[i].category) == x
  {
    var ids := Elements(SourceIds(OrEmpty(p.films)));
    ReferenceOnly(year, p, UnknownCategory(x));
    AllNominationIssuesMembers(OrEmpty(p.nominations), Elements(CategoryNames(OrEmpty(p.categories))), ids, UnknownCategory(x));
    DefaultSeenIssuesMembers(OrEmpty(p.defaultSeen), ids, UnknownCategory(x));
  }

  lemma UnknownFilmReported(year: int, p: Payload, x: string)
    ensures var noms := OrEmpty(p.nominations);
            UnknownFilm(x) in ValidationReport(year, p).errors <==>
              x !in SourceIds(OrEmpty(p.films)) && exists i :: 0 <= i < |noms| && FieldText(noms[i].filmId) == x
  {
    var ids := Elements(SourceIds(OrEmpty(p.films)));
    var noms := OrEmpty(p.nominations);
    ReferenceOnly(year, p, UnknownFilm(x));
    DefaultSeenIssuesMembers(OrEmpty(p.defaultSeen), ids, UnknownFilm(x));
    AllNominationIssuesMembers(noms, Elements(CategoryNames(OrEmpty(p.categories))), ids, UnknownFilm(x));
    assert x in ids <==> x in SourceIds(OrEmpty(p.films));
  }

  lemma UnknownDefaultSeenReported(year: int, p: Payload, x: string)
    ensures UnknownDefaultSeen(x) in ValidationReport(year, p).errors <==>
              x !in SourceIds(OrEmpty(p.films)) && x in OrEmpty(p.defaultSeen)
  {
    var ids := Elements(SourceIds(OrEmpty(p.films)));
    ReferenceOnly(year, p, UnknownDefaultSeen(x));
    AllNominationIssuesMembers(OrEmpty(p.nominations), Elements(CategoryNames(OrEmpty(p.categories))), ids, UnknownDefaultSeen(x));
    DefaultSeenIssuesMembers(OrEmpty(p.defaultSeen), ids, UnknownDefaultSeen(x));
  }

  /** The warnings are exactly the non-empty external ids not of the `tt<digits>`
      form; the counts are the list lengths whatever the errors. */
  lemma WarningsAndCounts(year: int, p: Payload, w: Warning)
    ensures var r := ValidationReport(year, p);
            var films := OrEmpty(p.films);
            (w in r.warnings <==>
               exists i :: 0 <= i < |films| && FilmExternalId(films[i]) != "" && !ImdbShaped(FilmExternalId(films[i]))
                           && w == BadExternalId(FilmId(films[i]), FilmExternalId(films[i])))
            && r.counts == Counts(|OrEmpty(p.categories)|, |films|, |OrEmpty(p.nominations)|, |OrEmpty(p.defaultSeen)|)
  {
    FilmWarningsMembers(OrEmpty(p.films), w);
  }
}
