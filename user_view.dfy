/**
 * `web/user.js`: the pure parts of the ballot page. Which watch link is shown, in
 * which order the category selector lists the year's categories and which one it
 * selects, how the film list is sorted, what the progress bars count, and how a
 * pick is toggled and put back when saving it fails.
 */
module UserView {
  import opened Wrappers
  import opened Text

  // ---------------------------------------------------------------- watch links

  /** `lower.includes('justwatch.com') && (lower.includes('/search') || lower.includes('?q='))`. */
  predicate IsSearchLink(lower: string) {
    Contains(lower, "justwatch.com") && (Contains(lower, "/search") || Contains(lower, "?q="))
  }

  /** `resolveWatchUrl`: the trimmed link, or nothing when it is empty or only a
      JustWatch search page. A missing or null link reads as empty. */
  function ResolveWatchUrl(url: Option<string>): (r: string)
    ensures r == "" || r == JsTrim(url.GetOr(""))
    ensures r == "" <==> JsTrim(url.GetOr("")) == "" || IsSearchLink(Lower(JsTrim(url.GetOr(""))))
  {
    var trimmed := JsTrim(url.GetOr(""));
    if trimmed == "" then ""
    else if IsSearchLink(Lower(trimmed)) then ""
    else trimmed
  }

  /** A link that is shown is shown again unchanged: the result is a fixed point. */
  lemma ResolveWatchUrlStable(url: Option<string>)
    ensures ResolveWatchUrl(Some(ResolveWatchUrl(url))) == ResolveWatchUrl(url)
  {
    var r := ResolveWatchUrl(url);
    StripIdempotent(url.GetOr(""), JavaScript);
    if r != "" {
      assert JsTrim(r) == r;
    }
  }

  // ---------------------------------------------------------------- the category selector

  const AllCategories := "__ALL__"
  const DefaultCategory := "Actor in a Leading Role"

  /** `CATEGORY_VIEW_ORDER`. */
  const CategoryViewOrder: seq<string> := [
    "Actor in a Leading Role",
    "Actor in a Supporting Role",
    "Actress in a Leading Role",
    "Actress in a Supporting Role",
    "Animated Feature Film",
    "Animated Short Film",
    "Casting",
    "Cinematography",
    "Costume Design",
    "Directing",
    "Documentary Feature Film",
    "Documentary Short Film",
    "Film Editing",
    "International Feature Film",
    "Live Action Short Film",
    "Makeup and Hairstyling",
    "Music (Original Score)",
    "Music (Original Song)",
    "Best Picture",
    "Production Design",
    "Sound",
    "Visual Effects",
    "Writing (Adapted Screenplay)",
    "Writing (Original Screenplay)"
  ]

  /** The keys of `new Map(...)` over the names, in insertion order: each name once,
      where it first appears. */
  function Dedup(s: seq<string>): (r: seq<string>)
    ensures Distinct(r) && Elements(r) == Elements(s)
  {
    if |s| == 0 then []
    else
      var d := Dedup(s[..|s| - 1]);
      var x := s[|s| - 1];
      assert Elements(s) == Elements(s[..|s| - 1]) + {x} by {
        assert s == s[..|s| - 1] + [x];
      }
      if x in d then d
      else
        DistinctAppend(d, x);
        d + [x]
  }

  /** The entries of `s` that are in `names`, in order. */
  function Keep(s: seq<string>, names: set<string>): (r: seq<string>)
    ensures forall x :: x in r <==> x in s && x in names
  {
    if |s| == 0 then []
    else
      assert s == s[..|s| - 1] + [s[|s| - 1]];
      Keep(s[..|s| - 1], names) + (if s[|s| - 1] in names then [s[|s| - 1]] else [])
  }

  /** The entries of `s` that are not in `names`, in order. */
  function Drop(s: seq<string>, names: set<string>): (r: seq<string>)
    ensures forall x :: x in r <==> x in s && x !in names
    ensures Distinct(s) ==> Distinct(r)
  {
    if |s| == 0 then []
    else
      var x := s[|s| - 1];
      var init := s[..|s| - 1];
      assert s == init + [x];
      DistinctAppend(init, x);
      var d := Drop(init, names);
      if x in names then d
      else
        DistinctAppend(d, x);
        d + [x]
  }

  /** The option values, in the order `buildCategoryOptions` appends them: the
      present categories named in the view order, in that order; then the other
      present categories, in the order they came; then the "All films" entry. */
  function CategoryOptions(categories: seq<string>): seq<string> {
    Dedup(Keep(CategoryViewOrder, Elements(categories)))
    + Drop(Dedup(categories), Elements(CategoryViewOrder))
    + [AllCategories]
  }

  /** Removing one more name from the remaining map entries. */
  lemma DropOneMore(s: seq<string>, names: set<string>, x: string)
    ensures Drop(Drop(s, names), {x}) == Drop(s, names + {x})
  {
    if |s| > 0 {
      DropOneMore(s[..|s| - 1], names, x);
    }
  }

  /** The view-ordered part grows by a name exactly when it is present and not
      already listed. */
  lemma ViewOrderedStep(order: seq<string>, names: set<string>, i: nat)
    requires i < |order|
    ensures var v := Dedup(Keep(order[..i], names));
            Dedup(Keep(order[..i + 1], names))
            == if order[i] in names && order[i] !in v then v + [order[i]] else v
  {
    assert order[..i + 1][..i] == order[..i];
    var k := Keep(order[..i], names);
    if order[i] in names {
      assert Keep(order[..i + 1], names) == k + [order[i]];
      assert (k + [order[i]])[..|k|] == k;
    } else {
      assert Keep(order[..i + 1], names) == k;
    }
  }

  /** One name of the view order: it moves out of the remaining entries exactly
      when the view-ordered part takes it. */
  lemma OptionsStep(categories: seq<string>, order: seq<string>, i: nat)
    requires i < |order|
    ensures var present := Drop(Dedup(categories), Elements(order[..i]));
            && Drop(present, {order[i]}) == Drop(Dedup(categories), Elements(order[..i + 1]))
            && (order[i] !in present ==> Drop(present, {order[i]}) == present)
            && (order[i] in present <==> order[i] in Elements(categories) && order[i] !in Dedup(Keep(order[..i], Elements(categories))))
  {
    var present := Drop(Dedup(categories), Elements(order[..i]));
    PresentShrinks(categories, order, i);
    if order[i] !in present {
      DropNothing(present, order[i]);
    }
    PresentMember(categories, order, i);
  }

  lemma PresentShrinks(categories: seq<string>, order: seq<string>, i: nat)
    requires i < |order|
    ensures Drop(Drop(Dedup(categories), Elements(order[..i])), {order[i]}) == Drop(Dedup(categories), Elements(order[..i + 1]))
  {
    assert Elements(order[..i + 1]) == Elements(order[..i]) + {order[i]} by {
      assert order[..i + 1] == order[..i] + [order[i]];
    }
    DropOneMore(Dedup(categories), Elements(order[..i]), order[i]);
  }

  lemma PresentMember(categories: seq<string>, order: seq<string>, i: nat)
    requires i < |order|
    ensures order[i] in Drop(Dedup(categories), Elements(order[..i]))
            <==> order[i] in Elements(categories) && order[i] !in Dedup(Keep(order[..i], Elements(categories)))
  {
    var x := order[i];
    var d := Dedup(categories);
    assert x in d <==> x in Elements(categories) by {
      assert x in d <==> x in Elements(d);
    }
    var k := Keep(order[..i], Elements(categories));
    var dk := Dedup(k);
    assert x in dk <==> x in k by {
      assert x in dk <==> x in Elements(dk);
      assert x in k <==> x in Elements(k);
    }
    assert x in Elements(order[..i]) <==> x in order[..i];
  }

  /** `buildCategoryOptions`: walk the view order, moving each present name out of
      the map into the list, then append what is left of the map and "All films". */
  method BuildCategoryOptions(categories: seq<string>) returns (options: seq<string>)
    ensures options == CategoryOptions(categories)
  {
    var order := CategoryViewOrder;
    var present := Dedup(categories);
    var ordered: seq<string> := [];
    DropNone(present);
    assert Elements(order[..0]) == {};
    for i := 0 to |order|
      invariant ordered == Dedup(Keep(order[..i], Elements(categories)))
      invariant present == Drop(Dedup(categories), Elements(order[..i]))
    {
      ViewOrderedStep(order, Elements(categories), i);
      OptionsStep(categories, order, i);
      if order[i] in present {
        ordered := ordered + [order[i]];
        present := Drop(present, {order[i]});
      }
    }
    assert order[..|order|] == order;
    options := ordered + present + [AllCategories];
  }

  lemma DropNone(s: seq<string>)
    ensures Drop(s, {}) == s
  {
    if |s| > 0 {
      assert s == s[..|s| - 1] + [s[|s| - 1]];
      DropNone(s[..|s| - 1]);
    }
  }

  lemma DropNothing(s: seq<string>, x: string)
    requires x !in s
    ensures Drop(s, {x}) == s
  {
    if |s| > 0 {
      assert s == s[..|s| - 1] + [s[|s| - 1]];
      DropNothing(s[..|s| - 1], x);
    }
  }

  /** Every present category is offered exactly once before "All films", which
      comes last; nothing else is offered. */
  lemma CategoryOptionsShape(categories: seq<string>)
    ensures var o := CategoryOptions(categories);
            && |o| > 0 && o[|o| - 1] == AllCategories
            && Distinct(o[..|o| - 1])
            && Elements(o[..|o| - 1]) == Elements(categories)
  {
    var v := Dedup(Keep(CategoryViewOrder, Elements(categories)));
    var rest := Drop(Dedup(categories), Elements(CategoryViewOrder));
    var o := CategoryOptions(categories);
    assert o[..|o| - 1] == v + rest;
    forall i, j | 0 <= i < j < |v + rest| ensures (v + rest)[i] != (v + rest)[j] {
      if j < |v| {
      } else if i >= |v| {
        assert (v + rest)[i] == rest[i - |v|] && (v + rest)[j] == rest[j - |v|];
      } else {
        assert (v + rest)[i] == v[i] && v[i] in Elements(v);
        assert (v + rest)[j] == rest[j - |v|] && rest[j - |v|] in rest;
      }
    }
    forall x ensures x in Elements(v + rest) <==> x in Elements(categories) {
      assert x in v + rest <==> x in v || x in rest;
      assert x in v <==> x in Elements(v);
      assert x in Dedup(categories) <==> x in Elements(Dedup(categories));
    }
  }

  /** The category kept selected: the current one when it is present or "All films";
      otherwise the default category when present, else the first category when its
      name is not empty, else "All films". */
  function SelectedCategory(current: string, categories: seq<string>): (r: string)
    ensures r == AllCategories || r in categories
    ensures current == AllCategories || current in categories ==> r == current
    // The fallback order when the current selection is gone.
    ensures !(current == AllCategories || current in categories) ==>
              && (DefaultCategory in categories ==> r == DefaultCategory)
              && (DefaultCategory !in categories && |categories| > 0 && categories[0] != "" ==> r == categories[0])
              && (DefaultCategory !in categories && (|categories| == 0 || categories[0] == "") ==> r == AllCategories)
  {
    if current == AllCategories || current in categories then current
    else if DefaultCategory in categories then DefaultCategory
    else if |categories| > 0 && categories[0] != "" then categories[0]
    else AllCategories
  }

  /** Rebuilding the selector keeps the selection it made. */
  lemma SelectedCategoryStable(current: string, categories: seq<string>)
    ensures SelectedCategory(SelectedCategory(current, categories), categories) == SelectedCategory(current, categories)
  {
  }

  /** The selection is always one of the options offered. */
  lemma SelectedIsOffered(current: string, categories: seq<string>)
    ensures SelectedCategory(current, categories) in CategoryOptions(categories)
  {
    var r := SelectedCategory(current, categories);
    var o := CategoryOptions(categories);
    CategoryOptionsShape(categories);
    if r == AllCategories {
      assert o[|o| - 1] == r;
    } else {
      assert r in Elements(o[..|o| - 1]);
    }
  }

  // ---------------------------------------------------------------- progress counts

  /** `renderProgress`, seen part: how many seen ids are films of the year's
      nominations, and how many distinct films those nominations name. */
  method CountSeen(nominatedFilmIds: seq<string>, seenFilmIds: set<string>) returns (seen: nat, total: nat)
    ensures total == |Elements(nominatedFilmIds)|
    ensures seen == |seenFilmIds * Elements(nominatedFilmIds)|
  {
    var yearFilmIds := Elements(nominatedFilmIds);
    total := |yearFilmIds|;
    seen := 0;
    var rest := seenFilmIds;
    ghost var visited: set<string> := {};
    while rest != {}
      invariant rest !! visited && rest + visited == seenFilmIds
      invariant seen == |visited * yearFilmIds|
      decreases |rest|
    {
      var id :| id in rest;
      if id in yearFilmIds {
        assert (visited + {id}) * yearFilmIds == visited * yearFilmIds + {id};
        seen := seen + 1;
      } else {
        assert (visited + {id}) * yearFilmIds == visited * yearFilmIds;
      }
      rest := rest - {id};
      visited := visited + {id};
    }
  }

  lemma {:induction false} SubsetSize<T>(a: set<T>, b: set<T>)
    requires a <= b
    ensures |a| <= |b|
    decreases |b|
  {
    if b != {} {
      var x :| x in b;
      SubsetSize(a - {x}, b - {x});
    }
  }

  /** The seen count never exceeds the number of nominated films. */
  lemma SeenAtMostTotal(nominatedFilmIds: seq<string>, seenFilmIds: set<string>)
    ensures |seenFilmIds * Elements(nominatedFilmIds)| <= |Elements(nominatedFilmIds)|
  {
    SubsetSize(seenFilmIds * Elements(nominatedFilmIds), Elements(nominatedFilmIds));
  }

  /** The number of `Object.entries(winnersByCategory)` whose category is picked
      with the winning film. */
  function Correct(winners: seq<(string, string)>, picks: map<string, string>): nat {
    if |winners| == 0 then 0
    else
      var (category, film) := winners[|winners| - 1];
      Correct(winners[..|winners| - 1], picks) + (if category in picks && picks[category] == film then 1 else 0)
  }

  /** `renderProgress`, pick part. */
  method CountCorrect(winners: seq<(string, string)>, picks: map<string, string>) returns (correct: nat)
    ensures correct == Correct(winners, picks)
  {
    correct := 0;
    for i := 0 to |winners|
      invariant correct == Correct(winners[..i], picks)
    {
      assert winners[..i + 1][..i] == winners[..i];
      var (category, film) := winners[i];
      if category in picks && picks[category] == film {
        correct := correct + 1;
      }
    }
    assert winners[..|winners|] == winners;
  }

  /** At most every winner is picked correctly, and all are exactly when each
      winning category holds the winning pick. */
  lemma {:induction false} CorrectBounds(winners: seq<(string, string)>, picks: map<string, string>)
    ensures Correct(winners, picks) <= |winners|
    ensures Correct(winners, picks) == |winners|
            <==> forall k :: 0 <= k < |winners| ==> winners[k].0 in picks && picks[winners[k].0] == winners[k].1
  {
    if |winners| > 0 {
      var init := winners[..|winners| - 1];
      CorrectBounds(init, picks);
      assert forall k :: 0 <= k < |init| ==> init[k] == winners[k];
    }
  }

  // ---------------------------------------------------------------- the film list

  datatype Film = Film(id: string, title: string)

  /** `nominationCounts`: how many of the year's nominations name each film. */
  method NominationCounts(nominatedFilmIds: seq<string>) returns (counts: map<string, nat>)
    ensures forall id :: id in counts <==> id in nominatedFilmIds
    ensures forall id :: id in counts ==> counts[id] == multiset(nominatedFilmIds)[id]
  {
    counts := map[];
    for i := 0 to |nominatedFilmIds|
      invariant forall id :: id in counts <==> id in nominatedFilmIds[..i]
      invariant forall id :: id in counts ==> counts[id] == multiset(nominatedFilmIds[..i])[id]
    {
      var id := nominatedFilmIds[i];
      assert nominatedFilmIds[..i + 1] == nominatedFilmIds[..i] + [id];
      counts := counts[id := (if id in counts then counts[id] else 0) + 1];
    }
    assert nominatedFilmIds[..|nominatedFilmIds|] == nominatedFilmIds;
  }

  /** `nominationCounts.get(id) || 0`. */
  function CountOf(counts: map<string, nat>, id: string): nat {
    if id in counts then counts[id] else 0
  }

  /** The title order: code units compared from the left, a prefix first. */
  predicate TitleLe(a: string, b: string)
    decreases |a|
  {
    |a| == 0 || (|b| > 0 && (a[0] < b[0] || (a[0] == b[0] && TitleLe(a[1..], b[1..]))))
  }

  lemma {:induction false} TitleLeTotal(a: string, b: string)
    ensures TitleLe(a, b) || TitleLe(b, a)
    decreases |a|
  {
    if |a| > 0 && |b| > 0 && a[0] == b[0] {
      TitleLeTotal(a[1..], b[1..]);
    }
  }

  /** The comparator: under 'nominations' more nominations first, then by title;
      under any other sort by title alone. */
  predicate FilmLe(byNominations: bool, counts: map<string, nat>, a: Film, b: Film) {
    if byNominations then
      CountOf(counts, a.id) > CountOf(counts, b.id)
      || (CountOf(counts, a.id) == CountOf(counts, b.id) && TitleLe(a.title, b.title))
    else TitleLe(a.title, b.title)
  }

  lemma FilmLeTotal(byNominations: bool, counts: map<string, nat>, a: Film, b: Film)
    ensures FilmLe(byNominations, counts, a, b) || FilmLe(byNominations, counts, b, a)
  {
    TitleLeTotal(a.title, b.title);
  }

  predicate SortedBy(byNominations: bool, counts: map<string, nat>, s: seq<Film>) {
    forall i :: 0 < i < |s| ==> FilmLe(byNominations, counts, s[i - 1], s[i])
  }

  /** `x` placed before the first film it does not come after. */
  function Insert(byNominations: bool, counts: map<string, nat>, x: Film, s: seq<Film>): seq<Film> {
    if |s| == 0 then [x]
    else if FilmLe(byNominations, counts, x, s[0]) then [x] + s
    else [s[0]] + Insert(byNominations, counts, x, s[1..])
  }

  /** The insertion adds exactly the one film. */
  lemma {:induction false} InsertPermutes(byNominations: bool, counts: map<string, nat>, x: Film, s: seq<Film>)
    ensures multiset(Insert(byNominations, counts, x, s)) == multiset(s) + multiset{x}
  {
    if |s| > 0 && !FilmLe(byNominations, counts, x, s[0]) {
      InsertPermutes(byNominations, counts, x, s[1..]);
      assert s == [s[0]] + s[1..];
    }
  }

  /** Insertion into a sorted list keeps it sorted. */
  lemma {:induction false} InsertSorted(byNominations: bool, counts: map<string, nat>, x: Film, s: seq<Film>)
    requires SortedBy(byNominations, counts, s)
    ensures SortedBy(byNominations, counts, Insert(byNominations, counts, x, s))
  {
    if |s| > 0 {
      if FilmLe(byNominations, counts, x, s[0]) {
        ConsSorted(byNominations, counts, x, s);
      } else {
        FilmLeTotal(byNominations, counts, x, s[0]);
        SortedTail(byNominations, counts, s);
        InsertSorted(byNominations, counts, x, s[1..]);
        var rest := Insert(byNominations, counts, x, s[1..]);
        assert rest[0] == x || rest[0] == s[1];
        ConsSorted(byNominations, counts, s[0], rest);
      }
    }
  }

  lemma SortedTail(byNominations: bool, counts: map<string, nat>, s: seq<Film>)
    requires |s| > 0 && SortedBy(byNominations, counts, s)
    ensures SortedBy(byNominations, counts, s[1..])
    ensures |s| > 1 ==> FilmLe(byNominations, counts, s[0], s[1])
  {
    forall i | 0 < i < |s[1..]| ensures FilmLe(byNominations, counts, s[1..][i - 1], s[1..][i]) {
      assert s[1..][i - 1] == s[i] && s[1..][i] == s[i + 1];
    }
  }

  /** A film that comes before the head of a sorted list can be put in front of it. */
  lemma ConsSorted(byNominations: bool, counts: map<string, nat>, y: Film, r: seq<Film>)
    requires SortedBy(byNominations, counts, r)
    requires |r| > 0 ==> FilmLe(byNominations, counts, y, r[0])
    ensures SortedBy(byNominations, counts, [y] + r)
  {
    forall i | 0 < i < |[y] + r| ensures FilmLe(byNominations, counts, ([y] + r)[i - 1], ([y] + r)[i]) {
      if i > 1 { assert ([y] + r)[i - 1] == r[i - 2] && ([y] + r)[i] == r[i - 1]; }
    }
  }

  /** A sort of the films by the comparator. */
  function SortFilms(byNominations: bool, counts: map<string, nat>, films: seq<Film>): (r: seq<Film>)
    ensures multiset(r) == multiset(films)
    ensures SortedBy(byNominations, counts, r)
  {
    if |films| == 0 then []
    else
      assert films == [films[0]] + films[1..];
      var rest := SortFilms(byNominations, counts, films[1..]);
      InsertPermutes(byNominations, counts, films[0], rest);
      InsertSorted(byNominations, counts, films[0], rest);
      Insert(byNominations, counts, films[0], rest)
  }

  /** `sortedFilms`: a sorted copy; the state's list is left as it is. */
  method SortedFilms(films: seq<Film>, nominatedFilmIds: seq<string>, sort: string) returns (r: seq<Film>)
    ensures multiset(r) == multiset(films)
    ensures forall i :: 0 < i < |r| ==>
              if sort == "nominations" then
                multiset(nominatedFilmIds)[r[i - 1].id] > multiset(nominatedFilmIds)[r[i].id]
                || (multiset(nominatedFilmIds)[r[i - 1].id] == multiset(nominatedFilmIds)[r[i].id] && TitleLe(r[i - 1].title, r[i].title))
              else TitleLe(r[i - 1].title, r[i].title)
  {
    var counts := NominationCounts(nominatedFilmIds);
    r := SortFilms(sort == "nominations", counts, films);
    forall id ensures CountOf(counts, id) == multiset(nominatedFilmIds)[id] {
      if id !in counts {
        assert id !in multiset(nominatedFilmIds);
      }
    }
  }

  // ---------------------------------------------------------------- picks

  /** The optimistic update: a click on the current pick removes it, any other
      click makes the film the pick. */
  function Toggled(picks: map<string, string>, category: string, filmId: string): map<string, string> {
    if category in picks && picks[category] == filmId then picks - {category} else picks[category := filmId]
  }

  /** The revert on a failed save, as written: put the film back if it was the pick,
      otherwise delete the category's pick. */
  function Reverted(picks: map<string, string>, category: string, filmId: string, currentlyPicked: bool): map<string, string> {
    if currentlyPicked then picks[category := filmId] else picks - {category}
  }

  /** Putting back what the category held before the click. */
  function Restored(picks: map<string, string>, category: string, previous: Option<string>): map<string, string> {
    match previous
    case Some(f) => picks[category := f]
    case None => picks - {category}
  }

  function PickOf(picks: map<string, string>, category: string): Option<string> {
    if category in picks then Some(picks[category]) else None
  }

  /** A toggle changes the picks of its category only, and toggling the same film
      twice returns to the start exactly when the category held that film or nothing. */
  lemma ToggledEffect(picks: map<string, string>, category: string, filmId: string)
    ensures var t := Toggled(picks, category, filmId);
            && (forall c :: c != category ==> PickOf(t, c) == PickOf(picks, c))
            && PickOf(t, category) == (if PickOf(picks, category) == Some(filmId) then None else Some(filmId))
            && (Toggled(t, category, filmId) == picks <==> PickOf(picks, category) in {None, Some(filmId)})
  {
    var t := Toggled(picks, category, filmId);
    if Toggled(t, category, filmId) == picks {
      assert PickOf(Toggled(t, category, filmId), category) == PickOf(picks, category);
    }
  }

  /** The written revert undoes the toggle exactly when the category held the
      clicked film or nothing; a different earlier pick is lost. */
  lemma RevertAsWritten(picks: map<string, string>, category: string, filmId: string)
    ensures var was := PickOf(picks, category) == Some(filmId);
            Reverted(Toggled(picks, category, filmId), category, filmId, was) == picks
            <==> PickOf(picks, category) in {None, Some(filmId)}
  {
    var was := PickOf(picks, category) == Some(filmId);
    var r := Reverted(Toggled(picks, category, filmId), category, filmId, was);
    if r == picks {
      assert PickOf(r, category) == PickOf(picks, category);
    }
  }

  /** Picking "b" where "a" was picked, then failing to save, leaves no pick. */
  lemma RevertLosesEarlierPick()
    ensures Reverted(Toggled(map["Sound" := "a"], "Sound", "b"), "Sound", "b", false) == map[]
  {
  }

  /** `loadSeen`'s `{ ...loadLocalPicks(), ...payload.picksByCategory }`: the
      server's picks override the local copy. */
  function Reloaded(local: map<string, string>, server: map<string, string>): map<string, string> {
    local + server
  }

  /** A pick whose save failed and that the server does not hold comes back from the
      local copy on the next load, since the copy was written before the request. */
  lemma RefusedPickReloaded(picks: map<string, string>, server: map<string, string>, category: string, filmId: string)
    requires PickOf(picks, category) != Some(filmId) && category !in server
    ensures PickOf(Reloaded(Toggled(picks, category, filmId), server), category) == Some(filmId)
  {
  }

  /** Restoring the earlier pick always undoes the toggle. */
  lemma RestoreUndoesToggle(picks: map<string, string>, category: string, filmId: string)
    ensures Restored(Toggled(picks, category, filmId), category, PickOf(picks, category)) == picks
  {
  }

  /** `state.picksByCategory`, changed by the pick buttons, and the copy of it
      `saveLocalPicks` keeps in local storage. */
  class PickState {
    var picks: map<string, string>
    var local: map<string, string>

    constructor (initial: map<string, string>, stored: map<string, string>)
      ensures picks == initial && local == stored
    {
      picks := initial;
      local := stored;
    }

    /** The click handler's pick branch as written; `saved` is whether the request
        of `updatePick` succeeded. `updatePick` stores the toggled picks locally
        before the request, and the catch reverts only the picks in memory. */
    method ClickAsWritten(category: string, filmId: string, locked: bool, saved: bool)
      modifies this
      ensures picks == if locked then old(picks)
                       else if saved then Toggled(old(picks), category, filmId)
                       else Reverted(Toggled(old(picks), category, filmId), category, filmId,
                                     PickOf(old(picks), category) == Some(filmId))
      ensures local == if locked then old(local) else Toggled(old(picks), category, filmId)
    {
      if locked {
        return;
      }
      var currentlyPicked := category in picks && picks[category] == filmId;
      if currentlyPicked {
        picks := picks - {category};
      } else {
        picks := picks[category := filmId];
      }
      local := picks;
      if !saved {
        if currentlyPicked {
          picks := picks[category := filmId];
        } else {
          picks := picks - {category};
        }
      }
    }

    /** The pick branch with the earlier pick remembered: a failed save leaves the
        picks exactly as they were before the click, and stores them locally again,
        so the local copy always matches the picks after a click. */
    method Click(category: string, filmId: string, locked: bool, saved: bool)
      modifies this
      ensures picks == if locked || !saved then old(picks) else Toggled(old(picks), category, filmId)
      ensures local == if locked then old(local) else picks
    {
      if locked {
        return;
      }
      var previous := PickOf(picks, category);
      if previous == Some(filmId) {
        picks := picks - {category};
      } else {
        picks := picks[category := filmId];
      }
      local := picks;
      if !saved {
        RestoreUndoesToggle(old(picks), category, filmId);
        picks := Restored(picks, category, previous);
        local := picks;
      }
    }
  }
}
