/** The translation-history page: searching, sorting, marking favourites,
    the favourites view, deleting and clearing, and the way a stored
    translation is rendered. */
module History {
  import opened JsText
  import opened Lists
  import opened Data

  /** `entry.input.toLowerCase().includes(term.toLowerCase())`. */
  predicate InputMatches(e: Record, term: string) {
    Includes(ToLower(e.input), ToLower(term))
  }

  /** The list `handleSearch` shows; unlike the saved-words page it always
      filters, the empty term matching every entry. */
  function SearchHistory(history: seq<Record>, term: string): seq<Record> {
    Filter(history, e => InputMatches(e, term))
  }

  /** The search result is the order-preserving selection of exactly the
      entries whose input contains the term, ignoring case; the empty term
      selects the whole history. */
  lemma SearchHistorySpec(history: seq<Record>, term: string)
    ensures term == "" ==> SearchHistory(history, term) == history
    ensures IsSubsequence(SearchHistory(history, term), history)
    ensures forall e ::
      multiset(SearchHistory(history, term))[e] == if InputMatches(e, term) then multiset(history)[e] else 0
  {
    FilterSpec(history, e => InputMatches(e, term));
    if term == "" {
      forall i | 0 <= i < |history| ensures InputMatches(history[i], term) {
        IncludesTrivial(ToLower(history[i].input));
      }
      FilterAll(history, e => InputMatches(e, term));
    }
  }

  /** A history entry with the capital palochka is found by a term with
      the small one. */
  lemma SearchFoldsPalochka(e: Record, term: string)
    requires e.input == "дӀа" && term == "дӏа"
    ensures InputMatches(e, term)
  {
    var li := ToLower(e.input);
    assert li[0] == 'д' && li[1] == 'ӏ' && li[2] == 'а';
    var lt := ToLower(term);
    assert lt[0] == 'д' && lt[1] == 'ӏ' && lt[2] == 'а';
    assert li == lt;
    IncludesTrivial(li);
  }

  /** `history.filter((entry) => entry.favorite)`. */
  function FavoritesOf(history: seq<Record>): seq<Record> {
    Filter(history, IsFavorite)
  }

  /** The favourites view keeps exactly the records marked favourite, in
      their order. */
  lemma FavoritesOfSpec(history: seq<Record>)
    ensures IsSubsequence(FavoritesOf(history), history)
    ensures forall e :: multiset(FavoritesOf(history))[e] == if IsFavorite(e) then multiset(history)[e] else 0
    ensures forall i :: 0 <= i < |FavoritesOf(history)| ==> IsFavorite(FavoritesOf(history)[i])
  {
    FilterSpec(history, IsFavorite);
    assert forall i :: 0 <= i < |FavoritesOf(history)| ==> FavoritesOf(history)[i] in FavoritesOf(history);
  }

  /** `updatedHistory[index].favorite = !updatedHistory[index].favorite`:
      an absent flag is falsy, so it becomes `true`. */
  function ToggleAt(history: seq<Record>, index: nat): seq<Record>
    requires index < |history|
  {
    history[index := history[index].(favorite := Some(!IsFavorite(history[index])))]
  }

  /** Toggling changes only the favourite flag of the one record, and
      flips whether it counts as a favourite. */
  lemma ToggleAtSpec(history: seq<Record>, index: nat)
    requires index < |history|
    ensures |ToggleAt(history, index)| == |history|
    ensures forall i :: 0 <= i < |history| && i != index ==> ToggleAt(history, index)[i] == history[i]
    ensures IsFavorite(ToggleAt(history, index)[index]) <==> !IsFavorite(history[index])
    ensures ToggleAt(history, index)[index].(favorite := history[index].favorite) == history[index]
  {
  }

  /** Toggling twice restores whether the record is a favourite, and
      restores the record itself once its flag has been written. A record
      that never had the flag comes back with `favorite: false`. */
  lemma ToggleTwice(history: seq<Record>, index: nat)
    requires index < |history|
    ensures IsFavorite(ToggleAt(ToggleAt(history, index), index)[index]) == IsFavorite(history[index])
    ensures history[index].favorite.Some? ==> ToggleAt(ToggleAt(history, index), index) == history
    ensures history[index].favorite == None ==>
      ToggleAt(ToggleAt(history, index), index) == history[index := history[index].(favorite := Some(false))]
  {
    var twice := ToggleAt(ToggleAt(history, index), index);
    if history[index].favorite.Some? {
      var once := ToggleAt(history, index);
      assert once[index].favorite == Some(!history[index].favorite.value);
      assert twice[index].favorite == history[index].favorite;
      assert twice[index] == history[index];
      assert forall i :: 0 <= i < |history| ==> twice[i] == history[i];
    }
  }

  /** `new Date(x) - new Date(y)` on the stored dates, as the comparator
      sees it: a missing date gives NaN, which sorting reads as +0. */
  function DateDiff(x: Option<int>, y: Option<int>): int {
    if x.Some? && y.Some? then x.value - y.value else 0
  }

  /** The date difference is a consistent comparison: swapping the dates
      negates it, a date compares equal to itself, it is negative exactly
      when the first date is the earlier one, and a missing date ties with
      everything. */
  lemma DateDiffAntisymmetric(x: Option<int>, y: Option<int>)
    ensures DateDiff(x, y) == -DateDiff(y, x)
    ensures DateDiff(x, x) == 0
    ensures x.Some? && y.Some? ==> (DateDiff(x, y) < 0 <==> x.value < y.value)
    ensures x == None || y == None ==> DateDiff(x, y) == 0
  {
  }

  /** The comparator of `handleSort` for the chosen order. */
  function Compare(order: string, localeCompare: (string, string) -> int, a: Record, b: Record): int {
    if order == "newest" then DateDiff(b.date, a.date)
    else if order == "oldest" then DateDiff(a.date, b.date)
    else if order == "alphabetical" then localeCompare(a.input, b.input)
    else 0
  }

  /** `[...view].sort(comparator)`. */
  function SortView(view: seq<Record>, order: string, localeCompare: (string, string) -> int): seq<Record> {
    Sort(view, (a, b) => Compare(order, localeCompare, a, b))
  }

  /** Sorting rearranges the view and nothing else. */
  lemma SortViewPermutes(view: seq<Record>, order: string, localeCompare: (string, string) -> int)
    ensures multiset(SortView(view, order, localeCompare)) == multiset(view)
    ensures |SortView(view, order, localeCompare)| == |view|
  {
    SortPermutes(view, (a, b) => Compare(order, localeCompare, a, b));
    assert |multiset(SortView(view, order, localeCompare))| == |multiset(view)|;
  }

  /** `localeCompare` orders strings totally and transitively. */
  ghost predicate IsTotalPreorder(localeCompare: (string, string) -> int) {
    && (forall x, y :: localeCompare(x, y) <= 0 || localeCompare(y, x) <= 0)
    && (forall x, y, z :: localeCompare(x, y) <= 0 && localeCompare(y, z) <= 0 ==> localeCompare(x, z) <= 0)
  }

  /** 'alphabetical' puts the inputs in `localeCompare` order. */
  lemma AlphabeticalSorted(view: seq<Record>, localeCompare: (string, string) -> int)
    requires IsTotalPreorder(localeCompare)
    ensures forall i, j :: 0 <= i < j < |SortView(view, "alphabetical", localeCompare)| ==>
      localeCompare(SortView(view, "alphabetical", localeCompare)[i].input,
                    SortView(view, "alphabetical", localeCompare)[j].input) <= 0
  {
    var cmp := (a: Record, b: Record) => Compare("alphabetical", localeCompare, a, b);
    assert ConsistentOn(view, cmp);
    SortSorts(view, cmp);
  }

  /** Every entry of the view carries a date. */
  predicate AllDated(view: seq<Record>) {
    forall i :: 0 <= i < |view| ==> view[i].date.Some?
  }

  /** With every date present, 'newest' puts later dates first. */
  lemma NewestSorted(view: seq<Record>, localeCompare: (string, string) -> int)
    requires AllDated(view)
    ensures AllDated(SortView(view, "newest", localeCompare))
    ensures forall i, j :: 0 <= i < j < |SortView(view, "newest", localeCompare)| ==>
      SortView(view, "newest", localeCompare)[i].date.value >= SortView(view, "newest", localeCompare)[j].date.value
  {
    var cmp := (a: Record, b: Record) => Compare("newest", localeCompare, a, b);
    var r := SortView(view, "newest", localeCompare);
    assert forall e :: e in view ==> e.date.Some?;
    assert ConsistentOn(view, cmp);
    SortSorts(view, cmp);
    SortPermutes(view, cmp);
    forall i | 0 <= i < |r| ensures r[i].date.Some? {
      assert r[i] in multiset(view);
    }
  }

  /** With every date present, 'oldest' puts earlier dates first. */
  lemma OldestSorted(view: seq<Record>, localeCompare: (string, string) -> int)
    requires AllDated(view)
    ensures AllDated(SortView(view, "oldest", localeCompare))
    ensures forall i, j :: 0 <= i < j < |SortView(view, "oldest", localeCompare)| ==>
      SortView(view, "oldest", localeCompare)[i].date.value <= SortView(view, "oldest", localeCompare)[j].date.value
  {
    var cmp := (a: Record, b: Record) => Compare("oldest", localeCompare, a, b);
    var r := SortView(view, "oldest", localeCompare);
    assert forall e :: e in view ==> e.date.Some?;
    assert ConsistentOn(view, cmp);
    SortSorts(view, cmp);
    SortPermutes(view, cmp);
    forall i | 0 <= i < |r| ensures r[i].date.Some? {
      assert r[i] in multiset(view);
    }
  }

  /** With no record dated, as on every record the translator page
      creates, 'newest' and 'oldest' compare every pair equal and the
      view keeps its order. */
  lemma UndatedKeepsView(view: seq<Record>, order: string, localeCompare: (string, string) -> int)
    requires order == "newest" || order == "oldest"
    requires forall i :: 0 <= i < |view| ==> view[i].date == None
    ensures SortView(view, order, localeCompare) == view
  {
    SortAllTies(view, (a, b) => Compare(order, localeCompare, a, b));
  }

  /** Sorting a view that is already sorted by the same order changes
      nothing, whenever the comparator is consistent on it: the inputs are
      ordered by a total preorder, or, for the two date orders, every
      record is dated, or no record is. */
  lemma SortViewIdempotent(view: seq<Record>, order: string, localeCompare: (string, string) -> int)
    requires order == "alphabetical" ==> IsTotalPreorder(localeCompare)
    requires order == "newest" || order == "oldest" ==>
      AllDated(view) || forall i :: 0 <= i < |view| ==> view[i].date == None
    ensures SortView(SortView(view, order, localeCompare), order, localeCompare) == SortView(view, order, localeCompare)
  {
    var cmp := (a: Record, b: Record) => Compare(order, localeCompare, a, b);
    if (order == "newest" || order == "oldest") && !AllDated(view) {
      UndatedKeepsView(view, order, localeCompare);
    } else {
      if order == "newest" || order == "oldest" {
        assert forall e :: e in view ==> e.date.Some?;
      }
      assert ConsistentOn(view, cmp);
      SortIdempotent(view, cmp);
    }
  }

  /** The records 'alphabetical' puts level with `e`: inputs that
      `localeCompare` orders neither way, equal inputs among them. */
  function SameRank(localeCompare: (string, string) -> int, e: Record): Record -> bool {
    (z: Record) => localeCompare(z.input, e.input) <= 0 && localeCompare(e.input, z.input) <= 0
  }

  /** 'alphabetical' is stable: records whose inputs rank level, such as
      the same word translated twice, keep their order in the view. */
  lemma AlphabeticalStable(view: seq<Record>, localeCompare: (string, string) -> int, e: Record)
    requires IsTotalPreorder(localeCompare)
    ensures Filter(SortView(view, "alphabetical", localeCompare), SameRank(localeCompare, e))
         == Filter(view, SameRank(localeCompare, e))
  {
    var cmp := (a: Record, b: Record) => Compare("alphabetical", localeCompare, a, b);
    var all := view + [e];
    assert forall z :: z in view ==> z in all;
    assert e in all;
    assert ConsistentOn(all, cmp);
    SortStable(view, cmp, e, all);
    FilterCongruent(Sort(view, cmp), TiesWith(cmp, e), SameRank(localeCompare, e));
    FilterCongruent(view, TiesWith(cmp, e), SameRank(localeCompare, e));
  }

  /** The records carrying the same date as `e`. */
  function SameDate(e: Record): Record -> bool {
    (z: Record) => z.date == e.date
  }

  /** Two dated records are level under a date order exactly when they
      share their date. */
  lemma DatesLevel(order: string, localeCompare: (string, string) -> int, z: Record, e: Record)
    requires order == "newest" || order == "oldest"
    requires z.date.Some? && e.date.Some?
    ensures (Compare(order, localeCompare, z, e) <= 0 && Compare(order, localeCompare, e, z) <= 0) <==> z.date == e.date
  {
  }

  /** With every date present, 'newest' and 'oldest' are stable: records
      with the same date keep their order in the view. */
  lemma DatedStable(view: seq<Record>, order: string, localeCompare: (string, string) -> int, e: Record)
    requires order == "newest" || order == "oldest"
    requires AllDated(view) && e.date.Some?
    ensures Filter(SortView(view, order, localeCompare), SameDate(e)) == Filter(view, SameDate(e))
  {
    var cmp := (a: Record, b: Record) => Compare(order, localeCompare, a, b);
    var all := view + [e];
    assert forall z :: z in view ==> z in all && z.date.Some?;
    assert e in all;
    assert ConsistentOn(all, cmp);
    SortStable(view, cmp, e, all);
    var r := Sort(view, cmp);
    SortPermutes(view, cmp);
    forall z | z in r ensures z.date.Some? {
      assert z in multiset(view);
    }
    forall z | z in r || z in view ensures TiesWith(cmp, e)(z) == SameDate(e)(z) {
      DatesLevel(order, localeCompare, z, e);
    }
    FilterCongruent(r, TiesWith(cmp, e), SameDate(e));
    FilterCongruent(view, TiesWith(cmp, e), SameDate(e));
  }

  /** Any other order value makes every pair compare equal, and the stable
      sort leaves the view as it was. */
  lemma UnknownOrderKeepsView(view: seq<Record>, order: string, localeCompare: (string, string) -> int)
    requires order != "newest" && order != "oldest" && order != "alphabetical"
    ensures SortView(view, order, localeCompare) == view
  {
    SortAllTies(view, (a, b) => Compare(order, localeCompare, a, b));
  }

  /** `sourceKey.replace(/_/g, ' ')`. */
  function ReplaceUnderscores(s: string): string {
    if s == [] then []
    else [if s[0] == '_' then ' ' else s[0]] + ReplaceUnderscores(s[1..])
  }

  /** Every underscore becomes a space and every other character stays. */
  lemma {:induction false} ReplaceUnderscoresSpec(s: string)
    ensures |ReplaceUnderscores(s)| == |s|
    ensures forall i :: 0 <= i < |s| ==> ReplaceUnderscores(s)[i] == if s[i] == '_' then ' ' else s[i]
    ensures '_' !in ReplaceUnderscores(s)
  {
    if s != [] {
      ReplaceUnderscoresSpec(s[1..]);
      var r := ReplaceUnderscores(s);
      forall i | 0 <= i < |s| ensures r[i] == if s[i] == '_' then ' ' else s[i] {
        if i > 0 {
          assert r[i] == ReplaceUnderscores(s[1..])[i - 1];
        }
      }
    }
  }

  /** One dictionary entry as the history shows it. */
  datatype EntryLine = EntryLine(word: string, translation: string)

  /** A source's block: its heading and its entries. */
  datatype Section = Section(heading: string, entries: seq<EntryLine>)

  /** What `renderTranslation` puts on screen: a plain text, or one block
      per dictionary source. */
  datatype Rendering = AsText(text: string) | AsSections(sections: seq<Section>)

  function RenderEntries(items: seq<Item>): (lines: seq<EntryLine>)
    ensures |lines| == |items|
    ensures forall j :: 0 <= j < |items| ==> lines[j] == EntryLine(Headword(items[j]), DisplayText(items[j]))
  {
    if items == [] then []
    else [EntryLine(Headword(items[0]), DisplayText(items[0]))] + RenderEntries(items[1..])
  }

  function RenderSections(groups: seq<(string, seq<Item>)>): (sections: seq<Section>)
    ensures |sections| == |groups|
    ensures forall i :: 0 <= i < |groups| ==>
      sections[i] == Section(ReplaceUnderscores(groups[i].0), RenderEntries(groups[i].1))
  {
    if groups == [] then []
    else [Section(ReplaceUnderscores(groups[0].0), RenderEntries(groups[0].1))] + RenderSections(groups[1..])
  }

  /** `renderTranslation`: a string is shown as it is; a mapping becomes its
      sources in key order; any other value shows the no-translation text. */
  function RenderTranslation(output: Payload): (r: Rendering)
  {
    match output
    case Text(s) => AsText(s)
    case Sources(groups) => AsSections(RenderSections(groups))
    case Scalar(_) => AsText(NoTranslation)
  }

  /** The dispatch in full: a string is itself; each source is headed by
      its key with underscores spaced out, and lists its entries in order,
      each with a non-blank text; anything else is the fallback text. */
  lemma RenderTranslationSpec(output: Payload)
    ensures output.Text? ==> RenderTranslation(output) == AsText(output.text)
    ensures output.Scalar? ==> RenderTranslation(output) == AsText(NoTranslation)
    ensures output.Sources? ==>
      && RenderTranslation(output).AsSections?
      && |RenderTranslation(output).sections| == |output.groups|
      && forall i :: 0 <= i < |output.groups| ==>
        && '_' !in RenderTranslation(output).sections[i].heading
        && |RenderTranslation(output).sections[i].heading| == |output.groups[i].0|
        && |RenderTranslation(output).sections[i].entries| == |output.groups[i].1|
        && forall j :: 0 <= j < |output.groups[i].1| ==>
          && RenderTranslation(output).sections[i].entries[j].word == Headword(output.groups[i].1[j])
          && RenderTranslation(output).sections[i].entries[j].translation == DisplayText(output.groups[i].1[j])
          && RenderTranslation(output).sections[i].entries[j].translation != ""
  {
    if output.Sources? {
      forall i | 0 <= i < |output.groups| {
        ReplaceUnderscoresSpec(output.groups[i].0);
      }
    }
  }

  class TranslationHistory {
    var history: seq<Record>
    var filteredHistory: seq<Record>
    var searchTerm: string
    var sortOrder: string
    var showFavorites: bool
    /** The page's view of `localStorage`. */
    var storage: map<string, seq<Record>>
    /** `String.prototype.localeCompare`, which depends on the locale. */
    const localeCompare: (string, string) -> int

    /** Storage holds the history, and the view shows only history entries. */
    ghost predicate Valid()
      reads this
    {
      && Load(storage, HistoryKey) == history
      && multiset(filteredHistory) <= multiset(history)
    }

    /** Mounting the page: the stored history (or none) is read into both
        lists as it is stored; the sort selector starts at 'newest', but
        nothing is sorted. */
    constructor (stored: map<string, seq<Record>>, localeCompare: (string, string) -> int)
      ensures Valid()
      ensures storage == stored && this.localeCompare == localeCompare
      ensures history == Load(stored, HistoryKey) && filteredHistory == history
      ensures searchTerm == "" && sortOrder == "newest" && !showFavorites
    {
      storage := stored;
      history := Load(stored, HistoryKey);
      filteredHistory := Load(stored, HistoryKey);
      searchTerm := "";
      sortOrder := "newest";
      showFavorites := false;
      this.localeCompare := localeCompare;
    }

    /** `saveHistoryToLocalStorage`: the new list becomes the history and
        the view, and is stored. */
    method SaveHistoryToLocalStorage(updated: seq<Record>)
      modifies this`history, this`filteredHistory, this`storage
      ensures Valid()
      ensures history == updated && filteredHistory == updated
      ensures storage == old(storage)[HistoryKey := updated]
    {
      history := updated;
      filteredHistory := updated;
      storage := storage[HistoryKey := updated];
    }

    /** `handleSearch`: the view is recomputed from the whole history, so an
        earlier sort or favourites view is dropped. */
    method HandleSearch(term: string)
      requires Valid()
      modifies this`searchTerm, this`filteredHistory
      ensures Valid()
      ensures searchTerm == term
      ensures filteredHistory == SearchHistory(history, term)
    {
      searchTerm := term;
      var filtered := Filter(history, e => InputMatches(e, term));
      FilterSubMultiset(history, e => InputMatches(e, term));
      filteredHistory := filtered;
    }

    /** `handleSort`: the current view is put in the chosen order; the
        history itself is not touched. */
    method HandleSort(order: string)
      requires Valid()
      modifies this`sortOrder, this`filteredHistory
      ensures Valid()
      ensures sortOrder == order
      ensures filteredHistory == SortView(old(filteredHistory), order, localeCompare)
      ensures multiset(filteredHistory) == multiset(old(filteredHistory))
    {
      sortOrder := order;
      var sorted := Sort(filteredHistory, (a, b) => Compare(order, localeCompare, a, b));
      SortViewPermutes(filteredHistory, order, localeCompare);
      filteredHistory := sorted;
    }

    /** `toggleFavorite`: the index is a position in the view, applied to
        the full history; it is in range there because the view is never
        longer than the history. The flipped history is stored and shown. */
    method ToggleFavorite(index: int)
      requires Valid() && 0 <= index < |filteredHistory|
      modifies this`history, this`filteredHistory, this`storage
      ensures Valid()
      ensures index < |old(history)| && history == ToggleAt(old(history), index)
      ensures filteredHistory == history
      ensures storage == old(storage)[HistoryKey := history]
    {
      SubMultisetSize(filteredHistory, history);
      SaveHistoryToLocalStorage(ToggleAt(history, index));
    }

    /** `toggleShowFavorites`: the flag flips, but the view is chosen by
        the flag's value before the click. */
    method ToggleShowFavorites()
      requires Valid()
      modifies this`showFavorites, this`filteredHistory
      ensures Valid()
      ensures showFavorites == !old(showFavorites)
      ensures old(showFavorites) ==> filteredHistory == FavoritesOf(history)
      ensures !old(showFavorites) ==> filteredHistory == history
    {
      var wasShowing := showFavorites;
      showFavorites := !showFavorites;
      if wasShowing {
        FilterSubMultiset(history, IsFavorite);
        filteredHistory := Filter(history, IsFavorite);
      } else {
        filteredHistory := history;
      }
    }

    /** `handleDelete`: the view position is removed from the full history,
        which is stored and shown. */
    method HandleDelete(index: int)
      requires Valid()
      modifies this`history, this`filteredHistory, this`storage
      ensures Valid()
      ensures history == RemoveAt(old(history), index)
      ensures filteredHistory == history
      ensures storage == old(storage)[HistoryKey := history]
      ensures 0 <= index < |old(history)| ==>
        history == old(history)[..index] + old(history)[index + 1..]
      ensures !(0 <= index < |old(history)|) ==> history == old(history)
      ensures 0 <= index < |old(filteredHistory)| ==> |history| == |old(history)| - 1
    {
      RemoveAtSpec(history, index);
      SubMultisetSize(filteredHistory, history);
      SaveHistoryToLocalStorage(RemoveAt(history, index));
    }

    /** `clearHistory`: the storage key is removed and both lists emptied. */
    method ClearHistory()
      requires Valid()
      modifies this`history, this`filteredHistory, this`storage
      ensures Valid()
      ensures history == [] && filteredHistory == []
      ensures HistoryKey !in storage
      ensures storage == old(storage) - {HistoryKey}
    {
      storage := storage - {HistoryKey};
      history := [];
      filteredHistory := [];
    }
  }
}
