# CheTranslate in Dafny

A model of the client-side logic of CheTranslate, a Chechen–Russian
dictionary web client, with proofs about it. The model covers four screens:

- The translator page (`app/page.tsx`). It holds the input box, the ce/ru
  language toggle and the translate request with its loading, result and
  error states. Every successful translation goes into a history kept in
  `localStorage`.
- The results panel (`components/TranslatorResults/TranslatorResults.tsx`).
  It shows one group of cards per dictionary source, and its bookmark button
  appends a word to the saved-words list.
- The history page (`app/history/page.tsx`). It offers search, three sort
  orders, favourites, a favourites view, delete and clear, and it renders a
  stored translation.
- The saved-words page (`app/saved/page.tsx`). It offers search and delete,
  and a flashcard quiz. The quiz grades a typed answer by normalising both
  strings and testing containment.

Modules, one per file:

- `JsText`: the JavaScript string primitives the pages use. These are the `\s`
  class, `trim`, `toLowerCase` on the capitals A..Z, the Latin-1
  capitals, the Cyrillic capitals U+0400..U+042F and the palochka, and `includes`.
- `Lists`: `filter`, `filter` by index, and the stable `sort` of a copy under
  a comparator.
- `Data`: payloads, history records, saved words and storage keys, plus the
  `||` fallbacks used when an entry is displayed.
- `Normalizer`: `normalizeText` and the answer grade.
- `Saved`, `History`, `Translate`, `Results`: one class per page or panel. Each
  class's fields are the component's state plus its view of `localStorage`
  (a map from key to list). Each handler is one method.

The flow of time that the source leaves to React is modelled as explicit
steps. A translate click and the arrival of the service's answer are two
methods. The service's answer is an `Outcome` argument, `Success(data)` or
`Failure`.

Quirks of the code that the model keeps as written:

- Delete and favourite indices are positions in the list on screen, but they
  are applied to the full list.
- `toggleShowFavorites` chooses the view by the flag's value before the click.
- Every write to storage resets the view to the full list.
- The history search always filters. Only the saved-words search skips
  filtering for an empty term.
- A sort comparator that yields NaN (a missing date) counts as "equal", as
  `Array.prototype.sort` reads it.

## Model

| member | source | states |
|---|---|---|
| JsText.ToLowerChar | app/saved/page.tsx:90 | A..Z, À..Þ (U+00C0..U+00DE without ×) and А..Я map 0x20 up, Ѐ..Џ (U+0400..U+040F, Ё among them) 0x50 up, and the palochka Ӏ to ӏ; every other character is unchanged; the result is never one of these capitals |
| JsText.ToLower | app/saved/page.tsx:90 | lower-casing keeps the length, leaves no capital of those ranges, and leaves every other character where it was |
| JsText.ToLowerIdempotent | app/saved/page.tsx:54 | lower-casing twice is lower-casing once |
| JsText.IsSpace | app/saved/page.tsx:88 | the `\s` class and the white space `trim` removes: the ECMAScript white-space and line-terminator characters; used by TrimStartSpec, TrimEndSpec and CollapseSpacesRun |
| JsText.TrimStartSpec | app/saved/page.tsx:89 | the result of the leading part of `trim` is a suffix, starts with non-white space, and only white space was removed |
| JsText.TrimEndSpec | app/saved/page.tsx:89 | the result of the trailing part of `trim` is a prefix, ends with non-white space, and only white space was removed |
| JsText.TrimStart | app/saved/page.tsx:89 | the leading half of `trim`; stated by TrimStartSpec and TrimStartOfRun |
| JsText.TrimEnd | app/saved/page.tsx:89 | the trailing half of `trim`; stated by TrimEndSpec |
| JsText.Trim | app/saved/page.tsx:89 | `trim`: white space removed at both ends; its meaning is stated by TrimStartSpec, TrimEndSpec, TrimIsInnerSlice and TrimNonEmptyIff |
| JsText.TrimNonEmptyIff | app/page.tsx:162 | `trim()` is non-empty exactly when some character is not white space |
| JsText.TrimIsInnerSlice | app/saved/page.tsx:89 | `trim()` returns a contiguous slice of its input |
| JsText.IncludesIff | app/saved/page.tsx:103 | `includes` holds exactly when the needle occurs at some position |
| JsText.IncludesTrivial | app/saved/page.tsx:103 | every string includes the empty string and itself |
| JsText.Includes | app/saved/page.tsx:103 | `includes`, defined by scanning the start positions; IncludesIff ties it to the positional definition of a substring |
| Lists.Filter | app/history/page.tsx:52-54 | the filter is no longer than its input and keeps only elements of the input that satisfy the predicate |
| Lists.FilterSpec | app/history/page.tsx:52-54 | the filter is an order-preserving subsequence, and it holds each element as often as the input when the predicate holds, otherwise never |
| Lists.FilterAll | app/history/page.tsx:52-54 | a filter that every element passes returns the list unchanged |
| Lists.FilterAppend | app/saved/page.tsx:87 | filtering a concatenation is concatenating the filtered parts |
| Lists.FilterNone | app/saved/page.tsx:87 | a list none of whose elements passes filters to the empty list |
| Lists.FilterCongruent | app/saved/page.tsx:53-55 | predicates that agree on the elements of a list filter it alike |
| Lists.SubsequenceOfItself | app/saved/page.tsx:56 | a list is a subsequence of itself |
| Lists.SubMultisetSize | app/history/page.tsx:241 | a sub-multiset of a list is no longer than the list |
| Lists.FilterSubMultiset | app/history/page.tsx:52-54 | a filter never holds an element more often than its input |
| Lists.RemoveAtSpec | app/history/page.tsx:89 | removing an in-range index drops exactly that element and keeps the rest in order; any other index changes nothing |
| Lists.RemoveAtLength | app/saved/page.tsx:61 | removing an in-range index shortens the list by one; any other index keeps the length |
| Lists.RemoveAt | app/history/page.tsx:89 | `filter((_, i) => i !== index)`; its closed form is RemoveAtSpec |
| Lists.Insert | app/history/page.tsx:61 | inserting adds exactly one copy of the element |
| Lists.SortPermutes | app/history/page.tsx:61-66 | sorting is a permutation |
| Lists.InsertSorted | app/history/page.tsx:61-66 | inserting into a sorted list under a consistent comparator keeps it sorted |
| Lists.SortSorts | app/history/page.tsx:61-66 | under a total, transitive comparator the result is sorted |
| Lists.SortSortsWithin | app/history/page.tsx:61-66 | the same, for a comparator consistent on a larger list |
| Lists.SortAllTies | app/history/page.tsx:65 | a comparator that calls every pair equal leaves the list as it was (stability) |
| Lists.Sort | app/history/page.tsx:61-66 | the copy-and-sort; SortPermutes, SortSorts, SortStable, SortAllTies and SortIdempotent state what it does |
| Lists.SortOfSorted | app/history/page.tsx:61-66 | a list already in order is returned unchanged |
| Lists.SortIdempotent | app/history/page.tsx:61-66 | under a consistent comparator, sorting the sorted list again changes nothing |
| Lists.TiesWith | app/history/page.tsx:61-66 | the elements the comparator ranks level with a given one; used by SortStable |
| Lists.ConsistentLevelAmong | app/history/page.tsx:61-66 | under a consistent comparator, two elements ranked level with the same `y` compare at most equal to each other |
| Lists.InsertKeepsTies | app/history/page.tsx:61-66 | inserting an element that comes no later than the other elements of its class passes over none of them, so within the class it lands in front of those already there; an element outside the class leaves the class's order unchanged |
| Lists.FilterPassesOver | app/history/page.tsx:61-66 | moving an element past one that is not level with the same `y` keeps the filtered order |
| Lists.SortStable | app/history/page.tsx:61-66 | the sort is stable: under a consistent comparator, the elements ranked level with any `y` come out in the order they had in the input |
| Lists.SortKeepsLevel | app/history/page.tsx:61-66 | a class of elements that compare at most equal to each other comes out of the sort in its input order |
| Data.LangCode | app/page.tsx:48 | the language field sent is "ce" for Chechen and "ru" for Russian |
| Data.Switched | app/page.tsx:91 | switching always changes the language |
| Data.SwitchedTwice | app/page.tsx:91 | switching twice is the identity |
| Data.LoadAfterStore | app/history/page.tsx:38 | what was stored under a key is loaded back, a removed key loads as the empty list, and a write or removal under another key does not change what is loaded |
| Data.Load | app/history/page.tsx:38 | `JSON.parse(localStorage.getItem(key) \|\| '[]')` on the modelled storage; stated by LoadAfterStore |
| Data.Headword | components/TranslatorResults/TranslatorResults.tsx:98 | the headword is `word` when that is non-empty, otherwise `word1`; it is empty only when both are |
| Data.DisplayText | components/TranslatorResults/TranslatorResults.tsx:134 | the shown text is `translate` when that is non-empty, otherwise the no-translation message; it is never empty |
| Data.Truthy | components/TranslatorResults/TranslatorResults.tsx:46 | JavaScript truthiness of a payload: a non-empty string, any mapping, or a true scalar; used by Results.View and the translator page's result states |
| Data.IsFavorite | app/history/page.tsx:81 | `entry.favorite` read as a condition: only a present `true` flag; used by FavoritesOfSpec and ToggleAtSpec |
| Normalizer.StripTagsDrops | app/saved/page.tsx:86 | tag removal only drops characters |
| Normalizer.StripTagsNoTagFixed | app/saved/page.tsx:86 | a string in which no `<` has a `>` after it is left alone, stray brackets included: "a>b<c" and any string lacking one of the two brackets stay as they are |
| Normalizer.StripTagsIdempotent | app/saved/page.tsx:86 | removing tags a second time removes nothing more |
| Normalizer.StripTagsRemovesTag | app/saved/page.tsx:86 | the first tag, from its `<` to the first `>` after it, is cut out whole; the text before it stays and the removal goes on after it |
| Normalizer.StripTagsNoTag | app/saved/page.tsx:86 | no `<` in the result has a `>` after it |
| Normalizer.IndexOfClose | app/saved/page.tsx:86 | the position found is the first `>` at or after the start |
| Normalizer.StripTags | app/saved/page.tsx:86 | `/<[^>]*>/g` replaced by ''; stated by StripTagsDrops, StripTagsNoTagFixed, StripTagsRemovesTag, StripTagsNoTag and StripTagsIdempotent |
| Normalizer.KeepWordCharsSpec | app/saved/page.tsx:87 | exactly the ASCII word characters, white space, а-я, А-Я, ё and Ё of the input remain, each as often as in the input and in their order |
| Normalizer.IsKept | app/saved/page.tsx:87 | the characters the class `[^\w\sа-яА-ЯёЁ]` does not match; stated through KeepWordCharsSpec |
| Normalizer.KeepWordChars | app/saved/page.tsx:87 | `/[^\w\sа-яА-ЯёЁ]/g` replaced by '', as the filter of kept characters; stated by KeepWordCharsSpec |
| Normalizer.CollapseSpacesStart | app/saved/page.tsx:88 | the collapse is empty only for the empty string, and it starts with a space exactly when its input starts with white space |
| Normalizer.CollapseSpacesChars | app/saved/page.tsx:88 | the collapse leaves only ordinary spaces and the input's characters that are not white space |
| Normalizer.CollapseSpacesSingle | app/saved/page.tsx:88 | the collapse never leaves two spaces in a row |
| Normalizer.CollapseFixed | app/saved/page.tsx:88 | a string whose only white space is single ordinary spaces is left alone |
| Normalizer.CollapseSpacesKeepsWords | app/saved/page.tsx:88 | the characters that are not white space are kept, all of them and in their order: only white space is replaced |
| Normalizer.CollapseSpacesRun | app/saved/page.tsx:88 | a non-empty white-space run after text without white space becomes exactly one ordinary space, the text before it stays, and the collapse goes on after the run: "a  b" becomes "a b" |
| Normalizer.TrimStartOfRun | app/saved/page.tsx:88-89 | the leading half of `trim` removes exactly a leading white-space run before a non-white-space character |
| Normalizer.CollapseSpaces | app/saved/page.tsx:88 | `/\s+/g` replaced by ' '; stated by CollapseSpacesRun, CollapseSpacesStart, CollapseSpacesChars, CollapseSpacesSingle, CollapseSpacesKeepsWords and CollapseFixed |
| Normalizer.NormalizeText | app/saved/page.tsx:84-91 | `normalizeText`, its five stages in order: the three replacements, `trim` and `toLowerCase`; stated by NormalizeTextIsNormalized, NormalizedIsFixed and NormalizeIdempotent |
| Normalizer.CollapseOfKept | app/saved/page.tsx:87-88 | collapsing kept characters leaves kept characters and single spaces |
| Normalizer.SliceSingleSpaced | app/saved/page.tsx:89 | a slice of a single-spaced string is single-spaced |
| Normalizer.TrimSingleSpaced | app/saved/page.tsx:89 | trimming a single-spaced string keeps it single-spaced, with no white space at either end |
| Normalizer.LowerOfSingleSpaced | app/saved/page.tsx:90 | lower-casing a trimmed single-spaced string gives a normalised string |
| Normalizer.KeptLowersToNormal | app/saved/page.tsx:87-90 | a kept character that is not white space lower-cases to a-z, 0-9, `_`, а-я or ё |
| Normalizer.NormalizeTextIsNormalized | app/saved/page.tsx:84-91 | the result holds only a-z, 0-9, `_`, а-я, ё and single spaces, with no space at either end |
| Normalizer.NormalizeOfSingleSpaced | app/saved/page.tsx:84-91 | on a trimmed single-spaced string of kept characters, normalising is only lower-casing |
| Normalizer.NormalCharIsFixed | app/saved/page.tsx:87-90 | a normalised character is kept and is fixed by lower-casing |
| Normalizer.NormalizedIsSingleSpaced | app/saved/page.tsx:84-91 | a normalised string is single-spaced, trimmed and already lower case |
| Normalizer.NormalizedIsFixed | app/saved/page.tsx:84-91 | a normalised string is its own normal form |
| Normalizer.NormalizeIdempotent | app/saved/page.tsx:84-91 | normalising twice is normalising once |
| Normalizer.NormalizeAfterRemovals | app/saved/page.tsx:86-87 | the two removals do nothing more when applied again |
| Normalizer.NormalizeUpperDag | app/saved/page.tsx:84-91 | "ДАГ" normalises to "даг" |
| Normalizer.KeepWordCharsDagBang | app/saved/page.tsx:86-87 | the removals turn "даг!" into "даг" |
| Normalizer.KeepWordCharsDropsMark | app/saved/page.tsx:87 | the character filter drops the "!" of "даг!" and keeps the word |
| Normalizer.NormalizeDagBang | app/saved/page.tsx:84-91 | "даг!" normalises to "даг" |
| Normalizer.JoinWithSpaces | app/saved/page.tsx:95 | `join(' ')`; its separator structure is stated by JoinAppend |
| Normalizer.JoinAppend | app/saved/page.tsx:94-96 | no elements join to "", one element joins to itself, and joining one more element appends a space and that element, so the elements appear in order with single spaces between them |
| Normalizer.CorrectAnswer | app/saved/page.tsx:94-96 | the reference of a card: an array's translations joined with spaces, a string as it is |
| Normalizer.Grade | app/saved/page.tsx:98-104 | `checkAnswer`'s verdict; stated by GradeIsContainment, EmptyAnswerIsCorrect, GradeOfNormalizedInput and SameNormalFormIsCorrect |
| Normalizer.GradeIsContainment | app/saved/page.tsx:98-104 | an answer is correct exactly when its normal form occurs in the reference's normal form; the equality test adds nothing |
| Normalizer.EmptyAnswerIsCorrect | app/saved/page.tsx:98-104 | an answer that normalises to "" (blank, all punctuation, only tags) is always correct |
| Normalizer.GradeOfNormalizedInput | app/saved/page.tsx:98-104 | typing the normal form of an answer instead of the answer leaves the grade unchanged |
| Normalizer.SameNormalFormIsCorrect | app/saved/page.tsx:98-104 | an answer with the reference's normal form is correct, whatever its case, markup, punctuation or spacing |
| Normalizer.CaseAndPunctuationVariant | app/saved/page.tsx:98-104 | "ДАГ" is graded correct against "даг!" |
| Saved.SearchSavedSpec | app/saved/page.tsx:50-58 | an empty term gives the whole list; otherwise the result is the order-preserving selection of exactly the words containing the term, ignoring case |
| Saved.SearchIgnoresTermCase | app/saved/page.tsx:54 | the search gives the same result for a term and its lower-case form |
| Saved.SearchFoldsPalochka | app/saved/page.tsx:54 | a word with the capital palochka (дӀа) is found by the term with the small one (дӏа) |
| Saved.SearchSaved | app/saved/page.tsx:50-58 | the list `handleSearch` shows; stated by SearchSavedSpec and SearchIgnoresTermCase |
| Saved.WordMatches | app/saved/page.tsx:54 | `translation.word.toLowerCase().includes(term.toLowerCase())`; stated by SearchSavedSpec, SearchIgnoresTermCase and SearchFoldsPalochka |
| Saved.SavedTranslations.constructor | app/saved/page.tsx:43-48 | on mount both lists are the stored list (none means empty), with the quiz off, no search term, an empty answer and no verdict |
| Saved.SavedTranslations.HandleSearch | app/saved/page.tsx:50-58 | the term is kept and the view becomes the search result; the view stays within the saved list |
| Saved.SavedTranslations.HandleDelete | app/saved/page.tsx:60-65 | the index is removed from the full list, which is stored and shown; an out-of-range index removes nothing; a position of the view is always in range, so such a delete removes exactly one word |
| Saved.SavedTranslations.StartStudyMode | app/saved/page.tsx:76-82 | study mode is on at card 0 with an empty answer and no verdict, whatever the view holds; a session over the view runs exactly when the view is not empty |
| Saved.SavedTranslations.OnAnswerInput | app/saved/page.tsx:177 | typing sets the answer |
| Saved.SavedTranslations.CheckEnabled | app/saved/page.tsx:181 | the check button's `disabled={showAnswer}` negated; CheckAnswer requires it and ensures it is false afterwards |
| Saved.SavedTranslations.CheckAnswer | app/saved/page.tsx:93-106 | the verdict is the grade of the current input against the current card, and the answer is shown, which disables the check |
| Saved.SavedTranslations.ShowNextCard | app/saved/page.tsx:108-117 | before the last card, it moves to the next card and clears the answer, the verdict and the shown answer; on the last card it ends the quiz and leaves the index; the cards left drop by one |
| Saved.StudyStep | app/saved/page.tsx:93-117 | one answer-and-next round keeps the session on a valid card with the answer hidden, or ends it after the last card |
| Saved.StudySession | app/saved/page.tsx:76-117 | on an n-card view, exactly n clicks on "next" end the quiz; only the quiz fields change, so the lists, the storage and the search term stay and a valid page stays valid |
| Saved.DeleteAfterStudy | app/saved/page.tsx:60-117 | after the page is mounted and a quiz is run to its end, a delete of the first word is accepted and stores the list without it |
| History.SearchHistorySpec | app/history/page.tsx:50-56 | the search is the order-preserving selection of exactly the entries whose input contains the term, ignoring case; an empty term gives the whole history |
| History.SearchFoldsPalochka | app/history/page.tsx:53 | an entry with the capital palochka (дӀа) is found by the term with the small one (дӏа) |
| History.SearchHistory | app/history/page.tsx:50-56 | the list `handleSearch` shows; stated by SearchHistorySpec |
| History.InputMatches | app/history/page.tsx:53 | `entry.input.toLowerCase().includes(term.toLowerCase())`; stated by SearchHistorySpec and SearchFoldsPalochka |
| History.FavoritesOfSpec | app/history/page.tsx:81 | the favourites view is the order-preserving selection of exactly the favourite records |
| History.FavoritesOf | app/history/page.tsx:81 | `history.filter((entry) => entry.favorite)`; stated by FavoritesOfSpec |
| History.ToggleAtSpec | app/history/page.tsx:73 | toggling changes only the favourite flag of that one record, flips whether it is a favourite, and keeps the length |
| History.ToggleTwice | app/history/page.tsx:73 | toggling twice restores favourite status, and restores the record once its flag exists; an absent flag comes back as false |
| History.ToggleAt | app/history/page.tsx:71-75 | the favourite flip of one record; stated by ToggleAtSpec and ToggleTwice |
| History.DateDiffAntisymmetric | app/history/page.tsx:62-63 | swapping two dates negates the difference, a date ties with itself, the difference is negative exactly when the first date is earlier, and a missing date ties with everything |
| History.DateDiff | app/history/page.tsx:62-63 | `new Date(x) - new Date(y)`, a missing date read as +0; stated by DateDiffAntisymmetric |
| History.Compare | app/history/page.tsx:61-66 | the comparator for each order value; its consistency is used by AlphabeticalSorted, NewestSorted, OldestSorted and UnknownOrderKeepsView |
| History.SortView | app/history/page.tsx:59-68 | `[...view].sort(comparator)`; stated by SortViewPermutes, the order lemmas, AlphabeticalStable, DatedStable and SortViewIdempotent |
| History.SortViewPermutes | app/history/page.tsx:59-68 | sorting the view is a permutation of it |
| History.AlphabeticalSorted | app/history/page.tsx:64 | under a total preorder `localeCompare`, 'alphabetical' orders the inputs |
| History.NewestSorted | app/history/page.tsx:62 | when every record has a date, 'newest' puts later dates first |
| History.OldestSorted | app/history/page.tsx:63 | when every record has a date, 'oldest' puts earlier dates first |
| History.UnknownOrderKeepsView | app/history/page.tsx:65 | any other order value leaves the view in its order |
| History.UndatedKeepsView | app/history/page.tsx:62-63 | on a view with no dates, as the translator page creates them, 'newest' and 'oldest' keep the view in its order |
| History.SortViewIdempotent | app/history/page.tsx:59-68 | whenever the comparator is consistent on the view, sorting the sorted view again by the same order changes nothing |
| History.SameRank | app/history/page.tsx:64 | the records whose inputs `localeCompare` orders neither way from a given one; used by AlphabeticalStable |
| History.AlphabeticalStable | app/history/page.tsx:61-66 | under a total preorder `localeCompare`, 'alphabetical' keeps records whose inputs rank level, such as the same word translated twice, in the order they had in the view |
| History.SameDate | app/history/page.tsx:62-63 | the records carrying a given date; used by DatedStable |
| History.DatesLevel | app/history/page.tsx:62-63 | two dated records are level under 'newest' or 'oldest' exactly when their dates are equal |
| History.DatedStable | app/history/page.tsx:61-66 | when every record has a date, 'newest' and 'oldest' keep records with the same date in the order they had in the view |
| History.ReplaceUnderscoresSpec | app/history/page.tsx:130 | every `_` becomes a space, every other character stays, and no `_` is left |
| History.ReplaceUnderscores | app/history/page.tsx:130 | `replace(/_/g, ' ')`; stated by ReplaceUnderscoresSpec |
| History.RenderEntries | app/history/page.tsx:132-168 | one line per entry, in order, with headword `word` or `word1` and text `translate` or the fallback |
| History.RenderSections | app/history/page.tsx:119-131 | one block per source key, in key order, headed by the key with `_` spaced out |
| History.RenderTranslationSpec | app/history/page.tsx:113-174 | a string is shown as it is; a mapping is shown as its sources in order, with no `_` in the headings and a non-empty text on every entry; anything else shows the no-translation message |
| History.RenderTranslation | app/history/page.tsx:113-174 | `renderTranslation`'s dispatch on the payload; stated by RenderTranslationSpec |
| History.TranslationHistory.constructor | app/history/page.tsx:31-41 | on mount both lists are the stored history as stored (none means empty); the sort selector starts at 'newest' but nothing is sorted; search and favourites view are off |
| History.TranslationHistory.SaveHistoryToLocalStorage | app/history/page.tsx:43-47 | the new list becomes the history and the view, and is stored |
| History.TranslationHistory.HandleSearch | app/history/page.tsx:50-56 | the view is recomputed from the whole history, which drops an earlier sort or favourites view |
| History.TranslationHistory.HandleSort | app/history/page.tsx:59-68 | the view becomes its sorted permutation; the history is not touched |
| History.TranslationHistory.ToggleFavorite | app/history/page.tsx:71-75 | a view index is always in range for the history; that record's flag is flipped, and the result is stored and shown |
| History.TranslationHistory.ToggleShowFavorites | app/history/page.tsx:78-85 | the flag flips; after the old value true the view is the favourites, after false it is the whole history |
| History.TranslationHistory.HandleDelete | app/history/page.tsx:88-91 | the index is removed from the full history, which is stored and shown; a position of the view is always in range, so such a delete removes exactly one record |
| History.TranslationHistory.ClearHistory | app/history/page.tsx:94-98 | both lists are empty and the storage key is gone |
| Translate.TranslateEnabledIff | app/page.tsx:162 | the translate button is enabled exactly when nothing is loading and the input holds a character that is not white space |
| Translate.TranslateEnabled | app/page.tsx:162 | the button's `disabled` condition negated; stated by TranslateEnabledIff |
| Translate.ResultsShown | app/page.tsx:171 | the results panel is shown when the result is truthy; HandleTranslate ensures it is hidden while loading and ReceiveResponse that it is shown after a failure |
| Translate.NewRecord | app/page.tsx:54 | the recorded entry has the request's input, output and language, and neither a date nor a favourite field |
| Translate.Translator.constructor | app/page.tsx:22-40 | on mount the stored history (or none) is loaded and written back; the input and result are empty and the language is Chechen |
| Translate.Translator.OnInputChange | app/page.tsx:137 | typing sets the input |
| Translate.Translator.OnSpeechResult | app/page.tsx:77 | a transcript is appended after a single space |
| Translate.Translator.ClearInput | app/page.tsx:90 | the input becomes empty, which disables the translate button |
| Translate.Translator.SwitchLang | app/page.tsx:91 | ce becomes ru and ru becomes ce |
| Translate.Translator.HandleTranslate | app/page.tsx:42-49 | loading starts, the result is cleared, the request remembers the current input and language, and the form fields sent are the input and its language code |
| Translate.Translator.ReceiveResponse | app/page.tsx:50-62 | on success the result becomes the data and one record is prepended and stored; on failure the error text is shown and the history is unchanged; loading ends either way |
| Translate.TranslateOnce | app/page.tsx:42-63 | a successful translation adds exactly one record in front of the unchanged older ones; a failure adds nothing |
| Results.SourceTitle | components/TranslatorResults/TranslatorResults.tsx:15-19 | the three known source keys get their dictionary names; any other key is its own title |
| Results.CardOf | components/TranslatorResults/TranslatorResults.tsx:98-134 | a card shows the headword and the text with its fallback, but saves the raw `translate` |
| Results.Cards | components/TranslatorResults/TranslatorResults.tsx:78 | one card per entry, in order |
| Results.Groups | components/TranslatorResults/TranslatorResults.tsx:63-73 | one group per source key, in key order, with its title |
| Results.View | components/TranslatorResults/TranslatorResults.tsx:46-63 | a falsy payload renders nothing; a mapping renders one group per source in key order; another truthy scalar renders no groups |
| Results.TranslatorResults.constructor | components/TranslatorResults/TranslatorResults.tsx:33-36 | on mount the saved list is the stored one, or empty |
| Results.TranslatorResults.SaveWord | components/TranslatorResults/TranslatorResults.tsx:39-44 | the pair is appended at the end with no duplicate check, earlier entries are unchanged, and the new list is stored |
| Results.TranslatorResults.SaveCard | components/TranslatorResults/TranslatorResults.tsx:115 | the bookmark saves the card's headword with the raw translation |

## Left out

- Rendering, styling, icons, dark mode, the modal, the copy-to-clipboard
  buttons, the JSON export and `console.log` are left out: they hold no
  logic on the modelled state.
- The HTTP request to the dictionary service is left out. Its result is the
  `Outcome` argument, and the response schema belongs to the service.
- `localStorage` is modelled as a map from key to list. `JSON.stringify` and
  `JSON.parse` are left out, including a parse that throws on malformed
  data.
- React's effect ordering and state batching are left out. Each handler is one
  atomic step. On the translator page, the mount's first run of the saving
  effect briefly writes an empty history before the loaded one. The model
  begins in the state after both effects.
- Speech recognition is left out, apart from how its result is appended: its
  setup, its callbacks and the `listening` flag are browser APIs.
- The `dangerouslySetInnerHTML` display of translations is left out. HTML is
  treated as text.
- `toLowerCase` is modelled only for A..Z, the Latin-1 capitals
  U+00C0..U+00DE (× excepted), Cyrillic U+0400..U+042F and the palochka
  U+04C0. Other capitals (Greek, Latin Extended, the rest of Cyrillic,
  Armenian and so on) and the mappings to more than one character (such as
  İ) are not modelled. The normaliser deletes every letter outside ASCII and
  а..я, А..Я, ё, Ё before lower-casing, so the grade does not depend on this.
- Saved.SearchSavedSpec: a saved word or search term that holds
  one of the capitals left out above matches only with that letter in the
  same case, where the page would also match it in the other case.
- History.SearchHistorySpec: the same gap for the
  history search.
- An item field the service leaves out is modelled as the empty string. Both
  are falsy for `||`. A saved word without a translation would make
  `normalizeText` fail on `undefined`, and that failure is not modelled.
- A `null` payload is left out: `typeof null` is 'object', and rendering it
  in the history fails.
- When a `translationHistory` or `savedWords` value is not an array,
  `filter` and `map` fail. That case is left out.
- Results.View: a non-empty string payload is excluded by its precondition.
  The code passes the error text 'Ошибка при переводе' to this panel after
  a failed request, where `data[key].map` fails. The model covers falsy
  payloads, mappings and other scalars only.
- Results.SourceTitle: `sourceTitles[key]` also finds inherited members
  such as `constructor`. The model treats only the three listed keys as
  known.
- History.NewestSorted, History.OldestSorted: no ordering is claimed when a
  date is missing. The records the translator page creates have no date, so
  there the comparator yields NaN.
- History.AlphabeticalSorted: `localeCompare` is a parameter of the history
  page, assumed to be a total preorder. Locale rules are not modelled.
- `Array.prototype.sort` is modelled by a stable insertion sort. For a
  consistent comparator every stable sort gives this result. For an
  inconsistent one the engine's result may differ.
- History.TranslationHistory.ToggleFavorite: the code mutates the shared
  record object in place, through the shallow copy of the list. The model
  replaces the record in a new list. This aliasing is invisible afterwards,
  because history and view are both reset to the new list.
- Saved.SavedTranslations.StartStudyMode: on an empty view the page turns
  study mode on and then fails when it renders
  `filteredTranslations[0].word`. The model turns study mode on with no
  session running (`InSession()` is false) and does not model the failure.
  Saved.StudySession therefore requires a view that is not empty.
- Saved.StudySession: a search during a running quiz is left out. The search
  box stays live and can make the current index point past the view. The
  session property assumes no search between start and end.
- Strings are sequences of Unicode code points. JavaScript's `includes`, `trim`
  and the regular expressions without the `u` flag work on UTF-16 code units.
  The results agree on well-formed strings, and a lone surrogate cannot be
  represented in the model.
- Translate.Translator.ReceiveResponse: the handler's closure captured the
  history at the click. The model prepends to the current history. These are
  equal, because nothing else changes the history while the request runs.
