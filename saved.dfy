/** The saved-words page: searching and deleting saved words, and the
    flashcard study session that quizzes the user on the listed words. */
module Saved {
  import opened JsText
  import opened Lists
  import opened Data
  import opened Normalizer

  /** `translation.word.toLowerCase().includes(term.toLowerCase())`. */
  predicate WordMatches(w: SavedWord, term: string) {
    Includes(ToLower(w.word), ToLower(term))
  }

  /** The list `handleSearch` shows: everything for an empty term, else the
      words containing the term, ignoring case. */
  function SearchSaved(saved: seq<SavedWord>, term: string): seq<SavedWord> {
    if term != "" then Filter(saved, w => WordMatches(w, term)) else saved
  }

  /** The search result is the order-preserving selection of exactly the
      matching words; an empty term selects them all. */
  lemma SearchSavedSpec(saved: seq<SavedWord>, term: string)
    ensures term == "" ==> SearchSaved(saved, term) == saved
    ensures IsSubsequence(SearchSaved(saved, term), saved)
    ensures forall w ::
      multiset(SearchSaved(saved, term))[w] == if WordMatches(w, term) then multiset(saved)[w] else 0
  {
    if term != "" {
      FilterSpec(saved, w => WordMatches(w, term));
    } else {
      SubsequenceOfItself(saved);
      forall w ensures WordMatches(w, term) {
        IncludesTrivial(ToLower(w.word));
      }
    }
  }

  /** The search ignores the case of the term. */
  lemma SearchIgnoresTermCase(saved: seq<SavedWord>, term: string)
    ensures SearchSaved(saved, ToLower(term)) == SearchSaved(saved, term)
  {
    ToLowerIdempotent(term);
    FilterCongruent(saved, w => WordMatches(w, ToLower(term)), w => WordMatches(w, term));
  }

  /** A Chechen word with the capital palochka is found by a term with the
      small one. */
  lemma SearchFoldsPalochka(w: SavedWord, term: string)
    requires w.word == "дӀа" && term == "дӏа"
    ensures WordMatches(w, term)
  {
    var lw := ToLower(w.word);
    assert lw[0] == 'д' && lw[1] == 'ӏ' && lw[2] == 'а';
    var lt := ToLower(term);
    assert lt[0] == 'д' && lt[1] == 'ӏ' && lt[2] == 'а';
    assert lw == lt;
    IncludesTrivial(lw);
  }

  class SavedTranslations {
    var savedTranslations: seq<SavedWord>
    var filteredTranslations: seq<SavedWord>
    var searchTerm: string
    var studyMode: bool
    var currentCardIndex: nat
    var userInput: string
    var showAnswer: bool
    var isCorrect: Option<bool>
    /** The page's view of `localStorage`. */
    var storage: map<string, seq<SavedWord>>

    /** Storage holds the saved list, and the view shows only saved words. */
    ghost predicate Valid()
      reads this
    {
      && Load(storage, SavedKey) == savedTranslations
      && multiset(filteredTranslations) <= multiset(savedTranslations)
    }

    /** A running session points at a card of the view. */
    ghost predicate InSession()
      reads this`studyMode, this`currentCardIndex, this`filteredTranslations
    {
      studyMode && currentCardIndex < |filteredTranslations|
    }

    /** How many more "next" clicks end the session. */
    ghost function CardsLeft(): nat
      reads this`studyMode, this`currentCardIndex, this`filteredTranslations
    {
      if InSession() then |filteredTranslations| - currentCardIndex else 0
    }

    /** Mounting the page: the stored list (or none) is read into both lists. */
    constructor (stored: map<string, seq<SavedWord>>)
      ensures Valid() && !studyMode
      ensures storage == stored
      ensures savedTranslations == Load(stored, SavedKey)
      ensures filteredTranslations == savedTranslations
      ensures searchTerm == "" && currentCardIndex == 0 && userInput == ""
      ensures !showAnswer && isCorrect == None
    {
      storage := stored;
      savedTranslations := Load(stored, SavedKey);
      filteredTranslations := Load(stored, SavedKey);
      searchTerm := "";
      studyMode := false;
      currentCardIndex := 0;
      userInput := "";
      showAnswer := false;
      isCorrect := None;
    }

    /** `handleSearch`: the view becomes the matching saved words. */
    method HandleSearch(term: string)
      requires Valid()
      modifies this`searchTerm, this`filteredTranslations
      ensures Valid()
      ensures searchTerm == term
      ensures filteredTranslations == SearchSaved(savedTranslations, term)
    {
      searchTerm := term;
      var results := if term != "" then Filter(savedTranslations, w => WordMatches(w, term)) else savedTranslations;
      filteredTranslations := results;
      SearchSavedSpec(savedTranslations, term);
      assert multiset(results) <= multiset(savedTranslations) by {
        if term != "" {
          FilterSubMultiset(savedTranslations, w => WordMatches(w, term));
        }
      }
    }

    /** `handleDelete`: position `index`, taken from the view, is removed from
        the full list; the view is reset to the whole list and stored. The
        delete controls are only on screen outside study mode. */
    method HandleDelete(index: int)
      requires Valid() && !studyMode
      modifies this`savedTranslations, this`filteredTranslations, this`storage
      ensures Valid()
      ensures savedTranslations == RemoveAt(old(savedTranslations), index)
      ensures filteredTranslations == savedTranslations
      ensures storage == old(storage)[SavedKey := savedTranslations]
      ensures 0 <= index < |old(savedTranslations)| ==>
        savedTranslations == old(savedTranslations)[..index] + old(savedTranslations)[index + 1..]
      ensures !(0 <= index < |old(savedTranslations)|) ==> savedTranslations == old(savedTranslations)
      ensures 0 <= index < |old(filteredTranslations)| ==> |savedTranslations| == |old(savedTranslations)| - 1
    {
      var updated := RemoveAt(savedTranslations, index);
      RemoveAtSpec(savedTranslations, index);
      SubMultisetSize(filteredTranslations, savedTranslations);
      savedTranslations := updated;
      filteredTranslations := updated;
      storage := storage[SavedKey := updated];
    }

    /** `startStudyMode`: the quiz starts on the first card of the view. The
        button is there whatever the view holds; on an empty view there is
        no card to show, and no session runs. */
    method StartStudyMode()
      modifies this`studyMode, this`currentCardIndex, this`userInput, this`isCorrect, this`showAnswer
      ensures studyMode && currentCardIndex == 0
      ensures userInput == "" && isCorrect == None && !showAnswer
      ensures InSession() <==> |filteredTranslations| > 0
      ensures CardsLeft() == |filteredTranslations|
    {
      studyMode := true;
      currentCardIndex := 0;
      userInput := "";
      isCorrect := None;
      showAnswer := false;
    }

    /** Typing into the answer box. */
    method OnAnswerInput(text: string)
      modifies this`userInput
      ensures userInput == text
    {
      userInput := text;
    }

    /** The check is offered only while the answer is hidden. */
    predicate CheckEnabled()
      reads this`showAnswer
    {
      !showAnswer
    }

    /** `checkAnswer`: grades the current input against the current card and
        reveals the answer, which disables the check until the next card. */
    method CheckAnswer()
      requires InSession() && CheckEnabled()
      modifies this`isCorrect, this`showAnswer
      ensures isCorrect == Some(Grade(old(userInput), old(filteredTranslations[currentCardIndex]).translation))
      ensures showAnswer && !CheckEnabled()
    {
      isCorrect := Some(Grade(userInput, filteredTranslations[currentCardIndex].translation));
      showAnswer := true;
    }

    /** `showNextCard`: moves to the next card with a fresh answer box, or
        ends the session on the last card, leaving the index where it is. */
    method ShowNextCard()
      requires InSession()
      modifies this`studyMode, this`currentCardIndex, this`userInput, this`isCorrect, this`showAnswer
      ensures old(currentCardIndex) < |filteredTranslations| - 1 ==>
        && studyMode && currentCardIndex == old(currentCardIndex) + 1
        && userInput == "" && !showAnswer && isCorrect == None
      ensures old(currentCardIndex) == |filteredTranslations| - 1 ==>
        && !studyMode && currentCardIndex == old(currentCardIndex)
        && userInput == old(userInput) && showAnswer == old(showAnswer) && isCorrect == old(isCorrect)
      ensures studyMode ==> InSession()
      ensures CardsLeft() == old(CardsLeft()) - 1
    {
      if currentCardIndex < |filteredTranslations| - 1 {
        currentCardIndex := currentCardIndex + 1;
        userInput := "";
        showAnswer := false;
        isCorrect := None;
      } else {
        studyMode := false;
      }
    }
  }

  /** One round of the quiz: optionally type and check an answer, then
      click "next". The view and the saved list stay as they are, and the
      session either moves to the next card with the answer hidden or ends
      on the last card. */
  method StudyStep(page: SavedTranslations, answer: Option<string>)
    requires page.InSession() && !page.showAnswer
    modifies page`userInput, page`isCorrect, page`showAnswer, page`studyMode, page`currentCardIndex
    ensures old(page.currentCardIndex) < |page.filteredTranslations| - 1 ==>
      page.InSession() && !page.showAnswer && page.currentCardIndex == old(page.currentCardIndex) + 1
    ensures old(page.currentCardIndex) == |page.filteredTranslations| - 1 ==> !page.studyMode
    ensures page.CardsLeft() == old(page.CardsLeft()) - 1
  {
    if answer.Some? {
      page.OnAnswerInput(answer.value);
      page.CheckAnswer();
    }
    page.ShowNextCard();
  }

  /** A whole session without searching: on an n-card view, starting and
      then clicking "next" ends the quiz after exactly n clicks. The page
      itself has no loop; each iteration here stands for one user round of
      typing, checking and clicking `showNextCard`, and the loop only
      drives a session to its end. */
  method StudySession(page: SavedTranslations, answers: seq<string>) returns (clicks: nat)
    requires |page.filteredTranslations| > 0
    modifies page`userInput, page`isCorrect, page`showAnswer, page`studyMode, page`currentCardIndex
    ensures clicks == |page.filteredTranslations| && !page.studyMode
    ensures page.filteredTranslations == old(page.filteredTranslations)
    ensures page.savedTranslations == old(page.savedTranslations)
    ensures page.storage == old(page.storage) && page.searchTerm == old(page.searchTerm)
    ensures old(page.Valid()) ==> page.Valid()
  {
    page.StartStudyMode();
    clicks := 0;
    while page.studyMode
      invariant page.filteredTranslations == old(page.filteredTranslations)
      invariant page.savedTranslations == old(page.savedTranslations)
      invariant page.storage == old(page.storage) && page.searchTerm == old(page.searchTerm)
      invariant page.studyMode ==> page.InSession() && !page.showAnswer && page.currentCardIndex == clicks
      invariant !page.studyMode ==> clicks == |page.filteredTranslations|
      invariant page.CardsLeft() == |page.filteredTranslations| - clicks
      decreases page.CardsLeft()
    {
      StudyStep(page, if clicks < |answers| then Some(answers[clicks]) else None);
      clicks := clicks + 1;
    }
  }

  /** After a quiz the page is still in a state every handler accepts: a
      delete, for one, can follow it. */
  method DeleteAfterStudy(stored: map<string, seq<SavedWord>>, answers: seq<string>)
    returns (page: SavedTranslations)
    requires |Load(stored, SavedKey)| > 0
    ensures page.Valid() && !page.studyMode
    ensures Load(page.storage, SavedKey) == Load(stored, SavedKey)[1..]
  {
    page := new SavedTranslations(stored);
    var _ := StudySession(page, answers);
    page.HandleDelete(0);
  }
}
