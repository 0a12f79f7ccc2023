/** The translator page: the input box, the language toggle, the translate
    request with its loading and error states, and the history it keeps in
    storage. The dictionary service is an outcome handed in from outside. */
module Translate {
  import opened JsText
  import opened Data

  /** The shown text when a request fails. */
  const TranslationError: string := "Ошибка при переводе"

  /** What the request to the dictionary service comes back with. */
  datatype Outcome = Success(data: Payload) | Failure

  /** The translate button is enabled when no request is running and the
      input holds something other than white space. */
  predicate TranslateEnabled(loading: bool, inputText: string) {
    !(loading || Trim(inputText) == "")
  }

  /** `trim()` is empty exactly for an all-white-space input, so the button
      is enabled exactly when nothing is loading and some character of the
      input is not white space. */
  lemma TranslateEnabledIff(loading: bool, inputText: string)
    ensures TranslateEnabled(loading, inputText) <==>
      !loading && exists i :: 0 <= i < |inputText| && !IsSpace(inputText[i])
  {
    TrimNonEmptyIff(inputText);
  }

  /** The results panel is shown exactly while the shown text is truthy. */
  predicate ResultsShown(translatedText: Payload) {
    Truthy(translatedText)
  }

  /** The record a successful request adds: no date and no favourite flag. */
  function NewRecord(input: string, data: Payload, lang: Lang): (r: Record)
    ensures r.input == input && r.output == data && r.lang == lang
    ensures r.date == None && r.favorite == None && !IsFavorite(r)
  {
    Record(input, data, lang, None, None)
  }

  class Translator {
    var inputText: string
    var translatedText: Payload
    var loading: bool
    var lang: Lang
    var translationHistory: seq<Record>
    /** The page's view of `localStorage`. */
    var storage: map<string, seq<Record>>
    /** The input and language the running request was sent with. */
    var requestInput: string
    var requestLang: Lang

    /** The persisting effect has run: storage holds the history. */
    ghost predicate Valid()
      reads this
    {
      HistoryKey in storage && storage[HistoryKey] == translationHistory
    }

    /** Mounting the page: the stored history (or none) is loaded and
        written back; the language starts as Chechen. */
    constructor (stored: map<string, seq<Record>>)
      ensures Valid()
      ensures translationHistory == Load(stored, HistoryKey)
      ensures storage == stored[HistoryKey := translationHistory]
      ensures inputText == "" && translatedText == Text("") && !loading && lang == Ce
      ensures !ResultsShown(translatedText)
    {
      var loaded := Load(stored, HistoryKey);
      translationHistory := loaded;
      storage := stored[HistoryKey := loaded];
      inputText := "";
      translatedText := Text("");
      loading := false;
      lang := Ce;
      requestInput := "";
      requestLang := Ce;
    }

    /** Typing into the input box. */
    method OnInputChange(text: string)
      modifies this`inputText
      ensures inputText == text
    {
      inputText := text;
    }

    /** A speech result is appended after a space. */
    method OnSpeechResult(transcript: string)
      modifies this`inputText
      ensures inputText == old(inputText) + " " + transcript
      ensures |inputText| == |old(inputText)| + 1 + |transcript|
    {
      inputText := inputText + " " + transcript;
    }

    /** `clearInput`. */
    method ClearInput()
      modifies this`inputText
      ensures inputText == ""
      ensures !TranslateEnabled(loading, inputText)
    {
      inputText := "";
    }

    /** `switchLang`: ce becomes ru and ru becomes ce. */
    method SwitchLang()
      modifies this`lang
      ensures lang == Switched(old(lang)) && lang != old(lang)
    {
      lang := Switched(lang);
    }

    /** Clicking translate: loading starts, the shown text is cleared, and
        the request carries the current input and language; the form
        fields sent are the input and the language code. */
    method HandleTranslate() returns (wordField: string, langField: string)
      requires TranslateEnabled(loading, inputText)
      modifies this`loading, this`translatedText, this`requestInput, this`requestLang
      ensures loading && translatedText == Text("") && !ResultsShown(translatedText)
      ensures requestInput == inputText && requestLang == lang
      ensures wordField == inputText && langField == LangCode(lang)
      ensures !TranslateEnabled(loading, inputText)
    {
      loading := true;
      translatedText := Text("");
      requestInput := inputText;
      requestLang := lang;
      wordField := inputText;
      langField := LangCode(lang);
    }

    /** The request settles. On success the data is shown and a new record
        goes in front of the history, which is stored; on failure the error
        text is shown and the history stays. Loading ends either way. */
    method ReceiveResponse(outcome: Outcome)
      requires Valid() && loading
      modifies this`loading, this`translatedText, this`translationHistory, this`storage
      ensures Valid() && !loading
      ensures outcome.Success? ==>
        && translatedText == outcome.data
        && translationHistory == [NewRecord(requestInput, outcome.data, requestLang)] + old(translationHistory)
        && storage == old(storage)[HistoryKey := translationHistory]
      ensures outcome.Failure? ==>
        && translatedText == Text(TranslationError) && ResultsShown(translatedText)
        && translationHistory == old(translationHistory) && storage == old(storage)
    {
      match outcome {
        case Success(data) =>
          translatedText := data;
          translationHistory := [Record(requestInput, data, requestLang, None, None)] + translationHistory;
          storage := storage[HistoryKey := translationHistory];
        case Failure =>
          translatedText := Text(TranslationError);
      }
      loading := false;
    }
  }

  /** One complete translation: a success adds exactly one record, for the
      input and language at the click, in front of the unchanged older
      records; a failure adds nothing. */
  method TranslateOnce(page: Translator, outcome: Outcome)
    requires page.Valid() && TranslateEnabled(page.loading, page.inputText)
    modifies page`loading, page`translatedText, page`requestInput, page`requestLang,
      page`translationHistory, page`storage
    ensures page.Valid() && !page.loading
    ensures outcome.Success? ==>
      && |page.translationHistory| == |old(page.translationHistory)| + 1
      && page.translationHistory[0] == NewRecord(page.inputText, outcome.data, page.lang)
      && page.translationHistory[1..] == old(page.translationHistory)
    ensures outcome.Failure? ==>
      page.translationHistory == old(page.translationHistory) && page.translatedText == Text(TranslationError)
  {
    var _, _ := page.HandleTranslate();
    page.ReceiveResponse(outcome);
  }
}
