/** The values the pages pass around and persist: dictionary payloads,
    history records and saved words, plus the `||` fallbacks used when a
    dictionary entry is displayed. */
module Data {

  datatype Option<+T> = None | Some(value: T)

  /** The source language of a request: 'ce' (Chechen) or 'ru' (Russian). */
  datatype Lang = Ce | Ru

  /** The `lang` form field sent with a request. */
  function LangCode(l: Lang): (code: string)
    ensures code == "ce" || code == "ru"
    ensures code == "ce" <==> l == Ce
  {
    match l
    case Ce => "ce"
    case Ru => "ru"
  }

  /** `switchLang`'s update: ce becomes ru and ru becomes ce. */
  function Switched(l: Lang): (r: Lang)
    ensures r != l
  {
    match l
    case Ce => Ru
    case Ru => Ce
  }

  lemma SwitchedTwice(l: Lang)
    ensures Switched(Switched(l)) == l
  {
  }

  /** One lexical entry of a dictionary source. A field the service leaves
      out is the empty string here: both are falsy for `||`. */
  datatype Item = Item(word: string, word1: string, translate: string)

  /** A response body: a string, a mapping from source key to entries (the
      pairs in `Object.keys` order), or another scalar, which is only
      truthy or falsy to this code. */
  datatype Payload =
    | Text(text: string)
    | Sources(groups: seq<(string, seq<Item>)>)
    | Scalar(truthy: bool)

  /** JavaScript truthiness of a payload: objects are always truthy. */
  predicate Truthy(p: Payload) {
    match p
    case Text(s) => s != ""
    case Sources(_) => true
    case Scalar(t) => t
  }

  /** A history entry. `favorite` and `date` are absent on the records the
      translator page creates. */
  datatype Record = Record(
    input: string,
    output: Payload,
    lang: Lang,
    favorite: Option<bool>,
    date: Option<int>)

  /** `entry.favorite` used as a condition: an absent field is falsy. */
  predicate IsFavorite(r: Record) {
    r.favorite == Some(true)
  }

  /** A saved word's translation: a string, or an array of objects of which
      only each element's `translation` field is read. */
  datatype SavedTranslation = Plain(text: string) | Listed(translations: seq<string>)

  datatype SavedWord = SavedWord(word: string, translation: SavedTranslation)

  const HistoryKey: string := "translationHistory"
  const SavedKey: string := "savedWords"

  /** The text shown when an entry has no translation. */
  const NoTranslation: string := "Перевод отсутствует"

  /** The list stored under `key`, or the empty list when there is none. */
  function Load<T>(storage: map<string, seq<T>>, key: string): seq<T> {
    if key in storage then storage[key] else []
  }

  /** Reading back: what was stored under a key is what is loaded, a
      removed key loads as the empty list, and a write under another key
      leaves what is loaded unchanged. */
  lemma LoadAfterStore<T>(storage: map<string, seq<T>>, key: string, other: string, v: seq<T>)
    ensures Load(storage[key := v], key) == v
    ensures Load(storage - {key}, key) == []
    ensures other != key ==> Load(storage[other := v], key) == Load(storage, key)
    ensures other != key ==> Load(storage - {other}, key) == Load(storage, key)
  {
  }

  /** `item.word || item.word1`: the headword shown and saved. */
  function Headword(item: Item): (h: string)
    ensures h == item.word || h == item.word1
    ensures h != "" <==> item.word != "" || item.word1 != ""
    ensures item.word != "" ==> h == item.word
  {
    if item.word != "" then item.word else item.word1
  }

  /** `item.translate || 'Перевод отсутствует'`: the text shown for an
      entry, never blank. */
  function DisplayText(item: Item): (t: string)
    ensures t != ""
    ensures t == item.translate || t == NoTranslation
    ensures item.translate != "" ==> t == item.translate
  {
    if item.translate != "" then item.translate else NoTranslation
  }
}
