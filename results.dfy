/** The results panel of the translator page: one group of cards per
    dictionary source, with readable source titles, and the bookmark button
    that appends a word to the saved list. */
module Results {
  import opened Data

  const MacievKey: string := "maciev_ce_ru"
  const IsmailovKey: string := "ismailov_ce_ru"
  const KarasaevMacievKey: string := "karasaev_maciev_ru_ce"

  /** `sourceTitles[key] || key`: the three known dictionaries get their
      readable names, any other key is shown as it is. */
  function SourceTitle(key: string): (title: string)
    ensures key == MacievKey ==> title == "Макеев (Чеченский-Русский)"
    ensures key == IsmailovKey ==> title == "Исмаилов (Чеченский-Русский)"
    ensures key == KarasaevMacievKey ==> title == "Карасаев-Макеев (Русский-Чеченский)"
    ensures key != MacievKey && key != IsmailovKey && key != KarasaevMacievKey ==> title == key
    ensures title != "" <==> key != "" || key == MacievKey || key == IsmailovKey || key == KarasaevMacievKey
  {
    if key == MacievKey then "Макеев (Чеченский-Русский)"
    else if key == IsmailovKey then "Исмаилов (Чеченский-Русский)"
    else if key == KarasaevMacievKey then "Карасаев-Макеев (Русский-Чеченский)"
    else key
  }

  /** One entry's card: the headword, the shown text, and what the bookmark
      button saves. */
  datatype Card = Card(headword: string, text: string, savedWord: string, savedTranslation: string)

  datatype SourceGroup = SourceGroup(title: string, cards: seq<Card>)

  /** The card of an entry. The shown text falls back to the
      no-translation message, but the saved translation is the raw field. */
  function CardOf(item: Item): (c: Card)
    ensures c.headword == Headword(item) && c.savedWord == c.headword
    ensures c.text == DisplayText(item) && c.text != ""
    ensures c.savedTranslation == item.translate
    ensures item.translate != "" ==> c.text == c.savedTranslation
    ensures item.translate == "" ==> c.text == NoTranslation
  {
    Card(Headword(item), DisplayText(item), Headword(item), item.translate)
  }

  function Cards(items: seq<Item>): (cards: seq<Card>)
    ensures |cards| == |items|
    ensures forall j :: 0 <= j < |items| ==> cards[j] == CardOf(items[j])
  {
    if items == [] then [] else [CardOf(items[0])] + Cards(items[1..])
  }

  function Groups(groups: seq<(string, seq<Item>)>): (r: seq<SourceGroup>)
    ensures |r| == |groups|
    ensures forall i :: 0 <= i < |groups| ==> r[i] == SourceGroup(SourceTitle(groups[i].0), Cards(groups[i].1))
  {
    if groups == [] then [] else [SourceGroup(SourceTitle(groups[0].0), Cards(groups[0].1))] + Groups(groups[1..])
  }

  /** What the panel renders for `data`: nothing for a falsy value, one
      group per source key in key order for a mapping, and no groups for
      another truthy scalar, which has no keys. A non-empty string is not
      a shape this panel handles. */
  function View(data: Payload): (v: Option<seq<SourceGroup>>)
    requires !(data.Text? && data.text != "")
    ensures v == None <==> !Truthy(data)
    ensures data.Scalar? && data.truthy ==> v == Some([])
    ensures data.Sources? ==> v.Some? && |v.value| == |data.groups|
    ensures data.Sources? ==> forall i :: 0 <= i < |data.groups| ==>
      && v.value[i].title == SourceTitle(data.groups[i].0)
      && |v.value[i].cards| == |data.groups[i].1|
      && forall j :: 0 <= j < |data.groups[i].1| ==> v.value[i].cards[j] == CardOf(data.groups[i].1[j])
  {
    match data
    case Text(_) => None
    case Scalar(t) => if t then Some([]) else None
    case Sources(groups) => Some(Groups(groups))
  }

  class TranslatorResults {
    var savedWords: seq<SavedWord>
    /** The panel's view of `localStorage`. */
    var storage: map<string, seq<SavedWord>>

    /** Storage holds the saved list (no key means no words). */
    ghost predicate Valid()
      reads this
    {
      Load(storage, SavedKey) == savedWords
    }

    /** Mounting the panel: the stored list, or none. */
    constructor (stored: map<string, seq<SavedWord>>)
      ensures Valid()
      ensures storage == stored && savedWords == Load(stored, SavedKey)
    {
      storage := stored;
      savedWords := Load(stored, SavedKey);
    }

    /** `saveWord`: the pair goes at the end, with no duplicate check, and
        the new list is stored. */
    method SaveWord(word: string, translation: string)
      requires Valid()
      modifies this`savedWords, this`storage
      ensures Valid()
      ensures savedWords == old(savedWords) + [SavedWord(word, Plain(translation))]
      ensures |savedWords| == |old(savedWords)| + 1 && savedWords[..|old(savedWords)|] == old(savedWords)
      ensures storage == old(storage)[SavedKey := savedWords]
    {
      savedWords := savedWords + [SavedWord(word, Plain(translation))];
      storage := storage[SavedKey := savedWords];
    }

    /** The bookmark button of a card: saves the shown headword with the
        raw translation. */
    method SaveCard(item: Item)
      requires Valid()
      modifies this`savedWords, this`storage
      ensures Valid()
      ensures savedWords == old(savedWords) + [SavedWord(Headword(item), Plain(item.translate))]
      ensures storage == old(storage)[SavedKey := savedWords]
    {
      var card := CardOf(item);
      SaveWord(card.savedWord, card.savedTranslation);
    }
  }
}
