/** The quiz grader of the saved-words page: `normalizeText`, a chain of
    three regular-expression replacements, `trim` and `toLowerCase`, and the
    containment test `checkAnswer` applies to the normalised strings. */
module Normalizer {
  import opened JsText
  import opened Lists
  import opened Data

  /** `/<[^>]*>/g` replaced by '': from each `<` that has a `>` after it,
      everything up to and including the first such `>` is dropped. A `<`
      with no `>` after it stays, and so does the rest of the string. */
  function StripTags(s: string): string
    decreases |s|
  {
    if s == [] then []
    else if s[0] == '<' && '>' in s[1..] then StripTags(s[IndexOfClose(s, 1) + 1..])
    else [s[0]] + StripTags(s[1..])
  }

  /** The tag removal only drops characters. */
  lemma {:induction false} StripTagsDrops(s: string)
    ensures |StripTags(s)| <= |s|
    ensures forall c :: c in StripTags(s) ==> c in s
    decreases |s|
  {
    if s == [] {
    } else if s[0] == '<' && '>' in s[1..] {
      var k := IndexOfClose(s, 1);
      StripTagsDrops(s[k + 1..]);
      forall c | c in s[k + 1..] ensures c in s {
        var m :| 0 <= m < |s[k + 1..]| && s[k + 1..][m] == c;
        assert s[k + 1 + m] == c;
      }
    } else {
      StripTagsDrops(s[1..]);
      assert forall c :: c in s[1..] ==> c in s;
    }
  }

  /** A string in which no `<` has a `>` after it holds no complete tag
      and is left alone, stray brackets included: "a>b<c" stays as it is,
      and so does any string lacking `<` or lacking `>`. */
  lemma {:induction false} StripTagsNoTagFixed(s: string)
    requires forall i, j :: 0 <= i < j < |s| && s[i] == '<' ==> s[j] != '>'
    ensures StripTags(s) == s
    decreases |s|
  {
    if s != [] {
      var t := s[1..];
      if s[0] == '<' {
        forall c | c in t ensures c != '>' {
          var m :| 0 <= m < |t| && t[m] == c;
          assert s[m + 1] == c;
        }
      }
      forall i, j | 0 <= i < j < |t| && t[i] == '<' ensures t[j] != '>' {
        assert t[i] == s[i + 1] && t[j] == s[j + 1];
      }
      StripTagsNoTagFixed(t);
      assert s == [s[0]] + t;
    }
  }

  /** Removing tags a second time removes nothing more. */
  lemma StripTagsIdempotent(s: string)
    ensures StripTags(StripTags(s)) == StripTags(s)
  {
    StripTagsNoTag(s);
    StripTagsNoTagFixed(StripTags(s));
  }

  /** The first tag is cut out whole: with no `<` before it and no `>`
      inside it, everything from its `<` to its `>` goes, the text before
      it stays, and the removal goes on after it. */
  lemma {:induction false} StripTagsRemovesTag(a: string, t: string, b: string)
    requires '<' !in a && '>' !in t
    ensures StripTags(a + ['<'] + t + ['>'] + b) == a + StripTags(b)
    decreases |a|
  {
    var s := a + ['<'] + t + ['>'] + b;
    if a == [] {
      assert s == ['<'] + t + ['>'] + b;
      assert '>' in s[1..] by {
        assert s[1..][|t|] == '>';
      }
      forall m | 1 <= m < |t| + 1 ensures s[m] != '>' {
        assert s[m] == t[m - 1] && t[m - 1] in t;
      }
      var k := IndexOfClose(s, 1);
      assert s[|t| + 1] == '>';
      assert k == |t| + 1;
      assert s[k + 1..] == b;
    } else {
      assert a[0] != '<' by {
        assert a[0] in a;
      }
      assert '<' !in a[1..];
      StripTagsRemovesTag(a[1..], t, b);
      assert s[1..] == a[1..] + ['<'] + t + ['>'] + b;
      assert s[0] == a[0];
      assert a == [a[0]] + a[1..];
    }
  }

  /** No `<` in the result has a `>` anywhere after it. */
  lemma {:induction false} StripTagsNoTag(s: string)
    ensures forall i, j :: 0 <= i < j < |StripTags(s)| && StripTags(s)[i] == '<' ==> StripTags(s)[j] != '>'
    decreases |s|
  {
    if s == [] {
    } else if s[0] == '<' && '>' in s[1..] {
      StripTagsNoTag(s[IndexOfClose(s, 1) + 1..]);
    } else {
      var rest := StripTags(s[1..]);
      StripTagsNoTag(s[1..]);
      StripTagsDrops(s[1..]);
      var r := [s[0]] + rest;
      assert r == StripTags(s);
      forall i, j | 0 <= i < j < |r| && r[i] == '<' ensures r[j] != '>' {
        assert r[j] == rest[j - 1];
        if i > 0 {
          assert r[i] == rest[i - 1];
        } else {
          assert rest[j - 1] in rest;
        }
      }
    }
  }

  /** Position of the first `>` at or after `from`. */
  function IndexOfClose(s: string, from: nat): (k: nat)
    requires from <= |s| && '>' in s[from..]
    ensures from <= k < |s| && s[k] == '>'
    ensures forall m :: from <= m < k ==> s[m] != '>'
    decreases |s| - from
  {
    if s[from] == '>' then from
    else
      assert s[from..] == [s[from]] + s[from + 1..];
      IndexOfClose(s, from + 1)
  }

  /** The characters `/[^\w\sа-яА-ЯёЁ]/g` does NOT remove: ASCII word
      characters, white space, а..я, А..Я, ё and Ё. */
  predicate IsKept(c: char) {
    || 'a' <= c <= 'z' || 'A' <= c <= 'Z' || '0' <= c <= '9' || c == '_'
    || IsSpace(c)
    || '\U{0430}' <= c <= '\U{044F}'  // а..я
    || '\U{0410}' <= c <= '\U{042F}'  // А..Я
    || c == '\U{0451}' || c == '\U{0401}'  // ё, Ё
  }

  /** `/[^\w\sа-яА-ЯёЁ]/g` replaced by '': the kept characters, in order. */
  function KeepWordChars(s: string): string {
    Filter(s, IsKept)
  }

  /** Exactly the kept characters of the input remain, each as often as in
      the input and in their order. */
  lemma KeepWordCharsSpec(s: string)
    ensures IsSubsequence(KeepWordChars(s), s)
    ensures forall c :: multiset(KeepWordChars(s))[c] == if IsKept(c) then multiset(s)[c] else 0
    ensures forall c :: c in KeepWordChars(s) ==> IsKept(c) && c in s
  {
    FilterSpec(s, IsKept);
  }

  /** `/\s+/g` replaced by ' ': every maximal run of white space becomes a
      single ordinary space. */
  function CollapseSpaces(s: string): string
    decreases |s|
  {
    if s == [] then []
    else if IsSpace(s[0]) then
      var rest := TrimStart(s);
      assert |rest| < |s|;
      [' '] + CollapseSpaces(rest)
    else [s[0]] + CollapseSpaces(s[1..])
  }

  /** The collapse empties only the empty string and starts with a space
      exactly when its input starts with white space. */
  lemma CollapseSpacesStart(s: string)
    ensures (CollapseSpaces(s) == []) == (s == [])
    ensures CollapseSpaces(s) != [] ==> (CollapseSpaces(s)[0] == ' ' <==> IsSpace(s[0]))
  {
  }

  /** The collapse keeps only ordinary spaces and the input's characters
      that are not white space. */
  lemma {:induction false} CollapseSpacesChars(s: string)
    ensures forall c :: c in CollapseSpaces(s) ==> c == ' ' || (!IsSpace(c) && c in s)
    decreases |s|
  {
    if s != [] {
      var tail := if IsSpace(s[0]) then TrimStart(s) else s[1..];
      TrimStartSpec(s);
      CollapseSpacesChars(tail);
      forall c | c in tail ensures c in s {
        var m :| 0 <= m < |tail| && tail[m] == c;
        assert s[|s| - |tail| + m] == c;
      }
    }
  }

  /** The collapse never leaves two spaces in a row. */
  lemma {:induction false} CollapseSpacesSingle(s: string)
    ensures forall i :: 0 <= i < |CollapseSpaces(s)| - 1 ==>
      !(CollapseSpaces(s)[i] == ' ' && CollapseSpaces(s)[i + 1] == ' ')
    decreases |s|
  {
    if s != [] {
      var tail := if IsSpace(s[0]) then TrimStart(s) else s[1..];
      var head := if IsSpace(s[0]) then ' ' else s[0];
      TrimStartSpec(s);
      CollapseSpacesSingle(tail);
      CollapseSpacesStart(tail);
      var rest := CollapseSpaces(tail);
      var r := [head] + rest;
      assert r == CollapseSpaces(s);
      forall i | 0 <= i < |r| - 1 ensures !(r[i] == ' ' && r[i + 1] == ' ') {
        assert r[i + 1] == rest[i];
        if i > 0 {
          assert r[i] == rest[i - 1];
        }
      }
    }
  }

  /** The input with a non-empty run of white space between words that
      have none: the text before the run stays, the run becomes exactly
      one ordinary space, and the collapse goes on after it. A run is
      never dropped, so "a  b" collapses to "a b". */
  lemma {:induction false} CollapseSpacesRun(a: string, w: string, b: string)
    requires forall i :: 0 <= i < |a| ==> !IsSpace(a[i])
    requires w != [] && forall i :: 0 <= i < |w| ==> IsSpace(w[i])
    requires b == [] || !IsSpace(b[0])
    ensures CollapseSpaces(a + w + b) == a + [' '] + CollapseSpaces(b)
    decreases |a|
  {
    var s := a + w + b;
    if a == [] {
      assert s == w + b;
      TrimStartOfRun(w, b);
    } else {
      assert s[0] == a[0] && !IsSpace(s[0]);
      assert s[1..] == a[1..] + w + b;
      CollapseSpacesRun(a[1..], w, b);
      assert a == [a[0]] + a[1..];
    }
  }

  /** `trim`'s first half removes exactly a leading white-space run. */
  lemma {:induction false} TrimStartOfRun(w: string, b: string)
    requires forall i :: 0 <= i < |w| ==> IsSpace(w[i])
    requires b == [] || !IsSpace(b[0])
    ensures TrimStart(w + b) == b
  {
    if w == [] {
      assert w + b == b;
    } else {
      assert (w + b)[0] == w[0];
      assert (w + b)[1..] == w[1..] + b;
      TrimStartOfRun(w[1..], b);
    }
  }

  predicate NonSpace(c: char) {
    !IsSpace(c)
  }

  /** The collapse keeps every character that is not white space, in its
      order: only white space is replaced. */
  lemma {:induction false} CollapseSpacesKeepsWords(s: string)
    ensures Filter(CollapseSpaces(s), NonSpace) == Filter(s, NonSpace)
    decreases |s|
  {
    if s != [] {
      var out := CollapseSpaces(s);
      if IsSpace(s[0]) {
        var rest := TrimStart(s);
        TrimStartSpec(s);
        assert |rest| < |s|;
        CollapseSpacesKeepsWords(rest);
        var k := |s| - |rest|;
        assert s == s[..k] + rest;
        FilterAppend(s[..k], rest, NonSpace);
        FilterNone(s[..k], NonSpace);
        assert out[1..] == CollapseSpaces(rest);
      } else {
        CollapseSpacesKeepsWords(s[1..]);
        assert out[1..] == CollapseSpaces(s[1..]);
      }
    }
  }

  /** `normalizeText`. */
  function NormalizeText(text: string): string {
    ToLower(Trim(CollapseSpaces(KeepWordChars(StripTags(text)))))
  }

  /** The characters a normalised string may hold besides the space. */
  predicate IsNormalChar(c: char) {
    || 'a' <= c <= 'z' || '0' <= c <= '9' || c == '_'
    || '\U{0430}' <= c <= '\U{044F}'  // а..я
    || c == '\U{0451}'  // ё
  }

  /** Lower-case word characters separated by single spaces, with no space
      at either end. */
  predicate IsNormalized(s: string) {
    && (forall i :: 0 <= i < |s| ==> IsNormalChar(s[i]) || s[i] == ' ')
    && (s != [] ==> s[0] != ' ' && s[|s| - 1] != ' ')
    && (forall i :: 0 <= i < |s| - 1 ==> !(s[i] == ' ' && s[i + 1] == ' '))
  }

  /** Kept characters whose only white space is single ordinary spaces:
      what the collapse leaves. */
  predicate SingleSpaced(s: string) {
    && (forall i :: 0 <= i < |s| ==> s[i] == ' ' || (!IsSpace(s[i]) && IsKept(s[i])))
    && (forall i :: 0 <= i < |s| - 1 ==> !(s[i] == ' ' && s[i + 1] == ' '))
  }

  lemma CollapseOfKept(k: string)
    requires forall i :: 0 <= i < |k| ==> IsKept(k[i])
    ensures SingleSpaced(CollapseSpaces(k))
  {
    var c := CollapseSpaces(k);
    CollapseSpacesChars(k);
    CollapseSpacesSingle(k);
    forall i | 0 <= i < |c| ensures c[i] == ' ' || (!IsSpace(c[i]) && IsKept(c[i])) {
      assert c[i] in c;
    }
  }

  lemma SliceSingleSpaced(c: string, a: int, b: int)
    requires 0 <= a <= b <= |c| && SingleSpaced(c)
    ensures SingleSpaced(c[a..b])
  {
    var t := c[a..b];
    assert forall i :: 0 <= i < |t| ==> t[i] == c[a + i];
  }

  lemma TrimSingleSpaced(c: string)
    requires SingleSpaced(c)
    ensures SingleSpaced(Trim(c))
    ensures Trim(c) != [] ==> !IsSpace(Trim(c)[0]) && !IsSpace(Trim(c)[|Trim(c)| - 1])
  {
    TrimIsInnerSlice(c);
    var a, b :| 0 <= a <= b <= |c| && Trim(c) == c[a..b];
    SliceSingleSpaced(c, a, b);
    TrimStartSpec(c);
    TrimEndSpec(TrimStart(c));
  }

  lemma LowerOfSingleSpaced(t: string)
    requires SingleSpaced(t)
    requires t != [] ==> !IsSpace(t[0]) && !IsSpace(t[|t| - 1])
    ensures IsNormalized(ToLower(t))
  {
    var l := ToLower(t);
    forall i | 0 <= i < |l| ensures IsNormalChar(l[i]) || l[i] == ' ' {
      if t[i] != ' ' {
        KeptLowersToNormal(t[i]);
      }
    }
    forall i | 0 <= i < |l| - 1 ensures !(l[i] == ' ' && l[i + 1] == ' ') {
      if t[i] != ' ' {
        KeptLowersToNormal(t[i]);
      }
      if t[i + 1] != ' ' {
        KeptLowersToNormal(t[i + 1]);
      }
    }
    if l != [] {
      KeptLowersToNormal(t[0]);
      KeptLowersToNormal(t[|t| - 1]);
    }
  }

  /** Only lower-cased kept characters and single inner spaces survive
      normalisation. */
  lemma NormalizeTextIsNormalized(text: string)
    ensures IsNormalized(NormalizeText(text))
  {
    var k := KeepWordChars(StripTags(text));
    KeepWordCharsSpec(StripTags(text));
    assert forall i :: 0 <= i < |k| ==> k[i] in k;
    CollapseOfKept(k);
    TrimSingleSpaced(CollapseSpaces(k));
    LowerOfSingleSpaced(Trim(CollapseSpaces(k)));
  }

  lemma KeptLowersToNormal(c: char)
    requires IsKept(c) && !IsSpace(c)
    ensures IsNormalChar(ToLowerChar(c))
  {
  }

  /** On a string of kept characters whose only white space is single
      inner spaces, normalising is only lower-casing. */
  lemma NormalizeOfSingleSpaced(s: string)
    requires SingleSpaced(s)
    requires s != [] ==> !IsSpace(s[0]) && !IsSpace(s[|s| - 1])
    ensures NormalizeText(s) == ToLower(s)
  {
    assert '<' !in s;
    StripTagsNoTagFixed(s);
    assert forall i :: 0 <= i < |s| ==> IsKept(s[i]);
    FilterAll(s, IsKept);
    CollapseFixed(s);
    assert TrimStart(s) == s;
    assert TrimEnd(s) == s;
  }

  lemma NormalCharIsFixed(c: char)
    requires IsNormalChar(c)
    ensures IsKept(c) && !IsSpace(c) && ToLowerChar(c) == c
  {
  }

  lemma NormalizedIsSingleSpaced(s: string)
    requires IsNormalized(s)
    ensures SingleSpaced(s) && ToLower(s) == s
    ensures s != [] ==> !IsSpace(s[0]) && !IsSpace(s[|s| - 1])
  {
    forall i | 0 <= i < |s| && s[i] != ' '
      ensures IsKept(s[i]) && !IsSpace(s[i]) && ToLowerChar(s[i]) == s[i]
    {
      NormalCharIsFixed(s[i]);
    }
  }

  /** A normalised string is a fixed point of every step. */
  lemma NormalizedIsFixed(s: string)
    requires IsNormalized(s)
    ensures NormalizeText(s) == s
  {
    NormalizedIsSingleSpaced(s);
    NormalizeOfSingleSpaced(s);
  }

  /** A string whose only white space is single ordinary spaces is left
      alone by the collapse. */
  lemma {:induction false} CollapseFixed(s: string)
    requires forall i :: 0 <= i < |s| ==> IsSpace(s[i]) ==> s[i] == ' '
    requires forall i :: 0 <= i < |s| - 1 ==> !(s[i] == ' ' && s[i + 1] == ' ')
    ensures CollapseSpaces(s) == s
    decreases |s|
  {
    if s != [] {
      var t := s[1..];
      assert forall i :: 0 <= i < |t| ==> t[i] == s[i + 1];
      CollapseFixed(t);
      if IsSpace(s[0]) {
        assert t == [] || !IsSpace(t[0]);
        assert TrimStart(t) == t;
        assert TrimStart(s) == t;
      }
      assert s == [s[0]] + t;
    }
  }

  /** Normalising twice is normalising once. */
  lemma NormalizeIdempotent(text: string)
    ensures NormalizeText(NormalizeText(text)) == NormalizeText(text)
  {
    NormalizeTextIsNormalized(text);
    NormalizedIsFixed(NormalizeText(text));
  }

  /** `arr.join(' ')`. */
  function JoinWithSpaces(xs: seq<string>): string {
    if xs == [] then ""
    else if |xs| == 1 then xs[0]
    else xs[0] + " " + JoinWithSpaces(xs[1..])
  }

  /** Joining one more element adds a space and that element at the end,
      while no elements join to "" and one element joins to itself: the
      elements appear in order, one space between neighbours. */
  lemma {:induction false} JoinAppend(xs: seq<string>, y: string)
    requires xs != []
    ensures JoinWithSpaces(xs + [y]) == JoinWithSpaces(xs) + " " + y
    ensures JoinWithSpaces([]) == "" && JoinWithSpaces([y]) == y
  {
    if |xs| == 1 {
      assert (xs + [y])[1..] == [y];
      assert JoinWithSpaces([y]) == y;
    } else {
      JoinAppend(xs[1..], y);
      assert (xs + [y])[1..] == xs[1..] + [y];
    }
  }

  /** The reference answer of a card: an array is flattened by joining its
      elements' `translation` fields with spaces; a string is used as is. */
  function CorrectAnswer(t: SavedTranslation): string {
    match t
    case Plain(s) => s
    case Listed(xs) => JoinWithSpaces(xs)
  }

  /** `checkAnswer`'s verdict on the user's input. */
  predicate Grade(userInput: string, reference: SavedTranslation) {
    var expected := NormalizeText(CorrectAnswer(reference));
    var given := NormalizeText(userInput);
    Includes(expected, given) || given == expected
  }

  /** The equality test adds nothing: an answer is correct exactly when its
      normalised form occurs in the normalised reference. */
  lemma GradeIsContainment(userInput: string, reference: SavedTranslation)
    ensures Grade(userInput, reference) <==>
      exists i :: OccursAt(NormalizeText(CorrectAnswer(reference)), NormalizeText(userInput), i)
  {
    var expected := NormalizeText(CorrectAnswer(reference));
    IncludesTrivial(expected);
    IncludesIff(expected, NormalizeText(userInput));
  }

  /** An answer with nothing left after normalisation (empty, blank or all
      punctuation) is always graded correct. */
  lemma EmptyAnswerIsCorrect(userInput: string, reference: SavedTranslation)
    requires NormalizeText(userInput) == ""
    ensures Grade(userInput, reference)
  {
    IncludesTrivial(NormalizeText(CorrectAnswer(reference)));
  }

  /** Grading looks only at the normalised answer, so typing the answer in
      its normalised form changes nothing. */
  lemma GradeOfNormalizedInput(userInput: string, reference: SavedTranslation)
    ensures Grade(NormalizeText(userInput), reference) == Grade(userInput, reference)
  {
    NormalizeIdempotent(userInput);
  }

  /** Any answer with the same normal form as the reference is correct,
      whatever its case, punctuation, markup or spacing. */
  lemma SameNormalFormIsCorrect(userInput: string, reference: SavedTranslation)
    requires NormalizeText(userInput) == NormalizeText(CorrectAnswer(reference))
    ensures Grade(userInput, reference)
  {
    IncludesTrivial(NormalizeText(userInput));
  }

  lemma NormalizeUpperDag(s: string)
    requires s == "ДАГ"
    ensures NormalizeText(s) == "даг"
  {
    assert SingleSpaced(s);
    NormalizeOfSingleSpaced(s);
    var l := ToLower(s);
    assert l[0] == 'д' && l[1] == 'а' && l[2] == 'г';
    assert l == "даг";
  }

  /** The two removals are done once and for all: normalising what they
      leave gives the same result. */
  lemma NormalizeAfterRemovals(s: string)
    ensures NormalizeText(s) == NormalizeText(KeepWordChars(StripTags(s)))
  {
    var k := KeepWordChars(StripTags(s));
    KeepWordCharsSpec(StripTags(s));
    assert forall i :: 0 <= i < |k| ==> k[i] in k;
    assert '<' !in k;
    StripTagsNoTagFixed(k);
    FilterAll(k, IsKept);
  }

  /** The character filter drops the final "!" of "даг!". */
  lemma KeepWordCharsDropsMark(word: string, mark: string)
    requires word == "даг" && mark == "!"
    ensures KeepWordChars(word + mark) == word
  {
    assert forall i :: 0 <= i < |word| ==> IsKept(word[i]);
    FilterAll(word, IsKept);
    assert !IsKept(mark[0]);
    FilterNone(mark, IsKept);
    FilterAppend(word, mark, IsKept);
  }

  lemma KeepWordCharsDagBang(s: string)
    requires s == "даг!"
    ensures KeepWordChars(StripTags(s)) == "даг"
  {
    assert '<' !in s;
    StripTagsNoTagFixed(s);
    KeepWordCharsDropsMark("даг", "!");
    assert s == "даг" + "!";
  }

  lemma NormalizeDagBang(s: string)
    requires s == "даг!"
    ensures NormalizeText(s) == "даг"
  {
    KeepWordCharsDagBang(s);
    NormalizeAfterRemovals(s);
    var d := KeepWordChars(StripTags(s));
    assert d == "даг";
    assert IsNormalized(d);
    NormalizedIsFixed(d);
  }

  /** Case and punctuation do not matter: "ДАГ" is accepted for "даг!". */
  lemma CaseAndPunctuationVariant(userInput: string, reference: string)
    requires userInput == "ДАГ" && reference == "даг!"
    ensures Grade(userInput, Plain(reference))
  {
    NormalizeUpperDag(userInput);
    NormalizeDagBang(reference);
    SameNormalFormIsCorrect(userInput, Plain(reference));
  }
}
