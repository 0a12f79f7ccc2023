/** The few JavaScript string primitives the pages rely on: the `\s` class
    (which is also the set `String.prototype.trim` strips), `trim`,
    `toLowerCase` and `includes`. Strings are sequences of code points,
    where JavaScript works on UTF-16 code units. */
module JsText {

  /** JavaScript's WhiteSpace and LineTerminator characters: what `\s`
      matches and what `trim` removes. */
  predicate IsSpace(c: char) {
    || c == '\t' || c == '\n' || c == '\U{000B}' || c == '\U{000C}' || c == '\r'
    || c == ' ' || c == '\U{00A0}' || c == '\U{1680}'
    || ('\U{2000}' <= c <= '\U{200A}')
    || c == '\U{2028}' || c == '\U{2029}' || c == '\U{202F}' || c == '\U{205F}'
    || c == '\U{3000}' || c == '\U{FEFF}'
  }

  predicate IsAsciiUpper(c: char) { 'A' <= c <= 'Z' }

  /** Latin-1 capitals U+00C0..U+00DE (À..Þ), the multiplication sign
      U+00D7 excepted. */
  predicate IsLatin1Upper(c: char) { '\U{00C0}' <= c <= '\U{00DE}' && c != '\U{00D7}' }

  /** Cyrillic capitals U+0400..U+042F (Ѐ..Џ and А..Я). */
  predicate IsCyrillicUpper(c: char) { '\U{0400}' <= c <= '\U{042F}' }

  /** The palochka Ӏ (U+04C0), a letter of Chechen spelling. */
  const Palochka: char := '\U{04C0}'

  /** The capitals whose lower-case form this model knows. */
  predicate IsUpper(c: char) {
    IsAsciiUpper(c) || IsLatin1Upper(c) || IsCyrillicUpper(c) || c == Palochka
  }

  /** `toLowerCase` on one character, for the capitals of `IsUpper`: A..Z,
      À..Þ and А..Я (U+0410..U+042F) move down by 0x20, Ѐ..Џ
      (U+0400..U+040F, Ё among them) by 0x50, and the palochka Ӏ becomes ӏ
      (U+04CF). */
  function ToLowerChar(c: char): (d: char)
    ensures IsAsciiUpper(c) ==> 'a' <= d <= 'z' && d as int == c as int + 32
    ensures IsLatin1Upper(c) ==> d as int == c as int + 32
    ensures '\U{0410}' <= c <= '\U{042F}' ==> '\U{0430}' <= d <= '\U{044F}' && d as int == c as int + 32
    ensures c == '\U{0401}' ==> d == '\U{0451}'
    ensures c == Palochka ==> d == '\U{04CF}'
    ensures !IsUpper(c) ==> d == c
    ensures !IsUpper(d)
  {
    if IsAsciiUpper(c) || IsLatin1Upper(c) then (c as int + 32) as char
    else if '\U{0410}' <= c <= '\U{042F}' then (c as int + 32) as char
    else if IsCyrillicUpper(c) then (c as int + 0x50) as char
    else if c == Palochka then '\U{04CF}'
    else c
  }

  /** `String.prototype.toLowerCase`: no capital is left, every other
      character stays where it was, and a capital is replaced in place by
      its lower-case letter. */
  function ToLower(s: string): (r: string)
    ensures |r| == |s|
    ensures forall i :: 0 <= i < |r| ==> !IsUpper(r[i])
    ensures forall i :: 0 <= i < |s| && !IsUpper(s[i]) ==> r[i] == s[i]
  {
    seq(|s|, i requires 0 <= i < |s| => ToLowerChar(s[i]))
  }

  lemma ToLowerIdempotent(s: string)
    ensures ToLower(ToLower(s)) == ToLower(s)
  {
    var l := ToLower(s);
    assert forall i :: 0 <= i < |l| ==> !IsUpper(l[i]);
  }

  /** Leading white space removed (start of `trim`). */
  function TrimStart(s: string): (r: string)
    ensures |r| <= |s|
  {
    if s == [] || !IsSpace(s[0]) then s else TrimStart(s[1..])
  }

  /** What is left is a suffix that starts with something other than
      white space, and only white space was removed. */
  lemma {:induction false} TrimStartSpec(s: string)
    ensures TrimStart(s) == s[|s| - |TrimStart(s)|..]
    ensures TrimStart(s) == [] || !IsSpace(TrimStart(s)[0])
    ensures forall i :: 0 <= i < |s| - |TrimStart(s)| ==> IsSpace(s[i])
  {
    if s != [] && IsSpace(s[0]) {
      TrimStartSpec(s[1..]);
    }
  }

  /** Trailing white space removed (end of `trim`). */
  function TrimEnd(s: string): (r: string)
    ensures |r| <= |s|
  {
    if s == [] || !IsSpace(s[|s| - 1]) then s else TrimEnd(s[..|s| - 1])
  }

  /** What is left is a prefix that ends with something other than white
      space, and only white space was removed. */
  lemma {:induction false} TrimEndSpec(s: string)
    ensures TrimEnd(s) == s[..|TrimEnd(s)|]
    ensures TrimEnd(s) == [] || !IsSpace(TrimEnd(s)[|TrimEnd(s)| - 1])
    ensures forall i :: |TrimEnd(s)| <= i < |s| ==> IsSpace(s[i])
  {
    if s != [] && IsSpace(s[|s| - 1]) {
      TrimEndSpec(s[..|s| - 1]);
    }
  }

  /** `String.prototype.trim`. */
  function Trim(s: string): string {
    TrimEnd(TrimStart(s))
  }

  /** `trim()` leaves something exactly when the string holds a character
      that is not white space. */
  lemma TrimNonEmptyIff(s: string)
    ensures Trim(s) != [] <==> exists i :: 0 <= i < |s| && !IsSpace(s[i])
  {
    var t := TrimStart(s);
    TrimStartSpec(s);
    TrimEndSpec(t);
    if Trim(s) != [] {
      var k := |s| - |t|;
      assert s[k] == t[0] && !IsSpace(s[k]);
    }
  }

  /** `trim()` removes only white space, and only at the two ends. */
  lemma TrimIsInnerSlice(s: string)
    ensures exists a, b :: 0 <= a <= b <= |s| && Trim(s) == s[a..b]
  {
    var t := TrimStart(s);
    TrimStartSpec(s);
    var a := |s| - |t|;
    var r := TrimEnd(t);
    TrimEndSpec(t);
    assert r == t[..|r|] == s[a..a + |r|];
  }

  predicate StartsWith(s: string, prefix: string) {
    |prefix| <= |s| && s[..|prefix|] == prefix
  }

  /** `hay.includes(needle)`: needle occurs at some position of hay. */
  predicate Includes(hay: string, needle: string)
    decreases |hay|
  {
    StartsWith(hay, needle) || (hay != [] && Includes(hay[1..], needle))
  }

  predicate OccursAt(hay: string, needle: string, i: int) {
    0 <= i && i + |needle| <= |hay| && hay[i..i + |needle|] == needle
  }

  /** `includes` agrees with the positional definition of a substring. */
  lemma {:induction false} IncludesIff(hay: string, needle: string)
    ensures Includes(hay, needle) <==> exists i :: OccursAt(hay, needle, i)
  {
    if StartsWith(hay, needle) {
      assert OccursAt(hay, needle, 0);
    } else if hay == [] {
    } else {
      IncludesIff(hay[1..], needle);
      if Includes(hay[1..], needle) {
        var i :| OccursAt(hay[1..], needle, i);
        assert hay[1..][i..i + |needle|] == hay[i + 1..i + 1 + |needle|];
        assert OccursAt(hay, needle, i + 1);
      }
      if exists i :: OccursAt(hay, needle, i) {
        var i :| OccursAt(hay, needle, i);
        assert hay[1..][i - 1..i - 1 + |needle|] == hay[i..i + |needle|];
        assert OccursAt(hay[1..], needle, i - 1);
      }
    }
  }

  /** Every string includes the empty string and itself. */
  lemma IncludesTrivial(s: string)
    ensures Includes(s, "") && Includes(s, s)
  {
    assert StartsWith(s, "");
    assert s[..|s|] == s;
  }
}
