/** Searches over the real catalog, with case folding instantiated for the
    letters the catalog uses: Basic Latin and Russian Cyrillic capitals map to
    their small letters and every other character is kept. This agrees with
    `String.prototype.toLowerCase` on those letters; the search properties of
    the Gallery module hold for any case folding. */
module Scenarios {
  import opened Text
  import opened Sequences
  import opened Gallery

  /** A Basic Latin or Russian Cyrillic capital letter. */
  predicate IsCapital(c: char) {
    ('A' <= c <= 'Z') || ('А' <= c <= 'Я') || c == 'Ё'
  }

  /** The small letter of a Latin or Russian capital, else the character. */
  function LowerChar(c: char): char {
    if 'A' <= c <= 'Z' then (c as int + 32) as char
    else if 'А' <= c <= 'Я' then (c as int + 32) as char
    else if c == 'Ё' then 'ё'
    else c
  }

  /** Character-wise lower-casing: no capital survives, every other
      character is kept, and the length does not change. */
  function LowerRu(s: string): (r: string)
    ensures |r| == |s|
    ensures forall i :: 0 <= i < |r| ==> !IsCapital(r[i])
    ensures forall i :: 0 <= i < |s| && !IsCapital(s[i]) ==> r[i] == s[i]
  {
    seq(|s|, i requires 0 <= i < |s| => LowerChar(s[i]))
  }

  /** Lower-casing twice is lower-casing once, as with `toLowerCase`. */
  lemma LowerRuIdempotent(s: string)
    ensures LowerRu(LowerRu(s)) == LowerRu(s)
  {
  }

  /** Searching "ласков" finds Барсик (id 3) and Персик (id 7) through
      their tag "ласковый". */
  lemma AffectionateSearch(s: State)
    ensures var r := CompleteSearch(s, Pending("ласков"), LowerRu);
      Catalog[2] in r.images && Catalog[6] in r.images && r.errorMessage == ""
  {
    var t := LowerRu("ласков");
    assert t == "ласков";
    assert LowerRu(Catalog[2].tags[1]) == "ласковый";
    assert StartsWith("ласковый", t);
    assert Matches(Catalog[2], "ласков", LowerRu);
    assert LowerRu(Catalog[6].tags[1]) == "ласковый";
    assert Matches(Catalog[6], "ласков", LowerRu);
  }
}
