/** Upper-casing of text, as the status-reply matching of the light control
    screen uses it (Kotlin's String.uppercase()).

    Kotlin's uppercase() is Unicode-aware: it applies the full Unicode case
    tables, independent of the locale.  This model maps the ASCII letters
    'a'..'z', and the two non-ASCII letters whose upper-case form is a single
    ASCII letter: U+017F LATIN SMALL LETTER LONG S ('ſ', upper-cased to 'S')
    and U+0131 LATIN SMALL LETTER DOTLESS I ('ı', upper-cased to 'I').  Every
    other character is left as it is.  For the question that matters here
    (does the upper-cased payload equal a given all-ASCII word?) other
    single-character mappings make no difference, because they never produce
    an ASCII character; the expansions that turn one character into several
    (the ligature 'ﬀ' becomes "FF", 'ﬆ' becomes "ST") are not modelled. */
module CaseMapping {

  const LongS: char := '\U{17F}'
  const DotlessI: char := '\U{131}'

  /** The upper-case form of one character. */
  function UpperChar(c: char): char {
    if 'a' <= c <= 'z' then (c as int - 32) as char
    else if c == LongS then 'S'
    else if c == DotlessI then 'I'
    else c
  }

  /** The upper-case form of a string, character by character. */
  function Upper(s: string): (r: string)
    ensures |r| == |s|
    ensures forall i :: 0 <= i < |s| ==> r[i] == UpperChar(s[i])
  {
    if s == [] then [] else [UpperChar(s[0])] + Upper(s[1..])
  }

  /** u is already in upper case. */
  predicate IsUpper(u: char) {
    UpperChar(u) == u
  }

  /** Every character of t is already in upper case. */
  predicate IsUpperText(t: string) {
    forall i :: 0 <= i < |t| ==> IsUpper(t[i])
  }

  /** Reference definition, written independently of UpperChar: the
      characters that are spellings of the upper-case character u. */
  predicate Spells(c: char, u: char) {
    c == u
    || ('A' <= u <= 'Z' && c as int == u as int + 32)
    || (u == 'S' && c == LongS)
    || (u == 'I' && c == DotlessI)
  }

  /** s equals t when case is ignored. */
  predicate CaseVariant(s: string, t: string) {
    |s| == |t| && forall i :: 0 <= i < |s| ==> Spells(s[i], t[i])
  }

  /** Upper-casing a character gives u exactly when the character spells u. */
  lemma UpperCharSpells(c: char, u: char)
    requires IsUpper(u)
    ensures UpperChar(c) == u <==> Spells(c, u)
  {
  }

  /** The upper-case form of s is t exactly when s is a case variant of t. */
  lemma UpperEqualsIff(s: string, t: string)
    requires IsUpperText(t)
    ensures Upper(s) == t <==> CaseVariant(s, t)
  {
    forall i | 0 <= i < |s| && i < |t|
      ensures UpperChar(s[i]) == t[i] <==> Spells(s[i], t[i])
    {
      UpperCharSpells(s[i], t[i]);
    }
    if CaseVariant(s, t) {
      assert forall i :: 0 <= i < |s| ==> Upper(s)[i] == t[i];
    }
  }

  /** Upper-casing twice is upper-casing once. */
  lemma UpperIdempotent(s: string)
    ensures Upper(Upper(s)) == Upper(s)
  {
    assert forall i :: 0 <= i < |s| ==> Upper(Upper(s))[i] == Upper(s)[i];
  }

  /** The upper-case form of any string is upper-case text. */
  lemma UpperIsUpperText(s: string)
    ensures IsUpperText(Upper(s))
  {
  }
}
