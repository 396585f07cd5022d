/**
 The string operations the inventory search uses: `String.prototype.toLowerCase`
 (and, to state case-insensitivity, `toUpperCase`) restricted to ASCII letters,
 and `String.prototype.includes`.
 */
module AsciiText {

  predicate IsUpper(c: char) { 'A' <= c <= 'Z' }
  predicate IsLower(c: char) { 'a' <= c <= 'z' }

  function Lower(c: char): (d: char)
    ensures IsUpper(c) ==> IsLower(d) && d as int == c as int + 32
    ensures !IsUpper(c) ==> d == c
  {
    if IsUpper(c) then (c as int + 32) as char else c
  }

  function Upper(c: char): (d: char)
    ensures IsLower(c) ==> IsUpper(d) && d as int == c as int - 32
    ensures !IsLower(c) ==> d == c
  {
    if IsLower(c) then (c as int - 32) as char else c
  }

  /** `s.toLowerCase()` on ASCII: each letter lowered, everything else kept. */
  function LowerStr(s: string): (r: string)
    ensures |r| == |s|
    ensures forall i :: 0 <= i < |s| ==> r[i] == Lower(s[i])
  {
    if s == [] then [] else [Lower(s[0])] + LowerStr(s[1..])
  }

  /** `s.toUpperCase()` on ASCII. */
  function UpperStr(s: string): (r: string)
    ensures |r| == |s|
    ensures forall i :: 0 <= i < |s| ==> r[i] == Upper(s[i])
  {
    if s == [] then [] else [Upper(s[0])] + UpperStr(s[1..])
  }

  /** Lowering a lowered string changes nothing. */
  lemma LowerStrIdempotent(s: string)
    ensures LowerStr(LowerStr(s)) == LowerStr(s)
  {
  }

  /** Upper-casing first does not change what lowering gives. */
  lemma LowerOfUpperStr(s: string)
    ensures LowerStr(UpperStr(s)) == LowerStr(s)
  {
  }

  predicate StartsWith(s: string, prefix: string)
  {
    |prefix| <= |s| && s[..|prefix|] == prefix
  }

  /** `needle` occurs in `s` starting at index `i`. */
  predicate OccursAt(s: string, needle: string, i: int)
  {
    0 <= i && i + |needle| <= |s| && s[i..i + |needle|] == needle
  }

  /** `s.includes(needle)`: `needle` occurs in `s` at some position; the empty
      needle occurs in every string. */
  function Includes(s: string, needle: string): (r: bool)
    ensures r <==> exists i :: OccursAt(s, needle, i)
  {
    if StartsWith(s, needle) then
      assert OccursAt(s, needle, 0);
      true
    else if s == [] then false
    else
      var rest := Includes(s[1..], needle);
      assert forall i :: OccursAt(s, needle, i) ==> i > 0 && OccursAt(s[1..], needle, i - 1);
      assert forall i :: OccursAt(s[1..], needle, i) ==> OccursAt(s, needle, i + 1);
      rest
  }

  /** The case-insensitive substring test of the search boxes:
      `text.toLowerCase().includes(query.toLowerCase())`. */
  function MatchesIgnoringCase(text: string, query: string): bool
  {
    Includes(LowerStr(text), LowerStr(query))
  }

  /** An empty query matches every text. */
  lemma EmptyQueryMatches(text: string)
    ensures MatchesIgnoringCase(text, "")
  {
  }

  /** The match sees text and query only through their lower-case forms, so any
      change of case in either ("Shirt" to "sHIRT", say) leaves it as it was. */
  lemma MatchDependsOnLoweredForms(text1: string, text2: string, query1: string, query2: string)
    requires LowerStr(text1) == LowerStr(text2) && LowerStr(query1) == LowerStr(query2)
    ensures MatchesIgnoringCase(text1, query1) == MatchesIgnoringCase(text2, query2)
  {
  }

  /** Upper-casing or lower-casing the whole query or text are such changes of case. */
  lemma MatchIgnoresCase(text: string, query: string)
    ensures MatchesIgnoringCase(text, UpperStr(query)) == MatchesIgnoringCase(text, query)
    ensures MatchesIgnoringCase(text, LowerStr(query)) == MatchesIgnoringCase(text, query)
    ensures MatchesIgnoringCase(UpperStr(text), query) == MatchesIgnoringCase(text, query)
    ensures MatchesIgnoringCase(LowerStr(text), query) == MatchesIgnoringCase(text, query)
  {
    LowerOfUpperStr(query);
    LowerStrIdempotent(query);
    LowerOfUpperStr(text);
    LowerStrIdempotent(text);
    MatchDependsOnLoweredForms(text, text, UpperStr(query), query);
    MatchDependsOnLoweredForms(text, text, LowerStr(query), query);
    MatchDependsOnLoweredForms(UpperStr(text), text, query, query);
    MatchDependsOnLoweredForms(LowerStr(text), text, query, query);
  }
}
