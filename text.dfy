/** Case-insensitive matching as the report scripts and the dashboard search do it. */
module Text {

  /** `str.lower()` on one character, for ASCII letters. */
  function LowerChar(c: char): (r: char)
    ensures !('A' <= r <= 'Z')
    ensures r == c || ('A' <= c <= 'Z' && r as int == c as int + 32)
  {
    if 'A' <= c <= 'Z' then (c as int + 32) as char else c
  }

  function Lower(s: string): (r: string)
    ensures |r| == |s|
    ensures forall i :: 0 <= i < |s| ==> r[i] == LowerChar(s[i])
  {
    seq(|s|, i requires 0 <= i < |s| => LowerChar(s[i]))
  }

  lemma LowerIdempotent(s: string)
    ensures Lower(Lower(s)) == Lower(s)
  {
    var l := Lower(s);
    assert forall i :: 0 <= i < |l| ==> LowerChar(l[i]) == l[i];
  }

  /** `needle in hay` / `str.contains(needle, regex=False)`: a literal substring test. */
  predicate Contains(hay: string, needle: string) {
    exists i :: 0 <= i <= |hay| - |needle| && OccursAt(hay, needle, i)
  }

  /** `needle` occurs in `hay` starting at position `i`. */
  predicate OccursAt(hay: string, needle: string, i: int) {
    0 <= i && i + |needle| <= |hay| && hay[i..i + |needle|] == needle
  }

  /** `name.lower() == query.lower()` */
  predicate EqualsIgnoringCase(name: string, query: string) {
    Lower(name) == Lower(query)
  }

  /** `name.lower().contains(query.lower())` */
  predicate ContainsIgnoringCase(name: string, query: string) {
    Contains(Lower(name), Lower(query))
  }

  /** Every exact (case-insensitive) match is also a substring match. */
  lemma ExactMatchIsSubstringMatch(name: string, query: string)
    requires EqualsIgnoringCase(name, query)
    ensures ContainsIgnoringCase(name, query)
  {
    var l := Lower(name);
    assert l[0..|l|] == l;
    assert OccursAt(l, Lower(query), 0);
  }

  /** A substring match is independent of the letter case of either side. */
  lemma ContainsIgnoresCase(name: string, query: string)
    ensures ContainsIgnoringCase(Lower(name), query) == ContainsIgnoringCase(name, query)
    ensures ContainsIgnoringCase(name, Lower(query)) == ContainsIgnoringCase(name, query)
  {
    LowerIdempotent(name);
    LowerIdempotent(query);
  }

  /** A substring match implies the name is at least as long as the query. */
  lemma MatchNoShorterThanQuery(name: string, query: string)
    requires ContainsIgnoringCase(name, query)
    ensures |query| <= |name|
  {
  }

  lemma CaseExample()
    ensures ContainsIgnoringCase("Bohemian Rhapsody", "RHAPS")
    ensures !EqualsIgnoringCase("Bohemian Rhapsody", "rhapsody")
  {
    var l := Lower("Bohemian Rhapsody");
    assert l == "bohemian rhapsody";
    assert Lower("RHAPS") == "rhaps";
    assert l[9..14] == "rhaps";
    assert OccursAt(l, "rhaps", 9);
    assert |l| != |Lower("rhapsody")|;
  }
}
