/**
 * `normalize_text` (scripts/parse_spotify_data.py): canonicalises the curly
 * single and double quotation marks of a free-text field to ASCII `'` and `"`.
 */
module TextNormalizer {
  import opened Wrappers

  /** The six (look-alike, replacement) pairs, in the order the source applies them. */
  const Replacements: seq<(char, char)> := [
    ('\U{2019}', '\''),  // right single quotation mark
    ('\U{2018}', '\''),  // left single quotation mark
    ('\U{201C}', '"'),   // left double quotation mark
    ('\U{201D}', '"'),   // right double quotation mark
    ('\U{201E}', '"'),   // double low-9 quotation mark
    ('\U{201F}', '"')    // double high-reversed-9 quotation mark
  ]

  /** The characters normalisation removes. */
  const CurlyQuotes: set<char> := {'\U{2018}', '\U{2019}', '\U{201C}', '\U{201D}', '\U{201E}', '\U{201F}'}

  /** What normalisation does to one character. */
  function NormalizeChar(c: char): (r: char)
    ensures r !in CurlyQuotes
    ensures c !in CurlyQuotes ==> r == c
    ensures c == '\U{2018}' || c == '\U{2019}' ==> r == '\''
    ensures c in CurlyQuotes && c != '\U{2018}' && c != '\U{2019}' ==> r == '"'
  {
    if c == '\U{2018}' || c == '\U{2019}' then '\''
    else if c in CurlyQuotes then '"'
    else c
  }

  /** The normal form of a string: every character normalised in place. */
  function Normalized(s: string): (r: string)
    ensures |r| == |s|
    ensures forall i :: 0 <= i < |s| ==> r[i] == NormalizeChar(s[i])
  {
    seq(|s|, i requires 0 <= i < |s| => NormalizeChar(s[i]))
  }

  /** The normal form of an optional field: `None` stays `None`. */
  function NormalizedOpt(text: Option<string>): Option<string> {
    match text
    case None => None
    case Some(s) => Some(Normalized(s))
  }

  /** `str.replace(old, new)` with single-character arguments. */
  function Replace(s: string, from: char, to: char): (r: string)
    ensures |r| == |s|
    ensures forall i :: 0 <= i < |s| ==> r[i] == (if s[i] == from then to else s[i])
  {
    seq(|s|, i requires 0 <= i < |s| => if s[i] == from then to else s[i])
  }

  /** One character after the first `n` replacements of the table. */
  function ReplacedUpTo(c: char, n: nat): char
    requires n <= |Replacements|
  {
    if n == 0 then c
    else
      var d := ReplacedUpTo(c, n - 1);
      if d == Replacements[n - 1].0 then Replacements[n - 1].1 else d
  }

  /** After the whole table, a character is in its normal form. */
  lemma ReplacedAll(c: char)
    ensures ReplacedUpTo(c, |Replacements|) == NormalizeChar(c)
  {
    var d0 := ReplacedUpTo(c, 0);
    var d1 := ReplacedUpTo(c, 1);
    var d2 := ReplacedUpTo(c, 2);
    var d3 := ReplacedUpTo(c, 3);
    var d4 := ReplacedUpTo(c, 4);
    var d5 := ReplacedUpTo(c, 5);
    assert d1 == if d0 == '\U{2019}' then '\'' else d0;
    assert d2 == if d1 == '\U{2018}' then '\'' else d1;
    assert d3 == if d2 == '\U{201C}' then '"' else d2;
    assert d4 == if d3 == '\U{201D}' then '"' else d3;
    assert d5 == if d4 == '\U{201E}' then '"' else d4;
  }

  /**
   * `normalize_text`: `None` is returned as it is; otherwise the six replacements
   * are applied one after another, each rewriting the whole string.
   */
  method NormalizeText(text: Option<string>) returns (r: Option<string>)
    ensures r == NormalizedOpt(text)
  {
    if text.None? {
      return None;
    }
    var s := text.value;
    var t := s;
    for n := 0 to |Replacements|
      invariant |t| == |s|
      invariant forall i :: 0 <= i < |s| ==> t[i] == ReplacedUpTo(s[i], n)
    {
      t := Replace(t, Replacements[n].0, Replacements[n].1);
    }
    forall i | 0 <= i < |s|
      ensures t[i] == NormalizeChar(s[i])
    {
      ReplacedAll(s[i]);
    }
    assert t == Normalized(s);
    r := Some(t);
  }

  /** Normalising changes no length and leaves no curly quotation mark behind. */
  lemma NormalizedHasNoCurlyQuotes(s: string)
    ensures |Normalized(s)| == |s|
    ensures forall i :: 0 <= i < |s| ==> Normalized(s)[i] !in CurlyQuotes
  {
  }

  /** Normalising already-normalised text returns it unchanged. */
  lemma NormalizeIdempotent(text: Option<string>)
    ensures NormalizedOpt(NormalizedOpt(text)) == NormalizedOpt(text)
  {
    if text.Some? {
      var n := Normalized(text.value);
      assert Normalized(n) == n;
    }
  }

  /** Text without curly quotation marks is already in normal form. */
  lemma NormalizedFixesPlainText(s: string)
    requires forall i :: 0 <= i < |s| ==> s[i] !in CurlyQuotes
    ensures Normalized(s) == s
  {
  }

  /** Example: a right single quotation mark becomes an apostrophe. */
  lemma NormalizeExample()
    ensures Normalized("caf\U{2019}e") == "caf'e"
  {
  }
}
