/**
 The node-id sanitiser: pose names become graph identifiers by replacing
 hyphens, spaces, slashes and apostrophes with underscores.
 */
module Sanitize {

  /** The characters a graph identifier may not contain. */
  predicate IsSeparator(c: char)
  {
    c == '-' || c == ' ' || c == '/' || c == '\''
  }

  /** Every occurrence of `target` replaced by `replacement`. */
  function Replace(text: string, target: char, replacement: char): (r: string)
    ensures |r| == |text|
    ensures forall i | 0 <= i < |text| :: r[i] == (if text[i] == target then replacement else text[i])
  {
    if text == [] then []
    else [if text[0] == target then replacement else text[0]] + Replace(text[1..], target, replacement)
  }

  /** `clean`: four replacements in a row. */
  function Clean(text: string): (r: string)
    ensures |r| == |text|
    ensures forall i | 0 <= i < |text| :: r[i] == (if IsSeparator(text[i]) then '_' else text[i])
    ensures forall i | 0 <= i < |r| :: !IsSeparator(r[i])
  {
    Replace(Replace(Replace(Replace(text, '-', '_'), ' ', '_'), '/', '_'), '\'', '_')
  }

  /** A sanitised identifier is left as it is. */
  lemma CleanIdempotent(text: string)
    ensures Clean(Clean(text)) == Clean(text)
  {
  }
}
