/** A value that may be missing: a NULL pointer, a failed search. */
module Wrappers {

  datatype Option<T> = None | Some(value: T)
}

/** C strings: case folding and concatenation. */
module CStrings {

  /** tolower in the "C" locale. */
  function ToLower(c: char): char {
    if 'A' <= c <= 'Z' then (c as int + 32) as char else c
  }

  function Lower(s: string): (r: string)
    ensures |r| == |s|
    ensures forall i :: 0 <= i < |s| ==> r[i] == ToLower(s[i])
  {
    seq(|s|, i requires 0 <= i < |s| => ToLower(s[i]))
  }

  /** strncasecmp(s, p, |p|) == 0 for a pattern p without NUL. */
  predicate HasPrefixNoCase(s: string, p: string) {
    |p| <= |s| && Lower(s[..|p|]) == Lower(p)
  }

  /** strcasecmp(s, p) == 0. */
  predicate EqualNoCase(s: string, p: string) {
    Lower(s) == Lower(p)
  }

  /** The concatenation of all strings of a sequence. */
  function Join(ws: seq<string>): string {
    if ws == [] then "" else ws[0] + Join(ws[1..])
  }

  /** What comes before a character; with NUL, the C string in a buffer. */
  function Until(s: string, c: char): (u: string)
    ensures u <= s
  {
    if s == "" || s[0] == c then "" else [s[0]] + Until(s[1..], c)
  }

  lemma {:induction false} UntilStops(s: string, c: char)
    ensures var u := Until(s, c);
      && u <= s && c !in u && (|u| < |s| ==> s[|u|] == c)
  {
    if s != "" && s[0] != c {
      UntilStops(s[1..], c);
    }
  }
}
