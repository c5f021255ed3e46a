/**
 The patterns of the access file: what the matcher answers for every string and pattern,
 against what a glob pattern means.
 */
module AccessGlob {

  import opened CStrings

  /** Overrun: the matcher has gone past the end of both strings. */
  datatype Outcome = Match | NoMatch | Overrun

  /** patternMatch on what is left of string and pattern. */
  function Matches(s: string, p: string): Outcome
    decreases |p|, |s|, 0
  {
    if p == "" then
      if s == "" then Match else NoMatch
    else if p[0] == '*' then
      if |p| == 1 then Match else Suffixes(s, p[1..])
    else if p[0] == '?' then
      if s == "" then NoMatch else Matches(s[1..], p[1..])
    else if p[0] == '\\' then
      if |p| == 1 then
        if s == "" then Overrun else NoMatch
      else if s == "" || ToLower(p[1]) != ToLower(s[0]) then NoMatch
      else Matches(s[1..], p[2..])
    else if s == "" || ToLower(p[0]) != ToLower(s[0]) then NoMatch
    else Matches(s[1..], p[1..])
  }

  /** The loop behind a star: the suffixes of s in turn, but never the empty one. */
  function Suffixes(s: string, p: string): Outcome
    decreases |p|, |s|, 1
  {
    if s == "" then NoMatch
    else
      var r := Matches(s, p);
      if r != NoMatch then r else Suffixes(s[1..], p)
  }

  /** What a pattern says, read independently of the matcher. */
  datatype Token = Star | Any | Lit(c: char)

  function Tokens(p: string): seq<Token> {
    if p == "" then []
    else if p[0] == '*' then [Star] + Tokens(p[1..])
    else if p[0] == '?' then [Any] + Tokens(p[1..])
    else if p[0] == '\\' then
      if |p| == 1 then [] else [Lit(p[1])] + Tokens(p[2..])
    else [Lit(p[0])] + Tokens(p[1..])
  }

  /** No backslash at the end without a character to escape. */
  predicate Closed(p: string) {
    if p == "" then true
    else if p[0] == '\\' then |p| > 1 && Closed(p[2..])
    else Closed(p[1..])
  }

  predicate PieceOk(t: Token, piece: string) {
    match t
    case Star => true
    case Any => |piece| == 1
    case Lit(c) => |piece| == 1 && ToLower(piece[0]) == ToLower(c)
  }

  predicate PiecesOk(toks: seq<Token>, pieces: seq<string>) {
    |pieces| == |toks| && forall i :: 0 <= i < |toks| ==> PieceOk(toks[i], pieces[i])
  }

  /** A string is globbed if it is cut into pieces, one for each token. */
  ghost predicate Glob(toks: seq<Token>, s: string) {
    exists pieces :: PiecesOk(toks, pieces) && Join(pieces) == s
  }

  // ---- Globbing token by token ----

  predicate GlobHere(toks: seq<Token>, s: string)
    decreases |toks|, |s|
  {
    if toks == [] then s == ""
    else if toks[0] == Star then GlobHere(toks[1..], s) || (s != "" && GlobHere(toks, s[1..]))
    else s != "" && PieceOk(toks[0], s[..1]) && GlobHere(toks[1..], s[1..])
  }

  lemma {:induction false} PiecesAreGlobbed(toks: seq<Token>, pieces: seq<string>)
    requires PiecesOk(toks, pieces)
    ensures GlobHere(toks, Join(pieces))
    decreases |toks|
  {
    if toks != [] {
      PiecesAreGlobbed(toks[1..], pieces[1..]);
      var rest := Join(pieces[1..]);
      if toks[0] == Star {
        StarTakes(toks, pieces[0], rest);
      } else {
        assert (pieces[0] + rest)[..1] == pieces[0] && (pieces[0] + rest)[1..] == rest;
      }
    }
  }

  lemma {:induction false} StarTakes(toks: seq<Token>, piece: string, rest: string)
    requires toks != [] && toks[0] == Star && GlobHere(toks[1..], rest)
    ensures GlobHere(toks, piece + rest)
    decreases |piece|
  {
    if piece == "" {
      assert piece + rest == rest;
    } else {
      StarTakes(toks, piece[1..], rest);
      assert (piece + rest)[1..] == piece[1..] + rest;
    }
  }

  lemma {:induction false} GlobbedHasPieces(toks: seq<Token>, s: string) returns (pieces: seq<string>)
    requires GlobHere(toks, s)
    ensures PiecesOk(toks, pieces) && Join(pieces) == s
    decreases |toks|, |s|
  {
    if toks == [] {
      pieces := [];
    } else if toks[0] == Star && !GlobHere(toks[1..], s) {
      var more := GlobbedHasPieces(toks, s[1..]);
      pieces := [[s[0]] + more[0]] + more[1..];
      assert pieces[1..] == more[1..];
      assert [s[0]] + s[1..] == s;
      assert [s[0]] + (more[0] + Join(more[1..])) == ([s[0]] + more[0]) + Join(more[1..]);
    } else {
      var n := if toks[0] == Star then 0 else 1;
      var rest := GlobbedHasPieces(toks[1..], s[n..]);
      pieces := [s[..n]] + rest;
      assert pieces[1..] == rest;
      assert s[..n] + s[n..] == s;
    }
  }

  lemma GlobIsGlobHere(toks: seq<Token>, s: string)
    ensures Glob(toks, s) <==> GlobHere(toks, s)
  {
    if Glob(toks, s) {
      var pieces :| PiecesOk(toks, pieces) && Join(pieces) == s;
      PiecesAreGlobbed(toks, pieces);
    }
    if GlobHere(toks, s) {
      var pieces := GlobbedHasPieces(toks, s);
    }
  }

  // ---- What the matcher answers ----

  predicate AllStars(toks: seq<Token>) {
    forall i :: 0 <= i < |toks| ==> toks[i] == Star
  }

  /** The last two tokens are stars: the pattern ends in two unescaped stars. */
  predicate EndsInTwoStars(toks: seq<Token>) {
    |toks| >= 2 && toks[|toks| - 2] == Star && toks[|toks| - 1] == Star
  }

  /** Stars at the end, if there are more than one, ask for at least one character. */
  function Effective(toks: seq<Token>): seq<Token> {
    if toks == [] then []
    else if |toks| >= 2 && AllStars(toks) then [Any, Star]
    else [toks[0]] + Effective(toks[1..])
  }

  lemma {:induction false} StarGlobsAll(s: string)
    ensures GlobHere([Star], s)
    decreases |s|
  {
    if s != "" {
      StarGlobsAll(s[1..]);
    } else {
      assert [Star][1..] == [];
    }
  }

  lemma AnyStarGlobs(s: string)
    ensures GlobHere([Any, Star], s) <==> s != ""
  {
    assert [Any, Star][1..] == [Star];
    if s != "" {
      StarGlobsAll(s[1..]);
    }
  }

  lemma {:induction false} NothingIsGlobbed(toks: seq<Token>)
    requires !AllStars(toks)
    ensures !GlobHere(toks, "") && !GlobHere(Effective(toks), "")
    decreases |toks|
  {
    assert toks == [toks[0]] + toks[1..];
    assert Effective(toks)[1..] == Effective(toks[1..]);
    if toks[0] == Star {
      NothingIsGlobbed(toks[1..]);
    }
  }

  /** The answer for every pattern; a trailing backslash never matches, but may overrun. */
  function Answer(s: string, p: string): Outcome {
    var toks := Tokens(p);
    if Closed(p) then
      if GlobHere(Effective(toks), s) then Match else NoMatch
    else if GlobHere(toks, s) && (toks == [] || toks[|toks| - 1] != Star) then Overrun
    else NoMatch
  }

  lemma {:induction false} MatchesAnswers(s: string, p: string)
    ensures Matches(s, p) == Answer(s, p)
    decreases |p|, |s|, 0
  {
    if p == "" {
    } else if p[0] == '*' {
      if |p| == 1 {
        StarAnswersAll(s, p);
      } else {
        SuffixesAnswer(s, p[1..]);
        assert "*" + p[1..] == p;
      }
    } else if p[0] == '\\' && |p| == 1 {
    } else {
      var n := if p[0] == '\\' then 2 else 1;
      LiteralAnswers(s, p, n);
      if s != "" {
        MatchesAnswers(s[1..], p[n..]);
      }
    }
  }

  lemma StarAnswersAll(s: string, p: string)
    requires p == "*"
    ensures Answer(s, p) == Match
  {
    var rest := p[1..];
    assert Tokens(rest) == [] && Closed(rest);
    assert Tokens(p) == [Star];
    assert [Star][1..] == [];
    assert Effective([Star]) == [Star];
    StarGlobsAll(s);
  }

  /** A token that takes one character. */
  lemma TokenTakes(t: Token, rest: seq<Token>, s: string)
    requires t != Star
    ensures var takes := s != "" && PieceOk(t, s[..1]);
      && (GlobHere([t] + rest, s) <==> takes && GlobHere(rest, s[1..]))
      && (GlobHere(Effective([t] + rest), s) <==> takes && GlobHere(Effective(rest), s[1..]))
  {
    var toks := [t] + rest;
    assert toks[0] == t && toks[1..] == rest;
    assert !AllStars(toks);
    assert Effective(toks)[0] == t && Effective(toks)[1..] == Effective(rest);
  }

  /** One character of pattern and string: the answer is that of the rest, or no. */
  lemma LiteralAnswers(s: string, p: string, n: nat)
    requires p != "" && p[0] != '*' && n == (if p[0] == '\\' then 2 else 1) <= |p|
    ensures Tokens(p) != []
    ensures Answer(s, p) == if s == "" || !PieceOk(Tokens(p)[0], s[..1]) then NoMatch else Answer(s[1..], p[n..])
  {
    hide PieceOk, AllStars, GlobHere, Effective;
    var toks, rest := Tokens(p), Tokens(p[n..]);
    assert toks == [toks[0]] + rest;
    assert Closed(p) == Closed(p[n..]);
    TokenTakes(toks[0], rest, s);
  }

  lemma {:induction false} SuffixesAnswer(s: string, p: string)
    requires p != ""
    ensures Suffixes(s, p) == Answer(s, "*" + p)
    decreases |p|, |s|, 1
  {
    StarAnswers(s, p);
    if s != "" {
      MatchesAnswers(s, p);
      SuffixesAnswer(s[1..], p);
    }
  }

  /** A star in front of a pattern: the answers for the suffixes but the empty one. */
  lemma StarAnswers(s: string, p: string)
    requires p != ""
    ensures Answer(s, "*" + p) ==
      if s == "" then NoMatch
      else if Answer(s, p) != NoMatch then Answer(s, p)
      else Answer(s[1..], "*" + p)
  {
    var rest := Tokens(p);
    var toks := [Star] + rest;
    assert ("*" + p)[1..] == p;
    assert Tokens("*" + p) == toks && toks[1..] == rest;
    if AllStars(rest) {
      if Closed(p) {
        assert Effective(toks) == [Any, Star];
        AnyStarGlobs(s);
        if s != "" {
          StarsAnswer(s, p);
        }
      } else if rest != [] {
        assert toks[|toks| - 1] == Star;
      }
    } else {
      NothingIsGlobbed(rest);
      forall i | 0 <= i < |rest| && rest[i] != Star
        ensures toks[i + 1] != Star
      {
      }
      assert !AllStars(toks);
      assert Effective(toks)[1..] == Effective(rest);
    }
  }

  lemma StarsAnswer(s: string, p: string)
    requires p != "" && Closed(p) && AllStars(Tokens(p)) && s != ""
    ensures Answer(s, p) == Match
  {
    var toks := Tokens(p);
    if |toks| == 1 {
      assert toks == [Star] && Effective(toks) == [Star] + Effective(toks[1..]);
      StarGlobsAll(s);
    } else {
      AnyStarGlobs(s);
    }
  }

  // ---- Globbing or not ----

  /** The shortest string a token list globs. */
  function Shortest(toks: seq<Token>): string {
    if toks == [] then ""
    else if toks[0] == Star then Shortest(toks[1..])
    else [if toks[0] == Any then 'x' else toks[0].c] + Shortest(toks[1..])
  }

  lemma {:induction false} ShortestIsGlobbed(toks: seq<Token>)
    ensures GlobHere(toks, Shortest(toks))
  {
    if toks != [] {
      ShortestIsGlobbed(toks[1..]);
      if toks[0] != Star {
        assert Shortest(toks)[1..] == Shortest(toks[1..]);
      }
    }
  }

  /** Two stars at the end and the matcher asks for one character more. */
  lemma {:induction false} AsksForMore(toks: seq<Token>, s: string)
    requires EndsInTwoStars(toks) && GlobHere(Effective(toks), s)
    ensures |s| > |Shortest(toks)|
    decreases |toks|, |s|
  {
    if AllStars(toks) {
      AnyStarGlobs(s);
      ShortestOfStars(toks);
    } else {
      var e := Effective(toks);
      assert e[0] == toks[0] && e[1..] == Effective(toks[1..]);
      if toks[0] == Star && !GlobHere(e[1..], s) {
        AsksForMore(toks, s[1..]);
      } else {
        AsksForMore(toks[1..], s[if toks[0] == Star then 0 else 1..]);
      }
    }
  }

  lemma {:induction false} ShortestOfStars(toks: seq<Token>)
    requires AllStars(toks)
    ensures Shortest(toks) == ""
  {
    if toks != [] {
      ShortestOfStars(toks[1..]);
    }
  }

  lemma {:induction false} EffectiveIsTheSame(toks: seq<Token>)
    requires !EndsInTwoStars(toks)
    ensures Effective(toks) == toks
  {
    if toks != [] {
      EffectiveIsTheSame(toks[1..]);
    }
  }

  /**
   The matcher decides globbing for all strings exactly if the pattern does not end in two
   unescaped stars; adjacent stars elsewhere do no harm.
   */
  lemma MatchesIsGlobIff(p: string)
    requires Closed(p)
    ensures (forall s :: Matches(s, p) == Match <==> Glob(Tokens(p), s)) <==> !EndsInTwoStars(Tokens(p))
  {
    var toks := Tokens(p);
    if EndsInTwoStars(toks) {
      var s := Shortest(toks);
      ShortestIsGlobbed(toks);
      GlobIsGlobHere(toks, s);
      MatchesAnswers(s, p);
      if GlobHere(Effective(toks), s) {
        AsksForMore(toks, s);
      }
      assert Matches(s, p) != Match && Glob(Tokens(p), s);
    } else {
      EffectiveIsTheSame(toks);
      forall s
        ensures Matches(s, p) == Match <==> Glob(toks, s)
      {
        MatchesAnswers(s, p);
        GlobIsGlobHere(toks, s);
      }
    }
  }

  /** For every pattern the matcher globs something: two stars at the end stand for "?*". */
  lemma MatchesIsEffectiveGlob(s: string, p: string)
    ensures Matches(s, p) == Match <==> Closed(p) && Glob(Effective(Tokens(p)), s)
    ensures Matches(s, p) == Overrun ==> !Closed(p) && Glob(Tokens(p), s)
  {
    hide Matches, Closed, Tokens, GlobHere, Effective, Glob;
    MatchesAnswers(s, p);
    GlobIsGlobHere(Effective(Tokens(p)), s);
    GlobIsGlobHere(Tokens(p), s);
  }

  /** Going past the end of the strings takes a trailing backslash behind something globbed. */
  lemma OverrunIff(s: string, p: string)
    ensures Matches(s, p) == Overrun <==>
      var toks := Tokens(p);
      !Closed(p) && Glob(toks, s) && (toks == [] || toks[|toks| - 1] != Star)
  {
    hide Matches, Closed, Tokens, GlobHere, Effective, Glob;
    MatchesAnswers(s, p);
    GlobIsGlobHere(Tokens(p), s);
  }
}
