/**
 Bookmark files that other programs write: anchors with any attributes, in any white space
 and with either kind of quotes or none, headings with attributes, tabs and line breaks.
 */
module BookmarkAttributes {
  import opened CStrings
  import opened BookmarkLexer
  import opened BookmarkTree
  import opened BookmarkTokens
  import opened BookmarkRoundTrip
  import opened BookmarkLimits

  // ---- Tabs and line breaks ----

  function Blanked(s: string): (r: string)
    ensures |r| == |s| && forall i :: 0 <= i < |s| ==> r[i] == if s[i] == '\t' || s[i] == '\n' then ' ' else s[i]
  {
    seq(|s|, i requires 0 <= i < |s| => if s[i] == '\t' || s[i] == '\n' then ' ' else s[i])
  }

  /**
   Tabs and line breaks are read as blanks, wherever they stand: the flag that drops a line
   break is only set where a blank would be dropped as well.
   */
  lemma {:induction false} WhiteSpaceIsBlank(st: Lexer, src: string)
    requires st.Valid() && (st.discardCR ==> st.space) && '&' !in src
    ensures '&' !in Blanked(src)
    ensures Run(st, Blanked(src)) == Run(st, src)
    decreases |src|
  {
    hide Run, OpenTag, CloseTag, Quote, Equals, Blank;
    var r := Blanked(src);
    if src == "" {
      assert r == src;
    } else if src[0] == '\0' {
      RunStops(st, src);
      RunStops(st, r);
    } else {
      BlankStep(st, src);
      RunStep(st, src);
      RunStep(st, r);
      var (next, n) := Step(st, src);
      WhiteSpaceIsBlank(next, src[n..]);
      assert Blanked(src[n..]) == r[n..];
    }
  }

  lemma BlankStep(st: Lexer, src: string)
    requires st.Valid() && (st.discardCR ==> st.space) && src != ""
    ensures Step(st, Blanked(src)) == Step(st, src)
    ensures Step(st, src).0.discardCR ==> Step(st, src).0.space
  {
    var r := Blanked(src);
    assert "->" <= r <==> "->" <= src;
    assert "!-" <= r[1..] <==> "!-" <= src[1..] by {
      assert |src| >= 3 ==> r[1..][..2] == [r[1], r[2]] && src[1..][..2] == [src[1], src[2]];
      assert |r[1..]| == |src[1..]|;
    }
  }

  // ---- Attributes as they are written ----

  datatype Attr = Attr(name: string, before: string, after: string, mark: char, value: string, behind: string)

  predicate IsWhite(w: string) {
    forall i :: 0 <= i < |w| ==> w[i] == ' ' || w[i] == '\n' || w[i] == '\t'
  }

  predicate IsHref(a: Attr) {
    EqualNoCase(a.name, "href")
  }

  /** A quoted value without quotes; one with blanks in it is only for href, as parse looks for it behind any blank. */
  predicate AttrOk(a: Attr) {
    && a.name != "" && IsName(a.name) && '\r' !in a.name
    && IsWhite(a.before) && IsWhite(a.after) && IsWhite(a.behind)
    && (a.mark == '"' || a.mark == '\'') && UrlOk(a.value) && !EndsInEquals(a.value)
    && (!IsHref(a) ==> ' ' !in a.value)
  }

  predicate AttrsOk(attrs: seq<Attr>) {
    forall i :: 0 <= i < |attrs| ==> AttrOk(attrs[i])
  }

  function AttrText(a: Attr, r: string): string {
    a.name + (a.before + ("=" + (a.after + ([a.mark] + (a.value + ([a.mark] + (a.behind + r)))))))
  }

  function AttrsText(attrs: seq<Attr>, r: string): string {
    if attrs == [] then r else AttrText(attrs[0], AttrsText(attrs[1..], r))
  }

  /** What may stand between the attributes and the end of the tag: a bare word or a value without quotes. */
  datatype Last = Nothing | Word(name: string) | Unquoted(name: string, value: string)

  predicate LastOk(l: Last) {
    (l.Nothing? || (l.name != "" && IsName(l.name))) && (l.Unquoted? ==> l.value != "" && IsName(l.value))
  }

  function LastText(l: Last): string {
    match l
    case Nothing => ""
    case Word(name) => name
    case Unquoted(name, value) => name + ("=" + value)
  }

  /** What the tokenizer makes of an attribute. */
  function Plain(a: Attr): string {
    a.name + ("=" + ("\"" + (Squeeze(false, a.value) + "\" ")))
  }

  function Plains(attrs: seq<Attr>): string {
    if attrs == [] then "" else Plain(attrs[0]) + Plains(attrs[1..])
  }

  // ---- Tokenizing them ----

  lemma {:induction false} WhiteSkipped(st: Lexer, w: string, r: string)
    requires st.Valid() && st.tag && !st.tquote && !st.comment && st.space && IsWhite(w) && '&' !in r
    ensures '&' !in w && Run(st, w + r) == Run(st, r)
    decreases |w|
  {
    hide Run, OpenTag, CloseTag;
    if w == "" {
      assert w + r == r;
    } else {
      assert (w + r)[1..] == w[1..] + r;
      WhiteSkipped(st, w[1..], r);
      RunStep(st, w + r);
    }
  }

  /** White space where none was before becomes one blank. */
  lemma WhiteIsBlank(st: Lexer, w: string, r: string)
    requires st.Valid() && st.tag && !st.tquote && !st.comment && !st.space && !st.discardCR
    requires w != "" && IsWhite(w) && '&' !in r
    ensures '&' !in w && Run(st, w + r) == Run(st.(buf := st.buf + " ", space := true), r)
  {
    hide Run, OpenTag, CloseTag;
    var next := st.(buf := st.buf + " ", space := true);
    assert (w + r)[1..] == w[1..] + r;
    WhiteSkipped(next, w[1..], r);
    RunStep(st, w + r);
  }

  lemma BareEquals(st: Lexer, r: string)
    requires st.Valid() && st.tag && !st.tquote && !st.comment && '&' !in r && st.buf[|st.buf| - 1] != ' '
    ensures Run(st, "=" + r) == Run(st.(buf := st.buf + "=", space := true, discardCR := true), r)
  {
    hide Run, OpenTag, CloseTag;
    assert ("=" + r)[1..] == r;
    RunStep(st, "=" + r);
  }

  /** The equals sign takes the place of the blank in front of it. */
  lemma EqualsTaken(st: Lexer, before: string, r: string)
    requires st.Valid() && st.tag && !st.tquote && !st.comment && !st.space && !st.discardCR && '&' !in r
    requires IsWhite(before) && st.buf[|st.buf| - 1] != ' '
    ensures '&' !in before
    ensures Run(st, before + ("=" + r)) == Run(st.(buf := st.buf + "=", space := true, discardCR := true), r)
  {
    hide Run, OpenTag, CloseTag;
    if before == "" {
      assert before + ("=" + r) == "=" + r;
      BareEquals(st, r);
    } else {
      assert ("=" + r)[1..] == r;
      WhiteIsBlank(st, before, "=" + r);
      var blank := st.(buf := st.buf + " ", space := true);
      assert blank.buf[..|blank.buf| - 1] == st.buf;
      RunStep(blank, "=" + r);
    }
  }

  lemma MarkStep(st: Lexer, mark: char, r: string)
    requires st.Valid() && st.tag && !st.comment && '&' !in r && (mark == '"' || mark == '\'')
    requires st.tquote || st.buf[|st.buf| - 1] == '='
    ensures Run(st, [mark] + r)
         == Run(if st.buf[|st.buf| - 1] == '=' then st.(buf := st.buf + "\"", tquote := true, space := false, discardCR := false)
                else st.(buf := st.buf + "\" ", tquote := false, space := true, discardCR := true), r)
  {
    hide Run, OpenTag, CloseTag, Blank;
    assert ([mark] + r)[1..] == r;
    RunStep(st, [mark] + r);
  }

  lemma {:induction false} ValueThenMark(st: Lexer, value: string, mark: char, r: string)
    requires st.Valid() && st.tag && st.tquote && !st.comment && UrlOk(value) && (mark == '"' || mark == '\'')
    requires st.space ==> st.buf[|st.buf| - 1] == ' '
    requires if value == "" then st.buf[|st.buf| - 1] != '=' else !EndsInEquals(value)
    requires '&' !in r
    ensures '&' !in value
    ensures Run(st, value + ([mark] + r))
         == Run(st.(buf := st.buf + Squeeze(st.space, value) + "\" ", tquote := false, space := true, discardCR := true), r)
    decreases |value|
  {
    hide Run;
    assert '&' !in value;
    if value == "" {
      MarkStep(st, mark, r);
      assert value + ([mark] + r) == [mark] + r;
      assert st.buf + Squeeze(st.space, value) == st.buf;
    } else {
      var nextSt, nextR := UrlNext(st, value[0]), value[1..] + ([mark] + r);
      assert value + ([mark] + r) == [value[0]] + nextR;
      UrlStep(st, value[0], nextR);
      ValueThenMark(nextSt, value[1..], mark, r);
      UrlNextSqueeze(st, value);
    }
  }

  /** Between attributes: behind a blank, outside quotes. */
  predicate Between(st: Lexer) {
    st.Valid() && st.tag && !st.tquote && !st.comment && st.space && |st.buf| > 2
  }

  lemma AttrHasNoAmpersand(a: Attr, r: string)
    requires AttrOk(a) && '&' !in r
    ensures '&' !in AttrText(a, r)
  {
    hide EqualNoCase;
    assert '&' !in a.name && '&' !in a.before && '&' !in a.after && '&' !in a.value && '&' !in a.behind;
  }

  lemma AttrRun(st: Lexer, a: Attr, r: string)
    requires Between(st) && AttrOk(a) && '&' !in r
    ensures '&' !in AttrText(a, r)
    ensures Run(st, AttrText(a, r)) == Run(st.(buf := st.buf + Plain(a), discardCR := true), r)
  {
    hide Run, Squeeze, EqualNoCase, IsName, UrlOk, IsWhite;
    AttrHasNoAmpersand(a, r);
    var r5 := a.behind + r;
    var r4 := a.value + ([a.mark] + r5);
    var r3 := a.after + ([a.mark] + r4);
    var r2 := a.before + ("=" + r3);
    assert AttrText(a, r) == a.name + r2;
    assert '&' !in r2 && '&' !in r3 && '&' !in r4 && '&' !in r5;
    NameChars(st, a.name, r2);
    var s1 := st.(buf := st.buf + a.name, space := false, discardCR := false);
    NameEnds(a);
    EqualsTaken(s1, a.before, r3);
    var s2 := s1.(buf := s1.buf + "=", space := true, discardCR := true);
    WhiteSkipped(s2, a.after, [a.mark] + r4);
    MarkStep(s2, a.mark, r4);
    var s3 := s2.(buf := s2.buf + "\"", tquote := true, space := false, discardCR := false);
    ValueThenMark(s3, a.value, a.mark, r5);
    var s4 := s3.(buf := s3.buf + Squeeze(false, a.value) + "\" ", tquote := false, space := true, discardCR := true);
    WhiteSkipped(s4, a.behind, r);
    assert s4.buf == st.buf + Plain(a);
  }

  lemma NameEnds(a: Attr)
    requires AttrOk(a)
    ensures a.name[|a.name| - 1] != ' '
  {
    hide EqualNoCase;
    assert NameChar(a.name[|a.name| - 1]);
  }

  lemma {:induction false} AttrsRun(st: Lexer, attrs: seq<Attr>, r: string)
    requires Between(st) && AttrsOk(attrs) && '&' !in r
    ensures '&' !in AttrsText(attrs, r)
    ensures Run(st, AttrsText(attrs, r))
         == Run(st.(buf := st.buf + Plains(attrs), discardCR := attrs != [] || st.discardCR), r)
    decreases |attrs|
  {
    hide Run, AttrOk, AttrText, Plain;
    if attrs == [] {
      assert st.buf + "" == st.buf;
    } else {
      assert AttrOk(attrs[0]);
      var next := st.(buf := st.buf + Plain(attrs[0]), discardCR := true);
      AttrsRun(next, attrs[1..], r);
      AttrRun(st, attrs[0], AttrsText(attrs[1..], r));
      assert st.buf + Plain(attrs[0]) + Plains(attrs[1..]) == st.buf + (Plain(attrs[0]) + Plains(attrs[1..]));
    }
  }

  function Ended(st: Lexer, text: string): Lexer {
    st.(buf := st.buf + text, space := false, discardCR := false)
  }

  /** It is copied as it is, up to the end of the tag. */
  lemma LastRun(st: Lexer, l: Last, r: string)
    requires Between(st) && LastOk(l) && '&' !in r
    ensures '&' !in LastText(l)
    ensures Run(st, LastText(l) + (">" + r)) == Run(CloseTag(Ended(st, LastText(l))), r)
  {
    hide Run, IsName, CloseTag;
    match l
    case Nothing =>
      assert "" + (">" + r) == ">" + r && st.buf + "" == st.buf;
      TagEnds(st, r);
    case Word(name) =>
      WordRun(st, name, r);
    case Unquoted(name, value) =>
      UnquotedRun(st, name, value, r);
  }

  lemma TagEnds(st: Lexer, r: string)
    requires st.Valid() && st.tag && !st.tquote && !st.comment && '&' !in r
    ensures Run(st, ">" + r) == Run(CloseTag(st.(space := false, discardCR := false)), r)
  {
    hide Run;
    assert (">" + r)[1..] == r;
    RunStep(st, ">" + r);
  }

  lemma WordRun(st: Lexer, name: string, r: string)
    requires st.Valid() && st.tag && !st.tquote && !st.comment && name != "" && IsName(name) && '&' !in r
    ensures '&' !in name
    ensures Run(st, name + (">" + r)) == Run(CloseTag(Ended(st, name)), r)
  {
    hide Run, CloseTag, IsName;
    NoAmpersand(name);
    NameChars(st, name, ">" + r);
    TagEnds(Ended(st, name), r);
  }

  lemma UnquotedRun(st: Lexer, name: string, value: string, r: string)
    requires Between(st) && LastOk(Unquoted(name, value)) && '&' !in r
    ensures var text := name + ("=" + value);
      '&' !in text && Run(st, text + (">" + r)) == Run(CloseTag(Ended(st, text)), r)
  {
    hide Run, IsName, CloseTag;
    var text, more := name + ("=" + value), value + (">" + r);
    NoAmpersand(value);
    NameThenEquals(st, name, more);
    var s2 := st.(buf := st.buf + name + "=", space := true, discardCR := true);
    WordRun(s2, value, r);
    assert text + (">" + r) == name + ("=" + more);
    assert Ended(s2, value) == Ended(st, text) by {
      assert st.buf + name + "=" + value == st.buf + text;
    }
  }

  lemma NameThenEquals(st: Lexer, name: string, r: string)
    requires Between(st) && name != "" && IsName(name) && '&' !in r
    ensures '&' !in name
    ensures Run(st, name + ("=" + r)) == Run(st.(buf := st.buf + name + "=", space := true, discardCR := true), r)
  {
    hide Run, IsName;
    NoAmpersand(name);
    NoBlank(name);
    var tail, buf := "=" + r, st.buf + name;
    assert '&' !in tail;
    NameChars(st, name, tail);
    NameLast(st, name);
    assert buf[|buf| - 1] != ' ';
    BareEquals(st.(buf := buf, space := false, discardCR := false), r);
  }

  lemma NameLast(st: Lexer, name: string)
    requires Between(st) && name != ""
    ensures st.(buf := st.buf + name, space := false, discardCR := false).Valid()
    ensures (st.buf + name)[|st.buf + name| - 1] == name[|name| - 1]
  {
  }

  lemma NoAmpersand(name: string)
    requires IsName(name)
    ensures '&' !in name
  {
  }

  lemma NoBlank(name: string)
    requires name != "" && IsName(name)
    ensures name[|name| - 1] != ' '
  {
    assert NameChar(name[|name| - 1]);
  }

  function AttrsToken(attrs: seq<Attr>, l: Last): string {
    [TAG_ESCAPE, '<', 'a', ' '] + (Plains(attrs) + (LastText(l) + ">"))
  }

  /** An anchor with white space anywhere between its parts. */
  function AnchorText(lead: string, white: string, attrs: seq<Attr>, l: Last, r: string): string {
    "<" + (lead + ("A" + (white + AttrsText(attrs, LastText(l) + (">" + r)))))
  }

  /** However it is laid out it becomes the one token of its attributes. */
  lemma AnchorRun(tokens: seq<string>, space: bool, lead: string, white: string, attrs: seq<Attr>, l: Last, r: string)
    requires IsWhite(lead) && white != "" && IsWhite(white) && AttrsOk(attrs) && LastOk(l) && '&' !in r
    ensures '&' !in AnchorText(lead, white, attrs, l, r)
    ensures Run(Resting(tokens, space), AnchorText(lead, white, attrs, l, r))
         == Run(Resting(tokens + [AttrsToken(attrs, l)], false), r)
  {
    hide Run, AttrsText, Plains, AttrsOk, IsWhite, LastText, LastOk, CloseTag, Ended;
    var start := Lexer([TAG_ESCAPE, '<', 'A', ' '], tokens, true, false, true, false, false);
    var st := start.(buf := start.buf + Plains(attrs), discardCR := attrs != []);
    LastRun(st, l, r);
    AttrsRun(start, attrs, LastText(l) + (">" + r));
    AnchorEnds(st, attrs, l);
    var rest := AttrsText(attrs, LastText(l) + (">" + r));
    OpenAnchor(tokens, space, white, rest);
    assert ("A" + (white + rest))[0] == 'A';
    OpenSkipsWhite(tokens, space, lead, "A" + (white + rest));
    assert "<A" + (white + rest) == "<" + ("A" + (white + rest));
  }

  lemma AnchorEnds(st: Lexer, attrs: seq<Attr>, l: Last)
    requires st.tag && !st.tquote && !st.comment && st.buf == [TAG_ESCAPE, '<', 'A', ' '] + Plains(attrs)
    ensures Ended(st, LastText(l)).Valid()
    ensures CloseTag(Ended(st, LastText(l))) == Resting(st.tokens + [AttrsToken(attrs, l)], false)
  {
    hide Plains, LastText;
    var more := " " + (Plains(attrs) + (LastText(l) + ">"));
    var buf := st.buf + LastText(l);
    assert buf[2..] + ">" == "A" + more;
    LowerOfName("A", more);
    assert Lower("A") == "a";
    assert buf[..2] + ("a" + more) == AttrsToken(attrs, l);
  }

  /** White space between the bracket and the name is skipped. */
  lemma OpenSkipsWhite(tokens: seq<string>, space: bool, w: string, r: string)
    requires IsWhite(w) && '&' !in r && !("!-" <= r)
    ensures '&' !in w
    ensures Run(Resting(tokens, space), "<" + (w + r)) == Run(Resting(tokens, space), "<" + r)
  {
    hide Run, IsWhite;
    var st, open := Resting(tokens, space), OpenTag(tokens);
    WhiteSkipped(open, w, r);
    assert ("<" + r)[1..] == r && ("<" + (w + r))[1..] == w + r;
    assert !("!-" <= w + r) by { hide *; WhiteIsNoComment(w, r); }
    RunStep(st, "<" + r);
    RunStep(st, "<" + (w + r));
  }

  lemma WhiteIsNoComment(w: string, r: string)
    requires IsWhite(w) && !("!-" <= r)
    ensures !("!-" <= w + r)
  {
    if w == "" {
      assert w + r == r;
    } else {
      assert (w + r)[0] == w[0];
    }
  }

  lemma OpenAnchor(tokens: seq<string>, space: bool, white: string, r: string)
    requires white != "" && IsWhite(white) && '&' !in r
    ensures '&' !in white
    ensures Run(Resting(tokens, space), "<A" + (white + r))
         == Run(Lexer([TAG_ESCAPE, '<', 'A', ' '], tokens, true, false, true, false, false), r)
  {
    hide Run;
    var s0 := OpenTag(tokens);
    var s1 := s0.(buf := s0.buf + "A", space := false, discardCR := false);
    WhiteIsBlank(s1, white, r);
    assert "<A" + (white + r) == "" + ("<" + ("A" + (white + r)));
    assert ("A" + (white + r))[0] == 'A';
    TextThenTag(Resting(tokens, space), "", "A" + (white + r));
    assert tokens + Words("", space, "") == tokens;
    NameChars(s0, "A", white + r);
    assert s1.buf + " " == [TAG_ESCAPE, '<', 'A', ' '];
  }

  // ---- Reading them ----

  /** The last href wins; without one the URL stays. */
  function LastHref(attrs: seq<Attr>, url: string): string {
    if attrs == [] then url
    else LastHref(attrs[1..], if IsHref(attrs[0]) then Squeeze(false, attrs[0].value) else url)
  }

  function FinalHref(l: Last, url: string): string {
    if l.Unquoted? && EqualNoCase(l.name, "href") then l.value else url
  }

  lemma HrefPrefixIff(name: string, r: string)
    requires '=' !in name
    ensures HasPrefixNoCase(name + ("=" + r), "href=") <==> EqualNoCase(name, "href")
  {
    var p := name + ("=" + r);
    assert p[|name|] == '=';
    if HasPrefixNoCase(p, "href=") {
      assert Lower(p[..5]) == Lower("href=");
      assert forall i :: 0 <= i < 5 ==> Lower(p[..5])[i] == ToLower(p[i]) && Lower("href=")[i] == ToLower("href="[i]);
      assert ToLower(p[4]) == '=' && p[4] == '=';
      assert |name| == 4;
      assert forall i :: 0 <= i < 4 ==> p[i] == name[i];
      assert forall i :: 0 <= i < 4 ==> Lower(name)[i] == Lower(p[..5])[i] && Lower("href")[i] == Lower("href=")[i];
      assert Lower(name) == Lower("href");
    }
    if EqualNoCase(name, "href") {
      assert |name| == 4 by { assert |Lower(name)| == |Lower("href")|; }
      assert p[..5] == name + "=";
      assert Lower(name + "=") == Lower("href=") by {
        assert forall i :: 0 <= i < 4 ==> Lower(name)[i] == ToLower(name[i]) && Lower("href")[i] == ToLower("href"[i]);
      }
    }
  }

  /** strchr finds the first one or nothing. */
  lemma {:induction false} FirstOf(s: string, c: char, r: string)
    requires c !in s
    ensures From(s + ([c] + r), c) == [c] + r && From(s, c) == ""
  {
    if s == "" {
      assert s + ([c] + r) == [c] + r;
    } else {
      assert (s + ([c] + r))[1..] == s[1..] + ([c] + r);
      FirstOf(s[1..], c, r);
    }
  }

  lemma ScanAttr(a: Attr, more: string, url: string)
    requires AttrOk(a)
    ensures ScanAnchor(Plain(a) + more, url)
         == ScanAnchor(more, if IsHref(a) then Squeeze(false, a.value) else url)
  {
    hide Squeeze, EqualNoCase, HasPrefixNoCase, IsName;
    var u := Squeeze(false, a.value);
    var tail := "\"" + (u + ("\"" + (" " + more)));
    var p := a.name + ("=" + tail);
    assert "\" " == "\"" + " ";
    assert Plain(a) + more == p;
    NameHasNoEquals(a);
    HrefPrefixIff(a.name, tail);
    if IsHref(a) {
      assert |a.name| == 4 by { hide *; HrefLength(a.name); }
      assert p[5..] == tail;
      SqueezedChars(false, a.value, '"');
      assert '"' !in u;
      ReadQuoted(u, "", " " + more);
      assert tail[1..] == u + ("\"" + (" " + more));
      assert ReadValue(tail, false, "") == Value("" + u, " " + more);
      assert "" + u == u && (" " + more)[1..] == more;
    } else {
      var head := a.name + ("=" + ("\"" + (u + "\"")));
      assert p == head + (" " + more);
      SqueezedChars(false, a.value, ' ');
      FirstOf(head, ' ', more);
      assert (" " + more)[1..] == more;
      assert p[0] == a.name[0];
    }
  }

  lemma HrefLength(name: string)
    requires EqualNoCase(name, "href")
    ensures |name| == 4
  {
    assert |Lower(name)| == |Lower("href")|;
  }

  lemma NameHasNoEquals(a: Attr)
    requires AttrOk(a)
    ensures '=' !in a.name && ' ' !in a.name && a.name[0] != '>' && '"' !in a.value
  {
    hide EqualNoCase;
    assert NameChar(a.name[0]);
    assert forall i :: 0 <= i < |a.name| ==> NameChar(a.name[i]);
    assert forall i :: 0 <= i < |a.value| ==> UrlChar(a.value[i]);
  }

  lemma {:induction false} ReadBare(v: string, text: string)
    requires IsName(v)
    ensures ReadValue(v + ">", false, text) == Value(text + v, ">")
  {
    if v == "" {
      assert v + ">" == ">" && text + v == text;
    } else {
      assert NameChar(v[0]);
      assert (v + ">")[1..] == v[1..] + ">";
      ReadBare(v[1..], text + [v[0]]);
      assert text + [v[0]] + v[1..] == text + v;
    }
  }

  lemma ScanLast(l: Last, url: string)
    requires LastOk(l)
    ensures ScanAnchor(LastText(l) + ">", url) == Value(FinalHref(l, url), ">")
  {
    hide IsName, HasPrefixNoCase, EqualNoCase;
    var p := LastText(l) + ">";
    assert ScanAnchor(">", url) == Value(url, ">");
    if l.Nothing? {
      assert p == ">";
    } else if l.Unquoted? && EqualNoCase(l.name, "href") {
      assert p == l.name + ("=" + (l.value + ">"));
      NameParts(l.name);
      HrefPrefixIff(l.name, l.value + ">");
      HrefLength(l.name);
      assert p[5..] == l.value + ">";
      ReadBare(l.value, "");
      assert "" + l.value == l.value;
      assert ScanAnchor(">", l.value) == Value(l.value, ">");
    } else {
      LastScanned(l);
    }
  }

  /** Anything else at the end is no href and has no blank to go on behind. */
  lemma LastScanned(l: Last)
    requires LastOk(l) && !l.Nothing? && !(l.Unquoted? && EqualNoCase(l.name, "href"))
    ensures var p := LastText(l) + ">";
      p[0] != '>' && !HasPrefixNoCase(p, "href=") && From(p, ' ') == "" && From(p, '>') == ">"
  {
    hide IsName, HasPrefixNoCase, EqualNoCase;
    var text := LastText(l);
    NameParts(l.name);
    if l.Word? {
      assert '=' !in text + ">";
      if HasPrefixNoCase(text + ">", "href=") {
        hide *;
        NoPrefix(text + ">");
      }
    } else {
      NameParts(l.value);
      assert text + ">" == l.name + ("=" + (l.value + ">"));
      HrefPrefixIff(l.name, l.value + ">");
    }
    FirstOf(text + ">", ' ', "");
    assert [">"[0]] + "" == ">";
    FirstOf(text, '>', "");
  }

  lemma NoPrefix(p: string)
    requires '=' !in p
    ensures !HasPrefixNoCase(p, "href=")
  {
    if |p| >= 5 {
      assert p[4] != '=';
      PrefixDiffers(p, "href=", 4);
    }
  }

  lemma NameParts(name: string)
    requires IsName(name)
    ensures '=' !in name && ' ' !in name && '>' !in name && '"' !in name
  {
    assert forall i :: 0 <= i < |name| ==> NameChar(name[i]);
  }

  lemma {:induction false} ScanAttrs(attrs: seq<Attr>, l: Last, url: string)
    requires AttrsOk(attrs) && LastOk(l)
    ensures ScanAnchor(Plains(attrs) + (LastText(l) + ">"), url) == Value(FinalHref(l, LastHref(attrs, url)), ">")
    decreases |attrs|
  {
    hide AttrOk, Plain, Squeeze, IsHref, LastText, LastOk, FinalHref, ScanAnchor;
    var end := LastText(l) + ">";
    if attrs == [] {
      assert "" + end == end;
      ScanLast(l, url);
    } else {
      var a, more := attrs[0], Plains(attrs[1..]) + end;
      assert AttrOk(a);
      assert Plains(attrs) + end == Plain(a) + more;
      ScanAttr(a, more, url);
      ScanAttrs(attrs[1..], l, if IsHref(a) then Squeeze(false, a.value) else url);
    }
  }

  /** parse gives the bookmark the last href of the anchor, whatever other attributes there are. */
  lemma AnchorIsParsed(attrs: seq<Attr>, l: Last, rest: seq<string>, parent: Bookmark, atParent: bool, text: string, end: string)
    requires AttrsOk(attrs) && LastOk(l) && IsEnd(end) && (!atParent ==> parent.children != [])
    ensures var cur := Current(parent, atParent);
      ParseFrom([AttrsToken(attrs, l)] + rest, parent, atParent, text, end)
      == ParseFrom(rest, SetCurrent(parent, atParent, cur.(url := FinalHref(l, LastHref(attrs, cur.url)))), atParent, "", end)
  {
    hide ScanAnchor, Plains, LastHref, AttrsOk, LastText, LastOk, FinalHref;
    var token := AttrsToken(attrs, l);
    var str := token[1..];
    var p := Plains(attrs) + (LastText(l) + ">");
    assert str == "<a " + p && str[..3] == "<a " && str[3..] == p;
    EqualDiffers(str, "</dl>", 1);
    PrefixDiffers(str, "<dl>", 1);
    PrefixDiffers(str, "<dt>", 1);
    ScanAttrs(attrs, l, Current(parent, atParent).url);
    assert ([token] + rest)[1..] == rest;
  }

  /** A heading tag begins a text, whatever attributes it has. */
  lemma HeadingIsParsed(attrs: string, rest: seq<string>, parent: Bookmark, atParent: bool, text: string, end: string)
    requires IsEnd(end) && (!atParent ==> parent.children != [])
    ensures ParseFrom([[TAG_ESCAPE] + ("<h3" + attrs)] + rest, parent, atParent, text, end)
         == ParseFrom(rest, parent, atParent, "", end)
  {
    var token := [TAG_ESCAPE] + ("<h3" + attrs);
    var str := token[1..];
    assert str == "<h3" + attrs && str[..3] == "<h3";
    EqualDiffers(str, "</dl>", 1);
    PrefixDiffers(str, "<dl>", 1);
    PrefixDiffers(str, "<dt>", 1);
    PrefixDiffers(str, "<a ", 1);
    assert Lower("<h3") == Lower("<H3");
    assert ([token] + rest)[1..] == rest;
  }
}
