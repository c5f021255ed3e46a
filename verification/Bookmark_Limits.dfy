/**
 The limits of the round trip.  No file whatsoever reads as a tree with a '<', a line
 break or a quote in its strings where write would need one; and a URL ending in '='
 that no quote follows swallows the rest of the file.
 */
module BookmarkLimits {
  import opened CStrings
  import opened BookmarkLexer
  import opened BookmarkTree
  import opened BookmarkTokens
  import opened BookmarkRoundTrip

  // ---- What tokens look like, for any input ----

  /** Characters that can get into a tag. */
  predicate TagChar(c: char) {
    c != '\'' && c != '&' && c != '\n' && c != '\t' && c != '\r' && c != '\0'
  }

  predicate TokenOk(t: string) {
    if IsTag(t) then forall i :: 1 <= i < |t| ==> TagChar(t[i]) else CleanText(t)
  }

  predicate TokensOk(toks: seq<string>) {
    forall i :: 0 <= i < |toks| ==> TokenOk(toks[i])
  }

  predicate Bounded(st: Lexer) {
    && st.Valid()
    && (st.tquote ==> st.tag)
    && TokensOk(st.tokens)
    && if st.tag then forall i :: 1 <= i < |st.buf| ==> TagChar(st.buf[i]) else CleanText(st.buf)
  }

  lemma {:induction false} LowerNameChars(s: string)
    requires forall i :: 0 <= i < |s| ==> TagChar(s[i])
    ensures forall i :: 0 <= i < |LowerName(s)| ==> TagChar(LowerName(s)[i])
  {
    if s != "" && s[0] != ' ' {
      assert TagChar(s[0]) && TagChar(ToLower(s[0]));
      LowerNameChars(s[1..]);
    }
  }

  lemma CloseTagBounded(st: Lexer)
    requires Bounded(st) && st.tag && !st.tquote
    ensures Bounded(CloseTag(st))
  {
    var rest := st.buf[2..] + ">";
    assert forall i :: 0 <= i < |rest| ==> TagChar(rest[i]);
    LowerNameChars(rest);
    var token := st.buf[..2] + LowerName(rest);
    assert TagChar(token[1]);
    assert TokenOk(token);
  }

  lemma AppendOk(tokens: seq<string>, t: string)
    requires TokensOk(tokens) && (t != "" ==> TokenOk(t))
    ensures TokensOk(Append(tokens, t))
  {
  }

  lemma BlankBounded(st: Lexer)
    requires Bounded(st)
    ensures Bounded(Blank(st))
  {
    AppendOk(st.tokens, st.buf);
    assert TokenOk(" ");
  }

  /** A character appended to the buffer. */
  lemma PushBounded(st: Lexer, b: string, flags: Lexer)
    requires Bounded(st) && st.buf <= b
    requires forall i :: |st.buf| <= i < |b| ==> TagChar(b[i]) && (!st.tag ==> TextChar(b[i]))
    requires flags.tag == st.tag && flags.tokens == st.tokens && flags.buf == b && (flags.tquote ==> st.tag)
    ensures Bounded(flags)
  {
    assert forall i :: 0 <= i < |st.buf| ==> b[i] == st.buf[i];
  }

  lemma QuoteBounded(st: Lexer, c: char)
    requires Bounded(st) && (c == '"' || c == '\'')
    ensures Bounded(Quote(st, c))
  {
    if st.tag {
      PushBounded(st, Quote(st, c).buf, Quote(st, c));
    } else {
      assert CleanText(st.buf + [c]);
    }
  }

  lemma EqualsBounded(st: Lexer)
    requires Bounded(st)
    ensures Bounded(Equals(st))
  {
  }

  lemma OpenBounded(st: Lexer)
    requires Bounded(st)
    ensures Bounded(OpenTag(Append(st.tokens, st.buf)))
  {
    AppendOk(st.tokens, st.buf);
    assert TagChar('<');
  }

  lemma StepBounded(st: Lexer, src: string)
    requires Bounded(st) && src != "" && src[0] != '\0' && src[0] != '&'
    ensures Bounded(Step(st, src).0)
  {
    hide Append, Blank, Quote, Equals, OpenTag, CloseTag, CleanText, TokensOk;
    var c := src[0];
    if st.comment {
    } else if c == '<' && !st.tquote {
      OpenBounded(st);
    } else if c == '>' && st.tag && !st.tquote {
      CloseTagBounded(st);
    } else if c == '\n' || c == ' ' || c == '\t' {
      BlankBounded(st);
    } else if c == '"' || c == '\'' {
      QuoteBounded(st, c);
    } else if c == '=' {
      EqualsBounded(st);
    } else if c != '\r' {
      PushBounded(st, st.buf + [c], st.(buf := st.buf + [c], space := false, discardCR := false));
    }
  }

  lemma {:induction false} RunBounded(st: Lexer, src: string)
    requires Bounded(st) && '&' !in src
    ensures Bounded(Run(st, src))
    decreases |src|
  {
    if src != "" && src[0] != '\0' {
      StepBounded(st, src);
      var (nextSt, n) := Step(st, src);
      RunBounded(nextSt, src[n..]);
    }
  }

  /** Whatever the file holds, its tokens are words without markup characters and tags without line breaks. */
  lemma TokenRange(src: string)
    requires '&' !in src
    ensures TokensOk(Tokenize(src))
  {
    RunBounded(Start, src);
    var st := Run(Start, src);
    AppendOk(st.tokens, st.buf);
  }

  // ---- What trees look like, for any tokens ----

  predicate UrlOk(u: string) {
    forall i :: 0 <= i < |u| ==> UrlChar(u[i])
  }

  predicate OwnOk(b: Bookmark) {
    CleanText(b.text) && UrlOk(b.url)
  }

  predicate TreeOk(b: Bookmark) {
    OwnOk(b) && forall i :: 0 <= i < |b.children| ==> TreeOk(b.children[i])
  }

  predicate KidsOk(b: Bookmark) {
    forall i :: 0 <= i < |b.children| ==> TreeOk(b.children[i])
  }

  predicate AllTagChars(p: string) {
    forall i :: 0 <= i < |p| ==> TagChar(p[i])
  }

  lemma {:induction false} ReadValueRange(p: string, quoted: bool, text: string)
    requires AllTagChars(p) && UrlOk(text)
    ensures var r := ReadValue(p, quoted, text);
      r.Value? ==> UrlOk(r.text) && AllTagChars(r.rest)
    decreases |p|
  {
    if p != "" && !((p[0] == ' ' || p[0] == '>') && !quoted) {
      assert TagChar(p[0]);
      ReadValueRange(p[1..], if p[0] == '"' then !quoted else quoted, if p[0] == '"' then text else text + [p[0]]);
    }
  }

  lemma {:induction false} FromRange(p: string, c: char)
    requires AllTagChars(p)
    ensures AllTagChars(From(p, c))
  {
    if p != "" && p[0] != c {
      FromRange(p[1..], c);
    }
  }

  lemma {:induction false} ScanRange(p: string, url: string)
    requires AllTagChars(p) && UrlOk(url)
    ensures ScanAnchor(p, url).Value? ==> UrlOk(ScanAnchor(p, url).text)
    decreases |p|
  {
    if p == "" || p[0] == '>' {
    } else if HasPrefixNoCase(p, "href=") {
      ReadValueRange(p[5..], false, "");
      var r := ReadValue(p[5..], false, "");
      if r.Value? {
        ScanRange(if r.rest[0] == ' ' then r.rest[1..] else r.rest, r.text);
      }
    } else if From(p, ' ') != "" {
      FromRange(p, ' ');
      ScanRange(From(p, ' ')[1..], url);
    } else if From(p, '>') != "" {
      FromRange(p, '>');
      ScanRange(From(p, '>'), url);
    }
  }

  lemma SetCurrentRange(parent: Bookmark, atParent: bool, bm: Bookmark)
    requires KidsOk(parent) && (!atParent ==> parent.children != [])
    requires KidsOk(bm) && (!atParent ==> OwnOk(bm))
    ensures KidsOk(SetCurrent(parent, atParent, bm))
    ensures OwnOk(parent) && (atParent ==> OwnOk(bm)) ==> OwnOk(SetCurrent(parent, atParent, bm))
  {
    if !atParent {
      assert TreeOk(bm);
    }
  }

  lemma CurrentRange(parent: Bookmark, atParent: bool)
    requires KidsOk(parent) && (!atParent ==> parent.children != [])
    ensures KidsOk(Current(parent, atParent))
    ensures !atParent ==> OwnOk(Current(parent, atParent))
  {
  }

  /** Strings that parse stores below a folder stay within the range. */
  lemma {:induction false} ParseRange(toks: seq<string>, parent: Bookmark, atParent: bool, text: string, end: string)
    requires !atParent ==> parent.children != []
    requires TokensOk(toks) && CleanText(text) && KidsOk(parent)
    ensures var r := ParseFrom(toks, parent, atParent, text, end);
      r.Parsed? ==> KidsOk(r.folder) && (OwnOk(parent) ==> OwnOk(r.folder)) && TokensOk(r.rest)
    decreases |toks|, 0
  {
    hide EqualNoCase, ScanAnchor, TreeOk, UrlOk;
    if toks == [] {
    } else {
      assert TokenOk(toks[0]);
      var rest, cur := toks[1..], Current(parent, atParent);
      CurrentRange(parent, atParent);
      if !IsTag(toks[0]) {
        ParseRange(rest, parent, atParent, text + toks[0], end);
      } else {
        ParseRange(rest, parent, atParent, text, end);
        ParseRange(rest, parent, atParent, "", end);
        NewChildRange(parent);
        ParseRange(rest, parent.(children := parent.children + [NewBookmark]), false, text, end);
        SetCurrentRange(parent, atParent, cur.(text := text));
        ParseRange(rest, SetCurrent(parent, atParent, cur.(text := text)), atParent, text, end);
        AnchorRange(toks[0], rest, parent, atParent, end);
        assert |toks[0]| >= 4 ==> toks[0][1..][3..] == toks[0][4..];
        ListRange(toks[0], rest, parent, atParent, text, end);
      }
    }
  }

  lemma NewChildRange(parent: Bookmark)
    requires KidsOk(parent)
    ensures KidsOk(parent.(children := parent.children + [NewBookmark]))
  {
    assert TreeOk(NewBookmark);
  }

  lemma {:induction false} AnchorRange(token: string, rest: seq<string>, parent: Bookmark, atParent: bool, end: string)
    requires !atParent ==> parent.children != []
    requires TokenOk(token) && IsTag(token) && TokensOk(rest) && KidsOk(parent)
    ensures |token| >= 4 ==>
      var cur := Current(parent, atParent);
      var a := ScanAnchor(token[4..], cur.url);
      a.Value? ==>
        var r := ParseFrom(rest, SetCurrent(parent, atParent, cur.(url := a.text)), atParent, "", end);
        r.Parsed? ==> KidsOk(r.folder) && (OwnOk(parent) ==> OwnOk(r.folder)) && TokensOk(r.rest)
    decreases |rest|, 1
  {
    hide ScanAnchor, ParseFrom, TreeOk;
    if |token| >= 4 {
      var cur := Current(parent, atParent);
      CurrentRange(parent, atParent);
      if OwnOk(cur) {
        ScanRange(token[4..], cur.url);
      }
      var a := ScanAnchor(token[4..], cur.url);
      if a.Value? {
        SetCurrentRange(parent, atParent, cur.(url := a.text));
        ParseRange(rest, SetCurrent(parent, atParent, cur.(url := a.text)), atParent, "", end);
      }
    }
  }

  lemma {:induction false} ListRange(token: string, rest: seq<string>, parent: Bookmark, atParent: bool, text: string, end: string)
    requires !atParent ==> parent.children != []
    requires TokensOk(rest) && CleanText(text) && KidsOk(parent)
    ensures var q := Parse(rest, Current(parent, atParent), "</dl>");
      q.Parsed? ==>
        var r := ParseFrom(q.rest, SetCurrent(parent, atParent, q.folder), atParent, text, end);
        r.Parsed? ==> KidsOk(r.folder) && (OwnOk(parent) ==> OwnOk(r.folder)) && TokensOk(r.rest)
    decreases |rest|, 1
  {
    hide ParseFrom, TreeOk;
    var cur := Current(parent, atParent);
    CurrentRange(parent, atParent);
    ParseRange(rest, cur.(kind := Folder), true, "", "</dl>");
    var q := Parse(rest, cur, "</dl>");
    if q.Parsed? {
      SetCurrentRange(parent, atParent, q.folder);
      ParseRange(q.rest, SetCurrent(parent, atParent, q.folder), atParent, text, end);
    }
  }

  lemma {:induction false} ReadTitleRange(toks: seq<string>, t: string)
    requires TokensOk(toks)
    ensures TokensOk(ReadTitle(toks, t).1)
  {
    if toks != [] && !(IsTag(toks[0]) && HasPrefixNoCase(toks[0][1..], "</title>")) {
      ReadTitleRange(toks[1..], t + toks[0]);
    }
  }

  lemma {:induction false} ReadRange(toks: seq<string>, store: Store)
    requires TokensOk(toks) && KidsOk(store.root)
    ensures ReadFrom(toks, store).Read? ==> KidsOk(ReadFrom(toks, store).store.root)
    decreases |toks|
  {
    hide HasPrefixNoCase, ReadTitle, ParseFrom, TreeOk;
    if toks != [] {
      var rest := toks[1..];
      ReadRange(rest, store);
      ReadTitleRange(rest, "");
      var (t, after) := ReadTitle(rest, "");
      ReadRange(after, store.(title := t));
      ParseRange(rest, store.root.(kind := Folder), true, "", "");
      var q := Parse(rest, store.root, "");
      if q.Parsed? {
        ReadRange(q.rest, store.(root := q.folder));
      }
    }
  }

  /** Whatever the file holds, the bookmarks read from it contain no markup character. */
  lemma TreeRange(content: string, store: Store)
    requires '&' !in content
    ensures ReadText(content, store).Read? ==> KidsOk(ReadText(content, store).store.root)
  {
    TokenRange(content);
    ReadRange(Tokenize(content), store.(root := store.root.(children := [])));
  }

  // ---- A URL that ends in '=' ----

  /** Characters that cannot leave a quoted attribute. */
  predicate Unquoted(s: string) {
    '"' !in s && '\'' !in s && '&' !in s && '\0' !in s
  }

  /** Inside a quoted attribute everything without quotes stays in the tag. */
  lemma {:induction false} QuotedRun(st: Lexer, s: string)
    requires st.Valid() && st.tag && st.tquote && !st.comment && Unquoted(s)
    ensures var e := Run(st, s);
      e.tag && e.tquote && e.tokens == st.tokens && st.buf <= e.buf
    decreases |s|
  {
    if s != "" {
      var (nextSt, n) := Step(st, s);
      assert n == 1 && nextSt.tag && nextSt.tquote && nextSt.tokens == st.tokens && st.buf <= nextSt.buf;
      QuotedRun(nextSt, s[1..]);
    }
  }

  lemma {:induction false} UrlThenEquals(st: Lexer, url: string, r: string)
    requires st.Valid() && st.tag && st.tquote && !st.comment
    requires UrlOk(url) && EndsInEquals(url) && '&' !in url && '&' !in r
    ensures Run(st, url + r)
         == Run(st.(buf := st.buf + Squeeze(st.space, url), space := false, discardCR := false), r)
    decreases |url|
  {
    hide Run;
    var nextSt, u := UrlNext(st, url[0]), url[1..];
    assert url + r == [url[0]] + (u + r);
    UrlStep(st, url[0], u + r);
    if u == "" {
      assert u + r == r && url == "=" && Squeeze(st.space, "=") == "=";
    } else {
      assert u[|u| - 1] == url[|url| - 1];
      UrlThenEquals(nextSt, u, r);
      UrlNextSqueeze(st, url);
    }
  }

  /** The closing quote behind '=' opens a quotation again. */
  lemma EqualsAnchor(tokens: seq<string>, space: bool, url: string, r: string)
    requires UrlOk(url) && EndsInEquals(url) && '&' !in url && Unquoted(r)
    ensures var e := Run(Resting(tokens, space), "<A HREF=\"" + (url + ("\"" + (">" + r))));
      e.tokens == tokens && InHref([]).buf + Squeeze(false, url) + "\">" <= e.buf
  {
    hide Run, Squeeze;
    var r1 := "\"" + (">" + r);
    HrefOpen(tokens, space, url + r1);
    var st := InHref(tokens);
    UrlThenEquals(st, url, r1);
    var s1 := st.(buf := st.buf + Squeeze(false, url), space := false, discardCR := false);
    SqueezedEnd(false, url);
    var s2 := s1.(buf := s1.buf + "\"");
    Requote(s1, ">" + r);
    QuotedRun(s2, ">" + r);
    ReopenedEnd(s2, r);
  }

  lemma {:induction false} SqueezedEnd(space: bool, url: string)
    requires EndsInEquals(url)
    ensures EndsInEquals(Squeeze(space, url))
    decreases |url|
  {
    if |url| > 1 {
      SqueezedEnd(url[0] == ' ', url[1..]);
    }
  }

  /** A quote behind '=' opens, even inside quotes. */
  lemma Requote(st: Lexer, r: string)
    requires st.Valid() && st.tag && st.tquote && !st.comment && '&' !in r && st.buf[|st.buf| - 1] == '='
    ensures Run(st, "\"" + r) == Run(st.(buf := st.buf + "\"", space := false, discardCR := false), r)
  {
    hide Run, OpenTag, CloseTag, Blank;
    assert ("\"" + r)[1..] == r;
    RunStep(st, "\"" + r);
  }

  lemma ReopenedEnd(st: Lexer, r: string)
    requires st.Valid() && st.tag && st.tquote && !st.comment && Unquoted(r)
    ensures st.buf + ">" <= Run(st, ">" + r).buf && Run(st, ">" + r).tokens == st.tokens
  {
    hide Run, OpenTag, CloseTag, Blank;
    assert (">" + r)[1..] == r;
    var nextSt := st.(buf := st.buf + ">", space := false, discardCR := false);
    RunStep(st, ">" + r);
    QuotedRun(nextSt, r);
  }

  lemma ScanSwallowed(u: string, p: string, url: string)
    requires '"' !in u && p != "" && p[0] == '>'
    ensures ScanAnchor("HREF=" + ("\"" + (u + ("\"" + p))), url) == Value(u, p)
  {
    var q := u + ("\"" + p);
    var s := "HREF=" + ("\"" + q);
    assert HasPrefixNoCase(s, "href=") by { assert s[..5] == "HREF=" && Lower("HREF=") == Lower("href="); }
    assert s[5..] == "\"" + q && ("\"" + q)[1..] == q;
    ReadQuoted(u, "", p);
    assert ReadValue(s[5..], false, "") == Value("" + u, p);
    assert "" + u == u;
  }

  /** parse on the unfinished tag: the URL is right, the rest of the token is skipped. */
  lemma ParseSwallowed(token: string, url: string, parent: Bookmark, text: string)
    requires parent.children != [] && '"' !in url && InHref([]).buf + Squeeze(false, url) + "\">" <= token
    ensures ParseFrom([token], parent, false, text, "")
         == Parsed(SetCurrent(parent, false, Current(parent, false).(url := Squeeze(false, url))), [])
  {
    hide Squeeze, ScanAnchor;
    var u := Squeeze(false, url);
    var head := InHref([]).buf + u + "\">";
    var p := ">" + token[|head|..];
    var str := token[1..];
    assert token == head + token[|head|..];
    assert str == "<A " + ("HREF=" + ("\"" + (u + ("\"" + p))));
    assert str[..3] == "<A " && str[3..] == "HREF=" + ("\"" + (u + ("\"" + p)));
    assert HasPrefixNoCase(str, "<a ") by { assert Lower("<A ") == Lower("<a "); }
    PrefixDiffers(str, "<dl>", 1);
    PrefixDiffers(str, "<dt>", 1);
    SqueezedChars(false, url, '"');
    ScanSwallowed(u, p, Current(parent, false).url);
    assert [token][1..] == [];
  }

  /**
   A URL ending in '=' with no quote behind it, so with no further URL bookmark, swallows
   the rest of the file: of a forest f, then such a bookmark, then folders without quotes
   in their texts, only f and the URL are read back.
   */
  lemma EqualsUrlSwallowsRest(notice: string, title: string, f: seq<Bookmark>, b: Bookmark, g: seq<Bookmark>, store: Store)
    requires IsNotice(notice) && CleanText(title) && CleanEntries(f)
    requires b.kind == URL && UrlOk(b.url) && EndsInEquals(b.url)
    requires Unquoted(b.text) && Unquoted(Entries(g))
    ensures '&' !in Document(notice, title, f + [b] + g)
    ensures ReadText(Document(notice, title, f + [b] + g), store)
         == Read(Store(Squeeze(false, title),
                       store.root.(kind := Folder, children := CanonAll(f) + [Bookmark("", Squeeze(false, b.url), URL, [])])))
  {
    hide Run, Entries, EntriesTokens, Squeeze, ReadFrom, Parse, CanonAll, Document, Lower;
    CleanHasNoAmpersand(f);
    assert '&' !in b.url;
    var rest := b.text + ("</A>\n" + (Entries(g) + "</DL><P>\n"));
    var anchor := "<A HREF=\"" + (b.url + ("\"" + (">" + rest)));
    SwallowShape(f, b, g);
    assert '&' !in Entry(b);
    HeadRun(notice, title, f + [b] + g);
    var t1 := HeadTokens(title) + [TagToken("p"), " "];
    assert Unquoted(rest);
    EntriesRun(t1, true, f, "<" + ("DT" + (">" + anchor)));
    var t2 := t1 + EntriesTokens(f);
    Tag(t2, true, "DT", anchor);
    var t3 := t2 + [TagToken("DT")];
    EqualsAnchor(t3, false, b.url, rest);
    var e := Run(Resting(t3, false), anchor);
    var toks := EntriesTokens(f) + ([TagToken("DT")] + [e.buf]);
    assert Tokenize(Document(notice, title, f + [b] + g)) == HeadTokens(title) + ([TagToken("p"), " "] + toks) by {
      assert e.buf != "";
      assert t3 + [e.buf] == HeadTokens(title) + ([TagToken("p"), " "] + toks);
    }
    var root := store.root.(children := []);
    ReadHead(title, [TagToken("p"), " "] + toks, store.(root := root));
    SwallowedBody(f, b.url, e.buf, root);
    ReadNothing(Store(Squeeze(false, title), root.(kind := Folder, children := CanonAll(f) + [Bookmark("", Squeeze(false, b.url), URL, [])])));
  }

  lemma SwallowShape(f: seq<Bookmark>, b: Bookmark, g: seq<Bookmark>)
    requires b.kind == URL
    ensures Entries(f + [b] + g) + ("</DL><P>\n" + "")
         == Entries(f) + ("<" + ("DT" + (">" + ("<A HREF=\"" + (b.url + ("\"" + (">" +
            (b.text + ("</A>\n" + (Entries(g) + "</DL><P>\n"))))))))))
    ensures Entries(f + [b] + g) == Entries(f) + Entry(b) + Entries(g)
  {
    hide Entry;
    var tail := Entries(g) + "</DL><P>\n";
    SplitEntries(f, b, g);
    UrlEntryText(b, tail);
    assert "</A>\n" + tail == "<" + ("/A" + (">" + ("\n" + tail)));
    assert Entries(f) + Entry(b) + Entries(g) + ("</DL><P>\n" + "") == Entries(f) + (Entry(b) + tail);
  }

  lemma SplitEntries(f: seq<Bookmark>, b: Bookmark, g: seq<Bookmark>)
    ensures Entries(f + [b] + g) == Entries(f) + Entry(b) + Entries(g)
  {
    hide Entry;
    EntriesAppend(f + [b], g);
    EntriesAppend(f, [b]);
    assert Entries([b]) == Entry(b) + Entries([b][1..]);
    assert Entry(b) + "" == Entry(b);
  }

  lemma SwallowedBody(f: seq<Bookmark>, url: string, token: string, root: Bookmark)
    requires CleanEntries(f) && UrlOk(url) && root.children == []
    requires InHref([]).buf + Squeeze(false, url) + "\">" <= token
    ensures Parse([TagToken("p"), " "] + (EntriesTokens(f) + ([TagToken("DT")] + [token])), root, "")
         == Parsed(root.(kind := Folder, children := CanonAll(f) + [Bookmark("", Squeeze(false, url), URL, [])]), [])
  {
    hide ParseFrom, Lower, EntriesTokens, CanonAll, Squeeze;
    var folder := root.(kind := Folder);
    var last := [TagToken("DT")] + [token];
    BodyStart(EntriesTokens(f) + last, root);
    ParseEntries(f, last, folder, true, " ", "");
    var p1 := folder.(children := folder.children + CanonAll(f));
    var t := TextAfter(f, " ");
    ParseDT([token], p1, f == [], t, "");
    var p2 := p1.(children := p1.children + [NewBookmark]);
    assert '"' !in url by { assert forall i :: 0 <= i < |url| ==> UrlChar(url[i]); }
    ParseSwallowed(token, url, p2, t);
    var child := NewBookmark.(url := Squeeze(false, url));
    assert SetCurrent(p2, false, child).children == CanonAll(f) + [child];
  }
}
