/**
 What the tokenizer makes of a written bookmark file.
 */
module BookmarkTokens {
  import opened CStrings
  import opened BookmarkLexer
  import opened BookmarkTree

  /** Characters of a title or text that reach the reader outside tags. */
  predicate TextChar(c: char) {
    c != '<' && c != '&' && c != '\n' && c != '\t' && c != '\r' && c != '\0'
  }

  /** Characters of a URL that survive inside a quoted attribute. */
  predicate UrlChar(c: char) {
    c != '"' && c != '\'' && c != '&' && c != '\n' && c != '\t' && c != '\r' && c != '\0'
  }

  predicate CleanText(t: string) {
    forall i :: 0 <= i < |t| ==> TextChar(t[i])
  }

  predicate CleanUrl(u: string) {
    && (forall i :: 0 <= i < |u| ==> UrlChar(u[i]))
    && !EndsInEquals(u)
  }

  predicate EndsInEquals(u: string) {
    u != "" && u[|u| - 1] == '='
  }

  /** Every run of blanks becomes one; after a blank (space) it disappears. */
  function Squeeze(space: bool, t: string): string
    decreases |t|
  {
    if t == "" then ""
    else if t[0] == ' ' then (if space then "" else " ") + Squeeze(true, t[1..])
    else [t[0]] + Squeeze(false, t[1..])
  }

  /** The tokens queued for text t that is followed by a tag. */
  function Words(buf: string, space: bool, t: string): seq<string>
    decreases |t|
  {
    if t == "" then Append([], buf)
    else if t[0] == ' ' then
      if space then Words(buf, true, t[1..])
      else Append([], buf) + [" "] + Words("", true, t[1..])
    else Words(buf + [t[0]], false, t[1..])
  }

  /** Tag names as write uses them. */
  predicate NameChar(c: char) {
    c != '<' && c != '>' && c != '&' && c != '\n' && c != '\t' && c != '\r' && c != '\0'
    && c != ' ' && c != '"' && c != '\'' && c != '='
  }

  predicate IsName(n: string) {
    forall i :: 0 <= i < |n| ==> NameChar(n[i])
  }

  function TagToken(name: string): string {
    [TAG_ESCAPE, '<'] + Lower(name) + ">"
  }

  /** Outside tags and comments with an empty buffer. */
  function Resting(tokens: seq<string>, space: bool): Lexer {
    Lexer("", tokens, false, false, space, false, false)
  }

  lemma {:induction false} TextThenTag(st: Lexer, t: string, r: string)
    requires !st.tag && !st.tquote && !st.comment && CleanText(t)
    requires '&' !in r && !("!-" <= r)
    ensures Run(st, t + ("<" + r)) == Run(OpenTag(st.tokens + Words(st.buf, st.space, t)), r)
    decreases |t|
  {
    hide Run, CloseTag;
    var src := t + ("<" + r);
    if t == "" {
      assert src == "<" + r && src[1..] == r;
      RunStep(st, src);
      assert Append(st.tokens, st.buf) == st.tokens + Append([], st.buf);
    } else {
      assert TextChar(t[0]);
      assert src[1..] == t[1..] + ("<" + r);
      var (nextSt, n) := Step(st, src);
      RunStep(st, src);
      TextThenTag(nextSt, t[1..], r);
      if t[0] == ' ' && !st.space {
        assert Append(st.tokens, st.buf) + [" "] + Words("", true, t[1..])
            == st.tokens + (Append([], st.buf) + [" "] + Words("", true, t[1..]));
      }
    }
  }

  lemma {:induction false} NameChars(st: Lexer, name: string, r: string)
    requires st.Valid() && st.tag && !st.tquote && !st.comment
    requires IsName(name) && name != "" && '&' !in r
    ensures Run(st, name + r) == Run(st.(buf := st.buf + name, space := false, discardCR := false), r)
    decreases |name|
  {
    assert NameChar(name[0]);
    var nextSt := st.(buf := st.buf + [name[0]], space := false, discardCR := false);
    assert (name + r)[1..] == name[1..] + r;
    assert Run(st, name + r) == Run(nextSt, name[1..] + r);
    if |name| == 1 {
      assert name[1..] + r == r && [name[0]] == name;
    } else {
      NameChars(nextSt, name[1..], r);
      assert st.buf + [name[0]] + name[1..] == st.buf + name;
    }
  }

  lemma {:induction false} LowerOfName(name: string, rest: string)
    requires IsName(name) && (rest == ">" || (rest != "" && rest[0] == ' '))
    ensures LowerName(name + rest) == Lower(name) + rest
  {
    if name == "" {
      assert name + rest == rest && Lower(name) == "" && "" + rest == rest;
      if rest == ">" {
        assert rest[1..] == "" && LowerName(rest) == [ToLower('>')] + LowerName("");
      }
    } else {
      assert NameChar(name[0]);
      assert (name + rest)[1..] == name[1..] + rest;
      LowerOfName(name[1..], rest);
      assert [ToLower(name[0])] + (Lower(name[1..]) + rest) == [ToLower(name[0])] + Lower(name[1..]) + rest;
    }
  }

  /** Text, then a tag without attributes. */
  lemma TextTag(tokens: seq<string>, space: bool, t: string, name: string, r: string)
    requires CleanText(t) && IsName(name) && name != "" && name[0] != '!' && '&' !in r
    ensures Run(Resting(tokens, space), t + ("<" + (name + (">" + r))))
         == Run(Resting(tokens + Words("", space, t) + [TagToken(name)], false), r)
  {
    assert (name + (">" + r))[0] == name[0];
    TextThenTag(Resting(tokens, space), t, name + (">" + r));
    var open := OpenTag(tokens + Words("", space, t));
    NameChars(open, name, ">" + r);
    var st := open.(buf := open.buf + name, space := false, discardCR := false);
    assert st.buf[..2] == [TAG_ESCAPE, '<'] && st.buf[2..] == name;
    LowerOfName(name, ">");
    assert (">" + r)[1..] == r;
    assert Step(st, ">" + r) == (CloseTag(st), 1);
    assert st.buf[..2] + LowerName(st.buf[2..] + ">") == TagToken(name);
  }

  lemma Tag(tokens: seq<string>, space: bool, name: string, r: string)
    requires IsName(name) && name != "" && name[0] != '!' && '&' !in r
    ensures Run(Resting(tokens, space), "<" + (name + (">" + r)))
         == Run(Resting(tokens + [TagToken(name)], false), r)
  {
    TextTag(tokens, space, "", name, r);
    assert "" + ("<" + (name + (">" + r))) == "<" + (name + (">" + r));
    assert tokens + Words("", space, "") == tokens;
  }

  lemma NewLine(tokens: seq<string>, space: bool, r: string)
    requires '&' !in r
    ensures Run(Resting(tokens, space), "\n" + r)
         == Run(Resting(if space then tokens else tokens + [" "], true), r)
  {
    assert ("\n" + r)[1..] == r;
  }

  /** A URL character inside the quotes of an attribute. */
  function UrlNext(st: Lexer, c: char): Lexer {
    if c == ' ' then (if st.space then st else st.(buf := st.buf + " ", space := true))
    else st.(buf := st.buf + [c], space := false, discardCR := false)
  }

  lemma SqueezeCons(space: bool, t: string)
    requires t != ""
    ensures Squeeze(space, t)
         == (if t[0] != ' ' then [t[0]] else if space then "" else " ") + Squeeze(t[0] == ' ', t[1..])
  {
  }

  lemma UrlNextSqueeze(st: Lexer, url: string)
    requires url != ""
    ensures UrlNext(st, url[0]).buf + Squeeze(UrlNext(st, url[0]).space, url[1..]) == st.buf + Squeeze(st.space, url)
  {
    hide Squeeze;
    SqueezeCons(st.space, url);
    var u := url[1..];
    if url[0] != ' ' {
      assert st.buf + [url[0]] + Squeeze(false, u) == st.buf + ([url[0]] + Squeeze(false, u));
    } else if st.space {
      assert "" + Squeeze(true, u) == Squeeze(true, u);
    } else {
      assert st.buf + " " + Squeeze(true, u) == st.buf + (" " + Squeeze(true, u));
    }
  }

  lemma UrlStep(st: Lexer, c: char, r: string)
    requires st.Valid() && st.tag && st.tquote && !st.comment && UrlChar(c) && '&' !in r
    ensures UrlNext(st, c).Valid()
    ensures Run(st, [c] + r) == Run(UrlNext(st, c), r)
  {
    hide Run, OpenTag, CloseTag;
    assert ([c] + r)[1..] == r;
    RunStep(st, [c] + r);
    assert Step(st, [c] + r) == (UrlNext(st, c), 1);
  }

  lemma CloseQuote(st: Lexer, r: string)
    requires st.Valid() && st.tag && st.tquote && !st.comment && '&' !in r
    requires st.buf[|st.buf| - 1] != '='
    ensures Run(st, "\"" + r)
         == Run(st.(buf := st.buf + "\" ", tquote := false, space := true, discardCR := true), r)
  {
    hide Run, OpenTag, CloseTag, Blank;
    assert ("\"" + r)[1..] == r;
    RunStep(st, "\"" + r);
  }

  lemma {:induction false} UrlThenQuote(st: Lexer, url: string, r: string)
    requires st.Valid() && st.tag && st.tquote && !st.comment
    requires forall i :: 0 <= i < |url| ==> UrlChar(url[i])
    requires st.space ==> st.buf[|st.buf| - 1] == ' '
    requires if url == "" then st.buf[|st.buf| - 1] != '=' else !EndsInEquals(url)
    requires '&' !in r && '&' !in url
    ensures Run(st, url + ("\"" + r))
         == Run(st.(buf := st.buf + Squeeze(st.space, url) + "\" ", tquote := false, space := true, discardCR := true), r)
    decreases |url|
  {
    hide Run;
    if url == "" {
      CloseQuote(st, r);
      assert url + ("\"" + r) == "\"" + r;
      assert st.buf + Squeeze(st.space, url) == st.buf;
    } else {
      var nextSt, nextR := UrlNext(st, url[0]), url[1..] + ("\"" + r);
      assert url + ("\"" + r) == [url[0]] + nextR;
      UrlStep(st, url[0], nextR);
      UrlThenQuote(nextSt, url[1..], r);
      UrlNextSqueeze(st, url);
    }
  }

  function AnchorToken(url: string): string {
    [TAG_ESCAPE, '<', 'a'] + (" HREF=\"" + Squeeze(false, url) + "\" >")
  }

  /** The state behind the opening quote of HREF. */
  function InHref(tokens: seq<string>): Lexer {
    Lexer([TAG_ESCAPE, '<', 'A'] + " HREF=\"", tokens, true, true, false, false, false)
  }

  /** A character that the lexer copies inside an unquoted tag, a blank or an equals sign. */
  lemma AttributeStep(st: Lexer, c: char, r: string)
    requires st.Valid() && st.tag && !st.tquote && !st.comment && '&' !in r && |st.buf| > 2
    requires c == ' ' || c == '=' || (c == '"' && st.buf[|st.buf| - 1] == '=')
    requires !st.space || c == '"'
    requires c == '=' ==> st.buf[|st.buf| - 1] != ' '
    ensures Run(st, [c] + r)
         == Run(st.(buf := st.buf + [c], tquote := c == '"', space := c != '"',
                    discardCR := if c == ' ' then st.discardCR else c == '='), r)
  {
    hide Run, OpenTag, CloseTag;
    assert ([c] + r)[1..] == r;
    RunStep(st, [c] + r);
  }

  lemma HrefOpen(tokens: seq<string>, space: bool, r: string)
    requires '&' !in r
    ensures Run(Resting(tokens, space), "<A HREF=\"" + r) == Run(InHref(tokens), r)
  {
    hide Run;
    var r4 := "\"" + r;
    var r3 := "=" + r4;
    var r2 := " " + ("HREF" + r3);
    assert "<A HREF=\"" + r == "" + ("<" + ("A" + r2));
    assert ("A" + r2)[0] == 'A';
    TextThenTag(Resting(tokens, space), "", "A" + r2);
    assert tokens + Words("", space, "") == tokens;
    HrefName(tokens, r3);
    HrefEquals(tokens, r);
  }

  lemma HrefName(tokens: seq<string>, r: string)
    requires '&' !in r
    ensures Run(OpenTag(tokens), "A" + (" " + ("HREF" + r)))
         == Run(Lexer([TAG_ESCAPE, '<', 'A'] + " HREF", tokens, true, false, false, false, false), r)
  {
    hide Run;
    var s0 := OpenTag(tokens);
    NameChars(s0, "A", " " + ("HREF" + r));
    var s1 := s0.(buf := s0.buf + "A", space := false, discardCR := false);
    AttributeStep(s1, ' ', "HREF" + r);
    var s2 := s1.(buf := s1.buf + " ", space := true);
    NameChars(s2, "HREF", r);
    assert s2.buf + "HREF" == [TAG_ESCAPE, '<', 'A'] + " HREF";
  }

  lemma HrefEquals(tokens: seq<string>, r: string)
    requires '&' !in r
    ensures Run(Lexer([TAG_ESCAPE, '<', 'A'] + " HREF", tokens, true, false, false, false, false), "=" + ("\"" + r))
         == Run(InHref(tokens), r)
  {
    hide Run;
    var s3 := Lexer([TAG_ESCAPE, '<', 'A'] + " HREF", tokens, true, false, false, false, false);
    AttributeStep(s3, '=', "\"" + r);
    var s4 := s3.(buf := s3.buf + "=", space := true, discardCR := true);
    AttributeStep(s4, '"', r);
    assert s4.buf + "\"" == InHref(tokens).buf;
  }

  lemma Anchor(tokens: seq<string>, space: bool, url: string, r: string)
    requires CleanUrl(url) && '&' !in url && '&' !in r
    ensures Run(Resting(tokens, space), "<A HREF=\"" + (url + ("\"" + (">" + r))))
         == Run(Resting(tokens + [AnchorToken(url)], false), r)
  {
    hide Run;
    HrefOpen(tokens, space, url + ("\"" + (">" + r)));
    var s5 := InHref(tokens);
    UrlThenQuote(s5, url, ">" + r);
    var s6 := s5.(buf := s5.buf + Squeeze(false, url) + "\" ", tquote := false, space := true, discardCR := true);
    CloseAnchor(s6, url, r);
  }

  lemma CloseAnchor(st: Lexer, url: string, r: string)
    requires st.Valid() && st.tag && !st.tquote && !st.comment && '&' !in r
    requires st.buf == InHref([]).buf + Squeeze(false, url) + "\" "
    ensures Run(st, ">" + r) == Run(Resting(st.tokens + [AnchorToken(url)], false), r)
  {
    assert (">" + r)[1..] == r;
    assert Run(st, ">" + r) == Run(CloseTag(st), r);
    AnchorName(st.buf, url);
  }

  lemma AnchorName(buf: string, url: string)
    requires buf == InHref([]).buf + Squeeze(false, url) + "\" "
    ensures buf[..2] + LowerName(buf[2..] + ">") == AnchorToken(url)
  {
    hide Squeeze;
    var attrs := " HREF=\"" + Squeeze(false, url) + "\" >";
    assert buf[2..] + ">" == "A" + attrs;
    LowerOfName("A", attrs);
    assert Lower("A") == "a";
  }

  /** Text that does not end a comment. */
  predicate IsCommentBody(body: string) {
    && '&' !in body && '\0' !in body
    && forall i :: 0 <= i < |body| - 1 ==> body[i] != '-' || body[i + 1] != '>'
  }

  lemma {:induction false} CommentBody(st: Lexer, body: string, r: string)
    requires st.Valid() && st.comment && IsCommentBody(body) && '&' !in r
    ensures Run(st, body + ("->" + r)) == Run(st.(comment := false), r)
    decreases |body|
  {
    var src := body + ("->" + r);
    if body == "" {
      assert src == "->" + r && src[2..] == r;
    } else {
      assert src[1..] == body[1..] + ("->" + r);
      assert src[0] == body[0] && src[1] == if |body| == 1 then '-' else body[1];
      assert Step(st, src) == (st, 1);
      CommentBody(st, body[1..], r);
    }
  }

  /** The comment line that write asks the translator for. */
  ghost predicate IsNotice(notice: string) {
    exists body ::
      && notice == "<!-" + (body + "->")
      && IsCommentBody(body)
  }

  /** The text in the source, used when there is no translation. */
  const NOTICE := "<!-" + ("- Do not edit this file -" + "->")

  lemma NoticeIsNotice()
    ensures IsNotice(NOTICE)
  {
    var body := "- Do not edit this file -";
    assert '>' !in body && '&' !in body && '\0' !in body;
    assert IsCommentBody(body);
  }

  lemma CommentOpen(tokens: seq<string>, space: bool, r: string)
    requires '&' !in r
    ensures Run(Resting(tokens, space), "<!-" + r) == Run(Resting(tokens, space).(comment := true), r)
  {
    var src := "<!-" + r;
    assert src[1..][..2] == "!-" && src[3..] == r;
    assert Step(Resting(tokens, space), src) == (Resting(tokens, space).(comment := true), 3);
  }

  lemma Notice(tokens: seq<string>, space: bool, notice: string, r: string)
    requires IsNotice(notice) && '&' !in r
    ensures '&' !in notice
    ensures Run(Resting(tokens, space), notice + r) == Run(Resting(tokens, space), r)
  {
    hide Run;
    var body :|
      && notice == "<!-" + (body + "->")
      && IsCommentBody(body);
    assert notice + r == "<!-" + (body + ("->" + r));
    CommentOpen(tokens, space, body + ("->" + r));
    CommentBody(Resting(tokens, space).(comment := true), body, r);
  }

  // ---- Whole entries ----

  /** Texts and URLs that write emits are clean. */
  predicate CleanEntries(f: seq<Bookmark>) {
    f == [] || (CleanEntry(f[0]) && CleanEntries(f[1..]))
  }

  predicate CleanEntry(b: Bookmark) {
    CleanText(b.text) && if b.kind == URL then CleanUrl(b.url) else CleanEntries(b.children)
  }

  function EntriesTokens(f: seq<Bookmark>): seq<string> {
    if f == [] then [] else EntryTokens(f[0]) + EntriesTokens(f[1..])
  }

  function EntryTokens(b: Bookmark): seq<string> {
    if b.kind == URL then
      [TagToken("DT"), AnchorToken(b.url)] + Words("", false, b.text) + [TagToken("/A"), " "]
    else
      [TagToken("DT"), TagToken("H3")] + Words("", false, b.text) + [TagToken("/H3"), " "]
      + [TagToken("DL"), TagToken("P"), " "] + EntriesTokens(b.children) + [TagToken("/DL"), TagToken("P"), " "]
  }

  lemma {:induction false} CleanHasNoAmpersand(f: seq<Bookmark>)
    requires CleanEntries(f)
    ensures '&' !in Entries(f)
  {
    if f != [] {
      var b := f[0];
      assert '&' !in b.text && (b.kind == URL ==> '&' !in b.url);
      if b.kind != URL {
        CleanHasNoAmpersand(b.children);
      }
      CleanHasNoAmpersand(f[1..]);
    }
  }

  lemma UrlEntryText(b: Bookmark, r: string)
    requires b.kind == URL
    ensures Entry(b) + r
         == "<" + ("DT" + (">" + ("<A HREF=\"" + (b.url + ("\"" + (">" + (b.text + ("<" + ("/A" + (">" + ("\n" + r)))))))))))
  {
    var tail := "<" + ("/A" + (">" + ("\n" + r)));
    assert "</A>\n" + r == tail;
    assert "\">" + (b.text + tail) == "\"" + (">" + (b.text + tail));
    assert Entry(b) + r == "<DT><A HREF=\"" + (b.url + ("\">" + (b.text + ("</A>\n" + r))));
  }

  lemma UrlEntry(tokens: seq<string>, space: bool, b: Bookmark, r: string)
    requires b.kind == URL && CleanEntry(b) && '&' !in r && '&' !in Entry(b)
    ensures Run(Resting(tokens, space), Entry(b) + r) == Run(Resting(tokens + EntryTokens(b), true), r)
  {
    hide Run, Words, Lower, Squeeze, Entry;
    var r1 := b.text + ("<" + ("/A" + (">" + ("\n" + r))));
    var r0 := "<A HREF=\"" + (b.url + ("\"" + (">" + r1)));
    UrlEntryText(b, r);
    Tag(tokens, space, "DT", r0);
    var t1 := tokens + [TagToken("DT")];
    Anchor(t1, false, b.url, r1);
    var t2 := t1 + [AnchorToken(b.url)];
    TextTag(t2, false, b.text, "/A", "\n" + r);
    var t3 := t2 + Words("", false, b.text) + [TagToken("/A")];
    NewLine(t3, false, r);
    Glue(tokens, TagToken("DT"), AnchorToken(b.url), Words("", false, b.text), TagToken("/A"), " ");
  }

  lemma Glue<T>(s: seq<T>, a: T, b: T, w: seq<T>, c: T, d: T)
    ensures s + [a] + [b] + w + [c] + [d] == s + ([a, b] + w + [c, d])
  {
  }

  lemma FolderHead(tokens: seq<string>, space: bool, text: string, r: string)
    requires CleanText(text) && '&' !in text && '&' !in r
    ensures Run(Resting(tokens, space), "<DT><H3>" + (text + ("</H3>\n<DL><P>\n" + r)))
         == Run(Resting(tokens + ([TagToken("DT"), TagToken("H3")] + Words("", false, text) + [TagToken("/H3"), " "]
                                  + [TagToken("DL"), TagToken("P"), " "]), true), r)
  {
    hide Run, Words, Lower;
    var r2 := "<" + ("DL" + (">" + ("<" + ("P" + (">" + ("\n" + r))))));
    var r1 := text + ("<" + ("/H3" + (">" + ("\n" + r2))));
    var r0 := "<" + ("H3" + (">" + r1));
    FolderShape(text, r);
    Tag(tokens, space, "DT", r0);
    var t1 := tokens + [TagToken("DT")];
    Tag(t1, false, "H3", r1);
    var t2 := t1 + [TagToken("H3")];
    TextTag(t2, false, text, "/H3", "\n" + r2);
    var t3 := t2 + Words("", false, text) + [TagToken("/H3")];
    NewLine(t3, false, r2);
    var t4 := t3 + [" "];
    NestedStart(t4, r);
    Glue(tokens, TagToken("DT"), TagToken("H3"), Words("", false, text), TagToken("/H3"), " ");
    assert t4 + [TagToken("DL"), TagToken("P"), " "]
        == tokens + ([TagToken("DT"), TagToken("H3")] + Words("", false, text) + [TagToken("/H3"), " "]
                     + [TagToken("DL"), TagToken("P"), " "]);
  }

  lemma FolderShape(text: string, r: string)
    ensures "<DT><H3>" + (text + ("</H3>\n<DL><P>\n" + r))
         == "<" + ("DT" + (">" + ("<" + ("H3" + (">" + (text + ("<" + ("/H3" + (">" + ("\n" +
            ("<" + ("DL" + (">" + ("<" + ("P" + (">" + ("\n" + r)))))))))))))))))
  {
    var t1 := "<" + ("DL" + (">" + ("<" + ("P" + (">" + ("\n" + r))))));
    var t2 := "<" + ("/H3" + (">" + ("\n" + t1)));
    assert "<DL><P>\n" + r == t1;
    assert "</H3>\n" + t1 == t2;
    assert "</H3>\n<DL><P>\n" == "</H3>\n" + "<DL><P>\n";
    assert "<DT><H3>" + (text + t2) == "<" + ("DT" + (">" + ("<" + ("H3" + (">" + (text + t2))))));
  }

  lemma NestedStart(tokens: seq<string>, r: string)
    requires '&' !in r
    ensures Run(Resting(tokens, true), "<" + ("DL" + (">" + ("<" + ("P" + (">" + ("\n" + r)))))))
         == Run(Resting(tokens + [TagToken("DL"), TagToken("P"), " "], true), r)
  {
    hide Run, Lower;
    Tag(tokens, true, "DL", "<" + ("P" + (">" + ("\n" + r))));
    var t1 := tokens + [TagToken("DL")];
    Tag(t1, false, "P", "\n" + r);
    var t2 := t1 + [TagToken("P")];
    NewLine(t2, false, r);
    assert t2 + [" "] == tokens + [TagToken("DL"), TagToken("P"), " "];
  }

  lemma ListEnd(tokens: seq<string>, space: bool, r: string)
    requires '&' !in r
    ensures Run(Resting(tokens, space), "</DL><P>\n" + r)
         == Run(Resting(tokens + [TagToken("/DL"), TagToken("P"), " "], true), r)
  {
    hide Run;
    var r1 := "<" + ("P" + (">" + ("\n" + r)));
    assert "</DL><P>\n" + r == "<" + ("/DL" + (">" + r1));
    Tag(tokens, space, "/DL", r1);
    var t1 := tokens + [TagToken("/DL")];
    Tag(t1, false, "P", "\n" + r);
    NewLine(t1 + [TagToken("P")], false, r);
    assert t1 + [TagToken("P")] + [" "] == tokens + [TagToken("/DL"), TagToken("P"), " "];
  }

  /** Tokenizing the written entries queues exactly EntriesTokens. */
  lemma {:induction false} EntriesRun(tokens: seq<string>, space: bool, f: seq<Bookmark>, r: string)
    requires CleanEntries(f) && '&' !in Entries(f) && '&' !in r
    ensures Run(Resting(tokens, space), Entries(f) + r)
         == Run(Resting(tokens + EntriesTokens(f), f != [] || space), r)
    decreases f
  {
    hide Run, Entry, EntryTokens;
    if f == [] {
      assert Entries(f) + r == r && tokens + EntriesTokens(f) == tokens;
    } else {
      var b, rest := f[0], Entries(f[1..]) + r;
      assert Entries(f) + r == Entry(b) + rest;
      if b.kind == URL {
        UrlEntry(tokens, space, b, rest);
      } else {
        FolderEntry(tokens, space, b, rest);
      }
      EntriesRun(tokens + EntryTokens(b), true, f[1..], r);
      assert tokens + EntryTokens(b) + EntriesTokens(f[1..]) == tokens + EntriesTokens(f);
    }
  }

  lemma {:induction false} FolderEntry(tokens: seq<string>, space: bool, b: Bookmark, r: string)
    requires b.kind != URL && CleanEntry(b) && '&' !in r && '&' !in Entry(b)
    ensures Run(Resting(tokens, space), Entry(b) + r) == Run(Resting(tokens + EntryTokens(b), true), r)
    decreases b
  {
    hide Run, Words, Lower, Entries, EntriesTokens;
    var kids := Entries(b.children);
    var r1 := kids + ("</DL><P>\n" + r);
    FolderEntryText(b, r);
    FolderHead(tokens, space, b.text, r1);
    var t1 := tokens + ([TagToken("DT"), TagToken("H3")] + Words("", false, b.text) + [TagToken("/H3"), " "]
                        + [TagToken("DL"), TagToken("P"), " "]);
    EntriesRun(t1, true, b.children, "</DL><P>\n" + r);
    var t2 := t1 + EntriesTokens(b.children);
    ListEnd(t2, true, r);
    FolderEntryTokens(tokens, b);
  }

  lemma FolderEntryText(b: Bookmark, r: string)
    requires b.kind != URL
    ensures Entry(b) + r == "<DT><H3>" + (b.text + ("</H3>\n<DL><P>\n" + (Entries(b.children) + ("</DL><P>\n" + r))))
  {
    hide Entries;
    var kids := Entries(b.children);
    assert "</H3>\n<DL><P>\n" == "</H3>\n" + "<DL><P>\n";
    FiveStrings("<DT><H3>", b.text, "</H3>\n", "<DL><P>\n", kids, "</DL><P>\n", r);
  }

  lemma FiveStrings(a: string, b: string, c: string, d: string, e: string, f: string, r: string)
    ensures a + b + c + d + e + f + r == a + (b + ((c + d) + (e + (f + r))))
  {
  }

  lemma FolderEntryTokens(tokens: seq<string>, b: Bookmark)
    requires b.kind != URL
    ensures tokens + ([TagToken("DT"), TagToken("H3")] + Words("", false, b.text) + [TagToken("/H3"), " "]
                      + [TagToken("DL"), TagToken("P"), " "]) + EntriesTokens(b.children) + [TagToken("/DL"), TagToken("P"), " "]
         == tokens + EntryTokens(b)
  {
    hide Words, Lower, EntriesTokens, TagToken;
  }
}
