/**
 Reading back what write produced.  The main result is ReadWritten, for every title and
 forest whose strings are clean.
 */
module BookmarkRoundTrip {
  import opened CStrings
  import opened BookmarkLexer
  import opened BookmarkTree
  import opened BookmarkTokens

  /** What survives a round trip: squeezed strings, no children below a URL, no URL on a folder. */
  function Canon(b: Bookmark): Bookmark {
    if b.kind == URL then Bookmark(Squeeze(false, b.text), Squeeze(false, b.url), URL, [])
    else Bookmark(Squeeze(false, b.text), "", Folder, CanonAll(b.children))
  }

  function CanonAll(f: seq<Bookmark>): (r: seq<Bookmark>)
    ensures |r| == |f|
  {
    if f == [] then [] else [Canon(f[0])] + CanonAll(f[1..])
  }

  // ---- Words and squeezed text ----

  lemma {:induction false} SqueezedChars(space: bool, t: string, c: char)
    ensures c in Squeeze(space, t) ==> c in t
    decreases |t|
  {
    if t != "" {
      SqueezedChars(t[0] == ' ', t[1..], c);
    }
  }

  predicate NoTags(ws: seq<string>) {
    forall i :: 0 <= i < |ws| ==> !IsTag(ws[i])
  }

  lemma {:induction false} WordsOfText(buf: string, space: bool, t: string)
    requires CleanText(t) && !IsTag(buf)
    ensures NoTags(Words(buf, space, t))
    ensures Join(Words(buf, space, t)) == buf + Squeeze(space, t)
    decreases |t|
  {
    if t == "" {
      JoinOne(buf);
      assert buf + Squeeze(space, t) == buf;
    } else {
      assert TextChar(t[0]);
      if t[0] == ' ' && !space {
        WordsOfText("", true, t[1..]);
        assert buf + (" " + ("" + Squeeze(true, t[1..]))) == buf + (" " + Squeeze(true, t[1..]));
      } else if t[0] == ' ' {
        WordsOfText(buf, true, t[1..]);
        assert "" + Squeeze(true, t[1..]) == Squeeze(true, t[1..]);
      } else {
        WordsOfText(buf + [t[0]], false, t[1..]);
        assert buf + [t[0]] + Squeeze(false, t[1..]) == buf + ([t[0]] + Squeeze(false, t[1..]));
      }
    }
  }

  lemma JoinOne(s: string)
    ensures Join([s]) == s
  {
    assert Join([s]) == s + Join([s][1..]);
  }

  // ---- The tokens of the whole document ----

  function DoctypeToken(name: string, attr: string): string {
    [TAG_ESCAPE, '<'] + (Lower(name) + (" " + (attr + ">")))
  }

  /** The tokens up to the first list. */
  function HeadTokens(title: string): seq<string> {
    [DoctypeToken("!DOCTYPE", "KDEHELP-Bookmark-file"), " ", TagToken("TITLE")] + Words("", false, title)
    + [TagToken("/TITLE"), " ", TagToken("H1")] + Words("", false, title)
    + [TagToken("/H1"), " ", TagToken("DL")]
  }

  function DocumentTokens(title: string, f: seq<Bookmark>): seq<string> {
    HeadTokens(title) + ([TagToken("p"), " "] + (EntriesTokens(f) + [TagToken("/DL"), TagToken("P"), " "]))
  }

  lemma NothingFirst()
    ensures Start.tokens + Words("", false, "") == []
  {
  }

  lemma NoComment(name: string, r: string)
    requires |name| >= 2 && name[1] != '-'
    ensures !("!-" <= name + r)
  {
    assert (name + r)[1] == name[1];
  }

  lemma DoctypeRun(name: string, attr: string, r: string)
    requires IsName(name) && IsName(attr) && name != "" && attr != "" && |name| >= 2 && name[1] != '-'
    requires '&' !in name && '&' !in attr && '&' !in r
    ensures Run(Start, "<" + (name + (" " + (attr + (">" + r))))) == Run(Resting([DoctypeToken(name, attr)], false), r)
  {
    hide Run, Words, Resting, DoctypeToken, IsName;
    var r2 := attr + (">" + r);
    var r1 := " " + r2;
    var r0 := name + r1;
    assert '&' !in r2 && '&' !in r1 && '&' !in r0;
    assert "" + ("<" + r0) == "<" + r0;
    NoComment(name, r1);
    TextThenTag(Start, "", r0);
    NothingFirst();
    var s0 := OpenTag([]);
    NameChars(s0, name, r1);
    var s1 := s0.(buf := s0.buf + name, space := false, discardCR := false);
    AttributeStep(s1, ' ', attr + (">" + r));
    var s2 := s1.(buf := s1.buf + " ", space := true);
    NameChars(s2, attr, ">" + r);
    DoctypeClose(s2.(buf := s2.buf + attr, space := false, discardCR := false), name, attr, r);
  }

  lemma DoctypeClose(st: Lexer, name: string, attr: string, r: string)
    requires '&' !in r && IsName(name)
    requires st == Lexer([TAG_ESCAPE, '<'] + name + " " + attr, [], true, false, false, false, false)
    ensures Run(st, ">" + r) == Run(Resting([DoctypeToken(name, attr)], false), r)
  {
    assert (">" + r)[1..] == r;
    assert Run(st, ">" + r) == Run(CloseTag(st), r);
    var rest := " " + (attr + ">");
    assert st.buf[..2] == [TAG_ESCAPE, '<'] && st.buf[2..] + ">" == name + rest;
    LowerOfName(name, rest);
    assert CloseTag(st).tokens == [DoctypeToken(name, attr)];
  }

  /** A text element on a line of its own. */
  lemma ElementLine(tokens: seq<string>, open: string, text: string, close: string, r: string)
    requires CleanText(text) && '&' !in text && '&' !in r
    requires IsName(open) && open != "" && open[0] != '!' && '&' !in open
    requires IsName(close) && close != "" && close[0] != '!' && '&' !in close
    ensures Run(Resting(tokens, true), ElementText(open, text, close, r))
         == Run(Resting(tokens + ([TagToken(open)] + Words("", false, text) + [TagToken(close), " "]), true), r)
  {
    hide Run, Words, Lower;
    Tag(tokens, true, open, text + ("<" + (close + (">" + ("\n" + r)))));
    var t1 := tokens + [TagToken(open)];
    TextTag(t1, false, text, close, "\n" + r);
    var t2 := t1 + Words("", false, text) + [TagToken(close)];
    NewLine(t2, false, r);
    assert t2 + [" "] == tokens + ([TagToken(open)] + Words("", false, text) + [TagToken(close), " "]);
  }

  function ElementText(open: string, text: string, close: string, r: string): string {
    "<" + (open + (">" + (text + ("<" + (close + (">" + ("\n" + r)))))))
  }

  lemma DocumentShape(notice: string, title: string, f: seq<Bookmark>)
    ensures Document(notice, title, f)
         == "<" + ("!DOCTYPE" + (" " + ("KDEHELP-Bookmark-file" + (">" + ("\n" + (notice + ("\n"
            + ElementText("TITLE", title, "/TITLE", ElementText("H1", title, "/H1",
              "<" + ("DL" + (">" + ("<" + ("p" + (">" + ("\n" + (Entries(f) + ("</DL><P>\n" + "")))))))))))))))))
  {
    hide Entries, ElementText;
    var tail := Entries(f) + ("</DL><P>\n" + "");
    var dl := "<DL><p>\n" + tail;
    BodyShape(tail);
    HeadingShape(title, dl);
    TitleShape(title, "<H1>" + (title + ("</H1>\n" + dl)));
    var rest := "<TITLE>" + (title + ("</TITLE>\n" + ("<H1>" + (title + ("</H1>\n" + dl)))));
    Reassociate(DOCTYPE, "\n", notice, "\n", "<TITLE>", title, "</TITLE>\n", "<H1>", "</H1>\n",
      "<DL><p>\n", Entries(f), "</DL><P>\n");
    assert Entries(f) + "</DL><P>\n" == tail;
  }

  lemma Reassociate(a: string, n: string, b: string, c: string, d: string, t: string, e: string, g: string, h: string, i: string, j: string, k: string)
    ensures a + n + b + c + d + t + e + g + t + h + i + j + k
         == a + (n + (b + (c + (d + (t + (e + (g + (t + (h + (i + (j + k)))))))))))
  {
    var x := a + n + b + c + d + t + e;
    assert x + g + t + h + i + j + k == x + (g + (t + (h + (i + (j + k)))));
    assert x + (g + (t + (h + (i + (j + k))))) == a + (n + (b + (c + (d + (t + (e + (g + (t + (h + (i + (j + k)))))))))));
  }

  lemma BodyShape(r: string)
    ensures "<DL><p>\n" + r == "<" + ("DL" + (">" + ("<" + ("p" + (">" + ("\n" + r))))))
  {
    assert "<DL><p>\n" == "<" + ("DL" + (">" + ("<" + ("p" + (">" + "\n")))));
  }

  lemma HeadingShape(text: string, r: string)
    ensures "<H1>" + (text + ("</H1>\n" + r)) == ElementText("H1", text, "/H1", r)
  {
    assert "<H1>" == "<" + "H1" + ">" && "</H1>\n" == "<" + "/H1" + ">" + "\n";
  }

  lemma TitleShape(text: string, r: string)
    ensures "<TITLE>" + (text + ("</TITLE>\n" + r)) == ElementText("TITLE", text, "/TITLE", r)
  {
    assert "<TITLE>" == "<" + "TITLE" + ">" && "</TITLE>\n" == "<" + "/TITLE" + ">" + "\n";
  }

  /** The fixed lines of the document, whatever the entries are. */
  lemma HeadRun(notice: string, title: string, f: seq<Bookmark>)
    requires IsNotice(notice) && CleanText(title) && '&' !in Entries(f)
    ensures '&' !in Document(notice, title, f)
    ensures Run(Start, Document(notice, title, f))
         == Run(Resting(HeadTokens(title) + [TagToken("p"), " "], true), Entries(f) + ("</DL><P>\n" + ""))
  {
    hide Run, Document, Entries, ElementText;
    DocumentShape(notice, title, f);
    var r5 := Entries(f) + ("</DL><P>\n" + "");
    TitleLinesRun(title, r5);
    FirstLines(notice, TitleLines(title, r5));
  }

  function TitleLines(title: string, r: string): string {
    ElementText("TITLE", title, "/TITLE", ElementText("H1", title, "/H1",
      "<" + ("DL" + (">" + ("<" + ("p" + (">" + ("\n" + r))))))))
  }

  lemma NamesOfHead()
    ensures IsName("TITLE") && IsName("/TITLE") && IsName("H1") && IsName("/H1")
    ensures '&' !in "TITLE" && '&' !in "/TITLE" && '&' !in "H1" && '&' !in "/H1"
  {
  }

  lemma TitleLinesRun(title: string, r: string)
    requires CleanText(title) && '&' !in r
    ensures '&' !in TitleLines(title, r)
    ensures Run(Resting([DoctypeToken("!DOCTYPE", "KDEHELP-Bookmark-file"), " "], true), TitleLines(title, r))
         == Run(Resting(HeadTokens(title) + [TagToken("p"), " "], true), r)
  {
    hide Run, Words, Lower, TagToken, IsName;
    NamesOfHead();
    assert '&' !in title;
    var r4 := "<" + ("DL" + (">" + ("<" + ("p" + (">" + ("\n" + r))))));
    var t2 := [DoctypeToken("!DOCTYPE", "KDEHELP-Bookmark-file"), " "];
    ElementLine(t2, "TITLE", title, "/TITLE", ElementText("H1", title, "/H1", r4));
    var t3 := t2 + ([TagToken("TITLE")] + Words("", false, title) + [TagToken("/TITLE"), " "]);
    ElementLine(t3, "H1", title, "/H1", r4);
    var t4 := t3 + ([TagToken("H1")] + Words("", false, title) + [TagToken("/H1"), " "]);
    ListStart(t4, r);
    assert t4 + [TagToken("DL"), TagToken("p"), " "] == HeadTokens(title) + [TagToken("p"), " "];
  }

  /** The document type and the comment. */
  lemma FirstLines(notice: string, r: string)
    requires IsNotice(notice) && '&' !in r
    ensures '&' !in notice
    ensures Run(Start, "<" + ("!DOCTYPE" + (" " + ("KDEHELP-Bookmark-file" + (">" + ("\n" + (notice + ("\n" + r))))))))
         == Run(Resting([DoctypeToken("!DOCTYPE", "KDEHELP-Bookmark-file"), " "], true), r)
  {
    hide Run, Lower;
    Notice([], true, notice, "\n" + r);
    DoctypeRun("!DOCTYPE", "KDEHELP-Bookmark-file", "\n" + (notice + ("\n" + r)));
    var t1 := [DoctypeToken("!DOCTYPE", "KDEHELP-Bookmark-file")];
    NewLine(t1, false, notice + ("\n" + r));
    Notice(t1 + [" "], true, notice, "\n" + r);
    NewLine(t1 + [" "], true, r);
    assert t1 + [" "] == [DoctypeToken("!DOCTYPE", "KDEHELP-Bookmark-file"), " "];
  }

  lemma ListStart(tokens: seq<string>, r: string)
    requires '&' !in r
    ensures Run(Resting(tokens, true), "<" + ("DL" + (">" + ("<" + ("p" + (">" + ("\n" + r)))))))
         == Run(Resting(tokens + [TagToken("DL"), TagToken("p"), " "], true), r)
  {
    hide Run, Lower;
    Tag(tokens, true, "DL", "<" + ("p" + (">" + ("\n" + r))));
    var t5 := tokens + [TagToken("DL")];
    Tag(t5, false, "p", "\n" + r);
    var t6 := t5 + [TagToken("p")];
    NewLine(t6, false, r);
    assert t6 + [" "] == tokens + [TagToken("DL"), TagToken("p"), " "];
  }

  /** Tokenizing a written document gives exactly DocumentTokens. */
  lemma DocumentRun(notice: string, title: string, f: seq<Bookmark>)
    requires IsNotice(notice) && CleanText(title) && CleanEntries(f)
    ensures '&' !in Document(notice, title, f)
    ensures Tokenize(Document(notice, title, f)) == DocumentTokens(title, f)
  {
    hide Run, Document, Words, Lower, Entries, EntriesTokens;
    CleanHasNoAmpersand(f);
    HeadRun(notice, title, f);
    var t7 := HeadTokens(title) + [TagToken("p"), " "];
    EntriesRun(t7, true, f, "</DL><P>\n" + "");
    var t8 := t7 + EntriesTokens(f);
    ListEnd(t8, true, "");
    var t9 := t8 + [TagToken("/DL"), TagToken("P"), " "];
    NothingLeft(Resting(t9, true));
    assert t9 == DocumentTokens(title, f);
  }

  lemma NothingLeft(st: Lexer)
    requires st.Valid()
    ensures Run(st, "") == st
  {
  }

  // ---- Parsing those tokens ----

  lemma PrefixDiffers(s: string, p: string, i: nat)
    requires i < |p| && (|s| < |p| || ToLower(s[i]) != ToLower(p[i]))
    ensures !HasPrefixNoCase(s, p)
  {
    if |p| <= |s| {
      assert Lower(s[..|p|])[i] == ToLower(s[i]) && Lower(p)[i] == ToLower(p[i]);
    }
  }

  lemma EqualDiffers(s: string, p: string, i: nat)
    requires i < |p| && (|s| != |p| || ToLower(s[i]) != ToLower(p[i]))
    ensures !EqualNoCase(s, p)
  {
    if |s| == |p| {
      assert Lower(s)[i] == ToLower(s[i]) && Lower(p)[i] == ToLower(p[i]);
    } else {
      assert |Lower(s)| != |Lower(p)|;
    }
  }

  /** The end markers parse is called with. */
  predicate IsEnd(end: string) {
    end == "" || end == "</dl>"
  }

  lemma ParseWord(w: string, rest: seq<string>, parent: Bookmark, atParent: bool, text: string, end: string)
    requires !IsTag(w) && (!atParent ==> parent.children != [])
    ensures ParseFrom([w] + rest, parent, atParent, text, end) == ParseFrom(rest, parent, atParent, text + w, end)
  {
    assert ([w] + rest)[1..] == rest;
  }

  lemma {:induction false} ParseWords(ws: seq<string>, rest: seq<string>, parent: Bookmark, atParent: bool, text: string, end: string)
    requires NoTags(ws) && (!atParent ==> parent.children != [])
    ensures ParseFrom(ws + rest, parent, atParent, text, end) == ParseFrom(rest, parent, atParent, text + Join(ws), end)
  {
    hide ParseFrom;
    if ws == [] {
      assert ws + rest == rest && text + Join(ws) == text;
    } else {
      assert ws + rest == [ws[0]] + (ws[1..] + rest);
      ParseWord(ws[0], ws[1..] + rest, parent, atParent, text, end);
      ParseWords(ws[1..], rest, parent, atParent, text + ws[0], end);
      assert text + ws[0] + Join(ws[1..]) == text + Join(ws);
    }
  }

  lemma ParseDT(rest: seq<string>, parent: Bookmark, atParent: bool, text: string, end: string)
    requires IsEnd(end) && (!atParent ==> parent.children != [])
    ensures ParseFrom([TagToken("DT")] + rest, parent, atParent, text, end)
         == ParseFrom(rest, parent.(children := parent.children + [NewBookmark]), false, text, end)
  {
    var str := TagToken("DT")[1..];
    assert str == "<dt>";
    EqualDiffers(str, "</dl>", 1);
    PrefixDiffers(str, "<dl>", 2);
    assert HasPrefixNoCase(str, "<dt>") by { assert str[..4] == "<dt>"; }
    assert ([TagToken("DT")] + rest)[1..] == rest;
  }

  lemma CloseIsNothingElse(str: string)
    requires |str| > 2 && str[1] == '/' && (str[2] == 'a' || str[2] == 'h')
    ensures !EqualNoCase(str, "</dl>") && !HasPrefixNoCase(str, "<dl>") && !HasPrefixNoCase(str, "<dt>")
    ensures !HasPrefixNoCase(str, "<a ") && !HasPrefixNoCase(str, "<H3")
  {
    EqualDiffers(str, "</dl>", 2);
    PrefixDiffers(str, "<dl>", 1);
    PrefixDiffers(str, "<dt>", 1);
    PrefixDiffers(str, "<a ", 1);
    PrefixDiffers(str, "<H3", 1);
  }

  lemma CloseTags()
    ensures TagToken("/A") == [TAG_ESCAPE] + "</a>" && HasPrefixNoCase("</a>", "</a>")
    ensures TagToken("/H3") == [TAG_ESCAPE] + "</h3>" && HasPrefixNoCase("</h3>", "</H3>")
  {
    assert "</a>"[..4] == "</a>" && "</h3>"[..5] == "</h3>";
    assert Lower("</h3>") == Lower("</H3>");
  }

  lemma ParseClose(name: string, rest: seq<string>, parent: Bookmark, atParent: bool, text: string, end: string)
    requires name == "/A" || name == "/H3"
    requires IsEnd(end) && (!atParent ==> parent.children != [])
    ensures ParseFrom([TagToken(name)] + rest, parent, atParent, text, end)
         == ParseFrom(rest, SetCurrent(parent, atParent, Current(parent, atParent).(text := text)), atParent, text, end)
  {
    hide HasPrefixNoCase, EqualNoCase, Lower;
    CloseTags();
    var str := TagToken(name)[1..];
    assert str == if name == "/A" then "</a>" else "</h3>";
    CloseIsNothingElse(str);
    assert ([TagToken(name)] + rest)[1..] == rest;
  }

  lemma ParseH3(rest: seq<string>, parent: Bookmark, atParent: bool, text: string, end: string)
    requires IsEnd(end) && (!atParent ==> parent.children != [])
    ensures ParseFrom([TagToken("H3")] + rest, parent, atParent, text, end) == ParseFrom(rest, parent, atParent, "", end)
  {
    var str := TagToken("H3")[1..];
    assert str == "<h3>";
    EqualDiffers(str, "</dl>", 1);
    PrefixDiffers(str, "<dl>", 1);
    PrefixDiffers(str, "<dt>", 1);
    PrefixDiffers(str, "<a ", 1);
    assert HasPrefixNoCase(str, "<H3") by { assert str[..3] == "<h3" && Lower("<h3") == Lower("<H3"); }
    assert ([TagToken("H3")] + rest)[1..] == rest;
  }

  /** <p> means nothing to parse, and </dl> nothing without an end marker. */
  lemma ParseIgnored(name: string, rest: seq<string>, parent: Bookmark, atParent: bool, text: string, end: string)
    requires name == "P" || name == "p" || (name == "/DL" && end == "")
    requires IsEnd(end) && (!atParent ==> parent.children != [])
    ensures ParseFrom([TagToken(name)] + rest, parent, atParent, text, end) == ParseFrom(rest, parent, atParent, text, end)
  {
    var str := TagToken(name)[1..];
    assert str[1] == if name == "/DL" then '/' else 'p';
    if name != "/DL" {
      EqualDiffers(str, "</dl>", 1);
    }
    PrefixDiffers(str, "<dl>", 1);
    PrefixDiffers(str, "<dt>", 1);
    PrefixDiffers(str, "<a ", 1);
    PrefixDiffers(str, "<H3", 1);
    PrefixDiffers(str, "</H3>", if name == "/DL" then 2 else 1);
    PrefixDiffers(str, "</a>", if name == "/DL" then 2 else 1);
    assert ([TagToken(name)] + rest)[1..] == rest;
  }

  lemma ParseEnd(rest: seq<string>, parent: Bookmark, atParent: bool, text: string)
    requires !atParent ==> parent.children != []
    ensures ParseFrom([TagToken("/DL")] + rest, parent, atParent, text, "</dl>") == Parsed(parent, rest)
  {
    assert TagToken("/DL")[1..] == "</dl>";
    assert ([TagToken("/DL")] + rest)[1..] == rest;
  }

  lemma ParseDL(rest: seq<string>, parent: Bookmark, atParent: bool, text: string, end: string)
    requires IsEnd(end) && (!atParent ==> parent.children != [])
    ensures ParseFrom([TagToken("DL")] + rest, parent, atParent, text, end)
         == match Parse(rest, Current(parent, atParent), "</dl>")
            case Crash => Crash
            case Parsed(b, nextRest) => ParseFrom(nextRest, SetCurrent(parent, atParent, b), atParent, text, end)
  {
    var str := TagToken("DL")[1..];
    assert str == "<dl>";
    EqualDiffers(str, "</dl>", 1);
    assert HasPrefixNoCase(str, "<dl>") by { assert str[..4] == "<dl>"; }
    assert ([TagToken("DL")] + rest)[1..] == rest;
  }

  lemma {:induction false} ReadQuoted(u: string, text: string, p: string)
    requires '"' !in u && p != "" && (p[0] == ' ' || p[0] == '>')
    ensures ReadValue(u + ("\"" + p), true, text) == Value(text + u, p)
    decreases |u|
  {
    var s := u + ("\"" + p);
    if u == "" {
      assert s == "\"" + p && s[1..] == p && text + u == text;
    } else {
      assert s[1..] == u[1..] + ("\"" + p);
      ReadQuoted(u[1..], text + [u[0]], p);
      assert text + [u[0]] + u[1..] == text + u;
    }
  }

  lemma ScanHref(u: string, url: string)
    requires '"' !in u
    ensures ScanAnchor("HREF=" + ("\"" + (u + ("\"" + " >"))), url) == Value(u, ">")
  {
    var q := u + ("\"" + " >");
    var p := "HREF=" + ("\"" + q);
    assert HasPrefixNoCase(p, "href=") by { assert p[..5] == "HREF=" && Lower("HREF=") == Lower("href="); }
    assert p[5..] == "\"" + q && ("\"" + q)[1..] == q;
    ReadQuoted(u, "", " >");
    assert ReadValue(p[5..], false, "") == Value("" + u, " >");
    assert " >"[1..] == ">" && "" + u == u;
  }

  lemma ParseAnchor(url: string, rest: seq<string>, parent: Bookmark, atParent: bool, text: string, end: string)
    requires IsEnd(end) && (!atParent ==> parent.children != []) && '"' !in url
    ensures ParseFrom([AnchorToken(url)] + rest, parent, atParent, text, end)
         == ParseFrom(rest, SetCurrent(parent, atParent, Current(parent, atParent).(url := Squeeze(false, url))), atParent, "", end)
  {
    hide Squeeze, ScanAnchor;
    var u := Squeeze(false, url);
    var str := AnchorToken(url)[1..];
    assert str == "<a " + ("HREF=" + ("\"" + (u + ("\"" + " >"))));
    assert str[..3] == "<a " && str[3..] == "HREF=" + ("\"" + (u + ("\"" + " >")));
    EqualDiffers(str, "</dl>", 1);
    PrefixDiffers(str, "<dl>", 1);
    PrefixDiffers(str, "<dt>", 1);
    SqueezedChars(false, url, '"');
    ScanHref(u, Current(parent, atParent).url);
    assert ([AnchorToken(url)] + rest)[1..] == rest;
  }

  // ---- Parsing whole entries ----

  /** The local text behind an entry: its text and the line breaks of write. */
  function AfterEntry(b: Bookmark): string {
    Squeeze(false, b.text) + (if b.kind == URL then " " else "  ")
  }

  function TextAfter(f: seq<Bookmark>, text: string): string {
    if f == [] then text else TextAfter(f[1..], AfterEntry(f[0]))
  }

  lemma ParseUrl(b: Bookmark, rest: seq<string>, parent: Bookmark, atParent: bool, text: string, end: string)
    requires b.kind == URL && CleanEntry(b) && IsEnd(end) && (!atParent ==> parent.children != [])
    ensures ParseFrom(EntryTokens(b) + rest, parent, atParent, text, end)
         == ParseFrom(rest, parent.(children := parent.children + [Canon(b)]), false, Squeeze(false, b.text) + " ", end)
  {
    hide ParseFrom, Words, Squeeze, Lower;
    var words := Words("", false, b.text);
    WordsOfText("", false, b.text);
    assert '"' !in b.url by { assert forall i :: 0 <= i < |b.url| ==> UrlChar(b.url[i]); }
    var r3 := [" "] + rest;
    var r2 := [TagToken("/A")] + r3;
    var r1 := [AnchorToken(b.url)] + (words + r2);
    assert EntryTokens(b) + rest == [TagToken("DT")] + r1;
    ParseDT(r1, parent, atParent, text, end);
    var p1 := parent.(children := parent.children + [NewBookmark]);
    ParseAnchor(b.url, words + r2, p1, false, text, end);
    var p2 := SetCurrent(p1, false, NewBookmark.(url := Squeeze(false, b.url)));
    assert p2.children == parent.children + [NewBookmark.(url := Squeeze(false, b.url))];
    ParseWords(words, r2, p2, false, "", end);
    var t := Squeeze(false, b.text);
    assert "" + ("" + t) == t;
    ParseClose("/A", r3, p2, false, t, end);
    var p3 := SetCurrent(p2, false, Current(p2, false).(text := t));
    assert p3.children == parent.children + [Canon(b)];
    ParseWord(" ", rest, p3, false, t, end);
  }

  lemma ParseFolderHead(b: Bookmark, rest: seq<string>, parent: Bookmark, atParent: bool, text: string, end: string)
    requires CleanText(b.text) && IsEnd(end) && (!atParent ==> parent.children != [])
    ensures ParseFrom([TagToken("DT"), TagToken("H3")] + Words("", false, b.text) + [TagToken("/H3"), " "] + rest,
                      parent, atParent, text, end)
         == ParseFrom(rest, parent.(children := parent.children + [NewBookmark.(text := Squeeze(false, b.text))]),
                      false, Squeeze(false, b.text) + " ", end)
  {
    hide ParseFrom, Words, Squeeze, Lower;
    var words := Words("", false, b.text);
    WordsOfText("", false, b.text);
    var r3 := [" "] + rest;
    var r2 := [TagToken("/H3")] + r3;
    var r1 := [TagToken("H3")] + (words + r2);
    assert [TagToken("DT"), TagToken("H3")] + words + [TagToken("/H3"), " "] + rest == [TagToken("DT")] + r1;
    ParseDT(r1, parent, atParent, text, end);
    var p1 := parent.(children := parent.children + [NewBookmark]);
    ParseH3(words + r2, p1, false, text, end);
    ParseWords(words, r2, p1, false, "", end);
    var t := Squeeze(false, b.text);
    assert "" + ("" + t) == t;
    ParseClose("/H3", r3, p1, false, t, end);
    var p3 := SetCurrent(p1, false, Current(p1, false).(text := t));
    assert p3.children == parent.children + [NewBookmark.(text := t)];
    ParseWord(" ", rest, p3, false, t, end);
  }

  /** Parsing the tokens of clean entries appends their canonical forms to the folder. */
  lemma {:induction false} ParseEntries(f: seq<Bookmark>, rest: seq<string>, parent: Bookmark, atParent: bool, text: string, end: string)
    requires CleanEntries(f) && IsEnd(end) && (!atParent ==> parent.children != [])
    ensures ParseFrom(EntriesTokens(f) + rest, parent, atParent, text, end)
         == ParseFrom(rest, parent.(children := parent.children + CanonAll(f)), atParent && f == [], TextAfter(f, text), end)
    decreases f
  {
    hide ParseFrom, EntryTokens, EntriesTokens, Squeeze, Canon, CanonAll, CleanEntry;
    if f == [] {
      NoEntries(rest, parent.children);
    } else {
      var nextRest := EntriesTokens(f[1..]) + rest;
      FirstOfEntries(f, rest, parent.children);
      ParseEntry(f[0], nextRest, parent, atParent, text, end);
      var nextParent := parent.(children := parent.children + [Canon(f[0])]);
      ParseEntries(f[1..], rest, nextParent, false, AfterEntry(f[0]), end);
    }
  }

  lemma NoEntries(rest: seq<string>, children: seq<Bookmark>)
    ensures EntriesTokens([]) + rest == rest && children + CanonAll([]) == children
  {
  }

  lemma FirstOfEntries(f: seq<Bookmark>, rest: seq<string>, children: seq<Bookmark>)
    requires f != []
    ensures EntriesTokens(f) + rest == EntryTokens(f[0]) + (EntriesTokens(f[1..]) + rest)
    ensures children + CanonAll(f) == children + [Canon(f[0])] + CanonAll(f[1..])
  {
    hide EntryTokens, Canon;
    assert EntriesTokens(f) == EntryTokens(f[0]) + EntriesTokens(f[1..]);
    Associative(EntryTokens(f[0]), EntriesTokens(f[1..]), rest);
    Associative(children, [Canon(f[0])], CanonAll(f[1..]));
  }

  lemma Associative<T>(a: seq<T>, b: seq<T>, c: seq<T>)
    ensures (a + b) + c == a + (b + c)
  {
  }

  lemma {:induction false} ParseEntry(b: Bookmark, rest: seq<string>, parent: Bookmark, atParent: bool, text: string, end: string)
    requires CleanEntry(b) && IsEnd(end) && (!atParent ==> parent.children != [])
    ensures ParseFrom(EntryTokens(b) + rest, parent, atParent, text, end)
         == ParseFrom(rest, parent.(children := parent.children + [Canon(b)]), false, AfterEntry(b), end)
    decreases b, 1
  {
    hide ParseFrom, EntryTokens, Squeeze, Canon;
    if b.kind == URL {
      ParseUrl(b, rest, parent, atParent, text, end);
    } else {
      ParseFolder(b, rest, parent, atParent, text, end);
    }
  }

  lemma {:induction false} ParseFolder(b: Bookmark, rest: seq<string>, parent: Bookmark, atParent: bool, text: string, end: string)
    requires b.kind != URL && CleanEntry(b) && IsEnd(end) && (!atParent ==> parent.children != [])
    ensures ParseFrom(EntryTokens(b) + rest, parent, atParent, text, end)
         == ParseFrom(rest, parent.(children := parent.children + [Canon(b)]), false, Squeeze(false, b.text) + "  ", end)
    decreases b, 0
  {
    hide ParseFrom, Words, Squeeze, Lower;
    var after := [TagToken("P"), " "] + rest;
    var close := [TagToken("/DL")] + after;
    var inner := EntriesTokens(b.children) + close;
    var list := [TagToken("P")] + ([" "] + inner);
    assert EntryTokens(b) + rest
        == [TagToken("DT"), TagToken("H3")] + Words("", false, b.text) + [TagToken("/H3"), " "] + ([TagToken("DL")] + list);
    ParseFolderHead(b, [TagToken("DL")] + list, parent, atParent, text, end);
    var t := Squeeze(false, b.text);
    var child := NewBookmark.(text := t);
    var p1 := parent.(children := parent.children + [child]);
    ParseDL(list, p1, false, t + " ", end);
    // the nested call
    var folder := child.(kind := Folder);
    ParseIgnored("P", [" "] + inner, folder, true, "", "</dl>");
    ParseWord(" ", inner, folder, true, "", "</dl>");
    ParseEntries(b.children, close, folder, true, "" + " ", "</dl>");
    var filled := folder.(children := folder.children + CanonAll(b.children));
    ParseEnd(after, filled, b.children == [], TextAfter(b.children, "" + " "));
    assert filled == Canon(b);
    assert Parse(list, child, "</dl>") == Parsed(Canon(b), after);
    // back in the caller
    var p2 := SetCurrent(p1, false, Canon(b));
    assert p2.children == parent.children + [Canon(b)];
    assert after == [TagToken("P")] + ([" "] + rest);
    ParseIgnored("P", [" "] + rest, p2, false, t + " ", end);
    ParseWord(" ", rest, p2, false, t + " ", end);
    assert t + " " + " " == t + "  ";
  }

  // ---- Reading the whole document ----

  lemma {:induction false} SkipWords(ws: seq<string>, rest: seq<string>, store: Store)
    requires NoTags(ws)
    ensures ReadFrom(ws + rest, store) == ReadFrom(rest, store)
  {
    if ws == [] {
      assert ws + rest == rest;
    } else {
      assert (ws + rest)[1..] == ws[1..] + rest;
      SkipWords(ws[1..], rest, store);
    }
  }

  lemma SkipTag(token: string, rest: seq<string>, store: Store)
    requires |token| >= 3 && IsTag(token) && ToLower(token[2]) != 't' && ToLower(token[2]) != 'd'
    ensures ReadFrom([token] + rest, store) == ReadFrom(rest, store)
  {
    PrefixDiffers(token[1..], "<title>", 1);
    PrefixDiffers(token[1..], "<DL>", 1);
    assert ([token] + rest)[1..] == rest;
  }

  lemma TitleStart()
    ensures IsTag(TagToken("TITLE")) && HasPrefixNoCase(TagToken("TITLE")[1..], "<title>")
  {
    assert TagToken("TITLE")[1..] == "<title>" && "<title>"[..7] == "<title>";
  }

  lemma TitleEnd()
    ensures IsTag(TagToken("/TITLE")) && HasPrefixNoCase(TagToken("/TITLE")[1..], "</title>")
  {
    assert TagToken("/TITLE")[1..] == "</title>" && "</title>"[..8] == "</title>";
  }

  lemma TitleWord(w: string, rest: seq<string>, t: string)
    requires !IsTag(w)
    ensures ReadTitle([w] + rest, t) == ReadTitle(rest, t + w)
  {
    assert ([w] + rest)[1..] == rest;
  }

  lemma TitleStop(rest: seq<string>, t: string)
    ensures ReadTitle([TagToken("/TITLE")] + rest, t) == (t, rest)
  {
    hide HasPrefixNoCase, Lower;
    TitleEnd();
    assert ([TagToken("/TITLE")] + rest)[1..] == rest;
  }

  lemma {:induction false} TitleWords(ws: seq<string>, rest: seq<string>, t: string)
    requires NoTags(ws)
    ensures ReadTitle(ws + ([TagToken("/TITLE")] + rest), t) == (t + Join(ws), rest)
  {
    hide ReadTitle, TagToken;
    var close := [TagToken("/TITLE")] + rest;
    if ws == [] {
      assert ws + close == close && t + Join(ws) == t;
      TitleStop(rest, t);
    } else {
      assert ws + close == [ws[0]] + (ws[1..] + close);
      TitleWord(ws[0], ws[1..] + close, t);
      TitleWords(ws[1..], rest, t + ws[0]);
      assert t + ws[0] + Join(ws[1..]) == t + Join(ws);
    }
  }

  lemma TitleElement(ws: seq<string>, rest: seq<string>, store: Store)
    requires NoTags(ws)
    ensures ReadFrom([TagToken("TITLE")] + (ws + ([TagToken("/TITLE")] + rest)), store)
         == ReadFrom(rest, store.(title := Join(ws)))
  {
    hide HasPrefixNoCase, Lower, ReadTitle;
    var inner := ws + ([TagToken("/TITLE")] + rest);
    TitleWords(ws, rest, "");
    TitleStart();
    assert ([TagToken("TITLE")] + inner)[1..] == inner;
    assert "" + Join(ws) == Join(ws);
  }

  lemma ParseBody(f: seq<Bookmark>, root: Bookmark)
    requires CleanEntries(f) && root.children == []
    ensures Parse([TagToken("p"), " "] + (EntriesTokens(f) + [TagToken("/DL"), TagToken("P"), " "]), root, "")
         == Parsed(root.(kind := Folder, children := CanonAll(f)), [])
  {
    hide ParseFrom, Lower, EntriesTokens, CanonAll;
    var after := [TagToken("/DL")] + ([TagToken("P")] + ([" "] + []));
    assert [TagToken("/DL"), TagToken("P"), " "] == after;
    BodyStart(EntriesTokens(f) + after, root);
    var folder := root.(kind := Folder);
    ParseEntries(f, after, folder, true, " ", "");
    var full := folder.(children := folder.children + CanonAll(f));
    var t := TextAfter(f, " ");
    ParseIgnored("/DL", [TagToken("P")] + ([" "] + []), full, f == [], t, "");
    ParseIgnored("P", [" "] + [], full, f == [], t, "");
    ParseWord(" ", [], full, f == [], t, "");
    ParseNothing(full, f == [], t + " ");
    assert full.children == CanonAll(f);
  }

  lemma BodyStart(toks: seq<string>, root: Bookmark)
    ensures Parse([TagToken("p"), " "] + toks, root, "") == ParseFrom(toks, root.(kind := Folder), true, " ", "")
  {
    hide ParseFrom, Lower;
    assert [TagToken("p"), " "] + toks == [TagToken("p")] + ([" "] + toks);
    ParseIgnored("p", [" "] + toks, root.(kind := Folder), true, "", "");
    ParseWord(" ", toks, root.(kind := Folder), true, "", "");
    assert "" + " " == " ";
  }

  lemma ParseNothing(parent: Bookmark, atParent: bool, text: string)
    requires !atParent ==> parent.children != []
    ensures ParseFrom([], parent, atParent, text, "") == Parsed(parent, [])
  {
  }

  /** read hands the first list to parse. */
  lemma ListElement(rest: seq<string>, store: Store)
    ensures ReadFrom([TagToken("DL")] + rest, store)
         == match Parse(rest, store.root, "")
            case Crash => ReadCrash
            case Parsed(root, after) => ReadFrom(after, store.(root := root))
  {
    hide Parse;
    var str := TagToken("DL")[1..];
    assert str == "<dl>" && str[..4] == "<dl>" && Lower("<dl>") == Lower("<DL>");
    PrefixDiffers(str, "<title>", 1);
    assert ([TagToken("DL")] + rest)[1..] == rest;
  }

  /** Reading the fixed lines: the title, and everything behind the first list tag is for parse. */
  lemma ReadHead(title: string, rest: seq<string>, store: Store)
    requires CleanText(title)
    ensures ReadFrom(HeadTokens(title) + rest, store)
         == match Parse(rest, store.root, "")
            case Crash => ReadCrash
            case Parsed(root, after) => ReadFrom(after, Store(Squeeze(false, title), root))
  {
    hide ReadFrom, Words, Lower, Squeeze, Parse;
    var words := Words("", false, title);
    WordsOfText("", false, title);
    assert Join(words) == Squeeze(false, title);
    var r5 := [TagToken("DL")] + rest;
    var r4 := [" "] + r5;
    var r3 := [TagToken("/H1")] + r4;
    var r2 := [" "] + ([TagToken("H1")] + (words + r3));
    var r1 := [TagToken("TITLE")] + (words + ([TagToken("/TITLE")] + r2));
    var dt := DoctypeToken("!DOCTYPE", "KDEHELP-Bookmark-file");
    assert HeadTokens(title) + rest == [dt] + ([" "] + r1);
    NameThird("!DOCTYPE", dt);
    SkipTag(dt, [" "] + r1, store);
    SkipWords([" "], r1, store);
    TitleElement(words, r2, store);
    var s1 := store.(title := Squeeze(false, title));
    SkipWords([" "], [TagToken("H1")] + (words + r3), s1);
    NameThird("H1", TagToken("H1"));
    SkipTag(TagToken("H1"), words + r3, s1);
    SkipWords(words, r3, s1);
    NameThird("/H1", TagToken("/H1"));
    SkipTag(TagToken("/H1"), r4, s1);
    SkipWords([" "], r5, s1);
    ListElement(rest, s1);
  }

  lemma NameThird(name: string, token: string)
    requires name != "" && |token| >= 3 && [TAG_ESCAPE, '<'] + Lower(name) <= token
    requires name[0] == '!' || name[0] == 'H' || name[0] == '/'
    ensures IsTag(token) && token[2] == ToLower(name[0])
  {
    assert ([TAG_ESCAPE, '<'] + Lower(name))[2] == Lower(name)[0];
  }

  /**
   Writing a title and forest with clean strings and reading the file gives back
   the same tree, with every run of blanks squeezed to one.
   */
  lemma ReadWritten(notice: string, title: string, f: seq<Bookmark>, store: Store)
    requires IsNotice(notice) && CleanText(title) && CleanEntries(f)
    ensures '&' !in Document(notice, title, f)
    ensures ReadText(Document(notice, title, f), store)
         == Read(Store(Squeeze(false, title), store.root.(kind := Folder, children := CanonAll(f))))
  {
    hide ReadFrom, Run, Squeeze, Parse;
    DocumentRun(notice, title, f);
    var root := store.root.(children := []);
    ReadHead(title, [TagToken("p"), " "] + (EntriesTokens(f) + [TagToken("/DL"), TagToken("P"), " "]), store.(root := root));
    ParseBody(f, root);
    ReadNothing(Store(Squeeze(false, title), root.(kind := Folder, children := CanonAll(f))));
  }

  lemma ReadNothing(store: Store)
    ensures ReadFrom([], store) == Read(store)
  {
  }

  // ---- When the result is the original ----

  predicate NoDoubleBlank(t: string) {
    forall i :: 0 <= i < |t| - 1 ==> t[i] != ' ' || t[i + 1] != ' '
  }

  lemma {:induction false} SqueezeLength(space: bool, t: string)
    ensures |Squeeze(space, t)| <= |t|
    ensures space && t != "" && t[0] == ' ' ==> |Squeeze(space, t)| < |t|
    decreases |t|
  {
    if t != "" {
      SqueezeLength(t[0] == ' ', t[1..]);
    }
  }

  lemma {:induction false} SqueezeIdentity(space: bool, t: string)
    ensures Squeeze(space, t) == t <==> NoDoubleBlank(t) && !(space && t != "" && t[0] == ' ')
    decreases |t|
  {
    SqueezeLength(space, t);
    if t != "" {
      var sp, u := t[0] == ' ', t[1..];
      SqueezeIdentity(sp, u);
      if !(space && sp) {
        assert Squeeze(space, t) == [t[0]] + Squeeze(sp, u) && t == [t[0]] + u;
        assert Squeeze(space, t)[1..] == Squeeze(sp, u);
      }
      if NoDoubleBlank(t) {
        assert forall i :: 0 <= i < |u| ==> u[i] == t[i + 1];
      } else {
        var i :| 0 <= i < |t| - 1 && t[i] == ' ' && t[i + 1] == ' ';
        if i > 0 {
          assert u[i - 1] == t[i] && u[i] == t[i + 1];
        }
      }
    }
  }

  /** What a user can check beforehand: plain strings, no children below a URL, no URL on a folder. */
  predicate PlainForest(f: seq<Bookmark>) {
    f == [] || (PlainBookmark(f[0]) && PlainForest(f[1..]))
  }

  predicate PlainBookmark(b: Bookmark) {
    && CleanText(b.text) && NoDoubleBlank(b.text)
    && if b.kind == URL then CleanUrl(b.url) && NoDoubleBlank(b.url) && b.children == []
       else b.url == "" && PlainForest(b.children)
  }

  lemma {:induction false} CanonIsIdentity(f: seq<Bookmark>)
    requires CleanEntries(f)
    ensures CanonAll(f) == f <==> PlainForest(f)
  {
    if f != [] {
      var b := f[0];
      SqueezeIdentity(false, b.text);
      SqueezeIdentity(false, b.url);
      if b.kind != URL {
        CanonIsIdentity(b.children);
      }
      CanonIsIdentity(f[1..]);
      assert CanonAll(f)[1..] == CanonAll(f[1..]) && f == [b] + f[1..];
      assert Canon(b) == b <==> PlainBookmark(b);
    }
  }

  lemma {:induction false} PlainIsClean(f: seq<Bookmark>)
    requires PlainForest(f)
    ensures CleanEntries(f)
  {
    if f != [] {
      if f[0].kind != URL {
        PlainIsClean(f[0].children);
      }
      PlainIsClean(f[1..]);
    }
  }
}
