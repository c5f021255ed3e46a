/**
 Titles with tags in them.  The tokenizer puts its escape character in front of a tag, and
 read keeps it in the title; the escape character is skipped when the title is written
 and read again, so such titles come back as well.
 */
module BookmarkTitles {
  import opened CStrings
  import opened BookmarkLexer
  import opened BookmarkTree
  import opened BookmarkTokens
  import opened BookmarkRoundTrip
  import opened BookmarkLimits
  import opened BookmarkSwallow
  import opened BookmarkReadBack
  import opened BookmarkExact

  /** A tag without attributes and the text behind it. */
  datatype Mark = Mark(name: string, text: string)

  /** A title as a file gives it: a text and then tags, each with its escape character and a text. */
  function Spell(text: string, marks: seq<Mark>): string
    decreases |marks|
  {
    if marks == [] then text
    else text + ([TAG_ESCAPE] + ("<" + (marks[0].name + (">" + Spell(marks[0].text, marks[1..])))))
  }

  /** A tag that read does not act on: no comment, no title and no list. */
  predicate MarkOk(m: Mark) {
    && IsName(m.name) && m.name != "" && m.name[0] != '!' && CleanText(m.text)
    && !HasPrefixNoCase("<" + Lower(m.name) + ">", "</title>")
    && !HasPrefixNoCase("<" + Lower(m.name) + ">", "<title>")
    && !HasPrefixNoCase("<" + Lower(m.name) + ">", "<DL>")
  }

  predicate MarksOk(marks: seq<Mark>) {
    forall i :: 0 <= i < |marks| ==> MarkOk(marks[i])
  }

  /** Runs of blanks squeezed, names in lower case. */
  function Tidied(marks: seq<Mark>): seq<Mark> {
    if marks == [] then []
    else [Mark(Lower(marks[0].name), Squeeze(false, marks[0].text))] + Tidied(marks[1..])
  }

  function TitleTokens(text: string, marks: seq<Mark>): seq<string>
    decreases |marks|
  {
    if marks == [] then Words("", false, text)
    else Words("", false, text) + ([TagToken(marks[0].name)] + TitleTokens(marks[0].text, marks[1..]))
  }

  // ---- Tokenizing such a title ----

  lemma {:induction false} SpellHasNoAmpersand(text: string, marks: seq<Mark>)
    requires CleanText(text) && MarksOk(marks)
    ensures '&' !in Spell(text, marks)
    decreases |marks|
  {
    hide HasPrefixNoCase;
    assert '&' !in text;
    if marks != [] {
      assert MarkOk(marks[0]) && '&' !in marks[0].name;
      SpellHasNoAmpersand(marks[0].text, marks[1..]);
    }
  }

  /** The escape character between text and tag is skipped. */
  lemma {:induction false} TextThenEscape(st: Lexer, t: string, r: string)
    requires !st.tag && !st.tquote && !st.comment && CleanText(t)
    requires '&' !in r && !("!-" <= r)
    ensures '&' !in t
    ensures Run(st, t + ([TAG_ESCAPE] + ("<" + r))) == Run(OpenTag(st.tokens + Words(st.buf, st.space, t)), r)
    decreases |t|
  {
    hide Run, CloseTag;
    var tag := [TAG_ESCAPE] + ("<" + r);
    var src := t + tag;
    if t == "" {
      assert src == tag && tag[1..] == "<" + r;
      RunStep(st, src);
      assert "" + ("<" + r) == "<" + r;
      TextThenTag(st, "", r);
    } else {
      assert TextChar(t[0]);
      assert src[1..] == t[1..] + tag;
      var (nextSt, n) := Step(st, src);
      RunStep(st, src);
      TextThenEscape(nextSt, t[1..], r);
      if t[0] == ' ' && !st.space {
        assert Append(st.tokens, st.buf) + [" "] + Words("", true, t[1..])
            == st.tokens + (Append([], st.buf) + [" "] + Words("", true, t[1..]));
      }
    }
  }

  lemma EscapedTag(tokens: seq<string>, t: string, name: string, r: string)
    requires CleanText(t) && IsName(name) && name != "" && name[0] != '!' && '&' !in r
    ensures '&' !in t && '&' !in name
    ensures Run(Resting(tokens, false), t + ([TAG_ESCAPE] + ("<" + (name + (">" + r)))))
         == Run(Resting(tokens + (Words("", false, t) + [TagToken(name)]), false), r)
  {
    hide Run, Words, Lower;
    assert '&' !in t && '&' !in name;
    assert (name + (">" + r))[0] == name[0];
    TextThenEscape(Resting(tokens, false), t, name + (">" + r));
    TextTag(tokens, false, t, name, r);
    TextThenTag(Resting(tokens, false), t, name + (">" + r));
    Associative(tokens, Words("", false, t), [TagToken(name)]);
  }

  /** A title, then the tag that ends its element. */
  lemma {:induction false} TitleThenTag(tokens: seq<string>, text: string, marks: seq<Mark>, close: string, r: string)
    requires CleanText(text) && MarksOk(marks)
    requires IsName(close) && close != "" && close[0] != '!' && '&' !in close && '&' !in r
    ensures '&' !in Spell(text, marks)
    ensures Run(Resting(tokens, false), Spell(text, marks) + ("<" + (close + (">" + r))))
         == Run(Resting(tokens + (TitleTokens(text, marks) + [TagToken(close)]), false), r)
    decreases |marks|
  {
    hide Run, Words, Lower, HasPrefixNoCase;
    SpellHasNoAmpersand(text, marks);
    var tail := "<" + (close + (">" + r));
    if marks == [] {
      TextTag(tokens, false, text, close, r);
      Associative(tokens, Words("", false, text), [TagToken(close)]);
    } else {
      var m := marks[0];
      assert MarkOk(m);
      var inner := Spell(m.text, marks[1..]);
      SpellHasNoAmpersand(m.text, marks[1..]);
      SpelledTail(text, m.name, inner, tail);
      EscapedTag(tokens, text, m.name, inner + tail);
      var t1 := tokens + (Words("", false, text) + [TagToken(m.name)]);
      TitleThenTag(t1, m.text, marks[1..], close, r);
      Regrouped(tokens, Words("", false, text), TagToken(m.name), TitleTokens(m.text, marks[1..]), TagToken(close));
    }
  }

  lemma SpelledTail(text: string, name: string, inner: string, tail: string)
    ensures text + ([TAG_ESCAPE] + ("<" + (name + (">" + inner)))) + tail
         == text + ([TAG_ESCAPE] + ("<" + (name + (">" + (inner + tail)))))
  {
  }

  lemma Regrouped(tokens: seq<string>, w: seq<string>, t: string, more: seq<string>, close: string)
    ensures tokens + (w + [t]) + (more + [close]) == tokens + (w + ([t] + more) + [close])
  {
  }

  function MarkedHead(text: string, marks: seq<Mark>): seq<string> {
    [DoctypeToken("!DOCTYPE", "KDEHELP-Bookmark-file"), " "]
    + ([TagToken("TITLE")] + TitleTokens(text, marks) + [TagToken("/TITLE"), " "])
    + ([TagToken("H1")] + TitleTokens(text, marks) + [TagToken("/H1"), " "])
    + [TagToken("DL"), TagToken("p"), " "]
  }

  lemma TitleLine(tokens: seq<string>, open: string, text: string, marks: seq<Mark>, close: string, r: string)
    requires CleanText(text) && MarksOk(marks) && '&' !in r
    requires IsName(open) && open != "" && open[0] != '!' && '&' !in open
    requires IsName(close) && close != "" && close[0] != '!' && '&' !in close
    ensures '&' !in ElementText(open, Spell(text, marks), close, r)
    ensures Run(Resting(tokens, true), ElementText(open, Spell(text, marks), close, r))
         == Run(Resting(tokens + ([TagToken(open)] + TitleTokens(text, marks) + [TagToken(close), " "]), true), r)
  {
    hide Run, Words, Lower, Spell, TitleTokens, MarksOk, IsName, CleanText;
    SpellHasNoAmpersand(text, marks);
    var rest := Spell(text, marks) + ("<" + (close + (">" + ("\n" + r))));
    Tag(tokens, true, open, rest);
    var t1 := tokens + [TagToken(open)];
    TitleThenTag(t1, text, marks, close, "\n" + r);
    var t2 := t1 + (TitleTokens(text, marks) + [TagToken(close)]);
    NewLine(t2, false, r);
    assert t2 + [" "] == tokens + ([TagToken(open)] + TitleTokens(text, marks) + [TagToken(close), " "]);
  }

  lemma MarkedHeadRun(notice: string, text: string, marks: seq<Mark>, f: seq<Bookmark>)
    requires IsNotice(notice) && CleanText(text) && MarksOk(marks) && '&' !in Entries(f)
    ensures '&' !in Document(notice, Spell(text, marks), f)
    ensures Run(Start, Document(notice, Spell(text, marks), f))
         == Run(Resting(MarkedHead(text, marks), true), Entries(f) + ("</DL><P>\n" + ""))
  {
    hide Run, Document, Entries, ElementText, Spell, TitleTokens, MarksOk, CleanText, TagToken, DoctypeToken;
    var title := Spell(text, marks);
    var r := Entries(f) + ("</DL><P>\n" + "");
    var list := "<" + ("DL" + (">" + ("<" + ("p" + (">" + ("\n" + r))))));
    var lines := ElementText("H1", title, "/H1", list);
    DocumentShape(notice, title, f);
    NamesOfHead();
    var t1 := [DoctypeToken("!DOCTYPE", "KDEHELP-Bookmark-file"), " "];
    var t2 := t1 + ([TagToken("TITLE")] + TitleTokens(text, marks) + [TagToken("/TITLE"), " "]);
    var t3 := t2 + ([TagToken("H1")] + TitleTokens(text, marks) + [TagToken("/H1"), " "]);
    TitleLine(t2, "H1", text, marks, "/H1", list);
    TitleLine(t1, "TITLE", text, marks, "/TITLE", lines);
    FirstLines(notice, ElementText("TITLE", title, "/TITLE", lines));
    ListStart(t3, r);
  }

  // ---- Reading such a title ----

  lemma {:induction false} CollectWords(ws: seq<string>, rest: seq<string>, t: string)
    requires NoTags(ws)
    ensures ReadTitle(ws + rest, t) == ReadTitle(rest, t + Join(ws))
  {
    hide ReadTitle;
    if ws == [] {
      assert ws + rest == rest && t + Join(ws) == t;
    } else {
      assert ws + rest == [ws[0]] + (ws[1..] + rest);
      TitleWord(ws[0], ws[1..] + rest, t);
      CollectWords(ws[1..], rest, t + ws[0]);
      assert t + ws[0] + Join(ws[1..]) == t + Join(ws);
    }
  }

  lemma TagTokenParts(name: string)
    ensures IsTag(TagToken(name)) && TagToken(name)[1..] == "<" + Lower(name) + ">"
  {
  }

  lemma CollectTag(m: Mark, rest: seq<string>, t: string)
    requires MarkOk(m)
    ensures ReadTitle([TagToken(m.name)] + rest, t) == ReadTitle(rest, t + TagToken(m.name))
  {
    hide HasPrefixNoCase, Lower, TagToken;
    TagTokenParts(m.name);
    assert ([TagToken(m.name)] + rest)[1..] == rest;
  }

  lemma SkipMark(m: Mark, rest: seq<string>, store: Store)
    requires MarkOk(m)
    ensures ReadFrom([TagToken(m.name)] + rest, store) == ReadFrom(rest, store)
  {
    hide HasPrefixNoCase, Lower, TagToken;
    TagTokenParts(m.name);
    assert ([TagToken(m.name)] + rest)[1..] == rest;
  }

  lemma SqueezedIsJoin(text: string)
    requires CleanText(text)
    ensures NoTags(Words("", false, text)) && Join(Words("", false, text)) == Squeeze(false, text)
  {
    hide Words, Squeeze;
    WordsOfText("", false, text);
  }

  lemma {:induction false} CollectTitle(text: string, marks: seq<Mark>, rest: seq<string>, t: string)
    requires CleanText(text) && MarksOk(marks)
    ensures ReadTitle(TitleTokens(text, marks) + rest, t)
         == ReadTitle(rest, t + Spell(Squeeze(false, text), Tidied(marks)))
    decreases |marks|
  {
    hide ReadTitle, Words, Squeeze, Lower, HasPrefixNoCase, TagToken;
    SqueezedIsJoin(text);
    var words := Words("", false, text);
    if marks == [] {
      CollectWords(words, rest, t);
    } else {
      var m := marks[0];
      assert MarkOk(m);
      var more := TitleTokens(m.text, marks[1..]);
      Associative(words, [TagToken(m.name)] + more, rest);
      Associative([TagToken(m.name)], more, rest);
      CollectWords(words, [TagToken(m.name)] + (more + rest), t);
      CollectTag(m, more + rest, t + Squeeze(false, text));
      CollectTitle(m.text, marks[1..], rest, t + Squeeze(false, text) + TagToken(m.name));
      TidiedStep(text, marks, t);
    }
  }

  lemma TidiedStep(text: string, marks: seq<Mark>, t: string)
    requires marks != []
    ensures t + Squeeze(false, text) + TagToken(marks[0].name) + Spell(Squeeze(false, marks[0].text), Tidied(marks[1..]))
         == t + Spell(Squeeze(false, text), Tidied(marks))
  {
    hide Squeeze, Lower;
    var n, u := Lower(marks[0].name), Squeeze(false, text);
    var more := Spell(Squeeze(false, marks[0].text), Tidied(marks[1..]));
    assert Tidied(marks)[1..] == Tidied(marks[1..]) && Tidied(marks)[0] == Mark(n, Squeeze(false, marks[0].text));
    assert Spell(u, Tidied(marks)) == u + ([TAG_ESCAPE] + ("<" + (n + (">" + more))));
    TokenSpelled(t, u, n, more);
  }

  lemma TokenSpelled(t: string, u: string, n: string, more: string)
    ensures t + u + ([TAG_ESCAPE, '<'] + n + ">") + more == t + (u + ([TAG_ESCAPE] + ("<" + (n + (">" + more)))))
  {
  }

  lemma {:induction false} SkipTitle(text: string, marks: seq<Mark>, rest: seq<string>, store: Store)
    requires CleanText(text) && MarksOk(marks)
    ensures ReadFrom(TitleTokens(text, marks) + rest, store) == ReadFrom(rest, store)
    decreases |marks|
  {
    hide ReadFrom, Words, Squeeze, Lower, HasPrefixNoCase, TagToken;
    SqueezedIsJoin(text);
    var words := Words("", false, text);
    if marks == [] {
      SkipWords(words, rest, store);
    } else {
      var m := marks[0];
      assert MarkOk(m);
      var more := TitleTokens(m.text, marks[1..]);
      Associative(words, [TagToken(m.name)] + more, rest);
      Associative([TagToken(m.name)], more, rest);
      SkipWords(words, [TagToken(m.name)] + (more + rest), store);
      SkipMark(m, more + rest, store);
      SkipTitle(m.text, marks[1..], rest, store);
    }
  }

  lemma MarkedTitleElement(text: string, marks: seq<Mark>, rest: seq<string>, store: Store)
    requires CleanText(text) && MarksOk(marks)
    ensures ReadFrom([TagToken("TITLE")] + (TitleTokens(text, marks) + ([TagToken("/TITLE")] + rest)), store)
         == ReadFrom(rest, store.(title := Spell(Squeeze(false, text), Tidied(marks))))
  {
    hide ReadFrom, ReadTitle, TitleTokens, Squeeze, TagToken, Spell, Tidied;
    CollectTitle(text, marks, [TagToken("/TITLE")] + rest, "");
    TitleIsRead(TitleTokens(text, marks) + ([TagToken("/TITLE")] + rest), store);
    var t := Spell(Squeeze(false, text), Tidied(marks));
    TitleStop(rest, "" + t);
    assert "" + t == t;
  }

  lemma ReadMarkedHead(text: string, marks: seq<Mark>, toks: seq<string>, store: Store)
    requires CleanText(text) && MarksOk(marks)
    ensures ReadFrom(MarkedHead(text, marks) + toks, store)
         == match Parse([TagToken("p"), " "] + toks, store.root, "")
            case Crash => ReadCrash
            case Parsed(root, after) => ReadFrom(after, Store(Spell(Squeeze(false, text), Tidied(marks)), root))
  {
    hide ReadFrom, TitleTokens, Squeeze, TagToken, Spell, Tidied, Parse, MarksOk, CleanText, DoctypeToken;
    var words := TitleTokens(text, marks);
    var r5 := [TagToken("DL")] + ([TagToken("p"), " "] + toks);
    var r4 := [" "] + r5;
    var r3 := [TagToken("/H1")] + r4;
    var r2 := [" "] + ([TagToken("H1")] + (words + r3));
    var r1 := [TagToken("TITLE")] + (words + ([TagToken("/TITLE")] + r2));
    HeadShape(words, toks);
    DoctypeSkipped([" "] + r1, store);
    SkipWords([" "], r1, store);
    MarkedTitleElement(text, marks, r2, store);
    var s1 := store.(title := Spell(Squeeze(false, text), Tidied(marks)));
    SkipWords([" "], [TagToken("H1")] + (words + r3), s1);
    SkipHeading("H1", words + r3, s1);
    SkipTitle(text, marks, r3, s1);
    SkipHeading("/H1", r4, s1);
    SkipWords([" "], r5, s1);
    ListElement([TagToken("p"), " "] + toks, s1);
  }

  lemma SkipHeading(name: string, rest: seq<string>, store: Store)
    requires name == "H1" || name == "/H1"
    ensures ReadFrom([TagToken(name)] + rest, store) == ReadFrom(rest, store)
  {
    hide ReadFrom;
    NameThird(name, TagToken(name));
    SkipTag(TagToken(name), rest, store);
  }

  lemma HeadShape(words: seq<string>, toks: seq<string>)
    ensures [DoctypeToken("!DOCTYPE", "KDEHELP-Bookmark-file"), " "] + ([TagToken("TITLE")] + words + [TagToken("/TITLE"), " "])
            + ([TagToken("H1")] + words + [TagToken("/H1"), " "]) + [TagToken("DL"), TagToken("p"), " "] + toks
         == [DoctypeToken("!DOCTYPE", "KDEHELP-Bookmark-file")] + ([" "] + ([TagToken("TITLE")] + (words + ([TagToken("/TITLE")] +
            ([" "] + ([TagToken("H1")] + (words + ([TagToken("/H1")] + ([" "] + ([TagToken("DL")] + ([TagToken("p"), " "] + toks)))))))))))
  {
    hide TagToken, DoctypeToken;
  }

  /** A file whose title has tags: the title comes back tidied, the forest as ever. */
  lemma ReadMarked(notice: string, text: string, marks: seq<Mark>, f: seq<Bookmark>, store: Store)
    requires IsNotice(notice) && CleanText(text) && MarksOk(marks) && Writable(f)
    ensures '&' !in Document(notice, Spell(text, marks), f)
    ensures ReadText(Document(notice, Spell(text, marks), f), store)
         == Read(Store(Spell(Squeeze(false, text), Tidied(marks)), store.root.(kind := Folder, children := ReadBack(f))))
  {
    hide Run, Document, ReadFrom, Parse, Squeeze, ItemsTokens, Received, Build, Heads, CleanItems, MarkedHead, Lines,
      Written, Spell, Tidied, MarksOk, CleanText, Finish;
    LinesAreWritten(f);
    WrittenItems(f);
    MarkedHeadRun(notice, text, marks, f);
    var heads := ReceivedRun(MarkedHead(text, marks), true, Lines(f));
    HeadsMatch(Received(Lines(f)), heads);
    ReceivedIsClean(Lines(f));
    var toks := ItemsTokens(Received(Lines(f)), heads);
    var root := store.root.(children := []);
    ReadMarkedHead(text, marks, toks, store.(root := root));
    BodyIsBuilt(Received(Lines(f)), heads, root);
    ReadNothing(Store(Spell(Squeeze(false, text), Tidied(marks)), root.(kind := Folder, children := ReadBack(f))));
  }

  // ---- When it is the same title ----

  /** No run of blanks in the texts, names in lower case. */
  predicate Tidy(marks: seq<Mark>) {
    forall i :: 0 <= i < |marks| ==> NoDoubleBlank(marks[i].text) && Lower(marks[i].name) == marks[i].name
  }

  lemma {:induction false} TidiedLength(text: string, marks: seq<Mark>)
    ensures |Spell(Squeeze(false, text), Tidied(marks))| <= |Spell(text, marks)|
    ensures |Spell(Squeeze(false, text), Tidied(marks))| == |Spell(text, marks)| ==> NoDoubleBlank(text)
    decreases |marks|
  {
    hide Squeeze, Lower;
    SqueezeLength(false, text);
    TightString(text);
    if marks != [] {
      TidiedLength(marks[0].text, marks[1..]);
      assert Tidied(marks)[1..] == Tidied(marks[1..]);
    }
  }

  lemma {:induction false} SameTitleIff(text: string, marks: seq<Mark>)
    ensures Spell(Squeeze(false, text), Tidied(marks)) == Spell(text, marks) <==> NoDoubleBlank(text) && Tidy(marks)
    decreases |marks|
  {
    hide Squeeze, Lower, NoDoubleBlank;
    TidiedLength(text, marks);
    SqueezeIdentity(false, text);
    if marks != [] {
      var m, rest := marks[0], marks[1..];
      SameTitleIff(m.text, rest);
      assert Tidied(marks)[1..] == Tidied(rest);
      TidyStep(marks);
      if NoDoubleBlank(text) {
        SamePieces(text, Lower(m.name), m.name, Spell(Squeeze(false, m.text), Tidied(rest)), Spell(m.text, rest));
      }
    }
  }

  lemma TidyStep(marks: seq<Mark>)
    requires marks != []
    ensures Tidy(marks) <==> NoDoubleBlank(marks[0].text) && Lower(marks[0].name) == marks[0].name && Tidy(marks[1..])
  {
    hide Lower, NoDoubleBlank;
    assert marks == [marks[0]] + marks[1..];
  }

  lemma SamePieces(text: string, m: string, n: string, x: string, y: string)
    requires |m| == |n|
    ensures text + ([TAG_ESCAPE] + ("<" + (m + (">" + x)))) == text + ([TAG_ESCAPE] + ("<" + (n + (">" + y)))) <==> m == n && x == y
  {
    var a, b := text + ([TAG_ESCAPE] + ("<" + (m + (">" + x)))), text + ([TAG_ESCAPE] + ("<" + (n + (">" + y))));
    var k := |text| + 2;
    assert a[k..k + |m|] == m && b[k..k + |m|] == n;
    assert a[k + |m| + 1..] == x && b[k + |m| + 1..] == y;
  }

  /**
   Exactly when such a title and a forest come back: no run of blanks in the title, its
   tags in lower case, and the forest as RoundTripIff says.
   */
  lemma MarkedRoundTripIff(notice: string, text: string, marks: seq<Mark>, f: seq<Bookmark>, store: Store)
    requires IsNotice(notice) && CleanText(text) && MarksOk(marks) && '&' !in Document(notice, Spell(text, marks), f)
    ensures ComesBack(notice, Spell(text, marks), f, store)
        <==> NoDoubleBlank(text) && Tidy(marks) && (PlainForest(f) || EndsInEqualsUrl(f))
  {
    hide ReadText, Squeeze, ReadBack, TreeOk, Document, PlainForest, EndsInEqualsUrl, Writable, CleanText, Spell, Tidied, Tidy,
      MarksOk, NoDoubleBlank;
    SameTitleIff(text, marks);
    if PlainForest(f) || EndsInEqualsUrl(f) {
      ReadBackAll(f);
      ReadMarked(notice, text, marks, f, store);
    }
    if ComesBack(notice, Spell(text, marks), f, store) {
      TreeRange(Document(notice, Spell(text, marks), f), store);
      RangeIsWritable(f);
      ReadMarked(notice, text, marks, f, store);
      ReadBackOnly(f);
    }
  }
}
