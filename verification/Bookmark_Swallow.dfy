/**
 URLs that end in '='.  The tokenizer takes the quote behind such a URL for the start of
 a new quotation, so the tag stays open and swallows what follows.  Received says which
 lines of a written list then reach the parser, Build what the parser makes of them.
 ReceivedRun is the tokenizer's half: the tokens queued are those of the lines received.
 */
module BookmarkSwallow {
  import opened CStrings
  import opened Wrappers
  import opened BookmarkLexer
  import opened BookmarkTree
  import opened BookmarkTokens
  import opened BookmarkRoundTrip
  import opened BookmarkLimits

  // ---- The list as a sequence of lines ----

  /** What writeFolder puts on the stream: a bookmark, the head and the end of a folder; and a tag the file ends in. */
  datatype Item = Leaf(url: string, text: string) | Open(url: string, text: string) | Close | Lost(url: string)

  function Items(f: seq<Bookmark>): seq<Item> {
    if f == [] then [] else ItemsOf(f[0]) + Items(f[1..])
  }

  function ItemsOf(b: Bookmark): seq<Item> {
    if b.kind == URL then [Leaf(b.url, b.text)]
    else [Open("", b.text)] + (Items(b.children) + [Close])
  }

  /** The whole list, with the end tag of the document. */
  function Lines(f: seq<Bookmark>): seq<Item> {
    Items(f) + [Close]
  }

  function Line(item: Item): string {
    match item
    case Leaf(url, text) => Entry(Bookmark(text, url, URL, []))
    case Open(_, text) => "<DT><H3>" + (text + "</H3>\n<DL><P>\n")
    case Close => "</DL><P>\n"
    case Lost(_) => ""
  }

  function Source(items: seq<Item>): string {
    if items == [] then "" else Line(items[0]) + Source(items[1..])
  }

  /** Lines that write can produce from strings without markup characters. */
  predicate Written(items: seq<Item>) {
    forall i :: 0 <= i < |items| ==> WrittenItem(items[i])
  }

  predicate WrittenItem(item: Item) {
    match item
    case Leaf(url, text) => UrlOk(url) && CleanText(text)
    case Open(url, text) => url == "" && CleanText(text)
    case Close => true
    case Lost(_) => false
  }

  /** Texts and URLs that write emits have no markup characters; URLs may end in '='. */
  predicate Writable(f: seq<Bookmark>) {
    f == [] || (WritableBookmark(f[0]) && Writable(f[1..]))
  }

  predicate WritableBookmark(b: Bookmark) {
    CleanText(b.text) && if b.kind == URL then UrlOk(b.url) else Writable(b.children)
  }

  // ---- What reaches the parser ----

  /**
   What is left of a text whose beginning an open tag swallows: the tag ends at a '>'
   outside quotes or at the next tag; None if the text ends inside quotes.
   */
  function Remainder(last: char, space: bool, quoted: bool, t: string): Option<string>
    decreases |t|
  {
    if t == "" then if quoted then None else Some("")
    else
      var c, r := t[0], t[1..];
      if c == '>' && !quoted then Some(r)
      else if c == ' ' then Remainder(if space then last else ' ', true, quoted, r)
      else if c == '"' || c == '\'' then
        if last == '=' then Remainder('"', false, true, r)
        else if quoted then Remainder(' ', true, false, r)
        else Remainder(last, space, quoted, r)
      else if c == '=' && !quoted then Remainder('=', true, quoted, r)
      else Remainder(c, false, quoted, r)
  }

  /** The text behind the '>' of a tag that is still open and inside quotes. */
  function Swallowed(t: string): Option<string> {
    Remainder('>', false, true, t)
  }

  function Received(items: seq<Item>): seq<Item>
    decreases |items|, 0
  {
    if items == [] then []
    else if items[0].Leaf? && EndsInEquals(items[0].url) then Held(items[0].url, items[0].text, items[1..])
    else [items[0]] + Received(items[1..])
  }

  /** The tag with this URL is open in front of the text of a bookmark. */
  function Held(url: string, text: string, items: seq<Item>): seq<Item>
    decreases |items|, 1
  {
    match Swallowed(text)
    case Some(t) => [Leaf(url, t)] + Received(items)
    case None => Seek(url, items)
  }

  /** The tag with this URL is open and inside quotes in front of these lines. */
  function Seek(url: string, items: seq<Item>): seq<Item>
    decreases |items|, 0
  {
    if items == [] then [Lost(url)]
    else
      match items[0]
      case Leaf(u, t) =>
        if EndsInEquals(u) then Held(url, t, items[1..]) else [Leaf(url, t)] + Received(items[1..])
      case Open(_, t) =>
        (match Swallowed(t)
         case Some(r) => [Open(url, r)] + Received(items[1..])
         case None => Seek(url, items[1..]))
      case Close => Seek(url, items[1..])
      case Lost(_) => Seek(url, items[1..])
  }

  // ---- What the parser makes of it ----

  /** parse on these lines: the folder filled and the lines behind the end of the list; at the top a list does not end. */
  function Build(items: seq<Item>, parent: Bookmark, nested: bool): (r: (Bookmark, seq<Item>))
    ensures |r.1| <= |items| && r.1 == items[|items| - |r.1|..]
    ensures !nested ==> r.1 == []
    decreases |items|
  {
    if items == [] then (parent, [])
    else
      match items[0]
      case Leaf(u, t) => Build(items[1..], WithChild(parent, Bookmark(Squeeze(false, t), Squeeze(false, u), URL, [])), nested)
      case Lost(u) => Build(items[1..], WithChild(parent, Bookmark("", Squeeze(false, u), URL, [])), nested)
      case Open(u, t) =>
        var (child, rest) := Build(items[1..], Bookmark(Squeeze(false, t), Squeeze(false, u), Folder, []), true);
        Build(rest, WithChild(parent, child), nested)
      case Close => if nested then (parent, items[1..]) else Build(items[1..], parent, nested)
  }

  function WithChild(parent: Bookmark, child: Bookmark): Bookmark {
    parent.(children := parent.children + [child])
  }

  /** The forest that comes out of the lines of a written file. */
  function ReadBack(f: seq<Bookmark>): seq<Bookmark> {
    Build(Received(Lines(f)), NewBookmark, false).0.children
  }

  // ---- The text of the lines ----

  lemma {:induction false} SourceOfItems(f: seq<Bookmark>, items: seq<Item>)
    ensures Source(Items(f) + items) == Entries(f) + Source(items)
    decreases f
  {
    hide Entry, ItemsOf;
    if f == [] {
      assert Items(f) + items == items && Entries(f) + Source(items) == Source(items);
    } else {
      var b, rest := f[0], Items(f[1..]) + items;
      Associative(ItemsOf(b), Items(f[1..]), items);
      SourceOfItem(b, rest);
      SourceOfItems(f[1..], items);
      Associative(Entry(b), Entries(f[1..]), Source(items));
    }
  }

  lemma {:induction false} SourceOfItem(b: Bookmark, items: seq<Item>)
    ensures Source(ItemsOf(b) + items) == Entry(b) + Source(items)
    decreases b
  {
    if b.kind == URL {
      assert (ItemsOf(b) + items)[1..] == items;
      assert Entry(Bookmark(b.text, b.url, URL, [])) == Entry(b);
    } else {
      var kids, after := Items(b.children), [Close] + items;
      assert ItemsOf(b) + items == [Open("", b.text)] + (kids + after);
      SourceStep(Open("", b.text), kids + after);
      SourceOfItems(b.children, after);
      SourceStep(Close, items);
      FolderText(b, Source(items));
    }
  }

  lemma SourceStep(item: Item, items: seq<Item>)
    ensures Source([item] + items) == Line(item) + Source(items)
  {
    assert ([item] + items)[1..] == items;
  }

  lemma FolderText(b: Bookmark, r: string)
    requires b.kind != URL
    ensures Entry(b) + r == "<DT><H3>" + (b.text + "</H3>\n<DL><P>\n") + (Entries(b.children) + ("</DL><P>\n" + r))
  {
    hide Entries;
    var k := Entries(b.children);
    assert "</H3>\n<DL><P>\n" == "</H3>\n" + "<DL><P>\n";
    assert "<DT><H3>" + b.text + "</H3>\n" + "<DL><P>\n" == "<DT><H3>" + (b.text + "</H3>\n<DL><P>\n");
  }

  lemma {:induction false} WrittenItems(f: seq<Bookmark>)
    requires Writable(f)
    ensures Written(Items(f)) && '&' !in Entries(f)
    decreases f
  {
    if f != [] {
      WrittenItemsOf(f[0]);
      WrittenItems(f[1..]);
    }
  }

  lemma {:induction false} WrittenItemsOf(b: Bookmark)
    requires WritableBookmark(b)
    ensures Written(ItemsOf(b)) && '&' !in Entry(b)
    decreases b
  {
    if b.kind == URL {
      assert '&' !in b.url && '&' !in b.text;
    } else {
      WrittenItems(b.children);
      assert '&' !in b.text;
    }
  }

  // ---- Tokens of the lines ----

  /** A token from which parse takes the URL, whatever stands behind it in the tag. */
  ghost predicate AnchorFor(a: string, url: string) {
    && |a| >= 4 && IsTag(a) && HasPrefixNoCase(a[1..], "<a ")
    && forall before: string :: Scanned(a, before, url)
  }

  predicate Scanned(a: string, before: string, url: string)
    requires |a| >= 4
  {
    var r := ScanAnchor(a[4..], before);
    r.Value? && r.text == Squeeze(false, url)
  }

  /** Behind <dt>: a folder without a URL has a heading tag, the others an anchor. */
  ghost predicate HeadFor(item: Item, head: string) {
    match item
    case Leaf(url, _) => AnchorFor(head, url)
    case Open(url, _) => if url == "" then head == TagToken("H3") else AnchorFor(head, url)
    case Close => true
    case Lost(url) => AnchorFor(head, url)
  }

  ghost predicate Heads(items: seq<Item>, heads: seq<string>) {
    |heads| == |items| && forall i :: 0 <= i < |items| ==> HeadFor(items[i], heads[i])
  }

  function ItemTokens(item: Item, head: string): seq<string> {
    match item
    case Leaf(_, text) => [TagToken("DT"), head] + Words("", false, text) + [TagToken("/A"), " "]
    case Open(_, text) =>
      [TagToken("DT"), head] + Words("", false, text) + [TagToken("/H3"), " "] + [TagToken("DL"), TagToken("P"), " "]
    case Close => [TagToken("/DL"), TagToken("P"), " "]
    case Lost(_) => [TagToken("DT"), head]
  }

  function ItemsTokens(items: seq<Item>, heads: seq<string>): seq<string>
    requires |heads| == |items|
  {
    if items == [] then [] else ItemTokens(items[0], heads[0]) + ItemsTokens(items[1..], heads[1..])
  }

  lemma Prepend(item: Item, items: seq<Item>, head: string, heads: seq<string>, tokens: seq<string>)
    requires HeadFor(item, head) && Heads(items, heads)
    ensures Heads([item] + items, [head] + heads)
    ensures tokens + ItemTokens(item, head) + ItemsTokens(items, heads)
         == tokens + ItemsTokens([item] + items, [head] + heads)
  {
    hide ItemTokens, HeadFor;
    assert ([item] + items)[1..] == items && ([head] + heads)[1..] == heads;
    assert ItemsTokens([item] + items, [head] + heads) == ItemTokens(item, head) + ItemsTokens(items, heads);
  }

  // ---- A tag that is held open ----

  /** The tag up to the '>' behind the URL. */
  function Opening(url: string): string {
    InHref([]).buf + Squeeze(false, url) + "\">"
  }

  predicate HeldBy(st: Lexer, url: string) {
    st.Valid() && st.tag && !st.comment && Opening(url) <= st.buf
  }

  lemma TokenScanned(a: string, url: string, before: string)
    requires '"' !in url && |a| >= 4 && |Opening(url)| <= |a| && Opening(url)[3..] <= a[3..]
    ensures Scanned(a, before, url)
  {
    hide Squeeze, ScanAnchor, HasPrefixNoCase;
    var u := Squeeze(false, url);
    var more := a[|Opening(url)|..];
    assert Opening(url)[3..] == " HREF=\"" + u + "\">";
    assert a[3..] == " HREF=\"" + u + "\">" + more;
    assert a[4..] == "HREF=" + ("\"" + (u + ("\"" + (">" + more))));
    SqueezedChars(false, url, '"');
    ScanSwallowed(u, ">" + more, before);
  }

  lemma HeldToken(a: string, url: string)
    requires '"' !in url && |a| >= |Opening(url)| && Opening(url)[3..] <= a[3..]
    requires a[0] == TAG_ESCAPE && a[1] == '<' && (a[2] == 'a' || a[2] == 'A')
    ensures AnchorFor(a, url)
  {
    hide Squeeze, ScanAnchor, Scanned;
    assert |Opening(url)| >= 5 && Opening(url)[3] == ' ';
    assert Opening(url)[3..][0] == ' ' && a[3] == ' ';
    assert a[1..][..3] == ['<', a[2], ' '];
    assert Lower(a[1..][..3]) == Lower("<a ");
    forall before: string ensures Scanned(a, before, url) {
      TokenScanned(a, url, before);
    }
  }

  lemma UnfinishedToken(st: Lexer, url: string)
    requires HeldBy(st, url) && '"' !in url
    ensures AnchorFor(st.buf, url)
  {
    hide Squeeze, AnchorFor;
    assert Opening(url)[2] == 'A' && st.buf[2] == 'A';
    HeldToken(st.buf, url);
  }

  lemma FinishedToken(st: Lexer, url: string)
    requires HeldBy(st, url) && '"' !in url
    ensures AnchorFor(st.buf[..2] + LowerName(st.buf[2..] + ">"), url)
  {
    hide Squeeze, AnchorFor;
    var o := Opening(url);
    assert o[2] == 'A' && o[3] == ' ' && |o| > 3;
    var rest := st.buf[3..] + ">";
    assert st.buf[2] == 'A' && st.buf[3] == ' ';
    assert st.buf[2..] + ">" == "A" + rest;
    LowerOfName("A", rest);
    assert Lower("A") == "a";
    var a := st.buf[..2] + LowerName(st.buf[2..] + ">");
    assert a == st.buf[..2] + ("a" + rest);
    assert a[3..] == rest;
    HeldToken(a, url);
  }

  lemma CloseHeld(st: Lexer, url: string, r: string)
    requires HeldBy(st, url) && !st.tquote && '"' !in url && '&' !in r
    ensures var a := st.buf[..2] + LowerName(st.buf[2..] + ">");
      AnchorFor(a, url) && Run(st, ">" + r) == Run(Resting(st.tokens + [a], false), r)
  {
    hide Opening, AnchorFor, LowerName;
    FinishedToken(st, url);
    assert (">" + r)[1..] == r;
    assert Run(st, ">" + r) == Run(CloseTag(st), r);
  }

  /** One character of a text inside an open tag that does not end it. */
  function HeldStep(st: Lexer, c: char): Lexer
    requires st.Valid() && st.tag
  {
    if c == ' ' then Blank(st)
    else if c == '"' || c == '\'' then Quote(st, c)
    else if c == '=' then Equals(st)
    else st.(buf := st.buf + [c], space := false, discardCR := false)
  }

  lemma HeldStepRun(st: Lexer, url: string, c: char, r: string)
    requires HeldBy(st, url) && TextChar(c) && '&' !in r && (c == '>' ==> st.tquote)
    ensures HeldBy(HeldStep(st, c), url) && HeldStep(st, c).tokens == st.tokens
    ensures Run(st, [c] + r) == Run(HeldStep(st, c), r)
  {
    hide Run, OpenTag, CloseTag, Squeeze;
    assert ([c] + r)[1..] == r;
    RunStep(st, [c] + r);
    assert Opening(url)[|Opening(url)| - 1] == '>';
  }

  lemma RemainderStep(st: Lexer, url: string, t: string)
    requires HeldBy(st, url) && t != "" && TextChar(t[0]) && (t[0] == '>' ==> st.tquote)
    ensures var e := HeldStep(st, t[0]);
      && e.buf != ""
      && Remainder(st.buf[|st.buf| - 1], st.space, st.tquote, t)
         == Remainder(e.buf[|e.buf| - 1], e.space, e.tquote, t[1..])
  {
    hide Opening, Remainder;
    RemainderCases(st.buf[|st.buf| - 1], st.space, st.tquote, t);
  }

  lemma RemainderCases(last: char, space: bool, quoted: bool, t: string)
    requires t != "" && (t[0] == '>' ==> quoted)
    ensures Remainder(last, space, quoted, t)
         == (if t[0] == ' ' then Remainder(if space then last else ' ', true, quoted, t[1..])
             else if t[0] == '"' || t[0] == '\'' then
               if last == '=' then Remainder('"', false, true, t[1..])
               else if quoted then Remainder(' ', true, false, t[1..])
               else Remainder(last, space, quoted, t[1..])
             else if t[0] == '=' && !quoted then Remainder('=', true, quoted, t[1..])
             else Remainder(t[0], false, quoted, t[1..]))
  {
  }

  /** A text inside an open tag, up to the next tag. */
  lemma {:induction false} HeldText(st: Lexer, url: string, t: string, r: string) returns (a: string, e: Lexer)
    requires HeldBy(st, url) && '"' !in url && CleanText(t) && '&' !in r && !("!-" <= r)
    ensures '&' !in t
    ensures var w := Remainder(st.buf[|st.buf| - 1], st.space, st.tquote, t);
      && (w.Some? ==>
            && AnchorFor(a, url) && CleanText(w.value) && '&' !in w.value
            && Run(st, t + ("<" + r)) == Run(Resting(st.tokens + [a], false), w.value + ("<" + r)))
      && (w.None? ==>
            && HeldBy(e, url) && e.tquote && e.tokens == st.tokens
            && Run(st, t + ("<" + r)) == Run(e, "<" + r))
    decreases |t|
  {
    hide Run, Opening, AnchorFor, Resting;
    var src := t + ("<" + r);
    a, e := "", st;
    if t == "" {
      assert src == "<" + r;
      if !st.tquote {
        a := st.buf;
        UnfinishedToken(st, url);
        NextTag(st, url, r);
        assert "" + ("<" + r) == "<" + r;
      }
    } else {
      assert TextChar(t[0]) && CleanText(t[1..]);
      assert src == [t[0]] + (t[1..] + ("<" + r));
      if t[0] == '>' && !st.tquote {
        CloseHeld(st, url, t[1..] + ("<" + r));
        a := st.buf[..2] + LowerName(st.buf[2..] + ">");
      } else {
        HeldStepRun(st, url, t[0], t[1..] + ("<" + r));
        RemainderStep(st, url, t);
        a, e := HeldText(HeldStep(st, t[0]), url, t[1..], r);
      }
    }
  }

  /** The next '<' queues an open tag as it is. */
  lemma NextTag(st: Lexer, url: string, r: string)
    requires HeldBy(st, url) && !st.tquote && '&' !in r && !("!-" <= r)
    ensures Run(st, "<" + r) == Run(Resting(st.tokens + [st.buf], false), "<" + r)
  {
    hide Run, CloseTag, Squeeze;
    assert ("<" + r)[1..] == r;
    RunStep(st, "<" + r);
    RunStep(Resting(st.tokens + [st.buf], false), "<" + r);
  }

  /** Inside quotes everything without quotes stays in the tag. */
  lemma {:induction false} HeldSkip(st: Lexer, url: string, s: string, r: string) returns (e: Lexer)
    requires HeldBy(st, url) && st.tquote && Unquoted(s) && '&' !in r
    ensures HeldBy(e, url) && e.tquote && e.tokens == st.tokens && Run(st, s + r) == Run(e, r)
    ensures s != "" && s[|s| - 1] !in " \n\t\r" ==> e.buf[|e.buf| - 1] == s[|s| - 1] && !e.space && !e.discardCR
    decreases |s|
  {
    hide Run, Opening, OpenTag, CloseTag;
    e := st;
    if s == "" {
      assert s + r == r;
    } else {
      var src := s[1..] + r;
      assert s + r == [s[0]] + src && ([s[0]] + src)[1..] == src;
      RunStep(st, [s[0]] + src);
      var next := Step(st, [s[0]] + src).0;
      assert HeldBy(next, url) && next.tquote && next.tokens == st.tokens;
      e := HeldSkip(next, url, s[1..], r);
      if |s| == 1 {
        assert s[1..] + r == r;
        assert Run(next, r) == Run(st, s + r);
        e := next;
      }
    }
  }

  /** Behind the URL: the quote, and if it ends the quotation the tag ends as well. */
  lemma NextUrl(st: Lexer, held: string, url: string, r: string) returns (a: string, e: Lexer)
    requires HeldBy(st, held) && st.tquote && !st.space && st.buf[|st.buf| - 1] == '='
    requires '"' !in held && UrlOk(url) && '&' !in r
    ensures '&' !in url
    ensures var src := "\"" + (url + ("\"" + (">" + r)));
      && (!EndsInEquals(url) ==>
            AnchorFor(a, held) && Run(st, src) == Run(Resting(st.tokens + [a], false), r))
      && (EndsInEquals(url) ==>
            && HeldBy(e, held) && e.tquote && e.tokens == st.tokens && !e.space && e.buf[|e.buf| - 1] == '>'
            && Run(st, src) == Run(e, r))
  {
    hide Run, Opening, AnchorFor, Squeeze;
    assert '&' !in url;
    var q := st.(buf := st.buf + "\"", space := false, discardCR := false);
    Requote(st, url + ("\"" + (">" + r)));
    a, e := "", st;
    if EndsInEquals(url) {
      UrlThenEquals(q, url, "\"" + (">" + r));
      SqueezedEnd(false, url);
      var q2 := q.(buf := q.buf + Squeeze(false, url), space := false, discardCR := false);
      assert q2.buf[|q2.buf| - 1] == '=';
      e := OpenAgain(q2, held, r);
    } else {
      UrlThenQuote(q, url, ">" + r);
      var q2 := q.(buf := q.buf + Squeeze(false, url) + "\" ", tquote := false, space := true, discardCR := true);
      CloseHeld(q2, held, r);
      a := q2.buf[..2] + LowerName(q2.buf[2..] + ">");
    }
  }

  lemma OpenAgain(st: Lexer, held: string, r: string) returns (e: Lexer)
    requires HeldBy(st, held) && st.tquote && '&' !in r && st.buf[|st.buf| - 1] == '='
    ensures HeldBy(e, held) && e.tquote && e.tokens == st.tokens && !e.space && e.buf == st.buf + "\">"
    ensures Run(st, "\"" + (">" + r)) == Run(e, r)
  {
    hide Run, Opening;
    Requote(st, ">" + r);
    var q := st.(buf := st.buf + "\"", space := false, discardCR := false);
    HeldStepRun(q, held, '>', r);
    e := HeldStep(q, '>');
    assert [('>')] + r == ">" + r;
    assert st.buf + "\"" + ">" == st.buf + "\">";
  }

  // ---- Pieces of text between tags ----

  lemma AnchorText(tokens: seq<string>, t: string, r: string)
    requires CleanText(t) && '&' !in r
    ensures '&' !in t
    ensures Run(Resting(tokens, false), t + ("<" + ("/A>\n" + r)))
         == Run(Resting(tokens + (Words("", false, t) + [TagToken("/A"), " "]), true), r)
  {
    hide Run, Words, Lower;
    assert '&' !in t;
    assert "/A>\n" + r == "/A" + (">" + ("\n" + r));
    TextTag(tokens, false, t, "/A", "\n" + r);
    var t1 := tokens + Words("", false, t) + [TagToken("/A")];
    NewLine(t1, false, r);
    assert t1 + [" "] == tokens + (Words("", false, t) + [TagToken("/A"), " "]);
  }

  lemma HeadingText(tokens: seq<string>, t: string, r: string)
    requires CleanText(t) && '&' !in r
    ensures '&' !in t
    ensures Run(Resting(tokens, false), t + ("<" + ("/H3>\n<DL><P>\n" + r)))
         == Run(Resting(tokens + (Words("", false, t) + [TagToken("/H3"), " "] + [TagToken("DL"), TagToken("P"), " "]), true), r)
  {
    hide Run, Words, Lower;
    assert '&' !in t;
    var list := "<" + ("DL" + (">" + ("<" + ("P" + (">" + ("\n" + r))))));
    HeadingEndShape(r, list);
    TextTag(tokens, false, t, "/H3", "\n" + list);
    var t1 := tokens + Words("", false, t) + [TagToken("/H3")];
    NewLine(t1, false, list);
    NestedStart(t1 + [" "], r);
    assert t1 + [" "] + [TagToken("DL"), TagToken("P"), " "]
        == tokens + (Words("", false, t) + [TagToken("/H3"), " "] + [TagToken("DL"), TagToken("P"), " "]);
  }

  lemma HeadingEndShape(r: string, list: string)
    requires list == "<" + ("DL" + (">" + ("<" + ("P" + (">" + ("\n" + r))))))
    ensures "/H3>\n<DL><P>\n" + r == "/H3" + (">" + ("\n" + list))
  {
    assert list == "<DL><P>\n" + r;
    assert "/H3>\n<DL><P>\n" == "/H3" + ">" + "\n" + "<DL><P>\n";
  }

  lemma LeafShape(u: string, t: string, r: string)
    ensures Line(Leaf(u, t)) + r
         == "<DT><A HREF=" + ("\"" + (u + ("\"" + (">" + (t + ("<" + ("/A>\n" + r)))))))
  {
    UrlEntryText(Bookmark(t, u, URL, []), r);
    assert "/A" + (">" + ("\n" + r)) == "/A>\n" + r;
    AnchorPrefix(u + ("\"" + (">" + (t + ("<" + ("/A>\n" + r))))));
  }

  lemma AnchorPrefix(x: string)
    ensures "<" + ("DT" + (">" + ("<A HREF=\"" + x))) == "<DT><A HREF=" + ("\"" + x)
  {
    assert "<DT><A HREF=" == "<" + ("DT" + (">" + "<A HREF="));
    assert "<A HREF=\"" == "<A HREF=" + "\"";
  }

  lemma OpenShape(u: string, t: string, r: string)
    ensures Line(Open(u, t)) + r == "<DT><H3>" + (t + ("<" + ("/H3>\n<DL><P>\n" + r)))
  {
    assert "</H3>\n<DL><P>\n" == "<" + "/H3>\n<DL><P>\n";
    var list, head := "/H3>\n<DL><P>\n", "</H3>\n<DL><P>\n";
    assert head + r == "<" + (list + r);
    assert "<DT><H3>" + (t + head) + r == "<DT><H3>" + (t + (head + r));
  }

  // ---- Tokenizing the lines ----

  lemma {:induction false} WrittenSource(items: seq<Item>)
    requires Written(items)
    ensures '&' !in Source(items)
  {
    if items != [] {
      assert WrittenItem(items[0]);
      WrittenLine(items[0]);
      WrittenSource(items[1..]);
    }
  }

  lemma WrittenLine(item: Item)
    requires WrittenItem(item)
    ensures '&' !in Line(item)
  {
    if item.Leaf? {
      assert '&' !in item.url && '&' !in item.text;
    } else if item.Open? {
      assert '&' !in item.text;
    }
  }

  lemma AnchorTokenIsHead(url: string)
    requires UrlOk(url)
    ensures AnchorFor(AnchorToken(url), url)
  {
    hide Squeeze, ScanAnchor, Scanned, AnchorToken;
    assert '"' !in url;
    var u, a := Squeeze(false, url), AnchorToken(url);
    AnchorTokenParts(url);
    assert a[1..][..3] == "<a ";
    SqueezedChars(false, url, '"');
    forall before: string ensures Scanned(a, before, url) {
      AnchorScanned(url, before);
    }
  }

  lemma AnchorTokenParts(url: string)
    ensures var a, p := AnchorToken(url), "HREF=" + ("\"" + (Squeeze(false, url) + ("\"" + " >")));
      && a == [TAG_ESCAPE, '<', 'a', ' '] + p
      && |a| >= 4 && a[4..] == p && a[1..] == "<a " + p
  {
    hide Squeeze;
    var u := Squeeze(false, url);
    var p := "HREF=" + ("\"" + (u + ("\"" + " >")));
    assert " HREF=\"" == " " + ("HREF=" + "\"");
    assert "\" >" == "\"" + " >";
    assert " HREF=\"" + u + "\" >" == " " + p;
  }

  lemma AnchorScanned(url: string, before: string)
    requires '"' !in Squeeze(false, url)
    ensures |AnchorToken(url)| >= 4 && Scanned(AnchorToken(url), before, url)
  {
    hide Squeeze, ScanAnchor, AnchorToken;
    AnchorTokenParts(url);
    ScanHref(Squeeze(false, url), before);
  }

  /** A line that swallows nothing. */
  lemma ItemRun(tokens: seq<string>, space: bool, item: Item, r: string) returns (head: string)
    requires WrittenItem(item) && '&' !in r && (item.Leaf? ==> !EndsInEquals(item.url))
    ensures HeadFor(item, head)
    ensures '&' !in Line(item)
    ensures Run(Resting(tokens, space), Line(item) + r) == Run(Resting(tokens + ItemTokens(item, head), true), r)
  {
    hide Run, Words, Lower, Entry, AnchorFor, Squeeze;
    WrittenLine(item);
    if item.Leaf? {
      var b := Bookmark(item.text, item.url, URL, []);
      AnchorTokenIsHead(item.url);
      head := AnchorToken(item.url);
      UrlEntry(tokens, space, b, r);
    } else if item.Open? {
      assert '&' !in item.text;
      head := TagToken("H3");
      assert Line(item) + r == "<DT><H3>" + (item.text + ("</H3>\n<DL><P>\n" + r));
      FolderHead(tokens, space, item.text, r);
    } else {
      head := "";
      ListEnd(tokens, space, r);
    }
  }

  /** A line whose URL ends in '=': the tag is open behind it. */
  lemma EqualsRun(tokens: seq<string>, space: bool, url: string, t: string, r: string) returns (e: Lexer)
    requires UrlOk(url) && EndsInEquals(url) && CleanText(t) && '&' !in r && '&' !in t && '&' !in Line(Leaf(url, t))
    ensures url != ""
    ensures HeldBy(e, url) && e.tquote && !e.space && e.buf[|e.buf| - 1] == '>' && e.tokens == tokens + [TagToken("DT")]
    ensures Run(Resting(tokens, space), Line(Leaf(url, t)) + r) == Run(e, t + ("<" + ("/A>\n" + r)))
  {
    hide Run, Lower, Entry, AnchorToken, Line;
    assert '&' !in url;
    var rest := t + ("<" + ("/A>\n" + r));
    var body := url + ("\"" + (">" + rest));
    LeafShape(url, t, r);
    AnchorPrefix(body);
    Tag(tokens, space, "DT", "<A HREF=\"" + body);
    var t1 := tokens + [TagToken("DT")];
    HrefOpen(t1, false, body);
    UrlThenEquals(InHref(t1), url, "\"" + (">" + rest));
    e := OpenedAt(t1, url, rest);
  }

  lemma OpenedAt(tokens: seq<string>, url: string, r: string) returns (e: Lexer)
    requires EndsInEquals(url) && '&' !in r
    ensures HeldBy(e, url) && e.tquote && !e.space && e.buf[|e.buf| - 1] == '>' && e.tokens == tokens
    ensures var st := InHref(tokens).(buf := InHref(tokens).buf + Squeeze(false, url));
      Run(st, "\"" + (">" + r)) == Run(e, r)
  {
    hide Run, Squeeze;
    var st := InHref(tokens).(buf := InHref(tokens).buf + Squeeze(false, url));
    SqueezedEnd(false, url);
    assert st.buf[|st.buf| - 1] == '=';
    Requote(st, ">" + r);
    var q := st.(buf := st.buf + "\"", space := false, discardCR := false);
    assert (">" + r)[1..] == r;
    e := q.(buf := q.buf + ">");
    assert Step(q, ">" + r) == (e, 1);
    RunStep(q, ">" + r);
    assert e.buf == Opening(url);
  }

  /** Tokenizing the lines from outside a tag queues the tokens of the lines received. */
  lemma {:induction false} ReceivedRun(tokens: seq<string>, space: bool, items: seq<Item>) returns (heads: seq<string>)
    requires Written(items)
    ensures '&' !in Source(items)
    ensures Heads(Received(items), heads)
    ensures Finish(Run(Resting(tokens, space), Source(items))) == tokens + ItemsTokens(Received(items), heads)
    decreases |items|, 0
  {
    hide Run, HeldBy, HeadFor, ItemTokens, Line, EndsInEquals;
    WrittenSource(items);
    heads := [];
    if items == [] {
      NothingLeft(Resting(tokens, space));
    } else {
      var item, rest := items[0], items[1..];
      assert WrittenItem(item);
      WrittenSource(rest);
      if item.Leaf? && EndsInEquals(item.url) {
        WrittenLine(item);
        assert '&' !in item.text;
        var e := EqualsRun(tokens, space, item.url, item.text, Source(rest));
        heads := HeldRun(e, tokens, item.url, item.text, rest);
      } else {
        var head := ItemRun(tokens, space, item, Source(rest));
        var more := ReceivedRun(tokens + ItemTokens(item, head), true, rest);
        heads := [head] + more;
        Prepend(item, Received(rest), head, more, tokens);
      }
    }
  }

  lemma HeldLeaf(tokens: seq<string>, a: string, url: string, t: string)
    ensures tokens + [TagToken("DT")] + [a] + (Words("", false, t) + [TagToken("/A"), " "])
         == tokens + ItemTokens(Leaf(url, t), a)
  {
    hide Words, Lower;
  }

  lemma HeldFolder(tokens: seq<string>, a: string, url: string, t: string)
    ensures tokens + [TagToken("DT")] + [a]
            + (Words("", false, t) + [TagToken("/H3"), " "] + [TagToken("DL"), TagToken("P"), " "])
         == tokens + ItemTokens(Open(url, t), a)
  {
    hide Words, Lower;
  }

  /** From inside a held tag in front of the text of a bookmark. */
  lemma {:induction false} HeldRun(st: Lexer, tokens: seq<string>, url: string, t: string, items: seq<Item>) returns (heads: seq<string>)
    requires HeldBy(st, url) && st.tquote && !st.space && st.buf[|st.buf| - 1] == '>'
    requires st.tokens == tokens + [TagToken("DT")] && UrlOk(url) && url != "" && CleanText(t) && Written(items)
    ensures '&' !in t && '&' !in Source(items)
    ensures Heads(Held(url, t, items), heads)
    ensures Finish(Run(st, t + ("<" + ("/A>\n" + Source(items))))) == tokens + ItemsTokens(Held(url, t, items), heads)
    decreases |items|, 1
  {
    hide Run, Opening, HeadFor, ItemTokens, Remainder, Lower;
    WrittenSource(items);
    assert '&' !in t && '"' !in url;
    var r := "/A>\n" + Source(items);
    assert r[0] == '/';
    var a, e := HeldText(st, url, t, r);
    match Swallowed(t)
    case Some(w) => {
      AnchorText(st.tokens + [a], w, Source(items));
      HeldLeaf(tokens, a, url, w);
      assert HeadFor(Leaf(url, w), a) by { HeadOfLeaf(url, w, a); }
      var more := ReceivedRun(tokens + ItemTokens(Leaf(url, w), a), true, items);
      heads := [a] + more;
      Prepend(Leaf(url, w), Received(items), a, more, tokens);
    }
    case None => {
      EndOfAnchor(Source(items));
      var skipped := "</A>\n";
      var e2 := HeldSkip(e, url, skipped, Source(items));
      heads := SeekRun(e2, tokens, url, items);
    }
  }

  lemma EndOfAnchor(r: string)
    ensures "<" + ("/A>\n" + r) == "</A>\n" + r && Unquoted("</A>\n")
  {
  }

  lemma EndOfHeading(r: string)
    ensures "<" + ("/H3>\n<DL><P>\n" + r) == "</H3>\n<DL><P>\n" + r && Unquoted("</H3>\n<DL><P>\n")
  {
    assert "</H3>\n<DL><P>\n" == "<" + "/H3>\n<DL><P>\n";
  }

  lemma TagsAreUnquoted()
    ensures Unquoted("<DT><H3>") && Unquoted("<DT><A HREF=")
    ensures Line(Close) == "</DL><P>\n" && Unquoted(Line(Close))
  {
  }

  lemma HeadOfLeaf(url: string, t: string, a: string)
    requires AnchorFor(a, url)
    ensures HeadFor(Leaf(url, t), a) && HeadFor(Lost(url), a) && (url != "" ==> HeadFor(Open(url, t), a))
  {
  }

  /** From inside quotes in a held tag in front of a line. */
  lemma {:induction false} SeekRun(st: Lexer, tokens: seq<string>, url: string, items: seq<Item>) returns (heads: seq<string>)
    requires HeldBy(st, url) && st.tquote && st.tokens == tokens + [TagToken("DT")]
    requires UrlOk(url) && url != "" && Written(items)
    ensures '&' !in Source(items)
    ensures Heads(Seek(url, items), heads)
    ensures Finish(Run(st, Source(items))) == tokens + ItemsTokens(Seek(url, items), heads)
    decreases |items|, 0
  {
    hide Run, Opening, HeadFor, ItemTokens, Remainder, Lower, Line;
    WrittenSource(items);
    assert '"' !in url;
    if items == [] {
      heads := SeekEnd(st, tokens, url);
    } else {
      var item, rest := items[0], items[1..];
      assert WrittenItem(item);
      WrittenSource(rest);
      assert items == [item] + rest;
      assert Source(items) == Line(item) + Source(rest);
      if item.Leaf? {
        heads := SeekLeaf(st, tokens, url, item.url, item.text, rest);
      } else if item.Open? {
        heads := SeekOpen(st, tokens, url, item, rest);
      } else {
        TagsAreUnquoted();
        var e := HeldSkip(st, url, Line(Close), Source(rest));
        heads := SeekRun(e, tokens, url, rest);
      }
    }
  }

  lemma SeekEnd(st: Lexer, tokens: seq<string>, url: string) returns (heads: seq<string>)
    requires HeldBy(st, url) && st.tokens == tokens + [TagToken("DT")] && '"' !in url
    ensures Heads(Seek(url, []), heads)
    ensures Finish(Run(st, Source([]))) == tokens + ItemsTokens(Seek(url, []), heads)
  {
    hide Opening, AnchorFor, Lower, Squeeze;
    NothingLeft(st);
    UnfinishedToken(st, url);
    heads := [st.buf];
    var i: Item := Lost(url);
    assert HeadFor(i, st.buf);
    Prepend(i, [], st.buf, [], tokens);
    assert [i] + [] == [i] && [st.buf] + [] == [st.buf];
    assert Finish(st) == tokens + ItemTokens(i, st.buf);
    assert ItemsTokens([], []) == [];
  }

  lemma {:induction false} SeekLeaf(st: Lexer, tokens: seq<string>, url: string, u: string, t: string, items: seq<Item>) returns (heads: seq<string>)
    requires HeldBy(st, url) && st.tquote && st.tokens == tokens + [TagToken("DT")]
    requires UrlOk(url) && url != "" && UrlOk(u) && CleanText(t) && Written(items) && '&' !in Source(items)
    ensures '&' !in Line(Leaf(u, t)) + Source(items)
    ensures Heads(Seek(url, [Leaf(u, t)] + items), heads)
    ensures Finish(Run(st, Line(Leaf(u, t)) + Source(items))) == tokens + ItemsTokens(Seek(url, [Leaf(u, t)] + items), heads)
    decreases |items|, 2
  {
    hide Run, Opening, HeadFor, ItemTokens, Lower, Line, EndsInEquals;
    WrittenLine(Leaf(u, t));
    assert '"' !in url && '&' !in t && '&' !in u;
    assert ([Leaf(u, t)] + items)[1..] == items;
    var tail := t + ("<" + ("/A>\n" + Source(items)));
    LeafShape(u, t, Source(items));
    TagsAreUnquoted();
    var skipped := "<DT><A HREF=";
    var e := HeldSkip(st, url, skipped, "\"" + (u + ("\"" + (">" + tail))));
    var a, e2 := NextUrl(e, url, u, tail);
    if EndsInEquals(u) {
      heads := HeldRun(e2, tokens, url, t, items);
    } else {
      AnchorText(st.tokens + [a], t, Source(items));
      HeldLeaf(tokens, a, url, t);
      HeadOfLeaf(url, t, a);
      var more := ReceivedRun(tokens + ItemTokens(Leaf(url, t), a), true, items);
      heads := [a] + more;
      Prepend(Leaf(url, t), Received(items), a, more, tokens);
    }
  }

  lemma {:induction false} SeekOpen(st: Lexer, tokens: seq<string>, url: string, item: Item, items: seq<Item>) returns (heads: seq<string>)
    requires HeldBy(st, url) && st.tquote && st.tokens == tokens + [TagToken("DT")]
    requires UrlOk(url) && url != "" && item.Open? && CleanText(item.text) && Written(items) && '&' !in Source(items)
    ensures '&' !in Line(item) + Source(items)
    ensures Heads(Seek(url, [item] + items), heads)
    ensures Finish(Run(st, Line(item) + Source(items))) == tokens + ItemsTokens(Seek(url, [item] + items), heads)
    decreases |items|, 2
  {
    hide Run, Opening, HeadFor, ItemTokens, Remainder, Lower, Line;
    var t := item.text;
    assert '"' !in url && '&' !in t;
    assert ([item] + items)[1..] == items;
    var r := "/H3>\n<DL><P>\n" + Source(items);
    assert r[0] == '/';
    OpenShape(item.url, t, Source(items));
    EndOfHeading(Source(items));
    TagsAreUnquoted();
    var skipped := "<DT><H3>";
    var e := HeldSkip(st, url, skipped, t + ("<" + r));
    var a, e2 := HeldText(e, url, t, r);
    match Swallowed(t)
    case Some(w) => {
      HeadingText(st.tokens + [a], w, Source(items));
      HeldFolder(tokens, a, url, w);
      HeadOfLeaf(url, w, a);
      var more := ReceivedRun(tokens + ItemTokens(Open(url, w), a), true, items);
      heads := [a] + more;
      Prepend(Open(url, w), Received(items), a, more, tokens);
    }
    case None => {
      var closing := "</H3>\n<DL><P>\n";
      var e3 := HeldSkip(e2, url, closing, Source(items));
      heads := SeekRun(e3, tokens, url, items);
    }
  }
}
