/**
 Reading any file that write emits.  ParseItems ties parse to Build for any lines, and
 ReadGeneral says what comes back of every forest without markup characters.
 */
module BookmarkReadBack {
  import opened CStrings
  import opened BookmarkLexer
  import opened BookmarkTree
  import opened BookmarkTokens
  import opened BookmarkRoundTrip
  import opened BookmarkSwallow

  // ---- Parsing the tokens of the lines ----

  function EndOf(nested: bool): string {
    if nested then "</dl>" else ""
  }

  lemma ParseAnchorFor(a: string, url: string, rest: seq<string>, parent: Bookmark, text: string, end: string)
    requires AnchorFor(a, url) && IsEnd(end) && parent.children != []
    ensures ParseFrom([a] + rest, parent, false, text, end)
         == ParseFrom(rest, SetCurrent(parent, false, Current(parent, false).(url := Squeeze(false, url))), false, "", end)
  {
    hide Squeeze, ScanAnchor, HasPrefixNoCase;
    var str := a[1..];
    assert Scanned(a, Current(parent, false).url, url);
    assert str[3..] == a[4..];
    SecondLetter(str);
    EqualDiffers(str, "</dl>", 1);
    PrefixDiffers(str, "<dl>", 1);
    PrefixDiffers(str, "<dt>", 1);
    assert ([a] + rest)[1..] == rest;
  }

  lemma SecondLetter(str: string)
    requires HasPrefixNoCase(str, "<a ")
    ensures |str| >= 3 && ToLower(str[1]) == 'a'
  {
    assert Lower(str[..3])[1] == Lower("<a ")[1];
  }

  /** <dt> and the tag behind it make a new child with the URL of the line. */
  lemma ParseHead(item: Item, head: string, rest: seq<string>, parent: Bookmark, atParent: bool, text: string, end: string)
    requires !item.Close? && HeadFor(item, head) && IsEnd(end) && (!atParent ==> parent.children != [])
    ensures ParseFrom([TagToken("DT")] + ([head] + rest), parent, atParent, text, end)
         == ParseFrom(rest, WithChild(parent, NewBookmark.(url := Squeeze(false, item.url))), false, "", end)
  {
    hide ParseFrom, AnchorFor, Lower, Squeeze;
    ParseDT([head] + rest, parent, atParent, text, end);
    var p1 := WithChild(parent, NewBookmark);
    if item.Open? && item.url == "" {
      ParseH3(rest, p1, false, text, end);
      NoUrl();
    } else {
      ParseAnchorFor(head, item.url, rest, p1, text, end);
      LastChild(parent, NewBookmark, NewBookmark.(url := Squeeze(false, item.url)));
    }
  }

  lemma NoUrl()
    ensures NewBookmark.(url := Squeeze(false, "")) == NewBookmark
  {
  }

  lemma LastChild(parent: Bookmark, child: Bookmark, next: Bookmark)
    ensures Current(WithChild(parent, child), false) == child
    ensures SetCurrent(WithChild(parent, child), false, next) == WithChild(parent, next)
  {
    assert SetCurrent(WithChild(parent, child), false, next).children == WithChild(parent, next).children;
  }

  /** The words of a text and its end tag give the last child that text. */
  lemma ParseText(name: string, text: string, rest: seq<string>, parent: Bookmark, child: Bookmark, end: string)
    requires (name == "/A" || name == "/H3") && CleanText(text) && IsEnd(end)
    ensures ParseFrom(Words("", false, text) + [TagToken(name), " "] + rest, WithChild(parent, child), false, "", end)
         == ParseFrom(rest, WithChild(parent, child.(text := Squeeze(false, text))), false, Squeeze(false, text) + " ", end)
  {
    hide ParseFrom, Words, Squeeze, Lower;
    var words, p1, t := Words("", false, text), WithChild(parent, child), Squeeze(false, text);
    WordsOfText("", false, text);
    var r3 := [" "] + rest;
    var r2 := [TagToken(name)] + r3;
    assert words + [TagToken(name), " "] + rest == words + r2;
    ParseWords(words, r2, p1, false, "", end);
    assert "" + ("" + t) == t;
    ParseClose(name, r3, p1, false, t, end);
    LastChild(parent, child, child.(text := t));
    ParseWord(" ", rest, WithChild(parent, child.(text := t)), false, t, end);
  }

  /** Texts that reach the parser have no markup characters. */
  predicate CleanItems(items: seq<Item>) {
    forall i :: 0 <= i < |items| ==> (items[i].Leaf? || items[i].Open? ==> CleanText(items[i].text))
  }

  lemma ParseLeaf(url: string, text: string, head: string, rest: seq<string>,
                  parent: Bookmark, atParent: bool, before: string, end: string)
    requires AnchorFor(head, url) && CleanText(text) && IsEnd(end) && (!atParent ==> parent.children != [])
    ensures ParseFrom(ItemTokens(Leaf(url, text), head) + rest, parent, atParent, before, end)
         == ParseFrom(rest, WithChild(parent, Bookmark(Squeeze(false, text), Squeeze(false, url), URL, [])), false,
                      Squeeze(false, text) + " ", end)
  {
    hide ParseFrom, AnchorFor, Words, Lower, Squeeze;
    var inner := Words("", false, text) + [TagToken("/A"), " "];
    assert ItemTokens(Leaf(url, text), head) + rest == [TagToken("DT")] + ([head] + (inner + rest));
    ParseHead(Leaf(url, text), head, inner + rest, parent, atParent, before, end);
    ParseText("/A", text, rest, parent, NewBookmark.(url := Squeeze(false, url)), end);
  }

  lemma ParseOpen(url: string, text: string, head: string, rest: seq<string>,
                  parent: Bookmark, atParent: bool, before: string, end: string)
    requires HeadFor(Open(url, text), head) && CleanText(text) && IsEnd(end) && (!atParent ==> parent.children != [])
    ensures ParseFrom(ItemTokens(Open(url, text), head) + rest, parent, atParent, before, end)
         == ParseFrom([TagToken("DL")] + ([TagToken("P")] + ([" "] + rest)),
                      WithChild(parent, Bookmark(Squeeze(false, text), Squeeze(false, url), URL, [])), false,
                      Squeeze(false, text) + " ", end)
  {
    hide ParseFrom, HeadFor, Words, Lower, Squeeze;
    var inner, list := Words("", false, text) + [TagToken("/H3"), " "], [TagToken("DL")] + ([TagToken("P")] + ([" "] + rest));
    assert ItemTokens(Open(url, text), head) + rest == [TagToken("DT")] + ([head] + (inner + list));
    ParseHead(Open(url, text), head, inner + list, parent, atParent, before, end);
    ParseText("/H3", text, list, parent, NewBookmark.(url := Squeeze(false, url)), end);
  }

  function RestHeads(heads: seq<string>, n: nat): seq<string>
    requires n <= |heads|
  {
    heads[|heads| - n..]
  }

  /**
   The outcome of parse is that of Build: the same folder, and left over are the tokens
   of the same lines behind </dl>, or nothing if the file ended inside the list.
   */
  ghost predicate Agrees(r: Parsed, b: (Bookmark, seq<Item>), heads: seq<string>, nested: bool) {
    && r.Parsed? && r.folder == b.0 && |b.1| <= |heads|
    && CleanItems(b.1) && Heads(b.1, RestHeads(heads, |b.1|))
    && if nested then
         r.rest == [TagToken("P"), " "] + ItemsTokens(b.1, RestHeads(heads, |b.1|)) || (r.rest == [] && b.1 == [])
       else r.rest == [] && b.1 == []
  }

  lemma AgreesBehind(r: Parsed, b: (Bookmark, seq<Item>), heads: seq<string>, n: nat, nested: bool)
    requires n <= |heads| && Agrees(r, b, RestHeads(heads, n), nested)
    ensures Agrees(r, b, heads, nested)
  {
    hide ItemsTokens, Lower, Heads, CleanItems;
    assert RestHeads(RestHeads(heads, n), |b.1|) == RestHeads(heads, |b.1|);
  }

  lemma FirstLine(items: seq<Item>, heads: seq<string>)
    requires items != [] && Heads(items, heads) && CleanItems(items)
    ensures HeadFor(items[0], heads[0]) && Heads(items[1..], heads[1..]) && CleanItems(items[1..])
    ensures items[0].Leaf? || items[0].Open? ==> CleanText(items[0].text)
    ensures items[0].Leaf? || items[0].Lost? ==> AnchorFor(heads[0], items[0].url)
    ensures ItemsTokens(items, heads) == ItemTokens(items[0], heads[0]) + ItemsTokens(items[1..], heads[1..])
    ensures heads[1..] == RestHeads(heads, |items| - 1)
  {
    hide ItemTokens, AnchorFor, CleanText;
  }

  /** parse on the tokens of any lines is Build on the lines. */
  lemma {:induction false} ParseItems(items: seq<Item>, heads: seq<string>, parent: Bookmark, atParent: bool, text: string, nested: bool)
    requires |heads| == |items| && Heads(items, heads) && CleanItems(items) && (!atParent ==> parent.children != [])
    ensures Agrees(ParseFrom(ItemsTokens(items, heads), parent, atParent, text, EndOf(nested)),
                   Build(items, parent, nested), heads, nested)
    decreases |items|, 0
  {
    hide ParseFrom, HeadFor, AnchorFor, ItemTokens, Lower, Squeeze, CleanText, Agrees, Heads, CleanItems, ItemsTokens;
    if items == [] {
      NoLines(heads, parent, atParent, text, nested);
    } else {
      var item, head, rest, more := items[0], heads[0], items[1..], heads[1..];
      FirstLine(items, heads);
      var toks, end := ItemsTokens(rest, more), EndOf(nested);
      match item
      case Leaf(u, t) => {
        var next := WithChild(parent, Bookmark(Squeeze(false, t), Squeeze(false, u), URL, []));
        ParseLeaf(u, t, head, toks, parent, atParent, text, end);
        ParseItems(rest, more, next, false, Squeeze(false, t) + " ", nested);
        AgreesBehind(ParseFrom(toks, next, false, Squeeze(false, t) + " ", end), Build(rest, next, nested), heads, |rest|, nested);
      }
      case Lost(u) => {
        var next := WithChild(parent, Bookmark("", Squeeze(false, u), URL, []));
        ParseLost(u, head, toks, parent, atParent, text, end);
        ParseItems(rest, more, next, false, "", nested);
        AgreesBehind(ParseFrom(toks, next, false, "", end), Build(rest, next, nested), heads, |rest|, nested);
      }
      case Open(u, t) => {
        ParseList(u, t, head, rest, more, parent, atParent, text, nested);
        AgreesBehind(ParseFrom(ItemTokens(item, head) + toks, parent, atParent, text, end), Build(items, parent, nested),
          heads, |rest|, nested);
      }
      case Close => {
        ParseListEnd(head, rest, more, parent, atParent, text, nested);
        AgreesBehind(ParseFrom(ItemTokens(item, head) + toks, parent, atParent, text, end), Build(items, parent, nested),
          heads, |rest|, nested);
      }
    }
  }

  lemma ParseLost(url: string, head: string, rest: seq<string>, parent: Bookmark, atParent: bool, text: string, end: string)
    requires HeadFor(Lost(url), head) && IsEnd(end) && (!atParent ==> parent.children != [])
    ensures ParseFrom(ItemTokens(Lost(url), head) + rest, parent, atParent, text, end)
         == ParseFrom(rest, WithChild(parent, Bookmark("", Squeeze(false, url), URL, [])), false, "", end)
  {
    hide ParseFrom, HeadFor, Lower, Squeeze;
    assert ItemTokens(Lost(url), head) + rest == [TagToken("DT")] + ([head] + rest);
    ParseHead(Lost(url), head, rest, parent, atParent, text, end);
  }

  lemma NoLines(heads: seq<string>, parent: Bookmark, atParent: bool, text: string, nested: bool)
    requires heads == [] && (!atParent ==> parent.children != [])
    ensures Agrees(ParseFrom(ItemsTokens([], heads), parent, atParent, text, EndOf(nested)),
                   Build([], parent, nested), heads, nested)
  {
    hide ParseFrom, TagToken, Lower, Agrees, Build;
    assert ItemsTokens([], heads) == [];
    ParseAtEnd(parent, atParent, text, EndOf(nested));
    BuildNothing(parent, nested);
    AgreesAtEnd(parent, nested);
  }

  lemma AgreesAtEnd(parent: Bookmark, nested: bool)
    ensures Agrees(Parsed(parent, []), (parent, []), [], nested)
  {
    hide TagToken, ItemsTokens;
    var none: seq<Item> := [];
    assert RestHeads([], 0) == [] && Heads(none, []);
  }

  /** </dl> ends a nested list and means nothing at the top. */
  lemma {:induction false} ParseListEnd(head: string, items: seq<Item>, heads: seq<string>,
                                        parent: Bookmark, atParent: bool, text: string, nested: bool)
    requires |heads| == |items| && Heads(items, heads) && CleanItems(items) && (!atParent ==> parent.children != [])
    ensures Agrees(ParseFrom(ItemTokens(Close, head) + ItemsTokens(items, heads), parent, atParent, text, EndOf(nested)),
                   Build([Close] + items, parent, nested), heads, nested)
    decreases |items|, 1
  {
    hide ParseFrom, Lower, ItemsTokens, Heads, CleanItems;
    var toks := ItemsTokens(items, heads);
    var after := [TagToken("P"), " "] + toks;
    assert ([Close] + items)[1..] == items;
    assert ItemTokens(Close, head) + toks == [TagToken("/DL")] + after;
    if nested {
      ParseEnd(after, parent, atParent, text);
      assert RestHeads(heads, |items|) == heads by { HeadsMatch(items, heads); }
    } else {
      ParseIgnored("/DL", after, parent, atParent, text, "");
      ParseSkip(toks, parent, atParent, text, "");
      ParseItems(items, heads, parent, atParent, text + " ", false);
    }
  }

  lemma HeadsMatch(items: seq<Item>, heads: seq<string>)
    requires Heads(items, heads)
    ensures |heads| == |items| && RestHeads(heads, |items|) == heads
  {
  }

  lemma ParseSkip(toks: seq<string>, parent: Bookmark, atParent: bool, text: string, end: string)
    requires IsEnd(end) && (!atParent ==> parent.children != [])
    ensures ParseFrom([TagToken("P"), " "] + toks, parent, atParent, text, end)
         == ParseFrom(toks, parent, atParent, text + " ", end)
    ensures [TagToken("P"), " "] + toks == [TagToken("P")] + ([" "] + toks)
  {
    hide ParseFrom, Lower;
    assert [TagToken("P"), " "] + toks == [TagToken("P")] + ([" "] + toks);
    ParseIgnored("P", [" "] + toks, parent, atParent, text, end);
    ParseWord(" ", toks, parent, atParent, text, end);
  }

  /** A folder line, the lines of its list and those behind it. */
  lemma {:induction false} ParseList(u: string, t: string, head: string, items: seq<Item>, heads: seq<string>,
                                     parent: Bookmark, atParent: bool, text: string, nested: bool)
    requires HeadFor(Open(u, t), head) && CleanText(t)
    requires |heads| == |items| && Heads(items, heads) && CleanItems(items) && (!atParent ==> parent.children != [])
    ensures Agrees(ParseFrom(ItemTokens(Open(u, t), head) + ItemsTokens(items, heads), parent, atParent, text, EndOf(nested)),
                   Build([Open(u, t)] + items, parent, nested), heads, nested)
    decreases |items|, 2
  {
    hide ParseFrom, HeadFor, ItemTokens, ItemsTokens, Lower, Squeeze, CleanText, Agrees, Heads, CleanItems;
    var toks, before, end := ItemsTokens(items, heads), Squeeze(false, t) + " ", EndOf(nested);
    var list := [TagToken("P")] + ([" "] + toks);
    ParseOpen(u, t, head, toks, parent, atParent, text, end);
    var entry := Bookmark(Squeeze(false, t), Squeeze(false, u), URL, []);
    ParseDL(list, WithChild(parent, entry), false, before, end);
    // the nested call
    var folder := entry.(kind := Folder);
    ParseSkip(toks, folder, true, "", "</dl>");
    ParseItems(items, heads, folder, true, "" + " ", true);
    var inner := Build(items, folder, true);
    var r1 := ParseFrom(toks, folder, true, "" + " ", "</dl>");
    LastChild(parent, entry, inner.0);
    assert Parse(list, entry, "</dl>") == r1;
    assert ([Open(u, t)] + items)[1..] == items;
    // back in the caller
    ParseBehindList(r1, inner, heads, WithChild(parent, inner.0), before, nested, |items|);
    assert Build([Open(u, t)] + items, parent, nested) == Build(inner.1, WithChild(parent, inner.0), nested);
    assert r1.Parsed? && r1.folder == inner.0 by { AgreesOn(r1, inner, heads, true); }
  }

  lemma AgreesOn(r: Parsed, b: (Bookmark, seq<Item>), heads: seq<string>, nested: bool)
    requires Agrees(r, b, heads, nested)
    ensures r.Parsed? && r.folder == b.0
  {
  }

  lemma {:induction false} ParseBehindList(r: Parsed, b: (Bookmark, seq<Item>), heads: seq<string>,
                                           parent: Bookmark, text: string, nested: bool, n: nat)
    requires Agrees(r, b, heads, true) && parent.children != [] && |b.1| <= n
    ensures r.Parsed?
    ensures Agrees(ParseFrom(r.rest, parent, false, text, EndOf(nested)), Build(b.1, parent, nested), heads, nested)
    decreases n, 1
  {
    hide ParseFrom, Lower, Heads, CleanItems, ItemsTokens;
    var rest, more := b.1, RestHeads(heads, |b.1|);
    if r.rest == [] && rest == [] {
      ParseAtEnd(parent, false, text, EndOf(nested));
      assert RestHeads(heads, 0) == [];
    } else {
      ParseSkip(ItemsTokens(rest, more), parent, false, text, EndOf(nested));
      ParseItems(rest, more, parent, false, text + " ", nested);
      AgreesBehind(ParseFrom(ItemsTokens(rest, more), parent, false, text + " ", EndOf(nested)), Build(rest, parent, nested),
        heads, |rest|, nested);
    }
  }

  lemma ParseAtEnd(parent: Bookmark, atParent: bool, text: string, end: string)
    requires !atParent ==> parent.children != []
    ensures ParseFrom([], parent, atParent, text, end) == Parsed(parent, [])
  {
  }

  // ---- Reading any written file ----

  /** What is left of a text is its end, and less than the text if there is one. */
  lemma {:induction false} RemainderIsSuffix(last: char, space: bool, quoted: bool, t: string)
    ensures var w := Remainder(last, space, quoted, t);
      w.Some? ==> |w.value| <= |t| && w.value == t[|t| - |w.value|..] && (t != "" ==> |w.value| < |t|)
    decreases |t|
  {
    if t != "" && !(t[0] == '>' && !quoted) {
      var c, r := t[0], t[1..];
      if c == ' ' {
        RemainderIsSuffix(if space then last else ' ', true, quoted, r);
      } else if c == '"' || c == '\'' {
        RemainderIsSuffix('"', false, true, r);
        RemainderIsSuffix(' ', true, false, r);
        RemainderIsSuffix(last, space, quoted, r);
      } else if c == '=' && !quoted {
        RemainderIsSuffix('=', true, quoted, r);
      } else {
        RemainderIsSuffix(c, false, quoted, r);
      }
    }
  }

  lemma SwallowedIsClean(t: string)
    requires CleanText(t)
    ensures Swallowed(t).Some? ==> CleanText(Swallowed(t).value) && |Swallowed(t).value| < |t|
  {
    hide Remainder;
    RemainderIsSuffix('>', false, true, t);
    SwallowedNothing();
  }

  lemma SwallowedNothing()
    ensures Swallowed("").None?
  {
  }

  lemma {:induction false} ReceivedIsClean(items: seq<Item>)
    requires Written(items)
    ensures CleanItems(Received(items))
    decreases |items|, 0
  {
    hide Swallowed, CleanText, EndsInEquals;
    if items != [] {
      var item, rest := items[0], items[1..];
      assert WrittenItem(item);
      ReceivedIsClean(rest);
      if item.Leaf? {
        HeldIsClean(item.url, item.text, rest);
      }
    }
  }

  lemma {:induction false} HeldIsClean(url: string, text: string, items: seq<Item>)
    requires CleanText(text) && Written(items)
    ensures CleanItems(Held(url, text, items))
    decreases |items|, 1
  {
    hide Swallowed, CleanText, EndsInEquals;
    SwallowedIsClean(text);
    ReceivedIsClean(items);
    SeekIsClean(url, items);
  }

  lemma {:induction false} SeekIsClean(url: string, items: seq<Item>)
    requires Written(items)
    ensures CleanItems(Seek(url, items))
    decreases |items|, 0
  {
    hide Swallowed, CleanText, EndsInEquals;
    if items != [] {
      var item, rest := items[0], items[1..];
      assert WrittenItem(item);
      ReceivedIsClean(rest);
      SeekIsClean(url, rest);
      if item.Leaf? {
        HeldIsClean(url, item.text, rest);
      } else if item.Open? {
        SwallowedIsClean(item.text);
      }
    }
  }

  lemma BuildLeaf(u: string, t: string, items: seq<Item>, parent: Bookmark, nested: bool)
    ensures Build([Leaf(u, t)] + items, parent, nested)
         == Build(items, WithChild(parent, Bookmark(Squeeze(false, t), Squeeze(false, u), URL, [])), nested)
  {
    assert ([Leaf(u, t)] + items)[1..] == items;
  }

  lemma BuildOpen(u: string, t: string, items: seq<Item>, parent: Bookmark, nested: bool)
    ensures var (child, rest) := Build(items, Bookmark(Squeeze(false, t), Squeeze(false, u), Folder, []), true);
      Build([Open(u, t)] + items, parent, nested) == Build(rest, WithChild(parent, child), nested)
  {
    assert ([Open(u, t)] + items)[1..] == items;
  }

  lemma BuildClose(items: seq<Item>, parent: Bookmark)
    ensures Build([Close] + items, parent, true) == (parent, items)
  {
    assert ([Close] + items)[1..] == items;
  }

  lemma BuildNothing(parent: Bookmark, nested: bool)
    ensures Build([], parent, nested) == (parent, [])
  {
  }

  lemma BuildLost(u: string, items: seq<Item>, parent: Bookmark, nested: bool)
    ensures Build([Lost(u)] + items, parent, nested)
         == Build(items, WithChild(parent, Bookmark("", Squeeze(false, u), URL, [])), nested)
  {
    assert ([Lost(u)] + items)[1..] == items;
  }

  lemma BuildTopClose(items: seq<Item>, parent: Bookmark)
    ensures Build([Close] + items, parent, false) == Build(items, parent, false)
  {
    assert ([Close] + items)[1..] == items;
  }

  lemma SameChildren(parent: Bookmark)
    ensures parent.(children := parent.children + NewBookmark.children) == parent
  {
  }

  /** The folder that is filled only gives its own fields and the children it has. */
  lemma {:induction false} BuildInto(items: seq<Item>, parent: Bookmark, nested: bool)
    ensures var b, c := Build(items, parent, nested), Build(items, NewBookmark, nested);
      b.0 == parent.(children := parent.children + c.0.children) && b.1 == c.1
    decreases |items|, 0
  {
    hide Squeeze, Build;
    SameChildren(parent);
    if items == [] {
      BuildNothing(parent, nested);
      BuildNothing(NewBookmark, nested);
    } else {
      var rest := items[1..];
      assert items == [items[0]] + rest;
      match items[0]
      case Leaf(u, t) => {
        BuildLeaf(u, t, rest, parent, nested);
        BuildLeaf(u, t, rest, NewBookmark, nested);
        BuildBehind(rest, parent, Bookmark(Squeeze(false, t), Squeeze(false, u), URL, []), nested);
      }
      case Lost(u) => {
        BuildLost(u, rest, parent, nested);
        BuildLost(u, rest, NewBookmark, nested);
        BuildBehind(rest, parent, Bookmark("", Squeeze(false, u), URL, []), nested);
      }
      case Open(u, t) => {
        BuildOpen(u, t, rest, parent, nested);
        BuildOpen(u, t, rest, NewBookmark, nested);
        var (child, after) := Build(rest, Bookmark(Squeeze(false, t), Squeeze(false, u), Folder, []), true);
        BuildBehind(after, parent, child, nested);
      }
      case Close => {
        if nested {
          BuildClose(rest, parent);
          BuildClose(rest, NewBookmark);
        } else {
          BuildTopClose(rest, parent);
          BuildTopClose(rest, NewBookmark);
          BuildInto(rest, parent, nested);
        }
      }
    }
  }

  lemma {:induction false} BuildBehind(items: seq<Item>, parent: Bookmark, child: Bookmark, nested: bool)
    ensures var b, c := Build(items, WithChild(parent, child), nested), Build(items, WithChild(NewBookmark, child), nested);
      b.0 == parent.(children := parent.children + c.0.children) && b.1 == c.1
    decreases |items|, 1
  {
    hide Build;
    BuildInto(items, WithChild(parent, child), nested);
    BuildInto(items, WithChild(NewBookmark, child), nested);
    var more := Build(items, NewBookmark, nested).0.children;
    Associative(parent.children, [child], more);
    assert NewBookmark.children + [child] == [child];
  }

  lemma LinesAreWritten(f: seq<Bookmark>)
    requires Writable(f)
    ensures Written(Lines(f)) && Source(Lines(f)) == Entries(f) + ("</DL><P>\n" + "")
  {
    WrittenItems(f);
    SourceOfItems(f, [Close]);
    SourceStep(Close, []);
    assert [Close] + [] == [Close] && Source([]) == "";
  }

  lemma BodyIsBuilt(items: seq<Item>, heads: seq<string>, root: Bookmark)
    requires |heads| == |items| && Heads(items, heads) && CleanItems(items) && root.children == []
    ensures Parse([TagToken("p"), " "] + ItemsTokens(items, heads), root, "")
         == Parsed(root.(kind := Folder, children := Build(items, NewBookmark, false).0.children), [])
  {
    hide ParseFrom, Heads, ItemsTokens, CleanItems, Lower, Build, Parse;
    var folder := root.(kind := Folder);
    var toks := ItemsTokens(items, heads);
    BodyStart(toks, root);
    ParseItems(items, heads, folder, true, " ", false);
    var blank := " ";
    AgreesAtTop(ParseFrom(toks, folder, true, blank, ""), Build(items, folder, false), heads);
    BuildInto(items, folder, false);
    FilledRoot(root, Build(items, NewBookmark, false).0.children);
  }

  lemma AgreesAtTop(r: Parsed, b: (Bookmark, seq<Item>), heads: seq<string>)
    requires Agrees(r, b, heads, false)
    ensures r == Parsed(b.0, [])
  {
  }

  lemma FilledRoot(root: Bookmark, kids: seq<Bookmark>)
    requires root.children == []
    ensures var folder := root.(kind := Folder);
      folder.(children := folder.children + kids) == root.(kind := Folder, children := kids)
  {
    assert [] + kids == kids;
  }

  /** The tokens of a written file are those of the lines that no open tag swallows. */
  lemma TokensReceived(notice: string, title: string, f: seq<Bookmark>) returns (heads: seq<string>)
    requires IsNotice(notice) && CleanText(title) && Writable(f)
    ensures '&' !in Document(notice, title, f)
    ensures |heads| == |Received(Lines(f))| && Heads(Received(Lines(f)), heads)
    ensures Tokenize(Document(notice, title, f))
         == HeadTokens(title) + ([TagToken("p"), " "] + ItemsTokens(Received(Lines(f)), heads))
  {
    hide Run, Document, ItemsTokens, Received, Heads, Lower, HeadTokens, Lines, Source, Finish;
    WrittenItems(f);
    LinesAreWritten(f);
    HeadRun(notice, title, f);
    var base := HeadTokens(title) + [TagToken("p"), " "];
    heads := ReceivedRun(base, true, Lines(f));
    HeadsMatch(Received(Lines(f)), heads);
    Associative(HeadTokens(title), [TagToken("p"), " "], ItemsTokens(Received(Lines(f)), heads));
  }

  /**
   Writing any title and forest without markup characters and reading the file gives
   the squeezed title and the forest built from the lines that no open tag swallows.
   */
  lemma ReadGeneral(notice: string, title: string, f: seq<Bookmark>, store: Store)
    requires IsNotice(notice) && CleanText(title) && Writable(f)
    ensures '&' !in Document(notice, title, f)
    ensures ReadText(Document(notice, title, f), store)
         == Read(Store(Squeeze(false, title), store.root.(kind := Folder, children := ReadBack(f))))
  {
    hide Run, Document, ReadFrom, Parse, Squeeze, ItemsTokens, Received, Build, Heads, CleanItems, Lower, HeadTokens, Lines,
      Tokenize, Written;
    var heads := TokensReceived(notice, title, f);
    LinesAreWritten(f);
    ReceivedIsClean(Lines(f));
    var root := store.root.(children := []);
    ReadHead(title, [TagToken("p"), " "] + ItemsTokens(Received(Lines(f)), heads), store.(root := root));
    BodyIsBuilt(Received(Lines(f)), heads, root);
    ReadNothing(Store(Squeeze(false, title), root.(kind := Folder, children := ReadBack(f))));
  }
}
