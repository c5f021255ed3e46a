/**
 What a URL ending in '=' does to the bookmarks behind it: its tag stays open and takes
 the text of the next URL bookmark, wherever that one stands.
 */
module BookmarkEqualsUrl {
  import opened BookmarkTree
  import opened BookmarkTokens
  import opened BookmarkRoundTrip
  import opened BookmarkLimits
  import opened BookmarkSwallow
  import opened BookmarkReadBack
  import opened BookmarkExact

  /** Lines through which an open tag stays inside quotes: list ends and folders whose texts do not end it. */
  predicate SwallowedWhole(items: seq<Item>) {
    forall i :: 0 <= i < |items| ==> items[i].Close? || (items[i].Open? && Swallowed(items[i].text).None?)
  }

  predicate NoEqualsLines(items: seq<Item>) {
    forall i :: 0 <= i < |items| ==> (items[i].Leaf? ==> !EndsInEquals(items[i].url))
  }

  lemma {:induction false} ReceivedAll(items: seq<Item>, rest: seq<Item>)
    requires NoEqualsLines(items)
    ensures Received(items + rest) == items + Received(rest)
  {
    hide EndsInEquals, Received;
    if items == [] {
      assert items + rest == rest && items + Received(rest) == Received(rest);
    } else {
      assert items + rest == [items[0]] + (items[1..] + rest);
      ReceivedStep(items[0], items[1..] + rest);
      ReceivedAll(items[1..], rest);
      assert [items[0]] + (items[1..] + Received(rest)) == items + Received(rest);
    }
  }

  lemma {:induction false} SeekThrough(url: string, items: seq<Item>, rest: seq<Item>)
    requires SwallowedWhole(items)
    ensures Seek(url, items + rest) == Seek(url, rest)
  {
    hide Swallowed, EndsInEquals;
    if items == [] {
      assert items + rest == rest;
    } else {
      assert (items + rest)[0] == items[0] && (items + rest)[1..] == items[1..] + rest;
      SeekThrough(url, items[1..], rest);
    }
  }

  /**
   At any place of the tree: the tag of a URL ending in '=' swallows everything up to the
   next URL, whose bookmark is lost but for its text.
   */
  lemma NextUrlEndsTag(before: seq<Item>, url: string, text: string, between: seq<Item>, u: string, t: string, behind: seq<Item>)
    requires NoEqualsLines(before) && EndsInEquals(url) && Swallowed(text).None?
    requires SwallowedWhole(between) && !EndsInEquals(u)
    ensures Received(before + ([Leaf(url, text)] + (between + ([Leaf(u, t)] + behind))))
         == before + ([Leaf(url, t)] + Received(behind))
  {
    hide Swallowed, EndsInEquals;
    var next := [Leaf(u, t)] + behind;
    ReceivedAll(before, [Leaf(url, text)] + (between + next));
    assert ([Leaf(url, text)] + (between + next))[1..] == between + next;
    SeekThrough(url, between, next);
    assert next[1..] == behind;
  }

  /** Without a URL behind it the tag swallows the rest of the file. */
  lemma NoUrlEndsTag(before: seq<Item>, url: string, text: string, behind: seq<Item>)
    requires NoEqualsLines(before) && EndsInEquals(url) && Swallowed(text).None? && SwallowedWhole(behind)
    ensures Received(before + ([Leaf(url, text)] + behind)) == before + [Lost(url)]
  {
    hide Swallowed, EndsInEquals;
    ReceivedAll(before, [Leaf(url, text)] + behind);
    assert ([Leaf(url, text)] + behind)[1..] == behind;
    SeekThrough(url, behind, []);
    assert behind + [] == behind;
  }

  /** A text without quotes does not end the tag. */
  lemma {:induction false} UnquotedIsSwallowed(last: char, space: bool, t: string)
    requires '"' !in t && '\'' !in t
    ensures Remainder(last, space, true, t).None?
    decreases |t|
  {
    if t != "" {
      var c, r := t[0], t[1..];
      if c == ' ' {
        UnquotedIsSwallowed(if space then last else ' ', true, r);
      } else {
        UnquotedIsSwallowed(c, false, r);
      }
    }
  }

  lemma {:induction false} ItemsAppend(f: seq<Bookmark>, g: seq<Bookmark>)
    ensures Items(f + g) == Items(f) + Items(g)
  {
    hide ItemsOf;
    if f == [] {
      assert f + g == g && Items(f) + Items(g) == Items(g);
    } else {
      assert (f + g)[1..] == f[1..] + g && (f + g)[0] == f[0];
      ItemsAppend(f[1..], g);
      Associative(ItemsOf(f[0]), Items(f[1..]), Items(g));
    }
  }

  lemma ItemsOfOne(b: Bookmark)
    ensures Items([b]) == ItemsOf(b)
  {
    hide ItemsOf;
    assert [b][1..] == [] && ItemsOf(b) + [] == ItemsOf(b);
  }

  lemma TwoUrls(b: Bookmark, b2: Bookmark, g: seq<Bookmark>)
    requires b.kind == URL && b2.kind == URL
    ensures Items([b, b2] + g) == [Leaf(b.url, b.text)] + ([Leaf(b2.url, b2.text)] + Items(g))
  {
    hide Items;
    ItemsAppend([b], [b2] + g);
    ItemsAppend([b2], g);
    ItemsOfOne(b);
    ItemsOfOne(b2);
    assert [b, b2] + g == [b] + ([b2] + g);
  }

  /** The lines behind an entry list of clean entries. */
  lemma ReadBackBehind(f: seq<Bookmark>, items: seq<Item>, rest: seq<Item>)
    requires CleanEntries(f) && Received(items) == rest
    ensures Build(Received(Items(f) + items), NewBookmark, false).0.children
         == CanonAll(f) + Build(rest, NewBookmark, false).0.children
  {
    hide Build, Received;
    ReceivedPlain(f, items);
    BuildPlain(f, rest, NewBookmark, false);
    var p := NewBookmark.(children := NewBookmark.children + CanonAll(f));
    assert p.children == CanonAll(f);
    BuildInto(rest, p, false);
  }

  lemma ReadBackClean(f: seq<Bookmark>)
    requires CleanEntries(f)
    ensures ReadBack(f) == CanonAll(f)
  {
    hide Build, Received;
    CloseOnly();
    ReadBackBehind(f, [Close], [Close]);
    BuildLastClose(NewBookmark);
  }

  lemma {:induction false} WritableAppend(f: seq<Bookmark>, g: seq<Bookmark>)
    requires Writable(f) && Writable(g)
    ensures Writable(f + g)
  {
    if f == [] {
      assert f + g == g;
    } else {
      assert (f + g)[1..] == f[1..] + g;
      WritableAppend(f[1..], g);
    }
  }

  /**
   In a list: of a bookmark whose URL ends in '=' and the URL bookmark behind it one
   is left, with the URL of the first and the text of the second; the rest is as ever.
   */
  lemma EqualsUrlSwallows(notice: string, title: string, f: seq<Bookmark>, b: Bookmark, b2: Bookmark, g: seq<Bookmark>, store: Store)
    requires IsNotice(notice) && CleanText(title) && CleanEntries(f) && CleanEntries(g)
    requires b.kind == URL && UrlOk(b.url) && EndsInEquals(b.url) && CleanText(b.text) && Swallowed(b.text).None?
    requires b2.kind == URL && CleanEntry(b2)
    ensures '&' !in Document(notice, title, f + ([b, b2] + g))
    ensures ReadText(Document(notice, title, f + ([b, b2] + g)), store)
         == Read(Store(Squeeze(false, title), store.root.(kind := Folder, children :=
              CanonAll(f) + [Bookmark(Squeeze(false, b2.text), Squeeze(false, b.url), URL, [])] + CanonAll(g))))
  {
    hide ReadText, Squeeze, Document, Swallowed, EndsInEquals, Build, Received, CanonAll, Items;
    var list := f + ([b, b2] + g);
    PairIsWritable(f, b, b2, g);
    ReadGeneral(notice, title, list, store);
    var merged := Leaf(b.url, b2.text);
    PairLines(f, b, b2, g);
    var behind := Items(g) + [Close];
    PairReceived(b.url, b.text, b2.url, b2.text, behind);
    ReadBackBehind(f, [Leaf(b.url, b.text)] + ([Leaf(b2.url, b2.text)] + behind), [merged] + Received(behind));
    BuildLeaf(b.url, b2.text, Received(behind), NewBookmark, false);
    var child := Bookmark(Squeeze(false, b2.text), Squeeze(false, b.url), URL, []);
    BuildInto(Received(behind), WithChild(NewBookmark, child), false);
    ReadBackClean(g);
    FirstChild(child, CanonAll(g));
    Associative(CanonAll(f), [child], CanonAll(g));
  }

  lemma FirstChild(child: Bookmark, rest: seq<Bookmark>)
    ensures WithChild(NewBookmark, child).children + rest == [child] + rest
  {
  }

  lemma PairIsWritable(f: seq<Bookmark>, b: Bookmark, b2: Bookmark, g: seq<Bookmark>)
    requires CleanEntries(f) && CleanEntries(g) && CleanEntry(b2) && b2.kind == URL
    requires b.kind == URL && UrlOk(b.url) && CleanText(b.text)
    ensures Writable(f + ([b, b2] + g))
  {
    CleanIsWritable(f);
    CleanIsWritable(g);
    assert [b, b2][1..] == [b2] && [b2][1..] == [];
    assert WritableBookmark(b) && WritableBookmark(b2) && Writable([b2]);
    WritableAppend([b, b2], g);
    WritableAppend(f, [b, b2] + g);
  }

  lemma PairLines(f: seq<Bookmark>, b: Bookmark, b2: Bookmark, g: seq<Bookmark>)
    requires b.kind == URL && b2.kind == URL
    ensures Lines(f + ([b, b2] + g))
         == Items(f) + ([Leaf(b.url, b.text)] + ([Leaf(b2.url, b2.text)] + (Items(g) + [Close])))
  {
    hide Items;
    ItemsAppend(f, [b, b2] + g);
    TwoUrls(b, b2, g);
    var pair, more := [Leaf(b.url, b.text)], [Leaf(b2.url, b2.text)];
    Associative(Items(f), pair + (more + Items(g)), [Close]);
    Associative(pair, more + Items(g), [Close]);
    Associative(more, Items(g), [Close]);
  }

  lemma PairReceived(url: string, text: string, u: string, t: string, behind: seq<Item>)
    requires EndsInEquals(url) && Swallowed(text).None? && !EndsInEquals(u)
    ensures Received([Leaf(url, text)] + ([Leaf(u, t)] + behind)) == [Leaf(url, t)] + Received(behind)
  {
    hide Received, Swallowed, EndsInEquals;
    NextUrlEndsTag([], url, text, [], u, t, behind);
    var pair := [Leaf(url, text)] + ([Leaf(u, t)] + behind);
    assert [] + ([Leaf(u, t)] + behind) == [Leaf(u, t)] + behind;
    assert [] + pair == pair;
    assert [] + ([Leaf(url, t)] + Received(behind)) == [Leaf(url, t)] + Received(behind);
  }

  /**
   At the end of a folder: the end of the folder is swallowed as well, so everything
   behind the folder moves into it.
   */
  lemma EqualsUrlTakesSiblings(notice: string, title: string, f: seq<Bookmark>, folder: Bookmark, k: seq<Bookmark>, b: Bookmark,
                               b2: Bookmark, g: seq<Bookmark>, store: Store)
    requires IsNotice(notice) && CleanText(title) && CleanEntries(f) && CleanEntries(g)
    requires folder.kind == Folder && folder.children == k + [b] && CleanText(folder.text) && CleanEntries(k)
    requires b.kind == URL && UrlOk(b.url) && EndsInEquals(b.url) && CleanText(b.text) && Swallowed(b.text).None?
    requires b2.kind == URL && CleanEntry(b2)
    ensures '&' !in Document(notice, title, f + ([folder, b2] + g))
    ensures ReadText(Document(notice, title, f + ([folder, b2] + g)), store)
         == Read(Store(Squeeze(false, title), store.root.(kind := Folder, children :=
              CanonAll(f) + [Bookmark(Squeeze(false, folder.text), "", Folder,
                CanonAll(k) + [Bookmark(Squeeze(false, b2.text), Squeeze(false, b.url), URL, [])] + CanonAll(g))])))
  {
    hide ReadText, Squeeze, Document, Swallowed, EndsInEquals, ReadBack, CanonAll, CleanEntries, Writable;
    FolderIsWritable(f, folder, k, b, b2, g);
    ReadGeneral(notice, title, f + ([folder, b2] + g), store);
    SiblingsTaken(f, folder, k, b, b2, g);
  }

  lemma SiblingsTaken(f: seq<Bookmark>, folder: Bookmark, k: seq<Bookmark>, b: Bookmark, b2: Bookmark, g: seq<Bookmark>)
    requires CleanEntries(f) && CleanEntries(k) && CleanEntries(g)
    requires folder.kind == Folder && folder.children == k + [b] && b.kind == URL && b2.kind == URL
    requires EndsInEquals(b.url) && Swallowed(b.text).None? && !EndsInEquals(b2.url)
    ensures ReadBack(f + ([folder, b2] + g))
         == CanonAll(f) + [Bookmark(Squeeze(false, folder.text), "", Folder,
              CanonAll(k) + [Bookmark(Squeeze(false, b2.text), Squeeze(false, b.url), URL, [])] + CanonAll(g))]
  {
    hide Squeeze, Swallowed, EndsInEquals, Build, Received, CanonAll, Items, Lines, CleanEntries;
    var kids := Items(k) + ([Leaf(b.url, b.text)] + ([Close] + ([Leaf(b2.url, b2.text)] + (Items(g) + [Close]))));
    FolderPairLines(f, folder, k, b, b2, g);
    ReceivedStep(Open("", folder.text), kids);
    ReadBackBehind(f, [Open("", folder.text)] + kids, [Open("", folder.text)] + Received(kids));
    BuildOpen("", folder.text, Received(kids), NewBookmark, false);
    NoUrl();
    var head := Bookmark(Squeeze(false, folder.text), "", Folder, []);
    LongList(head, k, b, b2, g);
    var filled := Build(Received(kids), head, true).0;
    BuildNothing(WithChild(NewBookmark, filled), false);
    FirstChild(filled, []);
    assert [filled] + [] == [filled];
  }

  /** The list of the folder goes on to the end of the file. */
  lemma LongList(head: Bookmark, k: seq<Bookmark>, b: Bookmark, b2: Bookmark, g: seq<Bookmark>)
    requires head.children == [] && CleanEntries(k) && CleanEntries(g)
    requires EndsInEquals(b.url) && Swallowed(b.text).None? && !EndsInEquals(b2.url)
    ensures Build(Received(Items(k) + ([Leaf(b.url, b.text)] + ([Close] + ([Leaf(b2.url, b2.text)] + (Items(g) + [Close]))))), head, true)
         == (head.(children := CanonAll(k) + [Bookmark(Squeeze(false, b2.text), Squeeze(false, b.url), URL, [])] + CanonAll(g)), [])
  {
    hide Squeeze, Swallowed, EndsInEquals, Build, Received, CanonAll, Items, CleanEntries;
    var behind := Items(g) + [Close];
    ReceivedPlain(k, [Leaf(b.url, b.text)] + ([Close] + ([Leaf(b2.url, b2.text)] + behind)));
    ClosedReceived(b.url, b.text, b2.url, b2.text, behind);
    BuildPlain(k, [Leaf(b.url, b2.text)] + Received(behind), head, true);
    assert head.children + CanonAll(k) == CanonAll(k);
    var p1 := head.(children := CanonAll(k));
    BuildLeaf(b.url, b2.text, Received(behind), p1, true);
    var p2 := WithChild(p1, Bookmark(Squeeze(false, b2.text), Squeeze(false, b.url), URL, []));
    ReceivedPlain(g, [Close]);
    CloseOnly();
    BuildPlain(g, [Close], p2, true);
    BuildClose([], p2.(children := p2.children + CanonAll(g)));
    assert [Close] + [] == [Close];
  }

  lemma FolderIsWritable(f: seq<Bookmark>, folder: Bookmark, k: seq<Bookmark>, b: Bookmark, b2: Bookmark, g: seq<Bookmark>)
    requires CleanEntries(f) && CleanEntries(g) && CleanEntry(b2) && b2.kind == URL
    requires folder.kind == Folder && folder.children == k + [b] && CleanText(folder.text) && CleanEntries(k)
    requires b.kind == URL && UrlOk(b.url) && CleanText(b.text)
    ensures Writable(f + ([folder, b2] + g))
  {
    CleanIsWritable(f);
    CleanIsWritable(g);
    CleanIsWritable(k);
    assert [b][1..] == [] && WritableBookmark(b);
    WritableAppend(k, [b]);
    assert WritableBookmark(folder);
    assert [folder, b2][1..] == [b2] && [b2][1..] == [];
    assert WritableBookmark(b2) && Writable([b2]);
    WritableAppend([folder, b2], g);
    WritableAppend(f, [folder, b2] + g);
  }

  lemma FolderPairLines(f: seq<Bookmark>, folder: Bookmark, k: seq<Bookmark>, b: Bookmark, b2: Bookmark, g: seq<Bookmark>)
    requires folder.kind == Folder && folder.children == k + [b] && b.kind == URL && b2.kind == URL
    ensures Lines(f + ([folder, b2] + g))
         == Items(f) + ([Open("", folder.text)] + (Items(k) + ([Leaf(b.url, b.text)] +
              ([Close] + ([Leaf(b2.url, b2.text)] + (Items(g) + [Close]))))))
  {
    hide Items;
    var behind := [Leaf(b2.url, b2.text)] + (Items(g) + [Close]);
    ItemsAppend(f, [folder, b2] + g);
    assert [folder, b2] + g == [folder] + ([b2] + g);
    ItemsAppend([folder], [b2] + g);
    ItemsAppend([b2], g);
    ItemsOfOne(folder);
    ItemsOfOne(b2);
    assert Lines(f + ([folder, b2] + g)) == Items(f) + (ItemsOf(folder) + behind) by {
      Associative(Items(f), ItemsOf(folder) + ([Leaf(b2.url, b2.text)] + Items(g)), [Close]);
      Associative(ItemsOf(folder), [Leaf(b2.url, b2.text)] + Items(g), [Close]);
      Associative([Leaf(b2.url, b2.text)], Items(g), [Close]);
    }
    FolderLines(folder, behind);
    ItemsAppend(k, [b]);
    ItemsOfOne(b);
    Associative(Items(k), [Leaf(b.url, b.text)], [Close] + behind);
  }

  lemma ClosedReceived(url: string, text: string, u: string, t: string, behind: seq<Item>)
    requires EndsInEquals(url) && Swallowed(text).None? && !EndsInEquals(u)
    ensures Received([Leaf(url, text)] + ([Close] + ([Leaf(u, t)] + behind))) == [Leaf(url, t)] + Received(behind)
  {
    hide Received, Swallowed, EndsInEquals;
    var closes: seq<Item> := [Close];
    assert SwallowedWhole(closes);
    NextUrlEndsTag([], url, text, closes, u, t, behind);
    var lines := [Leaf(url, text)] + (closes + ([Leaf(u, t)] + behind));
    assert [] + lines == lines;
    assert [] + ([Leaf(url, t)] + Received(behind)) == [Leaf(url, t)] + Received(behind);
  }
}
