/**
 Exactly when write followed by read is the identity.  Forests that lose nothing are
 found by weight: the lines received never weigh more than the lines written.
 */
module BookmarkExact {
  import opened CStrings
  import opened BookmarkLexer
  import opened BookmarkTree
  import opened BookmarkTokens
  import opened BookmarkRoundTrip
  import opened BookmarkLimits
  import opened BookmarkSwallow
  import opened BookmarkReadBack

  /** Title and forest come back unchanged. */
  predicate ComesBack(notice: string, title: string, f: seq<Bookmark>, store: Store)
    requires '&' !in Document(notice, title, f)
  {
    var r := ReadText(Document(notice, title, f), store);
    r.Read? && r.store.title == title && r.store.root.children == f
  }

  /**
   Plain but for the very last bookmark, down the chain of last folders: that one has no
   text and a plain URL that ends in '='.
   */
  predicate EndsInEqualsUrl(f: seq<Bookmark>) {
    f != [] && if |f| == 1 then EndsWith(f[0]) else PlainBookmark(f[0]) && EndsInEqualsUrl(f[1..])
  }

  predicate EndsWith(b: Bookmark) {
    if b.kind == URL then
      b.text == "" && UrlOk(b.url) && EndsInEquals(b.url) && NoDoubleBlank(b.url) && b.children == []
    else
      CleanText(b.text) && NoDoubleBlank(b.text) && b.url == "" && EndsInEqualsUrl(b.children)
  }

  // ---- Such forests come back ----

  lemma {:induction false} ReceivedPlain(f: seq<Bookmark>, items: seq<Item>)
    requires CleanEntries(f)
    ensures Received(Items(f) + items) == Items(f) + Received(items)
    decreases f
  {
    hide ItemsOf, Received;
    if f == [] {
      assert Items(f) + items == items && Items(f) + Received(items) == Received(items);
    } else {
      Associative(ItemsOf(f[0]), Items(f[1..]), items);
      Associative(ItemsOf(f[0]), Items(f[1..]), Received(items));
      ReceivedPlainOf(f[0], Items(f[1..]) + items);
      ReceivedPlain(f[1..], items);
    }
  }

  lemma {:induction false} ReceivedPlainOf(b: Bookmark, items: seq<Item>)
    requires CleanEntry(b)
    ensures Received(ItemsOf(b) + items) == ItemsOf(b) + Received(items)
    decreases b
  {
    hide EndsInEquals;
    if b.kind == URL {
      assert (ItemsOf(b) + items)[1..] == items;
    } else {
      var kids := Items(b.children);
      FolderLines(b, items);
      FolderLines(b, Received(items));
      ReceivedPlain(b.children, [Close] + items);
      ReceivedStep(Close, items);
      ReceivedStep(Open("", b.text), kids + ([Close] + items));
    }
  }

  lemma FolderLines(b: Bookmark, items: seq<Item>)
    requires b.kind != URL
    ensures ItemsOf(b) + items == [Open("", b.text)] + (Items(b.children) + ([Close] + items))
  {
    hide Items;
  }

  lemma ReceivedStep(item: Item, items: seq<Item>)
    requires item.Leaf? ==> !EndsInEquals(item.url)
    ensures Received([item] + items) == [item] + Received(items)
  {
    assert ([item] + items)[1..] == items;
  }

  lemma {:induction false} BuildPlain(f: seq<Bookmark>, items: seq<Item>, parent: Bookmark, nested: bool)
    ensures Build(Items(f) + items, parent, nested) == Build(items, parent.(children := parent.children + CanonAll(f)), nested)
    decreases f
  {
    hide ItemsOf, Build, Canon;
    if f == [] {
      assert Items(f) + items == items && parent.children + CanonAll(f) == parent.children;
    } else {
      Associative(ItemsOf(f[0]), Items(f[1..]), items);
      BuildPlainOf(f[0], Items(f[1..]) + items, parent, nested);
      BuildPlain(f[1..], items, WithChild(parent, Canon(f[0])), nested);
      Associative(parent.children, [Canon(f[0])], CanonAll(f[1..]));
    }
  }

  lemma {:induction false} BuildPlainOf(b: Bookmark, items: seq<Item>, parent: Bookmark, nested: bool)
    ensures Build(ItemsOf(b) + items, parent, nested) == Build(items, WithChild(parent, Canon(b)), nested)
    decreases b
  {
    hide Squeeze, Build;
    if b.kind == URL {
      BuildLeaf(b.url, b.text, items, parent, nested);
    } else {
      var folder := Bookmark(Squeeze(false, b.text), "", Folder, []);
      FolderLines(b, items);
      NoUrl();
      BuildOpen("", b.text, Items(b.children) + ([Close] + items), parent, nested);
      BuildPlain(b.children, [Close] + items, folder, true);
      BuildClose(items, Canon(b));
      assert folder.children + CanonAll(b.children) == CanonAll(b.children);
    }
  }

  predicate AllClose(items: seq<Item>) {
    forall i :: 0 <= i < |items| ==> items[i].Close?
  }

  lemma {:induction false} SeekNothing(url: string, closes: seq<Item>)
    requires AllClose(closes)
    ensures Seek(url, closes) == [Lost(url)]
  {
    if closes != [] {
      assert closes[0].Close?;
      SeekNothing(url, closes[1..]);
    }
  }

  lemma PlainIsCanon(b: Bookmark)
    requires PlainBookmark(b)
    ensures CleanEntry(b) && Canon(b) == b
  {
    assert [b][1..] == [];
    PlainIsClean([b]);
    CanonIsIdentity([b]);
    assert CanonAll([b])[0] == Canon(b);
  }

  /** A last bookmark without text is built all the same: its tag is held open up to the end. */
  lemma {:induction false} OpenEnd(f: seq<Bookmark>, closes: seq<Item>, parent: Bookmark, nested: bool)
    requires EndsInEqualsUrl(f) && AllClose(closes)
    ensures Build(Received(Items(f) + closes), parent, nested) == (parent.(children := parent.children + f), [])
    decreases f
  {
    hide ItemsOf, Build, Received, EndsWith, Canon, PlainBookmark;
    var b, rest := f[0], Items(f[1..]) + closes;
    assert Items(f) + closes == ItemsOf(b) + rest by { Associative(ItemsOf(b), Items(f[1..]), closes); }
    if |f| == 1 {
      assert f[1..] == [] && rest == closes && f == [b];
      OpenEndOf(b, closes, parent, nested);
    } else {
      PlainIsCanon(b);
      ReceivedPlainOf(b, rest);
      BuildPlainOf(b, Received(rest), parent, nested);
      OpenEnd(f[1..], closes, WithChild(parent, b), nested);
      Associative(parent.children, [b], f[1..]);
      assert [b] + f[1..] == f;
    }
  }

  lemma {:induction false} OpenEndOf(b: Bookmark, closes: seq<Item>, parent: Bookmark, nested: bool)
    requires EndsWith(b) && AllClose(closes)
    ensures Build(Received(ItemsOf(b) + closes), parent, nested) == (WithChild(parent, b), [])
    decreases b
  {
    hide Squeeze, Build, Received, Items, ItemsOf;
    if b.kind == URL {
      OpenLeaf(b, closes, parent, nested);
    } else {
      OpenEnd(b.children, [Close] + closes, Bookmark(b.text, "", Folder, []), true);
      FilledFolder(b);
      OpenFolder(b, closes, parent, nested);
    }
  }

  lemma FilledFolder(b: Bookmark)
    requires b.kind != URL && b.url == ""
    ensures Bookmark(b.text, "", Folder, []).(children := Bookmark(b.text, "", Folder, []).children + b.children) == b
  {
    assert [] + b.children == b.children;
  }

  lemma OpenFolder(b: Bookmark, closes: seq<Item>, parent: Bookmark, nested: bool)
    requires b.kind != URL && NoDoubleBlank(b.text)
    requires Build(Received(Items(b.children) + ([Close] + closes)), Bookmark(b.text, "", Folder, []), true) == (b, [])
    ensures Build(Received(ItemsOf(b) + closes), parent, nested) == (WithChild(parent, b), [])
  {
    var inner := Items(b.children) + ([Close] + closes);
    FolderLines(b, closes);
    ReceivedStep(Open("", b.text), inner);
    hide *;
    PlainText(b.text);
    BuildOpen("", b.text, Received(inner), parent, nested);
    BuildNothing(WithChild(parent, b), nested);
  }

  lemma PlainText(t: string)
    requires NoDoubleBlank(t)
    ensures Squeeze(false, t) == t && Squeeze(false, "") == ""
  {
    SqueezeIdentity(false, t);
  }

  lemma OpenLeaf(b: Bookmark, closes: seq<Item>, parent: Bookmark, nested: bool)
    requires EndsWith(b) && b.kind == URL && AllClose(closes)
    ensures Build(Received(ItemsOf(b) + closes), parent, nested) == (WithChild(parent, b), [])
  {
    hide Squeeze, Remainder;
    assert (ItemsOf(b) + closes)[1..] == closes;
    SwallowedNothing();
    SeekNothing(b.url, closes);
    assert Received(ItemsOf(b) + closes) == [Lost(b.url)];
    SqueezeIdentity(false, b.url);
    assert [Lost(b.url)][1..] == [];
  }

  // ---- No other forests come back ----

  /** The nodes of a forest and the characters of their texts and URLs. */
  function Weight(f: seq<Bookmark>): nat {
    if f == [] then 0 else WeightOf(f[0]) + Weight(f[1..])
  }

  function WeightOf(b: Bookmark): nat {
    1 + |b.text| + |b.url| + Weight(b.children)
  }

  lemma {:induction false} WeightAppend(f: seq<Bookmark>, g: seq<Bookmark>)
    ensures Weight(f + g) == Weight(f) + Weight(g)
  {
    if f == [] {
      assert f + g == g;
    } else {
      assert (f + g)[1..] == f[1..] + g;
      WeightAppend(f[1..], g);
    }
  }

  lemma WeightOfChild(parent: Bookmark, child: Bookmark)
    ensures Weight(WithChild(parent, child).children) == Weight(parent.children) + WeightOf(child)
  {
    hide WeightOf;
    WeightAppend(parent.children, [child]);
    assert Weight([child]) == WeightOf(child) + Weight([child][1..]);
  }

  /** The same for lines. */
  function Size(items: seq<Item>): nat {
    if items == [] then 0 else SizeOf(items[0]) + Size(items[1..])
  }

  function SizeOf(item: Item): nat {
    match item
    case Leaf(u, t) => 1 + |t| + |u|
    case Open(u, t) => 1 + |t| + |u|
    case Close => 0
    case Lost(u) => 1 + |u|
  }

  /** With runs of blanks squeezed. */
  function Squeezed(items: seq<Item>): nat {
    if items == [] then 0 else SqueezedOf(items[0]) + Squeezed(items[1..])
  }

  function SqueezedOf(item: Item): nat {
    match item
    case Leaf(u, t) => 1 + |Squeeze(false, t)| + |Squeeze(false, u)|
    case Open(u, t) => 1 + |Squeeze(false, t)| + |Squeeze(false, u)|
    case Close => 0
    case Lost(u) => 1 + |Squeeze(false, u)|
  }

  lemma {:induction false} SizeAppend(a: seq<Item>, b: seq<Item>)
    ensures Size(a + b) == Size(a) + Size(b)
  {
    if a == [] {
      assert a + b == b;
    } else {
      assert (a + b)[1..] == a[1..] + b;
      SizeAppend(a[1..], b);
    }
  }

  /** Build keeps everything of the lines. */
  lemma {:induction false} BuildWeight(items: seq<Item>, parent: Bookmark, nested: bool)
    ensures var (folder, rest) := Build(items, parent, nested);
      Weight(folder.children) + Squeezed(rest) == Weight(parent.children) + Squeezed(items)
    decreases |items|
  {
    hide Squeeze, Weight, WeightOf, SqueezedOf;
    if items != [] {
      var rest := items[1..];
      match items[0]
      case Leaf(u, t) => {
        var child := Bookmark(Squeeze(false, t), Squeeze(false, u), URL, []);
        ChildWeighs(parent, child, items[0]);
        BuildWeight(rest, WithChild(parent, child), nested);
      }
      case Lost(u) => {
        var child := Bookmark("", Squeeze(false, u), URL, []);
        ChildWeighs(parent, child, items[0]);
        BuildWeight(rest, WithChild(parent, child), nested);
      }
      case Open(u, t) => {
        var folder := Bookmark(Squeeze(false, t), Squeeze(false, u), Folder, []);
        BuildWeight(rest, folder, true);
        BuildInto(rest, folder, true);
        var (child, after) := Build(rest, folder, true);
        WeightOfNone();
        ChildWeighs(parent, child, items[0]);
        BuildWeight(after, WithChild(parent, child), nested);
      }
      case Close => {
        CloseWeighs(items[0]);
        if !nested {
          BuildWeight(rest, parent, nested);
        }
      }
    }
  }

  /** A child made from a line adds the weight of the line and of its own children. */
  lemma ChildWeighs(parent: Bookmark, child: Bookmark, item: Item)
    requires !item.Close? && child.url == Squeeze(false, item.url)
    requires child.text == if item.Lost? then "" else Squeeze(false, item.text)
    ensures Weight(WithChild(parent, child).children)
         == Weight(parent.children) + SqueezedOf(item) + Weight(child.children)
    ensures Weight([]) == 0
  {
    hide Squeeze, Weight;
    WeightOfChild(parent, child);
    WeightOfNone();
  }

  lemma CloseWeighs(item: Item)
    requires item.Close?
    ensures SqueezedOf(item) == 0
  {
  }

  lemma WeightOfNone()
    ensures Weight([]) == 0
  {
  }

  /** No URL ends in '=', but the last line may be a bookmark without text whose URL does. */
  predicate NothingSwallowed(items: seq<Item>) {
    items == [] ||
    if items[0].Leaf? && EndsInEquals(items[0].url) then items[0].text == "" && AllClose(items[1..])
    else NothingSwallowed(items[1..])
  }

  predicate Tight(items: seq<Item>) {
    forall i :: 0 <= i < |items| ==> SqueezedOf(items[i]) == SizeOf(items[i])
  }

  lemma SqueezedAtMost(item: Item)
    ensures SqueezedOf(item) <= SizeOf(item)
  {
    match item
    case Leaf(u, t) => { SqueezeLength(false, t); SqueezeLength(false, u); }
    case Open(u, t) => { SqueezeLength(false, t); SqueezeLength(false, u); }
    case Close => {}
    case Lost(u) => SqueezeLength(false, u);
  }

  /** Lines only lose; nothing is lost only if nothing is swallowed and squeezed. */
  lemma {:induction false} ReceivedSize(items: seq<Item>)
    requires Written(items)
    ensures Squeezed(Received(items)) <= Size(items)
    ensures Squeezed(Received(items)) == Size(items) ==> NothingSwallowed(items) && Tight(items)
    decreases |items|, 0
  {
    hide SqueezedOf, SizeOf, EndsInEquals;
    if items != [] {
      var item, rest := items[0], items[1..];
      assert WrittenItem(item);
      if item.Leaf? && EndsInEquals(item.url) {
        HeldSize(item.url, item.text, rest);
        if AllClose(rest) && item.text == "" && |Squeeze(false, item.url)| == |item.url| {
          LastIsTight(item, rest);
        }
      } else {
        SqueezedAtMost(item);
        ReceivedSize(rest);
        assert ([item] + Received(rest))[1..] == Received(rest);
      }
    }
  }

  lemma LastIsTight(item: Item, closes: seq<Item>)
    requires item.Leaf? && item.text == "" && |Squeeze(false, item.url)| == |item.url| && AllClose(closes)
    ensures SqueezedOf(item) == SizeOf(item) && Tight(closes)
  {
  }

  lemma {:induction false} HeldSize(url: string, text: string, items: seq<Item>)
    requires Written(items) && CleanText(text)
    ensures Squeezed(Held(url, text, items)) <= SizeOf(Leaf(url, text)) + Size(items)
    ensures Squeezed(Held(url, text, items)) == SizeOf(Leaf(url, text)) + Size(items)
        ==> text == "" && AllClose(items) && |Squeeze(false, url)| == |url|
    decreases |items|, 1
  {
    hide Squeeze, Remainder;
    SwallowedIsClean(text);
    match Swallowed(text)
    case Some(t) => {
      SqueezedAtMost(Leaf(url, t));
      ReceivedSize(items);
      assert ([Leaf(url, t)] + Received(items))[1..] == Received(items);
    }
    case None => SeekSize(url, items);
  }

  lemma {:induction false} SeekSize(url: string, items: seq<Item>)
    requires Written(items)
    ensures Squeezed(Seek(url, items)) <= SizeOf(Lost(url)) + Size(items)
    ensures Squeezed(Seek(url, items)) == SizeOf(Lost(url)) + Size(items)
        ==> AllClose(items) && |Squeeze(false, url)| == |url|
    decreases |items|, 0
  {
    hide Squeeze, Swallowed, EndsInEquals;
    SqueezedAtMost(Lost(url));
    if items == [] {
      assert [Lost(url)][1..] == [];
    } else {
      var item, rest := items[0], items[1..];
      assert WrittenItem(item);
      SeekSize(url, rest);
      ReceivedSize(rest);
      if item.Leaf? {
        HeldSize(url, item.text, rest);
        SqueezedAtMost(Leaf(url, item.text));
        assert ([Leaf(url, item.text)] + Received(rest))[1..] == Received(rest);
      } else if item.Open? && Swallowed(item.text).Some? {
        var t := Swallowed(item.text).value;
        SwallowedIsClean(item.text);
        SqueezedAtMost(Open(url, t));
        assert ([Open(url, t)] + Received(rest))[1..] == Received(rest);
      }
    }
  }

  /** What write leaves out: children of URL bookmarks and URLs of folders. */
  predicate Shaped(f: seq<Bookmark>) {
    f == [] || (ShapedBookmark(f[0]) && Shaped(f[1..]))
  }

  predicate ShapedBookmark(b: Bookmark) {
    if b.kind == URL then b.children == [] else b.url == "" && Shaped(b.children)
  }

  lemma {:induction false} ItemsSize(f: seq<Bookmark>)
    ensures Size(Items(f)) <= Weight(f)
    ensures Size(Items(f)) == Weight(f) ==> Shaped(f)
    decreases f
  {
    hide ItemsOf, WeightOf, ShapedBookmark;
    if f != [] {
      SizeAppend(ItemsOf(f[0]), Items(f[1..]));
      ItemsOfSize(f[0]);
      ItemsSize(f[1..]);
    }
  }

  lemma {:induction false} ItemsOfSize(b: Bookmark)
    ensures Size(ItemsOf(b)) <= WeightOf(b)
    ensures Size(ItemsOf(b)) == WeightOf(b) ==> ShapedBookmark(b)
    decreases b
  {
    if b.kind == URL {
      assert ItemsOf(b)[1..] == [];
      assert b.children != [] ==> Weight(b.children) > 0;
    } else {
      SizeAppend(Items(b.children), [Close]);
      assert [Close][1..] == [];
      assert ItemsOf(b)[1..] == Items(b.children) + [Close];
      ItemsSize(b.children);
    }
  }

  lemma TightText(b: Bookmark)
    requires OwnOk(b) && (b.kind != URL ==> b.url == "")
    requires Tight(ItemsOf(b))
    ensures NoDoubleBlank(b.text) && NoDoubleBlank(b.url)
  {
    var item := ItemsOf(b)[0];
    assert SqueezedOf(item) == SizeOf(item);
    SqueezeLength(false, b.text);
    SqueezeLength(false, b.url);
    TightString(b.text);
    TightString(b.url);
  }

  lemma {:induction false} ShorterOrSame(space: bool, t: string)
    ensures |Squeeze(space, t)| == |t| ==> Squeeze(space, t) == t
    decreases |t|
  {
    SqueezeLength(space, t);
    if t != "" {
      SqueezeLength(t[0] == ' ', t[1..]);
      ShorterOrSame(t[0] == ' ', t[1..]);
      assert t == [t[0]] + t[1..];
    }
  }

  lemma TightString(t: string)
    ensures |Squeeze(false, t)| == |t| ==> NoDoubleBlank(t)
  {
    hide Squeeze;
    ShorterOrSame(false, t);
    SqueezeIdentity(false, t);
  }

  /** Lines that lose nothing are those of a plain forest, or of one whose last URL ends in '='. */
  lemma {:induction false} NothingLost(f: seq<Bookmark>, items: seq<Item>)
    requires Shaped(f) && Tight(Items(f)) && NothingSwallowed(Items(f) + items)
    requires forall i :: 0 <= i < |f| ==> TreeOk(f[i])
    ensures if AllClose(items) then PlainForest(f) || EndsInEqualsUrl(f) else PlainForest(f) && NothingSwallowed(items)
    decreases f
  {
    hide ItemsOf, PlainBookmark, ShapedBookmark, EndsWith, TreeOk;
    if f == [] {
      assert Items(f) + items == items;
    } else {
      var b, more := f[0], Items(f[1..]);
      var rest := more + items;
      assert TreeOk(b);
      Associative(ItemsOf(b), more, items);
      TightParts(ItemsOf(b), more);
      NothingLostOf(b, rest);
      if f[1..] == [] {
        assert rest == items;
      } else {
        FirstIsNoClose(f[1..], items);
        NothingLost(f[1..], items);
      }
    }
  }

  lemma FirstIsNoClose(f: seq<Bookmark>, items: seq<Item>)
    requires f != []
    ensures !AllClose(Items(f) + items)
  {
    assert !(Items(f) + items)[0].Close?;
  }

  lemma TightParts(a: seq<Item>, b: seq<Item>)
    requires Tight(a + b)
    ensures Tight(a) && Tight(b)
  {
    forall i | 0 <= i < |a| ensures SqueezedOf(a[i]) == SizeOf(a[i]) {
      assert (a + b)[i] == a[i];
    }
    forall i | 0 <= i < |b| ensures SqueezedOf(b[i]) == SizeOf(b[i]) {
      assert (a + b)[|a| + i] == b[i];
    }
  }

  lemma {:induction false} NothingLostOf(b: Bookmark, items: seq<Item>)
    requires ShapedBookmark(b) && Tight(ItemsOf(b)) && NothingSwallowed(ItemsOf(b) + items) && TreeOk(b)
    ensures if AllClose(items) then PlainBookmark(b) || EndsWith(b) else PlainBookmark(b) && NothingSwallowed(items)
    decreases b
  {
    hide SqueezedOf, SizeOf, Items;
    TightText(b);
    if b.kind == URL {
      assert (ItemsOf(b) + items)[1..] == items;
    } else {
      FolderLines(b, items);
      var inner := Items(b.children) + ([Close] + items);
      assert ([Open("", b.text)] + inner)[1..] == inner;
      TightParts([Open("", b.text)], Items(b.children) + [Close]);
      TightParts(Items(b.children), [Close]);
      assert ([Close] + items)[1..] == items && ([Close] + items)[0] == Close;
      assert AllClose([Close] + items) ==> AllClose(items);
      assert AllClose(items) ==> AllClose([Close] + items);
      NothingLost(b.children, [Close] + items);
    }
  }

  // ---- The exact condition ----

  lemma ReadBackOnly(f: seq<Bookmark>)
    requires Writable(f) && ReadBack(f) == f && forall i :: 0 <= i < |f| ==> TreeOk(f[i])
    ensures PlainForest(f) || EndsInEqualsUrl(f)
  {
    hide Build, Received, TreeOk, Items, Weight, Squeezed, Size, Tight, NothingSwallowed, Shaped;
    LinesAreWritten(f);
    BuildWeight(Received(Lines(f)), NewBookmark, false);
    WeightOfNone();
    assert Weight(f) == Squeezed(Received(Lines(f))) by { NoSize(); }
    ReceivedSize(Lines(f));
    SizeAppend(Items(f), [Close]);
    ItemsSize(f);
    NoSize();
    TightParts(Items(f), [Close]);
    NothingLost(f, [Close]);
  }

  lemma NoSize()
    ensures Squeezed([]) == 0 && Size([Close]) == 0
  {
    assert [Close][1..] == [];
  }

  lemma ReadBackAll(f: seq<Bookmark>)
    requires PlainForest(f) || EndsInEqualsUrl(f)
    ensures Writable(f) && ReadBack(f) == f
  {
    hide Build, Received, Items;
    if PlainForest(f) {
      PlainIsClean(f);
      CleanIsWritable(f);
      CanonIsIdentity(f);
      ReceivedPlain(f, [Close]);
      CloseOnly();
      BuildPlain(f, [Close], NewBookmark, false);
      assert NewBookmark.children + CanonAll(f) == f;
      BuildLastClose(NewBookmark.(children := f));
    } else {
      OpenIsWritable(f);
      OpenEnd(f, [Close], NewBookmark, false);
      assert NewBookmark.children + f == f;
    }
  }

  lemma CloseOnly()
    ensures Received([Close]) == [Close]
  {
    assert [Close][1..] == [];
  }

  lemma BuildLastClose(parent: Bookmark)
    ensures Build([Close], parent, false) == (parent, [])
  {
    assert [Close][1..] == [];
  }

  lemma {:induction false} CleanIsWritable(f: seq<Bookmark>)
    requires CleanEntries(f)
    ensures Writable(f)
  {
    if f != [] {
      if f[0].kind != URL {
        CleanIsWritable(f[0].children);
      }
      CleanIsWritable(f[1..]);
    }
  }

  lemma {:induction false} OpenIsWritable(f: seq<Bookmark>)
    requires EndsInEqualsUrl(f)
    ensures Writable(f)
  {
    var b := f[0];
    if |f| == 1 {
      assert f[1..] == [];
      if b.kind != URL {
        OpenIsWritable(b.children);
      }
      assert WritableBookmark(b) && Writable(f[1..]);
    } else {
      PlainIsCanon(b);
      assert CleanEntries([b]) by { assert [b][1..] == []; }
      CleanIsWritable([b]);
      OpenIsWritable(f[1..]);
    }
  }

  lemma {:induction false} RangeIsWritable(f: seq<Bookmark>)
    requires forall i :: 0 <= i < |f| ==> TreeOk(f[i])
    ensures Writable(f)
  {
    if f != [] {
      assert TreeOk(f[0]);
      if f[0].kind != URL {
        RangeIsWritable(f[0].children);
      }
      RangeIsWritable(f[1..]);
    }
  }

  // ---- Titles ----

  /** A title that was read: words without markup characters, unless it holds a whole tag with its escape character. */
  predicate TitleOk(t: string) {
    TAG_ESCAPE in t || CleanText(t)
  }

  lemma {:induction false} ReadTitleOk(toks: seq<string>, t: string)
    requires TokensOk(toks) && TitleOk(t)
    ensures TitleOk(ReadTitle(toks, t).0) && TokensOk(ReadTitle(toks, t).1)
  {
    hide HasPrefixNoCase;
    if toks != [] && !(IsTag(toks[0]) && HasPrefixNoCase(toks[0][1..], "</title>")) {
      assert TokenOk(toks[0]);
      AppendTitle(t, toks[0]);
      ReadTitleOk(toks[1..], t + toks[0]);
    }
  }

  lemma AppendTitle(t: string, token: string)
    requires TitleOk(t) && TokenOk(token)
    ensures TitleOk(t + token)
  {
    if TAG_ESCAPE !in t && IsTag(token) {
      assert (t + token)[|t|] == TAG_ESCAPE;
    }
  }

  lemma {:induction false} ReadFromTitle(toks: seq<string>, store: Store)
    requires TokensOk(toks) && KidsOk(store.root) && TitleOk(store.title)
    ensures ReadFrom(toks, store).Read? ==> TitleOk(ReadFrom(toks, store).store.title)
    decreases |toks|
  {
    hide HasPrefixNoCase, ReadTitle, ParseFrom, TitleOk, TreeOk;
    if toks != [] {
      var rest := toks[1..];
      ReadFromTitle(rest, store);
      EmptyTitle();
      ReadTitleOk(rest, "");
      var (t, after) := ReadTitle(rest, "");
      ReadFromTitle(after, store.(title := t));
      var q := Parse(rest, store.root, "");
      if q.Parsed? {
        ParseRange(rest, store.root.(kind := Folder), true, "", "");
        ReadFromTitle(q.rest, store.(root := q.folder));
      }
    }
  }

  lemma EmptyTitle()
    ensures TitleOk("")
  {
  }

  /** The tokens queued stay in front. */
  lemma {:induction false} TokensGrow(st: Lexer, src: string)
    requires st.Valid() && '&' !in src
    ensures st.tokens <= Run(st, src).tokens
    decreases |src|
  {
    hide Blank, Quote, Equals, LowerName;
    if src != "" && src[0] != '\0' {
      var (next, n) := Step(st, src);
      BlankGrows(st);
      QuoteGrows(st, src[0]);
      assert st.tokens <= next.tokens;
      TokensGrow(next, src[n..]);
    }
  }

  lemma BlankGrows(st: Lexer)
    ensures st.tokens <= Blank(st).tokens
  {
  }

  lemma QuoteGrows(st: Lexer, c: char)
    requires st.Valid()
    ensures Quote(st, c).tokens == st.tokens && Equals(st).tokens == st.tokens
  {
  }

  /** Whatever the title is, the file starts with the title tag. */
  lemma TitleTagFirst(notice: string, title: string, f: seq<Bookmark>) returns (toks: seq<string>)
    requires IsNotice(notice) && '&' !in Document(notice, title, f)
    ensures Tokenize(Document(notice, title, f))
         == [DoctypeToken("!DOCTYPE", "KDEHELP-Bookmark-file"), " ", TagToken("TITLE")] + toks
  {
    hide Run, Lower, Entries, Document, DoctypeToken, ElementText;
    var more := ElementText("H1", title, "/H1", "<" + ("DL" + (">" + ("<" + ("p" + (">" + ("\n" + (Entries(f) + ("</DL><P>\n" + "")))))))));
    var lines := ElementText("TITLE", title, "/TITLE", more);
    DocumentShape(notice, title, f);
    InTail(Document(notice, title, f), lines, notice);
    FirstLines(notice, lines);
    var inner := title + ("<" + ("/TITLE" + (">" + ("\n" + more))));
    TitleText(title, more);
    assert '&' !in inner;
    var first := [DoctypeToken("!DOCTYPE", "KDEHELP-Bookmark-file"), " "];
    NamesOfHead();
    Tag(first, true, "TITLE", inner);
    var st := Resting(first + [TagToken("TITLE")], false);
    TokensGrow(st, inner);
    var all := Finish(Run(st, inner));
    assert first + [TagToken("TITLE")] <= all;
    toks := all[3..];
  }

  lemma TitleText(title: string, r: string)
    ensures ElementText("TITLE", title, "/TITLE", r)
         == "<" + ("TITLE" + (">" + (title + ("<" + ("/TITLE" + (">" + ("\n" + r)))))))
  {
  }

  lemma InTail(document: string, lines: string, notice: string)
    requires document == "<" + ("!DOCTYPE" + (" " + ("KDEHELP-Bookmark-file" + (">" + ("\n" + (notice + ("\n" + lines)))))))
    requires '&' !in document
    ensures '&' !in lines
  {
  }

  /** No title comes back but a clean one, unless it has the escape character of the tokenizer. */
  lemma TitleComesBackClean(notice: string, title: string, f: seq<Bookmark>, store: Store)
    requires IsNotice(notice) && '&' !in Document(notice, title, f)
    ensures var r := ReadText(Document(notice, title, f), store);
      r.Read? ==> TitleOk(r.store.title)
  {
    hide ReadFrom, Tokenize, Document, DoctypeToken, Lower, TitleOk, ReadTitle, HasPrefixNoCase;
    TokenRange(Document(notice, title, f));
    var toks := TitleTagFirst(notice, title, f);
    var dt := DoctypeToken("!DOCTYPE", "KDEHELP-Bookmark-file");
    var start := store.(root := store.root.(children := []));
    var rest := [TagToken("TITLE")] + toks;
    assert [dt, " ", TagToken("TITLE")] + toks == [dt] + ([" "] + rest);
    DoctypeSkipped([" "] + rest, start);
    SkipWords([" "], rest, start);
    TokensBehind([dt, " ", TagToken("TITLE")], toks);
    TitleIsRead(toks, start);
    EmptyTitle();
    ReadTitleOk(toks, "");
    var (t, after) := ReadTitle(toks, "");
    ReadFromTitle(after, start.(title := t));
  }

  lemma DoctypeSkipped(rest: seq<string>, store: Store)
    ensures ReadFrom([DoctypeToken("!DOCTYPE", "KDEHELP-Bookmark-file")] + rest, store) == ReadFrom(rest, store)
  {
    hide ReadFrom;
    var dt := DoctypeToken("!DOCTYPE", "KDEHELP-Bookmark-file");
    NameThird("!DOCTYPE", dt);
    SkipTag(dt, rest, store);
  }

  lemma TokensBehind(a: seq<string>, b: seq<string>)
    requires TokensOk(a + b)
    ensures TokensOk(b)
  {
    forall i | 0 <= i < |b| ensures TokenOk(b[i]) {
      assert (a + b)[|a| + i] == b[i];
    }
  }

  lemma TitleIsRead(toks: seq<string>, store: Store)
    ensures ReadFrom([TagToken("TITLE")] + toks, store)
         == ReadFrom(ReadTitle(toks, "").1, store.(title := ReadTitle(toks, "").0))
  {
    hide Lower, HasPrefixNoCase, ReadTitle;
    TitleStart();
    assert ([TagToken("TITLE")] + toks)[1..] == toks;
  }

  /**
   Exactly when write followed by read is the identity: the strings are plain, URL
   bookmarks have no children, folders no URL, and no URL ends in '=' but that of an
   untitled bookmark at the very end of the file.
   */
  lemma RoundTripIff(notice: string, title: string, f: seq<Bookmark>, store: Store)
    requires IsNotice(notice) && '&' !in Document(notice, title, f) && TAG_ESCAPE !in title
    ensures ComesBack(notice, title, f, store)
        <==> CleanText(title) && NoDoubleBlank(title) && (PlainForest(f) || EndsInEqualsUrl(f))
  {
    hide ReadText, Squeeze, ReadBack, TreeOk, Document, PlainForest, EndsInEqualsUrl, Writable, CleanText;
    SqueezeIdentity(false, title);
    if CleanText(title) && (PlainForest(f) || EndsInEqualsUrl(f)) {
      ReadBackAll(f);
      ReadGeneral(notice, title, f, store);
    }
    if ComesBack(notice, title, f, store) {
      TitleComesBackClean(notice, title, f, store);
      TreeRange(Document(notice, title, f), store);
      RangeIsWritable(f);
      ReadGeneral(notice, title, f, store);
      ReadBackOnly(f);
    }
  }
}
