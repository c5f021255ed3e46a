/**
 The bookmark tree of kdehelp/bookmark.cpp as values, with the functions that read
 and write it: ParseFrom is the loop of parse, ReadFrom the loop of read, Document
 what write puts on the stream.
 */
module BookmarkTree {
  import opened CStrings
  import opened BookmarkLexer

  datatype Kind = URL | Folder

  datatype Bookmark = Bookmark(text: string, url: string, kind: Kind, children: seq<Bookmark>)

  /** new KBookmark */
  const NewBookmark: Bookmark := Bookmark("", "", URL, [])

  /** The manager's title and root folder. */
  datatype Store = Store(title: string, root: Bookmark)

  // ---- Reading the attributes of an <a ...> tag ----

  /** A read past the end of the token has no defined outcome. */
  datatype Scan = Value(text: string, rest: string) | Overrun

  /** The loop that copies an attribute value; quotes only toggle. */
  function ReadValue(p: string, quoted: bool, text: string): (r: Scan)
    ensures r.Value? ==> r.rest != "" && |r.rest| <= |p| && r.rest[0] in " >"
    decreases |p|
  {
    if p == "" then Overrun
    else if (p[0] == ' ' || p[0] == '>') && !quoted then Value(text, p)
    else if p[0] == '"' then ReadValue(p[1..], !quoted, text)
    else ReadValue(p[1..], quoted, text + [p[0]])
  }

  /** strchr: the part of p from the first c on, if c occurs. */
  function From(p: string, c: char): (r: string)
    ensures |r| <= |p|
    ensures r != "" ==> r[0] == c
  {
    if p == "" || p[0] == c then p else From(p[1..], c)
  }

  /** The loop over the attributes: the last href wins. */
  function ScanAnchor(p: string, url: string): Scan
    decreases |p|
  {
    if p == "" then Overrun
    else if p[0] == '>' then Value(url, p)
    else if HasPrefixNoCase(p, "href=") then
      match ReadValue(p[5..], false, "")
      case Overrun => Overrun
      case Value(v, q) => ScanAnchor(if q[0] == ' ' then q[1..] else q, v)
    else if From(p, ' ') != "" then ScanAnchor(From(p, ' ')[1..], url)
    else if From(p, '>') != "" then ScanAnchor(From(p, '>'), url)
    else Overrun
  }

  // ---- parse ----

  datatype Parsed = Parsed(folder: Bookmark, rest: seq<string>) | Crash

  /** The pointer bm: the folder being filled itself, or the child appended last. */
  function Current(parent: Bookmark, atParent: bool): Bookmark
    requires !atParent ==> parent.children != []
  {
    if atParent then parent else parent.children[|parent.children| - 1]
  }

  function SetCurrent(parent: Bookmark, atParent: bool, bm: Bookmark): Bookmark
    requires !atParent ==> parent.children != []
  {
    if atParent then bm
    else parent.(children := parent.children[|parent.children| - 1 := bm])
  }

  predicate IsTag(token: string) {
    token != "" && token[0] == TAG_ESCAPE
  }

  /** The loop of parse on the tokens left, with its locals bm and text. */
  function ParseFrom(toks: seq<string>, parent: Bookmark, atParent: bool, text: string, end: string): (r: Parsed)
    requires !atParent ==> parent.children != []
    ensures r.Parsed? ==> |r.rest| <= |toks|
    decreases |toks|, 0
  {
    if toks == [] then Parsed(parent, [])
    else if !IsTag(toks[0]) then ParseFrom(toks[1..], parent, atParent, text + toks[0], end)
    else
      var str := toks[0][1..];
      var rest := toks[1..];
      if end != "" && EqualNoCase(str, end) then Parsed(parent, rest)
      else if HasPrefixNoCase(str, "<dl>") then
        match Parse(rest, Current(parent, atParent), "</dl>")
        case Crash => Crash
        case Parsed(b, nextRest) =>
          var nextParent := SetCurrent(parent, atParent, b);
          ParseFrom(nextRest, nextParent, atParent, text, end)
      else if HasPrefixNoCase(str, "<dt>") then
        ParseFrom(rest, parent.(children := parent.children + [NewBookmark]), false, text, end)
      else if HasPrefixNoCase(str, "<a ") then
        match ScanAnchor(str[3..], Current(parent, atParent).url)
        case Overrun => Crash
        case Value(url, _) =>
          ParseFrom(rest, SetCurrent(parent, atParent, Current(parent, atParent).(url := url)), atParent, "", end)
      else if HasPrefixNoCase(str, "<H3") then ParseFrom(rest, parent, atParent, "", end)
      else if HasPrefixNoCase(str, "</H3>") || HasPrefixNoCase(str, "</a>") then
        ParseFrom(rest, SetCurrent(parent, atParent, Current(parent, atParent).(text := text)), atParent, text, end)
      else ParseFrom(rest, parent, atParent, text, end)
  }

  /** parse */
  function Parse(toks: seq<string>, parent: Bookmark, end: string): (r: Parsed)
    ensures r.Parsed? ==> |r.rest| <= |toks|
    decreases |toks|, 1
  {
    ParseFrom(toks, parent.(kind := Folder), true, "", end)
  }

  // ---- read ----

  datatype ReadResult = Read(store: Store) | ReadCrash

  /** The loop that collects the title up to </title> or the end. */
  function ReadTitle(toks: seq<string>, t: string): (r: (string, seq<string>))
    ensures |r.1| <= |toks|
  {
    if toks == [] then (t, [])
    else if IsTag(toks[0]) && HasPrefixNoCase(toks[0][1..], "</title>") then (t, toks[1..])
    else ReadTitle(toks[1..], t + toks[0])
  }

  /** The loop of read. */
  function ReadFrom(toks: seq<string>, store: Store): ReadResult
    decreases |toks|
  {
    if toks == [] then Read(store)
    else if !IsTag(toks[0]) then ReadFrom(toks[1..], store)
    else if HasPrefixNoCase(toks[0][1..], "<title>") then
      var (t, rest) := ReadTitle(toks[1..], "");
      ReadFrom(rest, store.(title := t))
    else if HasPrefixNoCase(toks[0][1..], "<DL>") then
      match Parse(toks[1..], store.root, "")
      case Crash => ReadCrash
      case Parsed(root, rest) => ReadFrom(rest, store.(root := root))
    else ReadFrom(toks[1..], store)
  }

  /** read: the root keeps everything but its children. */
  function ReadText(content: string, store: Store): ReadResult
    requires '&' !in content
  {
    ReadFrom(Tokenize(content), store.(root := store.root.(children := [])))
  }

  // ---- write ----

  /** writeFolder */
  function Entries(f: seq<Bookmark>): string {
    if f == [] then "" else Entry(f[0]) + Entries(f[1..])
  }

  function Entry(b: Bookmark): string {
    if b.kind == URL then
      "<DT><A HREF=\"" + b.url + "\">" + b.text + "</A>\n"
    else
      "<DT><H3>" + b.text + "</H3>\n" + "<DL><P>\n" + Entries(b.children) + "</DL><P>\n"
  }

  /** The line <!DOCTYPE KDEHELP-Bookmark-file> */
  const DOCTYPE: string := "<" + ("!DOCTYPE" + (" " + ("KDEHELP-Bookmark-file" + ">")))

  /** write, with the translated comment line as a parameter. */
  function Document(notice: string, title: string, f: seq<Bookmark>): string {
    DOCTYPE + "\n" + notice + "\n"
    + "<TITLE>" + title + "</TITLE>\n" + "<H1>" + title + "</H1>\n"
    + "<DL><p>\n" + Entries(f) + "</DL><P>\n"
  }

  lemma {:induction false} EntriesAppend(f: seq<Bookmark>, g: seq<Bookmark>)
    ensures Entries(f + g) == Entries(f) + Entries(g)
  {
    if f == [] {
      assert f + g == g;
    } else {
      assert (f + g)[1..] == f[1..] + g;
      EntriesAppend(f[1..], g);
    }
  }

  // ---- the menu and getBookmark ----

  /** The URL bookmarks in menu order. */
  function Leaves(f: seq<Bookmark>): seq<Bookmark> {
    if f == [] then [] else LeavesOf(f[0]) + Leaves(f[1..])
  }

  function LeavesOf(b: Bookmark): seq<Bookmark> {
    if b.kind == URL then [b] else Leaves(b.children)
  }

  lemma {:induction false} LeavesAppend(f: seq<Bookmark>, g: seq<Bookmark>)
    ensures Leaves(f + g) == Leaves(f) + Leaves(g)
  {
    if f == [] {
      assert f + g == g;
    } else {
      assert (f + g)[1..] == f[1..] + g;
      LeavesAppend(f[1..], g);
    }
  }

  lemma LeavesStep(f: seq<Bookmark>, i: nat)
    requires i < |f|
    ensures Leaves(f[..i + 1]) == Leaves(f[..i]) + LeavesOf(f[i])
  {
    hide LeavesOf;
    LeavesAppend(f[..i], [f[i]]);
    assert f[..i + 1] == f[..i] + [f[i]];
    assert Leaves([f[i]]) == LeavesOf(f[i]) + Leaves([f[i]][1..]);
  }

  lemma LeavesPrefix(f: seq<Bookmark>, i: nat)
    requires i <= |f|
    ensures Leaves(f[..i]) <= Leaves(f)
  {
    LeavesAppend(f[..i], f[i..]);
    assert f == f[..i] + f[i..];
  }

  lemma EntriesStep(f: seq<Bookmark>, i: nat)
    requires i < |f|
    ensures Entries(f[..i + 1]) == Entries(f[..i]) + Entry(f[i])
  {
    hide Entry;
    EntriesAppend(f[..i], [f[i]]);
    assert f[..i + 1] == f[..i] + [f[i]];
    assert Entries([f[i]]) == Entry(f[i]) + Entries([f[i]][1..]);
  }

  /** A menu entry with its command id, or a sub-menu. */
  datatype MenuItem = Command(text: string, id: int) | SubMenu(text: string, items: seq<MenuItem>)

  /** The commands of a menu from top to bottom, sub-menus unfolded. */
  function Commands(menu: seq<MenuItem>): seq<(string, int)> {
    if menu == [] then [] else CommandsOf(menu[0]) + Commands(menu[1..])
  }

  function CommandsOf(item: MenuItem): seq<(string, int)> {
    if item.Command? then [(item.text, item.id)] else Commands(item.items)
  }

  /** The menu shows the forest, title by title; the ids are given to the URL bookmarks in menu order. */
  predicate Mirrors(menu: seq<MenuItem>, f: seq<Bookmark>, id: int) {
    |menu| == |f| &&
    (f == [] || (MirrorsItem(menu[0], f[0], id) && Mirrors(menu[1..], f[1..], id + |LeavesOf(f[0])|)))
  }

  predicate MirrorsItem(item: MenuItem, b: Bookmark, id: int) {
    if b.kind == URL then item == Command(b.text, id)
    else item.SubMenu? && item.text == b.text && Mirrors(item.items, b.children, id)
  }

  lemma {:induction false} MirrorsAppend(menu: seq<MenuItem>, f: seq<Bookmark>, id: int, item: MenuItem, b: Bookmark)
    requires Mirrors(menu, f, id) && MirrorsItem(item, b, id + |Leaves(f)|)
    ensures Mirrors(menu + [item], f + [b], id)
  {
    hide MirrorsItem, LeavesOf;
    if f == [] {
      assert menu + [item] == [item] && f + [b] == [b] && [item][1..] == [] && [b][1..] == [];
    } else {
      assert (menu + [item])[1..] == menu[1..] + [item] && (f + [b])[1..] == f[1..] + [b];
      MirrorsAppend(menu[1..], f[1..], id + |LeavesOf(f[0])|, item, b);
    }
  }

  /** The commands of such a menu are the URL bookmarks of the forest, numbered without gaps. */
  lemma {:induction false} MirrorCommands(menu: seq<MenuItem>, f: seq<Bookmark>, id: int)
    requires Mirrors(menu, f, id)
    ensures Commands(menu) == Numbered(Leaves(f), id)
    decreases f
  {
    hide LeavesOf, CommandsOf, MirrorsItem;
    if f != [] {
      MirrorCommandsOf(menu[0], f[0], id);
      MirrorCommands(menu[1..], f[1..], id + |LeavesOf(f[0])|);
    }
  }

  lemma {:induction false} MirrorCommandsOf(item: MenuItem, b: Bookmark, id: int)
    requires MirrorsItem(item, b, id)
    ensures CommandsOf(item) == Numbered(LeavesOf(b), id)
    decreases b
  {
    if b.kind != URL {
      MirrorCommands(item.items, b.children, id);
    }
  }

  /** No two menus show the same forest with the same ids. */
  lemma {:induction false} MirrorIsUnique(menu: seq<MenuItem>, other: seq<MenuItem>, f: seq<Bookmark>, id: int)
    requires Mirrors(menu, f, id) && Mirrors(other, f, id)
    ensures menu == other
    decreases f
  {
    if f != [] {
      if f[0].kind != URL {
        MirrorIsUnique(menu[0].items, other[0].items, f[0].children, id);
      }
      MirrorIsUnique(menu[1..], other[1..], f[1..], id + |LeavesOf(f[0])|);
      assert menu == [menu[0]] + menu[1..] && other == [other[0]] + other[1..];
    }
  }

  /** Leaf texts with consecutive ids. */
  function Numbered(leaves: seq<Bookmark>, id: int): (r: seq<(string, int)>)
    ensures |r| == |leaves|
  {
    seq(|leaves|, i requires 0 <= i < |leaves| => (leaves[i].text, id + i))
  }
}
