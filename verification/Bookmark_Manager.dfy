/**
 KBookmark and KBookmarkManager of kdehelp/bookmark.cpp: the tree on the heap, filled
 in place by parse, and the recursive walks over it.  Each method is tied to the
 functions of BookmarkTree; Tree is the value of a node.
 */
module BookmarkManager {
  import opened CStrings
  import opened BookmarkLexer
  import opened BookmarkTree

  class KBookmark {
    var text: string
    var url: string
    var kind: Kind
    var children: seq<KBookmark>

    ghost var Tree: Bookmark
    ghost var Repr: set<KBookmark>

    ghost predicate Valid()
      reads this, Repr
      decreases Repr
    {
      && this in Repr
      && (forall i :: 0 <= i < |children| ==>
            children[i] in Repr && children[i].Repr <= Repr && this !in children[i].Repr && children[i].Valid())
      && (forall i, j :: 0 <= i < j < |children| ==> children[i].Repr !! children[j].Repr)
      && Tree.text == text && Tree.url == url && Tree.kind == kind
      && |Tree.children| == |children|
      && (forall i :: 0 <= i < |children| ==> children[i].Tree == Tree.children[i])
    }

    constructor ()
      ensures Valid() && fresh(Repr) && Tree == NewBookmark && children == []
    {
      text, url, kind, children := "", "", URL, [];
      Tree, Repr := NewBookmark, {this};
    }

    method SetText(t: string)
      requires Valid()
      modifies `text, `Tree
      ensures Valid() && Tree == old(Tree).(text := t)
    {
      text := t;
      Tree := Tree.(text := t);
    }

    method SetURL(u: string)
      requires Valid()
      modifies `url, `Tree
      ensures Valid() && Tree == old(Tree).(url := u)
    {
      url := u;
      Tree := Tree.(url := u);
    }

    method SetType(k: Kind)
      requires Valid()
      modifies `kind, `Tree
      ensures Valid() && Tree == old(Tree).(kind := k)
    {
      kind := k;
      Tree := Tree.(kind := k);
    }

    /** getChildren().append */
    method Append(bm: KBookmark)
      requires Valid() && bm.Valid() && bm.Repr !! Repr
      modifies `children, `Tree, `Repr
      ensures Valid() && children == old(children) + [bm] && Repr == old(Repr) + bm.Repr
      ensures Tree == old(Tree).(children := old(Tree).children + [bm.Tree])
    {
      children := children + [bm];
      Tree := Tree.(children := Tree.children + [bm.Tree]);
      Repr := Repr + bm.Repr;
    }

    method Clear()
      requires Valid()
      modifies `children, `Tree
      ensures Valid() && Tree == old(Tree).(children := [])
    {
      children := [];
      Tree := Tree.(children := []);
    }

    /** Bookkeeping after the child appended last has changed in place. */
    ghost method Adopt()
      requires children != [] && this in Repr
      requires var n := |children| - 1;
        && (forall i :: 0 <= i <= n ==> this !in children[i].Repr && children[i].Valid())
        && (forall i :: 0 <= i < n ==> children[i] in Repr && children[i].Repr <= Repr)
        && (forall i, j :: 0 <= i < j <= n ==> children[i].Repr !! children[j].Repr)
        && Tree.text == text && Tree.url == url && Tree.kind == kind && |Tree.children| == |children|
        && (forall i :: 0 <= i < n ==> children[i].Tree == Tree.children[i])
      modifies `Tree, `Repr
      ensures Valid() && Repr == old(Repr) + children[|children| - 1].Repr
      ensures Tree == SetCurrent(old(Tree), false, children[|children| - 1].Tree)
    {
      var last := children[|children| - 1];
      Tree := SetCurrent(Tree, false, last.Tree);
      Repr := Repr + last.Repr;
    }
  }

  /** The inner loop of parse that copies the value of an href; q == |str| when it runs off the token. */
  method CopyValue(str: string, p: nat) returns (text: string, q: nat)
    requires p <= |str|
    ensures p <= q <= |str|
    ensures ReadValue(str[p..], false, "") == if q == |str| then Overrun else Value(text, str[q..])
  {
    var quoted := false;
    text, q := "", p;
    while q < |str| && ((str[q] != ' ' && str[q] != '>') || quoted)
      invariant p <= q <= |str|
      invariant ReadValue(str[q..], quoted, text) == ReadValue(str[p..], false, "")
    {
      if str[q] == '"' {
        quoted := !quoted;
      } else {
        text := text + [str[q]];
      }
      q := q + 1;
    }
  }

  /** An href attribute: the position behind its value. */
  method Href(str: string, p: nat, url: string) returns (ok: bool, nextP: nat, nextUrl: string)
    requires p < |str| && str[p] != '>' && HasPrefixNoCase(str[p..], "href=")
    ensures ok ==> p < nextP <= |str| && ScanAnchor(str[nextP..], nextUrl) == ScanAnchor(str[p..], url)
    ensures !ok ==> ScanAnchor(str[p..], url).Overrun?
  {
    hide HasPrefixNoCase, ReadValue;
    HrefLength(str[p..]);
    var q;
    nextUrl, q := CopyValue(str, p + 5);
    assert str[p..][5..] == str[p + 5..];
    ok, nextP := q < |str|, q;
    if ok && str[q] == ' ' {
      assert str[q..][1..] == str[q + 1..];
      nextP := q + 1;
    }
  }

  lemma HrefLength(s: string)
    requires HasPrefixNoCase(s, "href=")
    ensures |s| >= 5
  {
  }

  /** Any other attribute is skipped up to the next blank or the end of the tag. */
  method OtherAttribute(str: string, p: nat, url: string) returns (ok: bool, nextP: nat)
    requires p < |str| && str[p] != '>' && !HasPrefixNoCase(str[p..], "href=")
    ensures ok ==> p < nextP <= |str| && ScanAnchor(str[nextP..], url) == ScanAnchor(str[p..], url)
    ensures !ok ==> ScanAnchor(str[p..], url).Overrun?
  {
    hide HasPrefixNoCase, From;
    ghost var rest := str[p..];
    nextP := Find(str, p, ' ');
    if nextP == |str| {
      nextP := Find(str, p, '>');
      assert nextP < |str| ==> str[nextP..][0] == '>';
      ok := nextP < |str|;
    } else {
      assert From(rest, ' ')[1..] == str[nextP + 1..];
      ok, nextP := true, nextP + 1;
    }
  }

  /** The loop of parse over the attributes of an <a ...> tag. */
  method ScanTag(str: string, url: string) returns (r: Scan)
    ensures r.Overrun? <==> ScanAnchor(str, url).Overrun?
    ensures r.Value? ==> r.text == ScanAnchor(str, url).text
  {
    hide HasPrefixNoCase, From, ReadValue;
    var p, u := 0, url;
    while p < |str| && str[p] != '>'
      invariant 0 <= p <= |str|
      invariant ScanAnchor(str[p..], u) == ScanAnchor(str, url)
      decreases |str| - p
    {
      var ok;
      if HasPrefixNoCase(str[p..], "href=") {
        ok, p, u := Href(str, p, u);
      } else {
        ok, p := OtherAttribute(str, p, u);
      }
      if !ok {
        return Overrun;
      }
    }
    r := if p < |str| then Value(u, "") else Overrun;
  }

  /** strchr from p on; the end of the string if there is no c. */
  method Find(str: string, p: nat, c: char) returns (q: nat)
    requires p <= |str|
    ensures p <= q <= |str| && str[q..] == From(str[p..], c)
  {
    q := p;
    while q < |str| && str[q] != c
      invariant p <= q <= |str|
      invariant From(str[q..], c) == From(str[p..], c)
    {
      q := q + 1;
    }
  }

  /** The pointer bm of parse: the folder itself or its last child. */
  ghost predicate PointsTo(parent: KBookmark, bm: KBookmark, atParent: bool)
    reads parent
  {
    if atParent then bm == parent else parent.children != [] && bm == parent.children[|parent.children| - 1]
  }

  method SetCurrentText(parent: KBookmark, bm: KBookmark, ghost atParent: bool, text: string)
    requires parent.Valid() && PointsTo(parent, bm, atParent)
    modifies parent.Repr
    ensures parent.Valid() && PointsTo(parent, bm, atParent) && parent.Repr == old(parent.Repr)
    ensures parent.Tree == SetCurrent(old(parent.Tree), atParent, Current(old(parent.Tree), atParent).(text := text))
  {
    bm.SetText(text);
    if !atParent { parent.Adopt(); }
  }

  method SetCurrentUrl(parent: KBookmark, bm: KBookmark, ghost atParent: bool, url: string)
    requires parent.Valid() && PointsTo(parent, bm, atParent)
    modifies parent.Repr
    ensures parent.Valid() && PointsTo(parent, bm, atParent) && parent.Repr == old(parent.Repr)
    ensures parent.Tree == SetCurrent(old(parent.Tree), atParent, Current(old(parent.Tree), atParent).(url := url))
  {
    bm.SetURL(url);
    if !atParent { parent.Adopt(); }
  }

  /** The recursive call of parse for a nested list. */
  method NestedList(ht: BookmarkTokenizer, parent: KBookmark, bm: KBookmark, ghost atParent: bool) returns (ok: bool)
    requires ht.curr <= |ht.tokens| && parent.Valid() && PointsTo(parent, bm, atParent)
    modifies ht`curr, parent.Repr
    ensures old(ht.curr) <= ht.curr <= |ht.tokens|
    ensures parent.Valid() && PointsTo(parent, bm, atParent) && fresh(parent.Repr - old(parent.Repr))
    ensures var q := Parse(old(ht.tokens[ht.curr..]), Current(old(parent.Tree), atParent), "</dl>");
      if ok then q.Parsed? && q.rest == ht.tokens[ht.curr..] && parent.Tree == SetCurrent(old(parent.Tree), atParent, q.folder)
      else q == Crash
    decreases |ht.tokens| - ht.curr, 1
  {
    hide ParseFrom;
    ok := ParseList(ht, bm, "</dl>");
    if !atParent { parent.Adopt(); }
  }

  datatype Turn = More | Done | Bad

  /** What a turn of the loop of parse keeps: the parse from here is the parse from before. */
  ghost predicate Follows(turn: Turn, goal: Parsed, toks: seq<string>, tree: Bookmark, atParent: bool, text: string, end: string)
    requires !atParent ==> tree.children != []
  {
    match turn
    case More => ParseFrom(toks, tree, atParent, text, end) == goal
    case Done => goal == Parsed(tree, toks)
    case Bad => goal == Crash
  }

  lemma PrefixFits(s: string, p: string)
    requires HasPrefixNoCase(s, p)
    ensures |p| <= |s|
  {
  }

  /** The branches of parse for a tag. */
  method TagTurn(ht: BookmarkTokenizer, parent: KBookmark, bm: KBookmark, ghost atParent: bool, text: string, end: string, token: string)
    returns (turn: Turn, nextBm: KBookmark, ghost nextAtParent: bool, nextText: string)
    requires ht.curr <= |ht.tokens| && parent.Valid() && PointsTo(parent, bm, atParent) && IsTag(token)
    modifies ht`curr, parent.Repr
    ensures old(ht.curr) <= ht.curr <= |ht.tokens|
    ensures parent.Valid() && PointsTo(parent, nextBm, nextAtParent) && fresh(parent.Repr - old(parent.Repr))
    ensures Follows(turn, ParseFrom([token] + old(ht.tokens[ht.curr..]), old(parent.Tree), atParent, text, end),
                    ht.tokens[ht.curr..], parent.Tree, nextAtParent, nextText, end)
    decreases |ht.tokens| - ht.curr, 2
  {
    hide EqualNoCase, HasPrefixNoCase, Parse, ScanAnchor;
    ghost var toks := ht.tokens[ht.curr..];
    assert ([token] + toks)[1..] == toks;
    var str := token[1..];
    turn, nextBm, nextAtParent, nextText := More, bm, atParent, text;
    if end != "" && EqualNoCase(str, end) {
      turn := Done;
    } else if HasPrefixNoCase(str, "<dl>") {
      var good := NestedList(ht, parent, bm, atParent);
      turn := if good then More else Bad;
    } else if HasPrefixNoCase(str, "<dt>") {
      nextBm := new KBookmark();
      nextAtParent := false;
      parent.Append(nextBm);
    } else if HasPrefixNoCase(str, "<a ") {
      PrefixFits(str, "<a ");
      var a := ScanTag(str[3..], bm.url);
      if a.Overrun? {
        turn := Bad;
      } else {
        SetCurrentUrl(parent, bm, atParent, a.text);
        nextText := "";
      }
    } else if HasPrefixNoCase(str, "<H3") {
      nextText := "";
    } else if HasPrefixNoCase(str, "</H3>") || HasPrefixNoCase(str, "</a>") {
      SetCurrentText(parent, bm, atParent, text);
    }
  }

  /** parse; false stands for the read past the end of an unfinished tag. */
  method ParseList(ht: BookmarkTokenizer, parent: KBookmark, end: string) returns (ok: bool)
    requires ht.curr <= |ht.tokens| && parent.Valid()
    modifies ht`curr, parent.Repr
    ensures old(ht.curr) <= ht.curr <= |ht.tokens| && parent.Valid() && fresh(parent.Repr - old(parent.Repr))
    ensures var r := Parse(old(ht.tokens[ht.curr..]), old(parent.Tree), end);
      if ok then r == Parsed(parent.Tree, ht.tokens[ht.curr..]) else r == Crash
    decreases |ht.tokens| - ht.curr, 0
  {
    hide EqualNoCase, HasPrefixNoCase, ScanAnchor;
    ghost var goal := Parse(ht.tokens[ht.curr..], parent.Tree, end);
    parent.SetType(Folder);
    var bm := parent;
    ghost var atParent := true;
    var text := "";
    while ht.HasMoreTokens()
      invariant old(ht.curr) <= ht.curr <= |ht.tokens|
      invariant parent.Valid() && fresh(parent.Repr - old(parent.Repr)) && PointsTo(parent, bm, atParent)
      invariant ParseFrom(ht.tokens[ht.curr..], parent.Tree, atParent, text, end) == goal
      decreases |ht.tokens| - ht.curr
    {
      ghost var toks := ht.tokens[ht.curr..];
      var token := ht.NextToken();
      assert toks == [token] + ht.tokens[ht.curr..];
      if IsTag(token) {
        var turn;
        turn, bm, atParent, text := TagTurn(ht, parent, bm, atParent, text, end, token);
        if turn.Done? {
          return true;
        } else if turn.Bad? {
          return false;
        }
      } else {
        text := text + token;
      }
    }
    return true;
  }

  // ---- The walks over the tree ----

  /** writeFolder */
  method WriteFolder(stream: string, parent: KBookmark) returns (out: string)
    requires parent.Valid()
    ensures out == stream + Entries(parent.Tree.children)
    decreases parent.Repr, 1
  {
    hide Entry;
    out := stream;
    ghost var f := parent.Tree.children;
    assert stream + Entries(f[..0]) == stream;
    for i := 0 to |parent.children|
      invariant out == stream + Entries(f[..i])
    {
      EntriesStep(f, i);
      out := WriteBookmark(out, parent.children[i]);
    }
    assert f[..|f|] == f;
  }

  /** The body of the loop in writeFolder. */
  method WriteBookmark(stream: string, bm: KBookmark) returns (out: string)
    requires bm.Valid()
    ensures out == stream + Entry(bm.Tree)
    decreases bm.Repr, 2
  {
    if bm.kind == URL {
      out := stream + ("<DT><A HREF=\"" + bm.url + "\">" + bm.text + "</A>\n");
    } else {
      out := stream + ("<DT><H3>" + bm.text + "</H3>\n");
      out := out + "<DL><P>\n";
      out := WriteFolder(out, bm);
      out := out + "</DL><P>\n";
    }
  }

  /** findBookmark: the URL bookmark with number id, counted from currId in menu order. */
  method FindBookmark(parent: KBookmark, id: int, currId: int) returns (bm: KBookmark?, next: int)
    requires parent.Valid()
    ensures var leaves := Leaves(parent.Tree.children);
      && (bm != null <==> currId <= id < currId + |leaves|)
      && (bm != null ==> bm in parent.Repr && bm.Valid() && bm.Tree == leaves[id - currId])
      && (bm == null ==> next == currId + |leaves|)
    decreases parent.Repr
  {
    bm, next := null, currId;
    ghost var f := parent.Tree.children;
    for i := 0 to |parent.children|
      invariant bm == null
      invariant next == currId + |Leaves(f[..i])|
      invariant !(currId <= id < next)
    {
      var child := parent.children[i];
      LeavesStep(f, i);
      LeavesPrefix(f, i + 1);
      if child.kind == URL {
        if next == id {
          bm := child;
          return;
        }
        next := next + 1;
      } else {
        bm, next := FindBookmark(child, id, next);
        if bm != null {
          return;
        }
      }
    }
    assert f[..|f|] == f;
  }

  /** fillBookmarkMenu: every URL bookmark gets the next id, folders become sub-menus. */
  method FillBookmarkMenu(parent: KBookmark, id: int) returns (menu: seq<MenuItem>, next: int)
    requires parent.Valid()
    ensures Mirrors(menu, parent.Tree.children, id)
    ensures Commands(menu) == Numbered(Leaves(parent.Tree.children), id)
    ensures next == id + |Leaves(parent.Tree.children)|
    decreases parent.Repr, 1
  {
    hide LeavesOf, MirrorsItem;
    menu, next := [], id;
    ghost var f := parent.Tree.children;
    for i := 0 to |parent.children|
      invariant Mirrors(menu, f[..i], id)
      invariant next == id + |Leaves(f[..i])|
    {
      LeavesStep(f, i);
      var item;
      item, next := InsertItem(parent.children[i], next);
      MirrorsAppend(menu, f[..i], id, item, f[i]);
      assert f[..i + 1] == f[..i] + [f[i]];
      menu := menu + [item];
    }
    assert f[..|f|] == f;
    MirrorCommands(menu, f, id);
  }

  /** The body of the loop in fillBookmarkMenu. */
  method InsertItem(bm: KBookmark, id: int) returns (item: MenuItem, next: int)
    requires bm.Valid()
    ensures MirrorsItem(item, bm.Tree, id)
    ensures next == id + |LeavesOf(bm.Tree)|
    decreases bm.Repr, 2
  {
    if bm.kind == URL {
      item, next := Command(bm.text, id), id + 1;
    } else {
      var sub;
      sub, next := FillBookmarkMenu(bm, id);
      item := SubMenu(bm.text, sub);
    }
  }

  const BOOKMARK_ID_BASE: int := 200

  class KBookmarkManager {
    var root: KBookmark
    var title: string

    ghost predicate Valid()
      reads this, root, root.Repr
    {
      root.Valid()
    }

    ghost function View(): Store
      reads this, root
    {
      Store(title, root.Tree)
    }

    constructor ()
      ensures Valid() && fresh(root.Repr) && View() == Store("", NewBookmark)
    {
      root := new KBookmark();
      title := "";
    }

    /** The inner loop of read, from <title> to </title>. */
    method CollectTitle(ht: BookmarkTokenizer) returns (t: string)
      requires ht.curr <= |ht.tokens|
      modifies ht`curr
      ensures old(ht.curr) <= ht.curr <= |ht.tokens|
      ensures (t, ht.tokens[ht.curr..]) == ReadTitle(old(ht.tokens[ht.curr..]), "")
    {
      t := "";
      var bend := false;
      while !bend
        invariant old(ht.curr) <= ht.curr <= |ht.tokens|
        invariant if bend then (t, ht.tokens[ht.curr..]) == ReadTitle(old(ht.tokens[ht.curr..]), "")
          else ReadTitle(ht.tokens[ht.curr..], t) == ReadTitle(old(ht.tokens[ht.curr..]), "")
        decreases |ht.tokens| - ht.curr, !bend
      {
        if !ht.HasMoreTokens() {
          bend := true;
        } else {
          ghost var toks := ht.tokens[ht.curr..];
          var str := ht.NextToken();
          assert toks[0] == str && toks[1..] == ht.tokens[ht.curr..];
          if IsTag(str) && HasPrefixNoCase(str[1..], "</title>") {
            bend := true;
          } else {
            t := t + str;
          }
        }
      }
    }

    /** The loop of read. */
    method ReadTokens(ht: BookmarkTokenizer) returns (ok: bool)
      requires Valid() && ht.curr <= |ht.tokens|
      modifies this`title, root.Repr, ht`curr
      ensures Valid() && root == old(root) && fresh(root.Repr - old(root.Repr))
      ensures var r := ReadFrom(old(ht.tokens[ht.curr..]), old(View()));
        if ok then r == Read(View()) else r == ReadCrash
    {
      ghost var goal := ReadFrom(ht.tokens[ht.curr..], View());
      while ht.HasMoreTokens()
        invariant ht.curr <= |ht.tokens|
        invariant Valid() && fresh(root.Repr - old(root.Repr))
        invariant ReadFrom(ht.tokens[ht.curr..], View()) == goal
        decreases |ht.tokens| - ht.curr
      {
        ghost var toks := ht.tokens[ht.curr..];
        var str := ht.NextToken();
        assert toks[0] == str && toks[1..] == ht.tokens[ht.curr..];
        if IsTag(str) {
          if HasPrefixNoCase(str[1..], "<title>") {
            title := CollectTitle(ht);
          } else if HasPrefixNoCase(str[1..], "<DL>") {
            var good := ParseList(ht, root, "");
            if !good {
              return false;
            }
          }
        }
      }
      return true;
    }

    /** read, on the text of the file. */
    method ReadFile(content: string) returns (ok: bool)
      requires Valid() && '&' !in content
      modifies this`title, root.Repr
      ensures Valid() && root == old(root) && fresh(root.Repr - old(root.Repr))
      ensures var r := ReadText(content, old(View()));
        if ok then r == Read(View()) else r == ReadCrash
    {
      root.Clear();
      var ht := new BookmarkTokenizer.Begin();
      ht.Write(content);
      ht.End();
      assert ht.tokens[ht.curr..] == Tokenize(content);
      ok := ReadTokens(ht);
    }

    /** write */
    method WriteFile(notice: string) returns (stream: string)
      requires Valid()
      ensures stream == Document(notice, title, root.Tree.children)
    {
      stream := DOCTYPE + "\n" + notice + "\n";
      stream := stream + "<TITLE>" + title + "</TITLE>\n";
      stream := stream + "<H1>" + title + "</H1>\n";
      stream := stream + "<DL><p>\n";
      stream := WriteFolder(stream, root);
      stream := stream + "</DL><P>\n";
    }

    /** getBookmark on a menu command. */
    method GetBookmark(id: int) returns (bm: KBookmark?)
      requires Valid()
      ensures var leaves := Leaves(root.Tree.children);
        && (bm != null <==> 0 <= id < |leaves|)
        && (bm != null ==> bm in root.Repr && bm.Valid() && bm.Tree == leaves[id])
    {
      var next;
      bm, next := FindBookmark(root, id, 0);
    }

    /** The menu and the lookup agree: command k of the menu finds the k-th URL bookmark. */
    method MenuFinds(k: nat) returns (menu: seq<MenuItem>, bm: KBookmark?)
      requires Valid() && k < |Leaves(root.Tree.children)|
      ensures Mirrors(menu, root.Tree.children, BOOKMARK_ID_BASE)
      ensures |Commands(menu)| == |Leaves(root.Tree.children)|
      ensures bm != null && bm.Tree == Leaves(root.Tree.children)[k] && Commands(menu)[k].0 == bm.Tree.text
    {
      var next;
      menu, next := FillBookmarkMenu(root, BOOKMARK_ID_BASE);
      bm := GetBookmark(Commands(menu)[k].1 - BOOKMARK_ID_BASE);
    }
  }
}
