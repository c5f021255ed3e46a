/**
 The lines find prints, cut out of the chunks its output comes in: what the lines are, that
 the cuts make no difference, and the buffer the program shifts in place.
 */
module FindLines {

  import opened CStrings

  /** The lines ended by a newline, and what is behind the last newline. */
  function Lines(s: string): seq<string> {
    if '\n' !in s then [] else [Until(s, '\n')] + Lines(Behind(s))
  }

  function Tail(s: string): string {
    if '\n' !in s then s else Tail(Behind(s))
  }

  /** Behind the first newline. */
  function Behind(s: string): (r: string)
    requires '\n' in s
    ensures |r| < |s| && s == Until(s, '\n') + "\n" + r
  {
    UntilStops(s, '\n');
    var n := |Until(s, '\n')|;
    s[n + 1..]
  }

  /** The lines so far and the unfinished one in the buffer. */
  datatype Output = Output(lines: seq<string>, tail: string)

  const NOTHING: Output := Output([], "")

  /** handleStdout: of a chunk the program sees what comes before a NUL. */
  function Feed(o: Output, chunk: string): Output {
    var s := o.tail + Until(chunk, '\0');
    Output(o.lines + Lines(s), Tail(s))
  }

  function FeedAll(o: Output, chunks: seq<string>): Output
    decreases |chunks|
  {
    if chunks == [] then o else FeedAll(Feed(o, chunks[0]), chunks[1..])
  }

  function Seen(chunks: seq<string>): string {
    if chunks == [] then "" else Until(chunks[0], '\0') + Seen(chunks[1..])
  }

  function Split(s: string): Output {
    Output(Lines(s), Tail(s))
  }

  // ---- The lines are the lines ----

  /** Lines and tail put together again. */
  function Text(o: Output): string
    decreases |o.lines|
  {
    if o.lines == [] then o.tail else o.lines[0] + "\n" + Text(Output(o.lines[1..], o.tail))
  }

  predicate NoNewlines(o: Output) {
    '\n' !in o.tail && forall i :: 0 <= i < |o.lines| ==> '\n' !in o.lines[i]
  }

  lemma {:induction false} SplitIsText(s: string)
    ensures Text(Split(s)) == s && NoNewlines(Split(s))
    decreases |s|
  {
    if '\n' in s {
      var rest := Behind(s);
      UntilStops(s, '\n');
      SplitIsText(rest);
      assert Lines(s)[1..] == Lines(rest);
    }
  }

  /** There is only one way to split a text. */
  lemma {:induction false} SplitIsUnique(o: Output)
    requires NoNewlines(o)
    ensures Split(Text(o)) == o
    decreases |o.lines|
  {
    if o.lines != [] {
      var rest := Output(o.lines[1..], o.tail);
      SplitIsUnique(rest);
      UntilFirst(o.lines[0], Text(rest));
      assert Behind(Text(o)) == Text(rest);
      assert [o.lines[0]] + o.lines[1..] == o.lines;
    }
  }

  lemma {:induction false} UntilFirst(a: string, b: string)
    requires '\n' !in a
    ensures Until(a + "\n" + b, '\n') == a
  {
    if a == "" {
      assert a + "\n" + b == "\n" + b;
    } else {
      UntilFirst(a[1..], b);
      assert (a + "\n" + b)[1..] == a[1..] + "\n" + b;
    }
  }

  // ---- Cuts make no difference ----

  lemma BehindAppend(a: string, b: string)
    requires '\n' in a
    ensures '\n' in a + b && Until(a + b, '\n') == Until(a, '\n') && Behind(a + b) == Behind(a) + b
  {
    hide Until, Behind;
    var first, rest := Until(a, '\n'), Behind(a);
    UntilStops(a, '\n');
    Regroup(first, rest, b);
    UntilFirst(first, rest + b);
    BehindFirst(first, rest + b);
  }

  lemma Regroup(first: string, rest: string, b: string)
    ensures (first + "\n" + rest) + b == first + "\n" + (rest + b)
  {
  }

  lemma BehindFirst(first: string, rest: string)
    requires '\n' !in first
    ensures '\n' in first + "\n" + rest && Behind(first + "\n" + rest) == rest
  {
    hide Until;
    assert (first + "\n" + rest)[|first|] == '\n';
    UntilFirst(first, rest);
  }

  lemma {:induction false} SplitAppend(a: string, b: string)
    ensures Lines(a + b) == Lines(a) + Lines(Tail(a) + b)
    ensures Tail(a + b) == Tail(Tail(a) + b)
    decreases |a|
  {
    hide Behind, Until;
    if '\n' in a {
      BehindAppend(a, b);
      SplitAppend(Behind(a), b);
      var first, more, rest := [Until(a, '\n')], Lines(Behind(a)), Lines(Tail(a) + b);
      assert first + (more + rest) == first + more + rest;
    } else {
      assert [] + Lines(a + b) == Lines(a + b);
    }
  }

  lemma {:induction false} FeedAllSplits(done: string, chunks: seq<string>)
    ensures FeedAll(Split(done), chunks) == Split(done + Seen(chunks))
    decreases |chunks|
  {
    hide Until, Lines, Tail;
    if chunks == [] {
      assert done + Seen(chunks) == done;
    } else {
      var c := Until(chunks[0], '\0');
      SplitAppend(done, c);
      assert Feed(Split(done), chunks[0]) == Split(done + c);
      FeedAllSplits(done + c, chunks[1..]);
      assert done + c + Seen(chunks[1..]) == done + (c + Seen(chunks[1..]));
    }
  }

  /** The output is split as if it had come in one piece. */
  lemma ChunksAreSplit(chunks: seq<string>)
    ensures FeedAll(NOTHING, chunks) == Split(Seen(chunks))
  {
    FeedAllSplits("", chunks);
    assert "" + Seen(chunks) == Seen(chunks);
  }

  // ---- Exactly when the cuts do not matter ----

  /** Behind a NUL there are only NULs. */
  predicate NulsAtEnd(s: string) {
    forall i, j :: 0 <= i < j < |s| && s[i] == '\0' ==> s[j] == '\0'
  }

  lemma {:induction false} UntilAll(s: string, c: char)
    requires c !in s
    ensures Until(s, c) == s
  {
    if s != "" {
      UntilAll(s[1..], c);
    }
  }

  lemma NulsBehind(a: string, b: string)
    requires NulsAtEnd(a + b)
    ensures NulsAtEnd(b) && ('\0' in a ==> Until(b, '\0') == "")
  {
    forall i, j | 0 <= i < j < |b| && b[i] == '\0'
      ensures b[j] == '\0'
    {
      assert (a + b)[|a| + i] == b[i] && (a + b)[|a| + j] == b[j];
    }
    if '\0' in a && b != "" {
      var i :| 0 <= i < |a| && a[i] == '\0';
      assert (a + b)[i] == '\0' && (a + b)[|a|] == b[0];
    }
  }

  lemma {:induction false} SeenOfJoined(chunks: seq<string>)
    requires NulsAtEnd(Join(chunks))
    ensures Seen(chunks) == Until(Join(chunks), '\0')
    decreases |chunks|
  {
    hide Until, NulsAtEnd;
    if chunks == [] {
      NoNul();
    } else {
      var a, b := chunks[0], Join(chunks[1..]);
      NulsBehind(a, b);
      SeenOfJoined(chunks[1..]);
      UntilJoined(a, b);
      if '\0' in a {
        assert Until(a, '\0') + "" == Until(a, '\0');
      } else {
        UntilAll(a, '\0');
      }
    }
  }

  lemma NoNul()
    ensures Until("", '\0') == ""
  {
  }

  lemma {:induction false} UntilJoined(a: string, b: string)
    ensures Until(a + b, '\0') == if '\0' in a then Until(a, '\0') else a + Until(b, '\0')
  {
    hide Until;
    if a == "" {
      assert a + b == b && a + Until(b, '\0') == Until(b, '\0');
    } else {
      var c, rest := a[0], a[1..];
      assert a == [c] + rest;
      assert [c] + rest + b == [c] + (rest + b);
      UntilStep(c, rest);
      UntilStep(c, rest + b);
      UntilJoined(rest, b);
      assert [c] + (rest + Until(b, '\0')) == [c] + rest + Until(b, '\0');
      assert '\0' in a <==> c == '\0' || '\0' in rest;
    }
  }

  lemma UntilStep(c: char, s: string)
    ensures Until([c] + s, '\0') == if c == '\0' then "" else [c] + Until(s, '\0')
  {
    assert ([c] + s)[1..] == s;
  }

  /** Two different texts are not split alike. */
  lemma SplitApart(a: string, b: string)
    requires Split(a) == Split(b)
    ensures a == b
  {
    SplitIsText(a);
    SplitIsText(b);
  }

  /** However it is cut, a text gives the same lines exactly if no NUL is followed by anything else. */
  lemma CutsDoNotMatterIff(s: string)
    ensures NulsAtEnd(s)
       <==> forall chunks :: Join(chunks) == s ==> FeedAll(NOTHING, chunks) == FeedAll(NOTHING, [s])
  {
    OneChunk(s);
    if NulsAtEnd(s) {
      forall chunks | Join(chunks) == s
        ensures FeedAll(NOTHING, chunks) == FeedAll(NOTHING, [s])
      {
        SeenOfJoined(chunks);
        ChunksAreSplit(chunks);
        ChunksAreSplit([s]);
      }
    } else {
      var i, j :| 0 <= i < j < |s| && s[i] == '\0' && s[j] != '\0';
      CutBehindNul(s, i, j);
    }
  }

  lemma OneChunk(s: string)
    ensures Seen([s]) == Until(s, '\0')
  {
    assert Seen([s][1..]) == "";
  }

  lemma CutBehindNul(s: string, i: nat, j: nat)
    requires i < j < |s| && s[i] == '\0' && s[j] != '\0'
    ensures Join([s[..j], s[j..]]) == s
    ensures FeedAll(NOTHING, [s[..j], s[j..]]) != FeedAll(NOTHING, [s])
  {
    hide FeedAll, Split;
    var a, b := s[..j], s[j..];
    assert [a, b][1..] == [b] && [b][1..] == [];
    assert a + b == s && a[i] == '\0';
    assert Join([b]) == b + Join([]) == b;
    assert Join([a, b]) == a + Join([b]);
    ChunksAreSplit([a, b]);
    ChunksAreSplit([s]);
    OneChunk(s);
    OneChunk(b);
    UntilJoined(a, b);
    assert Seen([a, b]) == Until(a, '\0') + Until(b, '\0');
    assert |Until(b, '\0')| > 0;
    if FeedAll(NOTHING, [a, b]) == FeedAll(NOTHING, [s]) {
      SplitApart(Seen([a, b]), Seen([s]));
    }
  }
}
