/**
 The character state machine of kdehelp/booktoken.cpp.  A Lexer value holds the
 token buffer (everything from buffer up to dest), the tokens already queued and
 the five flags.  Step handles one turn of the loop in write, Run the whole loop.
 */
module BookmarkLexer {
  import opened CStrings

  const TAG_ESCAPE: char := '\r'

  datatype Lexer = Lexer(
    buf: string,
    tokens: seq<string>,
    tag: bool,
    tquote: bool,
    space: bool,
    discardCR: bool,
    comment: bool)
  {
    /** Inside a tag the buffer starts with the escape character and '<', so *(dest-1) exists. */
    predicate Valid() {
      tag ==> |buf| >= 2 && buf[0] == TAG_ESCAPE && buf[1] == '<'
    }
  }

  const Start: Lexer := Lexer("", [], false, false, false, false, false)

  /** appendToken: empty tokens are not queued. */
  function Append(tokens: seq<string>, t: string): (r: seq<string>)
    ensures tokens <= r
  {
    if t == "" then tokens else tokens + [t]
  }

  /** The name of a finished tag, up to the first blank, is folded to lower case. */
  function LowerName(tag: string): string {
    if tag == "" || tag[0] == ' ' || tag[0] == '\0' then tag else [ToLower(tag[0])] + LowerName(tag[1..])
  }

  /** The white space branches (blank, newline, tab) share this effect. */
  function Blank(st: Lexer): Lexer {
    if st.tag then
      if st.space then st else st.(buf := st.buf + " ", space := true)
    else if st.space then st
    else st.(buf := "", tokens := Append(st.tokens, st.buf) + [" "], space := true)
  }

  /** The branch for " and '. */
  function Quote(st: Lexer, c: char): Lexer
    requires st.Valid()
  {
    if !st.tag then
      st.(buf := st.buf + [c], space := false, discardCR := false)
    else if st.buf[|st.buf| - 1] == '=' then
      st.(buf := st.buf + "\"", tquote := true, space := false, discardCR := false)
    else if st.tquote then
      st.(buf := st.buf + "\" ", tquote := false, space := true, discardCR := true)
    else
      st
  }

  /** The branch for '='. */
  function Equals(st: Lexer): Lexer
    requires st.Valid()
  {
    if st.tag && !st.tquote then
      var b := if st.buf[|st.buf| - 1] == ' ' then st.buf[..|st.buf| - 1] else st.buf;
      st.(buf := b + "=", space := true, discardCR := true)
    else
      st.(buf := st.buf + "=", space := false, discardCR := false)
  }

  /** The '<' that opens a tag queues the text before it. */
  function OpenTag(tokens: seq<string>): Lexer {
    Lexer([TAG_ESCAPE, '<'], tokens, true, false, true, true, false)
  }

  /** The '>' that closes a tag queues the tag. */
  function CloseTag(st: Lexer): Lexer
    requires st.Valid() && st.tag
  {
    st.(buf := "", tokens := st.tokens + [st.buf[..2] + LowerName(st.buf[2..] + ">")],
        tag := false, space := false, discardCR := false)
  }

  lemma LowerAdvance(b: string, p: nat)
    requires p < |b| && b[p] != ' ' && b[p] != '\0'
    ensures var nextB := b[p := ToLower(b[p])];
      nextB[..p + 1] + LowerName(nextB[p + 1..]) == b[..p] + LowerName(b[p..])
  {
    var nextB := b[p := ToLower(b[p])];
    assert nextB[p + 1..] == b[p..][1..];
    assert nextB[..p + 1] == b[..p] + [ToLower(b[p])];
  }

  /** One turn of the loop: the new state and the number of characters consumed. */
  function Step(st: Lexer, src: string): (r: (Lexer, nat))
    requires st.Valid() && src != ""
    ensures r.0.Valid() && 1 <= r.1 <= |src|
  {
    var c := src[0];
    if st.comment then
      if "->" <= src then (st.(comment := false), 2) else (st, 1)
    else if c == '<' && !st.tquote then
      if "!-" <= src[1..] then (st.(comment := true), 3)
      else (OpenTag(Append(st.tokens, st.buf)), 1)
    else if c == '>' && st.tag && !st.tquote then (CloseTag(st), 1)
    else if c == '\n' then (if st.discardCR then st else Blank(st), 1)
    else if c == ' ' || c == '\t' then (Blank(st), 1)
    else if c == '\r' then (st, 1)
    else if c == '"' || c == '\'' then (Quote(st, c), 1)
    else if c == '=' then (Equals(st), 1)
    else (st.(buf := st.buf + [c], space := false, discardCR := false), 1)
  }

  /** The loop of write, up to the end of the C string. */
  function Run(st: Lexer, src: string): (r: Lexer)
    requires st.Valid() && '&' !in src
    ensures r.Valid()
    decreases |src|
  {
    if src == "" || src[0] == '\0' then st
    else var (nextSt, n) := Step(st, src); Run(nextSt, src[n..])
  }

  lemma RunStep(st: Lexer, src: string)
    requires st.Valid() && '&' !in src && src != "" && src[0] != '\0'
    ensures Run(st, src) == Run(Step(st, src).0, src[Step(st, src).1..])
  {
    hide Step;
  }

  lemma RunStops(st: Lexer, src: string)
    requires st.Valid() && '&' !in src && (src == "" || src[0] == '\0')
    ensures Run(st, src) == st
  {
  }

  /** end: what is left in the buffer becomes the last token. */
  function Finish(st: Lexer): seq<string> {
    Append(st.tokens, st.buf)
  }

  /** begin, write, end on a fresh tokenizer. */
  function Tokenize(src: string): seq<string>
    requires '&' !in src
  {
    Finish(Run(Start, src))
  }

  /**
   The tokenizer of kdehelp/booktoken.cpp.  The linked list of tokens is a sequence
   with curr as the read position; the growing character buffer is a sequence.
   */
  class BookmarkTokenizer {
    var buffer: string
    var tokens: seq<string>
    var curr: nat
    var tag: bool
    var tquote: bool
    var space: bool
    var discardCR: bool
    var comment: bool

    ghost function View(): Lexer
      reads this
    {
      Lexer(buffer, tokens, tag, tquote, space, discardCR, comment)
    }

    ghost predicate Valid()
      reads this
    {
      View().Valid() && curr <= |tokens|
    }

    /** begin */
    constructor Begin()
      ensures Valid() && View() == Start && curr == 0
    {
      buffer, tokens, curr := "", [], 0;
      tag, tquote, space, discardCR, comment := false, false, false, false, false;
    }

    method AppendToken(t: string)
      modifies `tokens
      ensures tokens == Append(old(tokens), t)
    {
      if |t| < 1 { return; }
      tokens := tokens + [t];
    }

    /** Blank, newline and tab: at most one separator, a token of its own outside tags. */
    method Separate()
      requires Valid()
      modifies `buffer, `tokens, `space
      ensures Valid() && View() == Blank(old(View()))
    {
      if tag {
        if !space {
          buffer := buffer + " ";
          space := true;
        }
      } else if !space {
        AppendToken(buffer);
        AppendToken(" ");
        buffer := "";
        space := true;
      }
    }

    method QuoteMark(c: char)
      requires Valid()
      modifies `buffer, `tquote, `space, `discardCR
      ensures Valid() && View() == Quote(old(View()), c)
    {
      if tag {
        if buffer[|buffer| - 1] == '=' {
          tquote := true;
          buffer := buffer + "\"";
          space := false;
          discardCR := false;
        } else if tquote {
          tquote := false;
          buffer := buffer + "\" ";
          space := true;
          discardCR := true;
        }
      } else {
        space := false;
        discardCR := false;
        buffer := buffer + [c];
      }
    }

    method EqualsSign()
      requires Valid()
      modifies `buffer, `space, `discardCR
      ensures Valid() && View() == Equals(old(View()))
    {
      if tag && !tquote {
        if buffer[|buffer| - 1] == ' ' {
          buffer := buffer[..|buffer| - 1];
        }
        buffer := buffer + "=";
        space := true;
        discardCR := true;
      } else {
        space := false;
        discardCR := false;
        buffer := buffer + "=";
      }
    }

    /** Lower-cases the tag name in place and queues the tag. */
    method FinishTag()
      requires Valid() && tag
      modifies `buffer, `tokens, `tag, `space, `discardCR
      ensures Valid() && View() == CloseTag(old(View()))
    {
      space := false;
      discardCR := false;
      ghost var target := buffer[..2] + LowerName(buffer[2..] + ">");
      buffer := buffer + ">";
      assert buffer[2..] == old(buffer)[2..] + ">" && buffer[..2] == old(buffer)[..2];
      LowerInPlace(target);
      AppendToken(buffer);
      buffer := "";
      tag := false;
    }

    /** The loop that lower-cases the tag name. */
    method LowerInPlace(ghost target: string)
      requires |buffer| >= 2 && target == buffer[..2] + LowerName(buffer[2..])
      modifies `buffer
      ensures buffer == target
    {
      var ptr := 2;
      while ptr < |buffer| && buffer[ptr] != '\0' && buffer[ptr] != ' '
        invariant 2 <= ptr <= |buffer| && |buffer| == |old(buffer)|
        invariant buffer[..ptr] + LowerName(buffer[ptr..]) == target
        modifies `buffer
      {
        LowerAdvance(buffer, ptr);
        buffer := buffer[ptr := ToLower(buffer[ptr])];
        ptr := ptr + 1;
      }
      assert LowerName(buffer[ptr..]) == buffer[ptr..];
      assert buffer == buffer[..ptr] + buffer[ptr..];
    }

    /** The body of the loop in write. */
    method Turn(str: string, at: nat) returns (src: nat)
      requires Valid() && at < |str|
      modifies this
      ensures Valid() && curr == old(curr)
      ensures at < src <= |str| && (View(), src - at) == Step(old(View()), str[at..])
    {
      var c := str[at];
      src := at + 1;
      if comment {
        if src < |str| && c == '-' && str[src] == '>' {
          src := src + 1;
          comment := false;
        }
      } else if c == '<' && !tquote {
        if src + 1 < |str| && str[src] == '!' && str[src + 1] == '-' {
          src := src + 2;
          comment := true;
        } else {
          space := true;
          discardCR := true;
          tquote := false;
          AppendToken(buffer);
          buffer := [TAG_ESCAPE, '<'];
          tag := true;
        }
      } else if c == '>' && tag && !tquote {
        FinishTag();
      } else if c == '\n' {
        if !discardCR {
          Separate();
        }
      } else if c == ' ' || c == '\t' {
        Separate();
      } else if c == '\r' {
        // discard
      } else if c == '"' || c == '\'' {
        QuoteMark(c);
      } else if c == '=' {
        EqualsSign();
      } else {
        space := false;
        discardCR := false;
        buffer := buffer + [c];
      }
    }

    /** write */
    method Write(str: string)
      requires Valid() && '&' !in str
      modifies this
      ensures Valid() && View() == Run(old(View()), str) && curr == old(curr)
    {
      hide Step, Run;
      var src := 0;
      while src < |str| && str[src] != '\0'
        invariant 0 <= src <= |str|
        invariant Valid() && curr == old(curr)
        invariant Run(View(), str[src..]) == Run(old(View()), str)
      {
        var at := src;
        assert str[at..][0] == str[at];
        RunStep(View(), str[at..]);
        src := Turn(str, at);
        assert str[at..][src - at..] == str[src..];
      }
      RunStops(View(), str[src..]);
    }

    /** end */
    method End()
      requires Valid()
      modifies this
      ensures tokens == Finish(old(View())) && curr == old(curr) && curr <= |tokens|
    {
      AppendToken(buffer);
      buffer := "";
    }

    predicate HasMoreTokens()
      reads this
    {
      curr < |tokens|
    }

    method NextToken() returns (t: string)
      requires HasMoreTokens()
      modifies `curr
      ensures curr == old(curr) + 1 && t == tokens[old(curr)]
    {
      t := tokens[curr];
      curr := curr + 1;
    }
  }
}
