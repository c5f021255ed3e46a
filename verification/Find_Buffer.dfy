/**
 The buffer of kfind: chunks are appended to the C string in it, lines are taken from its
 front and the rest is moved down, all in one array.
 */
module FindBuffer {

  import opened CStrings
  import opened FindLines

  const IBUFSIZE: nat := 16384

  class Kfind {

    const iBuffer: array<char>
    var results: seq<string>

    ghost predicate Valid()
      reads iBuffer
    {
      iBuffer.Length == IBUFSIZE && '\0' in iBuffer[..]
    }

    /** The C string in the buffer. */
    ghost function Held(): string
      reads iBuffer
    {
      Until(iBuffer[..], '\0')
    }

    ghost function View(): Output
      reads this, iBuffer
    {
      Output(results, Held())
    }

    /** startSearch */
    constructor ()
      ensures Valid() && fresh(iBuffer) && View() == NOTHING
    {
      iBuffer := new char[IBUFSIZE];
      results := [];
      new;
      iBuffer[0] := '\0';
      UntilIs(iBuffer[..], 0, '\0');
    }

    method Strlen(start: nat) returns (n: nat)
      requires start < iBuffer.Length && '\0' in iBuffer[start..]
      ensures start + n < iBuffer.Length && iBuffer[start + n] == '\0' && '\0' !in iBuffer[start..start + n]
    {
      n := 0;
      while iBuffer[start + n] != '\0'
        invariant start + n < iBuffer.Length && '\0' !in iBuffer[start..start + n] && '\0' in iBuffer[start + n..]
        decreases iBuffer.Length - n
      {
        assert iBuffer[start + n..] == [iBuffer[start + n]] + iBuffer[start + n + 1..];
        assert iBuffer[start..start + n + 1] == iBuffer[start..start + n] + [iBuffer[start + n]];
        n := n + 1;
      }
    }

    /** The place of the first newline in the string, or -1. */
    method Strchr() returns (p: int)
      requires Valid()
      ensures p < 0 ==> '\n' !in Held()
      ensures p >= 0 ==> p < |Held()| && Held()[p] == '\n' && '\n' !in Held()[..p]
    {
      HeldIs(iBuffer[..]);
      p := 0;
      while iBuffer[p] != '\0'
        invariant 0 <= p <= |Held()| && '\n' !in Held()[..p]
        decreases |Held()| - p
      {
        if iBuffer[p] == '\n' {
          return;
        }
        assert Held()[..p + 1] == Held()[..p] + [iBuffer[p]];
        p := p + 1;
      }
      assert Held()[..p] == Held();
      p := -1;
    }

    /** memcpy of the chunk behind the string, and a NUL behind that. */
    method Append(chunk: string)
      requires Valid() && |Held()| + |chunk| < IBUFSIZE
      modifies iBuffer
      ensures Valid() && Held() == old(Held()) + Until(chunk, '\0')
    {
      HeldIs(iBuffer[..]);
      var len := Strlen(0);
      assert iBuffer[0..len] == iBuffer[..len];
      UntilIs(iBuffer[..], len, '\0');
      for i := 0 to |chunk|
        invariant iBuffer[..len + i] == old(iBuffer[..len]) + chunk[..i]
      {
        iBuffer[len + i] := chunk[i];
      }
      iBuffer[len + |chunk|] := '\0';
      assert iBuffer[..] == old(Held()) + chunk + (['\0'] + iBuffer[len + |chunk| + 1..]);
      UntilAppended(old(Held()), chunk, iBuffer[len + |chunk| + 1..]);
    }

    /** memmove of the string behind p to the front. */
    method MoveDown(p: nat)
      requires Valid() && p + 1 < iBuffer.Length && '\0' in iBuffer[p + 1..]
      modifies iBuffer
      ensures Valid() && Held() == Until(old(iBuffer[p + 1..]), '\0')
    {
      hide Until;
      var n := Strlen(p + 1);
      UntilIs(iBuffer[p + 1..], n, '\0');
      assert iBuffer[p + 1..][..n] == iBuffer[p + 1..p + 1 + n];
      for i := 0 to n + 1
        invariant forall k :: 0 <= k < i ==> iBuffer[k] == old(iBuffer[p + 1 + k])
        invariant forall k :: i <= k < iBuffer.Length ==> iBuffer[k] == old(iBuffer[k])
      {
        iBuffer[i] := iBuffer[p + 1 + i];
      }
      assert iBuffer[n] == '\0' && iBuffer[..][n] == '\0';
      assert iBuffer[..n] == old(iBuffer[p + 1..p + 1 + n]);
      assert iBuffer[..][..n] == iBuffer[..n];
      UntilIs(iBuffer[..], n, '\0');
    }

    /** The first line of the buffer becomes a result. */
    method TakeLine(p: nat)
      requires Valid() && p < |Held()| && Held()[p] == '\n' && '\n' !in Held()[..p]
      modifies this`results, iBuffer
      ensures Valid() && '\n' in old(Held()) && Held() == Behind(old(Held()))
      ensures results == old(results) + [Until(old(Held()), '\n')]
    {
      hide Until, Behind;
      HeldIs(iBuffer[..]);
      BehindIs(Held(), p);
      ghost var behind := Held()[p + 1..];
      iBuffer[p] := '\0';
      assert iBuffer[p + 1..] == old(iBuffer[p + 1..]);
      assert iBuffer[..p] == old(Held())[..p];
      results := results + [iBuffer[..p]];
      assert iBuffer[p + 1..][..|behind|] == behind;
      UntilIs(iBuffer[p + 1..], |behind|, '\0');
      MoveDown(p);
    }

    /** The lines finished by this chunk are results, what is left stays in the buffer. */
    method HandleStdout(chunk: string)
      requires Valid() && |Held()| + |chunk| < IBUFSIZE
      modifies this`results, iBuffer
      ensures Valid() && View() == Feed(old(View()), chunk)
    {
      hide Until, Behind;
      Append(chunk);
      ghost var s := Held();
      var p := Strchr();
      while p >= 0
        invariant Valid()
        invariant p < 0 ==> '\n' !in Held()
        invariant p >= 0 ==> p < |Held()| && Held()[p] == '\n' && '\n' !in Held()[..p]
        invariant results + Lines(Held()) == old(results) + Lines(s) && Tail(Held()) == Tail(s)
        decreases |Held()|
      {
        ghost var before := Held();
        TakeLine(p);
        assert Lines(before) == [Until(before, '\n')] + Lines(Held());
        p := Strchr();
      }
    }
  }

  lemma {:induction false} UntilIs(s: string, n: nat, c: char)
    requires n < |s| && s[n] == c && c !in s[..n]
    ensures Until(s, c) == s[..n]
  {
    if n > 0 {
      assert s[0] in s[..n];
      assert s[..n] == [s[0]] + s[1..][..n - 1];
      UntilIs(s[1..], n - 1, c);
    }
  }

  lemma BehindIs(s: string, p: nat)
    requires p < |s| && s[p] == '\n' && '\n' !in s[..p]
    ensures '\n' in s && Until(s, '\n') == s[..p] && Behind(s) == s[p + 1..]
  {
    UntilIs(s, p, '\n');
  }

  /** Where the string in a buffer ends. */
  lemma HeldIs(buffer: string)
    requires '\0' in buffer
    ensures var u := Until(buffer, '\0');
      |u| < |buffer| && buffer[|u|] == '\0' && '\0' !in u && buffer[..|u|] == u
  {
    UntilStops(buffer, '\0');
  }

  lemma UntilAppended(held: string, chunk: string, rest: string)
    requires '\0' !in held
    ensures Until(held + chunk + (['\0'] + rest), '\0') == held + Until(chunk, '\0')
  {
    hide Until;
    var end := ['\0'] + rest;
    UntilJoined(held, chunk + end);
    UntilJoined(chunk, end);
    assert held + chunk + end == held + (chunk + end);
    if '\0' !in chunk {
      UntilAll(chunk, '\0');
      UntilIs(end, 0, '\0');
      assert end[..0] == "" && chunk + "" == chunk;
    }
  }
}
