/**
 What the device gets to hear: every byte of the media once and in order, in blocks, and
 then the playback ends.
 */
module AudioStreaming {

  import opened Wrappers
  import opened AudioModel

  // ---- What is to be written ----

  /** The bytes in blocks, the last one filled up. */
  function Blocks(m: Media, data: seq<Byte>): seq<Block>
    decreases |data|
  {
    if data == [] then []
    else if |data| <= BuffSize(m) then [Padded(m, data)]
    else [Padded(m, data[..BuffSize(m)])] + Blocks(m, data[BuffSize(m)..])
  }

  /** Blocks left to read behind a position. */
  function BlocksLeft(m: Media, pos: nat): nat
    requires pos <= |Payload(m)|
  {
    |Blocks(m, Payload(m)[pos..])|
  }

  lemma {:induction false} BlocksSplit(m: Media, a: seq<Byte>, b: seq<Byte>)
    requires |a| % BuffSize(m) == 0
    ensures Blocks(m, a + b) == Blocks(m, a) + Blocks(m, b)
    decreases |a|
  {
    var size := BuffSize(m);
    if a == [] {
      assert a + b == b;
    } else {
      assert |a| >= size;
      var a1, a2 := a[..size], a[size..];
      OnBoundary(m, |a| - size);
      BlocksSplit(m, a2, b);
      assert (a + b)[..size] == a1 && (a + b)[size..] == a2 + b;
      if a2 == [] {
        assert a == a1 && a2 + b == b;
        assert b == [] ==> a + b == a;
        assert Blocks(m, a + b) == [Padded(m, a1)] + Blocks(m, b);
      } else {
        assert Blocks(m, a) == [Padded(m, a1)] + Blocks(m, a2);
        assert Blocks(m, a + b) == [Padded(m, a1)] + Blocks(m, a2 + b);
      }
    }
  }

  /** A block more or less keeps a position on a block boundary. */
  lemma OnBoundary(m: Media, n: nat)
    ensures (n + BuffSize(m)) % BuffSize(m) == n % BuffSize(m)
  {
    if BuffSize(m) == 256 {
    } else if BuffSize(m) == 512 {
    } else {
    }
  }

  /** The bytes a read should get: a full block or what is left of the payload. */
  function Rest(m: Media, pos: nat): nat
    requires pos <= |Payload(m)|
  {
    if pos + BuffSize(m) <= |Payload(m)| then BuffSize(m) else |Payload(m)| - pos
  }

  /** The end of the payload is below the wrap of the position, or is the end of the file. */
  predicate Fits(m: Media) {
    m.length + BuffSize(m) < WORD32 || |m.data| <= m.length
  }

  /** What is to be read is never negative, as the position passes the payload only at the wrap. */
  lemma NeverNegative(m: Media, pos: nat)
    requires pos <= |Payload(m)| || m.length + BuffSize(m) >= WORD32
    ensures LenToRead(m, pos) >= 0
  {
    hide BuffSize;
    var t := pos % WORD32;
    if pos <= |Payload(m)| {
      assert t <= pos <= m.length;
    } else if t > m.length {
      assert WORD32 <= t + BuffSize(m) < WORD32 + BuffSize(m);
      assert (t + BuffSize(m)) % WORD32 == t + BuffSize(m) - WORD32;
    }
  }

  lemma GotIsRest(m: Media, pos: nat)
    requires pos <= |Payload(m)|
    requires Fits(m) || pos + BuffSize(m) < WORD32
    ensures Got(m, pos) == Rest(m, pos)
  {
  }

  /** Where the last block begins that can be computed in 32 bits, the read is too long. */
  lemma GotTooMuch(m: Media, pos: nat)
    requires pos <= |Payload(m)| && pos % BuffSize(m) == 0
    requires !Fits(m) && pos + BuffSize(m) >= WORD32
    ensures pos == WORD32 - BuffSize(m)
    ensures 0 < Got(m, pos) <= BuffSize(m) && pos + Got(m, pos) > |Payload(m)|
  {
    if BuffSize(m) == 256 {
    } else if BuffSize(m) == 512 {
    } else {
    }
  }

  // ---- The invariant of a playback ----

  /** Everything read so far was accepted or waits in the queue, in order and complete. */
  ghost predicate InOrder(p: Player) {
    && p.media.Some?
    && var m := p.media.value;
    && p.pos <= |Payload(m)|
    && (p.pos == |Payload(m)| || p.pos % BuffSize(m) == 0)
    && p.written + p.queue == Blocks(m, Payload(m)[..p.pos])
  }

  ghost predicate AtEnd(p: Player)
    requires p.media.Some?
  {
    p.pos == |Payload(p.media.value)|
  }

  /** Pre-reading keeps ahead of pre-writing. */
  predicate Ample(p: Player) {
    match p.status
    case Playing => |p.queue| + p.preReading >= p.preWriting
    case PlayIt => |p.queue| >= p.preWriting + 1
    case Pause => p.preWriting == 0
    case Pausing => p.preWriting == 0
    case _ => false
  }

  /** The queue never runs dry before the end. */
  ghost predicate Ahead(p: Player)
    requires p.media.Some?
  {
    p.preReading <= NUM_BUF - 2 && p.preWriting <= NUM_BUF - 2 && (AtEnd(p) || Ample(p))
  }

  ghost predicate Streaming(p: Player) {
    && p.media.Some? && p.pos <= |Payload(p.media.value)|
    && |p.queue| <= NUM_BUF
    && InOrder(p) && Ahead(p)
    && p.status in {Playing, PlayIt, Pause, Pausing, StopMedia}
    && (p.status == StopMedia ==> p.queue == [] && AtEnd(p))
  }

  /** A turn without stop key and new file. */
  predicate Undisturbed(t: Tick) {
    !t.stop && t.newFile.None?
  }

  /** Reading a block moves the position to the next boundary or to the end. */
  lemma BlocksGrow(m: Media, pos: nat, got: nat)
    requires pos < |Payload(m)| && pos % BuffSize(m) == 0
    requires got == Rest(m, pos)
    ensures pos + got == |Payload(m)| || (pos + got) % BuffSize(m) == 0
    ensures Blocks(m, Payload(m)[..pos + got])
         == Blocks(m, Payload(m)[..pos]) + [Padded(m, m.data[pos..pos + got])]
  {
    var data := Payload(m);
    var x := m.data[pos..pos + got];
    assert data[..pos + got] == data[..pos] + x;
    BlocksSplit(m, data[..pos], x);
    assert Blocks(m, x) == [Padded(m, x)];
    OnBoundary(m, pos);
  }

  lemma ReadDataOk(p: Player)
    requires |p.queue| <= NUM_BUF && InOrder(p)
    requires |p.queue| < NUM_BUF ==> Got(p.media.value, p.pos) == Rest(p.media.value, p.pos)
    ensures var (q, read) := ReadData(p);
      && InOrder(q) && |q.queue| <= NUM_BUF && q == p.(pos := q.pos, queue := q.queue)
      && (read <==> |p.queue| < NUM_BUF && !AtEnd(p))
      && (read ==> |q.queue| == |p.queue| + 1 && BlocksLeft(p.media.value, q.pos) == BlocksLeft(p.media.value, p.pos) - 1)
      && (!read ==> q == p)
  {
    hide Blocks, Padded;
    var m := p.media.value;
    var got := Got(m, p.pos);
    if |p.queue| < NUM_BUF && !AtEnd(p) {
      BlocksGrow(m, p.pos, got);
      var b := Padded(m, m.data[p.pos..p.pos + got]);
      assert p.written + (p.queue + [b]) == p.written + p.queue + [b];
      LeftDrops(m, p.pos, got);
    }
  }

  lemma LeftDrops(m: Media, pos: nat, got: nat)
    requires pos < |Payload(m)|
    requires got == Rest(m, pos)
    ensures BlocksLeft(m, pos + got) == BlocksLeft(m, pos) - 1
  {
    var rest := Payload(m)[pos..];
    assert Payload(m)[pos + got..] == rest[got..];
    if |rest| <= BuffSize(m) {
      assert rest[got..] == [];
    }
  }

  /** If this player is about to read, it reads what it should. */
  ghost predicate ReadsWell(p: Player) {
    (p.media.Some? && p.pos <= |Payload(p.media.value)| && p.status == Playing && |p.queue| < NUM_BUF)
    ==> Got(p.media.value, p.pos) == Rest(p.media.value, p.pos)
  }

  /** One undisturbed turn keeps the invariant or ends the playback with everything written. */
  lemma TurnStreams(p: Player, t: Tick)
    requires Streaming(p) && Undisturbed(t)
    requires ReadsWell(Keys(p, t))
    ensures var q := Turn(p, t);
      if q.status == Stopped then
        p.status == StopMedia && q.pos == 0 && q.media == p.media && q.written == p.written == Blocks(p.media.value, Payload(p.media.value))
      else
        Streaming(q) && q.media == p.media && p.written <= q.written
  {
    hide Blocks, Got, Rest, BuffSize;
    var k := Keys(p, t);
    if k.status == Playing {
      ReadDataOk(k);
    }
    if k.status == PlayIt && k.queue != [] && t.accept {
      assert k.written + k.queue == k.written + [k.queue[0]] + k.queue[1..];
    }
    if AtEnd(p) {
      assert Payload(p.media.value)[..p.pos] == Payload(p.media.value);
      assert p.written + [] == p.written;
    }
  }

  // ---- Whole playbacks ----

  predicate AllUndisturbed(ts: seq<Tick>) {
    forall t :: t in ts ==> Undisturbed(t)
  }

  /** The turns up to and including the one that ends the playback. */
  function Playback(p: Player, ts: seq<Tick>): Player
    decreases |ts|
  {
    if ts == [] || p.status == Stopped then p else Playback(Turn(p, ts[0]), ts[1..])
  }

  /** A playback is the run of the main loop, cut off where the player stops. */
  lemma {:induction false} PlaybackIsRun(p: Player, ts: seq<Tick>) returns (k: nat)
    ensures k <= |ts| && Playback(p, ts) == Run(p, ts[..k])
    ensures k < |ts| ==> Playback(p, ts).status == Stopped
    decreases |ts|
  {
    hide Turn;
    if ts == [] || p.status == Stopped {
      k := 0;
    } else {
      var n := PlaybackIsRun(Turn(p, ts[0]), ts[1..]);
      k := n + 1;
      assert ts[..k][1..] == ts[1..][..n];
    }
  }

  /** The player as StartMedia leaves it. */
  predicate JustStarted(p: Player) {
    && p.status == Playing && p.media.Some?
    && p.pos == 0 && p.queue == [] && p.written == []
    && p.preReading == NUM_BUF - 2 && p.preWriting == NUM_BUF - 2
  }

  lemma StartIsStreaming(p: Player, t: Tick)
    requires Keys(p, t).status == StartMedia && t.grab
    requires Keys(p, t).file.Some?
    ensures JustStarted(Turn(p, t)) && Streaming(Turn(p, t))
    ensures Turn(p, t).media == Keys(p, t).file
  {
  }

  lemma PrefixOfBlocks(p: Player)
    requires Streaming(p)
    ensures p.written <= Blocks(p.media.value, Payload(p.media.value))
  {
    hide Padded, Ahead;
    var m := p.media.value;
    var data, size := Payload(m), BuffSize(m);
    assert p.written <= Blocks(m, data[..p.pos]);
    if p.pos == |data| {
      assert data[..p.pos] == data;
    } else {
      BlocksSplit(m, data[..p.pos], data[p.pos..]);
      assert data[..p.pos] + data[p.pos..] == data;
    }
  }

  /**
   However writes fail, the pause flag flips and the play key is hit, what the device has
   accepted is at every moment a prefix of the media in blocks, and all of it at the end.
   */
  lemma {:induction false} ExactStreaming(p: Player, ts: seq<Tick>)
    requires Streaming(p) && AllUndisturbed(ts)
    requires Fits(p.media.value)
    ensures var q, m := Playback(p, ts), p.media.value;
      && q.media == p.media
      && p.written <= q.written <= Blocks(m, Payload(m)) && q.pos <= |Payload(m)|
      && (q.status == Stopped ==> q.written == Blocks(m, Payload(m)))
    decreases |ts|
  {
    hide Turn, Blocks, Ahead, InOrder;
    PrefixOfBlocks(p);
    if ts != [] {
      var t := ts[0];
      assert Undisturbed(t);
      GotIsRest(p.media.value, p.pos);
      TurnStreams(p, t);
      if Turn(p, t).status != Stopped {
        assert AllUndisturbed(ts[1..]);
        ExactStreaming(Turn(p, t), ts[1..]);
      }
    }
  }

  /** 256 samples of one byte or two for one channel or two, and behind the data silence. */
  lemma BlockForm(m: Media, bytes: seq<Byte>)
    requires |bytes| <= BuffSize(m)
    ensures BuffSize(m) == (if m.bits == 8 then 256 else 512) + (if !m.stereo then 0 else if m.bits == 8 then 256 else 512)
    ensures forall j :: |bytes| <= j < BuffSize(m) ==> Padded(m, bytes)[j] == if m.bits == 8 then 0x80 else 0
    ensures bytes <= Padded(m, bytes)
  {
  }

  /** The bytes of blocks one after the other. */
  function Bytes(blocks: seq<Block>): seq<Byte> {
    if blocks == [] then [] else blocks[0] + Bytes(blocks[1..])
  }

  /** These are the bytes of data and then less than one block of silence. */
  ghost predicate FilledUp(m: Media, data: seq<Byte>, all: seq<Byte>) {
    && data <= all && |all| < |data| + BuffSize(m)
    && forall i :: |data| <= i < |all| ==> all[i] == Silence(m)
  }

  lemma FilledBehind(m: Media, front: seq<Byte>, data: seq<Byte>, all: seq<Byte>)
    requires FilledUp(m, data, all)
    ensures FilledUp(m, front + data, front + all)
  {
    forall i | |front + data| <= i < |front + all|
      ensures (front + all)[i] == Silence(m)
    {
      assert (front + all)[i] == all[i - |front|];
    }
  }

  lemma BytesOfFirst(first: Block, rest: seq<Block>)
    ensures Bytes([first] + rest) == first + Bytes(rest)
  {
    assert ([first] + rest)[1..] == rest;
  }

  /** Nothing is lost or added in the blocks but the silence at the end. */
  lemma {:induction false} BlocksAreTheData(m: Media, data: seq<Byte>)
    ensures FilledUp(m, data, Bytes(Blocks(m, data)))
    ensures forall b :: b in Blocks(m, data) ==> |b| == BuffSize(m)
    decreases |data|
  {
    hide Padded, FilledUp, Bytes;
    var size := BuffSize(m);
    if data == [] {
      FilledNothing(m);
    } else if |data| <= size {
      PaddedIsData(m, data);
      assert Blocks(m, data) == [Padded(m, data)] + [];
      BytesOfFirst(Padded(m, data), []);
    } else {
      var first, rest := data[..size], Blocks(m, data[size..]);
      PaddedIsData(m, first);
      assert Padded(m, first) == first;
      BytesOfFirst(first, rest);
      BlocksAreTheData(m, data[size..]);
      FilledBehind(m, first, data[size..], Bytes(rest));
      assert first + data[size..] == data;
    }
  }

  lemma FilledNothing(m: Media)
    ensures Bytes([]) == [] && FilledUp(m, [], [])
  {
  }

  lemma PaddedIsData(m: Media, bytes: seq<Byte>)
    requires 0 < |bytes| <= BuffSize(m)
    ensures FilledUp(m, bytes, Padded(m, bytes) + Bytes([]))
    ensures |bytes| == BuffSize(m) ==> Padded(m, bytes) == bytes
  {
    assert Bytes([]) == [];
    assert Padded(m, bytes) + Bytes([]) == Padded(m, bytes);
  }

  // ---- The playback ends ----

  function Rank(s: Status): nat {
    match s
    case Stopped => 0
    case StopMedia => 1
    case PlayIt => 2
    case Playing => 3
    case Pausing => 4
    case Pause => 5
    case StartMedia => 6
  }

  ghost function Measure(p: Player): nat
    requires p.media.Some? && p.pos <= |Payload(p.media.value)|
  {
    if p.status == Stopped then 0
    else 8 * BlocksLeft(p.media.value, p.pos) + 4 * |p.queue| + Rank(p.status)
  }

  /** The turns that may leave everything as it is: a refused write, a held pause. */
  predicate Idles(p: Player, t: Tick) {
    var k := Keys(p, t);
    (k.status == PlayIt && k.queue != [] && !t.accept) || (k.status == Pausing && t.pause)
  }

  /** Every other turn without the play key comes closer to the end. */
  lemma TurnDecreases(p: Player, t: Tick)
    requires Streaming(p) && Undisturbed(t)
    requires ReadsWell(Keys(p, t))
    ensures var q := Turn(p, t);
      && q.media == p.media && q.pos <= |Payload(q.media.value)|
      && (!t.play && !Idles(p, t) ==> Measure(q) < Measure(p))
      && (!t.play && Idles(p, t) ==> q == p)
      && (t.play ==> Measure(q) <= Measure(p) + 1)
  {
    hide Blocks, Payload;
    if Keys(p, t).status == Playing {
      ReadDataOk(Keys(p, t));
    }
  }

  /** Turns that are neither refused nor held, up to the end of the playback. */
  function Moves(p: Player, ts: seq<Tick>): nat
    decreases |ts|
  {
    if ts == [] || p.status == Stopped then 0
    else (if Idles(p, ts[0]) then 0 else 1) + Moves(Turn(p, ts[0]), ts[1..])
  }

  function Plays(ts: seq<Tick>): nat {
    if ts == [] then 0 else (if ts[0].play then 1 else 0) + Plays(ts[1..])
  }

  /** The moves of a playback are bounded by the media, plus two for each play key. */
  lemma {:induction false} PlaybackEnds(p: Player, ts: seq<Tick>)
    requires Streaming(p) && AllUndisturbed(ts)
    requires Fits(p.media.value)
    ensures Moves(p, ts) <= Measure(p) + 2 * Plays(ts)
    ensures Moves(p, ts) == Measure(p) + 2 * Plays(ts) ==> Playback(p, ts).status == Stopped
    decreases |ts|
  {
    hide Turn, BlocksLeft, Ahead, InOrder;
    if ts != [] {
      var t := ts[0];
      assert Undisturbed(t);
      GotIsRest(p.media.value, p.pos);
      TurnStreams(p, t);
      TurnDecreases(p, t);
      if Turn(p, t).status != Stopped {
        assert AllUndisturbed(ts[1..]);
        PlaybackEnds(Turn(p, t), ts[1..]);
      }
    }
  }

  // ---- When the end of the media is missed ----

  /** A turn in which nothing is pressed and the device takes what it is offered. */
  const SMOOTH: Tick := Tick(false, false, None, None, false, true, true)

  /** The next read begins where the 32-bit position is about to wrap. */
  ghost predicate AtWrap(p: Player)
    requires p.media.Some?
  {
    p.status == Playing && |p.queue| < NUM_BUF && p.pos + BuffSize(p.media.value) >= WORD32
  }

  ghost predicate OnTheWay(p: Player) {
    Streaming(p) && Ample(p) && p.pos % BuffSize(p.media.value) == 0 && !Fits(p.media.value)
  }

  /** A smooth turn keeps the queue ample as long as it reads full blocks. */
  lemma SmoothAmple(p: Player)
    requires p.media.Some? && Ample(p) && |p.queue| <= NUM_BUF
    requires p.preReading <= NUM_BUF - 2 && p.preWriting <= NUM_BUF - 2
    requires p.status == Playing && |p.queue| < NUM_BUF ==> 0 < Got(p.media.value, p.pos) <= BuffSize(p.media.value)
    ensures var q := Turn(p, SMOOTH);
      && Ample(q) && q.media == p.media
      && q.pos == if p.status == Playing && |p.queue| < NUM_BUF then p.pos + Got(p.media.value, p.pos) else p.pos
  {
    hide Got, BuffSize, Padded;
  }

  lemma SmoothTurn(p: Player)
    requires OnTheWay(p)
    ensures Turn(p, SMOOTH).media == p.media
    ensures AtWrap(p) ==> Turn(p, SMOOTH).pos > |Payload(p.media.value)|
    ensures !AtWrap(p) ==> OnTheWay(Turn(p, SMOOTH)) && Measure(Turn(p, SMOOTH)) < Measure(p)
  {
    hide Blocks, BlocksLeft, InOrder, Got, LenToRead, Turn, Measure, Ample, Payload;
    var m := p.media.value;
    if AtWrap(p) {
      GotTooMuch(m, p.pos);
      SmoothAmple(p);
    } else {
      OnBoundary(m, p.pos);
      if p.pos + BuffSize(m) < WORD32 {
        FullBlock(m, p.pos);
      }
      SmoothAmple(p);
      TurnStreams(p, SMOOTH);
      TurnDecreases(p, SMOOTH);
    }
  }

  lemma FullBlock(m: Media, pos: nat)
    requires pos <= |Payload(m)| && pos % BuffSize(m) == 0
    requires !Fits(m) && pos + BuffSize(m) < WORD32
    ensures Got(m, pos) == Rest(m, pos) == BuffSize(m)
  {
    GotIsRest(m, pos);
    if BuffSize(m) == 256 {
    } else if BuffSize(m) == 512 {
    } else {
    }
  }

  /** Playing on without a hitch, such a player reads behind the payload. */
  lemma {:induction false} ReadsBehind(p: Player) returns (ts: seq<Tick>)
    requires OnTheWay(p)
    ensures AllUndisturbed(ts)
    ensures Playback(p, ts).pos > |Payload(p.media.value)|
    decreases Measure(p)
  {
    hide Turn, Measure, Ample, Payload;
    SmoothTurn(p);
    var q := Turn(p, SMOOTH);
    if AtWrap(p) {
      ts := [SMOOTH];
      assert Playback(q, ts[1..]) == q;
    } else {
      var rest := ReadsBehind(q);
      ts := [SMOOTH] + rest;
      assert ts[1..] == rest;
    }
  }

  /** Of no media that fits, and of every other, a byte behind the payload can be read. */
  lemma OverreadIff(p: Player)
    requires JustStarted(p)
    ensures Fits(p.media.value)
      <==> forall ts :: AllUndisturbed(ts) ==> Playback(p, ts).pos <= |Payload(p.media.value)|
  {
    hide Playback;
    if Fits(p.media.value) {
      forall ts | AllUndisturbed(ts)
        ensures Playback(p, ts).pos <= |Payload(p.media.value)|
      {
        ExactStreaming(p, ts);
      }
    } else {
      var ts := ReadsBehind(p);
    }
  }
}
