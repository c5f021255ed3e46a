/**
 What the keys do to the player, whatever it is doing: stop, play, pause and a new file.
 */
module AudioKeys {
  import opened Wrappers
  import opened AudioModel
  import opened AudioStreaming

  predicate NoKeys(t: Tick) {
    !t.stop && !t.play && t.newFile.None?
  }

  // ---- Stop ----

  /** The stop key ends whatever goes on in the same turn; nothing more is written. */
  lemma StopKeyStops(p: Player, t: Tick)
    requires t.stop && !t.play && t.newFile.None?
    ensures Turn(p, t) == p.(status := Stopped, pos := if p.media.Some? then 0 else p.pos)
  {
  }

  /** Turns that bring nothing to play. */
  predicate NothingToPlay(ts: seq<Tick>) {
    forall t :: t in ts ==> !t.play && t.newFile.None? && t.lateFile.None?
  }

  /** A stopped player stays stopped until there is a play key or a file. */
  lemma {:induction false} StaysStopped(p: Player, ts: seq<Tick>)
    requires p.status == Stopped && NothingToPlay(ts)
    ensures Run(p, ts) == p.(pos := Run(p, ts).pos)
    ensures Run(p, ts).pos == p.pos || (Run(p, ts).pos == 0 && p.media.Some?)
    decreases |ts|
  {
    if ts != [] {
      var t := ts[0];
      assert t in ts;
      assert forall u :: u in ts[1..] ==> u in ts;
      if t.stop {
        StopKeyStops(p, t);
      }
      StaysStopped(Turn(p, t), ts[1..]);
    }
  }

  /** From the turn with the stop key on, nothing is written any more. */
  lemma StopKeySilences(p: Player, t: Tick, ts: seq<Tick>)
    requires t.stop && NothingToPlay([t] + ts)
    ensures var q := Run(p, [t] + ts);
      q.status == Stopped && q.written == p.written && q.file == p.file && q.media == p.media && (p.media.Some? ==> q.pos == 0)
  {
    hide Turn;
    assert ([t] + ts)[0] == t && ([t] + ts)[1..] == ts && t in [t] + ts;
    assert forall u :: u in ts ==> u in [t] + ts;
    StopKeyStops(p, t);
    StaysStopped(Turn(p, t), ts);
  }

  // ---- A new file ----

  /** A file that comes with the keys is the one to be played from now on, in place of whatever goes on. */
  lemma NewFileStarts(p: Player, t: Tick)
    requires t.newFile.Some?
    ensures var q := Turn(p, t);
      && q.file == t.newFile.value && q.media == t.newFile.value && q.queue == []
      && (t.newFile.value.None? ==> q.status == StopMedia && q.written == p.written)
      && (t.newFile.value.Some? && !t.grab ==> q.status == StopMedia && q.written == [])
      && (t.newFile.value.Some? && t.grab ==> JustStarted(q) && Streaming(q))
  {
  }

  /** With the device the playback that begins is of that file: all of it, once and in order. */
  lemma NewFilePlays(p: Player, t: Tick, m: Media, ts: seq<Tick>)
    requires t.newFile == Some(Some(m)) && t.grab && Fits(m) && AllUndisturbed(ts)
    ensures var q := Playback(Turn(p, t), ts);
      && q.media == Some(m) && q.written <= Blocks(m, Payload(m))
      && (q.status == Stopped ==> q.written == Blocks(m, Payload(m)))
  {
    hide Turn, Blocks, Streaming, Payload;
    NewFileStarts(p, t);
    ExactStreaming(Turn(p, t), ts);
  }

  /** A stopped player takes up a file that comes late and starts it in the next turn. */
  lemma LateFileStarts(p: Player, t: Tick, u: Tick)
    requires p.status == Stopped && NoKeys(t) && t.lateFile.Some? && NoKeys(u)
    ensures Turn(p, t) == p.(file := t.lateFile.value, status := StartMedia)
    ensures Turn(Turn(p, t), u) == Turn(p, u.(newFile := t.lateFile))
  {
  }

  // ---- Play ----

  /** Play on a stopped player starts its file from the beginning, like a new file. */
  lemma PlayRestarts(p: Player, t: Tick)
    requires t.play && !t.stop && t.newFile.None? && p.status == Stopped
    ensures Turn(p, t) == Turn(p, t.(newFile := Some(p.file)))
  {
  }

  /** On any other, also one stopped in the same turn, it goes on reading where it is. */
  lemma PlayGoesOn(p: Player, t: Tick)
    requires t.play && t.newFile.None? && (p.status != Stopped || t.stop)
    ensures var (q, read) := ReadData(p);
      Turn(p, t) == if read && p.preReading != 0 then q.(preReading := p.preReading - 1, status := Playing)
                    else q.(status := PlayIt)
  {
  }

  // ---- Pause ----

  /** The player pauses exactly after a block is written, not while it writes ahead. */
  lemma PausesIff(p: Player, t: Tick)
    requires NoKeys(t)
    ensures Turn(p, t).status == Pause
       <==> t.pause && p.status == PlayIt && t.accept && p.queue != [] && p.preWriting == 0
    ensures p.status == Pause ==> Turn(p, t) == p.(status := Pausing)
  {
  }

  /** While the flag is set a paused player changes nothing; then it goes on where it was. */
  lemma {:induction false} PauseHolds(p: Player, ts: seq<Tick>, t: Tick)
    requires p.status == Pausing && (forall u :: u in ts ==> NoKeys(u) && u.pause) && NoKeys(t) && !t.pause
    ensures Run(p, ts) == p && Run(p, ts + [t]) == p.(status := Playing)
    decreases |ts|
  {
    if ts == [] {
      assert ts + [t] == [t] && [t][1..] == [];
      assert Run(Turn(p, t), []) == Turn(p, t);
    } else {
      assert ts[0] in ts;
      assert forall u :: u in ts[1..] ==> u in ts;
      assert (ts + [t])[0] == ts[0] && (ts + [t])[1..] == ts[1..] + [t];
      PauseHolds(p, ts[1..], t);
    }
  }

  // ---- Without keys ----

  /** Turns in which nobody interferes and the device takes what it is given. */
  predicate Smooth(ts: seq<Tick>) {
    forall t :: t in ts ==> NoKeys(t) && !t.pause && t.accept
  }

  function Waiting(n: nat): nat {
    if n <= 7 then n else if n <= 14 then 14 - n else n % 2
  }

  function Heard(n: nat): nat {
    if n <= 7 then 0 else if n <= 14 then n - 7 else n / 2
  }

  /** The player n turns behind its start. */
  predicate InStep(p: Player, n: nat) {
    && p.media.Some? && |p.queue| == Waiting(n) && |p.written| == Heard(n)
    && p.status == (if n < 7 || (14 <= n && n % 2 == 0) then Playing else PlayIt)
    && p.preReading == (if n < 6 then 6 - n else 0)
    && p.preWriting == (if n <= 7 then 6 else if n <= 13 then 13 - n else 0)
  }

  lemma StepOn(p: Player, n: nat, t: Tick)
    requires InStep(p, n) && Smooth([t]) && Fits(p.media.value) && p.pos < |Payload(p.media.value)|
    ensures InStep(Turn(p, t), n + 1) && Turn(p, t).media == p.media
  {
    hide Padded, Payload, Fits;
    assert t in [t];
    GotSome(p.media.value, p.pos);
  }

  lemma GotSome(m: Media, pos: nat)
    requires Fits(m) && pos < |Payload(m)|
    ensures Got(m, pos) > 0
  {
    GotIsRest(m, pos);
  }

  lemma {:induction false} StaysInStep(p: Player, n: nat, ts: seq<Tick>)
    requires InStep(p, n) && Smooth(ts) && Fits(p.media.value)
    requires forall k :: 0 <= k < |ts| ==> Run(p, ts[..k]).pos < |Payload(p.media.value)|
    ensures InStep(Run(p, ts), n + |ts|)
    decreases |ts|
  {
    var m := p.media.value;
    hide Turn, InStep, Fits, Payload;
    if ts != [] {
      var next, rest := Turn(p, ts[0]), ts[1..];
      assert ts[0] in ts;
      assert Run(p, ts[..0]) == p;
      StepOn(p, n, ts[0]);
      forall k | 0 <= k < |rest|
        ensures Run(next, rest[..k]).pos < |Payload(m)|
      {
        assert ts[..k + 1][1..] == rest[..k];
        assert Run(p, ts[..k + 1]) == Run(next, rest[..k]);
      }
      StaysInStep(next, n + 1, rest);
    }
  }

  /**
   Up to the end of the media: seven blocks are read before the first is heard, all of them
   are heard before the eighth is read, and from then on never more than one waits.
   */
  lemma ReadsAhead(p: Player, ts: seq<Tick>)
    requires JustStarted(p) && Smooth(ts) && Fits(p.media.value)
    requires forall k :: 0 <= k < |ts| ==> Run(p, ts[..k]).pos < |Payload(p.media.value)|
    ensures var q, n := Run(p, ts), |ts|;
      && |q.queue| == (if n <= 7 then n else if n <= 14 then 14 - n else n % 2)
      && |q.written| == (if n <= 7 then 0 else if n <= 14 then n - 7 else n / 2)
  {
    StaysInStep(p, 0, ts);
  }
}
