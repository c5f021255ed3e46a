/**
 The player as the program has it: a ring of buffers filled in place and the status
 machine of the main loop over it.
 */
module AudioPlayer {

  import opened Wrappers
  import opened AudioModel

  const BUFFER_MAX: nat := 4096

  /** The buffer behind the last one, round the ring. */
  lemma NextSlot(w: int, n: int, r: int)
    requires 0 <= w < NUM_BUF && 0 <= n < NUM_BUF && r == (w + n) % NUM_BUF
    ensures (if r + 1 >= NUM_BUF then 0 else r + 1) == (w + n + 1) % NUM_BUF
  {
    assert r == if w + n >= NUM_BUF then w + n - NUM_BUF else w + n;
  }

  class AudioSample {

    const Buffers: array2<Byte>
    var buffersValid: int
    var RBufId: int
    var WBufId: int

    /** The file opened last, if it could be probed, and how far it is read. */
    var media: Option<Media>
    var filePos: nat

    ghost predicate Valid()
      reads this
    {
      && Buffers.Length0 == NUM_BUF && Buffers.Length1 == BUFFER_MAX
      && 0 <= buffersValid <= NUM_BUF
      && 0 <= RBufId < NUM_BUF && 0 <= WBufId < NUM_BUF
      && RBufId == Slot(buffersValid)
      && (media.None? ==> buffersValid == 0)
    }

    /** The buffer i places behind the one to write next. */
    ghost function Slot(i: int): int
      reads this
    {
      (WBufId + i) % NUM_BUF
    }

    ghost function Row(r: nat): Block
      requires Buffers.Length0 == NUM_BUF && Buffers.Length1 == BUFFER_MAX && r < NUM_BUF
      requires media.Some?
      reads this, Buffers
    {
      var size := BuffSize(media.value);
      seq(size, j requires 0 <= j < size reads Buffers => Buffers[r, j])
    }

    twostate predicate OtherBuffersKept()
      requires Buffers.Length0 == NUM_BUF && Buffers.Length1 == BUFFER_MAX
      reads this, Buffers
    {
      forall r, j | 0 <= r < NUM_BUF && 0 <= j < BUFFER_MAX && r != RBufId :: Buffers[r, j] == old(Buffers[r, j])
    }

    /** The blocks read and not yet written. */
    ghost function Queue(): (q: seq<Block>)
      requires Valid()
      reads this, Buffers
      ensures |q| == buffersValid
    {
      seq(buffersValid, i requires 0 <= i < buffersValid && Valid() reads this, Buffers => Row(Slot(i)))
    }

    constructor ()
      ensures Valid() && fresh(Buffers)
      ensures media == None && Queue() == [] && filePos == 0
    {
      Buffers := new Byte[NUM_BUF, BUFFER_MAX];
      media, filePos := None, 0;
      RBufId, WBufId, buffersValid := 0, 0, 0;
    }

    method SetRBuf(id: int)
      modifies this`RBufId
      ensures RBufId == if id >= NUM_BUF then 0 else id
    {
      var id := id;
      if id >= NUM_BUF {
        id := 0;
      }
      RBufId := id;
    }

    method SetWBuf(id: int)
      modifies this`WBufId
      ensures WBufId == if id >= NUM_BUF then 0 else id
    {
      var id := id;
      if id >= NUM_BUF {
        id := 0;
      }
      WBufId := id;
    }

    method ClearBuffers()
      requires Valid()
      modifies this`RBufId, this`WBufId, this`buffersValid
      ensures Valid() && Queue() == []
    {
      SetRBuf(0);
      SetWBuf(0);
      buffersValid := 0;
    }

    /** The oldest block leaves the ring, the others keep their places and content. */
    method NextWBuf()
      requires Valid()
      modifies this`WBufId, this`buffersValid
      ensures Valid()
      ensures Queue() == if old(Queue()) == [] then [] else old(Queue())[1..]
    {
      if buffersValid > 0 {
        SetWBuf(WBufId + 1);
        buffersValid := buffersValid - 1;
        forall i | 0 <= i < buffersValid
          ensures Queue()[i] == old(Queue())[1..][i]
        {
          assert Slot(i) == old(Slot(i + 1));
        }
      }
    }

    /** Closes the old file and opens another, None if it is no file or no media. */
    method SetFilename(file: Option<Media>) returns (failed: bool)
      requires Valid()
      modifies this
      ensures Valid() && Queue() == []
      ensures media == file && failed == file.None?
      ensures filePos == if failed then old(filePos) else 0
    {
      ClearBuffers();
      media := file;
      failed := file.None?;
      if !failed {
        filePos := 0;
      }
    }

    /** seek(0, 0) */
    method Rewind()
      requires Valid()
      modifies this`filePos
      ensures Valid() && Queue() == old(Queue())
      ensures filePos == if media.Some? then 0 else old(filePos)
    {
      if media.Some? {
        filePos := 0;
      }
      forall i | 0 <= i < buffersValid
        ensures Queue()[i] == old(Queue())[i]
      {
        assert Row(Slot(i)) == old(Row(Slot(i)));
      }
    }

    /** fread: the bytes to the front of the read buffer. */
    method Fread(len: int) returns (n: nat)
      requires Valid() && media.Some?
      requires 0 < len <= BuffSize(media.value)
      modifies this`filePos, Buffers
      ensures n == if old(filePos) >= |media.value.data| then 0
                   else if old(filePos) + len <= |media.value.data| then len
                   else |media.value.data| - old(filePos)
      ensures filePos == old(filePos) + n
      ensures forall j :: 0 <= j < n ==> Buffers[RBufId, j] == media.value.data[old(filePos) + j]
      ensures OtherBuffersKept()
    {
      n := 0;
      while n < len && filePos < |media.value.data|
        modifies this`filePos, Buffers
        invariant n <= len
        invariant filePos == old(filePos) + n
        invariant n > 0 ==> filePos <= |media.value.data|
        invariant forall j :: 0 <= j < n ==> Buffers[RBufId, j] == media.value.data[old(filePos) + j]
        invariant OtherBuffersKept()
      {
        Buffers[RBufId, n] := media.value.data[filePos];
        filePos := filePos + 1;
        n := n + 1;
      }
    }

    /** The rest of the read buffer is filled with silence. */
    method Pad(len: nat)
      requires Valid() && media.Some?
      requires len <= BuffSize(media.value)
      modifies Buffers
      ensures forall j :: 0 <= j < len ==> Buffers[RBufId, j] == old(Buffers[RBufId, j])
      ensures forall j :: len <= j < BuffSize(media.value) ==> Buffers[RBufId, j] == Silence(media.value)
      ensures OtherBuffersKept()
    {
      for i := len to BuffSize(media.value)
        invariant forall j :: 0 <= j < len ==> Buffers[RBufId, j] == old(Buffers[RBufId, j])
        invariant forall j :: len <= j < i ==> Buffers[RBufId, j] == Silence(media.value)
        invariant OtherBuffersKept()
      {
        if media.value.bits == 8 {
          Buffers[RBufId, i] := 0x80;
        } else {
          Buffers[RBufId, i] := 0x00;
        }
      }
    }

    /** readDataI: one block into the read buffer, the other buffers are not touched. */
    method ReadDataI() returns (num: int)
      requires Valid()
      modifies this`filePos, Buffers
      ensures media.None? ==> num == 0 && filePos == old(filePos)
      ensures media.Some? ==>
        var got := Got(media.value, old(filePos));
        if got == 0 then num == 0 && filePos == old(filePos)
        else
          && num == BuffSize(media.value) && filePos == old(filePos) + got
          && got <= num && old(filePos) + got <= |media.value.data|
          && Row(RBufId) == Padded(media.value, media.value.data[old(filePos)..old(filePos) + got])
      ensures OtherBuffersKept()
    {
      if media.None? {
        return 0;
      }
      var m := media.value;
      var tmpReadPos := filePos % WORD32;
      var lenToRead: int;
      if (tmpReadPos + BuffSize(m)) % WORD32 > m.length {
        lenToRead := m.length - tmpReadPos;
      } else {
        lenToRead := BuffSize(m);
      }
      if lenToRead <= 0 {
        return 0;
      }
      var len := Fread(lenToRead);
      if len == 0 {
        return 0;
      }
      Pad(len);
      num := BuffSize(m);
    }

    /** What is written to the read buffer is not seen in the queue. */
    twostate lemma QueueKept()
      requires old(Valid()) && Valid() && buffersValid < NUM_BUF
      requires WBufId == old(WBufId) && RBufId == old(RBufId)
      requires buffersValid == old(buffersValid) && media == old(media)
      requires OtherBuffersKept()
      ensures Queue() == old(Queue())
    {
      forall i | 0 <= i < buffersValid
        ensures Queue()[i] == old(Queue())[i]
      {
        var r := Slot(i);
        assert r == old(Slot(i)) != RBufId;
        forall j | 0 <= j < BuffSize(media.value)
          ensures Buffers[r, j] == old(Buffers[r, j])
        {
        }
        assert Row(r) == old(Row(r));
      }
    }

    /** The read buffer joins the queue. */
    method Advance()
      requires Valid() && media.Some? && buffersValid < NUM_BUF
      modifies this`RBufId, this`buffersValid
      ensures Valid()
      ensures Queue() == old(Queue()) + [old(Row(RBufId))]
    {
      NextSlot(WBufId, buffersValid, RBufId);
      SetRBuf(RBufId + 1);
      buffersValid := buffersValid + 1;
      assert RBufId == Slot(buffersValid) && Slot(buffersValid - 1) == old(RBufId);
      forall i | 0 <= i < buffersValid - 1
        ensures Queue()[i] == old(Queue())[i]
      {
        assert Slot(i) == old(Slot(i));
        assert Row(Slot(i)) == old(Row(Slot(i)));
      }
      assert Queue()[buffersValid - 1] == old(Row(RBufId));
    }

    /** A block is read behind the queue, never over a block that is still to be written. */
    method ReadData() returns (num: int)
      requires Valid()
      modifies this`filePos, this`RBufId, this`buffersValid, Buffers
      ensures Valid()
      ensures num == 0 ==> Queue() == old(Queue()) && filePos == old(filePos)
      ensures num == 0 <==> old(buffersValid) >= NUM_BUF || media.None? || Got(media.value, old(filePos)) == 0
      ensures num != 0 ==>
        && var got := Got(media.value, old(filePos));
        && filePos == old(filePos) + got
        && Queue() == old(Queue()) + [Padded(media.value, media.value.data[old(filePos)..old(filePos) + got])]
    {
      if buffersValid >= NUM_BUF {
        return 0;
      }
      num := ReadDataI();
      QueueKept();
      if num != 0 {
        Advance();
      }
    }
  }

  /** The status machine; written is what the device has accepted of the media. */
  class MediaPlayer {

    const sample: AudioSample
    var playerStatus: Status
    var preReading: nat
    var preWriting: nat
    var filename: Option<Media>
    ghost var written: seq<Block>

    ghost predicate Valid()
      reads this, sample
    {
      sample.Valid()
    }

    ghost function View(): Player
      requires Valid()
      reads this, sample, sample.Buffers
    {
      Player(playerStatus, filename, sample.media, sample.filePos, sample.Queue(), preReading, preWriting, written)
    }

    constructor ()
      ensures Valid() && fresh(sample) && fresh(sample.Buffers)
      ensures View() == Idle
    {
      sample := new AudioSample();
      playerStatus, preReading, preWriting, filename, written := Stopped, 0, 0, None, [];
    }

    method ReadKeys(t: Tick)
      requires Valid()
      modifies this`playerStatus, this`filename
      ensures Valid() && View() == Keys(old(View()), t)
    {
      if t.stop {
        playerStatus := StopMedia;
      }
      if t.play {
        if playerStatus == Stopped {
          playerStatus := StartMedia;
        } else {
          playerStatus := Playing;
        }
      }
      if t.newFile.Some? {
        filename := t.newFile.value;
        playerStatus := StartMedia;
      }
    }

    method Start(grab: bool)
      requires Valid() && playerStatus == StartMedia
      modifies this, sample
      ensures Valid()
      ensures forall t: Tick :: t.grab == grab ==> View() == Switch(old(View()), t)
    {
      var failed := sample.SetFilename(filename);
      if failed {
        playerStatus := StopMedia;
      } else {
        written := [];
        if !grab {
          playerStatus := StopMedia;
        } else {
          playerStatus := Playing;
          preReading := NUM_BUF - 2;
          preWriting := NUM_BUF - 2;
        }
      }
    }

    /** The device is offered the oldest block of the ring. */
    method Write(accept: bool) returns (ok: bool)
      requires Valid() && sample.buffersValid > 0
      modifies this`written
      ensures ok == accept
      ensures written == if ok then old(written) + [sample.Queue()[0]] else old(written)
    {
      ok := accept;
      if ok {
        written := written + [sample.Row(sample.WBufId)];
      }
    }

    method PlayItOnce(t: Tick)
      requires Valid() && playerStatus == PlayIt
      modifies this, sample
      ensures Valid() && View() == Switch(old(View()), t)
    {
      if sample.buffersValid == 0 {
        playerStatus := StopMedia;
        return;
      }
      var ok := Write(t.accept);
      if ok {
        sample.NextWBuf();
        if preWriting != 0 {
          preWriting := preWriting - 1;
        } else if t.pause {
          playerStatus := Pause;
        } else {
          playerStatus := Playing;
        }
      }
    }

    method ReadOnce(t: Tick)
      requires Valid() && playerStatus == Playing
      modifies this, sample, sample.Buffers
      ensures Valid() && View() == Switch(old(View()), t)
    {
      var bytesRead := sample.ReadData();
      if bytesRead != 0 && preReading != 0 {
        preReading := preReading - 1;
      } else {
        playerStatus := PlayIt;
      }
    }

    /** One turn of the main loop. */
    method Step(t: Tick)
      requires Valid()
      modifies this, sample, sample.Buffers
      ensures Valid() && View() == Turn(old(View()), t)
    {
      ReadKeys(t);
      match playerStatus
      case Stopped =>
        if t.lateFile.Some? {
          filename := t.lateFile.value;
          playerStatus := StartMedia;
        }
      case StopMedia =>
        sample.Rewind();
        playerStatus := Stopped;
      case Pause => playerStatus := Pausing;
      case Pausing =>
        if !t.pause {
          playerStatus := Playing;
        }
      case StartMedia => Start(t.grab);
      case Playing => ReadOnce(t);
      case PlayIt => PlayItOnce(t);
    }

    /** The main loop, until the exit key ends it. */
    method MainLoop(ts: seq<Tick>)
      requires Valid()
      modifies this, sample, sample.Buffers
      ensures Valid() && View() == Run(old(View()), ts)
    {
      var i := 0;
      while i < |ts|
        invariant i <= |ts| && Valid()
        invariant Run(View(), ts[i..]) == Run(old(View()), ts)
      {
        Step(ts[i]);
        assert ts[i..][1..] == ts[i + 1..];
        i := i + 1;
      }
    }
  }
}
