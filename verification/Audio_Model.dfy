/**
 The player of kaudio as values: the buffers between file and device are a queue, one
 turn of the main loop is a function of the keys, the pause flag and the answers of the
 device.
 */
module AudioModel {

  import opened Wrappers

  type Byte = b: int | 0 <= b < 256 witness 0

  type Block = seq<Byte>

  const WORD32: int := 0x1_0000_0000

  type Word = n: int | 0 <= n < WORD32 witness 0

  /** A probed file: the bytes behind the header and what the header says. */
  datatype Media = Media(data: seq<Byte>, length: Word, bits: int, stereo: bool)

  datatype Status = Playing | PlayIt | Stopped | Pause | Pausing | StartMedia | StopMedia

  const NUM_BUF: nat := 8

  /** BUFFSIZE, set when the file is probed. */
  function BuffSize(m: Media): (b: nat)
    ensures b == 256 || b == 512 || b == 1024
  {
    (if m.bits == 8 then 256 else 512) * (if m.stereo then 2 else 1)
  }

  /** The byte the rest of a short block is filled with. */
  function Silence(m: Media): Byte {
    if m.bits == 8 then 0x80 else 0
  }

  /** What is to be played: the header's length, or less if the file is cut off. */
  function Payload(m: Media): seq<Byte> {
    if m.length <= |m.data| then m.data[..m.length] else m.data
  }

  /** file is what the current file name probes as, media the file opened last. */
  datatype Player = Player(
    status: Status,
    file: Option<Media>,
    media: Option<Media>,
    pos: nat,
    queue: seq<Block>,
    preReading: nat,
    preWriting: nat,
    written: seq<Block>)

  const Idle: Player := Player(Stopped, None, None, 0, [], 0, 0, [])

  /** The keys, files and answers one turn of the main loop meets. */
  datatype Tick = Tick(
    stop: bool,
    play: bool,
    newFile: Option<Option<Media>>,
    lateFile: Option<Option<Media>>,
    pause: bool,
    grab: bool,
    accept: bool)

  /** len_toRead, computed in 32 bits. */
  function LenToRead(m: Media, pos: nat): int {
    var tmpReadPos := pos % WORD32;
    if (tmpReadPos + BuffSize(m)) % WORD32 > m.length then m.length - tmpReadPos else BuffSize(m)
  }

  /** fread: how many of the bytes asked for there are. */
  function Got(m: Media, pos: nat): (got: nat)
    ensures got <= BuffSize(m) && (got > 0 ==> pos + got <= |m.data|)
  {
    var len := LenToRead(m, pos);
    if len <= 0 || pos >= |m.data| then 0
    else if pos + len <= |m.data| then len
    else |m.data| - pos
  }

  function Padded(m: Media, bytes: seq<Byte>): (b: Block)
    requires |bytes| <= BuffSize(m)
    ensures |b| == BuffSize(m)
  {
    bytes + seq(BuffSize(m) - |bytes|, i => Silence(m))
  }

  /** readData: whether a block was read, and the player with it at the end of the queue. */
  function ReadData(p: Player): (Player, bool) {
    if |p.queue| >= NUM_BUF || p.media.None? then (p, false)
    else
      var m := p.media.value;
      var got := Got(m, p.pos);
      if got == 0 then (p, false)
      else (p.(pos := p.pos + got, queue := p.queue + [Padded(m, m.data[p.pos..p.pos + got])]), true)
  }

  /** The keys at the top of the loop. */
  function Keys(p: Player, t: Tick): Player {
    var p1 := if t.stop then p.(status := StopMedia) else p;
    var p2 := if t.play then p1.(status := if p1.status == Stopped then StartMedia else Playing) else p1;
    if t.newFile.Some? then p2.(file := t.newFile.value, status := StartMedia) else p2
  }

  /** The switch over PlayerStatus. */
  function Switch(p: Player, t: Tick): Player {
    match p.status
    case Stopped =>
      if t.lateFile.Some? then p.(file := t.lateFile.value, status := StartMedia) else p
    case StopMedia => p.(pos := if p.media.Some? then 0 else p.pos, status := Stopped)
    case Pause => p.(status := Pausing)
    case Pausing => if t.pause then p else p.(status := Playing)
    case StartMedia =>
      if p.file.None? then p.(queue := [], media := None, status := StopMedia)
      else
        var loaded := p.(queue := [], media := p.file, pos := 0, written := []);
        if t.grab then loaded.(status := Playing, preReading := NUM_BUF - 2, preWriting := NUM_BUF - 2)
        else loaded.(status := StopMedia)
    case Playing =>
      var (q, read) := ReadData(p);
      if read && p.preReading != 0 then q.(preReading := p.preReading - 1) else q.(status := PlayIt)
    case PlayIt =>
      if p.queue == [] then p.(status := StopMedia)
      else if !t.accept then p
      else
        var q := p.(queue := p.queue[1..], written := p.written + [p.queue[0]]);
        if p.preWriting != 0 then q.(preWriting := p.preWriting - 1)
        else q.(status := if t.pause then Pause else Playing)
  }

  function Turn(p: Player, t: Tick): Player {
    Switch(Keys(p, t), t)
  }

  function Run(p: Player, ts: seq<Tick>): Player
    decreases |ts|
  {
    if ts == [] then p else Run(Turn(p, ts[0]), ts[1..])
  }
}
