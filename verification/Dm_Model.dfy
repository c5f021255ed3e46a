/**
 The state and the events of the kdm manager as values: the displays of dpylist.c, the
 proto-displays of protodpy.c, the life cycle of dm.c and the packets of xdmcp.c.
 Whatever the environment decides (pids, server failures, packets, clocks, names) is an
 argument of the event, so Next is a function and a run is a sequence of events.
 */
module DisplayModel {

  import opened Wrappers

  datatype Status = Running | NotRunning | Zombie | Phoenix
  datatype FileState = NewEntry | OldEntry | MissingEntry
  datatype Location = Local | Foreign
  datatype Lifetime = Permanent | Transient
  datatype Origin = FromFile | FromXDMCP

  type Address = string

  /** How a session can end. */
  datatype ExitStatus = ObeySess | Remanage | Unmanage | Reserver | OpenFailed | Terminated | Unknown

  /** The end of a session and the limit of tries that was loaded when it was started. */
  datatype SessionEnd = SessionEnd(status: ExitStatus, startAttempts: int)

  /**
   managed says whether the display came from a Manage packet, so that its session ID is one;
   ends records how its sessions ended so far.
   */
  datatype Disp = Disp(
    name: string,
    location: Location,
    lifetime: Lifetime,
    origin: Origin,
    status: Status,
    pid: int,
    serverPid: int,
    state: FileState,
    startTries: nat,
    startAttempts: int,
    terminateServer: bool,
    sessionID: nat,
    from: Address,
    displayNumber: nat,
    managed: bool,
    ends: seq<SessionEnd>)

  datatype Proto = Proto(address: Address, displayNumber: nat, date: int, sessionID: nat)

  /** A call of StartDisplay: the display's session, if it has one, and the pid of the child it already had. */
  datatype Start = Start(managed: bool, sessionID: nat, childBefore: int)

  /** live are the children not yet reaped; starts and failures record what happened so far. */
  datatype Manager = Manager(
    displays: seq<Disp>,
    protos: seq<Proto>,
    base: nat,
    issued: nat,
    sockets: bool,
    live: set<int>,
    starts: seq<Start>,
    failures: seq<string>)

  // ---- The environment ----

  /** Pids wanted for the server and the session child, and the resources loaded for the display. */
  datatype Choice = Choice(server: int, session: int, startAttempts: int, terminateServer: bool)

  /** fork: a positive pid no live child has, or -1. */
  function Fork(live: set<int>, want: int): (pid: int)
    ensures pid == -1 || (pid > 0 && pid !in live)
  {
    if want > 0 && want !in live then want else -1
  }

  // ---- dpylist.c ----

  function RemoveAt<T>(s: seq<T>, i: nat): (r: seq<T>)
    requires i < |s|
    ensures |r| == |s| - 1
    ensures forall j :: 0 <= j < i ==> r[j] == s[j]
    ensures forall j :: i <= j < |r| ==> r[j] == s[j + 1]
  {
    s[..i] + s[i + 1..]
  }

  /** The first index where the list satisfies the search, or its length. */
  function FindName(ds: seq<Disp>, name: string): (i: nat)
    ensures i <= |ds| && (i < |ds| ==> ds[i].name == name)
    ensures forall j :: 0 <= j < i ==> ds[j].name != name
  {
    if ds == [] || ds[0].name == name then 0 else 1 + FindName(ds[1..], name)
  }

  function FindPid(ds: seq<Disp>, pid: int): (i: nat)
    ensures i <= |ds| && (i < |ds| ==> ds[i].pid == pid)
    ensures forall j :: 0 <= j < i ==> ds[j].pid != pid
  {
    if ds == [] || ds[0].pid == pid then 0 else 1 + FindPid(ds[1..], pid)
  }

  function FindServerPid(ds: seq<Disp>, pid: int): (i: nat)
    ensures i <= |ds| && (i < |ds| ==> ds[i].serverPid == pid)
    ensures forall j :: 0 <= j < i ==> ds[j].serverPid != pid
  {
    if ds == [] || ds[0].serverPid == pid then 0 else 1 + FindServerPid(ds[1..], pid)
  }

  function FindSession(ds: seq<Disp>, id: nat): (i: nat)
    ensures i <= |ds| && (i < |ds| ==> ds[i].sessionID == id)
    ensures forall j :: 0 <= j < i ==> ds[j].sessionID != id
  {
    if ds == [] || ds[0].sessionID == id then 0 else 1 + FindSession(ds[1..], id)
  }

  predicate AtAddress(d: Disp, from: Address, number: nat) {
    d.origin == FromXDMCP && d.displayNumber == number && d.from == from
  }

  function FindAddress(ds: seq<Disp>, from: Address, number: nat): (i: nat)
    ensures i <= |ds| && (i < |ds| ==> AtAddress(ds[i], from, number))
    ensures forall j :: 0 <= j < i ==> !AtAddress(ds[j], from, number)
  {
    if ds == [] || AtAddress(ds[0], from, number) then 0 else 1 + FindAddress(ds[1..], from, number)
  }

  /** NewDisplay, with the display type its callers store next. */
  function NewDisplay(name: string, location: Location, lifetime: Lifetime, origin: Origin): Disp {
    Disp(name, location, lifetime, origin, NotRunning, -1, -1, NewEntry, 0, 0, false, 0, "", 0, origin == FromXDMCP, [])
  }

  // ---- dm.c: stopping, restarting and starting one display ----

  function Stop(s: Manager, i: nat): Manager
    requires i < |s.displays|
  {
    var d := s.displays[i];
    if d.serverPid != -1 then s.(displays := s.displays[i := d.(status := Zombie)])
    else s.(displays := RemoveAt(s.displays, i))
  }

  function Restarted(d: Disp, forceReserver: bool): Disp {
    if d.serverPid != -1 && (forceReserver || d.terminateServer) then d.(status := Phoenix)
    else d.(status := NotRunning)
  }

  function Restart(s: Manager, i: nat, forceReserver: bool): Manager
    requires i < |s.displays|
  {
    s.(displays := s.displays[i := Restarted(s.displays[i], forceReserver)])
  }

  /** The fork in StartDisplay. */
  function ForkSession(s: Manager, i: nat, want: int): Manager
    requires i < |s.displays|
  {
    var pid := Fork(s.live, want);
    if pid == -1 then s
    else s.(displays := s.displays[i := s.displays[i].(pid := pid, status := Running)], live := s.live + {pid})
  }

  function StartDisplay(s: Manager, i: nat, c: Choice): Manager
    requires i < |s.displays|
  {
    var d := s.displays[i].(startAttempts := c.startAttempts, terminateServer := c.terminateServer);
    var s0 := s.(displays := s.displays[i := d], starts := s.starts + [Start(d.managed, d.sessionID, d.pid)]);
    if d.location == Local && d.serverPid == -1 then
      var server := Fork(s.live, c.server);
      if server == -1 then s0.(displays := RemoveAt(s0.displays, i), failures := s.failures + [d.name])
      else
        ForkSession(s0.(displays := s.displays[i := d.(serverPid := server)], live := s.live + {server}), i, c.session)
    else ForkSession(s0, i, c.session)
  }

  // ---- dm.c: StartDisplays ----

  function CheckDisplayStatus(s: Manager, i: nat, c: Choice): Manager
    requires i < |s.displays|
  {
    var d := s.displays[i];
    if d.origin != FromFile then s
    else if d.state == MissingEntry then Stop(s, i)
    else
      var s0 := s.(displays := s.displays[i := d.(state := OldEntry)]);
      if d.status == NotRunning then StartDisplay(s0, i, c) else s0
  }

  lemma CheckLength(s: Manager, i: nat, c: Choice)
    requires i < |s.displays|
    ensures var n := |CheckDisplayStatus(s, i, c).displays|;
      n == |s.displays| || n == |s.displays| - 1
  {
  }

  /** ForEachDisplay with CheckDisplayStatus from position i on; k displays were visited before. */
  function CheckFrom(s: Manager, i: nat, k: nat, c: nat -> Choice): Manager
    requires i <= |s.displays|
    decreases |s.displays| - i
  {
    if i == |s.displays| then s
    else
      CheckLength(s, i, c(k));
      var nextS := CheckDisplayStatus(s, i, c(k));
      CheckFrom(nextS, if |nextS.displays| < |s.displays| then i else i + 1, k + 1, c)
  }

  function StartDisplays(s: Manager, c: nat -> Choice): Manager {
    CheckFrom(s, 0, 0, c)
  }

  /** ForEachDisplay (StopDisplay) */
  function StopFrom(s: Manager, i: nat): Manager
    requires i <= |s.displays|
    decreases |s.displays| - i
  {
    if i == |s.displays| then s
    else
      var nextS := Stop(s, i);
      StopFrom(nextS, if |nextS.displays| < |s.displays| then i else i + 1)
  }

  // ---- dm.c and file.c: the servers file ----

  /** A line of the servers file that names a display. */
  datatype Entry = Entry(name: string, location: Location)

  function Marked(ds: seq<Disp>): (r: seq<Disp>)
    ensures |r| == |ds|
    ensures forall i :: 0 <= i < |ds| ==> r[i] == ds[i].(state := MissingEntry)
  {
    seq(|ds|, i requires 0 <= i < |ds| => ds[i].(state := MissingEntry))
  }

  function ParseEntry(s: Manager, e: Entry): Manager {
    var i := FindName(s.displays, e.name);
    if i < |s.displays| then
      var d := s.displays[i];
      s.(displays := s.displays[i := d.(state := OldEntry, location := e.location, lifetime := Permanent, origin := FromFile)])
    else
      s.(displays := [NewDisplay(e.name, e.location, Permanent, FromFile)] + s.displays)
  }

  function ScanServers(s: Manager, entries: seq<Entry>): Manager
    decreases |entries|
  {
    if entries == [] then s else ScanServers(ParseEntry(s, entries[0]), entries[1..])
  }

  function MarkAndScan(s: Manager, entries: seq<Entry>): Manager {
    ScanServers(s.(displays := Marked(s.displays)), entries)
  }

  function RescanServers(s: Manager, entries: seq<Entry>, c: nat -> Choice): Manager {
    StartDisplays(MarkAndScan(s, entries), c)
  }

  // ---- dm.c: WaitForChild ----

  /** A reaped child; before it is handled the servers file may have to be read again. */
  datatype Reap = Reap(pid: int, status: ExitStatus, rescan: Option<seq<Entry>>)

  /** What WaitForChild decides for a display whose session exited. */
  datatype Verdict = StopIt(d: Disp) | RestartIt(d: Disp, forceReserver: bool)

  function Judge(d: Disp, status: ExitStatus): Verdict {
    var calm := d.(startTries := 0);
    match status
    case Unmanage => StopIt(d)
    case Unknown => StopIt(d)
    case ObeySess =>
      if d.lifetime != Permanent || d.status == Zombie then StopIt(calm) else RestartIt(calm, false)
    case OpenFailed =>
      if d.origin == FromXDMCP || d.status == Zombie then StopIt(d)
      else
        var tried := d.(startTries := d.startTries + 1);
        if tried.startTries >= d.startAttempts then StopIt(tried) else RestartIt(tried, true)
    case Reserver =>
      if d.origin == FromXDMCP || d.status == Zombie then StopIt(calm) else RestartIt(calm, true)
    case Terminated =>
      if d.origin == FromXDMCP || d.status == Zombie then StopIt(calm) else RestartIt(calm, true)
    case Remanage =>
      if d.origin == FromXDMCP || d.status == Zombie then StopIt(calm) else RestartIt(calm, false)
  }

  /** The display without its session child. */
  function Ended(d: Disp, status: ExitStatus): Disp {
    d.(pid := -1, ends := d.ends + [SessionEnd(status, d.startAttempts)])
  }

  function SessionExit(s: Manager, i: nat, status: ExitStatus): Manager
    requires i < |s.displays|
  {
    match Judge(Ended(s.displays[i], status), status)
    case StopIt(d) => Stop(s.(displays := s.displays[i := d]), i)
    case RestartIt(d, force) => Restart(s.(displays := s.displays[i := d]), i, force)
  }

  function ServerExit(s: Manager, i: nat): Manager
    requires i < |s.displays|
  {
    var d := s.displays[i].(serverPid := -1);
    match d.status
    case Zombie => s.(displays := RemoveAt(s.displays, i))
    case Phoenix => s.(displays := s.displays[i := d.(status := NotRunning)])
    case Running => s.(displays := s.displays[i := d])
    case NotRunning => s.(displays := s.displays[i := d])
  }

  /** The body of the loop in WaitForChild, without the rescan. */
  function Exit(s: Manager, pid: int, status: ExitStatus): Manager {
    var s0 := s.(live := s.live - {pid});
    if pid <= 0 then s
    else if FindPid(s.displays, pid) < |s.displays| then SessionExit(s0, FindPid(s.displays, pid), status)
    else if FindServerPid(s.displays, pid) < |s.displays| then ServerExit(s0, FindServerPid(s.displays, pid))
    else s0
  }

  function ReapOne(s: Manager, r: Reap): Manager {
    Exit(if r.rescan.Some? then MarkAndScan(s, r.rescan.value) else s, r.pid, r.status)
  }

  function ReapAll(s: Manager, reaps: seq<Reap>): Manager
    decreases |reaps|
  {
    if reaps == [] then s else ReapAll(ReapOne(s, reaps[0]), reaps[1..])
  }

  function WaitForChild(s: Manager, reaps: seq<Reap>, c: nat -> Choice): Manager {
    StartDisplays(ReapAll(s, reaps), c)
  }

  /** StopAll: close the sockets, stop every display. */
  function StopAll(s: Manager): Manager {
    StopFrom(s.(sockets := false), 0)
  }

  // ---- protodpy.c ----

  const PROTO_TIMEOUT: int := 30 * 60

  const WORD64: int := 0x1_0000_0000_0000_0000

  /** now - PROTO_TIMEOUT as the unsigned long it is compared with. */
  function Cutoff(now: int): int {
    (now - PROTO_TIMEOUT) % WORD64
  }

  function FindProto(ps: seq<Proto>, address: Address, number: nat): (i: nat)
    ensures i <= |ps| && (i < |ps| ==> ps[i].address == address && ps[i].displayNumber == number)
    ensures forall j :: 0 <= j < i ==> !(ps[j].address == address && ps[j].displayNumber == number)
  {
    if ps == [] || (ps[0].address == address && ps[0].displayNumber == number) then 0
    else 1 + FindProto(ps[1..], address, number)
  }

  function TimeoutProtos(ps: seq<Proto>, now: int): seq<Proto> {
    if ps == [] then []
    else (if ps[0].date < Cutoff(now) then [] else [ps[0]]) + TimeoutProtos(ps[1..], now)
  }

  // ---- xdmcp.c ----

  const CARD32: nat := 0x1_0000_0000

  /** The session ID handed out as number n (counted from 1). */
  function SessionIDOf(base: nat, n: nat): nat {
    (base + n) % CARD32
  }

  datatype Reply = NoReply | Accept(sessionID: nat) | Decline | Refuse(sessionID: nat) | Failed(sessionID: nat)

  /** request_respond on a well-formed packet. */
  function RequestRespond(s: Manager, from: Address, number: nat, now: int, typesOk: bool, authOk: bool): (Manager, Reply) {
    if !typesOk then (s, Decline)
    else
      var i := FindProto(s.protos, from, number);
      if i < |s.protos| then
        if authOk then (s, Accept(s.protos[i].sessionID))
        else (s.(protos := RemoveAt(s.protos, i)), Decline)
      else
        var id := SessionIDOf(s.base, s.issued + 1);
        var others := TimeoutProtos(s.protos, now);
        if authOk then
          (s.(issued := s.issued + 1, protos := [Proto(from, number, now, id)] + others), Accept(id))
        else
          (s.(issued := s.issued + 1, protos := others), Decline)
  }

  /** manage on a well-formed packet; name is what the address resolves to, if it does. */
  function Manage(s: Manager, from: Address, number: nat, id: nat, name: Option<string>, c: Choice): (Manager, Reply) {
    var i := FindProto(s.protos, from, number);
    if i == |s.protos| || s.protos[i].sessionID != id then
      var j := FindAddress(s.displays, from, number);
      if i == |s.protos| && j < |s.displays| && s.displays[j].sessionID == id then (s, NoReply)
      else (s, Refuse(id))
    else if name.None? then (s, Failed(id))
    else
      var k := FindName(s.displays, name.value);
      var s0 := if k < |s.displays| then Stop(s, k) else s;
      var d := NewDisplay(name.value, Foreign, Transient, FromXDMCP).(sessionID := id, from := from, displayNumber := number);
      var s1 := s0.(displays := [d] + s0.displays, protos := RemoveAt(s.protos, i));
      (StartDisplay(s1, 0, c), NoReply)
  }

  /** send_alive: is the session running, and which session runs at that display. */
  function Alive(s: Manager, from: Address, number: nat, id: nat): (bool, nat) {
    var i := FindSession(s.displays, id);
    var j := if i < |s.displays| then i else FindAddress(s.displays, from, number);
    if j < |s.displays| && s.displays[j].status == Running then
      (s.displays[j].sessionID == id, s.displays[j].sessionID)
    else (false, 0)
  }

  // ---- Runs ----

  datatype Event =
    | Children(reaps: seq<Reap>, c: nat -> Choice)
    | Rescan(entries: seq<Entry>, c: nat -> Choice)
    | RequestPacket(from: Address, number: nat, now: int, typesOk: bool, authOk: bool)
    | ManagePacket(from: Address, number: nat, id: nat, name: Option<string>, choice: Choice)
    | Sigterm

  /** Packets arrive only while the sockets are open. */
  function Next(s: Manager, e: Event): Manager {
    match e
    case Children(reaps, c) => WaitForChild(s, reaps, c)
    case Rescan(entries, c) => RescanServers(s, entries, c)
    case RequestPacket(from, number, now, typesOk, authOk) =>
      if s.sockets then RequestRespond(s, from, number, now, typesOk, authOk).0 else s
    case ManagePacket(from, number, id, name, c) =>
      if s.sockets then Manage(s, from, number, id, name, c).0 else s
    case Sigterm => StopAll(s)
  }

  function Run(s: Manager, es: seq<Event>): Manager
    decreases |es|
  {
    if es == [] then s else Run(Next(s, es[0]), es[1..])
  }

  function Initial(base: nat, sockets: bool): Manager {
    Manager([], [], base, 0, sockets, {}, [], [])
  }
}
