/**
 The manager as the program has it: display records changed in place, a list of them
 relinked in place, and routines that walk the list while their callbacks remove from
 it.  View is the value of the whole state; every routine is tied to DisplayModel.
 */
module DisplayManager {
  import opened Wrappers
  import opened DisplayModel

  /** struct display */
  class Display {
    var name: string
    var location: Location
    var lifetime: Lifetime
    var origin: Origin
    var status: Status
    var pid: int
    var serverPid: int
    var state: FileState
    var startTries: nat
    var startAttempts: int
    var terminateServer: bool
    var sessionID: nat
    var from: Address
    var displayNumber: nat
    ghost var managed: bool
    ghost var ends: seq<SessionEnd>

    ghost function Value(): Disp
      reads this
    {
      Disp(name, location, lifetime, origin, status, pid, serverPid, state, startTries, startAttempts,
           terminateServer, sessionID, from, displayNumber, managed, ends)
    }

    /** The initialisation in NewDisplay and the display type its callers store. */
    constructor (name: string, location: Location, lifetime: Lifetime, origin: Origin)
      ensures Value() == NewDisplay(name, location, lifetime, origin)
    {
      this.name, this.location, this.lifetime, this.origin := name, location, lifetime, origin;
      status, pid, serverPid, state := NotRunning, -1, -1, NewEntry;
      startTries, startAttempts, terminateServer := 0, 0, false;
      sessionID, from, displayNumber := 0, "", 0;
      managed, ends := origin == FromXDMCP, [];
    }

    /** A display for a session managed over XDMCP. */
    constructor Session(name: string, id: nat, from: Address, number: nat)
      ensures Value() == NewDisplay(name, Foreign, Transient, FromXDMCP).(sessionID := id, from := from, displayNumber := number)
    {
      this.name, location, lifetime, origin := name, Foreign, Transient, FromXDMCP;
      status, pid, serverPid, state := NotRunning, -1, -1, NewEntry;
      startTries, startAttempts, terminateServer := 0, 0, false;
      sessionID, this.from, displayNumber := id, from, number;
      managed, ends := true, [];
    }

    /** The switch over the exit status of a session, up to stopping or restarting the display. */
    method Decide(exit: ExitStatus) returns (stop: bool, force: bool)
      modifies `startTries
      ensures var v := Judge(old(Value()), exit);
        Value() == v.d && stop == v.StopIt? && (v.RestartIt? ==> force == v.forceReserver)
    {
      stop, force := true, false;
      match exit {
        case Unmanage =>
        case Unknown =>
        case ObeySess =>
          startTries := 0;
          stop := lifetime != Permanent || status == Zombie;
        case OpenFailed =>
          if !(origin == FromXDMCP || status == Zombie) {
            startTries := startTries + 1;
            stop, force := startTries >= startAttempts, true;
          }
        case Reserver =>
          startTries := 0;
          stop, force := origin == FromXDMCP || status == Zombie, true;
        case Terminated =>
          startTries := 0;
          stop, force := origin == FromXDMCP || status == Zombie, true;
        case Remanage =>
          startTries := 0;
          stop := origin == FromXDMCP || status == Zombie;
      }
    }
  }

  ghost function Values(ds: seq<Display>): (r: seq<Disp>)
    reads ds
    ensures |r| == |ds|
    ensures forall i :: 0 <= i < |ds| ==> r[i] == ds[i].Value()
  {
    seq(|ds|, i requires 0 <= i < |ds| reads ds => ds[i].Value())
  }

  lemma UpdatedTwice(ds: seq<Disp>, i: nat, a: Disp, b: Disp)
    requires i < |ds|
    ensures ds[i := a][i := b] == ds[i := b] && RemoveAt(ds[i := a], i) == RemoveAt(ds, i)
  {
  }

  /** The three ways a start goes on. */
  lemma StartCases(s: Manager, i: nat, c: Choice)
    requires i < |s.displays|
    ensures var d := s.displays[i].(startAttempts := c.startAttempts, terminateServer := c.terminateServer);
      var s0 := s.(displays := s.displays[i := d], starts := s.starts + [DisplayModel.Start(d.managed, d.sessionID, d.pid)]);
      var server := Fork(s.live, c.server);
      StartDisplay(s, i, c) ==
        if d.location == Local && d.serverPid == -1 then
          if server == -1 then s0.(displays := RemoveAt(s0.displays, i), failures := s.failures + [d.name])
          else ForkSession(s0.(displays := s.displays[i := d.(serverPid := server)], live := s.live + {server}), i, c.session)
        else ForkSession(s0, i, c.session)
  {
  }

  class XdmManager {
    var displays: seq<Display>
    var protos: seq<Proto>
    var globalSessionID: nat
    var sockets: bool
    /** The kernel's table of children not yet reaped. */
    var live: set<int>

    ghost var base: nat
    ghost var starts: seq<Start>
    ghost var failures: seq<string>

    ghost predicate Valid()
      reads this
    {
      && base <= globalSessionID
      && forall i, j :: 0 <= i < j < |displays| ==> displays[i] != displays[j]
    }

    /** The records on the list. */
    ghost function Records(): set<Display>
      reads this
    {
      set d | d in displays
    }

    ghost function View(): Manager
      requires Valid()
      reads this, displays
    {
      Manager(Values(displays), protos, base, globalSessionID - base, sockets, live, starts, failures)
    }

    constructor (seed: nat, open: bool)
      ensures Valid() && View() == Initial(seed, open) && displays == []
    {
      displays, protos, globalSessionID, sockets, live := [], [], seed, open, {};
      base, starts, failures := seed, [], [];
    }

    // ---- dpylist.c ----

    method RemoveDisplay(old_: Display, ghost i: nat)
      requires Valid() && i < |displays| && displays[i] == old_
      modifies `displays
      ensures Valid() && displays == RemoveAt(old(displays), i)
      ensures View() == old(View()).(displays := RemoveAt(old(View().displays), i))
    {
      var j := 0;
      while displays[j] != old_
        invariant 0 <= j <= i
        decreases i - j
      {
        j := j + 1;
      }
      displays := displays[..j] + displays[j + 1..];
    }

    method FindDisplayByName(name: string) returns (d: Display?)
      requires Valid()
      ensures var i := FindName(View().displays, name);
        if i < |displays| then d == displays[i] else d == null
    {
      ghost var ds := View().displays;
      var j := 0;
      while j < |displays|
        invariant 0 <= j <= |displays|
        invariant FindName(ds, name) == j + FindName(ds[j..], name)
      {
        if displays[j].name == name {
          return displays[j];
        }
        j := j + 1;
      }
      return null;
    }

    method FindDisplayByPid(pid: int) returns (d: Display?)
      requires Valid()
      ensures var i := FindPid(View().displays, pid);
        if i < |displays| then d == displays[i] else d == null
    {
      ghost var ds := View().displays;
      var j := 0;
      while j < |displays|
        invariant 0 <= j <= |displays|
        invariant FindPid(ds, pid) == j + FindPid(ds[j..], pid)
      {
        if displays[j].pid == pid {
          return displays[j];
        }
        j := j + 1;
      }
      return null;
    }

    method FindDisplayByServerPid(pid: int) returns (d: Display?)
      requires Valid()
      ensures var i := FindServerPid(View().displays, pid);
        if i < |displays| then d == displays[i] else d == null
    {
      ghost var ds := View().displays;
      var j := 0;
      while j < |displays|
        invariant 0 <= j <= |displays|
        invariant FindServerPid(ds, pid) == j + FindServerPid(ds[j..], pid)
      {
        if displays[j].serverPid == pid {
          return displays[j];
        }
        j := j + 1;
      }
      return null;
    }

    method FindDisplayBySessionID(id: nat) returns (d: Display?)
      requires Valid()
      ensures var i := FindSession(View().displays, id);
        if i < |displays| then d == displays[i] else d == null
    {
      ghost var ds := View().displays;
      var j := 0;
      while j < |displays|
        invariant 0 <= j <= |displays|
        invariant FindSession(ds, id) == j + FindSession(ds[j..], id)
      {
        if displays[j].sessionID == id {
          return displays[j];
        }
        j := j + 1;
      }
      return null;
    }

    method FindDisplayByAddress(from: Address, number: nat) returns (d: Display?)
      requires Valid()
      ensures var i := FindAddress(View().displays, from, number);
        if i < |displays| then d == displays[i] else d == null
    {
      ghost var ds := View().displays;
      var j := 0;
      while j < |displays|
        invariant 0 <= j <= |displays|
        invariant FindAddress(ds, from, number) == j + FindAddress(ds[j..], from, number)
      {
        if displays[j].origin == FromXDMCP && displays[j].displayNumber == number && displays[j].from == from {
          return displays[j];
        }
        j := j + 1;
      }
      return null;
    }

    // ---- dm.c ----

    method ForkChild(want: int) returns (pid: int)
      modifies `live
      ensures pid == Fork(old(live), want)
      ensures live == if pid == -1 then old(live) else old(live) + {pid}
    {
      pid := Fork(live, want);
      if pid != -1 {
        live := live + {pid};
      }
    }

    method StopDisplay(d: Display, ghost i: nat)
      requires Valid() && i < |displays| && displays[i] == d
      modifies `displays, d
      ensures Valid() && View() == Stop(old(View()), i)
      ensures displays == if old(d.serverPid) != -1 then old(displays) else RemoveAt(old(displays), i)
    {
      if d.serverPid != -1 {
        d.status := Zombie;
        assert Values(displays) == old(Values(displays))[i := d.Value()];
      } else {
        RemoveDisplay(d, i);
      }
    }

    method RestartDisplay(d: Display, forceReserver: bool, ghost i: nat)
      requires Valid() && i < |displays| && displays[i] == d
      modifies d
      ensures Valid() && View() == Restart(old(View()), i, forceReserver)
    {
      ghost var v := d.Value();
      if d.serverPid != -1 && (forceReserver || d.terminateServer) {
        d.status := Phoenix;
      } else {
        d.status := NotRunning;
      }
      assert d.Value() == Restarted(v, forceReserver);
      assert forall j :: 0 <= j < |displays| && j != i ==> displays[j] != d;
      assert Values(displays) == old(Values(displays))[i := d.Value()];
    }

    /** Loads the resources and records the call. */
    method LoadServerResources(d: Display, c: Choice, ghost i: nat)
      requires Valid() && i < |displays| && displays[i] == d
      modifies `starts, d`startAttempts, d`terminateServer
      ensures Valid()
      ensures var v := old(d.Value()).(startAttempts := c.startAttempts, terminateServer := c.terminateServer);
        View() == old(View()).(displays := old(View()).displays[i := v],
                               starts := old(View()).starts + [DisplayModel.Start(v.managed, v.sessionID, v.pid)])
    {
      starts := starts + [DisplayModel.Start(d.managed, d.sessionID, d.pid)];
      d.startAttempts, d.terminateServer := c.startAttempts, c.terminateServer;
      assert Values(displays) == old(Values(displays))[i := d.Value()];
    }

    /** StartServer: the display gets a server or is removed. */
    method StartServer(d: Display, want: int, ghost i: nat) returns (ok: bool)
      requires Valid() && i < |displays| && displays[i] == d
      modifies `displays, `live, `failures, d`serverPid
      ensures var server := Fork(old(live), want);
        && Valid() && ok == (server != -1)
        && displays == (if ok then old(displays) else RemoveAt(old(displays), i))
        && View() == if ok then
             old(View()).(displays := old(View()).displays[i := old(d.Value()).(serverPid := server)], live := old(live) + {server})
           else
             old(View()).(displays := RemoveAt(old(View()).displays, i), failures := old(failures) + [old(d.name)])
    {
      hide RemoveAt, Fork;
      var server := ForkChild(want);
      ok := server != -1;
      if ok {
        d.serverPid := server;
        assert Values(displays) == old(Values(displays))[i := d.Value()];
      } else {
        failures := failures + [d.name];
        RemoveDisplay(d, i);
      }
    }

    method ForkSessionChild(d: Display, want: int, ghost i: nat)
      requires Valid() && i < |displays| && displays[i] == d
      modifies `live, d`pid, d`status
      ensures Valid() && View() == ForkSession(old(View()), i, want)
    {
      var pid := ForkChild(want);
      if pid != -1 {
        d.pid := pid;
        d.status := Running;
      }
      assert Values(displays) == old(Values(displays))[i := d.Value()];
    }

    /** StartDisplay; c carries the loaded resources and what the two forks return. */
    method StartOne(d: Display, c: Choice, ghost i: nat)
      requires Valid() && i < |displays| && displays[i] == d
      modifies `displays, `live, `starts, `failures, d
      ensures Valid() && View() == StartDisplay(old(View()), i, c)
      ensures displays == old(displays) || displays == RemoveAt(old(displays), i)
    {
      hide RemoveAt, Fork, StartDisplay, ForkSession;
      ghost var was := View();
      StartCases(was, i, c);
      LoadServerResources(d, c, i);
      if d.location == Local && d.serverPid == -1 {
        ghost var v := d.Value();
        var ok := StartServer(d, c.server, i);
        if !ok {
          return;
        }
        UpdatedTwice(was.displays, i, v, v.(serverPid := Fork(was.live, c.server)));
      } else {
        assert d.Value() == View().displays[i];
      }
      ForkSessionChild(d, c.session, i);
    }

    method SetOld(d: Display, ghost i: nat)
      requires Valid() && i < |displays| && displays[i] == d
      modifies d`state
      ensures Valid() && View() == old(View()).(displays := old(View().displays)[i := old(d.Value()).(state := OldEntry)])
    {
      d.state := OldEntry;
      assert Values(displays) == old(Values(displays))[i := d.Value()];
    }

    method CheckStatus(d: Display, c: Choice, ghost i: nat)
      requires Valid() && i < |displays| && displays[i] == d
      modifies `displays, `live, `starts, `failures, d
      ensures Valid() && View() == CheckDisplayStatus(old(View()), i, c)
      ensures displays == old(displays) || displays == RemoveAt(old(displays), i)
    {
      hide Stop, StartDisplay, RemoveAt;
      if d.origin == FromFile {
        if d.state == MissingEntry {
          StopDisplay(d, i);
        } else {
          SetOld(d, i);
          if d.status == NotRunning {
            StartOne(d, c, i);
          }
        }
      }
    }

    /** The rest of the list behind a record, whether or not the record was removed. */
    static lemma Rest<T>(was: seq<T>, now: seq<T>, i: nat)
      requires i < |was| && (now == was || now == RemoveAt(was, i))
      ensures (if |now| < |was| then i else i + 1) <= |now|
      ensures now[if |now| < |was| then i else i + 1..] == was[i..][1..]
    {
      if |now| < |was| {
        assert now == was[..i] + was[i + 1..];
      }
    }

    /** StartDisplays: ForEachDisplay takes the next record before the callback may remove this one. */
    method StartAll(c: nat -> Choice)
      requires Valid()
      modifies `displays, `live, `starts, `failures, Records()
      ensures Valid() && View() == StartDisplays(old(View()), c)
      ensures Records() <= old(Records())
    {
      hide CheckDisplayStatus, RemoveAt;
      var next, k := displays, 0;
      ghost var i := 0;
      while next != []
        invariant Valid() && 0 <= i <= |displays| && next == displays[i..]
        invariant CheckFrom(View(), i, k, c) == StartDisplays(old(View()), c)
        invariant Records() <= old(Records())
        decreases |next|
      {
        var d := next[0];
        assert d == displays[i] && d in displays;
        ghost var was, view := displays, View();
        CheckLength(view, i, c(k));
        CheckStatus(d, c(k), i);
        Rest(was, displays, i);
        assert |displays| == |CheckDisplayStatus(view, i, c(k)).displays|;
        next, k := next[1..], k + 1;
        i := if |displays| < |was| then i else i + 1;
      }
    }

    /** StopAll: ForEachDisplay (StopDisplay). */
    method Shutdown()
      requires Valid()
      modifies `displays, `sockets, Records()
      ensures Valid() && View() == StopAll(old(View()))
      ensures Records() <= old(Records())
    {
      hide Stop, RemoveAt;
      sockets := false;
      ghost var goal := StopFrom(View(), 0);
      var next := displays;
      ghost var i := 0;
      while next != []
        invariant Valid() && 0 <= i <= |displays| && next == displays[i..]
        invariant StopFrom(View(), i) == goal
        invariant Records() <= old(Records())
        decreases |next|
      {
        var d := next[0];
        assert d == displays[i] && d in displays;
        ghost var was, view := displays, View();
        StopDisplay(d, i);
        Rest(was, displays, i);
        assert |displays| == |Stop(view, i).displays|;
        next := next[1..];
        i := if |displays| < |was| then i else i + 1;
      }
    }

    // ---- The servers file ----

    /** ForEachDisplay (MarkDisplay). */
    method MarkAll()
      requires Valid()
      modifies Records()
      ensures Valid() && View() == old(View()).(displays := Marked(old(View().displays)))
    {
      ghost var ds := Values(displays);
      var i := 0;
      while i < |displays|
        invariant 0 <= i <= |displays|
        invariant forall j :: 0 <= j < |displays| ==>
          displays[j].Value() == if j < i then ds[j].(state := MissingEntry) else ds[j]
        modifies Records()
      {
        displays[i].state := MissingEntry;
        i := i + 1;
      }
      assert Values(displays) == Marked(ds);
    }

    /** The end of NewDisplay: the record becomes the head of the list. */
    method LinkDisplay(d: Display)
      requires Valid() && d !in displays
      modifies `displays
      ensures Valid() && displays == [d] + old(displays)
      ensures View() == old(View()).(displays := [d.Value()] + old(View().displays))
    {
      displays := [d] + displays;
      assert Values(displays) == [d.Value()] + old(Values(displays));
    }

    /** A display that the servers file names is on the list already. */
    method ReenterDisplay(d: Display, e: Entry, ghost i: nat)
      requires Valid() && i < |displays| && displays[i] == d
      modifies d
      ensures Valid()
      ensures View() == old(View()).(displays := old(View().displays)[i :=
        old(d.Value()).(state := OldEntry, location := e.location, lifetime := Permanent, origin := FromFile)])
    {
      d.state, d.location, d.lifetime, d.origin := OldEntry, e.location, Permanent, FromFile;
      assert Values(displays) == old(Values(displays))[i := d.Value()];
    }

    /** ParseDisplay */
    method ParseDisplay(e: Entry)
      requires Valid()
      modifies `displays, Records()
      ensures Valid() && View() == ParseEntry(old(View()), e)
      ensures fresh(Records() - old(Records()))
    {
      var d := FindDisplayByName(e.name);
      if d != null {
        assert d in displays;
        ReenterDisplay(d, e, FindName(View().displays, e.name));
      } else {
        d := new Display(e.name, e.location, Permanent, FromFile);
        LinkDisplay(d);
      }
    }

    /** ScanServers, line by line. */
    method Scan(entries: seq<Entry>)
      requires Valid()
      modifies `displays, Records()
      ensures Valid() && View() == ScanServers(old(View()), entries)
      ensures fresh(Records() - old(Records()))
    {
      hide ParseEntry;
      var i := 0;
      while i < |entries|
        invariant 0 <= i <= |entries| && Valid()
        invariant ScanServers(View(), entries[i..]) == ScanServers(old(View()), entries)
        invariant fresh(Records() - old(Records()))
      {
        assert entries[i..][1..] == entries[i + 1..];
        ParseDisplay(entries[i]);
        i := i + 1;
      }
    }

    method MarkThenScan(entries: seq<Entry>)
      requires Valid()
      modifies `displays, Records()
      ensures Valid() && View() == MarkAndScan(old(View()), entries)
      ensures fresh(Records() - old(Records()))
    {
      MarkAll();
      Scan(entries);
    }

    method Rescan(entries: seq<Entry>, c: nat -> Choice)
      requires Valid()
      modifies `displays, `live, `starts, `failures, Records()
      ensures Valid() && View() == RescanServers(old(View()), entries, c)
      ensures fresh(Records() - old(Records()))
    {
      MarkThenScan(entries);
      StartAll(c);
    }

    // ---- WaitForChild ----

    /** Clears the pid and decides. */
    method Judged(d: Display, status: ExitStatus, ghost i: nat) returns (stop: bool, force: bool)
      requires Valid() && i < |displays| && displays[i] == d
      modifies d`pid, d`startTries, d`ends
      ensures var v := Judge(Ended(old(d.Value()), status), status);
        Valid() && View() == old(View()).(displays := old(View().displays)[i := v.d])
        && stop == v.StopIt? && (v.RestartIt? ==> force == v.forceReserver)
    {
      hide Judge;
      ghost var ds, v := Values(displays), Judge(Ended(d.Value(), status), status);
      d.ends := d.ends + [SessionEnd(status, d.startAttempts)];
      d.pid := -1;
      stop, force := d.Decide(status);
      assert d.Value() == v.d;
      assert Values(displays) == ds[i := v.d];
    }

    method SessionExited(d: Display, status: ExitStatus, ghost i: nat)
      requires Valid() && i < |displays| && displays[i] == d
      modifies `displays, d
      ensures Valid() && View() == SessionExit(old(View()), i, status)
      ensures Records() <= old(Records())
    {
      hide Judge, Stop, Restart;
      var stop, force := Judged(d, status, i);
      if stop {
        StopDisplay(d, i);
      } else {
        RestartDisplay(d, force, i);
      }
    }

    /** The switch over the status of a display whose server died. */
    method ServerExited(d: Display, ghost i: nat)
      requires Valid() && i < |displays| && displays[i] == d
      modifies `displays, d
      ensures Valid() && View() == ServerExit(old(View()), i)
      ensures Records() <= old(Records())
    {
      ghost var ds := Values(displays);
      d.serverPid := -1;
      assert Values(displays) == ds[i := d.Value()];
      ghost var v := d.Value();
      UpdatedTwice(ds, i, v, v);
      match d.status {
        case Zombie =>
          RemoveDisplay(d, i);
        case Phoenix =>
          d.status := NotRunning;
          assert Values(displays) == ds[i := d.Value()];
        case Running =>
        case NotRunning =>
      }
    }

    /** The body of the loop in WaitForChild. */
    method Reaped(pid: int, status: ExitStatus)
      requires Valid()
      modifies `displays, `live, Records()
      ensures Valid() && View() == Exit(old(View()), pid, status)
      ensures Records() <= old(Records())
    {
      if pid > 0 {
        live := live - {pid};
        assert View() == old(View()).(live := old(live) - {pid});
        Dispatch(pid, status);
      }
    }

    method Dispatch(pid: int, status: ExitStatus)
      requires Valid()
      modifies `displays, Records()
      ensures var s := old(View());
        Valid() && View() ==
          if FindPid(s.displays, pid) < |s.displays| then SessionExit(s, FindPid(s.displays, pid), status)
          else if FindServerPid(s.displays, pid) < |s.displays| then ServerExit(s, FindServerPid(s.displays, pid))
          else s
      ensures Records() <= old(Records())
    {
      hide SessionExit, ServerExit, FindPid, FindServerPid;
      var d := FindDisplayByPid(pid);
      if d != null {
        SessionExited(d, status, FindPid(View().displays, pid));
      } else {
        d := FindDisplayByServerPid(pid);
        if d != null {
          ServerExited(d, FindServerPid(View().displays, pid));
        }
      }
    }

    /** WaitForChild */
    method WaitForChildren(reaps: seq<Reap>, c: nat -> Choice)
      requires Valid()
      modifies `displays, `live, `starts, `failures, Records()
      ensures Valid() && View() == WaitForChild(old(View()), reaps, c)
      ensures fresh(Records() - old(Records()))
    {
      hide Exit, MarkAndScan;
      var i := 0;
      while i < |reaps|
        invariant 0 <= i <= |reaps| && Valid()
        invariant ReapAll(View(), reaps[i..]) == ReapAll(old(View()), reaps)
        invariant fresh(Records() - old(Records()))
      {
        assert reaps[i..][1..] == reaps[i + 1..];
        if reaps[i].rescan.Some? {
          MarkThenScan(reaps[i].rescan.value);
        }
        Reaped(reaps[i].pid, reaps[i].status);
        i := i + 1;
      }
      assert reaps[i..] == [];
      StartAll(c);
    }

    // ---- protodpy.c ----

    method FindProtoDisplay(from: Address, number: nat) returns (i: nat)
      ensures i == FindProto(protos, from, number)
    {
      i := 0;
      while i < |protos| && !(protos[i].displayNumber == number && protos[i].address == from)
        invariant 0 <= i <= |protos|
        invariant FindProto(protos, from, number) == i + FindProto(protos[i..], from, number)
      {
        i := i + 1;
      }
    }

    method DisposeProtoDisplay(i: nat)
      requires Valid() && i < |protos|
      modifies `protos
      ensures Valid() && protos == RemoveAt(old(protos), i)
      ensures View() == old(View()).(protos := RemoveAt(old(protos), i))
    {
      protos := protos[..i] + protos[i + 1..];
    }

    /** TimeoutProtoDisplays: the next entry is taken before this one may be disposed of. */
    method TimeoutProtoDisplays(now: int)
      requires Valid()
      modifies `protos
      ensures Valid() && protos == TimeoutProtos(old(protos), now)
      ensures View() == old(View()).(protos := TimeoutProtos(old(protos), now))
    {
      var i := 0;
      while i < |protos|
        invariant 0 <= i <= |protos|
        invariant protos[..i] + TimeoutProtos(protos[i..], now) == TimeoutProtos(old(protos), now)
        decreases |protos| - i
      {
        ghost var was := protos;
        if protos[i].date < Cutoff(now) {
          DisposeProtoDisplay(i);
          assert protos[..i] == was[..i] && protos[i..] == was[i..][1..];
        } else {
          i := i + 1;
          assert protos[..i] == was[..i - 1] + [was[i - 1]] && protos[i..] == was[i - 1..][1..];
        }
      }
      assert protos[..i] == protos && TimeoutProtos(protos[i..], now) == [];
    }

    // ---- xdmcp.c ----

    /** NextSessionID, truncated to a CARD32. */
    method NextSessionID() returns (id: nat)
      requires Valid()
      modifies `globalSessionID
      ensures Valid() && globalSessionID == old(globalSessionID) + 1
      ensures id == SessionIDOf(base, globalSessionID - base)
    {
      globalSessionID := globalSessionID + 1;
      id := globalSessionID % CARD32;
    }

    method NewProtoDisplay(from: Address, number: nat, now: int)
      requires Valid()
      modifies `protos, `globalSessionID
      ensures var s := old(View());
        var id := SessionIDOf(s.base, s.issued + 1);
        && Valid() && protos == [Proto(from, number, now, id)] + TimeoutProtos(s.protos, now)
        && View() == s.(issued := s.issued + 1, protos := protos)
    {
      var id := NextSessionID();
      TimeoutProtoDisplays(now);
      protos := [Proto(from, number, now, id)] + protos;
    }

    method Request(from: Address, number: nat, now: int, typesOk: bool, authOk: bool) returns (reply: Reply)
      requires Valid()
      modifies `protos, `globalSessionID
      ensures Valid() && (View(), reply) == RequestRespond(old(View()), from, number, now, typesOk, authOk)
    {
      hide TimeoutProtos, SessionIDOf;
      if !typesOk {
        return Decline;
      }
      var i := FindProtoDisplay(from, number);
      if i == |protos| {
        NewProtoDisplay(from, number, now);
        i := 0;
        assert RemoveAt(protos, 0) == TimeoutProtos(old(protos), now);
      }
      if authOk {
        reply := Accept(protos[i].sessionID);
      } else {
        reply := Decline;
        DisposeProtoDisplay(i);
      }
    }

    method ManageSession(from: Address, number: nat, id: nat, name: Option<string>, c: Choice) returns (reply: Reply)
      requires Valid()
      modifies `displays, `protos, `live, `starts, `failures, Records()
      ensures Valid() && (View(), reply) == Manage(old(View()), from, number, id, name, c)
      ensures fresh(Records() - old(Records()))
    {
      hide Stop, StartDisplay, FindProto, FindAddress, FindName, RemoveAt, NewDisplay;
      var i := FindProtoDisplay(from, number);
      if i == |protos| || protos[i].sessionID != id {
        var d := FindDisplayByAddress(from, number);
        if i == |protos| && d != null && d.sessionID == id {
          return NoReply;
        }
        return Refuse(id);
      }
      if name.None? {
        return Failed(id);
      }
      StopNamesake(name.value);
      StartSession(from, number, id, name.value, i, c);
      reply := NoReply;
    }

    /** An active session of the same name is stopped first. */
    method StopNamesake(name: string)
      requires Valid()
      modifies `displays, Records()
      ensures var k := FindName(old(View()).displays, name);
        Valid() && View() == if k < |old(displays)| then Stop(old(View()), k) else old(View())
      ensures Records() <= old(Records())
    {
      hide Stop;
      var d := FindDisplayByName(name);
      if d != null {
        StopDisplay(d, FindName(View().displays, name));
      }
    }

    /** The new display of an accepted Manage packet. */
    method StartSession(from: Address, number: nat, id: nat, name: string, proto: nat, c: Choice)
      requires Valid() && proto < |protos| && protos[proto].sessionID == id
      modifies `displays, `protos, `live, `starts, `failures
      ensures var d := NewDisplay(name, Foreign, Transient, FromXDMCP).(sessionID := id, from := from, displayNumber := number);
        Valid() && View() == StartDisplay(old(View()).(displays := [d] + old(View().displays), protos := RemoveAt(old(protos), proto)), 0, c)
      ensures fresh(Records() - old(Records()))
    {
      hide StartDisplay;
      var d := new Display.Session(name, protos[proto].sessionID, from, number);
      LinkDisplay(d);
      DisposeProtoDisplay(proto);
      StartOne(d, c, 0);
    }

    method SendAlive(from: Address, number: nat, id: nat) returns (running: bool, sessionID: nat)
      requires Valid()
      ensures (running, sessionID) == Alive(View(), from, number, id)
    {
      var d := FindDisplayBySessionID(id);
      if d == null {
        d := FindDisplayByAddress(from, number);
      }
      running, sessionID := false, 0;
      if d != null && d.status == Running {
        running := d.sessionID == id;
        sessionID := d.sessionID;
      }
    }

    /** One turn of the main loop. */
    method Step(e: Event)
      requires Valid()
      modifies this, Records()
      ensures Valid() && View() == Next(old(View()), e)
      ensures fresh(Records() - old(Records()))
    {
      hide WaitForChild, RescanServers, RequestRespond, Manage, StopAll;
      match e {
        case Children(reaps, c) => WaitForChildren(reaps, c);
        case Rescan(entries, c) => Rescan(entries, c);
        case RequestPacket(from, number, now, typesOk, authOk) =>
          if sockets {
            var _ := Request(from, number, now, typesOk, authOk);
          }
        case ManagePacket(from, number, id, name, c) =>
          if sockets {
            var _ := ManageSession(from, number, id, name, c);
          }
        case Sigterm => Shutdown();
      }
    }

    /** The main loop on a sequence of events. */
    method RunLoop(es: seq<Event>)
      requires Valid()
      modifies this, Records()
      ensures Valid() && View() == Run(old(View()), es)
    {
      hide Next;
      var i := 0;
      while i < |es|
        invariant 0 <= i <= |es| && Valid()
        invariant Run(View(), es[i..]) == Run(old(View()), es)
        invariant fresh(Records() - old(Records()))
      {
        assert es[i..][1..] == es[i + 1..];
        Step(es[i]);
        i := i + 1;
      }
      assert es[i..] == [];
    }
  }
}
