/**
 What single events come to: the end of a session or of a server, a start, a line of the
 servers file, and what each packet is answered.
 */
module DisplayAnswers {
  import opened Wrappers
  import opened DisplayModel
  import opened DisplayInvariant
  import opened DisplaySessions
  import opened DisplayLifecycle
  import opened DisplayShutdown

  // ---- Exits ----

  /** Session ends after which a display of the servers file goes on. */
  predicate GoesOn(d: Disp, status: ExitStatus) {
    match status
    case ObeySess => d.lifetime == Permanent
    case Remanage => true
    case Reserver => true
    case Terminated => true
    case OpenFailed => d.startTries + 1 < d.startAttempts
    case Unmanage => false
    case Unknown => false
  }

  /** Session ends that take the server down in any case. */
  predicate TakesServer(status: ExitStatus) {
    status == Reserver || status == Terminated || status == OpenFailed
  }

  /**
   The end of a session of the servers file: whether the display goes on, whether its
   server has to go first, and that nothing else changes.
   */
  lemma SessionEnds(s: Manager, i: nat, status: ExitStatus)
    requires Inv(s) && i < |s.displays| && s.displays[i].pid != -1
    requires s.displays[i].origin == FromFile && s.displays[i].status != Zombie
    ensures var d := s.displays[i];
      var t := Exit(s, d.pid, status);
      var tries := match status
        case OpenFailed => d.startTries + 1
        case Unmanage => d.startTries
        case Unknown => d.startTries
        case _ => 0;
      var next := d.(pid := -1, startTries := tries, ends := d.ends + [SessionEnd(status, d.startAttempts)]);
      && t == s.(live := s.live - {d.pid}, displays := t.displays)
      && (GoesOn(d, status) ==>
            var phoenix := d.serverPid != -1 && (TakesServer(status) || d.terminateServer);
            t.displays == s.displays[i := next.(status := if phoenix then Phoenix else NotRunning)])
      && (!GoesOn(d, status) && d.serverPid != -1 ==> t.displays == s.displays[i := next.(status := Zombie)])
      && (!GoesOn(d, status) && d.serverPid == -1 ==> t.displays == RemoveAt(s.displays, i))
  {
    var d := s.displays[i];
    assert DispOk(d, s.live);
    OnlyTracker(s.displays, s.live, i, d.pid);
    var v := Judge(Ended(d, status), status);
    assert s.displays[i := v.d][i := v.d.(status := Zombie)] == s.displays[i := v.d.(status := Zombie)];
    assert RemoveAt(s.displays[i := v.d], i) == RemoveAt(s.displays, i);
  }

  /** The session of a zombie: only its pid goes, the server is still to be reaped. */
  lemma ZombieSessionEnds(s: Manager, i: nat, status: ExitStatus)
    requires Inv(s) && i < |s.displays| && s.displays[i].pid != -1 && s.displays[i].status == Zombie
    ensures var d, t := s.displays[i], Exit(s, s.displays[i].pid, status);
      var kept := status == Unmanage || status == Unknown || status == OpenFailed;
      t.displays == s.displays[i := d.(pid := -1, startTries := if kept then d.startTries else 0,
                                       ends := d.ends + [SessionEnd(status, d.startAttempts)])]
  {
    var d := s.displays[i];
    assert DispOk(d, s.live);
    OnlyTracker(s.displays, s.live, i, d.pid);
    var v := Judge(Ended(d, status), status);
    assert s.displays[i := v.d][i := v.d.(status := Zombie)] == s.displays[i := v.d.(status := Zombie)];
  }

  /** The end of a server: a zombie is gone, a phoenix is ready to start, any other only has no server. */
  lemma ServerEnds(s: Manager, i: nat, status: ExitStatus)
    requires Inv(s) && i < |s.displays| && s.displays[i].serverPid != -1
    ensures var d, t := s.displays[i], Exit(s, s.displays[i].serverPid, status);
      && t == s.(live := s.live - {d.serverPid}, displays := t.displays)
      && t.displays == if d.status == Zombie then RemoveAt(s.displays, i)
           else s.displays[i := d.(serverPid := -1, status := if d.status == Phoenix then NotRunning else d.status)]
  {
    var d := s.displays[i];
    assert DispOk(d, s.live);
    OnlyTracker(s.displays, s.live, i, d.serverPid);
  }

  /** A pid that no display answers for changes no display. */
  lemma StrangerEnds(s: Manager, pid: int, status: ExitStatus)
    requires forall i :: 0 <= i < |s.displays| ==> s.displays[i].pid != pid && s.displays[i].serverPid != pid
    ensures Exit(s, pid, status) == s.(live := if pid > 0 then s.live - {pid} else s.live)
  {
  }

  // ---- Starts and stops ----

  /** A pid the kernel can give to a new child. */
  predicate Free(pid: int, live: set<int>) {
    pid > 0 && pid !in live
  }

  /**
   Starting a display: a server only where one is missing, then a session child; the
   resources are loaded anew, and a display whose server does not come up is removed.
   */
  lemma StartComesTo(s: Manager, i: nat, c: Choice)
    requires i < |s.displays|
    ensures var d, t := s.displays[i], StartDisplay(s, i, c);
      var needsServer := d.location == Local && d.serverPid == -1;
      && t.starts == s.starts + [Start(d.managed, d.sessionID, d.pid)]
      && t == s.(displays := t.displays, live := t.live, starts := t.starts, failures := t.failures)
      && (needsServer && !Free(c.server, s.live) ==>
            t.displays == RemoveAt(s.displays, i) && t.failures == s.failures + [d.name] && t.live == s.live)
      && (!needsServer || Free(c.server, s.live) ==>
            var more := if needsServer then {c.server} else {};
            var forked := Free(c.session, s.live + more);
            && t.failures == s.failures && t.live == s.live + more + (if forked then {c.session} else {})
            && t.displays == s.displays[i := d.(
                 startAttempts := c.startAttempts, terminateServer := c.terminateServer,
                 serverPid := if needsServer then c.server else d.serverPid,
                 pid := if forked then c.session else d.pid,
                 status := if forked then Running else d.status)])
  {
    var d := s.displays[i].(startAttempts := c.startAttempts, terminateServer := c.terminateServer);
    assert RemoveAt(s.displays[i := d], i) == RemoveAt(s.displays, i);
    assert s.live + {} == s.live;
  }

  /** A stopped display with a server waits for it as a zombie, any other is gone. */
  lemma StopComesTo(s: Manager, i: nat)
    requires i < |s.displays|
    ensures var d, t := s.displays[i], Stop(s, i);
      && t == s.(displays := t.displays)
      && (d.serverPid != -1 ==> t.displays == s.displays[i := d.(status := Zombie)])
      && (d.serverPid == -1 ==> t.displays == RemoveAt(s.displays, i))
  {
  }

  // ---- The servers file ----

  /** The first display of that name. */
  predicate IsNamed(ds: seq<Disp>, i: int, name: string) {
    0 <= i < |ds| && ds[i].name == name && forall j :: 0 <= j < i ==> ds[j].name != name
  }

  lemma NamedIsFound(ds: seq<Disp>, name: string)
    ensures var i := FindName(ds, name); if i < |ds| then IsNamed(ds, i, name) else forall j :: !IsNamed(ds, j, name)
    ensures forall j :: IsNamed(ds, j, name) ==> j == FindName(ds, name)
  {
  }

  /** A line of the servers file gives its display location, lifetime and origin, or makes a new one that runs nothing. */
  lemma LineComesTo(s: Manager, e: Entry)
    ensures var t := ParseEntry(s, e);
      && t == s.(displays := t.displays)
      && (forall i :: IsNamed(s.displays, i, e.name) ==>
            t.displays == s.displays[i := s.displays[i].(
              state := OldEntry, location := e.location, lifetime := Permanent, origin := FromFile)])
      && ((forall i :: !IsNamed(s.displays, i, e.name)) ==>
            && |t.displays| == |s.displays| + 1 && t.displays[1..] == s.displays
            && var n := t.displays[0];
            && n.name == e.name && n.location == e.location && n.lifetime == Permanent && n.origin == FromFile
            && n.status == NotRunning && n.pid == -1 && n.serverPid == -1 && n.state == NewEntry
            && !n.managed && n.sessionID == 0 && n.startTries == 0 && n.ends == [])
  {
    NamedIsFound(s.displays, e.name);
  }

  /** A permanent display of the servers file, where this line puts it. */
  ghost predicate Placed(ds: seq<Disp>, e: Entry) {
    exists i :: IsNamed(ds, i, e.name)
      && ds[i].location == e.location && ds[i].lifetime == Permanent && ds[i].origin == FromFile
  }

  /** Each name of the file has its display, permanent and where the last line with that name puts it. */
  lemma {:induction false} ScanLocates(s: Manager, entries: seq<Entry>, k: nat)
    requires k < |entries| && forall l :: k < l < |entries| ==> entries[l].name != entries[k].name
    ensures Placed(ScanServers(s, entries).displays, entries[k])
    decreases |entries|
  {
    hide ParseEntry;
    var e, rest := entries[0], entries[1..];
    var t := ParseEntry(s, e);
    if k > 0 {
      assert forall l :: k - 1 < l < |rest| ==> rest[l].name == entries[l + 1].name;
      ScanLocates(t, rest, k - 1);
    } else {
      assert forall l :: 0 <= l < |rest| ==> rest[l] == entries[l + 1];
      LinePlaces(s, e);
      ScanKeeps(t, rest, e);
    }
  }

  lemma LinePlaces(s: Manager, e: Entry)
    ensures Placed(ParseEntry(s, e).displays, e)
  {
    var i := FindName(s.displays, e.name);
    var ds := ParseEntry(s, e).displays;
    assert IsNamed(ds, if i < |s.displays| then i else 0, e.name);
  }

  /** Lines with other names leave the display where it is. */
  lemma {:induction false} ScanKeeps(s: Manager, entries: seq<Entry>, e: Entry)
    requires Placed(s.displays, e) && forall l :: 0 <= l < |entries| ==> entries[l].name != e.name
    ensures Placed(ScanServers(s, entries).displays, e)
    decreases |entries|
  {
    hide Placed;
    if entries != [] {
      assert entries[0].name != e.name;
      assert forall l :: 0 <= l < |entries| - 1 ==> entries[1..][l] == entries[l + 1];
      LineKeeps(s, entries[0], e);
      ScanKeeps(ParseEntry(s, entries[0]), entries[1..], e);
    }
  }

  lemma LineKeeps(s: Manager, line: Entry, e: Entry)
    requires Placed(s.displays, e) && line.name != e.name
    ensures Placed(ParseEntry(s, line).displays, e)
  {
    var ds := ParseEntry(s, line).displays;
    var i :| IsNamed(s.displays, i, e.name)
      && s.displays[i].location == e.location && s.displays[i].lifetime == Permanent && s.displays[i].origin == FromFile;
    var nextI := if FindName(s.displays, line.name) < |s.displays| then i else i + 1;
    assert IsNamed(ds, nextI, e.name) && ds[nextI] == s.displays[i];
  }

  // ---- Packets ----

  /** The display at this address and number is offered session id. */
  ghost predicate IsOffered(s: Manager, from: Address, number: nat, id: nat) {
    exists p :: p in s.protos && At(p, from, number) && p.sessionID == id
  }

  /** A Request is accepted with the session then on offer to the sender, the old one if there was one. */
  lemma RequestIsAnswered(s: Manager, from: Address, number: nat, now: int, typesOk: bool, authOk: bool)
    requires OnePerDisplay(s.protos)
    ensures var (t, reply) := RequestRespond(s, from, number, now, typesOk, authOk);
      && (reply == Decline || reply.Accept?)
      && (reply == Decline <==> !typesOk || !authOk)
      && (reply.Accept? ==> IsOffered(t, from, number, reply.sessionID))
      && (!authOk && typesOk ==> forall id :: !IsOffered(t, from, number, id))
      && (forall id :: reply.Accept? && IsOffered(s, from, number, id) ==> reply.sessionID == id && t == s)
      && (typesOk && (forall id :: !IsOffered(s, from, number, id)) ==>
            t.issued == s.issued + 1 && (authOk ==> reply.sessionID == SessionIDOf(s.base, t.issued)))
      && t == s.(protos := t.protos, issued := t.issued)
  {
    var i := FindProto(s.protos, from, number);
    var (t, reply) := RequestRespond(s, from, number, now, typesOk, authOk);
    TimeoutOffers(s.protos, now);
    forall id | IsOffered(s, from, number, id)
      ensures i < |s.protos| && s.protos[i].sessionID == id
    {
      OfferIsFound(s, from, number, id);
    }
    if typesOk && i < |s.protos| {
      assert IsOffered(s, from, number, s.protos[i].sessionID);
      if !authOk {
        forall p | p in t.protos ensures !At(p, from, number) {
          var j :| 0 <= j < |t.protos| && t.protos[j] == p;
          assert p == s.protos[if j < i then j else j + 1];
        }
      }
    } else if typesOk {
      forall p | p in s.protos ensures !At(p, from, number) {
        var j :| 0 <= j < |s.protos| && s.protos[j] == p;
      }
      if authOk {
        assert t.protos[0] in t.protos;
      }
    }
  }

  lemma OfferIsFound(s: Manager, from: Address, number: nat, id: nat)
    requires OnePerDisplay(s.protos) && IsOffered(s, from, number, id)
    ensures var i := FindProto(s.protos, from, number);
      i < |s.protos| && At(s.protos[i], from, number) && s.protos[i].sessionID == id
  {
    var p :| p in s.protos && At(p, from, number) && p.sessionID == id;
    var j :| 0 <= j < |s.protos| && s.protos[j] == p;
    var i := FindProto(s.protos, from, number);
    assert i == j;
  }

  predicate ManagedAt(d: Disp, from: Address, number: nat) {
    d.origin == FromXDMCP && d.from == from && d.displayNumber == number
  }

  /** The first XDMCP display at this address and number. */
  predicate IsAt(ds: seq<Disp>, i: int, from: Address, number: nat) {
    0 <= i < |ds| && ManagedAt(ds[i], from, number) && forall j :: 0 <= j < i ==> !ManagedAt(ds[j], from, number)
  }

  /** Manage packets of the session on offer start it, repeated ones of a session are ignored, all others refused. */
  lemma ManageIsAnswered(s: Manager, from: Address, number: nat, id: nat, name: Option<string>, c: Choice)
    requires OnePerDisplay(s.protos)
    ensures var (t, reply) := Manage(s, from, number, id, name, c);
      var mine := IsOffered(s, from, number, id);
      var none := forall x :: !IsOffered(s, from, number, x);
      var again := none && exists i :: IsAt(s.displays, i, from, number) && s.displays[i].sessionID == id;
      && reply == (if mine then (if name.None? then Failed(id) else NoReply) else if again then NoReply else Refuse(id))
      && (!mine || name.None? ==> t == s)
  {
    hide StartDisplay, Stop;
    var i, j := FindProto(s.protos, from, number), FindAddress(s.displays, from, number);
    if IsOffered(s, from, number, id) {
      OfferIsFound(s, from, number, id);
    }
    if i < |s.protos| {
      assert s.protos[i] in s.protos && IsOffered(s, from, number, s.protos[i].sessionID);
    } else {
      forall x ensures !IsOffered(s, from, number, x) {
        if IsOffered(s, from, number, x) {
          OfferIsFound(s, from, number, x);
        }
      }
    }
    assert j < |s.displays| ==> IsAt(s.displays, j, from, number);
  }

  /** A session that is managed is that of the display at the head of the list, from where the packet came. */
  lemma ManageStarts(s: Manager, from: Address, number: nat, id: nat, name: string, c: Choice)
    requires OnePerDisplay(s.protos) && IsOffered(s, from, number, id) && Free(c.session, s.live)
    ensures var t := Manage(s, from, number, id, Some(name), c).0;
      && t.displays != [] && var d := t.displays[0];
      && d.name == name && d.sessionID == id && d.managed && d.from == from && d.displayNumber == number
      && d.origin == FromXDMCP && d.location == Foreign && d.lifetime == Transient
      && d.status == Running && d.pid == c.session && d.serverPid == -1
      && d.startAttempts == c.startAttempts && d.terminateServer == c.terminateServer
      && t.live == s.live + {c.session} && !IsOffered(t, from, number, id)
      && (forall k :: IsNamed(s.displays, k, name) ==> t.displays[1..] == Stop(s, k).displays)
      && ((forall k :: !IsNamed(s.displays, k, name)) ==> t.displays[1..] == s.displays)
  {
    hide Stop, StartDisplay, RemoveAt, OnePerDisplay;
    OfferIsFound(s, from, number, id);
    NamedIsFound(s.displays, name);
    var k := FindName(s.displays, name);
    var s0 := if k < |s.displays| then Stop(s, k) else s;
    assert s0.live == s.live && s0.starts == s.starts by { if k < |s.displays| { StopComesTo(s, k); } }
    var i := FindProto(s.protos, from, number);
    var d := NewDisplay(name, Foreign, Transient, FromXDMCP).(sessionID := id, from := from, displayNumber := number);
    var s1 := s0.(displays := [d] + s0.displays, protos := RemoveAt(s.protos, i));
    StartComesTo(s1, 0, c);
    assert s1.displays[1..] == s0.displays;
    assert s1.live + {} == s1.live;
    NoOfferLeft(s.protos, i);
  }

  lemma NoOfferLeft(ps: seq<Proto>, i: nat)
    requires OnePerDisplay(ps) && i < |ps|
    ensures forall p :: p in RemoveAt(ps, i) ==> !At(p, ps[i].address, ps[i].displayNumber)
  {
    var rest := RemoveAt(ps, i);
    forall p | p in rest ensures !At(p, ps[i].address, ps[i].displayNumber) {
      var j :| 0 <= j < |rest| && rest[j] == p;
      var l := if j < i then j else j + 1;
      assert p == ps[l];
      assert l > i ==> !At(ps[l], ps[i].address, ps[i].displayNumber);
    }
  }

  /** ALIVE names the session asked for if its display runs, and otherwise the one that runs at the sender. */
  lemma AliveNames(s: Manager, from: Address, number: nat, id: nat)
    ensures var (running, named) := Alive(s, from, number, id);
      && (running ==> named == id)
      && (forall i :: IsFirst(s.displays, i, id) ==>
            (running <==> s.displays[i].status == Running) && named == if running then id else 0)
      && ((forall i :: !IsFirst(s.displays, i, id)) ==>
            && !running
            && (forall j :: IsAt(s.displays, j, from, number) ==>
                  named == if s.displays[j].status == Running then s.displays[j].sessionID else 0)
            && ((forall j :: !IsAt(s.displays, j, from, number)) ==> named == 0))
  {
    var i, j := FindSession(s.displays, id), FindAddress(s.displays, from, number);
    assert i < |s.displays| ==> IsFirst(s.displays, i, id);
    assert j < |s.displays| ==> IsAt(s.displays, j, from, number);
  }

  // ---- Shutdown ----

  /** The displays with a server, in order, as zombies. */
  function Orphans(ds: seq<Disp>): seq<Disp> {
    if ds == [] then []
    else (if ds[0].serverPid != -1 then [ds[0].(status := Zombie)] else []) + Orphans(ds[1..])
  }

  /** One display is stopped: where the sweep goes on, and what is behind and in front of that place. */
  lemma StopCuts(s: Manager, i: nat)
    requires i < |s.displays|
    ensures var d, t := s.displays[i], Stop(s, i);
      var next := if d.serverPid != -1 then i + 1 else i;
      && t == s.(displays := t.displays) && next <= |t.displays|
      && t.displays[..next] == s.displays[..i] + Orphans([d]) && t.displays[next..] == s.displays[i + 1..]
  {
    var d := s.displays[i];
    assert [d][1..] == [] && Orphans([]) == [];
    if d.serverPid != -1 {
      assert Orphans([d]) == [d.(status := Zombie)];
      var ds := s.displays[i := d.(status := Zombie)];
      assert ds[..i + 1] == s.displays[..i] + [ds[i]] && ds[i + 1..] == s.displays[i + 1..];
    } else {
      assert Orphans([d]) == [] && s.displays[..i] + [] == s.displays[..i];
    }
  }

  lemma OrphansFrom(ds: seq<Disp>, i: nat, front: seq<Disp>)
    requires i < |ds|
    ensures front + Orphans([ds[i]]) + Orphans(ds[i + 1..]) == front + Orphans(ds[i..])
  {
    var d, behind := ds[i], ds[i + 1..];
    assert ds[i..][0] == d && ds[i..][1..] == behind && [d][1..] == [] && Orphans([]) == [];
    assert Orphans(ds[i..]) == Orphans([d]) + Orphans(behind);
  }

  lemma {:induction false} StopFromLeaves(s: Manager, i: nat)
    requires i <= |s.displays|
    ensures StopFrom(s, i) == s.(displays := s.displays[..i] + Orphans(s.displays[i..]))
    decreases |s.displays| - i
  {
    hide Stop;
    if i == |s.displays| {
      assert s.displays[i..] == [] && s.displays[..i] + [] == s.displays;
    } else {
      StopCuts(s, i);
      OrphansFrom(s.displays, i, s.displays[..i]);
      StopFromLeaves(Stop(s, i), if s.displays[i].serverPid != -1 then i + 1 else i);
    }
  }

  /** SIGTERM closes the sockets and leaves the displays whose servers are still to be reaped. */
  lemma SigtermLeaves(s: Manager)
    ensures Next(s, Sigterm) == s.(sockets := false, displays := Orphans(s.displays))
  {
    StopFromLeaves(s.(sockets := false), 0);
    assert s.displays[0..] == s.displays && s.displays[..0] + Orphans(s.displays) == Orphans(s.displays);
  }

  lemma {:induction false} OrphansAre(ds: seq<Disp>, pids: set<int>)
    ensures (forall d :: d in Orphans(ds) ==> d.serverPid in pids)
       <==> (forall d :: d in ds && d.serverPid != -1 ==> d.serverPid in pids)
  {
    if ds != [] {
      OrphansAre(ds[1..], pids);
      assert ds == [ds[0]] + ds[1..];
    }
  }

  /** After SIGTERM the main loop ends exactly when every server that was running has been reaped. */
  lemma SigtermEnds(s: Manager, es: seq<Event>)
    requires Inv(s) && forall i :: 0 <= i < |es| ==> NoRescan(es[i])
    ensures !LoopGoesOn(Run(s, [Sigterm] + es))
       <==> (forall d :: d in s.displays && d.serverPid != -1 ==> d.serverPid in Reaped(es))
  {
    hide Next, StopAll, Orphans, Inv, NoRescan, Reaped, LoopGoesOn;
    assert ([Sigterm] + es)[1..] == es && ([Sigterm] + es)[0] == Sigterm;
    var stopped := StopAll(s);
    assert Next(s, Sigterm) == stopped by { SigtermIsStop(s); }
    SigtermLeaves(s);
    OrphansAre(s.displays, Reaped(es));
    ShutdownEnds(s, es);
    assert (forall i :: 0 <= i < |stopped.displays| ==> stopped.displays[i].serverPid in Reaped(es))
      <==> (forall d :: d in stopped.displays ==> d.serverPid in Reaped(es));
  }

  lemma SigtermIsStop(s: Manager)
    ensures Next(s, Sigterm) == StopAll(s)
  {
  }
}
