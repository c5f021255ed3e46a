/**
 Shutdown drains the display list; a rescan brings it in line with the servers file;
 proto-displays are unique, bounded in age and offered again.
 */
module DisplayShutdown {
  import opened DisplayModel
  import opened DisplayInvariant
  import opened DisplaySessions
  import opened DisplayLifecycle

  // ---- Shutdown ----

  predicate AllZombies(s: Manager) {
    forall i :: 0 <= i < |s.displays| ==> s.displays[i].status == Zombie
  }

  /** The servers somebody still waits for, in list order. */
  function Servers(ds: seq<Disp>): (r: seq<int>)
    ensures |r| == |ds|
    ensures forall i :: 0 <= i < |ds| ==> r[i] == ds[i].serverPid
  {
    seq(|ds|, i requires 0 <= i < |ds| => ds[i].serverPid)
  }

  /** The list without the servers in the set. */
  function Without(xs: seq<int>, gone: set<int>): seq<int> {
    if xs == [] then [] else (if xs[0] in gone then [] else [xs[0]]) + Without(xs[1..], gone)
  }

  lemma {:induction false} WithoutNone(xs: seq<int>, gone: set<int>)
    requires forall i :: 0 <= i < |xs| ==> xs[i] !in gone
    ensures Without(xs, gone) == xs
  {
    if xs != [] {
      WithoutNone(xs[1..], gone);
    }
  }

  lemma {:induction false} WithoutOne(xs: seq<int>, i: nat, gone: set<int>)
    requires i < |xs| && xs[i] in gone
    ensures Without(RemoveAt(xs, i), gone) == Without(xs, gone)
  {
    if i == 0 {
      assert RemoveAt(xs, i) == xs[1..];
    } else {
      var r := RemoveAt(xs, i);
      assert r[1..] == RemoveAt(xs[1..], i - 1);
      WithoutOne(xs[1..], i - 1, gone);
    }
  }

  lemma {:induction false} WithoutTwice(xs: seq<int>, a: set<int>, b: set<int>)
    ensures Without(Without(xs, a), b) == Without(xs, a + b)
  {
    if xs != [] {
      WithoutTwice(xs[1..], a, b);
      if xs[0] !in a {
        var w := Without(xs, a);
        assert w == [xs[0]] + Without(xs[1..], a) && w[1..] == Without(xs[1..], a);
      } else {
        assert Without(xs, a) == Without(xs[1..], a) && Without(xs, a + b) == Without(xs[1..], a + b);
      }
    }
  }

  /** After StopAll every display left is a zombie. */
  lemma {:induction false} StopFromZombies(s: Manager, i: nat)
    requires i <= |s.displays| && forall j :: 0 <= j < i ==> s.displays[j].status == Zombie
    ensures AllZombies(StopFrom(s, i)) && StopFrom(s, i).sockets == s.sockets
    ensures |StopFrom(s, i).displays| <= |s.displays|
    decreases |s.displays| - i
  {
    if i < |s.displays| {
      var nextS := Stop(s, i);
      StopFromZombies(nextS, if |nextS.displays| < |s.displays| then i else i + 1);
    }
  }

  /** Checking a list of zombies starts nothing, stops nothing and keeps the servers. */
  lemma {:induction false} CheckZombies(s: Manager, i: nat, k: nat, c: nat -> Choice)
    requires Inv(s) && AllZombies(s) && i <= |s.displays|
    ensures var t := CheckFrom(s, i, k, c);
      AllZombies(t) && Servers(t.displays) == Servers(s.displays) && t.sockets == s.sockets
    decreases |s.displays| - i
  {
    if i < |s.displays| {
      assert DispOk(s.displays[i], s.live);
      CheckLength(s, i, c(k));
      CheckOk(s, i, c(k));
      var nextS := CheckDisplayStatus(s, i, c(k));
      assert |nextS.displays| == |s.displays| && AllZombies(nextS) && Servers(nextS.displays) == Servers(s.displays);
      CheckZombies(nextS, i + 1, k + 1, c);
    }
  }

  /** Pids of different displays differ. */
  lemma ServersApart(ds: seq<Disp>, live: set<int>, i: nat, pid: int)
    requires ListOk(ds, live) && i < |ds| && pid in Tracked(ds[i])
    ensures forall k :: 0 <= k < |ds| && k != i ==> Servers(ds)[k] != pid
    ensures pid == ds[i].pid ==> Servers(ds)[i] != pid
  {
    assert DispOk(ds[i], live);
    forall k | 0 <= k < |ds| && k != i ensures Servers(ds)[k] != pid {
      assert if k < i then Tracked(ds[k]) !! Tracked(ds[i]) else Tracked(ds[i]) !! Tracked(ds[k]);
      assert ds[k].serverPid != -1 ==> ds[k].serverPid in Tracked(ds[k]);
    }
  }

  lemma SessionExitZombies(s: Manager, i: nat, status: ExitStatus)
    requires Inv(s) && AllZombies(s) && i < |s.displays| && s.displays[i].pid != -1
    ensures var t := SessionExit(s, i, status);
      && AllZombies(t) && Servers(t.displays) == Servers(s.displays) && t.sockets == s.sockets
      && Without(Servers(s.displays), {s.displays[i].pid}) == Servers(s.displays)
  {
    hide Without;
    var t := SessionExit(s, i, status);
    assert DispOk(s.displays[i], s.live);
    ServersApart(s.displays, s.live, i, s.displays[i].pid);
    WithoutNone(Servers(s.displays), {s.displays[i].pid});
    assert t.displays == s.displays[i := t.displays[i]];
  }

  lemma ServerExitZombies(s: Manager, j: nat)
    requires Inv(s) && AllZombies(s) && j < |s.displays|
    ensures var t := ServerExit(s, j);
      && AllZombies(t) && Servers(t.displays) == Without(Servers(s.displays), {s.displays[j].serverPid}) && t.sockets == s.sockets
  {
    var servers, pid := Servers(s.displays), s.displays[j].serverPid;
    assert DispOk(s.displays[j], s.live);
    assert Servers(ServerExit(s, j).displays) == RemoveAt(servers, j);
    ServersApart(s.displays, s.live, j, pid);
    WithoutOne(servers, j, {pid});
    WithoutNone(RemoveAt(servers, j), {pid});
  }

  lemma ExitZombies(s: Manager, pid: int, status: ExitStatus)
    requires Inv(s) && AllZombies(s)
    ensures var t := Exit(s, pid, status);
      AllZombies(t) && Servers(t.displays) == Without(Servers(s.displays), {pid}) && t.sockets == s.sockets
  {
    hide SessionExit, ServerExit, Without;
    var t, i, j := Exit(s, pid, status), FindPid(s.displays, pid), FindServerPid(s.displays, pid);
    if pid > 0 && i < |s.displays| {
      SessionExitZombies(s, i, status);
      ExitIgnoresLive(s, s.live - {pid}, i, status);
    } else if pid > 0 && j < |s.displays| {
      ServerExitZombies(s, j);
      ExitIgnoresLive(s, s.live - {pid}, j, status);
    } else {
      forall k | 0 <= k < |s.displays| ensures Servers(s.displays)[k] != pid {
        assert DispOk(s.displays[k], s.live);
        assert s.displays[k].serverPid in Tracked(s.displays[k]);
      }
      WithoutNone(Servers(s.displays), {pid});
    }
  }

  /** No servers file is read any more. */
  predicate NoRescan(e: Event) {
    match e
    case Children(reaps, _) => forall i :: 0 <= i < |reaps| ==> reaps[i].rescan.None?
    case Rescan(_, _) => false
    case _ => true
  }

  function ReapedIn(reaps: seq<Reap>): set<int> {
    set i | 0 <= i < |reaps| :: reaps[i].pid
  }

  function Reaped(es: seq<Event>): set<int> {
    if es == [] then {} else (if es[0].Children? then ReapedIn(es[0].reaps) else {}) + Reaped(es[1..])
  }

  lemma {:induction false} ReapAllZombies(s: Manager, reaps: seq<Reap>)
    requires Inv(s) && AllZombies(s) && forall i :: 0 <= i < |reaps| ==> reaps[i].rescan.None?
    ensures var t := ReapAll(s, reaps);
      AllZombies(t) && Servers(t.displays) == Without(Servers(s.displays), ReapedIn(reaps)) && t.sockets == s.sockets
    decreases |reaps|
  {
    var servers := Servers(s.displays);
    if reaps == [] {
      assert ReapedIn(reaps) == {};
      WithoutNone(servers, {});
    } else {
      var r, rest := reaps[0], reaps[1..];
      ExitZombies(s, r.pid, r.status);
      ExitOk(s, r.pid, r.status);
      ReapAllZombies(ReapOne(s, r), rest);
      WithoutTwice(servers, {r.pid}, ReapedIn(rest));
      assert {r.pid} + ReapedIn(rest) == ReapedIn(reaps) by {
        forall p | p in ReapedIn(reaps) ensures p in {r.pid} + ReapedIn(rest) {
          var i :| 0 <= i < |reaps| && reaps[i].pid == p;
          assert i > 0 ==> rest[i - 1] == reaps[i];
        }
        forall p | p in ReapedIn(rest) ensures p in ReapedIn(reaps) {
          var i :| 0 <= i < |rest| && rest[i].pid == p;
          assert reaps[i + 1].pid == p;
        }
      }
    }
  }

  lemma StopAllAgain(s: Manager, i: nat)
    requires Inv(s) && AllZombies(s) && i <= |s.displays|
    ensures StopFrom(s, i) == s
    decreases |s.displays| - i
  {
    if i < |s.displays| {
      assert DispOk(s.displays[i], s.live);
      assert s.displays[i := s.displays[i].(status := Zombie)] == s.displays;
      StopAllAgain(s, i + 1);
    }
  }

  /**
   After StopAll, as long as no servers file is read, the list holds exactly the zombies
   whose servers have not been reaped yet, in the old order.
   */
  lemma {:induction false} Drains(s: Manager, es: seq<Event>)
    requires Inv(s) && AllZombies(s) && !s.sockets
    requires forall i :: 0 <= i < |es| ==> NoRescan(es[i])
    ensures var t := Run(s, es);
      AllZombies(t) && !t.sockets && Servers(t.displays) == Without(Servers(s.displays), Reaped(es))
    decreases |es|
  {
    var servers := Servers(s.displays);
    if es == [] {
      WithoutNone(servers, {});
    } else {
      var e, t := es[0], Next(s, es[0]);
      assert NoRescan(e);
      NextOk(s, e);
      var now := if e.Children? then ReapedIn(e.reaps) else {};
      if e.Children? {
        ReapAllZombies(s, e.reaps);
        ReapAllOk(s, e.reaps);
        CheckZombies(ReapAll(s, e.reaps), 0, 0, e.c);
      } else {
        if e.Sigterm? {
          StopAllAgain(s, 0);
        }
        WithoutNone(servers, {});
      }
      assert Servers(t.displays) == Without(servers, now);
      assert forall i :: 0 <= i < |es[1..]| ==> es[1..][i] == es[i + 1];
      Drains(t, es[1..]);
      WithoutTwice(servers, now, Reaped(es[1..]));
    }
  }

  lemma {:induction false} WithoutAll(xs: seq<int>, gone: set<int>)
    ensures Without(xs, gone) == [] <==> forall i :: 0 <= i < |xs| ==> xs[i] in gone
  {
    if xs != [] {
      WithoutAll(xs[1..], gone);
      assert forall i :: 0 < i < |xs| ==> xs[i] == xs[1..][i - 1];
      if xs[0] in gone && Without(xs, gone) != [] {
        var i :| 0 <= i < |xs[1..]| && xs[1..][i] !in gone;
        assert xs[i + 1] !in gone;
      }
    }
  }

  /** The condition of the main loop. */
  predicate LoopGoesOn(s: Manager) {
    s.sockets || s.displays != []
  }

  /** The main loop ends exactly when every server that was running at StopAll has been reaped. */
  lemma ShutdownEnds(s: Manager, es: seq<Event>)
    requires Inv(s) && forall i :: 0 <= i < |es| ==> NoRescan(es[i])
    ensures var stopped := StopAll(s);
      !LoopGoesOn(Run(stopped, es))
      <==> forall i :: 0 <= i < |stopped.displays| ==> stopped.displays[i].serverPid in Reaped(es)
  {
    var stopped := StopAll(s);
    StopFromOk(s.(sockets := false), 0);
    StopFromZombies(s.(sockets := false), 0);
    Drains(stopped, es);
    WithoutAll(Servers(stopped.displays), Reaped(es));
    assert |Servers(Run(stopped, es).displays)| == |Run(stopped, es).displays|;
  }

  // ---- Rescan ----

  predicate Named(entries: seq<Entry>, name: string) {
    exists k :: 0 <= k < |entries| && entries[k].name == name
  }

  predicate Wanted(d: Disp) {
    d.origin == FromFile && d.state != MissingEntry
  }

  ghost predicate HasWanted(ds: seq<Disp>, name: string) {
    exists i :: 0 <= i < |ds| && Wanted(ds[i]) && ds[i].name == name
  }

  /** One line makes one display wanted and leaves the others as they are. */
  lemma ParseMarks(s: Manager, e: Entry)
    ensures var ds := ParseEntry(s, e).displays;
      forall name :: HasWanted(ds, name) <==> name == e.name || HasWanted(s.displays, name)
  {
    var ds := ParseEntry(s, e).displays;
    var i := FindName(s.displays, e.name);
    assert HasWanted(ds, e.name) by {
      if i < |s.displays| {
        assert Wanted(ds[i]) && ds[i].name == e.name;
      } else {
        assert Wanted(ds[0]) && ds[0].name == e.name;
      }
    }
    forall name | HasWanted(s.displays, name) ensures HasWanted(ds, name) {
      var j :| 0 <= j < |s.displays| && Wanted(s.displays[j]) && s.displays[j].name == name;
      var k := if i < |s.displays| then j else j + 1;
      assert Wanted(ds[k]) && ds[k].name == name;
    }
    forall name | HasWanted(ds, name) ensures name == e.name || HasWanted(s.displays, name) {
      var j :| 0 <= j < |ds| && Wanted(ds[j]) && ds[j].name == name;
      if name != e.name {
        var k := if i < |s.displays| then j else j - 1;
        assert Wanted(s.displays[k]) && s.displays[k].name == name;
      }
    }
  }

  /** The displays of the file on the list afterwards are the ones not missing. */
  lemma {:induction false} ScanMarks(s: Manager, entries: seq<Entry>)
    ensures var t := ScanServers(s, entries);
      && (forall i :: 0 <= i < |t.displays| && Wanted(t.displays[i]) ==>
            Named(entries, t.displays[i].name) || HasWanted(s.displays, t.displays[i].name))
      && (forall name :: HasWanted(s.displays, name) || Named(entries, name) ==> HasWanted(t.displays, name))
    decreases |entries|
  {
    if entries != [] {
      var e, rest := entries[0], entries[1..];
      var nextS := ParseEntry(s, e);
      ParseMarks(s, e);
      ScanMarks(nextS, rest);
      forall name | Named(rest, name) || name == e.name ensures Named(entries, name) {
        if name == e.name {
          assert entries[0].name == name;
        } else {
          var k :| 0 <= k < |rest| && rest[k].name == name;
          assert entries[k + 1].name == name;
        }
      }
      forall name | Named(entries, name) ensures name == e.name || Named(rest, name) {
        var k :| 0 <= k < |entries| && entries[k].name == name;
        assert k > 0 ==> rest[k - 1].name == name;
      }
      var t := ScanServers(nextS, rest);
      forall j | 0 <= j < |t.displays| && Wanted(t.displays[j])
        ensures Named(entries, t.displays[j].name) || HasWanted(s.displays, t.displays[j].name)
      {
        assert Named(rest, t.displays[j].name) || HasWanted(nextS.displays, t.displays[j].name);
      }
    }
  }

  ghost predicate HasOldEntry(ds: seq<Disp>, name: string) {
    exists i :: 0 <= i < |ds| && ds[i].origin == FromFile && ds[i].name == name && ds[i].state == OldEntry
  }

  /** What StartDisplays leaves behind. */
  predicate Settled(d: Disp) {
    d.origin == FromFile ==> if d.state == MissingEntry then d.status == Zombie else d.state == OldEntry
  }

  /** The names StartServer failed for between two states. */
  predicate FailedSince(s: Manager, t: Manager, name: string) {
    |s.failures| <= |t.failures| && name in t.failures[|s.failures|..]
  }

  ghost predicate Reconciles(s: Manager, t: Manager) {
    && s.failures <= t.failures
    && (forall name :: HasWanted(t.displays, name) ==> HasWanted(s.displays, name))
    && (forall name :: HasWanted(s.displays, name) ==> HasWanted(t.displays, name) || FailedSince(s, t, name))
    && XdmcpPart(t.displays) == XdmcpPart(s.displays)
  }

  /** The displays managed over XDMCP. */
  function XdmcpPart(ds: seq<Disp>): seq<Disp> {
    if ds == [] then [] else (if ByXdmcp(ds[0]) then [ds[0]] else []) + XdmcpPart(ds[1..])
  }

  lemma {:induction false} XdmcpUpdate(ds: seq<Disp>, i: nat, d: Disp)
    requires i < |ds| && !ByXdmcp(ds[i]) && !ByXdmcp(d)
    ensures XdmcpPart(ds[i := d]) == XdmcpPart(ds)
  {
    if i > 0 {
      assert ds[i := d][1..] == ds[1..][i - 1 := d];
      XdmcpUpdate(ds[1..], i - 1, d);
    } else {
      assert ds[i := d][1..] == ds[1..];
    }
  }

  lemma {:induction false} XdmcpRemove(ds: seq<Disp>, i: nat)
    requires i < |ds| && !ByXdmcp(ds[i])
    ensures XdmcpPart(RemoveAt(ds, i)) == XdmcpPart(ds)
  {
    if i > 0 {
      assert RemoveAt(ds, i)[1..] == RemoveAt(ds[1..], i - 1);
      XdmcpRemove(ds[1..], i - 1);
    } else {
      assert RemoveAt(ds, i) == ds[1..];
    }
  }

  lemma UpdateWanted(s: Manager, i: nat, d: Disp, t: Manager)
    requires i < |s.displays| && t.displays == s.displays[i := d] && t.failures == s.failures
    requires !ByXdmcp(s.displays[i]) && !ByXdmcp(d)
    requires d.name == s.displays[i].name && (Wanted(d) <==> Wanted(s.displays[i]))
    ensures Reconciles(s, t)
  {
    XdmcpUpdate(s.displays, i, d);
    forall name | HasWanted(t.displays, name) ensures HasWanted(s.displays, name) {
      var j :| 0 <= j < |t.displays| && Wanted(t.displays[j]) && t.displays[j].name == name;
      assert Wanted(s.displays[j]) && s.displays[j].name == name;
    }
    forall name | HasWanted(s.displays, name) ensures HasWanted(t.displays, name) {
      var j :| 0 <= j < |s.displays| && Wanted(s.displays[j]) && s.displays[j].name == name;
      assert Wanted(t.displays[j]) && t.displays[j].name == name;
    }
  }

  lemma RemoveWanted(s: Manager, i: nat, t: Manager)
    requires i < |s.displays| && t.displays == RemoveAt(s.displays, i) && !ByXdmcp(s.displays[i])
    requires t.failures == if Wanted(s.displays[i]) then s.failures + [s.displays[i].name] else s.failures
    ensures Reconciles(s, t)
  {
    XdmcpRemove(s.displays, i);
    forall name | HasWanted(t.displays, name) ensures HasWanted(s.displays, name) {
      var j :| 0 <= j < |t.displays| && Wanted(t.displays[j]) && t.displays[j].name == name;
      var k := if j < i then j else j + 1;
      assert Wanted(s.displays[k]) && s.displays[k].name == name;
    }
    forall name | HasWanted(s.displays, name) ensures HasWanted(t.displays, name) || FailedSince(s, t, name) {
      var j :| 0 <= j < |s.displays| && Wanted(s.displays[j]) && s.displays[j].name == name;
      if j != i {
        var k := if j < i then j else j - 1;
        assert Wanted(t.displays[k]) && t.displays[k].name == name;
      } else {
        assert t.failures[|s.failures|..] == [name];
      }
    }
  }

  lemma ReconcilesTrans(s: Manager, t: Manager, u: Manager)
    requires Reconciles(s, t) && Reconciles(t, u)
    ensures Reconciles(s, u)
  {
    forall name | HasWanted(s.displays, name) ensures HasWanted(u.displays, name) || FailedSince(s, u, name) {
      if FailedSince(s, t, name) {
        assert u.failures[|s.failures|..] == t.failures[|s.failures|..] + u.failures[|t.failures|..];
      } else if FailedSince(t, u, name) {
        assert u.failures[|s.failures|..] == t.failures[|s.failures|..] + u.failures[|t.failures|..];
      }
    }
  }

  lemma StartReconciles(s: Manager, i: nat, c: Choice)
    requires i < |s.displays| && Wanted(s.displays[i]) && s.displays[i].state == OldEntry
    ensures var t := StartDisplay(s, i, c);
      && Reconciles(s, t)
      && (|t.displays| == |s.displays| ==> t.displays == s.displays[i := t.displays[i]] && Settled(t.displays[i]))
      && (|t.displays| < |s.displays| ==> t.displays == RemoveAt(s.displays, i))
  {
    var t := StartDisplay(s, i, c);
    if |t.displays| < |s.displays| {
      var d := s.displays[i].(startAttempts := c.startAttempts, terminateServer := c.terminateServer);
      assert RemoveAt(s.displays[i := d], i) == RemoveAt(s.displays, i);
      RemoveWanted(s, i, t);
    } else {
      assert t.displays == s.displays[i := t.displays[i]];
      UpdateWanted(s, i, t.displays[i], t);
    }
  }

  /** One display is settled, the others stay as they are. */
  lemma CheckSettles(s: Manager, i: nat, c: Choice)
    requires i < |s.displays|
    ensures var t := CheckDisplayStatus(s, i, c);
      && Reconciles(s, t)
      && (|t.displays| == |s.displays| ==> t.displays == s.displays[i := t.displays[i]] && Settled(t.displays[i]))
      && (|t.displays| < |s.displays| ==> t.displays == RemoveAt(s.displays, i))
  {
    var d, t := s.displays[i], CheckDisplayStatus(s, i, c);
    if d.origin == FromFile {
      if d.state == MissingEntry {
        if d.serverPid != -1 {
          UpdateWanted(s, i, d.(status := Zombie), t);
        } else {
          RemoveWanted(s, i, t);
        }
      } else {
        var s0 := s.(displays := s.displays[i := d.(state := OldEntry)]);
        UpdateWanted(s, i, d.(state := OldEntry), s0);
        if d.status == NotRunning {
          StartReconciles(s0, i, c);
          ReconcilesTrans(s, s0, t);
          assert |t.displays| < |s.displays| ==> RemoveAt(s0.displays, i) == RemoveAt(s.displays, i);
        }
      }
    }
  }

  lemma {:induction false} CheckFromSettles(s: Manager, i: nat, k: nat, c: nat -> Choice)
    requires i <= |s.displays| && forall j :: 0 <= j < i ==> Settled(s.displays[j])
    ensures var t := CheckFrom(s, i, k, c);
      Reconciles(s, t) && forall j :: 0 <= j < |t.displays| ==> Settled(t.displays[j])
    decreases |s.displays| - i
  {
    if i < |s.displays| {
      CheckLength(s, i, c(k));
      CheckSettles(s, i, c(k));
      var nextS := CheckDisplayStatus(s, i, c(k));
      var nextI := if |nextS.displays| < |s.displays| then i else i + 1;
      CheckFromSettles(nextS, nextI, k + 1, c);
      ReconcilesTrans(s, nextS, CheckFrom(nextS, nextI, k + 1, c));
    }
  }

  /** The first display with its name, and the file names it: the line takes it over. */
  predicate TakenBy(ds: seq<Disp>, i: nat, entries: seq<Entry>)
    requires i < |ds|
  {
    FindName(ds, ds[i].name) == i && Named(entries, ds[i].name)
  }

  /** The displays managed over XDMCP, from place i on, that no line of the file takes over. */
  function Spared(ds: seq<Disp>, i: nat, entries: seq<Entry>): seq<Disp>
    requires i <= |ds|
    decreases |ds| - i
  {
    if i == |ds| then [] else SparedAt(ds, i, entries) + Spared(ds, i + 1, entries)
  }

  function SparedAt(ds: seq<Disp>, i: nat, entries: seq<Entry>): seq<Disp>
    requires i < |ds|
  {
    if ByXdmcp(ds[i]) && !TakenBy(ds, i, entries) then [ds[i]] else []
  }

  lemma {:induction false} SparedOfNone(ds: seq<Disp>, i: nat)
    requires i <= |ds|
    ensures Spared(ds, i, []) == XdmcpPart(ds[i..])
    decreases |ds| - i
  {
    if i < |ds| {
      assert ds[i..][1..] == ds[i + 1..];
      SparedOfNone(ds, i + 1);
    }
  }

  /** Marking changes neither names nor origins. */
  lemma {:induction false} MarkedSpared(ds: seq<Disp>, i: nat, entries: seq<Entry>)
    requires i <= |ds|
    ensures Spared(Marked(ds), i, entries) == Marked(Spared(ds, i, entries))
    decreases |ds| - i
  {
    hide SparedAt, Marked;
    if i < |ds| {
      MarkedSpared(ds, i + 1, entries);
      MarkedTaken(ds, i, entries);
      MarkedAppend(SparedAt(ds, i, entries), Spared(ds, i + 1, entries));
    }
  }

  lemma MarkedTaken(ds: seq<Disp>, i: nat, entries: seq<Entry>)
    requires i < |ds|
    ensures SparedAt(Marked(ds), i, entries) == Marked(SparedAt(ds, i, entries))
  {
    hide Named;
    assert forall k :: 0 <= k < |ds| ==> Marked(ds)[k].name == ds[k].name;
    assert FindName(Marked(ds), ds[i].name) == FindName(ds, ds[i].name);
  }

  lemma NamedFirst(e: Entry, rest: seq<Entry>, name: string)
    ensures Named([e] + rest, name) <==> e.name == name || Named(rest, name)
  {
    var entries := [e] + rest;
    if e.name == name {
      assert entries[0].name == name;
    }
    if Named(rest, name) {
      var k :| 0 <= k < |rest| && rest[k].name == name;
      assert entries[k + 1].name == name;
    }
    if Named(entries, name) {
      var k :| 0 <= k < |entries| && entries[k].name == name;
      assert k > 0 ==> rest[k - 1].name == name;
    }
  }

  lemma MarkedAppend(a: seq<Disp>, b: seq<Disp>)
    ensures Marked(a + b) == Marked(a) + Marked(b)
  {
  }

  /** A line that takes over the display at place at. */
  lemma {:induction false} SparedUpdate(ds: seq<Disp>, at: nat, d: Disp, e: Entry, rest: seq<Entry>, i: nat)
    requires at < |ds| && i <= |ds| && FindName(ds, e.name) == at && d.name == e.name && !ByXdmcp(d)
    ensures Spared(ds[at := d], i, rest) == Spared(ds, i, [e] + rest)
    decreases |ds| - i
  {
    hide SparedAt;
    if i < |ds| {
      SparedUpdate(ds, at, d, e, rest, i + 1);
      TakenUpdate(ds, at, d, e, rest, i);
    }
  }

  lemma TakenUpdate(ds: seq<Disp>, at: nat, d: Disp, e: Entry, rest: seq<Entry>, i: nat)
    requires at < |ds| && i < |ds| && FindName(ds, e.name) == at && d.name == e.name && !ByXdmcp(d)
    ensures SparedAt(ds[at := d], i, rest) == SparedAt(ds, i, [e] + rest)
  {
    hide Named;
    var nextDs := ds[at := d];
    NamedFirst(e, rest, ds[i].name);
    if i != at {
      assert forall k :: 0 <= k < |ds| ==> nextDs[k].name == ds[k].name;
      assert FindName(nextDs, ds[i].name) == FindName(ds, ds[i].name);
    }
  }

  /** A line that names no display puts a new one in front. */
  lemma {:induction false} SparedNew(ds: seq<Disp>, d: Disp, e: Entry, rest: seq<Entry>, i: nat)
    requires i <= |ds| && FindName(ds, e.name) == |ds| && d.name == e.name
    ensures Spared([d] + ds, i + 1, rest) == Spared(ds, i, [e] + rest)
    decreases |ds| - i
  {
    if i < |ds| {
      SparedNew(ds, d, e, rest, i + 1);
      assert ([d] + ds)[i + 1] == ds[i] && ds[i].name != e.name;
      NamedFirst(e, rest, ds[i].name);
      assert ([d] + ds)[1..] == ds;
      assert FindName([d] + ds, ds[i].name) == 1 + FindName(ds, ds[i].name);
    }
  }

  lemma {:induction false} ScanPart(s: Manager, entries: seq<Entry>)
    ensures XdmcpPart(ScanServers(s, entries).displays) == Spared(s.displays, 0, entries)
    decreases |entries|
  {
    hide ParseEntry, Spared;
    if entries == [] {
      SparedOfNone(s.displays, 0);
      assert s.displays[0..] == s.displays;
    } else {
      var e, rest := entries[0], entries[1..];
      assert entries == [e] + rest;
      ParseSpares(s, e, rest);
      ScanPart(ParseEntry(s, e), rest);
    }
  }

  lemma ParseSpares(s: Manager, e: Entry, rest: seq<Entry>)
    ensures Spared(ParseEntry(s, e).displays, 0, rest) == Spared(s.displays, 0, [e] + rest)
  {
    hide SparedAt, Spared;
    var i := FindName(s.displays, e.name);
    var nextDs := ParseEntry(s, e).displays;
    if i < |s.displays| {
      SparedUpdate(s.displays, i, nextDs[i], e, rest, 0);
    } else {
      SparedNew(s.displays, nextDs[0], e, rest, 0);
      FirstIsNotSpared(nextDs, rest);
    }
  }

  lemma FirstIsNotSpared(ds: seq<Disp>, entries: seq<Entry>)
    requires ds != [] && !ByXdmcp(ds[0])
    ensures Spared(ds, 0, entries) == Spared(ds, 1, entries)
  {
  }

  /**
   A rescan reconciles the list with the servers file: displays of the file that it no
   longer names are gone or zombies, each named one is there as OldEntry unless its server
   could not be started, and XDMCP displays keep everything but the mark, save those that
   a line takes over: of each name in the file the first display.
   */
  lemma RescanReconciles(s: Manager, entries: seq<Entry>, c: nat -> Choice)
    ensures var t := RescanServers(s, entries, c);
      && (forall i :: 0 <= i < |t.displays| && t.displays[i].origin == FromFile && !Named(entries, t.displays[i].name) ==>
            t.displays[i].status == Zombie)
      && (forall name :: Named(entries, name) ==> (FailedSince(s, t, name) || HasOldEntry(t.displays, name)))
      && XdmcpPart(t.displays) == Marked(Spared(s.displays, 0, entries))
  {
    var m := s.(displays := Marked(s.displays));
    var u := MarkAndScan(s, entries);
    var t := RescanServers(s, entries, c);
    ScanMarks(m, entries);
    ScanFailures(m, entries);
    assert forall name :: !HasWanted(m.displays, name);
    CheckFromSettles(u, 0, 0, c);
    forall name | HasWanted(t.displays, name) ensures Named(entries, name) {
      assert HasWanted(u.displays, name);
      var j :| 0 <= j < |u.displays| && Wanted(u.displays[j]) && u.displays[j].name == name;
      assert Named(entries, name) || HasWanted(m.displays, name);
    }
    forall i | 0 <= i < |t.displays| && t.displays[i].origin == FromFile && !Named(entries, t.displays[i].name)
      ensures t.displays[i].status == Zombie
    {
      assert Settled(t.displays[i]) && !HasWanted(t.displays, t.displays[i].name);
    }
    forall name | Named(entries, name)
      ensures FailedSince(s, t, name) || HasOldEntry(t.displays, name)
    {
      assert HasWanted(u.displays, name);
      if !FailedSince(u, t, name) {
        var i :| 0 <= i < |t.displays| && Wanted(t.displays[i]) && t.displays[i].name == name;
        assert Settled(t.displays[i]);
      }
    }
    ScanPart(m, entries);
    MarkedSpared(s.displays, 0, entries);
  }

  lemma {:induction false} ScanFailures(s: Manager, entries: seq<Entry>)
    ensures ScanServers(s, entries).failures == s.failures
    decreases |entries|
  {
    if entries != [] {
      ScanFailures(ParseEntry(s, entries[0]), entries[1..]);
    }
  }

  // ---- Proto-displays ----

  predicate At(p: Proto, from: Address, number: nat) {
    p.address == from && p.displayNumber == number
  }

  ghost predicate OnePerDisplay(ps: seq<Proto>) {
    forall i, j :: 0 <= i < j < |ps| ==> !At(ps[j], ps[i].address, ps[i].displayNumber)
  }

  lemma {:induction false} TimeoutOnePerDisplay(ps: seq<Proto>, now: int)
    requires OnePerDisplay(ps)
    ensures OnePerDisplay(TimeoutProtos(ps, now))
  {
    if ps != [] {
      var rest, r := TimeoutProtos(ps[1..], now), TimeoutProtos(ps, now);
      TimeoutOnePerDisplay(ps[1..], now);
      TimeoutOffers(ps[1..], now);
      forall j | 0 <= j < |rest| ensures !At(rest[j], ps[0].address, ps[0].displayNumber) {
        assert rest[j] in ps[1..];
        var k :| 0 <= k < |ps[1..]| && ps[1..][k] == rest[j];
        assert ps[k + 1] == rest[j];
      }
      assert r == if ps[0].date < Cutoff(now) then rest else [ps[0]] + rest;
      forall a, b | 0 <= a < b < |r| ensures !At(r[b], r[a].address, r[a].displayNumber) {
        if ps[0].date >= Cutoff(now) {
          assert r[b] == rest[b - 1] && (a > 0 ==> r[a] == rest[a - 1]);
        }
      }
    }
  }

  /** Events other than packets leave the proto-displays alone. */
  lemma {:induction false} CheckFromProtos(s: Manager, i: nat, k: nat, c: nat -> Choice)
    requires i <= |s.displays|
    ensures CheckFrom(s, i, k, c).protos == s.protos
    decreases |s.displays| - i
  {
    if i < |s.displays| {
      CheckLength(s, i, c(k));
      var nextS := CheckDisplayStatus(s, i, c(k));
      CheckFromProtos(nextS, if |nextS.displays| < |s.displays| then i else i + 1, k + 1, c);
    }
  }

  lemma {:induction false} StopFromProtos(s: Manager, i: nat)
    requires i <= |s.displays|
    ensures StopFrom(s, i).protos == s.protos
    decreases |s.displays| - i
  {
    if i < |s.displays| {
      var nextS := Stop(s, i);
      StopFromProtos(nextS, if |nextS.displays| < |s.displays| then i else i + 1);
    }
  }

  lemma {:induction false} ScanProtos(s: Manager, entries: seq<Entry>)
    ensures ScanServers(s, entries).protos == s.protos
    decreases |entries|
  {
    if entries != [] {
      ScanProtos(ParseEntry(s, entries[0]), entries[1..]);
    }
  }

  lemma ExitProtos(s: Manager, pid: int, status: ExitStatus)
    ensures Exit(s, pid, status).protos == s.protos
  {
  }

  lemma {:induction false} ReapAllProtos(s: Manager, reaps: seq<Reap>)
    ensures ReapAll(s, reaps).protos == s.protos
    decreases |reaps|
  {
    if reaps != [] {
      if reaps[0].rescan.Some? {
        ScanProtos(s.(displays := Marked(s.displays)), reaps[0].rescan.value);
      }
      hide Exit;
      ExitProtos(if reaps[0].rescan.Some? then MarkAndScan(s, reaps[0].rescan.value) else s, reaps[0].pid, reaps[0].status);
      ReapAllProtos(ReapOne(s, reaps[0]), reaps[1..]);
    }
  }

  lemma QuietProtos(s: Manager, e: Event)
    requires !IsPacket(e)
    ensures Next(s, e).protos == s.protos
  {
    match e
    case Children(reaps, c) =>
      ReapAllProtos(s, reaps);
      CheckFromProtos(ReapAll(s, reaps), 0, 0, c);
    case Rescan(entries, c) =>
      ScanProtos(s.(displays := Marked(s.displays)), entries);
      CheckFromProtos(MarkAndScan(s, entries), 0, 0, c);
    case Sigterm => StopFromProtos(s.(sockets := false), 0);
  }

  /** A Manage packet disposes of the proto-display it names, if any, and touches no other. */
  predicate Manages(s: Manager, e: Event, i: nat) {
    e.ManagePacket? && s.sockets && e.name.Some? && i == FindProto(s.protos, e.from, e.number)
    && i < |s.protos| && s.protos[i].sessionID == e.id
  }

  lemma ManageProtos(s: Manager, e: Event)
    requires e.ManagePacket?
    ensures var i := FindProto(s.protos, e.from, e.number);
      Next(s, e).protos == if Manages(s, e, i) then RemoveAt(s.protos, i) else s.protos
  {
  }

  /** At most one proto-display per display, after every event of every run. */
  lemma {:induction false} ProtosUnique(s: Manager, es: seq<Event>)
    requires OnePerDisplay(s.protos)
    ensures OnePerDisplay(Run(s, es).protos)
    decreases |es|
  {
    if es != [] {
      var e, t := es[0], Next(s, es[0]);
      if e.ManagePacket? {
        ManageProtos(s, e);
      } else if e.RequestPacket? {
        TimeoutOnePerDisplay(s.protos, e.now);
        TimeoutOffers(s.protos, e.now);
        var r := TimeoutProtos(s.protos, e.now);
        if FindProto(s.protos, e.from, e.number) == |s.protos| {
          forall k | 0 <= k < |r| ensures !At(r[k], e.from, e.number) {
            assert r[k] in s.protos;
          }
        }
      } else {
        QuietProtos(s, e);
      }
      ProtosUnique(t, es[1..]);
    }
  }

  /**
   An insertion first drops exactly the proto-displays older than the timeout.  In the
   first half hour after the epoch the unsigned difference wraps instead, and only dates
   in the last half hour of the clock survive.
   */
  lemma InsertionDropsOld(s: Manager, from: Address, number: nat, now: int, authOk: bool)
    requires FindProto(s.protos, from, number) == |s.protos| && 0 <= now < WORD64
    ensures var t := RequestRespond(s, from, number, now, true, authOk).0;
      && (forall p :: p in s.protos ==>
            (p in t.protos <==>
             if now >= 1800 then p.date >= now - 1800 else p.date >= WORD64 - (1800 - now)))
      && (forall p :: p in t.protos ==> p in s.protos || p.date == now)
  {
    TimeoutOffers(s.protos, now);
    if now >= PROTO_TIMEOUT {
      assert Cutoff(now) == now - PROTO_TIMEOUT;
    } else {
      assert Cutoff(now) == WORD64 - (PROTO_TIMEOUT - now);
    }
    var t := RequestRespond(s, from, number, now, true, authOk).0;
    forall p | p in s.protos
      ensures p in t.protos <==> p.date >= Cutoff(now)
    {
      var j :| 0 <= j < |s.protos| && s.protos[j] == p;
      assert !(p.address == from && p.displayNumber == number);
    }
  }

  /** The display at this address is offered this session. */
  ghost predicate HasOffer(ps: seq<Proto>, p: Proto) {
    p in ps
  }

  /** The three ways to lose an offer: managed, declined, timed out. */
  predicate Ends(s: Manager, e: Event, p: Proto) {
    match e
    case ManagePacket(from, number, id, name, _) => At(p, from, number) && id == p.sessionID && name.Some?
    case RequestPacket(from, number, now, typesOk, authOk) =>
      typesOk && if At(p, from, number) then !authOk
                 else FindProto(s.protos, from, number) == |s.protos| && p.date < Cutoff(now)
    case _ => false
  }

  /** An offer stands until it is managed, declined or timed out, and is repeated on every retransmission. */
  lemma OfferStands(s: Manager, e: Event, p: Proto)
    requires OnePerDisplay(s.protos) && HasOffer(s.protos, p)
    ensures HasOffer(Next(s, e).protos, p) <==> !(s.sockets && Ends(s, e, p))
    ensures forall now :: RequestRespond(s, p.address, p.displayNumber, now, true, true) == (s, Accept(p.sessionID))
  {
    var i := FindProto(s.protos, p.address, p.displayNumber);
    var j :| 0 <= j < |s.protos| && s.protos[j] == p;
    assert i == j;
    if e.ManagePacket? {
      ManageProtos(s, e);
      var k := FindProto(s.protos, e.from, e.number);
      if Manages(s, e, k) {
        OthersStay(s.protos, k, p);
      }
    } else if e.RequestPacket? {
      TimeoutOffers(s.protos, e.now);
      var k := FindProto(s.protos, e.from, e.number);
      if k < |s.protos| {
        OthersStay(s.protos, k, p);
      } else if s.sockets && e.typesOk {
        var t := Next(s, e).protos;
        assert !At(p, e.from, e.number);
        var r := TimeoutProtos(s.protos, e.now);
        assert t == if e.authOk then [t[0]] + r else r;
        assert e.authOk ==> t[0] != p;
      }
    } else {
      QuietProtos(s, e);
    }
  }

  lemma OthersStay(ps: seq<Proto>, k: nat, p: Proto)
    requires OnePerDisplay(ps) && k < |ps| && p in ps
    ensures p in RemoveAt(ps, k) <==> p != ps[k]
    ensures p == ps[k] <==> At(p, ps[k].address, ps[k].displayNumber)
  {
    var j :| 0 <= j < |ps| && ps[j] == p;
    if j != k {
      assert RemoveAt(ps, k)[if j < k then j else j - 1] == p;
    } else {
      forall l | 0 <= l < |RemoveAt(ps, k)| ensures RemoveAt(ps, k)[l] != p {
        assert RemoveAt(ps, k)[l] == ps[if l < k then l else l + 1];
      }
    }
  }
}
