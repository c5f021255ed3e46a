/**
 Life-cycle results: zombies, shutdown, retries, rescans and proto-displays.
 */
module DisplayLifecycle {
  import opened DisplayModel
  import opened DisplayInvariant
  import opened DisplaySessions

  // ---- Zombies ----

  ghost predicate ZombieWith(s: Manager, server: int) {
    exists i :: 0 <= i < |s.displays| && s.displays[i].status == Zombie && s.displays[i].serverPid == server
  }

  /** Zombies stay zombies, with the server they wait for. */
  ghost predicate KeepsZombies(s: Manager, t: Manager) {
    forall p :: ZombieWith(s, p) ==> ZombieWith(t, p)
  }

  lemma UpdateKeeps(s: Manager, i: nat, d: Disp, t: Manager)
    requires i < |s.displays| && t.displays == s.displays[i := d]
    requires s.displays[i].status == Zombie ==> d.status == Zombie && d.serverPid == s.displays[i].serverPid
    ensures KeepsZombies(s, t)
  {
    forall p | ZombieWith(s, p) ensures ZombieWith(t, p) {
      var j :| 0 <= j < |s.displays| && s.displays[j].status == Zombie && s.displays[j].serverPid == p;
      assert t.displays[j].status == Zombie && t.displays[j].serverPid == p;
    }
  }

  lemma RemoveKeeps(s: Manager, i: nat, t: Manager)
    requires i < |s.displays| && t.displays == RemoveAt(s.displays, i) && s.displays[i].status != Zombie
    ensures KeepsZombies(s, t)
  {
    forall p | ZombieWith(s, p) ensures ZombieWith(t, p) {
      var j :| 0 <= j < |s.displays| && s.displays[j].status == Zombie && s.displays[j].serverPid == p;
      var k := if j < i then j else j - 1;
      assert t.displays[k] == s.displays[j];
    }
  }

  lemma PrependKeeps(s: Manager, d: Disp, t: Manager)
    requires t.displays == [d] + s.displays
    ensures KeepsZombies(s, t)
  {
    forall p | ZombieWith(s, p) ensures ZombieWith(t, p) {
      var j :| 0 <= j < |s.displays| && s.displays[j].status == Zombie && s.displays[j].serverPid == p;
      assert t.displays[j + 1] == s.displays[j];
    }
  }

  lemma StopKeeps(s: Manager, i: nat)
    requires Inv(s) && i < |s.displays|
    ensures KeepsZombies(s, Stop(s, i))
  {
    assert DispOk(s.displays[i], s.live);
    if s.displays[i].serverPid != -1 {
      UpdateKeeps(s, i, s.displays[i].(status := Zombie), Stop(s, i));
    } else {
      RemoveKeeps(s, i, Stop(s, i));
    }
  }

  lemma StartKeeps(s: Manager, i: nat, c: Choice)
    requires i < |s.displays| && s.displays[i].status == NotRunning
    ensures KeepsZombies(s, StartDisplay(s, i, c))
  {
    var t := StartDisplay(s, i, c);
    if |t.displays| < |s.displays| {
      var d := s.displays[i].(startAttempts := c.startAttempts, terminateServer := c.terminateServer);
      assert RemoveAt(s.displays[i := d], i) == RemoveAt(s.displays, i);
      RemoveKeeps(s, i, t);
    } else {
      assert t.displays == s.displays[i := t.displays[i]];
      UpdateKeeps(s, i, t.displays[i], t);
    }
  }

  lemma CheckKeeps(s: Manager, i: nat, c: Choice)
    requires Inv(s) && i < |s.displays|
    ensures KeepsZombies(s, CheckDisplayStatus(s, i, c))
  {
    var d := s.displays[i];
    if d.origin == FromFile {
      if d.state == MissingEntry {
        StopKeeps(s, i);
      } else {
        var s0 := s.(displays := s.displays[i := d.(state := OldEntry)]);
        UpdateKeeps(s, i, d.(state := OldEntry), s0);
        if d.status == NotRunning {
          StartKeeps(s0, i, c);
        }
      }
    }
  }

  lemma {:induction false} CheckFromKeeps(s: Manager, i: nat, k: nat, c: nat -> Choice)
    requires Inv(s) && i <= |s.displays|
    ensures KeepsZombies(s, CheckFrom(s, i, k, c))
    decreases |s.displays| - i
  {
    if i < |s.displays| {
      CheckLength(s, i, c(k));
      CheckOk(s, i, c(k));
      CheckKeeps(s, i, c(k));
      var nextS := CheckDisplayStatus(s, i, c(k));
      CheckFromKeeps(nextS, if |nextS.displays| < |s.displays| then i else i + 1, k + 1, c);
    }
  }

  lemma {:induction false} StopFromKeeps(s: Manager, i: nat)
    requires Inv(s) && i <= |s.displays|
    ensures KeepsZombies(s, StopFrom(s, i))
    decreases |s.displays| - i
  {
    if i < |s.displays| {
      StopOk(s, i);
      StopKeeps(s, i);
      var nextS := Stop(s, i);
      StopFromKeeps(nextS, if |nextS.displays| < |s.displays| then i else i + 1);
    }
  }

  lemma {:induction false} ScanKeeps(s: Manager, entries: seq<Entry>)
    ensures KeepsZombies(s, ScanServers(s, entries))
    decreases |entries|
  {
    if entries != [] {
      var e := entries[0];
      var t, i := ParseEntry(s, e), FindName(s.displays, e.name);
      if i < |s.displays| {
        UpdateKeeps(s, i, t.displays[i], t);
      } else {
        PrependKeeps(s, t.displays[0], t);
      }
      ScanKeeps(t, entries[1..]);
    }
  }

  lemma MarkAndScanKeeps(s: Manager, entries: seq<Entry>)
    ensures KeepsZombies(s, MarkAndScan(s, entries))
  {
    var t := s.(displays := Marked(s.displays));
    forall p | ZombieWith(s, p) ensures ZombieWith(t, p) {
      var j :| 0 <= j < |s.displays| && s.displays[j].status == Zombie && s.displays[j].serverPid == p;
      assert t.displays[j].status == Zombie && t.displays[j].serverPid == p;
    }
    ScanKeeps(t, entries);
  }

  lemma SessionExitKeeps(s: Manager, i: nat, status: ExitStatus)
    requires Inv(s) && i < |s.displays|
    ensures KeepsZombies(s, SessionExit(s, i, status))
  {
    var d, t := s.displays[i], SessionExit(s, i, status);
    assert DispOk(d, s.live);
    if |t.displays| < |s.displays| {
      var v := Judge(Ended(d, status), status);
      assert RemoveAt(s.displays[i := v.d], i) == RemoveAt(s.displays, i);
      RemoveKeeps(s, i, t);
    } else {
      assert t.displays == s.displays[i := t.displays[i]];
      UpdateKeeps(s, i, t.displays[i], t);
    }
  }

  lemma ServerExitKeeps(s: Manager, j: nat, p: int)
    requires Inv(s) && j < |s.displays| && ZombieWith(s, p) && s.displays[j].serverPid != p
    ensures ZombieWith(ServerExit(s, j), p)
  {
    var t := ServerExit(s, j);
    var k :| 0 <= k < |s.displays| && s.displays[k].status == Zombie && s.displays[k].serverPid == p;
    if s.displays[j].status == Zombie {
      assert t.displays[if k < j then k else k - 1] == s.displays[k];
    } else {
      assert t.displays[k] == s.displays[k];
    }
  }

  /** A zombie outlives every exit but that of its server. */
  lemma ExitKeeps(s: Manager, pid: int, status: ExitStatus, p: int)
    requires Inv(s) && ZombieWith(s, p) && pid != p
    ensures ZombieWith(Exit(s, pid, status), p)
  {
    hide SessionExit, ServerExit;
    var i, j := FindPid(s.displays, pid), FindServerPid(s.displays, pid);
    var s0, live := s.(live := s.live - {pid}), s.live - {pid};
    if pid > 0 && i < |s.displays| {
      SessionExitKeeps(s, i, status);
      ExitIgnoresLive(s, live, i, status);
      assert SessionExit(s0, i, status).displays == SessionExit(s, i, status).displays;
    } else if pid > 0 && j < |s.displays| {
      ServerExitKeeps(s, j, p);
      ExitIgnoresLive(s, live, j, status);
      assert ServerExit(s0, j).displays == ServerExit(s, j).displays;
    }
  }

  /** The live children play no part in handling an exit. */
  lemma ExitIgnoresLive(s: Manager, live: set<int>, i: nat, status: ExitStatus)
    requires i < |s.displays|
    ensures SessionExit(s.(live := live), i, status) == SessionExit(s, i, status).(live := live)
    ensures ServerExit(s.(live := live), i) == ServerExit(s, i).(live := live)
  {
  }

  /** The exit of its server removes the zombie and changes no other display. */
  lemma ZombieReaped(s: Manager, i: nat, status: ExitStatus)
    requires Inv(s) && i < |s.displays| && s.displays[i].status == Zombie
    ensures Exit(s, s.displays[i].serverPid, status).displays == RemoveAt(s.displays, i)
  {
    var p := s.displays[i].serverPid;
    OnlyTracker(s.displays, s.live, i, p);
  }

  /** A tracked pid leads to its display and no other. */
  lemma OnlyTracker(ds: seq<Disp>, live: set<int>, i: nat, p: int)
    requires ListOk(ds, live) && i < |ds| && p in Tracked(ds[i])
    ensures p > 0
    ensures ds[i].pid == p ==> FindPid(ds, p) == i
    ensures ds[i].serverPid == p ==> FindPid(ds, p) == |ds| && FindServerPid(ds, p) == i
  {
    assert DispOk(ds[i], live);
    forall j | 0 <= j < |ds| && j != i ensures p !in Tracked(ds[j]) {
      assert if j < i then Tracked(ds[j]) !! Tracked(ds[i]) else Tracked(ds[i]) !! Tracked(ds[j]);
    }
  }

  predicate Reaps(reaps: seq<Reap>, p: int) {
    exists i :: 0 <= i < |reaps| && reaps[i].pid == p
  }

  lemma {:induction false} ReapAllKeeps(s: Manager, reaps: seq<Reap>, p: int)
    requires Inv(s) && ZombieWith(s, p) && !Reaps(reaps, p)
    ensures ZombieWith(ReapAll(s, reaps), p)
    decreases |reaps|
  {
    if reaps != [] {
      var r := reaps[0];
      assert r.pid != p;
      var s0 := if r.rescan.Some? then MarkAndScan(s, r.rescan.value) else s;
      if r.rescan.Some? {
        MarkAndScanOk(s, r.rescan.value);
        MarkAndScanKeeps(s, r.rescan.value);
      }
      ExitKeeps(s0, r.pid, r.status, p);
      ExitOk(s0, r.pid, r.status);
      assert forall i :: 0 <= i < |reaps[1..]| ==> reaps[1..][i] == reaps[i + 1];
      ReapAllKeeps(ReapOne(s, r), reaps[1..], p);
    }
  }

  /** Zombie is absorbing: whatever happens, a zombie stays one until its server is reaped. */
  lemma ZombieAbsorbing(s: Manager, e: Event, p: int)
    requires Inv(s) && ZombieWith(s, p)
    requires e.Children? ==> !Reaps(e.reaps, p)
    ensures ZombieWith(Next(s, e), p)
  {
    match e
    case Children(reaps, c) =>
      ReapAllKeeps(s, reaps, p);
      ReapAllOk(s, reaps);
      CheckFromKeeps(ReapAll(s, reaps), 0, 0, c);
    case Rescan(entries, c) =>
      MarkAndScanKeeps(s, entries);
      MarkAndScanOk(s, entries);
      CheckFromKeeps(MarkAndScan(s, entries), 0, 0, c);
    case RequestPacket(from, number, now, typesOk, authOk) =>
      if s.sockets {
        assert Next(s, e).displays == s.displays;
      }
    case ManagePacket(from, number, id, name, c) =>
      if s.sockets && Manage(s, from, number, id, name, c).0 != s {
        ManageKeeps(s, e);
      }
    case Sigterm => StopFromKeeps(s.(sockets := false), 0);
  }

  lemma ManageKeeps(s: Manager, e: Event)
    requires Inv(s) && e.ManagePacket? && s.sockets
    ensures KeepsZombies(s, Next(s, e))
  {
    var i := FindProto(s.protos, e.from, e.number);
    if i < |s.protos| && s.protos[i].sessionID == e.id && e.name.Some? {
      var k := FindName(s.displays, e.name.value);
      if k < |s.displays| {
        StopKeeps(s, k);
      }
      var s0 := if k < |s.displays| then Stop(s, k) else s;
      var d := NewDisplay(e.name.value, Foreign, Transient, FromXDMCP).(sessionID := e.id, from := e.from, displayNumber := e.number);
      var s1 := s0.(displays := [d] + s0.displays, protos := RemoveAt(s.protos, i));
      PrependKeeps(s0, d, s1);
      StartKeeps(s1, 0, e.choice);
    }
  }

  // ---- Session exits ----

  /** An XDMCP display is gone with its session child, whatever the exit status. */
  lemma XdmcpNeverRestarts(s: Manager, i: nat, status: ExitStatus)
    requires Inv(s) && i < |s.displays| && ByXdmcp(s.displays[i]) && s.displays[i].pid != -1
    ensures Exit(s, s.displays[i].pid, status).displays == RemoveAt(s.displays, i)
  {
    var d := s.displays[i];
    assert DispOk(d, s.live);
    OnlyTracker(s.displays, s.live, i, d.pid);
    var v := Judge(Ended(d, status), status);
    assert v.StopIt? && RemoveAt(s.displays[i := v.d], i) == RemoveAt(s.displays, i);
  }

  // ---- Failed opens ----

  /** The failed opens at the end of a display's history. */
  function Streak(ends: seq<SessionEnd>): nat {
    if ends == [] || ends[|ends| - 1].status != OpenFailed then 0 else 1 + Streak(ends[..|ends| - 1])
  }

  function Max(a: int, b: int): int {
    if a > b then a else b
  }

  /** No failed open of the history was the last one its limit allows. */
  ghost predicate Patient(ends: seq<SessionEnd>) {
    forall i :: 0 <= i < |ends| && ends[i].status == OpenFailed ==> Streak(ends[..i + 1]) < Max(ends[i].startAttempts, 1)
  }

  /** For a display that is not given up, startTries is the streak and no failure reached its limit. */
  ghost predicate TryOk(d: Disp) {
    && (d.origin == FromXDMCP ==> d.serverPid == -1 && d.location == Foreign && d.lifetime == Transient && d.ends == [])
    && (d.status != Zombie ==> d.startTries == Streak(d.ends) && Patient(d.ends))
  }

  ghost predicate TriesOk(s: Manager) {
    forall i :: 0 <= i < |s.displays| ==> TryOk(s.displays[i])
  }

  lemma StreakGrows(ends: seq<SessionEnd>, e: SessionEnd)
    ensures Streak(ends + [e]) == if e.status == OpenFailed then Streak(ends) + 1 else 0
  {
    assert (ends + [e])[..|ends + [e]| - 1] == ends;
  }

  lemma PatientGrows(ends: seq<SessionEnd>, e: SessionEnd)
    requires Patient(ends) && (e.status == OpenFailed ==> Streak(ends) + 1 < Max(e.startAttempts, 1))
    ensures Patient(ends + [e])
  {
    StreakGrows(ends, e);
    var longer := ends + [e];
    forall i | 0 <= i < |longer| && longer[i].status == OpenFailed
      ensures Streak(longer[..i + 1]) < Max(longer[i].startAttempts, 1)
    {
      assert longer[..i + 1] == if i < |ends| then ends[..i + 1] else longer;
    }
  }

  /**
   The failed open that makes the streak as long as max(startAttempts, 1), with the limit
   loaded at that start, stops the display; every earlier one makes it start again.
   */
  lemma OpenFailedStopsIff(s: Manager, i: nat)
    requires Inv(s) && TriesOk(s) && i < |s.displays| && s.displays[i].pid != -1
    requires s.displays[i].origin == FromFile && s.displays[i].status != Zombie
    ensures var d := s.displays[i];
      var t := Exit(s, d.pid, OpenFailed).displays;
      if Streak(d.ends) + 1 >= Max(d.startAttempts, 1) then
        if d.serverPid == -1 then t == RemoveAt(s.displays, i)
        else |t| == |s.displays| && t[i].status == Zombie && t[i].pid == -1
      else
        |t| == |s.displays| && Streak(t[i].ends) == Streak(d.ends) + 1
        && t[i].status == (if d.serverPid == -1 then NotRunning else Phoenix)
  {
    var d := s.displays[i];
    assert DispOk(d, s.live) && TryOk(d);
    OnlyTracker(s.displays, s.live, i, d.pid);
    StreakGrows(d.ends, SessionEnd(OpenFailed, d.startAttempts));
    var tried := Ended(d, OpenFailed).(startTries := d.startTries + 1);
    assert RemoveAt(s.displays[i := tried], i) == RemoveAt(s.displays, i);
  }

  /** What starting and checking change of a display plays no part. */
  lemma TryOkStays(d: Disp, r: Disp)
    requires TryOk(d) && r.ends == d.ends && r.startTries == d.startTries && (d.status == Zombie ==> r.status == Zombie)
    requires r.origin == d.origin && r.location == d.location && r.lifetime == d.lifetime
    requires r.origin == FromXDMCP ==> r.serverPid == -1
    ensures TryOk(r)
  {
  }

  lemma StartTries(s: Manager, i: nat, c: Choice)
    requires TriesOk(s) && i < |s.displays| && s.displays[i].status != Zombie
    ensures TriesOk(StartDisplay(s, i, c))
  {
    hide Streak, Patient;
    var t := StartDisplay(s, i, c);
    assert TryOk(s.displays[i]);
    forall j | 0 <= j < |t.displays| ensures TryOk(t.displays[j]) {
      if |t.displays| < |s.displays| {
        assert t.displays[j] == s.displays[if j < i then j else j + 1];
      } else if j == i {
        TryOkStays(s.displays[i], t.displays[i]);
      } else {
        assert t.displays[j] == s.displays[j];
      }
    }
  }

  lemma CheckTries(s: Manager, i: nat, c: Choice)
    requires TriesOk(s) && i < |s.displays|
    ensures TriesOk(CheckDisplayStatus(s, i, c))
  {
    hide Streak, Patient, TryOk, StartDisplay;
    var d := s.displays[i];
    assert TryOk(d);
    if d.origin == FromFile {
      if d.state == MissingEntry {
        StopTries(s, i);
      } else {
        TryOkStays(d, d.(state := OldEntry));
        UpdateTries(s, i, d.(state := OldEntry));
        if d.status == NotRunning {
          StartTries(s.(displays := s.displays[i := d.(state := OldEntry)]), i, c);
        }
      }
    }
  }

  lemma StopTries(s: Manager, i: nat)
    requires TriesOk(s) && i < |s.displays|
    ensures TriesOk(Stop(s, i))
  {
    hide Streak, Patient;
    var d := s.displays[i];
    assert TryOk(d);
    UpdateTries(s, i, d.(status := Zombie));
  }

  lemma {:induction false} CheckFromTries(s: Manager, i: nat, k: nat, c: nat -> Choice)
    requires TriesOk(s) && i <= |s.displays|
    ensures TriesOk(CheckFrom(s, i, k, c))
    decreases |s.displays| - i
  {
    hide CheckDisplayStatus, TriesOk;
    if i < |s.displays| {
      CheckLength(s, i, c(k));
      CheckTries(s, i, c(k));
      var nextS := CheckDisplayStatus(s, i, c(k));
      CheckFromTries(nextS, if |nextS.displays| < |s.displays| then i else i + 1, k + 1, c);
    }
  }

  lemma {:induction false} StopFromTries(s: Manager, i: nat)
    requires TriesOk(s) && i <= |s.displays|
    ensures TriesOk(StopFrom(s, i))
    decreases |s.displays| - i
  {
    if i < |s.displays| {
      var nextS := Stop(s, i);
      StopTries(s, i);
      StopFromTries(nextS, if |nextS.displays| < |s.displays| then i else i + 1);
    }
  }

  lemma {:induction false} ScanTries(s: Manager, entries: seq<Entry>)
    requires TriesOk(s)
    ensures TriesOk(ScanServers(s, entries))
    decreases |entries|
  {
    if entries != [] {
      var t := ParseEntry(s, entries[0]);
      forall j | 0 <= j < |t.displays| ensures TryOk(t.displays[j]) {
        assert j < |s.displays| ==> TryOk(s.displays[j]);
        assert 0 < j <= |s.displays| ==> TryOk(s.displays[j - 1]);
      }
      ScanTries(t, entries[1..]);
    }
  }

  lemma MarkAndScanTries(s: Manager, entries: seq<Entry>)
    requires TriesOk(s)
    ensures TriesOk(MarkAndScan(s, entries))
  {
    var t := s.(displays := Marked(s.displays));
    forall j | 0 <= j < |t.displays| ensures TryOk(t.displays[j]) {
      assert TryOk(s.displays[j]);
    }
    ScanTries(t, entries);
  }

  lemma UpdateTries(s: Manager, i: nat, d: Disp)
    requires TriesOk(s) && i < |s.displays|
    ensures TryOk(d) ==> TriesOk(s.(displays := s.displays[i := d]))
    ensures TriesOk(s.(displays := RemoveAt(s.displays, i)))
  {
    forall k | 0 <= k < |s.displays| - 1 ensures TryOk(RemoveAt(s.displays, i)[k]) {
      assert TryOk(s.displays[if k < i then k else k + 1]);
    }
  }

  /** A restart is only decided after a failure below the limit or another end. */
  lemma JudgeTries(d: Disp, status: ExitStatus)
    requires TryOk(d)
    ensures var v := Judge(Ended(d, status), status);
      && (v.RestartIt? ==> v.d.origin == FromFile && v.d.startTries == Streak(v.d.ends) && Patient(v.d.ends))
      && (v.d.origin == FromXDMCP ==> v.StopIt? && v.d.serverPid == -1)
  {
    hide Streak, Patient;
    var e := SessionEnd(status, d.startAttempts);
    StreakGrows(d.ends, e);
    var v := Judge(Ended(d, status), status);
    if v.RestartIt? {
      PatientGrows(d.ends, e);
    }
  }

  lemma SessionExitTries(s: Manager, i: nat, status: ExitStatus)
    requires TriesOk(s) && i < |s.displays|
    ensures TriesOk(SessionExit(s, i, status))
  {
    var d0 := s.displays[i];
    assert TryOk(d0);
    JudgeTries(d0, status);
    var v := Judge(Ended(d0, status), status);
    if v.StopIt? {
      UpdateTries(s, i, v.d.(status := Zombie));
      assert s.displays[i := v.d][i := v.d.(status := Zombie)] == s.displays[i := v.d.(status := Zombie)];
      assert RemoveAt(s.displays[i := v.d], i) == RemoveAt(s.displays, i);
    } else {
      var d := Restarted(v.d, v.forceReserver);
      UpdateTries(s, i, d);
      assert s.displays[i := v.d][i := d] == s.displays[i := d];
    }
  }

  lemma ServerExitTries(s: Manager, i: nat)
    requires TriesOk(s) && i < |s.displays|
    ensures TriesOk(ServerExit(s, i))
  {
    var d := s.displays[i].(serverPid := -1);
    assert TryOk(s.displays[i]);
    UpdateTries(s, i, if d.status == Phoenix then d.(status := NotRunning) else d);
  }

  lemma ExitTries(s: Manager, pid: int, status: ExitStatus)
    requires TriesOk(s)
    ensures TriesOk(Exit(s, pid, status))
  {
    hide SessionExit, ServerExit;
    var s0 := s.(live := s.live - {pid});
    var i, j := FindPid(s.displays, pid), FindServerPid(s.displays, pid);
    if i < |s.displays| {
      SessionExitTries(s0, i, status);
    }
    if j < |s.displays| {
      ServerExitTries(s0, j);
    }
  }

  lemma {:induction false} ReapAllTries(s: Manager, reaps: seq<Reap>)
    requires TriesOk(s)
    ensures TriesOk(ReapAll(s, reaps))
    decreases |reaps|
  {
    if reaps != [] {
      var r := reaps[0];
      if r.rescan.Some? {
        MarkAndScanTries(s, r.rescan.value);
      }
      ExitTries(if r.rescan.Some? then MarkAndScan(s, r.rescan.value) else s, r.pid, r.status);
      ReapAllTries(ReapOne(s, r), reaps[1..]);
    }
  }

  lemma ManageTries(s: Manager, e: Event)
    requires TriesOk(s) && e.ManagePacket?
    ensures TriesOk(Next(s, e))
  {
    var i := FindProto(s.protos, e.from, e.number);
    if s.sockets && i < |s.protos| && s.protos[i].sessionID == e.id && e.name.Some? {
      var k := FindName(s.displays, e.name.value);
      var s0 := if k < |s.displays| then Stop(s, k) else s;
      assert k < |s.displays| ==> TryOk(s.displays[k]);
      var d := NewDisplay(e.name.value, Foreign, Transient, FromXDMCP).(sessionID := e.id, from := e.from, displayNumber := e.number);
      var s1 := s0.(displays := [d] + s0.displays, protos := RemoveAt(s.protos, i));
      assert TriesOk(s0);
      forall j | 0 <= j < |s1.displays| ensures TryOk(s1.displays[j]) {
        assert j > 0 ==> TryOk(s0.displays[j - 1]);
      }
      StartTries(s1, 0, e.choice);
    }
  }

  /**
   Over any run startTries is the number of consecutive failed opens of each display that is
   not given up, and none of its failures has been the max(startAttempts, 1)-th in a row.
   */
  lemma {:induction false} RetryBound(s: Manager, es: seq<Event>)
    requires TriesOk(s)
    ensures TriesOk(Run(s, es))
    decreases |es|
  {
    if es != [] {
      var e := es[0];
      match e {
        case Children(reaps, c) =>
          ReapAllTries(s, reaps);
          CheckFromTries(ReapAll(s, reaps), 0, 0, c);
        case Rescan(entries, c) =>
          MarkAndScanTries(s, entries);
          CheckFromTries(MarkAndScan(s, entries), 0, 0, c);
        case RequestPacket(from, number, now, typesOk, authOk) =>
          assert Next(s, e).displays == s.displays;
        case ManagePacket(from, number, id, name, c) => ManageTries(s, e);
        case Sigterm => StopFromTries(s.(sockets := false), 0);
      }
      RetryBound(Next(s, e), es[1..]);
    }
  }
}
