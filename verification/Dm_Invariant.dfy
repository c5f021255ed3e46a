/**
 The display invariant: what holds of every display after every event of every run.
 */
module DisplayInvariant {
  import opened Wrappers
  import opened DisplayModel

  /** The pids a display answers for. */
  function Tracked(d: Disp): set<int> {
    {d.pid, d.serverPid} - {-1}
  }

  ghost predicate DispOk(d: Disp, live: set<int>) {
    && Tracked(d) <= live
    && (d.pid == d.serverPid ==> d.pid == -1)
    && (d.status == Running ==> d.pid != -1)
    && (d.status == NotRunning || d.status == Phoenix ==> d.pid == -1)
    && (d.status == Phoenix || d.status == Zombie ==> d.serverPid != -1)
    && (d.origin == FromXDMCP ==> d.serverPid == -1 && d.location == Foreign && d.lifetime == Transient)
  }

  ghost predicate ListOk(ds: seq<Disp>, live: set<int>) {
    && (forall p :: p in live ==> p > 0)
    && (forall i :: 0 <= i < |ds| ==> DispOk(ds[i], live))
    && (forall i, j :: 0 <= i < j < |ds| ==> Tracked(ds[i]) !! Tracked(ds[j]))
  }

  /** StartDisplay was never called for a display that still had a session child. */
  ghost predicate StartsOk(starts: seq<Start>) {
    forall i :: 0 <= i < |starts| ==> starts[i].childBefore == -1
  }

  ghost predicate Inv(s: Manager) {
    ListOk(s.displays, s.live) && StartsOk(s.starts)
  }

  // ---- List surgery ----

  /** A display changes in place; new pids are new children. */
  lemma UpdateOk(ds: seq<Disp>, live: set<int>, i: nat, d: Disp, nextLive: set<int>)
    requires ListOk(ds, live) && i < |ds|
    requires live <= nextLive && (forall p :: p in nextLive ==> p > 0)
    requires DispOk(d, nextLive) && Tracked(d) <= Tracked(ds[i]) + (nextLive - live)
    ensures ListOk(ds[i := d], nextLive)
  {
    var r := ds[i := d];
    forall j | 0 <= j < |r| ensures DispOk(r[j], nextLive) {
      assert DispOk(ds[j], live);
    }
    forall j, k | 0 <= j < k < |r| ensures Tracked(r[j]) !! Tracked(r[k]) {
      assert DispOk(ds[j], live) && DispOk(ds[k], live) && DispOk(ds[i], live);
      assert Tracked(ds[j]) !! Tracked(ds[k]);
      assert j != i ==> (if j < i then Tracked(ds[j]) !! Tracked(ds[i]) else Tracked(ds[i]) !! Tracked(ds[j]));
      assert k != i ==> (if k < i then Tracked(ds[k]) !! Tracked(ds[i]) else Tracked(ds[i]) !! Tracked(ds[k]));
    }
  }

  lemma RemoveOk(ds: seq<Disp>, live: set<int>, i: nat)
    requires ListOk(ds, live) && i < |ds|
    ensures ListOk(RemoveAt(ds, i), live)
  {
  }

  lemma PrependOk(ds: seq<Disp>, live: set<int>, d: Disp)
    requires ListOk(ds, live) && d.pid == -1 && d.serverPid == -1 && DispOk(d, live)
    ensures ListOk([d] + ds, live)
  {
    var r := [d] + ds;
    forall i, j | 0 <= i < j < |r| ensures Tracked(r[i]) !! Tracked(r[j]) {
      assert i > 0 ==> Tracked(ds[i - 1]) !! Tracked(ds[j - 1]);
    }
  }

  /** A reaped pid that no display tracks any more leaves the live children. */
  lemma ForgetOk(ds: seq<Disp>, live: set<int>, pid: int)
    requires ListOk(ds, live)
    requires forall i :: 0 <= i < |ds| ==> pid !in Tracked(ds[i])
    ensures ListOk(ds, live - {pid})
  {
    forall i | 0 <= i < |ds| ensures DispOk(ds[i], live - {pid}) {
      assert DispOk(ds[i], live);
    }
  }

  // ---- One display ----

  lemma StopOk(s: Manager, i: nat)
    requires Inv(s) && i < |s.displays|
    ensures Inv(Stop(s, i))
  {
    var d := s.displays[i];
    assert DispOk(d, s.live);
    if d.serverPid != -1 {
      UpdateOk(s.displays, s.live, i, d.(status := Zombie), s.live);
    } else {
      RemoveOk(s.displays, s.live, i);
    }
  }

  lemma ForkSessionOk(s: Manager, i: nat, want: int)
    requires Inv(s) && i < |s.displays|
    requires s.displays[i].status == NotRunning
    ensures Inv(ForkSession(s, i, want))
  {
    var d, pid := s.displays[i], Fork(s.live, want);
    assert DispOk(d, s.live);
    if pid != -1 {
      UpdateOk(s.displays, s.live, i, d.(pid := pid, status := Running), s.live + {pid});
    }
  }

  lemma StartOk(s: Manager, i: nat, c: Choice)
    requires Inv(s) && i < |s.displays| && s.displays[i].status == NotRunning
    ensures Inv(StartDisplay(s, i, c))
  {
    var d0 := s.displays[i];
    assert DispOk(d0, s.live);
    var d := d0.(startAttempts := c.startAttempts, terminateServer := c.terminateServer);
    UpdateOk(s.displays, s.live, i, d, s.live);
    var s0 := s.(displays := s.displays[i := d], starts := s.starts + [Start(d.managed, d.sessionID, d.pid)]);
    assert Inv(s0);
    if d.location == Local && d.serverPid == -1 {
      var server := Fork(s.live, c.server);
      if server == -1 {
        RemoveOk(s0.displays, s0.live, i);
      } else {
        var d1, live1 := d.(serverPid := server), s.live + {server};
        UpdateOk(s.displays, s.live, i, d1, live1);
        ForkSessionOk(s0.(displays := s.displays[i := d1], live := live1), i, c.session);
      }
    } else {
      ForkSessionOk(s0, i, c.session);
    }
  }

  lemma CheckOk(s: Manager, i: nat, c: Choice)
    requires Inv(s) && i < |s.displays|
    ensures Inv(CheckDisplayStatus(s, i, c))
  {
    var d := s.displays[i];
    assert DispOk(d, s.live);
    if d.origin == FromFile {
      if d.state == MissingEntry {
        StopOk(s, i);
      } else {
        UpdateOk(s.displays, s.live, i, d.(state := OldEntry), s.live);
        var s0 := s.(displays := s.displays[i := d.(state := OldEntry)]);
        if d.status == NotRunning {
          StartOk(s0, i, c);
        }
      }
    }
  }

  lemma {:induction false} CheckFromOk(s: Manager, i: nat, k: nat, c: nat -> Choice)
    requires Inv(s) && i <= |s.displays|
    ensures Inv(CheckFrom(s, i, k, c))
    decreases |s.displays| - i
  {
    if i < |s.displays| {
      CheckLength(s, i, c(k));
      CheckOk(s, i, c(k));
      var nextS := CheckDisplayStatus(s, i, c(k));
      CheckFromOk(nextS, if |nextS.displays| < |s.displays| then i else i + 1, k + 1, c);
    }
  }

  lemma {:induction false} StopFromOk(s: Manager, i: nat)
    requires Inv(s) && i <= |s.displays|
    ensures Inv(StopFrom(s, i))
    decreases |s.displays| - i
  {
    if i < |s.displays| {
      StopOk(s, i);
      var nextS := Stop(s, i);
      StopFromOk(nextS, if |nextS.displays| < |s.displays| then i else i + 1);
    }
  }

  // ---- The servers file ----

  lemma {:induction false} ScanOk(s: Manager, entries: seq<Entry>)
    requires Inv(s)
    ensures Inv(ScanServers(s, entries))
    decreases |entries|
  {
    if entries != [] {
      ScanOk(ParseEntry(s, entries[0]), entries[1..]);
    }
  }

  lemma MarkAndScanOk(s: Manager, entries: seq<Entry>)
    requires Inv(s)
    ensures Inv(MarkAndScan(s, entries))
  {
    ScanOk(s.(displays := Marked(s.displays)), entries);
  }

  // ---- Reaped children ----

  /** The display whose child died no longer tracks the pid; nobody else did. */
  lemma ReapedOk(ds: seq<Disp>, live: set<int>, i: nat, pid: int, d: Disp)
    requires ListOk(ds, live) && i < |ds| && pid in Tracked(ds[i])
    requires Tracked(d) <= Tracked(ds[i]) - {pid} && DispOk(d, live)
    ensures ListOk(ds[i := d], live - {pid})
  {
    UpdateOk(ds, live, i, d, live);
    var r := ds[i := d];
    forall j | 0 <= j < |r| ensures pid !in Tracked(r[j]) {
      assert j < i ==> Tracked(ds[j]) !! Tracked(ds[i]);
      assert j > i ==> Tracked(ds[i]) !! Tracked(ds[j]);
    }
    ForgetOk(r, live, pid);
  }

  /** A verdict changes the count of tries at most; no zombie is restarted. */
  lemma JudgeKeeps(d: Disp, status: ExitStatus)
    ensures Judge(d, status).d == d.(startTries := Judge(d, status).d.startTries)
    ensures d.status == Zombie ==> Judge(d, status).StopIt?
  {
  }

  lemma MemberOk(ds: seq<Disp>, live: set<int>, i: nat)
    requires ListOk(ds, live) && i < |ds|
    ensures DispOk(ds[i], live)
  {
  }

  lemma SessionExitOk(s: Manager, i: nat, status: ExitStatus)
    requires Inv(s) && i < |s.displays| && s.displays[i].pid != -1
    ensures Inv(SessionExit(s.(live := s.live - {s.displays[i].pid}), i, status))
  {
    hide ListOk, Judge, RemoveAt;
    var d0 := s.displays[i];
    var pid, live := d0.pid, s.live - {d0.pid};
    assert DispOk(d0, s.live) by { MemberOk(s.displays, s.live, i); }
    JudgeKeeps(Ended(d0, status), status);
    match Judge(Ended(d0, status), status)
    case StopIt(d) =>
      if d.serverPid != -1 {
        ReapedOk(s.displays, s.live, i, pid, d.(status := Zombie));
        assert s.displays[i := d][i := d.(status := Zombie)] == s.displays[i := d.(status := Zombie)];
      } else {
        ReapedOk(s.displays, s.live, i, pid, d.(status := NotRunning));
        RemoveOk(s.displays[i := d.(status := NotRunning)], live, i);
        assert RemoveAt(s.displays[i := d.(status := NotRunning)], i) == RemoveAt(s.displays[i := d], i);
      }
    case RestartIt(d, force) =>
      ReapedOk(s.displays, s.live, i, pid, Restarted(d, force));
      assert s.displays[i := d][i := Restarted(d, force)] == s.displays[i := Restarted(d, force)];
  }

  lemma ServerExitOk(s: Manager, i: nat)
    requires Inv(s) && i < |s.displays| && s.displays[i].serverPid != -1
    ensures Inv(ServerExit(s.(live := s.live - {s.displays[i].serverPid}), i))
  {
    var d0 := s.displays[i];
    var d := d0.(serverPid := -1);
    assert DispOk(d0, s.live);
    match d0.status
    case Zombie =>
      ReapedOk(s.displays, s.live, i, d0.serverPid, d.(status := NotRunning, pid := -1));
      RemoveOk(s.displays[i := d.(status := NotRunning, pid := -1)], s.live - {d0.serverPid}, i);
      assert RemoveAt(s.displays[i := d.(status := NotRunning, pid := -1)], i) == RemoveAt(s.displays, i);
    case Phoenix => ReapedOk(s.displays, s.live, i, d0.serverPid, d.(status := NotRunning));
    case Running => ReapedOk(s.displays, s.live, i, d0.serverPid, d);
    case NotRunning => ReapedOk(s.displays, s.live, i, d0.serverPid, d);
  }

  lemma ExitOk(s: Manager, pid: int, status: ExitStatus)
    requires Inv(s)
    ensures Inv(Exit(s, pid, status))
  {
    if pid > 0 {
      var i, j := FindPid(s.displays, pid), FindServerPid(s.displays, pid);
      if i < |s.displays| {
        SessionExitOk(s, i, status);
      } else if j < |s.displays| {
        ServerExitOk(s, j);
      } else {
        ForgetOk(s.displays, s.live, pid);
      }
    }
  }

  lemma {:induction false} ReapAllOk(s: Manager, reaps: seq<Reap>)
    requires Inv(s)
    ensures Inv(ReapAll(s, reaps))
    decreases |reaps|
  {
    if reaps != [] {
      var r := reaps[0];
      if r.rescan.Some? {
        MarkAndScanOk(s, r.rescan.value);
      }
      ExitOk(if r.rescan.Some? then MarkAndScan(s, r.rescan.value) else s, r.pid, r.status);
      ReapAllOk(ReapOne(s, r), reaps[1..]);
    }
  }

  // ---- Packets, steps, runs ----

  lemma ManageOk(s: Manager, from: Address, number: nat, id: nat, name: Option<string>, c: Choice)
    requires Inv(s)
    ensures Inv(Manage(s, from, number, id, name, c).0)
  {
    var i := FindProto(s.protos, from, number);
    if i < |s.protos| && s.protos[i].sessionID == id && name.Some? {
      var k := FindName(s.displays, name.value);
      if k < |s.displays| {
        StopOk(s, k);
      }
      var s0 := if k < |s.displays| then Stop(s, k) else s;
      var d := NewDisplay(name.value, Foreign, Transient, FromXDMCP).(sessionID := id, from := from, displayNumber := number);
      PrependOk(s0.displays, s0.live, d);
      StartOk(s0.(displays := [d] + s0.displays, protos := RemoveAt(s.protos, i)), 0, c);
    }
  }

  /** Every event keeps the display invariant. */
  lemma NextOk(s: Manager, e: Event)
    requires Inv(s)
    ensures Inv(Next(s, e))
  {
    match e
    case Children(reaps, c) =>
      ReapAllOk(s, reaps);
      CheckFromOk(ReapAll(s, reaps), 0, 0, c);
    case Rescan(entries, c) =>
      MarkAndScanOk(s, entries);
      CheckFromOk(MarkAndScan(s, entries), 0, 0, c);
    case RequestPacket(from, number, now, typesOk, authOk) =>
    case ManagePacket(from, number, id, name, c) => ManageOk(s, from, number, id, name, c);
    case Sigterm => StopFromOk(s.(sockets := false), 0);
  }

  /**
   In every reachable state: running displays have a live session child, displays that are
   not running or wait for their server have none, zombies and phoenixes have a server,
   no pid belongs to two displays, and StartDisplay never met a display with a child.
   */
  lemma {:induction false} RunOk(s: Manager, es: seq<Event>)
    requires Inv(s)
    ensures Inv(Run(s, es))
    decreases |es|
  {
    if es != [] {
      NextOk(s, es[0]);
      RunOk(Next(s, es[0]), es[1..]);
    }
  }

  lemma Reachable(base: nat, sockets: bool, es: seq<Event>)
    ensures Inv(Run(Initial(base, sockets), es))
  {
    RunOk(Initial(base, sockets), es);
  }
}
