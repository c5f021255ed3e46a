/**
 The life cycle of session IDs: offered to a proto-display, active as a display, gone.
 */
module DisplaySessions {
  import opened Wrappers
  import opened DisplayModel

  /** The number under which an ID would have been handed out. */
  function Serial(base: nat, id: nat): nat {
    ((id - base) as int) % CARD32
  }

  predicate Issued(s: Manager, id: nat) {
    id < CARD32 && 1 <= Serial(s.base, id) <= s.issued
  }

  /** A remainder from its quotient. */
  lemma RemainderIs(n: int, q: int, r: int)
    requires n == q * CARD32 + r && 0 <= r < CARD32
    ensures n % CARD32 == r
  {
    assert n / CARD32 == q;
  }

  // ---- Which displays carry a session ----

  predicate ByXdmcp(d: Disp) {
    d.origin == FromXDMCP
  }

  /** Displays from Manage packets carry a session, also when the servers file took them over. */
  predicate Carries(d: Disp) {
    d.managed
  }

  predicate FileCarries(d: Disp) {
    !ByXdmcp(d) && Carries(d)
  }

  /** Only displays of the servers file carry no session, and their session ID is 0. */
  ghost predicate Tagged(ds: seq<Disp>) {
    forall i :: 0 <= i < |ds| && !Carries(ds[i]) ==> !ByXdmcp(ds[i]) && ds[i].sessionID == 0
  }

  ghost predicate Carried(ds: seq<Disp>, id: nat) {
    exists i :: 0 <= i < |ds| && Carries(ds[i]) && ds[i].sessionID == id
  }

  ghost predicate TakenOver(ds: seq<Disp>) {
    exists i :: 0 <= i < |ds| && FileCarries(ds[i])
  }

  ghost predicate Offered(ps: seq<Proto>, id: nat) {
    exists i :: 0 <= i < |ps| && ps[i].sessionID == id
  }

  /** The sessions StartDisplay was called for, in order. */
  function Sessions(starts: seq<Start>): seq<nat> {
    if starts == [] then []
    else (if starts[0].managed then [starts[0].sessionID] else []) + Sessions(starts[1..])
  }

  lemma {:induction false} SessionsAppend(a: seq<Start>, b: seq<Start>)
    ensures Sessions(a + b) == Sessions(a) + Sessions(b)
  {
    if a == [] {
      assert a + b == b;
    } else {
      var head := if a[0].managed then [a[0].sessionID] else [];
      assert (a + b)[1..] == a[1..] + b && (a + b)[0] == a[0];
      SessionsAppend(a[1..], b);
      assert head + Sessions(a[1..]) + Sessions(b) == head + (Sessions(a[1..]) + Sessions(b));
    }
  }

  ghost predicate Distinct(xs: seq<nat>) {
    forall i, j :: 0 <= i < j < |xs| ==> xs[i] != xs[j]
  }

  ghost predicate DistinctOffers(ps: seq<Proto>) {
    forall i, j :: 0 <= i < j < |ps| ==> ps[i].sessionID != ps[j].sessionID
  }

  ghost predicate DistinctCarriers(ds: seq<Disp>) {
    forall i, j :: 0 <= i < j < |ds| && Carries(ds[i]) && Carries(ds[j]) ==> ds[i].sessionID != ds[j].sessionID
  }

  /** Live IDs are issued and pairwise distinct; carried ones were started, offered ones not yet. */
  ghost predicate IdInv(s: Manager) {
    && Tagged(s.displays)
    && DistinctCarriers(s.displays)
    && DistinctOffers(s.protos)
    && (forall id :: Offered(s.protos, id) ==> Issued(s, id) && id !in Sessions(s.starts))
    && (forall id :: Carried(s.displays, id) ==> id in Sessions(s.starts))
    && (forall id :: id in Sessions(s.starts) ==> Issued(s, id))
  }

  // ---- Steps that create no session ----

  /** Sessions may end, none is new. */
  ghost predicate KeepsIds(ds: seq<Disp>, r: seq<Disp>) {
    && (forall id :: Carried(r, id) ==> Carried(ds, id))
    && (DistinctCarriers(ds) ==> DistinctCarriers(r))
    && (Tagged(ds) ==> Tagged(r))
  }

  /** Nothing is issued, offered or started. */
  ghost predicate CalmIds(s: Manager, t: Manager) {
    && t.protos == s.protos && t.base == s.base && t.issued == s.issued && t.starts == s.starts
    && KeepsIds(s.displays, t.displays)
  }

  /** And nothing is taken over by the servers file. */
  ghost predicate Calm(s: Manager, t: Manager) {
    CalmIds(s, t) && (TakenOver(t.displays) ==> TakenOver(s.displays))
  }

  lemma CalmHasIds(s: Manager, t: Manager)
    requires Calm(s, t)
    ensures CalmIds(s, t)
  {
  }

  lemma CalmTrans(s: Manager, t: Manager, u: Manager)
    requires CalmIds(s, t) && CalmIds(t, u)
    ensures CalmIds(s, u)
    ensures Calm(s, t) && Calm(t, u) ==> Calm(s, u)
  {
  }

  lemma CalmKeeps(s: Manager, t: Manager)
    requires CalmIds(s, t) && IdInv(s)
    ensures IdInv(t)
  {
    forall id | Offered(t.protos, id) ensures Issued(t, id) {
      assert Offered(s.protos, id);
    }
  }

  lemma UpdateCalm(ds: seq<Disp>, i: nat, d: Disp)
    requires i < |ds| && d.sessionID == ds[i].sessionID && Carries(d) == Carries(ds[i])
    requires ByXdmcp(d) ==> ByXdmcp(ds[i])
    ensures KeepsIds(ds, ds[i := d])
    ensures FileCarries(d) == FileCarries(ds[i]) ==> TakenOver(ds[i := d]) == TakenOver(ds)
  {
    var r := ds[i := d];
    forall id | Carried(r, id) ensures Carried(ds, id) {
      var j :| 0 <= j < |r| && Carries(r[j]) && r[j].sessionID == id;
      assert Carries(ds[j]) && ds[j].sessionID == id;
    }
    if DistinctCarriers(ds) {
      assert forall j :: 0 <= j < |r| ==> Carries(r[j]) == Carries(ds[j]) && r[j].sessionID == ds[j].sessionID;
    }
    if FileCarries(d) == FileCarries(ds[i]) {
      assert forall j :: 0 <= j < |r| ==> FileCarries(r[j]) == FileCarries(ds[j]);
    }
  }

  lemma RemoveCalm(ds: seq<Disp>, i: nat)
    requires i < |ds|
    ensures KeepsIds(ds, RemoveAt(ds, i)) && (TakenOver(RemoveAt(ds, i)) ==> TakenOver(ds))
  {
    var r := RemoveAt(ds, i);
    forall id | Carried(r, id) ensures Carried(ds, id) {
      var j :| 0 <= j < |r| && Carries(r[j]) && r[j].sessionID == id;
      var k := if j < i then j else j + 1;
      assert Carries(ds[k]) && ds[k].sessionID == id;
    }
    if TakenOver(r) {
      var j :| 0 <= j < |r| && FileCarries(r[j]);
      assert FileCarries(ds[if j < i then j else j + 1]);
    }
  }

  lemma StopCalm(s: Manager, i: nat)
    requires i < |s.displays|
    ensures Calm(s, Stop(s, i))
  {
    if s.displays[i].serverPid != -1 {
      UpdateCalm(s.displays, i, s.displays[i].(status := Zombie));
    } else {
      RemoveCalm(s.displays, i);
    }
  }

  lemma ForkCalm(s: Manager, i: nat, want: int)
    requires i < |s.displays|
    ensures Calm(s, ForkSession(s, i, want))
  {
    var pid := Fork(s.live, want);
    if pid != -1 {
      UpdateCalm(s.displays, i, s.displays[i].(pid := pid, status := Running));
    }
  }

  /** Starting a display logs its session once and otherwise creates none. */
  lemma StartCalm(s: Manager, i: nat, c: Choice)
    requires i < |s.displays|
    ensures var d := s.displays[i];
      Calm(s.(starts := s.starts + [Start(d.managed, d.sessionID, d.pid)]), StartDisplay(s, i, c))
  {
    var d0 := s.displays[i];
    var d := d0.(startAttempts := c.startAttempts, terminateServer := c.terminateServer);
    var logged := s.(starts := s.starts + [Start(d.managed, d.sessionID, d.pid)]);
    UpdateCalm(s.displays, i, d);
    var s0 := logged.(displays := s.displays[i := d]);
    assert Calm(logged, s0);
    if d.location == Local && d.serverPid == -1 {
      var server := Fork(s.live, c.server);
      if server == -1 {
        RemoveCalm(s0.displays, i);
        CalmTrans(logged, s0, s0.(displays := RemoveAt(s0.displays, i), failures := s.failures + [d.name]));
      } else {
        UpdateCalm(s.displays, i, d.(serverPid := server));
        var s1 := s0.(displays := s.displays[i := d.(serverPid := server)], live := s.live + {server});
        ForkCalm(s1, i, c.session);
        CalmTrans(logged, s1, ForkSession(s1, i, c.session));
      }
    } else {
      ForkCalm(s0, i, c.session);
      CalmTrans(logged, s0, ForkSession(s0, i, c.session));
    }
  }

  // ---- Sweeps over the list ----

  /** Whether StartDisplays starts the display when it comes to it. */
  predicate Starts(d: Disp) {
    d.origin == FromFile && d.state != MissingEntry && d.status == NotRunning
  }

  /** What StartDisplays starts on a list, in order. */
  function Begun(ds: seq<Disp>): seq<Start> {
    if ds == [] then []
    else (if Starts(ds[0]) then [Start(ds[0].managed, ds[0].sessionID, ds[0].pid)] else []) + Begun(ds[1..])
  }

  lemma CheckCalm(s: Manager, i: nat, c: Choice)
    requires i < |s.displays|
    ensures var d := s.displays[i];
      Calm(s.(starts := s.starts + if Starts(d) then [Start(d.managed, d.sessionID, d.pid)] else []), CheckDisplayStatus(s, i, c))
  {
    hide StartDisplay, Stop;
    var d := s.displays[i];
    assert s.starts + [] == s.starts;
    if d.origin == FromFile {
      if d.state == MissingEntry {
        StopCalm(s, i);
      } else {
        UpdateCalm(s.displays, i, d.(state := OldEntry));
        var s0 := s.(displays := s.displays[i := d.(state := OldEntry)]);
        assert Calm(s, s0);
        if d.status == NotRunning {
          var start := Start(d.managed, d.sessionID, d.pid);
          StartCalm(s0, i, c);
          CalmTrans(s.(starts := s.starts + [start]), s0.(starts := s.starts + [start]), StartDisplay(s0, i, c));
        }
      }
    }
  }

  /** One display is changed or removed. */
  predicate OnlyAt(ds: seq<Disp>, i: nat, r: seq<Disp>)
    requires i < |ds|
  {
    r == RemoveAt(ds, i) || (|r| == |ds| && r == ds[i := r[i]])
  }

  lemma StartOnlyAt(s: Manager, i: nat, c: Choice)
    requires i < |s.displays|
    ensures OnlyAt(s.displays, i, StartDisplay(s, i, c).displays)
  {
    hide RemoveAt;
    var d := s.displays[i].(startAttempts := c.startAttempts, terminateServer := c.terminateServer);
    UpdateRemoved(s.displays, i, d);
  }

  lemma UpdateRemoved(ds: seq<Disp>, i: nat, d: Disp)
    requires i < |ds|
    ensures RemoveAt(ds[i := d], i) == RemoveAt(ds, i)
  {
  }

  lemma CheckOnlyAt(s: Manager, i: nat, c: Choice)
    requires i < |s.displays|
    ensures OnlyAt(s.displays, i, CheckDisplayStatus(s, i, c).displays)
  {
    hide RemoveAt, StartDisplay;
    var d := s.displays[i].(state := OldEntry);
    StartOnlyAt(s.(displays := s.displays[i := d]), i, c);
    UpdateRemoved(s.displays, i, d);
  }

  /** What is behind a display is not touched by checking it. */
  lemma CheckRest(s: Manager, i: nat, c: Choice)
    requires i < |s.displays|
    ensures var ds := CheckDisplayStatus(s, i, c).displays;
      var next := if |ds| < |s.displays| then i else i + 1;
      next <= |ds| && ds[next..] == s.displays[i..][1..]
  {
    hide CheckDisplayStatus;
    CheckOnlyAt(s, i, c);
    assert s.displays[i..][1..] == s.displays[i + 1..];
  }

  /** A sweep visits every display as it was before. */
  lemma {:induction false} CheckFromCalm(s: Manager, i: nat, k: nat, c: nat -> Choice)
    requires i <= |s.displays|
    ensures Calm(s.(starts := s.starts + Begun(s.displays[i..])), CheckFrom(s, i, k, c))
    decreases |s.displays| - i
  {
    hide CheckDisplayStatus, Calm;
    if i < |s.displays| {
      var rest := s.displays[i..];
      CheckLength(s, i, c(k));
      CheckCalm(s, i, c(k));
      CheckRest(s, i, c(k));
      var nextS := CheckDisplayStatus(s, i, c(k));
      var nextI := if |nextS.displays| < |s.displays| then i else i + 1;
      CheckFromCalm(nextS, nextI, k + 1, c);
      var one := if Starts(rest[0]) then [Start(rest[0].managed, rest[0].sessionID, rest[0].pid)] else [];
      CalmLogged(s.(starts := s.starts + one), nextS, Begun(rest[1..]));
      assert s.starts + one + Begun(rest[1..]) == s.starts + Begun(rest);
      CalmBoth(s.(starts := s.starts + Begun(rest)), nextS.(starts := nextS.starts + Begun(rest[1..])), CheckFrom(nextS, nextI, k + 1, c));
    } else {
      CalmSelf(s);
      assert s.starts + Begun(s.displays[i..]) == s.starts;
    }
  }

  lemma CalmSelf(s: Manager)
    ensures Calm(s, s)
  {
  }

  lemma CalmBoth(s: Manager, t: Manager, u: Manager)
    requires Calm(s, t) && Calm(t, u)
    ensures Calm(s, u)
  {
  }

  lemma CalmLogged(s: Manager, t: Manager, more: seq<Start>)
    requires Calm(s, t)
    ensures Calm(s.(starts := s.starts + more), t.(starts := t.starts + more))
  {
  }

  lemma {:induction false} StopFromCalm(s: Manager, i: nat)
    requires i <= |s.displays|
    ensures Calm(s, StopFrom(s, i))
    decreases |s.displays| - i
  {
    if i < |s.displays| {
      StopCalm(s, i);
      var nextS := Stop(s, i);
      var nextI := if |nextS.displays| < |s.displays| then i else i + 1;
      StopFromCalm(nextS, nextI);
      CalmTrans(s, nextS, StopFrom(nextS, nextI));
    }
  }

  // ---- The servers file ----

  /** No line of the servers file names a display managed over XDMCP. */
  ghost predicate Clear(ds: seq<Disp>, entries: seq<Entry>) {
    forall i, k :: 0 <= i < |ds| && 0 <= k < |entries| && ByXdmcp(ds[i]) ==> ds[i].name != entries[k].name
  }

  lemma ParseCalm(s: Manager, e: Entry)
    ensures CalmIds(s, ParseEntry(s, e))
    ensures Clear(s.displays, [e]) ==> Calm(s, ParseEntry(s, e))
  {
    var i := FindName(s.displays, e.name);
    if i < |s.displays| {
      UpdateCalm(s.displays, i,
        s.displays[i].(state := OldEntry, location := e.location, lifetime := Permanent, origin := FromFile));
      assert [e][0] == e;
    } else {
      PrependCalm(s.displays, NewDisplay(e.name, e.location, Permanent, FromFile));
    }
  }

  lemma PrependCalm(ds: seq<Disp>, d: Disp)
    requires !Carries(d) && !ByXdmcp(d) && d.sessionID == 0
    ensures KeepsIds(ds, [d] + ds) && (TakenOver([d] + ds) ==> TakenOver(ds))
  {
    var r := [d] + ds;
    forall id | Carried(r, id) ensures Carried(ds, id) {
      var j :| 0 <= j < |r| && Carries(r[j]) && r[j].sessionID == id;
      assert Carries(ds[j - 1]) && ds[j - 1].sessionID == id;
    }
    if TakenOver(r) {
      var j :| 0 <= j < |r| && FileCarries(r[j]);
      assert FileCarries(ds[j - 1]);
    }
    if DistinctCarriers(ds) {
      forall a, b | 0 <= a < b < |r| && Carries(r[a]) && Carries(r[b]) ensures r[a].sessionID != r[b].sessionID {
        assert r[a] == ds[a - 1] && r[b] == ds[b - 1];
      }
    }
  }

  lemma {:induction false} ScanCalm(s: Manager, entries: seq<Entry>)
    ensures CalmIds(s, ScanServers(s, entries))
    ensures Clear(s.displays, entries) ==> Calm(s, ScanServers(s, entries))
    decreases |entries|
  {
    if entries != [] {
      var e, rest := entries[0], entries[1..];
      ParseCalm(s, e);
      var nextS := ParseEntry(s, e);
      ScanCalm(nextS, rest);
      CalmTrans(s, nextS, ScanServers(nextS, rest));
      if Clear(s.displays, entries) {
        assert Clear(s.displays, [e]);
        ClearStays(s, e, rest);
      }
    }
  }

  lemma ClearStays(s: Manager, e: Entry, rest: seq<Entry>)
    requires Clear(s.displays, [e] + rest)
    ensures Clear(ParseEntry(s, e).displays, rest)
  {
    var ds := ParseEntry(s, e).displays;
    forall i, k | 0 <= i < |ds| && 0 <= k < |rest| && ByXdmcp(ds[i])
      ensures ds[i].name != rest[k].name
    {
      var j := if FindName(s.displays, e.name) < |s.displays| then i else i - 1;
      assert ByXdmcp(s.displays[j]) && s.displays[j].name == ds[i].name && rest[k] == ([e] + rest)[k + 1];
    }
  }

  lemma MarkCalm(s: Manager, entries: seq<Entry>)
    ensures var nextS := s.(displays := Marked(s.displays));
      Calm(s, nextS) && (Clear(s.displays, entries) ==> Clear(nextS.displays, entries))
  {
    var ds, marked := s.displays, Marked(s.displays);
    assert forall j :: 0 <= j < |ds| ==>
      ByXdmcp(marked[j]) == ByXdmcp(ds[j]) && Carries(marked[j]) == Carries(ds[j])
      && marked[j].sessionID == ds[j].sessionID && marked[j].name == ds[j].name;
    forall id | Carried(marked, id) ensures Carried(ds, id) {
      var j :| 0 <= j < |marked| && Carries(marked[j]) && marked[j].sessionID == id;
      assert Carries(ds[j]) && ds[j].sessionID == id;
    }
    if TakenOver(marked) {
      var j :| 0 <= j < |marked| && FileCarries(marked[j]);
      assert FileCarries(ds[j]);
    }
  }

  lemma MarkAndScanCalm(s: Manager, entries: seq<Entry>)
    ensures CalmIds(s, MarkAndScan(s, entries))
    ensures Clear(s.displays, entries) ==> Calm(s, MarkAndScan(s, entries))
  {
    hide Calm, Clear, CalmIds;
    var nextS := s.(displays := Marked(s.displays));
    MarkCalm(s, entries);
    CalmHasIds(s, nextS);
    ScanCalm(nextS, entries);
    CalmTrans(s, nextS, ScanServers(nextS, entries));
  }

  // ---- Exits ----

  lemma SessionExitCalm(s: Manager, i: nat, status: ExitStatus)
    requires i < |s.displays|
    ensures Calm(s, SessionExit(s, i, status))
  {
    var v := Judge(Ended(s.displays[i], status), status);
    UpdateCalm(s.displays, i, v.d);
    var s1 := s.(displays := s.displays[i := v.d]);
    assert Calm(s, s1);
    if v.StopIt? {
      StopCalm(s1, i);
      CalmTrans(s, s1, Stop(s1, i));
    } else {
      UpdateCalm(s1.displays, i, Restarted(v.d, v.forceReserver));
      CalmTrans(s, s1, Restart(s1, i, v.forceReserver));
    }
  }

  lemma ServerExitCalm(s: Manager, i: nat)
    requires i < |s.displays|
    ensures Calm(s, ServerExit(s, i))
  {
    var d := s.displays[i].(serverPid := -1);
    match d.status
    case Zombie => RemoveCalm(s.displays, i);
    case Phoenix => UpdateCalm(s.displays, i, d.(status := NotRunning));
    case Running => UpdateCalm(s.displays, i, d);
    case NotRunning => UpdateCalm(s.displays, i, d);
  }

  lemma ExitCalm(s: Manager, pid: int, status: ExitStatus)
    ensures Calm(s, Exit(s, pid, status))
  {
    hide SessionExit, ServerExit;
    var s0 := s.(live := s.live - {pid});
    assert Calm(s, s0);
    var i, j := FindPid(s.displays, pid), FindServerPid(s.displays, pid);
    if pid > 0 && i < |s.displays| {
      SessionExitCalm(s0, i, status);
      CalmTrans(s, s0, SessionExit(s0, i, status));
    } else if pid > 0 && j < |s.displays| {
      ServerExitCalm(s0, j);
      CalmTrans(s, s0, ServerExit(s0, j));
    }
  }

  /** The rescans inside WaitForChild meet no name clash. */
  ghost predicate ClearReaps(s: Manager, reaps: seq<Reap>)
    decreases |reaps|
  {
    reaps == []
    || ((reaps[0].rescan.Some? ==> Clear(s.displays, reaps[0].rescan.value)) && ClearReaps(ReapOne(s, reaps[0]), reaps[1..]))
  }

  lemma {:induction false} ReapAllCalm(s: Manager, reaps: seq<Reap>)
    ensures CalmIds(s, ReapAll(s, reaps))
    ensures ClearReaps(s, reaps) ==> Calm(s, ReapAll(s, reaps))
    decreases |reaps|
  {
    hide MarkAndScan, Exit;
    if reaps != [] {
      var r := reaps[0];
      var s0 := if r.rescan.Some? then MarkAndScan(s, r.rescan.value) else s;
      if r.rescan.Some? {
        MarkAndScanCalm(s, r.rescan.value);
      }
      ExitCalm(s0, r.pid, r.status);
      CalmTrans(s, s0, ReapOne(s, r));
      ReapAllCalm(ReapOne(s, r), reaps[1..]);
      CalmTrans(s, ReapOne(s, r), ReapAll(s, reaps));
    }
  }

  ghost predicate ClearEvent(s: Manager, e: Event) {
    match e
    case Children(reaps, _) => ClearReaps(s, reaps)
    case Rescan(entries, _) => Clear(s.displays, entries)
    case _ => true
  }

  predicate IsPacket(e: Event) {
    e.RequestPacket? || e.ManagePacket?
  }

  /** The manager when StartDisplays begins its sweep; without a sweep the list it meets is empty. */
  function BeforeSweep(s: Manager, e: Event): Manager {
    match e
    case Children(reaps, _) => ReapAll(s, reaps)
    case Rescan(entries, _) => MarkAndScan(s, entries)
    case _ => s.(displays := [])
  }

  lemma NextCalm(s: Manager, e: Event)
    requires !IsPacket(e)
    ensures var u := BeforeSweep(s, e);
      && CalmIds(s, u)
      && CalmIds(s.(starts := s.starts + Begun(u.displays)), Next(s, e))
      && (ClearEvent(s, e) ==> Calm(s, u) && Calm(s.(starts := s.starts + Begun(u.displays)), Next(s, e)))
  {
    hide ReapAll, MarkAndScan, CheckFrom, StopFrom;
    var u := BeforeSweep(s, e);
    match e
    case Children(reaps, c) =>
      ReapAllCalm(s, reaps);
      SweepCalm(s, u, c);
    case Rescan(entries, c) =>
      MarkAndScanCalm(s, entries);
      SweepCalm(s, u, c);
    case Sigterm =>
      StopFromCalm(s.(sockets := false), 0);
      CalmTrans(s, s.(sockets := false), Next(s, e));
      assert s.starts + Begun([]) == s.starts;
  }

  lemma SweepCalm(s: Manager, u: Manager, c: nat -> Choice)
    requires CalmIds(s, u)
    ensures CalmIds(s.(starts := s.starts + Begun(u.displays)), StartDisplays(u, c))
    ensures Calm(s, u) ==> Calm(s.(starts := s.starts + Begun(u.displays)), StartDisplays(u, c))
  {
    hide CheckFrom;
    CheckFromCalm(u, 0, 0, c);
    assert u.displays[0..] == u.displays;
    var more := Begun(u.displays);
    CalmTrans(s.(starts := s.starts + more), u.(starts := u.starts + more), StartDisplays(u, c));
  }

  // ---- Packets ----

  lemma {:induction false} TimeoutOffers(ps: seq<Proto>, now: int)
    ensures forall p :: p in TimeoutProtos(ps, now) ==> p in ps && p.date >= Cutoff(now)
    ensures forall p :: p in ps && p.date >= Cutoff(now) ==> p in TimeoutProtos(ps, now)
  {
    if ps != [] {
      TimeoutOffers(ps[1..], now);
    }
  }

  lemma {:induction false} TimeoutDistinct(ps: seq<Proto>, now: int)
    requires DistinctOffers(ps)
    ensures DistinctOffers(TimeoutProtos(ps, now))
  {
    if ps != [] {
      var rest := TimeoutProtos(ps[1..], now);
      TimeoutDistinct(ps[1..], now);
      TimeoutOffers(ps[1..], now);
      forall j | 0 <= j < |rest| ensures rest[j].sessionID != ps[0].sessionID {
        assert rest[j] in ps[1..];
        var k :| 0 <= k < |ps[1..]| && ps[1..][k] == rest[j];
        assert ps[k + 1] == rest[j];
      }
      if ps[0].date >= Cutoff(now) {
        var r := [ps[0]] + rest;
        assert TimeoutProtos(ps, now) == r;
        forall a, b | 0 <= a < b < |r| ensures r[a].sessionID != r[b].sessionID {
          assert r[b] == rest[b - 1] && (a > 0 ==> r[a] == rest[a - 1]);
        }
      } else {
        assert TimeoutProtos(ps, now) == rest;
      }
    }
  }

  lemma TimeoutIds(ps: seq<Proto>, now: int)
    ensures forall id :: Offered(TimeoutProtos(ps, now), id) ==> Offered(ps, id)
  {
    TimeoutOffers(ps, now);
    var r := TimeoutProtos(ps, now);
    forall id | Offered(r, id) ensures Offered(ps, id) {
      var j :| 0 <= j < |r| && r[j].sessionID == id;
      assert r[j] in ps;
      var k :| 0 <= k < |ps| && ps[k] == r[j];
    }
  }

  /** Offers may disappear, and one ID never issued before may be offered. */
  lemma OfferIds(s: Manager, p: Proto, others: seq<Proto>)
    requires IdInv(s) && s.issued + 1 < CARD32 && p.sessionID == SessionIDOf(s.base, s.issued + 1)
    requires forall id :: Offered(others, id) ==> Offered(s.protos, id)
    requires DistinctOffers(others)
    ensures var t := s.(issued := s.issued + 1, protos := [p] + others);
      IdInv(t) && forall id :: Offered(t.protos, id) ==> Offered(s.protos, id) || (!Issued(s, id) && Issued(t, id))
    ensures IdInv(s.(issued := s.issued + 1, protos := others))
  {
    var t := s.(issued := s.issued + 1, protos := [p] + others);
    assert !Issued(s, p.sessionID) && Issued(t, p.sessionID);
    forall id | Offered(t.protos, id) ensures Offered(others, id) || id == p.sessionID {
      var j :| 0 <= j < |t.protos| && t.protos[j].sessionID == id;
      if j > 0 {
        assert others[j - 1].sessionID == id;
      }
    }
    forall a, b | 0 <= a < b < |t.protos| ensures t.protos[a].sessionID != t.protos[b].sessionID {
      if a == 0 {
        assert Offered(others, others[b - 1].sessionID);
      } else {
        assert others[a - 1] == t.protos[a] && others[b - 1] == t.protos[b];
      }
    }
  }

  /** A request moves at most one fresh ID into the offers. */
  lemma RequestIds(s: Manager, from: Address, number: nat, now: int, typesOk: bool, authOk: bool)
    requires IdInv(s) && RequestRespond(s, from, number, now, typesOk, authOk).0.issued < CARD32
    ensures var t := RequestRespond(s, from, number, now, typesOk, authOk).0;
      && IdInv(t) && t.base == s.base && t.issued >= s.issued
      && (forall id :: Offered(t.protos, id) ==> Offered(s.protos, id) || (!Issued(s, id) && Issued(t, id)))
  {
    var i := FindProto(s.protos, from, number);
    if typesOk && i < |s.protos| && !authOk {
      var r := RemoveAt(s.protos, i);
      forall id | Offered(r, id) ensures Offered(s.protos, id) {
        var j :| 0 <= j < |r| && r[j].sessionID == id;
        assert s.protos[if j < i then j else j + 1].sessionID == id;
      }
    } else if typesOk && i == |s.protos| {
      TimeoutIds(s.protos, now);
      TimeoutDistinct(s.protos, now);
      var id := SessionIDOf(s.base, s.issued + 1);
      OfferIds(s, Proto(from, number, now, id), TimeoutProtos(s.protos, now));
    }
  }

  /** A Manage packet starts at most one session, and only one that was on offer. */
  lemma ManageIds(s: Manager, from: Address, number: nat, id: nat, name: Option<string>, c: Choice)
    requires IdInv(s)
    ensures var t := Manage(s, from, number, id, name, c).0;
      && IdInv(t) && t.base == s.base && t.issued == s.issued
      && (TakenOver(t.displays) ==> TakenOver(s.displays))
      && (forall x :: Offered(t.protos, x) ==> Offered(s.protos, x))
      && (forall x :: Carried(t.displays, x) ==> Carried(s.displays, x) || (x == id && Offered(s.protos, id)))
      && (Sessions(t.starts) == Sessions(s.starts)
          || (Sessions(t.starts) == Sessions(s.starts) + [id] && Offered(s.protos, id) && !Offered(t.protos, id)))
  {
    hide StartDisplay, Stop;
    var i := FindProto(s.protos, from, number);
    if i < |s.protos| && s.protos[i].sessionID == id && name.Some? {
      var k := FindName(s.displays, name.value);
      var s0 := if k < |s.displays| then Stop(s, k) else s;
      if k < |s.displays| {
        StopCalm(s, k);
      }
      CalmKeeps(s, s0);
      assert Offered(s.protos, id);
      var d := NewDisplay(name.value, Foreign, Transient, FromXDMCP).(sessionID := id, from := from, displayNumber := number);
      var s1 := s0.(displays := [d] + s0.displays, protos := RemoveAt(s.protos, i));
      var start := Start(true, id, -1);
      var s2 := s1.(starts := s1.starts + [start]);
      SessionsAppend(s1.starts, [start]);
      assert Sessions([start]) == [id];
      NewSessionIds(s0, i, id, d);
      StartCalm(s1, 0, c);
      CalmKeeps(s2, StartDisplay(s1, 0, c));
    }
  }

  lemma NewSessionIds(s: Manager, i: nat, id: nat, d: Disp)
    requires IdInv(s) && i < |s.protos| && s.protos[i].sessionID == id
    requires ByXdmcp(d) && Carries(d) && d.sessionID == id
    ensures var start := Start(true, id, -1);
      var t := s.(displays := [d] + s.displays, protos := RemoveAt(s.protos, i), starts := s.starts + [start]);
      && IdInv(t) && !Offered(t.protos, id)
      && (TakenOver(t.displays) ==> TakenOver(s.displays))
      && (forall x :: Offered(t.protos, x) ==> Offered(s.protos, x))
      && (forall x :: Carried(t.displays, x) ==> Carried(s.displays, x) || x == id)
  {
    hide DistinctOffers, DistinctCarriers, Tagged, TakenOver, RemoveAt;
    var start := Start(true, id, -1);
    SessionsAppend(s.starts, [start]);
    assert Sessions([start]) == [id];
    assert Offered(s.protos, id);
    OfferGone(s.protos, i);
    NewCarrier(s.displays, d);
    assert !Carried(s.displays, id);
  }

  lemma OfferGone(ps: seq<Proto>, i: nat)
    requires DistinctOffers(ps) && i < |ps|
    ensures DistinctOffers(RemoveAt(ps, i))
    ensures forall x :: Offered(RemoveAt(ps, i), x) ==> Offered(ps, x) && x != ps[i].sessionID
  {
    var r := RemoveAt(ps, i);
    forall x | Offered(r, x) ensures Offered(ps, x) && x != ps[i].sessionID {
      var j :| 0 <= j < |r| && r[j].sessionID == x;
      assert ps[if j < i then j else j + 1].sessionID == x;
    }
  }

  lemma NewCarrier(ds: seq<Disp>, d: Disp)
    requires ByXdmcp(d) && Carries(d)
    ensures forall x :: Carried([d] + ds, x) ==> Carried(ds, x) || x == d.sessionID
    ensures TakenOver([d] + ds) ==> TakenOver(ds)
    ensures Tagged(ds) ==> Tagged([d] + ds)
    ensures DistinctCarriers(ds) && !Carried(ds, d.sessionID) ==> DistinctCarriers([d] + ds)
  {
    var r := [d] + ds;
    forall x | Carried(r, x) ensures Carried(ds, x) || x == d.sessionID {
      var j :| 0 <= j < |r| && Carries(r[j]) && r[j].sessionID == x;
      if j > 0 {
        assert Carries(ds[j - 1]) && ds[j - 1].sessionID == x;
      }
    }
    if TakenOver(r) {
      var j :| 0 <= j < |r| && FileCarries(r[j]);
      assert FileCarries(ds[j - 1]);
    }
    if DistinctCarriers(ds) && !Carried(ds, d.sessionID) {
      forall a, b | 0 <= a < b < |r| && Carries(r[a]) && Carries(r[b]) ensures r[a].sessionID != r[b].sessionID {
        assert r[b] == ds[b - 1] && (a > 0 ==> r[a] == ds[a - 1]);
      }
    }
  }

  // ---- The life cycle ----

  /** 0 not issued yet, 1 offered, 2 carried by a display, 3 gone. */
  ghost function Phase(s: Manager, id: nat): nat {
    if Offered(s.protos, id) then 1 else if Carried(s.displays, id) then 2 else if Issued(s, id) then 3 else 0
  }

  /** A sweep starts again what the servers file took over with its session and what does not run. */
  predicate Again(d: Disp) {
    FileCarries(d) && Starts(d)
  }

  ghost predicate StartsAgain(s: Manager, e: Event) {
    exists d :: d in BeforeSweep(s, e).displays && Again(d)
  }

  /** The sessions of a sweep are carried by its displays, and there is one exactly if one starts again. */
  lemma {:induction false} SweepSessions(ds: seq<Disp>)
    ensures forall id :: id in Sessions(Begun(ds)) ==> Carried(ds, id)
    ensures Sessions(Begun(ds)) == [] <==> forall d :: d in ds ==> !Again(d)
  {
    if ds != [] {
      var rest := ds[1..];
      SweepSessions(rest);
      var one := if Starts(ds[0]) then [Start(ds[0].managed, ds[0].sessionID, ds[0].pid)] else [];
      SessionsAppend(one, Begun(rest));
      assert Starts(ds[0]) ==> one[1..] == [];
      assert Sessions(one) == if Again(ds[0]) then [ds[0].sessionID] else [];
      forall id | id in Sessions(Begun(ds)) ensures Carried(ds, id) {
        if id in Sessions(Begun(rest)) {
          var j :| 0 <= j < |rest| && Carries(rest[j]) && rest[j].sessionID == id;
          assert Carries(ds[j + 1]) && ds[j + 1].sessionID == id;
        } else {
          assert Carries(ds[0]) && ds[0].sessionID == id;
        }
      }
      assert forall d :: d in ds <==> d == ds[0] || d in rest;
    }
  }

  lemma DistinctAppend(xs: seq<nat>, ys: seq<nat>)
    requires Distinct(xs) && forall y :: y in ys ==> y in xs
    ensures Distinct(xs + ys) <==> ys == []
  {
    if ys == [] {
      assert xs + ys == xs;
    } else {
      assert ys[0] in xs;
      var i :| 0 <= i < |xs| && xs[i] == ys[0];
      assert (xs + ys)[i] == (xs + ys)[|xs|];
    }
  }

  /** Exactly the sweep that starts a taken-over session again makes an event start a session twice. */
  lemma SweepOnce(s: Manager, e: Event)
    requires IdInv(s) && !IsPacket(e)
    ensures IdInv(Next(s, e)) && Sessions(s.starts) <= Sessions(Next(s, e).starts)
    ensures Distinct(Sessions(s.starts)) ==> (Distinct(Sessions(Next(s, e).starts)) <==> !StartsAgain(s, e))
  {
    hide Next, BeforeSweep;
    var u := BeforeSweep(s, e);
    NextCalm(s, e);
    CalmKeeps(s, u);
    SweepSessions(u.displays);
    SessionsAppend(s.starts, Begun(u.displays));
    var logged := s.(starts := s.starts + Begun(u.displays));
    var more := Sessions(Begun(u.displays));
    forall id | id in more ensures id in Sessions(s.starts) {
      assert Carried(s.displays, id);
    }
    assert IdInv(logged) by {
      assert forall id :: id in Sessions(logged.starts) <==> id in Sessions(s.starts);
      assert forall id :: Issued(logged, id) == Issued(s, id);
    }
    CalmKeeps(logged, Next(s, e));
    if Distinct(Sessions(s.starts)) {
      DistinctAppend(Sessions(s.starts), more);
    }
  }

  /** One event: the invariant, the phases and the exact condition. */
  lemma PhaseStep(s: Manager, e: Event, id: nat)
    requires IdInv(s) && Next(s, e).issued < CARD32
    ensures var t := Next(s, e);
      && IdInv(t) && t.issued >= s.issued && Phase(s, id) <= Phase(t, id)
      && Sessions(s.starts) <= Sessions(t.starts)
      && (Distinct(Sessions(s.starts)) ==> (Distinct(Sessions(t.starts)) <==> !StartsAgain(s, e)))
  {
    hide Next, Sessions, BeforeSweep, StartsAgain;
    if IsPacket(e) {
      PacketOnce(s, e, id);
    } else {
      SweepOnce(s, e);
      NextCalm(s, e);
      CalmPhase(s, BeforeSweep(s, e), Next(s, e), id);
    }
  }

  lemma CalmPhase(s: Manager, u: Manager, t: Manager, id: nat)
    requires IdInv(s) && IdInv(t)
    requires CalmIds(s.(starts := s.starts + Begun(u.displays)), t)
    ensures t.issued >= s.issued && Phase(s, id) <= Phase(t, id)
  {
    assert Carried(s.displays, id) ==> Issued(s, id);
  }

  /** A packet starts no session twice. */
  lemma PacketOnce(s: Manager, e: Event, id: nat)
    requires IdInv(s) && IsPacket(e) && Next(s, e).issued < CARD32
    ensures var t := Next(s, e);
      && IdInv(t) && t.issued >= s.issued && Phase(s, id) <= Phase(t, id)
      && Sessions(s.starts) <= Sessions(t.starts)
      && (Distinct(Sessions(s.starts)) ==> Distinct(Sessions(t.starts)))
    ensures !StartsAgain(s, e)
  {
    hide RequestRespond, Manage;
    match e {
      case RequestPacket(from, number, now, typesOk, authOk) =>
        if s.sockets {
          RequestIds(s, from, number, now, typesOk, authOk);
          RequestKeepsDisplays(s, e);
        }
      case ManagePacket(from, number, sid, name, c) =>
        if s.sockets {
          ManageIds(s, from, number, sid, name, c);
          assert Offered(s.protos, sid) ==> sid !in Sessions(s.starts);
        }
    }
    assert Offered(s.protos, id) ==> Issued(s, id);
    assert Carried(s.displays, id) ==> Issued(s, id);
  }

  lemma IssuedStep(s: Manager, e: Event)
    ensures s.issued <= Next(s, e).issued
  {
    if !IsPacket(e) {
      NextCalm(s, e);
    } else if e.ManagePacket? && s.sockets {
      ManageIssues(s, e);
    }
  }

  lemma {:induction false} IssuedGrows(s: Manager, es: seq<Event>)
    ensures s.issued <= Run(s, es).issued
    decreases |es|
  {
    if es != [] {
      IssuedStep(s, es[0]);
      IssuedGrows(Next(s, es[0]), es[1..]);
    }
  }

  lemma ManageIssues(s: Manager, e: Event)
    requires e.ManagePacket?
    ensures Next(s, e).issued == s.issued
  {
    hide StartDisplay, Stop;
    if s.sockets && e.name.Some? {
      var k := FindName(s.displays, e.name.value);
      if k < |s.displays| {
        StopCalm(s, k);
      }
      var s0 := if k < |s.displays| then Stop(s, k) else s;
      var i := FindProto(s.protos, e.from, e.number);
      if i < |s.protos| {
        var d := NewDisplay(e.name.value, Foreign, Transient, FromXDMCP).(sessionID := e.id, from := e.from, displayNumber := e.number);
        StartCalm(s0.(displays := [d] + s0.displays, protos := RemoveAt(s.protos, i)), 0, e.choice);
      }
    }
  }

  /**
   Over any run of duplicated, reordered and forged packets, child exits and rescans in
   which fewer than 2^32 IDs are issued: IDs only move from offered to carried to gone.
   */
  lemma {:induction false} PhaseRun(s: Manager, es: seq<Event>, id: nat)
    requires IdInv(s) && Run(s, es).issued < CARD32
    ensures IdInv(Run(s, es)) && Phase(s, id) <= Phase(Run(s, es), id)
    decreases |es|
  {
    hide Next, IdInv, Phase;
    if es != [] {
      var t := Next(s, es[0]);
      IssuedGrows(t, es[1..]);
      PhaseStep(s, es[0], id);
      PhaseRun(t, es[1..], id);
    }
  }

  lemma InitialIds(base: nat, sockets: bool)
    ensures IdInv(Initial(base, sockets)) && Sessions(Initial(base, sockets).starts) == []
  {
  }

  // ---- Started once ----

  /** Some sweep of the run starts a session again. */
  ghost predicate AgainInRun(s: Manager, es: seq<Event>)
    decreases |es|
  {
    es != [] && (StartsAgain(s, es[0]) || AgainInRun(Next(s, es[0]), es[1..]))
  }

  lemma {:induction false} OnceInRun(s: Manager, es: seq<Event>)
    requires IdInv(s) && Run(s, es).issued < CARD32
    ensures Sessions(s.starts) <= Sessions(Run(s, es).starts)
    ensures Distinct(Sessions(s.starts)) ==> (Distinct(Sessions(Run(s, es).starts)) <==> !AgainInRun(s, es))
    decreases |es|
  {
    hide Next, IdInv, Sessions, StartsAgain;
    if es != [] {
      var t := Next(s, es[0]);
      IssuedGrows(t, es[1..]);
      PhaseStep(s, es[0], 0);
      OnceInRun(t, es[1..]);
      PrefixDistinct(Sessions(t.starts), Sessions(Run(s, es).starts));
    }
  }

  lemma PrefixDistinct(xs: seq<nat>, ys: seq<nat>)
    requires xs <= ys
    ensures Distinct(ys) ==> Distinct(xs)
  {
  }

  /**
   Each session is passed to StartDisplay at most once over a whole run, exactly if no sweep
   of the run comes to a display that the servers file names, that carries a session and does
   not run.
   */
  lemma StartedOnceIff(base: nat, sockets: bool, es: seq<Event>)
    requires Run(Initial(base, sockets), es).issued < CARD32
    ensures Distinct(Sessions(Run(Initial(base, sockets), es).starts)) <==> !AgainInRun(Initial(base, sockets), es)
  {
    InitialIds(base, sockets);
    OnceInRun(Initial(base, sockets), es);
  }

  /** No servers file that is read during the run names a display managed over XDMCP. */
  ghost predicate ClearRun(s: Manager, es: seq<Event>)
    decreases |es|
  {
    es == [] || (ClearEvent(s, es[0]) && ClearRun(Next(s, es[0]), es[1..]))
  }

  /** Without such a line nothing is taken over and nothing starts again. */
  lemma {:induction false} ClearRunsOnce(s: Manager, es: seq<Event>)
    requires IdInv(s) && Run(s, es).issued < CARD32 && !TakenOver(s.displays) && ClearRun(s, es)
    ensures !AgainInRun(s, es)
    decreases |es|
  {
    hide Next, IdInv, ClearEvent;
    if es != [] {
      var e, t := es[0], Next(s, es[0]);
      IssuedGrows(t, es[1..]);
      PhaseStep(s, e, 0);
      ClearStep(s, e);
      ClearRunsOnce(t, es[1..]);
    }
  }

  lemma ClearStep(s: Manager, e: Event)
    requires IdInv(s) && !TakenOver(s.displays) && ClearEvent(s, e)
    ensures !StartsAgain(s, e) && !TakenOver(Next(s, e).displays)
  {
    hide RequestRespond, Manage, ReapAll, MarkAndScan;
    if IsPacket(e) {
      if e.ManagePacket? && s.sockets {
        ManageIds(s, e.from, e.number, e.id, e.name, e.choice);
      } else if e.RequestPacket? && s.sockets {
        RequestKeepsDisplays(s, e);
      }
    } else {
      NextCalm(s, e);
      var ds := BeforeSweep(s, e).displays;
      forall d | d in ds ensures !Again(d) {
        var i :| 0 <= i < |ds| && ds[i] == d;
        assert FileCarries(d) ==> TakenOver(ds);
      }
    }
  }

  lemma RequestKeepsDisplays(s: Manager, e: Event)
    requires e.RequestPacket?
    ensures var t := RequestRespond(s, e.from, e.number, e.now, e.typesOk, e.authOk).0;
      t.displays == s.displays && t.starts == s.starts
  {
  }

  // ---- KeepAlive ----

  /** init_session_id: seconds modulo 2^15, times 16000. */
  predicate InitialBase(base: nat) {
    base % 16000 == 0 && base / 16000 <= 0x7fff
  }

  /** ID 0 is handed out only when the numbers wrap around. */
  lemma ZeroIssuedIff(s: Manager)
    requires InitialBase(s.base)
    ensures Issued(s, 0) <==> s.base > 0 && s.base + s.issued >= CARD32
  {
    assert 0 <= s.base <= 0x7fff * 16000 < CARD32;
    if s.base > 0 {
      RemainderIs(0 - s.base, -1, CARD32 - s.base);
      assert Serial(s.base, 0) == CARD32 - s.base;
    } else {
      RemainderIs(0, 0, 0);
      assert Serial(s.base, 0) == 0;
    }
  }

  /** The first display of the list with this session ID. */
  predicate IsFirst(ds: seq<Disp>, i: int, id: nat) {
    0 <= i < |ds| && ds[i].sessionID == id && forall j :: 0 <= j < i ==> ds[j].sessionID != id
  }

  /**
   ALIVE says running for an ID exactly when the display that carries it is running. ID 0 is
   also that of the displays of the servers file: for it the first of them answers.
   */
  lemma AliveIff(s: Manager, from: Address, number: nat, id: nat)
    requires IdInv(s)
    ensures id != 0 ==> (Alive(s, from, number, id).0
      <==> exists i :: 0 <= i < |s.displays| && Carries(s.displays[i]) && s.displays[i].sessionID == id && s.displays[i].status == Running)
    ensures id == 0 ==> (Alive(s, from, number, 0).0
      <==> exists i :: IsFirst(s.displays, i, 0) && s.displays[i].status == Running)
  {
    var i := FindSession(s.displays, id);
    assert i < |s.displays| ==> IsFirst(s.displays, i, id);
    if i < |s.displays| && id != 0 {
      assert Carries(s.displays[i]);
      forall j | 0 <= j < |s.displays| && s.displays[j].sessionID == id ensures j == i {
        assert Carries(s.displays[j]);
      }
    }
  }

  // ---- The name clash ----

  /** A line hands a session to the servers file exactly if it names the XDMCP display that carries it. */
  lemma TakesOver(s: Manager, e: Entry)
    ensures var i := FindName(s.displays, e.name);
      TakenOver(ParseEntry(s, e).displays)
      <==> TakenOver(s.displays) || (i < |s.displays| && ByXdmcp(s.displays[i]) && Carries(s.displays[i]))
  {
    var i := FindName(s.displays, e.name);
    var t := ParseEntry(s, e).displays;
    if i < |s.displays| {
      if TakenOver(s.displays) {
        var j :| 0 <= j < |s.displays| && FileCarries(s.displays[j]);
        assert FileCarries(t[j]);
      }
      if TakenOver(t) {
        var j :| 0 <= j < |t| && FileCarries(t[j]);
        assert j != i ==> FileCarries(s.displays[j]);
      }
      if ByXdmcp(s.displays[i]) && Carries(s.displays[i]) {
        assert FileCarries(t[i]);
      }
    } else {
      if TakenOver(s.displays) {
        var j :| 0 <= j < |s.displays| && FileCarries(s.displays[j]);
        assert FileCarries(t[j + 1]);
      }
      if TakenOver(t) {
        var j :| 0 <= j < |t| && FileCarries(t[j]);
        assert FileCarries(s.displays[j - 1]);
      }
    }
  }

  /** With such a line one session is started twice, whatever its ID is. */
  lemma ClashStartsTwice(base: nat, c: nat -> Choice)
    requires c(0) == Choice(-1, 8, 1, false)
    ensures var id := SessionIDOf(base, 1);
      var es := [RequestPacket("a", 0, 5000, true, true),
                 ManagePacket("a", 0, id, Some("a:0"), Choice(-1, 7, 1, false)),
                 Children([Reap(7, Remanage, Some([Entry("a:0", Foreign)]))], c)];
      Sessions(Run(Initial(base, true), es).starts) == [id, id]
  {
    hide Next, Initial, NewDisplay, Sessions, SessionIDOf;
    var id := SessionIDOf(base, 1);
    var e0 := RequestPacket("a", 0, 5000, true, true);
    var e1 := ManagePacket("a", 0, id, Some("a:0"), Choice(-1, 7, 1, false));
    var e2 := Children([Reap(7, Remanage, Some([Entry("a:0", Foreign)]))], c);
    var d := NewDisplay("a:0", Foreign, Transient, FromXDMCP).(sessionID := id, from := "a");
    var s0 := Initial(base, true);
    var s1 := Next(s0, e0);
    ClashRequest(base);
    var s2 := Next(s1, e1);
    ClashManage(s1, base, id, d);
    var s4 := Next(s2, e2);
    ClashChildren(s2, id, d, c);
    var es := [e0, e1, e2];
    assert es[1..] == [e1, e2] && [e1, e2][1..] == [e2] && [e2][1..] == [];
    assert Run(s4, []) == s4;
    assert Run(s2, [e2]) == s4;
    assert Run(s1, [e1, e2]) == s4;
    assert Run(s0, es) == s4;
    ClashStarts(id);
  }

  lemma ClashStarts(id: nat)
    ensures Sessions([Start(true, id, -1)] + [Start(true, id, -1)]) == [id, id]
  {
    SessionsAppend([Start(true, id, -1)], [Start(true, id, -1)]);
    assert Sessions([Start(true, id, -1)]) == [id];
  }

  lemma ClashRequest(base: nat)
    ensures Next(Initial(base, true), RequestPacket("a", 0, 5000, true, true))
         == Initial(base, true).(issued := 1, protos := [Proto("a", 0, 5000, SessionIDOf(base, 1))])
  {
  }

  lemma ClashChildren(s: Manager, id: nat, d: Disp, c: nat -> Choice)
    requires d == NewDisplay("a:0", Foreign, Transient, FromXDMCP).(sessionID := id, from := "a")
    requires s.displays == [d.(startAttempts := 1, pid := 7, status := Running)] && s.live == {7}
    requires c(0) == Choice(-1, 8, 1, false)
    ensures Next(s, Children([Reap(7, Remanage, Some([Entry("a:0", Foreign)]))], c)).starts
         == s.starts + [Start(true, id, -1)]
  {
    hide StartDisplays;
    var r := Reap(7, Remanage, Some([Entry("a:0", Foreign)]));
    var t := ReapOne(s, r);
    var f := d.(startAttempts := 1, status := NotRunning, state := OldEntry, lifetime := Permanent, origin := FromFile,
      ends := [SessionEnd(Remanage, 1)]);
    ClashReap(s, r, f);
    assert [r][1..] == [] && ReapAll(s, [r]) == ReapAll(t, []) == t;
    ClashRestart(t, f, c);
  }

  lemma ClashReap(s: Manager, r: Reap, f: Disp)
    requires r == Reap(7, Remanage, Some([Entry("a:0", Foreign)])) && s.live == {7} && |s.displays| == 1
    requires var d := s.displays[0]; d.name == "a:0" && d.pid == 7 && d.serverPid == -1 && d.status == Running
    requires f == Ended(s.displays[0], Remanage).(startTries := 0, status := NotRunning, state := OldEntry,
      location := Foreign, lifetime := Permanent, origin := FromFile)
    ensures var t := ReapOne(s, r);
      t.displays == [f] && t.live == {} && t.starts == s.starts
  {
    var e := Entry("a:0", Foreign);
    var s1 := s.(displays := Marked(s.displays));
    assert FindName(s1.displays, "a:0") == 0;
    assert [e][1..] == [] && ScanServers(s1, [e]) == ScanServers(ParseEntry(s1, e), []);
    var s2 := ParseEntry(s1, e);
    assert FindPid(s2.displays, 7) == 0;
  }

  lemma ClashManage(s: Manager, base: nat, id: nat, d: Disp)
    requires s == Initial(base, true).(issued := 1, protos := [Proto("a", 0, 5000, id)])
    requires d == NewDisplay("a:0", Foreign, Transient, FromXDMCP).(sessionID := id, from := "a")
    ensures var t := Next(s, ManagePacket("a", 0, id, Some("a:0"), Choice(-1, 7, 1, false)));
      && t.displays == [d.(startAttempts := 1, pid := 7, status := Running)]
      && t.starts == [Start(true, id, -1)] && t.live == {7}
  {
    assert FindProto(s.protos, "a", 0) == 0;
    assert FindName(s.displays, "a:0") == 0;
  }

  lemma ClashRestart(s: Manager, f: Disp, c: nat -> Choice)
    requires s.displays == [f] && f.origin == FromFile && f.state == OldEntry && f.status == NotRunning && f.location == Foreign
    requires c(0).session > 0 && c(0).session !in s.live
    ensures StartDisplays(s, c).starts == s.starts + [Start(f.managed, f.sessionID, f.pid)]
  {
    var t := CheckDisplayStatus(s, 0, c(0));
    assert |t.displays| == 1 && t.starts == s.starts + [Start(f.managed, f.sessionID, f.pid)];
    CheckLength(s, 0, c(0));
    assert CheckFrom(s, 0, 0, c) == CheckFrom(t, 1, 1, c) == t;
  }
}
