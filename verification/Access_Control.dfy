/**
 The access file in use: the matcher as a loop, the scan of the host lists with the calls it
 makes, and the four questions asked about a client.
 */
module AccessControl {

  import opened Wrappers
  import opened CStrings
  import opened AccessGlob
  import opened AccessLists

  /** Character i of a C string; behind the last one is a NUL. */
  function At(s: string, i: nat): char
    requires i <= |s|
  {
    if i < |s| then s[i] else '\0'
  }

  predicate CString(s: string) {
    '\0' !in s
  }

  /** patternMatch: None where the program would read on behind the end of the strings. */
  method PatternMatch(s: string, p: string) returns (r: Option<bool>)
    requires CString(s) && CString(p)
    ensures r == match Matches(s, p) case Match => Some(true) case NoMatch => Some(false) case Overrun => None
    decreases |p|
  {
    var i, j := 0, 0;
    while true
      invariant 0 <= i <= |s| && 0 <= j <= |p|
      invariant Matches(s, p) == Matches(s[i..], p[j..])
      decreases |p| - j
    {
      var c := At(s, i);
      var d := At(p, j);
      j := j + 1;
      if d == '*' {
        if At(p, j) == '\0' {
          return Some(true);
        }
        ghost var start := i;
        assert p[j - 1..][1..] == p[j..];
        while i < |s|
          invariant start <= i <= |s|
          invariant Suffixes(s[start..], p[j..]) == Suffixes(s[i..], p[j..])
        {
          var r1 := PatternMatch(s[i..], p[j..]);
          if r1 != Some(false) {
            return r1;
          }
          i := i + 1;
        }
        return Some(false);
      } else if d == '?' {
        if c == '\0' {
          return Some(false);
        }
      } else if d == '\0' {
        return Some(c == '\0');
      } else {
        if d == '\\' {
          d := At(p, j);
          j := j + 1;
        }
        if ToLower(d) != ToLower(c) {
          return Some(false);
        }
        if c == '\0' {
          return None;
        }
      }
      i := i + 1;
    }
  }

  /** Where the matcher stays within its strings; OverrunIff says exactly when. */
  predicate Safe(s: string, p: string) {
    CString(s) && CString(p) && Matches(s, p) != Overrun
  }

  function ClientName(c: Client): string {
    if c.name.Some? then c.name.value else ""
  }

  // ---- The comparisons a scan makes, each of them safe ----

  predicate ScanSafe(db: Database, hosts: seq<HostEntry>, depth: nat)
    requires depth <= MAX_DEPTH
    decreases MAX_DEPTH - depth, 2, |hosts|
  {
    hosts == [] || (HostSafe(db, hosts[0], depth) && ScanSafe(db, hosts[1..], depth))
  }

  predicate HostSafe(db: Database, h: HostEntry, depth: nat)
    requires depth <= MAX_DEPTH
    decreases MAX_DEPTH - depth, 1
  {
    h.HostAlias? && depth < MAX_DEPTH ==> ExpandSafe(db, db, h.name, depth)
  }

  predicate ExpandSafe(db: Database, rest: Database, alias: string, depth: nat)
    requires depth < MAX_DEPTH
    decreases MAX_DEPTH - depth, 0, |rest| + 1
  {
    rest == [] || (EntrySafe(db, rest[0], alias, depth) && ExpandSafe(db, rest[1..], alias, depth))
  }

  predicate EntrySafe(db: Database, d: DisplayEntry, alias: string, depth: nat)
    requires depth < MAX_DEPTH
    decreases MAX_DEPTH - depth, 0, 0
  {
    d.kind.Alias? ==> Safe(alias, d.kind.name) && (Names(alias, d) ==> ScanSafe(db, d.hosts, depth + 1))
  }

  /** A search for entries without hosts skips the others first; one for entries with hosts compares every pattern. */
  predicate Compared(d: DisplayEntry, hosted: bool) {
    d.kind.Pattern? && (hosted || d.hosts == [])
  }

  /** Up to the first suitable entry, with or without hosts, behind which nothing is compared. */
  predicate ClientSafe(c: Client, db: Database, hosted: bool) {
    db == [] ||
    ( && (Compared(db[0], hosted) ==> Safe(ClientName(c), db[0].kind.pattern))
      && ((Suits(db[0], c) && (db[0].hosts != []) == hosted) || ClientSafe(c, db[1..], hosted)))
  }

  /** Whether the hosts of the entry for the client are scanned: by the chooser, or for forwarding. */
  predicate Scanned(c: Client, db: Database, chooser: bool) {
    var d := FirstEntry(db, true, c);
    d.Some? && !d.value.notAllowed && d.value.chooser == chooser
  }

  /** The hosts of the entry for the client. */
  predicate HostsSafe(c: Client, db: Database) {
    var d := FirstEntry(db, true, c);
    d.Some? ==> ScanSafe(db, d.value.hosts, 0)
  }

  // ---- Databases in which every comparison is safe ----

  predicate NamesAreStrings(hosts: seq<HostEntry>) {
    forall h | h in hosts :: h.HostAlias? ==> CString(h.name)
  }

  /** No alias of the database ends in an unescaped backslash. */
  predicate ClosedNames(db: Database) {
    forall d | d in db :: NamesAreStrings(d.hosts) && (d.kind.Alias? ==> CString(d.kind.name) && Closed(d.kind.name))
  }

  lemma ClosedIsSafe(s: string, p: string)
    requires CString(s) && CString(p) && Closed(p)
    ensures Safe(s, p)
  {
    hide Matches, Closed;
    OverrunIff(s, p);
  }

  /** A database without such names is scanned safely, whatever list the scan begins with. */
  lemma {:induction false} ClosedScans(db: Database, hosts: seq<HostEntry>, depth: nat)
    requires ClosedNames(db) && NamesAreStrings(hosts) && depth <= MAX_DEPTH
    ensures ScanSafe(db, hosts, depth)
    decreases MAX_DEPTH - depth, 1, |hosts|
  {
    if hosts != [] {
      ClosedScans(db, hosts[1..], depth);
      if hosts[0].HostAlias? && depth < MAX_DEPTH {
        assert hosts[0] in hosts;
        ClosedExpands(db, db, hosts[0].name, depth);
      }
    }
  }

  lemma {:induction false} ClosedExpands(db: Database, rest: Database, alias: string, depth: nat)
    requires ClosedNames(db) && ClosedNames(rest) && CString(alias) && depth < MAX_DEPTH
    ensures ExpandSafe(db, rest, alias, depth)
    decreases MAX_DEPTH - depth, 0, |rest|
  {
    hide Matches, Closed, Safe;
    if rest != [] {
      var d := rest[0];
      assert d in rest;
      ClosedExpands(db, rest[1..], alias, depth);
      if d.kind.Alias? {
        ClosedIsSafe(alias, d.kind.name);
      }
      ClosedScans(db, d.hosts, depth + 1);
    }
  }

  method IsMatch(s: string, p: string) returns (r: bool)
    requires Safe(s, p)
    ensures r <==> Matches(s, p) == Match
  {
    var m := PatternMatch(s, p);
    r := m == Some(true);
  }

  /** The database and the calls made to the function passed to the scan. */
  class AccessDatabase {

    var database: Database
    var calls: seq<Target>
    const localAddress: Address

    constructor (db: Database, local: Address)
      ensures database == db && calls == [] && localAddress == local
    {
      database, calls, localAddress := db, [], local;
    }

    method ScanHostlist(hosts: seq<HostEntry>, depth: nat, broadcast: bool) returns (haveLocalhost: bool)
      requires depth <= MAX_DEPTH && ScanSafe(database, hosts, depth)
      modifies this`calls
      ensures Found(calls, haveLocalhost)
           == Also(Found(old(calls), false), Scan(database, hosts, localAddress, broadcast, depth))
      decreases MAX_DEPTH - depth, 2
    {
      hide Scan, Also, Expand, HostSafe;
      haveLocalhost := false;
      for i := 0 to |hosts|
        invariant ScanSafe(database, hosts[i..], depth)
        invariant Also(Found(calls, haveLocalhost), Scan(database, hosts[i..], localAddress, broadcast, depth))
               == Also(Found(old(calls), false), Scan(database, hosts, localAddress, broadcast, depth))
      {
        var h := hosts[i];
        assert hosts[i..][0] == h && hosts[i..][1..] == hosts[i + 1..];
        ScanStep(database, hosts, i, localAddress, broadcast, depth, Found(calls, haveLocalhost));
        haveLocalhost := ScanHost(h, depth, broadcast, haveLocalhost);
      }
      NothingLeft(Found(calls, haveLocalhost), database, hosts[|hosts|..], localAddress, broadcast, depth);
    }

    /** The switch in the loop of scanHostlist. */
    method ScanHost(h: HostEntry, depth: nat, broadcast: bool, have: bool) returns (haveLocalhost: bool)
      requires depth <= MAX_DEPTH && HostSafe(database, h, depth)
      modifies this`calls
      ensures Found(calls, haveLocalhost)
           == Also(Found(old(calls), have), OneHost(database, h, localAddress, broadcast, depth))
      decreases MAX_DEPTH - depth, 1
    {
      hide Scan, Expand;
      haveLocalhost := have;
      match h
      case HostAlias(name) =>
        var found := IndirectAlias(name, depth, broadcast);
        if found {
          haveLocalhost := true;
        }
      case HostAddress(a) =>
        if a == localAddress {
          haveLocalhost := true;
        } else {
          calls := calls + [Host(a)];
        }
      case HostBroadcast =>
        if broadcast {
          calls := calls + [Everyone];
        }
    }

    method IndirectAlias(alias: string, depth: nat, broadcast: bool) returns (haveLocalhost: bool)
      requires depth <= MAX_DEPTH && (depth < MAX_DEPTH ==> ExpandSafe(database, database, alias, depth))
      modifies this`calls
      ensures Found(calls, haveLocalhost)
           == Also(Found(old(calls), false), if depth == MAX_DEPTH then Found([], false)
                   else Expand(database, database, alias, localAddress, broadcast, depth))
      decreases MAX_DEPTH - depth, 0
    {
      hide Scan, Also, Expand, Matches, ScanSafe;
      haveLocalhost := false;
      if depth == MAX_DEPTH {
        NoneFound(Found(calls, false));
        return;
      }
      for i := 0 to |database|
        invariant ExpandSafe(database, database[i..], alias, depth)
        invariant Also(Found(calls, haveLocalhost), Expand(database, database[i..], alias, localAddress, broadcast, depth))
               == Also(Found(old(calls), false), Expand(database, database, alias, localAddress, broadcast, depth))
      {
        var d := database[i];
        assert database[i..][0] == d && database[i..][1..] == database[i + 1..];
        ExpandStep(database, database, i, alias, localAddress, broadcast, depth, Found(calls, haveLocalhost));
        NoneFound(Found(calls, haveLocalhost));
        if d.kind.Alias? {
          var named := IsMatch(alias, d.kind.name);
          if named {
            ghost var before := calls;
            var have := ScanHostlist(d.hosts, depth + 1, broadcast);
            AlsoAlready(before, haveLocalhost, Found(calls, have),
              Scan(database, d.hosts, localAddress, broadcast, depth + 1));
            if have {
              haveLocalhost := true;
            }
          }
        }
      }
      NothingExpanded(Found(calls, haveLocalhost), database, database[|database|..], alias, localAddress, broadcast, depth);
    }

    /** The loop the four questions share. */
    method Select(c: Client, hosted: bool) returns (r: Option<DisplayEntry>)
      requires ClientSafe(c, database, hosted)
      ensures r == FirstEntry(database, hosted, c)
    {
      hide Matches;
      for i := 0 to |database|
        invariant ClientSafe(c, database[i..], hosted)
        invariant FirstEntry(database, hosted, c) == FirstEntry(database[i..], hosted, c)
      {
        var d := database[i];
        assert database[i..][0] == d && database[i..][1..] == database[i + 1..];
        if hosted || d.hosts == [] {
          var suits := false;
          match d.kind {
            case Alias(_) =>
            case Pattern(p) => suits := IsMatch(ClientName(c), p);
            case Direct(a, t) => suits := t == c.connectionType && a == c.address;
          }
          assert suits == Suits(d, c);
          if suits && (d.hosts != []) == hosted {
            return Some(d);
          }
        }
      }
      return None;
    }

    method AcceptableDisplayAddress(c: Client, query: Query, noAccessFile: bool) returns (ok: bool)
      requires noAccessFile || query == IndirectQuery || ClientSafe(c, database, false)
      ensures ok == (noAccessFile || Acceptable(database, c, query))
    {
      if noAccessFile {
        return true;
      }
      if query == IndirectQuery {
        return true;
      }
      var d := Select(c, false);
      return d.Some? && !d.value.notAllowed && (if query == BroadcastQuery then !d.value.notBroadcast else true);
    }

    method ForEachMatchingIndirectHost(c: Client, choice: Option<Address>) returns (haveLocalhost: bool)
      requires ClientSafe(c, database, true) && (Scanned(c, database, false) ==> HostsSafe(c, database))
      modifies this`calls
      ensures Found(calls, haveLocalhost)
           == Also(Found(old(calls), false), IndirectHosts(database, c, localAddress, choice))
    {
      haveLocalhost := false;
      var d := Select(c, true);
      if d.None? || d.value.notAllowed {
        return;
      }
      if d.value.chooser {
        if choice.None? || choice.value == localAddress {
          haveLocalhost := true;
        } else {
          calls := calls + [Host(choice.value)];
        }
      } else {
        haveLocalhost := ScanHostlist(d.value.hosts, 0, false);
      }
    }

    method UseChooser(c: Client, choice: Option<Address>) returns (use: bool)
      requires ClientSafe(c, database, true)
      ensures use == UsesChooser(database, c, choice)
    {
      var d := Select(c, true);
      if d.None? || d.value.notAllowed {
        return false;
      }
      return d.value.chooser && choice.None?;
    }

    method ForEachChooserHost(c: Client)
      requires ClientSafe(c, database, true) && (Scanned(c, database, true) ==> HostsSafe(c, database))
      modifies this`calls
      ensures calls == old(calls) + ChooserHosts(database, c, localAddress)
    {
      var d := Select(c, true);
      if d.None? || d.value.notAllowed || !d.value.chooser {
        return;
      }
      var haveLocalhost := ScanHostlist(d.value.hosts, 0, true);
      if haveLocalhost {
        calls := calls + [Host(localAddress)];
      }
    }
  }

  lemma NoneFound(f: Found)
    ensures Also(f, Found([], false)) == f
  {
  }

  lemma AlsoAlready(calls: seq<Target>, have: bool, now: Found, f: Found)
    requires now == Also(Found(calls, false), f)
    ensures Also(Found(calls, have), f) == Found(now.calls, have || now.local)
  {
  }

  lemma NothingLeft(
    f: Found, db: Database, hosts: seq<HostEntry>, local: Address, broadcast: bool, depth: nat)
    requires hosts == [] && depth <= MAX_DEPTH
    ensures Also(f, Scan(db, hosts, local, broadcast, depth)) == f
  {
  }

  lemma NothingExpanded(
    f: Found, db: Database, rest: Database, alias: string, local: Address, broadcast: bool, depth: nat)
    requires rest == [] && depth < MAX_DEPTH
    ensures Also(f, Expand(db, rest, alias, local, broadcast, depth)) == f
  {
  }
}
