/**
 The access database as values: which hosts an alias stands for.  Scan and Expand are the
 two functions of the program that call each other; a chain of entries is what they follow.
 */
module AccessLists {

  import opened Wrappers
  import opened AccessGlob

  type Address = seq<int>

  datatype HostEntry = HostAlias(name: string) | HostAddress(address: Address) | HostBroadcast

  datatype Kind =
    | Alias(name: string)
    | Pattern(pattern: string)
    | Direct(address: Address, connectionType: int)

  datatype DisplayEntry = DisplayEntry(
    kind: Kind,
    notAllowed: bool,
    notBroadcast: bool,
    chooser: bool,
    hosts: seq<HostEntry>)

  type Database = seq<DisplayEntry>

  const MAX_DEPTH: nat := 32

  /** What the function passed to the scan is called with. */
  datatype Target = Host(address: Address) | Everyone

  datatype Found = Found(calls: seq<Target>, local: bool)

  function Also(a: Found, b: Found): Found {
    Found(a.calls + b.calls, a.local || b.local)
  }

  predicate Names(alias: string, d: DisplayEntry) {
    d.kind.Alias? && Matches(alias, d.kind.name) == Match
  }

  /** scanHostlist */
  function Scan(db: Database, hosts: seq<HostEntry>, local: Address, broadcast: bool, depth: nat): Found
    requires depth <= MAX_DEPTH
    decreases MAX_DEPTH - depth, 2, |hosts|
  {
    if hosts == [] then Found([], false)
    else Also(OneHost(db, hosts[0], local, broadcast, depth), Scan(db, hosts[1..], local, broadcast, depth))
  }

  function OneHost(db: Database, h: HostEntry, local: Address, broadcast: bool, depth: nat): Found
    requires depth <= MAX_DEPTH
    decreases MAX_DEPTH - depth, 1
  {
    match h
    case HostAlias(name) =>
      if depth == MAX_DEPTH then Found([], false) else Expand(db, db, name, local, broadcast, depth)
    case HostAddress(a) => if a == local then Found([], true) else Found([Host(a)], false)
    case HostBroadcast => Found(if broadcast then [Everyone] else [], false)
  }

  /** The loop of indirectAlias over the entries that are left. */
  function Expand(db: Database, rest: Database, alias: string, local: Address, broadcast: bool, depth: nat): Found
    requires depth < MAX_DEPTH
    decreases MAX_DEPTH - depth, 0, |rest| + 1
  {
    if rest == [] then Found([], false)
    else Also(OneEntry(db, rest[0], alias, local, broadcast, depth), Expand(db, rest[1..], alias, local, broadcast, depth))
  }

  function OneEntry(db: Database, d: DisplayEntry, alias: string, local: Address, broadcast: bool, depth: nat): Found
    requires depth < MAX_DEPTH
    decreases MAX_DEPTH - depth, 0, 0
  {
    if Names(alias, d) then Scan(db, d.hosts, local, broadcast, depth + 1) else Found([], false)
  }

  lemma ScanStep(db: Database, hosts: seq<HostEntry>, i: nat, local: Address, broadcast: bool, depth: nat, before: Found)
    requires depth <= MAX_DEPTH && i < |hosts|
    ensures Also(before, Scan(db, hosts[i..], local, broadcast, depth))
         == Also(Also(before, OneHost(db, hosts[i], local, broadcast, depth)),
                 Scan(db, hosts[i + 1..], local, broadcast, depth))
  {
    assert hosts[i..][1..] == hosts[i + 1..];
  }

  lemma ExpandStep(
    db: Database, rest: Database, i: nat, alias: string, local: Address, broadcast: bool, depth: nat, before: Found)
    requires depth < MAX_DEPTH && i < |rest|
    ensures Also(before, Expand(db, rest[i..], alias, local, broadcast, depth))
         == Also(Also(before, OneEntry(db, rest[i], alias, local, broadcast, depth)),
                 Expand(db, rest[i + 1..], alias, local, broadcast, depth))
  {
    assert rest[i..][1..] == rest[i + 1..];
  }

  // ---- What is reachable ----

  /** Some alias of the list stands for this entry. */
  predicate Refers(hosts: seq<HostEntry>, d: DisplayEntry) {
    exists h | h in hosts :: h.HostAlias? && Names(h.name, d)
  }

  /** The hosts at the end of a chain of entries that begins at a list. */
  function Last(hosts: seq<HostEntry>, chain: seq<DisplayEntry>): seq<HostEntry> {
    if chain == [] then hosts else chain[|chain| - 1].hosts
  }

  /** Each entry of the chain is meant by an alias in the list before it. */
  predicate Chain(db: Database, hosts: seq<HostEntry>, chain: seq<DisplayEntry>)
    decreases |chain|
  {
    chain == [] || (chain[0] in db && Refers(hosts, chain[0]) && Chain(db, chain[0].hosts, chain[1..]))
  }

  ghost predicate Reachable(db: Database, hosts: seq<HostEntry>, h: HostEntry, steps: nat) {
    exists chain :: |chain| <= steps && Chain(db, hosts, chain) && h in Last(hosts, chain)
  }

  // ---- Scanning finds what is reachable ----

  /** The entry behind a target or, without one, the local host. */
  function Source(t: Option<Target>, local: Address): (h: HostEntry)
    ensures !h.HostAlias?
  {
    match t
    case None => HostAddress(local)
    case Some(Host(a)) => HostAddress(a)
    case Some(Everyone) => HostBroadcast
  }

  predicate Includes(f: Found, t: Option<Target>) {
    if t.None? then f.local else t.value in f.calls
  }

  /** Targets there can be: the local host is no target, everyone only if asked for. */
  predicate Proper(t: Option<Target>, local: Address, broadcast: bool) {
    match t
    case None => true
    case Some(Host(a)) => a != local
    case Some(Everyone) => broadcast
  }

  predicate ReachHere(db: Database, hosts: seq<HostEntry>, h: HostEntry, steps: nat)
    decreases steps
  {
    h in hosts || (steps > 0 && exists d | d in db :: Refers(hosts, d) && ReachHere(db, d.hosts, h, steps - 1))
  }

  /** What an alias reaches by these entries. */
  predicate ReachFrom(db: Database, rest: Database, alias: string, h: HostEntry, steps: nat) {
    exists d | d in rest :: Names(alias, d) && ReachHere(db, d.hosts, h, steps)
  }

  lemma {:induction false} ChainReaches(
    db: Database, hosts: seq<HostEntry>, chain: seq<DisplayEntry>, h: HostEntry, steps: nat)
    requires |chain| <= steps && Chain(db, hosts, chain) && h in Last(hosts, chain)
    ensures ReachHere(db, hosts, h, steps)
    decreases |chain|
  {
    if chain != [] {
      assert Last(hosts, chain) == Last(chain[0].hosts, chain[1..]);
      ChainReaches(db, chain[0].hosts, chain[1..], h, steps - 1);
    }
  }

  lemma {:induction false} ReachHasChain(db: Database, hosts: seq<HostEntry>, h: HostEntry, steps: nat)
    returns (chain: seq<DisplayEntry>)
    requires ReachHere(db, hosts, h, steps)
    ensures |chain| <= steps && Chain(db, hosts, chain) && h in Last(hosts, chain)
    decreases steps
  {
    if h in hosts {
      chain := [];
    } else {
      var d :| d in db && Refers(hosts, d) && ReachHere(db, d.hosts, h, steps - 1);
      var rest := ReachHasChain(db, d.hosts, h, steps - 1);
      chain := [d] + rest;
      assert chain[1..] == rest;
    }
  }

  lemma ReachableIsReachHere(db: Database, hosts: seq<HostEntry>, h: HostEntry, steps: nat)
    ensures Reachable(db, hosts, h, steps) <==> ReachHere(db, hosts, h, steps)
  {
    if Reachable(db, hosts, h, steps) {
      var chain :| |chain| <= steps && Chain(db, hosts, chain) && h in Last(hosts, chain);
      ChainReaches(db, hosts, chain, h, steps);
    }
    if ReachHere(db, hosts, h, steps) {
      var chain := ReachHasChain(db, hosts, h, steps);
    }
  }

  lemma {:induction false} ScanFinds(
    db: Database, hosts: seq<HostEntry>, local: Address, broadcast: bool, depth: nat, t: Option<Target>)
    requires depth <= MAX_DEPTH
    ensures Includes(Scan(db, hosts, local, broadcast, depth), t)
       <==> Proper(t, local, broadcast) && ReachHere(db, hosts, Source(t, local), MAX_DEPTH - depth)
    decreases MAX_DEPTH - depth, 1, |hosts|
  {
    if hosts != [] {
      ScanFinds(db, hosts[1..], local, broadcast, depth, t);
      var first := hosts[..1];
      if hosts[0].HostAlias? {
        forall d
          ensures Refers(first, d) <==> Names(hosts[0].name, d)
        {
          assert hosts[0] in first;
        }
        if depth < MAX_DEPTH {
          ExpandFinds(db, db, hosts[0].name, local, broadcast, depth, t);
        }
      } else {
        forall d
          ensures !Refers(first, d)
        {
        }
      }
    }
  }

  lemma {:induction false} ExpandFinds(
    db: Database, rest: Database, alias: string, local: Address, broadcast: bool, depth: nat, t: Option<Target>)
    requires depth < MAX_DEPTH
    ensures Includes(Expand(db, rest, alias, local, broadcast, depth), t)
       <==> Proper(t, local, broadcast) && ReachFrom(db, rest, alias, Source(t, local), MAX_DEPTH - depth - 1)
    decreases MAX_DEPTH - depth, 0, |rest|
  {
    if rest != [] {
      ExpandFinds(db, rest[1..], alias, local, broadcast, depth, t);
      ScanFinds(db, rest[0].hosts, local, broadcast, depth + 1, t);
      assert forall d :: d in rest <==> d == rest[0] || d in rest[1..];
    }
  }

  /**
   The function is called for exactly the hosts but the local one that some chain of at most
   MAX_DEPTH aliases leads to, and the answer is whether one leads to the local host.
   */
  lemma ScanIsReachability(db: Database, hosts: seq<HostEntry>, local: Address, broadcast: bool)
    ensures var f := Scan(db, hosts, local, broadcast, 0);
      && (f.local <==> Reachable(db, hosts, HostAddress(local), MAX_DEPTH))
      && (forall a :: Host(a) in f.calls <==> a != local && Reachable(db, hosts, HostAddress(a), MAX_DEPTH))
      && (Everyone in f.calls <==> broadcast && Reachable(db, hosts, HostBroadcast, MAX_DEPTH))
  {
    hide Scan, ReachHere, Reachable;
    ScanFinds(db, hosts, local, broadcast, 0, None);
    ReachableIsReachHere(db, hosts, HostAddress(local), MAX_DEPTH);
    ScanFinds(db, hosts, local, broadcast, 0, Some(Everyone));
    ReachableIsReachHere(db, hosts, HostBroadcast, MAX_DEPTH);
    forall a
      ensures Host(a) in Scan(db, hosts, local, broadcast, 0).calls
         <==> a != local && Reachable(db, hosts, HostAddress(a), MAX_DEPTH)
    {
      ScanFinds(db, hosts, local, broadcast, 0, Some(Host(a)));
      ReachableIsReachHere(db, hosts, HostAddress(a), MAX_DEPTH);
    }
  }

  // ---- When the depth bound cuts nothing off ----

  function AliasEntries(db: Database): set<DisplayEntry> {
    set d | d in db && d.kind.Alias?
  }

  lemma {:induction false} ChainSplits(
    db: Database, hosts: seq<HostEntry>, a: seq<DisplayEntry>, b: seq<DisplayEntry>)
    ensures Chain(db, hosts, a + b) <==> Chain(db, hosts, a) && Chain(db, Last(hosts, a), b)
    ensures Last(hosts, a + b) == Last(Last(hosts, a), b)
    decreases |a|
  {
    if a == [] {
      assert a + b == b;
    } else {
      ChainSplits(db, a[0].hosts, a[1..], b);
      assert (a + b)[0] == a[0] && (a + b)[1..] == a[1..] + b;
      assert Last(hosts, a) == Last(a[0].hosts, a[1..]);
    }
  }

  /** A loop in a chain can be left out. */
  lemma LoopLeftOut(db: Database, hosts: seq<HostEntry>, chain: seq<DisplayEntry>, i: nat, j: nat)
    requires Chain(db, hosts, chain) && i < j < |chain| && chain[i] == chain[j]
    ensures Chain(db, hosts, chain[..i + 1] + chain[j + 1..])
    ensures Last(hosts, chain[..i + 1] + chain[j + 1..]) == Last(hosts, chain)
  {
    hide Chain;
    var front, back := chain[..i + 1], chain[j + 1..];
    assert chain == front + chain[i + 1..];
    ChainSplits(db, hosts, front, chain[i + 1..]);
    assert chain == chain[..j + 1] + back;
    ChainSplits(db, hosts, chain[..j + 1], back);
    ChainSplits(db, hosts, front, back);
  }

  predicate Distinct<T(==)>(s: seq<T>) {
    forall i, j :: 0 <= i < j < |s| ==> s[i] != s[j]
  }

  lemma {:induction false} Shortened(db: Database, hosts: seq<HostEntry>, chain: seq<DisplayEntry>)
    returns (short: seq<DisplayEntry>)
    requires Chain(db, hosts, chain)
    ensures Chain(db, hosts, short) && Distinct(short) && Last(hosts, short) == Last(hosts, chain)
    decreases |chain|
  {
    if Distinct(chain) {
      short := chain;
    } else {
      var i, j :| 0 <= i < j < |chain| && chain[i] == chain[j];
      LoopLeftOut(db, hosts, chain, i, j);
      short := Shortened(db, hosts, chain[..i + 1] + chain[j + 1..]);
    }
  }

  lemma {:induction false} DistinctFit<T>(s: seq<T>, all: set<T>)
    requires Distinct(s) && forall x :: x in s ==> x in all
    ensures |s| <= |all|
    decreases |s|
  {
    if s != [] {
      DistinctFit(s[1..], all - {s[0]});
    }
  }

  lemma {:induction false} ChainOfAliases(db: Database, hosts: seq<HostEntry>, chain: seq<DisplayEntry>)
    requires Chain(db, hosts, chain)
    ensures forall d :: d in chain ==> d in AliasEntries(db)
    decreases |chain|
  {
    if chain != [] {
      ChainOfAliases(db, chain[0].hosts, chain[1..]);
    }
  }

  /** With no more alias entries than MAX_DEPTH, cycles or not, nothing reachable is missed. */
  lemma NothingCutOff(db: Database, hosts: seq<HostEntry>, h: HostEntry, steps: nat)
    requires |AliasEntries(db)| <= MAX_DEPTH && Reachable(db, hosts, h, steps)
    ensures Reachable(db, hosts, h, MAX_DEPTH)
  {
    var chain :| |chain| <= steps && Chain(db, hosts, chain) && h in Last(hosts, chain);
    var short := Shortened(db, hosts, chain);
    ChainOfAliases(db, hosts, short);
    DistinctFit(short, AliasEntries(db));
  }

  // ---- One alias more and the bound cuts ----

  /** The character every alias begins with. */
  const ALIAS_CHARACTER: char := '%'

  function Name(n: nat): string {
    [ALIAS_CHARACTER] + Letters(n)
  }

  function Letters(n: nat): (s: string)
    ensures |s| == n
  {
    if n == 0 then "" else "a" + Letters(n - 1)
  }

  lemma {:induction false} LettersMatch(k: nat, n: nat)
    ensures Matches(Letters(k), Letters(n)) == if k == n then Match else NoMatch
    decreases n
  {
    if n > 0 {
      assert Letters(n)[1..] == Letters(n - 1);
      if k > 0 {
        assert Letters(k)[1..] == Letters(k - 1);
        LettersMatch(k - 1, n - 1);
      }
    }
  }

  lemma NameMatches(k: nat, n: nat)
    ensures Matches(Name(k), Name(n)) == if k == n then Match else NoMatch
  {
    LettersMatch(k, n);
    assert Name(k)[1..] == Letters(k) && Name(n)[1..] == Letters(n);
  }

  /** Each alias stands for the next, the last for one host. */
  function Link(k: nat, a: Address): DisplayEntry {
    DisplayEntry(Alias(Name(k)), false, false, false, [if k == MAX_DEPTH then HostAddress(a) else HostAlias(Name(k + 1))])
  }

  function LongDatabase(a: Address): Database {
    seq(MAX_DEPTH + 1, k requires k >= 0 => Link(k, a))
  }

  lemma RefersToNext(k: nat, j: nat, a: Address)
    ensures Refers([HostAlias(Name(k))], Link(j, a)) <==> j == k
  {
    NameMatches(k, j);
    assert HostAlias(Name(k)) in [HostAlias(Name(k))];
  }

  lemma {:induction false} LongReach(k: nat, a: Address, steps: nat)
    requires k <= MAX_DEPTH
    ensures ReachHere(LongDatabase(a), [HostAlias(Name(k))], HostAddress(a), steps) <==> steps + k > MAX_DEPTH
    decreases steps
  {
    var db, hosts, h := LongDatabase(a), [HostAlias(Name(k))], HostAddress(a);
    if steps > 0 {
      forall d | d in db
        ensures Refers(hosts, d) <==> d == Link(k, a)
      {
        var j :| 0 <= j <= MAX_DEPTH && d == Link(j, a);
        RefersToNext(k, j, a);
        RefersToNext(k, k, a);
      }
      assert db[k] == Link(k, a);
      assert ReachHere(db, hosts, h, steps) <==> ReachHere(db, Link(k, a).hosts, h, steps - 1);
      if k < MAX_DEPTH {
        LongReach(k + 1, a, steps - 1);
      } else {
        assert h in Link(k, a).hosts;
      }
    }
  }

  /** MAX_DEPTH + 1 aliases in a row lead to the local host, but the scan does not find it. */
  lemma DepthBoundIsSharp(a: Address)
    ensures var db, hosts := LongDatabase(a), [HostAlias(Name(0))];
      && |AliasEntries(db)| <= MAX_DEPTH + 1
      && Reachable(db, hosts, HostAddress(a), MAX_DEPTH + 1)
      && !Scan(db, hosts, a, false, 0).local
  {
    hide ReachHere, Scan, Reachable;
    var db, hosts := LongDatabase(a), [HostAlias(Name(0))];
    LongReach(0, a, MAX_DEPTH + 1);
    LongReach(0, a, MAX_DEPTH);
    ReachableIsReachHere(db, hosts, HostAddress(a), MAX_DEPTH + 1);
    ReachableIsReachHere(db, hosts, HostAddress(a), MAX_DEPTH);
    ScanIsReachability(db, hosts, a, false);
    FewEntries(db);
  }

  /** Whenever some chain of aliases leads to the local host, the scan says so. */
  ghost predicate Complete(db: Database) {
    forall hosts, local, steps :: Reachable(db, hosts, HostAddress(local), steps) ==> Scan(db, hosts, local, false, 0).local
  }

  /** All databases with up to n aliases are scanned completely, exactly if n is within the bound. */
  lemma CompleteIff(n: nat)
    ensures (forall db :: |AliasEntries(db)| <= n ==> Complete(db)) <==> n <= 32
  {
    hide Scan, Reachable, AliasEntries, LongDatabase;
    if n <= MAX_DEPTH {
      forall db, hosts, local, steps | |AliasEntries(db)| <= n && Reachable(db, hosts, HostAddress(local), steps)
        ensures Scan(db, hosts, local, false, 0).local
      {
        NothingCutOff(db, hosts, HostAddress(local), steps);
        ScanIsReachability(db, hosts, local, false);
      }
    } else {
      DepthBoundIsSharp([]);
      assert !Complete(LongDatabase([]));
    }
  }

  lemma {:induction false} FewEntries(db: Database)
    ensures |AliasEntries(db)| <= |db|
  {
    if db != [] {
      FewEntries(db[1..]);
      assert AliasEntries(db) <= AliasEntries(db[1..]) + {db[0]};
      Subset(AliasEntries(db), AliasEntries(db[1..]) + {db[0]});
    }
  }

  lemma {:induction false} Subset<T>(a: set<T>, b: set<T>)
    requires a <= b
    ensures |a| <= |b|
  {
    if a != {} {
      var x :| x in a;
      Subset(a - {x}, b - {x});
    }
  }

  // ---- The entry for a client ----

  /** An address, its family and the host name it is looked up by, if it has one. */
  datatype Client = Client(address: Address, connectionType: int, name: Option<string>)

  datatype Query = DirectQuery | BroadcastQuery | IndirectQuery

  predicate Suits(d: DisplayEntry, c: Client) {
    match d.kind
    case Alias(_) => false
    case Pattern(p) => Matches(if c.name.Some? then c.name.value else "", p) == Match
    case Direct(a, t) => a == c.address && t == c.connectionType
  }

  /** The first entry for a client among those with a host list or those without. */
  function FirstEntry(db: Database, hosted: bool, c: Client): Option<DisplayEntry> {
    if db == [] then None
    else if Suits(db[0], c) && (db[0].hosts != []) == hosted then Some(db[0])
    else FirstEntry(db[1..], hosted, c)
  }

  /** AcceptableDisplayAddress */
  function Acceptable(db: Database, c: Client, query: Query): bool {
    query == IndirectQuery ||
    match FirstEntry(db, false, c)
    case None => false
    case Some(d) => !d.notAllowed && (query == BroadcastQuery ==> !d.notBroadcast)
  }

  /** ForEachMatchingIndirectHost */
  function IndirectHosts(db: Database, c: Client, local: Address, choice: Option<Address>): Found {
    match FirstEntry(db, true, c)
    case None => Found([], false)
    case Some(d) =>
      if d.notAllowed then Found([], false)
      else if !d.chooser then Scan(db, d.hosts, local, false, 0)
      else if choice.None? || choice.value == local then Found([], true)
      else Found([Host(choice.value)], false)
  }

  /** UseChooser */
  function UsesChooser(db: Database, c: Client, choice: Option<Address>): bool {
    match FirstEntry(db, true, c)
    case None => false
    case Some(d) => !d.notAllowed && d.chooser && choice.None?
  }

  /** ForEachChooserHost: the local host comes last and once. */
  function ChooserHosts(db: Database, c: Client, local: Address): seq<Target> {
    match FirstEntry(db, true, c)
    case None => []
    case Some(d) =>
      if d.notAllowed || !d.chooser then []
      else
        var f := Scan(db, d.hosts, local, true, 0);
        f.calls + if f.local then [Host(local)] else []
  }

  /** This entry is the first one for the client, none before it is. */
  predicate IsFirst(db: Database, hosted: bool, c: Client, d: DisplayEntry, i: int) {
    && 0 <= i < |db| && db[i] == d && Suits(d, c) && (d.hosts != []) == hosted
    && forall j :: 0 <= j < i && Suits(db[j], c) ==> (db[j].hosts != []) != hosted
  }

  lemma {:induction false} FirstEntryIsFirst(db: Database, hosted: bool, c: Client)
    ensures var r := FirstEntry(db, hosted, c);
      if r.None? then forall d :: d in db && Suits(d, c) ==> (d.hosts != []) != hosted
      else exists i :: IsFirst(db, hosted, c, r.value, i)
  {
    if db != [] {
      if Suits(db[0], c) && (db[0].hosts != []) == hosted {
        assert IsFirst(db, hosted, c, db[0], 0);
      } else {
        FirstEntryIsFirst(db[1..], hosted, c);
        var r := FirstEntry(db[1..], hosted, c);
        if r.Some? {
          var i :| IsFirst(db[1..], hosted, c, r.value, i);
          forall j | 0 <= j < i + 1 && Suits(db[j], c)
            ensures (db[j].hosts != []) != hosted
          {
            assert j > 0 ==> db[j] == db[1..][j - 1];
          }
          assert IsFirst(db, hosted, c, r.value, i + 1);
        }
      }
    }
  }

  /** The chooser is offered every reachable host once it is asked, and nothing else is done. */
  lemma ChooserOrForward(db: Database, c: Client, local: Address, choice: Option<Address>)
    ensures UsesChooser(db, c, choice) ==> IndirectHosts(db, c, local, choice) == Found([], true)
    ensures ChooserHosts(db, c, local) != [] && choice.Some? && choice.value != local
      ==> IndirectHosts(db, c, local, choice) == Found([Host(choice.value)], false)
    ensures UsesChooser(db, c, None) ==>
      var hosts := FirstEntry(db, true, c).value.hosts;
      forall a :: Host(a) in ChooserHosts(db, c, local) <==> Reachable(db, hosts, HostAddress(a), MAX_DEPTH)
  {
    var e := FirstEntry(db, true, c);
    if e.Some? {
      ScanIsReachability(db, e.value.hosts, local, true);
    }
  }

  // ---- The four questions, asked of the first entry ----

  /** An entry suits a client by its address and type, or by a pattern that globs its name. */
  lemma SuitsIff(d: DisplayEntry, c: Client)
    ensures Suits(d, c)
      <==> (d.kind == Direct(c.address, c.connectionType)
            || (d.kind.Pattern? && Closed(d.kind.pattern)
                && Glob(Effective(Tokens(d.kind.pattern)), if c.name.Some? then c.name.value else "")))
  {
    hide Matches, Closed, Glob, Effective, Tokens;
    if d.kind.Pattern? {
      MatchesIsEffectiveGlob(if c.name.Some? then c.name.value else "", d.kind.pattern);
    }
  }

  /** An alias means the alias entries whose name, as a pattern, globs it. */
  lemma NamesIff(alias: string, d: DisplayEntry)
    ensures Names(alias, d)
      <==> (d.kind.Alias? && Closed(d.kind.name) && Glob(Effective(Tokens(d.kind.name)), alias))
  {
    hide Matches, Closed, Glob, Effective, Tokens;
    if d.kind.Alias? {
      MatchesIsEffectiveGlob(alias, d.kind.name);
    }
  }

  lemma FirstIsEntry(db: Database, hosted: bool, c: Client)
    ensures forall d, i :: IsFirst(db, hosted, c, d, i) ==> FirstEntry(db, hosted, c) == Some(d)
    ensures (forall d, i :: !IsFirst(db, hosted, c, d, i)) ==> FirstEntry(db, hosted, c) == None
    ensures FirstEntry(db, hosted, c).Some? ==> exists i :: IsFirst(db, hosted, c, FirstEntry(db, hosted, c).value, i)
  {
    hide FirstEntry, Suits;
    FirstEntryIsFirst(db, hosted, c);
    var r := FirstEntry(db, hosted, c);
    forall d, i | IsFirst(db, hosted, c, d, i)
      ensures r == Some(d)
    {
      assert d in db && Suits(d, c);
      var k :| IsFirst(db, hosted, c, r.value, k);
      assert k == i;
    }
  }

  /** A client is accepted exactly if its first entry without hosts allows it, and broadcasts if it sent one. */
  lemma AcceptableIff(db: Database, c: Client, query: Query)
    ensures query == IndirectQuery ==> Acceptable(db, c, query)
    ensures query != IndirectQuery ==>
      (Acceptable(db, c, query)
       <==> exists d, i :: IsFirst(db, false, c, d, i) && !d.notAllowed && (query == BroadcastQuery ==> !d.notBroadcast))
  {
    hide FirstEntry, IsFirst;
    FirstIsEntry(db, false, c);
  }

  /** The chooser is shown exactly if the first entry with hosts asks for it, allows the client and nothing was chosen. */
  lemma UsesChooserIff(db: Database, c: Client, choice: Option<Address>)
    ensures UsesChooser(db, c, choice)
       <==> exists d, i :: IsFirst(db, true, c, d, i) && !d.notAllowed && d.chooser && choice.None?
  {
    hide FirstEntry, IsFirst;
    FirstIsEntry(db, true, c);
  }

  /** Where an indirect query goes, by the first entry with hosts. */
  lemma IndirectHostsAre(db: Database, c: Client, local: Address, choice: Option<Address>)
    ensures var r := IndirectHosts(db, c, local, choice);
      && ((forall d, i :: !IsFirst(db, true, c, d, i)) ==> r == Found([], false))
      && (forall d, i :: IsFirst(db, true, c, d, i) ==>
            && (d.notAllowed ==> r == Found([], false))
            && (!d.notAllowed && d.chooser ==>
                  r == if choice.None? || choice.value == local then Found([], true) else Found([Host(choice.value)], false))
            && (!d.notAllowed && !d.chooser ==>
                  && (forall a :: Host(a) in r.calls <==> a != local && Reachable(db, d.hosts, HostAddress(a), MAX_DEPTH))
                  && Everyone !in r.calls
                  && (r.local <==> Reachable(db, d.hosts, HostAddress(local), MAX_DEPTH))))
  {
    hide FirstEntry, IsFirst, Scan, Reachable;
    FirstIsEntry(db, true, c);
    var e := FirstEntry(db, true, c);
    if e.Some? {
      ScanIsReachability(db, e.value.hosts, local, false);
    }
  }

  /** What the chooser is offered, by the first entry with hosts: the hosts it leads to, this one last. */
  lemma ChooserHostsAre(db: Database, c: Client, local: Address)
    ensures var r := ChooserHosts(db, c, local);
      && ((forall d, i :: !IsFirst(db, true, c, d, i)) ==> r == [])
      && (forall d, i :: IsFirst(db, true, c, d, i) ==>
            && (d.notAllowed || !d.chooser ==> r == [])
            && (!d.notAllowed && d.chooser ==>
                  && (forall a :: Host(a) in r <==> Reachable(db, d.hosts, HostAddress(a), MAX_DEPTH))
                  && (Everyone in r <==> Reachable(db, d.hosts, HostBroadcast, MAX_DEPTH))
                  && (Host(local) in r ==> r[|r| - 1] == Host(local) && Host(local) !in r[..|r| - 1])))
  {
    hide FirstEntry, IsFirst, Scan, Reachable;
    FirstIsEntry(db, true, c);
    var e := FirstEntry(db, true, c);
    if e.Some? {
      ScanIsReachability(db, e.value.hosts, local, true);
      var f := Scan(db, e.value.hosts, local, true, 0);
      assert (f.calls + [Host(local)])[..|f.calls|] == f.calls;
    }
  }
}
