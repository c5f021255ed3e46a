/**
 Which entries a display contributes to an authority file: for which addresses, under which
 keys and with what data.
 */
module XauthEntries {

  import opened Wrappers
  import opened XauthModel
  import opened XauthAlgebra

  // ---- The addresses ----

  /** A display on this machine or reached through its own sockets. */
  predicate OnThisMachine(s: Site) {
    s.local || (s.peer.Some? && s.peer.value.family == FAMILY_LOCAL)
  }

  /**
   The addresses a display is known by: on this machine the host name and every interface
   but 127.0.0.1, elsewhere only that of the peer.
   */
  predicate Wanted(s: Site, a: Address) {
    if OnThisMachine(s) then
      || a == Address(FAMILY_LOCAL, s.hostname)
      || (a.family == FAMILY_INTERNET && Some(a.bytes) in s.interfaces && a.bytes != [] && a.bytes != [127, 0, 0, 1])
    else s.peer == Some(a)
  }

  lemma {:induction false} InterfacesAre(i: seq<Interface>, a: Address)
    ensures a in Interfaces(i)
      <==> (a.family == FAMILY_INTERNET && Some(a.bytes) in i && a.bytes != [] && a.bytes != [127, 0, 0, 1])
  {
    if i != [] {
      InterfacesAre(i[1..], a);
      assert i == [i[0]] + i[1..];
      assert LOCALHOST == [127, 0, 0, 1];
    }
  }

  lemma AddressesAre(s: Site)
    ensures forall a :: a in Addresses(s) <==> Wanted(s, a)
  {
    hide Interfaces;
    forall a
      ensures a in Addresses(s) <==> Wanted(s, a)
    {
      InterfacesAre(s.interfaces, a);
    }
  }

  // ---- The entries ----

  /** The data an authorization is written with: cached tickets of Kerberos are not. */
  function Secret(a: Auth): seq<int> {
    if a.name == "MIT-KERBEROS-5" then [] else a.data
  }

  /** The entry is for this authorization, under the display's number. */
  predicate Answers(s: Site, a: Auth, key: Key) {
    key.number == NumberOf(s.display, a.number) && key.name == a.name
  }

  ghost predicate IsNew(s: Site, auths: seq<Auth>, e: Entry) {
    exists a :: a in auths && Wanted(s, e.key.address) && Answers(s, a, e.key) && e.data == Secret(a)
  }

  lemma EntriesOfAre(s: Site, a: Auth, e: Entry)
    ensures e in EntriesOf(s, a) <==> Wanted(s, e.key.address) && Answers(s, a, e.key) && e.data == Secret(a)
  {
    hide NumberOf, Addresses, Wanted;
    AddressesAre(s);
    var entries := EntriesOf(s, a);
    assert KERBEROS == "MIT-KERBEROS-5";
    if Wanted(s, e.key.address) && Answers(s, a, e.key) && e.data == Secret(a) {
      var k :| 0 <= k < |Addresses(s)| && Addresses(s)[k] == e.key.address;
      assert entries[k] == e;
    }
    if e in entries {
      var k :| 0 <= k < |entries| && entries[k] == e;
      assert Addresses(s)[k] in Addresses(s);
    }
  }

  lemma {:induction false} EntriesButAre(s: Site, auths: seq<Auth>, skip: int, e: Entry)
    ensures e in EntriesBut(s, auths, skip)
      <==> exists k :: 0 <= k < |auths| && k != skip && e in EntriesOf(s, auths[k])
    decreases |auths|
  {
    hide EntriesOf;
    if auths != [] {
      var rest := auths[1..];
      EntriesButAre(s, rest, skip - 1, e);
      if e in EntriesBut(s, auths, skip) && !(skip != 0 && e in EntriesOf(s, auths[0])) {
        var k :| 0 <= k < |rest| && k != skip - 1 && e in EntriesOf(s, rest[k]);
        assert e in EntriesOf(s, auths[k + 1]);
      }
      if k :| 0 <= k < |auths| && k != skip && e in EntriesOf(s, auths[k]) {
        if k > 0 {
          assert e in EntriesOf(s, rest[k - 1]);
        }
      }
    }
  }

  lemma NewEntriesAre(s: Site, auths: seq<Auth>, e: Entry)
    ensures e in NewEntries(s, auths) <==> IsNew(s, auths, e)
  {
    hide EntriesOf, EntriesBut, Wanted, Answers, Secret;
    var i := FirstCookie(auths);
    EntriesButAre(s, auths, i, e);
    assert e in NewEntries(s, auths) <==> exists k :: 0 <= k < |auths| && e in EntriesOf(s, auths[k]);
    forall k | 0 <= k < |auths|
      ensures e in EntriesOf(s, auths[k])
        <==> Wanted(s, e.key.address) && Answers(s, auths[k], e.key) && e.data == Secret(auths[k])
    {
      EntriesOfAre(s, auths[k], e);
    }
    if IsNew(s, auths, e) {
      var a :| a in auths && Wanted(s, e.key.address) && Answers(s, a, e.key) && e.data == Secret(a);
      var k :| 0 <= k < |auths| && auths[k] == a;
      assert e in EntriesOf(s, auths[k]);
    }
  }

  lemma {:induction false} WithoutAre(f: File, keys: set<Key>, e: Entry)
    ensures e in Without(f, keys) <==> e in f && e.key !in keys
  {
    if f != [] {
      WithoutAre(f[1..], keys, e);
    }
  }

  /** The key is one the display's entries have. */
  ghost predicate IsNewKey(s: Site, auths: seq<Auth>, key: Key) {
    Wanted(s, key.address) && exists a :: a in auths && Answers(s, a, key)
  }

  lemma NewKeysAre(s: Site, auths: seq<Auth>, key: Key)
    ensures key in Keys(NewEntries(s, auths)) <==> IsNewKey(s, auths, key)
  {
    hide NewEntries, Wanted, Answers, Secret;
    if key in Keys(NewEntries(s, auths)) {
      var e :| e in NewEntries(s, auths) && e.key == key;
      NewEntriesAre(s, auths, e);
    }
    if IsNewKey(s, auths, key) {
      var a :| a in auths && Answers(s, a, key);
      var e := Entry(key, Secret(a));
      NewEntriesAre(s, auths, e);
      assert e in NewEntries(s, auths) && e.key in Keys(NewEntries(s, auths));
    }
  }

  /** The file after setting: the new entries, and of the old ones those with other keys. */
  lemma SetWrites(s: Site, auths: seq<Auth>, f: File, e: Entry)
    ensures e in Set(s, auths, f) <==> (IsNew(s, auths, e) || (e in f && !IsNewKey(s, auths, e.key)))
    ensures e in Remove(s, auths, f) <==> e in f && !IsNewKey(s, auths, e.key)
  {
    hide NewEntries, Without, IsNew, IsNewKey, Keys;
    NewEntriesAre(s, auths, e);
    NewKeysAre(s, auths, e.key);
    WithoutAre(f, Keys(NewEntries(s, auths)), e);
  }

  // ---- How many ----

  /** How many interfaces have an address that is written. */
  function Usable(i: seq<Interface>): nat {
    if i == [] then 0
    else (if i[0].Some? && i[0].value != [] && i[0].value != [127, 0, 0, 1] then 1 else 0) + Usable(i[1..])
  }

  function Width(s: Site): nat {
    if OnThisMachine(s) then 1 + Usable(s.interfaces) else if s.peer.Some? then 1 else 0
  }

  lemma {:induction false} UsableAre(i: seq<Interface>)
    ensures |Interfaces(i)| == Usable(i)
  {
    if i != [] {
      UsableAre(i[1..]);
      assert LOCALHOST == [127, 0, 0, 1];
    }
  }

  lemma WidthIs(s: Site, a: Auth)
    ensures |EntriesOf(s, a)| == Width(s)
  {
    hide Interfaces, NumberOf, Usable;
    UsableAre(s.interfaces);
  }

  function But(n: nat, skip: int): nat {
    if 0 <= skip < n then n - 1 else n
  }

  lemma OneMore(w: nat, n: nat)
    ensures w * (n + 1) == w + w * n
  {
  }

  lemma {:induction false} CountBut(s: Site, auths: seq<Auth>, skip: int)
    ensures |EntriesBut(s, auths, skip)| == Width(s) * But(|auths|, skip)
    decreases |auths|
  {
    hide EntriesOf, Width;
    if auths != [] {
      CountBut(s, auths[1..], skip - 1);
      WidthIs(s, auths[0]);
      OneMore(Width(s), But(|auths| - 1, skip - 1));
    }
  }

  /** Each authorization is written once for the host name and once for each usable interface, or once for the peer. */
  lemma SetCounts(s: Site, auths: seq<Auth>)
    ensures |Set(s, auths, [])| == Width(s) * |auths|
  {
    hide EntriesOf, EntriesBut, Width;
    var i := FirstCookie(auths);
    CountBut(s, auths, i);
    if i >= 0 {
      WidthIs(s, auths[i]);
      OneMore(Width(s), |auths| - 1);
    }
  }

  // ---- Which authorization is found ----

  lemma LookupOf(s: Site, a: Auth, key: Key)
    ensures Lookup(EntriesOf(s, a), key)
         == if Wanted(s, key.address) && Answers(s, a, key) then Some(Entry(key, Secret(a))) else None
  {
    hide EntriesOf, Wanted, Answers, Secret, Lookup;
    var r := Lookup(EntriesOf(s, a), key);
    LookupIsIn(EntriesOf(s, a), key);
    if r.Some? {
      EntriesOfAre(s, a, r.value);
    }
    EntriesOfAre(s, a, Entry(key, Secret(a)));
  }

  lemma {:induction false} LookupIsIn(f: File, key: Key)
    ensures var r := Lookup(f, key);
      if r.Some? then r.value in f && r.value.key == key else forall e :: e in f ==> e.key != key
  {
    if f != [] {
      LookupIsIn(f[1..], key);
      assert f == [f[0]] + f[1..];
    }
  }

  lemma LookupFirst(f: File, g: File, key: Key)
    ensures Lookup(f + g, key) == if Lookup(f, key).Some? then Lookup(f, key) else Lookup(g, key)
  {
    hide Lookup;
    LookupAppend(f, g, key);
  }

  lemma {:induction false} LookupBut(s: Site, auths: seq<Auth>, skip: int, key: Key, k: nat)
    requires k < |auths| && k != skip && Wanted(s, key.address) && Answers(s, auths[k], key)
    requires forall j :: 0 <= j < k && j != skip ==> !Answers(s, auths[j], key)
    ensures Lookup(EntriesBut(s, auths, skip), key) == Some(Entry(key, Secret(auths[k])))
    decreases |auths|
  {
    hide EntriesOf, Wanted, Answers, Secret, Lookup;
    var rest := EntriesBut(s, auths[1..], skip - 1);
    if skip == 0 {
      assert [] + rest == rest;
    } else {
      LookupFirst(EntriesOf(s, auths[0]), rest, key);
      LookupOf(s, auths[0], key);
    }
    if k > 0 {
      assert forall j :: 0 <= j < k - 1 ==> auths[1..][j] == auths[j + 1];
      LookupBut(s, auths[1..], skip - 1, key, k - 1);
    }
  }

  /** What is found under a key of the display is the first authorization of that number and name. */
  lemma SetFindsFirst(s: Site, auths: seq<Auth>, f: File, key: Key, k: nat)
    requires k < |auths| && Wanted(s, key.address) && Answers(s, auths[k], key)
    requires forall j :: 0 <= j < k ==> !Answers(s, auths[j], key)
    ensures Lookup(Set(s, auths, f), key) == Some(Entry(key, Secret(auths[k])))
  {
    hide EntriesOf, EntriesBut, Wanted, Secret, Lookup, NumberOf, Without;
    var i := FirstCookie(auths);
    var mine := NewEntries(s, auths);
    var first, others := if i < 0 then [] else EntriesOf(s, auths[i]), EntriesBut(s, auths, i);
    if i < 0 {
      assert first + others == others;
    } else {
      LookupFirst(first, others, key);
      LookupOf(s, auths[i], key);
    }
    if k != i {
      assert i >= 0 ==> !Answers(s, auths[i], key);
      LookupBut(s, auths, i, key, k);
    }
    LookupFirst(mine, Without(f, Keys(mine)), key);
  }
}
