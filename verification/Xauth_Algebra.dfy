/**
 What setting and removing authorizations do to an authority file, together and for whoever
 looks an entry up.
 */
module XauthAlgebra {

  import opened CStrings
  import opened Wrappers
  import opened XauthModel

  lemma {:induction false} WithoutAppend(f: File, g: File, keys: set<Key>)
    ensures Without(f + g, keys) == Without(f, keys) + Without(g, keys)
  {
    if f == [] {
      assert f + g == g;
    } else {
      WithoutAppend(f[1..], g, keys);
      assert (f + g)[0] == f[0] && (f + g)[1..] == f[1..] + g;
      assert [f[0]] + (Without(f[1..], keys) + Without(g, keys)) == [f[0]] + Without(f[1..], keys) + Without(g, keys);
    }
  }

  lemma {:induction false} WithoutTwice(f: File, a: set<Key>, b: set<Key>)
    ensures Without(Without(f, a), b) == Without(f, a + b)
  {
    if f != [] {
      WithoutTwice(f[1..], a, b);
      assert f[0].key !in a ==> Without(f, a)[1..] == Without(f[1..], a);
    }
  }

  lemma {:induction false} WithoutAll(f: File, keys: set<Key>)
    requires forall e :: e in f ==> e.key in keys
    ensures Without(f, keys) == []
  {
    if f != [] {
      WithoutAll(f[1..], keys);
    }
  }

  lemma {:induction false} WithoutNone(f: File, keys: set<Key>)
    ensures Without(f, keys) == f <==> Keys(f) !! keys
    ensures |Without(f, keys)| <= |f|
  {
    if f != [] {
      WithoutNone(f[1..], keys);
      assert Keys(f) == Keys(f[1..]) + {f[0].key};
      assert f == [f[0]] + f[1..];
    }
  }

  /** Setting the same authorizations again changes nothing. */
  lemma SetIdempotent(s: Site, auths: seq<Auth>, f: File)
    ensures Set(s, auths, Set(s, auths, f)) == Set(s, auths, f)
  {
    hide Without, NewEntries;
    var mine := NewEntries(s, auths);
    var keys := Keys(mine);
    WithoutAppend(mine, Without(f, keys), keys);
    WithoutAll(mine, keys);
    WithoutTwice(f, keys, keys);
    assert keys + keys == keys;
  }

  /** Removing undoes setting, up to what removing would have removed anyway. */
  lemma RemoveAfterSet(s: Site, auths: seq<Auth>, f: File)
    ensures Remove(s, auths, Set(s, auths, f)) == Remove(s, auths, f)
    ensures Keys(NewEntries(s, auths)) !! Keys(f) ==> Remove(s, auths, Set(s, auths, f)) == f
  {
    hide Without, NewEntries;
    var mine := NewEntries(s, auths);
    var keys := Keys(mine);
    WithoutAppend(mine, Without(f, keys), keys);
    WithoutAll(mine, keys);
    WithoutTwice(f, keys, keys);
    assert keys + keys == keys;
    WithoutNone(f, keys);
  }

  lemma BothOrders(s1: Site, a1: seq<Auth>, s2: Site, a2: seq<Auth>, f: File)
    ensures var mine1, k1, k2 := NewEntries(s1, a1), Keys(NewEntries(s1, a1)), Keys(NewEntries(s2, a2));
      && Remove(s2, a2, Set(s1, a1, f)) == Without(mine1, k2) + Without(f, k1 + k2)
      && Set(s1, a1, Remove(s2, a2, f)) == mine1 + Without(f, k1 + k2)
  {
    hide Without, NewEntries, Keys;
    var mine1, k1, k2 := NewEntries(s1, a1), Keys(NewEntries(s1, a1)), Keys(NewEntries(s2, a2));
    WithoutAppend(mine1, Without(f, k1), k2);
    WithoutTwice(f, k1, k2);
    WithoutTwice(f, k2, k1);
    assert k1 + k2 == k2 + k1;
  }

  /** Two displays do not disturb each other exactly if they have no key in common. */
  lemma SetAndRemoveCommuteIff(s1: Site, a1: seq<Auth>, s2: Site, a2: seq<Auth>)
    ensures (forall f :: Remove(s2, a2, Set(s1, a1, f)) == Set(s1, a1, Remove(s2, a2, f)))
       <==> Keys(NewEntries(s1, a1)) !! Keys(NewEntries(s2, a2))
  {
    hide Without, NewEntries, Keys, Set, Remove;
    var mine1, k1, k2 := NewEntries(s1, a1), Keys(NewEntries(s1, a1)), Keys(NewEntries(s2, a2));
    WithoutNone(mine1, k2);
    if k1 !! k2 {
      forall f
        ensures Remove(s2, a2, Set(s1, a1, f)) == Set(s1, a1, Remove(s2, a2, f))
      {
        BothOrders(s1, a1, s2, a2, f);
      }
    } else {
      BothOrders(s1, a1, s2, a2, []);
      WithoutAll([], k1 + k2);
      assert Remove(s2, a2, Set(s1, a1, [])) == Without(mine1, k2);
      assert Set(s1, a1, Remove(s2, a2, [])) == mine1;
    }
  }

  // ---- Looking entries up ----

  /** The entry a client gets: the first with the key. */
  function Lookup(f: File, key: Key): Option<Entry> {
    if f == [] then None else if f[0].key == key then Some(f[0]) else Lookup(f[1..], key)
  }

  lemma {:induction false} LookupAppend(f: File, g: File, key: Key)
    ensures Lookup(f + g, key) == if key in Keys(f) then Lookup(f, key) else Lookup(g, key)
    ensures Lookup(f, key).Some? <==> key in Keys(f)
    decreases |f|
  {
    if f == [] {
      assert f + g == g;
    } else {
      LookupAppend(f[1..], g, key);
      assert (f + g)[0] == f[0] && (f + g)[1..] == f[1..] + g;
      assert Keys(f) == Keys(f[1..]) + {f[0].key};
    }
  }

  lemma {:induction false} LookupWithout(f: File, keys: set<Key>, key: Key)
    ensures Lookup(Without(f, keys), key) == if key in keys then None else Lookup(f, key)
  {
    if f != [] {
      LookupWithout(f[1..], keys, key);
      if f[0].key !in keys {
        assert Without(f, keys)[1..] == Without(f[1..], keys);
        assert Without(f, keys)[0] == f[0];
      }
    }
  }

  /** For the keys of the display the new entries are found, for every other key what was. */
  lemma LookupAfterSet(s: Site, auths: seq<Auth>, f: File, key: Key)
    ensures Lookup(Set(s, auths, f), key)
         == if key in Keys(NewEntries(s, auths)) then Lookup(NewEntries(s, auths), key) else Lookup(f, key)
    ensures Lookup(Remove(s, auths, f), key)
         == if key in Keys(NewEntries(s, auths)) then None else Lookup(f, key)
  {
    var mine := NewEntries(s, auths);
    LookupAppend(mine, Without(f, Keys(mine)), key);
    LookupWithout(f, Keys(mine), key);
  }

  // ---- The cookie comes first ----

  /** What a client gets that takes the first entry for its display, whatever its name. */
  function FirstFor(f: File, address: Address, number: string): Option<Entry> {
    if f == [] then None
    else if f[0].key.address == address && f[0].key.number == number then Some(f[0])
    else FirstFor(f[1..], address, number)
  }

  lemma {:induction false} FirstOfCookies(f: File, g: File, address: Address, number: string, name: string)
    requires forall e :: e in f ==> e.key.name == name
    requires exists e :: e in f && e.key.address == address && e.key.number == number
    ensures FirstFor(f + g, address, number).Some? && FirstFor(f + g, address, number).value.key.name == name
  {
    assert (f + g)[0] == f[0] && (f + g)[1..] == f[1..] + g;
    if !(f[0].key.address == address && f[0].key.number == number) {
      FirstOfCookies(f[1..], g, address, number, name);
    }
  }

  /** For each address of the display such a client gets the cookie, if there is one. */
  lemma CookieFirst(s: Site, auths: seq<Auth>, f: File, address: Address)
    requires FirstCookie(auths) >= 0 && address in Addresses(s)
    ensures var number := NumberOf(s.display, auths[FirstCookie(auths)].number);
      var first := FirstFor(Set(s, auths, f), address, number);
      first.Some? && first.value.key == Key(address, number, COOKIE)
  {
    hide NumberOf, Addresses, EntriesBut, Without, FirstCookie;
    var i := FirstCookie(auths);
    var number := NumberOf(s.display, auths[i].number);
    var cookies := EntriesOf(s, auths[i]);
    var k :| 0 <= k < |Addresses(s)| && Addresses(s)[k] == address;
    assert cookies[k] in cookies;
    var rest := EntriesBut(s, auths, i) + Without(f, Keys(NewEntries(s, auths)));
    assert Set(s, auths, f) == cookies + rest;
    FirstOfCookies(cookies, rest, address, number, COOKIE);
    FirstForIsFor(cookies + rest, address, number);
  }

  lemma {:induction false} FirstForIsFor(f: File, address: Address, number: string)
    ensures var first := FirstFor(f, address, number);
      first.Some? ==> first.value.key.address == address && first.value.key.number == number
  {
    if f != [] {
      FirstForIsFor(f[1..], address, number);
    }
  }

  // ---- The number ----

  /** host:number or host:number.screen */
  predicate NameParts(display: string, host: string, number: string, screen: string) {
    && display == host + ":" + number + screen
    && ':' !in number && ':' !in screen && '.' !in number
    && (screen == "" || screen[0] == '.')
  }

  /** Behind the last colon of the display's name and before the first dot that follows. */
  lemma NumberIs(display: string, number: string)
    ensures if ':' !in display then NumberOf(display, number) == number
      else exists host, screen :: NameParts(display, host, NumberOf(display, number), screen)
  {
    hide LastIndex, Until, NameParts;
    LastIndexIsLast(display, ':');
    var colon := LastIndex(display, ':');
    if colon >= 0 {
      var host, rest := display[..colon], display[colon + 1..];
      Parts(host, rest);
      Rejoined(display, colon);
      assert [display[colon]] == ":";
      assert NameParts(display, host, NumberOf(display, number), rest[|Until(rest, '.')|..]);
    }
  }

  lemma Rejoined(s: string, i: nat)
    requires i < |s|
    ensures s == s[..i] + [s[i]] + s[i + 1..]
  {
  }

  lemma Parts(host: string, rest: string)
    requires ':' !in rest
    ensures NameParts(host + ":" + rest, host, Until(rest, '.'), rest[|Until(rest, '.')|..])
  {
    UntilStops(rest, '.');
    var n := |Until(rest, '.')|;
    var number, tail := rest[..n], rest[n..];
    assert number == Until(rest, '.') && rest == number + tail;
    assert host + ":" + (number + tail) == host + ":" + number + tail;
  }

  lemma {:induction false} LastIndexIsLast(s: string, c: char)
    ensures var i := LastIndex(s, c);
      if i < 0 then c !in s else s[i] == c && c !in s[i + 1..]
  {
    if s != "" && s[|s| - 1] != c {
      LastIndexIsLast(s[..|s| - 1], c);
      var i := LastIndex(s, c);
      assert s == s[..|s| - 1] + [s[|s| - 1]];
      if i >= 0 {
        assert s[i + 1..] == s[..|s| - 1][i + 1..] + [s[|s| - 1]];
      }
    }
  }
}
