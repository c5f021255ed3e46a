/**
 The merge as the program does it: authorizations that are filled in while they are written,
 the list of the keys written so far and the file under construction.
 */
module XauthMerge {

  import opened CStrings
  import opened XauthModel

  class Xauth {

    var family: int
    var address: seq<int>
    var number: string
    const name: string
    const data: seq<int>
    var dataLength: nat

    ghost predicate Valid()
      reads this
    {
      dataLength <= |data|
    }

    constructor (number: string, name: string, data: seq<int>)
      ensures Valid() && View() == Auth(number, name, data)
    {
      family, address, this.number, this.name := 0, [], number, name;
      this.data, dataLength := data, |data|;
    }

    function Value(): Entry
      requires Valid()
      reads this
    {
      Entry(Key(Address(family, address), number, name), data[..dataLength])
    }

    /** The authorization between two merges. */
    ghost function View(): Auth
      reads this
    {
      Auth(number, name, data)
    }

    /** Ready to be written: the data are complete. */
    ghost predicate Whole()
      reads this
    {
      dataLength == |data|
    }

    /** setAuthNumber */
    method SetNumber(display: string)
      modifies this`number
      ensures number == NumberOf(display, old(number))
    {
      hide LastIndex, Until;
      var colon := StrRChr(display, ':');
      if colon >= 0 {
        var rest := display[colon + 1..];
        var dot := StrChr(rest, '.');
        number := rest[..dot];
      }
    }
  }

  method StrRChr(s: string, c: char) returns (i: int)
    ensures i == LastIndex(s, c)
  {
    i := |s| - 1;
    assert s[..i + 1] == s;
    while i >= 0 && s[i] != c
      invariant -1 <= i < |s|
      invariant LastIndex(s, c) == LastIndex(s[..i + 1], c)
    {
      assert s[..i + 1][..i] == s[..i];
      i := i - 1;
    }
  }

  /** strchr, or the length of the string if there is no such character. */
  method StrChr(s: string, c: char) returns (n: nat)
    ensures n <= |s| && s[..n] == Until(s, c)
  {
    hide Until;
    n := 0;
    assert s[0..] == s && s[..0] == "";
    while n < |s| && s[n] != c
      invariant n <= |s|
      invariant Until(s, c) == s[..n] + Until(s[n..], c)
    {
      UntilNext(s, n, c);
      n := n + 1;
    }
    UntilStop(s[n..], c);
  }

  lemma UntilNext(s: string, n: nat, c: char)
    requires n < |s| && s[n] != c
    ensures s[..n] + Until(s[n..], c) == s[..n + 1] + Until(s[n + 1..], c)
  {
    assert s[n..][1..] == s[n + 1..];
    assert Until(s[n..], c) == [s[n]] + Until(s[n + 1..], c);
  }

  lemma UntilStop(s: string, c: char)
    requires s == "" || s[0] == c
    ensures Until(s, c) == ""
  {
  }

  method BinaryEqual<T(==)>(a: seq<T>, b: seq<T>) returns (equal: bool)
    requires |a| == |b|
    ensures equal <==> a == b
  {
    for i := 0 to |a|
      invariant a[..i] == b[..i]
    {
      if a[i] != b[i] {
        return false;
      }
    }
    return true;
  }

  /** The authorizations of a display are separate records, each complete. */
  ghost predicate Ready(auths: seq<Xauth>)
    reads auths
  {
    && (forall i, j :: 0 <= i < j < |auths| ==> auths[i] != auths[j])
    && forall i :: 0 <= i < |auths| ==> auths[i].Whole()
  }

  ghost function Views(auths: seq<Xauth>): (v: seq<Auth>)
    reads auths
    ensures |v| == |auths|
  {
    seq(|auths|, i requires 0 <= i < |auths| reads auths => auths[i].View())
  }

  class AuthorityMerge {

    const site: Site
    var addrs: seq<Key>
    var doWrite: bool
    var newFile: File

    ghost function Saved(): set<Key>
      reads this`addrs
    {
      set k | k in addrs
    }

    constructor (site: Site, doWrite: bool)
      ensures this.site == site && this.doWrite == doWrite && Saved() == {} && newFile == []
    {
      this.site, this.doWrite, addrs, newFile := site, doWrite, [], [];
    }

    method SaveEntry(auth: Xauth)
      requires auth.Valid()
      modifies this`addrs
      ensures Saved() == old(Saved()) + {auth.Value().key}
    {
      addrs := [auth.Value().key] + addrs;
    }

    method CheckEntry(e: Entry) returns (found: bool)
      ensures found <==> e.key in Saved()
    {
      for i := 0 to |addrs|
        invariant e.key !in addrs[..i]
      {
        var a := addrs[i];
        if a.address.family == e.key.address.family && |a.address.bytes| == |e.key.address.bytes|
          && |a.number| == |e.key.number| && |a.name| == |e.key.name|
        {
          var address := BinaryEqual(a.address.bytes, e.key.address.bytes);
          var number := BinaryEqual(a.number, e.key.number);
          var name := BinaryEqual(a.name, e.key.name);
          if address && number && name {
            return true;
          }
        }
      }
      return false;
    }

    method WriteAuth(e: Entry)
      modifies this`newFile
      ensures newFile == old(newFile) + (if doWrite then [e] else [])
    {
      if doWrite {
        newFile := newFile + [e];
      }
    }

    /** What writing entries leaves behind: they are in the file, if at all, and their keys saved. */
    twostate predicate Wrote(entries: File)
      reads this
    {
      && newFile == old(newFile) + (if doWrite then entries else [])
      && Saved() == old(Saved()) + Keys(entries)
      && doWrite == old(doWrite)
    }

    method WriteAddr(a: Address, auth: Xauth)
      requires auth.Valid()
      modifies this`addrs, this`newFile, auth`family, auth`address
      ensures auth.Valid() && Wrote(EntriesFor([a], auth.number, auth.name, auth.data[..auth.dataLength]))
    {
      auth.family := a.family;
      auth.address := a.bytes;
      WriteAuth(auth.Value());
      SaveEntry(auth);
      assert EntriesFor([a], auth.number, auth.name, auth.data[..auth.dataLength]) == [auth.Value()];
    }

    method DefineSelf(auth: Xauth)
      requires auth.Valid()
      modifies this`addrs, this`newFile, auth`family, auth`address
      ensures auth.Valid()
      ensures Wrote(EntriesFor(Interfaces(site.interfaces), auth.number, auth.name, auth.data[..auth.dataLength]))
    {
      ghost var done: seq<Address> := [];
      hide EntriesFor;
      ghost var data := auth.data[..auth.dataLength];
      NoEntries(auth.number, auth.name, data);
      for i := 0 to |site.interfaces|
        invariant auth.Valid()
        invariant Interfaces(site.interfaces) == done + Interfaces(site.interfaces[i..])
        invariant Wrote(EntriesFor(done, auth.number, auth.name, data))
      {
        var address := site.interfaces[i];
        assert site.interfaces[i..][1..] == site.interfaces[i + 1..];
        ghost var rest := Interfaces(site.interfaces[i + 1..]);
        if address.None? || |address.value| == 0 {
          assert [] + rest == rest;
          continue;
        }
        if address.value == LOCALHOST {
          assert [] + rest == rest;
          continue;
        }
        var a := Address(FAMILY_INTERNET, address.value);
        EntriesForAppend(done, [a], auth.number, auth.name, data);
        WriteAddr(a, auth);
        assert done + ([a] + rest) == (done + [a]) + rest;
        done := done + [a];
      }
      assert done == Interfaces(site.interfaces);
    }

    method WriteLocalAuth(auth: Xauth)
      requires auth.Valid()
      modifies this`addrs, this`newFile, auth`family, auth`address, auth`number
      ensures auth.Valid() && auth.number == NumberOf(site.display, old(auth.number))
      ensures Wrote(EntriesFor(LocalAddresses(site), auth.number, auth.name, auth.data[..auth.dataLength]))
    {
      auth.SetNumber(site.display);
      DefineSelf(auth);
      WriteAddr(Address(FAMILY_LOCAL, site.hostname), auth);
      EntriesForAppend(Interfaces(site.interfaces), [Address(FAMILY_LOCAL, site.hostname)],
        auth.number, auth.name, auth.data[..auth.dataLength]);
    }

    method WriteRemoteAuth(auth: Xauth)
      requires auth.Valid() && !site.local
      modifies this`addrs, this`newFile, auth`family, auth`address, auth`number
      ensures auth.Valid()
      ensures auth.number == old(auth.number) || auth.number == NumberOf(site.display, old(auth.number))
      ensures Wrote(EntriesFor(Addresses(site), NumberOf(site.display, old(auth.number)), auth.name,
        auth.data[..auth.dataLength]))
    {
      if site.peer.None? {
        return;
      }
      auth.SetNumber(site.display);
      if site.peer.value.family != FAMILY_LOCAL {
        WriteAddr(site.peer.value, auth);
      } else {
        WriteLocalAuth(auth);
      }
    }

    /** One authorization, for a display on this machine or on another. */
    method WriteOne(auth: Xauth)
      requires auth.Valid()
      modifies this`addrs, this`newFile, auth`family, auth`address, auth`number
      ensures auth.Valid()
      ensures Wrote(EntriesFor(Addresses(site), NumberOf(site.display, old(auth.number)), auth.name,
        auth.data[..auth.dataLength]))
    {
      if site.local {
        WriteLocalAuth(auth);
      } else {
        WriteRemoteAuth(auth);
      }
    }

    method WriteCookie(auth: Xauth)
      requires auth.Whole() && auth.name == COOKIE
      modifies this`addrs, this`newFile, auth
      ensures auth.Whole() && Wrote(EntriesOf(site, old(auth.View())))
    {
      assert auth.data[..|auth.data|] == auth.data;
      WriteOne(auth);
    }

    /** For the keys alone the data do not matter. */
    method WriteWhole(auth: Xauth)
      requires auth.Whole() && !doWrite
      modifies this`addrs, this`newFile, auth
      ensures auth.Whole() && newFile == old(newFile) && !doWrite
      ensures Saved() == old(Saved()) + Keys(EntriesOf(site, old(auth.View())))
    {
      ghost var number := NumberOf(site.display, auth.number);
      SameKeys(Addresses(site), number, auth.name, auth.data[..auth.dataLength],
        if auth.name == KERBEROS then [] else auth.data);
      WriteOne(auth);
    }

    /** The same, but the cached tickets of Kerberos are not written. */
    method WriteOther(auth: Xauth)
      requires auth.Whole()
      modifies this`addrs, this`newFile, auth
      ensures auth.Whole() && Wrote(EntriesOf(site, old(auth.View())))
    {
      var dataLength := auth.dataLength;
      if |auth.name| == 14 && auth.name == KERBEROS {
        auth.dataLength := 0;
      }
      assert auth.data[..|auth.data|] == auth.data;
      WriteOne(auth);
      auth.dataLength := dataLength;
    }

    /** The authorizations in order, but for the one already written. */
    method WriteOthers(auths: seq<Xauth>, skip: int)
      requires Ready(auths)
      modifies this`addrs, this`newFile, auths
      ensures Ready(auths)
      ensures Wrote(EntriesBut(site, old(Views(auths)), skip))
    {
      hide EntriesOf, Addresses, NumberOf, Keys, EntriesBut;
      ghost var values := Views(auths);
      ghost var done: File := [];
      NoEntries("", "", []);
      for i := 0 to |auths|
        invariant Ready(auths) && Wrote(done)
        invariant forall k :: i <= k < |auths| ==> auths[k].View() == values[k]
        invariant EntriesBut(site, values, skip) == done + EntriesBut(site, values[i..], skip - i)
      {
        EntriesStep(site, values, i, skip, done);
        if i != skip {
          WriteOther(auths[i]);
          KeysAppend(done, EntriesOf(site, values[i]));
          done := done + EntriesOf(site, values[i]);
        }
      }
      assert values[|auths|..] == [];
      EntriesEnd(site, skip - |auths|, done);
    }

    /** All of them, only to know their keys. */
    method NoteAll(auths: seq<Xauth>)
      requires Ready(auths) && !doWrite
      modifies this`addrs, this`newFile, auths
      ensures Ready(auths) && newFile == old(newFile)
      ensures Saved() == old(Saved()) + AllKeys(site, old(Views(auths)))
    {
      hide EntriesOf;
      ghost var values := Views(auths);
      for i := 0 to |auths|
        invariant Ready(auths) && newFile == old(newFile)
        invariant forall k :: i <= k < |auths| ==> auths[k].View() == values[k]
        invariant Saved() + AllKeys(site, values[i..]) == old(Saved()) + AllKeys(site, values)
      {
        assert values[i..][0] == values[i] && values[i..][1..] == values[i + 1..];
        WriteWhole(auths[i]);
      }
    }

    /** The entries of the old file that are not replaced. */
    method CopyOthers(oldFile: File)
      requires doWrite
      modifies this`newFile
      ensures newFile == old(newFile) + Without(oldFile, Saved())
    {
      for i := 0 to |oldFile|
        invariant newFile + Without(oldFile[i..], Saved()) == old(newFile) + Without(oldFile, Saved())
      {
        var entry := oldFile[i];
        assert oldFile[i..][1..] == oldFile[i + 1..];
        var found := CheckEntry(entry);
        if !found {
          assert newFile + ([entry] + Without(oldFile[i + 1..], Saved()))
              == (newFile + [entry]) + Without(oldFile[i + 1..], Saved());
          WriteAuth(entry);
        }
      }
    }
  }

  lemma SameKeys(a: seq<Address>, number: string, name: string, data: seq<int>, others: seq<int>)
    ensures Keys(EntriesFor(a, number, name, data)) == Keys(EntriesFor(a, number, name, others))
  {
    var e, f := EntriesFor(a, number, name, data), EntriesFor(a, number, name, others);
    forall i | 0 <= i < |a|
      ensures e[i].key in Keys(f) && f[i].key in Keys(e)
    {
      assert e[i] in e && f[i] in f;
    }
  }

  lemma KeysAppend(f: File, g: File)
    ensures Keys(f + g) == Keys(f) + Keys(g)
  {
  }

  lemma NoEntries(number: string, name: string, data: seq<int>)
    ensures EntriesFor([], number, name, data) == [] && Keys([]) == {}
  {
  }

  lemma EntriesForAppend(a: seq<Address>, b: seq<Address>, number: string, name: string, data: seq<int>)
    ensures EntriesFor(a + b, number, name, data) == EntriesFor(a, number, name, data) + EntriesFor(b, number, name, data)
    ensures Keys(EntriesFor(a + b, number, name, data))
         == Keys(EntriesFor(a, number, name, data)) + Keys(EntriesFor(b, number, name, data))
  {
  }

  /** The first cookie, to be written in front of everything else. */
  method FindCookie(auths: seq<Xauth>) returns (magicCookie: int)
    ensures magicCookie == FirstCookie(Views(auths))
  {
    for i := 0 to |auths|
      invariant forall k :: 0 <= k < i ==> Views(auths)[k].name != COOKIE
    {
      if |auths[i].name| == 18 && auths[i].name == COOKIE {
        assert Views(auths)[i].name == COOKIE;
        return i;
      }
    }
    return -1;
  }

  /** SetUserAuthorization, the file locked and opened. */
  method SetUserAuthorization(site: Site, auths: seq<Xauth>, oldFile: File) returns (newFile: File)
    requires Ready(auths)
    modifies auths
    ensures Ready(auths) && newFile == Set(site, old(Views(auths)), oldFile)
  {
    hide EntriesOf, EntriesBut, Without, FirstCookie, Addresses, NumberOf;
    var merge := new AuthorityMerge(site, true);
    var magicCookie := FindCookie(auths);
    if magicCookie >= 0 {
      assert old(Views(auths))[magicCookie].name == COOKIE;
      merge.WriteCookie(auths[magicCookie]);
    }
    ghost var values := Views(auths);
    merge.WriteOthers(auths, magicCookie);
    SkippedIsFree(site, old(Views(auths)), values, magicCookie);
    assert merge.newFile == NewEntries(site, old(Views(auths)));
    assert merge.Saved() == Keys(NewEntries(site, old(Views(auths))));
    merge.CopyOthers(oldFile);
    newFile := merge.newFile;
  }

  /** RemoveUserAuthorization: the entries are only noted, in the order of the display. */
  method RemoveUserAuthorization(site: Site, auths: seq<Xauth>, oldFile: File) returns (newFile: File)
    requires Ready(auths)
    modifies auths
    ensures Ready(auths) && newFile == Remove(site, old(Views(auths)), oldFile)
  {
    hide EntriesOf, EntriesBut, Without, FirstCookie, Addresses, NumberOf;
    var merge := new AuthorityMerge(site, false);
    merge.NoteAll(auths);
    AllKeysAreKeys(site, old(Views(auths)));
    assert merge.Saved() == Keys(NewEntries(site, old(Views(auths))));
    merge.doWrite := true;
    merge.CopyOthers(oldFile);
    newFile := merge.newFile;
  }

  /** The one left out may have changed. */
  lemma EntriesStep(s: Site, auths: seq<Auth>, i: nat, skip: int, done: File)
    requires i < |auths|
    ensures done + EntriesBut(s, auths[i..], skip - i)
         == (if i == skip then done else done + EntriesOf(s, auths[i])) + EntriesBut(s, auths[i + 1..], skip - (i + 1))
  {
    hide EntriesOf;
    assert auths[i..][0] == auths[i] && auths[i..][1..] == auths[i + 1..];
    var rest := EntriesBut(s, auths[i + 1..], skip - (i + 1));
    assert done + (EntriesOf(s, auths[i]) + rest) == done + EntriesOf(s, auths[i]) + rest;
    assert [] + rest == rest;
  }

  lemma EntriesEnd(s: Site, skip: int, done: File)
    ensures done + EntriesBut(s, [], skip) == done
  {
  }

  lemma {:induction false} SkippedIsFree(s: Site, a: seq<Auth>, b: seq<Auth>, skip: int)
    requires |a| == |b| && forall i :: 0 <= i < |a| && i != skip ==> a[i] == b[i]
    ensures EntriesBut(s, a, skip) == EntriesBut(s, b, skip)
    decreases |a|
  {
    hide EntriesOf;
    if a != [] {
      assert forall i :: 0 <= i < |a| - 1 ==> a[1..][i] == a[i + 1] && b[1..][i] == b[i + 1];
      SkippedIsFree(s, a[1..], b[1..], skip - 1);
    }
  }

  ghost function AllKeys(s: Site, auths: seq<Auth>): set<Key> {
    if auths == [] then {} else Keys(EntriesOf(s, auths[0])) + AllKeys(s, auths[1..])
  }

  lemma {:induction false} KeysBut(s: Site, auths: seq<Auth>, skip: int)
    ensures skip < 0 || skip >= |auths| ==> Keys(EntriesBut(s, auths, skip)) == AllKeys(s, auths)
    ensures 0 <= skip < |auths| ==>
      Keys(EntriesOf(s, auths[skip])) + Keys(EntriesBut(s, auths, skip)) == AllKeys(s, auths)
    decreases |auths|
  {
    hide EntriesOf;
    if auths != [] {
      KeysBut(s, auths[1..], skip - 1);
      var first := if skip == 0 then [] else EntriesOf(s, auths[0]);
      assert Keys(EntriesBut(s, auths, skip)) == Keys(first) + Keys(EntriesBut(s, auths[1..], skip - 1));
    }
  }

  /** Both merges have the same keys, in whatever order the entries are visited. */
  lemma AllKeysAreKeys(s: Site, auths: seq<Auth>)
    ensures Keys(NewEntries(s, auths)) == AllKeys(s, auths)
  {
    hide EntriesOf, EntriesBut;
    var i := FirstCookie(auths);
    KeysBut(s, auths, i);
    assert i < 0 ==> [] + EntriesBut(s, auths, i) == EntriesBut(s, auths, i);
  }
}
