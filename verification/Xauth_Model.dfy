/**
 The user's authority file as values: entries found by their key, the entries a display
 contributes, and the file that results when they are set or removed.
 */
module XauthModel {

  import opened CStrings
  import opened Wrappers

  const FAMILY_INTERNET: int := 0
  const FAMILY_LOCAL: int := 256

  const COOKIE: string := "MIT-MAGIC-COOKIE-1"
  const KERBEROS: string := "MIT-KERBEROS-5"

  datatype Address = Address(family: int, bytes: seq<int>)

  datatype Key = Key(address: Address, number: string, name: string)

  datatype Entry = Entry(key: Key, data: seq<int>)

  type File = seq<Entry>

  /** An authorization of a display. */
  datatype Auth = Auth(number: string, name: string, data: seq<int>)

  /** What the kernel says of an interface: None if the address cannot be converted. */
  type Interface = Option<seq<int>>

  /** The machine, the display's name and where the display is. */
  datatype Site = Site(
    interfaces: seq<Interface>,
    hostname: seq<int>,
    display: string,
    local: bool,
    peer: Option<Address>)

  // ---- The number of a display ----

  /** strrchr */
  function LastIndex(s: string, c: char): (i: int)
    ensures -1 <= i < |s|
  {
    if s == "" then -1
    else if s[|s| - 1] == c then |s| - 1
    else LastIndex(s[..|s| - 1], c)
  }

  /** setAuthNumber: the old number stays if the name has no colon. */
  function NumberOf(display: string, number: string): string {
    var colon := LastIndex(display, ':');
    if colon < 0 then number else Until(display[colon + 1..], '.')
  }

  // ---- The addresses entries are written for ----

  const LOCALHOST: seq<int> := [127, 0, 0, 1]

  /** DefineSelf: all interfaces with an address, but not 127.0.0.1. */
  function Interfaces(i: seq<Interface>): seq<Address> {
    if i == [] then []
    else
      (if i[0].None? || i[0].value == [] || i[0].value == LOCALHOST then []
       else [Address(FAMILY_INTERNET, i[0].value)]) + Interfaces(i[1..])
  }

  function LocalAddresses(s: Site): seq<Address> {
    Interfaces(s.interfaces) + [Address(FAMILY_LOCAL, s.hostname)]
  }

  /** A foreign display without a peer gets no entry at all. */
  function Addresses(s: Site): seq<Address> {
    if s.local then LocalAddresses(s)
    else if s.peer.None? then []
    else if s.peer.value.family == FAMILY_LOCAL then LocalAddresses(s)
    else [s.peer.value]
  }

  // ---- Entries, keys, files ----

  function EntriesFor(addresses: seq<Address>, number: string, name: string, data: seq<int>): File {
    seq(|addresses|, i requires 0 <= i < |addresses| => Entry(Key(addresses[i], number, name), data))
  }

  /** What is written for one authorization; the first cookie is written whatever it is called. */
  function EntriesOf(s: Site, a: Auth): File {
    EntriesFor(Addresses(s), NumberOf(s.display, a.number), a.name, if a.name == KERBEROS then [] else a.data)
  }

  /** Index of the first cookie, -1 if there is none. */
  function FirstCookie(auths: seq<Auth>): (i: int)
    ensures -1 <= i < |auths|
    ensures i >= 0 ==> auths[i].name == COOKIE
    ensures forall k :: 0 <= k < (if i < 0 then |auths| else i) ==> auths[k].name != COOKIE
  {
    if auths == [] then -1
    else if auths[0].name == COOKIE then 0
    else
      var i := FirstCookie(auths[1..]);
      if i < 0 then -1 else i + 1
  }

  /** The entries of all authorizations in order, but for one. */
  function EntriesBut(s: Site, auths: seq<Auth>, skip: int): File {
    if auths == [] then []
    else (if skip == 0 then [] else EntriesOf(s, auths[0])) + EntriesBut(s, auths[1..], skip - 1)
  }

  /** The new entries, the first cookie in front. */
  function NewEntries(s: Site, auths: seq<Auth>): File {
    var i := FirstCookie(auths);
    (if i < 0 then [] else EntriesOf(s, auths[i])) + EntriesBut(s, auths, i)
  }

  function Keys(f: File): set<Key> {
    set e | e in f :: e.key
  }

  /** The entries of a file with other keys. */
  function Without(f: File, keys: set<Key>): File {
    if f == [] then []
    else if f[0].key in keys then Without(f[1..], keys)
    else [f[0]] + Without(f[1..], keys)
  }

  /** SetUserAuthorization and RemoveUserAuthorization on the contents of the file. */
  function Set(s: Site, auths: seq<Auth>, f: File): File {
    var mine := NewEntries(s, auths);
    mine + Without(f, Keys(mine))
  }

  function Remove(s: Site, auths: seq<Auth>, f: File): File {
    Without(f, Keys(NewEntries(s, auths)))
  }
}
