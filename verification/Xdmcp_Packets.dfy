/**
 The packets of XDMCP as bytes (section 8 of the X Display Manager Control Protocol): the
 packets the senders build, with the length they put into the header, and the query that is
 forwarded and taken apart again.
 */
module XdmcpPackets {

  import opened Wrappers

  type Byte = b: int | 0 <= b < 256 witness 0
  type Card16 = n: int | 0 <= n < 0x1_0000 witness 0
  type Card32 = n: int | 0 <= n < 0x1_0000_0000 witness 0

  /** ARRAY8: up to 65535 bytes. */
  type Array8 = a: seq<Byte> | |a| < 0x1_0000
  /** ARRAYofARRAY8: up to 255 of them. */
  type Array8s = a: seq<Array8> | |a| < 0x100

  const VERSION: Card16 := 1
  const INDIRECT_QUERY: Card16 := 3
  const FORWARD_QUERY: Card16 := 4
  const WILLING: Card16 := 5
  const UNWILLING: Card16 := 6
  const ACCEPT: Card16 := 8
  const DECLINE: Card16 := 9
  const REFUSE: Card16 := 11
  const FAILED: Card16 := 12
  const ALIVE: Card16 := 14

  datatype Field = F8(c8: Byte) | F32(c32: Card32) | FArray(bytes: Array8) | FArrays(items: Array8s)

  datatype Kind = K8 | K32 | KArray | KArrays

  /** The fields of each packet the program builds. */
  function Format(opcode: Card16): Option<seq<Kind>> {
    if opcode == FORWARD_QUERY then Some([KArray, KArray, KArrays])
    else if opcode == WILLING then Some([KArray, KArray, KArray])
    else if opcode == UNWILLING then Some([KArray, KArray])
    else if opcode == ACCEPT then Some([K32, KArray, KArray, KArray, KArray])
    else if opcode == DECLINE then Some([KArray, KArray, KArray])
    else if opcode == REFUSE then Some([K32])
    else if opcode == FAILED then Some([K32, KArray])
    else if opcode == ALIVE then Some([K8, K32])
    else None
  }

  datatype Packet = Packet(opcode: Card16, fields: seq<Field>)

  function KindOf(f: Field): Kind {
    match f
    case F8(_) => K8
    case F32(_) => K32
    case FArray(_) => KArray
    case FArrays(_) => KArrays
  }

  function Kinds(fs: seq<Field>): (ks: seq<Kind>)
    ensures |ks| == |fs| && forall i :: 0 <= i < |fs| ==> ks[i] == KindOf(fs[i])
  {
    if fs == [] then [] else [KindOf(fs[0])] + Kinds(fs[1..])
  }

  predicate WellFormed(p: Packet) {
    Format(p.opcode) == Some(Kinds(p.fields))
  }

  // ---- Writing, most significant byte first ----

  function Write16(n: Card16): (b: seq<Byte>)
    ensures |b| == 2
  {
    [n / 256, n % 256]
  }

  function Write32(n: Card32): (b: seq<Byte>)
    ensures |b| == 4
  {
    Write16(n / 0x1_0000) + Write16(n % 0x1_0000)
  }

  function WriteArray(a: Array8): (b: seq<Byte>)
    ensures |b| == 2 + |a|
  {
    Write16(|a|) + a
  }

  function WriteAll(a: seq<Array8>): seq<Byte> {
    if a == [] then [] else WriteArray(a[0]) + WriteAll(a[1..])
  }

  function WriteField(f: Field): seq<Byte> {
    match f
    case F8(n) => [n]
    case F32(n) => Write32(n)
    case FArray(a) => WriteArray(a)
    case FArrays(a) => [|a|] + WriteAll(a)
  }

  function Body(fs: seq<Field>): seq<Byte> {
    if fs == [] then [] else WriteField(fs[0]) + Body(fs[1..])
  }

  /** What a length of 16 bits keeps. */
  function Wrap16(n: nat): Card16 {
    n % 0x1_0000
  }

  lemma Wrap16Adds(a: nat, b: nat)
    ensures Wrap16(Wrap16(a) + b) == Wrap16(a + b)
  {
  }

  function Header(opcode: Card16, length: Card16): (b: seq<Byte>)
    ensures |b| == 6
  {
    Write16(VERSION) + Write16(opcode) + Write16(length)
  }

  /** The packet with the length the 16 bits of the header can hold. */
  function Encode(p: Packet): seq<Byte> {
    Header(p.opcode, Wrap16(|Body(p.fields)|)) + Body(p.fields)
  }

  // ---- Reading ----

  datatype Read<+T> = Got(value: T, rest: seq<Byte>) | Short

  /** Two bytes, the most significant one first. */
  function Card(high: Byte, low: Byte): Card16 {
    var h: int := high;
    h * 256 + low
  }

  function Read16(b: seq<Byte>): Read<Card16> {
    if |b| < 2 then Short else Got(Card(b[0], b[1]), b[2..])
  }

  function Read32(b: seq<Byte>): Read<Card32> {
    if |b| < 4 then Short
    else
      var high: int := Card(b[0], b[1]);
      Got(high * 0x1_0000 + Card(b[2], b[3]), b[4..])
  }

  function ReadArray(b: seq<Byte>): Read<Array8> {
    match Read16(b)
    case Short => Short
    case Got(n, rest) => if |rest| < n then Short else Got(rest[..n], rest[n..])
  }

  function ReadAll(n: nat, b: seq<Byte>): Read<seq<Array8>> {
    if n == 0 then Got([], b)
    else match ReadArray(b)
      case Short => Short
      case Got(a, rest) =>
        match ReadAll(n - 1, rest)
        case Short => Short
        case Got(more, end) => Got([a] + more, end)
  }

  lemma {:induction false} ReadAllLength(n: nat, b: seq<Byte>)
    ensures ReadAll(n, b).Got? ==> |ReadAll(n, b).value| == n
  {
    if n > 0 && ReadArray(b).Got? {
      ReadAllLength(n - 1, ReadArray(b).rest);
    }
  }

  function ReadField(k: Kind, b: seq<Byte>): Read<Field> {
    match k
    case K8 => if b == [] then Short else Got(F8(b[0]), b[1..])
    case K32 =>
      (match Read32(b)
       case Short => Short
       case Got(n, rest) => Got(F32(n), rest))
    case KArray =>
      (match ReadArray(b)
       case Short => Short
       case Got(a, rest) => Got(FArray(a), rest))
    case KArrays =>
      if b == [] then Short
      else
        ReadAllLength(b[0], b[1..]);
        match ReadAll(b[0], b[1..])
        case Short => Short
        case Got(a, rest) => Got(FArrays(a), rest)
  }

  function ReadFields(ks: seq<Kind>, b: seq<Byte>): Read<seq<Field>> {
    if ks == [] then Got([], b)
    else match ReadField(ks[0], b)
      case Short => Short
      case Got(f, rest) =>
        match ReadFields(ks[1..], rest)
        case Short => Short
        case Got(fs, end) => Got([f] + fs, end)
  }

  /** A packet is taken if its fields can be read and its header gives their size. */
  function Decode(b: seq<Byte>): Option<Packet> {
    if |b| < 6 then None
    else
      var version, opcode, length := Card(b[0], b[1]), Card(b[2], b[3]), Card(b[4], b[5]);
      if version != VERSION || Format(opcode).None? then None
      else match ReadFields(Format(opcode).value, b[6..])
        case Short => None
        case Got(fs, _) => if length == |Body(fs)| then Some(Packet(opcode, fs)) else None
  }

  // ---- Round trip ----

  lemma Read32Written(n: Card32, rest: seq<Byte>)
    ensures Read32(Write32(n) + rest) == Got(n, rest)
  {
    assert (Write32(n) + rest)[4..] == rest;
  }

  lemma ReadArrayWritten(a: Array8, rest: seq<Byte>)
    ensures ReadArray(WriteArray(a) + rest) == Got(a, rest)
  {
    var b := WriteArray(a) + rest;
    assert b[2..] == a + rest;
    assert (a + rest)[..|a|] == a && (a + rest)[|a|..] == rest;
  }

  lemma {:induction false} ReadAllWritten(a: seq<Array8>, rest: seq<Byte>)
    ensures ReadAll(|a|, WriteAll(a) + rest) == Got(a, rest)
  {
    hide WriteArray, ReadArray;
    if a == [] {
      assert WriteAll(a) + rest == rest;
    } else {
      assert WriteArray(a[0]) + WriteAll(a[1..]) == WriteAll(a);
      assert WriteAll(a) + rest == WriteArray(a[0]) + (WriteAll(a[1..]) + rest);
      ReadArrayWritten(a[0], WriteAll(a[1..]) + rest);
      ReadAllWritten(a[1..], rest);
      assert [a[0]] + a[1..] == a;
    }
  }

  lemma ReadFieldWritten(f: Field, rest: seq<Byte>)
    ensures ReadField(KindOf(f), WriteField(f) + rest) == Got(f, rest)
  {
    match f
    case F8(n) => assert ([n] + rest)[1..] == rest;
    case F32(n) => Read32Written(n, rest);
    case FArray(a) => ReadArrayWritten(a, rest);
    case FArrays(a) =>
      assert (WriteField(f) + rest)[1..] == WriteAll(a) + rest;
      ReadAllWritten(a, rest);
  }

  lemma {:induction false} ReadFieldsWritten(fs: seq<Field>, rest: seq<Byte>)
    ensures ReadFields(Kinds(fs), Body(fs) + rest) == Got(fs, rest)
  {
    hide WriteField, ReadField;
    if fs == [] {
      assert Body(fs) + rest == rest;
    } else {
      assert [fs[0]] + fs[1..] == fs;
      assert Body(fs) + rest == WriteField(fs[0]) + (Body(fs[1..]) + rest);
      ReadFieldWritten(fs[0], Body(fs[1..]) + rest);
      ReadFieldsWritten(fs[1..], rest);
      assert Kinds(fs)[1..] == Kinds(fs[1..]);
    }
  }

  lemma HeaderRead(opcode: Card16, length: Card16, body: seq<Byte>)
    ensures var b := Header(opcode, length) + body;
      && |b| == 6 + |body| && b[6..] == body
      && Card(b[0], b[1]) == VERSION && Card(b[2], b[3]) == opcode && Card(b[4], b[5]) == length
  {
  }

  /** What becomes of the body once the header is read. */
  lemma DecodeBody(opcode: Card16, length: Card16, body: seq<Byte>)
    requires Format(opcode).Some?
    ensures var r := ReadFields(Format(opcode).value, body);
      Decode(Header(opcode, length) + body)
        == if r.Got? && length == |Body(r.value)| then Some(Packet(opcode, r.value)) else None
  {
    hide Header, ReadFields, Body, Format;
    HeaderRead(opcode, length, body);
  }

  /** A packet survives the wire exactly if the size of its body fits into the header. */
  lemma RoundTripIff(p: Packet)
    requires WellFormed(p)
    ensures Decode(Encode(p)) == Some(p) <==> |Body(p.fields)| < 0x1_0000
    ensures Decode(Encode(p)) == None <==> |Body(p.fields)| >= 0x1_0000
  {
    hide Body, ReadFields, Kinds, Format, Decode, Header;
    var body := Body(p.fields);
    DecodeBody(p.opcode, Wrap16(|body|), body);
    assert body + [] == body;
    ReadFieldsWritten(p.fields, []);
  }

  // ---- Nothing else is taken ----

  lemma CardWritten(high: Byte, low: Byte)
    ensures Write16(Card(high, low)) == [high, low]
  {
  }

  lemma ReadArrayIs(b: seq<Byte>)
    ensures var r := ReadArray(b); r.Got? ==> b == WriteArray(r.value) + r.rest
  {
    if |b| >= 2 {
      CardWritten(b[0], b[1]);
    }
  }

  lemma Read32Is(b: seq<Byte>)
    ensures var r := Read32(b); r.Got? ==> b == Write32(r.value) + r.rest
  {
    if |b| >= 4 {
      CardWritten(b[0], b[1]);
      CardWritten(b[2], b[3]);
      var n := Read32(b).value;
      assert n / 0x1_0000 == Card(b[0], b[1]) && n % 0x1_0000 == Card(b[2], b[3]);
    }
  }

  lemma {:induction false} ReadAllIs(n: nat, b: seq<Byte>)
    ensures var r := ReadAll(n, b); r.Got? ==> b == WriteAll(r.value) + r.rest
  {
    hide ReadArray, WriteArray;
    if n > 0 {
      var first := ReadArray(b);
      ReadArrayIs(b);
      if first.Got? {
        ReadAllIs(n - 1, first.rest);
        var more := ReadAll(n - 1, first.rest);
        if more.Got? {
          assert WriteArray(first.value) + (WriteAll(more.value) + more.rest)
              == WriteArray(first.value) + WriteAll(more.value) + more.rest;
        }
      }
    } else {
      assert WriteAll([]) + b == b;
    }
  }

  lemma ReadFieldIs(k: Kind, b: seq<Byte>)
    ensures var r := ReadField(k, b); r.Got? ==> KindOf(r.value) == k && b == WriteField(r.value) + r.rest
  {
    hide WriteAll, ReadAll, ReadArray, WriteArray, Read32, Write32;
    Read32Is(b);
    ReadArrayIs(b);
    if b != [] && k == KArrays {
      ReadAllIs(b[0], b[1..]);
      ReadAllLength(b[0], b[1..]);
      var r := ReadAll(b[0], b[1..]);
      if r.Got? {
        assert [b[0]] + (WriteAll(r.value) + r.rest) == [b[0]] + WriteAll(r.value) + r.rest;
        assert b == [b[0]] + b[1..];
      }
    }
  }

  lemma {:induction false} ReadFieldsIs(ks: seq<Kind>, b: seq<Byte>)
    ensures var r := ReadFields(ks, b); r.Got? ==> Kinds(r.value) == ks && b == Body(r.value) + r.rest
  {
    hide ReadField, WriteField;
    if ks == [] {
      assert Body([]) + b == b;
    } else {
      var first := ReadField(ks[0], b);
      ReadFieldIs(ks[0], b);
      if first.Got? {
        ReadFieldsIs(ks[1..], first.rest);
        var more := ReadFields(ks[1..], first.rest);
        if more.Got? {
          assert ([first.value] + more.value)[1..] == more.value;
          assert WriteField(first.value) + (Body(more.value) + more.rest)
              == WriteField(first.value) + Body(more.value) + more.rest;
        }
      }
    }
  }

  lemma HeaderBytes(b: seq<Byte>)
    requires |b| >= 6 && Card(b[0], b[1]) == VERSION
    ensures b == Header(Card(b[2], b[3]), Card(b[4], b[5])) + b[6..]
  {
    hide Card;
    CardWritten(b[0], b[1]);
    CardWritten(b[2], b[3]);
    CardWritten(b[4], b[5]);
  }

  /** What is taken is a packet as the senders build them, whatever may follow it. */
  lemma DecodedIsEncoded(b: seq<Byte>)
    requires Decode(b).Some?
    ensures WellFormed(Decode(b).value)
    ensures Encode(Decode(b).value) <= b
  {
    hide ReadFields, Body, Kinds, Format, Card, Header;
    var opcode, length := Card(b[2], b[3]), Card(b[4], b[5]);
    HeaderBytes(b);
    ReadFieldsIs(Format(opcode).value, b[6..]);
    var r := ReadFields(Format(opcode).value, b[6..]);
    assert b == Header(opcode, length) + Body(r.value) + r.rest;
  }

  // ---- Bytes on the wire ----

  /** The number that bytes stand for, the most significant one first. */
  function Number(b: seq<Byte>): nat {
    if b == [] then 0 else Number(b[..|b| - 1]) * 256 + b[|b| - 1]
  }

  /** The bytes are these fields one after the other, lengths in front of the arrays. */
  predicate Spells(b: seq<Byte>, fs: seq<Field>)
    decreases |fs|
  {
    if fs == [] then b == []
    else
      match fs[0]
      case F8(n) => 1 <= |b| && b[0] == n && Spells(b[1..], fs[1..])
      case F32(n) => 4 <= |b| && Number(b[..4]) == n && Spells(b[4..], fs[1..])
      case FArray(a) => SpellsArray(b, a) && Spells(b[2 + |a|..], fs[1..])
      case FArrays(items) =>
        1 <= |b| && b[0] == |items| && exists k | 1 <= k <= |b| :: SpellsAll(b[1..k], items) && Spells(b[k..], fs[1..])
  }

  predicate SpellsArray(b: seq<Byte>, a: Array8) {
    2 + |a| <= |b| && Number(b[..2]) == |a| && b[2..2 + |a|] == a
  }

  predicate SpellsAll(b: seq<Byte>, items: seq<Array8>)
    decreases |items|
  {
    if items == [] then b == [] else SpellsArray(b, items[0]) && SpellsAll(b[2 + |items[0]|..], items[1..])
  }

  lemma Number2(b: seq<Byte>)
    requires |b| == 2
    ensures Number(b) == b[0] as int * 256 + b[1]
  {
    assert b[..1][..0] == [] && Number([]) == 0;
    assert Number(b[..1]) == Number(b[..1][..0]) * 256 + b[0];
  }

  lemma Number4(b: seq<Byte>)
    requires |b| == 4
    ensures Number(b) == ((b[0] as int * 256 + b[1]) * 256 + b[2]) * 256 + b[3]
  {
    assert b[..3][..2] == b[..2];
    Number2(b[..2]);
  }

  lemma ArraySpelled(a: Array8, rest: seq<Byte>)
    ensures SpellsArray(WriteArray(a) + rest, a) && (WriteArray(a) + rest)[2 + |a|..] == rest
  {
    var b := WriteArray(a) + rest;
    Number2(b[..2]);
    assert b[..2] == Write16(|a|);
  }

  lemma {:induction false} AllSpelled(items: seq<Array8>)
    ensures SpellsAll(WriteAll(items), items)
  {
    hide WriteArray, SpellsArray;
    if items != [] {
      ArraySpelled(items[0], WriteAll(items[1..]));
      AllSpelled(items[1..]);
    }
  }

  lemma Number32(n: Card32, rest: seq<Byte>)
    ensures (Write32(n) + rest)[4..] == rest && Number((Write32(n) + rest)[..4]) == n
  {
    var b := (Write32(n) + rest)[..4];
    assert b == Write32(n);
    Number4(b);
    assert b[0] as int * 256 + b[1] == n / 0x1_0000 && b[2] as int * 256 + b[3] == n % 0x1_0000;
  }

  lemma {:induction false} BodySpelled(fs: seq<Field>)
    ensures Spells(Body(fs), fs)
  {
    hide WriteArray, SpellsArray, Write32, WriteAll, SpellsAll, Number;
    if fs != [] {
      var rest := Body(fs[1..]);
      BodySpelled(fs[1..]);
      match fs[0]
      case F8(n) => assert ([n] + rest)[1..] == rest;
      case F32(n) => Number32(n, rest);
      case FArray(a) => ArraySpelled(a, rest);
      case FArrays(items) => {
        var k := 1 + |WriteAll(items)|;
        var b := [|items|] + WriteAll(items) + rest;
        AllSpelled(items);
        assert b[1..k] == WriteAll(items) && b[k..] == rest;
      }
    }
  }

  /** A packet on the wire: version 1, the opcode, the size of the rest modulo 2^16, and the fields. */
  lemma OnTheWire(p: Packet)
    ensures var b := Encode(p);
      && 6 <= |b| && Number(b[..2]) == 1 && Number(b[2..4]) == p.opcode
      && Number(b[4..6]) == (|b| - 6) % 0x1_0000
      && Spells(b[6..], p.fields)
  {
    hide Spells, Number;
    var b := Encode(p);
    Number2(b[..2]);
    Number2(b[2..4]);
    Number2(b[4..6]);
    BodySpelled(p.fields);
    assert b[6..] == Body(p.fields);
  }
}
