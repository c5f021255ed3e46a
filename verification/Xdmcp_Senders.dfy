/**
 The functions that build packets and the two that take a query apart, with the lengths they
 add up on the way.
 */
module XdmcpSenders {

  import opened Wrappers
  import opened XdmcpPackets

  lemma Body1(f: Field)
    ensures Body([f]) == WriteField(f)
  {
    assert [f][1..] == [];
    assert WriteField(f) + [] == WriteField(f);
  }

  lemma BodyCons(f: Field, fs: seq<Field>)
    ensures Body([f] + fs) == WriteField(f) + Body(fs)
  {
    assert ([f] + fs)[1..] == fs;
  }

  lemma Body2(f: Field, g: Field)
    ensures Body([f, g]) == WriteField(f) + WriteField(g)
  {
    hide Body, WriteField;
    assert [f] + [g] == [f, g];
    BodyCons(f, [g]);
    Body1(g);
  }

  lemma Body3(f: Field, g: Field, h: Field)
    ensures Body([f, g, h]) == WriteField(f) + WriteField(g) + WriteField(h)
  {
    hide Body, WriteField;
    assert [f] + [g, h] == [f, g, h];
    BodyCons(f, [g, h]);
    Body2(g, h);
    assert WriteField(f) + (WriteField(g) + WriteField(h)) == WriteField(f) + WriteField(g) + WriteField(h);
  }

  lemma Body5(f: Field, g: Field, h: Field, i: Field, j: Field)
    ensures Body([f, g, h, i, j]) == WriteField(f) + WriteField(g) + WriteField(h) + WriteField(i) + WriteField(j)
  {
    hide Body, WriteField;
    assert [f] + ([g] + [h, i, j]) == [f, g, h, i, j];
    BodyCons(f, [g] + [h, i, j]);
    BodyCons(g, [h, i, j]);
    Body3(h, i, j);
  }

  method SendWilling(authenticationName: Array8, hostname: Array8, status: Array8) returns (packet: seq<Byte>)
    ensures packet == Encode(Packet(WILLING, [FArray(authenticationName), FArray(hostname), FArray(status)]))
  {
    hide Header, WriteArray, Wrap16, Body;
    var length := Wrap16(6 + |authenticationName| + |hostname| + |status|);
    packet := Header(WILLING, length);
    packet := packet + WriteArray(authenticationName);
    packet := packet + WriteArray(hostname);
    packet := packet + WriteArray(status);
    Body3(FArray(authenticationName), FArray(hostname), FArray(status));
  }

  method SendUnwilling(hostname: Array8, status: Array8) returns (packet: seq<Byte>)
    ensures packet == Encode(Packet(UNWILLING, [FArray(hostname), FArray(status)]))
  {
    hide Header, WriteArray, Wrap16, Body;
    var length := Wrap16(4 + |hostname| + |status|);
    packet := Header(UNWILLING, length);
    packet := packet + WriteArray(hostname);
    packet := packet + WriteArray(status);
    Body2(FArray(hostname), FArray(status));
  }

  method SendAccept(sessionID: Card32, authenticationName: Array8, authenticationData: Array8,
      authorizationName: Array8, authorizationData: Array8)
    returns (packet: seq<Byte>)
    ensures packet == Encode(Packet(ACCEPT, [F32(sessionID), FArray(authenticationName), FArray(authenticationData),
      FArray(authorizationName), FArray(authorizationData)]))
  {
    hide Header, WriteArray, Write32, Wrap16, Body;
    var length := Wrap16(4);
    length := Wrap16(length + 2 + |authenticationName|);
    Wrap16Adds(4, 2 + |authenticationName|);
    ghost var total := 6 + |authenticationName|;
    length := Wrap16(length + 2 + |authenticationData|);
    Wrap16Adds(total, 2 + |authenticationData|);
    total := total + 2 + |authenticationData|;
    length := Wrap16(length + 2 + |authorizationName|);
    Wrap16Adds(total, 2 + |authorizationName|);
    total := total + 2 + |authorizationName|;
    length := Wrap16(length + 2 + |authorizationData|);
    Wrap16Adds(total, 2 + |authorizationData|);
    packet := Header(ACCEPT, length);
    packet := packet + Write32(sessionID);
    packet := packet + WriteArray(authenticationName);
    packet := packet + WriteArray(authenticationData);
    packet := packet + WriteArray(authorizationName);
    packet := packet + WriteArray(authorizationData);
    Body5(F32(sessionID), FArray(authenticationName), FArray(authenticationData),
      FArray(authorizationName), FArray(authorizationData));
  }

  method SendDecline(authenticationName: Array8, authenticationData: Array8, status: Array8)
    returns (packet: seq<Byte>)
    ensures packet == Encode(Packet(DECLINE, [FArray(status), FArray(authenticationName), FArray(authenticationData)]))
  {
    hide Header, WriteArray, Wrap16, Body;
    var length := Wrap16(0);
    length := Wrap16(length + 2 + |status|);
    Wrap16Adds(0, 2 + |status|);
    length := Wrap16(length + 2 + |authenticationName|);
    Wrap16Adds(2 + |status|, 2 + |authenticationName|);
    length := Wrap16(length + 2 + |authenticationData|);
    Wrap16Adds(4 + |status| + |authenticationName|, 2 + |authenticationData|);
    packet := Header(DECLINE, length);
    packet := packet + WriteArray(status);
    packet := packet + WriteArray(authenticationName);
    packet := packet + WriteArray(authenticationData);
    Body3(FArray(status), FArray(authenticationName), FArray(authenticationData));
  }

  method SendFailed(sessionID: Card32, status: Array8) returns (packet: seq<Byte>)
    ensures packet == Encode(Packet(FAILED, [F32(sessionID), FArray(status)]))
  {
    hide Header, WriteArray, Write32, Wrap16, Body;
    var length := Wrap16(6 + |status|);
    packet := Header(FAILED, length);
    packet := packet + Write32(sessionID);
    packet := packet + WriteArray(status);
    Body2(F32(sessionID), FArray(status));
  }

  method SendRefuse(sessionID: Card32) returns (packet: seq<Byte>)
    ensures packet == Encode(Packet(REFUSE, [F32(sessionID)]))
  {
    packet := Header(REFUSE, 4);
    packet := packet + Write32(sessionID);
    Body1(F32(sessionID));
  }

  method SendAlive(sendRunning: Byte, sendSessionID: Card32) returns (packet: seq<Byte>)
    ensures packet == Encode(Packet(ALIVE, [F8(sendRunning), F32(sendSessionID)]))
  {
    hide Header, Write32, Body;
    packet := Header(ALIVE, 5);
    packet := packet + [sendRunning];
    packet := packet + Write32(sendSessionID);
    Body2(F8(sendRunning), F32(sendSessionID));
  }

  // ---- Forwarded queries ----

  lemma {:induction false} NamesSize(names: seq<Array8>, n: nat)
    requires n < |names|
    ensures |WriteAll(names[..n + 1])| == |WriteAll(names[..n])| + 2 + |names[n]|
  {
    var front := names[..n + 1];
    if n > 0 {
      NamesSize(names[1..], n - 1);
      assert front[1..] == names[1..][..n] && names[..n][1..] == names[1..][..n - 1];
    } else {
      assert front[1..] == [];
    }
  }

  /** The loop over the names that both functions have. */
  method SizeOf(names: Array8s, before: nat) returns (expectedLen: nat)
    ensures expectedLen == before + |WriteAll(names)|
  {
    expectedLen := before;
    for i := 0 to |names|
      invariant expectedLen == before + |WriteAll(names[..i])|
    {
      NamesSize(names, i);
      expectedLen := expectedLen + 2 + |names[i]|;
    }
    assert names[..|names|] == names;
  }

  function Query(clientAddress: Array8, clientPort: Array8, names: Array8s): Packet {
    Packet(FORWARD_QUERY, [FArray(clientAddress), FArray(clientPort), FArrays(names)])
  }

  lemma QuerySize(clientAddress: Array8, clientPort: Array8, names: Array8s)
    ensures var p := Query(clientAddress, clientPort, names);
      && WellFormed(p)
      && Body(p.fields) == WriteArray(clientAddress) + WriteArray(clientPort) + ([|names|] + WriteAll(names))
  {
    hide WriteArray, WriteAll;
    Body3(FArray(clientAddress), FArray(clientPort), FArrays(names));
    Kinds3(FArray(clientAddress), FArray(clientPort), FArrays(names));
  }

  lemma Kinds3(f: Field, g: Field, h: Field)
    ensures Kinds([f, g, h]) == [KindOf(f), KindOf(g), KindOf(h)]
  {
    assert [f, g, h][1..] == [g, h] && [g, h][1..] == [h] && [h][1..] == [];
    assert Kinds([h]) == [KindOf(h)] + Kinds([h][1..]);
    assert Kinds([g, h]) == [KindOf(g)] + Kinds([g, h][1..]);
    assert Kinds([f, g, h]) == [KindOf(f)] + Kinds([f, g, h][1..]);
  }

  /** The length in the header of a forwarded query, added up in 16 bits. */
  method QueryLength(clientAddress: Array8, clientPort: Array8, names: Array8s) returns (length: Card16)
    ensures length == Wrap16(|Body(Query(clientAddress, clientPort, names).fields)|)
  {
    hide WriteAll, WriteArray, Wrap16, Body;
    length := Wrap16(0);
    length := Wrap16(length + 2 + |clientAddress|);
    Wrap16Adds(0, 2 + |clientAddress|);
    length := Wrap16(length + 2 + |clientPort|);
    Wrap16Adds(2 + |clientAddress|, 2 + |clientPort|);
    length := Wrap16(length + 1);
    ghost var before := 5 + |clientAddress| + |clientPort|;
    Wrap16Adds(before - 1, 1);
    NoNames();
    for i := 0 to |names|
      invariant length == Wrap16(before + |WriteAll(names[..i])|)
    {
      NamesSize(names, i);
      Wrap16Adds(before + |WriteAll(names[..i])|, 2 + |names[i]|);
      length := Wrap16(length + 2 + |names[i]|);
    }
    assert names[..|names|] == names;
    QuerySize(clientAddress, clientPort, names);
  }

  lemma NoNames()
    ensures WriteAll([]) == []
  {
  }

  lemma Grouped(a: seq<Byte>, b: seq<Byte>, c: seq<Byte>, d: seq<Byte>)
    ensures a + b + c + d == a + (b + c + d)
  {
  }

  /** indirect_respond: the query to pass on, if the one received has the right length. */
  method IndirectRespond(clientAddress: Array8, clientPort: Array8, names: Array8s, length: Card16)
    returns (packet: Option<seq<Byte>>)
    ensures packet == if length == |Body([FArrays(names)])| then Some(Encode(Query(clientAddress, clientPort, names))) else None
  {
    hide WriteAll, WriteArray, Wrap16, Header, Body;
    var expectedLen := SizeOf(names, 1);
    Body1(FArrays(names));
    if length != expectedLen {
      return None;
    }
    var headerLength := QueryLength(clientAddress, clientPort, names);
    QuerySize(clientAddress, clientPort, names);
    var buffer := Header(FORWARD_QUERY, headerLength);
    buffer := buffer + WriteArray(clientAddress);
    buffer := buffer + WriteArray(clientPort);
    buffer := buffer + ([|names|] + WriteAll(names));
    packet := Some(buffer);
    Grouped(Header(FORWARD_QUERY, headerLength), WriteArray(clientAddress), WriteArray(clientPort), [|names|] + WriteAll(names));
  }

  /**
   The family of the address the packet came from: those the switch has a case for.  Chaos and
   DECnet addresses are turned away.
   */
  datatype Family = Internet | Unix | Chaos | DECnet

  /** The room for a path in a Unix address. */
  const SUN_PATH: nat := 108

  /** Whether address and port make an address of the family. */
  predicate Usable(family: Family, address: Array8, port: Array8) {
    match family
    case Internet => |address| == 4 && |port| == 2
    case Unix => |address| < SUN_PATH
    case Chaos => false
    case DECnet => false
  }

  datatype Forwarded = Forwarded(address: Array8, port: Array8, names: Array8s)

  /** What a packet asks for, if it is a forwarded query and the client's address can be used. */
  function Taken(p: Option<Packet>, family: Family): Option<Forwarded> {
    if p.None? || p.value.opcode != FORWARD_QUERY || !WellFormed(p.value) then None
    else
      var fs := p.value.fields;
      ThreeFields(fs);
      if Usable(family, fs[0].bytes, fs[1].bytes) then Some(Forwarded(fs[0].bytes, fs[1].bytes, fs[2].items)) else None
  }

  lemma ThreeFields(fs: seq<Field>)
    requires Kinds(fs) == [KArray, KArray, KArrays]
    ensures |fs| == 3 && fs[0].FArray? && fs[1].FArray? && fs[2].FArrays?
  {
    assert KindOf(fs[0]) == KArray && KindOf(fs[1]) == KArray && KindOf(fs[2]) == KArrays;
  }

  lemma ReadCons(k: Kind, ks: seq<Kind>, b: seq<Byte>)
    ensures ReadField(k, b).Short? ==> ReadFields([k] + ks, b) == Short
    ensures ReadField(k, b).Got? ==>
      var more := ReadFields(ks, ReadField(k, b).rest);
      ReadFields([k] + ks, b) == if more.Short? then Short else Got([ReadField(k, b).value] + more.value, more.rest)
  {
    assert ([k] + ks)[1..] == ks;
  }

  lemma ReadNone(b: seq<Byte>)
    ensures ReadFields([], b) == Got([], b)
  {
  }

  /** The three reads of forward_respond in a row. */
  function ReadThree(b: seq<Byte>): Read<seq<Field>> {
    var a := ReadField(KArray, b);
    if a.Short? then Short
    else
      var p := ReadField(KArray, a.rest);
      if p.Short? then Short
      else
        var n := ReadField(KArrays, p.rest);
        if n.Short? then Short else Got([a.value, p.value, n.value], n.rest)
  }

  lemma ReadQuery(b: seq<Byte>)
    ensures ReadFields([KArray, KArray, KArrays], b) == ReadThree(b)
  {
    hide ReadField, ReadFields;
    assert [KArray, KArray, KArrays] == [KArray] + ([KArray] + ([KArrays] + []));
    ReadCons(KArray, [KArray] + ([KArrays] + []), b);
    var a := ReadField(KArray, b);
    if a.Got? {
      ReadCons(KArray, [KArrays] + [], a.rest);
      var p := ReadField(KArray, a.rest);
      if p.Got? {
        ReadCons(KArrays, [], p.rest);
        var n := ReadField(KArrays, p.rest);
        if n.Got? {
          ReadNone(n.rest);
          assert [n.value] + [] == [n.value];
          assert [p.value] + [n.value] == [p.value, n.value];
          assert [a.value] + [p.value, n.value] == [a.value, p.value, n.value];
        }
      }
    }
  }

  lemma KindRead(k: Kind, b: seq<Byte>)
    ensures ReadField(k, b).Got? ==> KindOf(ReadField(k, b).value) == k
  {
  }

  /** forward_respond: what the forwarded query says, read behind its header. */
  method ForwardRespond(buffer: seq<Byte>, length: Card16, family: Family) returns (query: Option<Forwarded>)
    ensures query == Taken(Decode(Header(FORWARD_QUERY, length) + buffer), family)
  {
    hide ReadField, ReadFields, Decode, Header, Body, WriteAll, WriteArray, Kinds;
    DecodeBody(FORWARD_QUERY, length, buffer);
    ReadQuery(buffer);
    query := None;
    var a := ReadField(KArray, buffer);
    KindRead(KArray, buffer);
    if a.Got? {
      var p := ReadField(KArray, a.rest);
      KindRead(KArray, a.rest);
      if p.Got? {
        var n := ReadField(KArrays, p.rest);
        KindRead(KArrays, p.rest);
        if n.Got? {
          var address, port, names := a.value.bytes, p.value.bytes, n.value.items;
          var expectedLen := SizeOf(names, 5 + |address| + |port|);
          QuerySize(address, port, names);
          assert [a.value, p.value, n.value] == Query(address, port, names).fields;
          if length == expectedLen {
            match family {
              case Internet =>
                if |address| != 4 || |port| != 2 {
                  return;
                }
              case Unix =>
                if |address| >= SUN_PATH {
                  return;
                }
              case Chaos =>
                return;
              case DECnet =>
                return;
            }
            query := Some(Forwarded(address, port, names));
          }
        }
      }
    }
  }

  /**
   A forwarded query arrives as it was sent, exactly if it is not too long for a header and
   the address can be used.
   */
  lemma ForwardingKeepsIff(address: Array8, port: Array8, names: Array8s, family: Family)
    ensures Taken(Decode(Encode(Query(address, port, names))), family) == Some(Forwarded(address, port, names))
      <==> (5 + |address| + |port| + |WriteAll(names)| < 0x1_0000
            && ((family == Internet && |address| == 4 && |port| == 2) || (family == Unix && |address| < SUN_PATH)))
    ensures Taken(Decode(Encode(Query(address, port, names))), family) in {None, Some(Forwarded(address, port, names))}
  {
    hide Decode, Encode, WriteAll, WriteArray;
    QuerySize(address, port, names);
    RoundTripIff(Query(address, port, names));
  }

  /** The most bytes a UDP datagram over IPv4 carries. */
  const DATAGRAM: nat := 65507

  /** Whatever an IndirectQuery that came in one datagram asks for is forwarded intact. */
  lemma DatagramIsForwarded(address: Array8, port: Array8, names: Array8s)
    requires |Encode(Packet(INDIRECT_QUERY, [FArrays(names)]))| <= DATAGRAM
    requires |address| == 4 && |port| == 2
    ensures Taken(Decode(Encode(Query(address, port, names))), Internet) == Some(Forwarded(address, port, names))
  {
    hide Decode, WriteAll, Taken, Header;
    Body1(FArrays(names));
    ForwardingKeepsIff(address, port, names, Internet);
  }
}
