/**
 The choices users have made in the chooser: the list the program keeps, searched and pruned
 in one pass, against a map from clients to what they chose last.
 */
module ChooseModel {

  import opened Wrappers

  datatype Client = Client(address: seq<int>, connectionType: int)

  datatype Choice = Choice(client: Client, host: seq<int>, time: int)

  predicate Expired(e: Choice, now: int, timeout: int) {
    now - e.time > timeout
  }

  /** IndirectChoice: what is left of the list and the host found. */
  function Look(list: seq<Choice>, c: Client, now: int, timeout: int): (seq<Choice>, Option<seq<int>>) {
    if list == [] then ([], None)
    else if Expired(list[0], now, timeout) then Look(list[1..], c, now, timeout)
    else if list[0].client == c then (list, Some(list[0].host))
    else
      var (rest, found) := Look(list[1..], c, now, timeout);
      ([list[0]] + rest, found)
  }

  predicate Has(list: seq<Choice>, c: Client) {
    exists e | e in list :: e.client == c
  }

  /** The first choice of the client is overwritten where it is. */
  function Overwrite(list: seq<Choice>, e: Choice): (r: seq<Choice>)
    ensures |r| == |list|
  {
    if list == [] then []
    else if list[0].client == e.client then [e] + list[1..]
    else [list[0]] + Overwrite(list[1..], e)
  }

  /** RegisterIndirectChoice */
  function Register(list: seq<Choice>, e: Choice): seq<Choice> {
    if Has(list, e.client) then Overwrite(list, e) else [e] + list
  }

  /** A user chooses, or a packet comes in and the choice is asked for. */
  datatype Event = Chose(choice: Choice) | Asked(client: Client, now: int)

  function Next(list: seq<Choice>, e: Event, timeout: int): seq<Choice> {
    match e
    case Chose(c) => Register(list, c)
    case Asked(c, now) => Look(list, c, now, timeout).0
  }

  /** The answers of a run, one for each question. */
  function Answers(list: seq<Choice>, es: seq<Event>, timeout: int): seq<Option<seq<int>>>
    decreases |es|
  {
    if es == [] then []
    else
      (match es[0]
       case Chose(_) => []
       case Asked(c, now) => [Look(list, c, now, timeout).1])
      + Answers(Next(list, es[0], timeout), es[1..], timeout)
  }

  function Run(list: seq<Choice>, es: seq<Event>, timeout: int): seq<Choice>
    decreases |es|
  {
    if es == [] then list else Run(Next(list, es[0], timeout), es[1..], timeout)
  }

  // ---- The map ----

  type Latest = map<Client, Choice>

  function Known(m: Latest, c: Client, now: int, timeout: int): Option<seq<int>> {
    if c in m && !Expired(m[c], now, timeout) then Some(m[c].host) else None
  }

  function MapAnswers(m: Latest, es: seq<Event>, timeout: int): seq<Option<seq<int>>>
    decreases |es|
  {
    if es == [] then []
    else match es[0]
      case Chose(e) => MapAnswers(m[e.client := e], es[1..], timeout)
      case Asked(c, now) => [Known(m, c, now, timeout)] + MapAnswers(m, es[1..], timeout)
  }

  /** When the questions of a run are asked. */
  function Times(es: seq<Event>): seq<int> {
    if es == [] then []
    else (if es[0].Asked? then [es[0].now] else []) + Times(es[1..])
  }

  /** Times that never go back, all of them from now on. */
  predicate Forward(ts: seq<int>, now: int) {
    ts == [] || (now <= ts[0] && Forward(ts[1..], ts[0]))
  }

  predicate NeverBack(ts: seq<int>) {
    ts == [] || Forward(ts[1..], ts[0])
  }

  predicate OnePerClient(list: seq<Choice>) {
    forall i, j :: 0 <= i < j < |list| ==> list[i].client != list[j].client
  }

  /** The list is the map, but for choices that have already timed out. */
  ghost predicate Agrees(list: seq<Choice>, m: Latest, now: int, timeout: int) {
    && OnePerClient(list)
    && (forall e :: e in list ==> e.client in m && m[e.client] == e)
    && (forall c :: c in m && !Has(list, c) ==> Expired(m[c], now, timeout))
  }

  // ---- The list agrees with the map ----

  /** A client is answered exactly if the list has a choice of its that is not older than the timeout. */
  lemma LookAnswersIff(list: seq<Choice>, c: Client, now: int, timeout: int)
    ensures Look(list, c, now, timeout).1.Some?
       <==> (exists e :: e in list && e.client == c && now <= e.time + timeout)
  {
    LookKeeps(list, c, now, timeout);
  }

  lemma {:induction false} LookKeeps(list: seq<Choice>, c: Client, now: int, timeout: int)
    ensures var (rest, found) := Look(list, c, now, timeout);
      && (forall e :: e in rest ==> e in list)
      && (forall e :: e in list && e !in rest ==> Expired(e, now, timeout))
      && (OnePerClient(list) ==> OnePerClient(rest))
      && (found.Some? ==> exists e :: e in list && e.client == c && !Expired(e, now, timeout) && found.value == e.host)
      && (found.None? ==> forall e :: e in list && e.client == c ==> Expired(e, now, timeout))
  {
    if list != [] {
      LookKeeps(list[1..], c, now, timeout);
      assert list == [list[0]] + list[1..];
      var (rest, found) := Look(list, c, now, timeout);
      if OnePerClient(list) && !Expired(list[0], now, timeout) && list[0].client != c {
        var (more, _) := Look(list[1..], c, now, timeout);
        assert OnePerClient(list[1..]);
        forall j | 0 < j < |rest|
          ensures rest[0].client != rest[j].client
        {
          assert rest[j] == more[j - 1] && more[j - 1] in list[1..];
        }
      }
    }
  }

  lemma {:induction false} OverwriteIs(list: seq<Choice>, e: Choice)
    requires OnePerClient(list)
    ensures forall i :: 0 <= i < |list| ==> Overwrite(list, e)[i] == if list[i].client == e.client then e else list[i]
  {
    if list != [] {
      OverwriteIs(list[1..], e);
    }
  }

  lemma {:induction false} OverwriteAt(list: seq<Choice>, e: Choice, k: nat)
    requires k < |list| && list[k].client == e.client
    requires forall i :: 0 <= i < k ==> list[i].client != e.client
    ensures Overwrite(list, e) == list[k := e]
  {
    if k > 0 {
      OverwriteAt(list[1..], e, k - 1);
      assert [list[0]] + list[1..][k - 1 := e] == list[k := e];
    }
  }

  predicate IsFirst(list: seq<Choice>, i: int, c: Client) {
    0 <= i < |list| && list[i].client == c && forall j :: 0 <= j < i ==> list[j].client != c
  }

  /** A choice takes the place of the client's first one, or stands in front of all others. */
  lemma RegisterPlaces(list: seq<Choice>, e: Choice)
    ensures forall i :: IsFirst(list, i, e.client) ==> Register(list, e) == list[i := e]
    ensures (forall x :: x in list ==> x.client != e.client) ==> Register(list, e) == [e] + list
  {
    hide Overwrite;
    forall i | IsFirst(list, i, e.client)
      ensures Register(list, e) == list[i := e]
    {
      assert list[i] in list && Has(list, e.client);
      OverwriteAt(list, e, i);
    }
  }

  lemma AskedAgrees(list: seq<Choice>, m: Latest, now: int, c: Client, t: int, timeout: int)
    requires Agrees(list, m, now, timeout) && now <= t
    ensures Agrees(Look(list, c, t, timeout).0, m, t, timeout)
    ensures Look(list, c, t, timeout).1 == Known(m, c, t, timeout)
  {
    LookKeeps(list, c, t, timeout);
  }

  /** A choice may be made at any time, also one before all questions. */
  lemma RegisterAgrees(list: seq<Choice>, m: Latest, now: int, e: Choice, timeout: int)
    requires Agrees(list, m, now, timeout)
    ensures Agrees(Register(list, e), m[e.client := e], now, timeout)
  {
    hide Overwrite, Expired;
    if Has(list, e.client) {
      OverwriteIs(list, e);
      var next := Overwrite(list, e);
      forall c | Has(list, c)
        ensures Has(next, c)
      {
        var i :| 0 <= i < |list| && list[i].client == c;
        assert next[i] in next;
      }
    } else {
      var next := [e] + list;
      assert forall x :: x in next <==> x == e || x in list;
      forall c | c in m && c != e.client && !Has(next, c)
        ensures !Has(list, c)
      {
      }
    }
  }

  lemma ChoseFirst(list: seq<Choice>, m: Latest, es: seq<Event>, timeout: int)
    requires es != [] && es[0].Chose?
    ensures var e, rest := es[0].choice, es[1..];
      && Times(es) == Times(rest)
      && Answers(list, es, timeout) == Answers(Register(list, e), rest, timeout)
      && MapAnswers(m, es, timeout) == MapAnswers(m[e.client := e], rest, timeout)
      && Run(list, es, timeout) == Run(Register(list, e), rest, timeout)
  {
    hide Register;
  }

  lemma AskedFirst(list: seq<Choice>, m: Latest, now: int, es: seq<Event>, timeout: int)
    requires es != [] && es[0].Asked?
    ensures var c, t, rest := es[0].client, es[0].now, es[1..];
      && (Forward(Times(es), now) ==> now <= t && Forward(Times(rest), t))
      && Answers(list, es, timeout) == [Look(list, c, t, timeout).1] + Answers(Look(list, c, t, timeout).0, rest, timeout)
      && MapAnswers(m, es, timeout) == [Known(m, c, t, timeout)] + MapAnswers(m, rest, timeout)
      && Run(list, es, timeout) == Run(Look(list, c, t, timeout).0, rest, timeout)
  {
    hide Look, Known;
    assert Times(es)[1..] == Times(es[1..]);
  }

  /** However the questions prune the list, the answers are those of the map. */
  lemma {:induction false} CacheIsMap(list: seq<Choice>, m: Latest, now: int, es: seq<Event>, timeout: int)
    requires Agrees(list, m, now, timeout) && Forward(Times(es), now)
    ensures Answers(list, es, timeout) == MapAnswers(m, es, timeout)
    ensures OnePerClient(Run(list, es, timeout))
    decreases |es|
  {
    if es != [] {
      hide Look, Known, Register, Agrees, OnePerClient, Answers, MapAnswers, Run, Times, Forward;
      match es[0]
      case Chose(e) =>
        ChoseFirst(list, m, es, timeout);
        RegisterAgrees(list, m, now, e, timeout);
        CacheIsMap(Register(list, e), m[e.client := e], now, es[1..], timeout);
      case Asked(c, t) =>
        AskedFirst(list, m, now, es, timeout);
        AskedAgrees(list, m, now, c, t, timeout);
        CacheIsMap(Look(list, c, t, timeout).0, m, t, es[1..], timeout);
    }
  }

  // ---- When the clock goes back ----

  const SOMEBODY: Client := Client([], 0)

  const OTHER: Client := Client([], 1)

  function Others(ts: seq<int>): (es: seq<Event>)
    ensures Times(es) == ts
  {
    if ts == [] then [] else [Asked(OTHER, ts[0])] + Others(ts[1..])
  }

  /**
   Before the first question behind which the clock goes back somebody chooses, just so long
   ago that the choice has timed out at that question and not at the next one.
   */
  function Trap(ts: seq<int>, timeout: int): (es: seq<Event>)
    requires !NeverBack(ts)
    ensures Times(es) == ts
    decreases |ts|
  {
    if ts[0] <= ts[1] then
      TimesCons(Asked(OTHER, ts[0]), Trap(ts[1..], timeout));
      [Asked(OTHER, ts[0])] + Trap(ts[1..], timeout)
    else
      AsideTimes(ts[0], ts[1], ts[2..], ts[1] - timeout);
      assert [ts[0], ts[1]] + ts[2..] == ts;
      Aside(ts[0], ts[1], ts[2..], ts[1] - timeout)
  }

  /** One choice, a question about somebody else and then one about it. */
  function Aside(t1: int, t2: int, more: seq<int>, chosen: int): seq<Event> {
    [Chose(Choice(SOMEBODY, [], chosen))] + ([Asked(OTHER, t1)] + ([Asked(SOMEBODY, t2)] + Others(more)))
  }

  lemma TimesCons(e: Event, es: seq<Event>)
    ensures Times([e] + es) == (if e.Asked? then [e.now] else []) + Times(es)
  {
    assert ([e] + es)[1..] == es;
  }

  lemma AsideTimes(t1: int, t2: int, more: seq<int>, chosen: int)
    ensures Times(Aside(t1, t2, more, chosen)) == [t1, t2] + more
  {
    hide Times;
    var third := [Asked(SOMEBODY, t2)] + Others(more);
    TimesCons(Chose(Choice(SOMEBODY, [], chosen)), [Asked(OTHER, t1)] + third);
    TimesCons(Asked(OTHER, t1), third);
    TimesCons(Asked(SOMEBODY, t2), Others(more));
  }

  lemma {:induction false} TrapCatches(ts: seq<int>, timeout: int)
    requires !NeverBack(ts)
    ensures Answers([], Trap(ts, timeout), timeout) != MapAnswers(map[], Trap(ts, timeout), timeout)
    decreases |ts|
  {
    if ts[0] <= ts[1] {
      TrapCatches(ts[1..], timeout);
      AskedNothing(ts[0], Trap(ts[1..], timeout), timeout);
    } else {
      AsideDiffers(ts[0], ts[1], ts[2..], timeout);
    }
  }

  /** A question before any choice is answered in vain and changes nothing. */
  lemma AskedNothing(t: int, es: seq<Event>, timeout: int)
    ensures Answers([], [Asked(OTHER, t)] + es, timeout) == [None] + Answers([], es, timeout)
    ensures MapAnswers(map[], [Asked(OTHER, t)] + es, timeout) == [None] + MapAnswers(map[], es, timeout)
    ensures Answers([], es, timeout) != MapAnswers(map[], es, timeout) ==>
      Answers([], [Asked(OTHER, t)] + es, timeout) != MapAnswers(map[], [Asked(OTHER, t)] + es, timeout)
  {
    assert ([Asked(OTHER, t)] + es)[1..] == es;
    var a, b := Answers([], es, timeout), MapAnswers(map[], es, timeout);
    assert ([None] + a)[1..] == a && ([None] + b)[1..] == b;
  }

  lemma AsideDiffers(t1: int, t2: int, more: seq<int>, timeout: int)
    requires t1 > t2
    ensures var es := Aside(t1, t2, more, t2 - timeout);
      Answers([], es, timeout) != MapAnswers(map[], es, timeout)
  {
    var e, rest := Choice(SOMEBODY, [], t2 - timeout), Others(more);
    var second := [Asked(SOMEBODY, t2)] + rest;
    var first := [Asked(OTHER, t1)] + second;
    var es := Aside(t1, t2, more, t2 - timeout);
    assert es[1..] == first && first[1..] == second && second[1..] == rest;
    assert Next([], Chose(e), timeout) == [e];
    assert Look([e], OTHER, t1, timeout) == ([], None);
    assert Answers([], es, timeout) == Answers([e], first, timeout) == [None] + Answers([], second, timeout);
    assert Answers([], second, timeout)[0] == None;
    var m: Latest := map[SOMEBODY := e];
    assert MapAnswers(map[], es, timeout) == MapAnswers(m, first, timeout) == [None] + MapAnswers(m, second, timeout);
    assert MapAnswers(m, second, timeout)[0] == Some([]);
    assert Answers([], es, timeout)[1] != MapAnswers(map[], es, timeout)[1];
  }

  /**
   All runs that ask at these times answer as the map, whatever is asked and chosen in
   between, exactly if the times never go back.
   */
  lemma AgreeIffForward(ts: seq<int>, timeout: int)
    ensures NeverBack(ts)
      <==> forall es :: Times(es) == ts ==> Answers([], es, timeout) == MapAnswers(map[], es, timeout)
  {
    hide Answers, MapAnswers, Trap;
    if NeverBack(ts) {
      forall es | Times(es) == ts
        ensures Answers([], es, timeout) == MapAnswers(map[], es, timeout)
      {
        CacheIsMap([], map[], if ts == [] then 0 else ts[0], es, timeout);
      }
    } else {
      var es := Trap(ts, timeout);
      TrapCatches(ts, timeout);
    }
  }
}
