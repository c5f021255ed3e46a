/**
 The linked list of choices on the heap: records unlinked while the list is walked, a record
 found overwritten in place, a new one linked in front.
 */
module ChooseCache {

  import opened Wrappers
  import opened ChooseModel

  class ChoiceRec {

    var next: ChoiceRec?
    const client: Client
    var choice: seq<int>
    var time: int

    constructor (client: Client, choice: seq<int>, time: int, next: ChoiceRec?)
      ensures Value() == Choice(client, choice, time) && this.next == next
    {
      this.client, this.choice, this.time, this.next := client, choice, time, next;
    }

    function Value(): Choice
      reads this`choice, this`time
    {
      Choice(client, choice, time)
    }
  }

  /** A list that starts at first and runs through these records, each of them once. */
  ghost predicate Linked(first: ChoiceRec?, recs: seq<ChoiceRec>)
    reads recs`next
  {
    && first == Rec(recs, 0)
    && (forall i {:trigger recs[i].next} :: 0 <= i < |recs| ==> recs[i].next == Rec(recs, i + 1))
    && (forall i, j :: 0 <= i < j < |recs| ==> recs[i] != recs[j])
  }

  ghost function Rec(recs: seq<ChoiceRec>, i: nat): ChoiceRec? {
    if i < |recs| then recs[i] else null
  }

  ghost function Values(recs: seq<ChoiceRec>): (v: seq<Choice>)
    reads recs`choice, recs`time
    ensures |v| == |recs| && forall i :: 0 <= i < |v| ==> v[i] == recs[i].Value()
  {
    if recs == [] then [] else [recs[0].Value()] + Values(recs[1..])
  }

  class ChoiceCache {

    var choices: ChoiceRec?
    const choiceTimeout: int
    /** The records in the order of the list. */
    ghost var recs: seq<ChoiceRec>

    ghost predicate Valid()
      reads this`choices, this`recs, recs`next
    {
      Linked(choices, recs)
    }

    ghost function Contents(): (v: seq<Choice>)
      reads this`recs, recs`choice, recs`time
      ensures |v| == |recs| && forall i :: 0 <= i < |v| ==> v[i] == recs[i].Value()
    {
      Values(recs)
    }

    lemma Links(k: nat)
      requires Valid() && k < |recs|
      ensures choices == recs[0] && recs[k].next == Rec(recs, k + 1)
    {
    }

    ghost function Records(): set<ChoiceRec>
      reads this`recs
    {
      set r | r in recs
    }

    constructor (choiceTimeout: int)
      ensures Valid() && recs == [] && this.choiceTimeout == choiceTimeout
    {
      choices, recs, this.choiceTimeout := null, [], choiceTimeout;
    }

    /** The record c behind prev is taken out of the list. */
    method Unlink(prev: ChoiceRec?, c: ChoiceRec, ghost k: nat)
      requires Valid() && k < |recs| && c == recs[k]
      requires prev == if k > 0 then recs[k - 1] else null
      modifies this`choices, this`recs, Records()`next
      ensures Valid() && recs == old(recs[..k] + recs[k + 1..])
      ensures Contents() == old(Contents()[..k] + Contents()[k + 1..])
    {
      hide Values;
      var next := c.next;
      if prev != null {
        prev.next := next;
      } else {
        choices := next;
      }
      recs := recs[..k] + recs[k + 1..];
    }

    method IndirectChoice(client: Client, now: int) returns (found: Option<seq<int>>)
      requires Valid()
      modifies this`choices, this`recs, Records()`next
      ensures Valid() && (Contents(), found) == Look(old(Contents()), client, now, choiceTimeout)
      ensures Records() <= old(Records())
    {
      hide Look, LookFrom, Values;
      var prev: ChoiceRec? := null;
      var c := choices;
      ghost var k := 0;
      LookBegins(Contents(), client, now, choiceTimeout);
      while c != null
        invariant Valid() && k <= |recs| && c == Rec(recs, k)
        invariant prev == if k > 0 then recs[k - 1] else null
        invariant Records() <= old(Records())
        invariant LookFrom(Contents(), k, client, now, choiceTimeout) == Look(old(Contents()), client, now, choiceTimeout)
        decreases |recs| - k
      {
        var next := c.next;
        Links(k);
        LookStep(Contents(), k, client, now, choiceTimeout);
        if now - c.time > choiceTimeout {
          Unlink(prev, c, k);
        } else {
          if client == c.client {
            return Some(c.choice);
          }
          prev := c;
          k := k + 1;
        }
        c := next;
      }
      LookEnds(Contents(), client, now, choiceTimeout);
      found := None;
    }

    method RegisterIndirectChoice(client: Client, choice: seq<int>, now: int)
      requires Valid()
      modifies this, Records()
      ensures Valid() && Contents() == Register(old(Contents()), Choice(client, choice, now))
      ensures fresh(Records() - old(Records()))
    {
      hide Overwrite, Values;
      ghost var e := Choice(client, choice, now);
      var c := choices;
      ghost var k := 0;
      while c != null && client != c.client
        modifies {}
        invariant k <= |recs| && c == Rec(recs, k)
        invariant forall i :: 0 <= i < k ==> Contents()[i].client != client
        decreases |recs| - k
      {
        Links(k);
        c := c.next;
        k := k + 1;
      }
      if c == null {
        InFront(client, choice, now);
      } else {
        assert Contents()[k] in Contents();
        OverwriteAt(Contents(), e, k);
        c.choice := choice;
        c.time := now;
        assert Contents() == old(Contents())[k := e];
      }
    }

    method InFront(client: Client, choice: seq<int>, now: int)
      requires Valid()
      modifies this`choices, this`recs
      ensures Valid() && Contents() == [Choice(client, choice, now)] + old(Contents())
      ensures fresh(Records() - old(Records()))
    {
      var rec := new ChoiceRec(client, choice, now, choices);
      choices := rec;
      recs := [rec] + recs;
      assert recs[1..] == old(recs);
    }
  }

  /** The first k records have been looked at and stay. */
  ghost function LookFrom(list: seq<Choice>, k: nat, c: Client, now: int, timeout: int): (seq<Choice>, Option<seq<int>>)
    requires k <= |list|
  {
    var (rest, host) := Look(list[k..], c, now, timeout);
    (list[..k] + rest, host)
  }

  lemma LookBegins(list: seq<Choice>, c: Client, now: int, timeout: int)
    ensures LookFrom(list, 0, c, now, timeout) == Look(list, c, now, timeout)
  {
    assert list[0..] == list && list[..0] == [];
    var rest := Look(list, c, now, timeout).0;
    assert [] + rest == rest;
  }

  lemma LookEnds(list: seq<Choice>, c: Client, now: int, timeout: int)
    ensures LookFrom(list, |list|, c, now, timeout) == (list, None)
  {
    assert list[|list|..] == [] && list[..|list|] == list && list + [] == list;
  }

  lemma LookStep(list: seq<Choice>, k: nat, c: Client, now: int, timeout: int)
    requires k < |list|
    ensures LookFrom(list, k, c, now, timeout) ==
      if Expired(list[k], now, timeout) then LookFrom(list[..k] + list[k + 1..], k, c, now, timeout)
      else if list[k].client == c then (list, Some(list[k].host))
      else LookFrom(list, k + 1, c, now, timeout)
  {
    assert list[k..][1..] == list[k + 1..];
    var without := list[..k] + list[k + 1..];
    assert without[k..] == list[k + 1..] && without[..k] == list[..k];
    assert list[..k] + list[k..] == list;
    assert list[..k] + [list[k]] == list[..k + 1];
    var rest := Look(list[k + 1..], c, now, timeout).0;
    assert list[..k] + ([list[k]] + rest) == list[..k] + [list[k]] + rest;
  }
}
