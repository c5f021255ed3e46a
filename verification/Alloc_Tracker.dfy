/**
 The doubly linked list of the debugging allocator on the heap, with the global pointers and
 counters the program updates in every call.
 */
module AllocTracker {

  import opened AllocModel

  class SMem {

    var Next: SMem?
    var Prev: SMem?
    const Ptr: int
    const Size: nat
    const Flags: bool

    constructor (ptr: int, size: nat, flags: bool)
      ensures Value() == Block(ptr, size, flags)
    {
      Ptr, Size, Flags := ptr, size, flags;
      Next, Prev := null, null;
    }

    function Value(): Block {
      Block(Ptr, Size, Flags)
    }
  }

  ghost function Mem(mems: seq<SMem>, i: int): SMem? {
    if 0 <= i < |mems| then mems[i] else null
  }

  ghost function Values(mems: seq<SMem>): (v: seq<Block>)
    ensures |v| == |mems|
    ensures forall i :: 0 <= i < |v| ==> v[i] == mems[i].Value()
  {
    seq(|mems|, i requires 0 <= i < |mems| => mems[i].Value())
  }

  lemma ValuesWithout(mems: seq<SMem>, k: nat)
    requires k < |mems|
    ensures Values(Without(mems, k)) == Values(mems)[..k] + Values(mems)[k + 1..]
  {
  }

  /** Next leads from first through the records, in order, to the end. */
  ghost predicate NextLinks(first: SMem?, mems: seq<SMem>)
    reads mems`Next
  {
    first == Mem(mems, 0) && forall i {:trigger mems[i].Next} :: 0 <= i < |mems| ==> mems[i].Next == Mem(mems, i + 1)
  }

  /** Prev leads back from last. */
  ghost predicate PrevLinks(last: SMem?, mems: seq<SMem>)
    reads mems`Prev
  {
    last == Mem(mems, |mems| - 1) && forall i {:trigger mems[i].Prev} :: 0 <= i < |mems| ==> mems[i].Prev == Mem(mems, i - 1)
  }

  ghost predicate Distinct(mems: seq<SMem>) {
    forall i, j :: 0 <= i < j < |mems| ==> mems[i] != mems[j]
  }

  ghost function Without(mems: seq<SMem>, k: nat): (r: seq<SMem>)
    requires k < |mems|
    ensures |r| == |mems| - 1
    ensures forall i :: 0 <= i < |r| ==> r[i] == mems[if i < k then i else i + 1]
  {
    mems[..k] + mems[k + 1..]
  }

  class Tracking {

    var Head: SMem?
    var Tail: SMem?
    var Curr: SMem?
    var NumNews: nat
    var NumDeletes: nat
    var NumArrayNews: nat
    var NumArrayDeletes: nat
    var IncorrectDeletes: nat
    var BadDeletes: nat
    var TotalMem: int
    var UsedMem: int
    var PeakMem: int
    /** The records in the order of the list. */
    ghost var mems: seq<SMem>

    /** Well linked both ways: Next leads from Head to Tail, Prev back. */
    ghost predicate Valid()
      reads this`Head, this`Tail, this`mems, mems`Next, mems`Prev
    {
      NextLinks(Head, mems) && PrevLinks(Tail, mems) && Distinct(mems)
    }

    ghost function Records(): set<SMem>
      reads this`mems
    {
      set m | m in mems
    }

    ghost function View(): Tracker
      reads this
    {
      Tracker(Values(mems), NumNews, NumDeletes, NumArrayNews, NumArrayDeletes,
              IncorrectDeletes, BadDeletes, TotalMem, UsedMem, PeakMem)
    }

    constructor ()
      ensures Valid() && View() == EMPTY && Records() == {}
    {
      Head, Tail, Curr, mems := null, null, null, [];
      NumNews, NumDeletes, NumArrayNews, NumArrayDeletes := 0, 0, 0, 0;
      IncorrectDeletes, BadDeletes, TotalMem, UsedMem, PeakMem := 0, 0, 0, 0, 0;
    }

    /** At the head of the list. */
    method Insert(mem: SMem)
      requires Valid() && mem !in mems
      modifies this`Head, this`Tail, this`Curr, this`mems, mem`Next, mem`Prev, Records()`Prev
      ensures Valid() && mems == [mem] + old(mems) && Curr == mem
    {
      mem.Prev := null;
      mem.Next := Head;
      if Tail == null {
        Tail := mem;
      }
      if Head != null {
        Head.Prev := mem;
      }
      Head := mem;
      Curr := mem;
      mems := [mem] + mems;
    }

    /** The way forward is closed over the record. */
    method CloseNext(ghost k: nat)
      requires Valid() && k < |mems| && Curr == mems[k]
      modifies this`Head, Records()`Next
      ensures NextLinks(Head, Without(mems, k)) && Curr.Next == old(Curr.Next)
    {
      hide Values;
      assert Curr.Next == Mem(mems, k + 1) && Curr.Prev == Mem(mems, k - 1);
      if Curr == Head {
        assert k == 0;
        Head := Curr.Next;
      } else {
        Curr.Prev.Next := Curr.Next;
      }
    }

    /** The way back. */
    method ClosePrev(ghost k: nat)
      requires PrevLinks(Tail, mems) && Distinct(mems) && k < |mems| && Curr == mems[k] && Curr.Next == Mem(mems, k + 1)
      modifies this`Tail, Records()`Prev
      ensures PrevLinks(Tail, Without(mems, k))
    {
      hide Values;
      assert Curr.Prev == Mem(mems, k - 1);
      if Curr == Tail {
        assert k == |mems| - 1;
        Tail := Curr.Prev;
      } else {
        Curr.Next.Prev := Curr.Prev;
      }
    }

    /** The record Curr points to. */
    method Remove(ghost k: nat)
      requires Valid() && k < |mems| && Curr == mems[k]
      modifies this`Head, this`Tail, this`Curr, this`mems, Records()`Next, Records()`Prev
      ensures Valid() && mems == Without(old(mems), k) && Curr == Head
    {
      assert Curr.Next == Mem(mems, k + 1);
      CloseNext(k);
      ClosePrev(k);
      mems := Without(mems, k);
      Curr := Head;
    }

    method GetMem(ptr: int, size: nat, isArray: bool)
      requires Valid()
      modifies this, Records()`Prev
      ensures Valid() && View() == AllocModel.GetMem(old(View()), Block(ptr, size, isArray))
      ensures fresh(Records() - old(Records()))
    {
      hide Int32, Values, Valid;
      var mem := new SMem(ptr, size, isArray);
      Insert(mem);
      assert Values(mems) == [mem.Value()] + old(Values(mems));
      CountNew(size, isArray);
    }

    method CountNew(size: nat, isArray: bool)
      modifies this`NumNews, this`NumArrayNews, this`TotalMem, this`UsedMem, this`PeakMem
      ensures NumNews == old(NumNews) + (if isArray then 0 else 1)
      ensures NumArrayNews == old(NumArrayNews) + (if isArray then 1 else 0)
      ensures TotalMem == Int32(old(TotalMem) + size) && UsedMem == Int32(old(UsedMem) + size)
      ensures PeakMem == if UsedMem > old(PeakMem) then UsedMem else old(PeakMem)
    {
      hide Int32;
      if isArray {
        NumArrayNews := NumArrayNews + 1;
      } else {
        NumNews := NumNews + 1;
      }
      TotalMem := Int32(TotalMem + size);
      UsedMem := Int32(UsedMem + size);
      if UsedMem > PeakMem {
        PeakMem := UsedMem;
      }
    }

    /** The check for new[] with delete and new with delete[]. */
    method CheckMem(mem: SMem, isArray: bool)
      modifies this`IncorrectDeletes
      ensures IncorrectDeletes == old(IncorrectDeletes) + if mem.Flags != isArray then 1 else 0
    {
      if mem.Flags && !isArray {
        IncorrectDeletes := IncorrectDeletes + 1;
      } else if !mem.Flags && isArray {
        IncorrectDeletes := IncorrectDeletes + 1;
      }
    }

    /** The walk of ReleaseMem: Curr ends at the record with this address or behind the list. */
    method Search(ptr: int) returns (ghost k: nat)
      requires Valid()
      modifies this`Curr
      ensures Valid() && k == Find(Values(mems), ptr) && Curr == Mem(mems, k)
    {
      hide Find;
      Curr := Head;
      k := 0;
      while Curr != null
        invariant Valid() && k <= |mems| && Curr == Mem(mems, k)
        invariant forall i :: 0 <= i < k ==> Values(mems)[i].ptr != ptr
        decreases |mems| - k
      {
        if Curr.Ptr == ptr {
          assert Values(mems)[k].ptr == ptr;
          break;
        }
        Curr := Curr.Next;
        k := k + 1;
      }
    }

    /** What ReleaseMem does with the record found. */
    method Release(isArray: bool, ghost k: nat)
      requires Valid() && k < |mems| && Curr == mems[k]
      modifies this, Records()`Next, Records()`Prev
      ensures Valid() && Records() <= old(Records())
      ensures View() == ReleaseAt(old(View()), k, isArray)
    {
      hide Int32, Valid, Values, Without, NextLinks, PrevLinks, Distinct;
      CheckMem(Curr, isArray);
      UsedMem := Int32(UsedMem - Curr.Size);
      ValuesWithout(mems, k);
      Remove(k);
      CountDelete(isArray);
    }

    method CountDelete(isArray: bool)
      modifies this`NumDeletes, this`NumArrayDeletes
      ensures NumDeletes == old(NumDeletes) + (if isArray then 0 else 1)
      ensures NumArrayDeletes == old(NumArrayDeletes) + (if isArray then 1 else 0)
    {
      if isArray {
        NumArrayDeletes := NumArrayDeletes + 1;
      } else {
        NumDeletes := NumDeletes + 1;
      }
    }

    method ReleaseMem(ptr: int, isArray: bool)
      requires Valid()
      modifies this, Records()`Next, Records()`Prev
      ensures Valid() && View() == AllocModel.ReleaseMem(old(View()), ptr, isArray)
      ensures Records() <= old(Records())
    {
      hide Int32, Find, Valid, ReleaseAt, Values;
      if ptr == 0 {
        BadDeletes := BadDeletes + 1;
        return;
      }
      ghost var k := Search(ptr);
      if Curr == null {
        BadDeletes := BadDeletes + 1;
        return;
      }
      Release(isArray, k);
    }
  }
}
