/**
 The debugging allocator as values: the blocks in use, newest first, and the counters of the
 report at exit.
 */
module AllocModel {

  datatype Block = Block(ptr: int, size: nat, isArray: bool)

  datatype Tracker = Tracker(
    live: seq<Block>,
    news: nat, deletes: nat,
    arrayNews: nat, arrayDeletes: nat,
    incorrectDeletes: nat, badDeletes: nat,
    total: int, used: int, peak: int)

  const EMPTY: Tracker := Tracker([], 0, 0, 0, 0, 0, 0, 0, 0, 0)

  /** What an int of 32 bits keeps of a number. */
  function Int32(n: int): (r: int)
    ensures -0x8000_0000 <= r < 0x8000_0000
  {
    if -0x8000_0000 <= n < 0x8000_0000 then n else (n + 0x8000_0000) % 0x1_0000_0000 - 0x8000_0000
  }

  lemma Int32Is(n: int)
    requires 0 <= n
    ensures Int32(n) == n <==> n < 0x8000_0000
  {
  }

  /** Wrapping once at the end is wrapping all along. */
  lemma Int32Adds(a: int, b: int)
    ensures Int32(Int32(a) + b) == Int32(a + b)
  {
    hide Int32;
    var k := Wraps(a);
    var l := Wraps(Int32(a) + b);
    WrapsOnce(a + b, Int32(Int32(a) + b), k + l);
  }

  /** What is dropped is a multiple of 2^32. */
  lemma Wraps(n: int) returns (k: int)
    ensures n == Int32(n) + k * 0x1_0000_0000
  {
    k := (n + 0x8000_0000) / 0x1_0000_0000;
  }

  /** The only number of 32 bits that differs by such a multiple. */
  lemma WrapsOnce(n: int, r: int, k: int)
    requires n == r + k * 0x1_0000_0000 && -0x8000_0000 <= r < 0x8000_0000
    ensures Int32(n) == r
  {
    assert (n + 0x8000_0000) / 0x1_0000_0000 == k;
  }

  /** A new with the address malloc gave it, or a delete of any address. */
  datatype Event = New(block: Block) | Delete(ptr: int, isArray: bool)

  /** The place of the block with this address, |live| if there is none. */
  function Find(live: seq<Block>, ptr: int): (i: nat)
    ensures i <= |live|
    ensures i < |live| ==> live[i].ptr == ptr
    ensures forall k :: 0 <= k < i ==> live[k].ptr != ptr
  {
    if live == [] || live[0].ptr == ptr then 0 else Find(live[1..], ptr) + 1
  }

  /** GetMem */
  function GetMem(t: Tracker, b: Block): Tracker {
    var used := Int32(t.used + b.size);
    t.(live := [b] + t.live,
       news := if b.isArray then t.news else t.news + 1,
       arrayNews := if b.isArray then t.arrayNews + 1 else t.arrayNews,
       total := Int32(t.total + b.size),
       used := used,
       peak := if used > t.peak then used else t.peak)
  }

  /** What ReleaseMem does with the block it finds. */
  function ReleaseAt(t: Tracker, i: nat, isArray: bool): Tracker
    requires i < |t.live|
  {
    var b := t.live[i];
    t.(live := t.live[..i] + t.live[i + 1..],
       deletes := if isArray then t.deletes else t.deletes + 1,
       arrayDeletes := if isArray then t.arrayDeletes + 1 else t.arrayDeletes,
       incorrectDeletes := if b.isArray != isArray then t.incorrectDeletes + 1 else t.incorrectDeletes,
       used := Int32(t.used - b.size))
  }

  /** ReleaseMem */
  function ReleaseMem(t: Tracker, ptr: int, isArray: bool): Tracker {
    var i := Find(t.live, ptr);
    if ptr == 0 || i == |t.live| then t.(badDeletes := t.badDeletes + 1) else ReleaseAt(t, i, isArray)
  }

  function Next(t: Tracker, e: Event): Tracker {
    match e
    case New(b) => GetMem(t, b)
    case Delete(p, isArray) => ReleaseMem(t, p, isArray)
  }

  function Run(t: Tracker, es: seq<Event>): Tracker
    decreases |es|
  {
    if es == [] then t else Run(Next(t, es[0]), es[1..])
  }

  /** malloc never gives out an address in use. */
  predicate Sound(t: Tracker, es: seq<Event>)
    decreases |es|
  {
    es == [] || (
      && (es[0].New? ==> es[0].block.ptr != 0 && Find(t.live, es[0].block.ptr) == |t.live|)
      && Sound(Next(t, es[0]), es[1..]))
  }

  // ---- What the counters mean ----

  predicate DistinctPtrs(live: seq<Block>) {
    && (forall i, j :: 0 <= i < j < |live| ==> live[i].ptr != live[j].ptr)
    && forall i :: 0 <= i < |live| ==> live[i].ptr != 0
  }

  function Sum(live: seq<Block>): nat {
    if live == [] then 0 else live[0].size + Sum(live[1..])
  }

  function Arrays(live: seq<Block>): nat {
    if live == [] then 0 else (if live[0].isArray then 1 else 0) + Arrays(live[1..])
  }

  ghost predicate Balanced(t: Tracker) {
    && DistinctPtrs(t.live)
    && t.used == Int32(Sum(t.live))
    && t.news + t.arrayNews == t.deletes + t.arrayDeletes + |t.live|
    && 0 <= t.peak < 0x8000_0000
    && (t.incorrectDeletes == 0 ==> t.arrayNews == t.arrayDeletes + Arrays(t.live))
  }

  lemma {:induction false} SumSplit(a: seq<Block>, b: seq<Block>)
    ensures Sum(a + b) == Sum(a) + Sum(b)
    ensures Arrays(a + b) == Arrays(a) + Arrays(b)
  {
    if a == [] {
      assert a + b == b;
    } else {
      SumSplit(a[1..], b);
      assert (a + b)[0] == a[0] && (a + b)[1..] == a[1..] + b;
    }
  }

  lemma TakenOut(live: seq<Block>, i: nat)
    requires i < |live|
    ensures Sum(live[..i] + live[i + 1..]) == Sum(live) - live[i].size
    ensures Arrays(live[..i] + live[i + 1..]) == Arrays(live) - if live[i].isArray then 1 else 0
  {
    assert live == live[..i] + live[i..];
    SumSplit(live[..i], live[i..]);
    SumSplit(live[..i], live[i + 1..]);
    assert live[i..][1..] == live[i + 1..];
  }

  lemma NextBalanced(t: Tracker, e: Event)
    requires Balanced(t)
    requires e.New? ==> e.block.ptr != 0 && Find(t.live, e.block.ptr) == |t.live|
    ensures Balanced(Next(t, e))
  {
    hide Int32, DistinctPtrs, Find;
    match e
    case New(b) =>
      assert ([b] + t.live)[1..] == t.live;
      DistinctFront(t.live, b);
      Int32Adds(Sum(t.live), b.size);
    case Delete(p, _) =>
      var i := Find(t.live, p);
      if i < |t.live| {
        TakenOut(t.live, i);
        DistinctLeft(t.live, i);
        Int32Adds(Sum(t.live), 0 - t.live[i].size);
      }
  }

  lemma DistinctFront(live: seq<Block>, b: Block)
    requires DistinctPtrs(live) && b.ptr != 0 && Find(live, b.ptr) == |live|
    ensures DistinctPtrs([b] + live)
  {
  }

  lemma DistinctLeft(live: seq<Block>, i: nat)
    requires DistinctPtrs(live) && i < |live|
    ensures DistinctPtrs(live[..i] + live[i + 1..])
  {
  }

  /** After every sound run the counters are what they are called. */
  lemma {:induction false} RunBalanced(t: Tracker, es: seq<Event>)
    requires Balanced(t) && Sound(t, es)
    ensures Balanced(Run(t, es))
    decreases |es|
  {
    hide Balanced, Next;
    if es != [] {
      NextBalanced(t, es[0]);
      RunBalanced(Next(t, es[0]), es[1..]);
    }
  }

  lemma EmptyBalanced()
    ensures Balanced(EMPTY) && Sum(EMPTY.live) == 0 && EMPTY.peak == 0
  {
    assert DistinctPtrs(EMPTY.live) && Sum(EMPTY.live) == 0 && Arrays(EMPTY.live) == 0;
  }

  lemma CountersOf(t: Tracker)
    requires Balanced(t)
    ensures t.used == Int32(Sum(t.live)) && 0 <= t.peak < 0x8000_0000
  {
  }

  /** A delete is bad exactly if the address is not in use, and then only counted. */
  lemma BadDeleteIff(t: Tracker, ptr: int, isArray: bool)
    requires Balanced(t)
    ensures var r := ReleaseMem(t, ptr, isArray);
      if exists b :: b in t.live && b.ptr == ptr then r.badDeletes == t.badDeletes && |r.live| == |t.live| - 1
      else r == t.(badDeletes := t.badDeletes + 1)
  {
    var i := Find(t.live, ptr);
    if i < |t.live| {
      assert t.live[i] in t.live;
    }
  }

  /** The most memory in use at any moment of a run. */
  function Highest(t: Tracker, es: seq<Event>): (h: nat)
    ensures h >= Sum(t.live)
    decreases |es|
  {
    if es == [] then Sum(t.live)
    else
      var h := Highest(Next(t, es[0]), es[1..]);
      if h > Sum(t.live) then h else Sum(t.live)
  }

  lemma {:induction false} PeakOfRun(t: Tracker, es: seq<Event>)
    requires Balanced(t) && Sound(t, es) && Sum(t.live) <= t.peak && Highest(t, es) < 0x8000_0000
    ensures Run(t, es).peak == if Highest(t, es) > t.peak then Highest(t, es) else t.peak
    decreases |es|
  {
    if es != [] {
      var e := es[0];
      NextBalanced(t, e);
      assert Highest(Next(t, e), es[1..]) <= Highest(t, es);
      PeakStep(t, e);
      PeakOfRun(Next(t, e), es[1..]);
    }
  }

  lemma PeakStep(t: Tracker, e: Event)
    requires Balanced(t) && Balanced(Next(t, e)) && Sum(t.live) <= t.peak && Sum(Next(t, e).live) < 0x8000_0000
    ensures var s := Sum(Next(t, e).live); Next(t, e).peak == if s > t.peak then s else t.peak
  {
    hide Int32;
    Int32Is(Sum(Next(t, e).live));
    if e.Delete? {
      var i := Find(t.live, e.ptr);
      if i < |t.live| {
        TakenOut(t.live, i);
      }
    }
  }

  /** PeakMem is the peak of the memory in use exactly as long as that fits into an int. */
  lemma PeakIff(es: seq<Event>)
    requires Sound(EMPTY, es)
    ensures Run(EMPTY, es).peak == Highest(EMPTY, es) <==> Highest(EMPTY, es) < 0x8000_0000
  {
    hide Run, Highest, Sound, Balanced, EMPTY, Sum;
    EmptyBalanced();
    RunBalanced(EMPTY, es);
    CountersOf(Run(EMPTY, es));
    if Highest(EMPTY, es) < 0x8000_0000 {
      PeakOfRun(EMPTY, es);
    }
  }

  /** UsedMem is the memory in use exactly as long as that fits. */
  lemma UsedIff(es: seq<Event>)
    requires Sound(EMPTY, es)
    ensures var r := Run(EMPTY, es);
      r.used == Sum(r.live) <==> Sum(r.live) < 0x8000_0000
  {
    hide Run, Sound, Int32, Balanced, EMPTY, Sum;
    EmptyBalanced();
    RunBalanced(EMPTY, es);
    CountersOf(Run(EMPTY, es));
    Int32Is(Sum(Run(EMPTY, es).live));
  }

  // ---- Which blocks are left ----

  predicate InUse(t: Tracker, ptr: int) {
    exists b | b in t.live :: b.ptr == ptr
  }

  predicate Deletes(e: Event, ptr: int) {
    e.Delete? && e.ptr == ptr
  }

  /** Event i allocates the address and nothing after it deletes it. */
  predicate LastNew(es: seq<Event>, ptr: int, i: nat) {
    && i < |es| && es[i].New? && es[i].block.ptr == ptr
    && forall j :: i < j < |es| ==> !Deletes(es[j], ptr)
  }

  lemma NextInUse(t: Tracker, e: Event, ptr: int)
    requires Balanced(t)
    ensures InUse(Next(t, e), ptr) <==> (e.New? && e.block.ptr == ptr) || (InUse(t, ptr) && !Deletes(e, ptr))
  {
    hide Int32, Sum, Arrays;
    match e
    case New(b) =>
      assert forall x :: x in [b] + t.live <==> x == b || x in t.live;
    case Delete(p, isArray) =>
      var i := Find(t.live, p);
      if p != 0 && i < |t.live| {
        WithoutInUse(t, i, isArray, ptr);
      }
  }

  lemma WithoutInUse(t: Tracker, i: nat, isArray: bool, ptr: int)
    requires DistinctPtrs(t.live) && i < |t.live|
    ensures InUse(ReleaseAt(t, i, isArray), ptr) <==> InUse(t, ptr) && t.live[i].ptr != ptr
  {
    hide Int32;
    var live := t.live;
    var left := live[..i] + live[i + 1..];
    assert forall k :: 0 <= k < |left| ==> left[k] == live[if k < i then k else k + 1];
    if InUse(t, ptr) && live[i].ptr != ptr {
      var k :| 0 <= k < |live| && live[k].ptr == ptr;
      assert left[if k < i then k else k - 1] == live[k];
    }
    if b :| b in left && b.ptr == ptr {
      var k :| 0 <= k < |left| && left[k] == b;
      assert live[if k < i then k else k + 1] == b;
    }
  }

  /** The blocks left are those whose last event is their allocation. */
  lemma {:induction false} InUseIff(t: Tracker, es: seq<Event>, ptr: int)
    requires Balanced(t) && Sound(t, es)
    ensures InUse(Run(t, es), ptr)
       <==> (exists i :: LastNew(es, ptr, i)) || (InUse(t, ptr) && forall j :: 0 <= j < |es| ==> !Deletes(es[j], ptr))
    decreases |es|
  {
    hide Balanced, InUse, Next;
    if es != [] {
      var rest := es[1..];
      NextBalanced(t, es[0]);
      NextInUse(t, es[0], ptr);
      InUseIff(Next(t, es[0]), rest, ptr);
      forall i: nat | LastNew(rest, ptr, i)
        ensures LastNew(es, ptr, i + 1)
      {
      }
      forall i: nat | i > 0 && LastNew(es, ptr, i)
        ensures LastNew(rest, ptr, i - 1)
      {
        forall j | i - 1 < j < |rest|
          ensures !Deletes(rest[j], ptr)
        {
          assert rest[j] == es[j + 1];
        }
      }
      assert (forall j :: 0 <= j < |rest| ==> !Deletes(rest[j], ptr)) <==> (forall j :: 0 < j < |es| ==> !Deletes(es[j], ptr)) by {
        assert forall j :: 0 <= j < |rest| ==> rest[j] == es[j + 1];
        assert forall j :: 0 < j < |es| ==> es[j] == rest[j - 1];
      }
      assert LastNew(es, ptr, 0) <==> es[0].New? && es[0].block.ptr == ptr && forall j :: 0 < j < |es| ==> !Deletes(es[j], ptr);
    }
  }

  // ---- What is counted ----

  datatype Counter = News | ArrayNews | Deletes | ArrayDeletes | IncorrectDeletes | BadDeletes

  /** The events each counter stands for. */
  predicate Counted(t: Tracker, e: Event, c: Counter) {
    match c
    case News => e.New? && !e.block.isArray
    case ArrayNews => e.New? && e.block.isArray
    case Deletes => e.Delete? && !e.isArray && InUse(t, e.ptr)
    case ArrayDeletes => e.Delete? && e.isArray && InUse(t, e.ptr)
    case IncorrectDeletes => e.Delete? && exists b | b in t.live :: b.ptr == e.ptr && b.isArray != e.isArray
    case BadDeletes => e.Delete? && !InUse(t, e.ptr)
  }

  function Count(t: Tracker, es: seq<Event>, c: Counter): nat
    decreases |es|
  {
    if es == [] then 0 else (if Counted(t, es[0], c) then 1 else 0) + Count(Next(t, es[0]), es[1..], c)
  }

  function Value(t: Tracker, c: Counter): int {
    match c
    case News => t.news
    case ArrayNews => t.arrayNews
    case Deletes => t.deletes
    case ArrayDeletes => t.arrayDeletes
    case IncorrectDeletes => t.incorrectDeletes
    case BadDeletes => t.badDeletes
  }

  function Allocated(es: seq<Event>): nat {
    if es == [] then 0 else (if es[0].New? then es[0].block.size else 0) + Allocated(es[1..])
  }

  /** Each counter grows with exactly the events it stands for, and TotalMem with every allocation, in 32 bits. */
  lemma {:induction false} CountersAre(t: Tracker, es: seq<Event>, c: Counter)
    requires Balanced(t) && Sound(t, es)
    ensures Value(Run(t, es), c) == Value(t, c) + Count(t, es, c)
    ensures t.total == Int32(t.total) ==> Run(t, es).total == Int32(t.total + Allocated(es))
    decreases |es|
  {
    hide Balanced, Next, Counted, Value, Int32;
    if es != [] {
      NextBalanced(t, es[0]);
      CounterStep(t, es[0], c);
      CountersAre(Next(t, es[0]), es[1..], c);
      if t.total == Int32(t.total) {
        TotalStep(t, es[0], Allocated(es[1..]));
      }
    }
  }

  lemma CounterStep(t: Tracker, e: Event, c: Counter)
    requires Balanced(t)
    ensures Value(Next(t, e), c) == Value(t, c) + if Counted(t, e, c) then 1 else 0
  {
    hide Int32, Sum, Arrays;
    if e.Delete? {
      var i := Find(t.live, e.ptr);
      if i < |t.live| {
        assert t.live[i] in t.live && InUse(t, e.ptr);
        forall b | b in t.live && b.ptr == e.ptr ensures b == t.live[i] {
          var k :| 0 <= k < |t.live| && t.live[k] == b;
        }
      }
    }
  }

  lemma TotalStep(t: Tracker, e: Event, more: nat)
    requires t.total == Int32(t.total)
    ensures var size := if e.New? then e.block.size else 0;
      Next(t, e).total == Int32(Next(t, e).total)
      && Int32(Next(t, e).total + more) == Int32(t.total + (size + more))
  {
    hide Int32;
    var size := if e.New? then e.block.size else 0;
    Int32Adds(t.total + size, more);
    Int32Adds(t.total + size, 0);
    Int32Adds(t.total, 0);
  }
}
