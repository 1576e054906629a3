/** The ring buffer of cameratest (fifo.c). Pointers into the data buffer are slot numbers; the
    read pointer may rest at the end of the buffer, as it does in C. */
module Fifos {
  import opened Bytes

  /** The slot `k` places after the read pointer in a ring of `n` slots. */
  ghost function Slot(read: nat, n: nat, k: nat): (w: nat)
    requires read <= n && 0 < n
    ensures w < n
  {
    if k == 0 then if read == n then 0 else read
    else var w := Slot(read, n, k - 1); if w + 1 == n then 0 else w + 1
  }

  lemma {:induction false} SlotAhead(read: nat, n: nat, j: nat, d: nat)
    requires read <= n && 0 < n && d <= n
    ensures Slot(read, n, j + d) == var w := Slot(read, n, j); if w + d < n then w + d else w + d - n
  {
    if d > 0 {
      SlotAhead(read, n, j, d - 1);
      assert j + d - 1 == j + (d - 1);
    }
  }

  /** Popping one element moves every slot one place. */
  lemma {:induction false} FirstSlot(read: nat, n: nat, k: nat)
    requires read <= n && 0 < n
    ensures Slot(read, n, 0) == if read == n then 0 else read
    ensures Slot(Slot(read, n, 0) + 1, n, k) == Slot(read, n, k + 1)
  {
    if k > 0 {
      FirstSlot(read, n, k - 1);
    }
  }

  /** In a ring with room the place to write holds no element, in a full one it holds the oldest. */
  lemma {:induction false} WriteSlot(read: nat, n: nat, count: nat, k: nat)
    requires read <= n && 0 < n && k < count <= n
    ensures Slot(read, n, k) == Slot(read, n, count) <==> k == 0 && count == n
  {
    SlotAhead(read, n, k, count - k);
  }

  /** The elements, once `x` is written to slot `w`. */
  ghost function Overwritten<T>(contents: seq<T>, read: nat, n: nat, w: nat, x: T): (r: seq<T>)
    requires read <= n && 0 < n
    ensures |r| == |contents|
    ensures forall k | 0 <= k < |r| :: r[k] == if Slot(read, n, k) == w then x else contents[k]
  {
    seq(|contents|, k requires 0 <= k < |contents| => if Slot(read, n, k) == w then x else contents[k])
  }

  lemma {:induction false} OldestOverwritten<T>(contents: seq<T>, read: nat, n: nat, x: T)
    requires read <= n && 0 < n && |contents| <= n
    ensures Overwritten(contents, read, n, Slot(read, n, |contents|), x)
      == if |contents| == n then [x] + contents[1..] else contents
  {
    forall k | 0 <= k < |contents|
      ensures Slot(read, n, k) == Slot(read, n, |contents|) <==> k == 0 && |contents| == n
    {
      WriteSlot(read, n, |contents|, k);
    }
  }

  /** An unsigned 32-bit number. */
  function Low32(a: nat): (u: nat)
    ensures u < TWO_32
    ensures a < TWO_32 ==> u == a
    ensures a == TWO_32 ==> u == 0
  {
    a % TWO_32
  }

  class Fifo<T(0)> {
    const nodeMax: nat
    const dataBuff: array<T>
    var read: nat
    var write: nat
    var nodeCount: nat
    var readTimes: nat
    var writeTimes: nat
    /** What the next pops yield, oldest first. */
    ghost var contents: seq<T>

    ghost predicate Valid()
      reads this, dataBuff
    {
      && 0 < nodeMax < TWO_32 && dataBuff.Length == nodeMax
      && read <= nodeMax && nodeCount < TWO_32
      && write == Slot(read, nodeMax, nodeCount)
      && |contents| == nodeCount && (forall k | 0 <= k < nodeCount :: contents[k] == dataBuff[Slot(read, nodeMax, k)])
      && readTimes < TWO_32 && writeTimes == Low32(readTimes + nodeCount)
    }

    constructor (n: nat)
      requires 0 < n < TWO_32
      ensures Valid() && contents == [] && nodeMax == n && fresh(dataBuff) && read == 0
    {
      nodeMax, read, write, nodeCount, readTimes, writeTimes := n, 0, 0, 0, 0, 0;
      contents := [];
      dataBuff := new T[n];
    }

    /** The test at the head of FIFO_Push. */
    predicate LooksFull()
      reads this
    {
      write == read && writeTimes > readTimes
    }

    /** A ring with room never looks full, however often the 32-bit counters have wrapped; a full
        one is missed when the read pointer rests at the end or only the write counter has wrapped. */
    lemma {:induction false} FullTest()
      requires Valid() && nodeCount <= nodeMax
      ensures LooksFull() <==> nodeCount == nodeMax && read < nodeMax && readTimes + nodeCount < TWO_32
    {
      SlotAhead(read, nodeMax, 0, nodeCount);
    }

    /** A ring with room takes `x`. A full one that looks full refuses it. A full one that does not
        takes it in the place of the oldest element: that one is lost, `x` comes first and last,
        and the ring counts one element more than it has slots. */
    method Push(x: T) returns (ret: int)
      requires Valid()
      modifies this, dataBuff
      ensures read == old(read)
      ensures old(LooksFull()) ==> ret == -1 && Valid() && contents == old(contents) && nodeCount == old(nodeCount)
      ensures !old(LooksFull()) ==> ret == 1 && nodeCount == Low32(old(nodeCount) + 1)
      ensures !old(LooksFull()) && old(nodeCount) + 1 < TWO_32 ==>
        Valid() && contents == Overwritten(old(contents), read, nodeMax, old(write), x) + [x]
      ensures old(nodeCount) < nodeMax ==> ret == 1 && contents == old(contents) + [x]
      ensures ret == 1 && old(nodeCount) == nodeMax && nodeMax + 1 < TWO_32 ==>
        contents == [x] + old(contents)[1..] + [x]
    {
      hide Slot, Low32;
      if nodeCount <= nodeMax {
        FullTest();
        OldestOverwritten(contents, read, nodeMax, x);
      }
      if write == read && writeTimes > readTimes {
        return -1;
      }
      SlotAhead(read, nodeMax, nodeCount, 1);
      dataBuff[write] := x;
      ghost var overwritten := Overwritten(contents, read, nodeMax, write, x);
      assert forall k | 0 <= k < nodeCount :: overwritten[k] == dataBuff[Slot(read, nodeMax, k)];
      contents := overwritten + [x];
      write := write + 1;
      if write == nodeMax {
        write := 0;
      }
      nodeCount := Low32(nodeCount + 1);
      writeTimes := Low32(writeTimes + 1);
      ret := 1;
      Incremented(readTimes + old(nodeCount));
    }

    /** On an empty ring FIFO_Pop leaves its argument alone and returns -1. */
    method Pop(previous: T) returns (ret: int, x: T)
      requires Valid()
      modifies this
      ensures Valid()
      ensures old(contents) == [] ==> ret == -1 && x == previous && contents == [] && read == old(read)
      ensures old(contents) != [] ==> ret == 1 && old(contents) == [x] + contents
      ensures old(contents) != [] ==> read == (if old(read) == nodeMax then 0 else old(read)) + 1
    {
      hide Slot;
      if nodeCount == 0 {
        return -1, previous;
      }
      ghost var was := read;
      FirstSlot(was, nodeMax, 0);
      if read == nodeMax {
        read := 0;
      }
      x := dataBuff[read];
      read := read + 1;
      readTimes := Low32(readTimes + 1);
      nodeCount := nodeCount - 1;
      ret := 1;
      contents := contents[1..];
      forall k | 0 <= k <= nodeCount ensures Slot(read, nodeMax, k) == Slot(was, nodeMax, k + 1) {
        FirstSlot(was, nodeMax, k);
      }
    }
  }

  lemma {:induction false} Incremented(a: nat)
    ensures Low32(Low32(a) + 1) == Low32(a + 1)
  {
  }

  /** As many pushes as there are slots. */
  method Fill(ring: Fifo<nat>, xs: seq<nat>)
    requires ring.Valid() && ring.contents == [] && |xs| == ring.nodeMax
    modifies ring, ring.dataBuff
    ensures ring.Valid() && ring.contents == xs && ring.read == old(ring.read)
  {
    hide Low32;
    for i := 0 to |xs|
      invariant ring.Valid() && ring.contents == xs[..i] && ring.read == old(ring.read)
    {
      var _ := ring.Push(xs[i]);
    }
  }

  /** As many pops, starting at the first slot. */
  method Drain(ring: Fifo<nat>)
    requires ring.Valid() && |ring.contents| == ring.nodeMax && ring.read == 0
    modifies ring
    ensures ring.Valid() && ring.contents == [] && ring.read == ring.nodeMax
  {
    for i := 0 to ring.nodeMax
      invariant ring.Valid() && |ring.contents| == ring.nodeMax - i && ring.read == i
    {
      var _, x := ring.Pop(0);
    }
  }

  /** A ring that was filled, emptied and filled again is full and does not look it: the next push
      is accepted, and the next pop yields that newest element, while the oldest one is lost. */
  method MissesFull(first: seq<nat>, second: seq<nat>, newest: nat) returns (ring: Fifo<nat>, ret: int, x: nat)
    requires 0 < |first| == |second| < TWO_32 - 1
    ensures ring.Valid() && ring.nodeMax == |second|
    ensures ret == 1 && x == newest && ring.contents == second[1..] + [newest]
  {
    hide Slot, Overwritten, Low32;
    ring := new Fifo<nat>(|first|);
    Fill(ring, first);
    Drain(ring);
    Fill(ring, second);
    ring.FullTest();
    ret := ring.Push(newest);
    var _, y := ring.Pop(0);
    x := y;
  }
}
