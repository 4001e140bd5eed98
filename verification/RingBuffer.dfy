/** The ring buffer of events in an input file: two addresses that wrap around, and a count. */
module RingBuffer {
  import opened Sequences

  /** Where element k of the buffer is. */
  function Address(base: nat, dataSize: nat, k: nat): nat {
    base + k * dataSize
  }

  /** The place that is i places behind place d in a ring of n. */
  function Place(n: nat, d: nat, i: nat): nat {
    if d + i >= n then if d + i - n < n then d + i - n else 0 else d + i
  }

  lemma {:induction false} Below(dataSize: nat, j: nat, k: nat)
    requires j < k
    ensures j * dataSize + dataSize <= k * dataSize
    decreases k
  {
    assert k * dataSize == (k - 1) * dataSize + dataSize;
    if j < k - 1 { Below(dataSize, j, k - 1); }
  }

  lemma AddressOrder(base: nat, dataSize: nat, j: nat, k: nat)
    requires 0 < dataSize
    ensures Address(base, dataSize, j) < Address(base, dataSize, k) <==> j < k
    ensures Address(base, dataSize, j) == Address(base, dataSize, k) <==> j == k
  {
  }

  /** Advancing wraps exactly behind the last element. */
  lemma Advances(base: nat, dataSize: nat, n: nat, k: nat)
    requires 0 < dataSize && k < n
    ensures Address(base, dataSize, k) + dataSize == Address(base, dataSize, k + 1)
    ensures Address(base, dataSize, k) + dataSize >= base + n * dataSize <==> k + 1 == n
    ensures Address(base, dataSize, 0) == base
  {
    AddressOrder(base, dataSize, k + 1, n);
    assert (k + 1) * dataSize == k * dataSize + dataSize;
  }

  lemma PlacesApart(n: nat, d: nat, i: nat, j: nat)
    requires d < n && i < n && j < n && i != j
    ensures Place(n, d, i) != Place(n, d, j) && Place(n, d, i) < n
  {
  }

  lemma PlaceMoves(n: nat, d: nat, i: nat)
    requires d < n && i < n
    ensures Place(n, d, i + 1) == if Place(n, d, i) + 1 == n then 0 else Place(n, d, i) + 1
    ensures Place(n, d, i) < n && Place(n, Place(n, d, 1), i) == Place(n, d, i + 1) && Place(n, d, 0) == d
    ensures Place(n, d, 1) < n
  {
  }

  class Ring<T> {
    /** The elements in memory, by address. */
    var memory: map<nat, T>
    const baseAddress: nat
    const ringSize: nat
    const dataSize: nat
    var enqueuePtr: nat
    var dequeuePtr: nat
    var usedCount: nat

    /** The place of the oldest element, and the elements in the order they were enqueued. */
    ghost var oldest: nat
    ghost var contents: seq<T>

    ghost predicate Valid()
      reads this
    {
      && 0 < ringSize && 0 < dataSize && oldest < ringSize && usedCount == |contents| <= ringSize
      && dequeuePtr == Address(baseAddress, dataSize, oldest)
      && enqueuePtr == Address(baseAddress, dataSize, Place(ringSize, oldest, usedCount))
      && forall i :: 0 <= i < |contents| ==> Holds(i)
    }

    ghost predicate Holds(i: nat)
      requires i < |contents|
      reads this
    {
      var a := Address(baseAddress, dataSize, Place(ringSize, oldest, i));
      a in memory && memory[a] == contents[i]
    }

    lemma Counted()
      requires Valid()
      ensures usedCount == |contents|
    {
    }

    /** ring_buffer_init. */
    constructor (baseAddress: nat, ringSize: nat, dataSize: nat)
      requires 0 < ringSize && 0 < dataSize
      ensures Valid() && contents == [] && this.ringSize == ringSize
    {
      this.baseAddress, this.ringSize, this.dataSize := baseAddress, ringSize, dataSize;
      enqueuePtr, dequeuePtr, usedCount := baseAddress, baseAddress, 0;
      memory := map[];
      oldest, contents := 0, [];
    }

    /** ring_buffer_advance_ptr, for a pointer at place k. */
    method AdvancePtr(ptr: nat, ghost k: nat) returns (r: nat)
      requires 0 < dataSize && k < ringSize && ptr == Address(baseAddress, dataSize, k)
      ensures r == Address(baseAddress, dataSize, if k + 1 == ringSize then 0 else k + 1)
    {
      Advances(baseAddress, dataSize, ringSize, k);
      r := ptr + dataSize;
      if r >= baseAddress + ringSize * dataSize {
        r := baseAddress;
      }
    }

    /** ring_buffer_enqueue: refused when the buffer is full, and otherwise the newest element. */
    method Enqueue(data: T) returns (ok: bool)
      requires Valid()
      modifies this
      ensures Valid() && (ok <==> |old(contents)| < ringSize)
      ensures contents == if ok then old(contents) + [data] else old(contents)
    {
      hide Place;
      if usedCount == ringSize { return false; }
      ghost var k := Place(ringSize, oldest, usedCount);
      PlaceMoves(ringSize, oldest, usedCount);
      memory := memory[enqueuePtr := data];
      enqueuePtr := AdvancePtr(enqueuePtr, k);
      usedCount := usedCount + 1;
      contents := contents + [data];
      forall i | 0 <= i < |contents| ensures Holds(i) {
        if i < usedCount - 1 {
          assert old(Holds(i));
          PlacesApart(ringSize, oldest, i, usedCount - 1);
          AddressOrder(baseAddress, dataSize, Place(ringSize, oldest, i), k);
        }
      }
      return true;
    }

    /** ring_buffer_dequeue: the oldest element, if there is one. */
    method Dequeue() returns (data: Option<T>)
      requires Valid()
      modifies this
      ensures Valid() && (data == None <==> old(contents) == [])
      ensures data != None ==> old(contents) == [data.value] + contents
      ensures data == None ==> contents == []
    {
      hide Place;
      if usedCount == 0 { return None; }
      PlaceMoves(ringSize, oldest, 0);
      assert Holds(0);
      data := Some(memory[dequeuePtr]);
      dequeuePtr := AdvancePtr(dequeuePtr, oldest);
      usedCount := usedCount - 1;
      PlaceMoves(ringSize, oldest, usedCount);
      contents := contents[1..];
      oldest := Place(ringSize, oldest, 1);
      forall i | 0 <= i < |contents| ensures Holds(i) {
        assert old(Holds(i + 1));
        PlaceMoves(ringSize, old(oldest), i);
      }
    }
  }
}
