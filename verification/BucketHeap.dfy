/** The binary min-heap of bucket indices that finds a lightest bucket. */
module BucketHeap {
  import opened Schedule

  function Parent(i: nat): nat
    requires i > 0
  {
    (i - 1) / 2
  }

  function At(buckets: seq<Bucket>, heap: seq<nat>, i: nat): Bucket
    requires i < |heap| && ValidIndices(buckets, heap)
  {
    buckets[heap[i]]
  }

  predicate ValidIndices(buckets: seq<Bucket>, heap: seq<nat>) {
    forall i | 0 <= i < |heap| :: heap[i] < |buckets|
  }

  /**
   * No bucket is lighter than its parent, except below position `hole`; the children of `hole` are
   * no lighter than its parent. With a hole outside the heap this is the heap order itself.
   */
  ghost predicate HeapExcept(buckets: seq<Bucket>, heap: seq<nat>, hole: nat)
    requires ValidIndices(buckets, heap)
  {
    forall i {:trigger Parent(i)} | 0 < i < |heap| ::
      && (Parent(i) != hole ==> !BucketLess(At(buckets, heap, i), At(buckets, heap, Parent(i))))
      && (Parent(i) == hole > 0 ==> !BucketLess(At(buckets, heap, i), At(buckets, heap, Parent(hole))))
  }

  ghost predicate IsHeap(buckets: seq<Bucket>, heap: seq<nat>) {
    ValidIndices(buckets, heap) && HeapExcept(buckets, heap, |heap|)
  }

  /** The heap holds each bucket index once. */
  ghost predicate IsPermutation(heap: seq<nat>) {
    && (forall i | 0 <= i < |heap| :: heap[i] < |heap|)
    && (forall i, j | 0 <= i < j < |heap| :: heap[i] != heap[j])
    && (forall b: nat | b < |heap| :: b in heap)
  }

  function Swap(heap: seq<nat>, i: nat, j: nat): seq<nat>
    requires i < |heap| && j < |heap|
  {
    heap[i := heap[j]][j := heap[i]]
  }

  lemma SwapPermutes(heap: seq<nat>, i: nat, j: nat)
    requires IsPermutation(heap) && i < j < |heap|
    ensures IsPermutation(Swap(heap, i, j))
  {
    var swapped := Swap(heap, i, j);
    forall b: nat | b < |heap| ensures b in swapped {
      assert b in heap;
      var k :| 0 <= k < |heap| && heap[k] == b;
      assert swapped[if k == i then j else if k == j then i else k] == b;
    }
  }

  /** Swapping the hole with its lightest child moves the hole down. */
  lemma SwapMovesHole(buckets: seq<Bucket>, heap: seq<nat>, hole: nat, child: nat)
    requires ValidIndices(buckets, heap) && HeapExcept(buckets, heap, hole)
    requires 0 < child < |heap| && Parent(child) == hole
    requires BucketLess(At(buckets, heap, child), At(buckets, heap, hole))
    requires forall i {:trigger Parent(i)} | 0 < i < |heap| && Parent(i) == hole ::
             !BucketLess(At(buckets, heap, i), At(buckets, heap, child))
    ensures ValidIndices(buckets, Swap(heap, hole, child))
    ensures HeapExcept(buckets, Swap(heap, hole, child), child)
  {
    var swapped := Swap(heap, hole, child);
    assert ValidIndices(buckets, swapped);
    forall i | 0 < i < |heap|
      ensures Parent(i) != child ==> !BucketLess(At(buckets, swapped, i), At(buckets, swapped, Parent(i)))
      ensures Parent(i) == child ==> !BucketLess(At(buckets, swapped, i), At(buckets, swapped, hole))
    {
      if i == hole {
        assert Parent(child) == hole > 0;
      }
    }
  }

  /** A heap whose hole has no lighter child has no hole. */
  lemma HoleFilled(buckets: seq<Bucket>, heap: seq<nat>, hole: nat)
    requires ValidIndices(buckets, heap) && HeapExcept(buckets, heap, hole) && hole < |heap|
    requires forall i {:trigger Parent(i)} | 0 < i < |heap| && Parent(i) == hole ::
             !BucketLess(At(buckets, heap, i), At(buckets, heap, hole))
    ensures IsHeap(buckets, heap)
  {
  }

  /** The root of a heap is lightest. */
  lemma {:induction false} RootIsLightest(buckets: seq<Bucket>, heap: seq<nat>, i: nat)
    requires IsHeap(buckets, heap) && i < |heap|
    ensures !BucketLess(At(buckets, heap, i), At(buckets, heap, 0))
  {
    if i > 0 {
      RootIsLightest(buckets, heap, Parent(i));
    }
  }

  lemma RootIsLightestBucket(buckets: seq<Bucket>, heap: seq<nat>)
    requires IsHeap(buckets, heap) && IsPermutation(heap) && |heap| == |buckets| > 0
    ensures Lightest(buckets, heap[0])
  {
    var root := buckets[heap[0]];
    forall b: nat | b < |buckets|
      ensures root.sum <= buckets[b].sum && (root.sum == buckets[b].sum ==> |root.files| <= |buckets[b].files|)
    {
      assert b in heap;
      var i :| 0 <= i < |heap| && heap[i] == b;
      RootIsLightest(buckets, heap, i);
    }
  }

  /** After the root bucket grew heavier, only the root's children can be out of order. */
  lemma RootGrew(before: seq<Bucket>, after: seq<Bucket>, heap: seq<nat>)
    requires IsHeap(before, heap) && IsPermutation(heap) && |heap| == |before| > 0
    requires |after| == |before| && forall b: nat | b < |before| && b != heap[0] :: after[b] == before[b]
    ensures ValidIndices(after, heap) && HeapExcept(after, heap, 0)
  {
    assert forall i | 0 < i < |heap| :: heap[i] != heap[0];
  }

  /** The position that two comparisons pick among a position and its children is lightest of the three. */
  lemma ChosenChild(buckets: seq<Bucket>, heap: seq<nat>, index: nat, smallest: nat)
    requires ValidIndices(buckets, heap) && index < |heap|
    requires
      var left, right := 2 * index + 1, 2 * index + 2;
      var better := if left < |heap| && BucketLess(At(buckets, heap, left), At(buckets, heap,
          index)) then left else index;
      smallest == if right < |heap| && BucketLess(At(buckets, heap, right), At(buckets, heap,
          better)) then right else better
    ensures smallest < |heap|
    ensures forall i {:trigger Parent(i)} | 0 < i < |heap| && Parent(i) == index ::
              !BucketLess(At(buckets, heap, i), At(buckets, heap, smallest))
    ensures smallest != index ==>
              && smallest > index && Parent(smallest) == index
              && BucketLess(At(buckets, heap, smallest), At(buckets, heap, index))
  {
    assert forall i {:trigger Parent(i)} | 0 < i < |heap| && Parent(i) == index ::
              i == 2 * index + 1 || i == 2 * index + 2;
  }

  /** Restore the heap order below `start`, whose bucket may have grown heavier than its children. */
  method SiftDown(buckets: array<Bucket>, heap: array<nat>, start: nat)
    requires buckets.Length == heap.Length && start < heap.Length
    requires IsPermutation(heap[..]) && HeapExcept(buckets[..], heap[..], start)
    modifies heap
    ensures IsPermutation(heap[..]) && IsHeap(buckets[..], heap[..])
  {
    var index, size := start, heap.Length;
    assert ValidIndices(buckets[..], heap[..]);
    hide IsPermutation, HeapExcept, IsHeap, BucketLess;
    while true
      invariant index < size == heap.Length && ValidIndices(buckets[..], heap[..])
      invariant IsPermutation(heap[..]) && HeapExcept(buckets[..], heap[..], index)
      decreases size - index
    {
      var left, right := 2 * index + 1, 2 * index + 2;
      var smallest := index;
      var smallestBucket := buckets[heap[index]];
      if left < size && BucketLess(buckets[heap[left]], smallestBucket) {
        smallest := left;
        smallestBucket := buckets[heap[left]];
      }
      if right < size && BucketLess(buckets[heap[right]], smallestBucket) {
        smallest := right;
      }
      ChosenChild(buckets[..], heap[..], index, smallest);
      if smallest == index {
        HoleFilled(buckets[..], heap[..], index);
        return;
      }
      SwapMovesHole(buckets[..], heap[..], index, smallest);
      SwapPermutes(heap[..], index, smallest);
      ghost var swapped := Swap(heap[..], index, smallest);
      heap[index], heap[smallest] := heap[smallest], heap[index];
      assert heap[..] == swapped;
      index := smallest;
    }
  }

}
