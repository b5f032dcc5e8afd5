/** The synchronous merge: every source goes into a binary min-heap keyed by
    `last.date`; the driver repeatedly removes the source at the root, prints
    its entry, advances it and puts it back, and drops it once drained. */
module SyncSortedMerge {
  import opened LogSource
  import opened MergeOrder

  /** compareSources: -1 when a's entry is strictly earlier, 1 otherwise.  It
      never answers 0, so two sources with equal dates compare as "greater"
      in both orders. */
  function CompareSources(a: Source, b: Source): (r: int)
    ensures r == -1 || r == 1
    ensures r == -1 <==> a.LastDate() < b.LastDate()
    ensures r == 1 <==> b.LastDate() <= a.LastDate()
  {
    if a.LastDate() < b.LastDate() then -1 else 1
  }

  /** Every parent's date is at most its children's. */
  predicate IsMinHeap(h: seq<Source>) {
    forall i :: 0 < i < |h| ==> h[MinHeap.ParentIndex(i)].LastDate() <= h[i].LastDate()
  }

  /** The heap property, except that position k may be smaller than its
      parent; k's parent is still no later than k's children (sift-up). */
  predicate HeapExceptUp(h: seq<Source>, k: int) {
    (forall i :: 0 < i < |h| && i != k ==> h[MinHeap.ParentIndex(i)].LastDate() <= h[i].LastDate())
    && (0 < k < |h| ==>
          forall i :: 0 < i < |h| && MinHeap.ParentIndex(i) == k ==>
            h[MinHeap.ParentIndex(k)].LastDate() <= h[i].LastDate())
  }

  /** The heap property, except that position k may be larger than its
      children; k's parent is still no later than k's children (sift-down). */
  predicate HeapExceptDown(h: seq<Source>, k: int) {
    (forall i :: 0 < i < |h| && MinHeap.ParentIndex(i) != k ==> h[MinHeap.ParentIndex(i)].LastDate() <= h[i].LastDate())
    && (0 < k < |h| ==>
          forall i :: 0 < i < |h| && MinHeap.ParentIndex(i) == k ==>
            h[MinHeap.ParentIndex(k)].LastDate() <= h[i].LastDate())
  }

  /** The root of a heap is no later than any element. */
  lemma {:induction false} RootIsMin(h: seq<Source>, k: nat)
    requires IsMinHeap(h)
    requires k < |h|
    ensures h[0].LastDate() <= h[k].LastDate()
    decreases k
  {
    if k > 0 {
      RootIsMin(h, MinHeap.ParentIndex(k));
    }
  }

  /** h2 is h with positions a and b exchanged. */
  predicate Swapped(h: seq<Source>, h2: seq<Source>, a: int, b: int) {
    && |h2| == |h| && 0 <= a < |h| && 0 <= b < |h|
    && h2[a] == h[b] && h2[b] == h[a]
    && forall i :: 0 <= i < |h| && i != a && i != b ==> h2[i] == h[i]
  }

  /** One sift-down swap of k with its earliest child c moves the defect to c. */
  lemma SiftDownStep(h: seq<Source>, h2: seq<Source>, k: int, c: int)
    requires HeapExceptDown(h, k) && Swapped(h, h2, k, c)
    requires 0 <= k && MinHeap.ParentIndex(c) == k && 0 < c
    requires forall i :: 0 < i < |h| && MinHeap.ParentIndex(i) == k ==> h[c].LastDate() <= h[i].LastDate()
    requires h[c].LastDate() <= h[k].LastDate()
    ensures HeapExceptDown(h2, c)
  {
    forall i | 0 < i < |h2| && MinHeap.ParentIndex(i) != c
      ensures h2[MinHeap.ParentIndex(i)].LastDate() <= h2[i].LastDate()
    {
      var p := MinHeap.ParentIndex(i);
      if i == k {
        assert k > 0 && h2[p] == h[p];
      } else if i == c {
        assert h2[p] == h[c];
      } else if p == k {
        assert h2[i] == h[i];
      } else {
        assert h2[i] == h[i] && h2[p] == h[p];
      }
    }
    forall i | 0 < i < |h2| && MinHeap.ParentIndex(i) == c
      ensures h2[MinHeap.ParentIndex(c)].LastDate() <= h2[i].LastDate()
    {
      assert i != k && i != c && h2[i] == h[i];
    }
  }

  /** c is the child of k that sift-down picks: the right child only when it
      is strictly earlier than the left one.  It is no later than any child. */
  lemma EarliestChild(h: seq<Source>, k: int, c: int)
    requires 0 <= k && MinHeap.LeftChildIndex(k) < |h|
    requires c == (if MinHeap.RightChildIndex(k) < |h|
                      && h[MinHeap.RightChildIndex(k)].LastDate() < h[MinHeap.LeftChildIndex(k)].LastDate()
                   then MinHeap.RightChildIndex(k) else MinHeap.LeftChildIndex(k))
    ensures forall i :: 0 < i < |h| && MinHeap.ParentIndex(i) == k ==> h[c].LastDate() <= h[i].LastDate()
  {
  }

  /** Sift-down stops once k is strictly earlier than its earliest child. */
  lemma SiftDownDone(h: seq<Source>, k: int, c: int)
    requires HeapExceptDown(h, k) && 0 <= k
    requires forall i :: 0 < i < |h| && MinHeap.ParentIndex(i) == k ==> h[k].LastDate() <= h[i].LastDate()
    ensures IsMinHeap(h)
  {
  }

  /** Moving the last element of a heap to the root and dropping the last
      slot leaves a heap except at the root. */
  lemma LastToRoot(h: seq<Source>, h2: seq<Source>)
    requires IsMinHeap(h) && |h| > 0
    requires h2 == h[0 := h[|h| - 1]][..|h| - 1]
    ensures HeapExceptDown(h2, 0)
    ensures multiset(h2) == multiset(h) - multiset{h[0]}
  {
    var n := |h|;
    if n == 1 {
      assert h2 == [];
    } else {
      assert h == [h[0]] + h[1..n - 1] + [h[n - 1]];
      assert h2 == [h[n - 1]] + h[1..n - 1];
    }
    forall i | 0 < i < |h2| && MinHeap.ParentIndex(i) != 0
      ensures h2[MinHeap.ParentIndex(i)].LastDate() <= h2[i].LastDate()
    {
      assert h2[MinHeap.ParentIndex(i)] == h[MinHeap.ParentIndex(i)] && h2[i] == h[i];
    }
  }

  class MinHeap {
    var heap: seq<Source>

    predicate Valid()
      reads this
    {
      IsMinHeap(heap)
    }

    constructor ()
      ensures Valid() && heap == []
    {
      heap := [];
    }

    static function LeftChildIndex(parentIndex: int): (c: int)
      ensures ParentIndex(c) == parentIndex
      ensures parentIndex >= 0 ==> c > parentIndex
    {
      2 * parentIndex + 1
    }

    static function RightChildIndex(parentIndex: int): (c: int)
      ensures ParentIndex(c) == parentIndex
      ensures c == LeftChildIndex(parentIndex) + 1
    {
      2 * parentIndex + 2
    }

    /** Math.floor((childIndex - 1) / 2); Dafny's division by the positive 2
        already rounds toward minus infinity. */
    static function ParentIndex(childIndex: int): (p: int)
      ensures childIndex == 2 * p + 1 || childIndex == 2 * p + 2
      ensures childIndex > 0 ==> 0 <= p < childIndex
    {
      (childIndex - 1) / 2
    }

    static predicate HasParent(index: int)
      ensures HasParent(index) <==> index > 0
    {
      ParentIndex(index) >= 0
    }

    /** The nodes with a left child are the first half of the heap. */
    predicate HasLeftChild(index: int)
      reads this
      ensures index >= 0 ==> (HasLeftChild(index) <==> index < |heap| / 2)
    {
      LeftChildIndex(index) < |heap|
    }

    /** A node with a right child also has a left one. */
    predicate HasRightChild(index: int)
      reads this
      ensures index >= 0 ==> (HasRightChild(index) <==> index < (|heap| - 1) / 2)
      ensures HasRightChild(index) ==> HasLeftChild(index)
    {
      RightChildIndex(index) < |heap|
    }

    function LeftChild(index: int): (c: Source)
      reads this
      requires 0 <= index && HasLeftChild(index)
      ensures c in heap
      ensures Valid() ==> heap[index].LastDate() <= c.LastDate()
    {
      heap[LeftChildIndex(index)]
    }

    function RightChild(index: int): (c: Source)
      reads this
      requires 0 <= index && HasRightChild(index)
      ensures c in heap
      ensures Valid() ==> heap[index].LastDate() <= c.LastDate()
    {
      heap[RightChildIndex(index)]
    }

    function Parent(index: int): (p: Source)
      reads this
      requires HasParent(index) && index < |heap|
      ensures p in heap
      ensures Valid() ==> p.LastDate() <= heap[index].LastDate()
    {
      heap[ParentIndex(index)]
    }

    predicate IsEmpty()
      reads this
      ensures IsEmpty() <==> Peek().None?
    {
      |heap| == 0
    }

    method Swap(indexOne: int, indexTwo: int)
      requires 0 <= indexOne < |heap| && 0 <= indexTwo < |heap|
      modifies this
      ensures |heap| == |old(heap)|
      ensures heap[indexOne] == old(heap[indexTwo]) && heap[indexTwo] == old(heap[indexOne])
      ensures forall k :: 0 <= k < |heap| && k != indexOne && k != indexTwo ==> heap[k] == old(heap[k])
      ensures multiset(heap) == multiset(old(heap))
    {
      var temp := heap[indexOne];
      heap := heap[indexOne := heap[indexTwo]];
      heap := heap[indexTwo := temp];
    }

    /** peek(): nothing on an empty heap, otherwise the root, which on a valid
        heap is an earliest element. */
    function Peek(): (r: Option<Source>)
      reads this
      ensures r.None? <==> |heap| == 0
      ensures r.Some? ==> r.value == heap[0]
      ensures r.Some? && Valid() ==> forall s :: s in heap ==> r.value.LastDate() <= s.LastDate()
    {
      if |heap| == 0 then None
      else
        var root := heap[0];
        assert Valid() ==> forall s :: s in heap ==> root.LastDate() <= s.LastDate() by {
          if Valid() {
            forall s | s in heap ensures root.LastDate() <= s.LastDate() {
              var k :| 0 <= k < |heap| && heap[k] == s;
              RootIsMin(heap, k);
            }
          }
        }
        Some(root)
    }

    /** remove(): take out the root, move the last element to the top and
        sift it down. */
    method Remove() returns (r: Option<Source>)
      requires Valid()
      modifies this
      ensures Valid()
      ensures |old(heap)| == 0 ==> r.None? && heap == old(heap)
      ensures |old(heap)| > 0 ==>
        && r == Some(old(heap[0]))
        && (forall s :: s in old(heap) ==> r.value.LastDate() <= s.LastDate())
        && |heap| == |old(heap)| - 1
        && multiset(heap) == multiset(old(heap)) - multiset{r.value}
    {
      if |heap| == 0 {
        return None;
      }
      var item := heap[0];
      forall s | s in heap ensures item.LastDate() <= s.LastDate() {
        var k :| 0 <= k < |heap| && heap[k] == s;
        RootIsMin(heap, k);
      }
      ghost var h0 := heap;
      heap := heap[0 := heap[|heap| - 1]];
      heap := heap[..|heap| - 1];
      LastToRoot(h0, heap);
      HeapifyDown();
      return Some(item);
    }

    /** add(item): append and sift up. */
    method Add(item: Source)
      requires Valid()
      modifies this
      ensures Valid()
      ensures |heap| == |old(heap)| + 1
      ensures multiset(heap) == multiset(old(heap)) + multiset{item}
    {
      heap := heap + [item];
      HeapifyUp();
    }

    /** Move the last element up while its parent is not strictly earlier. */
    method HeapifyUp()
      requires |heap| > 0 && HeapExceptUp(heap, |heap| - 1)
      modifies this
      ensures Valid()
      ensures multiset(heap) == multiset(old(heap)) && |heap| == |old(heap)|
    {
      var index := |heap| - 1;
      while HasParent(index) && CompareSources(Parent(index), heap[index]) > 0
        invariant 0 <= index < |heap|
        invariant HeapExceptUp(heap, index)
        invariant multiset(heap) == multiset(old(heap)) && |heap| == |old(heap)|
        decreases index
      {
        var p := ParentIndex(index);
        Swap(p, index);
        index := p;
      }
    }

    /** Move the root down, swapping it with its earlier child (the right one
        only when strictly earlier), until it is strictly earlier than that
        child or has no children. */
    method HeapifyDown()
      requires HeapExceptDown(heap, 0)
      modifies this
      ensures Valid()
      ensures multiset(heap) == multiset(old(heap)) && |heap| == |old(heap)|
    {
      var index := 0;
      while HasLeftChild(index)
        invariant 0 <= index && (|heap| > 0 ==> index < |heap|)
        invariant HeapExceptDown(heap, index)
        invariant multiset(heap) == multiset(old(heap)) && |heap| == |old(heap)|
        decreases |heap| - index
      {
        var smallerChildIndex := LeftChildIndex(index);
        if HasRightChild(index) && CompareSources(RightChild(index), LeftChild(index)) < 0 {
          smallerChildIndex := RightChildIndex(index);
        }
        EarliestChild(heap, index, smallerChildIndex);
        if CompareSources(heap[index], heap[smallerChildIndex]) < 0 {
          SiftDownDone(heap, index, smallerChildIndex);
          break;
        } else {
          ghost var before := heap;
          Swap(index, smallerChildIndex);
          SiftDownStep(before, heap, index, smallerChildIndex);
        }
        index := smallerChildIndex;
      }
    }
  }

  /** The exported merge: print every entry of every source in date order,
      then call done() once. */
  method Merge(logSources: seq<Source>) returns (trace: seq<PrinterCall>)
    requires forall s :: s in logSources ==> SortedByDate(s.pending)
    ensures DoneOnceAtEnd(trace)
    ensures SortedByDate(Printed(trace))
    ensures multiset(Printed(trace)) == multiset(AllEntries(logSources))
  {
    var heap := new MinHeap();
    for k := 0 to |logSources|
      invariant fresh(heap) && heap.Valid()
      invariant multiset(heap.heap) == multiset(logSources[..k])
    {
      assert logSources[..k + 1] == logSources[..k] + [logSources[k]];
      heap.Add(logSources[k]);
    }
    assert logSources[..|logSources|] == logSources;
    StartMerge(logSources);

    trace := [];
    ghost var all := multiset(AllEntries(logSources));
    while !heap.IsEmpty()
      invariant fresh(heap) && heap.Valid()
      invariant MergeInvariant(multiset(heap.heap), trace, all)
      decreases |Pending(multiset(heap.heap))| + |heap.heap|
    {
      ghost var before := multiset(heap.heap);
      var source := heap.Remove();
      if source.Some? && !source.value.Drained() {
        PrintAndAdvance(before, source.value, trace, all);
        trace := trace + [Print(source.value.Last())];
        heap.Add(source.value.Pop());
      } else {
        DropDrained(before, source.value, trace, all);
      }
    }
    FinishMerge(trace, all);
    trace := trace + [Done];
  }
}
