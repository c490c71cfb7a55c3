/**
 * The array-backed binary min-heap of the best-first search: sift-up on push,
 * sift-down on pop, over a list whose element i has its parent at (i - 1) / 2.
 */
module MinHeap {
  import opened Wrappers
  import opened HeapOrder

  /** Python's `(index - 1) // 2` for a positive index: i is the left or right child of the result. */
  function Parent(i: nat): (p: nat)
    requires 0 < i
    ensures i == 2 * p + 1 || i == 2 * p + 2
  {
    (i - 1) / 2
  }

  /** Every element is at least its parent. */
  predicate IsHeap(h: seq<Entry>)
  {
    forall i :: 0 < i < |h| ==> LessEq(h[Parent(i)], h[i])
  }

  function Swap(h: seq<Entry>, i: nat, j: nat): (r: seq<Entry>)
    requires i < |h| && j < |h|
    ensures |r| == |h| && r[i] == h[j] && r[j] == h[i]
    ensures forall k :: 0 <= k < |h| && k != i && k != j ==> r[k] == h[k]
    ensures multiset(r) == multiset(h)
  {
    h[i := h[j]][j := h[i]]
  }

  /** `_bubble_up`: swap the element at i with its parent while it is smaller. */
  function SiftUp(h: seq<Entry>, i: nat): seq<Entry>
    requires i < |h|
    decreases i
  {
    if i > 0 && Less(h[i], h[Parent(i)]) then SiftUp(Swap(h, i, Parent(i)), Parent(i)) else h
  }

  /** The smaller of i and its children, preferring i, then the left child, on ties. */
  function Smallest(h: seq<Entry>, i: nat): (s: nat)
    requires i < |h|
    ensures s == i || s == 2 * i + 1 || s == 2 * i + 2
    ensures s < |h|
  {
    var left := 2 * i + 1;
    var right := 2 * i + 2;
    var s1 := if left < |h| && Less(h[left], h[i]) then left else i;
    if right < |h| && Less(h[right], h[s1]) then right else s1
  }

  /** `_bubble_down`: swap the element at i with its smaller child while that child is smaller. */
  function SiftDown(h: seq<Entry>, i: nat): seq<Entry>
    requires i < |h|
    decreases |h| - i
  {
    var s := Smallest(h, i);
    if s != i then SiftDown(Swap(h, i, s), s) else h
  }

  /** A heap but for the element at i, which may be smaller than its parent; i's parent bounds i's children. */
  ghost predicate HeapExceptUp(h: seq<Entry>, i: nat)
  {
    && (forall k :: 0 < k < |h| && k != i ==> LessEq(h[Parent(k)], h[k]))
    && (0 < i ==> forall k :: 0 < k < |h| && Parent(k) == i ==> LessEq(h[Parent(i)], h[k]))
  }

  /** A heap but for the element at i, which may be larger than its children; i's parent bounds i's children. */
  ghost predicate HeapExceptDown(h: seq<Entry>, i: nat)
  {
    && (forall k :: 0 < k < |h| && Parent(k) != i ==> LessEq(h[Parent(k)], h[k]))
    && (0 < i ==> forall k :: 0 < k < |h| && Parent(k) == i ==> LessEq(h[Parent(i)], h[k]))
  }

  // ---------------------------------------------------------------------
  // Sift-up and sift-down only swap

  lemma {:induction false} SiftUpPermutes(h: seq<Entry>, i: nat)
    requires i < |h|
    ensures |SiftUp(h, i)| == |h| && multiset(SiftUp(h, i)) == multiset(h)
    decreases i
  {
    if i > 0 && Less(h[i], h[Parent(i)]) {
      SiftUpPermutes(Swap(h, i, Parent(i)), Parent(i));
    }
  }

  lemma {:induction false} SiftDownPermutes(h: seq<Entry>, i: nat)
    requires i < |h|
    ensures |SiftDown(h, i)| == |h| && multiset(SiftDown(h, i)) == multiset(h)
    decreases |h| - i
  {
    var s := Smallest(h, i);
    if s != i {
      SiftDownPermutes(Swap(h, i, s), s);
    }
  }

  // ---------------------------------------------------------------------
  // Sift-up and sift-down restore heap order

  lemma {:induction false} SiftUpRestores(h: seq<Entry>, i: nat)
    requires i < |h| && HeapExceptUp(h, i)
    ensures IsHeap(SiftUp(h, i))
    decreases i
  {
    if i > 0 && Less(h[i], h[Parent(i)]) {
      var p := Parent(i);
      var h' := Swap(h, i, p);
      LessImpliesLessEq(h[i], h[p]);
      forall k | 0 < k < |h'| && k != p ensures LessEq(h'[Parent(k)], h'[k]) {
        if k == i {
        } else if Parent(k) == i {
        } else if Parent(k) == p {
          LessEqTransitive(h[i], h[p], h[k]);
        }
      }
      if 0 < p {
        forall k | 0 < k < |h'| && Parent(k) == p ensures LessEq(h'[Parent(p)], h'[k]) {
          if k != i {
            LessEqTransitive(h[Parent(p)], h[p], h[k]);
          }
        }
      }
      SiftUpRestores(h', p);
    }
  }

  lemma {:induction false} SiftDownRestores(h: seq<Entry>, i: nat)
    requires i < |h| && HeapExceptDown(h, i)
    ensures IsHeap(SiftDown(h, i))
    decreases |h| - i
  {
    var left := 2 * i + 1;
    var right := 2 * i + 2;
    var s := Smallest(h, i);
    SmallestIsLeast(h, i);
    if s == i {
      forall k | 0 < k < |h| ensures LessEq(h[Parent(k)], h[k]) {
        if Parent(k) == i {
          assert k == left || k == right;
        }
      }
    } else {
      var h' := Swap(h, i, s);
      forall k | 0 < k < |h'| && Parent(k) != s ensures LessEq(h'[Parent(k)], h'[k]) {
        if Parent(k) == i {
          assert k == left || k == right;
        } else if k == i {
          assert Parent(s) == i;
        }
      }
      forall k | 0 < k < |h'| && Parent(k) == s ensures LessEq(h'[Parent(s)], h'[k]) {
        assert Parent(s) == i;
      }
      SiftDownRestores(h', s);
    }
  }

  /** The position Smallest picks holds the least of i and its children. */
  lemma SmallestIsLeast(h: seq<Entry>, i: nat)
    requires i < |h|
    ensures LessEq(h[Smallest(h, i)], h[i])
    ensures 2 * i + 1 < |h| ==> LessEq(h[Smallest(h, i)], h[2 * i + 1])
    ensures 2 * i + 2 < |h| ==> LessEq(h[Smallest(h, i)], h[2 * i + 2])
  {
    var left := 2 * i + 1;
    var right := 2 * i + 2;
    var s1 := if left < |h| && Less(h[left], h[i]) then left else i;
    LessIsStrictTotalOrder(h[i], h[i], h[i]);
    if s1 == left {
      LessImpliesLessEq(h[left], h[i]);
      LessIsStrictTotalOrder(h[left], h[left], h[left]);
    }
    if right < |h| && Less(h[right], h[s1]) {
      LessImpliesLessEq(h[right], h[s1]);
      LessEqTransitive(h[right], h[s1], h[i]);
      if left < |h| && s1 == i {
        LessEqTransitive(h[right], h[i], h[left]);
      }
      LessIsStrictTotalOrder(h[right], h[right], h[right]);
    }
  }

  /** In a heap the root is at most every element. */
  lemma {:induction false} RootIsLeast(h: seq<Entry>, k: nat)
    requires IsHeap(h) && k < |h|
    ensures LessEq(h[0], h[k])
    decreases k
  {
    if k > 0 {
      RootIsLeast(h, Parent(k));
      LessEqTransitive(h[0], h[Parent(k)], h[k]);
    } else {
      LessIsStrictTotalOrder(h[0], h[0], h[0]);
    }
  }

  /** Appending to a heap breaks the order at most at the new last position. */
  lemma AppendIsHeapExceptUp(h: seq<Entry>, x: Entry)
    requires IsHeap(h)
    ensures HeapExceptUp(h + [x], |h|)
  {
  }

  /** Moving the last element of a heap to its root breaks the order at most at the root. */
  lemma LastToRootIsHeapExceptDown(h: seq<Entry>)
    requires IsHeap(h) && 2 <= |h|
    ensures HeapExceptDown([h[|h| - 1]] + h[1..|h| - 1], 0)
  {
    var h' := [h[|h| - 1]] + h[1..|h| - 1];
    forall k | 0 < k < |h'| && Parent(k) != 0 ensures LessEq(h'[Parent(k)], h'[k]) {
      assert h'[k] == h[k] && h'[Parent(k)] == h[Parent(k)];
    }
  }

  class ManualMinHeap {
    var heap: seq<Entry>

    ghost predicate Valid()
      reads this
    {
      IsHeap(heap)
    }

    constructor ()
      ensures Valid() && heap == []
    {
      heap := [];
    }

    /** Appends the item and sifts it up. */
    method Push(item: Entry)
      requires Valid()
      modifies this
      ensures Valid()
      ensures heap == SiftUp(old(heap) + [item], |old(heap)|)
      ensures |heap| == |old(heap)| + 1
      ensures multiset(heap) == multiset(old(heap)) + multiset{item}
    {
      AppendIsHeapExceptUp(heap, item);
      heap := heap + [item];
      ghost var appended := heap;
      BubbleUp(|heap| - 1);
      SiftUpRestores(appended, |appended| - 1);
      SiftUpPermutes(appended, |appended| - 1);
    }

    /**
     * Removes and returns the root: nothing on an empty heap; otherwise the
     * last element replaces the root and sifts down.
     */
    method Pop() returns (root: Option<Entry>)
      requires Valid()
      modifies this
      ensures Valid()
      ensures old(heap) == [] ==> root == None && heap == []
      ensures |old(heap)| == 1 ==> root == Some(old(heap)[0]) && heap == []
      ensures 2 <= |old(heap)| ==>
        && root == Some(old(heap)[0])
        && heap == SiftDown([old(heap)[|old(heap)| - 1]] + old(heap)[1..|old(heap)| - 1], 0)
      ensures root.Some? ==> forall k :: 0 <= k < |old(heap)| ==> LessEq(root.value, old(heap)[k])
      ensures root.Some? ==>
        && |heap| == |old(heap)| - 1
        && multiset(heap) == multiset(old(heap)) - multiset{root.value}
    {
      if heap == [] {
        return None;
      }
      forall k | 0 <= k < |heap| ensures LessEq(heap[0], heap[k]) {
        RootIsLeast(heap, k);
      }
      if |heap| == 1 {
        var last := heap[0];
        heap := [];
        return Some(last);
      }
      var first := heap[0];
      ghost var before := heap;
      var last := heap[|heap| - 1];
      heap := heap[..|heap| - 1];
      heap := heap[0 := last];
      assert heap == [before[|before| - 1]] + before[1..|before| - 1];
      assert before == [first] + before[1..|before| - 1] + [last];
      LastToRootIsHeapExceptDown(before);
      ghost var moved := heap;
      BubbleDown(0);
      SiftDownRestores(moved, 0);
      SiftDownPermutes(moved, 0);
      return Some(first);
    }

    method IsNotEmpty() returns (nonEmpty: bool)
      ensures nonEmpty <==> heap != []
    {
      return |heap| > 0;
    }

    method BubbleUp(index: nat)
      requires index < |heap|
      modifies this
      ensures heap == SiftUp(old(heap), index)
      decreases index
    {
      var parentIndex := (index - 1) / 2;
      if index > 0 && Less(heap[index], heap[parentIndex]) {
        heap := heap[index := heap[parentIndex]][parentIndex := heap[index]];
        BubbleUp(parentIndex);
      }
    }

    method BubbleDown(index: nat)
      requires index < |heap|
      modifies this
      ensures heap == SiftDown(old(heap), index)
      decreases |heap| - index
    {
      var smallest := index;
      var leftChild := 2 * index + 1;
      var rightChild := 2 * index + 2;
      var size := |heap|;
      if leftChild < size && Less(heap[leftChild], heap[smallest]) {
        smallest := leftChild;
      }
      if rightChild < size && Less(heap[rightChild], heap[smallest]) {
        smallest := rightChild;
      }
      assert smallest == Smallest(heap, index);
      if smallest != index {
        heap := heap[index := heap[smallest]][smallest := heap[index]];
        BubbleDown(smallest);
      }
    }
  }
}
