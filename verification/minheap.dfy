/** The array-backed binary min-heap of compression.c, ordered by node
    frequency. The array is a sequence whose length is the heap's `size`;
    position i has children 2i+1 and 2i+2 and parent (i-1)/2. Every
    comparison is the C code's strict `<`, so on equal frequency nothing
    moves. */
module MinHeap {
  import opened HuffmanTree

  /** The array position of a node's parent. */
  function Parent(c: int): int
  {
    (c - 1) / 2
  }

  /** The node at `c` is no smaller than its parent. */
  ghost predicate Ordered(h: seq<Tree>, c: int)
  {
    0 < c < |h| ==> h[Parent(c)].freq <= h[c].freq
  }

  /** Heap order holds between every parent at position `lo` or later and
      its children. */
  ghost predicate HeapFrom(h: seq<Tree>, lo: nat)
  {
    forall c {:trigger Ordered(h, c)} :: 0 < c < |h| && lo <= Parent(c) ==> Ordered(h, c)
  }

  /** Every parent's frequency is at most its children's. */
  ghost predicate IsHeap(h: seq<Tree>)
  {
    HeapFrom(h, 0)
  }

  /** The state minHeapify(i) expects: heap order from `lo` on, except
      possibly between `i` and its children, and `i`'s parent (when it is
      at `lo` or later) is no larger than `i`'s children. */
  ghost predicate HeapFromExcept(h: seq<Tree>, lo: nat, i: nat)
  {
    && (forall c {:trigger Ordered(h, c)} :: 0 < c < |h| && lo <= Parent(c) && Parent(c) != i ==> Ordered(h, c))
    && (0 < i < |h| && lo <= Parent(i) ==>
          && (2 * i + 1 < |h| ==> h[Parent(i)].freq <= h[2 * i + 1].freq)
          && (2 * i + 2 < |h| ==> h[Parent(i)].freq <= h[2 * i + 2].freq))
  }

  /** The state the insertion loop keeps: heap order everywhere except
      between `i` and its parent, and `i`'s parent is no larger than `i`'s
      children. */
  ghost predicate HeapExceptUp(h: seq<Tree>, i: nat)
  {
    && (forall c {:trigger Ordered(h, c)} :: 0 < c < |h| && c != i ==> Ordered(h, c))
    && (0 < i < |h| ==>
          && (2 * i + 1 < |h| ==> h[Parent(i)].freq <= h[2 * i + 1].freq)
          && (2 * i + 2 < |h| ==> h[Parent(i)].freq <= h[2 * i + 2].freq))
  }

  /** swapMinHeapNode on two array slots. */
  function Swap(h: seq<Tree>, i: nat, j: nat): (r: seq<Tree>)
    requires i < |h| && j < |h|
    ensures |r| == |h| && multiset(r) == multiset(h)
    ensures r[i] == h[j] && r[j] == h[i]
    ensures forall k :: 0 <= k < |h| && k != i && k != j ==> r[k] == h[k]
  {
    h[i := h[j]][j := h[i]]
  }

  /** minHeapify: move the node at `idx` down, swapping it with its
      smaller child while that child is strictly smaller. An index with no
      children in range leaves the heap as it is. */
  function MinHeapify(h: seq<Tree>, idx: nat): (r: seq<Tree>)
    ensures |r| == |h| && multiset(r) == multiset(h)
    decreases |h| - idx
  {
    var left := 2 * idx + 1;
    var right := 2 * idx + 2;
    var smallest := if left < |h| && h[left].freq < h[idx].freq then left else idx;
    var smallest := if right < |h| && h[right].freq < h[smallest].freq then right else smallest;
    if smallest != idx then MinHeapify(Swap(h, smallest, idx), smallest) else h
  }

  /** The strict `<` of minHeapify: a node no heavier than its children,
      ties included, stays where it is, and nothing else moves. */
  lemma MinHeapifyKeepsTies(h: seq<Tree>, i: nat)
    ensures ((2 * i + 1 < |h| ==> h[i].freq <= h[2 * i + 1].freq) &&
             (2 * i + 2 < |h| ==> h[i].freq <= h[2 * i + 2].freq)) ==> MinHeapify(h, i) == h
  {
  }

  /** minHeapify at `i` turns the state it expects into heap order from
      `lo` on. */
  lemma {:induction false} MinHeapifyRestores(h: seq<Tree>, i: nat, lo: nat)
    requires lo <= i
    requires HeapFromExcept(h, lo, i)
    ensures HeapFrom(MinHeapify(h, i), lo)
    decreases |h| - i
  {
    var left := 2 * i + 1;
    var right := 2 * i + 2;
    var s1 := if left < |h| && h[left].freq < h[i].freq then left else i;
    var s := if right < |h| && h[right].freq < h[s1].freq then right else s1;
    if s == i {
      forall c | 0 < c < |h| && lo <= Parent(c)
        ensures Ordered(h, c)
      {
        if Parent(c) == i {
          assert c == left || c == right;
        }
      }
    } else {
      SwapDownStep(h, i, s, lo);
      MinHeapifyRestores(Swap(h, s, i), s, lo);
    }
  }

  /** One step of minHeapify: swapping `i` with its strictly smaller,
      smallest child `s` moves the exception down to `s`. */
  lemma SwapDownStep(h: seq<Tree>, i: nat, s: nat, lo: nat)
    requires lo <= i < s < |h| && (s == 2 * i + 1 || s == 2 * i + 2)
    requires HeapFromExcept(h, lo, i)
    requires h[s].freq < h[i].freq
    requires 2 * i + 1 < |h| ==> h[s].freq <= h[2 * i + 1].freq
    requires 2 * i + 2 < |h| ==> h[s].freq <= h[2 * i + 2].freq
    ensures HeapFromExcept(Swap(h, s, i), lo, s)
  {
    var h' := Swap(h, s, i);
    forall c | 0 < c < |h'| && lo <= Parent(c) && Parent(c) != s
      ensures Ordered(h', c)
    {
      var p := Parent(c);
      if p == i {
        assert c == 2 * i + 1 || c == 2 * i + 2;
      } else if c == i {
        assert p != s;
      } else {
        assert c != s;
        assert Ordered(h, c);
      }
    }
    assert Parent(s) == i;
    if 2 * s + 1 < |h| {
      assert Parent(2 * s + 1) == s;
      assert Ordered(h, 2 * s + 1);
    }
    if 2 * s + 2 < |h| {
      assert Parent(2 * s + 2) == s;
      assert Ordered(h, 2 * s + 2);
    }
  }

  /** extractMin: take the root, move the last node to the root, shrink,
      and sift down. On a heap the returned node has minimal frequency and
      what remains is again a heap. */
  function ExtractMin(h: seq<Tree>): (r: (Tree, seq<Tree>))
    requires |h| > 0
    ensures |r.1| == |h| - 1
    ensures multiset(r.1) + multiset{r.0} == multiset(h)
    ensures IsHeap(h) ==> IsHeap(r.1)
    ensures IsHeap(h) ==> forall k :: 0 <= k < |h| ==> r.0.freq <= h[k].freq
  {
    var moved := h[0 := h[|h| - 1]][..|h| - 1];
    ExtractMinFacts(h, moved);
    (h[0], MinHeapify(moved, 0))
  }

  lemma ExtractMinFacts(h: seq<Tree>, moved: seq<Tree>)
    requires |h| > 0 && moved == h[0 := h[|h| - 1]][..|h| - 1]
    ensures multiset(moved) + multiset{h[0]} == multiset(h)
    ensures IsHeap(h) ==> IsHeap(MinHeapify(moved, 0))
    ensures IsHeap(h) ==> forall k :: 0 <= k < |h| ==> h[0].freq <= h[k].freq
  {
    MovedBag(h, moved);
    if IsHeap(h) {
      assert HeapFromExcept(moved, 0, 0) by {
        forall c | 0 < c < |moved| && Parent(c) != 0
          ensures Ordered(moved, c)
        {
          assert Ordered(h, c);
        }
      }
      MinHeapifyRestores(moved, 0, 0);
      RootIsMinimal(h);
    }
  }

  /** Moving the last node to the root and dropping the last slot loses
      exactly the old root. */
  lemma MovedBag(h: seq<Tree>, moved: seq<Tree>)
    requires |h| > 0 && moved == h[0 := h[|h| - 1]][..|h| - 1]
    ensures multiset(moved) + multiset{h[0]} == multiset(h)
  {
    var last := |h| - 1;
    if last == 0 {
      assert h == [h[0]];
    } else {
      assert h == [h[0]] + h[1..last] + [h[last]];
      assert moved == [h[last]] + h[1..last];
    }
  }

  /** The root of a heap is no larger than any of its nodes. */
  lemma RootIsMinimal(h: seq<Tree>)
    requires IsHeap(h)
    ensures forall k :: 0 <= k < |h| ==> h[0].freq <= h[k].freq
  {
    forall k | 0 <= k < |h|
      ensures h[0].freq <= h[k].freq
    {
      RootBelow(h, k);
    }
  }

  lemma {:induction false} RootBelow(h: seq<Tree>, k: nat)
    requires IsHeap(h) && k < |h|
    ensures h[0].freq <= h[k].freq
    decreases k
  {
    if k > 0 {
      assert Ordered(h, k);
      RootBelow(h, Parent(k));
    }
  }

  /** The insertion loop: while the node at `i` is strictly smaller than
      its parent, move it up. The C code slides parents down into a hole
      and writes the new node once at the end; the array it leaves is the
      one these swaps leave. */
  function SiftUp(h: seq<Tree>, i: nat): (r: seq<Tree>)
    requires i < |h|
    ensures |r| == |h| && multiset(r) == multiset(h)
    decreases i
  {
    if i > 0 && h[i].freq < h[(i - 1) / 2].freq then SiftUp(Swap(h, i, (i - 1) / 2), (i - 1) / 2)
    else h
  }

  /** The strict `<` of insertMinHeap: a new node no lighter than its
      parent, ties included, stays in the last slot. */
  lemma InsertKeepsTies(h: seq<Tree>, node: Tree)
    ensures (|h| == 0 || h[Parent(|h|)].freq <= node.freq) ==> InsertMinHeap(h, node) == h + [node]
  {
  }

  lemma {:induction false} SiftUpRestores(h: seq<Tree>, i: nat)
    requires i < |h| && HeapExceptUp(h, i)
    ensures IsHeap(SiftUp(h, i))
    decreases i
  {
    if i > 0 && h[i].freq < h[(i - 1) / 2].freq {
      SwapUpStep(h, i);
      SiftUpRestores(Swap(h, i, Parent(i)), Parent(i));
    } else {
      forall c | 0 < c < |h|
        ensures Ordered(h, c)
      {
      }
    }
  }

  /** One step of the insertion loop: swapping `i` with its strictly larger
      parent moves the exception up to the parent. */
  lemma SwapUpStep(h: seq<Tree>, i: nat)
    requires 0 < i < |h| && HeapExceptUp(h, i)
    requires h[i].freq < h[Parent(i)].freq
    ensures HeapExceptUp(Swap(h, i, Parent(i)), Parent(i))
  {
    var p := Parent(i);
    var h' := Swap(h, i, p);
    forall c | 0 < c < |h'| && c != p
      ensures Ordered(h', c)
    {
      var q := Parent(c);
      if c == i {
      } else if q == p {
        assert Ordered(h, c);
      } else if q == i {
        assert c == 2 * i + 1 || c == 2 * i + 2;
      } else {
        assert Ordered(h, c);
      }
    }
    if 0 < p {
      assert Ordered(h, p);
      var sibling := if i == 2 * p + 1 then 2 * p + 2 else 2 * p + 1;
      if sibling < |h| {
        assert Parent(sibling) == p;
        assert Ordered(h, sibling);
      }
    }
  }

  /** insertMinHeap: grow the heap by one slot at the end and move the new
      node up. On a heap the result is again a heap. */
  function InsertMinHeap(h: seq<Tree>, node: Tree): (r: seq<Tree>)
    ensures |r| == |h| + 1
    ensures multiset(r) == multiset(h) + multiset{node}
    ensures IsHeap(h) ==> IsHeap(r)
  {
    InsertFacts(h, node);
    SiftUp(h + [node], |h|)
  }

  lemma InsertFacts(h: seq<Tree>, node: Tree)
    ensures IsHeap(h) ==> IsHeap(SiftUp(h + [node], |h|))
  {
    var grown := h + [node];
    if IsHeap(h) {
      assert HeapExceptUp(grown, |h|) by {
        forall c | 0 < c < |grown| && c != |h|
          ensures Ordered(grown, c)
        {
          assert Ordered(h, c);
        }
      }
      SiftUpRestores(grown, |h|);
    }
  }

  /** C's `/` truncates toward zero; Dafny's `/` is Euclidean. */
  function TruncHalf(x: int): int
  {
    if x >= 0 then x / 2 else -((-x) / 2)
  }

  /** The loop of buildMinHeap: minHeapify at i, i-1, ..., 0. */
  function HeapifyDown(h: seq<Tree>, i: int): (r: seq<Tree>)
    ensures |r| == |h| && multiset(r) == multiset(h)
    decreases i + 1
  {
    if i < 0 then h else HeapifyDown(MinHeapify(h, i), i - 1)
  }

  /** Before minHeapify at i, order already holds below every parent after
      i; i's own parent lies before i, so nothing above i is assumed. */
  lemma HeapFromStartsExcept(h: seq<Tree>, i: nat)
    requires HeapFrom(h, i + 1)
    ensures HeapFromExcept(h, i, i)
  {
    forall c | 0 < c < |h| && i <= Parent(c) && Parent(c) != i
      ensures Ordered(h, c)
    {
      assert i + 1 <= Parent(c);
    }
  }

  lemma {:induction false} HeapifyDownRestores(h: seq<Tree>, i: int)
    requires -1 <= i
    requires HeapFrom(h, i + 1)
    ensures IsHeap(HeapifyDown(h, i))
    decreases i + 1
  {
    if i >= 0 {
      HeapFromStartsExcept(h, i);
      MinHeapifyRestores(h, i, i);
      HeapifyDownRestores(MinHeapify(h, i), i - 1);
    }
  }

  /** buildMinHeap: with n = size - 1, heapify every index from (n-1)/2 down
      to 0 (C division, so a one-node heap heapifies index 0 and an empty
      one nothing). The result is a heap holding the same nodes. */
  /** heapifying an array that is already a heap moves nothing. */
  lemma {:induction false} HeapifyDownKeepsHeap(h: seq<Tree>, i: int)
    requires IsHeap(h)
    ensures HeapifyDown(h, i) == h
    decreases i + 1
  {
    if i >= 0 {
      var k: nat := i;
      assert Ordered(h, 2 * k + 1) && Ordered(h, 2 * k + 2);
      MinHeapifyKeepsTies(h, k);
      HeapifyDownKeepsHeap(h, i - 1);
    }
  }

  /** buildMinHeap leaves an array that is already a heap as it is: equal
      frequencies are never reordered. */
  lemma BuildMinHeapKeepsHeap(h: seq<Tree>)
    requires IsHeap(h)
    ensures BuildMinHeap(h) == h
  {
    HeapifyDownKeepsHeap(h, TruncHalf(|h| - 2));
  }

  function BuildMinHeap(h: seq<Tree>): (r: seq<Tree>)
    ensures |r| == |h| && multiset(r) == multiset(h)
    ensures IsHeap(r)
  {
    var n := |h| - 1;
    var start := TruncHalf(n - 1);
    assert HeapFrom(h, start + 1);
    HeapifyDownRestores(h, start);
    HeapifyDown(h, start)
  }
}
