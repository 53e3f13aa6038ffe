/** createAndBuildMinHeap and buildHuffmanTree: load one leaf per
    (symbol, frequency) pair in the given order, heapify, then merge the two
    cheapest nodes until one is left. The first node extracted becomes the
    left child and the second the right child. Compression and decompression
    both call this one function on the same ordered list, so they get the
    same tree. */
module TreeBuilder {
  import opened Basics
  import opened Bags
  import opened HuffmanTree
  import opened MinHeap

  /** One leaf per entry, in entry order (the array filled before heapify). */
  function LeavesOf(entries: seq<Entry>): (h: seq<Tree>)
    ensures |h| == |entries|
  {
    seq(|entries|, i requires 0 <= i < |entries| => Leaf(entries[i].sym, entries[i].freq))
  }

  /** The leaves and symbols carried by a sequence of trees. */
  function ForestLeaves(h: seq<Tree>): multiset<Entry> { BagBy(h, TreeLeaves) }
  function ForestSyms(h: seq<Tree>): multiset<Byte> { BagBy(h, TreeSyms) }

  /** LeafBag and SymBag behind a non-recursive name, for passing as a value:
      handing the recursive functions themselves to BagBy lets the solver
      unfold them without bound. */
  function TreeLeaves(t: Tree): multiset<Entry> { LeafBag(t) }
  function TreeSyms(t: Tree): multiset<Byte> { SymBag(t) }

  ghost predicate AllWellFormed(h: seq<Tree>)
  {
    forall t :: t in h ==> WellFormed(t)
  }

  /** The leaf array holds exactly the entries, their symbols and their
      total frequency. */
  lemma {:induction false} LeavesOfCarryEntries(entries: seq<Entry>)
    ensures ForestLeaves(LeavesOf(entries)) == multiset(entries)
    ensures ForestSyms(LeavesOf(entries)) == BagBy(entries, EntrySym)
    ensures AllWellFormed(LeavesOf(entries))
  {
    if |entries| > 0 {
      assert LeavesOf(entries)[1..] == LeavesOf(entries[1..]);
      LeavesOfCarryEntries(entries[1..]);
      assert entries == [entries[0]] + entries[1..];
    }
  }

  /** createAndBuildMinHeap: the leaves in input order, heapified. The
      result is a heap that is a permutation of the input leaves. */
  function CreateAndBuildMinHeap(entries: seq<Entry>): (h: seq<Tree>)
    ensures |h| == |entries|
    ensures multiset(h) == multiset(LeavesOf(entries))
    ensures IsHeap(h)
  {
    BuildMinHeap(LeavesOf(entries))
  }

  /** The internal node newNode('$', left->freq + right->freq) makes: the
      sum is taken in `unsigned`, so it wraps modulo 2^32. */
  function Merge(left: Tree, right: Tree): (t: Tree)
    ensures WellFormed(left) && WellFormed(right) ==> WellFormed(t)
    ensures t.Node? && t.left == left && t.right == right && t.freq < TwoTo32
  {
    Node(Unsigned(left.freq + right.freq), left, right)
  }

  /** One pass of buildHuffmanTree's loop body: extract two nodes, insert
      their merge. */
  function MergeOnce(h: seq<Tree>): (r: seq<Tree>)
    requires |h| >= 2
    ensures |r| == |h| - 1
  {
    var first := ExtractMin(h);
    var second := ExtractMin(first.1);
    var left := first.0;
    var right := second.0;
    InsertMinHeap(second.1, Merge(left, right))
  }

  /** The merge loop of buildHuffmanTree followed by its final extractMin.
      The second component counts the merges (nodes_merged). */
  function MergeAll(h: seq<Tree>): (r: (Tree, nat))
    requires |h| >= 1
    ensures r.1 == |h| - 1
    decreases |h|
  {
    if |h| == 1 then (ExtractMin(h).0, 0)
    else
      var rest := MergeAll(MergeOnce(h));
      (rest.0, rest.1 + 1)
  }

  /** Totals over a sequence depend only on its multiset, so they split off
      one tree. */
  lemma ForestSplit(h: seq<Tree>, t: Tree, rest: seq<Tree>)
    requires multiset(h) == multiset([t] + rest)
    ensures ForestLeaves(h) == LeafBag(t) + ForestLeaves(rest)
    ensures ForestSyms(h) == SymBag(t) + ForestSyms(rest)
  {
    BagByPermutation(h, [t] + rest, TreeLeaves);
    BagByPermutation(h, [t] + rest, TreeSyms);
    assert ([t] + rest)[1..] == rest;
  }

  lemma ExtractSplit(h: seq<Tree>)
    requires |h| > 0
    ensures multiset(h) == multiset([ExtractMin(h).0] + ExtractMin(h).1)
  {
    var r := ExtractMin(h);
    assert multiset([r.0] + r.1) == multiset{r.0} + multiset(r.1);
  }

  lemma InsertSplit(h: seq<Tree>, t: Tree)
    ensures multiset(InsertMinHeap(h, t)) == multiset([t] + h)
  {
    assert multiset([t] + h) == multiset{t} + multiset(h);
  }

  /** One merge keeps every tree well formed and keeps the leaves and
      symbols of the forest. */
  lemma MergeOnceShape(h: seq<Tree>)
    requires |h| >= 2 && AllWellFormed(h)
    ensures AllWellFormed(MergeOnce(h))
    ensures ForestLeaves(MergeOnce(h)) == ForestLeaves(h)
    ensures ForestSyms(MergeOnce(h)) == ForestSyms(h)
  {
    var left, h1, right, h2 := MergeOnceParts(h);
    MergeKeepsForest(h, left, h1, right, h2, MergeOnce(h));
  }

  /** One merge takes out `left`, then `right`, and puts their merge back. */
  lemma MergeOnceParts(h: seq<Tree>) returns (left: Tree, h1: seq<Tree>, right: Tree, h2: seq<Tree>)
    requires |h| >= 2
    ensures multiset(h) == multiset([left] + h1)
    ensures multiset(h1) == multiset([right] + h2)
    ensures multiset(MergeOnce(h)) == multiset([Merge(left, right)] + h2)
  {
    var first := ExtractMin(h);
    var second := ExtractMin(first.1);
    left, h1, right, h2 := first.0, first.1, second.0, second.1;
    var top := Merge(left, right);
    ExtractSplit(h);
    ExtractSplit(h1);
    MergeOnceInserts(h, h2, top);
    InsertSplit(h2, top);
  }

  lemma MergeOnceInserts(h: seq<Tree>, h2: seq<Tree>, top: Tree)
    requires |h| >= 2
    requires h2 == ExtractMin(ExtractMin(h).1).1
    requires top == Merge(ExtractMin(h).0, ExtractMin(ExtractMin(h).1).0)
    ensures MergeOnce(h) == InsertMinHeap(h2, top)
  {
  }

  /** One pass of the loop takes a lightest node of the heap, then a
      lightest node of what is left, and puts back their merge with the
      first as left child; the array stays a heap. */
  lemma MergeOnceTakesLightest(h: seq<Tree>)
    requires |h| >= 2
    ensures var first := ExtractMin(h); var second := ExtractMin(first.1);
      && multiset(h) == multiset{first.0, second.0} + multiset(second.1)
      && multiset(MergeOnce(h)) == multiset(second.1) + multiset{Merge(first.0, second.0)}
    ensures var first := ExtractMin(h); var second := ExtractMin(first.1);
      IsHeap(h) ==>
        && (forall k :: 0 <= k < |h| ==> first.0.freq <= h[k].freq)
        && (forall k :: 0 <= k < |first.1| ==> second.0.freq <= first.1[k].freq)
        && first.0.freq <= second.0.freq
        && IsHeap(MergeOnce(h))
  {
    MergeOnceBag(h);
    if IsHeap(h) {
      MergeOnceHeap(h);
    }
  }

  lemma MergeOnceBag(h: seq<Tree>)
    requires |h| >= 2
    ensures var first := ExtractMin(h); var second := ExtractMin(first.1);
      && multiset(h) == multiset{first.0, second.0} + multiset(second.1)
      && multiset(MergeOnce(h)) == multiset(second.1) + multiset{Merge(first.0, second.0)}
  {
    var first := ExtractMin(h);
    var second := ExtractMin(first.1);
    MergeOnceInserts(h, second.1, Merge(first.0, second.0));
  }

  lemma MergeOnceHeap(h: seq<Tree>)
    requires |h| >= 2 && IsHeap(h)
    ensures var first := ExtractMin(h); var second := ExtractMin(first.1);
      && (forall k :: 0 <= k < |h| ==> first.0.freq <= h[k].freq)
      && (forall k :: 0 <= k < |first.1| ==> second.0.freq <= first.1[k].freq)
      && first.0.freq <= second.0.freq
      && IsHeap(MergeOnce(h))
  {
    var first := ExtractMin(h);
    var second := ExtractMin(first.1);
    MergeOnceInserts(h, second.1, Merge(first.0, second.0));
    assert second.0 in multiset(first.1);
    assert second.0 in h;
  }

  /** Replacing two trees of a forest by their merge keeps its leaves,
      symbols and well-formedness. */
  lemma MergeKeepsForest(h: seq<Tree>, left: Tree, h1: seq<Tree>, right: Tree, h2: seq<Tree>, h3: seq<Tree>)
    requires AllWellFormed(h)
    requires multiset(h) == multiset([left] + h1)
    requires multiset(h1) == multiset([right] + h2)
    requires multiset(h3) == multiset([Merge(left, right)] + h2)
    ensures AllWellFormed(h3)
    ensures ForestLeaves(h3) == ForestLeaves(h)
    ensures ForestSyms(h3) == ForestSyms(h)
  {
    MergeKeepsLeaves(h, left, h1, right, h2, h3);
    MergeKeepsSyms(h, left, h1, right, h2, h3);
    MergeKeepsWellFormed(h, left, h1, right, h2, h3);
  }

  lemma MergeKeepsLeaves(h: seq<Tree>, left: Tree, h1: seq<Tree>, right: Tree, h2: seq<Tree>, h3: seq<Tree>)
    requires multiset(h) == multiset([left] + h1)
    requires multiset(h1) == multiset([right] + h2)
    requires multiset(h3) == multiset([Merge(left, right)] + h2)
    ensures ForestLeaves(h3) == ForestLeaves(h)
  {
    ForestSplit(h, left, h1);
    ForestSplit(h1, right, h2);
    ForestSplit(h3, Merge(left, right), h2);
    assert LeafBag(Merge(left, right)) == LeafBag(left) + LeafBag(right);
  }

  lemma MergeKeepsSyms(h: seq<Tree>, left: Tree, h1: seq<Tree>, right: Tree, h2: seq<Tree>, h3: seq<Tree>)
    requires multiset(h) == multiset([left] + h1)
    requires multiset(h1) == multiset([right] + h2)
    requires multiset(h3) == multiset([Merge(left, right)] + h2)
    ensures ForestSyms(h3) == ForestSyms(h)
  {
    ForestSplit(h, left, h1);
    ForestSplit(h1, right, h2);
    ForestSplit(h3, Merge(left, right), h2);
    assert SymBag(Merge(left, right)) == SymBag(left) + SymBag(right);
  }

  lemma MergeKeepsWellFormed(h: seq<Tree>, left: Tree, h1: seq<Tree>, right: Tree, h2: seq<Tree>, h3: seq<Tree>)
    requires AllWellFormed(h)
    requires multiset(h) == multiset([left] + h1)
    requires multiset(h1) == multiset([right] + h2)
    requires multiset(h3) == multiset([Merge(left, right)] + h2)
    ensures AllWellFormed(h3)
  {
    var top := Merge(left, right);
    assert left in multiset([left] + h1);
    assert right in multiset([right] + h2);
    assert right in multiset(h1);
    assert right in multiset([left] + h1);
    forall u | u in h3
      ensures WellFormed(u)
    {
      assert u in multiset([top] + h2);
      if u != top {
        assert u in multiset(h2);
        assert u in multiset([right] + h2);
        assert u in multiset(h1);
        assert u in multiset([left] + h1);
      }
    }
  }

  /** When one tree is left, the loop ends and that tree is the root. */
  lemma LastTree(h: seq<Tree>)
    requires |h| == 1 && AllWellFormed(h)
    ensures MergeAll(h).0 == h[0] && WellFormed(h[0])
    ensures ForestLeaves(h) == LeafBag(h[0])
    ensures ForestSyms(h) == SymBag(h[0])
  {
    assert h[0] in h;
    assert h[1..] == [];
    assert ForestLeaves(h) == LeafBag(h[0]) + ForestLeaves(h[1..]);
    assert ForestSyms(h) == SymBag(h[0]) + ForestSyms(h[1..]);
  }

  /** The merge loop keeps every tree well formed and keeps the leaves and
      symbols of the forest, so the final root carries them all. */
  lemma {:induction false} MergeAllShape(h: seq<Tree>)
    requires |h| >= 1 && AllWellFormed(h)
    ensures WellFormed(MergeAll(h).0)
    ensures LeafBag(MergeAll(h).0) == ForestLeaves(h)
    ensures SymBag(MergeAll(h).0) == ForestSyms(h)
    decreases |h|
  {
    if |h| == 1 {
      LastTree(h);
    } else {
      MergeOnceShape(h);
      MergeAllShape(MergeOnce(h));
    }
  }

  lemma {:induction false} LeafBagSize(t: Tree)
    ensures |LeafBag(t)| >= 1
    ensures t.Node? ==> |LeafBag(t)| >= 2
  {
    match t
    case Leaf(_, _) =>
    case Node(_, l, r) =>
      LeafBagSize(l);
      LeafBagSize(r);
  }

  /** buildHuffmanTree: every internal node is the sum of its children,
      the leaves are exactly the input pairs, the root weighs the total of
      the input frequencies, and the root is a lone leaf exactly when there
      is one input pair. */
  function BuildHuffmanTree(entries: seq<Entry>): (root: Tree)
    requires |entries| >= 1
    ensures WellFormed(root)
    ensures LeafBag(root) == multiset(entries)
    ensures SymBag(root) == BagBy(entries, EntrySym)
    ensures Unsigned(root.freq) == Unsigned(SumBy(entries, EntryFreq))
    ensures SumBy(entries, EntryFreq) < TwoTo32 ==> root.freq == SumBy(entries, EntryFreq)
    ensures root.Leaf? <==> |entries| == 1
  {
    var h := CreateAndBuildMinHeap(entries);
    LeavesOfCarryEntries(entries);
    BagByPermutation(h, LeavesOf(entries), TreeLeaves);
    BagByPermutation(h, LeavesOf(entries), TreeSyms);
    assert AllWellFormed(h) by {
      forall t | t in h
        ensures WellFormed(t)
      {
        assert t in multiset(LeavesOf(entries));
      }
    }
    MergeAllShape(h);
    LeafBagSize(MergeAll(h).0);
    WeightIsLeafTotal(MergeAll(h).0, entries);
    MergeAll(h).0
  }
}
