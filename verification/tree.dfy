/** The Huffman tree of compression.c (struct MinHeapNode). A node with no
    children is a leaf carrying a byte; an internal node carries the summed
    frequency of its two children. The C node is a leaf exactly when both
    child pointers are NULL (isLeaf); here that is the `Leaf` constructor. */
module HuffmanTree {
  import opened Basics
  import opened Bags

  /** One (symbol, frequency) pair as handed to the tree builder. */
  datatype Entry = Entry(sym: Byte, freq: nat)

  datatype Tree =
    | Leaf(sym: Byte, freq: nat)
    | Node(freq: nat, left: Tree, right: Tree)

  function FreqOf(t: Tree): nat { t.freq }

  function EntryFreq(e: Entry): nat { e.freq }

  function EntrySym(e: Entry): multiset<Byte> { multiset{e.sym} }

  /** The (symbol, frequency) pairs found at the leaves. */
  function LeafBag(t: Tree): multiset<Entry>
  {
    match t
    case Leaf(s, f) => multiset{Entry(s, f)}
    case Node(_, l, r) => LeafBag(l) + LeafBag(r)
  }

  /** The symbols found at the leaves, with repetitions. */
  function SymBag(t: Tree): multiset<Byte>
  {
    match t
    case Leaf(s, _) => multiset{s}
    case Node(_, l, r) => SymBag(l) + SymBag(r)
  }

  /** The set of symbols found at the leaves. */
  function Syms(t: Tree): set<Byte>
  {
    match t
    case Leaf(s, _) => {s}
    case Node(_, l, r) => Syms(l) + Syms(r)
  }

  /** Every internal node's frequency is the sum of its children's, as an
      `unsigned` sum: modulo 2^32. */
  predicate WellFormed(t: Tree)
  {
    match t
    case Leaf(_, _) => true
    case Node(f, l, r) => f == Unsigned(l.freq + r.freq) && WellFormed(l) && WellFormed(r)
  }

  /** No symbol sits at two leaves. */
  ghost predicate UniqueSyms(t: Tree)
  {
    forall s :: SymBag(t)[s] <= 1
  }

  /** The subtree reached from `t` by descending left on false ('0') and
      right on true ('1'); None when the walk tries to leave a leaf, which
      is where the C code would follow a NULL child. */
  function Follow(t: Tree, path: seq<bool>): Option<Tree>
    decreases |path|
  {
    if |path| == 0 then Some(t)
    else match t
      case Leaf(_, _) => None
      case Node(_, l, r) => Follow(if path[0] then r else l, path[1..])
  }

  /** isLeaf: a node is a leaf exactly when neither step leads anywhere
      from it, that is, when both of its children are NULL. */
  function IsLeaf(t: Tree): (b: bool)
    ensures b <==> (Follow(t, [false]).None? && Follow(t, [true]).None?)
  {
    t.Leaf?
  }

  /** `path` leads from `t` to a leaf holding symbol `s`. */
  predicate LeadsTo(t: Tree, path: seq<bool>, s: Byte)
  {
    var d := Follow(t, path);
    d.Some? && d.value.Leaf? && d.value.sym == s
  }

  lemma {:induction false} SymsAreSymBag(t: Tree)
    ensures forall s :: s in Syms(t) <==> s in SymBag(t)
  {
    match t
    case Leaf(_, _) =>
    case Node(_, l, r) =>
      SymsAreSymBag(l);
      SymsAreSymBag(r);
  }

  /** Both subtrees of a tree with unique symbols have unique symbols, and
      they share no symbol. */
  lemma UniqueSymsSplit(t: Tree)
    requires t.Node? && UniqueSyms(t)
    ensures UniqueSyms(t.left) && UniqueSyms(t.right)
    ensures Syms(t.left) !! Syms(t.right)
  {
    SymsAreSymBag(t.left);
    SymsAreSymBag(t.right);
    forall s
      ensures SymBag(t.left)[s] <= 1 && SymBag(t.right)[s] <= 1
      ensures !(s in Syms(t.left) && s in Syms(t.right))
    {
      assert SymBag(t)[s] == SymBag(t.left)[s] + SymBag(t.right)[s];
    }
  }

  /** A well-formed tree's frequency is the total of its leaves' modulo
      2^32, and exactly that total when the total does not wrap. */
  lemma WeightIsLeafTotal(t: Tree, leaves: seq<Entry>)
    requires WellFormed(t) && multiset(leaves) == LeafBag(t)
    ensures Unsigned(t.freq) == Unsigned(SumBy(leaves, EntryFreq))
    ensures SumBy(leaves, EntryFreq) < TwoTo32 ==> t.freq == SumBy(leaves, EntryFreq)
  {
    WeightIsLeafSum(t);
    SumByPermutation(LeafSeq(t), leaves, EntryFreq);
  }

  /** WeightIsLeafTotal for the leaves listed left to right. */
  lemma {:induction false} WeightIsLeafSum(t: Tree)
    requires WellFormed(t)
    ensures Unsigned(t.freq) == Unsigned(SumBy(LeafSeq(t), EntryFreq))
    ensures SumBy(LeafSeq(t), EntryFreq) < TwoTo32 ==> t.freq == SumBy(LeafSeq(t), EntryFreq)
    decreases t
  {
    match t
    case Leaf(s, f) =>
      assert SumBy(LeafSeq(t), EntryFreq) == f;
    case Node(_, l, r) =>
      WeightIsLeafSum(l);
      WeightIsLeafSum(r);
      WeightFromChildren(t);
  }

  /** The internal-node step of WeightIsLeafSum. */
  lemma WeightFromChildren(t: Tree)
    requires t.Node? && t.freq == Unsigned(t.left.freq + t.right.freq)
    requires Unsigned(t.left.freq) == Unsigned(SumBy(LeafSeq(t.left), EntryFreq))
    requires SumBy(LeafSeq(t.left), EntryFreq) < TwoTo32 ==> t.left.freq == SumBy(LeafSeq(t.left), EntryFreq)
    requires Unsigned(t.right.freq) == Unsigned(SumBy(LeafSeq(t.right), EntryFreq))
    requires SumBy(LeafSeq(t.right), EntryFreq) < TwoTo32 ==> t.right.freq == SumBy(LeafSeq(t.right), EntryFreq)
    ensures Unsigned(t.freq) == Unsigned(SumBy(LeafSeq(t), EntryFreq))
    ensures SumBy(LeafSeq(t), EntryFreq) < TwoTo32 ==> t.freq == SumBy(LeafSeq(t), EntryFreq)
  {
    LeafSumSplit(t);
    NodeWeight(t.freq, t.left.freq, t.right.freq,
      SumBy(LeafSeq(t.left), EntryFreq), SumBy(LeafSeq(t.right), EntryFreq), SumBy(LeafSeq(t), EntryFreq));
  }

  /** An internal node's leaf total is its children's leaf totals added. */
  lemma LeafSumSplit(t: Tree)
    requires t.Node?
    ensures SumBy(LeafSeq(t), EntryFreq) == SumBy(LeafSeq(t.left), EntryFreq) + SumBy(LeafSeq(t.right), EntryFreq)
  {
    assert LeafSeq(t) == LeafSeq(t.left) + LeafSeq(t.right);
    SumByConcat(LeafSeq(t.left), LeafSeq(t.right), EntryFreq);
  }

  /** The arithmetic of one internal node: its wrapped sum agrees with its
      leaves' total modulo 2^32, and equals it when nothing wraps. */
  lemma NodeWeight(f: nat, lf: nat, rf: nat, sl: nat, sr: nat, s: nat)
    requires f == Unsigned(lf + rf) && s == sl + sr
    requires Unsigned(lf) == Unsigned(sl) && Unsigned(rf) == Unsigned(sr)
    requires sl < TwoTo32 ==> lf == sl
    requires sr < TwoTo32 ==> rf == sr
    ensures Unsigned(f) == Unsigned(s)
    ensures s < TwoTo32 ==> f == s
  {
    UnsignedSum(lf, rf, sl, sr);
  }


  /** The leaves, left to right. */
  function LeafSeq(t: Tree): (s: seq<Entry>)
    ensures multiset(s) == LeafBag(t)
  {
    match t
    case Leaf(sy, f) => [Entry(sy, f)]
    case Node(_, l, r) => LeafSeq(l) + LeafSeq(r)
  }
}
