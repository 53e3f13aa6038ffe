/** The decode loop of decompressFile: read the header, rebuild the tree
    from the (byte, count) records with the same builder the encoder used,
    then walk the tree bit by bit, lowest bit of each byte first, emitting a
    byte at every leaf and returning to the root, until as many bytes as the
    counts add up to have been emitted. */
module Decoder {
  import opened Basics
  import opened Bags
  import opened HuffmanTree
  import opened TreeBuilder
  import opened BitPacking
  import opened Header

  /** How the decode loop ended. */
  datatype Status =
    | Complete           // all announced bytes were emitted
    | UnexpectedEof      // the data ran out first
    | InvalidTraversal   // a step tried to leave a leaf (a NULL child)

  /** The bytes emitted before the loop ended, and how it ended. */
  datatype Decoded = Decoded(output: seq<Byte>, status: Status)

  function Prepend(b: Byte, d: Decoded): Decoded
  {
    Decoded([b] + d.output, d.status)
  }

  /** The bit walk, from node `current` of the tree `root`, with
      `remaining` bytes still to emit. */
  function Walk(root: Tree, current: Tree, bits: seq<bool>, remaining: nat): (d: Decoded)
    ensures |d.output| <= remaining
    ensures d.status == Complete <==> |d.output| == remaining
    ensures forall k :: 0 <= k < |d.output| ==> d.output[k] in Syms(current) + Syms(root)
    decreases |bits|
  {
    if remaining == 0 then Decoded([], Complete)
    else if |bits| == 0 then Decoded([], UnexpectedEof)
    else match current
      case Leaf(_, _) => Decoded([], InvalidTraversal)
      case Node(_, l, r) =>
        var next := if bits[0] then r else l;
        if IsLeaf(next) then Prepend(next.sym, Walk(root, root, bits[1..], remaining - 1))
        else Walk(root, next, bits[1..], remaining)
  }

  /** A NULL child can only be met at a leaf: in a tree whose root is an
      internal node, the walk starts and resumes at internal nodes, so it
      never ends in an invalid traversal. */
  lemma {:induction false} WalkNeverInvalid(root: Tree, current: Tree, bits: seq<bool>, remaining: nat)
    requires root.Node? && current.Node?
    ensures Walk(root, current, bits, remaining).status != InvalidTraversal
    decreases |bits|
  {
    if remaining > 0 && |bits| > 0 {
      var next := if bits[0] then current.right else current.left;
      if IsLeaf(next) {
        WalkNeverInvalid(root, root, bits[1..], remaining - 1);
      } else {
        WalkNeverInvalid(root, next, bits[1..], remaining);
      }
    }
  }

  /** With a lone-leaf root (a one-record header), the first bit already
      asks for a child of a leaf: the walk stops with nothing emitted. */
  lemma LoneLeafIsInvalid(root: Tree, bits: seq<bool>, remaining: nat)
    requires root.Leaf? && remaining > 0 && |bits| > 0
    ensures Walk(root, root, bits, remaining) == Decoded([], InvalidTraversal)
  {
  }

  /** The tree builder's view of the records: each `int` count is passed
      to newNode as an `unsigned` frequency, so a count that is not
      negative is kept and a negative one gains 2^32. */
  function TreeEntries(records: seq<Record>): (entries: seq<Entry>)
    ensures |entries| == |records|
    ensures forall k :: 0 <= k < |records| ==> entries[k].sym == records[k].sym
    ensures forall k :: 0 <= k < |records| && 0 <= records[k].count < TwoTo31 ==>
      entries[k].freq == records[k].count
    ensures forall k :: 0 <= k < |records| && -TwoTo31 <= records[k].count < 0 ==>
      entries[k].freq == records[k].count + TwoTo32
  {
    seq(|records|, k requires 0 <= k < |records| => Entry(records[k].sym, Unsigned(records[k].count)))
  }

  /** total_chars: the sum of the signed counts. */
  function TotalCount(records: seq<Record>): int
  {
    if |records| == 0 then 0 else records[0].count + TotalCount(records[1..])
  }

  /** decompressFile on the bytes of a compressed file. Header errors stop
      it before any output; otherwise it emits the walk's bytes, aiming for
      total_chars of them (none when that sum is not positive). */
  function Decompress(input: seq<Byte>): (r: Result<Decoded, HeaderError>)
    ensures |input| < 4 ==> r == Err(MissingCount)
    ensures |input| >= 4 && (IntOf(input[..4]) <= 0 || IntOf(input[..4]) > MaxChars) ==>
      r == Err(BadCount(IntOf(input[..4])))
    ensures r.Err? <==> ReadHeader(input).Err?
    ensures r.Ok? ==> forall k :: 0 <= k < |r.value.output| ==>
      exists j :: 0 <= j < |ReadHeader(input).value.0| && ReadHeader(input).value.0[j].sym == r.value.output[k]
    ensures r.Ok? ==> (r.value.status == Complete <==> |r.value.output| == Max0(TotalCount(ReadHeader(input).value.0)))
  {
    match ReadHeader(input)
    case Err(e) => Err(e)
    case Ok((records, data)) =>
      var entries := TreeEntries(records);
      var root := BuildHuffmanTree(entries);
      var d := Walk(root, root, Unpack(data), Max0(TotalCount(records)));
      SymsInRecords(records, root);
      Ok(d)
  }

  function Max0(x: int): nat { if x > 0 then x else 0 }

  /** decompressFile prints "Invalid Huffman tree traversal" exactly when
      the header holds a single record with a positive count and at least
      one data byte follows: only a lone-leaf tree has a NULL child at the
      root. */
  lemma InvalidOnlyForLoneRecord(input: seq<Byte>)
    ensures (Decompress(input).Ok? && Decompress(input).value.status == InvalidTraversal) <==>
      (ReadHeader(input).Ok? && |ReadHeader(input).value.0| == 1 &&
       TotalCount(ReadHeader(input).value.0) > 0 && |ReadHeader(input).value.1| > 0)
  {
    match ReadHeader(input)
    case Err(_) =>
    case Ok((records, data)) =>
      var root := BuildHuffmanTree(TreeEntries(records));
      var bits := Unpack(data);
      var n := Max0(TotalCount(records));
      assert Decompress(input) == Ok(Walk(root, root, bits, n));
      if |records| == 1 && n > 0 && |data| > 0 {
        LoneLeafIsInvalid(root, bits, n);
      } else if |records| >= 2 {
        WalkNeverInvalid(root, root, bits, n);
      }
  }

  /** Every symbol of the rebuilt tree is the symbol of some record. */
  lemma SymsInRecords(records: seq<Record>, root: Tree)
    requires |records| >= 1
    requires root == BuildHuffmanTree(TreeEntries(records))
    ensures forall s :: s in Syms(root) ==> exists j :: 0 <= j < |records| && records[j].sym == s
  {
    var entries := TreeEntries(records);
    SymsAreSymBag(root);
    forall s | s in Syms(root)
      ensures exists j :: 0 <= j < |records| && records[j].sym == s
    {
      assert s in BagBy(entries, EntrySym);
      var j := InBagBy(entries, s);
      assert records[j].sym == s;
    }
  }

  /** A symbol counted by BagBy(entries, EntrySym) is the symbol of some entry. */
  lemma {:induction false} InBagBy(entries: seq<Entry>, s: Byte) returns (j: nat)
    requires s in BagBy(entries, EntrySym)
    ensures j < |entries| && entries[j].sym == s
  {
    if entries[0].sym == s {
      j := 0;
    } else {
      var k := InBagBy(entries[1..], s);
      j := k + 1;
    }
  }
}
