/** storeCodes / HuffmanCodes: every leaf gets the bit path from the root
    to it, false ('0') for a left step and true ('1') for a right step. The
    walk visits the left subtree, then the right one, then stores the code
    if the node is a leaf, so a later leaf with the same symbol would
    overwrite an earlier one. */
module CodeTable {
  import opened Basics
  import opened Bags
  import opened HuffmanTree
  import opened TreeBuilder

  function StoreCodes(t: Tree, path: seq<bool>, codes: map<Byte, seq<bool>>): (out: map<Byte, seq<bool>>)
    ensures out.Keys == codes.Keys + Syms(t)
    decreases t
  {
    match t
    case Leaf(s, _) => codes[s := path]
    case Node(_, l, r) => StoreCodes(r, path + [true], StoreCodes(l, path + [false], codes))
  }

  /** HuffmanCodes: build the tree, then store the codes from an empty path;
      every symbol of the list, and no other, gets a code. */
  function HuffmanCodes(entries: seq<Entry>): (codes: map<Byte, seq<bool>>)
    requires |entries| >= 1
    ensures forall s :: s in codes <==> s in BagBy(entries, EntrySym)
  {
    var root := BuildHuffmanTree(entries);
    SymsAreSymBag(root);
    StoreCodes(root, [], map[])
  }

  /** With unique symbols, storeCodes leaves codes of other symbols alone and
      gives each leaf symbol `path` followed by the path to that leaf. */
  lemma {:induction false} StoreCodesArePaths(t: Tree, path: seq<bool>, codes: map<Byte, seq<bool>>)
    requires UniqueSyms(t)
    ensures forall s :: s in codes && s !in Syms(t) ==> StoreCodes(t, path, codes)[s] == codes[s]
    ensures forall s :: s in Syms(t) ==>
      var c := StoreCodes(t, path, codes)[s];
      |path| <= |c| && c[..|path|] == path && LeadsTo(t, c[|path|..], s)
    decreases t
  {
    match t
    case Leaf(_, _) =>
    case Node(_, l, r) =>
      var m1 := StoreCodes(l, path + [false], codes);
      var m2 := StoreCodes(r, path + [true], m1);
      UniqueSymsSplit(t);
      StoreCodesArePaths(l, path + [false], codes);
      StoreCodesArePaths(r, path + [true], m1);
      forall s | s in Syms(t)
        ensures |path| <= |m2[s]| && m2[s][..|path|] == path && LeadsTo(t, m2[s][|path|..], s)
      {
        if s in Syms(l) {
          assert s !in Syms(r);
          StepDown(t, false, path, m2[s], s);
        } else {
          StepDown(t, true, path, m2[s], s);
        }
      }
  }

  /** A code that extends `path` by one step into a child, then leads on
      to `s` from that child, leads to `s` from the node itself. */
  lemma StepDown(t: Tree, bit: bool, path: seq<bool>, c: seq<bool>, s: Byte)
    requires t.Node?
    requires |path| + 1 <= |c| && c[..|path| + 1] == path + [bit]
    requires LeadsTo(if bit then t.right else t.left, c[|path| + 1..], s)
    ensures |path| <= |c| && c[..|path|] == path && LeadsTo(t, c[|path|..], s)
  {
    assert c[..|path|] == c[..|path| + 1][..|path|];
    assert c[|path|] == c[..|path| + 1][|path|];
    var tail := c[|path|..];
    assert tail[0] == bit && tail[1..] == c[|path| + 1..];
  }

  /** Following a path and then a suffix is following their concatenation. */
  lemma {:induction false} FollowConcat(t: Tree, a: seq<bool>, b: seq<bool>)
    ensures Follow(t, a + b) == (match Follow(t, a) case None => None case Some(u) => Follow(u, b))
    decreases |a|
  {
    if |a| > 0 {
      assert (a + b)[0] == a[0];
      assert (a + b)[1..] == a[1..] + b;
      match t
      case Leaf(_, _) =>
      case Node(_, l, r) =>
        var child := if a[0] then r else l;
        FollowConcat(child, a[1..], b);
        assert Follow(t, a + b) == Follow(child, a[1..] + b);
        assert Follow(t, a) == Follow(child, a[1..]);
    } else {
      assert a + b == b;
    }
  }

  /** A path that reaches a leaf cannot be extended. */
  lemma PathToLeafIsMaximal(t: Tree, a: seq<bool>, b: seq<bool>, s1: Byte, s2: Byte)
    requires LeadsTo(t, a, s1) && LeadsTo(t, b, s2)
    requires |a| <= |b| && b[..|a|] == a
    ensures a == b && s1 == s2
  {
    var rest := b[|a|..];
    assert b == a + rest;
    FollowConcat(t, a, rest);
    assert rest == [];
  }

  /** The code table of a tree with unique symbols: exactly one code per leaf
      symbol, each the path to that symbol's leaf, no code a prefix of
      another, and the codes are empty exactly when the root is a lone leaf. */
  lemma CodesOfTree(t: Tree)
    requires UniqueSyms(t)
    ensures StoreCodes(t, [], map[]).Keys == Syms(t)
    ensures forall s :: s in Syms(t) ==> LeadsTo(t, StoreCodes(t, [], map[])[s], s)
    ensures forall s1, s2 :: s1 in Syms(t) && s2 in Syms(t) && s1 != s2 ==>
      var c1 := StoreCodes(t, [], map[])[s1];
      var c2 := StoreCodes(t, [], map[])[s2];
      !(|c1| <= |c2| && c2[..|c1|] == c1)
    ensures forall s :: s in Syms(t) ==> (|StoreCodes(t, [], map[])[s]| == 0 <==> t.Leaf?)
  {
    var codes := StoreCodes(t, [], map[]);
    StoreCodesArePaths(t, [], map[]);
    forall s | s in Syms(t)
      ensures LeadsTo(t, codes[s], s)
    {
      assert codes[s][0..] == codes[s];
    }
    forall s1, s2 | s1 in Syms(t) && s2 in Syms(t) && s1 != s2
      ensures !(|codes[s1]| <= |codes[s2]| && codes[s2][..|codes[s1]|] == codes[s1])
    {
      if |codes[s1]| <= |codes[s2]| && codes[s2][..|codes[s1]|] == codes[s1] {
        PathToLeafIsMaximal(t, codes[s1], codes[s2], s1, s2);
      }
    }
    forall s | s in Syms(t)
      ensures |codes[s]| == 0 <==> t.Leaf?
    {
    }
  }
}
