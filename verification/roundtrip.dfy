/** What decompressFile makes of compressFile's output. Both sides build the
    tree with the same function from the same ordered (byte, count) list, so
    the decoder's tree is the encoder's tree; every code leads from the root
    to its byte's leaf, so the bit walk reads the bytes back. With a single
    distinct byte the tree is a lone leaf, every code is empty, and the
    decoder finds no data to walk. */
module RoundTrip {
  import opened Basics
  import opened Bags
  import opened HuffmanTree
  import opened TreeBuilder
  import opened CodeTable
  import opened Frequency
  import opened BitPacking
  import opened Header
  import opened Decoder
  import opened Encoder

  /** Walking a code from an internal node emits the code's byte, then
      carries on from the root. */
  lemma {:induction false} WalkCode(root: Tree, cur: Tree, code: seq<bool>, rest: seq<bool>, n: nat, s: Byte)
    requires cur.Node?
    requires LeadsTo(cur, code, s)
    ensures Walk(root, cur, code + rest, n + 1) == Prepend(s, Walk(root, root, rest, n))
    decreases |code|
  {
    assert |code| > 0;
    var next := if code[0] then cur.right else cur.left;
    assert (code + rest)[0] == code[0];
    assert (code + rest)[1..] == code[1..] + rest;
    assert Follow(cur, code) == Follow(next, code[1..]);
    if next.Leaf? {
      assert code[1..] == [];
      assert code[1..] + rest == rest;
    } else {
      WalkCode(root, next, code[1..], rest, n, s);
    }
  }

  /** Walking the encoded message, whatever follows it, emits exactly the
      message and completes. */
  lemma {:induction false} WalkMessage(root: Tree, data: seq<Byte>, codes: map<Byte, seq<bool>>, pad: seq<bool>)
    requires root.Node?
    requires forall k :: 0 <= k < |data| ==> data[k] in codes && LeadsTo(root, codes[data[k]], data[k])
    ensures Walk(root, root, EncodeBits(data, codes) + pad, |data|) == Decoded(data, Complete)
    decreases |data|
  {
    if |data| > 0 {
      var c := codes[data[0]];
      var tail := EncodeBits(data[1..], codes);
      assert EncodeBits(data, codes) + pad == c + (tail + pad);
      WalkCode(root, root, c, tail + pad, |data| - 1, data[0]);
      WalkMessage(root, data[1..], codes, pad);
      assert [data[0]] + data[1..] == data;
    }
  }

  /** Walking a proper prefix of a code from an internal node never reaches
      a leaf: the bits run out first and the walk ends at end-of-data. */
  lemma {:induction false} WalkCodeCut(root: Tree, cur: Tree, code: seq<bool>, q: seq<bool>, n: nat, s: Byte)
    requires cur.Node?
    requires LeadsTo(cur, code, s)
    requires |q| < |code| && q == code[..|q|]
    ensures Walk(root, cur, q, n + 1) == Decoded([], UnexpectedEof)
    decreases |q|
  {
    if |q| > 0 {
      var next := if code[0] then cur.right else cur.left;
      assert q[0] == code[0];
      assert Follow(cur, code) == Follow(next, code[1..]);
      assert next.Node? by {
        assert |code[1..]| > 0;
      }
      WalkCodeCut(root, next, code[1..], q[1..], n, s);
    }
  }

  /** The walk over `q` stopped at end-of-data, never at an invalid step,
      after emitting the longest prefix of `data` whose codes fit in `q`:
      each byte is out as soon as its code is read whole. */
  predicate CutDecoded(root: Tree, data: seq<Byte>, codes: map<Byte, seq<bool>>, q: seq<bool>)
    requires forall k :: 0 <= k < |data| ==> data[k] in codes
  {
    var d := Walk(root, root, q, |data|);
    && d.status == UnexpectedEof && |d.output| < |data| && d.output == data[..|d.output|]
    && |EncodeBits(data[..|d.output|], codes)| <= |q| < |EncodeBits(data[..|d.output| + 1], codes)|
  }

  /** Walking a proper prefix of the encoded message emits the bytes whose
      codes it holds whole, and ends at end-of-data. */
  lemma {:induction false} WalkMessageCut(root: Tree, data: seq<Byte>, codes: map<Byte, seq<bool>>, q: seq<bool>)
    requires root.Node?
    requires forall k :: 0 <= k < |data| ==> data[k] in codes && LeadsTo(root, codes[data[k]], data[k])
    requires |q| < |EncodeBits(data, codes)| && q == EncodeBits(data, codes)[..|q|]
    ensures CutDecoded(root, data, codes, q)
    decreases |data|
  {
    assert |data| > 0;
    var c := codes[data[0]];
    var tail := EncodeBits(data[1..], codes);
    assert EncodeBits(data, codes) == c + tail;
    assert |c| > 0;
    if |q| < |c| {
      assert q == c[..|q|];
      CutInFirstCode(root, data, codes, q);
    } else {
      var rest := q[|c|..];
      assert q == c + rest;
      assert rest == tail[..|rest|];
      WalkMessageCut(root, data[1..], codes, rest);
      CutAfterFirstCode(root, data, codes, rest);
    }
  }

  /** WalkMessageCut when the bits end inside the first code. */
  lemma CutInFirstCode(root: Tree, data: seq<Byte>, codes: map<Byte, seq<bool>>, q: seq<bool>)
    requires root.Node? && |data| > 0
    requires forall k :: 0 <= k < |data| ==> data[k] in codes
    requires LeadsTo(root, codes[data[0]], data[0])
    requires |q| < |codes[data[0]]| && q == codes[data[0]][..|q|]
    ensures Walk(root, root, q, |data|) == Decoded([], UnexpectedEof)
    ensures CutDecoded(root, data, codes, q)
  {
    WalkCodeCut(root, root, codes[data[0]], q, |data| - 1, data[0]);
    assert data[..0] == [];
    EncodePrefixStep(data, codes, 0);
    assert data[1..][..0] == [];
  }

  /** WalkMessageCut when the first code is read whole: its byte is emitted,
      then the walk over the rest of the bits goes on from the root. */
  lemma CutAfterFirstCode(root: Tree, data: seq<Byte>, codes: map<Byte, seq<bool>>, rest: seq<bool>)
    requires root.Node? && |data| > 0
    requires forall k :: 0 <= k < |data| ==> data[k] in codes
    requires LeadsTo(root, codes[data[0]], data[0])
    requires CutDecoded(root, data[1..], codes, rest)
    ensures CutDecoded(root, data, codes, codes[data[0]] + rest)
  {
    var d1 := Walk(root, root, rest, |data[1..]|);
    WalkCode(root, root, codes[data[0]], rest, |data| - 1, data[0]);
    assert Walk(root, root, codes[data[0]] + rest, |data|) == Decoded([data[0]] + d1.output, d1.status);
    PrefixOneMore(data, codes, d1.output, |rest|);
  }

  /** One more byte in front: a prefix of data[1..] read from n bits
      becomes a prefix of data one byte longer, read from the first code
      and those n bits. */
  lemma PrefixOneMore(data: seq<Byte>, codes: map<Byte, seq<bool>>, p: seq<Byte>, n: nat)
    requires |data| > 0
    requires forall k :: 0 <= k < |data| ==> data[k] in codes
    requires |p| < |data| - 1 && p == data[1..][..|p|]
    requires |EncodeBits(data[1..][..|p|], codes)| <= n < |EncodeBits(data[1..][..|p| + 1], codes)|
    ensures [data[0]] + p == data[..|p| + 1]
    ensures |EncodeBits(data[..|p| + 1], codes)| <= |codes[data[0]]| + n < |EncodeBits(data[..|p| + 2], codes)|
  {
    assert [data[0]] + p == data[..|p| + 1];
    EncodePrefixStep(data, codes, |p|);
    EncodePrefixStep(data, codes, |p| + 1);
  }

  /** The codes of the first p + 1 bytes are the first byte's code, then
      the codes of the next p bytes. */
  lemma EncodePrefixStep(data: seq<Byte>, codes: map<Byte, seq<bool>>, p: nat)
    requires p < |data|
    requires forall k :: 0 <= k < |data| ==> data[k] in codes
    ensures EncodeBits(data[..p + 1], codes) == codes[data[0]] + EncodeBits(data[1..][..p], codes)
  {
    assert data[..p + 1][1..] == data[1..][..p];
  }

  /** A list in strictly ascending byte order names each byte at most once. */
  lemma {:induction false} AscendingSymsOnce(entries: seq<Entry>)
    requires StrictlyAscending(entries)
    ensures forall s :: BagBy(entries, EntrySym)[s] <= 1
  {
    if |entries| > 0 {
      var tail := entries[1..];
      assert StrictlyAscending(tail) by {
        forall i, j | 0 <= i < j < |tail|
          ensures tail[i].sym < tail[j].sym
        {
          assert tail[i] == entries[i + 1] && tail[j] == entries[j + 1];
        }
      }
      AscendingSymsOnce(tail);
      if entries[0].sym in BagBy(tail, EntrySym) {
        var j := InBagBy(tail, entries[0].sym);
        assert false;
      }
    }
  }

  /** One term of a sum is at most the sum. */
  lemma {:induction false} SumByBound<T>(s: seq<T>, f: T -> nat, k: nat)
    requires k < |s|
    ensures f(s[k]) <= SumBy(s, f)
  {
    if k > 0 {
      SumByBound(s[1..], f, k - 1);
    }
  }

  lemma {:induction false} TotalOfRecords(entries: seq<Entry>)
    ensures TotalCount(RecordsOf(entries)) == SumBy(entries, EntryFreq)
  {
    if |entries| > 0 {
      assert RecordsOf(entries)[1..] == RecordsOf(entries[1..]);
      TotalOfRecords(entries[1..]);
    }
  }

  lemma TreeEntriesOfRecords(entries: seq<Entry>)
    requires forall k :: 0 <= k < |entries| ==> entries[k].freq < TwoTo32
    ensures TreeEntries(RecordsOf(entries)) == entries
  {
  }

  /** Two different bytes named by a list need two entries. */
  lemma {:induction false} TwoSyms(entries: seq<Entry>, x: Byte, y: Byte)
    requires x in BagBy(entries, EntrySym) && y in BagBy(entries, EntrySym) && x != y
    ensures |entries| >= 2
  {
  }

  /** The facts both directions share: the ordered list compressFile builds
      for `data` fits the header, compressFile writes it before the packed
      codes, and the decoder's view of it is the list itself, with the
      total equal to the input length. */
  lemma SharedList(data: seq<Byte>)
    requires 1 <= |data| < TwoTo31
    ensures var entries := SymbolList(CountFrequency(data));
      && 1 <= |entries| <= MaxChars
      && (forall k :: 0 <= k < |entries| ==> entries[k].freq < TwoTo31)
      && (forall s :: BagBy(entries, EntrySym)[s] <= 1)
      && (forall k :: 0 <= k < |data| ==> data[k] in BagBy(entries, EntrySym))
      && Compress(data) == Ok(WriteHeader(entries) + Pack(EncodeBits(data, HuffmanCodes(entries))))
      && TreeEntries(RecordsOf(entries)) == entries
      && TotalCount(RecordsOf(entries)) == |data|
  {
    var freq := CountFrequency(data);
    var entries := SymbolList(freq);
    ListNamesEveryByte(data);
    assert data[0] in BagBy(entries, EntrySym);
    AscendingSymsOnce(entries);
    forall k | 0 <= k < |entries|
      ensures entries[k].freq < TwoTo31
    {
      SumByBound(entries, EntryFreq, k);
    }
    TreeEntriesOfRecords(entries);
    TotalOfRecords(entries);
  }

  /** Whatever bytes follow the header compressFile writes for `data`, the
      decoder rebuilds the encoder's tree and walks those bytes' bits,
      aiming for as many bytes as the input had. */
  lemma DecodeAfterHeader(data: seq<Byte>, rest: seq<Byte>)
    requires 1 <= |data| < TwoTo31
    ensures var entries := SymbolList(CountFrequency(data));
      && 1 <= |entries|
      && var root := BuildHuffmanTree(entries);
         Decompress(WriteHeader(entries) + rest) == Ok(Walk(root, root, Unpack(rest), |data|))
  {
    SharedList(data);
    var entries := SymbolList(CountFrequency(data));
    ReadWrittenHeader(entries, rest);
  }

  /** Decompressing compressFile's output walks the encoder's own tree over
      the unpacked data bytes, aiming for as many bytes as the input had. */
  lemma DecodeSameTree(data: seq<Byte>)
    requires 1 <= |data| < TwoTo31
    ensures var entries := SymbolList(CountFrequency(data));
      && 1 <= |entries|
      && (forall k :: 0 <= k < |data| ==> data[k] in HuffmanCodes(entries))
      && var root := BuildHuffmanTree(entries);
         var bits := EncodeBits(data, HuffmanCodes(entries));
         Decompress(Compress(data).value) == Ok(Walk(root, root, Unpack(Pack(bits)), |data|))
  {
    SharedList(data);
    var entries := SymbolList(CountFrequency(data));
    assert forall k :: 0 <= k < |data| ==> data[k] in HuffmanCodes(entries);
    DecodeAfterHeader(data, Pack(EncodeBits(data, HuffmanCodes(entries))));
  }

  /** With unique symbols, the code stored for each input byte leads from
      the root to that byte's leaf. */
  lemma CodesReachLeaves(data: seq<Byte>)
    requires 1 <= |data| < TwoTo31
    ensures var entries := SymbolList(CountFrequency(data));
      var codes := HuffmanCodes(entries);
      forall k :: 0 <= k < |data| ==> data[k] in codes && LeadsTo(BuildHuffmanTree(entries), codes[data[k]], data[k])
  {
    SharedList(data);
    var entries := SymbolList(CountFrequency(data));
    var root := BuildHuffmanTree(entries);
    assert HuffmanCodes(entries) == StoreCodes(root, [], map[]);
    CodesOfTree(root);
    SymsAreSymBag(root);
  }

  /** Two different input bytes give the frequency list two entries. */
  lemma TwoEntries(data: seq<Byte>, i: nat, j: nat)
    requires i < |data| && j < |data| && data[i] != data[j]
    ensures |SymbolList(CountFrequency(data))| >= 2
  {
    ListNamesEveryByte(data);
    TwoSyms(SymbolList(CountFrequency(data)), data[i], data[j]);
  }

  /** The decode loop over the unpacked stream of an encoded message reads
      the message back: the padding bits after it are never reached. */
  lemma WalkPacked(root: Tree, data: seq<Byte>, codes: map<Byte, seq<bool>>)
    requires root.Node?
    requires forall k :: 0 <= k < |data| ==> data[k] in codes && LeadsTo(root, codes[data[k]], data[k])
    ensures Walk(root, root, Unpack(Pack(EncodeBits(data, codes))), |data|) == Decoded(data, Complete)
  {
    var bits := EncodeBits(data, codes);
    UnpackPack(bits);
    WalkMessage(root, data, codes, Padding(|Unpack(Pack(bits))| - |bits|));
  }

  /** With at least two distinct bytes, decompressing the compressed bytes
      gives back exactly the input and the decode loop completes. The bound
      keeps every count, and the total, inside a C `int`. */
  lemma RoundTrip(data: seq<Byte>)
    requires |data| < TwoTo31
    requires exists i, j :: 0 <= i < |data| && 0 <= j < |data| && data[i] != data[j]
    ensures Compress(data).Ok?
    ensures Decompress(Compress(data).value) == Ok(Decoded(data, Complete))
  {
    var i, j :| 0 <= i < |data| && 0 <= j < |data| && data[i] != data[j];
    TwoEntries(data, i, j);
    CodesReachLeaves(data);
    DecodeSameTree(data);
    var entries := SymbolList(CountFrequency(data));
    WalkPacked(BuildHuffmanTree(entries), data, HuffmanCodes(entries));
  }

  /** A compressed file cut short inside its data bytes: with at least two
      distinct bytes, compressFile writes a header and then data bytes, and
      dropping the last `m` data bytes (but not the header) makes the
      decoder emit a proper prefix of the input and then report
      end-of-data, never an invalid traversal. */
  lemma Truncated(data: seq<Byte>, m: nat)
    requires |data| < TwoTo31
    requires exists i, j :: 0 <= i < |data| && 0 <= j < |data| && data[i] != data[j]
    requires 0 < m <= |DataBytes(data)|
    ensures Compress(data) == Ok(HeaderBytes(data) + DataBytes(data))
    ensures var d := Decompress(HeaderBytes(data) + DataBytes(data)[..|DataBytes(data)| - m]);
      d.Ok? && CutOutput(data, 8 * (|DataBytes(data)| - m), d.value)
  {
    var i, j :| 0 <= i < |data| && 0 <= j < |data| && data[i] != data[j];
    CutWalk(data, i, j, |DataBytes(data)| - m);
  }

  /** The decoder on the header followed by a proper prefix of the packed
      data bytes. */
  lemma CutWalk(data: seq<Byte>, i: nat, j: nat, k: nat)
    requires |data| < TwoTo31
    requires i < |data| && j < |data| && data[i] != data[j]
    requires k < |DataBytes(data)|
    ensures var d := Decompress(HeaderBytes(data) + DataBytes(data)[..k]);
      d.Ok? && CutOutput(data, 8 * k, d.value)
  {
    TwoEntries(data, i, j);
    CodesReachLeaves(data);
    var entries := SymbolList(CountFrequency(data));
    var codes := HuffmanCodes(entries);
    var root := BuildHuffmanTree(entries);
    var bits := EncodeBits(data, codes);
    assert DataBytes(data) == Pack(bits);
    DecodeAfterHeader(data, Pack(bits)[..k]);
    UnpackTruncated(bits, k);
    WalkMessageCut(root, data, codes, bits[..8 * k]);
    CutDecodedOutput(data, root, codes, bits[..8 * k]);
  }

  /** How decompressFile ends on a stream cut after `n` bits: at
      end-of-data, never at an invalid step, having written exactly the
      longest prefix of `data` whose codes fit in those `n` bits. */
  predicate CutOutput(data: seq<Byte>, n: nat, d: Decoded)
    requires 1 <= |data|
  {
    && d.status == UnexpectedEof && |d.output| < |data| && d.output == data[..|d.output|]
    && |PrefixBits(data, |d.output|)| <= n < |PrefixBits(data, |d.output| + 1)|
  }

  /** CutDecoded with the encoder's own code table is CutOutput. */
  lemma CutDecodedOutput(data: seq<Byte>, root: Tree, codes: map<Byte, seq<bool>>, q: seq<bool>)
    requires 1 <= |data|
    requires |SymbolList(CountFrequency(data))| >= 1
    requires codes == HuffmanCodes(SymbolList(CountFrequency(data)))
    requires forall k :: 0 <= k < |data| ==> data[k] in codes
    requires CutDecoded(root, data, codes, q)
    ensures CutOutput(data, |q|, Walk(root, root, q, |data|))
  {
    var d := Walk(root, root, q, |data|);
    assert |PrefixBits(data, |d.output|)| <= |q| by {
      PrefixBitsAre(data, codes, |d.output|);
    }
    assert |q| < |PrefixBits(data, |d.output| + 1)| by {
      PrefixBitsAre(data, codes, |d.output| + 1);
    }
  }

  /** An input made of one byte value lists exactly one entry. */
  lemma SingleEntry(data: seq<Byte>)
    requires 1 <= |data|
    requires forall k :: 0 <= k < |data| ==> data[k] == data[0]
    ensures |SymbolList(CountFrequency(data))| == 1
  {
    var freq := CountFrequency(data);
    var entries := SymbolList(freq);
    ListNamesEveryByte(data);
    assert data[0] in BagBy(entries, EntrySym);
    if |entries| >= 2 {
      assert false;
    }
  }

  /** With a single distinct byte the code is empty, no data bytes are
      written, and the decoder stops at once at the end of the data with
      nothing emitted: the input is not recovered. */
  lemma SingleSymbolIsLost(data: seq<Byte>)
    requires 1 <= |data| < TwoTo31
    requires forall k :: 0 <= k < |data| ==> data[k] == data[0]
    ensures Compress(data).Ok?
    ensures Decompress(Compress(data).value) == Ok(Decoded([], UnexpectedEof))
  {
    SingleEntry(data);
    DecodeSameTree(data);
    var entries := SymbolList(CountFrequency(data));
    var root := BuildHuffmanTree(entries);
    var codes := HuffmanCodes(entries);
    assert codes == StoreCodes(root, [], map[]);
    CodesOfTree(root);
    SymsAreSymBag(root);
    ListNamesEveryByte(data);
    assert EncodeBits(data, codes) == [];
  }
}
