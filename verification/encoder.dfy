/** The encode side of compressFile: count the bytes, list the bytes that
    occur in ascending order with their counts, build the codes from that
    list, write the header, then every byte's code, packed lowest bit
    first. */
module Encoder {
  import opened Basics
  import opened Bags
  import opened HuffmanTree
  import opened CodeTable
  import opened Frequency
  import opened BitPacking
  import opened Header

  datatype CompressError =
    | EmptyInput   // the input has no bytes, so no code can be built

  /** The bit string the encode loop emits: the code of each input byte in
      turn. */
  function EncodeBits(data: seq<Byte>, codes: map<Byte, seq<bool>>): (bits: seq<bool>)
    requires forall k :: 0 <= k < |data| ==> data[k] in codes
    ensures (forall k :: 0 <= k < |data| ==> |codes[data[k]]| == 0) ==> bits == []
  {
    if |data| == 0 then [] else codes[data[0]] + EncodeBits(data[1..], codes)
  }

  /** The frequency list of a non-empty input names every input byte. */
  lemma ListNamesEveryByte(data: seq<Byte>)
    ensures forall k :: 0 <= k < |data| ==> data[k] in BagBy(SymbolList(CountFrequency(data)), EntrySym)
  {
    var freq := CountFrequency(data);
    forall k | 0 <= k < |data|
      ensures freq[data[k]] > 0
    {
      assert data[k] in multiset(data);
    }
  }

  /** The header compressFile writes for `data`: the record count, then
      each byte that occurs, ascending, with its count. */
  function HeaderBytes(data: seq<Byte>): seq<Byte>
  {
    WriteHeader(SymbolList(CountFrequency(data)))
  }

  /** The data bytes compressFile writes after the header: every input
      byte's code in turn, packed lowest bit first. */
  function DataBytes(data: seq<Byte>): seq<Byte>
    requires |data| >= 1
  {
    var entries := SymbolList(CountFrequency(data));
    ListNamesEveryByte(data);
    assert data[0] in BagBy(entries, EntrySym);
    Pack(EncodeBits(data, HuffmanCodes(entries)))
  }

  /** The bits compressFile writes for the first `p` input bytes: their
      codes in turn, before packing. */
  function PrefixBits(data: seq<Byte>, p: nat): seq<bool>
    requires 1 <= |data| && p <= |data|
  {
    CodesCoverPrefix(data, p);
    EncodeBits(data[..p], HuffmanCodes(SymbolList(CountFrequency(data))))
  }

  /** PrefixBits in terms of a code table known to be the encoder's. */
  lemma PrefixBitsAre(data: seq<Byte>, codes: map<Byte, seq<bool>>, p: nat)
    requires 1 <= |data| && p <= |data|
    requires |SymbolList(CountFrequency(data))| >= 1
    requires codes == HuffmanCodes(SymbolList(CountFrequency(data)))
    ensures forall k :: 0 <= k < p ==> data[..p][k] in codes
    ensures PrefixBits(data, p) == EncodeBits(data[..p], codes)
  {
    CodesCoverPrefix(data, p);
  }

  /** Every byte of a non-empty input gets a code. */
  lemma CodesCoverPrefix(data: seq<Byte>, p: nat)
    requires 1 <= |data| && p <= |data|
    ensures |SymbolList(CountFrequency(data))| >= 1
    ensures forall k :: 0 <= k < p ==> data[..p][k] in HuffmanCodes(SymbolList(CountFrequency(data)))
  {
    var entries := SymbolList(CountFrequency(data));
    ListNamesEveryByte(data);
    assert data[0] in BagBy(entries, EntrySym);
    var codes := HuffmanCodes(entries);
    forall k | 0 <= k < p
      ensures data[..p][k] in codes
    {
      assert data[..p][k] == data[k];
      assert data[k] in BagBy(entries, EntrySym);
    }
  }

  /** compressFile on the bytes of a file: an empty input is refused;
      otherwise the output is the header followed by the packed codes, so it
      is never shorter than one header record. */
  function Compress(data: seq<Byte>): (r: Result<seq<Byte>, CompressError>)
    ensures r.Err? <==> |data| == 0
    ensures r.Ok? ==> |r.value| >= 9
  {
    if |data| == 0 then Err(EmptyInput)
    else Ok(HeaderBytes(data) + DataBytes(data))
  }
}
