/** countFrequency's counting loop and the loop of compressFile that lists
    the bytes present, in ascending byte order, with their counts. */
module Frequency {
  import opened Basics
  import opened Bags
  import opened HuffmanTree

  /** A count, as a term of a table's sum: SumBy(freq, Count) is the sum
      of a count table. */
  function Count(n: nat): nat { n }

  lemma {:induction false} TotalOfZeros(n: nat)
    ensures SumBy(seq<nat>(n, _ => 0), Count) == 0
  {
    if n > 0 {
      assert seq<nat>(n, _ => 0)[1..] == seq<nat>(n - 1, _ => 0);
      TotalOfZeros(n - 1);
    }
  }

  lemma {:induction false} TotalOfIncrement(s: seq<nat>, i: nat)
    requires i < |s|
    ensures SumBy(s[i := s[i] + 1], Count) == SumBy(s, Count) + 1
  {
    if i == 0 {
      assert s[i := s[i] + 1][1..] == s[1..];
    } else {
      assert s[i := s[i] + 1][1..] == s[1..][i - 1 := s[i] + 1];
      TotalOfIncrement(s[1..], i - 1);
    }
  }

  /** countFrequency: zero all 256 counts, then add one for every byte read.
      Afterwards each count is the number of occurrences of its byte and the
      counts add up to the input length. */
  function CountFrequency(data: seq<Byte>): (freq: seq<nat>)
    ensures |freq| == 256
    ensures forall b: Byte :: freq[b] == multiset(data)[b]
    ensures SumBy(freq, Count) == |data|
  {
    if |data| == 0 then
      TotalOfZeros(256);
      seq<nat>(256, _ => 0)
    else
      var last := |data| - 1;
      var before := CountFrequency(data[..last]);
      assert data == data[..last] + [data[last]];
      assert multiset(data) == multiset(data[..last]) + multiset{data[last]};
      TotalOfIncrement(before, data[last]);
      before[data[last] := before[data[last]] + 1]
  }

  /** Entries listed in strictly ascending symbol order. */
  ghost predicate StrictlyAscending(entries: seq<Entry>)
  {
    forall i, j :: 0 <= i < j < |entries| ==> entries[i].sym < entries[j].sym
  }

  /** The frequency-list loop: every byte with a nonzero count, in ascending
      byte order, paired with its count. */
  function SymbolList(freq: seq<nat>): (entries: seq<Entry>)
    requires |freq| == 256
    ensures StrictlyAscending(entries)
    ensures |entries| <= 256
    ensures forall k :: 0 <= k < |entries| ==> entries[k].freq == freq[entries[k].sym] > 0
    ensures forall b: Byte :: freq[b] > 0 <==> b in BagBy(entries, EntrySym)
    ensures SumBy(entries, EntryFreq) == SumBy(freq, Count)
  {
    var entries := SymbolListFrom(freq, 0);
    assert freq[0..] == freq;
    entries
  }

  /** What the loop from byte value `i` on produces. */
  ghost predicate ListedFrom(freq: seq<nat>, i: nat, entries: seq<Entry>)
    requires |freq| == 256 && i <= 256
  {
    && StrictlyAscending(entries)
    && |entries| <= 256 - i
    && (forall k :: 0 <= k < |entries| ==> i <= entries[k].sym)
    && (forall k :: 0 <= k < |entries| ==> entries[k].freq == freq[entries[k].sym] > 0)
    && (forall b: Byte :: i <= b && freq[b] > 0 ==> b in BagBy(entries, EntrySym))
    && (forall b :: b in BagBy(entries, EntrySym) ==> i <= b && freq[b] > 0)
    && SumBy(entries, EntryFreq) == SumBy(freq[i..], Count)
  }

  /** The loop from byte value `i` on. */
  function SymbolListFrom(freq: seq<nat>, i: nat): (entries: seq<Entry>)
    requires |freq| == 256 && i <= 256
    ensures ListedFrom(freq, i, entries)
    decreases 256 - i
  {
    if i == 256 then []
    else
      var rest := SymbolListFrom(freq, i + 1);
      if freq[i] > 0 then
        ListedWith(freq, i, rest);
        [Entry(i, freq[i])] + rest
      else
        ListedWithout(freq, i, rest);
        rest
  }

  lemma ListedWith(freq: seq<nat>, i: nat, rest: seq<Entry>)
    requires |freq| == 256 && i < 256 && freq[i] > 0
    requires ListedFrom(freq, i + 1, rest)
    ensures ListedFrom(freq, i, [Entry(i, freq[i])] + rest)
  {
    var entries := [Entry(i, freq[i])] + rest;
    assert entries[1..] == rest;
    ConsAscending(Entry(i, freq[i]), rest);
    assert freq[i..][1..] == freq[i + 1..];
  }

  lemma ConsAscending(x: Entry, rest: seq<Entry>)
    requires StrictlyAscending(rest)
    requires forall k :: 0 <= k < |rest| ==> x.sym < rest[k].sym
    ensures StrictlyAscending([x] + rest)
  {
    var entries := [x] + rest;
    forall j, k | 0 <= j < k < |entries|
      ensures entries[j].sym < entries[k].sym
    {
      assert entries[k] == rest[k - 1];
      if j > 0 {
        assert entries[j] == rest[j - 1];
      }
    }
  }

  lemma ListedWithout(freq: seq<nat>, i: nat, rest: seq<Entry>)
    requires |freq| == 256 && i < 256 && freq[i] == 0
    requires ListedFrom(freq, i + 1, rest)
    ensures ListedFrom(freq, i, rest)
  {
    assert freq[i..] == [freq[i]] + freq[i + 1..];
  }
}
