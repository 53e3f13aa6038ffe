/** The header of a compressed file: the number of distinct bytes, then one
    (byte, count) record per distinct byte. Counts and the record count are
    C `int`s written with fwrite, so they take four bytes each in the
    machine's order; this model fixes that order to little-endian (x86) and
    the width to 32 bits. */
module Header {
  import opened Basics
  import opened HuffmanTree

  const TwoTo31: int := 0x8000_0000

  /** MAX_CHARS: the most records a header may announce. */
  const MaxChars: int := 256

  /** The four bytes fwrite emits for a 32-bit `int`: two's complement,
      lowest byte first. Values outside the `int` range wrap. */
  function IntBytes(x: int): (b: seq<Byte>)
    ensures |b| == 4
  {
    var u := Unsigned(x);
    [u % 256, (u / 256) % 256, (u / 65536) % 256, (u / 16777216) % 256]
  }

  /** The `int` fread fills from four bytes. */
  function IntOf(b: seq<Byte>): (x: int)
    requires |b| == 4
    ensures -TwoTo31 <= x < TwoTo31
  {
    var u: int := b[0] as int + 256 * (b[1] as int) + 65536 * (b[2] as int) + 16777216 * (b[3] as int);
    if u >= TwoTo31 then u - TwoTo32 else u
  }

  /** Reading back an `int` gives the value written. */
  lemma IntRoundTrip(x: int)
    requires -TwoTo31 <= x < TwoTo31
    ensures IntOf(IntBytes(x)) == x
  {
    var u := Unsigned(x);
    var q1 := u / 256;
    var q2 := q1 / 256;
    var q3 := q2 / 256;
    assert u == u % 256 + 256 * q1;
    assert q1 == q1 % 256 + 256 * q2;
    assert q2 == q2 % 256 + 256 * q3;
    assert q3 < 256;
    assert u / 65536 == q2;
    assert u / 16777216 == q3;
    var b := IntBytes(x);
    assert b == [u % 256, q1 % 256, q2 % 256, q3];
    assert b[0] as int + 256 * (b[1] as int) + 65536 * (b[2] as int) + 16777216 * (b[3] as int) == u;
  }

  /** One header record as the decoder holds it: the byte and its count as
      a signed `int`. */
  datatype Record = Record(sym: Byte, count: int)

  datatype HeaderError =
    | MissingCount           // fewer than four bytes for the record count
    | BadCount(count: int)   // a record count <= 0 or > MAX_CHARS
    | MissingRecord          // the input ends inside the records

  function WriteRecords(entries: seq<Entry>): (out: seq<Byte>)
    ensures |out| == 5 * |entries|
  {
    if |entries| == 0 then []
    else [entries[0].sym] + IntBytes(entries[0].freq) + WriteRecords(entries[1..])
  }

  /** The header compressFile writes: the count, then (byte, count) pairs in
      list order. */
  function WriteHeader(entries: seq<Entry>): (out: seq<Byte>)
    ensures |out| == 4 + 5 * |entries|
  {
    IntBytes(|entries|) + WriteRecords(entries)
  }

  /** The k-th five-byte record of `input`: its byte, then its count as a
      four-byte `int`. */
  function RecordAt(input: seq<Byte>, k: nat): Record
    requires 5 * k + 5 <= |input|
  {
    Record(input[5 * k], IntOf(input[5 * k + 1..5 * k + 5]))
  }

  /** Read `n` records; what follows them is returned alongside. */
  function ReadRecords(input: seq<Byte>, n: nat): (r: Result<(seq<Record>, seq<Byte>), HeaderError>)
    ensures r.Ok? ==> |r.value.0| == n && |input| >= 5 * n && r.value.1 == input[5 * n..]
    ensures r.Ok? <==> |input| >= 5 * n
    ensures r.Err? ==> r.error == MissingRecord
    ensures r.Ok? ==> forall k :: 0 <= k < n ==> r.value.0[k] == RecordAt(input, k)
  {
    if n == 0 then Ok(([], input))
    else if |input| < 5 then Err(MissingRecord)
    else
      match ReadRecords(input[5..], n - 1)
      case Err(e) => Err(e)
      case Ok((records, rest)) =>
        RecordsShift(input, n);
        Ok(([Record(input[0], IntOf(input[1..5]))] + records, rest))
  }

  /** Record k of the input is record k - 1 of what follows its first
      five bytes. */
  lemma RecordsShift(input: seq<Byte>, n: nat)
    requires 5 <= 5 * n <= |input|
    ensures forall k :: 1 <= k < n ==> RecordAt(input[5..], k - 1) == RecordAt(input, k)
  {
    forall k | 1 <= k < n
      ensures RecordAt(input[5..], k - 1) == RecordAt(input, k)
    {
      var j := k - 1;
      assert 5 + 5 * j == 5 * k;
      DropSlice(input, 5, 5 * j + 1, 5 * j + 5);
    }
  }

  lemma DropSlice(s: seq<Byte>, a: nat, i: nat, j: nat)
    requires i <= j && a + j <= |s|
    ensures s[a..][i..j] == s[a + i..a + j]
  {
    forall t | 0 <= t < j - i
      ensures s[a..][i..j][t] == s[a + i..a + j][t]
    {
      assert s[a..][i + t] == s[a + i + t];
    }
  }

  /** The header-reading part of decompressFile: a record count that cannot
      be read, or is <= 0 or > MAX_CHARS, or records that cannot be read,
      end decompression before any tree is built. */
  function ReadHeader(input: seq<Byte>): (r: Result<(seq<Record>, seq<Byte>), HeaderError>)
    ensures |input| < 4 ==> r == Err(MissingCount)
    ensures |input| >= 4 && (IntOf(input[..4]) <= 0 || IntOf(input[..4]) > MaxChars) ==>
      r == Err(BadCount(IntOf(input[..4])))
    ensures r.Ok? ==> 1 <= |r.value.0| <= MaxChars && |r.value.0| == IntOf(input[..4])
    ensures r.Ok? ==> |input| >= 4 + 5 * |r.value.0| && r.value.1 == input[4 + 5 * |r.value.0|..]
    ensures |input| >= 4 && 1 <= IntOf(input[..4]) <= MaxChars ==>
      (r.Ok? <==> |input| >= 4 + 5 * IntOf(input[..4]))
    ensures r.Ok? ==> forall k :: 0 <= k < |r.value.0| ==> r.value.0[k] == RecordAt(input[4..], k)
  {
    if |input| < 4 then Err(MissingCount)
    else
      var count := IntOf(input[..4]);
      if count <= 0 || count > MaxChars then Err(BadCount(count))
      else
        ReadRecords(input[4..], count)
  }

  /** The records the decoder reads back from a written header. */
  function RecordsOf(entries: seq<Entry>): (records: seq<Record>)
    ensures |records| == |entries|
    ensures forall k :: 0 <= k < |entries| ==> records[k] == Record(entries[k].sym, entries[k].freq)
  {
    if |entries| == 0 then [] else [Record(entries[0].sym, entries[0].freq)] + RecordsOf(entries[1..])
  }

  lemma {:induction false} ReadWrittenRecords(entries: seq<Entry>, rest: seq<Byte>)
    requires forall k :: 0 <= k < |entries| ==> entries[k].freq < TwoTo31
    ensures ReadRecords(WriteRecords(entries) + rest, |entries|) == Ok((RecordsOf(entries), rest))
  {
    if |entries| > 0 {
      var e := entries[0];
      var input := WriteRecords(entries) + rest;
      assert input == [e.sym] + IntBytes(e.freq) + (WriteRecords(entries[1..]) + rest);
      assert input[0] == e.sym;
      assert input[1..5] == IntBytes(e.freq);
      assert input[5..] == WriteRecords(entries[1..]) + rest;
      IntRoundTrip(e.freq);
      ReadWrittenRecords(entries[1..], rest);
    } else {
      assert WriteRecords(entries) + rest == rest;
    }
  }

  /** Reading a written header gives back every (byte, count) pair in the
      order written, and leaves the data that followed it. */
  lemma {:induction false} ReadWrittenHeader(entries: seq<Entry>, rest: seq<Byte>)
    requires 1 <= |entries| <= MaxChars
    requires forall k :: 0 <= k < |entries| ==> entries[k].freq < TwoTo31
    ensures ReadHeader(WriteHeader(entries) + rest) == Ok((RecordsOf(entries), rest))
  {
    var input := WriteHeader(entries) + rest;
    assert input == IntBytes(|entries|) + (WriteRecords(entries) + rest);
    assert input[..4] == IntBytes(|entries|);
    assert input[4..] == WriteRecords(entries) + rest;
    assert IntOf(input[..4]) == |entries| by {
      IntRoundTrip(|entries|);
    }
    ReadWrittenRecords(entries, rest);
    assert ReadHeader(input) == ReadRecords(input[4..], |entries|);
  }
}
