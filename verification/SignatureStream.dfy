/** The byte stream that the signature digest of a cell is taken of: the canonical records in
    sorted order, each behind its length in eight bytes, most significant first. */
module SignatureStream {
  import opened Results
  import opened Sorting
  import opened Lexicographic
  import opened Sequences

  type Byte = b: int | 0 <= b < 256

  predicate Ascii(record: string) {
    forall i :: 0 <= i < |record| ==> record[i] as int < 128
  }

  /** Canonical records are JSON in ASCII, so every character is one byte. */
  type Record = s: string | Ascii(s)

  /** The order in which records are digested: that of their characters. */
  predicate RecordLeq(a: Record, b: Record) { LexLeq(a, b) }

  lemma RecordIsAnOrder()
    ensures Total(RecordLeq) && Transitive(RecordLeq) && Antisymmetric(RecordLeq)
  {
    hide LexLeq;
    LexIsAnOrder();
  }

  function Encode(record: Record): (r: seq<Byte>)
    ensures |r| == |record|
  {
    seq(|record|, i requires 0 <= i < |record| => record[i] as int)
  }

  /** The most significant byte first. */
  function BigEndian(n: nat, width: nat): (r: seq<Byte>)
    ensures |r| == width
  {
    if width == 0 then [] else BigEndian(n / 256, width - 1) + [n % 256]
  }

  function Value(bytes: seq<Byte>): nat {
    if bytes == [] then 0 else 256 * Value(bytes[..|bytes| - 1]) + bytes[|bytes| - 1]
  }

  function Capacity(width: nat): nat {
    if width == 0 then 1 else 256 * Capacity(width - 1)
  }

  const WIDTH: nat := 8

  /** Lengths up to 2^64 - 1 can be written. */
  lemma CapacityOfWidth()
    ensures Capacity(WIDTH) == 0x1_0000_0000_0000_0000
  {
    assert Capacity(2) == 0x1_0000 && Capacity(4) == 0x1_0000_0000 && Capacity(6) == 0x1_0000_0000_0000;
  }

  datatype StreamError = LengthOverflow(record: Record)

  function Frame(record: Record): seq<Byte> {
    BigEndian(|record|, WIDTH) + Encode(record)
  }

  function Frames(records: seq<Record>): seq<Byte> {
    if records == [] then [] else Frames(records[..|records| - 1]) + Frame(records[|records| - 1])
  }

  ghost predicate Fits(records: seq<Record>) {
    forall i :: 0 <= i < |records| ==> |records[i]| < Capacity(WIDTH)
  }

  /** What is fed to the digest, and the number of records. */
  method StreamRecords(canonical: seq<Record>) returns (r: Result<(seq<Byte>, nat), StreamError>)
    ensures r.Success? ==> r.value == (Frames(Sort(canonical, RecordLeq)), |canonical|)
    ensures r.Success? <==> forall i :: 0 <= i < |canonical| ==> |canonical[i]| < 0x1_0000_0000_0000_0000
    ensures r.Failure? ==> r.error.record in canonical && |r.error.record| >= 0x1_0000_0000_0000_0000
  {
    hide Sort, BigEndian, Encode, Capacity;
    CapacityOfWidth();
    var sorted := Sort(canonical, RecordLeq);
    SortPermutes(canonical, RecordLeq);
    SortedMembers(canonical);
    var stream: seq<Byte>, records := [], 0;
    for n := 0 to |sorted|
      invariant stream == Frames(sorted[..n]) && records == n
      invariant Fits(sorted[..n])
    {
      var record := sorted[n];
      if |record| >= Capacity(WIDTH) {
        assert record in canonical;
        return Failure(LengthOverflow(record));
      }
      assert sorted[..n + 1][..n] == sorted[..n];
      stream := stream + Frame(record);
      records := records + 1;
    }
    assert sorted[..|sorted|] == sorted;
    r := Success((stream, records));
  }

  lemma SortedMembers(canonical: seq<Record>)
    ensures forall i :: 0 <= i < |Sort(canonical, RecordLeq)| ==> Sort(canonical, RecordLeq)[i] in canonical
    ensures Fits(Sort(canonical, RecordLeq)) <==> Fits(canonical)
  {
    hide Sort, Capacity;
    var sorted := Sort(canonical, RecordLeq);
    SortPermutes(canonical, RecordLeq);
    forall i | 0 <= i < |sorted| ensures sorted[i] in canonical {
      assert sorted[i] in multiset(canonical);
    }
    forall i | 0 <= i < |canonical| ensures canonical[i] in sorted {
      assert canonical[i] in multiset(sorted);
    }
    if Fits(canonical) {
      forall i | 0 <= i < |sorted| ensures |sorted[i]| < Capacity(WIDTH) {
        var j :| 0 <= j < |canonical| && canonical[j] == sorted[i];
      }
    }
    if Fits(sorted) {
      forall i | 0 <= i < |canonical| ensures |canonical[i]| < Capacity(WIDTH) {
        var j :| 0 <= j < |sorted| && sorted[j] == canonical[i];
      }
    }
  }

  // ---------- Unique decoding ----------

  lemma {:induction false} BigEndianValue(n: nat, width: nat)
    requires n < Capacity(width)
    ensures Value(BigEndian(n, width)) == n
  {
    if width > 0 {
      BigEndianValue(n / 256, width - 1);
      assert BigEndian(n, width)[..width - 1] == BigEndian(n / 256, width - 1);
    }
  }

  lemma EncodeUnique(a: Record, b: Record)
    requires Encode(a) == Encode(b)
    ensures a == b
  {
    assert |Encode(a)| == |a| && |Encode(b)| == |b|;
    forall i | 0 <= i < |a| ensures a[i] == b[i] {
      assert Encode(a)[i] == Encode(b)[i];
    }
  }

  /** A frame announces its own length, so it cannot be confused with another one. */
  lemma FrameUnique(a: Record, b: Record, rest: seq<Byte>, other: seq<Byte>)
    requires |a| < Capacity(WIDTH) && |b| < Capacity(WIDTH)
    requires Frame(a) + rest == Frame(b) + other
    ensures a == b && rest == other
  {
    hide BigEndian, Encode, Capacity;
    var stream := Frame(a) + rest;
    assert stream[..WIDTH] == BigEndian(|a|, WIDTH) && (Frame(b) + other)[..WIDTH] == BigEndian(|b|, WIDTH);
    BigEndianValue(|a|, WIDTH);
    BigEndianValue(|b|, WIDTH);
    assert stream[WIDTH..][..|a|] == Encode(a) && (Frame(b) + other)[WIDTH..][..|b|] == Encode(b);
    EncodeUnique(a, b);
    assert rest == stream[WIDTH + |a|..] && other == (Frame(b) + other)[WIDTH + |b|..];
  }

  lemma {:induction false} FramesFirst(records: seq<Record>)
    requires records != []
    ensures Frames(records) == Frame(records[0]) + Frames(records[1..])
  {
    hide Frame;
    if |records| == 1 {
      assert records[..0] == [] && records[1..] == [];
    } else {
      var n := |records| - 1;
      FramesFirst(records[..n]);
      assert records[..n][1..] == records[1..][..n - 1];
      Associative(Frame(records[0]), Frames(records[1..][..n - 1]), Frame(records[n]));
    }
  }

  /** The stream determines the list of records. */
  lemma {:induction false} FramesUnique(a: seq<Record>, b: seq<Record>)
    requires Fits(a) && Fits(b) && Frames(a) == Frames(b)
    ensures a == b
  {
    hide Frames, Capacity;
    if a == [] || b == [] {
      NoFrames(a);
      NoFrames(b);
    } else {
      FramesFirst(a);
      FramesFirst(b);
      FrameUnique(a[0], b[0], Frames(a[1..]), Frames(b[1..]));
      FramesUnique(a[1..], b[1..]);
      assert a == [a[0]] + a[1..] && b == [b[0]] + b[1..];
    }
  }

  lemma NoFrames(records: seq<Record>)
    ensures Frames(records) == [] <==> records == []
  {
  }

  /** Two ledgers feed the digest the same stream exactly when they hold the same records, each as
      often: the order of the lines does not matter and nothing else is confused. */
  lemma StreamIffSameRecords(a: seq<Record>, b: seq<Record>)
    requires Fits(a) && Fits(b)
    ensures Frames(Sort(a, RecordLeq)) == Frames(Sort(b, RecordLeq)) <==> multiset(a) == multiset(b)
  {
    hide Sort, Frames, RecordLeq, Capacity;
    SortPermutes(a, RecordLeq);
    SortPermutes(b, RecordLeq);
    if Frames(Sort(a, RecordLeq)) == Frames(Sort(b, RecordLeq)) {
      SortedMembers(a);
      SortedMembers(b);
      FramesUnique(Sort(a, RecordLeq), Sort(b, RecordLeq));
    }
    if multiset(a) == multiset(b) {
      RecordIsAnOrder();
      SortForgetsOrder(a, b, RecordLeq);
    }
  }

  // ---------- In terms of the records alone ----------

  /** The records are fed in the order of their characters. */
  lemma RecordsAscend(canonical: seq<Record>)
    ensures multiset(Sort(canonical, RecordLeq)) == multiset(canonical)
    ensures forall i, j :: 0 <= i < j < |Sort(canonical, RecordLeq)| ==>
      TextLeq(Sort(canonical, RecordLeq)[i], Sort(canonical, RecordLeq)[j])
  {
    hide Sort, TextLeq;
    var sorted := Sort(canonical, RecordLeq);
    SortPermutes(canonical, RecordLeq);
    RecordIsAnOrder();
    SortSorts(canonical, RecordLeq);
    forall i, j | 0 <= i < j < |sorted|
      ensures TextLeq(sorted[i], sorted[j])
    {
      assert RecordLeq(sorted[i], sorted[j]);
      LexLeqIff(sorted[i], sorted[j]);
    }
  }

  lemma ValueStep(bytes: seq<Byte>, k: nat)
    requires k < |bytes|
    ensures Value(bytes[..k + 1]) == 256 * Value(bytes[..k]) + bytes[k]
  {
    assert bytes[..k + 1][..k] == bytes[..k];
  }

  /** The number that the first eight bytes denote, the most significant one first. */
  ghost function EightByteNumber(f: seq<Byte>): int
    requires |f| >= 8
  {
    0x100_0000_0000_0000 * (f[0] as int) + 0x1_0000_0000_0000 * (f[1] as int)
    + 0x100_0000_0000 * (f[2] as int) + 0x1_0000_0000 * (f[3] as int)
    + 0x100_0000 * (f[4] as int) + 0x1_0000 * (f[5] as int) + 0x100 * (f[6] as int) + (f[7] as int)
  }

  lemma EightBytes(bytes: seq<Byte>)
    requires |bytes| == 8
    ensures Value(bytes) == EightByteNumber(bytes)
  {
    hide Value;
    NothingDenoted();
    assert bytes[..0] == [] && bytes[..8] == bytes;
    ValueStep(bytes, 0);
    ValueStep(bytes, 1);
    ValueStep(bytes, 2);
    ValueStep(bytes, 3);
    ValueStep(bytes, 4);
    ValueStep(bytes, 5);
    ValueStep(bytes, 6);
    ValueStep(bytes, 7);
  }

  lemma NothingDenoted()
    ensures Value([]) == 0
  {
  }

  /** A record behind its length: eight bytes, the most significant first, then its characters. */
  lemma FrameBytes(record: Record)
    requires |record| < 0x1_0000_0000_0000_0000
    ensures var f := Frame(record);
      && |f| == 8 + |record|
      && |record| == EightByteNumber(f)
      && forall i :: 0 <= i < |record| ==> f[8 + i] == record[i] as int
  {
    hide BigEndian, Value;
    CapacityOfWidth();
    BigEndianValue(|record|, WIDTH);
    EightBytes(BigEndian(|record|, WIDTH));
  }
}
