/**
 * The integrity manifest of android/src/save_states.cpp: a magic number, a count, and one or two
 * records of a payload size and its SHA-256 digest.
 */
module Integrity {
  import A = Alignment

  type Byte = x: nat | x < 256

  type Digest = d: seq<Byte> | |d| == 32 witness seq(32, _ => 0)

  const TWO64: nat := 0x1_0000_0000_0000_0000

  datatype Record = Record(size: nat, digest: Digest) {
    predicate Valid() {
      size < TWO64
    }
  }

  /** "EMUCSH01" */
  const MAGIC: seq<Byte> := [0x45, 0x4d, 0x55, 0x43, 0x53, 0x48, 0x30, 0x31]
  const HEADER := 9
  const RECORD := 40
  const LIMIT := HEADER + 2 * RECORD

  // ----- Little-endian numbers -----

  function LeBytes(v: nat, n: nat): (b: seq<Byte>)
    ensures |b| == n
    decreases n
  {
    if n == 0 then [] else [v % 256] + LeBytes(v / 256, n - 1)
  }

  function LeValue(b: seq<Byte>): nat {
    if b == [] then 0 else b[0] + 256 * LeValue(b[1..])
  }

  function Pow256(n: nat): nat {
    if n == 0 then 1 else 256 * Pow256(n - 1)
  }

  lemma LowByte(x: Byte, y: nat)
    ensures (x + 256 * y) % 256 == x && (x + 256 * y) / 256 == y
  {
  }

  lemma {:induction false} BytesOfValue(b: seq<Byte>)
    ensures LeBytes(LeValue(b), |b|) == b && LeValue(b) < Pow256(|b|)
  {
    if b != [] {
      BytesOfValue(b[1..]);
      LowByte(b[0], LeValue(b[1..]));
      assert b == [b[0]] + b[1..];
    }
  }

  lemma {:induction false} ValueOfBytes(v: nat, n: nat)
    requires v < Pow256(n)
    ensures LeValue(LeBytes(v, n)) == v
    decreases n
  {
    if n > 0 {
      ValueOfBytes(v / 256, n - 1);
      assert LeBytes(v, n)[1..] == LeBytes(v / 256, n - 1);
    }
  }

  lemma EightBytes()
    ensures Pow256(8) == TWO64
  {
    assert Pow256(4) == 0x1_0000_0000;
  }

  // ----- The format -----

  ghost predicate Writable(records: seq<Record>) {
    1 <= |records| <= 2 && forall i :: 0 <= i < |records| ==> records[i].Valid()
  }

  function RecordBytes(r: Record): (b: seq<Byte>)
    ensures |b| == RECORD
  {
    LeBytes(r.size, 8) + r.digest
  }

  function Serialize(records: seq<Record>): (b: seq<Byte>)
    requires 1 <= |records| <= 2
    ensures |b| == HEADER + |records| * RECORD
  {
    MAGIC + [|records| as Byte] + RecordBytes(records[0]) + (if |records| == 2 then RecordBytes(records[1]) else [])
  }

  function RecordAt(b: seq<Byte>, i: nat): Record
    requires HEADER + (i + 1) * RECORD <= |b|
  {
    var at := HEADER + i * RECORD;
    Record(LeValue(b[at..at + 8]), b[at + 8..at + RECORD])
  }

  /** read_integrity: no records for anything that is not a well-formed manifest. */
  function Parse(b: seq<Byte>): seq<Record> {
    if |b| != HEADER + RECORD && |b| != LIMIT then []
    else if b[..8] != MAGIC then []
    else if b[8] < 1 || b[8] > 2 || |b| != HEADER + b[8] * RECORD then []
    else if b[8] == 1 then [RecordAt(b, 0)]
    else [RecordAt(b, 0), RecordAt(b, 1)]
  }

  lemma RecordReadsBack(prefix: seq<Byte>, r: Record, suffix: seq<Byte>, i: nat)
    requires r.Valid() && |prefix| == HEADER + i * RECORD
    ensures RecordAt(prefix + RecordBytes(r) + suffix, i) == r
  {
    var b := prefix + RecordBytes(r) + suffix;
    var at := |prefix|;
    assert b[at..at + 8] == LeBytes(r.size, 8);
    assert b[at + 8..at + RECORD] == r.digest;
    EightBytes();
    ValueOfBytes(r.size, 8);
  }

  /** What was written is read back. */
  lemma ParseOfSerialize(records: seq<Record>)
    requires Writable(records)
    ensures Parse(Serialize(records)) == records
  {
    var b := Serialize(records);
    var head := MAGIC + [|records| as Byte];
    var second := if |records| == 2 then RecordBytes(records[1]) else [];
    assert b == head + RecordBytes(records[0]) + second;
    assert b[..8] == MAGIC && b[8] == |records|;
    RecordReadsBack(head, records[0], second, 0);
    if |records| == 2 {
      assert b == (head + RecordBytes(records[0])) + RecordBytes(records[1]) + [];
      RecordReadsBack(head + RecordBytes(records[0]), records[1], [], 1);
    }
  }

  lemma RecordWritesBack(b: seq<Byte>, i: nat)
    requires HEADER + (i + 1) * RECORD <= |b|
    ensures RecordAt(b, i).Valid()
    ensures RecordBytes(RecordAt(b, i)) == b[HEADER + i * RECORD..HEADER + (i + 1) * RECORD]
  {
    var at := HEADER + i * RECORD;
    PartsWriteBack(b[at..at + RECORD], b[at..at + 8], b[at + 8..at + RECORD], RecordAt(b, i));
  }

  lemma PartsWriteBack(whole: seq<Byte>, low: seq<Byte>, high: Digest, r: Record)
    requires |whole| == RECORD && |low| == 8 && low == whole[..8] && high == whole[8..]
    requires r == Record(LeValue(low), high)
    ensures r.Valid() && RecordBytes(r) == whole
  {
    BytesOfValue(low);
    EightBytes();
    assert whole == low + high;
  }

  lemma Rejoin(b: seq<Byte>)
    requires |b| == HEADER + RECORD || |b| == LIMIT
    ensures b == b[..8] + [b[8]] + b[HEADER..HEADER + RECORD] + b[HEADER + RECORD..]
  {
  }

  /** Whatever is accepted is exactly what would be written: there is one manifest per record list. */
  lemma SerializeOfParse(b: seq<Byte>)
    requires Parse(b) != []
    ensures Writable(Parse(b)) && Serialize(Parse(b)) == b
  {
    if b[8] == 2 {
      TwoWriteBack(b);
    } else {
      OneWritesBack(b);
    }
  }

  lemma OneWritesBack(b: seq<Byte>)
    requires |b| == HEADER + RECORD && b[..8] == MAGIC && b[8] == 1
    ensures Writable([RecordAt(b, 0)]) && Serialize([RecordAt(b, 0)]) == b
  {
    Rejoin(b);
    RecordWritesBack(b, 0);
    assert b[HEADER + RECORD..] == [];
  }

  lemma TwoWriteBack(b: seq<Byte>)
    requires |b| == LIMIT && b[..8] == MAGIC && b[8] == 2
    ensures Writable([RecordAt(b, 0), RecordAt(b, 1)]) && Serialize([RecordAt(b, 0), RecordAt(b, 1)]) == b
  {
    Rejoin(b);
    RecordWritesBack(b, 0);
    RecordWritesBack(b, 1);
    assert RecordBytes(RecordAt(b, 1)) == b[HEADER + RECORD..];
  }

  // ----- The layout -----

  lemma ByteOfSize(v: nat, k: nat)
    requires k < 8
    ensures LeBytes(v, 8)[k] == v / Pow256(k) % 256 && 0 < Pow256(k)
  {
    LeByteAt(v, 8, k);
    ShiftedIsQuotient(v, k);
  }

  lemma {:induction false} ShiftedIsQuotient(v: nat, k: nat)
    ensures 0 < Pow256(k) && Shifted(v, k) == v / Pow256(k)
    decreases k
  {
    if k > 0 {
      ShiftedIsQuotient(v / 256, k - 1);
      DivideAgain(v, Pow256(k - 1));
    }
  }

  lemma DivideAgain(v: nat, p: nat)
    requires 0 < p
    ensures v / 256 / p == v / (256 * p)
  {
    var h := v / 256;
    var q := h / p;
    assert h == q * p + h % p && v == 256 * h + v % 256;
    var r := 256 * (h % p) + v % 256;
    Distribute(q, p);
    assert v == q * (256 * p) + r;
    A.QuotientOf(q, r, 256 * p);
  }

  lemma Headed(records: seq<Record>, b: seq<Byte>, k: nat)
    requires 1 <= |records| <= 2 && b == Serialize(records) && k < 8
    ensures b[k] == MAGIC[k] && b[8] == |records|
  {
    var second := if |records| == 2 then RecordBytes(records[1]) else [];
    Pieces(b, MAGIC, |records| as Byte, RecordBytes(records[0]), second);
  }

  /** Byte k of a size, lowest first. */
  function SizeByte(size: nat, k: nat): nat {
    ShiftedIsQuotient(size, k);
    size / Pow256(k) % 256
  }

  /** A record in a manifest: its little-endian size, then its digest. */
  ghost predicate RecordLies(b: seq<Byte>, at: nat, r: Record) {
    && at + RECORD <= |b| && b[at + 8..at + RECORD] == r.digest
    && forall k :: 0 <= k < 8 ==> b[at + k] == SizeByte(r.size, k)
  }

  lemma LiesThere(b: seq<Byte>, at: nat, r: Record)
    requires at + RECORD <= |b| && b[at..at + RECORD] == RecordBytes(r)
    ensures RecordLies(b, at, r)
  {
    RecordParts(b, at, r);
    forall k | 0 <= k < 8
      ensures b[at + k] == SizeByte(r.size, k)
    {
      ByteOfSize(r.size, k);
    }
  }

  lemma FirstLies(records: seq<Record>, b: seq<Byte>)
    requires 1 <= |records| <= 2 && b == Serialize(records)
    ensures RecordLies(b, HEADER, records[0])
  {
    var second := if |records| == 2 then RecordBytes(records[1]) else [];
    Pieces(b, MAGIC, |records| as Byte, RecordBytes(records[0]), second);
    LiesThere(b, HEADER, records[0]);
  }

  lemma SecondLies(records: seq<Record>, b: seq<Byte>)
    requires |records| == 2 && b == Serialize(records)
    ensures RecordLies(b, HEADER + RECORD, records[1])
  {
    Pieces(b, MAGIC, 2, RecordBytes(records[0]), RecordBytes(records[1]));
    LiesThere(b, HEADER + RECORD, records[1]);
  }

  lemma MagicText(k: nat)
    requires k < 8
    ensures MAGIC[k] == "EMUCSH01"[k] as int
  {
  }

  /** The manifest byte for byte: the magic text, the count, and one or two records. */
  lemma ManifestLayout(records: seq<Record>, b: seq<Byte>, k: nat)
    requires 1 <= |records| <= 2 && b == Serialize(records) && k < 8
    ensures |b| == HEADER + |records| * RECORD && b[k] == "EMUCSH01"[k] as int && b[8] == |records|
    ensures RecordLies(b, HEADER, records[0])
    ensures |records| == 2 ==> RecordLies(b, HEADER + RECORD, records[1])
  {
    Headed(records, b, k);
    MagicText(k);
    FirstLies(records, b);
    if |records| == 2 {
      SecondLies(records, b);
    }
  }

  lemma Pieces(b: seq<Byte>, magic: seq<Byte>, count: Byte, first: seq<Byte>, second: seq<Byte>)
    requires |magic| == 8 && |first| == RECORD && b == magic + [count] + first + second
    ensures (forall k :: 0 <= k < 8 ==> b[k] == magic[k]) && b[8] == count
    ensures b[HEADER..HEADER + RECORD] == first && b[HEADER + RECORD..HEADER + RECORD + |second|] == second
  {
    var head := magic + [count];
    Middle(head, first, second);
    Middle(head + first, second, []);
    assert (head + first) + second + [] == b;
  }

  lemma Middle(before: seq<Byte>, part: seq<Byte>, after: seq<Byte>)
    ensures (before + part + after)[|before|..|before| + |part|] == part
  {
  }

  lemma RecordParts(b: seq<Byte>, at: nat, r: Record)
    requires at + RECORD <= |b| && b[at..at + RECORD] == RecordBytes(r)
    ensures forall k :: 0 <= k < 8 ==> b[at + k] == LeBytes(r.size, 8)[k]
    ensures b[at + 8..at + RECORD] == r.digest
  {
    var bytes := b[at..at + RECORD];
    assert bytes[..8] == LeBytes(r.size, 8) && bytes[8..] == r.digest;
    assert b[at + 8..at + RECORD] == bytes[8..];
    assert forall k :: 0 <= k < 8 ==> b[at + k] == bytes[k] == bytes[..8][k];
  }

  // ----- The loops of the source -----

  /** v >> (k * 8) */
  function Shifted(v: nat, k: nat): nat
    decreases k
  {
    if k == 0 then v else Shifted(v / 256, k - 1)
  }

  lemma {:induction false} LeByteAt(v: nat, n: nat, k: nat)
    requires k < n
    ensures LeBytes(v, n)[k] == Shifted(v, k) % 256
    decreases n
  {
    if k > 0 {
      LeByteAt(v / 256, n - 1, k - 1);
    }
  }

  /** The lowest n bytes of v into the buffer, lowest first. */
  method WriteNumber(bytes: array<Byte>, at: nat, v: nat, n: nat)
    requires at + n <= bytes.Length
    modifies bytes
    ensures Holds(bytes[..], at, LeBytes(v, n))
    ensures forall i :: 0 <= i < bytes.Length && !(at <= i < at + n) ==> bytes[i] == old(bytes[i])
  {
    for k := 0 to n
      invariant forall i :: 0 <= i < k ==> bytes[at + i] == LeBytes(v, n)[i]
      invariant forall i :: 0 <= i < bytes.Length && !(at <= i < at + n) ==> bytes[i] == old(bytes[i])
    {
      LeByteAt(v, n, k);
      bytes[at + k] := Shifted(v, k) % 256;
    }
  }

  /** memcpy into the buffer. */
  method CopyInto(bytes: array<Byte>, at: nat, part: seq<Byte>)
    requires at + |part| <= bytes.Length
    modifies bytes
    ensures Holds(bytes[..], at, part)
    ensures forall i :: 0 <= i < bytes.Length && !(at <= i < at + |part|) ==> bytes[i] == old(bytes[i])
  {
    for k := 0 to |part|
      invariant forall i :: 0 <= i < k ==> bytes[at + i] == part[i]
      invariant forall i :: 0 <= i < bytes.Length && !(at <= i < at + |part|) ==> bytes[i] == old(bytes[i])
    {
      bytes[at + k] := part[k];
    }
  }

  lemma HeldTogether(b: seq<Byte>, at: nat, low: seq<Byte>, high: seq<Byte>)
    requires Holds(b, at, low) && Holds(b, at + |low|, high)
    ensures Holds(b, at, low + high)
  {
    var both := low + high;
    forall i | 0 <= i < |both|
      ensures b[at + i] == both[i]
    {
      if i >= |low| {
        assert b[at + |low| + (i - |low|)] == high[i - |low|];
      }
    }
  }

  /** One record into the buffer: eight size bytes, lowest first, then the digest. */
  method WriteRecord(bytes: array<Byte>, at: nat, r: Record)
    requires at + RECORD <= bytes.Length
    modifies bytes
    ensures Holds(bytes[..], at, RecordBytes(r))
    ensures forall i :: 0 <= i < bytes.Length && !(at <= i < at + RECORD) ==> bytes[i] == old(bytes[i])
  {
    ghost var low := LeBytes(r.size, 8);
    WriteNumber(bytes, at, r.size, 8);
    ghost var before := bytes[..];
    CopyInto(bytes, at + 8, r.digest);
    forall i | 0 <= i < 8
      ensures bytes[at + i] == low[i]
    {
      assert before[at + i] == low[i];
    }
    HeldTogether(bytes[..], at, low, r.digest);
  }

  /** The buffer write_integrity hands to the file; nothing for a list it refuses. */
  method Write(records: seq<Record>) returns (ok: bool, out: seq<Byte>)
    ensures ok <==> 1 <= |records| <= 2
    ensures ok ==> out == Serialize(records)
  {
    if |records| == 0 || |records| > 2 {
      return false, [];
    }
    var bytes := new Byte[LIMIT](_ => 0);
    for i := 0 to 8
      invariant forall j :: 0 <= j < i ==> bytes[j] == MAGIC[j]
    {
      bytes[i] := MAGIC[i];
    }
    bytes[8] := |records|;
    WriteRecord(bytes, HEADER, records[0]);
    if |records| == 2 {
      WriteRecord(bytes, HEADER + RECORD, records[1]);
    }
    ok, out := true, bytes[..HEADER + |records| * RECORD];
    Assembled(bytes[..], records);
  }

  ghost predicate Holds(b: seq<Byte>, at: nat, part: seq<Byte>) {
    at + |part| <= |b| && forall i :: 0 <= i < |part| ==> b[at + i] == part[i]
  }

  lemma HeldSlice(b: seq<Byte>, at: nat, part: seq<Byte>)
    requires Holds(b, at, part)
    ensures b[at..at + |part|] == part
  {
  }

  /** The pieces of the buffer, in order. */
  lemma Glue(b: seq<Byte>, magic: seq<Byte>, count: Byte, first: seq<Byte>, second: seq<Byte>)
    requires |magic| == 8 && |first| == RECORD && HEADER + RECORD + |second| <= |b|
    requires Holds(b, 0, magic) && b[8] == count && Holds(b, HEADER, first) && Holds(b, HEADER + RECORD, second)
    ensures b[..HEADER + RECORD + |second|] == magic + [count] + first + second
  {
    HeldSlice(b, 0, magic);
    HeldSlice(b, HEADER, first);
    HeldSlice(b, HEADER + RECORD, second);
    var n := HEADER + RECORD + |second|;
    assert b[..n] == b[0..8] + [b[8]] + b[HEADER..HEADER + RECORD] + b[HEADER + RECORD..n];
  }

  lemma Assembled(b: seq<Byte>, records: seq<Record>)
    requires |b| == LIMIT && 1 <= |records| <= 2 && Holds(b, 0, MAGIC) && b[8] == |records|
    requires Holds(b, HEADER, RecordBytes(records[0]))
    requires |records| == 2 ==> Holds(b, HEADER + RECORD, RecordBytes(records[1]))
    ensures b[..HEADER + |records| * RECORD] == Serialize(records)
  {
    Glue(b, MAGIC, |records|, RecordBytes(records[0]), if |records| == 2 then RecordBytes(records[1]) else []);
  }

  lemma {:induction false} OneMoreByte(low: seq<Byte>, x: Byte)
    ensures LeValue(low + [x]) == LeValue(low) + x * Pow256(|low|)
  {
    var all := low + [x];
    if low == [] {
      assert all[1..] == [];
    } else {
      assert all[1..] == low[1..] + [x];
      OneMoreByte(low[1..], x);
      Distribute(x, Pow256(|low| - 1));
    }
  }

  lemma Distribute(x: nat, p: nat)
    ensures 256 * (x * p) == x * (256 * p)
  {
  }

  /** The size field, byte by byte: each byte lands on bits no earlier byte used. */
  method ReadSize(b: seq<Byte>, at: nat) returns (size: nat)
    requires at + 8 <= |b|
    ensures size == LeValue(b[at..at + 8])
  {
    size := 0;
    var weight: nat := 1;
    for k := 0 to 8
      invariant weight == Pow256(k) && size == LeValue(b[at..at + k])
    {
      assert b[at..at + k + 1] == b[at..at + k] + [b[at + k]];
      OneMoreByte(b[at..at + k], b[at + k]);
      size := size + b[at + k] * weight;
      weight := weight * 256;
    }
  }

  /** read_integrity on the bytes of the file. */
  method Read(b: seq<Byte>) returns (records: seq<Record>)
    ensures records == Parse(b)
  {
    records := [];
    if |b| != HEADER + RECORD && |b| != LIMIT {
      return;
    }
    if b[..8] != MAGIC {
      return;
    }
    var count := b[8];
    if count < 1 || count > 2 || |b| != HEADER + count * RECORD {
      return;
    }
    for i := 0 to count
      invariant |records| == i && forall j :: 0 <= j < i ==> records[j] == RecordAt(b, j)
    {
      var at := HEADER + i * RECORD;
      var size := ReadSize(b, at);
      records := records + [Record(size, b[at + 8..at + RECORD])];
    }
  }
}
