/** The write-ahead log's binary record format (internal/storage/wal/record.go). */
module WalCodec {
  import opened Common

  type Byte = b: int | 0 <= b < 256

  const MAGIC := 0x4344574c
  const VERSION: Byte := 1
  const FIXED_HEADER_SIZE := 22
  const CHECKSUM_SIZE := 4
  const MAX_RECORD_SIZE := 64 * 1024 * 1024
  const OPERATION_PUT: Byte := 1
  const OPERATION_DELETE: Byte := 2

  /** One durable mutation. The timestamp is in Unix nanoseconds. */
  datatype WalRecord = WalRecord(op: Byte, timestamp: int, key: seq<Byte>, value: seq<Byte>)

  datatype WalError =
    | UnexpectedEOF | InvalidMagic | InvalidVersion | CorruptedRecord | ChecksumMismatch
    | Closed | ShortWrite | WriteFailed

  // ---- little-endian integers --------------------------------------------

  function Pow256(width: nat): (p: nat)
    ensures p > 0
  {
    if width == 0 then 1 else 256 * Pow256(width - 1)
  }

  function LittleEndian(n: nat, width: nat): (bytes: seq<Byte>)
    ensures |bytes| == width
  {
    if width == 0 then [] else [n % 256] + LittleEndian(n / 256, width - 1)
  }

  function FromLittleEndian(bytes: seq<Byte>): (n: nat)
    ensures n < Pow256(|bytes|)
  {
    if bytes == [] then 0 else bytes[0] + 256 * FromLittleEndian(bytes[1..])
  }

  lemma {:induction false} IntegerRoundTrip(n: nat, width: nat)
    requires n < Pow256(width)
    ensures FromLittleEndian(LittleEndian(n, width)) == n
  {
    if width > 0 {
      IntegerRoundTrip(n / 256, width - 1);
      assert LittleEndian(n, width)[1..] == LittleEndian(n / 256, width - 1);
    }
  }

  lemma {:induction false} BytesRoundTrip(bytes: seq<Byte>)
    ensures LittleEndian(FromLittleEndian(bytes), |bytes|) == bytes
  {
    if bytes != [] {
      BytesRoundTrip(bytes[1..]);
      assert FromLittleEndian(bytes) / 256 == FromLittleEndian(bytes[1..]);
      assert bytes == [bytes[0]] + bytes[1..];
    }
  }

  lemma Pow256Values()
    ensures Pow256(4) == 0x1_0000_0000
    ensures Pow256(8) == 0x1_0000_0000_0000_0000
  {
    assert Pow256(2) == 0x1_0000;
    assert Pow256(6) == 0x1_0000 * Pow256(4);
  }

  // ---- timestamps: int64 nanoseconds stored as uint64 ----------------------

  const TWO_63 := 0x8000_0000_0000_0000
  const TWO_64 := 0x1_0000_0000_0000_0000

  predicate InInt64(t: int) {
    -TWO_63 <= t < TWO_63
  }

  function ToUint64(t: int): (u: nat)
    ensures u < TWO_64
  {
    t % TWO_64
  }

  function ToInt64(u: nat): (t: int)
    requires u < TWO_64
    ensures InInt64(t)
  {
    if u < TWO_63 then u else u - TWO_64
  }

  /** The instant that survives storage: the wrap-around of a 64-bit nanosecond count. */
  function StoredTime(t: int): (s: int)
    ensures InInt64(s)
    ensures s == t <==> InInt64(t)
  {
    ToInt64(ToUint64(t))
  }

  // ---- records -------------------------------------------------------------

  predicate ValidOperation(op: Byte) {
    op == OPERATION_PUT || op == OPERATION_DELETE
  }

  predicate Encodable(r: WalRecord) {
    ValidOperation(r.op) && |r.key| + |r.value| <= MAX_RECORD_SIZE
  }

  /** What a reader of the log sees of a record. */
  function Stored(r: WalRecord): WalRecord {
    r.(timestamp := StoredTime(r.timestamp))
  }

  function Header(r: WalRecord): (h: seq<Byte>)
    requires Encodable(r)
    ensures |h| == FIXED_HEADER_SIZE
  {
    LittleEndian(MAGIC, 4) + [VERSION, r.op] + LittleEndian(ToUint64(r.timestamp), 8)
    + LittleEndian(|r.key|, 4) + LittleEndian(|r.value|, 4)
  }

  /** Where the five parts of a header lie. */
  lemma HeaderLayout(a: seq<Byte>, b: seq<Byte>, c: seq<Byte>, d: seq<Byte>, e: seq<Byte>, data: seq<Byte>)
    requires |a| == 4 && |b| == 2 && |c| == 8 && |d| == 4 && |e| == 4
    requires |data| >= FIXED_HEADER_SIZE
    ensures a + b + c + d + e <= data <==>
            data[0..4] == a && data[4..6] == b && data[6..14] == c && data[14..18] == d && data[18..22] == e
  {
    assert data[..22] == data[0..4] + data[4..6] + data[6..14] + data[14..18] + data[18..22];
    if a + b + c + d + e <= data {
      assert data[..22] == a + b + c + d + e;
    }
  }

  lemma Partition(data: seq<Byte>, i: nat, j: nat, k: nat)
    requires i <= j <= k <= |data|
    ensures data[..i] + data[i..j] + data[j..k] == data[..k]
    ensures data[..k] + data[k..] == data
  {
  }

  lemma Assemble(data: seq<Byte>)
    requires |data| >= FIXED_HEADER_SIZE
    ensures data[0..4] + data[4..6] + data[6..14] + data[14..18] + data[18..22] == data[..22]
  {
  }

  /** The format is parameterised by its checksum, which is never inverted or inspected. */
  datatype Codec = Codec(crc: seq<Byte> -> nat) {

    function Checksum(body: seq<Byte>): seq<Byte> {
      LittleEndian(crc(body) % 0x1_0000_0000, CHECKSUM_SIZE)
    }

    function Body(r: WalRecord): seq<Byte>
      requires Encodable(r)
    {
      Header(r) + r.key + r.value
    }

    /** The bytes of one record: header, key, value, then the checksum of all of them. */
    function Frame(r: WalRecord): (b: seq<Byte>)
      requires Encodable(r)
      ensures |b| == FIXED_HEADER_SIZE + |r.key| + |r.value| + CHECKSUM_SIZE
    {
      Body(r) + Checksum(Body(r))
    }

    function PayloadLength(header: seq<Byte>): nat
      requires |header| >= FIXED_HEADER_SIZE
    {
      FromLittleEndian(header[14..18]) + FromLittleEndian(header[18..22])
    }

    function Decode(data: seq<Byte>): Result<WalRecord, WalError> {
      if |data| < FIXED_HEADER_SIZE then Err(UnexpectedEOF)
      else if FromLittleEndian(data[0..4]) != MAGIC then Err(InvalidMagic)
      else if data[4] != VERSION then Err(InvalidVersion)
      else if !ValidOperation(data[5]) then Err(CorruptedRecord)
      else if PayloadLength(data) > MAX_RECORD_SIZE then Err(CorruptedRecord)
      else
        var expected := FIXED_HEADER_SIZE + CHECKSUM_SIZE + PayloadLength(data);
        if |data| < expected then Err(UnexpectedEOF)
        else if |data| != expected then Err(CorruptedRecord)
        else if Checksum(data[..expected - CHECKSUM_SIZE]) != data[expected - CHECKSUM_SIZE..]
            then Err(ChecksumMismatch)
        else
          var keyEnd := FIXED_HEADER_SIZE + FromLittleEndian(data[14..18]);
          Ok(WalRecord(data[5], Timestamp(data), data[FIXED_HEADER_SIZE..keyEnd],
              data[keyEnd..expected - CHECKSUM_SIZE]))
    }

    function Timestamp(data: seq<Byte>): int
      requires |data| >= FIXED_HEADER_SIZE
    {
      Pow256Values();
      ToInt64(FromLittleEndian(data[6..14]))
    }

    lemma HeaderFields(r: WalRecord, data: seq<Byte>)
      requires Encodable(r)
      requires Header(r) <= data
      ensures FromLittleEndian(data[0..4]) == MAGIC && data[4] == VERSION && data[5] == r.op
      ensures Timestamp(data) == StoredTime(r.timestamp)
      ensures FromLittleEndian(data[14..18]) == |r.key|
      ensures FromLittleEndian(data[18..22]) == |r.value|
    {
      Pow256Values();
      IntegerRoundTrip(MAGIC, 4);
      IntegerRoundTrip(ToUint64(r.timestamp), 8);
      IntegerRoundTrip(|r.key|, 4);
      IntegerRoundTrip(|r.value|, 4);
      HeaderLayout(LittleEndian(MAGIC, 4), [VERSION, r.op], LittleEndian(ToUint64(r.timestamp), 8),
                   LittleEndian(|r.key|, 4), LittleEndian(|r.value|, 4), data);
      assert data[4..6][0] == VERSION && data[4..6][1] == r.op;
    }

    /** Decoding an encoded record gives it back, with the timestamp a 64-bit count can hold. */
    lemma DecodeInvertsEncode(r: WalRecord)
      requires Encodable(r)
      ensures Decode(Frame(r)) == Ok(Stored(r))
      ensures Decode(Frame(r)) == Ok(r) <==> InInt64(r.timestamp)
    {
      var data := Frame(r);
      var n := |data| - CHECKSUM_SIZE;
      var keyEnd := FIXED_HEADER_SIZE + |r.key|;
      HeaderFields(r, data);
      assert data[..n] == Body(r);
      assert data[n..] == Checksum(Body(r));
      assert data[FIXED_HEADER_SIZE..keyEnd] == r.key;
      assert data[keyEnd..n] == r.value;
    }

    lemma HeaderFromBytes(r: WalRecord, data: seq<Byte>)
      requires |data| >= FIXED_HEADER_SIZE && Encodable(r)
      requires FromLittleEndian(data[0..4]) == MAGIC && data[4] == VERSION && data[5] == r.op
      requires r.timestamp == Timestamp(data)
      requires |r.key| == FromLittleEndian(data[14..18]) && |r.value| == FromLittleEndian(data[18..22])
      ensures Header(r) == data[..FIXED_HEADER_SIZE]
    {
      Pow256Values();
      BytesRoundTrip(data[0..4]);
      BytesRoundTrip(data[6..14]);
      BytesRoundTrip(data[14..18]);
      BytesRoundTrip(data[18..22]);
      assert ToUint64(r.timestamp) == FromLittleEndian(data[6..14]);
      assert data[4..6] == [VERSION, r.op];
      Assemble(data);
    }

    /** Accepted bytes are exactly the encoding of the record they decode to. */
    lemma EncodeInvertsDecode(data: seq<Byte>)
      requires Decode(data).Ok?
      ensures Encodable(Decode(data).value)
      ensures Frame(Decode(data).value) == data
    {
      var r := Decode(data).value;
      var n := |data| - CHECKSUM_SIZE;
      HeaderFromBytes(r, data);
      Partition(data, FIXED_HEADER_SIZE, FIXED_HEADER_SIZE + |r.key|, n);
    }

    /** Encode: fills a buffer of the exact size field by field, and rejects what the format cannot hold. */
    method Encode(r: WalRecord) returns (result: Result<seq<Byte>, WalError>)
      ensures result == if Encodable(r) then Ok(Frame(r)) else Err(CorruptedRecord)
      ensures result.Ok? <==> (r.op == 1 || r.op == 2) && |r.key| + |r.value| <= 67108864
    {
      hide LittleEndian;
      hide Header;
      if !ValidOperation(r.op) {
        return Err(CorruptedRecord);
      }
      if |r.key| > MAX_RECORD_SIZE || |r.value| > MAX_RECORD_SIZE || |r.key| + |r.value| > MAX_RECORD_SIZE {
        return Err(CorruptedRecord);
      }
      var size := FIXED_HEADER_SIZE + |r.key| + |r.value| + CHECKSUM_SIZE;
      var b := new Byte[size](_ => 0);
      WriteHeader(b, r);
      CopyInto(b, FIXED_HEADER_SIZE, r.key);
      CopyInto(b, FIXED_HEADER_SIZE + |r.key|, r.value);
      var sum := crc(b[..size - CHECKSUM_SIZE]) % 0x1_0000_0000;
      PutLittleEndian(b, size - CHECKSUM_SIZE, CHECKSUM_SIZE, sum);
      assert b[..] == b[..size];
      result := Ok(b[..]);
    }
  }

  /** Writes the fixed header and leaves the rest of the buffer alone. */
  method WriteHeader(b: array<Byte>, r: WalRecord)
    requires Encodable(r) && b.Length >= FIXED_HEADER_SIZE
    modifies b
    ensures b[..FIXED_HEADER_SIZE] == Header(r)
    ensures b[FIXED_HEADER_SIZE..] == old(b[FIXED_HEADER_SIZE..])
  {
    hide LittleEndian;
    ghost var rest := b[FIXED_HEADER_SIZE..];
    PutLittleEndian(b, 0, 4, MAGIC);
    assert b[FIXED_HEADER_SIZE..] == b[4..][18..] == rest;
    b[4] := VERSION;
    b[5] := r.op;
    assert b[..6] == LittleEndian(MAGIC, 4) + [VERSION, r.op];
    assert b[FIXED_HEADER_SIZE..] == rest;
    PutLittleEndian(b, 6, 8, ToUint64(r.timestamp));
    assert b[FIXED_HEADER_SIZE..] == b[14..][8..] == rest;
    PutLittleEndian(b, 14, 4, |r.key|);
    assert b[FIXED_HEADER_SIZE..] == b[18..][4..] == rest;
    PutLittleEndian(b, 18, 4, |r.value|);
  }

  /** Stores an integer in a buffer, least significant byte first, touching nothing else. */
  method PutLittleEndian(b: array<Byte>, at: nat, width: nat, n: nat)
    requires at + width <= b.Length
    modifies b
    ensures b[..at + width] == old(b[..at]) + LittleEndian(n, width)
    ensures b[at + width..] == old(b[at + width..])
  {
    var rest := n;
    for i := 0 to width
      invariant b[..at + i] + LittleEndian(rest, width - i) == old(b[..at]) + LittleEndian(n, width)
      invariant b[at + i..] == old(b[at + i..])
    {
      ghost var before := b[..at + i];
      b[at + i] := rest % 256;
      assert b[..at + i + 1] == before + [rest % 256];
      assert before + LittleEndian(rest, width - i) == before + [rest % 256] + LittleEndian(rest / 256, width - i - 1);
      rest := rest / 256;
      assert b[at + i + 1..] == old(b[at + i..])[1..];
    }
  }

  /** Copies bytes into a buffer at an offset, touching nothing else. */
  method CopyInto(b: array<Byte>, at: nat, s: seq<Byte>)
    requires at + |s| <= b.Length
    modifies b
    ensures b[..at + |s|] == old(b[..at]) + s
    ensures b[at + |s|..] == old(b[at + |s|..])
  {
    forall i | 0 <= i < |s| {
      b[at + i] := s[i];
    }
  }
}
