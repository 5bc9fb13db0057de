/** The bytes of the log format, read off directly (internal/storage/wal/record.go), and what damage to them does. */
module WalBytes {
  import opened Common
  import opened WalCodec
  import opened WalReader

  /** The 32-bit integer at an offset, least significant byte first. */
  function U32(b: seq<Byte>, at: nat): int
    requires at + 4 <= |b|
  {
    var b0: int, b1: int, b2: int, b3: int := b[at], b[at + 1], b[at + 2], b[at + 3];
    b0 + 0x100 * b1 + 0x1_0000 * b2 + 0x100_0000 * b3
  }

  function U64(b: seq<Byte>, at: nat): int
    requires at + 8 <= |b|
  {
    U32(b, at) + 0x1_0000_0000 * U32(b, at + 4)
  }

  lemma SliceCons(b: seq<Byte>, i: nat, j: nat)
    requires i < j <= |b|
    ensures FromLittleEndian(b[i..j]) == b[i] + 0x100 * FromLittleEndian(b[i + 1..j])
  {
    assert b[i..j][1..] == b[i + 1..j];
  }

  lemma FourBytes(b: seq<Byte>, at: nat)
    requires at + 4 <= |b|
    ensures FromLittleEndian(b[at..at + 4]) == U32(b, at)
  {
    SliceCons(b, at, at + 4);
    SliceCons(b, at + 1, at + 4);
    SliceCons(b, at + 2, at + 4);
    SliceCons(b, at + 3, at + 4);
    assert b[at + 4..at + 4] == [];
  }

  lemma EightBytes(b: seq<Byte>, at: nat)
    requires at + 8 <= |b|
    ensures FromLittleEndian(b[at..at + 8]) == U64(b, at)
  {
    SliceCons(b, at, at + 8);
    SliceCons(b, at + 1, at + 8);
    SliceCons(b, at + 2, at + 8);
    SliceCons(b, at + 3, at + 8);
    FourBytes(b, at + 4);
  }

  lemma MagicBytes()
    ensures LittleEndian(MAGIC, 4) == [0x4c, 0x57, 0x44, 0x43]
  {
    assert LittleEndian(0x4344, 2) == [0x44, 0x43];
  }

  lemma HeaderBytes(r: WalRecord)
    requires Encodable(r)
    ensures var h := Header(r);
            && h[..6] == [0x4c, 0x57, 0x44, 0x43, 1, r.op]
            && U64(h, 6) == r.timestamp % 0x1_0000_0000_0000_0000
            && U32(h, 14) == |r.key| && U32(h, 18) == |r.value|
  {
    var h := Header(r);
    Pow256Values();
    IntegerRoundTrip(ToUint64(r.timestamp), 8);
    IntegerRoundTrip(|r.key|, 4);
    IntegerRoundTrip(|r.value|, 4);
    HeaderLayout(LittleEndian(MAGIC, 4), [VERSION, r.op], LittleEndian(ToUint64(r.timestamp), 8),
                 LittleEndian(|r.key|, 4), LittleEndian(|r.value|, 4), h);
    MagicBytes();
    FourBytes(h, 14);
    FourBytes(h, 18);
    EightBytes(h, 6);
    assert h[..6] == h[0..4] + h[4..6];
  }

  /** A frame is its first 22 bytes, the key, the value and four bytes of checksum. */
  lemma FrameParts(c: Codec, r: WalRecord)
    requires Encodable(r)
    ensures var f := c.Frame(r);
            var n := 22 + |r.key| + |r.value|;
            && |f| == n + 4 && f[..22] == Header(r)
            && f[22..22 + |r.key|] == r.key && f[22 + |r.key|..n] == r.value
            && f[..n] == c.Body(r) && f[n..] == LittleEndian(c.crc(c.Body(r)) % 0x1_0000_0000, 4)
  {
  }

  /** Every byte of a frame: the magic number, version 1, the operation, the timestamp, the two lengths, key, value, and
      the checksum of everything before it. */
  lemma FrameLayout(c: Codec, r: WalRecord)
    requires Encodable(r)
    ensures var f := c.Frame(r);
            var n := 22 + |r.key| + |r.value|;
            && |f| == n + 4
            && f[..6] == [0x4c, 0x57, 0x44, 0x43, 1, r.op]
            && U64(f, 6) == r.timestamp % 0x1_0000_0000_0000_0000
            && U32(f, 14) == |r.key| && U32(f, 18) == |r.value|
            && f[22..22 + |r.key|] == r.key && f[22 + |r.key|..n] == r.value
            && U32(f, n) == c.crc(f[..n]) % 0x1_0000_0000
  {
    hide Header;
    var f := c.Frame(r);
    var n := 22 + |r.key| + |r.value|;
    FrameParts(c, r);
    HeaderBytes(r);
    SameHeader(f, Header(r));
    ChecksumBytes(f, n, c.crc(f[..n]) % 0x1_0000_0000);
    hide LittleEndian;
    hide U32;
    hide U64;
  }

  lemma SameHeader(f: seq<Byte>, h: seq<Byte>)
    requires |h| == 22 <= |f| && f[..22] == h
    ensures f[..6] == h[..6] && U64(f, 6) == U64(h, 6) && U32(f, 14) == U32(h, 14) && U32(f, 18) == U32(h, 18)
  {
    assert forall i :: 0 <= i < 22 ==> f[i] == f[..22][i];
    assert f[..6] == f[..22][..6];
  }

  lemma ChecksumBytes(f: seq<Byte>, n: nat, sum: nat)
    requires |f| == n + 4 && sum < 0x1_0000_0000 && f[n..] == LittleEndian(sum, 4)
    ensures U32(f, n) == sum
  {
    Pow256Values();
    IntegerRoundTrip(sum, 4);
    FourBytes(f, n);
    assert f[n..n + 4] == f[n..];
  }

  /** Accepted bytes carry the checksum of all bytes before it. */
  lemma AcceptedChecksum(c: Codec, data: seq<Byte>)
    requires c.Decode(data).Ok?
    ensures |data| >= 26 && U32(data, |data| - 4) == c.crc(data[..|data| - 4]) % 0x1_0000_0000
  {
    c.EncodeInvertsDecode(data);
    FrameLayout(c, c.Decode(data).value);
  }

  /** Damage to the key and value bytes of a record is reported exactly when it changes the checksum; what passes
      unnoticed is read as it stands. */
  lemma DamageIsDetectedIff(c: Codec, r: WalRecord, data: seq<Byte>)
    requires Encodable(r) && |data| == |c.Frame(r)|
    requires data[..22] == c.Frame(r)[..22] && data[|data| - 4..] == c.Frame(r)[|data| - 4..]
    ensures c.Decode(data) == Err(ChecksumMismatch) <==>
            c.crc(data[..|data| - 4]) % 0x1_0000_0000 != c.crc(c.Frame(r)[..|data| - 4]) % 0x1_0000_0000
    ensures c.Decode(data) == Err(ChecksumMismatch) || c.Decode(data).Ok?
    ensures c.Decode(data).Ok? ==>
              c.Decode(data).value == Stored(r).(key := data[22..22 + |r.key|], value := data[22 + |r.key|..|data| - 4])
  {
    hide LittleEndian;
    var f, n := c.Frame(r), |data| - 4;
    FrameParts(c, r);
    assert Header(r) <= data;
    c.HeaderFields(r, data);
    SameChecksum(c.crc(data[..n]) % 0x1_0000_0000, c.crc(f[..n]) % 0x1_0000_0000);
    hide Header;
  }

  lemma SameChecksum(a: nat, b: nat)
    requires a < 0x1_0000_0000 && b < 0x1_0000_0000
    ensures LittleEndian(a, 4) == LittleEndian(b, 4) <==> a == b
  {
    Pow256Values();
    IntegerRoundTrip(a, 4);
    IntegerRoundTrip(b, 4);
  }

  /** Reading stops at the first damaged record: exactly the records before it are returned, and the damage is the
      reason, whatever follows. */
  lemma ReadingStopsAtDamage(c: Codec, log: seq<WalRecord>, r: WalRecord, data: seq<Byte>, rest: seq<Byte>)
    requires AllEncodable(log) && Encodable(r) && |data| == |c.Frame(r)|
    requires data[..22] == c.Frame(r)[..22] && data[|data| - 4..] == c.Frame(r)[|data| - 4..]
    requires c.crc(data[..|data| - 4]) % 0x1_0000_0000 != c.crc(c.Frame(r)[..|data| - 4]) % 0x1_0000_0000
    ensures ReadAll(c, EncodeAll(c, log) + (data + rest)) == Reading(StoredAll(log), Some(ChecksumMismatch))
  {
    DamageIsDetectedIff(c, r, data);
    ParseDamaged(c, r, data, rest);
    assert ReadAll(c, data + rest) == Reading([], Some(ChecksumMismatch));
    ReadConcat(c, log, data + rest);
    assert StoredAll(log) + [] == StoredAll(log);
  }

  lemma ParseDamaged(c: Codec, r: WalRecord, data: seq<Byte>, rest: seq<Byte>)
    requires Encodable(r) && |data| == |c.Frame(r)| && data[..22] == c.Frame(r)[..22]
    requires c.Decode(data) == Err(ChecksumMismatch)
    ensures Parse(c, data + rest) == Bad(ChecksumMismatch)
  {
    hide LittleEndian;
    var bytes := data + rest;
    FrameParts(c, r);
    assert Header(r) <= bytes;
    c.HeaderFields(r, bytes);
    assert bytes[..|data|] == data;
    hide Header;
  }

  /** Which error a short, foreign or implausible header gets: the checks in their order. */
  lemma HeaderErrors(c: Codec, data: seq<Byte>)
    ensures |data| < 22 ==> c.Decode(data) == Err(UnexpectedEOF)
    ensures |data| >= 22 && data[..4] != [0x4c, 0x57, 0x44, 0x43] ==> c.Decode(data) == Err(InvalidMagic)
    ensures |data| >= 22 && data[..4] == [0x4c, 0x57, 0x44, 0x43] && data[4] != 1 ==>
              c.Decode(data) == Err(InvalidVersion)
    ensures |data| >= 22 && data[..5] == [0x4c, 0x57, 0x44, 0x43, 1] && data[5] != 1 && data[5] != 2 ==>
              c.Decode(data) == Err(CorruptedRecord)
    ensures |data| >= 22 && (data[..6] == [0x4c, 0x57, 0x44, 0x43, 1, 1] ||
              data[..6] == [0x4c, 0x57, 0x44, 0x43, 1, 2]) ==>
              var payload := U32(data, 14) + U32(data, 18);
              && (payload > 67108864 ==> c.Decode(data) == Err(CorruptedRecord))
              && (payload <= 67108864 && |data| < payload + 26 ==> c.Decode(data) == Err(UnexpectedEOF))
              && (payload <= 67108864 && |data| > payload + 26 ==> c.Decode(data) == Err(CorruptedRecord))
  {
    if |data| >= 22 {
      MagicBytes();
      Pow256Values();
      IntegerRoundTrip(MAGIC, 4);
      BytesRoundTrip(data[0..4]);
      assert data[0..4] == data[..4];
      if data[..4] == [0x4c, 0x57, 0x44, 0x43] {
        assert FromLittleEndian(data[0..4]) == MAGIC;
      }
      hide LittleEndian;
      FourBytes(data, 14);
      FourBytes(data, 18);
      hide FromLittleEndian;
      HeaderPrefix(data);
    }
  }

  lemma HeaderPrefix(data: seq<Byte>)
    requires |data| >= 22
    ensures forall a: Byte :: data[..5] == [0x4c, 0x57, 0x44, 0x43, a] ==>
              data[..4] == [0x4c, 0x57, 0x44, 0x43] && data[4] == a
    ensures forall a: Byte, b: Byte :: data[..6] == [0x4c, 0x57, 0x44, 0x43, a, b] ==>
              data[..5] == [0x4c, 0x57, 0x44, 0x43, a] && data[5] == b
  {
    assert data[..4] == data[..5][..4] && data[..5] == data[..6][..5];
    assert data[4] == data[..5][4] && data[5] == data[..6][5];
  }

  /** The instant that survives is the one that a signed 64-bit count of nanoseconds wraps to. */
  lemma TimestampsWrap(t: int)
    ensures -0x8000_0000_0000_0000 <= StoredTime(t) < 0x8000_0000_0000_0000
    ensures (StoredTime(t) - t) % 0x1_0000_0000_0000_0000 == 0
  {
    var u := t % 0x1_0000_0000_0000_0000;
    var q := t / 0x1_0000_0000_0000_0000;
    assert t == q * 0x1_0000_0000_0000_0000 + u;
  }
}
