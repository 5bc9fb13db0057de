/** Reading a stream of log records (internal/storage/wal/reader.go). */
module WalReader {
  import opened Common
  import opened WalCodec

  // ---- what one call to Next makes of the unread bytes ----------------------

  datatype Step = End | Bad(error: WalError) | Got(record: WalRecord, rest: seq<Byte>)

  function Parse(c: Codec, bytes: seq<Byte>): (s: Step)
    ensures s.Got? ==> |s.rest| < |bytes|
  {
    if bytes == [] then End
    else if |bytes| < FIXED_HEADER_SIZE then Bad(UnexpectedEOF)
    else if FromLittleEndian(bytes[0..4]) != MAGIC then Bad(InvalidMagic)
    else if bytes[4] != VERSION then Bad(InvalidVersion)
    else if !ValidOperation(bytes[5]) then Bad(CorruptedRecord)
    else if c.PayloadLength(bytes) > MAX_RECORD_SIZE then Bad(CorruptedRecord)
    else
      var size := FIXED_HEADER_SIZE + c.PayloadLength(bytes) + CHECKSUM_SIZE;
      if |bytes| < size then Bad(UnexpectedEOF)
      else match c.Decode(bytes[..size])
        case Ok(r) => Got(r, bytes[size..])
        case Err(e) => Bad(e)
  }

  /** The records read before the stream ended, and the error that ended it if it did not end cleanly. */
  datatype Reading = Reading(records: seq<WalRecord>, failure: Option<WalError>)

  function ReadAll(c: Codec, bytes: seq<Byte>): Reading
    decreases |bytes|
  {
    match Parse(c, bytes)
    case End => Reading([], None)
    case Bad(e) => Reading([], Some(e))
    case Got(r, rest) =>
      var tail := ReadAll(c, rest);
      Reading([r] + tail.records, tail.failure)
  }

  // ---- the bytes of a log ----------------------------------------------------

  ghost predicate AllEncodable(log: seq<WalRecord>) {
    forall r :: r in log ==> Encodable(r)
  }

  function EncodeAll(c: Codec, log: seq<WalRecord>): seq<Byte>
    requires AllEncodable(log)
  {
    if log == [] then [] else c.Frame(log[0]) + EncodeAll(c, log[1..])
  }

  function StoredAll(log: seq<WalRecord>): (s: seq<WalRecord>)
    ensures |s| == |log|
  {
    if log == [] then [] else [Stored(log[0])] + StoredAll(log[1..])
  }

  lemma {:induction false} StoredAllConcat(a: seq<WalRecord>, b: seq<WalRecord>)
    ensures StoredAll(a + b) == StoredAll(a) + StoredAll(b)
  {
    if a == [] {
      assert a + b == b;
    } else {
      assert (a + b)[1..] == a[1..] + b;
      StoredAllConcat(a[1..], b);
    }
  }

  /** Records stamped within 64-bit nanoseconds are stored unchanged. */
  lemma {:induction false} StoredAllUnchanged(log: seq<WalRecord>)
    requires forall r :: r in log ==> InInt64(r.timestamp)
    ensures StoredAll(log) == log
  {
    if log != [] {
      StoredAllUnchanged(log[1..]);
      assert log == [log[0]] + log[1..];
    }
  }

  /** How many whole records lie within the first n bytes of a log. */
  function WholeRecords(c: Codec, log: seq<WalRecord>, n: nat): (k: nat)
    requires AllEncodable(log)
    ensures k <= |log|
  {
    if log == [] || n < |c.Frame(log[0])| then 0
    else 1 + WholeRecords(c, log[1..], n - |c.Frame(log[0])|)
  }

  lemma {:induction false} EncodeAllConcat(c: Codec, a: seq<WalRecord>, b: seq<WalRecord>)
    requires AllEncodable(a) && AllEncodable(b)
    ensures EncodeAll(c, a + b) == EncodeAll(c, a) + EncodeAll(c, b)
  {
    if a == [] {
      assert a + b == b;
    } else {
      assert (a + b)[1..] == a[1..] + b;
      EncodeAllConcat(c, a[1..], b);
    }
  }

  /** The count of whole records is right: the next record would not fit. */
  lemma {:induction false} WholeRecordsBound(c: Codec, log: seq<WalRecord>, n: nat)
    requires AllEncodable(log)
    ensures var k := WholeRecords(c, log, n);
            && |EncodeAll(c, log[..k])| <= n
            && (k < |log| ==> n < |EncodeAll(c, log[..k + 1])|)
  {
    var k := WholeRecords(c, log, n);
    if k == 0 {
      if log != [] {
        assert log[..1] == [log[0]];
        assert log[..1][1..] == [];
      }
    } else {
      WholeRecordsBound(c, log[1..], n - |c.Frame(log[0])|);
      assert log[..k][1..] == log[1..][..k - 1];
      if k < |log| {
        assert log[..k + 1][1..] == log[1..][..k];
      }
    }
  }

  lemma ParseFrame(c: Codec, r: WalRecord, rest: seq<Byte>)
    requires Encodable(r)
    ensures Parse(c, c.Frame(r) + rest) == Got(Stored(r), rest)
  {
    var bytes := c.Frame(r) + rest;
    var size := |c.Frame(r)|;
    assert Header(r) <= bytes;
    c.HeaderFields(r, bytes);
    assert bytes[..size] == c.Frame(r);
    assert bytes[size..] == rest;
    c.DecodeInvertsEncode(r);
  }

  /** A record cut anywhere but at its ends is reported as an unexpected end of file. */
  lemma ParseTornFrame(c: Codec, r: WalRecord, n: nat)
    requires Encodable(r)
    requires 0 < n < |c.Frame(r)|
    ensures Parse(c, c.Frame(r)[..n]) == Bad(UnexpectedEOF)
  {
    if n >= FIXED_HEADER_SIZE {
      assert Header(r) <= c.Frame(r)[..n];
      c.HeaderFields(r, c.Frame(r)[..n]);
    }
  }

  lemma ReadFrame(c: Codec, r: WalRecord, rest: seq<Byte>)
    requires Encodable(r)
    ensures ReadAll(c, c.Frame(r) + rest) == Reading([Stored(r)] + ReadAll(c, rest).records, ReadAll(c, rest).failure)
  {
    ParseFrame(c, r, rest);
  }

  lemma SeqAssociative<T>(a: seq<T>, b: seq<T>, c: seq<T>)
    ensures a + b + c == a + (b + c)
  {
  }

  /** Reading a log followed by anything yields the log's records first. */
  lemma {:induction false} ReadConcat(c: Codec, log: seq<WalRecord>, rest: seq<Byte>)
    requires AllEncodable(log)
    ensures ReadAll(c, EncodeAll(c, log) + rest) ==
            Reading(StoredAll(log) + ReadAll(c, rest).records, ReadAll(c, rest).failure)
  {
    if log == [] {
      assert EncodeAll(c, log) + rest == rest;
    } else {
      var tail := EncodeAll(c, log[1..]) + rest;
      assert EncodeAll(c, log) + rest == c.Frame(log[0]) + tail;
      ReadFrame(c, log[0], tail);
      ReadConcat(c, log[1..], rest);
      SeqAssociative([Stored(log[0])], StoredAll(log[1..]), ReadAll(c, rest).records);
    }
  }

  /** Reading the concatenation of appended records yields exactly those records and a clean end. */
  lemma ReadingInvertsAppending(c: Codec, log: seq<WalRecord>)
    requires AllEncodable(log)
    ensures ReadAll(c, EncodeAll(c, log)) == Reading(StoredAll(log), None)
  {
    ReadConcat(c, log, []);
    assert EncodeAll(c, log) + [] == EncodeAll(c, log);
  }

  /** Reading any prefix of a log yields exactly the whole records in it. It ends cleanly
      only when the cut is on a record boundary, and with UnexpectedEOF everywhere else. */
  lemma ReadingAPrefix(c: Codec, log: seq<WalRecord>, n: nat)
    requires AllEncodable(log)
    requires n <= |EncodeAll(c, log)|
    ensures var k := WholeRecords(c, log, n);
            ReadAll(c, EncodeAll(c, log)[..n]) ==
            Reading(StoredAll(log[..k]), if n == |EncodeAll(c, log[..k])| then None else Some(UnexpectedEOF))
  {
    var k := WholeRecords(c, log, n);
    WholeRecordsBound(c, log, n);
    var torn := SplitPrefix(c, log, k, n);
    ReadConcat(c, log[..k], torn);
    assert ReadAll(c, torn) == Reading([], if torn == [] then None else Some(UnexpectedEOF)) by {
      if torn != [] {
        EncodeOneMore(c, log, k);
        assert torn == c.Frame(log[k])[..|torn|];
        ParseTornFrame(c, log[k], |torn|);
      }
    }
    assert StoredAll(log[..k]) + [] == StoredAll(log[..k]);
  }

  lemma SplitPrefix(c: Codec, log: seq<WalRecord>, k: nat, n: nat) returns (torn: seq<Byte>)
    requires AllEncodable(log) && k <= |log|
    requires |EncodeAll(c, log[..k])| <= n <= |EncodeAll(c, log)|
    ensures EncodeAll(c, log)[..n] == EncodeAll(c, log[..k]) + torn
    ensures torn <= EncodeAll(c, log[k..])
    ensures n == |EncodeAll(c, log[..k])| + |torn|
  {
    EncodeAllConcat(c, log[..k], log[k..]);
    assert log == log[..k] + log[k..];
    torn := EncodeAll(c, log[k..])[..n - |EncodeAll(c, log[..k])|];
  }

  lemma EncodeOneMore(c: Codec, log: seq<WalRecord>, k: nat)
    requires AllEncodable(log) && k < |log|
    ensures |EncodeAll(c, log[..k + 1])| == |EncodeAll(c, log[..k])| + |c.Frame(log[k])|
    ensures c.Frame(log[k]) <= EncodeAll(c, log[k..])
  {
    EncodeAllConcat(c, log[..k], [log[k]]);
    assert log[..k + 1] == log[..k] + [log[k]];
  }

  /** Conversely, whatever a reader accepts is byte for byte the encoding of what it returned:
      nothing is skipped or repaired on the way. */
  lemma {:induction false} AcceptedBytesAreALog(c: Codec, bytes: seq<Byte>)
    ensures AllEncodable(ReadAll(c, bytes).records)
    ensures StoredAll(ReadAll(c, bytes).records) == ReadAll(c, bytes).records
    ensures EncodeAll(c, ReadAll(c, bytes).records) <= bytes
    ensures ReadAll(c, bytes).failure == None <==> EncodeAll(c, ReadAll(c, bytes).records) == bytes
    decreases |bytes|
  {
    match Parse(c, bytes)
    case End =>
    case Bad(e) =>
    case Got(r, rest) =>
      var tail := ReadAll(c, rest).records;
      AcceptedRecord(c, bytes, r, rest);
      AcceptedBytesAreALog(c, rest);
      EncodeCons(c, r, tail);
      PrefixCons(c.Frame(r), EncodeAll(c, tail), rest);
  }

  lemma AcceptedRecord(c: Codec, bytes: seq<Byte>, r: WalRecord, rest: seq<Byte>)
    requires Parse(c, bytes) == Got(r, rest)
    ensures Encodable(r) && Stored(r) == r
    ensures bytes == c.Frame(r) + rest
  {
    var size := |bytes| - |rest|;
    c.EncodeInvertsDecode(bytes[..size]);
    assert bytes == bytes[..size] + rest;
  }

  lemma EncodeCons(c: Codec, r: WalRecord, log: seq<WalRecord>)
    requires Encodable(r) && AllEncodable(log)
    ensures AllEncodable([r] + log)
    ensures EncodeAll(c, [r] + log) == c.Frame(r) + EncodeAll(c, log)
    ensures StoredAll([r] + log) == [Stored(r)] + StoredAll(log)
  {
    assert ([r] + log)[1..] == log;
  }

  lemma PrefixCons(head: seq<Byte>, a: seq<Byte>, b: seq<Byte>)
    ensures a <= b <==> head + a <= head + b
    ensures a == b <==> head + a == head + b
  {
    assert (head + a)[|head|..] == a;
    assert (head + b)[|head|..] == b;
    if head + a <= head + b {
      assert b[..|a|] == (head + b)[|head|..|head| + |a|] == (head + a)[|head|..] == a;
    }
  }

  // ---- the reader object -------------------------------------------------------

  datatype ReadStatus = Full | EOF | Partial

  /** The io.Reader a log is read from. */
  class Source {
    var unread: seq<Byte>

    constructor (bytes: seq<Byte>)
      ensures unread == bytes
    {
      unread := bytes;
    }

    /** io.ReadFull: exactly n bytes, or as many as are left and the reason. */
    method ReadFull(n: nat) returns (chunk: seq<Byte>, status: ReadStatus)
      requires n > 0
      modifies this
      ensures chunk == Take(old(unread), n) && old(unread) == chunk + unread
      ensures status == if |old(unread)| >= n then Full else if old(unread) == [] then EOF else Partial
    {
      chunk := Take(unread, n);
      status := if |unread| >= n then Full else if unread == [] then EOF else Partial;
      unread := unread[|chunk|..];
    }
  }

  class Reader {
    const codec: Codec
    const source: Source
    var record: WalRecord
    var err: Option<WalError>
    var closed: bool
    var finished: bool

    constructor (codec: Codec, source: Source)
      ensures this.codec == codec && this.source == source
      ensures err == None && !closed && !finished
    {
      this.codec := codec;
      this.source := source;
      record := WalRecord(OPERATION_PUT, 0, [], []);
      err, closed, finished := None, false, false;
    }

    /** Advances to the next record that passes every check. */
    method Next() returns (more: bool)
      modifies this, source
      ensures closed == old(closed)
      ensures old(closed) ==>
                !more && err == (if old(err).None? then Some(Closed) else old(err))
                && record == old(record) && finished == old(finished) && source.unread == old(source.unread)
      ensures !old(closed) && (old(finished) || old(err).Some?) ==>
                !more && err == old(err)
                && record == old(record) && finished == old(finished) && source.unread == old(source.unread)
      ensures !old(closed) && !old(finished) && old(err).None? ==>
                match Parse(codec, old(source.unread))
                case End => !more && err == None && finished && record == old(record) && source.unread == []
                case Bad(e) => !more && err == Some(e) && !finished && record == old(record)
                case Got(r, rest) => more && err == None && !finished && record == r && source.unread == rest
    {
      if closed {
        if err.None? {
          err := Some(Closed);
        }
        return false;
      }
      if finished || err.Some? {
        return false;
      }
      ghost var input := source.unread;
      var header, status := source.ReadFull(FIXED_HEADER_SIZE);
      if status != Full {
        if status == EOF {
          finished := true;
          return false;
        }
        err := Some(UnexpectedEOF);
        return false;
      }
      SamePrefix(codec, header, input);
      if FromLittleEndian(header[0..4]) != MAGIC {
        err := Some(InvalidMagic);
        return false;
      }
      if header[4] != VERSION {
        err := Some(InvalidVersion);
        return false;
      }
      if !ValidOperation(header[5]) {
        err := Some(CorruptedRecord);
        return false;
      }
      var length := codec.PayloadLength(header);
      if length > MAX_RECORD_SIZE {
        err := Some(CorruptedRecord);
        return false;
      }
      var body, bodyStatus := source.ReadFull(length + CHECKSUM_SIZE);
      if bodyStatus != Full {
        err := Some(UnexpectedEOF);
        return false;
      }
      var data := header + body;
      assert data == input[..FIXED_HEADER_SIZE + length + CHECKSUM_SIZE];
      assert source.unread == input[FIXED_HEADER_SIZE + length + CHECKSUM_SIZE..];
      var decoded := codec.Decode(data);
      if decoded.Err? {
        err := Some(decoded.error);
        return false;
      }
      record := decoded.value;
      return true;
    }

    method Close()
      modifies `closed
      ensures closed
    {
      closed := true;
    }
  }

  /** The header checks read the same fields from the header alone as from the whole input. */
  lemma SamePrefix(c: Codec, header: seq<Byte>, input: seq<Byte>)
    requires |header| == FIXED_HEADER_SIZE && header <= input
    ensures header[0..4] == input[0..4] && header[4] == input[4] && header[5] == input[5]
    ensures c.PayloadLength(header) == c.PayloadLength(input)
  {
    assert header[14..18] == input[14..18];
    assert header[18..22] == input[18..22];
  }
}
