/** The fixed binary layout of a session record. */
module SessionRecord {
  import opened Outcomes
  import opened Bytes
  import opened C = TlCodec
  import opened TlCursor
  import opened TlWriter
  import opened SessionCrypto

  const RECORD_MAGIC: u32 := 0x534c_5254
  const RECORD_VERSION: u32 := 1
  const RECORD_BYTES: nat := 316

  datatype Identity = Identity(dcId: i32, authKeyId: u64, serverSalt: u64, sessionId: u64)

  datatype Counters = Counters(sequenceNumber: u32, pts: i32, qts: i32, date: i32, updateSeq: i32, unreadCount: i32)

  datatype Record = Record(identity: Identity, counters: Counters, authKey: AuthKey)

  // ----- the layout ------------------------------------------------------------------------

  function IdentityText(id: Identity): (text: bytes)
    ensures |text| == 36
  {
    Le32(RECORD_MAGIC) + Le32(RECORD_VERSION) + EncodeI32(id.dcId)
    + Le64(id.authKeyId) + Le64(id.serverSalt) + Le64(id.sessionId)
  }

  function CountersText(c: Counters): (text: bytes)
    ensures |text| == 24
  {
    Le32(c.sequenceNumber) + EncodeI32(c.pts) + EncodeI32(c.qts)
    + (EncodeI32(c.date) + EncodeI32(c.updateSeq) + EncodeI32(c.unreadCount))
  }

  function RecordText(r: Record): (text: bytes)
    ensures |text| == RECORD_BYTES
  {
    IdentityText(r.identity) + CountersText(r.counters) + r.authKey
  }

  function ReadIdentity(s: bytes): Reading<Identity> {
    var (magic, s) :- ReadU32(s);
    var (version, s) :- ReadU32(s);
    if magic != RECORD_MAGIC || version != RECORD_VERSION then Err(InvalidPacket)
    else
      var (dcId, s) :- ReadI32(s);
      var (authKeyId, s) :- ReadU64(s);
      var (serverSalt, s) :- ReadU64(s);
      var (sessionId, s) :- ReadU64(s);
      Ok((Identity(dcId, authKeyId, serverSalt, sessionId), s))
  }

  function ReadCounters(s: bytes): Reading<Counters> {
    var (sequenceNumber, s) :- ReadU32(s);
    var (pts, s) :- ReadI32(s);
    var (qts, s) :- ReadI32(s);
    var (date, s) :- ReadI32(s);
    var (updateSeq, s) :- ReadI32(s);
    var (unreadCount, s) :- ReadI32(s);
    Ok((Counters(sequenceNumber, pts, qts, date, updateSeq, unreadCount), s))
  }

  function Parsed(input: bytes): Result<Record> {
    var (identity, s) :- ReadIdentity(input);
    var (counters, s) :- ReadCounters(s);
    var (authKey, s) :- C.Take(s, 256);
    var _ :- C.Finish(s);
    Ok(Record(identity, counters, authKey))
  }

  lemma ReadIdentityAfterWrite(id: Identity, rest: bytes)
    ensures ReadIdentity(IdentityText(id) + rest) == Ok((id, rest))
  {
    hide Le32, Le64, EncodeI32, ReadU32, ReadU64, ReadI32;
    var s5 := Le64(id.sessionId) + rest;
    var s4 := Le64(id.serverSalt) + s5;
    var s3 := Le64(id.authKeyId) + s4;
    var s2 := EncodeI32(id.dcId) + s3;
    var s1 := Le32(RECORD_VERSION) + s2;
    assert IdentityText(id) + rest == Le32(RECORD_MAGIC) + s1;
    ReadU32AfterWrite(RECORD_MAGIC, s1);
    ReadU32AfterWrite(RECORD_VERSION, s2);
    ReadI32AfterWrite(id.dcId, s3);
    ReadU64AfterWrite(id.authKeyId, s4);
    ReadU64AfterWrite(id.serverSalt, s5);
    ReadU64AfterWrite(id.sessionId, rest);
  }

  lemma ReadIdentityIsCanonical(s: bytes)
    requires ReadIdentity(s).Ok?
    ensures s == IdentityText(ReadIdentity(s).value.0) + ReadIdentity(s).value.1
  {
    hide Le32, Le64, EncodeI32, ReadU32, ReadU64, ReadI32;
    ReadU32IsCanonical(s);
    var s1 := ReadU32(s).value.1;
    ReadU32IsCanonical(s1);
    var s2 := ReadU32(s1).value.1;
    ReadI32IsCanonical(s2);
    var s3 := ReadI32(s2).value.1;
    ReadU64IsCanonical(s3);
    var s4 := ReadU64(s3).value.1;
    ReadU64IsCanonical(s4);
    var s5 := ReadU64(s4).value.1;
    ReadU64IsCanonical(s5);
  }

  lemma ReadCountersAfterWrite(c: Counters, rest: bytes)
    ensures ReadCounters(CountersText(c) + rest) == Ok((c, rest))
  {
    hide Le32, EncodeI32, ReadU32, ReadI32;
    var s5 := EncodeI32(c.unreadCount) + rest;
    var s4 := EncodeI32(c.updateSeq) + s5;
    var s3 := EncodeI32(c.date) + s4;
    var s2 := EncodeI32(c.qts) + s3;
    var s1 := EncodeI32(c.pts) + s2;
    assert CountersText(c) + rest == Le32(c.sequenceNumber) + s1;
    ReadU32AfterWrite(c.sequenceNumber, s1);
    ReadI32AfterWrite(c.pts, s2);
    ReadI32AfterWrite(c.qts, s3);
    ReadI32AfterWrite(c.date, s4);
    ReadI32AfterWrite(c.updateSeq, s5);
    ReadI32AfterWrite(c.unreadCount, rest);
  }

  lemma ReadCountersIsCanonical(s: bytes)
    requires ReadCounters(s).Ok?
    ensures s == CountersText(ReadCounters(s).value.0) + ReadCounters(s).value.1
  {
    hide Le32, EncodeI32, ReadU32, ReadI32;
    ReadU32IsCanonical(s);
    var s1 := ReadU32(s).value.1;
    ReadI32IsCanonical(s1);
    var s2 := ReadI32(s1).value.1;
    ReadI32IsCanonical(s2);
    var s3 := ReadI32(s2).value.1;
    ReadI32IsCanonical(s3);
    var s4 := ReadI32(s3).value.1;
    ReadI32IsCanonical(s4);
    var s5 := ReadI32(s4).value.1;
    ReadI32IsCanonical(s5);
  }

  // The parser accepts exactly the texts of records.
  lemma ParsesExactlyRecordTexts(input: bytes, r: Record)
    ensures Parsed(input) == Ok(r) <==> input == RecordText(r)
  {
    hide IdentityText, CountersText, ReadIdentity, ReadCounters;
    ReadIdentityAfterWrite(r.identity, CountersText(r.counters) + r.authKey);
    ReadCountersAfterWrite(r.counters, r.authKey);
    TakePrefix(r.authKey, []);
    assert r.authKey + [] == r.authKey;
    Regroup(IdentityText(r.identity), CountersText(r.counters), r.authKey);
    if Parsed(input).Ok? {
      ReadIdentityIsCanonical(input);
      ReadCountersIsCanonical(ReadIdentity(input).value.1);
    }
  }

  // Where each field stands.
  lemma RecordInBytes(r: Record)
    ensures var text := RecordText(r);
      && text[0..4] == [0x54, 0x52, 0x4c, 0x53] && text[4..8] == [1, 0, 0, 0] && text[8..12] == EncodeI32(r.identity.dcId)
      && text[12..20] == Le64(r.identity.authKeyId) && text[20..28] == Le64(r.identity.serverSalt)
      && text[28..36] == Le64(r.identity.sessionId) && text[36..40] == Le32(r.counters.sequenceNumber)
      && text[40..44] == EncodeI32(r.counters.pts) && text[44..48] == EncodeI32(r.counters.qts)
      && text[48..52] == EncodeI32(r.counters.date) && text[52..56] == EncodeI32(r.counters.updateSeq)
      && text[56..60] == EncodeI32(r.counters.unreadCount) && text[60..316] == r.authKey
  {
    MagicInBytes();
    hide Le, IdentityText, CountersText;
    var text := RecordText(r);
    IdentityInBytes(r.identity);
    CountersInBytes(r.counters);
    var first, second := IdentityText(r.identity), CountersText(r.counters);
    forall a, b | 0 <= a <= b <= 36 ensures text[a..b] == first[a..b] {
      assert text == first + (second + r.authKey);
      SliceOfPart(first, second + r.authKey, a, b);
    }
    assert text[36..40] == second[0..4] && text[40..44] == second[4..8] && text[44..48] == second[8..12];
    assert text[48..52] == second[12..16] && text[52..56] == second[16..20] && text[56..60] == second[20..24];
    assert text[60..316] == r.authKey;
  }

  lemma SliceOfPart(first: bytes, rest: bytes, a: nat, b: nat)
    requires a <= b <= |first|
    ensures (first + rest)[a..b] == first[a..b]
  {
  }

  lemma MagicInBytes()
    ensures Le32(RECORD_MAGIC) == [0x54, 0x52, 0x4c, 0x53] && Le32(RECORD_VERSION) == [1, 0, 0, 0]
  {
  }

  lemma IdentityInBytes(id: Identity)
    ensures var text := IdentityText(id);
      && text[0..4] == Le32(RECORD_MAGIC) && text[4..8] == Le32(RECORD_VERSION) && text[8..12] == EncodeI32(id.dcId)
      && text[12..20] == Le64(id.authKeyId) && text[20..28] == Le64(id.serverSalt) && text[28..36] == Le64(id.sessionId)
  {
    hide Le32, Le64;
  }

  lemma CountersInBytes(c: Counters)
    ensures var text := CountersText(c);
      && text[0..4] == Le32(c.sequenceNumber) && text[4..8] == EncodeI32(c.pts) && text[8..12] == EncodeI32(c.qts)
      && text[12..16] == EncodeI32(c.date) && text[16..20] == EncodeI32(c.updateSeq) && text[20..24] == EncodeI32(c.unreadCount)
  {
    hide Le32;
  }

  // ----- the methods -----------------------------------------------------------------------

  method WriteIdentity(writer: Writer, id: Identity) returns (r: Result<()>)
    requires writer.Valid()
    modifies writer, writer.output
    ensures writer.Valid() && writer.Appends(IdentityText(id), r)
  {
    hide Writer.Valid, Le32, Le64, EncodeI32;
    var _ :- writer.WriteU32(RECORD_MAGIC);
    var _ :- writer.WriteU32(RECORD_VERSION);
    var _ :- writer.WriteI32(id.dcId);
    var _ :- writer.WriteU64(id.authKeyId);
    var _ :- writer.WriteU64(id.serverSalt);
    r := writer.WriteU64(id.sessionId);
  }

  method WriteCounters(writer: Writer, c: Counters) returns (r: Result<()>)
    requires writer.Valid()
    modifies writer, writer.output
    ensures writer.Valid() && writer.Appends(CountersText(c), r)
  {
    hide Writer.Valid, Le32, EncodeI32;
    var _ :- writer.WriteU32(c.sequenceNumber);
    var _ :- writer.WriteI32(c.pts);
    var _ :- writer.WriteI32(c.qts);
    r := WriteThree(writer, c.date, c.updateSeq, c.unreadCount);
  }

  method WriteThree(writer: Writer, a: i32, b: i32, c: i32) returns (r: Result<()>)
    requires writer.Valid()
    modifies writer, writer.output
    ensures writer.Valid() && writer.Appends(EncodeI32(a) + EncodeI32(b) + EncodeI32(c), r)
  {
    hide Writer.Valid, EncodeI32;
    var _ :- writer.WriteI32(a);
    var _ :- writer.WriteI32(b);
    r := writer.WriteI32(c);
  }

  method EncodeRecord(record: Record, output: array<byte>)
    requires output.Length >= RECORD_BYTES
    modifies output
    ensures output[..] == Splice(old(output[..]), 0, RecordText(record))
  {
    hide IdentityText, CountersText, Splice;
    var writer := new Writer(output);
    var first := WriteIdentity(writer, record.identity);
    var second := WriteCounters(writer, record.counters);
    var third := writer.WriteAll(record.authKey);
    assert first.Ok? && second.Ok? && third.Ok?;
    assert writer.written == RecordText(record);
  }

  method ParseIdentity(cursor: Cursor) returns (r: Result<Identity>)
    requires cursor.Valid()
    modifies cursor
    ensures cursor.Valid() && Answers(ReadIdentity(old(cursor.Remaining())), r, cursor.Remaining())
  {
    hide C.ReadU32, C.ReadI32, C.ReadU64, Cursor.Remaining;
    var magic :- cursor.ReadU32();
    var version :- cursor.ReadU32();
    if magic != RECORD_MAGIC || version != RECORD_VERSION {
      return Err(InvalidPacket);
    }
    var dcId :- cursor.ReadI32();
    var authKeyId :- cursor.ReadU64();
    var serverSalt :- cursor.ReadU64();
    var sessionId :- cursor.ReadU64();
    return Ok(Identity(dcId, authKeyId, serverSalt, sessionId));
  }

  method ParseCounters(cursor: Cursor) returns (r: Result<Counters>)
    requires cursor.Valid()
    modifies cursor
    ensures cursor.Valid() && Answers(ReadCounters(old(cursor.Remaining())), r, cursor.Remaining())
  {
    hide C.ReadU32, C.ReadI32, Cursor.Remaining;
    var sequenceNumber :- cursor.ReadU32();
    var pts :- cursor.ReadI32();
    var qts :- cursor.ReadI32();
    var date :- cursor.ReadI32();
    var updateSeq :- cursor.ReadI32();
    var unreadCount :- cursor.ReadI32();
    return Ok(Counters(sequenceNumber, pts, qts, date, updateSeq, unreadCount));
  }

  method ParseRecord(input: bytes) returns (r: Result<Record>)
    ensures r == Parsed(input)
  {
    hide ReadIdentity, ReadCounters;
    var cursor := new Cursor(input);
    var identity :- ParseIdentity(cursor);
    var counters :- ParseCounters(cursor);
    var authKey :- cursor.Take(256);
    var _ :- cursor.Finish();
    return Ok(Record(identity, counters, authKey));
  }
}
