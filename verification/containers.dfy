/** Message containers, read one nested message at a time, and acknowledgement vectors. */
module Containers {
  import opened Outcomes
  import opened Bytes
  import opened C = TlCodec
  import opened TlCursor
  import opened TlLists

  datatype Nested = Nested(messageId: u64, sequenceNumber: u32, body: bytes) {
    // Bodies are aligned, and their length fits its field.
    predicate Fits() {
      |body| % 4 == 0 && |body| < 0x1_0000_0000
    }
  }

  function NestedText(m: Nested): bytes
    requires m.Fits()
  {
    Le64(m.messageId) + Le32(m.sequenceNumber) + Le32(|m.body|) + m.body
  }

  function ReadNested(s: bytes): (r: Reading<Nested>)
    ensures r.Ok? ==> r.value.0.Fits()
  {
    var (messageId, s) :- ReadU64(s);
    var (sequenceNumber, s) :- ReadU32(s);
    var (length, s) :- ReadU32(s);
    if length % 4 != 0 then Err(InvalidLength)
    else
      var (body, s) :- C.Take(s, length);
      Ok((Nested(messageId, sequenceNumber, body), s))
  }

  // What an attempt at an entry leaves.
  function NestedLeaves(s: bytes): bytes {
    match ReadU64(s)
    case Err(_) => TakeLeaves(s, 8)
    case Ok((_, s)) =>
      match ReadU32(s)
      case Err(_) => TakeLeaves(s, 4)
      case Ok((_, s)) =>
        match ReadU32(s)
        case Err(_) => TakeLeaves(s, 4)
        case Ok((length, s)) => if length % 4 != 0 then s else TakeLeaves(s, length)
  }

  lemma NestedIsRead(m: Nested, rest: bytes)
    requires m.Fits()
    ensures ReadNested(NestedText(m) + rest) == Ok((m, rest))
  {
    hide Le32, Le64, ReadU32, ReadU64;
    var s2 := Le32(|m.body|) + (m.body + rest);
    assert NestedText(m) + rest == Le64(m.messageId) + (Le32(m.sequenceNumber) + s2);
    ReadU64AfterWrite(m.messageId, Le32(m.sequenceNumber) + s2);
    ReadU32AfterWrite(m.sequenceNumber, s2);
    ReadU32AfterWrite(|m.body|, m.body + rest);
    TakePrefix(m.body, rest);
  }

  lemma NestedIsCanonical(s: bytes)
    requires ReadNested(s).Ok?
    ensures s == NestedText(ReadNested(s).value.0) + ReadNested(s).value.1
  {
    hide Le32, Le64, ReadU32, ReadU64;
    ReadU64IsCanonical(s);
    var (messageId, s1) := ReadU64(s).value;
    ReadU32IsCanonical(s1);
    var (sequenceNumber, s2) := ReadU32(s1).value;
    ReadU32IsCanonical(s2);
    var (length, s3) := ReadU32(s2).value;
    var (body, rest) := C.Take(s3, length).value;
    RegroupFour(Le64(messageId), Le32(sequenceNumber), Le32(length), body + rest);
    Regroup(Le64(messageId) + Le32(sequenceNumber) + Le32(length), body, rest);
  }

  // Where the fields of an entry stand.
  lemma NestedInBytes(m: Nested)
    requires m.Fits()
    ensures var text := NestedText(m);
      && |text| == 16 + |m.body| && text[0..8] == Le64(m.messageId) && text[8..12] == Le32(m.sequenceNumber)
      && text[12..16] == Le32(|m.body|) && text[16..] == m.body
  {
    hide Le32, Le64;
  }

  // ----- the whole container ----------------------------------------------------------------------------

  ghost predicate AllFit(messages: seq<Nested>) {
    forall i :: 0 <= i < |messages| ==> messages[i].Fits()
  }

  function MessagesText(messages: seq<Nested>): bytes
    requires AllFit(messages)
  {
    if messages == [] then [] else NestedText(messages[0]) + MessagesText(messages[1..])
  }

  // All entries, provided each is read and nothing is left.
  function ReadMessages(s: bytes, count: nat): (r: Result<seq<Nested>>)
    ensures r.Ok? ==> |r.value| == count && AllFit(r.value)
    decreases count
  {
    if count == 0 then
      var _ :- C.Finish(s);
      Ok([])
    else
      var (first, s) :- ReadNested(s);
      var others :- ReadMessages(s, count - 1);
      Ok([first] + others)
  }

  // If every entry and the end check succeed, headers and bodies partition the input; and every such
  // input is accepted.
  lemma {:induction false} EntriesPartitionInput(s: bytes, messages: seq<Nested>)
    ensures ReadMessages(s, |messages|) == Ok(messages) <==> AllFit(messages) && s == MessagesText(messages)
    decreases |messages|
  {
    hide ReadNested, NestedText;
    if messages != [] {
      var first, others := messages[0], messages[1..];
      assert messages == [first] + others;
      if AllFit(messages) && s == MessagesText(messages) {
        NestedIsRead(first, MessagesText(others));
        EntriesPartitionInput(MessagesText(others), others);
      }
      if ReadMessages(s, |messages|) == Ok(messages) {
        NestedIsCanonical(s);
        var (read, rest) := ReadNested(s).value;
        var tail := ReadMessages(rest, |messages| - 1).value;
        assert read == ([read] + tail)[0] && tail == ([read] + tail)[1..];
        EntriesPartitionInput(rest, others);
      }
    }
  }

  class MessageContainer {
    const cursor: Cursor
    var remaining: nat

    constructor (cursor: Cursor, count: nat)
      ensures this.cursor == cursor && remaining == count
    {
      this.cursor := cursor;
      remaining := count;
    }

    // The entry counts as consumed even if reading it fails.
    method NextMessage() returns (r: Option<Result<Nested>>)
      requires cursor.Valid()
      modifies this, cursor
      ensures cursor.Valid()
      ensures old(remaining) == 0 ==> r == None && remaining == 0 && cursor.Remaining() == old(cursor.Remaining())
      ensures old(remaining) > 0 ==> r.Some? && remaining == old(remaining) - 1
      ensures old(remaining) > 0 ==> Answers(ReadNested(old(cursor.Remaining())), r.value, cursor.Remaining())
      ensures old(remaining) > 0 ==> cursor.Remaining() == NestedLeaves(old(cursor.Remaining()))
    {
      if remaining == 0 {
        return None;
      }
      remaining := remaining - 1;
      var entry := ReadEntry(cursor);
      return Some(entry);
    }

    method Finish() returns (r: Result<()>)
      requires cursor.Valid()
      ensures r == if remaining != 0 then Err(InvalidLength) else C.Finish(cursor.Remaining())
    {
      if remaining != 0 {
        return Err(InvalidLength);
      }
      r := cursor.Finish();
    }
  }

  // Reading the entries one by one: those read so far, followed by the rest, are the whole.
  ghost predicate EntriesSoFar(whole: Result<seq<Nested>>, read: seq<Nested>, rest: Result<seq<Nested>>) {
    match rest
    case Ok(others) => whole == Ok(read + others)
    case Err(kind) => whole == Err(kind)
  }

  lemma EntriesContinue(whole: Result<seq<Nested>>, read: seq<Nested>, s: bytes, count: nat)
    requires count > 0 && EntriesSoFar(whole, read, ReadMessages(s, count))
    ensures match ReadNested(s)
            case Err(kind) => whole == Err(kind)
            case Ok((first, left)) => EntriesSoFar(whole, read + [first], ReadMessages(left, count - 1))
  {
    hide ReadNested;
    if ReadNested(s).Ok? {
      var (first, left) := ReadNested(s).value;
      var others := ReadMessages(left, count - 1);
      if others.Ok? {
        assert read + ([first] + others.value) == read + [first] + others.value;
      }
    }
  }

  // A caller that takes every entry and then finishes gets all messages, or the first error.
  method TakeAll(container: MessageContainer) returns (r: Result<seq<Nested>>)
    requires container.cursor.Valid()
    modifies container, container.cursor
    ensures r == ReadMessages(old(container.cursor.Remaining()), old(container.remaining))
  {
    hide ReadNested, Cursor.Remaining, EntriesSoFar;
    var read: seq<Nested> := [];
    ghost var whole := ReadMessages(container.cursor.Remaining(), container.remaining);
    NothingTakenYet(whole);
    while container.remaining > 0
      invariant container.cursor.Valid()
      invariant EntriesSoFar(whole, read, ReadMessages(container.cursor.Remaining(), container.remaining))
      decreases container.remaining
    {
      EntriesContinue(whole, read, container.cursor.Remaining(), container.remaining);
      var next := container.NextMessage();
      var entry :- next.value;
      read := read + [entry];
    }
    AllTaken(whole, read, container.cursor.Remaining());
    var _ :- container.Finish();
    return Ok(read);
  }

  lemma NothingTakenYet(whole: Result<seq<Nested>>)
    ensures EntriesSoFar(whole, [], whole)
  {
    assert whole.Ok? ==> [] + whole.value == whole.value;
  }

  lemma AllTaken(whole: Result<seq<Nested>>, read: seq<Nested>, left: bytes)
    requires EntriesSoFar(whole, read, ReadMessages(left, 0))
    ensures whole == match C.Finish(left)
                     case Ok(_) => Ok(read)
                     case Err(kind) => Err(kind)
  {
    assert read + [] == read;
  }

  method ReadEntry(cursor: Cursor) returns (r: Result<Nested>)
    requires cursor.Valid()
    modifies cursor
    ensures cursor.Valid() && Answers(ReadNested(old(cursor.Remaining())), r, cursor.Remaining())
    ensures cursor.Remaining() == NestedLeaves(old(cursor.Remaining()))
  {
    hide C.ReadU64, C.ReadU32, C.Take, Cursor.Remaining;
    var messageId :- cursor.ReadU64();
    var sequenceNumber :- cursor.ReadU32();
    var length :- cursor.ReadU32();
    if length % 4 != 0 {
      return Err(InvalidLength);
    }
    var body :- cursor.Take(length);
    return Ok(Nested(messageId, sequenceNumber, body));
  }

  // ----- acknowledgements ---------------------------------------------------------------------------------

  datatype LongVector = LongVector(data: bytes, length: nat) {
    function Get(index: nat): Option<i64> {
      if index >= length || index * 8 + 8 > |data| then None
      else Some(ToI64(U64Of(data[index * 8..index * 8 + 8])))
    }
  }

  function AcksText(ids: seq<i64>): bytes {
    ListText(EncodeI64, ids)
  }

  function ReadAcks(s: bytes, maximum: u32): Result<LongVector> {
    var (count, s) :- ReadVectorLength(s, maximum);
    var (data, s) :- C.Take(s, 8 * count);
    var _ :- C.Finish(s);
    Ok(LongVector(data, count))
  }

  lemma {:induction false} AcksLength(ids: seq<i64>)
    ensures |AcksText(ids)| == 8 * |ids|
  {
    if ids != [] {
      AcksLength(ids[1..]);
    }
  }

  lemma {:induction false} GetReadsElement(ids: seq<i64>, index: nat)
    requires index < |ids|
    ensures LongVector(AcksText(ids), |ids|).Get(index) == Some(ids[index])
    decreases index
  {
    hide Le64, U64Of;
    AcksLength(ids);
    var text, tail := AcksText(ids), AcksText(ids[1..]);
    AcksLength(ids[1..]);
    if index == 0 {
      assert text[0..8] == EncodeI64(ids[0]);
      U64RoundTrip(FromI64(ids[0]));
    } else {
      GetReadsElement(ids[1..], index - 1);
      assert text[index * 8..index * 8 + 8] == tail[(index - 1) * 8..(index - 1) * 8 + 8];
    }
  }

  // An acknowledgement of a list of identifiers is read, and its elements are the list's.
  lemma AcksAreRead(ids: seq<i64>, maximum: u32)
    requires |ids| <= maximum
    ensures var r := ReadAcks(Le32(VECTOR) + Le32(|ids|) + AcksText(ids), maximum);
      && r.Ok? && r.value.length == |ids|
      && forall i :: 0 <= i < |ids| ==> r.value.Get(i) == Some(ids[i])
  {
    hide Le32, Expect, ReadU32, AcksText, LongVector.Get;
    var text := AcksText(ids);
    AcksLength(ids);
    assert Le32(VECTOR) + Le32(|ids|) + text == Le32(VECTOR) + (Le32(|ids|) + text);
    ExpectAfterWrite(VECTOR, Le32(|ids|) + text);
    ReadU32AfterWrite(|ids|, text);
    TakePrefix(text, []);
    assert text + [] == text;
    forall i | 0 <= i < |ids| ensures LongVector(text, |ids|).Get(i) == Some(ids[i]) {
      GetReadsElement(ids, i);
    }
  }

  // And nothing but such an acknowledgement is read.
  lemma AcksAreCanonical(s: bytes, maximum: u32) returns (ids: seq<i64>)
    requires ReadAcks(s, maximum).Ok?
    ensures |ids| <= maximum && s == Le32(0x1cb5_c415) + Le32(|ids|) + AcksText(ids)
    ensures ReadAcks(s, maximum).value == LongVector(AcksText(ids), |ids|)
  {
    hide Le32, ReadVectorLength, AcksText;
    var (count, rest) := ReadVectorLength(s, maximum).value;
    VectorHeaderExactly(s, maximum, count, rest);
    assert rest[..8 * count] == rest;
    ids := LongsOf(rest, count);
  }

  lemma {:induction false} LongsOf(data: bytes, count: nat) returns (ids: seq<i64>)
    requires |data| == 8 * count
    ensures |ids| == count && AcksText(ids) == data
    decreases count
  {
    if count == 0 {
      ids := [];
    } else {
      var others := LongsOf(data[8..], count - 1);
      var first := ToI64(U64Of(data[..8]));
      ids := [first] + others;
      U64Canonical(data[..8]);
      assert ids[1..] == others && data == data[..8] + data[8..];
    }
  }
}
