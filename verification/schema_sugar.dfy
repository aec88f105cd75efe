/** Value forms that abbreviate others, and the inputs for which a text cannot be read back. */
module SchemaSugar {
  import opened Outcomes
  import opened Bytes
  import opened TlCodec
  import opened Schema
  import opened SchemaDecoder
  import opened SchemaRoundTrip
  import opened DirectWriters

  // ----- values left out at the end are skipped ---------------------------------------------------------

  lemma SkippedIsNotSupplied(fields: seq<Field>, values: seq<Value>, i: nat)
    requires i < |fields|
    ensures Supplied(fields, values + [Skip], i) <==> Supplied(fields, values, i)
  {
    hide Slot;
  }

  lemma {:induction false} SkippedFlags(fields: seq<Field>, values: seq<Value>, k: nat, i: nat)
    requires WellFormed(fields) && i <= |fields|
    ensures FlagsUpTo(fields, values + [Skip], k, i) == FlagsUpTo(fields, values, k, i)
    decreases i
  {
    hide OrBit, Supplied;
    if i > 0 {
      SkippedFlags(fields, values, k, i - 1);
      SkippedIsNotSupplied(fields, values, i - 1);
      assert WellPlaced(fields, i - 1);
    }
  }

  lemma SkippedField(table: Table, fields: seq<Field>, values: seq<Value>, i: nat)
    requires WellFormedTable(table) && WellFormed(fields) && i < |fields|
    ensures FieldText(table, fields, values + [Skip], i) == FieldText(table, fields, values, i)
  {
    hide Slot, Le32;
    SkippedFlags(fields, values, fields[i].flagsField, |fields|);
    if Slot(fields, i) < |values| {
      assert (values + [Skip])[Slot(fields, i)] == values[Slot(fields, i)];
    }
  }

  lemma {:induction false} SkippedFields(table: Table, fields: seq<Field>, values: seq<Value>, i: nat)
    requires WellFormedTable(table) && WellFormed(fields) && i <= |fields|
    ensures FieldsText(table, fields, values + [Skip], i) == FieldsText(table, fields, values, i)
    decreases |fields| - i
  {
    hide FieldText;
    if i < |fields| {
      SkippedField(table, fields, values, i);
      SkippedFields(table, fields, values, i + 1);
    }
  }

  lemma OmittedIsSkipped(table: Table, id: u32, values: seq<Value>)
    requires WellFormedTable(table) && id in table && |values| < Slot(table[id].fields, |table[id].fields|)
    ensures ObjectText(table, id, values + [Skip]) == ObjectText(table, id, values)
  {
    hide FieldsText, Slot;
    SkippedFields(table, table[id].fields, values, 0);
  }

  // ----- peers and replies are boxed objects -----------------------------------------------------------------

  const PEER_FIELDS := [Plain("user_id", "long"), Plain("access_hash", "long")]
  const CHANNEL_FIELDS := [Plain("channel_id", "long"), Plain("access_hash", "long")]
  const CHAT_FIELDS := [Plain("chat_id", "long")]

  const REPLY_FIELDS := [
    FlagsDeclaration("flags"), Plain("reply_to_msg_id", "int"), Gated("top_msg_id", 0, "int"),
    Gated("reply_to_peer_id", 1, "InputPeer"), Gated("quote_text", 2, "string"),
    Gated("quote_entities", 3, "Vector<MessageEntity>"), Gated("quote_offset", 4, "int"),
    Gated("monoforum_peer_id", 5, "InputPeer"), Gated("todo_item_id", 6, "int"), Gated("poll_option", 7, "bytes")]

  ghost predicate HasPeerRows(table: Table) {
    && HasRow(table, INPUT_PEER_SELF, []) && HasRow(table, INPUT_PEER_USER, PEER_FIELDS)
    && HasRow(table, INPUT_PEER_CHANNEL, CHANNEL_FIELDS) && HasRow(table, INPUT_PEER_CHAT, CHAT_FIELDS)
  }

  function BoxedPeer(peer: Peer): Value {
    match peer
    case Self => Boxed(INPUT_PEER_SELF, [])
    case User(user, hash) => Boxed(INPUT_PEER_USER, [Long(user), Long(hash)])
    case Channel(channel, hash) => Boxed(INPUT_PEER_CHANNEL, [Long(channel), Long(hash)])
    case Chat(chat) => Boxed(INPUT_PEER_CHAT, [Long(chat)])
  }

  lemma ObjectOfTwoLongs(table: Table, id: u32, fields: seq<Field>, a: i64, b: i64)
    requires HasRow(table, id, fields) && |fields| == 2
    requires forall i :: 0 <= i < 2 ==> fields[i].ty == "long" && !fields[i].IsGated()
    ensures ObjectText(table, id, [Long(a), Long(b)]) == Ok(Le32(id) + EncodeI64(a) + EncodeI64(b))
  {
    hide Le32, EncodeI64, Slot, FieldText, FieldsText;
    var values := [Long(a), Long(b)];
    PlainSlot(fields, 0);
    PlainSlot(fields, 1);
    PlainSlot(fields, 2);
    FieldIsValue(table, fields, values, 0, 0);
    FieldIsValue(table, fields, values, 1, 1);
    FieldThenRest(table, fields, values, 0);
    FieldThenRest(table, fields, values, 1);
    NothingAfterLast(table, fields, values);
    assert EncodeI64(b) + [] == EncodeI64(b);
    Regroup(Le32(id), EncodeI64(a), EncodeI64(b));
  }

  lemma ObjectOfOneLong(table: Table, id: u32, fields: seq<Field>, a: i64)
    requires HasRow(table, id, fields) && |fields| == 1 && fields[0].ty == "long" && !fields[0].IsGated()
    ensures ObjectText(table, id, [Long(a)]) == Ok(Le32(id) + EncodeI64(a))
  {
    hide Le32, EncodeI64, Slot, FieldText, FieldsText;
    var values := [Long(a)];
    PlainSlot(fields, 0);
    PlainSlot(fields, 1);
    FieldIsValue(table, fields, values, 0, 0);
    FieldThenRest(table, fields, values, 0);
    NothingAfterLast(table, fields, values);
    assert EncodeI64(a) + [] == EncodeI64(a);
  }

  lemma EmptyObjectText(table: Table, id: u32)
    requires HasRow(table, id, [])
    ensures ObjectText(table, id, []) == Ok(Le32(id))
  {
    hide Le32;
    NothingAfterLast(table, [], []);
    assert Le32(id) + [] == Le32(id);
  }

  lemma PeerIsBoxed(table: Table, peer: Peer)
    requires HasPeerRows(table)
    ensures ValueText(table, "InputPeer", PeerValue(peer)) == ValueText(table, "InputPeer", BoxedPeer(peer))
  {
    hide ObjectText, Le32, EncodeI64;
    match peer {
      case Self => EmptyObjectText(table, INPUT_PEER_SELF);
      case User(user, hash) => ObjectOfTwoLongs(table, INPUT_PEER_USER, PEER_FIELDS, user, hash);
      case Channel(channel, hash) => ObjectOfTwoLongs(table, INPUT_PEER_CHANNEL, CHANNEL_FIELDS, channel, hash);
      case Chat(chat) => ObjectOfOneLong(table, INPUT_PEER_CHAT, CHAT_FIELDS, chat);
    }
  }

  lemma ReplyFlags(messageId: i32)
    requires WellFormed(REPLY_FIELDS)
    ensures FlagsWord(REPLY_FIELDS, [Int(messageId)], 0) == 0
  {
    hide Bit, FlagsWord, Slot;
    var fields, values := REPLY_FIELDS, [Int(messageId)];
    ClearWord();
    forall b | 0 <= b < 32 ensures !SomeSupplied(fields, values, 0, b, 10) {
      if SomeSupplied(fields, values, 0, b, 10) {
        var j :| 0 <= j < 10 && GatedBy(fields[j], 0, b) && Supplied(fields, values, j);
        SlotBeside(fields, 0, j);
      }
    }
    FlagsAre(fields, values, 0);
  }

  lemma ReplyTail(table: Table, messageId: i32)
    requires HasRow(table, INPUT_REPLY_TO_MESSAGE, REPLY_FIELDS)
    ensures FieldsText(table, REPLY_FIELDS, [Int(messageId)], 2) == Ok([])
  {
    hide FieldText, FieldsText, Slot;
    forall j | 2 <= j < 10 ensures FieldText(table, REPLY_FIELDS, [Int(messageId)], j) == Ok([]) {
      SlotBeside(REPLY_FIELDS, 0, j);
      FieldIsSilent(table, REPLY_FIELDS, [Int(messageId)], j, j - 1);
    }
    SilentRun(table, REPLY_FIELDS, [Int(messageId)], 2, 10);
    NothingAfterLast(table, REPLY_FIELDS, [Int(messageId)]);
  }

  lemma ReplyIsBoxed(table: Table, messageId: i32)
    requires HasRow(table, INPUT_REPLY_TO_MESSAGE, REPLY_FIELDS)
    ensures ObjectText(table, INPUT_REPLY_TO_MESSAGE, [Int(messageId)]) == Ok(ReplyText(messageId))
  {
    hide FieldsText, Slot, FlagsWord, Le32, EncodeI32;
    var fields, values := REPLY_FIELDS, [Int(messageId)];
    SlotBeside(fields, 0, 1);
    SlotBeside(fields, 0, 10);
    ReplyFlags(messageId);
    assert fields[0].IsFlags() && fields[0].flagsField == 0;
    FieldIsValue(table, fields, values, 1, 0);
    FieldThenRest(table, fields, values, 0);
    FieldThenRest(table, fields, values, 1);
    ReplyTail(table, messageId);
    assert EncodeI32(messageId) + [] == EncodeI32(messageId);
    Regroup(Le32(INPUT_REPLY_TO_MESSAGE), Le32(0), EncodeI32(messageId));
  }

  // ----- a text that cannot be read back ----------------------------------------------------------------------

  const NEW_AUTHORIZATION: u32 := 0x8951_abef
  const NEW_AUTHORIZATION_FIELDS := [
    FlagsDeclaration("flags"), Gated("unconfirmed", 0, "true"), Gated("hash", 0, "long"), Gated("date", 0, "int"),
    Gated("device", 0, "string"), Gated("location", 0, "string")]

  const UNCONFIRMED: seq<Value> := [True, Skip, Skip, Skip, Skip]

  // updateNewAuthorization gates five fields by one bit; marking it unconfirmed without a hash sets
  // the bit, and a reader expects the hash.
  lemma DisagreeingValuesAreLost(table: Table, rest: bytes)
    requires HasRow(table, NEW_AUTHORIZATION, NEW_AUTHORIZATION_FIELDS)
    ensures TypedObject(table, NEW_AUTHORIZATION, UNCONFIRMED)
    ensures var text := ObjectText(table, NEW_AUTHORIZATION, UNCONFIRMED);
      text.Ok? && ReadObject(table, text.value + rest) != Ok(((NEW_AUTHORIZATION, UNCONFIRMED), rest))
  {
    hide ReadObject, ObjectText, TypedObject, Supplied;
    var fields := NEW_AUTHORIZATION_FIELDS;
    NewAuthorizationTyped(table, UNCONFIRMED);
    NewAuthorizationText(table);
    RecoveredExactlyWhenAgreeing(table, NEW_AUTHORIZATION, UNCONFIRMED, rest);
    UnconfirmedDisagrees();
  }

  lemma UnconfirmedDisagrees()
    ensures !Agree(NEW_AUTHORIZATION_FIELDS, UNCONFIRMED)
  {
    hide Slot;
    var fields := NEW_AUTHORIZATION_FIELDS;
    SlotBeside(fields, 0, 1);
    SlotBeside(fields, 0, 2);
    assert SameGate(fields[1], fields[2]);
    assert Supplied(fields, UNCONFIRMED, 1) && !Supplied(fields, UNCONFIRMED, 2);
  }

  lemma NewAuthorizationText(table: Table)
    requires HasRow(table, NEW_AUTHORIZATION, NEW_AUTHORIZATION_FIELDS)
    ensures ObjectText(table, NEW_AUTHORIZATION, UNCONFIRMED).Ok?
  {
    hide FieldText, FieldsText, Slot;
    var fields := NEW_AUTHORIZATION_FIELDS;
    SlotBeside(fields, 0, 6);
    forall j | 1 <= j < 6 ensures FieldText(table, fields, UNCONFIRMED, j) == Ok([]) {
      SlotBeside(fields, 0, j);
      FieldIsSilent(table, fields, UNCONFIRMED, j, j - 1);
    }
    FieldThenRest(table, fields, UNCONFIRMED, 0);
    SilentRun(table, fields, UNCONFIRMED, 1, 6);
    NothingAfterLast(table, fields, UNCONFIRMED);
    FlagsFieldIsWritten(table, fields, UNCONFIRMED, 0);
  }

  lemma FlagsFieldIsWritten(table: Table, fields: seq<Field>, values: seq<Value>, i: nat)
    requires WellFormedTable(table) && WellFormed(fields) && i < |fields| && fields[i].IsFlags()
    ensures FieldText(table, fields, values, i) == Ok(Le32(FlagsWord(fields, values, fields[i].flagsField)))
  {
    hide Slot, FlagsWord;
  }

  lemma NewAuthorizationTyped(table: Table, values: seq<Value>)
    requires HasRow(table, NEW_AUTHORIZATION, NEW_AUTHORIZATION_FIELDS) && values == UNCONFIRMED
    ensures TypedObject(table, NEW_AUTHORIZATION, values)
  {
    hide Typed, Slot, TypedField;
    var fields := NEW_AUTHORIZATION_FIELDS;
    forall i | 0 <= i <= 6 ensures Slot(fields, i) == if i == 0 then 0 else i - 1 {
      SlotBeside(fields, 0, i);
    }
    forall i | 0 <= i < 6 ensures TypedField(table, fields, values, i) {
      NewAuthorizationField(table, values, i);
    }
    AllTyped(table, fields, values, 0);
  }

  lemma NewAuthorizationField(table: Table, values: seq<Value>, i: nat)
    requires values == UNCONFIRMED && i < 6
    ensures TypedField(table, NEW_AUTHORIZATION_FIELDS, values, i)
  {
    hide Typed, Slot;
    SlotBeside(NEW_AUTHORIZATION_FIELDS, 0, i);
  }

  lemma {:induction false} AllTyped(table: Table, fields: seq<Field>, values: seq<Value>, i: nat)
    requires i <= |fields| && forall j :: i <= j < |fields| ==> TypedField(table, fields, values, j)
    ensures TypedFrom(table, fields, values, i)
    decreases |fields| - i
  {
    hide TypedField;
    if i < |fields| {
      AllTyped(table, fields, values, i + 1);
    }
  }
}
