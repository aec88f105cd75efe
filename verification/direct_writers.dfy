/** The hand-written message writers, and the proof that they emit what the serializer emits. */
module DirectWriters {
  import opened Outcomes
  import opened Bytes
  import opened TlCodec
  import opened TlWriter
  import opened Schema
  import opened SchemaWriter

  // ----- the rows of the schema the writers stand for -------------------------------------------------

  function Plain(name: string, ty: string): Field {
    Field(name, ty, NO_FLAGS, 0)
  }

  function FlagsDeclaration(name: string): Field {
    Field(name, "#", 0, 0)
  }

  function Gated(name: string, bit: nat, ty: string): Field {
    Field(name, ty, 0, bit)
  }

  const GET_MESSAGES: u32 := 0x63c6_6506
  const GET_HISTORY: u32 := 0x4423_e6c5
  const DELETE_MESSAGES: u32 := 0xe58e_95d2
  const EDIT_MESSAGE: u32 := 0xb106_e66c
  const SEND_MESSAGE: u32 := 0xfef4_8f62

  const GET_MESSAGES_FIELDS := [Plain("id", "Vector<InputMessage>")]

  const GET_HISTORY_FIELDS := [
    Plain("peer", "InputPeer"), Plain("offset_id", "int"), Plain("offset_date", "int"), Plain("add_offset", "int"),
    Plain("limit", "int"), Plain("max_id", "int"), Plain("min_id", "int"), Plain("hash", "long")]

  const DELETE_MESSAGES_FIELDS := [FlagsDeclaration("flags"), Gated("revoke", 0, "true"), Plain("id", "Vector<int>")]

  const EDIT_MESSAGE_FIELDS := [
    FlagsDeclaration("flags"), Gated("no_webpage", 1, "true"), Gated("invert_media", 16, "true"),
    Plain("peer", "InputPeer"), Plain("id", "int"), Gated("message", 11, "string"), Gated("media", 14, "InputMedia"),
    Gated("reply_markup", 2, "ReplyMarkup"), Gated("entities", 3, "Vector<MessageEntity>"),
    Gated("schedule_date", 15, "int"), Gated("schedule_repeat_period", 18, "int"),
    Gated("quick_reply_shortcut_id", 17, "int"), Gated("rich_message", 23, "InputRichMessage")]

  const SEND_MESSAGE_FIELDS := [
    Plain("ephemeral_receiver_bot_id", "long"), FlagsDeclaration("flags"), Gated("no_webpage", 1, "true"),
    Gated("silent", 5, "true"), Gated("background", 6, "true"), Gated("clear_draft", 7, "true"),
    Gated("noforwards", 14, "true"), Gated("update_stickersets_order", 15, "true"), Gated("invert_media", 16, "true"),
    Gated("allow_paid_floodskip", 19, "true"), Plain("peer", "InputPeer"), Gated("reply_to", 0, "InputReplyTo"),
    Plain("message", "string"), Plain("random_id", "long"), Gated("reply_markup", 2, "ReplyMarkup"),
    Gated("entities", 3, "Vector<MessageEntity>"), Gated("schedule_date", 10, "int"),
    Gated("schedule_repeat_period", 24, "int"), Gated("send_as", 13, "InputPeer"),
    Gated("quick_reply_shortcut", 17, "InputQuickReplyShortcut"), Gated("effect", 18, "long"),
    Gated("allow_paid_stars", 21, "long"), Gated("suggested_post", 22, "SuggestedPost"),
    Gated("rich_message", 23, "InputRichMessage")]

  ghost predicate HasRow(table: Table, id: u32, fields: seq<Field>) {
    WellFormedTable(table) && id in table && table[id].fields == fields
  }

  // ----- slots and flags of rows with one flags word -----------------------------------------------------

  // The only flags word is declared at f.
  predicate DeclaredAt(fields: seq<Field>, f: nat) {
    f < |fields| && forall i :: 0 <= i < |fields| ==> (fields[i].IsFlags() <==> i == f)
  }

  lemma {:induction false} SlotBeside(fields: seq<Field>, f: nat, i: nat)
    requires DeclaredAt(fields, f) && i <= |fields|
    ensures Slot(fields, i) == if i <= f then i else i - 1
    decreases i
  {
    if i > 0 {
      SlotBeside(fields, f, i - 1);
    }
  }

  lemma {:induction false} PlainSlot(fields: seq<Field>, i: nat)
    requires i <= |fields| && forall j :: 0 <= j < |fields| ==> !fields[j].IsFlags()
    ensures Slot(fields, i) == i
    decreases i
  {
    if i > 0 {
      PlainSlot(fields, i - 1);
    }
  }

  lemma {:induction false} SameBits(a: nat, b: nat, width: nat)
    requires a < Pow(2, width) && b < Pow(2, width)
    requires forall c :: 0 <= c < width ==> (Bit(a, c) <==> Bit(b, c))
    ensures a == b
    decreases width
  {
    if width > 0 {
      assert Bit(a, 0) <==> Bit(b, 0);
      forall c | 0 <= c < width - 1 ensures Bit(a / 2, c) <==> Bit(b / 2, c) {
        assert Bit(a, c + 1) <==> Bit(b, c + 1);
      }
      SameBits(a / 2, b / 2, width - 1);
    }
  }

  // A word with the right bits is the flags word.
  lemma FlagsAre(fields: seq<Field>, values: seq<Value>, word: u32)
    requires WellFormed(fields)
    requires forall b :: 0 <= b < 32 ==> (Bit(word, b) <==> SomeSupplied(fields, values, 0, b, |fields|))
    ensures FlagsWord(fields, values, 0) == word
  {
    hide Bit, SomeSupplied;
    forall b | 0 <= b < 32 ensures Bit(word, b) <==> Bit(FlagsWord(fields, values, 0), b) {
      FlagsWordMeaning(fields, values, 0, b);
    }
    WordWidth();
    SameBits(word, FlagsWord(fields, values, 0), 32);
  }

  // The texts of the fields one after the other.
  lemma {:induction false} FieldsInOrder(table: Table, fields: seq<Field>, values: seq<Value>, i: nat,
        texts: seq<bytes>)
    requires WellFormedTable(table) && WellFormed(fields) && i + |texts| == |fields|
    requires forall j :: i <= j < |fields| ==> FieldText(table, fields, values, j) == Ok(texts[j - i])
    ensures FieldsText(table, fields, values, i) == Ok(Joined(texts))
    decreases |texts|
  {
    hide FieldText;
    if i < |fields| {
      FieldsInOrder(table, fields, values, i + 1, texts[1..]);
      assert FieldText(table, fields, values, i) == Ok(texts[0]);
    }
  }

  function Joined(texts: seq<bytes>): bytes {
    if texts == [] then [] else texts[0] + Joined(texts[1..])
  }

  // ----- messages.getMessages ------------------------------------------------------------------------------

  lemma GetMessagesText(table: Table, ids: seq<i32>)
    requires HasRow(table, GET_MESSAGES, GET_MESSAGES_FIELDS)
    ensures ObjectText(table, GET_MESSAGES, [MessageIds(ids)]) == Ok(Le32(0x63c6_6506) + VectorText(MessageIdText, ids))
  {
    hide Le32, VectorText;
    var fields, values := GET_MESSAGES_FIELDS, [MessageIds(ids)];
    PlainSlot(fields, 0);
    PlainSlot(fields, 1);
    FieldsInOrder(table, fields, values, 0, [VectorText(MessageIdText, ids)]);
    assert VectorText(MessageIdText, ids) + [] == VectorText(MessageIdText, ids);
  }

  method WriteGetMessages(writer: Writer, ghost table: Table, ids: seq<i32>) returns (r: Result<()>)
    requires writer.Valid() && HasRow(table, GET_MESSAGES, GET_MESSAGES_FIELDS)
    modifies writer, writer.output
    ensures writer.Valid() && Emits(writer, ObjectText(table, GET_MESSAGES, [MessageIds(ids)]), r)
  {
    hide Writer.Valid, ObjectText, VectorText, VectorHead, VectorUpTo, Le32, MessageIdText;
    GetMessagesText(table, ids);
    VectorBegins(MessageIdText, ids);
    ghost var before, done := writer.written + Le32(GET_MESSAGES), VectorHead(|ids|);
    var _ :- writer.WriteU32(GET_MESSAGES);
    var _ :- WriteVectorHead(writer, |ids|);
    var i := 0;
    while i < |ids|
      invariant 0 <= i <= |ids| && writer.Valid()
      invariant writer.written == before + done && |writer.written| <= writer.output.Length
      invariant VectorUpTo(MessageIdText, ids, i, done)
    {
      VectorContinues(MessageIdText, ids, i, done);
      var _ :- WriteMessageId(writer, ids[i]);
      done := done + MessageIdText(ids[i]);
      i := i + 1;
    }
    VectorEnds(MessageIdText, ids, done);
    return Ok(());
  }

  // ----- messages.getHistory -------------------------------------------------------------------------------

  datatype Range = Range(offsetId: i32, offsetDate: i32, addOffset: i32, limit: i32, maxId: i32, minId: i32)

  function OffsetsText(peer: Peer, x: Range): bytes {
    PeerText(peer) + EncodeI32(x.offsetId) + EncodeI32(x.offsetDate) + EncodeI32(x.addOffset)
  }

  function LimitsText(x: Range, hash: i64): bytes {
    EncodeI32(x.limit) + EncodeI32(x.maxId) + EncodeI32(x.minId) + EncodeI64(hash)
  }

  function GetHistoryValues(peer: Peer, x: Range, hash: i64): seq<Value> {
    [PeerValue(peer), Int(x.offsetId), Int(x.offsetDate), Int(x.addOffset), Int(x.limit), Int(x.maxId), Int(x.minId), Long(hash)]
  }

  lemma GetHistoryFields(table: Table, peer: Peer, x: Range, hash: i64)
    requires HasRow(table, GET_HISTORY, GET_HISTORY_FIELDS)
    ensures FieldsText(table, GET_HISTORY_FIELDS, GetHistoryValues(peer, x, hash), 0)
         == Ok(OffsetsText(peer, x) + LimitsText(x, hash))
    ensures Slot(GET_HISTORY_FIELDS, 8) == 8
  {
    hide Le32, EncodeI32, EncodeI64, PeerText, FieldsText;
    var fields, values := GET_HISTORY_FIELDS, GetHistoryValues(peer, x, hash);
    var texts := [PeerText(peer), EncodeI32(x.offsetId), EncodeI32(x.offsetDate), EncodeI32(x.addOffset),
                  EncodeI32(x.limit), EncodeI32(x.maxId), EncodeI32(x.minId), EncodeI64(hash)];
    forall j | 0 <= j < 8 ensures FieldText(table, fields, values, j) == Ok(texts[j]) {
      PlainSlot(fields, j);
    }
    PlainSlot(fields, 8);
    FieldsInOrder(table, fields, values, 0, texts);
    FourTexts(texts);
    FourTexts(texts[4..]);
    NoTexts(texts[4..][4..]);
    assert LimitsText(x, hash) + [] == LimitsText(x, hash);
  }

  lemma NoTexts(t: seq<bytes>)
    requires t == []
    ensures Joined(t) == []
  {
  }

  lemma FourTexts(t: seq<bytes>)
    requires |t| >= 4
    ensures Joined(t) == t[0] + t[1] + t[2] + t[3] + Joined(t[4..])
  {
    var u := Joined(t[4..]);
    assert t[1..][1..] == t[2..] && t[2..][1..] == t[3..] && t[3..][1..] == t[4..];
    assert Joined(t[3..]) == t[3] + u;
    assert Joined(t[2..]) == t[2] + Joined(t[3..]);
    assert Joined(t[1..]) == t[1] + Joined(t[2..]);
    hide Joined;
    Regroup(t[0], t[1], Joined(t[2..]));
    Regroup(t[0] + t[1], t[2], Joined(t[3..]));
    Regroup(t[0] + t[1] + t[2], t[3], u);
  }

  method WriteTwoInts(writer: Writer, a: i32, b: i32) returns (r: Result<()>)
    requires writer.Valid()
    modifies writer, writer.output
    ensures writer.Valid() && writer.Appends(EncodeI32(a) + EncodeI32(b), r)
  {
    hide Writer.Valid, EncodeI32;
    var _ :- writer.WriteI32(a);
    r := writer.WriteI32(b);
  }

  method WritePeerAndInt(writer: Writer, peer: Peer, x: i32) returns (r: Result<()>)
    requires writer.Valid()
    modifies writer, writer.output
    ensures writer.Valid() && writer.Appends(PeerText(peer) + EncodeI32(x), r)
  {
    hide Writer.Valid, PeerText, EncodeI32;
    var _ :- WritePeer(writer, peer);
    r := writer.WriteI32(x);
  }

  method WriteOffsets(writer: Writer, peer: Peer, x: Range) returns (r: Result<()>)
    requires writer.Valid()
    modifies writer, writer.output
    ensures writer.Valid() && writer.Appends(OffsetsText(peer, x), r)
  {
    hide Writer.Valid, PeerText, EncodeI32;
    var _ :- WritePeerAndInt(writer, peer, x.offsetId);
    var _ :- writer.WriteI32(x.offsetDate);
    r := writer.WriteI32(x.addOffset);
  }

  method WriteLimits(writer: Writer, x: Range, hash: i64) returns (r: Result<()>)
    requires writer.Valid()
    modifies writer, writer.output
    ensures writer.Valid() && writer.Appends(LimitsText(x, hash), r)
  {
    hide Writer.Valid, EncodeI64, EncodeI32;
    var _ :- WriteTwoInts(writer, x.limit, x.maxId);
    var _ :- writer.WriteI32(x.minId);
    r := writer.WriteI64(hash);
  }

  lemma GetHistoryText(table: Table, peer: Peer, x: Range, hash: i64)
    requires HasRow(table, GET_HISTORY, GET_HISTORY_FIELDS)
    ensures ObjectText(table, GET_HISTORY, GetHistoryValues(peer, x, hash))
         == Ok(Le32(0x4423_e6c5) + (OffsetsText(peer, x) + LimitsText(x, hash)))
  {
    hide Le32, OffsetsText, LimitsText, FieldsText;
    GetHistoryFields(table, peer, x, hash);
  }

  method WriteGetHistory(writer: Writer, ghost table: Table, peer: Peer, x: Range, hash: i64) returns (r: Result<()>)
    requires writer.Valid() && HasRow(table, GET_HISTORY, GET_HISTORY_FIELDS)
    modifies writer, writer.output
    ensures writer.Valid() && Emits(writer, ObjectText(table, GET_HISTORY, GetHistoryValues(peer, x, hash)), r)
  {
    hide Writer.Valid, ObjectText, OffsetsText, LimitsText, Le32;
    GetHistoryText(table, peer, x, hash);
    var _ :- writer.WriteU32(GET_HISTORY);
    var _ :- WriteOffsets(writer, peer, x);
    r := WriteLimits(writer, x, hash);
  }

  // ----- runs of fields -----------------------------------------------------------------------------------

  function Then(head: bytes, tail: Result<bytes>): Result<bytes> {
    match tail
    case Ok(text) => Ok(head + text)
    case Err(kind) => Err(kind)
  }

  lemma FieldThenRest(table: Table, fields: seq<Field>, values: seq<Value>, i: nat)
    requires WellFormedTable(table) && WellFormed(fields) && i < |fields|
    ensures FieldsText(table, fields, values, i)
         == match FieldText(table, fields, values, i)
            case Ok(head) => Then(head, FieldsText(table, fields, values, i + 1))
            case Err(kind) => Err(kind)
  {
    hide FieldText;
  }

  // The field at i is written as the value at its slot.
  lemma FieldIsValue(table: Table, fields: seq<Field>, values: seq<Value>, i: nat, slot: nat)
    requires WellFormedTable(table) && WellFormed(fields) && i < |fields| && slot == Slot(fields, i) < |values|
    requires !fields[i].IsFlags() && !fields[i].IsBit() && !values[slot].Skip?
    ensures FieldText(table, fields, values, i) == ValueText(table, fields[i].ty, values[slot])
  {
    hide ValueText, Slot;
  }

  // A gated field that is a bit, or whose value is missing or skipped, is not written.
  lemma FieldIsSilent(table: Table, fields: seq<Field>, values: seq<Value>, i: nat, slot: nat)
    requires WellFormedTable(table) && WellFormed(fields) && i < |fields| && slot == Slot(fields, i)
    requires fields[i].IsGated() && (fields[i].IsBit() || slot >= |values| || values[slot].Skip?)
    ensures FieldText(table, fields, values, i) == Ok([])
  {
    hide ValueText, Slot;
  }

  // Fields without text.
  ghost predicate Silent(table: Table, fields: seq<Field>, values: seq<Value>, i: nat, j: nat)
    requires WellFormedTable(table) && WellFormed(fields) && i <= j <= |fields|
  {
    forall k :: i <= k < j ==> FieldText(table, fields, values, k) == Ok([])
  }

  lemma {:induction false} SilentRun(table: Table, fields: seq<Field>, values: seq<Value>, i: nat, j: nat)
    requires WellFormedTable(table) && WellFormed(fields) && i <= j <= |fields|
    requires Silent(table, fields, values, i, j)
    ensures FieldsText(table, fields, values, i) == FieldsText(table, fields, values, j)
    decreases j - i
  {
    hide FieldText;
    if i < j {
      SilentRun(table, fields, values, i + 1, j);
      var rest := FieldsText(table, fields, values, i + 1);
      assert rest.Ok? ==> [] + rest.value == rest.value;
      assert FieldText(table, fields, values, i) == Ok([]);
    }
  }

  lemma NothingAfterLast(table: Table, fields: seq<Field>, values: seq<Value>)
    requires WellFormedTable(table) && WellFormed(fields)
    ensures FieldsText(table, fields, values, |fields|) == Ok([])
  {
  }

  // The same for what is written in front of a refused value.
  lemma PrefixThenRest(table: Table, fields: seq<Field>, values: seq<Value>, i: nat)
    requires WellFormedTable(table) && WellFormed(fields) && i < |fields|
    ensures FieldsPrefix(table, fields, values, i)
         == match FieldText(table, fields, values, i)
            case Ok(head) => head + FieldsPrefix(table, fields, values, i + 1)
            case Err(_) => FieldPrefix(table, fields, values, i)
  {
    hide FieldText, FieldPrefix;
  }

  lemma {:induction false} SilentPrefix(table: Table, fields: seq<Field>, values: seq<Value>, i: nat, j: nat)
    requires WellFormedTable(table) && WellFormed(fields) && i <= j <= |fields|
    requires Silent(table, fields, values, i, j)
    ensures FieldsPrefix(table, fields, values, i) == FieldsPrefix(table, fields, values, j)
    decreases j - i
  {
    hide FieldText, FieldPrefix, FieldsPrefix;
    if i < j {
      SilentPrefix(table, fields, values, i + 1, j);
      PrefixThenRest(table, fields, values, i);
      assert FieldText(table, fields, values, i) == Ok([]);
      assert [] + FieldsPrefix(table, fields, values, i + 1) == FieldsPrefix(table, fields, values, i + 1);
    }
  }

  // A value that is no object is refused before anything of it is written.
  lemma NothingOfRefused(table: Table, fields: seq<Field>, values: seq<Value>, i: nat, slot: nat)
    requires WellFormedTable(table) && WellFormed(fields) && i < |fields| && slot == Slot(fields, i) < |values|
    requires !values[slot].Boxed?
    ensures FieldPrefix(table, fields, values, i) == []
  {
    hide Slot;
  }

  // A word built by setting bits one after the other.
  lemma SetBits(word: u32, b: nat)
    requires b < 32
    ensures forall c :: 0 <= c < 32 ==> (Bit(OrBit(word, b), c) <==> c == b || Bit(word, c))
  {
    hide Bit, SetBit;
    forall c | 0 <= c < 32 ensures Bit(OrBit(word, b), c) <==> c == b || Bit(word, c) {
      SetBitSets(word, b, c);
    }
  }

  lemma ClearWord()
    ensures forall c :: 0 <= c < 32 ==> !Bit(0, c)
  {
    hide Bit;
    forall c | 0 <= c < 32 ensures !Bit(0, c) {
      NoBitsInZero(c);
    }
  }

  // ----- messages.deleteMessages ----------------------------------------------------------------------------

  function Flag(on: bool): Value {
    if on then True else False
  }

  function DeleteMessagesValues(ids: seq<i32>, revoke: bool): seq<Value> {
    [Flag(revoke), Ints(ids)]
  }

  lemma DeleteMessagesFlags(ids: seq<i32>, revoke: bool)
    requires WellFormed(DELETE_MESSAGES_FIELDS)
    ensures FlagsWord(DELETE_MESSAGES_FIELDS, DeleteMessagesValues(ids, revoke), 0) == if revoke then 1 else 0
    ensures forall i :: 0 <= i <= 3 ==> Slot(DELETE_MESSAGES_FIELDS, i) == if i == 0 then 0 else i - 1
  {
    hide Bit, Slot, FlagsWord;
    var fields, values := DELETE_MESSAGES_FIELDS, DeleteMessagesValues(ids, revoke);
    forall i | 0 <= i <= 3 ensures Slot(fields, i) == if i == 0 then 0 else i - 1 {
      SlotBeside(fields, 0, i);
    }
    var word: u32 := if revoke then 1 else 0;
    ClearWord();
    forall b | 0 <= b < 32 ensures Bit(word, b) <==> SomeSupplied(fields, values, 0, b, 3) {
      LowestBit(b);
      assert Supplied(fields, values, 1) <==> revoke;
    }
    FlagsAre(fields, values, word);
  }

  lemma LowestBit(b: nat)
    ensures Bit(1, b) <==> b == 0
  {
    if b > 0 {
      NoBitsInZero(b - 1);
    }
  }

  lemma DeleteMessagesText(table: Table, ids: seq<i32>, revoke: bool)
    requires HasRow(table, DELETE_MESSAGES, DELETE_MESSAGES_FIELDS)
    ensures ObjectText(table, DELETE_MESSAGES, DeleteMessagesValues(ids, revoke))
         == Ok(Le32(0xe58e_95d2) + (Le32(if revoke then 1 else 0) + VectorText(EncodeI32, ids)))
  {
    hide Le32, VectorText, FieldsText, FlagsWord, Slot;
    var fields, values := DELETE_MESSAGES_FIELDS, DeleteMessagesValues(ids, revoke);
    DeleteMessagesFlags(ids, revoke);
    FieldThenRest(table, fields, values, 0);
    SilentRun(table, fields, values, 1, 2);
    FieldThenRest(table, fields, values, 2);
    NothingAfterLast(table, fields, values);
    assert VectorText(EncodeI32, ids) + [] == VectorText(EncodeI32, ids);
  }

  method WriteDeleteMessages(writer: Writer, ghost table: Table, ids: seq<i32>, revoke: bool) returns (r: Result<()>)
    requires writer.Valid() && HasRow(table, DELETE_MESSAGES, DELETE_MESSAGES_FIELDS)
    modifies writer, writer.output
    ensures writer.Valid() && Emits(writer, ObjectText(table, DELETE_MESSAGES, DeleteMessagesValues(ids, revoke)), r)
  {
    hide Writer.Valid, ObjectText, VectorText, Le32;
    DeleteMessagesText(table, ids, revoke);
    var _ :- writer.WriteU32(DELETE_MESSAGES);
    var _ :- writer.WriteU32(if revoke then 1 else 0);
    r := WriteInts(writer, ids);
  }

  // ----- messages.editMessage ---------------------------------------------------------------------------------

  function WithBit(word: u32, b: nat, on: bool): u32
    requires b < 32
  {
    if on then OrBit(word, b) else word
  }

  lemma SetsBit(word: u32, b: nat, on: bool)
    requires b < 32
    ensures forall c :: 0 <= c < 32 ==> (Bit(WithBit(word, b, on), c) <==> (on && c == b) || Bit(word, c))
  {
    hide Bit, OrBit;
    SetBits(word, b);
  }

  datatype Edit = Edit(peer: Peer, messageId: i32, text: bytes, noWebpage: bool, invertMedia: bool) {
    function Flags(): u32 {
      WithBit(WithBit(OrBit(0, 11), 1, noWebpage), 16, invertMedia)
    }

    function Values(): seq<Value> {
      [Flag(noWebpage), Flag(invertMedia), PeerValue(peer), Int(messageId), Str(text)]
    }
  }

  lemma EditSlots(i: nat)
    requires i <= 13
    ensures Slot(EDIT_MESSAGE_FIELDS, i) == if i == 0 then 0 else i - 1
  {
    SlotBeside(EDIT_MESSAGE_FIELDS, 0, i);
  }

  lemma EditSupplied(e: Edit, j: nat)
    requires j < 13
    ensures Supplied(EDIT_MESSAGE_FIELDS, e.Values(), j) <==> (j == 1 && e.noWebpage) || (j == 2 && e.invertMedia) || j == 5
  {
    hide Slot;
    EditSlots(j);
  }

  lemma EditFlags(e: Edit)
    requires WellFormed(EDIT_MESSAGE_FIELDS)
    ensures FlagsWord(EDIT_MESSAGE_FIELDS, e.Values(), 0) == e.Flags()
  {
    hide Bit, Slot, FlagsWord, Supplied, OrBit, WithBit, Edit.Values;
    var fields, values := EDIT_MESSAGE_FIELDS, e.Values();
    ClearWord();
    SetBits(0, 11);
    SetsBit(OrBit(0, 11), 1, e.noWebpage);
    SetsBit(WithBit(OrBit(0, 11), 1, e.noWebpage), 16, e.invertMedia);
    forall b | 0 <= b < 32 ensures Bit(e.Flags(), b) <==> SomeSupplied(fields, values, 0, b, 13) {
      EditSupplied(e, 1);
      EditSupplied(e, 2);
      EditSupplied(e, 5);
      assert GatedBy(fields[1], 0, 1) && GatedBy(fields[2], 0, 16) && GatedBy(fields[5], 0, 11);
      if SomeSupplied(fields, values, 0, b, 13) {
        var j :| 0 <= j < 13 && GatedBy(fields[j], 0, b) && Supplied(fields, values, j);
        EditSupplied(e, j);
      }
    }
    FlagsAre(fields, values, e.Flags());
  }

  lemma EditTail(table: Table, e: Edit)
    requires HasRow(table, EDIT_MESSAGE, EDIT_MESSAGE_FIELDS)
    ensures FieldsText(table, EDIT_MESSAGE_FIELDS, e.Values(), 6) == Ok([])
  {
    hide FieldsText, FlagsWord, ValueText, Slot;
    var fields, values := EDIT_MESSAGE_FIELDS, e.Values();
    forall k | 6 <= k < 13 ensures FieldText(table, fields, values, k) == Ok([]) {
      EditSlots(k);
    }
    SilentRun(table, fields, values, 6, 13);
    NothingAfterLast(table, fields, values);
  }

  lemma EditFieldTexts(table: Table, e: Edit)
    requires HasRow(table, EDIT_MESSAGE, EDIT_MESSAGE_FIELDS)
    ensures var fields, values := EDIT_MESSAGE_FIELDS, e.Values();
      && FieldText(table, fields, values, 0) == Ok(Le32(e.Flags()))
      && FieldText(table, fields, values, 1) == Ok([])
      && FieldText(table, fields, values, 2) == Ok([])
      && FieldText(table, fields, values, 3) == Ok(PeerText(e.peer))
      && FieldText(table, fields, values, 4) == Ok(EncodeI32(e.messageId))
      && FieldText(table, fields, values, 5) == BytesText(e.text)
  {
    hide FlagsWord, Slot, Le32, PeerText, EncodeI32, BytesText, Edit.Flags;
    EditFlags(e);
    assert EDIT_MESSAGE_FIELDS[0].IsFlags() && EDIT_MESSAGE_FIELDS[0].flagsField == 0;
    assert EDIT_MESSAGE_FIELDS[1].IsBit() && EDIT_MESSAGE_FIELDS[2].IsBit();
    EditSlots(3);
    EditSlots(4);
    EditSlots(5);
  }

  lemma EditText(table: Table, e: Edit)
    requires HasRow(table, EDIT_MESSAGE, EDIT_MESSAGE_FIELDS)
    ensures ObjectText(table, EDIT_MESSAGE, e.Values())
         == match BytesText(e.text)
            case Ok(text) => Ok(Le32(0xb106_e66c) + Le32(e.Flags()) + PeerText(e.peer) + EncodeI32(e.messageId) + text)
            case Err(kind) => Err(kind)
  {
    hide FieldsText, FieldText, Slot, Le32, PeerText, EncodeI32, BytesText, Edit.Flags;
    var fields, values := EDIT_MESSAGE_FIELDS, e.Values();
    EditSlots(13);
    EditFieldTexts(table, e);
    FieldThenRest(table, fields, values, 0);
    SilentRun(table, fields, values, 1, 3);
    FieldThenRest(table, fields, values, 3);
    FieldThenRest(table, fields, values, 4);
    FieldThenRest(table, fields, values, 5);
    EditTail(table, e);
    if BytesText(e.text).Ok? {
      FiveParts(Le32(EDIT_MESSAGE), Le32(e.Flags()), PeerText(e.peer), EncodeI32(e.messageId), BytesText(e.text).value);
    }
  }

  // What is written before the text is refused.
  lemma EditPrefix(table: Table, e: Edit)
    requires HasRow(table, EDIT_MESSAGE, EDIT_MESSAGE_FIELDS) && BytesText(e.text).Err?
    ensures ObjectPrefix(table, EDIT_MESSAGE, e.Values())
         == Le32(EDIT_MESSAGE) + Le32(e.Flags()) + PeerText(e.peer) + EncodeI32(e.messageId)
  {
    hide FieldsPrefix, FieldPrefix, FieldText, Slot, Le32, PeerText, EncodeI32, BytesText, Edit.Flags;
    var fields, values := EDIT_MESSAGE_FIELDS, e.Values();
    EditSlots(13);
    EditSlots(5);
    EditFieldTexts(table, e);
    PrefixThenRest(table, fields, values, 0);
    SilentPrefix(table, fields, values, 1, 3);
    PrefixThenRest(table, fields, values, 3);
    PrefixThenRest(table, fields, values, 4);
    PrefixThenRest(table, fields, values, 5);
    NothingOfRefused(table, fields, values, 5, 4);
    assert EncodeI32(e.messageId) + [] == EncodeI32(e.messageId);
    RegroupFour(Le32(EDIT_MESSAGE), Le32(e.Flags()), PeerText(e.peer), EncodeI32(e.messageId));
  }

  lemma FiveParts(a: bytes, b: bytes, c: bytes, d: bytes, e: bytes)
    ensures a + (b + (c + (d + (e + [])))) == a + b + c + d + e
  {
    assert e + [] == e;
    RegroupFour(b, c, d, e);
    Regroup(a, b + c + d, e);
    RegroupFour(a, b, c, d);
    Regroup(b, c, d);
  }

  method WriteEditHead(writer: Writer, flags: u32, peer: Peer) returns (r: Result<()>)
    requires writer.Valid()
    modifies writer, writer.output
    ensures writer.Valid() && writer.Appends(Le32(EDIT_MESSAGE) + Le32(flags) + PeerText(peer), r)
  {
    hide Writer.Valid, PeerText, Le32;
    var _ :- writer.WriteU32(EDIT_MESSAGE);
    var _ :- writer.WriteU32(flags);
    r := WritePeer(writer, peer);
  }

  method WriteEditMessageText(writer: Writer, ghost table: Table, e: Edit) returns (r: Result<()>)
    requires writer.Valid() && HasRow(table, EDIT_MESSAGE, EDIT_MESSAGE_FIELDS)
    modifies writer, writer.output
    ensures writer.Valid()
    ensures EmitsUpTo(writer, ObjectText(table, EDIT_MESSAGE, e.Values()), ObjectPrefix(table, EDIT_MESSAGE, e.Values()), r)
  {
    hide Writer.Valid, ObjectText, ObjectPrefix, Le32, PeerText, EncodeI32, BytesText, OrBit, Edit.Values;
    EditText(table, e);
    if BytesText(e.text).Err? {
      EditPrefix(table, e);
    }
    var flags := OrBit(0, 11);
    if e.noWebpage {
      flags := OrBit(flags, 1);
    }
    if e.invertMedia {
      flags := OrBit(flags, 16);
    }
    assert flags == e.Flags();
    hide Edit.Flags;
    var _ :- WriteEditHead(writer, flags, e.peer);
    var _ :- writer.WriteI32(e.messageId);
    r := WriteText(writer, e.text);
  }
}
