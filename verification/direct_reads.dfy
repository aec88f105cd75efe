/** What the hand-written message writers emit is read back by the schema's reader, peers and replies as boxed objects. */
module DirectReads {
  import opened Outcomes
  import opened Bytes
  import opened TlCodec
  import opened Schema
  import opened SchemaDecoder
  import opened SchemaRoundTrip
  import opened DirectWriters
  import opened SendMessage
  import opened SchemaSugar
  import opened SchemaNormal

  // ----- rows without shared bits and values without nested objects ------------------------------------------

  ghost predicate DistinctGates(fields: seq<Field>) {
    forall i, j :: 0 <= i < |fields| && 0 <= j < |fields| && SameGate(fields[i], fields[j]) ==> i == j
  }

  predicate NoneBoxed(values: seq<Value>) {
    forall k :: 0 <= k < |values| ==> !values[k].Boxed?
  }

  // The value for the field is one its type takes, or is left out where that is allowed.
  predicate Fits(table: Table, fields: seq<Field>, values: seq<Value>, i: nat)
    requires i < |fields|
  {
    var field, slot := fields[i], Slot(fields, i);
    || field.IsFlags() || field.IsBit()
    || (field.IsGated() && (slot >= |values| || values[slot].Skip?))
    || (slot < |values| && Typed(table, field.ty, NormalValue(table, field.ty, values[slot])))
  }

  lemma {:induction false} FittingIsTyped(table: Table, id: u32, values: seq<Value>)
    requires id in table && |values| <= Slot(table[id].fields, |table[id].fields|)
    requires forall i :: 0 <= i < |table[id].fields| ==> Fits(table, table[id].fields, values, i)
    ensures TypedObject(table, id, Normal(table, id, values))
  {
    hide NormalUpTo, NormalField, TypedField, TypedFrom, Fits, Slot;
    var fields := table[id].fields;
    var normal := NormalUpTo(table, fields, values, |fields|);
    forall i | 0 <= i < |fields| ensures TypedField(table, fields, normal, i) {
      FittingField(table, fields, values, i);
    }
    AllTyped(table, fields, normal, 0);
  }

  lemma FittingField(table: Table, fields: seq<Field>, values: seq<Value>, i: nat)
    requires i < |fields| && Fits(table, fields, values, i)
    ensures TypedField(table, fields, NormalUpTo(table, fields, values, |fields|), i)
  {
    hide NormalUpTo, NormalValue, Slot, Typed;
    if !fields[i].IsFlags() {
      NormalAt(table, fields, values, i, |fields|);
      SkipIsNormal(table, fields[i].ty);
    }
  }

  lemma DistinctAgree(fields: seq<Field>, values: seq<Value>)
    requires DistinctGates(fields)
    ensures Agree(fields, values)
  {
    hide Supplied, SameGate;
  }

  lemma PeerAgrees(table: Table, peer: Peer)
    requires HasPeerRows(table)
    ensures AgreeingValue(table, BoxedPeer(peer))
  {
    hide Supplied;
    var boxed := BoxedPeer(peer);
    forall k | 0 <= k < |boxed.values| ensures AgreeingValue(table, boxed.values[k]) {
    }
  }

  lemma ReplyGates()
    ensures DistinctGates(REPLY_FIELDS)
  {
    var fields := REPLY_FIELDS;
    forall i | 0 <= i < 10 && fields[i].IsGated() ensures fields[i].flagsBit == i - 2 {
    }
  }

  lemma ReplyAgrees(table: Table, messageId: i32)
    requires HasRow(table, INPUT_REPLY_TO_MESSAGE, REPLY_FIELDS)
    ensures AgreeingValue(table, BoxedReply(messageId))
  {
    hide Supplied, DistinctGates, Agree;
    var boxed := BoxedReply(messageId);
    ReplyGates();
    DistinctAgree(REPLY_FIELDS, boxed.values);
    forall k | 0 <= k < |boxed.values| ensures AgreeingValue(table, boxed.values[k]) {
    }
  }

  lemma FlatValueAgrees(table: Table, ty: string, v: Value)
    requires HasSugarRows(table) && !v.Boxed?
    ensures AgreeingValue(table, NormalValue(table, ty, v))
  {
    hide Agree, BoxedPeer, BoxedReply;
    match v {
      case PeerValue(peer) => PeerAgrees(table, peer);
      case ReplyTo(messageId) => ReplyAgrees(table, messageId);
      case Empty(id) => assert id in table && table[id].fields == [] ==> Agree([], []) by { DistinctAgree([], []); }
      case _ =>
    }
  }

  lemma {:induction false} FlatValuesAgree(table: Table, fields: seq<Field>, values: seq<Value>, i: nat)
    requires HasSugarRows(table) && NoneBoxed(values) && i <= |fields|
    ensures forall v :: v in NormalUpTo(table, fields, values, i) ==> AgreeingValue(table, v)
    decreases i
  {
    hide AgreeingValue, NormalValue, Slot;
    if i > 0 {
      FlatValuesAgree(table, fields, values, i - 1);
      if Slot(fields, i - 1) < |values| {
        FlatValueAgrees(table, fields[i - 1].ty, values[Slot(fields, i - 1)]);
      }
      PlainAgrees(table);
    }
  }

  lemma PlainAgrees(table: Table)
    ensures AgreeingValue(table, Skip) && AgreeingValue(table, True) && AgreeingValue(table, False)
  {
  }

  lemma FlatAgrees(table: Table, id: u32, values: seq<Value>)
    requires HasSugarRows(table) && id in table && DistinctGates(table[id].fields)
    requires NoneBoxed(values) && |values| <= Slot(table[id].fields, |table[id].fields|)
    ensures Agreeing(table, id, Normal(table, id, values))
  {
    hide AgreeingValue, NormalUpTo, DistinctGates, Agree, Slot;
    var normal := NormalUpTo(table, table[id].fields, values, |table[id].fields|);
    FlatValuesAgree(table, table[id].fields, values, |table[id].fields|);
    DistinctAgree(table[id].fields, normal);
    assert forall k :: 0 <= k < |normal| ==> normal[k] in normal;
  }

  // Such values are read back in their normal form.
  lemma FlatIsRead(table: Table, id: u32, values: seq<Value>, rest: bytes)
    requires HasSugarRows(table) && id in table && DistinctGates(table[id].fields)
    requires NoneBoxed(values) && |values| <= Slot(table[id].fields, |table[id].fields|)
    requires forall i :: 0 <= i < |table[id].fields| ==> Fits(table, table[id].fields, values, i)
    requires ObjectText(table, id, values).Ok?
    ensures ReadObject(table, ObjectText(table, id, values).value + rest) == Ok(((id, Normal(table, id, values)), rest))
  {
    hide ReadObject, ObjectText, TypedObject, Agreeing, Normal, DistinctGates, Fits, Slot;
    FittingIsTyped(table, id, values);
    FlatAgrees(table, id, values);
    NormalIsRecovered(table, id, values, rest);
  }

  // ----- the types of peers and replies -------------------------------------------------------------------------

  lemma LongsTyped(table: Table, id: u32, fields: seq<Field>, values: seq<Value>)
    requires HasRow(table, id, fields) && |values| == |fields|
    requires forall i :: 0 <= i < |fields| ==> fields[i].ty == "long" && !fields[i].IsGated() && values[i].Long?
    ensures TypedObject(table, id, values)
  {
    hide Slot, TypedField, TypedFrom;
    PlainSlot(fields, |fields|);
    forall i | 0 <= i < |fields| ensures TypedField(table, fields, values, i) {
      LongTyped(table, fields, values, i);
    }
    AllTyped(table, fields, values, 0);
  }

  lemma LongTyped(table: Table, fields: seq<Field>, values: seq<Value>, i: nat)
    requires i < |fields| == |values| && forall j :: 0 <= j < |fields| ==> !fields[j].IsFlags()
    requires fields[i].ty == "long" && values[i].Long?
    ensures TypedField(table, fields, values, i)
  {
    hide Slot;
    PlainSlot(fields, i);
  }

  lemma PeerTyped(table: Table, peer: Peer)
    requires HasPeerRows(table)
    ensures Typed(table, "InputPeer", BoxedPeer(peer))
  {
    hide TypedObject;
    match peer {
      case Self => LongsTyped(table, INPUT_PEER_SELF, [], []);
      case User(user, hash) => LongsTyped(table, INPUT_PEER_USER, PEER_FIELDS, [Long(user), Long(hash)]);
      case Channel(channel, hash) => LongsTyped(table, INPUT_PEER_CHANNEL, CHANNEL_FIELDS, [Long(channel), Long(hash)]);
      case Chat(chat) => LongsTyped(table, INPUT_PEER_CHAT, CHAT_FIELDS, [Long(chat)]);
    }
  }

  lemma ReplyTyped(table: Table, messageId: i32)
    requires HasRow(table, INPUT_REPLY_TO_MESSAGE, REPLY_FIELDS)
    ensures Typed(table, "InputReplyTo", BoxedReply(messageId))
  {
    hide Slot, TypedField, TypedFrom;
    var values := BoxedReply(messageId).values;
    SlotBeside(REPLY_FIELDS, 0, 10);
    forall i | 0 <= i < 10 ensures TypedField(table, REPLY_FIELDS, values, i) {
      ReplyFieldTyped(table, values, messageId, i);
    }
    AllTyped(table, REPLY_FIELDS, values, 0);
  }

  lemma ReplyFieldTyped(table: Table, values: seq<Value>, messageId: i32, i: nat)
    requires values == [Int(messageId)] + NO_OPTIONS && i < 10
    ensures TypedField(table, REPLY_FIELDS, values, i)
  {
    hide Slot;
    SlotBeside(REPLY_FIELDS, 0, i);
    if i > 1 {
      assert values[i - 1] == Skip && REPLY_FIELDS[i].IsGated();
    }
  }

  // ----- messages.editMessage and messages.sendMessage --------------------------------------------------------------

  // The place of the field a bit gates.
  function EditPlace(bit: nat): nat {
    match bit
    case 1 => 1 case 16 => 2 case 11 => 5 case 14 => 6 case 2 => 7 case 3 => 8
    case 15 => 9 case 18 => 10 case 17 => 11 case _ => 12
  }

  lemma EditGates()
    ensures DistinctGates(EDIT_MESSAGE_FIELDS)
  {
    var fields := EDIT_MESSAGE_FIELDS;
    forall i | 0 <= i < 13 && fields[i].IsGated() ensures EditPlace(fields[i].flagsBit) == i {
    }
  }

  function SendPlace(bit: nat): nat {
    match bit
    case 1 => 2 case 5 => 3 case 6 => 4 case 7 => 5 case 14 => 6 case 15 => 7 case 16 => 8 case 19 => 9 case 0 => 11
    case 2 => 14 case 3 => 15 case 10 => 16 case 24 => 17 case 13 => 18 case 17 => 19 case 18 => 20 case 21 => 21
    case 22 => 22 case _ => 23
  }

  lemma SendGates()
    ensures DistinctGates(SEND_MESSAGE_FIELDS)
  {
    var fields := SEND_MESSAGE_FIELDS;
    forall i | 0 <= i < 24 && fields[i].IsGated() ensures SendPlace(fields[i].flagsBit) == i {
    }
  }

  lemma EditFits(table: Table, e: Edit, i: nat)
    requires HasSugarRows(table) && i < 13
    ensures Fits(table, EDIT_MESSAGE_FIELDS, e.Values(), i)
  {
    hide Slot, NormalValue, Typed;
    EditSlots(i);
    PeerFits(table, e.peer);
    BareFits(table);
    if i >= 6 {
      assert EDIT_MESSAGE_FIELDS[i].IsGated();
    }
  }

  lemma PeerFits(table: Table, peer: Peer)
    requires HasPeerRows(table)
    ensures Typed(table, "InputPeer", NormalValue(table, "InputPeer", PeerValue(peer)))
  {
    hide Typed, BoxedPeer;
    PeerTyped(table, peer);
  }

  lemma BareFits(table: Table)
    ensures forall x :: Typed(table, "int", NormalValue(table, "int", Int(x)))
    ensures forall x :: Typed(table, "long", NormalValue(table, "long", Long(x)))
    ensures forall x :: Typed(table, "string", NormalValue(table, "string", Str(x)))
  {
  }

  lemma EditFlat(e: Edit)
    ensures NoneBoxed(e.Values()) && |e.Values()| == 5
  {
  }

  // The peer as a boxed object, and everything after the text skipped.
  function EditRead(e: Edit): seq<Value> {
    e.Values()[2 := BoxedPeer(e.peer)] + seq(7, _ => Skip)
  }

  lemma NormalEdit(table: Table, e: Edit)
    requires EDIT_MESSAGE in table && table[EDIT_MESSAGE].fields == EDIT_MESSAGE_FIELDS
    ensures Normal(table, EDIT_MESSAGE, e.Values()) == EditRead(e)
  {
    hide NormalUpTo, NormalField, Slot, Edit.Values, EditRead;
    var fields := EDIT_MESSAGE_FIELDS;
    var normal := NormalUpTo(table, fields, e.Values(), 13);
    EditSlots(13);
    EditFlat(e);
    forall k | 0 <= k < 12 ensures k < |EditRead(e)| && normal[k] == EditRead(e)[k] {
      EditSlots(k + 1);
      NormalEditField(table, e, k);
      NormalAt(table, fields, e.Values(), k + 1, 13);
    }
    EditReadLength(e);
  }

  lemma EditReadLength(e: Edit)
    ensures |EditRead(e)| == 12
  {
  }

  lemma NormalEditField(table: Table, e: Edit, k: nat)
    requires k < 12
    ensures !EDIT_MESSAGE_FIELDS[k + 1].IsFlags() && |EditRead(e)| == 12
    ensures NormalField(table, EDIT_MESSAGE_FIELDS, e.Values(), k + 1) == EditRead(e)[k]
  {
    hide Slot, BoxedPeer;
    EditSlots(k + 1);
  }

  // What an edit writes is read back.
  lemma EditIsRead(table: Table, e: Edit, rest: bytes)
    requires HasSugarRows(table) && HasRow(table, EDIT_MESSAGE, EDIT_MESSAGE_FIELDS) && |e.text| <= MAX_BYTES_LENGTH
    ensures var text := ObjectText(table, EDIT_MESSAGE, e.Values());
      text.Ok? && ReadObject(table, text.value + rest) == Ok(((EDIT_MESSAGE, EditRead(e)), rest))
  {
    hide ObjectText, ReadObject, Normal, Fits, NoneBoxed, DistinctGates, Slot, Edit.Values, EditRead;
    EditTextFits(table, e);
    EditGates();
    EditSlots(13);
    EditFlat(e);
    forall i | 0 <= i < 13 ensures Fits(table, EDIT_MESSAGE_FIELDS, e.Values(), i) {
      EditFits(table, e, i);
    }
    FlatIsRead(table, EDIT_MESSAGE, e.Values(), rest);
    NormalEdit(table, e);
  }

  lemma EditTextFits(table: Table, e: Edit)
    requires HasRow(table, EDIT_MESSAGE, EDIT_MESSAGE_FIELDS) && |e.text| <= MAX_BYTES_LENGTH
    ensures ObjectText(table, EDIT_MESSAGE, e.Values()).Ok?
  {
    hide ObjectText, EncodeBytes, Edit.Values, Edit.Flags, Le32;
    EditText(table, e);
  }

  lemma SendFits(table: Table, s: Send, i: nat)
    requires HasSugarRows(table) && i < 24
    ensures Fits(table, SEND_MESSAGE_FIELDS, s.Values(), i)
  {
    hide Slot, NormalValue, Typed, Options.Has;
    SendSlots(i);
    if 2 <= i < 10 {
      OptionFields(i - 2);
    } else if i >= 14 {
      TailIsGated(i);
    } else {
      LaterFields();
      PeerFits(table, s.peer);
      BareFits(table);
      if s.reply.Some? {
        ReplyFits(table, s.reply.value);
      }
    }
  }

  lemma ReplyFits(table: Table, messageId: i32)
    requires HasRow(table, INPUT_REPLY_TO_MESSAGE, REPLY_FIELDS)
    ensures Typed(table, "InputReplyTo", NormalValue(table, "InputReplyTo", ReplyTo(messageId)))
  {
    hide Typed, BoxedReply;
    ReplyTyped(table, messageId);
  }

  lemma SendFlat(s: Send)
    ensures NoneBoxed(s.Values()) && |s.Values()| == 13
  {
    hide Options.Has;
  }

  // The peer and the reply as boxed objects, and everything after the random number skipped.
  function SendRead(s: Send): seq<Value> {
    s.Values()[9 := BoxedPeer(s.peer)][10 := if s.reply.Some? then BoxedReply(s.reply.value) else Skip] + seq(10, _ => Skip)
  }

  lemma NormalSend(table: Table, s: Send)
    requires SEND_MESSAGE in table && table[SEND_MESSAGE].fields == SEND_MESSAGE_FIELDS
    ensures Normal(table, SEND_MESSAGE, s.Values()) == SendRead(s)
  {
    hide NormalUpTo, Slot, SendRead, Send.Values;
    var fields := SEND_MESSAGE_FIELDS;
    var normal := NormalUpTo(table, fields, s.Values(), 24);
    SendSlots(24);
    SendFlat(s);
    assert |SendRead(s)| == 23 by {
      SendReadLength(s);
    }
    forall k | 0 <= k < 23 ensures normal[k] == SendRead(s)[k] {
      NormalSendField(table, s, k);
    }
  }

  lemma SendReadLength(s: Send)
    ensures |SendRead(s)| == 23
  {
    hide Options.Has;
  }

  lemma NormalSendField(table: Table, s: Send, k: nat)
    requires k < 23
    ensures Slot(SEND_MESSAGE_FIELDS, 24) == 23
    ensures NormalUpTo(table, SEND_MESSAGE_FIELDS, s.Values(), 24)[k] == SendRead(s)[k]
  {
    hide NormalUpTo, NormalField, Slot, SendRead, Send.Values;
    var i := if k == 0 then 0 else k + 1;
    SendSlots(24);
    SendSlots(i);
    if 1 <= k <= 8 {
      NormalOption(table, s, k);
    } else if k >= 13 {
      NormalTail(table, s, k);
    } else {
      NormalArgument(table, s, k);
    }
    SendNotFlags(i);
    NormalAt(table, SEND_MESSAGE_FIELDS, s.Values(), i, 24);
  }

  lemma SendNotFlags(i: nat)
    requires i < 24 && i != 1
    ensures !SEND_MESSAGE_FIELDS[i].IsFlags()
  {
    assert DeclaredAt(SEND_MESSAGE_FIELDS, 1);
  }

  lemma NormalOption(table: Table, s: Send, k: nat)
    requires 1 <= k <= 8
    ensures NormalField(table, SEND_MESSAGE_FIELDS, s.Values(), k + 1) == SendRead(s)[k]
  {
    hide Slot, BoxedPeer, BoxedReply, NormalValue, Options.Has;
    SendSlots(k + 1);
    OptionFields(k - 1);
    OptionValue(s, k);
  }

  lemma NormalTail(table: Table, s: Send, k: nat)
    requires 13 <= k < 23
    ensures NormalField(table, SEND_MESSAGE_FIELDS, s.Values(), k + 1) == SendRead(s)[k]
  {
    hide Slot, BoxedPeer, BoxedReply, NormalValue, Options.Has;
    SendSlots(k + 1);
    assert !SEND_MESSAGE_FIELDS[k + 1].IsBit();
  }

  lemma NormalArgument(table: Table, s: Send, k: nat)
    requires k == 0 || 9 <= k < 13
    ensures NormalField(table, SEND_MESSAGE_FIELDS, s.Values(), if k == 0 then 0 else k + 1) == SendRead(s)[k]
  {
    hide Slot, NormalField, NormalValue, Send.Values, SendRead;
    var i := if k == 0 then 0 else k + 1;
    SendSlots(i);
    SendArguments(s);
    SendArgumentTypes(i);
    NormalIsValue(table, SEND_MESSAGE_FIELDS, s.Values(), i, k);
    NormalForms(table, s);
  }

  lemma NormalIsValue(table: Table, fields: seq<Field>, values: seq<Value>, i: nat, slot: nat)
    requires i < |fields| && slot == Slot(fields, i) < |values| && !fields[i].IsBit()
    ensures NormalField(table, fields, values, i) == NormalValue(table, fields[i].ty, values[slot])
  {
    hide Slot, NormalValue;
  }

  lemma NormalForms(table: Table, s: Send)
    ensures NormalValue(table, "InputPeer", PeerValue(s.peer)) == BoxedPeer(s.peer)
    ensures NormalValue(table, "InputReplyTo", s.ReplyValue()) == if s.reply.Some? then BoxedReply(s.reply.value) else Skip
    ensures forall x :: NormalValue(table, "long", Long(x)) == Long(x)
    ensures NormalValue(table, "string", Str(s.text)) == Str(s.text)
  {
    hide BoxedPeer, BoxedReply;
  }

  lemma SendArgumentTypes(i: nat)
    requires i == 0 || 10 <= i < 14
    ensures var field := SEND_MESSAGE_FIELDS[i];
      !field.IsBit() && field.ty == match i {
        case 10 => "InputPeer" case 11 => "InputReplyTo" case 12 => "string" case _ => "long" }
  {
    LaterFields();
  }

  // The arguments given and read, without the options.
  lemma SendArguments(s: Send)
    ensures var given, read := s.Values(), SendRead(s);
      && |given| == 13 && given[0] == Long(0) == read[0] && given[9] == PeerValue(s.peer) && read[9] == BoxedPeer(s.peer)
      && given[10] == s.ReplyValue() && read[10] == (if s.reply.Some? then BoxedReply(s.reply.value) else Skip)
      && given[11] == Str(s.text) == read[11] && given[12] == Long(s.randomId) == read[12]
  {
    hide BoxedPeer, BoxedReply, Options.Has;
  }

  lemma OptionValue(s: Send, k: nat)
    requires 1 <= k <= 8
    ensures s.Values()[k] == Flag(s.options.Has(k - 1))
  {
    hide Options.Has;
  }

  // What a message with or without a reply writes is read back.
  lemma SendIsRead(table: Table, s: Send, rest: bytes)
    requires HasSugarRows(table) && HasRow(table, SEND_MESSAGE, SEND_MESSAGE_FIELDS)
    requires s.options.Valid() && |s.text| <= MAX_BYTES_LENGTH
    ensures var text := ObjectText(table, SEND_MESSAGE, s.Values());
      text.Ok? && ReadObject(table, text.value + rest) == Ok(((SEND_MESSAGE, SendRead(s)), rest))
  {
    hide ObjectText, ReadObject, Normal, Fits, NoneBoxed, DistinctGates, Slot, Options.Valid, Send.Values, SendRead;
    SendTextFits(table, s);
    SendGates();
    SendSlots(24);
    SendFlat(s);
    forall i | 0 <= i < 24 ensures Fits(table, SEND_MESSAGE_FIELDS, s.Values(), i) {
      SendFits(table, s, i);
    }
    FlatIsRead(table, SEND_MESSAGE, s.Values(), rest);
    NormalSend(table, s);
  }

  lemma SendTextFits(table: Table, s: Send)
    requires HasRow(table, SEND_MESSAGE, SEND_MESSAGE_FIELDS) && s.options.Valid() && |s.text| <= MAX_BYTES_LENGTH
    ensures ObjectText(table, SEND_MESSAGE, s.Values()).Ok?
  {
    hide ObjectText, EncodeBytes, Options.Valid, Send.Values, Send.Flags, HeadText, Le32;
    SendText(table, s);
  }
}
