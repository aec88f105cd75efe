/** messages.sendMessage with an optional reply, written by hand and by the schema. */
module SendMessage {
  import opened Outcomes
  import opened Bytes
  import opened TlCodec
  import opened TlWriter
  import opened Schema
  import opened SchemaWriter
  import opened DirectWriters

  // The bits a caller can set, in the order of their fields.
  const OPTION_BITS: seq<nat> := [1, 5, 6, 7, 14, 15, 16, 19]

  datatype Options = Options(word: u32) {
    // Only reachable words: the builders set no other bits.
    ghost predicate Valid() {
      forall b :: 0 <= b < 32 && Bit(word, b) ==> b in OPTION_BITS
    }

    predicate Has(k: nat)
      requires k < 8
    {
      Bit(word, OPTION_BITS[k])
    }

    function With(k: nat): Options
      requires k < 8
    {
      Options(OrBit(word, OPTION_BITS[k]))
    }
  }

  const EMPTY := Options(0)

  lemma EmptyHasNothing()
    ensures EMPTY.Valid() && forall k :: 0 <= k < 8 ==> !EMPTY.Has(k)
  {
    ClearWord();
  }

  lemma BuilderSetsOneOption(o: Options, k: nat)
    requires o.Valid() && k < 8
    ensures o.With(k).Valid() && forall j :: 0 <= j < 8 ==> (o.With(k).Has(j) <==> j == k || o.Has(j))
  {
    hide Bit, OrBit;
    SetBits(o.word, OPTION_BITS[k]);
  }

  // The options of a chain of builder calls.
  function Built(calls: seq<nat>): Options
    requires forall i :: 0 <= i < |calls| ==> calls[i] < 8
  {
    if calls == [] then EMPTY else Built(calls[..|calls| - 1]).With(calls[|calls| - 1])
  }

  // Every chain of builders yields exactly the options it names.
  lemma {:induction false} BuiltOptions(calls: seq<nat>)
    requires forall i :: 0 <= i < |calls| ==> calls[i] < 8
    ensures Built(calls).Valid() && forall k :: 0 <= k < 8 ==> (Built(calls).Has(k) <==> k in calls)
  {
    hide Options.Valid, Options.Has, Options.With;
    if calls == [] {
      EmptyHasNothing();
    } else {
      var earlier, last := calls[..|calls| - 1], calls[|calls| - 1];
      BuiltOptions(earlier);
      BuilderSetsOneOption(Built(earlier), last);
      assert calls == earlier + [last];
    }
  }

  datatype Send = Send(peer: Peer, text: bytes, randomId: i64, options: Options, reply: Option<i32>) {
    function ReplyValue(): Value {
      if reply.Some? then ReplyTo(reply.value) else Skip
    }

    function Values(): seq<Value> {
      [Long(0), Flag(options.Has(0)), Flag(options.Has(1)), Flag(options.Has(2)), Flag(options.Has(3)),
       Flag(options.Has(4)), Flag(options.Has(5)), Flag(options.Has(6)), Flag(options.Has(7)),
       PeerValue(peer), ReplyValue(), Str(text), Long(randomId)]
    }

    function Flags(): u32 {
      WithBit(options.word, 0, reply.Some?)
    }

    function OptionalReplyText(): bytes {
      if reply.Some? then ReplyText(reply.value) else []
    }
  }

  lemma SendSlots(i: nat)
    requires i <= 24
    ensures Slot(SEND_MESSAGE_FIELDS, i) == if i <= 1 then i else i - 1
  {
    SlotBeside(SEND_MESSAGE_FIELDS, 1, i);
  }

  lemma OptionFields(k: nat)
    requires k < 8
    ensures var field := SEND_MESSAGE_FIELDS[2 + k]; field.IsBit() && GatedBy(field, 0, OPTION_BITS[k])
  {
  }

  lemma OptionSupplied(s: Send, k: nat)
    requires k < 8
    ensures Supplied(SEND_MESSAGE_FIELDS, s.Values(), 2 + k) <==> s.options.Has(k)
  {
    hide Slot, Options.Has;
    SendSlots(2 + k);
    OptionFields(k);
    assert s.Values()[1 + k] == Flag(s.options.Has(k));
  }

  lemma OtherSupplied(s: Send, j: nat)
    requires j < 2 || 10 <= j < 24
    ensures Supplied(SEND_MESSAGE_FIELDS, s.Values(), j) <==> j == 11 && s.reply.Some?
  {
    hide Slot, Options.Has;
    SendSlots(j);
    if j < 14 {
      assert j == 0 || j == 1 || j == 10 || j == 11 || j == 12 || j == 13;
    }
  }

  lemma SendFlags(s: Send)
    requires WellFormed(SEND_MESSAGE_FIELDS) && s.options.Valid()
    ensures FlagsWord(SEND_MESSAGE_FIELDS, s.Values(), 0) == s.Flags()
  {
    hide Bit, Slot, FlagsWord, Supplied, OrBit, WithBit, Send.Values;
    var fields, values := SEND_MESSAGE_FIELDS, s.Values();
    SetsBit(s.options.word, 0, s.reply.Some?);
    forall b | 0 <= b < 32 ensures Bit(s.Flags(), b) <==> SomeSupplied(fields, values, 0, b, 24) {
      SendBit(s, b);
    }
    FlagsAre(fields, values, s.Flags());
  }

  lemma SendBit(s: Send, b: nat)
    requires s.options.Valid() && b < 32
    ensures SomeSupplied(SEND_MESSAGE_FIELDS, s.Values(), 0, b, 24) <==> (b == 0 && s.reply.Some?) || Bit(s.options.word, b)
  {
    hide Bit, Slot, Supplied, Send.Values, Field.IsGated, Options.Has;
    var fields, values := SEND_MESSAGE_FIELDS, s.Values();
    if Bit(s.options.word, b) {
      OptionIsSupplied(s, b);
    }
    if b == 0 && s.reply.Some? {
      OtherSupplied(s, 11);
      ReplyField();
    }
    if SomeSupplied(fields, values, 0, b, 24) {
      var j :| 0 <= j < 24 && GatedBy(fields[j], 0, b) && Supplied(fields, values, j);
      SuppliedIsOption(s, b, j);
    }
  }

  lemma OptionIsSupplied(s: Send, b: nat)
    requires s.options.Valid() && b < 32 && Bit(s.options.word, b)
    ensures SomeSupplied(SEND_MESSAGE_FIELDS, s.Values(), 0, b, 24)
  {
    hide Bit, Slot, Supplied, Send.Values, Field.IsGated;
    var k :| 0 <= k < 8 && OPTION_BITS[k] == b;
    OptionFields(k);
    OptionSupplied(s, k);
  }

  lemma SuppliedIsOption(s: Send, b: nat, j: nat)
    requires j < 24 && GatedBy(SEND_MESSAGE_FIELDS[j], 0, b) && Supplied(SEND_MESSAGE_FIELDS, s.Values(), j)
    ensures (b == 0 && s.reply.Some?) || Bit(s.options.word, b)
  {
    hide Bit, Slot, Supplied, Send.Values, Field.IsGated;
    if 2 <= j < 10 {
      OptionFields(j - 2);
      OptionSupplied(s, j - 2);
    } else {
      OtherSupplied(s, j);
      ReplyField();
    }
  }

  lemma ReplyField()
    ensures GatedBy(SEND_MESSAGE_FIELDS[11], 0, 0) && !SEND_MESSAGE_FIELDS[11].IsBit()
  {
  }

  // ----- the text ----------------------------------------------------------------------------------------

  lemma SendQuietFields(table: Table, s: Send, k: nat)
    requires HasRow(table, SEND_MESSAGE, SEND_MESSAGE_FIELDS) && (2 <= k < 10 || 14 <= k < 24)
    ensures FieldText(table, SEND_MESSAGE_FIELDS, s.Values(), k) == Ok([])
  {
    hide Slot, FlagsWord, ValueText;
    SendSlots(k);
    if k < 10 {
      OptionFields(k - 2);
    } else {
      assert |s.Values()| == 13;
      TailIsGated(k);
    }
  }

  lemma TailIsGated(k: nat)
    requires 14 <= k < 24
    ensures SEND_MESSAGE_FIELDS[k].IsGated()
  {
  }

  lemma SendFirstTexts(table: Table, s: Send)
    requires HasRow(table, SEND_MESSAGE, SEND_MESSAGE_FIELDS) && s.options.Valid()
    ensures FieldText(table, SEND_MESSAGE_FIELDS, s.Values(), 0) == Ok(EncodeI64(0))
    ensures FieldText(table, SEND_MESSAGE_FIELDS, s.Values(), 1) == Ok(Le32(s.Flags()))
  {
    hide FlagsWord, Slot, Le32, EncodeI64, Send.Flags, Options.Valid, Options.Has;
    var fields, values := SEND_MESSAGE_FIELDS, s.Values();
    SendFlags(s);
    SendSlots(0);
    assert fields[1].IsFlags() && fields[1].flagsField == 0;
    assert fields[0].ty == "long" && !fields[0].IsGated() && values[0] == Long(0);
  }

  lemma SendLaterTexts(table: Table, s: Send)
    requires HasRow(table, SEND_MESSAGE, SEND_MESSAGE_FIELDS)
    ensures FieldText(table, SEND_MESSAGE_FIELDS, s.Values(), 10) == Ok(PeerText(s.peer))
    ensures FieldText(table, SEND_MESSAGE_FIELDS, s.Values(), 12) == BytesText(s.text)
    ensures FieldText(table, SEND_MESSAGE_FIELDS, s.Values(), 13) == Ok(EncodeI64(s.randomId))
  {
    hide FieldText, Slot, EncodeI64, PeerText, BytesText, Options.Has;
    var values := s.Values();
    SendSlots(10);
    SendSlots(12);
    SendSlots(13);
    LaterFields();
    assert values[9] == PeerValue(s.peer) && values[11] == Str(s.text) && values[12] == Long(s.randomId);
    FieldIsValue(table, SEND_MESSAGE_FIELDS, values, 10, 9);
    FieldIsValue(table, SEND_MESSAGE_FIELDS, values, 12, 11);
    FieldIsValue(table, SEND_MESSAGE_FIELDS, values, 13, 12);
  }

  lemma SendReplyText(table: Table, s: Send)
    requires HasRow(table, SEND_MESSAGE, SEND_MESSAGE_FIELDS)
    ensures FieldText(table, SEND_MESSAGE_FIELDS, s.Values(), 11) == Ok(s.OptionalReplyText())
  {
    hide FieldText, Slot, ReplyText, Options.Has;
    var values := s.Values();
    SendSlots(11);
    LaterFields();
    assert values[10] == s.ReplyValue();
    if s.reply.Some? {
      FieldIsValue(table, SEND_MESSAGE_FIELDS, values, 11, 10);
      ReplyValueText(table, SEND_MESSAGE_FIELDS[11].ty, s.reply.value);
    } else {
      FieldIsSilent(table, SEND_MESSAGE_FIELDS, values, 11, 10);
    }
  }

  lemma ReplyValueText(table: Table, ty: string, messageId: i32)
    requires WellFormedTable(table) && ty == "InputReplyTo"
    ensures ValueText(table, ty, ReplyTo(messageId)) == Ok(ReplyText(messageId))
  {
    hide ReplyText;
  }

  lemma LaterFields()
    ensures var f := SEND_MESSAGE_FIELDS;
      && f[10] == Plain("peer", "InputPeer") && f[11] == Gated("reply_to", 0, "InputReplyTo")
      && f[12] == Plain("message", "string") && f[13] == Plain("random_id", "long")
  {
  }

  lemma SendTail(table: Table, s: Send)
    requires HasRow(table, SEND_MESSAGE, SEND_MESSAGE_FIELDS)
    ensures FieldsText(table, SEND_MESSAGE_FIELDS, s.Values(), 14) == Ok([])
    ensures FieldsText(table, SEND_MESSAGE_FIELDS, s.Values(), 2) == FieldsText(table, SEND_MESSAGE_FIELDS, s.Values(), 10)
  {
    hide FieldsText, FieldText, Send.Values;
    var fields, values := SEND_MESSAGE_FIELDS, s.Values();
    forall k | 2 <= k < 10 || 14 <= k < 24 ensures FieldText(table, fields, values, k) == Ok([]) {
      SendQuietFields(table, s, k);
    }
    SilentRun(table, fields, values, 2, 10);
    SilentRun(table, fields, values, 14, 24);
    NothingAfterLast(table, fields, values);
  }

  lemma SendFieldsText(table: Table, s: Send)
    requires HasRow(table, SEND_MESSAGE, SEND_MESSAGE_FIELDS) && s.options.Valid()
    ensures FieldsText(table, SEND_MESSAGE_FIELDS, s.Values(), 0)
         == match BytesText(s.text)
            case Ok(text) => Ok(EncodeI64(0) + (Le32(s.Flags()) + (PeerText(s.peer) + (s.OptionalReplyText() + (text + EncodeI64(s.randomId))))))
            case Err(kind) => Err(kind)
  {
    hide FieldsText, FieldText, Le32, EncodeI64, PeerText, BytesText, Send.Flags, Send.Values, Send.OptionalReplyText, Options.Valid;
    var fields, values := SEND_MESSAGE_FIELDS, s.Values();
    SendFirstTexts(table, s);
    SendLaterTexts(table, s);
    SendReplyText(table, s);
    SendTail(table, s);
    FieldThenRest(table, fields, values, 0);
    FieldThenRest(table, fields, values, 1);
    FieldThenRest(table, fields, values, 10);
    FieldThenRest(table, fields, values, 11);
    FieldThenRest(table, fields, values, 12);
    FieldThenRest(table, fields, values, 13);
    assert EncodeI64(s.randomId) + [] == EncodeI64(s.randomId);
  }

  // The same text in the order of the writes.
  function HeadText(s: Send): bytes {
    Le32(SEND_MESSAGE) + EncodeI64(0) + Le32(s.Flags()) + PeerText(s.peer)
  }

  lemma SendParts(table: Table, s: Send)
    requires HasRow(table, SEND_MESSAGE, SEND_MESSAGE_FIELDS) && s.options.Valid()
    ensures ObjectText(table, SEND_MESSAGE, s.Values())
         == match BytesText(s.text)
            case Ok(text) => Ok(HeadText(s) + s.OptionalReplyText() + text + EncodeI64(s.randomId))
            case Err(kind) => Err(kind)
  {
    hide FieldsText, FieldText, Slot, Le32, EncodeI64, PeerText, BytesText, Send.Flags, Send.OptionalReplyText, Options.Has, Options.Valid;
    SendSlots(24);
    SendFieldsText(table, s);
    if BytesText(s.text).Ok? {
      SevenParts(Le32(SEND_MESSAGE), EncodeI64(0), Le32(s.Flags()), PeerText(s.peer), s.OptionalReplyText(),
        BytesText(s.text).value, EncodeI64(s.randomId));
    }
  }

  // The whole message in order.
  lemma SendText(table: Table, s: Send)
    requires HasRow(table, SEND_MESSAGE, SEND_MESSAGE_FIELDS) && s.options.Valid()
    ensures ObjectText(table, SEND_MESSAGE, s.Values())
         == match BytesText(s.text)
            case Ok(text) => Ok(Le32(0xfef4_8f62) + EncodeI64(0) + Le32(s.Flags()) + PeerText(s.peer) + s.OptionalReplyText()
                                + text + EncodeI64(s.randomId))
            case Err(kind) => Err(kind)
  {
    hide ObjectText, Le32, EncodeI64, PeerText, BytesText, Send.Flags, Send.OptionalReplyText, Send.Values, Options.Valid;
    SendParts(table, s);
  }

  lemma SendQuietPrefix(table: Table, s: Send)
    requires HasRow(table, SEND_MESSAGE, SEND_MESSAGE_FIELDS)
    ensures FieldsPrefix(table, SEND_MESSAGE_FIELDS, s.Values(), 2) == FieldsPrefix(table, SEND_MESSAGE_FIELDS, s.Values(), 10)
  {
    hide FieldsPrefix, FieldText, Send.Values;
    forall k | 2 <= k < 10 ensures FieldText(table, SEND_MESSAGE_FIELDS, s.Values(), k) == Ok([]) {
      SendQuietFields(table, s, k);
    }
    SilentPrefix(table, SEND_MESSAGE_FIELDS, s.Values(), 2, 10);
  }

  lemma SendTextRefused(table: Table, s: Send)
    requires HasRow(table, SEND_MESSAGE, SEND_MESSAGE_FIELDS)
    ensures FieldPrefix(table, SEND_MESSAGE_FIELDS, s.Values(), 12) == []
  {
    hide FieldPrefix, Slot, Send.Values;
    SendSlots(12);
    SendTextPlace(s);
    NothingOfRefused(table, SEND_MESSAGE_FIELDS, s.Values(), 12, 11);
  }

  lemma SendLaterPrefix(table: Table, s: Send)
    requires HasRow(table, SEND_MESSAGE, SEND_MESSAGE_FIELDS) && BytesText(s.text).Err?
    ensures FieldsPrefix(table, SEND_MESSAGE_FIELDS, s.Values(), 10) == PeerText(s.peer) + (s.OptionalReplyText() + [])
  {
    hide FieldsPrefix, FieldPrefix, FieldText, Slot, PeerText, BytesText, Send.Values, Send.OptionalReplyText;
    var fields, values := SEND_MESSAGE_FIELDS, s.Values();
    SendLaterTexts(table, s);
    SendReplyText(table, s);
    SendTextRefused(table, s);
    PrefixThenRest(table, fields, values, 10);
    PrefixThenRest(table, fields, values, 11);
    PrefixThenRest(table, fields, values, 12);
  }

  lemma SendFieldsPrefix(table: Table, s: Send)
    requires HasRow(table, SEND_MESSAGE, SEND_MESSAGE_FIELDS) && s.options.Valid() && BytesText(s.text).Err?
    ensures FieldsPrefix(table, SEND_MESSAGE_FIELDS, s.Values(), 0)
         == EncodeI64(0) + (Le32(s.Flags()) + (PeerText(s.peer) + (s.OptionalReplyText() + [])))
  {
    hide FieldsPrefix, FieldPrefix, FieldText, Slot, Le32, EncodeI64, PeerText, BytesText, Send.Flags, Send.Values;
    hide Send.OptionalReplyText, Options.Valid, WellFormed;
    var fields, values := SEND_MESSAGE_FIELDS, s.Values();
    SendFirstTexts(table, s);
    SendQuietPrefix(table, s);
    SendLaterPrefix(table, s);
    PrefixThenRest(table, fields, values, 0);
    PrefixThenRest(table, fields, values, 1);
  }

  // What is written before the text is refused.
  lemma SendPrefix(table: Table, s: Send)
    requires HasRow(table, SEND_MESSAGE, SEND_MESSAGE_FIELDS) && s.options.Valid() && BytesText(s.text).Err?
    ensures ObjectPrefix(table, SEND_MESSAGE, s.Values()) == HeadText(s) + s.OptionalReplyText()
  {
    hide FieldsPrefix, Slot, Le32, EncodeI64, PeerText, BytesText, Send.Flags, Send.Values;
    hide Send.OptionalReplyText, Options.Valid;
    SendSlots(24);
    SendTextPlace(s);
    SendFieldsPrefix(table, s);
    FiveParts(Le32(SEND_MESSAGE), EncodeI64(0), Le32(s.Flags()), PeerText(s.peer), s.OptionalReplyText());
  }

  lemma SendTextPlace(s: Send)
    ensures |s.Values()| == 13 && s.Values()[11] == Str(s.text)
  {
    hide Options.Has;
  }

  lemma SevenParts(a: bytes, b: bytes, c: bytes, d: bytes, e: bytes, f: bytes, g: bytes)
    ensures a + (b + (c + (d + (e + (f + g))))) == a + b + c + d + e + f + g
  {
    RegroupFour(d, e, f, g);
    Regroup(c, d + e + f, g);
    RegroupFour(c, d, e, f);
    Regroup(d, e, f);
    var u := d + (e + (f + g));
    RegroupFour(a, b, c, u);
    Regroup(a + b + c, d, e + (f + g));
    Regroup(a + b + c + d, e, f + g);
    Regroup(a + b + c + d + e, f, g);
  }

  method WriteSendHead(writer: Writer, s: Send) returns (r: Result<()>)
    requires writer.Valid()
    modifies writer, writer.output
    ensures writer.Valid() && writer.Appends(HeadText(s), r)
  {
    hide Writer.Valid, Le32, EncodeI64, PeerText, OrBit;
    var flags := s.options.word;
    var _ :- writer.WriteU32(SEND_MESSAGE);
    var _ :- writer.WriteI64(0);
    if s.reply.Some? {
      flags := OrBit(flags, 0);
    }
    var _ :- writer.WriteU32(flags);
    r := WritePeer(writer, s.peer);
  }

  method WriteSendStart(writer: Writer, s: Send) returns (r: Result<()>)
    requires writer.Valid()
    modifies writer, writer.output
    ensures writer.Valid() && writer.Appends(HeadText(s) + s.OptionalReplyText(), r)
  {
    hide Writer.Valid, HeadText, ReplyText;
    var _ :- WriteSendHead(writer, s);
    if s.reply.Some? {
      r := WriteReply(writer, s.reply.value);
    } else {
      assert HeadText(s) + [] == HeadText(s);
      r := Ok(());
    }
  }

  method WriteSendTextReply(writer: Writer, ghost table: Table, s: Send) returns (r: Result<()>)
    requires writer.Valid() && HasRow(table, SEND_MESSAGE, SEND_MESSAGE_FIELDS) && s.options.Valid()
    modifies writer, writer.output
    ensures writer.Valid()
    ensures EmitsUpTo(writer, ObjectText(table, SEND_MESSAGE, s.Values()), ObjectPrefix(table, SEND_MESSAGE, s.Values()), r)
  {
    hide Writer.Valid, ObjectText, ObjectPrefix, HeadText, ReplyText, BytesText, EncodeI64, Send.Values, Options.Valid;
    SendParts(table, s);
    if BytesText(s.text).Err? {
      SendPrefix(table, s);
    }
    hide Send.OptionalReplyText;
    var _ :- WriteSendStart(writer, s);
    var _ :- WriteText(writer, s.text);
    r := writer.WriteI64(s.randomId);
  }
}
