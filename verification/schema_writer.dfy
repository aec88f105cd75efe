/** The serializer itself: two passes over the fields, recursive in nested objects, on a writer. */
module SchemaWriter {
  import opened Outcomes
  import opened Bytes
  import opened TlCodec
  import opened TlLists
  import opened TlWriter
  import opened Schema

  // What a write answers and appends, given the text it stands for.  A text that is an error may be
  // preceded by fields that were written, or did not fit.
  twostate predicate Emits(writer: Writer, new text: Result<bytes>, new r: Result<()>)
    reads writer
  {
    match text
    case Ok(text) => writer.Appends(text, r)
    case Err(kind) => r.Err? && (r.kind == kind || r.kind == OutputTooSmall) && old(writer.written) <= writer.written
  }

  // The same with what a refusal leaves: everything before the refused value, and then the refusal is the
  // error, unless that much did not fit.
  twostate predicate EmitsUpTo(writer: Writer, new text: Result<bytes>, new prefix: bytes, new r: Result<()>)
    reads writer
  {
    && Emits(writer, text, r)
    && (text.Err? ==>
          if |old(writer.written)| + |prefix| <= writer.output.Length
          then r.kind == text.kind && writer.written == old(writer.written) + prefix
          else r.kind == OutputTooSmall)
  }

  // ----- the first pass -----------------------------------------------------------------------------------

  // The flags words, and how many values the fields take.
  method ComputeFlags(fields: seq<Field>, values: seq<Value>) returns (flags: array<u32>, seen: nat)
    requires WellFormed(fields)
    ensures fresh(flags) && flags.Length == FLAGS_WORDS
    ensures forall k :: 0 <= k < FLAGS_WORDS ==> flags[k] == FlagsWord(fields, values, k)
    ensures seen == Slot(fields, |fields|)
  {
    hide OrBit;
    flags := new u32[FLAGS_WORDS](_ => 0);
    seen := 0;
    var i := 0;
    while i < |fields|
      invariant 0 <= i <= |fields| && seen == Slot(fields, i)
      invariant forall k :: 0 <= k < FLAGS_WORDS ==> flags[k] == FlagsUpTo(fields, values, k, i)
    {
      var field := fields[i];
      assert WellPlaced(fields, i);
      if !field.IsFlags() {
        if field.flagsField != NO_FLAGS && field.ty != "true" && field.ty != "false" {
          if seen < |values| && !values[seen].Skip? {
            flags[field.flagsField] := OrBit(flags[field.flagsField], field.flagsBit);
          }
        } else if field.flagsField != NO_FLAGS {
          if seen < |values| && values[seen].True? {
            flags[field.flagsField] := OrBit(flags[field.flagsField], field.flagsBit);
          }
        }
        seen := seen + 1;
      }
      i := i + 1;
    }
  }

  // ----- values ----------------------------------------------------------------------------------------------

  method WritePair(writer: Writer, id: u32, a: i64, b: i64) returns (r: Result<()>)
    requires writer.Valid()
    modifies writer, writer.output
    ensures writer.Valid() && writer.Appends(Le32(id) + EncodeI64(a) + EncodeI64(b), r)
  {
    hide Writer.Valid, Le32, EncodeI64;
    var _ :- writer.WriteU32(id);
    var _ :- writer.WriteI64(a);
    r := writer.WriteI64(b);
  }

  method WritePeer(writer: Writer, peer: Peer) returns (r: Result<()>)
    requires writer.Valid()
    modifies writer, writer.output
    ensures writer.Valid() && writer.Appends(PeerText(peer), r)
  {
    hide Writer.Valid, Le32, EncodeI64;
    match peer {
      case Self =>
        r := writer.WriteU32(INPUT_PEER_SELF);
      case User(user, hash) =>
        r := WritePair(writer, INPUT_PEER_USER, user, hash);
      case Channel(channel, hash) =>
        r := WritePair(writer, INPUT_PEER_CHANNEL, channel, hash);
      case Chat(chat) =>
        var _ :- writer.WriteU32(INPUT_PEER_CHAT);
        r := writer.WriteI64(chat);
    }
  }

  method WriteVectorHead(writer: Writer, count: nat) returns (r: Result<()>)
    requires writer.Valid()
    modifies writer, writer.output
    ensures writer.Valid() && writer.Appends(VectorHead(count), r)
  {
    hide Writer.Valid, Le32;
    var _ :- writer.WriteU32(VECTOR);
    r := writer.WriteU32(count % 0x1_0000_0000);
  }

  method WriteMessageId(writer: Writer, id: i32) returns (r: Result<()>)
    requires writer.Valid()
    modifies writer, writer.output
    ensures writer.Valid() && writer.Appends(MessageIdText(id), r)
  {
    hide Writer.Valid, Le32, EncodeI32;
    var _ :- writer.WriteU32(INPUT_MESSAGE_ID);
    r := writer.WriteI32(id);
  }

  method WriteUserId(writer: Writer, user: i64) returns (r: Result<()>)
    requires writer.Valid()
    modifies writer, writer.output
    ensures writer.Valid() && writer.Appends(UserIdText(user), r)
  {
    hide Writer.Valid, Le32, EncodeI64;
    r := WritePair(writer, WRITTEN_INPUT_USER, user, 0);
  }

  // After i entries of a vector: what was written, followed by the rest of the list, is the vector.
  ghost predicate VectorUpTo<T(!new)>(entry: T -> bytes, xs: seq<T>, i: nat, done: bytes)
    requires i <= |xs|
  {
    done + ListText(entry, xs[i..]) == VectorText(entry, xs)
  }

  lemma VectorBegins<T(!new)>(entry: T -> bytes, xs: seq<T>)
    ensures VectorUpTo(entry, xs, 0, VectorHead(|xs|))
  {
    assert xs[0..] == xs;
  }

  lemma VectorContinues<T(!new)>(entry: T -> bytes, xs: seq<T>, i: nat, done: bytes)
    requires i < |xs| && VectorUpTo(entry, xs, i, done)
    ensures VectorUpTo(entry, xs, i + 1, done + entry(xs[i]))
    ensures |done| + |entry(xs[i])| <= |VectorText(entry, xs)|
  {
    hide VectorHead;
    assert xs[i..][1..] == xs[i + 1..];
    Regroup(done, entry(xs[i]), ListText(entry, xs[i + 1..]));
  }

  lemma VectorEnds<T(!new)>(entry: T -> bytes, xs: seq<T>, done: bytes)
    requires VectorUpTo(entry, xs, |xs|, done)
    ensures done == VectorText(entry, xs)
  {
    assert xs[|xs|..] == [];
  }

  method WriteInts(writer: Writer, xs: seq<i32>) returns (r: Result<()>)
    requires writer.Valid()
    modifies writer, writer.output
    ensures writer.Valid() && writer.Appends(VectorText(EncodeI32, xs), r)
  {
    hide Writer.Valid, VectorText, VectorHead, VectorUpTo, EncodeI32;
    VectorBegins(EncodeI32, xs);
    ghost var before, done := writer.written, VectorHead(|xs|);
    var _ :- WriteVectorHead(writer, |xs|);
    var i := 0;
    while i < |xs|
      invariant 0 <= i <= |xs| && writer.Valid()
      invariant writer.written == before + done && |writer.written| <= writer.output.Length
      invariant VectorUpTo(EncodeI32, xs, i, done)
    {
      VectorContinues(EncodeI32, xs, i, done);
      var _ :- writer.WriteI32(xs[i]);
      done := done + EncodeI32(xs[i]);
      i := i + 1;
    }
    VectorEnds(EncodeI32, xs, done);
    return Ok(());
  }

  method WriteLongs(writer: Writer, xs: seq<i64>) returns (r: Result<()>)
    requires writer.Valid()
    modifies writer, writer.output
    ensures writer.Valid() && writer.Appends(VectorText(EncodeI64, xs), r)
  {
    hide Writer.Valid, VectorText, VectorHead, VectorUpTo, EncodeI64;
    VectorBegins(EncodeI64, xs);
    ghost var before, done := writer.written, VectorHead(|xs|);
    var _ :- WriteVectorHead(writer, |xs|);
    var i := 0;
    while i < |xs|
      invariant 0 <= i <= |xs| && writer.Valid()
      invariant writer.written == before + done && |writer.written| <= writer.output.Length
      invariant VectorUpTo(EncodeI64, xs, i, done)
    {
      VectorContinues(EncodeI64, xs, i, done);
      var _ :- writer.WriteI64(xs[i]);
      done := done + EncodeI64(xs[i]);
      i := i + 1;
    }
    VectorEnds(EncodeI64, xs, done);
    return Ok(());
  }

  method WriteMessageIds(writer: Writer, xs: seq<i32>) returns (r: Result<()>)
    requires writer.Valid()
    modifies writer, writer.output
    ensures writer.Valid() && writer.Appends(VectorText(MessageIdText, xs), r)
  {
    hide Writer.Valid, VectorText, VectorHead, VectorUpTo, MessageIdText;
    VectorBegins(MessageIdText, xs);
    ghost var before, done := writer.written, VectorHead(|xs|);
    var _ :- WriteVectorHead(writer, |xs|);
    var i := 0;
    while i < |xs|
      invariant 0 <= i <= |xs| && writer.Valid()
      invariant writer.written == before + done && |writer.written| <= writer.output.Length
      invariant VectorUpTo(MessageIdText, xs, i, done)
    {
      VectorContinues(MessageIdText, xs, i, done);
      var _ :- WriteMessageId(writer, xs[i]);
      done := done + MessageIdText(xs[i]);
      i := i + 1;
    }
    VectorEnds(MessageIdText, xs, done);
    return Ok(());
  }

  method WriteUserIds(writer: Writer, xs: seq<i64>) returns (r: Result<()>)
    requires writer.Valid()
    modifies writer, writer.output
    ensures writer.Valid() && writer.Appends(VectorText(UserIdText, xs), r)
  {
    hide Writer.Valid, VectorText, VectorHead, VectorUpTo, UserIdText;
    VectorBegins(UserIdText, xs);
    ghost var before, done := writer.written, VectorHead(|xs|);
    var _ :- WriteVectorHead(writer, |xs|);
    var i := 0;
    while i < |xs|
      invariant 0 <= i <= |xs| && writer.Valid()
      invariant writer.written == before + done && |writer.written| <= writer.output.Length
      invariant VectorUpTo(UserIdText, xs, i, done)
    {
      VectorContinues(UserIdText, xs, i, done);
      var _ :- WriteUserId(writer, xs[i]);
      done := done + UserIdText(xs[i]);
      i := i + 1;
    }
    VectorEnds(UserIdText, xs, done);
    return Ok(());
  }

  method WriteReply(writer: Writer, messageId: i32) returns (r: Result<()>)
    requires writer.Valid()
    modifies writer, writer.output
    ensures writer.Valid() && writer.Appends(ReplyText(messageId), r)
  {
    hide Writer.Valid, Le32, EncodeI32;
    var _ :- writer.WriteU32(INPUT_REPLY_TO_MESSAGE);
    var _ :- writer.WriteU32(0);
    r := writer.WriteI32(messageId);
  }

  method WriteTagged(writer: Writer, id: u32, body: bytes) returns (r: Result<()>)
    requires writer.Valid()
    modifies writer, writer.output
    ensures writer.Valid() && writer.Appends(Le32(id) + body, r)
  {
    hide Writer.Valid, Le32;
    var _ :- writer.WriteU32(id);
    r := writer.WriteAll(body);
  }

  method WriteText(writer: Writer, text: bytes) returns (r: Result<()>)
    requires writer.Valid()
    modifies writer, writer.output
    ensures writer.Valid() && EmitsUpTo(writer, BytesText(text), [], r)
  {
    hide Writer.Valid, EncodeBytes;
    writer.Fits();
    assert writer.written + [] == writer.written;
    r := writer.WriteBytes(text);
  }

  method WriteInt(writer: Writer, ty: string, x: i32) returns (r: Result<()>)
    requires writer.Valid()
    modifies writer, writer.output
    ensures writer.Valid() && writer.Appends(IntText(ty, x), r)
  {
    hide Writer.Valid, Le32, EncodeI32, EncodeI64;
    if ty == "long" {
      r := writer.WriteI64(x);
    } else if ty == "Bool" {
      r := writer.WriteU32(if x != 0 then BOOL_TRUE else BOOL_FALSE);
    } else {
      r := writer.WriteI32(x);
    }
  }

  method WriteLong(writer: Writer, ty: string, x: i64) returns (r: Result<()>)
    requires writer.Valid()
    modifies writer, writer.output
    ensures writer.Valid() && writer.Appends(LongText(ty, x), r)
  {
    hide Writer.Valid, Le32, EncodeI64;
    if ty == "int" {
      r := writer.WriteU32(LowerHalf(x));
    } else {
      r := writer.WriteI64(x);
    }
  }

  method WriteValue(writer: Writer, table: Table, ty: string, value: Value) returns (r: Result<()>)
    requires WellFormedTable(table) && writer.Valid()
    modifies writer, writer.output
    ensures writer.Valid() && EmitsUpTo(writer, ValueText(table, ty, value), ValuePrefix(table, value), r)
    decreases value
  {
    hide Writer.Valid, ObjectText, ObjectPrefix, BytesText, VectorText, PeerText, ReplyText, Le32, IntText, LongText;
    writer.Fits();
    assert writer.written + [] == writer.written;
    match value {
      case Int(x) =>
        r := WriteInt(writer, ty, x);
      case Long(x) =>
        r := WriteLong(writer, ty, x);
      case Str(text) =>
        r := WriteText(writer, text);
      case Blob(data) =>
        r := WriteText(writer, data);
      case PeerValue(peer) =>
        if ty != "InputPeer" {
          return Err(SchemaMismatch);
        }
        r := WritePeer(writer, peer);
      case Ints(xs) =>
        if ty != "Vector<int>" {
          return Err(SchemaMismatch);
        }
        r := WriteInts(writer, xs);
      case Longs(xs) =>
        if ty != "Vector<long>" {
          return Err(SchemaMismatch);
        }
        r := WriteLongs(writer, xs);
      case MessageIds(xs) =>
        if ty != "Vector<InputMessage>" {
          return Err(SchemaMismatch);
        }
        r := WriteMessageIds(writer, xs);
      case UserIds(xs) =>
        if ty != "Vector<InputUser>" {
          return Err(SchemaMismatch);
        }
        r := WriteUserIds(writer, xs);
      case ReplyTo(messageId) =>
        if ty != "InputReplyTo" {
          return Err(SchemaMismatch);
        }
        r := WriteReply(writer, messageId);
      case Empty(id) =>
        r := writer.WriteU32(id);
      case Boxed(id, values) =>
        r := Serialize(writer, table, id, values);
      case Raw(id, body) =>
        r := WriteTagged(writer, id, body);
      case _ =>
        return Err(SchemaMismatch);
    }
  }

  // ----- the second pass ---------------------------------------------------------------------------------------

  method WriteField(writer: Writer, table: Table, fields: seq<Field>, values: seq<Value>, i: nat, words: seq<u32>,
        seen: nat)
    returns (r: Result<()>)
    requires WellFormedTable(table) && WellFormed(fields) && i < |fields| && writer.Valid()
    requires |words| == FLAGS_WORDS && forall k :: 0 <= k < FLAGS_WORDS ==> words[k] == FlagsWord(fields, values, k)
    requires seen == Slot(fields, i)
    modifies writer, writer.output
    ensures writer.Valid() && EmitsUpTo(writer, FieldText(table, fields, values, i), FieldPrefix(table, fields, values, i), r)
    decreases values, 0, 0
  {
    hide Writer.Valid, ValueText, ValuePrefix, FlagsWord, Le32;
    writer.Fits();
    assert writer.written + [] == writer.written;
    var field := fields[i];
    assert WellPlaced(fields, i);
    if field.IsFlags() {
      r := writer.WriteU32(words[field.flagsField]);
      return;
    }
    if field.flagsField != NO_FLAGS && (field.ty == "true" || field.ty == "false") {
      return Ok(());
    }
    if field.flagsField != NO_FLAGS && (seen >= |values| || values[seen].Skip?) {
      return Ok(());
    }
    if seen >= |values| {
      return Err(SchemaMismatch);
    }
    r := WriteValue(writer, table, field.ty, values[seen]);
  }

  // What was written of the fields before the i-th, followed by the rest, is the whole.
  ghost predicate FieldsUpTo(table: Table, fields: seq<Field>, values: seq<Value>, i: nat, done: bytes)
    requires WellFormedTable(table) && WellFormed(fields) && i <= |fields|
  {
    match FieldsText(table, fields, values, i)
    case Ok(tail) => FieldsText(table, fields, values, 0) == Ok(done + tail)
    case Err(kind) =>
      && FieldsText(table, fields, values, 0) == Err(kind)
      && FieldsPrefix(table, fields, values, 0) == done + FieldsPrefix(table, fields, values, i)
  }

  lemma FieldsContinue(table: Table, fields: seq<Field>, values: seq<Value>, i: nat, done: bytes)
    requires WellFormedTable(table) && WellFormed(fields) && i < |fields| && FieldsUpTo(table, fields, values, i, done)
    ensures match FieldText(table, fields, values, i)
            case Err(kind) =>
              && FieldsText(table, fields, values, 0) == Err(kind)
              && FieldsPrefix(table, fields, values, 0) == done + FieldPrefix(table, fields, values, i)
            case Ok(head) =>
              && FieldsUpTo(table, fields, values, i + 1, done + head)
              && var whole := FieldsText(table, fields, values, 0);
                && (whole.Ok? ==> |done| + |head| <= |whole.value|)
                && (whole.Err? ==> |done| + |head| <= |FieldsPrefix(table, fields, values, 0)|)
  {
    hide FieldText, FieldPrefix;
    if FieldText(table, fields, values, i).Ok? && FieldsText(table, fields, values, i + 1).Ok? {
      Regroup(done, FieldText(table, fields, values, i).value, FieldsText(table, fields, values, i + 1).value);
    } else if FieldText(table, fields, values, i).Ok? {
      Regroup(done, FieldText(table, fields, values, i).value, FieldsPrefix(table, fields, values, i + 1));
    }
  }

  method Serialize(writer: Writer, table: Table, id: u32, values: seq<Value>) returns (r: Result<()>)
    requires WellFormedTable(table) && writer.Valid()
    modifies writer, writer.output
    ensures writer.Valid() && EmitsUpTo(writer, ObjectText(table, id, values), ObjectPrefix(table, id, values), r)
    decreases values, 1, 0
  {
    hide Writer.Valid, FieldsText, FieldsPrefix, FieldText, FieldsUpTo, Le32, FlagsWord;
    writer.Fits();
    assert writer.written + [] == writer.written;
    if id !in table {
      return Err(SchemaMismatch);
    }
    var fields := table[id].fields;
    var flags, seen := ComputeFlags(fields, values);
    if seen < |values| {
      return Err(SchemaMismatch);
    }
    var words := flags[..];
    var _ :- writer.WriteU32(id);
    r := WriteFields(writer, table, fields, values, words);
  }

  method WriteFields(writer: Writer, table: Table, fields: seq<Field>, values: seq<Value>, words: seq<u32>)
    returns (r: Result<()>)
    requires WellFormedTable(table) && WellFormed(fields) && writer.Valid()
    requires |words| == FLAGS_WORDS && forall k :: 0 <= k < FLAGS_WORDS ==> words[k] == FlagsWord(fields, values, k)
    modifies writer, writer.output
    ensures writer.Valid() && EmitsUpTo(writer, FieldsText(table, fields, values, 0), FieldsPrefix(table, fields, values, 0), r)
    decreases values, 0, 1
  {
    hide Writer.Valid, FieldsText, FieldsPrefix, FieldText, FieldPrefix, FieldsUpTo, FlagsWord;
    ghost var before, done := writer.written, [];
    var seen, i := 0, 0;
    FieldsBegin(table, fields, values);
    writer.Fits();
    while i < |fields|
      invariant 0 <= i <= |fields| && seen == Slot(fields, i) && writer.Valid()
      invariant writer.written == before + done && |writer.written| <= writer.output.Length
      invariant FieldsUpTo(table, fields, values, i, done)
    {
      FieldsContinue(table, fields, values, i, done);
      var _ :- WriteField(writer, table, fields, values, i, words, seen);
      done := done + FieldText(table, fields, values, i).value;
      if !fields[i].IsFlags() {
        seen := seen + 1;
      }
      i := i + 1;
    }
    FieldsEnd(table, fields, values, done);
    return Ok(());
  }

  lemma FieldsBegin(table: Table, fields: seq<Field>, values: seq<Value>)
    requires WellFormedTable(table) && WellFormed(fields)
    ensures FieldsUpTo(table, fields, values, 0, [])
  {
    hide FieldsText, FieldsPrefix;
    var whole := FieldsText(table, fields, values, 0);
    assert whole.Ok? ==> [] + whole.value == whole.value;
    assert [] + FieldsPrefix(table, fields, values, 0) == FieldsPrefix(table, fields, values, 0);
  }

  lemma FieldsEnd(table: Table, fields: seq<Field>, values: seq<Value>, done: bytes)
    requires WellFormedTable(table) && WellFormed(fields) && FieldsUpTo(table, fields, values, |fields|, done)
    ensures FieldsText(table, fields, values, 0) == Ok(done)
  {
    assert FieldsText(table, fields, values, |fields|) == Ok([]);
    assert done + [] == done;
  }
}
