/**
 The normal form of argument values: what a reader of their text sees.  Abbreviations become the boxed
 objects they stand for, values left out become skipped, and values given in another form than the field's
 type take the form of the type.
 */
module SchemaNormal {
  import opened Outcomes
  import opened Bytes
  import opened TlCodec
  import opened Schema
  import opened SchemaDecoder
  import opened SchemaRoundTrip
  import opened DirectWriters
  import opened SchemaSugar

  // ----- the normal form -----------------------------------------------------------------------------------

  const NO_OPTIONS: seq<Value> := [Skip, Skip, Skip, Skip, Skip, Skip, Skip, Skip]

  function BoxedReply(messageId: i32): Value {
    Boxed(INPUT_REPLY_TO_MESSAGE, [Int(messageId)] + NO_OPTIONS)
  }

  function NormalValue(table: Table, ty: string, v: Value): Value
    decreases v
  {
    match v
    case PeerValue(peer) => if ty == "InputPeer" then BoxedPeer(peer) else v
    case ReplyTo(messageId) => if ty == "InputReplyTo" then BoxedReply(messageId) else v
    case Int(x) => if ty == "long" then Long(x) else if ty == "Bool" && x != 0 then Int(1) else v
    case Long(x) => if ty == "int" then Int(ToI32(LowerHalf(x))) else v
    case Str(text) => if ty == "bytes" then Blob(text) else v
    case Blob(data) => if ty == "string" then Str(data) else v
    case Empty(id) => if id in table && table[id].fields == [] then Boxed(id, []) else v
    case Boxed(id, values) => Boxed(id, Normal(table, id, values))
    case _ => v
  }

  // One value for every field but the flags words; values that do not fit the row are left as they are.
  function Normal(table: Table, id: u32, values: seq<Value>): seq<Value>
    decreases values, 1, 0
  {
    if id !in table || |values| > Slot(table[id].fields, |table[id].fields|) then values
    else NormalUpTo(table, table[id].fields, values, |table[id].fields|)
  }

  // The values for the fields before the i-th.
  function NormalUpTo(table: Table, fields: seq<Field>, values: seq<Value>, i: nat): (normal: seq<Value>)
    requires i <= |fields|
    ensures |normal| == Slot(fields, i)
    decreases values, 0, i + 1
  {
    if i == 0 then []
    else
      var earlier := NormalUpTo(table, fields, values, i - 1);
      if fields[i - 1].IsFlags() then earlier else earlier + [NormalField(table, fields, values, i - 1)]
  }

  function NormalField(table: Table, fields: seq<Field>, values: seq<Value>, i: nat): Value
    requires i < |fields|
    decreases values, 0, 0
  {
    var slot := Slot(fields, i);
    if fields[i].IsBit() then Flag(slot < |values| && values[slot].True?)
    else if slot < |values| then NormalValue(table, fields[i].ty, values[slot])
    else Skip
  }

  lemma {:induction false} NormalAt(table: Table, fields: seq<Field>, values: seq<Value>, i: nat, n: nat)
    requires i < n <= |fields| && !fields[i].IsFlags()
    ensures var normal := NormalUpTo(table, fields, values, n);
      Slot(fields, i) < |normal| && normal[Slot(fields, i)] == NormalField(table, fields, values, i)
    decreases n
  {
    hide NormalField;
    if i < n - 1 {
      NormalAt(table, fields, values, i, n - 1);
    }
  }

  // ----- the text is the same ----------------------------------------------------------------------------------

  // The rows the abbreviations stand for.
  ghost predicate HasSugarRows(table: Table) {
    HasPeerRows(table) && HasRow(table, INPUT_REPLY_TO_MESSAGE, REPLY_FIELDS)
  }

  lemma {:induction false} OmittedAreSkipped(table: Table, id: u32, values: seq<Value>, n: nat)
    requires WellFormedTable(table) && id in table && |values| + n <= Slot(table[id].fields, |table[id].fields|)
    ensures ObjectText(table, id, values + seq(n, _ => Skip)) == ObjectText(table, id, values)
    decreases n
  {
    hide ObjectText, Slot;
    if n == 0 {
      assert values + seq(n, _ => Skip) == values;
    } else {
      var fewer := values + seq(n - 1, _ => Skip);
      assert values + seq(n, _ => Skip) == fewer + [Skip];
      OmittedIsSkipped(table, id, fewer);
      OmittedAreSkipped(table, id, values, n - 1);
    }
  }

  lemma BoxedReplyText(table: Table, messageId: i32)
    requires HasRow(table, INPUT_REPLY_TO_MESSAGE, REPLY_FIELDS)
    ensures ValueText(table, "InputReplyTo", BoxedReply(messageId)) == Ok(ReplyText(messageId))
  {
    hide ObjectText, Slot, ReplyText;
    SlotBeside(REPLY_FIELDS, 0, 10);
    OmittedAreSkipped(table, INPUT_REPLY_TO_MESSAGE, [Int(messageId)], 8);
    assert seq(8, _ => Skip) == NO_OPTIONS;
    ReplyIsBoxed(table, messageId);
  }

  lemma {:induction false} SameValueText(table: Table, ty: string, v: Value)
    requires HasSugarRows(table)
    ensures ValueText(table, ty, NormalValue(table, ty, v)) == ValueText(table, ty, v)
    ensures NormalValue(table, ty, v).Skip? <==> v.Skip?
    decreases v
  {
    hide ObjectText, Normal, BoxedPeer, BoxedReply, PeerText, ReplyText, VectorText, BytesText, EncodeI64, EncodeI32, Le32;
    match v {
      case PeerValue(peer) => PeerIsBoxed(table, peer); BoxedIsNoSkip(peer, 0);
      case ReplyTo(messageId) => BoxedReplyText(table, messageId); BoxedIsNoSkip(Self, messageId);
      case Long(x) => LowerHalfText(x);
      case Empty(id) => if id in table && table[id].fields == [] { EmptyObjectText(table, id); }
      case Boxed(id, values) => SameText(table, id, values);
      case _ =>
    }
  }

  lemma BoxedIsNoSkip(peer: Peer, messageId: i32)
    ensures BoxedPeer(peer).Boxed? && BoxedReply(messageId).Boxed?
  {
  }

  lemma LowerHalfText(x: i64)
    ensures EncodeI32(ToI32(LowerHalf(x))) == Le32(LowerHalf(x))
  {
    hide Le32;
  }

  // Values and their normal form have the same text, or are refused alike.
  lemma {:induction false} SameText(table: Table, id: u32, values: seq<Value>)
    requires HasSugarRows(table)
    ensures ObjectText(table, id, Normal(table, id, values)) == ObjectText(table, id, values)
    decreases values, 1, 0
  {
    hide FieldsText, NormalUpTo, Le32;
    if id in table && |values| <= Slot(table[id].fields, |table[id].fields|) {
      SameFieldsText(table, table[id].fields, values, 0);
    }
  }

  lemma {:induction false} SameFieldsText(table: Table, fields: seq<Field>, values: seq<Value>, i: nat)
    requires HasSugarRows(table) && WellFormed(fields) && i <= |fields|
    ensures FieldsText(table, fields, NormalUpTo(table, fields, values, |fields|), i) == FieldsText(table, fields, values, i)
    decreases values, 0, |fields| - i + 1
  {
    hide FieldText, NormalUpTo;
    if i < |fields| {
      SameFieldText(table, fields, values, i);
      SameFieldsText(table, fields, values, i + 1);
    }
  }

  lemma {:induction false} SameFieldText(table: Table, fields: seq<Field>, values: seq<Value>, i: nat)
    requires HasSugarRows(table) && WellFormed(fields) && i < |fields|
    ensures FieldText(table, fields, NormalUpTo(table, fields, values, |fields|), i) == FieldText(table, fields, values, i)
    decreases values, 0, 0
  {
    hide NormalUpTo, NormalValue, Slot, FlagsUpTo, Le32, Field.IsGated;
    var slot := Slot(fields, i);
    if fields[i].IsFlags() {
      SameFlags(table, fields, values, fields[i].flagsField, |fields|);
    } else {
      NormalAt(table, fields, values, i, |fields|);
      if slot < |values| {
        SameValueText(table, fields[i].ty, values[slot]);
      }
    }
  }

  lemma SameSupplied(table: Table, fields: seq<Field>, values: seq<Value>, i: nat)
    requires i < |fields|
    ensures Supplied(fields, NormalUpTo(table, fields, values, |fields|), i) <==> Supplied(fields, values, i)
  {
    hide NormalUpTo, NormalValue, Slot;
    if fields[i].IsGated() {
      NormalAt(table, fields, values, i, |fields|);
      if Slot(fields, i) < |values| {
        NormalKeepsSkip(table, fields[i].ty, values[Slot(fields, i)]);
      }
    }
  }

  lemma NormalKeepsSkip(table: Table, ty: string, v: Value)
    ensures NormalValue(table, ty, v).Skip? <==> v.Skip?
  {
    hide Normal;
  }

  lemma {:induction false} SameFlags(table: Table, fields: seq<Field>, values: seq<Value>, k: nat, i: nat)
    requires WellFormed(fields) && i <= |fields|
    ensures FlagsUpTo(fields, NormalUpTo(table, fields, values, |fields|), k, i) == FlagsUpTo(fields, values, k, i)
    decreases i
  {
    hide OrBit, Supplied, NormalUpTo;
    if i > 0 {
      SameFlags(table, fields, values, k, i - 1);
      SameSupplied(table, fields, values, i - 1);
      assert WellPlaced(fields, i - 1);
    }
  }

  // ----- the reader sees the normal form ---------------------------------------------------------------------------

  // Whatever form values are given in, the reader recovers their normal form, if it is well typed, exactly when
  // values sharing a bit are given together.
  lemma NormalIsRecovered(table: Table, id: u32, values: seq<Value>, rest: bytes)
    requires HasSugarRows(table) && TypedObject(table, id, Normal(table, id, values)) && ObjectText(table, id, values).Ok?
    ensures ReadObject(table, ObjectText(table, id, values).value + rest) == Ok(((id, Normal(table, id, values)), rest))
       <==> Agreeing(table, id, Normal(table, id, values))
  {
    hide ReadObject, ObjectText, TypedObject, Agreeing, Normal;
    SameText(table, id, values);
    RecoveredExactlyWhenAgreeing(table, id, Normal(table, id, values), rest);
  }

  // Well-typed values are their own normal form.
  lemma {:induction false} TypedIsNormal(table: Table, ty: string, v: Value)
    requires Typed(table, ty, v)
    ensures NormalValue(table, ty, v) == v
    decreases v
  {
    hide Normal, TypedObject;
    if v.Boxed? && !IsBare(ty) {
      TypedObjectIsNormal(table, v.id, v.values);
    }
  }

  lemma {:induction false} TypedObjectIsNormal(table: Table, id: u32, values: seq<Value>)
    requires TypedObject(table, id, values)
    ensures Normal(table, id, values) == values
    decreases values, 1, 0
  {
    hide TypedFrom, NormalUpTo;
    var fields := table[id].fields;
    TypedUpToIsNormal(table, fields, values, |fields|);
    assert values[..|values|] == values;
  }

  lemma {:induction false} TypedUpToIsNormal(table: Table, fields: seq<Field>, values: seq<Value>, i: nat)
    requires i <= |fields| && TypedFrom(table, fields, values, 0) && |values| == Slot(fields, |fields|)
    ensures Slot(fields, i) <= |values| && NormalUpTo(table, fields, values, i) == values[..Slot(fields, i)]
    decreases values, 0, i + 1
  {
    hide TypedFrom, TypedField, NormalField;
    SlotsGrow(fields, i, |fields|);
    if i > 0 {
      TypedUpToIsNormal(table, fields, values, i - 1);
      TypedAt(table, fields, values, 0, i - 1);
      if !fields[i - 1].IsFlags() {
        TypedFieldIsNormal(table, fields, values, i - 1);
      }
    }
  }

  lemma {:induction false} TypedAt(table: Table, fields: seq<Field>, values: seq<Value>, i: nat, j: nat)
    requires i <= j < |fields| && TypedFrom(table, fields, values, i)
    ensures TypedField(table, fields, values, j)
    decreases j - i
  {
    hide TypedField;
    if i < j {
      TypedAt(table, fields, values, i + 1, j);
    }
  }

  lemma {:induction false} TypedFieldIsNormal(table: Table, fields: seq<Field>, values: seq<Value>, i: nat)
    requires i < |fields| && !fields[i].IsFlags() && TypedField(table, fields, values, i)
    ensures Slot(fields, i) < |values| && NormalField(table, fields, values, i) == values[Slot(fields, i)]
    decreases values, 0, 0
  {
    hide Slot, Typed, NormalValue;
    var slot := Slot(fields, i);
    if !fields[i].IsBit() {
      if values[slot].Skip? {
        SkipIsNormal(table, fields[i].ty);
      } else {
        TypedIsNormal(table, fields[i].ty, values[slot]);
      }
    }
  }

  lemma SkipIsNormal(table: Table, ty: string)
    ensures NormalValue(table, ty, Skip) == Skip
  {
  }
}
