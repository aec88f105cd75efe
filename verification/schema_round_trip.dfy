/**
 Reading undoes writing: for all tables of the assumed shape, well-typed values are recovered from
 their text exactly when values sharing a flag bit are present together.
 */
module SchemaRoundTrip {
  import opened Outcomes
  import opened Bytes
  import opened TlCodec
  import opened TlLists
  import opened Schema
  import opened SchemaDecoder

  // ----- well-typed values ---------------------------------------------------------------------------

  predicate IsBare(ty: string) {
    || ty == "int" || ty == "long" || ty == "string" || ty == "bytes" || ty == "Bool"
    || ty == "Vector<int>" || ty == "Vector<long>" || ty == "Vector<InputMessage>" || ty == "Vector<InputUser>"
  }

  // The value forms of the table-free types.  A list of users is only readable when it is empty,
  // because its entries carry another identifier than the schema's.
  predicate TypedBare(ty: string, v: Value)
    requires IsBare(ty)
  {
    if ty == "int" then v.Int?
    else if ty == "long" then v.Long?
    else if ty == "string" then v.Str?
    else if ty == "bytes" then v.Blob?
    else if ty == "Bool" then v == Int(0) || v == Int(1)
    else if ty == "Vector<int>" then v.Ints? && |v.ints| < 0x1_0000_0000
    else if ty == "Vector<long>" then v.Longs? && |v.longs| < 0x1_0000_0000
    else if ty == "Vector<InputMessage>" then v.MessageIds? && |v.ids| < 0x1_0000_0000
    else v == UserIds([])
  }

  predicate Typed(table: Table, ty: string, v: Value)
    decreases v
  {
    if IsBare(ty) then TypedBare(ty, v) else v.Boxed? && TypedObject(table, v.id, v.values)
  }

  predicate TypedObject(table: Table, id: u32, values: seq<Value>)
    decreases values, 1, 0
  {
    id in table && |values| == Slot(table[id].fields, |table[id].fields|) && TypedFrom(table, table[id].fields, values, 0)
  }

  predicate TypedFrom(table: Table, fields: seq<Field>, values: seq<Value>, i: nat)
    requires i <= |fields|
    decreases values, 0, |fields| - i
  {
    i == |fields| || (TypedField(table, fields, values, i) && TypedFrom(table, fields, values, i + 1))
  }

  predicate TypedField(table: Table, fields: seq<Field>, values: seq<Value>, i: nat)
    requires i < |fields|
    decreases values, 0, 0
  {
    var field, slot := fields[i], Slot(fields, i);
    || field.IsFlags()
    || (slot < |values| &&
        if field.IsBit() then values[slot].True? || values[slot].False?
        else (field.IsGated() && values[slot].Skip?) || Typed(table, field.ty, values[slot]))
  }

  // ----- values that share a bit -------------------------------------------------------------------------

  predicate SameGate(a: Field, b: Field) {
    a.IsGated() && b.IsGated() && a.flagsField == b.flagsField && a.flagsBit == b.flagsBit
  }

  // Fields gated by the same bit are supplied together or not at all.
  ghost predicate Agree(fields: seq<Field>, values: seq<Value>) {
    forall i, j :: 0 <= i < |fields| && 0 <= j < |fields| && SameGate(fields[i], fields[j]) ==>
      (Supplied(fields, values, i) <==> Supplied(fields, values, j))
  }

  // And so in every nested object.
  ghost predicate Agreeing(table: Table, id: u32, values: seq<Value>)
    decreases values, 1
  {
    && id in table && Agree(table[id].fields, values)
    && forall j :: 0 <= j < |values| ==> AgreeingValue(table, values[j])
  }

  ghost predicate AgreeingValue(table: Table, v: Value)
    decreases v, 0
  {
    v.Boxed? ==> Agreeing(table, v.id, v.values)
  }

  // ----- vectors ----------------------------------------------------------------------------------------

  lemma VectorIsRead<T(!new)>(entry: T -> bytes, read: bytes -> Reading<T>, xs: seq<T>, rest: bytes)
    requires Consumes(read) && ReadsBack(entry, read) && |xs| < 0x1_0000_0000
    ensures ReadVector(read, VectorText(entry, xs) + rest) == Ok((xs, rest))
  {
    hide Le32, Expect, ReadU32, ListText, ReadList, Consumes, ReadsBack;
    var list := ListText(entry, xs) + rest;
    assert VectorText(entry, xs) + rest == Le32(VECTOR) + (Le32(|xs|) + list);
    ExpectAfterWrite(VECTOR, Le32(|xs|) + list);
    ReadU32AfterWrite(|xs|, list);
    ListIsRead(entry, read, xs, rest);
  }

  lemma IntsAreRead(xs: seq<i32>, rest: bytes)
    requires |xs| < 0x1_0000_0000
    ensures ReadVector(ReadI32, VectorText(EncodeI32, xs) + rest) == Ok((xs, rest))
  {
    hide ReadVector, VectorText;
    assert ReadsBack(EncodeI32, ReadI32) by {
      forall x: i32, tail ensures ReadI32(EncodeI32(x) + tail) == Ok((x, tail)) {
        ReadI32AfterWrite(x, tail);
      }
    }
    VectorIsRead(EncodeI32, ReadI32, xs, rest);
  }

  lemma LongsAreRead(xs: seq<i64>, rest: bytes)
    requires |xs| < 0x1_0000_0000
    ensures ReadVector(ReadI64, VectorText(EncodeI64, xs) + rest) == Ok((xs, rest))
  {
    hide ReadVector, VectorText;
    assert ReadsBack(EncodeI64, ReadI64) by {
      forall x: i64, tail ensures ReadI64(EncodeI64(x) + tail) == Ok((x, tail)) {
        ReadI64AfterWrite(x, tail);
      }
    }
    VectorIsRead(EncodeI64, ReadI64, xs, rest);
  }

  lemma MessageIdIsRead(x: i32, rest: bytes)
    ensures ReadMessageId(MessageIdText(x) + rest) == Ok((x, rest))
  {
    hide Le32, Expect, ReadI32, EncodeI32;
    assert MessageIdText(x) + rest == Le32(INPUT_MESSAGE_ID) + (EncodeI32(x) + rest);
    ExpectAfterWrite(INPUT_MESSAGE_ID, EncodeI32(x) + rest);
    ReadI32AfterWrite(x, rest);
  }

  lemma MessageIdsAreRead(xs: seq<i32>, rest: bytes)
    requires |xs| < 0x1_0000_0000
    ensures ReadVector(ReadMessageId, VectorText(MessageIdText, xs) + rest) == Ok((xs, rest))
  {
    hide ReadVector, VectorText;
    assert ReadsBack(MessageIdText, ReadMessageId) by {
      forall x: i32, tail ensures ReadMessageId(MessageIdText(x) + tail) == Ok((x, tail)) {
        MessageIdIsRead(x, tail);
      }
    }
    VectorIsRead(MessageIdText, ReadMessageId, xs, rest);
  }

  lemma BoolIsRead(x: i32, rest: bytes)
    requires x == 0 || x == 1
    ensures ReadBool(Le32(if x != 0 then BOOL_TRUE else BOOL_FALSE) + rest) == Ok((Int(x), rest))
  {
    hide Le32, ReadU32;
    ReadU32AfterWrite(if x != 0 then BOOL_TRUE else BOOL_FALSE, rest);
  }

  lemma NoUsersAreRead(rest: bytes)
    ensures ReadVector(ReadUserId, VectorText(UserIdText, []) + rest) == Ok(([], rest))
  {
    hide Le32, Expect, ReadU32;
    assert VectorText(UserIdText, []) + rest == Le32(VECTOR) + (Le32(0) + rest);
    ExpectAfterWrite(VECTOR, Le32(0) + rest);
    ReadU32AfterWrite(0, rest);
  }

  // A list with a user in it is written under an identifier the schema's reader rejects.
  lemma UsersAreNotRead(xs: seq<i64>, rest: bytes)
    requires 0 < |xs| < 0x1_0000_0000
    ensures ReadVector(ReadUserId, VectorText(UserIdText, xs) + rest) == Err(UnexpectedConstructor)
  {
    hide Le32, Expect, ReadU32, EncodeI64;
    var list := ListText(UserIdText, xs) + rest;
    assert VectorText(UserIdText, xs) + rest == Le32(VECTOR) + (Le32(|xs|) + list);
    ExpectAfterWrite(VECTOR, Le32(|xs|) + list);
    ReadU32AfterWrite(|xs|, list);
    var tail := EncodeI64(xs[0]) + EncodeI64(0) + ListText(UserIdText, xs[1..]) + rest;
    assert list == Le32(WRITTEN_INPUT_USER) + tail;
    OtherIdentifierIsRejected(WRITTEN_INPUT_USER, INPUT_USER, tail);
  }

  // So of the lists of users exactly the empty one is read back.
  lemma UsersAreReadExactlyWhenNone(xs: seq<i64>, rest: bytes)
    requires |xs| < 0x1_0000_0000
    ensures ReadVector(ReadUserId, VectorText(UserIdText, xs) + rest) == Ok((xs, rest)) <==> xs == []
  {
    hide ReadVector, VectorText;
    if xs == [] {
      NoUsersAreRead(rest);
    } else {
      UsersAreNotRead(xs, rest);
    }
  }

  lemma OtherIdentifierIsRejected(written: u32, expected: u32, rest: bytes)
    requires written != expected
    ensures Expect(Le32(written) + rest, expected) == Err(UnexpectedConstructor)
  {
    hide Le32, ReadU32;
    ReadU32AfterWrite(written, rest);
  }

  lemma BareIsRead(table: Table, ty: string, v: Value, rest: bytes)
    requires WellFormedTable(table) && IsBare(ty) && TypedBare(ty, v) && ValueText(table, ty, v).Ok?
    ensures ReadBare(ty, ValueText(table, ty, v).value + rest) == Some(Ok((v, rest)))
  {
    hide EncodeI32, EncodeI64, EncodeBytes, ReadI32, ReadI64, ReadBytes, ReadBool, ReadVector, VectorText, Le32;
    match v {
      case Int(x) => if ty == "int" { ReadI32AfterWrite(x, rest); } else { BoolIsRead(x, rest); }
      case Long(x) => ReadI64AfterWrite(x, rest);
      case Str(text) => ReadBytesAfterWrite(text, rest);
      case Blob(data) => ReadBytesAfterWrite(data, rest);
      case Ints(xs) => IntsAreRead(xs, rest);
      case Longs(xs) => LongsAreRead(xs, rest);
      case MessageIds(xs) => MessageIdsAreRead(xs, rest);
      case UserIds(xs) => NoUsersAreRead(rest);
    }
  }

  // ----- objects ------------------------------------------------------------------------------------------

  // The flags words in front of the i-th field.
  function Words(fields: seq<Field>, values: seq<Value>, i: nat): (words: seq<u32>)
    requires WellFormed(fields) && i <= |fields|
    ensures |words| == FlagsBefore(fields, i)
  {
    seq(FlagsBefore(fields, i), k requires 0 <= k => FlagsWord(fields, values, k))
  }

  // Under agreement a field's bit says whether that very field was supplied.
  lemma GateSaysSupplied(fields: seq<Field>, values: seq<Value>, i: nat)
    requires WellFormed(fields) && Agree(fields, values) && i < |fields| && fields[i].IsGated()
    ensures Bit(FlagsWord(fields, values, fields[i].flagsField), fields[i].flagsBit) <==> Supplied(fields, values, i)
  {
    hide Bit, Supplied, FlagsWord;
    var k, b := fields[i].flagsField, fields[i].flagsBit;
    FlagsWordMeaning(fields, values, k, b);
    assert GatedBy(fields[i], k, b);
    if SomeSupplied(fields, values, k, b, |fields|) {
      var j :| 0 <= j < |fields| && GatedBy(fields[j], k, b) && Supplied(fields, values, j);
      assert SameGate(fields[i], fields[j]);
    }
  }

  lemma {:induction false} ValueIsRead(table: Table, ty: string, v: Value, rest: bytes)
    requires WellFormedTable(table) && Typed(table, ty, v) && AgreeingValue(table, v) && ValueText(table, ty, v).Ok?
    ensures ReadValue(table, ty, ValueText(table, ty, v).value + rest) == Ok((v, rest))
    decreases v
  {
    hide ReadObject, ObjectText, ReadBare, TypedObject, Agreeing;
    if IsBare(ty) {
      BareIsRead(table, ty, v, rest);
    } else {
      assert ReadBare(ty, ValueText(table, ty, v).value + rest).None? by {
        BoxedIsNotBare(ty, ValueText(table, ty, v).value + rest);
      }
      ObjectIsRead(table, v.id, v.values, rest);
    }
  }

  lemma BoxedIsNotBare(ty: string, s: bytes)
    requires !IsBare(ty)
    ensures ReadBare(ty, s).None?
  {
  }

  lemma {:induction false} ObjectIsRead(table: Table, id: u32, values: seq<Value>, rest: bytes)
    requires WellFormedTable(table) && TypedObject(table, id, values) && Agreeing(table, id, values)
    requires ObjectText(table, id, values).Ok?
    ensures ReadObject(table, ObjectText(table, id, values).value + rest) == Ok(((id, values), rest))
    decreases values, 1, 0
  {
    hide FieldsText, ReadFields, TypedFrom, Agree, Le32, ReadU32;
    var fields := table[id].fields;
    var body := FieldsText(table, fields, values, 0).value;
    assert ObjectText(table, id, values).value + rest == Le32(id) + (body + rest);
    ReadU32AfterWrite(id, body + rest);
    FieldsAreRead(table, fields, values, 0, rest);
    assert Words(fields, values, 0) == [] && values[Slot(fields, 0)..] == values;
  }

  lemma {:induction false} FieldsAreRead(table: Table, fields: seq<Field>, values: seq<Value>, i: nat, rest: bytes)
    requires WellFormedTable(table) && WellFormed(fields) && i <= |fields|
    requires |values| == Slot(fields, |fields|) && TypedFrom(table, fields, values, i)
    requires Agree(fields, values) && forall j :: 0 <= j < |values| ==> AgreeingValue(table, values[j])
    requires FieldsText(table, fields, values, i).Ok?
    ensures Slot(fields, i) <= |values|
    ensures ReadFields(table, fields, i, Words(fields, values, i), FieldsText(table, fields, values, i).value + rest)
         == Ok((values[Slot(fields, i)..], rest))
    decreases values, 0, |fields| - i
  {
    hide FieldText, ReadField, TypedField, Agree, AgreeingValue, Le32, ReadU32, FlagsWord;
    SlotsGrow(fields, i, |fields|);
    if i < |fields| {
      var head, tail := FieldText(table, fields, values, i).value, FieldsText(table, fields, values, i + 1).value;
      FieldsAreRead(table, fields, values, i + 1, rest);
      assert head + tail + rest == head + (tail + rest);
      if fields[i].IsFlags() {
        FlagsFieldIsRead(table, fields, values, i, tail + rest);
      } else {
        SlotsGrow(fields, i + 1, |fields|);
        FieldIsRead(table, fields, values, i, tail + rest);
        assert Words(fields, values, i + 1) == Words(fields, values, i);
        assert [values[Slot(fields, i)]] + values[Slot(fields, i + 1)..] == values[Slot(fields, i)..];
      }
    } else {
      assert values[Slot(fields, i)..] == [];
      assert FieldsText(table, fields, values, i).value + rest == rest;
    }
  }

  lemma {:induction false} SlotsGrow(fields: seq<Field>, i: nat, n: nat)
    requires i <= n <= |fields|
    ensures Slot(fields, i) <= Slot(fields, n)
    decreases n
  {
    if i < n {
      SlotsGrow(fields, i, n - 1);
    }
  }

  lemma FlagsFieldIsRead(table: Table, fields: seq<Field>, values: seq<Value>, i: nat, rest: bytes)
    requires WellFormedTable(table) && WellFormed(fields) && i < |fields| && fields[i].IsFlags()
    ensures FieldText(table, fields, values, i).Ok?
    ensures var r := ReadU32(FieldText(table, fields, values, i).value + rest);
      r.Ok? && r.value.1 == rest && Words(fields, values, i) + [r.value.0] == Words(fields, values, i + 1)
  {
    hide Le32, ReadU32, FlagsWord;
    assert WellPlaced(fields, i);
    ReadU32AfterWrite(FlagsWord(fields, values, fields[i].flagsField), rest);
  }

  lemma {:induction false} FieldIsRead(table: Table, fields: seq<Field>, values: seq<Value>, i: nat, rest: bytes)
    requires WellFormedTable(table) && WellFormed(fields) && i < |fields| && !fields[i].IsFlags()
    requires Slot(fields, i) < |values| && TypedField(table, fields, values, i)
    requires Agree(fields, values) && AgreeingValue(table, values[Slot(fields, i)])
    requires FieldText(table, fields, values, i).Ok?
    ensures ReadField(table, fields[i], Words(fields, values, i), FieldText(table, fields, values, i).value + rest)
         == Ok((values[Slot(fields, i)], rest))
    decreases values, 0, 0
  {
    hide ReadValue, ValueText, Typed, Agree, AgreeingValue, Bit, FlagsWord;
    var field, v := fields[i], values[Slot(fields, i)];
    assert WellPlaced(fields, i);
    if field.IsGated() {
      GateSaysSupplied(fields, values, i);
      assert Words(fields, values, i)[field.flagsField] == FlagsWord(fields, values, field.flagsField);
    }
    if field.IsBit() || (field.IsGated() && v.Skip?) {
      assert FieldText(table, fields, values, i).value + rest == rest;
    } else {
      ValueIsRead(table, field.ty, v, rest);
    }
  }

  // ----- what is read always agrees ---------------------------------------------------------------------------

  lemma BareIsPlain(ty: string, s: bytes)
    requires ReadBare(ty, s).Some? && ReadBare(ty, s).value.Ok?
    ensures var v := ReadBare(ty, s).value.value.0; !v.Skip? && !v.Boxed?
  {
    hide ReadI32, ReadI64, ReadBytes, ReadVector, ReadU32;
  }

  lemma {:induction false} ReadValuesAgree(table: Table, ty: string, s: bytes)
    requires ReadValue(table, ty, s).Ok?
    ensures var v := ReadValue(table, ty, s).value.0; !v.Skip? && AgreeingValue(table, v)
    decreases |s|, 1, 0
  {
    hide ReadBare, ReadObject, Agreeing;
    if ReadBare(ty, s).Some? {
      BareIsPlain(ty, s);
    } else {
      ReadObjectsAgree(table, s);
    }
  }

  lemma {:induction false} ReadObjectsAgree(table: Table, s: bytes)
    requires ReadObject(table, s).Ok?
    ensures var (id, values) := ReadObject(table, s).value.0; Agreeing(table, id, values)
    decreases |s|, 0, 0
  {
    hide ReadFields, ReadU32, AgreeingValue, Supplied, Bit;
    var (id, rest) := ReadU32(s).value;
    var fields := table[id].fields;
    var words := ReadFieldsFollowGates(table, fields, 0, [], rest, []);
    var values := ReadFields(table, fields, 0, [], rest).value.0;
    assert [] + values == values;
  }

  // The flags words of the text decide which gated values are present, and nested objects agree.
  lemma {:induction false} ReadFieldsFollowGates(table: Table, fields: seq<Field>, i: nat, words: seq<u32>, s: bytes,
        done: seq<Value>)
    returns (final: seq<u32>)
    requires i <= |fields| && |done| == Slot(fields, i) && ReadFields(table, fields, i, words, s).Ok?
    requires forall v :: v in done ==> AgreeingValue(table, v)
    ensures words <= final
    ensures var values := done + ReadFields(table, fields, i, words, s).value.0;
      && (forall v :: v in values ==> AgreeingValue(table, v))
      && forall j :: i <= j < |fields| && fields[j].IsGated() ==> Follows(fields, values, j, final)
    decreases |s|, 2, |fields| - i
  {
    hide ReadField, ReadU32, AgreeingValue, Follows;
    if i == |fields| {
      final := words;
    } else if fields[i].IsFlags() {
      var (word, rest) := ReadU32(s).value;
      final := ReadFieldsFollowGates(table, fields, i + 1, words + [word], rest, done);
    } else {
      var (value, rest) := ReadField(table, fields[i], words, s).value;
      ReadFieldFollowsGate(table, fields[i], words, s);
      final := ReadFieldsFollowGates(table, fields, i + 1, words, rest, done + [value]);
      var others := ReadFields(table, fields, i + 1, words, rest).value.0;
      assert done + [value] + others == done + ([value] + others);
      if fields[i].IsGated() {
        FieldFollows(table, fields, done, value, others, i, words, final, s);
      }
    }
  }

  ghost predicate Follows(fields: seq<Field>, values: seq<Value>, i: nat, words: seq<u32>)
    requires i < |fields|
  {
    && fields[i].flagsField < |words|
    && (Supplied(fields, values, i) <==> Bit(words[fields[i].flagsField], fields[i].flagsBit))
  }

  lemma ReadFieldFollowsGate(table: Table, field: Field, words: seq<u32>, s: bytes)
    requires ReadField(table, field, words, s).Ok?
    ensures AgreeingValue(table, ReadField(table, field, words, s).value.0)
    ensures field.IsGated() ==>
      && field.flagsField < |words|
      && var v := ReadField(table, field, words, s).value.0;
        Bit(words[field.flagsField], field.flagsBit) <==> if field.IsBit() then v.True? else !v.Skip?
    decreases |s|, 1, 1
  {
    hide ReadValue, Agreeing, Bit;
    if ReadValue(table, field.ty, s).Ok? {
      ReadValuesAgree(table, field.ty, s);
    }
  }

  lemma FieldFollows(table: Table, fields: seq<Field>, done: seq<Value>, value: Value, others: seq<Value>, i: nat,
      words: seq<u32>, final: seq<u32>, s: bytes)
    requires i < |fields| && fields[i].IsGated() && |done| == Slot(fields, i) && words <= final
    requires fields[i].flagsField < |words|
    requires Bit(words[fields[i].flagsField], fields[i].flagsBit) <==> if fields[i].IsBit() then value.True? else !value.Skip?
    ensures Follows(fields, done + ([value] + others), i, final)
  {
    hide Bit;
    assert (done + ([value] + others))[|done|] == value;
  }

  // Well-typed values come back from their text exactly when those sharing a bit are given together,
  // at every level of nesting.
  lemma RecoveredExactlyWhenAgreeing(table: Table, id: u32, values: seq<Value>, rest: bytes)
    requires WellFormedTable(table) && TypedObject(table, id, values) && ObjectText(table, id, values).Ok?
    ensures ReadObject(table, ObjectText(table, id, values).value + rest) == Ok(((id, values), rest))
       <==> Agreeing(table, id, values)
  {
    hide ReadObject, ObjectText, TypedObject, Agreeing;
    var text := ObjectText(table, id, values).value + rest;
    if Agreeing(table, id, values) {
      ObjectIsRead(table, id, values, rest);
    } else if ReadObject(table, text).Ok? {
      ReadObjectsAgree(table, text);
    }
  }
}
