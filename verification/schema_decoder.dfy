/** A left-to-right reader of objects, driven by the tables the serializer uses. */
module SchemaDecoder {
  import opened Outcomes
  import opened Bytes
  import opened TlCodec
  import opened TlLists
  import opened Schema

  const INPUT_USER: u32 := 0xf211_58c6  // as the schema declares it

  // ----- the reader -----------------------------------------------------------------------------------

  function ReadVector<T(!new)>(entry: bytes -> Reading<T>, s: bytes): (r: Reading<seq<T>>)
    requires Consumes(entry)
    ensures r.Ok? ==> |r.value.1| <= |s|
  {
    var s :- Expect(s, VECTOR);
    var (count, s) :- ReadU32(s);
    ReadList(entry, s, count)
  }

  function ReadMessageId(s: bytes): (r: Reading<i32>)
    ensures r.Ok? ==> |r.value.1| <= |s|
  {
    var s :- Expect(s, INPUT_MESSAGE_ID);
    ReadI32(s)
  }

  function ReadUserId(s: bytes): (r: Reading<i64>)
    ensures r.Ok? ==> |r.value.1| <= |s|
  {
    var s :- Expect(s, INPUT_USER);
    var (user, s) :- ReadI64(s);
    var (hash, s) :- ReadI64(s);
    if hash == 0 then Ok((user, s)) else Err(SchemaMismatch)
  }

  function ReadBool(s: bytes): (r: Reading<Value>)
    ensures r.Ok? ==> |r.value.1| <= |s|
  {
    var (id, s) :- ReadU32(s);
    if id == BOOL_TRUE then Ok((Int(1), s))
    else if id == BOOL_FALSE then Ok((Int(0), s))
    else Err(UnexpectedConstructor)
  }

  function Map<T>(r: Reading<T>, wrap: T -> Value): (m: Reading<Value>)
    ensures m.Ok? ==> r.Ok? && m.value.1 == r.value.1
  {
    var (x, s) :- r;
    Ok((wrap(x), s))
  }

  // The types whose values need no table; any other type is a boxed object.
  function ReadBare(ty: string, s: bytes): (r: Option<Reading<Value>>)
    ensures r.Some? && r.value.Ok? ==> |r.value.value.1| <= |s|
  {
    if ty == "int" then Some(Map(ReadI32(s), x => Int(x)))
    else if ty == "long" then Some(Map(ReadI64(s), x => Long(x)))
    else if ty == "string" then Some(Map(ReadBytes(s), b => Str(b)))
    else if ty == "bytes" then Some(Map(ReadBytes(s), b => Blob(b)))
    else if ty == "Bool" then Some(ReadBool(s))
    else if ty == "Vector<int>" then Some(Map(ReadVector(ReadI32, s), xs => Ints(xs)))
    else if ty == "Vector<long>" then Some(Map(ReadVector(ReadI64, s), xs => Longs(xs)))
    else if ty == "Vector<InputMessage>" then Some(Map(ReadVector(ReadMessageId, s), xs => MessageIds(xs)))
    else if ty == "Vector<InputUser>" then Some(Map(ReadVector(ReadUserId, s), xs => UserIds(xs)))
    else None
  }

  function ReadValue(table: Table, ty: string, s: bytes): (r: Reading<Value>)
    ensures r.Ok? ==> |r.value.1| <= |s|
    decreases |s|, 1, 0
  {
    match ReadBare(ty, s)
    case Some(reading) => reading
    case None =>
      var ((id, values), s) :- ReadObject(table, s);
      Ok((Boxed(id, values), s))
  }

  function ReadObject(table: Table, s: bytes): (r: Reading<(u32, seq<Value>)>)
    ensures r.Ok? ==> |r.value.1| <= |s|
    decreases |s|, 0, 0
  {
    var (id, s) :- ReadU32(s);
    if id !in table then Err(UnexpectedConstructor)
    else
      var (values, s) :- ReadFields(table, table[id].fields, 0, [], s);
      Ok(((id, values), s))
  }

  // Reads the fields from the i-th on, given the flags words read so far.
  function ReadFields(table: Table, fields: seq<Field>, i: nat, words: seq<u32>, s: bytes): (r: Reading<seq<Value>>)
    requires i <= |fields|
    ensures r.Ok? ==> |r.value.1| <= |s|
    decreases |s|, 2, |fields| - i
  {
    if i == |fields| then Ok(([], s))
    else if fields[i].IsFlags() then
      var (word, s) :- ReadU32(s);
      ReadFields(table, fields, i + 1, words + [word], s)
    else
      var (value, s) :- ReadField(table, fields[i], words, s);
      var (others, s) :- ReadFields(table, fields, i + 1, words, s);
      Ok(([value] + others, s))
  }

  function ReadField(table: Table, field: Field, words: seq<u32>, s: bytes): (r: Reading<Value>)
    ensures r.Ok? ==> |r.value.1| <= |s|
    decreases |s|, 1, 1
  {
    if !field.IsGated() then ReadValue(table, field.ty, s)
    else if field.flagsField >= |words| then Err(SchemaMismatch)
    else
      var present := Bit(words[field.flagsField], field.flagsBit);
      if field.IsBit() then Ok((if present then True else False, s))
      else if present then ReadValue(table, field.ty, s)
      else Ok((Skip, s))
  }
}
