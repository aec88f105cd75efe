/**
 Schema-driven serialization: what the table of constructors makes of a list of argument values.
 A table is any map from constructor identifiers to field lists; the generator establishes the
 shape assumed of it here.
 */
module Schema {
  import opened Outcomes
  import opened Bytes
  import opened TlCodec
  import opened TlLists
  import NumberTheory

  // ----- tables ----------------------------------------------------------------------------------

  const NO_FLAGS: nat := 0xff
  const FLAGS_WORDS: nat := 3

  datatype Field = Field(name: string, ty: string, flagsField: nat, flagsBit: nat) {
    predicate IsFlags() {
      ty == "#"
    }

    predicate IsGated() {
      !IsFlags() && flagsField != NO_FLAGS
    }

    // A gated field without a body, whose value is its bit.
    predicate IsBit() {
      IsGated() && (ty == "true" || ty == "false")
    }
  }

  datatype Meta = Meta(id: u32, name: string, result: string, fields: seq<Field>)

  type Table = map<u32, Meta>

  // How many flags words are declared before the i-th field.
  function FlagsBefore(fields: seq<Field>, i: nat): (n: nat)
    requires i <= |fields|
    ensures n <= i
  {
    if i == 0 then 0 else FlagsBefore(fields, i - 1) + if fields[i - 1].IsFlags() then 1 else 0
  }

  // How many values the fields before the i-th take; a flags word takes none.
  function Slot(fields: seq<Field>, i: nat): (n: nat)
    requires i <= |fields|
    ensures n <= i
  {
    if i == 0 then 0 else Slot(fields, i - 1) + if fields[i - 1].IsFlags() then 0 else 1
  }

  // Flags words are numbered in order of declaration, every gate refers to one declared earlier and
  // to a bit of it, and there are at most three.
  ghost predicate WellFormed(fields: seq<Field>) {
    && FlagsBefore(fields, |fields|) <= FLAGS_WORDS
    && forall i :: 0 <= i < |fields| ==> WellPlaced(fields, i)
  }

  ghost predicate WellPlaced(fields: seq<Field>, i: nat)
    requires i < |fields|
  {
    && (fields[i].IsFlags() ==> fields[i].flagsField == FlagsBefore(fields, i) < FLAGS_WORDS)
    && (fields[i].IsGated() ==> fields[i].flagsField < FlagsBefore(fields, i) <= FLAGS_WORDS && fields[i].flagsBit < 32)
  }

  ghost predicate WellFormedTable(table: Table) {
    forall id :: id in table ==> WellFormed(table[id].fields)
  }

  // ----- values -------------------------------------------------------------------------------------

  datatype Peer =
    | Self
    | User(userId: i64, accessHash: i64)
    | Channel(channelId: i64, accessHash: i64)
    | Chat(chatId: i64)

  datatype Value =
    | Int(i: i32)
    | Long(l: i64)
    | Str(text: bytes)
    | Blob(data: bytes)
    | True
    | False
    | Skip
    | PeerValue(peer: Peer)
    | Ints(ints: seq<i32>)
    | Longs(longs: seq<i64>)
    | MessageIds(ids: seq<i32>)
    | UserIds(users: seq<i64>)
    | ReplyTo(messageId: i32)
    | Boxed(id: u32, values: seq<Value>)
    | Empty(id: u32)
    | Raw(id: u32, body: bytes)

  const BOOL_TRUE: u32 := 0x9972_75b5
  const BOOL_FALSE: u32 := 0xbc79_9737
  const INPUT_PEER_SELF: u32 := 0x7da0_7ec9
  const INPUT_PEER_USER: u32 := 0xdde8_a54c
  const INPUT_PEER_CHANNEL: u32 := 0x27bc_bbfc
  const INPUT_PEER_CHAT: u32 := 0x35a9_5cb9
  const INPUT_MESSAGE_ID: u32 := 0xa676_a322
  const WRITTEN_INPUT_USER: u32 := 0xf211_c586  // the identifier written; the schema declares another
  const INPUT_REPLY_TO_MESSAGE: u32 := 0x3bd4_b7c2

  // ----- flags words ---------------------------------------------------------------------------------

  function Bit(word: nat, b: nat): bool {
    if b == 0 then word % 2 == 1 else Bit(word / 2, b - 1)
  }

  function SetBit(word: nat, b: nat): nat {
    if b == 0 then word / 2 * 2 + 1 else SetBit(word / 2, b - 1) * 2 + word % 2
  }

  lemma {:induction false} SetBitSets(word: nat, b: nat, c: nat)
    ensures Bit(SetBit(word, b), c) <==> c == b || Bit(word, c)
    decreases b
  {
    var high := if b == 0 then word / 2 else SetBit(word / 2, b - 1);
    var low := if b == 0 then 1 else word % 2;
    assert SetBit(word, b) == high * 2 + low;
    assert (high * 2 + low) / 2 == high && (high * 2 + low) % 2 == low;
    if b > 0 && c > 0 {
      SetBitSets(word / 2, b - 1, c - 1);
    }
  }

  lemma {:induction false} SetBitOfZero(b: nat)
    ensures SetBit(0, b) == Pow(2, b)
  {
    if b > 0 {
      SetBitOfZero(b - 1);
    }
  }

  lemma {:induction false} SetBitFits(word: nat, b: nat, width: nat)
    requires word < Pow(2, width) && b < width
    ensures SetBit(word, b) < Pow(2, width)
    decreases b
  {
    assert Pow(2, width) == 2 * Pow(2, width - 1);
    if b > 0 {
      SetBitFits(word / 2, b - 1, width - 1);
    }
  }

  lemma WordWidth()
    ensures Pow(2, 32) == 0x1_0000_0000
  {
    assert Pow(2, 8) == 0x100;
    NumberTheory.PowOfSum(2, 8, 8);
    NumberTheory.PowOfSum(2, 16, 16);
  }

  function OrBit(word: u32, b: nat): u32
    requires b < 32
  {
    WordWidth();
    SetBitFits(word, b, 32);
    SetBit(word, b)
  }

  lemma NoBitsInZero(b: nat)
    ensures !Bit(0, b)
  {
  }

  // Whether the value for the i-th field sets the bit that gates it.
  predicate Supplied(fields: seq<Field>, values: seq<Value>, i: nat)
    requires i < |fields|
  {
    var slot := Slot(fields, i);
    && fields[i].IsGated() && slot < |values|
    && if fields[i].IsBit() then values[slot].True? else !values[slot].Skip?
  }

  // The k-th flags word after looking at the first i fields.
  function FlagsUpTo(fields: seq<Field>, values: seq<Value>, k: nat, i: nat): u32
    requires WellFormed(fields) && i <= |fields|
  {
    if i == 0 then 0
    else
      var word := FlagsUpTo(fields, values, k, i - 1);
      assert WellPlaced(fields, i - 1);
      if fields[i - 1].IsGated() && fields[i - 1].flagsField == k && Supplied(fields, values, i - 1)
      then OrBit(word, fields[i - 1].flagsBit)
      else word
  }

  function FlagsWord(fields: seq<Field>, values: seq<Value>, k: nat): u32
    requires WellFormed(fields)
  {
    FlagsUpTo(fields, values, k, |fields|)
  }

  predicate GatedBy(field: Field, k: nat, b: nat) {
    field.IsGated() && field.flagsField == k && field.flagsBit == b
  }

  ghost predicate SomeSupplied(fields: seq<Field>, values: seq<Value>, k: nat, b: nat, i: nat)
    requires i <= |fields|
  {
    exists j :: 0 <= j < i && GatedBy(fields[j], k, b) && Supplied(fields, values, j)
  }

  // A bit of a flags word is set exactly when some field it gates was supplied.
  lemma FlagsWordMeaning(fields: seq<Field>, values: seq<Value>, k: nat, b: nat)
    requires WellFormed(fields)
    ensures Bit(FlagsWord(fields, values, k), b) <==> SomeSupplied(fields, values, k, b, |fields|)
  {
    FlagsUpToMeaning(fields, values, k, b, |fields|);
  }

  lemma {:induction false} FlagsUpToMeaning(fields: seq<Field>, values: seq<Value>, k: nat, b: nat, i: nat)
    requires WellFormed(fields) && i <= |fields|
    ensures Bit(FlagsUpTo(fields, values, k, i), b) <==> SomeSupplied(fields, values, k, b, i)
    decreases i
  {
    hide Bit, SetBit, Supplied, Field.IsGated;
    if i == 0 {
      NoBitsInZero(b);
    } else {
      FlagsUpToMeaning(fields, values, k, b, i - 1);
      assert WellPlaced(fields, i - 1);
      SetBitSets(FlagsUpTo(fields, values, k, i - 1), fields[i - 1].flagsBit, b);
    }
  }

  // ----- the text of a value ---------------------------------------------------------------------------

  function PeerText(peer: Peer): bytes {
    match peer
    case Self => Le32(INPUT_PEER_SELF)
    case User(user, hash) => Le32(INPUT_PEER_USER) + EncodeI64(user) + EncodeI64(hash)
    case Channel(channel, hash) => Le32(INPUT_PEER_CHANNEL) + EncodeI64(channel) + EncodeI64(hash)
    case Chat(chat) => Le32(INPUT_PEER_CHAT) + EncodeI64(chat)
  }

  // The vector header; the count is cut to 32 bits.
  function VectorHead(count: nat): bytes {
    Le32(VECTOR) + Le32(count % 0x1_0000_0000)
  }

  function MessageIdText(id: i32): bytes {
    Le32(INPUT_MESSAGE_ID) + EncodeI32(id)
  }

  function UserIdText(user: i64): bytes {
    Le32(WRITTEN_INPUT_USER) + EncodeI64(user) + EncodeI64(0)
  }

  function VectorText<T>(entry: T -> bytes, xs: seq<T>): bytes {
    VectorHead(|xs|) + ListText(entry, xs)
  }

  function ReplyText(messageId: i32): bytes {
    Le32(INPUT_REPLY_TO_MESSAGE) + Le32(0) + EncodeI32(messageId)
  }

  // A long in an int field keeps its residue, and an int in a long field its value.
  lemma CoercedWords(x: i64, y: i32)
    ensures LongText("int", x) == Le32(x % 0x1_0000_0000) && LongText("long", x) == Le64(x % 0x1_0000_0000_0000_0000)
    ensures IntText("int", y) == Le32(y % 0x1_0000_0000) && IntText("long", y) == Le64(y % 0x1_0000_0000_0000_0000)
  {
    hide Le;
  }

  lemma {:induction false} SlotCounts(fields: seq<Field>, n: nat)
    requires n <= |fields|
    ensures Slot(fields, n) == |set i | 0 <= i < n && fields[i].ty != "#"|
    decreases n
  {
    var taking := set i | 0 <= i < n && fields[i].ty != "#";
    if n > 0 {
      SlotCounts(fields, n - 1);
      var earlier := set i | 0 <= i < n - 1 && fields[i].ty != "#";
      assert taking == if fields[n - 1].ty != "#" then earlier + {n - 1} else earlier;
    }
  }

  // Unknown identifiers, and more values than there are fields to take them, are refused.
  lemma UnknownOrTooMany(table: Table, id: u32, values: seq<Value>)
    requires WellFormedTable(table)
    ensures id !in table || |values| > |set i | 0 <= i < |table[id].fields| && table[id].fields[i].ty != "#"| ==>
      ObjectText(table, id, values) == Err(SchemaMismatch)
  {
    hide FieldsText;
    if id in table {
      SlotCounts(table[id].fields, |table[id].fields|);
    }
  }

  // The identifiers on the wire.
  lemma IdentifiersInBytes(peer: Peer, x: i32, user: i64, count: nat)
    ensures PeerText(peer) == match peer
                              case Self => Le32(0x7da0_7ec9)
                              case User(id, hash) => Le32(0xdde8_a54c) + EncodeI64(id) + EncodeI64(hash)
                              case Channel(id, hash) => Le32(0x27bc_bbfc) + EncodeI64(id) + EncodeI64(hash)
                              case Chat(id) => Le32(0x35a9_5cb9) + EncodeI64(id)
    ensures MessageIdText(x) == Le32(0xa676_a322) + EncodeI32(x)
    ensures UserIdText(user) == Le32(0xf211_c586) + EncodeI64(user) + EncodeI64(0)
    ensures ReplyText(x) == Le32(0x3bd4_b7c2) + Zeros(4) + EncodeI32(x)
    ensures IntText("Bool", x) == Le32(if x == 0 then 0xbc79_9737 else 0x9972_75b5)
    ensures count < 0x1_0000_0000 ==> VectorHead(count) == Le32(0x1cb5_c415) + Le32(count)
  {
    ZeroWord();
    hide Le32, Zeros;
  }

  lemma ZeroWord()
    ensures Le32(0) == Zeros(4)
  {
  }

  function BytesText(value: bytes): Result<bytes> {
    if |value| <= MAX_BYTES_LENGTH then Ok(EncodeBytes(value)) else Err(InvalidLength)
  }

  // A long in an int field is cut to its lower half.
  function LowerHalf(value: i64): u32 {
    FromI64(value) % 0x1_0000_0000
  }

  function Only(condition: bool, text: bytes): Result<bytes> {
    if condition then Ok(text) else Err(SchemaMismatch)
  }

  function IntText(ty: string, x: i32): bytes {
    if ty == "long" then EncodeI64(x)
    else if ty == "Bool" then Le32(if x != 0 then BOOL_TRUE else BOOL_FALSE)
    else EncodeI32(x)
  }

  function LongText(ty: string, x: i64): bytes {
    if ty == "int" then Le32(LowerHalf(x)) else EncodeI64(x)
  }

  function ValueText(table: Table, ty: string, value: Value): Result<bytes>
    requires WellFormedTable(table)
    decreases value
  {
    match value
    case Int(x) => Ok(IntText(ty, x))
    case Long(x) => Ok(LongText(ty, x))
    case Str(text) => BytesText(text)
    case Blob(data) => BytesText(data)
    case PeerValue(peer) => Only(ty == "InputPeer", PeerText(peer))
    case Ints(xs) => Only(ty == "Vector<int>", VectorText(EncodeI32, xs))
    case Longs(xs) => Only(ty == "Vector<long>", VectorText(EncodeI64, xs))
    case MessageIds(xs) => Only(ty == "Vector<InputMessage>", VectorText(MessageIdText, xs))
    case UserIds(xs) => Only(ty == "Vector<InputUser>", VectorText(UserIdText, xs))
    case ReplyTo(messageId) => Only(ty == "InputReplyTo", ReplyText(messageId))
    case Empty(id) => Ok(Le32(id))
    case Boxed(id, values) => ObjectText(table, id, values)
    case Raw(id, body) => Ok(Le32(id) + body)
    case True => Err(SchemaMismatch)
    case False => Err(SchemaMismatch)
    case Skip => Err(SchemaMismatch)
  }

  // Values left out at the end count as skipped; values beyond the last field are an error.
  function ObjectText(table: Table, id: u32, values: seq<Value>): Result<bytes>
    requires WellFormedTable(table)
    decreases values, 1, 0
  {
    if id !in table || |values| > Slot(table[id].fields, |table[id].fields|) then Err(SchemaMismatch)
    else
      var body :- FieldsText(table, table[id].fields, values, 0);
      Ok(Le32(id) + body)
  }

  // The text of the fields from the i-th on.
  function FieldsText(table: Table, fields: seq<Field>, values: seq<Value>, i: nat): Result<bytes>
    requires WellFormedTable(table) && WellFormed(fields) && i <= |fields|
    decreases values, 0, |fields| - i
  {
    if i == |fields| then Ok([])
    else
      var head :- FieldText(table, fields, values, i);
      var tail :- FieldsText(table, fields, values, i + 1);
      Ok(head + tail)
  }

  function FieldText(table: Table, fields: seq<Field>, values: seq<Value>, i: nat): Result<bytes>
    requires WellFormedTable(table) && WellFormed(fields) && i < |fields|
    decreases values, 0, 0
  {
    var field, slot := fields[i], Slot(fields, i);
    if field.IsFlags() then Ok(Le32(FlagsWord(fields, values, field.flagsField)))
    else if field.IsBit() || (field.IsGated() && (slot >= |values| || values[slot].Skip?)) then Ok([])
    else if slot >= |values| then Err(SchemaMismatch)
    else ValueText(table, field.ty, values[slot])
  }

  // ----- what is written before a value is refused ----------------------------------------------------------

  function ValuePrefix(table: Table, value: Value): bytes
    requires WellFormedTable(table)
    decreases value
  {
    if value.Boxed? then ObjectPrefix(table, value.id, value.values) else []
  }

  function ObjectPrefix(table: Table, id: u32, values: seq<Value>): bytes
    requires WellFormedTable(table)
    decreases values, 1, 0
  {
    if id !in table || |values| > Slot(table[id].fields, |table[id].fields|) then []
    else Le32(id) + FieldsPrefix(table, table[id].fields, values, 0)
  }

  function FieldsPrefix(table: Table, fields: seq<Field>, values: seq<Value>, i: nat): bytes
    requires WellFormedTable(table) && WellFormed(fields) && i <= |fields|
    decreases values, 0, |fields| - i
  {
    if i == |fields| then []
    else match FieldText(table, fields, values, i)
      case Ok(head) => head + FieldsPrefix(table, fields, values, i + 1)
      case Err(_) => FieldPrefix(table, fields, values, i)
  }

  function FieldPrefix(table: Table, fields: seq<Field>, values: seq<Value>, i: nat): bytes
    requires WellFormedTable(table) && WellFormed(fields) && i < |fields|
    decreases values, 0, 0
  {
    var slot := Slot(fields, i);
    if slot < |values| then ValuePrefix(table, values[slot]) else []
  }
}
