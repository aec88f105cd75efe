/**
 The generator's reading of a declaration's fields.  Its input here is the list of words between the
 constructor's name and the equals sign.
 */
module SchemaParser {
  import opened Outcomes
  import Bytes
  import opened Schema

  datatype ParseError = NotAField | MalformedOption | UnknownFlags | BadBit

  datatype Parsed<+T> = Done(value: T) | Failed(error: ParseError)

  // ----- splitting a word ----------------------------------------------------------------------------------

  function IndexOf(s: string, c: char): (r: Option<nat>)
    ensures r.Some? ==> r.value < |s|
  {
    if s == [] then None
    else if s[0] == c then Some(0)
    else match IndexOf(s[1..], c)
      case None => None
      case Some(k) => Some(k + 1)
  }

  function LastIndexOf(s: string, c: char): (r: Option<nat>)
    ensures r.Some? ==> r.value < |s|
  {
    if s == [] then None
    else if s[|s| - 1] == c then Some(|s| - 1)
    else LastIndexOf(s[..|s| - 1], c)
  }

  function DigitsValue(s: string): Option<nat> {
    if s == [] then Some(0)
    else if !('0' <= s[|s| - 1] <= '9') then None
    else match DigitsValue(s[..|s| - 1])
      case None => None
      case Some(high) => Some(high * 10 + (s[|s| - 1] as int - '0' as int))
  }

  // A decimal number below 256; a plus sign may stand in front.
  function ParseByte(s: string): Option<nat> {
    var digits := if s != [] && s[0] == '+' then s[1..] else s;
    match DigitsValue(digits)
    case None => None
    case Some(n) => if digits == [] || n > 255 then None else Some(n)
  }

  datatype Word =
    | TypeParameter
    | Declares(name: string)
    | Mandatory(name: string, ty: string)
    | Optional(name: string, flags: string, bit: string, ty: string)
    | Wrong(error: ParseError)

  function Split(word: string): Word {
    if word != [] && word[0] == '{' && word[|word| - 1] == '}' then TypeParameter
    else match IndexOf(word, ':')
      case None => Wrong(NotAField)
      case Some(colon) =>
        var name, ty := word[..colon], word[colon + 1..];
        if ty == "#" then Declares(name)
        else match IndexOf(ty, '?')
          case None => Mandatory(name, ty)
          case Some(mark) =>
            match LastIndexOf(ty[..mark], '.')
            case None => Wrong(MalformedOption)
            case Some(dot) => Optional(name, ty[..dot], ty[dot + 1..mark], ty[mark + 1..])
  }

  function Position(names: seq<string>, name: string): (r: Option<nat>)
    ensures r.Some? ==> r.value < |names| && names[r.value] == name
    ensures r.None? ==> name !in names
  {
    if names == [] then None
    else if names[0] == name then Some(0)
    else match Position(names[1..], name)
      case None => None
      case Some(k) => Some(k + 1)
  }

  // ----- one word after the other --------------------------------------------------------------------------

  // The field a word contributes, given the flags words declared before it; indices are cut to a byte.
  function FieldOf(word: Word, names: seq<string>): Parsed<Option<Field>> {
    match word
    case TypeParameter => Done(None)
    case Wrong(error) => Failed(error)
    case Declares(name) => Done(Some(Field(name, "#", |names| % 256, 0)))
    case Mandatory(name, ty) => Done(Some(Field(name, ty, NO_FLAGS, 0)))
    case Optional(name, flags, bit, ty) =>
      match Position(names, flags)
      case None => Failed(UnknownFlags)
      case Some(index) =>
        match ParseByte(bit)
        case None => Failed(BadBit)
        case Some(b) => Done(Some(Field(name, ty, index % 256, b)))
  }

  function NamesAfter(word: Word, names: seq<string>): seq<string> {
    if word.Declares? then names + [word.name] else names
  }

  function FieldsAfter(field: Option<Field>, fields: seq<Field>): seq<Field> {
    if field.Some? then fields + [field.value] else fields
  }

  function ParseFrom(words: seq<string>, fields: seq<Field>, names: seq<string>): Parsed<seq<Field>>
    decreases |words|
  {
    if words == [] then Done(fields)
    else
      var word := Split(words[0]);
      match FieldOf(word, names)
      case Failed(error) => Failed(error)
      case Done(field) => ParseFrom(words[1..], FieldsAfter(field, fields), NamesAfter(word, names))
  }

  method ParseFields(words: seq<string>) returns (r: Parsed<seq<Field>>)
    ensures r == ParseFrom(words, [], [])
  {
    hide Split, FieldOf;
    var fields: seq<Field> := [];
    var names: seq<string> := [];
    var i := 0;
    while i < |words|
      invariant 0 <= i <= |words|
      invariant ParseFrom(words[i..], fields, names) == ParseFrom(words, [], [])
    {
      assert words[i..][1..] == words[i + 1..];
      var word := Split(words[i]);
      var field := FieldOf(word, names);
      if field.Failed? {
        return Failed(field.error);
      }
      fields := FieldsAfter(field.value, fields);
      names := NamesAfter(word, names);
      i := i + 1;
    }
    return Done(fields);
  }

  // ----- what is guaranteed about the result ---------------------------------------------------------------

  // Whether an optional word can be written as a gate: its bit is one of the word's 32, and it is not
  // itself a flags word.
  predicate Usable(word: Word) {
    word.Optional? ==> word.ty != "#" && match ParseByte(word.bit) case Some(b) => b < 32 case None => true
  }

  function Declarations(words: seq<string>): nat {
    if words == [] then 0 else (if Split(words[0]).Declares? then 1 else 0) + Declarations(words[1..])
  }

  predicate AllUsable(words: seq<string>) {
    words == [] || (Usable(Split(words[0])) && AllUsable(words[1..]))
  }

  // What the generator does not check.
  predicate Serializable(words: seq<string>) {
    Declarations(words) <= FLAGS_WORDS && AllUsable(words)
  }

  lemma {:induction false} PrefixCounts(fields: seq<Field>, more: seq<Field>, i: nat)
    requires i <= |fields|
    ensures FlagsBefore(fields + more, i) == FlagsBefore(fields, i)
    decreases i
  {
    if i > 0 {
      PrefixCounts(fields, more, i - 1);
      assert (fields + more)[i - 1] == fields[i - 1];
    }
  }

  lemma AppendKeepsPlaces(fields: seq<Field>, field: Field)
    requires WellFormed(fields)
    ensures WellFormed(fields + [field]) <==>
      WellPlaced(fields + [field], |fields|) && FlagsBefore(fields + [field], |fields| + 1) <= FLAGS_WORDS
    ensures FlagsBefore(fields + [field], |fields|) == FlagsBefore(fields, |fields|)
  {
    var all := fields + [field];
    forall i | 0 <= i < |fields| ensures WellPlaced(all, i) {
      PrefixCounts(fields, [field], i);
      assert WellPlaced(fields, i) && all[i] == fields[i];
    }
    PrefixCounts(fields, [field], |fields|);
  }

  lemma {:induction false} CountsGrow(fields: seq<Field>, i: nat, n: nat)
    requires i <= n <= |fields|
    ensures FlagsBefore(fields, i) <= FlagsBefore(fields, n)
    decreases n
  {
    if i < n {
      CountsGrow(fields, i, n - 1);
    }
  }

  // A list that starts badly stays bad.
  lemma PrefixIsWellFormed(fields: seq<Field>, more: seq<Field>)
    requires WellFormed(fields + more)
    ensures WellFormed(fields)
  {
    forall i | 0 <= i < |fields| ensures WellPlaced(fields, i) {
      assert WellPlaced(fields + more, i);
      PrefixCounts(fields, more, i);
    }
    PrefixCounts(fields, more, |fields|);
    CountsGrow(fields + more, |fields|, |fields + more|);
  }

  lemma {:induction false} ResultExtends(words: seq<string>, fields: seq<Field>, names: seq<string>)
    returns (more: seq<Field>)
    requires ParseFrom(words, fields, names).Done?
    ensures ParseFrom(words, fields, names).value == fields + more
    decreases |words|
  {
    hide Split, FieldOf;
    if words == [] {
      more := [];
    } else {
      var word := Split(words[0]);
      var field := FieldOf(word, names).value;
      var rest := ResultExtends(words[1..], FieldsAfter(field, fields), NamesAfter(word, names));
      more := if field.Some? then [field.value] + rest else rest;
    }
  }

  // How one word carries the shape of the list on.
  lemma WordKeepsShape(word: Word, fields: seq<Field>, names: seq<string>)
    requires WellFormed(fields) && FlagsBefore(fields, |fields|) == |names|
    requires FieldOf(word, names).Done? && (word.Mandatory? ==> word.ty != "#")
    ensures var fields' := FieldsAfter(FieldOf(word, names).value, fields);
      var names' := NamesAfter(word, names);
      && (WellFormed(fields') <==> Usable(word) && |names'| <= FLAGS_WORDS)
      && (Usable(word) ==> FlagsBefore(fields', |fields'|) == |names'|)
  {
    hide ParseByte, Position;
    var field := FieldOf(word, names).value;
    if field.Some? {
      AppendKeepsPlaces(fields, field.value);
    }
  }

  lemma MandatoryIsNoFlags(word: string)
    ensures var w := Split(word); w.Mandatory? ==> w.ty != "#"
  {
    hide IndexOf, LastIndexOf;
  }

  lemma {:induction false} ParseKeepsShape(words: seq<string>, fields: seq<Field>, names: seq<string>)
    requires WellFormed(fields) && FlagsBefore(fields, |fields|) == |names|
    requires ParseFrom(words, fields, names).Done?
    ensures WellFormed(ParseFrom(words, fields, names).value)
       <==> |names| + Declarations(words) <= FLAGS_WORDS && AllUsable(words)
    decreases |words|
  {
    hide Split, FieldOf, Usable, WellPlaced;
    if words != [] {
      var word := Split(words[0]);
      MandatoryIsNoFlags(words[0]);
      WordKeepsShape(word, fields, names);
      var field := FieldOf(word, names).value;
      var fields', names' := FieldsAfter(field, fields), NamesAfter(word, names);
      if WellFormed(fields') {
        ParseKeepsShape(words[1..], fields', names');
      } else {
        var more := ResultExtends(words[1..], fields', names');
        if WellFormed(fields' + more) {
          PrefixIsWellFormed(fields', more);
        }
      }
    }
  }

  // Fields parsed without error have the shape the serializer relies on exactly when there are at
  // most three flags words, all bits are below 32 and no flags word is itself optional.
  lemma ParsedFieldsAreWellFormed(words: seq<string>)
    requires ParseFrom(words, [], []).Done?
    ensures WellFormed(ParseFrom(words, [], []).value) <==> Serializable(words)
  {
    ParseKeepsShape(words, [], []);
  }

  // A generated table can be serialized from exactly when all its declarations meet that condition.
  lemma GeneratedTable(table: Table, words: map<Bytes.u32, seq<string>>)
    requires table.Keys == words.Keys
    requires forall id :: id in words ==> ParseFrom(words[id], [], []) == Done(table[id].fields)
    ensures WellFormedTable(table) <==> forall id :: id in words ==> Serializable(words[id])
  {
    hide ParseFrom, WellFormed, Serializable;
    forall id | id in words ensures WellFormed(table[id].fields) <==> Serializable(words[id]) {
      ParsedFieldsAreWellFormed(words[id]);
    }
    assert forall id :: id in table <==> id in words;
  }

  // Without any such condition, some flags word stands before every gate.
  lemma {:induction false} GatesReferBack(words: seq<string>, fields: seq<Field>, names: seq<string>, i: nat)
    requires ParseFrom(words, fields, names).Done?
    requires FlagsBefore(fields, |fields|) >= |names|
    requires |fields| <= i < |ParseFrom(words, fields, names).value| && ParseFrom(words, fields, names).value[i].IsGated()
    ensures var result := ParseFrom(words, fields, names).value; result[i].flagsField < FlagsBefore(result, i)
    decreases |words|
  {
    hide Split, ParseByte;
    var result := ParseFrom(words, fields, names).value;
    var word := Split(words[0]);
    var field := FieldOf(word, names).value;
    var fields', names' := FieldsAfter(field, fields), NamesAfter(word, names);
    var more := ResultExtends(words[1..], fields', names');
    if field.Some? && i == |fields| {
      PrefixCounts(fields, [field.value] + more, |fields|);
      assert result == fields + ([field.value] + more);
    } else {
      if field.Some? {
        PrefixCounts(fields, [field.value], |fields|);
      }
      GatesReferBack(words[1..], fields', names', i);
    }
  }

  // The names of the flags words among the words, in order, and the number of fields the words become.
  function DeclaredNames(words: seq<string>): (names: seq<string>)
    ensures |names| == Declarations(words)
  {
    if words == [] then []
    else (if Split(words[0]).Declares? then [Split(words[0]).name] else []) + DeclaredNames(words[1..])
  }

  function FieldCount(words: seq<string>): nat {
    if words == [] then 0 else (if Split(words[0]).TypeParameter? then 0 else 1) + FieldCount(words[1..])
  }

  // Where in the result the field of the j-th word stands, and what decides it.
  lemma {:induction false} WordContributes(words: seq<string>, fields: seq<Field>, names: seq<string>, j: nat)
    requires ParseFrom(words, fields, names).Done? && j < |words| && !Split(words[j]).TypeParameter?
    ensures |fields| + FieldCount(words[..j]) < |ParseFrom(words, fields, names).value|
    ensures FieldOf(Split(words[j]), names + DeclaredNames(words[..j]))
         == Done(Some(ParseFrom(words, fields, names).value[|fields| + FieldCount(words[..j])]))
    decreases |words|
  {
    hide Split, FieldOf, NamesAfter, DeclaredNames, FieldCount;
    var word := Split(words[0]);
    var field := FieldOf(word, names).value;
    var fields', names' := FieldsAfter(field, fields), NamesAfter(word, names);
    OnlyTypeParametersVanish(word, names);
    if j == 0 {
      NoWords(words[..0]);
      assert names + [] == names;
      var more := ResultExtends(words[1..], fields', names');
    } else {
      assert words[1..][j - 1] == words[j];
      WordContributes(words[1..], fields', names', j - 1);
      FirstWordCounts(words, names, j);
    }
  }

  lemma OnlyTypeParametersVanish(word: Word, names: seq<string>)
    requires FieldOf(word, names).Done?
    ensures FieldOf(word, names).value.None? <==> word.TypeParameter?
  {
    hide ParseByte, Position;
  }

  lemma NoWords(words: seq<string>)
    requires words == []
    ensures DeclaredNames(words) == [] && FieldCount(words) == 0
  {
  }

  lemma FirstWordCounts(words: seq<string>, names: seq<string>, j: nat)
    requires 0 < j <= |words|
    ensures names + DeclaredNames(words[..j]) == NamesAfter(Split(words[0]), names) + DeclaredNames(words[1..][..j - 1])
    ensures FieldCount(words[..j]) == (if Split(words[0]).TypeParameter? then 0 else 1) + FieldCount(words[1..][..j - 1])
  {
    hide Split;
    assert words[..j][0] == words[0] && words[..j][1..] == words[1..][..j - 1];
  }

  // The gate of an optional word names a flags word declared before it; as long as its index fits a
  // byte, the flags word at that index is the one named.
  lemma GateNamesItsWord(words: seq<string>, j: nat)
    requires ParseFrom(words, [], []).Done? && j < |words| && Split(words[j]).Optional?
    ensures FieldCount(words[..j]) < |ParseFrom(words, [], []).value|
    ensures var field := ParseFrom(words, [], []).value[FieldCount(words[..j])];
      var word, declared := Split(words[j]), DeclaredNames(words[..j]);
      && field.name == word.name && field.ty == word.ty && ParseByte(word.bit) == Some(field.flagsBit)
      && word.flags in declared
      && (|declared| <= 256 ==> field.flagsField < |declared| && declared[field.flagsField] == word.flags)
  {
    hide Split, ParseByte, FieldOf, DeclaredNames, FieldCount, ParseFrom;
    WordContributes(words, [], [], j);
    var declared := DeclaredNames(words[..j]);
    assert [] + declared == declared;
    GateOfWord(Split(words[j]), declared, ParseFrom(words, [], []).value[FieldCount(words[..j])]);
  }

  lemma GateOfWord(word: Word, declared: seq<string>, field: Field)
    requires word.Optional? && FieldOf(word, declared) == Done(Some(field))
    ensures field.name == word.name && field.ty == word.ty && ParseByte(word.bit) == Some(field.flagsBit)
    ensures word.flags in declared
    ensures |declared| <= 256 ==> field.flagsField < |declared| && declared[field.flagsField] == word.flags
  {
    hide ParseByte;
    var index := Position(declared, word.flags).value;
    assert declared[index] == word.flags;
    assert index < 256 ==> index % 256 == index;
    hide Position;
  }

  // And the field of a flags word carries that index.
  lemma FlagsWordCarriesItsIndex(words: seq<string>, j: nat)
    requires ParseFrom(words, [], []).Done? && j < |words| && Split(words[j]).Declares?
    ensures FieldCount(words[..j]) < |ParseFrom(words, [], []).value|
    ensures ParseFrom(words, [], []).value[FieldCount(words[..j])]
         == Field(Split(words[j]).name, "#", Declarations(words[..j]) % 256, 0)
  {
    hide Split, DeclaredNames, FieldCount, ParseFrom;
    WordContributes(words, [], [], j);
    assert [] + DeclaredNames(words[..j]) == DeclaredNames(words[..j]);
  }

  const WIDE_BIT: seq<string> := ["flags:#", "a:flags.40?int"]

  // A bit beyond the word passes the generator.
  lemma WideBitIsAccepted()
    ensures ParseFrom(WIDE_BIT, [], []).Done? && !WellFormed(ParseFrom(WIDE_BIT, [], []).value)
  {
    hide Split, ParseFrom, ParseByte, WellFormed;
    var flags, a := Field("flags", "#", 0, 0), Field("a", "int", 0, 40);
    WideBitDeclaration();
    WideBitGate();
    FortyIsAByte();
    NextWord(WIDE_BIT, [], [], Declares("flags"), flags);
    assert [] + ["flags"] == ["flags"] && [] + [flags] == [flags];
    NextWord(WIDE_BIT[1..], [flags], ["flags"], Optional("a", "flags", "40", "int"), a);
    LastWord(WIDE_BIT[1..][1..], [flags] + [a], ["flags"]);
    assert !Usable(Split(WIDE_BIT[1..][0]));
    ParsedFieldsAreWellFormed(WIDE_BIT);
  }

  lemma NextWord(words: seq<string>, fields: seq<Field>, names: seq<string>, word: Word, field: Field)
    requires words != [] && Split(words[0]) == word && FieldOf(word, names) == Done(Some(field))
    ensures ParseFrom(words, fields, names) == ParseFrom(words[1..], fields + [field], NamesAfter(word, names))
  {
    hide Split, FieldOf;
  }

  lemma LastWord(words: seq<string>, fields: seq<Field>, names: seq<string>)
    requires words == []
    ensures ParseFrom(words, fields, names) == Done(fields)
  {
  }

  lemma FortyIsAByte()
    ensures ParseByte("40") == Some(40)
  {
    assert "40"[..1] == "4" && "4"[..0] == "";
    assert DigitsValue("4") == Some(4);
    assert DigitsValue("40") == Some(40);
  }

  lemma {:induction false} IndexIs(s: string, c: char, k: nat)
    requires k < |s| && s[k] == c && forall j :: 0 <= j < k ==> s[j] != c
    ensures IndexOf(s, c) == Some(k)
    decreases k
  {
    if k > 0 {
      IndexIs(s[1..], c, k - 1);
    }
  }

  lemma {:induction false} LastIndexIs(s: string, c: char, k: nat)
    requires k < |s| && s[k] == c && forall j :: k < j < |s| ==> s[j] != c
    ensures LastIndexOf(s, c) == Some(k)
    decreases |s|
  {
    if k < |s| - 1 {
      LastIndexIs(s[..|s| - 1], c, k);
    }
  }

  lemma WideBitType()
    ensures IndexOf("flags.40?int", '?') == Some(8) && LastIndexOf("flags.40", '.') == Some(5)
  {
    hide IndexOf, LastIndexOf;
    var ty := "flags.40?int";
    assert ty[0] == 'f' && ty[1] == 'l' && ty[2] == 'a' && ty[3] == 'g' && ty[4] == 's' && ty[5] == '.';
    assert ty[6] == '4' && ty[7] == '0' && ty[8] == '?';
    IndexIs(ty, '?', 8);
    var reference := "flags.40";
    assert reference[5] == '.' && reference[6] == '4' && reference[7] == '0';
    LastIndexIs(reference, '.', 5);
  }

  lemma WideBitDeclaration()
    ensures Split("flags:#") == Declares("flags")
  {
    hide IndexOf, LastIndexOf;
    var word := "flags:#";
    assert word[0] == 'f' && word[1] == 'l' && word[2] == 'a' && word[3] == 'g' && word[4] == 's';
    IndexIs(word, ':', 5);
    assert word[..5] == "flags" && word[6..] == "#";
  }

  lemma WideBitGate()
    ensures Split("a:flags.40?int") == Optional("a", "flags", "40", "int")
  {
    hide IndexOf, LastIndexOf;
    var word, ty := "a:flags.40?int", "flags.40?int";
    IndexIs(word, ':', 1);
    assert word[..1] == "a" && word[2..] == ty;
    WideBitType();
    assert ty[..8] == "flags.40" && ty[9..] == "int";
    assert ty[..5] == "flags" && ty[6..8] == "40";
  }
}
