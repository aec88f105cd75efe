/** Sealing and opening a session document in caller-owned buffers. */
module SessionMethods {
  import opened Outcomes
  import opened Bytes
  import opened Primitives
  import opened KeyedHash
  import opened AesCtr
  import opened SessionRecord
  import opened SessionDocument
  import opened TlWriter
  import Hex

  method DeriveStreamKey(suite: Suite, key: DocumentKey, salt: Block) returns (streamKey: bytes)
    ensures streamKey == StreamKey(suite, key, salt)
  {
    hide Hmac;
    assert STREAM_LABEL + salt + [] == STREAM_LABEL + salt;
    streamKey := HmacSha256(suite, key, STREAM_LABEL, salt, []);
  }

  method ComputeTag(suite: Suite, key: DocumentKey, salt: Block, cipher: bytes) returns (tag: bytes)
    ensures tag == Tag(suite, key, salt, cipher)
  {
    hide Hmac;
    assert MAC_LABEL + salt + [] == MAC_LABEL + salt;
    var macKey := HmacSha256(suite, key, MAC_LABEL, salt, []);
    tag := HmacSha256(suite, macKey, TAG_LABEL, salt, cipher);
  }

  method WriteField(writer: Writer, marker: bytes, data: bytes) returns (r: Result<()>)
    requires writer.Valid()
    modifies writer, writer.output
    ensures writer.Valid() && writer.Appends(marker + Hex.Text(data), r)
  {
    hide Writer.Valid, Hex.Text;
    var _ :- writer.WriteAll(marker);
    r := Hex.Write(writer, data);
  }

  method WriteDocument(writer: Writer, p: Parts) returns (r: Result<()>)
    requires writer.Valid()
    modifies writer, writer.output
    ensures writer.Valid() && writer.Appends(PartsText(p), r)
  {
    hide Writer.Valid, Hex.Text;
    ghost var salt, data, tag := Hex.Text(p.salt), Hex.Text(p.cipher), Hex.Text(p.tag);
    LayoutByFields(salt, data, tag);
    hide Layout;
    var _ :- WriteField(writer, DOCUMENT_HEADER, p.salt);
    var _ :- WriteField(writer, DATA_PREFIX, p.cipher);
    var _ :- WriteField(writer, TAG_PREFIX, p.tag);
    r := writer.WriteAll(DOCUMENT_SUFFIX);
  }

  lemma LayoutByFields(salt: bytes, data: bytes, tag: bytes)
    ensures Layout(salt, data, tag)
         == (DOCUMENT_HEADER + salt) + (DATA_PREFIX + data) + (TAG_PREFIX + tag) + DOCUMENT_SUFFIX
  {
  }

  // Leaves the record's ciphertext at the front of the scratch buffer.
  method EncryptRecord(suite: Suite, key: DocumentKey, salt: Block, record: Record, scratch: array<byte>)
    requires scratch.Length >= RECORD_BYTES
    modifies scratch
    ensures scratch[..] == Splice(old(scratch[..]), 0, SealedParts(suite, key, salt, record).cipher)
  {
    hide RecordText, Mixed, StreamKey, Splice, Tag;
    ghost var was := scratch[..];
    EncodeRecord(record, scratch);
    var streamKey := DeriveStreamKey(suite, key, salt);
    ghost var plain := RecordText(record);
    assert scratch[..][..RECORD_BYTES] == scratch[..][0..0 + |plain|] == plain;
    var mixed := ApplyAesCtr(suite, streamKey, salt, scratch, RECORD_BYTES);
    SpliceReplaces(was, 0, plain, Mixed(suite, streamKey, salt, plain));
    assert mixed.Ok?;
  }

  method Seal(suite: Suite, key: DocumentKey, salt: Block, record: Record, scratch: array<byte>, output: array<byte>)
    returns (r: Result<nat>)
    requires scratch != output
    modifies scratch, output
    ensures scratch.Length < RECORD_BYTES ==>
      r == Err(OutputTooSmall) && scratch[..] == old(scratch[..]) && output[..] == old(output[..])
    ensures scratch.Length >= RECORD_BYTES ==>
      scratch[..] == Splice(old(scratch[..]), 0, SealedParts(suite, key, salt, record).cipher)
    ensures r.Ok? <==> scratch.Length >= RECORD_BYTES && output.Length >= DOCUMENT_BYTES
    ensures r.Ok? ==> r.value == DOCUMENT_BYTES
    ensures r.Ok? ==> output[..] == Splice(old(output[..]), 0, DocumentText(suite, key, salt, record))
    ensures r.Err? ==> r.kind == OutputTooSmall
    ensures r.Ok? ==> 762 <= output.Length && Holds(suite, key, output[..762], record) && DocumentSalt(output[..762]) == Ok(salt)
  {
    if scratch.Length < RECORD_BYTES {
      return Err(OutputTooSmall);
    }
    SealedDocumentOpens(suite, key, salt, record);
    SealedIsAuthenticated(suite, key, salt, record);
    EncryptRecord(suite, key, salt, record, scratch);
    ghost var p := SealedParts(suite, key, salt, record);
    assert p.tag == Tag(suite, key, salt, p.cipher);
    hide Splice, PartsText, SealedParts, Tag, OpenedDocument, DocumentSalt, DecodeParts, Holds;
    var cipher := scratch[..RECORD_BYTES];
    assert cipher == scratch[..][0..0 + |p.cipher|] == p.cipher;
    var tag := ComputeTag(suite, key, salt, cipher);
    var writer := new Writer(output);
    var _ :- WriteDocument(writer, Parts(salt, cipher, tag));
    assert Parts(salt, cipher, tag) == p;
    assert output[..762] == output[..][0..0 + |PartsText(p)|] == DocumentText(suite, key, salt, record);
    return Ok(writer.position);
  }

  // What decoding the three fields leaves at the front of the scratch buffer: nothing if the layout or the
  // salt is wrong, otherwise the ciphertext up to its first bad digit.
  function DecodedPrefix(document: bytes): (r: bytes)
    requires |document| == DOCUMENT_BYTES
    ensures |r| <= RECORD_BYTES
  {
    var fields := SplitDocument(document);
    if fields.Err? || Hex.Decode(fields.value.0, 16).Err? then [] else Hex.GoodPairs(fields.value.1)
  }

  method DecodeFields(document: bytes, scratch: array<byte>) returns (r: Result<(Block, bytes)>)
    requires |document| == DOCUMENT_BYTES && scratch.Length >= RECORD_BYTES
    modifies scratch
    ensures match DecodeParts(document)
            case Ok(p) => r == Ok((p.salt, p.tag)) && DecodedPrefix(document) == p.cipher
            case Err(kind) => r == Err(kind)
    ensures scratch[..] == Splice(old(scratch[..]), 0, DecodedPrefix(document))
  {
    hide Splice, SplitDocument, Hex.Decode, Hex.GoodPairs;
    NothingSpliced(scratch[..]);
    var hex :- SplitDocument(document);
    var (saltHex, dataHex, tagHex) := hex;
    var salt := new byte[16](_ => 0);
    var tag := new byte[32](_ => 0);
    ghost var blankSalt, blankTag := salt[..], tag[..];
    HexSize(saltHex, 16);
    HexSize(tagHex, 32);
    var _ :- Hex.DecodeInto(saltHex, salt, 16);
    var _ :- Hex.DecodeInto(dataHex, scratch, RECORD_BYTES);
    var _ :- Hex.DecodeInto(tagHex, tag, 32);
    SpliceAll(blankSalt, Hex.Decode(saltHex, 16).value);
    SpliceAll(blankTag, Hex.Decode(tagHex, 32).value);
    return Ok((salt[..], tag[..]));
  }

  lemma NothingSpliced(buffer: bytes)
    ensures Splice(buffer, 0, []) == buffer
  {
  }

  // What opening leaves at the front of the scratch buffer: the decrypted record, zeros if the tag does
  // not match, or what was decoded before a field turned out not to be hexadecimal.
  function ScratchText(suite: Suite, key: DocumentKey, document: bytes): (r: bytes)
    requires |document| == DOCUMENT_BYTES
    ensures |r| <= RECORD_BYTES
  {
    match DecodeParts(document)
    case Err(_) => DecodedPrefix(document)
    case Ok(p) =>
      if Tag(suite, key, p.salt, p.cipher) != p.tag then Zeros(RECORD_BYTES)
      else Mixed(suite, StreamKey(suite, key, p.salt), p.salt, p.cipher)
  }

  method Open(suite: Suite, key: DocumentKey, document: bytes, scratch: array<byte>) returns (r: Result<Record>)
    modifies scratch
    ensures r == if |document| != DOCUMENT_BYTES then Err(InvalidLength)
                 else if scratch.Length < RECORD_BYTES then Err(OutputTooSmall)
                 else OpenedDocument(suite, key, document)
    ensures |document| == 762 && scratch.Length >= 316 ==>
      && (forall record :: r == Ok(record) <==> Holds(suite, key, document, record))
      && (r == Err(Authentication) <==> Forged(suite, key, document))
    ensures if |document| == DOCUMENT_BYTES && scratch.Length >= RECORD_BYTES
            then scratch[..] == Splice(old(scratch[..]), 0, ScratchText(suite, key, document))
            else scratch[..] == old(scratch[..])
  {
    if |document| != DOCUMENT_BYTES {
      return Err(InvalidLength);
    }
    if scratch.Length < RECORD_BYTES {
      return Err(OutputTooSmall);
    }
    hide Splice, DecodeParts, DecodedPrefix, OpenedParts, Tag, StreamKey, Mixed, Holds, Forged;
    OpensExactlyAuthenticatedDocuments(suite, key, document);
    var fields :- DecodeFields(document, scratch);
    r := OpenFields(suite, key, fields.0, fields.1, scratch, old(scratch[..]), DecodeParts(document).value.cipher);
  }

  // A record that is returned lies in the scratch buffer, and a document whose tag does not match leaves
  // zeros there.
  lemma ScratchHoldsRecord(suite: Suite, key: DocumentKey, document: bytes)
    requires |document| == DOCUMENT_BYTES
    ensures var r := OpenedDocument(suite, key, document);
      && (r.Ok? ==> ScratchText(suite, key, document) == RecordText(r.value))
      && (r == Err(Authentication) ==> ScratchText(suite, key, document) == Zeros(RECORD_BYTES))
  {
    DecodingNeverReportsAuthentication(document);
    hide DecodeParts, DecodedPrefix, Tag, StreamKey, Mixed, Parsed, RecordText;
    if DecodeParts(document).Ok? {
      var p := DecodeParts(document).value;
      var plain := Mixed(suite, StreamKey(suite, key, p.salt), p.salt, p.cipher);
      ParsedNeverReportsAuthentication(plain);
      if Parsed(plain).Ok? {
        ParsesExactlyRecordTexts(plain, Parsed(plain).value);
      }
    }
  }

  method OpenFields(suite: Suite, key: DocumentKey, salt: Block, tag: bytes, scratch: array<byte>,
      ghost was: bytes, ghost cipher: bytes)
    returns (r: Result<Record>)
    requires |tag| == 32 && |cipher| == RECORD_BYTES <= |was| == scratch.Length
    requires scratch[..] == Splice(was, 0, cipher)
    modifies scratch
    ensures r == OpenedParts(suite, key, Parts(salt, cipher, tag))
    ensures scratch[..] == Splice(was, 0,
      if Tag(suite, key, salt, cipher) != tag then Zeros(RECORD_BYTES)
      else Mixed(suite, StreamKey(suite, key, salt), salt, cipher))
  {
    hide Splice, Tag, StreamKey, Mixed, Parsed, RecordText;
    assert scratch[..RECORD_BYTES] == scratch[..][0..0 + |cipher|] == cipher;
    var expectedTag := ComputeTag(suite, key, salt, scratch[..RECORD_BYTES]);
    if expectedTag != tag {
      Store(scratch, 0, Zeros(RECORD_BYTES));
      SpliceReplaces(was, 0, cipher, Zeros(RECORD_BYTES));
      return Err(Authentication);
    }
    var streamKey := DeriveStreamKey(suite, key, salt);
    var mixed := ApplyAesCtr(suite, streamKey, salt, scratch, RECORD_BYTES);
    ghost var plain := Mixed(suite, streamKey, salt, cipher);
    assert mixed.Ok? && scratch[..][..RECORD_BYTES] == scratch[..RECORD_BYTES];
    SpliceReplaces(was, 0, cipher, plain);
    assert scratch[..RECORD_BYTES] == scratch[..][0..0 + |plain|] == plain;
    r := ParseRecord(scratch[..RECORD_BYTES]);
  }
}
