/** The encrypted text document: AES-CTR, then HMAC, then hexadecimal text with fixed markers. */
module SessionDocument {
  import opened Outcomes
  import opened Bytes
  import opened Primitives
  import opened KeyedHash
  import opened AesCtr
  import opened SessionRecord
  import Hex

  const DOCUMENT_BYTES: nat := 762

  type DocumentKey = b: bytes | |b| == 32 witness Zeros(32)

  function Ascii(text: string): (r: bytes)
    ensures |r| == |text|
  {
    seq(|text|, i requires 0 <= i < |text| => text[i] as int % 256)
  }

  const DOCUMENT_HEADER: bytes := Ascii("TRLib-session-v1\nsalt=")
  const DATA_PREFIX: bytes := Ascii("\ndata=")
  const TAG_PREFIX: bytes := Ascii("\ntag=")
  const DOCUMENT_SUFFIX: bytes := Ascii("\n")
  const TAG_LABEL: bytes := Ascii("TRLib-session-v1\0")
  const STREAM_LABEL: bytes := Ascii("TRLib-session-stream-v1\0")
  const MAC_LABEL: bytes := Ascii("TRLib-session-mac-v1\0")

  // ----- the text layout -------------------------------------------------------------------

  datatype Parts = Parts(salt: bytes, cipher: bytes, tag: bytes) {
    ghost predicate Sized() {
      |salt| == 16 && |cipher| == RECORD_BYTES && |tag| == 32
    }
  }

  function Layout(salt: bytes, data: bytes, tag: bytes): bytes {
    DOCUMENT_HEADER + salt + DATA_PREFIX + data + TAG_PREFIX + tag + DOCUMENT_SUFFIX
  }

  function PartsText(p: Parts): bytes {
    Layout(Hex.Text(p.salt), Hex.Text(p.cipher), Hex.Text(p.tag))
  }

  function SplitDocument(input: bytes): (r: Result<(bytes, bytes, bytes)>)
    requires |input| == DOCUMENT_BYTES
    ensures r.Ok? ==> |r.value.0| == 32 && |r.value.1| == 2 * RECORD_BYTES && |r.value.2| == 64
    ensures r.Ok? ==> input == Layout(r.value.0, r.value.1, r.value.2)
  {
    if input[..22] != DOCUMENT_HEADER || input[54..60] != DATA_PREFIX || input[692..697] != TAG_PREFIX
       || input[761..] != DOCUMENT_SUFFIX
    then Err(InvalidPacket)
    else Ok((input[22..54], input[60..692], input[697..761]))
  }

  function DecodeParts(document: bytes): (r: Result<Parts>)
    ensures r.Ok? ==> r.value.Sized()
  {
    if |document| != DOCUMENT_BYTES then Err(InvalidLength)
    else
      var (saltHex, dataHex, tagHex) :- SplitDocument(document);
      var salt :- Hex.Decode(saltHex, 16);
      var cipher :- Hex.Decode(dataHex, RECORD_BYTES);
      var tag :- Hex.Decode(tagHex, 32);
      Ok(Parts(salt, cipher, tag))
  }

  function DocumentSalt(document: bytes): Result<bytes> {
    if |document| != DOCUMENT_BYTES then Err(InvalidLength)
    else
      var (saltHex, _, _) :- SplitDocument(document);
      Hex.Decode(saltHex, 16)
  }

  // The document with the letters of its three hexadecimal fields in lower case.
  function LowerCased(document: bytes): bytes
    requires |document| == DOCUMENT_BYTES
  {
    document[..22] + Hex.Lower(document[22..54]) + document[54..60] + Hex.Lower(document[60..692])
    + document[692..697] + Hex.Lower(document[697..761]) + document[761..]
  }

  lemma LayoutIsInjective(a: (bytes, bytes, bytes), b: (bytes, bytes, bytes))
    requires |a.0| == |b.0| == 32 && |a.1| == |b.1| == 2 * RECORD_BYTES
    requires Layout(a.0, a.1, a.2) == Layout(b.0, b.1, b.2)
    ensures a == b
  {
    var x, y := Layout(a.0, a.1, a.2), Layout(b.0, b.1, b.2);
    assert a.0 == x[22..54] && b.0 == y[22..54];
    assert a.1 == x[60..692] && b.1 == y[60..692];
    assert a.2 == x[697..|x| - 1] && b.2 == y[697..|y| - 1];
  }

  // The text determines the parts, so no two documents are written alike.
  lemma PartsTextIsInjective(p: Parts, q: Parts)
    requires p.Sized() && q.Sized() && PartsText(p) == PartsText(q)
    ensures p == q
  {
    hide Hex.Text, Hex.Decode, Layout;
    LayoutIsInjective((Hex.Text(p.salt), Hex.Text(p.cipher), Hex.Text(p.tag)),
      (Hex.Text(q.salt), Hex.Text(q.cipher), Hex.Text(q.tag)));
    Hex.DecodeAfterText(p.salt);
    Hex.DecodeAfterText(q.salt);
    Hex.DecodeAfterText(p.cipher);
    Hex.DecodeAfterText(q.cipher);
    Hex.DecodeAfterText(p.tag);
    Hex.DecodeAfterText(q.tag);
  }

  lemma SplitOfLayout(salt: bytes, data: bytes, tag: bytes)
    requires |salt| == 32 && |data| == 2 * RECORD_BYTES && |tag| == 64
    ensures |Layout(salt, data, tag)| == DOCUMENT_BYTES
    ensures SplitDocument(Layout(salt, data, tag)) == Ok((salt, data, tag))
  {
    var d := Layout(salt, data, tag);
    assert d[..22] == DOCUMENT_HEADER && d[54..60] == DATA_PREFIX && d[692..697] == TAG_PREFIX;
    assert d[761..] == DOCUMENT_SUFFIX;
    assert d[22..54] == salt && d[60..692] == data && d[697..761] == tag;
  }

  lemma LowerCasedLayout(document: bytes, salt: bytes, data: bytes, tag: bytes)
    requires |document| == DOCUMENT_BYTES && |salt| == 32 && |data| == 2 * RECORD_BYTES && |tag| == 64
    ensures LowerCased(document) == Layout(salt, data, tag)
       <==> SplitDocument(document).Ok?
            && var (saltHex, dataHex, tagHex) := SplitDocument(document).value;
               Hex.Lower(saltHex) == salt && Hex.Lower(dataHex) == data && Hex.Lower(tagHex) == tag
  {
    var lower, layout := LowerCased(document), Layout(salt, data, tag);
    if lower == layout {
      assert document[..22] == lower[..22] == layout[..22] == DOCUMENT_HEADER;
      assert document[54..60] == lower[54..60] == layout[54..60] == DATA_PREFIX;
      assert document[692..697] == lower[692..697] == layout[692..697] == TAG_PREFIX;
      assert document[761..] == lower[761..] == layout[761..] == DOCUMENT_SUFFIX;
      assert Hex.Lower(document[22..54]) == lower[22..54] == layout[22..54] == salt;
      assert Hex.Lower(document[60..692]) == lower[60..692] == layout[60..692] == data;
      assert Hex.Lower(document[697..761]) == lower[697..761] == layout[697..761] == tag;
    }
  }

  // A document decodes to the given parts exactly when, up to the case of its hexadecimal letters,
  // it is the text of those parts.
  lemma DecodesExactlyPartsText(document: bytes, p: Parts)
    requires |document| == DOCUMENT_BYTES && p.Sized()
    ensures DecodeParts(document) == Ok(p) <==> LowerCased(document) == PartsText(p)
  {
    hide Hex.Text, Hex.Decode, Hex.Lower, SplitDocument, LowerCased, Layout;
    LowerCasedLayout(document, Hex.Text(p.salt), Hex.Text(p.cipher), Hex.Text(p.tag));
    if SplitDocument(document).Ok? {
      var (saltHex, dataHex, tagHex) := SplitDocument(document).value;
      Hex.DecodesExactlyWhatIsWritten(saltHex, p.salt);
      Hex.DecodesExactlyWhatIsWritten(dataHex, p.cipher);
      Hex.DecodesExactlyWhatIsWritten(tagHex, p.tag);
    }
  }

  // ----- sealing and opening -----------------------------------------------------------------

  function StreamKey(suite: Suite, key: DocumentKey, salt: bytes): (r: bytes)
    ensures |r| == 32
  {
    Hmac(suite, key, STREAM_LABEL + salt)
  }

  function Tag(suite: Suite, key: DocumentKey, salt: bytes, cipher: bytes): (r: bytes)
    ensures |r| == 32
  {
    Hmac(suite, Hmac(suite, key, MAC_LABEL + salt), TAG_LABEL + salt + cipher)
  }

  function SealedParts(suite: Suite, key: DocumentKey, salt: Block, record: Record): (p: Parts)
    ensures p.Sized() && p.salt == salt
  {
    var cipher := Mixed(suite, StreamKey(suite, key, salt), salt, RecordText(record));
    Parts(salt, cipher, Tag(suite, key, salt, cipher))
  }

  function DocumentText(suite: Suite, key: DocumentKey, salt: Block, record: Record): bytes {
    PartsText(SealedParts(suite, key, salt, record))
  }

  function OpenedParts(suite: Suite, key: DocumentKey, p: Parts): Result<Record>
    requires |p.salt| == 16
  {
    if Tag(suite, key, p.salt, p.cipher) != p.tag then Err(Authentication)
    else Parsed(Mixed(suite, StreamKey(suite, key, p.salt), p.salt, p.cipher))
  }

  function OpenedDocument(suite: Suite, key: DocumentKey, document: bytes): Result<Record> {
    var p :- DecodeParts(document);
    OpenedParts(suite, key, p)
  }

  lemma PartsOpenExactlyWhenSealed(suite: Suite, key: DocumentKey, p: Parts, record: Record)
    requires p.Sized()
    ensures OpenedParts(suite, key, p) == Ok(record) <==> p == SealedParts(suite, key, p.salt, record)
  {
    hide Tag, StreamKey, Mixed, RecordText, Parsed;
    var streamKey := StreamKey(suite, key, p.salt);
    ParsesExactlyRecordTexts(Mixed(suite, streamKey, p.salt, p.cipher), record);
    MixedTwice(suite, streamKey, p.salt, p.cipher);
    MixedTwice(suite, streamKey, p.salt, RecordText(record));
  }

  // Opening accepts exactly the documents that sealing writes, up to the case of hexadecimal
  // letters, and returns the record that was sealed.
  lemma OpensExactlySealedDocuments(suite: Suite, key: DocumentKey, document: bytes, record: Record)
    requires |document| == DOCUMENT_BYTES
    ensures OpenedDocument(suite, key, document) == Ok(record)
       <==> DocumentSalt(document).Ok?
            && LowerCased(document) == DocumentText(suite, key, DocumentSalt(document).value, record)
  {
    hide DecodeParts, LowerCased, SealedParts, PartsText, OpenedParts, DocumentSalt;
    SaltIsThatOfTheParts(document);
    if DecodeParts(document).Ok? {
      var p := DecodeParts(document).value;
      PartsOpenExactlyWhenSealed(suite, key, p, record);
      DecodesExactlyPartsText(document, SealedParts(suite, key, p.salt, record));
    } else if DocumentSalt(document).Ok? {
      DecodesExactlyPartsText(document, SealedParts(suite, key, DocumentSalt(document).value, record));
    }
  }

  lemma SaltIsThatOfTheParts(document: bytes)
    ensures DocumentSalt(document).Ok? ==> |DocumentSalt(document).value| == 16
    ensures DecodeParts(document).Ok? ==> DocumentSalt(document) == Ok(DecodeParts(document).value.salt)
  {
    hide Hex.Decode, SplitDocument;
    if DocumentSalt(document).Ok? {
      HexSize(SplitDocument(document).value.0, 16);
    }
  }

  lemma HexSize(text: bytes, n: nat)
    ensures Hex.Decode(text, n).Ok? ==> |Hex.Decode(text, n).value| == n
  {
  }

  // Under one key, different salts or records are sealed to different documents.
  lemma SealingIsInjective(suite: Suite, key: DocumentKey, salt: Block, record: Record, salt': Block, record': Record)
    requires DocumentText(suite, key, salt, record) == DocumentText(suite, key, salt', record')
    ensures salt == salt' && record == record'
  {
    hide SealedParts, PartsText, OpenedParts;
    var p, q := SealedParts(suite, key, salt, record), SealedParts(suite, key, salt', record');
    PartsTextIsInjective(p, q);
    PartsOpenExactlyWhenSealed(suite, key, p, record);
    PartsOpenExactlyWhenSealed(suite, key, p, record');
  }

  // What is sealed can be opened again, and its salt is readable without the key.
  lemma SealedDocumentOpens(suite: Suite, key: DocumentKey, salt: Block, record: Record)
    ensures var document := DocumentText(suite, key, salt, record);
      |document| == DOCUMENT_BYTES
      && DocumentSalt(document) == Ok(salt)
      && OpenedDocument(suite, key, document) == Ok(record)
  {
    hide SealedParts, Layout, SplitDocument, Hex.Text, Hex.Decode, OpenedParts;
    var p := SealedParts(suite, key, salt, record);
    SplitOfLayout(Hex.Text(p.salt), Hex.Text(p.cipher), Hex.Text(p.tag));
    Hex.DecodeAfterText(p.salt);
    Hex.DecodeAfterText(p.cipher);
    Hex.DecodeAfterText(p.tag);
    PartsOpenExactlyWhenSealed(suite, key, p, record);
  }

  // ----- what authentication covers -------------------------------------------------------------------

  // The tag covers salt and ciphertext under a key derived from the salt.
  ghost predicate Authenticated(suite: Suite, key: DocumentKey, p: Parts) {
    p.tag == Hmac(suite, Hmac(suite, key, Ascii("TRLib-session-mac-v1\0") + p.salt),
                  Ascii("TRLib-session-v1\0") + p.salt + p.cipher)
  }

  // The ciphertext is the record's text mixed with a key stream under another such key.
  ghost predicate Encrypts(suite: Suite, key: DocumentKey, p: Parts, record: Record)
    requires |p.salt| == 16
  {
    p.cipher == Mixed(suite, Hmac(suite, key, Ascii("TRLib-session-stream-v1\0") + p.salt), p.salt, RecordText(record))
  }

  // The text of parts with a right tag and the ciphertext of this record.
  ghost predicate Holds(suite: Suite, key: DocumentKey, document: bytes, record: Record) {
    match DecodeParts(document)
    case Ok(p) => Authenticated(suite, key, p) && Encrypts(suite, key, p, record)
    case Err(_) => false
  }

  ghost predicate Forged(suite: Suite, key: DocumentKey, document: bytes) {
    DecodeParts(document).Ok? && !Authenticated(suite, key, DecodeParts(document).value)
  }

  lemma SealedIsAuthenticated(suite: Suite, key: DocumentKey, salt: Block, record: Record)
    ensures Holds(suite, key, DocumentText(suite, key, salt, record), record)
    ensures DocumentSalt(DocumentText(suite, key, salt, record)) == Ok(salt)
  {
    var p := SealedParts(suite, key, salt, record);
    assert Authenticated(suite, key, p) && Encrypts(suite, key, p, record) by {
      hide Hmac, Mixed, RecordText, Ascii;
    }
    hide SealedParts, Layout, SplitDocument, Hex.Text, Hex.Decode, Authenticated, Encrypts;
    SplitOfLayout(Hex.Text(p.salt), Hex.Text(p.cipher), Hex.Text(p.tag));
    Hex.DecodeAfterText(p.salt);
    Hex.DecodeAfterText(p.cipher);
    Hex.DecodeAfterText(p.tag);
  }

  // A document opens exactly when its tag is right and its ciphertext is that of a record.
  lemma OpensExactlyAuthenticatedDocuments(suite: Suite, key: DocumentKey, document: bytes)
    ensures OpenedDocument(suite, key, document) == Err(Authentication) <==> Forged(suite, key, document)
    ensures forall record :: OpenedDocument(suite, key, document) == Ok(record) <==> Holds(suite, key, document, record)
  {
    DecodingNeverReportsAuthentication(document);
    if DecodeParts(document).Ok? {
      PartsOpenExactlyWhenAuthenticated(suite, key, DecodeParts(document).value);
    }
  }

  lemma PartsOpenExactlyWhenAuthenticated(suite: Suite, key: DocumentKey, p: Parts)
    requires p.Sized()
    ensures OpenedParts(suite, key, p) == Err(Authentication) <==> !Authenticated(suite, key, p)
    ensures forall record ::
      OpenedParts(suite, key, p) == Ok(record) <==> Authenticated(suite, key, p) && Encrypts(suite, key, p, record)
  {
    hide Hmac, Mixed, RecordText, Parsed, Ascii;
    var streamKey := StreamKey(suite, key, p.salt);
    var plain := Mixed(suite, streamKey, p.salt, p.cipher);
    ParsedNeverReportsAuthentication(plain);
    MixedTwice(suite, streamKey, p.salt, p.cipher);
    forall record
      ensures OpenedParts(suite, key, p) == Ok(record) <==> Authenticated(suite, key, p) && Encrypts(suite, key, p, record)
    {
      ParsesExactlyRecordTexts(plain, record);
      MixedTwice(suite, streamKey, p.salt, RecordText(record));
    }
  }

  lemma DecodingNeverReportsAuthentication(document: bytes)
    ensures DecodeParts(document) != Err(Authentication)
  {
  }

  lemma ParsedNeverReportsAuthentication(input: bytes)
    ensures Parsed(input) != Err(Authentication)
  {
  }

  // Two documents that share salt and tag, open under one key and differ in their ciphertexts give two byte
  // strings with one hash.
  lemma AlteredDocumentsCollide(suite: Suite, key: DocumentKey, document: bytes, document': bytes)
    returns (x: bytes, y: bytes)
    requires OpenedDocument(suite, key, document).Ok? && OpenedDocument(suite, key, document').Ok?
    requires var p, q := DecodeParts(document).value, DecodeParts(document').value;
      p.salt == q.salt && p.tag == q.tag && p.cipher != q.cipher
    ensures x != y && Sha256(suite, x) == Sha256(suite, y)
  {
    hide DecodeParts, OpenedParts, Encrypts, Hmac, Ascii, Sha256;
    OpensExactlyAuthenticatedDocuments(suite, key, document);
    OpensExactlyAuthenticatedDocuments(suite, key, document');
    var p, q := DecodeParts(document).value, DecodeParts(document').value;
    var front := Ascii("TRLib-session-v1\0") + p.salt;
    SamePrefix(front, p.cipher, q.cipher);
    x, y := HmacCollision(suite, Hmac(suite, key, Ascii("TRLib-session-mac-v1\0") + p.salt), front + p.cipher, front + q.cipher);
  }

  // Where each field of the text stands.
  lemma DocumentInBytes(p: Parts)
    requires p.Sized()
    ensures var text := PartsText(p);
      && |text| == 762 && text[0..22] == Ascii("TRLib-session-v1\nsalt=") && text[22..54] == Hex.Text(p.salt)
      && text[54..60] == Ascii("\ndata=") && text[60..692] == Hex.Text(p.cipher)
      && text[692..697] == Ascii("\ntag=") && text[697..761] == Hex.Text(p.tag) && text[761..762] == Ascii("\n")
  {
    hide Hex.Text, Ascii;
  }

  // The fixed parts of the text, byte by byte.
  lemma MarkersInBytes()
    ensures DOCUMENT_HEADER == [84, 82, 76, 105, 98, 45, 115, 101, 115, 115, 105, 111, 110, 45, 118, 49, 10, 115, 97, 108, 116, 61]
    ensures DATA_PREFIX == [10, 100, 97, 116, 97, 61] && TAG_PREFIX == [10, 116, 97, 103, 61] && DOCUMENT_SUFFIX == [10]
  {
  }
}
