/** The framing of a commit blob: crates/heyl-vault/src/serialize.rs. */
module Serialize {
  import opened Wrappers
  import opened OrderedMap
  import opened Json
  import opened Merge
  import opened Bytes

  const DESCRIPTOR_VERSION_HEYMERGE: nat := 2
  const U64_LIMIT: nat := 0x1_0000_0000_0000_0000

  /** JSON text and Snappy, which are library code. */
  datatype Codec = Codec(
    render: Value -> Blob,
    parse: Blob -> Option<Value>,
    compress: Blob -> Option<Blob>,
    decompress: Blob -> Option<Blob>)

  /** What the libraries promise: each pair is an inverse pair, and an object's text opens with a brace. */
  ghost predicate Ideal(codec: Codec) {
    && (forall v :: codec.parse(codec.render(v)) == Some(v))
    && (forall v: Value :: v.Object? ==> codec.render(v) != [] && codec.render(v)[0] == 0x7B)
    && (forall b :: codec.compress(b).Some? ==> codec.decompress(codec.compress(b).value) == Some(b))
  }

  /** `{ type, version, content }`, keys in that order. */
  function Envelope(document: Document): Value {
    Object([Entry("type", Str(document.documentType)),
            Entry("version", Number(document.version)),
            Entry("content", Object(document.content))])
  }

  function Encoded(codec: Codec, document: Document): Result<Blob, VaultError> {
    if document.version != DESCRIPTOR_VERSION_HEYMERGE then
      Err(NotWritableVersion(document.version, DESCRIPTOR_VERSION_HEYMERGE))
    else
      var payload := codec.render(Envelope(document));
      match document.format
      case Snappy =>
        (match codec.compress(payload)
         case Some(packed) => Ok([0x01] + packed)
         case None => Err(Compression))
      case Heymerge => Ok(payload)
  }

  lemma EnvelopeOrder(document: Document)
    ensures Keys(Envelope(document).fields) == ["type", "version", "content"]
  {
  }

  lemma PutLast(m: Content, key: string, value: Value)
    requires Get(m, key) == None
    ensures Put(m, key, value) == m + [Entry(key, value)]
  {
  }

  lemma NothingThere(k: string, l: string, m: string)
    ensures Get<Value>([], k) == Get<Value>([], l) == Get<Value>([], m) == None
  {
  }

  lemma ThreePuts(k: string, l: string, m: string, a: Value, b: Value, c: Value)
    requires k != l && k != m && l != m
    ensures Put(Put(Put([], k, a), l, b), m, c) == [Entry(k, a), Entry(l, b), Entry(m, c)]
  {
    hide Put, Keys, Get, Find;
    assert Get<Value>([], k) == Get<Value>([], l) == Get<Value>([], m) == None by { NothingThere(k, l, m); }
    var one := Put([], k, a);
    var two := Put(one, l, b);
    PutLast([], k, a);
    PutLast(one, l, b);
    PutLast(two, m, c);
    OneByOne(Entry(k, a), Entry(l, b), Entry(m, c));
  }

  lemma OneByOne<T>(x: T, y: T, z: T)
    ensures [] + [x] + [y] + [z] == [x, y, z]
  {
  }

  /** Three fresh keys, put one after the other, stand in that order. */
  lemma EnvelopeBuilt(document: Document)
    ensures Object(Put(Put(Put([], "type", Str(document.documentType)), "version", Number(document.version)),
                       "content", Object(document.content))) == Envelope(document)
  {
    hide Put, Get;
    ThreePuts("type", "version", "content",
              Str(document.documentType), Number(document.version), Object(document.content));
  }

  method Encode(codec: Codec, document: Document) returns (r: Result<Blob, VaultError>)
    ensures r == Encoded(codec, document)
  {
    if document.version != DESCRIPTOR_VERSION_HEYMERGE {
      return Err(NotWritableVersion(document.version, DESCRIPTOR_VERSION_HEYMERGE));
    }
    hide Put;
    var envelope: Content := [];
    envelope := Put(envelope, "type", Str(document.documentType));
    envelope := Put(envelope, "version", Number(document.version));
    envelope := Put(envelope, "content", Object(document.content));
    EnvelopeBuilt(document);
    var payload := codec.render(Object(envelope));
    if document.format == Heymerge {
      return Ok(payload);
    }
    var packed := codec.compress(payload);
    if packed == None {
      return Err(Compression);
    }
    var out: Blob := [0x01];
    out := out + packed.value;
    r := Ok(out);
  }

  function Decode(codec: Codec, blob: Blob): Result<Document, VaultError> {
    if blob == [] then Err(Empty)
    else if blob[0] == 0x01 then
      (match codec.decompress(blob[1..])
       case Some(payload) => DecodePayload(codec, Snappy, payload)
       case None => Err(Decompression))
    else if blob[0] == 0x7B then DecodePayload(codec, Heymerge, blob)
    else if blob[0] == 0x5B then Err(LegacyAutomerge)
    else Err(UnknownFormat(blob[0]))
  }

  function DecodePayload(codec: Codec, format: Format, payload: Blob): Result<Document, VaultError> {
    var value := codec.parse(payload);
    if value == None then Err(NotADocument("payload is not JSON"))
    else if !value.value.Object? then Err(NotADocument("payload is not a JSON object"))
    else
      var documentType, version := value.value.Field("type"), value.value.Field("version");
      var content := value.value.Field("content");
      if documentType == None || !documentType.value.Str? then Err(NotADocument("no `type`"))
      else if version == None || !version.value.Number? || !(0 <= version.value.n < U64_LIMIT)
      then Err(NotADocument("no `version`"))
      else if content == None || !content.value.Object? then Err(NotADocument("`content` is not an object"))
      else Ok(Document(format, documentType.value.text, version.value.n, content.value.fields))
  }

  /** A document is written exactly when its version is heymerge's and Snappy accepts the payload. */
  lemma WritableVersions(codec: Codec, document: Document)
    ensures Encoded(codec, document).Ok? <==>
      && document.version == DESCRIPTOR_VERSION_HEYMERGE
      && (document.format == Snappy ==> codec.compress(codec.render(Envelope(document))).Some?)
  {
  }

  lemma EnvelopeFields(document: Document)
    ensures Envelope(document).Field("type") == Some(Str(document.documentType))
    ensures Envelope(document).Field("version") == Some(Number(document.version))
    ensures Envelope(document).Field("content") == Some(Object(document.content))
  {
    var fields := Envelope(document).fields;
    GetAt(fields, 0);
    GetAt(fields, 1);
    GetAt(fields, 2);
  }

  /** What is written reads back as the same document, key order and framing included. */
  lemma EncodeDecode(codec: Codec, document: Document)
    requires Ideal(codec) && Encoded(codec, document).Ok?
    ensures Decode(codec, Encoded(codec, document).value) == Ok(document)
  {
    var payload, blob := codec.render(Envelope(document)), Encoded(codec, document).value;
    assert codec.parse(payload) == Some(Envelope(document));
    EnvelopeFields(document);
    match document.format
    case Snappy =>
      assert blob[1..] == codec.compress(payload).value;
    case Heymerge =>
  }

  // ---- what reads, whoever wrote it

  /** A blob reads as a document exactly when its first byte says how it is framed and its object holds the fields. */
  lemma DecodeMeaning(codec: Codec, blob: Blob, d: Document)
    ensures Decode(codec, blob) == Ok(d) <==>
      && blob != [] && blob[0] == (match d.format case Snappy => 0x01 case Heymerge => 0x7B)
      && var payload := if d.format == Snappy then codec.decompress(blob[1..]) else Some(blob);
         payload.Some?
         && var value := codec.parse(payload.value);
            value.Some? && value.value.Object?
            && value.value.Field("type") == Some(Str(d.documentType))
            && value.value.Field("version") == Some(Number(d.version)) && d.version < 0x1_0000_0000_0000_0000
            && value.value.Field("content") == Some(Object(d.content))
  {
    hide Value.Field;
  }

  /** Anything else is refused, as what its first byte says it is. */
  lemma DecodeRefuses(codec: Codec, blob: Blob)
    ensures Decode(codec, blob) == Err(Empty) <==> blob == []
    ensures Decode(codec, blob) == Err(LegacyAutomerge) <==> blob != [] && blob[0] == 0x5B
    ensures Decode(codec, blob) == Err(Decompression) <==>
      blob != [] && blob[0] == 0x01 && codec.decompress(blob[1..]) == None
    ensures (exists b :: Decode(codec, blob) == Err(UnknownFormat(b))) <==>
      blob != [] && blob[0] != 0x01 && blob[0] != 0x7B && blob[0] != 0x5B
    ensures forall b :: Decode(codec, blob) == Err(UnknownFormat(b)) ==> blob[0] == b
  {
    hide Value.Field;
  }

  /** A document of a version this program refuses to write is read all the same. */
  lemma OtherVersionsRead(codec: Codec, document: Document)
    requires Ideal(codec) && document.version < U64_LIMIT && document.format == Heymerge
    ensures Decode(codec, codec.render(Envelope(document))) == Ok(document)
    ensures document.version != 2 ==> Encoded(codec, document) == Err(NotWritableVersion(document.version, 2))
  {
    var value := Envelope(document);
    assert codec.parse(codec.render(value)) == Some(value) && value.Object?;
    EnvelopeFields(document);
  }
}
