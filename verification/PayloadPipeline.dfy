/** The payload format as a whole: codec, compression and sealing, and back. */
module PayloadPipeline {
  import opened Wrappers
  import opened Bytes
  import PayloadFormat
  import PayloadRoundTrip
  import PayloadTheorems
  import opened Decompression
  import opened SealTags
  import opened Sealing

  datatype Codec = Bincode | Json

  type Value = PayloadFormat.Value

  /** The libraries behind the format: the cipher, the compressor and the frames its output reads as, and JSON. */
  datatype Libraries = Libraries(
    aead: Aead,
    compress: seq<Byte> -> Option<seq<Byte>>,
    frame: seq<Byte> -> Frame,
    toJson: Value -> Option<seq<Byte>>,
    fromJson: (Type, seq<Byte>) -> Option<Value>
  )

  /** The type a payload is read as. */
  datatype Type = Type(defs: PayloadFormat.Definitions, schema: PayloadFormat.Schema)

  datatype Encoded = Encoded(bytes: seq<Byte>, tag: string)

  // ---------------------------------------------------------------------------
  // Encoding
  // ---------------------------------------------------------------------------

  function Serialize(lib: Libraries, codec: Codec, v: Value): (r: Result<seq<Byte>, FormatError>) {
    match codec
    case Bincode =>
      var r := PayloadTheorems.ToVec(v);
      if r.Ok? then Ok(r.value) else Err(FormatError.Serialization)
    case Json =>
      var r := lib.toJson(v);
      if r.Some? then Ok(r.value) else Err(FormatError.Serialization)
  }

  function BaseTag(codec: Codec, compress: bool): (base: string)
    ensures IsKnownBase(base)
  {
    match codec
    case Bincode => if compress then "zstd" else "raw"
    case Json => if compress then "json-zstd" else "json"
  }

  /** Compress what is serialized, unless it is over the limit that would refuse to read it back. */
  function Compress(lib: Libraries, compress: bool, limit: nat, serialized: seq<Byte>):
    (r: Result<seq<Byte>, FormatError>)
  {
    if !compress then Ok(serialized)
    else if |serialized| > limit then Err(PayloadTooLarge(limit))
    else match lib.compress(serialized) case None => Err(Io) case Some(z) => Ok(z)
  }

  /** `encode_payload`. */
  function Encode(lib: Libraries, codec: Codec, compress: bool, limit: nat, v: Value, path: string, key: Option<Key>,
                  nonce: Option<Nonce>): (r: Result<Encoded, FormatError>)
  {
    var serialized :- Serialize(lib, codec, v);
    var bytes :- Compress(lib, compress, limit, serialized);
    var base := BaseTag(codec, compress);
    if key.None? then Ok(Encoded(bytes, base))
    else
      var tag := BoundTag(base);
      if tag.None? then Err(FormatError.Serialization)
      else
        var sealed :- EncryptBytes(lib.aead, nonce, bytes, key.value, AssociatedData(tag.value, path));
        Ok(Encoded(sealed, tag.value))
  }

  /** When a payload can be stored, and which error it is otherwise. */
  lemma EncodeIff(lib: Libraries, codec: Codec, compress: bool, limit: nat, v: Value, path: string, key: Option<Key>,
                  nonce: Option<Nonce>)
    ensures var r := Encode(lib, codec, compress, limit, v, path, key, nonce);
            var serialized := if codec.Bincode? then PayloadTheorems.ToVec(v).Ok? else lib.toJson(v).Some?;
            if !serialized then r == Err(FormatError.Serialization)
            else
              var bytes := if codec.Bincode? then PayloadTheorems.ToVec(v).value else lib.toJson(v).value;
              if compress && |bytes| > limit then r == Err(PayloadTooLarge(limit))
              else if compress && lib.compress(bytes).None? then r == Err(Io)
              else if key.Some? && nonce.None? then r == Err(EncryptionError)
              else r.Ok?
  {
    BoundTagIs(BaseTag(codec, compress));
  }

  /** What is stored, and under which tag. */
  lemma EncodedAs(lib: Libraries, codec: Codec, compress: bool, limit: nat, v: Value, path: string, key: Option<Key>,
                  nonce: Option<Nonce>)
    requires Encode(lib, codec, compress, limit, v, path, key, nonce).Ok?
    ensures var e := Encode(lib, codec, compress, limit, v, path, key, nonce).value;
            var bytes := if codec.Bincode? then PayloadTheorems.ToVec(v).value else lib.toJson(v).value;
            var content := if compress then lib.compress(bytes).value else bytes;
            && e.tag == (if codec.Bincode? then "" else "json")
                        + (if compress then if codec.Bincode? then "zstd" else "-zstd"
                           else if codec.Bincode? then "raw" else "")
                        + (if key.Some? then "-aes256gcm-bound" else "")
            && if key.None? then e.bytes == content
               else
                 && e.bytes[..NONCE_LENGTH] == nonce.value
                 && e.bytes[NONCE_LENGTH..]
                    == lib.aead.seal(key.value, nonce.value, AssociatedData(e.tag, path), content)
  {
    BoundTagIs(BaseTag(codec, compress));
    EncodeIff(lib, codec, compress, limit, v, path, key, nonce);
  }

  // ---------------------------------------------------------------------------
  // Decoding
  // ---------------------------------------------------------------------------

  function FromBincode(t: Type, bytes: seq<Byte>): (r: Result<Value, FormatError>) {
    var out := PayloadTheorems.FromSlice(t.defs, t.schema, bytes);
    if out.Done? then Ok(out.value) else Err(FormatError.Serialization)
  }

  function FromJson(lib: Libraries, t: Type, bytes: seq<Byte>): (r: Result<Value, FormatError>) {
    var out := lib.fromJson(t, bytes);
    if out.Some? then Ok(out.value) else Err(FormatError.Serialization)
  }

  /** Take off the seal, if there is one: what is inside, and the tag that says how to read it. */
  function Unseal(lib: Libraries, bytes: seq<Byte>, tag: string, path: string, key: Option<Key>):
    (r: Result<Encoded, FormatError>)
  {
    var (base, sealing) := ParseTag(tag);
    if sealing.Plain? then
      if key.Some? && IsKnownBase(base) then Err(UnsealedEntry) else Ok(Encoded(bytes, tag))
    else if key.None? then Err(MissingEncryptionKey)
    else if !IsKnownBase(base) then Err(UnknownEncoding(base))
    else if sealing.Unbound? then Err(UnsealedEntry)
    else
      var plain :- DecryptBytes(lib.aead, bytes, key.value, AssociatedData(tag, path));
      Ok(Encoded(plain, base))
  }

  /** Decompress and deserialize. */
  function Read(lib: Libraries, t: Type, inner: Encoded, limit: nat): (r: Result<Value, FormatError>) {
    match inner.tag
    case "raw" => FromBincode(t, inner.bytes)
    case "zstd" =>
      var d :- Inflate(lib.frame(inner.bytes), limit);
      FromBincode(t, d)
    case "json" => FromJson(lib, t, inner.bytes)
    case "json-zstd" =>
      var d :- Inflate(lib.frame(inner.bytes), limit);
      FromJson(lib, t, d)
    case _ => Err(UnknownEncoding(inner.tag))
  }

  /** `decode_payload`. */
  function Decode(lib: Libraries, t: Type, bytes: seq<Byte>, tag: string, path: string, limit: nat, key: Option<Key>):
    (r: Result<Value, FormatError>)
  {
    var inner :- Unseal(lib, bytes, tag, path, key);
    Read(lib, t, inner, limit)
  }

  // ---------------------------------------------------------------------------
  // Round trip
  // ---------------------------------------------------------------------------

  /** Opening inverts sealing, and what is compressed reads back. Nothing is asked of JSON. */
  ghost predicate Reversible(lib: Libraries) {
    && Opens(lib.aead)
    && (forall d :: lib.compress(d).Some? ==> Honest(lib.frame(lib.compress(d).value), d))
  }

  /** The binary codec reads a value as a type, so it must have that type. */
  predicate Typed(codec: Codec, t: Type, v: Value) {
    codec.Bincode? ==> PayloadFormat.HasType(t.defs, t.schema, v)
  }

  /** What the binary codec reads back as written: a value whose counts both checks let pass. */
  predicate Recoverable(v: Value) {
    PayloadRoundTrip.Fits(v, 0) && PayloadRoundTrip.Counts(v) <= PayloadRoundTrip.Size(v)
  }

  /** What the codec by itself makes of what it wrote; for JSON that is up to the library. */
  function Recovered(lib: Libraries, codec: Codec, t: Type, v: Value): (r: Result<Value, FormatError>)
    requires Serialize(lib, codec, v).Ok?
  {
    match codec
    case Bincode => if Recoverable(v) then Ok(v) else Err(FormatError.Serialization)
    case Json => FromJson(lib, t, Serialize(lib, codec, v).value)
  }

  /** Elements that occupy bytes pay for their counts. */
  lemma OccupyingIsRecoverable(v: Value)
    requires PayloadTheorems.ElementsOccupyBytes(v)
    ensures Recoverable(v)
  {
    PayloadTheorems.BytesPayForCounts(v, 0);
  }

  lemma SerializedIsRead(lib: Libraries, codec: Codec, t: Type, v: Value)
    requires Typed(codec, t, v) && Serialize(lib, codec, v).Ok?
    ensures var bytes := Serialize(lib, codec, v).value;
            (if codec.Bincode? then FromBincode(t, bytes) else FromJson(lib, t, bytes)) == Recovered(lib, codec, t, v)
  {
    if codec.Bincode? {
      PayloadTheorems.WrittenIsReadIff(t.defs, t.schema, v, []);
      assert PayloadTheorems.ToVec(v).value + [] == PayloadTheorems.ToVec(v).value;
    }
  }

  /** What is compressed under a limit is read under the same limit. */
  lemma CompressedIsRead(lib: Libraries, codec: Codec, compress: bool, limit: nat, t: Type, v: Value)
    requires Reversible(lib) && Typed(codec, t, v) && Serialize(lib, codec, v).Ok?
    requires Compress(lib, compress, limit, Serialize(lib, codec, v).value).Ok?
    ensures var bytes := Compress(lib, compress, limit, Serialize(lib, codec, v).value).value;
            Read(lib, t, Encoded(bytes, BaseTag(codec, compress)), limit) == Recovered(lib, codec, t, v)
  {
    var serialized := Serialize(lib, codec, v).value;
    SerializedIsRead(lib, codec, t, v);
    if compress {
      HonestInflatesIff(lib.frame(lib.compress(serialized).value), serialized, limit);
    }
  }

  /** Sealing is undone by the same key, path and tag. */
  lemma SealedIsUnsealed(lib: Libraries, base: string, bytes: seq<Byte>, path: string, key: Key, nonce: Nonce)
    requires Opens(lib.aead) && IsKnownBase(base) && BoundTag(base).Some?
    ensures var tag := BoundTag(base).value;
            var data := nonce + lib.aead.seal(key, nonce, AssociatedData(tag, path), bytes);
            Unseal(lib, data, tag, path, Some(key)) == Ok(Encoded(bytes, base))
  {
    var tag := BoundTag(base).value;
    var data := nonce + lib.aead.seal(key, nonce, AssociatedData(tag, path), bytes);
    BoundTagParses(base);
    assert data[..NONCE_LENGTH] == nonce;
    assert data[NONCE_LENGTH..] == lib.aead.seal(key, nonce, AssociatedData(tag, path), bytes);
    DecryptsIff(lib.aead, data, key, AssociatedData(tag, path), bytes);
  }

  /**
    The round trip of the whole format: compression and sealing are transparent, so what is encoded decodes under the
    same key, path and limit to what the codec by itself makes of what it wrote. In the binary format that is the value
    it was made of, exactly when the count checks let that value pass.
   */
  lemma WholeRoundTrip(lib: Libraries, codec: Codec, compress: bool, limit: nat, t: Type, v: Value, path: string,
                       key: Option<Key>, nonce: Option<Nonce>)
    requires Reversible(lib) && Typed(codec, t, v)
    requires Encode(lib, codec, compress, limit, v, path, key, nonce).Ok?
    ensures var e := Encode(lib, codec, compress, limit, v, path, key, nonce).value;
            Decode(lib, t, e.bytes, e.tag, path, limit, key) == Recovered(lib, codec, t, v)
  {
    var base := BaseTag(codec, compress);
    var serialized := Serialize(lib, codec, v).value;
    var bytes := Compress(lib, compress, limit, serialized).value;
    CompressedIsRead(lib, codec, compress, limit, t, v);
    if key.None? {
      KnownBaseIsPlain(base);
    } else {
      SealedIsUnsealed(lib, base, bytes, path, key.value, nonce.value);
    }
  }

  /** A JSON value reads back as written when the library reads this one value back. */
  lemma JsonRoundTrip(lib: Libraries, compress: bool, limit: nat, t: Type, v: Value, path: string, key: Option<Key>,
                      nonce: Option<Nonce>)
    requires Reversible(lib) && Encode(lib, Json, compress, limit, v, path, key, nonce).Ok?
    ensures var e := Encode(lib, Json, compress, limit, v, path, key, nonce).value;
            (Decode(lib, t, e.bytes, e.tag, path, limit, key) == Ok(v) <==>
             lib.fromJson(t, lib.toJson(v).value) == Some(v))
  {
    WholeRoundTrip(lib, Json, compress, limit, t, v, path, key, nonce);
  }

  /** The text a value is sealed as. */
  ghost function SealedText(lib: Libraries, codec: Codec, compress: bool, limit: nat, v: Value, path: string, key: Key,
                            nonce: Nonce): (text: seq<Byte>)
    requires Encode(lib, codec, compress, limit, v, path, Some(key), Some(nonce)).Ok?
  {
    var e := Encode(lib, codec, compress, limit, v, path, Some(key), Some(nonce)).value;
    var bytes := Compress(lib, compress, limit, Serialize(lib, codec, v).value).value;
    lib.aead.seal(key, nonce, AssociatedData(e.tag, path), bytes)
  }

  /** A sealed payload is read by a key only if it is its own, at its own path, under its own tag, or forged. */
  lemma SealedIsReadOnlyAtHome(lib: Libraries, codec: Codec, compress: bool, limit: nat, t: Type, v: Value,
                               path: string, key: Key, nonce: Nonce, tag': string, path': string, limit': nat,
                               key': Key)
    requires Opens(lib.aead)
    requires Encode(lib, codec, compress, limit, v, path, Some(key), Some(nonce)).Ok?
    ensures var e := Encode(lib, codec, compress, limit, v, path, Some(key), Some(nonce)).value;
            Decode(lib, t, e.bytes, tag', path', limit', Some(key')).Ok? ==>
              || (key' == key && path' == path && tag' == e.tag)
              || Forgery(lib.aead, nonce, SealedText(lib, codec, compress, limit, v, path, key, nonce),
                         key, AssociatedData(e.tag, path), key', AssociatedData(tag', path'))
  {
    var e := Encode(lib, codec, compress, limit, v, path, Some(key), Some(nonce)).value;
    var bytes := Compress(lib, compress, limit, Serialize(lib, codec, v).value).value;
    SealedAs(lib, codec, compress, limit, v, path, key, nonce);
    if Decode(lib, t, e.bytes, tag', path', limit', Some(key')).Ok?
       && !(key' == key && path' == path && tag' == e.tag) {
      ReadableTagIsKnown(lib, t, e.bytes, tag', path', limit', key');
      BoundTagParses(BaseTag(codec, compress));
      OtherHomesDiffer(e.tag, path, tag', path');
      SealedOpensNowhereElse(lib.aead, Some(nonce), bytes, key, AssociatedData(e.tag, path), key',
                             AssociatedData(tag', path'));
    }
  }

  lemma SealedAs(lib: Libraries, codec: Codec, compress: bool, limit: nat, v: Value, path: string, key: Key,
                 nonce: Nonce)
    requires Encode(lib, codec, compress, limit, v, path, Some(key), Some(nonce)).Ok?
    ensures var e := Encode(lib, codec, compress, limit, v, path, Some(key), Some(nonce)).value;
            && Serialize(lib, codec, v).Ok? && Compress(lib, compress, limit, Serialize(lib, codec, v).value).Ok?
            && BoundTag(BaseTag(codec, compress)) == Some(e.tag)
            && var bytes := Compress(lib, compress, limit, Serialize(lib, codec, v).value).value;
               EncryptBytes(lib.aead, Some(nonce), bytes, key, AssociatedData(e.tag, path)) == Ok(e.bytes)
  {
  }

  /** With a key, only a payload with a known, bound tag is read at all, and only if it opens. */
  lemma ReadableTagIsKnown(lib: Libraries, t: Type, bytes: seq<Byte>, tag: string, path: string, limit: nat, key: Key)
    requires Decode(lib, t, bytes, tag, path, limit, Some(key)).Ok?
    ensures IsBoundTag(tag)
    ensures DecryptBytes(lib.aead, bytes, key, AssociatedData(tag, path)).Ok?
  {
  }

  /** Which payloads are refused before their bytes are looked at, and how. */
  lemma RefusedIff(lib: Libraries, bytes: seq<Byte>, tag: string, path: string, key: Option<Key>)
    ensures var (base, sealing) := ParseTag(tag);
            var r := Unseal(lib, bytes, tag, path, key);
            && (r == Err(MissingEncryptionKey) <==> key.None? && !sealing.Plain?)
            && (r == Err(UnsealedEntry) <==> key.Some? && IsKnownBase(base) && !sealing.Bound?)
            && (r == Err(UnknownEncoding(base)) <==> key.Some? && !IsKnownBase(base) && !sealing.Plain?)
  {
  }

  /** A tag this build cannot decode is reported as such exactly when it is plain or there is a key. */
  lemma UnknownTagIff(lib: Libraries, t: Type, bytes: seq<Byte>, tag: string, path: string, limit: nat,
                      key: Option<Key>)
    requires !IsKnownBase(ParseTag(tag).0)
    ensures var r := Decode(lib, t, bytes, tag, path, limit, key);
            && (r == Err(UnknownEncoding(ParseTag(tag).0)) <==> ParseTag(tag).1.Plain? || key.Some?)
            && (r == Err(MissingEncryptionKey) <==> !ParseTag(tag).1.Plain? && key.None?)
  {
    RefusedIff(lib, bytes, tag, path, key);
    if ParseTag(tag).1.Plain? {
      ParseTagIff(tag, ParseTag(tag).0, Plain);
      assert ParseTag(tag).0 + "" == ParseTag(tag).0;
    }
  }

  /** Without a key, a sealed tag of an unknown base is reported as a missing key. */
  lemma UnknownTagCanLookKeyless(lib: Libraries, t: Type, bytes: seq<Byte>, path: string, limit: nat)
    ensures var tag := "cbor" + BOUND_SUFFIX;
            !IsKnownBase(ParseTag(tag).0) && Decode(lib, t, bytes, tag, path, limit, None) == Err(MissingEncryptionKey)
  {
    ParseTagIff("cbor" + BOUND_SUFFIX, "cbor", Bound);
    UnknownTagIff(lib, t, bytes, "cbor" + BOUND_SUFFIX, path, limit, None);
  }
}
