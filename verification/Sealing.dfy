/**
  Sealing and opening payloads. AES-256-GCM is any authenticated cipher: what the theorems need of it is stated as
  `Opens`, that opening inverts sealing (sections 2.1 and 2.2 of RFC 5116). That a sealed text opens nowhere else is
  stated as a reduction: where it does, it is a forgery against the cipher.
 */
module Sealing {
  import opened Wrappers
  import opened Bytes
  import opened Decompression
  import opened SealTags

  const KEY_LENGTH := 32
  const NONCE_LENGTH := 12

  type Key = k: seq<Byte> | |k| == KEY_LENGTH witness seq(KEY_LENGTH, _ => 0)
  type Nonce = n: seq<Byte> | |n| == NONCE_LENGTH witness seq(NONCE_LENGTH, _ => 0)

  /** An authenticated cipher: key, nonce and associated data, then the plaintext or the sealed text. */
  datatype Aead = Aead(
    seal: (Key, Nonce, seq<Byte>, seq<Byte>) -> seq<Byte>,
    open: (Key, Nonce, seq<Byte>, seq<Byte>) -> Option<seq<Byte>>
  )

  ghost predicate Opens(a: Aead) {
    && (forall k, n, aad, plain :: a.open(k, n, aad, a.seal(k, n, aad, plain)) == Some(plain))
    && (forall k, n, aad, text :: a.open(k, n, aad, text).Some? ==>
          a.seal(k, n, aad, a.open(k, n, aad, text).value) == text)
  }

  /** One text that opens under two pairs of a key and associated data: what the cipher's tag is there to prevent. */
  ghost predicate Forgery(a: Aead, n: Nonce, text: seq<Byte>, k: Key, aad: seq<Byte>, k': Key, aad': seq<Byte>) {
    && (k != k' || aad != aad')
    && a.open(k, n, aad, text).Some? && a.open(k', n, aad', text).Some?
  }

  /** The ideal a tag stands for. A cipher whose texts are no longer than its plaintexts and a tag cannot meet it. */
  ghost predicate Unforgeable(a: Aead) {
    forall n, text, k, aad, k', aad' :: !Forgery(a, n, text, k, aad, k', aad')
  }

  // ---------------------------------------------------------------------------
  // One payload
  // ---------------------------------------------------------------------------

  /** `encrypt_bytes`, with the nonce drawn for it, if one could be drawn: the nonce, then the sealed text. */
  function EncryptBytes(a: Aead, nonce: Option<Nonce>, plain: seq<Byte>, key: Key, aad: seq<Byte>):
    (r: Result<seq<Byte>, FormatError>)
  {
    if nonce.None? then Err(EncryptionError) else Ok(nonce.value + a.seal(key, nonce.value, aad, plain))
  }

  /** `decrypt_bytes`. */
  function DecryptBytes(a: Aead, data: seq<Byte>, key: Key, aad: seq<Byte>): (r: Result<seq<Byte>, FormatError>) {
    if |data| < NONCE_LENGTH then Err(EncryptionError)
    else match a.open(key, data[..NONCE_LENGTH], aad, data[NONCE_LENGTH..])
      case None => Err(EncryptionError)
      case Some(plain) => Ok(plain)
  }

  /** Data opens to `plain` exactly when it is a nonce and what sealing `plain` under it gives. */
  lemma DecryptsIff(a: Aead, data: seq<Byte>, key: Key, aad: seq<Byte>, plain: seq<Byte>)
    requires Opens(a)
    ensures DecryptBytes(a, data, key, aad) == Ok(plain)
       <==> |data| >= NONCE_LENGTH
            && data[NONCE_LENGTH..] == a.seal(key, data[..NONCE_LENGTH], aad, plain)
  {
    if |data| >= NONCE_LENGTH {
      var nonce, text := data[..NONCE_LENGTH], data[NONCE_LENGTH..];
      assert a.open(key, nonce, aad, a.seal(key, nonce, aad, plain)) == Some(plain);
    }
  }

  /** What is sealed opens with its key and associated data. */
  lemma SealedOpens(a: Aead, nonce: Option<Nonce>, plain: seq<Byte>, key: Key, aad: seq<Byte>)
    requires Opens(a) && EncryptBytes(a, nonce, plain, key, aad).Ok?
    ensures DecryptBytes(a, EncryptBytes(a, nonce, plain, key, aad).value, key, aad) == Ok(plain)
  {
    NonceInFront(nonce.value, a.seal(key, nonce.value, aad, plain));
    DecryptsIff(a, EncryptBytes(a, nonce, plain, key, aad).value, key, aad, plain);
  }

  lemma NonceInFront(nonce: Nonce, text: seq<Byte>)
    ensures (nonce + text)[..NONCE_LENGTH] == nonce && (nonce + text)[NONCE_LENGTH..] == text
  {
  }

  /** What is sealed does not open with another key or other associated data, unless the cipher is forged. */
  lemma SealedOpensNowhereElse(a: Aead, nonce: Option<Nonce>, plain: seq<Byte>, key: Key, aad: seq<Byte>, key': Key,
                               aad': seq<Byte>)
    requires Opens(a) && EncryptBytes(a, nonce, plain, key, aad).Ok? && (key' != key || aad' != aad)
    ensures DecryptBytes(a, EncryptBytes(a, nonce, plain, key, aad).value, key', aad') == Err(EncryptionError)
         || Forgery(a, nonce.value, a.seal(key, nonce.value, aad, plain), key, aad, key', aad')
  {
    NonceInFront(nonce.value, a.seal(key, nonce.value, aad, plain));
    assert a.open(key, nonce.value, aad, a.seal(key, nonce.value, aad, plain)) == Some(plain);
  }

  // ---------------------------------------------------------------------------
  // Resealing
  // ---------------------------------------------------------------------------

  /** What a stored payload holds under its seal, if it has one. */
  function InnerOf(a: Aead, content: seq<Byte>, tag: string, path: string, key: Key):
    (r: Result<seq<Byte>, FormatError>)
  {
    match ParseTag(tag).1
    case Plain => Ok(content)
    case Unbound => DecryptBytes(a, content, key, [])
    case Bound => DecryptBytes(a, content, key, AssociatedData(tag, path))
  }

  /** A payload sealed again: its new content and its new tag. */
  datatype Resealed = Resealed(content: seq<Byte>, tag: string)

  /** `reseal`. */
  function Reseal(a: Aead, content: seq<Byte>, tag: string, path: string, oldKey: Key, newKey: Key,
                  nonce: Option<Nonce>):
    (r: Result<Resealed, FormatError>)
  {
    var base := ParseTag(tag).0;
    if !IsKnownBase(base) then Err(UnknownEncoding(tag))
    else if BoundTag(base).None? then Err(UnknownEncoding(tag))
    else
      var tag' := BoundTag(base).value;
      var plain :- InnerOf(a, content, tag, path, oldKey);
      var sealed :- EncryptBytes(a, nonce, plain, newKey, AssociatedData(tag', path));
      Ok(Resealed(sealed, tag'))
  }

  /** A payload can be sealed again exactly when its tag is known, it opens with the old key, and there is a nonce. */
  lemma ResealsIff(a: Aead, content: seq<Byte>, tag: string, path: string, oldKey: Key, newKey: Key,
                   nonce: Option<Nonce>)
    ensures Reseal(a, content, tag, path, oldKey, newKey, nonce).Ok?
       <==> IsKnownBase(ParseTag(tag).0) && InnerOf(a, content, tag, path, oldKey).Ok? && nonce.Some?
  {
    BoundTagIs(ParseTag(tag).0);
  }

  /** The text a payload is sealed again as. */
  ghost function ResealedText(a: Aead, content: seq<Byte>, tag: string, path: string, oldKey: Key, newKey: Key,
                              nonce: Nonce): (text: seq<Byte>)
    requires Reseal(a, content, tag, path, oldKey, newKey, Some(nonce)).Ok?
  {
    var bound := BoundTag(ParseTag(tag).0).value;
    a.seal(newKey, nonce, AssociatedData(bound, path), InnerOf(a, content, tag, path, oldKey).value)
  }

  /**
    A payload sealed again has the same base tag, is bound, and opens under the new key at its own path and tag to the
    bytes it held before.
   */
  lemma ResealKeepsInner(a: Aead, content: seq<Byte>, tag: string, path: string, oldKey: Key, newKey: Key,
                         nonce: Option<Nonce>)
    requires Opens(a) && Reseal(a, content, tag, path, oldKey, newKey, nonce).Ok?
    ensures var r := Reseal(a, content, tag, path, oldKey, newKey, nonce).value;
            && ParseTag(r.tag) == (ParseTag(tag).0, Bound)
            && InnerOf(a, r.content, r.tag, path, newKey) == InnerOf(a, content, tag, path, oldKey)
  {
    var base := ParseTag(tag).0;
    var plain := InnerOf(a, content, tag, path, oldKey).value;
    BoundTagParses(base);
    SealedOpens(a, nonce, plain, newKey, AssociatedData(BoundTag(base).value, path));
  }

  /** It opens under no other key, at no other path and under no other bound tag, unless the cipher is forged. */
  lemma ResealedOpensNowhereElse(a: Aead, content: seq<Byte>, tag: string, path: string, oldKey: Key, newKey: Key,
                                 nonce: Nonce, key: Key, tag': string, path': string)
    requires Opens(a) && Reseal(a, content, tag, path, oldKey, newKey, Some(nonce)).Ok? && IsBoundTag(tag')
    ensures var r := Reseal(a, content, tag, path, oldKey, newKey, Some(nonce)).value;
            || (key == newKey && tag' == r.tag && path' == path)
            || InnerOf(a, r.content, tag', path', key) == Err(EncryptionError)
            || Forgery(a, nonce, ResealedText(a, content, tag, path, oldKey, newKey, nonce),
                       newKey, AssociatedData(r.tag, path), key, AssociatedData(tag', path'))
  {
    var base := ParseTag(tag).0;
    var bound := BoundTag(base).value;
    var plain := InnerOf(a, content, tag, path, oldKey).value;
    BoundTagParses(base);
    OtherHomesDiffer(bound, path, tag', path');
    if key != newKey || tag' != bound || path' != path {
      SealedOpensNowhereElse(a, Some(nonce), plain, newKey, AssociatedData(bound, path), key,
                             AssociatedData(tag', path'));
    }
  }

  // ---------------------------------------------------------------------------
  // The assumptions can be met
  // ---------------------------------------------------------------------------

  /** What a text starts with that is sealed under `key` and `aad` by the transparent cipher. */
  function Header(key: Key, aad: seq<Byte>): (h: seq<Byte>) {
    key + seq(|aad|, _ => 0) + [1] + aad
  }

  /** A cipher that hides nothing, but binds: it writes its key and associated data in front. */
  function Transparent(): Aead {
    Aead(
      (k: Key, n: Nonce, aad: seq<Byte>, plain: seq<Byte>) => Header(k, aad) + plain,
      (k: Key, n: Nonce, aad: seq<Byte>, text: seq<Byte>) =>
        if Header(k, aad) <= text then Some(text[|Header(k, aad)|..]) else None
    )
  }

  lemma ZeroBefore(k: Key, aad: seq<Byte>, i: nat)
    ensures i < |aad| ==> Header(k, aad)[KEY_LENGTH + i] == 0
  {
  }

  lemma HeadersDiffer(k: Key, aad: seq<Byte>, k': Key, aad': seq<Byte>, text: seq<Byte>)
    requires Header(k, aad) <= text && Header(k', aad') <= text
    ensures k == k' && aad == aad'
  {
    assert k == text[..KEY_LENGTH] == k';
    assert text[KEY_LENGTH + |aad|] == 1 && text[KEY_LENGTH + |aad'|] == 1;
    ZeroBefore(k', aad', |aad|);
    ZeroBefore(k, aad, |aad'|);
    var from := KEY_LENGTH + |aad| + 1;
    assert aad == text[from..from + |aad|] == aad';
  }

  /** Neither what is assumed of the cipher nor its ideal contradicts itself. */
  lemma AssumptionsCanBeMet()
    ensures Opens(Transparent()) && Unforgeable(Transparent())
  {
    forall k: Key, k': Key, n: Nonce, aad, aad', text |
        Transparent().open(k, n, aad, text).Some? && Transparent().open(k', n, aad', text).Some?
      ensures k' == k && aad' == aad
    {
      HeadersDiffer(k, aad, k', aad', text);
    }
  }
}
