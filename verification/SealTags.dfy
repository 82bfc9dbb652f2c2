/** The encoding tags of stored payloads, and the data a bound payload is sealed with. */
module SealTags {
  import opened Wrappers
  import opened Bytes
  import Utf8

  const LEGACY_SUFFIX := "-aes256gcm"
  const BOUND_SUFFIX := "-aes256gcm-bound"
  const SEAL_CONTEXT := "localcache/seal/1"

  /** How a stored payload is sealed. */
  datatype SealState = Plain | Unbound | Bound

  // ---------------------------------------------------------------------------
  // Tags
  // ---------------------------------------------------------------------------

  predicate EndsWith(s: string, suffix: string) {
    |suffix| <= |s| && s[|s| - |suffix|..] == suffix
  }

  lemma EndsWithLast(s: string, suffix: string)
    requires suffix != ""
    ensures EndsWith(s, suffix) ==> s != "" && s[|s| - 1] == suffix[|suffix| - 1]
  {
  }

  function StripSuffix(s: string, suffix: string): (r: Option<string>)
    ensures r.Some? <==> EndsWith(s, suffix)
    ensures r.Some? ==> r.value + suffix == s
  {
    if EndsWith(s, suffix) then Some(s[..|s| - |suffix|]) else None
  }

  /** The base tag and the seal a stored tag names. */
  function ParseTag(tag: string): (r: (string, SealState)) {
    var bound := StripSuffix(tag, BOUND_SUFFIX);
    var legacy := StripSuffix(tag, LEGACY_SUFFIX);
    if bound.Some? then (bound.value, Bound)
    else if legacy.Some? then (legacy.value, Unbound)
    else (tag, Plain)
  }

  function SuffixOf(state: SealState): string {
    match state
    case Plain => ""
    case Unbound => LEGACY_SUFFIX
    case Bound => BOUND_SUFFIX
  }

  /** A tag parses as `base` and `state` exactly when it is written as them, and a plain tag bears no suffix. */
  lemma ParseTagIff(tag: string, base: string, state: SealState)
    ensures ParseTag(tag) == (base, state)
       <==> tag == base + SuffixOf(state)
            && (state.Plain? ==> !EndsWith(tag, LEGACY_SUFFIX) && !EndsWith(tag, BOUND_SUFFIX))
  {
    EndsWithLast(tag, LEGACY_SUFFIX);
    EndsWithLast(tag, BOUND_SUFFIX);
    assert LEGACY_SUFFIX[|LEGACY_SUFFIX| - 1] == 'm' && BOUND_SUFFIX[|BOUND_SUFFIX| - 1] == 'd';
    assert base + "" == base;
    if tag == base + SuffixOf(state) {
      assert EndsWith(tag, SuffixOf(state)) && tag[..|tag| - |SuffixOf(state)|] == base;
    }
  }

  predicate IsKnownBase(base: string) {
    base == "raw" || base == "zstd" || base == "json" || base == "json-zstd"
  }

  /** The bound tag of a base tag. */
  function BoundTag(base: string): (tag: Option<string>) {
    match base
    case "raw" => Some("raw-aes256gcm-bound")
    case "zstd" => Some("zstd-aes256gcm-bound")
    case "json" => Some("json-aes256gcm-bound")
    case "json-zstd" => Some("json-zstd-aes256gcm-bound")
    case _ => None
  }

  /** Exactly the known base tags have a bound tag: themselves with the suffix. */
  lemma BoundTagIs(base: string)
    ensures BoundTag(base) == if IsKnownBase(base) then Some(base + BOUND_SUFFIX) else None
  {
    match base
    case "raw" => assert "raw" + BOUND_SUFFIX == "raw-aes256gcm-bound";
    case "zstd" => assert "zstd" + BOUND_SUFFIX == "zstd-aes256gcm-bound";
    case "json" => assert "json" + BOUND_SUFFIX == "json-aes256gcm-bound";
    case "json-zstd" => assert "json-zstd" + BOUND_SUFFIX == "json-zstd-aes256gcm-bound";
    case _ =>
  }

  /** A bound tag parses back. */
  lemma BoundTagParses(base: string)
    requires BoundTag(base).Some?
    ensures ParseTag(BoundTag(base).value) == (base, Bound)
  {
    BoundTagIs(base);
    ParseTagIff(base + BOUND_SUFFIX, base, Bound);
  }

  predicate NulFree(s: string) {
    forall c <- s :: c as int != 0
  }

  lemma KnownTagsHoldNoNul(base: string, state: SealState)
    requires IsKnownBase(base)
    ensures NulFree(base + SuffixOf(state))
  {
    assert NulFree(base) && NulFree(SuffixOf(state));
  }

  /** A known base tag is its own plain tag. */
  lemma KnownBaseIsPlain(base: string)
    requires IsKnownBase(base)
    ensures ParseTag(base) == (base, Plain)
  {
    assert !EndsWith(base, LEGACY_SUFFIX) && !EndsWith(base, BOUND_SUFFIX);
  }

  // ---------------------------------------------------------------------------
  // Associated data
  // ---------------------------------------------------------------------------

  /** `str::as_bytes`. */
  function Utf8Bytes(s: string): (bs: seq<Byte>) {
    Utf8.Encode(seq(|s|, i requires 0 <= i < |s| => s[i] as int))
  }

  function AssociatedData(tag: string, path: string): (aad: seq<Byte>) {
    Utf8Bytes(SEAL_CONTEXT) + [0] + Utf8Bytes(tag) + [0] + Utf8Bytes(path)
  }

  lemma {:induction false} EncodeJoins(a: seq<Utf8.Scalar>, b: seq<Utf8.Scalar>)
    ensures Utf8.Encode(a + b) == Utf8.Encode(a) + Utf8.Encode(b)
  {
    if a == [] {
      assert a + b == b;
    } else {
      assert (a + b)[0] == a[0] && (a + b)[1..] == a[1..] + b;
      EncodeJoins(a[1..], b);
    }
  }

  lemma Utf8BytesJoin(a: string, b: string)
    ensures Utf8Bytes(a + b) == Utf8Bytes(a) + Utf8Bytes(b)
  {
    var x := seq(|a|, i requires 0 <= i < |a| => a[i] as int);
    var y := seq(|b|, i requires 0 <= i < |b| => b[i] as int);
    EncodeJoins(x, y);
    assert seq(|a + b|, i requires 0 <= i < |a + b| => (a + b)[i] as int) == x + y;
  }

  /** The associated data are the bytes of one text: the context, the tag and the path, with a NUL between them. */
  lemma AssociatedDataIsText(tag: string, path: string)
    ensures AssociatedData(tag, path) == Utf8Bytes("localcache/seal/1\0" + tag + "\0" + path)
  {
    var head, nul := "localcache/seal/1", "\0";
    assert seq(|nul|, i requires 0 <= i < |nul| => nul[i] as int) == [0];
    assert Utf8.Encode([0]) == [0];
    assert "localcache/seal/1\0" == head + nul;
    Utf8BytesJoin(head, nul);
    Utf8BytesJoin(head + nul, tag);
    Utf8BytesJoin(head + nul + tag, nul);
    Utf8BytesJoin(head + nul + tag + nul, path);
  }

  lemma NoNulScalar(c: Utf8.Scalar)
    requires c != 0
    ensures 0 !in Utf8.EncodeScalar(c)
  {
  }

  lemma {:induction false} NoNulBytes(cs: seq<Utf8.Scalar>)
    requires 0 !in cs
    ensures 0 !in Utf8.Encode(cs)
  {
    if cs != [] {
      assert forall c <- cs[1..] :: c in cs;
      NoNulBytes(cs[1..]);
      NoNulScalar(cs[0]);
    }
  }

  lemma NulFreeBytes(s: string)
    requires NulFree(s)
    ensures 0 !in Utf8Bytes(s)
  {
    var cs := seq(|s|, i requires 0 <= i < |s| => s[i] as int);
    forall i | 0 <= i < |cs|
      ensures cs[i] != 0
    {
      assert s[i] in s;
    }
    NoNulBytes(cs);
  }

  lemma Utf8BytesIsInjective(a: string, b: string)
    requires Utf8Bytes(a) == Utf8Bytes(b)
    ensures a == b
  {
    var x := seq(|a|, i requires 0 <= i < |a| => a[i] as int);
    var y := seq(|b|, i requires 0 <= i < |b| => b[i] as int);
    Utf8.DecodeOfEncode(x);
    Utf8.DecodeOfEncode(y);
    assert x == y;
    forall i | 0 <= i < |a|
      ensures a[i] == b[i]
    {
      assert x[i] == y[i];
    }
  }

  lemma NotNulBefore(a: seq<Byte>, b: seq<Byte>, k: nat)
    requires 0 !in a
    ensures k < |a| ==> (a + [0] + b)[k] != 0
  {
    if k < |a| {
      assert a[k] in a;
    }
  }

  /** What comes before the first NUL can be read back, and so can what comes after it. */
  lemma SplitAtNul(a: seq<Byte>, b: seq<Byte>, a': seq<Byte>, b': seq<Byte>)
    requires 0 !in a && 0 !in a' && a + [0] + b == a' + [0] + b'
    ensures a == a' && b == b'
  {
    var s := a + [0] + b;
    assert s[|a|] == 0 && s[|a'|] == 0;
    NotNulBefore(a, b, |a'|);
    NotNulBefore(a', b', |a|);
    assert s[..|a|] == a && s[..|a'|] == a' && s[|a| + 1..] == b && s[|a'| + 1..] == b';
  }

  /** No two pairs of a tag and a path have the same associated data, as long as the tags hold no NUL. */
  lemma AssociatedDataIsInjective(tag: string, path: string, tag': string, path': string)
    requires NulFree(tag) && NulFree(tag') && AssociatedData(tag, path) == AssociatedData(tag', path')
    ensures tag == tag' && path == path'
  {
    var head := Utf8Bytes(SEAL_CONTEXT) + [0];
    var a, a' := Utf8Bytes(tag), Utf8Bytes(tag');
    var s, s' := a + [0] + Utf8Bytes(path), a' + [0] + Utf8Bytes(path');
    assert AssociatedData(tag, path) == head + s && AssociatedData(tag', path') == head + s';
    assert s == (head + s)[|head|..] && s' == (head + s')[|head|..];
    NulFreeBytes(tag);
    NulFreeBytes(tag');
    SplitAtNul(a, Utf8Bytes(path), a', Utf8Bytes(path'));
    Utf8BytesIsInjective(tag, tag');
    Utf8BytesIsInjective(path, path');
  }

  /** A tag the format writes on sealed payloads. */
  predicate IsBoundTag(tag: string) {
    IsKnownBase(ParseTag(tag).0) && ParseTag(tag).1 == Bound
  }

  lemma BoundTagsHoldNoNul(tag: string)
    requires IsBoundTag(tag)
    ensures NulFree(tag)
  {
    var base := ParseTag(tag).0;
    ParseTagIff(tag, base, Bound);
    KnownTagsHoldNoNul(base, Bound);
  }

  /** Two homes, each a bound tag and a path, have the same associated data only if they are the same. */
  lemma OtherHomesDiffer(tag: string, path: string, tag': string, path': string)
    requires IsBoundTag(tag) && IsBoundTag(tag')
    ensures AssociatedData(tag, path) == AssociatedData(tag', path') ==> tag == tag' && path == path'
  {
    BoundTagsHoldNoNul(tag);
    BoundTagsHoldNoNul(tag');
    if AssociatedData(tag, path) == AssociatedData(tag', path') {
      AssociatedDataIsInjective(tag, path, tag', path');
    }
  }
}
