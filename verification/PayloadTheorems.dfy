/** What the payload codec promises as a whole: `to_vec` and `from_slice`. */
module PayloadTheorems {
  import opened Wrappers
  import opened Bytes
  import opened PayloadFormat
  import opened PayloadRoundTrip
  import opened PayloadCanonical
  import Utf8

  /** No level is open at the top of a payload. */
  const TOP: nat := 0

  /** `to_vec`. */
  function ToVec(v: Value): (r: Result<seq<Byte>, Error>) {
    Encode(v, TOP)
  }

  /** `from_slice`: the budget is the length of the input. */
  function FromSlice(defs: Definitions, t: Schema, bytes: seq<Byte>): (r: Outcome<Value>) {
    Decode(defs, t, State(bytes, |bytes|), TOP)
  }

  // ---------------------------------------------------------------------------
  // What can be written
  // ---------------------------------------------------------------------------

  /** How many levels the value nests. */
  function Levels(v: Value): (n: nat)
    decreases v, 0
  {
    match v
    case Present(inner) => 1 + Levels(inner)
    case Newtype(inner) => 1 + Levels(inner)
    case Seq(_, elements) => 1 + LevelsAll(elements)
    case Map(_, entries) => 1 + LevelsAll(entries)
    case Tuple(fields) => 1 + LevelsAll(fields)
    case Variant(_, fields) => 1 + LevelsAll(fields)
    case _ => 0
  }

  function LevelsAll(vs: seq<Value>): (n: nat)
    decreases vs, 1
  {
    if vs == [] then 0
    else if Levels(vs[0]) > LevelsAll(vs[1..]) then Levels(vs[0])
    else LevelsAll(vs[1..])
  }

  /** Every sequence and map writes as many elements as it declared, and every length fits 64 bits. */
  predicate Honest(v: Value)
    decreases v, 0
  {
    match v
    case Str(scalars) => |Utf8.Encode(scalars)| < U64_LIMIT
    case Bytes(content) => |content| < U64_LIMIT
    case Present(inner) => Honest(inner)
    case Newtype(inner) => Honest(inner)
    case Seq(declared, elements) => declared == Some(|elements|) && |elements| < U64_LIMIT && HonestAll(elements)
    case Map(declared, entries) =>
      declared == Some((|entries| + 1) / 2) && (|entries| + 1) / 2 < U64_LIMIT && HonestAll(entries)
    case Tuple(fields) => HonestAll(fields)
    case Variant(_, fields) => HonestAll(fields)
    case _ => true
  }

  predicate HonestAll(vs: seq<Value>)
    decreases vs, 1
  {
    vs != [] ==> Honest(vs[0]) && HonestAll(vs[1..])
  }

  /** A value can be written exactly when it is honest and nests at most `DEPTH_LIMIT` levels. */
  lemma {:induction false} EncodableIff(v: Value, depth: nat)
    requires depth <= DEPTH_LIMIT
    ensures Encode(v, depth).Ok? <==> Honest(v) && depth + Levels(v) <= DEPTH_LIMIT
    decreases DEPTH_LIMIT - depth, 0
  {
    if depth < DEPTH_LIMIT {
      AllEncodableIff(Parts(v), depth + 1);
      if v.Present? || v.Newtype? {
        assert Levels(v) == 1 + LevelsAll([v.inner]) && Honest(v) == HonestAll([v.inner]) by {
          assert [v.inner][1..] == [];
        }
        assert EncodeLevel(if v.Present? then [1] else [], [v.inner], depth).Ok? == EncodeAll([v.inner], depth + 1).Ok?;
      } else if v.Seq? || v.Map? {
        if Encode(v, depth).Ok? {
          CountedEncoding(v, depth);
        } else if Honest(v) && EncodeAll(Parts(v), depth + 1).Ok? {
          assert EncodeLevel(LittleEndian(v.declared.value, U64_WIDTH), Parts(v), depth).Ok?;
        }
      }
    }
  }

  lemma {:induction false} AllEncodableIff(vs: seq<Value>, depth: nat)
    requires depth <= DEPTH_LIMIT
    ensures EncodeAll(vs, depth).Ok? <==> HonestAll(vs) && depth + LevelsAll(vs) <= DEPTH_LIMIT
    decreases DEPTH_LIMIT - depth, 1 + |vs|
  {
    if vs != [] {
      EncodableIff(vs[0], depth);
      AllEncodableIff(vs[1..], depth);
    }
  }

  // ---------------------------------------------------------------------------
  // The counts never fire on honest payloads
  // ---------------------------------------------------------------------------

  /** Every sequence element and every map entry, at every level, occupies at least one byte. */
  predicate ElementsOccupyBytes(v: Value)
    decreases v, 0
  {
    match v
    case Present(inner) => ElementsOccupyBytes(inner)
    case Newtype(inner) => ElementsOccupyBytes(inner)
    case Seq(_, elements) => (forall e <- elements :: Size(e) > 0) && AllOccupyBytes(elements)
    case Map(_, entries) => EntriesOccupyBytes(entries) && AllOccupyBytes(entries)
    case Tuple(fields) => AllOccupyBytes(fields)
    case Variant(_, fields) => AllOccupyBytes(fields)
    case _ => true
  }

  predicate EntriesOccupyBytes(entries: seq<Value>) {
    |entries| >= 2 ==> Size(entries[0]) + Size(entries[1]) > 0 && EntriesOccupyBytes(entries[2..])
  }

  predicate AllOccupyBytes(vs: seq<Value>)
    decreases vs, 1
  {
    vs != [] ==> ElementsOccupyBytes(vs[0]) && AllOccupyBytes(vs[1..])
  }

  /** `bytes` bytes pay for `counts` elements, with one to spare unless there are no bytes at all. */
  predicate Pays(bytes: nat, counts: nat) {
    counts <= bytes && (bytes > 0 ==> counts < bytes)
  }

  /** Encoded bytes pay for all the counts inside them. */
  lemma {:induction false} BytesPayForCounts(v: Value, after: nat)
    requires ElementsOccupyBytes(v)
    ensures Pays(Size(v), Counts(v)) && Fits(v, after)
    decreases v, 0
  {
    match v
    case Present(inner) => BytesPayForCounts(inner, after);
    case Newtype(inner) => BytesPayForCounts(inner, after);
    case Seq(_, elements) => AllBytesPayForCounts(elements, after); ElementsPay(elements);
    case Map(_, entries) => AllBytesPayForCounts(entries, after); EntriesPay(entries);
    case Tuple(fields) => AllBytesPayForCounts(fields, after);
    case Variant(_, fields) => AllBytesPayForCounts(fields, after);
    case _ =>
  }

  lemma {:induction false} AllBytesPayForCounts(vs: seq<Value>, after: nat)
    requires AllOccupyBytes(vs)
    ensures Pays(SizeAll(vs), CountsAll(vs)) && FitAll(vs, after)
    ensures forall v <- vs :: Pays(Size(v), Counts(v))
    decreases vs, 1
  {
    if vs != [] {
      BytesPayForCounts(vs[0], SizeAll(vs[1..]) + after);
      AllBytesPayForCounts(vs[1..], after);
      assert forall v <- vs :: v == vs[0] || v in vs[1..];
    }
  }

  lemma {:induction false} ElementsPay(vs: seq<Value>)
    requires forall v <- vs :: Size(v) > 0 && Pays(Size(v), Counts(v))
    ensures |vs| + CountsAll(vs) <= SizeAll(vs)
  {
    if vs != [] {
      ElementsPay(vs[1..]);
    }
  }

  lemma {:induction false} EntriesPay(vs: seq<Value>)
    requires EntriesOccupyBytes(vs) && forall v <- vs :: Pays(Size(v), Counts(v))
    ensures |vs| / 2 + CountsAll(vs) <= SizeAll(vs)
  {
    if |vs| >= 2 {
      EntriesPay(vs[2..]);
      assert vs[1..][1..] == vs[2..] && vs[1..][0] == vs[1];
      assert SizeAll(vs[1..]) == Size(vs[1]) + SizeAll(vs[2..]);
      assert CountsAll(vs[1..]) == Counts(vs[1]) + CountsAll(vs[2..]);
      assert vs[0] in vs && vs[1] in vs;
    } else if |vs| == 1 {
      assert vs[0] in vs && vs[1..] == [];
    }
  }

  // ---------------------------------------------------------------------------
  // The theorems
  // ---------------------------------------------------------------------------

  /** What is written is read back, whatever follows it, exactly when the count checks allow it. */
  lemma WrittenIsReadIff(defs: Definitions, t: Schema, v: Value, suffix: seq<Byte>)
    requires HasType(defs, t, v) && ToVec(v).Ok?
    ensures var out := FromSlice(defs, t, ToVec(v).value + suffix);
            && (out.Done? <==> Fits(v, |suffix|) && Counts(v) <= Size(v) + |suffix|)
            && (out.Done? ==> out.value == v && out.after.input == suffix)
            && (out.Fail? ==> out.error.CountExceedsInput?)
  {
    EncodeHasSize(v, TOP);
    RoundTrip(defs, t, v, TOP, suffix, |ToVec(v).value + suffix|);
  }

  /**
    The round trip: a value whose elements occupy bytes is written exactly when it is honest and nests at most
    `DEPTH_LIMIT` levels, and is then read back, consuming exactly its encoding.
   */
  lemma CodecRoundTrip(defs: Definitions, t: Schema, v: Value, suffix: seq<Byte>)
    requires HasType(defs, t, v) && ElementsOccupyBytes(v)
    ensures ToVec(v).Ok? <==> Honest(v) && Levels(v) <= DEPTH_LIMIT
    ensures ToVec(v).Ok? ==>
              var out := FromSlice(defs, t, ToVec(v).value + suffix);
              out.Done? && out.value == v && out.after.input == suffix
  {
    EncodableIff(v, TOP);
    if ToVec(v).Ok? {
      BytesPayForCounts(v, |suffix|);
      WrittenIsReadIff(defs, t, v, suffix);
    }
  }

  /** The documented exception: a sequence of ten zero-sized elements is written but not read back. */
  lemma ZeroSizedElementsAreRefused(defs: Definitions)
    ensures var v := Seq(Some(10), seq(10, _ => Unit));
            HasType(defs, SeqT(UnitT), v) && ToVec(v).Ok? && FromSlice(defs, SeqT(UnitT), ToVec(v).value).Fail?
  {
    var v := Seq(Some(10), seq(10, _ => Unit));
    UnitsAreZeroSized(defs, 10);
    EncodableIff(v, TOP);
    WrittenIsReadIff(defs, SeqT(UnitT), v, []);
    assert ToVec(v).value + [] == ToVec(v).value;
  }

  lemma {:induction false} UnitsAreZeroSized(defs: Definitions, n: nat)
    ensures var vs := seq(n, _ => Unit);
            HasTypes(defs, Repeat(UnitT, n), vs) && SizeAll(vs) == 0 && HonestAll(vs) && LevelsAll(vs) == 0
  {
    if n > 0 {
      UnitsAreZeroSized(defs, n - 1);
      assert seq(n, _ => Unit)[1..] == seq(n - 1, _ => Unit);
      assert Repeat(UnitT, n)[1..] == Repeat(UnitT, n - 1);
    }
  }

  predicate DecodesTo(defs: Definitions, t: Schema, bytes: seq<Byte>, v: Value, rest: seq<Byte>) {
    var out := FromSlice(defs, t, bytes);
    out.Done? && out.value == v && out.after.input == rest
  }

  /** The encoding of the typed value `v`, then `rest`, with the counts of `v` within both checks. */
  predicate IsEncoding(defs: Definitions, t: Schema, bytes: seq<Byte>, v: Value, rest: seq<Byte>) {
    HasType(defs, t, v) && ToVec(v).Ok? && bytes == ToVec(v).value + rest && Fits(v, |rest|) && Counts(v) <= |bytes|
  }

  /** The bytes that decode to `v` and leave `rest` are exactly the encoding of the typed value `v`, then `rest`. */
  lemma DecodesIff(defs: Definitions, t: Schema, bytes: seq<Byte>, v: Value, rest: seq<Byte>)
    ensures DecodesTo(defs, t, bytes, v, rest) <==> IsEncoding(defs, t, bytes, v, rest)
  {
    if DecodesTo(defs, t, bytes, v, rest) {
      DecodedIsWritten(defs, t, bytes);
    }
    if IsEncoding(defs, t, bytes, v, rest) {
      WrittenDecodes(defs, t, bytes, v, rest);
    }
  }

  lemma DecodedIsWritten(defs: Definitions, t: Schema, bytes: seq<Byte>)
    requires FromSlice(defs, t, bytes).Done?
    ensures var out := FromSlice(defs, t, bytes); IsEncoding(defs, t, bytes, out.value, out.after.input)
  {
    Canonical(defs, t, State(bytes, |bytes|), TOP);
  }

  lemma WrittenDecodes(defs: Definitions, t: Schema, bytes: seq<Byte>, v: Value, rest: seq<Byte>)
    requires IsEncoding(defs, t, bytes, v, rest)
    ensures DecodesTo(defs, t, bytes, v, rest)
  {
    EncodeHasSize(v, TOP);
    WrittenIsReadIff(defs, t, v, rest);
  }

  /** With more bytes behind a value its counts still fit. */
  lemma {:induction false} FitsMonotone(v: Value, less: nat, more: nat)
    requires less <= more && Fits(v, less)
    ensures Fits(v, more)
    decreases v, 0
  {
    match v
    case Present(inner) => FitsMonotone(inner, less, more);
    case Newtype(inner) => FitsMonotone(inner, less, more);
    case Seq(_, elements) => FitAllMonotone(elements, less, more);
    case Map(_, entries) => FitAllMonotone(entries, less, more);
    case Tuple(fields) => FitAllMonotone(fields, less, more);
    case Variant(_, fields) => FitAllMonotone(fields, less, more);
    case _ =>
  }

  lemma {:induction false} FitAllMonotone(vs: seq<Value>, less: nat, more: nat)
    requires less <= more && FitAll(vs, less)
    ensures FitAll(vs, more)
    decreases vs, 1
  {
    if vs != [] {
      FitsMonotone(vs[0], SizeAll(vs[1..]) + less, SizeAll(vs[1..]) + more);
      FitAllMonotone(vs[1..], less, more);
    }
  }

  /** Bytes behind a complete value change neither the value nor what is consumed. */
  lemma TrailingBytesAreIgnored(defs: Definitions, t: Schema, bytes: seq<Byte>, more: seq<Byte>)
    requires FromSlice(defs, t, bytes).Done?
    ensures var out, longer := FromSlice(defs, t, bytes), FromSlice(defs, t, bytes + more);
            longer.Done? && longer.value == out.value && longer.after.input == out.after.input + more
  {
    var v, rest := FromSlice(defs, t, bytes).value, FromSlice(defs, t, bytes).after.input;
    DecodesIff(defs, t, bytes, v, rest);
    FitsMonotone(v, |rest|, |rest + more|);
    Glue(ToVec(v).value, rest, more);
    DecodesIff(defs, t, bytes + more, v, rest + more);
  }

  /** No proper prefix of the bytes a value was read from decodes to anything. */
  lemma TruncationIsAnError(defs: Definitions, t: Schema, bytes: seq<Byte>, n: nat)
    requires FromSlice(defs, t, bytes).Done? && n < |bytes| - |FromSlice(defs, t, bytes).after.input|
    ensures FromSlice(defs, t, bytes[..n]).Fail?
  {
    assert bytes[..n] + bytes[n..] == bytes;
    if FromSlice(defs, t, bytes[..n]).Done? {
      TrailingBytesAreIgnored(defs, t, bytes[..n], bytes[n..]);
    }
  }

  lemma {:induction false} RoomMakesFit(v: Value, after: nat)
    requires Counts(v) <= after
    ensures Fits(v, after)
    decreases v, 0
  {
    match v
    case Present(inner) => RoomMakesFit(inner, after);
    case Newtype(inner) => RoomMakesFit(inner, after);
    case Seq(_, elements) => RoomMakesAllFit(elements, after);
    case Map(_, entries) => RoomMakesAllFit(entries, after);
    case Tuple(fields) => RoomMakesAllFit(fields, after);
    case Variant(_, fields) => RoomMakesAllFit(fields, after);
    case _ =>
  }

  lemma {:induction false} RoomMakesAllFit(vs: seq<Value>, after: nat)
    requires CountsAll(vs) <= after
    ensures FitAll(vs, after)
    decreases vs, 1
  {
    if vs != [] {
      RoomMakesFit(vs[0], SizeAll(vs[1..]) + after);
      RoomMakesAllFit(vs[1..], after);
    }
  }

  /** Two typed values with the same encoding are the same value. */
  lemma EncodingIsInjective(defs: Definitions, t: Schema, v: Value, w: Value)
    requires HasType(defs, t, v) && HasType(defs, t, w) && ToVec(v).Ok? && ToVec(v) == ToVec(w)
    ensures v == w
  {
    var room := Counts(v) + Counts(w);
    var suffix: seq<Byte> := seq(room, _ => 0);
    RoomMakesFit(v, room);
    RoomMakesFit(w, room);
    RoundTrip(defs, t, v, TOP, suffix, room);
    RoundTrip(defs, t, w, TOP, suffix, room);
  }
}
