/** Encoding then decoding: when it returns the value, and what it consumes. */
module PayloadRoundTrip {
  import opened Wrappers
  import opened Bytes
  import opened PayloadFormat
  import Utf8

  // ---------------------------------------------------------------------------
  // What a value costs
  // ---------------------------------------------------------------------------

  /** The length of the encoding. */
  function Size(v: Value): (n: nat)
    decreases v, 0
  {
    match v
    case Unit => 0
    case Bool(_) => 1
    case Fixed(width, _) => width
    case Char(scalar) => |Utf8.EncodeScalar(scalar)|
    case Str(scalars) => 8 + |Utf8.Encode(scalars)|
    case Bytes(content) => 8 + |content|
    case Absent => 1
    case Present(inner) => 1 + Size(inner)
    case Newtype(inner) => Size(inner)
    case Seq(_, elements) => 8 + SizeAll(elements)
    case Map(_, entries) => 8 + SizeAll(entries)
    case Tuple(fields) => SizeAll(fields)
    case Variant(_, fields) => 4 + SizeAll(fields)
  }

  function SizeAll(vs: seq<Value>): (n: nat)
    decreases vs, 1
  {
    if vs == [] then 0 else Size(vs[0]) + SizeAll(vs[1..])
  }

  /** How many sequence elements and map entries the value has at every level together. */
  function Counts(v: Value): (n: nat)
    decreases v, 0
  {
    match v
    case Present(inner) => Counts(inner)
    case Newtype(inner) => Counts(inner)
    case Seq(_, elements) => |elements| + CountsAll(elements)
    case Map(_, entries) => |entries| / 2 + CountsAll(entries)
    case Tuple(fields) => CountsAll(fields)
    case Variant(_, fields) => CountsAll(fields)
    case _ => 0
  }

  function CountsAll(vs: seq<Value>): (n: nat)
    decreases vs, 1
  {
    if vs == [] then 0 else Counts(vs[0]) + CountsAll(vs[1..])
  }

  /**
    With `after` bytes behind the encoding of `v`, no sequence or map in `v` claims more elements than there are bytes
    left behind its count. Only elements that occupy no bytes can break this.
   */
  predicate Fits(v: Value, after: nat)
    decreases v, 0
  {
    match v
    case Present(inner) => Fits(inner, after)
    case Newtype(inner) => Fits(inner, after)
    case Seq(_, elements) => |elements| <= SizeAll(elements) + after && FitAll(elements, after)
    case Map(_, entries) => |entries| / 2 <= SizeAll(entries) + after && FitAll(entries, after)
    case Tuple(fields) => FitAll(fields, after)
    case Variant(_, fields) => FitAll(fields, after)
    case _ => true
  }

  predicate FitAll(vs: seq<Value>, after: nat)
    decreases vs, 1
  {
    vs != [] ==> Fits(vs[0], SizeAll(vs[1..]) + after) && FitAll(vs[1..], after)
  }

  lemma OnePart(v: Value, after: nat)
    ensures SizeAll([v]) == Size(v) && CountsAll([v]) == Counts(v) && FitAll([v], after) == Fits(v, after)
  {
    assert [v][1..] == [];
  }

  // ---------------------------------------------------------------------------
  // The round trip
  // ---------------------------------------------------------------------------

  /** Decoding returned `value` and consumed all but `suffix`, exactly when the count checks let it. */
  predicate RoundTrips<T(==)>(out: Outcome<T>, value: T, allowed: bool, counts: nat, suffix: seq<Byte>, budget: nat) {
    if allowed && counts <= budget then out == Done(value, State(suffix, budget - counts))
    else out.Fail? && out.error.CountExceedsInput?
  }

  /** The encoding of a sequence or map, spelled out. */
  lemma CountedEncoding(v: Value, depth: nat)
    requires depth <= DEPTH_LIMIT && (v.Seq? || v.Map?) && Encode(v, depth).Ok?
    ensures depth < DEPTH_LIMIT && EncodeAll(Parts(v), depth + 1).Ok?
    ensures v.declared == Some(if v.Seq? then |v.elements| else (|v.entries| + 1) / 2) && v.declared.value < U64_LIMIT
    ensures Encode(v, depth).value
         == LittleEndian(v.declared.value, U64_WIDTH) + EncodeAll(Parts(v), depth + 1).value
  {
    var written := if v.Seq? then |v.elements| else (|v.entries| + 1) / 2;
    assert Encode(v, depth) == EncodeCounted(v.declared, written, Parts(v), depth);
    assert EncodeLevel(LittleEndian(v.declared.value, U64_WIDTH), Parts(v), depth).Ok?;
  }

  lemma {:induction false} EncodeHasSize(v: Value, depth: nat)
    requires depth <= DEPTH_LIMIT
    ensures Encode(v, depth).Ok? ==> |Encode(v, depth).value| == Size(v)
    decreases DEPTH_LIMIT - depth, 0
  {
    if depth < DEPTH_LIMIT {
      EncodeAllHasSize(Parts(v), depth + 1);
      if v.Present? || v.Newtype? {
        OnePart(v.inner, 0);
      } else if (v.Seq? || v.Map?) && Encode(v, depth).Ok? {
        CountedEncoding(v, depth);
      }
    }
  }

  lemma {:induction false} EncodeAllHasSize(vs: seq<Value>, depth: nat)
    requires depth <= DEPTH_LIMIT
    ensures EncodeAll(vs, depth).Ok? ==> |EncodeAll(vs, depth).value| == SizeAll(vs)
    decreases DEPTH_LIMIT - depth, 1 + |vs|
  {
    if vs != [] {
      EncodeHasSize(vs[0], depth);
      EncodeAllHasSize(vs[1..], depth);
    }
  }

  lemma Glue(a: seq<Byte>, b: seq<Byte>, c: seq<Byte>)
    ensures a + b + c == a + (b + c)
  {
  }

  lemma TakePrefix(bytes: seq<Byte>, suffix: seq<Byte>, budget: nat)
    ensures Take(State(bytes + suffix, budget), |bytes|) == Done(bytes, State(suffix, budget))
  {
    assert (bytes + suffix)[..|bytes|] == bytes && (bytes + suffix)[|bytes|..] == suffix;
  }

  lemma TakeNumberOfEncoding(n: nat, width: nat, suffix: seq<Byte>, budget: nat)
    requires n < Pow256(width)
    ensures TakeNumber(State(LittleEndian(n, width) + suffix, budget), width) == Done(n, State(suffix, budget))
  {
    TakePrefix(LittleEndian(n, width), suffix, budget);
    DecodeOfEncode(n, width);
  }

  lemma Pow256Values()
    ensures Pow256(U32_WIDTH) == 0x1_0000_0000 && Pow256(U64_WIDTH) == U64_LIMIT
  {
    assert Pow256(2) == 0x1_0000;
    assert Pow256(6) == 0x1_0000_0000_0000;
  }

  lemma TakeCountOfEncoding(count: nat, body: seq<Byte>, budget: nat)
    requires count < U64_LIMIT
    ensures var out := TakeCount(State(LittleEndian(count, U64_WIDTH) + body, budget));
            if count <= |body| && count <= budget then out == Done(count, State(body, budget - count))
            else out.Fail? && out.error.CountExceedsInput?
  {
    Pow256Values();
    TakeNumberOfEncoding(count, U64_WIDTH, body, budget);
  }

  lemma TakeBytesOfEncoding(content: seq<Byte>, suffix: seq<Byte>, budget: nat)
    requires |content| < U64_LIMIT
    ensures TakeBytes(State(LittleEndian(|content|, U64_WIDTH) + content + suffix, budget))
         == Done(content, State(suffix, budget))
  {
    Pow256Values();
    Glue(LittleEndian(|content|, U64_WIDTH), content, suffix);
    TakeNumberOfEncoding(|content|, U64_WIDTH, content + suffix, budget);
    TakePrefix(content, suffix, budget);
  }

  lemma TakeCharOfEncoding(c: Utf8.Scalar, suffix: seq<Byte>, budget: nat)
    ensures TakeChar(State(Utf8.EncodeScalar(c) + suffix, budget)) == Done(c, State(suffix, budget))
  {
    var bytes := Utf8.EncodeScalar(c);
    assert bytes == bytes[..1] + bytes[1..] && bytes + suffix == bytes[..1] + (bytes[1..] + suffix);
    TakePrefix(bytes[..1], bytes[1..] + suffix, budget);
    TakePrefix(bytes[1..], suffix, budget);
    Utf8.DecodePrepends(c, []);
    assert bytes + [] == bytes;
  }

  /** Types and values without parts. */
  lemma LeafRoundTrip(defs: Definitions, t: Schema, v: Value, depth: nat, suffix: seq<Byte>, budget: nat)
    requires depth <= DEPTH_LIMIT && HasType(defs, t, v) && Encode(v, depth).Ok?
    requires v.Unit? || v.Bool? || v.Fixed? || v.Char? || v.Str? || v.Bytes? || v.Absent?
    ensures Decode(defs, t, State(Encode(v, depth).value + suffix, budget), depth) == Done(v, State(suffix, budget))
  {
    var bytes := Encode(v, depth).value;
    match v
    case Unit => assert bytes + suffix == suffix;
    case Bool(_) => TakePrefix(bytes, suffix, budget);
    case Fixed(width, bits) => TakeNumberOfEncoding(bits, width, suffix, budget);
    case Char(scalar) => TakeCharOfEncoding(scalar, suffix, budget);
    case Str(scalars) =>
      TakeBytesOfEncoding(Utf8.Encode(scalars), suffix, budget);
      Utf8.DecodeOfEncode(scalars);
    case Bytes(content) => TakeBytesOfEncoding(content, suffix, budget);
    case Absent => TakePrefix(bytes, suffix, budget);
  }

  lemma {:induction false} LevelRoundTrip(defs: Definitions, ts: seq<Schema>, vs: seq<Value>, depth: nat,
                                          suffix: seq<Byte>, budget: nat)
    requires depth < DEPTH_LIMIT && HasTypes(defs, ts, vs) && EncodeAll(vs, depth + 1).Ok?
    ensures RoundTrips(DecodeLevel(defs, ts, State(EncodeAll(vs, depth + 1).value + suffix, budget), depth),
                       vs, FitAll(vs, |suffix|), CountsAll(vs), suffix, budget)
    decreases DEPTH_LIMIT - depth, 0, 0
  {
    AllRoundTrip(defs, ts, vs, [], depth + 1, suffix, budget);
    assert [] + vs == vs;
  }

  lemma {:induction false} AllRoundTrip(defs: Definitions, ts: seq<Schema>, vs: seq<Value>, read: seq<Value>,
                                        depth: nat, suffix: seq<Byte>, budget: nat)
    requires depth <= DEPTH_LIMIT && HasTypes(defs, ts, vs) && EncodeAll(vs, depth).Ok?
    ensures RoundTrips(DecodeAll(defs, ts, read, State(EncodeAll(vs, depth).value + suffix, budget), depth),
                       read + vs, FitAll(vs, |suffix|), CountsAll(vs), suffix, budget)
    decreases DEPTH_LIMIT - depth, 3 + |vs|
  {
    if vs == [] {
      assert EncodeAll(vs, depth).value + suffix == suffix && read + vs == read;
    } else {
      var head, tail := Encode(vs[0], depth).value, EncodeAll(vs[1..], depth).value;
      Glue(head, tail, suffix);
      EncodeAllHasSize(vs[1..], depth);
      RoundTrip(defs, ts[0], vs[0], depth, tail + suffix, budget);
      if Counts(vs[0]) <= budget {
        AllRoundTrip(defs, ts[1..], vs[1..], read + [vs[0]], depth, suffix, budget - Counts(vs[0]));
        assert read + [vs[0]] + vs[1..] == read + vs;
      }
    }
  }

  /**
    The encoding of a typed value, with anything behind it, decodes to the value and consumes exactly the encoding, if
    and only if no count claims more than the bytes left and all counts together stay within the budget; otherwise the
    error is the count error.
   */
  lemma {:induction false} RoundTrip(defs: Definitions, t: Schema, v: Value, depth: nat, suffix: seq<Byte>, budget: nat)
    requires depth <= DEPTH_LIMIT && HasType(defs, t, v) && Encode(v, depth).Ok?
    ensures RoundTrips(Decode(defs, t, State(Encode(v, depth).value + suffix, budget), depth),
                       v, Fits(v, |suffix|), Counts(v), suffix, budget)
    decreases DEPTH_LIMIT - depth, 2
  {
    match v
    case Present(inner) => WrappedRoundTrip(defs, t, v, depth, suffix, budget);
    case Newtype(inner) => WrappedRoundTrip(defs, t, v, depth, suffix, budget);
    case Seq(_, _) => SeqRoundTrip(defs, t, v, depth, suffix, budget);
    case Map(_, _) => MapRoundTrip(defs, t, v, depth, suffix, budget);
    case Tuple(fields) =>
      var ts := if t.TupleT? then t.fields else defs(t.name).fields;
      LevelRoundTrip(defs, ts, fields, depth, suffix, budget);
      assert Encode(v, depth).value == EncodeAll(fields, depth + 1).value;
    case Variant(index, fields) =>
      Pow256Values();
      var body := EncodeAll(fields, depth + 1).value;
      LevelRoundTrip(defs, defs(t.name).variants[index], fields, depth, suffix, budget);
      Glue(LittleEndian(index, U32_WIDTH), body, suffix);
      TakeNumberOfEncoding(index, U32_WIDTH, body + suffix, budget);
    case _ => LeafRoundTrip(defs, t, v, depth, suffix, budget);
  }

  lemma {:induction false} WrappedRoundTrip(defs: Definitions, t: Schema, v: Value, depth: nat, suffix: seq<Byte>,
                                            budget: nat)
    requires depth <= DEPTH_LIMIT && HasType(defs, t, v) && Encode(v, depth).Ok?
    requires v.Present? || v.Newtype?
    ensures RoundTrips(Decode(defs, t, State(Encode(v, depth).value + suffix, budget), depth),
                       v, Fits(v, |suffix|), Counts(v), suffix, budget)
    decreases DEPTH_LIMIT - depth, 1
  {
    var inner := if v.Present? then t.inner else defs(t.name).inner;
    var body := EncodeAll([v.inner], depth + 1).value;
    assert HasTypes(defs, [inner], [v.inner]);
    OnePart(v.inner, |suffix|);
    LevelRoundTrip(defs, [inner], [v.inner], depth, suffix, budget);
    if v.Present? {
      Glue([1], body, suffix);
      TakePrefix([1], body + suffix, budget);
    } else {
      assert Encode(v, depth).value == body;
    }
  }

  lemma {:induction false} SeqRoundTrip(defs: Definitions, t: Schema, v: Value, depth: nat, suffix: seq<Byte>,
                                        budget: nat)
    requires depth <= DEPTH_LIMIT && HasType(defs, t, v) && Encode(v, depth).Ok? && v.Seq?
    ensures RoundTrips(Decode(defs, t, State(Encode(v, depth).value + suffix, budget), depth),
                       v, Fits(v, |suffix|), Counts(v), suffix, budget)
    decreases DEPTH_LIMIT - depth, 1
  {
    CountedEncoding(v, depth);
    var parts, count := v.elements, v.declared.value;
    assert count == |v.elements|;
    Glue(LittleEndian(count, U64_WIDTH), EncodeAll(parts, depth + 1).value, suffix);
    CountedLevel(defs, Repeat(t.element, count), parts, count, depth, suffix, budget);
  }

  lemma {:induction false} MapRoundTrip(defs: Definitions, t: Schema, v: Value, depth: nat, suffix: seq<Byte>,
                                        budget: nat)
    requires depth <= DEPTH_LIMIT && HasType(defs, t, v) && Encode(v, depth).Ok? && v.Map?
    ensures RoundTrips(Decode(defs, t, State(Encode(v, depth).value + suffix, budget), depth),
                       v, Fits(v, |suffix|), Counts(v), suffix, budget)
    decreases DEPTH_LIMIT - depth, 1
  {
    CountedEncoding(v, depth);
    var parts, count := v.entries, v.declared.value;
    assert count == |v.entries| / 2;
    Glue(LittleEndian(count, U64_WIDTH), EncodeAll(parts, depth + 1).value, suffix);
    CountedLevel(defs, RepeatPair(t.key, t.value, count), parts, count, depth, suffix, budget);
  }

  lemma {:induction false} CountedLevel(defs: Definitions, ts: seq<Schema>, parts: seq<Value>, count: nat, depth: nat,
                                        suffix: seq<Byte>, budget: nat)
    requires depth < DEPTH_LIMIT && count < U64_LIMIT && HasTypes(defs, ts, parts) && EncodeAll(parts, depth + 1).Ok?
    ensures var rest := EncodeAll(parts, depth + 1).value + suffix;
            var out := TakeCount(State(LittleEndian(count, U64_WIDTH) + rest, budget));
            if count <= SizeAll(parts) + |suffix| && count <= budget then
              && out.Done? && out.value == count
              && RoundTrips(DecodeLevel(defs, ts, out.after, depth),
                            parts, FitAll(parts, |suffix|), CountsAll(parts), suffix, budget - count)
            else out.Fail? && out.error.CountExceedsInput?
    decreases DEPTH_LIMIT - depth, 0, 1
  {
    EncodeAllHasSize(parts, depth + 1);
    TakeCountOfEncoding(count, EncodeAll(parts, depth + 1).value + suffix, budget);
    if count <= budget {
      LevelRoundTrip(defs, ts, parts, depth, suffix, budget - count);
    }
  }
}
