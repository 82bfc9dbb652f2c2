/** Decoding then encoding: a decoded value has exactly one encoding, and it is the bytes that were read. */
module PayloadCanonical {
  import opened Wrappers
  import opened Bytes
  import opened PayloadFormat
  import opened PayloadRoundTrip
  import Utf8

  /** Going from `st` to `after` read exactly the encoding of `v`, a value of type `t`. */
  predicate Reads(defs: Definitions, t: Schema, v: Value, st: State, after: State, depth: nat)
    requires depth <= DEPTH_LIMIT
  {
    && HasType(defs, t, v)
    && Encode(v, depth).Ok?
    && st.input == Encode(v, depth).value + after.input
    && st.budget == after.budget + Counts(v)
    && Fits(v, |after.input|)
  }

  predicate ReadAll(defs: Definitions, ts: seq<Schema>, vs: seq<Value>, st: State, after: State, depth: nat)
    requires depth <= DEPTH_LIMIT
  {
    && HasTypes(defs, ts, vs)
    && EncodeAll(vs, depth).Ok?
    && st.input == EncodeAll(vs, depth).value + after.input
    && st.budget == after.budget + CountsAll(vs)
    && FitAll(vs, |after.input|)
  }

  lemma TakeSplits(st: State, n: nat)
    requires Take(st, n).Done?
    ensures var out := Take(st, n);
            st.input == out.value + out.after.input && |out.value| == n && out.after.budget == st.budget
  {
  }

  lemma TakeNumberCanonical(st: State, width: nat)
    requires TakeNumber(st, width).Done?
    ensures var out := TakeNumber(st, width);
            && out.value < Pow256(width) && out.after.budget == st.budget
            && st.input == LittleEndian(out.value, width) + out.after.input
  {
    TakeSplits(st, width);
    EncodeOfDecode(Take(st, width).value);
  }

  lemma TakeCountCanonical(st: State)
    requires TakeCount(st).Done?
    ensures var out := TakeCount(st);
            && out.value < U64_LIMIT && out.value <= |out.after.input| && st.budget == out.after.budget + out.value
            && st.input == LittleEndian(out.value, U64_WIDTH) + out.after.input
  {
    Pow256Values();
    TakeNumberCanonical(st, U64_WIDTH);
  }

  lemma TakeBytesCanonical(st: State)
    requires TakeBytes(st).Done?
    ensures var out := TakeBytes(st);
            && |out.value| < U64_LIMIT && out.after.budget == st.budget
            && st.input == LittleEndian(|out.value|, U64_WIDTH) + out.value + out.after.input
  {
    Pow256Values();
    TakeNumberCanonical(st, U64_WIDTH);
    var st1 := TakeNumber(st, U64_WIDTH).after;
    TakeSplits(st1, TakeNumber(st, U64_WIDTH).value);
    Glue(LittleEndian(TakeNumber(st, U64_WIDTH).value, U64_WIDTH), TakeBytes(st).value, TakeBytes(st).after.input);
  }

  /** A whole well-formed sequence is the encoding of the one scalar value it decodes to. */
  lemma OneScalar(bytes: seq<Byte>)
    requires bytes != [] && |bytes| == Utf8.LeadWidth(bytes[0]) && Utf8.Decode(bytes).Some?
    ensures var cs := Utf8.Decode(bytes).value; cs != [] && bytes == Utf8.EncodeScalar(cs[0])
  {
    var width := |bytes|;
    assert bytes[..width] == bytes && bytes[width..] == [];
    Utf8.ScalarCanonical(bytes);
  }

  lemma TakeCharCanonical(st: State)
    requires TakeChar(st).Done?
    ensures var out := TakeChar(st);
            st.input == Utf8.EncodeScalar(out.value) + out.after.input && out.after.budget == st.budget
  {
    TakeSplits(st, 1);
    var first, st1 := Take(st, 1).value, Take(st, 1).after;
    var width := Utf8.LeadWidth(first[0]);
    TakeSplits(st1, width - 1);
    var rest := Take(st1, width - 1);
    OneScalar(first + rest.value);
    Glue(first, rest.value, rest.after.input);
  }

  lemma CharIsTaken(defs: Definitions, t: Schema, st: State, depth: nat)
    requires depth <= DEPTH_LIMIT && Decode(defs, t, st, depth).Done? && Decode(defs, t, st, depth).value.Char?
    ensures t == CharT && TakeChar(st).Done?
    ensures Decode(defs, t, st, depth) == Done(Char(TakeChar(st).value), TakeChar(st).after)
  {
  }

  lemma CharReads(defs: Definitions, c: Utf8.Scalar, st: State, after: State, depth: nat)
    requires depth <= DEPTH_LIMIT && st.input == Utf8.EncodeScalar(c) + after.input && after.budget == st.budget
    ensures Reads(defs, CharT, Char(c), st, after, depth)
  {
  }

  lemma CharCanonical(defs: Definitions, t: Schema, st: State, depth: nat)
    requires depth <= DEPTH_LIMIT && Decode(defs, t, st, depth).Done? && Decode(defs, t, st, depth).value.Char?
    ensures var out := Decode(defs, t, st, depth); Reads(defs, t, out.value, st, out.after, depth)
  {
    CharIsTaken(defs, t, st, depth);
    TakeCharCanonical(st);
    CharReads(defs, TakeChar(st).value, st, TakeChar(st).after, depth);
  }

  lemma BytesCanonical(defs: Definitions, t: Schema, st: State, depth: nat)
    requires depth <= DEPTH_LIMIT && Decode(defs, t, st, depth).Done? && Decode(defs, t, st, depth).value.Bytes?
    ensures var out := Decode(defs, t, st, depth); Reads(defs, t, out.value, st, out.after, depth)
  {
    TakeBytesCanonical(st);
  }

  lemma FixedCanonical(defs: Definitions, t: Schema, st: State, depth: nat)
    requires depth <= DEPTH_LIMIT && Decode(defs, t, st, depth).Done? && Decode(defs, t, st, depth).value.Fixed?
    ensures var out := Decode(defs, t, st, depth); Reads(defs, t, out.value, st, out.after, depth)
  {
    TakeNumberCanonical(st, t.width);
  }

  lemma TagCanonical(defs: Definitions, t: Schema, st: State, depth: nat)
    requires depth <= DEPTH_LIMIT && Decode(defs, t, st, depth).Done?
    requires var v := Decode(defs, t, st, depth).value; v.Bool? || v.Absent?
    ensures var out := Decode(defs, t, st, depth); Reads(defs, t, out.value, st, out.after, depth)
  {
    TakeSplits(st, 1);
  }

  lemma LeafCanonical(defs: Definitions, t: Schema, st: State, depth: nat)
    requires depth <= DEPTH_LIMIT && Decode(defs, t, st, depth).Done?
    requires var v := Decode(defs, t, st, depth).value;
             v.Unit? || v.Bool? || v.Fixed? || v.Char? || v.Bytes? || v.Absent?
    ensures var out := Decode(defs, t, st, depth); Reads(defs, t, out.value, st, out.after, depth)
  {
    var out := Decode(defs, t, st, depth);
    if out.value.Char? {
      CharCanonical(defs, t, st, depth);
    } else if out.value.Bytes? {
      BytesCanonical(defs, t, st, depth);
    } else if out.value.Fixed? {
      FixedCanonical(defs, t, st, depth);
    } else if !out.value.Unit? {
      TagCanonical(defs, t, st, depth);
    }
  }

  lemma StrIsTaken(defs: Definitions, t: Schema, st: State, depth: nat)
    requires depth <= DEPTH_LIMIT && Decode(defs, t, st, depth).Done? && Decode(defs, t, st, depth).value.Str?
    ensures t == StrT && TakeBytes(st).Done? && Utf8.Decode(TakeBytes(st).value).Some?
    ensures Decode(defs, t, st, depth) == Done(Str(Utf8.Decode(TakeBytes(st).value).value), TakeBytes(st).after)
  {
  }

  lemma StrReads(defs: Definitions, cs: seq<Utf8.Scalar>, bytes: seq<Byte>, st: State, after: State, depth: nat)
    requires depth <= DEPTH_LIMIT && Utf8.Encode(cs) == bytes && |bytes| < U64_LIMIT && after.budget == st.budget
    requires st.input == LittleEndian(|bytes|, U64_WIDTH) + bytes + after.input
    ensures Reads(defs, StrT, Str(cs), st, after, depth)
  {
  }

  lemma StrCanonical(defs: Definitions, t: Schema, st: State, depth: nat)
    requires depth <= DEPTH_LIMIT && Decode(defs, t, st, depth).Done? && Decode(defs, t, st, depth).value.Str?
    ensures var out := Decode(defs, t, st, depth); Reads(defs, t, out.value, st, out.after, depth)
  {
    StrIsTaken(defs, t, st, depth);
    TakeBytesCanonical(st);
    var bytes := TakeBytes(st).value;
    Utf8.EncodeOfDecode(bytes);
    StrReads(defs, Utf8.Decode(bytes).value, bytes, st, TakeBytes(st).after, depth);
  }

  lemma {:induction false} LevelCanonical(defs: Definitions, ts: seq<Schema>, st: State, depth: nat)
    requires depth <= DEPTH_LIMIT && DecodeLevel(defs, ts, st, depth).Done?
    ensures depth < DEPTH_LIMIT
    ensures var out := DecodeLevel(defs, ts, st, depth); ReadAll(defs, ts, out.value, st, out.after, depth + 1)
    decreases DEPTH_LIMIT - depth, 0
  {
    AllCanonical(defs, ts, [], st, depth + 1);
    assert DecodeLevel(defs, ts, st, depth).value[0..] == DecodeLevel(defs, ts, st, depth).value;
  }

  lemma {:induction false} AllCanonical(defs: Definitions, ts: seq<Schema>, read: seq<Value>, st: State, depth: nat)
    requires depth <= DEPTH_LIMIT && DecodeAll(defs, ts, read, st, depth).Done?
    ensures var out := DecodeAll(defs, ts, read, st, depth);
            ReadAll(defs, ts, out.value[|read|..], st, out.after, depth)
    decreases DEPTH_LIMIT - depth, 3 + |ts|
  {
    var out := DecodeAll(defs, ts, read, st, depth);
    var vs := out.value[|read|..];
    if ts == [] {
      assert vs == [] && st.input == [] + out.after.input;
    } else {
      var first := Decode(defs, ts[0], st, depth);
      Canonical(defs, ts[0], st, depth);
      AllCanonical(defs, ts[1..], read + [first.value], first.after, depth);
      assert vs == [first.value] + out.value[|read| + 1..];
      ReadMore(defs, ts, first.value, out.value[|read| + 1..], st, first.after, out.after, depth);
    }
  }

  lemma ReadMore(defs: Definitions, ts: seq<Schema>, v: Value, vs: seq<Value>, st: State, mid: State, after: State,
                 depth: nat)
    requires depth <= DEPTH_LIMIT && ts != []
    requires Reads(defs, ts[0], v, st, mid, depth) && ReadAll(defs, ts[1..], vs, mid, after, depth)
    ensures ReadAll(defs, ts, [v] + vs, st, after, depth)
  {
    EncodeAllHasSize(vs, depth);
    assert ([v] + vs)[1..] == vs;
    Glue(Encode(v, depth).value, EncodeAll(vs, depth).value, after.input);
  }

  /** Whatever decodes was typed, fits, and is exactly the encoding of its value. */
  lemma {:induction false} Canonical(defs: Definitions, t: Schema, st: State, depth: nat)
    requires depth <= DEPTH_LIMIT && Decode(defs, t, st, depth).Done?
    ensures var out := Decode(defs, t, st, depth); Reads(defs, t, out.value, st, out.after, depth)
    decreases DEPTH_LIMIT - depth, 2
  {
    var out := Decode(defs, t, st, depth);
    match out.value
    case Present(inner) => PresentCanonical(defs, t, st, depth);
    case Newtype(inner) => NewtypeCanonical(defs, t, st, depth);
    case Seq(_, _) => SeqCanonical(defs, t, st, depth);
    case Map(_, _) => MapCanonical(defs, t, st, depth);
    case Tuple(fields) =>
      var ts := if t.TupleT? then t.fields else defs(t.name).fields;
      LevelCanonical(defs, ts, st, depth);
    case Variant(index, fields) => VariantCanonical(defs, t, st, depth);
    case Str(_) => StrCanonical(defs, t, st, depth);
    case _ => LeafCanonical(defs, t, st, depth);
  }

  lemma {:induction false} VariantCanonical(defs: Definitions, t: Schema, st: State, depth: nat)
    requires depth <= DEPTH_LIMIT && Decode(defs, t, st, depth).Done? && Decode(defs, t, st, depth).value.Variant?
    ensures var out := Decode(defs, t, st, depth); Reads(defs, t, out.value, st, out.after, depth)
    decreases DEPTH_LIMIT - depth, 1
  {
    var out := Decode(defs, t, st, depth);
    TakeNumberCanonical(st, U32_WIDTH);
    var st1 := TakeNumber(st, U32_WIDTH).after;
    LevelCanonical(defs, defs(t.name).variants[out.value.index], st1, depth);
    Glue(LittleEndian(out.value.index, U32_WIDTH), EncodeAll(out.value.fields, depth + 1).value, out.after.input);
  }

  /** The one part of an option or a newtype, read at its level. */
  lemma PartRead(defs: Definitions, inner: Schema, vs: seq<Value>, st: State, after: State, depth: nat)
    requires depth <= DEPTH_LIMIT && ReadAll(defs, [inner], vs, st, after, depth)
    ensures |vs| == 1 && vs == [vs[0]] && HasType(defs, inner, vs[0])
    ensures st.budget == after.budget + Counts(vs[0]) && Fits(vs[0], |after.input|)
  {
    OnePart(vs[0], |after.input|);
    assert vs == [vs[0]];
  }

  lemma {:induction false} PresentCanonical(defs: Definitions, t: Schema, st: State, depth: nat)
    requires depth <= DEPTH_LIMIT && Decode(defs, t, st, depth).Done? && Decode(defs, t, st, depth).value.Present?
    ensures var out := Decode(defs, t, st, depth); Reads(defs, t, out.value, st, out.after, depth)
    decreases DEPTH_LIMIT - depth, 1
  {
    TakeSplits(st, 1);
    var st1 := Take(st, 1).after;
    LevelCanonical(defs, [t.inner], st1, depth);
    var out := DecodeLevel(defs, [t.inner], st1, depth);
    PartRead(defs, t.inner, out.value, st1, out.after, depth + 1);
    Glue([1], EncodeAll(out.value, depth + 1).value, out.after.input);
  }

  lemma {:induction false} NewtypeCanonical(defs: Definitions, t: Schema, st: State, depth: nat)
    requires depth <= DEPTH_LIMIT && Decode(defs, t, st, depth).Done? && Decode(defs, t, st, depth).value.Newtype?
    ensures var out := Decode(defs, t, st, depth); Reads(defs, t, out.value, st, out.after, depth)
    decreases DEPTH_LIMIT - depth, 1
  {
    var inner := defs(t.name).inner;
    LevelCanonical(defs, [inner], st, depth);
    var out := DecodeLevel(defs, [inner], st, depth);
    PartRead(defs, inner, out.value, st, out.after, depth + 1);
    Glue([], EncodeAll(out.value, depth + 1).value, out.after.input);
  }

  lemma {:induction false} SeqCanonical(defs: Definitions, t: Schema, st: State, depth: nat)
    requires depth <= DEPTH_LIMIT && Decode(defs, t, st, depth).Done? && Decode(defs, t, st, depth).value.Seq?
    ensures var out := Decode(defs, t, st, depth); Reads(defs, t, out.value, st, out.after, depth)
    decreases DEPTH_LIMIT - depth, 1
  {
    var out := Decode(defs, t, st, depth);
    var count, st1 := TakeCount(st).value, TakeCount(st).after;
    LevelCanonical(defs, Repeat(t.element, count), st1, depth);
    assert DecodeLevel(defs, Repeat(t.element, count), st1, depth) == Done(out.value.elements, out.after);
    CountedCanonical(defs, Repeat(t.element, count), out.value, count, st, out.after, depth);
  }

  lemma MapIsTaken(defs: Definitions, t: Schema, st: State, depth: nat)
    requires depth <= DEPTH_LIMIT && Decode(defs, t, st, depth).Done? && Decode(defs, t, st, depth).value.Map?
    ensures t.MapT? && TakeCount(st).Done?
    ensures var count, st1 := TakeCount(st).value, TakeCount(st).after;
            var out := DecodeLevel(defs, RepeatPair(t.key, t.value, count), st1, depth);
            out.Done? && Decode(defs, t, st, depth) == Done(Map(Some(count), out.value), out.after)
  {
  }

  lemma {:induction false} MapCanonical(defs: Definitions, t: Schema, st: State, depth: nat)
    requires depth <= DEPTH_LIMIT && Decode(defs, t, st, depth).Done? && Decode(defs, t, st, depth).value.Map?
    ensures var out := Decode(defs, t, st, depth); Reads(defs, t, out.value, st, out.after, depth)
    decreases DEPTH_LIMIT - depth, 1
  {
    MapIsTaken(defs, t, st, depth);
    var count, st1 := TakeCount(st).value, TakeCount(st).after;
    var ts := RepeatPair(t.key, t.value, count);
    LevelCanonical(defs, ts, st1, depth);
    var out := DecodeLevel(defs, ts, st1, depth);
    MapReads(defs, t, count, out.value, st, out.after, depth);
  }

  lemma MapReads(defs: Definitions, t: Schema, count: nat, vs: seq<Value>, st: State, after: State, depth: nat)
    requires depth < DEPTH_LIMIT && t.MapT? && TakeCount(st).Done? && TakeCount(st).value == count
    requires |vs| == 2 * count
    requires ReadAll(defs, RepeatPair(t.key, t.value, count), vs, TakeCount(st).after, after, depth + 1)
    ensures Reads(defs, t, Map(Some(count), vs), st, after, depth)
  {
    TakeCountCanonical(st);
    CountedCanonical(defs, RepeatPair(t.key, t.value, count), Map(Some(count), vs), count, st, after, depth);
  }

  lemma CountedCanonical(defs: Definitions, ts: seq<Schema>, v: Value, count: nat, st: State, after: State, depth: nat)
    requires depth < DEPTH_LIMIT && (v.Seq? || v.Map?)
    requires v.declared == Some(count) && count == (if v.Seq? then |v.elements| else (|v.entries| + 1) / 2)
    requires TakeCount(st).Done? && TakeCount(st).value == count
    requires ReadAll(defs, ts, Parts(v), TakeCount(st).after, after, depth + 1)
    ensures Encode(v, depth).Ok? && st.input == Encode(v, depth).value + after.input
    ensures count <= SizeAll(Parts(v)) + |after.input|
  {
    var header, body := LittleEndian(count, U64_WIDTH), EncodeAll(Parts(v), depth + 1).value;
    TakeCountCanonical(st);
    EncodeAllHasSize(Parts(v), depth + 1);
    assert EncodeLevel(header, Parts(v), depth) == Ok(header + body);
    Glue(header, body, after.input);
  }
}
