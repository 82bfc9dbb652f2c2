/**
  The legacy payload format: the types a payload can have, the values of those types, and the format as two
  functions, `Encode` and `Decode`. The encoder and decoder classes are proved against these two functions.
 */
module PayloadFormat {
  import opened Wrappers
  import opened Bytes
  import Utf8

  /** A value may nest this many levels. */
  const DEPTH_LIMIT := 128

  /** The widths of a length prefix and of a variant index, in bytes. */
  const U64_WIDTH: nat := 8
  const U32_WIDTH: nat := 4

  const U64_LIMIT: nat := 0x1_0000_0000_0000_0000

  type U32 = n: int | 0 <= n < 0x1_0000_0000

  // ---------------------------------------------------------------------------
  // Types
  // ---------------------------------------------------------------------------

  /** A payload type without a name of its own, or a reference to one with a name. */
  datatype Schema =
    | UnitT
    | BoolT
    | FixedT(width: nat)  // every integer and float, as its bits
    | CharT
    | StrT
    | BytesT
    | OptionT(inner: Schema)
    | SeqT(element: Schema)
    | MapT(key: Schema, value: Schema)
    | TupleT(fields: seq<Schema>)
    | NamedT(name: string)

  /** A named type. Only these can be recursive. */
  datatype Nominal =
    | UnitStruct
    | NewtypeStruct(inner: Schema)
    | Struct(fields: seq<Schema>)
    | Enum(variants: seq<seq<Schema>>)

  type Definitions = string -> Nominal

  // ---------------------------------------------------------------------------
  // Values
  // ---------------------------------------------------------------------------

  /**
    A value as it presents itself to the serializer. A sequence or map declares a length before its elements; the
    entries of a map alternate key, value.
   */
  datatype Value =
    | Unit
    | Bool(truth: bool)
    | Fixed(width: nat, bits: nat)
    | Char(scalar: Utf8.Scalar)
    | Str(scalars: seq<Utf8.Scalar>)
    | Bytes(content: seq<Byte>)
    | Absent
    | Present(inner: Value)
    | Newtype(inner: Value)
    | Seq(declared: Option<nat>, elements: seq<Value>)
    | Map(declared: Option<nat>, entries: seq<Value>)
    | Tuple(fields: seq<Value>)
    | Variant(index: U32, fields: seq<Value>)

  /** The values directly inside `v`. */
  function Parts(v: Value): (vs: seq<Value>) {
    match v
    case Present(inner) => [inner]
    case Newtype(inner) => [inner]
    case Seq(_, elements) => elements
    case Map(_, entries) => entries
    case Tuple(fields) => fields
    case Variant(_, fields) => fields
    case _ => []
  }

  function Repeat(t: Schema, count: nat): (fields: seq<Schema>)
    ensures |fields| == count
  {
    seq(count, _ => t)
  }

  function RepeatPair(key: Schema, value: Schema, count: nat): (fields: seq<Schema>)
    ensures |fields| == 2 * count
  {
    seq(2 * count, i => if i % 2 == 0 then key else value)
  }

  /** `v` is a value of type `t`. */
  predicate HasType(defs: Definitions, t: Schema, v: Value)
    decreases v, 0
  {
    match t
    case UnitT => v.Unit?
    case BoolT => v.Bool?
    case FixedT(width) => v.Fixed? && v.width == width && v.bits < Pow256(width)
    case CharT => v.Char?
    case StrT => v.Str?
    case BytesT => v.Bytes?
    case OptionT(inner) => v.Absent? || (v.Present? && HasType(defs, inner, v.inner))
    case SeqT(element) => v.Seq? && HasTypes(defs, Repeat(element, |v.elements|), v.elements)
    case MapT(key, value) =>
      v.Map? && |v.entries| % 2 == 0 && HasTypes(defs, RepeatPair(key, value, |v.entries| / 2), v.entries)
    case TupleT(fields) => v.Tuple? && HasTypes(defs, fields, v.fields)
    case NamedT(name) =>
      match defs(name)
      case UnitStruct => v.Unit?
      case NewtypeStruct(inner) => v.Newtype? && HasType(defs, inner, v.inner)
      case Struct(fields) => v.Tuple? && HasTypes(defs, fields, v.fields)
      case Enum(variants) => v.Variant? && v.index < |variants| && HasTypes(defs, variants[v.index], v.fields)
  }

  predicate HasTypes(defs: Definitions, ts: seq<Schema>, vs: seq<Value>)
    decreases vs, 1
  {
    |ts| == |vs| && (vs != [] ==> HasType(defs, ts[0], vs[0]) && HasTypes(defs, ts[1..], vs[1..]))
  }

  // ---------------------------------------------------------------------------
  // Errors
  // ---------------------------------------------------------------------------

  datatype Error =
    | UnexpectedEnd(needed: nat, remaining: nat)
    | CountExceedsInput(claimed: nat, left: nat)
    | InvalidBool(byte: Byte)
    | InvalidOptionTag(tag: Byte)
    | InvalidChar
    | InvalidUtf8
    | TooDeep
    | UnknownVariant(index: nat)
    | UnknownLength
    | LengthMismatch(declared: nat, written: nat)
    | LengthTooLarge

  // ---------------------------------------------------------------------------
  // Encoding
  // ---------------------------------------------------------------------------

  /** The bytes of `v` when `depth` levels are already open. */
  function Encode(v: Value, depth: nat): (r: Result<seq<Byte>, Error>)
    requires depth <= DEPTH_LIMIT
    decreases DEPTH_LIMIT - depth, 2
  {
    match v
    case Unit => Ok([])
    case Bool(truth) => Ok([if truth then 1 else 0])
    case Fixed(width, bits) => Ok(LittleEndian(bits, width))
    case Char(scalar) => Ok(Utf8.EncodeScalar(scalar))
    case Str(scalars) => EncodeBytes(Utf8.Encode(scalars))
    case Bytes(content) => EncodeBytes(content)
    case Absent => Ok([0])
    case Present(inner) => EncodeLevel([1], [inner], depth)
    case Newtype(inner) => EncodeLevel([], [inner], depth)
    case Seq(declared, elements) => EncodeCounted(declared, |elements|, elements, depth)
    case Map(declared, entries) => EncodeCounted(declared, (|entries| + 1) / 2, entries, depth)
    case Tuple(fields) => EncodeLevel([], fields, depth)
    case Variant(index, fields) => EncodeLevel(LittleEndian(index, U32_WIDTH), fields, depth)
  }

  function EncodeBytes(content: seq<Byte>): (r: Result<seq<Byte>, Error>) {
    if |content| >= U64_LIMIT then Err(LengthTooLarge)
    else Ok(LittleEndian(|content|, U64_WIDTH) + content)
  }

  /** One level: `header`, then the parts one level deeper. */
  function EncodeLevel(header: seq<Byte>, parts: seq<Value>, depth: nat): (r: Result<seq<Byte>, Error>)
    requires depth <= DEPTH_LIMIT
    decreases DEPTH_LIMIT - depth, 0
  {
    if depth >= DEPTH_LIMIT then Err(TooDeep)
    else
      var body :- EncodeAll(parts, depth + 1);
      Ok(header + body)
  }

  /** A sequence or map that writes `written` elements or entries. */
  function EncodeCounted(declared: Option<nat>, written: nat, parts: seq<Value>, depth: nat):
    (r: Result<seq<Byte>, Error>)
    requires depth <= DEPTH_LIMIT
    decreases DEPTH_LIMIT - depth, 1
  {
    if declared.None? then Err(UnknownLength)
    else if depth >= DEPTH_LIMIT then Err(TooDeep)
    else if declared.value >= U64_LIMIT then Err(LengthTooLarge)
    else
      var bytes :- EncodeLevel(LittleEndian(declared.value, U64_WIDTH), parts, depth);
      if declared.value != written then Err(LengthMismatch(declared.value, written)) else Ok(bytes)
  }

  function EncodeAll(vs: seq<Value>, depth: nat): (r: Result<seq<Byte>, Error>)
    requires depth <= DEPTH_LIMIT
    decreases DEPTH_LIMIT - depth, 3 + |vs|
  {
    if vs == [] then Ok([])
    else
      var head :- Encode(vs[0], depth);
      var tail :- EncodeAll(vs[1..], depth);
      Ok(head + tail)
  }

  // ---------------------------------------------------------------------------
  // Decoding
  // ---------------------------------------------------------------------------

  /** The bytes not yet read, and how many more elements this decode may claim. */
  datatype State = State(input: seq<Byte>, budget: nat)

  datatype Outcome<+T> = Done(value: T, after: State) | Fail(error: Error) {
    predicate IsFailure() {
      Fail?
    }

    function PropagateFailure<U>(): Outcome<U>
      requires Fail?
    {
      Fail(error)
    }

    function Extract(): (T, State)
      requires Done?
    {
      (value, after)
    }
  }

  function Take(st: State, n: nat): (r: Outcome<seq<Byte>>) {
    if n <= |st.input| then Done(st.input[..n], st.(input := st.input[n..]))
    else Fail(UnexpectedEnd(n, |st.input|))
  }

  /** A little-endian number of `width` bytes. */
  function TakeNumber(st: State, width: nat): (r: Outcome<nat>) {
    var (bytes, st1) :- Take(st, width);
    Done(FromLittleEndian(bytes), st1)
  }

  /** How many elements a container announces: no more than bytes are left, and no more than the budget. */
  function TakeCount(st: State): (r: Outcome<nat>) {
    var (claimed, st1) :- TakeNumber(st, U64_WIDTH);
    if claimed > |st1.input| then Fail(CountExceedsInput(claimed, |st1.input|))
    else if claimed > st1.budget then Fail(CountExceedsInput(claimed, st1.budget))
    else Done(claimed, st1.(budget := st1.budget - claimed))
  }

  /** A length-prefixed run of bytes. */
  function TakeBytes(st: State): (r: Outcome<seq<Byte>>) {
    var (length, st1) :- TakeNumber(st, U64_WIDTH);
    Take(st1, length)
  }

  function TakeStr(st: State): (r: Outcome<seq<Utf8.Scalar>>) {
    var (bytes, st1) :- TakeBytes(st);
    match Utf8.Decode(bytes)
    case None => Fail(InvalidUtf8)
    case Some(scalars) => Done(scalars, st1)
  }

  function TakeChar(st: State): (r: Outcome<Utf8.Scalar>) {
    var (first, st1) :- Take(st, 1);
    var width := Utf8.LeadWidth(first[0]);
    if width == 0 then Fail(InvalidChar)
    else
      var (rest, st2) :- Take(st1, width - 1);
      match Utf8.Decode(first + rest)
      case Some(scalars) => if scalars == [] then Fail(InvalidChar) else Done(scalars[0], st2)
      case None => Fail(InvalidChar)
  }

  /** Decode a value of type `t` when `depth` levels are already open. */
  function Decode(defs: Definitions, t: Schema, st: State, depth: nat): (r: Outcome<Value>)
    requires depth <= DEPTH_LIMIT
    decreases DEPTH_LIMIT - depth, 2
  {
    match t
    case UnitT => Done(Unit, st)
    case BoolT =>
      var (byte, st1) :- Take(st, 1);
      if byte[0] <= 1 then Done(Bool(byte[0] == 1), st1) else Fail(InvalidBool(byte[0]))
    case FixedT(width) =>
      var (bits, st1) :- TakeNumber(st, width);
      Done(Fixed(width, bits), st1)
    case CharT =>
      var (scalar, st1) :- TakeChar(st);
      Done(Char(scalar), st1)
    case StrT =>
      var (scalars, st1) :- TakeStr(st);
      Done(Str(scalars), st1)
    case BytesT =>
      var (content, st1) :- TakeBytes(st);
      Done(Bytes(content), st1)
    case OptionT(inner) =>
      var (tag, st1) :- Take(st, 1);
      if tag[0] == 0 then Done(Absent, st1)
      else if tag[0] > 1 then Fail(InvalidOptionTag(tag[0]))
      else
        var (vs, st2) :- DecodeLevel(defs, [inner], st1, depth);
        Done(Present(vs[0]), st2)
    case SeqT(element) =>
      var (count, st1) :- TakeCount(st);
      var (vs, st2) :- DecodeLevel(defs, Repeat(element, count), st1, depth);
      Done(Seq(Some(count), vs), st2)
    case MapT(key, value) =>
      var (count, st1) :- TakeCount(st);
      var (vs, st2) :- DecodeLevel(defs, RepeatPair(key, value, count), st1, depth);
      Done(Map(Some(count), vs), st2)
    case TupleT(fields) =>
      var (vs, st1) :- DecodeLevel(defs, fields, st, depth);
      Done(Tuple(vs), st1)
    case NamedT(name) => DecodeNominal(defs, defs(name), st, depth)
  }

  /** A named type: a struct costs a level, and an enum costs one whatever its variant holds. */
  function DecodeNominal(defs: Definitions, t: Nominal, st: State, depth: nat): (r: Outcome<Value>)
    requires depth <= DEPTH_LIMIT
    decreases DEPTH_LIMIT - depth, 1
  {
    match t
    case UnitStruct => Done(Unit, st)
    case NewtypeStruct(inner) =>
      var (vs, st1) :- DecodeLevel(defs, [inner], st, depth);
      Done(Newtype(vs[0]), st1)
    case Struct(fields) =>
      var (vs, st1) :- DecodeLevel(defs, fields, st, depth);
      Done(Tuple(vs), st1)
    case Enum(variants) =>
      if depth >= DEPTH_LIMIT then Fail(TooDeep)
      else
        var (index, st1) :- TakeNumber(st, U32_WIDTH);
        if index >= |variants| then Fail(UnknownVariant(index))
        else
          var (vs, st2) :- DecodeLevel(defs, variants[index], st1, depth);
          IndexFits(st);
          Done(Variant(index, vs), st2)
  }

  lemma IndexFits(st: State)
    ensures TakeNumber(st, U32_WIDTH).Done? ==> TakeNumber(st, U32_WIDTH).value < 0x1_0000_0000
  {
    assert Pow256(4) == 0x1_0000_0000 by {
      assert Pow256(2) == 0x1_0000;
    }
  }

  /** Decode `ts` one level deeper. */
  function DecodeLevel(defs: Definitions, ts: seq<Schema>, st: State, depth: nat): (r: Outcome<seq<Value>>)
    requires depth <= DEPTH_LIMIT
    ensures r.Done? ==> |r.value| == |ts|
    decreases DEPTH_LIMIT - depth, 0
  {
    if depth >= DEPTH_LIMIT then Fail(TooDeep) else DecodeAll(defs, ts, [], st, depth + 1)
  }

  /** Decode `ts` in order, after the values `read` already decoded. */
  function DecodeAll(defs: Definitions, ts: seq<Schema>, read: seq<Value>, st: State, depth: nat):
    (r: Outcome<seq<Value>>)
    requires depth <= DEPTH_LIMIT
    ensures r.Done? ==> |r.value| == |read| + |ts| && read <= r.value
    decreases DEPTH_LIMIT - depth, 3 + |ts|
  {
    if ts == [] then Done(read, st)
    else
      var (v, st1) :- Decode(defs, ts[0], st, depth);
      DecodeAll(defs, ts[1..], read + [v], st1, depth)
  }
}
