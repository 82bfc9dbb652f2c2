/** The decoder: a cursor over untrusted bytes, proved to compute `Decode` and to do bounded work on every input. */
module PayloadDecoder {
  import opened Wrappers
  import opened Bytes
  import opened PayloadFormat
  import PayloadTheorems
  import Utf8

  /** The entries of a map, one key and one value at a time. */
  function EntryFirst(defs: Definitions, key: Schema, value: Schema, remaining: nat, read: seq<Value>, st: State,
                      depth: nat):
    (r: Outcome<seq<Value>>)
    requires depth <= DEPTH_LIMIT && remaining > 0
  {
    var (k, st1) :- Decode(defs, key, st, depth);
    var (v, st2) :- Decode(defs, value, st1, depth);
    DecodeAll(defs, RepeatPair(key, value, remaining - 1), read + [k] + [v], st2, depth)
  }

  lemma NextEntry(defs: Definitions, key: Schema, value: Schema, remaining: nat, read: seq<Value>, st: State,
                  depth: nat)
    requires depth <= DEPTH_LIMIT && remaining > 0
    ensures DecodeAll(defs, RepeatPair(key, value, remaining), read, st, depth)
         == EntryFirst(defs, key, value, remaining, read, st, depth)
  {
    var ts := RepeatPair(key, value, remaining);
    assert ts[1..][1..] == RepeatPair(key, value, remaining - 1) && ts[0] == key && ts[1..][0] == value;
  }

  class Decoder {
    const defs: Definitions
    /** The bytes not yet read. */
    var input: seq<Byte>
    var depth: nat
    /** What is left of the allowance of elements for all sequences and maps together. */
    var budget: nat
    /** The elements of sequences and maps started so far, and the bytes copied into strings and buffers so far. */
    ghost var started: nat
    ghost var copied: nat
    /** The deepest level reached so far. */
    ghost var deepest: nat

    constructor (defs: Definitions, input: seq<Byte>)
      ensures this.defs == defs && Now() == State(input, |input|) && depth == started == copied == deepest == 0
    {
      this.defs := defs;
      this.input := input;
      depth := 0;
      budget := |input|;
      started, copied, deepest := 0, 0, 0;
    }

    ghost function Now(): State
      reads this
    {
      State(input, budget)
    }

    /** The call returned what `spec` says, left the level as it was, and worked no more than it consumed. */
    twostate predicate Follows<T(!new)>(new r: Result<T, Error>, new spec: Outcome<T>)
      reads this
    {
      Runs(r, spec, 0)
    }

    /** The same, for a call that decodes `claimed` elements already claimed from the budget. */
    twostate predicate Runs<T(!new)>(new r: Result<T, Error>, new spec: Outcome<T>, claimed: nat)
      reads this
    {
      && (match spec
          case Done(value, after) => r == Ok(value) && Now() == after
          case Fail(error) => r == Err(error))
      && depth == old(depth)
      && WorkWithin(claimed)
    }

    twostate predicate WorkWithin(claimed: nat)
      reads this
    {
      && |input| <= |old(input)| && budget <= old(budget)
      && started <= old(started) + claimed + (old(budget) - budget)
      && copied <= old(copied) + (|old(input)| - |input|)
      && (old(deepest) <= DEPTH_LIMIT ==> deepest <= DEPTH_LIMIT)
    }

    method Take(n: nat) returns (r: Result<seq<Byte>, Error>)
      modifies this
      ensures Follows(r, PayloadFormat.Take(old(Now()), n))
      ensures started == old(started) && copied == old(copied)
    {
      if n > |input| {
        return Err(UnexpectedEnd(n, |input|));
      }
      var head := input[..n];
      input := input[n..];
      return Ok(head);
    }

    method Number(width: nat) returns (r: Result<nat, Error>)
      modifies this
      ensures Follows(r, TakeNumber(old(Now()), width))
      ensures started == old(started) && copied == old(copied)
    {
      var bytes :- Take(width);
      return Ok(FromLittleEndian(bytes));
    }

    /** How many elements a container announces, paid from the budget before the first of them. */
    method Count() returns (r: Result<nat, Error>)
      modifies this
      ensures Follows(r, TakeCount(old(Now())))
      ensures started == old(started)
      ensures r.Ok? ==> budget + r.value == old(budget)
    {
      var claimed :- Number(U64_WIDTH);
      if claimed > |input| {
        return Err(CountExceedsInput(claimed, |input|));
      }
      if claimed > budget {
        return Err(CountExceedsInput(claimed, budget));
      }
      budget := budget - claimed;
      return Ok(claimed);
    }

    method ByteBuf() returns (r: Result<seq<Byte>, Error>)
      modifies this
      ensures Follows(r, TakeBytes(old(Now())))
    {
      var length :- Number(U64_WIDTH);
      var bytes :- Take(length);
      copied := copied + |bytes|;
      return Ok(bytes);
    }

    method String() returns (r: Result<seq<Utf8.Scalar>, Error>)
      modifies this
      ensures Follows(r, TakeStr(old(Now())))
    {
      var length :- Number(U64_WIDTH);
      var bytes :- Take(length);
      var scalars := Utf8.Decode(bytes);
      if scalars.None? {
        return Err(InvalidUtf8);
      }
      copied := copied + |bytes|;
      return Ok(scalars.value);
    }

    method Char() returns (r: Result<Utf8.Scalar, Error>)
      modifies this
      ensures Follows(r, TakeChar(old(Now())))
    {
      var first :- Take(1);
      var width := Utf8.LeadWidth(first[0]);
      if width == 0 {
        return Err(InvalidChar);
      }
      var rest :- Take(width - 1);
      match Utf8.Decode(first + rest) {
        case None => return Err(InvalidChar);
        case Some(scalars) =>
          if scalars == [] {
            return Err(InvalidChar);
          }
          return Ok(scalars[0]);
      }
    }

    /** Decode a value of type `t` from the cursor. */
    method Deserialize(t: Schema) returns (r: Result<Value, Error>)
      requires depth <= DEPTH_LIMIT
      modifies this
      ensures Follows(r, Decode(defs, t, old(Now()), old(depth)))
      decreases DEPTH_LIMIT - depth, 2
    {
      match t {
        case UnitT => return Ok(Unit);
        case BoolT => r := DeserializeBool();
        case FixedT(width) =>
          var bits :- Number(width);
          return Ok(Fixed(width, bits));
        case CharT =>
          var scalar :- Char();
          return Ok(Value.Char(scalar));
        case StrT =>
          var scalars :- String();
          return Ok(Str(scalars));
        case BytesT =>
          var content :- ByteBuf();
          return Ok(Bytes(content));
        case OptionT(inner) => r := DeserializeOption(inner);
        case SeqT(element) => r := DeserializeSeq(element);
        case MapT(key, value) => r := DeserializeMap(key, value);
        case TupleT(fields) =>
          var vs :- Nested(fields);
          return Ok(Tuple(vs));
        case NamedT(name) => r := DeserializeNominal(defs(name));
      }
    }

    method DeserializeBool() returns (r: Result<Value, Error>)
      requires depth <= DEPTH_LIMIT
      modifies this
      ensures Follows(r, Decode(defs, BoolT, old(Now()), old(depth)))
    {
      var byte :- Take(1);
      if byte[0] == 0 {
        return Ok(Bool(false));
      } else if byte[0] == 1 {
        return Ok(Bool(true));
      }
      return Err(InvalidBool(byte[0]));
    }

    method DeserializeOption(inner: Schema) returns (r: Result<Value, Error>)
      requires depth <= DEPTH_LIMIT
      modifies this
      ensures Follows(r, Decode(defs, OptionT(inner), old(Now()), old(depth)))
      decreases DEPTH_LIMIT - depth, 1
    {
      var tag :- Take(1);
      if tag[0] == 0 {
        return Ok(Absent);
      } else if tag[0] == 1 {
        var vs :- Nested([inner]);
        return Ok(Present(vs[0]));
      }
      return Err(InvalidOptionTag(tag[0]));
    }

    method DeserializeNominal(t: Nominal) returns (r: Result<Value, Error>)
      requires depth <= DEPTH_LIMIT
      modifies this
      ensures Follows(r, DecodeNominal(defs, t, old(Now()), old(depth)))
      decreases DEPTH_LIMIT - depth, 1
    {
      match t {
        case UnitStruct => return Ok(Unit);
        case NewtypeStruct(inner) =>
          var vs :- Nested([inner]);
          return Ok(Newtype(vs[0]));
        case Struct(fields) =>
          var vs :- Nested(fields);
          return Ok(Tuple(vs));
        case Enum(variants) => r := DeserializeEnum(variants);
      }
    }

    /** The variant index, then the variant's fields, all one level deeper. */
    method DeserializeEnum(variants: seq<seq<Schema>>) returns (r: Result<Value, Error>)
      requires depth <= DEPTH_LIMIT
      modifies this
      ensures Follows(r, DecodeNominal(defs, Enum(variants), old(Now()), old(depth)))
      decreases DEPTH_LIMIT - depth, 0
    {
      if depth >= DEPTH_LIMIT {
        return Err(TooDeep);
      }
      depth := depth + 1;
      deepest := if depth > deepest then depth else deepest;
      var index := Number(U32_WIDTH);
      if index.Ok? {
        if index.value < |variants| {
          IndexFits(old(Now()));
          var vs := Fields(variants[index.value]);
          r := if vs.Ok? then Ok(Variant(index.value, vs.value)) else Err(vs.error);
        } else {
          r := Err(UnknownVariant(index.value));
        }
      } else {
        r := Err(index.error);
      }
      depth := depth - 1;
    }

    /** The fields of a tuple, struct or wrapper, one level deeper. */
    method Nested(ts: seq<Schema>) returns (r: Result<seq<Value>, Error>)
      requires depth <= DEPTH_LIMIT
      modifies this
      ensures Follows(r, DecodeLevel(defs, ts, old(Now()), old(depth)))
      decreases DEPTH_LIMIT - depth, 0
    {
      if depth >= DEPTH_LIMIT {
        return Err(TooDeep);
      }
      depth := depth + 1;
      deepest := if depth > deepest then depth else deepest;
      r := Fields(ts);
      depth := depth - 1;
    }

    /** Exactly the values of `ts`, in order. */
    method Fields(ts: seq<Schema>) returns (r: Result<seq<Value>, Error>)
      requires depth <= DEPTH_LIMIT
      modifies this
      ensures Follows(r, DecodeAll(defs, ts, [], old(Now()), old(depth)))
      decreases DEPTH_LIMIT - depth, 3
    {
      var vs := [];
      var i := 0;
      while i < |ts|
        invariant 0 <= i <= |ts|
        invariant depth == old(depth) && WorkWithin(0)
        invariant DecodeAll(defs, ts[i..], vs, Now(), depth) == DecodeAll(defs, ts, [], old(Now()), depth)
      {
        assert ts[i..][1..] == ts[i + 1..];
        var v :- Deserialize(ts[i]);
        vs := vs + [v];
        i := i + 1;
      }
      return Ok(vs);
    }

    method DeserializeSeq(element: Schema) returns (r: Result<Value, Error>)
      requires depth <= DEPTH_LIMIT
      modifies this
      ensures Follows(r, Decode(defs, SeqT(element), old(Now()), old(depth)))
      decreases DEPTH_LIMIT - depth, 1
    {
      var count :- Count();
      if depth >= DEPTH_LIMIT {
        return Err(TooDeep);
      }
      depth := depth + 1;
      deepest := if depth > deepest then depth else deepest;
      var vs := Elements(element, count);
      depth := depth - 1;
      r := if vs.Ok? then Ok(Seq(Some(count), vs.value)) else Err(vs.error);
    }

    /** Exactly `count` elements of a sequence. */
    method Elements(element: Schema, count: nat) returns (r: Result<seq<Value>, Error>)
      requires depth <= DEPTH_LIMIT
      modifies this
      ensures Runs(r, DecodeAll(defs, Repeat(element, count), [], old(Now()), old(depth)), count)
      decreases DEPTH_LIMIT - depth, 3
    {
      var vs := [];
      var remaining := count;
      while remaining > 0
        invariant 0 <= remaining <= count && depth == old(depth) && WorkWithin(count - remaining)
        invariant DecodeAll(defs, Repeat(element, remaining), vs, Now(), depth)
               == DecodeAll(defs, Repeat(element, count), [], old(Now()), depth)
      {
        assert Repeat(element, remaining)[1..] == Repeat(element, remaining - 1);
        remaining := remaining - 1;
        started := started + 1;
        var v :- Deserialize(element);
        vs := vs + [v];
      }
      return Ok(vs);
    }

    method DeserializeMap(key: Schema, value: Schema) returns (r: Result<Value, Error>)
      requires depth <= DEPTH_LIMIT
      modifies this
      ensures Follows(r, Decode(defs, MapT(key, value), old(Now()), old(depth)))
      decreases DEPTH_LIMIT - depth, 1
    {
      var count :- Count();
      if depth >= DEPTH_LIMIT {
        return Err(TooDeep);
      }
      depth := depth + 1;
      deepest := if depth > deepest then depth else deepest;
      var vs := Entries(key, value, count);
      depth := depth - 1;
      r := if vs.Ok? then Ok(Map(Some(count), vs.value)) else Err(vs.error);
    }

    /** Exactly `count` entries of a map: a key, then its value. */
    method Entries(key: Schema, value: Schema, count: nat) returns (r: Result<seq<Value>, Error>)
      requires depth <= DEPTH_LIMIT
      modifies this
      ensures Runs(r, DecodeAll(defs, RepeatPair(key, value, count), [], old(Now()), old(depth)), count)
      decreases DEPTH_LIMIT - depth, 3
    {
      var vs := [];
      var remaining := count;
      while remaining > 0
        invariant 0 <= remaining <= count && depth == old(depth) && WorkWithin(count - remaining)
        invariant DecodeAll(defs, RepeatPair(key, value, remaining), vs, Now(), depth)
               == DecodeAll(defs, RepeatPair(key, value, count), [], old(Now()), depth)
      {
        NextEntry(defs, key, value, remaining, vs, Now(), depth);
        remaining := remaining - 1;
        started := started + 1;
        var k :- Deserialize(key);
        var v :- Deserialize(value);
        vs := vs + [k] + [v];
      }
      return Ok(vs);
    }
  }

  /**
    `from_slice`. On every input, decoded or refused, the elements started in all sequences and maps together and the
    bytes copied are each at most the length of the input, and no level is deeper than `DEPTH_LIMIT`.
   */
  method FromSlice(defs: Definitions, t: Schema, bytes: seq<Byte>)
    returns (r: Result<Value, Error>, ghost started: nat, ghost copied: nat, ghost deepest: nat)
    ensures match PayloadTheorems.FromSlice(defs, t, bytes)
            case Done(v, _) => r == Ok(v)
            case Fail(e) => r == Err(e)
    ensures started <= |bytes| && copied <= |bytes| && deepest <= DEPTH_LIMIT
  {
    var decoder := new Decoder(defs, bytes);
    r := decoder.Deserialize(t);
    started, copied, deepest := decoder.started, decoder.copied, decoder.deepest;
  }
}
