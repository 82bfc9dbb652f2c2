/** The encoder: a growing buffer and a level counter, proved to write exactly `Encode`. */
module PayloadEncoder {
  import opened Wrappers
  import opened Bytes
  import opened PayloadFormat
  import PayloadTheorems
  import PayloadRoundTrip
  import Utf8

  lemma OnePartEncoding(v: Value, depth: nat)
    requires depth <= DEPTH_LIMIT
    ensures EncodeAll([v], depth) == Encode(v, depth)
  {
    assert [v][1..] == [];
    if Encode(v, depth).Ok? {
      assert Encode(v, depth).value + [] == Encode(v, depth).value;
    }
  }

  /** A header in front of a level is just put in front. */
  lemma HeaderInFront(header: seq<Byte>, parts: seq<Value>, depth: nat)
    requires depth <= DEPTH_LIMIT
    ensures var plain := EncodeLevel([], parts, depth);
            EncodeLevel(header, parts, depth) == if plain.Ok? then Ok(header + plain.value) else plain
  {
    if depth < DEPTH_LIMIT && EncodeAll(parts, depth + 1).Ok? {
      assert [] + EncodeAll(parts, depth + 1).value == EncodeAll(parts, depth + 1).value;
    }
  }

  class Encoder {
    /** The bytes written so far. */
    var out: seq<Byte>
    var depth: nat

    constructor ()
      ensures out == [] && depth == 0
    {
      out := [];
      depth := 0;
    }

    /** The call appended what `spec` says and closed every level it opened, or failed as `spec` says. */
    twostate predicate Follows(new r: Result<(), Error>, new spec: Result<seq<Byte>, Error>)
      reads this
    {
      match spec
      case Ok(bytes) => r == Ok(()) && out == old(out) + bytes && depth == old(depth)
      case Err(error) => r == Err(error)
    }

    method Put(bytes: seq<Byte>)
      modifies this`out
      ensures out == old(out) + bytes
    {
      out := out + bytes;
    }

    /** One level more, unless `DEPTH_LIMIT` of them are open. */
    method Enter() returns (r: Result<(), Error>)
      modifies this`depth
      ensures r == if old(depth) >= DEPTH_LIMIT then Err(TooDeep) else Ok(())
      ensures depth == if r.Ok? then old(depth) + 1 else old(depth)
    {
      if depth >= DEPTH_LIMIT {
        return Err(TooDeep);
      }
      depth := depth + 1;
      return Ok(());
    }

    method SerializeBytes(content: seq<Byte>) returns (r: Result<(), Error>)
      modifies this
      ensures Follows(r, EncodeBytes(content))
    {
      if |content| >= U64_LIMIT {
        return Err(LengthTooLarge);
      }
      Put(LittleEndian(|content|, U64_WIDTH));
      Put(content);
      return Ok(());
    }

    method Serialize(v: Value) returns (r: Result<(), Error>)
      requires depth <= DEPTH_LIMIT
      modifies this
      ensures Follows(r, Encode(v, old(depth)))
      decreases DEPTH_LIMIT - depth, 1
    {
      match v {
        case Unit => r := Ok(());
        case Bool(truth) => Put([if truth then 1 else 0]); r := Ok(());
        case Fixed(width, bits) => Put(LittleEndian(bits, width)); r := Ok(());
        case Char(scalar) => Put(Utf8.EncodeScalar(scalar)); r := Ok(());
        case Str(scalars) => r := SerializeBytes(Utf8.Encode(scalars));
        case Bytes(content) => r := SerializeBytes(content);
        case Absent => Put([0]); r := Ok(());
        case Present(inner) =>
          Put([1]);
          r := Nested(inner);
          ghost var body := EncodeLevel([], [inner], old(depth));
          HeaderInFront([1], [inner], old(depth));
          if body.Ok? {
            PayloadRoundTrip.Glue(old(out), [1], body.value);
          }
        case Newtype(inner) => r := Nested(inner);
        case Seq(declared, elements) => r := SerializeCounted(declared, elements, false);
        case Map(declared, entries) => r := SerializeCounted(declared, entries, true);
        case Tuple(fields) => r := SerializeFixed([], fields);
        case Variant(index, fields) => r := SerializeFixed(LittleEndian(index, U32_WIDTH), fields);
      }
    }

    /** Write `v` one level deeper. */
    method Nested(v: Value) returns (r: Result<(), Error>)
      requires depth <= DEPTH_LIMIT
      modifies this
      ensures Follows(r, EncodeLevel([], [v], old(depth)))
      decreases DEPTH_LIMIT - depth, 0
    {
      var _ :- Enter();
      OnePartEncoding(v, depth);
      ghost var spec := Encode(v, depth);
      var _ :- Serialize(v);
      depth := depth - 1;
      assert [] + spec.value == spec.value;
      return Ok(());
    }

    /** A tuple, a struct or an enum variant: a header, then the fields, with no declared count. */
    method SerializeFixed(header: seq<Byte>, fields: seq<Value>) returns (r: Result<(), Error>)
      requires depth <= DEPTH_LIMIT
      modifies this
      ensures Follows(r, EncodeLevel(header, fields, old(depth)))
      decreases DEPTH_LIMIT - depth, 0
    {
      var _ :- Enter();
      Put(header);
      ghost var body := EncodeAll(fields, depth);
      var _ :- Elements(fields);
      depth := depth - 1;
      PayloadRoundTrip.Glue(old(out), header, body.value);
      return Ok(());
    }

    /** A sequence or map: the declared count, then the elements; a map counts only its keys. */
    method SerializeCounted(declared: Option<nat>, parts: seq<Value>, keyed: bool) returns (r: Result<(), Error>)
      requires depth <= DEPTH_LIMIT
      modifies this
      ensures Follows(r, EncodeCounted(declared, if keyed then (|parts| + 1) / 2 else |parts|, parts, old(depth)))
      decreases DEPTH_LIMIT - depth, 0
    {
      if declared.None? {
        return Err(UnknownLength);
      }
      var _ :- Enter();
      if declared.value >= U64_LIMIT {
        return Err(LengthTooLarge);
      }
      Put(LittleEndian(declared.value, U64_WIDTH));
      ghost var body := EncodeAll(parts, depth);
      ghost var level := EncodeLevel(LittleEndian(declared.value, U64_WIDTH), parts, old(depth));
      assert level.Ok? == body.Ok? && (body.Err? ==> level == Err(body.error));
      var all :- Elements(parts);
      PayloadRoundTrip.Glue(old(out), LittleEndian(declared.value, U64_WIDTH), body.value);
      var written := if keyed then (all + 1) / 2 else all;
      depth := depth - 1;
      if declared.value != written {
        return Err(LengthMismatch(declared.value, written));
      }
      return Ok(());
    }

    /** Write every part; returns how many. */
    method Elements(parts: seq<Value>) returns (r: Result<nat, Error>)
      requires depth <= DEPTH_LIMIT
      modifies this
      ensures match EncodeAll(parts, old(depth))
              case Ok(bytes) => r == Ok(|parts|) && out == old(out) + bytes && depth == old(depth)
              case Err(error) => r == Err(error)
      decreases DEPTH_LIMIT - depth, 2
    {
      var written := 0;
      ghost var bytes := [];
      assert parts[0..] == parts;
      ghost var all := EncodeAll(parts, depth);
      if all.Ok? {
        assert bytes + all.value == all.value;
      }
      while written < |parts|
        invariant 0 <= written <= |parts| && depth == old(depth) && out == old(out) + bytes
        invariant all == match EncodeAll(parts[written..], depth)
                         case Ok(rest) => Ok(bytes + rest)
                         case Err(error) => Err(error)
      {
        assert parts[written..][1..] == parts[written + 1..];
        ghost var one, rest := Encode(parts[written], depth), EncodeAll(parts[written + 1..], depth);
        var _ :- Serialize(parts[written]);
        if rest.Ok? {
          PayloadRoundTrip.Glue(bytes, one.value, rest.value);
        }
        bytes := bytes + one.value;
        written := written + 1;
      }
      return Ok(written);
    }
  }

  /** `to_vec`. */
  method ToVec(v: Value) returns (r: Result<seq<Byte>, Error>)
    ensures r == PayloadTheorems.ToVec(v)
  {
    var encoder := new Encoder();
    var _ :- encoder.Serialize(v);
    assert [] + PayloadTheorems.ToVec(v).value == PayloadTheorems.ToVec(v).value;
    return Ok(encoder.out);
  }
}
