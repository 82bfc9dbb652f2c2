/** Values and the bytes the format has always written them as: the layout, kind by kind. */
module PayloadVectors {
  import opened Wrappers
  import opened Bytes
  import opened PayloadFormat
  import Utf8

  lemma {:induction false} Zeros(width: nat)
    ensures LittleEndian(0, width) == seq(width, _ => 0)
  {
    if width > 0 {
      Zeros(width - 1);
    }
  }

  lemma SmallNumber(n: nat)
    requires n < 256
    ensures LittleEndian(n, 1) == [n] && LittleEndian(n, 2) == [n, 0] && LittleEndian(n, 4) == [n, 0, 0, 0]
  {
    Zeros(3);
  }

  lemma SmallCount(n: nat)
    requires n < 256
    ensures LittleEndian(n, 8) == [n, 0, 0, 0, 0, 0, 0, 0]
  {
    Zeros(7);
  }

  /** At any level that has room, `v` is written as `bytes`. */
  predicate Writes(v: Value, depth: nat, bytes: seq<Byte>)
    requires depth <= DEPTH_LIMIT
  {
    Encode(v, depth).Ok? && Encode(v, depth).value == bytes
  }

  predicate WritesAll(vs: seq<Value>, depth: nat, bytes: seq<Byte>)
    requires depth <= DEPTH_LIMIT
  {
    EncodeAll(vs, depth).Ok? && EncodeAll(vs, depth).value == bytes
  }

  function U8(n: nat): Value {
    Fixed(1, n)
  }

  function U16(n: nat): Value {
    Fixed(2, n)
  }

  lemma OnePart(v: Value, depth: nat, bytes: seq<Byte>)
    requires depth <= DEPTH_LIMIT && Writes(v, depth, bytes)
    ensures WritesAll([v], depth, bytes)
  {
    assert [v][1..] == [] && bytes + [] == bytes;
  }

  lemma TwoParts(v: Value, w: Value, depth: nat, a: seq<Byte>, b: seq<Byte>)
    requires depth <= DEPTH_LIMIT && Writes(v, depth, a) && Writes(w, depth, b)
    ensures WritesAll([v, w], depth, a + b)
  {
    OnePart(w, depth, b);
    assert [v, w][1..] == [w];
  }

  /** Booleans, numbers, characters and the unit: `bool/true`, `bool/false`, `u16`, `char/U+20AC`, `unit`. */
  lemma PlainVectors()
    ensures Writes(Bool(true), 0, [0x01]) && Writes(Bool(false), 0, [0x00])
    ensures Writes(U16(0x0201), 0, [0x01, 0x02]) && Writes(U16(0x0102), 0, [0x02, 0x01])
    ensures Writes(Char(0x20AC), 0, [0xE2, 0x82, 0xAC])
    ensures Writes(Unit, 0, [])
  {
    SmallNumber(1);
    SmallNumber(2);
  }

  /** Text and bytes: `string/ab`, `bytes/serialize-bytes`. */
  lemma TextVectors()
    ensures Writes(Str([0x61, 0x62]), 0, [2, 0, 0, 0, 0, 0, 0, 0, 0x61, 0x62])
    ensures Writes(Bytes([1, 2, 3]), 0, [3, 0, 0, 0, 0, 0, 0, 0, 1, 2, 3])
  {
    SmallCount(2);
    SmallCount(3);
    assert [0x61, 0x62][1..] == [0x62] && [0x62][1..] == [];
    assert Utf8.Encode([0x62]) == [0x62];
    assert Utf8.Encode([0x61, 0x62]) == [0x61, 0x62];
  }

  /** Options: `option/none`, `option/some`, `option/some-some`. */
  lemma OptionVectors()
    ensures Writes(Absent, 0, [0x00]) && Writes(Present(U8(7)), 0, [0x01, 0x07])
    ensures Writes(Present(Present(U8(3))), 0, [0x01, 0x01, 0x03])
  {
    SmallNumber(3);
    SmallNumber(7);
    OnePart(U8(7), 1, [7]);
    OnePart(U8(3), 2, [3]);
    OnePart(Present(U8(3)), 1, [1, 3]);
  }

  /** Newtypes and tuples: `newtype`, `tuple/u8-u16`. */
  lemma TupleVectors()
    ensures Writes(Newtype(U16(0x0102)), 0, [0x02, 0x01])
    ensures Writes(Tuple([U8(1), U16(2)]), 0, [0x01, 0x02, 0x00])
  {
    SmallNumber(1);
    SmallNumber(2);
    OnePart(U16(0x0102), 1, [2, 1]);
    TwoParts(U8(1), U16(2), 1, [1], [2, 0]);
  }

  /** Variants: `enum/unit-variant`, `enum/newtype-variant`, `enum/tuple-variant`. */
  lemma VariantVectors()
    ensures Writes(Variant(0, []), 0, [0, 0, 0, 0])
    ensures Writes(Variant(1, [U8(9)]), 0, [1, 0, 0, 0, 9])
    ensures Writes(Variant(2, [U8(1), U16(2)]), 0, [2, 0, 0, 0, 1, 2, 0])
  {
    SmallNumber(0);
    SmallNumber(1);
    SmallNumber(2);
    SmallNumber(9);
    OnePart(U8(9), 1, [9]);
    TwoParts(U8(1), U16(2), 1, [1], [2, 0]);
  }

  /** Sequences: `seq/vec-u16`, `seq/vec-empty`. */
  lemma SeqVectors()
    ensures Writes(Seq(Some(2), [U16(1), U16(2)]), 0, [2, 0, 0, 0, 0, 0, 0, 0, 1, 0, 2, 0])
    ensures Writes(Seq(Some(0), []), 0, [0, 0, 0, 0, 0, 0, 0, 0])
  {
    SmallNumber(1);
    SmallNumber(2);
    SmallCount(0);
    SmallCount(2);
    TwoParts(U16(1), U16(2), 1, [1, 0], [2, 0]);
  }

  /** A map of one entry: its key before its value. */
  lemma MapVectors()
    ensures Writes(Map(Some(1), [U8(1), U16(2)]), 0, [1, 0, 0, 0, 0, 0, 0, 0, 1, 2, 0])
  {
    SmallNumber(1);
    SmallNumber(2);
    SmallCount(1);
    TwoParts(U8(1), U16(2), 1, [1], [2, 0]);
  }

  // ---------------------------------------------------------------------------
  // What is refused, and how
  // ---------------------------------------------------------------------------

  /** A byte that is no boolean, a byte that is no option's tag, and a number cut short. */
  lemma ByteRefusals(defs: Definitions, budget: nat)
    ensures Decode(defs, BoolT, State([2], budget), 0) == Fail(InvalidBool(2))
    ensures Decode(defs, OptionT(FixedT(1)), State([2, 0], budget), 0) == Fail(InvalidOptionTag(2))
    ensures Decode(defs, FixedT(4), State([1, 2], budget), 0) == Fail(UnexpectedEnd(4, 2))
    ensures Decode(defs, CharT, State([0x80], budget), 0) == Fail(InvalidChar)
  {
  }

  lemma CountOf(n: nat, tail: seq<Byte>, budget: nat)
    requires n < 256
    ensures TakeNumber(State([n, 0, 0, 0, 0, 0, 0, 0] + tail, budget), 8) == Done(n, State(tail, budget))
  {
    var bytes := [n, 0, 0, 0, 0, 0, 0, 0] + tail;
    SmallCount(n);
    assert Pow256(8) > 256 by {
      assert Pow256(2) == 65536;
    }
    DecodeOfEncode(n, 8);
    assert bytes[..8] == LittleEndian(n, 8) && bytes[8..] == tail;
  }

  /** A count that claims more than is left, one that claims more than the budget, and text that is not UTF-8. */
  lemma CountRefusals(defs: Definitions, budget: nat)
    requires budget >= 4
    ensures Decode(defs, SeqT(FixedT(1)), State([4, 0, 0, 0, 0, 0, 0, 0] + [7, 8, 9], budget), 0)
         == Fail(CountExceedsInput(4, 3))
    ensures Decode(defs, SeqT(FixedT(1)), State([3, 0, 0, 0, 0, 0, 0, 0] + [7, 8, 9], 2), 0)
         == Fail(CountExceedsInput(3, 2))
    ensures Decode(defs, StrT, State([1, 0, 0, 0, 0, 0, 0, 0] + [0xFF], budget), 0) == Fail(InvalidUtf8)
  {
    CountOf(4, [7, 8, 9], budget);
    CountOf(3, [7, 8, 9], 2);
    CountOf(1, [0xFF], budget);
    assert [0xFF][..1] == [0xFF] && Utf8.Decode([0xFF]) == None;
  }

  // ---------------------------------------------------------------------------
  // What costs a level
  // ---------------------------------------------------------------------------

  datatype Kind = AnOption | ANewtype | ASequence | AMap | ATuple | AVariant

  /** A value that holds `v` one level deeper. */
  function Wrap(kind: Kind, v: Value): Value {
    match kind
    case AnOption => Present(v)
    case ANewtype => Newtype(v)
    case ASequence => Seq(Some(1), [v])
    case AMap => Map(Some(1), [Unit, v])
    case ATuple => Tuple([v])
    case AVariant => Variant(0, [v])
  }

  function Nest(kinds: seq<Kind>): (v: Value) {
    if kinds == [] then Unit else Wrap(kinds[0], Nest(kinds[1..]))
  }

  lemma PartsIff(v: Value, depth: nat)
    requires depth <= DEPTH_LIMIT
    ensures EncodeAll([v], depth).Ok? <==> Encode(v, depth).Ok?
    ensures EncodeAll([Unit, v], depth).Ok? <==> Encode(v, depth).Ok?
  {
    assert [v][1..] == [] && [Unit, v][1..] == [v];
    assert Encode(Unit, depth).Ok? && EncodeAll([], depth).Ok?;
  }

  lemma CountedIff(parts: seq<Value>, depth: nat)
    requires depth < DEPTH_LIMIT
    ensures EncodeLevel([], parts, depth).Ok? <==> EncodeAll(parts, depth + 1).Ok?
    ensures EncodeCounted(Some(1), 1, parts, depth).Ok? <==> EncodeAll(parts, depth + 1).Ok?
  {
  }

  lemma WrapIff(kind: Kind, v: Value, depth: nat)
    requires depth <= DEPTH_LIMIT
    ensures Encode(Wrap(kind, v), depth).Ok? <==> depth < DEPTH_LIMIT && Encode(v, depth + 1).Ok?
  {
    if depth < DEPTH_LIMIT {
      PartsIff(v, depth + 1);
      CountedIff([v], depth);
      CountedIff([Unit, v], depth);
      assert |[v]| == 1 && (|[Unit, v]| + 1) / 2 == 1;
    }
  }

  /** Every kind of nesting costs one level, in any mixture, and the 129th level is refused. */
  lemma {:induction false} NestsIff(kinds: seq<Kind>, depth: nat)
    requires depth <= 128
    ensures Encode(Nest(kinds), depth).Ok? <==> depth + |kinds| <= 128
    decreases |kinds|
  {
    if kinds != [] {
      WrapIff(kinds[0], Nest(kinds[1..]), depth);
      if depth < 128 {
        NestsIff(kinds[1..], depth + 1);
      }
    }
  }
}
