/** UTF-8 as RFC 3629 sections 3 and 4 define it, and as `str::from_utf8` and `char::encode_utf8` implement it. */
module Utf8 {
  import opened Wrappers
  import opened Bytes

  /** A Unicode scalar value (Rust's `char`). */
  type Scalar = c: int | 0 <= c < 0xD800 || 0xE000 <= c < 0x11_0000

  /** `utf8_width`: how many bytes the sequence that starts with `first` has, or 0. */
  function LeadWidth(first: Byte): (width: nat)
    ensures width <= 4
  {
    if first <= 0x7F then 1
    else if 0xC2 <= first <= 0xDF then 2
    else if 0xE0 <= first <= 0xEF then 3
    else if 0xF0 <= first <= 0xF4 then 4
    else 0
  }

  /** The encoding of one scalar value (RFC 3629 section 3). */
  function EncodeScalar(c: Scalar): (bs: seq<Byte>)
    ensures 1 <= |bs| <= 4 && |bs| == LeadWidth(bs[0])
  {
    if c < 0x80 then [c]
    else if c < 0x800 then [0xC0 + c / 64, 0x80 + c % 64]
    else if c < 0x1_0000 then [0xE0 + c / 4096, 0x80 + c / 64 % 64, 0x80 + c % 64]
    else [0xF0 + c / 262144, 0x80 + c / 4096 % 64, 0x80 + c / 64 % 64, 0x80 + c % 64]
  }

  predicate IsTail(b: Byte) {
    0x80 <= b <= 0xBF
  }

  /** The byte sequences of one scalar value, by the grammar of RFC 3629 section 4. */
  predicate WellFormed(bs: seq<Byte>) {
    match |bs|
    case 1 => bs[0] <= 0x7F
    case 2 => 0xC2 <= bs[0] <= 0xDF && IsTail(bs[1])
    case 3 =>
      && (|| (bs[0] == 0xE0 && 0xA0 <= bs[1] <= 0xBF)
          || (0xE1 <= bs[0] <= 0xEC && IsTail(bs[1]))
          || (bs[0] == 0xED && 0x80 <= bs[1] <= 0x9F)
          || (0xEE <= bs[0] <= 0xEF && IsTail(bs[1])))
      && IsTail(bs[2])
    case 4 =>
      && (|| (bs[0] == 0xF0 && 0x90 <= bs[1] <= 0xBF)
          || (0xF1 <= bs[0] <= 0xF3 && IsTail(bs[1]))
          || (bs[0] == 0xF4 && 0x80 <= bs[1] <= 0x8F))
      && IsTail(bs[2]) && IsTail(bs[3])
    case _ => false
  }

  /** The scalar value a well-formed sequence stands for. */
  function ScalarOf(bs: seq<Byte>): (c: Scalar)
    requires WellFormed(bs)
  {
    var b0: int, n := bs[0], |bs|;
    if n == 1 then b0
    else
      var b1: int := bs[1] - 0x80;
      if n == 2 then (b0 - 0xC0) * 64 + b1
      else
        var b2: int := bs[2] - 0x80;
        if n == 3 then (b0 - 0xE0) * 4096 + b1 * 64 + b2
        else
          var b3: int := bs[3] - 0x80;
          (b0 - 0xF0) * 262144 + b1 * 4096 + b2 * 64 + b3
  }

  lemma ScalarRoundTrip(c: Scalar)
    ensures WellFormed(EncodeScalar(c)) && ScalarOf(EncodeScalar(c)) == c
  {
    assert c == c / 64 * 64 + c % 64;
    assert c / 64 == c / 4096 * 64 + c / 64 % 64;
    assert c / 4096 == c / 262144 * 64 + c / 4096 % 64;
  }

  /** Six-bit groups can be read back one by one. */
  lemma SixBits(high: nat, low: nat)
    requires low < 64
    ensures (high * 64 + low) / 64 == high && (high * 64 + low) % 64 == low
  {
  }

  lemma TwoCanonical(bs: seq<Byte>)
    requires |bs| == 2 && WellFormed(bs)
    ensures EncodeScalar(ScalarOf(bs)) == bs
  {
    SixBits(bs[0] - 0xC0, bs[1] - 0x80);
  }

  lemma ThreeCanonical(bs: seq<Byte>)
    requires |bs| == 3 && WellFormed(bs)
    ensures EncodeScalar(ScalarOf(bs)) == bs
  {
    var c, b0: int := ScalarOf(bs), bs[0];
    SixBits((b0 - 0xE0) * 64 + (bs[1] - 0x80), bs[2] - 0x80);
    SixBits(b0 - 0xE0, bs[1] - 0x80);
    assert c / 4096 == c / 64 / 64;
  }

  lemma FourCanonical(bs: seq<Byte>)
    requires |bs| == 4 && WellFormed(bs)
    ensures EncodeScalar(ScalarOf(bs)) == bs
  {
    var c, b0: int := ScalarOf(bs), bs[0];
    FourGroups(b0 - 0xF0, bs[1] - 0x80, bs[2] - 0x80, bs[3] - 0x80);
    assert EncodeScalar(c) == [0xF0 + c / 262144, 0x80 + c / 4096 % 64, 0x80 + c / 64 % 64, 0x80 + c % 64];
  }

  lemma ScalarCanonical(bs: seq<Byte>)
    requires WellFormed(bs)
    ensures EncodeScalar(ScalarOf(bs)) == bs
    ensures |bs| == LeadWidth(bs[0])
  {
    if |bs| == 2 {
      TwoCanonical(bs);
    } else if |bs| == 3 {
      ThreeCanonical(bs);
    } else if |bs| == 4 {
      FourCanonical(bs);
    }
  }

  lemma FourGroups(g0: nat, g1: nat, g2: nat, g3: nat)
    requires g1 < 64 && g2 < 64 && g3 < 64
    ensures var c := g0 * 262144 + g1 * 4096 + g2 * 64 + g3;
            c / 262144 == g0 && c / 4096 % 64 == g1 && c / 64 % 64 == g2 && c % 64 == g3
  {
    var c := g0 * 262144 + g1 * 4096 + g2 * 64 + g3;
    SixBits(g0 * 4096 + g1 * 64 + g2, g3);
    SixBits(g0 * 64 + g1, g2);
    SixBits(g0, g1);
    assert c / 4096 == c / 64 / 64 && c / 262144 == c / 64 / 64 / 64;
  }

  /** A string as UTF-8 bytes. */
  function Encode(cs: seq<Scalar>): (bs: seq<Byte>) {
    if cs == [] then [] else EncodeScalar(cs[0]) + Encode(cs[1..])
  }

  /** `str::from_utf8`: the scalar values of `bs`, or `None` if `bs` is not UTF-8. */
  function Decode(bs: seq<Byte>): (cs: Option<seq<Scalar>>) {
    if bs == [] then Some([])
    else
      var width := LeadWidth(bs[0]);
      if width == 0 || width > |bs| || !WellFormed(bs[..width]) then None
      else match Decode(bs[width..])
        case None => None
        case Some(rest) => Some([ScalarOf(bs[..width])] + rest)
  }

  lemma DecodePrepends(c: Scalar, tail: seq<Byte>)
    ensures var bs := EncodeScalar(c) + tail;
            Decode(bs) == match Decode(tail) case None => None case Some(rest) => Some([c] + rest)
  {
    var head := EncodeScalar(c);
    var bs := head + tail;
    ScalarRoundTrip(c);
    assert bs[0] == head[0] && bs[..|head|] == head && bs[|head|..] == tail;
  }

  lemma {:induction false} DecodeOfEncode(cs: seq<Scalar>)
    ensures Decode(Encode(cs)) == Some(cs)
  {
    if cs != [] {
      DecodeOfEncode(cs[1..]);
      DecodePrepends(cs[0], Encode(cs[1..]));
      assert cs == [cs[0]] + cs[1..];
    }
  }

  lemma EncodePrepends(c: Scalar, rest: seq<Scalar>)
    ensures Encode([c] + rest) == EncodeScalar(c) + Encode(rest)
  {
    assert ([c] + rest)[1..] == rest;
  }

  /** Decoding takes the first sequence off. */
  lemma DecodeSplits(bs: seq<Byte>)
    requires bs != [] && Decode(bs).Some?
    ensures var width := LeadWidth(bs[0]);
            && 0 < width <= |bs| && WellFormed(bs[..width]) && Decode(bs[width..]).Some?
            && Decode(bs).value == [ScalarOf(bs[..width])] + Decode(bs[width..]).value
  {
  }

  lemma EncodeBehind(head: seq<Byte>, rest: seq<Scalar>)
    requires WellFormed(head)
    ensures Encode([ScalarOf(head)] + rest) == head + Encode(rest)
  {
    ScalarCanonical(head);
    EncodePrepends(ScalarOf(head), rest);
  }

  lemma {:induction false} EncodeOfDecode(bs: seq<Byte>)
    requires Decode(bs).Some?
    ensures Encode(Decode(bs).value) == bs
  {
    if bs != [] {
      DecodeSplits(bs);
      var width := LeadWidth(bs[0]);
      var head, tail := bs[..width], bs[width..];
      EncodeOfDecode(tail);
      EncodeBehind(head, Decode(tail).value);
      assert bs == head + tail;
    }
  }
}
