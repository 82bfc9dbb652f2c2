/** Bounded decompression: a stream of unknown length read into a buffer that never outgrows the limit. */
module Decompression {
  import opened Wrappers
  import opened Bytes

  /** The size of the buffer one read fills at most. */
  const CHUNK_SIZE := 16 * 1024

  datatype FormatError =
    | PayloadTooLarge(limit: nat)
    | Io
    | Serialization
    | UnknownEncoding(tag: string)
    | UnsealedEntry
    | MissingEncryptionKey
    | EncryptionError

  /** What one read of the decoder returns. The end of the list is the end of the stream. */
  datatype Event = Chunk(bytes: seq<Byte>) | Interrupted | Failure

  /** A compressed frame as the decoder presents it: the size its header declares, if it does, and what reads return. */
  datatype Frame = Frame(declared: Option<nat>, opens: bool, events: seq<Event>)

  /** A read that returns bytes returns at least one and at most a buffer of them. */
  predicate Readable(events: seq<Event>) {
    forall e <- events :: e.Chunk? ==> 1 <= |e.bytes| <= CHUNK_SIZE
  }

  // ---------------------------------------------------------------------------
  // The result, stated simply
  // ---------------------------------------------------------------------------

  /** Every byte the stream yields before it ends or fails. */
  function Yield(events: seq<Event>): (bytes: seq<Byte>) {
    if events == [] || events[0].Failure? then []
    else if events[0].Interrupted? then Yield(events[1..])
    else events[0].bytes + Yield(events[1..])
  }

  predicate Fails(events: seq<Event>) {
    exists i :: 0 <= i < |events| && events[i].Failure?
  }

  /** The whole content, unless the declared size or the content is over the limit, or the frame is malformed. */
  function Inflate(frame: Frame, limit: nat): (r: Result<seq<Byte>, FormatError>) {
    if frame.declared.Some? && frame.declared.value > limit then Err(PayloadTooLarge(limit))
    else if !frame.opens then Err(Io)
    else if |Yield(frame.events)| > limit then Err(PayloadTooLarge(limit))
    else if Fails(frame.events) then Err(Io)
    else Ok(Yield(frame.events))
  }

  /** Reads that do not fail yield what they yield one by one: a chunk its bytes, an interruption nothing. */
  lemma {:induction false} YieldJoins(a: seq<Event>, b: seq<Event>)
    requires forall e <- a :: !e.Failure?
    ensures Yield(a + b) == Yield(a) + Yield(b)
    ensures |a| == 1 ==> Yield(a) == if a[0].Chunk? then a[0].bytes else []
  {
    if a == [] {
      assert a + b == b;
    } else {
      assert (a + b)[0] == a[0] && (a + b)[1..] == a[1..] + b;
      assert a[0] in a;
      YieldJoins(a[1..], b);
      if a[0].Chunk? {
        assert a[0].bytes + (Yield(a[1..]) + Yield(b)) == a[0].bytes + Yield(a[1..]) + Yield(b);
      }
    }
  }

  /** After a failed read nothing more is yielded. */
  lemma YieldStops(a: seq<Event>, b: seq<Event>)
    requires forall e <- a :: !e.Failure?
    ensures Yield(a + [Failure] + b) == Yield(a)
  {
    assert a + [Failure] + b == a + ([Failure] + b);
    YieldJoins(a, [Failure] + b);
  }

  /** A frame a compressor made of `content`: it reads back, and a size it declares is the size there is. */
  predicate Honest(frame: Frame, content: seq<Byte>) {
    && frame.opens && Readable(frame.events) && !Fails(frame.events)
    && Yield(frame.events) == content
    && (frame.declared.Some? ==> frame.declared.value == |content|)
  }

  /** An honest frame gives its content back under exactly the limits that hold it, and is too large under others. */
  lemma HonestInflatesIff(frame: Frame, content: seq<Byte>, limit: nat)
    requires Honest(frame, content)
    ensures Inflate(frame, limit) == if |content| <= limit then Ok(content) else Err(PayloadTooLarge(limit))
  {
  }

  // ---------------------------------------------------------------------------
  // The buffer
  // ---------------------------------------------------------------------------

  /** A growable buffer; its capacity is the length of its array. */
  class Buffer {
    var data: array<Byte>
    var len: nat

    ghost predicate Valid()
      reads this
    {
      len <= data.Length
    }

    ghost function Contents(): (s: seq<Byte>)
      requires Valid()
      reads this, data
    {
      data[..len]
    }

    constructor (capacity: nat)
      ensures Valid() && fresh(data) && data.Length == capacity && Contents() == []
    {
      data := new Byte[capacity](i => 0);
      len := 0;
    }

    /** Make the capacity `target`, keeping the contents. */
    method ReserveExact(target: nat)
      requires Valid() && target >= data.Length
      modifies this
      ensures Valid() && fresh(data) && data.Length == target && Contents() == old(Contents())
    {
      var grown := new Byte[target](i => 0);
      var i := 0;
      while i < len
        invariant 0 <= i <= len && fresh(grown) && Valid()
        invariant data == old(data) && len == old(len) && data[..] == old(data[..])
        invariant grown[..i] == data[..i]
      {
        grown[i] := data[i];
        i := i + 1;
      }
      data := grown;
    }

    /** Append bytes there is room for. */
    method Extend(bytes: seq<Byte>)
      requires Valid() && len + |bytes| <= data.Length
      modifies this`len, data
      ensures Valid() && data == old(data) && Contents() == old(Contents()) + bytes
    {
      var i := 0;
      while i < |bytes|
        invariant 0 <= i <= |bytes| && len == old(len) && data == old(data)
        invariant data[..len + i] == old(Contents()) + bytes[..i]
      {
        data[len + i] := bytes[i];
        assert data[..len + i + 1] == data[..len + i] + [bytes[i]];
        i := i + 1;
      }
      len := len + |bytes|;
      assert bytes[..i] == bytes;
    }
  }

  // ---------------------------------------------------------------------------
  // The loop
  // ---------------------------------------------------------------------------

  lemma FailsNext(events: seq<Event>, i: nat)
    requires i < |events|
    ensures Fails(events[i..]) <==> events[i].Failure? || Fails(events[i + 1..])
  {
    var rest, next := events[i..], events[i + 1..];
    if Fails(rest) && !rest[0].Failure? {
      var k :| 0 <= k < |rest| && rest[k].Failure?;
      assert next[k - 1].Failure?;
    }
    if Fails(next) {
      var k :| 0 <= k < |next| && next[k].Failure?;
      assert rest[k + 1].Failure?;
    }
  }

  lemma YieldNext(events: seq<Event>, i: nat)
    requires i < |events|
    ensures Yield(events[i..]) == match events[i]
                                  case Chunk(bytes) => bytes + Yield(events[i + 1..])
                                  case Interrupted => Yield(events[i + 1..])
                                  case Failure => []
  {
    assert events[i..][1..] == events[i + 1..];
  }

  /** `got` is what the first `i` reads yielded, none of which failed. */
  ghost predicate Got(events: seq<Event>, i: nat, got: seq<Byte>)
    requires i <= |events|
  {
    Yield(events) == got + Yield(events[i..]) && (Fails(events) <==> Fails(events[i..]))
  }

  lemma GotNothing(events: seq<Event>)
    ensures Got(events, 0, [])
  {
    assert events[0..] == events;
  }

  lemma GotNext(events: seq<Event>, i: nat, got: seq<Byte>)
    requires i < |events| && Got(events, i, got)
    ensures match events[i]
            case Chunk(bytes) => Got(events, i + 1, got + bytes) && |Yield(events)| >= |got| + |bytes|
            case Interrupted => Got(events, i + 1, got)
            case Failure => Yield(events) == got && Fails(events)
  {
    YieldNext(events, i);
    FailsNext(events, i);
    if events[i].Chunk? {
      assert got + (events[i].bytes + Yield(events[i + 1..])) == got + events[i].bytes + Yield(events[i + 1..]);
    }
  }

  lemma GotAll(events: seq<Event>, got: seq<Byte>)
    requires Got(events, |events|, got)
    ensures Yield(events) == got && !Fails(events)
  {
    assert events[|events|..] == [];
  }

  /** `decompress_bytes`. No buffer it ever holds, `peak` the largest, has a capacity above the limit. */
  method DecompressBytes(frame: Frame, limit: nat) returns (r: Result<seq<Byte>, FormatError>, ghost peak: nat)
    requires Readable(frame.events)
    ensures r == Inflate(frame, limit)
    ensures r.Ok? <==>
              && frame.opens && (frame.declared.Some? ==> frame.declared.value <= limit)
              && (forall e <- frame.events :: !e.Failure?) && |Yield(frame.events)| <= limit
    ensures r.Ok? ==> r.value == Yield(frame.events)
    ensures r.Err? ==>
              r.error == (if frame.declared.Some? && frame.declared.value > limit then PayloadTooLarge(limit)
                          else if frame.opens && |Yield(frame.events)| > limit then PayloadTooLarge(limit)
                          else Io)
    ensures peak <= limit
  {
    peak := 0;
    if frame.declared.Some? && frame.declared.value > limit {
      return Err(PayloadTooLarge(limit)), peak;
    }
    var out := new Buffer(if frame.declared.Some? then frame.declared.value else 0);
    peak := out.data.Length;
    if !frame.opens {
      return Err(Io), peak;
    }
    var events := frame.events;
    var i := 0;
    GotNothing(events);
    while i < |events|
      invariant 0 <= i <= |events| && fresh(out) && fresh(out.data) && out.Valid()
      invariant out.data.Length <= peak <= limit
      invariant Got(events, i, out.Contents())
    {
      GotNext(events, i, out.Contents());
      match events[i] {
        case Interrupted =>
        case Failure =>
          return Err(Io), peak;
        case Chunk(bytes) =>
          var n := |bytes|;
          if n > limit - out.len {
            return Err(PayloadTooLarge(limit)), peak;
          }
          if n > out.data.Length - out.len {
            var doubled := 2 * out.data.Length;
            var needed := if doubled > out.len + n then doubled else out.len + n;
            var target := if needed < limit then needed else limit;
            out.ReserveExact(target);
            peak := if target > peak then target else peak;
          }
          out.Extend(bytes);
      }
      i := i + 1;
    }
    GotAll(events, out.Contents());
    return Ok(out.data[..out.len]), peak;
  }
}
