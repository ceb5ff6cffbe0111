/** The ring buffer object: the real loops over the data area, the framing, and the
    typed `push` and `pop`. */
module Ring {
  import opened Words
  import opened Endian
  import opened Wrappers
  import F = Frames
  import opened Codec
  import opened CodecProofs

  const SPSC_HEADER_SIZE: nat := 24

  /** The argument of `push`: one value, or a flat list packed into one message. */
  datatype Input = Scalar(v: Value) | List(vs: seq<Value>)

  function Payload(input: Input): Result<seq<byte>> {
    match input
    case Scalar(v) => Packed([v])
    case List(vs) => Packed(vs)
  }

  /** The bytes that messages take in the ring, each with its prefix. */
  function FrameBytes(q: seq<F.Msg>): nat {
    if q == [] then 0 else 4 + |q[0]| + FrameBytes(q[1..])
  }

  lemma {:induction false} FrameBytesOfStream(q: seq<F.Msg>)
    ensures FrameBytes(q) == |F.Stream(q)|
  {
    hide F.Stream;
    if q == [] {
      F.StreamNone();
    } else {
      assert q == [q[0]] + q[1..];
      FrameBytesOfStream(q[1..]);
      F.StreamHead(q[0], q[1..]);
    }
  }

  /** What `push` returns on a ring that holds the messages `q`: an error for a payload
      that cannot be packed or can never fit, `False` for one that does not fit now. */
  function PushReply(cap: nat, q: seq<F.Msg>, input: Input): Result<bool> {
    match Payload(input)
    case Err => Err
    case Ok(p) =>
      if 4 + |p| > cap then Err else Ok(|F.Stream(q)| + 4 + |p| <= cap)
  }

  function AfterPush(cap: nat, q: seq<F.Msg>, input: Input): seq<F.Msg> {
    if PushReply(cap, q, input) == Ok(true) then q + [Payload(input).value] else q
  }

  predicate Sendable(cap: nat, input: Input) {
    Payload(input).Ok? ==> F.PrefixHolds(cap, |Payload(input).value|)
  }

  function AfterPop(q: seq<F.Msg>): seq<F.Msg> {
    if q == [] then [] else q[1..]
  }

  /** What `pop` returns besides an error: nothing, raw bytes, or a typed value. */
  datatype Popped = Nothing | RawBytes(bytes: seq<byte>) | Typed(v: Value)

  /** What `pop(tag)` makes of a message. */
  function Opened(payload: seq<byte>, tag: Option<Tag>): Result<Popped> {
    match tag
    case None => Ok(RawBytes(payload))
    case Some(t) =>
      match UnpackOne(payload, t)
      case Err => Err
      case Ok((v, _)) => Ok(Typed(v))
  }

  /** What `pop_mixed(schema)` makes of a message. */
  function OpenedMixed(payload: seq<byte>, schema: seq<Entry>): Result<Option<seq<Item>>> {
    match Decode(payload, schema)
    case Err => Err
    case Ok((items, _)) => Ok(Some(items))
  }

  /** `head` and `tail` are the 64-bit counters of the header. `sent` logs every message
      ever pushed and `taken` counts the popped ones: the true counters are stream
      positions of the log. */
  class SpscRingBuffer {
    const data: array<byte>
    const capacity: nat
    var head: nat
    var tail: nat
    ghost var sent: seq<F.Msg>
    ghost var taken: nat

    /** The stream of the queued frames lies in the ring from `head` to `tail`. */
    ghost predicate Laid()
      reads this, data
    {
      && IsPowerOfTwo(capacity) && data.Length == capacity && capacity < TWO64 / 2
      && taken <= |sent|
      && head == Wrap(F.Off(sent, taken))
      && tail == Wrap(|F.Stream(sent)|)
      && F.Space(sent, taken) <= capacity
      && F.Stored(data[..], capacity, F.Off(sent, taken), F.Stream(sent))
    }

    /** And every length prefix is right, so that the stream can be read back. */
    ghost predicate Valid()
      reads this, data
    {
      Laid() && F.Short(sent)
    }

    /** The queued messages. */
    ghost function Contents(): seq<F.Msg>
      reads this, data
      requires Laid()
    {
      sent[taken..]
    }

    /** What `free` reads: the capacity less the bytes of the queued frames. */
    ghost function Free(): int
      reads this, data
      requires Laid()
    {
      capacity - FrameBytes(Contents())
    }

    /** The bytes a consumer finds between `head` and `tail`. */
    ghost function Live(): seq<byte>
      reads this, data
      requires Laid()
    {
      F.Window(data[..], capacity, head, Wrap(tail - head))
    }

    constructor (mapSize: nat)
      requires mapSize > SPSC_HEADER_SIZE && IsPowerOfTwo(mapSize - SPSC_HEADER_SIZE)
      requires mapSize < TWO64 / 2
      ensures Valid() && fresh(data) && capacity == mapSize - SPSC_HEADER_SIZE && Contents() == []
      ensures head == 0 && tail == 0
    {
      data := new byte[mapSize - SPSC_HEADER_SIZE];
      capacity := mapSize - SPSC_HEADER_SIZE;
      head, tail := 0, 0;
      sent, taken := [], 0;
    }

    /** `new` on the creator's side: the capacity must be a power of two. */
    static method New(mapSize: nat) returns (ring: SpscRingBuffer?)
      requires mapSize < TWO64 / 2
      ensures ring == null <==> mapSize <= SPSC_HEADER_SIZE || !IsPowerOfTwo(mapSize - SPSC_HEADER_SIZE)
      ensures ring != null ==> fresh(ring) && fresh(ring.data) && ring.Valid()
      ensures ring != null ==> ring.capacity == mapSize - SPSC_HEADER_SIZE && ring.Contents() == []
      ensures ring != null ==> ring.head == 0 && ring.tail == 0
    {
      if mapSize <= SPSC_HEADER_SIZE || !IsPowerOfTwo(mapSize - SPSC_HEADER_SIZE) {
        return null;
      }
      ring := new SpscRingBuffer(mapSize);
    }

    /** Copies `src` into the data area at logical position `pos`, wrapping at `cap`. */
    method WriteBytes(pos: nat, src: seq<byte>, cap: nat)
      requires IsPowerOfTwo(cap) && data.Length == cap <= TWO64
      modifies data
      ensures data[..] == F.Blit(old(data[..]), cap, pos, src)
    {
      hide IsPowerOfTwo;
      var mask := cap - 1;
      assert src[..0] == [];
      for i := 0 to |src|
        invariant data[..] == F.Blit(old(data[..]), cap, pos, src[..i])
      {
        var idx := And(Wrap(pos + i), mask);
        assert idx == F.Cell(pos + i, cap) by {
          F.CellOfWrap(pos + i, cap);
        }
        data[idx] := src[i];
        assert src[..i + 1][..i] == src[..i];
      }
      assert src[..|src|] == src;
    }

    /** Fills `dst` from the data area at logical position `pos`, wrapping at `cap`. */
    method ReadBytes(pos: nat, dst: array<byte>, cap: nat)
      requires IsPowerOfTwo(cap) && data.Length == cap <= TWO64 && dst != data
      modifies dst
      ensures dst[..] == F.Window(data[..], cap, pos, dst.Length)
    {
      hide IsPowerOfTwo;
      var mask := cap - 1;
      for i := 0 to dst.Length
        invariant forall j :: 0 <= j < i ==> dst[j] == F.Window(data[..], cap, pos, dst.Length)[j]
      {
        var idx := And(Wrap(pos + i), mask);
        assert idx == F.Cell(pos + i, cap) by {
          F.CellOfWrap(pos + i, cap);
        }
        dst[i] := data[idx];
      }
    }

    lemma Counters()
      requires Laid()
      ensures F.Off(sent, taken) <= |F.Stream(sent)| == F.Off(sent, taken) + |F.Stream(Contents())|
      ensures |F.Stream(Contents())| <= capacity
      ensures Wrap(tail - head) == |F.Stream(Contents())|
      ensures head == tail <==> Contents() == []
    {
      hide F.Stream, F.Off, F.Stored, IsPowerOfTwo, Wrap;
      F.StreamRest(sent, taken);
      WrapDifference(|F.Stream(sent)|, F.Off(sent, taken));
      F.StreamNone();
      if Contents() != [] {
        F.FrameAt(Contents(), 0);
      }
    }

    /** The live bytes are the queued frames, and parse into the queued messages exactly
        when all their lengths fit the prefix. */
    lemma LiveParses()
      requires Laid()
      ensures Live() == F.Stream(Contents())
      ensures F.Parse(Live()) == Some(Contents()) <==> F.Short(Contents())
    {
      hide F.Stream, F.Off, IsPowerOfTwo, Wrap, F.Window, F.Parse, F.Short, F.Stored;
      Counters();
      var h, used := F.Off(sent, taken), |F.Stream(Contents())|;
      F.StreamRest(sent, taken);
      F.WindowFromWrapped(data[..], capacity, h, used);
      F.WindowOfStored(data[..], capacity, h, F.Stream(sent), h, used);
      assert F.Stream(sent)[h..h + used] == F.Stream(sent)[h..];
      F.ParseExact(Live(), Contents());
    }

    /** `used`, `free`, `is_empty` and `is_full`, for the two owners at rest. */
    method Observe() returns (used: nat, free: nat, isEmpty: bool, isFull: bool)
      requires Valid()
      ensures used == FrameBytes(Contents()) && free == Free()
      ensures isEmpty <==> Contents() == []
      ensures isFull <==> used == capacity
    {
      Counters();
      FrameBytesOfStream(Contents());
      used := Wrap(tail - head);
      free := SaturatingSub(capacity, used);
      isEmpty := head == tail;
      isFull := used >= capacity;
    }

    /** Packs the argument into a payload. */
    static method Pack(input: Input) returns (r: Result<seq<byte>>)
      ensures r == Payload(input)
    {
      var payload := new ByteVec();
      var ok: bool;
      match input {
        case List(vs) =>
          ok := PackList(vs, payload);
          assert ok ==> payload.bytes == AllBytes(vs);
        case Scalar(v) =>
          PackSingle(v);
          ok := PackValue(v, payload);
          assert ok ==> payload.bytes == AllBytes([v]);
      }
      r := if ok then Ok(payload.bytes) else Err;
    }

    /** The ring after a frame was copied to the tail and the tail moved past it. */
    lemma Published(m: F.Msg, before: seq<byte>)
      requires IsPowerOfTwo(capacity) && |before| == capacity == data.Length && capacity < TWO64 / 2
      requires taken <= |sent|
      requires F.Space(sent, taken) + 4 + |m| <= capacity && F.Off(sent, taken) <= |F.Stream(sent)|
      requires F.Stored(before, capacity, F.Off(sent, taken), F.Stream(sent))
      ensures F.Off(sent + [m], taken) == F.Off(sent, taken)
      ensures |F.Stream(sent + [m])| == |F.Stream(sent)| + 4 + |m|
      ensures F.Space(sent + [m], taken) <= capacity
      ensures F.Stored(F.Blit(before, capacity, |F.Stream(sent)|, F.Frame(m)), capacity,
                       F.Off(sent + [m], taken), F.Stream(sent + [m]))
    {
      hide F.Stored, F.Stream, F.Off, F.Blit, IsPowerOfTwo, F.Frame;
      F.StreamSnoc(sent, m);
      F.OffOfPrefix(sent, m, taken);
      F.StoredBlit(before, capacity, F.Off(sent, taken), F.Stream(sent), F.Frame(m));
    }

    /** Writes a message, or says that it does not fit now (`Ok(false)`) or ever (`Err`).
        A payload of 2^32 bytes or more is accepted where it fits, but `as u32` cuts its
        prefix: the live bytes then no longer parse into the queue. */
    method Push(input: Input) returns (r: Result<bool>)
      requires Valid()
      modifies this, data
      ensures Laid() && head == old(head) && taken == old(taken)
      ensures r == PushReply(capacity, old(Contents()), input)
      ensures Contents() == AfterPush(capacity, old(Contents()), input)
      ensures r == Err <==> Payload(input).Err? || 4 + |Payload(input).value| > capacity
      ensures r == Ok(true) <==> Payload(input).Ok? && 4 + |Payload(input).value| <= old(Free())
      ensures r == Ok(false) ==> old(Contents()) != [] && 4 + |Payload(input).value| <= capacity
      ensures sent == if r == Ok(true) then old(sent) + [Payload(input).value] else old(sent)
      ensures Contents() == if r == Ok(true) then old(Contents()) + [Payload(input).value] else old(Contents())
      ensures tail == if r == Ok(true) then (old(tail) + 4 + |Payload(input).value|) % TWO64 else old(tail)
      ensures F.Parse(Live()) == Some(Contents()) <==> (r == Ok(true) ==> Sendable(capacity, input))
      ensures Valid() <==> (r == Ok(true) ==> Sendable(capacity, input))
      ensures data[..] == if r == Ok(true)
                          then F.Blit(old(data[..]), capacity, old(tail), F.Frame(Payload(input).value))
                          else old(data[..])
    {
      hide F.Stored, F.Stream, F.Off, F.Blit, IsPowerOfTwo, Wrap, NeBytes, AllPackable, AllBytes, F.Cell;
      hide F.Short, F.Parse, Live;
      LiveParses();
      Counters();
      FrameBytesOfStream(Contents());
      F.ShortRest(sent, taken);
      var packed := Pack(input);
      if packed.Err? {
        return Err;
      }
      var payload := packed.value;
      var frameLen, cap := 4 + |payload|, capacity;
      if frameLen > cap {
        return Err;
      }
      var used := Wrap(tail - head);
      NoWrap(used + frameLen);
      if Wrap(used + frameLen) > cap {
        return Ok(false);
      }
      ghost var before, end := data[..], |F.Stream(sent)|;
      Published(payload, before);
      var lenBytes := NeBytes(|payload| % TWO32, 4);
      WriteBytes(tail, lenBytes, cap);
      WriteBytes(Wrap(tail + 4), payload, cap);
      F.BlitFromWrapped(F.Blit(before, cap, tail, lenBytes), cap, tail + 4, payload);
      F.BlitTwice(before, cap, tail, lenBytes, payload);
      F.BlitFromWrapped(before, cap, end, F.Frame(payload));
      F.WrapAdd(end, frameLen);
      F.ShortSnoc(sent, taken, payload);
      NoWrap(tail + frameLen);
      tail := Wrap(tail + frameLen);
      sent := sent + [payload];
      LiveParses();
      r := Ok(true);
    }

    static lemma NoWrap(x: nat)
      ensures Wrap(x) == x % TWO64
      ensures x < TWO64 ==> Wrap(x) == x
    {
    }

    /** The frame at the head, as the consumer finds it. */
    lemma FrontFrame()
      requires Valid() && Contents() != []
      ensures var m, h := Contents()[0], F.Off(sent, taken);
              && |m| < TWO32
              && F.Window(data[..], capacity, h, 4) == F.Frame(m)[..4]
              && F.Window(data[..], capacity, h + 4, |m|) == m
              && F.Off(sent, taken + 1) == h + 4 + |m| <= |F.Stream(sent)|
              && F.Stored(data[..], capacity, F.Off(sent, taken + 1), F.Stream(sent))
    {
      hide F.Cell, IsPowerOfTwo, F.Stream, F.Off, Wrap, F.Frame;
      var m, h, stream := sent[taken], F.Off(sent, taken), F.Stream(sent);
      F.FrameAt(sent, taken);
      F.FrameParts(m);
      F.WindowOfStored(data[..], capacity, h, stream, h, 4);
      F.WindowOfStored(data[..], capacity, h, stream, h + 4, |m|);
      assert stream[h..h + 4] == stream[h..h + 4 + |m|][..4];
      assert stream[h + 4..h + 4 + |m|] == stream[h..h + 4 + |m|][4..];
    }

    /** Takes the message at the front: the part `pop` and `pop_mixed` share. */
    method Take() returns (r: Option<seq<byte>>)
      requires Valid()
      modifies this`head, this`taken
      ensures Valid()
      ensures r == if old(Contents()) == [] then None else Some(old(Contents())[0])
      ensures Contents() == AfterPop(old(Contents()))
      ensures r.Some? ==> old(Contents()) == [r.value] + Contents()
      ensures r.None? ==> Contents() == [] && head == old(head) && taken == old(taken)
      ensures r.Some? ==> head == (old(head) + 4 + |r.value|) % TWO64 && taken == old(taken) + 1
    {
      hide F.Stored, F.Stream, F.Off, IsPowerOfTwo, Wrap, F.Window, F.Frame, NeNat;
      Counters();
      if head == tail {
        return None;
      }
      var cap := capacity;
      FrontFrame();
      ghost var m, h := Contents()[0], F.Off(sent, taken);
      var lenBytes := new byte[4];
      ReadBytes(head, lenBytes, cap);
      F.WindowFromWrapped(data[..], cap, h, 4);
      var payloadLen := NeNat(lenBytes[..]);
      F.FrameParts(m);
      var payload := new byte[payloadLen];
      ReadBytes(Wrap(head + 4), payload, cap);
      F.WrapAdd(h, 4);
      F.WindowFromWrapped(data[..], cap, h + 4, payloadLen);
      var frameLen := 4 + payloadLen;
      F.WrapAdd(h, frameLen);
      NoWrap(head + frameLen);
      head := Wrap(head + frameLen);
      taken := taken + 1;
      r := Some(payload[..]);
    }

    /** Reads one message. A decode error still consumes exactly that message. */
    method Pop(tag: Option<Tag>) returns (r: Result<Popped>)
      requires Valid()
      modifies this`head, this`taken
      ensures Valid()
      ensures r == if old(Contents()) == [] then Ok(Nothing) else Opened(old(Contents())[0], tag)
      ensures Contents() == AfterPop(old(Contents()))
      ensures r == Ok(Nothing) <==> old(Contents()) == []
      ensures r == Err <==> old(Contents()) != [] && tag.Some? && UnpackOne(old(Contents())[0], tag.value).Err?
      ensures forall v :: r == Ok(Typed(v)) ==>
                tag.Some? && UnpackOne(old(Contents())[0], tag.value).Ok? &&
                v == UnpackOne(old(Contents())[0], tag.value).value.0
      ensures old(Contents()) != [] && tag.None? ==> r == Ok(RawBytes(old(Contents())[0]))
    {
      hide UnpackOne, F.Stored, F.Stream, F.Off, IsPowerOfTwo;
      var payload := Take();
      if payload.None? {
        return Ok(Nothing);
      }
      match tag {
        case None => r := Ok(RawBytes(payload.value));
        case Some(t) =>
          match UnpackOne(payload.value, t)
          case Err => r := Err;
          case Ok((v, _)) => r := Ok(Typed(v));
      }
    }

    /** Reads one message and unpacks it by a schema, with the same consumption. */
    method PopMixed(schema: seq<Entry>) returns (r: Result<Option<seq<Item>>>)
      requires Valid()
      modifies this`head, this`taken
      ensures Valid()
      ensures r == if old(Contents()) == [] then Ok(None) else OpenedMixed(old(Contents())[0], schema)
      ensures Contents() == AfterPop(old(Contents()))
      ensures r == Ok(None) <==> old(Contents()) == []
      ensures r == Err <==> old(Contents()) != [] && ReadSchemaByTags(old(Contents())[0], schema) == Err
      ensures r.Ok? && r.value.Some? ==>
                ReadSchemaByTags(old(Contents())[0], schema).Ok? &&
                r.value.value == ReadSchemaByTags(old(Contents())[0], schema).value.0
    {
      hide Decode, ReadSchemaByTags, F.Stored, F.Stream, F.Off, IsPowerOfTwo;
      var payload := Take();
      if payload.None? {
        return Ok(None);
      }
      var decoded := UnpackMixedCounted(payload.value, schema);
      DecodersAgree(payload.value, schema);
      match decoded {
        case Err => r := Err;
        case Ok((items, _)) => r := Ok(Some(items));
      }
    }
  }
}
