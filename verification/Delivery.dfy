/** Typed values from end to end: codec and ring, and codec, view and lock together. */
module Delivery {
  import opened Words
  import opened Wrappers
  import opened Codec
  import opened CodecProofs
  import R = Ring
  import F = Frames
  import P = RingProtocol
  import I = RingInvariant
  import W = RingFifo
  import V = View
  import L = LockProtocol
  import T = LockTheorems

  // ---------------------------------------------------- codec and ring calls

  datatype RingCall =
    | Push(input: R.Input)
    | Pop(tag: Option<Tag>)
    | PopMixed(schema: seq<Entry>)

  /** What one pop that found a message returned. */
  datatype Reply =
    | Single(tag: Option<Tag>, r: Result<R.Popped>)
    | Many(schema: seq<Entry>, items: Result<Option<seq<Item>>>)

  /** A ring's queue, the arguments of the pushes that returned `True`, and the replies of
      the pops that found a message. */
  datatype Session = Session(q: seq<F.Msg>, accepted: seq<R.Input>, replies: seq<Reply>)

  /** One call, as the methods of the ring object specify it. */
  function Call(cap: nat, s: Session, c: RingCall): Session {
    match c
    case Push(input) =>
      s.(q := R.AfterPush(cap, s.q, input),
         accepted := if R.PushReply(cap, s.q, input) == Ok(true) then s.accepted + [input] else s.accepted)
    case Pop(tag) =>
      if s.q == [] then s
      else s.(q := R.AfterPop(s.q), replies := s.replies + [Single(tag, R.Opened(s.q[0], tag))])
    case PopMixed(schema) =>
      if s.q == [] then s
      else s.(q := R.AfterPop(s.q), replies := s.replies + [Many(schema, R.OpenedMixed(s.q[0], schema))])
  }

  function Calls(cap: nat, cs: seq<RingCall>): Session
    decreases |cs|
  {
    if cs == [] then Session([], [], [])
    else Call(cap, Calls(cap, cs[..|cs| - 1]), cs[|cs| - 1])
  }

  /** The reply that opens the payload of an accepted argument. */
  predicate Answers(reply: Reply, input: R.Input) {
    && R.Payload(input).Ok?
    && match reply
       case Single(tag, r) => r == R.Opened(R.Payload(input).value, tag)
       case Many(schema, items) => items == R.OpenedMixed(R.Payload(input).value, schema)
  }

  /** The replies open the accepted payloads one by one, and the rest is queued. */
  predicate MatchedUp(s: Session) {
    && |s.accepted| == |s.replies| + |s.q|
    && (forall k :: 0 <= k < |s.replies| ==> Answers(s.replies[k], s.accepted[k]))
    && (forall k :: 0 <= k < |s.q| ==> R.Payload(s.accepted[|s.replies| + k]) == Ok(s.q[k]))
  }

  lemma PopMatches(s: Session, reply: Reply)
    requires MatchedUp(s) && s.q != []
    requires R.Payload(s.accepted[|s.replies|]) == Ok(s.q[0]) ==> Answers(reply, s.accepted[|s.replies|])
    ensures MatchedUp(s.(q := s.q[1..], replies := s.replies + [reply]))
  {
    hide R.Payload, Answers;
    var t := s.(q := s.q[1..], replies := s.replies + [reply]);
    assert R.Payload(s.accepted[|s.replies| + 0]) == Ok(s.q[0]);
    forall k | 0 <= k < |t.q|
      ensures R.Payload(t.accepted[|t.replies| + k]) == Ok(t.q[k])
    {
      assert R.Payload(s.accepted[|s.replies| + (k + 1)]) == Ok(s.q[k + 1]);
    }
  }

  lemma PushMatches(s: Session, input: R.Input)
    requires MatchedUp(s) && R.Payload(input).Ok?
    ensures MatchedUp(s.(q := s.q + [R.Payload(input).value], accepted := s.accepted + [input]))
  {
    hide R.Payload, Answers;
  }

  lemma CallMatches(cap: nat, s: Session, c: RingCall)
    requires MatchedUp(s)
    ensures MatchedUp(Call(cap, s, c))
  {
    hide MatchedUp, R.Payload, R.Opened, R.OpenedMixed, F.Stream;
    match c
    case Push(input) =>
      if R.PushReply(cap, s.q, input) == Ok(true) {
        PushMatches(s, input);
      }
    case Pop(tag) =>
      if s.q != [] {
        SomeAccepted(s);
        PopMatches(s, Single(tag, R.Opened(s.q[0], tag)));
      }
    case PopMixed(schema) =>
      if s.q != [] {
        SomeAccepted(s);
        PopMatches(s, Many(schema, R.OpenedMixed(s.q[0], schema)));
      }
  }

  lemma SomeAccepted(s: Session)
    requires MatchedUp(s) && s.q != []
    ensures |s.replies| < |s.accepted|
  {
  }

  /** Over any sequence of calls, failing ones included, the `k`-th pop that finds a
      message opens the payload of the `k`-th accepted push, and what is queued are the
      payloads of the rest. A decode error therefore costs exactly one message. */
  lemma {:induction false} CallsMatchUp(cap: nat, cs: seq<RingCall>)
    ensures MatchedUp(Calls(cap, cs))
    decreases |cs|
  {
    if cs != [] {
      CallsMatchUp(cap, cs[..|cs| - 1]);
      CallMatches(cap, Calls(cap, cs[..|cs| - 1]), cs[|cs| - 1]);
    }
  }

  /** A scalar popped with a matching tag is the value that was pushed. */
  lemma ScalarOpens(v: Value, tag: Tag)
    requires Lossless(v) && Matches(tag, v)
    ensures R.Payload(R.Scalar(v)).Ok?
    ensures R.Opened(R.Payload(R.Scalar(v)).value, Some(tag)) == Ok(R.Typed(v))
  {
    hide UnpackOne, Bytes, AllBytes, AllPackable;
    PackSingle(v);
    ValueRoundTrip(v, tag, []);
    assert Bytes(v) + [] == Bytes(v);
  }

  /** A list popped with a schema whose expanded tags match is the list that was pushed,
      grouped as the schema asks. */
  lemma ListOpens(vs: seq<Value>, schema: seq<Entry>)
    requires WellFormed(schema) && TagsMatch(Expand(schema), vs)
    ensures R.Payload(R.List(vs)).Ok?
    ensures R.OpenedMixed(R.Payload(R.List(vs)).value, schema) == Ok(Some(Regroup(schema, vs)))
  {
    hide Decode, AllBytes, AllPackable, Expand, Regroup, ReadTags;
    StreamRoundTrip(Expand(schema), vs, []);
    DecodersAgree(AllBytes(vs), schema);
    assert AllBytes(vs) + [] == AllBytes(vs);
  }

  function Pushed(input: R.Input): seq<Value> {
    match input
    case Scalar(v) => [v]
    case List(vs) => vs
  }

  /** A reply gives back what was pushed: without a tag the packed bytes, which for `bytes`
      values are their own, joined; under a tag that matches it the first value; under a
      schema that matches them all values, grouped. Unknown tags and malformed schemas
      fail. */
  predicate Delivers(input: R.Input, reply: Reply) {
    var vs := Pushed(input);
    match reply
    case Single(None, r) =>
      && R.Payload(input).Ok? && r == Ok(R.RawBytes(R.Payload(input).value))
      && (AllRaw(vs) ==> r == Ok(R.RawBytes(Joined(vs))))
      && (input.Scalar? && input.v.Raw? ==> r == Ok(R.RawBytes(input.v.bytes)))
    case Single(Some(tag), r) =>
      && (tag.Unknown? ==> r == Err)
      && (vs != [] && Lossless(vs[0]) && Matches(tag, vs[0]) ==> r == Ok(R.Typed(vs[0])))
    case Many(schema, items) =>
      && (!WellFormed(schema) ==> items == Err)
      && (WellFormed(schema) && TagsMatch(Expand(schema), vs) ==>
            |vs| == |Expand(schema)| && items == Ok(Some(Regroup(schema, vs))))
  }

  lemma PayloadIsPacked(input: R.Input)
    ensures R.Payload(input) == Packed(Pushed(input))
  {
  }

  /** The first of several packed values opens under its tag. */
  lemma FirstOpens(vs: seq<Value>, tag: Tag)
    requires vs != [] && AllPackable(vs) && Lossless(vs[0]) && Matches(tag, vs[0])
    ensures R.Opened(AllBytes(vs), Some(tag)) == Ok(R.Typed(vs[0]))
  {
    hide UnpackOne, Bytes;
    ValueRoundTrip(vs[0], tag, AllBytes(vs[1..]));
  }

  lemma AnswerDelivers(input: R.Input, reply: Reply)
    requires Answers(reply, input)
    ensures Delivers(input, reply)
  {
    hide R.Payload, Expand, Regroup, TagsMatch, R.OpenedMixed, AllBytes, AllPackable, AllRaw, Joined, Matches, Lossless;
    PayloadIsPacked(input);
    var vs := Pushed(input);
    match reply {
      case Single(None, r) => RawAnswer(input);
      case Single(Some(tag), r) =>
        if vs != [] && Lossless(vs[0]) && Matches(tag, vs[0]) {
          FirstOpens(vs, tag);
        }
      case Many(schema, items) =>
        if WellFormed(schema) && TagsMatch(Expand(schema), vs) {
          TagsMatchLength(schema, vs);
          ListOpens(vs, schema);
          PayloadIsPacked(R.List(vs));
        } else if !WellFormed(schema) {
          MalformedFails(R.Payload(input).value, schema);
        }
    }
  }

  lemma RawAnswer(input: R.Input)
    ensures AllRaw(Pushed(input)) ==> R.Payload(input) == Ok(Joined(Pushed(input)))
    ensures input.Scalar? && input.v.Raw? ==> R.Payload(input) == Ok(input.v.bytes)
  {
    if AllRaw(Pushed(input)) {
      RawPacksAsIs(Pushed(input));
    }
    if input.Scalar? && input.v.Raw? {
      PackSingle(input.v);
      RawPacksAsIs([input.v]);
      assert [input.v][1..] == [] && Joined([input.v]) == input.v.bytes + [];
    }
  }

  lemma MalformedFails(payload: seq<byte>, schema: seq<Entry>)
    requires !WellFormed(schema)
    ensures R.OpenedMixed(payload, schema) == Err
  {
    hide Decode;
    DecodersAgree(payload, schema);
  }

  /** Values pushed come back in order, each to the pop that found it. */
  lemma TypedDelivery(cap: nat, cs: seq<RingCall>)
    ensures var s := Calls(cap, cs);
            && |s.replies| <= |s.accepted|
            && forall k :: 0 <= k < |s.replies| ==> Delivers(s.accepted[k], s.replies[k])
  {
    hide Calls, Delivers, Answers, R.Payload;
    CallsMatchUp(cap, cs);
    var s := Calls(cap, cs);
    forall k | 0 <= k < |s.replies|
      ensures Delivers(s.accepted[k], s.replies[k])
    {
      AnswerDelivers(s.accepted[k], s.replies[k]);
    }
  }

  predicate AllSendable(cap: nat, cs: seq<RingCall>) {
    forall k :: 0 <= k < |cs| && cs[k].Push? ==> R.Sendable(cap, cs[k].input)
  }

  lemma CallsNext(cap: nat, cs: seq<RingCall>, i: nat)
    requires i < |cs|
    ensures Calls(cap, cs[..i + 1]) == Call(cap, Calls(cap, cs[..i]), cs[i])
  {
    hide Call;
    assert cs[..i + 1][..i] == cs[..i];
  }

  /** End to end over the ring object. The methods of an empty ring, called in any order
      and number, wherever frames wrap, behave as `Calls` says: `accepted` are the arguments
      of the pushes that returned `True`, `replies` what the pops that found a message
      returned, and the `k`-th reply gives back the `k`-th accepted argument. */
  method Perform(ring: R.SpscRingBuffer, cs: seq<RingCall>)
    returns (accepted: seq<R.Input>, replies: seq<Reply>)
    requires ring.Valid() && ring.Contents() == [] && AllSendable(ring.capacity, cs)
    modifies ring, ring.data
    ensures ring.Valid()
    ensures Calls(ring.capacity, cs) == Session(ring.Contents(), accepted, replies)
    ensures |replies| <= |accepted|
    ensures forall k :: 0 <= k < |replies| ==> Delivers(accepted[k], replies[k])
  {
    hide Calls, Delivers, R.Payload, R.PushReply, R.AfterPush, R.Opened, R.OpenedMixed, R.Sendable;
    hide F.Stored, F.Stream, F.Off, F.Short, IsPowerOfTwo, Wrap, F.Parse, F.Blit;
    accepted, replies := [], [];
    CallsNone(ring.capacity);
    assert cs[..0] == [];
    for i := 0 to |cs|
      invariant ring.Valid()
      invariant Calls(ring.capacity, cs[..i]) == Session(ring.Contents(), accepted, replies)
    {
      CallsNext(ring.capacity, cs, i);
      FoundIsNoted(ring.Contents(), cs[i]);
      match cs[i] {
        case Push(input) =>
          var r := ring.Push(input);
          if r == Ok(true) {
            accepted := accepted + [input];
          }
        case Pop(tag) =>
          var r := ring.Pop(tag);
          if r != Ok(R.Nothing) {
            replies := replies + [Single(tag, r)];
          }
        case PopMixed(schema) =>
          var r := ring.PopMixed(schema);
          if r != Ok(None) {
            replies := replies + [Many(schema, r)];
          }
      }
    }
    assert cs[..|cs|] == cs;
    TypedDelivery(ring.capacity, cs);
  }

  /** A message found is never reported as nothing. */
  lemma FoundIsNoted(q: seq<F.Msg>, c: RingCall)
    ensures q != [] && c.Pop? ==> R.Opened(q[0], c.tag) != Ok(R.Nothing)
    ensures q != [] && c.PopMixed? ==> R.OpenedMixed(q[0], c.schema) != Ok(None)
  {
    hide UnpackOne, Decode;
  }

  lemma CallsNone(cap: nat)
    ensures Calls(cap, []) == Session([], [], [])
  {
  }

  lemma TagsMatchLength(schema: seq<Entry>, vs: seq<Value>)
    requires WellFormed(schema) && TagsMatch(Expand(schema), vs)
    ensures |vs| == |Expand(schema)|
  {
  }

  /** End to end between two processes: in every interleaving on the 64-bit machine, the
      `k`-th message consumed decodes to the values the `k`-th publishing push packed. */
  lemma ConcurrentTypedDelivery(mem: seq<byte>, acts: seq<P.Action>, k: nat, vs: seq<Value>, schema: seq<Entry>)
    requires IsPowerOfTwo(|mem|) && |mem| < TWO64 / 2 && I.AllFit(|mem|, acts)
    requires P.Run(P.Machine64, P.Init(mem), acts).Some?
    requires var s := P.Run(P.Machine64, P.Init(mem), acts).value;
             k < |s.got| && |s.got| <= |s.sent| && R.Payload(R.List(vs)) == Ok(s.sent[k])
    requires WellFormed(schema) && TagsMatch(Expand(schema), vs)
    ensures |vs| == |Expand(schema)|
    ensures R.OpenedMixed(P.Run(P.Machine64, P.Init(mem), acts).value.got[k], schema)
            == Ok(Some(Regroup(schema, vs)))
  {
    hide P.Run, P.Trace, R.Payload, R.OpenedMixed, Expand, Regroup, TagsMatch, IsPowerOfTwo, W.Replay;
    W.RunIsFifo(mem, acts);
    TagsMatchLength(schema, vs);
    ListOpens(vs, schema);
    var s := P.Run(P.Machine64, P.Init(mem), acts).value;
    assert s.got[k] == s.sent[k];
  }

  /** The same for a scalar popped with a matching tag. */
  lemma ConcurrentScalarDelivery(mem: seq<byte>, acts: seq<P.Action>, k: nat, v: Value, tag: Tag)
    requires IsPowerOfTwo(|mem|) && |mem| < TWO64 / 2 && I.AllFit(|mem|, acts)
    requires P.Run(P.Machine64, P.Init(mem), acts).Some?
    requires var s := P.Run(P.Machine64, P.Init(mem), acts).value;
             k < |s.got| && |s.got| <= |s.sent| && R.Payload(R.Scalar(v)) == Ok(s.sent[k])
    requires Lossless(v) && Matches(tag, v)
    ensures R.Opened(P.Run(P.Machine64, P.Init(mem), acts).value.got[k], Some(tag)) == Ok(R.Typed(v))
  {
    hide P.Run, P.Trace, R.Payload, R.Opened, IsPowerOfTwo, W.Replay;
    W.RunIsFifo(mem, acts);
    ScalarOpens(v, tag);
    var s := P.Run(P.Machine64, P.Init(mem), acts).value;
    assert s.got[k] == s.sent[k];
  }

  // ----------------------------------------------------- codec, view and lock

  /** The write of the lock protocol that a call through a view carries out, if any. */
  function WriteOf(s: V.Area, c: V.Call): Option<L.WriteOp> {
    match c
    case Write(v, offset) => WriteOfPayload(s, Packed([v]), offset)
    case WriteMixed(items, offset) => WriteOfPayload(s, Packed(Flatten(items)), offset)
    case Zero => Some(L.WriteOp(0, V.Zeros(|s.bytes|)))
    case _ => None
  }

  function WriteOfPayload(s: V.Area, payload: Result<seq<byte>>, offset: Option<nat>): Option<L.WriteOp> {
    if V.CanWrite(s, payload, offset) then Some(L.WriteOp(V.Position(s, offset), payload.value)) else None
  }

  lemma CallIsProtocolWrite(s: V.Area, c: V.Call)
    requires s.cursor <= |s.bytes| < TWO64 - 1 && !c.Others?
    ensures match WriteOf(s, c)
            case None => V.After(s, c).bytes == s.bytes
            case Some(op) => L.InArea(s.bytes, op) && V.After(s, c).bytes == L.ApplyWrite(s.bytes, op)
  {
    hide Packed, UnpackOne, Decode;
  }

  function WritesOf(s: V.Area, calls: seq<V.Call>): seq<L.WriteOp>
    requires s.cursor <= |s.bytes| < TWO64 - 1
    decreases |calls|
  {
    if calls == [] then []
    else
      var before := calls[..|calls| - 1];
      match WriteOf(V.AfterAll(s, before), calls[|calls| - 1])
      case None => WritesOf(s, before)
      case Some(op) => WritesOf(s, before) + [op]
  }

  /** What the calls through a view leave in the area is what the lock protocol's writes
      leave there: both levels mean the same by a write. */
  lemma {:induction false} CallsAreProtocolWrites(s: V.Area, calls: seq<V.Call>)
    requires s.cursor <= |s.bytes| < TWO64 - 1
    requires forall k :: 0 <= k < |calls| ==> !calls[k].Others?
    ensures V.AfterAll(s, calls).bytes == L.Snapshot(s.bytes, WritesOf(s, calls))
    ensures forall op :: op in WritesOf(s, calls) ==> L.InArea(s.bytes, op)
    decreases |calls|
  {
    hide WriteOf, V.After, L.ApplyWrite;
    if calls != [] {
      var before, c := calls[..|calls| - 1], calls[|calls| - 1];
      CallsAreProtocolWrites(s, before);
      var t := V.AfterAll(s, before);
      CallIsProtocolWrite(t, c);
      if WriteOf(t, c).Some? {
        L.SnapshotSnoc(s.bytes, WritesOf(s, before), WriteOf(t, c).value);
      }
    }
  }

  /** Typed reads under the lock. In every interleaving of any number of processes, take a
      finished read that copied the `n` bytes from `pos` on, at least the bytes the decoder
      reads. With `rest` for what lies from `pos` on, as far as the reader knows it, it
      decodes a value, or fails, exactly as `read` does on the data area after a prefix of
      the completed writes. */
  lemma TypedReadIsAtomic(s: L.State, acts: seq<L.Action>, k: nat, pos: nat, n: nat, rest: seq<byte>, tag: Tag)
    requires L.Start(s) && L.Run(s, acts).Some? && k < |L.Run(s, acts).value.seen|
    requires pos + n <= |s.init| && T.Copies(L.Run(s, acts).value.seen[k].probes, pos, n)
    requires |rest| == |s.init| - pos && rest[..n] == T.Values(L.Run(s, acts).value.seen[k].probes)
    requires BytesRead(rest, tag) <= n
    ensures var t := L.Run(s, acts).value;
            && t.seen[k].base <= |t.log|
            && V.ReadValue(V.Area(L.Snapshot(s.init, t.log[..t.seen[k].base]), pos), tag)
               == UnpackOne(rest, tag)
  {
    hide L.Run, L.Snapshot, UnpackOne, L.Start, T.Values, T.Copies, BytesRead;
    CopiedRest(s, acts, k, pos, n, rest);
    var t := L.Run(s, acts).value;
    var area, m := L.Snapshot(s.init, t.log[..t.seen[k].base])[pos..], BytesRead(rest, tag);
    SameRest(rest, area, m, n - m);
    BytesReadDecide(rest, area, tag);
  }

  /** The same for `read_mixed`, which decodes a whole schema under one lock. */
  lemma MixedReadIsAtomic(s: L.State, acts: seq<L.Action>, k: nat, pos: nat, n: nat, rest: seq<byte>, schema: seq<Entry>)
    requires L.Start(s) && L.Run(s, acts).Some? && k < |L.Run(s, acts).value.seen|
    requires pos + n <= |s.init| && pos < |s.init| && T.Copies(L.Run(s, acts).value.seen[k].probes, pos, n)
    requires |rest| == |s.init| - pos && rest[..n] == T.Values(L.Run(s, acts).value.seen[k].probes)
    requires SchemaBytesRead(rest, schema) <= n
    ensures var t := L.Run(s, acts).value;
            && t.seen[k].base <= |t.log|
            && V.ReadSchema(V.Area(L.Snapshot(s.init, t.log[..t.seen[k].base]), pos), schema, None)
               == Decode(rest, schema)
  {
    hide L.Run, L.Snapshot, Decode, L.Start, T.Values, T.Copies, SchemaBytesRead;
    CopiedRest(s, acts, k, pos, n, rest);
    var t := L.Run(s, acts).value;
    var area, m := L.Snapshot(s.init, t.log[..t.seen[k].base])[pos..], SchemaBytesRead(rest, schema);
    SameRest(rest, area, m, n - m);
    SchemaBytesReadDecide(rest, area, schema);
  }

  lemma CopiedRest(s: L.State, acts: seq<L.Action>, k: nat, pos: nat, n: nat, rest: seq<byte>)
    requires L.Start(s) && L.Run(s, acts).Some? && k < |L.Run(s, acts).value.seen|
    requires pos + n <= |s.init| && T.Copies(L.Run(s, acts).value.seen[k].probes, pos, n)
    requires |rest| == |s.init| - pos && rest[..n] == T.Values(L.Run(s, acts).value.seen[k].probes)
    ensures var t := L.Run(s, acts).value;
            && t.seen[k].base <= |t.log|
            && L.Snapshot(s.init, t.log[..t.seen[k].base])[pos..][..n] == rest[..n]
  {
    hide L.Run, L.Snapshot, L.Start, T.Values, T.Copies;
    T.CopiedRange(s, acts, k, pos, n);
    var t := L.Run(s, acts).value;
    var snap := L.Snapshot(s.init, t.log[..t.seen[k].base]);
    assert snap[pos..][..n] == snap[pos..pos + n];
  }
}
