/** The ring object and the ring protocol are the same ring: a call of the object is the
    run of one side of the protocol on its own. */
module RingObject {
  import opened Words
  import opened Wrappers
  import opened Frames
  import opened RingProtocol
  import opened RingInvariant
  import opened RingWrap
  import opened RingProgress
  import R = Ring

  /** The object holds what the protocol's memory and logs hold. */
  ghost predicate Mirrors(ring: R.SpscRingBuffer, s: State)
    reads ring, ring.data
  {
    && ring.Valid() && Inv(s)
    && s.cap == ring.capacity && s.mem == ring.data[..]
    && s.sent == ring.sent && |s.got| == ring.taken
  }

  /** So its header holds the protocol's counters, taken modulo 2^64. */
  lemma MirroredCounters(ring: R.SpscRingBuffer, s: State)
    requires Mirrors(ring, s)
    ensures ring.head == Wrap(Head(s)) && ring.tail == Wrap(Tail(s))
    ensures ring.Contents() == s.sent[|s.got|..]
  {
    hide Off, Stream, Stored, IsPowerOfTwo, Frame, Cell, Wrap, ProdOk, ConsOk;
    LogsFacts(s);
  }

  /** What the protocol calls the reply of a `push` whose argument was packed. */
  function Reply(r: Result<bool>): PReply {
    match r
    case Ok(ok) => Pushed(ok)
    case Err => TooLarge
  }

  /** A message too long for the ring is rejected at once. */
  lemma PushTooLarge(s: State, m: Msg)
    requires Inv(s) && s.prod.PIdle? && 4 + |m| > s.cap
    ensures Run(Ideal, s, [Push(m)]) == Some(s.(preplies := s.preplies + [TooLarge]))
    ensures Inv(s.(preplies := s.preplies + [TooLarge]))
  {
    hide Run, Logs, Views, ProdOk, ConsOk, Stored, IsPowerOfTwo;
    RunOne(s, Push(m));
    StepInv(s, Push(m));
  }

  /** The producer's solo run of a `push`: too large, accepted or refused, by the size of
      the message and of those queued. */
  lemma SoloPush(s: State, m: Msg) returns (acts: seq<Action>, t: State)
    requires Inv(s) && s.prod.PIdle? && PrefixHolds(s.cap, |m|)
    ensures Run(Ideal, s, acts) == Some(t) && Inv(t) && AllFit(s.cap, acts)
    ensures t.prod == PIdle && t.cons == s.cons && t.got == s.got && t.creplies == s.creplies
    ensures var used := R.FrameBytes(s.sent[|s.got|..]);
            if 4 + |m| > s.cap
            then t.preplies == s.preplies + [TooLarge] && t.sent == s.sent && t.mem == s.mem
            else if used + 4 + |m| > s.cap
            then t.preplies == s.preplies + [Pushed(false)] && t.sent == s.sent && t.mem == s.mem
            else
              && t.preplies == s.preplies + [Pushed(true)] && t.sent == s.sent + [m]
              && t.mem == Blit(s.mem, s.cap, Tail(s), Frame(m))
  {
    hide Run, Stream, Stored, IsPowerOfTwo, Blit, Frame, Views, ProdOk, ConsOk;
    R.FrameBytesOfStream(s.sent[|s.got|..]);
    TailIsLength(s);
    if 4 + |m| > s.cap {
      acts, t := [Push(m)], s.(preplies := s.preplies + [TooLarge]);
      PushTooLarge(s, m);
    } else if R.FrameBytes(s.sent[|s.got|..]) + 4 + |m| > s.cap {
      acts, t := PushRefused(s, m);
    } else {
      acts, t := PushCompletes(s, m);
    }
  }

  lemma TailIsLength(s: State)
    requires Inv(s)
    ensures Tail(s) == |Stream(s.sent)|
  {
    hide Off, Stream, Stored, IsPowerOfTwo, ProdOk, ConsOk;
    LogsFacts(s);
  }

  /** A call of the object's `push` is the producer's solo run, on the ideal and on the
      64-bit machine: the same reply, the same bytes in memory, the same queue. */
  method PushIsSoloRun(ring: R.SpscRingBuffer, input: R.Input, ghost s: State)
    returns (r: Result<bool>, ghost acts: seq<Action>, ghost t: State)
    requires Mirrors(ring, s) && s.prod.PIdle? && R.Sendable(ring.capacity, input)
    modifies ring, ring.data
    ensures Mirrors(ring, t) && Run(Ideal, s, acts) == Some(t)
    ensures WF(Wrapped(s)) && Run(Machine64, Wrapped(s), acts) == Some(Wrapped(t))
    ensures t.prod == PIdle && t.cons == s.cons && t.creplies == s.creplies
    ensures R.Payload(input).Err? ==> r == Err && t == s
    ensures R.Payload(input).Ok? ==> t.preplies == s.preplies + [Reply(r)]
  {
    hide Run, Stream, Stored, IsPowerOfTwo, Blit, Frame, Logs, Views, ProdOk, ConsOk, Wrap, Wrapped;
    hide R.Payload, R.PushReply, Off, Parse, R.FrameBytes, PrefixHolds;
    MirroredCounters(ring, s);
    if R.Payload(input).Ok? {
      acts, t := SoloPush(s, R.Payload(input).value);
      BlitFromWrapped(s.mem, s.cap, Tail(s), Frame(R.Payload(input).value));
    } else {
      acts, t := [], s;
      RunNone(s);
    }
    RunRefinesFrom(s, acts);
    r := ring.Push(input);
  }

  /** The consumer's solo run of a `pop`. */
  lemma SoloPop(s: State) returns (acts: seq<Action>, t: State)
    requires Inv(s) && s.cons.CIdle?
    ensures Run(Ideal, s, acts) == Some(t) && Inv(t) && AllFit(s.cap, acts)
    ensures t.cons == CIdle && t.prod == s.prod && t.sent == s.sent && t.mem == s.mem && t.preplies == s.preplies
    ensures if |s.got| == |s.sent|
            then t.got == s.got && t.creplies == s.creplies + [Popped(None)]
            else t.got == s.sent[..|s.got| + 1] && t.creplies == s.creplies + [Popped(Some(s.sent[|s.got|]))]
  {
    hide Run, Stream, Stored, IsPowerOfTwo, Views, ProdOk, ConsOk;
    if |s.got| == |s.sent| {
      acts, t := PopEmpty(s);
    } else {
      acts, t := PopCompletes(s);
    }
  }

  /** A call of the part that `pop` and `pop_mixed` share is the consumer's solo run. */
  method PopIsSoloRun(ring: R.SpscRingBuffer, ghost s: State)
    returns (r: Option<Msg>, ghost acts: seq<Action>, ghost t: State)
    requires Mirrors(ring, s) && s.cons.CIdle?
    modifies ring`head, ring`taken
    ensures Mirrors(ring, t) && Run(Ideal, s, acts) == Some(t)
    ensures WF(Wrapped(s)) && Run(Machine64, Wrapped(s), acts) == Some(Wrapped(t))
    ensures t.cons == CIdle && t.prod == s.prod && t.preplies == s.preplies
    ensures t.creplies == s.creplies + [Popped(r)]
  {
    hide Run, Stream, Stored, IsPowerOfTwo, Frame, Views, ProdOk, ConsOk, Wrap, Wrapped, Off, Parse;
    MirroredCounters(ring, s);
    acts, t := SoloPop(s);
    RunRefinesFrom(s, acts);
    r := ring.Take();
  }
}
