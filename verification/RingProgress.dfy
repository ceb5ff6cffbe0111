/** Retry loops make progress: attempts that can succeed do, the two sides are never
    both stuck, and a client that keeps retrying delivers every message. */
module RingProgress {
  import opened Words
  import opened Endian
  import opened Wrappers
  import opened Frames
  import opened RingProtocol
  import opened RingInvariant
  import opened RingWrap

  // ------------------------------------------------------- solo completion

  lemma RunOne(s: State, a: Action)
    requires WF(s) && Enabled(s, a)
    ensures Run(Ideal, s, [a]) == Some(Next(Ideal, s, a))
  {
    hide Enabled, Next, WF;
    assert Run(Ideal, s, []) == Some(s);
    assert [a][..0] == [];
  }

  lemma RunAfter(s: State, a: Action, acts: seq<Action>)
    requires WF(s) && Enabled(s, a)
    ensures Run(Ideal, s, [a] + acts) == Run(Ideal, Next(Ideal, s, a), acts)
  {
    RunOne(s, a);
    RunConcat(Ideal, s, [a], acts);
  }

  lemma WriteOne(s: State)
    requires Inv(s) && s.prod.PWrite?
    ensures s.prod.n <= 4 + |s.prod.m|
    ensures s.prod.n < 4 + |s.prod.m| ==>
              var PWrite(m, tail, n) := s.prod;
              && Enabled(s, WriteByte)
              && Inv(Next(Ideal, s, WriteByte))
              && Next(Ideal, s, WriteByte)
                 == s.(mem := s.mem[Cell(tail + n, s.cap) := Frame(m)[n]], prod := PWrite(m, tail, n + 1))
  {
    hide Off, Stream, IsPowerOfTwo, Cell, Stored, Views, Logs, ConsOk, Frame;
    if s.prod.n < 4 + |s.prod.m| {
      StepInv(s, WriteByte);
      CellOfFrame(s.cap, s.prod.tail, s.prod.n);
    }
  }

  /** The byte writes of a started push, run without interruption. */
  lemma {:induction false} WritesComplete(s: State) returns (acts: seq<Action>, t: State)
    requires Inv(s) && s.prod.PWrite?
    ensures Run(Ideal, s, acts) == Some(t) && Inv(t)
    ensures t == s.(mem := t.mem, prod := s.prod.(n := 4 + |s.prod.m|))
    ensures s.prod.n <= 4 + |s.prod.m|
    ensures t.mem == Blit(s.mem, s.cap, s.prod.tail + s.prod.n, Frame(s.prod.m)[s.prod.n..])
    ensures forall i :: 0 <= i < |acts| ==> acts[i] == WriteByte
    decreases 4 + |s.prod.m| - s.prod.n
  {
    hide Cell, Run, Next, Enabled, Views, Logs, ProdOk, ConsOk, Stored, IsPowerOfTwo, Frame;
    WriteOne(s);
    var PWrite(m, tail, n) := s.prod;
    if n == 4 + |m| {
      acts, t := [], s;
      RunNone(s);
      assert Frame(m)[n..] == [];
    } else {
      var rest;
      rest, t := WritesComplete(Next(Ideal, s, WriteByte));
      acts := [WriteByte] + rest;
      RunAfter(s, WriteByte, rest);
      BlitFirst(s.mem, s.cap, tail + n, Frame(m)[n..]);
      assert Frame(m)[n..][1..] == Frame(m)[n + 1..];
    }
  }

  lemma RunNone(s: State)
    requires WF(s)
    ensures Run(Ideal, s, []) == Some(s)
  {
  }

  lemma {:induction false} BlitFirst(mem: seq<byte>, cap: nat, pos: nat, src: seq<byte>)
    requires IsPowerOfTwo(cap) && |mem| == cap && src != []
    ensures Blit(mem, cap, pos, src) == Blit(mem[Cell(pos, cap) := src[0]], cap, pos + 1, src[1..])
    decreases |src|
  {
    hide Cell, IsPowerOfTwo;
    var n := |src| - 1;
    if n > 0 {
      BlitFirst(mem, cap, pos, src[..n]);
      assert src[1..][..n - 1] == src[..n][1..];
    } else {
      assert src[..0] == [] && src[1..] == [];
    }
  }

  /** One uninterrupted call of `push(m)`, with a fresh load of `head`. */
  predicate PushAttempt(s: State, m: Msg, acts: seq<Action>) {
    && |acts| >= 2 && |s.heads| > 0
    && acts[0] == Push(m) && acts[1] == LoadHead(|s.heads| - 1)
    && forall i :: 1 <= i < |acts| ==> !acts[i].Push?
  }

  /** One uninterrupted call of `pop`, with a fresh load of `tail`. */
  predicate PopAttempt(s: State, acts: seq<Action>) {
    && |acts| >= 2 && |s.tails| > 0
    && acts[0] == Pop && acts[1] == AcquireTail(|s.tails| - 1)
    && forall i :: 0 <= i < |acts| ==> !acts[i].Push?
  }

  /** A push of a message that fits, run on its own with a fresh load, is accepted: it
      copies the frame into the ring at the tail and publishes it. */
  lemma PushCompletes(s: State, m: Msg) returns (acts: seq<Action>, t: State)
    requires Inv(s) && s.prod.PIdle? && Frameable(s.cap, m)
    requires |Stream(s.sent[|s.got|..])| + 4 + |m| <= s.cap
    ensures Run(Ideal, s, acts) == Some(t) && Inv(t)
    ensures t.prod == PIdle && t.cons == s.cons && t.got == s.got && t.creplies == s.creplies
    ensures t.cSeen == s.cSeen
    ensures t.sent == s.sent + [m] && t.preplies == s.preplies + [Pushed(true)]
    ensures t.mem == Blit(s.mem, s.cap, T(s), Frame(m))
    ensures PushAttempt(s, m, acts)
  {
    hide Off, Stream, IsPowerOfTwo, Cell, Stored, Run, Frame, Blit, ConsOk;
    LogsFacts(s);
    StreamRest(s.sent, |s.got|);
    var s1 := Next(Ideal, s, Push(m));
    StepInv(s, Push(m));
    var k := |s.heads| - 1;
    var s2 := Next(Ideal, s1, LoadHead(k));
    StepInv(s1, LoadHead(k));
    var s3 := Next(Ideal, s2, LoadTail);
    StepInv(s2, LoadTail);
    var writes, s4 := WritesComplete(s3);
    assert Frame(m)[0..] == Frame(m);
    t := Next(Ideal, s4, StoreTail);
    StepInv(s4, StoreTail);
    acts := [Push(m)] + ([LoadHead(k)] + ([LoadTail] + (writes + [StoreTail])));
    RunAfter(s, Push(m), [LoadHead(k)] + ([LoadTail] + (writes + [StoreTail])));
    RunAfter(s1, LoadHead(k), [LoadTail] + (writes + [StoreTail]));
    RunAfter(s2, LoadTail, writes + [StoreTail]);
    RunConcat(Ideal, s3, writes, [StoreTail]);
    RunOne(s4, StoreTail);
  }

  lemma {:induction false} ReadsComplete(s: State) returns (acts: seq<Action>, t: State)
    requires Inv(s) && s.cons.CRead?
    ensures Run(Ideal, s, acts) == Some(t) && Inv(t)
    ensures t == s.(cons := t.cons) && t.cons.CRead? && t.cons.buf == Frame(s.sent[|s.got|])
    ensures Enabled(t, StoreHead) && t.cons.buf[4..] == s.sent[|s.got|]
    ensures forall i :: 0 <= i < |acts| ==> acts[i] == ReadByte
    decreases |Frame(s.sent[|s.got|])| - |s.cons.buf|
  {
    hide Off, Stream, IsPowerOfTwo, Cell, Stored, Run, Frame, ProdOk, Wanted, FrameCell;
    var m, buf := s.sent[|s.got|], s.cons.buf;
    ReadLength(m, buf);
    if |buf| == Wanted(buf) && |buf| >= 4 {
      acts, t := [], s;
      RunNone(s);
    } else {
      StepInv(s, ReadByte);
      var rest;
      rest, t := ReadsComplete(Next(Ideal, s, ReadByte));
      acts := [ReadByte] + rest;
      RunAfter(s, ReadByte, rest);
    }
  }

  /** A pop from a non-empty queue, run on its own with a fresh load, returns the oldest
      message. */
  lemma PopCompletes(s: State) returns (acts: seq<Action>, t: State)
    requires Inv(s) && s.cons.CIdle? && |s.got| < |s.sent|
    ensures Run(Ideal, s, acts) == Some(t) && Inv(t)
    ensures t.cons == CIdle && t.prod == s.prod && t.sent == s.sent && t.mem == s.mem && t.preplies == s.preplies
    ensures t.pSeen == s.pSeen
    ensures t.got == s.got + [s.sent[|s.got|]]
    ensures t.creplies == s.creplies + [Popped(Some(s.sent[|s.got|]))]
    ensures PopAttempt(s, acts)
  {
    hide Off, Stream, IsPowerOfTwo, Cell, Stored, Run, Frame, ProdOk, Wanted, FrameCell;
    LogsFacts(s);
    var s1 := Next(Ideal, s, Pop);
    StepInv(s, Pop);
    var k := |s.tails| - 1;
    var s2 := Next(Ideal, s1, AcquireTail(k));
    StepInv(s1, AcquireTail(k));
    var steps, s3 := ReadsComplete(s2);
    t := Next(Ideal, s3, StoreHead);
    StepInv(s3, StoreHead);
    acts := [Pop] + ([AcquireTail(k)] + (steps + [StoreHead]));
    RunAfter(s, Pop, [AcquireTail(k)] + (steps + [StoreHead]));
    RunAfter(s1, AcquireTail(k), steps + [StoreHead]);
    RunConcat(Ideal, s2, steps, [StoreHead]);
    RunOne(s3, StoreHead);
  }

  /** A push that does not fit, run on its own with a fresh load, returns `False`. */
  lemma PushRefused(s: State, m: Msg) returns (acts: seq<Action>, t: State)
    requires Inv(s) && s.prod.PIdle? && Frameable(s.cap, m)
    requires |Stream(s.sent[|s.got|..])| + 4 + |m| > s.cap
    ensures Run(Ideal, s, acts) == Some(t) && Inv(t) && PushAttempt(s, m, acts)
    ensures t == s.(pSeen := t.pSeen, preplies := s.preplies + [Pushed(false)])
  {
    hide Off, Stream, IsPowerOfTwo, Cell, Stored, Run, Frame, ConsOk;
    LogsFacts(s);
    StreamRest(s.sent, |s.got|);
    var s1 := Next(Ideal, s, Push(m));
    StepInv(s, Push(m));
    var k := |s.heads| - 1;
    var s2 := Next(Ideal, s1, LoadHead(k));
    StepInv(s1, LoadHead(k));
    t := Next(Ideal, s2, LoadTail);
    StepInv(s2, LoadTail);
    acts := [Push(m)] + ([LoadHead(k)] + [LoadTail]);
    RunAfter(s, Push(m), [LoadHead(k)] + [LoadTail]);
    RunAfter(s1, LoadHead(k), [LoadTail]);
    RunOne(s2, LoadTail);
  }

  /** A pop from an empty queue, run on its own with a fresh load, returns `None`. */
  lemma PopEmpty(s: State) returns (acts: seq<Action>, t: State)
    requires Inv(s) && s.cons.CIdle? && |s.got| == |s.sent|
    ensures Run(Ideal, s, acts) == Some(t) && Inv(t) && PopAttempt(s, acts)
    ensures t == s.(cSeen := t.cSeen, creplies := s.creplies + [Popped(None)])
  {
    hide Off, Stream, IsPowerOfTwo, Cell, Stored, Run, Frame, ProdOk;
    LogsFacts(s);
    var s1 := Next(Ideal, s, Pop);
    StepInv(s, Pop);
    var k := |s.tails| - 1;
    t := Next(Ideal, s1, AcquireTail(k));
    StepInv(s1, AcquireTail(k));
    acts := [Pop] + [AcquireTail(k)];
    RunAfter(s, Pop, [AcquireTail(k)]);
    RunOne(s1, AcquireTail(k));
  }

  /** The two sides are never both stuck. Of a message that can fit the empty ring, a
      push that is refused on a fresh load leaves at least one complete message to pop. */
  lemma RefusedMeansPoppable(s: State, m: Msg)
    requires Inv(s) && Frameable(s.cap, m)
    requires |Stream(s.sent[|s.got|..])| + 4 + |m| > s.cap
    ensures |s.got| < |s.sent|
    ensures s.cons.CIdle? ==>
              exists acts, t :: Run(Ideal, s, acts) == Some(t) && t.got == s.got + [s.sent[|s.got|]]
  {
    hide Stream, Run, IsPowerOfTwo, Views, ProdOk, ConsOk, Stored, Short;
    StreamNone();
    assert s.sent[|s.sent|..] == [];
    if |s.got| < |s.sent| && s.cons.CIdle? {
      var acts, t := PopCompletes(s);
    }
  }

  /** What a query of the producer reads when its loads follow each other, on the 64-bit
      machine: `used` is the bytes of the messages it does not know to be consumed, and
      the counters are equal exactly when there are none. With the newest `head`, `k` is
      the number of messages consumed. */
  lemma ProducerQuery(s: State, k: nat) returns (head: nat, tail: nat)
    requires Inv(s) && s.cap < TWO64 / 2 && s.prod.PIdle? && s.pSeen <= k <= |s.got|
    ensures WF(Wrapped(s)) && Run(Machine64, Wrapped(s), [PSeeHead(k), PSeeTail]).Some?
    ensures Run(Machine64, Wrapped(s), [PSeeHead(k), PSeeTail]).value.preplies
            == Wrapped(s).preplies + [PSaw(head, tail)]
    ensures Minus(Machine64, tail, head) == |Stream(s.sent[k..])| <= s.cap
    ensures head == tail <==> s.sent[k..] == []
  {
    hide Off, Stream, IsPowerOfTwo, Frame, Cell, Stored, Wrap, Run, Wrapped, ConsOk;
    LogsFacts(s);
    var s1 := Next(Ideal, s, PSeeHead(k));
    var t := Next(Ideal, s1, PSeeTail);
    RunAfter(s, PSeeHead(k), [PSeeTail]);
    RunOne(s1, PSeeTail);
    assert [PSeeHead(k)] + [PSeeTail] == [PSeeHead(k), PSeeTail];
    RunRefinesFrom(s, [PSeeHead(k), PSeeTail]);
    head, tail := Wrap(s.heads[k]), Wrap(Tail(s));
    WrappedReplies(s, t, s.heads[k], Tail(s));
    QueueBytes(s, k, |s.sent|);
    OffMonotone(s.sent, s.pSeen, k);
    assert s.sent[k..|s.sent|] == s.sent[k..];
    WrapDifference(Tail(s), s.heads[k]);
  }

  /** And what a query of the consumer reads: the bytes of the messages it knows to be
      published and has not consumed. */
  lemma ConsumerQuery(s: State, k: nat) returns (head: nat, tail: nat)
    requires Inv(s) && s.cap < TWO64 / 2 && s.cons.CIdle? && s.cSeen <= k <= |s.sent|
    ensures WF(Wrapped(s)) && Run(Machine64, Wrapped(s), [CSeeHead, CSeeTail(k)]).Some?
    ensures Run(Machine64, Wrapped(s), [CSeeHead, CSeeTail(k)]).value.creplies
            == Wrapped(s).creplies + [CSaw(head, tail)]
    ensures Minus(Machine64, tail, head) == |Stream(s.sent[|s.got|..k])| <= s.cap
    ensures head == tail <==> |s.got| == k
  {
    hide Off, Stream, IsPowerOfTwo, Frame, Cell, Stored, Wrap, Run, Wrapped, ProdOk;
    LogsFacts(s);
    var s1 := Next(Ideal, s, CSeeHead);
    var t := Next(Ideal, s1, CSeeTail(k));
    RunAfter(s, CSeeHead, [CSeeTail(k)]);
    RunOne(s1, CSeeTail(k));
    assert [CSeeHead] + [CSeeTail(k)] == [CSeeHead, CSeeTail(k)];
    RunRefinesFrom(s, [CSeeHead, CSeeTail(k)]);
    head, tail := Wrap(Head(s)), Wrap(s.tails[k]);
    WrappedReplies(s, t, Head(s), s.tails[k]);
    QueueBytes(s, |s.got|, k);
    OffMonotone(s.sent, k, |s.sent|);
    WrapDifference(s.tails[k], Head(s));
  }

  lemma WrappedReplies(s: State, t: State, h: nat, e: nat)
    ensures t.preplies == s.preplies + [PSaw(h, e)] ==>
              Wrapped(t).preplies == Wrapped(s).preplies + [PSaw(Wrap(h), Wrap(e))]
    ensures t.creplies == s.creplies + [CSaw(h, e)] ==>
              Wrapped(t).creplies == Wrapped(s).creplies + [CSaw(Wrap(h), Wrap(e))]
  {
    hide Wrap;
  }

  /** Two message boundaries are as far apart as the frames between them are long. */
  lemma QueueBytes(s: State, i: nat, j: nat)
    requires i <= j <= |s.sent|
    ensures Off(s.sent, j) - Off(s.sent, i) == |Stream(s.sent[i..j])|
    ensures Off(s.sent, j) == Off(s.sent, i) <==> s.sent[i..j] == []
  {
    assert s.sent[..j] == s.sent[..i] + s.sent[i..j];
    StreamConcat(s.sent[..i], s.sent[i..j]);
    OffMonotone(s.sent, i, j);
  }

  /** A stale load can refuse a message that fits: after one message has come and gone,
      a producer that still sees the old `head` is told that the ring is full. */
  lemma StalePushRefused(mem: seq<byte>) returns (acts: seq<Action>, t: State)
    requires IsPowerOfTwo(|mem|) && 4 <= |mem| <= TWO32
    ensures Run(Ideal, Init(mem), acts) == Some(t) && Inv(t)
    ensures t.got == t.sent && t.preplies == [Pushed(true), Pushed(false)]
    ensures |t.heads| == 2 && t.pSeen == 0
  {
    hide Run, Stream, IsPowerOfTwo, Stored, Blit, Frame, ProdOk, ConsOk;
    InitInv(mem);
    StreamNone();
    assert Init(mem).sent[0..] == [];
    var m: Msg := mem[4..];
    var a, s1 := PushCompletes(Init(mem), m);
    var b, s2 := PopCompletes(s1);
    StreamSnoc([], m);
    LogsFacts(s2);
    var s3 := Next(Ideal, s2, Push(m));
    var s4 := Next(Ideal, s3, LoadHead(0));
    t := Next(Ideal, s4, LoadTail);
    StepInv(s2, Push(m));
    StepInv(s3, LoadHead(0));
    StepInv(s4, LoadTail);
    RunAfter(s2, Push(m), [LoadHead(0)] + [LoadTail]);
    RunAfter(s3, LoadHead(0), [LoadTail]);
    RunOne(s4, LoadTail);
    var c := [Push(m)] + ([LoadHead(0)] + [LoadTail]);
    acts := a + b + c;
    RunConcat(Ideal, Init(mem), a, b);
    RunConcat(Ideal, Init(mem), a + b, c);
  }

  /** And a stale load can hide a message: the consumer finds nothing although one is
      published. */
  lemma StalePopFindsNothing(mem: seq<byte>, m: Msg) returns (acts: seq<Action>, t: State)
    requires IsPowerOfTwo(|mem|) && Frameable(|mem|, m)
    ensures Run(Ideal, Init(mem), acts) == Some(t) && Inv(t)
    ensures t.sent == [m] && t.got == [] && t.creplies == [Popped(None)]
  {
    hide Run, Stream, IsPowerOfTwo, Stored, Blit, Frame, ProdOk, ConsOk;
    InitInv(mem);
    StreamNone();
    assert Init(mem).sent[0..] == [];
    var a, s1 := PushCompletes(Init(mem), m);
    assert s1.sent == [] + [m] == [m];
    LogsFacts(s1);
    var s2 := Next(Ideal, s1, Pop);
    t := Next(Ideal, s2, AcquireTail(0));
    StepInv(s1, Pop);
    StepInv(s2, AcquireTail(0));
    RunAfter(s1, Pop, [AcquireTail(0)]);
    RunOne(s2, AcquireTail(0));
    acts := a + ([Pop] + [AcquireTail(0)]);
    RunConcat(Ideal, Init(mem), a, [Pop] + [AcquireTail(0)]);
  }

  /** A third observer really can see more than `cap`: with the `head` it loads before a
      pop and the `tail` it loads after the next push, two ringfuls. */
  lemma ThirdObserverMayExceed(mem: seq<byte>) returns (acts: seq<Action>, t: State)
    requires IsPowerOfTwo(|mem|) && 4 <= |mem| <= TWO32
    ensures Run(Ideal, Init(mem), acts) == Some(t) && Inv(t)
    ensures |t.tails| == 3 && |t.heads| == 2 && t.tails[2] - t.heads[0] == 2 * |mem|
  {
    hide Run, Stream, IsPowerOfTwo, Stored, Blit, Frame, ProdOk, ConsOk;
    InitInv(mem);
    StreamNone();
    var m: Msg := mem[4..];
    assert Init(mem).sent[0..] == [];
    var a, s1 := PushCompletes(Init(mem), m);
    assert s1.sent == [] + [m] == [m];
    StreamSnoc([], m);
    var b, s2 := PopCompletes(s1);
    assert s2.sent[1..] == [];
    var c;
    c, t := PushCompletes(s2, m);
    StreamSnoc([m], m);
    OffOfPrefix(t.sent, m, 0);
    assert t.sent[..0] == [];
    acts := a + b + c;
    RunConcat(Ideal, Init(mem), a, b);
    RunConcat(Ideal, Init(mem), a + b, c);
  }

  /** The order of the two loads matters. An observer that loads `tail` first, from the
      fresh ring, and then `head`, after one message has passed, gets a wrapped difference
      of 2^64 less the frame: `used()` would underflow. */
  lemma TailFirstUnderflows(mem: seq<byte>, m: Msg) returns (acts: seq<Action>, t: State)
    requires IsPowerOfTwo(|mem|) && Frameable(|mem|, m) && |mem| < TWO64 / 2
    ensures Run(Ideal, Init(mem), acts) == Some(t) && Inv(t)
    ensures Minus(Machine64, Wrap(Tail(Init(mem))), Wrap(Head(t))) == TWO64 - (4 + |m|) > |mem|
  {
    hide Run, Stream, IsPowerOfTwo, Stored, Blit, Frame, ProdOk, ConsOk;
    InitInv(mem);
    StreamNone();
    assert Init(mem).sent[0..] == [];
    var a, s1 := PushCompletes(Init(mem), m);
    assert s1.sent == [] + [m] == [m];
    var b, s2 := PopCompletes(s1);
    t := s2;
    StreamSnoc([], m);
    LogsFacts(t);
    assert t.sent[..1] == [m];
    acts := a + b;
    RunConcat(Ideal, Init(mem), a, b);
  }

  // ------------------------------------------------------------- delivery

  /** The producer has passed its check and is at most on its way to publishing. */
  predicate Committed(s: State)
    requires |s.tails| > 0
  {
    s.prod.PWrite? || (s.prod.PHead? && !Refused(Ideal, s.cap, Tail(s), s.prod.head, s.prod.m))
  }

  /** One step undoes nothing; a side in the middle of a transfer ends it only by
      publishing. */
  lemma StepGrows(s: State, a: Action)
    requires WF(s) && Enabled(s, a)
    ensures var s' := Next(Ideal, s, a);
            && s.sent <= s'.sent && |s.got| <= |s'.got|
            && (s.cons.CRead? ==> s'.cons.CRead? || |s'.got| > |s.got|)
            && (Committed(s) ==> Committed(s') || |s'.sent| > |s.sent|)
  {
    hide IsPowerOfTwo, FrameCell, Frame, Wanted, Refused;
  }

  /** Along a run nothing sent or consumed is undone. A consumer that has found a message
      is idle again only after consuming it, and a producer whose message fits only after
      publishing it. */
  lemma {:induction false} RunGrows(s: State, acts: seq<Action>)
    requires Inv(s) && AllFit(s.cap, acts)
    ensures match Run(Ideal, s, acts)
            case None => true
            case Some(t) =>
              && Inv(t) && s.sent <= t.sent && |s.got| <= |t.got|
              && (s.cons.CRead? ==> t.cons.CRead? || |t.got| > |s.got|)
              && (Committed(s) ==> Committed(t) || |t.sent| > |s.sent|)
    decreases |acts|
  {
    hide Logs, Views, ProdOk, ConsOk, Stored, IsPowerOfTwo, Next, Enabled, Committed;
    if acts != [] {
      var before, a := acts[..|acts| - 1], acts[|acts| - 1];
      RunGrows(s, before);
      match Run(Ideal, s, before)
      case None =>
      case Some(t) =>
        if Enabled(t, a) {
          StepInv(t, a);
          StepGrows(t, a);
        }
    }
  }

  /** The state a run is in after its first `i` actions. */
  function At(s: State, acts: seq<Action>, i: nat): (r: Option<State>)
    requires WF(s) && i <= |acts|
    ensures r.Some? ==> WF(r.value) && r.value.cap == s.cap
  {
    Run(Ideal, s, acts[..i])
  }

  lemma SplitRun(s: State, acts: seq<Action>, i: nat, j: nat)
    requires WF(s) && i <= j <= |acts| && Run(Ideal, s, acts).Some?
    ensures At(s, acts, i).Some? && At(s, acts, j).Some?
    ensures At(s, acts, j) == Run(Ideal, At(s, acts, i).value, acts[i..j])
    ensures Run(Ideal, s, acts) == Run(Ideal, At(s, acts, j).value, acts[j..])
  {
    hide Run, WF;
    assert acts == acts[..j] + acts[j..];
    assert acts[..j] == acts[..i] + acts[i..j];
    RunConcat(Ideal, s, acts[..j], acts[j..]);
    RunConcat(Ideal, s, acts[..i], acts[i..j]);
  }

  lemma StepAt(s: State, acts: seq<Action>, i: nat)
    requires WF(s) && i < |acts| && Run(Ideal, s, acts).Some?
    ensures At(s, acts, i).Some? && Enabled(At(s, acts, i).value, acts[i])
    ensures At(s, acts, i + 1) == Some(Next(Ideal, At(s, acts, i).value, acts[i]))
  {
    hide Enabled, Next, WF;
    SplitRun(s, acts, i + 1, i + 1);
    assert acts[..i + 1][..i] == acts[..i];
  }

  /** In this stretch of a run the consumer loads a fresh `tail` and later is idle. */
  ghost predicate ServesConsumer(s: State, acts: seq<Action>)
    requires WF(s) && Run(Ideal, s, acts).Some?
  {
    exists i, j :: 0 <= i < j <= |acts| && acts[i].AcquireTail?
      && At(s, acts, i).Some? && acts[i].k == |At(s, acts, i).value.tails| - 1
      && At(s, acts, j).Some? && At(s, acts, j).value.cons.CIdle?
  }

  /** In this stretch the producer loads a fresh `head` and later is idle. */
  ghost predicate ServesProducer(s: State, acts: seq<Action>)
    requires WF(s) && Run(Ideal, s, acts).Some?
  {
    exists i, j :: 0 <= i < j <= |acts| && acts[i].LoadHead?
      && At(s, acts, i).Some? && acts[i].k == |At(s, acts, i).value.heads| - 1
      && At(s, acts, j).Some? && At(s, acts, j).value.prod.PIdle?
  }

  /** What a fresh load decides. */
  lemma FreshLoads(s: State, a: Action)
    requires Inv(s) && Enabled(s, a) && Fits(s.cap, a)
    ensures var s' := Next(Ideal, s, a);
            && (a == AcquireTail(|s.tails| - 1) && |s.got| < |s.sent| ==> s'.cons.CRead?)
            && (a == LoadHead(|s.heads| - 1) && |s.got| == |s.sent| ==> Committed(s'))
  {
    hide Off, Stream, IsPowerOfTwo, Frame, Cell, FrameCell, Stored, Wanted;
    LogsFacts(s);
  }

  /** The logs only grow from the start of a run over its `i`-th state to its end, and the
      `i`-th action leads from one reachable state to the next. */
  lemma MidRun(s: State, acts: seq<Action>, i: nat, j: nat)
    requires Inv(s) && AllFit(s.cap, acts) && i < j <= |acts| && Run(Ideal, s, acts).Some?
    requires At(s, acts, i).Some? && At(s, acts, j).Some?
    ensures var u, w, t := At(s, acts, i).value, At(s, acts, j).value, Run(Ideal, s, acts).value;
            && Inv(u) && Enabled(u, acts[i]) && Fits(u.cap, acts[i])
            && s.sent <= u.sent && |s.got| <= |u.got|
            && w.sent <= t.sent && |w.got| <= |t.got|
            && var v := Next(Ideal, u, acts[i]);
            && |u.sent| <= |v.sent| <= |w.sent| && |u.got| <= |v.got| <= |w.got|
            && (v.cons.CRead? ==> w.cons.CRead? || |w.got| > |v.got|)
            && (Committed(v) ==> Committed(w) || |w.sent| > |v.sent|)
  {
    hide Inv, WF, Next, Enabled, Committed, Run, At, AllFit, Fits;
    InvIsWF(s);
    UpTo(s, acts, i);
    UpTo(s, acts, j);
    StepAt(s, acts, i);
    var u := At(s, acts, i).value;
    FitsSlice(s.cap, acts, i + 1, j);
    StepInv(u, acts[i]);
    StepGrows(u, acts[i]);
    SplitRun(s, acts, i + 1, j);
    RunGrows(Next(Ideal, u, acts[i]), acts[i + 1..j]);
  }

  lemma InvIsWF(s: State)
    requires Inv(s)
    ensures WF(s)
  {
  }

  lemma FitsSlice(cap: nat, acts: seq<Action>, i: nat, j: nat)
    requires AllFit(cap, acts) && i <= j <= |acts|
    ensures AllFit(cap, acts[i..j])
    ensures i > 0 ==> Fits(cap, acts[i - 1])
  {
  }

  lemma UpTo(s: State, acts: seq<Action>, i: nat)
    requires Inv(s) && AllFit(s.cap, acts) && i <= |acts| && Run(Ideal, s, acts).Some?
    requires At(s, acts, i).Some?
    ensures var u, t := At(s, acts, i).value, Run(Ideal, s, acts).value;
            && Inv(u)
            && s.sent <= u.sent && |s.got| <= |u.got|
            && u.sent <= t.sent && |u.got| <= |t.got|
  {
    hide Logs, Views, ProdOk, ConsOk, Stored, IsPowerOfTwo, Next, Enabled, Committed, Run;
    SplitRun(s, acts, i, i);
    RunGrows(s, acts[..i]);
    RunGrows(At(s, acts, i).value, acts[i..]);
  }

  lemma SentBound(s: State)
    requires Inv(s)
    ensures |s.got| <= |s.sent| && |s.tails| == |s.sent| + 1 && |s.heads| == |s.got| + 1
  {
  }

  /** A stretch that consumes nothing but serves the consumer starts with an empty queue. */
  lemma IdleConsumerFoundEmpty(s: State, acts: seq<Action>)
    requires Inv(s) && AllFit(s.cap, acts) && Run(Ideal, s, acts).Some? && ServesConsumer(s, acts)
    requires |Run(Ideal, s, acts).value.got| == |s.got|
    ensures |s.got| == |s.sent|
  {
    hide Logs, Views, ProdOk, ConsOk, Stored, IsPowerOfTwo, Next, Enabled, Committed, Run, At;
    var i, j :| 0 <= i < j <= |acts| && acts[i].AcquireTail?
      && At(s, acts, i).Some? && acts[i].k == |At(s, acts, i).value.tails| - 1
      && At(s, acts, j).Some? && At(s, acts, j).value.cons.CIdle?;
    MidRun(s, acts, i, j);
    FreshLoads(At(s, acts, i).value, acts[i]);
    SentBound(At(s, acts, i).value);
    SentBound(s);
  }

  lemma CommittedIsBusy(s: State)
    requires WF(s) && Committed(s)
    ensures !s.prod.PIdle?
  {
  }

  /** A stretch that starts with an empty queue and serves the producer sends. */
  lemma EmptyQueueAccepts(s: State, acts: seq<Action>)
    requires Inv(s) && AllFit(s.cap, acts) && Run(Ideal, s, acts).Some? && ServesProducer(s, acts)
    requires |s.got| == |s.sent|
    ensures |Run(Ideal, s, acts).value.sent| > |s.sent|
  {
    hide Logs, Views, ProdOk, ConsOk, Stored, IsPowerOfTwo, Next, Enabled, Committed, Run, At;
    var i, j :| 0 <= i < j <= |acts| && acts[i].LoadHead?
      && At(s, acts, i).Some? && acts[i].k == |At(s, acts, i).value.heads| - 1
      && At(s, acts, j).Some? && At(s, acts, j).value.prod.PIdle?;
    MidRun(s, acts, i, j);
    FreshLoads(At(s, acts, i).value, acts[i]);
    SentBound(At(s, acts, i).value);
    if Committed(At(s, acts, j).value) {
      CommittedIsBusy(At(s, acts, j).value);
    }
  }

  // ------------------------------------------------------ a retrying client

  /** The producer pushes the messages of `msgs` in order, and retries a refused one. */
  predicate Client(msgs: seq<Msg>, s: State, a: Action) {
    a.Push? ==> |s.sent| < |msgs| && a.m == msgs[|s.sent|]
  }

  /** What has been sent, and what is being sent, is the list so far. */
  predicate OnTrack(msgs: seq<Msg>, s: State) {
    && s.sent <= msgs
    && match s.prod
       case PCall(m) => |s.sent| < |msgs| && m == msgs[|s.sent|]
       case PHead(m, _) => |s.sent| < |msgs| && m == msgs[|s.sent|]
       case PWrite(m, _, _) => |s.sent| < |msgs| && m == msgs[|s.sent|]
       case _ => true
  }

  lemma ClientStep(msgs: seq<Msg>, s: State, a: Action)
    requires WF(s) && Enabled(s, a) && OnTrack(msgs, s) && Client(msgs, s, a)
    ensures OnTrack(msgs, Next(Ideal, s, a))
  {
    hide IsPowerOfTwo, FrameCell, Frame, Wanted, Refused;
  }

  /** Every action of the run follows the client's program. */
  ghost predicate ClientRun(msgs: seq<Msg>, s: State, acts: seq<Action>)
    requires WF(s)
  {
    forall i {:trigger acts[i]} :: 0 <= i < |acts| && At(s, acts, i).Some? ==> Client(msgs, At(s, acts, i).value, acts[i])
  }

  lemma {:induction false} ClientStaysOnTrack(msgs: seq<Msg>, s: State, acts: seq<Action>)
    requires WF(s) && OnTrack(msgs, s) && ClientRun(msgs, s, acts)
    ensures match Run(Ideal, s, acts) case None => true case Some(t) => OnTrack(msgs, t)
    decreases |acts|
  {
    hide WF, Next, Enabled, OnTrack, Client;
    if acts != [] {
      var before, a := acts[..|acts| - 1], acts[|acts| - 1];
      forall i | 0 <= i < |before| && At(s, before, i).Some?
        ensures Client(msgs, At(s, before, i).value, before[i])
      {
        assert before[..i] == acts[..i];
        assert acts[i] == before[i];
      }
      ClientStaysOnTrack(msgs, s, before);
      match Run(Ideal, s, before)
      case None =>
      case Some(t) =>
        if Enabled(t, a) {
          assert At(s, acts, |acts| - 1) == Some(t);
          ClientStep(msgs, t, a);
        }
    }
  }

  /** A round: a stretch of a client's run that serves the consumer and, while there is
      something left to send at its end, the producer. */
  ghost predicate Round(msgs: seq<Msg>, s: State, acts: seq<Action>)
    requires WF(s)
  {
    && AllFit(s.cap, acts)
    && ClientRun(msgs, s, acts)
    && Run(Ideal, s, acts).Some?
    && ServesConsumer(s, acts)
    && (|Run(Ideal, s, acts).value.sent| < |msgs| ==> ServesProducer(s, acts))
  }

  /** Attempts run one after the other make a round: rounds exist from every state in
      which both sides are idle. */
  lemma RoundExists(msgs: seq<Msg>, s: State) returns (acts: seq<Action>, t: State)
    requires Inv(s) && s.prod.PIdle? && s.cons.CIdle? && OnTrack(msgs, s)
    requires forall k :: 0 <= k < |msgs| ==> Frameable(s.cap, msgs[k])
    ensures Round(msgs, s, acts) && Run(Ideal, s, acts) == Some(t)
    ensures Inv(t) && t.prod.PIdle? && t.cons.CIdle? && OnTrack(msgs, t)
  {
    hide Run, Stream, Logs, Views, ProdOk, ConsOk, Stored, IsPowerOfTwo, Round, Blit, Frame;
    hide PushAttempt, PopAttempt, Parse;
    var first: seq<Action>, mid := [], s;
    if |s.sent| < |msgs| {
      var m := msgs[|s.sent|];
      SentBound(s);
      if |Stream(s.sent[|s.got|..])| + 4 + |m| <= s.cap {
        first, mid := PushCompletes(s, m);
      } else {
        first, mid := PushRefused(s, m);
      }
    } else {
      RunNone(s);
    }
    var second;
    SentBound(mid);
    if |mid.got| < |mid.sent| {
      second, t := PopCompletes(mid);
    } else {
      second, t := PopEmpty(mid);
    }
    acts := first + second;
    AttemptsServe(msgs, s, first, mid, second, t);
    RunConcat(Ideal, s, first, second);
  }

  lemma AtPrefix(s: State, a: seq<Action>, b: seq<Action>, i: nat)
    requires WF(s) && i <= |a|
    ensures At(s, a + b, i) == At(s, a, i)
  {
    hide Run, WF;
    assert (a + b)[..i] == a[..i];
  }

  lemma AtSuffix(s: State, a: seq<Action>, mid: State, b: seq<Action>, i: nat)
    requires WF(s) && Run(Ideal, s, a) == Some(mid) && i <= |b|
    ensures At(s, a + b, |a| + i) == At(mid, b, i)
  {
    hide Run, WF;
    assert (a + b)[..|a| + i] == a + b[..i];
    RunConcat(Ideal, s, a, b[..i]);
  }

  lemma AtEnds(s: State, acts: seq<Action>)
    requires WF(s)
    ensures At(s, acts, 0) == Some(s) && At(s, acts, |acts|) == Run(Ideal, s, acts)
  {
    assert acts[..|acts|] == acts && acts[..0] == [];
  }

  /** The fresh load of an attempt is its second action. */
  lemma SecondState(s: State, acts: seq<Action>)
    requires WF(s) && Run(Ideal, s, acts).Some? && |acts| >= 2 && (acts[0].Push? || acts[0].Pop?)
    ensures At(s, acts, 1).Some?
    ensures At(s, acts, 1).value.heads == s.heads && At(s, acts, 1).value.tails == s.tails
  {
    hide Run, WF, Next, Enabled;
    StepAt(s, acts, 0);
    AtEnds(s, acts);
    CountersStay(s, acts[0]);
  }

  lemma FirstServesProducer(s: State, m: Msg, first: seq<Action>, mid: State, second: seq<Action>)
    requires WF(s) && Run(Ideal, s, first) == Some(mid) && Run(Ideal, mid, second).Some?
    requires PushAttempt(s, m, first) && mid.prod.PIdle?
    ensures Run(Ideal, s, first + second).Some? && ServesProducer(s, first + second)
  {
    hide Run, WF, At;
    var acts := first + second;
    RunConcat(Ideal, s, first, second);
    SecondState(s, first);
    AtPrefix(s, first, second, 1);
    AtPrefix(s, first, second, |first|);
    AtEnds(s, first);
    assert acts[1] == first[1] && 0 <= 1 < |first| <= |acts|;
  }

  lemma SecondServesConsumer(s: State, first: seq<Action>, mid: State, second: seq<Action>)
    requires WF(s) && Run(Ideal, s, first) == Some(mid) && Run(Ideal, mid, second).Some?
    requires PopAttempt(mid, second) && Run(Ideal, mid, second).value.cons.CIdle?
    ensures Run(Ideal, s, first + second).Some? && ServesConsumer(s, first + second)
  {
    hide Run, WF, At;
    var acts, i := first + second, |first| + 1;
    RunConcat(Ideal, s, first, second);
    SecondState(mid, second);
    AtSuffix(s, first, mid, second, 1);
    AtSuffix(s, first, mid, second, |second|);
    AtEnds(mid, second);
    assert acts[i] == second[1] && 0 <= i < |acts|;
  }

  lemma AttemptsServe(msgs: seq<Msg>, s: State, first: seq<Action>, mid: State, second: seq<Action>, t: State)
    requires WF(s) && Run(Ideal, s, first) == Some(mid) && Run(Ideal, mid, second) == Some(t)
    requires |s.sent| < |msgs| ==> Frameable(s.cap, msgs[|s.sent|]) && PushAttempt(s, msgs[|s.sent|], first) && mid.prod.PIdle?
    requires |s.sent| >= |msgs| ==> first == [] && |t.sent| >= |msgs|
    requires PopAttempt(mid, second) && t.cons.CIdle?
    ensures Round(msgs, s, first + second)
  {
    hide Run, WF, At, ServesProducer, ServesConsumer, ClientRun, AllFit;
    var acts := first + second;
    RunConcat(Ideal, s, first, second);
    SecondServesConsumer(s, first, mid, second);
    if |s.sent| < |msgs| {
      FirstServesProducer(s, msgs[|s.sent|], first, mid, second);
    }
    assert forall k :: 1 <= k < |acts| ==> !acts[k].Push?;
    OnlyFirstPushes(msgs, s, acts);
  }

  lemma OnlyFirstPushes(msgs: seq<Msg>, s: State, acts: seq<Action>)
    requires WF(s) && acts != [] && forall k :: 1 <= k < |acts| ==> !acts[k].Push?
    requires acts[0].Push? ==>
               |s.sent| < |msgs| && acts[0].m == msgs[|s.sent|] && Frameable(s.cap, acts[0].m)
    ensures ClientRun(msgs, s, acts) && AllFit(s.cap, acts)
  {
    hide Run, WF, At;
    AtEnds(s, acts);
  }

  lemma CountersStay(s: State, a: Action)
    requires WF(s) && Enabled(s, a) && (a.Push? || a.Pop?)
    ensures Next(Ideal, s, a).heads == s.heads && Next(Ideal, s, a).tails == s.tails
  {
  }

  /** While messages are missing, a round sends or consumes at least one. */
  lemma RoundProgress(msgs: seq<Msg>, s: State, acts: seq<Action>)
    requires Inv(s) && OnTrack(msgs, s) && Round(msgs, s, acts)
    ensures var t := Run(Ideal, s, acts).value;
            && Inv(t) && OnTrack(msgs, t)
            && |t.sent| >= |s.sent| && |t.got| >= |s.got|
            && (|s.got| < |msgs| ==> |t.sent| + |t.got| > |s.sent| + |s.got|)
  {
    hide Logs, Views, ProdOk, ConsOk, Stored, IsPowerOfTwo, Run, ServesConsumer, ServesProducer, ClientRun;
    RunGrows(s, acts);
    ClientStaysOnTrack(msgs, s, acts);
    var t := Run(Ideal, s, acts).value;
    if |t.got| == |s.got| && |t.sent| == |s.sent| && |s.got| < |msgs| {
      IdleConsumerFoundEmpty(s, acts);
      EmptyQueueAccepts(s, acts);
    }
  }

  /** Rounds run one after the other. */
  function Rounds(s: State, rounds: seq<seq<Action>>): (r: Option<State>)
    requires WF(s)
    ensures r.Some? ==> WF(r.value) && r.value.cap == s.cap
    decreases |rounds|
  {
    if rounds == [] then Some(s)
    else
      match Rounds(s, rounds[..|rounds| - 1])
      case None => None
      case Some(t) => Run(Ideal, t, rounds[|rounds| - 1])
  }

  ghost predicate AllRounds(msgs: seq<Msg>, s: State, rounds: seq<seq<Action>>)
    requires WF(s)
    decreases |rounds|
  {
    rounds != [] ==>
      && AllRounds(msgs, s, rounds[..|rounds| - 1])
      && Rounds(s, rounds[..|rounds| - 1]).Some?
      && Round(msgs, Rounds(s, rounds[..|rounds| - 1]).value, rounds[|rounds| - 1])
  }

  function Joined(rounds: seq<seq<Action>>): seq<Action> {
    if rounds == [] then [] else Joined(rounds[..|rounds| - 1]) + rounds[|rounds| - 1]
  }

  lemma StartOnTrack(msgs: seq<Msg>, mem: seq<byte>)
    ensures OnTrack(msgs, Init(mem))
  {
  }

  lemma JoinRounds(msgs: seq<Msg>, s: State, before: seq<Action>, last: seq<Action>)
    requires WF(s) && Round(msgs, s, last) && AllFit(s.cap, before)
    ensures Run(Ideal, s, last).Some? && AllFit(s.cap, before + last)
  {
    hide Run, ServesConsumer, ServesProducer, ClientRun;
  }

  lemma {:induction false} RoundsProgress(msgs: seq<Msg>, mem: seq<byte>, rounds: seq<seq<Action>>)
    requires IsPowerOfTwo(|mem|) && AllRounds(msgs, Init(mem), rounds)
    ensures Rounds(Init(mem), rounds) == Run(Ideal, Init(mem), Joined(rounds))
    ensures AllFit(|mem|, Joined(rounds))
    ensures match Rounds(Init(mem), rounds)
            case None => false
            case Some(t) =>
              && Inv(t) && OnTrack(msgs, t)
              && (|t.got| < |msgs| ==> |t.sent| + |t.got| >= |rounds|)
    decreases |rounds|
  {
    hide Logs, Views, ProdOk, ConsOk, Stored, IsPowerOfTwo, Run, Round, OnTrack;
    if rounds == [] {
      InitInv(mem);
      StartOnTrack(msgs, mem);
      RunNone(Init(mem));
    } else {
      var before, last := rounds[..|rounds| - 1], rounds[|rounds| - 1];
      RoundsProgress(msgs, mem, before);
      var t := Rounds(Init(mem), before).value;
      RoundProgress(msgs, t, last);
      JoinRounds(msgs, t, Joined(before), last);
      RunConcat(Ideal, Init(mem), Joined(before), last);
    }
  }

  /** Delivery: a client that retries `push` for each message in turn and keeps popping
      has delivered all of them, in order and unchanged, after at most two rounds per
      message, under any schedule and on the 64-bit machine. */
  lemma RetriesDeliver(msgs: seq<Msg>, mem: seq<byte>, rounds: seq<seq<Action>>)
    requires IsPowerOfTwo(|mem|) && |mem| < TWO64 / 2
    requires AllRounds(msgs, Init(mem), rounds) && |rounds| >= 2 * |msgs|
    ensures match Run(Machine64, Init(mem), Joined(rounds))
            case None => false
            case Some(t) => t.got == msgs && t.sent == msgs
  {
    hide Views, ProdOk, ConsOk, Stored, IsPowerOfTwo, Run, AllRounds, Rounds, Joined, Trace;
    RoundsProgress(msgs, mem, rounds);
    RunRefines(mem, Joined(rounds));
    var t := Rounds(Init(mem), rounds).value;
    assert t.got == t.sent[..|t.got|] && t.sent <= msgs;
    assert |t.got| <= |t.sent| <= |msgs|;
  }
}
