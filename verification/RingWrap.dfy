/** The 64-bit machine refines the machine with unbounded counters: a run of any
    length, crossing 2^64 any number of times, takes the same branches and touches
    the same cells. */
module RingWrap {
  import opened Words
  import opened Endian
  import opened Wrappers
  import opened Frames
  import opened RingProtocol
  import opened RingInvariant

  function WrapAll(xs: seq<nat>): (ws: seq<nat>)
    ensures |ws| == |xs|
  {
    seq(|xs|, i requires 0 <= i < |xs| => Wrap(xs[i]))
  }

  function WrapProducer(p: Producer): Producer {
    match p
    case PHead(m, h) => PHead(m, Wrap(h))
    case PWrite(m, t, n) => PWrite(m, Wrap(t), n)
    case PSee(h) => PSee(Wrap(h))
    case _ => p
  }

  function WrapConsumer(c: Consumer): Consumer {
    match c
    case CHead(h) => CHead(Wrap(h))
    case CRead(h, buf) => CRead(Wrap(h), buf)
    case CSee(h) => CSee(Wrap(h))
    case CIdle => c
  }

  function WrapPReply(r: PReply): PReply {
    match r
    case PSaw(h, t) => PSaw(Wrap(h), Wrap(t))
    case _ => r
  }

  function WrapCReply(r: CReply): CReply {
    match r
    case CSaw(h, t) => CSaw(Wrap(h), Wrap(t))
    case _ => r
  }

  /** The machine state that stands for an ideal state: every counter value is taken
      modulo 2^64, and nothing else differs. */
  function Wrapped(s: State): State {
    s.(heads := WrapAll(s.heads), tails := WrapAll(s.tails),
       prod := WrapProducer(s.prod), cons := WrapConsumer(s.cons),
       preplies := seq(|s.preplies|, i requires 0 <= i < |s.preplies| => WrapPReply(s.preplies[i])),
       creplies := seq(|s.creplies|, i requires 0 <= i < |s.creplies| => WrapCReply(s.creplies[i])))
  }

  lemma WrapPlus(x: nat, y: nat)
    ensures Plus(Machine64, Wrap(x), y) == Wrap(x + y)
  {
  }

  lemma SameCell(cap: nat, pos: nat, n: nat)
    requires IsPowerOfTwo(cap) && cap <= TWO64
    ensures FrameCell(Machine64, cap, Wrap(pos), n) == FrameCell(Ideal, cap, pos, n) == Cell(pos + n, cap)
  {
    hide Cell, IsPowerOfTwo, Wrap;
    CellOfFrame(cap, pos, n);
    WrapPlus(pos, n);
    WrapPlus(pos, 4);
    if n >= 4 {
      WrapPlus(pos + 4, n - 4);
    }
    CellOfWrap(pos + n, cap);
  }

  lemma SameRefusal(cap: nat, tail: nat, head: nat, m: Msg)
    requires cap < TWO64 / 2 && head <= tail <= head + cap && 4 + |m| <= cap
    ensures Refused(Machine64, cap, Wrap(tail), Wrap(head), m) == Refused(Ideal, cap, tail, head, m)
  {
    WrapDifference(tail, head);
  }

  /** Facts about the counters a step compares. */
  lemma StepCounters(s: State, a: Action)
    requires Inv(s) && Enabled(s, a) && s.cap < TWO64 / 2
    ensures a.LoadTail? ==>
              var PHead(m, h) := s.prod;
              Refused(Machine64, s.cap, Wrap(Tail(s)), Wrap(h), m) == Refused(Ideal, s.cap, Tail(s), h, m)
    ensures a.LoadHead? ==>
              Refused(Machine64, s.cap, Wrap(Tail(s)), Wrap(s.heads[a.k]), s.prod.m)
              == Refused(Ideal, s.cap, Tail(s), s.heads[a.k], s.prod.m)
    ensures a.AcquireTail? ==> (Wrap(s.cons.head) == Wrap(s.tails[a.k]) <==> s.cons.head == s.tails[a.k])
  {
    hide Off, Stream, IsPowerOfTwo, Frame, Cell, Stored, Refused;
    LogsFacts(s);
    match a
    case LoadTail => SameRefusal(s.cap, Tail(s), s.prod.head, s.prod.m);
    case LoadHead(k) =>
      OffMonotone(s.sent, s.pSeen, k);
      OffMonotone(s.sent, k, |s.sent|);
      SameRefusal(s.cap, Tail(s), s.heads[k], s.prod.m);
    case AcquireTail(k) =>
      OffMonotone(s.sent, |s.got|, k);
      OffMonotone(s.sent, k, |s.sent|);
      WrapDifference(s.tails[k], s.cons.head);
    case _ =>
  }

  predicate IsProducers(a: Action) {
    a.Push? || a.LoadHead? || a.LoadTail? || a.WriteByte? || a.StoreTail? || a.PSeeHead? || a.PSeeTail?
  }

  lemma ProducerRefines(s: State, a: Action)
    requires Inv(s) && s.cap < TWO64 / 2 && Enabled(s, a) && IsProducers(a)
    ensures WF(Wrapped(s)) && Enabled(Wrapped(s), a)
    ensures Next(Machine64, Wrapped(s), a) == Wrapped(Next(Ideal, s, a))
  {
    hide Logs, Views, ProdOk, ConsOk, Stored, IsPowerOfTwo, Frame, Cell, FrameCell, Refused, Wrap, Wanted;
    StepCounters(s, a);
    var w, n := Next(Machine64, Wrapped(s), a), Wrapped(Next(Ideal, s, a));
    match a {
      case WriteByte => SameCell(s.cap, s.prod.tail, s.prod.n);
      case StoreTail =>
        WrapPlus(s.prod.tail, 4 + |s.prod.m|);
        assert w.tails == n.tails;
      case _ =>
    }
    assert w.preplies == n.preplies;
  }

  lemma ConsumerRefines(s: State, a: Action)
    requires Inv(s) && s.cap < TWO64 / 2 && Enabled(s, a) && !IsProducers(a)
    ensures WF(Wrapped(s)) && Enabled(Wrapped(s), a)
    ensures Next(Machine64, Wrapped(s), a) == Wrapped(Next(Ideal, s, a))
  {
    hide Logs, Views, ProdOk, ConsOk, Stored, IsPowerOfTwo, Frame, Cell, FrameCell, Refused, Wrap, Wanted;
    StepCounters(s, a);
    var w, n := Next(Machine64, Wrapped(s), a), Wrapped(Next(Ideal, s, a));
    match a {
      case ReadByte => SameCell(s.cap, s.cons.head, |s.cons.buf|);
      case StoreHead =>
        WrapPlus(s.cons.head, |s.cons.buf|);
        assert w.heads == n.heads;
      case _ =>
    }
    assert w.creplies == n.creplies;
  }

  lemma EnabledRefines(s: State, a: Action)
    requires Inv(s)
    ensures WF(Wrapped(s)) && Enabled(Wrapped(s), a) == Enabled(s, a)
  {
    hide Logs, Views, ProdOk, ConsOk, Stored, IsPowerOfTwo, Wrap, Wanted;
  }

  lemma LinRefines(s: State, a: Action)
    requires Inv(s) && s.cap < TWO64 / 2 && Enabled(s, a) && WF(Wrapped(s)) && Enabled(Wrapped(s), a)
    ensures Lin(Machine64, Wrapped(s), a) == Lin(Ideal, s, a)
  {
    hide Logs, Views, ProdOk, ConsOk, Stored, IsPowerOfTwo, Refused, Wrap, Wanted;
    StepCounters(s, a);
  }

  /** One step: the same actions are enabled, they lead to the corresponding states,
      and they mean the same events. */
  lemma StepRefines(s: State, a: Action)
    requires Inv(s) && s.cap < TWO64 / 2
    ensures WF(Wrapped(s)) && Enabled(Wrapped(s), a) == Enabled(s, a)
    ensures Enabled(s, a) ==>
              && Next(Machine64, Wrapped(s), a) == Wrapped(Next(Ideal, s, a))
              && Lin(Machine64, Wrapped(s), a) == Lin(Ideal, s, a)
  {
    hide Logs, Views, ProdOk, ConsOk, Stored, IsPowerOfTwo, Next, Enabled, Lin, Wrapped;
    EnabledRefines(s, a);
    if Enabled(s, a) {
      LinRefines(s, a);
      if IsProducers(a) {
        ProducerRefines(s, a);
      } else {
        ConsumerRefines(s, a);
      }
    }
  }

  /** From any state within the invariant, a run of the 64-bit machine is exactly a run
      of the ideal one with its counters wrapped, and has the same events. */
  lemma {:induction false} RunRefinesFrom(s: State, acts: seq<Action>)
    requires Inv(s) && s.cap < TWO64 / 2 && AllFit(s.cap, acts)
    ensures WF(Wrapped(s))
    ensures match Run(Ideal, s, acts)
            case None => Run(Machine64, Wrapped(s), acts) == None
            case Some(t) =>
              && Inv(t)
              && Run(Machine64, Wrapped(s), acts) == Some(Wrapped(t))
              && Trace(Machine64, Wrapped(s), acts) == Trace(Ideal, s, acts)
    decreases |acts|
  {
    hide Enabled, Next, Lin, Wrapped, Logs, Views, ProdOk, ConsOk, Stored, IsPowerOfTwo, Fits;
    if acts == [] {
      EnabledRefines(s, Pop);
    } else {
      var before, a := acts[..|acts| - 1], acts[|acts| - 1];
      RunRefinesFrom(s, before);
      match Run(Ideal, s, before)
      case None =>
      case Some(t) =>
        StepRefines(t, a);
        if Enabled(t, a) {
          StepInv(t, a);
        }
    }
  }

  /** The same from a fresh ring. */
  lemma RunRefines(mem: seq<byte>, acts: seq<Action>)
    requires IsPowerOfTwo(|mem|) && |mem| < TWO64 / 2 && AllFit(|mem|, acts)
    ensures match Run(Ideal, Init(mem), acts)
            case None => Run(Machine64, Init(mem), acts) == None
            case Some(t) =>
              && Run(Machine64, Init(mem), acts) == Some(Wrapped(t))
              && Trace(Machine64, Init(mem), acts) == Trace(Ideal, Init(mem), acts)
  {
    hide Run, Trace, Inv, Wrapped;
    InitInv(mem);
    InitIsWrapped(mem);
    RunRefinesFrom(Init(mem), acts);
  }

  lemma InitIsWrapped(mem: seq<byte>)
    ensures Wrapped(Init(mem)) == Init(mem)
  {
    assert WrapAll([0]) == [0];
  }

  /** The plain additions `tail + 4`, `head + 4` and `pos + i` do not overflow while
      the true counters stay below 2^64 - cap. */
  lemma PlainAddsFit(mem: seq<byte>, acts: seq<Action>)
    requires IsPowerOfTwo(|mem|) && AllFit(|mem|, acts)
    requires Run(Ideal, Init(mem), acts).Some?
    ensures var s := Run(Ideal, Init(mem), acts).value;
            Tail(s) < TWO64 - s.cap ==>
              && (s.prod.PWrite? ==> s.prod.tail + 4 + |s.prod.m| < TWO64)
              && (s.cons.CRead? ==> s.cons.head + |s.cons.buf| < TWO64 && s.cons.head + 4 < TWO64)
  {
    ReachableInv(mem, acts);
    var s := Run(Ideal, Init(mem), acts).value;
    hide Off, Stream, IsPowerOfTwo, Frame, Cell, Stored, Run;
    LogsFacts(s);
  }

  /** In every reachable state of the 64-bit machine the live window from `head` to `tail`,
      read modulo `cap`, parses into exactly the messages sent and not yet consumed, and
      into nothing else; it never exceeds `cap`, even with a frame half written or half
      read. */
  lemma WindowIsQueue(mem: seq<byte>, acts: seq<Action>, q: seq<Msg>)
    requires IsPowerOfTwo(|mem|) && |mem| < TWO64 / 2 && AllFit(|mem|, acts)
    requires Run(Machine64, Init(mem), acts).Some?
    ensures var s := Run(Machine64, Init(mem), acts).value;
            && |s.heads| > 0 && |s.tails| > 0 && |s.got| <= |s.sent|
            && var used := Minus(Machine64, Tail(s), Head(s));
            && used == |Stream(s.sent[|s.got|..])| <= s.cap
            && (Parse(Window(s.mem, s.cap, Head(s), used)) == Some(q) <==> q == s.sent[|s.got|..])
  {
    hide Stream, IsPowerOfTwo, Parse, Run, Window, Views, ProdOk, ConsOk, Stored, Short, Trace, Wrap;
    RunRefines(mem, acts);
    ReachableInv(mem, acts);
    var t := Run(Ideal, Init(mem), acts).value;
    WindowParses(t);
    WrapDifference(Tail(t), Head(t));
    WindowFromWrapped(t.mem, t.cap, Head(t), Tail(t) - Head(t));
    ParseExact(Window(t.mem, t.cap, Head(t), Tail(t) - Head(t)), t.sent[|t.got|..]);
  }
}
