/** What the interleavings of one producer and one consumer guarantee: a FIFO of messages,
    legal up to the lag of stale loads and linearizable where no load is stale, and race
    freedom of the data area. */
module RingFifo {
  import opened Words
  import opened Endian
  import opened Wrappers
  import opened Frames
  import opened RingProtocol
  import opened RingInvariant
  import opened RingWrap

  // ------------------------------------------------- the atomic FIFO queue

  /** An atomic queue of messages in a bounded number of bytes: everything ever
      accepted, and how many of those have been delivered. */
  datatype Fifo = Fifo(log: seq<Msg>, taken: nat)

  const EMPTY := Fifo([], 0)

  /** What an atomic queue may do. With `lag` 0 a refusal means that the message does
      not fit now, and an empty answer that the queue is empty now; a larger `lag` says
      how many updates of the other side the answer had not seen. */
  predicate Legal(cap: nat, f: Fifo, e: Event)
    requires f.taken <= |f.log|
  {
    match e
    case Accept(m) => Space(f.log, f.taken) + 4 + |m| <= cap
    case Refuse(m, lag) => lag <= f.taken && Space(f.log, f.taken - lag) + 4 + |m| > cap
    case Deliver(m) => f.taken < |f.log| && f.log[f.taken] == m
    case FindEmpty(lag) => f.taken + lag == |f.log|
  }

  function After(f: Fifo, e: Event): Fifo {
    match e
    case Accept(m) => f.(log := f.log + [m])
    case Deliver(_) => f.(taken := f.taken + 1)
    case _ => f
  }

  /** The queue after a legal history, if it is legal. */
  function Replay(cap: nat, history: seq<Event>): (r: Option<Fifo>)
    ensures r.Some? ==> r.value.taken <= |r.value.log|
    decreases |history|
  {
    if history == [] then Some(EMPTY)
    else
      match Replay(cap, history[..|history| - 1])
      case None => None
      case Some(f) =>
        var e := history[|history| - 1];
        if Legal(cap, f, e) then Some(After(f, e)) else None
  }

  function Abstract(s: State): Fifo {
    Fifo(s.sent, |s.got|)
  }

  /** Every step is a step of the atomic queue or changes nothing in it. */
  lemma StepIsAtomic(s: State, a: Action)
    requires Inv(s) && Enabled(s, a)
    ensures match Lin(Ideal, s, a)
            case None => Abstract(Next(Ideal, s, a)) == Abstract(s)
            case Some(e) =>
              Legal(s.cap, Abstract(s), e) && Abstract(Next(Ideal, s, a)) == After(Abstract(s), e)
  {
    hide Off, Stream, IsPowerOfTwo, Frame, Cell, FrameCell, Stored;
    LogsFacts(s);
    match a
    case LoadHead(k) =>
      OffMonotone(s.sent, s.pSeen, k);
      OffMonotone(s.sent, k, |s.sent|);
    case StoreHead => ReadLength(s.sent[|s.got|], s.cons.buf);
    case _ =>
  }

  // ---------------------------------------------------- linearizable history

  /** What the call that an event belongs to returns. */
  function PushAnswer(e: Event): seq<bool> {
    if e.Accept? || e.Refuse? then [e.Accept?] else []
  }

  function PopAnswer(e: Event): seq<Option<Msg>> {
    match e
    case Deliver(m) => [Some(m)]
    case FindEmpty(_) => [None]
    case _ => []
  }

  /** What a history says the calls of `push` and of `pop` return, in order. */
  function PushAnswers(history: seq<Event>): seq<bool> {
    if history == [] then []
    else PushAnswers(history[..|history| - 1]) + PushAnswer(history[|history| - 1])
  }

  function PopAnswers(history: seq<Event>): seq<Option<Msg>> {
    if history == [] then []
    else PopAnswers(history[..|history| - 1]) + PopAnswer(history[|history| - 1])
  }

  /** What the calls of `push` and of `pop` did return. */
  function PushReplies(rs: seq<PReply>): seq<bool> {
    if rs == [] then []
    else
      var before, r := PushReplies(rs[..|rs| - 1]), rs[|rs| - 1];
      if r.Pushed? then before + [r.ok] else before
  }

  function PopReplies(rs: seq<CReply>): seq<Option<Msg>> {
    if rs == [] then []
    else
      var before, r := PopReplies(rs[..|rs| - 1]), rs[|rs| - 1];
      if r.Popped? then before + [r.m] else before
  }

  /** The answer of a `push` that has met its linearization point but not returned. */
  function Owed(ar: Arith, s: State): seq<bool>
    requires |s.tails| > 0
  {
    match s.prod
    case PHead(m, h) => if Refused(ar, s.cap, Tail(s), h, m) then [false] else []
    case _ => []
  }

  lemma AddReplies(ps: seq<PReply>, p: PReply, cs: seq<CReply>, c: CReply)
    ensures PushReplies(ps + [p]) == PushReplies(ps) + if p.Pushed? then [p.ok] else []
    ensures PopReplies(cs + [c]) == PopReplies(cs) + if c.Popped? then [c.m] else []
  {
    assert (ps + [p])[..|ps|] == ps;
    assert (cs + [c])[..|cs|] == cs;
  }

  function PushAnswerOf(e: Option<Event>): seq<bool> {
    if e.Some? then PushAnswer(e.value) else []
  }

  function PopAnswerOf(e: Option<Event>): seq<Option<Msg>> {
    if e.Some? then PopAnswer(e.value) else []
  }

  /** What a step of a `push` call returns to its caller. */
  function Returned(s: State, a: Action): seq<bool>
    requires WF(s)
  {
    match a
    case LoadTail => Owed(Ideal, s)
    case StoreTail => [true]
    case _ => []
  }

  lemma StepReplies(s: State, a: Action)
    requires WF(s) && Enabled(s, a)
    ensures PushReplies(Next(Ideal, s, a).preplies) == PushReplies(s.preplies) + Returned(s, a)
  {
    hide IsPowerOfTwo, Frame, Cell, FrameCell, Refused, Wanted;
    hide PushReplies, PopReplies;
    match a {
      case Push(_) => AddReplies(s.preplies, TooLarge, [], CSaw(0, 0));
      case LoadTail => AddReplies(s.preplies, Pushed(false), [], CSaw(0, 0));
      case StoreTail => AddReplies(s.preplies, Pushed(true), [], CSaw(0, 0));
      case PSeeTail => AddReplies(s.preplies, PSaw(s.prod.head, Tail(s)), [], CSaw(0, 0));
      case _ =>
    }
    assert PushReplies(s.preplies) + [] == PushReplies(s.preplies);
  }

  lemma StepOwes(s: State, a: Action)
    requires WF(s) && Enabled(s, a)
    ensures Returned(s, a) + Owed(Ideal, Next(Ideal, s, a))
            == Owed(Ideal, s) + PushAnswerOf(Lin(Ideal, s, a))
  {
    hide IsPowerOfTwo, Frame, Cell, FrameCell, Refused, Wanted;
  }

  /** One step returns what its event says, or owes it to the producer's next step. */
  lemma StepPushAnswer(s: State, a: Action)
    requires WF(s) && Enabled(s, a)
    ensures var s' := Next(Ideal, s, a);
            PushReplies(s'.preplies) + Owed(Ideal, s')
            == PushReplies(s.preplies) + Owed(Ideal, s) + PushAnswerOf(Lin(Ideal, s, a))
  {
    hide Enabled, Next, Lin, Owed, Returned, PushReplies, PushAnswerOf;
    StepReplies(s, a);
    StepOwes(s, a);
    var r := PushReplies(s.preplies);
    Assoc(r, Returned(s, a), Owed(Ideal, Next(Ideal, s, a)));
    Assoc(r, Owed(Ideal, s), PushAnswerOf(Lin(Ideal, s, a)));
  }

  lemma StepPopAnswer(s: State, a: Action)
    requires WF(s) && Enabled(s, a)
    ensures PopReplies(Next(Ideal, s, a).creplies)
            == PopReplies(s.creplies) + PopAnswerOf(Lin(Ideal, s, a))
  {
    hide IsPowerOfTwo, Frame, Cell, FrameCell, Refused, Wanted;
    hide PopReplies;
    match a {
      case AcquireTail(k) => AddReplies([], TooLarge, s.creplies, Popped(None));
      case StoreHead => AddReplies([], TooLarge, s.creplies, Popped(Some(s.cons.buf[4..])));
      case CSeeTail(k) => AddReplies([], TooLarge, s.creplies, CSaw(s.cons.head, s.tails[k]));
      case _ =>
    }
    assert PopReplies(s.creplies) + [] == PopReplies(s.creplies);
  }

  lemma AnswersOfLog(history: seq<Event>, e: Option<Event>)
    ensures PushAnswers(Log(history, e)) == PushAnswers(history) + PushAnswerOf(e)
    ensures PopAnswers(Log(history, e)) == PopAnswers(history) + PopAnswerOf(e)
  {
    if e.Some? {
      assert (history + [e.value])[..|history|] == history;
    }
  }

  lemma ReplayOfLog(cap: nat, history: seq<Event>, e: Option<Event>)
    ensures Replay(cap, Log(history, e)) ==
            match e
            case None => Replay(cap, history)
            case Some(e) =>
              match Replay(cap, history)
              case None => None
              case Some(f) => if Legal(cap, f, e) then Some(After(f, e)) else None
  {
    if e.Some? {
      assert (history + [e.value])[..|history|] == history;
    }
  }

  lemma {:induction false} IdealRunIsFifo(mem: seq<byte>, acts: seq<Action>)
    requires IsPowerOfTwo(|mem|) && AllFit(|mem|, acts)
    requires Run(Ideal, Init(mem), acts).Some?
    ensures var s, history := Run(Ideal, Init(mem), acts).value, Trace(Ideal, Init(mem), acts);
            && Replay(|mem|, history) == Some(Abstract(s))
            && PushAnswers(history) == PushReplies(s.preplies) + Owed(Ideal, s)
            && PopAnswers(history) == PopReplies(s.creplies)
    decreases |acts|
  {
    hide Enabled, Next, Lin, Inv, IsPowerOfTwo, PushReplies, PopReplies, PushAnswers, PopAnswers, PushAnswerOf, PopAnswerOf, Legal, After, Log, Owed;
    if acts == [] {
      NoAnswers();
      InitOwes(mem);
    } else {
      var before, a := acts[..|acts| - 1], acts[|acts| - 1];
      IdealRunIsFifo(mem, before);
      ReachableInv(mem, before);
      var t, history := Run(Ideal, Init(mem), before).value, Trace(Ideal, Init(mem), before);
      StepIsAtomic(t, a);
      StepPushAnswer(t, a);
      StepPopAnswer(t, a);
      ReplayOfLog(|mem|, history, Lin(Ideal, t, a));
      AnswersOfLog(history, Lin(Ideal, t, a));
    }
  }

  lemma InitOwes(mem: seq<byte>)
    ensures Owed(Ideal, Init(mem)) == []
  {
  }

  lemma {:induction false} WrapKeepsReplies(ps: seq<PReply>, cs: seq<CReply>, ps': seq<PReply>, cs': seq<CReply>)
    requires |ps| == |ps'| && forall k :: 0 <= k < |ps| ==> ps'[k] == WrapPReply(ps[k])
    requires |cs| == |cs'| && forall k :: 0 <= k < |cs| ==> cs'[k] == WrapCReply(cs[k])
    ensures PushReplies(ps') == PushReplies(ps) && PopReplies(cs') == PopReplies(cs)
    decreases |ps| + |cs|
  {
    if ps != [] {
      WrapKeepsReplies(ps[..|ps| - 1], cs, ps'[..|ps| - 1], cs');
    }
    if cs != [] {
      WrapKeepsReplies(ps, cs[..|cs| - 1], ps', cs'[..|cs| - 1]);
    }
  }

  lemma WrapKeepsOwed(s: State)
    requires Inv(s) && s.cap < TWO64 / 2
    ensures Owed(Machine64, Wrapped(s)) == Owed(Ideal, s)
  {
    hide Off, Stream, IsPowerOfTwo, Frame, Cell, Stored, Refused, Wrap, ConsOk;
    LogsFacts(s);
    if s.prod.PHead? {
      SameRefusal(s.cap, Tail(s), s.prod.head, s.prod.m);
    }
  }

  /** The 64-bit ring is a FIFO queue. In every interleaving of single-byte and atomic
      steps, with stale loads of the peer's counter allowed, the linearization points form
      a history of the bounded queue that is legal up to the lag of those loads; the calls
      of each side return, in order, what that history says (a refused `push` may still
      owe its answer); and the messages consumed are a prefix of those published. Where
      every lag is 0 this is linearizability: `FreshRunIsLinearizable`. */
  lemma RunIsFifo(mem: seq<byte>, acts: seq<Action>)
    requires IsPowerOfTwo(|mem|) && |mem| < TWO64 / 2 && AllFit(|mem|, acts)
    requires Run(Machine64, Init(mem), acts).Some?
    ensures var s, history := Run(Machine64, Init(mem), acts).value, Trace(Machine64, Init(mem), acts);
            && Replay(|mem|, history) == Some(Abstract(s))
            && PushAnswers(history) == PushReplies(s.preplies) + Owed(Machine64, s)
            && PopAnswers(history) == PopReplies(s.creplies)
            && s.got <= s.sent
  {
    hide IsPowerOfTwo, Run, Trace, Replay, PushAnswers, PopAnswers, PushReplies, PopReplies, Owed;
    hide Views, ProdOk, ConsOk, Stored;
    RunRefines(mem, acts);
    IdealRunIsFifo(mem, acts);
    ReachableInv(mem, acts);
    var t := Run(Ideal, Init(mem), acts).value;
    WrapKeepsOwed(t);
    WrapKeepsReplies(t.preplies, t.creplies, Wrapped(t).preplies, Wrapped(t).creplies);
  }

  lemma NoAnswers()
    ensures PushAnswers([]) == [] && PopAnswers([]) == [] && PushReplies([]) == [] && PopReplies([]) == []
  {
  }

  /** A fresh load decides exactly: `push` is refused just when the message does not fit
      beside the queued ones at the load of `head`. */
  lemma FreshPushIsExact(s: State)
    requires Inv(s) && Enabled(s, LoadHead(|s.heads| - 1))
    ensures Lin(Ideal, s, LoadHead(|s.heads| - 1)) != None
            <==> |Stream(s.sent[|s.got|..])| + 4 + |s.prod.m| > s.cap
  {
    hide Off, Stream, IsPowerOfTwo, Frame, Cell, FrameCell, Stored, Wanted;
    LogsFacts(s);
    StreamRest(s.sent, |s.got|);
  }

  /** And `pop` finds nothing just when no message is queued at the load of `tail`. */
  lemma FreshPopIsExact(s: State)
    requires Inv(s) && Enabled(s, AcquireTail(|s.tails| - 1))
    ensures Lin(Ideal, s, AcquireTail(|s.tails| - 1)) != None <==> s.got == s.sent
  {
    hide Off, Stream, IsPowerOfTwo, Frame, Cell, FrameCell, Stored, Wanted;
    LogsFacts(s);
    assert s.got == s.sent <==> |s.got| == |s.sent| by {
      assert s.sent[..|s.sent|] == s.sent;
    }
  }

  // ------------------------------------------------------- without stale loads

  /** What the plain atomic queue may do: refuse a message only if it does not fit, and
      answer that there is none only if there is none. */
  predicate LegalNow(cap: nat, f: Fifo, e: Event)
    requires f.taken <= |f.log|
  {
    match e
    case Accept(m) => Space(f.log, f.taken) + 4 + |m| <= cap
    case Refuse(m, _) => Space(f.log, f.taken) + 4 + |m| > cap
    case Deliver(m) => f.taken < |f.log| && f.log[f.taken] == m
    case FindEmpty(_) => f.taken == |f.log|
  }

  function ReplayNow(cap: nat, history: seq<Event>): (r: Option<Fifo>)
    ensures r.Some? ==> r.value.taken <= |r.value.log|
    decreases |history|
  {
    if history == [] then Some(EMPTY)
    else
      match ReplayNow(cap, history[..|history| - 1])
      case None => None
      case Some(f) =>
        var e := history[|history| - 1];
        if LegalNow(cap, f, e) then Some(After(f, e)) else None
  }

  predicate UpToDate(e: Event) {
    e.Refuse? || e.FindEmpty? ==> e.lag == 0
  }

  lemma {:induction false} ReplayUpToDate(cap: nat, history: seq<Event>)
    requires forall k :: 0 <= k < |history| ==> UpToDate(history[k])
    ensures ReplayNow(cap, history) == Replay(cap, history)
    decreases |history|
  {
    hide Space;
    if history != [] {
      ReplayUpToDate(cap, history[..|history| - 1]);
      assert UpToDate(history[|history| - 1]);
    }
  }

  /** Every load of the other side's counter on the way gets its newest value. */
  predicate LoadsNewest(s: State, acts: seq<Action>)
    requires WF(s) && Run(Machine64, s, acts).Some?
    decreases |acts|
  {
    acts == [] ||
    var before, a := acts[..|acts| - 1], acts[|acts| - 1];
    var t := Run(Machine64, s, before).value;
    && LoadsNewest(s, before)
    && (a.LoadHead? ==> a.k == |t.heads| - 1)
    && (a.AcquireTail? ==> a.k == |t.tails| - 1)
  }

  lemma {:induction false} FreshTrace(s: State, acts: seq<Action>)
    requires WF(s) && Run(Machine64, s, acts).Some? && LoadsNewest(s, acts)
    ensures var history := Trace(Machine64, s, acts);
            forall k :: 0 <= k < |history| ==> UpToDate(history[k])
    decreases |acts|
  {
    hide IsPowerOfTwo, Next, Enabled, Lin, UpToDate;
    if acts != [] {
      var before, a := acts[..|acts| - 1], acts[|acts| - 1];
      FreshTrace(s, before);
      var t := Run(Machine64, s, before).value;
      FreshStep(t, a);
      assert Trace(Machine64, s, acts) == Log(Trace(Machine64, s, before), Lin(Machine64, t, a));
    }
  }

  lemma FreshStep(s: State, a: Action)
    requires WF(s) && Enabled(s, a)
    requires (a.LoadHead? ==> a.k == |s.heads| - 1) && (a.AcquireTail? ==> a.k == |s.tails| - 1)
    ensures Lin(Machine64, s, a).Some? ==> UpToDate(Lin(Machine64, s, a).value)
  {
    hide IsPowerOfTwo, Refused;
  }

  /** Where the loads of the peer's counter are not stale, the 64-bit ring is linearizable
      in the plain sense: the linearization points form a legal history of the atomic
      bounded queue, and the calls return what it says. */
  lemma FreshRunIsLinearizable(mem: seq<byte>, acts: seq<Action>)
    requires IsPowerOfTwo(|mem|) && |mem| < TWO64 / 2 && AllFit(|mem|, acts)
    requires Run(Machine64, Init(mem), acts).Some? && LoadsNewest(Init(mem), acts)
    ensures var s, history := Run(Machine64, Init(mem), acts).value, Trace(Machine64, Init(mem), acts);
            && ReplayNow(|mem|, history) == Some(Abstract(s))
            && PushAnswers(history) == PushReplies(s.preplies) + Owed(Machine64, s)
            && PopAnswers(history) == PopReplies(s.creplies)
  {
    hide IsPowerOfTwo, Run, Trace, Replay, ReplayNow, PushAnswers, PopAnswers, PushReplies, PopReplies, Owed, UpToDate, LoadsNewest;
    RunIsFifo(mem, acts);
    FreshTrace(Init(mem), acts);
    ReplayUpToDate(|mem|, Trace(Machine64, Init(mem), acts));
  }

  // --------------------------------------------------------- race freedom

  /** The cells a producer is still to write and the cells a consumer may read are
      disjoint, whatever program counters the two sides are at and however stale their
      views: no byte of the data area is written while the other side may access it. */
  lemma DataRaceFree(s: State, p: nat, q: nat)
    requires Inv(s) && s.prod.PWrite?
    requires s.prod.tail <= p < s.prod.tail + 4 + |s.prod.m|
    requires Head(s) <= q < s.tails[s.cSeen]
    ensures Cell(p, s.cap) != Cell(q, s.cap)
  {
    hide Off, Stream, IsPowerOfTwo, Frame, Cell, Stored;
    LogsFacts(s);
    OffMonotone(s.sent, s.cSeen, |s.sent|);
    CellsDiffer(p, q, s.cap);
  }

  lemma NextCellsDiffer(s: State)
    requires Inv(s) && s.cap < TWO64 / 2 && Enabled(s, WriteByte) && Enabled(s, ReadByte)
    ensures FrameCell(Machine64, s.cap, Wrap(s.prod.tail), s.prod.n)
            != FrameCell(Machine64, s.cap, Wrap(s.cons.head), |s.cons.buf|)
  {
    hide IsPowerOfTwo, FrameCell, Cell, Wrap, Logs, Views, ProdOk, ConsOk, Stored;
    ReadInsideWindow(s);
    DataRaceFree(s, s.prod.tail + s.prod.n, s.cons.head + |s.cons.buf|);
    SameCell(s.cap, s.prod.tail, s.prod.n);
    SameCell(s.cap, s.cons.head, |s.cons.buf|);
  }

  /** In particular the next byte written and the next byte read never share a cell,
      on the 64-bit machine. */
  lemma NextAccessesDiffer(mem: seq<byte>, acts: seq<Action>)
    requires IsPowerOfTwo(|mem|) && |mem| < TWO64 / 2 && AllFit(|mem|, acts)
    requires Run(Machine64, Init(mem), acts).Some?
    ensures var s := Run(Machine64, Init(mem), acts).value;
            Enabled(s, WriteByte) && Enabled(s, ReadByte) ==>
              FrameCell(Machine64, s.cap, s.prod.tail, s.prod.n)
              != FrameCell(Machine64, s.cap, s.cons.head, |s.cons.buf|)
  {
    hide IsPowerOfTwo, Run, FrameCell, Cell, Wrap, Logs, Views, ProdOk, ConsOk, Stored, Trace;
    RunRefines(mem, acts);
    ReachableInv(mem, acts);
    var t := Run(Ideal, Init(mem), acts).value;
    if Enabled(t, WriteByte) && Enabled(t, ReadByte) {
      NextCellsDiffer(t);
    }
  }

  lemma ReadInsideWindow(s: State)
    requires Inv(s) && s.cons.CRead? && |s.cons.buf| < Wanted(s.cons.buf)
    ensures Head(s) == s.cons.head && s.cons.head + |s.cons.buf| < s.tails[s.cSeen]
  {
    hide Off, Stream, IsPowerOfTwo, Frame, Cell, Stored, ProdOk, Wanted;
    LogsFacts(s);
    ReadLength(s.sent[|s.got|], s.cons.buf);
    FrameAt(s.sent, |s.got|);
    OffMonotone(s.sent, |s.got| + 1, s.cSeen);
  }
}
