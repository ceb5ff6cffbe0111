/** What `used`, `free` and `is_empty` tell a caller, and for how long it stays true. */
module RingObserve {
  import opened Words
  import opened Endian
  import opened Wrappers
  import opened Frames
  import opened RingProtocol
  import opened RingInvariant
  import opened RingWrap
  import opened RingFifo

  // ------------------------------------------------ what an owner observes

  /** The pair of counters an owner's query returns: `used` is their wrapped difference,
      never more than `cap`, and the counters are equal exactly when it is zero. */
  lemma OwnerUsed(s: State, a: Action)
    requires Inv(s) && s.cap < TWO64 / 2 && Enabled(s, a) && (a.PSeeTail? || a.CSeeTail?)
    ensures var (h, t) := if a.PSeeTail? then (s.prod.head, Tail(s)) else (s.cons.head, s.tails[a.k]);
            && 0 <= t - h <= s.cap
            && Minus(Machine64, Wrap(t), Wrap(h)) == t - h
            && (Wrap(t) == Wrap(h) <==> t == h)
            && (if a.PSeeTail? then Next(Ideal, s, a).preplies == s.preplies + [PSaw(h, t)]
                else Next(Ideal, s, a).creplies == s.creplies + [CSaw(h, t)])
  {
    hide Off, Stream, IsPowerOfTwo, Frame, Cell, Stored, Wrap;
    LogsFacts(s);
    match a {
      case PSeeTail => WrapDifference(Tail(s), s.prod.head);
      case CSeeTail(k) =>
        OffMonotone(s.sent, |s.got|, k);
        OffMonotone(s.sent, k, |s.sent|);
        WrapDifference(s.tails[k], s.cons.head);
    }
  }

  /** Published counter values are never taken back. */
  lemma {:induction false} RunKeepsCounters(s: State, acts: seq<Action>)
    requires WF(s)
    ensures match Run(Ideal, s, acts)
            case None => true
            case Some(t) => s.heads <= t.heads && s.tails <= t.tails
    decreases |acts|
  {
    hide Enabled, Next, WF;
    if acts != [] {
      var before, a := acts[..|acts| - 1], acts[|acts| - 1];
      RunKeepsCounters(s, before);
      match Run(Ideal, s, before)
      case None =>
      case Some(t) =>
        if Enabled(t, a) {
          KeepsCounters(t, a);
        }
    }
  }

  lemma KeepsCounters(s: State, a: Action)
    requires WF(s) && Enabled(s, a)
    ensures var s' := Next(Ideal, s, a);
            s.heads <= s'.heads && s.tails <= s'.tails
  {
    hide IsPowerOfTwo, FrameCell, Frame, Wanted, Refused;
  }

  /** A third observer loads `head` first. What it gets is the newest head of some state
      `w`, the one in which the consumer stored it, or the initial one. Then anything
      happens, and it loads `tail`: at least as new a value as the consumer had seen when
      it stored that head, since the load of `head` acquires the store. However stale both
      values are by then, the difference does not underflow, and the wrapped difference is
      the true one while less than 2^64 bytes pass between the loads. */
  lemma ThirdObserverUsed(w: State, acts: seq<Action>, t: State, j: nat)
    requires Inv(w) && AllFit(w.cap, acts) && Run(Ideal, w, acts) == Some(t)
    requires w.cSeen <= j < |t.tails|
    ensures Head(w) <= t.tails[j]
    ensures t.tails[j] - Head(w) < TWO64 ==>
              Minus(Machine64, Wrap(t.tails[j]), Wrap(Head(w))) == t.tails[j] - Head(w)
    ensures Head(w) == Head(t) ==> t.tails[j] - Head(w) <= w.cap
  {
    hide Off, Stream, IsPowerOfTwo, Frame, Cell, Stored, Wrap, Run, Fits, ProdOk, ConsOk;
    RunInv(w, acts);
    RunKeepsCounters(w, acts);
    LogsFacts(w);
    LogsFacts(t);
    var i := |w.got|;
    assert t.heads[i] == w.heads[i] == Head(w);
    OffMonotone(t.sent, i, j);
    OffMonotone(t.sent, j, |t.sent|);
    if t.tails[j] - Head(w) < TWO64 {
      WrapDifference(t.tails[j], Head(w));
    }
  }

  // ------------------------------------------- free space stays free space

  /** The producer has seen room for `m` and is at most on its way to pushing it. */
  predicate RoomFor(s: State, m: Msg)
    requires Logs(s) && Views(s)
  {
    && T(s) + 4 + |m| <= Off(s.sent, s.pSeen) + s.cap
    && match s.prod
       case PIdle => true
       case PCall(x) => x == m
       case PHead(x, _) => x == m
       case PWrite(x, _, _) => x == m
       case PSee(_) => false
  }

  /** Anything the consumer does, and the steps of pushing `m`. */
  predicate OnlyPushes(a: Action, m: Msg) {
    (a.Push? ==> a.m == m) && !a.PSeeHead? && !a.PSeeTail?
  }

  /** If the producer reads `free() >= 4 + |m|`, there is room for `m`. */
  lemma SeeingRoom(s: State, m: Msg)
    requires Inv(s) && Enabled(s, PSeeTail) && s.cap < TWO64 / 2
    requires s.cap - Minus(Machine64, Wrap(Tail(s)), Wrap(s.prod.head)) >= 4 + |m|
    ensures Inv(Next(Ideal, s, PSeeTail)) && RoomFor(Next(Ideal, s, PSeeTail), m)
  {
    hide Off, Stream, IsPowerOfTwo, Frame, Cell, Stored, Wrap;
    StepInv(s, PSeeTail);
    OwnerUsed(s, PSeeTail);
    LogsFacts(s);
  }

  lemma RoomStep(s: State, m: Msg, a: Action)
    requires Inv(s) && RoomFor(s, m) && Enabled(s, a) && Fits(s.cap, a) && OnlyPushes(a, m) && !a.StoreTail?
    ensures var s' := Next(Ideal, s, a);
            && Inv(s') && RoomFor(s', m)
            && s'.preplies == s.preplies
            && (Lin(Ideal, s, a).Some? ==> !Lin(Ideal, s, a).value.Refuse?)
  {
    hide Off, Stream, IsPowerOfTwo, Frame, Cell, FrameCell, Stored, ConsOk, Wanted, Refused;
    StepInv(s, a);
    match a
    case LoadHead(k) => RoomAtHead(s, m, k);
    case LoadTail => RoomAtTail(s, m);
    case Push(_) => LogsFacts(s);
    case _ =>
  }

  lemma RoomAtHead(s: State, m: Msg, k: nat)
    requires Inv(s) && RoomFor(s, m) && Enabled(s, LoadHead(k))
    ensures T(s) + 4 + |m| <= Off(s.sent, k) + s.cap
    ensures !Refused(Ideal, s.cap, Tail(s), s.heads[k], m)
  {
    hide Off, Stream, IsPowerOfTwo, Frame, Cell, Stored, ConsOk;
    LogsFacts(s);
    OffMonotone(s.sent, s.pSeen, k);
    OffMonotone(s.sent, k, |s.sent|);
  }

  lemma RoomAtTail(s: State, m: Msg)
    requires Inv(s) && RoomFor(s, m) && Enabled(s, LoadTail)
    ensures !Refused(Ideal, s.cap, Tail(s), s.prod.head, m)
  {
    hide Off, Stream, IsPowerOfTwo, Frame, Cell, Stored, ConsOk;
    LogsFacts(s);
  }

  /** Once the producer has seen room for `m`, it keeps it, and the call returns nothing
      until it publishes. */
  lemma {:induction false} RoomIsKept(s: State, m: Msg, acts: seq<Action>)
    requires Inv(s) && RoomFor(s, m) && AllFit(s.cap, acts)
    requires forall k :: 0 <= k < |acts| ==> OnlyPushes(acts[k], m) && !acts[k].StoreTail?
    ensures match Run(Ideal, s, acts)
            case None => true
            case Some(t) =>
              && Inv(t) && RoomFor(t, m) && t.preplies == s.preplies
              && PushAnswers(Trace(Ideal, s, acts)) == []
              && (Enabled(t, StoreTail) ==>
                    Next(Ideal, t, StoreTail).preplies == s.preplies + [Pushed(true)]
                    && Next(Ideal, t, StoreTail).sent == t.sent + [m])
    decreases |acts|
  {
    hide Logs, Views, ProdOk, ConsOk, Stored, IsPowerOfTwo, Frame, Cell, FrameCell, Wanted, Lin;
    if acts != [] {
      var before, a := acts[..|acts| - 1], acts[|acts| - 1];
      RoomIsKept(s, m, before);
      match Run(Ideal, s, before)
      case None =>
      case Some(t) =>
        if Enabled(t, a) {
          RoomStep(t, m, a);
          NeverAccepts(t, a);
          AnswersOfLog(Trace(Ideal, s, before), Lin(Ideal, t, a));
        }
    }
  }

  lemma NeverAccepts(s: State, a: Action)
    requires WF(s) && Enabled(s, a) && !a.StoreTail?
    ensures Lin(Ideal, s, a).Some? ==> !Lin(Ideal, s, a).value.Accept?
  {
  }

  /** What the 64-bit machine sees of a state when a query makes its second load. */
  lemma SeeingOnMachine(s: State, a: Action)
    requires Inv(s) && WF(Wrapped(s))
    ensures Wrapped(s).cap == s.cap && Tail(Wrapped(s)) == Wrap(Tail(s))
    ensures Enabled(Wrapped(s), a) == Enabled(s, a)
    ensures a == PSeeTail && Enabled(s, a) ==> Wrapped(s).prod.head == Wrap(s.prod.head)
    ensures a.CSeeTail? && Enabled(s, a) ==>
              Wrapped(s).cons.head == Wrap(s.cons.head) && Wrapped(s).tails[a.k] == Wrap(s.tails[a.k])
  {
    hide Logs, Views, ProdOk, ConsOk, Stored, IsPowerOfTwo, Wrap;
    EnabledRefines(s, a);
  }

  lemma SameReplies(s: State, t: State)
    ensures t.preplies == s.preplies ==> Wrapped(t).preplies == Wrapped(s).preplies
    ensures t.creplies == s.creplies ==> Wrapped(t).creplies == Wrapped(s).creplies
    ensures Wrapped(t).sent == t.sent && Wrapped(t).got == t.got && Wrapped(s).got == s.got
  {
  }

  lemma PushedReply(s: State, t: State)
    requires t.preplies == s.preplies + [Pushed(true)]
    ensures Wrapped(t).preplies == Wrapped(s).preplies + [Pushed(true)] && Wrapped(t).sent == t.sent
  {
  }

  lemma PoppedReply(s: State, t: State, m: Option<Msg>)
    requires t.creplies == s.creplies + [Popped(m)]
    ensures Wrapped(t).creplies == Wrapped(s).creplies + [Popped(m)]
  {
  }

  lemma RoomOnMachine(s: State, m: Msg, acts: seq<Action>)
    requires Inv(s) && RoomFor(s, m) && s.cap < TWO64 / 2 && AllFit(s.cap, acts)
    requires forall k :: 0 <= k < |acts| ==> OnlyPushes(acts[k], m) && !acts[k].StoreTail?
    ensures WF(Wrapped(s))
    ensures match Run(Machine64, Wrapped(s), acts)
            case None => true
            case Some(t) =>
              && t.preplies == Wrapped(s).preplies && PushAnswers(Trace(Machine64, Wrapped(s), acts)) == []
              && (Enabled(t, StoreTail) ==>
                    && Next(Machine64, t, StoreTail).preplies == Wrapped(s).preplies + [Pushed(true)]
                    && Next(Machine64, t, StoreTail).sent == t.sent + [m])
  {
    hide Logs, Views, ProdOk, ConsOk, Stored, IsPowerOfTwo, Run, Trace, Fits, OnlyPushes;
    hide Enabled, Next, Wrapped, PushAnswers, RoomFor, Wrap;
    RoomIsKept(s, m, acts);
    RunRefinesFrom(s, acts);
    match Run(Ideal, s, acts)
    case None =>
    case Some(t) =>
      StepRefines(t, StoreTail);
      SameReplies(s, t);
      if Enabled(t, StoreTail) {
        PushedReply(s, Next(Ideal, t, StoreTail));
      }
  }

  /** Stability of `free` on the 64-bit machine. In any reachable state, if the producer
      reads `free() >= 4 + |m|`, then no run of consumer steps and of the steps of
      `push(m)` refuses the message. The call returns nothing until it publishes, so what
      it returns is `True`. */
  lemma SeenRoomIsKept(mem: seq<byte>, before: seq<Action>, m: Msg, acts: seq<Action>)
    requires IsPowerOfTwo(|mem|) && |mem| < TWO64 / 2 && AllFit(|mem|, before) && AllFit(|mem|, acts)
    requires Run(Machine64, Init(mem), before).Some?
    requires var s := Run(Machine64, Init(mem), before).value;
             Enabled(s, PSeeTail) && s.cap - Minus(Machine64, Tail(s), s.prod.head) >= 4 + |m|
    requires forall k :: 0 <= k < |acts| ==> OnlyPushes(acts[k], m) && !acts[k].StoreTail?
    ensures var s := Next(Machine64, Run(Machine64, Init(mem), before).value, PSeeTail);
            match Run(Machine64, s, acts)
            case None => true
            case Some(t) =>
              && t.preplies == s.preplies && PushAnswers(Trace(Machine64, s, acts)) == []
              && (Enabled(t, StoreTail) ==>
                    Next(Machine64, t, StoreTail).preplies == s.preplies + [Pushed(true)]
                    && Next(Machine64, t, StoreTail).sent == t.sent + [m])
  {
    hide Logs, Views, ProdOk, ConsOk, Stored, IsPowerOfTwo, Run, Trace, Fits, OnlyPushes;
    hide Enabled, Next, Wrapped, PushAnswers, RoomFor, Wrap;
    RunRefines(mem, before);
    ReachableInv(mem, before);
    var s := Run(Ideal, Init(mem), before).value;
    SeeingOnMachine(s, PSeeTail);
    SeeingRoom(s, m);
    StepRefines(s, PSeeTail);
    RoomOnMachine(Next(Ideal, s, PSeeTail), m, acts);
  }

  // ------------------------------------------------- a seen message stays

  /** The consumer has seen an unconsumed message and is at most on its way to it. */
  predicate SureOfMessage(s: State) {
    |s.got| < s.cSeen && !s.cons.CSee?
  }

  /** If the consumer reads `is_empty() == False`, it is sure of a message. */
  lemma SeeingMessage(s: State, k: nat)
    requires Inv(s) && Enabled(s, CSeeTail(k)) && s.cap < TWO64 / 2
    requires Wrap(s.cons.head) != Wrap(s.tails[k])
    ensures Inv(Next(Ideal, s, CSeeTail(k))) && SureOfMessage(Next(Ideal, s, CSeeTail(k)))
  {
    hide Off, Stream, IsPowerOfTwo, Frame, Cell, Stored, Wrap;
    StepInv(s, CSeeTail(k));
    OwnerUsed(s, CSeeTail(k));
    LogsFacts(s);
  }

  lemma MessageStep(s: State, a: Action)
    requires Inv(s) && SureOfMessage(s) && Enabled(s, a) && Fits(s.cap, a)
    requires !a.CSeeHead? && !a.CSeeTail? && !a.StoreHead?
    ensures var s' := Next(Ideal, s, a);
            Inv(s') && SureOfMessage(s') && s'.creplies == s.creplies && s'.got == s.got
  {
    hide Off, Stream, IsPowerOfTwo, Frame, Cell, FrameCell, Stored, ProdOk, Wanted, Refused;
    StepInv(s, a);
    LogsFacts(s);
  }

  /** A consumer that is sure of a message stays sure of it until it has consumed it. */
  lemma {:induction false} MessageIsKept(s: State, acts: seq<Action>)
    requires Inv(s) && SureOfMessage(s) && AllFit(s.cap, acts)
    requires forall k :: 0 <= k < |acts| ==> !acts[k].CSeeHead? && !acts[k].CSeeTail? && !acts[k].StoreHead?
    ensures match Run(Ideal, s, acts)
            case None => true
            case Some(t) =>
              && Inv(t) && SureOfMessage(t) && t.creplies == s.creplies && t.got == s.got
              && (Enabled(t, StoreHead) ==>
                    Next(Ideal, t, StoreHead).creplies == s.creplies + [Popped(Some(t.sent[|t.got|]))])
    decreases |acts|
  {
    hide Logs, Views, ProdOk, ConsOk, Stored, IsPowerOfTwo, Enabled, Next, SureOfMessage;
    if acts != [] {
      var before, a := acts[..|acts| - 1], acts[|acts| - 1];
      MessageIsKept(s, before);
      match Run(Ideal, s, before)
      case None =>
      case Some(t) =>
        if Enabled(t, a) {
          MessageStep(t, a);
          StoreHeadDelivers(Next(Ideal, t, a));
        }
    } else {
      StoreHeadDelivers(s);
    }
  }

  lemma StoreHeadDelivers(s: State)
    requires Inv(s)
    ensures Enabled(s, StoreHead) ==>
              |s.got| < |s.sent| &&
              Next(Ideal, s, StoreHead).creplies == s.creplies + [Popped(Some(s.sent[|s.got|]))]
  {
    hide Off, Stream, IsPowerOfTwo, Frame, Cell, FrameCell, Stored, ProdOk, Wanted;
    if Enabled(s, StoreHead) {
      ReadLength(s.sent[|s.got|], s.cons.buf);
    }
  }

  lemma MessageOnMachine(s: State, acts: seq<Action>)
    requires Inv(s) && SureOfMessage(s) && s.cap < TWO64 / 2 && AllFit(s.cap, acts)
    requires forall i :: 0 <= i < |acts| ==> !acts[i].CSeeHead? && !acts[i].CSeeTail? && !acts[i].StoreHead?
    ensures WF(Wrapped(s))
    ensures match Run(Machine64, Wrapped(s), acts)
            case None => true
            case Some(t) =>
              && t.creplies == Wrapped(s).creplies && t.got == Wrapped(s).got
              && (Enabled(t, StoreHead) ==>
                    && |t.got| < |t.sent|
                    && Next(Machine64, t, StoreHead).creplies
                       == Wrapped(s).creplies + [Popped(Some(t.sent[|t.got|]))])
  {
    hide Logs, Views, ProdOk, ConsOk, Stored, IsPowerOfTwo, Run, Trace, Fits;
    hide Enabled, Next, Wrapped, SureOfMessage, Wrap;
    MessageIsKept(s, acts);
    RunRefinesFrom(s, acts);
    match Run(Ideal, s, acts)
    case None =>
    case Some(t) =>
      StepRefines(t, StoreHead);
      SameReplies(s, t);
      if Enabled(t, StoreHead) {
        StoreHeadDelivers(t);
        PoppedReply(s, Next(Ideal, t, StoreHead), Some(t.sent[|t.got|]));
      }
  }

  /** Stability of `is_empty() == False` on the 64-bit machine: in any reachable state, if
      the consumer reads unequal counters, then whatever the producer does meanwhile, the
      consumer's next `pop` does not return `None`; it delivers the next message. */
  lemma SeenMessageIsKept(mem: seq<byte>, before: seq<Action>, k: nat, acts: seq<Action>)
    requires IsPowerOfTwo(|mem|) && |mem| < TWO64 / 2 && AllFit(|mem|, before) && AllFit(|mem|, acts)
    requires Run(Machine64, Init(mem), before).Some?
    requires var s := Run(Machine64, Init(mem), before).value;
             Enabled(s, CSeeTail(k)) && s.cons.head != s.tails[k]
    requires forall i :: 0 <= i < |acts| ==> !acts[i].CSeeHead? && !acts[i].CSeeTail? && !acts[i].StoreHead?
    ensures var s := Next(Machine64, Run(Machine64, Init(mem), before).value, CSeeTail(k));
            match Run(Machine64, s, acts)
            case None => true
            case Some(t) =>
              && t.creplies == s.creplies && t.got == s.got
              && (Enabled(t, StoreHead) ==>
                    && |t.got| < |t.sent|
                    && Next(Machine64, t, StoreHead).creplies == s.creplies + [Popped(Some(t.sent[|t.got|]))])
  {
    hide Logs, Views, ProdOk, ConsOk, Stored, IsPowerOfTwo, Run, Trace, Fits;
    hide Enabled, Next, Wrapped, SureOfMessage, Wrap;
    RunRefines(mem, before);
    ReachableInv(mem, before);
    var s := Run(Ideal, Init(mem), before).value;
    SeeingOnMachine(s, CSeeTail(k));
    SeeingMessage(s, k);
    StepRefines(s, CSeeTail(k));
    MessageOnMachine(Next(Ideal, s, CSeeTail(k)), acts);
  }
}
