/** The ring buffer as a transition system: one producer and one consumer, where
    every atomic load, every single-byte access and every publishing store is a
    step of its own. */
module RingProtocol {
  import opened Words
  import opened Endian
  import opened Wrappers
  import opened Frames

  /** `Machine64` computes as a release build does; `Ideal` never wraps. */
  datatype Arith = Machine64 | Ideal

  function Plus(ar: Arith, x: nat, y: nat): nat {
    if ar.Machine64? then Wrap(x + y) else x + y
  }

  function Minus(ar: Arith, x: nat, y: nat): nat {
    if ar.Machine64? then Wrap(x - y) else if x >= y then x - y else 0
  }

  /** Where the producer is in `push` (or in `used`, `free`, `is_empty`, `is_full`,
      which all load `head` and then `tail`). */
  datatype Producer =
    | PIdle
    | PCall(m: Msg)
    | PHead(m: Msg, head: nat)
    | PWrite(m: Msg, tail: nat, n: nat)
    | PSee(head: nat)

  /** Where the consumer is in `pop`, or in one of the same queries. */
  datatype Consumer =
    | CIdle
    | CHead(head: nat)
    | CRead(head: nat, buf: seq<byte>)
    | CSee(head: nat)

  datatype PReply = Pushed(ok: bool) | TooLarge | PSaw(head: nat, tail: nat)
  datatype CReply = Popped(m: Option<Msg>) | CSaw(head: nat, tail: nat)

  /** `heads` and `tails` are the values each counter has been given, newest last;
      `pSeen` and `cSeen` index the newest value of the other side's counter each
      side has loaded. `sent` and `got` log the published and the consumed messages. */
  datatype State = State(
    cap: nat,
    mem: seq<byte>,
    heads: seq<nat>,
    tails: seq<nat>,
    prod: Producer,
    cons: Consumer,
    pSeen: nat,
    cSeen: nat,
    sent: seq<Msg>,
    got: seq<Msg>,
    preplies: seq<PReply>,
    creplies: seq<CReply>)

  predicate WF(s: State) {
    && IsPowerOfTwo(s.cap)
    && |s.mem| == s.cap
    && s.pSeen < |s.heads|
    && s.cSeen < |s.tails|
  }

  function Head(s: State): nat
    requires |s.heads| > 0
  {
    s.heads[|s.heads| - 1]
  }

  function Tail(s: State): nat
    requires |s.tails| > 0
  {
    s.tails[|s.tails| - 1]
  }

  /** A fresh ring over memory with arbitrary contents. */
  function Init(mem: seq<byte>): State {
    State(|mem|, mem, [0], [0], PIdle, CIdle, 0, 0, [], [], [], [])
  }

  /** A load of the other side's counter may return any value it has been given that
      is not older than the last one seen: that is the index `k`. */
  datatype Action =
    | Push(m: Msg) | LoadHead(k: nat) | LoadTail | WriteByte | StoreTail
    | Pop | AcquireTail(k: nat) | ReadByte | StoreHead
    | PSeeHead(k: nat) | PSeeTail | CSeeHead | CSeeTail(k: nat)

  /** The check of `push`: the message does not fit in what the producer sees as free. */
  predicate Refused(ar: Arith, cap: nat, tail: nat, head: nat, m: Msg) {
    Plus(ar, Minus(ar, tail, head), 4 + |m|) > cap
  }

  /** The cell of byte `n` of a frame at `pos`: the prefix is copied from `pos`, the
      payload from `pos + 4`. */
  function FrameCell(ar: Arith, cap: nat, pos: nat, n: nat): (c: nat)
    requires IsPowerOfTwo(cap)
    ensures c < cap
  {
    Cell(if n < 4 then Plus(ar, pos, n) else Plus(ar, Plus(ar, pos, 4), n - 4), cap)
  }

  /** How many bytes the consumer wants, knowing the bytes it has. */
  function Wanted(buf: seq<byte>): nat {
    if |buf| < 4 then 4 else 4 + NeNat(buf[..4])
  }

  predicate Enabled(s: State, a: Action)
    requires WF(s)
  {
    match a
    case Push(m) => s.prod.PIdle?
    case LoadHead(k) => s.prod.PCall? && s.pSeen <= k < |s.heads|
    case LoadTail => s.prod.PHead?
    case WriteByte => s.prod.PWrite? && s.prod.n < 4 + |s.prod.m|
    case StoreTail => s.prod.PWrite? && s.prod.n == 4 + |s.prod.m|
    case Pop => s.cons.CIdle?
    case AcquireTail(k) => s.cons.CHead? && s.cSeen <= k < |s.tails|
    case ReadByte => s.cons.CRead? && |s.cons.buf| < Wanted(s.cons.buf)
    case StoreHead => s.cons.CRead? && |s.cons.buf| == Wanted(s.cons.buf) && |s.cons.buf| >= 4
    case PSeeHead(k) => s.prod.PIdle? && s.pSeen <= k < |s.heads|
    case PSeeTail => s.prod.PSee?
    case CSeeHead => s.cons.CIdle?
    case CSeeTail(k) => s.cons.CSee? && s.cSeen <= k < |s.tails|
  }

  function Next(ar: Arith, s: State, a: Action): (s': State)
    requires WF(s) && Enabled(s, a)
    ensures WF(s') && s'.cap == s.cap
  {
    match a
    case Push(m) =>
      if 4 + |m| > s.cap then s.(preplies := s.preplies + [TooLarge])
      else s.(prod := PCall(m))
    case LoadHead(k) =>
      s.(prod := PHead(s.prod.m, s.heads[k]), pSeen := k)
    case LoadTail =>
      var PHead(m, head) := s.prod;
      if Refused(ar, s.cap, Tail(s), head, m)
      then s.(prod := PIdle, preplies := s.preplies + [Pushed(false)])
      else s.(prod := PWrite(m, Tail(s), 0))
    case WriteByte =>
      var PWrite(m, tail, n) := s.prod;
      s.(mem := s.mem[FrameCell(ar, s.cap, tail, n) := Frame(m)[n]], prod := PWrite(m, tail, n + 1))
    case StoreTail =>
      var PWrite(m, tail, n) := s.prod;
      s.(tails := s.tails + [Plus(ar, tail, 4 + |m|)], sent := s.sent + [m],
         prod := PIdle, preplies := s.preplies + [Pushed(true)])
    case Pop =>
      s.(cons := CHead(Head(s)))
    case AcquireTail(k) =>
      if s.cons.head == s.tails[k]
      then s.(cons := CIdle, cSeen := k, creplies := s.creplies + [Popped(None)])
      else s.(cons := CRead(s.cons.head, []), cSeen := k)
    case ReadByte =>
      var CRead(head, buf) := s.cons;
      s.(cons := CRead(head, buf + [s.mem[FrameCell(ar, s.cap, head, |buf|)]]))
    case StoreHead =>
      var CRead(head, buf) := s.cons;
      s.(heads := s.heads + [Plus(ar, head, |buf|)], got := s.got + [buf[4..]],
         cons := CIdle, creplies := s.creplies + [Popped(Some(buf[4..]))])
    case PSeeHead(k) =>
      s.(prod := PSee(s.heads[k]), pSeen := k)
    case PSeeTail =>
      s.(prod := PIdle, preplies := s.preplies + [PSaw(s.prod.head, Tail(s))])
    case CSeeHead =>
      s.(cons := CSee(Head(s)))
    case CSeeTail(k) =>
      s.(cons := CIdle, cSeen := k, creplies := s.creplies + [CSaw(s.cons.head, s.tails[k])])
  }

  /** The state after a sequence of actions, if each is enabled when its turn comes. */
  function Run(ar: Arith, s: State, acts: seq<Action>): (r: Option<State>)
    requires WF(s)
    ensures r.Some? ==> WF(r.value) && r.value.cap == s.cap
    decreases |acts|
  {
    if acts == [] then Some(s)
    else
      match Run(ar, s, acts[..|acts| - 1])
      case None => None
      case Some(t) =>
        var a := acts[|acts| - 1];
        if Enabled(t, a) then Some(Next(ar, t, a)) else None
  }

  /** The linearization points: what each step means for the queue of messages. A
      refusal counts at the load of `head`, an empty answer at the load of `tail`;
      `lag` is how many of the other side's updates that load missed. */
  datatype Event =
    | Accept(m: Msg)
    | Refuse(m: Msg, lag: nat)
    | Deliver(m: Msg)
    | FindEmpty(lag: nat)

  function Lin(ar: Arith, s: State, a: Action): Option<Event>
    requires WF(s) && Enabled(s, a)
  {
    match a
    case LoadHead(k) =>
      if Refused(ar, s.cap, Tail(s), s.heads[k], s.prod.m)
      then Some(Refuse(s.prod.m, |s.heads| - 1 - k)) else None
    case StoreTail => Some(Accept(s.prod.m))
    case AcquireTail(k) =>
      if s.cons.head == s.tails[k] then Some(FindEmpty(|s.tails| - 1 - k)) else None
    case StoreHead => Some(Deliver(s.cons.buf[4..]))
    case _ => None
  }

  function Log(events: seq<Event>, e: Option<Event>): seq<Event> {
    match e
    case None => events
    case Some(e) => events + [e]
  }

  /** The events of a run, in order. */
  function Trace(ar: Arith, s: State, acts: seq<Action>): seq<Event>
    requires WF(s) && Run(ar, s, acts).Some?
    decreases |acts|
  {
    if acts == [] then []
    else
      var before := acts[..|acts| - 1];
      Log(Trace(ar, s, before), Lin(ar, Run(ar, s, before).value, acts[|acts| - 1]))
  }

  /** Running two sequences of actions one after the other. */
  lemma {:induction false} RunConcat(ar: Arith, s: State, a: seq<Action>, b: seq<Action>)
    requires WF(s)
    ensures Run(ar, s, a + b) ==
            match Run(ar, s, a)
            case None => None
            case Some(t) => Run(ar, t, b)
    decreases |b|
  {
    hide Enabled, Next, WF;
    if b == [] {
      assert a + b == a;
    } else {
      RunConcat(ar, s, a, b[..|b| - 1]);
      assert (a + b)[..|a + b| - 1] == a + b[..|b| - 1];
    }
  }
}
