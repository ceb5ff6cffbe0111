/** The inductive invariant of the ring protocol, for counters that never wrap. */
module RingInvariant {
  import opened Words
  import opened Endian
  import opened Wrappers
  import opened Frames
  import opened RingProtocol

  /** The stream positions of the consumer and of the producer. */
  function H(s: State): nat
    requires |s.got| <= |s.sent|
  {
    Off(s.sent, |s.got|)
  }

  function T(s: State): nat {
    |Stream(s.sent)|
  }

  /** The part of a frame already in the ring but not yet published. */
  function Pending(s: State): seq<byte> {
    match s.prod
    case PWrite(m, _, n) => if n <= 4 + |m| then Frame(m)[..n] else []
    case _ => []
  }

  /** Every value a counter was given is the start of a message, in order. */
  predicate Logs(s: State) {
    && |s.got| <= |s.sent| && s.got == s.sent[..|s.got|]
    && Short(s.sent)
    && |s.heads| == |s.got| + 1 && (forall j {:trigger s.heads[j]} :: 0 <= j < |s.heads| ==> s.heads[j] == Off(s.sent, j))
    && |s.tails| == |s.sent| + 1 && (forall j {:trigger s.tails[j]} :: 0 <= j < |s.tails| ==> s.tails[j] == Off(s.sent, j))
  }

  /** Neither side has seen the future, the consumer has seen what it consumed, and
      even from the producer's stale view the ring is not overfull. */
  predicate Views(s: State)
    requires Logs(s)
  {
    && s.pSeen <= |s.got| <= s.cSeen <= |s.sent|
    && T(s) <= Off(s.sent, s.pSeen) + s.cap
  }

  /** The message is short enough for the prefix and for the empty ring. */
  predicate Frameable(cap: nat, m: Msg) {
    |m| < TWO32 && 4 + |m| <= cap
  }

  predicate ProdOk(s: State)
    requires Logs(s) && Views(s)
  {
    var head := Off(s.sent, s.pSeen);
    match s.prod
    case PIdle => true
    case PCall(m) => Frameable(s.cap, m)
    case PHead(m, h) => Frameable(s.cap, m) && h == head
    case PWrite(m, t, n) => |m| < TWO32 && t == T(s) && n <= 4 + |m| && t + 4 + |m| <= head + s.cap
    case PSee(h) => h == head
  }

  predicate ConsOk(s: State)
    requires Logs(s) && Views(s)
  {
    match s.cons
    case CIdle => true
    case CHead(h) => h == H(s)
    case CSee(h) => h == H(s)
    case CRead(h, buf) =>
      && h == H(s) && |s.got| < s.cSeen
      && buf <= Frame(s.sent[|s.got|])
  }

  predicate Inv(s: State) {
    && WF(s)
    && Logs(s)
    && Views(s)
    && ProdOk(s)
    && ConsOk(s)
    && Stored(s.mem, s.cap, H(s), Stream(s.sent) + Pending(s))
  }

  predicate Fits(cap: nat, a: Action) {
    a.Push? ==> PrefixHolds(cap, |a.m|)
  }

  predicate AllFit(cap: nat, acts: seq<Action>) {
    forall k :: 0 <= k < |acts| ==> Fits(cap, acts[k])
  }

  lemma AllFitSmallRing(cap: nat, acts: seq<Action>)
    requires cap <= TWO32
    ensures AllFit(cap, acts)
  {
  }

  lemma InitInv(mem: seq<byte>)
    requires IsPowerOfTwo(|mem|)
    ensures Inv(Init(mem))
  {
    hide IsPowerOfTwo, Cell, Frame, NeNat, And;
    assert Init(mem).sent[..0] == [];
  }

  lemma PrefixOff(sent: seq<Msg>, m: Msg)
    ensures forall j :: 0 <= j <= |sent| ==> Off(sent + [m], j) == Off(sent, j)
    ensures Off(sent + [m], |sent| + 1) == |Stream(sent)| + 4 + |m|
  {
    hide Off, Stream;
    forall j | 0 <= j <= |sent|
      ensures Off(sent + [m], j) == Off(sent, j)
    {
      OffOfPrefix(sent, m, j);
    }
    OffOfPrefix(sent + [m], m, 0);
    StreamSnoc(sent, m);
  }

  lemma LogsFacts(s: State)
    requires Logs(s) && Views(s)
    ensures Off(s.sent, s.pSeen) <= H(s) <= Off(s.sent, s.cSeen) <= T(s) <= H(s) + s.cap
    ensures Head(s) == H(s) && Tail(s) == T(s)
    ensures |s.got| < |s.sent| ==> H(s) + 4 + |s.sent[|s.got|]| <= T(s)
    ensures H(s) == T(s) <==> |s.got| == |s.sent|
    ensures forall j :: |s.got| <= j <= |s.sent| ==> (Off(s.sent, j) == H(s) <==> j == |s.got|)
  {
    hide Off, Stream;
    OffMonotone(s.sent, s.pSeen, |s.got|);
    OffMonotone(s.sent, |s.got|, s.cSeen);
    OffMonotone(s.sent, s.cSeen, |s.sent|);
    OffMonotone(s.sent, |s.got|, |s.sent|);
    forall j | |s.got| <= j <= |s.sent|
      ensures Off(s.sent, j) == H(s) <==> j == |s.got|
    {
      OffMonotone(s.sent, |s.got|, j);
    }
    if s.sent != [] {
      OffOfPrefix(s.sent, [], 0);
    }
    OffOfPrefix(s.sent, [], 0);
    if |s.got| < |s.sent| {
      FrameAt(s.sent, |s.got|);
    }
  }

  lemma CellOfFrame(cap: nat, pos: nat, n: nat)
    requires IsPowerOfTwo(cap)
    ensures FrameCell(Ideal, cap, pos, n) == Cell(pos + n, cap)
  {
  }

  lemma WriteByteInv(s: State)
    requires Inv(s) && Enabled(s, WriteByte)
    ensures Inv(Next(Ideal, s, WriteByte))
  {
    hide Off, Stream, IsPowerOfTwo, Frame, Cell, Stored;
    LogsFacts(s);
    var PWrite(m, t, n) := s.prod;
    var stream := Stream(s.sent) + Pending(s);
    CellOfFrame(s.cap, t, n);
    StoredWrite(s.mem, s.cap, H(s), stream, Frame(m)[n]);
    assert Frame(m)[..n] + [Frame(m)[n]] == Frame(m)[..n + 1];
    assert stream + [Frame(m)[n]] == Stream(s.sent) + Frame(m)[..n + 1];
  }

  lemma StoreTailInv(s: State)
    requires Inv(s) && Enabled(s, StoreTail)
    ensures Inv(Next(Ideal, s, StoreTail))
  {
    hide Off, Stream, IsPowerOfTwo, Frame, Cell, Stored;
    LogsFacts(s);
    var PWrite(m, t, n) := s.prod;
    var s' := Next(Ideal, s, StoreTail);
    PrefixOff(s.sent, m);
    StreamSnoc(s.sent, m);
    assert Frame(m)[..n] == Frame(m);
    assert Stream(s'.sent) + Pending(s') == Stream(s.sent) + Pending(s);
    assert s'.sent[..|s.got|] == s.sent[..|s.got|];
  }

  lemma ReadByteInv(s: State)
    requires Inv(s) && Enabled(s, ReadByte)
    ensures Inv(Next(Ideal, s, ReadByte))
  {
    hide Off, Stream, IsPowerOfTwo, Frame, Cell;
    LogsFacts(s);
    var CRead(h, buf) := s.cons;
    var m := s.sent[|s.got|];
    ReadLength(m, buf);
    CellOfFrame(s.cap, h, |buf|);
    FrameAt(s.sent, |s.got|);
    var p := h + |buf|;
    assert s.mem[Cell(p, s.cap)] == (Stream(s.sent) + Pending(s))[p] == Stream(s.sent)[p];
    assert Stream(s.sent)[p] == Stream(s.sent)[h..h + 4 + |m|][|buf|] == Frame(m)[|buf|];
  }

  /** A consumer that has read part of a frame knows how much is left of it. */
  lemma ReadLength(m: Msg, buf: seq<byte>)
    requires |m| < TWO32 && buf <= Frame(m)
    ensures |buf| < 4 ==> Wanted(buf) == 4
    ensures |buf| >= 4 ==> Wanted(buf) == |Frame(m)|
    ensures |buf| >= 4 && |buf| == Wanted(buf) ==> buf == Frame(m) && buf[4..] == m
  {
    FrameParts(m);
    if |buf| >= 4 {
      assert buf[..4] == Frame(m)[..4];
    }
  }

  lemma StoreHeadInv(s: State)
    requires Inv(s) && Enabled(s, StoreHead)
    ensures Inv(Next(Ideal, s, StoreHead))
  {
    hide Off, Stream, IsPowerOfTwo, Frame, Cell, Stored;
    LogsFacts(s);
    var m := s.sent[|s.got|];
    ReadLength(m, s.cons.buf);
    FrameAt(s.sent, |s.got|);
    var s' := Next(Ideal, s, StoreHead);
    assert s'.got == s.sent[..|s.got|] + [m] == s.sent[..|s'.got|];
    StoredLess(s.mem, s.cap, H(s), H(s'), Stream(s.sent) + Pending(s));
  }

  lemma StoredLess(mem: seq<byte>, cap: nat, from: nat, later: nat, stream: seq<byte>)
    requires IsPowerOfTwo(cap) && |mem| == cap && Stored(mem, cap, from, stream) && from <= later
    ensures Stored(mem, cap, later, stream)
  {
    hide Cell, IsPowerOfTwo;
  }

  lemma ProducerLoadInv(s: State, a: Action)
    requires Inv(s) && Enabled(s, a) && Fits(s.cap, a)
    requires a.Push? || a.LoadHead? || a.LoadTail? || a.PSeeHead? || a.PSeeTail?
    ensures Inv(Next(Ideal, s, a))
  {
    hide Off, Stream, IsPowerOfTwo, Frame, Cell, Stored, ConsOk;
    LogsFacts(s);
    var s' := Next(Ideal, s, a);
    match a {
      case LoadHead(k) => OffMonotone(s.sent, s.pSeen, k);
      case PSeeHead(k) => OffMonotone(s.sent, s.pSeen, k);
      case LoadTail => assert s'.prod.PWrite? ==> Frame(s'.prod.m)[..0] == [];
      case _ =>
    }
    assert Pending(s') == Pending(s);
    SameConsumer(s, s');
  }

  lemma SameConsumer(s: State, s': State)
    requires Logs(s) && Views(s) && ConsOk(s) && Logs(s') && Views(s')
    requires s'.cons == s.cons && s'.sent == s.sent && s'.got == s.got && s'.cSeen == s.cSeen
    ensures ConsOk(s')
  {
    hide Off, Stream, Frame;
  }

  lemma ConsumerLoadInv(s: State, a: Action)
    requires Inv(s) && Enabled(s, a)
    requires a.Pop? || a.AcquireTail? || a.CSeeHead? || a.CSeeTail?
    ensures Inv(Next(Ideal, s, a))
  {
    hide Off, Stream, IsPowerOfTwo, Frame, Cell, Stored, Frameable;
    LogsFacts(s);
  }

  /** Every step of either side keeps the invariant. */
  lemma StepInv(s: State, a: Action)
    requires Inv(s) && Enabled(s, a) && Fits(s.cap, a)
    ensures Inv(Next(Ideal, s, a))
  {
    hide *;
    match a
    case WriteByte => WriteByteInv(s);
    case StoreTail => StoreTailInv(s);
    case ReadByte => ReadByteInv(s);
    case StoreHead => StoreHeadInv(s);
    case Push(_) => ProducerLoadInv(s, a);
    case LoadHead(_) => ProducerLoadInv(s, a);
    case LoadTail => ProducerLoadInv(s, a);
    case PSeeHead(_) => ProducerLoadInv(s, a);
    case PSeeTail => ProducerLoadInv(s, a);
    case _ => ConsumerLoadInv(s, a);
  }

  /** Runs keep the invariant. */
  lemma {:induction false} RunInv(s: State, acts: seq<Action>)
    requires Inv(s) && AllFit(s.cap, acts)
    ensures Run(Ideal, s, acts).Some? ==> Inv(Run(Ideal, s, acts).value)
    decreases |acts|
  {
    hide Logs, Views, ProdOk, ConsOk, Stored, Enabled, Next, IsPowerOfTwo, Fits;
    if acts != [] {
      var before := acts[..|acts| - 1];
      RunInv(s, before);
      match Run(Ideal, s, before)
      case None =>
      case Some(t) =>
        if Enabled(t, acts[|acts| - 1]) {
          StepInv(t, acts[|acts| - 1]);
        }
    }
  }

  /** The invariant holds in every state any interleaving reaches. */
  lemma ReachableInv(mem: seq<byte>, acts: seq<Action>)
    requires IsPowerOfTwo(|mem|) && AllFit(|mem|, acts)
    ensures Run(Ideal, Init(mem), acts).Some? ==> Inv(Run(Ideal, Init(mem), acts).value)
  {
    hide Run, Fits, IsPowerOfTwo;
    InitInv(mem);
    RunInv(Init(mem), acts);
  }

  /** The live window of the ring holds exactly the unconsumed frames. */
  lemma WindowParses(s: State)
    requires Inv(s)
    ensures 0 <= Tail(s) - Head(s) <= s.cap
    ensures Window(s.mem, s.cap, Head(s), Tail(s) - Head(s)) == Stream(s.sent[|s.got|..])
    ensures Short(s.sent[|s.got|..])
  {
    hide Off, Stream, IsPowerOfTwo, Frame, Cell, Stored, Window, ProdOk, ConsOk;
    LogsFacts(s);
    var stream := Stream(s.sent);
    WindowOfStored(s.mem, s.cap, H(s), stream + Pending(s), H(s), T(s) - H(s));
    StreamRest(s.sent, |s.got|);
    assert (stream + Pending(s))[H(s)..T(s)] == stream[H(s)..];
  }
}
