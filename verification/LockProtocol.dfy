/** The reader-writer lock and the memory it protects as a transition system: any
    number of processes, with the load and the compare-and-swap of a reader, every
    byte access and every unlock as steps of their own. */
module LockProtocol {
  import opened Words
  import opened Wrappers

  type Pid = nat

  /** A write of `src` at `off`; `write`, `write_mixed` and `zero` are all of this kind. */
  datatype WriteOp = WriteOp(off: nat, src: seq<byte>)

  /** One byte a reader has read, and where. */
  datatype Probe = Probe(at: nat, val: byte)

  /** Where a process is. `cur` is the value a reader loaded and will compare with; a
      reader probes any bytes in any order; `done` are the bytes a writer has copied.
      `base` is the number of writes completed when a reader got the lock. */
  datatype Pc =
    | Idle
    | RSpin
    | RTry(cur: int)
    | RHold(base: nat, probes: seq<Probe>)
    | WSpin(op: WriteOp)
    | WHold(op: WriteOp, done: set<nat>)

  /** A finished read: what it saw, and how many writes it saw the effect of. */
  datatype Seen = Seen(base: nat, probes: seq<Probe>)

  /** `init` is the data area at the start, `log` the completed writes in the order of
      their write locks, `seen` the completed reads. `changes` counts successful changes
      of the word, `failures` failed compare-and-swaps of readers. */
  datatype State = State(
    word: int,
    mem: seq<byte>,
    procs: map<Pid, Pc>,
    init: seq<byte>,
    log: seq<WriteOp>,
    seen: seq<Seen>,
    changes: nat,
    failures: nat)

  datatype Action =
    | StartRead(p: Pid) | Load(p: Pid) | CasRead(p: Pid) | Peek(p: Pid, at: nat) | ReadUnlock(p: Pid)
    | StartWrite(p: Pid, op: WriteOp) | CasWrite(p: Pid) | Poke(p: Pid, i: nat) | WriteUnlock(p: Pid)
    | Reinit

  /** A 32-bit signed result, as `AtomicI32` computes it. */
  function WrapI32(x: int): int {
    (x + 0x8000_0000) % 0x1_0000_0000 - 0x8000_0000
  }

  function Readers(procs: map<Pid, Pc>): set<Pid> {
    set p | p in procs && procs[p].RHold?
  }

  function Writers(procs: map<Pid, Pc>): set<Pid> {
    set p | p in procs && procs[p].WHold?
  }

  /** The bounds checks made before the lock is taken. */
  predicate InArea(mem: seq<byte>, op: WriteOp) {
    op.off + |op.src| <= |mem|
  }

  predicate Enabled(s: State, a: Action) {
    if a.Reinit? then Readers(s.procs) == {} && Writers(s.procs) == {}
    else
      a.p in s.procs &&
      var pc := s.procs[a.p];
      match a
      case StartRead(_) => pc.Idle?
      case Load(_) => pc.RSpin?
      case CasRead(_) => pc.RTry?
      case Peek(_, at) => pc.RHold? && at < |s.mem|
      case ReadUnlock(_) => pc.RHold?
      case StartWrite(_, op) => pc.Idle? && InArea(s.mem, op)
      case CasWrite(_) => pc.WSpin?
      case Poke(_, i) => pc.WHold? && i < |pc.op.src| && pc.op.off + i < |s.mem|
      case WriteUnlock(_) => pc.WHold? && (forall i :: 0 <= i < |pc.op.src| ==> i in pc.done)
      case Reinit => true
  }

  function Goto(s: State, p: Pid, pc: Pc): State {
    s.(procs := s.procs[p := pc])
  }

  /** The word is given a new value by a successful atomic operation. */
  function Change(s: State, w: int): State {
    s.(word := w, changes := s.changes + 1)
  }

  function Next(s: State, a: Action): State
    requires Enabled(s, a)
  {
    match a
    case StartRead(p) => Goto(s, p, RSpin)
    case Load(p) =>
      if s.word >= 0 then Goto(s, p, RTry(s.word)) else s
    case CasRead(p) =>
      var cur := s.procs[p].cur;
      if s.word == cur
      then Goto(Change(s, WrapI32(cur + 1)), p, RHold(|s.log|, []))
      else Goto(s, p, RSpin).(failures := s.failures + 1)
    case Peek(p, at) =>
      var RHold(base, probes) := s.procs[p];
      Goto(s, p, RHold(base, probes + [Probe(at, s.mem[at])]))
    case ReadUnlock(p) =>
      var RHold(base, probes) := s.procs[p];
      Goto(Change(s, WrapI32(s.word - 1)), p, Idle).(seen := s.seen + [Seen(base, probes)])
    case StartWrite(p, op) => Goto(s, p, WSpin(op))
    case CasWrite(p) =>
      if s.word == 0 then Goto(Change(s, -1), p, WHold(s.procs[p].op, {})) else s
    case Poke(p, i) =>
      var WHold(op, done) := s.procs[p];
      Goto(s, p, WHold(op, done + {i})).(mem := s.mem[op.off + i := op.src[i]])
    case WriteUnlock(p) =>
      Goto(Change(s, 0), p, Idle).(log := s.log + [s.procs[p].op])
    case Reinit => s.(word := 0)
  }

  /** A fresh lock: every process idle, the word 0. */
  predicate Start(s: State) {
    && s.word == 0 && s.mem == s.init && s.log == [] && s.seen == []
    && s.changes == 0 && s.failures == 0
    && (forall p :: p in s.procs ==> s.procs[p].Idle?)
    && |s.procs| < 0x8000_0000
  }

  /** The state after a sequence of actions, if each is enabled when its turn comes. */
  function Run(s: State, acts: seq<Action>): Option<State>
    decreases |acts|
  {
    if acts == [] then Some(s)
    else
      match Run(s, acts[..|acts| - 1])
      case None => None
      case Some(t) =>
        var a := acts[|acts| - 1];
        if Enabled(t, a) then Some(Next(t, a)) else None
  }

  // ------------------------------------------------- the data, atomically

  function ApplyWrite(mem: seq<byte>, op: WriteOp): (r: seq<byte>)
    ensures |r| == |mem|
  {
    if InArea(mem, op) then Splice(mem, op.off, op.src) else mem
  }

  /** The data area after a sequence of writes, each done at once. */
  function Snapshot(init: seq<byte>, log: seq<WriteOp>): (r: seq<byte>)
    ensures |r| == |init|
  {
    if log == [] then init else ApplyWrite(Snapshot(init, log[..|log| - 1]), log[|log| - 1])
  }

  /** Every byte a reader saw is the byte of this data area. */
  predicate Agrees(probes: seq<Probe>, snap: seq<byte>) {
    forall k :: 0 <= k < |probes| ==> probes[k].at < |snap| && probes[k].val == snap[probes[k].at]
  }

  /** The data area with the bytes a writer has copied so far. */
  predicate Partly(mem: seq<byte>, snap: seq<byte>, op: WriteOp, done: set<nat>) {
    && |mem| == |snap| && InArea(snap, op)
    && forall j :: 0 <= j < |mem| ==>
         mem[j] == if op.off <= j < op.off + |op.src| && j - op.off in done then op.src[j - op.off] else snap[j]
  }

  // ------------------------------------------------------- the invariant

  /** The lock word encodes who is inside: -1 for one writer alone, N for N readers. */
  predicate WordOk(word: int, procs: map<Pid, Pc>) {
    var r, w := Readers(procs), Writers(procs);
    (w == {} && word == |r|) || (|w| == 1 && r == {} && word == -1)
  }

  predicate NoWriter(procs: map<Pid, Pc>) {
    forall p :: p in procs ==> !procs[p].WHold?
  }

  predicate MemOk(s: State) {
    var snap := Snapshot(s.init, s.log);
    && |s.mem| == |s.init|
    && (NoWriter(s.procs) ==> s.mem == snap)
    && (forall p :: p in s.procs && s.procs[p].WHold? ==> Partly(s.mem, snap, s.procs[p].op, s.procs[p].done))
    && (forall p :: p in s.procs && s.procs[p].WSpin? ==> InArea(s.mem, s.procs[p].op))
  }

  /** Readers inside see the current snapshot; finished reads saw an earlier or the
      current one. */
  predicate ReadsOk(s: State) {
    && (forall p :: p in s.procs && s.procs[p].RHold? ==>
          s.procs[p].base == |s.log| && Agrees(s.procs[p].probes, Snapshot(s.init, s.log)))
    && (forall k :: 0 <= k < |s.seen| ==>
          s.seen[k].base <= |s.log| && Agrees(s.seen[k].probes, Snapshot(s.init, s.log[..s.seen[k].base])))
  }

  predicate Inv(s: State) {
    && |s.procs| < 0x8000_0000
    && (forall p :: p in s.procs && s.procs[p].RTry? ==> 0 <= s.procs[p].cur < 0x8000_0000)
    && WordOk(s.word, s.procs)
    && MemOk(s)
    && ReadsOk(s)
  }

  lemma StartInv(s: State)
    requires Start(s)
    ensures Inv(s)
  {
    assert Readers(s.procs) == {} && Writers(s.procs) == {};
  }

  /** How moving one process changes who is inside. */
  lemma MoveSets(procs: map<Pid, Pc>, p: Pid, pc: Pc)
    requires p in procs
    ensures var procs' := procs[p := pc];
            && procs'.Keys == procs.Keys && |procs'| == |procs|
            && Readers(procs') == Readers(procs) - {p} + (if pc.RHold? then {p} else {})
            && Writers(procs') == Writers(procs) - {p} + (if pc.WHold? then {p} else {})
            && (p in Readers(procs) <==> procs[p].RHold?)
            && (p in Writers(procs) <==> procs[p].WHold?)
  {
    var procs' := procs[p := pc];
    assert procs'.Keys == procs.Keys;
    assert |procs'| == |procs'.Keys| && |procs| == |procs.Keys|;
  }

  lemma {:induction false} SubsetSize<T>(a: set<T>, b: set<T>)
    requires a <= b
    ensures |a| <= |b|
  {
    if a != {} {
      var x :| x in a;
      SubsetSize(a - {x}, b - {x});
    }
  }

  lemma SingletonOf<T>(a: set<T>, x: T)
    requires |a| == 1 && x in a
    ensures a == {x}
  {
    if a != {x} {
      var y :| y in a && y != x;
      SubsetSize({x, y}, a);
    }
  }

  /** A process outside leaves room for one more reader. */
  lemma ReadersBound(procs: map<Pid, Pc>, p: Pid)
    requires p in procs && !procs[p].RHold?
    ensures |Readers(procs)| < |procs|
  {
    SubsetSize(Readers(procs), procs.Keys - {p});
    assert |procs| == |procs.Keys|;
  }

  lemma SameSets(procs: map<Pid, Pc>, p: Pid, pc: Pc)
    requires p in procs && pc.RHold? == procs[p].RHold? && pc.WHold? == procs[p].WHold?
    ensures Readers(procs[p := pc]) == Readers(procs) && Writers(procs[p := pc]) == Writers(procs)
  {
  }

  lemma SameSize(procs: map<Pid, Pc>, p: Pid, pc: Pc)
    requires p in procs
    ensures |procs[p := pc]| == |procs|
  {
    assert procs[p := pc].Keys == procs.Keys;
    assert |procs[p := pc]| == |procs[p := pc].Keys| && |procs| == |procs.Keys|;
  }

  /** A process that stays inside, or outside, does not matter to the word. */
  lemma StaysPut(word: int, procs: map<Pid, Pc>, p: Pid, pc: Pc)
    requires WordOk(word, procs) && p in procs
    requires pc.RHold? == procs[p].RHold? && pc.WHold? == procs[p].WHold?
    ensures WordOk(word, procs[p := pc])
    ensures Readers(procs[p := pc]) == Readers(procs) && Writers(procs[p := pc]) == Writers(procs)
  {
    hide Readers, Writers;
    SameSets(procs, p, pc);
  }

  lemma ReaderEnters(word: int, procs: map<Pid, Pc>, p: Pid, pc: Pc)
    requires WordOk(word, procs) && word >= 0 && p in procs && !procs[p].RHold? && pc.RHold?
    ensures Writers(procs) == {} && WordOk(word + 1, procs[p := pc])
  {
    MoveSets(procs, p, pc);
  }

  lemma ReaderLeaves(word: int, procs: map<Pid, Pc>, p: Pid, pc: Pc)
    requires WordOk(word, procs) && p in procs && procs[p].RHold? && !pc.RHold? && !pc.WHold?
    ensures word >= 1 && Writers(procs) == {} && WordOk(word - 1, procs[p := pc])
  {
    MoveSets(procs, p, pc);
  }

  lemma WriterEnters(word: int, procs: map<Pid, Pc>, p: Pid, pc: Pc)
    requires WordOk(word, procs) && word == 0 && p in procs && pc.WHold?
    ensures Readers(procs) == {} && Writers(procs) == {} && WordOk(-1, procs[p := pc])
  {
    MoveSets(procs, p, pc);
  }

  /** The blind store of 0 is right: nobody else is inside. */
  lemma WriterLeaves(word: int, procs: map<Pid, Pc>, p: Pid, pc: Pc)
    requires WordOk(word, procs) && p in procs && procs[p].WHold? && !pc.RHold? && !pc.WHold?
    ensures Readers(procs) == {} && Writers(procs) == {p} && WordOk(0, procs[p := pc])
  {
    MoveSets(procs, p, pc);
    SingletonOf(Writers(procs), p);
  }

  /** Every step keeps the word's encoding. The compare-and-swap of a reader is right
      whatever the word did since the load: only its value now matters. */
  lemma WordStep(s: State, a: Action)
    requires Inv(s) && Enabled(s, a)
    ensures WordOk(Next(s, a).word, Next(s, a).procs)
    ensures a.CasRead? ==> (Next(s, a).procs[a.p].RHold? <==> s.word == s.procs[a.p].cur)
    ensures a.CasWrite? ==> (Next(s, a).procs[a.p].WHold? <==> s.word == 0)
  {
    hide MemOk, ReadsOk, Snapshot, WordOk, Readers, Writers;
    match a
    case StartRead(p) => StaysPut(s.word, s.procs, p, RSpin);
    case Load(p) => StaysPut(s.word, s.procs, p, RTry(s.word));
    case CasRead(p) =>
      if s.word == s.procs[p].cur {
        ReaderEnters(s.word, s.procs, p, RHold(|s.log|, []));
        ReadersBound(s.procs, p);
        WordIsCount(s.word, s.procs);
      } else {
        StaysPut(s.word, s.procs, p, RSpin);
      }
    case Peek(p, at) => StaysPut(s.word, s.procs, p, Next(s, a).procs[p]);
    case ReadUnlock(p) =>
      ReaderLeaves(s.word, s.procs, p, Idle);
      WordIsCount(s.word, s.procs);
      ReadersSmall(s.procs);
    case StartWrite(p, op) => StaysPut(s.word, s.procs, p, WSpin(op));
    case CasWrite(p) =>
      if s.word == 0 {
        WriterEnters(s.word, s.procs, p, WHold(s.procs[p].op, {}));
      }
    case Poke(p, i) => StaysPut(s.word, s.procs, p, Next(s, a).procs[p]);
    case WriteUnlock(p) => WriterLeaves(s.word, s.procs, p, Idle);
    case Reinit => NobodyInside(s.word, s.procs);
  }

  lemma WordIsCount(word: int, procs: map<Pid, Pc>)
    requires WordOk(word, procs) && Writers(procs) == {}
    ensures word == |Readers(procs)|
  {
  }

  lemma ReadersSmall(procs: map<Pid, Pc>)
    ensures |Readers(procs)| <= |procs|
  {
    SubsetSize(Readers(procs), procs.Keys);
    assert |procs| == |procs.Keys|;
  }

  lemma NobodyInside(word: int, procs: map<Pid, Pc>)
    requires WordOk(word, procs) && Readers(procs) == {} && Writers(procs) == {}
    ensures word == 0 && WordOk(0, procs)
  {
  }

  lemma WordRange(s: State)
    requires Inv(s)
    ensures s.word < 0x8000_0000
  {
    hide MemOk, ReadsOk, Snapshot;
    ReadersSmall(s.procs);
  }

  /** A loaded value stays within the possible reader counts. */
  lemma LoadedStep(s: State, a: Action)
    requires Inv(s) && Enabled(s, a)
    ensures var s' := Next(s, a);
            && |s'.procs| == |s.procs|
            && forall p :: p in s'.procs && s'.procs[p].RTry? ==> 0 <= s'.procs[p].cur < 0x8000_0000
  {
    hide MemOk, ReadsOk, Snapshot, WordOk, Readers, Writers;
    WordRange(s);
    if !a.Reinit? {
      SameSize(s.procs, a.p, Next(s, a).procs[a.p]);
    }
  }

  // ----------------------------------------------------------- the memory

  lemma SnapshotSnoc(init: seq<byte>, log: seq<WriteOp>, op: WriteOp)
    ensures Snapshot(init, log + [op]) == ApplyWrite(Snapshot(init, log), op)
  {
    assert (log + [op])[..|log|] == log;
  }

  lemma PokePartly(mem: seq<byte>, snap: seq<byte>, op: WriteOp, done: set<nat>, i: nat)
    requires Partly(mem, snap, op, done) && i < |op.src|
    ensures Partly(mem[op.off + i := op.src[i]], snap, op, done + {i})
  {
  }

  lemma PartlyNothing(snap: seq<byte>, op: WriteOp)
    requires InArea(snap, op)
    ensures Partly(snap, snap, op, {})
  {
  }

  lemma PartlyAll(mem: seq<byte>, snap: seq<byte>, op: WriteOp, done: set<nat>)
    requires Partly(mem, snap, op, done) && forall i :: 0 <= i < |op.src| ==> i in done
    ensures mem == ApplyWrite(snap, op)
  {
  }

  lemma WritersEmpty(procs: map<Pid, Pc>)
    ensures Writers(procs) == {} <==> NoWriter(procs)
  {
    forall p | p in procs && Writers(procs) == {}
      ensures !procs[p].WHold?
    {
      assert p !in Writers(procs);
    }
  }

  /** While a process writes, no other process is inside. */
  lemma WriterAlone(s: State, p: Pid)
    requires Inv(s) && p in s.procs && s.procs[p].WHold?
    ensures Writers(s.procs) == {p} && Readers(s.procs) == {} && s.word == -1
    ensures forall x :: x in s.procs && x != p ==> !s.procs[x].WHold? && !s.procs[x].RHold?
  {
    hide MemOk, ReadsOk, Snapshot;
    assert p in Writers(s.procs);
    SingletonOf(Writers(s.procs), p);
    forall x | x in s.procs && x != p
      ensures !s.procs[x].WHold? && !s.procs[x].RHold?
    {
      assert x !in Writers(s.procs) && x !in Readers(s.procs);
    }
  }

  /** While a process reads, no process writes. */
  lemma ReaderInside(s: State, p: Pid)
    requires Inv(s) && p in s.procs && s.procs[p].RHold?
    ensures NoWriter(s.procs) && s.word > 0 && s.mem == Snapshot(s.init, s.log)
  {
    hide ReadsOk, Snapshot;
    assert p in Readers(s.procs);
    WritersEmpty(s.procs);
  }

  lemma CasWriteMem(s: State, p: Pid)
    requires Inv(s) && Enabled(s, CasWrite(p))
    ensures MemOk(Next(s, CasWrite(p)))
  {
    hide ReadsOk, Snapshot, Partly, WordOk, ApplyWrite;
    if s.word == 0 {
      WriterEnters(s.word, s.procs, p, WHold(s.procs[p].op, {}));
      WritersEmpty(s.procs);
      PartlyNothing(Snapshot(s.init, s.log), s.procs[p].op);
    }
  }

  lemma PokeMem(s: State, p: Pid, i: nat)
    requires Inv(s) && Enabled(s, Poke(p, i))
    ensures MemOk(Next(s, Poke(p, i)))
  {
    hide ReadsOk, Snapshot, Partly, WordOk, Readers, Writers, ApplyWrite;
    var WHold(op, done) := s.procs[p];
    WriterAlone(s, p);
    PokePartly(s.mem, Snapshot(s.init, s.log), op, done, i);
    var s' := Next(s, Poke(p, i));
    assert s'.procs[p].WHold?;
  }

  lemma WriteUnlockMem(s: State, p: Pid)
    requires Inv(s) && Enabled(s, WriteUnlock(p))
    ensures MemOk(Next(s, WriteUnlock(p)))
  {
    hide ReadsOk, Snapshot, Partly, WordOk, Readers, Writers, ApplyWrite;
    var WHold(op, done) := s.procs[p];
    WriterAlone(s, p);
    PartlyAll(s.mem, Snapshot(s.init, s.log), op, done);
    SnapshotSnoc(s.init, s.log, op);
  }

  lemma MemStep(s: State, a: Action)
    requires Inv(s) && Enabled(s, a)
    ensures MemOk(Next(s, a))
  {
    hide ReadsOk, Snapshot, Partly, WordOk, Readers, Writers, ApplyWrite;
    match a
    case CasWrite(p) => CasWriteMem(s, p);
    case Poke(p, i) => PokeMem(s, p, i);
    case WriteUnlock(p) => WriteUnlockMem(s, p);
    case _ => SameMem(s, a);
  }

  lemma SameMem(s: State, a: Action)
    requires Inv(s) && Enabled(s, a) && !a.CasWrite? && !a.Poke? && !a.WriteUnlock?
    ensures MemOk(Next(s, a))
  {
    hide ReadsOk, Snapshot, Partly, WordOk, Readers, Writers, ApplyWrite;
    var s' := Next(s, a);
    assert s'.mem == s.mem && s'.log == s.log && s'.init == s.init;
    if !a.Reinit? {
      assert !s.procs[a.p].WHold? && !s'.procs[a.p].WHold?;
      assert forall x :: x in s.procs && x != a.p ==> s'.procs[x] == s.procs[x];
      if NoWriter(s'.procs) {
        assert NoWriter(s.procs);
      }
    }
  }

  lemma ReadsStep(s: State, a: Action)
    requires Inv(s) && Enabled(s, a)
    ensures ReadsOk(Next(s, a))
  {
    hide MemOk, Snapshot, WordOk, Readers, Writers, ApplyWrite, Partly;
    var s' := Next(s, a);
    match a
    case Peek(p, at) => ReaderInside(s, p);
    case ReadUnlock(p) => assert s.log[..|s.log|] == s.log;
    case WriteUnlock(p) =>
      WriterAlone(s, p);
      forall k | 0 <= k < |s.seen|
        ensures s'.log[..s.seen[k].base] == s.log[..s.seen[k].base]
      {
      }
    case _ =>
  }

  /** Every step of every process keeps the invariant. */
  lemma StepInv(s: State, a: Action)
    requires Inv(s) && Enabled(s, a)
    ensures Inv(Next(s, a))
  {
    hide Next, Enabled, WordOk, MemOk, ReadsOk;
    LoadedStep(s, a);
    WordStep(s, a);
    MemStep(s, a);
    ReadsStep(s, a);
  }
}
