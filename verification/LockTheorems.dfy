/** What the reader-writer lock guarantees over whole runs: exclusion, snapshot
    reads, and a bound on the retries of readers. */
module LockTheorems {
  import opened Words
  import opened Wrappers
  import opened LockProtocol

  /** The invariant holds in every state any interleaving reaches. */
  lemma {:induction false} ReachableInv(s: State, acts: seq<Action>)
    requires Start(s)
    ensures match Run(s, acts)
            case None => true
            case Some(t) => Inv(t) && t.init == s.init && t.procs.Keys == s.procs.Keys && s.log <= t.log
    decreases |acts|
  {
    hide Inv, Enabled, Start;
    StartInv(s);
    if acts != [] {
      var before, a := acts[..|acts| - 1], acts[|acts| - 1];
      ReachableInv(s, before);
      match Run(s, before)
      case None =>
      case Some(t) =>
        if Enabled(t, a) {
          StepInv(t, a);
          StepKeeps(t, a);
        }
    }
  }

  lemma StepKeeps(s: State, a: Action)
    requires Enabled(s, a)
    ensures var s' := Next(s, a);
            s'.init == s.init && s'.procs.Keys == s.procs.Keys && s.log <= s'.log
  {
  }

  /** The lock word, both ways: -1 exactly when one process writes and none reads, and
      `n >= 0` exactly when `n` processes read and none writes. */
  lemma WordMeaning(s: State, acts: seq<Action>, n: nat)
    requires Start(s) && Run(s, acts).Some?
    ensures var t := Run(s, acts).value;
            var r, w := Readers(t.procs), Writers(t.procs);
            && (t.word == -1 <==> |w| == 1 && r == {})
            && (t.word == n <==> |r| == n && w == {})
            && t.word >= -1
  {
    hide Run, MemOk, ReadsOk, Snapshot;
    ReachableInv(s, acts);
  }

  /** Two processes are never inside together unless both read. */
  lemma Exclusion(s: State, acts: seq<Action>, p: Pid, q: Pid)
    requires Start(s) && Run(s, acts).Some? && p != q
    ensures var procs := Run(s, acts).value.procs;
            p in procs && q in procs && procs[p].WHold? ==> !procs[q].WHold? && !procs[q].RHold?
  {
    hide Run, MemOk, ReadsOk, WordOk;
    ReachableInv(s, acts);
    var t := Run(s, acts).value;
    if p in t.procs && t.procs[p].WHold? {
      WriterAlone(t, p);
    }
  }

  /** Snapshot reads. Whatever the interleaving, all bytes a finished read saw, in
      whatever order and however often it read them, belong to one data area: the initial
      one with a prefix of the completed writes applied, each at once, in lock order. */
  lemma ReadsAreSnapshots(s: State, acts: seq<Action>, k: nat)
    requires Start(s) && Run(s, acts).Some? && k < |Run(s, acts).value.seen|
    ensures var t := Run(s, acts).value;
            && t.seen[k].base <= |t.log|
            && Agrees(t.seen[k].probes, Snapshot(s.init, t.log[..t.seen[k].base]))
  {
    hide Run, MemOk, WordOk, Snapshot, Agrees;
    ReachableInv(s, acts);
  }

  /** The prefix is no accident: a read that releases the lock has seen exactly the writes
      completed at that moment, which are those completed when it got the lock. */
  lemma ReadSeesAllCompleted(s: State, p: Pid)
    requires Inv(s) && Enabled(s, ReadUnlock(p))
    ensures var t := Next(s, ReadUnlock(p));
            && t.log == s.log && t.seen == s.seen + [Seen(|s.log|, s.procs[p].probes)]
            && Agrees(s.procs[p].probes, s.mem) && s.mem == Snapshot(s.init, s.log)
  {
    hide Snapshot, WordOk;
    ReaderInside(s, p);
  }

  /** A reader that copies `[off, off + len)` byte by byte. */
  predicate Copies(probes: seq<Probe>, off: nat, len: nat) {
    |probes| == len && forall i :: 0 <= i < len ==> probes[i].at == off + i
  }

  function Values(probes: seq<Probe>): seq<byte> {
    seq(|probes|, i requires 0 <= i < |probes| => probes[i].val)
  }

  /** A copied range is a slice of one snapshot: no torn value is returned. */
  lemma CopiedRange(s: State, acts: seq<Action>, k: nat, off: nat, len: nat)
    requires Start(s) && Run(s, acts).Some? && k < |Run(s, acts).value.seen|
    requires Copies(Run(s, acts).value.seen[k].probes, off, len) && off + len <= |s.init|
    ensures var t := Run(s, acts).value;
            && t.seen[k].base <= |t.log|
            && Values(t.seen[k].probes) == Snapshot(s.init, t.log[..t.seen[k].base])[off..off + len]
  {
    hide Run, MemOk, WordOk, Snapshot, Inv;
    ReadsAreSnapshots(s, acts, k);
  }

  // ------------------------------------------------ the edges of the encoding

  /** `init()` on a mapped view stores 0. That keeps the encoding exactly when nobody is
      inside, that is when the lock was free. */
  lemma ReinitExact(s: State)
    requires Inv(s)
    ensures WordOk(0, s.procs) <==> Readers(s.procs) == {} && Writers(s.procs) == {}
    ensures WordOk(0, s.procs) <==> s.word == 0
  {
    hide MemOk, ReadsOk;
  }

  /** A reader's `cur + 1` keeps the encoding exactly below 2^31 - 1 readers. */
  lemma IncrementExact(word: int, procs: map<Pid, Pc>, p: Pid, pc: Pc)
    requires WordOk(word, procs) && 0 <= word < 0x8000_0000
    requires p in procs && !procs[p].RHold? && pc.RHold?
    ensures WordOk(WrapI32(word + 1), procs[p := pc]) <==> word < 0x7FFF_FFFF
  {
    ReaderEnters(word, procs, p, pc);
    hide Readers, Writers;
    var r := Readers(procs[p := pc]);
    assert WordOk(word + 1, procs[p := pc]);
    EnteredReaders(procs, p, pc);
  }

  lemma EnteredReaders(procs: map<Pid, Pc>, p: Pid, pc: Pc)
    requires p in procs && pc.RHold?
    ensures Readers(procs[p := pc]) != {}
  {
    assert p in Readers(procs[p := pc]);
  }

  // ------------------------------------------------------ retries of readers

  /** Readers whose loaded value is out of date: their compare-and-swap fails unless the
      word comes back to it. */
  function Stale(s: State): set<Pid> {
    set p | p in s.procs && s.procs[p].RTry? && s.procs[p].cur != s.word
  }

  predicate By(a: Action, p: Pid) {
    !a.Reinit? && a.p == p
  }

  /** A reader's compare-and-swap fails only if the word changed after its load. Let `p`
      load an available word and the others do anything: `p` then holds the value it
      loaded, and if its compare-and-swap fails, some step in between changed the word. */
  lemma {:induction false} FailureNeedsChange(s: State, p: Pid, acts: seq<Action>)
    requires Inv(s) && Enabled(s, Load(p)) && s.word >= 0
    requires forall k :: 0 <= k < |acts| ==> !By(acts[k], p)
    ensures match Run(Next(s, Load(p)), acts)
            case None => true
            case Some(t) =>
              && Inv(t) && s.changes <= t.changes
              && p in t.procs && t.procs[p] == RTry(s.word)
              && (Next(t, CasRead(p)).procs[p].RHold? <==> t.word == s.word)
              && (Next(t, CasRead(p)).procs[p].RSpin? <==> t.word != s.word)
              && (Next(t, CasRead(p)).failures > t.failures ==> t.changes > s.changes)
    decreases |acts|
  {
    hide Inv, Enabled, Next;
    if acts == [] {
      StepInv(s, Load(p));
      AfterLoad(s, p);
      CasOutcome(Next(s, Load(p)), p);
    } else {
      var before, a := acts[..|acts| - 1], acts[|acts| - 1];
      FailureNeedsChange(s, p, before);
      match Run(Next(s, Load(p)), before)
      case None =>
      case Some(t) =>
        if Enabled(t, a) {
          StepInv(t, a);
          ChangesCountTheWord(t, a);
          OthersStep(t, a, p);
          CasOutcome(t, p);
          CasOutcome(Next(t, a), p);
        }
    }
  }

  lemma AfterLoad(s: State, p: Pid)
    requires Enabled(s, Load(p)) && s.word >= 0
    ensures Next(s, Load(p)) == s.(procs := s.procs[p := RTry(s.word)])
  {
  }

  lemma OthersStep(s: State, a: Action, p: Pid)
    requires Enabled(s, a) && !By(a, p) && p in s.procs
    ensures p in Next(s, a).procs && Next(s, a).procs[p] == s.procs[p]
  {
  }

  /** A compare-and-swap succeeds exactly when the word has the loaded value now. */
  lemma CasOutcome(s: State, p: Pid)
    requires p in s.procs && s.procs[p].RTry?
    ensures Enabled(s, CasRead(p))
    ensures Next(s, CasRead(p)).procs[p].RHold? <==> s.word == s.procs[p].cur
    ensures Next(s, CasRead(p)).procs[p].RSpin? <==> s.word != s.procs[p].cur
    ensures Next(s, CasRead(p)).failures == s.failures + if s.word == s.procs[p].cur then 0 else 1
  {
  }

  /** How often the compare-and-swap of `p` fails in a run. */
  function Failures(s: State, acts: seq<Action>, p: Pid): nat
    requires Run(s, acts).Some?
    decreases |acts|
  {
    if acts == [] then 0
    else
      var before, a := acts[..|acts| - 1], acts[|acts| - 1];
      var t := Run(s, before).value;
      Failures(s, before, p) + if a == CasRead(p) && Next(t, a).procs[p] == RSpin then 1 else 0
  }

  /** How often a step of another process gives the word a different value. */
  function ChangesByOthers(s: State, acts: seq<Action>, p: Pid): nat
    requires Run(s, acts).Some?
    decreases |acts|
  {
    if acts == [] then 0
    else
      var before, a := acts[..|acts| - 1], acts[|acts| - 1];
      var t := Run(s, before).value;
      ChangesByOthers(s, before, p) + if !By(a, p) && Next(t, a).word != t.word then 1 else 0
  }

  /** Each failed attempt of a reader is charged to a change of its own, made by another
      process: in any run, from any state, `p` fails at most as often as the others change
      the word, and once more if it starts out of date. */
  lemma {:induction false} FailuresAreCharged(s: State, acts: seq<Action>, p: Pid)
    ensures match Run(s, acts)
            case None => true
            case Some(t) =>
              Failures(s, acts, p) + (if p in Stale(t) then 1 else 0)
              <= ChangesByOthers(s, acts, p) + (if p in Stale(s) then 1 else 0)
    decreases |acts|
  {
    if acts != [] {
      var before, a := acts[..|acts| - 1], acts[|acts| - 1];
      FailuresAreCharged(s, before, p);
      match Run(s, before)
      case None =>
      case Some(t) =>
        if Enabled(t, a) {
          FailureStep(t, a, p);
        }
    }
  }

  lemma FailureStep(s: State, a: Action, p: Pid)
    requires Enabled(s, a)
    ensures var t := Next(s, a);
            (if a == CasRead(p) && t.procs[p] == RSpin then 1 else 0) + (if p in Stale(t) then 1 else 0)
            <= (if !By(a, p) && t.word != s.word then 1 else 0) + (if p in Stale(s) then 1 else 0)
  {
    hide Readers, Writers;
  }

  /** `changes` counts exactly the steps after which the word has another value. */
  lemma ChangesCountTheWord(s: State, a: Action)
    requires Inv(s) && Enabled(s, a)
    ensures Next(s, a).changes == s.changes + if Next(s, a).word != s.word then 1 else 0
  {
    hide MemOk, ReadsOk, Snapshot, Readers, Writers, WordOk;
    match a
    case CasRead(p) => WordRange(s);
    case ReadUnlock(p) => ReaderInside(s, p);
    case WriteUnlock(p) => WriterAlone(s, p);
    case Reinit => NobodyInside(s.word, s.procs);
    case _ =>
  }

  /** `readers` holds every process on its way in as a reader, and its failed attempts
      so far, with those to come at once, are paid for. */
  predicate Charged(s: State, readers: set<Pid>) {
    && (forall p :: p in s.procs && (s.procs[p].RSpin? || s.procs[p].RTry?) ==> p in readers)
    && s.failures + |Stale(s)| <= |readers| * s.changes
  }

  lemma ChargeStep(s: State, a: Action, readers: set<Pid>)
    requires Inv(s) && Charged(s, readers) && Enabled(s, a)
    requires a.StartRead? ==> a.p in readers
    ensures Charged(Next(s, a), readers)
  {
    hide Inv, Enabled, Next;
    var s' := Next(s, a);
    EntriesStep(s, a, readers);
    StaleStep(s, a);
    if s'.changes == s.changes + 1 {
      SubsetSize(Stale(s'), readers);
      assert |readers| * s'.changes == |readers| * s.changes + |readers|;
    } else {
      SubsetSize(Stale(s'), Stale(s));
    }
  }

  lemma EntriesStep(s: State, a: Action, readers: set<Pid>)
    requires Enabled(s, a) && (a.StartRead? ==> a.p in readers)
    requires forall p :: p in s.procs && (s.procs[p].RSpin? || s.procs[p].RTry?) ==> p in readers
    ensures var procs := Next(s, a).procs;
            forall p :: p in procs && (procs[p].RSpin? || procs[p].RTry?) ==> p in readers
  {
    hide Readers, Writers;
  }

  /** A step either changes the word, or adds no stale reader; a failure uses one up. */
  lemma StaleStep(s: State, a: Action)
    requires Inv(s) && Enabled(s, a)
    ensures var s' := Next(s, a);
            || (s'.changes == s.changes + 1 && s'.failures == s.failures)
            || (&& s'.changes == s.changes && Stale(s') <= Stale(s)
                && s'.failures + |Stale(s')| <= s.failures + |Stale(s)|)
  {
    hide MemOk, ReadsOk, WordOk, Readers, Writers, Snapshot;
    var s' := Next(s, a);
    if a.Reinit? {
      NobodyInside(s.word, s.procs);
    } else if s'.changes == s.changes {
      assert Stale(s') <= Stale(s) - if s'.failures == s.failures then {} else {a.p};
      SubsetSize(Stale(s'), Stale(s));
      if s'.failures == s.failures + 1 {
        SubsetSize(Stale(s'), Stale(s) - {a.p});
      }
    }
  }

  /** Readers times successful changes: over any run, if only `readers` ever start a read,
      at most that many of their compare-and-swaps fail. */
  lemma {:induction false} ReaderRetriesBounded(s: State, acts: seq<Action>, readers: set<Pid>)
    requires Start(s)
    requires forall k :: 0 <= k < |acts| && acts[k].StartRead? ==> acts[k].p in readers
    ensures match Run(s, acts)
            case None => true
            case Some(t) => Charged(t, readers) && t.failures <= |readers| * t.changes
    decreases |acts|
  {
    hide Inv, Enabled, Next, Stale;
    if acts == [] {
      StartCharged(s, readers);
    } else {
      var before, a := acts[..|acts| - 1], acts[|acts| - 1];
      ReaderRetriesBounded(s, before, readers);
      ReachableInv(s, before);
      match Run(s, before)
      case None =>
      case Some(t) =>
        if Enabled(t, a) {
          ChargeStep(t, a, readers);
        }
    }
  }

  lemma StartCharged(s: State, readers: set<Pid>)
    requires Start(s)
    ensures Charged(s, readers)
  {
    assert Stale(s) == {};
  }

  // ---------------------------------------------------- calls run on their own

  lemma RunOne(s: State, a: Action)
    requires Enabled(s, a)
    ensures Run(s, [a]) == Some(Next(s, a))
  {
    hide Enabled, Next;
    assert [a][..0] == [];
    assert Run(s, []) == Some(s);
  }

  lemma {:induction false} RunConcat(s: State, a: seq<Action>, b: seq<Action>)
    ensures Run(s, a + b) ==
            match Run(s, a)
            case None => None
            case Some(t) => Run(t, b)
    decreases |b|
  {
    hide Enabled, Next;
    if b == [] {
      assert a + b == a;
    } else {
      RunConcat(s, a, b[..|b| - 1]);
      assert (a + b)[..|a + b| - 1] == a + b[..|b| - 1];
    }
  }

  lemma RunAfter(s: State, a: Action, acts: seq<Action>)
    requires Enabled(s, a)
    ensures Run(s, [a] + acts) == Run(Next(s, a), acts)
  {
    hide Enabled, Next;
    RunOne(s, a);
    RunConcat(s, [a], acts);
  }

  predicate AllBy(acts: seq<Action>, p: Pid) {
    forall k :: 0 <= k < |acts| ==> By(acts[k], p)
  }

  /** A waiting writer gets in exactly when the word is 0; otherwise nothing happens. */
  lemma WriterEntersExactly(s: State, p: Pid)
    requires p in s.procs && s.procs[p].WSpin?
    ensures Enabled(s, CasWrite(p))
    ensures var t := Next(s, CasWrite(p));
            if s.word == 0
            then t == s.(word := -1, procs := s.procs[p := WHold(s.procs[p].op, {})], changes := s.changes + 1)
            else t == s
    ensures p in Next(s, CasWrite(p)).procs
    ensures Next(s, CasWrite(p)).procs[p].WHold? <==> s.word == 0
  {
  }

  /** The bytes a writer still has to copy, copied in order. */
  lemma {:induction false} PokesComplete(s: State, p: Pid, n: nat) returns (acts: seq<Action>, t: State)
    requires Inv(s) && p in s.procs && s.procs[p].WHold?
    requires n <= |s.procs[p].op.src| && forall i :: 0 <= i < n ==> i in s.procs[p].done
    ensures Run(s, acts) == Some(t) && Inv(t) && AllBy(acts, p)
    ensures p in t.procs && t.procs[p].WHold? && t.procs[p].op == s.procs[p].op
    ensures forall i :: 0 <= i < |t.procs[p].op.src| ==> i in t.procs[p].done
    ensures t == s.(mem := t.mem, procs := s.procs[p := t.procs[p]])
    decreases |s.procs[p].op.src| - n
  {
    hide MemOk, ReadsOk, WordOk, Snapshot, Readers, Writers, Run;
    if n == |s.procs[p].op.src| {
      acts, t := [], s;
      RunNone(s);
      assert s.procs[p := s.procs[p]] == s.procs;
    } else {
      InAreaInside(s, p);
      StepInv(s, Poke(p, n));
      var s1 := Next(s, Poke(p, n));
      var rest;
      rest, t := PokesComplete(s1, p, n + 1);
      acts := [Poke(p, n)] + rest;
      RunAfter(s, Poke(p, n), rest);
      assert s.procs[p := s1.procs[p]][p := t.procs[p]] == s.procs[p := t.procs[p]];
    }
  }

  lemma RunNone(s: State)
    ensures Run(s, []) == Some(s)
  {
  }

  lemma InAreaInside(s: State, p: Pid)
    requires Inv(s) && p in s.procs && s.procs[p].WHold?
    ensures s.procs[p].op.off + |s.procs[p].op.src| <= |s.mem|
  {
    hide ReadsOk, WordOk, Snapshot;
  }

  /** A write whose process runs alone, while nobody is inside, completes: the payload is
      in the area at its place, every other byte is as it was, and the lock is free. */
  lemma WriteCompletes(s: State, p: Pid, op: WriteOp) returns (acts: seq<Action>, t: State)
    requires Inv(s) && Readers(s.procs) == {} && Writers(s.procs) == {}
    requires p in s.procs && s.procs[p].Idle? && op.off + |op.src| <= |s.mem|
    ensures Run(s, acts) == Some(t) && Inv(t) && AllBy(acts, p) && acts != [] && acts[0] == StartWrite(p, op)
    ensures t.procs == s.procs && t.word == 0 && t.log == s.log + [op] && t.seen == s.seen
    ensures |t.mem| == |s.mem| && t.mem[op.off..op.off + |op.src|] == op.src
    ensures t.mem[..op.off] == s.mem[..op.off] && t.mem[op.off + |op.src|..] == s.mem[op.off + |op.src|..]
  {
    hide Run, ReadsOk, Snapshot, MemOk, WordOk, Readers, Writers, ApplyWrite;
    NobodyInside(s.word, s.procs);
    var s1 := Next(s, StartWrite(p, op));
    StepInv(s, StartWrite(p, op));
    var s2 := Next(s1, CasWrite(p));
    StepInv(s1, CasWrite(p));
    WriterEntersExactly(s1, p);
    var pokes, s3 := PokesComplete(s2, p, 0);
    t := Next(s3, WriteUnlock(p));
    StepInv(s3, WriteUnlock(p));
    acts := [StartWrite(p, op)] + ([CasWrite(p)] + (pokes + [WriteUnlock(p)]));
    RunAfter(s, StartWrite(p, op), [CasWrite(p)] + (pokes + [WriteUnlock(p)]));
    RunAfter(s1, CasWrite(p), pokes + [WriteUnlock(p)]);
    RunConcat(s2, pokes, [WriteUnlock(p)]);
    RunOne(s3, WriteUnlock(p));
    assert t.procs == s.procs;
    AreaWhenFree(s);
    AreaWhenFree(t);
    SnapshotSnoc(s.init, s.log, op);
    Applied(s.mem, op);
  }

  /** While nobody writes, the area is the snapshot of the log. */
  lemma AreaWhenFree(s: State)
    requires Inv(s) && Writers(s.procs) == {}
    ensures s.mem == Snapshot(s.init, s.log)
  {
    hide ReadsOk, WordOk, Snapshot;
    WritersEmpty(s.procs);
  }

  lemma Applied(mem: seq<byte>, op: WriteOp)
    requires op.off + |op.src| <= |mem|
    ensures var r, end := ApplyWrite(mem, op), op.off + |op.src|;
            r[op.off..end] == op.src && r[..op.off] == mem[..op.off] && r[end..] == mem[end..]
  {
  }

  /** The bytes a reader still wants, read in order. */
  lemma {:induction false} PeeksComplete(s: State, p: Pid, off: nat, n: nat, len: nat)
    returns (acts: seq<Action>, t: State)
    requires Inv(s) && p in s.procs && s.procs[p].RHold? && n <= len && off + len <= |s.mem|
    requires Copies(s.procs[p].probes, off, n) && Values(s.procs[p].probes) == s.mem[off..off + n]
    ensures Run(s, acts) == Some(t) && Inv(t) && AllBy(acts, p)
    ensures p in t.procs && t.procs[p].RHold? && t.procs[p].base == s.procs[p].base
    ensures Copies(t.procs[p].probes, off, len) && Values(t.procs[p].probes) == s.mem[off..off + len]
    ensures t == s.(procs := s.procs[p := t.procs[p]])
    decreases len - n
  {
    hide MemOk, ReadsOk, WordOk, Snapshot, Readers, Writers, Run;
    if n == len {
      acts, t := [], s;
      RunNone(s);
      assert s.procs[p := s.procs[p]] == s.procs;
    } else {
      var a := Peek(p, off + n);
      StepInv(s, a);
      var s1 := Next(s, a);
      assert s.mem[off..off + (n + 1)] == s.mem[off..off + n] + [s.mem[off + n]];
      assert Values(s1.procs[p].probes) == Values(s.procs[p].probes) + [s.mem[off + n]];
      var rest;
      rest, t := PeeksComplete(s1, p, off, n + 1, len);
      acts := [a] + rest;
      RunAfter(s, a, rest);
      assert s.procs[p := s1.procs[p]][p := t.procs[p]] == s.procs[p := t.procs[p]];
    }
  }

  /** Where nobody writes, a reader that runs alone gets in at its first attempt. */
  lemma ReaderGetsIn(s: State, p: Pid) returns (acts: seq<Action>, t: State)
    requires Inv(s) && Writers(s.procs) == {} && p in s.procs && s.procs[p].Idle?
    ensures Run(s, acts) == Some(t) && Inv(t) && AllBy(acts, p) && acts != [] && acts[0] == StartRead(p)
    ensures -1 < s.word < 0x7FFF_FFFF
    ensures t == s.(word := s.word + 1, procs := s.procs[p := RHold(|s.log|, [])], changes := s.changes + 1)
  {
    hide Run, ReadsOk, Snapshot, MemOk, WordOk, Readers, Writers;
    WordIsCount(s.word, s.procs);
    ReadersBound(s.procs, p);
    var s1 := Next(s, StartRead(p));
    StepInv(s, StartRead(p));
    var s2 := Next(s1, Load(p));
    StepInv(s1, Load(p));
    t := Next(s2, CasRead(p));
    StepInv(s2, CasRead(p));
    acts := [StartRead(p)] + ([Load(p)] + [CasRead(p)]);
    RunAfter(s, StartRead(p), [Load(p)] + [CasRead(p)]);
    RunAfter(s1, Load(p), [CasRead(p)]);
    RunOne(s2, CasRead(p));
  }

  /** A read whose process runs alone, while nobody writes, completes, other readers
      inside or not: it has seen the bytes of the area, and the word, the area and the
      other processes are as they were. */
  lemma ReadCompletes(s: State, p: Pid, off: nat, len: nat) returns (acts: seq<Action>, t: State)
    requires Inv(s) && Writers(s.procs) == {} && p in s.procs && s.procs[p].Idle?
    requires off + len <= |s.mem|
    ensures Run(s, acts) == Some(t) && Inv(t) && AllBy(acts, p) && acts != [] && acts[0] == StartRead(p)
    ensures t.procs == s.procs && t.word == s.word && t.mem == s.mem && t.log == s.log
    ensures |t.seen| == |s.seen| + 1 && t.seen[..|s.seen|] == s.seen
    ensures var seen := t.seen[|s.seen|];
            seen.base == |s.log| && Copies(seen.probes, off, len) && Values(seen.probes) == s.mem[off..off + len]
    ensures t.failures == s.failures
  {
    hide Run, ReadsOk, Snapshot, MemOk, WordOk, Readers, Writers;
    var enter, s3 := ReaderGetsIn(s, p);
    assert Values([]) == s.mem[off..off + 0];
    var peeks, s4 := PeeksComplete(s3, p, off, 0, len);
    t := Next(s4, ReadUnlock(p));
    StepInv(s4, ReadUnlock(p));
    acts := enter + (peeks + [ReadUnlock(p)]);
    RunConcat(s, enter, peeks + [ReadUnlock(p)]);
    RunConcat(s3, peeks, [ReadUnlock(p)]);
    RunOne(s4, ReadUnlock(p));
    assert t.procs == s.procs;
  }
}
