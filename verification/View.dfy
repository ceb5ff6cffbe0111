/** The locked view of a shared segment: its operations as functions of the data area
    and the cursor, and the object whose methods carry them out under lock guards. */
module View {
  import opened Words
  import opened Wrappers
  import opened Codec
  import opened CodecProofs

  const RWLOCK_SIZE: nat := 4

  /** The data area and one view's cursor. */
  datatype Area = Area(bytes: seq<byte>, cursor: nat)

  predicate CheckBounds(size: nat, offset: nat, length: nat) {
    length != 0 && SaturatingAdd(offset, length) <= size
  }

  /** `to` is `from` with `src` at `pos`, and nothing else changed. */
  predicate PutAt(to: seq<byte>, from: seq<byte>, pos: nat, src: seq<byte>) {
    && |to| == |from| && pos + |src| <= |to|
    && to[pos..pos + |src|] == src
    && to[..pos] == from[..pos]
    && to[pos + |src|..] == from[pos + |src|..]
  }

  lemma SplicePuts(from: seq<byte>, pos: nat, src: seq<byte>)
    requires pos + |src| <= |from|
    ensures PutAt(Splice(from, pos, src), from, pos, src)
  {
  }

  /** The position a call works at, and whether it moves the cursor. */
  function Position(s: Area, offset: Option<nat>): nat {
    match offset
    case Some(o) => o
    case None => s.cursor
  }

  function Advance(s: Area, offset: Option<nat>, n: nat): nat {
    if offset.None? then s.cursor + n else s.cursor
  }

  predicate CanWrite(s: Area, payload: Result<seq<byte>>, offset: Option<nat>) {
    payload.Ok? && CheckBounds(|s.bytes|, Position(s, offset), |payload.value|)
  }

  /** A write either puts the whole payload at its position or changes nothing. */
  function Written(s: Area, payload: Result<seq<byte>>, offset: Option<nat>): Area
    requires |s.bytes| < TWO64 - 1
  {
    if CanWrite(s, payload, offset)
    then Area(Splice(s.bytes, Position(s, offset), payload.value), Advance(s, offset, |payload.value|))
    else s
  }

  function ReadValue(s: Area, tag: Tag): Result<(Value, nat)>
    requires s.cursor <= |s.bytes|
  {
    UnpackOne(s.bytes[s.cursor..], tag)
  }

  /** `read_mixed` fails when nothing is left at its position, even for an empty schema. */
  function ReadSchema(s: Area, schema: seq<Entry>, offset: Option<nat>): Result<(seq<Item>, nat)> {
    if SaturatingSub(|s.bytes|, Position(s, offset)) == 0 then Err
    else Decode(s.bytes[Position(s, offset)..], schema)
  }

  /** A call through a view, or anything at all that other processes do to the area. */
  datatype Call =
    | Write(v: Value, woff: Option<nat>)
    | WriteMixed(items: seq<Item>, moff: Option<nat>)
    | Read(tag: Tag)
    | ReadMixed(schema: seq<Entry>, roff: Option<nat>)
    | ReadRange(offset: nat, length: nat)
    | Seek(pos: nat)
    | Zero
    | Others(bytes: seq<byte>)

  function Zeros(n: nat): (z: seq<byte>)
    ensures |z| == n && forall i :: 0 <= i < n ==> z[i] == 0
  {
    seq(n, _ => 0)
  }

  /** The area after a call. A failing call leaves bytes and cursor alone. */
  function After(s: Area, c: Call): Area
    requires s.cursor <= |s.bytes| < TWO64 - 1
  {
    match c
    case Write(v, offset) => Written(s, Packed([v]), offset)
    case WriteMixed(items, offset) => Written(s, Packed(Flatten(items)), offset)
    case Read(tag) =>
      (match ReadValue(s, tag)
       case Err => s
       case Ok((_, n)) => s.(cursor := s.cursor + n))
    case ReadMixed(schema, offset) =>
      (match ReadSchema(s, schema, offset)
       case Err => s
       case Ok((_, n)) => s.(cursor := Advance(s, offset, n)))
    case ReadRange(_, _) => s
    case Seek(pos) => if pos > |s.bytes| then s else s.(cursor := pos)
    case Zero => s.(bytes := Zeros(|s.bytes|))
    case Others(bytes) => if |bytes| == |s.bytes| then s.(bytes := bytes) else s
  }

  /** The cursor stays inside the data area over every sequence of calls, failing ones
      and hostile memory contents included, so the subtraction in `read` never underflows. */
  lemma CursorStaysInside(s: Area, c: Call)
    requires s.cursor <= |s.bytes| < TWO64 - 1
    ensures After(s, c).cursor <= |After(s, c).bytes| == |s.bytes|
  {
    hide UnpackOne, Decode, Packed, Flatten;
    match c
    case Read(tag) => UnpackBound(s.bytes[s.cursor..], tag);
    case ReadMixed(schema, offset) =>
      if Position(s, offset) <= |s.bytes| {
        DecodeBound(s.bytes[Position(s, offset)..], schema);
      }
    case _ =>
  }

  lemma UnpackBound(data: seq<byte>, tag: Tag)
    ensures UnpackOne(data, tag).Ok? ==> UnpackOne(data, tag).value.1 <= |data|
  {
  }

  lemma DecodeBound(data: seq<byte>, schema: seq<Entry>)
    ensures Decode(data, schema).Ok? ==> Decode(data, schema).value.1 <= |data|
  {
  }

  function AfterAll(s: Area, calls: seq<Call>): (t: Area)
    requires s.cursor <= |s.bytes| < TWO64 - 1
    ensures t.cursor <= |t.bytes| == |s.bytes|
    decreases |calls|
  {
    if calls == [] then s
    else
      var t := AfterAll(s, calls[..|calls| - 1]);
      CursorStaysInside(t, calls[|calls| - 1]);
      After(t, calls[|calls| - 1])
  }

  // ------------------------------------------------------- waiting for the lock

  /** What the other processes do before one access of ours to the lock word: they leave
      this word and, unless the length is wrong, these bytes. */
  datatype Turn = Turn(word: int, bytes: seq<byte>)

  /** The shared memory, and what the others are still going to do while we wait. */
  datatype World = World(word: int, bytes: seq<byte>, turns: seq<Turn>)

  function Turned(w: World): (r: World)
    ensures |r.bytes| == |w.bytes| && FinalWord(r) == FinalWord(w)
  {
    if w.turns == [] then w
    else
      var t := w.turns[0];
      World(t.word, if |t.bytes| == |w.bytes| then t.bytes else w.bytes, w.turns[1..])
  }

  function AfterTurns(w: World, n: nat): World
    decreases n
  {
    if n == 0 then w else AfterTurns(Turned(w), n - 1)
  }

  /** After `k` turns the memory is what the `k`-th of them left. */
  lemma {:induction false} TurnsLeave(w: World, k: nat)
    requires 1 <= k <= |w.turns|
    ensures AfterTurns(w, k).word == w.turns[k - 1].word && AfterTurns(w, k).turns == w.turns[k..]
    ensures |w.turns[k - 1].bytes| == |w.bytes| ==> AfterTurns(w, k).bytes == w.turns[k - 1].bytes
    decreases k
  {
    if k > 1 {
      TurnsLeave(Turned(w), k - 1);
    } else {
      assert AfterTurns(w, 1) == Turned(w);
    }
  }

  /** The word the others finally leave. */
  function FinalWord(w: World): int {
    if w.turns == [] then w.word else w.turns[|w.turns| - 1].word
  }

  /** Where the loop of `read_lock` ends: a load that finds no writer, followed by a
      compare-and-swap that finds the loaded value. */
  function ReadEntry(w: World): (r: World)
    requires FinalWord(w) >= 0
    ensures |r.bytes| == |w.bytes| && |r.turns| <= |w.turns| && r.word >= 0
    decreases |w.turns|
  {
    var a := Turned(w);
    if a.word < 0 then ReadEntry(a)
    else if Turned(a).word == a.word then Turned(a)
    else ReadEntry(Turned(a))
  }

  /** Where the loop of `write_lock` ends. */
  function WriteEntry(w: World): (r: World)
    requires FinalWord(w) == 0
    ensures |r.bytes| == |w.bytes| && |r.turns| <= |w.turns| && r.word == 0
    decreases |w.turns|
  {
    var a := Turned(w);
    if a.word == 0 then a else WriteEntry(a)
  }

  lemma FinalWhenNone(w: World)
    ensures w.turns == [] ==> FinalWord(w) == w.word
  {
  }

  lemma TurnTaken(w: World)
    ensures if w.turns == [] then Turned(w) == w else |Turned(w).turns| == |w.turns| - 1
  {
  }

  /** A writer enters at the first of its attempts that finds the word 0. */
  lemma {:induction false} WriteEntryIsFirst(w: World)
    requires FinalWord(w) == 0
    ensures var n := |w.turns| - |WriteEntry(w).turns|;
            && WriteEntry(w) == AfterTurns(w, n)
            && forall k :: 1 <= k < n ==> AfterTurns(w, k).word != 0
    decreases |w.turns|
  {
    hide FinalWord;
    var a := Turned(w);
    TurnTaken(w);
    FinalWhenNone(w);
    if a.word != 0 {
      WriteEntryIsFirst(a);
      forall k | 1 <= k < |w.turns| - |WriteEntry(w).turns|
        ensures AfterTurns(w, k).word != 0
      {
        assert AfterTurns(w, k) == AfterTurns(a, k - 1);
        assert k == 1 ==> AfterTurns(a, 0) == a;
      }
    }
  }

  /** A reader enters at the first pair of accesses that find the same word, no writer's:
      in memory the others left, with none of their turns skipped. */
  lemma {:induction false} ReadEntryIsReached(w: World)
    requires FinalWord(w) >= 0
    ensures var n := |w.turns| - |ReadEntry(w).turns|;
            && ReadEntry(w) == AfterTurns(w, n)
            && (ReadEntry(w).turns != [] ==> n >= 2 && AfterTurns(w, n - 1).word == ReadEntry(w).word)
    decreases |w.turns|
  {
    hide FinalWord;
    var a := Turned(w);
    var b := Turned(a);
    TurnTaken(w);
    TurnTaken(a);
    FinalWhenNone(w);
    FinalWhenNone(a);
    if a.word < 0 {
      ReadEntryIsReached(a);
    } else if b.word != a.word {
      ReadEntryIsReached(b);
    }
  }

  /** And it wastes no chance: three accesses in a row that find the same word, no
      writer's, are enough for it, wherever its loop stands when they come. */
  lemma {:induction false} ReadEntryIsPrompt(w: World, k: nat)
    requires FinalWord(w) >= 0 && AfterTurns(w, k).word >= 0
    requires AfterTurns(w, k).word == AfterTurns(w, k + 1).word == AfterTurns(w, k + 2).word
    ensures |w.turns| <= |ReadEntry(w).turns| + k + 2
    decreases |w.turns|
  {
    hide FinalWord;
    var a := Turned(w);
    var b := Turned(a);
    TurnTaken(w);
    TurnTaken(a);
    FinalWhenNone(w);
    FinalWhenNone(a);
    assert AfterTurns(w, 1) == a && AfterTurns(w, 2) == b;
    if k > 0 && a.word < 0 {
      ReadEntryIsPrompt(a, k - 1);
    } else if k > 1 && a.word != b.word {
      assert AfterTurns(w, k) == AfterTurns(b, k - 2) && AfterTurns(w, k + 1) == AfterTurns(b, k - 1);
      ReadEntryIsPrompt(b, k - 2);
    }
  }

  // ----------------------------------------------------------- the objects

  /** The lock word and the data area behind it, shared with other processes. Before each
      access to the word that may wait for them, the others take one of their `turns`;
      between a call's entry and its unlock they take none. How the accesses of all
      processes interleave is the subject of `LockProtocol`. */
  class ShmRwLock {
    const data: array<byte>
    var state: int
    var turns: seq<Turn>

    ghost function Now(): World
      reads this, data
    {
      World(state, data[..], turns)
    }

    constructor (data: array<byte>, turns: seq<Turn>)
      ensures this.data == data && Now() == World(0, data[..], turns)
    {
      this.data := data;
      state := 0;
      this.turns := turns;
    }

    method Init()
      modifies this
      ensures Now() == old(Now()).(word := 0)
    {
      state := 0;
    }

    /** The others take a turn. */
    method LetOthers()
      modifies this, data
      ensures Now() == Turned(old(Now()))
    {
      if turns != [] {
        var t := turns[0];
        state, turns := t.word, turns[1..];
        if |t.bytes| == data.Length {
          forall i | 0 <= i < data.Length {
            data[i] := t.bytes[i];
          }
          assert data[..] == t.bytes;
        }
      }
    }

    method Load() returns (cur: int)
      modifies this, data
      ensures Now() == Turned(old(Now())) && cur == state
    {
      LetOthers();
      cur := state;
    }

    method CompareExchange(expected: int, new_: int) returns (ok: bool)
      modifies this, data
      ensures ok == (Turned(old(Now())).word == expected)
      ensures Now() == Turned(old(Now())).(word := if ok then new_ else Turned(old(Now())).word)
    {
      LetOthers();
      ok := state == expected;
      if ok {
        state := new_;
      }
    }

    /** Waits until no writer holds the lock, and enters. */
    method ReadLock()
      requires FinalWord(Now()) >= 0
      modifies this, data
      ensures Now() == ReadEntry(old(Now())).(word := ReadEntry(old(Now())).word + 1)
    {
      hide FinalWord;
      ghost var entry := ReadEntry(Now());
      var held := false;
      while !held
        invariant held ==> Now() == entry.(word := entry.word + 1)
        invariant !held ==> FinalWord(Now()) >= 0 && ReadEntry(Now()) == entry
        decreases if held then 0 else |turns| + 1
      {
        FinalWhenNone(Now());
        TurnTaken(Now());
        TurnTaken(Turned(Now()));
        FinalWhenNone(Turned(Now()));
        var cur := Load();
        if cur >= 0 {
          held := CompareExchange(cur, cur + 1);
        }
      }
    }

    method ReadUnlock()
      modifies this
      ensures Now() == old(Now()).(word := old(state) - 1)
    {
      state := state - 1;
    }

    /** Waits until nobody holds the lock, and enters. */
    method WriteLock()
      requires FinalWord(Now()) == 0
      modifies this, data
      ensures Now() == WriteEntry(old(Now())).(word := -1)
    {
      hide FinalWord;
      ghost var entry := WriteEntry(Now());
      var held := false;
      while !held
        invariant held ==> Now() == entry.(word := -1)
        invariant !held ==> FinalWord(Now()) == 0 && WriteEntry(Now()) == entry
        decreases if held then 0 else |turns| + 1
      {
        FinalWhenNone(Now());
        TurnTaken(Now());
        held := CompareExchange(0, -1);
      }
    }

    method WriteUnlock()
      modifies this
      ensures Now() == old(Now()).(word := 0)
    {
      state := 0;
    }
  }

  /** A view. Several views, in one or several processes, may share `lock`. */
  class MappedView {
    const data: array<byte>
    const lock: ShmRwLock
    var cursor: nat

    ghost predicate Valid()
      reads this
    {
      cursor <= data.Length < TWO64 / 2 && lock.data == data
    }

    /** What the view's operations are functions of: the data area, here that of a moment
        `w`, and the cursor. */
    ghost function At(w: World): Area
      reads this
    {
      Area(w.bytes, cursor)
    }

    ghost function State(): Area
      reads this, lock, lock.data
    {
      At(lock.Now())
    }

    /** Where a call begins: at an explicit offset, else at the cursor. */
    ghost function Start(offset: Option<nat>): nat
      reads this
    {
      if offset.Some? then offset.value else cursor
    }

    constructor (lock: ShmRwLock)
      requires lock.data.Length < TWO64 / 2
      ensures Valid() && this.lock == lock && cursor == 0
    {
      this.data := lock.data;
      this.lock := lock;
      cursor := 0;
    }

    /** Maps a segment of `size` bytes: fails when it has no room beyond the lock word;
        the creator also initialises the lock. */
    static method New(lock: ShmRwLock, size: nat, isCreator: bool) returns (view: MappedView?)
      requires lock.data.Length == SaturatingSub(size, RWLOCK_SIZE) && size < TWO64 / 2
      modifies lock
      ensures view == null <==> size <= RWLOCK_SIZE
      ensures view != null ==> fresh(view) && view.Valid() && view.lock == lock && view.cursor == 0
      ensures lock.Now() == if view != null && isCreator then old(lock.Now()).(word := 0) else old(lock.Now())
    {
      if size <= RWLOCK_SIZE {
        return null;
      }
      if isCreator {
        lock.Init();
      }
      view := new MappedView(lock);
    }

    /** `copy_nonoverlapping` into the data area. */
    method CopyIn(pos: nat, src: seq<byte>)
      requires pos + |src| <= data.Length
      modifies data
      ensures data[..] == Splice(old(data[..]), pos, src)
    {
      for i := 0 to |src|
        invariant forall j :: 0 <= j < data.Length ==>
                    data[j] == if pos <= j < pos + i then src[j - pos] else old(data[j])
      {
        data[pos + i] := src[i];
      }
    }

    /** The common part of `write` and `write_mixed`: bounds, guard, copy, cursor. */
    method Put(bytes: seq<byte>, offset: Option<nat>) returns (ok: bool)
      requires Valid() && FinalWord(lock.Now()) == 0
      modifies this`cursor, data, lock
      ensures Valid()
      ensures ok == CanWrite(old(State()), Ok(bytes), offset)
      ensures ok <==> bytes != [] && old(Start(offset)) + |bytes| <= data.Length
      ensures cursor == old(cursor) + if ok && offset.None? then |bytes| else 0
      ensures ok ==> PutAt(data[..], WriteEntry(old(lock.Now())).bytes, old(Start(offset)), bytes)
      ensures !ok ==> State() == old(State()) && lock.Now() == old(lock.Now())
      ensures ok ==>
                var entry := WriteEntry(old(lock.Now()));
                && State() == Written(old(At(WriteEntry(lock.Now()))), Ok(bytes), offset)
                && lock.state == entry.word && lock.turns == entry.turns
    {
      hide FinalWord, Splice, PutAt;
      var pos := cursor;
      if offset.Some? {
        pos := offset.value;
      }
      if !CheckBounds(data.Length, pos, |bytes|) {
        return false;
      }
      lock.WriteLock();
      SplicePuts(data[..], pos, bytes);
      CopyIn(pos, bytes);
      if offset.None? {
        cursor := cursor + |bytes|;
      }
      lock.WriteUnlock();
      ok := true;
    }

    method Write(v: Value, offset: Option<nat>) returns (ok: bool)
      requires Valid() && FinalWord(lock.Now()) == 0
      modifies this`cursor, data, lock
      ensures Valid()
      ensures ok == CanWrite(old(State()), Packed([v]), offset)
      ensures ok <==> Packable(v) && Bytes(v) != [] && old(Start(offset)) + |Bytes(v)| <= data.Length
      ensures cursor == old(cursor) + if ok && offset.None? then |Bytes(v)| else 0
      ensures ok ==> PutAt(data[..], WriteEntry(old(lock.Now())).bytes, old(Start(offset)), Bytes(v))
      ensures ok && v.Raw? ==> PutAt(data[..], WriteEntry(old(lock.Now())).bytes, old(Start(offset)), v.bytes)
      ensures !ok ==> State() == old(State()) && lock.Now() == old(lock.Now())
      ensures ok ==>
                var entry := WriteEntry(old(lock.Now()));
                && State() == After(old(At(WriteEntry(lock.Now()))), Call.Write(v, offset))
                && lock.state == entry.word && lock.turns == entry.turns
    {
      hide AllPackable, AllBytes, Packable, Bytes, Splice, FinalWord, WriteEntry, PutAt;
      PackSingle(v);
      var bytes := new ByteVec();
      ok := PackValue(v, bytes);
      assert ok ==> bytes.bytes == AllBytes([v]);
      assert v.Raw? ==> Packable(v) && v.bytes == Bytes(v);
      if ok {
        ok := Put(bytes.bytes, offset);
      }
    }

    method WriteMixed(items: seq<Item>, offset: Option<nat>) returns (ok: bool)
      requires Valid() && FinalWord(lock.Now()) == 0
      modifies this`cursor, data, lock
      ensures Valid()
      ensures ok == CanWrite(old(State()), Packed(Flatten(items)), offset)
      ensures ok <==>
                && AllPackable(Flatten(items)) && AllBytes(Flatten(items)) != []
                && old(Start(offset)) + |AllBytes(Flatten(items))| <= data.Length
      ensures cursor == old(cursor) + if ok && offset.None? then |AllBytes(Flatten(items))| else 0
      ensures ok ==> PutAt(data[..], WriteEntry(old(lock.Now())).bytes, old(Start(offset)), AllBytes(Flatten(items)))
      ensures !ok ==> State() == old(State()) && lock.Now() == old(lock.Now())
      ensures ok ==>
                var entry := WriteEntry(old(lock.Now()));
                && State() == After(old(At(WriteEntry(lock.Now()))), Call.WriteMixed(items, offset))
                && lock.state == entry.word && lock.turns == entry.turns
    {
      hide AllPackable, AllBytes, Flatten, Splice, FinalWord, WriteEntry, PutAt;
      var packed := PackMixed(items);
      ok := packed.Ok?;
      if ok {
        ok := Put(packed.value, offset);
      }
    }

    /** Reads one value at the cursor. The guard is released on the error path too. */
    method Read(tag: Tag) returns (r: Result<Value>)
      requires Valid() && FinalWord(lock.Now()) >= 0
      modifies this`cursor, data, lock
      ensures Valid() && lock.Now() == ReadEntry(old(lock.Now()))
      ensures var found := UnpackOne(ReadEntry(old(lock.Now())).bytes[old(cursor)..], tag);
              if found.Err? then r == Err && cursor == old(cursor)
              else r == Ok(found.value.0) && cursor == old(cursor) + found.value.1
      ensures r == match ReadValue(old(At(ReadEntry(lock.Now()))), tag) case Err => Err case Ok((v, _)) => Ok(v)
      ensures State() == After(old(At(ReadEntry(lock.Now()))), Call.Read(tag))
    {
      hide UnpackOne, FinalWord, ReadEntry;
      var pos := cursor;
      lock.ReadLock();
      var unpacked := UnpackOne(data[pos..pos + (data.Length - pos)], tag);
      assert data[pos..pos + (data.Length - pos)] == data[..][pos..];
      match unpacked {
        case Err => r := Err;
        case Ok((v, bytesRead)) =>
          cursor := cursor + bytesRead;
          r := Ok(v);
      }
      lock.ReadUnlock();
    }

    method ReadMixed(schema: seq<Entry>, offset: Option<nat>) returns (r: Result<seq<Item>>)
      requires Valid() && FinalWord(lock.Now()) >= 0
      modifies this`cursor, data, lock
      ensures Valid()
      ensures var pos := if offset.Some? then offset.value else old(cursor);
              if pos >= data.Length
              then r == Err && lock.Now() == old(lock.Now()) && State() == old(State())
              else
                && lock.Now() == ReadEntry(old(lock.Now()))
                && var found := ReadSchemaByTags(ReadEntry(old(lock.Now())).bytes[pos..], schema);
                && (if found.Err? then r == Err && cursor == old(cursor)
                    else r == Ok(found.value.0)
                         && cursor == old(cursor) + if offset.None? then found.value.1 else 0)
                && r == (match ReadSchema(old(At(ReadEntry(lock.Now()))), schema, offset)
                         case Err => Err
                         case Ok((items, _)) => Ok(items))
                && State() == After(old(At(ReadEntry(lock.Now()))), Call.ReadMixed(schema, offset))
    {
      hide Decode, ReadSchemaByTags, FinalWord, ReadEntry;
      var pos := cursor;
      if offset.Some? {
        pos := offset.value;
      }
      var available := SaturatingSub(data.Length, pos);
      if available == 0 {
        return Err;
      }
      lock.ReadLock();
      var bytes := data[pos..pos + available];
      assert bytes == data[..][pos..];
      DecodersAgree(bytes, schema);
      var unpacked := UnpackMixedCounted(bytes, schema);
      match unpacked {
        case Err => r := Err;
        case Ok((items, bytesRead)) =>
          if offset.None? {
            cursor := cursor + bytesRead;
          }
          r := Ok(items);
      }
      lock.ReadUnlock();
    }

    method ReadAll() returns (bytes: seq<byte>)
      requires Valid() && FinalWord(lock.Now()) >= 0
      modifies data, lock
      ensures lock.Now() == ReadEntry(old(lock.Now()))
      ensures bytes == ReadEntry(old(lock.Now())).bytes
    {
      hide FinalWord, ReadEntry;
      lock.ReadLock();
      bytes := data[..];
      lock.ReadUnlock();
    }

    method ReadRange(offset: nat, length: nat) returns (r: Result<seq<byte>>)
      requires Valid() && FinalWord(lock.Now()) >= 0
      modifies data, lock
      ensures r.Ok? <==> 0 < length && offset + length <= data.Length
      ensures r.Ok? ==> r.value == ReadEntry(old(lock.Now())).bytes[offset..offset + length]
      ensures lock.Now() == if r.Ok? then ReadEntry(old(lock.Now())) else old(lock.Now())
    {
      hide FinalWord, ReadEntry;
      if !CheckBounds(data.Length, offset, length) {
        return Err;
      }
      lock.ReadLock();
      r := Ok(data[offset..offset + length]);
      assert data[offset..offset + length] == data[..][offset..offset + length];
      lock.ReadUnlock();
    }

    /** `write_bytes(0)` over the data area. */
    method Clear()
      modifies data
      ensures data[..] == Zeros(data.Length)
    {
      for i := 0 to data.Length
        invariant forall j :: 0 <= j < i ==> data[j] == 0
      {
        data[i] := 0;
      }
      assert data[..] == Zeros(data.Length);
    }

    method Zero()
      requires Valid() && FinalWord(lock.Now()) == 0
      modifies data, lock
      ensures Valid() && cursor == old(cursor)
      ensures forall i :: 0 <= i < data.Length ==> data[i] == 0
      ensures lock.Now() == WriteEntry(old(lock.Now())).(bytes := Zeros(data.Length))
      ensures State() == After(old(At(WriteEntry(lock.Now()))), Call.Zero)
    {
      hide FinalWord;
      lock.WriteLock();
      Clear();
      lock.WriteUnlock();
    }

    method Seek(pos: nat) returns (ok: bool)
      requires Valid()
      modifies this`cursor
      ensures Valid() && ok == (pos <= data.Length)
      ensures cursor == if pos <= data.Length then pos else old(cursor)
      ensures State() == After(old(State()), Call.Seek(pos))
    {
      if pos > data.Length {
        return false;
      }
      cursor := pos;
      ok := true;
    }

    function Tell(): nat
      reads this
    {
      cursor
    }
  }
}
