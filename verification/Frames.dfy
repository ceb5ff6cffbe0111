/** Length-prefixed frames, the byte stream they form, and how a stretch of that
    stream lies in a ring of `cap` cells. */
module Frames {
  import opened Words
  import opened Endian
  import opened Wrappers

  type Msg = seq<byte>

  /** The bytes `push` writes for one message; the length is cast with `as u32`. */
  function Frame(m: Msg): (f: seq<byte>)
    ensures |f| == 4 + |m|
  {
    NeBytes(|m| % TWO32, 4) + m
  }

  /** The messages whose length survives the cast. */
  predicate Short(q: seq<Msg>) {
    forall k :: 0 <= k < |q| ==> |q[k]| < TWO32
  }

  lemma ShortRest(q: seq<Msg>, j: nat)
    requires Short(q) && j <= |q|
    ensures Short(q[j..])
  {
  }

  lemma ShortSnoc(q: seq<Msg>, j: nat, m: Msg)
    requires Short(q) && j <= |q|
    ensures Short(q + [m]) <==> |m| < TWO32
    ensures Short((q + [m])[j..]) <==> |m| < TWO32
  {
    assert (q + [m])[|q|] == m && (q + [m])[j..][|q| - j] == m;
  }

  /** A payload of `n` bytes fits the 32-bit prefix, unless a ring of `cap` bytes rejects
      it anyway. Where `cap` is at most 2^32 this asks nothing. */
  predicate PrefixHolds(cap: nat, n: nat) {
    4 + n <= cap ==> n < TWO32
  }

  /** The stream of all frames, in order. */
  function Stream(q: seq<Msg>): seq<byte> {
    if q == [] then [] else Stream(q[..|q| - 1]) + Frame(q[|q| - 1])
  }

  /** The stream position where message `j` starts. */
  function Off(q: seq<Msg>, j: nat): nat
    requires j <= |q|
  {
    |Stream(q[..j])|
  }

  /** Ring space taken by the messages of `q` from number `j` on. */
  function Space(q: seq<Msg>, j: nat): int
    requires j <= |q|
  {
    |Stream(q)| - Off(q, j)
  }

  lemma StreamSnoc(q: seq<Msg>, m: Msg)
    ensures Stream(q + [m]) == Stream(q) + Frame(m)
  {
    assert (q + [m])[..|q|] == q;
  }

  lemma {:induction false} StreamConcat(a: seq<Msg>, b: seq<Msg>)
    ensures Stream(a + b) == Stream(a) + Stream(b)
    decreases |b|
  {
    hide Frame;
    if b == [] {
      assert a + b == a;
    } else {
      var c, m := b[..|b| - 1], b[|b| - 1];
      StreamConcat(a, c);
      assert a + b == (a + c) + [m];
      StreamSnoc(a + c, m);
      Assoc(Stream(a), Stream(c), Frame(m));
    }
  }

  /** Where message `j` lies in the stream, and that offsets only grow. */
  lemma FrameAt(q: seq<Msg>, j: nat)
    requires j < |q|
    ensures Off(q, j + 1) == Off(q, j) + 4 + |q[j]| <= |Stream(q)|
    ensures Stream(q)[Off(q, j)..Off(q, j + 1)] == Frame(q[j])
  {
    hide Stream, Frame;
    assert q[..j + 1] == q[..j] + [q[j]];
    assert q == q[..j + 1] + q[j + 1..];
    StreamSnoc(q[..j], q[j]);
    StreamConcat(q[..j + 1], q[j + 1..]);
    var a, f, z := Stream(q[..j]), Frame(q[j]), Stream(q[j + 1..]);
    assert Stream(q) == a + f + z;
    assert (a + f + z)[|a|..|a + f|] == f;
  }

  lemma OffMonotone(q: seq<Msg>, i: nat, j: nat)
    requires i <= j <= |q|
    ensures Off(q, i) <= Off(q, j) <= |Stream(q)|
    ensures i < j ==> Off(q, i) < Off(q, j)
  {
    hide Stream, Frame;
    assert q[..j] == q[..i] + q[i..j];
    StreamConcat(q[..i], q[i..j]);
    assert q == q[..j] + q[j..];
    StreamConcat(q[..j], q[j..]);
    if i < j {
      FrameAt(q[i..j], 0);
    }
  }

  lemma OffOfPrefix(q: seq<Msg>, m: Msg, j: nat)
    requires j <= |q|
    ensures Off(q + [m], j) == Off(q, j)
    ensures Off(q, |q|) == |Stream(q)|
  {
    assert (q + [m])[..j] == q[..j];
    assert q[..|q|] == q;
  }

  /** What is left of the stream after dropping `j` messages is the rest's stream. */
  lemma StreamRest(q: seq<Msg>, j: nat)
    requires j <= |q|
    ensures Off(q, j) <= |Stream(q)|
    ensures Stream(q)[Off(q, j)..] == Stream(q[j..]) && Space(q, j) == |Stream(q[j..])|
  {
    assert q == q[..j] + q[j..];
    StreamConcat(q[..j], q[j..]);
  }

  // --------------------------------------------------------------- parsing

  /** Reads frames off the front until nothing is left. */
  function Parse(w: seq<byte>): Option<seq<Msg>> {
    if w == [] then Some([])
    else if |w| < 4 then None
    else
      var len := NeNat(w[..4]);
      if |w| < 4 + len then None
      else
        match Parse(w[4 + len..])
        case None => None
        case Some(q) => Some([w[4..4 + len]] + q)
  }

  lemma FrameParts(m: Msg)
    ensures NeNat(Frame(m)[..4]) == |m| % TWO32 && Frame(m)[4..] == m
  {
    Widths();
    NeRoundTrip(|m| % TWO32, 4);
    assert Frame(m)[..4] == NeBytes(|m| % TWO32, 4);
  }

  /** The prefix tells the message's length exactly when the length is below 2^32. */
  lemma PrefixExact(m: Msg)
    ensures NeNat(Frame(m)[..4]) == |m| <==> |m| < TWO32
  {
    FrameParts(m);
  }

  lemma StreamHead(m: Msg, q: seq<Msg>)
    ensures Stream([m] + q) == Frame(m) + Stream(q)
  {
    StreamConcat([m], q);
    assert [m][..0] == [] && [] + Frame(m) == Frame(m);
  }

  lemma {:induction false} ParseStream(q: seq<Msg>)
    requires Short(q)
    ensures Parse(Stream(q)) == Some(q)
    decreases |q|
  {
    hide Stream, Frame;
    if q == [] {
      StreamNone();
    } else {
      var m, rest := q[0], q[1..];
      assert q == [m] + rest;
      StreamHead(m, rest);
      FrameParts(m);
      ParseStream(rest);
      var w := Stream(q);
      assert w[..4] == Frame(m)[..4];
      assert w[4..4 + |m|] == Frame(m)[4..];
      assert w[4 + |m|..] == Stream(rest);
    }
  }

  lemma StreamNone()
    ensures Stream([]) == []
  {
  }

  /** Any length prefix followed by that many bytes is a frame. */
  lemma FrameOfParts(w: seq<byte>)
    requires |w| >= 4 && |w| >= 4 + NeNat(w[..4])
    ensures var m := w[4..4 + NeNat(w[..4])]; |m| < TWO32 && w == Frame(m) + w[4 + |m|..]
  {
    hide NeNat, NeBytes, Pow256;
    NeRange(w[..4]);
    Widths();
    NeInverse(w[..4]);
    var m := w[4..4 + NeNat(w[..4])];
    assert Frame(m) == w[..4] + m;
    assert w == w[..4] + m + w[4 + |m|..];
  }

  lemma {:induction false} ParseSound(w: seq<byte>)
    ensures match Parse(w) case None => true case Some(q) => Short(q) && Stream(q) == w
    decreases |w|
  {
    hide Stream, Frame, NeNat;
    if w == [] {
      StreamNone();
    } else if |w| >= 4 {
      var len := NeNat(w[..4]);
      if |w| >= 4 + len {
        ParseSound(w[4 + len..]);
        match Parse(w[4 + len..])
        case None =>
        case Some(q) =>
          var m := w[4..4 + len];
          StreamHead(m, q);
          FrameOfParts(w);
      }
    }
  }

  /** Unique parsing: a byte string is the stream of at most one list of messages,
      and `Parse` finds it. */
  lemma ParseExact(w: seq<byte>, q: seq<Msg>)
    ensures Parse(w) == Some(q) <==> Short(q) && Stream(q) == w
  {
    ParseSound(w);
    if Short(q) {
      ParseStream(q);
    }
  }

  // ------------------------------------------------------------- the ring

  /** The data cell of a logical position. */
  function Cell(p: nat, cap: nat): (c: nat)
    requires IsPowerOfTwo(cap)
    ensures c < cap
  {
    MaskInRange(p, cap);
    And(p, cap - 1)
  }

  lemma CellsDiffer(p: nat, q: nat, cap: nat)
    requires IsPowerOfTwo(cap) && p != q && p < q + cap && q < p + cap
    ensures Cell(p, cap) != Cell(q, cap)
  {
    if p < q {
      MaskInjective(p, q, cap);
    } else {
      MaskInjective(q, p, cap);
    }
  }

  lemma CellOfWrap(p: nat, cap: nat)
    requires IsPowerOfTwo(cap) && cap <= TWO64
    ensures Cell(Wrap(p), cap) == Cell(p, cap)
  {
    MaskOfWrap(p, cap);
  }

  /** The ring holds `stream` from position `from` on, each byte in its cell. */
  predicate Stored(mem: seq<byte>, cap: nat, from: nat, stream: seq<byte>)
    requires IsPowerOfTwo(cap) && |mem| == cap
  {
    forall p: nat {:trigger Cell(p, cap)} :: from <= p < |stream| ==> mem[Cell(p, cap)] == stream[p]
  }

  /** `n` bytes of the ring from logical position `pos` on. */
  function Window(mem: seq<byte>, cap: nat, pos: nat, n: nat): (w: seq<byte>)
    requires IsPowerOfTwo(cap) && |mem| == cap
    ensures |w| == n
  {
    seq(n, i requires 0 <= i < n => mem[Cell(pos + i, cap)])
  }

  lemma WindowOfStored(mem: seq<byte>, cap: nat, from: nat, stream: seq<byte>, pos: nat, n: nat)
    requires IsPowerOfTwo(cap) && |mem| == cap && Stored(mem, cap, from, stream)
    requires from <= pos && pos + n <= |stream|
    ensures Window(mem, cap, pos, n) == stream[pos..pos + n]
  {
    hide Cell, IsPowerOfTwo;
    forall i | 0 <= i < n
      ensures Window(mem, cap, pos, n)[i] == stream[pos + i]
    {
      assert mem[Cell(pos + i, cap)] == stream[pos + i];
    }
  }

  /** Writing the next byte of the stream keeps the live part intact while the live
      part is shorter than the ring. */
  lemma StoredWrite(mem: seq<byte>, cap: nat, from: nat, stream: seq<byte>, b: byte)
    requires IsPowerOfTwo(cap) && |mem| == cap && Stored(mem, cap, from, stream)
    requires from <= |stream| < from + cap
    ensures Stored(mem[Cell(|stream|, cap) := b], cap, from, stream + [b])
  {
    hide Cell, IsPowerOfTwo;
    forall p: nat | from <= p < |stream|
      ensures Cell(p, cap) != Cell(|stream|, cap)
    {
      CellsDiffer(p, |stream|, cap);
    }
  }

  // ------------------------------------------------------- circular copies

  /** The ring after copying `src` to logical position `pos`, byte by byte. */
  function Blit(mem: seq<byte>, cap: nat, pos: nat, src: seq<byte>): (r: seq<byte>)
    requires IsPowerOfTwo(cap) && |mem| == cap
    ensures |r| == cap
  {
    if src == [] then mem
    else
      var n := |src| - 1;
      Blit(mem, cap, pos, src[..n])[Cell(pos + n, cap) := src[n]]
  }

  /** A copy puts byte `i` into cell `(pos + i) mod cap`, and a read takes it from there. */
  lemma {:induction false} CopyCells(mem: seq<byte>, cap: nat, pos: nat, src: seq<byte>, i: nat)
    requires IsPowerOfTwo(cap) && |mem| == cap && i < |src| <= cap
    ensures Blit(mem, cap, pos, src)[(pos + i) % cap] == src[i]
    ensures Window(mem, cap, pos, |src|)[i] == mem[(pos + i) % cap]
    decreases |src|
  {
    hide IsPowerOfTwo, And;
    MaskIsMod(pos + i, cap);
    var n := |src| - 1;
    if i < n {
      CopyCells(mem, cap, pos, src[..n], i);
      CellsDiffer(pos + i, pos + n, cap);
    }
  }

  /** Cell `c` holds some position of `[pos, pos + n)`. */
  ghost predicate Covers(cap: nat, pos: nat, n: nat, c: nat)
    requires IsPowerOfTwo(cap)
  {
    exists p: nat {:trigger Cell(p, cap)} :: pos <= p < pos + n && c == Cell(p, cap)
  }

  /** A copy changes no cell outside its window. */
  lemma {:induction false} BlitOutside(mem: seq<byte>, cap: nat, pos: nat, src: seq<byte>, c: nat)
    requires IsPowerOfTwo(cap) && |mem| == cap && c < cap
    requires !Covers(cap, pos, |src|, c)
    ensures Blit(mem, cap, pos, src)[c] == mem[c]
    decreases |src|
  {
    hide Cell, IsPowerOfTwo;
    if src != [] {
      assert c != Cell(pos + |src| - 1, cap);
      BlitOutside(mem, cap, pos, src[..|src| - 1], c);
    }
  }

  /** A copy that fits the ring reads back. */
  lemma {:induction false} BlitInverse(mem: seq<byte>, cap: nat, pos: nat, src: seq<byte>)
    requires IsPowerOfTwo(cap) && |mem| == cap && |src| <= cap
    ensures Window(Blit(mem, cap, pos, src), cap, pos, |src|) == src
    decreases |src|
  {
    hide Cell, IsPowerOfTwo;
    if src != [] {
      var n := |src| - 1;
      var before, after := Blit(mem, cap, pos, src[..n]), Blit(mem, cap, pos, src);
      BlitInverse(mem, cap, pos, src[..n]);
      forall i | 0 <= i < n
        ensures Window(after, cap, pos, |src|)[i] == src[i]
      {
        CellsDiffer(pos + i, pos + n, cap);
        assert Window(before, cap, pos, n)[i] == src[..n][i];
      }
    }
  }

  /** A copy leaves alone every other window that fits with it into one `cap`-sized span. */
  lemma BlitFrame(mem: seq<byte>, cap: nat, pos: nat, src: seq<byte>, other: nat, n: nat)
    requires IsPowerOfTwo(cap) && |mem| == cap
    requires other + n <= pos <= pos + |src| <= other + cap || pos + |src| <= other <= other + n <= pos + cap
    ensures Window(Blit(mem, cap, pos, src), cap, other, n) == Window(mem, cap, other, n)
  {
    hide Cell, IsPowerOfTwo, Blit;
    var after := Blit(mem, cap, pos, src);
    forall k | 0 <= k < n
      ensures Window(after, cap, other, n)[k] == Window(mem, cap, other, n)[k]
    {
      var c := Cell(other + k, cap);
      forall p: nat {:trigger Cell(p, cap)} | pos <= p < pos + |src|
        ensures c != Cell(p, cap)
      {
        CellsDiffer(other + k, p, cap);
      }
      BlitOutside(mem, cap, pos, src, c);
    }
  }

  /** Copying the next bytes of the stream extends the stored stretch. */
  lemma {:induction false} StoredBlit(mem: seq<byte>, cap: nat, from: nat, stream: seq<byte>, src: seq<byte>)
    requires IsPowerOfTwo(cap) && |mem| == cap && Stored(mem, cap, from, stream)
    requires from <= |stream| && |stream| + |src| <= from + cap
    ensures Stored(Blit(mem, cap, |stream|, src), cap, from, stream + src)
    decreases |src|
  {
    hide Cell, IsPowerOfTwo, Stored;
    if src == [] {
      assert stream + src == stream;
    } else {
      var n := |src| - 1;
      StoredBlit(mem, cap, from, stream, src[..n]);
      StoredWrite(Blit(mem, cap, |stream|, src[..n]), cap, from, stream + src[..n], src[n]);
      assert (stream + src[..n]) + [src[n]] == stream + src;
    }
  }

  // ------------------------------------------------------ wrapped counters

  /** A counter and its wrapped value name the same cells. */
  lemma CellFromWrapped(p: nat, i: nat, cap: nat)
    requires IsPowerOfTwo(cap) && cap <= TWO64
    ensures Cell(Wrap(p) + i, cap) == Cell(p + i, cap)
    ensures Cell(Wrap(p + i), cap) == Cell(p + i, cap)
    ensures Wrap(Wrap(p) + i) == Wrap(p + i)
  {
    hide Cell, IsPowerOfTwo;
    WrapAdd(p, i);
    CellOfWrap(p + i, cap);
    CellOfWrap(Wrap(p) + i, cap);
  }

  lemma WrapAdd(p: nat, i: nat)
    ensures Wrap(Wrap(p) + i) == Wrap(p + i)
  {
  }

  lemma {:induction false} BlitFromWrapped(mem: seq<byte>, cap: nat, p: nat, src: seq<byte>)
    requires IsPowerOfTwo(cap) && cap <= TWO64 && |mem| == cap
    ensures Blit(mem, cap, Wrap(p), src) == Blit(mem, cap, p, src)
    decreases |src|
  {
    hide Cell, IsPowerOfTwo, Wrap;
    if src != [] {
      BlitFromWrapped(mem, cap, p, src[..|src| - 1]);
      CellFromWrapped(p, |src| - 1, cap);
    }
  }

  lemma WindowFromWrapped(mem: seq<byte>, cap: nat, p: nat, n: nat)
    requires IsPowerOfTwo(cap) && cap <= TWO64 && |mem| == cap
    ensures Window(mem, cap, Wrap(p), n) == Window(mem, cap, p, n)
  {
    hide Cell, IsPowerOfTwo, Wrap;
    forall i | 0 <= i < n
      ensures Window(mem, cap, Wrap(p), n)[i] == Window(mem, cap, p, n)[i]
    {
      CellFromWrapped(p, i, cap);
    }
  }

  /** Copying a frame in two parts, the prefix at the tail and the payload at `tail + 4`. */
  lemma {:induction false} BlitTwice(mem: seq<byte>, cap: nat, pos: nat, a: seq<byte>, b: seq<byte>)
    requires IsPowerOfTwo(cap) && |mem| == cap
    ensures Blit(Blit(mem, cap, pos, a), cap, pos + |a|, b) == Blit(mem, cap, pos, a + b)
    decreases |b|
  {
    hide Cell, IsPowerOfTwo;
    if b == [] {
      assert a + b == a;
    } else {
      var n := |b| - 1;
      BlitTwice(mem, cap, pos, a, b[..n]);
      assert (a + b)[..|a + b| - 1] == a + b[..n];
    }
  }
}
