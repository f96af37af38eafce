/**
 * The tape of eval.c: chunks of 112 signed cells, each with a link to a
 * previous and a next chunk, a cursor (the chunk and the cell in it), and
 * the memory accounting of `cells_mem_used` against `cells_mem_max`.
 *
 * Chunks are numbered in allocation order; a link names a chunk by its
 * number.  As written, a chunk allocated at an edge is linked back to the
 * chunk it was reached from in neither direction, and a step across the
 * left edge lands on the FIRST cell of the chunk it reaches.
 */
module Tape {
  import opened Bytes

  /** Cells per chunk: 128 minus the two link pointers (64-bit host). */
  const CELLS: nat := 112

  /** sizeof(struct cells_chunk), the amount charged per chunk */
  const CHUNK_BYTES: nat := 128

  datatype Link = NoLink | LinkTo(chunk: nat)

  datatype Chunk = Chunk(cells: seq<cell>, prev: Link, next: Link)

  /** The chunks, the cursor (`chunk`, `cell`) and the bytes charged. */
  datatype Tape = Tape(chunks: seq<Chunk>, chunk: nat, cell: nat, used: nat)

  predicate LinkIn(l: Link, n: nat)
  {
    l.LinkTo? ==> l.chunk < n
  }

  predicate WellFormed(t: Tape)
  {
    && t.chunk < |t.chunks| && t.cell < CELLS
    && forall i :: 0 <= i < |t.chunks| ==>
         |t.chunks[i].cells| == CELLS && LinkIn(t.chunks[i].prev, |t.chunks|) && LinkIn(t.chunks[i].next, |t.chunks|)
  }

  function ZeroCells(): (z: seq<cell>)
    ensures |z| == CELLS && forall k :: 0 <= k < CELLS ==> z[k] == 0
  {
    seq(CELLS, _ => 0)
  }

  /** cells_init after `cells_mem_used = 0`: one zero chunk, charged
      without a check, the cursor on its first cell. */
  function Init(): (t: Tape)
    ensures WellFormed(t)
  {
    Tape([Chunk(ZeroCells(), NoLink, NoLink)], 0, 0, CHUNK_BYTES)
  }

  /** `*cells_iter_ref_cell(dp)` */
  function Get(t: Tape): (v: cell)
    requires WellFormed(t)
    ensures Set(t, v) == t
  {
    var c := t.chunks[t.chunk];
    assert c.cells[t.cell := c.cells[t.cell]] == c.cells;
    assert t.chunks[t.chunk := c] == t.chunks;
    c.cells[t.cell]
  }

  /** `*cells_iter_ref_cell(dp) = v` */
  function Set(t: Tape, v: cell): (t': Tape)
    requires WellFormed(t)
    ensures WellFormed(t')
  {
    var c := t.chunks[t.chunk];
    t.(chunks := t.chunks[t.chunk := c.(cells := c.cells[t.cell := v])])
  }

  /** The allocation test of `_cells_iter_next_chunk` and
      `_cells_iter_prev_chunk`: with a limit set, one more chunk must fit. */
  predicate CanGrow(used: nat, max: nat)
  {
    max == 0 || used + CHUNK_BYTES <= max
  }

  datatype Moved = Moved(tape: Tape) | NoMemory(used: nat)

  /** cells_iter_next: one cell right inside the chunk; at its last cell,
      to the first cell of the next chunk, allocated zeroed (and linked from
      this one only) when there is none. */
  function Right(t: Tape, max: nat): (r: Moved)
    requires WellFormed(t)
    ensures r.Moved? ==> WellFormed(r.tape)
  {
    if t.cell < CELLS - 1 then Moved(t.(cell := t.cell + 1))
    else
      var c := t.chunks[t.chunk];
      match c.next
      case LinkTo(k) => Moved(t.(chunk := k, cell := 0))
      case NoLink =>
        if !CanGrow(t.used, max) then NoMemory(t.used)
        else
          var n := |t.chunks|;
          var chunks := t.chunks[t.chunk := c.(next := LinkTo(n))] + [Chunk(ZeroCells(), NoLink, NoLink)];
          Moved(Tape(chunks, n, 0, t.used + CHUNK_BYTES))
  }

  /** cells_iter_prev: one cell left inside the chunk; at its first cell,
      to the FIRST cell of the previous chunk, allocated zeroed (and linked
      from this one only) when there is none. */
  function Left(t: Tape, max: nat): (r: Moved)
    requires WellFormed(t)
    ensures r.Moved? ==> WellFormed(r.tape)
  {
    if t.cell > 0 then Moved(t.(cell := t.cell - 1))
    else
      var c := t.chunks[t.chunk];
      match c.prev
      case LinkTo(k) => Moved(t.(chunk := k, cell := 0))
      case NoLink =>
        if !CanGrow(t.used, max) then NoMemory(t.used)
        else
          var n := |t.chunks|;
          var chunks := t.chunks[t.chunk := c.(prev := LinkTo(n))] + [Chunk(ZeroCells(), NoLink, NoLink)];
          Moved(Tape(chunks, n, 0, t.used + CHUNK_BYTES))
  }

  /** Every chunk is charged once: `cells_mem_used` is 128 bytes per chunk. */
  predicate Charged(t: Tape)
  {
    t.used == CHUNK_BYTES * |t.chunks|
  }

  /** With a limit set, every chunk after the first fits under it (the
      first is charged unchecked, so it may exceed a limit below 128). */
  predicate WithinLimit(t: Tape, max: nat)
  {
    max == 0 || |t.chunks| == 1 || t.used <= max
  }

  lemma InitAccounts(max: nat)
    ensures Charged(Init()) && WithinLimit(Init(), max) && Get(Init()) == 0
  {
  }

  /** A step keeps the accounting, and runs out of memory exactly when it
      must allocate and the limit leaves no room for another chunk. */
  lemma RightAccounts(t: Tape, max: nat)
    requires WellFormed(t) && Charged(t) && WithinLimit(t, max)
    ensures Right(t, max).Moved? ==> Charged(Right(t, max).tape) && WithinLimit(Right(t, max).tape, max)
    ensures Right(t, max).NoMemory? <==> t.cell == CELLS - 1 && t.chunks[t.chunk].next.NoLink? && !CanGrow(t.used, max)
    ensures Right(t, max).NoMemory? ==> Right(t, max).used == t.used
  {
  }

  lemma LeftAccounts(t: Tape, max: nat)
    requires WellFormed(t) && Charged(t) && WithinLimit(t, max)
    ensures Left(t, max).Moved? ==> Charged(Left(t, max).tape) && WithinLimit(Left(t, max).tape, max)
    ensures Left(t, max).NoMemory? <==> t.cell == 0 && t.chunks[t.chunk].prev.NoLink? && !CanGrow(t.used, max)
    ensures Left(t, max).NoMemory? ==> Left(t, max).used == t.used
  {
  }

  /** Storing changes the current cell and nothing else. */
  lemma SetGet(t: Tape, v: cell)
    requires WellFormed(t)
    ensures Get(Set(t, v)) == v
    ensures var t' := Set(t, v);
      && t'.chunk == t.chunk && t'.cell == t.cell && t'.used == t.used && |t'.chunks| == |t.chunks|
      && forall i, k :: 0 <= i < |t.chunks| && 0 <= k < CELLS && (i, k) != (t.chunk, t.cell) ==>
           t'.chunks[i].cells[k] == t.chunks[i].cells[k]
  {
  }

  /** A step changes no cell: the chunks there were keep their cells and a
      new chunk is zero. */
  lemma RightKeepsCells(t: Tape, max: nat)
    requires WellFormed(t) && Right(t, max).Moved?
    ensures var t' := Right(t, max).tape;
      && |t'.chunks| >= |t.chunks|
      && (forall i :: 0 <= i < |t.chunks| ==> t'.chunks[i].cells == t.chunks[i].cells)
      && (forall i :: |t.chunks| <= i < |t'.chunks| ==> t'.chunks[i].cells == ZeroCells())
  {
  }

  lemma LeftKeepsCells(t: Tape, max: nat)
    requires WellFormed(t) && Left(t, max).Moved?
    ensures var t' := Left(t, max).tape;
      && |t'.chunks| >= |t.chunks|
      && (forall i :: 0 <= i < |t.chunks| ==> t'.chunks[i].cells == t.chunks[i].cells)
      && (forall i :: |t.chunks| <= i < |t'.chunks| ==> t'.chunks[i].cells == ZeroCells())
  {
  }

  /** Inside a chunk the two steps undo each other. */
  lemma RightThenLeft(t: Tape, max: nat)
    requires WellFormed(t) && t.cell < CELLS - 1
    ensures Right(t, max).Moved? && Left(Right(t, max).tape, max) == Moved(t)
  {
  }

  lemma LeftThenRight(t: Tape, max: nat)
    requires WellFormed(t) && t.cell > 0
    ensures Left(t, max).Moved? && Right(Left(t, max).tape, max) == Moved(t)
  {
  }

  /** Where a step right puts the cursor: one cell on inside a chunk; from
      its last cell, onto the first cell of the linked next chunk, or of the
      new chunk appended at the end. */
  lemma RightMoves(t: Tape, max: nat)
    requires WellFormed(t)
    ensures t.cell < CELLS - 1 ==> Right(t, max) == Moved(t.(cell := t.cell + 1))
    ensures t.cell == CELLS - 1 && Right(t, max).Moved? ==>
      var next := t.chunks[t.chunk].next;
      Right(t, max).tape.cell == 0 &&
      Right(t, max).tape.chunk == if next.LinkTo? then next.chunk else |t.chunks|
  {
  }

  /** Inside a chunk a step left moves the cursor back one cell and changes
      nothing else; LeftEdgeLandsOnFirstCell covers the first cell. */
  lemma LeftMovesInside(t: Tape, max: nat)
    requires WellFormed(t)
    ensures t.cell > 0 ==> Left(t, max) == Moved(t.(cell := t.cell - 1))
  {
  }

  /** A step left from the first cell of a chunk lands on the first cell of
      the chunk before it, not on its last cell. */
  lemma LeftEdgeLandsOnFirstCell(t: Tape, max: nat)
    requires WellFormed(t) && t.cell == 0 && Left(t, max).Moved?
    ensures var prev := t.chunks[t.chunk].prev;
      Left(t, max).tape.chunk == if prev.LinkTo? then prev.chunk else |t.chunks|
    ensures Left(t, max).tape.cell == 0
  {
  }

  /** A chunk allocated by a step is linked to nothing: the new right
      neighbour's `prev_chunk` and the new left neighbour's `next_chunk` are
      the NULL `target_chunk`. */
  lemma NewChunkUnlinked(t: Tape, max: nat)
    requires WellFormed(t)
    ensures Right(t, max).Moved? && |Right(t, max).tape.chunks| > |t.chunks| ==>
      Right(t, max).tape.chunks[|t.chunks|] == Chunk(ZeroCells(), NoLink, NoLink)
    ensures Left(t, max).Moved? && |Left(t, max).tape.chunks| > |t.chunks| ==>
      Left(t, max).tape.chunks[|t.chunks|] == Chunk(ZeroCells(), NoLink, NoLink)
  {
  }

  /** Crossing the right edge of a chunk with no successor and stepping
      straight back does not return to it: a second fresh zero chunk is
      allocated and charged, and the cell left behind is out of reach. */
  lemma {:induction false} CrossBackAllocates(t: Tape, max: nat)
    requires WellFormed(t) && t.cell == CELLS - 1 && t.chunks[t.chunk].next.NoLink?
    requires Right(t, max).Moved? && Left(Right(t, max).tape, max).Moved?
    ensures var t2 := Left(Right(t, max).tape, max).tape;
      && |t2.chunks| == |t.chunks| + 2 && t2.chunk == |t.chunks| + 1 && t2.chunk != t.chunk
      && t2.cell == 0 && Get(t2) == 0 && t2.used == t.used + 2 * CHUNK_BYTES
  {
    var t1 := Right(t, max).tape;
    NewChunkUnlinked(t, max);
    assert t1.chunk == |t.chunks| && t1.cell == 0;
  }

  /** The tape as eval.c keeps it: one array per chunk, the links, the
      cursor `dp` and the running charge (`cells_mem_used`) against the
      limit (`cells_mem_max`). */
  class Cells {
    var chunks: seq<array<cell>>
    var prevs: seq<Link>
    var nexts: seq<Link>
    var chunk: nat
    var cell: nat
    var used: nat
    const max: nat
    ghost var Model: seq<Chunk>
    ghost var Repr: set<object>

    ghost predicate Valid()
      reads this, Repr
    {
      && this in Repr
      && |chunks| == |prevs| == |nexts| == |Model|
      && (forall i :: 0 <= i < |chunks| ==>
            && chunks[i] in Repr && chunks[i].Length == CELLS
            && Model[i] == Chunk(chunks[i][..], prevs[i], nexts[i]))
      && (forall i, j :: 0 <= i < j < |chunks| ==> chunks[i] != chunks[j])
      && WellFormed(State())
    }

    ghost function State(): Tape
      reads this
    {
      Tape(Model, chunk, cell, used)
    }

    /** `cells_mem_used = 0; cells_init(&cells)` and cells_iter_make */
    constructor (max: nat)
      ensures Valid() && fresh(Repr) && this.max == max
      ensures State() == Init()
    {
      var a := new cell[CELLS](_ => 0);
      chunks := [a];
      prevs := [NoLink];
      nexts := [NoLink];
      chunk, cell := 0, 0;
      used := CHUNK_BYTES;
      this.max := max;
      Model := [Chunk(ZeroCells(), NoLink, NoLink)];
      Repr := {this, a};
      new;
      assert a[..] == ZeroCells();
    }

    /** `*cells_iter_ref_cell(dp)` */
    function Read(): (c: cell)
      reads this, Repr
      requires Valid()
      ensures c == Get(State())
    {
      chunks[chunk][cell]
    }

    /** `*cells_iter_ref_cell(dp) = v` */
    method Write(v: cell)
      requires Valid()
      modifies chunks[chunk], this`Model
      ensures Valid() && Repr == old(Repr)
      ensures State() == Set(old(State()), v)
    {
      var a := chunks[chunk];
      a[cell] := v;
      Model := Model[chunk := Model[chunk].(cells := a[..])];
      assert Model[chunk].cells == old(Model[chunk].cells)[cell := v];
    }

    /** malloc of a zeroed chunk linked to nothing, after the limit check
        of `_cells_iter_next_chunk` / `_cells_iter_prev_chunk` */
    method NewChunk() returns (ok: bool, n: nat)
      requires Valid()
      modifies this
      ensures Valid() && fresh(Repr - old(Repr))
      ensures ok <==> CanGrow(old(used), max)
      ensures !ok ==> State() == old(State())
      ensures ok ==> n == |old(Model)| && Model == old(Model) + [Chunk(ZeroCells(), NoLink, NoLink)]
      ensures ok ==> chunk == old(chunk) && cell == old(cell) && used == old(used) + CHUNK_BYTES
      ensures chunks[..|old(chunks)|] == old(chunks) && prevs[..|old(prevs)|] == old(prevs) && nexts[..|old(nexts)|] == old(nexts)
    {
      if max != 0 && used + CHUNK_BYTES > max {
        return false, 0;
      }
      used := used + CHUNK_BYTES;
      var a := new cell[CELLS](_ => 0);
      n := |chunks|;
      chunks := chunks + [a];
      prevs := prevs + [NoLink];
      nexts := nexts + [NoLink];
      Model := Model + [Chunk(ZeroCells(), NoLink, NoLink)];
      Repr := Repr + {a};
      assert a[..] == ZeroCells();
      ok := true;
    }

    /** cells_iter_next */
    method Next() returns (ok: bool)
      requires Valid()
      modifies this
      ensures Valid() && fresh(Repr - old(Repr))
      ensures match Right(old(State()), max)
        case Moved(t) => ok && State() == t
        case NoMemory(u) => !ok && u == used && State() == old(State())
    {
      if cell < CELLS - 1 {
        cell := cell + 1;
        ok := true;
      } else {
        ok := NextChunk();
      }
    }

    /** _cells_iter_next_chunk: to the first cell of the next chunk */
    method NextChunk() returns (ok: bool)
      requires Valid() && cell == CELLS - 1
      modifies this
      ensures Valid() && fresh(Repr - old(Repr))
      ensures match Right(old(State()), max)
        case Moved(t) => ok && State() == t
        case NoMemory(u) => !ok && u == used && State() == old(State())
    {
      if nexts[chunk].LinkTo? {
        chunk, cell := nexts[chunk].chunk, 0;
        return true;
      }
      var n;
      ok, n := NewChunk();
      if ok {
        nexts := nexts[chunk := LinkTo(n)];
        Model := Model[chunk := Model[chunk].(next := LinkTo(n))];
        chunk, cell := n, 0;
      }
    }

    /** cells_iter_prev */
    method Prev() returns (ok: bool)
      requires Valid()
      modifies this
      ensures Valid() && fresh(Repr - old(Repr))
      ensures match Left(old(State()), max)
        case Moved(t) => ok && State() == t
        case NoMemory(u) => !ok && u == used && State() == old(State())
    {
      if cell > 0 {
        cell := cell - 1;
        ok := true;
      } else {
        ok := PrevChunk();
      }
    }

    /** _cells_iter_prev_chunk: to the FIRST cell of the previous chunk */
    method PrevChunk() returns (ok: bool)
      requires Valid() && cell == 0
      modifies this
      ensures Valid() && fresh(Repr - old(Repr))
      ensures match Left(old(State()), max)
        case Moved(t) => ok && State() == t
        case NoMemory(u) => !ok && u == used && State() == old(State())
    {
      if prevs[chunk].LinkTo? {
        chunk, cell := prevs[chunk].chunk, 0;
        return true;
      }
      var n;
      ok, n := NewChunk();
      if ok {
        prevs := prevs[chunk := LinkTo(n)];
        Model := Model[chunk := Model[chunk].(prev := LinkTo(n))];
        chunk, cell := n, 0;
      }
    }
  }
}
