/**
 * The stack of open-block positions of code.c (`stack_t`), as written: an
 * array of `size_t` with a size and a capacity counted in elements at
 * initialisation but passed to `realloc` as a byte count, and a growth test
 * that is the wrong way round (`size < capacity`), so every push doubles the
 * capacity.
 */
module BlockStack {

  /** sizeof(size_t) on a 64-bit host */
  const WORD: nat := 8

  function Pow2(k: nat): (p: nat)
    ensures p >= 1
  {
    if k == 0 then 1 else 2 * Pow2(k - 1)
  }

  /** The value of the `capacity` field after `pushes` pushes. */
  function CapacityAfter(pushes: nat): (c: nat)
  {
    WORD * Pow2(pushes)
  }

  /** Elements the buffer holds after `pushes` pushes: 8 from `malloc`, then
      `capacity` bytes, that is capacity / 8 elements, from each `realloc`. */
  function SlotsAfter(pushes: nat): (n: nat)
  {
    if pushes == 0 then WORD else CapacityAfter(pushes) / WORD
  }

  lemma {:induction false} Pow2Exceeds(k: nat)
    ensures k < Pow2(k)
  {
    if k > 0 {
      Pow2Exceeds(k - 1);
    }
  }

  /** The growth test `size < capacity` holds on every push that can happen
      (at most `pushes` elements are stored), so the capacity doubles each
      time; and the buffer `realloc` returns still has a slot for the new
      element, so the write stays in bounds. */
  lemma {:induction false} GrowthAlwaysTaken(size: nat, pushes: nat)
    requires size <= pushes
    ensures size < CapacityAfter(pushes)
    ensures CapacityAfter(pushes + 1) == 2 * CapacityAfter(pushes)
    ensures size < SlotsAfter(pushes + 1)
  {
    Pow2Exceeds(pushes + 1);
    Pow2Exceeds(pushes);
    assert SlotsAfter(pushes + 1) == Pow2(pushes + 1);
  }

  /** After the first push the buffer is SMALLER than the one `stack_init`
      allocated: 16 bytes, two elements, instead of 64. */
  lemma FirstPushShrinks()
    ensures SlotsAfter(0) == 8 && CapacityAfter(1) == 16 && SlotsAfter(1) == 2
  {
  }

  /** One more than the largest `size_t` on a 64-bit host. */
  const SIZE_T_RANGE: nat := 0x1_0000_0000_0000_0000

  /** The `capacity` field does not stay ahead for ever in C: it fits in a
      `size_t` through 60 pushes, but the 61st doubling reaches 2^64 and
      wraps to 0, after which `realloc(data, 0)` leaves no room for the
      store. The model's capacity is unbounded and does not wrap. */
  lemma CapacityWraps()
    ensures CapacityAfter(60) < SIZE_T_RANGE
    ensures CapacityAfter(61) == SIZE_T_RANGE
    ensures (2 * CapacityAfter(60)) % SIZE_T_RANGE == 0
  {
    assert Pow2(4) == 0x10;
    Pow2Add(4, 4);
    assert Pow2(8) == 0x100;
    Pow2Add(8, 8);
    assert Pow2(16) == 0x1_0000;
    Pow2Add(16, 16);
    assert Pow2(32) == 0x1_0000_0000;
    Pow2Add(32, 16);
    assert Pow2(48) == 0x1_0000_0000_0000;
    Pow2Add(48, 8);
    assert Pow2(56) == 0x100_0000_0000_0000;
    Pow2Add(56, 4);
    assert Pow2(60) == 0x1000_0000_0000_0000;
  }

  lemma {:induction false} Pow2Add(a: nat, b: nat)
    ensures Pow2(a + b) == Pow2(a) * Pow2(b)
  {
    if a > 0 {
      Pow2Add(a - 1, b);
    }
  }

  class Stack {
    var data: array<nat>
    var size: nat
    var capacity: nat
    /** the stored positions, bottom first */
    ghost var Elements: seq<nat>
    /** how many pushes have been made */
    ghost var pushes: nat

    ghost predicate Valid()
      reads this, data
    {
      && |Elements| == size <= pushes
      && capacity == CapacityAfter(pushes)
      && data.Length == SlotsAfter(pushes)
      && size <= data.Length
      && data[..size] == Elements
    }

    /** stack_init */
    constructor ()
      ensures Valid() && fresh(data)
      ensures Elements == [] && capacity == WORD && pushes == 0
    {
      data := new nat[WORD];
      size := 0;
      capacity := WORD;
      Elements := [];
      pushes := 0;
    }

    /** stack_empty */
    function IsEmpty(): (b: bool)
      reads this, data
      requires Valid()
      ensures b <==> Elements == []
    {
      size == 0
    }

    /** stack_top */
    function Top(): (t: nat)
      reads this, data
      requires Valid() && Elements != []
      ensures t == Elements[|Elements| - 1]
    {
      data[size - 1]
    }

    /** stack_push: the buffer is reallocated to `capacity * 2` BYTES on every
        push (realloc keeps what fits and leaves the rest unspecified, here 0). */
    method Push(x: nat)
      requires Valid()
      modifies this, data
      ensures Valid() && fresh(data)
      ensures Elements == old(Elements) + [x]
      ensures pushes == old(pushes) + 1
      ensures capacity == 2 * old(capacity)
    {
      GrowthAlwaysTaken(size, pushes);
      if size < capacity {
        capacity := capacity * 2;
        data := Realloc(data, capacity / WORD);
        pushes := pushes + 1;
      }
      data[size] := x;
      size := size + 1;
      Elements := Elements + [x];
      assert data[..size] == data[..size - 1] + [x];
    }

    /** stack_pop */
    method Pop()
      requires Valid() && Elements != []
      modifies this
      ensures Valid() && data == old(data)
      ensures Elements == old(Elements)[..|old(Elements)| - 1]
      ensures capacity == old(capacity) && pushes == old(pushes)
    {
      size := size - 1;
      Elements := Elements[..size];
    }
  }

  /** realloc to `n` elements: the first min(old, n) elements are kept */
  method Realloc(a: array<nat>, n: nat) returns (b: array<nat>)
    ensures fresh(b) && b.Length == n
    ensures forall i :: 0 <= i < n && i < a.Length ==> b[i] == a[i]
  {
    b := new nat[n](i reads a => if 0 <= i < a.Length then a[i] else 0);
  }
}
