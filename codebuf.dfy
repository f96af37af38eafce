/**
 * The code buffer of code.c: a forward-linked list of fixed-capacity chunks
 * to which the compiler appends bytecode, with indexed lookup of a byte for
 * back-patching and a final copy into one contiguous block.
 *
 * The list is held as the sequence of its chunks in link order (the last one
 * is `last_chunk`); each chunk is its byte array plus its `length` field.
 */
module CodeBuffer {
  import opened Bytes

  /** Bytes per chunk: 128 minus the `length` and `next_chunk` fields (64-bit host). */
  const CHUNK_CAPACITY: nat := 112

  /** The logical byte sequence held by a list of chunks. */
  function Concat(cs: seq<seq<byte>>): seq<byte>
  {
    if cs == [] then [] else Concat(cs[..|cs| - 1]) + cs[|cs| - 1]
  }

  function Sum(lens: seq<nat>): nat
  {
    if lens == [] then 0 else Sum(lens[..|lens| - 1]) + lens[|lens| - 1]
  }

  /** Logical offset of the first byte of chunk `i`. */
  function Start(lens: seq<nat>, i: nat): nat
    requires i <= |lens|
  {
    Sum(lens[..i])
  }

  /** The `w` bytes from logical offset `p` lie in the chunk that holds `p`
      (they do not straddle a chunk boundary). */
  ghost predicate FitsIn(lens: seq<nat>, p: nat, w: nat)
  {
    forall i :: 0 <= i < |lens| && Start(lens, i) <= p < Start(lens, i) + lens[i] ==>
      p + w <= Start(lens, i) + lens[i]
  }

  /** `lens'` is what appending to the list `lens` can make of it: the same
      chunks, the last one possibly longer, possibly new chunks after it. */
  ghost predicate Extends(lens: seq<nat>, lens': seq<nat>)
  {
    && |lens| >= 1 && |lens'| >= |lens|
    && lens'[..|lens| - 1] == lens[..|lens| - 1]
    && lens'[|lens| - 1] >= lens[|lens| - 1]
  }

  lemma {:induction false} ConcatSplit(a: seq<seq<byte>>, b: seq<seq<byte>>)
    ensures Concat(a + b) == Concat(a) + Concat(b)
    decreases |b|
  {
    if b == [] {
      assert a + b == a;
    } else {
      var b' := b[..|b| - 1];
      assert (a + b)[..|a + b| - 1] == a + b';
      ConcatSplit(a, b');
    }
  }

  lemma {:induction false} SumSplit(a: seq<nat>, b: seq<nat>)
    ensures Sum(a + b) == Sum(a) + Sum(b)
    decreases |b|
  {
    if b == [] {
      assert a + b == a;
    } else {
      var b' := b[..|b| - 1];
      assert (a + b)[..|a + b| - 1] == a + b';
      SumSplit(a, b');
    }
  }

  lemma {:induction false} ConcatLength(cs: seq<seq<byte>>, lens: seq<nat>)
    requires |cs| == |lens| && forall i :: 0 <= i < |cs| ==> |cs[i]| == lens[i]
    ensures |Concat(cs)| == Sum(lens)
    decreases |cs|
  {
    if cs != [] {
      ConcatLength(cs[..|cs| - 1], lens[..|lens| - 1]);
    }
  }

  lemma StartStep(lens: seq<nat>, i: nat)
    requires i < |lens|
    ensures Start(lens, i + 1) == Start(lens, i) + lens[i]
  {
    assert lens[..i + 1][..i] == lens[..i];
  }

  lemma {:induction false} StartBelowSum(lens: seq<nat>, i: nat)
    requires i <= |lens|
    ensures Start(lens, i) <= Sum(lens)
    ensures i < |lens| ==> Start(lens, i) + lens[i] <= Sum(lens)
  {
    SumSplit(lens[..i], lens[i..]);
    assert lens[..i] + lens[i..] == lens;
    if i < |lens| {
      SumSplit([lens[i]], lens[i + 1..]);
      assert [lens[i]] + lens[i + 1..] == lens[i..];
      assert Sum([lens[i]]) == lens[i] by {
        assert [lens[i]][..0] == [];
      }
    }
  }

  /** Byte `off` of chunk `i` is logical byte Start(i) + off, and the list is
      the bytes before chunk i, chunk i, and the bytes after it. */
  lemma ConcatAround(cs: seq<seq<byte>>, lens: seq<nat>, i: nat)
    requires |cs| == |lens| && forall j :: 0 <= j < |cs| ==> |cs[j]| == lens[j]
    requires i < |cs|
    ensures Concat(cs) == Concat(cs[..i]) + cs[i] + Concat(cs[i + 1..])
    ensures |Concat(cs[..i])| == Start(lens, i)
  {
    assert cs == cs[..i] + ([cs[i]] + cs[i + 1..]);
    ConcatSplit(cs[..i], [cs[i]] + cs[i + 1..]);
    ConcatSplit([cs[i]], cs[i + 1..]);
    assert Concat([cs[i]]) == cs[i] by {
      var one: seq<seq<byte>> := [cs[i]];
      assert one[..0] == [];
    }
    ConcatLength(cs[..i], lens[..i]);
  }

  /** Appending never moves a byte to another chunk, so a region that fits in
      one chunk keeps fitting. */
  lemma ExtendsKeepsFit(lens: seq<nat>, lens': seq<nat>, p: nat, w: nat)
    requires Extends(lens, lens') && p < Sum(lens) && FitsIn(lens, p, w)
    ensures FitsIn(lens', p, w)
  {
    var last := |lens| - 1;
    forall i | 0 <= i < |lens'| && Start(lens', i) <= p < Start(lens', i) + lens'[i]
      ensures p + w <= Start(lens', i) + lens'[i]
    {
      assert lens'[..last] == lens[..last];
      if i <= last {
        assert lens'[..i] == lens[..i] by {
          assert lens'[..i] == lens'[..last][..i] && lens[..i] == lens[..last][..i];
        }
        if i < last {
          assert lens'[i] == lens[i] by {
            assert lens'[i] == lens'[..last][i] && lens[i] == lens[..last][i];
          }
        } else {
          StartStep(lens, last);
          assert lens[..last + 1] == lens;
        }
      } else {
        StartBelowSum(lens', last + 1);
        StartStep(lens', last);
        StartStep(lens, last);
        assert lens[..last + 1] == lens;
        assert lens'[..last] == lens[..last];
        MonotoneStart(lens', last + 1, i);
      }
    }
  }

  lemma {:induction false} MonotoneStart(lens: seq<nat>, i: nat, j: nat)
    requires i <= j <= |lens|
    ensures Start(lens, i) <= Start(lens, j)
    decreases j - i
  {
    if i < j {
      StartStep(lens, j - 1);
      MonotoneStart(lens, i, j - 1);
    }
  }

  lemma SumPlusLast(lens: seq<nat>, k: nat)
    requires |lens| >= 1
    ensures Sum(lens[|lens| - 1 := lens[|lens| - 1] + k]) == Sum(lens) + k
  {
    var last := |lens| - 1;
    assert lens[last := lens[last] + k][..last] == lens[..last];
  }

  /** `cs` with `v` appended to its last chunk */
  function ExtendLast(cs: seq<seq<byte>>, v: seq<byte>): (r: seq<seq<byte>>)
    requires |cs| >= 1
    ensures |r| == |cs| && r[..|cs| - 1] == cs[..|cs| - 1] && r[|cs| - 1] == cs[|cs| - 1] + v
  {
    cs[|cs| - 1 := cs[|cs| - 1] + v]
  }

  lemma ConcatPlusLast(cs: seq<seq<byte>>, v: seq<byte>)
    requires |cs| >= 1
    ensures Concat(ExtendLast(cs, v)) == Concat(cs) + v
  {
  }

  lemma ExtendLastEmpty(cs: seq<seq<byte>>)
    requires |cs| >= 1
    ensures ExtendLast(cs, []) == cs
  {
    assert cs[|cs| - 1] + [] == cs[|cs| - 1];
  }

  lemma ConcatEmptyChunk(cs: seq<seq<byte>>)
    ensures Concat(cs + [[]]) == Concat(cs)
  {
    assert (cs + [[]])[..|cs|] == cs;
  }

  lemma ExtendLastTwice(cs: seq<seq<byte>>, v: seq<byte>, w: seq<byte>)
    requires |cs| >= 1
    ensures ExtendLast(ExtendLast(cs, v), w) == ExtendLast(cs, v + w)
  {
    assert cs[|cs| - 1] + v + w == cs[|cs| - 1] + (v + w);
  }

  /** `c` with the bytes from offset `off` replaced by `v` */
  function Splice(c: seq<byte>, off: nat, v: seq<byte>): (r: seq<byte>)
    requires off + |v| <= |c|
    ensures |r| == |c|
    ensures forall j :: 0 <= j < |c| ==> r[j] == if off <= j < off + |v| then v[j - off] else c[j]
  {
    c[..off] + v + c[off + |v|..]
  }

  lemma SpliceStep(c0: seq<byte>, off: nat, v: seq<byte>, k: nat)
    requires off + |v| <= |c0| && k < |v|
    ensures SetAt(Splice(c0, off, v[..k]), off + k, v[k]) == Splice(c0, off, v[..k + 1])
  {
  }

  function SetAt(c: seq<byte>, off: nat, b: byte): (r: seq<byte>)
    requires off < |c|
    ensures r == c[off := b]
  {
    c[off := b]
  }

  /** Overwriting bytes from offset `off` of chunk `i` overwrites the logical
      bytes from Start(i) + off. */
  lemma ConcatSplice(cs: seq<seq<byte>>, lens: seq<nat>, i: nat, off: nat, v: seq<byte>)
    requires |cs| == |lens| && forall j :: 0 <= j < |cs| ==> |cs[j]| == lens[j]
    requires i < |cs| && off + |v| <= lens[i]
    ensures Start(lens, i) + off + |v| <= |Concat(cs)|
    ensures Concat(cs[i := Splice(cs[i], off, v)]) == Splice(Concat(cs), Start(lens, i) + off, v)
  {
    var cs' := cs[i := Splice(cs[i], off, v)];
    ConcatAround(cs, lens, i);
    ConcatAround(cs', lens, i);
    assert cs'[..i] == cs[..i] && cs'[i + 1..] == cs[i + 1..];
    SpliceMiddle(Concat(cs[..i]), cs[i], Concat(cs[i + 1..]), off, v);
  }

  lemma SpliceMiddle(a: seq<byte>, c: seq<byte>, b: seq<byte>, off: nat, v: seq<byte>)
    requires off + |v| <= |c|
    ensures Splice(a + c + b, |a| + off, v) == a + Splice(c, off, v) + b
  {
    var l := Splice(a + c + b, |a| + off, v);
    var r := a + Splice(c, off, v) + b;
    assert |l| == |r|;
    forall j | 0 <= j < |l| ensures l[j] == r[j] {
      if j < |a| {
      } else if j < |a| + |c| {
      } else {
      }
    }
  }

  lemma AppendExtends(lens: seq<nat>, mid: seq<nat>, lens': seq<nat>, w: nat)
    requires |lens| >= 1 && (mid == lens || mid == lens + [0])
    requires lens' == mid[|mid| - 1 := mid[|mid| - 1] + w]
    ensures Extends(lens, lens')
  {
    var n := |lens|;
    assert lens'[..|mid| - 1] == mid[..|mid| - 1];
    if mid == lens + [0] {
      assert mid[..n] == lens;
    }
  }

  lemma AppendStart(lens: seq<nat>, mid: seq<nat>, lens': seq<nat>, w: nat)
    requires |lens| >= 1 && (mid == lens || mid == lens + [0])
    requires lens' == mid[|mid| - 1 := mid[|mid| - 1] + w]
    ensures Start(lens', |mid| - 1) + mid[|mid| - 1] == Sum(lens)
  {
    var last := |mid| - 1;
    assert lens'[..last] == mid[..last];
    if mid == lens + [0] {
      SumSplit(lens, [0]);
      assert Sum([0]) == 0 by { assert [0][..0] == []; }
    }
    StartStep(mid, last);
    assert mid[..last + 1] == mid;
  }

  lemma AppendFits(lens: seq<nat>, mid: seq<nat>, lens': seq<nat>, w: nat)
    requires |lens| >= 1 && (mid == lens || mid == lens + [0])
    requires lens' == mid[|mid| - 1 := mid[|mid| - 1] + w]
    ensures FitsIn(lens', Sum(lens), w)
  {
    var last := |mid| - 1;
    AppendStart(lens, mid, lens', w);
    forall i | 0 <= i < |lens'| && Start(lens', i) <= Sum(lens) < Start(lens', i) + lens'[i]
      ensures Sum(lens) + w <= Start(lens', i) + lens'[i]
    {
      if i < last {
        MonotoneStart(lens', i + 1, last);
        StartStep(lens', i);
      }
    }
  }

  class CodeBuf {
    var chunks: seq<array<byte>>
    var lengths: seq<nat>
    var length: nat
    ghost var Chunks: seq<seq<byte>>
    ghost var Repr: set<object>

    ghost predicate Valid()
      reads this, Repr
    {
      && this in Repr
      && |chunks| >= 1 && |lengths| == |chunks| && |Chunks| == |chunks|
      && (forall i :: 0 <= i < |chunks| ==>
            && chunks[i] in Repr && chunks[i].Length == CHUNK_CAPACITY
            && lengths[i] == |Chunks[i]| && lengths[i] <= CHUNK_CAPACITY
            && chunks[i][..lengths[i]] == Chunks[i])
      && (forall i, j :: 0 <= i < j < |chunks| ==> chunks[i] != chunks[j])
      && length == Sum(lengths)
    }

    /** The logical byte sequence (what `codebuf_copy` produces). */
    ghost function Contents(): seq<byte>
      reads this
    {
      Concat(Chunks)
    }

    lemma LengthIsContentsLength()
      requires Valid()
      ensures length == |Contents()|
    {
      ConcatLength(Chunks, lengths);
    }

    /** codebuf_init */
    constructor ()
      ensures Valid() && fresh(Repr)
      ensures Contents() == [] && length == 0 && lengths == [0]
    {
      var a := new byte[CHUNK_CAPACITY];
      chunks := [a];
      lengths := [0];
      length := 0;
      Chunks := [[]];
      Repr := {this, a};
      new;
      assert [0][..0] == [];
    }

    /** _codebuf_add_chunk: link a new empty chunk after the last one */
    method AddChunk()
      requires Valid()
      modifies this
      ensures Valid() && fresh(Repr - old(Repr))
      ensures |chunks| == |old(chunks)| + 1 && chunks[..|old(chunks)|] == old(chunks)
      ensures lengths == old(lengths) + [0] && Chunks == old(Chunks) + [[]]
      ensures length == old(length)
    {
      var a := new byte[CHUNK_CAPACITY];
      chunks := chunks + [a];
      lengths := lengths + [0];
      Chunks := Chunks + [[]];
      Repr := Repr + {a};
      SumSplit(old(lengths), [0]);
      assert Sum([0]) == 0 by {
        assert [0][..0] == [];
      }
    }

    /** `current_chunk->bytes[current_chunk->length++] = data; cb->length++`
        on the last chunk */
    method PutLast(b: byte)
      requires Valid() && lengths[|lengths| - 1] < CHUNK_CAPACITY
      modifies this, chunks[|chunks| - 1]
      ensures Valid() && Repr == old(Repr) && chunks == old(chunks)
      ensures lengths == old(lengths)[|lengths| - 1 := old(lengths)[|lengths| - 1] + 1]
      ensures Chunks == ExtendLast(old(Chunks), [b])
      ensures length == old(length) + 1
    {
      var last := |chunks| - 1;
      var a := chunks[last];
      var n := lengths[last];
      a[n] := b;
      assert a[..n + 1] == a[..n] + [b];
      SumPlusLast(lengths, 1);
      lengths := lengths[last := n + 1];
      Chunks := ExtendLast(Chunks, [b]);
      length := length + 1;
    }

    /** store one byte inside chunk `ci`, at offset `off` below its length */
    method Poke(ci: nat, off: nat, b: byte)
      requires Valid() && ci < |chunks| && off < lengths[ci]
      modifies chunks[ci], this`Chunks
      ensures Valid()
      ensures Chunks == old(Chunks)[ci := SetAt(old(Chunks)[ci], off, b)]
    {
      chunks[ci][off] := b;
      Chunks := Chunks[ci := SetAt(Chunks[ci], off, b)];
    }

    /** codebuf_append1 */
    method Append1(b: byte)
      requires Valid()
      modifies Repr
      ensures Valid() && fresh(Repr - old(Repr))
      ensures Contents() == old(Contents()) + [b]
      ensures Extends(old(lengths), lengths)
      ensures length == old(length) + 1
    {
      Append([b]);
    }

    /** codebuf_append: the bytes go into the last chunk, or into a new chunk
        when they would not fit (a multi-byte append never straddles). */
    method Append(v: seq<byte>)
      requires Valid()
      requires |v| <= CHUNK_CAPACITY
      modifies Repr
      ensures Valid() && fresh(Repr - old(Repr))
      ensures Contents() == old(Contents()) + v
      ensures Extends(old(lengths), lengths)
      ensures length == old(length) + |v|
      ensures FitsIn(lengths, old(length), |v|)
    {
      if lengths[|chunks| - 1] + |v| > CHUNK_CAPACITY {
        AddChunk();
        ConcatEmptyChunk(old(Chunks));
      }
      ghost var midLens := lengths;
      assert Contents() == old(Contents());
      FillLast(v);
      AppendExtends(old(lengths), midLens, lengths, |v|);
      AppendFits(old(lengths), midLens, lengths, |v|);
    }

    /** The memcpy of codebuf_append: `v` goes at the end of the last chunk. */
    method FillLast(v: seq<byte>)
      requires Valid()
      requires lengths[|lengths| - 1] + |v| <= CHUNK_CAPACITY
      modifies this, chunks[|chunks| - 1]
      ensures Valid() && Repr == old(Repr) && chunks == old(chunks)
      ensures lengths == old(lengths)[|old(lengths)| - 1 := old(lengths)[|old(lengths)| - 1] + |v|]
      ensures Contents() == old(Contents()) + v
      ensures length == old(length) + |v|
    {
      ghost var midChunks := Chunks;
      var last := |chunks| - 1;
      var k := 0;
      assert v[..0] == [];
      ExtendLastEmpty(midChunks);
      while k < |v|
        invariant 0 <= k <= |v|
        invariant Valid() && Repr == old(Repr) && chunks == old(chunks)
        invariant lengths == old(lengths)[last := old(lengths)[last] + k]
        invariant Chunks == ExtendLast(midChunks, v[..k])
        invariant length == old(length) + k
      {
        assert v[..k + 1] == v[..k] + [v[k]];
        ExtendLastTwice(midChunks, v[..k], [v[k]]);
        PutLast(v[k]);
        k := k + 1;
      }
      assert v[..k] == v;
      ConcatPlusLast(midChunks, v);
    }

    /** codebuf_ref: the chunk and in-chunk offset of logical byte `index`,
        found from the end of the last chunk when it lies there, otherwise by
        walking the list from the first chunk. */
    method Ref(index: nat) returns (ci: nat, off: nat)
      requires Valid() && index < length
      ensures ci < |chunks| && off < lengths[ci]
      ensures Start(lengths, ci) + off == index
    {
      var last := |chunks| - 1;
      StartStep(lengths, last);
      assert lengths[..last + 1] == lengths;
      var back := length - index;
      if back <= lengths[last] {
        return last, lengths[last] - back;
      }
      ci := 0;
      var idx := index;
      while idx >= lengths[ci]
        invariant 0 <= ci <= last
        invariant Start(lengths, ci) + idx == index
        decreases last - ci
      {
        StartStep(lengths, ci);
        if ci == last {
          assert false;
        }
        idx := idx - lengths[ci];
        ci := ci + 1;
      }
      off := idx;
    }

    /** `*(uint32_t *)codebuf_ref(code, pos) = ...`: overwrite the bytes at
        logical offset `pos`, which must lie in one chunk. */
    method Patch(pos: nat, v: seq<byte>)
      requires Valid() && pos < length && FitsIn(lengths, pos, |v|)
      modifies Repr
      ensures Valid() && Repr == old(Repr) && chunks == old(chunks)
      ensures lengths == old(lengths) && length == old(length)
      ensures pos + |v| <= |old(Contents())|
      ensures Contents() == old(Contents())[..pos] + v + old(Contents())[pos + |v|..]
    {
      var ci, off := Ref(pos);
      ConcatSplice(Chunks, lengths, ci, off, v);
      PokeRun(ci, off, v);
    }

    /** store `v` inside chunk `ci` from offset `off`, below its length */
    method PokeRun(ci: nat, off: nat, v: seq<byte>)
      requires Valid() && ci < |chunks| && off + |v| <= lengths[ci]
      modifies chunks[ci], this`Chunks
      ensures Valid()
      ensures Chunks == old(Chunks)[ci := Splice(old(Chunks)[ci], off, v)]
    {
      ghost var c0 := Chunks[ci];
      var k := 0;
      assert c0 == Splice(c0, off, v[..0]);
      while k < |v|
        invariant 0 <= k <= |v|
        invariant Valid()
        invariant Chunks == old(Chunks)[ci := Splice(c0, off, v[..k])]
      {
        SpliceStep(c0, off, v, k);
        Poke(ci, off + k, v[k]);
        k := k + 1;
      }
      assert v[..k] == v;
    }

    /** The memcpy of one chunk in codebuf_copy. */
    method CopyChunk(ci: nat, buffer: array<byte>, dst: nat)
      requires Valid() && buffer !in Repr && ci < |chunks| && dst + lengths[ci] <= buffer.Length
      modifies buffer
      ensures buffer[..dst + lengths[ci]] == old(buffer[..dst]) + Chunks[ci]
    {
      var a := chunks[ci];
      var n := lengths[ci];
      var k := 0;
      while k < n
        invariant 0 <= k <= n
        invariant buffer[..dst + k] == old(buffer[..dst]) + a[..k]
      {
        buffer[dst + k] := a[k];
        k := k + 1;
        assert buffer[..dst + k] == buffer[..dst + k - 1] + [buffer[dst + k - 1]];
        assert a[..k] == a[..k - 1] + [a[k - 1]];
      }
      assert a[..n] == Chunks[ci];
    }

    /** codebuf_copy: write every chunk's bytes, in list order, to `buffer`. */
    method Copy(buffer: array<byte>)
      requires Valid() && buffer !in Repr && buffer.Length >= length
      modifies buffer
      ensures buffer[..length] == Contents()
    {
      var dst := 0;
      var ci := 0;
      while ci < |chunks|
        invariant 0 <= ci <= |chunks|
        invariant dst == Start(lengths, ci) && dst <= buffer.Length
        invariant buffer[..dst] == Concat(Chunks[..ci])
      {
        StartStep(lengths, ci);
        StartBelowSum(lengths, ci + 1);
        CopyChunk(ci, buffer, dst);
        assert Chunks[..ci + 1][..ci] == Chunks[..ci];
        dst := dst + lengths[ci];
        ci := ci + 1;
      }
      assert Chunks[..ci] == Chunks;
      assert lengths[..ci] == lengths;
    }
  }
}
