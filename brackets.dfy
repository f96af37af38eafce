/**
 * Bracket structure of bytecode: the nesting depth of JFZ/JBN, balanced
 * runs, which JFZ a JBN closes, and what it means for the jump operands to
 * link each pair (the distance between their operands, as code.c stores it).
 */
module Brackets {
  import opened Bytes
  import opened Program

  function Delta(x: Instr): int
  {
    if x.Jfz? then 1 else if x.Jbn? then -1 else 0
  }

  /** Opens minus closes. */
  function Depth(ins: seq<Instr>): int
  {
    if ins == [] then 0 else Depth(ins[..|ins| - 1]) + Delta(ins[|ins| - 1])
  }

  /** No prefix closes more than it opens. */
  ghost predicate NonNegative(ins: seq<Instr>)
  {
    forall k :: 0 <= k <= |ins| ==> Depth(ins[..k]) >= 0
  }

  /** Every close in `ins` has its open inside `ins`, and every open its close. */
  ghost predicate Balanced(ins: seq<Instr>)
  {
    Depth(ins) == 0 && NonNegative(ins)
  }

  /** The JFZ at `i` and the JBN at `j` are a pair: what lies between them is
      balanced. */
  ghost predicate Matches(ins: seq<Instr>, i: nat, j: nat)
  {
    i < j < |ins| && ins[i].Jfz? && ins[j].Jbn? && Balanced(ins[i + 1..j])
  }

  /** The distance from the JFZ at `i` to the JBN at `j`, modulo 2^32: the
      number of bytes from the JFZ's operand to the JBN's. */
  function Distance(ins: seq<Instr>, i: nat, j: nat): nat
    requires i <= j <= |ins|
  {
    (Addr(ins, j) - Addr(ins, i)) % TWO32
  }

  /** Both operands of the pair (i, j) hold its distance. */
  ghost predicate PairLinked(ins: seq<Instr>, i: nat, j: nat)
    requires i < j < |ins|
  {
    OperandOf(ins[i]) == Distance(ins, i, j) && OperandOf(ins[j]) == Distance(ins, i, j)
  }

  /** Every pair is linked. */
  ghost predicate Linked(ins: seq<Instr>)
  {
    forall i: nat, j: nat | Matches(ins, i, j) :: PairLinked(ins, i, j)
  }

  lemma {:induction false} DepthSplit(a: seq<Instr>, b: seq<Instr>)
    ensures Depth(a + b) == Depth(a) + Depth(b)
    decreases |b|
  {
    if b == [] {
      assert a + b == a;
    } else {
      var b' := b[..|b| - 1];
      assert (a + b)[..|a + b| - 1] == a + b';
      DepthSplit(a, b');
    }
  }

  lemma DepthSingle(x: Instr)
    ensures Depth([x]) == Delta(x)
  {
    var one: seq<Instr> := [x];
    assert one[..0] == [];
  }

  lemma NonNegativeConcat(a: seq<Instr>, b: seq<Instr>)
    requires NonNegative(a) && NonNegative(b)
    ensures NonNegative(a + b)
  {
    assert Depth(a[..|a|]) >= 0;
    assert a[..|a|] == a;
    forall k | 0 <= k <= |a + b| ensures Depth((a + b)[..k]) >= 0 {
      if k <= |a| {
        assert (a + b)[..k] == a[..k];
      } else {
        assert (a + b)[..k] == a + b[..k - |a|];
        DepthSplit(a, b[..k - |a|]);
      }
    }
  }

  lemma BalancedConcat(a: seq<Instr>, b: seq<Instr>)
    requires Balanced(a) && Balanced(b)
    ensures Balanced(a + b)
  {
    NonNegativeConcat(a, b);
    DepthSplit(a, b);
  }

  lemma NonNegativeSingle(x: Instr)
    requires !x.Jbn?
    ensures NonNegative([x])
  {
    DepthSingle(x);
    var one: seq<Instr> := [x];
    assert one[..0] == [] && one[..1] == one;
  }

  /** A balanced run stays balanced with an instruction that is no jump after it. */
  lemma BalancedSnoc(a: seq<Instr>, x: Instr)
    requires Balanced(a) && !x.Jfz? && !x.Jbn?
    ensures Balanced(a + [x])
  {
    NonNegativeSingle(x);
    DepthSingle(x);
    BalancedConcat(a, [x]);
  }

  /** Balanced, then a JFZ, then a balanced run, then a JBN: balanced. */
  lemma BalancedWrap(a: seq<Instr>, x: Instr, b: seq<Instr>, y: Instr)
    requires Balanced(a) && Balanced(b) && x.Jfz? && y.Jbn?
    ensures Balanced(a + [x] + b + [y])
  {
    var c := a + [x] + b;
    NonNegativeSingle(x);
    DepthSingle(x);
    DepthSingle(y);
    NonNegativeConcat(a, [x]);
    NonNegativeConcat(a + [x], b);
    DepthSplit(a, [x]);
    DepthSplit(a + [x], b);
    DepthSplit(c, [y]);
    forall k | 0 <= k <= |c + [y]| ensures Depth((c + [y])[..k]) >= 0 {
      if k <= |c| {
        assert (c + [y])[..k] == c[..k];
      } else {
        assert (c + [y])[..k] == c + [y];
      }
    }
  }

  /** After an open whose remainder never goes below its depth, no close
      matches it: the run up to any close is still open. */
  lemma NoMatchInside(ins: seq<Instr>, o: nat, j: nat)
    requires o < j < |ins| && ins[j].Jbn? && NonNegative(ins[o + 1..])
    ensures Depth(ins[o + 1..j]) >= 1
    ensures !Matches(ins, o, j)
  {
    var seg := ins[o + 1..];
    assert seg[..j - o] == ins[o + 1..j] + [ins[j]];
    DepthSplit(ins[o + 1..j], [ins[j]]);
    DepthSingle(ins[j]);
    assert Depth(seg[..j - o]) >= 0;
  }

  /** Two different opens cannot be matched by the same close. */
  lemma MatchUniqueOpen(ins: seq<Instr>, i: nat, i': nat, j: nat)
    requires Matches(ins, i, j) && Matches(ins, i', j)
    ensures i == i'
  {
    if i < i' {
      SplitAtOpen(ins, i, i', j);
    } else if i' < i {
      SplitAtOpen(ins, i', i, j);
    }
  }

  /** Inside a balanced run, what follows an open closes more than it opens. */
  lemma SplitAtOpen(ins: seq<Instr>, i: nat, i': nat, j: nat)
    requires i < i' < j < |ins| && ins[i'].Jfz?
    requires Balanced(ins[i + 1..j])
    ensures Depth(ins[i' + 1..j]) < 0
  {
    var whole := ins[i + 1..j];
    var a := ins[i + 1..i'];
    assert whole == a + [ins[i']] + ins[i' + 1..j];
    DepthSplit(a + [ins[i']], ins[i' + 1..j]);
    DepthSplit(a, [ins[i']]);
    DepthSingle(ins[i']);
    assert whole[..|a|] == a;
  }

  /** An open is matched by at most one close. */
  lemma MatchUniqueClose(ins: seq<Instr>, i: nat, j: nat, j': nat)
    requires Matches(ins, i, j) && Matches(ins, i, j')
    ensures j == j'
  {
    if j < j' {
      SplitAtClose(ins, i, j, j');
    } else if j' < j {
      SplitAtClose(ins, i, j', j);
    }
  }

  /** A balanced run followed by a close goes below zero. */
  lemma SplitAtClose(ins: seq<Instr>, i: nat, j: nat, j': nat)
    requires i < j < j' < |ins| && ins[j].Jbn?
    requires Balanced(ins[i + 1..j])
    ensures !NonNegative(ins[i + 1..j'])
  {
    var whole := ins[i + 1..j'];
    var a := ins[i + 1..j];
    assert whole[..|a| + 1] == a + [ins[j]];
    DepthSplit(a, [ins[j]]);
    DepthSingle(ins[j]);
  }

  /** The same program with every jump operand cleared: what the compiler
      emits before the operands are filled in. */
  function EraseOne(x: Instr): Instr
  {
    match x
    case Jfz(_) => Jfz(0)
    case Jbn(_) => Jbn(0)
    case _ => x
  }

  function Erase(ins: seq<Instr>): (e: seq<Instr>)
    ensures |e| == |ins| && forall k :: 0 <= k < |ins| ==> e[k] == EraseOne(ins[k])
  {
    seq(|ins|, k requires 0 <= k < |ins| => EraseOne(ins[k]))
  }

  lemma EraseSlice(ins: seq<Instr>, i: nat, j: nat)
    requires i <= j <= |ins|
    ensures Erase(ins[i..j]) == Erase(ins)[i..j]
  {
  }

  lemma EraseConcat(a: seq<Instr>, b: seq<Instr>)
    ensures Erase(a + b) == Erase(a) + Erase(b)
  {
  }

  /** Depth and encoded length do not depend on jump operands. */
  lemma {:induction false} SameShape(a: seq<Instr>, b: seq<Instr>)
    requires Erase(a) == Erase(b)
    ensures Depth(a) == Depth(b)
    ensures |EncodeAll(a)| == |EncodeAll(b)|
    decreases |a|
  {
    if a != [] {
      var n := |a| - 1;
      EraseSlice(a, 0, n);
      EraseSlice(b, 0, n);
      assert Erase(a)[n] == Erase(b)[n];
      SameShape(a[..n], b[..n]);
    }
  }

  lemma SameShapeNonNegative(a: seq<Instr>, b: seq<Instr>)
    requires Erase(a) == Erase(b)
    ensures NonNegative(a) <==> NonNegative(b)
  {
    forall k | 0 <= k <= |a| ensures Depth(a[..k]) == Depth(b[..k]) {
      EraseSlice(a, 0, k);
      EraseSlice(b, 0, k);
      SameShape(a[..k], b[..k]);
    }
  }

  lemma SameShapeBalanced(a: seq<Instr>, b: seq<Instr>)
    requires Erase(a) == Erase(b)
    ensures Balanced(a) <==> Balanced(b)
  {
    SameShape(a, b);
    SameShapeNonNegative(a, b);
  }

  lemma SameShapeAddr(a: seq<Instr>, b: seq<Instr>, k: nat)
    requires Erase(a) == Erase(b) && k <= |a|
    ensures Addr(a, k) == Addr(b, k)
  {
    EraseSlice(a, 0, k);
    EraseSlice(b, 0, k);
    SameShape(a[..k], b[..k]);
  }

  /** Clearing operands twice clears them once. */
  lemma EraseErased(ins: seq<Instr>)
    ensures Erase(Erase(ins)) == Erase(ins)
  {
  }

  /** Pairs and addresses do not depend on jump operands. */
  lemma SameShapeMatches(a: seq<Instr>, b: seq<Instr>, i: nat, j: nat)
    requires Erase(a) == Erase(b) && i < j < |a|
    ensures Matches(a, i, j) <==> Matches(b, i, j)
    ensures Addr(a, i) == Addr(b, i) && Addr(a, j) == Addr(b, j)
  {
    assert EraseOne(a[i]) == EraseOne(b[i]) && EraseOne(a[j]) == EraseOne(b[j]);
    EraseSlice(a, i + 1, j);
    EraseSlice(b, i + 1, j);
    SameShapeBalanced(a[i + 1..j], b[i + 1..j]);
    SameShapeAddr(a, b, i);
    SameShapeAddr(a, b, j);
  }

  /** Instructions appended after `a` do not change the pairs inside `a`. */
  lemma PrefixMatches(a: seq<Instr>, b: seq<Instr>, i: nat, j: nat)
    requires i < j < |a|
    ensures Matches(a + b, i, j) <==> Matches(a, i, j)
  {
    assert (a + b)[i + 1..j] == a[i + 1..j];
  }

  /** Every open of a balanced program has its close. */
  lemma OpenHasClose(ins: seq<Instr>, i: nat) returns (j: nat)
    requires Balanced(ins) && i < |ins| && ins[i].Jfz?
    ensures Matches(ins, i, j)
  {
    j := ScanForClose(ins, i, i + 1);
  }

  /** Scanning right from `k`, with nothing between the open and `k` closing
      it yet, finds its close. */
  lemma {:induction false} ScanForClose(ins: seq<Instr>, i: nat, k: nat) returns (j: nat)
    requires Balanced(ins) && i < k <= |ins| && ins[i].Jfz?
    requires NonNegative(ins[i + 1..k])
    ensures Matches(ins, i, j)
    decreases |ins| - k
  {
    var inside := ins[i + 1..k];
    assert ins[..k] == ins[..i] + [ins[i]] + inside;
    DepthSplit(ins[..i] + [ins[i]], inside);
    DepthSplit(ins[..i], [ins[i]]);
    DepthSingle(ins[i]);
    assert Depth(inside[..|inside|]) >= 0 by { assert inside[..|inside|] == inside; }
    assert Depth(ins[..i]) >= 0;
    assert ins[..|ins|] == ins;
    assert Depth(ins[..k]) >= 1;
    assert k < |ins|;
    var next := ins[i + 1..k + 1];
    assert next == inside + [ins[k]];
    DepthSplit(inside, [ins[k]]);
    DepthSingle(ins[k]);
    if ins[k].Jbn? && Depth(inside) == 0 {
      j := k;
    } else {
      assert Depth(next) >= 0;
      forall t | 0 <= t <= |next| ensures Depth(next[..t]) >= 0 {
        if t <= |inside| {
          assert next[..t] == inside[..t];
          assert Depth(inside[..t]) >= 0;
        } else {
          assert next[..t] == next;
        }
      }
      j := ScanForClose(ins, i, k + 1);
    }
  }

  /** No suffix opens more than it closes. */
  ghost predicate NonPositiveSuffixes(ins: seq<Instr>)
  {
    forall t :: 0 <= t <= |ins| ==> Depth(ins[t..]) <= 0
  }

  lemma SuffixesBalanced(ins: seq<Instr>)
    requires Depth(ins) == 0 && NonPositiveSuffixes(ins)
    ensures Balanced(ins)
  {
    forall t | 0 <= t <= |ins| ensures Depth(ins[..t]) >= 0 {
      assert ins == ins[..t] + ins[t..];
      DepthSplit(ins[..t], ins[t..]);
    }
  }

  /** Every close of a balanced program has its open. */
  lemma CloseHasOpen(ins: seq<Instr>, j: nat) returns (i: nat)
    requires Balanced(ins) && j < |ins| && ins[j].Jbn?
    ensures Matches(ins, i, j)
  {
    assert ins[j..j] == [];
    i := ScanForOpen(ins, j, j);
  }

  /** Scanning left from `k`, with nothing between `k` and the close opening
      it yet, finds its open. */
  lemma {:induction false} ScanForOpen(ins: seq<Instr>, j: nat, k: nat) returns (i: nat)
    requires Balanced(ins) && k <= j < |ins| && ins[j].Jbn?
    requires NonPositiveSuffixes(ins[k..j])
    ensures Matches(ins, i, j)
    decreases k
  {
    var inside := ins[k..j];
    assert Depth(inside[0..]) <= 0;
    assert inside[0..] == inside;
    if k == 0 {
      assert ins[..j + 1] == inside + [ins[j]];
      DepthSplit(inside, [ins[j]]);
      DepthSingle(ins[j]);
      assert false;
    }
    var prev := ins[k - 1..j];
    assert prev == [ins[k - 1]] + inside;
    DepthSplit([ins[k - 1]], inside);
    DepthSingle(ins[k - 1]);
    if ins[k - 1].Jfz? && Depth(inside) == 0 {
      SuffixesBalanced(inside);
      i := k - 1;
    } else {
      forall t | 0 <= t <= |prev| ensures Depth(prev[t..]) <= 0 {
        if t >= 1 {
          assert prev[t..] == inside[t - 1..];
        } else {
          assert prev[t..] == prev;
        }
      }
      i := ScanForOpen(ins, j, k - 1);
    }
  }
}
