/** The permutations the equivalence tester searches, generated by
    backtracking as `permuts` does. */
module Perms {
  import opened Types

  function Fact(n: nat): nat
  {
    if n == 0 then 1 else n * Fact(n - 1)
  }

  /** `integers(n)`: the indices 0 to n - 1, pushed one by one. */
  method Integers(n: nat) returns (res: seq<int>)
    ensures |res| == n
    ensures forall i :: 0 <= i < n ==> res[i] == i
  {
    res := [];
    for i := 0 to n
      invariant |res| == i
      invariant forall j :: 0 <= j < i ==> res[j] == j
    {
      res := res + [i];
    }
  }

  function Range(n: nat): (r: seq<int>)
    ensures |r| == n && forall i :: 0 <= i < n ==> r[i] == i
  {
    seq(n, i => i)
  }

  /** A permutation of the indices 0 to n - 1. */
  predicate IsPermutation(p: seq<int>, n: nat)
  {
    multiset(p) == multiset(Range(n))
  }

  /** `l` without its element at position `i` (what `l.splice(i, 1)` leaves). */
  function Remove(l: seq<int>, i: nat): (r: seq<int>)
    requires i < |l|
    ensures |r| == |l| - 1
  {
    l[..i] + l[i + 1..]
  }

  /** What `permuts(tmp, l, res)` appends to `res`: `tmp` itself when `l` is
      empty, otherwise, for each position i of `l` in turn, everything the
      recursive call appends after moving `l[i]` to the end of `tmp`. */
  function Arrangements(tmp: seq<int>, l: seq<int>): seq<seq<int>>
    decreases |l|, 1, 0
  {
    if |l| == 0 then [tmp] else Branches(tmp, l, |l|)
  }

  /** What the first `i` rounds of the loop in `permuts` append. */
  function Branches(tmp: seq<int>, l: seq<int>, i: nat): seq<seq<int>>
    requires i <= |l|
    decreases |l|, 0, i
  {
    if i == 0 then []
    else Branches(tmp, l, i - 1) + Arrangements(tmp + [l[i - 1]], Remove(l, i - 1))
  }

  /** `permutations(n)`. */
  function PermutationsOf(n: nat): seq<seq<int>>
  {
    Arrangements([], Range(n))
  }

  /** The state `permuts` works on: the prefix `tmp` under construction, the
      indices `l` still to place, and the result list `res`. */
  class Permuter {
    var tmp: seq<int>
    var l: seq<int>
    var res: seq<seq<int>>

    constructor (indices: seq<int>)
      ensures tmp == [] && l == indices && res == []
    {
      tmp, l, res := [], indices, [];
    }

    /** `permuts`: every element taken out of `l` and pushed on `tmp` is popped
        and put back, so both are restored when the call returns. */
    method Permuts()
      modifies this
      ensures tmp == old(tmp) && l == old(l)
      ensures res == old(res) + Arrangements(old(tmp), old(l))
      decreases |l|
    {
      ghost var t0, l0, r0 := tmp, l, res;
      var len := |l|;
      if len == 0 {
        res := res + [tmp];
      }
      for i := 0 to len
        invariant tmp == t0 && l == l0
        invariant len == 0 ==> res == r0 + [t0]
        invariant len > 0 ==> res == r0 + Branches(t0, l0, i)
      {
        ghost var before := res;
        var x := l[i];
        l := l[..i] + l[i + 1..];
        tmp := tmp + [x];
        Permuts();
        tmp := tmp[..|tmp| - 1];
        l := l[..i] + [x] + l[i..];
        RemoveInsert(l0, i);
        assert tmp == t0;
        assert res == before + Arrangements(t0 + [l0[i]], Remove(l0, i));
      }
    }
  }

  lemma RemoveInsert(l: seq<int>, i: nat)
    requires i < |l|
    ensures Remove(l, i)[..i] + [l[i]] + Remove(l, i)[i..] == l
  {
    var r := Remove(l, i);
    assert r[..i] == l[..i];
    assert r[i..] == l[i + 1..];
    assert l == l[..i] + [l[i]] + l[i + 1..];
  }

  /** `permutations(n)`: runs `permuts` on the indices 0 to n - 1. */
  method Permutations(n: nat) returns (res: seq<seq<int>>)
    ensures res == PermutationsOf(n)
  {
    var ints := Integers(n);
    assert ints == Range(n);
    var p := new Permuter(ints);
    p.Permuts();
    res := p.res;
  }

  // ---------------------------------------------------------------------
  // What the generated list contains.

  lemma {:induction false} InBranches(tmp: seq<int>, l: seq<int>, i: nat, x: seq<int>)
    requires i <= |l|
    ensures x in Branches(tmp, l, i) <==>
      exists k :: 0 <= k < i && x in Arrangements(tmp + [l[k]], Remove(l, k))
  {
    if i > 0 {
      InBranches(tmp, l, i - 1, x);
    }
  }

  lemma MultisetRemove(l: seq<int>, k: nat)
    requires k < |l|
    ensures multiset(l) == multiset{l[k]} + multiset(Remove(l, k))
  {
    assert l == l[..k] + [l[k]] + l[k + 1..];
  }

  /** Every element appended extends `tmp` by an arrangement of `l`. */
  lemma {:induction false} PermutsShape(tmp: seq<int>, l: seq<int>, x: seq<int>)
    requires x in Arrangements(tmp, l)
    ensures |x| == |tmp| + |l| && x[..|tmp|] == tmp
    ensures multiset(x[|tmp|..]) == multiset(l)
    decreases |l|
  {
    if |l| > 0 {
      InBranches(tmp, l, |l|, x);
      var k :| 0 <= k < |l| && x in Arrangements(tmp + [l[k]], Remove(l, k));
      PermutsShape(tmp + [l[k]], Remove(l, k), x);
      MultisetRemove(l, k);
      assert x[..|tmp|] == x[..|tmp| + 1][..|tmp|];
      assert x[|tmp|..] == [x[|tmp|]] + x[|tmp| + 1..];
      assert x[|tmp|] == (tmp + [l[k]])[|tmp|];
    }
  }

  /** Every arrangement of `l` is appended, after `tmp`. */
  lemma {:induction false} PermutsComplete(tmp: seq<int>, l: seq<int>, q: seq<int>)
    requires multiset(q) == multiset(l)
    ensures tmp + q in Arrangements(tmp, l)
    decreases |l|
  {
    assert |q| == |multiset(q)| == |l|;
    if |l| == 0 {
      assert tmp + q == tmp;
    } else {
      assert q[0] in multiset(l);
      var k :| 0 <= k < |l| && l[k] == q[0];
      MultisetRemove(l, k);
      assert q == [q[0]] + q[1..];
      assert multiset(q) == multiset{q[0]} + multiset(q[1..]);
      assert multiset(q[1..]) == multiset(q) - multiset{q[0]};
      assert multiset(Remove(l, k)) == multiset(l) - multiset{l[k]};
      PermutsComplete(tmp + [l[k]], Remove(l, k), q[1..]);
      assert (tmp + [l[k]]) + q[1..] == tmp + q;
      InBranches(tmp, l, |l|, tmp + q);
    }
  }

  lemma {:induction false} CountPermuts(tmp: seq<int>, l: seq<int>)
    ensures |Arrangements(tmp, l)| == Fact(|l|)
    decreases |l|, 1, 0
  {
    if |l| > 0 {
      CountBranches(tmp, l, |l|);
    }
  }

  lemma {:induction false} CountBranches(tmp: seq<int>, l: seq<int>, i: nat)
    requires 0 < |l| && i <= |l|
    ensures |Branches(tmp, l, i)| == i * Fact(|l| - 1)
    decreases |l|, 0, i
  {
    if i > 0 {
      CountBranches(tmp, l, i - 1);
      CountPermuts(tmp + [l[i - 1]], Remove(l, i - 1));
      var f := Fact(|l| - 1);
      assert (i - 1) * f + f == i * f;
    }
  }

  lemma DistinctAppend(a: seq<seq<int>>, b: seq<seq<int>>)
    requires Distinct(a) && Distinct(b)
    requires forall x, y :: x in a && y in b ==> x != y
    ensures Distinct(a + b)
  {
    forall i, j | 0 <= i < j < |a + b|
      ensures (a + b)[i] != (a + b)[j]
    {
      if j < |a| {
      } else if i < |a| {
        assert (a + b)[i] in a && (a + b)[j] in b;
      } else {
        assert (a + b)[i] == b[i - |a|] && (a + b)[j] == b[j - |a|];
      }
    }
  }

  lemma DistinctRemove(l: seq<int>, k: nat)
    requires Distinct(l) && k < |l|
    ensures Distinct(Remove(l, k))
  {
    var r := Remove(l, k);
    forall i, j | 0 <= i < j < |r|
      ensures r[i] != r[j]
    {
      var i' := if i < k then i else i + 1;
      var j' := if j < k then j else j + 1;
      assert r[i] == l[i'] && r[j] == l[j'];
    }
  }

  lemma {:induction false} DistinctPermuts(tmp: seq<int>, l: seq<int>)
    requires Distinct(l)
    ensures Distinct(Arrangements(tmp, l))
    decreases |l|, 1, 0
  {
    if |l| > 0 {
      DistinctBranches(tmp, l, |l|);
    }
  }

  lemma {:induction false} DistinctBranches(tmp: seq<int>, l: seq<int>, i: nat)
    requires Distinct(l) && 0 < |l| && i <= |l|
    ensures Distinct(Branches(tmp, l, i))
    ensures forall x :: x in Branches(tmp, l, i) ==>
      |x| > |tmp| && exists k :: 0 <= k < i && x[|tmp|] == l[k]
    decreases |l|, 0, i
  {
    if i > 0 {
      var k := i - 1;
      var before := Branches(tmp, l, k);
      var branch := Arrangements(tmp + [l[k]], Remove(l, k));
      DistinctBranches(tmp, l, k);
      DistinctRemove(l, k);
      DistinctPermuts(tmp + [l[k]], Remove(l, k));
      forall y | y in branch
        ensures |y| > |tmp| && y[|tmp|] == l[k]
      {
        PermutsShape(tmp + [l[k]], Remove(l, k), y);
        assert y[|tmp|] == y[..|tmp| + 1][|tmp|];
      }
      forall x, y | x in before && y in branch
        ensures x != y
      {
        var k' :| 0 <= k' < k && x[|tmp|] == l[k'];
      }
      DistinctAppend(before, branch);
    }
  }

  /** `permutations(n)` lists n! sequences. */
  lemma PermutationsCount(n: nat)
    ensures |PermutationsOf(n)| == Fact(n)
  {
    CountPermuts([], Range(n));
  }

  /** No sequence is listed twice. */
  lemma PermutationsDistinct(n: nat)
    ensures Distinct(PermutationsOf(n))
  {
    DistinctPermuts([], Range(n));
  }

  /** Every sequence listed is a permutation of 0 .. n - 1, and every such
      permutation is listed. */
  lemma PermutationsExactly(n: nat, p: seq<int>)
    ensures p in PermutationsOf(n) <==> IsPermutation(p, n)
  {
    if p in PermutationsOf(n) {
      PermutsShape([], Range(n), p);
      assert p[0..] == p;
    }
    if IsPermutation(p, n) {
      PermutsComplete([], Range(n), p);
      assert [] + p == p;
    }
  }

  /** The entries of a permutation are indices below n, and it has n of them. */
  lemma PermutationIndices(p: seq<int>, n: nat)
    requires IsPermutation(p, n)
    ensures |p| == n
    ensures forall j :: 0 <= j < |p| ==> 0 <= p[j] < n
  {
    assert |p| == |multiset(p)| == |multiset(Range(n))| == n;
    forall j | 0 <= j < |p|
      ensures 0 <= p[j] < n
    {
      assert p[j] in multiset(p);
      assert p[j] in Range(n);
    }
  }
}
