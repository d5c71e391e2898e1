/** Optional parameters: a type with k optional parameters stands for 2^k
    signatures, the n-th keeping the i-th optional parameter exactly when bit i
    of n is set. */
module Optional {
  import opened Types

  /** `get_optional_count`: the optional-parameter nodes of a type, not
      counting any nested inside one. */
  function OptionalCount(t: Ty): nat
    decreases t
  {
    match t
    case Node(k, cs) => if k == OptionalParameter then 1 else OptionalCountAll(cs)
    case _ => 0
  }

  function OptionalCountAll(cs: seq<Ty>): nat
    decreases cs
  {
    if cs == [] then 0
    else OptionalCountAll(cs[..|cs| - 1]) + OptionalCount(cs[|cs| - 1])
  }

  lemma OptionalCountAllStep(cs: seq<Ty>, i: nat)
    requires i < |cs|
    ensures OptionalCountAll(cs[..i + 1]) == OptionalCountAll(cs[..i]) + OptionalCount(cs[i])
  {
    assert cs[..i + 1][..i] == cs[..i];
  }

  /** `get_optional_count`, which sums over the children in a loop. */
  method GetOptionalCount(t: Ty) returns (c: nat)
    ensures c == OptionalCount(t)
    decreases t
  {
    if t.Node? {
      if t.k == OptionalParameter {
        return 1;
      }
      c := 0;
      for i := 0 to |t.cs|
        invariant c == OptionalCountAll(t.cs[..i])
      {
        var x := GetOptionalCount(t.cs[i]);
        OptionalCountAllStep(t.cs, i);
        c := c + x;
      }
      assert t.cs[..|t.cs|] == t.cs;
    } else {
      c := 0;
    }
  }

  function Pow2(x: nat): (r: nat)
    ensures r >= 1
  {
    if x == 0 then 1 else 2 * Pow2(x - 1)
  }

  /** `power2`, which doubles in a loop. */
  method Power2(x: nat) returns (r: nat)
    ensures r == Pow2(x)
  {
    r := 1;
    var i := 0;
    while i < x
      invariant 0 <= i <= x
      invariant r == Pow2(i)
    {
      r := r * 2;
      i := i + 1;
    }
  }

  /** Whether `(1 << id) & n` is non-zero: the shift count is taken modulo 32
      and the bits are those of `n` as a 32-bit integer. */
  function Bit(n: int, id: nat): bool
  {
    (n % 0x1_0000_0000) / Pow2(id % 32) % 2 == 1
  }

  /** Bit `id + i`, as the `i`-th optional node visited from `id` reads it. */
  function BitAt(n: int, id: nat, i: nat): bool
  {
    Bit(n, id + i)
  }

  /** The `count` bits read from `id` in `n` are those read from `id'` in `n'`. */
  ghost predicate SameBits(n: int, id: nat, n': int, id': nat, count: nat)
  {
    forall i :: 0 <= i < count ==> BitAt(n, id, i) == BitAt(n', id', i)
  }

  /** What `nth_signature_aux(t, n)` returns when its counter starts at `id`
      (None for null, or for the undefined child of an empty optional node). An
      optional node is replaced by its first child, unvisited, when its bit is
      set and dropped otherwise; a composite node keeps its tag and the children
      not dropped, and collapses to its child when exactly one is left. */
  function NthFrom(t: Ty, n: int, id: nat): Option<Ty>
    decreases t
  {
    match t
    case Node(k, cs) =>
      if k == OptionalParameter then
        if Bit(n, id) && |cs| > 0 then Some(cs[0]) else None
      else
        var r := Kept(cs, n, id);
        if |r| == 1 then Some(r[0]) else Some(Node(k, r))
    case _ => Some(t)
  }

  /** The children the loop of `nth_signature_aux` keeps, each visited with the
      counter advanced past the optional nodes of the children before it. */
  function Kept(cs: seq<Ty>, n: int, id: nat): seq<Ty>
    decreases cs
  {
    if cs == [] then []
    else
      var last := NthFrom(cs[|cs| - 1], n, id + OptionalCountAll(cs[..|cs| - 1]));
      Kept(cs[..|cs| - 1], n, id) + (if last.Some? then [last.value] else [])
  }

  lemma KeptStep(cs: seq<Ty>, n: int, id: nat, i: nat)
    requires i < |cs|
    ensures Kept(cs[..i + 1], n, id) ==
      var x := NthFrom(cs[i], n, id + OptionalCountAll(cs[..i]));
      Kept(cs[..i], n, id) + (if x.Some? then [x.value] else [])
  {
    assert cs[..i + 1][..i] == cs[..i];
  }

  /** The counter `nth_signature_aux_id`. */
  class SignatureCounter {
    var id: nat

    constructor ()
      ensures id == 0
    {
      id := 0;
    }

    /** `nth_signature_aux`: advances the counter once per optional node it
        visits. */
    method NthSignatureAux(t: Ty, n: int) returns (r: Option<Ty>)
      modifies this
      ensures r == NthFrom(t, n, old(id))
      ensures id == old(id) + OptionalCount(t)
      decreases t, 1
    {
      if t.Node? {
        if t.k == OptionalParameter {
          var present := Bit(n, id);
          id := id + 1;
          if present && |t.cs| > 0 {
            return Some(t.cs[0]);
          } else {
            return None;
          }
        }
        var res := KeepChildren(t, n);
        if |res| == 1 {
          return Some(res[0]);
        } else {
          return Some(Node(t.k, res));
        }
      } else {
        return Some(t);
      }
    }

    /** The loop of `nth_signature_aux` over the children of a composite
        node. */
    method KeepChildren(t: Ty, n: int) returns (res: seq<Ty>)
      requires t.Node?
      modifies this
      ensures res == Kept(t.cs, n, old(id))
      ensures id == old(id) + OptionalCountAll(t.cs)
      decreases t, 0
    {
      ghost var id0 := id;
      res := [];
      for i := 0 to |t.cs|
        invariant res == Kept(t.cs[..i], n, id0)
        invariant id == id0 + OptionalCountAll(t.cs[..i])
      {
        var tmp := NthSignatureAux(t.cs[i], n);
        KeptStep(t.cs, n, id0, i);
        OptionalCountAllStep(t.cs, i);
        if tmp.Some? {
          res := res + [tmp.value];
        }
      }
      assert t.cs[..|t.cs|] == t.cs;
    }
  }

  /** `nth_signature`: the counter reset to zero, then `nth_signature_aux`. */
  method NthSignature(t: Ty, n: int) returns (r: Option<Ty>)
    ensures r == NthFrom(t, n, 0)
  {
    var counter := new SignatureCounter();
    r := counter.NthSignatureAux(t, n);
  }

  // ---------------------------------------------------------------------
  // Properties.

  /** Which signature is built depends only on the bits the optional nodes of
      the type read, one each, in order. */
  lemma {:induction false} OnlyItsBitsMatter(t: Ty, n: int, id: nat, n': int, id': nat)
    requires SameBits(n, id, n', id', OptionalCount(t))
    ensures NthFrom(t, n, id) == NthFrom(t, n', id')
    decreases t
  {
    if t.Node? && t.k != OptionalParameter {
      KeptBitsMatter(t.cs, n, id, n', id');
    } else if t.Node? {
      assert BitAt(n, id, 0) == BitAt(n', id', 0);
    }
  }

  lemma {:induction false} KeptBitsMatter(cs: seq<Ty>, n: int, id: nat, n': int, id': nat)
    requires SameBits(n, id, n', id', OptionalCountAll(cs))
    ensures Kept(cs, n, id) == Kept(cs, n', id')
    decreases cs
  {
    if cs != [] {
      var pre, last := cs[..|cs| - 1], cs[|cs| - 1];
      var c := OptionalCountAll(pre);
      assert OptionalCountAll(cs) == c + OptionalCount(last);
      KeptBitsMatter(pre, n, id, n', id');
      var from, from' := id + c, id' + c;
      forall i | 0 <= i < OptionalCount(last)
        ensures BitAt(n, from, i) == BitAt(n', from', i)
      {
        assert BitAt(n, id, c + i) == BitAt(n', id', c + i);
      }
      OnlyItsBitsMatter(last, n, from, n', from');
    }
  }

  /** No node has exactly one child. */
  ghost predicate NoSingletons(t: Ty)
    decreases t
  {
    match t
    case Node(_, cs) => |cs| != 1 && forall i :: 0 <= i < |cs| ==> NoSingletons(cs[i])
    case _ => true
  }

  /** A type with no optional parameter and no one-child node is its own and
      only signature. */
  lemma {:induction false} NoOptionalIdentity(t: Ty, n: int, id: nat)
    requires OptionalCount(t) == 0 && NoSingletons(t)
    ensures NthFrom(t, n, id) == Some(t)
    decreases t
  {
    if t.Node? {
      KeptAll(t.cs, n, id);
      assert t.cs[..|t.cs|] == t.cs;
    }
  }

  lemma {:induction false} KeptAll(cs: seq<Ty>, n: int, id: nat)
    requires OptionalCountAll(cs) == 0
    requires forall i :: 0 <= i < |cs| ==> NoSingletons(cs[i])
    ensures forall i {:trigger cs[..i]} :: 0 <= i <= |cs| ==> Kept(cs[..i], n, id) == cs[..i]
    decreases cs
  {
    if cs != [] {
      var pre := cs[..|cs| - 1];
      KeptAll(pre, n, id);
      forall i | 0 <= i <= |cs|
        ensures Kept(cs[..i], n, id) == cs[..i]
      {
        if i < |cs| {
          assert cs[..i] == pre[..i];
        } else {
          assert cs[..i] == cs;
          assert pre[..|pre|] == pre;
          NoOptionalIdentity(cs[|cs| - 1], n, id + OptionalCountAll(pre));
        }
      }
    }
  }

  /** `(?x:a) -> b`: signature 0 drops the optional parameter and the arrow
      left with one child collapses to `b`; signature 1 keeps it as `a -> b`. */
  lemma OptionalArrow(a: Ty, b: Ty)
    requires OptionalCount(b) == 0 && NoSingletons(b)
    ensures NthFrom(Node(Arrow, [Node(OptionalParameter, [a]), b]), 0, 0) == Some(b)
    ensures NthFrom(Node(Arrow, [Node(OptionalParameter, [a]), b]), 1, 0) == Some(Node(Arrow, [a, b]))
  {
    var o := Node(OptionalParameter, [a]);
    var cs := [o, b];
    assert cs[..1] == [o] && cs[..2] == cs && cs[..1][..0] == [];
    assert OptionalCountAll(cs[..1]) == 1;
    NoOptionalIdentity(b, 0, 1);
    NoOptionalIdentity(b, 1, 1);
    assert Bit(1, 0);
    assert !Bit(0, 0);
    OptionalCountAllStep(cs, 0);
    KeptStep(cs, 0, 0, 0);
    KeptStep(cs, 0, 0, 1);
    KeptStep(cs, 1, 0, 0);
    KeptStep(cs, 1, 0, 1);
    assert Kept(cs, 0, 0) == [b];
    assert Kept(cs, 1, 0) == [a, b];
  }
}
