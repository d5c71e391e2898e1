/** The canonicaliser: rewrites a type with the rules r7, r2, r3, r5 and r4,
    then flattens it along products and along arrows into a normal form. */
module Canon {
  import opened Types

  /** A coordinate is a flattened arrow: parameter types, then the result type. */
  type Coordinate = seq<Ty>

  /** A normal form is a flattened product of coordinates. */
  type NormalForm = seq<Coordinate>

  const Unit: Ty := Ident("unit")

  predicate IsBinary(t: Ty)
  {
    IsKind(t, Product) || IsKind(t, Arrow)
  }

  /** Every product or arrow reached from the root through products and arrows
      has the two children that `rewrite_type_top` reads (a missing one makes it
      throw). Products and arrows left with fewer children by dropping optional
      parameters fail this. */
  predicate Rewritable(t: Ty)
    decreases t
  {
    match t
    case Node(k, cs) =>
      (k == Product || k == Arrow) ==> |cs| >= 2 && Rewritable(cs[0]) && Rewritable(cs[1])
    case _ => true
  }

  /** Every product or arrow reached from the root through products and arrows
      has exactly two children: the shape the rewriting produces. */
  predicate Spine(t: Ty)
    decreases t
  {
    match t
    case Node(k, cs) =>
      (k == Product || k == Arrow) ==> |cs| == 2 && Spine(cs[0]) && Spine(cs[1])
    case _ => true
  }

  /** No rewrite rule applies anywhere along the spine: no arrow has a unit or a
      product on its left or a product on its right, no product has a unit child. */
  predicate Canonical(t: Ty)
    decreases t
  {
    Spine(t) &&
    match t
    case Node(Product, cs) =>
      !IsUnit(cs[0]) && !IsUnit(cs[1]) && Canonical(cs[0]) && Canonical(cs[1])
    case Node(Arrow, cs) =>
      && !IsUnit(cs[0]) && !IsKind(cs[0], Product) && !IsKind(cs[1], Product)
      && Canonical(cs[0]) && Canonical(cs[1])
    case _ => true
  }

  function LeftSize(t: Ty): nat
  {
    if t.Node? && |t.cs| >= 1 then Size(t.cs[0]) else 0
  }

  function RightSize(t: Ty): nat
  {
    if t.Node? && |t.cs| >= 2 then Size(t.cs[1]) else 0
  }

  /** `rewrite_type_inner`: the rules applied at one node whose children are
      already rewritten, re-applied to the terms r2 and r3 build. */
  function RewriteInner(t: Ty): (r: Ty)
    requires Spine(t)
    ensures Spine(r)
    decreases LeftSize(t), RightSize(t)
  {
    match t
    case Node(Arrow, cs) =>
      var x, y := cs[0], cs[1];
      if IsUnit(x) then
        y                                            // r7: unit -> y  =>  y
      else if IsKind(x, Product) then
        assert Spine(x);
        SizeChild(x.cs, 0);
        SizeChild(x.cs, 1);                          // r2: (a * b) -> y  =>  a -> (b -> y)
        var rest := RewriteInner(Node(Arrow, [x.cs[1], y]));
        RewriteInner(Node(Arrow, [x.cs[0], rest]))
      else if IsKind(y, Product) then
        assert Spine(y);
        SizeChild(y.cs, 0);
        SizeChild(y.cs, 1);                          // r3: x -> (b * c)  =>  (x -> b) * (x -> c)
        Node(Product, [RewriteInner(Node(Arrow, [x, y.cs[0]])),
                       RewriteInner(Node(Arrow, [x, y.cs[1]]))])
      else
        t
    case Node(Product, cs) =>
      if IsUnit(cs[0]) then cs[1]                    // r5: unit * b  =>  b
      else if IsUnit(cs[1]) then cs[0]               // r4: a * unit  =>  a
      else t
    case _ => t
  }

  /** `rewrite_type_top`: rewrites products and arrows bottom-up; any other node
      is left as it is, its children untouched. None when the source throws. */
  function RewriteTop(t: Ty): (r: Option<Ty>)
    ensures r.Some? <==> Rewritable(t)
    ensures r.Some? ==> Spine(r.value)
    decreases t
  {
    match t
    case Node(k, cs) =>
      if k == Product || k == Arrow then
        if |cs| < 2 then None
        else
          match (RewriteTop(cs[0]), RewriteTop(cs[1]))
          case (Some(a), Some(b)) => Some(RewriteInner(Node(k, [a, b])))
          case _ => None
      else Some(t)
    case _ => Some(t)
  }

  /** `flatten(t, k)`: the maximal subtrees of `t` that are not of kind `k`,
      left to right. */
  function Flatten(t: Ty, k: Kind): (r: seq<Ty>)
    requires Spine(t) && (k == Product || k == Arrow)
    ensures |r| >= 1
    ensures forall i :: 0 <= i < |r| ==> !IsKind(r[i], k) && Spine(r[i])
    decreases t
  {
    if IsKind(t, k) then Flatten(t.cs[0], k) + Flatten(t.cs[1], k) else [t]
  }

  /** The right-nested chain `x0 k (x1 k (... k xn))`: the inverse of Flatten. */
  function Chain(xs: seq<Ty>, k: Kind): Ty
    requires |xs| >= 1
    decreases |xs|
  {
    if |xs| == 1 then xs[0] else Node(k, [xs[0], Chain(xs[1..], k)])
  }

  lemma {:induction false} FlattenChain(xs: seq<Ty>, k: Kind)
    requires |xs| >= 1 && (k == Product || k == Arrow)
    requires forall i :: 0 <= i < |xs| ==> !IsKind(xs[i], k) && Spine(xs[i])
    ensures Spine(Chain(xs, k))
    ensures Flatten(Chain(xs, k), k) == xs
    decreases |xs|
  {
    if |xs| > 1 {
      FlattenChain(xs[1..], k);
      assert [xs[0]] + xs[1..] == xs;
    }
  }

  /** Flattens each element along arrows. */
  function Arrows(ps: seq<Ty>): (nf: NormalForm)
    requires forall i :: 0 <= i < |ps| ==> Spine(ps[i])
    ensures |nf| == |ps|
  {
    if ps == [] then [] else [Flatten(ps[0], Arrow)] + Arrows(ps[1..])
  }

  /** The flattened product of flattened arrows of a rewritten tree. */
  function Flat(t: Ty): NormalForm
    requires Spine(t)
  {
    Arrows(Flatten(t, Product))
  }

  /** The normal form `normalize` computes; None when rewriting throws. */
  function NormalFormOf(t: Ty): Option<NormalForm>
  {
    match RewriteTop(t)
    case None => None
    case Some(r) => Some(Flat(r))
  }

  lemma {:induction false} ArrowsAt(ps: seq<Ty>, i: nat)
    requires forall j :: 0 <= j < |ps| ==> Spine(ps[j])
    requires i < |ps|
    ensures Arrows(ps)[i] == Flatten(ps[i], Arrow)
  {
    if i > 0 {
      ArrowsAt(ps[1..], i - 1);
    }
  }

  /** `normalize`, which overwrites each product coordinate by its flattened
      arrow in a loop. */
  method Normalize(t: Ty) returns (nf: Option<NormalForm>)
    ensures nf == NormalFormOf(t)
  {
    var top := RewriteTop(t);
    if top.None? {
      return None;
    }
    var res := Flatten(top.value, Product);
    var coords := new Coordinate[|res|];
    for i := 0 to |res|
      invariant forall j :: 0 <= j < i ==> coords[j] == Flatten(res[j], Arrow)
    {
      coords[i] := Flatten(res[i], Arrow);
    }
    forall j | 0 <= j < |res|
      ensures coords[..][j] == Arrows(res)[j]
    {
      ArrowsAt(res, j);
    }
    assert coords[..] == Arrows(res);
    nf := Some(coords[..]);
  }

  // ---------------------------------------------------------------------
  // A compositional reference for the normal form.

  function Concat(a: NormalForm): seq<Ty>
  {
    if a == [] then [] else a[0] + Concat(a[1..])
  }

  /** Prefixes every coordinate of `b` with the parameters `p`. */
  function PrefixAll(p: seq<Ty>, b: NormalForm): (r: NormalForm)
    ensures |r| == |b|
  {
    if b == [] then [] else [p + b[0]] + PrefixAll(p, b[1..])
  }

  /** The normal form of `a * b` from those of `a` and `b`. */
  function ProductOf(a: NormalForm, b: NormalForm): NormalForm
  {
    if a == [[Unit]] then b else if b == [[Unit]] then a else a + b
  }

  /** The normal form of `a -> b`: every coordinate of `b` takes all the
      parameters of `a`, unless `a` is unit. */
  function ArrowOf(a: NormalForm, b: NormalForm): NormalForm
  {
    if a == [[Unit]] then b else PrefixAll(Concat(a), b)
  }

  /** The normal form defined by structural recursion, with no rewriting. */
  function Denote(t: Ty): NormalForm
    requires Rewritable(t)
    decreases t
  {
    match t
    case Node(Product, cs) => ProductOf(Denote(cs[0]), Denote(cs[1]))
    case Node(Arrow, cs) => ArrowOf(Denote(cs[0]), Denote(cs[1]))
    case _ => [[t]]
  }

  lemma {:induction false} ArrowsAppend(p: seq<Ty>, q: seq<Ty>)
    requires forall i :: 0 <= i < |p| ==> Spine(p[i])
    requires forall i :: 0 <= i < |q| ==> Spine(q[i])
    ensures Arrows(p + q) == Arrows(p) + Arrows(q)
  {
    if p != [] {
      assert (p + q)[1..] == p[1..] + q;
      ArrowsAppend(p[1..], q);
    } else {
      assert p + q == q;
    }
  }

  lemma {:induction false} ConcatAppend(a: NormalForm, b: NormalForm)
    ensures Concat(a + b) == Concat(a) + Concat(b)
  {
    if a != [] {
      assert (a + b)[1..] == a[1..] + b;
      ConcatAppend(a[1..], b);
    } else {
      assert a + b == b;
    }
  }

  lemma {:induction false} PrefixAllAppend(p: seq<Ty>, a: NormalForm, b: NormalForm)
    ensures PrefixAll(p, a + b) == PrefixAll(p, a) + PrefixAll(p, b)
  {
    if a != [] {
      assert (a + b)[1..] == a[1..] + b;
      PrefixAllAppend(p, a[1..], b);
    } else {
      assert a + b == b;
    }
  }

  lemma {:induction false} PrefixAllCompose(p: seq<Ty>, q: seq<Ty>, b: NormalForm)
    ensures PrefixAll(p, PrefixAll(q, b)) == PrefixAll(p + q, b)
  {
    if b != [] {
      PrefixAllCompose(p, q, b[1..]);
      assert p + (q + b[0]) == (p + q) + b[0];
    }
  }

  lemma FlatOfNonProduct(t: Ty)
    requires Spine(t) && !IsKind(t, Product)
    ensures Flat(t) == [Flatten(t, Arrow)]
    ensures !IsKind(t, Arrow) ==> Flat(t) == [[t]]
  {
    assert Flatten(t, Product) == [t];
  }

  lemma FlatOfProduct(a: Ty, b: Ty)
    requires Spine(a) && Spine(b)
    ensures Flat(Node(Product, [a, b])) == Flat(a) + Flat(b)
  {
    ArrowsAppend(Flatten(a, Product), Flatten(b, Product));
  }

  /** The only tree whose normal form is `[[unit]]` is `unit`. */
  lemma FlatIsUnit(x: Ty)
    requires Spine(x)
    ensures Flat(x) == [[Unit]] <==> IsUnit(x)
  {
    if IsKind(x, Product) {
      assert |Flatten(x, Product)| >= 2;
    } else {
      FlatOfNonProduct(x);
      if IsKind(x, Arrow) {
        assert |Flatten(x, Arrow)| >= 2;
      }
    }
  }

  lemma {:induction false} RewriteProductCorrect(x: Ty, y: Ty)
    requires Canonical(x) && Canonical(y)
    ensures Canonical(RewriteInner(Node(Product, [x, y])))
    ensures Flat(RewriteInner(Node(Product, [x, y]))) == ProductOf(Flat(x), Flat(y))
  {
    FlatIsUnit(x);
    FlatIsUnit(y);
    FlatOfProduct(x, y);
  }

  lemma {:induction false} RewriteArrowCorrect(x: Ty, y: Ty)
    requires Canonical(x) && Canonical(y)
    ensures Canonical(RewriteInner(Node(Arrow, [x, y])))
    ensures Flat(RewriteInner(Node(Arrow, [x, y]))) == ArrowOf(Flat(x), Flat(y))
    ensures !IsUnit(x) ==> !IsUnit(RewriteInner(Node(Arrow, [x, y])))
    decreases Size(x), Size(y), 1
  {
    var t := Node(Arrow, [x, y]);
    FlatIsUnit(x);
    if IsUnit(x) {
    } else if IsKind(x, Product) {
      CurryCorrect(x, y);
    } else if IsKind(y, Product) {
      DistributeCorrect(x, y);
    } else {
      FlatOfNonProduct(x);
      FlatOfNonProduct(y);
      FlatOfNonProduct(t);
      assert Concat(Flat(x)) == Flatten(x, Arrow);
    }
  }

  /** Rule r2, `(a * b) -> y`, within the proof of `RewriteArrowCorrect`. */
  lemma {:induction false} CurryCorrect(x: Ty, y: Ty)
    requires Canonical(x) && Canonical(y) && IsKind(x, Product)
    ensures Canonical(RewriteInner(Node(Arrow, [x, y])))
    ensures Flat(RewriteInner(Node(Arrow, [x, y]))) == ArrowOf(Flat(x), Flat(y))
    ensures !IsUnit(RewriteInner(Node(Arrow, [x, y])))
    decreases Size(x), Size(y), 0
  {
    var t := Node(Arrow, [x, y]);
    var a, b := x.cs[0], x.cs[1];
    FlatIsUnit(x);
    SizeChild(x.cs, 0);
    SizeChild(x.cs, 1);
    RewriteArrowCorrect(b, y);
    var rest := RewriteInner(Node(Arrow, [b, y]));
    RewriteArrowCorrect(a, rest);
    FlatIsUnit(a);
    FlatIsUnit(b);
    assert RewriteInner(t) == RewriteInner(Node(Arrow, [a, rest]));
    calc {
      Flat(RewriteInner(t));
      PrefixAll(Concat(Flat(a)), PrefixAll(Concat(Flat(b)), Flat(y)));
      { PrefixAllCompose(Concat(Flat(a)), Concat(Flat(b)), Flat(y)); }
      PrefixAll(Concat(Flat(a)) + Concat(Flat(b)), Flat(y));
      { ConcatAppend(Flat(a), Flat(b)); FlatOfProduct(a, b); }
      PrefixAll(Concat(Flat(x)), Flat(y));
    }
  }

  /** Rule r3, `x -> (b * c)`, within the proof of `RewriteArrowCorrect`. */
  lemma {:induction false} DistributeCorrect(x: Ty, y: Ty)
    requires Canonical(x) && Canonical(y) && !IsUnit(x) && !IsKind(x, Product) && IsKind(y, Product)
    ensures Canonical(RewriteInner(Node(Arrow, [x, y])))
    ensures Flat(RewriteInner(Node(Arrow, [x, y]))) == ArrowOf(Flat(x), Flat(y))
    ensures !IsUnit(RewriteInner(Node(Arrow, [x, y])))
    decreases Size(x), Size(y), 0
  {
    var t := Node(Arrow, [x, y]);
    var b, c := y.cs[0], y.cs[1];
    FlatIsUnit(x);
    SizeChild(y.cs, 0);
    SizeChild(y.cs, 1);
    RewriteArrowCorrect(x, b);
    RewriteArrowCorrect(x, c);
    var rb := RewriteInner(Node(Arrow, [x, b]));
    var rc := RewriteInner(Node(Arrow, [x, c]));
    assert RewriteInner(t) == Node(Product, [rb, rc]);
    FlatOfProduct(rb, rc);
    FlatOfProduct(b, c);
    PrefixAllAppend(Concat(Flat(x)), Flat(b), Flat(c));
  }

  lemma {:induction false} RewriteTopCorrect(t: Ty)
    requires Rewritable(t)
    ensures Canonical(RewriteTop(t).value)
    ensures Flat(RewriteTop(t).value) == Denote(t)
    decreases t
  {
    match t
    case Node(k, cs) =>
      if k == Product || k == Arrow {
        RewriteTopCorrect(cs[0]);
        RewriteTopCorrect(cs[1]);
        var a, b := RewriteTop(cs[0]).value, RewriteTop(cs[1]).value;
        if k == Product {
          RewriteProductCorrect(a, b);
        } else {
          RewriteArrowCorrect(a, b);
        }
      } else {
        FlatOfNonProduct(t);
      }
    case _ =>
      FlatOfNonProduct(t);
  }

  /** The normal form exists exactly when the spine is rewritable, and it is the
      structural one: rewriting to the end and then flattening computes Denote. */
  lemma NormalFormIsDenote(t: Ty)
    ensures NormalFormOf(t).Some? <==> Rewritable(t)
    ensures Rewritable(t) ==> NormalFormOf(t) == Some(Denote(t))
  {
    if Rewritable(t) {
      RewriteTopCorrect(t);
    }
  }

  /** Rewriting leaves no place where a rule could still apply. */
  lemma RewriteTopIsCanonical(t: Ty)
    requires Rewritable(t)
    ensures Canonical(RewriteTop(t).value)
  {
    RewriteTopCorrect(t);
  }

  // ---------------------------------------------------------------------
  // The equations the rewrite system is designed for.

  /** A type the rules never look inside and that is not unit. */
  predicate Simple(t: Ty)
  {
    !IsBinary(t) && !IsUnit(t)
  }

  lemma DenoteSimple(t: Ty)
    requires Simple(t)
    ensures Rewritable(t) && Denote(t) == [[t]] && [[t]] != [[Unit]]
  {
  }

  lemma PrefixOne(p: seq<Ty>, c: Coordinate)
    ensures PrefixAll(p, [c]) == [p + c]
  {
    assert [c][1..] == [];
  }

  /** The arrow from a simple type prefixes it to every coordinate. */
  lemma DenoteArrowFromSimple(x: Ty, y: Ty)
    requires Simple(x) && Rewritable(y)
    ensures Denote(Node(Arrow, [x, y])) == PrefixAll([x], Denote(y))
  {
    DenoteSimple(x);
    ConcatOne([x]);
  }

  lemma ConcatOne(c: Coordinate)
    ensures Concat([c]) == c
  {
    assert [c][1..] == [];
  }

  /** `a -> b` of simple types is the one coordinate `[a, b]`. */
  lemma SimpleArrow(a: Ty, b: Ty)
    requires Simple(a) && Simple(b)
    ensures NormalFormOf(Node(Arrow, [a, b])) == Some([[a, b]])
  {
    DenoteSimple(b);
    DenoteArrowFromSimple(a, b);
    PrefixOne([a], [b]);
    assert [a] + [b] == [a, b];
    NormalFormIsDenote(Node(Arrow, [a, b]));
  }

  /** `a * b` of simple types is the two coordinates `[a]` and `[b]`. */
  lemma SimpleProduct(a: Ty, b: Ty)
    requires Simple(a) && Simple(b)
    ensures NormalFormOf(Node(Product, [a, b])) == Some([[a], [b]])
  {
    DenoteSimple(a);
    DenoteSimple(b);
    var t := Node(Product, [a, b]);
    assert Rewritable(t);
    assert Denote(t) == ProductOf([[a]], [[b]]) == [[a], [b]];
    NormalFormIsDenote(t);
  }

  /** Currying: `a -> b -> c` and `(a * b) -> c` both normalise to `[[a, b, c]]`. */
  lemma Currying(a: Ty, b: Ty, c: Ty)
    requires Simple(a) && Simple(b) && Simple(c)
    ensures NormalFormOf(Node(Arrow, [a, Node(Arrow, [b, c])])) == Some([[a, b, c]])
    ensures NormalFormOf(Node(Arrow, [Node(Product, [a, b]), c])) == Some([[a, b, c]])
  {
    DenoteSimple(a);
    DenoteSimple(b);
    DenoteSimple(c);
    ConcatOne([a]);
    ConcatOne([b]);
    PrefixOne([b], [c]);
    PrefixOne([a], [b, c]);
    PrefixOne([a, b], [c]);
    var curried := Node(Arrow, [a, Node(Arrow, [b, c])]);
    var tupled := Node(Arrow, [Node(Product, [a, b]), c]);
    DenoteArrowFromSimple(b, c);
    assert [b] + [c] == [b, c];
    assert Denote(Node(Arrow, [b, c])) == [[b, c]];
    DenoteArrowFromSimple(a, Node(Arrow, [b, c]));
    assert [a] + [b, c] == [a, b, c];
    assert Denote(curried) == [[a, b, c]];
    assert Denote(Node(Product, [a, b])) == [[a], [b]];
    assert Concat([[a], [b]]) == [a, b] by {
      assert [[a], [b]][1..] == [[b]];
    }
    assert [a, b] + [c] == [a, b, c];
    assert Denote(tupled) == [[a, b, c]];
    NormalFormIsDenote(curried);
    NormalFormIsDenote(tupled);
  }

  /** A function returning a pair is a pair of functions:
      `a -> (b * c)` and `(a -> b) * (a -> c)` both normalise to `[[a, b], [a, c]]`. */
  lemma TupleReturn(a: Ty, b: Ty, c: Ty)
    requires Simple(a) && Simple(b) && Simple(c)
    ensures NormalFormOf(Node(Arrow, [a, Node(Product, [b, c])])) == Some([[a, b], [a, c]])
    ensures NormalFormOf(Node(Product, [Node(Arrow, [a, b]), Node(Arrow, [a, c])]))
         == Some([[a, b], [a, c]])
  {
    DenoteSimple(a);
    DenoteSimple(b);
    DenoteSimple(c);
    ConcatOne([a]);
    PrefixOne([a], [b]);
    PrefixOne([a], [c]);
    var returning := Node(Arrow, [a, Node(Product, [b, c])]);
    var paired := Node(Product, [Node(Arrow, [a, b]), Node(Arrow, [a, c])]);
    assert Denote(Node(Product, [b, c])) == [[b], [c]];
    assert PrefixAll([a], [[b], [c]]) == [[a, b], [a, c]] by {
      assert [[b], [c]][1..] == [[c]];
      assert [a] + [b] == [a, b];
      assert [a] + [c] == [a, c];
    }
    DenoteArrowFromSimple(a, Node(Product, [b, c]));
    assert Denote(returning) == [[a, b], [a, c]];
    DenoteArrowFromSimple(a, b);
    DenoteArrowFromSimple(a, c);
    assert [a] + [b] == [a, b];
    assert [a] + [c] == [a, c];
    assert Denote(Node(Arrow, [a, b])) == [[a, b]];
    assert Denote(Node(Arrow, [a, c])) == [[a, c]];
    assert Denote(paired) == [[a, b], [a, c]];
    NormalFormIsDenote(returning);
    NormalFormIsDenote(paired);
  }

  /** Unit elimination: `unit -> t` and `t * unit` both normalise to `[[t]]`. */
  lemma UnitElimination(t: Ty)
    requires !IsBinary(t)
    ensures NormalFormOf(Node(Arrow, [Unit, t])) == Some([[t]])
    ensures NormalFormOf(Node(Product, [t, Unit])) == Some([[t]])
  {
    NormalFormIsDenote(Node(Arrow, [Unit, t]));
    NormalFormIsDenote(Node(Product, [t, Unit]));
  }

  /** Flattening along arrows also flattens an arrow in parameter position, so
      the higher-order `(a -> b) -> c` gets the normal form of `a -> b -> c`. */
  lemma HigherOrderParameterFlattened(a: Ty, b: Ty, c: Ty)
    requires Simple(a) && Simple(b) && Simple(c)
    ensures NormalFormOf(Node(Arrow, [Node(Arrow, [a, b]), c]))
         == NormalFormOf(Node(Arrow, [a, Node(Arrow, [b, c])]))
  {
    DenoteSimple(a);
    DenoteSimple(b);
    DenoteSimple(c);
    ConcatOne([a, b]);
    PrefixOne([a, b], [c]);
    var higher := Node(Arrow, [Node(Arrow, [a, b]), c]);
    assert Denote(Node(Arrow, [a, b])) == [[a, b]] by {
      DenoteArrowFromSimple(a, b);
      PrefixOne([a], [b]);
      assert [a] + [b] == [a, b];
    }
    assert [a, b] + [c] == [a, b, c];
    assert Denote(higher) == [[a, b, c]];
    NormalFormIsDenote(higher);
    Currying(a, b, c);
  }
}
