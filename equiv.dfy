/** The equivalence tester: two normal forms are equal when their coordinates
    can be paired up, and within each coordinate the parameters reordered, so
    that the types agree up to an injective renaming of type variables. */
module Equiv {
  import opened Types
  import opened Canon
  import opened Perms

  /** A substitution renames type variables (by name) to type variables. */
  type Renaming = map<string, string>

  /** No two variables are renamed to the same variable. */
  ghost predicate Injective(m: Renaming)
  {
    forall a, b :: a in m && b in m && a != b ==> m[a] != m[b]
  }

  /** Every variable is renamed to a non-empty name (variable names start with
      a quote), so that looking one up is truthy. */
  ghost predicate Truthy(m: Renaming)
  {
    "" !in m.Values
  }

  /** What `bind(subst, v1, v2)` leaves: it throws, here None, when `v1` already
      holds a truthy name other than `v2`, or when another variable is already
      renamed to `v2`; otherwise `v1` is renamed to `v2`. */
  function BindResult(m: Renaming, v1: string, v2: string): (r: Option<Renaming>)
    ensures r.Some? ==> v1 in r.value && r.value[v1] == v2
    ensures r.Some? ==> forall k :: k != v1 ==> (k in r.value <==> k in m)
    ensures r.Some? ==> forall k :: k in m && k != v1 ==> r.value[k] == m[k]
  {
    if v1 in m && m[v1] != "" && m[v1] != v2 then None
    else if exists k :: k in m && k != v1 && m[k] == v2 then None
    else Some(m[v1 := v2])
  }

  /** With truthy entries, `bind` fails exactly when `v1` is renamed to another
      variable already or another variable is already renamed to `v2`. */
  lemma BindFails(m: Renaming, v1: string, v2: string)
    requires Truthy(m)
    ensures BindResult(m, v1, v2).None? <==>
      (v1 in m && m[v1] != v2) || (exists k :: k in m && k != v1 && m[k] == v2)
  {
    if v1 in m {
      assert m[v1] in m.Values;
    }
  }

  /** A successful `bind` keeps the renaming injective. */
  lemma BindInjective(m: Renaming, v1: string, v2: string)
    requires Injective(m)
    ensures BindResult(m, v1, v2).Some? ==> Injective(BindResult(m, v1, v2).value)
  {
  }

  /** A substitution object, updated in place by `bind`. */
  class Subst {
    var m: Renaming

    constructor ()
      ensures m == map[]
    {
      m := map[];
    }

    /** `copy_subst`: a fresh substitution with the same entries. */
    method Copy() returns (s: Subst)
      ensures fresh(s) && s.m == m
    {
      s := new Subst();
      var keys := m.Keys;
      while keys != {}
        invariant keys <= m.Keys
        invariant s.m == map k | k in m && k !in keys :: m[k]
        decreases keys
      {
        var k :| k in keys;
        s.m := s.m[k := m[k]];
        keys := keys - {k};
      }
    }

    /** `bind`: false where the source throws "Already bound", which leaves the
        substitution as it was. */
    method Bind(v1: string, v2: string) returns (ok: bool)
      modifies this
      ensures BindResult(old(m), v1, v2) == if ok then Some(m) else None
      ensures !ok ==> m == old(m)
    {
      if v1 in m && m[v1] != "" && m[v1] != v2 {
        return false;
      }
      var keys := m.Keys;
      while keys != {}
        invariant keys <= m.Keys
        invariant forall k :: k in m && k !in keys ==> !(m[k] == v2 && k != v1)
        decreases keys
      {
        var k :| k in keys;
        if m[k] == v2 && k != v1 {
          return false;
        }
        keys := keys - {k};
      }
      m := m[v1 := v2];
      return true;
    }

    /** `equal_element`: the verdict, and the substitution as the comparison
        leaves it (bindings made before a failure stay). */
    method EqualElement(e1: Ty, e2: Ty) returns (v: Verdict)
      modifies this
      ensures Outcome(v, m) == ElementMatch(old(m), e1, e2)
      decreases e1
    {
      if e1.Node? && e2.Node? {
        var len := |e1.cs|;
        if len != |e2.cs| {
          return Mismatch;
        }
        ghost var m0 := m;
        var i := 0;
        while i < len
          invariant 0 <= i <= len
          invariant ChildrenMatch(m0, e1.cs[..i], e2.cs[..i]) == Outcome(Matched, m)
        {
          var r := EqualElement(e1.cs[i], e2.cs[i]);
          ChildrenStep(m0, e1.cs, e2.cs, i);
          if r != Matched {
            ChildrenPrefix(m0, e1.cs, e2.cs, i + 1);
            return r;
          }
          i := i + 1;
        }
        assert e1.cs[..len] == e1.cs && e2.cs[..len] == e2.cs;
        return Matched;
      } else if e1.Var? && e2.Var? {
        var ok := Bind(e1.name, e2.name);
        return if ok then Matched else AlreadyBound;
      } else if e1.Node? || e2.Node? {
        return Mismatch;
      } else {
        return if e1.name == e2.name then Matched else Mismatch;
      }
    }
  }

  /** `equal_element` answers true or false, or throws "Already bound". */
  datatype Verdict = Matched | Mismatch | AlreadyBound

  datatype Outcome = Outcome(verdict: Verdict, subst: Renaming)

  /** `equal_element`: two composite nodes are compared child by child by
      position, whatever their tags; two variables are bound to each other;
      anything else is equal exactly when both are atoms of the same name. */
  function ElementMatch(s: Renaming, e1: Ty, e2: Ty): Outcome
    decreases e1
  {
    if e1.Node? && e2.Node? then
      if |e1.cs| == |e2.cs| then ChildrenMatch(s, e1.cs, e2.cs) else Outcome(Mismatch, s)
    else if e1.Var? && e2.Var? then
      match BindResult(s, e1.name, e2.name)
      case None => Outcome(AlreadyBound, s)
      case Some(s') => Outcome(Matched, s')
    else if e1.Node? || e2.Node? then Outcome(Mismatch, s)
    else Outcome(if e1.name == e2.name then Matched else Mismatch, s)
  }

  /** The loop of `equal_element` over the children: pairs compared left to
      right under the substitution left by the previous ones, stopping at the
      first that is not a match. */
  function ChildrenMatch(s: Renaming, cs1: seq<Ty>, cs2: seq<Ty>): Outcome
    requires |cs1| == |cs2|
    decreases cs1
  {
    if cs1 == [] then Outcome(Matched, s)
    else
      var o := ChildrenMatch(s, cs1[..|cs1| - 1], cs2[..|cs2| - 1]);
      if o.verdict != Matched then o
      else ElementMatch(o.subst, cs1[|cs1| - 1], cs2[|cs2| - 1])
  }

  lemma ChildrenStep(s: Renaming, cs1: seq<Ty>, cs2: seq<Ty>, i: nat)
    requires |cs1| == |cs2| && i < |cs1|
    ensures ChildrenMatch(s, cs1[..i + 1], cs2[..i + 1]) ==
      var o := ChildrenMatch(s, cs1[..i], cs2[..i]);
      if o.verdict != Matched then o else ElementMatch(o.subst, cs1[i], cs2[i])
  {
    assert cs1[..i + 1][..i] == cs1[..i];
    assert cs2[..i + 1][..i] == cs2[..i];
  }

  /** Once a prefix of the pairs fails, so does the whole list, with the same
      outcome. */
  lemma {:induction false} ChildrenPrefix(s: Renaming, cs1: seq<Ty>, cs2: seq<Ty>, i: nat)
    requires |cs1| == |cs2| && i <= |cs1|
    requires ChildrenMatch(s, cs1[..i], cs2[..i]).verdict != Matched
    ensures ChildrenMatch(s, cs1, cs2) == ChildrenMatch(s, cs1[..i], cs2[..i])
    decreases |cs1|
  {
    if i < |cs1| {
      var n := |cs1| - 1;
      assert cs1[..n][..i] == cs1[..i];
      assert cs2[..n][..i] == cs2[..i];
      ChildrenPrefix(s, cs1[..n], cs2[..n], i);
    } else {
      assert cs1[..i] == cs1 && cs2[..i] == cs2;
    }
  }

  // ---------------------------------------------------------------------
  // What a comparison does to the substitution.

  /** The variables of a type all have non-empty names. */
  ghost predicate Named(t: Ty)
  {
    "" !in VarSet(t)
  }

  lemma ChildVars(t: Ty, i: nat)
    requires t.Node? && i < |t.cs|
    ensures VarSet(t.cs[i]) <= VarSet(t)
  {
    forall v | v in VarSet(t.cs[i])
      ensures v in VarSet(t)
    {
      assert v in VarSet(t.cs[i]);
    }
  }

  /** `s2` keeps every entry of `s1`. */
  ghost predicate Extends(s2: Renaming, s1: Renaming)
  {
    forall k :: k in s1 ==> k in s2 && s2[k] == s1[k]
  }

  /** A comparison only adds entries, and keeps the substitution injective and
      truthy; the entries it adds rename variables of `e1` to variables of
      `e2`. This holds whatever the verdict. */
  lemma {:induction false} ElementMatchExtends(s: Renaming, e1: Ty, e2: Ty)
    requires Injective(s) && Truthy(s) && Named(e2)
    ensures var o := ElementMatch(s, e1, e2);
      && Injective(o.subst) && Truthy(o.subst) && Extends(o.subst, s)
      && o.subst.Keys <= s.Keys + VarSet(e1)
      && o.subst.Values <= s.Values + VarSet(e2)
    decreases e1
  {
    if e1.Node? && e2.Node? {
      if |e1.cs| == |e2.cs| {
        forall i | 0 <= i < |e2.cs|
          ensures Named(e2.cs[i])
        {
          ChildVars(e2, i);
        }
        ChildrenMatchExtends(s, e1, e2, |e1.cs|);
        assert e1.cs[..|e1.cs|] == e1.cs && e2.cs[..|e2.cs|] == e2.cs;
      }
    } else if e1.Var? && e2.Var? {
      BindInjective(s, e1.name, e2.name);
      var r := BindResult(s, e1.name, e2.name);
      if r.Some? {
        if e1.name in s {
          assert s[e1.name] in s.Values;
        }
        forall x | x in r.value.Values
          ensures x in s.Values + VarSet(e2)
        {
          var k :| k in r.value && r.value[k] == x;
          if k != e1.name {
            assert s[k] == x;
          }
        }
      }
    }
  }

  lemma {:induction false} ChildrenMatchExtends(s: Renaming, e1: Ty, e2: Ty, i: nat)
    requires e1.Node? && e2.Node? && |e1.cs| == |e2.cs| && i <= |e1.cs|
    requires Injective(s) && Truthy(s)
    requires forall j :: 0 <= j < |e2.cs| ==> Named(e2.cs[j])
    ensures var o := ChildrenMatch(s, e1.cs[..i], e2.cs[..i]);
      && Injective(o.subst) && Truthy(o.subst) && Extends(o.subst, s)
      && o.subst.Keys <= s.Keys + VarSet(e1)
      && o.subst.Values <= s.Values + VarSet(e2)
    decreases e1, i
  {
    if i > 0 {
      ChildrenMatchExtends(s, e1, e2, i - 1);
      ChildrenStep(s, e1.cs, e2.cs, i - 1);
      var o := ChildrenMatch(s, e1.cs[..i - 1], e2.cs[..i - 1]);
      if o.verdict == Matched {
        ElementMatchExtends(o.subst, e1.cs[i - 1], e2.cs[i - 1]);
        ChildVars(e1, i - 1);
        ChildVars(e2, i - 1);
      }
    }
  }

  // ---------------------------------------------------------------------
  // Coordinates and normal forms.

  /** The entries of `p` index `c`. */
  predicate Indexes(p: seq<int>, c: seq<Ty>)
  {
    forall j :: 0 <= j < |p| ==> 0 <= p[j] < |c|
  }

  /** The elements of `c` at the positions `p` lists, in that order. */
  function Pick(c: seq<Ty>, p: seq<int>): (r: seq<Ty>)
    requires Indexes(p, c)
    ensures |r| == |p| && forall j :: 0 <= j < |p| ==> r[j] == c[p[j]]
  {
    seq(|p|, j requires 0 <= j < |p| => c[p[j]])
  }

  /** With the return types matched under `s`, the parameters of `c1`, in
      order, match those of `c2` reordered by the permutation `p`. */
  ghost predicate ParamsMatch(s: Renaming, c1: Coordinate, c2: Coordinate, p: seq<int>)
    requires |c1| == |c2| > 0
  {
    && IsPermutation(p, |c1| - 1)
    && (PermutationIndices(p, |c1| - 1);
        ChildrenMatch(s, c1[..|c1| - 1], Pick(c2, p)).verdict == Matched)
  }

  /** `equal_coordinate`: the same length and either both empty, or the return
      types match under an empty substitution and then, starting from what that
      left, the parameters match under some permutation. */
  ghost predicate CoordinatesMatch(c1: Coordinate, c2: Coordinate)
  {
    && |c1| == |c2|
    && (|c1| == 0 ||
        var anchor := ElementMatch(map[], c1[|c1| - 1], c2[|c2| - 1]);
        && anchor.verdict == Matched
        && exists p :: ParamsMatch(anchor.subst, c1, c2, p))
  }

  /** Every coordinate of `t1` matches the coordinate of `t2` that the
      permutation `p` pairs it with. */
  ghost predicate CoordinatesPaired(t1: NormalForm, t2: NormalForm, p: seq<int>)
    requires |t1| == |t2|
  {
    && IsPermutation(p, |t1|)
    && (PermutationIndices(p, |t1|);
        forall j :: 0 <= j < |t1| ==> CoordinatesMatch(t1[j], t2[p[j]]))
  }

  /** `equal_normal_form`: the same number of coordinates, paired up by some
      permutation. */
  ghost predicate NormalFormsMatch(t1: NormalForm, t2: NormalForm)
  {
    |t1| == |t2| && exists p :: CoordinatesPaired(t1, t2, p)
  }

  /** One round of the loop in `equal_coordinate`: the parameters compared in
      order against those `q` picks, under a fresh copy of `subst`, until one
      pair fails or throws. */
  method MatchParams(subst: Subst, c1: Coordinate, c2: Coordinate, q: seq<int>) returns (ok: bool)
    requires |c1| == |c2| > 0 && IsPermutation(q, |c1| - 1)
    ensures ok == ParamsMatch(subst.m, c1, c2, q)
  {
    var len := |c1|;
    PermutationIndices(q, len - 1);
    ghost var anchor := subst.m;
    ghost var pick := Pick(c2, q);
    ghost var params := c1[..len - 1];
    var j := 0;
    var s := subst.Copy();
    var going := true;
    while going && j < len - 1
      invariant 0 <= j <= len - 1
      invariant going ==> ChildrenMatch(anchor, params[..j], pick[..j]) == Outcome(Matched, s.m)
      invariant !going ==> j < len - 1 && ChildrenMatch(anchor, params[..j + 1], pick[..j + 1]).verdict != Matched
      decreases len - 1 - j, going
    {
      var w := s.EqualElement(c1[j], c2[q[j]]);
      ChildrenStep(anchor, params, pick, j);
      if w == Matched {
        j := j + 1;
      } else {
        going := false;
      }
    }
    if j == len - 1 {
      assert params[..j] == params && pick[..j] == pick;
      return true;
    }
    ChildrenPrefix(anchor, params, pick, j + 1);
    return false;
  }

  /** `equal_coordinate`, which tries the permutations of the parameters in
      turn, each from a fresh copy of the substitution the return types left. */
  method EqualCoordinate(c1: Coordinate, c2: Coordinate) returns (r: bool)
    ensures r == CoordinatesMatch(c1, c2)
  {
    var len := |c1|;
    if len != |c2| {
      return false;
    }
    if len == 0 {
      return true;
    }
    var subst := new Subst();
    var v := subst.EqualElement(c1[len - 1], c2[len - 1]);
    if v != Matched {
      return false;
    }
    if len == 1 {
      assert IsPermutation([], 0);
      assert ParamsMatch(subst.m, c1, c2, []);
      return true;
    }
    ghost var anchor := subst.m;
    var p := Permutations(len - 1);
    var n := |p|;
    for i := 0 to n
      invariant subst.m == anchor
      invariant forall i' :: 0 <= i' < i ==> !ParamsMatch(subst.m, c1, c2, p[i'])
    {
      PermutationsExactly(len - 1, p[i]);
      var ok := MatchParams(subst, c1, c2, p[i]);
      if ok {
        assert ParamsMatch(anchor, c1, c2, p[i]);
        return true;
      }
    }
    forall q | IsPermutation(q, len - 1)
      ensures !ParamsMatch(subst.m, c1, c2, q)
    {
      PermutationsExactly(len - 1, q);
      assert q in p;
    }
    return false;
  }

  /** One round of the loop in `equal_normal_form`: the coordinates compared
      in order against those `q` picks, until one pair fails. */
  method PairCoordinates(t1: NormalForm, t2: NormalForm, q: seq<int>) returns (ok: bool)
    requires |t1| == |t2| && IsPermutation(q, |t1|)
    ensures ok == CoordinatesPaired(t1, t2, q)
  {
    var len := |t1|;
    PermutationIndices(q, len);
    var j := 0;
    ok := true;
    while ok && j < len
      invariant 0 <= j <= len
      invariant ok ==> forall j' :: 0 <= j' < j ==> CoordinatesMatch(t1[j'], t2[q[j']])
      invariant !ok ==> j < len && !CoordinatesMatch(t1[j], t2[q[j]])
      decreases len - j, ok
    {
      ok := EqualCoordinate(t1[j], t2[q[j]]);
      if ok {
        j := j + 1;
      }
    }
  }

  /** `equal_normal_form`, which tries the permutations of the coordinates in
      turn. */
  method EqualNormalForm(t1: NormalForm, t2: NormalForm) returns (r: bool)
    ensures r == NormalFormsMatch(t1, t2)
  {
    var len := |t1|;
    if len != |t2| {
      return false;
    }
    if len == 0 {
      assert IsPermutation([], 0);
      assert CoordinatesPaired(t1, t2, []);
      return true;
    }
    var p := Permutations(len);
    var n := |p|;
    for i := 0 to n
      invariant forall i' :: 0 <= i' < i ==> !CoordinatesPaired(t1, t2, p[i'])
    {
      PermutationsExactly(len, p[i]);
      var ok := PairCoordinates(t1, t2, p[i]);
      if ok {
        return true;
      }
    }
    forall q | IsPermutation(q, len)
      ensures !CoordinatesPaired(t1, t2, q)
    {
      PermutationsExactly(len, q);
      assert q in p;
    }
    return false;
  }

  // ---------------------------------------------------------------------
  // Reflexivity.

  /** Every variable is renamed to itself. */
  ghost predicate IdentityOn(s: Renaming)
  {
    forall k :: k in s ==> s[k] == k
  }

  /** A type matches itself under a substitution that renames variables to
      themselves, and the substitution stays so. */
  lemma {:induction false} ElementMatchSelf(s: Renaming, e: Ty)
    requires IdentityOn(s)
    ensures ElementMatch(s, e, e).verdict == Matched
    ensures IdentityOn(ElementMatch(s, e, e).subst)
    decreases e
  {
    if e.Node? {
      ChildrenMatchSelf(s, e.cs);
    }
  }

  lemma {:induction false} ChildrenMatchSelf(s: Renaming, cs: seq<Ty>)
    requires IdentityOn(s)
    ensures ChildrenMatch(s, cs, cs).verdict == Matched
    ensures IdentityOn(ChildrenMatch(s, cs, cs).subst)
    decreases cs
  {
    if cs != [] {
      var n := |cs| - 1;
      ChildrenMatchSelf(s, cs[..n]);
      ElementMatchSelf(ChildrenMatch(s, cs[..n], cs[..n]).subst, cs[n]);
    }
  }

  lemma IdentityPermutation(n: nat)
    ensures IsPermutation(Range(n), n)
  {
  }

  /** Every coordinate matches itself. */
  lemma CoordinateSelf(c: Coordinate)
    ensures CoordinatesMatch(c, c)
  {
    if |c| > 0 {
      var n := |c| - 1;
      ElementMatchSelf(map[], c[n]);
      var anchor := ElementMatch(map[], c[n], c[n]);
      IdentityPermutation(n);
      PermutationIndices(Range(n), n);
      assert Pick(c, Range(n)) == c[..n];
      ChildrenMatchSelf(anchor.subst, c[..n]);
      assert ParamsMatch(anchor.subst, c, c, Range(n));
    }
  }

  /** Every normal form is equal to itself. */
  lemma NormalFormSelf(t: NormalForm)
    ensures NormalFormsMatch(t, t)
  {
    var n := |t|;
    IdentityPermutation(n);
    PermutationIndices(Range(n), n);
    forall j | 0 <= j < n
      ensures CoordinatesMatch(t[j], t[Range(n)[j]])
    {
      CoordinateSelf(t[j]);
    }
    assert CoordinatesPaired(t, t, Range(n));
  }

  // ---------------------------------------------------------------------
  // Examples.

  lemma OnePermutation(q: seq<int>)
    requires IsPermutation(q, 1)
    ensures q == [0]
  {
    PermutationIndices(q, 1);
  }

  lemma SmallPermutations()
    ensures IsPermutation([0], 1)
    ensures IsPermutation([1, 0], 2)
    ensures IsPermutation([0, 1], 2)
  {
    assert Range(1) == [0];
    assert Range(2) == [0, 1];
  }

  /** `'a -> 'a` is equal to `'b -> 'b`: variables are renamed. */
  lemma RenamedVariables()
    ensures var nf1, nf2 := NormalFormOf(Node(Arrow, [Var("'a"), Var("'a")])),
                            NormalFormOf(Node(Arrow, [Var("'b"), Var("'b")]));
      nf1.Some? && nf2.Some? && NormalFormsMatch(nf1.value, nf2.value)
  {
    SimpleArrow(Var("'a"), Var("'a"));
    SimpleArrow(Var("'b"), Var("'b"));
    RenamedVariablesForms();
  }

  /** The normal forms of `RenamedVariables` match. */
  lemma RenamedVariablesForms()
    ensures NormalFormsMatch([[Var("'a"), Var("'a")]], [[Var("'b"), Var("'b")]])
  {
    var c1, c2 := [Var("'a"), Var("'a")], [Var("'b"), Var("'b")];
    SmallPermutations();
    var anchor := ElementMatch(map[], c1[1], c2[1]);
    assert anchor == Outcome(Matched, map["'a" := "'b"]);
    assert Pick(c2, [0]) == [Var("'b")];
    assert c1[..1] == [Var("'a")];
    assert ParamsMatch(anchor.subst, c1, c2, [0]);
    assert CoordinatesPaired([c1], [c2], [0]);
  }

  /** `'a -> 'b` is not equal to `'a -> 'a`: the renaming must be injective. */
  lemma RenamingIsInjective()
    ensures var nf1, nf2 := NormalFormOf(Node(Arrow, [Var("'a"), Var("'b")])),
                            NormalFormOf(Node(Arrow, [Var("'a"), Var("'a")]));
      nf1.Some? && nf2.Some? && !NormalFormsMatch(nf1.value, nf2.value)
  {
    SimpleArrow(Var("'a"), Var("'b"));
    SimpleArrow(Var("'a"), Var("'a"));
    RenamingIsInjectiveForms();
  }

  /** The normal forms of `RenamingIsInjective` do not match. */
  lemma RenamingIsInjectiveForms()
    ensures !NormalFormsMatch([[Var("'a"), Var("'b")]], [[Var("'a"), Var("'a")]])
  {
    var c1, c2 := [Var("'a"), Var("'b")], [Var("'a"), Var("'a")];
    var anchor := ElementMatch(map[], c1[1], c2[1]);
    assert anchor == Outcome(Matched, map["'b" := "'a"]);
    assert c1[..1] == [Var("'a")];
    forall q | IsPermutation(q, 1)
      ensures !ParamsMatch(anchor.subst, c1, c2, q)
    {
      OnePermutation(q);
      var m := anchor.subst;
      assert Pick(c2, q) == [Var("'a")];
      assert "'b" in m && "'b" != "'a" && m["'b"] == "'a";
      assert BindResult(m, "'a", "'a") == None;
      ChildrenStep(m, [Var("'a")], [Var("'a")], 0);
      assert [Var("'a")][..1] == [Var("'a")];
      assert [Var("'a")][..0] == [];
    }
    assert !CoordinatesMatch(c1, c2);
    forall q | IsPermutation(q, 1)
      ensures !CoordinatesPaired([c1], [c2], q)
    {
      OnePermutation(q);
    }
  }

  /** `a -> b -> c` is equal to `b -> a -> c`: parameters are reordered. */
  lemma ReorderedParameters()
    ensures var a, b, c := Ident("a"), Ident("b"), Ident("c");
      var nf1, nf2 := NormalFormOf(Node(Arrow, [a, Node(Arrow, [b, c])])),
                      NormalFormOf(Node(Arrow, [b, Node(Arrow, [a, c])]));
      nf1.Some? && nf2.Some? && NormalFormsMatch(nf1.value, nf2.value)
  {
    Currying(Ident("a"), Ident("b"), Ident("c"));
    Currying(Ident("b"), Ident("a"), Ident("c"));
    ReorderedParametersForms();
  }

  /** The normal forms of `ReorderedParameters` match. */
  lemma ReorderedParametersForms()
    ensures NormalFormsMatch([[Ident("a"), Ident("b"), Ident("c")]],
                             [[Ident("b"), Ident("a"), Ident("c")]])
  {
    var c1, c2 := [Ident("a"), Ident("b"), Ident("c")], [Ident("b"), Ident("a"), Ident("c")];
    SmallPermutations();
    var anchor := ElementMatch(map[], c1[2], c2[2]);
    assert anchor == Outcome(Matched, map[]);
    assert Pick(c2, [1, 0]) == [Ident("a"), Ident("b")] == c1[..2];
    ChildrenMatchSelf(map[], c1[..2]);
    assert ParamsMatch(anchor.subst, c1, c2, [1, 0]);
    assert CoordinatesPaired([c1], [c2], [0]);
  }

  /** `(a * b) list` is equal to `(a -> b) list`: a composite node is compared by
      its children alone, whatever its tag. */
  lemma TagsIgnored()
    ensures var a, b, list := Ident("a"), Ident("b"), Ident("list");
      ElementMatch(map[], Node(TypeApp, [Node(Product, [a, b]), list]),
                          Node(TypeApp, [Node(Arrow, [a, b]), list])).verdict == Matched
  {
    var a, b, list := Ident("a"), Ident("b"), Ident("list");
    var p, q := Node(Product, [a, b]), Node(Arrow, [a, b]);
    assert ChildrenMatch(map[], [a, b], [a, b]).verdict == Matched by {
      ChildrenMatchSelf(map[], [a, b]);
    }
    assert ElementMatch(map[], p, q) == ChildrenMatch(map[], [a, b], [a, b]);
    ChildrenStep(map[], [p, list], [q, list], 0);
    ChildrenStep(map[], [p, list], [q, list], 1);
    assert [p, list][..2] == [p, list] && [q, list][..2] == [q, list];
    assert [p, list][..1] == [p] && [q, list][..1] == [q];
    assert [p, list][..0] == [];
  }

  /** `'a * 'a` is equal to `'a * 'b`: each coordinate starts from an empty
      substitution, so variables are not shared between coordinates. */
  lemma CoordinatesRenamedApart()
    ensures var nf1, nf2 := NormalFormOf(Node(Product, [Var("'a"), Var("'a")])),
                            NormalFormOf(Node(Product, [Var("'a"), Var("'b")]));
      nf1.Some? && nf2.Some? && NormalFormsMatch(nf1.value, nf2.value)
  {
    SimpleProduct(Var("'a"), Var("'a"));
    SimpleProduct(Var("'a"), Var("'b"));
    CoordinatesRenamedApartForms();
  }

  /** The normal forms of `CoordinatesRenamedApart` match. */
  lemma CoordinatesRenamedApartForms()
    ensures NormalFormsMatch([[Var("'a")], [Var("'a")]], [[Var("'a")], [Var("'b")]])
  {
    var a, b := Var("'a"), Var("'b");
    SmallPermutations();
    ElementMatchSelf(map[], a);
    assert ElementMatch(map[], a, b).verdict == Matched;
    assert IsPermutation([], 0);
    assert ParamsMatch(ElementMatch(map[], a, a).subst, [a], [a], []);
    assert ParamsMatch(ElementMatch(map[], a, b).subst, [a], [b], []);
    assert CoordinatesMatch([a], [a]) && CoordinatesMatch([a], [b]);
    assert CoordinatesPaired([[a], [a]], [[a], [b]], [0, 1]);
  }
}
