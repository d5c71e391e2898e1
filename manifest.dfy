/** Manifests (type abbreviations) and their expansion: a type application
    naming a recorded manifest has its name replaced by the manifest's body,
    rewritten with the manifest's formal parameters bound to the actual
    arguments. */
module Manifests {
  import opened Types

  /** A recorded manifest: the type's name, its parsed declaration (such as
      `'a t` or `('a, 'b) t`), and its parsed body. */
  datatype Manifest = Manifest(typeName: string, decl: Ty, body: Ty)

  /** The table of recorded manifests, keyed by type name. */
  type Table = map<string, Manifest>

  /** The global `manifests` table. */
  class ManifestTable {
    var manifests: Table

    constructor ()
      ensures manifests == map[]
    {
      manifests := map[];
    }

    /** `add_manifest(n, f, t)`: records the manifest when both texts parse;
        a text that does not parse makes the source throw, and the manifest is
        ignored. */
    method AddManifest(parse: string -> Option<Ty>, n: string, f: string, t: string)
      modifies this
      ensures parse(f).Some? && parse(t).Some? ==>
        manifests == old(manifests)[n := Manifest(n, parse(f).value, parse(t).value)]
      ensures parse(f).None? || parse(t).None? ==> manifests == old(manifests)
    {
      var decl := parse(f);
      if decl.None? {
        return;
      }
      var body := parse(t);
      if body.None? {
        return;
      }
      manifests := manifests[n := Manifest(n, decl.value, body.value)];
    }

    /** `rewrite_manifests_aux(t, subst)` against this table. */
    method RewriteAux(ghost rank: map<string, nat>, ghost bound: nat, t: Ty, subst: map<string, Ty>)
        returns (r: Ty)
      requires Acyclic(manifests, rank) && Below(manifests, rank, t, bound)
      ensures r == Rewrite(manifests, rank, bound, t, subst)
      decreases bound, t, 1
    {
      match t
      case Var(v) =>
        r := if v in subst then subst[v] else t;
      case Ident(n) =>
        r := if n in manifests then manifests[n].body else t;
      case Node(k, cs) =>
        if k == OptionalParameter || (k == TypeApp && |cs| == 0) {
          return t;
        }
        var len := if k == TypeApp then |cs| - 1 else |cs|;
        var res := RewriteChildren(rank, bound, t, len, subst);
        if k != TypeApp {
          assert cs[..len] == cs;
          return Node(k, res);
        }
        var name := cs[|cs| - 1];
        if name.Node? || name.name !in manifests {
          return Node(k, res + [name]);
        }
        var m := manifests[name.name];
        var s := BindFormals(subst, m.decl, cs[0]);
        var body := RewriteAux(rank, rank[name.name], m.body, s);
        r := Node(k, res + [body]);
    }

    /** The loop of `rewrite_manifests_aux` over the first `len` children of a
        composite node. */
    method RewriteChildren(ghost rank: map<string, nat>, ghost bound: nat, t: Ty, len: nat,
                           subst: map<string, Ty>) returns (res: seq<Ty>)
      requires Acyclic(manifests, rank) && Below(manifests, rank, t, bound)
      requires t.Node? && len <= |t.cs|
      ensures res == RewriteAll(manifests, rank, bound, t.cs[..len], subst)
      decreases bound, t, 0
    {
      res := [];
      for i := 0 to len
        invariant res == RewriteAll(manifests, rank, bound, t.cs[..i], subst)
      {
        var x := RewriteAux(rank, bound, t.cs[i], subst);
        RewriteAllStep(manifests, rank, bound, t.cs, subst, i);
        res := res + [x];
      }
    }

    /** `rewrite_manifests(t)`: rewriting from an empty substitution. */
    method RewriteManifests(ghost rank: map<string, nat>, ghost top: nat, t: Ty) returns (r: Ty)
      requires Acyclic(manifests, rank) && Bounded(manifests, rank, top)
      ensures r == Expand(manifests, rank, top, t)
    {
      BoundedBelow(manifests, rank, top, t);
      r := RewriteAux(rank, top, t, map[]);
    }
  }

  // ---------------------------------------------------------------------
  // Termination: the table must not be cyclic.

  /** Every manifest a type application in `t` names (by an atom in its last
      slot) has a rank below `bound`. */
  ghost predicate Below(table: Table, rank: map<string, nat>, t: Ty, bound: nat)
    decreases t
  {
    match t
    case Node(k, cs) =>
      && (k == TypeApp && |cs| > 0 && !cs[|cs| - 1].Node? && cs[|cs| - 1].name in table ==>
          cs[|cs| - 1].name in rank && rank[cs[|cs| - 1].name] < bound)
      && forall i :: 0 <= i < |cs| ==> Below(table, rank, cs[i], bound)
    case _ => true
  }

  /** `rank` witnesses that the table is acyclic: the body of every manifest
      only applies manifests of lower rank. */
  ghost predicate Acyclic(table: Table, rank: map<string, nat>)
  {
    forall n :: n in table ==> n in rank && Below(table, rank, table[n].body, rank[n])
  }

  /** Every manifest has a rank below `top`. */
  ghost predicate Bounded(table: Table, rank: map<string, nat>, top: nat)
  {
    forall n :: n in table ==> n in rank && rank[n] < top
  }

  lemma {:induction false} BoundedBelow(table: Table, rank: map<string, nat>, top: nat, t: Ty)
    requires Bounded(table, rank, top)
    ensures Below(table, rank, t, top)
    decreases t
  {
    if t.Node? {
      forall i | 0 <= i < |t.cs|
        ensures Below(table, rank, t.cs[i], top)
      {
        BoundedBelow(table, rank, top, t.cs[i]);
      }
    }
  }

  // ---------------------------------------------------------------------
  // Binding formal parameters.

  /** The formal parameters `rewrite_manifests_aux` reads from a declaration
      through `type_decl[0]`: the atoms of a composite first child, in order
      (a composite among them names no variable, here None); or the name of an
      atom first child; or the first character of an atom declaration. A
      missing first child or character reads as the key "undefined". */
  datatype Formals = Positional(keys: seq<Option<string>>) | Whole(key: string)

  function FormalsOf(decl: Ty): Formals
  {
    match decl
    case Node(_, cs) =>
      if |cs| == 0 then Whole("undefined")
      else if cs[0].Node? then
        Positional(seq(|cs[0].cs|, i requires 0 <= i < |cs[0].cs| =>
          if cs[0].cs[i].Node? then None else Some(cs[0].cs[i].name)))
      else Whole(cs[0].name)
    case _ => Whole(if |decl.name| > 0 then [decl.name[0]] else "undefined")
  }

  /** `t[0][i]`: the i-th child of a composite argument, or the i-th character
      of an atom argument as an atom; None where that is undefined. */
  function Actual(arg: Ty, i: nat): Option<Ty>
  {
    match arg
    case Node(_, cs) => if i < |cs| then Some(cs[i]) else None
    case _ => if i < |arg.name| then Some(AtomOf([arg.name[i]])) else None
  }

  /** The loop binding the positional formals in order; binding a formal to
      an undefined actual leaves it unbound. */
  function BindActuals(subst: map<string, Ty>, keys: seq<Option<string>>, arg: Ty): map<string, Ty>
    decreases |keys|
  {
    if keys == [] then subst
    else
      var i := |keys| - 1;
      var m := BindActuals(subst, keys[..i], arg);
      match keys[i]
      case None => m
      case Some(k) =>
        match Actual(arg, i)
        case Some(a) => m[k := a]
        case None => m - {k}
  }

  /** The substitution a manifest body is rewritten under: a copy of the
      ambient one with the formals bound to the application's first slot. */
  function Extend(subst: map<string, Ty>, formals: Formals, arg: Ty): map<string, Ty>
  {
    match formals
    case Whole(k) => subst[k := arg]
    case Positional(keys) => BindActuals(subst, keys, arg)
  }

  lemma BindActualsStep(subst: map<string, Ty>, keys: seq<Option<string>>, arg: Ty, i: nat)
    requires i < |keys|
    ensures BindActuals(subst, keys[..i + 1], arg) ==
      var m := BindActuals(subst, keys[..i], arg);
      match keys[i]
      case None => m
      case Some(k) =>
        match Actual(arg, i)
        case Some(a) => m[k := a]
        case None => m - {k}
  {
    assert keys[..i + 1][..i] == keys[..i];
  }

  /** Copies the ambient substitution and binds the formals, in a loop for
      positional ones. */
  method BindFormals(subst: map<string, Ty>, decl: Ty, arg: Ty) returns (s: map<string, Ty>)
    ensures s == Extend(subst, FormalsOf(decl), arg)
  {
    s := subst;
    match FormalsOf(decl)
    case Whole(k) =>
      s := s[k := arg];
    case Positional(keys) =>
      for i := 0 to |keys|
        invariant s == BindActuals(subst, keys[..i], arg)
      {
        BindActualsStep(subst, keys, arg, i);
        match keys[i]
        case None =>
        case Some(k) =>
          var a := Actual(arg, i);
          if a.Some? {
            s := s[k := a.value];
          } else {
            s := s - {k};
          }
      }
      assert keys[..|keys|] == keys;
  }

  /** A positional formal is bound to the actual at the position where it last
      occurs, and is unbound when that actual is undefined. */
  lemma {:induction false} BindActualsLast(subst: map<string, Ty>, keys: seq<Option<string>>, arg: Ty, i: nat, k: string)
    requires i < |keys| && keys[i] == Some(k)
    requires forall j :: i < j < |keys| ==> keys[j] != Some(k)
    ensures Actual(arg, i).Some? ==>
      k in BindActuals(subst, keys, arg) && BindActuals(subst, keys, arg)[k] == Actual(arg, i).value
    ensures Actual(arg, i).None? ==> k !in BindActuals(subst, keys, arg)
    decreases |keys|
  {
    if i < |keys| - 1 {
      var n := |keys| - 1;
      assert keys[..n][i] == keys[i];
      BindActualsLast(subst, keys[..n], arg, i, k);
    } else {
      assert keys[..i + 1] == keys;
      BindActualsStep(subst, keys, arg, i);
    }
  }

  /** A variable that is not a positional formal keeps its ambient binding. */
  lemma {:induction false} BindActualsOther(subst: map<string, Ty>, keys: seq<Option<string>>, arg: Ty, k: string)
    requires forall j :: 0 <= j < |keys| ==> keys[j] != Some(k)
    ensures k in BindActuals(subst, keys, arg) <==> k in subst
    ensures k in subst ==> BindActuals(subst, keys, arg)[k] == subst[k]
    decreases |keys|
  {
    if keys != [] {
      var n := |keys| - 1;
      assert forall j :: 0 <= j < n ==> keys[..n][j] == keys[j];
      BindActualsOther(subst, keys[..n], arg, k);
    }
  }

  // ---------------------------------------------------------------------
  // Rewriting.

  /** `rewrite_manifests_aux(t, subst)`. A variable becomes its binding, if
      any. An identifier naming a manifest becomes the manifest's body, not
      rewritten further. Products, arrows, type lists and flattened nodes are
      rewritten child by child. A type application keeps its argument slots,
      rewritten, and its name slot, unless that names a manifest: then the slot
      becomes the manifest's body rewritten under the ambient substitution
      extended with the formals bound to the application's (unrewritten) first
      slot. Optional parameters are returned as they are. */
  function Rewrite(table: Table, ghost rank: map<string, nat>, ghost bound: nat, t: Ty,
                   subst: map<string, Ty>): Ty
    requires Acyclic(table, rank) && Below(table, rank, t, bound)
    decreases bound, t
  {
    match t
    case Var(v) => if v in subst then subst[v] else t
    case Ident(n) => if n in table then table[n].body else t
    case Node(k, cs) =>
      if k == OptionalParameter then t
      else if k != TypeApp then Node(k, RewriteAll(table, rank, bound, cs, subst))
      else if |cs| == 0 then t
      else
        var args := RewriteAll(table, rank, bound, cs[..|cs| - 1], subst);
        var name := cs[|cs| - 1];
        if name.Node? || name.name !in table then Node(k, args + [name])
        else
          var m := table[name.name];
          Node(k, args + [Rewrite(table, rank, rank[name.name], m.body,
                                  Extend(subst, FormalsOf(m.decl), cs[0]))])
  }

  /** `rewrite_manifests(t)`: rewriting from the empty substitution. */
  function Expand(table: Table, ghost rank: map<string, nat>, ghost top: nat, t: Ty): Ty
    requires Acyclic(table, rank) && Bounded(table, rank, top)
  {
    BoundedBelow(table, rank, top, t);
    Rewrite(table, rank, top, t, map[])
  }

  /** The children rewritten one by one under the same substitution. */
  function RewriteAll(table: Table, ghost rank: map<string, nat>, ghost bound: nat, cs: seq<Ty>,
                      subst: map<string, Ty>): (r: seq<Ty>)
    requires Acyclic(table, rank)
    requires forall i :: 0 <= i < |cs| ==> Below(table, rank, cs[i], bound)
    ensures |r| == |cs|
    decreases bound, cs
  {
    if cs == [] then []
    else
      RewriteAll(table, rank, bound, cs[..|cs| - 1], subst)
        + [Rewrite(table, rank, bound, cs[|cs| - 1], subst)]
  }

  lemma RewriteAllStep(table: Table, rank: map<string, nat>, bound: nat, cs: seq<Ty>,
                       subst: map<string, Ty>, i: nat)
    requires Acyclic(table, rank)
    requires forall j :: 0 <= j < |cs| ==> Below(table, rank, cs[j], bound)
    requires i < |cs|
    ensures RewriteAll(table, rank, bound, cs[..i + 1], subst)
         == RewriteAll(table, rank, bound, cs[..i], subst) + [Rewrite(table, rank, bound, cs[i], subst)]
  {
    assert cs[..i + 1][..i] == cs[..i];
  }

  lemma {:induction false} RewriteAllAt(table: Table, rank: map<string, nat>, bound: nat, cs: seq<Ty>,
                                        subst: map<string, Ty>, i: nat)
    requires Acyclic(table, rank)
    requires forall j :: 0 <= j < |cs| ==> Below(table, rank, cs[j], bound)
    requires i < |cs|
    ensures RewriteAll(table, rank, bound, cs, subst)[i] == Rewrite(table, rank, bound, cs[i], subst)
    decreases |cs|
  {
    if i < |cs| - 1 {
      var n := |cs| - 1;
      assert cs[..n][i] == cs[i];
      RewriteAllAt(table, rank, bound, cs[..n], subst, i);
    }
  }

  // ---------------------------------------------------------------------
  // Properties.

  /** Nothing in `t` that rewriting visits refers to the table or to the
      substitution. */
  ghost predicate Untouched(table: Table, subst: map<string, Ty>, t: Ty)
    decreases t
  {
    match t
    case Var(v) => v !in subst
    case Ident(n) => n !in table
    case Node(k, cs) =>
      && (k == TypeApp && |cs| > 0 && !cs[|cs| - 1].Node? ==> cs[|cs| - 1].name !in table)
      && forall i :: 0 <= i < |cs| ==> Untouched(table, subst, cs[i])
  }

  /** A type that refers to no manifest and to no bound variable is rewritten
      to itself; in particular so is any manifest-free type under the empty
      substitution. */
  lemma {:induction false} RewriteIdentity(table: Table, rank: map<string, nat>, bound: nat, t: Ty,
                                           subst: map<string, Ty>)
    requires Acyclic(table, rank) && Below(table, rank, t, bound)
    requires Untouched(table, subst, t)
    ensures Rewrite(table, rank, bound, t, subst) == t
    decreases t
  {
    if t.Node? && t.k != OptionalParameter {
      if t.k != TypeApp {
        RewriteAllIdentity(table, rank, bound, t.cs, subst);
      } else if |t.cs| > 0 {
        RewriteAppIdentity(table, rank, bound, t.cs, subst);
      }
    }
  }

  /** The case of a type application in `RewriteIdentity`. */
  lemma {:induction false} RewriteAppIdentity(table: Table, rank: map<string, nat>, bound: nat, cs: seq<Ty>,
                                              subst: map<string, Ty>)
    requires Acyclic(table, rank) && Below(table, rank, Node(TypeApp, cs), bound)
    requires Untouched(table, subst, Node(TypeApp, cs)) && |cs| > 0
    ensures Rewrite(table, rank, bound, Node(TypeApp, cs), subst) == Node(TypeApp, cs)
    decreases cs
  {
    var n := |cs| - 1;
    var pre, name := cs[..n], cs[n];
    forall i | 0 <= i < n
      ensures Below(table, rank, pre[i], bound) && Untouched(table, subst, pre[i])
    {
      assert pre[i] == cs[i];
    }
    RewriteAllIdentity(table, rank, bound, pre, subst);
    assert name.Node? || name.name !in table;
    assert pre + [name] == cs;
  }

  lemma {:induction false} RewriteAllIdentity(table: Table, rank: map<string, nat>, bound: nat,
                                              cs: seq<Ty>, subst: map<string, Ty>)
    requires Acyclic(table, rank)
    requires forall i :: 0 <= i < |cs| ==> Below(table, rank, cs[i], bound)
    requires forall i :: 0 <= i < |cs| ==> Untouched(table, subst, cs[i])
    ensures RewriteAll(table, rank, bound, cs, subst) == cs
    decreases cs
  {
    var r := RewriteAll(table, rank, bound, cs, subst);
    forall i | 0 <= i < |cs|
      ensures r[i] == cs[i]
    {
      RewriteAllAt(table, rank, bound, cs, subst, i);
      RewriteIdentity(table, rank, bound, cs[i], subst);
    }
  }

  /** `rewrite_manifests` returns a type that refers to no manifest as it is. */
  lemma ExpandIdentity(table: Table, rank: map<string, nat>, top: nat, t: Ty)
    requires Acyclic(table, rank) && Bounded(table, rank, top)
    requires Untouched(table, map[], t)
    ensures Expand(table, rank, top, t) == t
  {
    BoundedBelow(table, rank, top, t);
    RewriteIdentity(table, rank, top, t, map[]);
  }

  /** The argument slots of an application are rewritten under the ambient
      substitution: the formals bound for the manifest body do not reach them. */
  lemma ArgumentsUnderAmbient(table: Table, rank: map<string, nat>, bound: nat, cs: seq<Ty>,
                              subst: map<string, Ty>, i: nat)
    requires Acyclic(table, rank) && Below(table, rank, Node(TypeApp, cs), bound)
    requires i < |cs| - 1
    ensures Rewrite(table, rank, bound, Node(TypeApp, cs), subst).cs[i]
         == Rewrite(table, rank, bound, cs[i], subst)
  {
    var n := |cs| - 1;
    assert forall j :: 0 <= j < n ==> cs[..n][j] == cs[j];
    RewriteAllAt(table, rank, bound, cs[..n], subst, i);
  }

  /** `int foo` with `'a foo` a manifest for `'a list`: the argument slot
      stays, and the name slot becomes `int list`. */
  lemma ExpandApplication()
    ensures var intT, listT, fooT, a := Ident("int"), Ident("list"), Ident("foo"), Var("'a");
      var table := map["foo" := Manifest("foo", Node(TypeApp, [a, fooT]), Node(TypeApp, [a, listT]))];
      Rewrite(table, map["foo" := 0], 1, Node(TypeApp, [intT, fooT]), map[])
        == Node(TypeApp, [intT, Node(TypeApp, [intT, listT])])
  {
    var intT, listT, fooT, a := Ident("int"), Ident("list"), Ident("foo"), Var("'a");
    var m := Manifest("foo", Node(TypeApp, [a, fooT]), Node(TypeApp, [a, listT]));
    var table := map["foo" := m];
    var rank := map["foo" := 0];
    ExpandApplicationBody(table, rank);
    var t := Node(TypeApp, [intT, fooT]);
    assert Below(table, rank, t, 1);
    var s := map["'a" := intT];
    assert FormalsOf(m.decl) == Whole("'a");
    assert Extend(map[], FormalsOf(m.decl), intT) == s;
    assert [intT, fooT][..1] == [intT] && [intT][..0] == [];
    assert RewriteAll(table, rank, 1, [intT], map[]) == [intT];
    assert Rewrite(table, rank, 1, t, map[]) == Node(TypeApp, [intT] + [Rewrite(table, rank, 0, m.body, s)]);
  }

  /** The body of the manifest in `ExpandApplication`, with `'a` bound to
      `int`. */
  lemma ExpandApplicationBody(table: Table, rank: map<string, nat>)
    requires table == map["foo" := Manifest("foo", Node(TypeApp, [Var("'a"), Ident("foo")]),
                                                    Node(TypeApp, [Var("'a"), Ident("list")]))]
    requires rank == map["foo" := 0]
    ensures Acyclic(table, rank)
    ensures Rewrite(table, rank, 0, table["foo"].body, map["'a" := Ident("int")])
         == Node(TypeApp, [Ident("int"), Ident("list")])
  {
    var a, listT := Var("'a"), Ident("list");
    assert Below(table, rank, Node(TypeApp, [a, listT]), 0);
    assert Acyclic(table, rank);
    var s := map["'a" := Ident("int")];
    assert [a, listT][..1] == [a] && [a][..0] == [];
    assert RewriteAll(table, rank, 0, [a], s) == [Ident("int")];
  }

  /** Rewriting is not idempotent: an identifier is replaced by the body of its
      manifest without rewriting that body, so a chain of manifests `a = b`,
      `b = c` takes one rewrite per link. */
  lemma NotIdempotent()
    ensures var a, b, c := Ident("a"), Ident("b"), Ident("c");
      var table := map["a" := Manifest("a", a, b), "b" := Manifest("b", b, c)];
      && Rewrite(table, map["a" := 0, "b" := 0], 0, a, map[]) == b
      && Rewrite(table, map["a" := 0, "b" := 0], 0, b, map[]) == c
  {
  }
}
