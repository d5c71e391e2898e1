/** Type expressions of the Argot type-search engine and the queries the other
    components ask of them. */
module Types {

  datatype Option<T> = None | Some(value: T)

  /** The tags of composite nodes (the KIND_* constants that are not atoms). */
  datatype Kind =
    | Product | Arrow | TypeList | TypeApp
    | FlattenedProduct | FlattenedArrow | OptionalParameter

  /** A type expression. An atom is a variable, whose name starts with a quote
      (`'a`), or an identifier (`int`). A composite node carries its tag and its
      ordered children: a product or an arrow built by the parser has two, a type
      application is `[argument, name]`, an optional parameter has one. */
  datatype Ty = Var(name: string) | Ident(name: string) | Node(k: Kind, cs: seq<Ty>)

  /** What `kind` answers: the tag of a node, or which kind of atom. */
  datatype Tag = NodeTag(kind: Kind) | VarTag | IdentTag

  function KindOf(t: Ty): Tag
  {
    match t
    case Var(_) => VarTag
    case Ident(_) => IdentTag
    case Node(k, _) => NodeTag(k)
  }

  predicate IsKind(t: Ty, k: Kind)
  {
    KindOf(t) == NodeTag(k)
  }

  /** `is_unit`: the identifier `unit`. */
  predicate IsUnit(t: Ty)
  {
    KindOf(t) == IdentTag && t.name == "unit"
  }

  /** The atom a string denotes: a variable exactly when it starts with a quote. */
  function AtomOf(s: string): Ty
  {
    if |s| > 0 && s[0] == '\'' then Var(s) else Ident(s)
  }

  /** Number of nodes and atoms, used as a termination measure. */
  function Size(t: Ty): (n: nat)
    ensures n >= 1
  {
    match t
    case Node(_, cs) => 1 + SizeAll(cs)
    case _ => 1
  }

  function SizeAll(cs: seq<Ty>): nat
  {
    if cs == [] then 0 else Size(cs[0]) + SizeAll(cs[1..])
  }

  lemma {:induction false} SizeChild(cs: seq<Ty>, i: nat)
    requires i < |cs|
    ensures Size(cs[i]) <= SizeAll(cs)
  {
    if i > 0 {
      SizeChild(cs[1..], i - 1);
    }
  }

  predicate Distinct<T(==)>(s: seq<T>)
  {
    forall i, j :: 0 <= i < j < |s| ==> s[i] != s[j]
  }

  /** `mem`: linear search of a list of names. */
  method Mem(arr: seq<string>, x: string) returns (found: bool)
    ensures found <==> x in arr
  {
    var i := 0;
    while i < |arr| && arr[i] != x
      invariant 0 <= i <= |arr|
      invariant x !in arr[..i]
    {
      i := i + 1;
    }
    found := i < |arr|;
  }

  /** The names of the variables occurring in a type. */
  ghost function VarSet(t: Ty): set<string>
    decreases t
  {
    match t
    case Var(n) => {n}
    case Ident(_) => {}
    case Node(_, cs) => set i, v | 0 <= i < |cs| && v in VarSet(cs[i]) :: v
  }

  /** `get_variables`: every variable of the type, each exactly once. */
  method GetVariables(t: Ty) returns (vs: seq<string>)
    ensures Distinct(vs)
    ensures forall v :: v in vs <==> v in VarSet(t)
    decreases t
  {
    match t
    case Var(n) =>
      vs := [n];
    case Ident(_) =>
      vs := [];
    case Node(_, cs) =>
      vs := [];
      for i := 0 to |cs|
        invariant Distinct(vs)
        invariant forall v :: v in vs <==> exists j :: 0 <= j < i && v in VarSet(cs[j])
      {
        var elems := GetVariables(cs[i]);
        for j := 0 to |elems|
          invariant Distinct(vs)
          invariant forall v :: v in vs <==>
            (exists j' :: 0 <= j' < i && v in VarSet(cs[j'])) || v in elems[..j]
        {
          var present := Mem(vs, elems[j]);
          if !present {
            vs := vs + [elems[j]];
          }
        }
      }
  }

  /** `separator_of_kind`. */
  function Separator(k: Kind): string
  {
    match k
    case Product => " * "
    case Arrow => " -> "
    case TypeList => ", "
    case TypeApp => " "
    case FlattenedProduct => " & "
    case FlattenedArrow => " => "
    case OptionalParameter => " "
  }

  function Opening(k: Kind): string
  {
    if k == OptionalParameter then "[" else "("
  }

  function Closing(k: Kind): string
  {
    if k == OptionalParameter then "]" else ")"
  }

  /** The printed form of a type: an atom is its name; a node is its children,
      separated by the separator of its kind, between brackets. */
  function Show(t: Ty): string
    decreases t
  {
    match t
    case Var(n) => n
    case Ident(n) => n
    case Node(k, cs) => Opening(k) + ShowJoined(Separator(k), cs) + Closing(k)
  }

  function ShowJoined(sep: string, cs: seq<Ty>): string
    decreases cs
  {
    if cs == [] then ""
    else if |cs| == 1 then Show(cs[0])
    else ShowJoined(sep, cs[..|cs| - 1]) + sep + Show(cs[|cs| - 1])
  }

  lemma ShowJoinedStep(sep: string, cs: seq<Ty>, i: nat)
    requires i < |cs|
    ensures ShowJoined(sep, cs[..i + 1])
         == if i == 0 then Show(cs[0]) else ShowJoined(sep, cs[..i]) + sep + Show(cs[i])
  {
    assert cs[..i + 1][..i] == cs[..i];
  }

  /** The text of the first `j` children is a prefix of the text of all. */
  lemma {:induction false} ShowJoinedPrefix(sep: string, cs: seq<Ty>, j: nat)
    requires j <= |cs|
    ensures |ShowJoined(sep, cs[..j])| <= |ShowJoined(sep, cs)|
    ensures ShowJoined(sep, cs)[..|ShowJoined(sep, cs[..j])|] == ShowJoined(sep, cs[..j])
    decreases |cs|
  {
    if j == |cs| {
      assert cs[..j] == cs;
    } else if j == 0 {
      assert cs[..j] == [];
    } else {
      var n := |cs| - 1;
      assert cs[..n][..j] == cs[..j];
      ShowJoinedPrefix(sep, cs[..n], j);
      var a, b := ShowJoined(sep, cs[..j]), ShowJoined(sep, cs[..n]);
      assert ShowJoined(sep, cs) == b + (sep + Show(cs[n]));
      PrefixOfLonger(a, b, sep + Show(cs[n]));
    }
  }

  lemma PrefixOfLonger(a: string, b: string, c: string)
    requires |a| <= |b| && b[..|a|] == a
    ensures |a| <= |b + c| && (b + c)[..|a|] == a
  {
    assert (b + c)[..|a|] == b[..|a|];
  }

  /** Where the text of the `i`-th child starts in the joined text: after the
      children before it and one separator. */
  function JoinedOffset(sep: string, cs: seq<Ty>, i: nat): nat
    requires i <= |cs|
  {
    |ShowJoined(sep, cs[..i])| + (if i == 0 then 0 else |sep|)
  }

  /** Where the text of a child starts in the text of its parent: after the
      opening bracket, the children before it and one separator. */
  function ChildOffset(k: Kind, cs: seq<Ty>, i: nat): nat
    requires i <= |cs|
  {
    |Opening(k)| + JoinedOffset(Separator(k), cs, i)
  }

  /** The joined text holds the text of each child at its offset. */
  lemma JoinedChild(sep: string, cs: seq<Ty>, i: nat)
    requires i < |cs|
    ensures var at, x := JoinedOffset(sep, cs, i), Show(cs[i]);
      at + |x| <= |ShowJoined(sep, cs)| && ShowJoined(sep, cs)[at..at + |x|] == x
  {
    ShowJoinedStep(sep, cs, i);
    ShowJoinedPrefix(sep, cs, i + 1);
    var whole, x := ShowJoined(sep, cs), Show(cs[i]);
    var before := if i == 0 then "" else ShowJoined(sep, cs[..i]) + sep;
    if i == 0 {
      assert cs[..0] == [];
    }
    assert JoinedOffset(sep, cs, i) == |before|;
    Located(whole, before, x);
  }

  /** A piece `x` that follows `before` at the start of `whole` is found
      right after `before`. */
  lemma Located(whole: string, before: string, x: string)
    requires |before + x| <= |whole| && whole[..|before + x|] == before + x
    ensures |before| + |x| <= |whole| && whole[|before|..|before| + |x|] == x
  {
    assert whole[|before|..|before| + |x|] == (before + x)[|before|..];
  }

  /** The printed form of a node holds the printed form of each child at
      that child's offset. */
  lemma ShowChild(k: Kind, cs: seq<Ty>, i: nat)
    requires i < |cs|
    ensures var at, x := ChildOffset(k, cs, i), Show(cs[i]);
      at + |x| <= |Show(Node(k, cs))| && Show(Node(k, cs))[at..at + |x|] == x
  {
    var sep := Separator(k);
    JoinedChild(sep, cs, i);
    var o, whole, c := Opening(k), ShowJoined(sep, cs), Closing(k);
    assert Show(Node(k, cs)) == o + whole + c;
    SliceShifted(o, whole, c, JoinedOffset(sep, cs, i), |Show(cs[i])|);
  }

  lemma SliceShifted(o: string, whole: string, c: string, at: nat, n: nat)
    requires at + n <= |whole|
    ensures |o| + at + n <= |o + whole + c|
    ensures (o + whole + c)[|o| + at..|o| + at + n] == whole[at..at + n]
  {
  }

  /** `string_of_type`, which builds the text of a node in a loop. */
  method StringOfType(t: Ty) returns (s: string)
    ensures s == Show(t)
    decreases t
  {
    match t
    case Var(n) =>
      s := n;
    case Ident(n) =>
      s := n;
    case Node(k, cs) =>
      var sep := Separator(k);
      s := if k == OptionalParameter then "[" else "(";
      ghost var open := s;
      assert open == Opening(k);
      for i := 0 to |cs|
        invariant s == open + ShowJoined(sep, cs[..i])
      {
        var x := StringOfType(cs[i]);
        ShowJoinedStep(sep, cs, i);
        ghost var joined := ShowJoined(sep, cs[..i]);
        if i > 0 {
          s := s + sep;
          assert s == open + (joined + sep);
          s := s + x;
          assert s == open + (joined + sep + x);
        } else {
          assert joined == [];
          s := s + x;
          assert s == open + x;
        }
      }
      assert cs[..|cs|] == cs;
      s := s + (if k == OptionalParameter then "]" else ")");
  }
}
