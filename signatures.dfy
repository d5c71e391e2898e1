/** The type records of the search side: every signature of a type, with
    and without manifest expansion, and the comparison of two records. */
module Signatures {
  import opened Types
  import opened Canon
  import opened Optional
  import opened Manifests
  import opened Equiv

  /** The normal form of the i-th signature; None when `nth_signature` gives
      null or `normalize` throws. */
  function SignatureForm(t: Ty, i: nat): Option<NormalForm>
  {
    match NthFrom(t, i, 0)
    case None => None
    case Some(s) => NormalFormOf(s)
  }

  /** The normal forms of the signatures 0 to n - 1; None when any fails. */
  function SignatureForms(t: Ty, n: nat): Option<seq<NormalForm>>
  {
    if n == 0 then Some([])
    else
      match SignatureForms(t, n - 1)
      case None => None
      case Some(l) =>
        match SignatureForm(t, n - 1)
        case None => None
        case Some(nf) => Some(l + [nf])
  }

  /** What `make_type_list(t)` returns, None standing for null: the normal form
      of `t` when it has no optional parameter, otherwise the normal forms of
      its 2^k signatures. */
  function TypeList(t: Ty): Option<seq<NormalForm>>
  {
    if OptionalCount(t) == 0 then
      match NormalFormOf(t)
      case None => None
      case Some(nf) => Some([nf])
    else SignatureForms(t, Pow2(OptionalCount(t)))
  }

  lemma {:induction false} SignatureFormsFail(t: Ty, i: nat, n: nat)
    requires i <= n && SignatureForms(t, i).None?
    ensures SignatureForms(t, n).None?
    decreases n
  {
    if i < n {
      SignatureFormsFail(t, i, n - 1);
    }
  }

  /** The list of signatures has one entry per signature number, the normal
      form of that signature, and exists exactly when each of them does. */
  lemma {:induction false} SignatureFormsShape(t: Ty, n: nat)
    ensures SignatureForms(t, n).Some? <==> forall i :: 0 <= i < n ==> SignatureForm(t, i).Some?
    ensures SignatureForms(t, n).Some? ==>
      |SignatureForms(t, n).value| == n &&
      forall i :: 0 <= i < n ==> SignatureForms(t, n).value[i] == SignatureForm(t, i).value
    decreases n
  {
    if n > 0 {
      var m := n - 1;
      SignatureFormsShape(t, m);
      var prev, last := SignatureForms(t, m), SignatureForm(t, m);
      if prev.Some? && last.Some? {
        var l := prev.value + [last.value];
        assert SignatureForms(t, n) == Some(l);
        forall i | 0 <= i < n
          ensures SignatureForm(t, i).Some? && l[i] == SignatureForm(t, i).value
        {
          if i < m {
            assert l[i] == prev.value[i];
          }
        }
      } else {
        assert SignatureForms(t, n).None?;
        if prev.None? {
          var i :| 0 <= i < m && SignatureForm(t, i).None?;
          assert 0 <= i < n;
        } else {
          assert SignatureForm(t, m).None?;
        }
      }
    }
  }

  lemma Pow2Positive(k: nat)
    ensures k > 0 ==> Pow2(k) >= 2
  {
    if k > 0 {
      assert Pow2(k) == 2 * Pow2(k - 1);
    }
  }

  /** `make_type_list`: k optional parameters give 2^k normal forms, none
      give one; null when rewriting or signature building fails. */
  lemma TypeListShape(t: Ty)
    ensures OptionalCount(t) == 0 ==>
      (TypeList(t).Some? <==> NormalFormOf(t).Some?) &&
      (TypeList(t).Some? ==> TypeList(t).value == [NormalFormOf(t).value])
    ensures OptionalCount(t) > 0 ==>
      var n := Pow2(OptionalCount(t));
      && (TypeList(t).Some? <==> forall i :: 0 <= i < n ==> SignatureForm(t, i).Some?)
      && (TypeList(t).Some? ==>
           |TypeList(t).value| == n &&
           forall i :: 0 <= i < n ==> TypeList(t).value[i] == SignatureForm(t, i).value)
  {
    SignatureFormsShape(t, Pow2(OptionalCount(t)));
  }

  /** `make_type_list`. */
  method MakeTypeList(t: Ty) returns (res: Option<seq<NormalForm>>)
    ensures res == TypeList(t)
  {
    var count := GetOptionalCount(t);
    var len := Power2(count);
    Pow2Positive(count);
    if len == 1 {
      var nf := Normalize(t);
      if nf.None? {
        return None;
      }
      return Some([nf.value]);
    }
    var list: seq<NormalForm> := [];
    for i := 0 to len
      invariant SignatureForms(t, i) == Some(list)
    {
      var s := NthSignature(t, i);
      if s.None? {
        SignatureFormsFail(t, i + 1, len);
        return None;
      }
      var nf := Normalize(s.value);
      if nf.None? {
        SignatureFormsFail(t, i + 1, len);
        return None;
      }
      list := list + [nf.value];
    }
    return Some(list);
  }

  // ---------------------------------------------------------------------
  // Type records.

  /** An `OCaml_type`: the signature text, and its lists of normal forms
      without and with manifest expansion (None for null). */
  datatype OCamlType = OCamlType(
    typeAsString: string,
    normalForms: Option<seq<NormalForm>>,
    manifestForms: Option<seq<NormalForm>>)

  /** The variadic marker `...` starts at position `i` of the text. */
  predicate EllipsisAt(s: string, i: nat)
  {
    i + 3 <= |s| && s[i..i + 3] == "..."
  }

  /** The text contains the variadic marker `...`. */
  predicate HasEllipsis(s: string)
  {
    exists i: nat | i < |s| :: EllipsisAt(s, i)
  }

  /** What the `OCaml_type` constructor builds: no normal forms for a text
      with `...` or one that does not parse, otherwise the type lists of the
      parsed type and of its manifest expansion. */
  function OCamlTypeOf(parse: string -> Option<Ty>, table: Table, ghost rank: map<string, nat>,
                       ghost top: nat, t: string): (r: OCamlType)
    requires Acyclic(table, rank) && Bounded(table, rank, top)
    ensures r.typeAsString == t
    ensures HasEllipsis(t) || parse(t).None? ==> r.normalForms.None? && r.manifestForms.None?
  {
    if HasEllipsis(t) then OCamlType(t, None, None)
    else
      match parse(t)
      case None => OCamlType(t, None, None)
      case Some(p) => OCamlType(t, TypeList(p), TypeList(Expand(table, rank, top, p)))
  }

  /** Searches for `...` in the text. */
  method IndexOfEllipsis(s: string) returns (found: bool)
    ensures found == HasEllipsis(s)
  {
    var i: nat := 0;
    while i + 3 <= |s|
      invariant forall j: nat :: j < i ==> !EllipsisAt(s, j)
    {
      if s[i..i + 3] == "..." {
        assert EllipsisAt(s, i);
        return true;
      }
      i := i + 1;
    }
    return false;
  }

  /** The `OCaml_type` constructor, against the recorded manifests. */
  method MakeOCamlType(parse: string -> Option<Ty>, manifests: ManifestTable,
                       ghost rank: map<string, nat>, ghost top: nat, t: string)
      returns (r: OCamlType)
    requires Acyclic(manifests.manifests, rank) && Bounded(manifests.manifests, rank, top)
    ensures r == OCamlTypeOf(parse, manifests.manifests, rank, top, t)
  {
    var ellipsis := IndexOfEllipsis(t);
    if ellipsis {
      return OCamlType(t, None, None);
    }
    var parsed := parse(t);
    if parsed.None? {
      return OCamlType(t, None, None);
    }
    var manifested := manifests.RewriteManifests(rank, top, parsed.value);
    var nf := MakeTypeList(parsed.value);
    var nfm := MakeTypeList(manifested);
    return OCamlType(t, nf, nfm);
  }

  // ---------------------------------------------------------------------
  // Comparing records.

  /** `s.replace(/ /g, '')`: the text without its space characters. */
  function StripSpaces(s: string): (r: string)
    ensures ' ' !in r
    ensures forall c :: c != ' ' ==> multiset(r)[c] == multiset(s)[c]
  {
    if s == [] then []
    else
      var rest := StripSpaces(s[1..]);
      assert s == [s[0]] + s[1..];
      if s[0] == ' ' then rest else [s[0]] + rest
  }

  /** Stripping spaces keeps every other character, in order. */
  lemma {:induction false} StripSpacesConcat(a: string, b: string)
    ensures StripSpaces(a + b) == StripSpaces(a) + StripSpaces(b)
    decreases |a|
  {
    if a != [] {
      assert (a + b)[1..] == a[1..] + b;
      StripSpacesConcat(a[1..], b);
    } else {
      assert a + b == b;
    }
  }

  /** Some normal form of the first list equals some normal form of the
      second. */
  ghost predicate SomePairMatches(l1: seq<NormalForm>, l2: seq<NormalForm>)
  {
    exists i, j :: 0 <= i < |l1| && 0 <= j < |l2| && NormalFormsMatch(l1[i], l2[j])
  }

  /** The comparison `same_type` and `same_type_manifest` make of two lists:
      the texts without spaces when either list is null, otherwise whether some
      pair of normal forms is equal. */
  ghost predicate FormsMatch(f1: Option<seq<NormalForm>>, f2: Option<seq<NormalForm>>, s1: string, s2: string)
  {
    if f1.None? || f2.None? then StripSpaces(s1) == StripSpaces(s2)
    else SomePairMatches(f1.value, f2.value)
  }

  /** The nested loops of `same_type`, which return at the first equal pair;
      running off the end gives undefined, here false. */
  method AnyPairEqual(l1: seq<NormalForm>, l2: seq<NormalForm>) returns (r: bool)
    ensures r == SomePairMatches(l1, l2)
  {
    for i := 0 to |l1|
      invariant forall i', j :: 0 <= i' < i && 0 <= j < |l2| ==> !NormalFormsMatch(l1[i'], l2[j])
    {
      for j := 0 to |l2|
        invariant forall j' :: 0 <= j' < j ==> !NormalFormsMatch(l1[i], l2[j'])
      {
        var res := EqualNormalForm(l1[i], l2[j]);
        if res {
          return true;
        }
      }
    }
    return false;
  }

  /** `same_type`. */
  method SameType(x: OCamlType, y: OCamlType) returns (r: bool)
    ensures r == FormsMatch(x.normalForms, y.normalForms, x.typeAsString, y.typeAsString)
  {
    if x.normalForms.None? || y.normalForms.None? {
      return StripSpaces(x.typeAsString) == StripSpaces(y.typeAsString);
    }
    r := AnyPairEqual(x.normalForms.value, y.normalForms.value);
  }

  /** `same_type_manifest`: the same comparison on the expanded lists. */
  method SameTypeManifest(x: OCamlType, y: OCamlType) returns (r: bool)
    ensures r == FormsMatch(x.manifestForms, y.manifestForms, x.typeAsString, y.typeAsString)
  {
    if x.manifestForms.None? || y.manifestForms.None? {
      return StripSpaces(x.typeAsString) == StripSpaces(y.typeAsString);
    }
    r := AnyPairEqual(x.manifestForms.value, y.manifestForms.value);
  }

  /** A type list, when there is one, is never empty. */
  lemma TypeListNonEmpty(t: Ty)
    ensures TypeList(t).Some? ==> |TypeList(t).value| >= 1
  {
    TypeListShape(t);
  }

  /** The lists of one record compare equal to themselves. */
  lemma FormsMatchSelf(f: Option<seq<NormalForm>>, s: string)
    requires f.Some? ==> |f.value| > 0
    ensures FormsMatch(f, f, s, s)
  {
    if f.Some? {
      NormalFormSelf(f.value[0]);
    }
  }

  /** The record of a type text matches itself, with and without manifests:
      searching for the type an element was recorded with finds it. */
  lemma OwnTypeMatches(parse: string -> Option<Ty>, table: Table, rank: map<string, nat>,
                       top: nat, t: string)
    requires Acyclic(table, rank) && Bounded(table, rank, top)
    ensures var x := OCamlTypeOf(parse, table, rank, top, t);
      FormsMatch(x.normalForms, x.normalForms, t, t) &&
      FormsMatch(x.manifestForms, x.manifestForms, t, t)
  {
    var x := OCamlTypeOf(parse, table, rank, top, t);
    if !HasEllipsis(t) && parse(t).Some? {
      TypeListNonEmpty(parse(t).value);
      TypeListNonEmpty(Expand(table, rank, top, parse(t).value));
    }
    FormsMatchSelf(x.normalForms, t);
    FormsMatchSelf(x.manifestForms, t);
  }

  /** A text with `...` is compared as text: it matches exactly the texts equal
      to it once spaces are removed. */
  lemma EllipsisComparedAsText(parse: string -> Option<Ty>, table: Table, rank: map<string, nat>,
                               top: nat, t: string, y: OCamlType)
    requires Acyclic(table, rank) && Bounded(table, rank, top)
    requires HasEllipsis(t)
    ensures var x := OCamlTypeOf(parse, table, rank, top, t);
      (FormsMatch(x.normalForms, y.normalForms, x.typeAsString, y.typeAsString)
       <==> StripSpaces(t) == StripSpaces(y.typeAsString))
  {
  }
}
