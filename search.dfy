/** The search side: the element catalogue with its name and word tables,
    and the searches by exact name, by words and by type. */
module Search {
  import opened Types
  import opened Manifests
  import opened Signatures

  // ---------------------------------------------------------------------
  // Elements.

  /** An `OCaml_element`. Elements are objects: `intersect` compares them by
      identity, which Dafny's `==` on class instances is. */
  class Element {
    const shortName: string
    const fullName: string
    const kind: string
    const ty: OCamlType
    const reference: string
    const documentation: string

    /** The type text is parsed and expanded against the manifests recorded
        so far. */
    constructor (parse: string -> Option<Ty>, manifests: ManifestTable,
                 ghost rank: map<string, nat>, ghost top: nat,
                 sn: string, fn: string, k: string, t: string, r: string, d: string)
      requires Acyclic(manifests.manifests, rank) && Bounded(manifests.manifests, rank, top)
      ensures shortName == sn && fullName == fn && kind == k
      ensures reference == r && documentation == d
      ensures ty == OCamlTypeOf(parse, manifests.manifests, rank, top, t)
    {
      var o := MakeOCamlType(parse, manifests, rank, top, t);
      shortName, fullName, kind := sn, fn, k;
      ty, reference, documentation := o, r, d;
    }
  }

  // ---------------------------------------------------------------------
  // Ordering by full name.

  /** The `<` of two strings: character codes compared from the front, a
      proper prefix coming first. */
  predicate LexLess(a: string, b: string)
    decreases |a|
  {
    if a == [] then b != []
    else if b == [] then false
    else if a[0] != b[0] then a[0] < b[0]
    else LexLess(a[1..], b[1..])
  }

  lemma {:induction false} LexIrreflexive(a: string)
    ensures !LexLess(a, a)
    decreases |a|
  {
    if a != [] {
      LexIrreflexive(a[1..]);
    }
  }

  lemma {:induction false} LexTotal(a: string, b: string)
    ensures a == b || LexLess(a, b) || LexLess(b, a)
    ensures !(LexLess(a, b) && LexLess(b, a))
    decreases |a|
  {
    if a != [] && b != [] && a[0] == b[0] {
      LexTotal(a[1..], b[1..]);
      if a[1..] == b[1..] {
        assert a == [a[0]] + a[1..] && b == [b[0]] + b[1..];
      }
    }
  }

  lemma {:induction false} LexTransitive(a: string, b: string, c: string)
    requires LexLess(a, b) && LexLess(b, c)
    ensures LexLess(a, c)
    decreases |a|
  {
    if a != [] && a[0] == b[0] && b[0] == c[0] {
      LexTransitive(a[1..], b[1..], c[1..]);
    }
  }

  /** `compare`: -1, 0 or 1 as the first full name sorts before, equal to or
      after the second. */
  function Compare(x: Element, y: Element): int
  {
    if LexLess(x.fullName, y.fullName) then -1
    else if LexLess(y.fullName, x.fullName) then 1
    else 0
  }

  /** `compare` is a total order on full names, as `sort` requires of it. */
  lemma CompareOrder(x: Element, y: Element, z: Element)
    ensures Compare(x, y) == 0 <==> x.fullName == y.fullName
    ensures Compare(x, y) == -Compare(y, x)
    ensures Compare(x, y) < 0 && Compare(y, z) < 0 ==> Compare(x, z) < 0
    ensures Compare(x, y) == 0 && Compare(y, z) == 0 ==> Compare(x, z) == 0
  {
    LexTotal(x.fullName, y.fullName);
    LexIrreflexive(x.fullName);
    if Compare(x, y) < 0 && Compare(y, z) < 0 {
      LexTransitive(x.fullName, y.fullName, z.fullName);
    }
  }

  // ---------------------------------------------------------------------
  // Tables.

  type Table = map<string, seq<Element>>

  /** The list a table holds under a key, empty when there is none. */
  function Lookup(m: Table, key: string): seq<Element>
  {
    if key in m then m[key] else []
  }

  /** `names_add` and `word_add`: the list under the key, created when
      missing, gets `e` pushed on it. */
  function AddTo(m: Table, key: string, e: Element): (r: Table)
    ensures r.Keys == m.Keys + {key}
  {
    m[key := Lookup(m, key) + [e]]
  }

  lemma LookupAddTo(m: Table, key: string, e: Element, k: string)
    ensures Lookup(AddTo(m, key, e), k) == Lookup(m, k) + (if k == key then [e] else [])
  {
  }

  /** The name table after an element is added: under its short name, and
      under its full name when that differs. */
  function AddNames(m: Table, sn: string, fn: string, e: Element): Table
  {
    var m1 := AddTo(m, sn, e);
    if sn != fn then AddTo(m1, fn, e) else m1
  }

  /** The word table after `e` is added under each word of `ws` in turn. */
  function AddWords(m: Table, ws: seq<string>, e: Element): Table
    decreases |ws|
  {
    if ws == [] then m
    else AddTo(AddWords(m, ws[..|ws| - 1], e), ws[|ws| - 1], e)
  }

  lemma AddWordsStep(m: Table, ws: seq<string>, e: Element, i: nat)
    requires i < |ws|
    ensures AddWords(m, ws[..i + 1], e) == AddTo(AddWords(m, ws[..i], e), ws[i], e)
  {
    assert ws[..i + 1][..i] == ws[..i];
  }

  /** `e` repeated `n` times. */
  function Repeat(e: Element, n: nat): (r: seq<Element>)
    ensures |r| == n && forall i :: 0 <= i < n ==> r[i] == e
  {
    if n == 0 then [] else Repeat(e, n - 1) + [e]
  }

  /** Under a word, the element is appended once for every time the word
      occurs in its list, after what was there before. */
  lemma {:induction false} AddWordsLookup(m: Table, ws: seq<string>, e: Element, key: string)
    ensures Lookup(AddWords(m, ws, e), key) == Lookup(m, key) + Repeat(e, multiset(ws)[key])
    decreases |ws|
  {
    if ws != [] {
      var pre, w := ws[..|ws| - 1], ws[|ws| - 1];
      var m' := AddWords(m, pre, e);
      AddWordsLookup(m, pre, e, key);
      assert ws == pre + [w];
      assert AddWords(m, ws, e) == AddTo(m', w, e);
      LookupAddTo(m', w, e, key);
      RepeatOneMore(e, pre, w, key);
      var a, b, extra := Lookup(m, key), Repeat(e, multiset(pre)[key]), if key == w then [e] else [];
      assert Lookup(m', key) == a + b;
      assert a + b + extra == a + (b + extra);
    }
  }

  lemma RepeatOneMore(e: Element, pre: seq<string>, w: string, key: string)
    ensures Repeat(e, multiset(pre)[key]) + (if key == w then [e] else [])
         == Repeat(e, multiset(pre + [w])[key])
  {
    assert multiset(pre + [w]) == multiset(pre) + multiset{w};
    if key != w {
      assert Repeat(e, multiset(pre)[key]) + [] == Repeat(e, multiset(pre)[key]);
    }
  }

  /** After the words are added, the element is listed under each of them. */
  lemma AddWordsListed(m: Table, ws: seq<string>, e: Element, w: string)
    requires w in ws
    ensures e in Lookup(AddWords(m, ws, e), w)
  {
    AddWordsLookup(m, ws, e, w);
    assert multiset(ws)[w] > 0;
    assert Repeat(e, multiset(ws)[w])[0] == e;
  }

  /** Every indexed element is an instance, and every instance can be found
      under its short and its full name. */
  ghost predicate Indexed(names: Table, words: Table, instances: seq<Element>)
  {
    && (forall x :: x in instances ==>
          x in Lookup(names, x.shortName) && x in Lookup(names, x.fullName))
    && (forall k, x :: k in names && x in names[k] ==> x in instances)
    && (forall k, x :: k in words && x in words[k] ==> x in instances)
  }

  /** Adding an element as `add_ocaml_element` does keeps the tables
      consistent with the instance list. */
  lemma AddKeepsIndexed(names: Table, words: Table, instances: seq<Element>, x: Element, ws: seq<string>)
    requires Indexed(names, words, instances)
    ensures Indexed(AddNames(names, x.shortName, x.fullName, x), AddWords(words, ws, x), instances + [x])
  {
    var names', words', instances' := AddNames(names, x.shortName, x.fullName, x), AddWords(words, ws, x), instances + [x];
    WordsStayIndexed(words, instances, x, ws);
    forall k, y | k in names' && y in names'[k]
      ensures y in instances'
    {
      assert y in Lookup(names', k);
    }
  }

  /** The part of `AddKeepsIndexed` about the word table. */
  lemma WordsStayIndexed(words: Table, instances: seq<Element>, x: Element, ws: seq<string>)
    requires forall k, y :: k in words && y in words[k] ==> y in instances
    ensures forall k, y :: k in AddWords(words, ws, x) && y in AddWords(words, ws, x)[k] ==> y in instances + [x]
  {
    var words' := AddWords(words, ws, x);
    forall k, y | k in words' && y in words'[k]
      ensures y in instances + [x]
    {
      AddWordsLookup(words, ws, x, k);
      assert y in Lookup(words', k);
      if y !in Lookup(words, k) {
        var i :| 0 <= i < |Lookup(words', k)| && Lookup(words', k)[i] == y;
        assert y == x;
      }
    }
  }

  /** The catalogue: the global tables `names`, `words` and `instances`. */
  class Catalog {
    var names: Table
    var words: Table
    var instances: seq<Element>

    constructor ()
      ensures names == map[] && words == map[] && instances == []
      ensures Indexed(names, words, instances)
    {
      names, words, instances := map[], map[], [];
    }

    /** `names_add`. */
    method NamesAdd(n: string, e: Element)
      modifies this
      ensures names == AddTo(old(names), n, e)
      ensures words == old(words) && instances == old(instances)
    {
      names := names[n := Lookup(names, n) + [e]];
    }

    /** `word_add`. */
    method WordAdd(w: string, e: Element)
      modifies this
      ensures words == AddTo(old(words), w, e)
      ensures names == old(names) && instances == old(instances)
    {
      words := words[w := Lookup(words, w) + [e]];
    }

    /** `add_ocaml_element`: builds the element, indexes it under its names
        and its words, and appends it to the instances. */
    method AddOCamlElement(parse: string -> Option<Ty>, manifests: ManifestTable,
                           ghost rank: map<string, nat>, ghost top: nat,
                           sn: string, fn: string, k: string, t: string, r: string, d: string,
                           l: seq<string>)
        returns (x: Element)
      requires Acyclic(manifests.manifests, rank) && Bounded(manifests.manifests, rank, top)
      modifies this
      ensures fresh(x)
      ensures x.shortName == sn && x.fullName == fn && x.kind == k
      ensures x.reference == r && x.documentation == d
      ensures x.ty == OCamlTypeOf(parse, manifests.manifests, rank, top, t)
      ensures names == AddNames(old(names), sn, fn, x)
      ensures words == AddWords(old(words), l, x)
      ensures instances == old(instances) + [x]
      ensures x in Lookup(names, sn) && x in Lookup(names, fn)
      ensures forall w :: w in l ==> x in Lookup(words, w)
      ensures old(Indexed(names, words, instances)) ==> Indexed(names, words, instances)
    {
      ghost var names0, words0, instances0 := names, words, instances;
      x := new Element(parse, manifests, rank, top, sn, fn, k, t, r, d);
      NamesAdd(sn, x);
      if sn != fn {
        NamesAdd(fn, x);
      }
      instances := instances + [x];
      for i := 0 to |l|
        invariant words == AddWords(words0, l[..i], x)
        invariant names == AddNames(names0, sn, fn, x)
        invariant instances == instances0 + [x]
      {
        WordAdd(l[i], x);
        AddWordsStep(words0, l, x, i);
      }
      assert l[..|l|] == l;
      forall w | w in l
        ensures x in Lookup(words, w)
      {
        AddWordsListed(words0, l, x, w);
      }
      if Indexed(names0, words0, instances0) {
        AddKeepsIndexed(names0, words0, instances0, x, l);
      }
    }

    /** `search_by_name`: a copy of the list held under the exact name. */
    method SearchByName(query: string) returns (res: seq<Element>)
      ensures res == Lookup(names, query)
      ensures Indexed(names, words, instances) ==> forall x :: x in res ==> x in instances
    {
      res := [];
      if query in names {
        var elems := names[query];
        for i := 0 to |elems|
          invariant res == elems[..i]
        {
          res := res + [elems[i]];
        }
        assert elems[..|elems|] == elems;
      }
    }

    /** `search_by_word`: `dest` followed by the list held under the word in
        upper case. */
    method SearchByWord(dest: seq<Element>, w: string) returns (res: seq<Element>)
      ensures res == dest + Lookup(words, Upper(w))
    {
      res := dest;
      var key := Upper(w);
      if key in words {
        var elems := words[key];
        for i := 0 to |elems|
          invariant res == dest + elems[..i]
        {
          res := res + [elems[i]];
        }
        assert elems[..|elems|] == elems;
      }
    }

    /** `search_by_fulltext`: the elements listed under the first word of the
        query and under each later non-empty word. */
    method SearchByFulltext(query: string) returns (res: seq<Element>)
      ensures res == Fulltext(words, Split(query))
    {
      var qs := Split(query);
      res := SearchByWord([], qs[0]);
      for i := 1 to |qs|
        invariant res == Fulltext(words, qs[..i])
      {
        assert qs[..i + 1][..i] == qs[..i] && qs[..i + 1][i] == qs[i];
        if qs[i] != "" {
          var tmp := SearchByWord([], qs[i]);
          assert tmp == Lookup(words, Upper(qs[i]));
          res := Intersect(res, tmp);
        }
      }
      assert qs[..|qs|] == qs;
    }

    /** `search_by_type`: the instances whose type `same_type` finds equal to
        the query's, in catalogue order. */
    method SearchByType(parse: string -> Option<Ty>, manifests: ManifestTable,
                        ghost rank: map<string, nat>, ghost top: nat, query: string)
        returns (res: seq<Element>)
      requires Acyclic(manifests.manifests, rank) && Bounded(manifests.manifests, rank, top)
      ensures res == Matching(instances, OCamlTypeOf(parse, manifests.manifests, rank, top, query), false)
    {
      var patt := MakeOCamlType(parse, manifests, rank, top, query);
      res := [];
      for i := 0 to |instances|
        invariant res == Matching(instances[..i], patt, false)
      {
        assert instances[..i + 1][..i] == instances[..i];
        var same := SameType(patt, instances[i].ty);
        if same {
          res := res + [instances[i]];
        }
      }
      assert instances[..|instances|] == instances;
    }

    /** `search_by_type_manifest`: the same search on manifest-expanded types. */
    method SearchByTypeManifest(parse: string -> Option<Ty>, manifests: ManifestTable,
                                ghost rank: map<string, nat>, ghost top: nat, query: string)
        returns (res: seq<Element>)
      requires Acyclic(manifests.manifests, rank) && Bounded(manifests.manifests, rank, top)
      ensures res == Matching(instances, OCamlTypeOf(parse, manifests.manifests, rank, top, query), true)
    {
      var patt := MakeOCamlType(parse, manifests, rank, top, query);
      res := [];
      for i := 0 to |instances|
        invariant res == Matching(instances[..i], patt, true)
      {
        assert instances[..i + 1][..i] == instances[..i];
        var same := SameTypeManifest(patt, instances[i].ty);
        if same {
          res := res + [instances[i]];
        }
      }
      assert instances[..|instances|] == instances;
    }
  }

  // ---------------------------------------------------------------------
  // Words of a query.

  /** `toUpperCase`, on the ASCII letters. */
  function UpperChar(c: char): char
  {
    if 'a' <= c <= 'z' then (c as int - 32) as char else c
  }

  function Upper(s: string): (r: string)
    ensures |r| == |s| && forall i :: 0 <= i < |s| ==> r[i] == UpperChar(s[i])
  {
    seq(|s|, i requires 0 <= i < |s| => UpperChar(s[i]))
  }

  /** `s.split(' ')`: the pieces between the spaces, an empty piece on each
      side of every space with nothing there. */
  function Split(s: string): (r: seq<string>)
    ensures |r| >= 1
    ensures forall i :: 0 <= i < |r| ==> ' ' !in r[i]
    decreases |s|
  {
    if s == [] then [[]]
    else
      var rest := Split(s[..|s| - 1]);
      var c := s[|s| - 1];
      if c == ' ' then rest + [[]]
      else rest[..|rest| - 1] + [rest[|rest| - 1] + [c]]
  }

  /** The pieces put back together, one space between each. */
  function Join(r: seq<string>): string
    requires |r| >= 1
    decreases |r|
  {
    if |r| == 1 then r[0] else Join(r[..|r| - 1]) + " " + r[|r| - 1]
  }

  lemma JoinLast(r: seq<string>, c: char)
    requires |r| >= 1
    ensures Join(r[..|r| - 1] + [r[|r| - 1] + [c]]) == Join(r) + [c]
  {
    var r' := r[..|r| - 1] + [r[|r| - 1] + [c]];
    if |r| > 1 {
      assert r'[..|r'| - 1] == r[..|r| - 1];
    }
  }

  /** Joining the pieces gives back the text. */
  lemma {:induction false} JoinSplit(s: string)
    ensures Join(Split(s)) == s
    decreases |s|
  {
    if s != [] {
      var pre := s[..|s| - 1];
      JoinSplit(pre);
      var rest := Split(pre);
      assert s == pre + [s[|s| - 1]];
      if s[|s| - 1] == ' ' {
        assert (rest + [[]])[..|rest|] == rest;
      } else {
        JoinLast(rest, s[|s| - 1]);
      }
    }
  }

  lemma {:induction false} SplitWord(s: string, p: string)
    requires ' ' !in p
    ensures var r := Split(s);
      Split(s + p) == r[..|r| - 1] + [r[|r| - 1] + p]
    decreases |p|
  {
    var r := Split(s);
    if p == [] {
      assert s + p == s;
      assert r[|r| - 1] + p == r[|r| - 1];
      assert r == r[..|r| - 1] + [r[|r| - 1]];
    } else {
      var q, c := p[..|p| - 1], p[|p| - 1];
      SplitWord(s, q);
      assert s + p == (s + q) + [c];
      assert c in p;
      SplitLetter(s + q, c);
      var n := |r| - 1;
      var r' := Split(s + q);
      assert r' == r[..n] + [r[n] + q];
      assert r'[..n] == r[..n] && r'[n] == r[n] + q;
      assert (r[n] + q) + [c] == r[n] + p;
    }
  }

  /** A letter other than a space goes on the end of the last piece. */
  lemma SplitLetter(s: string, c: char)
    requires c != ' '
    ensures var r := Split(s);
      Split(s + [c]) == r[..|r| - 1] + [r[|r| - 1] + [c]]
  {
    assert (s + [c])[..|s|] == s;
  }

  /** Splitting pieces with no space, joined by spaces, gives them back. */
  lemma {:induction false} SplitJoin(r: seq<string>)
    requires |r| >= 1 && forall i :: 0 <= i < |r| ==> ' ' !in r[i]
    ensures Split(Join(r)) == r
    decreases |r|
  {
    var p := r[|r| - 1];
    if |r| == 1 {
      SplitWord([], p);
      assert [] + p == p;
    } else {
      var pre := r[..|r| - 1];
      SplitJoin(pre);
      var s := Join(pre) + " ";
      assert s[..|s| - 1] == Join(pre);
      assert Split(s) == pre + [[]];
      SplitWord(s, p);
      assert (pre + [[]])[..|pre|] == pre;
      assert [] + p == p;
      assert pre + [p] == r;
    }
  }

  // ---------------------------------------------------------------------
  // Intersection and the fulltext search.

  /** The elements of `a1` that are also in `a2`, in the order of `a1`. */
  function Filter(a1: seq<Element>, a2: seq<Element>): seq<Element>
    decreases |a1|
  {
    if a1 == [] then []
    else
      var last := a1[|a1| - 1];
      Filter(a1[..|a1| - 1], a2) + (if last in a2 then [last] else [])
  }

  /** An element occurs in the intersection as often as in `a1` when `a2`
      holds it, and not at all otherwise. */
  lemma {:induction false} FilterCount(a1: seq<Element>, a2: seq<Element>, x: Element)
    ensures multiset(Filter(a1, a2))[x] == if x in a2 then multiset(a1)[x] else 0
    decreases |a1|
  {
    if a1 != [] {
      var pre := a1[..|a1| - 1];
      FilterCount(pre, a2, x);
      assert a1 == pre + [a1[|a1| - 1]];
    }
  }

  lemma FilterMembers(a1: seq<Element>, a2: seq<Element>, x: Element)
    ensures x in Filter(a1, a2) <==> x in a1 && x in a2
  {
    FilterCount(a1, a2, x);
    assert x in Filter(a1, a2) <==> multiset(Filter(a1, a2))[x] > 0;
    assert x in a1 <==> multiset(a1)[x] > 0;
  }

  /** `a` is `b` with some elements left out, the others in their order. */
  ghost predicate IsSubsequence(a: seq<Element>, b: seq<Element>)
    decreases |b|
  {
    if a == [] then true
    else if b == [] then false
    else
      (a[|a| - 1] == b[|b| - 1] && IsSubsequence(a[..|a| - 1], b[..|b| - 1]))
      || IsSubsequence(a, b[..|b| - 1])
  }

  /** The intersection keeps the order of `a1`. */
  lemma {:induction false} FilterSubsequence(a1: seq<Element>, a2: seq<Element>)
    ensures IsSubsequence(Filter(a1, a2), a1)
    decreases |a1|
  {
    if a1 != [] {
      var pre := a1[..|a1| - 1];
      FilterSubsequence(pre, a2);
      var r := Filter(a1, a2);
      if a1[|a1| - 1] in a2 {
        assert r[..|r| - 1] == Filter(pre, a2);
      } else {
        assert r == Filter(pre, a2) + [];
        assert r == Filter(pre, a2);
      }
    }
  }

  /** `intersect`, which scans `a2` for each element of `a1`. */
  method Intersect(a1: seq<Element>, a2: seq<Element>) returns (res: seq<Element>)
    ensures res == Filter(a1, a2)
  {
    res := [];
    for i := 0 to |a1|
      invariant res == Filter(a1[..i], a2)
    {
      var j := 0;
      while j < |a2| && a2[j] != a1[i]
        invariant 0 <= j <= |a2|
        invariant forall j' :: 0 <= j' < j ==> a2[j'] != a1[i]
      {
        j := j + 1;
      }
      assert a1[..i + 1][..i] == a1[..i];
      if j < |a2| {
        res := res + [a1[i]];
      }
    }
    assert a1[..|a1|] == a1;
  }

  /** What `search_by_fulltext` computes from the words of the query: the
      list under the first word, narrowed by the list under each later word
      that is not empty. */
  function Fulltext(words: Table, qs: seq<string>): seq<Element>
    requires |qs| >= 1
    decreases |qs|
  {
    if |qs| == 1 then Lookup(words, Upper(qs[0]))
    else
      var prev := Fulltext(words, qs[..|qs| - 1]);
      var q := qs[|qs| - 1];
      if q == "" then prev else Filter(prev, Lookup(words, Upper(q)))
  }

  /** An element is found exactly when every non-empty word of the query
      leads to it, and the first word does even when empty. */
  lemma {:induction false} FulltextMembers(words: Table, qs: seq<string>, x: Element)
    requires |qs| >= 1
    ensures x in Fulltext(words, qs) <==>
      x in Lookup(words, Upper(qs[0])) && LaterWordsLead(words, qs, x)
    decreases |qs|
  {
    if |qs| > 1 {
      var pre, q := qs[..|qs| - 1], qs[|qs| - 1];
      FulltextMembers(words, pre, x);
      var prev := Fulltext(words, pre);
      assert pre[0] == qs[0];
      LaterWordsStep(words, qs, x);
      if q == "" {
        assert Fulltext(words, qs) == prev;
      } else {
        assert Fulltext(words, qs) == Filter(prev, Lookup(words, Upper(q)));
        FilterMembers(prev, Lookup(words, Upper(q)), x);
      }
    }
  }

  /** Every non-empty word after the first leads to `x`. */
  ghost predicate LaterWordsLead(words: Table, qs: seq<string>, x: Element)
  {
    forall i :: 1 <= i < |qs| && qs[i] != "" ==> x in Lookup(words, Upper(qs[i]))
  }

  lemma LaterWordsStep(words: Table, qs: seq<string>, x: Element)
    requires |qs| > 1
    ensures LaterWordsLead(words, qs, x) <==>
      LaterWordsLead(words, qs[..|qs| - 1], x) &&
      (qs[|qs| - 1] != "" ==> x in Lookup(words, Upper(qs[|qs| - 1])))
  {
    var pre := qs[..|qs| - 1];
    assert forall i :: 0 <= i < |pre| ==> pre[i] == qs[i];
  }

  // ---------------------------------------------------------------------
  // The type searches.

  /** The comparison `same_type` (or, with `manifest`, `same_type_manifest`)
      makes of the query's record and an element's. */
  ghost predicate TypeMatches(patt: OCamlType, x: Element, manifest: bool)
  {
    if manifest then FormsMatch(patt.manifestForms, x.ty.manifestForms, patt.typeAsString, x.ty.typeAsString)
    else FormsMatch(patt.normalForms, x.ty.normalForms, patt.typeAsString, x.ty.typeAsString)
  }

  /** The instances whose type matches the query's, in order. */
  ghost function Matching(instances: seq<Element>, patt: OCamlType, manifest: bool): seq<Element>
    decreases |instances|
  {
    if instances == [] then []
    else
      var last := instances[|instances| - 1];
      Matching(instances[..|instances| - 1], patt, manifest) + (if TypeMatches(patt, last, manifest) then [last] else [])
  }

  /** A type search keeps each matching instance as often as it is listed,
      and nothing else. */
  lemma {:induction false} MatchingCount(instances: seq<Element>, patt: OCamlType, manifest: bool, x: Element)
    ensures multiset(Matching(instances, patt, manifest))[x] ==
      if TypeMatches(patt, x, manifest) then multiset(instances)[x] else 0
    decreases |instances|
  {
    if instances != [] {
      var pre := instances[..|instances| - 1];
      MatchingCount(pre, patt, manifest, x);
      assert instances == pre + [instances[|instances| - 1]];
    }
  }

  /** Searching by the type text an instance was recorded with, against the
      same manifests, finds that instance. */
  lemma OwnTypeFound(parse: string -> Option<Ty>, table: Manifests.Table, rank: map<string, nat>,
                     top: nat, instances: seq<Element>, x: Element, t: string, manifest: bool)
    requires Acyclic(table, rank) && Bounded(table, rank, top)
    requires x in instances && x.ty == OCamlTypeOf(parse, table, rank, top, t)
    ensures x in Matching(instances, OCamlTypeOf(parse, table, rank, top, t), manifest)
  {
    OwnTypeMatches(parse, table, rank, top, t);
    MatchingCount(instances, x.ty, manifest, x);
    assert multiset(instances)[x] > 0;
  }
}
