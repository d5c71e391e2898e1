# Argot type search, modelled in Dafny

Argot is an OCaml documentation generator. Its HTML output includes a
search page that finds library elements by name, by words of their
documentation, or by type. A type query matches an element when the two
signatures are equal up to:

- currying and tupling;
- the order of parameters;
- an injective renaming of type variables;
- optionally, expansion of type abbreviations (manifests).

This project models that engine and proves properties of the model:

- **Canonicaliser** (`canon.dfy`). The rewrite rules r7, r2, r3, r5 and r4 are applied bottom-up along products and arrows. The result is flattened into a normal form: a list of coordinates, each a list of parameter types ending with the result type.
  - `Denote` is an independent compositional definition of the normal form.
  - The rewriting is proved to compute `Denote` and to leave no rule applicable (`Canonical`).
- **Equivalence tester** (`perms.dfy`, `equiv.dfy`). Two normal forms match when some permutation pairs their coordinates. Two coordinates match when their result types match under a fresh substitution and some permutation of the parameters matches under a copy of that substitution.
  - The permutations come from the backtracking `permuts`. They are proved to be exactly the n! distinct permutations of 0..n-1.
  - The substitution is a class whose `Bind` keeps it injective.
- **Optional parameters** (`optional.dfy`). A type with k optional parameters stands for 2^k signatures. Bit i of n decides whether signature n keeps the i-th optional parameter. The global counter of `nth_signature_aux` is a `SignatureCounter` object.
- **Manifest expansion** (`manifest.dfy`). The manifest table is a class. `rewrite_manifests_aux` is a method proved equal to the function `Rewrite`. Termination rests on a ghost rank map witnessing that the table is acyclic.
- **Type records and comparison** (`signatures.dfy`): `make_type_list`, `OCaml_type`, `same_type` and `same_type_manifest`.
- **Catalogue and searches** (`search.dfy`):
  - the global `names`, `words` and `instances` tables, as fields of a `Catalog` class;
  - `add_ocaml_element`, proved to keep the tables consistent with the instance list;
  - `compare`, proved a total order on full names;
  - `intersect`, the searches by exact name, by word and by full text, and the two type searches.

Conventions of the model:

- Types are `Ty = Var | Ident | Node(kind, children)`. The JavaScript arrays carrying a `kind` field become `Node`s, and its strings become atoms (`'a` is a variable). The datatype also admits atoms the source cannot represent: a `Var` whose name does not start with a quote, or an `Ident` whose name does. `kind` classifies an atom by its first character (bap/api/v1.4.0/argot_types_fixed.js:45-50). `Types.AtomOf` builds only the well-formed ones. The parser parameter is expected to build only well-formed atoms, and the model does not state that as a predicate.
- The parser, `argot_parser.parse`, is not part of this model. Every operation that parses takes it as a parameter `parse: string -> Option<Ty>`, where None stands for a parse that throws.
- A JavaScript `null` result, or a `try`/`catch` that swallows an exception, becomes `None`. The `"Already bound"` exception of `bind` becomes a failed result: the `AlreadyBound` verdict, or `ok == false`.

Behaviour of the code worth knowing:

- An identifier naming a manifest is replaced by the manifest's body without that body being rewritten. Expansion is therefore not idempotent: `Manifests.NotIdempotent` exhibits a chain `a = b`, `b = c`.
- The body of a type application's manifest is rewritten with the formals bound to the application's first slot as written, not as rewritten.
- `equal_element` compares composite nodes by length and children only, never by kind (`Equiv.TagsIgnored`).
- Each coordinate starts from an empty substitution, so variables are not shared across coordinates (`Equiv.CoordinatesRenamedApart`).
- `flatten` along arrows also flattens an arrow in parameter position. So `('a -> 'b) -> 'c` normalises like `'a -> 'b -> 'c` (`Canon.HigherOrderParameterFlattened`).

## Model

| member | source | states |
|---|---|---|
| Types.Mem | bap/api/v1.4.0/argot_types_fixed.js:59-66 | the linear scan answers true exactly when the string occurs in the array |
| Types.GetVariables | bap/api/v1.4.0/argot_types_fixed.js:69-88 | the list has no duplicates and holds exactly the type variables occurring in the type |
| Types.StringOfType | bap/api/v1.4.0/argot_types_fixed.js:91-123 | the loop builds the bracketed, separator-joined text `Show` defines for every kind |
| Types.ShowChild | bap/api/v1.4.0/argot_types_fixed.js:114-119 | the text of a node holds, for each child, that child's own text, starting after the opening bracket, the texts of the children before it and one separator |
| Canon.RewriteTop | bap/api/v1.4.0/argot_types_fixed.js:126-136 | rewriting succeeds exactly when every product and arrow along the spine has two children, and yields binary products and arrows |
| Canon.RewriteArrowCorrect | bap/api/v1.4.0/argot_types_fixed.js:139-154 | r7, r2 and r3 on an arrow of rewritten children leave no rule applicable and give the normal form of the arrow of the children's normal forms, losing no parameter |
| Canon.CurryCorrect | bap/api/v1.4.0/argot_types_fixed.js:144-147 | r2 on an arrow from a product curries it: the result is in normal form, equals the normal form of the arrow of the children's normal forms, and is not unit |
| Canon.DistributeCorrect | bap/api/v1.4.0/argot_types_fixed.js:148-151 | r3 on an arrow into a product distributes it: the result is in normal form, equals the normal form of the arrow of the children's normal forms, and is not unit |
| Canon.RewriteProductCorrect | bap/api/v1.4.0/argot_types_fixed.js:155-162 | r5 and r4 on a product of rewritten children leave no rule applicable and give the product of the children's normal forms |
| Canon.RewriteTopCorrect | bap/api/v1.4.0/argot_types_fixed.js:126-166 | the bottom-up rewriting yields a canonical type whose flattening is the compositional normal form `Denote` |
| Canon.RewriteTopIsCanonical | bap/api/v1.4.0/argot_types_fixed.js:126-166 | after rewriting no rule applies anywhere along the spine |
| Canon.Flatten | bap/api/v1.4.0/argot_types_fixed.js:169-177 | the result is non-empty and none of its elements is a node of the flattened kind |
| Canon.FlattenChain | bap/api/v1.4.0/argot_types_fixed.js:169-177 | flattening a right-nested chain of non-`k` types gives back exactly those types in order |
| Canon.Normalize | bap/api/v1.4.0/argot_types_fixed.js:180-190 | the in-place loop over the product's coordinates yields the normal form, or None where the source throws |
| Canon.NormalFormIsDenote | bap/api/v1.4.0/argot_types_fixed.js:180-190 | `normalize` succeeds exactly on rewritable types, and then returns `Denote` |
| Canon.Currying | bap/api/v1.4.0/argot_types_fixed.js:126-190 | `a -> b -> c` and `(a * b) -> c` both normalise to `[[a, b, c]]` |
| Canon.TupleReturn | bap/api/v1.4.0/argot_types_fixed.js:126-190 | `a -> (b * c)` and `(a -> b) * (a -> c)` both normalise to `[[a, b], [a, c]]` |
| Canon.UnitElimination | bap/api/v1.4.0/argot_types_fixed.js:126-190 | `unit -> t` and `t * unit` normalise to `[[t]]` |
| Canon.HigherOrderParameterFlattened | bap/api/v1.4.0/argot_types_fixed.js:169-190 | an arrow in parameter position is flattened into the coordinate |
| Perms.Integers | bap/api/v1.4.0/argot_types_fixed.js:193-199 | the result is 0, 1, ..., n - 1 |
| Perms.Permuter.Permuts | bap/api/v1.4.0/argot_types_fixed.js:202-214 | `tmp` and `l` are restored on return, and `res` is extended by every arrangement of `l` after `tmp`, in the backtracking order |
| Perms.Permutations | bap/api/v1.4.0/argot_types_fixed.js:217-221 | the result is the sequence of arrangements of 0..n-1 |
| Perms.PermutsShape | bap/api/v1.4.0/argot_types_fixed.js:202-214 | each appended sequence is `tmp` followed by a rearrangement of `l` |
| Perms.PermutsComplete | bap/api/v1.4.0/argot_types_fixed.js:202-214 | each rearrangement of `l` is appended after `tmp` |
| Perms.CountPermuts | bap/api/v1.4.0/argot_types_fixed.js:202-214 | `permuts` appends n! sequences for an `l` of length n |
| Perms.DistinctPermuts | bap/api/v1.4.0/argot_types_fixed.js:202-214 | the appended sequences are pairwise distinct when `l` is |
| Perms.PermutationsCount | bap/api/v1.4.0/argot_types_fixed.js:217-221 | `permutations(n)` lists n! sequences |
| Perms.PermutationsDistinct | bap/api/v1.4.0/argot_types_fixed.js:217-221 | no sequence is listed twice |
| Perms.PermutationsExactly | bap/api/v1.4.0/argot_types_fixed.js:193-221 | a sequence is listed if and only if it is a permutation of `integers(n)` |
| Equiv.BindResult | bap/api/v1.4.0/argot_types_fixed.js:229-241 | a successful bind maps `v1` to `v2` and keeps every other entry |
| Equiv.BindFails | bap/api/v1.4.0/argot_types_fixed.js:229-241 | `bind` fails if and only if `v1` is mapped to another value or another key maps to `v2` |
| Equiv.BindInjective | bap/api/v1.4.0/argot_types_fixed.js:229-241 | binding keeps an injective substitution injective |
| Equiv.Subst.Bind | bap/api/v1.4.0/argot_types_fixed.js:229-241 | the scan for another key mapped to `v2` and the update agree with `BindResult`; on failure the substitution is unchanged |
| Equiv.Subst.Copy | bap/api/v1.4.0/argot_types_fixed.js:244-250 | the copy is a fresh object with the same entries |
| Equiv.Subst.EqualElement | bap/api/v1.4.0/argot_types_fixed.js:253-271 | the verdict and the new substitution are those of `ElementMatch` on the old substitution |
| Equiv.ElementMatchExtends | bap/api/v1.4.0/argot_types_fixed.js:253-271 | matching only adds bindings, keeps the substitution injective, and binds only variables of the first type to variables of the second |
| Equiv.ElementMatchSelf | bap/api/v1.4.0/argot_types_fixed.js:253-271 | a type matches itself under an identity substitution, which stays an identity |
| Equiv.TagsIgnored | bap/api/v1.4.0/argot_types_fixed.js:253-264 | `(a * b) list` and `(a -> b) list` are equal: node kinds are not compared |
| Equiv.MatchParams | bap/api/v1.4.0/argot_types_fixed.js:287-299 | one permutation's trial, on a copy of the anchor substitution, succeeds exactly when the parameters match in that order |
| Equiv.EqualCoordinate | bap/api/v1.4.0/argot_types_fixed.js:274-302 | true exactly when the lengths agree and either both are empty, or the last elements match under a fresh substitution and some permutation of the parameters matches under it |
| Equiv.EqualNormalForm | bap/api/v1.4.0/argot_types_fixed.js:305-322 | true exactly when the coordinate counts agree and some permutation pairs every coordinate with a matching one |
| Equiv.PairCoordinates | bap/api/v1.4.0/argot_types_fixed.js:312-316 | the inner `while` loop reaches the end exactly when the permutation pairs every coordinate of `t1` with a matching coordinate of `t2` |
| Equiv.CoordinateSelf | bap/api/v1.4.0/argot_types_fixed.js:274-302 | every coordinate matches itself |
| Equiv.NormalFormSelf | bap/api/v1.4.0/argot_types_fixed.js:305-322 | every normal form matches itself |
| Equiv.RenamedVariables | bap/api/v1.4.0/argot_types_fixed.js:305-322 | `'a -> 'a` and `'b -> 'b` both normalise, and their normal forms match |
| Equiv.RenamingIsInjective | bap/api/v1.4.0/argot_types_fixed.js:305-322 | `'a -> 'b` and `'a -> 'a` both normalise, and their normal forms do not match |
| Equiv.ReorderedParameters | bap/api/v1.4.0/argot_types_fixed.js:274-322 | `a -> b -> c` and `b -> a -> c` both normalise, and their normal forms match |
| Equiv.CoordinatesRenamedApart | bap/api/v1.4.0/argot_types_fixed.js:274-302 | `'a * 'a` and `'a * 'b` both normalise, and their normal forms match, since each coordinate starts from an empty substitution |
| Optional.GetOptionalCount | bap/api/v1.4.0/argot_types_fixed.js:325-341 | the loop counts the optional nodes, not descending into them |
| Optional.Power2 | bap/api/v1.4.0/argot_types_fixed.js:344-350 | the doubling loop computes 2^x |
| Optional.SignatureCounter.NthSignatureAux | bap/api/v1.4.0/argot_types_fixed.js:354-382 | the result is the signature `NthFrom` selects from the counter's start, and the counter advances by the number of optional nodes |
| Optional.SignatureCounter.KeepChildren | bap/api/v1.4.0/argot_types_fixed.js:365-371 | the children loop keeps, in order, the signatures of the children that are not dropped, and advances the counter by their optional nodes |
| Optional.NthSignature | bap/api/v1.4.0/argot_types_fixed.js:385-388 | with the counter reset, the result is signature n counted from bit 0 |
| Optional.OnlyItsBitsMatter | bap/api/v1.4.0/argot_types_fixed.js:354-382 | the signature depends only on the bits its optional nodes read, one per node in pre-order |
| Optional.NoOptionalIdentity | bap/api/v1.4.0/argot_types_fixed.js:354-382 | a type without optional nodes or one-child nodes is its own signature for every n |
| Optional.OptionalArrow | bap/api/v1.4.0/argot_types_fixed.js:354-388 | for `?a -> b`, signature 0 collapses to `b` and signature 1 is `a -> b` |
| Manifests.ManifestTable.AddManifest | bap/api/v1.4.0/argot_types_fixed.js:394-408 | the manifest is recorded under its name when both texts parse, and the table is unchanged otherwise |
| Manifests.BindFormals | bap/api/v1.4.0/argot_types_fixed.js:436-447 | the copied substitution is extended with the formals of the declaration bound to the actuals |
| Manifests.BindActualsLast | bap/api/v1.4.0/argot_types_fixed.js:440-444 | a positional formal ends bound to the actual at its last position, or unbound when that actual is undefined |
| Manifests.BindActualsOther | bap/api/v1.4.0/argot_types_fixed.js:436-444 | a variable that is not a formal keeps its ambient binding |
| Manifests.ManifestTable.RewriteAux | bap/api/v1.4.0/argot_types_fixed.js:411-475 | the recursive rewriting against the table equals `Rewrite` |
| Manifests.ManifestTable.RewriteChildren | bap/api/v1.4.0/argot_types_fixed.js:419-422 | the children loop rewrites each of the first `len` children under the ambient substitution, in order |
| Manifests.ManifestTable.RewriteManifests | bap/api/v1.4.0/argot_types_fixed.js:478-480 | rewriting from the empty substitution equals `Expand` |
| Manifests.RewriteIdentity | bap/api/v1.4.0/argot_types_fixed.js:411-475 | a type referring to no manifest and no bound variable is rewritten to itself |
| Manifests.RewriteAppIdentity | bap/api/v1.4.0/argot_types_fixed.js:426-451 | an application whose name slot is no manifest and whose arguments refer to no manifest and no bound variable is rewritten to itself |
| Manifests.ExpandIdentity | bap/api/v1.4.0/argot_types_fixed.js:411-480 | `rewrite_manifests` returns a manifest-free type unchanged |
| Manifests.ArgumentsUnderAmbient | bap/api/v1.4.0/argot_types_fixed.js:427-432 | each argument slot of an application is rewritten under the ambient substitution |
| Manifests.ExpandApplication | bap/api/v1.4.0/argot_types_fixed.js:426-451 | with `'a foo = 'a list`, `int foo` becomes the application of `int` to `int list` |
| Manifests.NotIdempotent | bap/api/v1.4.0/argot_types_fixed.js:461-471 | with `a = b` and `b = c`, `a` rewrites to `b` and `b` to `c`: one link per rewrite |
| Signatures.SignatureFormsShape | bap/api/master/argot_search.js:60-64 | the loop's list has one entry per signature number, that signature's normal form, and exists exactly when every signature normalises |
| Signatures.TypeListShape | bap/api/master/argot_search.js:54-69 | no optional parameter gives the single normal form; k of them give exactly 2^k, the i-th from signature i; None when any fails |
| Signatures.MakeTypeList | bap/api/master/argot_search.js:54-69 | the result is `TypeList` |
| Signatures.OCamlTypeOf | bap/api/master/argot_search.js:72-88 | the text is kept; a text with `...` or one that does not parse has no normal forms |
| Signatures.IndexOfEllipsis | bap/api/master/argot_search.js:75 | true exactly when `...` occurs in the text |
| Signatures.MakeOCamlType | bap/api/master/argot_search.js:72-88 | the record is `OCamlTypeOf`: the type lists of the parsed type and of its manifest expansion |
| Signatures.StripSpaces | bap/api/master/argot_search.js:93 | the result has no space and has every other character as often as the text |
| Signatures.StripSpacesConcat | bap/api/master/argot_search.js:93 | removing spaces distributes over concatenation, so order is kept |
| Signatures.AnyPairEqual | bap/api/master/argot_search.js:95-101 | the nested loops answer true exactly when some pair of normal forms match |
| Signatures.SameType | bap/api/master/argot_search.js:91-103 | text comparison without spaces when either list is missing, otherwise some pair of normal forms match |
| Signatures.SameTypeManifest | bap/api/master/argot_search.js:106-118 | the same comparison on the manifest-expanded lists |
| Signatures.OwnTypeMatches | bap/api/master/argot_search.js:72-118 | a record matches itself, with and without manifests |
| Signatures.EllipsisComparedAsText | bap/api/master/argot_search.js:75-93 | a type with `...` matches exactly the records whose text equals it once spaces are removed |
| Search.Element.constructor | bap/api/master/argot_search.js:121-128 | the element holds its names, kind, reference and documentation, and the record of its type |
| Search.LexTotal | bap/api/master/argot_search.js:132-134 | of two distinct names exactly one sorts first |
| Search.LexTransitive | bap/api/master/argot_search.js:132-134 | the string order is transitive |
| Search.CompareOrder | bap/api/master/argot_search.js:131-139 | `compare` is 0 exactly on equal full names, antisymmetric and transitive |
| Search.LookupAddTo | bap/api/master/argot_search.js:29-46 | adding under a key appends the element to that key's list, creating it if missing, and leaves other keys alone |
| Search.Catalog.NamesAdd | bap/api/master/argot_search.js:29-36 | only the name table changes, by `AddTo` |
| Search.Catalog.WordAdd | bap/api/master/argot_search.js:39-46 | only the word table changes, by `AddTo` |
| Search.AddWordsLookup | bap/api/master/argot_search.js:149-151 | after the word loop each word's list gains the element once per occurrence of the word |
| Search.AddWordsListed | bap/api/master/argot_search.js:149-151 | after the word loop the element is listed under each of its words |
| Search.Catalog.AddOCamlElement | bap/api/master/argot_search.js:142-152 | the new element is listed under its short name, under its full name, under each of its words, and once more in the instances; the tables stay consistent |
| Search.AddKeepsIndexed | bap/api/master/argot_search.js:142-152 | adding an element keeps every indexed element an instance and every instance findable by both names |
| Search.Catalog.SearchByName | bap/api/master/argot_search.js:200-211 | the result is the list under the exact name, all of them instances |
| Search.Catalog.SearchByWord | bap/api/master/argot_search.js:260-268 | `dest` followed by the list under the upper-cased word |
| Search.Split | bap/api/master/argot_search.js:289 | splitting on spaces gives at least one piece and no piece contains a space |
| Search.JoinSplit | bap/api/master/argot_search.js:289 | the pieces joined with single spaces give back the query |
| Search.SplitJoin | bap/api/master/argot_search.js:289 | splitting space-free pieces joined by spaces gives back the pieces |
| Search.Intersect | bap/api/master/argot_search.js:271-283 | the scan keeps the elements of `a1` found in `a2`, as `Filter` |
| Search.FilterCount | bap/api/master/argot_search.js:271-283 | each element occurs as often as in `a1` when `a2` has it, otherwise not at all |
| Search.FilterMembers | bap/api/master/argot_search.js:271-283 | an element is kept exactly when it is in both arrays |
| Search.FilterSubsequence | bap/api/master/argot_search.js:271-283 | the result is a subsequence of `a1` |
| Search.Catalog.SearchByFulltext | bap/api/master/argot_search.js:286-302 | the result is the first word's list narrowed by each later non-empty word's list |
| Search.FulltextMembers | bap/api/master/argot_search.js:286-302 | an element is found exactly when it is listed under the first word and under every later non-empty word |
| Search.Catalog.SearchByType | bap/api/master/argot_search.js:230-242 | the instances whose records `same_type` matches with the query's, in catalogue order |
| Search.Catalog.SearchByTypeManifest | bap/api/master/argot_search.js:245-257 | the same with `same_type_manifest` |
| Search.MatchingCount | bap/api/master/argot_search.js:230-257 | a type search keeps every matching instance as often as it is listed, and nothing else |
| Search.OwnTypeFound | bap/api/master/argot_search.js:230-257 | searching with the type text an instance was recorded with, against the same manifests, finds it |

## Left out

- The parser (`argot_parser.parse`) is a parameter; its grammar is not modelled.
- The HTML side is not modelled: `point_to_window`, `point_to_frame`, `format`, `exec_query` and the page writes of `set_result`. These are browser I/O.
- The sort by `compare` in `set_result` is not modelled, because it is the browser's `Array.prototype.sort`. `Search.CompareOrder` proves `compare` is the total order such a sort needs.
- `search_by_regexp` is not modelled: it relies on the browser's regular-expression engine, including the `lastIndex` state of a `g` regular expression.
- The `console.log` tracing in `rewrite_manifests_aux` is not modelled.
- Object-prototype keys such as `constructor` are not modelled. In the source they are truthy table entries; in the model the tables hold only what was added.
- Search.UpperChar: upper-cases ASCII letters only, where `toUpperCase` covers all of Unicode.
- Search.LexLess: compares Unicode scalar values, where JavaScript compares UTF-16 code units; the two orders differ only above U+FFFF.
- Acyclicity of the manifest table is a precondition of every member that expands manifests, witnessed by a ghost rank map. It constrains only manifests reached through the name slot of a type application: a cycle of identifiers alone, such as `a = b` and `b = a`, is allowed, because an identifier is replaced by a body that is not rewritten again. A cycle through an application, such as `'a t` declared as `'a t`, makes `rewrite_manifests_aux` recurse without bound until the JavaScript stack overflows. The `try`/`catch` of the `OCaml_type` constructor (bap/api/master/argot_search.js:74-87) catches that error and sets both the normal forms and the manifest forms to null, even though the normal forms need no expansion. `same_type` and `same_type_manifest` then compare the texts with spaces removed (bap/api/master/argot_search.js:91-93, 106-108). The model does not cover that fallback on such tables. `Signatures.OCamlTypeOf`, `Signatures.MakeOCamlType`, `Search.Element.constructor`, `Search.Catalog.AddOCamlElement`, `Search.Catalog.SearchByType` and `Search.Catalog.SearchByTypeManifest` all require an acyclic table, so they promise nothing when the table has a cycle through an application.
- Optional.Bit: models `1 << id` on 32-bit integers. With more than 32 optional parameters, bits repeat as in the source, but `power2` then exceeds any 32-bit `n`; the model keeps the mathematical 2^k.
- Types.GetVariables: states the set of variables and their distinctness, not the first-occurrence order of the list.
- Manifests.ManifestTable.RewriteAux: a formal bound to an undefined actual is modelled as unbound. The source stores `undefined`, which `subst[t] == undefined` then treats the same way.
- `permuts` in the source pushes the one-element arrays that `splice` returns, which JavaScript index coercion then treats as numbers. The model uses the numbers directly.
- The name slot of a type application is looked up in the table only when it is an atom. The source would look up a composite slot by its `toString`, which cannot be a type name.
- Loose `==` between an array and a string in `equal_element` is treated as unequal.
- The leaked global `attr` and the no-op `res.kind` assignment on a number are not modelled.
- Manifests.NotIdempotent: an identifier is replaced by its manifest's body, and that body is not rewritten (bap/api/v1.4.0/argot_types_fixed.js:461-471). Expanding twice can therefore differ from expanding once.
