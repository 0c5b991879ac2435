# RdfCanonicalizer in Dafny

This project models dotNetRDF's `RdfCanonicalizer`, the library's implementation of
the W3C RDF Dataset Canonicalization algorithm (RDFC-1.0, formerly URDNA2015). The
canonicaliser takes a list of graphs and returns the same graphs with every blank
node renamed to a canonical label `c14n0`, `c14n1`, ... . Which blank node gets
which label is decided by hashes of the quads around it, and the model states that
decision exactly. The N-degree hash is specified recursively, each recursive call
with less of the recursion budget left, and that specification is proved to give one
result for given inputs, however the permutations were pruned. That the labels do
not depend on the input's blank-node identifiers is not proved here (see "Left
out"). Its steps are modelled here:

- **Index.** The blank-node-to-quads map lists, for every blank node, each quad it
  occurs in, once per occurrence.
- **Simple passes.** Every waiting blank node is hashed from its quads, with itself
  masked as `_:a` and every other blank node as `_:z` (the first-degree hash).
  Blank nodes whose hash is unique get canonical labels, in ordinal order of the
  hash. This repeats while a pass labels something.
- **Deep pass.** Each remaining hash group is resolved by the N-degree hasher. The
  hasher explores every permutation of each group of related blank nodes. It keeps
  the ordinally least path and prunes paths that can no longer win, and it recurses
  on related blank nodes that are not yet labelled, under a per-instance budget of
  1000 calls. The model threads the counter through every call: each N-degree hash
  decrements it exactly once, in the order the calls are made. A permutation is
  abandoned at the first prefix that meets the source's test against the path
  chosen so far, and at no other point, so the counter after every call is fixed
  by the budget: two computations from the same budget have the same trace. A
  failure is a computation in which some call found the counter at zero or below,
  and a computation that succeeds from a budget does not also fail from it.
- **Output.** Every blank node in subject, predicate, object or graph-name position
  is replaced by its canonical label without the `_:`.

The model is layered by module:

| module | models |
|---|---|
| `Ordinal` | ordinal string comparison and the stable `OrderBy` |
| `Hashing` | `MultiHash`: lowercase hex of a digest of the concatenated inputs |
| `Rdf` | nodes, triples, graphs, quads and `PrepareQuadForHash` |
| `Multimaps` | `MultiValueDictionary`, as a value and as a class updated in place |
| `Issuers` | the blank-node identifier issuer (`BlankNodeGenerator`), as an immutable value |
| `Permutations` | `RotateRight` and `Permute` on an array, with the list of orderings they produce |
| `FirstDegree` | the index and the first-degree hash and grouping |
| `Related` | related hashes, the related map, permutation paths with their choice, and the recursive specification of the N-degree hash |
| `Relabelling` | the output relabelling |
| `Canonicalization` | the `Canonicalizer` class: the imperative algorithm over its fields |
| `Determinism` | the N-degree hash specification gives one hash and one issuer for given inputs, one trace for a given budget, and never both success and running out from the same budget |

The fields of the `Canonicalizer` class are the source's fields:
- the canonical issuer;
- the two multimaps;
- the recursion counter.

Its methods change those fields step by step, as the source does. Each method is
tied to the pure functions of the lower modules, which carry the properties.

Things the library borrows from elsewhere are fields of a `Primitives` value passed
in:
- the digest function;
- the N-Quads formatting of a quad;
- the text of a node;
- the prefix a fresh `BlankNodeGenerator` issues under.

## Model

| member | source | states |
|---|---|---|
| Ordinal.Compare | Libraries/dotNetRdf.Core/Core/RdfCanonicalizer.cs:225-228 | the sign of StringComparer.Ordinal's comparison, which orders UTF-16 code units (the source uses only the sign): -1, 0 or 1, and 0 exactly for equal strings |
| Ordinal.CodeUnits | Libraries/dotNetRdf.Core/Core/RdfCanonicalizer.cs:228 | a character is one UTF-16 code unit below U+10000 and otherwise a high surrogate followed by a low surrogate |
| Ordinal.CodeUnitsInjective | Libraries/dotNetRdf.Core/Core/RdfCanonicalizer.cs:228 | different characters have different code-unit encodings |
| Ordinal.Utf16Append | Libraries/dotNetRdf.Core/Core/RdfCanonicalizer.cs:228 | the code units of a concatenation are the concatenation of the code units |
| Ordinal.Utf16Injective | Libraries/dotNetRdf.Core/Core/RdfCanonicalizer.cs:228 | different strings have different code-unit sequences, so ordinal comparison is 0 only for equal strings |
| Ordinal.CompareUnits | Libraries/dotNetRdf.Core/Core/RdfCanonicalizer.cs:228 | lexicographic comparison of code-unit sequences returns -1, 0 or 1, and 0 exactly for equal sequences |
| Ordinal.SupplementaryBelowHighBmp | Libraries/dotNetRdf.Core/Core/RdfCanonicalizer.cs:228 | a character above U+FFFF sorts below one in U+E000..U+FFFF, although its scalar value is greater: ordinal order is not scalar-value order |
| Ordinal.PrefixTransitive | Libraries/dotNetRdf.Core/Core/RdfCanonicalizer.cs:188-191 | a prefix of a prefix is a prefix |
| Ordinal.CompareUnitsAntisymmetric | Libraries/dotNetRdf.Core/Core/RdfCanonicalizer.cs:225-228 | swapping two code-unit sequences negates their comparison |
| Ordinal.LessUnitsTransitive | Libraries/dotNetRdf.Core/Core/RdfCanonicalizer.cs:226 | less-than on code-unit sequences is transitive |
| Ordinal.GreaterUnitsExtends | Libraries/dotNetRdf.Core/Core/RdfCanonicalizer.cs:188-191 | a code-unit sequence greater than another, and not a prefix of it, stays greater however it is extended |
| Ordinal.CompareAntisymmetric | Libraries/dotNetRdf.Core/Core/RdfCanonicalizer.cs:225-228 | swapping the arguments negates the comparison |
| Ordinal.LessTransitive | Libraries/dotNetRdf.Core/Core/RdfCanonicalizer.cs:226 | ordinal less-than is transitive |
| Ordinal.LessTotal | Libraries/dotNetRdf.Core/Core/RdfCanonicalizer.cs:226 | any two strings are equal or one is ordinally less |
| Ordinal.GreaterIsLess | Libraries/dotNetRdf.Core/Core/RdfCanonicalizer.cs:225-226 | StringGreaterThan(a, b) holds exactly when StringLessThan(b, a) |
| Ordinal.GreaterExtends | Libraries/dotNetRdf.Core/Core/RdfCanonicalizer.cs:188-191 | a string ordinally greater than another stays greater however it is extended: pruning cannot drop a path that would have won |
| Ordinal.GreaterLowered | Libraries/dotNetRdf.Core/Core/RdfCanonicalizer.cs:208-212 | a path greater than the chosen path is greater than any path later chosen below it |
| Ordinal.LessAtMost | Libraries/dotNetRdf.Core/Core/RdfCanonicalizer.cs:208-212 | a path below the chosen path is below everything the chosen path is at most |
| Ordinal.AtMostTransitive | Libraries/dotNetRdf.Core/Core/RdfCanonicalizer.cs:225-228 | "at most" in ordinal order is transitive |
| Ordinal.InsertBy | Libraries/dotNetRdf.Core/Core/RdfCanonicalizer.cs:98 | one insertion step of the sort adds exactly the element to the multiset |
| Ordinal.InsertBySorted | Libraries/dotNetRdf.Core/Core/RdfCanonicalizer.cs:98 | inserting into a sorted list keeps it sorted |
| Ordinal.SortBy | Libraries/dotNetRdf.Core/Core/RdfCanonicalizer.cs:98 | OrderBy on a key returns a permutation of its input sorted by the key |
| Ordinal.SortByStable | Libraries/dotNetRdf.Core/Core/RdfCanonicalizer.cs:98 | OrderBy is stable: elements with the same key keep their input order |
| Ordinal.SortOrdinal | Libraries/dotNetRdf.Core/Core/RdfCanonicalizer.cs:143 | ordinal sort of strings yields a sorted permutation with the same members |
| Ordinal.SortedUnique | Libraries/dotNetRdf.Core/Core/RdfCanonicalizer.cs:143 | two sorted lists with the same multiset are equal |
| Ordinal.SortOrdinalPermutation | Libraries/dotNetRdf.Core/Core/RdfCanonicalizer.cs:143 | the sorted result depends only on the multiset of the input, not its order |
| Hashing.HexDigit | Libraries/dotNetRdf.Core/Core/RdfCanonicalizer.cs:266 | a nibble becomes a lowercase hex character |
| Hashing.HexValue | Libraries/dotNetRdf.Core/Core/RdfCanonicalizer.cs:266 | a lowercase hex character has a nibble value that formats back to it |
| Hashing.ByteToHex | Libraries/dotNetRdf.Core/Core/RdfCanonicalizer.cs:266 | a byte formatted "x2" is exactly two lowercase hex characters |
| Hashing.Hex | Libraries/dotNetRdf.Core/Core/RdfCanonicalizer.cs:264-268 | the digest text has two lowercase hex characters per byte |
| Hashing.HexDigitValue | Libraries/dotNetRdf.Core/Core/RdfCanonicalizer.cs:266 | reading a formatted nibble gives the nibble back |
| Hashing.UnhexHex | Libraries/dotNetRdf.Core/Core/RdfCanonicalizer.cs:264-268 | the hex text decodes to the digest bytes: no information is lost |
| Hashing.HexInjective | Libraries/dotNetRdf.Core/Core/RdfCanonicalizer.cs:264-268 | different digests give different hex texts |
| Hashing.Concat | Libraries/dotNetRdf.Core/Core/RdfCanonicalizer.cs:259-262 | appending the inputs one by one feeds a single input unchanged |
| Hashing.ConcatAppend | Libraries/dotNetRdf.Core/Core/RdfCanonicalizer.cs:259-262 | feeding two input lists in turn is feeding their concatenation |
| Hashing.MultiHash | Libraries/dotNetRdf.Core/Core/RdfCanonicalizer.cs:255-269 | the hash is lowercase hex, twice as long as the digest of the concatenated inputs |
| Hashing.MultiHashSplit | Libraries/dotNetRdf.Core/Core/RdfCanonicalizer.cs:255-262 | the incremental hash only sees the concatenation: how the inputs are split does not matter |
| Rdf.BlankIds | Libraries/dotNetRdf.Core/Core/RdfCanonicalizer.cs:57 | the OfType&lt;BlankNode&gt; filter keeps exactly the blank nodes' identifiers |
| Rdf.MaskNode | Libraries/dotNetRdf.Core/Core/RdfCanonicalizer.cs:273-287 | a blank node becomes `a` exactly when it is the reference node and `z` otherwise; other nodes are unchanged |
| Rdf.PrepareQuadForHash | Libraries/dotNetRdf.Core/Core/RdfCanonicalizer.cs:271-290 | the masking is applied in all four positions and nowhere else |
| Rdf.PrepareQuadForHashIdempotent | Libraries/dotNetRdf.Core/Core/RdfCanonicalizer.cs:271-290 | a masked quad holds only `a` and `z` blank nodes, and masking it again for `a` changes nothing |
| Rdf.PrepareQuadForHashGround | Libraries/dotNetRdf.Core/Core/RdfCanonicalizer.cs:271-290 | a quad without blank nodes is left as it is |
| Rdf.PrepareQuadForHashRenaming | Libraries/dotNetRdf.Core/Core/RdfCanonicalizer.cs:271-290 | masking forgets the labels: renaming blank nodes first, by any renaming that sends no other identifier onto the reference's new name, gives the same masked quad |
| Multimaps.Multimap.Add | Libraries/dotNetRdf.Core/Core/RdfCanonicalizer.cs:297-307 | the value is appended to the key's list, created (and its key listed last) when new; other keys are unchanged |
| Multimaps.Multimap.Remove | Libraries/dotNetRdf.Core/Core/RdfCanonicalizer.cs:319 | the key and its list are gone, and an absent key changes nothing |
| Multimaps.RemoveKeys | Libraries/dotNetRdf.Core/Core/RdfCanonicalizer.cs:79 | removing a list of keys leaves exactly the other keys with their lists |
| Multimaps.EmptyMultimap | Libraries/dotNetRdf.Core/Core/RdfCanonicalizer.cs:295 | a new dictionary is empty and well formed |
| Multimaps.FromPairs | Libraries/dotNetRdf.Core/Core/RdfCanonicalizer.cs:55-59 | adding a list of pairs in turn gives a well-formed multimap |
| Multimaps.FromPairsGroups | Libraries/dotNetRdf.Core/Core/RdfCanonicalizer.cs:297-307 | a key is present exactly when some pair has it, and its list is that key's values in order of addition |
| Multimaps.ValuesForMembers | Libraries/dotNetRdf.Core/Core/RdfCanonicalizer.cs:297-307 | a key's list holds exactly the values paired with it |
| Multimaps.ValuesForCount | Libraries/dotNetRdf.Core/Core/RdfCanonicalizer.cs:297-307 | a value is listed under a key as many times as it was added under it |
| Multimaps.ValuesForDistinct | Libraries/dotNetRdf.Core/Core/RdfCanonicalizer.cs:297-307 | distinct pairs give a key a list without repetition |
| Multimaps.MultiValueDictionary.constructor | Libraries/dotNetRdf.Core/Core/RdfCanonicalizer.cs:295 | a new dictionary holds nothing |
| Multimaps.MultiValueDictionary.Add | Libraries/dotNetRdf.Core/Core/RdfCanonicalizer.cs:297-307 | the dictionary changes as Multimap.Add says |
| Multimaps.MultiValueDictionary.Remove | Libraries/dotNetRdf.Core/Core/RdfCanonicalizer.cs:319 | the dictionary changes as Multimap.Remove says |
| Multimaps.MultiValueDictionary.Clear | Libraries/dotNetRdf.Core/Core/RdfCanonicalizer.cs:318 | the dictionary is emptied |
| Multimaps.MultiValueDictionary.Get | Libraries/dotNetRdf.Core/Core/RdfCanonicalizer.cs:309 | the indexer returns the key's non-empty list |
| Sequences.RemoveFirst | Libraries/dotNetRdf.Core/Core/RdfCanonicalizer.cs:80 | List.Remove takes out the first occurrence and keeps the order of the rest; an absent element changes nothing |
| Sequences.RemoveFirstDistinct | Libraries/dotNetRdf.Core/Core/RdfCanonicalizer.cs:80 | removing from a list without repetition removes exactly that element |
| Sequences.RemoveAllMembers | Libraries/dotNetRdf.Core/Core/RdfCanonicalizer.cs:76-82 | removing each labelled identifier leaves exactly the identifiers not labelled |
| Sequences.RemoveAllShorter | Libraries/dotNetRdf.Core/Core/RdfCanonicalizer.cs:76-82 | a pass that labels a waiting identifier shortens the waiting list |
| Issuers.NatToString | Libraries/dotNetRdf.Core/Core/RdfCanonicalizer.cs:39 | the counter of a label is written as a non-empty run of decimal digits |
| Issuers.ParseNatToString | Libraries/dotNetRdf.Core/Core/RdfCanonicalizer.cs:39 | the counter can be read back from its digits |
| Issuers.NatToStringInjective | Libraries/dotNetRdf.Core/Core/RdfCanonicalizer.cs:39 | different counters are written differently |
| Issuers.Label | Libraries/dotNetRdf.Core/Core/RdfCanonicalizer.cs:38-39 | a label is `_:`, then the issuer's prefix, then at least one digit |
| Issuers.LabelInjective | Libraries/dotNetRdf.Core/Core/RdfCanonicalizer.cs:38-39 | an issuer never gives two counters the same label |
| Issuers.Issuer.GetMappedIdentifier | Libraries/dotNetRdf.Core/Core/RdfCanonicalizer.cs:176-183 | the lookup finds a label exactly for the identifiers already mapped, and assigns nothing |
| Issuers.Issuer.GenerateBlankNodeIdentifier | Libraries/dotNetRdf.Core/Core/RdfCanonicalizer.cs:185 | an identifier already mapped keeps its label and the issuer is unchanged; a new one gets the next label, recorded last |
| Issuers.Issuer.GetMappedIdentifiers | Libraries/dotNetRdf.Core/Core/RdfCanonicalizer.cs:99 | defines the mapped identifiers, in assignment order |
| Issuers.NewIssuer | Libraries/dotNetRdf.Core/Core/RdfCanonicalizer.cs:91 | a new issuer has mapped nothing |
| Issuers.Extends | Libraries/dotNetRdf.Core/Core/RdfCanonicalizer.cs:170-200 | defines growth of an issuer: same prefix, and its earlier assignments are a prefix of the later ones |
| Issuers.ExtendsIssued | Libraries/dotNetRdf.Core/Core/RdfCanonicalizer.cs:170 | an issuer obtained by further issuing has mapped everything the original had |
| Issuers.ExtendsTransitive | Libraries/dotNetRdf.Core/Core/RdfCanonicalizer.cs:170 | issuing further from an extension is an extension of the original |
| Issuers.ExtendsKeepsMappings | Libraries/dotNetRdf.Core/Core/RdfCanonicalizer.cs:170-185 | further issuing never changes a label already given |
| Issuers.GenerateExtends | Libraries/dotNetRdf.Core/Core/RdfCanonicalizer.cs:185 | GenerateBlankNodeIdentifier only extends the issuer |
| Issuers.MappedInjective | Libraries/dotNetRdf.Core/Core/RdfCanonicalizer.cs:185 | two mapped identifiers with the same label are the same identifier |
| Issuers.GenerateAll | Libraries/dotNetRdf.Core/Core/RdfCanonicalizer.cs:98-102 | issuing a list in turn extends the issuer and maps exactly the old identifiers and the listed ones |
| Issuers.GenerateAllConcat | Libraries/dotNetRdf.Core/Core/RdfCanonicalizer.cs:98-102 | issuing a concatenation is issuing the first list and then the second |
| Issuers.GenerateAllAppends | Libraries/dotNetRdf.Core/Core/RdfCanonicalizer.cs:98-102 | the new labels go to the listed identifiers not yet mapped, in order of first appearance |
| Issuers.FirstAppearancesMembers | Libraries/dotNetRdf.Core/Core/RdfCanonicalizer.cs:98-102 | the identifiers newly labelled are exactly the listed ones not mapped before |
| Issuers.StripLabel | Libraries/dotNetRdf.Core/Core/RdfCanonicalizer.cs:108 | Substring(2) of a label is the prefix followed by the counter |
| Issuers.StripPrefix | Libraries/dotNetRdf.Core/Core/RdfCanonicalizer.cs:108 | defines Substring(2): the identifier text without its first two characters |
| Permutations.RotateRightPermutes | Libraries/dotNetRdf.Core/Core/RdfCanonicalizer.cs:331-336 | a rotation of the first `count` elements keeps the length and the tail, and permutes the head |
| Permutations.RotateRight | Libraries/dotNetRdf.Core/Core/RdfCanonicalizer.cs:331-336 | defines the list after RotateRight: element `count - 1` moved to the front, the rest shifted, the tail untouched |
| Permutations.Permutations | Libraries/dotNetRdf.Core/Core/RdfCanonicalizer.cs:338-352 | defines the orderings Permute(list, count) hands out, in order: the list itself for count 1, else the rounds of the loop |
| Permutations.Rounds | Libraries/dotNetRdf.Core/Core/RdfCanonicalizer.cs:345-350 | defines the last `k` turns of the loop: the orderings of the first count-1 elements, then a rotation of the first count |
| Permutations.RotateRightInPlace | Libraries/dotNetRdf.Core/Core/RdfCanonicalizer.cs:331-336 | the array afterwards is the rotation of the array before |
| Permutations.Permute | Libraries/dotNetRdf.Core/Core/RdfCanonicalizer.cs:338-352 | the orderings yielded are those of the enumeration, and the list is back in its original order at the end |
| Permutations.RotateNStep | Libraries/dotNetRdf.Core/Core/RdfCanonicalizer.cs:345-350 | one more turn of the loop is one more rotation |
| Permutations.RotateNClosed | Libraries/dotNetRdf.Core/Core/RdfCanonicalizer.cs:345-350 | after `i` rotations the head reads the last `i` elements, then the first ones |
| Permutations.RotateRightSlices | Libraries/dotNetRdf.Core/Core/RdfCanonicalizer.cs:331-336 | the slices of a rotated list in terms of the original |
| Permutations.RearrangesWiden | Libraries/dotNetRdf.Core/Core/RdfCanonicalizer.cs:347 | a rearrangement of a shorter head is a rearrangement of the longer head |
| Permutations.RearrangesTransitive | Libraries/dotNetRdf.Core/Core/RdfCanonicalizer.cs:345-350 | a rearrangement of a rearrangement is a rearrangement |
| Permutations.RearrangesNarrow | Libraries/dotNetRdf.Core/Core/RdfCanonicalizer.cs:347 | fixing the last element of the head leaves a rearrangement of the shorter head |
| Permutations.PermutationsLength | Libraries/dotNetRdf.Core/Core/RdfCanonicalizer.cs:338-352 | Permute yields count! orderings |
| Permutations.RoundsLength | Libraries/dotNetRdf.Core/Core/RdfCanonicalizer.cs:345-350 | `k` turns of the loop yield `k` times (count-1)! orderings |
| Permutations.PermutationsRearrange | Libraries/dotNetRdf.Core/Core/RdfCanonicalizer.cs:338-352 | every ordering yielded is a permutation of the head and keeps the tail |
| Permutations.RoundsRearrange | Libraries/dotNetRdf.Core/Core/RdfCanonicalizer.cs:345-350 | every ordering yielded by the turns of the loop is a rearrangement |
| Permutations.RotatedToLast | Libraries/dotNetRdf.Core/Core/RdfCanonicalizer.cs:345-350 | turn `n-1-j` puts element `j` last and permutes the rest in front of it |
| Permutations.DropLast | Libraries/dotNetRdf.Core/Core/RdfCanonicalizer.cs:347 | the last element of a rearrangement comes from the head, and the rest is the head without it |
| Permutations.PermutationsComplete | Libraries/dotNetRdf.Core/Core/RdfCanonicalizer.cs:338-352 | every rearrangement of the head is yielded |
| Permutations.RoundsContain | Libraries/dotNetRdf.Core/Core/RdfCanonicalizer.cs:345-350 | a rearrangement ending in the element the turn rotates last is yielded by that turn |
| Permutations.PermutationsDistinct | Libraries/dotNetRdf.Core/Core/RdfCanonicalizer.cs:338-352 | on distinct elements no ordering is yielded twice |
| Permutations.RoundsDistinct | Libraries/dotNetRdf.Core/Core/RdfCanonicalizer.cs:345-350 | different turns yield orderings with different last elements, and none twice |
| Permutations.PermuteEnumeratesAll | Libraries/dotNetRdf.Core/Core/RdfCanonicalizer.cs:338-352 | Permute(xs) yields \|xs\|! lists, which are exactly the orderings of xs, each once when xs has no repetition |
| Permutations.PermutationMembers | Libraries/dotNetRdf.Core/Core/RdfCanonicalizer.cs:168-174 | each ordering has the group's length and only its members |
| FirstDegree.TripleOccurrences | Libraries/dotNetRdf.Core/Core/RdfCanonicalizer.cs:55-59 | one triple pairs its quad with exactly the blank nodes among its four nodes |
| FirstDegree.PairAll | Libraries/dotNetRdf.Core/Core/RdfCanonicalizer.cs:57-59 | each identifier is paired with the quad, in order |
| FirstDegree.TripleOccurrencesInOrder | Libraries/dotNetRdf.Core/Core/RdfCanonicalizer.cs:57-59 | pair `i` of a triple is its quad's `i`th blank node (subject, predicate, object, graph name) with the quad |
| FirstDegree.PairAllCount | Libraries/dotNetRdf.Core/Core/RdfCanonicalizer.cs:57-59 | a pair occurs as often as its identifier occurs in the quad's blank nodes, and only with that quad |
| FirstDegree.GraphOccurrencesMembers | Libraries/dotNetRdf.Core/Core/RdfCanonicalizer.cs:55-59 | a graph contributes (x, q) exactly when x is a blank node of q, a quad of one of its triples |
| FirstDegree.OccurrencesMembers | Libraries/dotNetRdf.Core/Core/RdfCanonicalizer.cs:55-59 | the dataset contributes (x, q) exactly when q is a quad of the dataset mentioning the blank node x |
| FirstDegree.GraphOccurrences | Libraries/dotNetRdf.Core/Core/RdfCanonicalizer.cs:55-59 | defines the (blank node, quad) pairs of one graph, triple by triple |
| FirstDegree.Occurrences | Libraries/dotNetRdf.Core/Core/RdfCanonicalizer.cs:55-59 | defines the (blank node, quad) pairs of the dataset, graph by graph, in the order the index is built from them |
| FirstDegree.IndexOfDataset | Libraries/dotNetRdf.Core/Core/RdfCanonicalizer.cs:55-61 | the index lists every quad under each of its blank nodes, and every blank node of an indexed quad is a key |
| FirstDegree.GraphMentionCountProduct | Libraries/dotNetRdf.Core/Core/RdfCanonicalizer.cs:55-59 | a graph pairs `x` with `q` once per triple giving `q` and per position of `x` in `q` |
| FirstDegree.MentionCountProduct | Libraries/dotNetRdf.Core/Core/RdfCanonicalizer.cs:55-59 | the dataset pairs `x` with `q` once per triple giving `q` and per position of `x` in `q` |
| FirstDegree.GraphOccurrencesCount | Libraries/dotNetRdf.Core/Core/RdfCanonicalizer.cs:55-59 | a graph's pairs hold (x, q) as many times as the graph's triples pair them |
| FirstDegree.OccurrencesCount | Libraries/dotNetRdf.Core/Core/RdfCanonicalizer.cs:55-59 | the dataset's pairs hold (x, q) as many times as its triples pair them |
| FirstDegree.IndexMultiplicity | Libraries/dotNetRdf.Core/Core/RdfCanonicalizer.cs:55-59 | the index lists quad `q` under `x` once per triple giving `q` and per position of `x` in it, so a quad with `x` in two positions is listed twice |
| FirstDegree.HashLines | Libraries/dotNetRdf.Core/Core/RdfCanonicalizer.cs:140-142 | there is one masked N-Quads line per indexed quad |
| FirstDegree.HashLine | Libraries/dotNetRdf.Core/Core/RdfCanonicalizer.cs:141-142 | defines one hashed line: the masked quad in N-Quads form followed by a line feed |
| FirstDegree.FirstDegreeHash | Libraries/dotNetRdf.Core/Core/RdfCanonicalizer.cs:140-145 | defines the first-degree hash: the hash of the quads' lines sorted ordinally |
| FirstDegree.HashFirstDegreeQuads | Libraries/dotNetRdf.Core/Core/RdfCanonicalizer.cs:136-146 | the first-degree hash is lowercase hex |
| FirstDegree.HashLinesAppend | Libraries/dotNetRdf.Core/Core/RdfCanonicalizer.cs:140-142 | lines are produced quad by quad |
| FirstDegree.HashLinesMultiset | Libraries/dotNetRdf.Core/Core/RdfCanonicalizer.cs:140-142 | reordering the quads reorders the lines |
| FirstDegree.RemoveAtMultiset | Libraries/dotNetRdf.Core/Core/RdfCanonicalizer.cs:140-142 | a list's multiset is that of the list without one element plus that element |
| FirstDegree.HashLinesRemoveAt | Libraries/dotNetRdf.Core/Core/RdfCanonicalizer.cs:140-142 | the lines of a list without one quad are the lines without that quad's line |
| FirstDegree.FirstDegreeHashOrderFree | Libraries/dotNetRdf.Core/Core/RdfCanonicalizer.cs:140-145 | the first-degree hash does not depend on the order of the quads in the index |
| FirstDegree.RenameQuads | Libraries/dotNetRdf.Core/Core/RdfCanonicalizer.cs:140-141 | renaming keeps the number of quads |
| FirstDegree.FirstDegreeHashRenaming | Libraries/dotNetRdf.Core/Core/RdfCanonicalizer.cs:136-146 | the first-degree hash does not depend on the labels of the blank nodes, only on which one is the reference |
| FirstDegree.FirstDegreePairs | Libraries/dotNetRdf.Core/Core/RdfCanonicalizer.cs:70-74 | each waiting identifier is paired with its first-degree hash, in order |
| FirstDegree.FirstDegreeMap | Libraries/dotNetRdf.Core/Core/RdfCanonicalizer.cs:68-74 | the hash-to-blank-nodes map of a pass is well formed |
| FirstDegree.FirstDegreeMapStep | Libraries/dotNetRdf.Core/Core/RdfCanonicalizer.cs:70-74 | adding one more waiting identifier adds it to the map under its own first-degree hash |
| FirstDegree.Singletons | Libraries/dotNetRdf.Core/Core/RdfCanonicalizer.cs:76 | the identifiers picked are exactly the sole members of the listed groups |
| FirstDegree.FirstDegreeGroups | Libraries/dotNetRdf.Core/Core/RdfCanonicalizer.cs:70-74 | a group holds, without repetition, exactly the waiting identifiers with that hash, and a hash no identifier has is absent |
| FirstDegree.FirstDegreeMapCovers | Libraries/dotNetRdf.Core/Core/RdfCanonicalizer.cs:70-74 | every waiting identifier is in its hash's group, and every group member is waiting |
| FirstDegree.SimpleIdsUnique | Libraries/dotNetRdf.Core/Core/RdfCanonicalizer.cs:76-82 | an identifier is labelled in a pass exactly when no other waiting identifier shares its hash |
| FirstDegree.SimpleIds | Libraries/dotNetRdf.Core/Core/RdfCanonicalizer.cs:76-82 | defines the identifiers one simple pass labels: the sole members of single-member groups, by ordinal order of hash |
| FirstDegree.SimpleIdsOnly | Libraries/dotNetRdf.Core/Core/RdfCanonicalizer.cs:76-82 | only identifiers with a unique hash are labelled |
| FirstDegree.UniqueIsSimple | Libraries/dotNetRdf.Core/Core/RdfCanonicalizer.cs:76-82 | every waiting identifier with a unique hash is labelled |
| Related.RelatedIdentifier | Libraries/dotNetRdf.Core/Core/RdfCanonicalizer.cs:244-246 | a related node is named by its canonical label, else its label in the working issuer, else its first-degree hash |
| Related.HashRelatedBlankNode | Libraries/dotNetRdf.Core/Core/RdfCanonicalizer.cs:241-253 | the related hash is lowercase hex |
| Related.HashRelatedCanonicalFixed | Libraries/dotNetRdf.Core/Core/RdfCanonicalizer.cs:244 | for a canonically labelled node the working issuer does not matter |
| Related.RelatedInputGraphIgnoresPredicate | Libraries/dotNetRdf.Core/Core/RdfCanonicalizer.cs:248-250 | in position `g` the predicate is left out; in `s` and `o` it is written in angle brackets between the position and the name |
| Related.RelatedInput | Libraries/dotNetRdf.Core/Core/RdfCanonicalizer.cs:248-250 | defines the text hashed for a related node: the position, the predicate in angle brackets unless the position is `g`, then the node's name |
| Related.QuadIndexedComponents | Libraries/dotNetRdf.Core/Core/RdfCanonicalizer.cs:153-157 | the blank nodes of a quad of the index are themselves in the index |
| Related.ComponentPairs | Libraries/dotNetRdf.Core/Core/RdfCanonicalizer.cs:230-239 | a position contributes a related node exactly when it holds a blank node other than the current one |
| Related.QuadPairs | Libraries/dotNetRdf.Core/Core/RdfCanonicalizer.cs:155-157 | defines the pairs one quad contributes: its subject, object and graph name, in that order |
| Related.RelatedPairs | Libraries/dotNetRdf.Core/Core/RdfCanonicalizer.cs:153-158 | defines the pairs of all the quads of the node, quad after quad |
| Related.RelatedPairsStep | Libraries/dotNetRdf.Core/Core/RdfCanonicalizer.cs:153-158 | one more quad of the loop contributes its subject, object and graph pairs |
| Related.QuadPairsMembers | Libraries/dotNetRdf.Core/Core/RdfCanonicalizer.cs:155-157 | a quad relates exactly the blank nodes other than the current one in subject, object or graph position, never the predicate |
| Related.RelatedPairsMembers | Libraries/dotNetRdf.Core/Core/RdfCanonicalizer.cs:153-158 | the related nodes are exactly those that some quad of the current node relates |
| Related.RelatedMap | Libraries/dotNetRdf.Core/Core/RdfCanonicalizer.cs:152-158 | the related-hash map is well formed |
| Related.RelatedMapIndexed | Libraries/dotNetRdf.Core/Core/RdfCanonicalizer.cs:153-158 | every related node is a blank node of the index |
| Related.RelatedValueIndexed | Libraries/dotNetRdf.Core/Core/RdfCanonicalizer.cs:153-158 | a member of a related group is a blank node of the index |
| Related.RelatedInBlankIds | Libraries/dotNetRdf.Core/Core/RdfCanonicalizer.cs:155-157 | a related node is one of the quad's blank nodes |
| Related.DirectPath | Libraries/dotNetRdf.Core/Core/RdfCanonicalizer.cs:174-193 | the first loop over a permutation extends the issuer copy by exactly the recursion list, all not canonically labelled, and labels every node of the permutation |
| Related.DirectPathStep | Libraries/dotNetRdf.Core/Core/RdfCanonicalizer.cs:176-186 | one node of the permutation adds its canonical label, or its label in the issuer copy and, when new, itself to the recursion list |
| Related.PrunedInDirect | Libraries/dotNetRdf.Core/Core/RdfCanonicalizer.cs:174-192 | defines a first-loop prune: the partial path is the first-loop path of the first non-empty prefix of the permutation that meets the test against the path chosen so far (Abandons); no shorter prefix meets it |
| Related.Abandons | Libraries/dotNetRdf.Core/Core/RdfCanonicalizer.cs:188-189 | defines the source's test for abandoning a permutation: a path has been chosen, the partial path is at least as long in UTF-16 code units, and it is ordinally greater |
| Related.RunningChoice | Libraries/dotNetRdf.Core/Core/RdfCanonicalizer.cs:164-212 | the path chosen after the given outcomes, empty until a permutation completes, then the path of one of the completed outcomes: the first completed one, replaced only by a completed path ordinally below it |
| Related.RunningChoiceChosen | Libraries/dotNetRdf.Core/Core/RdfCanonicalizer.cs:164-212 | when no outcome failed and completed paths are not empty, the running choice after all outcomes is the path IsChoice picks |
| Related.DirectUnpruned | Libraries/dotNetRdf.Core/Core/RdfCanonicalizer.cs:174-192 | defines that no non-empty prefix of the permutation, up to the `n`-th node, met the test against the chosen path |
| Related.DirectUnprunedStep | Libraries/dotNetRdf.Core/Core/RdfCanonicalizer.cs:174-192 | the first loop not abandoned after node `i`, and its next path not meeting the test, is not abandoned after node `i + 1` |
| Related.RecursionPath | Libraries/dotNetRdf.Core/Core/RdfCanonicalizer.cs:195-199 | the path after the first `k` recursions of the second loop: the first-loop path followed by their recursion text |
| Related.RecursionUnpruned | Libraries/dotNetRdf.Core/Core/RdfCanonicalizer.cs:195-205 | defines that the path after none of the first `n` recursions met the test against the chosen path |
| Related.RecursionUnprunedStep | Libraries/dotNetRdf.Core/Core/RdfCanonicalizer.cs:195-205 | a further recursion keeps the paths after the earlier ones, so they still do not meet the test |
| Related.RecursionUnprunedNext | Libraries/dotNetRdf.Core/Core/RdfCanonicalizer.cs:195-205 | the second loop not abandoned after `n - 1` recursions, and the path after the `n`-th not meeting the test, is not abandoned after `n` |
| Related.RecursedUpToPath | Libraries/dotNetRdf.Core/Core/RdfCanonicalizer.cs:195-200 | the path the second loop has built after its recursions so far is RecursionPath of them |
| Related.GrownFromReflexive | Libraries/dotNetRdf.Core/Core/RdfCanonicalizer.cs:170 | an issuer has grown from itself |
| Related.GrownFromTransitive | Libraries/dotNetRdf.Core/Core/RdfCanonicalizer.cs:197-200 | the issuer after a recursion has grown from the issuer before |
| Related.Interleave | Libraries/dotNetRdf.Core/Core/RdfCanonicalizer.cs:162-217 | the data hashed alternates each related hash with the path chosen for its group |
| Related.InterleaveStep | Libraries/dotNetRdf.Core/Core/RdfCanonicalizer.cs:164-217 | one group appends its hash and then its chosen path |
| Related.RecursionText | Libraries/dotNetRdf.Core/Core/RdfCanonicalizer.cs:195-199 | defines the text the second loop appends: each node recursed on, its label in the issuer copy and, in angle brackets, its hash |
| Related.ChosenAt | Libraries/dotNetRdf.Core/Core/RdfCanonicalizer.cs:208-212 | defines the choice at outcome `c`: completed, below every earlier completed path, at most every completed path, every pruned path greater |
| Related.IsChoice | Libraries/dotNetRdf.Core/Core/RdfCanonicalizer.cs:208-212 | defines the chosen path and issuer: the least completed path, the first on a tie, every pruned path greater, and no outcome failed |
| Related.ChoiceFirst | Libraries/dotNetRdf.Core/Core/RdfCanonicalizer.cs:208-212 | the first completed path is chosen |
| Related.ChoiceKeep | Libraries/dotNetRdf.Core/Core/RdfCanonicalizer.cs:188-209 | a pruned path, or a completed one not below the choice, leaves the choice |
| Related.ChoiceReplace | Libraries/dotNetRdf.Core/Core/RdfCanonicalizer.cs:208-212 | a completed path ordinally below the choice becomes the choice |
| Related.CounterAfter | Libraries/dotNetRdf.Core/Core/RdfCanonicalizer.cs:150 | defines the counter a trace ends at: where its last group left it, or the budget if it records none |
| Related.NDegreeCall | Libraries/dotNetRdf.Core/Core/RdfCanonicalizer.cs:197 | defines a recursive call: an N-degree hash whose budget is the counter it found, below the caller's, and which left the counter at the trace's end |
| Related.RecursedWith | Libraries/dotNetRdf.Core/Core/RdfCanonicalizer.cs:195-200 | defines the second loop so far: node `k` recursed on has its N-degree hash under the issuer the call before left, each call finding the counter where the previous one left it |
| Related.PrunedInRecursion | Libraries/dotNetRdf.Core/Core/RdfCanonicalizer.cs:201-205 | defines a second-loop prune: after at least one recursion, the partial path is the first-loop path followed by the recursion text so far, it meets the test against the path chosen so far, and the path after no earlier recursion met it |
| Related.CompletedWith | Libraries/dotNetRdf.Core/Core/RdfCanonicalizer.cs:195-212 | defines a completed permutation: every node recursed on got its N-degree hash, the path after no recursion met the test against the path chosen so far, the path is the first-loop path followed by the recursion text, and the issuer is the last recursion's |
| Related.FailedInRecursion | Libraries/dotNetRdf.Core/Core/RdfCanonicalizer.cs:195-205 | defines a permutation that ran out: the first nodes recursed on got their hashes, the path after none of them met the test against the path chosen so far, and the call on the next one ran out |
| Related.OutcomeOf | Libraries/dotNetRdf.Core/Core/RdfCanonicalizer.cs:168-214 | defines how exploring one permutation ends, given the path chosen so far and the counter before and after: abandoned at the first prefix of the first loop that meets the test (spending nothing); otherwise, no prefix having met it, failed in the second loop, abandoned at the first recursion after which the path meets the test, or completed |
| Related.OutcomesOf | Libraries/dotNetRdf.Core/Core/RdfCanonicalizer.cs:168-215 | defines that outcome `j` is the outcome of permutation `j`, explored against the running choice of the outcomes before it, the counter going from `marks[j]` to `marks[j + 1]` |
| Related.GroupChosen | Libraries/dotNetRdf.Core/Core/RdfCanonicalizer.cs:165-218 | defines one group's choice: every permutation explored from the issuer, each against the path chosen by the permutations before it, outcome by outcome on the counter, and the choice is IsChoice of the outcomes |
| Related.GroupsChosen | Libraries/dotNetRdf.Core/Core/RdfCanonicalizer.cs:162-219 | defines the loop over the related hashes: each group chosen from the issuer and the counter the previous group left, the first from one below the budget |
| Related.NDegreeHashed | Libraries/dotNetRdf.Core/Core/RdfCanonicalizer.cs:148-223 | defines the N-degree hash: the call found budget left, the keys are the related map's in ordinal order, the groups chosen as GroupsChosen says, the hash is that of each key followed by its path, and the issuer is the last choice's |
| Related.NDegreeFails | Libraries/dotNetRdf.Core/Core/RdfCanonicalizer.cs:150-197 | defines a call that runs out: it found the counter at 0 or below, or some trace records it running out in a group |
| Related.NDegreeFailedIn | Libraries/dotNetRdf.Core/Core/RdfCanonicalizer.cs:150-222 | defines a call that ran out inside its last listed group, the groups before it chosen in ordinal order of their hashes |
| Related.GroupsFailed | Libraries/dotNetRdf.Core/Core/RdfCanonicalizer.cs:162-219 | defines the loop over the related hashes stopping: the groups before the last chosen as GroupsChosen says, the last one running out |
| Related.GroupFails | Libraries/dotNetRdf.Core/Core/RdfCanonicalizer.cs:168-215 | defines a group running out: the permutations before the last ended without failing, and the last, explored against the path they chose, failed in its second loop |
| Related.NDegreeFailed | Libraries/dotNetRdf.Core/Core/RdfCanonicalizer.cs:150 | defines how a top-level N-degree hash ran out: at once, or as a trace records it |
| Related.NoneFailedStep | Libraries/dotNetRdf.Core/Core/RdfCanonicalizer.cs:168-215 | no permutation failed so far stays true when the next one does not fail |
| Related.OutcomesOfStep | Libraries/dotNetRdf.Core/Core/RdfCanonicalizer.cs:168-215 | outcome `j` belongs to permutation `j` for one more permutation: a pruned path is a prefix of that permutation's path, a completed one is that permutation's path |
| Related.DirectPathGrows | Libraries/dotNetRdf.Core/Core/RdfCanonicalizer.cs:174-186 | the first-loop path of a longer prefix of a permutation extends that of the shorter prefix |
| Related.DirectPathPrefix | Libraries/dotNetRdf.Core/Core/RdfCanonicalizer.cs:174-193 | the path after the first `i` nodes is a prefix of the full first-loop path |
| Related.RecursionTextGrows | Libraries/dotNetRdf.Core/Core/RdfCanonicalizer.cs:195-199 | recursing on one more node extends the recursion text |
| Related.RecursionTextPrefix | Libraries/dotNetRdf.Core/Core/RdfCanonicalizer.cs:195-206 | the path after the first `k` recursed nodes is a prefix of the completed path |
| Related.GreaterPrefix | Libraries/dotNetRdf.Core/Core/RdfCanonicalizer.cs:188-191 | a path greater than the choice and at least as long, but not a prefix of it, makes every extension greater |
| Related.CompletedExtendsDirect | Libraries/dotNetRdf.Core/Core/RdfCanonicalizer.cs:195-211 | a completed path starts with its permutation's first-loop path |
| Related.PrunedInDirectNeverChosen | Libraries/dotNetRdf.Core/Core/RdfCanonicalizer.cs:188-192 | a path pruned in the first loop would have completed greater than the chosen path, however the recursions had come out |
| Related.PrunedInRecursionNeverChosen | Libraries/dotNetRdf.Core/Core/RdfCanonicalizer.cs:201-205 | a path pruned in the recursion loop would have completed greater than the chosen path, however the later recursions had come out |
| Related.PrunedAboveChoice | Libraries/dotNetRdf.Core/Core/RdfCanonicalizer.cs:188-212 | every pruned permutation, continued in any way, is greater than the final choice |
| Related.RecursionTextStep | Libraries/dotNetRdf.Core/Core/RdfCanonicalizer.cs:195-199 | one node recursed on appends its label and its hash in angle brackets |
| Related.RecursionPathStep | Libraries/dotNetRdf.Core/Core/RdfCanonicalizer.cs:195-200 | the label taken from the issuer returned by the recursion is the one the first loop gave |
| Related.RecursionTurn | Libraries/dotNetRdf.Core/Core/RdfCanonicalizer.cs:195-202 | one turn of the second loop: if the path is the first-loop path followed by the text of the first k nodes recursed on, appending node k's label (from the current issuer copy) and its hash in angle brackets gives the text of the first k+1, which is RecursionPath of them; the paths after the first k still do not meet the test; the issuer the recursion returns has still grown from the loop's starting issuer |
| Related.RecursedUpToPruned | Libraries/dotNetRdf.Core/Core/RdfCanonicalizer.cs:195-205 | a path abandoned after at least one recursive N-degree hash of the second loop, the paths after the earlier ones not having met the test, is a pruned second-loop path |
| Related.RecursedUpToComplete | Libraries/dotNetRdf.Core/Core/RdfCanonicalizer.cs:195-206 | a path with a recursive N-degree hash for every node recursed on, none of the paths along the way meeting the test, is the completed path, and its issuer is the one the last recursion left |
| Related.RecursedUpToFailed | Libraries/dotNetRdf.Core/Core/RdfCanonicalizer.cs:195-197 | a second loop whose next recursive call runs out, none of the paths so far meeting the test, is a permutation that failed in recursion, from the counter at its start |
| Related.RecursedWithStep | Libraries/dotNetRdf.Core/Core/RdfCanonicalizer.cs:195-200 | one more node recursed on, hashed under the issuer the previous recursions left, extends the record of the recursions |
| Related.MappedLabelKept | Libraries/dotNetRdf.Core/Core/RdfCanonicalizer.cs:198-200 | a grown issuer hands out the same label for a node already labelled |
| Relabelling.CanonicalTriples | Libraries/dotNetRdf.Core/Core/RdfCanonicalizer.cs:112-128 | every triple of a graph is written out |
| Relabelling.CanonicalDataset | Libraries/dotNetRdf.Core/Core/RdfCanonicalizer.cs:105-131 | every graph is written out |
| Relabelling.RelabelNode | Libraries/dotNetRdf.Core/Core/RdfCanonicalizer.cs:114-124 | a blank node gets its canonical label without `_:`, issuing one if needed; any other node is copied and the issuer unchanged |
| Relabelling.RelabelName | Libraries/dotNetRdf.Core/Core/RdfCanonicalizer.cs:107-109 | the graph name is relabelled the same way |
| Relabelling.RelabelTriple | Libraries/dotNetRdf.Core/Core/RdfCanonicalizer.cs:114-126 | subject, predicate and object are relabelled in that order, and the issuer only extends |
| Relabelling.RelabelTriples | Libraries/dotNetRdf.Core/Core/RdfCanonicalizer.cs:112-128 | the triples are relabelled in order, and the issuer only extends |
| Relabelling.RelabelGraph | Libraries/dotNetRdf.Core/Core/RdfCanonicalizer.cs:107-128 | the name, then the triples, are relabelled, and the issuer only extends |
| Relabelling.RelabelDataset | Libraries/dotNetRdf.Core/Core/RdfCanonicalizer.cs:105-131 | the graphs are relabelled in order, and the issuer only extends |
| Relabelling.NodeStable | Libraries/dotNetRdf.Core/Core/RdfCanonicalizer.cs:114-124 | a node's canonical form is the same under any extension of the issuer |
| Relabelling.TriplesStable | Libraries/dotNetRdf.Core/Core/RdfCanonicalizer.cs:112-128 | the triples' canonical form is the same under any extension |
| Relabelling.GraphStable | Libraries/dotNetRdf.Core/Core/RdfCanonicalizer.cs:107-128 | a graph's canonical form is the same under any extension |
| Relabelling.DatasetStable | Libraries/dotNetRdf.Core/Core/RdfCanonicalizer.cs:105-131 | the dataset's canonical form is the same under any extension |
| Relabelling.TripleRenamed | Libraries/dotNetRdf.Core/Core/RdfCanonicalizer.cs:114-126 | a relabelled triple is the triple renamed by the final issuer |
| Relabelling.TriplesRenamed | Libraries/dotNetRdf.Core/Core/RdfCanonicalizer.cs:112-128 | relabelled triples are the triples renamed by the final issuer |
| Relabelling.GraphRenamed | Libraries/dotNetRdf.Core/Core/RdfCanonicalizer.cs:107-128 | a relabelled graph is the graph renamed by the final issuer |
| Relabelling.RelabelIsRenaming | Libraries/dotNetRdf.Core/Core/RdfCanonicalizer.cs:105-131 | the output is the input with every blank node renamed by one final mapping, and the structure copied |
| Relabelling.CanonicalNodeInjective | Libraries/dotNetRdf.Core/Core/RdfCanonicalizer.cs:105-131 | the renaming is one-to-one: two labelled nodes with the same output node are the same input node |
| Relabelling.CanonicalNodeLabel | Libraries/dotNetRdf.Core/Core/RdfCanonicalizer.cs:108 | a blank node's output label is the issuer's prefix (`c14n` for the canonical issuer) followed by its position in issuance order |
| Relabelling.CanonicalNode | Libraries/dotNetRdf.Core/Core/RdfCanonicalizer.cs:114-124 | defines the output form of a node: a mapped blank node gets its label without `_:`, any other node is left alone |
| Relabelling.RelabelGround | Libraries/dotNetRdf.Core/Core/RdfCanonicalizer.cs:105-131 | a dataset without blank nodes is reproduced as it is |
| Relabelling.GroundTriples | Libraries/dotNetRdf.Core/Core/RdfCanonicalizer.cs:112-128 | triples without blank nodes are copied as they are |
| Relabelling.GroundTriple1 | Libraries/dotNetRdf.Core/Core/RdfCanonicalizer.cs:114-126 | a triple without blank nodes is copied as it is |
| Canonicalization.MappedIdentifiersMembers | Libraries/dotNetRdf.Core/Core/RdfCanonicalizer.cs:98-99 | the identifiers issued are exactly those some result's issuer mapped |
| Canonicalization.MappedIdentifiersReordered | Libraries/dotNetRdf.Core/Core/RdfCanonicalizer.cs:98-99 | sorting the results by hash reorders but keeps which identifiers are issued |
| Canonicalization.MappedIdentifiersOf | Libraries/dotNetRdf.Core/Core/RdfCanonicalizer.cs:98-99 | defines the identifiers the results' issuers mapped, result after result, each in assignment order |
| Canonicalization.MappedIdentifiersReorderedOne | Libraries/dotNetRdf.Core/Core/RdfCanonicalizer.cs:98-99 | an identifier mapped by some result is still mapped after the results are reordered |
| Canonicalization.MappedIdentifiersAppend | Libraries/dotNetRdf.Core/Core/RdfCanonicalizer.cs:99 | each result contributes its issuer's identifiers in assignment order |
| Related.GroupsChosenStep | Libraries/dotNetRdf.Core/Core/RdfCanonicalizer.cs:162-219 | one related hash of the loop extends the trace by its group's choice, and the data to hash by the hash and the chosen path |
| Related.GroupsChosenAppend | Libraries/dotNetRdf.Core/Core/RdfCanonicalizer.cs:162-217 | a group chosen from the issuer the earlier groups left extends the record of the groups chosen |
| Related.GroupsFailedStep | Libraries/dotNetRdf.Core/Core/RdfCanonicalizer.cs:162-219 | a group running out from the issuer and the counter the earlier groups left makes the trace one of a call that ran out, its keys a prefix of the sorted keys |
| Related.GroupsFailedAppend | Libraries/dotNetRdf.Core/Core/RdfCanonicalizer.cs:162-219 | GroupsChosen followed by a group that ran out is GroupsFailed |
| Canonicalization.Hashable | Libraries/dotNetRdf.Core/Core/RdfCanonicalizer.cs:88-90 | the group members hashed are exactly those whose identifier does not start with `_:c14n`, in group order |
| Canonicalization.HashableStep | Libraries/dotNetRdf.Core/Core/RdfCanonicalizer.cs:88-90 | a member starting with `_:c14n` is skipped, any other is hashed next |
| Canonicalization.StartsWith | Libraries/dotNetRdf.Core/Core/RdfCanonicalizer.cs:90 | defines the skip test: the identifier text begins with the prefix, character by character |
| Canonicalization.HashablePrefix | Libraries/dotNetRdf.Core/Core/RdfCanonicalizer.cs:88-90 | the hashed members of a prefix of the group come first, in order, among those of the whole group |
| Canonicalization.HashableNext | Libraries/dotNetRdf.Core/Core/RdfCanonicalizer.cs:88-95 | a hashed member comes right after the hashed members before it |
| Canonicalization.TempIssuer | Libraries/dotNetRdf.Core/Core/RdfCanonicalizer.cs:91-92 | the temporary issuer uses the fresh-generator prefix and has labelled only the member |
| Canonicalization.MemberHashed | Libraries/dotNetRdf.Core/Core/RdfCanonicalizer.cs:91-95 | defines a member's hash: the N-degree hash under its temporary issuer, with a result issuer grown from it |
| Canonicalization.MembersHashed | Libraries/dotNetRdf.Core/Core/RdfCanonicalizer.cs:87-96 | defines the group loop's results: result `j` is MemberHashed for identifier `j` |
| Canonicalization.MembersHashedAppend | Libraries/dotNetRdf.Core/Core/RdfCanonicalizer.cs:88-96 | one more hashed member appends its result and its trace |
| Canonicalization.MembersSkipStep | Libraries/dotNetRdf.Core/Core/RdfCanonicalizer.cs:88-90 | a skipped member leaves the results and what they cover unchanged |
| Canonicalization.MembersHashedStep | Libraries/dotNetRdf.Core/Core/RdfCanonicalizer.cs:88-96 | a hashed member appends its result, hashed from its own temporary issuer, and is covered by it |
| Canonicalization.MembersCoveredStep | Libraries/dotNetRdf.Core/Core/RdfCanonicalizer.cs:93-99 | the member hashed is among the identifiers its result's issuer maps, and these are blank nodes of the index |
| Canonicalization.MemberLabelledFirst | Libraries/dotNetRdf.Core/Core/RdfCanonicalizer.cs:91-95 | a member's result issuer has the temporary prefix, labelled the member first, and labelled only blank nodes of the index |
| Canonicalization.DeepLabelledStep | Libraries/dotNetRdf.Core/Core/RdfCanonicalizer.cs:85-103 | one more hash group, hashed under the canonical issuer the groups before left, extends the deep pass's record |
| Canonicalization.DeepIssued | Libraries/dotNetRdf.Core/Core/RdfCanonicalizer.cs:98-102 | defines what the deep pass labels: group after group, the identifiers each result's issuer mapped, results in order of their hash |
| Canonicalization.GroupHashed | Libraries/dotNetRdf.Core/Core/RdfCanonicalizer.cs:87-96 | defines one group hashed under a canonical issuer, as MembersHashed says |
| Canonicalization.DeepLabelled | Libraries/dotNetRdf.Core/Core/RdfCanonicalizer.cs:85-103 | defines the deep pass: the groups in the listed order, group `i` hashed under the canonical issuer the groups before it left |
| Canonicalization.DeepIssuedStep | Libraries/dotNetRdf.Core/Core/RdfCanonicalizer.cs:98-102 | labelling the deep pass's identifiers is labelling the earlier groups' identifiers, then the last group's |
| Canonicalization.SimpleIssued | Libraries/dotNetRdf.Core/Core/RdfCanonicalizer.cs:63-83 | the simple passes label only identifiers that were waiting |
| Canonicalization.SimpleRemaining | Libraries/dotNetRdf.Core/Core/RdfCanonicalizer.cs:63-83 | the identifiers the simple passes leave are waiting ones, without repetition, and none has a hash of its own among them |
| Canonicalization.SimplePartition | Libraries/dotNetRdf.Core/Core/RdfCanonicalizer.cs:63-83 | each waiting identifier is labelled by the simple passes or left for the deep pass, never both |
| Canonicalization.SimpleIssuedStep | Libraries/dotNetRdf.Core/Core/RdfCanonicalizer.cs:65-82 | one pass labels its own identifiers, then the later passes label theirs, and leave the same ones waiting |
| Canonicalization.SimplePassStep | Libraries/dotNetRdf.Core/Core/RdfCanonicalizer.cs:70-82 | a pass labels only waiting identifiers, removes exactly them, and shortens the waiting list when it labels any |
| Canonicalization.LabellingOf | Libraries/dotNetRdf.Core/Core/RdfCanonicalizer.cs:61-103 | defines the final labelling: the simple passes' labels, then DeepIssued of the deep pass over the groups they leave, hashed as DeepLabelled says |
| Canonicalization.LabellingFromPasses | Libraries/dotNetRdf.Core/Core/RdfCanonicalizer.cs:61-103 | the simple passes followed by the deep pass make up LabellingOf |
| Canonicalization.ChainEnd | Libraries/dotNetRdf.Core/Core/RdfCanonicalizer.cs:91-95 | defines the counter after N-degree hashes run one after the other: where the last one left it, or the start |
| Canonicalization.Chained | Libraries/dotNetRdf.Core/Core/RdfCanonicalizer.cs:88-96 | defines N-degree hashes run one after the other: each found the counter where the previous one left it |
| Canonicalization.ChainedStep | Libraries/dotNetRdf.Core/Core/RdfCanonicalizer.cs:88-96 | one more N-degree hash started where the others left the counter keeps them chained, and the counter ends where it left it |
| Canonicalization.DeepEnd | Libraries/dotNetRdf.Core/Core/RdfCanonicalizer.cs:85-103 | defines the counter after the deep pass's hashes, group after group |
| Canonicalization.DeepChained | Libraries/dotNetRdf.Core/Core/RdfCanonicalizer.cs:85-103 | defines the deep pass's hashes run one after the other, group after group |
| Canonicalization.DeepChainedStep | Libraries/dotNetRdf.Core/Core/RdfCanonicalizer.cs:85-103 | one more group started where the others left the counter keeps the pass chained, and the counter ends where that group left it |
| Canonicalization.MembersFailed | Libraries/dotNetRdf.Core/Core/RdfCanonicalizer.cs:88-96 | defines a group loop that ran out: the members before were hashed one after the other, and the next member's hash ran out from where they left the counter |
| Canonicalization.MembersFailedStep | Libraries/dotNetRdf.Core/Core/RdfCanonicalizer.cs:88-96 | a member whose hash runs out after the members before it makes the group loop one that ran out |
| Canonicalization.DeepFailed | Libraries/dotNetRdf.Core/Core/RdfCanonicalizer.cs:85-103 | defines a deep pass that ran out in its last group: the groups before hashed as DeepLabelled and DeepChained say, and the last one's members ran out as MembersFailed says |
| Canonicalization.DeepFailedStep | Libraries/dotNetRdf.Core/Core/RdfCanonicalizer.cs:85-103 | a group whose members ran out after the groups before it makes the deep pass one that ran out |
| Canonicalization.DeepSoFar | Libraries/dotNetRdf.Core/Core/RdfCanonicalizer.cs:85-103 | defines the deep pass after `i` groups: hashed as DeepLabelled says, chained on the counter, and the canonical issuer labelling what they issue |
| Canonicalization.DeepSoFarStep | Libraries/dotNetRdf.Core/Core/RdfCanonicalizer.cs:85-103 | one group hashed extends the deep pass's state by its results and traces, and the canonical issuer by its labels |
| Canonicalization.DeepSoFarDone | Libraries/dotNetRdf.Core/Core/RdfCanonicalizer.cs:85-103 | once every group of the deep pass is hashed, the pass labelled the groups as DeepLabelled says, its hashes chained on the counter from its start, and with no groups the counter is unchanged |
| Canonicalization.DeepSoFarFailed | Libraries/dotNetRdf.Core/Core/RdfCanonicalizer.cs:85-103 | a group that ran out makes the pass one that ran out, leaves the counter as if the pass had run out from its start, and leaves the earlier groups' labels |
| Canonicalization.LabellingFailed | Libraries/dotNetRdf.Core/Core/RdfCanonicalizer.cs:61-103 | defines a labelling that ran out: the deep pass over the groups the simple passes leave ran out as DeepFailed says |
| Canonicalization.LabellingFailedFromPasses | Libraries/dotNetRdf.Core/Core/RdfCanonicalizer.cs:61-103 | the simple passes followed by a deep pass that ran out make a labelling that ran out |
| Canonicalization.NothingWaitingNoGroups | Libraries/dotNetRdf.Core/Core/RdfCanonicalizer.cs:68-74 | with no identifier waiting the hash-to-blank-nodes map has no groups |
| Canonicalization.Exhausted | Libraries/dotNetRdf.Core/Core/RdfCanonicalizer.cs:150 | defines the counter after a run that ran out: -1, or one below the start when it already was below zero |
| Canonicalization.IssueSimpleStep | Libraries/dotNetRdf.Core/Core/RdfCanonicalizer.cs:78-80 | one turn of the loop issues, removes the key and removes the identifier |
| Canonicalization.DeepPassCovers | Libraries/dotNetRdf.Core/Core/RdfCanonicalizer.cs:85-103 | after the deep pass every blank node of the index is labelled, unless its identifier starts with `_:c14n` |
| Canonicalization.GroupsCoveredStep | Libraries/dotNetRdf.Core/Core/RdfCanonicalizer.cs:85-103 | after issuing group `i`, the members of groups up to `i` are labelled, except those starting with `_:c14n` |
| Canonicalization.GroupsCoveredAll | Libraries/dotNetRdf.Core/Core/RdfCanonicalizer.cs:85-103 | once every group in the key order is covered, every member of every group not starting with `_:c14n` is labelled |
| Canonicalization.Canonicalizer.constructor | Libraries/dotNetRdf.Core/Core/RdfCanonicalizer.cs:38-43 | a new canonicaliser has an empty `c14n` issuer, empty maps and a counter of 1000 |
| Canonicalization.Canonicalizer.Unused | Libraries/dotNetRdf.Core/Core/RdfCanonicalizer.cs:38-43 | defines a fresh canonicaliser: empty `c14n` issuer, empty maps, counter at 1000 |
| Canonicalization.Canonicalizer.IndexDataset | Libraries/dotNetRdf.Core/Core/RdfCanonicalizer.cs:55-59 | the blank-node-to-quads map becomes the index of the dataset's blank-node occurrences |
| Canonicalization.Canonicalizer.GroupByFirstDegreeHash | Libraries/dotNetRdf.Core/Core/RdfCanonicalizer.cs:68-74 | the hash-to-blank-nodes map becomes the grouping of the waiting identifiers by first-degree hash |
| Canonicalization.Canonicalizer.IssueSimple | Libraries/dotNetRdf.Core/Core/RdfCanonicalizer.cs:76-82 | the sole members of groups, in ordinal hash order, are issued, removed as keys and removed from the waiting list; the flag says whether any was |
| Canonicalization.Canonicalizer.SimplePass | Libraries/dotNetRdf.Core/Core/RdfCanonicalizer.cs:65-82 | a pass labels exactly the waiting identifiers with a unique hash, keeps the waiting invariant, and changes nothing when it labels none |
| Canonicalization.Canonicalizer.SimplePasses | Libraries/dotNetRdf.Core/Core/RdfCanonicalizer.cs:63-83 | the canonical issuer becomes the old one after issuing SimpleIssued, and the identifiers left are SimpleRemaining, each sharing its hash with another, grouped by hash in the map |
| Canonicalization.Canonicalizer.ProcessRelatedComponent | Libraries/dotNetRdf.Core/Core/RdfCanonicalizer.cs:230-239 | the related map gains the component's pair exactly when it is a blank node other than the current one |
| Canonicalization.Canonicalizer.ProcessRelatedQuad | Libraries/dotNetRdf.Core/Core/RdfCanonicalizer.cs:155-157 | one quad adds its subject, object and graph pairs in that order |
| Canonicalization.Canonicalizer.CollectRelated | Libraries/dotNetRdf.Core/Core/RdfCanonicalizer.cs:152-158 | the new related map is the related map of the current node |
| Canonicalization.Canonicalizer.HashNDegreeQuads | Libraries/dotNetRdf.Core/Core/RdfCanonicalizer.cs:148-223 | the call decrements the counter exactly once and fails at once, with `Failure(RecursionLimitReached)`, when it found the counter at 0 or below; a result is NDegreeHashed with the counter it found as its budget: the related hashes in ordinal order, each group's chosen path and issuer as ChoosePath picks them, every permutation abandoned exactly where the source abandons it, the hash of each key followed by its path, and the issuer of the last choice, grown from the given one; the hashes inside completed paths are themselves NDegreeHashed, each nested call finding the counter where the previous one left it; the counter is left where the trace ends (CounterAfter), so with no related blank nodes and budget left it is exactly one lower and the call succeeds; a failure leaves the counter at -1 (one lower still when it was already below zero) and NDegreeFailed records where it ran out, down to the call that found the counter at zero; the call succeeds exactly when the counter is not below zero afterwards. With Determinism.NDegreeTraceUnique and Determinism.NDegreeSucceededNotFailed, the result and the counter afterwards are fixed by the counter the call found |
| Canonicalization.Canonicalizer.HashRelated | Libraries/dotNetRdf.Core/Core/RdfCanonicalizer.cs:152-222 | as HashNDegreeQuads after the decrement: the related map of the node, and its groups chosen in ordinal order of hash, the counter threaded through every nested call and left at CounterAfter of the trace; with no related blank nodes it succeeds and the counter is unchanged; a failure leaves the counter at -1, and NDegreeFailedIn records the group and nested call that ran out; success exactly when the counter is not below zero afterwards |
| Canonicalization.Canonicalizer.HashGroups | Libraries/dotNetRdf.Core/Core/RdfCanonicalizer.cs:160-222 | the groups are taken in ordinal order of hash, each chosen (GroupChosen) from the issuer and the counter the previous choice left; the data hashed is each key followed by its chosen path, and the issuer returned is the last choice; the counter is left where the last group left it, so with no keys it succeeds and the counter is unchanged; a failure leaves the counter at -1, the groups before the failing one chosen and that one failing as GroupsFailed says; success exactly when the counter is not below zero afterwards |
| Canonicalization.Canonicalizer.ChoosePath | Libraries/dotNetRdf.Core/Core/RdfCanonicalizer.cs:165-218 | all \|group\|! permutations are explored, and outcome `j` belongs to permutation `j`, explored against the path the permutations before it chose (RunningChoice), the counter going from `marks[j]` to `marks[j + 1]`; the chosen path is the ordinally least completed one, the first on a tie, with its issuer; every pruned path would have been greater; the counter is left where the last permutation left it; a failure leaves the counter at -1, with the permutations before the failing one ended and that one failing in its second loop (GroupFails); success exactly when the counter is not below zero afterwards |
| Canonicalization.Canonicalizer.DirectLoop | Libraries/dotNetRdf.Core/Core/RdfCanonicalizer.cs:174-193 | the first loop abandons the permutation exactly at the first prefix whose path meets the test against the chosen path (at least as long in UTF-16 code units, and greater), returning that partial path (PrunedInDirect); otherwise no prefix met it (DirectUnpruned) and it returns the full first-loop path |
| Canonicalization.Canonicalizer.PermutationPath | Libraries/dotNetRdf.Core/Core/RdfCanonicalizer.cs:168-214 | the outcome belongs to the permutation explored against the chosen path (OutcomeOf), the counter going from its value before to its value after: pruned in the first loop, which spends nothing, at the first prefix that meets the test; otherwise pruned in the second loop at the first recursion after which the path meets it; completed with its first-loop path followed by the recursion text of the N-degree hashes of the nodes recursed on, no path along the way having met the test, with an issuer grown from the given one; or failed, leaving the counter at -1, because a recursive call in the second loop ran out (FailedInRecursion); the outcome is Failed exactly when the counter is below zero afterwards |
| Canonicalization.Canonicalizer.RecursionLoop | Libraries/dotNetRdf.Core/Core/RdfCanonicalizer.cs:195-206 | each node recursed on has the N-degree hash of its node under the issuer the previous recursion left, each call finding the counter where the previous one left it (RecursedWith), from the counter at the start; the loop is abandoned at the first recursion after which the path meets the test against the chosen path, returning the first-loop path followed by the text of the nodes recursed on so far (at least one); otherwise the path after no recursion met it; the completed path is the first-loop path followed by each recursed node's label and hash in angle brackets, with an issuer grown from the first loop's; otherwise the counter is left where the last recursion left it, not below zero; a failed outcome leaves the counter at -1, the call on the next node having run out (NDegreeFails) |
| Canonicalization.Canonicalizer.KeepLeast | Libraries/dotNetRdf.Core/Core/RdfCanonicalizer.cs:208-212 | after one more permutation, the choice is still the ordinally least completed path so far, the first on a tie, with every pruned path greater, and the chosen path is the running choice of the outcomes so far: a completed path below the choice, or the first one, replaces it with its issuer; anything else keeps it |
| Canonicalization.Canonicalizer.StringGreaterThan | Libraries/dotNetRdf.Core/Core/RdfCanonicalizer.cs:225-228 | true exactly when the ordinal comparison puts `a` after `b` |
| Canonicalization.Canonicalizer.StringLessThan | Libraries/dotNetRdf.Core/Core/RdfCanonicalizer.cs:226-228 | true exactly when the ordinal comparison puts `a` before `b` |
| Canonicalization.Canonicalizer.RecursionHash | Libraries/dotNetRdf.Core/Core/RdfCanonicalizer.cs:197 | the recursive call decrements the counter once and returns the N-degree hash of the related node (NDegreeCall: with less budget than the caller had, the counter taken from its value before to its value after) and an issuer grown from the given one; a failure leaves the counter at -1 (one lower when already below zero) and NDegreeFails says how it ran out; success exactly when the counter is not below zero afterwards |
| Canonicalization.Canonicalizer.HashMember | Libraries/dotNetRdf.Core/Core/RdfCanonicalizer.cs:91-95 | a group member is hashed under a temporary issuer that has labelled it first (MemberHashed), with the counter it found as the trace's budget and left at CounterAfter of the trace; found at 0 or below, the call fails with `RecursionLimitReached`; a failure leaves the counter at -1 (one lower when already below zero) and NDegreeFailed says how it ran out; success exactly when the counter is not below zero afterwards |
| Canonicalization.Canonicalizer.HashGroupMembers | Libraries/dotNetRdf.Core/Core/RdfCanonicalizer.cs:87-96 | result `j` is MemberHashed for the `j`th member not starting with `_:c14n`; every such member is among the identifiers the results map, and these are blank nodes of the index; the hashes ran one after the other on the counter (Chained) and leave it at ChainEnd, so a group of `_:c14n` members leaves it unchanged; a failure leaves the counter at -1 (one lower when already below zero), with the members before the failing one hashed and that one running out (MembersFailed) |
| Canonicalization.Canonicalizer.IssueAll | Libraries/dotNetRdf.Core/Core/RdfCanonicalizer.cs:98-102 | the canonical issuer issues the list in order |
| Canonicalization.Canonicalizer.IssueGroup | Libraries/dotNetRdf.Core/Core/RdfCanonicalizer.cs:87-102 | the canonical issuer becomes the old one after issuing the results' mapped identifiers, results in N-degree hash order, each in its issuer's assignment order; the results and the counter are as HashGroupMembers specifies; on failure the canonical issuer is unchanged, the counter is at -1 (one lower when already below zero) and MembersFailed says which member ran out |
| Canonicalization.Canonicalizer.DeepGroup | Libraries/dotNetRdf.Core/Core/RdfCanonicalizer.cs:86-102 | one turn of the deep pass: the group gets its labels as IssueGroup says, the pass's state (DeepSoFar) and the labelled members (GroupsCovered) are extended by it, the counter continuing where the earlier groups left it; or the group runs out, the counter is left as if the pass had run out from its start, and DeepFailed holds |
| Canonicalization.Canonicalizer.DeepGroups | Libraries/dotNetRdf.Core/Core/RdfCanonicalizer.cs:85-103 | the loop of the deep pass over the groups in ordinal hash order: on success every group is hashed and labelled (DeepSoFar over all keys), every member not starting with `_:c14n` is labelled, and the canonical issuer only grew; on failure the counter is left as if the pass had run out from its start, DeepFailed says which group and member ran out, and the canonical issuer holds exactly the labels of the groups before it |
| Canonicalization.Canonicalizer.DeepPass | Libraries/dotNetRdf.Core/Core/RdfCanonicalizer.cs:85-103 | the groups are hashed in ordinal hash order, each under the canonical issuer the groups before left (DeepLabelled), and the canonical issuer becomes the old one after issuing DeepIssued of the results; every member not starting with `_:c14n` is labelled; the groups' hashes ran one after the other on the counter (DeepChained) and leave it at DeepEnd, so with no groups the pass succeeds and the counter is unchanged; a failure leaves the counter at -1 (one lower when already below zero), DeepFailed says which group and member ran out, and the groups before it keep their labels |
| Canonicalization.Canonicalizer.GroupPass | Libraries/dotNetRdf.Core/Core/RdfCanonicalizer.cs:85-103 | the deep pass over the first-degree groups of the waiting identifiers, as DeepPass states, the index untouched; every indexed blank node not starting with `_:c14n` is labelled; with no groups it succeeds and the counter is unchanged; the counter ends at DeepEnd on success, and at -1 (one lower when already below zero) with DeepFailed on failure |
| Canonicalization.Canonicalizer.LabelBlankNodes | Libraries/dotNetRdf.Core/Core/RdfCanonicalizer.cs:61-103 | the canonical issuer is exactly LabellingOf: the simple passes' labels in order, then the deep pass's; every indexed blank node not starting with `_:c14n` is labelled; the simple passes never touch the counter, so when they label every blank node the call succeeds with the counter unchanged; the counter ends at DeepEnd of the deep pass's hashes on success, and at -1 (one lower when already below zero) with LabellingFailed on failure |
| Canonicalization.Canonicalizer.RelabelOutputNode | Libraries/dotNetRdf.Core/Core/RdfCanonicalizer.cs:114-124 | one node of the output is relabelled as RelabelNode says |
| Canonicalization.Canonicalizer.WriteOutput | Libraries/dotNetRdf.Core/Core/RdfCanonicalizer.cs:105-131 | the output loop computes RelabelDataset |
| Canonicalization.Canonicalizer.Canonicalize | Libraries/dotNetRdf.Core/Core/RdfCanonicalizer.cs:50-134 | the output is the input with every blank node renamed by the issuer LabellingOf describes, structure unchanged; every indexed blank node not starting with `_:c14n` is labelled; the counter starts at 1000 and each N-degree hash, one after the other, decrements it once (DeepChained), so a dataset the simple passes label completely always succeeds with the counter at 1000; a failure leaves the counter at -1, and LabellingFailed records which group's N-degree hash ran out, from the counter the hashes before it left; success exactly when the counter is not below zero afterwards. Each N-degree hash in the chain is fixed by the counter it found, and does not both succeed and fail from it (Determinism) |
| Determinism.NDegreeHashedUnique | Libraries/dotNetRdf.Core/Core/RdfCanonicalizer.cs:148-223 | two N-degree hashes of the same blank node under the same issuer give the same hash and the same issuer, whatever budget each had and however each pruned |
| Determinism.NDegreeCallUnique | Libraries/dotNetRdf.Core/Core/RdfCanonicalizer.cs:197 | a recursive N-degree call on the same node and issuer returns the same hash and issuer, whatever the budget |
| Determinism.GroupsChosenUnique | Libraries/dotNetRdf.Core/Core/RdfCanonicalizer.cs:162-217 | taking the same related hashes in the same order from the same issuer chooses the same path for each group and leaves the same issuers |
| Determinism.GroupChoiceUnique | Libraries/dotNetRdf.Core/Core/RdfCanonicalizer.cs:165-213 | two explorations of the permutations of one group from the same issuer choose the same path and the same issuer |
| Determinism.ChoiceBelowOther | Libraries/dotNetRdf.Core/Core/RdfCanonicalizer.cs:188-212 | the chosen path is at most the completed path of any permutation in another exploration, and below it for a permutation before the chosen one |
| Determinism.CompletedUnique | Libraries/dotNetRdf.Core/Core/RdfCanonicalizer.cs:195-206 | two completions of the same permutation give the same path and the same issuer |
| Determinism.PrunedBelowCompleted | Libraries/dotNetRdf.Core/Core/RdfCanonicalizer.cs:188-205 | a permutation one exploration abandoned completes, in another exploration, with a path greater than the first one's choice |
| Determinism.RecursionPrunedBelow | Libraries/dotNetRdf.Core/Core/RdfCanonicalizer.cs:195-205 | the same for a permutation abandoned in the second loop: its recursions come out as in the other exploration, so its completed path is greater |
| Determinism.RecursedWithAgree | Libraries/dotNetRdf.Core/Core/RdfCanonicalizer.cs:195-200 | two runs of the second loop over the same permutation get the same hashes and issuers for the nodes both recursed on |
| Determinism.NDegreeTraceUnique | Libraries/dotNetRdf.Core/Core/RdfCanonicalizer.cs:148-223 | two N-degree hashes of the same blank node under the same issuer, from the same budget, have the same trace (the same outcome for every permutation, abandoned at the same place, the same counter after every group) and the same result |
| Determinism.GroupsTraceUnique | Libraries/dotNetRdf.Core/Core/RdfCanonicalizer.cs:160-219 | the groups of one related map, chosen in the same order from the same issuer and budget, have the same trace |
| Determinism.GroupTraceUnique | Libraries/dotNetRdf.Core/Core/RdfCanonicalizer.cs:165-218 | one group explored twice from the same issuer and counter has the same outcomes, the same counters between them and the same choice |
| Determinism.OutcomesPrefixUnique | Libraries/dotNetRdf.Core/Core/RdfCanonicalizer.cs:168-215 | the first `n` permutations of a group, explored twice from the same counter without running out, end the same way with the same counters |
| Determinism.OutcomeNextUnique | Libraries/dotNetRdf.Core/Core/RdfCanonicalizer.cs:168-214 | outcome `j` of two explorations of a group that agree before it is the same, and so is the counter after it |
| Determinism.OutcomeUnique | Libraries/dotNetRdf.Core/Core/RdfCanonicalizer.cs:168-214 | one permutation explored twice against the same chosen path and from the same counter, without running out, ends the same way (abandoned at the same prefix of the same loop, or completed with the same path and issuer), and the counter after it is the same |
| Determinism.DirectOutcomeUnique | Libraries/dotNetRdf.Core/Core/RdfCanonicalizer.cs:174-192 | when one of two such explorations was abandoned in the first loop, so was the other, at the same first prefix that meets the test, spending nothing |
| Determinism.RecursionOutcomeUnique | Libraries/dotNetRdf.Core/Core/RdfCanonicalizer.cs:195-212 | two explorations past the first loop, from the same counter and against the same chosen path, end the same way: neither is abandoned before the other, and neither completes where the other was abandoned |
| Determinism.Explored | Libraries/dotNetRdf.Core/Core/RdfCanonicalizer.cs:195-206 | an exploration the first loop did not abandon has recursions satisfying RecursedWith: all of them for a completed path, none of whose paths met the test; up to the first recursion after which the path met it for an abandoned one |
| Determinism.ExploredWith | Libraries/dotNetRdf.Core/Core/RdfCanonicalizer.cs:195-212 | defines the second loop of a permutation that did not fail: its recursions satisfy RecursedWith from the counter before to the counter after; a completed path covers the recursion list, none of its paths meeting the test; an abandoned path stops at the first recursion after which the path met it |
| Determinism.ExploredPruned | Libraries/dotNetRdf.Core/Core/RdfCanonicalizer.cs:201-205 | the recursions of a second loop abandoned with a partial path: that path is RecursionPath of them and met the test, the earlier ones did not |
| Determinism.ExploredComplete | Libraries/dotNetRdf.Core/Core/RdfCanonicalizer.cs:195-212 | the recursions of a completed second loop: the completed path is RecursionPath of all of them, none of whose paths met the test, and its issuer is the last recursion's |
| Determinism.AbandonedAt | Libraries/dotNetRdf.Core/Core/RdfCanonicalizer.cs:201-205 | a path abandoned after some recursions is the path after as many recursions of any run of the second loop that agrees with it so far, which therefore does not pass that point unabandoned |
| Determinism.RecursedWithUnique | Libraries/dotNetRdf.Core/Core/RdfCanonicalizer.cs:195-200 | two runs of the second loop over the same permutation from the same counter agree on their first `n` hashes and on the issuers and counters around them |
| Determinism.CallUnique | Libraries/dotNetRdf.Core/Core/RdfCanonicalizer.cs:197 | a recursive call made twice from the same counter returns the same hash and issuer and leaves the counter at the same value |
| Determinism.SucceededNotFailed | Libraries/dotNetRdf.Core/Core/RdfCanonicalizer.cs:150-222 | an N-degree hash that succeeds from some budget has no trace of running out from that budget |
| Determinism.GroupsSucceededNotFailed | Libraries/dotNetRdf.Core/Core/RdfCanonicalizer.cs:160-219 | groups chosen from a budget in some order do not also run out from that budget in the same order |
| Determinism.GroupsChosenPrefix | Libraries/dotNetRdf.Core/Core/RdfCanonicalizer.cs:160-219 | the first `n` groups of a trace were chosen as GroupsChosen says |
| Determinism.GroupSucceededNotFailed | Libraries/dotNetRdf.Core/Core/RdfCanonicalizer.cs:165-218 | a group whose permutations were all explored does not also run out from the same issuer and counter |
| Determinism.LastSucceededNotFailed | Libraries/dotNetRdf.Core/Core/RdfCanonicalizer.cs:168-215 | permutations explored from the same counter, one run with none failing and going further: the next outcome of the other run does not fail |
| Determinism.NextSucceededNotFailed | Libraries/dotNetRdf.Core/Core/RdfCanonicalizer.cs:168-214 | a permutation of a run with none failing, explored against the path chosen before it and from the counter left before it, does not also run out |
| Determinism.OutcomeSucceededNotFailed | Libraries/dotNetRdf.Core/Core/RdfCanonicalizer.cs:168-214 | a permutation explored without running out does not also run out against the same chosen path and from the same counter |
| Determinism.DirectPrunedNotUnpruned | Libraries/dotNetRdf.Core/Core/RdfCanonicalizer.cs:174-192 | a permutation abandoned in the first loop met the test at some prefix |
| Determinism.RecursionSucceededNotFailed | Libraries/dotNetRdf.Core/Core/RdfCanonicalizer.cs:195-205 | a second loop that recursed on every node, or was abandoned after some recursion, does not also run out from the same counter |
| Determinism.CallSucceededNotFailed | Libraries/dotNetRdf.Core/Core/RdfCanonicalizer.cs:150-197 | a recursive call that returns does not also run out from the same counter |
| Determinism.NDegreeSucceededNotFailed | Libraries/dotNetRdf.Core/Core/RdfCanonicalizer.cs:150-222 | an N-degree hash called with the counter at `before` does not both succeed and run out, at once or inside a group |

## Left out

- The digest (`IncrementalHash` with the configured algorithm) and UTF-8 encoding are the `digest` parameter of `Primitives`. Only the concatenation of the inputs and the two-lowercase-hex-characters-per-byte rendering are modelled.
- `NQuads11Formatter` and `INode.ToString()` are the `format` and `nodeText` parameters of `Primitives`.
- The library's node, triple, graph and `TripleStore` classes are datatypes. `TripleStore.Add(graph, true)` merges graphs with the same name and drops duplicate triples; the model returns the list of relabelled graphs in input order, without that merge.
- `BlankNodeGenerator` is not part of this model. Its behaviour is inferred from how it is used: a lookup, an issue that returns an existing label, and assignment-order enumeration. The prefix a parameterless `BlankNodeGenerator` issues under is the `tempPrefix` parameter.
- .NET `Dictionary` enumeration order is taken to be insertion order. The multimap lists its keys in order of first addition.
- The default comparer of `OrderBy` at lines 76, 85 and 98 is culture-sensitive. The model sorts all keys ordinally, as line 162 does; the keys are lowercase hex digests.
- `Permute` is a lazy generator. The model enumerates it eagerly, returning the snapshots it would yield. The consumer never changes the list while iterating, so the orderings seen are the same.
- `GetMappingDictionary` (a test accessor) is not modelled.
- The instance fields are never reset in the source, so a second `Canonicalize` call on the same object sees the first call's state. The model covers one call on a fresh instance (`Unused`).
- The exception of line 150 is the `Failure(RecursionLimitReached)` result, propagated out of `Canonicalize`.
- Line 90 skips group members whose identifier text starts with `_:c14n`, not those that already have a canonical label. RDFC-1.0 (section 4.4.3, step 5.2.1) skips the latter. The model follows the code, so its coverage guarantees exclude exactly identifiers starting with `_:c14n`.
- Line 79 calls `Remove` with an identifier on a map keyed by hashes, so it normally removes nothing. The model removes exactly the key it is given.
- Line 90 uses `string.StartsWith(string)`, which compares with the current culture. The model compares the prefix character by character.
- Canonicalization.Canonicalizer.Canonicalize: that success or failure of a whole run is fixed by the dataset is proved for each N-degree hash from the counter it found (Determinism.NDegreeTraceUnique, Determinism.NDegreeSucceededNotFailed), not composed over the members and passes of the deep pass.
- Canonicalization.Canonicalizer.Canonicalize: the result is not proved to be independent of the input's blank-node identifiers, which needs an isomorphism argument across the recursive N-degree hash. Masking and the first-degree hash are proved label-independent (Rdf.PrepareQuadForHashRenaming, FirstDegree.FirstDegreeHashRenaming).
