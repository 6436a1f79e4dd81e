# Verified model of the Verthys selector engine, vectors and runtime hashes

This project models three parts of Verthys and proves what they are for.

* **The CSS selector engine** (`verthys-tauri/patches/selectors`). A document is an arena of
  elements with parent, sibling and child links (`Dom`); a selector is the flat sequence of
  components the parser stores, compounds from right to left (`Syntax`). `Semantics` says what a
  selector means without saying how it is found out: some assignment of elements to compounds
  satisfies every combinator (section 8 of Selectors Level 3), `:nth-*()` counts siblings (section
  6.6.5.2 there), `:has()` holds if some element of the whole document matches (section 4.5 of
  Selectors Level 4). `Matching` is what the engine computes, as functions: pruned backtracking,
  three-valued compounds, search by hint, four answer modes. `Matcher` is how it runs: a context
  whose fields are set and restored, loops, and caches and filters that live on between queries. Each
  method of `Matcher` is proved equal to its function in `Matching`, and `Soundness` proves the
  functions against `Semantics`; `SimpleMeaning` says of each simple selector what it asks of the
  element. Around this core: the Bloom filter and fast rejection, early
  rejection by local name, the builder's layout, specificity, and replacing `&` in nested rules.
* **FlatBuffers vectors** (`core/schema/generated/flatbuffers_common_reader.h`): heap sort in place,
  with the heap in which node 0 has one child, over values and over self-relative offsets; binary
  search and the two scans; the C string comparisons they are instantiated with.
* **Relocation-normalised hashing** (`core/tools/rhash_gen.c`, and the reader of the same table in
  `core/src/security/integrity/runtime_hash.c`): reading the relocation directory ("The .reloc
  Section (Image Only)" in the Microsoft PE/COFF specification) and zeroing what it covers.

## Main results

1. Matching with pruned backtracking succeeds exactly when an assignment of elements exists, and each
   failure kind implies that what it prunes cannot match (`NormalMatchingIsExact`, `PruningIsRight`).
   One induction (`Soundness.ComplexIsSound`) covers the four modes; the caches and the fast
   rejection change nothing (`Engine.MatchesSelector`).
2. Searching only where a `:has()` hint points loses no match (`HasLosesNothing`, for every hint the
   parser stores: `RelativeHint.FromSelector`).
3. Invalidation is conservative at every parity of `:not()`, and definite answers of comparison mode
   hold under every completion of what was left uncomputed, for every selector. Without `:scope`,
   `:has()` and `:nth-*()` every mode is definite and exact (`Modeless.ComputedIsExact`), and whatever
   else is asked for, a subject that is sure to fail is answered false (`Modeless.FailsInEveryMode`).
   The entry points keep all of this (`Engine.MatchesSelectorKleene`).
4. Any run of queries leaves every nth-index and `:has()` cache entry equal to what counting or
   searching would give, including the shortcut that counts back from the end, as long as the
   settings that share a key agree; two settings can share one exactly if they do, on the index of
   every element that has one in both (`CacheUse.SharingIsRightIff`), or on whether the region of the
   hint has a hit (`CacheUse.SearchSharingIsRightIff`). The filters of the `:has()` search reject
   nothing that it would find.
5. Replacing `&` by the parent list preserves meaning through all nested lists, and the matcher on
   the result decides that meaning (`ParentMatching.RewrittenSelectorIsMatchedExactly`). `&` can be
   read as one fixed set of elements exactly if the parent list matches the same inside of `:has()`
   as outside (`ParentReading.FixedReadingIff`). The flags stay exact; the specificity is exact if
   and only if no field of a difference borrows.
6. The filter never reports a present item absent over any legal run; rejecting by the packed
   ancestor hashes never loses a match, and happens exactly when the filter lacks one of the first four
   hashes that ancestors must have (`FastRejection.MissingHashIsRejected`).
7. Heap sort ends and permutes the elements for any comparison that puts no element above itself, and
   with them the addresses that offsets lead to, and sorts them for any total preorder; on a sorted
   vector the binary search finds what the scan finds. Sorted means that scalar keys ascend
   (`FlatbuffersKeys.SortedScalarsIff`) and that strings do (`FlatbuffersKeys.SortedStringsIff`).
8. The hash inputs of the file and of the loaded image are equal if and only if the two agree outside
   of the relocated bytes, which are those that the entries of the directory name
   (`RuntimeHash.DirectoryCovers`).

## Where the code does less than it promises

* `AnPlusB::matches_index` answers false when the 32-bit subtraction fails: `:nth-child(n-2147483648)`
  matches nothing (`NthIndex.OffsetOverflows`; exactly when: `NthIndex.MatchesIndexIsExactIff`).
  The matching theorems ask that this does not happen for an index that the document can have.
* The caches are keyed by element and selector, but a result also depends on the enclosing `:has()`
  anchor and, under revalidation, on the parity of the enclosing `:not()`s. `:nth-child(1 of
  :not(:has(> *)))`, reached outside of a `:has()` and through `&` inside of one, gets two indices
  under one key (`Counterexamples.CachedIndexCanBeStale`), and so does `:nth-child(1 of :empty,
  :scope)` at two parities (`Counterexamples.CachedIndexCanBeOfTheOtherParity`). A result that
  `:has(> :scope)` stores makes `:not(:has(> :scope))` fail on an element it matches
  (`Counterexamples.CachedSearchCanBeStale`). `Matcher.Cacheable` asks that the uses a
  selector makes of the caches are among announced ones, and `Matcher.Sharable` that those agree
  where they share a key. `CacheUse.BlindUses` are announced uses that always agree.
* Revalidation counts siblings with `:scope` taken for true, so `:nth-child(1 of :empty, :scope)` can
  fail on an element it matches (`Counterexamples.RevalidationCanMissAMatch`; exactly when:
  `Revalidation.MissesNothingIff` and `Revalidation.InventsNothingIff`).
* `replace_parent_selector` subtracts packed specificities, which can borrow across fields:
  `:is(.a.b.c, &)` under `#x` gets 1023 classes (`ParentSelectors.BorrowGoesWrong`).
* `:has()` matches nothing inside of another one, so `:has(> &)` under `:has(> *)` matches nothing
  after replacement (`ParentReading.NestedHasIsLost`; exactly when: `ParentReading.FixedReadingIff`).
* `rhash_gen.c:497` sorts the slots with a comparison written for another record, so their order is
  not known to ascend. `RuntimeHash.MaskingIsExactIff` says for which orders masking is right
  nevertheless, and `RuntimeHash.MisorderedSpotsAreMissed` shows one for which it is not.

## Model

| member | source | states |
|---|---|---|
| Dom.Parent | verthys-tauri/patches/selectors/tree.rs:52 | the parent comes earlier in document order |
| Dom.Prev | verthys-tauri/patches/selectors/tree.rs:73 | the previous sibling comes earlier, has the same parent, and this element is its next one |
| Dom.Next | verthys-tauri/patches/selectors/tree.rs:76 | the next sibling comes later, has the same parent, and this element is its previous one |
| Dom.FirstChild | verthys-tauri/patches/selectors/tree.rs:79 | the first child comes later, has no previous sibling, and this element is its parent |
| Semantics.RelatedInDoc | verthys-tauri/patches/selectors/matching.rs:797-843 | what stands to the left of a combinator is an element that comes earlier in the document |
| Chains.MatchesIffChain | verthys-tauri/patches/selectors/matching.rs:168-231 | the recursive meaning of a selector is that some assignment of elements to its compounds satisfies all combinators |
| MatchingTheorems.NormalMatchingIsExact | verthys-tauri/patches/selectors/matching.rs:845-997 | for every document and element, and every selector whose An+B are judged rightly on the indices of the document, Matched iff such an assignment exists, and normal matching is never undecided |
| MatchingTheorems.PruningIsRight | verthys-tauri/patches/selectors/matching.rs:168-231 | restart-from-descendant rules out the element's earlier siblings, a global failure everything reached by parent and previous-sibling steps |
| Pruning.FailuresAreRaised | verthys-tauri/patches/selectors/matching.rs:168-198 | each failure is raised exactly when the documentation says: a failed search for an ancestor is always global, and a search among siblings restarts from a descendant combinator unless the rest fails globally at one of them |
| Pruning.LaterSiblingFails | verthys-tauri/patches/selectors/matching.rs:968-988 | a failed search among siblings is global iff the rest fails globally at one of them and is to be restarted at every one in between, and never asks for a later sibling |
| Soundness.ComplexIsSound | verthys-tauri/patches/selectors/matching.rs:845-997 | in all four modes, a failure is a non-match and a success a match as far as mode and parity promise, and the two strong failures prune rightly |
| Soundness.CandidatesAreSound | verthys-tauri/patches/selectors/matching.rs:886-997 | the candidate loop finds an element for the rest of the selector iff there is one, with the failure kind that the enclosing search needs |
| Soundness.SimpleIsSound | verthys-tauri/patches/selectors/matching.rs:1225-1362 | a simple selector's answer agrees with its meaning; `:not()` swaps the two promises |
| SimpleMeaning.ElementIsAnswered | verthys-tauri/patches/selectors/matching.rs:1225-1362 | component by component, what normal matching answers in terms of the names, classes, attributes and states of the element, and of the scoping element or the root |
| SimpleMeaning.AnchorIsAnswered | verthys-tauri/patches/selectors/matching.rs:1354-1358 | outside of a `:has()` every element is an anchor, inside only the one that it is asked of |
| SimpleMeaning.NestedHasFails | verthys-tauri/patches/selectors/matching.rs:630-636 | a `:has()` inside of another one is false |
| SimpleMeaning.UncomputedIsAnswered | verthys-tauri/patches/selectors/matching.rs:1304-1342 | `:scope`, `:has()` and `:nth-*()` where they are not computed: unknown in comparisons, otherwise as the parity of `:not()` asks; false on an element that the list does not match |
| Soundness.CompoundIsSound | verthys-tauri/patches/selectors/matching.rs:1192-1223 | a three-valued conjunction is definite only when its parts force it |
| Soundness.ListIsSound | verthys-tauri/patches/selectors/matching.rs:492-501 | a list answers whether one of its selectors matches |
| Soundness.NoCandidate | verthys-tauri/patches/selectors/matching.rs:905-924 | with no element left, the failure kind of the combinator is right |
| Soundness.GlobalFailureSpreads | verthys-tauri/patches/selectors/matching.rs:938-954 | a global failure of the rest is a global failure of the whole |
| Soundness.AncestorFailureSpreads | verthys-tauri/patches/selectors/matching.rs:956-967 | a failed search among ancestors also fails from every earlier sibling |
| Soundness.SiblingFailureSpreads | verthys-tauri/patches/selectors/matching.rs:968-988 | a failed search among siblings fails from every earlier sibling |
| Soundness.NthIsSound | verthys-tauri/patches/selectors/matching.rs:1396-1523 | `:nth-*()` is answered by the number of counted siblings, or as the mode says when it is not computed |
| SimpleMeaning.NthIsAnsweredByName | verthys-tauri/patches/selectors/matching.rs:1396-1523 | normal matching answers each of the six kinds as it is named: by the number of listed siblings before or after the element, by that of siblings with the same name and namespace, or by there being no other such sibling |
| SimpleMeaning.NthMeans | verthys-tauri/patches/selectors/parser.rs:1681-1705 | the meaning of each of the six kinds, in these terms |
| Soundness.TrulyCountedNthIsSound | verthys-tauri/patches/selectors/matching.rs:1396-1523 | under revalidation a list that asks for `:scope` is answered safely where its count is true |
| Soundness.RelativeIsSound | verthys-tauri/patches/selectors/matching.rs:503-591 | one relative selector is answered for the whole document |
| MatchingTheorems.HasLosesNothing | verthys-tauri/patches/selectors/matching.rs:503-591 | the search by hint finds a match iff some element anywhere matches with its anchor fixed |
| HasSearch.ChildrenSearchIsExact | verthys-tauri/patches/selectors/matching.rs:702-731 | the depth-first walk tries exactly the children, or all descendants |
| HasSearch.SearchIsExact | verthys-tauri/patches/selectors/matching.rs:503-591 | the walk by hint finds a hit iff there is one in the region the hint stands for |
| RelativeHint.MatchLiesInRegion | verthys-tauri/patches/selectors/parser.rs:1887-1929 | every match of an anchored selector lies in the region of its hint |
| RelativeHint.RegionStep | verthys-tauri/patches/selectors/parser.rs:1887-1929 | one more combinator keeps the match inside the region of the longer selector's hint |
| RelativeHint.CombinatorComposition | verthys-tauri/patches/selectors/parser.rs:2019-2038 | the combinator iterator finds out which kinds of combinators there are |
| RelativeHint.FromSelector | verthys-tauri/patches/selectors/parser.rs:2041-2076 | the hint stored with a relative selector is always the right one |
| RelativeHint.RegionIff | verthys-tauri/patches/selectors/parser.rs:1887-1929 | the region of the hint is no larger than the first combinator and the kinds of the others let it be |
| MatchingTheorems.InvalidationMissesNothing | verthys-tauri/patches/selectors/matching.rs:637-646 | at even parity of `:not()` a selector that matches, whatever the uncomputed parts, is answered true |
| MatchingTheorems.InvalidationInventsNothing | verthys-tauri/patches/selectors/matching.rs:1338-1342 | at odd parity a selector that fails is answered false |
| MatchingTheorems.ComparisonIsSound | verthys-tauri/patches/selectors/matching.rs:886-953 | a definite answer of comparison mode is the answer under every reading of what was not computed |
| Modeless.ComputedIsExact | verthys-tauri/patches/selectors/matching.rs:1225-1362 | without `:scope`, `:has()` and `:nth-*()` the answer is definite and exact in every mode and at every parity |
| Modeless.FailsInEveryMode | verthys-tauri/patches/selectors/matching.rs:1192-1223 | whatever else a selector asks for, if a computed component of its subject compound fails, or every selector of a list of an `:nth-*()`, `:is()` or `:where()` there, the answer is false in every mode and at every parity |
| Modeless.CompoundByItems | verthys-tauri/patches/selectors/matching.rs:1192-1223 | a compound is true iff all of its components are, false iff one is |
| Modeless.ListByItems | verthys-tauri/patches/selectors/matching.rs:492-501 | a list is true iff one of its selectors matches, false iff all fail |
| MatchingTheorems.RevalidationIsConservative | verthys-tauri/patches/selectors/matching.rs:1304-1313 | revalidation is conservative if, wherever a list indexes an element, as many siblings are counted as there are to count |
| Revalidation.MissesNothingIff | verthys-tauri/patches/selectors/matching.rs:1396-1523 | for a list that matches an element, nothing is missed for any An+B iff it is answered true there and the siblings counted are as many as there really are |
| Revalidation.InventsNothingIff | verthys-tauri/patches/selectors/matching.rs:1396-1523 | at odd parity, where a list is answered true, nothing is invented for any An+B iff it matches and is counted right |
| Revalidation.TrulyWithoutScope | verthys-tauri/patches/selectors/matching.rs:1304-1313 | lists that do not ask for `:scope` are counted right |
| MatchingTheorems.RevalidationIsExactWithoutScope | verthys-tauri/patches/selectors/matching.rs:1304-1313 | without `:scope` revalidation is exact |
| Counterexamples.RevalidationCanMissAMatch | verthys-tauri/patches/selectors/matching.rs:1412-1419 | with `:nth-child(1 of :empty, :scope)` and no scoping element it is not conservative |
| Kleene.AnyValue | verthys-tauri/patches/selectors/kleene_value.rs:56-76 | the fold stops at the given value iff some item has it, and otherwise combines all items in order |
| Kleene.Any | verthys-tauri/patches/selectors/kleene_value.rs:43-48 | three-valued disjunction, in both definite directions |
| Kleene.AnyFalse | verthys-tauri/patches/selectors/kleene_value.rs:51-54 | three-valued conjunction, in both definite directions |
| Matcher.MatchingContext.constructor | verthys-tauri/patches/selectors/context.rs:286-320 | a new context is unnested, unnegated and unanchored, and takes over valid caches |
| Matcher.MatchingContext.MatchesSimpleSelector | verthys-tauri/patches/selectors/matching.rs:1225-1362 | computes the specified answer; nesting level, negation and anchor are restored and the caches stay right |
| Matcher.MatchingContext.NestedList | verthys-tauri/patches/selectors/context.rs:411-420 | a nested list is answered one level further in, and the level is restored |
| Matcher.MatchingContext.NegatedList | verthys-tauri/patches/selectors/context.rs:424-433 | inside of `:not()` the parity is flipped, and restored |
| Matcher.MatchingContext.MatchesCompoundSelector | verthys-tauri/patches/selectors/matching.rs:1192-1223 | the same for a compound |
| Matcher.MatchingContext.MatchesComplexSelectorList | verthys-tauri/patches/selectors/matching.rs:492-501 | the same for a list |
| Matcher.MatchingContext.MatchesComplexSelector | verthys-tauri/patches/selectors/matching.rs:845-997 | the same for a complex selector; the candidate loop terminates |
| Matcher.MatchingContext.MatchRelativeSelectors | verthys-tauri/patches/selectors/matching.rs:623-653 | nested `:has()` is false, the invalidation modes do not compute it, otherwise the anchor is set and taken away again |
| Matcher.MatchingContext.DoMatchRelativeSelectors | verthys-tauri/patches/selectors/matching.rs:655-700 | whether some relative selector is found, by cache, filter or search; all three stay right |
| Matcher.MatchingContext.RelativeSelectorMatchEarly | verthys-tauri/patches/selectors/matching.rs:593-621 | a cached result, or a rejection by the filter, is what a search would give; a cached result is used, and whatever is answered is in the cache |
| Matcher.MatchingContext.MatchesRelativeSelector | verthys-tauri/patches/selectors/matching.rs:503-591 | the walk over children or following siblings computes the specified search |
| Matcher.MatchingContext.MatchesRelativeSelectorSubtree | verthys-tauri/patches/selectors/matching.rs:702-731 | the same for the descendants |
| Matcher.MatchingContext.MatchesGenericNthChild | verthys-tauri/patches/selectors/matching.rs:1396-1523 | computes the specified answer, from the cache or by counting, and caches the index |
| Matcher.MatchingContext.NthChildIndexCached | verthys-tauri/patches/selectors/matching.rs:1525-1609 | the cached index is the uncached one, from the start and from the end |
| Matcher.MatchingContext.CountSiblings | verthys-tauri/patches/selectors/matching.rs:1572-1609 | the counting loop, cut short at a cached sibling, gives the uncached index |
| Matcher.MatchingContext.NthLastIndexFromEarlier | verthys-tauri/patches/selectors/matching.rs:1538-1570 | an earlier sibling's index from the end, less what lies in between, is this one's |
| Matcher.MatchingContext.CountsTowards | verthys-tauri/patches/selectors/matching.rs:1546-1552 | whether a sibling counts, by type, by list, or always |
| Matcher.MatchingContext.LookupIndex | verthys-tauri/patches/selectors/nth_index_cache.rs:27-52 | answers iff the cache has an entry, and what it holds is the index in the present context |
| Matcher.MatchingContext.InsertIndex | verthys-tauri/patches/selectors/matching.rs:1486-1522 | stores the computed index and keeps every entry of every cache right |
| Matcher.MatchingContext.VisitSibling | verthys-tauri/patches/selectors/matching.rs:1541-1562 | whether a sibling counts, and the cached number beyond it iff it does, is looked up and has an entry |
| Matcher.MatchingContext.AddResult | verthys-tauri/patches/selectors/matching.rs:655-700 | stores a result of a search and keeps every entry right |
| Matcher.EntryMeansIndex | verthys-tauri/patches/selectors/nth_index_cache.rs:27-52 | an index that is right in one setting is a valid entry for all settings that share its key, and the other way round |
| Matcher.ResultMeansSearch | verthys-tauri/patches/selectors/relative_selector/cache.rs:62-81 | the same for the results of relative selectors |
| NthCache.NthIndexCache.Insert | verthys-tauri/patches/selectors/nth_index_cache.rs:27-97 | changes one entry of the one cache that the parameters select |
| NthCache.CountFromEndStep | verthys-tauri/patches/selectors/matching.rs:1538-1570 | seen from the end, one step back counts the element stepped from |
| CacheUse.SameCount | verthys-tauri/patches/selectors/nth_index_cache.rs:27-52 | a count depends on the component through its list only, and on the element through its type only |
| CacheUse.SharingIsRightIff | verthys-tauri/patches/selectors/nth_index_cache.rs:27-66 | two settings can share the key of a list, for every An+B, iff they agree on the index of every element that has one in both |
| CacheUse.SearchSharingIsRightIff | verthys-tauri/patches/selectors/relative_selector/cache.rs:62-81 | two parities can share the key of a relative selector iff for every anchor the region of the hint has a hit at both or at neither |
| CacheUse.IndicesAgreeIff | verthys-tauri/patches/selectors/matching.rs:1572-1609 | all indices agree iff the list agrees on every element that is followed (from the end: preceded) by a sibling |
| CacheUse.BlindUsesAreCoherent | verthys-tauri/patches/selectors/nth_index_cache.rs:27-66 | lists that ask for no `:has()` inside of one, and at odd parity of revalidation for no `:scope`, always agree |
| CacheUse.BlindFollows | verthys-tauri/patches/selectors/matching.rs:1396-1523 | selectors that count by such lists only make only such uses of the caches |
| Counterexamples.CachedIndexCanBeStale | verthys-tauri/patches/selectors/nth_index_cache.rs:27-66 | `:nth-child(1 of :not(:has(> *)))`: an element is counted and cached both inside and outside of a `:has()`, with different indices, and the entry of one gives the other a wrong answer |
| Counterexamples.CachedIndexCanBeOfTheOtherParity | verthys-tauri/patches/selectors/nth_index_cache.rs:27-66 | `:nth-child(1 of :empty, :scope)` under revalidation: indexed at both parities, with different indices, and the entry of one gives the other a wrong answer |
| Counterexamples.CachedSearchCanBeStale | verthys-tauri/patches/selectors/relative_selector/cache.rs:62-81 | the result that `:has(> :scope)` stores at even parity makes `:not(:has(> :scope))` fail on an element it matches |
| Independence.ComplexIndependent | verthys-tauri/patches/selectors/context.rs:411-433 | answers do not depend on the parity in normal matching, nor on the anchor if none is asked for |
| NthIndex.CountIsCardinality | verthys-tauri/patches/selectors/matching.rs:1572-1609 | the sibling walk counts each matching sibling on its side once |
| NthIndex.MatchesIndexIsExact | verthys-tauri/patches/selectors/parser.rs:1710-1721 | for i >= 1 with i - B in 32 bits, true iff some n >= 0 has A*n + B = i |
| NthIndex.MatchesIndexIsExactIff | verthys-tauri/patches/selectors/parser.rs:1710-1721 | the answer is right iff the subtraction fits, or no positive step divides the distance |
| NthIndex.NoIntermediateOverflow | verthys-tauri/patches/selectors/parser.rs:1710-1721 | neither the truncated quotient nor its product leaves 32 bits |
| NthIndex.OffsetOverflows | verthys-tauri/patches/selectors/parser.rs:1710-1721 | an input with the wrong answer |
| EarlyReject.EarlyRejectIsSound | verthys-tauri/patches/selectors/matching.rs:321-350 | an element rejected by local names, through nested and empty lists, does not match |
| EarlyReject.AllRejectedFail | verthys-tauri/patches/selectors/matching.rs:492-501 | a list all of whose selectors are rejected matches nothing |
| EarlyReject.RejectedIff | verthys-tauri/patches/selectors/matching.rs:321-350 | an element is rejected iff some component of the compound does not admit its local name, where `:is()` and `:where()` admit what one of their selectors does |
| Engine.MatchesSelectorKleene | verthys-tauri/patches/selectors/matching.rs:279-307 | filter, hints and caches together: false if the filter rules the selector out, otherwise exactly the answer of the matcher; in every mode and at every parity the meaning itself where everything is computed, and false where the subject compound is sure to fail; otherwise worth what the mode promises |
| Engine.MatchesSelector | verthys-tauri/patches/selectors/matching.rs:255-277 | the same with unknown read as true: the meaning itself in normal mode, under revalidation without `:scope`, and in every mode where everything is computed; false where the subject compound is sure to fail |
| Engine.MatchesSelectorList | verthys-tauri/patches/selectors/matching.rs:118-139 | the same for whether some selector of the list matches |
| SelectorIter.Iter.Next | verthys-tauri/patches/selectors/parser.rs:1529-1546 | yields the next simple selector of the compound, or stops and remembers the combinator |
| SelectorIter.Iter.NextSequence | verthys-tauri/patches/selectors/parser.rs:1487-1494 | hands out the remembered combinator once |
| SelectorIter.Iter.SkipCompound | verthys-tauri/patches/selectors/parser.rs:1559-1580 | the rest of a compound is passed over and its combinator remembered |
| SelectorIter.ComponentIter.SkipUntilAncestor | verthys-tauri/patches/selectors/parser.rs:1594-1607 | skips up to and including the next child or descendant combinator |
| SelectorIter.ComponentIter.Next | verthys-tauri/patches/selectors/parser.rs:1609-1627 | yields the components of ancestors' compounds only |
| AncestorHashes.CollectComponentHash | verthys-tauri/patches/selectors/parser.rs:668-744 | one component adds its own hash, or those of its single argument |
| AncestorHashes.CollectSelectorHashes | verthys-tauri/patches/selectors/parser.rs:658-747 | fills the array as specified, at most four hashes, through single-item lists |
| AncestorHashes.ComputeAncestorHashes | verthys-tauri/patches/selectors/parser.rs:749-781 | the packed hashes are those of the ancestors' compounds |
| AncestorHashes.SkippedMatch | verthys-tauri/patches/selectors/parser.rs:1582-1607 | after skipping, the rest of a matching selector matches at a true ancestor |
| AncestorHashes.CollectedBelongs | verthys-tauri/patches/selectors/parser.rs:658-747 | every collected hash is a hash of some element of the group that the match goes through |
| AncestorHashes.PackRoundTrip | verthys-tauri/patches/selectors/parser.rs:760-787 | the fourth hash, spread over the upper bytes, and the other three come back |
| AncestorHashes.UnpackedFourth | verthys-tauri/patches/selectors/parser.rs:783-787 | with fewer hashes the fourth is zero |
| AncestorHashes.SelectorMayMatch | verthys-tauri/patches/selectors/matching.rs:141-166 | the loop with its early exits computes the specified check |
| AncestorHashes.PackedPass | verthys-tauri/patches/selectors/matching.rs:141-166 | if every collected hash is in the filter, the packed check passes |
| AncestorHashes.FastRejectIsSound | verthys-tauri/patches/selectors/matching.rs:279-307 | with all ancestors' hashes in the filter, a matching selector is not rejected |
| FastRejection.HashesAreOfAncestors | verthys-tauri/patches/selectors/parser.rs:749-781 | the packed hashes are the first four that the compounds behind a child or descendant combinator ask for |
| FastRejection.AtomIsAskedFor | verthys-tauri/patches/selectors/parser.rs:668-744 | a lower-case type, a namespace, an id, a class or a collected attribute name asks for its own hash |
| FastRejection.ArgumentIsAskedFor | verthys-tauri/patches/selectors/parser.rs:713-731 | a single selector in `:is()` or `:where()` asks as if it stood there itself, several ask for nothing |
| FastRejection.OnlyAtomsAreAskedFor | verthys-tauri/patches/selectors/parser.rs:668-744 | no other component asks for anything |
| FastRejection.CollectsFirstFour | verthys-tauri/patches/selectors/parser.rs:658-747 | of all that is asked for, the first four hashes are collected |
| FastRejection.MissingHashIsRejected | verthys-tauri/patches/selectors/matching.rs:141-166 | a selector without empty compounds passes iff the filter has all of these hashes that the check comes to |
| FastRejection.NonZeroAreLookedUp | verthys-tauri/patches/selectors/matching.rs:141-166 | it comes to all of them, unless one is zero |
| FastRejection.HashesAreOfSubject | verthys-tauri/patches/selectors/relative_selector/filter.rs:55-84 | inside of a `:has()` the first four that the subject compound asks for are collected |
| RelativeFilter.FilterRejects | verthys-tauri/patches/selectors/relative_selector/filter.rs:55-84 | rejects iff some hash of the subject compound is absent |
| RelativeFilter.AddToFilter | verthys-tauri/patches/selectors/relative_selector/filter.rs:30-44 | gives up iff some traversed element has no hashes to offer; otherwise the filter gets the hashes of all children, or of all descendants; nothing else is added |
| RelativeFilter.RelativeSelectorFilterMap.GetFilter | verthys-tauri/patches/selectors/relative_selector/filter.rs:86-110 | no filter at the first request, and at any later one iff all traversed elements can be filtered by; it lets through all that is traversed and nothing else is in it; other filters stay as they are |
| RelativeFilter.RelativeSelectorFilterMap.FastReject | verthys-tauri/patches/selectors/relative_selector/filter.rs:116-159 | rejects iff this is not the first request for the filter that covers the region of the hint, it can be filled, and it lacks a hash of the subject compound; then every element of the region lacks something, also where the parent's filter stands for the siblings' |
| RelativeFilter.SiblingRegionBelowParent | verthys-tauri/patches/selectors/relative_selector/filter.rs:144-152 | the regions that start at a sibling lie in what the parent's filter covers |
| RelativeFilter.CompoundCollected | verthys-tauri/patches/selectors/relative_selector/filter.rs:55-84 | whatever the matcher lets pass as subject has every hash that is collected |
| RelativeFilter.RejectionIsRight | verthys-tauri/patches/selectors/matching.rs:593-621 | if every element of the region lacks something that the subject compound asks for, the search finds nothing, in every mode |
| Bloom.CountingBloomFilter.AdjustSlot | verthys-tauri/patches/selectors/bloom.rs:181-194 | one counter goes up or down, unless it is full; the others stay |
| Bloom.CountingBloomFilter.AdjustSlots | verthys-tauri/patches/selectors/bloom.rs:140-175 | both slots of a hash are adjusted, twice if they coincide |
| Bloom.CountingBloomFilter.InsertHash | verthys-tauri/patches/selectors/bloom.rs:104-108 | both slots are counted up, saturating; each counter stays exact or full |
| Bloom.CountingBloomFilter.RemoveHash | verthys-tauri/patches/selectors/bloom.rs:111-115 | removing a present item counts both slots down, unless they are full, without underflow; each counter stays exact or full |
| Bloom.CountingBloomFilter.NoFalseNegative | verthys-tauri/patches/selectors/bloom.rs:120-122 | a present item is reported present, also by its low 24 bits |
| Bloom.CountingBloomFilter.MightContainIff | verthys-tauri/patches/selectors/bloom.rs:117-122 | while nothing was removed, or no counter is full, an item is reported iff both of its slots are hit by present items |
| Bloom.CountingBloomFilter.IsZeroed | verthys-tauri/patches/selectors/bloom.rs:201-203 | whether all counters are zero |
| Bloom.HitsWithout | verthys-tauri/patches/selectors/bloom.rs:111-115 | taking out one item takes out exactly its hits of every slot |
| Bloom.SlotsOfMasked | verthys-tauri/patches/selectors/bloom.rs:275-282 | only the low 24 bits of a hash choose the slots |
| Bloom.SlotsTellHash | verthys-tauri/patches/selectors/bloom.rs:275-282 | two hashes have the same pair of slots iff their low 24 bits are equal |
| Bloom.HitsTell | verthys-tauri/patches/selectors/bloom.rs:104-122 | a slot is hit iff one of the items has it |
| Bloom.Replay | verthys-tauri/patches/selectors/bloom.rs:104-122 | over any run of inserts and removals of present items, what is left is found |
| Specificity.PackBits | verthys-tauri/patches/selectors/builder.rs:264-283 | shifting and masking 32-bit words is the arithmetic of the fields |
| Specificity.UnpackOfPack | verthys-tauri/patches/selectors/builder.rs:243-283 | every triple comes back as its component-wise clamp at 1023, with no carry |
| Specificity.PackedOrder | verthys-tauri/patches/selectors/builder.rs:243-283 | in range, order and equality of the words are the lexicographic ones of the triples |
| Specificity.PackedDifference | verthys-tauri/patches/selectors/builder.rs:243-283 | under dominance the difference of words is the word of the differences |
| Specificity.ComputeSpecificityAndFlags | verthys-tauri/patches/selectors/builder.rs:285-425 | the loop accumulates the sum of specificities and the union of flags |
| SpecificityMeaning.SpecCounts | verthys-tauri/patches/selectors/builder.rs:285-425 | each field is the number of ids, of classes, attributes and pseudo-classes, or of types, and what the arguments of `:is()`, `:not()`, `:has()` and `:nth-*(of)` add |
| SpecificityMeaning.ListCountsAsGreatest | verthys-tauri/patches/selectors/builder.rs:427-452 | a list counts as its most specific selector |
| SpecificityMeaning.ScopeFlagIff | verthys-tauri/patches/selectors/builder.rs:285-425 | where the headers are true, the flag is set iff there is a `:scope` at any depth |
| Specificity.SpecsOfPermutation | verthys-tauri/patches/selectors/builder.rs:285-425 | the order in which components are stored does not change the header |
| Builder.SelectorBuilder.PushSimpleSelector | verthys-tauri/patches/selectors/builder.rs:66-71 | appends to the open compound |
| Builder.SelectorBuilder.PushCombinator | verthys-tauri/patches/selectors/builder.rs:74-78 | closes the compound, whose stored order is then the layout read backwards |
| Builder.SelectorBuilder.ReverseLastCompound | verthys-tauri/patches/selectors/builder.rs:80-84 | the components, read from the end, are the layout of what was pushed |
| Builder.SelectorBuilder.Build | verthys-tauri/patches/selectors/builder.rs:93-150 | the stored order is the layout of what was pushed, behind `&` in a nested rule that has no `&`, behind an implicit `:scope` in a scoped rule that has neither, and alone otherwise; the header tells specificity and flags |
| Builder.SelectorBuilder.Drain | verthys-tauri/patches/selectors/builder.rs:105-150 | hands out the layout of everything that was pushed and leaves nothing |
| Builder.OrderIsRecovered | verthys-tauri/patches/selectors/parser.rs:2428-2436 | splitting at combinators and reversing gives back every push sequence |
| Builder.CompoundsOfJoin | verthys-tauri/patches/selectors/parser.rs:2428-2436 | splitting at combinators recovers the compounds and the combinators |
| Builder.LayoutWithAddition | verthys-tauri/patches/selectors/builder.rs:105-150 | the implicit addition is prepended in parse order |
| Builder.LayoutTurnsCompounds | verthys-tauri/patches/selectors/builder.rs:105-150 | the layout reverses the order of the compounds and combinators, and keeps the order inside of each compound |
| Builder.HeaderWithAddition | verthys-tauri/patches/selectors/builder.rs:105-150 | the addition changes the flags and not the specificity |
| ParentRewriter.ReplaceParentSelector | verthys-tauri/patches/selectors/parser.rs:1135-1351 | the one-pass rewriting, with threaded specificity and flags, gives the specified selector |
| ParentRewriter.OnComponent | verthys-tauri/patches/selectors/parser.rs:1250-1340 | what each component becomes and adds |
| ParentRewriter.OnSelectorList | verthys-tauri/patches/selectors/parser.rs:1145-1176 | a list without `&` is kept; otherwise each selector is replaced, and the packed difference, which never underflows, and the flags are added |
| ParentRewriter.OnRelative | verthys-tauri/patches/selectors/parser.rs:1187-1199 | one relative selector keeps its hint |
| ParentRewriter.MapRelatives | verthys-tauri/patches/selectors/parser.rs:1185-1205 | each is replaced, and it is noted whether any mentions `&` |
| ParentRewriter.OnRelativeList | verthys-tauri/patches/selectors/parser.rs:1178-1217 | the same for the argument of `:has()` |
| ParentSelectors.DifferenceIsPacked | verthys-tauri/patches/selectors/parser.rs:1165-1172 | the subtraction of packed words never underflows and the result unpacks |
| ParentSelectors.FlagCoversSelector | verthys-tauri/patches/selectors/parser.rs:1234-1236 | a selector without the flag has no `&` anywhere inside, so the early clone is safe |
| ParentSelectors.FlagNeedsMention | verthys-tauri/patches/selectors/builder.rs:285-425 | without invalid selectors, the flag is set only if there is an `&` |
| ParentSelectors.ReplacedFlagsTrue | verthys-tauri/patches/selectors/parser.rs:1135-1351 | the flags of the result are exact, at every depth |
| ParentSelectors.FlagComesFromParent | verthys-tauri/patches/selectors/parser.rs:1135-1351 | the result keeps the flag only if the parent list has it |
| ParentSpecificity.SettledHeader | verthys-tauri/patches/selectors/parser.rs:1165-1172 | if no list other than that of a `:where()` loses in a field, the header is the recomputed one, saturation included |
| ParentSelectors.ReplacedSpecificityOfSingles | verthys-tauri/patches/selectors/parser.rs:1135-1351 | so it is whenever `&` is nested in single-selector arguments only |
| ParentSpecificity.ReplacedSpecificityIff | verthys-tauri/patches/selectors/parser.rs:1165-1172 | unless a count of the result exceeds 1023, the header is the recomputed one iff no field of an argument list became smaller |
| ParentSpecificity.ReplacedSpecTrue | verthys-tauri/patches/selectors/parser.rs:1135-1351 | if no difference borrows at any depth, all headers of the result, at every depth, tell the recomputed specificity |
| ParentSelectors.BorrowGoesWrong | verthys-tauri/patches/selectors/parser.rs:1165-1172 | `:is(.a.b.c, &)` under `#x`: the header differs from the recomputed one |
| ParentMeaning.ReplacementPreservesMeaning | verthys-tauri/patches/selectors/parser.rs:1135-1351 | for every element, the rewritten selector matches iff the original does with `&` read as "matches the parent list here" |
| ParentMeaning.ReplacementOfPlainParent | verthys-tauri/patches/selectors/parser.rs:1135-1351 | if the parent list has no `:has()`, `&` is read as one fixed set of elements |
| ParentReading.FixedReadingIff | verthys-tauri/patches/selectors/parser.rs:1135-1351 | for every selector of the parser, `&` can be read as one fixed set iff the parent list matches the same elements inside of every `:has()` as outside |
| ParentReading.SameIfRight | verthys-tauri/patches/selectors/parser.rs:1135-1351 | for each element that is not alone, a selector of the parser shows whether the reading is right there |
| ParentReading.ListSilent | verthys-tauri/patches/selectors/matching.rs:630-636 | inside of a `:has()` a list matches the same elements, whichever the anchor is |
| ParentReading.NestedHasIsLost | verthys-tauri/patches/selectors/matching.rs:630-636 | `:has(> &)` under `:has(> *)`: the fixed set says that it matches the root of a given document, and after replacement it does not |
| ParentMeaning.RewriteKeepsShape | verthys-tauri/patches/selectors/parser.rs:1238-1262 | compounds and combinators stay where they are |
| ParentMatching.HintIsKept | verthys-tauri/patches/selectors/parser.rs:1187-1199 | the kept search hint is right for the rewritten relative selector |
| ParentMatching.RewrittenSelectorIsMatchedExactly | verthys-tauri/patches/selectors/parser.rs:1135-1351 | the matcher on the rewritten selector decides the meaning of the original one |
| FlatbuffersVector.Vector.Swap | core/schema/generated/flatbuffers_common_reader.h:423-434 | exchanges exactly the two elements, or the two resolved targets modulo 2^32 |
| FlatbuffersVector.Rebased | core/schema/generated/flatbuffers_common_reader.h:424-430 | an offset moved and rebased reaches what it reached |
| FlatbuffersVector.PastTheVectorNothingWraps | core/schema/generated/flatbuffers_common_reader.h:424-430 | targets past the vector are reached without wrap-around from any cell |
| FlatbuffersVector.Vector.SiftDown | core/schema/generated/flatbuffers_common_reader.h:383-405 | restores the heap from the node on, moves nothing across the end, stays in bounds and terminates, also at root 0 |
| FlatbuffersVector.Vector.HeapSort | core/schema/generated/flatbuffers_common_reader.h:406-413 | for a comparison that puts no element above itself, ends with the elements permuted, and sorted when it is a total preorder; offsets that lead past the vector still do, to the same addresses in the new order, without wrapping around |
| FlatbuffersVector.Vector.SortView | core/schema/generated/flatbuffers_common_reader.h:406-413 | the sort itself, on the resolved elements |
| FlatbuffersVector.PermutedLeadPast | core/schema/generated/flatbuffers_common_reader.h:424-430 | cells that reach the same targets in another order lead past the vector too, to the same addresses |
| FlatbuffersVector.SelfChildNeverEnds | core/schema/generated/flatbuffers_common_reader.h:386-404 | with a comparison that puts an element above itself, node 0 is exchanged with itself forever |
| FlatbuffersVector.SwapMovesTheHole | core/schema/generated/flatbuffers_common_reader.h:398-401 | swapping with the larger child moves the only possible violation there |
| FlatbuffersVector.ChosenIsLargest | core/schema/generated/flatbuffers_common_reader.h:389-397 | the chosen child is a largest one; node 0 never exceeds itself |
| FlatbuffersVector.RootIsLargest | core/schema/generated/flatbuffers_common_reader.h:411-413 | nothing in the heap exceeds its root |
| FlatbuffersVector.RootIsPlaced | core/schema/generated/flatbuffers_common_reader.h:411-413 | moving the root behind the heap extends the sorted tail |
| FlatbuffersVector.Vector.FindByField | core/schema/generated/flatbuffers_common_reader.h:242-261 | any answer is a match; on a sorted vector it is the lowest one, and None iff there is none |
| FlatbuffersVector.Vector.ScanByField | core/schema/generated/flatbuffers_common_reader.h:290-299 | the lowest match of the range, or None iff there is none |
| FlatbuffersVector.Vector.RScanByField | core/schema/generated/flatbuffers_common_reader.h:300-309 | the highest match of the range, or None iff there is none |
| FlatbuffersVector.Vector.ScanExByField | core/schema/generated/flatbuffers_common_reader.h:322-339 | a range is cut at the vector's length |
| FlatbuffersVector.Vector.RScanExByField | core/schema/generated/flatbuffers_common_reader.h:322-339 | the same from the end |
| FlatbuffersVector.LowestMatchIsUnique | core/schema/generated/flatbuffers_common_reader.h:242-261 | so binary search and linear scan agree |
| FlatbuffersVector.MatchesAreConsecutive | core/schema/generated/flatbuffers_common_reader.h:290-309 | in a sorted vector the matches are what lies between the two scans' answers |
| FlatbuffersVector.SortedIsAscending | core/schema/generated/flatbuffers_common_reader.h:275-277 | a vector sorted by the key is in order as the search sees it |
| FlatbuffersKeys.StrCmpIsLexicographic | core/schema/generated/flatbuffers_common_reader.h:238-239 | the C comparison is lexicographic on what precedes the first zero byte |
| FlatbuffersKeys.StringNCmpIsLexicographic | core/schema/generated/flatbuffers_common_reader.h:235-237 | comparing up to the shorter length and then lengths is the same, then by length |
| FlatbuffersKeys.StrCmpMeans | core/schema/generated/flatbuffers_common_reader.h:238-239 | negative iff the visible part of the first string precedes that of the second: a proper prefix, or the smaller byte at the first difference; zero iff they are equal |
| FlatbuffersKeys.StringNCmpMeans | core/schema/generated/flatbuffers_common_reader.h:235-237 | negative iff the visible part precedes, or is the same and the string is shorter |
| FlatbuffersKeys.VisibleEndsAtZero | core/schema/generated/flatbuffers_common_reader.h:238-239 | the visible part is what stands before the first zero byte |
| FlatbuffersKeys.SortedScalarsIff | core/schema/generated/flatbuffers_common_reader.h:421 | a vector is sorted iff its keys ascend |
| FlatbuffersKeys.SortedStringsIff | core/schema/generated/flatbuffers_common_reader.h:422 | a vector of strings is sorted iff none is followed by one that precedes it |
| FlatbuffersKeys.ScalarProbeMeans | core/schema/generated/flatbuffers_common_reader.h:234 | a key is below the wanted one iff it is smaller, and matches iff it is equal |
| FlatbuffersKeys.ScalarsAreOrdered | core/schema/generated/flatbuffers_common_reader.h:421 | scalar keys are totally preordered |
| FlatbuffersKeys.StringsAreOrdered | core/schema/generated/flatbuffers_common_reader.h:420-421 | strings, with zero bytes inside too, are totally preordered |
| FlatbuffersKeys.EqualStrings | core/schema/generated/flatbuffers_common_reader.h:235-237 | strings compare equal iff their lengths and visible parts are equal |
| FlatbuffersKeys.SortedStringsCanBeSearched | core/schema/generated/flatbuffers_common_reader.h:274-280 | strings sorted with lengths can be searched without and with them |
| FlatbuffersKeys.SortedScalarsCanBeSearched | core/schema/generated/flatbuffers_common_reader.h:264-273 | the same for scalar keys |
| Relocations.CollectFileSpots | core/tools/rhash_gen.c:453-494 | reads exactly the listed slots in order, or fails on a bad block or an unknown kind; terminates |
| Relocations.CollectBlockSpots | core/tools/rhash_gen.c:473-492 | the slots of one block, padding skipped |
| Relocations.DirectoryIsRead | core/tools/rhash_gen.c:453-494 | a directory laid out from blocks is read back as their non-padding entries, and refused iff one has an unknown kind |
| Relocations.AcceptedDirectoryIsWritten | core/tools/rhash_gen.c:453-494 | whatever is accepted is such a directory |
| RuntimeHash.DirectoryCovers | core/tools/rhash_gen.c:473-492 | a directory is accepted iff it lists nothing but padding and the kinds 10, 3, 1 and 2; then a byte is covered iff it is one of the 8, 4 or 2 bytes from page + offset, modulo 2^32, of some entry |
| RuntimeHash.DirectoryExample | core/tools/rhash_gen.c:465-490 | the twelve bytes of a directory with one 64-bit relocation, and its slot |
| RuntimeHash.FileHashInput | core/tools/rhash_gen.c:502-541 | label and bytes with what the reached slots cover set to zero, clipped at both ends; fails iff the bytes are not in the file |
| RuntimeHash.MemoryHashInput | core/src/security/integrity/runtime_hash.c:174-212 | the same from memory; a buffer out of 32-bit reach of the image, or without one, is hashed unmasked, an empty or too long one not at all |
| RuntimeHash.MaskSpots | core/tools/rhash_gen.c:527-541 | zeroes exactly the covered bytes of the function, up to the early exit |
| RuntimeHash.ReachedIff | core/tools/rhash_gen.c:527-541 | a byte is masked iff a spot that covers it is listed before every spot that starts past the function |
| RuntimeHash.AscendingIsInTime | core/tools/rhash_gen.c:532 | in ascending order each covered byte of the function is covered by a spot listed before the early exit |
| RuntimeHash.MaskingIsExactIff | core/tools/rhash_gen.c:497-541 | masking is right for every body iff each covered byte of the function is covered by a spot that is listed before any that starts past the function |
| RuntimeHash.MisorderedSpotsAreMissed | core/tools/rhash_gen.c:497 | an order for which it is not |
| RuntimeHash.SameInputIff | core/tools/rhash_gen.c:520-541 | two bodies give the same input iff they agree on every uncovered byte |
| RuntimeHash.FileAndMemoryAgreeIff | core/src/security/integrity/runtime_hash.c:163-212 | file and memory give the same input iff they agree on every byte that no listed relocation covers |
| RuntimeHash.LabelSpells | core/src/security/integrity/runtime_hash.h:59 | the label that every input starts with |
| RuntimeHash.ContainsItsAddresses | core/tools/rhash_gen.c:502-518 | a section contains the addresses from its start up to its size |

## Left out

- Shadow trees, `:host`, `::slotted`, `::part` and pseudo-elements, with their combinators and featureless hosts: the four plain combinators only.
- Visited links, quirks mode, starting style, selector flags written to elements and debug logging: fixed to one mode.
- Namespaced and operator attribute selectors: an attribute carries the set of value tests it passes; `AttributeOther`, `ExplicitAnyNamespace` and `ExplicitNoNamespace` are not components of the model.
- Tokenising, parsing and escaping of CSS text; serialization is modelled as the order of components only.
- Element identities are positions in document order, so no two elements share one and every document is finite; links must be mutually consistent.
- Cache keys are the selectors themselves, where the code uses the address of their storage: equal lists stored twice share an entry in the model.
- MatchingTheorems.NormalMatchingIsExact: excludes the An+B that the code judges wrongly on some index the document can have, and `:nth-*()` in documents of 2^31 elements or more, whose indices leave 32 bits.
- MatchingTheorems.RevalidationIsConservative: one direction for a whole selector, because another part of it can hide a wrong count; the exact condition is stated for each list.
- Matcher.MatchingContext.NthLastIndexFromEarlier: what it finds is right; that it finds an entry whenever an earlier sibling has one is not stated, because a nested query can store one on the way.
- ParentSpecificity.ReplacedSpecificityIff: does not decide the case in which a count of the result exceeds 1023, where saturation can hide a borrow.
- `matches_compound_selector_from` and its offsets: the same compound matching from the middle of a selector.
- `nest_for_scope` and scope conditions: the scoping element is fixed for a context.
- `BloomStorageBool`, which never forgets, and `clear`: easy members.
- Once filled, a filter of the `:has()` search is a value: the code does not change it any more either.
- Hash functions of names and of buffers are uninterpreted; the filter's contents are given by inserting element hashes.
- FlatBuffers table access, vtables, builders and verifiers; floating-point keys, whose comparison is no total preorder when a NaN occurs (the permutation result still holds).
- FlatbuffersVector.Vector.Swap: offsets are resolved modulo 2^32; that no target wraps is stated of the whole sort, for targets past the vector.
- PE headers, map files, function sizes, file I/O, the table of overlays of the runtime scan, and the library sort of the runtime side, whose result is taken to be ascending.
- Relocations.CollectFileSpots: asks that the directory lies in the file, which header reading does not check, and models block sizes without 32-bit wrap of the inner offset, which needs a file of 4 GB.
- The container engine, the transaction layer and the remaining security modules.
