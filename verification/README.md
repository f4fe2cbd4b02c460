# Stylo: a verified model of the selector engine and its neighbours

Stylo is the CSS engine shared by Firefox and Servo.  This project models the parts of it
whose correctness is an argument rather than a definition, and proves those arguments:

| files | what is modelled |
|---|---|
| `Dom`, `DomTraversal` | a light DOM tree numbered in document order, its siblings and ancestors, and the pre-order iterator that can skip subtrees |
| `Selectors`, `Layout` | selectors as the flat, match-ordered component list; the builder that lays it out, the iterators that read it, the split that serialises it |
| `Kleene`, `Semantics` | three-valued logic and the engine's answer as a function (`SelVal`): the first candidate that does not fail, nearest first |
| `Meaning`, `MatchingTheorems`, `LeafMeaning`, `ClosedSelectors` | the declarative meaning of selectors (`Sat`, `IsAssignment`), of nth selectors by kind and of components that look at one element, the theorems that connect engine and meaning, and selectors on which all modes agree |
| `MatchResults`, `MatchingEngine` | the backtracking matcher with its three failure codes, nested lists, `:not`, nth with its cache, and `:has()`, in four modes |
| `RelativeHints`, `HintTightness` | the search space of `:has()` and the hint that selects it, neither too narrow nor too wide |
| `BloomFilter`, `AncestorHashes`, `HashCompleteness`, `FastReject`, `StyleBloom` | the counting filter, hash collection and packing, that nothing needed is left out, the fast reject, and the filter that follows a traversal |
| `NthIndexCache`, `NthSharing`, `SharedIndices`, `NthCacheContexts`, `AnPlusB` | the nth-index cache, which contexts may share one, and the An+B test |
| `Nesting`, `ImplicitSelectors` | replacing `&` by the parent rule's selectors; what the builder adds to a selector that does not name `&` or the scope, and what that means |
| `QuerySelector` | the fast paths of `querySelector` and `querySelectorAll` against the plain walk |
| `ParallelTraversal` | the work-sharing style traversal, under every schedule |
| `Substitution`, `CustomPropertiesMap` | `var()`, `env()` and `attr()` substitution with its cycle guard; the copy-on-write map of custom properties |
| `RefCount` | the atomic steps of `Arc` clone, drop and uniqueness |
| `PiecewiseLinear` | the builder and evaluator of `linear()` easing, over exact reals |

Code that updates state is a class or a method with loops (`MatchingContext`, `SelectorBuilder`,
`SelectorIter`, `CountingBloomFilter`, `StyleBloom`, `NthIndexCache`, `DomDescendants`, `Query`,
`Traversal`, `Substituter`, `ValueBuilder`, `Heap`, `ArcInner`, `PiecewiseLinearFunctionBuilder`).
Each method is tied to a specification function, and the theorems are about that function.

## How the matching theorems fit together

1. `MatchingContext.MatchesComplexSelectorInternal` returns a code.  `Promise` says what a code
   means: its Kleene value is `SelVal`, and each failure code is a claim about elements that
   have not been tried.  The method meets `Promise`, so every early exit is justified.  With
   `caching` the matcher reads and fills an nth cache; it then asks for a cache whose indices are right
   (`IndicesRight`, which it keeps) and for selectors whose nth lists pass a syntactic check (`Cacheable`).
   Equal lists may lie at several addresses, and the theorem holds for each occurrence at any of them.
2. `SelApproximates` relates `SelVal` to the declarative `Sat` by induction over selector and tree
   together.  `Sat` takes a resolution of the leaves that a mode leaves open.  Four theorems follow:
   styling is exact, revalidation is exact for its own reading of `:scope`, a settled comparison
   answer holds under every resolution, and an invalidation answer is an upper or lower bound
   according to the polarity of `:not`.
3. `MatchedIffAssignment` states styling without recursion: an element matches if and only if one
   sequence of elements, one per compound, satisfies compounds and combinators.
4. The fast reject, `:has()` hints, nesting replacement and query fast paths are all stated
   against the same `SelVal`, so they compose with 1 to 3.

## Where the code departs from its promise

Each of these is proved, with the exact condition under which the code is right.

- An nth cache is found by the address of the selector list alone, while what a list matches can
  depend on the context.  `MayShare` is a syntactic check of a list against what two contexts have in common:
  no `:has()` unless both or neither have an anchor; no anchor outside of `:has()` unless it is the same; no `:scope`
  or `&` unless the scope is the same and is read alike, as revalidation takes `:scope` for true outside negations and
  false inside; no `:link` or `:visited` unless the contexts handle visited links alike.
  `IndicesAgree` shows that such lists have the same indices in both contexts on every tree, `AskAll` that one cache
  then answers any sequence of questions from many contexts rightly, and `ServesNext` that a cache that is right for
  one matcher is right for the next.  For each conjunct there are a tree, a list that fails it alone and two contexts
  whose indices differ, so that `AskTwice` answers wrongly: `AnchorsCanDisagree`, `ScopesCanDisagree`,
  `RevalidationCanDisagree` (against styling, and against the opposite polarity), `VisitedPassesCanDisagree`, and
  `FreeAnchorsCanDisagree`, the last for a list built by hand only: the parser never leaves an anchor outside of `:has()`.
- `get_id` drops the case flag of an `[id=v]` component, and takes `[id=""]` for an id although an element with an empty
  `id` attribute has none.  `IdLookupCoversIffExact` gives the exact
  condition for a component.  `QuerySelector` and `QuerySelectorFast` state for every list what comes out: the selected
  elements that pass the id test of the lookup that decided.  That is right if and only if the test drops
  none of them (`TestIsRightIff`), and `IdLookupsAreExact` tells beforehand, looking only at lookups that the scan can
  get to.  For a compound of one such component among classes, states and universal types the check is exact: the lookup
  drops nothing in any document if and only if it passes (`CheckIsExactForCompounds`), and when it does not,
  `InexactLookupLoses` runs the fast path and the slow path with different results.  `CaseFlagIsLost` and
  `EmptyIdIsLost` are the two kinds.
- `CustomPropertiesMap::insert` into a shared map skips the write when the new value compares equal to the old
  one, and comparison ignores the base URL, the taint, the difference between components that compare equal such as 0
  and -0, and, for values of universal syntax, all but the text.
  `InsertedIsExactUnless` gives the exact condition, `WriteIsLost` and `SignOfZeroIsLost` inputs (one text from two base
  URLs, the two zeros).  `Run` states full values for runs that store no such value, and what comparison sees for all
  runs.
- `AnPlusB::matches_index` treats an overflowing `i - b` as no match.  `MatchesIndexIffSomeStep` is
  the equivalence, `OverflowMissesEverything` the family that is missed.
- `StyleBloom::clear` leaves a nonzero filter when a slot has saturated and few hashes are held: the
  contract of `StyleBloom.Clear` says exactly when it is zeroed, and `ClearLeavesStuckSlot` gets there, whatever the
  hash function, by going down a deep path and back up.

## Premises

- The tree does not change during an operation, and its nodes are numbered in document order.
- `QuerySelector.Trusted`: a subtree filter never denies a name that occurs in the subtree, and the
  document's id lists hold exactly the elements with that id in tree order.  That an element's id is its `id` attribute,
  and none if that is empty, is asked for only by the statement that exact lookups give right results.
- While a cache is in use, an address holds one selector list (`SharedIndices.Lists`).
- `ParallelTraversal.ValidWork`: processing a node notes each of its children at most once, and
  `work_unit_max` is positive whenever a pool is used.
- `RefCount.FewThreads`: fewer threads are inside `clone` than `MAX_REFCOUNT`.  Leak-marking happens
  before the allocation is shared.

## Model

| member | source | states |
|---|---|---|
| MatchingEngine.MatchingContext.MatchesComplexSelectorInternal | selectors/matching.rs:843-991 | the returned code keeps its whole promise: its Kleene value is the selector's value at the element, and a failure code's claim about untried elements holds; the context is left as it was |
| MatchingEngine.MatchingContext.MatchesCandidates | selectors/matching.rs:870-990 | the candidate loop meets the same promise whichever early exit it takes |
| MatchingEngine.FailureDecides | selectors/matching.rs:932-983 | when a candidate's failure code ends the loop, the code passed on is a true promise at the outer compound |
| MatchingEngine.CandidateDecides | selectors/matching.rs:932-948 | the first candidate that does not fail fixes Matched or Unknown |
| MatchResults.NextCandidateIsClosest | selectors/matching.rs:811-841 | stepping from a tried candidate reaches the nearest untried one and skips none |
| MatchResults.OutOfSiblings | selectors/matching.rs:901-919 | running out of siblings shows that neither the element nor an earlier sibling can match |
| MatchResults.OutOfAncestors | selectors/matching.rs:901-919 | running out of ancestors shows that no element on the same ancestor chain or a suffix of it can match |
| MatchResults.GlobalFailurePropagates | selectors/matching.rs:944-946 | a global failure of one candidate is a global failure of the whole selector |
| MatchResults.DescendantRestartPropagates | selectors/matching.rs:962-982 | a restart-from-descendant failure passes through sibling combinators |
| MatchResults.ParentFailed | selectors/matching.rs:958-961 | a failed parent of a child combinator rules out all earlier siblings as well |
| MatchResults.CandidateValFails | selectors/matching.rs:907-990 | trying candidates nearest first fails if and only if every related element fails |
| MatchingEngine.MatchingContext.MatchesCompoundSelector | selectors/matching.rs:1186-1217 | the compound's value is the Kleene conjunction of its simple selectors, despite stopping early |
| MatchingEngine.MatchingContext.MatchesSimpleSelector | selectors/matching.rs:1219-1345 | every light-tree component gets its specified value in every mode, revalidation included |
| MatchingEngine.MatchingContext.MatchesComplexSelectorList | selectors/matching.rs:491-500 | the list's value is the Kleene disjunction of its selectors |
| MatchingEngine.MatchingContext.MatchesNested | selectors/context.rs:387-398 | matching inside `:is` and `:where` restores the nesting level |
| MatchingEngine.MatchingContext.MatchesNegated | selectors/context.rs:400-409 | matching inside `:not` flips and restores the polarity and negates the value |
| MatchingEngine.MatchingContext.MatchesScope | selectors/matching.rs:1297-1311 | `:scope` is open in the two invalidation modes, true outside negations and false inside for revalidation, and a test against the scope or root for styling |
| MatchingEngine.MatchingContext.MatchesGenericNthChild | selectors/matching.rs:1389-1516 | nth selectors get the value of the plain index test and the cache stays right; where indices are computed the element must be chosen by the list and stand where its kind says, as `NthMeans` spells out |
| MatchingEngine.MatchingContext.NthChildIndex | selectors/matching.rs:1518-1602 | the walks that stop at a stored sibling compute the 1-based index among those that count, from either end, while matching the list fills the cache under them |
| MatchingEngine.MatchingContext.LookUpOrCount | selectors/matching.rs:1479-1500 | at whichever address this occurrence of the list lies, a stored index is the plain index in the current context; otherwise it is counted and stored, and the cache stays right for every selector |
| MatchingEngine.MatchingContext.FromEarlierSibling | selectors/matching.rs:1536-1566 | looking left for a stored index from the end gives the plain index from the end, if one is found |
| MatchingEngine.MatchingContext.CountToStored | selectors/matching.rs:1568-1602 | counting up to a stored sibling gives the plain index |
| SharedIndices.IndexAfter | selectors/matching.rs:1581-1599 | adding the count to the stored index of an earlier sibling gives the index from the start |
| SharedIndices.IndexBefore | selectors/matching.rs:1544-1566 | subtracting the count from the stored index of an earlier sibling gives the index from the end |
| SharedIndices.Remember | selectors/nth_index_cache.rs:87-97 | storing a right index keeps every stored index right, for all selectors at all addresses and both ends |
| SharedIndices.RightOutermost | selectors/nth_index_cache.rs:58-81 | for a list that passes the check an index is right under any polarity and anchor that the matcher gets to exactly if it is right outermost |
| SharedIndices.ServesNext | selectors/nth_index_cache.rs:58-81 | a cache that is right for one matcher is right for the next, in any mode and scope and however it handles visited links, if every list passes the check |
| MatchingEngine.EdgeChild | selectors/matching.rs:1467-1477 | `:first-child` and `:last-child` by neighbour test agree with index 1 |
| MatchingEngine.MatchingContext.MatchRelativeSelectors | selectors/matching.rs:618-695 | `:has()` sets and restores the anchor and is true when some relative selector matches |
| MatchingEngine.MatchingContext.MatchesRelativeSelector | selectors/matching.rs:502-586 | the limited search succeeds if and only if some element anywhere in the tree matches with this anchor |
| MatchingEngine.MatchingContext.SearchChildren | selectors/matching.rs:510-538 | the child and subtree search is complete for its hint |
| MatchingEngine.MatchingContext.SearchSiblings | selectors/matching.rs:539-585 | the sibling search is complete for its hint |
| MatchingEngine.MatchingContext.MatchesRelativeSelectorSubtree | selectors/matching.rs:697-723 | the recursive subtree walk misses no descendant |
| MatchingEngine.MatchingContext.MatchesSelectorList | selectors/matching.rs:123-142 | true when some selector of the list does not fail |
| MatchingTheorems.MatchedIffAssignment | selectors/matching.rs:843-991 | an element matches if and only if elements can be assigned to all compounds, linked by the combinators |
| MatchingTheorems.StylingIsExact | selectors/matching.rs:843-991 | in styling mode the engine's value is the declarative meaning, for every selector and tree |
| MatchingTheorems.RevalidationIsExact | selectors/matching.rs:1297-1306 | in revalidation mode the engine's value is the declarative meaning in which `:scope` is the polarity |
| MatchingTheorems.ComparisonIsSound | selectors/matching.rs:1405-1412 | a True or False answer of the comparison mode holds under every resolution of the open leaves |
| MatchingTheorems.ComparisonAgreesWithStyling | selectors/context.rs:354-362 | a settled comparison answer is the styling answer |
| MatchingTheorems.InvalidationBoundsByPolarity | selectors/matching.rs:632-641 | answering open leaves by polarity gives an upper bound outside negations and a lower bound inside, at every depth of `:not` |
| MatchingTheorems.InvalidationCoversStyling | selectors/matching.rs:1297-1306 | invalidation matches every element that styling matches |
| MatchingTheorems.IndexIsCardinality | selectors/matching.rs:1518-1602 | the index is one more than the number of counted siblings on one side |
| MatchingTheorems.NthMeans | selectors/parser.rs:1677-1690 | for each of the six kinds, without the predicates on kinds: An+B holds at one more than the number of earlier or later siblings, all that the list chooses or those of the same name and namespace, and the two only-kinds mean that there is no other |
| LeafMeaning.LeafMeans | selectors/matching.rs:1230-1288 | what a component that looks at one element asks of it: names by the lower-case form in HTML documents, classes and ids up to case in quirks mode, attributes by name, namespace and operator |
| LeafMeaning.OperatorMeans | selectors/attr.rs:110-144 | the six attribute operators as texts put together from parts: a prefix and a rest, a rest and a suffix, a part in between, one of the words between white space, the value or the value, a hyphen and more |
| LeafMeaning.LinksMean | selectors/context.rs:53-71 | links match `:link` except in the visited pass, and `:visited` except in the ordinary one |
| ClosedSelectors.ClosedInAllModes | selectors/context.rs:354-362 | a selector without `:scope`, `:has()` and nth has one value in all four modes and under any polarity |
| KleeneLogic.AnyValue | selectors/kleene_value.rs:39-72 | the early-exit loop computes the three-valued disjunction or conjunction |
| RelativeHints.HintLosesNothing | selectors/parser.rs:1874-1934 | every element that matches a relative selector lies in the search space of its hint |
| RelativeHints.HintStep | selectors/parser.rs:1874-1934 | one more compound moves a match to the space of the hint with that combinator added |
| HintTightness.HintsAreTight | selectors/parser.rs:1874-1915 | for each relative combinator and each presence of others, some selector of that kind matches an element that only hints at least as wide as its own look at |
| RelativeHints.ComputeMatchHint | selectors/parser.rs:2005-2063 | reading the combinators off the iterator yields the hint of the selector |
| NthIndexCache.NthIndexCache.Run | selectors/matching.rs:1479-1512 | over every run of queries the cache stays sound and every answer is the plain sibling index |
| NthIndexCache.NthIndexCache.Index | selectors/matching.rs:1479-1512 | a hit returns the entry, a miss the plain index; exactly that entry is recorded |
| NthIndexCache.NthIndexCache.NthChildIndex | selectors/matching.rs:1518-1602 | stopping at a cached earlier sibling gives the same index as the full walk |
| NthIndexCache.NthIndexCache.Insert | selectors/nth_index_cache.rs:87-97 | an insert changes one entry of one map and no other map |
| NthIndexCache.IndexFromEarlier | selectors/matching.rs:1536-1599 | the index follows from an earlier sibling's by the count in between, with the sign of the direction |
| NthIndexCache.ShareIndices | selectors/nth_index_cache.rs:27-52 | queries that share a map have the same indices, if their lists mean the same |
| NthSharing.PlainIndexIsSiblingIndex | selectors/matching.rs:1518-1602 | the cache's index is the matcher's index |
| NthSharing.IndicesAgree | selectors/nth_index_cache.rs:58-81 | on every tree a list that passes the check has the same meaning and the same indices in both contexts, be they styling or revalidation, in any scope and polarity and however they handle visited links |
| NthCacheContexts.AskAll | selectors/matching.rs:1479-1512 | one cache answers questions from any number of styling and revalidation contexts, in any order, with the index each context would count, if lists with one address pass the check for each pair of contexts |
| NthCacheContexts.MatchesNthThroughCache | selectors/matching.rs:1414-1514 | the nth test with cached indices, edge and only-child cases included, says whether the element stands where the kind of the selector says, and leaves the cache right for all other questions |
| NthCacheContexts.AskTwice | selectors/nth_index_cache.rs:58-81 | a second context gets the index of the first, which is right if the list passes the check |
| NthCacheContexts.AnchorsCanDisagree | selectors/nth_index_cache.rs:58-81 | a list with `:has()` and nothing else of the context: its index differs with and without an anchor |
| NthCacheContexts.FreeAnchorsCanDisagree | selectors/nth_index_cache.rs:58-81 | a list, which only code that builds selectors by hand can make, that names the anchor and nothing else of the context: its index differs under two anchors |
| NthCacheContexts.ScopesCanDisagree | selectors/nth_index_cache.rs:58-81 | a list that names the scope and nothing else of the context: its index differs in an inner and an outer scope |
| NthCacheContexts.RevalidationCanDisagree | selectors/matching.rs:1297-1306 | the same list without a scope: its index differs between revalidation and styling, and between the two polarities of revalidation |
| NthCacheContexts.VisitedPassesCanDisagree | style/gecko/wrapper.rs:2070-2079 | a list with `:visited` and nothing else of the context: its index differs in the ordinary and in the visited pass |
| AnPlusB.MatchesIndexIffSomeStep | selectors/parser.rs:1696-1708 | the test is true exactly when `i - b` does not overflow and some n at least 0 gives `a*n + b == i` |
| AnPlusB.OverflowMissesEverything | selectors/parser.rs:1696-1708 | the smallest b with a step of one matches no index although a step exists |
| Layout.SelectorBuilder.PushSimpleSelector | selectors/builder.rs:66-71 | a push extends the parse order by one component |
| Layout.SelectorBuilder.PushCombinator | selectors/builder.rs:74-78 | a combinator closes the compound and extends the parse order |
| Layout.SelectorBuilder.Build | selectors/builder.rs:93-150 | the built selector is the match order of all pushes, with the implicit leftmost part and the collected flags; the builder is drained; `NestingAddsParent` and its neighbours tell the implicit part by what was pushed |
| Layout.MatchOrderTwice | selectors/builder.rs:80-85 | laying out twice restores the parse order |
| Layout.ReversedAt | selectors/builder.rs:80-85 | reversing puts the k-th component k places before the end |
| Layout.CompoundsInMatchOrder | selectors/builder.rs:93-150 | the layout reverses the compounds and the combinators and keeps the order inside each compound |
| Layout.ImplicitCompoundIsLeftmost | selectors/builder.rs:105-150 | whatever is added becomes a compound of its own, leftmost and joined by a descendant combinator |
| ImplicitSelectors.NestingAddsParent | selectors/builder.rs:105-112 | a nested selector gets exactly one more leftmost compound, `&`, if and only if the pushes do not mention `&` at any depth |
| ImplicitSelectors.ScopeAddsScope | selectors/builder.rs:113-121 | a scoped selector gets the scope as one more leftmost compound if and only if the pushes mention neither `&` nor a scope |
| ImplicitSelectors.OthersAddNothing | selectors/builder.rs:122-123 | arguments of `:has()` and other selectors get nothing |
| ImplicitSelectors.BuiltRefers | selectors/builder.rs:105-123 | a built nested selector always mentions `&`, a scoped one `&` or a scope |
| ImplicitSelectors.FlagIffRefers | selectors/builder.rs:285-447 | a tracked selector has either flag if and only if it mentions `&`, or a scope, at some depth |
| ImplicitSelectors.NestedMeansBelowParent | selectors/builder.rs:105-112 | a nested selector that does not name `&` matches if and only if the pushed one does with its leftmost compound below an element that the parent list matches |
| ImplicitSelectors.ScopedMeansBelowScope | selectors/builder.rs:113-121 | a scoped selector that names neither matches below the scope element |
| Layout.SelectorIter.Next | selectors/parser.rs:1551-1568 | the iterator yields the next simple selector or stops at a combinator, which it remembers |
| Layout.SelectorIter.NextSequence | selectors/parser.rs:1502-1504 | the remembered combinator is handed out once |
| Layout.SelectorIter.SkipToAncestor | selectors/parser.rs:1508-1515 | skipping passes all sibling compounds |
| Layout.ReadSequences | selectors/parser.rs:1493-1568 | reading a selector through the iterator yields exactly its compounds and combinators |
| Layout.SplitForSerialization | selectors/parser.rs:2412-2420 | splitting at combinators from the back yields the compounds and combinators left to right |
| Layout.SerializationRestoresParseOrder | selectors/parser.rs:2412-2420 | serialising a built selector shows the compounds and combinators as they were pushed |
| Nesting.ReplaceParentSelector | selectors/parser.rs:1151-1365 | the early-out traversal computes the replacement and its flags |
| Nesting.ReplaceOnRelativeSelectorList | selectors/parser.rs:1194-1233 | relative selectors without `&` are kept, the others replaced, and flags accumulated |
| Nesting.ReplacementPreservesMeaning | selectors/parser.rs:1151-1365 | matching the replaced selector is matching the original with `&` read as the parent list, through any nesting, `:has()` included, in every mode |
| Nesting.ReplacedSubstitutes | selectors/parser.rs:1248-1365 | the early-outs skip nothing: every `&` at any depth is replaced when flags are tracked |
| Nesting.FlagCovers | selectors/builder.rs:285-447 | a tracked selector that mentions `&` at any depth has the flag |
| Nesting.BuiltIsTracked | selectors/builder.rs:285-447 | what the builder builds from tracked parts is tracked |
| Nesting.ReplacedIsTracked | selectors/parser.rs:1151-1192 | replacement keeps the flag invariant |
| Nesting.SubstitutedIsWellFormed | selectors/parser.rs:1194-1233 | replacement keeps the match hints of relative selectors right |
| Nesting.ReplacementRemovesParent | selectors/parser.rs:1151-1365 | `&` is left exactly when it occurred both in the selector and in the parent list |
| BloomFilter.CountingBloomFilter.InsertHash | selectors/bloom.rs:102-108 | both slots count up, twice if they coincide, and stick at 255, which they do exactly when they get there |
| BloomFilter.CountingBloomFilter.RemoveHash | selectors/bloom.rs:109-116 | undoing an insert takes the slots down without underflow; stuck slots stay |
| BloomFilter.CountingBloomFilter.Clear | selectors/bloom.rs:84-88 | clearing zeroes every slot |
| BloomFilter.CountingBloomFilter.AdjustSlot | selectors/bloom.rs:183-193 | one slot moves by one unless it is saturated |
| BloomFilter.CountingBloomFilter.NeverMisses | selectors/bloom.rs:118-122 | a held hash is found, whole or masked to 24 bits |
| BloomFilter.CountingBloomFilter.EmptyIsZeroedUnlessStuck | style/bloom.rs:78-86 | an emptied filter is zeroed if and only if no slot saturated |
| BloomFilter.SlotsIgnoreTopByte | selectors/bloom.rs:275-282 | masking a hash changes neither of its slots |
| BloomFilter.SlotsTellHashesApart | selectors/bloom.rs:275-282 | hashes that share both slots agree in all other bits |
| BloomFilter.CountingBloomFilter.AnswersBySlots | selectors/bloom.rs:118-122 | the filter says no unless each of the two slots is stuck or hit by a held hash |
| AncestorHashes.CollectAncestorsSound | selectors/parser.rs:645-774 | every hash collected from a selector that an element may match is carried by one of its ancestors |
| AncestorHashes.CollectSound | selectors/parser.rs:645-733 | the same for the ancestor part, single-selector `:is` and `:where` included |
| AncestorHashes.RequiredHashIsCarried | style/bloom.rs:109-133 | a component that matches an element names a hash the element pushes |
| AncestorHashes.PackRoundTrip | selectors/parser.rs:776-803 | unpacking gives back all four masked hashes, and with fewer than four nothing is added |
| HashCompleteness.CollectAncestorsComplete | selectors/parser.rs:645-774 | unless four hashes have been found, every class, id, name, namespace and non-excluded attribute that an ancestor has to carry, in single nested lists too, is among them |
| HashCompleteness.RejectsIffLacking | selectors/matching.rs:146-170 | if no hash is zero, a selector is rejected if and only if the filter lacks one of its hashes |
| HashCompleteness.LackingRejects | selectors/matching.rs:146-170 | what an ancestor has to carry and the filter lacks rejects the selector |
| HashCompleteness.ElementHashesAre | style/bloom.rs:109-133 | an element pushes the hashes of its name, namespace, id, classes and non-excluded attributes and no others |
| FastReject.FastRejectIsExact | selectors/matching.rs:146-170 | with a filter that holds the ancestors' hashes, a rejected selector does not match |
| FastReject.MatchesSelectorKleene | selectors/matching.rs:283-310 | the answer is the same with and without hashes |
| FastReject.CollectSelectorHashes | selectors/parser.rs:645-733 | the in-place collection writes exactly the specified hashes, stops at four and touches no other slot |
| FastReject.CollectAncestorHashes | selectors/parser.rs:736-774 | the same from the subject, descending into its single-selector lists first |
| FastReject.NewAncestorHashes | selectors/parser.rs:776-796 | the packed words hold the collected hashes |
| FastReject.AncestorIter.Next | selectors/parser.rs:1604-1619 | the iterator yields components of ancestor compounds only |
| StyleBloom.StyleBloom.Push | style/bloom.rs:179-196 | pushing extends the chain and adds the element's hashes |
| StyleBloom.StyleBloom.Pop | style/bloom.rs:200-220 | popping undoes the last push, filter included, except that a stuck slot stays stuck |
| StyleBloom.StyleBloom.Clear | style/bloom.rs:230-242 | clearing empties the chain, and the filter is zeroed exactly when it was wiped or no slot had saturated |
| StyleBloom.ClearLeavesStuckSlot | style/bloom.rs:230-242 | for every hash function: pushing 128 nested elements, popping them all and clearing ends with an empty chain and a filter that is not zeroed |
| StyleBloom.StyleBloom.Rebuild | style/bloom.rs:245-257 | rebuilding gives the root-first ancestor chain |
| StyleBloom.StyleBloom.InsertParentsRecovering | style/bloom.rs:294-402 | from any chain it ends with the element's ancestors, root first, and reports the forest case exactly |
| StyleBloom.StyleBloom.PopToCommonParent | style/bloom.rs:377-391 | popping and climbing together stop at the common ancestor or past both roots |
| StyleBloom.ChainEndsAt | style/bloom.rs:294-402 | a chain is determined by its last element and is as long as that element is deep |
| StyleBloom.RecoveredFilterHoldsAncestors | style/bloom.rs:109-133 | after recovery the filter holds every hash the fast reject asks for |
| DomTraversal.NextInPreorder | style/dom.rs:202-207 | returns the next node of the scope in document order, and none exactly at its end |
| DomTraversal.NextInPreorderSkippingChildren | style/dom.rs:214-231 | returns the next node after the whole subtree |
| DomTraversal.DomDescendants.Next | style/dom.rs:111-116 | the iterator advances through the scope without gaps |
| DomTraversal.DomDescendants.NextSkippingChildren | style/dom.rs:97-102 | the iterator advances past the subtree of the node it returned last |
| DomTraversal.BelowIsConvex | style/dom.rs:202-231 | the nodes below a node are consecutive in document order |
| QuerySelector.Query.QuerySelector | style/dom_apis.rs:866-912 | for every list the results are the matching elements in document order, or the first, exactly when the deciding id test drops none, and always when the lookups the scan can get to are exact |
| QuerySelector.Query.QuerySelectorFast | style/dom_apis.rs:605-835 | for every list: success gives the results of the plain walk, or those of them that pass the id test that decided, as an id in the subject always does; failure leaves the results untouched |
| QuerySelector.Query.QuerySelectorSlow | style/dom_apis.rs:838-854 | the plain walk yields all matching elements in document order, or the first |
| QuerySelector.Query.CollectAllElements | style/dom_apis.rs:259-295 | skipping subtrees that the filter rejects loses no element |
| QuerySelector.Query.ConnectedElementIsDescendantOf | style/dom_apis.rs:298-331 | true exactly for elements below the root |
| QuerySelector.Query.CollectElementsWithId | style/dom_apis.rs:364-402 | the id list restricted to the root gives the same elements as a walk |
| QuerySelector.Query.QuerySelectorSingle | style/dom_apis.rs:449-588 | a one-component selector is answered by its own filter, or declined without effect |
| QuerySelector.Query.ScanSelector | style/dom_apis.rs:636-760 | the scan ends with the selected elements that pass a lookup which every match needs, or with untouched results and a filter implied by the selector |
| QuerySelector.Query.QueryByAncestorId | style/dom_apis.rs:685-731 | searching only below the listed elements finds exactly the selected elements with that id above them |
| QuerySelector.FirstSubtree | style/dom_apis.rs:702-728 | the first match below the first listed element that has one is the first of all matches with that id above them |
| QuerySelector.IdLookupCoversIffExact | style/dom_apis.rs:426-446 | the id lookup finds every element a component matches if and only if the component is an id, or its value is not empty and the comparison is case sensitive or the value has no letter |
| QuerySelector.TestIsRightIff | style/dom_apis.rs:664-731 | results with the id test equal those without it exactly when it drops no selected element, or not the first when only that is asked for |
| QuerySelector.ExactTestLosesNothing | style/dom_apis.rs:664-731 | a component that every match needs and whose lookup is exact drops none |
| QuerySelector.CheckIsExactForCompounds | style/dom_apis.rs:605-682 | for a compound of one id component among classes, states and universal types: the check made beforehand passes if and only if the lookup drops nothing in any document and context |
| QuerySelector.InexactLookupLoses | style/dom_apis.rs:605-682 | for every such compound whose lookup is not exact there is a document in which the fast path succeeds with no result and the slow path finds an element |
| QuerySelector.CaseFlagIsLost | style/dom_apis.rs:426-446 | `*[id=a i]` is one, in a document whose only element has the id `A` |
| QuerySelector.EmptyIdIsLost | style/dom_apis.rs:426-446 | `*[id=""]` is another, in a document whose only element has an empty `id` attribute |
| QuerySelector.NamesAreCarried | style/dom_apis.rs:449-588 | the names a filter asks for are carried by every element it accepts |
| ParallelTraversal.FinishedRunVisitsAllOnce | style/parallel.rs:149-205 | when no thread can go on, every node reachable through noted children was processed exactly once, under every schedule |
| ParallelTraversal.EveryStateIsSafe | style/parallel.rs:117-205 | in every state nothing was processed twice, each recorded depth is the real depth, and waiting chunks are nonempty and on one level |
| ParallelTraversal.NoDeadlock | style/parallel.rs:149-205 | while a node waits some thread can move |
| ParallelTraversal.RunsAreShort | style/parallel.rs:149-205 | every run ends within a bound in the number of nodes |
| ParallelTraversal.StepKeepsInv | style/parallel.rs:149-205 | processing a node and handing off work keeps the account of nodes and levels |
| ParallelTraversal.StartKeepsInv | style/parallel.rs:83-115 | taking a chunk keeps it and loses or repeats nothing |
| ParallelTraversal.ChunksInOrder | style/parallel.rs:117-145 | chunks hold the items in order, all but the last full |
| ParallelTraversal.ChunksHoldAll | style/parallel.rs:117-145 | every item is in exactly as many chunks as it was handed over times |
| ParallelTraversal.ChunksAreRight | style/parallel.rs:117-145 | chunks are nonempty and keep the level of their items |
| ParallelTraversal.Traversal.DistributeWork | style/parallel.rs:117-145 | the loop queues exactly those chunks |
| ParallelTraversal.Traversal.ProcessFirst | style/parallel.rs:167-204 | one round of the loop is one step of the state machine |
| ParallelTraversal.Traversal.ShareSurplus | style/parallel.rs:179-198 | work is handed off only if a unit of the next level and the thread's local share are there; the thread keeps its local share and its whole level, and everything otherwise; kept and handed out are the whole queue |
| ParallelTraversal.Traversal.StyleTrees | style/parallel.rs:149-205 | a thread empties its queue, keeps the invariant and leaves the other threads alone |
| ParallelTraversal.Traversal.TakeChunk | style/parallel.rs:83-115 | a spawned job sets the depth of its thread and runs its items |
| ParallelTraversal.Traversal.TraverseDom | style/driver.rs:54-71 | without other threads the traversal visits every reachable node once at its depth |
| Substitution.ValueBuilder.Append | style/custom_properties.rs:901-946 | within the length limit the text goes behind what is there, after a comment exactly if the tokens would merge; the last token is the text's, the first one's type is kept; empty text changes nothing |
| Substitution.Substituter.DoSubstituteChunk | style/custom_properties.rs:1711-1799 | the loop computes the specified result on every variable map and restores the stack of names |
| Substitution.Substituter.SubstituteInto | style/custom_properties.rs:1747-1788 | one reference: text before it, the whole-value shortcut, its replacement |
| Substitution.Substituter.SubstituteOneReference | style/custom_properties.rs:1807-1993 | the referenced value, or the fallback if that is invalid |
| Substitution.Substituter.SubstituteVariable | style/custom_properties.rs:1827-1871 | a name on the stack is invalid; otherwise its value is substituted under the longer stack, which is then restored |
| Substitution.Substituter.SubstituteInternal | style/custom_properties.rs:1996-2022 | the whole value is substituted from its ends |
| Substitution.Substitute | style/custom_properties.rs:2025-2049 | substitution ends on every map and is expansion in which names on the current path are invalid, on acyclic maps plain expansion; the result spells the pieces from left to right with a comment between two exactly where their tokens would merge, and has the types of the first and last token; within the length limit |
| Substitution.JoinedSpells | style/custom_properties.rs:922-946 | joining pieces gives the text of the non-empty ones from left to right with comments where needed, and their outer token types |
| Substitution.ChunkSpells | style/custom_properties.rs:1711-1799 | the same at every level of expansion; there is a value exactly when every piece has one |
| Substitution.FallbackReplaces | style/custom_properties.rs:1837-1863 | a reference to a variable that is missing or on its own path says what its fallback says, and without one nothing |
| Substitution.TaintHasSource | style/custom_properties.rs:1711-1799 | nothing is tainted if no variable and no answer is |
| Substitution.TaintSpreads | style/custom_properties.rs:1711-1799 | one tainted reference taints the whole |
| Substitution.VariableTaint | style/custom_properties.rs:1827-1871 | a variable's value is tainted if the variable is, or anything it refers to |
| Substitution.GuardedIsPathwise | style/custom_properties.rs:1711-1799 | on every map, cycles and fallbacks included, the stack of names acts as the set of names on the path and the loop joins the expanded pieces |
| Substitution.PathIsPlain | style/custom_properties.rs:1837-1863 | on acyclic maps no name comes up on its own path, so expansion does not depend on it |
| Substitution.GuardedIsPlain | style/custom_properties.rs:1711-1799 | on acyclic maps the guard never fires: the guarded result is the plain expansion |
| Substitution.LoopIsPathwise | style/custom_properties.rs:1711-1799 | from any point of the loop the rest is the join of the remaining expanded pieces |
| Substitution.CyclesAreInvalid | style/custom_properties.rs:1837-1863 | a variable that cannot be computed without coming back to its own knot is invalid |
| CustomPropertiesMap.Heap.Run | style/custom_properties_map.rs:155-236 | over any run of create, clone, drop, insert and remove on any handles, each handle is a mathematical map of its own: in full values if no stored value differs from the old one only in what comparison ignores, and in what comparison sees always |
| CustomPropertiesMap.Heap.Perform | style/custom_properties_map.rs:204-236 | one operation acts on all maps as it would without sharing if and only if it is not a store that is lost |
| CustomPropertiesMap.Heap.DoInsert | style/custom_properties_map.rs:204-225 | the handle's map is updated, every other handle's is unchanged |
| CustomPropertiesMap.Heap.WriteInPlace | style/custom_properties_map.rs:162-168 | writing through a unique handle changes only that handle's map |
| CustomPropertiesMap.Heap.Unshare | servo_arc/lib.rs:492-506 | making a handle unique copies its map and changes nobody's contents |
| CustomPropertiesMap.Heap.ExpandChain | style/custom_properties_map.rs:204-225 | a new front map over the shared one reads as the updated map |
| CustomPropertiesMap.Heap.Get | style/custom_properties_map.rs:155-160 | lookup through the parent chain is lookup in the handle's map |
| CustomPropertiesMap.Heap.Clone | servo_arc/lib.rs:425-465 | the copy sees the same map and nothing else changes |
| CustomPropertiesMap.Heap.Drop | servo_arc/lib.rs:544-583 | the handle disappears and every other handle's map stays |
| CustomPropertiesMap.Heap.Release | servo_arc/lib.rs:544-583 | dropping a reference frees the maps nobody refers to, parents in turn, and keeps all others |
| CustomPropertiesMap.SoleOwner | servo_arc/lib.rs:531-539 | a count of one means no other handle and no child map refers to it |
| CustomPropertiesMap.ChainsAreShort | style/custom_properties_map.rs:170-176 | a parent chain is as long as its stored count and never exceeds the limit |
| CustomPropertiesMap.NothingLeaks | servo_arc/lib.rs:544-583 | every map that is still allocated has an owner |
| CustomPropertiesMap.LookupKept | style/custom_properties_map.rs:155-160 | lookup depends on the map's own chain only |
| CustomPropertiesMap.InsertedContents | style/custom_properties_map.rs:204-225 | skipping a write of an equal value never changes contents |
| CustomPropertiesMap.InsertedIsExactUnless | style/custom_properties.rs:321-326 | an insert is exact if and only if it is not one into a shared map that has an equal value whose ignored part differs |
| CustomPropertiesMap.StoreIntoCopy | style/custom_properties_map.rs:204-210 | create, store, clone and store of any two equal values through the code leave the first one in the clone |
| CustomPropertiesMap.WriteIsLost | style/properties_and_values/value.rs:221-226 | one text from two base URLs: the second value is lost |
| CustomPropertiesMap.SignOfZeroIsLost | style/properties_and_values/value.rs:97-118 | a zero stored over one of the other sign: the second value is lost |
| RefCount.StepKeepsInv | servo_arc/lib.rs:425-465 | every atomic step keeps the account of references |
| RefCount.CountIsReferences | servo_arc/lib.rs:425-465 | in every run the count of a non-static allocation is the number of handles and clones not yet subtracted |
| RefCount.CountStaysSmall | servo_arc/lib.rs:445-456 | the count never reaches the static mark |
| RefCount.DestroyedAfterLast | servo_arc/lib.rs:544-583 | the destructor runs at most once, only after the last handle, and never for a leaked allocation |
| RefCount.DestroyedInTheEnd | servo_arc/lib.rs:544-583 | when all handles and clones are gone it has run exactly once, or never if the allocation was leaked |
| RefCount.NoUseAfterFree | servo_arc/lib.rs:425-583 | no step touches a destroyed allocation |
| RefCount.UniqueMeansAlone | servo_arc/lib.rs:512-540 | in every run a live handle that nobody is cloning reads a count of one if and only if it is the only handle and no clone is under way |
| RefCount.AbortMeansTooMany | servo_arc/lib.rs:445-456 | in every run the program aborts only after there were more references than the bound |
| RefCount.ClonesSucceed | servo_arc/lib.rs:425-465 | as long as there were never more references than the bound, every clone hands its copy over |
| RefCount.DropGoesOn | servo_arc/lib.rs:544-583 | a handle that nobody borrows can always go on dropping and gets nearer to its end |
| RefCount.CloneGoesOn | servo_arc/lib.rs:425-465 | a clone can always go on and gets nearer to its end, unless the program aborts |
| RefCount.ArcInner.CloneCheck | servo_arc/lib.rs:425-431 | the load of a clone is one step of the protocol |
| RefCount.ArcInner.CloneIncrement | servo_arc/lib.rs:432-443 | the increment is one step and reports the old count |
| RefCount.ArcInner.CloneReturn | servo_arc/lib.rs:445-465 | if the old count is at most the bound the copy is in use, the clone is over and nothing else has changed; otherwise the program aborts |
| RefCount.ArcInner.DropCheckStatic | servo_arc/lib.rs:544-549 | the load of a drop is one step |
| RefCount.ArcInner.DropDecrement | servo_arc/lib.rs:551-555 | the decrement is one step and reports whether it was the last |
| RefCount.ArcInner.IsUniqueNow | servo_arc/lib.rs:531-539 | one load tells the holder of a handle whether it is the sole owner, both ways |
| RefCount.ArcInner.MarkAsIntentionallyLeaked | servo_arc/lib.rs:370-373 | leak-marking stores the static mark |
| PiecewiseLinear.PiecewiseLinearFunctionBuilder.Push | style/piecewise_linear.rs:199-202 | a push records one stop |
| PiecewiseLinear.PiecewiseLinearFunctionBuilder.CreateEntry | style/piecewise_linear.rs:172-192 | an entry never goes back before an earlier one, a given position is kept or raised to the largest so far, and the builder stays valid for the longer list of stops |
| PiecewiseLinear.PiecewiseLinearFunctionBuilder.Build | style/piecewise_linear.rs:205-281 | one entry per stop in order, clamped x kept, gaps filled evenly, x never decreasing |
| PiecewiseLinear.KnownGrows | style/piecewise_linear.rs:172-192 | clamped x values never decrease |
| PiecewiseLinear.KnownIsLargest | style/piecewise_linear.rs:172-192 | a position is known for the first stop, the last and those with a finite one, and is the largest of those given so far, 0 for a first stop without and 1 for a last stop without |
| PiecewiseLinear.SpreadIsEven | style/piecewise_linear.rs:240-260 | neighbours in a filled gap are equally far apart, and the steps together make the gap |
| PiecewiseLinear.At | style/piecewise_linear.rs:101-139 | evaluation always finds its segment; away from its ends, and if these are apart, the value is on the straight line through them, which goes on beyond the first and last entry; next to an end it is that end's, and constant where the ends coincide; inside the domain it lies between them |
| PiecewiseLinear.InterpolationIsBetween | style/piecewise_linear.rs:77-97 | interpolation inside a segment lies between its two values |
| PiecewiseLinear.InterpolationFollowsLine | style/piecewise_linear.rs:77-97 | the value satisfies the equation of the line through the two points, from either one as the asymptote |
| PiecewiseLinear.PointsAreHit | style/piecewise_linear.rs:77-97 | the curve passes through the left end of a segment that is wider than the tolerance |
| PiecewiseLinear.BracketIsUnique | style/piecewise_linear.rs:101-139 | at most one segment brackets an x |

## Left out

- Shadow DOM and pseudo-elements: part, slot and pseudo-element combinators, featureless hosts, `:host`, `::slotted`; they add branches to the matcher and do not change the light-tree theorems.  A cache shared between shadow hosts would need one more conjunct in the check of lists, for `:host`.
- In the visited pass, the change back to unvisited links at a link or a sibling combinator within one selector: there the model answers `:link` and `:visited` as the pass began.  The check of nth lists refuses them in that pass, so it does not depend on this.
- The hover and active quirk, and the application of selector flags.
- The relative-selector cache and filter map in front of the `:has()` search: not in the files modelled.
- State pseudo-classes and other non-tree-structural leaves are one uninterpreted test of the element.
- Roots without a parent node have no siblings in the model.
- Tokenising and parsing of selectors and values; the model starts from components, references and stops.
- Specificity: only the flag half of `specificity_and_flags` is modelled; the incremental specificity of a replacement can borrow between packed fields.
- `new_invalid` and the scan of the text of an invalid selector for `&`.
- The hash function is a parameter; nothing is claimed about false positives.
- The choice of attribute names that are hashed follows the exclusion list in `style/bloom.rs`; a build that hashes no attribute is not modelled.
- A Servo debug assertion stops the program in the forest case; the model reports that case and goes on, as the other build does.
- Query: the branch for attribute names in mixed case walks without its subtree test, and the invalidation machinery that may replace the slow walk from a document root is not modelled.
- The upkeep of subtree filters and id lists by the DOM is a premise.
- Postorder processing and the thread-local caches of the traversal; spawning is the appearance of a chunk in a shared pool from which any idle thread may take any chunk.
- NthIndexCache.NthIndexCache.Run: assumes that a list address always stands for the same predicate, because the code does not check it; `NthCacheContexts.AskAll` replaces the assumption by the check on lists and contexts.
- NthCacheContexts.IndicesAgree: goes one way; lists that fail the check can still agree, as any two lists that mean the same by chance.
- QuerySelector.CheckIsExactForCompounds: for other lists the check stays sufficient only; in `[id=a i][id=a]` the second component makes up for the lookup of the first.
- MatchingEngine.MatchingContext.NthChildIndex: the code always consults a cache.  The model does so when `caching` is set, and then asks that lists pass the check; without it, no selector is excluded.
- Substitution.Substitute: the answers of `env()` and `attr()` are parameters, attr taint is one mark for a whole value where the code keeps ranges, and the comparison with plain expansion ignores the separator mark of an empty value and covers maps whose intermediate values fit the length limit.
- CustomPropertiesMap: `len`, `iter`, `get_index`, `shrink_to_fit` and map equality; iteration visits shadowed and removed names too, so it has no simple contract.
- ParallelTraversal.Traversal.TraverseDom: is the run on one thread; runs on several threads are the subject of the lemmas about runs.
- RefCount: memory ordering weaker than one atomic step at a time, `UniqueArc`, `ThinArc` and `ArcUnion`.
- PiecewiseLinear.At: arithmetic is over exact reals with infinities and NaN as separate cases; rounding is not modelled.
- Raw allocation, layout, tagged pointers and memory reporting.
