# Maestro Studio device-screen snapshot, in Dafny

Maestro Studio's server answers `GET /api/device-screen` with a snapshot of
the connected device. Holding the `DeviceScreenService` object's monitor
(`synchronized`), it captures the view hierarchy and a screenshot. It appends the screenshot file to a retention
list of at most `MAX_SCREENSHOTS = 10` files, deleting the oldest ones.
Then it turns the hierarchy into a list of display elements:

1. it flattens the tree in post-order and sorts the nodes with the filter
   library's index comparator;
2. it reads each node's `bounds` text `[l,t][r,b]` into
   `x, y, width, height`;
3. it gives the node two separate disambiguation indices. The text index is
   computed over the deepest nodes that the filter library's `textMatches`
   accepts for the node's text, as a regular expression. The resource-id
   index uses `idMatches` on its resource id in the same way;
4. it builds an id from those parts joined by `-`, falling back to the bounds
   and then to a random UUID, and adds `-k` to the k-th repeat of the same id.

The project models each step and proves what the code promises:

- post-order flattening lists every node exactly once, each after its
  descendants;
- the bounds parser accepts exactly the texts the pattern matches and
  rejects malformed and out-of-range numbers;
- deduplication keeps the first occurrence of each match, in order;
- the index is absent for fewer than two matches and is a position in the
  sorted matches otherwise;
- the counter numbers the repeats of a base id;
- the retention list is a bounded FIFO.

Integers are Kotlin `Int`s. `toIntOrNull` accepts only the 32-bit range, and
`r - l` wraps around modulo 2^32.

The element ids are distinct when no base id is itself another base id with a
`-k` counter appended (`Identifiers.IdsUnique`). Without that condition the code does not keep
ids unique: the bases `b`, `b`, `b-2` yield `b`, `b-2`, `b-2`
(`Identifiers.RepeatSuffixCanCollide`). The model follows the code here; it
does not add a check the code lacks.

Modules:

| file | module | what |
|---|---|---|
| wrappers.dfy | `Wrappers` | `Option` (Kotlin's nullable values) |
| decimal.dfy | `Decimal` | `Int` range, wrap-around subtraction, `toIntOrNull`, `toString` |
| bounds.dfy | `Bounds` | `TreeNode.bounds()` |
| hierarchy.dfy | `Hierarchy` | the tree, `attribute`, `gatherElements` |
| ordering.dfy | `Ordering` | `sortedWith`, `indexOf`, identity deduplication, `getIndex` |
| identifiers.dfy | `Identifiers` | `treeToElements` and `createElementId` |
| screenshots.dfy | `Screenshots` | the `savedScreenshots` retention list and the request handler |

## Model

| member | source | states |
|---|---|---|
| Decimal.Wrap32 | maestro-studio/server/src/main/java/maestro/studio/DeviceScreenService.kt:141-142 | the result is an `Int`, congruent to the input modulo 2^32, and equal to it when it is already in range |
| Decimal.Sub32 | maestro-studio/server/src/main/java/maestro/studio/DeviceScreenService.kt:141-142 | `Int` subtraction: the exact difference when it is in range, otherwise the difference minus or plus 2^32 |
| Decimal.ParseInt | maestro-studio/server/src/main/java/maestro/studio/DeviceScreenService.kt:133-136 | `toIntOrNull`: any value it returns is a 32-bit `Int`, and the text starts with a digit or a sign |
| Decimal.IntToString | maestro-studio/server/src/main/java/maestro/studio/DeviceScreenService.kt:113-117 | the text of an `Int` is non-empty, digits only when non-negative, and starts with `-` exactly when negative |
| Decimal.DigitsOfNatToString | maestro-studio/server/src/main/java/maestro/studio/DeviceScreenService.kt:117 | the digits printed for a counter read back as that counter |
| Decimal.ParseIntOfIntToString | maestro-studio/server/src/main/java/maestro/studio/DeviceScreenService.kt:133-136 | parsing a printed number gives it back exactly when it is a 32-bit `Int`, and fails otherwise |
| Decimal.IntToStringInjective | maestro-studio/server/src/main/java/maestro/studio/DeviceScreenService.kt:114 | two `Int`s with the same text are equal |
| Decimal.NatToStringInjective | maestro-studio/server/src/main/java/maestro/studio/DeviceScreenService.kt:117 | two counters with the same text are equal |
| Bounds.GroupSpan | maestro-studio/server/src/main/java/maestro/studio/DeviceScreenService.kt:126 | the pattern's greedy `[0-9-]+` run: the longest prefix of digits and `-` |
| Bounds.MatchBounds | maestro-studio/server/src/main/java/maestro/studio/DeviceScreenService.kt:126-131 | a successful full match gives four non-empty groups of digits and `-` that render back to the whole text |
| Bounds.MatchBoundsExactly | maestro-studio/server/src/main/java/maestro/studio/DeviceScreenService.kt:126-131 | the text matches with groups `g` if and only if it is exactly `[g1,g2][g3,g4]` with every group made of digits and `-` |
| Bounds.MismatchExactly | maestro-studio/server/src/main/java/maestro/studio/DeviceScreenService.kt:125-131 | bounds are rejected as not matching exactly when the attribute is present and no four such groups render to it |
| Bounds.IntToStringIsGroup | maestro-studio/server/src/main/java/maestro/studio/DeviceScreenService.kt:126 | every printed `Int` is a valid group of the pattern |
| Bounds.ParseFormattedBounds | maestro-studio/server/src/main/java/maestro/studio/DeviceScreenService.kt:124-144 | bounds printed from four `Int` corners parse to `x = l`, `y = t`, `width = r - l`, `height = b - t` with `Int` subtraction |
| Bounds.OutOfRangeCorner | maestro-studio/server/src/main/java/maestro/studio/DeviceScreenService.kt:133-136 | a corner outside the `Int` range makes the bounds null although the text matches |
| Bounds.ParseExample | maestro-studio/server/src/main/java/maestro/studio/DeviceScreenService.kt:124-144 | `[10,20][110,220]` gives `x=10, y=20, width=100, height=200` |
| Bounds.GarbageExample | maestro-studio/server/src/main/java/maestro/studio/DeviceScreenService.kt:128-131 | a text that is not of the form `[..,..][..,..]` is rejected as not matching |
| Bounds.DoubleMinusExample | maestro-studio/server/src/main/java/maestro/studio/DeviceScreenService.kt:133-136 | `[--1,0][1,1]` matches the pattern but its first group does not parse, so the bounds are null |
| Hierarchy.Attribute | maestro-studio/server/src/main/java/maestro/studio/DeviceScreenService.kt:76-80 | null exactly when the key is missing or its value is empty; any other result is that non-empty value |
| Hierarchy.GatherElements | maestro-studio/server/src/main/java/maestro/studio/DeviceScreenService.kt:68-74 | the returned list is the given list followed by the post-order of the tree |
| Hierarchy.PostOrderIsNodes | maestro-studio/server/src/main/java/maestro/studio/DeviceScreenService.kt:68-74 | flattening lists every node of the tree, each as often as it occurs in the tree |
| Hierarchy.SubtreeBlock | maestro-studio/server/src/main/java/maestro/studio/DeviceScreenService.kt:68-74 | the node at position `i` is preceded directly by its own subtree's post-order, ending at `i` |
| Hierarchy.DescendantsFirst | maestro-studio/server/src/main/java/maestro/studio/DeviceScreenService.kt:69-72 | each descendant of a node is listed before that node |
| Hierarchy.RootLast | maestro-studio/server/src/main/java/maestro/studio/DeviceScreenService.kt:72 | the list is as long as the tree has nodes, and the root comes last |
| Ordering.SortWithPermutes | maestro-studio/server/src/main/java/maestro/studio/DeviceScreenService.kt:82-83 | sorting keeps exactly the same elements with the same multiplicities |
| Ordering.SortWithSorted | maestro-studio/server/src/main/java/maestro/studio/DeviceScreenService.kt:82-83 | under a total preorder comparator, the sorted list is ordered |
| Ordering.IndexOf | maestro-studio/server/src/main/java/maestro/studio/DeviceScreenService.kt:92 | `indexOf`: -1 exactly when the element is absent, otherwise the position of its first occurrence |
| Ordering.DistinctSpec | maestro-studio/server/src/main/java/maestro/studio/DeviceScreenService.kt:86-90 | deduplication keeps every matched node, none twice, in the order of their first occurrences |
| Ordering.DistinctCount | maestro-studio/server/src/main/java/maestro/studio/DeviceScreenService.kt:86-91 | the deduplicated list has one entry per distinct matched node |
| Ordering.GetIndex | maestro-studio/server/src/main/java/maestro/studio/DeviceScreenService.kt:85-93 | the identity-map filter loop and the index lookup compute the disambiguation index |
| Ordering.DisambiguationIndexSpec | maestro-studio/server/src/main/java/maestro/studio/DeviceScreenService.kt:91-92 | null exactly when fewer than two distinct matches; -1 exactly when the element is not among them; otherwise a position in the sorted distinct matches holding the element, with no earlier copy and ordered against its neighbours |
| Ordering.SingleMatchHasNoIndex | maestro-studio/server/src/main/java/maestro/studio/DeviceScreenService.kt:91 | a node matched only by itself, however often, gets no index |
| Ordering.TwoMatchesAreNumbered | maestro-studio/server/src/main/java/maestro/studio/DeviceScreenService.kt:91-92 | with two strictly ordered matches, the first gets index 0 and the second index 1 |
| Identifiers.BaseIds | maestro-studio/server/src/main/java/maestro/studio/DeviceScreenService.kt:96-115 | one base id per element, in order |
| Identifiers.Synthesize | maestro-studio/server/src/main/java/maestro/studio/DeviceScreenService.kt:96-121 | one display element per sorted node, in order |
| Identifiers.IdCounter.constructor | maestro-studio/server/src/main/java/maestro/studio/DeviceScreenService.kt:95 | the counter map starts empty |
| Identifiers.IdCounter.CreateElementId | maestro-studio/server/src/main/java/maestro/studio/DeviceScreenService.kt:116-117 | the counter of the base id becomes the number of times it has been produced; the id is the base the first time and `base-k` the k-th time |
| Identifiers.DescribeElement | maestro-studio/server/src/main/java/maestro/studio/DeviceScreenService.kt:97-120 | one step of the `map`: the node's base id is counted and its display element carries the suffixed id |
| Identifiers.TreeToElements | maestro-studio/server/src/main/java/maestro/studio/DeviceScreenService.kt:67-122 | the loop over the sorted elements with the shared counter returns the element list the specification function describes |
| Identifiers.ElementsAreSortedNodes | maestro-studio/server/src/main/java/maestro/studio/DeviceScreenService.kt:82-83 | the elements are exactly the tree's nodes, ordered by the comparator when it is a total preorder |
| Identifiers.FinalIdOccurrence | maestro-studio/server/src/main/java/maestro/studio/DeviceScreenService.kt:116-117 | the first element with a base id keeps it; a later one gets `base-k` with k ≥ 2 its occurrence number |
| Identifiers.LastIndexOf | maestro-studio/server/src/main/java/maestro/studio/DeviceScreenService.kt:117 | helper behind `SuffixedSplit`, which reads back an id built as `"$id-$index"`: -1 exactly when the character is absent, otherwise a position holding it with no occurrence after it |
| Identifiers.SuffixedSplit | maestro-studio/server/src/main/java/maestro/studio/DeviceScreenService.kt:117 | a suffixed id splits at its last `-` into the base id and the digits of its counter |
| Identifiers.CounterHasNoDash | maestro-studio/server/src/main/java/maestro/studio/DeviceScreenService.kt:117 | a printed counter contains no `-` |
| Identifiers.CountGrows | maestro-studio/server/src/main/java/maestro/studio/DeviceScreenService.kt:116 | a later repeat of a base id has a strictly larger count |
| Identifiers.SameBaseDistinctIds | maestro-studio/server/src/main/java/maestro/studio/DeviceScreenService.kt:116-117 | two elements with the same base id get different ids |
| Identifiers.IdsUnique | maestro-studio/server/src/main/java/maestro/studio/DeviceScreenService.kt:112-118 | all ids differ when no base id equals another base id with a `-k` suffix |
| Identifiers.RepeatSuffixCanCollide | maestro-studio/server/src/main/java/maestro/studio/DeviceScreenService.kt:115-117 | the bases `b`, `b`, `b-2` give the second and third elements the same id `b-2` |
| Identifiers.Split | maestro-studio/server/src/main/java/maestro/studio/DeviceScreenService.kt:115 | splitting at a separator yields at least one piece |
| Identifiers.SplitJoin | maestro-studio/server/src/main/java/maestro/studio/DeviceScreenService.kt:115 | `joinToString` is undone by splitting at the separator when no part contains it |
| Identifiers.BaseIdFromParts | maestro-studio/server/src/main/java/maestro/studio/DeviceScreenService.kt:113-115 | with some part present and no part containing `-`, the base id splits at `-` into resourceId, resourceIdIndex, text and textIndex (those present, in that order). A text such as `a-b` or an index of -1, printed `-1`, contains `-` and is not covered |
| Identifiers.FallbackIdDecodes | maestro-studio/server/src/main/java/maestro/studio/DeviceScreenService.kt:114-115 | with no part present and bounds known, the base id is four comma-separated numbers that parse back to x, y, width and height |
| Identifiers.BaseIdNonEmpty | maestro-studio/server/src/main/java/maestro/studio/DeviceScreenService.kt:113-115 | every base id is non-empty when the UUID is |
| Identifiers.JoinNonEmpty | maestro-studio/server/src/main/java/maestro/studio/DeviceScreenService.kt:115 | joining non-empty parts gives a non-empty text |
| Screenshots.RetainStep | maestro-studio/server/src/main/java/maestro/studio/DeviceScreenService.kt:43-46 | after an append and eviction the list holds at most 10 files and ends with the new one. The evicted files followed by the kept ones are the old list plus the new file, so the evicted ones are the oldest and the kept ones keep their order. Nothing is evicted below the limit, and exactly the oldest file is evicted at the limit |
| Screenshots.RetainAllKeepsNewest | maestro-studio/server/src/main/java/maestro/studio/DeviceScreenService.kt:30-46 | from an empty list, after any sequence of captures the list is the newest 10 of them in capture order, and the evicted ones are the rest |
| Screenshots.ElevenCaptures | maestro-studio/server/src/main/java/maestro/studio/DeviceScreenService.kt:30-46 | the eleventh capture evicts exactly the first |
| Screenshots.DeviceScreenService.constructor | maestro-studio/server/src/main/java/maestro/studio/DeviceScreenService.kt:34 | the retention list starts empty |
| Screenshots.DeviceScreenService.Save | maestro-studio/server/src/main/java/maestro/studio/DeviceScreenService.kt:43-46 | the append and `removeFirst().delete()` loop leaves the list bounded and duplicate-free. The new list is the retained list, and the stored files lose exactly the evicted ones |
| Screenshots.DeviceScreenService.DeviceScreenRequest | maestro-studio/server/src/main/java/maestro/studio/DeviceScreenService.kt:37-60 | a failed hierarchy capture changes nothing. Otherwise the screenshot is retained and the response carries `/screenshot/<name>`, the device size and the synthesized elements |

## Left out

- The `synchronized` block: the request is modelled as one sequential method on the service object, and concurrent requests are not modelled.
- Device I/O is not modelled. This covers `viewHierarchy()`, `takeScreenshot`, `deviceInfo()` and the screenshot exception that is caught and ignored. The hierarchy arrives as a parameter, where a failed capture is `None`. The width and height are parameters too. The file is saved whether or not writing it succeeded.
- `deviceInfo()` failing after the screenshot is saved: in the code, the retention list keeps the file and the request fails. The model always answers once the hierarchy is captured.
- Screenshot directory resolution, `deleteOnExit` and real file deletion: files are opaque handles, and deletion removes a file from the `stored` set.
- Ktor routing, static file serving and Jackson serialization: the response is a `DeviceScreen` value, not JSON text.
- The filter library is not part of this model. This covers `Filters.deepestMatchingElement`, `textMatches`, `idMatches`, `INDEX_COMPARATOR` and `toRegexSafe`. They are parameters: two matching functions and an ordering relation. The lemmas about order assume only that the relation is a total preorder.
- `UUID.randomUUID()`: element `i` draws its token from a parameter `token(i)`. The screenshot file is passed in, and the model assumes its name is new.
- `maestro.TreeNode` is not part of this model. A node is a value with an identifier, attributes and children. The identity comparison of the `IdentityHashMap` becomes value equality, which the identifier makes node-specific.
- Ordering.IndexOf, Ordering.DisambiguationIndex: `indexOf(element)` compares with `TreeNode.equals`, whose definition is not part of this model, and the model compares nodes by identity. If that equality is structural, two distinct nodes with equal attributes and children both get the index of the first in the code. The model gives them different indices, as `Ordering.TwoMatchesAreNumbered` shows.
- `maestro-cli/src/main/java/maestro/cli/command/QueryCommand.kt` is not part of this model: it only forwards command-line options to the filter library.
- The `System.err` warning for bounds that do not match is not modelled. That outcome is `Mismatch` instead.
- Ordering.SortWithSorted: the stability of `sortedWith` is built into the insertion sort but not proved as a property.
- Decimal.ParseInt: Kotlin's `toIntOrNull` also accepts non-ASCII Unicode digits, which are not modelled. The pattern only lets ASCII digits and `-` reach it.
- Identifiers.IdCounter.CreateElementId: the counter is an unbounded integer, so the overflow of the `Int` counter after 2^31 repeats is not modelled.
- Hierarchy.GatherElements: the shared `MutableList` is threaded through the recursion as a sequence value. Aliasing of the list is not modelled.
- Identifiers.IdsUnique: the code does not ensure unique ids in general, so uniqueness is proved only under the condition that no base id looks like another one with a counter suffix (see `Identifiers.RepeatSuffixCanCollide`).
