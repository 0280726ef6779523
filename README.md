# Library core of social-dj, modelled in Dafny

This project models the data core of the social-dj music library front end. It covers:

- **The library tree** (`Tree`, `TreeManagement`). This is a forest of folders and playlists, and the path index that maps every node id to the list of child positions leading to it. `rebuildIndex` walks the tree in pre-order and writes one index entry per node. The spec function `Tree.Index` is that traversal applied to an empty dictionary, so when an id is duplicated, the later visit wins. `addTreeItem` resolves the parent through the supplied index, walks to it in a copy of the hierarchy, appends a new folder or playlist as its last child, and rebuilds the index.
- **Track search** (`Search`, using `JsText`). `simplifyString` normalises to NFC, replaces every character outside `[A-Za-z0-9]` by its value in the transliteration table (or keeps it), and lower-cases the result. `searchTracks` trims the simplified query and rejects queries shorter than 2. It then collects the ids of the tracks whose simplified artist or title contains the query, in two buckets: a match at a word boundary is "relevant", a match mid-word is "less relevant". It returns the relevant ids followed by the others, capped at 100.
- **Track sorting** (`Sort`, using `StableSort`). This covers the tag colour cycle, the direction toggle, the tag rank, and `getSortedTracks` with its per-column comparator. `Array.prototype.sort` is stable, so it is modelled by a stable insertion sort on an array. Its result is specified by the function `StableSort.Sort`, and the lemmas about that function prove it sorted, a permutation, and stable.
- **Colour tags** (`ColorTags`). This is a store object whose `get` looks a track up by `String(trackId)` and whose `set` replaces the map by a copy with that key assigned or deleted.
- **Folder open state** (`TreeState`). This is a store object holding the set of expanded folder ids, with `isOpen`, `toggle`, `reset`, and the start-up parse of the stored list.

Stateful objects are Dafny classes whose methods state their whole new state: `PathIndex`, `ColorTagStore` and `FolderState`. Loops of the source are methods with loop invariants, proved against spec functions. Pure code is functions, and the properties are lemmas.

Where the source calls into code that is not part of this model, the model takes a parameter:

- `UnicodeServices.nfc` stands for `String.prototype.normalize('NFC')`.
- `UnicodeServices.lowerNonAscii` stands for `toLowerCase` of a non-ASCII character.
- `collate` stands for `String.prototype.localeCompare`.
- `parse` stands for `JSON.parse`.
- The id that `generateId` would produce is passed in as `newId`.

## Model

| member | source | states |
|---|---|---|
| Tree.IndexFidelity | src/lib/tree-management.svelte.js:7-21 | following an indexed path from the root array reaches a node carrying that id, even when ids repeat |
| Tree.IndexKeys | src/lib/tree-management.svelte.js:10-17 | an id has an index entry if and only if some reachable node carries it |
| Tree.FreshNotIndexed | src/lib/tree-management.svelte.js:7-21 | an id no node carries has no index entry |
| Tree.IndexOfReachable | src/lib/tree-management.svelte.js:10-17 | with unique ids, every reachable node is indexed at exactly the path that reaches it |
| Tree.RootIndexed | src/lib/tree-management.svelte.js:11-19 | with unique ids, the root node at position i is indexed at [i] |
| Tree.ChildIndexed | src/lib/tree-management.svelte.js:13-15 | with unique ids, child i of the folder at path p is indexed at p + [i] |
| Tree.LaterVisitWins | src/lib/tree-management.svelte.js:14 | with duplicated ids, the node visited last in pre-order owns the index entry |
| Tree.LastWinsLatest | src/lib/tree-management.svelte.js:14 | assigning entries in order leaves each id mapped to the path of its last assignment |
| Tree.EntriesReach | src/lib/tree-management.svelte.js:11-15 | every entry the traversal writes names the node actually found at its path |
| Tree.ReachedIsListed | src/lib/tree-management.svelte.js:11-15 | every reachable node is visited by the traversal, with the path that reaches it |
| TreeManagement.PathIndex.constructor | src/lib/tree-management.svelte.js:8 | the index starts empty |
| TreeManagement.PathIndex.Walk | src/lib/tree-management.svelte.js:10-17 | walking `nodes` under `path` adds the pre-order entries of that subtree to the index, later ones overwriting earlier ones |
| TreeManagement.RebuildIndex | src/lib/tree-management.svelte.js:7-21 | the result is the index of the hierarchy (`Tree.Index`) |
| TreeManagement.NewItem | src/lib/tree-management.svelte.js:31-33 | the new node is a folder exactly when the kind is "folder"; it carries the id, the name and the parent id, and has no children or tracks |
| TreeManagement.ResolveParent | src/lib/tree-management.svelte.js:38-41 | stepping into `children[i]` along the path yields the children array reached, or nothing where JavaScript would raise a TypeError |
| TreeManagement.AppendAt | src/lib/tree-management.svelte.js:42 | after the push, the children array at the path is the old one plus the new item; at the root the item is added after the old roots, and below it every other root is unchanged |
| TreeManagement.AddTreeItem | src/lib/tree-management.svelte.js:25-50 | returns null exactly when the parent id is not in the index, and throws exactly when the walk or the push fails. On success: the item is the last child of the parent and reachable at its path; the new hierarchy is the old one with the item pushed at the parent's path; every node it reaches was reached before or is the new item; every old node keeps its path and label; unique ids stay unique when the new id is fresh; the new index is the index of the new hierarchy, and for a fresh id it is the old index with the one new entry |
| TreeManagement.AppendedItemAt | src/lib/tree-management.svelte.js:42 | the pushed item is reached at the parent path extended by the old child count |
| TreeManagement.AppendKeepsNodes | src/lib/tree-management.svelte.js:36-42 | every node reachable before the push is reached by the same path after it, with the same id, name, parent and kind |
| TreeManagement.AppendAddsOnlyItem | src/lib/tree-management.svelte.js:36-42 | every node reachable after the push was reachable before by the same path with the same label, or is the new item at the parent path extended by the old child count |
| TreeManagement.AppendKeepsUnique | src/lib/tree-management.svelte.js:36-42 | pushing a childless item with a fresh id keeps every id carried by one node only |
| TreeManagement.AppendIndex | src/lib/tree-management.svelte.js:42-46 | pushing a childless item with a fresh id changes the index only by adding that id at its new path |
| JsText.CharAt | src/lib/search.svelte.js:27-35 | indexing a string gives its character inside the bounds and undefined outside them |
| JsText.IndexOf | src/lib/search.svelte.js:19-20 | the result is the first position where the query occurs, or -1 when it occurs nowhere |
| JsText.TrimSlice | src/lib/search.svelte.js:6 | trimming keeps a contiguous run of the string with only white space removed at either end |
| JsText.Trim | src/lib/search.svelte.js:6 | the trimmed string is no longer than the input and neither starts nor ends with white space |
| JsText.FirstIndex | src/lib/sort.js:22 | the array position of the first equal element, or -1 exactly when there is none |
| JsText.DecimalString | src/lib/sort.js:46-47 | `String(n)` starts with '-' exactly for negative n, and the rest is a numeral without leading zeros whose value is the magnitude of n |
| JsText.NatStringOfValue | src/lib/color-tags.svelte.js:20 | writing the value of a numeral without leading zeros gives that numeral back |
| JsText.DecimalStringInjective | src/lib/color-tags.svelte.js:20 | distinct integers give distinct decimal strings |
| Search.AsciiLower | src/lib/search.svelte.js:70 | `toLowerCase` on ASCII maps A-Z to a-z and fixes every other character |
| Search.Simplify | src/lib/search.svelte.js:48-71 | simplifyString is the per-character fold applied to every character of the NFC-composed string |
| Search.Transliteration | src/lib/search.svelte.js:52-68 | every value of the table is one or two ASCII letters, and the only ASCII letter or digit that is a key is 'I' |
| Search.FoldAsciiAlnum | src/lib/search.svelte.js:70 | an ASCII letter or digit passes through the regex untouched and is only lower-cased |
| Search.FoldTableKey | src/lib/search.svelte.js:52-70 | another character that is a key of the table becomes its value, lower-cased |
| Search.FoldKept | src/lib/search.svelte.js:70 | a character outside `[A-Za-z0-9]` and outside the table is kept, then lower-cased |
| Search.TableQuirks | src/lib/search.svelte.js:59-62 | the duplicated key 'Ą' maps to "E" (the later entry), and the ASCII key 'I' leaves 'I' as plain lower-casing would |
| Search.SimplifyNoAsciiUpper | src/lib/search.svelte.js:70 | a simplified string contains no ASCII capital letter |
| Search.Take | src/lib/search.svelte.js:45 | `slice(0, n)` yields the first n elements, or the whole sequence when it is no longer than n |
| Search.SearchTracks | src/lib/search.svelte.js:4-46 | the ids returned are those of `Results` on the trimmed, simplified query |
| Search.CollectMatches | src/lib/search.svelte.js:10-43 | the loop's two lists are the ids of the word-boundary matches and of the mid-word matches, each in iteration order |
| Search.FieldRelevant | src/lib/search.svelte.js:24-36 | a field counts as relevant only when the query occurs in it, at its first occurrence |
| Search.IsRelevant | src/lib/search.svelte.js:22-36 | a relevant track is always a matching track, so the skip at line 22 never drops one |
| Search.BucketMembers | src/lib/search.svelte.js:22-42 | an entry is in a bucket if and only if it is an entry of the map, it matches, and its relevance is that bucket's |
| Search.BucketAppend | src/lib/search.svelte.js:14-43 | buckets follow iteration order: bucketing a concatenation concatenates the buckets |
| Search.ResultsAtMost | src/lib/search.svelte.js:8-45 | at most 100 results, and none for a query shorter than 2 |
| Search.ResultsSoundAndOrdered | src/lib/search.svelte.js:14-45 | every result is a matching entry of the map, and no less relevant result precedes a relevant one |
| Search.ResultsComplete | src/lib/search.svelte.js:14-45 | when at most 100 tracks match, every matching track is returned |
| Search.ResultsDistinct | src/lib/search.svelte.js:14-45 | no id is returned twice |
| Search.RelevantAtFirstOccurrence | src/lib/search.svelte.js:19-36 | a field is relevant exactly when, at the query's first occurrence, the match starts the field, follows a space, or is followed by a space or a comma |
| Search.WordStartRanksFirst | src/lib/search.svelte.js:24-45 | for the query "ab", the track by "Above & Beyond" (a word-start match) is returned before the earlier track "Crabtree" (a mid-word match) |
| StableSort.InsertionSort | src/lib/sort.js:37 | sorting the array in place leaves `Sort(cmp, old contents)` in it |
| StableSort.InsertInPlace | src/lib/sort.js:37 | one insertion step inserts element i into the sorted prefix and leaves the rest of the array alone |
| StableSort.SortPermutes | src/lib/sort.js:37 | the sorted sequence is a permutation of the input |
| StableSort.SortSorted | src/lib/sort.js:37 | for a consistent comparator, no pair of the result is out of order |
| StableSort.SortStable | src/lib/sort.js:37 | elements that compare equal keep their input order |
| StableSort.SortOfSorted | src/lib/sort.js:37 | an input already in order is returned unchanged |
| StableSort.SortOfDecreasing | src/lib/sort.js:37 | an input whose every pair is strictly out of order is reversed |
| Sort.NextSortDirection | src/lib/sort.js:13-16 | the next direction is -1 exactly when the current one is 1, and 1 otherwise |
| Sort.NextSortDirectionInvolution | src/lib/sort.js:13-16 | on 1 and -1 the toggle negates, so toggling twice restores the direction |
| Sort.TagRank | src/lib/sort.js:2-25 | the rank lies in 1..7; it is below 7 exactly for a colour of the cycle, and then it is that colour's position |
| Sort.TagRankOfCycle | src/lib/sort.js:2-25 | every colour of the cycle ranks at its own position, 1 to 6 |
| Sort.Indexed | src/lib/sort.js:35 | each track is paired with its input position |
| Sort.TracksOf | src/lib/sort.js:77 | dropping the positions keeps the tracks in order |
| Sort.GetSortedTracks | src/lib/sort.js:31-78 | the result is `SortedTracks`: the input itself when no sort is active, otherwise the stable sort of the indexed tracks by the column comparator |
| Sort.Compare | src/lib/sort.js:37-75 | for 'num', 'bpm' and 'time' the comparison has the sign of the direction times the difference of the keys, missing values counting as 0; for the text columns, the sign of the direction times `localeCompare` of the fields, missing ones counting as ""; 'tag' uses the tag order; any other column ties |
| Sort.TagOrder | src/lib/sort.js:48-54 | two untagged tracks tie, an untagged track comes after a tagged one whatever the direction, and two tagged tracks compare with the sign of the direction times the rank difference |
| Sort.CompareAntisymmetric | src/lib/sort.js:37-75 | a track compares before another exactly when the other compares after it |
| Sort.CompareTransitive | src/lib/sort.js:37-75 | the comparison is transitive in every column, given a consistent `localeCompare` |
| Sort.CompareIsComparator | src/lib/sort.js:37-75 | the comparator is a consistent total preorder, so the sort's result is well defined |
| Sort.SortedTracksPermutes | src/lib/sort.js:35-77 | the sorted list is a permutation of the input tracks |
| Sort.SortedRankedIndices | src/lib/sort.js:35-77 | every sorted pair carries the input position of its own track, and no position appears twice |
| Sort.NumAscendingKeepsOrder | src/lib/sort.js:41-42 | an ascending sort by 'num' returns the input order |
| Sort.NumDescendingReverses | src/lib/sort.js:41-42 | a descending sort by 'num' returns the input reversed |
| Sort.UnknownColumnKeepsOrder | src/lib/sort.js:72-73 | an unknown column compares every pair equal, so the input order is kept |
| Sort.SortedTracksInOrder | src/lib/sort.js:37-75 | every pair of the sorted output is in comparator order |
| Sort.TagOrderMeaning | src/lib/sort.js:48-54 | the tag comparison puts an untagged track after a tagged one, and orders tagged ones by direction times rank |
| Sort.TagSortUntaggedLast | src/lib/sort.js:44-55 | in both directions untagged tracks come after all tagged ones, and tagged tracks are ordered by direction times rank |
| Sort.BpmSortOrdered | src/lib/sort.js:57-58 | the output is ordered by direction times bpm, a missing bpm counting as 0 |
| Sort.TitleSortOrdered | src/lib/sort.js:60-61 | the output is ordered by direction times `localeCompare` of the names, a missing name counting as "" |
| Sort.TimeSortOrdered | src/lib/sort.js:63-64 | the output is ordered by direction times duration, a missing duration counting as 0 |
| Sort.SortStableTies | src/lib/sort.js:37-75 | tracks the comparator ties keep their input order |
| ColorTags.Updated | src/lib/color-tags.svelte.js:24-30 | null deletes the key, a colour assigns it, and every other key is unchanged |
| ColorTags.ColorTagStore.constructor | src/lib/color-tags.svelte.js:16 | the store starts with the loaded tags |
| ColorTags.ColorTagStore.Get | src/lib/color-tags.svelte.js:19-21 | the colour is present exactly when `String(trackId)` is a key, and then it is the stored value |
| ColorTags.ColorTagStore.Set | src/lib/color-tags.svelte.js:23-32 | the tags become the updated copy: `get` of this id returns the new colour, and every other key reads as before |
| ColorTags.SetIdempotent | src/lib/color-tags.svelte.js:23-30 | repeating a set changes nothing |
| ColorTags.SetsCommute | src/lib/color-tags.svelte.js:24-30 | sets of two different keys can be done in either order |
| ColorTags.NumberAndStringShareEntry | src/lib/color-tags.svelte.js:20-28 | the key of a numeric id is its decimal numeral, and the number a stored numeral key denotes addresses that key (12 and "12") |
| ColorTags.DistinctNumbersDistinctEntries | src/lib/color-tags.svelte.js:20 | distinct numeric ids never share an entry |
| TreeState.Toggled | src/lib/tree-state.svelte.js:23-29 | the toggled id flips membership and every other id keeps its membership |
| TreeState.ToggleTwice | src/lib/tree-state.svelte.js:23-29 | toggling the same id twice restores the set |
| TreeState.FolderState.constructor | src/lib/tree-state.svelte.js:16 | the state starts with the loaded set |
| TreeState.FolderState.IsOpen | src/lib/tree-state.svelte.js:19-21 | a folder is open exactly when its id is in the open set |
| TreeState.FolderState.Toggle | src/lib/tree-state.svelte.js:23-31 | `isOpen` of the id flips, and `isOpen` of every other id is unchanged |
| TreeState.FolderState.Reset | src/lib/tree-state.svelte.js:33-36 | afterwards no folder is open |
| TreeState.LoadOpenFolders | src/lib/tree-state.svelte.js:3-10 | nothing stored, or an empty string, gives the empty set; a stored array gives exactly its members; a parse error, null or a non-iterable value gives the empty set |
| TreeState.LoadFromString | src/lib/tree-state.svelte.js:6 | a stored JSON string opens one single-character id per character of the string |
| TreeState.LoadAfterSave | src/lib/tree-state.svelte.js:6-14 | given that `JSON.parse` returns the array `saveToStorage` serialised (this is assumed, not proved), loading it restores the set |

## Left out

- `generateId` (tree-management.svelte.js:3-5) reads the clock and a random source. The id it would produce is the parameter `newId` of `AddTreeItem`.
- TreeManagement.AddTreeItem: the new index is stated as "old index plus one entry" only for a fresh `newId`. For an id that already occurs, the model states only that the new index is the index of the new hierarchy.
- `createTreeItem` (tree-management.svelte.js:54 onwards) stores the result in the global library and writes `library.json` through Electron. That is I/O, and the global store is not part of this model.
- The `console.time` and `console.timeEnd` calls are logging only.
- `structuredClone` is captured by the model's value semantics: the caller's hierarchy is never changed.
- `addTreeItem` appends the item after the parent's existing children and does not re-sort them (tree-management.svelte.js:42); the model does the same.
- When the parent's index entry leads to a playlist, the walk ends on a node without a `children` array and the push at tree-management.svelte.js:42 throws a TypeError; the model returns `Thrown`.
- Object keys that collide with `Object.prototype` members (such as `__proto__` or `toString`) are not modelled. In `index`, `tags` and the tracks map they would not behave as plain dictionary keys.
- `localStorage` reads and writes are not modelled. `saveToStorage` and `save` are not modelled. The colour-tag `load` (color-tags.svelte.js:3-10) is represented only by the map given to the store's constructor. The tree-state load is modelled from the stored text onwards.
- `String.prototype.normalize('NFC')` and lower-casing outside ASCII are parameters. Context-dependent lower-casing, such as the final sigma, is therefore not modelled.
- Strings are sequences of Unicode scalar values, not UTF-16 code units. The length test at search.svelte.js:8, the string indices of `indexOf` and the regex, which without the `u` flag sees surrogate halves, count code units in JavaScript.
- `Object.entries(tracksMap)` order is taken as the given entry sequence. JavaScript lists integer-like keys first in ascending order; the model does not derive that.
- `localeCompare` is the parameter `collate`. The ordering lemmas for text columns require it to be a consistent comparator.
- The engine's own algorithm for `Array.prototype.sort` is not modelled, only its stability. For a consistent comparator every stable sort gives the same result as the insertion sort. For an inconsistent one, JavaScript leaves the order implementation-defined; the model gives the insertion sort's order.
- Numbers are mathematical integers: `bpm`, `totalTime`, `trackId` and the sort direction. Fractions, `NaN`, and `String` of non-integers are not modelled.
- Sort.TitleSortOrdered: the artist and comments columns have no lemma of their own. Their order is covered by Sort.SortedTracksInOrder for every column.
- `colorTags.set` with `undefined` as the colour, and stored tag values that are not strings, are not modelled.
- TreeState.LoadOpenFolders: a stored JSON array whose elements are not strings is modelled only for arrays of strings.
- The other files of the repository, including Electron main and preload, the UI state, hot keys, drag state, the context menu and the design system, are not part of this model.
