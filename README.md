# Seam carving, trie dictionary and skyline — a verified model

The repository holds three independent console programs. This project models
the algorithmic core of each and proves what that core promises.

- **Seam carving** (`2025201004_A1_Q1.cpp`) shrinks an image to a target width
  and height. Each step computes a dual-gradient energy map with wrap-around
  neighbours. A dynamic program then finds the cheapest 8-connected vertical
  seam, with ties going straight up, then left, then right, and the leftmost
  minimum at the bottom. The seam is recovered by backtracking parents and then
  removed. Horizontal seams are removed by transposing, removing one vertical
  seam, and transposing back, once per seam. The output file name is the input
  path with `_resized` inserted before the extension.
  Modules: `Grid`, `Energy`, `SeamFinder`, `SeamRemoval`, `Carver`, `Resize`,
  `OutputPath`.
- **Trie dictionary** (`2025201004_A1_Q2.cpp`) is an arena trie. It is a vector
  of nodes, each with 26 child indices (-1 for none) and an end-of-word flag.
  It supports insertion, exact spell check, and autocomplete by depth-first
  search below a prefix. It also supports autocorrect: a depth-first search
  that carries a Levenshtein row from node to node, keeps the words within
  distance 3, and prunes a subtree once the row's minimum exceeds 3.
  Modules: `Strings`, `Levenshtein`, `TrieNodes` (what a node vector means),
  `Dictionary` (the `Trie` class and its operations).
- **Skyline** (`2025201004_A1_Q3.cpp`) answers a list of queries. A building
  query assigns a height over the half-open interval `[L, R)`, and a later
  building overwrites an earlier one. A print query outputs the silhouette's
  change points. Coordinates are sorted by a hand-written quicksort, made
  unique in place, and looked up by binary search. Heights live in a segment
  tree with lazy range assignment, which is read out leaf by leaf before each
  print. Modules: `Sorting`, `Compression`, `SegmentTree` (the `LazyTree`
  class), `Skyline`.

The imperative parts stay imperative. The DP tables and the seam search fill
`array2`s in loops. Quicksort, partition, duplicate removal and binary search
work in place on an `array<int>`. The segment tree is a class over two arrays.
The trie is a class whose node vector grows on insertion. The two searches
recurse while a shared `Search` object's path is pushed and popped and its
results are appended to. Each method is proved against a specification
function, and the promised properties are proved about those functions:

- the seam is optimal among all connected vertical paths;
- the skyline output reads back the geometrically defined heights;
- autocomplete and autocorrect return exactly the stored words with the
  prefix, or within distance 3, strictly sorted.

## Model

| member | source | states |
|---|---|---|
| `Grid.Transpose` | 2025201004_A1_Q1.cpp:190 | The transpose of an H×W grid is W×H and holds `g[r][c]` at `[c][r]`. |
| `Grid.TransposeTwice` | 2025201004_A1_Q1.cpp:190-196 | Transposing twice gives back the original grid, so transposing in and out around a removal changes nothing else. |
| `Energy.NeighboursWrap` | 2025201004_A1_Q1.cpp:43-46 | The up/left neighbour of index 0 is n-1 and the down/right neighbour of n-1 is 0; in general they are `(i+n-1) mod n` and `(i+1) mod n`, always in range. |
| `Energy.GradientZeroIff` | 2025201004_A1_Q1.cpp:48-55 | `dx + dy` is 0 exactly when the left and right neighbours are equal and the up and down neighbours are equal. |
| `Energy.SquaredDistanceZeroIff` | 2025201004_A1_Q1.cpp:53-54 | A sum of squared channel differences is 0 exactly when the two pixels are equal. |
| `Energy.EnergyMap` | 2025201004_A1_Q1.cpp:35-60 | The energy map has the image's H×W shape, and cell (r, c) is the root of the wrapped dual gradient at (r, c). |
| `Energy.EnergyNonNegative` | 2025201004_A1_Q1.cpp:53-56 | Every energy is at least 0 for a root that maps naturals to non-negative reals. |
| `Energy.UniformImageHasZeroEnergy` | 2025201004_A1_Q1.cpp:48-56 | An image whose pixels all have one colour has energy root(0) everywhere, which is 0 for a root with root(0) = 0. |
| `Energy.CalculateEnergy` | 2025201004_A1_Q1.cpp:35-60 | The loop-filled energy grid equals `EnergyMap`. |
| `SeamFinder.BestParent` | 2025201004_A1_Q1.cpp:87-99 | The chosen parent column is in range and adjacent to c. |
| `SeamFinder.BestParentIsFirstMinimum` | 2025201004_A1_Q1.cpp:87-99 | The chosen parent is a minimum among the in-range columns c-1, c, c+1. Every candidate earlier in the straight, left, right order is strictly larger. |
| `SeamFinder.NextRow` | 2025201004_A1_Q1.cpp:85-103 | Each DP cell is the cell's energy plus the previous row's value at the best parent. |
| `SeamFinder.DPRows` | 2025201004_A1_Q1.cpp:76-104 | The table's first row is the first energy row, and each later row is `NextRow` of the one before. |
| `SeamFinder.DPTable` | 2025201004_A1_Q1.cpp:76-104 | The full table satisfies the DP recurrence. |
| `SeamFinder.Trace` | 2025201004_A1_Q1.cpp:119-128 | Backtracking from row r, column c gives r+1 columns ending at c. |
| `SeamFinder.TraceIsPath` | 2025201004_A1_Q1.cpp:119-128 | The backtraced columns are in range, and neighbouring rows differ by at most one. |
| `SeamFinder.TraceFollowsParents` | 2025201004_A1_Q1.cpp:119-128 | Each backtraced column is the best parent of the one below it. |
| `SeamFinder.FirstMin` | 2025201004_A1_Q1.cpp:107-116 | The returned column holds a minimum of the bottom row, and every earlier column is strictly larger: the leftmost minimum. |
| `SeamFinder.Seam` | 2025201004_A1_Q1.cpp:63-128 | The seam is a connected vertical path with one column per row, ending at the leftmost bottom minimum. |
| `SeamFinder.TraceCost` | 2025201004_A1_Q1.cpp:101-128 | The energy summed along a backtraced path equals the DP value it starts from. |
| `SeamFinder.DPIsMinimal` | 2025201004_A1_Q1.cpp:83-104 | No connected path ending at a cell costs less than that cell's DP value. |
| `SeamFinder.SeamIsOptimal` | 2025201004_A1_Q1.cpp:63-128 | The seam's energy equals the bottom DP minimum and is at most the energy of every connected vertical path. |
| `SeamFinder.FillTables` | 2025201004_A1_Q1.cpp:66-104 | The filled `dp` array equals the DP table. Parents are -1 in row 0 and the best parent below it. |
| `SeamFinder.FillRow` | 2025201004_A1_Q1.cpp:85-103 | Row r of `dp` and `parent` is filled from row r-1, and no other row changes. |
| `SeamFinder.LeftmostMinimum` | 2025201004_A1_Q1.cpp:107-116 | The scan returns the leftmost minimum column of the bottom row. |
| `SeamFinder.Backtrace` | 2025201004_A1_Q1.cpp:119-128 | The parent-following loop writes exactly the backtraced path. |
| `SeamFinder.FindVerticalSeam` | 2025201004_A1_Q1.cpp:63-139 | The returned seam is `Seam(e)`: a connected vertical path of least total energy. |
| `SeamRemoval.RowWithout` | 2025201004_A1_Q1.cpp:149-157 | A row without column k is one shorter, keeps the cells before k, and shifts the cells after k left by one. |
| `SeamRemoval.Removed` | 2025201004_A1_Q1.cpp:142-160 | Every row loses its own seam column. |
| `SeamRemoval.RemovedLosesOnlySeam` | 2025201004_A1_Q1.cpp:147-158 | Putting the seam pixel back restores the row, and the row's multiset loses exactly that pixel. |
| `SeamRemoval.RemovedShape` | 2025201004_A1_Q1.cpp:144-145 | Removing a seam from an H×W image gives H×(W-1). |
| `SeamRemoval.RemoveVerticalSeam` | 2025201004_A1_Q1.cpp:142-160 | The loop-built image equals `Removed`. |
| `Carver.VerticalStep` | 2025201004_A1_Q1.cpp:170-173 | One energy, seam and removal round gives the same height and one column fewer. |
| `Carver.RunExtends` | 2025201004_A1_Q1.cpp:168-177 | A chain of vertical steps extends by one more step. |
| `Carver.VerticalRunExists` | 2025201004_A1_Q1.cpp:168-177 | A chain of any length up to the width exists. |
| `Carver.VerticalCarve` | 2025201004_A1_Q1.cpp:163-180 | k vertical removals give an image of the same height and k fewer columns. |
| `Carver.VerticalCarveIsRunEnd` | 2025201004_A1_Q1.cpp:168-177 | k removals give the last image of any chain of k steps. |
| `Carver.VerticalCarveNone` | 2025201004_A1_Q1.cpp:166-168 | No removal leaves the image unchanged. |
| `Carver.VerticalCarveStep` | 2025201004_A1_Q1.cpp:168-177 | k+1 removals are one more step after k. |
| `Carver.HorizontalStep` | 2025201004_A1_Q1.cpp:190-196 | Transpose, one vertical removal, and transpose back give one row fewer and the same width. |
| `Carver.HorizontalCarve` | 2025201004_A1_Q1.cpp:183-202 | k horizontal removals give k rows fewer and the same width. |
| `Carver.HorizontalCarveNone` | 2025201004_A1_Q1.cpp:186-188 | No removal leaves the image unchanged. |
| `Carver.HorizontalCarveStep` | 2025201004_A1_Q1.cpp:188-199 | k+1 removals are one more transpose, remove, transpose round after k. |
| `Carver.CarveOnce` | 2025201004_A1_Q1.cpp:170-174 | One loop round computes `VerticalStep`. |
| `Carver.CarveVertical` | 2025201004_A1_Q1.cpp:163-180 | The loop runs `cols - targetW` times, or not at all when that is not positive. The result has the same height and width `targetW` (the original width when the target is not smaller). |
| `Carver.CarveHorizontal` | 2025201004_A1_Q1.cpp:183-202 | The loop runs `rows - targetH` times. The result has height `targetH` (capped at the original) and the original width. |
| `Resize.Resized` | 2025201004_A1_Q1.cpp:228-229 | Carving to a valid target gives exactly targetH×targetW. |
| `Resize.Run` | 2025201004_A1_Q1.cpp:211-229 | It fails exactly when the image is empty or the target is outside 1..cols × 1..rows. Otherwise it returns the carved image, of the target size, and the derived output path. |
| `Resize.ResizedToOwnSize` | 2025201004_A1_Q1.cpp:166-168 | Resizing to the original size leaves the image unchanged. |
| `OutputPath.LastIndexOf` | 2025201004_A1_Q1.cpp:240 | The index of the last occurrence of a character, or -1 exactly when the character is absent. |
| `OutputPath.SplitFolderSound` | 2025201004_A1_Q1.cpp:248-259 | The folder and file name join back to the path. The folder is empty or ends at a '/', and the file name holds no '/'. |
| `OutputPath.SplitFolderUnique` | 2025201004_A1_Q1.cpp:248-259 | Any split with those properties is the one computed. |
| `OutputPath.SplitFolderCharacterized` | 2025201004_A1_Q1.cpp:240-259 | The computed split is `(folder, filename)` if and only if that pair has those properties. |
| `OutputPath.SplitExtensionSound` | 2025201004_A1_Q1.cpp:262-274 | Name and extension join back to the file name. The extension is empty or starts at the last '.', and an empty extension means the name has no '.'. |
| `OutputPath.SplitExtensionUnique` | 2025201004_A1_Q1.cpp:262-274 | Any split with those properties is the one computed. |
| `OutputPath.SplitExtensionCharacterized` | 2025201004_A1_Q1.cpp:262-274 | The computed split is `(name, ext)` if and only if that pair has those properties. |
| `OutputPath.ResizedPathInsertsSuffix` | 2025201004_A1_Q1.cpp:277-278 | The output path is the input path with `_resized` inserted right after folder and name. Everything before and after the insertion is unchanged. |
| `OutputPath.ResizedPathParts` | 2025201004_A1_Q1.cpp:277-278 | The output path is folder + name + `_resized` + extension. |
| `OutputPath.SuffixRemoved` | 2025201004_A1_Q1.cpp:277-278 | Cutting `_resized` out of the output path gives the input path back. |
| `OutputPath.ResizedPathKeepsFolderAndExtension` | 2025201004_A1_Q1.cpp:240-278 | Splitting the output path again gives the same folder and extension, with `_resized` added to the name. |
| `OutputPath.SuffixKeepsSplits` | 2025201004_A1_Q1.cpp:240-278 | Inserting `_resized` before a valid extension keeps both splits. |
| `Strings.Letter` | 2025201004_A1_Q2.cpp:77 | The letter `'a' + c` is lower case and has index c. |
| `Strings.LessIrreflexive` | 2025201004_A1_Q2.cpp:73-81 | No word comes before itself in lexicographic order. |
| `Strings.LessPrefix` | 2025201004_A1_Q2.cpp:77-78 | A common prefix does not change the lexicographic order. |
| `Strings.SortedDistinct` | 2025201004_A1_Q2.cpp:86-101 | A strictly sorted result holds each word once. |
| `Strings.SortedConcat` | 2025201004_A1_Q2.cpp:73-81 | Two sorted lists, every word of the first before every word of the second, join into a sorted list. |
| `Strings.Prefixed` | 2025201004_A1_Q2.cpp:77-79 | Prefixing keeps the length and puts p in front of each word. |
| `Strings.PrefixedMembers` | 2025201004_A1_Q2.cpp:77-79 | A word is among the prefixed words exactly when it starts with p and its rest is one of the words. |
| `Strings.PrefixedSorted` | 2025201004_A1_Q2.cpp:77-79 | Prefixing keeps a list strictly sorted. |
| `Strings.PrefixedTwice` | 2025201004_A1_Q2.cpp:151-153 | Pushing q and then p onto the path prefixes with p + q. |
| `TrieNodes.EmptyNode` | 2025201004_A1_Q2.cpp:11-18 | A new node has 26 absent children and no end flag. |
| `TrieNodes.Walk` | 2025201004_A1_Q2.cpp:46-54 | Following a word from a node ends at -1 or at a node no earlier than the start. |
| `TrieNodes.WalkAppend` | 2025201004_A1_Q2.cpp:88-97 | Walking `t + u` is walking `t` and then `u`. |
| `TrieNodes.WalkBroken` | 2025201004_A1_Q2.cpp:49-52 | Once a prefix of the word has no walk, the word has none. |
| `TrieNodes.GroupMembers` | 2025201004_A1_Q2.cpp:73-81 | Child c's group holds exactly the words made of letter c and a word below that child. |
| `TrieNodes.GroupsMembers` | 2025201004_A1_Q2.cpp:73-81 | The first i groups hold exactly the words whose first letter is below i and that lie in that letter's group. |
| `TrieNodes.EnumMembers` | 2025201004_A1_Q2.cpp:67-82 | The depth-first enumeration below a node holds exactly the words whose walk from it ends on a flagged node. |
| `TrieNodes.Below` | 2025201004_A1_Q2.cpp:86-101 | The stored words with prefix p are p followed by the enumeration below p's node. No stored word has prefix p when p's walk breaks. |
| `TrieNodes.GroupsSorted` | 2025201004_A1_Q2.cpp:73-81 | Visiting children from 'a' to 'z' produces strictly sorted groups. |
| `TrieNodes.EnumSorted` | 2025201004_A1_Q2.cpp:67-82 | The depth-first enumeration is in strict lexicographic order. |
| `TrieNodes.GrowTrans` | 2025201004_A1_Q2.cpp:31-37 | Growth that keeps edges and flags composes. |
| `TrieNodes.WalkKept` | 2025201004_A1_Q2.cpp:31-37 | A walk that exists before growth is the same walk after it. |
| `TrieNodes.WalkBack` | 2025201004_A1_Q2.cpp:31-37 | A walk after growth that ends on an old node is the same walk before it. |
| `TrieNodes.GrowthKeepsWords` | 2025201004_A1_Q2.cpp:31-37 | Appending nodes and setting absent edges, with flags kept, stores the same words. |
| `TrieNodes.AttachGrows` | 2025201004_A1_Q2.cpp:31-35 | Attaching a new child at the end keeps the trie well formed and is such growth; the edge points to the new node. |
| `TrieNodes.WalkLabel` | 2025201004_A1_Q2.cpp:27-37 | The walk of a word ends on the node labelled with that word, so no two words share a node. |
| `TrieNodes.AttachLabelled` | 2025201004_A1_Q2.cpp:31-35 | The new node's label is its parent's label followed by the edge's letter. |
| `TrieNodes.AttachAlong` | 2025201004_A1_Q2.cpp:31-36 | One insertion step is growth, labels the new node with the next prefix, and keeps the walk so far. |
| `TrieNodes.MarkAdds` | 2025201004_A1_Q2.cpp:38 | Flagging the end node of s adds s to the stored words and nothing else. |
| `TrieNodes.SameEdgesSameWalk` | 2025201004_A1_Q2.cpp:38 | Changing only flags changes no walk. |
| `TrieNodes.EmptyStoresNothing` | 2025201004_A1_Q2.cpp:21 | The one-root trie reaches only the root and stores no word. |
| `Dictionary.Search.constructor` | 2025201004_A1_Q2.cpp:98-99 | A search starts with the given path and no results. |
| `Dictionary.Trie.constructor` | 2025201004_A1_Q2.cpp:21 | The trie starts as one empty root and stores no word. |
| `Dictionary.Trie.Insert` | 2025201004_A1_Q2.cpp:25-39 | The stored words become the old ones plus s. Nodes are only appended and only absent edges are set. Every flag except that of the node s walks to is unchanged, and the appended nodes are unflagged. Inserting a stored word changes nothing. |
| `Dictionary.Trie.Extend` | 2025201004_A1_Q2.cpp:27-37 | The walk loop ends on the node that s walks to and stores the same words. An existing path leaves the vector unchanged. |
| `Dictionary.Trie.AddChild` | 2025201004_A1_Q2.cpp:31-35 | The vector becomes `Attach` of the old one. Words, the walk so far and well-formedness are kept. |
| `Dictionary.Trie.SpellCheck` | 2025201004_A1_Q2.cpp:43-63 | Returns 1 exactly when t is a stored word, and 0 otherwise: when the path breaks or ends on an unflagged node. |
| `Dictionary.Trie.Dfs` | 2025201004_A1_Q2.cpp:67-82 | Appends the path followed by each word below the node, in enumeration order, and returns with the path restored. |
| `Dictionary.Trie.DfsChildren` | 2025201004_A1_Q2.cpp:73-81 | Appends the path followed by each word of the 26 child groups, and restores the path. |
| `Dictionary.Trie.Autocomplete` | 2025201004_A1_Q2.cpp:86-102 | Returns exactly the stored words with the prefix, strictly sorted. |
| `Levenshtein.LevSelf` | 2025201004_A1_Q2.cpp:117-123 | A word is at distance 0 from itself. |
| `Levenshtein.LevLengthGap` | 2025201004_A1_Q2.cpp:117-123 | The distance is at least the difference of the lengths. |
| `Levenshtein.InitialRow` | 2025201004_A1_Q2.cpp:165-169 | `initRow[j] = j` is the row of distances from the empty path. |
| `Levenshtein.RowStart` | 2025201004_A1_Q2.cpp:115 | The first cell of the child's row is the parent's first cell plus one. |
| `Levenshtein.RowStep` | 2025201004_A1_Q2.cpp:117-123 | The distance from path + c to `word[..j]` is the least of insert, delete and replace over the neighbouring distances. |
| `Levenshtein.CellStep` | 2025201004_A1_Q2.cpp:119-122 | The cell computed from its left neighbour and the parent row is the edit distance to that prefix. |
| `Levenshtein.MinOf` | 2025201004_A1_Q2.cpp:132-139 | The minimum is an element and at most every element. |
| `Levenshtein.RowFloor` | 2025201004_A1_Q2.cpp:132-140 | Every prefix of the word is at least the row's minimum away from the path. |
| `Levenshtein.FloorStep` | 2025201004_A1_Q2.cpp:115-123 | Adding a path letter never brings a prefix closer than the parent row's floor. |
| `Levenshtein.FloorExtends` | 2025201004_A1_Q2.cpp:140-155 | No extension of the path comes closer than the floor. |
| `Levenshtein.Within` | 2025201004_A1_Q2.cpp:126-129 | Keeps exactly the words within distance 3 of the word, in order. |
| `Levenshtein.WithinSingle` | 2025201004_A1_Q2.cpp:126-129 | A single word is kept exactly when its distance is at most 3. |
| `Levenshtein.WithinConcat` | 2025201004_A1_Q2.cpp:146-155 | Filtering distributes over concatenation. |
| `Levenshtein.WithinSorted` | 2025201004_A1_Q2.cpp:160-187 | Filtering keeps a list strictly sorted. |
| `Levenshtein.Pruned` | 2025201004_A1_Q2.cpp:140-143 | When the row's minimum exceeds 3, no word extending the path is within distance 3, so pruning loses nothing. |
| `Dictionary.Trie.NextRow` | 2025201004_A1_Q2.cpp:112-123 | Given the parent path's row, the new row holds the distance from the path to each prefix of the word. |
| `Dictionary.Trie.RowMin` | 2025201004_A1_Q2.cpp:132-139 | The scan returns the row's minimum. |
| `Dictionary.Trie.DfsDP` | 2025201004_A1_Q2.cpp:107-156 | Appends exactly the words below the node, path in front, that are within distance 3, in enumeration order. Pruned or not, it returns with the path restored. |
| `Dictionary.Trie.DfsDPChildren` | 2025201004_A1_Q2.cpp:146-155 | Appends the within-distance words of the 26 child groups and restores the path. |
| `Dictionary.Trie.DfsDPChild` | 2025201004_A1_Q2.cpp:148-154 | Appends the within-distance words of one child's group; an absent child appends nothing. |
| `Dictionary.Trie.Autocorrect` | 2025201004_A1_Q2.cpp:160-187 | Returns exactly the non-empty stored words within distance 3 of the word, strictly sorted. |
| `Dictionary.Joined` | 2025201004_A1_Q2.cpp:73-81 | Appending one more child group extends the enumeration of the groups so far. |
| `Dictionary.WithinJoined` | 2025201004_A1_Q2.cpp:146-155 | The same holds for the within-distance words of the groups. |
| `Sorting.Swap` | 2025201004_A1_Q3.cpp:26-31 | Exchanges two cells, changes no other cell, and keeps the multiset. |
| `Sorting.Partition` | 2025201004_A1_Q3.cpp:34-49 | The old last element lands at p. Everything before p in the range is at most it and everything after is greater. The array is a permutation of its input and cells outside the range are unchanged. |
| `Sorting.JoinSorted` | 2025201004_A1_Q3.cpp:51-59 | Two sorted sides around a pivot that splits them form a sorted range. |
| `Sorting.QuickSort` | 2025201004_A1_Q3.cpp:51-59 | `a[low..high]` ends sorted and a permutation of the input, and cells outside the range are unchanged. |
| `Sorting.QuickSortJoin` | 2025201004_A1_Q3.cpp:54-57 | Partitioning and sorting both sides sorts the range and keeps the permutation and the frame. |
| `Compression.IndexOf` | 2025201004_A1_Q3.cpp:81-102 | The first index holding the value, or -1 exactly when the value is absent. |
| `Compression.IndexOfIncreasing` | 2025201004_A1_Q3.cpp:81-102 | In a strictly increasing list, the value at j has index j. |
| `Compression.IncreasingUnique` | 2025201004_A1_Q3.cpp:62-78 | Two strictly increasing lists with the same values are equal, so compression is determined by the set of coordinates. |
| `Compression.RemoveDuplicates` | 2025201004_A1_Q3.cpp:62-78 | The sorted prefix is compacted to a strictly increasing prefix with the same values. An empty prefix gives 0, and cells from n on are unchanged. |
| `Compression.FindIndex` | 2025201004_A1_Q3.cpp:81-102 | The binary search returns the index of the value in the increasing prefix, or -1 when it is absent. |
| `SegmentTree.GoodIsMax` | 2025201004_A1_Q3.cpp:150-151 | Under the tree invariant a node's value is the maximum of the effective values of its leaves. |
| `SegmentTree.PushKeepsLeaves` | 2025201004_A1_Q3.cpp:107-120 | Pushing a pending assignment down keeps every leaf's effective value and the tree invariant. |
| `SegmentTree.FourNSuffices` | 2025201004_A1_Q3.cpp:197-201 | Every node of a tree over n leaves has an index below 4n. |
| `SegmentTree.FreshContents` | 2025201004_A1_Q3.cpp:197-201 | Zero values with no pending assignment satisfy the invariant and make every leaf 0. |
| `SegmentTree.SubtreeFrame` | 2025201004_A1_Q3.cpp:123-152 | Changing only cells below a node leaves the effective leaves of disjoint subtrees unchanged. |
| `SegmentTree.LazyTree.constructor` | 2025201004_A1_Q3.cpp:197-201 | A fresh tree over n leaves is valid and all its leaves are 0. |
| `SegmentTree.LazyTree.Reset` | 2025201004_A1_Q3.cpp:197-201 | Zeroes the tree, clears every pending assignment, and leaves all leaves 0. |
| `SegmentTree.LazyTree.Clear` | 2025201004_A1_Q3.cpp:197-201 | Every value is 0 and every pending mark is -1. |
| `SegmentTree.LazyTree.PushDown` | 2025201004_A1_Q3.cpp:107-120 | Does nothing when there is no pending assignment. Otherwise it copies the assignment into both children's value and mark and clears the node's mark. |
| `SegmentTree.LazyTree.UpdateRange` | 2025201004_A1_Q3.cpp:123-152 | Every leaf in [l, r] ∩ [start, end] gets the height and every other leaf keeps its value. The invariant is kept and only the node's subtree changes. |
| `SegmentTree.LazyTree.BuildHeightArray` | 2025201004_A1_Q3.cpp:155-171 | `heights[i]` becomes the effective leaf value for each i in [start, end]. No other cell and no effective value changes. |
| `SegmentTree.LazyTree.Update` | 2025201004_A1_Q3.cpp:212 | The leaves become the old leaves with [l, r] assigned the height. |
| `SegmentTree.LazyTree.ReadHeights` | 2025201004_A1_Q3.cpp:219 | `heights[..n]` becomes the leaves, the rest of the array and the leaves are unchanged. |
| `Skyline.Coordinates` | 2025201004_A1_Q3.cpp:181-190 | At most two coordinates per query. |
| `Skyline.CoordinatesMembers` | 2025201004_A1_Q3.cpp:184-189 | The collected coordinates are exactly the two ends of every building. |
| `Skyline.UpdateCovers` | 2025201004_A1_Q3.cpp:206-213 | Assigning the height over `[idx(L), idx(R)-1]` gives the segment heights with the building added: it covers exactly the segments inside `[L, R)`. An empty range assigns nothing. |
| `Skyline.CoverAt` | 2025201004_A1_Q3.cpp:208-210 | A building covers segment j exactly when `idx(L) <= j <= idx(R)-1`. |
| `Skyline.PrintKeeps` | 2025201004_A1_Q3.cpp:215-236 | A print query changes no segment height. |
| `Skyline.NothingBuilt` | 2025201004_A1_Q3.cpp:197-201 | Before any building every segment has height 0. |
| `Skyline.BuildingPrintsNothing` | 2025201004_A1_Q3.cpp:206-214 | A building query adds no output line. |
| `Skyline.PrintOutputs` | 2025201004_A1_Q3.cpp:217-235 | A print query adds the current silhouette to the output. |
| `Skyline.HeightAfterPoints` | 2025201004_A1_Q3.cpp:222-230 | Past the first k segments, the silhouette reads the height in force after segment k-1. |
| `Skyline.HeightAtSegment` | 2025201004_A1_Q3.cpp:222-230 | At the start of each segment the change points read back that segment's height. |
| `Skyline.SilhouetteReadsBack` | 2025201004_A1_Q3.cpp:222-235 | The printed points reproduce every segment's height and drop to 0 at the last coordinate. |
| `Skyline.Emit` | 2025201004_A1_Q3.cpp:222-235 | The loop emits a point exactly where the height changes from the previous one (starting from 0), plus the final drop when the last height is not 0. |
| `Skyline.Collect` | 2025201004_A1_Q3.cpp:181-190 | The coordinate list holds both ends of every building, in query order. |
| `Skyline.Compress` | 2025201004_A1_Q3.cpp:193-194 | The compressed coordinates are strictly increasing with the same values as the collected list. |
| `Skyline.AddBuilding` | 2025201004_A1_Q3.cpp:206-214 | Keeps the segment tree's leaves equal to the segment heights with the building added. |
| `Skyline.PrintSilhouette` | 2025201004_A1_Q3.cpp:217-235 | Outputs the silhouette of the current segment heights and keeps them. |
| `Skyline.Process` | 2025201004_A1_Q3.cpp:204-237 | The lines output for the remaining queries are those the specification adds after the queries already done. |
| `Skyline.Run` | 2025201004_A1_Q3.cpp:180-237 | The coordinates are strictly increasing and exactly the building ends, and the output is `Output(qs, coords)`. With fewer than two coordinates it outputs nothing (see Findings). |
| `Skyline.NoSegmentsNoOutput` | 2025201004_A1_Q3.cpp:217-235 | Without a segment no query outputs anything. |
| `Skyline.TruncDiv2` | 2025201004_A1_Q3.cpp:163 | Halving truncates toward zero, as C++ integer division does. |
| `Skyline.NegativeSpansLoop` | 2025201004_A1_Q3.cpp:155-171 | From the spans [1,0], [1,-1], [0,-1] and [0,-2], the read-out reaches no leaf within any depth. |
| `Skyline.PrintWithoutSegmentsDiverges` | 2025201004_A1_Q3.cpp:219 | A print with fewer than two coordinates starts a read-out on [0, cc-2] that never ends. |
| `Skyline.ReadOutEndsOnSegments` | 2025201004_A1_Q3.cpp:155-171 | On a real range the read-out reaches its leaves within end - start levels. |

## Left out

- Console input and output of all three programs are not modelled. This covers the prompts, reading queries and words, the printed lines and the deferred output vector of the trie program's query loop (`2025201004_A1_Q2.cpp:191-243`). The query loop only dispatches to the operations modelled here. Queries are given as a list, and output lines as a list of pairs.
- Image loading and saving and the OpenCV `Mat` type are not modelled. An image is a `seq<seq<Pixel>>`, and the library transpose is the grid function `Grid.Transpose`. `imread` failing is modelled as an empty image.
- Floating point is not modelled. The square root of `dx + dy` is a parameter `root: nat -> real`, and the DP sums are exact `real` sums, not doubles. The integer part `dx + dy` is modelled exactly.
- The progress bar (`printProgress`) is only console output.
- The `_WIN32` backslash fallback in the path code is platform-specific and not modelled.
- The fixed-size C buffers of the path code (512, 256 and 64 bytes) are not modelled; strings are unbounded, so truncation of over-long paths is not covered.
- The fixed capacities of the skyline program (`MAX_Q`, `MAX_TREE_SIZE`, `MAX_COORDS`) are not modelled. The tree arrays have 4n cells and the heights array n cells.
- `int` and `long long` widths are not modelled; integers are unbounded, so overflow is not covered.
- `SegmentTree.LazyTree.Update`: requires heights >= 0, because -1 is the "no pending assignment" mark and a building of height -1 would be read as none.
- `Skyline.Run`: requires heights >= 0 for the same reason.
- `Dictionary.Trie.Insert`, `Dictionary.Trie.SpellCheck`, `Dictionary.Trie.Autocomplete`: require lower-case words, because `ch - 'a'` is used as an unchecked index.
- The trie program's `next[26]` array is a 26-element sequence.
- The shared `path` string and `results` vector of the two searches are fields of a `Search` object.
- The loop bodies of insertion and of both searches are helper methods (`AddChild`, `DfsChildren`, `DfsDPChildren`, `DfsDPChild`, `NextRow`, `RowMin`).
- Each DP row is a fresh array.
- Dafny's `/` is Euclidean. The only place C++ truncating division differs is the negative span of the read-out finding, where `Skyline.TruncDiv2` models it.

## Findings

| source | as written | input that shows it | evidently intended | confidence | as-written member | corrected member |
|---|---|---|---|---|---|---|
| 2025201004_A1_Q3.cpp:219 | A print query always calls `buildHeightArray(1, 0, coordCount-2, ...)`. With fewer than two distinct coordinates the span is empty ([0,-1] or [0,-2]). The recursion never reaches `start == end`: [0,-1] leads to [1,-1], then to [1,0], and [1,0] is its own left child. Node indices keep doubling. | q = 1 with the single query `1`; or q = 2 with `0 5 5 7` then `1` | a print with no segment outputs nothing | not executed | `Skyline.PrintWithoutSegmentsDiverges` | `Skyline.Run` (reads out only when there are at least two coordinates; `Skyline.ReadOutEndsOnSegments`, `Skyline.NoSegmentsNoOutput`) |
