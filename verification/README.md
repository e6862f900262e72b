# A verified model of the DAA course projects

This project models, in Dafny, the algorithmic core of a two-part data-structures-and-algorithms
course repository written in Python, and proves properties of that model.

**Project 1** holds three things:

- an (a,b)-tree (`ABTree`) with a sorted-map layer (`ABTreeMap`) and a (2,8)-tree of currencies keyed by ISO 4217 code (`Currency28Tree`);
- a `Currency` record with its set of denominations and its map of exchange rates;
- an open-addressing hash map with double hashing, and two change-making algorithms (`change_recurs` and `change`).

**Project 2** holds four things:

- the counting of the ways to give change (`all_change`);
- tour improvement on a weighted undirected graph: 2-opt and 3-opt moves, rotations, the HybridHAM Hamiltonian-cycle heuristic and a backtracking search;
- arbitrage detection with Bellman-Ford;
- the greedy and the sort-based (k, C1, C2)-cover searches over the positions of the currency tree.

Each Dafny module follows one source file or one group of its functions:

| module (file) | models |
|---|---|
| `ABTreeNodes` (abtree_nodes.dfy) | the node store of the (a,b)-tree: nodes as values, positions as paths of child indices, the inorder visit |
| `ABTreeNav` (abtree_nav.dfy) | `child`, the first and last position of a subtree, `after` and `before` |
| `ABTreeInsert` (abtree_insert.dfy) | `_add_element`, `_rebalance_insert` (split), `bisect.insort`, `_index` |
| `ABTreeDelete` (abtree_delete.dfy) | `_delete_element`, `_rebalance_delete`, `_transfer`, `_fusion` |
| `ABTreeSearch` (abtree_search.dfy) | `_list_search`, `_subtree_search`, the map view of the tree as a key-sorted sequence |
| `ABTreeMapLayer` (abtree_map.dfy) | the `ABTreeMap` object: constructor, `__len__`, `__getitem__`, `__setitem__`, `__delitem__`, `search`, `find_min`, `find_max`, `_add_root` |
| `Currencies` (currency.dfy) | `Currency`: code validation, denominations, exchange rates, `deepcopy` |
| `CurrencyTree` (currency_28tree.dfy) | `Currency28Tree` |
| `Primes`, `ProbeSlots`, `DoubleHashing` | `DoubleHashingHashMap`, with `prevprime`/`nextprime` as specification functions |
| `AllChange`, `CoinChange` | `all_change`, `change_recurs`, `change` |
| `Graphs`, `Sequences`, `TourMoves`, `TourSearch`, `HybridHamiltonian`, `ExcangeTour`, `DraftTour` | the tour code of project 2 |
| `ArbitrageDetector` | `arbitrage_opportunity` |
| `Wrappers`, `Exceptions` | the result and option types, and the Python exceptions the source raises |
| `CoverPositions`, `KCover`, `CoverRank`, `OptCover` | the (k, C1, C2)-cover searches |

Positions of the tree are paths from the root. Amounts are whole cents and graph weights are
integers; the rates a `Currency` stores are reals. Random choices are parameters.

## Model

| member | source | states |
|---|---|---|
| ABTreeNodes.ListInsert | project1/abtree/abtree.py:189 | `l.insert(i, x)`: one longer, `x` at `i`, the items before `i` unchanged and those after shifted by one |
| ABTreeNodes.ListPop | project1/abtree/abtree.py:200 | `l.pop(i)`: one shorter, the items before `i` unchanged and those after shifted down by one |
| ABTreeNodes.ReplaceAt | project1/abtree/abtree.py:294-296 | replacing the node at a position leaves the path valid, the new node at its end, and the ancestors' element lists and child counts unchanged |
| ABTreeNodes.InorderReplace | project1/abtree/abtree.py:125-137 | the inorder visit after replacing the subtree at `path` is the items before it, the new subtree's visit, and the items after it |
| ABTreeNodes.InorderAround | project1/abtree/abtree.py:125-137 | the inorder visit of a tree splits into the items before the subtree at `path`, that subtree's visit, and the items after it |
| ABTreeNodes.WovenAt | project1/abtree/abtree.py:130-137 | the visit of an internal node is the interleaving of its first `j` children and elements, child `j`'s visit, and the rest |
| ABTreeNodes.WovenConcat | project1/abtree/abtree.py:291-292 | joining two nodes around a separator joins their inorder visits around it |
| ABTreeNodes.GIndexAt | project1/abtree/abtree.py:125-137 | the global index of element `i` of the node at `path` names that element in the inorder visit of the whole tree |
| ABTreeNodes.TreeAlong | project1/abtree/abtree.py:71 | in a balanced tree every path meets only shaped nodes, reaches a leaf exactly at depth `h`, and leads to a balanced subtree one level lower per step |
| ABTreeNodes.TreeSearchable | project1/abtree/abtree.py:71 | a balanced tree whose nodes hold at least one element is searchable |
| ABTreeNodes.PathConcat | project1/abtree/abtree.py:112-117 | following `p` then `q` is following `p + q`, both for validity and for the node reached |
| ABTreeNodes.SortedConcat | project1/abtree/abtree.py:221 | a concatenation is key-sorted exactly when both parts are and every key of the first lies below every key of the second |
| ABTreeNav.Child | project1/abtree/abtree.py:112-117 | ValueError for a position that no longer leads to a node; IndexError exactly when `i` is outside the children; otherwise the position of child `i` |
| ABTreeNav.FirstPosition | project1/abtree/abtree.py:146-151 | `_subtree_first_position` ends at a leaf, at index 0 |
| ABTreeNav.LastPosition | project1/abtree/abtree.py:139-144 | `_subtree_last_position` ends at a leaf, at its last index |
| ABTreeNav.FirstPositionIsFirst | project1/abtree/abtree.py:146-151 | the first position holds the smallest item of the subtree, inorder index 0 |
| ABTreeNav.LastPositionIsLast | project1/abtree/abtree.py:139-144 | the last position holds the largest item of the subtree, the last inorder index |
| ABTreeNav.AfterGuardRejects | project1/abtree/abtree.py:158-159 | as written, `after` raises IndexError for every index of a node holding two or more elements |
| ABTreeNav.AfterGuardExample | project1/abtree/abtree.py:158-159 | on the leaf [1, 2], `after` as written raises IndexError at index 0, and the corrected `after` answers index 1 |
| ABTreeNav.LeafBoundaryExample | project1/abtree/abtree.py:160-161 | at a leaf boundary, `after` and `before` as written answer `(None, i±1)`, while the neighbour is the root element, which the corrected versions return |
| ABTreeNav.AfterAsWritten | project1/abtree/abtree.py:153-163 | `after` as written: ValueError exactly for a position not in the tree; IndexError for every index of a node with two or more elements; on a one-element leaf `(None, 1)` at index 0 |
| ABTreeNav.BeforeAsWritten | project1/abtree/abtree.py:165-175 | `before` as written: ValueError exactly for a position not in the tree, IndexError outside the node; at a leaf the index part is `i - 1` and the position part is None exactly at index 0, with no climb to an ancestor |
| ABTreeNav.PositionAfter | project1/abtree/abtree.py:153-163 | `after` as documented: ValueError exactly for a position not in the tree, IndexError outside the node; at a leaf not at its end, the next index of the same leaf |
| ABTreeNav.PositionBefore | project1/abtree/abtree.py:165-175 | `before` as documented: ValueError exactly for a position not in the tree, IndexError outside the node; at a leaf past index 0, the previous index of the same leaf |
| ABTreeNav.NextUpIsNext | project1/abtree/abtree.py:153-163 | climbing from a subtree finds the first item after it, and finds nothing exactly when no item follows it |
| ABTreeNav.PrevUpIsPrev | project1/abtree/abtree.py:165-175 | climbing from a subtree finds the last item before it, and finds nothing exactly when no item precedes it |
| ABTreeNav.NeighbourErrors | project1/abtree/abtree.py:158-171 | the corrected `after` and `before` raise IndexError exactly for an index outside the node |
| ABTreeNav.AfterInternal | project1/abtree/abtree.py:162-163 | at an internal node the successor of element `i` is the first position of child `i + 1`, one place further in the inorder visit |
| ABTreeNav.BeforeInternal | project1/abtree/abtree.py:174-175 | at an internal node the predecessor of element `i` is the last position of child `i`, one place earlier in the inorder visit |
| ABTreeNav.PositionAfterIsNext | project1/abtree/abtree.py:153-163 | `after` (corrected) returns the position of the next item in the inorder visit, and None exactly at the last item |
| ABTreeNav.PositionBeforeIsPrev | project1/abtree/abtree.py:165-175 | `before` returns the position of the previous item in the inorder visit, and None exactly at the first item |
| ABTreeInsert.BisectRightSplits | project1/abtree/abtree.py:221 | on a sorted list, `bisect_right` separates the keys up to `k` from the keys above it |
| ABTreeInsert.BisectLeftSplits | project1/abtree/abtree.py:333-339 | on a sorted list, `bisect_left` separates the keys below `k` from the keys from `k` on |
| ABTreeInsert.InsortPlaces | project1/abtree/abtree.py:221 | `insort` inserts `x` between the smaller and the larger keys, and the list stays sorted |
| ABTreeInsert.IndexFinds | project1/abtree/abtree.py:333-339 | `_index` finds a key exactly when it is present, and returns a position holding it |
| ABTreeInsert.SplitInorder | project1/abtree/abtree.py:209-215 | splitting around the median `len // 2` keeps the inorder visit (`left ++ [median] ++ right`), and both halves stay shaped like the node |
| ABTreeInsert.SplitFits | project1/abtree/abtree.py:206-215 | with `2 <= a <= (b + 1) // 2`, both halves of a node holding `b` elements hold between `a - 1` and `b - 1` elements |
| ABTreeInsert.MedianPlace | project1/abtree/abtree.py:220-223 | the median of full child `j` is insorted into the parent at index `j`, and `_index` finds it there, so the new node becomes child `j + 1` |
| ABTreeInsert.SplitChild | project1/abtree/abtree.py:209-223 | a split of a child adds one element to the parent and keeps it one child more than elements |
| ABTreeInsert.SplitChildInorder | project1/abtree/abtree.py:209-223 | a split of a child leaves the parent's inorder visit unchanged |
| ABTreeInsert.GrowRoot | project1/abtree/abtree.py:216-218 | a full root splits into a new root holding only the median, with two children |
| ABTreeInsert.GrowRootInorder | project1/abtree/abtree.py:216-218 | the new root keeps the inorder visit and makes a tree one level deeper with a root of one element |
| ABTreeInsert.AddAt | project1/abtree/abtree.py:188-224 | inserting `e` at index `i` of the leaf at `path` (with the splits below the node) puts it between the items before and after that leaf position |
| ABTreeInsert.AddAtFits | project1/abtree/abtree.py:204-224 | with the constructor bound, every node below stays within `a - 1` and `b - 1` elements; the node gains an element exactly when the rebalance reaches it, and then holds at most `b` |
| ABTreeInsert.SplitChildFits | project1/abtree/abtree.py:209-223 | the children stay balanced when one of them is split |
| ABTreeDelete.RotateRight | project1/abtree/abtree.py:265-272 | the clockwise transfer moves the last item of `left` up and the separator to the front of `right` |
| ABTreeDelete.RotateLeft | project1/abtree/abtree.py:273-280 | the counter-clockwise transfer moves the first item of `right` up and the separator to the end of `left` |
| ABTreeDelete.Transfer | project1/abtree/abtree.py:258-280 | `_transfer` changes only the two siblings and the separator between them; one element of fill moves from the donor to the receiver |
| ABTreeDelete.RotateRightInorder | project1/abtree/abtree.py:265-272 | the clockwise rotation keeps `left ++ [s] ++ right` in order |
| ABTreeDelete.TransferInorder | project1/abtree/abtree.py:258-280 | a transfer keeps the parent's inorder visit, and keeps both siblings shaped |
| ABTreeDelete.Fused | project1/abtree/abtree.py:291-292 | the fused node holds the elements of both children and the separator, and all their children |
| ABTreeDelete.Fusion | project1/abtree/abtree.py:282-297 | `_fusion` removes one parent element and one child, and puts the fused node at `index`; everything else shifts and is unchanged |
| ABTreeDelete.FusedInorder | project1/abtree/abtree.py:291-292 | the fused node's inorder visit is `left ++ [separator] ++ right` |
| ABTreeDelete.FusionInorder | project1/abtree/abtree.py:282-297 | a fusion keeps the parent's inorder visit |
| ABTreeDelete.TransferFits | project1/abtree/abtree.py:244-280 | a transfer from a sibling holding at least `a` elements to a child holding `a - 2` leaves every child between `a - 1` and `b - 1` elements |
| ABTreeDelete.FusionFits | project1/abtree/abtree.py:256-297 | a fusion of a child holding `a - 2` elements with a sibling holding `a - 1` fits within `b - 1`, by the constructor bound |
| ABTreeDelete.RebalanceChild | project1/abtree/abtree.py:237-256 | the parent loses an element (a fusion happened) exactly when neither sibling holds `a` or more elements |
| ABTreeDelete.RebalanceChildInorder | project1/abtree/abtree.py:237-256 | every repair (left transfer, right transfer, fusion to the right, or to the left for the last child) keeps the parent's inorder visit |
| ABTreeDelete.RebalanceChildFits | project1/abtree/abtree.py:237-256 | after the repair of an underflowing child, every child holds between `a - 1` and `b - 1` elements |
| ABTreeDelete.RemoveAt | project1/abtree/abtree.py:200-256 | popping element `i` of the leaf at `path` with the repairs below the node removes exactly that item between the items before and after it |
| ABTreeDelete.RemoveAtRemoves | project1/abtree/abtree.py:200-256 | on the whole subtree's inorder visit, the removal drops exactly the item at the element's global index |
| ABTreeDelete.RemoveAtFits | project1/abtree/abtree.py:226-256 | nodes below stay between `a - 1` and `b - 1` elements; the node loses an element exactly when the rebalance reaches it |
| ABTreeDelete.SwapWithPredecessor | project1/abtree/abtree.py:194-199 | the swap moves element `i` of an internal node into a leaf slot, which the function returns |
| ABTreeDelete.SwapUsesBefore | project1/abtree/abtree.py:195 | the leaf slot of the swap is the one that `before(p, i)` as written returns at an internal node |
| ABTreeDelete.SwapInorder | project1/abtree/abtree.py:194-199 | on the inorder visit, the swap exchanges the item of element `i` with the one just before it, and the returned slot is that earlier position |
| ABTreeDelete.SwapTree | project1/abtree/abtree.py:194-199 | the swap keeps every fill bound and leaf depth |
| ABTreeDelete.DeleteAt | project1/abtree/abtree.py:193-256 | `_delete_element` below the root drops exactly the item at the element's global index from the inorder visit |
| ABTreeDelete.DeleteAtFits | project1/abtree/abtree.py:193-256 | a deletion leaves every node below the root between `a - 1` and `b - 1`; the root loses an element exactly when the rebalance reaches it |
| ABTreeSearch.Locate | project1/abtree/abtree_map.py:98-119 | the outcome of `_list_search`: whether the key is present, and an index within the list |
| ABTreeSearch.LocateSplits | project1/abtree/abtree_map.py:98-119 | on a sorted list, `_list_search` reports presence exactly when the key is present, and returns the number of keys below it |
| ABTreeSearch.LowerBoundUnique | project1/abtree/abtree_map.py:105-106 | any split point of a sorted list at `key` is the index `_list_search` returns |
| ABTreeSearch.ListSearch | project1/abtree/abtree_map.py:98-119 | the binary search returns `(True, i)` with `l[i]` holding the key when it is present, else `(False, number of keys below it)` |
| ABTreeSearch.SubtreeSearch | project1/abtree/abtree_map.py:59-64 | the descent ends at a valid position, with an index at most the node's element count |
| ABTreeSearch.SubtreeSearchPlaces | project1/abtree/abtree_map.py:59-64 | every item before the position reached has a smaller key; the position holds the key if found, otherwise it is in a leaf and every later item is larger |
| ABTreeSearch.SubtreeSearchLocates | project1/abtree/abtree_map.py:59-64 | the descent computes, on the whole inorder visit, what `_list_search` computes: presence and lower bound |
| ABTreeSearch.InsertPlaces | project1/abtree/abtree_map.py:81-86 | a key that was not found goes to a leaf position where inserting it keeps the visit sorted, at its lower bound |
| ABTreeSearch.Upsert | project1/abtree/abtree_map.py:76-86 | `m[k] = v` on the key-sorted sequence changes its length by at most one |
| ABTreeSearch.UpsertSpec | project1/abtree/abtree_map.py:76-86 | assignment keeps the items sorted, maps `k` to `v` and every other key as before, and adds one item exactly when `k` was absent |
| ABTreeSearch.Remove | project1/abtree/abtree_map.py:88-96 | `del m[k]` changes the length by at most one |
| ABTreeSearch.RemoveSpec | project1/abtree/abtree_map.py:88-96 | deletion keeps the items sorted, drops exactly the pair of `k`, and removes one item exactly when `k` was present |
| ABTreeSearch.MapsUnique | project1/abtree/abtree_map.py:81-84 | a key-sorted sequence holds at most one value per key |
| ABTreeMapLayer.ABTreeMap.New | project1/abtree/abtree.py:63-76 | ValueError exactly when `2 <= a <= (b + 1) // 2` fails; otherwise an empty, valid map with those bounds |
| ABTreeMapLayer.ABTreeMap.Len | project1/abtree/abtree.py:106-108 | `__len__` is the number of items |
| ABTreeMapLayer.ABTreeMap.EmptyIsRootless | project1/abtree/abtree.py:226-230 | the size is 0 exactly when there is no root |
| ABTreeMapLayer.ABTreeMap.Get | project1/abtree/abtree_map.py:33-45 | the value stored under `key`; KeyError exactly when the key is absent, including the empty tree |
| ABTreeMapLayer.ABTreeMap.AddRoot | project1/abtree/abtree.py:177-186 | ValueError exactly when a root exists, with nothing changed; otherwise the root holds just `[e]`, the size is 1 and the position is the root's index 0 |
| ABTreeMapLayer.ABTreeMap.AddElement | project1/abtree/abtree.py:188-224 | the item goes into the map's sequence at the position's global index, the size grows by exactly one, and the tree stays valid |
| ABTreeMapLayer.ABTreeMap.DeleteElement | project1/abtree/abtree.py:193-256 | the item at the position goes from the map's sequence, the size drops by exactly one, and the tree stays valid (root None when empty, a collapsed root replaced by its child) |
| ABTreeMapLayer.ABTreeMap.SetItem | project1/abtree/abtree_map.py:76-86 | the items become `Upsert(old, key, v)`; the size grows by one exactly when the key was new |
| ABTreeMapLayer.ABTreeMap.DelItem | project1/abtree/abtree_map.py:88-96 | KeyError exactly when the key is absent, with the root unchanged; otherwise the item goes and the size drops by one |
| ABTreeMapLayer.ABTreeMap.Search | project1/abtree/abtree_map.py:47-57 | the position of `key` when present; otherwise the leaf position reached, moved back by one past the end, which holds the next larger or next smaller item; AttributeError on an empty tree |
| ABTreeMapLayer.ABTreeMap.FindMin | project1/abtree/abtree_map.py:66-69 | the smallest pair of the map; TypeError on an empty tree |
| ABTreeMapLayer.ABTreeMap.FindMax | project1/abtree/abtree_map.py:71-74 | the largest pair of the map; TypeError on an empty tree |
| ABTreeMapLayer.AddElementFits | project1/abtree/abtree.py:188-224 | the insertion keeps the map state valid, puts the item at its global index, and the tree grows one level exactly when the root splits |
| ABTreeMapLayer.DeleteElementFits | project1/abtree/abtree.py:193-236 | the deletion keeps the map state valid and drops the item at its global index; no items left means no root, and an emptied root gives way to its child |
| ABTreeMapLayer.CollapseRoot | project1/abtree/abtree.py:231-236 | a root without elements that still holds items has one child, one level down, holding all of them |
| ABTreeMapLayer.OverwriteFits | project1/abtree/abtree_map.py:81-84 | overwriting the value of a found key keeps the tree valid and performs the assignment |
| ABTreeMapLayer.NewKeyPlaces | project1/abtree/abtree_map.py:81-86 | a key the search did not find goes to a leaf position where the assignment is an insertion |
| Currencies.ValidateIso4217 | project1/currency.py:157-160 | accepts exactly strings of three capital letters (the corrected reading of the pattern) |
| Currencies.ValidateIso4217AsWritten | project1/currency.py:157-160 | `match("^[A-Z]{3}$")` accepts the three-capital-letter strings and also those followed by one final newline |
| Currencies.TrailingNewlineAccepted | project1/currency.py:159-160 | "EUR\n" passes the pattern as written and fails the intended check |
| Currencies.InsortSpec | project1/currency.py:27-29 | adding a new value to the ordered set keeps it increasing, grows it by one, and adds exactly that value |
| Currencies.DiscardSpec | project1/currency.py:37 | removing a present value keeps the set increasing, shrinks it by one, and removes exactly that value |
| Currencies.LowerBound | project1/currency.py:50 | the number of elements below `v`: everything before it is smaller and everything from it on is not |
| Currencies.FindPosition | project1/currency.py:50 | `find_position(v)`: None exactly on an empty tree; otherwise the position of `v` when present, else a position next to where `v` would be |
| Currencies.AtLeastFrom | project1/currency.py:51-55 | from that position, the least element not below `v`; ValueError exactly when every element is below `v` |
| Currencies.AtMostFrom | project1/currency.py:69-73 | from that position, the greatest element not above `v`; ValueError exactly when every element is above `v` |
| Currencies.Currency.New | project1/currency.py:9-19 | TypeError exactly when the code is not three capital letters, the corrected check of the currency.py:159-160 Findings row; otherwise a currency with that code, no denominations and no rates |
| Currencies.Currency.AddDenomination | project1/currency.py:22-29 | ValueError exactly when the value is already a denomination, with nothing changed; otherwise the value is added in order |
| Currencies.Currency.DelDenomination | project1/currency.py:32-37 | KeyError exactly when the value is not a denomination, with nothing changed; otherwise exactly that value is removed |
| Currencies.Currency.MinDenomination | project1/currency.py:40-55 | without a value, the least denomination; with one, the least denomination not below it; ValueError when none exists (AttributeError when a value meets an empty set) |
| Currencies.Currency.MaxDenomination | project1/currency.py:58-73 | without a value, the greatest denomination; with one, the greatest denomination not above it; ValueError when none exists (AttributeError when a value meets an empty set) |
| Currencies.Currency.NextDenomination | project1/currency.py:76-83 | ValueError exactly when the value is not a denomination; otherwise the next larger denomination, None exactly when there is none |
| Currencies.Currency.PrevDenomination | project1/currency.py:86-93 | ValueError exactly when the value is not a denomination; otherwise the next smaller denomination, None exactly when there is none |
| Currencies.Currency.HasDenominations | project1/currency.py:95-97 | true exactly when the set is non-empty |
| Currencies.Currency.NumDenominations | project1/currency.py:99-101 | the size of the set |
| Currencies.Currency.ClearDenominations | project1/currency.py:103-105 | the set becomes empty and the rates are untouched |
| Currencies.Currency.IterDenominations | project1/currency.py:107-116 | every denomination exactly once, strictly ascending, or strictly descending when `reverse` |
| Currencies.Currency.AddChange | project1/currency.py:118-123 | KeyError exactly when a rate for that code exists, with nothing changed; otherwise the rate is recorded |
| Currencies.Currency.RemoveChange | project1/currency.py:125-128 | KeyError exactly when no rate for that code exists; otherwise exactly that entry goes |
| Currencies.Currency.UpdateChange | project1/currency.py:130-133 | the rate is recorded whether or not one existed |
| Currencies.Currency.GetChange | project1/currency.py:166-167 | the recorded rate; KeyError when there is none |
| Currencies.Currency.DeepCopy | project1/currency.py:145-155 | a new currency with the same code, the same denominations and the same rates |
| CurrencyTree.CodeRankOrder | project1/abtree/currency_28tree.py:31-34 | the integer key of a code orders as the codes compare as strings, and distinct codes get distinct keys |
| CurrencyTree.CodeKeys | project1/abtree/currency_28tree.py:25-29 | while every item sits under its code's key, a code is stored exactly when it is valid and its key is stored |
| CurrencyTree.UpsertKeepsCodes | project1/abtree/currency_28tree.py:13-17 | filing a currency under its own code keeps every item under its code |
| CurrencyTree.RemoveKeepsCodes | project1/abtree/currency_28tree.py:19-23 | deleting keeps every item under its code |
| CurrencyTree.Currency28Tree.constructor | project1/abtree/currency_28tree.py:9-11 | an empty tree with a = 2 and b = 8 |
| CurrencyTree.Currency28Tree.SetItem | project1/abtree/currency_28tree.py:31-34 | ValueError exactly when the key is not the currency's code, with nothing changed; otherwise the map's assignment |
| CurrencyTree.Currency28Tree.Insert | project1/abtree/currency_28tree.py:13-17 | the currency is filed under its code, replacing any currency with that code |
| CurrencyTree.Currency28Tree.Delete | project1/abtree/currency_28tree.py:19-23 | KeyError exactly when no currency has the code, with nothing changed; otherwise that currency goes |
| CurrencyTree.Currency28Tree.Search | project1/abtree/currency_28tree.py:25-29 | the currency with that code; KeyError exactly when there is none |
| Primes.PrevPrime | project1/double_hashing_hash_map.py:63-67 | `sympy.prevprime(n)`: a prime below `n` with no prime between it and `n` |
| Primes.NextPrime | project1/double_hashing_hash_map.py:80 | `sympy.nextprime(n)`: a prime above `n` with no prime between `n` and it |
| Primes.EuclidPrimeAbove | project1/double_hashing_hash_map.py:80 | a prime above every `n` exists (the least prime factor of `n! + 1`), so `nextprime` always answers |
| Primes.OffsetsDistinct | project1/double_hashing_hash_map.py:63-67 | below a prime modulus, two different numbers of steps of a non-zero step land on different slots |
| ProbeSlots.PolyHashSnoc | project1/double_hashing_hash_map.py:54-58 | the hash code is Horner's rule in base 34: appending a character multiplies by 34 and adds it |
| ProbeSlots.Home | project1/double_hashing_hash_map.py:60-61 | the MAD compression of the hash code is a slot of the table |
| ProbeSlots.Step | project1/double_hashing_hash_map.py:63-67 | the second hash `q - code % q` is between 1 and `q`, the largest prime below `len(table) - 1`, so it is never 0 |
| ProbeSlots.ProbeClosed | project1/double_hashing_hash_map.py:48 | after `t` steps the probe stands at `(j + t * step) % m` |
| ProbeSlots.ProbesDistinct | project1/double_hashing_hash_map.py:36-48 | in a prime-sized table the first `m` probes are `m` different slots |
| ProbeSlots.ProbeSetSize | project1/double_hashing_hash_map.py:36-48 | `t <= m` probes of a prime-sized table visit exactly `t` slots |
| ProbeSlots.FullProbesFillTable | project1/double_hashing_hash_map.py:37-38 | when all `m` probes of a prime-sized table hit occupied slots, every slot is occupied |
| ProbeSlots.SlotsMapSpec | project1/double_hashing_hash_map.py:87 | with unique keys, the map the table represents holds exactly the stored keys, each with its slot's value |
| ProbeSlots.SlotsMapSize | project1/double_hashing_hash_map.py:87-92 | with unique keys, the map has one entry per occupied slot |
| ProbeSlots.ItemsMapValues | project1/double_hashing_hash_map.py:87-92 | assigning a list of pairs with distinct keys in order maps every key to its own value |
| ProbeSlots.ItemsMapSize | project1/double_hashing_hash_map.py:87-92 | assigning pairs with distinct keys gives one entry per pair |
| ProbeSlots.Lead | project1/double_hashing_hash_map.py:40-48 | the length of the leading run of probes that meet another key: every probe in it is occupied by another key and the next probe is not |
| ProbeSlots.MissMeansAbsent | project1/double_hashing_hash_map.py:37-44 | a search along `k`'s own chain that ran out of probes or met an empty slot without meeting `k` proves `k` absent |
| ProbeSlots.InsertAtFirstFree | project1/double_hashing_hash_map.py:94-98 | storing a new key in the first available slot of its chain keeps the invariant, maps the key to its value, and occupies one more slot |
| ProbeSlots.Overwrite | project1/double_hashing_hash_map.py:99-100 | overwriting a stored key's value keeps the invariant and the occupied slots, and maps the key to the new value |
| ProbeSlots.FreeSlot | project1/double_hashing_hash_map.py:75-78 | marking a stored key's slot `_AVAIL` keeps the invariant and removes exactly that key and slot |
| ProbeSlots.EmptyTable | project1/double_hashing_hash_map.py:18-25 | a table of `None` slots keeps the invariant and represents the empty map |
| ProbeSlots.NoRoomMeansFull | project1/double_hashing_hash_map.py:37-38 | in a prime-sized table, a search whose every probe meets another key means the table is full |
| ProbeSlots.ItemsOfChained | project1/double_hashing_hash_map.py:87 | the listed pairs have distinct non-empty keys, one per entry of the map |
| DoubleHashing.RoundHalfEven | project1/double_hashing_hash_map.py:72-79 | Python's `round(x / d)`: the nearest integer, with ties to the even one |
| DoubleHashing.GrownCapacity | project1/double_hashing_hash_map.py:72-73 | the grown capacity `prevprime(2 * cap)` is a prime of at least 5 |
| DoubleHashing.ShrinkFits | project1/double_hashing_hash_map.py:79-83 | the shrunk capacity `max(17, nextprime(cap // 2))` is a prime of at least 17 above every size that triggers shrinking |
| DoubleHashing.FindSlotOutcome | project1/double_hashing_hash_map.py:27-48 | when the probe loop stops, `k` was found exactly when it is stored; on a miss the slot returned is the first available one |
| DoubleHashing.DoubleHashingHashMap.constructor | project1/double_hashing_hash_map.py:18-25 | `cap` empty slots, the empty map, size 0 and no collisions |
| DoubleHashing.DoubleHashingHashMap.Len | project1/double_hashing_hash_map.py:69-100 | the size counter is the number of keys mapped |
| DoubleHashing.DoubleHashingHashMap.GetCollisions | project1/double_hashing_hash_map.py:50-52 | the collision counter |
| DoubleHashing.DoubleHashingHashMap.HashCode | project1/double_hashing_hash_map.py:54-58 | IndexError exactly for the empty key; otherwise the base-34 polynomial of the characters |
| DoubleHashing.DoubleHashingHashMap.HashFunction | project1/double_hashing_hash_map.py:60-61 | IndexError exactly for the empty key; otherwise the home slot, a slot of the table |
| DoubleHashing.DoubleHashingHashMap.SecondHash | project1/double_hashing_hash_map.py:63-67 | the probe step of `k`, between 1 and below the table size; one collision is counted exactly when asked |
| DoubleHashing.DoubleHashingHashMap.FindSlot | project1/double_hashing_hash_map.py:27-48 | under the invariant, `(True, i)` with `table[i]` holding `k` exactly when `k` is stored; on a miss, the first available slot of the chain, or None when every probe meets another key; collisions grow by the leading run when counting |
| DoubleHashing.DoubleHashingHashMap.ProbeChain | project1/double_hashing_hash_map.py:34-48 | the probe loop stops on `k`, on an empty slot, or after `len(table)` probes, having counted one collision per step taken before any available slot |
| DoubleHashing.DoubleHashingHashMap.BucketSetItem | project1/double_hashing_hash_map.py:94-100 | a stored key gets the new value with `_n` unchanged; a new key goes into the first available slot and `_n` grows by one; in a prime table that is not full this always succeeds |
| DoubleHashing.DoubleHashingHashMap.Resize | project1/double_hashing_hash_map.py:85-92 | a fresh table of capacity `c` holding exactly the previous pairs, `_n` their count, no collisions counted; it succeeds when `c` is a prime holding them all |
| DoubleHashing.DoubleHashingHashMap.Reinsert | project1/double_hashing_hash_map.py:90-92 | one more recorded pair is stored again, without counting collisions |
| DoubleHashing.DoubleHashingHashMap.SetItem | project1/double_hashing_hash_map.py:69-73 | IndexError for the empty key; otherwise `k` maps to `v`, collisions grow by the leading run, and a size above `round(0.49 * cap)` resizes to `prevprime(2 * cap)` |
| DoubleHashing.DoubleHashingHashMap.DelItem | project1/double_hashing_hash_map.py:75-83 | IndexError for the empty key, KeyError exactly when `k` is absent; otherwise `k` goes, `_n` drops by one, and a size below `round(0.21 * cap)` with `cap != 17` resizes to `max(17, nextprime(cap // 2))` |
| AllChange.CombosZero | project2/all_change.py:32-33 | with nothing left to pay there is exactly one way, for every number of kinds |
| AllChange.CombosStep | project2/all_change.py:38-45 | counting by the number of coins of the last kind splits the same way as the table's recurrence |
| AllChange.WaysCountsCombos | project2/all_change.py:13-45 | the table's cell counts exactly the multisets of coins of the first `j + 1` kinds that sum to `i` |
| AllChange.SixtyCents | project2/all_change.py:15-16 | the documented example: 10, 20 and 50 cents change 60 cents in 5 ways |
| AllChange.FillRow | project2/all_change.py:36-45 | after filling row `i`, every cell of rows `0..i` holds the recurrence's value |
| AllChange.AllChangeCount | project2/all_change.py:12-50 | IndexError exactly when there is no denomination or the amount is negative; otherwise the number of ways `T[n][m - 1]` |
| CoinChange.SumAtLeastCount | project1/coin_change.py:38-43 | with positive denominations a payment of `v` has at most `v` coins, each at most `v` |
| CoinChange.SameCoins | project1/coin_change.py:38-45 | which payments exist, and which are fewest, does not depend on the order the denominations are visited in |
| CoinChange.MinEntry | project1/coin_change.py:25 | `HeapPriorityQueue.min()`: an entry of the queue whose count is not above any other |
| CoinChange.ChangeRecursion | project1/coin_change.py:30-45 | the recursion pushes onto the queue exactly the entries of the enumeration `Recursion` |
| CoinChange.RecursionSound | project1/coin_change.py:30-45 | every recorded entry extends the coins already paid by coins that pay the value, and counts them |
| CoinChange.RecursionComplete | project1/coin_change.py:30-45 | without `canonical`, every way to pay the value (as an ordered list of coins) is recorded |
| CoinChange.CanonicalIsGreedy | project1/coin_change.py:38-45 | with `canonical` and the denominations largest first, the recursion records exactly the greedy payment, when greedy reaches zero |
| CoinChange.GreedyRepresents | project1/coin_change.py:38-45 | the greedy payment pays the value |
| CoinChange.GreedyNotFewest | project1/coin_change.py:16-18 | the documented caveat: with 4, 3 and 1 cent coins, `canonical` pays 6 as 4 + 1 + 1, while 3 + 3 pays it with two coins |
| CoinChange.EnumerationMin | project1/coin_change.py:22-25 | the queue's minimum is a payment counted correctly; without `canonical` it has the fewest coins, with it it is the greedy payment |
| CoinChange.EnumerationEmpty | project1/coin_change.py:24-27 | an empty queue means the value cannot be paid (without `canonical`), or greedy gets stuck (with it) |
| CoinChange.ChangeRecurs | project1/coin_change.py:10-45 | `(0, [])` for value 0 whatever the denominations, since the base case records it before any coin is tried; ValueError exactly when nothing is recorded; without `canonical` the answer is a fewest-coin payment and fails exactly when the value cannot be paid; with it, the answer is the greedy payment |
| CoinChange.ChangeDynamic | project1/coin_change.py:81-89 | pushes exactly the offers: one per coin `d <= v` whose remainder `v - d` is solved |
| CoinChange.OfferShape | project1/coin_change.py:81-89 | every offer is the solution of `v - d` extended by the coin `d`, counted one higher |
| CoinChange.OfferMade | project1/coin_change.py:82-89 | every coin `d <= v` whose remainder is solved makes an offer |
| CoinChange.SolvedStart | project1/coin_change.py:62 | `solution = {0: (0, [])}` is exact for the amounts up to 0 |
| CoinChange.SolvedStep | project1/coin_change.py:65-72 | solving the next amount from the offers keeps the table exact over the positive denominations (the payable amounts so far, each with a fewest-coin payment), and leaves out an amount exactly when it is not payable |
| CoinChange.Change | project1/coin_change.py:53-78 | for any currency with a positive denomination: a fewest-coin payment of `value` with its count, over the positive denominations (zero and negative ones never offer); ValueError exactly when `value` cannot be paid with them |
| CoinChange.NoOfferUnpayable | project1/coin_change.py:81-89 | when no coin offers for amount `c`, no payment of `c` with the positive denominations exists |
| CoinChange.MinOfferFewest | project1/coin_change.py:81-89 | the least offer for amount `c` pays `c` with the fewest coins of the positive denominations |
| Graphs.GetEdge | project2/exchange_tour/two_three_opt.py:47-48 | `g.get_edge(u, v)`: an answer exactly when `(u, v)` is an edge, and then its weight |
| Graphs.CostReverse | project2/exchange_tour/two_three_opt.py:61 | in the undirected graph a path read backwards is a path of the same weight, which is why a reversed stretch only changes the two junction edges |
| Graphs.CycleCostRotate | project2/exchange_tour/two_three_opt.py:141-148 | reading a cycle from another vertex leaves it a cycle of the same weight, as `_rotate` promises to leave the solution unchanged |
| Graphs.ClosedTour | project2/excange_tour/excange_tour.py:641-645 | a cycle listed with its first vertex repeated at the end is a path exactly when the open list is a cycle, and both weigh the same |
| TourMoves.TwoOptMove | project2/exchange_tour/two_three_opt.py:61 | `hc[i+1:j+1] = hc[j:i:-1]` keeps the length and the vertices of the list |
| TourMoves.SwapMove | project2/exchange_tour/two_three_opt.py:121 | `hc[i+1:k+1] = hc[j+1:k+1] + hc[i+1:j+1]` keeps the length and the vertices of the list |
| TourMoves.SwapReverseMove | project2/exchange_tour/two_three_opt.py:134 | `hc[i+1:k+1] = hc[j+1:k+1] + hc[j:i:-1]` keeps the length and the vertices of the list |
| TourMoves.ThreeOptMove | project2/exchange_tour/two_three_opt.py:112-134 | whichever 3-opt case applies keeps the length and the vertices of the list |
| TourMoves.SliceAssigned | project2/exchange_tour/two_three_opt.py:61 | writing `seg` over positions `lo..` and keeping every other position is the slice assignment `l[lo:lo+len(seg)] = seg` |
| TourMoves.RotatedLeft | project2/exchange_tour/two_three_opt.py:147-148 | `hc[n:] + hc[:n]` keeps the vertices and moves each position by the shift, round the end |
| TourMoves.TwoOptCost | project2/exchange_tour/two_three_opt.py:47-61 | when both new junctions are edges the 2-opt move keeps the ends of the path and changes its weight by the new junctions less the old |
| TourMoves.SwapCost | project2/exchange_tour/two_three_opt.py:96-121 | when the three first-case junctions are edges the move keeps the ends and changes the weight by the new junctions less the old |
| TourMoves.SwapReverseCost | project2/exchange_tour/two_three_opt.py:105-134 | when the three second-case junctions are edges the move keeps the ends and changes the weight by the new junctions less the old |
| TourMoves.ThreeOptCost | project2/exchange_tour/two_three_opt.py:96-134 | a 3-opt move the code would make keeps the ends of the path and strictly lowers its weight |
| TourMoves.RearrangedTour | project2/exchange_tour/two_three_opt.py:45-46 | a move inside the list that keeps its first and last vertex keeps the closing edge, so the cycle stays a cycle and its weight changes as the path's |
| TourMoves.AssignSlice | project2/exchange_tour/two_three_opt.py:61 | the in-place slice assignment: the new list is the old one with the stretch replaced by `seg` |
| TourMoves.ReverseStretch | project2/exchange_tour/two_three_opt.py:61 | the array afterwards holds the 2-opt move of what it held |
| TourMoves.SwapStretches | project2/exchange_tour/two_three_opt.py:121 | the array afterwards holds the first-case 3-opt move of what it held |
| TourMoves.SwapReverseStretches | project2/exchange_tour/two_three_opt.py:134 | the array afterwards holds the second-case 3-opt move of what it held |
| TourMoves.TryTwoOpt | project2/exchange_tour/two_three_opt.py:47-61 | a move is made exactly when both new edges exist and weigh strictly less than the old two; it keeps the ends and strictly lowers the weight |
| TourMoves.TwoOpt | project2/exchange_tour/two_three_opt.py:25-65 | `_2opt`: the list keeps its ends and stays a path; when it reports an edit the weight is strictly lower, otherwise the list is unchanged |
| TourMoves.TryThreeOpt | project2/exchange_tour/two_three_opt.py:96-136 | a move is made exactly when the applicable case's new edges exist and weigh strictly less than the old three; it keeps the ends and strictly lowers the weight |
| TourMoves.ThreeOpt | project2/exchange_tour/two_three_opt.py:68-138 | `_3opt`: the list keeps its ends and stays a path; when it reports an edit the weight is strictly lower, otherwise the list is unchanged |
| TourMoves.Rotate | project2/exchange_tour/two_three_opt.py:141-148 | the array afterwards holds `hc[n:] + hc[:n]` of what it held |
| TourMoves.RotatedTour | project2/exchange_tour/two_three_opt.py:141-148 | a rotated cycle is the same cycle, of the same weight |
| TourMoves.TwoThreeOpt | project2/exchange_tour/two_three_opt.py:1-22 | `two_three_opt` ends reporting no edit, with a cycle over the same vertices that weighs no more than the one it was given |
| TourMoves.TwoThreeOptRounds | project2/excange_tour/excange_tour.py:70-94 | `_2_3opt` ends reporting no edit, with a cycle over the same vertices that weighs no more than the one it was given |
| TourMoves.NextPosition | project2/excange_tour/excange_tour.py:35-36 | `(i + 1) % len(hc)` is the next position, round the end |
| TourMoves.GetCost | project2/excange_tour/excange_tour.py:31-37 | `get_cost`: AttributeError exactly when some consecutive pair, the closing one included, is not an edge; otherwise the weight of the cycle |
| TourSearch.ElemsBound | project2/excange_tour/excange_tour.py:636-637 | a list has at most as many distinct elements as entries, and exactly as many when no vertex repeats (the `o not in hc` test keeps it so) |
| TourSearch.Pigeonhole | project2/excange_tour/excange_tour.py:641 | a path of the search never holds more vertices than the graph, so `vertex_count() == len(hc)` is the deepest it goes |
| TourSearch.Extended | project2/excange_tour/excange_tour.py:635-638 | appending a neighbour of the last vertex that is not on the path gives a longer path of distinct vertices along an edge |
| TourSearch.BranchIs | project2/excange_tour/excange_tour.py:636-652 | trying a neighbour yields nothing when it is on the path, else what the search one vertex deeper yields |
| TourSearch.HamiltonianBruteForce | project2/excange_tour/excange_tour.py:625-652 | the method collects exactly what the generator yields, in its order |
| TourSearch.TryNeighbour | project2/excange_tour/excange_tour.py:636-652 | one pass of the loop collects exactly what that neighbour's try yields, and leaves `hc` as it found it (`append` then `pop`) |
| TourSearch.StartsWithShorter | project2/excange_tour/excange_tour.py:646-649 | a cycle that begins with the longer path begins with the shorter one |
| TourSearch.StartsWithLonger | project2/excange_tour/excange_tour.py:635-638 | the next vertex of a Hamiltonian cycle after a proper prefix is not on the prefix, so the search tries it |
| TourSearch.SoundShorter | project2/excange_tour/excange_tour.py:646-649 | what the deeper search yields also begins with the shorter path |
| TourSearch.WalkedStep | project2/excange_tour/excange_tour.py:649 | `cost + e.element()` is the weight of the path one edge longer |
| TourSearch.ExtendSound | project2/excange_tour/excange_tour.py:641-645 | what is yielded on reaching every vertex is a Hamiltonian cycle beginning with the path, with its weight |
| TourSearch.BranchesSound | project2/excange_tour/excange_tour.py:635-652 | everything the search from a path yields is a Hamiltonian cycle beginning with it, paired with its weight |
| TourSearch.BranchSound | project2/excange_tour/excange_tour.py:636-652 | everything one neighbour's try yields is a Hamiltonian cycle beginning with the path, paired with its weight |
| TourSearch.ExtendComplete | project2/excange_tour/excange_tour.py:641-649 | every Hamiltonian cycle beginning with the path is yielded once the last vertex is appended or by the deeper search |
| TourSearch.BranchesComplete | project2/excange_tour/excange_tour.py:635-652 | every Hamiltonian cycle beginning with the path is yielded by the loop from any neighbour position up to the cycle's next vertex |
| TourSearch.BranchComplete | project2/excange_tour/excange_tour.py:636-652 | the try of the cycle's next vertex yields the cycle |
| TourSearch.CyclesSound | project2/excange_tour/excange_tour.py:625-652 | the generator yields only Hamiltonian cycles from the start vertex, each closed and paired with its weight |
| TourSearch.CyclesComplete | project2/excange_tour/excange_tour.py:625-652 | the generator yields every Hamiltonian cycle from the start vertex, with its weight (two or more vertices) |
| TourSearch.Covering | project2/excange_tour/excange_tour.py:641 | a path of `vertex_count()` distinct vertices holds every vertex |
| TourSearch.SameElems | project2/exchange_tour/two_three_opt.py:61 | lists holding the same vertices the same number of times hold the same vertices |
| TourSearch.Reordered | project2/exchange_tour/two_three_opt.py:121 | reordering a list of distinct vertices keeps it one |
| TourSearch.RotatedCycle | project2/exchange_tour/two_three_opt.py:147-148 | a Hamiltonian cycle read from another of its vertices is a Hamiltonian cycle of the same weight |
| TourSearch.RotateCycle | project2/excange_tour/excange_tour.py:627-628 | whichever vertex `random.choice` starts from, every Hamiltonian cycle can be read from it at the same weight |
| TourSearch.RearrangedCycle | project2/exchange_tour/two_three_opt.py:45-61 | a move that keeps the list a path with the same ends keeps a Hamiltonian cycle a Hamiltonian cycle |
| TourSearch.CheapestCycle | project2/excange_tour/excange_tour.py:655-664 | the cheapest cycle the search yields weighs no more than any Hamiltonian cycle of the graph, from whichever start |
| TourSearch.NoCycles | project2/excange_tour/excange_tour.py:625-652 | the search yields nothing exactly when the graph has no Hamiltonian cycle (two or more vertices) |
| TourSearch.FirstMinimum | project2/excange_tour/excange_tour.py:660-664 | nothing exactly when nothing is yielded; otherwise the first of the cheapest entries |
| TourSearch.ExcangeTourBruteForce | project2/excange_tour/excange_tour.py:655-664 | IndexError exactly on a graph without vertices; otherwise no cycle exactly when the search yields none, else the first of the cheapest it yields |
| DraftTour.RandomHamiltonian | project2/excange_tour.py:74-111 | the method returns exactly what the recursive search `Search` defines: the first cycle found, or the failure with the path as given |
| DraftTour.RandomHamiltonianFrom | project2/excange_tour.py:83-88 | IndexError exactly on a graph without vertices; otherwise the search from the vertex drawn |
| DraftTour.SearchFirst | project2/excange_tour.py:96-111 | stopping at the first success finds a cycle exactly when the exhaustive generator yields one, and finds the first it yields |
| DraftTour.TryFromFirst | project2/excange_tour.py:97-111 | trying the neighbours from position `t` on succeeds exactly when the generator's loop from `t` yields something, with its first entry |
| DraftTour.SearchFinds | project2/excange_tour.py:74-111 | a cycle found is a Hamiltonian cycle from the start vertex with its weight as cost; with two or more vertices the search fails only when the graph has no Hamiltonian cycle |
| DraftTour.SwapIsTwoOpt | project2/excange_tour.py:161 | swapping `hc[i+1]` and `hc[i+2]` is the 2-opt move that reverses that stretch of two |
| DraftTour.AdjacentSwaps | project2/excange_tour.py:135-164 | the closed list keeps its ends and stays a path; the returned cost moves with the weight; an edit strictly lowers the weight and no edit leaves the list unchanged |
| DraftTour.RotateClosed | project2/excange_tour.py:167-168 | IndexError exactly when there is no `hc[1]`; otherwise a closed list of the same length from `hc[1]` back to it |
| DraftTour.RotateClosedCycle | project2/excange_tour.py:167-168 | rotating a Hamiltonian cycle gives a Hamiltonian cycle of the same weight |
| DraftTour.DraftExcangeTour | project2/excange_tour.py:114-132 | IndexError exactly on a graph without vertices; `None` exactly when the first search finds nothing; otherwise a Hamiltonian cycle with its weight, no dearer than the first one found |
| ExcangeTour.ClosedHamiltonian | project2/excange_tour/excange_tour.py:18-28 | a list of every vertex once is a cycle exactly when closing it gives a Hamiltonian cycle |
| ExcangeTour.ExcangeTourSearch | project2/excange_tour/excange_tour.py:10-28 | IndexError exactly when the graph has fewer than two vertices; `None` only when the graph has no Hamiltonian cycle; otherwise a Hamiltonian cycle over the vertices HybridHAM found, no dearer than that cycle. HybridHAM runs with the corrected degree test of hybridham.py line 30 |
| HybridHamiltonian.InsertByDegree | project2/excange_tour/hybridham.py:16-22 | inserting a vertex adds it once and keeps every other vertex |
| HybridHamiltonian.ConsInOrder | project2/excange_tour/hybridham.py:22 | a vertex of degree at most every degree in an ordered list, put in front, keeps it ordered by degree |
| HybridHamiltonian.TailInOrder | project2/excange_tour/hybridham.py:22 | the rest of a list ordered by degree is ordered, and nothing in it has lower degree than the head |
| HybridHamiltonian.InsertedInOrder | project2/excange_tour/hybridham.py:22 | inserting by degree keeps the list ordered by degree |
| HybridHamiltonian.SortByDegree | project2/excange_tour/hybridham.py:19-22 | `Va.sort(key=_by_degree)`: a permutation of the vertices in non-decreasing order of degree |
| HybridHamiltonian.FirstFresh | project2/excange_tour/hybridham.py:107-116 | a vertex of `va` that is adjacent to `vs` and not on the path, or none exactly when no vertex of `va` is |
| HybridHamiltonian.FirstFreshIsFirst | project2/excange_tour/hybridham.py:110-116 | the vertex found is the first such one in the order of `va`: `break` stops at it |
| HybridHamiltonian.NextFresh | project2/excange_tour/hybridham.py:108-116 | the `for v in va` loop returns exactly the first vertex that can follow `vs`, or none |
| HybridHamiltonian.FirstFreshStep | project2/excange_tour/hybridham.py:110-116 | scanning from position `k` takes the vertex there when it can follow, else scans on from `k + 1` |
| HybridHamiltonian.Stepped | project2/excange_tour/hybridham.py:118-120 | appending a vertex that can follow the end gives a longer path of distinct vertices along an edge |
| HybridHamiltonian.GreedyWalk | project2/excange_tour/hybridham.py:99-120 | the greedy walk begins with the given path, stays a path of distinct vertices, is linked when the given one is, and stops only where no vertex of `va` can follow |
| HybridHamiltonian.GreedyDfs | project2/excange_tour/hybridham.py:99-120 | `_greedy_dfs` leaves the path the greedy walk defines |
| HybridHamiltonian.DeadEndSomeOn | project2/excange_tour/hybridham.py:142-145 | at a dead end a vertex with a neighbour has one on the path, so the rotation finds one |
| HybridHamiltonian.GreedyPath | project2/excange_tour/hybridham.py:39-40 | with every vertex in `va` the walk ends at a dead end: every neighbour of the last vertex is on the path |
| HybridHamiltonian.GreedyFromPath | project2/excange_tour/hybridham.py:34-40 | the walk from one vertex is a linked path of distinct vertices from it, ending at a dead end |
| HybridHamiltonian.IndexOf | project2/excange_tour/hybridham.py:157 | `path.index(b)`: the first position holding `b` |
| HybridHamiltonian.RotatePath | project2/excange_tour/hybridham.py:150-159 | ValueError exactly when `b` is not on the path; otherwise the same vertices, unchanged up to `b`; unless `b` is one of the last two, the old end now follows `b` and the vertex after `b` is the new end |
| HybridHamiltonian.RotatedPath | project2/excange_tour/hybridham.py:150-159 | rotating a linked path of distinct vertices at a neighbour of its end gives such a path again |
| HybridHamiltonian.RotatedLinked | project2/excange_tour/hybridham.py:157-159 | rotating a linked path at a neighbour of its end keeps it linked |
| HybridHamiltonian.LinkedReversedTail | project2/excange_tour/hybridham.py:159 | reversing the tail keeps the path linked when the tail's last vertex is adjacent to the head's last |
| HybridHamiltonian.PredecessorOnPath | project2/excange_tour/hybridham.py:139-145 | the vertex before the end is a neighbour of the end and on the path, so the rotation always finds a vertex on a path of two or more |
| HybridHamiltonian.RotateByPredecessor | project2/excange_tour/hybridham.py:158 | rotating at the vertex before the end leaves the path as it is |
| HybridHamiltonian.RotationalTransform | project2/excange_tour/hybridham.py:130-147 | IndexError exactly on an empty path; `False` leaves the path as it is and means no neighbour of the end is on it; `True` rotates at the first shuffled neighbour on the path and keeps a linked path linked |
| HybridHamiltonian.TiesDiffer | project2/excange_tour/hybridham.py:30 | two different vertices of equal degree pass the degree test and fail the test as written |
| HybridHamiltonian.TryTopStarts | project2/excange_tour/hybridham.py:27-44 | the phase-1 loop with the degree test keeps the first longest of the greedy paths it tried, all from vertices of the highest degree, and stops at a full path, at `i == 0` or at the first lower degree |
| HybridHamiltonian.TryStart | project2/excange_tour/hybridham.py:31-44 | one pass: the path from `Va[i]` replaces the kept one only when strictly longer |
| HybridHamiltonian.FirstPhase | project2/excange_tour/hybridham.py:24-45 | phase 1 with the degree test: empty below two vertices; otherwise a longest greedy path from a vertex of the highest degree, a linked path ending at a dead end |
| HybridHamiltonian.FirstPhaseAsWritten | project2/excange_tour/hybridham.py:30 | phase 1 as written: exactly one greedy path, from `Va[n-1]`, is tried |
| HybridHamiltonian.DraftFirstPhase | project2/hybridham.py:31-51 | the draft's phase 1: the greedy path from `Vd[0]` only, a linked path ending at a dead end |
| HybridHamiltonian.ExtendOnce | project2/excange_tour/hybridham.py:52-68 | one pass of phase 2 keeps a linked path of distinct vertices ending at a dead end, and gives up only on a single vertex without neighbours |
| HybridHamiltonian.SecondPhase | project2/excange_tour/hybridham.py:49-68 | phase 2 ends with a Hamiltonian path unless it gives up (only on an isolated vertex) or the draws run out |
| HybridHamiltonian.ThirdPhase | project2/excange_tour/hybridham.py:73-96 | phase 3 keeps a Hamiltonian path and answers `True` only when its ends are adjacent; its `return False` cannot happen |
| HybridHamiltonian.NoCycleThroughIsolated | project2/excange_tour/hybridham.py:62-65 | with two or more vertices, a vertex without neighbours means no Hamiltonian cycle, so `False` is right |
| HybridHamiltonian.ClosedPath | project2/excange_tour/hybridham.py:76-96 | a Hamiltonian path whose ends are adjacent closes into a Hamiltonian cycle |
| HybridHamiltonian.HybridHam | project2/excange_tour/hybridham.py:4-96 | IndexError exactly below two vertices; never falls off the end; `True` comes with a Hamiltonian path whose ends are adjacent; `False` only when the graph has no Hamiltonian cycle. Phase 1 uses the corrected degree test of line 30 (see Findings) |
| HybridHamiltonian.DraftHybridHam | project2/hybridham.py:6-77 | never answers `True`; `False` only when the graph has no Hamiltonian cycle; falling off the end comes with a Hamiltonian path (every vertex, at once on an empty graph) |
| ArbitrageDetector.InitialDistances | project2/negative_cycle_detector.py:53-58 | step 1: a distance for exactly the vertices, 0 at `s` and `inf` everywhere else |
| ArbitrageDetector.RelaxFirst | project2/negative_cycle_detector.py:62-67 | relaxing edges in order keeps a distance for every vertex, never raises one, and sets `prev[v] = u` only along an edge `u -> v` |
| ArbitrageDetector.Passes | project2/negative_cycle_detector.py:61-67 | repeated passes keep a distance for every vertex, never raise one, and set `prev` only along edges |
| ArbitrageDetector.BellmanFord | project2/negative_cycle_detector.py:50-67 | steps 1 and 2 give a distance for every vertex, finite at `s`, and predecessors along edges |
| ArbitrageDetector.RelaxEdges | project2/negative_cycle_detector.py:62-67 | one pass over `g.edges()` computes exactly the in-order relaxation of every edge |
| ArbitrageDetector.RelaxPasses | project2/negative_cycle_detector.py:61-67 | step 2 runs `g.vertex_count()` passes, not `|V| - 1` |
| ArbitrageDetector.FirstViolated | project2/negative_cycle_detector.py:70-73 | the first edge that can still be relaxed, or none exactly when no edge can |
| ArbitrageDetector.SettledBound | project2/negative_cycle_detector.py:70-73 | when no edge can be relaxed, along a walk the distance of the end is at most the distance of the start plus the weight walked |
| ArbitrageDetector.NoNegativeCycle | project2/negative_cycle_detector.py:90-91 | when no edge can be relaxed, every closed walk through a vertex of finite distance weighs at least 0: `False` means no arbitrage |
| ArbitrageDetector.AncestorShift | project2/negative_cycle_detector.py:79-85 | once two steps of the walk back reach the same vertex, every later step repeats |
| ArbitrageDetector.WalkBack | project2/negative_cycle_detector.py:75-88 | the walk back from `s` along `prev`: the cycle it closes, read from `s`; KeyError only after a missing predecessor; or a walk that never returns to `s` |
| ArbitrageDetector.WalkStep | project2/negative_cycle_detector.py:80-81 | one more step back appends the next ancestor of `s`, a vertex of the graph |
| ArbitrageDetector.ClosedBack | project2/negative_cycle_detector.py:82-84 | reversing the ancestors when the walk first gets back to `s` gives the cycle from `s` |
| ArbitrageDetector.NeverBack | project2/negative_cycle_detector.py:79-85 | after `|V|` steps away from `s` the walk has repeated a vertex and never gets back to `s` |
| ArbitrageDetector.GoesRound | project2/negative_cycle_detector.py:79-85 | once the walk repeats a vertex every later step revisits one of the earlier ones, never `s` |
| ArbitrageDetector.BackCycleSimple | project2/negative_cycle_detector.py:82-84 | the returned cycle visits no vertex twice and runs along edges, its last vertex back to `s` |
| ArbitrageDetector.MissingAsWritten | project2/negative_cycle_detector.py:47-48 | the guard as written raises KeyError for a currency not in the set and is false for every one in it, so `None` is never returned |
| ArbitrageDetector.ArbitrageOpportunity | project2/negative_cycle_detector.py:34-91 | `None` exactly when `s` is not in the set; `False` exactly when no edge can be relaxed, and then no closed walk from `s` has negative weight; otherwise a simple cycle from `s` along the edges that `prev` leads back round, `(False, prev)` after a missing predecessor, or a walk that never ends |
| CoverPositions.CountInRange | project2/kc1c2_coverage.py:60-62 | the inner loop's count is at most the number of keys of the node |
| CoverPositions.CountIsIndices | project2/kc1c2_coverage.py:60-62 | the count is exactly the number of positions whose key lies in `[c1, c2]` |
| CoverPositions.CountPositive | project2/kc1c2_coverage.py:60-62 | a node counts something exactly when one of its keys lies in `[c1, c2]` |
| CoverPositions.RowSize | project2/kc1c2_coverage.py:57-62 | the count a node adds is the number of its in-range positions |
| CoverPositions.CountedSize | project2/kc1c2_coverage.py:57-62 | over distinct nodes, `currency_found` is the number of in-range positions they hold |
| CoverPositions.CountedGrows | project2/kc1c2_coverage.py:57-58 | a node added to the solution adds its in-range positions |
| CoverPositions.GIndexInjective | project2/kc1c2_coverage.py:63-65 | distinct positions of a search tree have distinct places in the inorder visit that `after` follows |
| CoverPositions.PositionsBound | project2/kc1c2_coverage.py:63-65 | positions with distinct inorder places in a set of places are at most as many as the places |
| CoverPositions.CoveredBound | project2/kc1c2_coverage.py:69 | distinct nodes hold at most as many in-range keys as the whole tree, so an answer counting `k` proves `k` keys in `[c1, c2]` |
| KCover.StartPosition | project2/kc1c2_coverage.py:40-53 | AttributeError exactly on an empty tree; None exactly when every key is below `c1`; otherwise the position of the first key at least `c1`, stepping with the corrected `after` |
| KCover.CountNode | project2/kc1c2_coverage.py:60-62 | the inner `for j` loop counts exactly the node's keys in `[c1, c2]` |
| KCover.WalkedStep | project2/kc1c2_coverage.py:56-65 | moving past an in-range item held by a node of the solution keeps the walk's invariant |
| KCover.RangeGrows | project2/kc1c2_coverage.py:56 | every item the loop passes is in range |
| KCover.SeenGrows | project2/kc1c2_coverage.py:63-65 | the item `after` moves to has not been visited before |
| KCover.VisitNew | project2/kc1c2_coverage.py:57-62 | a node met for the first time joins the solution, which stays distinct nodes holding an in-range key, and adds its own count |
| KCover.Visit | project2/kc1c2_coverage.py:57-62 | one round: `p` joins the solution, with its count, exactly when it is not there yet |
| KCover.VisitFresh | project2/kc1c2_coverage.py:57-62 | a node met for the first time keeps the walk's invariant and the last node is the first to reach `k` |
| KCover.VisitAgain | project2/kc1c2_coverage.py:57 | a node met again changes nothing but the visited items |
| KCover.NoneInRange | project2/kc1c2_coverage.py:50-53 | with every key below `c1` no key is in range |
| KCover.InRangeSpan | project2/kc1c2_coverage.py:56 | in a sorted tree the in-range keys are exactly those from the first key at least `c1` up to the first beyond `c2` |
| KCover.SeenBound | project2/kc1c2_coverage.py:57-62 | the items visited belong to solution nodes, so there are at most `currency_found` of them |
| KCover.WalkComplete | project2/kc1c2_coverage.py:56-67 | a walk that stops at a key beyond `c2` or at the end has counted every in-range key |
| KCover.CoverWalk | project2/kc1c2_coverage.py:56-67 | the loop keeps distinct in-range nodes and their count, and stops below `k` only at a key beyond `c2` or at the end |
| KCover.Search | project2/kc1c2_coverage.py:7-69 | AttributeError exactly on an empty tree; None exactly when fewer than `k` keys lie in `[c1, c2]` (or, for `k <= 0`, every key is below `c1`); otherwise distinct nodes holding in-range keys that count at least `k`, the last node being the first to reach `k` |
| CoverRank.Nodes | project2/kc1c2_experimental_valutation.py:52 | `_, solution = zip(*solution)`: the nodes of the candidates, in order |
| CoverRank.InsertByCount | project2/kc1c2_experimental_valutation.py:44 | inserting a candidate adds it once and keeps every other |
| CoverRank.InsertKeepsOrder | project2/kc1c2_experimental_valutation.py:44 | inserting keeps the counts in non-increasing order |
| CoverRank.SortByCount | project2/kc1c2_experimental_valutation.py:44 | `solution.sort(key=_by_key, reverse=True)`: a permutation with counts largest first |
| CoverRank.SumFront | project2/kc1c2_experimental_valutation.py:46-48 | the running total read from the front |
| CoverRank.InsertSum | project2/kc1c2_experimental_valutation.py:44 | inserting a candidate adds its count to the total |
| CoverRank.SortSum | project2/kc1c2_experimental_valutation.py:44 | sorting keeps the total count |
| CoverRank.PermNoRepeats | project2/kc1c2_experimental_valutation.py:44 | sorting candidates of distinct nodes keeps them distinct |
| CoverRank.ShortestPrefix | project2/kc1c2_experimental_valutation.py:46-54 | ValueError exactly on no candidates; None exactly when all counts together stay below `k`; otherwise the nodes of the shortest non-empty prefix whose counts reach `k` |
| CoverRank.SumAtRemove | project2/kc1c2_experimental_valutation.py:46-48 | taking a candidate out of a selection takes its count out of the total |
| CoverRank.TopSum | project2/kc1c2_experimental_valutation.py:44-50 | with counts largest first, any `n` distinct candidates count at most the first `n` |
| CoverRank.SumGrows | project2/kc1c2_experimental_valutation.py:46-50 | the running total only grows |
| OptCover.AsWrittenCandidates | project2/kc1c2_experimental_valutation.py:29-36 | one candidate per visited item, pairing its node with the node's in-range count |
| OptCover.VisitsGrow | project2/kc1c2_experimental_valutation.py:29-41 | each visited in-range item adds a candidate for its node |
| OptCover.CandidatesAsWritten | project2/kc1c2_experimental_valutation.py:28-41 | line 31 as written, with the corrected `after`: the walk visits the in-range items from the start to the first key beyond `c2` or the end, one candidate per item |
| OptCover.OptSearchAsWritten | project2/kc1c2_experimental_valutation.py:8-54 | line 31 as written, with the corrected `after`: AttributeError exactly on an empty tree; None when every key is below `c1`; otherwise what the selection makes of one candidate per visited item |
| OptCover.ExampleInorder | project2/kc1c2_experimental_valutation.py:29 | the example tree is a search tree with keys 1 to 5 |
| OptCover.RepeatedRoot | project2/kc1c2_experimental_valutation.py:31 | on the example with `c1 = 2`, `c2 = 4`, `k = 3`, line 31 as written together with the corrected `after` answers the root twice, a list that covers only 2 keys |
| OptCover.ExampleAfterRaises | project2/kc1c2_experimental_valutation.py:37 | on the same example, the walk starts at the root's index 0, and `after` as written raises IndexError there because the root holds two elements, so the source as written never meets the root twice |
| OptCover.ExampleStart | project2/kc1c2_experimental_valutation.py:14-26 | the example's walk starts at its second item and keys 2 to 4 are in range |
| OptCover.ExampleWalk | project2/kc1c2_experimental_valutation.py:29-41 | the example's walk visits root key 2, the middle leaf and root key 4 |
| OptCover.ExampleCandidates | project2/kc1c2_experimental_valutation.py:31-36 | the three visits give the candidates root, leaf, root |
| OptCover.ExampleSorted | project2/kc1c2_experimental_valutation.py:44 | the stable sort puts both root candidates ahead of the leaf |
| OptCover.ExampleSelects | project2/kc1c2_experimental_valutation.py:46-54 | the two root candidates are the prefix that reaches 3 |
| OptCover.ExampleVisits | project2/kc1c2_experimental_valutation.py:29-41 | the three positions visited in the example are fixed |
| OptCover.CountsGrow | project2/kc1c2_experimental_valutation.py:36 | a node appended with its own count keeps every candidate paired with its count |
| OptCover.Appended | project2/kc1c2_experimental_valutation.py:36 | an appended candidate adds its node to the nodes and its count to the total |
| OptCover.CollectNew | project2/kc1c2_experimental_valutation.py:31-36 | a node met for the first time joins the candidates with its count |
| OptCover.CollectOld | project2/kc1c2_experimental_valutation.py:31 | a node met again leaves the candidates as they are |
| OptCover.VisitOnce | project2/kc1c2_experimental_valutation.py:30-41 | one round: the node becomes a candidate with its count exactly when it is not one already |
| OptCover.CollectStart | project2/kc1c2_experimental_valutation.py:11 | before the first round nothing is collected |
| OptCover.CandidatesOnce | project2/kc1c2_experimental_valutation.py:28-41 | the corrected walk collects each node met once with its count, up to a key beyond `c2` or the end |
| OptCover.SeenHits | project2/kc1c2_experimental_valutation.py:37-40 | every item between the start and the end of the walk was visited |
| OptCover.NodesComplete | project2/kc1c2_experimental_valutation.py:28-41 | a finished walk from the first key at least `c1` has met every node holding an in-range key |
| OptCover.SumIsCovered | project2/kc1c2_experimental_valutation.py:46-48 | the candidates' counts add up to the in-range keys of their nodes |
| OptCover.SortedFrom | project2/kc1c2_experimental_valutation.py:44 | every sorted candidate is one of the candidates |
| OptCover.SortedTo | project2/kc1c2_experimental_valutation.py:44 | every candidate is among the sorted ones |
| OptCover.SortedCounts | project2/kc1c2_experimental_valutation.py:44 | sorting keeps each node paired with its positive count |
| OptCover.SortedNodes | project2/kc1c2_experimental_valutation.py:44 | sorting keeps the nodes, each once |
| OptCover.Positive | project2/kc1c2_experimental_valutation.py:8-10 | dropping the nodes of a cover that hold no in-range key keeps what it covers |
| OptCover.Ranks | project2/kc1c2_experimental_valutation.py:44 | each node of a cover has its place among the sorted candidates |
| OptCover.RanksSum | project2/kc1c2_experimental_valutation.py:46-48 | the candidates of a cover's nodes count what the cover covers |
| OptCover.FewestNodes | project2/kc1c2_experimental_valutation.py:44-50 | when the first `m - 1` sorted candidates stay below `k`, so do any `m - 1` distinct nodes |
| OptCover.ChosenCover | project2/kc1c2_experimental_valutation.py:43-54 | on complete candidates: ValueError exactly when they count nothing, None exactly below `k`, otherwise a cover reaching `k` with the fewest nodes |
| OptCover.ChosenSome | project2/kc1c2_experimental_valutation.py:43-54 | the nodes chosen from complete sorted candidates cover at least `k`, with the fewest nodes for `k > 0` |
| OptCover.ChosenOutcome | project2/kc1c2_experimental_valutation.py:46-54 | with positive counts the selection fails exactly on none and answers None exactly below `k` |
| OptCover.PrefixCover | project2/kc1c2_experimental_valutation.py:46-54 | the shortest prefix reaching `k` is distinct nodes covering at least `k` |
| OptCover.PrefixFewest | project2/kc1c2_experimental_valutation.py:44-54 | for `k > 0` no list of distinct nodes reaching `k` is shorter than that prefix |
| OptCover.OptSearch | project2/kc1c2_experimental_valutation.py:8-54 | with the corrected `after` and the corrected line 31: AttributeError exactly on an empty tree; ValueError exactly when some key is at least `c1` but none lies in `[c1, c2]`; an answer exactly when at least `k` keys are in range, and it is distinct in-range nodes reaching `k` with the fewest nodes possible (`k > 0`) |

## Left out

- The `_create_graph` functions and the `Graph` class they fill are not part of this model: the tour code sees a `Graphs.Graph` value (vertices, neighbour lists in `incident_edges` order, edge weights) and the arbitrage code an `ArbitrageDetector.Digraph` (vertices and edges in `edges()` order).
- The base classes `Tree`, `MapBase`, `ProbeHashMap`, `AVLTreeMap` and `HeapPriorityQueue` are not part of this model; only the behaviour the shown code relies on is modelled (a sorted sequence for the denominations, the first minimum for the heap, an open-addressing table for the hash map).
- Floating point: amounts are whole cents, tour and arbitrage weights are integers, and none of `round(..., 10)`, `round(..., 3)`, `round(x - den, 2)`, `_float2int` or `_int2float` is modelled; `float('inf')` is an explicit infinite distance.
- DoubleHashing.DoubleHashingHashMap.constructor: requires `cap >= 4`, while `__init__` accepts any capacity; with `cap == 0` the first `_hash_function` divides by zero, and with `cap <= 3` the first second-hash step calls `prevprime` on a number below 3 and gets ValueError. The model does not capture those later failures.
- Load-factor floats and `get_load_factor` are left out; the resize thresholds are stated on the counters they compare.
- `sympy.prevprime` and `sympy.nextprime` are specification functions (largest prime below, smallest prime above), not algorithms.
- Randomness: `random.choice`, `shuffle`, `random()` and the MAD scale and shift are parameters (picks, draws, a shift, a coin), so each statement holds for every choice.
- `_rotate`'s `round(len(hc) * frac)` is given as the shift it evaluates to.
- Node identity: a tree node is named by its path from the root, so the `Position` wrappers, the `_parent` back-links, `_validate` on foreign or deprecated positions and the marking of deprecated nodes are left out.
- Python lists that the tree and tour code mutate in place are modelled as sequence values that the methods return or reassign; aliasing between two names for the same list is not captured.
- `Currency.copy` is left out: it shares the denomination tree and the rate map with the original, an aliasing the model, which holds both as values, cannot express.
- Printing and demo code (`__str__`, `__repr__`, `_print_tree`, debug prints, every `__main__` driver, `_montecarlo`, the `_populate_graph*` fixtures) is left out.
- project2/travelling-salesman.py is not part of this model: its functions are stubs and its graph construction only calls the foreign `Graph`.
- project2/exchange_tour/exchange_tour.py is not part of this model: it orchestrates a `hybridham` and a `dataset` module that are not available, with `math.log2` retry bounds.
- `_unreachable_vertex` is left out: it is an unimplemented stub.
- Loops that need not end are bounded by their inputs: the HybridHAM phases consume a finite sequence of draws and stop with `OutOfDraws` when it runs out, and `excange_tour` answers `Undecided` at that point; neither outcome exists in the source, which would keep looping.
- CoinChange.Change: requires at least one positive denomination, because without one no amount above 0 is ever solved and the source's `while True` loop never ends.
- CoinChange.ChangeRecurs: requires every denomination to be positive unless the value is 0, so a currency with a zero or negative denomination is modelled only for value 0. The excluded runs behave in two ways. With `canonical=False` and a value above 0, `_change_recursion` calls itself without end: every non-positive coin fits and never lowers the value. The model does not capture Python stopping that with RecursionError. Other excluded runs can end normally, and their answers are not modelled. With `canonical=True` the greedy chain can reach 0: `{0, 5}` with value 5 gives `(1, [5])`, and `{-1, 5}` with value 3 gives `(3, [-1, -1, 5])` by way of 4 and 5. With `canonical=False` a negative value can end too: `{-3, 5}` with value -3 gives `(1, [-3])`.
- ArbitrageDetector.ArbitrageOpportunity: proves that a returned cycle is a simple cycle through `s` along the graph's edges, but not that its weight is negative.
- ArbitrageDetector.ArbitrageOpportunity: the source's walk back along `prev` may loop forever; the model returns `Endless` there and proves that the walk indeed never reaches `s` again.
- Currency codes key the tree through their rank `CurrencyTree.CodeRank`, and are plain integers on the arbitrage graph; the tie between a code string and a graph vertex is left out.
- DoubleHashing.DoubleHashingHashMap.SetItem: promises success only when the table size is below `prevprime(2 * cap)`; that this always holds is Bertrand's postulate, which is not proved.
- Phase 1 of `hybridHAM` stops at `i > 0` and so never tries the start `Va[0]`; the model keeps that loop bound as written.
- HybridHamiltonian.HybridHam: phase 1 runs the corrected degree test (`HybridHamiltonian.FirstPhase`), not `Va[i] == Va[i + 1]` as line 30 of project2/excange_tour/hybridham.py writes it. On a graph with two or more vertices of top degree the source tries only `Va[n-1]`, so its phase-1 path, the phase-2 rotations that follow and the outcome can differ from the model's; the as-written phase 1 is `HybridHamiltonian.FirstPhaseAsWritten`.
- ExcangeTour.ExcangeTourSearch: builds its starting cycle with `HybridHamiltonian.HybridHam`, so it inherits the corrected phase-1 test described above.
- HybridHamiltonian.SortByDegree: states that the vertices come out in non-decreasing degree and as a permutation, not that the sort is stable.
- The approximation ratios the docstrings claim for the (k, C1, C2)-cover searches are not proved; the model states what the searches return.
- KCover.Search: the greedy search walks the tree with the corrected `after` (`ABTreeNav.PositionAfter`). As written, `after` (project1/abtree/abtree.py:153-163) succeeds only at a one-element internal node, where it moves to the first position of child 1. At a node with two or more elements it raises IndexError (lines 158-159). At a one-element leaf it returns `(None, 1)`, and the next `p.key(i)` raises AttributeError. So at every step the model takes from a leaf, or from a node of two or more elements, the source stops with one of those errors.
- KCover.StartPosition: steps past a key below `c1` with the corrected `after`, for the reason given in the line above. As written, that step raises IndexError or AttributeError, so the `return None` at line 53 of project2/kc1c2_coverage.py is never reached.
- OptCover.OptSearch: the start step and the walk use the corrected `after`, as `KCover.Search` does. As written, the source raises IndexError or AttributeError at line 22 or line 37 of project2/kc1c2_experimental_valutation.py in the same places, and its `return None` at line 26 is never reached.
- OptCover.OptSearchAsWritten: only line 31 is as written; the start step and the walk use the corrected `after`, as for `OptCover.OptSearch`.
- OptCover.CandidatesAsWritten: keeps line 31 as written but steps with the corrected `after`, as for `OptCover.OptSearch`.
- Currencies.Currency.New: refuses any code that is not exactly three capital letters, using the corrected `Currencies.ValidateIso4217` rather than the pattern as written. So `"EUR\n"`, which the source accepts, gets TypeError here. Every code downstream (`Currencies.CurrencyCode`, the tree key `CurrencyTree.CodeRank`) is therefore three capital letters.

## Findings

| source | as written | input that shows it | evidently intended | confidence | as-written member | corrected member |
|---|---|---|---|---|---|---|
| project1/currency.py:159-160 | `re.compile("^[A-Z]{3}$").match(s)`: `$` also matches before a final newline | `"EUR\n"` is accepted as a currency code | exactly three capital letters | not executed | Currencies.ValidateIso4217AsWritten, Currencies.TrailingNewlineAccepted | Currencies.ValidateIso4217, Currencies.Currency.New |
| project1/abtree/abtree.py:158 | `if not 0 >= i >= len(p.element()) - 1` | index 0 of the leaf `[1, 2]` raises IndexError, though element 2 follows it | `0 <= i <= len(p.element()) - 1`, as in `before` | not executed | ABTreeNav.AfterAsWritten, ABTreeNav.AfterGuardRejects, ABTreeNav.AfterGuardExample | ABTreeNav.PositionAfter, ABTreeNav.PositionAfterIsNext, KCover.StartPosition, KCover.Search, OptCover.CandidatesAsWritten, OptCover.OptSearchAsWritten, OptCover.CandidatesOnce, OptCover.OptSearch |
| project1/abtree/abtree.py:161 | `return None if i == len(p.element()) - 1 else p, i + 1` returns a pair whose first half may be None, and never climbs to an ancestor | in the tree with root `[2]` and leaves `[1]`, `[3]`, `after` on `1` answers `(None, 1)` although `2` follows | the next position in the natural order, found in an ancestor when `i` is the last index of a leaf; None only after the maximum | not executed | ABTreeNav.AfterAsWritten, ABTreeNav.LeafBoundaryExample | ABTreeNav.PositionAfter, ABTreeNav.PositionAfterIsNext, KCover.StartPosition, KCover.Search, OptCover.CandidatesAsWritten, OptCover.OptSearchAsWritten, OptCover.CandidatesOnce, OptCover.OptSearch |
| project1/abtree/abtree.py:173 | `return None if i == 0 else p, i-1` returns a pair whose first half may be None, and never climbs to an ancestor | in the tree with root `[2]` and leaves `[1]`, `[3]`, `before` on `3` answers `(None, -1)` although `2` precedes it | the previous position in the natural order, found in an ancestor when `i` is 0 at a leaf; None only before the minimum | not executed | ABTreeNav.BeforeAsWritten, ABTreeNav.LeafBoundaryExample | ABTreeNav.PositionBefore, ABTreeNav.PositionBeforeIsPrev |
| project2/excange_tour/hybridham.py:30 | `Va[i] == Va[i + 1]` compares two vertices | two distinct vertices of equal top degree: only the first is tried as a start | `deg(Va[i]) == deg(Va[i + 1])`, trying every vertex of the top degree | not executed | HybridHamiltonian.FirstPhaseAsWritten, HybridHamiltonian.TiesDiffer | HybridHamiltonian.FirstPhase, HybridHamiltonian.HybridHam, ExcangeTour.ExcangeTourSearch |
| project2/negative_cycle_detector.py:47 | `if V[s._code] not in g.vertices()` looks `s` up in `V` first | a currency not in the set raises KeyError instead of returning None | return None when `s` is not in the set | not executed | ArbitrageDetector.MissingAsWritten | ArbitrageDetector.ArbitrageOpportunity |
| project2/kc1c2_experimental_valutation.py:31 | `p not in solution` tests a position against a list of `(count, position)` pairs, so it is always true | with `after` corrected as in the abtree.py:158 and :161 rows, on the example tree with `c1 = 2`, `c2 = 4`, `k = 3` the root is a candidate twice and is returned twice; with `after` as written, line 37 raises IndexError on this tree first, and the walk never meets a node twice | each position a candidate once | not executed | OptCover.OptSearchAsWritten, OptCover.RepeatedRoot, OptCover.ExampleAfterRaises | OptCover.OptSearch |
