# NEMEA framework: proofs of its core data structures

A Dafny model of the data structures at the heart of the NEMEA framework, with proofs of what they are for.

- **IP prefix search** (`Addresses`, `IntervalSplit`, `IntervalList`, `IpPrefixSearch`, `IppsContext`, `PyPrefixSearch`): a list of
  networks is folded into disjoint intervals, split in place in a linked list, and searched by halving. For every address the
  answer is that of a scan of all networks. The Python twin, with its `hop` shortcut, builds the same list.
- **B+ tree** (`BPlusTree*`): every run of insertions, searches and deletions is a run on a finite map, the tree keeps its shape
  through cascading splits and merges, and iterating, even while deleting, visits every key once in order.
- **Domain tree** (`PrefixTree*`): a radix tree for each label. After any insertions a search succeeds exactly on the leading
  (trailing) parts of inserted strings, every string found has a domain of its own, the counters count the domains
  below, and a domain reads back as its string.
- **Fast hash table** (`FastHash*`): rows of four columns whose order of use is one byte driven by lookup tables. Each row is a
  move-to-front list; a full row gives up the item used longest ago; with the stash no key is stored twice, no item is lost
  unreported, and the one lost is the one stashed longest ago. The fast hash filter (`FastHashFilter`) is a finite map, and
  resizing it keeps the map.
- **TRAP accounting** (`Trap*`): sent containers tile the message numbers; the receiver's counts add up over losses and
  reconnects, and from end to end it misses exactly the messages of the containers left out.
- **Counting sort** (`CountingSort`): the stable sorted order, in place, or an error that tells what was wrong.
- **UniRec** (`UniRec*`): templates depend on the set of their fields and are read back from their printed form, types included;
  setting a field of variable length moves the bytes behind it so that every other field keeps its value.

Operations that change state are methods, mostly of classes, tied by their postconditions to functions on values or to the property
itself; the theorems are lemmas about those functions. `Arithmetic`, `Bytes`, `SlotBytes`, `Options` and `Sequences` are helpers.
Check everything with `dafny verify dfyconfig.toml`.

## What the code does not do

Nine properties do not hold of the code as it is. The members named say exactly when each does.

- Without buffering (`bufferswitch` 0) the first container is numbered 0 and every later one a message too low, because the next
  container is numbered before the count of processed messages goes up (`libtrap/src/ifc_tcpip.c:1610-1617`;
  `TrapSender.UnbufferedRun`, `TrapSender.RunTilesIff`). The receiver then computes a gap of minus one between the first two and
  counts 2^64 - 1 messages as missed (`TrapInput.UnbufferedMissed`).
- The header counts messages in 16 bits, but the buffer size is a parameter: from 131086 bytes on a container can hold 65536
  messages (`TrapSender.HeaderExact`, `TrapSender.HeaderWraps`).
- A timeout goes through the state `reset` as well, so a payload that comes late ends its session half-way: its number is off by its
  size, and the next container repeats it (`TrapReceiver.LateNumber`, `TrapReceiver.NumbersIncrease`). If another call completes it,
  the size handed out is the length in a local header that the call has not filled (`libtrap/src/ifc_tcpip.c:530-535`;
  `TrapInput.SizeKnown`).
- `counting_sort` computes the number of keys in 32 bits: for the full range it is 0, and every key is out of range although the
  documentation of CS_BAD_INDEX speaks of keys outside the range only (`CountingSort.Sort`).
- `ur_set_var` reads the offset table without a look at its size, unlike `ur_is_present`: for a field defined after the template
  was made it reads behind the table. It does what it promises for all fields that are in it (`UniRecFields.SetVar`,
  `UniRecFields.LaterFieldBehind`).
- Offsets and the static size of a template wrap at 16 bits: its fields tile the fixed part exactly when their widths add up to
  less than 65536 (`UniRecFields.LayoutIff`).
- The iterator of the fast hash filter computes the byte offsets of the first used slot of a row in 32 bits, those of the others in
  64: it finds the right bytes exactly when 32 bits can address the first used slot of every row
  (`FastHashFilter.IteratorAddresses`, `FastHashFilter.WrongItem`). From 2^32 rows on its loop over the rows does not end
  (`FastHashFilter.RowLoopEnds`).
- The iterator of the fast hash table computes all byte offsets in 32 bits: it hands out the right bytes exactly when 32 bits can
  address every used slot of rows and stash (`FastHashIteration.IteratorAddresses`, `FastHashIteration.WrongItem`).
- All functions that read or store items in the stash of the fast hash table compute byte offsets in 32 bits: from the first slot on
  that 32 bits cannot address, slots share their bytes (`SlotBytes.SlotsApart`).

`fht_insert` does not look at the stash; mixed with the stash-aware inserts it stores a key twice exactly when the stash holds it
(`FastHashOperations.InsertIgnoresStash`).

## Model

| member | source | states |
|---|---|---|
| Addresses.MaskedBlock | unirec/ip_prefix_search.c:196-218 | masking an address gives the ends of an aligned block of a power of two addresses |
| Addresses.PrefixMatchIsInterval | unirec/ip_prefix_search.c:196-218 | an address is between the ends of a masked network exactly when its leading bits are those of the network (section 3.1 of RFC 4632, section 2.3 of RFC 4291) |
| Addresses.CompareIsNumeric | unirec/ip_prefix_search.c:154-168 | comparing addresses in network order compares them as numbers |
| Addresses.MemCmpIsCompare | unirec/ip_prefix_search.c:154-168 | comparing two addresses byte by byte is comparing them bit by bit, and compares the numbers |
| Addresses.WordsStep | unirec/ip_prefix_search.c:291-336 | the borrow of `ip_dec` and the carry of `ip_inc` over 32-bit words are minus one and plus one, modulo the size of the address space |
| Addresses.IpInc | unirec/ip_prefix_search.c:318-336 | the carry loop in place computes the word sequence that `WordsStep` is about |
| Addresses.IpDec | unirec/ip_prefix_search.c:291-309 | the borrow loop in place computes the word sequence that `WordsStep` is about |
| IntervalSplit.BlocksNestOrSeparate | unirec/ip_prefix_search.c:196-218 | any two masked networks are nested or disjoint |
| IntervalSplit.StepCutsOneInterval | unirec/ip_prefix_search.c:668-860 | on sorted, masked networks a round of the fold appends, or cuts exactly one interval, which contains the whole new network: no error branch is reached and `ip_inc`/`ip_dec` never wrap |
| IntervalSplit.StepKeeps | unirec/ip_prefix_search.c:668-860 | a round keeps the list sorted, disjoint, within bounds and equivalent to the networks placed so far, and the conductor where the next network can be placed |
| IntervalSplit.FoldRepresents | unirec/ip_prefix_search.c:633-914 | the fold never fails; for every address the intervals say what a scan of all networks says, data in order; n networks make at most 2n-1 intervals |
| IntervalList.Node.CopyAllData | unirec/ip_prefix_search.c:556-577 | all data pointers of the source are appended in order, however the slots have to grow |
| IntervalList.Node.AddData | unirec/ip_prefix_search.c:586-610 | one data pointer is appended, however the slots have to grow |
| IntervalList.List.Place | unirec/ip_prefix_search.c:668-860 | a round on the linked list, in place, does what the fold does on its intervals, with the same error cases |
| IntervalList.List.ToArray | unirec/ip_prefix_search.c:885-913 | the array of `interval_counter` intervals is the list |
| IpPrefixSearch.CmpNetIsBlockOrder | unirec/ip_prefix_search.c:131-168 | the comparison by address and mask puts the larger of two blocks with one first address first |
| IpPrefixSearch.SortedBlocks | unirec/ip_prefix_search.c:131-168 | networks in the order of the comparison are what the fold demands |
| IpPrefixSearch.InitContext | unirec/ip_prefix_search.c:633-914 | builds the array of the fold, and fails exactly when the fold fails |
| IpPrefixSearch.BinarySearch | unirec/ip_prefix_search.c:928-995 | finds the interval that contains the address, or nothing exactly when none does |
| IpPrefixSearch.MatchesAreMatching | unirec/ip_prefix_search.c:928-995 | the scan of intervals is the scan of networks by prefix |
| IppsContext.MatchingPermuted | unirec/ip_prefix_search.c:411-545 | sorting does not change what data an address matches |
| IppsContext.SelectedMatching | unirec/ip_prefix_search.c:411-545 | splitting the list by address family does not change what an address matches |
| IppsContext.Context.constructor | unirec/ip_prefix_search.c:411-545 | masks the given networks in place and establishes the context invariant |
| IppsContext.IppsInit | unirec/ip_prefix_search.c:411-545 | null exactly for an empty list, else a context for the networks given |
| IppsContext.Context.Search | unirec/ip_prefix_search.c:928-995 | returns nothing exactly when no network given to `ipps_init` contains the address, else the data of all that do, each as often as given, in sorted order |
| IppsContext.SearchFinds | unirec/ip_prefix_search.c:928-995 | in an array built from the networks, the interval around an address holds the data of the networks that contain it |
| IppsContext.ShorterPrefixFirst | unirec/ip_prefix_search.c:131-168 | data of less specific prefixes comes first |
| PyPrefixSearch.PyFoldAgrees | pycommon/ip_prefix_search.py:243-346 | on sorted networks the TypeError is never returned and the list, with the `hop` shortcut, is the one the C code builds |
| PyPrefixSearch.CutAt | pycommon/ip_prefix_search.py:243-346 | inserting the pieces and popping the old interval replaces exactly that interval |
| PyPrefixSearch.SplitOne | pycommon/ip_prefix_search.py:243-346 | the inner loop does one step of the fold, with the same error case |
| PyPrefixSearch.SplitOverlapsIntervals | pycommon/ip_prefix_search.py:243-346 | the loop computes the fold; its list represents networks sorted by `__lt__` with at most 2n-1 intervals |
| PyPrefixSearch.IpSearch | pycommon/ip_prefix_search.py:395-437 | answers like a scan of the networks: not found, found without data, or the data in order |
| BPlusTreeNodes.LeafNode.IndexKey | common/b_plus_tree/b_plus_tree.c:110-119 | the index of the key in the node, -1 when it is not there |
| BPlusTreeNodes.LeafNode.Insert | common/b_plus_tree/b_plus_tree.c:188-221 | in the arrays: -1 when the key is there, else all larger items move up by one and the item is at its place |
| BPlusTreeNodes.LeafNode.DelItem | common/b_plus_tree/b_plus_tree.c:173-186 | in the arrays: the items behind the deleted one move down by one |
| BPlusTreeNodes.InnerNode.Insert | common/b_plus_tree/b_plus_tree.c:248-271 | in the arrays: a separator and its right child are put in at their place, the other entries keep their order |
| BPlusTreeInsert.GrowOk | common/b_plus_tree/b_plus_tree.c:352-475 | an insertion below a node leaves one node, or two with a separator, of the same height, sizes and key bounds, through leaf and inner splits |
| BPlusTreeInsert.InsertKeepsShape | common/b_plus_tree/b_plus_tree.c:352-475 | an insertion keeps all leaves at one depth, sizes between (m-1)/2 and m-1 keys, and separators at or above the left and below the right |
| BPlusTreeDelete.FixLeafOk | common/b_plus_tree/b_plus_tree.c:508-622 | leaf rotations and merges restore the sizes and separators of the parent |
| BPlusTreeDelete.FixInnerOk | common/b_plus_tree/b_plus_tree.c:624-738 | rotations and merges of inner nodes restore the sizes and separators of the parent |
| BPlusTreeDelete.ShrinkOk | common/b_plus_tree/b_plus_tree.c:508-738 | a deletion below a node leaves it well shaped but for its own size, cascading as far as needed |
| BPlusTreeDelete.DeleteKeepsShape | common/b_plus_tree/b_plus_tree.c:508-738 | a deletion keeps the shape; the tree loses a level only when the root has one child left |
| BPlusTreeContents.NodeItems | common/b_plus_tree/b_plus_tree.c:397-425 | the items of a subtree are in strict key order and within its bounds |
| BPlusTreeContents.RouteSplits | common/b_plus_tree/b_plus_tree.c:397-425 | the child the search descends to is the only one that may hold the key |
| BPlusTreeContents.SearchOk | common/b_plus_tree/b_plus_tree.c:397-475 | the search finds a key exactly when some leaf holds it, and then its value |
| BPlusTreeContents.GrowLeaves | common/b_plus_tree/b_plus_tree.c:352-475 | an insertion changes one leaf only; splits of inner nodes move, lose or repeat no leaf |
| BPlusTreeChain.ChainEdited | common/b_plus_tree/b_plus_tree.c:427-475 | splitting or merging leaves keeps the chain of `right` links over all leaves in order |
| BPlusTreeRemoval.FixInnerLeaves | common/b_plus_tree/b_plus_tree.c:624-738 | rotating and merging inner nodes leaves the sequence of leaves as it is |
| BPlusTreeRemoval.ShrinkTakes | common/b_plus_tree/b_plus_tree.c:508-738 | a deletion takes exactly the item of its key out of the leaves, through all rotations and merges |
| BPlusTreeMap.InsertItems | common/b_plus_tree/b_plus_tree.c:427-475 | an insertion fails exactly on a present key, else adds its item at its place and keeps shape and chain |
| BPlusTreeMap.DeleteItems | common/b_plus_tree/b_plus_tree.c:508-738 | a deletion fails exactly on an absent key, else removes its item and nothing else, and keeps shape and chain |
| BPlusTreeList.LeftmostIsFirst | common/b_plus_tree/b_plus_tree.c:740-746 | the leftmost leaf is the first of the chain |
| BPlusTreeList.LookedUpStands | common/b_plus_tree/b_plus_tree.c:321-333 | looking up a key gives the place of its item in the chain |
| BPlusTreeList.RemembersItsPlace | common/b_plus_tree/b_plus_tree.c:778-797 | the leaf and the index a list item remembers are where a search for its key ends, so deleting there is deleting by key |
| BPlusTreeApi.Bpt.Search | common/b_plus_tree/b_plus_tree.c:758-761 | agrees with the finite map of the items |
| BPlusTreeApi.Bpt.Insert | common/b_plus_tree/b_plus_tree.c:753-756 | fails exactly when the key is in the map, else adds it; `count_of_values` is the size of the map |
| BPlusTreeApi.Bpt.SearchOrInsert | common/b_plus_tree/b_plus_tree.c:748-751 | gives the value of the key, adding it if absent |
| BPlusTreeApi.Bpt.Delete | common/b_plus_tree/b_plus_tree.c:769-776 | removes exactly the key from the map, fails exactly when it is absent |
| BPlusTreeApi.Bpt.ListStart | common/b_plus_tree/b_plus_tree.c:804-816 | starts at the smallest key, fails exactly on an empty tree |
| BPlusTreeApi.Bpt.ListItemNext | common/b_plus_tree/b_plus_tree.c:845-866 | moves on to the next key in order, over leaf borders, and ends behind the largest |
| BPlusTreeApi.Bpt.ListItemDel | common/b_plus_tree/b_plus_tree.c:778-797 | removes the item stood at and moves to the one behind it, although leaves rotate and merge |
| BPlusTreeApi.Bpt.Sweep | common/b_plus_tree/b_plus_tree.c:778-866 | over a whole run, with any of the steps replaced by deletions, every key is visited once in ascending order and exactly the others remain |
| PrefixTreeInsert.SplitFinds | common/prefix_tree/prefix_tree.c:545-585 | splitting a node changes no search |
| PrefixTreeInsert.NewItemFinds | common/prefix_tree/prefix_tree.c:511-541 | in a new node exactly the word and its leading runs of labels are found |
| PrefixTreeInsert.AddFinds | common/prefix_tree/prefix_tree.c:762-868 | after an insertion below a node, what was found is found at the same domain, and besides exactly the word and its leading runs of labels, at new domains; the word is found at the domain returned |
| PrefixTreeInsert.AddGrows | common/prefix_tree/prefix_tree.c:379-454 | an insertion keeps every child at the index of its first letter, and every node and domain counting the domains below it |
| PrefixTreeRuns.InsertThenSearch | common/prefix_tree/prefix_tree.c:1021-1034 | a search after an insertion succeeds on what it succeeded on before, at the same domain, and on the parts of the inserted string |
| PrefixTreeRuns.InsertKeeps | common/prefix_tree/prefix_tree.c:1021-1034 | an insertion keeps the tree invariant, the root counters included |
| PrefixTreeRuns.PartIsLeading | common/prefix_tree/prefix_tree.c:654-760 | trailing parts of strings are leading parts of the strings read backwards |
| PrefixTreeRuns.LeadingIsLabels | common/prefix_tree/prefix_tree.c:490-507 | a leading part is a leading run of the label sequence |
| PrefixTreeRuns.Run | common/prefix_tree/prefix_tree.c:60-118 | every tree that insertions reach is well shaped, and `count_of_string` and `count_of_different_subdomains` count the domains below |
| PrefixTreeRuns.RunFinds | common/prefix_tree/prefix_tree.c:941-1003 | after any run of insertions a search succeeds exactly on the empty string and the leading parts (suffix tree: trailing parts) of inserted strings |
| PrefixTreeRead.SearchLoop | common/prefix_tree/prefix_tree.c:941-1003 | the loop with its index running up or down the string computes the search |
| PrefixTreeRead.TrailSpells | common/prefix_tree/prefix_tree.c:606-652 | the letters on the way to a domain spell the word it is found at |
| PrefixTreeRead.Length | common/prefix_tree/prefix_tree.c:587-602 | the length of the string is computed on the way up |
| PrefixTreeRead.ReadPrefix | common/prefix_tree/prefix_tree.c:613-633 | the buffer filled from its end holds the word, separators in place, and ends with 0 |
| PrefixTreeRead.ReadSuffix | common/prefix_tree/prefix_tree.c:634-650 | the buffer filled from its start holds the word from its end, and ends with 0 |
| PrefixTreeWay.WayIsPassed | common/prefix_tree/prefix_tree.c:606-652 | the way up from a domain is passed by a search that ends there |
| PrefixTreeWay.WayIsTrail | common/prefix_tree/prefix_tree.c:606-652 | after any run of insertions, the way up from the domain of a string is the one a search for the string takes |
| PrefixTreeWay.ReadString | common/prefix_tree/prefix_tree.c:606-652 | after any run of insertions, a domain reads back as the string that is found there, in both directions |
| PrefixTreeDomains.AddOrder | common/prefix_tree/prefix_tree.c:762-868 | of the domains one insertion makes, those of shorter strings come first, so they differ |
| PrefixTreeDomains.FoundOrMade | common/prefix_tree/prefix_tree.c:1021-1034 | what a search finds after an insertion was found before at the same domain, or is a new domain of a part of the inserted string |
| PrefixTreeDomains.OneStringPerDomain | common/prefix_tree/prefix_tree.c:1021-1034 | after any run of insertions, strings found at one domain are one string |
| PrefixTreeApi.DomainStore.constructor | common/prefix_tree/prefix_tree.c:60-98 | an empty tree; the separator is the letter that as a signed char is equal to the number given, if there is one |
| PrefixTreeApi.DomainStore.Insert | common/prefix_tree/prefix_tree.c:1021-1034 | the domain given back is the one a search for the string ends at, and all strings found before keep their domains |
| PrefixTreeApi.DomainStore.ReadString | common/prefix_tree/prefix_tree.c:606-652 | any domain that an insertion gave back reads back as the string inserted then, whatever was inserted and split since |
| PrefixTreeApi.DomainStore.Lookup | common/prefix_tree/prefix_tree.c:941-1003 | succeeds exactly on parts of inserted strings, each at a domain of its own |
| FastHashLookup.FrontEntry | common/fast_hash_table/fast_hash_table.c:80-146 | for all 24 replacement bytes and all columns: the entry of the insert table makes the column newest and keeps the order of the others |
| FastHashLookup.BackEntry | common/fast_hash_table/fast_hash_table.c:153-219 | for all 24 replacement bytes and all columns: the entry of the remove table makes the column oldest and keeps the order of the others |
| FastHashLookup.OldestOrder | common/fast_hash_table/fast_hash_table.c:226-291 | the index table names the oldest column |
| FastHashLookup.FreeEntry | common/fast_hash_table/fast_hash_table.c:60-71 | the free-flag table names the first free column, and adding its power of two sets just its bit |
| FastHashLookup.FrontOrder | common/include/fast_hash_table.h:102-115 | as an order of the columns, the insert table is one step of move-to-front |
| FastHashLookup.BackOrder | common/include/fast_hash_table.h:102-115 | as an order of the columns, the remove table moves the column to the end |
| FastHashRow.FindFinds | common/fast_hash_table/fast_hash_table.c:461-501 | the four tests find a key exactly when the list of the row has it, at the rank of its column |
| FastHashRow.TouchedPromotes | common/include/fast_hash_table.h:287-295 | using an item moves it to the front of the list of its row |
| FastHashRow.AddedPushes | common/fast_hash_table/fast_hash_table.c:503-516 | a new item goes to the front; the occupied columns keep the lowest ranks |
| FastHashRow.ReplacedEvicts | common/fast_hash_table/fast_hash_table.c:517-538 | in a full row the last item of the list goes, and the new one is in front |
| FastHashRow.RemovedDrops | common/fast_hash_table/fast_hash_table.c:956-985 | removing an item closes the gap in the list; the occupied columns keep the lowest ranks |
| FastHashOperations.InsertConserves | common/fast_hash_table/fast_hash_table.c:450-538 | what is stored afterwards is what was stored, plus the new item, minus exactly the item reported lost; fails exactly when the row has the key |
| FastHashOperations.InsertIgnoresStash | common/fast_hash_table/fast_hash_table.c:450-538 | it keeps every key in one place exactly when the stash does not hold the new one |
| FastHashOperations.InsertWrKeepsAll | common/fast_hash_table/fast_hash_table.c:552-628 | loses nothing; when it does not insert it changes nothing but recency |
| FastHashOperations.InsertWithStashConserves | common/fast_hash_table/fast_hash_table.c:647-790 | keeps every key in one place over rows and stash and conserves items up to the one reported lost; which answer comes when, and which item is reported |
| FastHashOperations.InsertWithStashWrKeepsAll | common/fast_hash_table/fast_hash_table.c:808-945 | loses nothing, keeps every key in one place, is full exactly when row and stash are, and then changes nothing but recency |
| FastHashOperations.GetDataFinds | common/include/fast_hash_table.h:406-475 | a lookup finds what is stored and changes nothing but recency |
| FastHashOperations.RemoveTakes | common/fast_hash_table/fast_hash_table.c:1032-1081 | a removal takes out exactly the item of the key, if it is stored |
| FastHashConservation.LookupFindsContents | common/include/fast_hash_table.h:406-475 | with no key twice the stored items are a map, and a lookup reads it |
| FastHashRuns.RunConserves | common/fast_hash_table/fast_hash_table.c:647-945 | over any run of the stash-aware operations from an empty table no key is stored twice, what was taken in is stored or was reported, removed or cleared, and every item is in the row of its hash |
| FastHashRuns.RunByUse | common/include/fast_hash_table.h:102-115 | over any run the list of each row is in the order of last use |
| FastHashRuns.EvictsLeastRecentlyUsed | common/fast_hash_table/fast_hash_table.c:647-945 | after any run, whichever insert makes a full row give up an item, it is the one of that row used longest ago: it is the one reported lost, or the one found in its stash slot |
| FastHashStash.EverySlotOnce | common/fast_hash_table/fast_hash_table.c:764-765 | among as many turns in a row as there are stash slots, every slot has exactly one |
| FastHashStash.NextInTurn | common/fast_hash_table/fast_hash_table.c:763-765 | over any run of all operations from a stash index of 0, it counts the items moved to the stash |
| FastHashStash.LatestAreStashed | common/fast_hash_table/fast_hash_table.c:740-766 | after any run of inserts and lookups from an empty table, the stash holds exactly the latest items that full rows gave up, as many as it has slots, item j in slot j modulo the size, and the index is where the next one goes |
| FastHashStash.LosesOldestStashed | common/fast_hash_table/fast_hash_table.c:746-758 | after any run of inserts, lookups, removals and clearings from an empty table, the item the next insert reports lost from the stash is the one moved there a whole round of slots before; without removals and clearings, none is lost while a slot is free |
| FastHashTable.HashTable.constructor | common/fast_hash_table/fast_hash_table.c:310-430 | an empty table; the default replacement byte is one of the 24 |
| FastHashTable.HashTable.Insert | common/fast_hash_table/fast_hash_table.c:450-538 | the arrays after `fht_insert` are what the list operation says |
| FastHashTable.HashTable.InsertWr | common/fast_hash_table/fast_hash_table.c:552-628 | the arrays after `fht_insert_wr` are what the list operation says |
| FastHashTable.HashTable.InsertWithStash | common/fast_hash_table/fast_hash_table.c:647-790 | the arrays and the stash after `fht_insert_with_stash` are what the list operation says, and no key is stored twice |
| FastHashTable.HashTable.InsertWithStashWr | common/fast_hash_table/fast_hash_table.c:808-945 | the arrays and the stash after `fht_insert_with_stash_wr` are what the list operation says, and no key is stored twice |
| FastHashTable.HashTable.GetData | common/include/fast_hash_table.h:275-330 | the arrays after `fht_get_data`, and the data found, are what the list operation says |
| FastHashTable.HashTable.GetDataWithStash | common/include/fast_hash_table.h:406-475 | the arrays after `fht_get_data_with_stash`, and the data found, are what the list operation says |
| FastHashTable.HashTable.Remove | common/fast_hash_table/fast_hash_table.c:956-985 | the arrays after `fht_remove` are what the list operation says |
| FastHashTable.HashTable.RemoveWithStash | common/fast_hash_table/fast_hash_table.c:1032-1081 | the arrays and the stash after `fht_remove_with_stash` are what the list operation says |
| FastHashTable.HashTable.Clear | common/fast_hash_table/fast_hash_table.c:1173-1197 | all rows and the stash are empty |
| FastHashIteration.Iter.GetNext | common/fast_hash_table/fast_hash_table.c:1277-1341 | stops at the next used slot, rows column by column and then the stash, and points at the bytes that 32-bit offsets give; ends exactly when none follows |
| FastHashIteration.Iter.RemoveCurrent | common/fast_hash_table/fast_hash_table.c:1140-1166 | takes out the item stood at, if it is still there: its row or stash slot loses exactly that item, and nothing else changes |
| FastHashIteration.IteratorAddresses | common/fast_hash_table/fast_hash_table.c:1283-1330 | all offsets are computed in 32 bits: every used slot is looked up at its own bytes exactly when 32 bits can address each of them |
| FastHashIteration.WrongItem | common/fast_hash_table/fast_hash_table.c:1283-1330 | where the key of a used slot starts at 2^32, the key of the first slot is handed out in its place |
| FastHashIteration.Sweep | common/fast_hash_table/fast_hash_table.c:1277-1341 | a whole iteration of any table stops at each used slot exactly once and hands out the bytes at its offsets; they are the item in it where every slot is looked up at its own bytes |
| SlotBytes.SlotsApart | common/fast_hash_table/fast_hash_table.c:703-763 | stash offsets are computed in 32 bits: the slots share no byte exactly when the last one can be addressed |
| FastHashIteration.UsedSlotsHoldContents | common/fast_hash_table/fast_hash_table.c:1277-1341 | the used slots hold exactly the stored items |
| FastHashFilter.Filter.RowCrowd | common/include/fast_hash_filter.h:236-311 | a row holds at most eight of the keys, and exactly eight when it is full |
| FastHashFilter.Filter.Insert | common/include/fast_hash_filter.h:236-311 | fails exactly on a stored key, is full exactly when the row of the hash of a new key is; else the map has the item, and otherwise stays as it was |
| FastHashFilter.Filter.GetData | common/include/fast_hash_filter.h:500-539 | reads the map |
| FastHashFilter.Filter.Remove | common/include/fast_hash_filter.h:635-656 | takes the key out of the map, if it is there |
| FastHashFilter.Filter.GetNextIter | common/include/fast_hash_filter.h:729-771 | the next used slot, column by column and row by row, and the offsets its bytes are looked up at: in 32 bits for the first used slot of a row, in 64 for the others |
| FastHashFilter.IteratorAddresses | common/include/fast_hash_filter.h:729-771 | every used slot is looked up at its own bytes exactly when 32 bits can address the first used slot of every row |
| FastHashFilter.RowLoopEnds | common/include/fast_hash_filter.h:747 | the loop over the rows counts in 32 bits: it ends exactly for less than 2^32 rows |
| FastHashFilter.WrongItem | common/include/fast_hash_filter.h:747-760 | where the key of the first used slot of a row starts at 2^32 the key of slot 0 is read; if that slot is used, too, a key is read twice, and no resize can succeed |
| FastHashFilter.ReadsAreStored | common/include/fast_hash_filter.h:817-822 | where every slot is looked up at its own bytes, the iterator reads every stored key once, and no other |
| FastHashFilter.InsertableIsFits | common/include/fast_hash_filter.h:808-823 | there a new table can take what is read exactly when no row gets more than eight of the stored keys |
| FastHashFilter.AllMoved | common/include/fast_hash_filter.h:808-823 | there what has been moved at the end is the map |
| FastHashFilter.OneTooMany | common/include/fast_hash_filter.h:817-822 | an item that finds its new row full is one of nine that belong there |
| FastHashFilter.CannotInsert | common/include/fast_hash_filter.h:817-822 | an item that is not inserted has a key that was read before or is one of nine of its row, so the new table cannot take all |
| FastHashFilter.MoveItems | common/include/fast_hash_filter.h:817-822 | inserts what the iterator reads, slot by slot; stops early only if a key is read twice or a row gets more than eight |
| FastHashFilter.MoveAll | common/include/fast_hash_filter.h:808-823 | an attempt succeeds exactly when the iterator reads no key twice and no row gets more than eight, and then gives a table of what was read: where every slot is looked up at its own bytes, the same map |
| FastHashFilter.Resize | common/include/fast_hash_filter.h:789-836 | attempt n is for a table of 2^n times the rows; the first that can take what the iterator reads ends the resize with a table of just that; the old table stays exactly when an allocation fails before or 2^n times the rows exceed 2^63; where every slot is looked up at its own bytes, the new table has the same map |
| TrapContainer.ReadUndoesPayload | libtrap/src/trap.c:296-320 | reading the packed bytes of a container gives the messages that were inserted, in order |
| TrapContainer.HeaderReadBack | libtrap/src/trap_container.h:208-220 | a header is read back from its 14 bytes, each field as far as its bytes can hold it |
| TrapContainer.HeaderLayout | libtrap/src/trap_container.h:208-220 | which byte of the header is which byte of which field: the length from its most significant byte on, number and count from their least significant |
| TrapContainer.UsedBound | libtrap/src/trap_container.h:164-177 | a message takes two bytes at least |
| TrapContainer.Container.Insert | libtrap/src/trap_container.h:164-177 | the bytes in use stay the packed messages; the new bytes are the length of the message in two bytes, most significant first, and the message |
| TrapContainer.Container.WriteHeader | libtrap/src/trap_container.h:208-220 | the first 14 bytes are the payload length in network order, the number, and the count of messages in 16 bits; the messages stay |
| TrapSender.SendTiles | libtrap/src/ifc_tcpip.c:1571-1620 | with buffering on, a send keeps containers and open container tiling the messages in number and content |
| TrapSender.SentKeepsAll | libtrap/src/ifc_tcpip.c:1576-1620 | in bytes: a message of at most 16 bytes less than the buffer is the next one after all messages in containers and in the open one, and no other message changes anything |
| TrapSender.FlushedKeepsAll | libtrap/src/ifc_tcpip.c:1514-1534 | a flush moves the open messages, if any, into a container and keeps all of them in order |
| TrapSender.LogIsMessages | libtrap/src/ifc_tcpip.c:1576-1620 | the log of a run is exactly its messages of at most 16 bytes less than the buffer, in order |
| TrapSender.FlushTiles | libtrap/src/ifc_tcpip.c:1514-1534 | a flush keeps the tiling and leaves an empty open container |
| TrapSender.SendTilesIff | libtrap/src/ifc_tcpip.c:1609-1617 | a send keeps the tiling exactly when buffering is on or the message fits no container |
| TrapSender.UnbufferedRun | libtrap/src/ifc_tcpip.c:1609-1617 | after any run without buffering, every message is in a container of its own, the first numbered 0 and every later one a message too low |
| TrapSender.RunTilesIff | libtrap/src/ifc_tcpip.c:1571-1620 | after any run, the containers tile the messages exactly when buffering is on or nothing was sent |
| TrapSender.RunTiles | libtrap/src/ifc_tcpip.c:1571-1620 | after any run of sends and flushes with buffering on, container numbers tile the messages sent |
| TrapSender.PacketsInOrder | libtrap/src/ifc_tcpip.c:1514-1617 | each container starts where the one before it ends |
| TrapSender.WireReadBack | libtrap/src/trap_container.h:208-220 | from the bytes of a container its messages are read, and header fields as far as they hold |
| TrapSender.HeaderExact | libtrap/src/trap_container.h:208-220 | in a container below 131086 bytes the size read from its header is the number of its messages |
| TrapSender.HeaderWraps | libtrap/src/trap_container.h:208-220 | from 131086 bytes on there is a run that sends a container of 65536 messages with size 0 in its header |
| TrapSender.Sender.Send | libtrap/src/ifc_tcpip.c:1571-1620 | the container in its buffer after `tcpip_sender_send` is what the tiling says: a message that fits the buffer is stored after all before it, any other changes nothing |
| TrapSender.Sender.Flush | libtrap/src/ifc_tcpip.c:1514-1534 | the container in its buffer after `tcpip_sender_flush` is what the tiling says: empty, with its messages in a container of their own |
| TrapReceiver.NumberIsNext | libtrap/src/ifc_tcpip.c:492-562 | the number handed out with a container is one more than all records received or counted missed before it |
| TrapReceiver.ResetKeeps | libtrap/src/ifc_tcpip.c:368-382 | a reset moves the session into the totals and loses no record |
| TrapReceiver.Final | libtrap/src/ifc_tcpip.c:368-509 | over any run, whatever the headers say, received plus missed is last number plus last size minus first number in the session, and the total number over all sessions before |
| TrapReceiver.SeenGrows | libtrap/src/ifc_tcpip.c:490-509 | while containers come in order, what was received and missed never shrinks |
| TrapReceiver.AscendingIsOrderly | libtrap/src/ifc_tcpip.c:490-509 | containers that start in the order of their numbers never make a negative gap |
| TrapReceiver.NumbersIncrease | libtrap/src/ifc_tcpip.c:552-562 | while containers come in order, over any losses, disconnects and reconnects the numbers strictly increase if and only if no container arrives whole next after one whose payload came late |
| TrapReceiver.LateNumber | libtrap/src/ifc_tcpip.c:530-545 | a payload that comes late makes its container's number too high by its own size |
| TrapInput.Receiver.CountHeader | libtrap/src/ifc_tcpip.c:490-509 | for any header, the fields are the counters after it in 64 bits |
| TrapInput.Receiver.ResetSession | libtrap/src/ifc_tcpip.c:368-382 | the fields are the counters after a reset in 64 bits |
| TrapInput.Receiver.DoRound | libtrap/src/ifc_tcpip.c:345-548 | one round of the state machine is the event that its answers from the network, and whether a payload was pending and the client connected, make |
| TrapInput.Receiver.RecvSeqNumber | libtrap/src/ifc_tcpip.c:317-562 | for whatever the network answers, the events of a call are those of its rounds in order, with the numbers and sizes of their headers; it ends with the result of the round that ends it, as terminated only after all rounds, in the counters of its events in 64 bits, and hands out exactly their number, and as the size the length in the last header that arrived in the call |
| TrapInput.Receiver.Recv | libtrap/src/ifc_tcpip.c:317-548 | the events, the link and the result of the rounds of a call are those of the course that the answers of the network make |
| TrapCalls.CallStarts | libtrap/src/ifc_tcpip.c:492-545 | event k of a call is that of round k: a header that arrives makes an event with its own number and size, of a kind that its payload decides |
| TrapCalls.CallEnds | libtrap/src/ifc_tcpip.c:345-548 | when a call ends and how: received with a whole container or late payload, timed out in a failed round whose time is up, format mismatch without an event, terminated only when all rounds went on |
| TrapCalls.FirstRound | libtrap/src/ifc_tcpip.c:383-548 | the event of the first round from the answers alone, and a container that arrives whole ends the call |
| TrapCalls.NextRound | libtrap/src/ifc_tcpip.c:383-548 | what a round comes after: a broken connection has to be made again, and a payload that timed out is read before any header |
| TrapCalls.CallSnoc | libtrap/src/ifc_tcpip.c:345-548 | a call over one more round adds the event of that round in the state reached, and a round that ends the call is its last |
| TrapInput.SizeKnown | libtrap/src/ifc_tcpip.c:530-535 | a call that hands out a container knows its size exactly when the header arrived in the same call, as it does unless a late payload was left from before |
| TrapInput.PacketInLog | libtrap/src/ifc_tcpip.c:1514-1617 | message k of a container is the message at its number plus k |
| TrapDelivery.NumbersArePlaces | libtrap/src/ifc_tcpip.c:552-562 | in one session, messages are at the places of the log that their headers say, and their numbers are as far apart as those places |
| TrapDelivery.Delivered | libtrap/src/ifc_tcpip.c:317-562 | from end to end: whichever containers of a buffered run arrive, in order and with any disconnects and delays between them, the numbers are one more than what arrived or was left out before, missed is exactly the messages of the containers left out within a session, and the numbers strictly increase unless a container arrives whole upon a late one |
| TrapInput.SenderFollows | libtrap/src/ifc_tcpip.c:492-509 | containers of one sender that arrive in order can be counted, and what is counted missed is exactly the messages of the ones between |
| TrapInput.UnbufferedMissed | libtrap/src/ifc_tcpip.c:492-499 | without buffering the second container does not follow the first, and the 64-bit missed count becomes 2^64 - 1 |
| TrapInput.UnbufferedFollows | libtrap/src/ifc_tcpip.c:492-499 | after that, unbuffered containers follow each other and nothing is counted missed |
| TrapInput.InputBuffer.Next | libtrap/src/trap.c:296-320 | hands out the next message of the buffer with the next number, and nothing where fewer bytes are left than the message says |
| TrapInput.ReadAll | libtrap/src/trap.c:260-330 | a container is read message by message, in order, numbered one by one |
| CountingSort.RanksOrder | common/counting_sort/counting_sort.c:97-131 | ranks compare as the items do: by key in the order asked for, and among equal keys by place in the input |
| CountingSort.EverySlotRanked | common/counting_sort/counting_sort.c:97-131 | every output slot is the rank of an item, so each is written once |
| CountingSort.PlacedIsSorted | common/counting_sort/counting_sort.c:97-131 | an output with every item at its rank is sorted and stable |
| CountingSort.Count | common/counting_sort/counting_sort.c:85-95 | the histogram, or a stop exactly when a key is not below the number of keys |
| CountingSort.SumAscending | common/counting_sort/counting_sort.c:117-120 | in place, each entry becomes the end of the slots of its key |
| CountingSort.SumDescending | common/counting_sort/counting_sort.c:99-102 | in place, each entry becomes the end of the slots of its key in descending order |
| CountingSort.Place | common/counting_sort/counting_sort.c:104-114 | the backward loop puts every item at its rank |
| CountingSort.Sort | common/counting_sort/counting_sort.c:68-137 | success puts every item at its rank in either order; BAD_PARAM and BAD_INDEX exactly in their cases, and then the output is unchanged |
| UniRecTemplate.OneOrder | unirec/unirec.c:791-802 | fields can be put in the order of `compare_fields` in one way only |
| UniRecTemplate.BySizeThenName | unirec/unirec.c:791-802 | in any template a field in front of another is larger, or as large with a name that is a proper prefix of the other or has the smaller letter where they first differ |
| UniRecTemplate.TemplateOfSet | unirec/unirec.c:906-1092 | a template is determined by the set of its fields: ids, offsets, size and first variable field |
| UniRecTemplate.LaterTemplate | unirec/unirec.c:1036-1064 | fields defined later change nothing in a template |
| UniRecTemplate.FieldsTile | unirec/unirec.c:1042-1062 | the fields tile the fixed part without a gap or an overlap |
| UniRecTemplate.OffsetsInARow | unirec/unirec.c:1045-1064 | the first field is at offset 0, each other one behind the one in front of it, which takes its size or four bytes if it varies, in 16 bits; the static size is where the last one ends |
| UniRecTemplate.DynamicLast | unirec/unirec.c:1042-1062 | exactly the fields from the first variable one on vary in length |
| UniRecTemplate.Create | unirec/unirec.c:906-1092 | fails exactly on an unknown name, else makes the template of the set of named fields, whatever their order and repetition |
| UniRecTemplate.Fill | unirec/unirec.c:1045-1064 | the loop fills in the offsets and the size, in 16 bits, and the first variable field |
| UniRecText.TemplateString | unirec/unirec.c:257-290 | prints the fields as "type name" with delimiters between them |
| UniRecText.FormatToFieldNames | unirec/unirec.c:438-488 | what is cut out of a format, and the assertion on the buffer size holds |
| UniRecText.FormatNamesOf | unirec/unirec.c:438-488 | a format of types and names, with any white space around them, is reduced to the names |
| UniRecText.ParseNames | unirec/unirec.c:906-965 | cuts as many names out of a field string as it has commas, and one |
| UniRecText.ReadIsWords | unirec/unirec.c:906-965 | the names read are the words of the text in order, and empty when there are no more |
| UniRecText.NamesAreWords | unirec/unirec.c:906-965 | exactly the words of a text are read if and only if there is one comma less than words; a leading comma makes the first name empty |
| UniRecText.CreateTemplate | unirec/unirec.c:906-1092 | fails exactly when a name read is unknown, else makes the template of the set of names |
| UniRecText.CreateTemplateFromIfcSpec | unirec/unirec.c:631-640 | makes the template of the set of names of the format |
| UniRecText.PrintedNames | unirec/unirec.c:257-290 | the names of a printed template are read back in order |
| UniRecText.PrintedTemplate | unirec/unirec.c:257-290 | reading a printed template makes the template that was printed |
| UniRecFormat.GetTypeAndName | unirec/unirec.c:372-436 | cuts the first type and name out of a format |
| UniRecFormat.TypesAndNames | unirec/unirec.c:567-616 | reads the types and names of a format, one after the other |
| UniRecFormat.PairsOf | unirec/unirec.c:372-436 | a format of types and names, with any white space around them, is read as these types and names |
| UniRecFormat.PrintedPairs | unirec/unirec.c:257-290 | a printed template is read back with the type and the name of each field, in order |
| UniRecFormat.StrayWord | unirec/unirec.c:438-488 | a format is turned down as soon as the name of an entry is followed by another word instead of a comma |
| UniRecRecord.ReadFromSlot | unirec/include/unirec/unirec.h:442-475 | what a reader finds at the offset and of the length that are in the slot of a field, two bytes each, is its value |
| UniRecRecord.MemMove | unirec/unirec.c:1153 | moves a range over itself in either direction |
| UniRecRecord.MoveOffsets | unirec/unirec.c:1138-1152 | the offsets behind the changed field are those of the new layout |
| UniRecRecord.ChangeSize | unirec/unirec.c:1132-1156 | makes room in place: slots are those of the new layout, values in front stay and values behind have moved |
| UniRecRecord.SetValue | unirec/unirec.c:1158-1174 | the record is laid out, without a gap, with the new value in place of the old one; nothing else in the fixed part changes |
| UniRecFields.TemplateHasLayout | unirec/unirec.c:906-1092 | a template whose fields fit 16 bits gives its records disjoint slots within the fixed part, also after more fields were defined |
| UniRecFields.LayoutIff | unirec/unirec.c:1045-1064 | a template has a layout exactly when the widths of its fields add up to less than 65536 |
| UniRecFields.SetOne | unirec/unirec.c:1158-1174 | the field set has its new value, every other field, fixed or variable, the one it had |
| UniRecFields.SetVar | unirec/unirec.c:1158-1174 | for a field of the offset table, fails exactly when it is absent or of fixed size, else sets that field only; any other field is read behind the table |
| UniRecFields.LaterFieldBehind | unirec/unirec.c:1158-1162 | behind the offset table are exactly the fields defined after the template was made; it has none of them, and a template of the same fields that is made now has them in its table |
| UniRecFields.CopyFields | unirec/unirec.c:1259-1289 | between different templates, all fields in both records get the value of the source, all others keep theirs |
| UniRecFields.CopyRecord | unirec/unirec.c:1265-1270 | with one template, copying the bytes of a record copies all of its values and nothing behind them |
| UniRecCreate.CreateRecord | unirec/unirec.c:1220-1226 | a new record has the size asked for, at most 65535 bytes, all of them 0, and empty values in all fields that vary |
| UniRecCreate.ClearVarlen | unirec/unirec.c:1201-1208 | whatever the bytes were, they become a record whose fields that vary are empty; the fields of fixed size keep their values |
| UniRecCreate.VarlenSize | unirec/unirec.c:1210-1217 | the lengths of all values together, in 16 bits |
| UniRecCreate.CloneRecord | unirec/unirec.c:1249-1257 | a clone has the bytes up to the end of the values, and so all values, of the original |

## Left out

- IntervalList.List.Place: an interval and the list node around it are one object, and an array of data pointers is a sequence with a capacity.
- IntervalList.Node.CopyAllData: what is proved of the growing of the slots is that they suffice; the copying of slots is not modelled.
- IntervalList.Node.AddData: the same.
- Addresses: an address is a sequence of bits, of 32-bit words or a number; lemmas show the three agree. The IPv4-in-16-bytes test of `ip_is6` and `ip_cmp` is replaced by a family tag.
- IppsContext.IppsInit: `qsort` is any sort with its contract; allocation failure is not modelled.
- PyPrefixSearch.IpSearch: Python objects that several cells share are values here.
- BPlusTreeApi.Bpt.Insert: the tree of nodes is a value, with names in place of leaf addresses; `parent` and `left` pointers are not modelled (a split does not update the `left` link of the right neighbour, and nothing reads it). The shifting of arrays inside one node is modelled in place, on its own.
- BPlusTreeApi.Bpt.Delete: `bpt_ndin_check` is called by the size of the node instead of after every merge; m is at least 3, as a leaf could be empty below that.
- BPlusTreeApi.Bpt.Search: keys are integers; only their order is used.
- BPlusTreeApi.Bpt.ListItemNext: the place in the list is a ghost argument, no result depends on it.
- PrefixTreeInsert.AddFinds: the tree is a value. `Labelled` demands that no label is empty, as the code reads outside the string on an empty one, and that none has more than 255 letters, as the length of a node is an unsigned char.
- PrefixTreeApi.DomainStore.constructor: `char` is signed, as on the usual targets.
- PrefixTreeRuns.Insert: the suffix functions are the prefix ones on the string read backwards; they differ on empty labels only.
- PrefixTreeWay.ReadString: the links to parents are the way from the root to the domain, found by the structure of the tree.
- Domain tree deletion, node joining, exceptions, `count_of_children`, `count_of_insert` and the lists of most used domains.
- FastHashTable.HashTable.Insert: a row or stash operation is one step, locks are not modelled; the row of a key is its hash modulo the number of rows and the stash index counts modulo the stash size, which is what the masks compute for powers of two.
- FastHashTable.HashTable.constructor: of the tests of `fht_init` on sizes, the one for powers of two is not modelled, nor is allocation.
- FastHashTable.HashTable.InsertWithStash: 32 bits can address the stash (`StashAddressable`), as its slots share bytes otherwise.
- FastHashTable.HashTable.InsertWithStashWr: the same.
- FastHashTable.HashTable.GetDataWithStash: the same.
- FastHashTable.HashTable.RemoveWithStash: the same.
- The `_locked` variants of the fast hash table, and hash function bodies: the hash is any function of the key.
- FastHashFilter.Filter.Insert: the free-flag byte is eight booleans, and the row of a key is its hash modulo the number of rows, as in the fast hash table; the `_locked`, own-or-update and iterator removal variants are not modelled.
- FastHashFilter.MoveAll: the old table has less than 2^32 rows, as the loop of the iterator does not end otherwise.
- FastHashFilter.Resize: the same bound on the rows; allocation and seeds (in the code, addresses of tables) are parameters; destroying the table of an earlier resize is left out.
- TrapSender.Sender.Send: waiting for clients, the ring of containers, reference counts and termination; a finished container is kept as its bytes, and an empty one is always at hand.
- TrapSender.Sender.Flush: the same as for `Send`.
- TrapInput.Receiver.RecvSeqNumber: a part is received whole, times out or breaks; partial headers, format negotiation and byte counters are not modelled.
- TrapInput.InputBuffer.Next: for a message longer than the rest of its buffer the code hands out bytes behind the buffer; the model hands out nothing.
- CountingSort.Sort: items are array elements instead of `size` bytes, so the 32-bit product of index and size cannot wrap; allocation failure is not modelled.
- UniRecTemplate.Create: an offset of 65535 in a template that has wrapped would be read as absent, which is not modelled.
- UniRecFormat.TypesAndNames: the definition of the fields read, which checks types and names, is left out.
- UniRecText.TemplateString: the growing of the buffer is left out; strings have no character 0 inside and the locale is C.
- UniRecRecord.ReadFromSlot: two-byte numbers in a record are in the byte order of the machine, taken as the lower byte first.
- UniRecRecord.SetValue: the record has room for the new value and stays below 65536 bytes behind the fixed part, which the code demands without a check.
- UniRecCreate.CloneRecord: fixed part and values have at most 65535 bytes together, the size of the largest record; allocation failure is not modelled.
- UniRecFields.CopyFields: the destination has room for the values of the source, bounded by ghost arguments.
- UniRecFields.SetVar: what a read behind the offset table leads to is not modelled.
- Cuckoo hash tables, Bloom filter, configurator, CSV and time conversion, file and TLS interfaces, the Python reporter: plumbing or lossy by design.
