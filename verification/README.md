# The server's data structures and text codecs, verified

The web server keeps its state in hand-written C data structures and turns text into other text in
many small loops. This project models that core in Dafny and proves what it is meant to do.

* **The red-black tree** (`RbShape`, `RbBalance`, `RbOrder`, `RbTree`, `RbRuns`). Nodes are heap objects with
  parent, left and right pointers and one shared sentinel. A ghost tree says what the heap holds, and a
  position in it is a subtree together with the path that leads up from it, so that both fixup loops are walks
  along such a path. Insertion, deletion by relinking, search and both iterators are proved against the in-order
  sequence of nodes, and whole runs against a finite map. `TotalOrder` is the order that the tree's caller has to
  supply; `RbRuns.Cmpf` is the comparison that the map wrapper hands to it.
* **The hash table** (`HashMap`, `HashRuns`). Linear probing with wrap-around over a power-of-two number of slots.
  The abstract map of a slot array is what a probe finds first. The hash is any fixed function of the key.
* **Searching** (`Search`). Boyer-Moore with the bad-character rule only, its table of signed 8-bit indices, and
  the convention that a match of two or more characters is reported one position early.
* **Codecs** (`Base64`, `Html`, `Url`). Each buffer loop is tied to a recursive specification, and the
  specifications to one another by round trips and exact sizes.
* **Parsers** (`Rings`, `Pairs`, `Query`, `Header`, `CStrings`, `BasicStrings`). Circular doubly linked lists of
  pairs, the query and form-body parser, the header parser that cuts lines in place, and the header printer.
* **Templates** (`Template`, `TemplateLaws`). The `strtok_r` loop over a buffer that it cuts in place, with placeholders, `when`
  and nested includes, against plain substitution; and what that means for files written out.

Tables and formats are specified twice: by the recursive functions that the loops are proved against, and by laws with
the characters written out (`Base64.LetterIs`, `Html.EntityIsNumeric`, `Url.HexDigitsAre`, `Header.LowerCharIs`,
`Header.PrintIs`, `Query.JoinIs`, `TemplateLaws`), so that a mistake in a table does not cancel out in a round trip.

Characters of a buffer are `char`, bytes are integers from 0 to 255. A C string is a NUL-free prefix of a buffer
that ends in NUL (`CStrings.IsCString`). `NULL` results are `None` or a nullable reference.

## Where the code differs from what is said about it

* `include/template.h:12` says that setting a key overwrites its value. The code inserts without comparing keys. As
  long as the table has not grown, the first value is the one that is read (`Template.FirstValueStays`). When it grows,
  the entries are rehashed in the order of their slots, and of several entries with one key the one that was lowest
  decides until the table grows again. That changes the map if and only if the lowest entry of some key has another value than the first one on
  its probe (`HashMap.RehashingPreservesExactlyWhen`), which takes a key whose entries lie on both sides of the end of
  the table (`HashMap.OnlyWrappedKeysSwap`); `HashMap.WrappedEntriesSwap`, `Template.SecondValueSurfaces` and, with a
  key and the program's own hash, `Template.BackquoteChanges` show it.
  When the promise holds is said by `Template.OverwritesExactlyWhen`.
* `include/hash_map.h:21-25` says that both insertions return 0 if the pair is in the map. `Hash_map_insert_move` does
  not compare with the home slot, and returns 0 if and only if the pair is in another one (`HashMap.HashMap.InsertMove`,
  with `HashMap.MovedInTwice` as an example). `Hash_map_insert` returns 0 if and only if the pair is the first entry
  with its key (`HashMap.HashMap.Insert`).
* `src/hash_map.c:12` calls `len` the number of items. `Hash_map_insert` counts a pair that overwrites another one
  again, so that `len` is the number of entries plus the number of overwritings, and right if and only if there are
  none: `HashRuns.Run`, with `HashRuns.CountedTwice` as an example.
* The bad-character table stores indices in a signed `char`. A pattern is searched correctly in every text exactly
  when it has no bad shift; patterns of at most 128 characters have none, and a character other than the last
  behind index 127 gives one: `Search.ExactOnAllTextsExactlyWhen`, `Search.ShortIsGood`, `Search.LateCharacter`.
* `cmpf` truncates a 64-bit difference to `int`. It is the total order that the tree needs on exactly those sets of
  keys whose residues modulo 2^32 differ and lie in a half circle that starts at one of them
  (`RbRuns.TotalExactlyWhen`), and descending on exactly those whose distances are in (0, 2^31) modulo 2^32
  (`RbRuns.DescendingExactlyWhen`), which are fewer (`RbRuns.TotalButNotDescending`).
* `newline_to_br` treats a text that starts with NUL as empty and leaves its line breaks (`Html.NewlinesLeft`). Posts
  never do: they are read as C strings (`Html.PostsHaveNoNewline`).
* `url_decoder` sets room aside by counting `%` signs, whether or not a triplet follows. The decoded text fits if and
  only if at most eight of the counted signs start no triplet: `Url.FitsExactlyWhen`, `Url.NinePercentsOverrun`.
* `header_to_string` doubles its buffer once for an entry that does not fit. That is enough if and only if the entry
  ends before twice the old size: `Header.OneDoublingSufficesExactlyWhen`, `Header.LongEntryDoesNotFit`.
* `readfile` puts its NUL over the last byte of the file, so a template's last byte is never rendered:
  `Template.LastByteIsLost`.
* `is_supported_type` compares 34 characters of a 33-character name, that is, the terminating NUL too: a content
  type with parameters is not supported (`Query.IsSupportedType`).

## Model

| member | source | states |
|---|---|---|
| RbTree.RbTree.constructor | src/rbtree.c:90-96 | the empty tree, with any shared sentinel that is black and linked to itself, satisfies the whole invariant |
| RbTree.RbTree.RotateLeft | src/rbtree.c:102-122 | exactly the pointers of the node, its right child, that child's left child and the parent above change, and how; `root` moves only if the node was the root |
| RbTree.RbTree.RotateRight | src/rbtree.c:128-148 | the mirror image |
| RbShape.TurnLeftHolds | src/rbtree.c:102-122 | after those pointer changes the heap holds the rotated tree at the same position: `parent` mirrors `left` and `right` everywhere, and no node occurs twice |
| RbShape.TurnRightHolds | src/rbtree.c:128-148 | the mirror image |
| RbShape.TurnLeftApart | src/rbtree.c:102-122 | a rotation keeps all nodes apart, in both directions |
| RbShape.TurnLeftKeeps | src/rbtree.c:102-122 | a rotation anywhere in a tree keeps its nodes and their in-order sequence |
| RbShape.TurnRightKeeps | src/rbtree.c:128-148 | the mirror image |
| RbTree.RbTree.RotateLeftAt | src/rbtree.c:102-122 | the pointer code, as a step on the tree that the heap holds |
| RbTree.RbTree.RotateRightAt | src/rbtree.c:128-148 | the mirror image |
| RbShape.Focus | src/rbtree.c:155-209 | a heap holds a tree seen from its root if and only if it holds it seen from any position, which is what lets a loop climb by parent pointers |
| RbShape.InorderPlug | src/rbtree.c:554-590 | what precedes and follows a position in the order |
| RbShape.PaintHolds | src/rbtree.c:163-167 | writing one colour repaints that one node of the tree |
| RbShape.HookHolds | src/rbtree.c:243-257 | linking a red node into an empty place adds just that node |
| RbShape.SpliceHolds | src/rbtree.c:374-381 | replacing a node by its only child takes just that node out |
| RbShape.ExchangeHolds | src/rbtree.c:343-368 | when two nodes trade every pointer to and from them, the heap holds the tree in which they have traded places, over the same nodes |
| RbShape.LinksAreMutual | src/rbtree.c:298-322 | nobody but the parent and the children points to a node |
| RbBalance.PlugRedBlack | src/rbtree.c:209-209 | a balanced subtree in a place that accepts it makes a red-black tree |
| RbBalance.SubtreeAccepted | src/rbtree.c:218-263 | in a red-black tree every place accepts the subtree that is there |
| RbBalance.BlackRoot | src/rbtree.c:209-209 | when the insertion loop has ended, painting the root black restores the whole colour invariant |
| RbBalance.AfterUnlink | src/rbtree.c:383-390 | what each of the three colour cases after unlinking leaves: a red-black tree, one after repainting the child, or a subtree that is one black short |
| RbBalance.StraightenedLeft | src/rbtree.c:462-471 | the rotation at the sibling keeps its black height and brings the red child to the far side |
| RbBalance.StraightenedRight | src/rbtree.c:472-482 | the mirror image |
| RbBalance.MadeGoodLeft | src/rbtree.c:486-493 | the last rotation and exchange of colours pays the missing black node back |
| RbBalance.MadeGoodRight | src/rbtree.c:486-493 | the mirror image |
| RbBalance.EqualBlackCounts | src/rbtree.c:400-495 | the inductive colour invariant, read back: every way down to an empty place passes the same number of black nodes |
| RbBalance.RedBlackMeans | src/rbtree.c:150-210 | node by node: the root is black, and neither the children nor the parent of a red node are red |
| RbBalance.NoWayIsLong | src/rbtree.c:504-525 | no way down is longer than twice its black nodes, plus one below a red root |
| RbBalance.ManyNodes | src/rbtree.c:504-525 | a subtree of black height h has at least 2^h - 1 nodes |
| RbBalance.PathBlacks | src/rbtree.c:504-525 | at least half of the nodes above any position are black |
| RbBalance.DeepTreesAreLarge | src/rbtree.c:504-525 | a search that has visited k nodes proves the tree to have at least 2^ceil(k/2) - 1 nodes |
| RbBalance.Pow2Laws | src/rbtree.c:504-525 | the powers of two in the bounds are those: 1, 2, and the product for a sum |
| RbBalance.ExchangeRedBlack | src/rbtree.c:343-344 | colours belong to places: trading two nodes keeps the colour invariant |
| RbOrder.Compared | src/rbtree.c:229-240 | one comparison of a descent: a hit is the node at the key's rank, otherwise the chosen side still encloses the key's place |
| RbOrder.NotFound | src/rbtree.c:242-257 | a descent that ends at an empty place proves the key absent, and that this place is the key's rank |
| RbOrder.HookInorder | src/rbtree.c:248-257 | a node hung into that place keeps the order and extends the in-order sequence at its rank |
| RbOrder.RankIsBoundary | src/rbtree.c:497-526 | what the rank means: exactly the nodes before it have smaller keys, and a key is present if and only if the node at its rank has it |
| RbOrder.OrderedRemove | src/rbtree.c:374-381 | the sequence without one node is still ordered |
| RbOrder.ExchangeThenRemove | src/rbtree.c:338-371 | trading places with the successor and then leaving removes just the node itself |
| RbOrder.AfterExchange | src/rbtree.c:333-372 | where the node to delete is after trading places, with no left child, and that removing it there is removing it from the old order |
| RbOrder.SpliceInorder | src/rbtree.c:374-381 | replacing a node by its only child removes just that node from the order |
| RbOrder.LocateAt | src/rbtree.c:554-571 | every index of the in-order sequence is the node at some position |
| RbOrder.BelowComesFirst | src/rbtree.c:593-604 | in post-order everything below a node comes before it |
| RbOrder.PostorderVisitsAll | src/rbtree.c:593-604 | post-order visits every node as often as the in-order sequence does |
| RbTree.RbTree.Paint | src/rbtree.c:163-167 | writing a colour field keeps the heap in step with the tree |
| RbTree.RbTree.PushBlackDown | src/rbtree.c:161-170 | red uncle: after three repaints the problem sits two levels higher, with one more black node below it |
| RbTree.RbTree.LeftWithBlackUncle | src/rbtree.c:171-181 | black uncle: at most two rotations leave a red node with a black parent, two levels of the path gone |
| RbTree.RbTree.RightWithBlackUncle | src/rbtree.c:196-206 | the mirror image |
| RbTree.RbTree.InsertRound | src/rbtree.c:155-208 | one round of the loop: the red node with a red parent is two levels higher, without a rotation, or its parent is black, after at most two rotations |
| RbTree.RbTree.InsertFixup | src/rbtree.c:150-210 | ends with a red-black tree over the same nodes in the same order, after at most two rotations |
| RbTree.RbTree.Hook | src/rbtree.c:242-257 | the new node is linked below the last node compared with, on the side that the last comparison chose |
| RbTree.RbTree.Insert | src/rbtree.c:218-263 | keeps the whole invariant; a new key adds exactly the given node at its rank, a present key returns NULL and changes no field of the tree, of its nodes or of the given node |
| RbTree.RbTree.FindLessEqual | src/rbtree.c:497-526 | the exact node if and only if the key is present, otherwise the greatest node below it or NULL; if the search compares with k nodes, the tree has at least 2^ceil(k/2) - 1 |
| RbTree.RbTree.Search | src/rbtree.c:270-279 | NULL if and only if the key is absent, otherwise its node |
| RbTree.RbTree.First | src/rbtree.c:532-539 | the first node of the order, the sentinel of an empty tree |
| RbTree.RbTree.Last | src/rbtree.c:541-548 | the last node of the order, the sentinel of an empty tree |
| RbTree.RbTree.Next | src/rbtree.c:554-571 | from the i-th node to the next one, or to the sentinel from the last |
| RbTree.RbTree.Previous | src/rbtree.c:573-590 | from the i-th node to the one before, or to the sentinel from the first |
| RbTree.RbTree.ThereAndBack | src/rbtree.c:554-590 | going back undoes going forward at every node but the last |
| RbTree.RbTree.ForEach | include/rbtree.h:180-183 | the loop visits every node exactly once, in increasing order, and ends at the sentinel |
| RbTree.RbTree.TraversePost | src/rbtree.c:593-604 | the recursive descent visits the nodes in post-order |
| RbTree.RbTree.ChangeParentPtr | src/rbtree.c:298-313 | exactly the child pointers that led to the old node, or `root`, now lead to the new one |
| RbTree.RbTree.ChangeChildPtr | src/rbtree.c:315-322 | exactly the parent pointer that led to the old node now leads to the new one; the sentinel is left alone |
| RbTree.RbTree.Neighbours | src/rbtree.c:298-322 | exactly the parent points down to a node, and exactly its children point up to it |
| RbTree.RbTree.BelowRight | src/rbtree.c:335-337 | the successor in the right subtree is next to the node only as its direct right child |
| RbTree.RbTree.SwapInParents | src/rbtree.c:343-349 | the colours of the two nodes and the child pointers of their parents are exchanged, nothing else |
| RbTree.RbTree.SwapInChildren | src/rbtree.c:351-358 | the parent pointers of their children are exchanged, nothing else; the repeated calls do no harm |
| RbTree.RbTree.SwapOwn | src/rbtree.c:359-368 | the pointers of the two nodes themselves are exchanged, with the successor as direct right child as a case of its own |
| RbTree.RbTree.SwapLinks | src/rbtree.c:343-368 | every pointer to one of the two nodes leads to the other, and their own fields are exchanged |
| RbTree.RbTree.SwapAt | src/rbtree.c:343-368 | the heap then holds the tree in which the two nodes have traded places |
| RbTree.RbTree.SwapWithSuccessor | src/rbtree.c:333-372 | the node to delete sits where its successor was, without a left child; removing it from there removes it from the old order |
| RbTree.RbTree.Bypass | src/rbtree.c:380-381 | the child takes the node's place in the parent, and the parent becomes the child's; no other field changes |
| RbTree.RbTree.Unlink | src/rbtree.c:374-381 | the heap holds the tree in which the only child took the node's place |
| RbTree.RbTree.TurnRedSibling | src/rbtree.c:419-431 | a red sibling is rotated away: the deficit stays where it is, under a red parent and beside a black sibling |
| RbTree.RbTree.StraightenSibling | src/rbtree.c:460-482 | the red child of the sibling ends up on the far side, after at most one rotation |
| RbTree.RbTree.RotateAndExchange | src/rbtree.c:484-494 | one rotation makes the deficit good: the tree is red-black |
| RbTree.RbTree.DeleteRound | src/rbtree.c:413-449 | one round of the loop: the deficit is one level higher, without a rotation, or the loop ends; a red sibling is rotated away in the second case only |
| RbTree.RbTree.MakeGood | src/rbtree.c:451-494 | what follows the loop makes the deficit good, with at most two rotations |
| RbTree.RbTree.DeleteFixup | src/rbtree.c:400-495 | from a subtree that is one black short to a red-black tree with the same nodes and order, with at most three rotations |
| RbTree.RbTree.RemoveNode | src/rbtree.c:374-390 | taking out a node with at most one child removes exactly it and leaves a red-black tree, in all colour cases |
| RbTree.RbTree.Delete | src/rbtree.c:324-398 | keeps the whole invariant; an absent key returns NULL and changes nothing, a present key removes exactly its node, which is returned black and fully unlinked |
| RbRuns.Perform | src/rbtree.c:218-398 | one operation answers as a finite map does, and writes to nothing but the tree, its nodes and an inserted node |
| RbRuns.Run | src/rbtree.c:90-398 | any run of insertions, deletions and searches answers as a finite map does; `count` is its size; the sentinel is in no frame |
| RbRuns.ListsInsert | src/rbtree.c:242-262 | inserting at any index extends the listed map |
| RbRuns.ListsRemove | src/rbtree.c:392-397 | removing a node removes its key from the listed map |
| RbRuns.ListsSize | src/rbtree.c:246-246 | the number of listed nodes is the size of the map |
| RbRuns.TotalExactlyWhen | src/map.c:11-16 | the truncated difference is the total order that the tree demands on a set of keys if and only if the set is empty or its residues modulo 2^32 differ and lie in a half circle that starts at one of them |
| RbRuns.DescendingExactlyWhen | src/map.c:11-16 | larger keys count as smaller if and only if all distances are in (0, 2^31) modulo 2^32 |
| RbRuns.TotalButNotDescending | src/map.c:11-16 | 0 and 2^31 + 1 are ordered, but not descending |
| RbRuns.CmpfConfusesDistantKeys | src/map.c:11-16 | two keys 2^32 apart count as equal, which is no order that the tree may use |
| RbRuns.CmpfIsTotalOnWindow | src/map.c:11-16 | on every window of 2^31 keys it is a total order, as the tree demands |
| HashMap.MaskIsRemainder | src/hash_map.c:54-59 | masking with a power of two less one is the remainder |
| HashMap.HashMap.GetIndex | src/hash_map.c:54-59 | the masked hash is the home slot |
| HashMap.BackquoteIsLast | src/hash_map.c:39-52 | under FNV-1a, the key that consists of a backquote belongs to the last of 64 slots |
| HashMap.HashOfA | src/hash_map.c:39-52 | the hash of "a" is the published one |
| HashMap.HashMap.constructor | src/hash_map.c:17-25 | the new table stands for the empty map |
| HashMap.HashMap.Get | src/hash_map.c:61-77 | the probe ends and returns what the abstract map has for the key |
| HashMap.ProbeEnds | src/hash_map.c:65-76 | a free slot on the probe proves the key absent |
| HashMap.SomeFree | src/hash_map.c:65-76 | a table that is not full has a free slot, so every probe ends |
| HashMap.HitDecides | src/hash_map.c:65-67 | of several entries with a key, the first on the probe decides |
| HashMap.ProbeableWrite | src/hash_map.c:95-95 | writing the first free slot keeps every entry reachable without a gap, cyclically |
| HashMap.FillSlot | src/hash_map.c:87-97 | filling the first free slot adds the pair, unless the key has an entry further ahead |
| HashMap.UniqueFill | src/hash_map.c:95-95 | keys stay unique if and only if they were and the key is new |
| HashMap.ReplaceHit | src/hash_map.c:113-127 | replacing the first entry with the key overwrites its value and no other |
| HashMap.HashMap.MoveEntry | src/hash_map.c:81-98 | the pair itself goes into the first free slot of its probe, without a comparison of keys: a present key keeps its value; it is refused if and only if it is in a slot that is not its home |
| HashMap.PlacedWhere | src/hash_map.c:85-95 | the first free slot of a probe is determined |
| HashMap.NeverMet | src/hash_map.c:87-93 | a pair that the loop has not met is in no slot but its home |
| HashMap.HashMap.SetEntry | src/hash_map.c:103-129 | a copy of the pair goes over the first entry with its key or into a free slot, and one more slot is taken if and only if the key is new; nothing changes if and only if the first entry is the very pair |
| HashMap.LowestDecides | src/hash_map.c:142-147 | when entries are rehashed in the order of the slots, the lowest with a key decides |
| HashMap.RehashingPreservesExactlyWhen | src/hash_map.c:142-147 | rehashing preserves the map if and only if for every key the lowest entry has the value of the first on its probe |
| HashMap.OnlyWrappedKeysSwap | src/hash_map.c:142-147 | the two can differ only for a key with an entry in front of its home slot and one at it or behind |
| HashMap.WrappedEntriesSwap | src/hash_map.c:142-147 | four slots in which they do: the lookup changes from the older value to the newer one |
| HashMap.UniqueKeysAgree | src/hash_map.c:142-147 | with unique keys rehashing preserves the map |
| HashMap.TakenAreKeys | src/hash_map.c:12-12 | with unique keys there are as many taken slots as keys |
| HashMap.HashMap.Expand | src/hash_map.c:133-154 | the doubled table holds the same pairs; exactly which map it stands for, whether or not keys are unique, and when that is the same map; only the overflow of the capacity fails |
| HashMap.AllRehashed | src/hash_map.c:142-147 | the new slots hold the same pairs and stand for the map in which the lowest entry of each key decides |
| HashMap.HashMap.Insert | src/hash_map.c:156-167 | the map, after the expansion if one is due, with the key set to the value; the table stays at most half full; `len` gets further ahead of the taken slots if and only if the key was present; unless the table is full for good, it fails if and only if the pair is then the first entry with its key |
| HashMap.HashMap.InsertMove | src/hash_map.c:169-180 | the map, after the expansion if one is due, with a new key added; a key that is present keeps the value that it has then; unless the table is full for good, it fails if and only if the pair is then in a slot that is not its home |
| HashMap.MovedInTwice | include/hash_map.h:24-25 | a pair moved into an empty table three times goes in twice |
| HashRuns.Run | src/hash_map.c:61-180 | every lookup of any run of insertions, with moves for new keys only, returns what a plain map would; `len` is the size of that map plus the number of overwritings, so it is right if and only if there are none |
| HashRuns.Step | src/hash_map.c:156-180 | one operation answers and counts accordingly, and the table holds exactly those pairs of the caller that were moved in and not copied over |
| HashRuns.CountedTwice | src/hash_map.c:164-165 | two insertions with one key leave one entry and a count of two |
| Search.IndexFromIsLeftmost | src/utility.c:111-113 | the reference search returns the leftmost occurrence, and none if and only if there is none |
| Search.BadCharHeuristic | src/utility.c:101-109 | every table entry is the last index of the character, or -1, cut down to a signed char |
| Search.CompareAt | src/utility.c:130-132 | the backward comparison stops at the last difference |
| Search.NoShiftSkips | src/utility.c:133-136 | in a pattern without bad shifts, no shift passes an occurrence |
| Search.ShortIsGood | src/utility.c:125-126 | patterns of at most 128 characters have no bad shift |
| Search.LateCharacter | src/utility.c:105-108 | a character other than the last that occurs behind index 127 gives a bad shift |
| Search.ScanIsExact | src/utility.c:128-139 | the scan agrees with the naive search from every start |
| Search.ExactOnAllTextsExactlyWhen | src/utility.c:114-140 | the scan agrees with the naive search on all ASCII texts if and only if the pattern has no bad shift |
| Search.TrapIsMissed | src/utility.c:105-136 | every bad shift makes the scan miss an occurrence in some text |
| Search.LongPatternIsMissed | src/utility.c:105-136 | a concrete pattern of 130 characters and a text in which its occurrence is missed |
| Search.BoyerMoore | src/utility.c:114-140 | the match itself for one character, one before it for more, NULL if and only if there is none |
| Search.FindFirstOf | src/utility.c:93-99 | the same for possibly empty texts; exact for every delimiter without bad shifts |
| Search.ViewSize | src/string_view.c:11-20 | the view ends exactly before the first two-character delimiter, behind a one-character one; -1 without one |
| Base64.TablesAreInverse | src/base64.c:6-23 | the two tables are inverse to each other on the alphabet |
| Base64.LetterIs | src/base64.c:6-12 | the encoding table is the alphabet, written out |
| Base64.ValueIs | src/base64.c:15-23 | exactly these characters have a value, which is their index in the alphabet |
| Base64.PutQuad | src/base64.c:35-43 | shifting and masking a 24-bit word gives the four letters of three bytes |
| Base64.PutTail | src/base64.c:46-66 | the last one or two bytes are encoded with padding |
| Base64.EncodeBuffer | src/base64.c:25-70 | the buffer is filled exactly with the encoding and its NUL |
| Base64.EncodedSize | src/base64.c:27-30 | the encoding is exactly as long as the computed size |
| Base64.EncodeIsPositional | src/base64.c:25-70 | the k-th character of the encoding is the entry of the alphabet at the k-th base-64 digit of the bytes, filled up with zeros and read as one big-endian number, or padding |
| Base64.PutTriple | src/base64.c:90-99 | four letters give back three bytes |
| Base64.PutLast | src/base64.c:102-125 | a padded group gives back one or two bytes |
| Base64.StripPadding | src/base64.c:74-85 | the output size and the text length without padding |
| Base64.DecodeBuffer | src/base64.c:72-128 | the buffer is filled exactly with the decoded bytes and a NUL |
| Base64.DecodedSize | src/base64.c:74-85 | the decoded bytes are exactly as many as the computed size |
| Base64.DecodeIsPositional | src/base64.c:72-128 | the decoded bytes are the number that the letters stand for in base 64, without the two or four bits that padding leaves over |
| Base64.DecodeEncode | src/base64.c:25-128 | decoding undoes encoding on every byte string, and encodings are canonical |
| Base64.EncodeDecode | src/base64.c:25-128 | encoding undoes decoding if and only if the text is canonical (section 3.5 of RFC 4648) |
| Base64.EncodeInjective | src/models/account.c:284-291 | equal encodings come from equal byte strings, as the lookup by encoded name needs |
| Html.CountSpecials | src/utility.c:196-200 | the counters are the numbers of occurrences |
| Html.EntityIsNumeric | src/utility.c:188-194 | exactly five characters are escaped, each as its code in decimal between `&#` and `;` |
| Html.DecimalDenotes | src/utility.c:188-194 | the digits that a number is printed as denote it |
| Html.EscapedSize | src/utility.c:202-205 | the escaped text is exactly as long as the computed size |
| Html.PutEscaped | src/utility.c:214-223 | one character, or its entity, is appended |
| Html.HtmlEscape | src/utility.c:183-230 | the string becomes the escaped text and its NUL |
| Html.BrokenSize | src/utility.c:237-246 | the text with breaks is exactly as long as the computed size |
| Html.InsertBreaks | src/utility.c:232-261 | every newline becomes a break, unless the text starts with NUL |
| Html.SafeAt | src/models/post.c:45-45 | in safe text, character by character: no quotes, `<` and `>` in breaks only, `&` only in front of the code of one of the five characters |
| Html.ShownIsSafe | src/models/post.c:45-45 | a stored and shown post is safe text, and the original can be read back by replacing each reference by the character with its code |
| Html.NewlinesLeft | src/utility.c:234-235 | an escaped and broken text has a newline left if and only if it had one and starts with NUL |
| Html.PostsHaveNoNewline | src/models/post.c:121-123 | a shown post, which is free of NUL, has no newline left |
| Url.UrlDecode2 | src/http/helper.c:10-38 | the buffer receives the decoded text and its NUL, and nothing is written behind it |
| Url.HexDigitsAre | src/http/helper.c:15-27 | the hex digits of either case have their values |
| Url.OnlyHexDigits | src/http/helper.c:15-15 | nothing else is a hex digit |
| Url.DecodeTriplet | src/http/helper.c:14-29 | a triplet is decoded to the character with its code |
| Url.DecodeOther | src/http/helper.c:30-35 | a plus sign becomes a space; everything else stays, also a `%` that starts no triplet |
| Url.CaseDoesNotMatter | src/http/helper.c:16-27 | texts that differ only in the case of the digits of their triplets are decoded alike (section 2.1 of RFC 3986) |
| Url.DecodeEncodeCapital | src/http/helper.c:10-38 | decoding undoes an encoder that prints capital digits |
| Url.DecodedSize | src/http/helper.c:14-36 | each triplet saves two characters, and there are at most as many as `%` signs |
| Url.AllPercentsConsumed | src/http/helper.c:43-48 | counting `%` signs counts the triplets if and only if every one starts a triplet |
| Url.SpareRoom | src/http/helper.c:41-58 | exactly how much room is left; at least 16 bytes on well escaped text |
| Url.FirstIsNotCounted | src/http/helper.c:45-48 | the room does not depend on whether the first character is a `%` |
| Url.FitsExactlyWhen | src/http/helper.c:41-58 | the decoded text and its NUL fit the allocated room if and only if at most eight of the counted `%` signs start no triplet |
| Url.NinePercentsOverrun | src/http/helper.c:41-58 | a text of ten characters whose decoding needs eleven bytes and gets nine |
| Url.UrlDecoder | src/http/helper.c:41-58 | allocates that room and fills it with the decoded text |
| Url.UnreservedAre | src/http/helper.c:71-73 | exactly letters and decimal digits are left as they are |
| Url.EncodeOneIs | src/http/helper.c:71-79 | every other character becomes a triplet with small digits |
| Url.PutEncoded | src/http/helper.c:71-79 | one character is appended as it is, or as a triplet |
| Url.UrlEncoder | src/http/helper.c:61-83 | the encoded text and its NUL always fit three times the length |
| Url.DecodeEncode | src/http/helper.c:10-83 | decoding undoes encoding on ASCII text, and encoded text is well escaped |
| Rings.Ring.constructor | src/list.c:6-10 | a head alone is the empty list |
| Rings.Ring.InsertHead | src/list.c:12-23 | the ring stays a ring, with the entry in front |
| Rings.Ring.InsertTail | src/list.c:25-33 | the ring stays a ring, with the entry at the end |
| Rings.Ring.Size | src/list.c:35-46 | the number of entries |
| Pairs.GetFirst | src/http/query.c:54-67 | the value of the first pair with the key; nothing for the empty key |
| Pairs.FirstValueExactlyWhen | src/http/query.c:59-66 | a value is found if and only if it is that of the first pair with the key |
| Pairs.FirstOfReverse | src/http/query.c:45-65 | pairs pushed to the front are found last-wins |
| Pairs.ReverseAt | src/list.c:12-23 | what reversing means, index by index |
| Query.PairLexer | src/http/helper.c:96-119 | the key before the first delimiter and the value before the next terminator, nothing if one is missing |
| Query.LexPairExactlyWhen | src/http/helper.c:102-113 | a pair is cut out if and only if its key has no delimiter, its value no terminator, and the text starts with both, each followed by its character |
| Query.FitsExactlyWhen | src/http/query.c:33-37 | the terminator fits as well if and only if one sign fewer is wasted, or a NUL cuts the text short |
| Query.ParseStep | src/http/query.c:39-48 | one round takes one pair, and the pointer that the next round starts from stays inside the text |
| Query.JoinIs | src/http/query.c:36-47 | the text of pairs: keys and values with `=` between them, pairs with `&` between them |
| Query.ParseJoin | src/http/query.c:28-52 | parsing the joined texts of pairs gives these pairs, in order |
| Query.TakePair | src/http/query.c:40-47 | one round hangs one pair at the front of the list |
| Query.QueryParser | src/http/query.c:28-52 | the list holds, in reverse, the pairs of the decoded text up to its first NUL, if any; the added terminator stays inside the buffer |
| Query.ParseAndGet | src/http/query.c:28-67 | on well escaped text that decodes to joined pairs, the last pair with a key wins |
| Query.BodyParser | src/http/body.c:32-58 | the same for bodies, if and only if the content type is application/x-www-form-urlencoded; any other body is rejected undecoded |
| Query.SameStart | src/http/body.c:104-104 | comparing n characters of two C strings decides whether they start alike |
| Query.IsSupportedType | src/http/body.c:100-105 | comparing 34 characters of the 33-character type decides equality |
| Header.ToLowerCase | src/utility.c:84-90 | in a word, the i-th capital becomes the i-th small letter, no capital is left and everything else stays; nothing around the word is touched |
| Header.LowerCharIs | src/utility.c:87-87 | the same for one character, with the two alphabets written out |
| Header.StripHeadSpaces | src/http/header.c:25-34 | moves the start of a view behind its leading spaces, which are the characters 9 to 13 and 32, and no further |
| Header.CutLine | src/http/header.c:49-65 | key and value are cut out of a line in place, and the lines behind it stay as they are |
| Header.HeaderParser | src/http/header.c:37-76 | the list holds the pairs of the block in order, without a capital in a key, and the offset moves by exactly what the block takes |
| Header.ParseRaw | src/http/header.c:42-69 | lines with keys in any case and values with any leading spaces are read as small keys and stripped values |
| Header.KeysAreCaseInsensitive | src/http/header.c:60-61 | blocks that differ in the case of their keys only are read alike (section 4.2 of RFC 2616) |
| Header.LineEnd | src/http/header.c:44-44 | a printed line ends where its own CRLF starts |
| Header.ParseLine | src/http/header.c:42-69 | a printed line in front of a block parses to its pair in front of the block's |
| Header.ParsePrint | src/http/header.c:36-185 | parsing printed headers and the empty line gives the headers back and consumes exactly them (section 4.2 of RFC 2616) |
| Header.PrintIs | src/http/header.c:154-159 | a printed line, written out, and printing of a list in two parts |
| Header.HeaderInsert | src/http/header.c:87-100 | the pair goes to the end of the list |
| Header.Printer.AppendEntry | src/http/header.c:173-181 | prints one entry that fits after one doubling at most, at its place, with its NUL |
| Header.OneDoublingSufficesExactlyWhen | src/http/header.c:176-178 | one doubling makes room for an entry if and only if it ends before twice the old size |
| Header.ShortEntriesFit | src/http/header.c:170-182 | entries of at most 2048 bytes with their NUL always fit, whatever their number |
| Header.LongEntryDoesNotFit | src/http/header.c:176-180 | an entry of two buffer sizes does not fit |
| Header.Printer.HeaderToString | src/http/header.c:161-185 | if each entry fits with one doubling at most, the buffer holds the printed headers and a NUL and is never overrun; its final size is exact; nothing for an empty list |
| Header.PrintThenParse | src/http/header.c:36-185 | printing a list, appending an empty line and a body and parsing the whole gives the list back, with the offset at the body |
| BasicStrings.BasicString.AppendRaw | src/basic_string.c:72-83 | the text is appended, and the NUL follows it |
| Template.TemplateSet | src/template.c:36-43 | a new key is added; a key that is present keeps the value that it has after the expansion, if one is due |
| Template.OverwritesExactlyWhen | include/template.h:12-12 | the promise that setting a key overwrites holds if and only if the key is new, or has the value already once the table has grown if it has to |
| Template.FirstValueStays | include/template.h:12-12 | of up to 32 settings in any order, the first one of each key is read |
| Template.SetTwice | src/template.c:36-43 | a key whose home is the last slot wraps around when it is set twice |
| Template.SecondValueSurfaces | src/template.c:36-43 | for such a key the first value is read after 32 settings, and the second after the 33rd |
| Template.BackquoteChanges | src/template.c:36-43 | under the hash of the program a backquote is such a key |
| Template.StrTok | src/template.c:56-63 | the call returns the first token and leaves the text behind its delimiter, in the buffer that it cuts |
| Template.TokenBeforeSegments | src/template.c:55-57 | what the first call finds in a printed page |
| Template.SegmentTokens | src/template.c:63-127 | what the two calls of a round find in a printed page |
| Template.BodyShape | src/template.c:68-124 | the tests of the renderer tell the kinds of items apart, and cut out keys and file names |
| Template.WhenShape | src/template.c:95-113 | the two spaces of a `when` cut it into its status, the expected value and the text |
| Template.RenderWhen | src/template.c:95-115 | the text if and only if the status has the expected value |
| Template.RenderItem | src/template.c:68-124 | the value of every kind of item |
| Template.RenderRound | src/template.c:60-140 | one round of the loop renders one item and the text behind it, or finishes the page |
| Template.Render | src/template.c:45-145 | rendering a file is plain substitution under the shared context, for any ranking of the files that includes descend |
| Template.RankedExactlyWhen | src/template.c:81-86 | there is such a ranking if and only if no file includes itself, directly or by way of others |
| Template.SubstSame | src/template.c:81-86 | the result does not depend on the ranking |
| Template.RenderSite | src/template.c:45-145 | a site without include cycles is rendered by plain substitution |
| TemplateLaws.RenderPlain | src/template.c:56-57 | a file without items is shown as it is, but for its last byte |
| TemplateLaws.RenderPlaceholder | src/template.c:68-73 | in a file with one placeholder written out, the value of the key stands in its place, or nothing if there is none |
| TemplateLaws.SetThenRender | src/template.c:36-73 | after a new key has been set, its value stands where its placeholder was |
| TemplateLaws.RenderWhenFile | src/template.c:95-115 | in a file with one `when` written out, the text is shown if and only if the key has the expected value |
| TemplateLaws.RenderInclude | src/template.c:77-94 | in a file with one include written out, the included file stands in its place |
| TemplateLaws.RenderBraces | src/template.c:121-137 | of other braces, the braces are shown without what was between them |
| TemplateLaws.RenderUnknown | src/template.c:116-120 | an unknown directive ends the page |
| TemplateLaws.RenderParts | src/template.c:60-140 | a page of two parts is rendered as the one followed by the other |
| Template.OpenPage | src/template.c:147-170 | the buffer of a file is cut at its first brace, behind the space put in front |
| Template.LastByteIsLost | src/template.c:165-167 | files that differ in their last byte only are read as the same |

## Left out

- `Hash_map_erase` and `move_last_same_hash`: erasing does not advance past other keys, ignores wrap-around and leaves `len` as it is, so it does not meet the contract of its header.
- FNV-1a: the contracts of the table hold for any function of the key; HashMap.HashKey is used for one example only.
- HashRuns.Run: moves a pair in for new keys only; HashMap.HashMap.InsertMove says what any single move does.
- HashRuns.Step: as for HashRuns.Run.
- BasicStrings.BasicString.AppendRaw: appends all of a text, where the code stops at a NUL; a C string has none.
- Template.TemplateSet: stores all of a key and a value, where the code stops at a NUL; C strings have none.
- Url.UrlDecode2: decodes all of a text, where the code stops at a NUL; a C string has none.
- The rest of `src/map.c`: it copies through an uninitialised pointer and casts tree nodes to pairs.
- Search.BoyerMoore: no non-ASCII bytes, with which the code reads and writes the table at negative indices.
- Search.BadCharHeuristic: no non-ASCII bytes, as for Search.BoyerMoore.
- Search.FindFirstOf: no non-ASCII bytes, as for Search.BoyerMoore.
- Search.ViewSize: no non-ASCII bytes, as for Search.BoyerMoore.
- Url.UrlEncoder: no non-ASCII bytes, with which the code reads its digits at negative indices.
- Base64.StripPadding: no empty and no malformed text, as for Base64.DecodeBuffer.
- Base64.DecodeBuffer: no empty and no malformed text; on these the code reads in front of the buffer or looks up invalid bytes.
- Url.UrlDecoder: requires that the decoded text fits the room that the code allocates; Url.FitsExactlyWhen says when; what an overrun does is not modelled.
- Query.QueryParser: requires that the decoded text and the added terminator fit the room that the decoder allocates; Query.FitsExactlyWhen says when.
- Query.BodyParser: requires the same of a form, as for Query.QueryParser.
- Header.HeaderParser: no block with a line that has no end or no colon of its own, where the code reads and writes outside the line.
- Header.Printer.HeaderToString: no entry that one doubling does not make room for, where the code writes behind the buffer, and no total near 2^31, where the integers overflow.
- Header.PrintThenParse: printable headers that fit, as for Header.Printer.HeaderToString, and ASCII bodies, as for Search.BoyerMoore.
- Header.Printer.AppendEntry: no entry that one doubling does not make room for, as for Header.Printer.HeaderToString.
- Template.Render: pages whose text outside of items has no opening brace and whose items are separated by at least one byte and are not empty braces, which the tokenizer skips; items are values of the token's text, and the renderer's cuts inside a token are slices.
- Template.RenderSite: pages as for Template.Render.
- `query_entry`: nothing in the repository calls it.
- `string_view_dup`, `make_pair` and `strdup`: copies of a view are slices.
- Counters of type `int` and `size_t` in the codecs, and `count` of the tree, are unbounded integers.
- Rings.Ring.InsertTail: adding a node that is already in the list is not modelled.
- RbTree.RbTree.Next: takes the index of its node as a ghost argument; the iterators are not specified for nodes outside of the tree.
- Allocation failure, freeing and ownership.
- `src/server.c`, `src/request.c`, `src/response.c`, `src/db.c`, `src/models` and `src/handler`: sockets, SQL and HTML assembly.
- SHA-256, random strings and time formatting.
