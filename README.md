# Threaded red-black tree, modelled and verified in Dafny

This project is a model of the C library in `src/` of the threaded, intrusive red-black tree.
In this library:

- Every node record has two child slots and a status byte. Bit 0 of the byte is the colour, and bits 1 and 2 say whether each slot is a data link or a thread.
- A thread is a pointer to the node's in-order neighbour on that side: its predecessor on the left, its successor on the right. The first node's left thread and the last node's right thread are NULL.
- Walking the tree needs no stack and no parent pointers.

## What the model covers

The model covers:

- the status-byte operations;
- the four steppers;
- key search;
- the first/last-match search under a monotone predicate;
- insertion, including replacement of a duplicate key;
- deletion by key or by node, with successor splicing and the "one black level short" repair;
- the handle life cycle;
- the executable validator.

**Records.** The node records live in an arena, `Memory.nodes : map<Ptr, NodeRec>`. `Ptr` is `nat`, and 0 is NULL. A `NodeRec` holds the two slots, the status byte (`bv8`) and an integer key.

**Hooks and handle.**

- The `freeNode` hook appends to the ghost log `Memory.freed`.
- The handle `Rbt` keeps `root`, `size` and `def`.
- It also keeps a ghost abstract tree `T`. `T` is a pure `Tree` of colours, record ids and keys.

**Invariant.** Every operation is proved against that tree. `Linked(h, t, lo, hi)` says the records spell out `t`:

- data slots hold the children;
- thread slots hold the in-order neighbours, or NULL at either end;
- the status bits say which slot is which.

`Rbt.Valid` adds the following:

- the search-tree order;
- a black root;
- no red record with a red child;
- equal black height on every path;
- distinct record ids;
- `size` equal to the number of records.

**Operations as methods.** Insertion and deletion are methods that write the records one at a time, like the C code.

- Each recursive step returns the new subtree root, which the caller stores in its slot.
- The shape each step produces is a pure function that follows the C case split: `Ins`, `FixLeft`, `Fuf`, `Unlink`, `BalanceBlackLeft` and the others.
- Each method proves that the records afterwards spell out that function's result.
- Separate lemmas prove what those functions preserve: the in-order sequence with the key added or dropped, the red-black rules, and the distinctness of ids.

## Model

| member | source | states |
|---|---|---|
| RbtInternal.StatusOf | src/rbt_internal.h:19-24 | the byte built from colour and slot kinds decodes back to them, using the three low bits only |
| RbtInternal.IsBlack | src/rbt_internal.h:33-34 | `is_black` is the exact complement of `is_red` |
| RbtInternal.IsLeftThrd | src/rbt_internal.h:38-39 | `is_left_thrd` is the exact complement of `is_left_data` |
| RbtInternal.IsRightThrd | src/rbt_internal.h:43-44 | `is_right_thrd` is the exact complement of `is_right_data` |
| RbtInternal.StatusDecode | src/rbt_internal.h:19-24 | every byte below 8 is the encoding of its own three bits |
| RbtInternal.StatusCases | src/rbt_del.c:262-348 | byte values 0..7 are the eight colour/kid combinations that the deletion switch names (0/1 no kid, 2 black+left, 4 black+right, 6/7 two kids, 3/5 red with one kid) |
| RbtInternal.WithRed | src/rbt_internal.h:32-33 | after `set_red` the record is red, and the other bits are unchanged |
| RbtInternal.WithBlack | src/rbt_internal.h:31 | after `set_black` the record is black, and the other bits are unchanged |
| RbtInternal.WithLeftThrd | src/rbt_internal.h:36-38 | after `set_left_thrd` the left slot is a thread, and the other bits are unchanged |
| RbtInternal.WithLeftData | src/rbt_internal.h:37-39 | after `set_left_data` the left slot is data, and the other bits are unchanged |
| RbtInternal.WithRightThrd | src/rbt_internal.h:41-43 | after `set_right_thrd` the right slot is a thread, and the other bits are unchanged |
| RbtInternal.WithRightData | src/rbt_internal.h:42-44 | after `set_right_data` the right slot is data, and the other bits are unchanged |
| RbtInternal.Memory.FreeNode | src/rbt.h:54 | the `freeNode` hook logs the record and changes no record |
| RbtTypes.Cmp | src/rbt.h:46-51 | the three-way comparison on integer keys: zero exactly on equal keys, positive exactly when the first key is greater |
| RbtTypes.Rbt.constructor | src/rbt_new.c:39-41 | a new handle has no root, size 0, the given definition, and an empty tree |
| RbtLinks.NodeAt | src/rbt_internal.h:19-29 | the root record of a linked tree carries its key and colour; the status bits say which slots are data; data slots hold the children; thread slots hold the in-order neighbours |
| RbtLinks.LinkedIds | src/rbt_new.c:71-78 | every record of a linked tree is allocated, and none is NULL |
| RbtTree.SearchTreeIffSorted | src/rbt_tests.c:100-123 | the tree is a search tree exactly when its in-order keys are strictly increasing |
| RbtTree.UniqueIdsIffDistinct | src/rbt_new.c:64-79 | no record occurs twice in the tree exactly when its in-order sequence has no repeats |
| RbtTree.ContentsSize | src/rbt_new.c:129-133 | a search tree holds as many distinct keys as records |
| RbtFirst.First | src/rbt_first.c:27-40 | NULL exactly on an empty tree; otherwise the first record in order |
| RbtFirst.Last | src/rbt_first.c:69-82 | NULL exactly on an empty tree; otherwise the last record in order |
| RbtFirst.Next | src/rbt_first.c:47-62 | NULL for NULL; otherwise the in-order successor, which is NULL after the last record |
| RbtFirst.Prev | src/rbt_first.c:89-104 | NULL for NULL; otherwise the in-order predecessor, which is NULL before the first record |
| RbtGet.Get | src/rbt_get.c:23-53 | a non-NULL answer is a record of the tree with the key; on a search tree the answer is the record holding the key, or NULL when there is none |
| RbtFeq.MatchRun | src/rbt_feq.c:20-21 | under a monotone predicate the "equal" records form one contiguous run in order, so stepping from the first match to the last visits exactly that run |
| RbtFeq.FirstFromCandidate | src/rbt_feq.c:51-70 | once every record before a candidate is "low", the first match is the candidate if it is "equal", and otherwise there is none |
| RbtFeq.LastFromCandidate | src/rbt_feq.c:105-124 | the mirror of the above, for the last match |
| RbtFeq.ScanRight | src/rbt_feq.c:40-50 | the walk to the right over "low" records either stops at a non-low record, with everything before it low, or finds none |
| RbtFeq.ScanLeft | src/rbt_feq.c:94-104 | the mirror walk to the left over "high" records |
| RbtFeq.Feq | src/rbt_feq.c:25-71 | a non-NULL answer is a record the predicate calls equal; under a monotone predicate it is the first such record in order, and NULL when there is none |
| RbtFeq.Leq | src/rbt_feq.c:79-125 | a non-NULL answer is a record the predicate calls equal; under a monotone predicate it is the last such record in order, and NULL when there is none |
| RbtInsertSpec.FixLeft | src/rbt_insert.c:107-157 | the left fix-up keeps the shape of its action (a red-red action has a red root) and reports a duplicate exactly when it was given one |
| RbtInsertSpec.FixLeftOrder | src/rbt_insert.c:107-157 | recolouring and the single or double rotation keep the in-order sequence of records and keys |
| RbtInsertSpec.FixRightOrder | src/rbt_insert.c:177-226 | the mirror of the above for the right side |
| RbtInsertSpec.RotateLeftOrder | src/rbt_insert.c:126-141 | the inner rotation of case 4 keeps the in-order sequence |
| RbtInsertSpec.InsOrder | src/rbt_insert.c:41-228 | on a search tree, insertion places the new record at its key's position in order, replacing the record of an equal key |
| RbtInsertSpec.InsIds | src/rbt_insert.c:50-88 | the result holds each old record once plus the new one, except a replaced record, which leaves |
| RbtInsertSpec.FixLeftKept | src/rbt_insert.c:107-157 | the left fix-up keeps the black height and leaves at most one red-red pair at the root, which it reports to the caller |
| RbtInsertSpec.InsRB | src/rbt_insert.c:41-228 | after the recursive insertion, black height is unchanged and a red-red pair can occur only at the root, as reported by the action |
| RbtInsertSpec.InsAtRoot | src/rbt_insert.c:259-263 | from a black root no red-red action reaches the top, so the "error" return after `insert_node` cannot happen |
| RbtInsertSpec.InsertValid | src/rbt_insert.c:237-288 | insertion followed by blackening the root gives a red-black search tree with a black root and distinct ids; the map from keys to records gains the key, and the record count grows by one exactly when the key was absent |
| RbtInsertSpec.InsertResult | src/rbt_insert.c:60-88 | the action is "duplicate" exactly when the key was present; the replaced record is the one that held the key, and it leaves the tree |
| RbtInsert.RecolourWrites | src/rbt_insert.c:118-124 | case 3 blackens both children and reddens the parent, and writes nothing else |
| RbtInsert.RotateLeftWrites | src/rbt_insert.c:126-141 | case 4's rotation, including its thread repair, written record by record |
| RbtInsert.Case5LeftWrites | src/rbt_insert.c:142-157 | case 5's rotation and recolouring, written record by record |
| RbtInsert.ReplaceWrites | src/rbt_insert.c:60-88 | the new record takes over the old one's slots and status, and the neighbours' threads are repointed to it |
| RbtInsert.LeftEnd | src/rbt_insert.c:72-74 | the walk along left data links ends at the leftmost record of the subtree |
| RbtInsert.RightEnd | src/rbt_insert.c:80-82 | the walk along right data links ends at the rightmost record of the subtree |
| RbtInsert.ThreadLeft | src/rbt_insert.c:91-104 | a new left leaf gets its parent's old left thread and the parent as its threads, and the parent's left slot becomes data |
| RbtInsert.FixLeftHeap | src/rbt_insert.c:107-157 | the switch on the left descent's action, with cases 3 to 5, leaves the records spelling out the pure `FixLeft` result, returns its action and new subtree root, and touches only the subtree's records |
| RbtInsert.FixRightHeap | src/rbt_insert.c:177-226 | the mirror of the above, spelling out `FixRight` |
| RbtInsert.InsertLeft | src/rbt_insert.c:89-158 | the left descent leaves the records spelling out the pure insertion result, and touches only the subtree's records and the new one |
| RbtInsert.InsertRight | src/rbt_insert.c:159-227 | the mirror of the above |
| RbtInsert.InsertNode | src/rbt_insert.c:41-228 | `insert_node` leaves the records spelling out `Ins`, with the same action and the same replaced record |
| RbtInsert.Dispose | src/rbt_insert.c:274-286 | a replaced record is either handed back with both slots NULL and status 0, or given to `freeNode` |
| RbtInsert.InsertKeep | src/rbt_insert.c:237-288 | NULL gives ERROR and changes nothing. Otherwise the result is OK, the invariant holds afterwards, and the key maps to the new record. The size grows only on a new key. `old_node` is the replaced record (cleared) or NULL, and the replaced record is freed when it is not kept |
| RbtInsert.Insert | src/rbt_insert.c:296-301 | `rbt_insert` behaves as the non-keeping insert: the replaced record goes to `freeNode`. The tree is `InsertTree` of the old one, the size grows only on a new key, and records outside the tree and the new record, the definition and the release flag are unchanged |
| RbtDelSpec.BalanceBlackLeftOrder | src/rbt_del.c:59-140 | every case of the left repair keeps the in-order sequence |
| RbtDelSpec.BalanceBlackRightOrder | src/rbt_del.c:147-228 | every case of the right repair keeps the in-order sequence |
| RbtDelSpec.BalanceBlackLeftKept | src/rbt_del.c:59-140 | given a left side one black level short: the repair restores equal black height and no red-red, and reports "still short" (1) only when sibling, nephews and parent are all black |
| RbtDelSpec.BalanceBlackRightKept | src/rbt_del.c:147-228 | the mirror of the above for the right side |
| RbtDelSpec.DelSeq | src/rbt_del.c:357-441 | find-unlink-fix removes exactly one position from the in-order sequence when it finds a record, and otherwise leaves the tree as it was |
| RbtDelSpec.UnlinkSeq | src/rbt_del.c:254-350 | unlinking the found record, directly or by splicing its successor, removes exactly that record's position in order |
| RbtDelSpec.SuccessorSeq | src/rbt_del.c:284-341 | the in-order successor takes the removed record's place: the record removed from the right subtree is the first one there |
| RbtDelSpec.DelRB | src/rbt_del.c:357-441 | on a red-black tree the result keeps equal black height and no red-red, or is one level short as the action reports; "invalid tree" never occurs |
| RbtDelSpec.UnlinkRB | src/rbt_del.c:254-350 | the same for the unlink step; the byte values 3 and 5 and the invalid answers cannot occur |
| RbtDelSpec.WalkFinds | src/rbt_del.c:371-373 | the go-left walk in a non-empty subtree always finds a record (the leftmost) |
| RbtDelSpec.DelMissing | src/rbt_del.c:384-389 | "not found" is reported only when the key is absent from the search tree |
| RbtDelSpec.DelIds | src/rbt_del.c:357-441 | the removed record is one of the tree's, and the remaining tree holds every other record once |
| RbtDelSpec.DelByKey | src/rbt_del.c:448-504 | search by key removes the record of that key when it is present, and reports "not found" with nothing changed otherwise |
| RbtDelSpec.DeleteTreeValid | src/rbt_del.c:448-504 | after deletion the tree is a red-black search tree with a black root; it loses exactly the key and its record, with one fewer record when the key was present, and is unchanged otherwise |
| RbtDelSpec.DropContents | src/rbt_del.c:487 | dropping one position of a search tree's in-order sequence removes exactly that key from the key-to-record map |
| RbtDel.BalanceLeftHeap | src/rbt_del.c:59-140 | `balance_black_left` as a whole (case 2 first when the sibling is red) leaves the records spelling out the pure `BalanceLeft` result, returns its "short" flag and new subtree root, and touches only the subtree's records |
| RbtDel.BalanceRightHeap | src/rbt_del.c:147-228 | the mirror of the above, spelling out `BalanceRight` |
| RbtDel.BalanceBlackLeftHeap | src/rbt_del.c:83-139 | cases 3 to 6 of `balance_black_left`, at a black sibling, leave the records spelling out the pure `BalanceBlackLeft` result, return the "short" flag and the new subtree root, and touch only the subtree's records |
| RbtDel.BalanceBlackRightHeap | src/rbt_del.c:171-227 | the mirror of the above, for cases 3 to 6 of `balance_black_right` |
| RbtDel.Rem5LeftHeap | src/rbt_del.c:102-118 | case 5's rotation of the sibling, with its thread repair |
| RbtDel.Rem6LeftHeap | src/rbt_del.c:120-139 | case 6's colour copy and rotation, with its thread repair |
| RbtDel.Case2LeftHeap | src/rbt_del.c:68-82 | case 2 rotates a red sibling above the parent and repairs the parent's side again |
| RbtDel.PrevNode | src/rbt_del.c:235-247 | NULL for NULL; the left thread when the left slot is one; otherwise the rightmost record of the left subtree |
| RbtDel.UnlinkHeap | src/rbt_del.c:254-350 | unlinking the found record leaves the records spelling out the pure `Unlink` result, with the same action and removed record |
| RbtDel.TwoKids | src/rbt_del.c:284-341 | for two kids, the successor is unlinked from the right subtree and takes the removed record's left child, colour and place. The predecessor's right thread is repointed to it |
| RbtDel.FufHeap | src/rbt_del.c:357-441 | `find_unlink_fix` leaves the records spelling out the pure `Fuf` result, with the same action, new subtree root and removed record |
| RbtDel.SearchOutcome | src/rbt_del.c:448-480 | from the root, "not found" happens exactly when the key is absent, and then nothing changed. Otherwise the removed record held the key, and the records spell out the tree without it |
| RbtDel.DeleteRecords | src/rbt_del.c:460-501 | the found flag says whether the key was present. The new root and records spell out the deleted tree. The removed record is cleared and handed back, or freed |
| RbtDel.DeleteKey | src/rbt_del.c:448-504 | OK exactly when the key was present, else NOTFOUND with nothing changed. The invariant holds afterwards. The key map loses the key and the size drops by one on OK. The removed record is handed back cleared, or freed |
| RbtDel.DeleteNode | src/rbt_del.c:448-504 | a NULL argument gives ERROR and leaves `old_node` NULL; otherwise it behaves as `DeleteKey` |
| RbtDel.NodeArg | src/rbt_del.c:550 | a node argument stands for its own key, and NULL stays NULL |
| RbtDel.DelKey | src/rbt_del.c:512-520 | `rbt_delkey`: removes and frees the record of the key, reporting OK, NOTFOUND or ERROR. The tree is `DeleteTree` of the old one, and the size drops by one exactly on OK. Records outside the tree, the definition and the handle's release flag are unchanged |
| RbtDel.DelKeyKeep | src/rbt_del.c:528-537 | `rbt_delkey_keep`: removes the record of the key and hands it back cleared, freeing nothing. Tree, size and frame as for `DelKey` |
| RbtDel.DelNode | src/rbt_del.c:545-553 | `rbt_delnode`: removes and frees the record with the node's key. Tree, size and frame as for `DelKey` |
| RbtDel.DelNodeKeep | src/rbt_del.c:561-570 | `rbt_delnode_keep`: removes the record with the node's key and hands it back cleared. Tree, size and frame as for `DelKey` |
| RbtNew.PostOrderReleasesAll | src/rbt_new.c:64-79 | the release order holds exactly the tree's records, each once |
| RbtNew.New | src/rbt_new.c:29-43 | NULL when there is no `allocRoot` hook or it gives no memory; otherwise a fresh empty handle over the definition |
| RbtNew.EmptyValid | src/rbt_new.c:39-41 | an empty handle satisfies the invariant |
| RbtNew.Init | src/rbt_new.c:50-57 | the handle becomes empty over the given definition |
| RbtNew.FreeNodes | src/rbt_new.c:64-79 | `free_node` follows data links only, and gives the subtree's records to `freeNode` children-first, changing no record |
| RbtNew.Free | src/rbt_new.c:86-97 | every record is released exactly once; then the handle goes to `freeRoot` if there is one, and is left empty otherwise |
| RbtNew.Clr | src/rbt_new.c:104-110 | every record is released exactly once, and the handle is left empty and valid |
| RbtNew.Clr2 | src/rbt_new.c:117-122 | the handle is left empty, and no record is released |
| RbtNew.Size | src/rbt_new.c:129-133 | the answer is the size field; under the invariant that is the number of records and of distinct keys |
| RbtTests.CountBlackDepth | src/rbt_tests.c:19-36 | the black height of the subtree when every path has the same number of black records, and -1 otherwise |
| RbtTests.TestBlack | src/rbt_tests.c:38-47 | 0 exactly when the root is black (or absent) and black height is equal, else -1 |
| RbtTests.CountDoubleRed | src/rbt_tests.c:51-69 | never negative, and 0 exactly when no red record has a red child |
| RbtTests.TestRed | src/rbt_tests.c:71-76 | 0 exactly when no red record has a red child, else -1 |
| RbtTests.NarrowDiff | src/rbt_tests.c:87 | the `size_t` difference narrowed to `int` is zero exactly when the two counts agree modulo 2^32 |
| RbtTests.TestFirst | src/rbt_tests.c:80-88 | the forward walk visits every record, and the answer is that count minus `size` as an `int`, so it is 0 when the count equals `size` |
| RbtTests.TestLast | src/rbt_tests.c:90-98 | the backward walk visits every record; 0 exactly when that count equals `size` |
| RbtTests.AscentsAll | src/rbt_tests.c:112-117 | every adjacent pair ascends exactly when the sequence is strictly increasing |
| RbtTests.TestAscending | src/rbt_tests.c:100-123 | the count is the first record plus each ascending adjacent pair; 0 exactly when that equals `size` |
| RbtTests.AscendingIffSearch | src/rbt_tests.c:100-123 | on a counted tree the ascending check passes exactly when the tree is a search tree |
| RbtTests.TestAll | src/rbt_tests.c:126-139 | 0 exactly when the handle satisfies the invariant; otherwise the code of the first failing check, in the order black, red, first, last, ascending |

## Left out

- The node layout is not modelled. The offsets `left_ofs`, `right_ofs` and `color_ofs` and the casts behind `child_left`, `child_right` and `node_color` are replaced by the fields of an arena record.
- The comparators are not modelled as user code. `nodeCmp` and `keyCmp` are `Cmp` on integer keys. The predicate of `rbt_feq`/`rbt_leq` is any function on integer keys.
- The hooks are modelled indirectly:
  - `allocRoot` is the boolean parameter `allocates` of `New`;
  - `freeRoot` is the ghost flag `released`;
  - `freeNode` is the ghost log `Memory.freed`.
- No real memory is allocated or released.
- RbtNew.Size: `size` is a `nat`, so the `size_t` wrap-around of the counter is not modelled.
- RbtTests.TestFirst: the `size_t` walk counter is likewise a `nat`. Only the final narrowing to `int` is written out, by `NarrowDiff`.
- The `VAR` fields `delmode`, `ajust_thread` and `old_node` are not modelled as fields of a structure. They are parameters and results of the deletion and insertion methods.
- Writes through `void **p` are not modelled as writes through a pointer. Each recursive step returns the new subtree root, and the caller stores it in the slot it came from.
- `delete_node` takes a `void*` that is either a key or a node. Here it takes `DelArg`, an integer key or NULL. The node entry points pass the node's key, which is what `nodeCmp` compares.
- The `DELMODE_GO_RIGHT` search mode is modelled. Nothing in the library uses it, so no member proves facts about its callers.
- RbtDel.Rem6LeftWrites, RbtDel.Rem6RightWrites: the write sequence of case 6 of the deletion repair differs from the C; only the final records agree, so `Rem6LeftHeap` and `Rem6RightHeap` state their results on final records only. The C sets three colours before rotating: the sibling `s` takes the colour of `*p`, and `*p` and the sibling's outer child turn black. The model rotates first with the insertion rotation (`Case5RightWrites` / `Case5LeftWrites`), which writes colours of its own (the rising record black, `*p` red). `Rem6Colours` then overwrites the colours of those three records with the values the C gives them.
- The paths that return `A_D_INVALID_TREE`, the ERROR return of `rbt_insert_keep` after `insert_node`, and the "restore - in error" branch of leaf threading are dead code under the invariant. Each is an `assert false` branch, and lemmas prove it cannot be reached.
- RbtInsert.InsertKeep, RbtInsert.Insert: a record that is already in the tree is excluded (`node !in IdSet(rbt.T)`, and the same requirement on `InsertNode`, `InsertRoot`, `InsertRecords` and `InsertKeepNode`). The C does not check this. Given such a record, `insert_node` finds the record itself as the equal one, and then `rbt_insert_keep` clears the links of a record still in the tree, or `rbt_insert` hands it to `freeNode` while it is still linked. The model promises nothing for that call.
- Recursion depth and stack use are not modelled.
- The declaration header `src/rbt.h` has no behaviour. Only its handle fields and return codes are mirrored.
- The demo programs under `samples/` are not part of this model.
