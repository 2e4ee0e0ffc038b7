# Verification of a layered database engine

This project models the four layers of the engine in `db_project/db` and proves what they promise. Each layer keeps
the form of its source: nodes, locks, control blocks and pages are objects and arrays that the methods update in
place. Every method is proved against a specification on values, and the properties of whole runs are lemmas about
those values.

**In-memory B+ tree** (`bpt.cc`). `BPlusGraph` states when a finite graph of nodes is a balanced, sorted search tree
with correct parent links, key intervals and leaf chain; `BPlusSplit` and `BPlusMerge` prove that each structural step
keeps this at every node; `BPlusMap` says which finite map a tree stands for and how full its nodes are.
`BPlusInsertion` and `BPlusDeletion` describe the states in between - an overfull node, a right half that nothing
points to yet, a short node, an entry of the parent that still has to go - and lead each to the next one or to a tree.
`BPlusNode` has the array work, `BPlusTree` the algorithms, for every `order >= 3`. `BPlusChain`, `BPlusSize` and
`BPlusQueries` hold the leaf chain, the least number of keys and of nodes of a tree of a given height, and the range
scan; `BPlusIndex` is the class that callers see.

**Locks and transactions** (`lock_table.cc`, `trx.cc`). `LockHistory` proves that a history of grants, accesses and
releases under the two-phase rule is conflict-serializable. `LockState` has the queues as values, one step for each
latch-protected section; `LockRuns` proves safety of every reachable state and serializability of every run;
`LockCommit` and `LockReach` prove what a commit leaves behind, alone and among interleaved steps. `LockFlag` shows what
it costs that `is_acquired` stays false after a wake-up, and has runs that lead there. `LockAnswers` says on the queues
alone whom a release lets go on and what lock answers a request. `LockTable` has the doubly linked queues and the
per-transaction lists as mutable objects; every method of `LockManager` prolongs such a run.

**Page file and buffer** (`file.cc`, `buffer.cc`, `page.cc`). `PageBytes` has the fields of a page, `PageFormat`
their bytes. `PageFile` proves that the free list visits each free page once and that pages are divided into free and
allocated ones. `BufferRing` is the ring of frames, `BufferCache` the buffer as a value with the view its readers have,
`BufferRoom` when it has a frame to give, `PageBuffer` the arrays and index that implement it, `BufferCorner` how a
buffer loses its ring. `TablePages` shows that what the readers see of a table is itself a good page file, and states
reading, writing, unpinning and allocating as equations about it.

**On-disk tree** (`newbpt.cc`, `page.cc`). `LeafLayout` and `LeafPage` have slotted leaf pages with their space
arithmetic, `InnerPage` the internal pages. `DiskInsertion`, `DiskPages` and `DiskTree` prove insertion and search over
page numbers, with the same theory of trees as in memory: the nodes are page numbers and the records are the values'
bytes. `DiskTree` works on the buffer of `PageBuffer`, page by page as the source does, so one theorem covers all four
files: in any buffer with five frames more than pins, `db_insert` keeps the tree, never finds all frames pinned, never
evicts the entry point, loses no page, leaves every pin count as it was and no other table changed. A tree has at most
four levels, so a file with five pages to give has room for any insertion.

## How to read it

`Graph` maps a node's identity to its value; `Shape` is the tree invariant, `Holds` relates it to a map, `IsTree` adds
the occupancy bounds. `Stored`, `Represents`, `C`, `Seen` and `TreeOn` tie objects, arrays and pages to such values. Ghost
parameters named `T`, `G`, `M`, `P` and `s`, `h` are the value the heap has, the tree it is about to become, its map, the
pins in the buffer, and the lock state with its history. `lo`, `hi` and `level` of a node are ghost fields: the key
interval it is responsible for and its height.

Four things that the code does differently from what one would expect are kept as they are and described exactly:

* `find_range` returns nothing when the leaf it lands on has no key from the start of the range on, even if the next
  leaf has one (`bpt.cc:379`): `RangeIsExactIff` has the exact condition, `RangeCanMissKeys` and `MissedKey` a tree.
* An upgrade that cannot be granted at once queues behind its own shared lock and is never woken: `StuckForever`,
  `UpgradeWaitsIffShared`, `UpgradeCanWait`. Because waking a lock leaves `is_acquired` false, a later shared request may
  wait behind a single shared lock: `SharedGrantedIff`, `WokenIff`, `SharedCanWaitBehindShared`.
* Relinking a frame that is itself the entry point breaks the ring (`buffer.cc:201-213`): `MoveIffNotEntry`, and in terms
  of the pins `EvictableIff` and `CorneredBreaks`. `LoseRing` gets there by reads and one unpinning, in a buffer of any
  size; `SpareFrames` excludes it for callers that pin few pages.
* The first value of a new tree ends at offset 3968 instead of the end of the page (`newbpt.cc:140`), and stays readable
  there until the leaf is packed anew: `StartLeafPage`.

## Model

| member | source | states |
|---|---|---|
| BPlusIndex.BPlusTree.Insert | db_project/db/src/bpt.cc:805-850 | for every order >= 3, an insertion turns a valid tree (sorted, all leaves at one depth, occupancy bounds, parent links, separators, leaf chain) into a valid tree; its map gains key->value, or stays the same if the key was there. Below the root leaves keep 2 * keys >= order - 1 and inner nodes 2 * children >= order |
| BPlusIndex.BPlusTree.Delete | db_project/db/src/bpt.cc:1203-1215 | for every order >= 3, a deletion turns a valid tree into a valid tree whose map is the old one without the key, and unchanged if the key was absent; no node outside the tree is touched. Below the root leaves keep 2 * keys >= order - 1 and inner nodes 2 * children >= order |
| BPlusIndex.BPlusTree.Lookup | db_project/db/src/bpt.cc:435-446 | finds the record of a key exactly when the map has the key, and the value in it is the map's |
| BPlusIndex.BPlusTree.Range | db_project/db/src/bpt.cc:372-390 | the keys found are exactly those of the range, in order, unless the leaf the scan lands on has no key from key_start on and the next leaf begins with a key up to key_end; then nothing is found. Every record found has its key's value |
| BPlusTree.Find | db_project/db/src/bpt.cc:435-446 | for a tree in the heap that holds the map M, or none: returns M[key], or null if and only if the key is not in M |
| BPlusTree.FindInLeaf | db_project/db/src/bpt.cc:439-444 | the loop over the covering leaf finds the map's record for the key, or nothing if the map lacks it |
| BPlusTree.FindLeaf | db_project/db/src/bpt.cc:398-429 | descends to the one leaf whose key interval contains the key; null only for the empty tree |
| BPlusTree.ChildIndex | db_project/db/src/bpt.cc:413-417 | the scan stops at the child between a separator not above the key and one above it |
| BPlusTree.InsertNew | db_project/db/src/bpt.cc:831-850 | inserting an absent key, through any number of cascading splits, gives a tree for the extended map |
| BPlusTree.StartTree | db_project/db/src/bpt.cc:827-828 | the first insertion gives a one-leaf tree for the one-entry map |
| BPlusTree.StartNewTree | db_project/db/src/bpt.cc:786-802 | the new root is a leaf with one key, no parent and no next leaf |
| BPlusTree.InsertIntoLeafAfterSplitting | db_project/db/src/bpt.cc:554-619 | a full leaf splits and the tree, restored up to the root, holds the extended map |
| BPlusTree.DivideFullLeaf | db_project/db/src/bpt.cc:561-616 | the two leaves hold exactly the halves of the old entries plus the new one, chain and parent links included |
| BPlusTree.InsertIntoNodeAfterSplitting | db_project/db/src/bpt.cc:645-720 | from a tree that would have one key too many at this node, reaches a valid tree for the same map |
| BPlusTree.DivideFullNode | db_project/db/src/bpt.cc:662-712 | the two nodes hold the halves around the middle key, which is handed up |
| BPlusTree.InsertIntoParent | db_project/db/src/bpt.cc:727-761 | from the state in which the right half exists but nothing points to it, reaches a valid tree for the same map |
| BPlusTree.LinkInto | db_project/db/src/bpt.cc:626-638 | with room in the parent, separator and pointer go in next to the left half, and nothing else changes |
| BPlusTree.InsertIntoNewRoot | db_project/db/src/bpt.cc:768-779 | both halves name the new root as their parent and are its two children |
| BPlusTree.GetLeftIndex | db_project/db/src/bpt.cc:517-524 | the index found holds the pointer to the left node |
| BPlusTree.GetNeighborIndex | db_project/db/src/bpt.cc:863-881 | the result plus one is the index of the node in its parent; -1 for the leftmost child |
| BPlusTree.AdjustRoot | db_project/db/src/bpt.cc:921-956 | an empty root leaf leaves the empty tree for the empty map; a keyless inner root gives way to its child and the result is a valid tree |
| BPlusTree.CoalesceNodes | db_project/db/src/bpt.cc:965-1046 | merging a short node with a neighbour, and what follows in the parent up to the root, gives a valid tree for the same map |
| BPlusTree.AbsorbLeaf | db_project/db/src/bpt.cc:1032-1039 | the left leaf holds both leaves' entries and inherits the link to the next leaf |
| BPlusTree.AbsorbNode | db_project/db/src/bpt.cc:993-1024 | the left node holds both nodes' entries around the separator, and every child that moved names it as parent |
| BPlusTree.RedistributeNodes | db_project/db/src/bpt.cc:1055-1124 | moving one entry to the short node, in either direction and on every level, gives a valid tree for the same map |
| BPlusTree.DeleteEntry | db_project/db/src/bpt.cc:1132-1166 | from the state in which one key/pointer pair still has to go, reaches a valid tree for the remaining map |
| BPlusTree.Refill | db_project/db/src/bpt.cc:1180-1196 | a short node below the root is merged with its left neighbour, or the right one of a leftmost node, if both fit into one node, and otherwise borrows one entry from it; the result is a valid tree for the same map |
| BPlusTree.DeleteKey | db_project/db/src/bpt.cc:1203-1215 | deletes the key if it is there: the outcome is a tree for M - {key}, or the empty tree if that is empty |
| BPlusNode.InsertIntoLeaf | db_project/db/src/bpt.cc:530-546 | in place, key and pointer enter the arrays at the sorted position |
| BPlusNode.SplitLeaf | db_project/db/src/bpt.cc:554-616 | in place, the order entries are divided in half, the odd one to the right; next links and parent are those of a split |
| BPlusNode.DivideLeafPointers | db_project/db/src/bpt.cc:592-613 | copying and relinking the pointer arrays gives the halves, the left one linked to the new leaf, the right one to the old next leaf |
| BPlusNode.InsertIntoNode | db_project/db/src/bpt.cc:626-638 | in place, the separator enters at the index and the pointer behind it |
| BPlusNode.SplitNode | db_project/db/src/bpt.cc:645-708 | in place, the halves around the middle key, which neither half keeps, the odd one to the right |
| BPlusNode.AdoptChildren | db_project/db/src/bpt.cc:709-712 | every child names the node as its parent, whatever order they are visited in |
| BPlusNode.RemoveEntryFromNode | db_project/db/src/bpt.cc:884-917 | the key and the pointer, each found by its own scan, are one entry; exactly that entry is gone, and the unused pointer slots are null |
| BPlusNode.Tidy | db_project/db/src/bpt.cc:908-915 | every unused pointer slot is null, and nothing a reader of the node sees has changed, the link to the next leaf included |
| BPlusNode.AppendLeaf | db_project/db/src/bpt.cc:1032-1039 | in place, the neighbour becomes the merger of both leaves |
| BPlusNode.AppendNode | db_project/db/src/bpt.cc:993-1015 | in place, the neighbour becomes the merger of both nodes with the separator between them |
| BPlusNode.ShiftLeafRight | db_project/db/src/bpt.cc:1066-1086 | in place, the last entry of the left leaf becomes the first of the right one |
| BPlusNode.ShiftNodeRight | db_project/db/src/bpt.cc:1066-1080 | in place, the last child of the left node becomes the first of the right one, the separator moves down |
| BPlusNode.ShiftLeafLeft | db_project/db/src/bpt.cc:1095-1111 | in place, the first entry of the right leaf becomes the last of the left one |
| BPlusNode.ShiftNodeLeft | db_project/db/src/bpt.cc:1101-1113 | in place, the first child of the right node becomes the last of the left one, the separator moves down |
| BPlusNode.MakeRoot | db_project/db/src/bpt.cc:768-779 | the new root's arrays hold the key between the two nodes, whose parent it becomes |
| BPlusGraph.SameLevelUnique | db_project/db/src/bpt.cc:398-429 | in a valid tree a key belongs to only one node of each level, so the descent has only one possible end |
| BPlusGraph.ChildrenDistinct | db_project/db/src/bpt.cc:898-900 | no pointer occurs twice in a node, so a search by identity finds the right one |
| BPlusSplit.LeafInsertShape | db_project/db/src/bpt.cc:530-546 | an entry in its sorted place keeps every clause of a valid tree |
| BPlusSplit.LeafRemoveShape | db_project/db/src/bpt.cc:884-910 | an entry less keeps every clause of a valid tree but occupancy |
| BPlusSplit.SplitShape | db_project/db/src/bpt.cc:554-761 | splitting any node below the root, leaf or inner, keeps order, depth, parent links, intervals and the leaf chain at every node |
| BPlusSplit.RootedShape | db_project/db/src/bpt.cc:768-779 | splitting the root under a new root keeps them too |
| BPlusSplit.CollapseShape | db_project/db/src/bpt.cc:940-943 | replacing a keyless root by its only child keeps them too |
| BPlusMerge.CoalesceShape | db_project/db/src/bpt.cc:965-1046 | merging neighbours keeps order, depth, parent links, intervals and the leaf chain at every node |
| BPlusMerge.ShiftIsMergeThenSplit | db_project/db/src/bpt.cc:1055-1124 | redistribution of any number of entries is a merge followed by a split at another place, so it keeps what both keep |
| BPlusMerge.NextIsNeighbour | db_project/db/src/bpt.cc:1038-1038 | the next leaf of the left neighbour is the right neighbour, so the merged leaf inherits the right link |
| BPlusMap.InsertHolds | db_project/db/src/bpt.cc:530-546 | a leaf insertion adds exactly one entry to the map |
| BPlusMap.RemoveHolds | db_project/db/src/bpt.cc:884-910 | a leaf removal takes exactly one entry out of the map |
| BPlusMap.SplitHolds | db_project/db/src/bpt.cc:554-720 | a split neither loses nor duplicates an entry |
| BPlusMap.CoalesceHolds | db_project/db/src/bpt.cc:965-1046 | a merge neither loses nor duplicates an entry |
| BPlusMap.LeafDecides | db_project/db/src/bpt.cc:435-446 | a key is in the map if and only if the leaf that covers it has it |
| BPlusMap.DescendStep | db_project/db/src/bpt.cc:406-421 | the child chosen covers the key and lies one level lower |
| BPlusMap.SplitFilled | db_project/db/src/bpt.cc:590-602 | for every order >= 3 both halves of an overfull node are within bounds, and only the parent can become overfull |
| BPlusMap.TreeIsHalfFull | db_project/db/src/bpt.cc:1159-1166 | in every tree no node has more than order - 1 keys, a leaf below the root has 2 * keys >= order - 1 and an inner node 2 * children >= order |
| BPlusMap.CoalesceFilled | db_project/db/src/bpt.cc:1186-1191 | for every order >= 3 a merge that passes the capacity test stays within bounds, and only the parent can become short |
| BPlusInsertion.InsertStep | db_project/db/src/bpt.cc:840-843 | with room, insertion into the covering leaf yields a tree for the extended map |
| BPlusInsertion.LeafDivideStep | db_project/db/src/bpt.cc:554-618 | dividing a full leaf leaves exactly the pending state that insert_into_parent expects |
| BPlusInsertion.DivideStep | db_project/db/src/bpt.cc:690-719 | dividing a full inner node and letting the children follow leaves the same pending state one level up |
| BPlusInsertion.PendingParent | db_project/db/src/bpt.cc:743-760 | linking the new half gives a tree, or a single overfull node strictly nearer to the root |
| BPlusInsertion.PendingRoot | db_project/db/src/bpt.cc:736-737 | a divided root under a new root is a tree |
| BPlusDeletion.DeletionStart | db_project/db/src/bpt.cc:1203-1212 | in the landing leaf the key and its record stand at one index, each found there first; without them the tree holds M - {key} |
| BPlusDeletion.MergeStep | db_project/db/src/bpt.cc:965-1046 | a merge moves the shortage to the parent, strictly nearer to the root |
| BPlusDeletion.BorrowStep | db_project/db/src/bpt.cc:1055-1124 | when two neighbours do not fit into one node, one borrowed entry makes both large enough, and the tree is valid again |
| BPlusDeletion.CollapseStep | db_project/db/src/bpt.cc:940-943 | the child of a keyless root is the root of a valid tree |
| BPlusDeletion.EmptyStep | db_project/db/src/bpt.cc:948-949 | a root leaf without keys stands for the empty map |
| BPlusChain.ChainVisitsEveryLeafOnce | db_project/db/src/bpt.cc:607-613 | from any leaf, following the last pointers visits every leaf from there on, each once, in key order |
| BPlusChain.ChainIsSortedMap | db_project/db/src/bpt.cc:1032-1039 | the keys met are strictly increasing and are the map's keys from that leaf on |
| BPlusChain.FullChain | db_project/db/src/bpt.cc:607-613 | from the leaf that the first pointers lead to, the chain has all leaves and lists all keys of the map in increasing order |
| BPlusSize.LeastKeys | db_project/db/src/bpt.cc:1159-1166 | a tree of height h >= 1 holds at least 2 * ((order + 1) / 2)^(h-1) * (order / 2) keys |
| BPlusSize.LeastNodes | db_project/db/src/newbpt.cc:449-522 | a tree of height h >= 1 whose inner nodes have at least b children has at least 2 * b^(h-1) nodes |
| BPlusSize.LevelsHaveNodes | db_project/db/src/bpt.cc:252-260 | below a node there is at least one node for every level |
| BPlusQueries.Height | db_project/db/src/bpt.cc:252-260 | the first pointers lead to a leaf in as many steps as every path does |
| BPlusQueries.FindRange | db_project/db/src/bpt.cc:372-390 | with a landing leaf that has a key from key_start on: exactly the keys in range, in order, each with its own record; otherwise nothing. In a tree the result is the range if and only if the scan does not give up at a leaf whose successor begins with a key up to key_end. The count never exceeds key_end - key_start + 1 |
| BPlusQueries.RangeIsExactIff | db_project/db/src/bpt.cc:379-379 | the early return loses keys if and only if the landing leaf has no key from key_start on and the next leaf begins with a key up to key_end |
| BPlusQueries.RangeCanMissKeys | db_project/db/src/bpt.cc:379-379 | in the tree of order 3 with the leaves [1] and [5] a scan from 2 to 5 does not land, the next leaf begins with 5, and nothing is not the range |
| BPlusQueries.MissedKey | db_project/db/src/bpt.cc:379-379 | such a tree built in the heap, and a call of the scan on it that reports nothing although the tree has key 5 |
| LockHistory.HoldsCompatible | db_project/db/src/lock_table.cc:95-150 | in a legal history nobody holds a record that another holds exclusively |
| LockHistory.HandOver | db_project/db/src/lock_table.cc:219-268 | between conflicting holds of two transactions the first one releases and then the second one is granted |
| LockHistory.LockPointBeforeRelease | db_project/db/src/trx.cc:111-118 | all grants of a transaction come before its first release |
| LockHistory.PrecedesByLockPoint | db_project/db/src/trx.cc:111-122 | if t's access conflicts with a later one of u, then t's last grant precedes u's last grant |
| LockHistory.Serializable | db_project/db/src/trx.cc:111-122 | the precedence relation of a legal history has no cycle |
| LockState.GrantStep | db_project/db/src/lock_table.cc:255-268 | waking a lock with only granted shared locks ahead of it keeps the invariant, and the grant is legal |
| LockState.WakeStep | db_project/db/src/lock_table.cc:255-268 | after the signals the new head is granted, nothing but grants has been added, and the history stays legal |
| LockAnswers.WakeIs | db_project/db/src/lock_table.cc:255-268 | a new head that was not acquired at once is granted, and so is every lock with nothing but shared locks from the head up to itself; no other lock is |
| LockAnswers.ReleaseWakes | db_project/db/src/lock_table.cc:190-281 | a release at the head grants the lock behind it if that was not acquired at once, and with it every lock with nothing but shared locks from there up to itself; any other release, and any other lock: nothing |
| LockState.RemoveStep | db_project/db/src/lock_table.cc:219-252 | a lock that leaves its queue from any position keeps the invariant |
| LockState.ReleaseStep | db_project/db/src/lock_table.cc:190-281 | a release keeps the whole invariant, granted heads included, although is_acquired stays false on wake-up |
| LockState.UpgradeStep | db_project/db/src/lock_table.cc:119-131 | an upgrade in place is legal: nobody else holds the record |
| LockState.EnqueueStep | db_project/db/src/lock_table.cc:134-162 | a new lock, granted or waiting, keeps the whole invariant |
| LockState.AcquireStep | db_project/db/src/lock_table.cc:47-188 | every decision of lock_acquire keeps the whole invariant |
| LockAnswers.AcquireAnswers | db_project/db/src/lock_table.cc:77-160 | the answer is a lock of the transaction on the record, exclusive if that was asked for; if it is granted, the transaction holds the record at least in the mode asked for. A new lock stands at the end of its queue, and no other lock changes |
| LockAnswers.ExclusiveGrantedIff | db_project/db/src/lock_table.cc:119-150 | an exclusive request, without an exclusive lock already, is granted if and only if no other transaction has a lock on the record |
| LockState.DecisionUnique | db_project/db/src/lock_table.cc:95-150 | the queue of the record determines the answer to a request |
| LockRuns.StepKeepsFull | db_project/db/src/lock_table.cc:47-281 | begin, acquire, access, release and end keep the invariant |
| LockRuns.ReachableIsSafe | db_project/db/src/lock_table.cc:95-157 | in every reachable state: the head of every queue is granted, granted locks are a prefix, and two of them belong to different transactions and are both shared |
| LockRuns.RunsAreSerializable | db_project/db/src/trx.cc:78-132 | every run, in any interleaving, is conflict-serializable |
| LockRuns.RunsFollowLockPoints | db_project/db/src/trx.cc:111-122 | in every run conflicting accesses follow the order of the last grants |
| LockRuns.UpgradeWaitsIffShared | db_project/db/src/lock_table.cc:119-150 | an upgrade waits if and only if another transaction has a lock on the record |
| LockFlag.UpgradeCanWait | db_project/db/src/lock_table.cc:119-150 | a run of five steps after which an upgrade waits behind its own shared lock |
| LockRuns.StuckForever | db_project/db/src/lock_table.cc:170-180 | an upgrade that waits behind its own shared lock waits in every later state |
| LockFlag.SharedGrantedIff | db_project/db/src/lock_table.cc:133-141 | with no exclusive lock of others on the record, a shared request is granted if and only if the last lock in the queue was granted at once rather than woken; in either case no one holds the record in a conflicting mode |
| LockFlag.SharedCanWaitBehindShared | db_project/db/src/lock_table.cc:133-141 | a run after which a shared request waits behind a single granted shared lock, because waking left its is_acquired false |
| LockReach.FlagIsAnswer | db_project/db/src/lock_table.cc:133-149 | in every run, is_acquired of a queued lock says how its request was answered, and no later step changes it |
| LockReach.WokenIff | db_project/db/src/lock_table.cc:254-268 | so a granted lock has the flag false if and only if it was queued to wait and woken later |
| LockReach.RunWakes | db_project/db/src/lock_table.cc:255-268 | in every run, the releases of a commit included: a release step grants exactly the locks that stand behind the released head as the wake-up rule says |
| LockReach.RunAnswers | db_project/db/src/lock_table.cc:77-160 | in every run, an acquire step answers with a lock of the transaction on the record in the mode asked for |
| LockReach.CommitIsRun | db_project/db/src/trx.cc:111-122 | a commit is a run: the releases of the transaction's locks in the order of its list, then its end |
| LockReach.EndedForGood | db_project/db/src/trx.cc:120-122 | in every interleaving, from the end of a commit on no queue has a lock of the transaction |
| LockReach.RunKeepsOrder | db_project/db/src/lock_table.cc:219-252 | in every interleaving, of two locks that stay queued the one ahead stays ahead |
| LockCommit.CommitStep | db_project/db/src/trx.cc:111-122 | releasing a running transaction's locks one by one ends in a state that keeps the invariant and no longer knows the transaction |
| LockCommit.CommitKeepsOrder | db_project/db/src/trx.cc:111-118 | every queue is afterwards the old one without the transaction's locks, in the old order |
| LockCommit.CommitLeavesNone | db_project/db/src/trx.cc:111-118 | a lock is still queued after the commit if and only if it belongs to another transaction |
| LockCommit.OwnedExactlyOnce | db_project/db/src/trx.cc:167-186 | every queued lock stands at exactly one place of its owner's list and in no other list |
| LockTable.Scan | db_project/db/src/lock_table.cc:95-117 | the walk over the linked queue finds a lock that covers the request, or what else is queued |
| LockTable.Decide | db_project/db/src/lock_table.cc:95-150 | the pointers found in the walk lead to the decision that the queue determines |
| LockTable.ChainWithout | db_project/db/src/lock_table.cc:219-252 | closing up the neighbours of a lock gives a doubly linked queue of the others |
| LockTable.Unlink | db_project/db/src/lock_table.cc:219-252 | in place, the neighbours close up, and head and tail maps change only for a lock at the end |
| LockTable.LeaveQueue | db_project/db/src/lock_table.cc:219-252 | links, head map and tail map are those of all the queues with the lock taken out |
| LockTable.JoinQueue | db_project/db/src/lock_table.cc:83-156 | links, head map and tail map are those of all the queues with the lock at the end of its own |
| LockTable.EntryFor | db_project/db/src/lock_table.cc:57-69 | a page has one entry in the table, made on first use |
| LockTable.TrxAdd | db_project/db/src/trx.cc:135-203 | the lock is appended to its transaction's linked list; refused if and only if the transaction is unknown |
| LockTable.WakeLocks | db_project/db/src/lock_table.cc:255-268 | signalled are a new head that was not acquired at once, and the locks with nothing but shared locks from it up to themselves; no others |
| LockTable.ReleaseIn | db_project/db/src/lock_table.cc:190-281 | on the linked objects, a release reaches the state the release rule describes |
| LockTable.AcquireIn | db_project/db/src/lock_table.cc:47-168 | on the linked objects, an acquire reaches the state its decision describes, or exits if and only if the transaction is unknown |
| LockTable.ReleaseAll | db_project/db/src/trx.cc:111-118 | the loop over the transaction's list releases all of its locks |
| LockTable.LockManager.TrxBegin | db_project/db/src/trx.cc:51-76 | the run gains a Begin step; the identifier is new |
| LockTable.LockManager.LockAcquire | db_project/db/src/lock_table.cc:47-188 | the run gains an Acquire step, so everything proved of runs holds of the objects; the answer is a lock on the record in the mode asked for, held by the transaction if granted; exit if and only if the transaction is unknown |
| LockTable.LockManager.LockRelease | db_project/db/src/lock_table.cc:190-281 | the run gains a release step; a lock is granted afterwards if and only if it was before or stands behind the released head as the wake-up rule says, in terms of the queue |
| LockTable.LockManager.TrxCommit | db_project/db/src/trx.cc:78-132 | the run gains exactly the releases of the transaction's locks and its end; an unknown transaction changes nothing |
| LockTable.LockManager.ReleaseLocks | db_project/db/src/trx.cc:111-122 | the loop and the cleared entry reach the state after the commit |
| LockTable.LockManager.Use | db_project/db/src/lock_table.cc:185-187 | an access under a granted lock joins the run and the history |
| LockTable.LockManager.HistoryIsSerializable | db_project/db/src/trx.cc:111-122 | whatever calls have been made, the manager's history is conflict-serializable |
| PageBytes.DecodeEncode | db_project/db/src/page.cc:4-34 | an n-byte field holds the value modulo 256^n |
| PageBytes.EncodeDecode | db_project/db/src/page.cc:4-34 | a field read and written back has the same bytes |
| PageBytes.NumberRoundTrip | db_project/db/src/page.cc:4-34 | reading a field after writing it gives the value, truncated to the field |
| PageBytes.NumberElsewhere | db_project/db/src/page.cc:4-34 | writing a field leaves disjoint fields as they were |
| PageBytes.HeaderFields | db_project/db/src/page.cc:4-47 | free-list head, page count and root page number are independent fields |
| PageFile.WalkIsFree | db_project/db/src/file.cc:114-131 | following the links from the header visits each free page once and ends at 0 |
| PageFile.FreeListUnique | db_project/db/src/file.cc:114-131 | the bytes of the file determine the free list and the set of allocated pages |
| PageFile.PopStep | db_project/db/src/file.cc:117-156 | allocation from the list keeps the division of pages 1..N-1 into free and allocated ones |
| PageFile.DoubleStep | db_project/db/src/file.cc:157-229 | so does doubling the file and taking its last page |
| PageFile.PushStep | db_project/db/src/file.cc:255-308 | so does freeing an allocated page |
| PageFile.GrowStep | db_project/db/src/file.cc:347-404 | so does the growth on a read beyond the end |
| PageFile.FreeThenAllocate | db_project/db/src/file.cc:96-323 | the page freed last is allocated next, and doing both leaves list and allocated pages as they were |
| PageFile.GrownCountIs | db_project/db/src/file.cc:347-404 | the file doubles as often as it takes to hold the page, and no oftener |
| PageFile.OffsetFits | db_project/db/src/file.cc:326-345 | the bound on the page count is where an offset no longer fits into 32 bits |
| PageFile.DownJoins | db_project/db/src/file.cc:347-404 | the free pages linked by two successive doublings form one list |
| PageFile.RewriteIff | db_project/db/src/file.cc:516-530 | other bytes on a page keep the file good if and only if they keep the free list and the page count: any bytes on an allocated page |
| PageFile.DiskFile.constructor | db_project/db/src/file.cc:8-93 | a new file has all pages but the header free, listed downwards, and no root |
| PageFile.DiskFile.LinkPages | db_project/db/src/file.cc:24-49 | the loop links each new free page to the one before it |
| PageFile.DiskFile.AllocPage | db_project/db/src/file.cc:96-233 | never returns 0 or an allocated page; the list loses its head, or the file doubles; other pages keep their bytes |
| PageFile.DiskFile.FreePage | db_project/db/src/file.cc:236-323 | an allocated page becomes the head of the list, and nothing else changes |
| PageFile.DiskFile.ReadPage | db_project/db/src/file.cc:326-432 | returns the page's bytes; beyond the end the file doubles until it holds the page, and no allocated page changes |
| PageFile.DiskFile.WritePage | db_project/db/src/file.cc:435-543 | changes exactly one page; the file stays good if and only if the new bytes keep the free list and the page count |
| BufferRing.UnlinkRing | db_project/db/src/buffer.cc:201-205 | closing up around a frame leaves one cycle of the others |
| BufferRing.AppendRing | db_project/db/src/buffer.cc:157-169 | linking a frame behind the entry point gives one cycle that ends in it |
| BufferRing.MoveRing | db_project/db/src/buffer.cc:354-367 | relinking any frame but the entry point moves it to the end of the one cycle |
| BufferRing.MoveIffNotEntry | db_project/db/src/buffer.cc:201-218 | relinking a frame of the ring leaves a ring if and only if the frame is not the entry point |
| BufferRoom.EvictableIff | db_project/db/src/buffer.cc:171-218 | in a full buffer the eviction leaves a ring if and only if some frame other than the entry point is unpinned |
| BufferRoom.CorneredBreaks | db_project/db/src/buffer.cc:171-218 | a good buffer is not evictable exactly if it is full and the entry point is the only unpinned frame; then the entry point is the victim, and its relinking leaves no ring in any order |
| BufferCorner.Corner | db_project/db/src/buffer.cc:294-417 | for any buffer size below 2560: filling all frames by reads and unpinning the page read last leads to a good buffer in which only the entry point can be evicted |
| BufferCorner.LoseRing | db_project/db/src/buffer.cc:294-372 | one more read then gives the page and leaves frames that form no ring in any order |
| BufferRing.OrderUnique | db_project/db/src/buffer.cc:354-367 | links and entry point determine the order of the ring |
| BufferCache.FillStep | db_project/db/src/buffer.cc:148-170 | loading into an unused frame leaves the view of every page, and the index has exactly the cached pages |
| BufferCache.EvictStep | db_project/db/src/buffer.cc:171-219 | so does an eviction, with its write-back; no pin count changes |
| BufferCache.HitStep | db_project/db/src/buffer.cc:342-367 | a repeated read changes no view; the frame becomes the most recent one and is pinned once more |
| BufferCache.ReplaceStep | db_project/db/src/buffer.cc:189-218 | replacing a frame keeps ring, index and view |
| BufferCache.Truncated | db_project/db/src/buffer.cc:121-121 | a page number survives the 16-bit parameter if and only if it is below the page limit |
| BufferCache.LeastRecentlyRead | db_project/db/src/buffer.cc:172-177 | the first unpinned frame behind the entry point holds the page that was read longest ago among the unpinned ones |
| BufferRoom.AllPinnedPages | db_project/db/src/buffer.cc:179-187 | every frame is pinned if and only if the buffer is full and every page in it is pinned |
| BufferRoom.SpareFrames | db_project/db/src/buffer.cc:171-187 | with two frames more than pins a read finds a victim, and one that is not the entry point |
| BufferRoom.NoFrameLeftIff | db_project/db/src/buffer.cc:234-237 | when the second read of an allocation fails, in terms of the buffer before the first |
| BufferRoom.AllocSucceeds | db_project/db/src/buffer.cc:234-237 | with three frames more than pins an allocation does not fail |
| BufferCache.OverwriteStep | db_project/db/src/buffer.cc:395-396 | a write changes the view at one page only |
| BufferCache.FlushedIsView | db_project/db/src/buffer.cc:436-441 | once every frame is on the disk, the disk is the view |
| BufferCache.AllocStep | db_project/db/src/buffer.cc:234-234 | an allocation in the file changes the view of no page but the header |
| BufferCache.AllocHeader | db_project/db/src/buffer.cc:236-244 | the header that is about to be written has the free-list head and page count of the header on the disk |
| BufferCache.AllocFinish | db_project/db/src/buffer.cc:228-257 | after an allocation the header seen through the buffer agrees with the one on the disk, across doubling and eviction |
| PageBuffer.FindIndex | db_project/db/src/buffer.cc:55-97 | the search from both sides of the entry point finds a page exactly when the index has it, at the frame the index names |
| PageBuffer.FindVictim | db_project/db/src/buffer.cc:172-177 | the first unpinned frame in ring order, or none if and only if all are pinned |
| PageBuffer.UnlinkFrame | db_project/db/src/buffer.cc:201-205 | the neighbours close up, in the order of assignments of the source |
| PageBuffer.LinkFrame | db_project/db/src/buffer.cc:207-213 | the frame goes behind the entry point, in the order of assignments of the source |
| PageBuffer.Buffer.constructor | db_project/db/src/buffer.cc:27-53 | an empty buffer over the open files, with as many frames as asked for, and at least 10 |
| PageBuffer.Buffer.Append | db_project/db/src/buffer.cc:130-170 | in place, the page is in the first unused frame, last in the ring, and in the index |
| PageBuffer.Buffer.Evict | db_project/db/src/buffer.cc:171-219 | in place, the least recently read unpinned frame is written back and replaced, the entry point included; it fails if and only if all are pinned |
| PageBuffer.Buffer.ReadPage | db_project/db/src/buffer.cc:294-372 | returns the view of the page; every view stays the same, the page is pinned once more, and only unpinned, least recently read pages leave. The frames form a ring afterwards if and only if the page was in the buffer or a frame other than the entry point could be evicted |
| PageBuffer.Buffer.WritePage | db_project/db/src/buffer.cc:374-401 | changes the view of this page to the given bytes and no other view, and keeps the pins; refused if and only if the page is not pinned. The buffer stays good for allocated pages and for headers that follow the file's |
| PageBuffer.Buffer.UnpinPage | db_project/db/src/buffer.cc:403-417 | one pin less on this page and no view changed; the buffer stays good if and only if the page was pinned |
| PageBuffer.Buffer.Flush | db_project/db/src/buffer.cc:436-441 | afterwards every page of every file is what readers of the buffer saw |
| PageBuffer.Buffer.AllocPage | db_project/db/src/buffer.cc:228-257 | takes the head of the free list or the last page after doubling; the header in the buffer and on the disk agree afterwards, and no other view, no pin and no other file's books change. It fails exactly when one of its two reads finds every frame pinned |
| PageBuffer.Buffer.ReadBoth | db_project/db/src/buffer.cc:236-237 | the header and the new page are read in turn; exactly when one of them finds no frame is stated on the buffer before |
| TablePages.SeenIsFile | db_project/db/src/buffer.cc:294-372 | what the readers of the buffer see of a table is itself a good page file, with the free list and page count of the one on the disk |
| TablePages.ReadInto | db_project/db/src/buffer.cc:294-372 | returns the page as seen, changes nothing seen of any table, and pins this page once |
| TablePages.WriteFrom | db_project/db/src/buffer.cc:374-401 | changes this page of this table to the given bytes, and nothing else seen of any table; the pins stay |
| TablePages.Unpin | db_project/db/src/buffer.cc:403-417 | one pin less, nothing seen changes |
| TablePages.TakePage | db_project/db/src/buffer.cc:228-257 | with three frames to spare: a free page becomes allocated, other pages, the root and all other tables are seen as before, and the pins stay |
| PageFormat.HeaderFormat | db_project/db/src/page.cc:4-47 | the bytes of the header fields and of a free page, least significant first |
| PageFormat.LeafFormat | db_project/db/src/page.cc:52-114 | the bytes of the leaf header and of the slots |
| PageFormat.InnerFormat | db_project/db/src/page.cc:132-204 | the bytes of the internal header, of the keys and of the page numbers around them |
| LeafLayout.SlotRoundTrip | db_project/db/src/page.cc:106-114 | a slot reads back as written, and no other byte of the page changes |
| LeafLayout.OffsetBounds | db_project/db/src/newbpt.cc:236-261 | every value lies inside the page, behind the slots |
| LeafLayout.EntriesDisjoint | db_project/db/src/newbpt.cc:236-261 | values of different entries do not overlap |
| LeafLayout.PackNext | db_project/db/src/newbpt.cc:241-256 | writing one more entry disturbs neither the entries before it nor the header |
| LeafLayout.SplitBounds | db_project/db/src/newbpt.cc:296-377 | the split leaves 1860..1983 bytes on the left and 1986..2232 on the right; both are non-empty with free space below 2500, and there are at most 65 temporary slots |
| LeafPage.FindSlot | db_project/db/src/newbpt.cc:211-229 | the binary search finds the first slot not below the key |
| LeafPage.Gather | db_project/db/src/newbpt.cc:229-240 | the temporary arrays hold the old entries with the new one in its place |
| LeafPage.PackAll | db_project/db/src/newbpt.cc:241-256 | the page holds exactly the gathered entries, and its header is untouched |
| LeafPage.InsertIntoLeafPage | db_project/db/src/newbpt.cc:201-281 | slot i leads to the i-th entry of the sorted list for every i, and the free-space field is 3968 minus the space used |
| LeafPage.SplitLeafPage | db_project/db/src/newbpt.cc:283-377 | the entries of the two pages, one after the other, are the sorted old ones plus the new one; sibling and parent fields are those of a split |
| LeafPage.StartLeafPage | db_project/db/src/newbpt.cc:131-149 | the first leaf reads back its one entry, whose value ends at offset 3968 |
| InnerPage.FindChild | db_project/db/src/newbpt.cc:656-712 | the binary search finds the child responsible for the key |
| InnerPage.FindLeftIndex | db_project/db/src/newbpt.cc:566-605 | the index found holds the left page number |
| InnerPage.InsertIntoInnerPage | db_project/db/src/newbpt.cc:534-563 | in place, key and page number enter at the index and the cells behind move up |
| InnerPage.SplitInnerPage | db_project/db/src/newbpt.cc:449-522 | the two pages hold the 123 keys before and the 125 keys behind the key that is handed up, with their page numbers |
| InnerPage.MakeRootPage | db_project/db/src/newbpt.cc:608-653 | the new root has the key between the two page numbers |
| DiskInsertion.RoomStep | db_project/db/src/newbpt.cc:176-186 | with enough free bytes in the leaf, the result is a tree for the extended map |
| DiskInsertion.LeafDividing | db_project/db/src/newbpt.cc:296-377 | a leaf without room divides where the byte count says, and both halves are within the space bounds |
| DiskInsertion.DiskTreeBounds | db_project/db/src/newbpt.cc:449-522 | in every tree an internal page has at most 248 keys and below the root at least 123; a leaf uses at most 3968 bytes and below the root at least 1860 |
| DiskInsertion.InnerDividing | db_project/db/src/newbpt.cc:449-522 | an internal page with 249 keys divides into pages within bounds, children's parent fields included |
| DiskInsertion.ParentStep | db_project/db/src/newbpt.cc:400-447 | linking the new page gives a tree, or one overfull page strictly nearer to the root |
| DiskInsertion.NewRootStep | db_project/db/src/newbpt.cc:608-653 | a divided root under a new root is a tree |
| DiskPages.StoreStep | db_project/db/src/newbpt.cc:264-265 | writing a node's page changes that node of the tree and keeps the header and the room |
| DiskPages.RootStep | db_project/db/src/newbpt.cc:627-641 | writing the root number into the header keeps the tree |
| DiskPages.AllocStep | db_project/db/src/newbpt.cc:291-291 | an allocated page is none of the tree's, and uses up one page of room |
| DiskTree.InsertIntoLeaf | db_project/db/src/newbpt.cc:201-281 | through the buffer, only the leaf's page changes, and it holds the entry in its place; the pins are as before |
| DiskTree.InsertIntoLeafAfterSplitting | db_project/db/src/newbpt.cc:283-396 | through the buffer, reaches a valid tree for the extended map, and the header names its root; the pins are as before |
| DiskTree.InsertIntoNodeAfterSplitting | db_project/db/src/newbpt.cc:449-530 | through the buffer, an overfull internal page is divided and the pages form a valid tree for the same map; the pins are as before |
| DiskTree.InsertIntoParent | db_project/db/src/newbpt.cc:400-447 | through the buffer, links the new page into the parent, splitting upwards, and reaches a valid tree; the pins are as before |
| DiskTree.InsertIntoInternal | db_project/db/src/newbpt.cc:534-563 | through the buffer, the parent gains the separator and the page number, and no other page changes |
| DiskTree.InsertIntoNewRoot | db_project/db/src/newbpt.cc:608-653 | through the buffer, with four pages pinned at once, a new page is the root over both, both parent fields name it, and so does the header |
| DiskTree.GetLeftIndex | db_project/db/src/newbpt.cc:566-605 | the index found holds the left page number; the parent is unpinned again |
| DiskTree.ParentOfHalf | db_project/db/src/newbpt.cc:406-439 | the parent named by the page, the position of the page in it, and whether it has 248 keys |
| DiskTree.AdoptPages | db_project/db/src/newbpt.cc:505-511 | through the buffer, every child of the new page names it in its parent field |
| DiskTree.FindLeafPage | db_project/db/src/newbpt.cc:656-712 | descends to the one leaf page whose interval contains the key, pinning one page at a time; 0 without a root |
| DiskTree.DbFind | db_project/db/src/newbpt.cc:714-767 | returns size and bytes of the value exactly if the map has the key, -1 if not; nothing seen changes, and the pins are as before |
| DiskTree.StartTree | db_project/db/src/newbpt.cc:131-167 | the first insertion makes a one-leaf tree and names it in the header; the pins are as before |
| DiskTree.InsertNew | db_project/db/src/newbpt.cc:168-198 | inserting an absent key, through any number of splits, gives a valid tree on page numbers for the extended map; the pins are as before |
| DiskTree.DbInsert | db_project/db/src/newbpt.cc:100-198 | in any buffer with five frames more than pins: never finds all frames pinned and never evicts the entry point; pages are needed only if the leaf has to split; 0 and one more entry if the key is new, -1 and no change if not; every pin count is as before, no page is lost, and no other table is seen to change |
| DiskTree.FourLevels | db_project/db/src/newbpt.cc:449-522 | a tree of fewer than 65536 pages has at most four levels |
| DiskTree.FivePages | db_project/db/src/newbpt.cc:283-653 | so five pages are enough for any insertion |
| DiskTree.TakesIff | db_project/db/src/newbpt.cc:176-186 | whether an absent key needs no new page is decided by the free space of the one leaf that covers it |
| DiskTree.RoomWhileDoubling | db_project/db/src/file.cc:157-204 | as long as the page count can double within 65536 pages an insertion has the pages it may need |
| DiskTree.FirstWinsIs | db_project/db/src/newbpt.cc:111-122 | after a history of insertions a key has the value inserted for it first, and only inserted keys are there |
| DiskTree.Table.Find | db_project/db/src/newbpt.cc:714-767 | size and bytes of the value the table has for the key, or -1 if and only if there is none |
| DiskTree.Table.Insert | db_project/db/src/newbpt.cc:100-198 | keeps the table valid; 0 and one more entry if the key is new, -1 and no change but the stored value in the caller's buffer if not; pins and other tables as before. Internal pages have 123 to 248 keys and leaves use 1860 to 3968 bytes, the root aside |
| DiskTree.Table.InsertAll | db_project/db/src/newbpt.cc:100-198 | over a history of insertions the table holds exactly the first value of every key, and it stops only when the file has fewer than five pages to give |
| DiskTree.OpenFirst | db_project/db/src/buffer.cc:27-53 | a buffer over one new file holds the empty table, has at least 10 frames and pins nothing |
| DiskTree.FillNewTable | db_project/db/src/newbpt.cc:100-198 | a new table takes a history of insertions and answers a search whatever number of frames was asked for |
| DiskTree.EveryPage | db_project/db/src/newbpt.cc:100-198 | insertions lose no page: each one but the header is either free or a page of the tree |

## Left out

- Menus, printing, licence text, the print queue, `main.cc`, `log.cc` and debug output: user interface only.
- `destroy_tree` and all freeing; failures of `malloc`.
- System calls and their failures: a file is a map from page numbers to pages. `fsync` and closing have no effect on it.
- Where the source calls `exit(1)`, a method returns `Exit`, `None` or `false`.
- Array loops that the source repeats for keys and for pointers are methods of their own in module `Arrays`; `delete_entry` is divided into `DeleteEntry` and `Refill`.
- Deletion in `newbpt.cc`: its search for a child assumes that page numbers are sorted (`newbpt.cc:1475-1489`), and its leaf redistribution moves the wrong slot and loops on counts it has changed (`newbpt.cc:1129-1175`). `bpt.cc` has the sound version of the algorithm.
- `buffer_free_page`: it goes on after freeing the page in the file (`buffer.cc:267-280`), and a page freed in the buffer is unknown to `file_alloc_page`. Conservation of the free list is proved for the file.
- Progress of a waiting upgrade, deadlock detection and abort: the source has stubs (`trx.cc:205-235`).
- The bodies of the transactional `db_find` and `db_update`: they read a copy of the page made before the lock is granted (`newbpt.cc:1578-1617`). Accesses are events of a run that happen under a granted lock.
- Page mutexes and copied control blocks; the read of the global identifier after unlocking in `trx_begin` (`trx.cc:72-75`), which is taken to be atomic.
- Spurious wake-ups, and several threads in one transaction: a condition variable is the field `waiting` of a lock, cleared by a signal, and a transaction that waits does nothing else.
- What the operating system does between two latched sections: runs take any interleaving of whole sections, so `lock_acquire` is one step and `trx_commit` one step for each lock.
- LockTable.LockManager.LockAcquire: after an exit because of an unknown transaction nothing is said about the table.
- LockTable.LockManager.LockRelease: only of the oldest lock of a transaction, which is what `trx_commit`, its one caller, passes. Releasing another lock would leave it in the transaction's list, since `lock_release` does not touch that list.
- The search in an empty ring: the source reads a control block before it knows that there is one and ignores the value (`buffer.cc:55-97`); the model does not read it.
- PageBuffer.Buffer.ReadPage: page numbers are below 65536, since `read_new_page` takes a 16-bit number, and the page exists. After a read that loses the ring, later calls are not described: every one of them searches along it.
- PageBuffer.Buffer.WritePage: of pages in the buffer; the source reads a frame at index -1 for others. After other bytes than those the contract names only the views are stated.
- PageBuffer.Buffer.UnpinPage: only of pages in the buffer; the source writes a control block at index -1 for others.
- PageBuffer.Buffer.AllocPage: only in runs without `buffer_free_page`, and if reading the header does not lose the ring, since its second read would search along it; for files of at most 65536 pages afterwards; on `None` nothing is said about the buffer, as the source exits.
- PageFile.DiskFile.WritePage: only of pages in range, because the growth loop never updates its bound (`file.cc:458-514`).
- PageFile.DiskFile.ReadPage: growth up to 2^19 pages, because offsets are computed in 32-bit integers.
- PageFile.DiskFile.AllocPage: the same bound on growth. Opening a file that already exists is not modelled.
- The bytes of new pages other than the fields written are undefined in the source and arbitrary in the model.
- The list of open paths in `open_table`, its limit of 20 and the refusal to open a path twice.
- A second session: `shutdown_buffer` does not clear `page_buffer_map`. The buffer is modelled for one session that begins with an empty map.
- DiskTree.Table.Insert: keys fit in an `int`, because the descent takes one (`newbpt.cc:656`); values have 50 to 112 bytes; all pages are below 65536, since `read_new_page` takes a 16-bit number (`buffer.cc:121`), so if the leaf has to split the file has room for one page a level and a new root without growing beyond 65536 pages, for which five pages are enough; the buffer has five frames more than there are pins.
- The order in which `insert_into_node_after_splitting` writes its pages is kept, but a failure between two writes is not modelled.
- Integers of the source other than keys, page fields and file offsets are unbounded.
