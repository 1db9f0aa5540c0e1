# libobject: a verified model

libobject is an object system for C with a container library and a few services on top. This
project models its most intricate parts in Dafny and proves what they promise over every input and
every run. `dafny verify dfyconfig.toml` checks all of it.

| file | models |
|---|---|
| `Prelude.dfy`, `Strings.dfy` | options, reversal, the order of C strings (`strcmp`) |
| `ClassTable.dfy`, `ObjectRuntime.dfy` | class tables, the four lookups, construction, overriding and destruction of objects |
| `Forest.dfy`, `TreeOrder.dfy`, `NTree.dfy` | the n-ary tree: linked nodes with child arrays and parent pointers |
| `ObjectCache.dfy` | the recycling object cache and the branch of `object_destroy` that feeds it |
| `Trie.dfy` | the character trie |
| `OrderedTrees.dfy` | same-key search and interval search over ordered binary trees |
| `Calendar.dfy`, `DateTime.dfy` | the Gregorian calendar in UTC and the interval splitters of `Date_Time` |
| `FileCopy.dfy` | copying a file to and from a remote node in chunks |
| `Player.dfy`, `PlayerRuns.dfy` | player flags, bounded packet queues, the stop handshake |
| `StubAdmin.dfy` | the allocator of executable stub areas |

## How the parts are modelled

**Object runtime.** A registry maps class names to tables of entries. A function slot is addressed
by class and name; a slot that is absent is NULL, as after the `memset` of `object_new`. The
reference for dispatch is `Resolve`: the first non-NULL virtual entry on the walk from a class to
its root. A constructor call is logged together with the slots it could see. The virtual `set`
found by the lookups is taken to be the slot writer of `Obj`.

**NTree.** Nodes are heap objects with their own child arrays. Beside them a ghost `shape` keeps,
for every live node, the path from the top of its tree and the list of its children; acyclicity,
subtrees, depth and the count of nodes are read off the paths. `Valid()` ties the fields to the
shape and holds after every operation, whatever run of operations came before. `Counted()` says
that `node_count` is the number of nodes reachable from the root; the contracts of insertion,
detaching and freeing say exactly when it survives. Released nodes are recorded in order in
`freed`, and `OnceFreed()`, which every operation keeps, says that over a whole run no node is
released twice and none that was released is still in use. The header promises that unnamed children stand at the end; the code only appends them,
and named children inserted later may follow them, so the order proved is that of the named ones.

**Object cache.** Clients' runs are sequences of taking and giving back. The high-water mark of a
run is defined on the run alone and proved to be the maximum over its moments. An object's `reset`
is reduced to a mark that work with the object sets and `reset` clears.

**Trie.** A ghost map leads from every walked path to its node. A failed insert is no word, but the
characters before the foreign one stay counted in `pass`; these walks are kept as `strays`. A fresh
node's `pass` is taken to be zero, which the code does not set.

**Date_Time.** Time is UTC and `localtime_r` is the inverse of `mktime` on valid times. The next
start and the last moment of a day, month or year are defined on the calendar fields; the code's
arithmetic on seconds is proved to reach them. The three loops have one body, `ForEach`, that takes
the unit as a parameter. The loops compare formatted strings, and the year 10000 sorts below 9999.
`ForEach` therefore says what happens for every end up to 9999: the callback is given the slices of
the interval and nothing else if and only if the unit after `end` starts before the year 10000;
otherwise it is also given every unit from there up to the year 99990, the first year whose digits
sort above 9999 again. An end string that is a date alone sorts below every time of its day, so it
stands for the last second of the day before; a slice that it cuts short is handed to the callback
with that string as its end.

**File copy.** Files opened with mode `a+` are appended to whatever the seek says. So a read copies
a file exactly when the target was absent or empty, and a name that ends in '.' is skipped. Sizes
and offsets are 32-bit words: a write carries the whole file if and only if it is shorter than
2^32 bytes. The size that a read goes by travels through a double into an int, which C leaves
undefined from 2^31 bytes on; the parameter `huge` stands for what then comes out.

**Player.** The state flags are a set. Calls of the threads are atomic steps of a system with two
packet queues, and `MAX` is a parameter. A step may come from any thread at any time, except that
the extractor adds only while neither queue is flagged full. It tests that some time before it adds;
`RoomLasts` shows that no interleaving makes the test stale.

**Stub allocator.** Modelled up to and including the call that finds the first placeholder
exhausted, and for returned stubs beyond it. That call releases the placeholder and keeps the
pointer to it.

## Model

| member | source | states |
|---|---|---|
| ClassTable.GetPrivateFunc | src/core/object.c:40-62 | returns the private function of exactly this table, or NULL |
| ClassTable.GetParentEntry | src/core/object.c:98-114 | scanning for a parent entry agrees with looking at index 0 |
| ClassTable.GetLatestVirtual | src/core/object.c:64-96 | the recursive lookup equals the first non-NULL virtual entry on the chain |
| ClassTable.OwnVirtualEntry | src/core/object.c:64-96 | a class's own virtual function is the value of its virtual entry with that name, and NULL without one |
| ClassTable.FirstVirtualIsFirst | src/core/object.c:64-96 | what a walk resolves to is an entry of the walk with only NULL before it; nothing is resolved if and only if all are NULL |
| ClassTable.GetLatestVirtualBetween | src/core/object.c:596-632 | the bounded lookup equals the first non-NULL virtual entry on the part of the chain up to the end class |
| ClassTable.GetEntry | src/core/object.c:671-691 | finds the entry of any kind with the name |
| ClassTable.ResolveSplit | src/core/object.c:182-211 | the bounded lookup from the target, falling back to the class's own lookup, is the lookup from the target |
| ClassTable.ChainSplit | src/core/object.c:596-632 | a chain is the walk to an ancestor followed by that ancestor's chain |
| ClassTable.ChainDistinct | src/core/object.c:213-257 | no class occurs twice on a chain |
| ClassTable.ChainLinks | src/core/object.c:213-257 | each class of a chain is followed by its parent, and the last one has none |
| ObjectRuntime.Set | src/core/Obj.c:69-107 | writes one slot of the targeted class if it declares the function, and nothing else |
| ObjectRuntime.InitFuncs | src/core/object.c:134-155 | every function entry with a value is written, all other slots keep theirs, and a missing `set` changes nothing |
| ObjectRuntime.InheritFuncs | src/core/object.c:157-180 | exactly the NULL virtual entries receive the nearest inherited implementation |
| ObjectRuntime.OverrideVirtuals | src/core/object.c:182-211 | exactly the virtual entries implemented between the target and the class are overridden; the target class needs none |
| ObjectRuntime.PassesSettle | src/core/object.c:237-243 | after the three passes every slot of the class is final and no other class is touched |
| ObjectRuntime.InitClass | src/core/object.c:237-250 | one level of initialisation: final slots first, then the constructor |
| ObjectRuntime.InitChain | src/core/object.c:213-257 | success exactly when the root class provides `set`; then all slots of the chain are final, and constructors ran once each from root to target, each seeing final slots |
| ObjectRuntime.ObjectInit | src/core/object.c:259-262 | dispatch coherence: all views of a virtual function hold the first non-NULL entry walking up from the target class; failure writes no slot and logs no constructor |
| ObjectRuntime.ConstructionOrder | src/core/object.c:213-257 | constructors run each once, an ancestor before its descendants |
| ObjectRuntime.ConstructedClasses | src/core/object.c:213-257 | exactly the classes of the chain that have a constructor are constructed |
| ObjectRuntime.Destroy | src/core/object.c:507-530 | destructors run once each from target to root |
| ObjectRuntime.DestructionOrder | src/core/object.c:507-530 | destructors run each once, a descendant before its ancestors |
| ObjectRuntime.DestructedClasses | src/core/object.c:507-530 | exactly the classes of the chain that have a destructor are destructed, by their own one |
| ObjectRuntime.DestructionMirrorsConstruction | src/core/object.c:507-530 | where constructors and destructors are paired, destruction is the exact reverse of construction |
| ObjectRuntime.OverrideChain | src/core/object.c:559-589 | one write per class of the chain that declares the function |
| ObjectRuntime.ObjectOverride | src/core/object.c:591-594 | the override reaches the whole chain of the object's class |
| ObjectRuntime.OverrideRun | src/core/object.c:559-594 | after any run of overrides every function slot holds the last override of its name, or else its initial value |
| ObjectRuntime.LastOverrideIsLast | src/core/object.c:559-594 | the override that counts is the one after which no call names the function |
| ObjectRuntime.OverrideKeepsCoherence | src/core/object.c:559-594 | over every run of overrides all views of a virtual function agree |
| Forest.SubSplit | src/core/NTree.c:32-38 | a subtree is its node and, disjointly, the subtrees of the children |
| Forest.AttachOk | src/core/NTree.c:171-174 | hanging a tree below a node outside it keeps a forest with consistent links |
| Forest.AttachSub | src/core/NTree.c:175 | a tree grows by the attached tree exactly when it holds the new parent |
| Forest.RecursionEndsIff | src/core/NTree.c:32-38 | counting the nodes below an inserted child ends if and only if the parent was not below it; otherwise no measure falls along the links |
| Forest.DetachOk | src/core/NTree.c:202-206 | cutting a node from its parent keeps the forest and makes the node a top |
| Forest.DetachSub | src/core/NTree.c:202-206 | a tree shrinks by the cut subtree exactly when it held it |
| Forest.DetachUndoesAttach | src/core/NTree.c:161-208 | detaching undoes inserting |
| Forest.DropOk | src/core/NTree.c:225-233 | releasing a tree leaves all others as they were |
| Forest.PreorderVisitsAll | src/core/NTree.c:251-267 | the preorder sequence holds every node of the subtree exactly once |
| TreeOrder.PreorderParentFirst | src/core/NTree.c:252-267 | a node is visited before everything below it |
| TreeOrder.PreorderSiblings | src/core/NTree.c:252-267 | everything below a child is visited before everything below a later child of the same node |
| Forest.PostorderVisitsAll | src/core/NTree.c:79-89 | releasing in postorder meets every node of the subtree exactly once |
| TreeOrder.PostorderParentLast | src/core/NTree.c:79-89 | a node is released after everything below it |
| TreeOrder.PostorderSiblings | src/core/NTree.c:79-89 | everything below a child is released before everything below a later child of the same node |
| Forest.DropReleasesOnce | src/core/NTree.c:79-89 | releasing a tree none of whose nodes was released before releases nothing twice and leaves none of them in use |
| NTree.Tree.constructor | src/core/NTree.c:95-102 | an empty tree with a correct count |
| NTree.Tree.Size | src/core/NTree.c:32-38 | the recursion counts the nodes of the subtree |
| NTree.Tree.InsertPos | src/core/NTree.c:61-77 | finds a conflict exactly when a sibling has the name; otherwise the position in front of the first named child above it |
| NTree.Tree.EnsureCap | src/core/NTree.c:41-59 | room for the request, the same children; a table that is too small is doubled, from 4 if it was empty, as often as needed and no more |
| NTree.Tree.Insert | src/core/NTree.c:161-177 | exact failure conditions; on success the tree hangs at the sorted position, and a correct count stays correct if and only if the parent was in the tree |
| NTree.InsertKeepsOrder | src/core/NTree.c:168-173 | inserting at the found position keeps the named children strictly ascending |
| NTree.RootedParentIsSafe | src/core/NTree.c:166-167 | a floating node is never an ancestor of a node in the tree |
| NTree.AttachCount | src/core/NTree.c:175 | adding the size keeps the count right exactly for parents in the tree |
| NTree.FloatingInsertMiscounts | src/core/NTree.c:161-177 | a run in which inserting below a floating parent makes the count wrong |
| NTree.Tree.DetachNode | src/core/NTree.c:191-208 | cuts exactly this node; a correct count stays correct if and only if the node was in the tree |
| NTree.DetachCount | src/core/NTree.c:205 | subtracting the size keeps the count right exactly for nodes in the tree |
| NTree.FloatingDetachMiscounts | src/core/NTree.c:191-208 | a run in which detaching from a floating parent makes a correct count wrong |
| NTree.Tree.NewNode | src/core/NTree.c:133-159 | a floating, uncounted node |
| NTree.Tree.FreeRec | src/core/NTree.c:79-89 | releases the subtree, children before parents |
| NTree.Tree.SetRoot | src/core/NTree.c:116-126 | releases the old tree, no node of it for the second time, and counts the new one |
| NTree.Tree.Clear | src/core/NTree.c:225-233 | releases the tree and leaves floating nodes alone |
| NTree.Tree.FreeNode | src/core/NTree.c:210-223 | releases exactly the subtree, each node once and none that was released before, and says when the count stays right |
| NTree.FloatingFreeMiscounts | src/core/NTree.c:210-223 | a run in which freeing a child of a floating parent makes a correct count wrong |
| NTree.Tree.Depth | src/core/NTree.c:240-249 | the length of the path from the top |
| NTree.Tree.Walk | src/core/NTree.c:252-267 | visits the preorder sequence and stops at the first non-zero answer |
| NTree.Tree.Traverse | src/core/NTree.c:269-273 | the same from a given node or from the root; an empty tree visits nothing |
| NTree.VisitedIsPrefix | src/core/NTree.c:251-273 | the visited nodes are a prefix of the order that ends with the first non-zero answer, or all of it |
| ObjectCache.HighWaterBounds | src/core/Object_Cache.c:117-136 | no moment of a run exceeds its high-water mark |
| ObjectCache.HighWaterReached | src/core/Object_Cache.c:117-136 | some moment of a run reaches its high-water mark |
| ObjectCache.TakeFreeOk | src/core/Object_Cache.c:133-134 | recycling keeps conservation, exclusivity and the high-water mark |
| ObjectCache.TakeNewOk | src/core/Object_Cache.c:119-131 | creating keeps conservation, exclusivity and the high-water mark |
| ObjectCache.GiveBackOk | src/core/object.c:543-550 | giving back keeps conservation, exclusivity and the high-water mark |
| ObjectCache.FirstInFirstOut | src/core/object.c:543-550 | destroyed objects are handed out again in the order of their destruction, after those that were free before |
| ObjectCache.Cache.New | src/core/Object_Cache.c:93-158 | an object of the class that nobody holds and that is new or reset: the oldest free one, or a new one; unknown classes change nothing |
| ObjectCache.ObjectDestroy | src/core/object.c:532-557 | a cached object is reset and goes to the end of its class's free list, any other is destroyed |
| ObjectCache.Cache.Deconstruct | src/core/Object_Cache.c:77-91 | every object ever created and every free list is destroyed exactly once, none recycled |
| ObjectCache.Cache.ResetList | src/core/List.c:50-76 | an owning list destroys its elements in order |
| ObjectCache.CreatedIsPeak | src/core/Object_Cache.c:117-136 | the number of objects created for a class is the largest number ever outstanding at once |
| Words.CountSplit | src/core/Trie.c:143-147 | words with a prefix are those equal to it plus those that go on with a character of the set |
| Words.CountEqIsMultiplicity | src/core/Trie.c:150-170 | the reference count of a word is its multiplicity among the inserted words |
| Words.CountPrefixIsNumber | src/core/Trie.c:172-192 | the reference count of a prefix is the number of inserted words that have it |
| Trie.Trie.constructor | src/core/Trie.c:71-90 | an empty trie over the character set |
| Trie.Trie.GetCharIndex | src/core/Trie.c:56-69 | the first position of the character, or -1 |
| Trie.Trie.Insert | src/core/Trie.c:121-148 | returns the new multiplicity; a foreign character gives -1 and leaves a stray walk behind |
| Trie.Trie.Search | src/core/Trie.c:150-170 | the number of times the word was inserted; -1 exactly when the walk reaches a foreign character |
| Trie.Trie.SearchPrefix | src/core/Trie.c:172-192 | the number of walks through the prefix, which is the number of inserted words with it if and only if no failed insert went through it |
| Trie.Trie.PassBalance | src/core/Trie.c:143-147 | at every node but the root, pass = end + the children's pass + the failed inserts that stopped there |
| Trie.FailedInsertIsCounted | src/core/Trie.c:132-145 | a failed insert is found as a prefix |
| OrderedTrees.DescendKeepsMatches | src/core/RBTree_Map.c:50-61 | the half a comparison rules out holds no match, duplicates on either side included |
| OrderedTrees.FindSameKey | src/core/RBTree_Map.c:37-66 | appends exactly the multiset of values a linear scan finds |
| OrderedTrees.SearchAllSameKey | src/core/RBTree_Map.c:124-158 | appends exactly the multiset of values a linear scan finds |
| OrderedTrees.IntervalSearch | src/core/Interval_Tree.c:76-111 | what is found contains the key; over intervals without a hole the search succeeds if and only if some interval contains the key |
| OrderedTrees.DescentComplete | src/core/Interval_Tree.c:91-107 | in any tree over intervals without a hole, the search finds something exactly when there is something to find |
| OrderedTrees.CompleteIffNoHole | src/core/Interval_Tree.c:76-111 | for intervals with ascending starts, the search is complete in every tree over them if and only if no key past an interval is contained only in earlier ones |
| OrderedTrees.HoleIsMissed | src/core/Interval_Tree.c:96-101 | every hole has a tree over the same intervals in which the search misses a contained key |
| OrderedTrees.TouchingSearch | src/core/Interval_Tree.c:76-111 | for intervals that meet at most in endpoints the search succeeds if and only if some interval contains the key, and finds the only one if they are disjoint |
| OrderedTrees.NestedIntervalIsMissed | src/core/Interval_Tree.c:96-101 | a tree of nested intervals in which the search misses |
| FileCopy.NodeWriteFile | src/node/node_service.c:88-113 | offset 0 starts the file over, any other offset appends |
| FileCopy.WriteThenRead | src/node/node_service.c:139-159 | what one request wrote is what a request at the old end of the file reads, and no other file changes |
| FileCopy.Fwrite | src/node/Node.c:352-367 | the remote file becomes the local one, whatever it was, if and only if that is shorter than 2^32 bytes; the requests tile what is sent |
| FileCopy.TilesAt | src/node/Node.c:357-365 | requests are contiguous, at most 1024 bytes long, and carry their own part of the content |
| FileCopy.ReadLoop | src/node/Node.c:438-451 | as many bytes as listed are appended to the local file: the remote content, then stale bytes; a missing remote file is an error |
| FileCopy.Fread | src/node/Node.c:408-455 | the same for a named file; a missing one is an error that changes nothing, a name that ends in '.' is skipped |
| FileCopy.RoundTrip | src/node/Node.c:306-462 | write then read reproduces the content if and only if the local target was absent or empty, unless the name ends in '.' |
| FileCopy.SecondReadDoubles | src/node/Node.c:435-450 | reading twice to the same path doubles the content |
| Calendar.SecondsOrder | src/core/Date_Time.c:84-86 | seconds order valid times as their fields do and tell them apart |
| Calendar.YearStartFormula | src/core/Date_Time.c:84-86 | year starts by division by 4, 100 and 400 |
| Calendar.MonthStartFormula | src/core/Date_Time.c:84-86 | month starts from March on follow the rhythm of 153 days in five months |
| Calendar.DayNumberFormula | src/core/Date_Time.c:84-86 | the day number by division alone, without leap years and month lengths |
| Calendar.FromSecondsInverse | src/core/Date_Time.c:84-86 | converting to seconds and back is the identity |
| DateTime.FormatReads | src/core/Date_Time.c:50-55 | fields and separators stand where "%F %T" puts them, and the fields read as the numbers of the time |
| DateTime.FormatOrder | src/core/Date_Time.c:162-167 | for years of four digits string order is chronological order (section 5.1 of RFC 3339) |
| DateTime.CmpIsChronological | src/core/Date_Time.c:162-167 | the sign of the comparison with a string that starts with a formatted time orders the two times |
| DateTime.CmpDateOnly | src/core/Date_Time.c:162-167 | an end given as a date alone admits exactly the times before that day |
| DateTime.CmpFiveDigits | src/core/Date_Time.c:162-167 | against an end in 9999, a year of five digits compares above it if and only if it starts with 9999 |
| DateTime.UnitEndsAtNextStart | src/core/Date_Time.c:80-159 | a time is in the unit of an earlier one exactly until the next start |
| DateTime.LastMomentThenNext | src/core/Date_Time.c:91-159 | the last moment of a unit is one second before the next start |
| DateTime.Date.NextDay | src/core/Date_Time.c:80-89 | midnight of the next calendar day |
| DateTime.Date.NextMonth | src/core/Date_Time.c:102-119 | the first moment of the next month |
| DateTime.Date.NextYear | src/core/Date_Time.c:133-147 | the first moment of the next year |
| DateTime.Date.EndOf | src/core/Date_Time.c:91-159 | the last second of the day, month or year |
| DateTime.Date.Cmp | src/core/Date_Time.c:162-167 | the sign orders the date and the end string's time, for every end in years of four digits |
| DateTime.Date.ForEach | src/core/Date_Time.c:169-239 | terminates; the slices split the closed interval at the boundaries of the unit, and the callback is given nothing else if and only if the unit after the end starts before the year 10000 |
| DateTime.SplitsCover | src/core/Date_Time.c:169-239 | every moment of the closed interval lies in exactly one slice, and no other moment lies in any |
| DateTime.SplitsUnique | src/core/Date_Time.c:169-239 | start, end and unit determine the slices: one per unit touched |
| DateTime.StopTestNeedsFourDigits | src/core/Date_Time.c:177 | the stop test works if and only if the unit after the end starts before the year 10000 |
| DateTime.LastNoonOverruns | src/core/Date_Time.c:177 | splitting up to noon of the last day of 9999 does not stop there |
| PlayerState.Player.SetState | src/media/Player.c:1132-1393 | the flags after a request, nested requests included |
| PlayerState.RequestEffect | src/media/Player.c:1132-1393 | which flags each request leaves alone, which it raises, and that it lowers the others |
| PlayerState.StopIsRequested | src/media/Player.c:1223-1227 | opening, seeking, the end, closing and stopping leave STOPPING on and STOPPED and PLAYING off |
| PlayerState.Player.SetEmpty | src/media/Player.c:1236-1255 | the last queue to run dry at end of input ends the play and requests a stop; otherwise neither changes |
| PlayerState.LastEmptyQueueEnds | src/media/Player.c:1236-1255 | the last of the four queues to run dry after the end of input turns END and STOPPING on and STOPPED and PLAYING off; any other changes only its own flags |
| PlayerState.RequestedIsReported | src/media/Player.c:1132-1393 | after set_state the state is reported, packet loading excepted |
| PlayerState.WithdrawnIsNotReported | src/media/Player.c:1395-1519 | after clear_state the state is no longer reported, except LOADING while both packet flags are up; of all other answers only PLAYING changes, and LOADING when a packet flag is withdrawn |
| PlayerRuns.Media.AddPacket | src/media/PacketStream.c:106-137 | refines the add step |
| PlayerRuns.Media.RemovePacket | src/media/PacketStream.c:144-170 | refines the remove step |
| PlayerRuns.Media.ClearStreams | src/media/FF_Extractor.c:254-257 | refines the clear step of seek and close |
| PlayerRuns.Media.StopComponent | src/media/FF_Extractor.c:463-477 | refines the acknowledgement step, the same for both codecs |
| PlayerRuns.StepKeepsQueue | src/media/PacketStream.c:106-170 | every enabled step keeps the queue's size and flags in order |
| PlayerRuns.QueuesStayBounded | src/media/FF_Extractor.c:141-219 | in every run both queues have size <= MAX, size = MAX implies FULL, FULL implies size > 2*MAX/3, EMPTY implies size = 0, never both |
| PlayerRuns.QueueIsFifo | src/media/PacketStream.c:106-170 | an add appends, a remove takes the oldest, a clear takes all, and the other queue stays |
| PlayerRuns.QueueIsSuffix | src/media/PacketStream.c:106-170 | over every run a queue holds the youngest packets added, in the order in which they came |
| PlayerRuns.FullStep | src/media/PacketStream.c:150-158 | a step leaves FULL on if and only if the queue is at its maximum, or FULL was on and more than two thirds are left |
| PlayerRuns.FullFollowsSizes | src/media/PacketStream.c:106-170 | over every run FULL is on if and only if the size has stayed above two thirds since it last was the maximum |
| PlayerRuns.EmptyStep | src/media/PacketStream.c:106-170 | EMPTY comes on when a remove leaves or finds nothing, and stays until a packet is added |
| PlayerRuns.RoomLasts | src/media/FF_Extractor.c:141-219 | from the extractor's wait over its later test for an exit to its add, no step of others, a stop or exit included, flags a queue full |
| PlayerRuns.FlagMeansAcked | src/media/FF_Extractor.c:463-477 | a component's flag is set if and only if it has acknowledged and neither resumed nor seen play begin since |
| PlayerRuns.StoppedNeedsEveryAck | src/media/FF_Video_Codec.c:846-860 | STOPPED is entered only by a stop action, while a stop is requested, when all three have acknowledged since play last began |
| PlayerRuns.LastAckStops | src/media/FF_Audio_Codec.c:428-443 | the last missing acknowledgement enters STOPPED and ends the request |
| PlayerRuns.HandshakeCompletes | src/media/Player.c:1210-1235 | once a stop is requested and all three acknowledge, with no resumption, no PLAYING or SEEKED request and no withdrawal of STOPPING or STOPPED in between, the player is stopped right after the last acknowledgement, with no request open |
| StubAdmin.Admin.Alloc | src/stub/admin.c:76-117 | returned stubs first, oldest first, then space right behind the last area; never a held stub; NULL exactly when space or placeholders have run out |
| StubAdmin.Admin.Free | src/stub/admin.c:119-130 | the stub waits behind those returned before it |
| StubAdmin.Admin.InsideIffLongEnough | src/stub/admin.c:93-106 | all areas handed out lie inside the placeholder if and only if it is at least one area long |

## Left out

- The error and out-of-memory paths of allocation, constructors that fail or that change slots themselves, messages and logging.
- Class tables whose parent is not registered, whose entries share a name, or whose parent entry is not the first one; classes that override `set` with a writer of their own.
- ObjectRuntime.Set: path-form names and attribute entries, which are no function slots, are not modelled.
- ObjectRuntime.ObjectOverride: names in the path form `/Class/name`, which address one class's slot, are not modelled.
- JSON configuration of objects (`object_set`, `object_dump`, `to_json`).
- NTree payloads (`alloc_data`, `free_data`), `node_find`, and a walk without a visitor; they would only add easy members.
- NTree.Tree.Insert: a floating child whose own subtree holds the parent is excluded, because the code then counts around a cycle without end (`Forest.RecursionEndsIff`).
- NTree.Tree.SetRoot: a new root that is the current root or has a parent is excluded, because the code then uses released memory or leaves a parent listing a node that no longer points back. The write of NULL to the new root's parent is not made, because a floating node has none already.
- ObjectCache.Cache.ResetList: a list that does not own its elements, or that holds strings or raw memory, is not modelled.
- ObjectCache.ObjectDestroy: what a class's own `reset` does to its fields is not modelled.
- Trie.Trie.Insert: does not model `__delete`, which keeps using a table it has released, nor `__set_char_set`, which does not resize existing tables.
- The red-black rebalancing of the maps; the searches are proved for any ordered tree.
- Directories in `__fwrite` and `__fread`, the bus transport, and a remote file that changes while it is read.
- DateTime.Date.ForEach: end strings other than a date, or a date and time with anything behind it, are not modelled.
- Local time zones, daylight saving and years before 1000 in Date_Time.
- The player's LOADING logic, rendering threads and liveness of the waits; steps are atomic although the code takes its lock only inside the wait.
- New stub areas after the first placeholder is exhausted, where the code uses memory it has released.
- String, Vector, Hash_Map, archives, compression, sockets, the user interface, attaching to processes and the command line.
