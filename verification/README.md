# the_Foundation: containers, Punycode, thread pool, ZIP archives and MD5

the_Foundation is a C11 library of containers and runtime services. This project models its most intricate
parts in Dafny and proves what they are for.

* **Red-black map** (`Sequences`, `MapTree`, `RedBlack`, `NodeHeap`, `MapRepair`, `MapSwap`, `MapOrder`, `MapRemoval`, `Map`).
  Nodes are objects with parent and child references and a colour; a ghost tree says what the references spell
  out, a context says where in the tree a loop is. Both repair loops, the swap of a doomed node with its
  predecessor (adjacent or not) and lookup are methods on these objects, and over any run of operations the
  tree is red-black, sorted and refines a finite map.
* **Punycode** (`Arith`, `PunyNumbers`, `PunyInsert`, `PunyText`, `PunyFits`, `PunyProgress`, `PunyReading`,
  `PunyVerdict`, `Punycode`, `PunySamples`), sections 3.3, 5, 6.1 to 6.4 and 7.1 of RFC 3492. The two functions are
  loops over arrays with all their 32-bit checks. The theory is on unbounded numbers; which of the four outcomes
  there is follows from the text and the room alone. Published samples tie the code to what other programs write.
  More can be encoded than decoded: `Punycode.EncodesWithoutDecoding` names a text
  that is encoded but refused by the decoder, and `Punycode.RoundTrip` says on which inputs both work.
* **Radix hash** (`HashTrie`, `HashBuckets`, `Hash`, `HashIterator`). Buckets and nodes are objects; a ghost trie
  from paths to lists says what they hold. Splitting, trimming, insertion, removal and iteration with removal
  are methods. A list can be longer than nine nodes when splits leave all nodes together (at most eight plus
  the depth), but by pigeonhole no bucket at depth 15 is ever split.
* **List and its sort** (`ListOrder`, `List`). A ring of nodes around a sentinel, with the quicksort that moves
  nodes behind the pivot; the result is characterised as the only stable order.
* **Queue and thread pool** (`PoolSteps`, `PoolInvariant`, `PoolShutdown`, `PoolService`). A transition system whose steps are
  the single statements of put_Queue, take_Queue, yield_ThreadPool and stopThreads_ThreadPool_, interleaved
  freely and with spurious wake-ups. Safety over every run, freedom from deadlock, a bound on the steps of
  stopping the pool, and executions from start to end with any number of jobs.
* **ZIP archives** (`Bytes`, `Stream`, `ZipRecords`, `ArchiveEntries`, `ArchiveImage`, `ZipLayout`,
  `Archive`), sections 4.3.7, 4.3.12 and 4.3.16 of PKWARE APPNOTE.TXT. Headers are written and read field by field on
  a stream object; `ZipLayout` says in literal offsets what is written and which bytes are opened. Compression and
  checksum are functions of which only decompress(compress(x)) = x is used.
* **Copy-on-write blocks** (`Block`). Handles point at counted records of memory; new memory has unknown contents.
  Reference counts are proved exact as values first, then for the methods on the objects.
* **MD5** (`Md5`): buffering, the two-word bit count and padding, around any transformation of blocks. The size is
  converted to 32 bits before it is counted; `Md5.LengthIsRight` says for which sizes that does no harm.
* **Gap array** (`GapArray`), **string list** (`StringList`) and **garbage stack** (`Garbage`): each refines a plain
  sequence or stack. A collected item without a destructor acts as a scope marker; `Garbage.ScopeRestores` says
  when the end of a scope restores the stack.

## Model

| member | source | states |
|---|---|---|
| `NodeHeap.RotateAt` | src/map.c:107-119 | Turning a node away from one side rewrites the links of exactly the rotated nodes so that the heap spells out the rotated tree, wherever in the tree it happens |
| `NodeHeap.RotateOrder` | src/map.c:107-119 | A rotation keeps the in-order sequence of the whole tree |
| `MapRepair.Rotate` | src/map.c:107-119 | The rotation makes exactly these link changes and no other; NodeHeap.RotateAt says that they turn the tree, with mutual links |
| `MapSwap.SwapIsRenaming` | src/map.c:127-156 | Swapping two nodes in place, also when one is the other's child, amounts to exchanging the two names in every link of the tree, colours included |
| `MapSwap.SwapNodes` | src/map.c:133-156 | After the swap the nodes form the same tree with the two nodes exchanged |
| `RedBlackMap.RemoveFromTree` | src/map.c:371-386 | The tree loses exactly this node, also by way of the swap with its predecessor, and the root pointer follows |
| `MapRepair.InsertRecolour` | src/map.c:168-173 | With a red uncle, recolouring moves the one red-red edge two levels up and keeps all black heights |
| `MapRepair.InsertRotate` | src/map.c:174-191 | With a black uncle, the last rotation with its two recolourings ends with a red-black tree |
| `MapRepair.RepairAfterInsert` | src/map.c:158-193 | From a tree whose only fault is the new red node, the loop ends with a red-black tree with a black root, of the same nodes in the same order |
| `MapRepair.RemovalMoveUp` | src/map.c:205-213 | With everything black around it, reddening the sibling moves the missing black one level up |
| `MapRepair.RemovalFinish` | src/map.c:233-242 | With a red nephew on the far side, one rotation restores all black heights |
| `MapRepair.RepairAfterRemoval` | src/map.c:195-244 | From a tree where one place is a black node short, the loop ends with a red-black tree of the same nodes in the same order |
| `MapRemoval.Predecessor` | src/map.c:85-91 | The node with two children is swapped with the last node of its left subtree, which has no right child |
| `MapRemoval.PullDown` | src/map.c:374-379 | After the swap with the predecessor the doomed node has at most one child and everything else keeps its place in the order |
| `MapRemoval.Splice` | src/map.c:285-302 | A lone child takes the place of its parent and is blackened; the repair of line 299 is unreachable because a lone child is red |
| `MapRemoval.RepairLeaf` | src/map.c:303-310 | A black leaf is repaired around while it is still linked, and only then cut off |
| `MapRemoval.RemoveLow` | src/map.c:285-314 | Removing a node with at most one child leaves a red-black tree of exactly the other nodes, in the same order, with the root pointer at its root |
| `MapOrder.InsertOrdered` | src/map.c:258-283 | A new node hung where the search ended keeps the tree sorted and adds its key to the map |
| `MapOrder.ReplaceOrdered` | src/map.c:262-269 | Replacing a node with an equal key keeps the tree sorted and exchanges one entry of the map |
| `MapOrder.RemoveOrdered` | src/map.c:371-386 | Dropping a node keeps the tree sorted and takes one entry out of the map |
| `RedBlack.HeightBound` | src/map.c:330-342 | A red-black tree of n nodes is at most 2 log2(n + 1) levels high |
| `RedBlack.Pow2Add` | src/map.c:330-342 | The powers of two in that bound: 2^0 = 1, 2^1 = 2, 2^(a + b) = 2^a 2^b |
| `RedBlackMap.Map.Value` | src/map.c:330-342 | Finds the node with an equal key if there is one, and looks at no more than 2 log2(size + 1) nodes |
| `RedBlackMap.Map.InsertNode` | src/map.c:258-283 | Either replaces the node with an equal key, colour and links included, or hangs the new node in red where the search ended; a node that is in the map takes its own place |
| `RedBlackMap.Map.Insert` | src/map.c:349-365 | The map from keys to nodes gets the new node, the node it replaced is returned, the size is the number of keys, and the tree is red-black and sorted again |
| `RedBlackMap.Map.RemoveNode` | src/map.c:371-386 | The map loses exactly this node, whatever number of children it had, and the tree is red-black and sorted again |
| `RedBlackMap.Map.Remove` | src/map.c:367-369 | Removes and returns the node with an equal key, or returns nothing and changes nothing |
| `RedBlackMap.Replay` | src/map.c:349-386 | Over any run of insertions, replacements and removals the tree refines a finite map from keys to nodes |
| `RedBlackMap.ApplyWithExactKeys` | src/map.c:349-386 | When only equal keys compare equal, the map is the ordinary finite map |
| `PunyNumbers.DigitUnique` | src/punycode.c:65-74 | A digit has one character but for the case of letters |
| `PunyNumbers.SlopeFits` | src/punycode.c:81-90 | The quotient in the last line of the adaptation stays below the base |
| `PunyNumbers.DigitValues` | src/punycode.c:65-70 | The digits are the letters a to z in both cases, then the figures; nothing else is a digit |
| `PunyNumbers.ThresholdClamps` | src/punycode.c:140-142 | The threshold is the distance from the bias, kept between 1 and 26 |
| `PunyNumbers.AdaptMeans` | src/punycode.c:81-90 | In numbers: the delta is divided by 700 the first time and by 2 later, grows by its share for one point, and is divided by 35 until it is at most 455, the least number j of times; the bias is 36 j + 36 e / (e + 38) for what is left, e |
| `PunyNumbers.OneBias` | src/punycode.c:81-90 | There is only one number like that |
| `PunyNumbers.DividedIs` | src/punycode.c:85-88 | Dividing j times by 35 is dividing by 35 to the j |
| `PunySamples.Duesseldorf` | src/punycode.c:92-160 | The encoding of köln-düsseldorf, with two extended code points, is kln-dsseldorf-imb8g |
| `PunySamples.Chinese` | src/punycode.c:92-160 | The encoding of the nine code points of sample (B) in section 7.1 of RFC 3492 is ihqwcrb4cv8a8dqg056pqjye |
| `PunySamples.Malformed` | src/punycode.c:193-199 | Decoding a-!, which has a character that is no digit, and a-z, which is cut off, is bad input, whatever the room above 0 |
| `PunyNumbers.ParseDigits` | src/punycode.c:136-149 | A number written digit by digit with given thresholds is read back, and exactly its digits are used up |
| `PunyNumbers.DigitsParse` | src/punycode.c:191-212 | Digits that are accepted as a number are the only ones that stand for it, lower case apart |
| `PunyInsert.RunDeltas` | src/punycode.c:118-156 | Carrying out the insertions that the deltas of a text describe gives back the text |
| `PunyInsert.DeltasRun` | src/punycode.c:213-228 | The deltas of a text made by insertions are those insertions again |
| `PunyText.DecodeEncoded` | src/punycode.c:92-232 | Decoding what encodes a text gives the text, on unbounded numbers |
| `PunyText.EncodeDecoded` | src/punycode.c:162-232 | Whatever can be decoded is, in its lower-case form, the encoding of what it decodes to, on unbounded numbers |
| `PunyFits.DecodeFitsEncode` | src/punycode.c:118-139 | When the decoder can hold all its numbers in 32 bits, so can the encoder |
| `PunyFits.BoundFits` | src/punycode.c:200-216 | All numbers fit in 32 bits when 35 times the largest code point plus one, times the length plus one, does |
| `Punycode.AdaptBias` | src/punycode.c:81-90 | The loop computes the bias of section 6.1 of RFC 3492, written out in numbers, and never exceeds 32 bits |
| `Punycode.WriteDelta` | src/punycode.c:136-149 | Writes the digits of one delta, or reports that they do not fit into the output |
| `PunyReading.ReadDelta` | src/punycode.c:192-212 | Overflow if and only if, over the digits before the first character that ends the integer, a sum of digits times weights added to the position, or a next weight, exceeds 2^32 - 1; bad input if and only if not, and the digits break off; otherwise the integer |
| `PunyReading.SumIsParsed` | src/punycode.c:191-212 | An integer is the sum of its digits, each times the product of 36 minus the thresholds before it, up to the first digit below its threshold |
| `PunyReading.BrokenIsNone` | src/punycode.c:193-199 | There is no integer if and only if its digits lead to the end of the text or to a character that is no digit |
| `PunyReading.OverflowIsTooLarge` | src/punycode.c:200-210 | Whatever overflows on the first digits is too large as a whole |
| `PunyVerdict.VerdictJustified` | src/punycode.c:162-232 | The verdict on a well-formed text is never bad input, is success if and only if numbers and room suffice, and names what is missing otherwise; a text is never too long for the room of its own length |
| `PunyVerdict.BrokenVerdict` | src/punycode.c:162-222 | A text that breaks off, with room for what comes before, is bad input if and only if neither the integers before nor the digits of the broken one overflow |
| `PunyVerdict.CutOff` | src/punycode.c:193-199 | A decodable text that is cut off behind its literal part is bad input, never an overflow, unless the cut is between two integers |
| `PunyVerdict.EncodeJustified` | src/punycode.c:92-160 | The verdict on encoding is success if and only if deltas and room suffice, and names what is missing otherwise |
| `Punycode.Decode` | src/punycode.c:162-232 | The outcome is the verdict on the text, in every case: too little room for the literal part, bad input there, an overflow up to the first integer without room, too little room, an overflow in the digits of a broken integer, bad input, or success; on success the output is the decoded text |
| `Punycode.Encode` | src/punycode.c:92-160 | The outcome is the verdict, in every case: too little room if the text of the deltas before the first one beyond 32 bits is too long, an overflow if there is such a delta, or success with the encoded text |
| `Punycode.EncodeThenDecode` | src/punycode.c:92-232 | Encoding and decoding with enough room gives the code points back whenever the numbers of the decoder fit in 32 bits |
| `Punycode.RoundTrip` | src/punycode.c:92-232 | The round trip holds on all inputs that the decoder's numbers fit, in particular under the bound on the largest code point and the length |
| `Punycode.EncodesWithoutDecoding` | src/punycode.c:200-222 | There is a Unicode text, U+10FF71 before 3854 letters and U+0080 behind them, that is encoded but whose encoding the decoder refuses as an overflow |
| `Punycode.ApartFits` | src/punycode.c:118-139 | For an extended code point before basic ones and a smaller one behind them: what the encoder can hold, and what the decoder must |
| `Punycode.Reencoded` | src/punycode.c:162-232 | Encoding a decoded text again gives the input with its digits in lower case |
| `HashTrie.ShiftIsShifted` | src/hash.c:47-50 | A shift by twice the depth, with its two-bit mask, picks the same child as stepwise descent, while the depth is below 16 |
| `HashTrie.KeySlicesDetermine` | src/hash.c:37-39 | Sixteen slices of two bits make up a 32-bit key |
| `HashTrie.DeepListsAreShort` | src/hash.c:92-107 | A bucket at depth 15 cannot hold more than four nodes, so none that deep is ever split and every shift stays below 32 bits |
| `HashTrie.SearchEnds` | src/hash.c:63-71 | For every key there is one childless bucket where its search ends |
| `HashTrie.KeysUnique` | src/hash.c:218-245 | No two nodes in a hash have the same key |
| `HashTrie.NodeTakenOut` | src/hash.c:129-143 | Taking a node out of its list leaves all other nodes where searches for their keys end |
| `HashTrie.NodePutIn` | src/hash.c:87-90 | So does putting in front a node whose key the hash does not have |
| `HashTrie.SplitFits` | src/hash.c:92-107 | A split leaves the same nodes, each in the child that the next slice of its key selects |
| `HashTrie.FilledAfterSplit` | src/hash.c:92-107 | A split leaves a node beneath every bucket with children |
| `HashTrie.TrimStep` | src/hash.c:113-127 | Letting go of four empty children keeps all nodes and empties only the bucket above |
| `HashTrie.TrimDone` | src/hash.c:113-127 | When trimming stops, every bucket with children has a node beneath it |
| `HashBuckets.Unlink` | src/hash.c:225-234 | The first node with the key is unlinked, its own link cleared, and the nodes before it are counted |
| `HashBuckets.AddNode` | src/hash.c:87-90 | The node becomes the first of the list and no other list changes |
| `HashBuckets.Split` | src/hash.c:92-107 | The four new children get the nodes of the bucket by the slice of their keys, each list turned around |
| `HashTrie.ShareJoin` | src/hash.c:92-107 | Nodes that come later in the list of a split bucket come earlier in those of its children |
| `HashBuckets.Trim` | src/hash.c:113-127 | Climbs while all siblings are empty, and leaves buckets, lists and nodes consistent |
| `Hash.FindBucket` | src/hash.c:63-71 | Ends at the childless bucket on the path of the key, with its depth |
| `Hash.FindNode` | src/hash.c:73-85 | Finds the node with the key exactly when the hash has one |
| `Hash.RemoveFrom` | src/hash.c:129-143 | Removes the node with the key from a bucket and trims when the list became empty; the bucket handed back exists |
| `Hash.RoomForNode` | src/hash.c:224-241 | With the clashing node gone a bucket with fewer than eight others takes the new one; otherwise it is split, and is above depth 15 |
| `Hash.InsertInto` | src/hash.c:218-245 | The trie has the new node in place of the one with its key, nothing else changed, and all invariants hold |
| `Hash.Hash.Value` | src/hash.c:202-208 | Looks a key up in the map from keys to nodes |
| `Hash.Hash.Insert` | src/hash.c:218-245 | The map gets the node, the one it replaces is returned, unlinked unless it is the node itself, and the size stays exact |
| `Hash.Hash.Remove` | src/hash.c:247-253 | The map loses the key, the node is returned unlinked, and the size stays exact |
| `Hash.Hash.Clear` | src/hash.c:210-216 | The hash becomes empty |
| `Hash.Hash.ContentsAreMembers` | src/hash.c:218-253 | The size is the number of keys, and keys and nodes correspond |
| `HashIterators.FirstInOrder` | src/hash.c:154-170 | Finds the first bucket with nodes below a bucket, or none exactly when there are none |
| `HashIterators.NextInOrder` | src/hash.c:172-187 | Finds the next bucket with nodes in the order of the children, skipping none |
| `HashIterators.LaterTrimmed` | src/hash.c:113-143 | What came after a bucket still comes after the one that trimming hands back |
| `HashIterators.HashIterator.constructor` | src/hash.c:257-263 | All nodes lie ahead of a new iterator |
| `HashIterators.HashIterator.Next` | src/hash.c:265-273 | The next node is one of those ahead, and the others stay ahead |
| `HashIterators.HashIterator.Remove` | src/hash.c:275-279 | The current node leaves the hash and what lies ahead does not change, even when buckets were freed |
| `HashIterators.RemoveDoomed` | src/hash.c:257-279 | A pass that removes any subset visits every node once and leaves exactly the others |
| `ListOrder.SortIsTheStableOrder` | src/list.c:156-178 | For a total preorder, the result is the one order of the same nodes that is sorted and keeps ties in place |
| `ListOrder.SortIsStable` | src/list.c:134-154 | Nodes that tie keep their relative order |
| `ListOrder.SortSorts` | src/list.c:156-170 | The result is in order |
| `ListOrder.OneStableOrder` | src/list.c:172-178 | Two sorted orders of the same nodes that agree on ties are the same |
| `Lists.RemoveNode` | src/list.c:120-124 | The ring closes around the node, whose own links are cleared |
| `Lists.InsertAfterNode` | src/list.c:80-85 | The node stands behind the given one in the ring |
| `Lists.InsertBeforeNode` | src/list.c:87-92 | The node stands before the given one in the ring |
| `Lists.Partition` | src/list.c:134-154 | The nodes not above the pivot stay before it and the others follow it, both in their old order; the end pointers are those of the new stretch |
| `Lists.Quicksort` | src/list.c:156-170 | The stretch is sorted in place, the rest of the ring is untouched, and the end pointers follow, whatever the comparison returns |
| `Lists.List.SortBy` | src/list.c:172-178 | The list is the stable sort of what it was, as a well-formed ring with the same nodes |
| `Lists.List.InsertAfter` | src/list.c:94-100 | The node comes after the given one, or last when none is given |
| `Lists.List.InsertBefore` | src/list.c:102-108 | The node comes before the given one, or first when none is given |
| `Lists.List.Remove` | src/list.c:126-132 | The list loses this node |
| `Lists.List.PopFront` | src/list.c:110-113 | Takes the first node, if there is one |
| `Lists.List.PopBack` | src/list.c:115-118 | Takes the last node, if there is one |
| `Lists.WithIs` | src/list.c:80-108 | A node that was put in stands at its place, and taking it out again restores the list |
| `Sequences.WithoutIs` | src/list.c:120-132 | Taking out one node leaves those before and those behind it |
| `PoolInvariant.ExclusiveKept` | src/queue.c:45-65 | Every step keeps the mutex with one thread |
| `PoolInvariant.FifoKept` | src/queue.c:45-65 | Every step keeps: what was put is what was taken, followed by what is in the queue |
| `PoolInvariant.NoneForgottenKept` | src/queue.c:45-65 | Every step, also a spurious wake-up, keeps a thread on its way for every item while someone sleeps |
| `PoolInvariant.OneEachKept` | src/threadpool.c:76-84 | Every step keeps: poison items owed, queued and taken add up to the number of workers, and none precedes a job |
| `PoolInvariant.StartedNew` | src/threadpool.c:126-129 | A worker that starts a job finds it in its created state and not started before |
| `PoolInvariant.RunOnceKept` | src/threadpool.c:115-134 | Every step keeps each taken job with one worker until it is finished |
| `PoolShutdown.InvOverRun` | src/threadpool.c:39-134 | All of these hold in every state of every run |
| `PoolShutdown.NoLostWakeUp` | src/queue.c:54-65 | Whenever the mutex is free and a worker sleeps, the queue is no longer than the number of awakened workers |
| `PoolShutdown.InOrderOnce` | src/threadpool.c:115-134 | Over a run, items are taken in the order they were put, and no job is started twice or before it was taken |
| `PoolShutdown.AllDone` | src/threadpool.c:76-84 | When all workers have exited, the queue is empty and every job handed to the pool has run and finished |
| `PoolShutdown.NeverStuck` | src/threadpool.c:39-134 | With an unfinished job, or while the pool is being stopped, some thread can take a step of its own |
| `PoolShutdown.StepsAhead` | src/threadpool.c:76-84 | Every step of stopping but a spurious wake-up lowers a bound on the steps to come |
| `PoolShutdown.StoppingEnds` | src/threadpool.c:76-84 | Stopping takes no more steps than the bound at its start plus three for each spurious wake-up |
| `PoolShutdown.StoppedClean` | src/threadpool.c:76-106 | Where stopping cannot go on, all workers have exited, all jobs have finished and the queue is empty |
| `PoolService.ServingEnds` | src/threadpool.c:39-134 | While serving, the pool takes no more steps than a bound at the start, plus three for each spurious wake-up and thirteen for each job submitted on the way |
| `PoolService.ServedWhenQuiet` | src/threadpool.c:108-134 | When a serving pool has nothing left to do, all jobs have finished and every caller can submit another one |
| `PoolService.TakesJob` | src/threadpool.c:108-134 | Whatever the pool is busy with, it takes a job from an idle caller and can finish it with steps of its own |
| `PoolService.ServesAny` | src/threadpool.c:108-134 | A serving pool can be given any number of jobs and finish them all |
| `PoolService.WholeLife` | src/threadpool.c:66-134 | For any number of jobs there is an execution from the start to the end of a pool that submits and finishes them |
| `Bytes.Read32` | src/stream.c:230-256 | A 32-bit number written in little-endian order is read back |
| `Bytes.Read16` | src/stream.c:225-250 | So is a 16-bit number |
| `Streams.Stream.Read` | src/stream.c:131-139 | Reads what is left up to the wanted size, and moves on by that much |
| `Streams.Stream.Write` | src/stream.c:164-172 | Writes over what is there and extends the stream where it ends |
| `Streams.Overwritten` | src/stream.c:164-172 | Written bytes stand at the position, all others are as they were, and the length is that of whichever ends later |
| `ZipRecords.LocalReadBack` | src/archive.c:125-151 | A local header is read back field by field, each reduced to its width |
| `ZipRecords.CentralReadBack` | src/archive.c:178-216 | So is a central header |
| `ZipRecords.EndReadBack` | src/archive.c:228-246 | So is the end record |
| `ZipLayout.ImageLaid` | src/archive.c:634-704 | In literal offsets and bytes: each local part begins 50 4B 03 04, with method 8 or 0 at 8, checksum at 14, sizes at 18 and 22, name length at 26, then the name and the data, deflated when that is shorter; each directory entry begins 50 4B 01 02, with the same at 10, 16, 20, 24 and 28 and the offset at 42; the end record is 50 4B 05 06 with both counts, the size and the offset of the directory at 8, 10, 12 and 16; low bytes first |
| `ZipLayout.OpensExactly` | src/archive.c:307-391 | Bytes are opened if and only if they begin 50 4B 03 04, have an end record 50 4B 05 06 within 22 to 2069 bytes of the end, the closest of which has equal counts, and every directory entry begins 50 4B 01 02 and is a folder or a stored or deflated file without encryption; what is found for a path is the last such file with it |
| `ZipLayout.HeaderRead` | src/archive.c:335-383 | What a directory entry says, at literal offsets, with its name, extra field and comment passed over, and where its local part says that the data begin |
| `ZipLayout.EndPosIs` | src/archive.c:248-259 | The search finds the end record closest to the end |
| `ZipRecords.WriteLocal` | src/archive.c:139-151 | Writes the bytes of a local header |
| `ZipRecords.ReadLocal` | src/archive.c:125-137 | Reads a local header, zeros standing for what lies behind the end |
| `ZipRecords.WriteCentral` | src/archive.c:198-216 | Writes the bytes of a central header |
| `ZipRecords.ReadCentral` | src/archive.c:178-196 | Reads a central header |
| `ArchiveEntries.CmpChain` | src/archive.c:280-283 | The comparison of paths is transitive, strict where one of its steps is |
| `ArchiveEntries.CmpIs` | src/archive.c:280-283 | Two paths compare as the bytes at the first place where they differ or both end |
| `Archives.Slashed` | src/archive.c:396 | Every backslash becomes a slash and every other byte stays |
| `ArchiveEntries.Locate` | src/sortedarray.c:56-79 | Binary search finds the place of a path and whether it is there |
| `ArchiveEntries.PutFind` | src/sortedarray.c:125-140 | Inserting an entry changes what is found for its path and for no other |
| `Archives.Archive.OpenWritable` | src/archive.c:480-483 | Starts a writable archive without entries and without a source |
| `Archives.Archive.SetData` | src/archive.c:611-625 | The path, with its backslashes turned, leads to the data, its size, its checksum and the time; every other path leads where it led |
| `Archives.Archive.Serialize` | src/archive.c:634-704 | Writes the image of the archive at the position of the stream, with the layout of a ZIP file in literal offsets and bytes |
| `Archives.SeekToCentralEnd` | src/archive.c:248-259 | Finds the end record as the search from 22 bytes before the end does, also in streams shorter than that |
| `Archives.Archive.OpenData` | src/archive.c:307-391 | Opens exactly the bytes that ZipLayout.OpensExactly describes, with the entries found in them, kept sorted |
| `Archives.Archive.DataAt` | src/archive.c:423-449 | Data that are there are returned as they are; otherwise the stretch of the entry is loaded and decompressed, once |
| `ArchiveImage.ReadBackFrom` | src/archive.c:325-388 | The loop over the directory of a written archive adds each entry with its path, sizes, checksum and position |
| `ArchiveImage.DirectoryReadBack` | src/archive.c:307-391 | A written archive is opened exactly when it has an entry, and has its entries but for directories without data |
| `ArchiveImage.DataLoads` | src/archive.c:423-449 | The position and size that are read back lead to the data that was written |
| `Archives.FoundAgain` | src/archive.c:307-449 | Every path leads to the same size, checksum and data as before, or to nothing if it led to nothing or to a directory without data |
| `Archives.WriteAndOpen` | src/archive.c:463-704 | Writing to an empty stream and opening the bytes does this |
| `Blocks.Moved` | src/block.c:355-361 | When a block moves from one record to another, every record again has as many references as blocks that point at it, plus one for the empty record, and a record without references goes |
| `Blocks.OneOwner` | src/block.c:121-128 | A record with one reference has one block pointing at it, and is not the shared empty record |
| `Blocks.WrittenSound` | src/block.c:121-128 | Changing the memory of a record with one reference changes what its block shows and what no other block shows |
| `Blocks.DetachedSound` | src/block.c:121-128 | A block that gets its own copy of a record leaves all counts right and all blocks showing what they showed |
| `Blocks.Store.Detach` | src/block.c:121-128 | After detaching, the block is the only owner of its record, and no block shows anything else than before |
| `Blocks.Store.Copy` | src/block.c:189-197 | The copy shows what the other block shows |
| `Blocks.Store.Delete` | src/block.c:199-201 | The block goes; a record is freed exactly when its last owner goes, and never the empty one |
| `Blocks.Store.Set` | src/block.c:355-361 | The block shows what the other shows, also when both share a record already; nothing else changes |
| `Blocks.Store.Clear` | src/block.c:263-267 | The block becomes empty by sharing the empty record; nothing else changes |
| `Blocks.Store.Reserve` | src/block.c:97-111 | There is room for the wanted size and a terminator, and no block shows anything else than before |
| `Blocks.Store.Resize` | src/block.c:276-285 | The block is cut off or extended with zeros; no other block changes |
| `Blocks.Store.Remove` | src/block.c:295-307 | With n the smaller of the count and what follows the position, or all that follows for iInvalidSize, the block keeps the bytes before the position and those from n behind it on, when the sum of position and count does not wrap or the count is iInvalidSize; no other block changes |
| `Blocks.WithoutIs` | src/block.c:295-307 | Byte by byte: what stands where after a removal |
| `Blocks.RemoveUndoesInsert` | src/block.c:295-415 | Removing what was inserted restores the text |
| `Blocks.SubDataSet` | src/block.c:379-387 | Byte by byte: what stands where after bytes were set |
| `Blocks.RemovalFits` | src/block.c:298-300 | The count is cut down to what is there if and only if it is iInvalidSize or the sum does not wrap |
| `Blocks.RemovalOverruns` | src/block.c:298-306 | With ten bytes, position 2 and count 2^64 - 2 it is not: ten bytes are moved and the size becomes 12 |
| `Blocks.Store.SetData` | src/block.c:369-377 | The block shows the given bytes; no other block changes |
| `Blocks.Store.SetSubData` | src/block.c:379-387 | The bytes go over those of the block from the position on, and may extend it; no other block changes |
| `Blocks.Store.Append` | src/block.c:397-402 | The block gains the bytes at its end; no other block changes |
| `Blocks.Store.Insert` | src/block.c:408-415 | The block gains the bytes at the position; no other block changes |
| `Blocks.Run` | src/block.c:161-415 | Over any history of creating, copying, assigning, changing and deleting blocks, each block shows what it would if it had its bytes for itself, counts stay exact, nothing in use is freed, and every record stays null-terminated |
| `Md5.FoldOne` | src/md5.c:196-200 | Transforming one more block is folding over one block more |
| `Md5.CountAdded` | src/md5.c:189-192 | The two words with carry hold the exact bit count modulo 2^64, for a size below 2^32 |
| `Md5.LowBits` | src/md5.c:187 | The fill of the buffer can be read off the low word, whatever the size |
| `Md5.PadLength` | src/md5.c:217-218 | The padding is the shortest of at least one byte that leads to 56 modulo 64, as section 3.1 of RFC 1321 has it |
| `Md5.PaddedIs` | src/md5.c:40-43 | The padded message is the message, 0x80, as few zeros as lead to 56 modulo 64, and the eight bytes of the bit count, low byte first |
| `Md5.OnePadded` | src/md5.c:213-220 | There is only one such message |
| `Md5.StartEncoded` | src/md5.c:210 | The first state, encoded, is 01 23 45 67 89 AB CD EF FE DC BA 98 76 54 32 10 |
| `Md5.EncodedIs` | src/md5.c:45-53 | A digest has the four words in order, each low byte first |
| `Md5.Context.Blocks` | src/md5.c:194-200 | The block that the input completes and the whole blocks of the input are transformed in order, each once |
| `Md5.Context.Update` | src/md5.c:184-207 | What was absorbed followed by the input is now absorbed, however the message was cut into pieces, and the count grows by the bits of the input |
| `Md5.TwoWords` | src/md5.c:45-53 | The two encoded words are the length as one 64-bit number |
| `Md5.Hash` | src/md5.c:209-223 | The digest is the transformation folded, from the four words of RFC 1321, over a message padded with 0x80, zeros and its bit count; with the length of RFC 1321 for every message shorter than 2^32 bytes |
| `Md5.LengthIsRight` | src/md5.c:189-192 | The length field is that of RFC 1321 if and only if bits 32 to 60 of the size are zero, because the size is converted to 32 bits |
| `GapArray.Array.MoveElements` | src/array.c:36-43 | Overlapping moves lose nothing: the elements stand at their new place as they were, and the rest of the buffer is as it was |
| `GapArray.Array.Rebalance` | src/array.c:54-77 | Elements that touch an end of the buffer end up with equal space on both sides, up to one, when more than four places are free; otherwise nothing moves |
| `GapArray.Array.Reserve` | src/array.c:155-164 | The buffer has the wanted size, less than twice of it, and the same elements |
| `GapArray.Array.Resize` | src/array.c:170-186 | The sequence is cut off or extended with zeros |
| `GapArray.Array.MakeRoom` | src/array.c:266-295 | The two-sided loop always makes all the room that is needed: its count of missing places ends at 0 |
| `GapArray.Array.InsertN` | src/array.c:221-299 | The sequence has the new elements at the position, whichever of the three ways they went in |
| `GapArray.Array.RemoveN` | src/array.c:301-323 | The sequence loses these elements, or all from the position on |
| `GapArray.Array.TakeN` | src/array.c:213-219 | Returns up to so many elements from the position, and removes exactly these |
| `GapArray.Array.SetN` | src/array.c:188-191 | Elements are replaced in place |
| `GapArray.Array.PopBackN` | src/array.c:201-205 | Up to so many elements leave the end |
| `GapArray.Array.PopFrontN` | src/array.c:207-211 | Up to so many elements leave the beginning |
| `GapArray.RemovalUndoesInsertion` | src/array.c:221-323 | Removing what was inserted restores the sequence |
| `GapArray.InsertedAt` | src/array.c:221-299 | Element by element: what stands where after an insertion |
| `GapArray.RemovedAt` | src/array.c:301-323 | Element by element: what stands where after a removal |
| `GapArray.Array.Move` | src/array.c:329-344 | The elements leave one array and stand in the other at the position, in order |
| `GapArray.MovingConserves` | src/array.c:329-344 | Moving between sequences neither loses nor makes elements |
| `StringList.List.LocateNode` | src/stringlist.c:101-127 | From either end, past nodes that are empty, the loop ends at the node that holds the position |
| `StringList.List.SplitNode` | src/stringlist.c:165-174 | A node of 513 strings becomes two of 256 and 257; the sequence is the same and all nodes are within 512 strings |
| `StringList.List.MergeNode` | src/stringlist.c:187-200 | A node that is less than half full goes into a neighbour that also is, if there is one; otherwise nothing changes |
| `StringList.List.Insert` | src/stringlist.c:232-246 | The sequence has the string at the position, or at its end; no node exceeds 512 strings and the size is exact |
| `StringList.List.PushBack` | src/stringlist.c:202-207 | The sequence has the string at its end |
| `StringList.List.PushFront` | src/stringlist.c:219-224 | The sequence has the string at its beginning |
| `StringList.List.Take` | src/stringlist.c:270-278 | Returns the string at the position, which leaves the sequence; no node exceeds 512 strings and the size is exact |
| `StringList.JoinedReplaced` | src/stringlist.c:165-185 | Nodes may be replaced by others that together hold the same strings in the same order |
| `StringList.JoinedApart` | src/stringlist.c:101-127 | The strings of two runs of nodes are those of the first and then those of the second |
| `Garbage.Collector.Push` | src/garbage.c:145-166 | The stack gains the item; all chunks but the last stay full |
| `Garbage.Collector.Pop` | src/garbage.c:115-125 | The stack loses its newest item, whose destructor is called if it has one, which is what is reported |
| `Garbage.Collector.EndScope` | src/garbage.c:205-211 | Everything above the topmost marker is run, newest first, and the marker goes |
| `Garbage.AboveAt` | src/garbage.c:205-211 | What ending a scope runs is the stack from the top down: newest first |
| `Garbage.ReversedAt` | src/garbage.c:205-211 | Reversed means newest first, position by position |
| `Garbage.ClearedIs` | src/garbage.c:95-105 | Running everything runs exactly the items with a destructor, in reverse when all have one |
| `Garbage.ClearedJoin` | src/garbage.c:95-105 | What was collected later runs earlier |
| `Garbage.ScopeRestores` | src/garbage.c:201-211 | Ending a scope restores the stack from before it if and only if everything left in it has a destructor |
| `Garbage.RunsOnce` | src/garbage.c:201-211 | Over any nesting of scopes, each collected item, all with destructors, is run once or is still there for the enclosing scope |
| `Garbage.ScopeRunsAll` | src/garbage.c:201-211 | A scope runs exactly what was collected in it, at every depth |
| `Garbage.RunsJoin` | src/garbage.c:201-211 | What code runs after other code it runs after that |
| `Garbage.RunsInOrder` | src/garbage.c:201-211 | Of an inner scope with b and c between a and d of an outer one, c and b run first, then d and a |
| `Garbage.Collector.Perform` | src/garbage.c:196-211 | For any nesting of scopes the stack gains what was collected in the current scope, and what was collected further in has run in the order of inner scopes first |
| `Garbage.Collector.Recycle` | src/garbage.c:95-105 | Everything is run, newest first, and the stack is empty, unless recycling is going on already |

## Left out

- Map iterators: the upward walk (src/map.c:405) skips a parent without a child on the forward side, so they do
  not visit every node.
- The comparison function of a map is a parameter that depends only on keys and orders them, perhaps with ties. A
  node of one map or hash is not put into another one.
- Case flags of Punycode, which both callers leave out, and the conversions between UTF-8 and code points around
  it. Decoding into an output of 2^32 - 1 or more elements, where the count of points would wrap to 0.
- HashConstIterator, which is the iterator without removal; BlockHash and StringHash.
- The loop of findNode_HashBucket_ is that of find_HashBucket_ without the depth; one method stands for both.
- Memory of freed buckets: a freed bucket is no longer among those of the hash, and no method looks at it again.
- List iterators and the list's use of arbitrary node memory.
- PoolSteps: the mutexes of the jobs themselves, audiences and results; a signal wakes one sleeper, and spurious
  wake-ups cover the rest. Every job ends, does not submit to its own pool after stopping began and does not call
  yield_ThreadPool. takeTimeout_Queue, tryTake_Queue and waitForItems_Queue.
- Timestamps of archive entries: the packed MS-DOS words are carried as they are, without the calendar. Files,
  directory listings and ZIP files of other writers, beyond what opening arbitrary bytes does.
- Archives.Archive.OpenData: a file name cut short by the end of the stream is filled up with zeros, where the
  original keeps whatever the block held.
- Blocks.Store.Remove: does not say what happens when the position plus a count other than iInvalidSize wraps around
  2^64, because memmove then writes outside the data; Blocks.RemovalFits says that these are all such cases.
- Blocks: writable pointers from data_Block, block literals, blocks of uninitialised or foreign memory, concat_Block
  and formatting. Bytes that are written come from outside the block; the atomic counter is an integer.
- The rounds of transform_ in MD5, which is a parameter.
- Gap arrays: the element size in bytes, the casts of a shift to int (lines 181, 231 and 316 of src/array.c), which
  change shifts of 2^31 elements and more, and any claim on cost. Positions are within what the source asserts.
- String lists: the doubly linked list of nodes is a sequence of node objects and a node's array a sequence, since
  both structures are modelled on their own; iterators, joining and serialisation.
- Garbage: destructors that themselves collect, threads, and the check for duplicates in debug builds.
- Sockets, TLS, processes, regular expressions, formatting, TOML and XML, float code and platform layers; future.c
  and audience.c.
