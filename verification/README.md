# A verified model of the Pinyin decoder

The decoder turns a string of Pinyin letters into Chinese sentences. This project models its data structures and
algorithms in Dafny and proves what they promise.

* **The user dictionary** (`LemmaBlock` to `UserDict`) keeps variable-length records in one block of bytes, with
  parallel arrays that index it. Proved: the index stays well formed under every operation; compaction loses, changes
  and reorders nothing; writing back only the stale part of the file equals a full rewrite, over every run; cached
  queries equal the simple scan; reclaiming removes exactly the lowest-scored entries; each operation is also
  described by what it leaves, in numbers.
* **The search lattice** (`LatticeRow` to `BestSentence`) is a beam search with five nodes in a row. Proved: the head
  of a row is the best of all paths through the input, and the kept nodes are the five best within the pruning
  distance; the in-place traceback yields the segmentation and the lemmas of a best path. Nodes, matches and the
  milestones of the dictionary are three stacks: the handles of the matches increase along their pool, each stands for
  the spellings of its match, and going back to a row, or adding characters after that, leaves all that earlier rows
  use as it was. A new row has exactly the matches that are due, and nodes whenever the last characters spell a lemma.
* **The system dictionary** (`LemmaTrie` to `LemmaSpellings`) is a trie in two node arrays with split offsets and
  three-byte ids. Proved: what is built from the sorted lemma array is read back: exact lookup, lookup by ranges, and
  incremental lookup by milestones all agree with a filter of the array.
* **Spellings** (`SpellingNodes` to `SplParser`): half ids are ranges of full ids; the parser reads the longest
  beginnings of spellings, which ids it accepts in which mode is said by the table alone, and spellings are read back.
* **The parts together** (`WordLookup`, `MatchGrowth`, `MatchesMade`, `DecoderParts`): the built dictionary and the
  built spelling trie meet what the lattice asks of them, so the best sentence is one over the lemma array.
* **Tables** (`PrimeStride` to `DictList`): the hash table refines a map, and the word list agrees with the array of
  words.

Objects that the program updates in place are classes over arrays whose methods equal a function of the old contents;
the theorems are about these functions and the states they reach. Where a natural property does not hold of the code,
the condition under which it does is proved to be exact, with failing inputs: `LocateExactly` with
`LongerLemmaIsTaken`, `ExtendExactly`, `IndexIsExact` with `IndexMissesId`, `DownExact` with `EqualScores`,
`SpellingIsRead`, `ProbeIsInjective`, `CalculateSize`, `OffsetRoundTrip`, and the methods `GetLemmaStr` and
`GetLemmaId` of the word list. `StaleOffers` shows what a full match pool leads to.

The project verifies with `dafny verify dfyconfig.toml`.

## Model

| member | source | states |
|---|---|---|
| `LemmaBlock.Sweep` | pinyin/userdict.cpp:1594-1656 | both scans with their jump terminate; the block ends as its live records packed in their old order, and every entry of the three lists that points into a live record points into that record's copy, all others stay |
| `LemmaBlock.SlideRun` | pinyin/userdict.cpp:1629-1648 | one memmove of a run of live records and the shift of all entries that point into the run |
| `LemmaBlock.ScanLive` | pinyin/userdict.cpp:1594-1606 | stops at the first removed record or at the end of the block |
| `LemmaBlock.ScanDead` | pinyin/userdict.cpp:1607-1619 | stops at the first live record or at the end of the block |
| `LemmaBlock.RelocatedStep` | pinyin/userdict.cpp:1629-1648 | sliding one more run extends the relocation of everything before it |
| `Partition.PartitionAll` | pinyin/userdict.cpp:1517-1559 | the in-place partition of offsets_, scores_ and ids_: the live entries in their old relative order, each with its own score and id; the remove flag is saved in the record of exactly the flagged offsets |
| `Partition.PartitionOne` | pinyin/userdict.cpp:1561-1586 | the same for predicts_ alone |
| `Partition.LiveAtOnto` | pinyin/userdict.cpp:1517-1559 | every live index is the k-th live one for some k: the partition loses none |
| `BlockFacts.RecordReads` | pinyin/userdict.cpp:2181-2187 | the record that append_a_lemma writes reads back as its length, spelling ids and word |
| `BlockFacts.AppendStarts` | pinyin/userdict.cpp:2174-2190 | after an append the records tile the block, the new one behind the old ones |
| `BlockFacts.MarkedDead` | pinyin/userdict.cpp:1530-1559 | after marking, a record is removed exactly when its offset is flagged |
| `BlockFacts.KeptHasRecord` | pinyin/userdict.cpp:1620-1656 | each live record is in the packed block, unchanged |
| `BlockFacts.KeptOnly` | pinyin/userdict.cpp:1620-1656 | each record of the packed block is the copy of a live one |
| `BlockFacts.RelocatedInjective` | pinyin/userdict.cpp:1620-1656 | relocation keeps the order of live records, so no two meet |
| `Defragment.CompactionPreserves` | pinyin/userdict.cpp:1508-1678 | the block is exactly the live records in physical order; offsets_ lists the same live lemmas in the same relative order with their scores; ids are dense and offsets_by_id_ agrees |
| `Defragment.CompactionFollows` | pinyin/userdict.cpp:1561-1677 | each entry of predicts_, and each entry of syncs_ that pointed at a live lemma, points at that lemma's moved copy; used plus left bytes, and the free entries, are conserved |
| `Defragment.FirstScan` | pinyin/userdict.cpp:1594-1603 | the first scan reaches the end of the block exactly when nothing is removed |
| `Defragment.PackedOnly` | pinyin/userdict.cpp:1594-1656 | no record of the packed block belongs to a removed lemma |
| `Defragment.DefragKeepsInv` | pinyin/userdict.cpp:1508-1678 | compaction keeps the index well formed: tiling, order, id permutation, equal flags, room |
| `UserDictionary.UserDict.Defragment` | pinyin/userdict.cpp:1508-1678 | the method on the buffers leaves exactly the specified dictionary, and touches nothing of one that is not loaded |
| `UserDictionary.UserDict.Renumber` | pinyin/userdict.cpp:1667-1671 | ids_ counts up from start_id_ and offsets_by_id_ follows |
| `SpellingOrder.CompareOrder` | pinyin/userdict.cpp:384-404 | the comparison of (length, initials) keys is antisymmetric and transitive |
| `SpellingOrder.CompareMeans` | pinyin/userdict.cpp:384-404 | shorter keys come first, and of equal length the one that is less where they first differ |
| `SpellingOrder.SignatureInjective` | pinyin/userdict.cpp:474-494 | within one length equal signatures mean equal initials, so the caches may key on them |
| `DictModel.IdsArePermutation` | pinyin/userdict.cpp:2176-2196 | in a well-formed index no two entries have the same id |
| `DictModel.ScoreRoundTrip` | pinyin/userdict.cpp:98-123 | a packed score is rebuilt from its frequency and its time |
| `DictModel.UpdateSaturates` | pinyin/userdict.cpp:2138-2151 | a step that would leave the range, or a negative one, lands on the maximal frequency |
| `DictInvariants.AppendKeepsInv` | pinyin/userdict.cpp:2174-2252 | an append of an unknown lemma keeps the index well formed |
| `DictInvariants.AppendSorted` | pinyin/userdict.cpp:2205-2230 | the new entry goes where the order by (length, initials) stays |
| `DictInvariants.RemoveKeepsInv` | pinyin/userdict.cpp:944-972 | so does a removal |
| `DictInvariants.RemoveEffect` | pinyin/userdict.cpp:944-972 | a removal hides one entry and nothing else |
| `DictInvariants.RescoreKeepsInv` | pinyin/userdict.cpp:2060-2069 | so does a new score |
| `DictInvariants.ReloadKeepsInv` | pinyin/userdict.cpp:1192-1210 | and a reload, which renumbers |
| `UserDictionary.UserDict.AppendLemma` | pinyin/userdict.cpp:2174-2252 | append_a_lemma on the buffers: record, sorted entry in three arrays, predicts_, ids and counters, the dirty level raised |
| `UserDictionary.UserDict.SortPosition` | pinyin/userdict.cpp:2208-2217 | the scan stops at the first entry whose key is not below the new one |
| `ArrayOps.InsertLast` | pinyin/userdict.cpp:2218-2230 | the memmove that brings the last entry to its sorted place |
| `ArrayOps.StoreRecord` | pinyin/userdict.cpp:2181-2187 | the bytes of the record at the end of the block; nothing before them changes |
| `UserDictionary.UserDict.RemoveAt` | pinyin/userdict.cpp:944-972 | flags the entry in offsets_, its record, predicts_, and drops it from the sync list |
| `UserDictionary.UserDict.DropFromSync` | pinyin/userdict.cpp:915-929 | the last entry takes the place of the first match |
| `UserDictionary.UserDict.FlagInPredicts` | pinyin/userdict.cpp:931-942 | the entry of predicts_ at the same position gets the flag |
| `UserDictionary.UserDict.QueueForSync` | pinyin/userdict.cpp:2108-2120 | the list grows by the preallocation when it is full |
| `UserDictionary.UserDict.ClearSyncLemmas` | pinyin/userdict.cpp:1681-1690 | removes the entries from start to end |
| `UserDictionary.UserDict.Rescore` | pinyin/userdict.cpp:2060-2066 | new packed score, frequency total and dirty level |
| `DictFile.WriteBackIsFullRewrite` | pinyin/userdict.cpp:1236-1358 | writing only from the first stale byte of the dirty level on leaves exactly the full image |
| `DictFile.RunThenWriteBack` | pinyin/userdict.cpp:1236-1358 | for every run of put, rescore, update, remove, sync clearing, compaction and flush: the incremental write-back equals a full rewrite, the image validates, and loading it gives back the same lemmas, order, flags and scores |
| `DictFile.RunFromEmpty` | pinyin/userdict.cpp:1004-1023 | a dictionary that starts from the file of reset keeps all of this over every run |
| `DictFile.StepKeepsSys` | pinyin/userdict.cpp:1236-1358 | each operation keeps the index well formed and the file in step with the dirty level |
| `DictFile.AppendKeepsFile` | pinyin/userdict.cpp:1318-1339 | an append makes at most the tail of the block and what follows it stale |
| `DictFile.DefragKeepsFile` | pinyin/userdict.cpp:1651-1672 | compaction makes the whole file stale |
| `DictFile.RemoveKeepsFile` | pinyin/userdict.cpp:944-972 | a removal makes at most the offsets and what follows stale |
| `DictFile.LoadOfImage` | pinyin/userdict.cpp:1084-1217 | load of a full image gives back the dictionary, with ids issued anew |
| `DictFile.ImageValidates` | pinyin/userdict.cpp:1025-1082 | a full image passes validate |
| `DictFile.ValidatesExactly` | pinyin/userdict.cpp:1025-1082 | byte by byte, which files validate: the version in front, and the length that the trailer announces |
| `DictFile.ValidatesBound` | pinyin/userdict.cpp:1025-1082 | what validate and the section lengths say about the number of lemmas |
| `DictFile.EmptyImage` | pinyin/userdict.cpp:1004-1023 | the file that reset writes is the image of the empty dictionary |
| `DictFile.FlushIsReload` | pinyin/userdict.cpp:990-1002 | flush_cache leaves the image in the file and the reloaded dictionary in memory |
| `UserDictionary.UserDict.WriteBack` | pinyin/userdict.cpp:1236-1271 | the method with its switch over the dirty level ends with the file equal to the full image, and the level clean |
| `UserDictionary.UserDict.WriteBackLemma` | pinyin/userdict.cpp:1318-1339 | the branch that writes only the appended bytes of the block |
| `UserDictionary.UserDict.Validate` | pinyin/userdict.cpp:1025-1082 | true exactly for files with the right version and size |
| `UserDictionary.UserDict.Reset` | pinyin/userdict.cpp:1004-1023 | the file of the empty dictionary |
| `UserDictionary.UserDict.Load` | pinyin/userdict.cpp:1084-1234 | succeeds exactly for files long enough for their sections, into fresh buffers with room for more |
| `UserDictionary.UserDict.LoadDict` | pinyin/userdict.cpp:251-282 | validates, resets a file that does not validate, and loads |
| `UserDictionary.UserDict.CloseDict` | pinyin/userdict.cpp:284-335 | writes back what is dirty unless the file was written by others since it was loaded; then what was changed in memory is lost and the file stays |
| `UserDictionary.UserDict.FlushCache` | pinyin/userdict.cpp:990-1002 | close and load again: same dictionary, fresh buffers, empty caches |
| `Disk.DiskFile.Write` | pinyin/userdict.cpp:1287-1300 | a write at the file position overwrites and extends |
| `Disk.DiskFile.Truncate` | pinyin/userdict.cpp:1273-1285 | cuts the file at the position |
| `DictQuery.LocateFirst` | pinyin/userdict.cpp:442-472 | the least index with exactly the asked length and initials when there is one, otherwise -1 or a longer entry with those initials as prefix |
| `DictQuery.LandsFirst` | pinyin/userdict.cpp:442-472 | if the least entry that is not below the key begins with it, the search answers with it, also when no entry has exactly the key |
| `DictQuery.ScanLpis` | pinyin/userdict.cpp:555-606 | the scan returns the matches of the stretch that it passes, and need_extend exactly when some live entry of the stretch begins with the asked ids |
| `DictQuery.SearchStep` | pinyin/userdict.cpp:442-472 | one probe discards only indices that cannot be the answer |
| `DictQuery.FuzzyCompare` | pinyin/userdict.cpp:384-404 | the byte-wise comparison of lengths and initials is the key order |
| `DictQuery.IsFuzzyPrefix` | pinyin/userdict.cpp:366-382 | true exactly when the initials begin the entry's initials |
| `LookupCache.GetLpis` | pinyin/userdict.cpp:501-606 | lookup through hit and miss caches returns, in index order, exactly the live lemmas of the asked length whose ids lie in the asked ranges, cut to the buffer; the caches stay right for every later query; unless the buffer is full, need_extend says exactly whether a live entry of the stretch from where the binary search lands begins with the asked ids |
| `LookupCache.LandingExtends` | pinyin/userdict.cpp:575-584 | if the entry where the search lands is live and begins with the asked ids, need_extend is set |
| `LookupCache.ExtendExactly` | pinyin/userdict.cpp:555-603 | with no removed entry in between, need_extend is set exactly if some lemma matches, or the first live entry behind those with the asked initials begins with the asked ids; longer lemmas behind it are missed |
| `LookupCache.LoadCache` | pinyin/userdict.cpp:1361-1388 | a hit gives the saved range of the signature |
| `LookupCache.CacheHit` | pinyin/userdict.cpp:1476-1489 | the miss cache first, with an empty range |
| `LookupCache.PushHit` | pinyin/userdict.cpp:1491-1501 | what is saved stays right |
| `LookupCache.Save` | pinyin/userdict.cpp:1390-1413 | the ring drops its oldest entry when full |
| `LookupCache.BrokeCovers` | pinyin/userdict.cpp:555-603 | an uncached scan that broke off has passed every entry with the key |
| `DictLocate.LocateInOffsets` | pinyin/userdict.cpp:689-755 | an entry that agrees with the asked ids and word on the asked length, and the asked lemma whenever some live entry is exactly it, with caches or without |
| `DictLocate.LocateFullIds` | pinyin/userdict.cpp:689-755 | a live lemma with these full ids and this word is found; -1 means there is none |
| `DictLocate.LocateExactly` | pinyin/userdict.cpp:722-728 | when no entry is exactly the asked lemma, the search of a dictionary without a cached range says so (-1) exactly if no live longer lemma that begins with the asked one lies among the entries that share its initials from where the binary search lands |
| `DictLocate.LongerLemmaIsTaken` | pinyin/userdict.cpp:722-728 | the failing family: with only a longer lemma present, asking for its beginning finds it |
| `UserDictionary.UserDict.GetLpis` | pinyin/userdict.cpp:496-606 | the same on the loaded buffers, which the query leaves alone: items and need_extend |
| `UserDictionary.UserDict.GetLemmaId` | pinyin/userdict.cpp:855-863 | the id of the found entry, 0 otherwise |
| `UserDictionary.UserDict.PutLemma` | pinyin/userdict.cpp:2052-2106 | a known lemma gets a new score; at a limit nothing changes; otherwise the lemma is appended and queued, after a flush when there is no room; index, file and caches stay in order |
| `UserDictionary.UserDict.UpdateLemma` | pinyin/userdict.cpp:2123-2164 | one score changes: its low half becomes f + delta if 0 <= delta and that is at most 65535, and else 65535; its high half stays, or becomes the week of the selection; the lemma is queued for synchronisation |
| `DictEffects.UpdatedHalves` | pinyin/userdict.cpp:2138-2151 | both halves of the new score, in numbers |
| `DictEffects.UpdateLeaves` | pinyin/userdict.cpp:2123-2164 | which score changes and how; block, index, ids and predicts_ stay; the position of the lemma is queued last |
| `DictEffects.BuiltScore` | pinyin/userdict.cpp:113-123 | frequency in the low half, weeks since 2009 in the high half |
| `DictEffects.PutLeaves` | pinyin/userdict.cpp:2052-2120 | a known lemma is not queued; a new one gets the next id and is queued last |
| `DictEffects.AppendLeaves` | pinyin/userdict.cpp:2174-2252 | block and reserve together keep their size, so do index and its reserve; the count is added to the total |
| `DictEffects.FlushedFirst` | pinyin/userdict.cpp:2080-2096 | a flush comes first exactly when a reserve is used up, and then there is room |
| `DictEffects.RemoveLeaves` | pinyin/userdict.cpp:944-972 | only the flag of one entry changes; the freed bytes are those of its record |
| `DictEffects.DroppedOnce` | pinyin/userdict.cpp:915-929 | the first occurrence in the sync list is gone, the last entry takes its place, all others stay |
| `DictEffects.ClearLeaves` | pinyin/userdict.cpp:1681-1690 | exactly the entries from start to end are gone from the sync list |
| `UserDictionary.UserDict.RemoveLemma` | pinyin/userdict.cpp:974-988 | the found entry is removed |
| `UserDictionary.UserDict.LocateById` | pinyin/userdict.cpp:2128-2137 | an id that is not valid is not found |
| `UserDictionary.UserDict.Reclaim` | pinyin/userdict.cpp:1954-2008 | for a ratio between 0 and 100 the share of the entries in per cent, rounded down, is removed, for all scores; if no two scores are equal, exactly those that fewer others score below |
| `DictCalls.VictimShare` | pinyin/userdict.cpp:1971 | 100 n <= count * ratio < 100 n + 100 for the number n of victims, the product cut to 32 bits |
| `UserDictionary.UserDict.MakeRoom` | pinyin/userdict.cpp:1715-1717 | reclaim, defragment and flush_cache together leave a dictionary with right caches |
| `DictCalls.IdOnto` | pinyin/userdict.cpp:203-213 | every issued id belongs to one entry |
| `DictCalls.ByIdFinds` | pinyin/userdict.cpp:2123-2137 | searching for the lemma of an id finds the entry with that id, when it is live and its ids are full |
| `DictMeaning.OneScore` | pinyin/userdict.cpp:2052-2070 | a spelling and a word have at most one score |
| `DictMeaning.AppendMeans` | pinyin/userdict.cpp:2174-2252 | as a set of lemmas, an append adds exactly the new one |
| `DictMeaning.RemoveMeans` | pinyin/userdict.cpp:944-972 | a removal takes away one lemma |
| `DictMeaning.RescoreMeans` | pinyin/userdict.cpp:2060-2066 | a rescore replaces one lemma's score |
| `DictMeaning.CompactMeans` | pinyin/userdict.cpp:1508-1678 | compaction changes no lemma |
| `DictMeaning.PutMeans` | pinyin/userdict.cpp:2052-2106 | what put_lemma does to the set of lemmas, in each of its cases: known, at a limit, new; with the score in numbers |
| `DictMeaning.UpdateMeans` | pinyin/userdict.cpp:2123-2164 | what update_lemma does to the set of lemmas: one score is replaced, by which number is said in full |
| `DictMeaning.ReclaimMeans` | pinyin/userdict.cpp:1954-2008 | the lemmas that stay are exactly the live ones that are no victims: with different scores, those of high enough rank |
| `DictMeaning.FoundEntry` | pinyin/userdict.cpp:689-755 | the found entry begins with the asked lemma, and is it exactly when the asked lemma is in the dictionary |
| `DictMeaning.UpkeepRun` | pinyin/userdict.cpp:990-1678 | over any run of compactions, flushes and sync clearings the dictionary means the same |
| `ScoreHeap.ShiftDown` | pinyin/userdict.cpp:2019-2045 | on the array: the specified walk to the larger child, for all scores |
| `ScoreHeap.SelectVictims` | pinyin/userdict.cpp:1980-1996 | the arrays of the bounded max-heap after all entries, for all scores |
| `ScoreHeap.DownExact` | pinyin/userdict.cpp:2019-2045 | shift_down makes a heap of a node and the heaps below it exactly when it comes to no node below which two equal children exceed it |
| `ScoreHeap.PicksAreEntries` | pinyin/userdict.cpp:1980-1996 | for all scores the heap holds as many different entries as asked for, each with its score |
| `ScoreHeap.PicksAreLowest` | pinyin/userdict.cpp:1980-1996 | for pairwise distinct scores it is a heap, and every entry it does not hold scores above all it holds |
| `ScoreHeap.EqualScores` | pinyin/userdict.cpp:2032-2043 | the failing input with equal scores: of 1, 2, 2, 0 the picked three are 0, 2 and 2 |
| `ScoreHeap.VictimsAreLowest` | pinyin/userdict.cpp:1980-2000 | an index is picked exactly when fewer than rc others score below it |
| `ScoreHeap.LowerMeans` | pinyin/userdict.cpp:1980-1990 | scores are compared as signed 32-bit numbers |
| `LatticeRow.ExtendMtrxNd` | pinyin/matrixsearch.cpp:1547-1592 | one node's offers sorted into the row in place; with room for a row the pool guard is never taken |
| `LatticeRow.InsertNode` | pinyin/matrixsearch.cpp:1569-1589 | the shifting loop: at most five nodes, sorted, new ones behind equal scores |
| `LatticeRow.InsertedAt` | pinyin/matrixsearch.cpp:1569-1589 | the row after an insertion, entry by entry |
| `LatticeRow.InsertedBest` | pinyin/matrixsearch.cpp:1569-1589 | the k-th best score never gets worse |
| `LatticeRow.ExtendedCoversOld` | pinyin/matrixsearch.cpp:1547-1592 | what was covered stays covered |
| `LatticeRow.ExtendedCoversNew` | pinyin/matrixsearch.cpp:1556-1567 | every offered item is kept, or outdone by five kept nodes, or more than 8000 behind the head, including the items after which the loop breaks off |
| `LatticePaths.NodeHasPath` | pinyin/matrixsearch.cpp:1547-1592 | each node's score is the sum of the lemma scores along its from chain, which leads to the start |
| `LatticePaths.SearchIsExact` | pinyin/matrixsearch.cpp:983-1140 | every path to a row is kept, or five nodes of the row are as good, or it is more than 8000 behind the head: over all paths through the whole input |
| `LatticePaths.HeadIsBest` | pinyin/matrixsearch.cpp:983-1140 | the score of a row's head is the least total of any path that leads there, and some path has it |
| `LatticePaths.FiveOffers` | pinyin/matrixsearch.cpp:1121-1131 | five good nodes of a source row give five good nodes of the target row |
| `Lattice.PoolBound` | pinyin/matrixsearch.cpp:1135-1140 | before row r the node pool holds at most 1 + 5r nodes |
| `Lattice.RowKept` | pinyin/matrixsearch.cpp:937-955 | a row is in order in every lattice that is the same up to the end of that row |
| `LatticeSteps.CutOk` | pinyin/matrixsearch.cpp:254-302 | going back to an earlier row keeps every node and match that the remaining rows use, and the lattice in order |
| `LatticeSteps.WithDmiPartial` | pinyin/matrixsearch.cpp:1474-1492 | a new match spells the characters before the row |
| `LatticeSteps.OfferStep` | pinyin/matrixsearch.cpp:1121-1131 | one source node done |
| `LatticeSteps.StaleOffers` | pinyin/matrixsearch.cpp:1413-1424 | with a full match pool and items left from an earlier call the new row gets nodes whose match index lies behind the pool, and the lattice is no longer in order |
| `PinyinDecoder.MatrixSearch.AddChar` | pinyin/matrixsearch.cpp:977-981 | the new row has exactly the matches that are due: each spelling of the last one to seven characters on each match that it can extend and from the root, if a dictionary goes on and no longer spelling shuts it out; its nodes are in order, and it has some if the last characters are a spelling with lemmas behind a row with nodes; rows, nodes, matches and both milestone stacks are unchanged up to where they ended before |
| `PinyinDecoder.MatrixSearch.AddCharQwerty` | pinyin/matrixsearch.cpp:983-1141 | the last seven to one characters as one more spelling, each match extended from every row it can start in: exactly the specified matches, milestones and result |
| `MatchesMade.GrowIsComplete` | pinyin/matrixsearch.cpp:983-1140 | said without the turns: every match that is due is made, every match made was due, which length shuts out which, and the flags of the row |
| `MatchesMade.SpeltLeads` | pinyin/matrixsearch.cpp:1033-1135 | if the last characters are a spelling that has lemmas, some new match leads to lemmas |
| `MatchesMade.LeadsReaches` | pinyin/matrixsearch.cpp:1121-1135 | a match that leads to lemmas brings nodes to its row |
| `PinyinDecoder.MatrixSearch.ExtendRow` | pinyin/matrixsearch.cpp:1033-1135 | all matches of a row, from the root at the end: exactly the specified matches and milestones; what is older stays |
| `PinyinDecoder.MatrixSearch.ExtendFrom` | pinyin/matrixsearch.cpp:1067-1132 | one match, its items, and the offers of all nodes of its source row; in a full match pool nothing is tried |
| `PinyinDecoder.MatrixSearch.ExtendDmi` | pinyin/matrixsearch.cpp:1412-1510 | the items are those of both dictionaries for all spellings of the match, sorted; the new milestone stands for these spellings, and the match carries it; with a full pool it answers 0 and the items of the last call stay |
| `MatchGrowth.AskSystem` | pinyin/matrixsearch.cpp:1452-1460 | going on from the milestone of the match finds the items that a search from scratch for all its spellings finds, and no milestone means that there are none |
| `MatchGrowth.AskBoth` | pinyin/matrixsearch.cpp:1435-1508 | the items of both dictionaries for these spellings, best first |
| `MatchGrowth.HandledPush` | pinyin/matrixsearch.cpp:1474-1492 | handles stay strictly increasing along the match pool, each standing for the spellings of its match, when a match is added |
| `MatchGrowth.HandledCut` | pinyin/matrixsearch.cpp:261-283 | cutting the milestones at the handle of a dropped match keeps those of all matches before it |
| `PinyinDecoder.MatrixSearch.PrepareAddChar` | pinyin/matrixsearch.cpp:937-955 | the new row starts at the end of both pools |
| `PinyinDecoder.MatrixSearch.TryAdd` | pinyin/matrixsearch.cpp:456-462 | a character that leads nowhere is taken back; older rows, nodes, matches and milestones are never written |
| `PinyinDecoder.MatrixSearch.ResetAll` | pinyin/matrixsearch.cpp:216-252 | the lattice of the empty input, and no milestones |
| `PinyinDecoder.MatrixSearch.ResetSearch` | pinyin/matrixsearch.cpp:254-302 | for all flags the lattice is exactly the earlier one, without the matches or nodes of row p if they are to be cleared; the milestones are cut at the handle of the first dropped match, and those of all matches that stay still stand for their spellings |
| `PinyinDecoder.MatrixSearch.ResetStones` | pinyin/matrixsearch.cpp:262-284 | which handle is picked, and what reset_milestones leaves |
| `PinyinDecoder.ClearReady` | pinyin/matrixsearch.cpp:262-284 | the handle picked from row p + 1 (or p) lies above all handles of the matches that stay, which keep their milestones |
| `PinyinDecoder.MatrixSearch.MatchDmi` | pinyin/matrixsearch.cpp:1594-1621 | the first match of the row with exactly these spelling ids, -1 when there is none |
| `PinyinDecoder.MatrixSearch.GetSplStartId` | pinyin/matrixsearch.cpp:1311-1404 | the segmentation of the best path: spelling starts strictly increasing up to the decoded length, lemma starts strictly increasing up to the number of spellings, each spelling parsing its characters |
| `PinyinDecoder.CollectIds` | pinyin/matrixsearch.cpp:1075-1082 | the spelling ids of a match in forward order |
| `Traceback.Segment` | pinyin/matrixsearch.cpp:1326-1392 | walk, reversal and turn together: spelling ids, ends, lemma ids and lemma starts of the path front to back behind an untouched fixed prefix, the lemma starts strictly increasing up to the number of spellings |
| `Traceback.Walk` | pinyin/matrixsearch.cpp:1326-1353 | the walk writes spellings and lemmas last first |
| `Traceback.XorSwap` | pinyin/matrixsearch.cpp:1355-1383 | three exclusive ors exchange two values |
| `Traceback.ReverseBoth` | pinyin/matrixsearch.cpp:1355-1383 | the in-place reversal of ends and ids behind the fixed prefix |
| `Traceback.CountForward` | pinyin/matrixsearch.cpp:1385-1392 | suffix counts become start positions, in place |
| `Traceback.TurnedAt` | pinyin/matrixsearch.cpp:1385-1392 | which entries the turn reads at each position |
| `Traceback.MatchSegments` | pinyin/matrixsearch.cpp:1336-1350 | a match segments the characters it covers |
| `Traceback.WalkSegments` | pinyin/matrixsearch.cpp:1327-1353 | the spellings from the start to a node segment the whole input up to its row |
| `Traceback.SegmentsBound` | pinyin/matrixsearch.cpp:1311-1404 | there are no more spellings than characters |
| `Traceback.WordsRise` | pinyin/matrixsearch.cpp:1385-1397 | lma_start_ is strictly increasing and ends at the number of spellings |
| `Traceback.SpellingsRise` | pinyin/matrixsearch.cpp:1355-1383 | spl_start_ is strictly increasing and ends at the last character |
| `BestSentence.FirstSentenceIsBest` | pinyin/matrixsearch.cpp:1311-1404 | the lemmas and spellings left in the buffers are those of a path through the whole input, and no path has a smaller total score |
| `DecoderParts.FindsTheArray` | pinyin/matrixsearch.cpp:1452-1460 | what the lattice is offered for some spelling ids is the filter of the lemma array by them, cut to the buffer |
| `DecoderParts.PartsFit` | pinyin/matrixsearch.cpp:1033-1036 | the parser over a table of spellings and the dictionary over the same spellings meet all that the lattice asks of them |
| `DecoderParts.PartsRead` | pinyin/matrixsearch.cpp:1017-1025 | what the parser and the half ids of the decoder are, by the table of spellings: the id of every string and spelling, the flag, the half ids and their ranges |
| `DecoderParts.SpellingHasItems` | pinyin/matrixsearch.cpp:1452-1460 | a full spelling with which some lemma of the array is written alone has items, so the row where it ends is reached |
| `DecoderParts.NewDecoder` | pinyin/matrixsearch.cpp:123-156 | a decoder over the built dictionary and the built spelling trie, with the empty lattice in order; it reads each string as the longest beginnings of spellings, each complete spelling as its id, and a half id stands for the spellings that begin like it |
| `DecoderParts.FirstSentence` | pinyin/matrixsearch.cpp:1311-1404 | the sentence that is left in the buffers is one of least total score over all paths |
| `LemmaTrie.BuildLists` | pinyin/dictbuilder.cpp:770-1001 | the trie of the sorted lemma array lists exactly the array, in order |
| `LemmaTrie.BuildOrdered` | pinyin/dictbuilder.cpp:770-1001 | brothers have strictly increasing spelling ids |
| `LemmaTrie.LookupIsFilter` | pinyin/dicttrie.cpp:665-848 | going down by ranges and collecting ids is filtering the lemma array |
| `LemmaTrie.ReachFilters` | pinyin/dicttrie.cpp:688-790 | the same for any trie and the list of its lemmas |
| `LemmaTrie.DescentFindsLemmas` | pinyin/dicttrie.cpp:600-663 | the exact descent succeeds exactly for the lemmas of the array |
| `TrieNodes.OffsetRoundTrip` | pinyin/dictbuilder.cpp:647-656 | a split offset is read back exactly when it fits into 24 bits |
| `TrieNodes.IdRoundTrip` | pinyin/dictbuilder.cpp:640-645 | an id is read back from its bytes exactly when it fits into three |
| `TrieNodes.HomosInOrder` | pinyin/dictbuilder.cpp:896-898 | the ids of a trie in the order of the walk are those of its lemmas |
| `DictBuilding.DictBuilder.ConstructSubset` | pinyin/dictbuilder.cpp:770-1001 | below the first layer: the node array holds the nodes of the lemmas through 24-bit offsets, nothing older is overwritten, and the ids follow in array order |
| `DictBuilding.DictBuilder.GroupNode` | pinyin/dictbuilder.cpp:866-925 | one node, its ids, and everything below it |
| `DictBuilding.DictBuilder.ConstructRoot` | pinyin/dictbuilder.cpp:585-591 | from the root: both arrays hold the trie of the whole lemma array |
| `DictBuilding.DictBuilder.TopNode` | pinyin/dictbuilder.cpp:866-925 | one node of the first layer and everything below it |
| `DictBuilding.DictBuilder.SetParent` | pinyin/dictbuilder.cpp:813-844 | son count and first son of the parent, by layer |
| `DictBuilding.ScanGroup` | pinyin/dictbuilder.cpp:849-864 | the end of a group and how many of its lemmas end there |
| `DictBuilding.CountSons` | pinyin/dictbuilder.cpp:776-793 | the number of sons is the number of nodes the group scan makes |
| `DictBuilding.GroupParts` | pinyin/dictbuilder.cpp:866-925 | what the recursion sees of a group, and what comes after it |
| `DictBuilding.DictBuilder.CopyOut` | pinyin/dictbuilder.cpp:597-624 | every id is read back from its three bytes, those of the top lemmas last |
| `DictBuilding.DictBuilder.BuildDict` | pinyin/dictbuilder.cpp:585-638 | the built dictionary holds the trie of the lemma array; the ids stand in array order |
| `SystemDictionary.FillIndex` | pinyin/dicttrie.cpp:221-238 | the loop over the first layer |
| `SystemDictionary.IndexIsExact` | pinyin/dicttrie.cpp:221-238 | the quick index is the first node at or behind each spelling id exactly when no id before the last node's is missing |
| `SystemDictionary.IndexMissesId` | pinyin/dicttrie.cpp:221-238 | the failing input: with nodes for 30 and 32 only, the index sends 31 to the node of 30 |
| `SystemDictionary.GetLemmaId` | pinyin/dicttrie.cpp:95-101 | the three bytes put together |
| `SystemDictionary.FillLpiBuffer` | pinyin/dicttrie.cpp:317-351 | the items of a node behind those that are there, as far as there is room |
| `SystemDictionary.SelectSons` | pinyin/dicttrie.cpp:730-750 | the sons in the range, as far as the buffer has room; the scan may stop at the last id of the range |
| `SystemDictionary.DictTrie.constructor` | pinyin/dicttrie.cpp:168-241 | the loaded buffers, the index, and no milestones |
| `SystemDictionary.DictTrie.TryExtend` | pinyin/dicttrie.cpp:600-663 | true exactly when some lemma has these spelling ids and this id |
| `SystemDictionary.DictTrie.GetLpis` | pinyin/dicttrie.cpp:665-848 | exactly the lemmas with the asked full or half ids in array order, cut to the buffers; of a single one-letter Yunmu only the first node |
| `SystemDictionary.DictTrie.ExtendDict0` | pinyin/dicttrie.cpp:388-444 | from the root: the items of the range, and a milestone for its nodes |
| `SystemDictionary.DictTrie.ExtendDict12` | pinyin/dicttrie.cpp:446-598 | from a milestone: the items of a lookup of all spellings so far and this one, and a milestone for what it reaches |
| `SystemDictionary.DictTrie.ExtendDict` | pinyin/dicttrie.cpp:367-386 | incremental extension finds what a search from scratch finds; older milestones stay as they are, down to the cells of both stacks |
| `SystemDictionary.DictTrie.ScanSons` | pinyin/dicttrie.cpp:546-585 | the sons in the range are neighbours, and their items are added |
| `SystemDictionary.DictTrie.MarkFound` | pinyin/dicttrie.cpp:567-583 | found sons become one mark; the first one starts the milestone |
| `SystemDictionary.DictTrie.ResetMilestones` | pinyin/dicttrie.cpp:353-365 | all milestones before the handle keep what they stand for, and no cell of the stacks is written |
| `Milestones.CutBack` | pinyin/dicttrie.cpp:353-365 | cutting both stacks at a milestone keeps the earlier ones |
| `Milestones.ExtendedStep` | pinyin/dicttrie.cpp:541-587 | one more marked node |
| `Milestones.MarkCountZero` | pinyin/dicttrie.cpp:589-593 | a milestone is made exactly when something is reached |
| `TrieWalk.ReachAll` | pinyin/dicttrie.cpp:710-743 | the node buffers lose nothing when no level has more than 200 nodes |
| `TrieWalk.RestUnselected` | pinyin/dicttrie.cpp:745-748 | the scan may stop at a son with the last id of the range |
| `BuiltDictionary.DenseLayer` | pinyin/dicttrie.cpp:221-238 | when every full id begins some lemma, the first layer has its nodes in place |
| `BuiltDictionary.BuildThenRead` | pinyin/dicttrie.cpp:600-848 | from the sorted lemma array to the loaded dictionary: exact lookup finds exactly the lemmas of the array, lookup by ranges exactly the ids of those that match, in the order of the array |
| `LemmaSpellings.GetLemmaSplids` | pinyin/dicttrie.cpp:855-894 | non-zero exactly when the dictionary accepts some combination of candidate spellings, and then the buffer holds one it accepts |
| `LemmaSpellings.LayOut` | pinyin/dicttrie.cpp:861-879 | the candidates in one matrix, and the number of combinations |
| `LemmaSpellings.Combine` | pinyin/dicttrie.cpp:881-891 | the digits of the counter pick one candidate for each character |
| `LemmaSpellings.ChoiceMeans` | pinyin/dicttrie.cpp:861-879 | a combination takes the given full ids, and for the other characters spellings that they have |
| `LemmaSpellings.DigitsOfValue` | pinyin/dicttrie.cpp:881-891 | every combination is tried |
| `LemmaSpellings.ChoicePicked` | pinyin/dicttrie.cpp:881-891 | every choice of candidates is the combination of some counter value |
| `LemmaSpellings.DigitsDiffer` | pinyin/dicttrie.cpp:881-891 | none is tried twice |
| `SpellingNodes.SpelledRight` | pinyin/spellingtrie.cpp:427-637 | every node that has an id has the id of the spelling on its path |
| `SpellingNodes.BuildBears` | pinyin/spellingtrie.cpp:427-637 | no node without an entry below it |
| `SpellingNodes.SpellingReached` | pinyin/spellingtrie.cpp:427-637 | each spelling of the table leads from the root to its node |
| `SpellingNodes.WalkSpells` | pinyin/splparser.cpp:80-106 | the id where a walk ends spells what was read, up to case |
| `SpellingNodes.SpelledApart` | pinyin/spellingtrie.cpp:427-637 | no two brothers are the same letter |
| `SpellingNodes.HalfIdLetters` | pinyin/spellingtrie.cpp:33-34 | the half ids are numbered as in the table of the source |
| `SpellingTries.SpellingTrie.ConstructSubset` | pinyin/spellingtrie.cpp:427-637 | the recursion builds the nodes of the table and the range of every half id |
| `SpellingTries.SpellingTrie.BuildNode` | pinyin/spellingtrie.cpp:476-547 | one node: full id, half id in its place, and what lies below |
| `SpellingTries.SpellingTrie.SetHalf` | pinyin/spellingtrie.cpp:513-547 | the half id of a letter or of Zh, Ch, Sh, with the range of its group |
| `SpellingTries.SpellingTrie.constructor` | pinyin/spellingtrie.cpp:272-352 | the trie of a sorted table of distinct, properly cased spellings |
| `SpellingTries.SpellingTrie.BuildF2h` | pinyin/spellingtrie.cpp:693-707 | the most specific half id for each full id |
| `SpellingTries.SpellingTrie.HalfToFull` | pinyin/spellingtrie.cpp:244-250 | exactly the full ids whose spelling begins with that letter, or with Zh, Ch, Sh |
| `SpellingTries.SpellingTrie.FullToHalf` | pinyin/spellingtrie.cpp:252-258 | of the half ids that stand for the full id the one that says most |
| `SpellingTries.SpellingTrie.EnableSzm` | pinyin/spellingtrie.cpp:195-225 | which letters may stand alone as half ids |
| `SpellingTries.HalfStep` | pinyin/spellingtrie.cpp:471-547 | one group of the first level |
| `SpellingTries.PartStep` | pinyin/spellingtrie.cpp:471-547 | one group of the second level |
| `SpellingTries.LettersPartition` | pinyin/spellingtrie.cpp:513-523 | the letter blocks partition the full ids |
| `SpellingTries.HalfIdIsRange` | pinyin/spellingtrie.cpp:244-250 | looking up the range of a half id is looking up the full ids that begin like it |
| `SpellingParsing.SplstrToIdxs` | pinyin/splparser.cpp:30-141 | the segmentation, said by the table alone: each segment is the longest beginning of a spelling, its id is the one that its letters are read as in these modes, splitters are skipped, and it ends at the end, with enough ids, or where nothing can be read; the flag says that letters lead to the end |
| `SpellingParsing.ParseIsSegmented` | pinyin/splparser.cpp:30-141 | the recursion over the trie that the loop computes is that segmentation |
| `Segmentation.WalkIsLongest` | pinyin/splparser.cpp:73-106 | going down the trie reads the longest beginning of a spelling, and ends at the number of its letters |
| `Segmentation.OneLongest` | pinyin/splparser.cpp:73-106 | there is only one |
| `SpellingParsing.ValidReads` | pinyin/spellingtrie.cpp:114-135 | which id letters are read as: a Shengmu its half id if enabled and else none, a Yunmu its half id or else a full id, Ch, Sh, Zh their half ids, other letters the full id of the spelling |
| `Segmentation.LetterIsRead` | pinyin/spellingtrie.cpp:114-135 | a single letter, in all modes |
| `Segmentation.PartIsRead` | pinyin/spellingtrie.cpp:114-135 | Ch, Sh and Zh are always read as their half ids |
| `Segmentation.TwoShengmus` | pinyin/splparser.cpp:106-118 | two Shengmus with which no spelling begins are two segments, with starts 0, 1, 2 |
| `SpellingParsing.ParseIsSound` | pinyin/splparser.cpp:30-141 | segments follow each other and are not empty; each id spells its segment up to case; between segments only splitters |
| `SpellingParsing.SplstrToIdxsF` | pinyin/splparser.cpp:143-157 | one-letter Yunmus become full ids |
| `SpellingParsing.FullIsFirst` | pinyin/splparser.cpp:143-157 | A, E and O become the first full id of their letter, all other ids stay |
| `SpellingParsing.IfValidIdUpdate` | pinyin/spellingtrie.cpp:114-135 | the specified id; what it is, ValidReads says by the letters |
| `SpellingParsing.GetSplidByStrF` | pinyin/splparser.cpp:304-323 | the id if the whole string is one segment |
| `SpellingParsing.GetSplidByStr` | pinyin/splparser.cpp:288-302 | what the whole string is read as, and the flag |
| `Segmentation.WholeIs` | pinyin/splparser.cpp:288-302 | the id of the longest beginning if only splitters are behind it, and else 0 |
| `SpellingParsing.SpellingIsRead` | pinyin/splparser.cpp:304-323 | reading the spelling of a full id gives the id back exactly for all spellings but single Shengmus and Ch, Sh, Zh |
| `PrimeStride.GetOddNext` | pinyin/spellingtable.cpp:44-65 | the least prime from the value on |
| `PrimeStride.PrimeFrom` | pinyin/spellingtable.cpp:44-65 | the search ends: there is always a further prime |
| `PrimeStride.ProbeIsInjective` | pinyin/spellingtable.cpp:92-96 | the stride comes to no slot twice before the table is done exactly when the prime is neither 3 nor 41 |
| `PrimeStride.ProbeVisitsAll` | pinyin/spellingtable.cpp:92-96 | every slot is visited |
| `SpellingTables.SpellingTable.constructor` | pinyin/spellingtable.cpp:108-135 | an empty table of prime size, the least prime that suffices (or one slot) |
| `SpellingTables.SpellingTable.PutSpelling` | pinyin/spellingtable.cpp:137-183 | fails only for unsupported spellings, and for new ones without an empty slot on their probe, which means a full table unless it has 3 or 41 slots; otherwise exactly this spelling is in the table with its count raised, and the slot frequencies sum to the total |
| `SpellingTables.FreeExactly` | pinyin/spellingtable.cpp:155-180 | the probe meets an empty slot exactly when the table is not full; in tables of 3 and 41 slots exactly when its origin is empty |
| `PrimeStride.BackAtOrigin` | pinyin/spellingtable.cpp:176-178 | the probe is back at its origin after as many steps as there are slots, and after one in tables of 1, 3 and 41 slots |
| `SpellingTables.SpellingTable.Contain` | pinyin/spellingtable.cpp:185-215 | true exactly for the spellings put |
| `SpellingTables.NotBeyond` | pinyin/spellingtable.cpp:200-211 | an empty slot on the probe ends the search |
| `SpellingTables.OkAdded` | pinyin/spellingtable.cpp:168-174 | a new spelling in the first empty slot of its probe keeps every spelling reachable |
| `DictLists.DictList.CalculateSize` | pinyin/dictlist.cpp:113-167 | the size of all words; the table of where the words of each length begin is right exactly when no length between the first and the last word is skipped |
| `DictLists.SkipBreaks` | pinyin/dictlist.cpp:140-151 | after a skipped length the bucket before it is empty although it has a word: the table is wrong |
| `DictLists.DictList.FillList` | pinyin/dictlist.cpp:178-198 | the buffer is the words one behind the other |
| `DictLists.DictList.GetLemmaStr` | pinyin/dictlist.cpp:286-308 | the word with this id for every id below the last; nothing for the last one |
| `DictLists.DictList.GetLemmaId` | pinyin/dictlist.cpp:348-361 | the least id that spells the word, 0 when there is none; the assertion that it does not stand at the beginning of the buffer fails exactly for the first word of the list |
| `DictLists.DictList.Predict` | pinyin/dictlist.cpp:233-284 | exactly the words that strictly extend the history, in order, without what earlier items have, as far as the buffer goes |
| `DictLists.ExtensionsAre` | pinyin/dictlist.cpp:233-284 | exactly the words that strictly extend the history, with what they add and the score of their id |
| `DictLists.FreshAre` | pinyin/dictlist.cpp:275-281 | what earlier items have is left out, and nothing else |
| `DictLists.DictList.PredictLength` | pinyin/dictlist.cpp:248-263 | the words of one length |
| `DictLists.DictList.GetSplidsForHanzi` | pinyin/dictlist.cpp:310-346 | the spellings of the character by half id, strictly if one has it |
| `DictLists.ChosenAre` | pinyin/dictlist.cpp:310-346 | exactly the spellings of the character with this half id, or compatible ones |
| `DictLists.InBucket` | pinyin/dictlist.cpp:293-306 | a word whose id is in the range of a bucket has its length and stands in it |
| `WordLists.FirstRecord` | pinyin/dictlist.cpp:215-231 | the first record of a bucket with the key |
| `WordLists.EvenlySpaced` | pinyin/dictlist.cpp:293-306 | words of the same length are equally far apart |

## Left out

- UserDictionary.UserDict: two flags share bit 31 of an offset with its position; the model takes the offset apart by arithmetic instead of masks.
- UserDictionary.UserDict.Defragment: the two partition loops read offsets_[count] before they compare with count; the model compares first. The stores into offsets_by_id_ inside the sweep are not repeated, because the last loop overwrites all of them.
- LookupCache.GetLpis: an item carries the packed score; `translate_score`, which takes logarithms, is left out. The query must not fill its buffer for the caches to stay right, as the scan that fills it is cut short.
- UserDictionary.UserDict.PutLemma: the lemma must have between one and eight characters and full spelling ids, and the file must stay below 4 GiB; the total frequency is carried along but nothing is proved about it.
- UserDictionary.UserDict.Reclaim: a ratio of at most 100 and at least one victim, as without one it reads past its buffer; which entries go is described by rank only for pairwise distinct signed scores, as equal ones stop `shift_down` early; `free_count` after it is not described.
- UserDictionary.UserDict.CloseDict: whether the file is the newest is a parameter, and no call to the system fails.
- UserDictionary.UserDict.FlushCache: assumes that no other process has written the file.
- UserDictionary.UserDict.constructor: start ids are below 2^31, the range of the flag bit.
- Read-only scans of UserDict work on the contents of the buffers as sequences; the ring caches are values. The buffers themselves, their growth and every write to them are on arrays.
- The sync text format, `get_sync_lemmas`, `put_lemmas_no_sync`, `set_limit` and user prediction; the order of predicts_.
- PinyinDecoder.MatrixSearch.AddChar: the user dictionary, whose milestones carry nothing, and `qsort` are functions, and so is the parser (`PartsFit` gives the real one); no fixed lemmas and no composing phrase; LpiCache is left out. Both milestone stacks must have room for what the character adds, as the code writes behind them or stops at an assertion; and if the match pool fills up during the call, no items may be left over, as they would be offered again: `StaleOffers`.
- PinyinDecoder.MatrixSearch.GetSplStartId: nothing is fixed; `Traceback.Segment` has the fixed prefix.
- DecoderParts.NewDecoder: a half id stands for at most 255 spellings, the width of a mark, and every spelling begins some lemma.
- Scores are integers: sums of at most 39 16-bit scores are exact in a float.
- The outer loops of `search` and `delsearch`, `choose`, candidate lists and their order, `merge_fixed_lmas`, `extend_dmi_c`.
- DictBuilding.DictBuilder.ConstructSubset: the node and id buffers must be large enough and counts and offsets must fit their fields; the first layer and the deeper ones are two methods. Reading the raw dictionary, sorting it, and choosing the top lemmas come before the model.
- SystemDictionary.DictTrie.GetLpis: the node buffers are sequences that stop growing at their limit; scores of lemmas are a function of the id.
- SystemDictionary.DictTrie.ExtendDict12: if anything is marked, both stacks must have room for it, as the code writes behind them when the milestones are used up; a range has at most 255 ids, the width of a mark.
- SystemDictionary.FillIndex: every spelling id must have a node in the first layer for the readers; the exact condition for the index alone is IndexIsExact.
- LemmaSpellings.GetLemmaSplids: fewer than 65536 combinations and at most 40 candidates, the width of the counter and of the matrix.
- SpellingTries.SpellingTrie.constructor: the table comes sorted, distinct, with upper-case spellings whose h in Zh, Ch, Sh is small; both modes are on while it is built; spelling scores are left out.
- SpellingTries.SpellingTrie.FullToHalf: not asked for the one id behind the last full id, which the bound in line 254 lets through.
- SpellingParsing.SplstrToIdxs: the caller's buffers are sequences, and the flag, which the code leaves alone when it reads nothing at all, is cleared before, as by the callers; the 16-bit variant is the same code.
- SpellingTables.SpellingTable.PutSpelling: no empty strings, which are counted in an empty slot, and none longer than a slot, which are hashed by one character more than is kept. `arrange` and the scores are left out.
- DictLists.DictList.CalculateSize: the first word has one character, as the code takes for granted; the members that read the table need one without skipped lengths.
- DictLists.DictList.GetSplidsForHanzi: the buffer is large enough and the character is known, as the code asserts.
- `qsort` and `bsearch` are assumed to sort and to search; the search of the word list is a binary search written out.
- The Wubi dictionary, n-gram training, LpiCache, string helpers, and everything under src/ and examples/.
