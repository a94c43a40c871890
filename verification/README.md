# Fast Forum Backend: a verified model

The repository is an in-memory forum. This project models the parts of it whose correctness is a statement about
derived state, about whole runs, or about a transformation, and proves those statements.

* `Forest.dfy`, `MessageRound.dfy`, `Runs.dfy`, `Discussion.dfy`, `Forum.dfy`, `Merging.dfy`, `TagBatch.dfy`:
  categories, tags and threads. Every category keeps its direct threads and a reference-counted total over its subtree. `Discussion` has the
  linked objects and the methods that update them; `ParentLinks`, `ThreadTotals`, `CategoryForest` and `MessageRound` say
  what those methods compute and what holds of it, `ForestRuns` what holds over whole runs. `Forum` has the operations on
  whole forums, `Merging` the merging of threads, `TagBatches` batches of threads.
* `Trie.dfy`: the immutable trie, counted first and then placed into two flat arrays.
* `EventLog.dfy`, `ExtractionMeaning.dfy`: the framing of the event log and the tool that moves message contents to a
  side file.
* `EventRecords.dfy`, `RecordedLogs.dfy`: what the server writes for an event, field by field, and what both tools make of
  logs of such records.
* `Json.dfy`: the JSON writer on a growing buffer, and a parser that reads its output back.
* `Search.dfy`, `SearchOutput.dfy`: the tool that turns the log into search-index events, the files it writes them to,
  and what a reader gets out of these files.
* `Privileges.dfy`: levels as maxima and minima over grants, the batched query, and who may act on or assign to whom.
* `SortedIndexes.dfy`: the vector kept sorted by a changing key, and the tag collection's two-phase updates.
* `Throttling.dfy`, `Buffers.dfy`, `Consumer.dfy`, `UrlCoding.dfy`: the throttling ring, the buffer pool with its buffer
  arrays, the double-buffered consumer as a state machine, and percent coding in place.

Where the source updates objects in place, the model does: classes with `modifies` clauses, arrays and loops. Each method
is proved against a function of its inputs and the old state, and the properties are lemmas about those functions.

Several promises turned out to be conditional. They are stated as exact conditions:

* The header of the totals collection says a thread is removed once its count drops to 0
  (`src/LibForumData/EntityDiscussionThreadCollection.h:184-189`). For the overload that subtracts another collection the
  code only drops the count and leaves the thread listed
  (`src/LibForumData/private/EntityDiscussionThreadCollection.cpp:345-365`), and adding a listed thread without a count
  does nothing (lines 303-317). The model follows the code. Re-parenting a category under an ancestor it shares with its
  old parent therefore loses counts (`CategoryForest.MoveUnderCommonAncestorLosesCount`). Over every run, messages
  included, counts are exact throughout if and only if no insertion and no move has met a listing without a count
  (`ForestRuns.RunCounts`), and lists agree with counts throughout if and only if every moved thread was also held
  elsewhere under each old ancestor (`ForestRuns.RunConsistent`). The operations on a forum need neither: they keep
  all references in agreement whatever the totals list, and each says exactly when it keeps the counts exact (`Forum`).
  A thread that is deleted stays listed exactly where it was listed without a count
  (`Forum.DeleteDiscussionThread`, `CategoryForest.DeletedMentions`).
* A batch of threads pushed through a tag with several categories can go wrong, because each category compacts the
  caller's array before the next one sees it (`src/LibForumData/private/EntityDiscussionCategory.cpp:80-88`): threads get
  lost and others are counted twice (`TagBatches.BatchLosesThread`). What happens is what is meant if and only if each
  category lacks of the array as it sees it what it lacks of the batch, except that a thread may come twice where every
  total from there upwards lists it without a count and so ignores it (`TagBatches.BatchIsEach`); for two categories
  that is a condition on what they hold (`TagBatches.TwoCategoriesAsMeant`).
* A running message total is meant to be the sum over the threads listed with it. How far it is from that sum is not
  changed by any insertion, release, deletion or re-parenting, whatever the counts (`CategoryForest.NextDrifts`). One
  round of message count updates keeps the sums right if and only if each total that lists the thread is reached by
  exactly one of its holders and no other total is reached (`MessageRound.RoundAddsUp`). With exact counts that means:
  no total is reached by two holders, and none lists the thread without a count (`MessageRound.RoundSound`); two sibling
  categories with the same thread are enough to break it (`MessageRound.SiblingHoldersCountTwice`). Wrong sums have no
  effect on references and counts: posting and removing messages keeps those whatever happens to the sums
  (`Forum.AddNewDiscussionMessageInThread`, `ForestRuns.RunCounts`).
* Merging a thread into another keeps all references and the own message counts of tags and categories right, but the
  running totals lose the merged messages twice: when everyone is told that the thread has lost them
  (`src/LibForumData/private/MemoryRepositoryDiscussionThread.cpp:941`), and again when the thread is deleted with its
  messages still in it (`src/LibForumData/private/EntityDiscussionThreadCollection.cpp:377`). Totals that were right stay
  right if and only if the thread has no messages or the updates of both threads balance everywhere
  (`Merging.MergeDiscussionThreads`); where messages of the second thread are counted once, that means that no category
  holds the first one (`Merging.MergeLosesMessages`, `Merging.MergeMakesTotalWrong`).
* Extraction silently drops events whose context is cut short: it returns `false` for them, which is the code for success
  (`tools/MessageExtractor/main.cpp:315-319`, `ExtractionMeaning.OnlyTruncatedEventsAreLost`,
  `ExtractionMeaning.TruncatedEventIsLost`).
* The JSON writer loses the comma before the least value of a signed type in a later array position, and its text is
  then no JSON any more (`JsonWriters.WriterMeetsParser`, `JsonWriters.LostCommaBreaksText`); a string view of
  length zero is written as an empty string only if a zero byte comes first in memory (`JsonWriters.EmptyViewIsEmpty`).
  The search events in the written files are therefore read back exactly if and only if no empty name or content has
  anything but a zero byte behind it (`SearchOutput.WriteFiles`).
* Nobody may act on themselves if and only if the configured default level is at least -768; below that the 16-bit sum of
  the strongest positive and negative value can wrap around (`Assignments.NobodyActsOnThemselves`), and then two users
  can be allowed to assign to each other (`Assignments.EqualsDoNotAssignToEachOther`). A group of users can never grant
  more than a given bound, starting from grants within it, if and only if for each of them the default level exceeds it
  by no more than one and cannot wrap around with a negative value within it (`Assignments.RunsKeepBound`).
* Values accepted before the consumer is told to stop are delivered (`SeparateThreadConsumers.StopDeliversAccepted`);
  those accepted after its last drain never are (`SeparateThreadConsumers.FinishedDelivery`).
* The tag collection's index by name stays complete if and only if the name of each new tag is new
  (`TagCollections.DiscussionTagCollection.Add`); the callers look names up before.

## Model
| member | source | states |
|---|---|---|
| ParentLinks.MoveKeepsAcyclic | src/LibForumData/private/MemoryRepositoryDiscussionCategory.cpp:532-558 | a new parent outside the moved subtree keeps the parent links free of cycles, so every upward walk ends |
| ParentLinks.PathLinear | src/LibForumData/private/EntityDiscussionCategory.cpp:60-69 | the ancestors of one category form a chain |
| ParentLinks.MovedInside | src/LibForumData/private/MemoryRepositoryDiscussionCategory.cpp:495-513 | inside the moved subtree exactly the old ancestors are exchanged for the new ones |
| ThreadTotals.ApplySound | src/LibForumData/private/EntityDiscussionThreadCollection.cpp:298-380 | every change keeps counts positive and counted threads listed, whatever the message counts are |
| ThreadTotals.ApplyKeepsDrift | src/LibForumData/private/EntityDiscussionThreadCollection.cpp:298-380 | no change moves the running message count nearer to or further from the sum over the listed threads |
| ThreadTotals.ApplyCount | src/LibForumData/private/EntityDiscussionThreadCollection.cpp:298-380 | the exact effect of each change on each reference count, stale threads included |
| ThreadTotals.AddCountsStep | src/LibForumData/private/EntityDiscussionThreadCollection.cpp:319-326 | adding another collection can be done thread by thread in any order |
| CategoryForest.InsertCounting | src/LibForumData/private/EntityDiscussionCategory.cpp:76-117 | insertion keeps every count equal to the number of holders in the subtree if and only if no ancestor lists an inserted thread without a count |
| CategoryForest.ReleaseCounting | src/LibForumData/private/EntityDiscussionCategory.cpp:167-202 | giving up a held thread, with a decrease on every ancestor, always keeps the counts exact |
| CategoryForest.DeleteEverywhereCounting | src/LibForumData/private/EntityCollection.cpp:269-273 | removing a thread from every category that holds it keeps the counts exact, although the steps between do not |
| CategoryForest.DeletedMentions | src/LibForumData/private/EntityCollection.cpp:269-273 | from exact counts, no list of direct threads and no count mentions a deleted thread, and a total still lists it if and only if it listed it without a count before |
| CategoryForest.DeletedListed | src/LibForumData/private/EntityCollection.cpp:269-273 | whatever the counts, no total lists the deleted thread if and only if each total that listed it was above one of its holders |
| CategoryForest.ListedAboveHoldersIfNotStale | src/LibForumData/private/EntityDiscussionThreadCollection.cpp:345-365 | with exact counts, a thread is listed above its holders only if and only if no total lists it without a count |
| Forum.NoForum | src/LibForumData/private/EntityCollection.cpp:246-415 | the empty forum every forum starts from is linked and consistent |
| CategoryForest.InsertIntoCounting | src/LibForumData/private/EntityDiscussionTag.cpp:50-91 | inserting one thread into any number of categories keeps all counts exact if and only if no category above one that newly gets it lists it without a count |
| CategoryForest.MoveCounting | src/LibForumData/private/MemoryRepositoryDiscussionCategory.cpp:495-513 | re-parenting keeps all counts exact if and only if no new ancestor ignores a thread it still lists |
| CategoryForest.MoveClean | src/LibForumData/private/MemoryRepositoryDiscussionCategory.cpp:495-513 | from a state whose lists and counts agree, re-parenting reaches another one if and only if the moved threads are held elsewhere under every old ancestor |
| CategoryForest.MoveUnderCommonAncestorLosesCount | src/LibForumData/private/MemoryRepositoryDiscussionCategory.cpp:495-513 | a concrete consistent forest in which re-parenting makes the root lose its count of a thread that is still below it |
| CategoryForest.NewRootCounting | src/LibForumData/private/EntityDiscussionCategory.cpp:50-58 | a new category without parent leaves every count exact, and lists in step with counts if they were |
| CategoryForest.NextCounting | src/LibForumData/private/EntityDiscussionCategory.cpp:76-311 | from exact counts, any event keeps them exact if and only if it inserts or moves nothing past a listing without a count |
| CategoryForest.NextHeld | src/LibForumData/private/EntityDiscussionCategory.cpp:76-311 | what each event does to the links and to every list of direct threads, whatever the totals |
| CategoryForest.NextConsistent | src/LibForumData/private/EntityDiscussionCategory.cpp:76-311 | from a consistent state, any event reaches another one if and only if each moved thread is held elsewhere under every old ancestor |
| CategoryForest.NextShape | src/LibForumData/private/EntityDiscussionCategory.cpp:76-311 | any event keeps the parent links free of cycles and every totals collection sound |
| CategoryForest.NextDrifts | src/LibForumData/private/EntityDiscussionCategory.cpp:76-311 | whatever the counts, any event leaves every running message total as far from the sum over its threads as it was |
| ForestRuns.RunWellFormed | src/LibForumData/private/EntityDiscussionCategory.cpp:76-311 | over every run of creations, insertions, releases, deletions, re-parentings and message changes, parent links stay free of cycles and totals sound |
| ForestRuns.RunCounts | src/LibForumData/private/EntityDiscussionCategory.cpp:76-311 | over every run, all counts are exact in all states so far if and only if no insertion and no move so far met a listing without a count; changes of message counts play no part |
| ForestRuns.RunConsistent | src/LibForumData/private/EntityDiscussionCategory.cpp:76-311 | over every run, lists and counts agree in all states so far if and only if each move so far concerned threads held elsewhere under every old ancestor |
| ForestRuns.RunAddsUp | src/LibForumData/private/EntityDiscussionCategory.cpp:267-295 | over every run, whatever the counts, all message totals are sums over their threads in all states so far if and only if each change of messages so far reached each total listing the thread once and no other |
| ForestRuns.LaterCounts | src/LibForumData/private/EntityDiscussionCategory.cpp:76-311 | from exact counts, one more thing that happens, be it a change of messages, keeps them exact if and only if it meets no listing without a count |
| ForestRuns.LaterAddsUp | src/LibForumData/private/EntityDiscussionCategory.cpp:76-311 | from right message totals, one more thing that happens keeps them right if and only if it is no round that misses or repeats a total |
| MessageRound.RoundAddsUp | src/LibForumData/private/EntityDiscussionCategory.cpp:267-295 | after telling every holder once, and whatever the counts, all message totals are again sums over their threads if and only if the delta is zero or each total listing the thread is reached exactly once and no other is |
| MessageRound.CreditedOnceWhenExact | src/LibForumData/private/EntityDiscussionCategory.cpp:267-295 | with exact counts, each total listing the thread is reached exactly once and no other is, if and only if none is reached twice and none lists it without a count |
| MessageRound.RoundSound | src/LibForumData/private/EntityDiscussionCategory.cpp:267-295 | from exact counts, stale listings or not, all message totals are again sums after the round if and only if the delta is zero, or no total is reached twice and none lists the thread without a count |
| MessageRound.RoundConsistent | src/LibForumData/private/EntityDiscussionCategory.cpp:267-295 | from lists that agree with counts: if and only if the delta is zero or no total is reached twice |
| MessageRound.RoundKeepsCounts | src/LibForumData/private/EntityDiscussionCategory.cpp:267-295 | a round never affects parent links, direct threads, lists or counts |
| MessageRound.ChainGetsOneDelta | src/LibForumData/private/EntityDiscussionCategory.cpp:280-294 | whatever the counts, when the holders lie on one ancestor chain, each total with a holder at or below it gets exactly one delta and no other gets any |
| MessageRound.SiblingHoldersCountTwice | src/LibForumData/private/EntityDiscussionCategory.cpp:280-294 | a concrete consistent forest with two sibling holders whose root counts a new message twice |
| MessageRound.ChainCountedOnce | src/LibForumData/private/EntityDiscussionCategory.cpp:280-294 | when the holders lie on one ancestor chain, no total is reached twice |
| MessageRound.HolderCreditedOnce | src/LibForumData/private/EntityDiscussionCategory.cpp:280-294 | a category that holds the thread itself is reached by its own update only |
| MessageRound.TopmostExists | src/LibForumData/private/EntityDiscussionCategory.cpp:280-294 | every category with a holder below it is reached by some holder's update |
| Discussion.TotalThreads.Add | src/LibForumData/private/EntityDiscussionThreadCollection.cpp:303-317 | the whole new state, and that a listed thread without a count is ignored |
| Discussion.TotalThreads.AddCounts | src/LibForumData/private/EntityDiscussionThreadCollection.cpp:319-326 | the loop over another collection computes the order-free sum of counts |
| Discussion.TotalThreads.DecreaseReferenceCount | src/LibForumData/private/EntityDiscussionThreadCollection.cpp:328-343 | one count less, and the thread unlisted when none is left |
| Discussion.TotalThreads.DecreaseReferenceCounts | src/LibForumData/private/EntityDiscussionThreadCollection.cpp:345-365 | counts subtracted and dropped below one, list and message count untouched |
| Discussion.TotalThreads.Remove | src/LibForumData/private/EntityDiscussionThreadCollection.cpp:367-380 | list entry, count and messages all go |
| Discussion.WalkUp | src/LibForumData/private/EntityDiscussionCategory.cpp:30-42 | the upward loop ends and changes exactly the totals on the path, once each |
| Discussion.ExecuteOnCategoryAndAllParents | src/LibForumData/private/EntityDiscussionCategory.cpp:44-48 | the same with the category itself |
| Discussion.Compact | src/LibForumData/private/EntityDiscussionCategory.cpp:80-88 | the front of the caller's array holds what is not held yet, in order; what is behind it stays |
| Discussion.Category.InsertDiscussionThreads | src/LibForumData/private/EntityDiscussionCategory.cpp:76-117 | the new forest is that of inserting the threads not held yet, each linked back and counted |
| Discussion.Category.InsertDiscussionThreadsOfTag | src/LibForumData/private/EntityDiscussionCategory.cpp:119-165 | the same for all threads of a tag |
| Discussion.Category.DeleteDiscussionThread | src/LibForumData/private/EntityDiscussionCategory.cpp:167-202 | the thread, its messages if asked, its back link, and one count or the whole entry in every total above |
| Discussion.Category.DeleteDiscussionThreadIfNoOtherTagsReferenceIt | src/LibForumData/private/EntityDiscussionCategory.cpp:204-230 | the thread is released exactly when no tag of this category is on it |
| Discussion.Category.AddTag | src/LibForumData/private/EntityDiscussionCategory.cpp:232-243 | the tag and its threads are added |
| Discussion.Category.RemoveTag | src/LibForumData/private/EntityDiscussionCategory.cpp:245-260 | exactly the threads no other tag of the category refers to are released, and their back links with them |
| Discussion.Category.UpdateMessageCount | src/LibForumData/private/EntityDiscussionCategory.cpp:267-295 | own counts always change; totals change up to the nearest ancestor that holds the thread |
| Discussion.Category.HasAncestor | src/LibForumData/private/EntityDiscussionCategory.cpp:60-69 | the loop decides membership in the set of proper ancestors |
| Discussion.Category.RemoveTotalsFromChild | src/LibForumData/private/EntityDiscussionCategory.cpp:297-303 | the child's counts leave this category and all above |
| Discussion.Category.AddTotalsFromChild | src/LibForumData/private/EntityDiscussionCategory.cpp:305-311 | the child's counts enter this category and all above |
| Discussion.UpdateCategoryParent | src/LibForumData/private/MemoryRepositoryDiscussionCategory.cpp:495-513 | subtract, re-link and add together are the move of the model |
| Discussion.Tag.InsertDiscussionThread | src/LibForumData/private/EntityDiscussionTag.cpp:50-91 | the thread reaches the tag and every category of the tag; all message counts stay as far from the sums over the threads as they were |
| Discussion.Tag.DeleteDiscussionThread | src/LibForumData/private/EntityDiscussionTag.cpp:93-121 | the thread leaves the tag and every category with no other tag on it; message counts follow if asked to and do not change otherwise |
| Forum.DirectThreadsAreUnion | src/LibForumData/private/EntityDiscussionCategory.cpp:119-260 | in every linked forum, whatever its totals list, the direct threads of a category are the union of the threads of its tags |
| Forum.AddDiscussionTagToThread | src/LibForumData/private/MemoryRepositoryDiscussionTag.cpp:419-454 | status and new links; all references go on agreeing; counts stay exact if and only if no category above one that newly gets the thread lists it without a count, and a consistent forum stays consistent; message counts follow the threads |
| Forum.RemoveDiscussionTagFromThread | src/LibForumData/private/MemoryRepositoryDiscussionTag.cpp:501-536 | each category of the tag keeps the thread exactly if another of its tags is on it; all references go on agreeing; exact counts and consistency are always kept |
| Forum.AddDiscussionTagToCategory | src/LibForumData/private/MemoryRepositoryDiscussionCategory.cpp:735-772 | the category gains the tag's threads; all references go on agreeing; counts stay exact if and only if no category on the way up lists a new thread without a count |
| Forum.RemoveDiscussionTagFromCategory | src/LibForumData/private/MemoryRepositoryDiscussionCategory.cpp:824-861 | exactly the threads no other tag of the category is on go; all references go on agreeing; exact counts and consistency are always kept |
| Forum.DeleteDiscussionThread | src/LibForumData/private/EntityCollection.cpp:252-299 | no tag and no category has the thread; each tag and each category that had it loses its messages if asked to, and no message count changes otherwise; the forum without it is linked if and only if each total that listed it was above one of its holders; exact counts stay exact and none mentions it |
| Merging.ShiftDrift | src/LibForumData/private/MemoryRepositoryDiscussionThread.cpp:941-942 | how far telling everyone moves each running total from the sum over its threads |
| Merging.ShiftAddsUp | src/LibForumData/private/MemoryRepositoryDiscussionThread.cpp:941-942 | running totals that were sums are sums again if and only if there was nothing to merge or the updates of the two threads balance everywhere |
| Merging.MergeLosesMessages | src/LibForumData/private/MemoryRepositoryDiscussionThread.cpp:934-953 | where messages of the second thread are counted once, the updates balance if and only if no category holds the first thread |
| Merging.MergeMakesTotalWrong | src/LibForumData/private/MemoryRepositoryDiscussionThread.cpp:934-953 | a concrete category whose total counts three of five messages after merging |
| Merging.ShiftMessages | src/LibForumData/private/MemoryRepositoryDiscussionThread.cpp:934-942 | a linked forum with the messages moved in the own counts of every tag and category |
| Merging.MovedExcess | src/LibForumData/private/MemoryRepositoryDiscussionThread.cpp:934-953 | those counts are then as far from the sums over the remaining threads as they were |
| Merging.MergeDiscussionThreads | src/LibForumData/private/MemoryRepositoryDiscussionThread.cpp:904-956 | no effect on one and the same thread; otherwise the first thread is gone from every tag and category, their message counts have moved, references agree, exact counts and consistency are kept, and running totals stay sums if and only if there was nothing to merge or the updates balance |
| Forum.SoundWithout | src/LibForumData/private/EntityCollection.cpp:252-299 | leaving a thread out of a sound forum gives a sound one if and only if no total lists it |
| Forum.ChangeDiscussionCategoryParent | src/LibForumData/private/MemoryRepositoryDiscussionCategory.cpp:444-561 | the four statuses; no change unless OK; all references go on agreeing; counts stay exact if and only if MoveIsExact held, consistency if and only if the moved threads are held elsewhere |
| Forum.AddNewDiscussionMessageInThread | src/LibForumData/private/MemoryRepositoryDiscussionThreadMessage.cpp:404-416 | one message more in the thread; all references go on agreeing; exact counts stay exact and consistency is kept; message totals that are sums stay sums if and only if each total listing the thread is reached by exactly one of its categories and no other is; own message counts of tags and categories follow |
| Forum.DeleteDiscussionThreadMessage | src/LibForumData/private/EntityCollection.cpp:361-378 | the same with one message less, for a thread that stays |
| Forum.ChangeMessages | src/LibForumData/private/EntityDiscussionCategory.cpp:267-295 | the same for any change: the thread, then each of its tags, then each of its categories in any order |
| Forum.NewDiscussionThread | src/LibForumData/private/EntityCollection.cpp:246-250 | a linked forum with one thread more, and nothing else changed |
| Forum.NewDiscussionTag | src/LibForumData/private/EntityCollection.cpp:382-386 | a linked forum with one tag more, and nothing else changed |
| Forum.NewDiscussionCategory | src/LibForumData/private/EntityCollection.cpp:411-415 | a linked forum with one category more at the top; exact counts and consistency are kept |
| TagBatches.InsertDiscussionThreads | src/LibForumData/private/EntityDiscussionTag.cpp:55-91 | for any batch and any number of categories: the tag takes what it lacks, each category what it lacks of the array as the ones before have left it; message counts and back links follow what each category took |
| TagBatches.CompactedSame | src/LibForumData/private/EntityDiscussionCategory.cpp:80-88 | compacting leaves the caller's array as it was if and only if the held threads come last in it |
| TagBatches.BatchIsEach | src/LibForumData/private/EntityDiscussionTag.cpp:82-86 | whatever the totals list, the batch gives the forest that inserting into each category alone would give, if and only if each category lacks of the array as it sees it, counted with repetitions, what it lacks of the batch, except for repetitions of a thread that all totals from it upwards list without a count |
| TagBatches.EachIntoConsistent | src/LibForumData/private/EntityDiscussionTag.cpp:82-86 | inserting what each category lacks keeps the forest consistent and reaches every category |
| TagBatches.TwoCategoriesAsMeant | src/LibForumData/private/EntityDiscussionTag.cpp:82-86 | with two categories, if and only if the second holds every thread the first has overwritten, and every thread the first has moved forward without overwriting it unless all totals from the second upwards list it without a count |
| TagBatches.AddEachIsTally | src/LibForumData/private/EntityDiscussionThreadCollection.cpp:303-317 | adding threads one by one depends on how often each occurs and not on their order |
| TagBatches.BatchLosesThread | src/LibForumData/private/EntityDiscussionTag.cpp:82-86 | a concrete batch of two threads of which the second category never gets one and counts the other twice |
| Trie.KeyGettersFoldAlike | src/LibHttp/Trie.h:35-58 | both key getters put a key among another's alternatives exactly when both have the same alternatives |
| Trie.AlternativesIgnoreCase | src/LibHttp/Trie.h:46-58 | two characters have the same alternatives if and only if they are the same or ASCII letters whose codes differ by 32 |
| Trie.FindInSub | src/LibHttp/Trie.h:259-285 | looking up a longer key is looking up its rest among the pairs of its first class |
| Trie.GroupsAreAll | src/LibHttp/Trie.h:185-201 | a trie has one node more than its groups have together, and every pair ends at its root or is in one group |
| Trie.StartingGrows | src/LibHttp/Trie.h:185-201 | each group of keys accounts for as many distinct prefixes as its own trie has nodes |
| Trie.CountRequiredNodes | src/LibHttp/Trie.h:177-202 | the count is the number of distinct folded prefixes of the keys |
| Trie.BuiltFrame | src/LibHttp/Trie.h:204-240 | a placed subtree stays in force when other nodes, other slots or later values change |
| Trie.ImmutableTrie.TakeValues | src/LibHttp/Trie.h:209-223 | used-up keys leave the last of their values at the node; the others are grouped by class, in order |
| Trie.ImmutableTrie.AddKeyLevel | src/LibHttp/Trie.h:204-240 | places exactly the counted number of nodes and one slot less, and what it placed is the trie of its pairs |
| Trie.ImmutableTrie.constructor | src/LibHttp/Trie.h:137-157 | the arrays have the counted size, all nodes and all but one slot are used, the values fill their capacity |
| Trie.ImmutableTrie.Find | src/LibHttp/Trie.h:259-285 | the value of the last pair whose key equals the query up to key alternatives, or nothing |
| Trie.FindIgnoringCase | src/LibHttp/Trie.h:287-288 | with the getter for ASCII: the last pair whose key is as long as the query and agrees with it at every position up to the case of ASCII letters |
| Trie.FindExactly | src/LibHttp/Trie.h:35-44 | with the plain getter: the last pair with exactly that key |
| BlobFraming.BlobPaddingRequired | src/LibForumPersistence/PersistenceFormat.h:141-149 | fewer than 8 bytes that complete a whole number of words |
| BlobFraming.NumberOfLittleEndian | tools/MessageExtractor/main.cpp:154-162 | a value written in enough bytes is read back |
| BlobFraming.ReadRecord | tools/MessageExtractor/main.cpp:188-246 | reading past one written record, and when a reader stops there |
| BlobFraming.ReadBack | tools/MessageExtractor/main.cpp:188-246 | reading what any sequence of writes produced gives those blobs and leaves nothing, exactly when the last blob is not empty; the length is a multiple of 8 |
| MessageExtraction.ExtractStops | tools/MessageExtractor/main.cpp:227-231 | after an error nothing more is written |
| MessageExtraction.MessageExtractor.WriteBlob | tools/MessageExtractor/main.cpp:379-414 | appends one whole record |
| MessageExtraction.MessageExtractor.UpdateLatest | tools/MessageExtractor/main.cpp:255-291 | remembers the message as the latest of its thread |
| MessageExtraction.MessageExtractor.MoveContent | tools/MessageExtractor/main.cpp:327-367 | content appended, offset advanced and the version 4 event made, or code 2 and no change |
| MessageExtraction.MessageExtractor.ProcessBlob | tools/MessageExtractor/main.cpp:293-377 | output, side file, offset and code are those of extracting one more blob |
| MessageExtraction.MessageExtractor.IterateBlobs | tools/MessageExtractor/main.cpp:188-246 | the cursor loop visits exactly the blobs of the framing, in order, and stops at the first error |
| MessageExtraction.MessageExtractor.Perform | tools/MessageExtractor/main.cpp:171-186 | both passes together, for any readable log |
| EventRecords.HeaderReadBack | src/LibForumPersistence/private/EventObserver.cpp:129-159 | kind, version and context version are read back from where they were written |
| EventRecords.LogReadBack | src/LibForumPersistence/private/EventObserver.cpp:129-159 | a log of records is read back from its file, record by record |
| RecordedExtraction.MessageFields | src/LibForumPersistence/private/EventObserver.cpp:560-577 | of an added message in version 1 or 3, ids, approval, size and content are read from where they were written |
| RecordedExtraction.ShortForm | tools/MessageExtractor/main.cpp:328-372 | the short form is the record of version 4 with the same context, ids and approval, the size and the offset |
| RecordedExtraction.MessageMeaning | src/LibForumPersistence/private/EventImporter.cpp:428-464 | what importing an inline message gives: its context, ids, approval and content |
| RecordedExtraction.StoredMeaning | src/LibForumPersistence/private/EventImporter.cpp:439-479 | what importing a stored message of version 2 or 4 gives: the named part of the side file, if there is one |
| RecordedExtraction.RecordedLogIsExtracted | tools/MessageExtractor/main.cpp:171-376 | of whatever the server has logged, each record comes out as it was or as version 4 pointing at its content; with skip-latest those stay whose message id is that of the last message of the thread |
| RecordedExtraction.StaysWhenDistinct | tools/MessageExtractor/main.cpp:275-288 | when no id is used twice, exactly the last message of each thread stays |
| RecordedExtraction.ExtractLog | tools/MessageExtractor/main.cpp:171-186 | the same for the whole run over the bytes of such a log, always with success |
| ExtractionMeaning.ShortenedParts | tools/MessageExtractor/main.cpp:327-362 | every field of the version 4 event, read back at its place |
| ExtractionMeaning.ExtractPreservesMeaning | tools/MessageExtractor/main.cpp:293-377 | for every well-formed log and side file, the new events read with the longer side file are the old events one for one |
| ExtractionMeaning.LogKeepsItsMeaning | tools/MessageExtractor/main.cpp:171-246 | the same on bytes: the written log is read back whole and means what the input meant |
| ExtractionMeaning.OnlyTruncatedEventsAreLost | tools/MessageExtractor/main.cpp:315-319 | a run without error has one event for each input event exactly when no context is truncated |
| ExtractionMeaning.TruncatedEventIsLost | tools/MessageExtractor/main.cpp:315-319 | a concrete event that vanishes without an error |
| ExtractionMeaning.EventAt | tools/MessageExtractor/main.cpp:324-370 | event i of the output is event i of the input or its short form with an offset inside the side file |
| ExtractionMeaning.SecondRunChangesNothing | tools/MessageExtractor/main.cpp:293-377 | a run in either mode over the output of a full extraction writes the same events and moves nothing |
| ExtractionMeaning.SecondSkippingRunChangesNothing | tools/MessageExtractor/main.cpp:171-186 | a run that leaves out latest messages, over the output of any run, such as another one that left them out, writes the same events and moves nothing |
| ExtractionMeaning.LatestComesFromLast | tools/MessageExtractor/main.cpp:255-291 | the remembered message of a thread comes from the last event that added one to it |
| ExtractionMeaning.LastMessagesStayInline | tools/MessageExtractor/main.cpp:324-326 | with distinct message ids, an added message stays inline exactly when it is the last of its thread |
| JsonText.UnescapeUndoesEscape | src/LibFastJsonWriter/JsonWriter.h:95-146 | section 7 of RFC 8259: reading an escaped string up to its closing quote gives the string |
| JsonText.ParseNumberText | src/LibFastJsonWriter/JsonWriter.h:475-536 | section 6: a written integer is read back, without leading zeros |
| JsonText.ParseUndoesWrite | src/LibFastJsonWriter/JsonWriter.h:148-536 | sections 2 to 7: the canonical text of any value is parsed back to it, whatever follows |
| JsonWriters.StringBuffer.Resize | src/LibFastJsonWriter/StringBuffer.h:83-90 | a larger buffer with the same contents |
| JsonWriters.StringBuffer.Write | src/LibFastJsonWriter/StringBuffer.h:67-75 | the view grows by exactly the bytes written, however often the buffer has to grow |
| JsonWriters.EscapeString | src/LibFastJsonWriter/JsonWriter.h:95-146 | flushing runs between escapes writes the same as escaping character by character |
| JsonWriters.JsonWriter.IsCommaNeeded | src/LibFastJsonWriter/JsonWriter.h:435-462 | the verdict and the new top state; the rest of the stack stays |
| JsonWriters.JsonWriter.Start | src/LibFastJsonWriter/JsonWriter.h:180-214 | comma if due, bracket, and a fresh state on the stack |
| JsonWriters.JsonWriter.End | src/LibFastJsonWriter/JsonWriter.h:194-222 | bracket, and the enclosing state is back |
| JsonWriters.JsonWriter.NewProperty | src/LibFastJsonWriter/JsonWriter.h:233-240 | quoted name and colon, and no comma is due for the value |
| JsonWriters.JsonWriter.NewPropertyRaw | src/LibFastJsonWriter/JsonWriter.h:271-278 | the text is written as it is, and the next value takes no comma |
| JsonWriters.JsonWriter.WriteSafeString | src/LibFastJsonWriter/JsonWriter.h:307-320 | a comma if one is due, and the text in quotes without escapes |
| JsonWriters.JsonWriter.WriteEscapedString | src/LibFastJsonWriter/JsonWriter.h:280-305 | comma if due and the quoted string of the length that counts |
| JsonWriters.JsonWriter.WriteNumber | src/LibFastJsonWriter/JsonWriter.h:475-536 | comma if due and the number, except that the least value of a signed type takes no comma |
| JsonWriters.FillDigits | src/LibFastJsonWriter/JsonWriter.h:504-523 | the digit loop fills the end of the buffer with the decimal digits and does not run past its front |
| JsonWriters.DigitsOf | src/LibFastJsonWriter/JsonWriter.h:504-536 | sign and comma still fit in the fixed buffer of every integer width |
| JsonWriters.WriteValue | src/LibFastJsonWriter/JsonWriter.h:148-536 | any value within the depth limit comes out with commas between siblings and the state stack restored |
| JsonWriters.WriterMeetsParser | src/LibFastJsonWriter/JsonWriter.h:475-502 | the writer's text is the canonical one, and the value is parsed back from it, each if and only if no comma is lost |
| JsonWriters.AtMinimumIs | src/LibFastJsonWriter/JsonWriter.h:475-502 | the value that takes no comma is the least one of the signed type, as a power of two |
| JsonWriters.LostCommaFails | src/LibFastJsonWriter/JsonWriter.h:475-502 | a text that lacks a comma at any depth is rejected, whatever follows it |
| JsonWriters.LostCommaBreaksText | src/LibFastJsonWriter/JsonWriter.h:478-502 | an array of two 8-bit numbers whose text no parser accepts |
| JsonWriters.EmptyViewIsEmpty | src/LibFastJsonWriter/JsonWriter.h:291-294 | a view of length zero is written empty exactly when a zero byte comes first |
| SearchExtraction.DeleteThreadFollows | tools/SearchDataExtractor/main.cpp:536-555 | deleting a thread deletes exactly its live messages from the index |
| SearchExtraction.MergeFollows | tools/SearchDataExtractor/main.cpp:557-566 | merging keeps every moved message and deletes the emptied thread |
| SearchExtraction.SearchDataExtractor.OnDeleteMessage | tools/SearchDataExtractor/main.cpp:595-607 | for any log, no deletion is emitted twice |
| SearchExtraction.SearchDataExtractor.OnDeleteThread | tools/SearchDataExtractor/main.cpp:536-555 | thread first, then each kept message not deleted yet |
| SearchExtraction.SearchDataExtractor.OnMergeThreads | tools/SearchDataExtractor/main.cpp:557-566 | the messages change hands before the emptied thread is deleted |
| SearchExtraction.SearchDataExtractor.OnAddNewMessage | tools/SearchDataExtractor/main.cpp:568-581 | emitted once for each message of a thread |
| SearchExtraction.SearchDataExtractor.OnEvent | tools/SearchDataExtractor/main.cpp:332-413 | after each valid event the replayed index is that of the forum |
| SearchExtraction.SearchDataExtractor.ProcessBlob | tools/SearchDataExtractor/main.cpp:314-416 | on bytes: a blob of another type is ignored, a known one that is cut short or has an unsupported version is refused, any other is decoded and followed by the index |
| SearchExtraction.HistoryStep | tools/SearchDataExtractor/main.cpp:239-283 | reading one blob leaves exactly the history of the blobs behind it |
| SearchExtraction.SearchDataExtractor.Perform | tools/SearchDataExtractor/main.cpp:231-283 | on the bytes of a file: replaying what is emitted gives the live threads and messages with their latest names and contents, up to the first refused blob; the result says whether there was one or a bad end |
| SearchExtraction.SearchDataExtractor.StartExtraction | tools/SearchDataExtractor/main.cpp:179-211 | over several files: success if and only if every file is sound, and then the replayed index is that of the whole history; no deletion is emitted twice |
| RecordedSearch.DecodeReadsBack | src/LibForumPersistence/private/EventObserver.cpp:416-633 | each of the seven kinds of events is read back from its record, in each supported version |
| RecordedSearch.SupportedVersions | tools/SearchDataExtractor/main.cpp:300-416 | a known event is refused if and only if its version is none of those with the layout it is read by |
| RecordedSearch.RecordedHistory | tools/SearchDataExtractor/main.cpp:239-416 | the history read from the bytes of a log is that of the logged events, other kinds left out |
| SearchFiles.EventFiles.WriteJson | tools/SearchDataExtractor/main.cpp:466-494 | every event lands behind all earlier ones and no file gets more than its share |
| SearchFiles.EventFiles.CloseFile | tools/SearchDataExtractor/main.cpp:496-507 | the files hold all events in order, every file but the last exactly its share |
| SearchFiles.FileIsArray | tools/SearchDataExtractor/main.cpp:466-507 | a file of canonical event texts is one JSON array that a parser reads back |
| SearchOutput.IdTextReadBack | tools/SearchDataExtractor/main.cpp:440-463 | the text of an id, digits and dashes, gives the id back |
| SearchOutput.IdTextShape | tools/SearchDataExtractor/main.cpp:440-463 | small hexadecimal digits, and dashes at exactly four places |
| SearchOutput.WriteId | tools/SearchDataExtractor/main.cpp:440-463 | the loop that fills the fixed buffer writes that text, which needs no escapes |
| SearchOutput.WriteEvent | tools/SearchDataExtractor/main.cpp:509-607 | with raw property names and hand-placed commas, each event still comes out as the canonical text of its object |
| SearchOutput.WrittenRight | src/LibFastJsonWriter/JsonWriter.h:280-300 | an event is written as it is if and only if its text is not empty or a zero byte follows it |
| SearchOutput.EventReadBack | tools/SearchDataExtractor/main.cpp:509-607 | every event is read back from its object: kinds and property names tell all events apart |
| SearchOutput.FilesReadBack | tools/SearchDataExtractor/main.cpp:466-507 | however the event texts are divided among files, all files together are read back as all events in order |
| SearchOutput.WriteFiles | tools/SearchDataExtractor/main.cpp:466-607 | for any events: the files are read back as exactly these events if and only if no empty text is followed by anything but a zero byte |
| SearchOutput.Extract | tools/SearchDataExtractor/main.cpp:179-607 | from the bytes of the logs to the bytes of the files: whoever reads the files and replays them has the live threads and messages of the whole history |
| RecordedSearch.ExtractLogs | tools/SearchDataExtractor/main.cpp:179-607 | from what was logged to the bytes of the files: whoever reads and replays them has the live threads and messages that the logged events lead to |
| Privileges.MergeLaws | src/LibForumData/AuthorizationPrivileges.h:495-547 | maximum and minimum of optional values form a semilattice |
| Privileges.LevelPositive | src/LibForumData/private/AuthorizationGrantedPrivilegeStore.cpp:382-414 | the positive part is the greatest of the default level and the positive grants in force |
| Privileges.LevelNegative | src/LibForumData/private/AuthorizationGrantedPrivilegeStore.cpp:382-414 | the negative part is the least of the grants in force that are not positive, if any |
| Privileges.OrderDoesNotMatter | src/LibForumData/private/AuthorizationGrantedPrivilegeStore.cpp:327-340 | the level depends on which places are asked, not on their order or repetition |
| Privileges.TagOrderDoesNotMatter | src/LibForumData/private/AuthorizationGrantedPrivilegeStore.cpp:116-127 | the answer for a message does not depend on the order of the thread's tags, required levels included |
| Privileges.RequiredIsEnough | src/LibForumData/private/EntityDiscussionThread.cpp:42-57 | a value reaches the required level if and only if it is enough by the levels set: the message's own, else the thread's, else those of all tags with the forum's for a tag without one, else the forum's |
| Privileges.LevelAtStrongest | src/LibForumData/private/AuthorizationGrantedPrivilegeStore.cpp:327-414 | for any places: the best of the default level and the positive grants in force there, and the lowest of the others |
| Privileges.MessagePlacesAre | src/LibForumData/private/AuthorizationGrantedPrivilegeStore.cpp:327-349 | what counts for a message are grants on it, on its thread, on a tag of the thread, and forum-wide |
| Assignments.GrantEffect | src/LibForumData/private/AuthorizationGrantedPrivilegeStore.cpp:36-99 | a grant changes the level of one user at one place only: back to the default for zero, else merged with one more value while it is in force |
| Privileges.GrantedPrivilegeStore.CalculatePrivilege | src/LibForumData/private/AuthorizationGrantedPrivilegeStore.cpp:382-414 | the in-out values are merged with the level at one place |
| Privileges.GrantedPrivilegeStore.IsAllowed | src/LibForumData/private/AuthorizationGrantedPrivilegeStore.cpp:116-127 | access is granted with the sum of the strongest values in force on message, thread, tags and forum, if and only if that is enough by the levels set |
| Privileges.GrantedPrivilegeStore.ComputeVisibility | src/LibForumData/private/AuthorizationGrantedPrivilegeStore.cpp:256-325 | for one user and one thread, each of the five batched answers for every message says whether the same value as in the single query is enough |
| Assignments.EffectiveBelowPositive | src/LibForumData/private/AuthorizationGrantedPrivilegeStore.cpp:101-105 | the effective level stays at or below the positive one exactly when the 16-bit sum does not wrap around |
| Assignments.NobodyActsOnThemselves | src/LibForumData/private/DefaultAuthorization.cpp:1036-1049 | whatever is granted, a user may not act on themselves, if and only if the default level is at least -768, so that no sum wraps around |
| Assignments.OrdinaryConfiguration | src/LibForumData/private/AuthorizationGrantedPrivilegeStore.cpp:392-396 | for settings and bonuses that are not negative and fit 16 bits this holds, and the default level is capped |
| Assignments.MayActOnIsStrictOrder | src/LibForumData/private/DefaultAuthorization.cpp:1036-1049 | irreflexive, asymmetric and transitive |
| Assignments.AssignStatusIs | src/LibForumData/private/DefaultAuthorization.cpp:1067-1130 | the three statuses, from the strongest values in force: the assigner's must be enough and beat the new value and both old ones of the receiver |
| Assignments.PlacesForAre | src/LibForumData/private/AuthorizationGrantedPrivilegeStore.cpp:129-244 | which grants count for a message, a thread, a tag, a category with its ancestors, and the forum |
| Assignments.AssignerOutranks | src/LibForumData/private/DefaultAuthorization.cpp:1429-1450 | the level one assigns with beats the other's greatest positive value and is no more than one's own |
| Assignments.MayAssignIsStrictOrder | src/LibForumData/private/DefaultAuthorization.cpp:1429-1450 | irreflexive, asymmetric and transitive, whatever the values assigned |
| Assignments.EqualsDoNotAssignToEachOther | src/LibForumData/private/DefaultAuthorization.cpp:1429-1450 | users with equal default levels are never both allowed to assign to each other, whatever has been granted, if and only if the default level is at least -768 |
| Assignments.AuthorityWithin | src/LibForumData/private/DefaultAuthorization.cpp:1067-1130 | while no grant is above a bound and no sum can wrap with a negative value within it, what one assigns with is at most the larger of bound and default level |
| Assignments.AssignmentWithin | src/LibForumData/private/DefaultAuthorization.cpp:1067-1130 | an authorised assignment in any scope keeps every bound on grants that its assigner keeps, and stays strictly below one that covers the default level |
| Assignments.BoundRaised | src/LibForumData/private/DefaultAuthorization.cpp:1429-1450 | any user who does not keep a bound has a request that exceeds it, from grants within it |
| Assignments.RunNeverRaises | src/LibForumData/private/DefaultAuthorization.cpp:1067-1450 | over every run of requests, in any scopes, by users who keep a bound, no grant ever rises above it |
| Assignments.RunsKeepBound | src/LibForumData/private/DefaultAuthorization.cpp:1067-1450 | whatever a group of users requests, from whatever grants within a bound, nothing ever rises above it, if and only if each of them is anonymous, or has a default level at most one above it that does not wrap around with a negative value within it, or the bound is that of all grants |
| Assignments.AssigneeStaysBelow | src/LibForumData/private/DefaultAuthorization.cpp:1067-1130 | after an authorised assignment the receiver's level at that place is below the assigner's |
| SortedVectors.SortedVector.UpperBound | src/LibForumData/SortedVector.h:109-120 | the boundary between keys at least and keys less than the given one |
| SortedVectors.SortedVector.Insert | src/LibForumData/SortedVector.h:203-207 | sorted, one element more, behind all equal keys, the others in place |
| SortedVectors.SortedVector.InsertRange | src/LibForumData/SortedVector.h:209-218 | appended and sorted, whatever the order before: sorted, and exactly the old and new elements |
| SortedVectors.SortedVector.Find | src/LibForumData/EntityCommonTypes.h:213-225 | a position of the element if and only if it is there with that key, else the end |
| SortedVectors.SortedVector.EraseValue | src/LibForumData/EntityCommonTypes.h:198-211 | exactly one occurrence goes and the order stays |
| SortedVectors.SortedVector.ReplaceInternal | src/LibForumData/SortedVector.h:162-196 | from one displaced element the vector is sorted again; the others keep their order; the result is the new position, no further than needed |
| SortedVectors.SameUpToTies | src/LibForumData/SortedVector.h:209-218 | two sorted arrangements of the same elements have the same keys at every rank |
| SortedVectors.GreatestFirst | src/LibForumData/SortedVector.h:209-218 | sorted means that no key is less than a later one |
| TagCollections.CountChange | src/LibForumData/private/EntityDiscussionTagCollection.cpp:84-99 | a changed count disturbs the order only at the prepared position |
| TagCollections.DiscussionTagCollection.Add | src/LibForumData/private/EntityDiscussionTagCollection.cpp:24-36 | by-id set, index by name and, outside a batch, both count indexes; the index by name stays complete if and only if the name is new |
| TagCollections.DiscussionTagCollection.Remove | src/LibForumData/private/EntityDiscussionTagCollection.cpp:38-57 | by-id set, the entry under the tag's name and, outside a batch, both count indexes; the index by name stays complete |
| TagCollections.DiscussionTagCollection.ChangeBothCounts | src/LibForumData/private/EntityDiscussionTagCollection.cpp:84-116 | prepare, change and update of both counts leave both indexes sorted permutations of the by-id set |
| TagCollections.DiscussionTagCollection.StopBatchInsert | src/LibForumData/private/EntityDiscussionTagCollection.cpp:59-69 | whatever happened during the batch, both indexes are right afterwards |
| TagCollections.RebuiltAsIncremental | src/LibForumData/private/EntityDiscussionTagCollection.cpp:59-69 | rebuilding and step-by-step upkeep agree at every rank up to ties |
| Throttling.ThrottledMeans | src/LibForumData/ThrottlingCheck.h:61-81 | with enough history a call is throttled exactly when the allowed number of calls, throttled ones included, came less than a period before |
| Throttling.WindowBound | src/LibForumData/ThrottlingCheck.h:61-81 | any half-open window of one period lets at most the allowed number through |
| Throttling.ThrottlingCheck.IsAllowed | src/LibForumData/ThrottlingCheck.h:61-81 | the ring answers as the list of all earlier calls would |
| Throttling.DefaultThrottling.Check | src/LibForumData/private/DefaultThrottling.cpp:26-40 | the verdict depends only on the earlier calls with the same key and action |
| Throttling.EachUserIsBounded | src/LibForumData/private/DefaultThrottling.cpp:26-40 | whatever others do, every key and action keeps to its bound in every window |
| Throttling.DefaultBounds | src/LibForumData/AuthorizationPrivileges.h:468-475 | the same in numbers: ten calls of each kind within ten minutes, five minutes, ten seconds, an hour and ten minutes |
| BufferPools.WholePool | src/LibHttp/FixedSizeBufferPool.h:56-119 | free and leased buffers are disjoint and make up the whole pool |
| BufferPools.FixedSizeBufferPool.LeaseBuffer | src/LibHttp/FixedSizeBufferPool.h:70-83 | a buffer nobody has, or nothing exactly when all are leased |
| BufferPools.FixedSizeBufferPool.ReturnBuffer | src/LibHttp/FixedSizeBufferPool.h:98-119 | exactly that buffer is free again, in any order of returns |
| BufferPools.StoredAppend | src/LibHttp/ReadWriteBufferArray.h:44-77 | writing behind the used part of the latest buffer appends to what the sequence shows |
| BufferPools.ReadWriteBufferArray.RequestNewBuffer | src/LibHttp/ReadWriteBufferArray.h:208-222 | fails exactly when there is no room left, else an empty buffer nobody has |
| BufferPools.ReadWriteBufferArray.Write | src/LibHttp/ReadWriteBufferArray.h:44-77 | everything is stored if and only if it fits; otherwise exactly the prefix that fits |
| BufferPools.ReadWriteBufferArray.Size | src/LibHttp/ReadWriteBufferArray.h:82-87 | the length of what is stored |
| BufferPools.ReadWriteBufferArray.Reset | src/LibHttp/ReadWriteBufferArray.h:97-109 | every held buffer is back in the pool |
| BufferPools.WriteTo | src/LibHttp/ReadWriteBufferArray.h:44-77 | for any set of arrays on one pool, a write through one leaves the contents of all others and shares no buffer |
| BufferPools.ResetOne | src/LibHttp/ReadWriteBufferArray.h:97-109 | the same for a reset |
| BufferPools.AllReturned | src/LibHttp/FixedSizeBufferPool.h:98-119 | when all arrays are reset the whole pool is free |
| SeparateThreadConsumers.SeparateThreadConsumer.TryEnqueue | src/LibForumHelpers/SeparateThreadConsumer.h:51-60 | one value more in the write buffer, or failure exactly when it is full |
| SeparateThreadConsumers.SeparateThreadConsumer.TakeValues | src/LibForumHelpers/SeparateThreadConsumer.h:114-124 | the filled buffer is handed out and is not the one written to any more |
| SeparateThreadConsumers.StepConserves | src/LibForumHelpers/SeparateThreadConsumer.h:51-129 | every step of either side conserves the values and keeps producers out of the buffer being consumed |
| SeparateThreadConsumers.EveryRunConserves | src/LibForumHelpers/SeparateThreadConsumer.h:51-129 | in every interleaving delivered, in-hand and queued values are the successful enqueues in order |
| SeparateThreadConsumers.FinishedDelivery | src/LibForumHelpers/SeparateThreadConsumer.h:92-129 | at the end exactly the values accepted before the last drain have been delivered, once and in order |
| SeparateThreadConsumers.StopDeliversAccepted | src/LibForumHelpers/SeparateThreadConsumer.h:81-129 | in every interleaving, whatever had been accepted when the consumer was first told to stop has been delivered once its thread has finished |
| SeparateThreadConsumers.FinishedStays | src/LibForumHelpers/SeparateThreadConsumer.h:81-112 | nothing is delivered after that |
| UrlCoding.DecodeUndoesEncode | src/LibHttp/HttpStringHelpers.h:137-230 | for every text; only unreserved characters and upper-case triples; at most three times as long |
| UrlCoding.EncodesToItself | src/LibHttp/HttpStringHelpers.h:180-190 | a text is its own encoding exactly when all its characters are unreserved |
| UrlCoding.DecodesToItself | src/LibHttp/HttpStringHelpers.h:137-173 | for any text, well formed or not: decoding leaves it alone exactly when it has no percent sign |
| UrlCoding.CaseOfDigitsDoesNotMatter | src/LibHttp/HttpStringHelpers.h:123-173 | texts that differ only in the case of the digits behind percent signs are decoded alike |
| UrlCoding.HexDigitsRead | src/LibHttp/HttpStringHelpers.h:123-140 | digits of either case are read with their value, and nothing else is read as a digit other than zero |
| UrlCoding.UrlEncode | src/LibHttp/HttpStringHelpers.h:195-230 | the output array starts with the encoding, or nothing is written when it might be too small |
| UrlCoding.DecodeUrlEncodingInPlace | src/LibHttp/HttpStringHelpers.h:137-173 | the array starts with the decoding of what it held; the write position never passes the read position |

## Left out
- Discussion.Tag.InsertDiscussionThread: one thread at a time; batches are in TagBatches.
- Forum.AddDiscussionTagToThread: the references are required to agree before; authorization, change notifications, timestamps and the lookups that lead to NOT_FOUND are not modelled. The same holds for the other operations of that module.
- Forum.ChangeDiscussionCategoryParent: the sets of child categories and their names are not modelled; looking up ids is not either.
- Forum.AddNewDiscussionMessageInThread: a thread has a number of messages; the messages themselves, their authors and votes, and subscriptions are not modelled.
- Merging.MergeDiscussionThreads: lookups that lead to NOT_FOUND, subscriptions and the messages themselves are not modelled; no message is in both threads.
- Discussion.Category.UpdateMessageCount: the update of sorted indexes that goes with it is modelled separately in TagCollections.
- ForestRuns.RunConsistent: runs consist of new categories, single-category insertions and releases, deletions from all holders, re-parentings and changes of message counts; deletion of categories and of tags is not modelled.
- MessageRound.RoundSound: message counts are unbounded integers, so 32-bit overflow of counts is not modelled.
- Trie.ImmutableTrie.AddKeyLevel: groups are placed in some order; the order of the source's sorted map is not modelled, and no property depends on it.
- MessageExtraction.MessageExtractor.Perform: logs in which an added message ends inside its fixed fields are required not to occur, because the source then reads past the blob; failures of the output streams are not modelled; integers are little-endian; the checksum is an unspecified function of the blob.
- MessageExtraction.MessageExtractor.IterateBlobs: progress messages are not modelled.
- EventRecords.LogReadBack: records of the kinds both tools look at, in the versions they support, and any other record with a context; the writer's buffers and its queue are modelled elsewhere or not at all.
- ExtractionMeaning.LogKeepsItsMeaning: offsets are required to stay below 2 to the power of 64, as the stored field demands.
- JsonWriters.WriteValue: nesting beyond 32 levels throws in the source and is excluded; newPropertyWithSafeName, whose callers promise safe names, is not modelled.
- JsonText.ParseUndoesWrite: integers only, as the writer has no other numbers; insignificant white space and \u escapes beyond one byte are not parsed; bytes above 127 pass through unchecked.
- SearchExtraction.SearchDataExtractor.Perform: the history is required to be valid and without reuse of message ids, and merging a thread into itself is excluded; events that move a message are ignored as in the source, so the forum compared with is one in which they did not happen; blobs whose fields end before their declared lengths are excluded, because the source then reads past the blob.
- SearchFiles.EventFiles.WriteJson: file names and file system errors are not modelled.
- SearchOutput.Extract: events are gathered first and written to files afterwards, where the source writes each one as it comes; what follows each text in memory is a parameter and is required to hold a zero byte somewhere, because the source then looks for one.
- Privileges.DefaultLevel: the bonus from the message count is a 16-bit input; the floating-point multiplication that gives it is not modelled.
- Privileges.GrantedPrivilegeStore.IsAllowed: the other overloads differ only in the places they ask and are covered by Assignments.PlacesFor; the enumeration functions are not modelled.
- Assignments.MayActOnIsStrictOrder: for users whose default level keeps sums of extremes in 16 bits; Assignments.NobodyActsOnThemselves shows that irreflexivity needs this.
- Assignments.MayAssignIsStrictOrder: for such users as well; Assignments.EqualsDoNotAssignToEachOther shows that asymmetry needs this.
- SortedVectors.SortedVector.InsertRange: sorts by insertion; the library's sorting algorithm is not modelled, and no order of ties is promised.
- TagCollections.DiscussionTagCollection.Add: changing a tag's name and SortedVectorUnique are not modelled.
- Throttling.ThrottlingCheck.constructor: a limit of zero is excluded, because the wrap loop of the source does not end then; times are unbounded integers.
- BufferPools.FixedSizeBufferPool.ReturnBuffer: returning a buffer that is not leased is excluded, as the source asserts; the mutex makes each call atomic and is not modelled.
- SeparateThreadConsumers.StepConserves: locks and atomics make each step indivisible; that the thread may start before the constructor has set its pointers, retries of a failed enqueue, and that waiting ends at all are not modelled.
- UrlCoding.UrlEncode: the table of reserved characters is given as a predicate; the overloads with thread-local buffers are not modelled.
- Sockets, timers, HTTP parsing and routing, configuration, plugins, logging and the importer of events are not part of this model.
