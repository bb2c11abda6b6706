# KMP-Kemono-Downloader core, modelled and proved in Dafny

This project models the parts of the Kemono downloader that have state transitions or exact string results, and it proves what they promise. The modelled parts are:

- **The task-stealing pool** (`Threadpool.py`), as a sequential state machine (module `Threadpool`).
  - `MutexCounter` is a class whose counter refuses to go below zero.
  - `ThreadPool` keeps `tcount + 1` task queues and a task counter. Queue 0 is the main queue and queue `i + 1` belongs to worker `i`.
  - `Enqueue` appends to the main queue, or pushes onto the front of the caller's own queue.
  - `Dequeue` is the dequeue step of `TaskThread.run`: take the front of the worker's own queue, else steal from the back of the first non-empty queue.
  - The thread-local worker id is an explicit parameter.
  - Invariant: the counter always equals the number of queued tasks, and `Dequeue` removes exactly the task it returns.
- **The closed hash table** (`HashTable.py`).
  - `HashSlots` is the slot array as a value. Each operation is a function of the slots.
  - `HashTables.HashTable` is the class. Its methods run the source's probe loops on an `array` and are proved to leave exactly the slots the matching `HashSlots` function gives.
  - `HashFacts` proves what those functions promise against an abstract view. `Entries` is the multiset of live (key, value) records.
  - A table is well formed (`WellFormed`) when it has at least 2 slots, every live key is reachable along its probe sequence without crossing an empty slot, and at most about half of the slots are live.
  - Every operation keeps the table well formed and changes `Entries` exactly as the source intends.
  - `__occupied` always equals the number of live records.
  - The searches keep the source's mid-search doubling: after 10 probes they double the table, restart at the key's new home, and go on probing from the old `home`.
- **Path helpers** (`dirs.py`, module `Dirs`). The script directory that the source reads from `sys.path[0]` is the parameter `pypath`.
- **The archive-name classifier** (`zipextracter.py`, module `ZipExtracter`).
- **The naming rules of the first downloader** (`KMPDownloader.py`, module `KMPDownloader`): `trim_fname`, the numbered names of `download_all_files`, the title sanitisation, and the paging loop of `process_window` over an abstract list of pages.
- **`PersistentCounter`** (`src/PersistentCounter.py`).
- **The Discord channel reader's paging state** (`DiscordtoJson.py`, module `DiscordToJson`): the `recent` (channel, skip) history, the request URL, and `discord_lookup_all` over an abstract list of pages.

The network, HTML parsing and file writes are not modelled. Where the source fetches, the model takes what the fetch returns as a parameter. For a single request this is a function `fetch`. For a paging loop it is the sequence of pages that successive requests return.

Each hash-table search takes `fuel`, the number of mid-search doublings it may make. The insertion and transfer loops stop after one full period of the quadratic probe. A result of `Stuck` / `NoReturn` stands for a call of the source that would not return within that bound, or not at all. With `fuel` used up, the source would double the table once more and might still return. `ProbePeriodic`, `TransferNeverEnds` and `InsertNeverEnds` show that an insertion or transfer probe loop cut off after one period repeats forever.

## Model

| member | source | states |
|---|---|---|
| Threadpool.MutexCounter.constructor | Threadpool.py:24-29 | the counter starts at the given value |
| Threadpool.MutexCounter.Get | Threadpool.py:31-38 | returns the counter and changes nothing |
| Threadpool.MutexCounter.GetNowait | Threadpool.py:40-44 | returns the counter and changes nothing |
| Threadpool.MutexCounter.Decrement | Threadpool.py:62-75 | succeeds exactly when the counter is positive and then lowers it by one; otherwise reports `ValueError` and leaves it unchanged; a counter that was not negative never becomes negative |
| Threadpool.MutexCounter.DecrementNowait | Threadpool.py:77-87 | same as `Decrement`, without the lock |
| Threadpool.MutexCounter.Increment | Threadpool.py:89-95 | the counter grows by exactly one |
| Threadpool.MutexCounter.IncrementNowait | Threadpool.py:97-101 | the counter grows by exactly one |
| Threadpool.TotalUpdate | Threadpool.py:199-203 | replacing one queue changes the task total by the difference in that queue's length |
| Threadpool.PendingUpdate | Threadpool.py:199-203 | replacing one queue changes the bag of pending tasks by exactly what that queue gains and loses |
| Threadpool.TotalZero | Threadpool.py:300-306 | the task total is zero exactly when every queue is empty |
| Threadpool.FirstNonEmpty | Threadpool.py:300-303 | the scan's stopping point: every queue before it is empty, and it is non-empty unless it is past the end |
| Threadpool.TakeNext | Threadpool.py:291-316 | the dequeue policy as a function of the queues (no contract of its own); TakeNextNone, TakeNextConserves and TakeNextFrame state what it keeps |
| Threadpool.TakeNextNone | Threadpool.py:291-312 | the dequeue step yields no task exactly when all queues are empty, and then the queues are unchanged |
| Threadpool.RemoveOne | Threadpool.py:296-302 | popping one element removes exactly that task: the total drops by one and the bag loses only that element |
| Threadpool.TakeNextConserves | Threadpool.py:291-316 | a task that is taken leaves the queues: one task fewer, and exactly that task |
| Threadpool.TakeNextFrame | Threadpool.py:297-303 | when stealing, only the victim queue changes |
| Threadpool.ThreadPool.constructor | Threadpool.py:117-135 | `tcount + 1` empty queues and a task counter of 0 |
| Threadpool.ThreadPool.Enqueue | Threadpool.py:188-209 | from outside the pool the task goes to the back of queue 0; from worker i it goes to the front of queue i + 1; no other queue changes; the counter and the bag of pending tasks grow by exactly that task |
| Threadpool.ThreadPool.Dequeue | Threadpool.py:291-316 | worker i takes the front of its own queue, else the back of the lowest-indexed non-empty queue, else nothing; a taken task is counted off, so the counter still equals the number of queued tasks |
| Threadpool.ThreadPool.GetQsize | Threadpool.py:222-228 | returns the number of queued tasks |
| HashSlots.CompareTo | HashTable.py:63-81 | the result is -1, 0 or 1, and 0 exactly when the keys are equal |
| HashSlots.StrLessIrreflexive | HashTable.py:77-81 | no key compares greater than itself |
| HashFacts.StrLessAsymmetric | HashTable.py:77-81 | two keys are never each greater than the other |
| HashFacts.StrLessTotal | HashTable.py:77-81 | two keys are equal or one is greater, so `compareTo` never falls through wrongly |
| HashFacts.CompareAntisymmetric | HashTable.py:63-81 | `p.compareTo(q)` is minus `q.compareTo(p)` |
| HashSlots.Home | HashTable.py:385-412 | the home slot of a key is in `[0, m)` |
| HashSlots.Probe | HashTable.py:374-383 | the probe slot `(home + step²) mod n` is in `[0, n)` |
| HashSlots.FoldSum | HashTable.py:395-412 | the string fold as a sum of weighted character codes (no contract of its own); FoldStepInBlock and FoldBlocks tie it to the source's block loops |
| HashSlots.HalfFull | HashTable.py:366-372 | half full means the free slots are no more than the live ones (no contract of its own); InsertedCount shows that doubling at this point keeps the table at most about half full |
| HashFacts.FoldStepInBlock | HashTable.py:398-403 | within a block of four, character k adds `ord(c) * 256^k` |
| HashFacts.FoldBlocks | HashTable.py:395-410 | folding a string whose first part is a whole number of blocks is the sum of folding the parts |
| HashFacts.ProbePeriodic | HashTable.py:383 | the probe sequence repeats with period n |
| HashFacts.ProbeWithinPeriod | HashTable.py:383 | every probe slot is reached within the first n steps |
| HashFacts.ProbeStart | HashTable.py:374-383 | step 0 of the probe is the home slot |
| HashFacts.CountIsSize | HashTable.py:298-304 | the live-record count that `__occupied` tracks is the number of entries |
| HashFacts.LiveCountCons | HashTable.py:347-354 | the live records from slot i on are slot i's, plus the live records after it |
| HashSlots.FirstEmpty | HashTable.py:330-336 | the transfer loop's stopping slot, when found, is empty |
| HashFacts.FirstEmptySpot | HashTable.py:330-336 | the transfer loop stops at a probe step whose earlier probes are all full |
| HashFacts.FirstEmptyNone | HashTable.py:334-336 | when the transfer loop finds no empty slot in a period, every probed slot is full |
| HashFacts.TransferNeverEnds | HashTable.py:334-336 | then every step of the probe sequence hits a full slot, so the source loop never ends |
| HashSlots.ScanInsert | HashTable.py:161-178 | the slot chosen for a new pair never holds a live record, so storing there loses nothing |
| HashFacts.ScanInsertSpot | HashTable.py:166-178 | the chosen slot lies on the pair's probe path, after only full slots |
| HashFacts.ScanInsertNone | HashTable.py:166-172 | when the insertion loop finds no empty slot in a period, every probed slot is full |
| HashFacts.InsertNeverEnds | HashTable.py:166-172 | then every step of the probe sequence hits a full slot, so the source loop never ends |
| HashFacts.InsertKeeps | HashTable.py:160-178 | storing the pair at the chosen slot keeps every live key reachable and adds exactly its entry |
| HashSlots.Transferred | HashTable.py:321-338 | a transfer keeps the table's size |
| HashFacts.TransferKeeps | HashTable.py:321-338 | a transfer into a tombstone-free table keeps it reachable and tombstone-free and adds exactly the record |
| HashSlots.RehashFrom | HashTable.py:340-354 | a rehash keeps the destination's size |
| HashFacts.RehashKeeps | HashTable.py:340-354 | the rehashed table holds exactly the source's live records, all reachable, with no tombstones |
| HashFacts.NothingLeft | HashTable.py:350-354 | once no live record is left, the loop (stopped by `remain == 0`) adds nothing more |
| HashSlots.Doubled | HashTable.py:356-364 | the doubled table has twice the slots |
| HashFacts.DoubledKeeps | HashTable.py:356-364 | doubling keeps exactly the live records with their values, all reachable, and drops the tombstones |
| HashFacts.DoubledCount | HashTable.py:356-364 | doubling keeps the live-record count, so `__occupied` stays right |
| HashSlots.SearchFrom | HashTable.py:247-261 | a search either leaves the slots as they are or grows them; a found index holds a live record with the searched key |
| HashSlots.Search | HashTable.py:237-261 | a search from the key's home never shrinks the table, and a found index holds a live record with the searched key |
| HashFacts.SearchFromKeeps | HashTable.py:247-261 | a search leaves the slots unchanged, or ends in a table with the same entries and every live key reachable |
| HashFacts.SearchKeeps | HashTable.py:237-261 | a search keeps the table well formed and keeps the live-record count |
| HashFacts.SearchSameEntries | HashTable.py:237-261 | a search keeps every live record and its value |
| HashFacts.SearchFromComplete | HashTable.py:251-261 | a search that reports absent without resizing has passed every slot where the key could be, so the key is not live |
| HashFacts.SearchNoResize | HashTable.py:237-261 | when no resize happened, a search finds the key exactly when the key is live |
| HashFacts.SearchMissesAfterResize | HashTable.py:247-261 | a search can miss a live key after a doubling: in a well-formed 23-slot table (a state the source's own operations do not build) with "s" on slot 0 and "E" on probe step 10, the search for "E" doubles the table and reports it absent |
| HashFacts.AddDuplicatesAfterResize | HashTable.py:144-180 | for that reason an add can store a second live record for a key: adding ("E", 5) to that table leaves both ("E", 1) and ("E", 5) live |
| HashSlots.Added | HashTable.py:144-180 | an add never shrinks the table |
| HashSlots.Inserted | HashTable.py:156-180 | an insertion never shrinks the table |
| HashFacts.AddedKeeps | HashTable.py:144-180 | an add keeps the table well formed; a stored pair adds exactly its entry; an add that stores nothing found the key live |
| HashFacts.InsertedKeeps | HashTable.py:156-180 | the insertion step (double when half full, then store) keeps live keys reachable and adds exactly the pair's entry when it reports success |
| HashFacts.InsertedCount | HashTable.py:156-180 | the insertion step keeps the table well formed, and the live-record count grows by one exactly when it stores |
| HashSlots.LookedUp | HashTable.py:182-195 | a lookup never shrinks the table; LookedUpFinds states what it returns |
| HashSlots.Edited | HashTable.py:197-217 | an edit never shrinks the table; EditedKeeps states its effect on the records |
| HashSlots.Deleted | HashTable.py:219-235 | a delete never shrinks the table; DeletedKeeps states its effect on the records |
| HashFacts.AddExisting | HashTable.py:152-154 | when the search does not double the table, adding a key that is already live changes nothing and reports that nothing was stored |
| HashFacts.AddedUnique | HashTable.py:144-180 | an add whose search did not resize never creates a second record for a key |
| HashFacts.AddThenLookup | HashTable.py:182-195 | when neither search doubles the table, after adding a new key a lookup of that key returns the added value |
| HashFacts.LookedUpFinds | HashTable.py:182-195 | a lookup keeps the contents; a value it returns belongs to the key; without a resize it returns None exactly when the key is absent |
| HashFacts.OverwriteKeeps | HashTable.py:215-234 | overwriting a live record in place (new value, or tombstone) keeps the table well formed; the count drops by one exactly for a tombstone |
| HashFacts.EditedKeeps | HashTable.py:197-217 | an edit swaps exactly the key's old value for the new one and reports True; otherwise nothing changes, and without a resize False means the key is absent |
| HashFacts.DeletedKeeps | HashTable.py:219-235 | a delete removes exactly that key's entry and reports True; otherwise nothing changes, and without a resize False means the key is absent |
| HashFacts.DeleteThenSearch | HashTable.py:219-261 | with distinct keys, after a delete the key is gone and no later search finds it |
| HashTables.HashTable.constructor | HashTable.py:129-140 | `max(size, 2)` slots, all empty, and `__occupied` is 0 |
| HashTables.HashTable.Hash | HashTable.py:385-412 | the folding loops compute the key's home slot |
| HashTables.HashTable.FoldBlock | HashTable.py:398-410 | one pass of the inner loop adds the fold of one block of up to four characters |
| HashTables.HashTable.Transfer | HashTable.py:321-338 | the probe loop stores the record at the first empty slot of its probe sequence |
| HashTables.HashTable.Rehash | HashTable.py:340-354 | the `remain` loop transfers the live records in slot order |
| HashTables.HashTable.DoubleTable | HashTable.py:356-364 | the records become the doubled table; the count is unchanged and every live key is reachable |
| HashTables.HashTable.ExistByKey | HashTable.py:237-261 | the search loop, with mid-search doubling, ends as `Search` says and keeps the table well formed and counted |
| HashTables.HashTable.ResizeMidSearch | HashTable.py:254-257 | the doubling inside the search loop continues the search as `SearchFrom` says |
| HashTables.HashTable.Exist | HashTable.py:263-287 | the same search, matching on `compareTo(token) == 0`, that is, on the key |
| HashTables.HashTable.Add | HashTable.py:144-180 | the add ends as `Added` says and keeps the table well formed and counted |
| HashTables.HashTable.Insert | HashTable.py:156-180 | doubling when half full and then storing ends as `Inserted` says; `__occupied` grows with the stored record |
| HashTables.HashTable.Store | HashTable.py:160-178 | the insertion loop writes the pair at the slot `ScanInsert` chooses, and nowhere else |
| HashTables.HashTable.LookupValue | HashTable.py:182-195 | returns the value of the record found, or None, as `LookedUp` says |
| HashTables.HashTable.EditValue | HashTable.py:197-217 | changes only the value of the record found, as `Edited` says, keeping the table well formed |
| HashTables.HashTable.Delete | HashTable.py:219-235 | marks the record found as a tombstone and lowers `__occupied` by one, as `Deleted` says |
| HashTables.HashTable.GetSize | HashTable.py:290-296 | the number of slots, at least 2 |
| HashTables.HashTable.GetOccupied | HashTable.py:298-304 | the number of live records, at most about half the slots |
| Dirs.ConvertWinToPyPath | dirs.py:7-16 | same length; every backslash becomes '/', and every other character stays where it is |
| Dirs.ConvertedHasNoBackslash | dirs.py:15-16 | the result has no backslash |
| Dirs.ConvertWithoutBackslash | dirs.py:15-16 | a path without a backslash is returned unchanged |
| Dirs.ConvertIdempotent | dirs.py:7-16 | converting twice is converting once |
| Dirs.RewriteSegment | dirs.py:34-35 | the two replacements in the source's order (no contract of its own); NoDotsUnchanged, CurrentDirectory and ParentDirectory state its results |
| Dirs.ReplaceDotsToPyPath | dirs.py:18-35 | everything from the first '/' on is kept as it is, at the end of the result |
| Dirs.NoSeparatorAdded | dirs.py:29-35 | a path without '/' becomes only its rewritten segment, with no '/' appended |
| Dirs.NoDotsUnchanged | dirs.py:34-35 | a path whose first segment has no '.' is unchanged |
| Dirs.CurrentDirectory | dirs.py:32-35 | "./rest" becomes the script directory followed by "/rest" |
| Dirs.ParentDirectory | dirs.py:34-35 | "../rest" becomes the parent of the script directory, with any '.' in it then rewritten by the second replacement, followed by "/rest" |
| Dirs.ParentDirectoryWithoutDot | dirs.py:34-35 | when the parent has no '.', "../rest" becomes exactly the parent followed by "/rest" |
| ZipExtracter.SupportedIff | zipextracter.py:16-26 | accepted exactly when the last component contains "zip", "rar" or "7z" at some position |
| ZipExtracter.SupportedZipType | zipextracter.py:16-26 | the classifier itself (no contract of its own); SupportedIff states exactly which names it accepts |
| ZipExtracter.DirectoryPrefixIrrelevant | zipextracter.py:24 | a directory prefix ending in '/' does not change the answer |
| ZipExtracter.WholeNameWithoutSlash | zipextracter.py:24-26 | without '/', the whole name is examined |
| ZipExtracter.SubstringAccepted | zipextracter.py:26 | "zip" anywhere in the last component is accepted, as in "zipped.txt" |
| ZipExtracter.PlainNameRejected | zipextracter.py:26 | "a.txt" is rejected |
| ZipExtracter.MarkerInDirectoryIgnored | zipextracter.py:24-26 | a marker in a directory name does not count: "x.zip/notes" is rejected |
| ZipExtracter.NoMarkerRejected | zipextracter.py:24-26 | after any directory, a last component with no 'z', 'r' or '7' is rejected |
| KMPDownloader.TrimFname | KMPDownloader.py:23-29 | the result has no '?' and no '/', and it is a suffix of the text before the first '?' |
| KMPDownloader.TrimPlainName | KMPDownloader.py:23-29 | a name with neither '?' nor '/' is unchanged |
| KMPDownloader.TrimIdempotent | KMPDownloader.py:23-29 | trimming twice is trimming once |
| KMPDownloader.SanitizeAt | KMPDownloader.py:60 | sanitising keeps the length, keeps every character of `[\w\-_. ]`, and replaces every other one with '_' |
| KMPDownloader.Sanitize | KMPDownloader.py:60 | sanitising keeps the length; SanitizeAt states it character by character |
| KMPDownloader.SanitizedIsClean | KMPDownloader.py:60 | the sanitised title has only kept characters |
| KMPDownloader.SanitizeClean | KMPDownloader.py:91 | a title of only kept characters is unchanged |
| KMPDownloader.SanitizeIdempotent | KMPDownloader.py:60 | sanitising twice is sanitising once |
| KMPDownloader.TitleDir | KMPDownloader.py:91 | the directory is the root, then a sanitised name with no '/', then a final '/' |
| KMPDownloader.DownloadAllFiles | KMPDownloader.py:47-53 | link k is fetched from `dataPrefix + href` into `dir + str(k) + "." + <text after the href's last '.'>`, in link order |
| KMPDownloader.AttachmentName | KMPDownloader.py:47-53 | a saved name starts with the post's directory; AttachmentKeepsExtension, AttachmentNumber and AttachmentNamesDistinct state the rest |
| KMPDownloader.AttachmentKeepsExtension | KMPDownloader.py:51-52 | the saved name ends with the link's extension |
| KMPDownloader.AttachmentNumber | KMPDownloader.py:52 | the text between the directory and the first '.' of a saved name is the link's number |
| KMPDownloader.AttachmentNamesDistinct | KMPDownloader.py:52 | two links of one post never get the same file name |
| KMPDownloader.ProcessLinks | KMPDownloader.py:102-104 | one container URL per link of the window, `containerPrefix + href`, in order |
| KMPDownloader.ProcessWindow | KMPDownloader.py:95-110 | every window up to the first empty one is processed in order; the offset advances by 25 per window; the requests are the listing URL, then `url + "?o=" + str(25k)` |
| KMPDownloader.WindowUrlsAt | KMPDownloader.py:106-108 | request k is the listing itself for k = 0, else the listing at offset 25k |
| KMPDownloader.WindowUrl | KMPDownloader.py:106-108 | every request starts with the listing URL, and it is longer than the listing exactly for k > 0 |
| KMPDownloader.ContainerUrls | KMPDownloader.py:104 | the container URL of each link, as a reference definition (no contract of its own beyond its body); ProcessLinks and ContainerUrlsConcat state its use |
| KMPDownloader.ContainerUrlsConcat | KMPDownloader.py:102-104 | the URLs of two windows in a row are the first window's URLs followed by the second's |
| Paging.FirstEmpty | KMPDownloader.py:100 | the loop stops at the first empty page, and every page before it is non-empty |
| PersistentCounter.PersistentCounter.constructor | src/PersistentCounter.py:7-13 | the counter starts at `starting` (0 by default) |
| PersistentCounter.PersistentCounter.Toggle | src/PersistentCounter.py:15-23 | the value grows by exactly one and the new value is returned |
| PersistentCounter.PersistentCounter.Get | src/PersistentCounter.py:25-32 | returns the value and changes nothing |
| PersistentCounter.PersistentCounter.Set | src/PersistentCounter.py:34-41 | the value becomes `target` |
| DiscordToJson.ChannelUrl | DiscordtoJson.py:119 | the URL starts with the channel API prefix and ends with the decimal skip |
| DiscordToJson.Transition | DiscordtoJson.py:98-115 | no channel id and no history is an assertion failure; otherwise the request continues the stored channel at its skip (id absent or the same) or starts the given channel at skip 0, and the history becomes that channel at skip + 25 |
| DiscordToJson.TransitionAligned | DiscordtoJson.py:104-115 | the stored skip and every requested skip stay multiples of 25 |
| DiscordToJson.ContinuedCalls | DiscordtoJson.py:107-110 | n calls without a channel id request the stored skip, then 25 more each time |
| DiscordToJson.FirstThenContinued | DiscordtoJson.py:103-110 | a first call with an id, then n calls without one, request skips 0, 25, ..., 25n |
| DiscordToJson.DiscordToJson.constructor | DiscordtoJson.py:20 | a new reader has no history |
| DiscordToJson.DiscordToJson.ChannelLookup | DiscordtoJson.py:98-131 | fails its assertion and keeps the history when `Transition` fails; otherwise fetches `ChannelUrl` of the chosen request, returns what the fetch returns, and stores the new history |
| DiscordToJson.LookupAll | DiscordtoJson.py:50-80 | requests skips 0, 25, 50, ... up to and including the first empty page, and returns the non-empty pages concatenated in order |

## Left out

- Threads and locks in Threadpool.py: the semaphore, the condition variable, `start_threads`, `kill_threads`, `join_queue`, `get_status`, the kill switch, the `acquire`/`release` of `MutexCounter`, and running a task (`task[0](*task[1])`). Only the sequential queue and counter transitions are modelled.
- Threadpool.ThreadPool.Dequeue: tasks are assumed to be truthy `(callable, args)` pairs. The source's `while not task` would skip past a falsy task, such as an empty tuple.
- Threadpool.ThreadPool.Enqueue: requires the caller's worker id to be below `tcount`. The source would raise `IndexError` for any other id, and its ids come only from the threads it starts.
- HashTables.HashTable.Add: requires a pair that is not a tombstone. The source would store a tombstoned pair (for example, a pair object that was deleted earlier) and still count it in `__occupied`, which breaks that count.
- HashFacts.SearchNoResize: proves a search complete only when no mid-search doubling happened. After a doubling, the source probes around the old `home` in the new table and can miss a live key.
  - HashFacts.SearchMissesAfterResize proves an example: 23 slots, "s" live at slot 0 and "E" live at probe step 10 behind tombstones.
  - That table is well formed, but the source's own operations do not build it. A table of odd size only comes from the constructor, and the add that put "E" at step 10 would have doubled the table during its search. The example shows that well-formedness alone does not make a search complete after a doubling; it is not a run of the source.
  - A search for "E" doubles to 46 slots, which moves "s" to slot 23 and "E" to slot 24.
  - The search then probes slot 23 and then the empty slot 1, and returns -1.
- HashFacts.AddedUnique: keys stay distinct only for an add whose search did not resize. For the reason above, the source can add a second record for a live key.
- HashFacts.LookedUpFinds, HashFacts.EditedKeeps, HashFacts.DeletedKeeps, HashFacts.AddExisting, HashFacts.AddThenLookup: "absent" is tied to "not found" only when no resize happened, for the same reason. AddExisting and AddThenLookup hold only when neither search doubles the table.
- Searches are cut off after `fuel` mid-search doublings, and insertion and transfer probe loops after one period; both are reported as `Stuck` / `NoReturn`. A probe loop cut off after a period never ends in the source. A search cut off by `fuel` may still end in the source after more doublings, so `Stuck` means "would not return within that bound, or not at all".
- Object identity of `KVPair`: a record is a value. The source stores the caller's object, so a caller that keeps a reference and calls `setValue` or `setTombstone` changes the table behind its back. `disableTombstone`, `getKey`, `getValue` and `setValue` are field reads and updates of that value.
- `hashtable_print` and `KVPair.__str__`: console output only.
- `MismatchTypeException` in `compareTo`: the guard cannot fire with typed arguments.
- Keys are strings. The source hashes `str(key)` and compares keys with `==` and `>`.
- KMPDownloader.SanitizeAt: `\w` is taken as ASCII letters, digits and '_'. Python's `\w` also keeps non-ASCII letters and digits.
- KMPDownloader.TitleDir: takes the title text after the HTML lookup and the `.strip()` of line 60, which are not modelled.
- Network, HTML and files in KMPDownloader.py: `download_file`, the HTML parsing of `process_container` and `process_window`, writing the post content, `os.mkdir` and `main`. The model returns the requests and file names that the source hands to them.
- KMPDownloader.ProcessWindow, DiscordToJson.LookupAll: the listing is a finite list of pages, and every request past its end returns an empty page, so both loops always end. The source's `while contLinks` (KMPDownloader.py:100) and `while not done` (DiscordtoJson.py:61) loop forever against a server that never returns an empty page.
- Network in DiscordtoJson.py: `discord_lookup`, the `scraper.get` retry loops and logging. A fetch is a parameter. LookupAll takes a channel id string; the source would fail on `None` when building the URL.
- src/LockingCounter.py, src/downloader.py, DB.py, DirTextSearch.py, jutils.py and `extract_zip` of zipextracter.py are not part of this model.
