# aMule bookkeeping, modelled and proved

aMule keeps several small engines whose correctness is a matter of bookkeeping over long runs. This project models
them in Dafny, in the form the program has them (classes with mutable fields where it mutates, functions where it
computes), and proves what their comments, tests and callers rely on.

* `BrowseLifecycle`, `BrowseStore`, `BrowseManager`, `BrowseProtocol`: browsing a peer's shared files. A pure state
  machine per browse, a store keyed by search ID that returns effects, a manager that performs them while holding one
  reference per attached peer, and the guards under which packets reach it. The log of what was announced and released
  is part of the manager's state, so the rules about a whole run are statements about that log.
* `FileModel`, `Kernel`, `CFileBuffer`, `FileSessions`: `CFile` and its 64 KiB write buffer over an operating system
  whose every call may fail and whose reads and writes may be partial. `FileModel` says what an unbuffered file does;
  the buffered one is proved to refine it. The kernel keeps a tally of the calls that failed or fell short, so that a
  contract can say what a failure is due to. Saving in safe mode, `CloneFile` and runs over many files are proved on top.
* `FolderForest`, `BrowseTree`, `BrowseListModel`: the folder tree built from directory strings a peer sent, with both
  of its depth bounds, nodes that outlive rebuilds, and the walk a tree control makes of it.
* `MultiMap`, `ClientList`: three multimaps over the same mutable, reference-counted clients, and the tiered search.
* `KadBuddy`, `CallbackRequests`, `BanRecord`: the buddy state machine, the callback limit and the ban record.
* `RecordLists`, `Strings`, `ClientsMet`: the credit file, its back-patched count, its metadata trailer and the UTF-8
  names in it.
* `ChatSessions`, `BitVector`, `RowLists`, `BarShader`: smaller structures with a simple specification.

Most classes follow one pattern: a method's contract equates the new state with a specification function of the old
one, and lemmas prove what the program promises about that function, over every run where the promise is about runs.
What decides an outcome is also said without those functions, of fields, bytes or events: how a browse ends, which
credits come back, who is the same peer, when a buddy is let go, what a row shows, what the bytes of a file are.

Where the code and what is said about it differ, the code is modelled and the difference is stated exactly:

* A write-buffer drain that fails half way keeps all bytes pending, so a later drain writes some of them twice
  (`FileModel.RetryAfterFailedDrain`: right again if and only if nothing had been written).
* A write of 64 KiB or more goes out in one kernel call, and if the kernel takes only part of it the operation fails with
  that part in the file although nothing went wrong (`CFileBuffer.CFile.DoWrite`; `FileModel.ShortWriteFallsShort` and
  the concrete `FileModel.LostPayload`).
* `CloneFile` onto itself reports success and leaves an empty file; on a system where nothing fails it always does
  (`FileSessions.CloneOntoItself`).
* If a clone's guarded close of the target fails, on a full disk say, the target's destructor drains once more outside
  the guard, and a second failure there ends the process. `FileSessions.CloneFile` ends it exactly if a destructor could
  not write what was pending; on a full disk where nothing else fails that is every file of less than 64 KiB that is not
  empty (`FileSessions.CloneOnFullDisk`).
* Changing a client's ID drops its index entry first; a client nothing else refers to does not survive that
  (`ClientList.Client.SetUserIDHybrid`, with `ClientList.IdChangeCanBeTheEnd` as the concrete case).
* A debug assertion in the buddy cycle takes it that while a source is connecting an attempt is under way. It holds
  throughout a cycle exactly under the conditions of `KadBuddy.AssertedExactly`, and a few ordinary events reach a
  cycle in which it fails (`KadBuddy.TriedWhileDisconnected`).
* A browse that is not answered fails exactly if it is denied, its peer goes, or the timer passes two minutes from when
  the peer was last asked (`BrowseProtocol.WaitingEnds`; `BrowseProtocol.HowItEnds` has every browse and every run).
  Another hello over the open connection, or contacting a peer that is connected already, asks again, and doing that
  often enough keeps the browse alive as long as the clock lasts (`BrowseProtocol.ReaskedIsKeptAlive`).
* `BitVector::SetAllTrue` leaves the cache alone; if it said no, the vector answers wrong until a bit is put or it is
  sized, cleared or loaded again, and at no other time (`BitVector.RunTruthful`; `BitVector.FilledUnseenLies` is the
  shortest case). An empty vector answers yes exactly if a load was the last thing to replace its contents
  (`BitVector.EmptyDependsOnHistory`).
* The in-place update of the live client list loses a peer if two rows had shared an id (`RowLists.UpdatedIsReplaced`).
* The flat bar copies rows over their own source when its height is one more than a power of two (`BarShader.DrawFlat`).
* Chat message ids are 32 bits wide; the order of conversations is kept exactly until they wrap (`ChatSessions.AddedOk`).
* With no search the browse tree returns before relinking its nodes, so it shows nothing
  (`BrowseListModel.BrowseListModel.RebuildFolders`).
* A NUL ends a stored name and a byte order mark in front of it is dropped on reading, so not every name of at most 64
  characters comes back (`ClientsMet.NameComesBack`).

## Model

| member | source | states |
|---|---|---|
| BrowseLifecycle.BarValue | src/BrowseLifecycle.cpp:48-63 | the bar is at most 100 while the browse runs and shows the "clear" mark 0xffff exactly once it has ended |
| BrowseLifecycle.PercentMonotone | src/BrowseLifecycle.cpp:48-63 | more directories answered never moves the percentage back |
| BrowseLifecycle.BarIsFloor | src/BrowseLifecycle.cpp:48-63 | while a browse runs the bar is the percentage of its directories answered, rounded down; 0 without a total |
| BrowseLifecycle.ListingsRunOut | src/BrowseLifecycle.cpp:97-110 | a listing takes one off the count, never below none; the only listing of a flat browse ends it |
| BrowseStore.Store.Find | src/BrowseStore.cpp:166-184 | finds the first record in ascending search-ID order that names the peer; the null peer names none |
| BrowseStore.Store.Apply | src/BrowseStore.cpp:141-164 | one action changes one record and yields one effect: a state change is announced once, a drop releases only a record that still has its peer |
| BrowseStore.Store.Start | src/BrowseStore.cpp:30-57 | refuses the null peer, search ID 0, a known ID and a peer with a live browse; otherwise detaches the peer's ended browse and adds a fresh record |
| BrowseStore.Store.Touch | src/BrowseStore.cpp:59-65 | re-bases the silence deadline of the peer's running browse and nothing else |
| BrowseStore.Store.DirectoryListArrived | src/BrowseStore.cpp:67-77 | sets outstanding and total to the announced count, floored at 0, and completes the browse at once when there are none |
| BrowseStore.Store.ListingArrived | src/BrowseStore.cpp:79-89 | counts one listing down, or completes a flat browse; every other record is untouched |
| BrowseStore.Store.Fail | src/BrowseStore.cpp:91-95 | the peer's running browse, and nothing else, is now Failed, its peer still attached, and its failure is to be announced |
| BrowseStore.Store.Finish | src/BrowseStore.cpp:97-102 | the peer's running browse, and nothing else, is now Finished and to be announced |
| BrowseStore.Store.Forget | src/BrowseStore.cpp:104-122 | a running browse becomes Failed, to be announced and then released; an ended one is only released; the record no longer names the peer |
| BrowseStore.Store.Remove | src/BrowseStore.cpp:124-127 | drops exactly the one record |
| BrowseStore.Store.TickAll | src/BrowseStore.cpp:129-139 | every record gets its own tick; the non-empty effects are reported in ascending order of search ID |
| BrowseStore.FindFor | src/BrowseStore.cpp:166-184 | none exactly for the null peer or a peer no record names; otherwise the least such search ID |
| BrowseStore.StartsUnlessBusy | src/BrowseStore.cpp:30-57 | a browse starts if and only if the peer and the search ID are real, the ID is free and no running browse names the peer; then every ended one has let go of the peer, and the new record runs with nothing known and a deadline two minutes off |
| BrowseStore.OnPeerKeepsOnePeerEach | src/BrowseStore.cpp:59-102 | what happens to a peer never makes two records name one peer |
| BrowseStore.StartKeepsOnePeerEach | src/BrowseStore.cpp:30-57 | starting never makes two records name one peer |
| BrowseStore.TickReports | src/BrowseStore.cpp:129-164 | a tick reports, in ascending order of search ID, exactly: success for a running browse with nothing left to come, failure for one whose silence is over, release for an ended one that still names its peer |
| BrowseManager.Manager.Start | src/BrowseManager.cpp:35-48 | the new reference is taken and only then the peer's own ended browse let go; true exactly if the browse was started |
| BrowseManager.Manager.OnRequestSent | src/BrowseManager.cpp:50-53 | only the deadline moves; nothing is announced |
| BrowseManager.Manager.OnDirectoryList | src/BrowseManager.cpp:55-58 | the store's outcome is performed at once |
| BrowseManager.Manager.OnListingReceived | src/BrowseManager.cpp:60-63 | the store's outcome is performed at once |
| BrowseManager.Manager.Fail | src/BrowseManager.cpp:65-68 | the peer's running browse is Failed; the failure line naming the peer and then the announcement of a failure are all that is logged |
| BrowseManager.Manager.Forget | src/BrowseManager.cpp:70-77 | for a running browse the failure line, the announcement of a failure and the release are logged, in that order; for an ended one the release |
| BrowseManager.Manager.Remove | src/BrowseManager.cpp:79-83 | record and reference go together |
| BrowseManager.Manager.Process | src/BrowseManager.cpp:85-90 | each outcome of the tick is performed once, in order |
| BrowseManager.Manager.Perform | src/BrowseManager.cpp:92-118 | a release drops the reference; a failure names the referenced peer before the state is announced |
| BrowseManager.RunKeepsInv | src/BrowseManager.cpp:35-103 | in every reachable state: one record per peer; a running record has a peer and an outstanding count of -1 or 1..totalDirs; record, reference and announcements of each search ID agree |
| BrowseManager.AnnouncedOnceThenReleased | src/BrowseManager.cpp:35-118 | over every run each started search ID was announced exactly once if it ended and not at all otherwise, its peer is released at most once and after that announcement, and a failure names the peer it was opened for |
| BrowseManager.ReferencesMatchRecords | src/BrowseManager.cpp:35-103 | over every run the reference map holds exactly the search IDs whose record still has a peer, for that same peer |
| BrowseManager.LogAccountsForReferences | src/BrowseManager.cpp:35-118 | over every run the notes of what was opened, released and disposed of account for exactly the references held |
| BrowseManager.StartNeverLetsGo | src/BrowseManager.cpp:35-48 | from the first note of a started browse to the last, and after it, some reference to the peer is held, so displacing its own ended browse cannot free it |
| BrowseManager.TerminalStaysTerminal | src/BrowseLifecycle.cpp:65-110 | once ended, a browse keeps its state through any further events until it is removed |
| BrowseProtocol.DirectoryListStartsCountdown | src/ClientTCPSocket.cpp:944-988 | the one directory list a browse accepts starts the countdown at the announced number, or ends the browse if it is 0, and no second list is accepted |
| BrowseProtocol.CountingStep | src/ClientTCPSocket.cpp:990-1013 | of all events only a listing from the peer moves the deadline, and it lowers outstanding by one; everything else leaves the record alone or ends it |
| BrowseProtocol.EndsAfterItsListings | src/BaseClient.cpp:2315-2325 | a browse told of n directories has ended after n listings, and as a success only with all n; until then it is exactly that many short and its bar has only grown, below 100 |
| BrowseProtocol.DeadlineIsBounded | src/BrowseLifecycle.cpp:84-110 | each refresh of the deadline is paid for by a listing, so it stays within the budget of one timeout and one tick gap per listing |
| BrowseProtocol.EndsInTime | src/BrowseLifecycle.cpp:30-46 | a browse told of n directories at t0 has ended once the timer ticked later than t0 + n * (120 s + largest tick gap), whatever the peer sends |
| BrowseProtocol.WaitingEnds | src/BrowseLifecycle.cpp:30-46 | a browse neither answered nor asked about again is Failed, with its failure line and the announcement of a failure logged, if and only if it was denied, its peer was let go, or a tick was past its deadline; until then its record is untouched |
| BrowseProtocol.HowItEnds | src/BrowseLifecycle.cpp:23-110 | over every guarded run the state of a browse and all that is logged of it are what the events alone tell: a success exactly if an empty directory list or the last listing came in time, a failure exactly if before that it was denied, its peer went or silence was noticed; released once it is over and the timer ticks or the peer goes, and else only for a new browse of that peer |
| BrowseProtocol.ReaskedIsKeptAlive | src/BaseClient.cpp:1854-1867 | asking again every two minutes keeps an unanswered browse running for any number of rounds |
| FileModel.SplitWrite | src/CFile.cpp:369-386 | however a write is split the file ends up the same, at an offset or in append mode |
| FileModel.WrittenIs | src/CFile.cpp:388-428 | a write puts its data at the position, or at the end when appending, changes no other byte, fills a gap with zeros and leaves the position behind the data |
| FileModel.ReadIs | src/CFile.cpp:335-367 | a read gives the count bytes at the position, or end of file if there are fewer |
| FileModel.AvailableIsReadable | src/CFile.cpp:493-510 | what is available is the most that one read gives |
| FileModel.ResizedIs | src/CFile.cpp:512-538 | setting the length keeps every byte below it and adds zeros |
| FileModel.DeniedIs | src/CFile.cpp:335-538 | a file denies only reads it was not opened for, writes and changes of length it was not opened for, and is then untouched |
| FileModel.OperationsAgree | src/CFile.cpp:335-538 | what was written reads back, the position told is the one sought, the length the one set, every byte below it kept and zeros after |
| FileModel.SmallWritesWait | src/CFile.cpp:388-428 | a write below 64 KiB waits behind the pending bytes as long as all of them fit, and drains them first if not |
| FileModel.LazilyRefinesDirect | src/CFile.cpp:335-538 | each operation through the buffer answers as the unbuffered one and leaves the same logical file, pending never above 64 KiB |
| FileModel.BufferIsUnobservable | src/CFile.cpp:335-538 | over every run of write, read, seek, tell, length, truncate and flush all answers and, once drained, all bytes and the position are those of the unbuffered file |
| FileModel.RetryAfterFailedDrain | src/CFile.cpp:369-386 | after a failed drain, draining again gives the right file if and only if the failed one had delivered nothing |
| FileModel.DuplicatedByte | src/CFile.cpp:369-386 | a concrete failed drain after which a byte is in the file twice |
| FileModel.ShortWriteFallsShort | src/CFile.cpp:402-406 | a direct write of which the kernel took n > 0 bytes leaves the file right if and only if n is all of it |
| FileModel.LostPayload | src/CFile.cpp:402-406 | a concrete direct write that fails with a byte of it in the file |
| CFileBuffer.CFile.WriteOut | src/CFile.cpp:369-386 | partial kernel writes continue where the last one stopped |
| CFileBuffer.CFile.DrainWriteBuffer | src/CFile.cpp:369-386 | success leaves the logical file and nothing pending; failure leaves all bytes pending though some are written |
| CFileBuffer.CFile.DoWrite | src/CFile.cpp:388-428 | buffers, drains first, or writes through, always to the effect of the write on the logical file; fails only if a kernel call failed, the file is read-only, or a payload of 64 KiB or more was taken in part, which part is then in the file |
| CFileBuffer.CFile.Enqueue | src/CFile.cpp:388-428 | the bytes are pending after those already there, within the 64 KiB buffer |
| CFileBuffer.CFile.CopyIn | src/CFile.cpp:388-428 | the copy stays in bounds and touches nothing before the pending bytes |
| CFileBuffer.CFile.DoRead | src/CFile.cpp:335-367 | hands over all there is up to the count; the returned number is the count exactly when there was enough |
| CFileBuffer.CFile.DoSeek | src/CFile.cpp:430-454 | a negative offset is refused untouched; success moves the logical position there |
| CFileBuffer.CFile.GetPosition | src/CFile.cpp:456-473 | the logical position, pending bytes included |
| CFileBuffer.CFile.GetLength | src/CFile.cpp:475-491 | the logical length, pending bytes included |
| CFileBuffer.CFile.GetAvailable | src/CFile.cpp:493-510 | what is left ahead of the logical position, never negative |
| CFileBuffer.CFile.SetLength | src/CFile.cpp:512-538 | the logical file is cut or extended with zeros |
| CFileBuffer.CFile.Flush | src/CFile.cpp:320-333 | the logical file is unchanged and nothing stays pending |
| CFileBuffer.CFile.Close | src/CFile.cpp:294-318 | a failed drain leaves the file open; success leaves the logical bytes and, in safe mode, the name moved |
| CFileBuffer.CFile.Destroy | src/CFile.cpp:170-178 | never replaces the original; ends the process if and only if pending bytes could not be written, the file then still open |
| CFileBuffer.CFile.Open | src/CFile.cpp:216-283 | an empty path is refused; an open file is closed first; the rights, the name and the initial bytes are spelled out mode by mode, bytes the first close wrote included; short of a failed call it is refused only if the file is missing and must not be created, or is there and must not be |
| CFileBuffer.CFile.Read | src/SafeFile.cpp:72-87 | a read gives exactly the next count bytes, or reports end of file exactly when fewer are left, position moved past them |
| CFileBuffer.CFile.Seek | src/SafeFile.cpp:98-130 | relative seeks resolve against the logical position and length |
| CFileBuffer.TemporaryNameLeadsBack | src/CFile.cpp:294-318 | dropping the extension of path + ".new" gives the path back if and only if the path names a file |
| CFileBuffer.RemoveExtIs | src/CFile.cpp:294-318 | an extension is dropped from its dot on, if the dot follows a character of the file's own name and no dot or separator follows; otherwise the name stays |
| FileSessions.Use | src/CFile.cpp:335-538 | any client of the class gets, up to the operation that fails, exactly the answers of the buffered file, and all of its effect if none does; one fails only if a kernel call failed, the file was not opened for it, or a write of 64 KiB or more fell short |
| FileSessions.SaveSafely | src/CFile.cpp:216-318 | write_safe is all or nothing: the old bytes until an explicit successful close, then exactly the bytes written; the destructor never replaces them, and ends the process if and only if it cannot write what is pending; not closed, it is for a failed or short call, a forbidden operation, or the caller's choice |
| FileSessions.CloneFile | src/CFile.cpp:540-596 | success means equal contents; failure after the target was opened leaves no target unless removing it failed; it fails only without a source, on a target it must not touch, or after a failed or short call; it ends the process if and only if a destructor could not write what was pending, which takes two failed calls; without overwrite an existing target is untouched; onto itself it empties the file |
| FileSessions.CloneOntoItself | src/CFile.cpp:540-596 | if no call fails or falls short, cloning a file onto itself reports success and the file is empty |
| FileSessions.CloneOnFullDisk | src/CFile.cpp:540-596 | on a disk that takes no more bytes and is otherwise well, a clone succeeds if and only if the file is empty, and ends the process if and only if it has 1 to 65535 bytes |
| FileSessions.OneSession | src/CFile.cpp:170-318 | a file opened in any mode, used and closed leaves on the disk, under the name the mode gives it, and answers what an unbuffered file would; it falls short of that only after a failed or short call or when there was no way to do it, and the process ends if and only if the destructor could not write what was pending |
| FileSessions.RunSessions | src/CFile.cpp:170-538 | the same over any run of files, each opened on what the ones before left |
| FolderForest.NormalizeDirectory | src/BrowseListModel.cpp:49-68 | runs of separators collapse to their first, a trailing one is dropped |
| FolderForest.NormalizedIsCanonical | src/BrowseListModel.cpp:34-68 | the result is empty or has no empty segment and no trailing separator |
| FolderForest.NormalizedKeepsSegments | src/BrowseListModel.cpp:34-68 | the non-empty segments of a path are the same before and after, in order |
| FolderForest.CanonicalIsFixed | src/BrowseListModel.cpp:34-68 | a path is its own normal form if and only if it is empty or canonical |
| FolderForest.EnsuredOk | src/BrowseListModel.cpp:81-123 | however strings compose: depth at most 63, parent links up one level, child key = parent key + separator + name, a root named by its whole key less a separator that leads it, no name empty, roots duplicate-free and exactly the parentless nodes, old nodes unchanged, new ones only on the way to the path |
| FolderForest.EnsuredHangs | src/BrowseListModel.cpp:81-123 | a new folder hangs below its parent directory under its own last segment, unless it has none or one of the two bounds is met; then it is a root |
| FolderForest.NestsAsNamed | src/BrowseListModel.cpp:81-123 | as long as no directory lies 64 deep neither bound is ever met: every folder hangs below exactly its parent directory, as deep as its path says |
| BrowseListModel.BrowseListModel.EnsureFolder | src/BrowseListModel.cpp:81-123 | terminates within MAX_FOLDER_DEPTH + 1 frames for any string and creates exactly the nodes the path still lacks, empty |
| BrowseListModel.BrowseListModel.RebuildFolders | src/BrowseListModel.cpp:125-184 | a no-op while the grouping is current; otherwise every shown parentless result is filed under its own directory once and every node relinked, old nodes keeping name, parent and depth; with no search everything is empty |
| BrowseListModel.BrowseListModel.HasContent | src/BrowseListModel.cpp:186-197 | true exactly for the folders with a result at any depth below them |
| BrowseListModel.BrowseListModel.GetChildren | src/BrowseListModel.cpp:199-244 | the folders with content and then the results filed there, after regrouping if due; under a result those it groups that pass the filter |
| BrowseListModel.BrowseListModel.GetParent | src/BrowseListModel.cpp:246-270 | the result it is grouped under, or else read back from the grouping; a result without a directory is under the invisible root |
| BrowseListModel.ParentsAndChildrenAgree | src/BrowseListModel.cpp:199-270 | a row is among the children of an item if and only if it has a row at all and that item is its parent; a folder has one if and only if a shown result lies in a directory at or below it |
| BrowseListModel.DrawnIs | src/BrowseListModel.cpp:186-197 | the folders with content are exactly those with a shown, ungrouped result in a directory at or below them |
| BrowseTree.WalkReachesEverythingOnce | src/BrowseListModel.cpp:125-244 | opening all rows from the root meets every shown result that is grouped under no other exactly as often as it is in the results, and nothing else |
| BrowseTree.ContentRises | src/BrowseListModel.cpp:186-197 | content below a folder gives every folder above it content |
| BrowseTree.WalkAllCounts | src/BrowseListModel.cpp:199-244 | a result is met below a list of sibling folders exactly if one of them is above its own folder |
| MultiMap.RangeMembers | src/ClientList.h:200-298 | the range of a key holds exactly the values filed under it |
| MultiMap.InsertIndexes | src/ClientList.cpp:164-187 | inserting a value that is not filed yet files it once, under its key, and nothing else changes |
| MultiMap.EraseIndexes | src/ClientList.cpp:241-296 | erasing removes the one entry of the value and nothing else |
| ClientList.Index.Add | src/ClientList.cpp:164-187 | one more entry and one more reference |
| ClientList.Index.Drop | src/ClientList.cpp:241-260 | finds the entry exactly if the client is filed under that key; one entry and one reference less, the client freed exactly if it was the last |
| ClientList.Index.Clear | src/ClientList.cpp:397-400 | every entry and every reference of the index go |
| ClientList.Client.Unlink | src/BaseClient.cpp:3435-3441 | dropping the last reference frees the client |
| ClientList.Client.SetUserIDHybrid | src/BaseClient.cpp:2737-2742 | the ID index follows; the client is freed on the way, and the list left with a dead entry, if and only if the ID entry was the last reference to it |
| ClientList.IdChangeCanBeTheEnd | src/ClientList.cpp:207-215 | a concrete listed client that does not survive learning its ID |
| ClientList.Client.SetIP | src/BaseClient.cpp:2744-2753 | the IP index follows, with no entry for 0; never frees the client and keeps the references others hold |
| ClientList.Client.SetUserHash | src/BaseClient.cpp:2755-2762 | the hash index follows, with no entry for an empty hash; never frees the client and keeps the references others hold |
| ClientList.Client.SafeDelete | src/BaseClient.cpp:386-415 | the client leaves all indexes and is dying; it is freed exactly if nothing but the list referred to it |
| ClientList.ClientList.AddClient | src/ClientList.cpp:164-187 | only a new client is listed; every listed client has exactly one ID entry under its current ID, one IP entry iff its IP is non-zero, one hash entry iff its hash is valid, and there are no stale entries |
| ClientList.ClientList.RemoveClient | src/ClientList.cpp:189-205 | all entries of the client go, the others stay; not freed while the caller holds a reference |
| ClientList.ClientList.RemoveIPFromList | src/ClientList.cpp:262-278 | drops the entry under the current IP, if any |
| ClientList.ClientList.RemoveHashFromList | src/ClientList.cpp:280-296 | drops the entry under the current hash, if any |
| ClientList.ClientList.UpdateClientID | src/ClientList.cpp:207-215 | re-files a listed client under the new ID, through a moment without an entry |
| ClientList.ClientList.UpdateClientIP | src/ClientList.cpp:217-227 | re-files a listed client under the new IP, or under none |
| ClientList.ClientList.UpdateClientHash | src/ClientList.cpp:229-239 | re-files a listed client under the new hash, or under none |
| ClientList.ClientList.FindMatchingClient | src/ClientList.cpp:298-390 | null if and only if no listed client has the same non-zero address and a port in common, the same ID (a low one on the same server, a high one with a port in common) or the same hash; otherwise such a client, by address if any is, else by ID if any is, a port before a Kad port |
| ClientList.MatchesIsSamePeer | src/ClientList.cpp:298-390 | the five ways to match are together exactly: same address, same ID, or same hash |
| ClientList.ClientList.FindLowID | src/ClientList.cpp:308-342 | a client with the same IP and a port or Kad port in common, or the same ID on the same server; null exactly if there is none |
| ClientList.ClientList.FindHighID | src/ClientList.cpp:343-377 | a client with the same IP or the same ID and a port or Kad port in common, tried in that order; null exactly if there is none |
| ClientList.ClientList.DeleteAll | src/ClientList.cpp:397-409 | terminates with all three indexes empty and every listed client dying |
| KadBuddy.BuddyList.Process | src/ClientList.cpp:574-755 | one cycle over the sources in some order; then the buddy is lost if none was met, and if it is of no use (Kad not connected, or neither side firewalled) it is Idle, and no other source changes; the invariant holds after it |
| KadBuddy.BuddyList.VisitSource | src/ClientList.cpp:584-698 | each Kad state does what its branch says, the current source possibly deleting itself |
| KadBuddy.BuddyList.Conclude | src/ClientList.cpp:700-754 | a buddy not met on the walk is unlinked; one of no use becomes Idle; nothing else changes |
| KadBuddy.BuddyList.RemoveFromKadList | src/ClientList.cpp:989-1000 | leaving the sources takes the buddy's place with it |
| KadBuddy.BuddyList.AddToKadList | src/ClientList.cpp:1002-1008 | added once, in the state it has |
| KadBuddy.RunKeepsInv | src/ClientList.cpp:574-755 | in every reachable state the status is Connected if and only if a buddy is linked, and the buddy is one of the sources |
| KadBuddy.EachHasItsFate | src/ClientList.cpp:584-698 | in a cycle each source is visited once and ends in the state that its own state, the status then and its contact decide, whatever the others do |
| KadBuddy.SilenceIsLoss | src/ClientList.cpp:584-713 | a cycle takes the list to have neither buddy nor attempt if and only if no source it met was a buddy, being tried, or tried now |
| KadBuddy.OthersGiveWay | src/ClientList.cpp:640-698 | while a buddy stays connected, every source queued, incoming or connecting as a buddy is idle after the cycle |
| KadBuddy.UselessIsIdle | src/ClientList.cpp:700-754 | after every cycle a buddy still linked is Idle if it is of no use; otherwise the end of the cycle changes no source |
| KadBuddy.BuddyIsKept | src/ClientList.cpp:684-713 | a connected buddy that is a source when the cycle begins is the buddy when it ends |
| KadBuddy.IdleBuddyGoes | src/ClientList.cpp:690-713 | a buddy left Idle is no source and no buddy after the next cycle |
| KadBuddy.AssertedExactly | src/ClientList.cpp:574-698 | the assertion on the walk holds throughout a cycle begun while connecting; begun while disconnected, if and only if Kad is off or the first source met that is queued, tried or connected as a buddy is not one being tried; begun while connected, if and only if Kad is off, the buddy is not dropped at its visit, or that holds of the walk behind it |
| KadBuddy.TriedWhileDisconnected | src/ClientList.cpp:665-675 | a run from nothing after which a cycle reaches the assertion and fails it |
| KadBuddy.StaleClears | src/ClientList.cpp:700-713 | with no source connecting or connected, a stale Connecting clears in one cycle |
| KadBuddy.QueuedIsTried | src/ClientList.cpp:647-663 | from Disconnected with nobody in hand a cycle contacts exactly the first queued source it meets, or nobody if none is queued |
| KadBuddy.QueuedWithinTwo | src/ClientList.cpp:577-713 | a source queued behind a stale attempt sees a queued source contacted within two cycles |
| CallbackRequests.CallbackLimiter.AddTrackCallbackRequests | src/ClientList.cpp:1168-1180 | the request joins the history; only what is older than the window is pruned |
| CallbackRequests.CallbackLimiter.AllowCallbackRequest | src/ClientList.cpp:1182-1193 | the pruned list answers as the full history would |
| CallbackRequests.CallbackLimiter.DirectCallbackRequest | src/ClientUDPSocket.cpp:533-578 | accepted if and only if requests are accepted at all and the address was quiet for the whole window |
| CallbackRequests.AcceptedAreSpaced | src/ClientUDPSocket.cpp:533-578 | over every run two accepted requests from one address are at least three minutes apart |
| CallbackRequests.AcceptedArrived | src/ClientUDPSocket.cpp:533-578 | everything accepted did arrive while requests were accepted |
| CallbackRequests.RefusedOnlyIfRecent | src/ClientUDPSocket.cpp:533-578 | nothing that arrives while requests are accepted is refused unless an earlier one from its address was accepted less than three minutes before |
| CallbackRequests.Serve | src/ClientUDPSocket.cpp:533-578 | for any clock that never goes back the limiter accepts exactly what the full history would |
| BanRecord.LastBanIsTheLast | src/BanRecord.h:87-128 | the standing ban of an address is its last ban with nothing said about it since; zero is never banned |
| BanRecord.BanRecord.Ban | src/BanRecord.h:87-95 | zero is refused; true exactly when the record grew by one; a refresh extends the ban |
| BanRecord.BanRecord.Unban | src/BanRecord.h:100-100 | true exactly when the record shrank by one |
| BanRecord.BanRecord.IsBanned | src/BanRecord.h:108-128 | the answer of the full history, whatever queries and sweeps ran before; says whether it forgot a lapsed ban |
| BanRecord.BanRecord.DropLapsed | src/BanRecord.h:136-150 | keeps exactly the bans that have not lapsed and counts the others |
| BanRecord.LapsedForgotten | src/BanRecord.h:108-150 | forgetting lapsed bans changes no answer from then on |
| BanRecord.BannedClients.AddBannedClient | src/ClientList.cpp:761-770 | the statistic equals the number of banned addresses |
| BanRecord.BannedClients.IsBannedClient | src/ClientList.cpp:772-782 | the statistic follows what the lookup dropped, not what it answered |
| BanRecord.BannedClients.RemoveBannedClient | src/ClientList.cpp:784-792 | the statistic equals the number of banned addresses |
| BanRecord.BannedClients.Process | src/ClientList.cpp:545-558 | at most one sweep per 20 minutes, after which no lapsed ban is left and the statistic fits |
| ChatSessions.RunOk | src/ChatSessionStore.cpp:32-131 | in every run short of 2^32 messages: distinct conversations in strictly descending order of last message, at most 50 of them with 1 to 200 messages each, ids strictly rising inside one and never shared between two |
| ChatSessions.AddedOk | src/ChatSessionStore.cpp:66-90 | one more message keeps that order if and only if the 32-bit id does not wrap |
| ChatSessions.RunAbridges | src/ChatSessionStore.cpp:66-80 | the cap on messages only ever cuts the oldest ones of a conversation and changes nothing else |
| ChatSessions.HoldsLastOfTalk | src/ChatSessionStore.cpp:32-101 | after any run the conversations are those the events leave alive, in order of last touch, and each holds the last min(200, n) of the n messages said in it since it was last created, the last name given in it since then, and the time of its last message |
| ChatSessions.FiftyMostRecent | src/ChatSessionStore.cpp:32-64 | when nobody closes one, the conversations kept are exactly the 50 most recently touched, in that order |
| ChatSessions.RecencyIsByLastTouch | src/ChatSessionStore.cpp:32-64 | that order lists exactly the conversations touched, by their last touch |
| ChatSessions.ClosedOk | src/ChatSessionStore.cpp:92-101 | closing removes exactly the one conversation and keeps the order |
| ChatSessions.ChatSessionStore.Touch | src/ChatSessionStore.cpp:32-64 | moves a conversation to the front or adds it there, name kept unless a new one is known |
| ChatSessions.ChatSessionStore.Append | src/ChatSessionStore.cpp:66-80 | the next id, at the end of the front conversation, oldest messages dropped beyond 200 |
| ChatSessions.ChatSessionStore.AddIncoming | src/ChatSessionStore.cpp:82-85 | touch with the name and append as incoming |
| ChatSessions.ChatSessionStore.AddOutgoing | src/ChatSessionStore.cpp:87-90 | touch without a name and append as outgoing |
| ChatSessions.ChatSessionStore.CloseSession | src/ChatSessionStore.cpp:92-101 | true exactly if there was such a conversation |
| ChatSessions.ChatSessionStore.EvictSessionsIfNeeded | src/ChatSessionStore.cpp:123-131 | the first 50 stay |
| BitVector.BitVector.Get | src/BitVector.h:52-59 | the bit, or false out of range |
| BitVector.BitVector.Set | src/BitVector.h:62-79 | changes exactly the one bit; the cache forgets a no when a bit is set and says no when one is cleared |
| BitVector.BitVector.SetSize | src/BitVector.h:92-107 | that many bits of the one value |
| BitVector.BitVector.Clear | src/BitVector.h:82-89 | no bits, cache at no |
| BitVector.BitVector.AllTrue | src/BitVector.h:110-132 | if the cache does not know, it is set to whether every bit is true, whatever the padding holds; the bits do not change |
| BitVector.BitVector.SetAllTrue | src/BitVector.h:135-140 | every bit true, the cache untouched |
| BitVector.BitVector.SetBuffer | src/BitVector.h:150-156 | the bits packed in the source bytes, cache unknown |
| BitVector.BitVector.GetBuffer | src/BitVector.h:144-146 | bytes that unpack to the same bits |
| BitVector.NextTruthful | src/BitVector.h:62-156 | an operation keeps the cache truthful if and only if it is not setting everything while the cache says no |
| BitVector.RunTruthful | src/BitVector.h:62-156 | in every run, a non-empty vector answers that all bits are true if and only if they are, unless everything was set while the cache said no and no bit was put, nothing sized, cleared or loaded since; then it answers wrong |
| BitVector.FilledUnseenLies | src/BitVector.h:135-140 | a new vector of false bits, all set at once, has every bit true and answers no |
| BitVector.EmptyDependsOnHistory | src/BitVector.h:82-156 | in every run, an empty vector answers yes if and only if of clearing, sizing and loading it, loading came last |
| RowLists.ClientHistoryList.SetRows | src/ClientHistoryListCtrl.cpp:105-127 | the online set marks exactly the online rows; the hash index is the inverse of the rows if and only if no two rows share a hash |
| RowLists.ClientHistoryList.AppendLiveRow | src/ClientHistoryListCtrl.cpp:129-166 | one new row at the end, indexed, its name cell showing the hash if there is no name |
| RowLists.HashesReadDifferently | src/MD4Hash.h:145-160 | two 128-bit hashes written out in hexadecimal read the same if and only if they are the same |
| RowLists.HexTellsApart | src/MD4Hash.h:145-160 | the same for numbers of any width |
| RowLists.HexIsTheNumber | src/OtherFunctions.cpp:372-382 | the text is the number in capital hexadecimal digits, leading zeros included |
| RowLists.ClientHistoryList.ReconcileOne | src/ClientHistoryListCtrl.cpp:178-241 | a known peer has its row patched where it is, an unknown one gets a new row |
| RowLists.ClientHistoryList.ReconcileLive | src/ClientHistoryListCtrl.cpp:168-264 | an online row whose peer is gone is offline, last seen now, both speeds 0, all else kept; an offline one is untouched; the row of a peer that is there has the live figures, its identity kept while the live name is empty, and its first sighting kept if it has one; each peer met first has one new row; the online set marks exactly the rows of the peers there, the hash index still inverse |
| RowLists.ReconciledIs | src/ClientHistoryListCtrl.cpp:168-264 | the same of one row, field by field |
| RowLists.ClientsList.RowFor | src/ClientsListCtrl.cpp:100-106 | the row of that id, the last one if several share it |
| RowLists.ClientsList.ReindexRows | src/ClientsListCtrl.cpp:108-115 | the index leads from each id to its row |
| RowLists.ClientsList.SetClients | src/ClientsListCtrl.cpp:117-173 | rows without an id are dropped; the same peers are overwritten where they sit, otherwise all rows are replaced; the index fits either way |
| RowLists.UpdatedIsReplaced | src/ClientsListCtrl.cpp:117-173 | the in-place path leaves the same map from ids to rows as replacing everything if and only if the rows that were there had distinct ids |
| RowLists.DuplicateHidesAPeer | src/ClientsListCtrl.cpp:128-158 | two rows with one id hide the arrival of another peer |
| BarShader.PixelsInBar | src/BarShader.cpp:129-133 | 0 <= first pixel <= last pixel < width |
| BarShader.CoverageIsOverlap | src/BarShader.cpp:135-149 | each fraction blended lies in [0, 1] and is what the range covers of that pixel; whole pixels between, none outside |
| BarShader.CoverageAddsUp | src/BarShader.cpp:113-150 | total coverage is (min(end + 1, size) - start) * width / size |
| BarShader.BarShader.FillRange | src/BarShader.cpp:113-150 | an empty range or one past the file changes nothing; otherwise each pixel takes the colour in proportion to its coverage as long as no 64-bit product is cut; even then only pixels of the bar are drawn, and the program writes past them if and only if the bar has width 0 |
| BarShader.NothingIsCut | src/BarShader.cpp:113-133 | no product is cut for a file within the network's limit and a bar narrower than 2^26 |
| BarShader.DrawFlat | src/BarShader.cpp:161-183 | every row equals row 0 unless the last copy overlaps its source, which happens if and only if the height is 2^k + 1 with k >= 1 |
| ClientsMet.CreditRoundTrip | src/ClientCredits.h:37-60 | a 119-byte credit record gives back all its fields, both 64-bit totals split over four words |
| ClientsMet.CreditCodec | src/ClientCreditsList.cpp:88-194 | a record reads back whatever follows it, and not at all if it is cut |
| ClientsMet.EntryCodec | src/ClientCreditsList.cpp:196-257 | a metadata entry reads back whatever follows it, and not at all if it is cut anywhere, its name included |
| ClientsMet.PatchCount | src/ClientCreditsList.cpp:259-313 | patching the count in place changes nothing but the count |
| ClientsMet.LoadOfSave | src/ClientCreditsList.cpp:88-366 | a saved file cut anywhere after its last credit record gives back every credit with traffic that has not expired, and the metadata of the entries before the cut; one impossible key size and nothing is loaded |
| ClientsMet.RoundTrip | src/ClientCreditsList.cpp:88-366 | a saved file gives back every such credit with its metadata, of its name the first 64 characters |
| ClientsMet.SavedComesBack | src/ClientCreditsList.cpp:88-366 | field by field: a client comes back if and only if it had traffic in either direction and has not expired, with its credit and, if first seen, its metadata; nothing comes back if a key is too long |
| ClientsMet.OneRecordEach | src/ClientCreditsList.cpp:259-313 | as many records as clients with traffic in either direction |
| ClientsMet.ExpiryIsADate | src/ClientCreditsList.cpp:141-141 | while seconds fit in 32 bits, expired means not seen for more than 150 days |
| ClientsMet.CreditLies | src/ClientCreditsList.cpp:281-297 | where each field of a credit record lies, byte by byte, low and high words of the totals apart |
| ClientsMet.EntryLies | src/ClientCreditsList.cpp:336-359 | where each field of a metadata entry lies, byte by byte |
| ClientsMet.HeadsLie | src/ClientCreditsList.cpp:276-340 | the version and count at the head of the file, the magic, version and count at the head of the trailer |
| ClientsMet.LoadOfCutSave | src/ClientCreditsList.cpp:88-194 | a saved file cut inside its records gives back the credits of the records before the cut that have not expired, without metadata |
| ClientsMet.NameComesBack | src/ClientCreditsList.cpp:354-359 | metadata comes back as it was if and only if its name has at most 64 characters, no NUL, and no byte order mark in front |
| Strings.Utf8RoundTrip | src/SafeFile.cpp:224-251 | every text comes back from its UTF-8 form |
| Strings.RuneBits | src/SafeFile.cpp:224-251 | each character takes the bytes, and has its bits in them, that the table of RFC 3629 says |
| Strings.OnlyUtf8Decodes | src/SafeFile.cpp:224-251 | bytes decode to a text if and only if they are its UTF-8 form |
| Strings.MalformedIsLatin1 | src/SafeFile.cpp:224-251 | what is not UTF-8 is read byte by byte as Latin-1 |
| Strings.ReadsBack | src/SafeFile.cpp:202-251 | a stored string reads back up to its first NUL, less a byte order mark in front |
| Strings.ReadsBackWhole | src/SafeFile.cpp:308-381 | it reads back as it was if and only if it has neither |
| ClientsMet.ClientCreditsList.SaveList | src/ClientCreditsList.cpp:259-313 | the file is the patched count, the records and the trailer; a load gives back exactly the clients with traffic in either direction that have not expired, their credits as they were and, if first seen, their metadata; nothing if the key of one with traffic is too long |
| ClientsMet.ClientCreditsList.SaveRecords | src/ClientCreditsList.cpp:259-313 | one record for each client with traffic in either direction, and the count is how many there are |
| ClientsMet.ClientCreditsList.SaveMetaTrailer | src/ClientCreditsList.cpp:315-366 | nothing when no credit carries metadata; otherwise header, count and one entry for each that has both |
| ClientsMet.ClientCreditsList.LoadList | src/ClientCreditsList.cpp:88-194 | what the bytes say, expired credits left out, everything dropped on an impossible key size, records before an early end kept |
| ClientsMet.ClientCreditsList.LoadSaved | src/ClientCreditsList.cpp:88-366 | a list saved and loaded into an empty one at any later time: what comes back is as above, for the expiry of that time |
| ClientsMet.ClientCreditsList.LoadMetaTrailer | src/ClientCreditsList.cpp:196-257 | a missing, foreign or cut trailer never changes a credit record, and every entry read in full is attached to its client if that is known |
| ClientsMet.TrailerKeepsCredits | src/ClientCreditsList.cpp:196-257 | whatever bytes follow the records, reading them as a trailer costs no client and changes no credit |
| RecordLists.DecodesAll | src/ClientCreditsList.cpp:88-194 | a written list of records reads back whole, whatever follows |
| RecordLists.DecodesPrefix | src/ClientCreditsList.cpp:196-257 | a list of records cut anywhere gives back exactly those wholly before the cut |

## Left out

- BrowseLifecycle.BarValue: does not model overflow of `done * 100` in a C++ `int`; a packet cannot name that many directories.
- The references `BrowseManager` holds are map entries; the reference count behind them is modelled in `ClientList` only.
- CFileBuffer.CFile.Destroy: a drain that throws inside the destructor ends the process and is modelled as `aborted`.
- CFileBuffer.CFile.Seek: 64-bit overflow of offsets is not modelled.
- FileSessions.SaveSafely: assumes the old file and the temporary one are not hard links to each other, and does not model what a crash of the machine leaves on disk.
- Names of files are plain strings: conversion to the file system's encoding, embedded NULs, permissions, and Windows path roots are not part of this model. `CFile`'s mutex is dropped by treating each method as atomic.
- BrowseListModel.BrowseListModel.RebuildFolders: nodes are known by their key instead of their address, and the subfolders of a node come in no particular order, where the program has them in the order of their keys; the control sorts them anyway.
- BrowseListModel.BrowseListModel.GetChildren: what the filter lets through, and which results group which, are given by the caller.
- ClientList.ClientList.FindMatchingClient: the null argument is excluded by type; the debug assertions inside are consequences of the index invariant.
- ClientList.Client.Unlink: the reference count is unbounded here and 16 bits wide in the program.
- ClientList.Client.SafeDelete: sockets, queues, friends, browses and the call from another thread are left out; of the references these drop, only their number matters here.
- ClientList.ClientList.DeleteAll: `Disconnected` is left out; it may drop references of others but not those of the list.
- KadBuddy.BuddyList.Process: pings, notifications, the search for a new buddy and the packets sent are left out; what contacting a client does to it is a parameter. The order of the walk, which is by address, is any order. References held by the Kad sources are not counted.
- KadBuddy.StaleClears: assumes that contacting a source for a firewall check does not turn it into a buddy within the same call.
- CallbackRequests.CallbackLimiter.AllowCallbackRequest: assumes a clock that never goes back, as the unsigned subtraction in the program does. The list of Kad firewall checks has the same shape and is not modelled separately.
- BanRecord.BanRecord.IsBanned: ticks are unbounded; the program's 64-bit sum `start + duration` does not wrap for any real clock.
- ChatSessions.ChatSessionStore.Touch: the address and port derived from the conversation's id are left out, and timestamps are given by the caller.
- BitVector.BitVector.Get: the debug failure on an index out of range is left out.
- RowLists.ClientHistoryList.ReconcileLive: refreshing and re-sorting the control are left out; badges are part of the identity.
- BarShader.BarShader.FillRange: doubles are read as reals, and how a colour is blended is a parameter. What is said of each pixel's share holds unless the 64-bit product is cut, which takes a file beyond the network's limit (`BarShader.NothingIsCut`). What the write past a bar of width 0 hits is not modelled, only that it happens.
- BarShader.DrawFlat: copies whole rows instead of bytes; what an overlapping `memcpy` leaves behind is unspecified. The rounded bar is left out.
- ClientsMet.ClientCreditsList.SaveList: the order of the walk over the store is a parameter; I/O errors, the backup copy and the read of the clock are left out.
- ClientsMet.ClientCreditsList.LoadList: is called once, on an empty list, as the program does; signing and key handling are left out.
- Strings.StringFrom: decodes as RFC 3629 has it; what the toolkit makes of malformed UTF-8 is not part of this model, nor are lone surrogates or 16-bit characters.
- FileSessions.RunSessions: one file at a time, on a file system without hard links.
- The rest of the program (networking, encryption, searching, the download and upload queues, the user interface) is not part of this model.
