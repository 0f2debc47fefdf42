# Verified models of libpurple and Finch state

This project models nine pieces of hand-written state in libpurple and Finch and proves what they
promise. Each piece is a value with functions on it, about which the laws are lemmas, and, where the
C code changes things in place, a class whose methods are proved to do the same to their fields.

| file | what it models |
|---|---|
| `CircularRing.dfy`, `CircularBuffer.dfy` | the growing byte ring: it is an unbounded queue, except in one state |
| `BuddyList.dfy` | the buddy list's pointers and the stackless walk over them |
| `FinchRules.dfy`, `FinchRedraw.dfy`, `FinchView.dfy` | which nodes Finch shows, kept up to date by mutually recursive procedures under any run of events |
| `Counting.dfy`, `BuddyIcons.dfy` | buddy icon records, their index and reference counts, and the counts of cached files |
| `Counting.dfy`, `OnlineCounts.dfy` | the online counters of contacts and groups, under status reports and connections that open and close |
| `PrivacyRules.dfy`, `AccountPrivacy.dfy` | allow and deny in five modes, and the server's copy |
| `UserSplits.dfy` | composing account names from parts and taking them apart |
| `Decimal.dfy`, `AccountXml.dfy`, `ProxyXml.dfy` | saving and loading account settings and proxies |
| `Basics.dfy` | names, options and lists, for the other modules |
| `AuthRequests.dfy` | the life of authorization requests, under re-entrant calls |
| `Reconnect.dfy` | Finch's reconnect back-off and its timers |
| `AccountOrder.dfy` | moving accounts up and down the list |
| `IconScale.dfy` | scaling icons, on exact rationals |

`dafny verify dfyconfig.toml` checks the whole project.

## What the code does not keep

These are places where the code falls short of what it is for. Each has a member that names an
input for which it does, and one that says exactly when the code keeps what it is for.

- The circular buffer loses bytes when it grows while drained with its input pointer at the end:
  `DrainedGrowthExample`; exactly when, `AppendIsFifoExactlyWhen`.
- `purple_circular_buffer_reset` forgets to clear the count: `ResetExample`; `ResetNeedsEmpty`.
- A buddy that signs off stays on Finch's screen, with its contact and group, until an idle callback
  or a timer has run: `SignOffExample`; the if-and-only-if of `PresenceChanged`. `Run` shows that
  this is all that is ever wrong, and for how long.
- Reading a cached icon from disk breaks the per-file counts: `FindExample`; the last clauses of
  `Find`, with `FindShows`, and of `SetForUser`, with `SettingKeepsCounts`.
- Showing an image while caching is switched off breaks them too: `LossExample`; the last clauses of
  `Update`, with `LossShows`, and of `SetForUser`, with `SettingKeepsCounts`. With both
  faults at once counts stay exact if the file is empty, or if it is unreadable and another buddy of
  the name had the setting that makes up for it: `ExactWithoutCaching`.
- An icon that is loaded, or read from disk, and gets another image by `purple_buddy_icon_new` leaks
  the old image, whose file stays for good: `LeakExample`; exactly which image, the clause on
  `FoundImage` of `NewIcon`.
- Deactivating a tune or a mood of a buddy that is offline counts the buddy down once more, to -1:
  `TuneExample`; the if-and-only-if of `GotUserStatusDeactive`, from that of `UpdateStatus`.
- A buddy whose account disconnects and connects again is not counted if its presence is still
  online, as it is because setting it offline passes no attributes and is refused for that
  (libpurple/status.c:737): `ReconnectExample`; the if-and-only-if of `AddAccount`.
- Clearing an icon under another spelling of a buddy's name leaves the buddy pointing at it:
  `ClearingExample`; the clause of `SetForUser` on clearing.
- When a privacy list is emptied but for the user's own entry, that entry goes as well (and is put
  back) if it is not the first: `NotSparedExample`; `SparedExactlyWhenFirst`.
- A closing loop over the authorization requests goes on from an entry that is gone if the UI, while
  it is being told, has that entry taken off: `LostExample`; the first clauses of `Requests.Take`.
- A scaled icon can come out smaller than the minimum: `MinimumIsMissed`; the `ReachesMinimum`
  clause of `GetScaledSize`.
- Composing and splitting an account name are not inverse for every choice of separators:
  `AmbiguousExample` and `RecomposeExample`; `TakeApartInverts` and `RecomposesExactlyWhen`.
- Empty strings, empty UI tables and settings that a migration rewrites do not come back from
  disk, nor do proxies of a type without a name: `EmptyStringExample`, `EmptyTableExample`,
  `MigrationExample`, `UnnamedTypeExample`; `ComesBackExactlyWhen`, `ProxyComesBackExactlyWhen`.

## Model

| member | source | states |
|---|---|---|
| CircularRing.GrownLengthIsLeast | libpurple/circularbuffer.c:85-86 | growing adds a multiple of the grow size, the least one that leaves `len` bytes free; with it the loop ends because the grow size is never 0 |
| CircularRing.Relocate | libpurple/circularbuffer.c:105-118 | where each byte of the wrapped head lands, whether it fits behind the old end wholly or has to be split |
| CircularRing.ResizeMoves | libpurple/circularbuffer.c:88-118 | the byte at each queue position is found again after the memory was reallocated and the wrapped head moved |
| CircularRing.GrowKeepsContents | libpurple/circularbuffer.c:75-125 | growing never changes the queue, in every shape; the shape survives exactly if a drained buffer did not really grow |
| CircularRing.AppendAddsAtTheTail | libpurple/circularbuffer.c:127-167 | append puts exactly `src` behind the queue and keeps the three-shape invariant |
| CircularRing.DrainedGrowthBreaks | libpurple/circularbuffer.c:105-118 | what goes wrong when a drained buffer grows: the reader is offered bytes that are not buffered, or gets the middle of `src` first |
| CircularRing.AppendIsFifoExactlyWhen | libpurple/circularbuffer.c:127-167 | appending n bytes is appending to a queue, for all contents, if and only if no drained buffer has to grow for them |
| CircularRing.DrainedGrowthExample | libpurple/circularbuffer.c:105-118 | for every grow size: write it full, read it empty, write one byte more; the last byte is read next |
| CircularRing.MaxReadIsAPrefix | libpurple/circularbuffer.c:169-184 | the readable stretch is positive exactly when something is queued, lies in one piece and is a prefix of the queue |
| CircularRing.MarkReadDrops | libpurple/circularbuffer.c:186-211 | marking drops exactly that many bytes from the front, or nothing when refused |
| CircularRing.TwoReadsDrain | libpurple/circularbuffer.c:169-211 | two rounds of reading all that may be read empty any buffer |
| CircularRing.ResetNeedsEmpty | libpurple/circularbuffer.c:432-449 | resetting is sound on empty buffers and on no others |
| CircularRing.ResetExample | libpurple/circularbuffer.c:432-449 | one byte queued of three: after the reset the reader is offered three |
| CircularRing.RunIsFifo | libpurple/circularbuffer.c:127-211 | over any run of appends and reads: bytes read, then bytes queued, are what was queued at first, then everything written |
| CircularBuffer.PurpleCircularBuffer.constructor | libpurple/circularbuffer.c:216-226 | a new buffer is empty, and grow size 0 is the default |
| CircularBuffer.PurpleCircularBuffer.Grow | libpurple/circularbuffer.c:75-125 | the reallocating, copying code does to the fields what the functions say |
| CircularBuffer.PurpleCircularBuffer.Append | libpurple/circularbuffer.c:127-167 | the two copies do, in every case; and the queue grows by `src` |
| CircularBuffer.PurpleCircularBuffer.GetMaxRead | libpurple/circularbuffer.c:169-184 | a contiguous prefix of the queue |
| CircularBuffer.PurpleCircularBuffer.MarkRead | libpurple/circularbuffer.c:186-211 | refused exactly above the readable stretch, else that prefix of the queue is dropped |
| CircularBuffer.PurpleCircularBuffer.Reset | libpurple/circularbuffer.c:432-449 | the invariant survives exactly on an empty queue |
| BuddyList.GetNextNode | libpurple/blistnode.c:50-62 | the step of the walk stays within the list, and ends |
| BuddyList.WalkFollowsPreorder | libpurple/blistnode.c:50-62 | within any stretch of siblings the pointer walk is the recursive preorder, and leaves it to what follows the parent |
| BuddyList.WalkVisitsAllOnce | libpurple/blistnode.c:64-69 | from the root the walk visits every node of a well-formed list exactly once, in preorder, and ends |
| BuddyList.ParentsFirst | libpurple/blistnode.c:50-62 | a node is visited after its parent |
| BuddyList.NextNode | libpurple/blistnode.c:64-77 | the loop goes to the next node, or the next that is no buddy of a disconnected account, and ends |
| BuddyList.VisitShown | libpurple/blistnode.c:64-77 | from the root the repeated skipping walk visits exactly the nodes that are not skipped, each once, in preorder, and ends |
| FinchRules.AcceptsUp | finch/gntblist.c:156-203 | everything above an accepted node is accepted |
| FinchRules.ChangeIsRooted | finch/gntblist.c:156-203 | between any two worlds, a node loses its verdict only because a buddy or chat below it that changed loses its own, or because it is a fresh group |
| FinchRules.ChangeKeepsRoots | finch/gntblist.c:156-203 | so on a screen that misses nothing, what is then shown wrongly or missing still hangs on single buddies and chats |
| FinchRules.RemovedKeepsRoots | finch/gntblist.c:430-461 | a removal takes away only nodes shown for no reason, the node itself among them, and leaves none that hung on what it took |
| FinchRules.UpdatedKeepsRoots | finch/gntblist.c:463-509 | an update never adds a node that is not to be shown nor drops one that is, and shows a missing buddy or chat |
| FinchRules.UpdateAddsBuddies | finch/gntblist.c:494-500 | an update of a contact that is not shown, or of a buddy that does not bring its contact in, shows all its buddies that are to be shown |
| FinchView.RowsAfterDrop | finch/gntblist.c:443-444 | removing a row takes exactly the rows below it along, whose nodes keep their ui_data for the moment |
| FinchView.FinchBuddyList.CanAddNode | finch/gntblist.c:156-203 | the recursive test with its sibling loops decides visibility; what that means for the screen is `FaithfulShows` |
| FinchView.FinchBuddyList.FaithfulShows | finch/gntblist.c:156-203 | rows are those of a rebuilt view if and only if, by the fields alone: a chat is shown exactly while its account is connected; a buddy exactly while it is connected and online, or offline buddies are shown, or its timer runs, or it is flagged; a contact exactly above a shown buddy; a group exactly above something shown, or if fresh, or if empty groups are shown |
| FinchView.FinchBuddyList.TrackedShows | finch/gntblist.c:156-203 | so it is between any two steps, but for buddies that are still shown with a call or timer pending |
| FinchView.FinchBuddyList.AddNode | finch/gntblist.c:396-415 | adds an accepted node with all missing rows above it, each under its parent's row, and nothing else |
| FinchView.FinchBuddyList.FindParent | finch/gntblist.c:205-216 | answers the parent and makes sure it is shown if accepted |
| FinchView.FinchBuddyList.NodeRemove | finch/gntblist.c:430-461 | of any node not to be shown: exactly what hangs on it, or on a node above it that is not to be shown either, goes, with its timers; the recursion down, up and through node_update ends |
| FinchView.FinchBuddyList.NodeUpdate | finch/gntblist.c:463-509 | exactly which rows it adds or removes, per kind of node, on any screen; it ends |
| FinchView.FinchBuddyList.CheckRow | finch/gntblist.c:478-486 | a shown row sits under its parent's row, so the repair branch is not taken |
| FinchView.FinchBuddyList.ToggleShowOffline | finch/gntblist.c:1143-1152 | the buddy is not shown wrongly any more, whatever else waits; with nothing else waiting the rows are those of a rebuilt view |
| FinchView.FinchBuddyList.PresenceChanged | libpurple/buddy.c:369-434 | on a right screen the rows stay right if and only if the buddy is not shown, or its account is connected and it is online, or offline buddies are shown, or its timer runs, or it is flagged; else it alone is shown wrongly, with a call queued for it; an update whose old status is on the other side queues a call as well |
| FinchView.FinchBuddyList.SignedOnOff | finch/gntblist.c:2418-2441 | a shown buddy of a connected account is to be shown again until its timer runs out |
| FinchView.FinchBuddyList.RecentSignedOnOff | finch/gntblist.c:2397-2416 | when the timer runs out the buddy is not shown wrongly, nor is anything that hung on it |
| FinchView.FinchBuddyList.AddGroup | finch/gntblist.c:731-747 | a fresh group is shown even if empty, and the view stays as right as it was |
| FinchView.FinchBuddyList.RemoveNewEmptyGroups | finch/gntblist.c:511-529 | when the time of the fresh groups is over the view is as right as before, groups with leftovers below them included |
| FinchView.FinchBuddyList.RemoveAccount | libpurple/buddylist.c:1850-1932 | when an account's connection closes, its buddies and chats are off the screen, with every contact and group that was shown for them alone |
| FinchView.FinchBuddyList.AddAccount | libpurple/buddylist.c:1796-1848 | when it opens, all its chats are shown, and its buddies that have a reason; nothing is missing, and each group is shown exactly if it is to be |
| FinchView.FinchBuddyList.QuietIsFaithful | finch/gntblist.c:2397-2441 | when no call is queued and no timer runs, the rows are exactly those of a rebuilt view |
| FinchView.FinchBuddyList.Run | finch/gntblist.c:156-529 | over every run of these events in any order: nothing to be shown is ever missing between them, each wrongly shown buddy has a call or timer pending, and a quiet screen is a rebuilt view of the world as it is by then |
| FinchView.SignOffExample | libpurple/buddy.c:369-434 | the only online buddy signs off: its three rows are shown, and none is to be |
| FinchRedraw.BuddyIsThere | finch/gntblist.c:494-500 | in a redraw a buddy's contact has brought it in before the walk comes to it, or skips it |
| FinchView.FinchBuddyList.ResetAll | finch/gntblist.c:2003-2008 | the first walk leaves no node with ui_data |
| FinchView.FinchBuddyList.Populate | finch/gntblist.c:1883-1910 | the walk that skips buddies of disconnected accounts still shows exactly the accepted nodes |
| FinchView.FinchBuddyList.RedrawBlist | finch/gntblist.c:2003-2009 | from any screen: exactly the nodes to be shown, told by the fields alone, each under its parent's row |
| FinchView.FinchBuddyList.ChangePrefs | finch/gntblist.c:2042-2045 | and so after either preference changed |
| FinchView.FinchBuddyList.constructor | finch/gntblist.c:3035 | a list that is shown for the first time is right |
| Counting.NamedAfterPut | libpurple/buddyicon.c:106-138 | how the number of settings naming a file changes with one setting |
| BuddyIcons.IconCache.RefFilename | libpurple/buddyicon.c:106-117 | one file's count goes up by one |
| BuddyIcons.IconCache.UnrefFilename | libpurple/buddyicon.c:119-138 | one file's count goes down by one, dropping the entry at zero |
| BuddyIcons.IconCache.UncacheFile | libpurple/buddyicon.c:181-211 | deletes exactly files of count 0; with no count too low, never one that a setting names |
| BuddyIcons.IconCache.DropImage | libpurple/buddyicon.c:227-242 | with its last reference an image's file goes, if no setting is counted for it; no file of an image in use goes |
| BuddyIcons.IconCache.UnrefImage | libpurple/buddyicon.c:227-242 | the same for a reference that a caller gives back |
| BuddyIcons.IconCache.Rename | libpurple/buddyicon.c:407-435 | setting, counting the new and un-counting the old name leaves every count as exact as before |
| BuddyIcons.IconCache.UnrefIcon | libpurple/buddyicon.c:351-374 | the record and its index entry go with the last reference |
| BuddyIcons.IconCache.ReleaseIcon | libpurple/buddyicon.c:351-374 | a caller's reference is given back; the record lives on exactly if somebody still holds it |
| BuddyIcons.IconCache.CreateIcon | libpurple/buddyicon.c:284-311 | a record under a key that had none, with one reference; the index stays exact |
| BuddyIcons.IconCache.SetBuddyIcon | libpurple/buddy.c:66-88 | the buddy's reference moves; reference counts and index stay exact; no freed record is touched |
| BuddyIcons.IconCache.Update | libpurple/buddyicon.c:376-448 | all buddies of the name show the icon and name its file; all reference counts stay exact, the record goes exactly if unheld; what happens to every file count, and that exact counts stay exact if and only if caching is on, or there is no image, or no buddy had a setting |
| BuddyIcons.IconCache.SetData | libpurple/buddyicon.c:450-476 | the same for setting an image, also when clearing it drops the last holder |
| BuddyIcons.LossShows | libpurple/buddyicon.c:409-435 | un-counting without renaming keeps counts exact exactly if no buddy of that name has a file |
| BuddyIcons.IconCache.Find | libpurple/buddyicon.c:620-677 | which record is found, with which image and how many references: the one filed under the name as it is, else one with the image on disk; no other icon is altered; counts stay exact if and only if the disk is not read, or the file there is empty |
| BuddyIcons.FindShows | libpurple/buddyicon.c:653-671 | why: a readable file is un-counted, an unreadable one stays counted |
| BuddyIcons.IconCache.NewIcon | libpurple/buddyicon.c:313-339 | a record that shows the image, the one filed under the name if there is one, with a reference for the caller, and one too many if the disk was read; every file count, and the settings, afterwards; which image is leaked; no other icon is altered |
| BuddyIcons.IconCache.SetForUser | libpurple/buddyicon.c:527-576 | every buddy of the name shows the image and names its file, or names none; all other buddies keep their icons; nobody is left holding a reference, but for the one too many after reading from disk; every file count afterwards, and exactly when exact counts stay exact, by whether the disk is read, caching is on and what the file holds; clearing leaves no buddy with an icon if and only if the icon is filed under that spelling, or none had one; no other icon is altered; the image's file is on disk unless caching is off or writing fails; the file of the image it replaces is gone if nobody has or names it any more, and no other file of an image in use |
| BuddyIcons.ExactWithoutCaching | libpurple/buddyicon.c:527-576 | with caching off and a file on disk: counts stay exact if and only if the file is empty, or unreadable while exactly one more buddy of the name had the first one's file and none any other |
| BuddyIcons.ClearingExample | libpurple/buddyicon.c:557-575 | set as "Bob", cleared as "bob": the buddy still points at the icon |
| BuddyIcons.LossExample | libpurple/buddyicon.c:409-435 | an image, and with caching off another one: the counts are not exact |
| BuddyIcons.FindExample | libpurple/buddyicon.c:653-671 | a file read from disk: the counts are not exact |
| BuddyIcons.LeakExample | libpurple/buddyicon.c:331-336 | a second image for a loaded icon: nothing shows or names the first any more, and still it is held |
| BuddyIcons.IconCache.SetOwnIcon | libpurple/buddyicon.c:716-775 | account and custom icons: the setting names the file or nothing, counts stay exact, no named file is deleted; the holder has the new image; the old file is gone if nobody has the image or names the file any more, also when it was not loaded |
| BuddyIcons.IconCache.Run | libpurple/buddyicon.c:284-576 | over every run outside the disk-load branch, with caching on: every reference count, the index and every file count stay exact, and no file is deleted while a setting names it |
| BuddyIcons.IconCache.constructor | libpurple/buddyicon.c:965-1040 | the tables before anything is loaded; references and index are exact |
| BuddyIcons.IconCache.LoadSettings | libpurple/buddyicon.c:965-1040 | settings of missing files are dropped and the others counted |
| BuddyIcons.IconCache.Startup | libpurple/buddyicon.c:965-1040 | after both loaded callbacks every count is exact, which is where `Run` starts |
| OnlineCounts.CountingNodes.UpdateStatus | libpurple/buddy.c:369-418 | each contact counts its online buddies, each group its contacts with a count and its chats of connected accounts: kept, for any old status the caller passes, if and only if that is what the presence was before (or, for a buddy that is not connected, as online as the new one) |
| OnlineCounts.CountingNodes.ChangeOnlineCounts | libpurple/buddy.c:397-399 | the group's count is right through every change of one contact's count between numbers from 0 up |
| OnlineCounts.ActivatedIsActive | libpurple/status.c:608-638 | a report that changes anything makes its status the active one, and takes the flag from the one before only if it is exclusive |
| OnlineCounts.CountingNodes.GotUserStatus | libpurple/protocols.c:180-227 | a reported status keeps all counts of a connected buddy |
| OnlineCounts.CountingNodes.GotUserStatusDeactive | libpurple/protocols.c:230-262 | a deactivated status keeps them if and only if it was not set, or is as online as the presence |
| OnlineCounts.CountingNodes.RemoveAccount | libpurple/buddylist.c:1850-1938 | when a connection closes, both loops leave the counts right |
| OnlineCounts.CountingNodes.AddAccount | libpurple/buddylist.c:1796-1848 | when it opens, the chats are counted, and all is right if and only if no buddy's presence is online already |
| OnlineCounts.CountingNodes.Run | libpurple/buddy.c:369-418 | over every run of reports and connections the counts are right up to the first event of the two kinds that break them |
| OnlineCounts.CountingNodes.constructor | libpurple/buddylist.c:1796-1848 | with nobody connected all counts are right |
| OnlineCounts.TuneExample | libpurple/protocols.c:255-257 | available, tune, mood, offline, and the tune is deactivated: the contact counts -1 |
| OnlineCounts.ReconnectExample | libpurple/buddylist.c:1934-1937 | an online buddy of an account that connects again is not counted |
| PrivacyRules.AllowIsOnePoint | libpurple/account.c:2444-2488 | after allow the check is TRUE for that user and as before for every other normalized name, in all five modes |
| PrivacyRules.DenyIsOnePoint | libpurple/account.c:2490-2534 | after deny it is FALSE for that user and as before for all others |
| PrivacyRules.ChangesExactlyWhen | libpurple/account.c:2444-2534 | a call that would change no verdict leaves mode and lists alone, and any other changes them |
| PrivacyRules.AllowLists | libpurple/account.c:2444-2488 | mode and lists after allow, in each mode: only the list asked is touched, and a new mode starts from a list of the user alone, or of the buddies and the user |
| PrivacyRules.DenyLists | libpurple/account.c:2490-2534 | and after deny |
| PrivacyRules.PermitBuddiesIsTheBuddyList | libpurple/account.c:450-479 | the rebuilt permit list permits exactly the buddies, each once |
| PrivacyRules.LastCallDecides | libpurple/account.c:2444-2584 | over any run of calls the last one about a user decides the check, else the settings at the start |
| PrivacyRules.SparedExactlyWhenFirst | libpurple/account.c:2462-2469 | of a list emptied but for one entry that entry is left if and only if it comes first, because the name compared with lies in a buffer that each removal overwrites |
| PrivacyRules.NotSparedExample | libpurple/account.c:2462-2469 | of two entries the second is not spared |
| AccountPrivacy.PurpleAccount.constructor | libpurple/account.c:966 | a new account allows everybody, with clean lists |
| AccountPrivacy.PurpleAccount.EmptyPermit | libpurple/account.c:2459-2469 | the loop that deletes while iterating and overwrites what it compares with leaves that, mirrored on the server |
| AccountPrivacy.PurpleAccount.EmptyDeny | libpurple/account.c:2499-2507 | the same for the deny list |
| AccountPrivacy.PurpleAccount.PermitAdd | libpurple/account.c:2275-2313 | the normalized name is in the list once; the server is told |
| AccountPrivacy.PurpleAccount.PermitRemove | libpurple/account.c:2315-2358 | its entry is out; the server is told |
| AccountPrivacy.PurpleAccount.DenyAdd | libpurple/account.c:2360-2397 | the same for the deny list |
| AccountPrivacy.PurpleAccount.DenyRemove | libpurple/account.c:2399-2442 | the same, the server being told the stored name |
| AccountPrivacy.PurpleAccount.PassPermit | libpurple/account.c:2464-2469 | deleting while iterating takes out the entry just left, never one the cursor has ahead |
| AccountPrivacy.PurpleAccount.AddAllBuddiesToPermitList | libpurple/account.c:450-479 | both loops leave the rebuilt list, mirrored on the server |
| AccountPrivacy.PurpleAccount.Allow | libpurple/account.c:2444-2488 | lists and mode as the rules say, the verdicts changed at one point, and the server mirror kept |
| AccountPrivacy.PurpleAccount.Deny | libpurple/account.c:2490-2534 | likewise |
| AccountPrivacy.PurpleAccount.PrivacyCheck | libpurple/account.c:2558-2586 | the check by searching the lists gives the verdict |
| UserSplits.CutIsRight | finch/gntaccount.c:346-356 | the cut at a separator is right exactly when the value, or for a forward split the text before, lacks it |
| UserSplits.TakeApartInverts | finch/gntaccount.c:313-366 | splitting a composed name gives base and values back if and only if every split is unambiguous |
| UserSplits.EntryIsCutFromRest | finch/gntaccount.c:336-366 | each entry is what the cuts of the later splits have left, cut at its own separator |
| UserSplits.AmbiguousExample | finch/gntaccount.c:346-356 | "a@b" at "h" comes back as "a" at "b@h" |
| UserSplits.SavedNameComesBack | finch/gntaccount.c:125-143 | so every non-empty typed value comes back, and the default where nothing was typed |
| UserSplits.FullySplitRecomposes | finch/gntaccount.c:125-143 | a fully split name, with constant splits at their defaults, is composed again as it was |
| UserSplits.RecomposesExactlyWhen | finch/gntaccount.c:313-366 | without constant splits, or with constant ones looked for from the end and no default that hides a separator looked for from there, a name survives splitting and composing if and only if it is fully split |
| UserSplits.RecomposeExample | finch/gntaccount.c:125-143 | "a" without its separator is composed as "a@h" |
| UserSplits.AccidentExample | finch/gntaccount.c:125-143 | with other constant splits a name that is not fully split can come out as it was |
| UserSplits.SaveAccount | finch/gntaccount.c:112-143 | the appending loop composes so, and refuses an empty user name and nothing else |
| UserSplits.UpdateUserSplits | finch/gntaccount.c:336-366 | the loop that cuts the name in place from the last split takes it apart so; the user name is the front of the name; without the separator, and for a new account, an entry gets its default, or nothing |
| Decimal.AtoiReadsPrint | libpurple/accounts.c:178 | atoi of what printf wrote is the number, over all 32-bit integers |
| Decimal.AtoiReadsNumber | libpurple/accounts.c:178 | space in front and anything but a digit behind a number does not matter |
| Decimal.AtoiWraps | libpurple/accounts.c:178 | numbers above 32 bits lose their high bits, those above 64 bits are taken for the largest |
| AccountXml.TableComesBack | libpurple/account.c:728-757 | whatever the order of the table, parsing what was printed gives it without NULL and empty strings |
| AccountXml.OtherTexts | libpurple/accounts.c:139-195 | truth values by the first character, and settings without name, data or a known type are passed over |
| AccountXml.MigrateIsIdempotent | libpurple/accounts.c:91-129 | the two migrations, repeated after every settings element, settle at once |
| AccountXml.MigrationsSettle | libpurple/accounts.c:91-129 | no ICQ account stays on an old server, a secure one stays secure, XMPP gets a security setting, nothing else changes |
| AccountXml.IcqMigration | libpurple/accounts.c:91-112 | exactly which ICQ servers become which: both without encryption the new one, the secure one the new secure one |
| AccountXml.XmppMigration | libpurple/accounts.c:114-129 | an XMPP account that says nothing of its security gets old_ssl if it used that, opportunistic_tls only if it had switched TLS off, else require_tls |
| AccountXml.NeverWeakened | libpurple/accounts.c:114-129 | no account comes to do without required encryption unless its user had said so |
| AccountXml.AccountComesBack | libpurple/account.c:843-852 | a saved account is loaded with all core and UI settings, in any order, up to empty strings and migrations |
| AccountXml.MigratesExactlyWhen | libpurple/accounts.c:91-129 | the migrations change something if and only if one of their guards holds |
| AccountXml.ComesBackExactlyWhen | libpurple/accounts.c:131-201 | whatever the order of writing, a saved account is loaded as it was if and only if no string and no UI table is empty and neither guard of the migrations holds |
| AccountXml.EmptyStringExample | libpurple/account.c:644-693 | an empty string is lost |
| AccountXml.EmptyTableExample | libpurple/account.c:728-757 | an empty UI table is lost |
| AccountXml.MigrationExample | libpurple/accounts.c:91-112 | an old ICQ server is replaced |
| AccountXml.PurpleAccount.ParseSettings | libpurple/accounts.c:131-201 | the parse loop fills exactly the named table and then migrates |
| AccountXml.TableToXmlnode | libpurple/account.c:843-847 | the printing loop writes one element per setting |
| ProxyXml.ProxyComesBackExactlyWhen | libpurple/accounts.c:295-378 | proxy settings come back if and only if their type has a name, no text is empty and something is set; the default comes back as none |
| ProxyXml.TypeNames | libpurple/accounts.c:310-333 | the seven names of proxy types, and that nothing set is no proxy |
| ProxyXml.UnnamedTypeExample | libpurple/accounts.c:295-378 | a proxy of a type without a name comes back as the global one |
| AuthRequests.TopLevel | libpurple/account.c:1361-1381 | between top-level calls the list is exactly the live, unanswered requests, each with one reference |
| AuthRequests.Requests.Unref | libpurple/account.c:249-259 | the record goes with the last reference |
| AuthRequests.Requests.BeginRequest | libpurple/account.c:1361-1374 | a fresh record with the extra reference, not yet listed |
| AuthRequests.Requests.EndRequest | libpurple/account.c:1376-1381 | a request answered meanwhile is freed now, any other goes on the list |
| AuthRequests.Requests.BeginAnswer | libpurple/account.c:274-282 | off the list before the callback runs, for the first and only time |
| AuthRequests.Requests.EndAnswer | libpurple/account.c:287-304 | the record is freed, unless it is still being handed to the UI |
| AuthRequests.Requests.BeginClose | libpurple/account.c:1386-1402 | the loop up to the UI's call: the first match, of the account or under the handle that was named, goes off the list, and the saved next entry is the one behind it; or none was listed |
| AuthRequests.Requests.EndClose | libpurple/account.c:1391-1401 | after the UI's call the record is freed and the loop goes on from the saved entry if it is still listed; when the loop ends, nothing matches of what was listed when it began, whatever ran meanwhile |
| AuthRequests.Requests.Close | libpurple/account.c:1386-1422 | with nothing run meanwhile: exactly the listed requests that match are freed; of another account, or under another handle, all records are there and listed as before, and none of the named one is listed any more |
| AuthRequests.Requests.Take | libpurple/account.c:249-304 | a step leaves every closing loop its saved entry if and only if it does not take that entry off the list |
| AuthRequests.Requests.ReportedBackIsSafe | finch/gntaccount.c:1147-1148 | when the UI, told to close a request's window, reports that very window closed, nothing is taken off and no loop loses its place |
| AuthRequests.LostExample | libpurple/account.c:1391-1401 | the second request is answered while the UI is told to close the first: the loop has lost its place |
| AuthRequests.Requests.constructor | libpurple/account.c:1361-1381 | no requests, and all in order |
| AuthRequests.Requests.Run | libpurple/account.c:249-304 | over every run of requests, answers and closes, nested in each other's calls of the UI as they may be: a freed record stays freed and its callback does not run again, none runs twice, whenever nothing is half done the list is exactly the live requests, and unless a step takes off an entry that a closing loop has saved no loop loses its place |
| Reconnect.DelayDoublesUpToTheCap | finch/gntconn.c:107-115 | after k further failures the delay is the lesser of 600 and the first delay times 2 to the k |
| Reconnect.Connections.DelayOfEntry | finch/gntconn.c:107-115 | so an account's delay is the one drawn for it doubled per failure, and ten minutes from the seventh on |
| Reconnect.CountsFailures | finch/gntconn.c:104-116 | the doublings of an account's entry are its passing failures in the run but the first, until it is removed |
| Reconnect.AtMostOneTimer | finch/gntconn.c:104-116 | an account has at most one pending timer |
| Reconnect.Connections.ReportDisconnect | finch/gntconn.c:97-138 | a failure leaves one timer, the recorded one, with the doubled delay; a fatal error disables the account |
| Reconnect.Connections.DoSignon | finch/gntconn.c:60-83 | a timer that fires leaves its account without one, and connects it only if it is enabled |
| Reconnect.Connections.AccountRemoved | finch/gntconn.c:140-144 | a removed account has no entry and no timer; the others keep theirs |
| Reconnect.Connections.Run | libpurple/account.c:1164-1180 | over every run of failures, timers, removals and settings: a disabled account is told to connect by nothing until it is enabled; an account has no entry and no timer before its first passing failure, and then the delay drawn at that one, doubled for each further one in the run, up to ten minutes |
| AccountOrder.ReorderMovesOne | libpurple/accounts.c:674-704 | the account goes where asked, the others keep their order, nothing is lost |
| AccountOrder.PressMovesByOne | finch/gntaccount.c:753-769 | '-' is one place up and '=' one place down, around the ends |
| AccountOrder.KeysUndoEachOther | finch/gntaccount.c:753-769 | the two keys undo each other |
| AccountOrder.Accounts.ReorderAccount | libpurple/accounts.c:674-704 | the account is where it was asked to go and the others keep their order; unknown accounts and places change nothing |
| AccountOrder.Accounts.KeyPressed | finch/gntaccount.c:742-769 | the account has moved by exactly one place, around the ends, and the others keep their order |
| IconScale.GetScaledSize | libpurple/buddyicon.c:1155-1183 | never above the maximum, one dimension as clamped, the other nearest to the aspect ratio, sizes within bounds unchanged, and exactly when the minimum is reached; a dimension below its minimum is not made larger than that, nor any other larger at all |
| IconScale.ClampIsNearest | libpurple/buddyicon.c:1163-1171 | a dimension is first moved to the nearest number within its bounds |
| IconScale.MinimumIsMissed | libpurple/buddyicon.c:1173-1179 | 200 by 20 within 50 to 100 becomes 100 by 10 |
| IconScale.NoMinimumIsReached | libpurple/buddyicon.c:1155-1183 | with minimum 0, as several protocols have it, no minimum is missed |

## Left out

- NodeRemove: only of nodes that are not to be shown, as the visibility steps and a closing
  connection call it; the other callers, all in libpurple/buddylist.c, change the buddy list around
  the call, which is not modelled.
- NodeUpdate: the branch for a row that sits under the wrong parent, which needs a buddy list that
  changes after its rows were made; `CheckRow` proves it is not reached otherwise.
- CanAddNode: buddies without a contact exist only while they are being added, and the buddy lists of
  the model have none; the priority buddy of a contact with buddies is taken to exist.
- RemoveAccount: what becomes of the presences afterwards is left to separate steps
  (`PresenceChanged`); which buddy has priority is open, so a contact may or may not be updated.
- SetForUser: that no named file is deleted is not said after reading from disk, which can leave a
  count too low.
- GetScaledSize: positive sizes and maximums, and minimums from 0 up to them; exact rationals instead
  of doubles, which agree below 2^53.
- RecomposesExactlyWhen: not for every list with constant splits, where a name can come out as it was
  by accident (`AccidentExample`); `FullySplitRecomposes` holds for all.
- ReorderAccount: lists are sequences; the links of the `GList` are not modelled.
- EndRequest: calls nest, so a callback that the UI ran has returned before the UI does; and the UI's
  window for a request lasts as long as its record, so no two live records have the same handle.
- EndClose: a loop that has lost its place would read freed memory; the model ends it there.
- BeginRequest: the answers of plugins, which run a callback at once and make no record.
- Allow, Deny: normalization is a pure idempotent function, finding a buddy depends on the normalized
  name alone, and `g_utf8_collate` finds strings equal exactly if they are; names that normalize to
  nothing are on no buddy list.
- FinchView: drawing, tooltips, tags, sorting and colours; managers other than the default one.
- BuddyIcons: IM windows, checksums, time stamps, telling the protocol; hashing is an injective name
  per image, and writing files succeeds always or never (`writable`).
- The `gsize` overflow of the buffer, and allocation failures.
- XML text, its escaping and the file, but for empty text being read as none.
- Fields of an account that are written and read under different names or forms: user-info, boolean
  status attributes; passwords, aliases, statuses and the current error.
- GObject properties, signals and argument checks that only log.
- Connections, protocols and the keyring: opaque calls.
