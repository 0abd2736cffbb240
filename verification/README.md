# NullFXP, verified

A Dafny model of the stateful cores of NullFXP, a Qt client for SFTP and FTP, with proofs of what
they keep over every input and every run. `dafny verify dfyconfig.toml` checks all of it.

**The remote directory tree.** `RemoteDirModel` shows a server as a lazy tree. Each `NetDirNode`
holds its children in a hash from row to node and points back with `pNode` and `onRow`, a 16-bit
`short`. `NodeHeap` models the nodes as a heap of records, since the C++ code shares and mutates them
through pointers, and says when a heap is one tree. `RemoteDirModels.RemoteDirModel` is the class with
the mutating methods. `Reconciling` says what taking over a server listing does to the heap, `ListSpec` the
same for a plain list of names; `ReconcileFacts` proves that the first refines the second.
`PathLookup` and `HomePath` cover indexes, lookup by path and the chain planted for the home directory.

**The fetch protocol.** The views ask for directories, a retriever thread reads them, and queued
signals bring the answers back. `FetchProtocol` is a state machine over the heap, the command queue, the
signals in flight and the index tokens that travel with them; any interleaving of the two threads is a
run. `ProtocolFacts` holds the theorems over all runs, `ProtocolSteps` what single steps
do for the user, `Draining` the proof that the conversation comes to rest, `Retriever` the loop of the thread itself.

**Removal, synchronisation, forwarding, passwords, sessions, history.** `RemoteRemoval` is the
recursive delete over an abstract server; `SyncWalk`, `SyncWalkFacts`, `SyncMerge`, `SyncPlan` and
`SyncWhole` are the directory synchroniser; `ForwardWorker` and `ForwardManager` are the bookkeeping of
port forwarding; `PasswordCodec` is the password obfuscation; `SessionCopy` is the folder copy of the session
dialog; `NavHistory` is the history of the navigation bar.

Randomness (`rand()` in the password code), the server's answers, the order in which a directory is listed,
the outcome of network calls and the interleaving of threads are parameters or nondeterministic choices, so
each theorem holds for all of them.

## Where the code does less than it seems to promise

Each of these is a lemma with the exact condition, not an adjustment of the model.

- A row number beyond 32767 does not fit `onRow`, and appending that row breaks the tree
  (`NodeHeap.AppendedRowIsTree`, `ReconcileFacts.ReconciledIsTreeIff`). Inserting in front of the end, which no
  caller does, replaces a child instead of moving it (`NodeHeap.InsertedRowIsTreeIff`).
- A listing can delete a node that a queued command or an undelivered signal still points to
  (`ProtocolFacts.CommandOutlivesNode`); `ProtocolFacts.DeliveryKeepsTargetsIff` says when.
- Renaming a directory leaves the stored paths below it as they were (`PathLookup.RenameKeepsPathsIffLeaf`,
  `HomePath.RenameLosesPath`), and it can give a node the name of a sibling (`PathLookup.RenameKeepsUniqueIff`).
- A path lookup that stops half-way answers with the deepest existing node but with row 0
  (`PathLookup.FindIsDeepest`). A home path with an empty inner or trailing part, such as `/home/a/`, flags
  no node for fetching, though a comment lists it as a case to support (`HomePath.HomeFlags`,
  `HomePath.TrailingSlashFlagsNone`).
- Recursive removal leaves sockets, devices and pipes, and the directories above them, in place
  (`RemoteRemoval.WholeSubtreeIff`, `RemoteRemoval.PipeStays`). Removing a link to a directory empties that directory
  (`RemoteRemoval.OutsideKeptIff`, `RemoteRemoval.LinkEmptiesTarget`).
- A poll notes closed channels in an array of 100 slots without counting them; the 101st is written past its end
  (`ForwardWorker.PollOverruns`, `ForwardWorker.PollFitsIff`).
- Relistening connects `finished()` once more, so the second delivery finds no entry and runs into an assertion
  (`ForwardManager.RelistenThenFinish`, `ForwardManager.AllDeliveriesFoundIff`).
- A worker whose session has left the table while it runs, untold to quit, can never be stopped
  (`ForwardManager.CanBeStoppedIff`): after a denied relisten (`ForwardManager.DeniedRunaway`), or when a late error
  restarts it before its `finished()` is delivered (`ForwardManager.RestartedRunaway`).
- A repair that finds the port still bound leaves the listener it freed in the entry, and whatever ends the
  session hands it to `libssh2_channel_forward_cancel` again (`ForwardManager.KeepPortThenFinish`,
  `ForwardManager.ListenersOnceIff`).
- The paste guard compares strings, so it also refuses a sibling whose name merely begins with the name of the
  source (`SessionCopy.RefusedOutsideIff`, `SessionCopy.SiblingRefused`).
- Navigating to a path that reads like the clear entry empties the history first
  (`NavHistory.NavigateHoldsIff`).
- The length of key and password is stored in one byte (`PasswordCodec.RoundTripIff`).
- Going forward in an empty history sends out the text of the clear entry
  (`NavHistory.DirNavBar.GoNext`).

## Model

| member | source | states |
|---|---|---|
| `NodeHeap.SiblingsDisjoint` | src/rfsdirnode.h:62-70 | in a heap with consistent links no node lies below two different children of one parent: nothing is shared |
| `NodeHeap.AllUnderRoot` | src/rfsdirnode.h:62-70 | every node of a tree is reached from the root by parent links, so there is no cycle |
| `NodeHeap.RowRemovedIsTree` | src/remotedirmodel.cpp:582-619 | freeing a child's whole subtree and renumbering its later siblings leaves a tree whose rows are the old ones without that one |
| `NodeHeap.AppendedRowIsTree` | src/remotedirmodel.cpp:541-581 | appending a row keeps the tree if and only if the new row number fits the 16-bit `onRow` |
| `NodeHeap.InsertedRowIsTreeIff` | src/remotedirmodel.cpp:541-581 | inserting one row keeps the tree if and only if it goes to the end and its number fits `onRow`; in front of the end the child in that row loses its place |
| `NodeHeap.DataIsTree` | src/rfsdirnode.cpp:178-192 | copying data into a node disturbs no link |
| `NodeHeap.AskedFlags` | src/remotedirmodel.cpp:458-467 | asking for the rows of a node marks it 0x08 and remembers its flag exactly if that was 0x01 or 0x04, and otherwise changes nothing |
| `ListSpec.AfterShowsListing` | src/remotedirmodel.cpp:701-759 | the plain list after a listing shows exactly the listed names, each once if each was there once |
| `ListSpec.AfterTwice` | src/remotedirmodel.cpp:701-759 | taking over the same listing twice is taking it over once, and adds nothing |
| `ListSpec.AfterFits` | src/remotedirmodel.cpp:701-759 | a directory with unique names never ends up longer than its listing |
| `ListSpec.KeepOrder` | src/remotedirmodel.cpp:701-731 | kept names appear in the order they had |
| `ListSpec.FreshOrder` | src/remotedirmodel.cpp:734-759 | new names appear in the order in which they are first listed |
| `ReconcileFacts.ReconcileRefinesList` | src/remotedirmodel.cpp:701-759 | the names a directory shows after reconciling are what the plain-list specification yields, row by row |
| `ReconcileFacts.RowsFit` | src/rfsdirnode.h:66 | with unique names and at most 32768 entries all rows fit `onRow` |
| `ReconcileFacts.NothingLeftToDo` | src/remotedirmodel.cpp:701-759 | right after a run the same listing has nothing to delete and nothing to insert |
| `ReconcileFacts.ReconcileTwice` | src/remotedirmodel.cpp:701-759 | a second run with the same listing keeps every node, every row and everything below the rows; if the listing repeats no name it changes nothing but the previous flag of the reconciled node |
| `ReconcileFacts.SurvivorKeepsSubtree` | src/remotedirmodel.cpp:701-731 | a child still listed keeps identity and parent, takes the listed data and keeps its whole subtree unchanged |
| `ReconcileFacts.NewRowHasFirstEntry` | src/remotedirmodel.cpp:734-759 | a new row carries the first entry listed under its name and has no children |
| `ReconcileFacts.ReconciledIsTreeIff` | src/remotedirmodel.cpp:667-798 | reconciling keeps the tree, with no dangling, shared or cyclic link, if and only if the resulting rows fit `onRow` |
| `PathLookup.ParentUndoesIndex` | src/remotedirmodel.cpp:191-232 | `parent(index(r, c, p))` is `p`, the index shows cell `r`, `c`, and the child claims row `r` |
| `PathLookup.IndexUndoesParent` | src/remotedirmodel.cpp:303-327 | asking the parent index for the same row gives the index back |
| `PathLookup.FindIsDeepest` | src/remotedirmodel.cpp:275-301 | the lookup returns the deepest existing node along the path: at its own row if the path is complete, at row 0 otherwise |
| `PathLookup.FindFollowsSpelling` | src/remotedirmodel.cpp:275-301 | with unique sibling names a fully existing path leads to its one node, at its row |
| `PathLookup.RootIsFound` | src/remotedirmodel.cpp:234-273 | looking up "/" or the empty path answers with the root |
| `PathLookup.OwnPathFindsNode` | src/remotedirmodel.cpp:234-273 | looking up any node's own path returns that node with its row |
| `PathLookup.ReconcileKeepsPaths` | src/sshdirretriver.cpp:157-163 | stored paths stay parent path, slash and name through every reconcile, and survivors keep theirs |
| `PathLookup.ReconcileKeepsUnique` | src/remotedirmodel.cpp:701-759 | sibling names stay unique everywhere through every reconcile, even if the listing repeats names |
| `PathLookup.RenameKeepsPathsIffLeaf` | src/remotedirmodel.cpp:507-523 | a rename to another, non-empty name keeps the stored paths right if and only if the name has no slash and the renamed node no loaded children |
| `PathLookup.RenameKeepsUniqueIff` | src/remotedirmodel.cpp:507-523 | sibling names stay unique over a rename if and only if no sibling bears the new name already |
| `HomePath.ChainIsTree` | src/remotedirmodel.cpp:134-180 | the directories planted for a home path form a tree |
| `HomePath.HomeIsFound` | src/remotedirmodel.cpp:134-180 | for a home without empty parts the last directory of the chain has the home as its path and is what looking the home up returns |
| `HomePath.HomeFlags` | src/remotedirmodel.cpp:160-166 | exactly which directory is flagged 0x01 for fetching: the root for "/", the last one if no part is empty, none otherwise; the others are flagged 0x02 |
| `HomePath.HomeDirectory` | src/remotedirmodel.cpp:134-170 | a planted directory bears its part of the home, the root a slash, with the initial flag and permissions |
| `HomePath.TrailingSlashFlagsNone` | src/remotedirmodel.cpp:134-180 | the home `/a/` plants directories and flags none of them |
| `HomePath.RenameLosesPath` | src/remotedirmodel.cpp:507-523 | in the tree of the home `/d/f`, renaming `d` leaves the path `/d/f` behind |
| `RemoteDirModels.RemoteDirModel.Destroy` | src/rfsdirnode.cpp:19-30 | deleting a node frees exactly its subtree; the row asserted in the loop is always there |
| `RemoteDirModels.RemoteDirModel.RemoveRow` | src/remotedirmodel.cpp:582-619 | the renumbering loop and the delete amount to removing one row of the tree |
| `RemoteDirModels.RemoteDirModel.InsertRow` | src/remotedirmodel.cpp:541-581 | inserts one node at any row the source accepts; still a tree if and only if that is the end and the row fits |
| `RemoteDirModels.RemoteDirModel.SetNode` | src/remotedirmodel.cpp:524-536 | overwrites a node's data and keeps its row and links |
| `RemoteDirModels.RemoteDirModel.AddNode` | src/sshdirretriver.cpp:487-503 | marks the node as updating and queues it |
| `RemoteDirModels.RemoteDirModel.RowCount` | src/remotedirmodel.cpp:438-477 | returns the number of rows; a node flagged 0x01 or 0x04 is queued and marked 0x08, any other flag changes nothing |
| `RemoteDirModels.FindLast` | src/remotedirmodel.cpp:712-718 | the backward search finds the last entry with a name |
| `RemoteDirModels.RemoteDirModel.FindRow` | src/remotedirmodel.cpp:740-748 | the row search succeeds if and only if some child bears the name |
| `RemoteDirModels.RemoteDirModel.PruneRows` | src/remotedirmodel.cpp:701-731 | the first loop deletes every row not listed with its subtree and refreshes the others in place |
| `RemoteDirModels.RemoteDirModel.AppendEntries` | src/remotedirmodel.cpp:734-759 | the second loop appends the first occurrence of each new name, in listing order, and asks for nothing |
| `RemoteDirModels.RemoteDirModel.Reconcile` | src/remotedirmodel.cpp:667-798 | the whole slot, for any listing: survivors in order, then new nodes, everything else untouched, flag set to newest; still a tree if and only if the rows fit `onRow` |
| `RemoteDirModels.RemoteDirModel.SetUserHomePath` | src/remotedirmodel.cpp:109-189 | plants exactly the chain of directories up to the first empty part, and it is a tree |
| `RemoteDirModels.ShowHome` | src/remotedirmodel.cpp:438-477 | asking a new model for the rows of all planted directories queues exactly the home: the root for "/", none with an empty part |
| `FetchProtocol.StepKeepsTree` | src/remotedirmodel.cpp:667-798 | no step of either thread breaks the tree |
| `FetchProtocol.RunIsJustified` | src/sshdirretriver.cpp:52-100 | in every reachable state each node flagged as updating has a READDIR waiting or a result in flight |
| `FetchProtocol.DrainedMeansSettled` | src/sshdirretriver.cpp:487-503 | once queue and deliveries are drained no node is stuck updating |
| `ProtocolFacts.TokenSafety` | src/remotedirmodel.cpp:667-798 | in every run each index token is freed at most once and no delivery reads a freed one |
| `ProtocolFacts.ChangeThenRead` | src/sshdirretriver.cpp:192-272 | when the queue is empty each executed mkdir, rmdir, remove or rename was followed by a READDIR of the same node |
| `ProtocolFacts.RetrieverProgress` | src/sshdirretriver.cpp:52-100 | every retriever step lowers the work still queued, a change weighing two commands |
| `ProtocolFacts.RetrieverTerminates` | src/sshdirretriver.cpp:52-100 | left alone, the retriever stops within a bound given by the queue it started with |
| `ProtocolFacts.HomeStartsRun` | src/remotedirmodel.cpp:134-180 | the tree planted for a home path is a state in which the runs of the protocol start, stored paths and unique names included |
| `ProtocolFacts.QuietRunKeepsPaths` | src/sshdirretriver.cpp:157-163 | in every state of every run without rename, looking up any node's stored path returns that node at its row |
| `ProtocolFacts.DeliveryKeepsTargetsIff` | src/remotedirmodel.cpp:701-731 | a delivery leaves all nodes of pending work alive if and only if no such node lies in a subtree the listing drops |
| `ProtocolFacts.CarefulRunKeepsTargets` | src/remotedirmodel.cpp:667-798 | in a run whose deliveries all meet that condition no pending work ever points to a deleted node |
| `ProtocolFacts.CommandOutlivesNode` | src/sshdirretriver.cpp:102-120 | a concrete run in which a queued READDIR points to a node already deleted |
| `Draining.DrainProgress` | src/remotedirmodel.cpp:667-798 | every delivery and every retriever step lowers the work left, measured on the tree: a listing can only reset flags of children, and each reset pays for at most one more READDIR |
| `Draining.RunDrains` | src/sshdirretriver.cpp:52-100 | from any state of any run, deliveries and retriever steps come to an end when nobody asks for anything, within a bound given by that state, although a delivery may ask again |
| `ProtocolSteps.ShowAsksIff` | src/remotedirmodel.cpp:458-467 | showing a directory queues a READDIR and marks it 0x08 exactly if its flag is 0x01 or 0x04 |
| `ProtocolSteps.ClickAsksIff` | src/remotedirmodel.cpp:859-873 | a click queues a READDIR exactly if the flag is 0x02 |
| `ProtocolSteps.RefreshAsks` | src/sftpview.cpp:500-510 | a refresh queues a READDIR whatever the flag was |
| `ProtocolSteps.RealPathOutcome` | src/remotedirmodel.cpp:916-934 | a resolved link is shown as leading to a directory and fetched if it never was; an unresolved one is marked 0x10 and not fetched |
| `ProtocolSteps.RenameIsQueued` | src/remotedirmodel.cpp:507-523 | a rename shows the new name at once, queues a RENAME for the parent and changes no other node |
| `ProtocolSteps.DeliveryShowsListing` | src/remotedirmodel.cpp:667-798 | once a listing is delivered the directory shows exactly the listed names and is marked 0x10 |
| `ProtocolSteps.RunIsFifo` | src/sshdirretriver.cpp:52-100 | in every run commands are executed in the order in which they were queued, and none is lost |
| `Retriever.TurnIsThreeSteps` | src/sshdirretriver.cpp:58-97 | one turn of the loop is three steps of the protocol, with the same queue, signals and log |
| `Retriever.SSHDirRetriver.RetriveDir` | src/sshdirretriver.cpp:102-190 | empties the process queue and sends one result for the one directory in it: what the server holds for it, or nothing |
| `Retriever.SSHDirRetriver.Turn` | src/sshdirretriver.cpp:58-97 | one command: what it leaves in the queue, which signals with which listing and status it sends, an empty process queue, and less work than before |
| `Retriever.SSHDirRetriver.Run` | src/sshdirretriver.cpp:52-100 | terminates, having executed the queued commands in order and then one READDIR per change; each READDIR sends what the server held for its node at that time, each command its status, and no other signal is sent |
| `Retriever.FollowUpAt` | src/sshdirretriver.cpp:192-272 | each mkdir, rmdir, remove or rename is followed up by a READDIR of the same node with the same token, in the order of the changes |
| `RemoteRemoval.WholeSubtreeIff` | src/sshdirretriver.cpp:275-327 | exactly the subtree disappears if and only if only directories, files and links lie below the top item |
| `RemoteRemoval.PipeStays` | src/sshdirretriver.cpp:304-312 | removing `/d` leaves it in place for the sake of the pipe `/d/p` |
| `RemoteRemoval.OutsideKeptIff` | src/sshdirretriver.cpp:288-312 | removing a link to a directory leaves everything outside the link alone if and only if nothing below its target can be removed |
| `RemoteRemoval.OpensIff` | src/sshdirretriver.cpp:288-292 | opening a path with a slash behind it reads a directory, or the directory a link leads to, and nothing else |
| `RemoteRemoval.LinkEmptiesTarget` | src/sshdirretriver.cpp:288-312 | removing `/l`, a link to `/d`, removes `/d/f` |
| `RemoteRemoval.Server.ListDir` | src/sshdirretriver.cpp:385-427 | the children of a directory, or of the directory a link leads to, each once, in any order; nothing for anything else |
| `RemoteRemoval.Server.RmDir` | src/sshdirretriver.cpp:318 | SSH_FXP_RMDIR of draft-ietf-secsh-filexfer-02 section 6.6: succeeds if and only if the directory exists and is empty |
| `RemoteRemoval.Server.Unlink` | src/sshdirretriver.cpp:304-320 | SSH_FXP_REMOVE of section 6.5: succeeds if and only if the path exists and is no directory; a link itself goes, not its target |
| `RemoteRemoval.Server.RemoveChildren` | src/sshdirretriver.cpp:294-312 | the loop over one listing removes below each child everything that is not blocked by a special file |
| `RemoteRemoval.Server.RemoveRecursively` | src/sshdirretriver.cpp:275-327 | terminates; removes at and below an item that is no link to a directory everything not blocked, changes nothing outside, and reports success if and only if the item existed and is gone |
| `RemoteRemoval.Server.RemoveTop` | src/sshdirretriver.cpp:275-327 | the same for the top item; a link to a directory goes itself, and with it everything below its target that is not blocked |
| `SyncWalk.ReadAll` | src/synchronizewindow.cpp:144-170 | reading one directory adds a row per entry but the dot names, and stacks its folders |
| `SyncWalk.Walk` | src/synchronizewindow.cpp:118-177 | the stack-driven walk terminates on every finite tree and returns the recursive enumeration, unreadable folders included as rows |
| `SyncWalk.StripIff` | src/synchronizewindow.cpp:144-170 | only the two dot names are left out of a listing |
| `SyncWalkFacts.WalkVisitsExactly` | src/synchronizewindow.cpp:207-240 | the walk returns a path if and only if following its names from the base leads to an entry |
| `SyncWalkFacts.WalkRowsExactly` | src/synchronizewindow.cpp:207-240 | the walk returns a path with some size and time if and only if its names lead to an entry with that size and time |
| `SyncWalkFacts.EnumNoRepeats` | src/synchronizewindow.cpp:118-177 | no path is returned twice |
| `SyncMerge.RecordsConserved` | src/synchronizewindow.cpp:250-331 | every local attribute record is either still listed or freed, counted with multiplicity |
| `SyncMerge.SyncWalker.MergeRow` | src/synchronizewindow.cpp:268-312 | one remote row: compared with the first local row of its path, flagged, and that row dropped and its record freed |
| `SyncMerge.SyncWalker.SortMerge` | src/synchronizewindow.cpp:250-331 | the result is the remote rows in order, then the unmatched local ones; each row keeps its metadata and carries exactly one of the six class bits; freed records are exactly the matched local ones |
| `SyncPlan.LeftIff` | src/synchronizewindow.cpp:268-320 | with unique paths the tail holds exactly the local rows no remote row names |
| `SyncPlan.RowBits` | src/synchronizewindow.cpp:250-331 | which of the six class bits a merged row carries, in terms of which sides know the path, whether their times differ by more than two seconds and which is later, and whether the sizes agree |
| `SyncPlan.SyncAllFiles` | src/synchronizewindow.cpp:763-821 | the bit tests emit the plan of the rows' classes |
| `SyncPlan.BothIsUploadsAndDownloads` | src/synchronizewindow.cpp:775-815 | TASK_BOTH is the upload plan and the download plan, each in its order, and nothing more |
| `SyncPlan.PlanIffWanted` | src/synchronizewindow.cpp:763-821 | a transfer is planned if and only if comparing the two sides on its path calls for it |
| `SyncPlan.PlanByTime` | src/synchronizewindow.cpp:763-821 | a path is transferred exactly if it is known on the sending side only, or clearly younger there, as far as the direction covers it |
| `SyncPlan.PlanOnce` | src/synchronizewindow.cpp:763-821 | no transfer is planned twice |
| `SyncPlan.SecondPlanIsRest` | src/synchronizewindow.cpp:763-821 | after any part of a plan was carried out, merging and planning again yields exactly the rest; after all of it, nothing |
| `SyncPlan.NothingGetsOlder` | src/synchronizewindow.cpp:763-821 | carrying out any part of a plan loses no path and never replaces a file by an older one, on either side |
| `SyncPlan.TransfersAgree` | src/synchronizewindow.cpp:763-821 | carrying out a transfer makes the two sides agree on its path and leaves other paths alone |
| `SyncPlan.SamePathsNoOnly` | src/synchronizewindow.cpp:268-320 | two sides with the same paths produce no local-only and no remote-only row |
| `SyncWhole.WalkListsSide` | src/synchronizewindow.cpp:118-177 | a walked tree lists every path of its side once, with its metadata |
| `SyncWhole.SameTreesMergeCleanly` | src/synchronizewindow.cpp:250-331 | walking two trees with the same paths and merging finds nothing on one side only |
| `SyncWhole.Synchronize` | src/synchronizewindow.cpp:250-331 | merge and plan together emit exactly the transfers the two sides call for, each once; with both directions a path on both sides goes up or down exactly if its time is later by more than two seconds |
| `PasswordCodec.NextCharDecrypts` | src/security.cpp:25-63 | decrypting the next character undoes encrypting one and consumes exactly its two digits |
| `PasswordCodec.StoredDigits` | src/security.cpp:25-42 | a byte is stored as the two upper-case hexadecimal digits of its exclusive or with 0x5C |
| `PasswordCodec.FindHexIff` | src/security.cpp:44-63 | a digit is read as its place in the row of digits, anything else as 0xFF |
| `PasswordCodec.EncryptPassword` | src/security.cpp:65-86 | whatever the random numbers, the result encodes header, padding, key, password and filling; with fewer than 50 bytes to hide it has 100 to 106 digits, otherwise two per byte and eight more |
| `PasswordCodec.DecryptPassword` | src/security.cpp:88-116 | the destructive reader computes the decryption function, on malformed text too |
| `PasswordCodec.DecryptEncrypted` | src/security.cpp:65-116 | decrypting with any key yields what follows that key in the first (length mod 256) bytes of key and password, or nothing |
| `PasswordCodec.RoundTripIff` | src/security.cpp:65-116 | the password comes back if and only if key and password have at most 255 bytes or the password is empty |
| `PasswordCodec.OtherKey` | src/security.cpp:65-116 | another key yields the rest of key and password if it is a prefix of them, otherwise nothing |
| `PasswordCodec.BeginsWithFlag` | src/security.cpp:65-86 | every stored password begins with "A35C" |
| `PasswordCodec.OlderForm` | src/security.cpp:88-116 | text in the older form, with a length instead of the flag, is read whatever the key |
| `ForwardWorker.RunAccounted` | src/forwardportworker.cpp:87-293 | after every run that stays within the array of closed channels, the accepted channels and sockets are the live ones plus the released ones, with multiplicity |
| `ForwardWorker.RunSafe` | src/forwardportworker.cpp:87-293 | in every such run live pairs share no socket and no channel, and nothing is freed twice or freed while live |
| `ForwardWorker.PollReleases` | src/forwardportworker.cpp:169-257 | a poll releases channel and socket of exactly the pairs found closed, in order, and keeps the others in order |
| `ForwardWorker.PollFitsIff` | src/forwardportworker.cpp:169-210 | a poll stays within its array if and only if it finds at most 100 channels closed before an out-of-boundary error; with at most 100 live pairs it always does |
| `ForwardWorker.PollOverruns` | src/forwardportworker.cpp:169-210 | with more than 100 connections the peer can close them all before one poll, which then needs more than its 100 slots |
| `ForwardWorker.ScanInto` | src/forwardportworker.cpp:169-210 | notes exactly the channels closed by the peer, in order, stopping at an out-of-boundary error, if they fit the array; reports that they do not otherwise |
| `ForwardWorker.ForwardPortWorker.Accept` | src/forwardportworker.cpp:132-154 | a new channel is paired with its socket; with fresh handles the account is kept |
| `ForwardWorker.ForwardPortWorker.RemoveForwardByChannel` | src/forwardportworker.cpp:217-257 | erases the first pair of the channel, frees its channel and deletes its socket, or changes nothing; the account is kept |
| `ForwardWorker.ForwardPortWorker.DestDisconnected` | src/forwardportworker.cpp:264-293 | erases the pair of the socket, frees its channel and deletes the socket, keeping the others in order, or changes nothing; afterwards no live pair has the socket; the account is kept |
| `ForwardWorker.ForwardPortWorker.Poll` | src/forwardportworker.cpp:169-215 | a poll whose array is large enough releases exactly the pairs whose channel the peer has closed, keeps the others in order and keeps the account; says whether the array is large enough |
| `ForwardWorker.ForwardPortWorker.SetListener` | src/forwardportworker.cpp:87-120 | a new listener releases channel and socket of every pair once, although closing a socket calls back; the account is kept |
| `ForwardManager.NextValid` | src/forwardmanager.cpp:104-489 | every slot keeps each entry in one phase and entries apart, and completing a connection always finds its entry |
| `ForwardManager.RunValid` | src/forwardmanager.cpp:104-489 | the same in every state of every run |
| `ForwardManager.ConnHeldOrFreed` | src/forwardmanager.cpp:187-349 | in every state of every run a connection handed over earlier is held by exactly one entry or was freed exactly once, not both |
| `ForwardManager.AllConnsFreed` | src/forwardmanager.cpp:187-349 | once no entry holds a connection, as many were freed as were handed over |
| `ForwardManager.ListenerKept` | src/forwardmanager.cpp:153-489 | as long as cancelling succeeds, every listener ever opened was freed or is still in an entry |
| `ForwardManager.WantsReconnectIff` | src/forwardmanager.cpp:376-396 | a session wants to be connected again if and only if a repair of its listener failed to cancel it or found the port still bound |
| `ForwardManager.SenderUnique` | src/forwardmanager.cpp:210-219 | the sender of a signal belongs to at most one entry |
| `ForwardManager.WorkerSignalFound` | src/forwardmanager.cpp:309-320 | a worker's signal finds its entry if and only if its session was neither dropped by a denied relisten nor already ended |
| `ForwardManager.RunRemembers` | src/forwardmanager.cpp:288-291 | in every run the signal of a worker is connected once plus once per relisten, and its session is dropped if and only if a relisten was denied |
| `ForwardManager.AllDeliveriesFoundIff` | src/forwardmanager.cpp:466-474 | once a worker is over and its `finished()` delivered, or a delivery failed: none failed if and only if the run neither relistened the worker nor dropped its session |
| `ForwardManager.RelistenThenFinish` | src/forwardmanager.cpp:466-474 | a concrete run with one relisten and no denial whose second delivery finds no entry |
| `ForwardManager.CanBeStoppedIff` | src/forwardmanager.cpp:153-185 | a running worker can still be stopped by some further steps if and only if its session is in the table or it was told to quit |
| `ForwardManager.GoneRunsOn` | src/forwardmanager.cpp:297-349 | a worker that runs on when its session has left the table, and that nobody told to quit, runs in every later state |
| `ForwardManager.DeniedRunaway` | src/forwardmanager.cpp:458-463 | a concrete run to a worker nothing can stop: its relisten is denied |
| `ForwardManager.RestartedRunaway` | src/forwardmanager.cpp:466-474 | a concrete run without a denial to such a worker: an error queued before the thread ended restarts it, and then `finished()` ends its session |
| `ForwardManager.ListenersOnceIff` | src/forwardmanager.cpp:373-465 | once all sessions are over, each freed listener was handed to cancel only once if and only if no repair found the port still bound |
| `ForwardManager.KeepPortThenFinish` | src/forwardmanager.cpp:320-324 | a concrete run in which a freed listener is cancelled again |
| `ForwardManager.Manager.ForwardConnectStart` | src/forwardmanager.cpp:104-151 | starting adds a connecting entry, or stops the session if its name is in use; the table stays valid |
| `ForwardManager.Manager.ForwardConnectStop` | src/forwardmanager.cpp:153-185 | stopping cancels the listener and takes it out of the entry, tells the worker to quit, and leaves the entry to the worker's end; the table stays valid |
| `ForwardManager.Manager.ConnectRemoteHostFinished` | src/forwardmanager.cpp:187-295 | the connector's entry gets the connection, a running worker and a listener, or goes and its connection is freed if listening fails; on a valid table the entry is always found and the table stays valid |
| `ForwardManager.Manager.ForwardWorkerFinished` | src/forwardmanager.cpp:297-349 | the entry found by sender goes, its connection is freed and its listener cancelled once more; the table stays valid |
| `ForwardManager.Manager.ListenChannelError` | src/forwardmanager.cpp:351-489 | each outcome of repairing a lost listener, on the entry found by sender: entry, connection, listener and worker; the table stays valid |
| `SessionCopy.GuardSuffices` | src/sessiondialog.cpp:396-405 | a target passing the dialog's string test is not the source or inside it |
| `SessionCopy.RefusedIff` | src/sessiondialog.cpp:400-405 | the string test refuses a target if and only if it lies in or below a sibling whose name begins with the name of the source |
| `SessionCopy.RefusedOutsideIff` | src/sessiondialog.cpp:400-405 | a target outside the source is refused if and only if the name in the place of the source strictly extends it |
| `SessionCopy.SiblingRefused` | src/sessiondialog.cpp:400-405 | the folder `/a` cannot be pasted into its sibling `/ab` |
| `SessionCopy.SessionTree.CopyChildren` | src/sessiondialog.cpp:433-446 | creates one folder's children on the other side and stacks its subfolders |
| `SessionCopy.SessionTree.CopyFolder` | src/sessiondialog.cpp:422-451 | terminates; the destination is an exact copy of the source subtree and everything that was there is unchanged |
| `SessionCopy.SessionTree.PasteFolder` | src/sessiondialog.cpp:394-452 | pastes if and only if the string test allows it, copying exactly, and otherwise changes nothing |
| `NavHistory.HistoryIsLastPushed` | src/dirnavbar.cpp:64-95 | after any run whose paths do not read like the clear entry, the list is the last 99 paths navigated to since the user last cleared it, in order, then the clear entry, with the cursor on a path as soon as there is one |
| `NavHistory.NavigateHoldsIff` | src/dirnavbar.cpp:79-95 | navigating adds its path to the history if and only if the path does not read like the clear entry or the history is empty |
| `NavHistory.MovesRotate` | src/dirnavbar.cpp:118-161 | with two or more paths both moves rotate the cursor and change nothing else |
| `NavHistory.PreviousNextInverse` | src/dirnavbar.cpp:118-161 | previous and next undo each other |
| `NavHistory.DirNavBar.SetEditText` | src/dirnavbar.cpp:225-236 | showing the clear entry's text empties the history, other text does not |
| `NavHistory.DirNavBar.NavToPath` | src/dirnavbar.cpp:79-95 | pushes the path before the clear entry, dropping the oldest beyond the limit |
| `NavHistory.DirNavBar.GoPrevious` | src/dirnavbar.cpp:118-140 | moves back with wrap-around and sends out the path moved to; does nothing with fewer than two paths |
| `NavHistory.DirNavBar.GoNext` | src/dirnavbar.cpp:142-161 | moves on with wrap-around and sends out the path moved to; with an empty history sends out the clear entry |

## Left out

- `insertRows` and `removeRows` with a count above one: no caller uses them.
- Address reuse: nodes, channels, sockets and connectors get addresses never handed out before, so a stale
  pointer that happens to equal a new one is not modelled.
- Dereferencing a deleted node: protocol steps need their node to be in the tree, and a run stops where the
  program would read freed memory; when that can happen is stated exactly by `ProtocolFacts.DeliveryKeepsTargetsIff`.
- `RemoteDirModels.RemoteDirModel.InsertRow`: inserting in front of the end is stated for a valid tree only.
- `FetchProtocol.StepKeepsTree`: a delivery whose rows would not fit a `short` is no step of the protocol, so runs
  stop before it; `ReconcileFacts.ReconciledIsTreeIff` says that exactly such a delivery breaks the tree.
- `RemoteDirModels.RemoteDirModel.SetUserHomePath`: one call on a new model; a second call would leak the old root.
- Path cleaning by `QDir::absolutePath`: lookups are for absolute paths without `.` and `..`.
- Qt's persistent-index upkeep, the views, proxies, icons, drag and drop, and the debug assertions on a
  developer's own directory names.
- Unlocked access to the queue and the start of the retriever thread: queue operations are atomic, so only safety
  and termination of the loop are claimed. KEEP_ALIVE, which is never queued, and unknown commands.
- Permissions and network failures inside recursive removal: each primitive succeeds exactly when the draft's
  precondition holds. The list of protected system directories.
- `RemoteRemoval.Server.RemoveTop`: a link that lies inside the directory it leads to, whose removal cuts the paths
  still to be removed. Links inside the subtree are removed as they are, so nothing is left out there.
- `RemoteRemoval.Server.RemoveRecursively`: links to directories are the matter of `RemoteRemoval.Server.RemoveTop`.
- `Draining.RunDrains`: row counts asked by views in between are steps of the user; a command for a deleted node, or a
  delivery whose rows do not fit, ends the drain early.
- `Retriever.SSHDirRetriver.Run`: nothing is queued from outside while it runs; commands arriving meanwhile are steps
  of `FetchProtocol`, of which each turn of the loop is three (`Retriever.TurnIsThreeSteps`).
- `ForwardWorker.ForwardPortWorker.Poll`: what happens after writing past the array is not modelled; `fits` is then false
  and nothing is promised about the program.
- `SyncWalk.Walk`: one walk stands for the remote and the local one, which differ in how they read attributes and
  in the local filter for hidden files.
- `SyncMerge.SyncWalker.SortMerge`: the attribute flags arrive with the six class bits clear.
- Directories as rows of a plan and failed transfers are covered only as transfers not carried out; copies preserve
  size and modification time.
- The bytes relayed between socket and channel, and automatic reconnection, which appears as a new start.
- `ForwardManager.Manager.ListenChannelError`: the debug assertion that cancelling succeeded (src/forwardmanager.cpp:396) is
  off, as in a release build. A program that failed to find an entry makes no further step. The worker's own pointer to
  its listener is not modelled.
- `StrToHex`, `HexToStr` and the external password pair.
- `SessionCopy.SessionTree.PasteFolder`: copying to a fresh destination; merging into an existing folder and
  cut-and-paste are not modelled. Paths are lists of components.
- The trailing-slash handling of `onGoUp`, and the internals of the combo box.
- FTP (`FTPDirRetriver`, `LibFtp`), connecting and authentication, storage of sessions and options, file properties.
