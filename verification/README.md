# A verified model of bypass

bypass is a password store: entries are OpenPGP files in a git work tree, and
devices on one network keep their repositories in step. This project models
what the store, its importers, its sync protocol and its daemon do, with git,
gpg and the transport replaced by small environments, and proves what they
promise.

* `CommitGraph`, `Audit`, `Rebase`, `Quoting`, `Sync`, `AuditSafety`, `Convergence`: commits
  as content-addressed values, the pack exchange, the leak audit, the replay
  with the take-theirs driver, and runs of any number of devices.
* `RelPath`, `GpgId`, `Vcs`, `Store`, `Bundle`: paths, recipient resolution, the
  store against a plain dictionary, the auto-commit, backup and restore.
* `Slug`, `Import`, `EntryBody`, `TreePrinter`: imported names and bodies, and the
  tree listing.
* `RateLimit`, `Peers`, `Daemon`, `Calendar`: the attempt window, the peer table,
  the daemon's events, and timestamps.
* `Options`, `Order`, `Text`: optional values, string order, string operations.

Each component that updates state is a class whose methods are proved equal to
a function on values; the theorems are lemmas about those functions.

## Environment

* A ciphertext is the set of its readers, its plaintext and a nonce; decrypting
  gives the plaintext back. gpg itself never fails.
* A commit id is taken to be a collision-free hash of the commit's content, so
  a commit is that content. `git log`, `git rebase` and the ancestry tests act on
  it as documented by git; what `Rebase.Git` lists, such as the line merge of files
  other than `*.gpg` and the header of a replayed commit, is arbitrary. An object
  database can hold a commit without its tree, and a pack can bring any objects.
* git is set up as the store sets it up: the `merge=bypass-take-theirs` attribute is
  on `*.gpg` and the driver is registered (an older `*.gpg binary` rule alone, which
  crates/bypass-core/src/store.rs:470-485 is content with, leaves `.gpg` conflicts
  unresolved). `core.quotePath` has its default value. Path names are UTF-8, every
  tree entry is a regular file, and the peer names its head by a commit id.
* Clocks, peer replies, reloads of the peer table, nonces and the manifest codec
  are parameters. So is the Unicode lowercasing of keys, of which only its effect
  on lowercase ASCII, colons and newlines is used. Integers are unbounded; the casts
  of the calendar code stay in range because a month is at most 12 and a day at
  most 31.

## Where the code and its comments differ

The model follows the code.

* The driver is described as taking the incoming side
  (crates/bypass-cli/src/sync/merge_driver.rs:7-11, doc/adr/0011). During a rebase
  the replayed local commit is "theirs", so the rebasing device's ciphertext wins
  over the one it received (`Rebase.ReplayContent`, `Convergence.RoundKeepsEdits`).
* `prepare` expects every non-empty slug to be a valid path
  (crates/bypass-core/src/import.rs:156-159). A name that slugs to `.` or `..` is
  not, and `prepare` panics (`Slug.SlugValidExactly`, `Import.PanicsExactly`).
* In-batch suffixes are meant to disambiguate. They do exactly when no slug of the
  batch already spells a suffixed one (`Import.DistinctExactly`); otherwise a later
  entry of the batch replaces an earlier one (`Import.NumberedNamesCollide`,
  `Import.ImportRefines`).
* `recipients_equal` is described as a set comparison; it compares sorted lists, so
  a repeated recipient makes the lists differ and the entry is re-encrypted
  (crates/bypass-core/src/store.rs:423-435, `Store.RepeatedRecipientDiffers`). For
  lists without repetition the two agree (`Store.RecipientsEqualExactly`).
* The audit is described as covering the incoming history. It covers the paths
  touched by its non-merge commits, as far as git prints their names unquoted, and
  nothing when the range cannot be walked (`Sync.AuditCovers`,
  `AuditSafety.MergeEscapesAudit`, `AuditSafety.AccentedPlaintextEscapes`,
  `AuditSafety.IncompleteAdoption`, `AuditSafety.MissingTreeEscapes`). What an
  accepted pull may bring in is therefore settled by
  `AuditSafety.NewHeadCleanExactly` and, over runs, by `AuditSafety.RunCleanExactly`.
* A failing `git show` is taken for a deleted file
  (crates/bypass-cli/src/sync/syncing.rs:446-449). A file that was replaced by a
  directory does not make it fail, and its description is then checked as if it were
  the file (`AuditSafety.CleanPassesExactly`, `AuditSafety.InsertRemoveInsertKeepsOut`).
* The timestamp is described as not leap-year correct
  (crates/bypass-cli/src/sync/pairing.rs:395-397). It is correct for every day
  (`Calendar.CivilInverse`, `Calendar.CivilSuccessor`).

## Model

| member | source | states |
|---|---|---|
| `CommitGraph.Acyclic` | crates/bypass-cli/src/sync/syncing.rs:320-336 | no commit is reachable from its own parents, so the two ancestry tests of the reconciliation cannot both hold for different heads |
| `CommitGraph.ClosedHoldsHistory` | crates/bypass-cli/src/sync/syncing.rs:225-240 | hiding or holding a commit means hiding or holding all it reaches |
| `Audit.CheckAllNames` | crates/bypass-cli/src/audit.rs:88-100 | the report of a batch names exactly the failing files, each with its kind |
| `Audit.CheckAllReports` | crates/bypass-cli/src/audit.rs:88-100 | the report is empty exactly when every file of the batch passes |
| `Audit.CheckFiles` | crates/bypass-cli/src/audit.rs:88-100 | the collecting loop computes that report |
| `Audit.CheckFileExactly` | crates/bypass-cli/src/audit.rs:54-86 | the verdict on any file, by the text of its name and its first bytes: editor leftovers first, then `.gpg` content, then the four metadata names, and any other name is reported |
| `Audit.PlaintextIsReported` | crates/bypass-cli/src/audit.rs:64-73 | a `.gpg` file of bytes below 0x80 that does not start with the armour line is reported as not encrypted |
| `Audit.OpenPgpPasses` | crates/bypass-cli/src/audit.rs:190-197 | every packet header of section 4.2 of RFC 4880 and the armour line pass, whatever follows |
| `Sync.PackCompletes` | crates/bypass-cli/src/sync/syncing.rs:211-292 | ingesting the pack cut for a seen head into a parent-closed store that has this head leaves it parent-closed, with every commit's tree and with the sender's head; the pack has no commits exactly when the seen head is known and already has everything; it carries nothing the sender lacks |
| `Sync.PackCarriesExactly` | crates/bypass-cli/src/sync/syncing.rs:211-258 | a pack carries the commits reachable from HEAD and not from a known seen head, and their trees without that head's own |
| `Sync.Device.BuildPack` | crates/bypass-cli/src/sync/syncing.rs:211-258 | the walk emits exactly the commits reachable from HEAD and not from the seen head, which is ignored when unknown |
| `Sync.AuditCovers` | crates/bypass-cli/src/sync/syncing.rs:405-453 | the audit is empty exactly when the log or every lookup fails, or whatever each printed path leads to at the peer head, a file or a directory, passes the check |
| `Sync.PartialListingAudits` | crates/bypass-cli/src/sync/syncing.rs:415-451 | one bad file keeps out a range whose commits git can all list, even where trees are missing |
| `Sync.RejectionNames` | crates/bypass-cli/src/sync/syncing.rs:127-150 | a rejection carries exactly the findings of the failing paths |
| `Sync.OutcomeExactly` | crates/bypass-cli/src/sync/syncing.rs:296-352 | with whole histories held, which of the outcomes is reported, by how the two heads and the two ids compare |
| `Sync.AdoptsExactly` | crates/bypass-cli/src/sync/syncing.rs:296-319 | a device without HEAD takes over the peer's exactly when it is there with its tree |
| `Sync.SameHeadUpToDate` | crates/bypass-cli/src/sync/syncing.rs:113-150 | a pull from a peer with the same HEAD is up to date, whatever the pack |
| `Sync.FastForwardsExactly` | crates/bypass-cli/src/sync/syncing.rs:296-336 | a head that extends ours is taken over exactly when the new commits and its own tree are held and our history is, or git can do without it |
| `Sync.CapExactly` | crates/bypass-cli/src/sync/syncing.rs:77-111 | a pack over 50 MiB is refused on either side and changes nothing; one from a peer without HEAD changes nothing |
| `Sync.MovesToHeld` | crates/bypass-cli/src/sync/syncing.rs:355-373 | HEAD only moves to a commit that is there with its tree, and no object is lost |
| `Sync.RebaseAddsExactly` | crates/bypass-cli/src/sync/syncing.rs:375-401 | a rebase adds the replayed commits and no others |
| `Sync.MissingStops` | crates/bypass-cli/src/sync/syncing.rs:296-336 | a commit or tree missing from a range that has to be walked leaves the device as it was |
| `Sync.DisputeFailsSync` | crates/bypass-cli/src/sync/syncing.rs:381-399 | a line conflict on a file that is not `.gpg` fails the rebase and leaves the device as it was; no exchange moves HEAD over it |
| `Sync.Device.Audit` | crates/bypass-cli/src/sync/syncing.rs:405-453 | the loop over the sorted, deduplicated path list gives that verdict |
| `Sync.Device.RebaseOnto` | crates/bypass-cli/src/sync/syncing.rs:375-401 | a rebase replays every commit of the range in order; a conflict leaves HEAD and objects as they were |
| `Sync.Device.ReconcileWith` | crates/bypass-cli/src/sync/syncing.rs:296-352 | the reconciliation as one state change, every branch and failure included |
| `Sync.Device.SyncWithPeer` | crates/bypass-cli/src/sync/syncing.rs:77-150 | one whole exchange as one state change: refusal, size cap, nothing to do, leak rejection, reconciliation |
| `Rebase.MergeTreesAt` | crates/bypass-cli/src/sync/merge_driver.rs:91-97 | a merge that goes through settles every path by the three-way rule, take-theirs on `.gpg` files |
| `Rebase.ForkSymmetric` | crates/bypass-cli/src/sync/syncing.rs:375-401 | for merge-free ranges both diverged sides branch off at one and the same commit |
| `Rebase.TodoIsRange` | crates/bypass-cli/src/sync/syncing.rs:375-401 | what is replayed is exactly the range upstream..HEAD |
| `Rebase.TodoMembers` | crates/bypass-cli/src/sync/syncing.rs:375-401 | merges or not, what is replayed is every commit of the range but its merges |
| `Rebase.TodoParentsFirst` | crates/bypass-cli/src/sync/syncing.rs:375-401 | no commit is replayed before one of its ancestors |
| `Rebase.PickDropsExactly` | crates/bypass-cli/src/sync/syncing.rs:375-401 | a replayed `.gpg` change is dropped exactly when it changed something and the tip already has all of it; otherwise the result is one commit on the tip |
| `Rebase.UntouchedSinceFork` | crates/bypass-cli/src/sync/syncing.rs:405-453 | a path no commit of a merge-free range touched reads as at the fork |
| `Rebase.ReplayKeepsLastEdit` | crates/bypass-cli/src/sync/merge_driver.rs:91-97 | a successful replay of any commits, merges or not around them, has on every path the presence and, for `.gpg` files, the content of the last replayed edit, and elsewhere the upstream's file |
| `Rebase.ReplayContent` | crates/bypass-cli/src/sync/merge_driver.rs:91-97 | a successful replay of any number of commits has the local HEAD's content on every `.gpg` path some commit touched (changed back or not), the local HEAD's presence on every touched path, and the upstream's file on every other path |
| `Rebase.OneEditMerges` | crates/bypass-cli/src/sync/syncing.rs:375-401 | where one commit of the range edits a path, a successful replay holds the three-way merge of fork, upstream and local file: the line merge on files that are not `.gpg` |
| `Rebase.DisputeStopsReplay` | crates/bypass-cli/src/sync/syncing.rs:381-399 | if that line merge has no answer, the replay fails |
| `Rebase.ReplayDescends` | crates/bypass-cli/src/sync/syncing.rs:375-401 | the rebased HEAD is, or descends from, the commit it was rebased onto |
| `Rebase.ReplaySucceedsExactly` | crates/bypass-cli/src/sync/syncing.rs:375-401 | when the range touches `.gpg` files only, the rebase succeeds exactly when no path was deleted on one side and changed differently on the other and no replayed commit leaves a file where there is a directory |
| `AuditSafety.NewHeadCleanExactly` | crates/bypass-cli/src/sync/syncing.rs:405-453 | after an empty audit the new HEAD tree is clean exactly when every file taken over unaudited, or out of the replayed commits, passes the check; for adoption, fast-forward and rebase alike, with no condition on either history |
| `AuditSafety.AdoptedCleanExactly` | crates/bypass-cli/src/sync/syncing.rs:405-453 | an accepted head's tree is clean exactly when each of its unaudited files passes the check |
| `AuditSafety.PullKeepsCleanExactly` | crates/bypass-cli/src/sync/syncing.rs:77-150 | one whole pull, with any reply, keeps a clean HEAD clean exactly when it leaves HEAD alone or those files pass |
| `AuditSafety.RunCleanExactly` | crates/bypass-cli/src/sync/syncing.rs:77-150 | over any run the HEAD tree is clean throughout exactly when every local commit is clean and every pull that moves HEAD meets that condition |
| `AuditSafety.FullyLoggedSuffices` | crates/bypass-cli/src/sync/syncing.rs:405-453 | the condition holds when neither side of the fork has a merge commit, git can walk the range with its trees and git prints the names changed in it as they are |
| `AuditSafety.CleanPassesExactly` | crates/bypass-cli/src/sync/syncing.rs:405-453 | a clean peer head is turned down exactly when a path the audit looks at is by now a directory whose description the check turns down |
| `AuditSafety.AuditDecidesExtension` | crates/bypass-cli/src/sync/syncing.rs:405-453 | for such a range that extends a clean HEAD or fills an unborn one, the audit is empty exactly when the peer's whole tree is clean and there is no such directory |
| `AuditSafety.AuditSufficesForRebase` | crates/bypass-cli/src/sync/syncing.rs:405-453 | after a divergence the audited paths suffice for the rebased tree, even if history before the fork was not clean |
| `AuditSafety.ReconcileKeepsSound` | crates/bypass-cli/src/sync/syncing.rs:296-352 | adopt, fast-forward, rebase and every quiet outcome keep the HEAD tree clean and its history held |
| `AuditSafety.RunKeepsHeadClean` | crates/bypass-cli/src/sync/syncing.rs:77-150 | so in every run of clean local commits and pulls of arbitrary content every file of the HEAD tree passes the check, given such ranges, delivered with their trees, wherever a pull moves HEAD |
| `AuditSafety.UnwalkableIsAccepted` | crates/bypass-cli/src/sync/syncing.rs:421-426 | a range git cannot walk is not audited: any target that can be checked out is taken |
| `AuditSafety.IncompleteAdoption` | crates/bypass-cli/src/sync/syncing.rs:421-426 | why whole histories are needed: an unborn device adopts any readable head whose history is incomplete |
| `AuditSafety.MissingTreeEscapes` | crates/bypass-cli/src/sync/syncing.rs:421-426 | why the trees are needed: all commits of a linear range with one tree in between missing fast-forward a device with a clean HEAD to any tree |
| `AuditSafety.UnreadableIsAccepted` | crates/bypass-cli/src/sync/syncing.rs:421-426 | any one commit of the range whose listing fails has the whole range taken unaudited |
| `AuditSafety.MergesAreNotAudited` | crates/bypass-cli/src/sync/syncing.rs:415-433 | a range of merge commits only is never audited |
| `AuditSafety.MergeEscapesAudit` | crates/bypass-cli/src/sync/syncing.rs:415-433 | why merge-free ranges are needed: a merge on top of our HEAD is fast-forwarded to, whatever its tree holds |
| `AuditSafety.QuotedNameEscapesExactly` | crates/bypass-cli/src/sync/syncing.rs:427-451 | why verbatim names are needed: a linear, complete range that adds one bad file is accepted exactly when git quotes its name |
| `AuditSafety.AccentedPlaintextEscapes` | crates/bypass-cli/src/sync/syncing.rs:427-451 | such an input: a plaintext file named `é.txt` reaches the HEAD of any clean device |
| `AuditSafety.FormerFileKeepsOut` | crates/bypass-cli/src/sync/syncing.rs:441-451 | a path that was a `.gpg` file and became a directory makes the audit turn down a range, however clean its head |
| `AuditSafety.InsertRemoveInsertKeepsOut` | crates/bypass-cli/src/sync/syncing.rs:441-451 | such an input: inserting `x`, removing it and inserting `x.gpg/y`, clean at every commit |
| `Quoting.PrintedExactly` | crates/bypass-cli/src/sync/syncing.rs:427-433 | a path is printed as another string exactly when some byte is not printable ASCII, a quote or a backslash, and that string is never a verbatim path |
| `Quoting.EscapeExactly` | crates/bypass-cli/src/sync/syncing.rs:427-433 | which bytes are escaped by a letter, by themselves and in octal |
| `Convergence.HeadMovesExactly` | crates/bypass-cli/src/sync/syncing.rs:77-150 | for any reply HEAD moves exactly when the outcome is a fast-forward or a rebase |
| `Convergence.HighestIdIsNeverRewritten` | crates/bypass-cli/src/sync/syncing.rs:338-351 | over any run of commits and pulls from ids no higher than its own, a device's HEAD only moves to descendants |
| `Convergence.OneSideRebases` | crates/bypass-cli/src/sync/syncing.rs:338-351 | of two diverged devices exactly one waits, and the other one rebases |
| `Convergence.PullEffect` | crates/bypass-cli/src/sync/syncing.rs:296-352 | one successful pull: who ends equal to, at or above whom, for every order of heads and ids |
| `Convergence.TwoPeersConverge` | crates/bypass-cli/src/sync/syncing.rs:296-352 | in any schedule of successful pulls where the lower id pulls and later the higher id pulls, the heads are equal after that and under every further pull, unborn heads included |
| `Convergence.RoundKeepsEdits` | crates/bypass-cli/src/sync/syncing.rs:338-351 | after one round between diverged peers both heads hold every `.gpg` edit of the lower id, have exactly its files on the other paths it touched, and the higher id's file on every path it did not touch |
| `Convergence.CleanPullWellExactly` | crates/bypass-cli/src/sync/syncing.rs:77-150 | a pull from a clean peer is neither refused, rejected nor failed exactly when the pack is under the cap, no logged path is by now a directory the check turns down, and no rebase conflicts |
| `Convergence.CleanPeersConverge` | crates/bypass-cli/src/sync/syncing.rs:296-352 | two clean peers without such directories whose divergence rebases converge in every schedule with packs under the cap, with nothing rejected or failed along the way |
| `Convergence.MergeableExactly` | crates/bypass-cli/src/sync/syncing.rs:375-401 | for commits on `.gpg` files only, it rebases exactly when no path was deleted on one side and changed differently on the other and no file meets a directory |
| `Convergence.PeersConverge` | crates/bypass-cli/src/sync/syncing.rs:296-352 | any number of peers with ascending ids: after each pulls from its successor, last to first, and all pull from the first, every head is equal |
| `Convergence.AnyScheduleConverges` | crates/bypass-cli/src/sync/syncing.rs:296-352 | the same for any schedule: once the lead has passed from successor to predecessor down to the first peer and every peer has pulled from it since, all heads are equal, whatever pulls come between and after |
| `Convergence.AscentLeads` | crates/bypass-cli/src/sync/syncing.rs:296-352 | such a schedule: after any pulls, one ascent from successor to predecessor gives the first peer the lead |
| `Convergence.EqualStaysEqual` | crates/bypass-cli/src/sync/syncing.rs:296-352 | equal heads stay equal under any further pulls |
| `Convergence.GrowingPeersConverge` | crates/bypass-cli/src/sync/syncing.rs:296-352 | N clean peers whose commits beyond a common history only add or change `.gpg` files: with packs under the cap nothing is rejected, nothing fails, and they converge in every such schedule |
| `Convergence.GrowingRebase` | crates/bypass-cli/src/sync/syncing.rs:375-401 | commits that only add or change `.gpg` files always rebase onto a head that has grown likewise, and the result has grown likewise |
| `RelPaths.ParentSegments` | crates/bypass-core/src/path.rs:85-88 | the parent drops exactly the last segment |
| `RelPaths.ValidBySegments` | crates/bypass-core/src/path.rs:38-72 | a path is valid exactly when every segment is non-empty, not `.` or `..`, and free of NUL and backslash |
| `RelPaths.JoinValid` | crates/bypass-core/src/path.rs:102-109 | joining a plain segment to a valid path is valid |
| `RelPaths.ParentValid` | crates/bypass-core/src/path.rs:85-88 | a parent is a valid path |
| `RelPaths.SuffixValid` | crates/bypass-core/src/store.rs:411-414 | appending a suffix that is not all dots keeps a path valid |
| `RelPaths.EntryBlobRoundTrip` | crates/bypass-core/src/store.rs:411-421 | entry and blob names are inverse to each other |
| `GpgId.ResolveRecipients` | crates/bypass-core/src/gpg_id.rs:51-69 | the upward loop computes the recursive resolution and its lookups never fail |
| `GpgId.ResolvesNearest` | crates/bypass-core/src/gpg_id.rs:51-69 | the `.gpg-id` of the deepest directory above the entry decides, whatever it holds; with none the store is uninitialised |
| `GpgId.NearestIsNamed` | crates/bypass-core/src/gpg_id.rs:51-69 | the same by file names: `<directory>/.gpg-id` of the deepest directory that has one, else `.gpg-id` |
| `GpgId.KeysExactly` | crates/bypass-core/src/gpg_id.rs:71-83 | the keys of a file are the trimmed lines that are neither empty nor comments; with none, or on a blob, it is malformed |
| `GpgId.KeysConcatenate` | crates/bypass-core/src/gpg_id.rs:71-83 | the keys of two texts one below the other are those of the first followed by those of the second |
| `GpgId.ResolveIgnoresBlobs` | crates/bypass-core/src/gpg_id.rs:51-69 | entry blobs never influence the recipients |
| `Vcs.StageAt` | crates/bypass-cli/src/vcs_git2.rs:113-121 | staging makes the index agree with the work tree on the listed paths, deletions included, and changes no other |
| `Vcs.CommitSkips` | crates/bypass-cli/src/vcs_git2.rs:98-106 | without paths or repository nothing happens; a busy repository refuses |
| `Vcs.Git2Vcs.Commit` | crates/bypass-cli/src/vcs_git2.rs:98-144 | the commit loop: no-op without paths or repository, refusal mid-operation, no empty commit |
| `Store.WriteBlob` | crates/bypass-core/src/store.rs:226-244 | writing one blob changes one dictionary entry, no recipients and no other keying |
| `Store.RemoveBlob` | crates/bypass-core/src/store.rs:290-300 | removing one blob removes one dictionary entry, and changes no recipients or other keying |
| `Store.RecipientsEqualSameReaders` | crates/bypass-core/src/store.rs:426-435 | equal recipient lists have the same readers |
| `Store.RecipientsEqualExactly` | crates/bypass-core/src/store.rs:423-435 | lists without repetition compare equal exactly when they are the same set |
| `Store.RepeatedRecipientDiffers` | crates/bypass-core/src/store.rs:423-435 | a repeated recipient makes two lists of the same set differ |
| `Store.InsertRefines` | crates/bypass-core/src/store.rs:226-244 | insertion succeeds exactly when recipients resolve, and then updates the dictionary and keys the entry |
| `Store.TransferRefines` | crates/bypass-core/src/store.rs:342-377 | exactly when copy and rename are refused, with which error, and when they succeed; the bytes are kept exactly between equal recipient lists and re-encrypted to the destination's otherwise; the keying holds either way |
| `Store.TransferFailsExactly` | crates/bypass-core/src/store.rs:342-377 | in any store, keyed or not, which error a transfer reports |
| `Store.RemoveRecursiveRefines` | crates/bypass-core/src/store.rs:391-406 | removing a subtree removes exactly the entries below `prefix/` |
| `Store.ApplyRefines` | crates/bypass-core/src/store.rs:185-406 | each operation is refused as, or acts as, the same operation on a plain dictionary; errors other than a dirty tree change nothing; keying is kept |
| `Store.CommitAgrees` | crates/bypass-cli/src/vcs_git2.rs:98-144 | committing all changed paths brings index, HEAD and storage together, by at most one commit on the old HEAD, and none exactly when the staged tree is HEAD's |
| `Store.ApplyAgrees` | crates/bypass-core/src/store.rs:185-406 | every successful operation keeps index, HEAD tree and storage in agreement and adds at most one commit |
| `Store.RunRefines` | crates/bypass-core/src/store.rs:185-406 | every run of successful operations is the same run on a plain dictionary and keeps keying and agreement |
| `Store.PasswordStore.InsertEntry` | crates/bypass-core/src/store.rs:185-208 | the method has the specified new state and error |
| `Store.PasswordStore.WriteEntry` | crates/bypass-core/src/store.rs:226-244 | as above, for the insertion without a commit |
| `Store.PasswordStore.Transfer` | crates/bypass-core/src/store.rs:342-377 | as above, for the shared body of copy and rename |
| `Store.PasswordStore.CopyEntry` | crates/bypass-core/src/store.rs:307-313 | as above |
| `Store.PasswordStore.RenameEntry` | crates/bypass-core/src/store.rs:318-336 | as above |
| `Store.PasswordStore.RemoveEntry` | crates/bypass-core/src/store.rs:290-300 | as above |
| `Store.PasswordStore.RemoveSubtree` | crates/bypass-core/src/store.rs:391-406 | as above, returning the removed entries |
| `Bundle.BackupHolds` | crates/bypass-cli/src/backup.rs:25-109 | a backup succeeds exactly when there are entries and root recipients; it is a version-1 manifest naming the root recipients and the number of entries, then one member `entries/<path>` per listed entry, and holds exactly the selected dictionary |
| `Bundle.RunBackup` | crates/bypass-cli/src/backup.rs:25-109 | the decrypting loop builds that bundle, or stops at the first entry that cannot be read |
| `Bundle.VisitRefines` | crates/bypass-core/src/bundle.rs:207-229 | reading a bundle succeeds exactly when each of its entries has recipients, and then writes exactly its entries, re-keyed |
| `Bundle.VisitAll` | crates/bypass-core/src/bundle.rs:207-229 | the reading loop writes exactly what the visits write, up to the first failure |
| `Bundle.RestoreSucceedsExactly` | crates/bypass-cli/src/restore.rs:33-147 | when a restore of any well-formed bundle, even one without entries, succeeds |
| `Bundle.RestoreRefuses` | crates/bypass-cli/src/restore.rs:33-147 | with which error a restore refuses to begin; it then changes nothing |
| `Bundle.BadMemberStops` | crates/bypass-core/src/bundle.rs:207-229 | a member that is no valid entry stops the reading, with exactly the members before it written |
| `Bundle.RestoreRefines` | crates/bypass-cli/src/restore.rs:33-147 | a restore overrides exactly the bundle's entries, keys them to their current recipients and leaves the repository in agreement, at most one commit later |
| `Bundle.BackupThenRestore` | crates/bypass-cli/src/restore.rs:52-137 | backing up a store and restoring into one without entries gives the same dictionary, keyed to the new recipients |
| `Bundle.RotateInPlace` | crates/bypass-cli/src/restore.rs:52-137 | restoring in place after any change of `.gpg-id` files keeps the dictionary, re-keys every entry and adds at most one commit on the old HEAD |
| `Bundle.RunRestore` | crates/bypass-cli/src/restore.rs:33-147 | the visitor loop and the single commit have the specified effect, partial writes on error included |
| `Slug.ComputeSlug` | crates/bypass-core/src/import.rs:230-268 | the two buffer-filling passes compute the slug |
| `Slug.SlugIdempotent` | crates/bypass-core/src/import.rs:230-268 | slugging a slug changes nothing |
| `Slug.SlugOfJoin` | crates/bypass-core/src/import.rs:230-268 | slugging a `/`-join equals joining the non-empty slugs of the parts |
| `Slug.SlugValidExactly` | crates/bypass-core/src/import.rs:154-160 | a non-empty slug is a valid path exactly when no `/`-part of the input slugs to `.` or `..` |
| `Slug.DotDotSlugs` | crates/bypass-core/src/import.rs:154-160 | an input for which the slug is not a valid path |
| `Slug.SlugReadsCapital` | crates/bypass-core/src/import.rs:230-268 | anywhere in the text a capital counts as its small letter |
| `Slug.SlugReadsWhitespace` | crates/bypass-core/src/import.rs:230-268 | whitespace counts as a dash |
| `Slug.SlugSkips` | crates/bypass-core/src/import.rs:230-268 | any other character outside the alphabet counts as absent |
| `Slug.SlugReadsDashes` | crates/bypass-core/src/import.rs:230-268 | two dashes count as one, and outer dashes as none |
| `Import.NumberPaths` | crates/bypass-core/src/import.rs:164-189 | the counting loop gives each entry its path or the next number |
| `Import.DistinctExactly` | crates/bypass-core/src/import.rs:164-189 | the final paths are pairwise distinct exactly when no slug spells `<other slug>-<n>` with n from 2 up to that slug's multiplicity |
| `Import.DesiredPathExactly` | crates/bypass-core/src/import.rs:138-160 | a path is the non-empty slugs of folder and name, joined |
| `Import.NumberedNamesCollide` | crates/bypass-core/src/import.rs:164-189 | an input whose final paths collide: entries named `a`, `a` and `a-2` |
| `Import.FinalPathsValid` | crates/bypass-core/src/import.rs:170-173 | a numbered path is a valid path |
| `Import.PanicsExactly` | crates/bypass-core/src/import.rs:150-160 | preparation panics exactly when the first entry without a usable path has a part that slugs to `.` or `..` |
| `Import.DotDotPanics` | crates/bypass-core/src/import.rs:150-160 | such an input: an entry named `..` |
| `Import.UnnamedExactly` | crates/bypass-core/src/import.rs:138-160 | the reported nameless entry is the first of the unusable ones and has no character that survives |
| `Import.CollisionsReported` | crates/bypass-core/src/import.rs:193-205 | a collision refusal names exactly the colliding paths, sorted and once each |
| `Import.PrepareEntries` | crates/bypass-core/src/import.rs:132-218 | the four passes compute the specified outcome |
| `Import.PreparedItems` | crates/bypass-core/src/import.rs:132-218 | one item per entry, in order: its final path, valid and absent from the store, and its serialised body |
| `Import.FinalPathExactly` | crates/bypass-core/src/import.rs:164-189 | the first entry at a path keeps it, the n-th one gets `-n` appended |
| `Import.ImportRefines` | crates/bypass-cli/src/import.rs:74-92 | a refused import writes nothing; a successful one keeps every existing plaintext, adds the prepared entries keyed to their recipients as one commit, and loses none exactly when no slug spells another's number |
| `Import.ImportedBodies` | crates/bypass-cli/src/import.rs:74-92 | after an import each path holds the serialised body of the last entry that went to it |
| `Import.ImportSucceedsExactly` | crates/bypass-cli/src/import.rs:38-98 | an import succeeds exactly when there is something to import, every entry has a usable path, no final path is taken, each has recipients, and the repository is not in the middle of something |
| `Import.ImportStops` | crates/bypass-cli/src/import.rs:74-92 | the first entry without recipients stops an import: the entries before it stay written and nothing is committed |
| `Import.ImportRefuses` | crates/bypass-cli/src/import.rs:68-92 | the two refusals of an import, which change nothing |
| `Import.RunImport` | crates/bypass-cli/src/import.rs:38-98 | the insertion loop and single commit have the specified effect |
| `EntryBody.ParseStr` | crates/bypass-core/src/entry.rs:52-72 | the line loop computes the parse |
| `EntryBody.SerialiseBody` | crates/bypass-core/src/import.rs:275-341 | the appending passes write the specified body |
| `EntryBody.SerialisedText` | crates/bypass-core/src/import.rs:275-358 | the text of a body: password, login, custom fields, otpauth, urls, and the notes after a blank line |
| `EntryBody.FlattenOne` | crates/bypass-core/src/import.rs:356-358 | flattening character by character: a newline becomes a backslash and an `n`, a carriage return goes, any other character stays |
| `EntryBody.FlattenConcatenates` | crates/bypass-core/src/import.rs:356-358 | and of a concatenation it is the concatenation |
| `EntryBody.BodyRoundTrip` | crates/bypass-core/src/import.rs:275-358 | parsing a serialised body gives the flattened password, login, custom fields, otpauth, url, url-2, … and the notes' fields, in order, exactly when no trimmed custom key holds a colon or newline |
| `EntryBody.PasswordKept` | crates/bypass-core/src/import.rs:275-310 | a password on one line is read back as it is |
| `EntryBody.ImportedFields` | crates/bypass-core/src/import.rs:275-358 | the fields read back from an imported body, each value by its text |
| `EntryBody.PasswordLine` | crates/bypass-core/src/entry.rs:52-72 | the first line is the password, without one carriage return at its end |
| `EntryBody.FieldLine` | crates/bypass-core/src/entry.rs:52-72 | a line with a colon is one field, trimmed; a line without one is none |
| `EntryBody.LookupExactly` | crates/bypass-core/src/entry.rs:80-87 | a lookup finds the first field of that name |
| `EntryBody.OwnKeysKept` | crates/bypass-core/src/import.rs:283-330 | the keys the importer chooses are read back as they are |
| `EntryBody.LoginIsFound` | crates/bypass-core/src/entry.rs:80-87 | the imported login is found under any letter case of its name |
| `TreePrinter.InsertAdds` | crates/bypass-cli/src/tree.rs:19-24 | inserting a path adds exactly its prefixes to the trie |
| `TreePrinter.BuildHas` | crates/bypass-cli/src/tree.rs:17-24 | the trie holds exactly the prefixes of the inputs, in key order |
| `TreePrinter.ListsEveryPath` | crates/bypass-cli/src/tree.rs:37-53 | every path has its line: a corner mark and blanks exactly below the last of its siblings, a tee and a bar below the others |
| `TreePrinter.LinesInjective` | crates/bypass-cli/src/tree.rs:37-53 | different tries print different lines, at any indentation |
| `TreePrinter.RenderedExactly` | crates/bypass-cli/src/tree.rs:17-53 | two newline-free inputs print the same text under one header exactly when they have the same path prefixes |
| `TreePrinter.RenderNode` | crates/bypass-cli/src/tree.rs:37-53 | the recursive printer appends exactly the lines of the subtree |
| `TreePrinter.Render` | crates/bypass-cli/src/tree.rs:17-30 | the insertion loop and printer give the specified listing |
| `RateLimit.AttemptLog.CheckAndRecord` | crates/bypass-cli/src/sync/ratelimit.rs:100-117 | the pruning loop and the push have the specified new state and verdict |
| `RateLimit.StepTracks` | crates/bypass-cli/src/sync/ratelimit.rs:100-117 | each attempt keeps the bucket the unexpired tail of its key's accepted attempts and leaves other keys alone |
| `RateLimit.NothingExpiredKept` | crates/bypass-cli/src/sync/ratelimit.rs:100-107 | after an attempt, accepted or not, no expired one is kept |
| `RateLimit.RefusedExactly` | crates/bypass-cli/src/sync/ratelimit.rs:100-117 | an attempt is refused exactly when the whole budget was accepted in the window ending now |
| `RateLimit.RetryAfterExactly` | crates/bypass-cli/src/sync/ratelimit.rs:108-114 | after a refusal attempts up to and including now + retry_after are refused, with the same deadline, and any later one is accepted |
| `RateLimit.DefaultBudget` | crates/bypass-cli/src/sync/ratelimit.rs:22-24 | with the default constants: at most three attempts in every minute |
| `RateLimit.RunWithinBudget` | crates/bypass-cli/src/sync/ratelimit.rs:100-117 | over every run, each closed interval of one window holds at most the budget of accepted attempts per key |
| `RateLimit.YoungClockForgets` | crates/bypass-cli/src/sync/ratelimit.rs:101-107 | why the clock must be past one window where instants are unsigned: before that every earlier attempt is forgotten |
| `Peers.PeerTable.Upsert` | crates/bypass-cli/src/sync/peers.rs:140-153 | a record replaces the one with its id in place or is appended; ids stay unique |
| `Peers.PeerTable.Remove` | crates/bypass-cli/src/sync/peers.rs:157-160 | the first record with the name is removed; ids stay unique |
| `Daemon.ReloadExactly` | crates/bypass-cli/src/sync/daemon.rs:119-138 | after a reload exactly the listed ids are pinned, and a survivor keeps its runtime state exactly when it is listed once |
| `Daemon.ReloadKeepsFlagExactly` | crates/bypass-cli/src/sync/daemon.rs:119-138 | when a reload keeps the in-flight flag truthful |
| `Daemon.InboundExactly` | crates/bypass-cli/src/sync/daemon.rs:271-304 | a request is logged as served exactly when its peer is pinned after the reload and its actions in the window are below the budget; an unpinned peer leaves the limiter alone |
| `Daemon.StrangersNeverAct` | crates/bypass-cli/src/sync/daemon.rs:271-304 | over every run, a peer that was not pinned and that no reload lists is never served, dialled or counted |
| `Daemon.StepLogsExactly` | crates/bypass-cli/src/sync/daemon.rs:271-396 | which event adds an action of which peer |
| `Daemon.FinishExactly` | crates/bypass-cli/src/sync/daemon.rs:378-395 | the end of a sync takes one live sync of that peer away and logs nothing |
| `Daemon.StepStartsExactly` | crates/bypass-cli/src/sync/daemon.rs:309-396 | which event starts a sync to which peer |
| `Daemon.StepShows` | crates/bypass-cli/src/sync/daemon.rs:309-396 | how address, visibility and last sync of a peer follow the events |
| `Daemon.RunKeepsFlag` | crates/bypass-cli/src/sync/daemon.rs:271-396 | over every run that keeps a peer pinned, its flag is set exactly while one sync to it is live, never two |
| `Daemon.RunSharesBudget` | crates/bypass-cli/src/sync/daemon.rs:271-396 | over every run, served requests plus started syncs of a peer stay within the window budget |
| `Daemon.DaemonState.ApplyPeers` | crates/bypass-cli/src/sync/daemon.rs:119-138 | the rebuilding loop computes the reload |
| `Daemon.DaemonState.HandleInbound` | crates/bypass-cli/src/sync/daemon.rs:271-304 | the handler has the specified new state |
| `Daemon.DaemonState.HandleDiscovered` | crates/bypass-cli/src/sync/daemon.rs:309-328 | as above |
| `Daemon.DaemonState.HandleExpired` | crates/bypass-cli/src/sync/daemon.rs:329-335 | as above |
| `Daemon.DaemonState.SyncKnownPeers` | crates/bypass-cli/src/sync/daemon.rs:338-350 | as above, for a change of the store's files |
| `Daemon.DaemonState.SpawnSyncWithPeer` | crates/bypass-cli/src/sync/daemon.rs:352-396 | as above |
| `Daemon.DaemonState.FinishSync` | crates/bypass-cli/src/sync/daemon.rs:378-395 | as above, for a sync that ends |
| `Calendar.DayNumberCounts` | crates/bypass-cli/src/sync/pairing.rs:413-425 | the reference day count starts at 1970-01-01 and steps with the Gregorian calendar |
| `Calendar.CivilRoundTrip` | crates/bypass-cli/src/sync/pairing.rs:413-425 | for every integer the conversion gives a valid date with that day number |
| `Calendar.CivilInverse` | crates/bypass-cli/src/sync/pairing.rs:413-425 | every valid date is the conversion of its day number |
| `Calendar.CivilSuccessor` | crates/bypass-cli/src/sync/pairing.rs:413-425 | the next day number converts to the next calendar day |
| `Calendar.FormatRoundTrip` | crates/bypass-cli/src/sync/pairing.rs:401-411 | up to the year 9999 the timestamp text decodes to its instant (sections 5.6 and 5.7 of RFC 3339) |
| `Calendar.FormatShape` | crates/bypass-cli/src/sync/pairing.rs:401-411 | the text has twenty characters, with the separators of section 5.6 of RFC 3339 in their places and digits elsewhere |
| `Calendar.FormatSortsByTime` | crates/bypass-cli/src/sync/pairing.rs:401-411 | up to the year 9999 timestamps sort as text in time order (section 5.1 of RFC 3339) |

## Left out

- Rebase.ReplaySucceedsExactly: the exact condition is stated for ranges that touch `.gpg` files only, because the line merge of other files is git's own.
- Convergence.TwoPeersConverge: assumes that no pull of the schedule is rejected, fails or refuses its pack; CleanPeersConverge says when that is so.
- Convergence.PeersConverge: makes the same assumption; GrowingPeersConverge does without it where commits only add or change `.gpg` files.
- Convergence.AnyScheduleConverges: a condition on the schedule that suffices; nothing is said of schedules in which a peer pulls back from a lower one before the first peer leads.
- Daemon.RunKeepsFlag: assumes the peer stays pinned and listed once; ReloadKeepsFlagExactly says what happens otherwise.
- git details: rename detection during a rebase, the dropping of commits whose patch the upstream already has, dangling objects of an aborted rebase, and the date order in which parallel sides of a merge are replayed (the model takes one order with parents first).
- Working tree and index of the sync side: `git reset --hard` and `git rebase` are modelled on HEAD and objects only.
- Path names are those a git tree can hold and valid UTF-8; the audit sorts them as text, the code by path components, which only affects the order of the report.
- Partial failures of gpg, the file system and git processes; directory clashes between an entry and a blob name.
- `restore` looks for marker files and the auto-commit asks libgit2; both are one flag here, so a bisect in progress counts for both.
- Commit messages, authors, and the history queries `log` and `find`.
- `Store::init` and the `.gitattributes` rule.
- The lossiness report of an import, and lossy decoding of a password that is not UTF-8.
- The mutable cursor of the trie insertion: the trie is a value, its `BTreeMap` a sorted list; same for the archive stream of a bundle, a list of named members.
- The order in which the daemon visits its known peers is sorted here and unspecified there; one event carries one clock reading.
- SPAKE2 pairing, libp2p, wire framing, the watcher, the status socket, the native host, Android and the browser extension.
- The Bitwarden, KeePass and CSV field mappings, and the extension's NDJSON reader.
- audit_for_push: the same check over `git diff` against a remote.
