# Button tree, undo log and file sync of a Telegram bot

This project models the state-handling core of a Telegram bot. The bot
serves a tree of buttons, and an admin edits that tree from the chat. It has
two parts.

**The button tree and its undo/redo log** (`main.py`). The database maps each
node id to a record `{name, parent, children, contents}`. A first run creates
a lone `"root"` node. The admin edits the tree with these operations:

- delete a child together with its whole subtree (`delete_node_recursive`);
- deep-copy an existing node under the current one (`clone_node`);
- add a new empty child;
- rename a node;
- clear the current node's contents, or append collected contents to them;
- reorder the children one choice at a time.

Before each edit, `push_admin_history` records a snapshot. The history keeps
at most `MAX_HISTORY` = 20 snapshots and empties the redo list. Undo and redo
swap whole trees between the two lists. Importing a backup and `/start` drop
both lists. `escape_md` escapes a node id for the MarkdownV2 reply.

**The sync watcher** (`supasync.py`). Each tick, the watcher visits the two
tracked files in turn:

1. It fingerprints the file.
2. It pushes the file's JSON content when the fingerprint differs from the
   one recorded in `last_hash`.
3. It then tries a restore from the remote table when the file is missing or
   empty.

A restore is skipped within 20 seconds of the last push, on a non-200 reply,
or when the reply has no rows. `initial_restore` runs the restore check alone.

## How it is modelled

Modules:

- `Wrappers` (`wrappers.dfy`): the `Option` type.
- `UndoLog` (`history.dfy`): the two lists as a value `Log(history, future)`.
  `Push`, `Undo` and `Redo` are its operations.
- `Markdown` (`escape.dfy`): `escape_md` as a method with a loop. It is
  specified by the function `Escaped`, and MarkdownV2's reading of an
  escaped text is the function `Unescape`.
- `ButtonTree` (`tree.dfy`): the tree as `map<Id, Node>`, the shape every
  stored tree keeps (`WellFormed`), and the tree edits as functions with
  lemmas about them.
  - The recursion of delete and clone terminates because children are born
    after their parents. A proof-only birth order (`Ranking`) records this,
    and `WellFormed` requires it.
  - `Subtree` is the set of ids delete removes. `SubtreeIsReachable` proves
    it is exactly the set reachable along children edges.
  - `CloneTree` and `CloneForest` give the copy `clone_node` builds.
    - `uuid.uuid4()` is an injective oracle `uuid: nat -> Id`.
    - The session counts how many answers it has used (`issued`).
    - Ids are drawn in pre-order.
- `Admin` (`admin.dfy`): the class `Session`. Its fields are those of the
  bot's `user_data`:
  - `db`, `history` and `future`;
  - `current` (the current node);
  - `pending` (`temp_content`);
  - `renameTarget`;
  - `reorder` (`reorder_mode`, `reorder_remaining` and `reorder_result`).

  Each handler branch is a method whose `ensures` gives the new tree and log
  in terms of the old ones. Every method keeps `Valid()`: the tree and every
  snapshot are well formed, the log is within its bound, and the remaining
  uuid answers are fresh. `delete_node_recursive` and `clone_node` are
  recursive methods over the tree value, with a `for` loop over the
  children.
- `Sync` (`sync.dfy`): the class `Watcher`. It holds:
  - the local files (`map<Path, Bytes>`);
  - `lastHash`;
  - `lastLocalWrite`;
  - the list of POST payloads sent so far.

  One file's turn is the function `Step`, which is `PushCheck` followed by
  `RestoreCheck`. A tick is the `for` loop `Tick`, proved equal to the
  left-to-right fold `Ticked` over `FILES`. The fingerprint and the JSON
  codec are parameters (`Library`). The clock readings and the HTTP reply of
  a turn are one `Moment`.

Behaviours of the code that the model keeps as written:

- **Check order.** The watcher makes its push check before its restore
  check. A wiped file that was hashed before is therefore pushed as `{}`,
  and that push suppresses the restore (`Sync.WipedFilePushesEmpty`).
- **Empty file.** A file counts as empty only at zero bytes.
- **Clone under a descendant.** Copying a node under itself or under one of
  its descendants is allowed and terminates. The copy is attached only after
  it is complete (`ButtonTree.CloneIntoKeepsWellFormed`).
- **Plain-add snapshot.** The plain add records its snapshot after storing
  the new record. An undo of the add therefore keeps the record, unlisted
  and unreachable from the root (`ButtonTree.UndoneAddLeavesOrphan`). So
  after adding A, adding B under A, deleting A and undoing twice, the tree
  holds three keys, not two.
- **Redo bound.** Redo's append to the history checks no bound. The bound
  holds anyway (`UndoLog.RedoBounded`).
- **Empty id.** The delete and reorder handlers test the id they found with
  `if target_id:` and `if selected_id:`. An id `""` therefore counts as not
  found.
- **Reorder.** Reorder does not check that its lists still match the
  current node's children, and a delete does not end a running reorder.
  See "## Findings".

## Model

| member | source | states |
|---|---|---|
| UndoLog.Push | main.py:42-51 | the pushed tree is the newest snapshot; below 20 snapshots it is appended, otherwise the oldest is dropped and the length stays; the redo list is empty |
| UndoLog.Undo | main.py:761-784 | nothing to undo exactly when the history is empty; otherwise the newest snapshot is returned and removed, and the current tree is appended to the redo list |
| UndoLog.Redo | main.py:788-808 | nothing to redo exactly when the redo list is empty; otherwise its newest tree is returned and removed, and the current tree is appended to the history |
| UndoLog.Cleared | main.py:1036-1037 | an import leaves both lists empty |
| UndoLog.PushBounded | main.py:42-51 | a push keeps history plus redo list within 20 |
| UndoLog.UndoBounded | main.py:767-773 | an undo keeps history plus redo list within 20 |
| UndoLog.RedoBounded | main.py:795-800 | a redo keeps the bound although its append checks none; the history stays within 20 |
| UndoLog.RedoUndoes | main.py:761-808 | a redo right after an undo reinstalls the pre-undo tree and restores both lists |
| UndoLog.UndoRedoes | main.py:761-808 | an undo right after a redo reinstalls the pre-redo tree and restores both lists |
| UndoLog.UndoAfterPush | main.py:42-51 | an undo after a push brings back the tree the push recorded, with only the tree it replaced to redo |
| UndoLog.NoRedoAfterPush | main.py:50-51 | after a push there is nothing to redo |
| UndoLog.RunBounded | main.py:42-51 | over any run of edits, undos and redos the history never exceeds 20 snapshots |
| Markdown.EscapeMd | main.py:688-692 | the loop of `str.replace` passes returns the text with each special character escaped exactly once and nothing else changed |
| Markdown.ReplaceChar | main.py:690-691 | `str.replace` of a character that does not occur changes nothing |
| Markdown.SpecialsDistinct | main.py:689 | the escape list repeats no character and holds no backslash, so the passes do not interfere |
| Markdown.ReplaceEscapes | main.py:690-691 | one more replace pass on text escaped for the earlier characters gives the text escaped for one more character |
| Markdown.EscapedLength | main.py:688-692 | the output is longer by exactly the number of special characters |
| Markdown.EscapedPlain | main.py:688-692 | text without special characters is returned unchanged |
| Markdown.UnescapeEscaped | main.py:688-692 | MarkdownV2 reads back exactly the original text when it holds no backslash |
| Markdown.UnescapeEscapedReads | main.py:688-692 | for every text, MarkdownV2 reads back the text with each backslash that precedes a non-special character dropped, and nothing else changed |
| Markdown.BackslashSwallowed | main.py:688-692 | for every text with a backslash followed by a non-special character, the escaped text does not read back as the original, because escape_md leaves backslashes alone |
| ButtonTree.SubtreeIsReachable | main.py:25-35 | the ids delete_node_recursive removes are exactly those reachable from the id along children edges |
| ButtonTree.DeleteLoopStep | main.py:30-32 | each round of the loop over the children removes exactly the next child's subtree from what is left |
| ButtonTree.RemoveFirstFacts | main.py:593 | `list.remove` takes out one occurrence; on a list without repeats the id is gone and no repeat appears |
| ButtonTree.DetachFacts | main.py:593 | unlisting a child keeps every key and only shrinks children lists; the child is no longer listed under the current node |
| ButtonTree.DetachedSubtreeUnreferenced | main.py:590-596 | after the unlisting no surviving node lists a member of the deleted subtree |
| ButtonTree.DeleteChildKeepsWellFormed | main.py:589-596 | unlisting a child then deleting its subtree removes exactly that subtree, keeps the current node and the root, and leaves a well-formed tree |
| ButtonTree.DeleteOutcome | main.py:589-596 | the subtree deleted after the unlisting is the child's subtree in the tree before it |
| ButtonTree.PermutedChildrenKeepWellFormed | main.py:749 | installing a permutation of a node's children keeps the tree well formed |
| ButtonTree.RecordEditKeepsWellFormed | main.py:852 | changing a record's name or contents keeps the tree well formed |
| ButtonTree.CloneTree | main.py:895-911 | the copy of one node draws its id first, and its keys are exactly the oracle answers it used |
| ButtonTree.CloneForest | main.py:907-909 | the copies of the children, one per child in order, use a contiguous run of oracle answers |
| ButtonTree.CloneTreeShaped | main.py:895-911 | within a copy every children list names copied records whose parent agrees, repeats nothing, and lists younger ids |
| ButtonTree.CloneTreeMirrors | main.py:895-911 | the copy reproduces the source node and all its descendants: same names, same contents, same child order |
| ButtonTree.CloneForestMirrors | main.py:907-909 | the copies of a list of siblings reproduce them one by one, in order |
| ButtonTree.CloneIntoFacts | main.py:892-914 | the new root has a fresh id, is listed last under the current node with that node as parent, reproduces the source, and no other existing record changes |
| ButtonTree.CloneIntoKeepsWellFormed | main.py:892-914 | storing the copy keeps the tree well formed even when the source is the current node or one of its ancestors |
| ButtonTree.WithOrphan | main.py:924-932 | the tree the plain add snapshots has one more key |
| ButtonTree.WithOrphanWellFormed | main.py:924-932 | that snapshot is a well-formed tree |
| ButtonTree.WithNewButtonWellFormed | main.py:924-934 | after a plain add the tree is well formed, the new record has the typed name, the current node as parent and nothing else, it is listed last under the current node, and no other record changes |
| ButtonTree.UndoneAddLeavesOrphan | main.py:924-934 | the snapshot of a plain add holds the new record, differs from the tree before, and the new record is unreachable from the root |
| Admin.LabelNameRecovered | main.py:578-579 | `text.replace(prefix, "")` on the label `prefix + name` gives back the name when the prefix does not occur in it |
| Admin.FirstLabelled | main.py:581-585 | the position of the first id whose label matches the text; None exactly when no label matches |
| Admin.FindLabel | main.py:581-585 | the `for ... break` search returns that first position |
| Admin.IsValidNodeId | main.py:863-864 | true exactly when the text is a key of the tree |
| Admin.InstallOrder | main.py:749 | the chosen order becomes the current node's children and the keys stay |
| Admin.StaleReorderBreaksTree | main.py:729-759 | finishing a reorder started on another node breaks a well-formed tree and unlists the root's own child |
| Admin.ScanLabels | main.py:733-737 | the reorder search as written stops at the first id whose "🔀 " label is the text, raises KeyError at the first id that is no longer a key when no earlier label matches, and agrees with FirstLabelled when every id is a key |
| Admin.DeletedChoiceRaises | main.py:577-605 | deleting a child while a reorder of its parent waits leaves its id in the dialogue: every later text except the remaining label raises KeyError in the reorder branch, "↩️" and "↪️" included, and that label leaves only the deleted id, on which every text raises; the dialogue no longer matches the parent's children |
| Admin.DeleteNodeRecursive | main.py:25-35 | the result is the tree without the id and its subtree; an absent id changes nothing |
| Admin.CloneNode | main.py:895-911 | the dictionary gains exactly the records of the copy, the counter moves past the answers used, and the returned id is the first answer drawn |
| Admin.CloneChild | main.py:907-909 | one round of the loop copies the next child and appends its id to the new node's children |
| Admin.CloneLoopStep | main.py:907-909 | the state after one more round is the copy of one more child |
| Admin.CopyUnder | main.py:892-914 | the copy branch yields the tree with the copy stored and listed under the current node, and a consistent session state |
| Admin.PushSnapshots | main.py:42-51 | a push on a log of well-formed snapshots leaves only well-formed snapshots |
| Admin.PopSnapshot | main.py:767-773 | an undo or redo installs a well-formed snapshot and leaves well-formed lists |
| Admin.InitialConsistent | main.py:90-102 | the lone root of a first run, with an empty log, is a consistent session state |
| Admin.DeleteKeeps | main.py:589-596 | a snapshot then the delete keep the session state consistent |
| Admin.RecordEditKeeps | main.py:852 | a snapshot then a name or contents edit keep the session state consistent |
| Admin.ReorderKeeps | main.py:748-749 | a snapshot then a permutation of the children keep the session state consistent |
| Admin.AddPlainKeeps | main.py:924-934 | the plain add keeps the session state consistent, its orphan snapshot included |
| Admin.AddCopyKeeps | main.py:905-914 | the copy keeps the session state consistent under the birth order of the copied ids |
| Admin.UndoKeeps | main.py:767-776 | an undo installs a snapshot holding the root and keeps the session state consistent |
| Admin.RedoKeeps | main.py:795-802 | a redo installs a tree holding the root and keeps the session state consistent |
| Admin.ClearedKeeps | main.py:241 | dropping the log keeps the session state consistent |
| Admin.ImportKeeps | main.py:1032-1039 | installing a well-formed imported tree with an empty log keeps the session state consistent |
| Admin.MoveKeepsIds | main.py:740-741 | moving the chosen id from the remaining list to the result keeps the ids of the dialogue |
| Admin.Session.constructor | main.py:90-102 | a first run starts on the lone root with empty lists and no dialogue |
| Admin.Session.PushHistory | main.py:42-51 | the log becomes the push of the current tree |
| Admin.Session.DeleteButton | main.py:577-605 | the first child with the name is unlisted and its subtree deleted after a snapshot; with no such child, or when its id is "", nothing changes and no snapshot is taken |
| Admin.Session.DeleteChild | main.py:589-596 | a snapshot, then the tree without the child in the list and without its subtree |
| Admin.Session.ClearContents | main.py:653-661 | a snapshot, then the current node's contents are empty and nothing else changes |
| Admin.Session.StartContent | main.py:552-558 | collection starts with no items |
| Admin.Session.Collect | main.py:988-989 | the item is appended to the collected items |
| Admin.Session.FinalizeContent | main.py:952-969 | with items collected, a snapshot, then the items are appended to the current node's contents; with none nothing changes |
| Admin.Session.PickRenameTarget | main.py:642-651 | the first child with the name becomes the rename target; with none the target stays |
| Admin.Session.Rename | main.py:840-857 | cancel changes nothing; a target that still exists gets the new name after a snapshot; otherwise nothing changes |
| Admin.Session.HashOf | main.py:681-702 | the escaped id of the first child with the name, or None when no child has it |
| Admin.Session.AddButton | main.py:881-940 | cancel changes nothing; an existing id is copied under the current node after a snapshot; other text becomes a new child with the snapshot taken after the record is stored |
| Admin.Session.AddCopy | main.py:892-914 | a snapshot, then the tree with the copy of the source listed last under the current node |
| Admin.Session.AddPlain | main.py:923-934 | one oracle answer is used, the tree gains the new child, and the snapshot holds the unlisted record |
| Admin.Session.StartReorder | main.py:706-717 | with two or more children a reorder of exactly those children starts; otherwise nothing changes |
| Admin.Session.ReorderStep | main.py:728-759 | with no dialogue nothing changes; a dialogue whose ids are no longer the current node's children is dropped with tree and log unchanged; otherwise the press has the outcome Admin.ApplyChoice gives; a running dialogue keeps exactly the current node's children |
| Admin.ApplyChoice | main.py:731-750 | a press moves the first remaining id whose "🔀 " label is the text, unless that id is "", to the end of the chosen order, keeping the dialogue's ids; with no match nothing changes; once none remains the chosen order is the result |
| Admin.Session.Choose | main.py:731-750 | no match leaves tree, log and dialogue as they were; a move leaves tree and log and continues the dialogue with the id moved; the last move installs the chosen order as the current node's children after a snapshot and ends the dialogue |
| Admin.Session.InstallChosen | main.py:747-754 | a snapshot, then the chosen order as the current node's children, and the dialogue ends |
| Admin.Session.Undo | main.py:761-784 | with no snapshot nothing changes; otherwise the tree and log are those of UndoLog.Undo and the admin is at the root |
| Admin.Session.Redo | main.py:788-808 | with nothing to redo nothing changes; otherwise the tree and log are those of UndoLog.Redo and the admin is at the root |
| Admin.Session.ImportBackup | main.py:1032-1039 | the imported tree is installed, both lists are empty and the admin is at the root |
| Admin.Session.Start | main.py:236-271 | the log and every dialogue are dropped; the admin lands on the payload's node when it exists, otherwise on the root |
| Sync.Initial | supasync.py:20-26 | at import nothing is hashed and nothing is pushed |
| Sync.Get | supasync.py:96 | `last_hash.get(name)` is None for a name never recorded |
| Sync.FileHash | supasync.py:31-35 | the fingerprint is None exactly when the file does not exist |
| Sync.HashSeesChange | supasync.py:31-35 | with a fingerprint that tells contents apart, the hash changes exactly when the file appears, disappears or changes |
| Sync.ReadJson | supasync.py:38-45 | {} for a missing or unparseable file, otherwise the parsed document |
| Sync.EmptyFileReadsEmpty | supasync.py:38-45 | an empty file reads as {}, the same as a missing one |
| Sync.Pushed | supasync.py:50-60 | the payload is sent and last_local_write is stamped whatever the reply, and nothing else changes |
| Sync.Restored | supasync.py:65-84 | within 20 seconds of a push, on a non-200 status or with no rows nothing happens; otherwise the file holds the first row's data; it never pushes |
| Sync.PushCheck | supasync.py:93-99 | the files are untouched and the recorded fingerprint becomes the file's current one |
| Sync.RestoreCheck | supasync.py:102-103 | the restore check never pushes and records no fingerprint |
| Sync.Step | supasync.py:91-103 | a turn records the fingerprint taken before any restore |
| Sync.StepPushesOnChange | supasync.py:93-99 | a turn pushes the read_json content exactly when the fingerprint differs from the recorded one, and other names' records stay |
| Sync.WipedFilePushesEmpty | supasync.py:93-103 | a hashed file that goes missing is pushed as {}, and that push suppresses the restore of the same turn |
| Sync.EmptiedFilePushesEmpty | supasync.py:93-103 | a file emptied to zero bytes is pushed as {} and not refilled in that turn |
| Sync.NeverHashedMissingIsRestored | supasync.py:93-103 | a never-hashed missing file is not pushed and is restored when guard, status and rows allow |
| Sync.UnchangedFileIsLeftAlone | supasync.py:93-103 | a present non-empty file with its recorded fingerprint leaves the state unchanged |
| Sync.RestoredFileIsPushedBack | supasync.py:93-103 | after a restore the next turn sees the file as changed and pushes its content back |
| Sync.TickedSends | supasync.py:89-105 | a tick only appends to the payloads sent, at most one per file, each for a tracked name |
| Sync.InitialRestoreNeverPushes | supasync.py:110-114 | initial_restore sends nothing, records nothing, and touches only missing or empty files |
| Sync.Watcher.constructor | supasync.py:20-26 | the watcher starts from the import-time state |
| Sync.Watcher.Push | supasync.py:50-60 | the new state is Pushed of the old one |
| Sync.Watcher.Restore | supasync.py:65-84 | the new state is Restored of the old one |
| Sync.Watcher.Turn | supasync.py:91-103 | the new state is Step of the old one |
| Sync.Watcher.Tick | supasync.py:89-105 | one pass over FILES leaves the state Ticked describes |
| Sync.Watcher.InitialRestore | supasync.py:110-114 | the new state is InitiallyRestored of the old one |

## Left out

- Telegram I/O: message replies, keyboards (`get_keyboard`, `show_reorder_keyboard`), `send_node_contents`, the navigation buttons and the conversation states. The admin's current node is a field, and navigation is not modelled.
- The user database, the admin list and the panel menus: they do not touch the tree.
- Admin.Session: only one writer of `database.json` is modelled. The session keeps the tree between messages, while each handler of the bot re-reads the file. Other admins' handlers (each with its own undo lists) and the watcher's restore can rewrite the file in between. The current node can then vanish, and `db[current_node_id]` raises KeyError, which `Valid()` rules out. An undo can also reinstall a snapshot that erases another writer's edits.
- Reading and writing `database.json`: the tree is held as a value. A file that fails to parse makes `load_db` return `{}`, and that path is not modelled.
- The zip handling of `restore_backup` and the backup export. Admin.Session.ImportBackup takes the imported tree as a parameter and requires it to be well formed.
- `uuid.uuid4()` is an injective oracle whose answers are never ids already in use. Collisions are not modelled.
- `copy.deepcopy` is value semantics. Admin.DeleteNodeRecursive and Admin.CloneNode take the dictionary and hand it back rather than mutating a shared one.
- The "❌ لغو" branch that ends a reorder (main.py:719-727) is not modelled. An earlier branch (main.py:303) catches the same text first, so this branch never runs. A reorder ends only when it completes, or on `/start`.
- Contents items are opaque maps. The message-to-item conversion of `receive_content` is not modelled. Neither is the `"contents" not in ...` default, because every record has contents.
- MD5 and `json.load`/`json.dump` are parameters (`Library`), and MD5 is assumed injective where a lemma needs it (`InjectiveDigest`).
- The HTTP requests: the reply of a GET is a parameter (status and rows, each row given by its `data` value). A reply whose rows lack `data`, or whose body is not JSON, is not modelled. The remote table itself is not modelled, only the payloads sent to it.
- Sync.Watcher.Tick: the model covers only requests that return. A `requests.post` or `requests.get` that raises (no connection, say; neither call has a timeout), a reply body that is not JSON, or a first row without `data` raises out of `watcher()` and ends the watcher thread for good. A `post` that raises also skips the stamping of `last_local_write` and the recording of `last_hash[name]`.
- `time.time()` readings are parameters: one for the push and one for the restore guard of each turn. The `time.sleep(5)`, the endless `while True` and the daemon thread are left out. Sync.Watcher.Tick is one pass of the loop.
- The `print` logging of the sync module is left out.

## Findings

| source | as written | input that shows it | evidently intended | confidence | as-written member | corrected member |
|---|---|---|---|---|---|---|
| main.py:729-759 | the last reorder choice installs `reorder_result` as the children of whatever node is current, without checking that the dialogue's ids are that node's children | start a reorder on a node `a` with children `x`, `y`; go back to the root; choose "🔀 x" then "🔀 y" | the reorder applies only to the node it was started on; a stale dialogue is dropped | not executed | Admin.StaleReorderBreaksTree | Admin.Session.ReorderStep |
| main.py:729-737 | the reorder branch looks up `db[cid]` for every waiting id, and the delete branch (main.py:577) runs first without touching the dialogue; once a waiting id is deleted, every message that reaches main.py:729 raises KeyError, at main.py:735 or, after the one label still matching, at main.py:870, so undo (main.py:761) and redo (main.py:788) cannot be reached until `/start` | start a reorder on `a` with children `x`, `y`; send "❌ حذف Y", then "↩️" | a dialogue whose ids are no longer the current node's children is dropped, and undo and redo work | not executed | Admin.DeletedChoiceRaises | Admin.Session.ReorderStep |
