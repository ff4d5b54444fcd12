# Virtual file system (VFS.py) in Dafny

A model of the `VirtualFileSystem` class of a small in-memory file system
simulator. Users register and log in. Each user has a private tree of
directories and files. A session has a current directory and a path stack.
Files are opened by bare name into one global open-file table. File contents
are mirrored into a 1 MiB byte buffer (the "disk"), where a file allocation
table (FAT) gives each bare file name a `(start, end)` byte range, and a
single `next_free_space` cursor decides where the next file's bytes go.

Modules, one per concern of the class:

- `Options`: the `Option` datatype (Python's `None`).
- `PySlices`: the Python primitives the class leans on. This covers bytes,
  `str.encode()` as UTF-8, `str` prefix slicing with negative bounds, and
  `bytearray` slicing and slice assignment. Slices clip to the buffer, and
  assigning a shorter value shrinks it.
- `OrderedMaps`: insertion-ordered maps, which behave like a Python dict.
  They back the FAT, the directory listings and the order `dir()` and
  `showfat` report in.
- `DirTree`: the trees of all users as an arena of nodes with ids, plus the
  walk along a path and `_build_file_paths`. Nodes are never freed, so the
  references that `open_files` and `current_dir` hold behave as Python's
  object references do. Child ids are larger than their parent's, so a
  walk reads only the directories on its route, whose ids are smaller than
  its target's. `WalkFrame` uses that to show a walk survives the edits the
  commands make.
- `Allocation`: the disk, the FAT, the effect of `write` and `delete` on the
  buffer, and the used-space sum of `display_disk_usage`.
- `Vfs`: the class `VirtualFileSystem`, one method per command. Its
  invariant `Valid()` says the following:
  - every account's home and every open file is a node;
  - while a user is logged in, `current_dir` is the node reached by walking
    `path` from that user's root.
- `Scenarios`: command sequences and what they add up to:
  - `register; login`
  - `md; cd; cd ..`
  - `open; close`
  - `create; del`
  - `create; open; write; read`
  - `create; open; write` with its used-space accounting

Every command returns what the Python method returns: a message, the list
`dir()` returns, or the exception it raises (`Reply.Raised`). When a command
raises, the state is what the method leaves behind before the failing line.
For example, `delete` of a directory name that has no FAT entry has already
unlinked the child when the `KeyError` comes.

Behaviours of the code that are easy to misread, and that the model
reproduces:

- **Exceptions.** The code raises `TypeError` for tree commands with nobody
  logged in (`current_dir` is `None`). It raises `KeyError` for `delete` of
  a name missing from the FAT and for `write` after the FAT entry is gone.
  It raises `KeyError('content')` for `read`/`write` through an open
  directory. Each of these is a `Raised` reply carrying that error.
- **Disk length.** The disk does not stay 1 MiB long. A write of ASCII text
  that fits on the disk, to a file whose range already holds bytes, replaces
  that range by the new text only, so the buffer shrinks by the old length
  (`Allocation.RewriteDropsOldBytes`). A write that the disk length cuts
  short, or text with non-ASCII characters, changes the length by other
  amounts.
- **Used space.** It sums `len(disk[start:end])`, which is clipped to the
  buffer, not `end - start`. The two agree while every range lies on the
  disk (`Allocation.UsedIsRangeSum`).
- **`open` on a directory.** `open` accepts any child name, directories
  included.
- **`logout` and the empty name.** `logout` tests `current_user` for truth,
  so a user named `""` cannot log out.

`.encode()` is modelled as real UTF-8. The lemmas about byte counts take
"every character is ASCII" as a hypothesis, because for other text the byte
count and the character count differ.

## Model

| member | source | states |
|---|---|---|
| Vfs.VirtualFileSystem.constructor | CSE-5305/Zongming_Juli/VFS.py:5-15 | nobody logged in, no users, no open files, empty path, a disk of 1 MiB zero bytes, an empty FAT and the cursor at 0; the invariant holds |
| Vfs.VirtualFileSystem.Cwd | CSE-5305/Zongming_Juli/VFS.py:100 | `current_dir["children"]`: a valid ordered map whose children are all nodes of the tree |
| Vfs.VirtualFileSystem.Register | CSE-5305/Zongming_Juli/VFS.py:65-75 | an existing name is refused and nothing changes; otherwise the account with its password and a new empty root is added, under the success message; the invariant is kept |
| Vfs.VirtualFileSystem.Login | CSE-5305/Zongming_Juli/VFS.py:77-85 | succeeds exactly when the user exists and the password matches, then sets the user, resets the path and points the current directory at the user's root; a failure changes nothing |
| Vfs.VirtualFileSystem.Logout | CSE-5305/Zongming_Juli/VFS.py:87-96 | a logged-in user with a non-empty name is logged out and the session cleared, naming that user; otherwise "No user currently logged in." and nothing changes |
| Vfs.VirtualFileSystem.Dir | CSE-5305/Zongming_Juli/VFS.py:98-100 | TypeError with nobody logged in; otherwise exactly the names of the current directory, each once, in insertion order |
| Vfs.VirtualFileSystem.Create | CSE-5305/Zongming_Juli/VFS.py:102-109 | a name already present (file or directory) is refused with nothing changed; a new name gets a file child with empty content appended to the listing and the FAT entry `(cursor, cursor)`, overwriting any same-named entry; the cursor and disk are untouched |
| Vfs.VirtualFileSystem.Delete | CSE-5305/Zongming_Juli/VFS.py:111-122 | an absent name gives "File not found." and changes nothing; a present name (of either kind) is unlinked first, then a missing FAT entry raises KeyError, a reversed range raises ValueError, and otherwise the range is zero-filled, the entry removed and the cursor set to its start; open files are untouched |
| Vfs.VirtualFileSystem.Release | CSE-5305/Zongming_Juli/VFS.py:115-118 | the FAT half of `delete`: KeyError for a missing entry, ValueError for `bytearray` of a negative size, else zero-fill, drop the entry, cursor to its start |
| Vfs.VirtualFileSystem.Open | CSE-5305/Zongming_Juli/VFS.py:124-130 | succeeds exactly when the name is a child of the current directory and not yet open, recording a reference to that node; otherwise the refusal message and nothing changes |
| Vfs.VirtualFileSystem.Close | CSE-5305/Zongming_Juli/VFS.py:132-138 | an open name is removed from the open-file table; otherwise "File not opened." and nothing changes |
| Vfs.VirtualFileSystem.Read | CSE-5305/Zongming_Juli/VFS.py:140-145 | changes nothing; "File not opened." for a name not open, otherwise the current content of the referenced node, wherever it now is in the tree, or KeyError('content') for a directory |
| Vfs.VirtualFileSystem.Write | CSE-5305/Zongming_Juli/VFS.py:147-158 | "File not opened." or a KeyError for a missing FAT entry change nothing; otherwise the range from the FAT start gets the new text alone, the node's content gets the text appended, the FAT end becomes `min(end + len, len(disk))` (never past the disk it was computed on) and the cursor moves there |
| Vfs.VirtualFileSystem.WriteAt | CSE-5305/Zongming_Juli/VFS.py:150-156 | the write once the FAT range is known: the disk is spliced before the node is touched, so a directory behind the open name raises KeyError('content') after the disk changed |
| Vfs.VirtualFileSystem.Cd | CSE-5305/Zongming_Juli/VFS.py:160-174 | `..` at an empty path changes nothing; `..` otherwise pops the path and moves to the directory whose child was the old current one; a child directory is pushed and entered; anything else gives "Directory not found." with nothing changed; the invariant is kept |
| Vfs.VirtualFileSystem.UpdateCurrentDir | CSE-5305/Zongming_Juli/VFS.py:176-180 | the loop leaves `current_dir` at the walk of `path` from the current user's root |
| Vfs.VirtualFileSystem.Rd | CSE-5305/Zongming_Juli/VFS.py:182-188 | only a child directory is unlinked (its subtree with it); a file or absent name is refused with nothing changed; FAT, disk and open files are never touched |
| Vfs.VirtualFileSystem.Md | CSE-5305/Zongming_Juli/VFS.py:190-196 | any existing child name is refused with nothing changed; otherwise an empty directory is appended to the listing; FAT, disk and open files are never touched |
| Vfs.VirtualFileSystem.ShowFatTable | CSE-5305/Zongming_Juli/VFS.py:49-57 | KeyError on `root[None]` with nobody logged in; otherwise one row per FAT entry in FAT order with its range, whose path is "Unknown" exactly when no file of that name is reachable from the user's root, and otherwise a path that leads to a file of that name |
| Vfs.VirtualFileSystem.DiskUsage | CSE-5305/Zongming_Juli/VFS.py:59-63 | total is the disk length; used is the clipped sum of the FAT ranges, equal to the plain sum of `end - start` while all ranges lie on the disk |
| Vfs.Consistent | CSE-5305/Zongming_Juli/VFS.py:176-180 | the invariant of the class: every home is a directory node and every open file a node, and while a user is logged in `current_dir` is the node `Walk` reaches from that user's root along `path`; with nobody logged in both are empty; every command keeps it, through `Vfs.AddChildConsistent`, `Vfs.RemoveChildConsistent`, `Vfs.SetFileConsistent` and `Vfs.AddUserConsistent` |
| Vfs.AddChildConsistent | CSE-5305/Zongming_Juli/VFS.py:105 | a new leaf under the current directory keeps the invariant, the session included |
| Vfs.RemoveChildConsistent | CSE-5305/Zongming_Juli/VFS.py:114 | unlinking a child of the current directory keeps the invariant, the session included |
| Vfs.SetFileConsistent | CSE-5305/Zongming_Juli/VFS.py:153 | rewriting a file node's content through the open-file reference keeps the invariant |
| Vfs.AddUserConsistent | CSE-5305/Zongming_Juli/VFS.py:70-74 | a new account with a new empty root keeps the invariant |
| DirTree.Step | CSE-5305/Zongming_Juli/VFS.py:180 | one iteration of the loop of `_update_current_dir`, `current_dir["children"][dir]`: the child's id when the node is a directory holding that name, otherwise nothing (where the source would raise); `DirTree.WalkCons` relates it to `Walk` |
| DirTree.Walk | CSE-5305/Zongming_Juli/VFS.py:178-180 | the whole loop: the node reached from a root by stepping through the names of the path in order, or nothing when some step fails; `DirTree.WalkPrefix` and `DirTree.WalkCons` state how it composes, `DirTree.WalkFrame` which edits it survives, and `Vfs.VirtualFileSystem.UpdateCurrentDir` proves the loop equal to it |
| DirTree.WalkPrefix | CSE-5305/Zongming_Juli/VFS.py:179-180 | a walk that succeeds succeeds along every prefix, so each step of the loop finds its child |
| DirTree.WalkCons | CSE-5305/Zongming_Juli/VFS.py:179-180 | walking `name` then `rest` is one child step followed by the walk of `rest` |
| DirTree.WalkFrame | CSE-5305/Zongming_Juli/VFS.py:176-180 | the directory reached by walking a path is unchanged by edits to that directory itself, to new nodes or to files |
| DirTree.AddChild | CSE-5305/Zongming_Juli/VFS.py:105 | `parent["children"][name] = node`: the new node appears, the parent's children get the entry, every other node is unchanged |
| DirTree.RemoveChild | CSE-5305/Zongming_Juli/VFS.py:114 | `del parent["children"][name]`: no node disappears, only the parent's children lose the entry |
| DirTree.RemoveAddChild | CSE-5305/Zongming_Juli/VFS.py:105-115 | unlinking a child just added under a name new to the directory gives back every node as it was; only the new node remains in the arena |
| DirTree.AddChildWellformed | CSE-5305/Zongming_Juli/VFS.py:193 | adding a leaf child keeps the tree well formed |
| DirTree.RemoveChildWellformed | CSE-5305/Zongming_Juli/VFS.py:185 | unlinking a child keeps the tree well formed |
| DirTree.AddNodeWellformed | CSE-5305/Zongming_Juli/VFS.py:73 | a new root directory keeps the tree well formed |
| DirTree.SetFileWellformed | CSE-5305/Zongming_Juli/VFS.py:153 | changing a file's content keeps the tree well formed |
| DirTree.JoinRoute | CSE-5305/Zongming_Juli/VFS.py:42 | a non-empty route joins to a path starting with "/" |
| DirTree.FilePaths | CSE-5305/Zongming_Juli/VFS.py:38-47 | `_build_file_paths(dir, prefix)`: a map from each file name below the directory to its path; `DirTree.FilePathsCorrect`, `DirTree.FilePathsComplete` and `DirTree.FilePathsSound` state that its keys are exactly the reachable file names and that each value is the prefix joined with a route to a file of that name |
| DirTree.EntriesPaths | CSE-5305/Zongming_Juli/VFS.py:41-46 | the `for` loop over the children in insertion order, each iteration merged over the earlier ones as `update` does; `DirTree.EntriesCover` and `DirTree.EntriesSound` specify it |
| DirTree.EntryPaths | CSE-5305/Zongming_Juli/VFS.py:42-46 | one iteration: a file child gives the entry `name: prefix + "/" + name`, a directory child the paths below it with that path as prefix; `DirTree.EntrySound`, `DirTree.FileEntrySound` and `DirTree.DirEntrySound` specify it |
| DirTree.EntriesCover | CSE-5305/Zongming_Juli/VFS.py:41-46 | a later `update` never drops a name an earlier iteration added |
| DirTree.FilePathsComplete | CSE-5305/Zongming_Juli/VFS.py:38-47 | every file reachable from the directory has its name in the result |
| DirTree.FilePathsSound | CSE-5305/Zongming_Juli/VFS.py:38-47 | every name in the result is the name of a file reachable from the directory |
| DirTree.EntriesSound | CSE-5305/Zongming_Juli/VFS.py:41-46 | every name the loop adds names a reachable file |
| DirTree.EntrySound | CSE-5305/Zongming_Juli/VFS.py:42-46 | every name one iteration adds names a reachable file |
| DirTree.FileEntrySound | CSE-5305/Zongming_Juli/VFS.py:43-44 | a file child contributes only its own name, mapped to prefix + "/" + name |
| DirTree.DirEntrySound | CSE-5305/Zongming_Juli/VFS.py:45-46 | the names a child directory contributes are reachable through it |
| DirTree.PrependRoute | CSE-5305/Zongming_Juli/VFS.py:42-46 | a file route from a child, prefixed by the child's name, is a file route from the parent, and its path is "/" + name + the child's path |
| DirTree.FilePathsCorrect | CSE-5305/Zongming_Juli/VFS.py:38-47 | `_build_file_paths(d)` holds exactly the names of the files reachable from `d`, each mapped to a "/"-joined path that leads to a file of that name |
| Allocation.ExtentLen | CSE-5305/Zongming_Juli/VFS.py:61 | `len(disk_space[start:end])` for one FAT range: the part of the range that lies on the disk, which is `end - start` when the range is in bounds (`Allocation.UsedIsRangeSum`) |
| Allocation.UsedOver | CSE-5305/Zongming_Juli/VFS.py:61 | the generator sum over the FAT ranges of a key list, in FAT order; `Allocation.UsedOverIsRangeSum`, `Allocation.UsedOverAgree`, `Allocation.UsedOverUpdate`, `Allocation.UsedOverAppend` and `Allocation.UsedOverWithout` specify it |
| Allocation.UsedSpace | CSE-5305/Zongming_Juli/VFS.py:61 | `used_space` of `display_disk_usage` over the whole FAT; `Allocation.UsedIsRangeSum` states that it is the plain sum of the range lengths while every range lies on the disk |
| Allocation.Spliced | CSE-5305/Zongming_Juli/VFS.py:152 | the disk after `write` assigns the encoded, truncated text to `disk_space[start:new_end]`; `Allocation.AsciiSpliced` states that ASCII text that fits lands there byte for byte with the disk keeping its length, and `Allocation.RewriteDropsOldBytes` that such a write to a range that already holds bytes shrinks the disk by the old length |
| Allocation.Cleared | CSE-5305/Zongming_Juli/VFS.py:116 | the disk after `delete` zero-fills `disk_space[start:end]`; `Allocation.ClearedBytes` states that an on-disk range reads back as zeros and every other byte is kept, and `Allocation.ClearEmpty` that an empty range changes nothing |
| Allocation.NewEnd | CSE-5305/Zongming_Juli/VFS.py:151 | the new end never passes the disk length, never moves back while the old end lies on the disk, and is `end + count` when that fits |
| Allocation.UsedIsRangeSum | CSE-5305/Zongming_Juli/VFS.py:61 | while every range lies on the disk, the clipped used space equals the sum of `end - start` |
| Allocation.UsedOverIsRangeSum | CSE-5305/Zongming_Juli/VFS.py:61 | the same sum over any list of in-bounds entries |
| Allocation.UsedOverAgree | CSE-5305/Zongming_Juli/VFS.py:61 | the used space depends only on the listed ranges and the disk length |
| Allocation.UsedOverUpdate | CSE-5305/Zongming_Juli/VFS.py:61 | replacing one entry's range changes the sum by the difference of the two clipped lengths |
| Allocation.UsedOverAppend | CSE-5305/Zongming_Juli/VFS.py:61 | a new entry adds its clipped length |
| Allocation.UsedOverWithout | CSE-5305/Zongming_Juli/VFS.py:61 | removing an entry subtracts its clipped length |
| Allocation.AllocateAccounting | CSE-5305/Zongming_Juli/VFS.py:106 | the `(cursor, cursor)` entry keeps the FAT valid and removes from the used space the bytes of any same-named entry it overwrites |
| Allocation.AppendToEmpty | CSE-5305/Zongming_Juli/VFS.py:150-155 | an ASCII write that fits, to a file with no bytes yet, moves its end by the text length and raises the used space by exactly that length |
| Allocation.AsciiSpliced | CSE-5305/Zongming_Juli/VFS.py:152 | ASCII text written over a range of its length lands there byte for byte and the disk keeps its length |
| Allocation.RewriteDropsOldBytes | CSE-5305/Zongming_Juli/VFS.py:150-154 | a write of ASCII text that fits on the disk, to a file whose range already holds bytes, gives that range only the new text, so the disk shrinks by the old length while the FAT range grows to cover old and new |
| Allocation.ClearEmpty | CSE-5305/Zongming_Juli/VFS.py:116 | zero-filling an empty range leaves the disk as it was |
| Allocation.ClearedBytes | CSE-5305/Zongming_Juli/VFS.py:116 | zero-filling an on-disk range zeroes exactly that range and keeps every other byte and the length |
| Allocation.ReleaseAccounting | CSE-5305/Zongming_Juli/VFS.py:115-118 | `delete` of an on-disk range: it reads back as zeros, every other byte is kept, the FAT stays valid and the used space shrinks by the range length |
| PySlices.EncodeChar | CSE-5305/Zongming_Juli/VFS.py:152 | UTF-8 of one character is 1 to 4 bytes, one byte exactly below 0x80 and then the code point itself |
| PySlices.Encode | CSE-5305/Zongming_Juli/VFS.py:152 | `s.encode()` has at least one byte per character |
| PySlices.EncodeAscii | CSE-5305/Zongming_Juli/VFS.py:152 | the encoding has one byte per character exactly when the text is ASCII, and then the bytes are the code points |
| PySlices.StrPrefix | CSE-5305/Zongming_Juli/VFS.py:152 | `s[:k]` is a prefix of `s`, of length `min(k, len)` for `k >= 0` and `max(0, len + k)` for negative `k` |
| PySlices.Clip | CSE-5305/Zongming_Juli/VFS.py:61 | a slice's bounds are clipped to the buffer; an in-range slice is unchanged and a reversed one is empty |
| PySlices.SliceLen | CSE-5305/Zongming_Juli/VFS.py:61 | `len(b[lo:hi])` is at most the buffer length, `hi - lo` in range and 0 when reversed |
| PySlices.SliceAssign | CSE-5305/Zongming_Juli/VFS.py:152 | `b[lo:hi] = x` replaces the clipped range by `x`, so the length changes by `len(x)` minus the range length |
| PySlices.Zeros | CSE-5305/Zongming_Juli/VFS.py:13 | `bytearray(n)` is `n` zero bytes |
| OrderedMaps.OrderedMap.Put | CSE-5305/Zongming_Juli/VFS.py:106 | `d[k] = v`: a new key is appended to the order, an existing key keeps its place, and validity is kept |
| OrderedMaps.OrderedMap.Remove | CSE-5305/Zongming_Juli/VFS.py:118 | `del d[k]`: the key leaves both the entries and the order, and validity is kept |
| OrderedMaps.Without | CSE-5305/Zongming_Juli/VFS.py:114 | the order with the key taken out keeps every other key and stays duplicate-free |
| OrderedMaps.WithoutAt | CSE-5305/Zongming_Juli/VFS.py:114 | in a duplicate-free order, taking a key out closes the gap at its position |
| OrderedMaps.RemovePut | CSE-5305/Zongming_Juli/VFS.py:106 | deleting a key just added restores the dict, order included |
| OrderedMaps.Empty | CSE-5305/Zongming_Juli/VFS.py:14 | `{}`: no keys, valid |
| Scenarios.RegisterLogin | CSE-5305/Zongming_Juli/VFS.py:65-85 | `register u p; login u p` for a new name adds the account `(u, p)` with a new empty root, logs `u` in there with an empty path and an empty listing; open files, FAT, disk and cursor are outside its frame and stay |
| Scenarios.MdCdBack | CSE-5305/Zongming_Juli/VFS.py:160-196 | `md d; cd d; cd ..` adds the empty directory `d` (appended to the listing) and returns to the same directory and path; user, accounts, open files, FAT, disk and cursor are outside its frame and stay |
| Scenarios.OpenClose | CSE-5305/Zongming_Juli/VFS.py:124-138 | `open f; close f` leaves the open-file table as it was, and its frame keeps every other field, so the whole state is restored |
| Scenarios.CreateFresh | CSE-5305/Zongming_Juli/VFS.py:102-107 | `create f` for a new name adds a file node with empty content to the tree under the current directory, appends it to the listing, and puts an empty range at the cursor into the FAT; session, accounts, open files, disk and cursor are outside its frame and stay |
| Scenarios.CreateDelete | CSE-5305/Zongming_Juli/VFS.py:102-122 | `create f; del f` for a name new to the directory and the FAT restores the listing, the FAT (order included), the disk and the cursor; every node is as before, plus the unlinked empty file node under the next id, which moves on by one; session, accounts and open files are outside its frame and stay |
| Scenarios.CreateOpen | CSE-5305/Zongming_Juli/VFS.py:102-130 | `create f; open f` adds a new empty file node, appends it to the listing, opens it under its new id and puts an empty range at the cursor into the FAT; session, accounts, disk and cursor are outside its frame and stay |
| Scenarios.WriteOpenFile | CSE-5305/Zongming_Juli/VFS.py:147-156 | `write f s` on an open file with a FAT entry appends `s` to that node and changes no other node, splices the disk, and moves its end and the cursor to the new end; session, accounts and open files are outside its frame and stay |
| Scenarios.CreateWriteRead | CSE-5305/Zongming_Juli/VFS.py:102-145 | `create f; open f; write f s; read f` reads back `s`, for any text |
| Scenarios.CreateWriteUsage | CSE-5305/Zongming_Juli/VFS.py:59-158 | `create f; open f; write f s` with ASCII `s` that fits writes `s` over `[cursor, cursor + len s)`, moves the cursor by `len s` and raises the reported used space by exactly `len s` |

## Left out

- `display_operations` (VFS.py:18-36) and every `print`: console output only. `ShowFatTable` and `DiskUsage` return the values that `show_fat_table` and `display_disk_usage` print.
- `process_command` (VFS.py:198-239) and the interactive loop (VFS.py:242-254): token dispatch and `input()` handling, with no state of their own.
- The `show_fat_table()` call inside `delete` (VFS.py:119) only prints, after `delete` has made its changes. Its `root[current_user]` lookup cannot fail there, because a current directory implies a logged-in user.
- `Vfs.VirtualFileSystem.ShowFatTable`: returns its rows at any depth of the tree, while `_build_file_paths` in Python recurses once per directory level and raises `RecursionError` past the interpreter's recursion limit (about 1000 nested directories). That also makes `delete` raise at VFS.py:119 after its changes; the model does not capture this limit.
- `.encode()` raises `UnicodeEncodeError` for a `str` holding a lone surrogate, at VFS.py:152, before the disk or the node changes. Dafny's `char` holds only Unicode scalar values, so this error path of `write` is not modelled.
- Passwords are compared verbatim. There is no hashing in the source to model.
- The single-threaded, in-memory setting means there is no concurrency and nothing persists. The model has no I/O.
- `Vfs.VirtualFileSystem.UpdateCurrentDir`: requires a logged-in user whose path walks to a node. The source calls it only from `cd`, where the invariant guarantees both, so the `KeyError` the loop could raise on a broken path is not modelled.
- `Vfs.VirtualFileSystem.ShowFatTable`: for a name held by several files, it promises a path of some file of that name, not specifically the last one in traversal order that Python's `update` keeps.
- `DirTree.FilePathsCorrect`: same as `ShowFatTable`. A name reachable more than once maps to the path of one of its files, and the model does not say which.
- `Scenarios.CreateOpen`: states the new file node, the listing and the open-file table, but not that every other node is unchanged; `Scenarios.CreateFresh` states the whole new tree for the `create` step.
- The scenarios in `Scenarios` take preconditions that make each step take its success branch (the name is new, the text is ASCII and fits). The other branches are covered by the contracts of the single commands.
