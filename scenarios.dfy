/**
 * Sequences of commands as a user types them, and what they add up to:
 * each one pairs an operation with its inverse or with the operation that
 * observes its effect.
 */
module Scenarios {
  import opened Options
  import opened PySlices
  import opened OrderedMaps
  import opened DirTree
  import opened Allocation
  import opened Vfs

  /**
   * `register u p; login u p` adds the account with a new, empty root and
   * logs the user in there; the open files, the FAT and the disk stay.
   */
  method RegisterLogin(fs: VirtualFileSystem, u: string, p: string) returns (registered: Reply, loggedIn: Reply)
    requires fs.Valid() && u !in fs.users
    modifies fs`users, fs`nodes, fs`nextId, fs`currentUser, fs`currentDir, fs`path
    ensures fs.Valid()
    ensures registered == Text("User '" + u + "' registered successfully.")
    ensures loggedIn == Text("User '" + u + "' logged in successfully.")
    ensures fs.users == old(fs.users)[u := Account(u, p, old(fs.nextId))]
    ensures fs.nodes == old(fs.nodes)[old(fs.nextId) := DirNode(Empty())] && fs.nextId == old(fs.nextId) + 1
    ensures fs.currentUser == Some(u) && fs.path == [] && fs.currentDir == Some(old(fs.nextId))
    ensures fs.Cwd().keys == []
  {
    registered := fs.Register(u, p);
    loggedIn := fs.Login(u, p);
  }

  /**
   * `md d; cd d; cd ..` comes back to the directory and path it started
   * from, with the new empty directory added; the user, the open files, the
   * FAT and the disk stay.
   */
  method MdCdBack(fs: VirtualFileSystem, d: string) returns (made: Reply, entered: Reply, left: Reply)
    requires fs.Valid() && fs.currentDir.Some?
    requires d != ".." && d !in fs.Cwd().entries
    modifies fs`nodes, fs`nextId, fs`path, fs`currentDir
    ensures fs.Valid()
    ensures fs.nodes == AddChild(old(fs.nodes), old(fs.currentDir).value, d, old(fs.nextId), DirNode(Empty()))
    ensures fs.nextId == old(fs.nextId) + 1
    ensures made == Text("Directory '" + d + "' created.")
    ensures entered == Text("Changed directory to '" + d + "'.")
    ensures left == Text("Returned to the parent directory.")
    ensures fs.currentDir == old(fs.currentDir) && fs.path == old(fs.path)
    ensures fs.Cwd().keys == old(fs.Cwd().keys) + [d]
  {
    made := fs.Md(d);
    ghost var here := fs.currentDir;
    entered := fs.Cd(d);
    left := fs.Cd("..");
    assert fs.path == old(fs.path);
    assert fs.currentDir == here;
  }

  /** `open f; close f` leaves the whole state as it was. */
  method OpenClose(fs: VirtualFileSystem, f: string) returns (opened': Reply, closed: Reply)
    requires fs.Valid() && fs.currentDir.Some?
    requires f in fs.Cwd().entries && f !in fs.openFiles
    modifies fs`openFiles
    ensures fs.Valid()
    ensures opened' == Text("File '" + f + "' opened.")
    ensures closed == Text("File '" + f + "' closed.")
    ensures fs.openFiles == old(fs.openFiles)
  {
    opened' := fs.Open(f);
    closed := fs.Close(f);
    assert fs.openFiles == old(fs.openFiles)[f := old(fs.Cwd()).entries[f]] - {f};
  }

  /**
   * `create f` for a name new to the directory appends a new empty file to
   * the listing and gives it an empty FAT range at the cursor; the session,
   * the accounts, the open files, the disk and the cursor stay.
   */
  method CreateFresh(fs: VirtualFileSystem, f: string) returns (created: Reply)
    requires fs.Valid() && fs.currentDir.Some? && f !in fs.Cwd().entries
    modifies fs`nodes, fs`nextId, fs`fat
    ensures fs.Valid()
    ensures created == Text("File '" + f + "' created.")
    ensures fs.nodes == AddChild(old(fs.nodes), fs.currentDir.value, f, old(fs.nextId), FileNode(""))
    ensures fs.nextId == old(fs.nextId) + 1
    ensures fs.Cwd().keys == old(fs.Cwd().keys) + [f] && fs.nodes[fs.Cwd().entries[f]] == FileNode("")
    ensures fs.fat == old(fs.fat).Put(f, Extent(old(fs.nextFreeSpace), old(fs.nextFreeSpace)))
    ensures fs.disk == old(fs.disk) && fs.nextFreeSpace == old(fs.nextFreeSpace)
  {
    created := fs.Create(f);
  }

  /**
   * `create f; del f` for a name the directory and the FAT do not hold
   * restores the directory listing, the FAT (order included), the disk and
   * the free-space cursor. Every node is as before; the unlinked file node
   * stays in the arena under the id it was given. The session, the accounts
   * and the open files are never touched.
   */
  method CreateDelete(fs: VirtualFileSystem, f: string) returns (created: Reply, deleted: Reply)
    requires fs.Valid() && fs.currentDir.Some?
    requires f !in fs.Cwd().entries && f !in fs.fat.entries
    modifies fs`nodes, fs`nextId, fs`fat, fs`disk, fs`nextFreeSpace
    ensures fs.Valid()
    ensures created == Text("File '" + f + "' created.")
    ensures deleted == Text("File '" + f + "' deleted.")
    ensures fs.currentDir == old(fs.currentDir) && fs.Cwd().keys == old(fs.Cwd().keys)
    ensures fs.nodes == old(fs.nodes)[old(fs.nextId) := FileNode("")] && fs.nextId == old(fs.nextId) + 1
    ensures fs.fat == old(fs.fat) && fs.disk == old(fs.disk) && fs.nextFreeSpace == old(fs.nextFreeSpace)
  {
    ghost var keys, fat, n := fs.Cwd().keys, fs.fat, fs.nextFreeSpace;
    ghost var nodes, id := fs.nodes, fs.nextId;
    assert NodeWellformed(nodes, fs.currentDir.value);
    created := CreateFresh(fs, f);
    WithoutAt(keys + [f], |keys|);
    assert (keys + [f])[..|keys|] == keys && (keys + [f])[|keys| + 1..] == [];
    RemovePut(fat, f, Extent(n, n));
    ClearEmpty(fs.disk, n);
    deleted := fs.Delete(f);
    RemoveAddChild(nodes, fs.currentDir.value, f, id, FileNode(""));
  }

  /**
   * `create f; open f` adds a new, empty file to the listing and opens it,
   * with an empty range at the free cursor; the session, the disk and the
   * cursor stay.
   */
  method CreateOpen(fs: VirtualFileSystem, f: string) returns (created: Reply, opened': Reply)
    requires fs.Valid() && fs.currentDir.Some?
    requires f !in fs.Cwd().entries && f !in fs.openFiles
    modifies fs`nodes, fs`nextId, fs`fat, fs`openFiles
    ensures fs.Valid()
    ensures created == Text("File '" + f + "' created.") && opened' == Text("File '" + f + "' opened.")
    ensures fs.nextId == old(fs.nextId) + 1 && fs.Cwd().keys == old(fs.Cwd().keys) + [f]
    ensures fs.openFiles == old(fs.openFiles)[f := old(fs.nextId)]
    ensures fs.nodes[fs.openFiles[f]] == FileNode("")
    ensures fs.fat == old(fs.fat).Put(f, Extent(old(fs.nextFreeSpace), old(fs.nextFreeSpace)))
    ensures fs.disk == old(fs.disk) && fs.nextFreeSpace == old(fs.nextFreeSpace)
  {
    created := CreateFresh(fs, f);
    opened' := fs.Open(f);
  }

  /**
   * `write f s` on a file that is open and in the FAT appends to that node
   * alone and moves its range end and the cursor; the session and the open
   * files stay.
   */
  method WriteOpenFile(fs: VirtualFileSystem, f: string, s: string) returns (written: Reply)
    requires fs.Valid() && f in fs.openFiles && f in fs.fat.entries && fs.nodes[fs.openFiles[f]].FileNode?
    modifies fs`disk, fs`nodes, fs`fat, fs`nextFreeSpace
    ensures fs.Valid()
    ensures written == Text("Content written to file.")
    ensures var e := old(fs.fat).entries[f];
            var newEnd := NewEnd(e, |s|, |old(fs.disk)|);
            && fs.nodes == old(fs.nodes)[fs.openFiles[f] := FileNode(old(fs.nodes)[fs.openFiles[f]].content + s)]
            && fs.disk == Spliced(old(fs.disk), e.start, newEnd, s)
            && fs.fat == old(fs.fat).Put(f, Extent(e.start, newEnd))
            && fs.nextFreeSpace == newEnd
  {
    written := fs.Write(f, s);
  }

  /** `create f; open f; write f s; read f` reads back `s`. */
  method CreateWriteRead(fs: VirtualFileSystem, f: string, s: string) returns (text: Reply)
    requires fs.Valid() && fs.currentDir.Some?
    requires f !in fs.Cwd().entries && f !in fs.openFiles
    modifies fs`nodes, fs`nextId, fs`fat, fs`openFiles, fs`disk, fs`nextFreeSpace
    ensures fs.Valid()
    ensures text == Text(s)
  {
    var created, opened' := CreateOpen(fs, f);
    var written := WriteOpenFile(fs, f, s);
    text := fs.Read(f);
    assert "" + s == s;
  }

  /**
   * `create f; open f; write f s` for a name new to the directory, the open
   * files and the FAT, with ASCII text that fits, fills the range of its
   * length at the free cursor (byte for byte, by `AsciiSpliced`), moves the
   * cursor by that length, and raises the used space `diskusage` reports by
   * exactly that length.
   */
  method CreateWriteUsage(fs: VirtualFileSystem, f: string, s: string) returns (written: Reply)
    requires fs.Valid() && fs.currentDir.Some?
    requires f !in fs.Cwd().entries && f !in fs.openFiles && f !in fs.fat.entries
    requires IsAscii(s) && fs.nextFreeSpace + |s| <= |fs.disk|
    modifies fs`nodes, fs`nextId, fs`fat, fs`openFiles, fs`disk, fs`nextFreeSpace
    ensures fs.Valid()
    ensures written == Text("Content written to file.")
    ensures fs.disk == Spliced(old(fs.disk), old(fs.nextFreeSpace), old(fs.nextFreeSpace) + |s|, s)
    ensures fs.nextFreeSpace == old(fs.nextFreeSpace) + |s|
    ensures UsedSpace(fs.fat, fs.disk) == UsedSpace(old(fs.fat), old(fs.disk)) + |s|
  {
    AllocateAccounting(fs.fat, fs.disk, f, fs.nextFreeSpace);
    var created, opened' := CreateOpen(fs, f);
    AppendToEmpty(fs.fat, fs.disk, f, s);
    written := WriteOpenFile(fs, f, s);
  }
}
