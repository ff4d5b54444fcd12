/**
 * The `VirtualFileSystem` class: the accounts, the session, the open-file
 * table, the disk and the FAT, and the commands that change them. Every
 * command returns the value the source returns; an exception the source
 * raises is the reply `Raised`, and the state is what the source leaves
 * behind when it raises (the changes made before the failing line).
 */
module Vfs {
  import opened Options
  import opened PySlices
  import opened OrderedMaps
  import opened DirTree
  import opened Allocation

  /** The exceptions the commands can raise. */
  datatype PyError =
    | TypeError           // subscripting `current_dir` while it is None
    | KeyError(key: string)
    | MissingUserKey      // `self.root[None]`, a KeyError on None
    | ValueError          // `bytearray` of a negative count

  /** A command's return value: a message, the list `dir()` returns, or an exception. */
  datatype Reply = Text(text: string) | Names(names: seq<string>) | Raised(error: PyError)

  datatype Result<T> = Ok(value: T) | Err(error: PyError)

  /** An entry of the account table. `home` is the user's root directory (the source's "FAT" key). */
  datatype Account = Account(username: string, password: string, home: NodeId)

  /** What `show_fat_table` prints for one FAT entry. */
  datatype FatRow = FatRow(name: string, path: string, start: nat, end: nat)

  /** What `display_disk_usage` prints. */
  datatype Usage = Usage(used: nat, total: nat)

  /**
   * How the account table, the open-file table and the session hang off the
   * tree: every home and every open file is a node, every home is a
   * directory, and while a user is logged in, `current_dir` is the directory
   * reached from that user's root by walking `path`.
   */
  ghost predicate Consistent(nodes: map<NodeId, Node>, nextId: NodeId, users: map<string, Account>,
                             openFiles: map<string, NodeId>, currentUser: Option<string>,
                             currentDir: Option<NodeId>, path: seq<string>)
  {
    && Wellformed(nodes, nextId)
    && (forall u :: u in users ==> users[u].home in nodes && nodes[users[u].home].DirNode?)
    && (forall f :: f in openFiles ==> openFiles[f] in nodes)
    && match currentUser
       case None => currentDir == None && path == []
       case Some(u) =>
         && u in users
         && currentDir == Walk(nodes, users[u].home, path)
         && currentDir.Some? && currentDir.value in nodes && nodes[currentDir.value].DirNode?
  }

  /** A new leaf under the current directory keeps the session where it is. */
  lemma AddChildConsistent(nodes: map<NodeId, Node>, nextId: NodeId, users: map<string, Account>,
                           openFiles: map<string, NodeId>, currentUser: Option<string>,
                           currentDir: Option<NodeId>, path: seq<string>, name: string, node: Node)
    requires Consistent(nodes, nextId, users, openFiles, currentUser, currentDir, path)
    requires currentDir.Some? && Leaf(node)
    ensures nextId !in nodes
    ensures Consistent(AddChild(nodes, currentDir.value, name, nextId, node), nextId + 1,
                       users, openFiles, currentUser, currentDir, path)
  {
    AddChildWellformed(nodes, nextId, currentDir.value, name, node);
    var nodes' := AddChild(nodes, currentDir.value, name, nextId, node);
    WalkFrame(nodes, nodes', nextId, users[currentUser.value].home, path, currentDir.value);
  }

  /** Unlinking a child of the current directory keeps the session where it is. */
  lemma RemoveChildConsistent(nodes: map<NodeId, Node>, nextId: NodeId, users: map<string, Account>,
                              openFiles: map<string, NodeId>, currentUser: Option<string>,
                              currentDir: Option<NodeId>, path: seq<string>, name: string)
    requires Consistent(nodes, nextId, users, openFiles, currentUser, currentDir, path)
    requires currentDir.Some?
    ensures Consistent(RemoveChild(nodes, currentDir.value, name), nextId,
                       users, openFiles, currentUser, currentDir, path)
  {
    RemoveChildWellformed(nodes, nextId, currentDir.value, name);
    var nodes' := RemoveChild(nodes, currentDir.value, name);
    WalkFrame(nodes, nodes', nextId, users[currentUser.value].home, path, currentDir.value);
  }

  /** Rewriting a file node's content changes no directory. */
  lemma SetFileConsistent(nodes: map<NodeId, Node>, nextId: NodeId, users: map<string, Account>,
                          openFiles: map<string, NodeId>, currentUser: Option<string>,
                          currentDir: Option<NodeId>, path: seq<string>, id: NodeId, content: string)
    requires Consistent(nodes, nextId, users, openFiles, currentUser, currentDir, path)
    requires id in nodes && nodes[id].FileNode?
    ensures Consistent(nodes[id := FileNode(content)], nextId, users, openFiles, currentUser, currentDir, path)
  {
    SetFileWellformed(nodes, nextId, id, content);
    if currentUser.Some? {
      WalkFrame(nodes, nodes[id := FileNode(content)], nextId, users[currentUser.value].home, path, currentDir.value);
    }
  }

  /** A new account gets a new, empty root directory; the session is untouched. */
  lemma AddUserConsistent(nodes: map<NodeId, Node>, nextId: NodeId, users: map<string, Account>,
                          openFiles: map<string, NodeId>, currentUser: Option<string>,
                          currentDir: Option<NodeId>, path: seq<string>, username: string, password: string)
    requires Consistent(nodes, nextId, users, openFiles, currentUser, currentDir, path)
    requires username !in users
    ensures Consistent(nodes[nextId := DirNode(Empty())], nextId + 1,
                       users[username := Account(username, password, nextId)],
                       openFiles, currentUser, currentDir, path)
  {
    AddNodeWellformed(nodes, nextId, DirNode(Empty()));
    if currentUser.Some? {
      WalkFrame(nodes, nodes[nextId := DirNode(Empty())], nextId, users[currentUser.value].home, path, currentDir.value);
    }
  }

  class VirtualFileSystem {
    var currentUser: Option<string>
    /** The source's `root`: username -> account. */
    var users: map<string, Account>
    var currentDir: Option<NodeId>
    var openFiles: map<string, NodeId>
    var path: seq<string>
    var disk: seq<Byte>
    var fat: Fat
    var nextFreeSpace: nat
    /** The directory and file dicts of all users, and the id the next one gets. */
    var nodes: map<NodeId, Node>
    var nextId: NodeId

    ghost predicate Valid()
      reads this
    {
      fat.Valid() && Consistent(nodes, nextId, users, openFiles, currentUser, currentDir, path)
    }

    /** The children of the current directory. */
    function Cwd(): (r: OrderedMap<string, NodeId>)
      reads this
      requires Valid() && currentDir.Some?
      ensures r.Valid()
      ensures forall name :: name in r.entries ==> r.entries[name] in nodes
    {
      assert NodeWellformed(nodes, currentDir.value);
      nodes[currentDir.value].children
    }

    /** A fresh file system: no users, nobody logged in, a zeroed 1 MiB disk, an empty FAT. */
    constructor ()
      ensures Valid()
      ensures currentUser == None && currentDir == None && path == []
      ensures users == map[] && openFiles == map[]
      ensures |disk| == DiskSize && (forall i :: 0 <= i < |disk| ==> disk[i] == 0)
      ensures fat == Empty() && nextFreeSpace == 0
    {
      currentUser := None;
      users := map[];
      currentDir := None;
      openFiles := map[];
      path := [];
      disk := Zeros(DiskSize);
      fat := Empty();
      nextFreeSpace := 0;
      nodes := map[];
      nextId := 0;
    }

    method Register(username: string, password: string) returns (r: Reply)
      requires Valid()
      modifies this`users, this`nodes, this`nextId
      ensures Valid()
      ensures username in old(users) ==> r == Text("User already exists.") && unchanged(this)
      ensures username !in old(users) ==>
        && r == Text("User '" + username + "' registered successfully.")
        && users == old(users)[username := Account(username, password, old(nextId))]
        && nodes == old(nodes)[old(nextId) := DirNode(Empty())]
        && nextId == old(nextId) + 1
    {
      if username in users {
        return Text("User already exists.");
      }
      AddUserConsistent(nodes, nextId, users, openFiles, currentUser, currentDir, path, username, password);
      var home := nextId;
      nodes := nodes[home := DirNode(Empty())];
      nextId := nextId + 1;
      users := users[username := Account(username, password, home)];
      r := Text("User '" + username + "' registered successfully.");
    }

    method Login(username: string, password: string) returns (r: Reply)
      requires Valid()
      modifies this`currentUser, this`currentDir, this`path
      ensures Valid()
      ensures username in users && users[username].password == password ==>
        && r == Text("User '" + username + "' logged in successfully.")
        && currentUser == Some(username) && currentDir == Some(users[username].home) && path == []
      ensures !(username in users && users[username].password == password) ==>
        r == Text("Login failed.") && unchanged(this)
    {
      if username in users && users[username].password == password {
        currentUser := Some(username);
        currentDir := Some(users[username].home);
        path := [];
        r := Text("User '" + username + "' logged in successfully.");
      } else {
        r := Text("Login failed.");
      }
    }

    /** The source tests `current_user` for truth, so a user named "" stays logged in. */
    method Logout() returns (r: Reply)
      requires Valid()
      modifies this`currentUser, this`currentDir, this`path
      ensures Valid()
      ensures old(currentUser).Some? && old(currentUser).value != "" ==>
        && r == Text("User '" + old(currentUser).value + "' logged out successfully.")
        && currentUser == None && currentDir == None && path == []
      ensures !(old(currentUser).Some? && old(currentUser).value != "") ==>
        r == Text("No user currently logged in.") && unchanged(this)
    {
      if currentUser.Some? && currentUser.value != "" {
        var user := currentUser.value;
        currentUser := None;
        currentDir := None;
        path := [];
        r := Text("User '" + user + "' logged out successfully.");
      } else {
        r := Text("No user currently logged in.");
      }
    }

    /** The names in the current directory, each once, in the order they were added. */
    method Dir() returns (r: Reply)
      requires Valid()
      ensures currentDir.None? ==> r == Raised(TypeError)
      ensures currentDir.Some? ==> r.Names? && r.names == Cwd().keys
      ensures r.Names? ==> Distinct(r.names) && forall name :: name in r.names <==> name in Cwd().entries
    {
      if currentDir.None? {
        return Raised(TypeError);
      }
      r := Names(nodes[currentDir.value].children.keys);
    }

    method Create(filename: string) returns (r: Reply)
      requires Valid()
      modifies this`nodes, this`nextId, this`fat
      ensures Valid()
      ensures old(currentDir).None? ==> r == Raised(TypeError) && unchanged(this)
      ensures old(currentDir).Some? && filename in old(Cwd()).entries ==>
        r == Text("File already exists.") && unchanged(this)
      ensures old(currentDir).Some? && filename !in old(Cwd()).entries ==>
        && r == Text("File '" + filename + "' created.")
        && nodes == AddChild(old(nodes), currentDir.value, filename, old(nextId), FileNode(""))
        && nextId == old(nextId) + 1
        && Cwd().keys == old(Cwd()).keys + [filename]
        && fat == old(fat).Put(filename, Extent(nextFreeSpace, nextFreeSpace))
    {
      if currentDir.None? {
        return Raised(TypeError);
      }
      var cwd := currentDir.value;
      if filename in nodes[cwd].children.entries {
        return Text("File already exists.");
      }
      AddChildConsistent(nodes, nextId, users, openFiles, currentUser, currentDir, path, filename, FileNode(""));
      nodes := AddChild(nodes, cwd, filename, nextId, FileNode(""));
      nextId := nextId + 1;
      fat := fat.Put(filename, Extent(nextFreeSpace, nextFreeSpace));
      r := Text("File '" + filename + "' created.");
    }

    /**
     * The child is removed before the FAT is consulted and whatever its kind,
     * and the open-file table is left as it was.
     */
    method Delete(filename: string) returns (r: Reply)
      requires Valid()
      modifies this`nodes, this`disk, this`nextFreeSpace, this`fat
      ensures Valid()
      ensures old(currentDir).None? ==> r == Raised(TypeError) && unchanged(this)
      ensures old(currentDir).Some? && filename !in old(Cwd()).entries ==>
        r == Text("File not found.") && unchanged(this)
      ensures old(currentDir).Some? && filename in old(Cwd()).entries ==>
        && nodes == RemoveChild(old(nodes), currentDir.value, filename)
        && Cwd().keys == Without(old(Cwd()).keys, filename)
      ensures old(currentDir).Some? && filename in old(Cwd()).entries && filename !in old(fat).entries ==>
        && r == Raised(KeyError(filename))
        && disk == old(disk) && fat == old(fat) && nextFreeSpace == old(nextFreeSpace)
      ensures old(currentDir).Some? && filename in old(Cwd()).entries && filename in old(fat).entries ==>
        var e := old(fat).entries[filename];
        && (e.end < e.start ==>
              r == Raised(ValueError) && disk == old(disk) && fat == old(fat) && nextFreeSpace == old(nextFreeSpace))
        && (e.start <= e.end ==>
              && r == Text("File '" + filename + "' deleted.")
              && disk == Cleared(old(disk), e)
              && fat == old(fat).Remove(filename)
              && nextFreeSpace == e.start)
    {
      if currentDir.None? {
        return Raised(TypeError);
      }
      var cwd := currentDir.value;
      if filename !in nodes[cwd].children.entries {
        return Text("File not found.");
      }
      RemoveChildConsistent(nodes, nextId, users, openFiles, currentUser, currentDir, path, filename);
      nodes := RemoveChild(nodes, cwd, filename);
      r := Release(filename);
    }

    /** The FAT half of `delete`: the file's range is zeroed, the cursor goes back to its start, and its entry is dropped. */
    method Release(filename: string) returns (r: Reply)
      requires fat.Valid()
      modifies this`disk, this`nextFreeSpace, this`fat
      ensures fat.Valid()
      ensures filename !in old(fat).entries ==> r == Raised(KeyError(filename)) && unchanged(this)
      ensures filename in old(fat).entries ==>
        var e := old(fat).entries[filename];
        && (e.end < e.start ==> r == Raised(ValueError) && unchanged(this))
        && (e.start <= e.end ==>
              && r == Text("File '" + filename + "' deleted.")
              && disk == Cleared(old(disk), e)
              && fat == old(fat).Remove(filename)
              && nextFreeSpace == e.start)
    {
      if filename !in fat.entries {
        return Raised(KeyError(filename));
      }
      var e := fat.entries[filename];
      if e.end < e.start {
        return Raised(ValueError);
      }
      disk := Cleared(disk, e);
      nextFreeSpace := e.start;
      fat := fat.Remove(filename);
      r := Text("File '" + filename + "' deleted.");
    }

    /** Opening succeeds exactly when the name is a child of the current directory (of either kind) and not open yet. */
    method Open(filename: string) returns (r: Reply)
      requires Valid()
      modifies this`openFiles
      ensures Valid()
      ensures old(currentDir).None? ==> r == Raised(TypeError) && unchanged(this)
      ensures currentDir.Some? && filename in Cwd().entries && filename !in old(openFiles) ==>
        r == Text("File '" + filename + "' opened.") && openFiles == old(openFiles)[filename := Cwd().entries[filename]]
      ensures currentDir.Some? && !(filename in Cwd().entries && filename !in old(openFiles)) ==>
        r == Text("File not found or already opened.") && unchanged(this)
    {
      if currentDir.None? {
        return Raised(TypeError);
      }
      var children := nodes[currentDir.value].children;
      if filename in children.entries && filename !in openFiles {
        assert NodeWellformed(nodes, currentDir.value);
        openFiles := openFiles[filename := children.entries[filename]];
        r := Text("File '" + filename + "' opened.");
      } else {
        r := Text("File not found or already opened.");
      }
    }

    method Close(filename: string) returns (r: Reply)
      requires Valid()
      modifies this`openFiles
      ensures Valid()
      ensures filename in old(openFiles) ==>
        r == Text("File '" + filename + "' closed.") && openFiles == old(openFiles) - {filename}
      ensures filename !in old(openFiles) ==> r == Text("File not opened.") && unchanged(this)
    {
      if filename in openFiles {
        openFiles := openFiles - {filename};
        r := Text("File '" + filename + "' closed.");
      } else {
        r := Text("File not opened.");
      }
    }

    /** The content of the node the open-file entry refers to, wherever that node now is. */
    method Read(filename: string) returns (r: Reply)
      requires Valid()
      ensures filename !in openFiles ==> r == Text("File not opened.")
      ensures filename in openFiles && nodes[openFiles[filename]].FileNode? ==>
        r == Text(nodes[openFiles[filename]].content)
      ensures filename in openFiles && nodes[openFiles[filename]].DirNode? ==>
        r == Raised(KeyError("content"))
    {
      if filename !in openFiles {
        return Text("File not opened.");
      }
      match nodes[openFiles[filename]]
      case FileNode(content) => r := Text(content);
      case DirNode(_) => r := Raised(KeyError("content"));
    }

    /**
     * The FAT end moves to `min(end + len(content), len(disk))`, the range from
     * the FAT start is given the new text alone, the node's content gets the
     * whole text appended, and the cursor moves to the new end.
     */
    method Write(filename: string, content: string) returns (r: Reply)
      requires Valid()
      modifies this`disk, this`nodes, this`fat, this`nextFreeSpace
      ensures Valid()
      ensures filename !in openFiles ==> r == Text("File not opened.") && unchanged(this)
      ensures filename in openFiles && filename !in old(fat).entries ==>
        r == Raised(KeyError(filename)) && unchanged(this)
      ensures filename in openFiles && filename in old(fat).entries ==>
        var e := old(fat).entries[filename];
        var newEnd := NewEnd(e, |content|, |old(disk)|);
        var id := openFiles[filename];
        && disk == Spliced(old(disk), e.start, newEnd, content)
        && (old(nodes)[id].DirNode? ==>
              && r == Raised(KeyError("content"))
              && nodes == old(nodes) && fat == old(fat) && nextFreeSpace == old(nextFreeSpace))
        && (old(nodes)[id].FileNode? ==>
              && r == Text("Content written to file.")
              && nodes == old(nodes)[id := FileNode(old(nodes)[id].content + content)]
              && fat == old(fat).Put(filename, Extent(e.start, newEnd))
              && fat.entries[filename].end <= |old(disk)|
              && nextFreeSpace == newEnd)
    {
      if filename !in openFiles {
        return Text("File not opened.");
      }
      if filename !in fat.entries {
        return Raised(KeyError(filename));
      }
      r := WriteAt(filename, fat.entries[filename], content);
    }

    /** `write` once the FAT range `e` of the open file has been looked up. */
    method WriteAt(filename: string, e: Extent, content: string) returns (r: Reply)
      requires Valid() && filename in openFiles
      modifies this`disk, this`nodes, this`fat, this`nextFreeSpace
      ensures Valid()
      ensures var newEnd := NewEnd(e, |content|, |old(disk)|);
        var id := openFiles[filename];
        && disk == Spliced(old(disk), e.start, newEnd, content)
        && (old(nodes)[id].DirNode? ==>
              && r == Raised(KeyError("content"))
              && nodes == old(nodes) && fat == old(fat) && nextFreeSpace == old(nextFreeSpace))
        && (old(nodes)[id].FileNode? ==>
              && r == Text("Content written to file.")
              && nodes == old(nodes)[id := FileNode(old(nodes)[id].content + content)]
              && fat == old(fat).Put(filename, Extent(e.start, newEnd))
              && fat.entries[filename].end <= |old(disk)|
              && nextFreeSpace == newEnd)
    {
      var newEnd := NewEnd(e, |content|, |disk|);
      disk := Spliced(disk, e.start, newEnd, content);
      var id := openFiles[filename];
      if nodes[id].DirNode? {
        return Raised(KeyError("content"));
      }
      var text := nodes[id].content + content;
      SetFileConsistent(nodes, nextId, users, openFiles, currentUser, currentDir, path, id, text);
      nodes := nodes[id := FileNode(text)];
      fat := fat.Put(filename, Extent(e.start, newEnd));
      nextFreeSpace := newEnd;
      r := Text("Content written to file.");
    }

    method Cd(dirname: string) returns (r: Reply)
      requires Valid()
      modifies this`path, this`currentDir
      ensures Valid()
      ensures dirname == ".." && old(path) == [] ==>
        r == Text("Already at the root directory.") && unchanged(this)
      ensures dirname == ".." && old(path) != [] ==>
        && r == Text("Returned to the parent directory.")
        && path == old(path)[..|old(path)| - 1]
        && currentDir.Some? && Step(nodes, currentDir.value, old(path)[|old(path)| - 1]) == old(currentDir)
      ensures dirname != ".." && old(currentDir).None? ==> r == Raised(TypeError) && unchanged(this)
      ensures dirname != ".." && old(currentDir).Some? && dirname in old(Cwd()).entries
              && nodes[old(Cwd()).entries[dirname]].DirNode? ==>
        && r == Text("Changed directory to '" + dirname + "'.")
        && path == old(path) + [dirname]
        && currentDir == Some(old(Cwd()).entries[dirname])
      ensures dirname != ".." && old(currentDir).Some?
              && !(dirname in old(Cwd()).entries && nodes[old(Cwd()).entries[dirname]].DirNode?) ==>
        r == Text("Directory not found.") && unchanged(this)
    {
      if dirname == ".." {
        if path != [] {
          var home := users[currentUser.value].home;
          path := path[..|path| - 1];
          assert Walk(nodes, home, old(path)).Some?;
          UpdateCurrentDir();
          r := Text("Returned to the parent directory.");
        } else {
          r := Text("Already at the root directory.");
        }
      } else if currentDir.None? {
        r := Raised(TypeError);
      } else {
        var children := Cwd();
        if dirname in children.entries && nodes[children.entries[dirname]].DirNode? {
          var home := users[currentUser.value].home;
          path := path + [dirname];
          assert path[..|path| - 1] == old(path);
          UpdateCurrentDir();
          r := Text("Changed directory to '" + dirname + "'.");
        } else {
          r := Text("Directory not found.");
        }
      }
    }

    /** `_update_current_dir`: walk `path` down from the user's root, one child at a time. */
    method UpdateCurrentDir()
      requires currentUser.Some? && currentUser.value in users
      requires Walk(nodes, users[currentUser.value].home, path).Some?
      modifies this`currentDir
      ensures currentDir == Walk(nodes, users[currentUser.value].home, path)
    {
      var home := users[currentUser.value].home;
      currentDir := Some(home);
      for i := 0 to |path|
        invariant currentDir == Walk(nodes, home, path[..i])
      {
        WalkPrefix(nodes, home, path, i + 1);
        assert path[..i + 1][..i] == path[..i];
        currentDir := Some(nodes[currentDir.value].children.entries[path[i]]);
      }
      assert path[..|path|] == path;
    }

    /** Only a child directory is removed; its subtree goes with it, and the FAT, disk and open files are untouched. */
    method Rd(dirname: string) returns (r: Reply)
      requires Valid()
      modifies this`nodes
      ensures Valid()
      ensures old(currentDir).None? ==> r == Raised(TypeError) && unchanged(this)
      ensures old(currentDir).Some? && dirname in old(Cwd()).entries
              && old(nodes)[old(Cwd()).entries[dirname]].DirNode? ==>
        && r == Text("Directory '" + dirname + "' deleted.")
        && nodes == RemoveChild(old(nodes), currentDir.value, dirname)
        && Cwd().keys == Without(old(Cwd()).keys, dirname)
      ensures old(currentDir).Some?
              && !(dirname in old(Cwd()).entries && old(nodes)[old(Cwd()).entries[dirname]].DirNode?) ==>
        r == Text("Directory not found or is a file.") && unchanged(this)
    {
      if currentDir.None? {
        return Raised(TypeError);
      }
      var cwd := currentDir.value;
      var children := Cwd();
      if dirname in children.entries && nodes[children.entries[dirname]].DirNode? {
        RemoveChildConsistent(nodes, nextId, users, openFiles, currentUser, currentDir, path, dirname);
        nodes := RemoveChild(nodes, cwd, dirname);
        r := Text("Directory '" + dirname + "' deleted.");
      } else {
        r := Text("Directory not found or is a file.");
      }
    }

    /** Any existing child name, file or directory, is refused. */
    method Md(dirname: string) returns (r: Reply)
      requires Valid()
      modifies this`nodes, this`nextId
      ensures Valid()
      ensures old(currentDir).None? ==> r == Raised(TypeError) && unchanged(this)
      ensures old(currentDir).Some? && dirname in old(Cwd()).entries ==>
        r == Text("Directory already exists.") && unchanged(this)
      ensures old(currentDir).Some? && dirname !in old(Cwd()).entries ==>
        && r == Text("Directory '" + dirname + "' created.")
        && nodes == AddChild(old(nodes), currentDir.value, dirname, old(nextId), DirNode(Empty()))
        && nextId == old(nextId) + 1
        && Cwd().keys == old(Cwd()).keys + [dirname]
    {
      if currentDir.None? {
        return Raised(TypeError);
      }
      var cwd := currentDir.value;
      if dirname in nodes[cwd].children.entries {
        return Text("Directory already exists.");
      }
      AddChildConsistent(nodes, nextId, users, openFiles, currentUser, currentDir, path, dirname, DirNode(Empty()));
      nodes := AddChild(nodes, cwd, dirname, nextId, DirNode(Empty()));
      nextId := nextId + 1;
      r := Text("Directory '" + dirname + "' created.");
    }

    /**
     * The rows `show_fat_table` prints, in FAT order. A file's path is looked
     * up by bare name in the current user's tree: "Unknown" exactly when no
     * file of that name is reachable there, otherwise the path of some file
     * of that name.
     */
    function ShowFatTable(): (r: Result<seq<FatRow>>)
      reads this
      requires Valid()
      ensures currentUser.None? ==> r == Err(MissingUserKey)
      ensures currentUser.Some? ==> r.Ok? && |r.value| == |fat.keys|
      ensures r.Ok? ==> currentUser.Some? && forall i :: 0 <= i < |r.value| ==>
        && r.value[i].name == fat.keys[i]
        && r.value[i].start == fat.entries[fat.keys[i]].start
        && r.value[i].end == fat.entries[fat.keys[i]].end
        && (r.value[i].path == "Unknown" <==> !Reachable(nodes, users[currentUser.value].home, fat.keys[i]))
        && (r.value[i].path != "Unknown" ==> RoutesTo(nodes, users[currentUser.value].home, fat.keys[i], r.value[i].path))
    {
      match currentUser
      case None => Err(MissingUserKey)
      case Some(u) =>
        var home := users[u].home;
        var paths := FilePaths(nodes, nextId, home, "");
        FilePathsCorrect(nodes, nextId, home);
        var keys, entries := fat.keys, fat.entries;
        Ok(seq(|keys|, i requires 0 <= i < |keys| && keys[i] in entries =>
          FatRow(keys[i], if keys[i] in paths then paths[keys[i]] else "Unknown",
                 entries[keys[i]].start, entries[keys[i]].end)))
    }

    /** `display_disk_usage`: the bytes of the disk the FAT ranges cover, and the disk's length. */
    function DiskUsage(): (r: Usage)
      reads this
      requires Valid()
      ensures r.total == |disk|
      ensures r.used == UsedSpace(fat, disk)
      ensures InBounds(fat, |disk|) ==> r.used == RangeSum(fat.keys, fat.entries)
    {
      UsedIsRangeSum(fat, disk);
      Usage(UsedSpace(fat, disk), |disk|)
    }
  }
}
