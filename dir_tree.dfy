/**
 * The per-user directory trees. In the source they are nested dicts shared
 * by reference: the open-file table and the current directory point into
 * them, so a change made through one reference is seen through the others.
 * They are modelled as an arena, a map from node ids to nodes in which a
 * directory holds its children's ids in insertion order. Nodes are never
 * freed: a node unlinked from its parent stays reachable through any
 * reference still held to it.
 */
module DirTree {
  import opened Options
  import opened OrderedMaps

  type NodeId = nat

  /** `{"type": "dir", "children": {...}}` or `{"type": "file", "content": ...}`. */
  datatype Node = DirNode(children: OrderedMap<string, NodeId>) | FileNode(content: string)

  /** A directory's children exist and were allocated after it. */
  ghost predicate NodeWellformed(nodes: map<NodeId, Node>, id: NodeId)
    requires id in nodes
  {
    match nodes[id]
    case FileNode(_) => true
    case DirNode(children) =>
      && children.Valid()
      && forall name :: name in children.entries ==>
           children.entries[name] in nodes && id < children.entries[name]
  }

  /** Every node id is below `bound`, the next id to allocate, and every node is well formed. */
  ghost predicate Wellformed(nodes: map<NodeId, Node>, bound: nat) {
    && (forall id :: id in nodes ==> id < bound)
    && (forall id {:trigger NodeWellformed(nodes, id)} :: id in nodes ==> NodeWellformed(nodes, id))
  }

  /** `node["children"][name]`, when `node` is a directory that has that child. */
  function Step(nodes: map<NodeId, Node>, id: NodeId, name: string): Option<NodeId> {
    if id in nodes && nodes[id].DirNode? && name in nodes[id].children.entries
    then Some(nodes[id].children.entries[name])
    else None
  }

  /** The node reached from `from` by following the names of `route` in order. */
  function Walk(nodes: map<NodeId, Node>, from: NodeId, route: seq<string>): Option<NodeId>
    decreases |route|
  {
    if route == [] then Some(from)
    else match Walk(nodes, from, route[..|route| - 1])
      case None => None
      case Some(id) => Step(nodes, id, route[|route| - 1])
  }

  /** A walk that succeeds succeeds along every prefix of its route. */
  lemma {:induction false} WalkPrefix(nodes: map<NodeId, Node>, from: NodeId, route: seq<string>, k: nat)
    requires k <= |route| && Walk(nodes, from, route).Some?
    ensures Walk(nodes, from, route[..k]).Some?
    decreases |route| - k
  {
    if k == |route| {
      assert route[..k] == route;
    } else {
      var init := route[..|route| - 1];
      assert init[..k] == route[..k];
      WalkPrefix(nodes, from, init, k);
    }
  }

  /** Walking `[name] + rest` is one step to the child `name`, then a walk along `rest`. */
  lemma {:induction false} WalkCons(nodes: map<NodeId, Node>, from: NodeId, name: string, rest: seq<string>)
    ensures Walk(nodes, from, [name] + rest) ==
      match Step(nodes, from, name)
      case None => None
      case Some(child) => Walk(nodes, child, rest)
    decreases |rest|
  {
    var route := [name] + rest;
    if rest == [] {
      assert route[..0] == [];
    } else {
      assert route[..|route| - 1] == [name] + rest[..|rest| - 1];
      WalkCons(nodes, from, name, rest[..|rest| - 1]);
    }
  }

  /**
   * A walk ending at `x` survives any change that leaves alone every
   * directory with an id below `x`: changing `x` itself, adding nodes, or
   * changing files. Ids grow along a walk, so it only reads those directories.
   */
  lemma {:induction false} WalkFrame(nodes: map<NodeId, Node>, nodes': map<NodeId, Node>, bound: nat,
                                     from: NodeId, route: seq<string>, x: NodeId)
    requires Wellformed(nodes, bound)
    requires Walk(nodes, from, route) == Some(x)
    requires forall id :: id in nodes && nodes[id].DirNode? && id < x ==> id in nodes' && nodes'[id] == nodes[id]
    ensures Walk(nodes', from, route) == Some(x)
    decreases |route|
  {
    if route != [] {
      var init := route[..|route| - 1];
      var d := Walk(nodes, from, init).value;
      assert d in nodes && nodes[d].DirNode? && NodeWellformed(nodes, d);
      WalkFrame(nodes, nodes', bound, from, init, d);
    }
  }

  /** A node without children: a file, or an empty directory. */
  ghost predicate Leaf(node: Node) {
    node.FileNode? || node.children == Empty()
  }

  /** `parent["children"][name] = node`, `node` being a new node with id `id`. */
  function AddChild(nodes: map<NodeId, Node>, parent: NodeId, name: string, id: NodeId, node: Node): (r: map<NodeId, Node>)
    requires parent in nodes && nodes[parent].DirNode? && id !in nodes
    ensures r.Keys == nodes.Keys + {id} && r[id] == node
    ensures r[parent] == DirNode(nodes[parent].children.Put(name, id))
    ensures forall x :: x in nodes && x != parent ==> r[x] == nodes[x]
    ensures forall x :: x in nodes ==> r[x].DirNode? == nodes[x].DirNode?
  {
    nodes[parent := DirNode(nodes[parent].children.Put(name, id))][id := node]
  }

  /** `del parent["children"][name]`. The child node itself stays in the arena. */
  function RemoveChild(nodes: map<NodeId, Node>, parent: NodeId, name: string): (r: map<NodeId, Node>)
    requires parent in nodes && nodes[parent].DirNode?
    ensures r.Keys == nodes.Keys
    ensures r[parent] == DirNode(nodes[parent].children.Remove(name))
    ensures forall x :: x in nodes && x != parent ==> r[x] == nodes[x]
    ensures forall x :: x in nodes ==> r[x].DirNode? == nodes[x].DirNode?
  {
    nodes[parent := DirNode(nodes[parent].children.Remove(name))]
  }

  /** Unlinking a child just added under a fresh name gives back the old listing; only the new node stays. */
  lemma RemoveAddChild(nodes: map<NodeId, Node>, parent: NodeId, name: string, id: NodeId, node: Node)
    requires parent in nodes && nodes[parent].DirNode? && id !in nodes
    requires nodes[parent].children.Valid() && name !in nodes[parent].children.entries
    ensures RemoveChild(AddChild(nodes, parent, name, id, node), parent, name) == nodes[id := node]
  {
    RemovePut(nodes[parent].children, name, id);
  }

  lemma AddChildWellformed(nodes: map<NodeId, Node>, bound: nat, parent: NodeId, name: string, node: Node)
    requires Wellformed(nodes, bound) && parent in nodes && nodes[parent].DirNode? && Leaf(node)
    ensures Wellformed(AddChild(nodes, parent, name, bound, node), bound + 1)
  {
    var nodes' := AddChild(nodes, parent, name, bound, node);
    forall id | id in nodes'
      ensures id < bound + 1 && NodeWellformed(nodes', id)
    {
      if id != bound {
        assert NodeWellformed(nodes, id);
      }
    }
  }

  lemma RemoveChildWellformed(nodes: map<NodeId, Node>, bound: nat, parent: NodeId, name: string)
    requires Wellformed(nodes, bound) && parent in nodes && nodes[parent].DirNode?
    ensures Wellformed(RemoveChild(nodes, parent, name), bound)
  {
    var nodes' := RemoveChild(nodes, parent, name);
    forall id | id in nodes'
      ensures id < bound && NodeWellformed(nodes', id)
    {
      assert NodeWellformed(nodes, id);
    }
  }

  lemma AddNodeWellformed(nodes: map<NodeId, Node>, bound: nat, node: Node)
    requires Wellformed(nodes, bound) && Leaf(node)
    ensures Wellformed(nodes[bound := node], bound + 1)
  {
    var nodes' := nodes[bound := node];
    forall id | id in nodes'
      ensures id < bound + 1 && NodeWellformed(nodes', id)
    {
      if id != bound {
        assert NodeWellformed(nodes, id);
      }
    }
  }

  lemma SetFileWellformed(nodes: map<NodeId, Node>, bound: nat, id: NodeId, content: string)
    requires Wellformed(nodes, bound) && id in nodes && nodes[id].FileNode?
    ensures Wellformed(nodes[id := FileNode(content)], bound)
  {
    var nodes' := nodes[id := FileNode(content)];
    forall x | x in nodes'
      ensures x < bound && NodeWellformed(nodes', x)
    {
      assert NodeWellformed(nodes, x);
    }
  }

  /** The "/"-joined path of a route, "/a/b/c". */
  function JoinRoute(route: seq<string>): (r: string)
    ensures route != [] ==> |r| > 0 && r[0] == '/'
  {
    if route == [] then "" else "/" + route[0] + JoinRoute(route[1..])
  }

  /** `route` leads from `from` to a file node. */
  ghost predicate IsFileRoute(nodes: map<NodeId, Node>, from: NodeId, route: seq<string>) {
    && |route| > 0
    && match Walk(nodes, from, route)
       case None => false
       case Some(id) => id in nodes && nodes[id].FileNode?
  }

  /** Some file below `from` has the name `name`. */
  ghost predicate Reachable(nodes: map<NodeId, Node>, from: NodeId, name: string) {
    exists route :: IsFileRoute(nodes, from, route) && route[|route| - 1] == name
  }

  /** `path` is the joined route of some file named `name` below `from`. */
  ghost predicate RoutesTo(nodes: map<NodeId, Node>, from: NodeId, name: string, path: string) {
    exists route :: IsFileRoute(nodes, from, route) && route[|route| - 1] == name && path == JoinRoute(route)
  }

  /** `_build_file_paths(dir, prefix)`: name -> path for every file below the directory `dir`. */
  function FilePaths(nodes: map<NodeId, Node>, bound: nat, dir: NodeId, prefix: string): map<string, string>
    requires Wellformed(nodes, bound) && dir in nodes && nodes[dir].DirNode?
    decreases bound - dir, 2, 0
  {
    assert NodeWellformed(nodes, dir);
    EntriesPaths(nodes, bound, dir, nodes[dir].children.keys, prefix)
  }

  /** The loop of `_build_file_paths` over the entries `names` of `dir`; a later entry overwrites an earlier one. */
  function EntriesPaths(nodes: map<NodeId, Node>, bound: nat, dir: NodeId, names: seq<string>, prefix: string): map<string, string>
    requires Wellformed(nodes, bound) && dir in nodes && nodes[dir].DirNode?
    requires forall name <- names :: name in nodes[dir].children.entries
    decreases bound - dir, 1, |names|
  {
    if names == [] then map[]
    else
      EntriesPaths(nodes, bound, dir, names[..|names| - 1], prefix)
        + EntryPaths(nodes, bound, dir, names[|names| - 1], prefix)
  }

  /** One loop iteration: a file adds its own path, a directory the result of recursing into it. */
  function EntryPaths(nodes: map<NodeId, Node>, bound: nat, dir: NodeId, name: string, prefix: string): map<string, string>
    requires Wellformed(nodes, bound) && dir in nodes && nodes[dir].DirNode?
    requires name in nodes[dir].children.entries
    decreases bound - dir, 0, 0
  {
    assert NodeWellformed(nodes, dir);
    var child := nodes[dir].children.entries[name];
    var path := prefix + "/" + name;
    match nodes[child]
    case FileNode(_) => map[name := path]
    case DirNode(_) => FilePaths(nodes, bound, child, path)
  }

  /** Later iterations never drop a name an earlier one added. */
  lemma {:induction false} EntriesCover(nodes: map<NodeId, Node>, bound: nat, dir: NodeId, names: seq<string>,
                                        prefix: string, i: nat)
    requires Wellformed(nodes, bound) && dir in nodes && nodes[dir].DirNode?
    requires forall name <- names :: name in nodes[dir].children.entries
    requires i < |names|
    ensures EntryPaths(nodes, bound, dir, names[i], prefix).Keys <= EntriesPaths(nodes, bound, dir, names, prefix).Keys
    decreases |names|
  {
    if i < |names| - 1 {
      EntriesCover(nodes, bound, dir, names[..|names| - 1], prefix, i);
    }
  }

  /** Every file reachable from `dir` has its name in `_build_file_paths(dir, prefix)`. */
  lemma {:induction false} FilePathsComplete(nodes: map<NodeId, Node>, bound: nat, dir: NodeId, prefix: string,
                                             route: seq<string>)
    requires Wellformed(nodes, bound) && dir in nodes && nodes[dir].DirNode?
    requires IsFileRoute(nodes, dir, route)
    ensures route[|route| - 1] in FilePaths(nodes, bound, dir, prefix)
    decreases |route|
  {
    var name, rest := route[0], route[1..];
    assert route == [name] + rest;
    WalkCons(nodes, dir, name, rest);
    var children := nodes[dir].children;
    assert NodeWellformed(nodes, dir);
    var child := children.entries[name];
    var i :| 0 <= i < |children.keys| && children.keys[i] == name;
    EntriesCover(nodes, bound, dir, children.keys, prefix, i);
    if rest != [] {
      assert rest == [rest[0]] + rest[1..];
      WalkCons(nodes, child, rest[0], rest[1..]);
      FilePathsComplete(nodes, bound, child, prefix + "/" + name, rest);
    }
  }

  /** Every path in `_build_file_paths(dir, prefix)` is `prefix` followed by the joined route of a file of that name. */
  lemma {:induction false} FilePathsSound(nodes: map<NodeId, Node>, bound: nat, dir: NodeId, prefix: string, k: string)
    requires Wellformed(nodes, bound) && dir in nodes && nodes[dir].DirNode?
    requires k in FilePaths(nodes, bound, dir, prefix)
    ensures exists route :: IsFileRoute(nodes, dir, route) && route[|route| - 1] == k
                            && FilePaths(nodes, bound, dir, prefix)[k] == prefix + JoinRoute(route)
    decreases bound - dir, 2, 0
  {
    assert NodeWellformed(nodes, dir);
    EntriesSound(nodes, bound, dir, nodes[dir].children.keys, prefix, k);
  }

  lemma {:induction false} EntriesSound(nodes: map<NodeId, Node>, bound: nat, dir: NodeId, names: seq<string>,
                                        prefix: string, k: string)
    requires Wellformed(nodes, bound) && dir in nodes && nodes[dir].DirNode?
    requires forall name <- names :: name in nodes[dir].children.entries
    requires k in EntriesPaths(nodes, bound, dir, names, prefix)
    ensures exists route :: IsFileRoute(nodes, dir, route) && route[|route| - 1] == k
                            && EntriesPaths(nodes, bound, dir, names, prefix)[k] == prefix + JoinRoute(route)
    decreases bound - dir, 1, |names|
  {
    var last := names[|names| - 1];
    if k in EntryPaths(nodes, bound, dir, last, prefix) {
      EntrySound(nodes, bound, dir, last, prefix, k);
    } else {
      EntriesSound(nodes, bound, dir, names[..|names| - 1], prefix, k);
    }
  }

  /** A file route from a child, prefixed by the child's name, is a file route from the parent. */
  lemma PrependRoute(nodes: map<NodeId, Node>, dir: NodeId, name: string, child: NodeId, sub: seq<string>)
    requires Step(nodes, dir, name) == Some(child)
    requires IsFileRoute(nodes, child, sub)
    ensures IsFileRoute(nodes, dir, [name] + sub)
    ensures ([name] + sub)[|sub|] == sub[|sub| - 1]
    ensures JoinRoute([name] + sub) == "/" + name + JoinRoute(sub)
  {
    WalkCons(nodes, dir, name, sub);
    assert ([name] + sub)[1..] == sub;
  }

  /** A file entry's only path is its one-step route. */
  lemma FileEntrySound(nodes: map<NodeId, Node>, bound: nat, dir: NodeId, name: string, prefix: string)
    requires Wellformed(nodes, bound) && dir in nodes && nodes[dir].DirNode?
    requires name in nodes[dir].children.entries
    requires nodes[dir].children.entries[name] in nodes && nodes[nodes[dir].children.entries[name]].FileNode?
    ensures IsFileRoute(nodes, dir, [name])
    ensures EntryPaths(nodes, bound, dir, name, prefix) == map[name := prefix + JoinRoute([name])]
  {
    assert NodeWellformed(nodes, dir);
    WalkCons(nodes, dir, name, []);
    assert [name] == [name] + [];
    assert JoinRoute([name]) == "/" + name + JoinRoute([]);
    assert prefix + "/" + name == prefix + JoinRoute([name]);
  }

  lemma {:induction false} EntrySound(nodes: map<NodeId, Node>, bound: nat, dir: NodeId, name: string,
                                      prefix: string, k: string)
    requires Wellformed(nodes, bound) && dir in nodes && nodes[dir].DirNode?
    requires name in nodes[dir].children.entries
    requires k in EntryPaths(nodes, bound, dir, name, prefix)
    ensures exists route :: IsFileRoute(nodes, dir, route) && route[|route| - 1] == k
                            && EntryPaths(nodes, bound, dir, name, prefix)[k] == prefix + JoinRoute(route)
    decreases bound - dir, 0, 1
  {
    assert NodeWellformed(nodes, dir);
    var child := nodes[dir].children.entries[name];
    if nodes[child].FileNode? {
      FileEntrySound(nodes, bound, dir, name, prefix);
      assert [name][|[name]| - 1] == k;
    } else {
      DirEntrySound(nodes, bound, dir, name, prefix, k);
    }
  }

  /** A directory entry's paths are the paths below it, each with the entry's name put in front. */
  lemma {:induction false} DirEntrySound(nodes: map<NodeId, Node>, bound: nat, dir: NodeId, name: string,
                                         prefix: string, k: string)
    requires Wellformed(nodes, bound) && dir in nodes && nodes[dir].DirNode?
    requires name in nodes[dir].children.entries
    requires nodes[dir].children.entries[name] in nodes && nodes[nodes[dir].children.entries[name]].DirNode?
    requires k in EntryPaths(nodes, bound, dir, name, prefix)
    ensures exists route :: IsFileRoute(nodes, dir, route) && route[|route| - 1] == k
                            && EntryPaths(nodes, bound, dir, name, prefix)[k] == prefix + JoinRoute(route)
    decreases bound - dir, 0, 0
  {
    assert NodeWellformed(nodes, dir);
    var child := nodes[dir].children.entries[name];
    var path := prefix + "/" + name;
    var m := EntryPaths(nodes, bound, dir, name, prefix);
    assert Step(nodes, dir, name) == Some(child);
    assert m == FilePaths(nodes, bound, child, path);
    FilePathsSound(nodes, bound, child, path, k);
    var sub :| IsFileRoute(nodes, child, sub) && sub[|sub| - 1] == k && m[k] == path + JoinRoute(sub);
    PrependRoute(nodes, dir, name, child, sub);
    assert m[k] == prefix + JoinRoute([name] + sub);
  }

  /**
   * `_build_file_paths(dir)` holds exactly the names of the files reachable
   * from `dir`, each mapped to the joined route of some file of that name
   * (the name, not the identity, is the key).
   */
  lemma FilePathsCorrect(nodes: map<NodeId, Node>, bound: nat, dir: NodeId)
    requires Wellformed(nodes, bound) && dir in nodes && nodes[dir].DirNode?
    ensures forall k :: k in FilePaths(nodes, bound, dir, "") <==> Reachable(nodes, dir, k)
    ensures forall k :: k in FilePaths(nodes, bound, dir, "") ==> RoutesTo(nodes, dir, k, FilePaths(nodes, bound, dir, "")[k])
    ensures forall k :: k in FilePaths(nodes, bound, dir, "") ==> |FilePaths(nodes, bound, dir, "")[k]| > 0 && FilePaths(nodes, bound, dir, "")[k][0] == '/'
  {
    var paths := FilePaths(nodes, bound, dir, "");
    forall k | k in paths
      ensures Reachable(nodes, dir, k) && RoutesTo(nodes, dir, k, paths[k])
      ensures |paths[k]| > 0 && paths[k][0] == '/'
    {
      FilePathsSound(nodes, bound, dir, "", k);
      var route :| IsFileRoute(nodes, dir, route) && route[|route| - 1] == k && paths[k] == "" + JoinRoute(route);
      assert "" + JoinRoute(route) == JoinRoute(route);
    }
    forall k | Reachable(nodes, dir, k)
      ensures k in paths
    {
      var route :| IsFileRoute(nodes, dir, route) && route[|route| - 1] == k;
      FilePathsComplete(nodes, bound, dir, "", route);
    }
  }
}
