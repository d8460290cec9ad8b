/** Working directories over whole runs: whatever processes change to and create, every
    working directory stays below the root, and the path that getcwd reports leads back. */
module WorkingDirectory {
  import opened Physical
  import opened Namespace
  import opened Vfs
  import opened Opening

  /** The name space, the next node number and the working directory of every process. */
  datatype World = World(tree: Tree, next: Id, cwd: map<nat, Id>)

  /** A process changes its directory; somebody creates a file; a process is forked with
      the directory of its parent, or is gone. */
  datatype Event =
    | Chdir(pid: nat, path: seq<Byte>)
    | Create(dir: Id, name: seq<Byte>)
    | Fork(parent: nat, child: nat)
    | Gone(pid: nat)

  /** A name that a directory lacks. */
  predicate MayCreate(t: Tree, dir: Id, name: seq<Byte>) {
    dir in t.nodes && t.nodes[dir].kind == DIR && NameOk(name) && Child(t, dir, name) == 0
  }

  ghost predicate Next(root: Id, w: World, e: Event, w': World) {
    match e
    case Chdir(p, path) =>
      && p in w.cwd
      && var r := Resolve(w.tree, root, w.cwd[p], path, false);
      w' ==
        if r.Found? && r.node in w.tree.nodes && w.tree.nodes[r.node].kind == DIR then w.(cwd := w.cwd[p := r.node])
        else w
    case Create(dir, name) =>
      MayCreate(w.tree, dir, name) && w' == w.(tree := Added(w.tree, w.next, dir, name, REG, []), next := w.next + 1)
    case Fork(p, q) => p in w.cwd && q !in w.cwd && w' == w.(cwd := w.cwd[q := w.cwd[p]])
    case Gone(p) => w' == w.(cwd := w.cwd - {p})
  }

  ghost predicate IsDirectory(t: Tree, root: Id, n: Id) {
    Reachable(t, root, n) && n in t.nodes && t.nodes[n].kind == DIR
  }

  ghost predicate Inv(root: Id, w: World) {
    && TreeOk(w.tree) && IsNew(w.tree, w.next) && IsDirectory(w.tree, root, root)
    && forall p :: p in w.cwd ==> IsDirectory(w.tree, root, w.cwd[p])
  }

  // ----- a new file moves no directory

  lemma {:induction false} UnderAfter(t: Tree, id: Id, p: Id, name: seq<Byte>, root: Id, n: Id)
    requires TreeOk(t) && IsNew(t, id) && p in t.nodes && Under(t, root, n)
    ensures Under(Added(t, id, p, name, REG, []), root, n)
    decreases n
  {
    hide TreeOk, Up;
    UpAfter(t, id, p, name, n);
    if n != root {
      UnderAfter(t, id, p, name, root, Up(t, n));
    }
  }

  lemma {:induction false} VisibleAfter(t: Tree, id: Id, p: Id, name: seq<Byte>, n: Id)
    requires TreeOk(t) && IsNew(t, id) && p in t.nodes && Visible(t, n)
    ensures Visible(Added(t, id, p, name, REG, []), n)
    decreases n
  {
    hide TreeOk, Up;
    UpAfter(t, id, p, name, n);
    if Up(t, n) < n {
      VisibleAfter(t, id, p, name, Up(t, n));
    }
  }

  lemma DirectoryAfter(t: Tree, id: Id, p: Id, name: seq<Byte>, root: Id, n: Id)
    requires TreeOk(t) && IsNew(t, id) && p in t.nodes && IsDirectory(t, root, n)
    ensures IsDirectory(Added(t, id, p, name, REG, []), root, n)
  {
    hide TreeOk, Under, Visible;
    UnderAfter(t, id, p, name, root, n);
    VisibleAfter(t, id, p, name, n);
  }

  lemma EntranceAfter(t: Tree, id: Id, p: Id, name: seq<Byte>, n: Id)
    requires TreeOk(t) && IsNew(t, id) && p in t.nodes && n in t.nodes
    ensures var t' := Added(t, id, p, name, REG, []);
            && Entrance(t', n) == Entrance(t, n) && Entrance(t, n) in t.nodes
            && Entrance(t, n) in t'.nodes && t'.nodes[Entrance(t, n)].name == t.nodes[Entrance(t, n)].name
  {
    AddedTop(t, id, p, name, REG, [], n);
    EntranceParent(t, n);
    if IsTop(t, n) {
      assert MountOk(t, t.nodes[n].mount);
      assert t.mounts[t.nodes[n].mount].covered != id;
    }
  }

  /** Creating a file changes the path of no directory. */
  lemma {:induction false} PathAfter(t: Tree, id: Id, p: Id, name: seq<Byte>, root: Id, n: Id)
    requires TreeOk(t) && IsNew(t, id) && p in t.nodes && Under(t, root, n)
    ensures Under(Added(t, id, p, name, REG, []), root, n)
    ensures PathTo(Added(t, id, p, name, REG, []), root, n) == PathTo(t, root, n)
    decreases n
  {
    hide TreeOk, Up, Entrance;
    UnderAfter(t, id, p, name, root, n);
    UpAfter(t, id, p, name, n);
    EntranceAfter(t, id, p, name, n);
    if n != root {
      PathAfter(t, id, p, name, root, Up(t, n));
    }
  }

  // ----- every step

  lemma ChdirKeeps(root: Id, w: World, p: nat, path: seq<Byte>, w': World)
    requires Inv(root, w) && Next(root, w, Chdir(p, path), w')
    ensures Inv(root, w')
  {
    hide TreeOk, Reachable, Resolve, IsNew;
    ResolveStays(w.tree, root, w.cwd[p], path, false);
  }

  lemma CreateKeeps(root: Id, w: World, dir: Id, name: seq<Byte>, w': World)
    requires Inv(root, w) && Next(root, w, Create(dir, name), w')
    ensures Inv(root, w')
  {
    hide TreeOk, IsDirectory, NameOk;
    AddKeeps(w.tree, w.next, dir, name, REG, []);
    DirectoryAfter(w.tree, w.next, dir, name, root, root);
    forall p | p in w.cwd ensures IsDirectory(w'.tree, root, w.cwd[p]) {
      DirectoryAfter(w.tree, w.next, dir, name, root, w.cwd[p]);
    }
  }

  lemma StepKeeps(root: Id, w: World, e: Event, w': World)
    requires Inv(root, w) && Next(root, w, e, w')
    ensures Inv(root, w')
  {
    hide TreeOk, IsDirectory, Resolve, MayCreate, IsNew, Added;
    match e
    case Chdir(p, path) => ChdirKeeps(root, w, p, path, w');
    case Create(dir, name) => CreateKeeps(root, w, dir, name, w');
    case Fork(p, q) =>
    case Gone(p) =>
  }

  /** What an open that makes a node does is such a step. */
  lemma MadeIsCreate(root: Id, w: World, base: Id, path: seq<Byte>, cut: nat, p: Id, readonly: set<nat>, t': Tree,
                     nofollow: bool)
    requires Inv(root, w) && base in w.tree.nodes && NoZero(path)
             && Resolve(w.tree, root, base, path, nofollow) == Failed(NOENT)
    requires Made(w.tree, root, base, path, cut, p, w.next, readonly, t')
    ensures Next(root, w, Create(p, path[cut..]), w.(tree := t', next := w.next + 1))
  {
    hide TreeOk, Resolve, IsDirectory;
    CreatedIsFound(w.tree, w.next, p, root, base, path, cut, nofollow);
  }

  ghost predicate Run(root: Id, worlds: seq<World>, events: seq<Event>) {
    && |worlds| == |events| + 1
    && forall i :: 0 <= i < |events| ==> Next(root, worlds[i], events[i], worlds[i + 1])
  }

  ghost function Answer(t: Tree, root: Id, n: Id): seq<Byte>
    requires Under(t, root, n)
  {
    if n == root then [SLASH] else PathTo(t, root, n)
  }

  /** In every run, at every moment and for every process: the path that getcwd reports,
      if it fits, resolves to the working directory, from wherever it is resolved. */
  lemma {:induction false} CwdAlwaysBack(root: Id, worlds: seq<World>, events: seq<Event>, n: nat, p: nat, base: Id,
                                         nofollow: bool)
    requires Run(root, worlds, events) && Inv(root, worlds[0]) && n < |worlds|
    ensures Inv(root, worlds[n])
    ensures p in worlds[n].cwd ==>
              && Under(worlds[n].tree, root, worlds[n].cwd[p])
              && (|PathTo(worlds[n].tree, root, worlds[n].cwd[p])| < PATH_LIMIT ==>
                    Resolve(worlds[n].tree, root, base, Answer(worlds[n].tree, root, worlds[n].cwd[p]), nofollow)
                      == Found(worlds[n].cwd[p]))
    decreases n
  {
    hide Next, TreeOk, Resolve, PathTo, Under, Visible, IsNew;
    if n > 0 {
      CwdAlwaysBack(root, worlds, events, n - 1, p, base, nofollow);
      StepKeeps(root, worlds[n - 1], events[n - 1], worlds[n]);
    }
    var w := worlds[n];
    if p in w.cwd && |PathTo(w.tree, root, w.cwd[p])| < PATH_LIMIT {
      CwdRoundTrip(w.tree, root, w.cwd[p], base, nofollow);
    }
  }

  /** The answer changes only when the process itself changes its directory. */
  lemma AnswerStays(root: Id, w: World, e: Event, w': World, p: nat)
    requires Inv(root, w) && Next(root, w, e, w') && p in w.cwd && p in w'.cwd && !(e.Chdir? && e.pid == p)
    ensures Under(w.tree, root, w.cwd[p]) && Under(w'.tree, root, w'.cwd[p])
    ensures Answer(w'.tree, root, w'.cwd[p]) == Answer(w.tree, root, w.cwd[p])
  {
    hide TreeOk, Resolve, PathTo, Under, Visible, NameOk;
    if e.Create? {
      PathAfter(w.tree, w.next, e.dir, e.name, root, w.cwd[p]);
    }
  }

  /** Where such runs begin: with a sound tree and its first root. */
  lemma BootWorld(t: Tree, next: Id, root: Id, pid: nat)
    requires TreeOk(t) && IsNew(t, next) && IsFirst(t, root)
    ensures Inv(root, World(t, next, map[pid := root]))
  {
    hide TreeOk;
    FirstFacts(t, root);
  }
}
