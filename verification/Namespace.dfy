/** The name space: directories, mounts and symbolic links; and how a path is
    walked through them. */
module Namespace {
  import opened Physical

  const PATH_LIMIT: nat := 256
  const NAME_LIMIT: nat := 64
  const LINK_LIMIT: nat := 8

  const SLASH: Byte := 47
  const DOT: seq<Byte> := [46]
  const DOTDOT: seq<Byte> := [46, 46]

  /** Node numbers count up from 1 as nodes are made. */
  type Id = nat

  datatype Kind = DIR | REG | LNK | CHR

  /** `mounted` is the number of the mount that covers the node, or 0. */
  datatype Vnode = Vnode(name: seq<Byte>, parent: Id, kind: Kind, children: seq<Id>, mount: nat, mounted: nat,
                         data: seq<Byte>)

  /** `covered` is the directory the mount hides, or 0 for the first mount. */
  datatype Mount = Mount(root: Id, covered: Id)

  datatype Tree = Tree(nodes: map<Id, Vnode>, mounts: seq<Mount>)

  datatype Errno = NOENT | NAMETOOLONG | NOTDIR | LOOP

  datatype Result = Found(node: Id) | Failed(error: Errno)

  // ----- invariant

  predicate NoSlash(s: seq<Byte>) {
    forall i :: 0 <= i < |s| ==> s[i] != SLASH
  }

  predicate NameOk(s: seq<Byte>) {
    0 < |s| < NAME_LIMIT && NoZero(s) && NoSlash(s) && s != DOT && s != DOTDOT
  }

  /** A mount's root. */
  predicate IsTop(t: Tree, n: Id) {
    n in t.nodes && t.nodes[n].mount < |t.mounts| && t.mounts[t.nodes[n].mount].root == n
  }

  predicate ChildrenOk(t: Tree, n: Id)
    requires n in t.nodes
  {
    var s := t.nodes[n].children;
    && (forall i :: 0 <= i < |s| ==> s[i] in t.nodes && t.nodes[s[i]].parent == n && !IsTop(t, s[i]))
    && (forall i, j ::
          0 <= i < j < |s| ==> s[i] in t.nodes && s[j] in t.nodes && t.nodes[s[i]].name != t.nodes[s[j]].name)
  }

  predicate NodeOk(t: Tree, n: Id) {
    && n > 0 && n in t.nodes && t.nodes[n].mount < |t.mounts| && ChildrenOk(t, n)
    && var v := t.nodes[n];
    && (if IsTop(t, n) then v.parent == n && v.kind == DIR && v.mounted == 0
        else
          && v.parent < n && v.parent in t.nodes && n in t.nodes[v.parent].children && t.nodes[v.parent].kind == DIR
          && NameOk(v.name))
    && (v.mounted != 0 ==> v.mounted < |t.mounts| && t.mounts[v.mounted].covered == n && v.kind == DIR)
    && (v.kind == LNK ==> NoZero(v.data))
  }

  predicate MountOk(t: Tree, i: nat) {
    && i < |t.mounts| && t.mounts[i].root in t.nodes && t.nodes[t.mounts[i].root].mount == i
    && (i == 0 ==> t.mounts[i].covered == 0)
    && (i > 0 ==>
          && t.mounts[i].covered in t.nodes && t.mounts[i].covered < t.mounts[i].root
          && t.nodes[t.mounts[i].covered].mounted == i && !IsTop(t, t.mounts[i].covered))
  }

  ghost predicate TreeOk(t: Tree) {
    && (forall n {:trigger NodeOk(t, n)} :: n in t.nodes ==> NodeOk(t, n))
    && (forall i: nat {:trigger MountOk(t, i)} :: i < |t.mounts| ==> MountOk(t, i))
  }

  // ----- walking

  /** The directory above, across mounts; the very first root is its own. */
  function Up(t: Tree, n: Id): Id {
    if n !in t.nodes then n
    else if IsTop(t, n) && t.mounts[t.nodes[n].mount].covered in t.nodes then
      t.nodes[t.mounts[t.nodes[n].mount].covered].parent
    else t.nodes[n].parent
  }

  /** The child of that name, or 0. */
  function ChildIn(t: Tree, s: seq<Id>, name: seq<Byte>): (c: Id)
    ensures c == 0 || c in s
  {
    if s == [] then 0
    else if s[0] in t.nodes && t.nodes[s[0]].name == name then s[0]
    else ChildIn(t, s[1..], name)
  }

  function Child(t: Tree, n: Id, name: seq<Byte>): Id {
    if n in t.nodes then ChildIn(t, t.nodes[n].children, name) else 0
  }

  /** The root of whatever is mounted there. */
  function Across(t: Tree, n: Id): Id {
    if n in t.nodes && 0 < t.nodes[n].mounted < |t.mounts| then t.mounts[t.nodes[n].mounted].root else n
  }

  function Slashes(s: seq<Byte>): (k: nat)
    ensures k <= |s| && (k < |s| ==> s[k] != SLASH) && forall i :: 0 <= i < k ==> s[i] == SLASH
  {
    if s != [] && s[0] == SLASH then 1 + Slashes(s[1..]) else 0
  }

  /** The length of the first component of a path that does not start with a slash. */
  function Component(s: seq<Byte>): (k: nat)
    ensures k <= |s| && NoSlash(s[..k]) && (k < |s| ==> s[k] == SLASH)
    ensures s != [] && s[0] != SLASH ==> k > 0
  {
    if s == [] || s[0] == SLASH then 0
    else
      var k := 1 + Component(s[1..]);
      assert s[..k] == [s[0]] + s[1..][..k - 1];
      k
  }

  /** One component taken: where it leads, what is left to read and how many links
      were followed; or the end. */
  datatype Step = Go(node: Id, rest: seq<Byte>, links: nat) | End(result: Result)

  /** Where a component leads from a directory. */
  function Entered(t: Tree, root: Id, node: Id, name: seq<Byte>, rest: seq<Byte>, links: nat, nofollow: bool): (s: Step)
    ensures s.Go? ==>
              (s.links == links && s.rest == rest) || (s.links == links + 1 <= LINK_LIMIT && |s.rest| < PATH_LIMIT)
    ensures s.End? ==> s.result.Failed?
  {
    if |name| >= NAME_LIMIT then End(Failed(NAMETOOLONG))
    else if name == DOT then Go(node, rest, links)
    else if name == DOTDOT then Go(if node == root then node else Up(t, node), rest, links)
    else
      var c := Child(t, node, name);
      if c == 0 then End(Failed(NOENT))
      else
        var next := Across(t, c);
        if next in t.nodes && t.nodes[next].kind == LNK then
          Expanded(root, node, t.nodes[next].data, rest, links, nofollow)
        else Go(next, rest, links)
  }

  /** A link's text takes the place of its name. */
  function Expanded(root: Id, node: Id, data: seq<Byte>, rest: seq<Byte>, links: nat, nofollow: bool): (s: Step)
    ensures s.Go? ==> s.links == links + 1 <= LINK_LIMIT && |s.rest| < PATH_LIMIT
    ensures s.End? ==> s.result.Failed?
  {
    if nofollow && rest == [] then End(Failed(LOOP))
    else if links + 1 > LINK_LIMIT then End(Failed(LOOP))
    else if data == [] || |data| + |rest| >= PATH_LIMIT then End(Failed(NAMETOOLONG))
    else Go(if data[0] == SLASH then root else node, data + rest, links + 1)
  }

  function Taken(t: Tree, root: Id, node: Id, path: seq<Byte>, links: nat, nofollow: bool): (s: Step)
    ensures s.Go? && links <= LINK_LIMIT ==> s.links <= LINK_LIMIT
    ensures s.Go? ==> s.links >= links && (s.links == links ==> |s.rest| < |path|)
    ensures s.Go? && |path| < PATH_LIMIT ==> |s.rest| < PATH_LIMIT
  {
    var k := Slashes(path);
    var at := path[k..];
    if node !in t.nodes then End(Failed(NOENT))
    else if at == [] then
      if k > 0 && t.nodes[node].kind != DIR then End(Failed(NOTDIR)) else End(Found(node))
    else if t.nodes[node].kind != DIR then End(Failed(NOTDIR))
    else
      var n := Component(at);
      Entered(t, root, node, at[..n], at[n..], links, nofollow)
  }

  /** Takes components until the path ends: at most eight links, each of which
      starts another read of a bounded path. */
  function Walk(t: Tree, root: Id, node: Id, path: seq<Byte>, links: nat, nofollow: bool): Result
    decreases LINK_LIMIT - links, |path|
  {
    match Taken(t, root, node, path, links, nofollow)
    case End(r) => r
    case Go(next, rest, links') =>
      if links' > LINK_LIMIT then Failed(LOOP) else Walk(t, root, next, rest, links', nofollow)
  }

  function Resolve(t: Tree, root: Id, base: Id, path: seq<Byte>, nofollow: bool): Result {
    if path == [] then Failed(NOENT)
    else if |path| >= PATH_LIMIT then Failed(NAMETOOLONG)
    else Walk(t, root, if path[0] == SLASH then root else base, path, 0, nofollow)
  }

  // ----- up and down

  /** The node whose name leads here: the covered directory for a mount's root. */
  function Entrance(t: Tree, n: Id): Id {
    if IsTop(t, n) && t.mounts[t.nodes[n].mount].covered in t.nodes then t.mounts[t.nodes[n].mount].covered else n
  }

  predicate IsFirst(t: Tree, n: Id) {
    |t.mounts| > 0 && t.mounts[0].root == n
  }

  /** Below the first root, the way up is a directory with a smaller number, and the
      way down again leads back. */
  lemma UpFacts(t: Tree, n: Id)
    requires TreeOk(t) && n in t.nodes && !IsFirst(t, n)
    ensures Up(t, n) < n && Up(t, n) in t.nodes && t.nodes[Up(t, n)].kind == DIR
    ensures var c := Entrance(t, n); c in t.nodes && c in t.nodes[Up(t, n)].children && NameOk(t.nodes[c].name)
    ensures t.nodes[n].mounted == 0 ==> Across(t, Entrance(t, n)) == n
  {
    assert NodeOk(t, n);
    if IsTop(t, n) {
      var m := t.nodes[n].mount;
      assert MountOk(t, m);
      assert NodeOk(t, t.mounts[m].covered);
    }
  }

  lemma FirstFacts(t: Tree, n: Id)
    requires TreeOk(t) && IsFirst(t, n)
    ensures n in t.nodes && Up(t, n) == n && t.nodes[n].kind == DIR && t.nodes[n].mounted == 0
  {
    assert MountOk(t, 0);
    assert NodeOk(t, n);
    assert !NodeOk(t, 0);
  }

  lemma {:induction false} ChildMeans(t: Tree, s: seq<Id>, name: seq<Byte>)
    ensures var c := ChildIn(t, s, name); c != 0 ==> c in t.nodes && t.nodes[c].name == name
  {
    if s != [] {
      ChildMeans(t, s[1..], name);
    }
  }

  /** Names are unique, so a child is found by its name. */
  lemma {:induction false} ChildUnique(t: Tree, s: seq<Id>, c: Id)
    requires c in s && (forall i :: 0 <= i < |s| ==> s[i] in t.nodes)
    requires forall i, j :: 0 <= i < j < |s| ==> t.nodes[s[i]].name != t.nodes[s[j]].name
    ensures ChildIn(t, s, t.nodes[c].name) == c
  {
    if s[0] != c {
      assert c in s[1..];
      assert t.nodes[s[0]].name != t.nodes[c].name by {
        var j :| 0 <= j < |s| && s[j] == c;
      }
      ChildUnique(t, s[1..], c);
    }
  }

  lemma ChildFound(t: Tree, n: Id, c: Id)
    requires TreeOk(t) && n in t.nodes && c in t.nodes[n].children
    ensures c in t.nodes && c != 0 && Child(t, n, t.nodes[c].name) == c
  {
    assert NodeOk(t, n);
    assert NodeOk(t, c);
    ChildUnique(t, t.nodes[n].children, c);
  }

  /** The way down from a directory, and across a mount, leads up to it again. */
  lemma DownFacts(t: Tree, n: Id, c: Id)
    requires TreeOk(t) && n in t.nodes && c in t.nodes[n].children
    ensures var next := Across(t, c);
            c in t.nodes && next in t.nodes && !IsFirst(t, next) && Up(t, next) == n && n < next
            && t.nodes[next].mounted == 0
  {
    assert MountOk(t, 0);
    assert NodeOk(t, n);
    assert NodeOk(t, c);
    var m := t.nodes[c].mounted;
    if m != 0 {
      assert MountOk(t, m);
      assert NodeOk(t, t.mounts[m].root);
    }
  }

  // ----- where a walk can lead

  /** At or below `root`. */
  ghost predicate Under(t: Tree, root: Id, n: Id)
    decreases n
  {
    n in t.nodes && (n == root || (Up(t, n) < n && Under(t, root, Up(t, n))))
  }

  /** Neither covered by a mount nor below a covered directory. */
  ghost predicate Visible(t: Tree, n: Id)
    decreases n
  {
    n in t.nodes && t.nodes[n].mounted == 0 && (Up(t, n) < n ==> Visible(t, Up(t, n)))
  }

  ghost predicate Reachable(t: Tree, root: Id, n: Id) {
    Under(t, root, n) && Visible(t, n)
  }

  /** Going up from a node other than the root stays at or below the root. */
  lemma UpStays(t: Tree, root: Id, n: Id)
    requires TreeOk(t) && Reachable(t, root, n) && n != root
    ensures Reachable(t, root, Up(t, n))
  {
  }

  lemma DownStays(t: Tree, root: Id, n: Id, c: Id)
    requires TreeOk(t) && Reachable(t, root, n) && c in t.nodes[n].children
    ensures Reachable(t, root, Across(t, c))
  {
    DownFacts(t, n, c);
  }

  lemma TakenStays(t: Tree, root: Id, node: Id, path: seq<Byte>, links: nat, nofollow: bool)
    requires TreeOk(t) && Reachable(t, root, node) && Reachable(t, root, root)
    ensures var s := Taken(t, root, node, path, links, nofollow);
            (s.Go? ==> Reachable(t, root, s.node)) && (s.End? && s.result.Found? ==> Reachable(t, root, s.result.node))
  {
    hide TreeOk, Reachable, Up, Across;
    ReachableListed(t, root, node);
    var at := path[Slashes(path)..];
    if at != [] {
      var name := at[..Component(at)];
      if node != root { UpStays(t, root, node); }
      var c := Child(t, node, name);
      if c != 0 {
        DownStays(t, root, node, c);
      }
    }
  }

  lemma ReachableListed(t: Tree, root: Id, n: Id)
    ensures Reachable(t, root, n) ==> n in t.nodes
  {
  }

  /** A path never leads above the root or to a covered directory. */
  lemma {:induction false} WalkStays(t: Tree, root: Id, node: Id, path: seq<Byte>, links: nat, nofollow: bool)
    requires TreeOk(t) && Reachable(t, root, node) && Reachable(t, root, root)
    ensures var r := Walk(t, root, node, path, links, nofollow); r.Found? ==> Reachable(t, root, r.node)
    decreases LINK_LIMIT - links, |path|
  {
    hide TreeOk, Reachable, Taken;
    TakenStays(t, root, node, path, links, nofollow);
    var s := Taken(t, root, node, path, links, nofollow);
    if s.Go? && s.links <= LINK_LIMIT {
      WalkStays(t, root, s.node, s.rest, s.links, nofollow);
    }
  }

  /** Resolving from a reachable directory finds only what is reachable itself, so it may
      be the next base. */
  lemma ResolveStays(t: Tree, root: Id, base: Id, path: seq<Byte>, nofollow: bool)
    requires TreeOk(t) && Reachable(t, root, base) && Reachable(t, root, root)
    ensures var r := Resolve(t, root, base, path, nofollow); r.Found? ==> Reachable(t, root, r.node)
  {
    hide TreeOk;
    if path != [] && |path| < PATH_LIMIT {
      WalkStays(t, root, if path[0] == SLASH then root else base, path, 0, nofollow);
    }
  }

  // ----- the path back

  /** The path of a node from the root: what getcwd builds. */
  ghost function PathTo(t: Tree, root: Id, n: Id): seq<Byte>
    requires Under(t, root, n)
    decreases n
  {
    if n == root then []
    else PathTo(t, root, Up(t, n)) + [SLASH] + (if Entrance(t, n) in t.nodes then t.nodes[Entrance(t, n)].name else [])
  }

  lemma {:induction false} ComponentOf(name: seq<Byte>, rest: seq<Byte>)
    requires NoSlash(name) && (rest == [] || rest[0] == SLASH)
    ensures Component(name + rest) == |name|
  {
    if name == [] {
      assert name + rest == rest;
    } else {
      ComponentOf(name[1..], rest);
      assert (name + rest)[1..] == name[1..] + rest;
    }
  }

  /** One component of that path leads one node down. */
  lemma StepDown(t: Tree, root: Id, n: Id, rest: seq<Byte>, links: nat, nofollow: bool)
    requires TreeOk(t) && n in t.nodes && !IsFirst(t, n) && t.nodes[n].mounted == 0 && t.nodes[n].kind == DIR
    requires rest == [] || rest[0] == SLASH
    ensures Entrance(t, n) in t.nodes
    ensures Taken(t, root, Up(t, n), [SLASH] + (t.nodes[Entrance(t, n)].name + rest), links, nofollow)
              == Go(n, rest, links)
  {
    hide TreeOk, Up, Across, Entrance, Child;
    UpFacts(t, n);
    var u, c := Up(t, n), Entrance(t, n);
    ChildFound(t, u, c);
    var name := t.nodes[c].name;
    var path := [SLASH] + (name + rest);
    assert path[1..] == name + rest;
    assert Slashes(path) == 1;
    ComponentOf(name, rest);
    assert (name + rest)[..|name|] == name && (name + rest)[|name|..] == rest;
  }

  lemma {:induction false} WalksBack(t: Tree, root: Id, n: Id, rest: seq<Byte>, links: nat, nofollow: bool)
    requires TreeOk(t) && Reachable(t, root, n) && t.nodes[n].kind == DIR && (rest == [] || rest[0] == SLASH)
             && links <= LINK_LIMIT
    ensures Walk(t, root, root, PathTo(t, root, n) + rest, links, nofollow) == Walk(t, root, n, rest, links, nofollow)
    decreases n
  {
    hide TreeOk, Taken, Walk, Up, Entrance;
    if n == root {
      assert [] + rest == rest;
    } else {
      NotFirst(t, root, n);
      UpFacts(t, n);
      var c := Entrance(t, n);
      var more := [SLASH] + (t.nodes[c].name + rest);
      WalksBack(t, root, Up(t, n), more, links, nofollow);
      StepDown(t, root, n, rest, links, nofollow);
      WalkOnce(t, root, Up(t, n), more, links, nofollow);
      assert PathTo(t, root, n) + rest == PathTo(t, root, Up(t, n)) + more;
    }
  }

  lemma WalkOnce(t: Tree, root: Id, node: Id, path: seq<Byte>, links: nat, nofollow: bool)
    ensures var s := Taken(t, root, node, path, links, nofollow);
            s.Go? && s.links <= LINK_LIMIT ==>
              Walk(t, root, node, path, links, nofollow) == Walk(t, root, s.node, s.rest, s.links, nofollow)
  {
    hide Taken;
  }

  lemma NotFirst(t: Tree, root: Id, n: Id)
    requires TreeOk(t) && Under(t, root, n) && n != root
    ensures !IsFirst(t, n)
  {
    if IsFirst(t, n) { FirstFacts(t, n); }
  }

  /** Whenever getcwd succeeds, resolving its answer gives the same directory. */
  lemma CwdRoundTrip(t: Tree, root: Id, cwd: Id, base: Id, nofollow: bool)
    requires TreeOk(t) && Reachable(t, root, cwd) && t.nodes[cwd].kind == DIR && |PathTo(t, root, cwd)| < PATH_LIMIT
    ensures Resolve(t, root, base, if cwd == root then [SLASH] else PathTo(t, root, cwd), nofollow) == Found(cwd)
  {
    hide TreeOk, Walk, Taken;
    if cwd == root {
      RootAlone(t, root, nofollow);
    } else {
      var p := PathTo(t, root, cwd);
      assert p + [] == p;
      WalksBack(t, root, cwd, [], 0, nofollow);
      EndHere(t, root, cwd, nofollow);
      PathStarts(t, root, cwd);
    }
  }

  lemma {:induction false} PathStarts(t: Tree, root: Id, n: Id)
    requires Under(t, root, n) && n != root
    ensures |PathTo(t, root, n)| > 0 && PathTo(t, root, n)[0] == SLASH
    decreases n
  {
    hide Up, Entrance;
    if Up(t, n) != root {
      PathStarts(t, root, Up(t, n));
    }
  }

  lemma EndHere(t: Tree, root: Id, n: Id, nofollow: bool)
    requires n in t.nodes
    ensures Walk(t, root, n, [], 0, nofollow) == Found(n)
  {
  }

  lemma RootAlone(t: Tree, root: Id, nofollow: bool)
    requires root in t.nodes && t.nodes[root].kind == DIR
    ensures Walk(t, root, root, [SLASH], 0, nofollow) == Found(root)
  {
    assert Slashes([SLASH]) == 1;
  }
}
