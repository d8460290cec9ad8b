/** Opening by name: finding a node, making it when it is missing, and taking it back
    when the open fails after all. */
module Opening {
  import opened Common
  import opened Physical
  import opened Namespace
  import opened Vfs

  // ----- a new node is found under the path that made it

  /** The path splits at `cut` into a way to the directory `p` and a name that it lacks. */
  ghost predicate Lacks(t: Tree, root: Id, base: Id, path: seq<Byte>, cut: nat, p: Id) {
    && cut < |path| < PATH_LIMIT && EndsWithSlash(path[..cut]) && NoSlash(path[cut..]) && |path| - cut < NAME_LIMIT
    && (if cut == 0 then p == base else Resolve(t, root, base, path[..cut], false) == Found(p))
    && p in t.nodes && t.nodes[p].kind == DIR && Child(t, p, path[cut..]) == 0
  }

  /** Adding a node changes no lookup but its own. */
  lemma ChildAfter(t: Tree, id: Id, p: Id, name: seq<Byte>, n: Id, other: seq<Byte>)
    requires TreeOk(t) && IsNew(t, id) && p in t.nodes && n in t.nodes
    ensures var t' := Added(t, id, p, name, REG, []);
            Child(t', n, other) ==
              if Child(t, n, other) != 0 then Child(t, n, other) else if n == p && other == name then id else 0
  {
    hide TreeOk;
    var t' := Added(t, id, p, name, REG, []);
    ChildrenListed(t, n);
    ZeroNotListed(t);
    ChildSame(t, t', t.nodes[n].children, other);
    ChildAppended(t', t.nodes[n].children, id, other);
  }

  lemma UpAfter(t: Tree, id: Id, p: Id, name: seq<Byte>, n: Id)
    requires TreeOk(t) && IsNew(t, id) && p in t.nodes && n in t.nodes
    ensures Up(Added(t, id, p, name, REG, []), n) == Up(t, n)
  {
    AddedTop(t, id, p, name, REG, [], n);
    if IsTop(t, n) {
      assert MountOk(t, t.nodes[n].mount);
      assert t.mounts[t.nodes[n].mount].covered != id;
    }
  }

  /** A component that leads somewhere leads there still. */
  lemma EnteredAfter(t: Tree, id: Id, p: Id, name: seq<Byte>, root: Id, node: Id, part: seq<Byte>, rest: seq<Byte>,
                     links: nat, nofollow: bool)
    requires TreeOk(t) && IsNew(t, id) && p in t.nodes && node in t.nodes
    ensures var a := Entered(t, root, node, part, rest, links, nofollow);
            a.Go? ==> Entered(Added(t, id, p, name, REG, []), root, node, part, rest, links, nofollow) == a
  {
    hide TreeOk, Up, Child, Expanded;
    ChildAfter(t, id, p, name, node, part);
    UpAfter(t, id, p, name, node);
    var c := Child(t, node, part);
    if c != 0 {
      ChildListedIn(t, node, part);
      AcrossListed(t, node, c);
    }
  }

  lemma ChildListedIn(t: Tree, n: Id, name: seq<Byte>)
    requires TreeOk(t) && n in t.nodes && Child(t, n, name) != 0
    ensures Child(t, n, name) in t.nodes[n].children
  {
  }

  lemma TakenAfter(t: Tree, id: Id, p: Id, name: seq<Byte>, root: Id, node: Id, path: seq<Byte>, links: nat,
                   nofollow: bool)
    requires TreeOk(t) && IsNew(t, id) && p in t.nodes
    ensures var a := Taken(t, root, node, path, links, nofollow);
            a.Go? ==> Taken(Added(t, id, p, name, REG, []), root, node, path, links, nofollow) == a
  {
    hide TreeOk, Entered;
    var k := Slashes(path);
    var at := path[k..];
    if node in t.nodes && at != [] {
      var n := Component(at);
      EnteredAfter(t, id, p, name, root, node, at[..n], at[n..], links, nofollow);
    }
  }

  /** The new name after a prefix of slashes. */
  lemma LastAfter(t: Tree, id: Id, root: Id, node: Id, prefix: seq<Byte>, name: seq<Byte>, links: nat, nofollow: bool)
    requires TreeOk(t) && IsNew(t, id) && node in t.nodes && t.nodes[node].kind == DIR && NameOk(name)
             && Child(t, node, name) == 0
    requires links <= LINK_LIMIT && Slashes(prefix) == |prefix|
    ensures Walk(Added(t, id, node, name, REG, []), root, node, prefix + name, links, nofollow) == Found(id)
  {
    hide TreeOk, Up, Child;
    var t' := Added(t, id, node, name, REG, []);
    var path, k := prefix + name, |prefix|;
    SlashesIs(path, k);
    ComponentIs(name, |name|);
    assert path[k..] == name && name[..|name|] == name && name[|name|..] == [];
    ChildAfter(t, id, node, name, node, name);
    assert Taken(t', root, node, path, links, nofollow) == Go(id, [], links);
    WalkOnce(t', root, node, path, links, nofollow);
    assert Taken(t', root, id, [], links, nofollow) == End(Found(id));
  }

  /** What was missing under a path is there once it has been made, links and all. */
  lemma {:induction false} MadeIsFound(t: Tree, id: Id, p: Id, root: Id, node: Id, prefix: seq<Byte>, name: seq<Byte>,
                                       links: nat, nofollow: bool)
    requires TreeOk(t) && IsNew(t, id) && p in t.nodes && t.nodes[p].kind == DIR && NameOk(name)
             && Child(t, p, name) == 0
    requires EndsWithSlash(prefix) && links <= LINK_LIMIT
    requires Walk(t, root, node, prefix, links, false) == Found(p)
             && Walk(t, root, node, prefix + name, links, nofollow) == Failed(NOENT)
    ensures Walk(Added(t, id, p, name, REG, []), root, node, prefix + name, links, nofollow) == Found(id)
    decreases LINK_LIMIT - links, |prefix|
  {
    hide TreeOk, Taken, Child;
    if Slashes(prefix) == |prefix| {
      AllSlashes(t, root, node, prefix, links);
      LastAfter(t, id, root, node, prefix, name, links, nofollow);
    } else {
      TakenLonger(t, root, node, prefix, name, links, nofollow);
      TakenAfter(t, id, p, name, root, node, prefix + name, links, nofollow);
      var a := Taken(t, root, node, prefix, links, false);
      WalkOnce(t, root, node, prefix, links, false);
      WalkOnce(t, root, node, prefix + name, links, nofollow);
      WalkOnce(Added(t, id, p, name, REG, []), root, node, prefix + name, links, nofollow);
      MadeIsFound(t, id, p, root, a.node, a.rest, name, a.links, nofollow);
    }
  }

  lemma CreatedIsFound(t: Tree, id: Id, p: Id, root: Id, base: Id, path: seq<Byte>, cut: nat, nofollow: bool)
    requires TreeOk(t) && IsNew(t, id) && base in t.nodes && NoZero(path) && Lacks(t, root, base, path, cut, p)
    requires Resolve(t, root, base, path, nofollow) == Failed(NOENT)
    ensures NameOk(path[cut..])
            && Resolve(Added(t, id, p, path[cut..], REG, []), root, base, path, nofollow) == Found(id)
  {
    hide TreeOk, Walk, Child;
    MissingNameOk(t, root, base, path, cut, p, nofollow);
    assert path[..cut] + path[cut..] == path;
    if cut == 0 {
      assert path[0] != SLASH;
      StartsHere(t, root, base);
    }
    MadeIsFound(t, id, p, root, if path[0] == SLASH then root else base, path[..cut], path[cut..], 0, nofollow);
  }

  /** A path splits in one way only. */
  lemma OneCut(path: seq<Byte>, a: nat, b: nat)
    requires a < |path| && b < |path| && EndsWithSlash(path[..a]) && NoSlash(path[a..]) && EndsWithSlash(path[..b])
             && NoSlash(path[b..])
    ensures a == b
  {
    assert forall i :: a <= i < |path| ==> path[i] == path[a..][i - a];
    assert forall i :: b <= i < |path| ==> path[i] == path[b..][i - b];
  }

  // ----- the operation

  datatype Error = Walking(error: Errno) | INVAL | EXIST | ROFS | ISDIR | NOMEM

  datatype Opened = Node(node: Id, made: bool) | Refused(error: Error)

  /** The path splits at `cut` into a way, empty or with a slash at its end, and a name. */
  predicate Asks(path: seq<Byte>, cut: nat) {
    cut < |path| && (cut == 0 || path[cut - 1] == SLASH) && SLASH !in path[cut..]
  }

  /** What making a missing name meets with: the way, then its directory, then the name. */
  ghost predicate Meets(t: Tree, root: Id, base: Id, path: seq<Byte>, cut: nat, readonly: set<nat>,
                        refusal: Option<Error>)
    requires cut < |path|
  {
    var above := if cut == 0 then Found(base) else Resolve(t, root, base, path[..cut], false);
    if |path| - cut >= 64 then refusal == Some(Walking(NAMETOOLONG))
    else if above.Failed? then refusal == Some(Walking(above.error))
    else
      && above.node in t.nodes
      && refusal == if t.nodes[above.node].kind != DIR then Some(Walking(NOTDIR))
                    else if t.nodes[above.node].mount in readonly then Some(ROFS)
                    else if Child(t, above.node, path[cut..]) != 0 then Some(Walking(NOENT)) else None
  }

  /** Finds the node, or makes it when it is missing. `readonly` gives the read-only
      mounts; `room` says whether a node can be had. */
  method FindOrMake(fs: FileSystem, root: Id, base: Id, path: seq<Byte>, create: bool, exclusive: bool, nofollow: bool,
                    readonly: set<nat>, room: bool)
    returns (r: Opened)
    requires fs.Valid() && root in fs.nodes && base in fs.nodes && NoZero(path)
    modifies fs`nodes, fs`next
    ensures fs.Valid() && fs.mounts == old(fs.mounts)
    ensures var there := Resolve(old(fs.T()), root, base, path, nofollow);
            && (there.Found? ==> r == if create && exclusive then Refused(EXIST) else Node(there.node, false))
            && (there.Failed? && (!create || there.error != NOENT) ==> r == Refused(Walking(there.error)))
            && (r.Node? && !r.made ==> there == Found(r.node))
            && (r.Node? && r.made ==> create && there == Failed(NOENT))
    ensures !(r.Node? && r.made) ==> fs.T() == old(fs.T()) && fs.next == old(fs.next)
    ensures r.Node? && r.made ==>
              && r.node == old(fs.next) && fs.next == r.node + 1
              && Resolve(fs.T(), root, base, path, nofollow) == Found(r.node)
              && r.node in fs.nodes && fs.nodes[r.node].kind == REG && fs.nodes[r.node].mount !in readonly
              && exists cut: nat, p: Id :: Made(old(fs.T()), root, base, path, cut, p, r.node, readonly, fs.T())
    ensures forall cut: nat, p: Id ::
              create && Resolve(old(fs.T()), root, base, path, nofollow) == Failed(NOENT)
              && Lacks(old(fs.T()), root, base, path, cut, p) ==>
                r ==
                  if old(fs.nodes)[p].mount in readonly then Refused(ROFS) else if room then Node(old(fs.next), true)
                  else Refused(NOMEM)
    ensures create && Resolve(old(fs.T()), root, base, path, nofollow) == Failed(NOENT) ==>
              && ((forall cut: nat :: !Asks(path, cut)) ==> r == Refused(INVAL))
              && (forall cut: nat, e :: Asks(path, cut) && Meets(old(fs.T()), root, base, path, cut, readonly, e) ==>
                                          r == match e
                                               case Some(error) => Refused(error)
                                               case None => if room then Node(old(fs.next), true) else Refused(NOMEM))
  {
    hide TreeOk, Walk, Resolve, Child;
    ghost var t := fs.T();
    var found := fs.ResolvePath(root, base, path, nofollow);
    ResolveListed(t, root, base, path, nofollow);
    if found.Found? {
      return if create && exclusive then Refused(EXIST) else Node(found.node, false);
    }
    if found.error != NOENT || !create {
      return Refused(Walking(found.error));
    }
    var length := |path|;
    if length == 0 || length >= PATH_LIMIT || path[length - 1] == SLASH {
      EndsInSlash(path);
      NotLong(t, root, base, path, nofollow);
      return Refused(INVAL);
    }
    var cut := LastComponent(path);
    OneAsk(path, cut);
    assert Asks(path, cut);
    forall c: nat, p: Id | Lacks(t, root, base, path, c, p) ensures c == cut {
      OneCut(path, c, cut);
    }
    if length - cut >= NAME_LIMIT {
      return Refused(Walking(NAMETOOLONG));
    }
    var parent := base;
    if cut > 0 {
      var above := fs.ResolvePath(root, base, path[..cut], false);
      if above.Failed? {
        return Refused(Walking(above.error));
      }
      parent := above.node;
      ResolveListed(t, root, base, path[..cut], false);
    }
    if fs.nodes[parent].kind != DIR {
      return Refused(Walking(NOTDIR));
    }
    if fs.nodes[parent].mount in readonly {
      return Refused(ROFS);
    }
    var name := path[cut..];
    var there := fs.FindChild(parent, name);
    if there != 0 {
      return Refused(Walking(NOENT));
    }
    assert Lacks(t, root, base, path, cut, parent);
    if !room {
      return Refused(NOMEM);
    }
    CreatedIsFound(t, fs.next, parent, root, base, path, cut, nofollow);
    var id := fs.NewNode(parent, name, REG, []);
    assert Made(t, root, base, path, cut, parent, id, readonly, fs.T());
    return Node(id, true);
  }

  lemma NotLong(t: Tree, root: Id, base: Id, path: seq<Byte>, nofollow: bool)
    requires Resolve(t, root, base, path, nofollow) == Failed(NOENT)
    requires path == [] || |path| >= PATH_LIMIT || path[|path| - 1] == SLASH
    ensures |path| < PATH_LIMIT && forall cut: nat :: !Asks(path, cut)
  {
    hide Walk;
    forall cut: nat ensures !Asks(path, cut) {
      if cut < |path| {
        assert path[cut..][|path| - 1 - cut] == path[|path| - 1];
      }
    }
  }

  lemma OneAsk(path: seq<Byte>, cut: nat)
    requires cut < |path| && EndsWithSlash(path[..cut]) && NoSlash(path[cut..])
    ensures forall other: nat :: Asks(path, other) <==> other == cut
  {
    assert cut > 0 ==> path[..cut][cut - 1] == path[cut - 1];
    forall other: nat | Asks(path, other) ensures other == cut {
      assert forall i :: other <= i < |path| ==> path[i] == path[other..][i - other] && path[i] in path[other..];
      assert forall i :: cut <= i < |path| ==> path[i] == path[cut..][i - cut];
    }
  }

  ghost predicate Made(t: Tree, root: Id, base: Id, path: seq<Byte>, cut: nat, p: Id, id: Id, readonly: set<nat>,
                       t': Tree) {
    && Lacks(t, root, base, path, cut, p) && t.nodes[p].mount !in readonly
    && t' == Added(t, id, p, path[cut..], REG, [])
  }

  lemma EndsInSlash(path: seq<Byte>)
    requires path == [] || |path| >= PATH_LIMIT || path[|path| - 1] == SLASH
    ensures forall t, root, base, cut: nat, p :: !Lacks(t, root, base, path, cut, p)
  {
    forall t, root, base, cut: nat, p ensures !Lacks(t, root, base, path, cut, p) {
      assert cut < |path| ==> path[cut..][|path| - 1 - cut] == path[|path| - 1];
    }
  }

  // ----- the whole open

  /** The flags of an open: `access` is 0 to read, 1 to write, 2 for both. */
  datatype Flags = Flags(access: nat, create: bool, exclusive: bool, truncate: bool, directory: bool, nofollow: bool,
                         other: bool)

  /** What an open asks of a node it has. */
  predicate Fits(v: Vnode, flags: Flags, readonly: set<nat>) {
    && (flags.directory ==> v.kind == DIR)
    && (flags.access != 0 ==> v.kind != DIR && !(v.kind == REG && v.mount in readonly))
  }

  /** An open of a node either succeeds or gets the error of the first objection. */
  predicate Judged(v: Vnode, flags: Flags, readonly: set<nat>, file: bool, success: Opened, r: Opened) {
    && (r == success <==> Fits(v, flags, readonly) && file)
    && (r == Refused(Walking(NOTDIR)) <==> flags.directory && v.kind != DIR)
    && (r == Refused(ISDIR) <==> flags.access != 0 && v.kind == DIR)
    && (r == Refused(ROFS) <==> flags.access != 0 && v.kind == REG && v.mount in readonly && !flags.directory)
    && (r == Refused(NOMEM) <==> Fits(v, flags, readonly) && !file)
  }

  predicate Malformed(flags: Flags) {
    flags.other || flags.access >= 3 || (flags.truncate && flags.access == 0)
  }

  /** Opens by name. A failure leaves the name space as it was, whether it was refused or
      a node had already been made; a success opens what the path now leads to. */
  method OpenAt(fs: FileSystem, root: Id, base: Id, path: seq<Byte>, flags: Flags, readonly: set<nat>, room: bool,
                file: bool) returns (r: Opened)
    requires fs.Valid() && root in fs.nodes && base in fs.nodes && NoZero(path)
    modifies fs`nodes, fs`next
    ensures fs.Valid() && fs.mounts == old(fs.mounts)
    ensures r.Refused? ==> fs.T() == old(fs.T())
    ensures flags.other || flags.access >= 3 || (flags.truncate && flags.access == 0) ==> r == Refused(INVAL)
    ensures r.Node? ==>
              && file && Resolve(fs.T(), root, base, path, flags.nofollow) == Found(r.node)
              && r.node in fs.nodes && Fits(fs.nodes[r.node], flags, readonly)
              && (r.made <==> Resolve(old(fs.T()), root, base, path, flags.nofollow) == Failed(NOENT))
              && (r.made ==> flags.create) && (!r.made ==> fs.T() == old(fs.T()) && !(flags.create && flags.exclusive))
    ensures var there := Resolve(old(fs.T()), root, base, path, flags.nofollow);
            !Malformed(flags) ==>
              && (there.Found? && flags.create && flags.exclusive ==> r == Refused(EXIST))
              && (there.Found? && !(flags.create && flags.exclusive) && there.node in old(fs.nodes) ==>
                    Judged(old(fs.nodes)[there.node], flags, readonly, file, Node(there.node, false), r))
              && (there.Failed? && (!flags.create || there.error != NOENT) ==> r == Refused(Walking(there.error)))
    ensures forall cut: nat, p: Id ::
              !Malformed(flags) && flags.create
              && Resolve(old(fs.T()), root, base, path, flags.nofollow) == Failed(NOENT)
              && Lacks(old(fs.T()), root, base, path, cut, p) ==>
                if old(fs.nodes)[p].mount in readonly then r == Refused(ROFS)
                else if !room then r == Refused(NOMEM)
                else if flags.directory then r == Refused(Walking(NOTDIR))
                else r == if file then Node(old(fs.next), true) else Refused(NOMEM)
    ensures !Malformed(flags) && flags.create
            && Resolve(old(fs.T()), root, base, path, flags.nofollow) == Failed(NOENT) ==>
              && ((forall cut: nat :: !Asks(path, cut)) ==> r == Refused(INVAL))
              && (forall cut: nat, e :: Asks(path, cut) && Meets(old(fs.T()), root, base, path, cut, readonly, e) ==>
                                          r == match e
                                               case Some(error) => Refused(error)
                                               case None =>
                                                 if room && flags.directory then Refused(Walking(NOTDIR))
                                                 else if room && file then Node(old(fs.next), true)
                                                 else Refused(NOMEM))
  {
    hide TreeOk, Resolve, Lacks, Made, IsNew, Meets, Asks;
    if Malformed(flags) {
      return Refused(INVAL);
    }
    ghost var t := fs.T();
    ResolveListed(t, root, base, path, flags.nofollow);
    r := FindOrMake(fs, root, base, path, flags.create, flags.exclusive, flags.nofollow, readonly, room);
    if r.Refused? {
      return;
    }
    ResolveListed(fs.T(), root, base, path, flags.nofollow);
    var n := r.node;
    var error := INVAL;
    var v := fs.nodes[n];
    if flags.directory && v.kind != DIR {
      error := Walking(NOTDIR);
    } else if flags.access != 0 && v.kind == DIR {
      error := ISDIR;
    } else if flags.access != 0 && v.kind == REG && v.mount in readonly {
      error := ROFS;
    } else if !file {
      error := NOMEM;
    } else {
      return;
    }
    if r.made {
      ghost var cut: nat, p: Id :| Made(t, root, base, path, cut, p, n, readonly, fs.T());
      Remove(fs, n, t, p, path, cut, root, base, readonly);
    }
    return Refused(error);
  }

  /** Takes a node that has just been made out of its directory again. */
  method Remove(fs: FileSystem, id: Id, ghost t: Tree, ghost p: Id, ghost path: seq<Byte>, ghost cut: nat,
                ghost root: Id, ghost base: Id, ghost readonly: set<nat>)
    requires fs.Valid() && TreeOk(t) && IsNew(t, id) && fs.next == id + 1
             && Made(t, root, base, path, cut, p, id, readonly, fs.T())
    modifies fs`nodes
    ensures fs.Valid() && fs.T() == t
  {
    hide TreeOk, Resolve;
    TakenBack(t, id, p, path[cut..]);
    var parent := fs.nodes[id].parent;
    var s := fs.nodes[parent].children;
    fs.nodes := fs.nodes[parent := fs.nodes[parent].(children := s[..|s| - 1])] - {id};
    StillNew(t, id);
  }

  /** Removing the node that was added last gives the tree before. */
  lemma TakenBack(t: Tree, id: Id, p: Id, name: seq<Byte>)
    requires p in t.nodes && IsNew(t, id)
    ensures var t' := Added(t, id, p, name, REG, []);
            && id in t'.nodes && t'.nodes[id].parent == p && p in t'.nodes && |t'.nodes[p].children| > 0
            && var s := t'.nodes[p].children;
            t'.nodes[p := t'.nodes[p].(children := s[..|s| - 1])] - {id} == t.nodes
  {
    var t' := Added(t, id, p, name, REG, []);
    var s := t'.nodes[p].children;
    assert s[..|s| - 1] == t.nodes[p].children;
  }

  lemma StillNew(t: Tree, id: Id)
    requires IsNew(t, id)
    ensures IsNew(t, id + 1)
  {
  }
}
