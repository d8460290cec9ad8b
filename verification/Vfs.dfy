/** The name space in place: the loops of the path walk and of getcwd, and the
    making of nodes. */
module Vfs {
  import opened Physical
  import opened Namespace

  // ----- making a node

  function Added(t: Tree, id: Id, p: Id, name: seq<Byte>, kind: Kind, data: seq<Byte>): Tree
    requires p in t.nodes
  {
    var v := t.nodes[p];
    t.(nodes := t.nodes[p := v.(children := v.children + [id])][id := Vnode(name, p, kind, [], v.mount, 0, data)])
  }

  ghost predicate IsNew(t: Tree, id: Id) {
    id > 0 && forall n :: n in t.nodes ==> n < id
  }

  lemma AddedTop(t: Tree, id: Id, p: Id, name: seq<Byte>, kind: Kind, data: seq<Byte>, n: Id)
    requires TreeOk(t) && p in t.nodes && IsNew(t, id)
    ensures IsTop(Added(t, id, p, name, kind, data), n) == IsTop(t, n) && !IsTop(t, id)
  {
    assert NodeOk(t, p);
    var m := t.nodes[p].mount;
    assert MountOk(t, m);
  }

  lemma {:induction false} NotAmong(t: Tree, s: seq<Id>, name: seq<Byte>)
    requires forall i :: 0 <= i < |s| ==> s[i] in t.nodes && s[i] != 0
    ensures ChildIn(t, s, name) == 0 ==> forall i :: 0 <= i < |s| ==> t.nodes[s[i]].name != name
  {
    if s != [] {
      NotAmong(t, s[1..], name);
      assert s == [s[0]] + s[1..];
    }
  }

  lemma AddedChildren(t: Tree, id: Id, p: Id, name: seq<Byte>, kind: Kind, data: seq<Byte>, n: Id)
    requires TreeOk(t) && p in t.nodes && IsNew(t, id) && Child(t, p, name) == 0 && n in t.nodes
    ensures ChildrenOk(Added(t, id, p, name, kind, data), n)
  {
    var t' := Added(t, id, p, name, kind, data);
    assert NodeOk(t, n);
    var s := t.nodes[n].children;
    forall i | 0 <= i < |s|
      ensures s[i] in t'.nodes && t'.nodes[s[i]].parent == n && t'.nodes[s[i]].name == t.nodes[s[i]].name
              && !IsTop(t', s[i]) {
      AddedTop(t, id, p, name, kind, data, s[i]);
    }
    if n == p {
      forall i | 0 <= i < |s| ensures s[i] != 0 { assert NodeOk(t, s[i]); }
      NotAmong(t, s, name);
      AddedTop(t, id, p, name, kind, data, id);
    }
  }

  /** A legal name that the directory does not have yet keeps the name space sound. */
  lemma AddKeeps(t: Tree, id: Id, p: Id, name: seq<Byte>, kind: Kind, data: seq<Byte>)
    requires TreeOk(t) && p in t.nodes && t.nodes[p].kind == DIR && IsNew(t, id) && NameOk(name)
             && Child(t, p, name) == 0
    requires kind == LNK ==> NoZero(data)
    ensures TreeOk(Added(t, id, p, name, kind, data)) && IsNew(Added(t, id, p, name, kind, data), id + 1)
  {
    hide TreeOk, NameOk, NoZero;
    var t' := Added(t, id, p, name, kind, data);
    forall n | n in t'.nodes ensures NodeOk(t', n) {
      AddedNode(t, id, p, name, kind, data, n);
    }
    forall i: nat | i < |t'.mounts| ensures MountOk(t', i) {
      AddedMount(t, id, p, name, kind, data, i);
    }
    TreeFrom(t');
  }

  lemma TreeFrom(t: Tree)
    requires forall n :: n in t.nodes ==> NodeOk(t, n)
    requires forall i: nat :: i < |t.mounts| ==> MountOk(t, i)
    ensures TreeOk(t)
  {
  }

  lemma AddedNode(t: Tree, id: Id, p: Id, name: seq<Byte>, kind: Kind, data: seq<Byte>, n: Id)
    requires TreeOk(t) && p in t.nodes && t.nodes[p].kind == DIR && IsNew(t, id) && NameOk(name)
             && Child(t, p, name) == 0
    requires kind == LNK ==> NoZero(data)
    requires n in t.nodes || n == id
    ensures NodeOk(Added(t, id, p, name, kind, data), n)
  {
    hide ChildrenOk, NameOk, NoZero, IsTop;
    assert NodeOk(t, p);
    AddedTop(t, id, p, name, kind, data, n);
    if n != id {
      assert NodeOk(t, n);
      AddedChildren(t, id, p, name, kind, data, n);
    } else {
      NoChildren(Added(t, id, p, name, kind, data), id);
    }
  }

  lemma NoChildren(t: Tree, n: Id)
    requires n in t.nodes && t.nodes[n].children == []
    ensures ChildrenOk(t, n)
  {
  }

  lemma AddedMount(t: Tree, id: Id, p: Id, name: seq<Byte>, kind: Kind, data: seq<Byte>, i: nat)
    requires TreeOk(t) && p in t.nodes && IsNew(t, id) && i < |t.mounts|
    ensures MountOk(Added(t, id, p, name, kind, data), i)
  {
    hide IsTop;
    assert MountOk(t, i);
    AddedTop(t, id, p, name, kind, data, t.mounts[i].covered);
  }

  // ----- mounting

  /** A new mount, with a root of its own, over a directory. */
  function MountedOn(t: Tree, id: Id, c: Id): Tree
    requires c in t.nodes
  {
    var m := |t.mounts|;
    Tree(t.nodes[c := t.nodes[c].(mounted := m)][id := Vnode([], id, DIR, [], m, 0, [])], t.mounts + [Mount(id, c)])
  }

  /** Mounting over a directory that is neither a root nor covered keeps the name space sound. */
  lemma MountKeeps(t: Tree, id: Id, c: Id)
    requires TreeOk(t) && |t.mounts| > 0 && c in t.nodes && t.nodes[c].kind == DIR && t.nodes[c].mounted == 0
             && !IsTop(t, c) && IsNew(t, id)
    ensures TreeOk(MountedOn(t, id, c)) && IsNew(MountedOn(t, id, c), id + 1)
  {
    hide TreeOk, NameOk, NoZero;
    var t' := MountedOn(t, id, c);
    forall n | n in t'.nodes ensures NodeOk(t', n) {
      MountedNode(t, id, c, n);
    }
    forall i: nat | i < |t'.mounts| ensures MountOk(t', i) {
      MountedMount(t, id, c, i);
    }
    TreeFrom(t');
  }

  lemma MountedTop(t: Tree, id: Id, c: Id, n: Id)
    requires TreeOk(t) && c in t.nodes && IsNew(t, id)
    ensures IsTop(MountedOn(t, id, c), n) == (IsTop(t, n) || n == id)
  {
    if n in t.nodes { assert NodeOk(t, n); }
  }

  lemma MountedNode(t: Tree, id: Id, c: Id, n: Id)
    requires TreeOk(t) && |t.mounts| > 0 && c in t.nodes && t.nodes[c].kind == DIR && t.nodes[c].mounted == 0
             && !IsTop(t, c) && IsNew(t, id)
    requires n in t.nodes || n == id
    ensures NodeOk(MountedOn(t, id, c), n)
  {
    hide NameOk, NoZero, IsTop;
    var t' := MountedOn(t, id, c);
    MountedTop(t, id, c, n);
    if n == id {
      NoChildren(t', id);
    } else {
      assert NodeOk(t, n);
      var s := t.nodes[n].children;
      forall i | 0 <= i < |s|
        ensures s[i] in t'.nodes && t'.nodes[s[i]].parent == n && !IsTop(t', s[i])
                && t'.nodes[s[i]].name == t.nodes[s[i]].name {
        MountedTop(t, id, c, s[i]);
      }
    }
  }

  lemma MountedMount(t: Tree, id: Id, c: Id, i: nat)
    requires TreeOk(t) && |t.mounts| > 0 && c in t.nodes && t.nodes[c].mounted == 0 && !IsTop(t, c) && IsNew(t, id)
             && i < |t.mounts| + 1
    ensures MountOk(MountedOn(t, id, c), i)
  {
    hide IsTop;
    if i < |t.mounts| {
      assert MountOk(t, i);
      MountedTop(t, id, c, t.mounts[i].covered);
    } else {
      MountedTop(t, id, c, c);
    }
  }

  // ----- names made by creating opens

  predicate EndsWithSlash(s: seq<Byte>) {
    s == [] || s[|s| - 1] == SLASH
  }

  lemma {:induction false} SlashesIs(s: seq<Byte>, k: nat)
    requires k <= |s| && (forall i :: 0 <= i < k ==> s[i] == SLASH) && (k < |s| ==> s[k] != SLASH)
    ensures Slashes(s) == k
  {
    if k > 0 {
      SlashesIs(s[1..], k - 1);
    }
  }

  lemma {:induction false} ComponentIs(s: seq<Byte>, k: nat)
    requires k <= |s| && (forall i :: 0 <= i < k ==> s[i] != SLASH) && (k < |s| ==> s[k] == SLASH)
    ensures Component(s) == k
  {
    if k > 0 {
      ComponentIs(s[1..], k - 1);
    }
  }

  lemma DotsHaveNoSlash(name: seq<Byte>)
    requires name == DOT || name == DOTDOT
    ensures NoSlash(name) && name != [] && |name| <= 2 && Slashes(name) == 0 && Component(name) == |name|
  {
    SlashesIs(name, 0);
    ComponentIs(name, |name|);
  }

  /** The last component "." or ".." after a prefix of slashes. */
  lemma DotsAlone(t: Tree, root: Id, node: Id, prefix: seq<Byte>, name: seq<Byte>, links: nat, nofollow: bool)
    requires TreeOk(t) && node in t.nodes && t.nodes[node].kind == DIR && (name == DOT || name == DOTDOT)
    requires links <= LINK_LIMIT && Slashes(prefix) == |prefix|
    ensures Walk(t, root, node, prefix + name, links, nofollow).Found?
  {
    hide TreeOk, Up;
    DotsHaveNoSlash(name);
    var path, k := prefix + name, |prefix|;
    SlashesIs(path, k);
    assert path[k..] == name && name[..|name|] == name && name[|name|..] == [];
    var next := if name == DOT || node == root then node else Up(t, node);
    assert Taken(t, root, node, path, links, nofollow) == Go(next, [], links);
    WalkOnce(t, root, node, path, links, nofollow);
    UpListed(t, node);
    assert Taken(t, root, next, [], links, nofollow) == End(Found(next));
  }

  lemma UpListed(t: Tree, n: Id)
    requires TreeOk(t) && n in t.nodes
    ensures Up(t, n) in t.nodes
  {
    if IsFirst(t, n) { FirstFacts(t, n); } else { UpFacts(t, n); }
  }

  /** What follows a component does not change where it leads. */
  lemma EnteredLonger(t: Tree, root: Id, node: Id, name: seq<Byte>, rest: seq<Byte>, more: seq<Byte>, links: nat,
                      nofollow: bool)
    requires rest != [] && EndsWithSlash(rest)
    ensures var a, b := Entered(t, root, node, name, rest, links, false),
            Entered(t, root, node, name, rest + more, links, nofollow);
            a.Go? ==>
              EndsWithSlash(a.rest) && a.rest != [] && (b == a.(rest := a.rest + more) || b == End(Failed(NAMETOOLONG)))
  {
    hide Up, Child, Across;
    var next := Across(t, Child(t, node, name));
    if next in t.nodes {
      var data := t.nodes[next].data;
      assert data + (rest + more) == data + rest + more;
      assert (data + rest)[|data + rest| - 1] == rest[|rest| - 1];
    }
  }

  /** A component of a longer path is taken in the same way, with more left to read. */
  lemma TakenLonger(t: Tree, root: Id, node: Id, prefix: seq<Byte>, more: seq<Byte>, links: nat, nofollow: bool)
    requires EndsWithSlash(prefix) && Slashes(prefix) < |prefix| && links <= LINK_LIMIT
    ensures var a, b := Taken(t, root, node, prefix, links, false),
            Taken(t, root, node, prefix + more, links, nofollow);
            a.Go? ==>
              EndsWithSlash(a.rest) && a.rest != [] && (b == a.(rest := a.rest + more) || b == End(Failed(NAMETOOLONG)))
    ensures var a := Taken(t, root, node, prefix, links, false); a.End? ==> a.result.Failed?
  {
    hide Entered, Slashes, Component, EndsWithSlash;
    var k := Slashes(prefix);
    var at := prefix[k..];
    var n := Component(at);
    SplitLonger(prefix, more);
    EnteredLonger(t, root, node, at[..n], at[n..], more, links, nofollow);
  }

  /** Where the first component of a prefix ends does not depend on what follows. */
  lemma SplitLonger(prefix: seq<Byte>, more: seq<Byte>)
    requires EndsWithSlash(prefix) && Slashes(prefix) < |prefix|
    ensures var k := Slashes(prefix);
            var at := prefix[k..];
            var n := Component(at);
            && Slashes(prefix + more) == k && (prefix + more)[k..] == at + more && Component(at + more) == n && n < |at|
            && (at + more)[..n] == at[..n] && (at + more)[n..] == at[n..] + more && EndsWithSlash(at[n..])
  {
    hide Slashes, Component;
    var k := Slashes(prefix);
    SlashesIs(prefix + more, k);
    var at := prefix[k..];
    assert (prefix + more)[k..] == at + more;
    LastIsSlash(at);
    var n := Component(at);
    ComponentIs(at + more, n);
  }

  lemma LastIsSlash(s: seq<Byte>)
    requires s != [] && s[|s| - 1] == SLASH
    ensures Component(s) < |s|
  {
    var n := Component(s);
    assert forall i :: 0 <= i < n ==> s[..n][i] == s[i];
  }

  /** If the prefix leads to a directory, then "." or ".." after it leads somewhere, or
      the path is too long; it is never missing. */
  lemma {:induction false} DotsNeverMissing(t: Tree, root: Id, node: Id, prefix: seq<Byte>, name: seq<Byte>, links: nat,
                                            nofollow: bool)
    requires TreeOk(t) && EndsWithSlash(prefix) && (name == DOT || name == DOTDOT) && links <= LINK_LIMIT
    requires var r := Walk(t, root, node, prefix, links, false);
             r.Found? && r.node in t.nodes && t.nodes[r.node].kind == DIR
    ensures Walk(t, root, node, prefix + name, links, nofollow) != Failed(NOENT)
    decreases LINK_LIMIT - links, |prefix|
  {
    hide TreeOk, Taken;
    if Slashes(prefix) == |prefix| {
      AllSlashes(t, root, node, prefix, links);
      DotsAlone(t, root, node, prefix, name, links, nofollow);
    } else {
      TakenLonger(t, root, node, prefix, name, links, nofollow);
      var a := Taken(t, root, node, prefix, links, false);
      WalkOnce(t, root, node, prefix, links, false);
      WalkOnce(t, root, node, prefix + name, links, nofollow);
      if a.Go? {
        DotsNeverMissing(t, root, a.node, a.rest, name, a.links, nofollow);
      }
    }
  }

  lemma AllSlashes(t: Tree, root: Id, node: Id, prefix: seq<Byte>, links: nat)
    requires Slashes(prefix) == |prefix|
    ensures var r := Walk(t, root, node, prefix, links, false); r.Found? ==> r.node == node && node in t.nodes
  {
    assert prefix[|prefix|..] == [];
  }

  /** The last component of a path that is missing although its directory is there:
      a new entry may have that name. */
  lemma MissingNameOk(t: Tree, root: Id, base: Id, path: seq<Byte>, cut: nat, p: Id, nofollow: bool)
    requires TreeOk(t) && base in t.nodes && NoZero(path) && |path| < PATH_LIMIT && cut < |path|
             && EndsWithSlash(path[..cut]) && NoSlash(path[cut..])
    requires Resolve(t, root, base, path, nofollow) == Failed(NOENT) && |path| - cut < NAME_LIMIT
    requires if cut == 0 then p == base else Resolve(t, root, base, path[..cut], false) == Found(p)
    requires p in t.nodes && t.nodes[p].kind == DIR
    ensures NameOk(path[cut..])
  {
    hide TreeOk, Walk;
    var prefix, name, start := path[..cut], path[cut..], if path[0] == SLASH then root else base;
    assert prefix + name == path;
    if name == DOT || name == DOTDOT {
      if cut == 0 {
        StartsHere(t, root, base);
        assert path == name;
      }
      DotsNeverMissing(t, root, start, prefix, name, 0, nofollow);
    }
  }

  lemma StartsHere(t: Tree, root: Id, n: Id)
    requires n in t.nodes
    ensures Walk(t, root, n, [], 0, false) == Found(n)
  {
  }

  // ----- the loops

  datatype CwdResult = Path(path: seq<Byte>) | TooLong | NoRoom

  class FileSystem {
    var nodes: map<Id, Vnode>
    var mounts: seq<Mount>
    var next: Id

    function T(): Tree
      reads this
    {
      Tree(nodes, mounts)
    }

    ghost predicate Valid()
      reads this
    {
      TreeOk(T()) && IsNew(T(), next)
    }

    method FindChild(n: Id, name: seq<Byte>) returns (c: Id)
      requires Valid() && n in nodes
      ensures c == Child(T(), n, name)
      ensures c != 0 ==> c in nodes[n].children && c in nodes && nodes[c].name == name
      ensures c == 0 ==> forall d :: d in nodes[n].children ==> d in nodes && nodes[d].name != name
    {
      hide TreeOk;
      var s, i := nodes[n].children, 0;
      ChildrenListed(T(), n);
      while i < |s|
        invariant 0 <= i <= |s| && ChildIn(T(), s, name) == ChildIn(T(), s[i..], name)
        invariant forall k :: 0 <= k < i ==> nodes[s[k]].name != name
      {
        assert s[i..][0] == s[i] && s[i..][1..] == s[i + 1..];
        if nodes[s[i]].name == name {
          ZeroNotListed(T());
          return s[i];
        }
        i := i + 1;
      }
      return 0;
    }

    /** The path walk, in the work buffer. */
    method ResolvePath(root: Id, base: Id, path: seq<Byte>, nofollow: bool) returns (r: Result)
      requires Valid() && root in nodes && (base in nodes || base == 0)
      ensures r == Resolve(T(), root, base, path, nofollow)
    {
      hide TreeOk, Taken, Walk, Slashes, Component, Entered;
      if path == [] {
        return Failed(NOENT);
      }
      if |path| >= PATH_LIMIT {
        return Failed(NAMETOOLONG);
      }
      var work, cursor: nat, links: nat := path, 0, 0;
      var node := if path[0] == SLASH then root else base;
      if node == 0 || node !in nodes {
        NoNode(T(), root, node, path, nofollow);
        return Failed(NOENT);
      }
      assert path[0..] == path;
      while true
        invariant cursor <= |work| < PATH_LIMIT && links <= LINK_LIMIT && node in nodes
        invariant Walk(T(), root, node, work[cursor..], links, nofollow) == Resolve(T(), root, base, path, nofollow)
        decreases LINK_LIMIT - links, |work| - cursor
      {
        WalkUnfolds(T(), root, node, work[cursor..], links, nofollow);
        var s, after := TakeOne(root, node, work, cursor, links, nofollow);
        if s.End? {
          return s.result;
        }
        node := s.node;
        if s.links == links {
          cursor := after;
        } else {
          // A link's text, with what follows, replaces the work buffer.
          work, cursor, links := s.rest, 0, s.links;
          assert work[0..] == work;
        }
      }
    }

    /** One component of the work buffer, with the slashes before it. */
    method TakeOne(root: Id, node: Id, work: seq<Byte>, from: nat, links: nat, nofollow: bool)
      returns (s: Step, after: nat)
      requires Valid() && root in nodes && node in nodes && from <= |work|
      ensures s == Taken(T(), root, node, work[from..], links, nofollow)
      ensures s.Go? ==> s.node in nodes
      ensures s.Go? && s.links == links ==> from < after <= |work| && s.rest == work[after..]
    {
      hide TreeOk, Taken, Slashes, Component, Entered;
      var slash := from < |work| && work[from] == SLASH;
      var start := SkipSlashes(work, from);
      after := start;
      if start == |work| {
        TakenEnds(T(), root, node, work, from, links, nofollow);
        return End(if slash && nodes[node].kind != DIR then Failed(NOTDIR) else Found(node)), after;
      }
      if nodes[node].kind != DIR {
        TakenFails(T(), root, node, work, from, start, links, nofollow);
        return End(Failed(NOTDIR)), after;
      }
      after := SkipComponent(work, start);
      TakenGoes(T(), root, node, work, from, start, after, links, nofollow);
      s := Enter(root, node, work[start..after], work[after..], links, nofollow);
      EnteredListed(T(), root, node, work[start..after], work[after..], links, nofollow);
    }

    /** What one component leads to. */
    method Enter(root: Id, node: Id, name: seq<Byte>, rest: seq<Byte>, links: nat, nofollow: bool) returns (s: Step)
      requires Valid() && root in nodes && node in nodes && nodes[node].kind == DIR
      ensures s == Entered(T(), root, node, name, rest, links, nofollow)
    {
      hide TreeOk, Entered;
      EnteredUnfolds(T(), root, node, name, rest, links, nofollow);
      if |name| >= NAME_LIMIT {
        return End(Failed(NAMETOOLONG));
      }
      if name == DOT {
        return Go(node, rest, links);
      }
      if name == DOTDOT {
        var up := node;
        if node != root {
          up := if IsTop(T(), node)
          && mounts[nodes[node].mount].covered in nodes then nodes[mounts[nodes[node].mount].covered].parent
            else nodes[node].parent;
        }
        return Go(up, rest, links);
      }
      var c := FindChild(node, name);
      if c == 0 {
        return End(Failed(NOENT));
      }
      AcrossListed(T(), node, c);
      var to := if nodes[c].mounted != 0 then mounts[nodes[c].mounted].root else c;
      if nodes[to].kind != LNK {
        return Go(to, rest, links);
      }
      var data := nodes[to].data;
      if nofollow && rest == [] {
        return End(Failed(LOOP));
      }
      if links + 1 > LINK_LIMIT {
        return End(Failed(LOOP));
      }
      if |data| == 0 || |data| + |rest| >= PATH_LIMIT {
        return End(Failed(NAMETOOLONG));
      }
      return Go(if data[0] == SLASH then root else node, data + rest, links + 1);
    }

    /** Builds the path from its end, in a fixed buffer. */
    method GetCwd(root: Id, cwd: Id, size: nat) returns (r: CwdResult)
      requires Valid() && Under(T(), root, cwd)
      ensures r.TooLong? <==> |PathTo(T(), root, cwd)| >= PATH_LIMIT
      ensures r.Path? ==> r.path == (if cwd == root then [SLASH] else PathTo(T(), root, cwd)) && |r.path| < size
      ensures r.NoRoom? ==> |if cwd == root then [SLASH] else PathTo(T(), root, cwd)| >= size
    {
      hide TreeOk, Up, Entrance;
      var reverse := new Byte[PATH_LIMIT];
      var last: nat := PATH_LIMIT - 1;
      var at: nat, node := last, cwd;
      ghost var whole := PathTo(T(), root, cwd);
      assert whole + reverse[at..last] == whole;
      while node != root
        invariant at <= last && Under(T(), root, node) && reverse.Length == PATH_LIMIT
        invariant PathTo(T(), root, node) + reverse[at..last] == whole
        invariant at == last <==> node == cwd
        decreases node
      {
        NotFirst(T(), root, node);
        UpFacts(T(), node);
        var entry := EntranceOf(node);
        var name := nodes[entry].name;
        var n := |name|;
        ghost var tail := reverse[at..last];
        assert whole == PathTo(T(), root, Up(T(), node)) + [SLASH] + name + tail;
        if n + 1 > at {
          return TooLong;
        }
        at := Prepend(reverse, at, last, name);
        assert PathTo(T(), root, Up(T(), node)) + ([SLASH] + name + tail) == whole;
        node := nodes[entry].parent;
      }
      if at == last {
        at := at - 1;
        reverse[at] := SLASH;
        assert reverse[at..last] == [SLASH];
      }
      var length := PATH_LIMIT - at;
      if length > size {
        return NoRoom;
      }
      r := Path(reverse[at..last]);
    }

    /** The node whose name leads to a directory. */
    method EntranceOf(node: Id) returns (entry: Id)
      requires Valid() && node in nodes
      ensures entry == Entrance(T(), node) && entry in nodes && nodes[entry].parent == Up(T(), node)
    {
      hide TreeOk, Up;
      EntranceParent(T(), node);
      entry := node;
      if IsTop(T(), node) && mounts[nodes[node].mount].covered in nodes {
        entry := mounts[nodes[node].mount].covered;
      }
    }

    /** Makes a node under a directory that has no entry of that name. */
    method NewNode(p: Id, name: seq<Byte>, kind: Kind, data: seq<Byte>) returns (id: Id)
      requires Valid() && p in nodes && nodes[p].kind == DIR && NameOk(name) && Child(T(), p, name) == 0
               && (kind == LNK ==> NoZero(data))
      modifies this`nodes, this`next
      ensures Valid() && id == old(next) && T() == Added(old(T()), id, p, name, kind, data) && next == id + 1
      ensures id !in old(nodes) && nodes.Keys == old(nodes).Keys + {id}
      ensures nodes[id] == Vnode(name, p, kind, [], old(nodes)[p].mount, 0, data)
      ensures nodes[p] == old(nodes)[p].(children := old(nodes)[p].children + [id])
      ensures forall n :: n in old(nodes) && n != p ==> nodes[n] == old(nodes)[n]
    {
      hide TreeOk, NameOk;
      AddKeeps(T(), next, p, name, kind, data);
      id := next;
      nodes := nodes[p := nodes[p].(children := nodes[p].children + [id])][id := Vnode(name, p, kind, [],
          nodes[p].mount, 0, data)];
      next := next + 1;
    }
  }

  lemma {:induction false} ChildAppended(t: Tree, s: seq<Id>, id: Id, name: seq<Byte>)
    requires id in t.nodes && id != 0 && forall i :: 0 <= i < |s| ==> s[i] != 0
    ensures ChildIn(t, s + [id], name) ==
              if ChildIn(t, s, name) != 0 then ChildIn(t, s, name) else if t.nodes[id].name == name then id else 0
  {
    if s == [] {
      assert [] + [id] == [id];
    } else {
      ChildAppended(t, s[1..], id, name);
      assert (s + [id])[1..] == s[1..] + [id];
    }
  }

  lemma {:induction false} ChildSame(t: Tree, t': Tree, s: seq<Id>, name: seq<Byte>)
    requires forall i ::
               0 <= i < |s| ==> s[i] in t.nodes && s[i] in t'.nodes && t'.nodes[s[i]].name == t.nodes[s[i]].name
    ensures ChildIn(t', s, name) == ChildIn(t, s, name)
  {
    if s != [] {
      ChildSame(t, t', s[1..], name);
    }
  }

  lemma ZeroNotListed(t: Tree)
    requires TreeOk(t)
    ensures 0 !in t.nodes
  {
    assert !NodeOk(t, 0);
  }

  lemma ChildrenListed(t: Tree, n: Id)
    requires TreeOk(t) && n in t.nodes
    ensures forall i :: 0 <= i < |t.nodes[n].children| ==> t.nodes[n].children[i] in t.nodes
  {
    assert NodeOk(t, n);
  }

  lemma NoNode(t: Tree, root: Id, node: Id, path: seq<Byte>, nofollow: bool)
    requires TreeOk(t) && (node == 0 || node !in t.nodes)
    ensures Walk(t, root, node, path, 0, nofollow) == Failed(NOENT)
  {
    assert !NodeOk(t, 0);
  }

  lemma WalkUnfolds(t: Tree, root: Id, node: Id, path: seq<Byte>, links: nat, nofollow: bool)
    ensures var s := Taken(t, root, node, path, links, nofollow);
            Walk(t, root, node, path, links, nofollow) ==
            match s
            case End(r) => r
            case Go(next, rest, links') => if links' > LINK_LIMIT then Failed(LOOP)
                                           else Walk(t, root, next, rest, links', nofollow)
  {
    hide Taken;
  }

  /** Nothing but slashes is left of the buffer. */
  lemma TakenEnds(t: Tree, root: Id, node: Id, work: seq<Byte>, from: nat, links: nat, nofollow: bool)
    requires node in t.nodes && from <= |work| && Slashes(work[from..]) == |work| - from
    ensures var slash := from < |work| && work[from] == SLASH;
            Taken(t, root, node, work[from..], links, nofollow)
              == End(if slash && t.nodes[node].kind != DIR then Failed(NOTDIR) else Found(node))
  {
    hide Entered;
    assert work[from..][|work| - from..] == [];
  }

  /** A component is left, but not in a directory. */
  lemma TakenFails(t: Tree, root: Id, node: Id, work: seq<Byte>, from: nat, start: nat, links: nat, nofollow: bool)
    requires node in t.nodes && t.nodes[node].kind != DIR && from <= start < |work|
             && Slashes(work[from..]) == start - from
    ensures Taken(t, root, node, work[from..], links, nofollow) == End(Failed(NOTDIR))
  {
    hide Entered;
    assert work[from..][start - from..] == work[start..];
  }

  /** The component from `start` to `after` is next. */
  lemma TakenGoes(t: Tree, root: Id, node: Id, work: seq<Byte>, from: nat, start: nat, after: nat, links: nat,
                  nofollow: bool)
    requires node in t.nodes && t.nodes[node].kind == DIR && from <= start < after <= |work|
    requires Slashes(work[from..]) == start - from && Component(work[start..]) == after - start
    ensures Taken(t, root, node, work[from..], links, nofollow)
              == Entered(t, root, node, work[start..after], work[after..], links, nofollow)
  {
    hide Entered, Slashes, Component;
    assert work[from..][start - from..] == work[start..];
    assert work[start..][..after - start] == work[start..after] && work[start..][after - start..] == work[after..];
  }

  lemma EnteredUnfolds(t: Tree, root: Id, node: Id, name: seq<Byte>, rest: seq<Byte>, links: nat, nofollow: bool)
    ensures var s := Entered(t, root, node, name, rest, links, nofollow);
            && (|name| >= NAME_LIMIT ==> s == End(Failed(NAMETOOLONG)))
            && (|name| < NAME_LIMIT && name == DOT ==> s == Go(node, rest, links))
            && (|name| < NAME_LIMIT && name == DOTDOT ==>
                 s == Go(if node == root then node else Up(t, node), rest, links))
            && (|name| < NAME_LIMIT && name != DOT && name != DOTDOT ==>
                  var c := Child(t, node, name);
                  var to := Across(t, c);
                  s == if c == 0 then End(Failed(NOENT))
                       else if to in t.nodes && t.nodes[to].kind == LNK then
                         Expanded(root, node, t.nodes[to].data, rest, links, nofollow)
                       else Go(to, rest, links))
  {
  }

  lemma EnteredListed(t: Tree, root: Id, node: Id, name: seq<Byte>, rest: seq<Byte>, links: nat, nofollow: bool)
    requires TreeOk(t) && root in t.nodes && node in t.nodes
    ensures var s := Entered(t, root, node, name, rest, links, nofollow); s.Go? ==> s.node in t.nodes
  {
    hide TreeOk, Up, Across;
    UpListed(t, node);
    var c := Child(t, node, name);
    if c != 0 { AcrossListed(t, node, c); }
  }

  lemma AcrossListed(t: Tree, n: Id, c: Id)
    requires TreeOk(t) && n in t.nodes && c in t.nodes[n].children
    ensures c in t.nodes && t.nodes[c].mounted < |t.mounts| && Across(t, c) in t.nodes
  {
    DownFacts(t, n, c);
    assert NodeOk(t, c);
  }

  lemma EntranceParent(t: Tree, n: Id)
    requires TreeOk(t) && n in t.nodes
    ensures Entrance(t, n) in t.nodes && t.nodes[Entrance(t, n)].parent == Up(t, n)
  {
  }

  lemma ResolveListed(t: Tree, root: Id, base: Id, path: seq<Byte>, nofollow: bool)
    ensures var r := Resolve(t, root, base, path, nofollow); r.Found? ==> r.node in t.nodes
  {
    if path != [] && |path| < PATH_LIMIT {
      WalkListed(t, root, if path[0] == SLASH then root else base, path, 0, nofollow);
    }
  }

  lemma {:induction false} WalkListed(t: Tree, root: Id, node: Id, path: seq<Byte>, links: nat, nofollow: bool)
    ensures var r := Walk(t, root, node, path, links, nofollow); r.Found? ==> r.node in t.nodes
    decreases LINK_LIMIT - links, |path|
  {
    var s := Taken(t, root, node, path, links, nofollow);
    if s.Go? && s.links <= LINK_LIMIT {
      WalkListed(t, root, s.node, s.rest, s.links, nofollow);
    }
  }

  method SkipSlashes(work: seq<Byte>, from: nat) returns (cursor: nat)
    requires from <= |work|
    ensures from <= cursor <= |work| && Slashes(work[from..]) == cursor - from
            && (cursor < |work| ==> work[cursor] != SLASH)
  {
    cursor := from;
    while cursor < |work| && work[cursor] == SLASH
      invariant from <= cursor <= |work| && forall i :: from <= i < cursor ==> work[i] == SLASH
    {
      cursor := cursor + 1;
    }
    SlashesIs(work[from..], cursor - from);
  }

  method SkipComponent(work: seq<Byte>, from: nat) returns (cursor: nat)
    requires from < |work| && work[from] != SLASH
    ensures from < cursor <= |work| && Component(work[from..]) == cursor - from
  {
    cursor := from;
    while cursor < |work| && work[cursor] != SLASH
      invariant from <= cursor <= |work| && forall i :: from <= i < cursor ==> work[i] != SLASH
      invariant cursor == from ==> work[cursor] != SLASH
    {
      cursor := cursor + 1;
    }
    ComponentIs(work[from..], cursor - from);
  }

  method LastComponent(path: seq<Byte>) returns (cut: nat)
    requires path != [] && path[|path| - 1] != SLASH
    ensures cut < |path| && EndsWithSlash(path[..cut]) && NoSlash(path[cut..])
  {
    cut := |path|;
    while cut > 0 && path[cut - 1] != SLASH
      invariant 0 <= cut <= |path| && forall i :: cut <= i < |path| ==> path[i] != SLASH
    {
      cut := cut - 1;
    }
  }

  /** Puts a slash and a name before what the buffer holds. */
  method Prepend(a: array<Byte>, at: nat, last: nat, name: seq<Byte>) returns (at': nat)
    requires |name| + 1 <= at <= last <= a.Length
    modifies a
    ensures at' == at - |name| - 1 && a[at'..last] == [SLASH] + name + old(a[at..last])
  {
    ghost var all := a[..];
    at' := at - |name|;
    CopyInto(a, at', name);
    Joined(all, at', name, last, a[..]);
    assert a[at'..last] == a[..][at'..last];
    assert all[at..last] == a[at..last];
    at' := at' - 1;
    ghost var written := a[at' + 1..last];
    a[at'] := SLASH;
    assert a[at' + 1..last] == written;
    assert a[at'..last] == [SLASH] + written;
  }

  lemma Joined(all: seq<Byte>, at: nat, name: seq<Byte>, last: nat, now: seq<Byte>)
    requires at + |name| <= last <= |all| && now == all[..at] + name + all[at + |name|..]
    ensures now[at..last] == name + all[at + |name|..last]
  {
  }

  /** memcpy into the buffer. */
  method CopyInto(a: array<Byte>, at: nat, bytes: seq<Byte>)
    requires at + |bytes| <= a.Length
    modifies a
    ensures a[..] == old(a[..at]) + bytes + old(a[at + |bytes|..])
  {
    var i := 0;
    while i < |bytes|
      invariant 0 <= i <= |bytes| && a[..at] == old(a[..at]) && a[at..at + i] == bytes[..i]
                && a[at + i..] == old(a[at + i..])
    {
      a[at + i] := bytes[i];
      i := i + 1;
    }
  }
}
