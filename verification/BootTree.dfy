/** The name space built from the boot archive: every entry becomes the node its
    path names, and there is nothing else. */
module BootTree {
  import opened Common
  import opened Physical
  import opened Namespace
  import opened Vfs
  import Newc

  const FIRST: Id := 1

  /** The directory entry of a path of names below the first root, or 0. */
  function Lookup(t: Tree, q: seq<seq<Byte>>): Id {
    if q == [] then FIRST else Child(t, Lookup(t, q[..|q| - 1]), q[|q| - 1])
  }

  /** A sound name space with one mount, whose root is the first node. */
  ghost predicate Young(t: Tree, next: Id) {
    TreeOk(t) && IsNew(t, next) && t.mounts == [Mount(FIRST, 0)] && FIRST in t.nodes
  }

  /** A node found below another has that one as its parent, and the name it was found by. */
  lemma LookupBack(t: Tree, next: Id, q: seq<seq<Byte>>)
    requires Young(t, next) && q != [] && Lookup(t, q) != 0
    ensures var n := Lookup(t, q);
            n in t.nodes && n != FIRST && t.nodes[n].parent == Lookup(t, q[..|q| - 1]) && t.nodes[n].name == q[|q| - 1]
    ensures Lookup(t, q[..|q| - 1]) in t.nodes
  {
    var p, name := Lookup(t, q[..|q| - 1]), q[|q| - 1];
    ZeroNotListed(t);
    assert NodeOk(t, p);
    ChildMeans(t, t.nodes[p].children, name);
    var n := Child(t, p, name);
    var i :| 0 <= i < |t.nodes[p].children| && t.nodes[p].children[i] == n;
    assert NodeOk(t, FIRST);
  }

  /** Different paths lead to different nodes. */
  lemma {:induction false} LookupInjective(t: Tree, next: Id, q: seq<seq<Byte>>, r: seq<seq<Byte>>)
    requires Young(t, next) && Lookup(t, q) == Lookup(t, r) != 0
    ensures q == r
    decreases |q|
  {
    hide TreeOk, Child;
    if q != [] { LookupBack(t, next, q); }
    if r != [] { LookupBack(t, next, r); }
    if q != [] && r != [] {
      ZeroNotListed(t);
      LookupInjective(t, next, q[..|q| - 1], r[..|r| - 1]);
      assert q == q[..|q| - 1] + [q[|q| - 1]];
      assert r == r[..|r| - 1] + [r[|r| - 1]];
    }
  }

  /** After a node was made, its directory finds it, and every other search is as before. */
  lemma ChildAdded(t: Tree, next: Id, p: Id, name: seq<Byte>, kind: Kind, data: seq<Byte>, n: Id, x: seq<Byte>)
    requires Young(t, next) && p in t.nodes && Child(t, p, name) == 0
    ensures Child(Added(t, next, p, name, kind, data), n, x) == if n == p && x == name then next else Child(t, n, x)
  {
    var t' := Added(t, next, p, name, kind, data);
    if n in t.nodes {
      assert NodeOk(t, n);
      var s := t.nodes[n].children;
      ZeroNotListed(t);
      ChildSame(t, t', s, x);
      if n == p {
        ChildAppended(t', s, next, x);
      }
    }
  }

  lemma LookupStep(t: Tree, front: seq<seq<Byte>>, last: seq<Byte>)
    ensures Lookup(t, front + [last]) == Child(t, Lookup(t, front), last)
  {
    assert (front + [last])[..|front|] == front;
  }

  lemma {:induction false} LookupAdded(t: Tree, next: Id, above: seq<seq<Byte>>, name: seq<Byte>, kind: Kind,
                                       data: seq<Byte>, q: seq<seq<Byte>>)
    requires Young(t, next) && Lookup(t, above) in t.nodes && Lookup(t, above + [name]) == 0
    ensures Lookup(Added(t, next, Lookup(t, above), name, kind, data), q) ==
              if q == above + [name] then next else Lookup(t, q)
    decreases |q|
  {
    hide Young, Child, Added, Lookup;
    var p, path := Lookup(t, above), above + [name];
    var t' := Added(t, next, p, name, kind, data);
    if q == [] {
      LookupEmpty(t);
      LookupEmpty(t');
    } else {
      var front, last := q[..|q| - 1], q[|q| - 1];
      assert q == front + [last];
      LookupStep(t, above, name);
      LookupStep(t, front, last);
      LookupStep(t', front, last);
      LookupAdded(t, next, above, name, kind, data, front);
      if front == path {
        IsYoung(t, next);
        NewIsEmpty(t, next, p, name, kind, data, last);
        NothingBelow(t, next, path, q);
      } else {
        ChildAdded(t, next, p, name, kind, data, Lookup(t, front), last);
        if Lookup(t, front) == p {
          SameDirectory(t, next, front, above);
        } else {
          assert front != above;
        }
        SplitEqual(front, last, above, name);
      }
    }
  }

  lemma IsYoung(t: Tree, next: Id)
    requires Young(t, next)
    ensures TreeOk(t) && IsNew(t, next)
  {
  }

  lemma LookupEmpty(t: Tree)
    ensures Lookup(t, []) == FIRST
  {
  }

  lemma SameDirectory(t: Tree, next: Id, q: seq<seq<Byte>>, r: seq<seq<Byte>>)
    requires Young(t, next) && Lookup(t, q) == Lookup(t, r) && Lookup(t, r) in t.nodes
    ensures q == r
  {
    ZeroNotListed(t);
    LookupInjective(t, next, q, r);
  }

  lemma SplitEqual(front: seq<seq<Byte>>, last: seq<Byte>, above: seq<seq<Byte>>, name: seq<Byte>)
    ensures front + [last] == above + [name] <==> front == above && last == name
  {
    if front + [last] == above + [name] {
      assert (front + [last])[|front|] == last && (above + [name])[|above|] == name;
      assert (front + [last])[..|front|] == front && (above + [name])[..|above|] == above;
    }
  }

  lemma NewIsEmpty(t: Tree, next: Id, p: Id, name: seq<Byte>, kind: Kind, data: seq<Byte>, x: seq<Byte>)
    requires p in t.nodes && IsNew(t, next)
    ensures Child(Added(t, next, p, name, kind, data), next, x) == 0
  {
  }

  lemma NothingBelow(t: Tree, next: Id, path: seq<seq<Byte>>, q: seq<seq<Byte>>)
    requires Young(t, next) && Lookup(t, path) == 0 && |q| == |path| + 1 && q[..|path|] == path
    ensures Lookup(t, q) == 0
  {
    ZeroNotListed(t);
  }

  // ----- placing one entry

  datatype Place = Nowhere | Place(dir: Id, name: seq<Byte>)

  /** The directory and the name that a relative path stands for. */
  function Descend(t: Tree, dir: Id, path: seq<Byte>): Place
    decreases |path|
  {
    var n := Component(path);
    var name := path[..n];
    if n == 0 || n >= NAME_LIMIT || name == DOT || name == DOTDOT then Nowhere
    else if n == |path| then Place(dir, name)
    else
      var c := Child(t, dir, name);
      if c == 0 || c !in t.nodes || t.nodes[c].kind != DIR then Nowhere else Descend(t, c, path[n + 1..])
  }

  /** The file type in the mode bits; only three types are accepted. */
  function KindOf(mode: nat): Option<Kind> {
    var bits := mode / 0x1000 % 16;
    if bits == 4 then Some(DIR) else if bits == 8 then Some(REG) else if bits == 10 then Some(LNK) else None
  }

  /** The same by the numbers: type 4 is a directory, 10 (octal) a file, 12 a link. */
  predicate HasType(mode: nat, kind: Kind) {
    match kind
    case DIR => 0x4000 <= mode % 0x1_0000 < 0x5000
    case REG => 0x8000 <= mode % 0x1_0000 < 0x9000
    case LNK => 0xa000 <= mode % 0x1_0000 < 0xb000
    case CHR => false
  }

  lemma KindIs(mode: nat, kind: Kind)
    ensures KindOf(mode) == Some(kind) <==> HasType(mode, kind)
  {
    TypeBits(mode);
  }

  lemma TypeBits(mode: nat)
    ensures mode / 0x1000 % 16 == mode % 0x1_0000 / 0x1000
  {
    var q, r := mode / 0x1_0000, mode % 0x1_0000;
    assert mode == 0x1000 * (16 * q) + r;
    assert mode / 0x1000 == 16 * q + r / 0x1000;
  }

  predicate Accepts(kind: Kind, data: seq<Byte>) {
    && (kind == DIR ==> data == [])
    && (kind == LNK ==> data != [] && |data| < PATH_LIMIT && NoZero(data))
  }

  function Placed(t: Tree, next: Id, path: seq<Byte>, data: seq<Byte>, mode: nat): Option<Tree> {
    var kind := KindOf(mode);
    if path == DOT then (if kind == Some(DIR) then Some(t) else None)
    else if path == [] || path[0] == SLASH then None
    else
      match Descend(t, FIRST, path)
      case Nowhere => None
      case Place(dir, name) =>
        if dir !in t.nodes || Child(t, dir, name) != 0 || kind.None? || !Accepts(kind.value, data) then None
        else Some(Added(t, next, dir, name, kind.value, data))
  }

  /** Puts one archive entry into the tree; `room` says whether a node can be had. */
  method ArchiveNode(fs: FileSystem, path: seq<Byte>, data: seq<Byte>, mode: nat, room: bool) returns (ok: bool)
    requires fs.Valid() && FIRST in fs.nodes && fs.nodes[FIRST].kind == DIR && NoZero(path)
    modifies fs`nodes, fs`next
    ensures fs.Valid() && FIRST in fs.nodes && fs.mounts == old(fs.mounts)
    ensures ok ==> Placed(old(fs.T()), old(fs.next), path, data, mode) == Some(fs.T())
    ensures !ok ==>
              fs.T() == old(fs.T()) && fs.next == old(fs.next)
              && (room ==> Placed(fs.T(), fs.next, path, data, mode).None?)
  {
    hide TreeOk, Component, Child;
    var kind := KindOf(mode);
    if path == DOT {
      return kind == Some(DIR);
    }
    if path == [] || path[0] == SLASH {
      return false;
    }
    var place := FindPlace(fs, path);
    if place.Nowhere? {
      return false;
    }
    var c := fs.FindChild(place.dir, place.name);
    if c != 0 || kind.None? || !Accepts(kind.value, data) {
      return false;
    }
    if !room {
      return false;
    }
    var id := fs.NewNode(place.dir, place.name, kind.value, data);
    return true;
  }

  /** The walk along the entry's path. */
  method FindPlace(fs: FileSystem, path: seq<Byte>) returns (place: Place)
    requires fs.Valid() && FIRST in fs.nodes && fs.nodes[FIRST].kind == DIR && NoZero(path)
    ensures place == Descend(fs.T(), FIRST, path)
    ensures place.Place? ==> place.dir in fs.nodes && fs.nodes[place.dir].kind == DIR && NameOk(place.name)
  {
    hide TreeOk, Component, Child, Descend, NameOk;
    var parent, at: nat := FIRST, 0;
    assert path[0..] == path;
    while true
      invariant at <= |path| && parent in fs.nodes && fs.nodes[parent].kind == DIR
      invariant Descend(fs.T(), FIRST, path) == Descend(fs.T(), parent, path[at..])
      decreases |path| - at
    {
      var end := at;
      if at < |path| && path[at] != SLASH {
        end := SkipComponent(path, at);
      } else {
        NoComponent(path[at..]);
      }
      var n := end - at;
      var name := path[at..end];
      assert path[at..][..n] == name;
      DescendUnfolds(fs.T(), parent, path[at..]);
      if n == 0 || n >= NAME_LIMIT || name == DOT || name == DOTDOT {
        return Nowhere;
      }
      PieceOk(path, at, end);
      if end == |path| {
        return Place(parent, name);
      }
      var c := fs.FindChild(parent, name);
      if c == 0 {
        return Nowhere;
      }
      ListedChild(fs.T(), parent, name);
      if fs.nodes[c].kind != DIR {
        return Nowhere;
      }
      assert path[at..][n + 1..] == path[end + 1..];
      parent, at := c, end + 1;
    }
  }

  lemma NoComponent(s: seq<Byte>)
    requires s == [] || s[0] == SLASH
    ensures Component(s) == 0
  {
  }

  lemma ListedChild(t: Tree, n: Id, name: seq<Byte>)
    requires n in t.nodes && Child(t, n, name) != 0
    ensures Child(t, n, name) in t.nodes
  {
    ChildMeans(t, t.nodes[n].children, name);
  }

  lemma DescendUnfolds(t: Tree, dir: Id, path: seq<Byte>)
    ensures var n := Component(path);
            var name := path[..n];
            Descend(t, dir, path) ==
            if n == 0 || n >= NAME_LIMIT || name == DOT || name == DOTDOT then Nowhere
            else if n == |path| then Place(dir, name)
            else
              var c := Child(t, dir, name);
              if c == 0 || c !in t.nodes || t.nodes[c].kind != DIR then Nowhere else Descend(t, c, path[n + 1..])
  {
  }

  lemma PieceOk(path: seq<Byte>, at: nat, end: nat)
    requires NoZero(path) && at < end <= |path| && end - at == Component(path[at..]) && end - at < NAME_LIMIT
    requires path[at..end] != DOT && path[at..end] != DOTDOT
    ensures NameOk(path[at..end])
  {
    assert path[at..][..end - at] == path[at..end];
  }

  // ----- the whole archive

  /** An entry by its path of names; the path of no names is the root itself. */
  datatype BootEntry = BootEntry(names: seq<seq<Byte>>, kind: Kind, data: seq<Byte>)

  function Join(names: seq<seq<Byte>>): seq<Byte> {
    if names == [] then DOT else if |names| == 1 then names[0] else names[0] + [SLASH] + Join(names[1..])
  }

  predicate NamesOk(names: seq<seq<Byte>>) {
    forall i :: 0 <= i < |names| ==> NameOk(names[i])
  }

  predicate Encodes(e: Newc.Entry, b: BootEntry) {
    e.name == Join(b.names) && e.payload == b.data && HasType(e.mode, b.kind)
  }

  predicate ListedIn(es: seq<BootEntry>, q: seq<seq<Byte>>) {
    exists i :: 0 <= i < |es| && es[i].names == q
  }

  /** Legal names and contents, no path twice, and every directory before what is in it. */
  predicate Proper(es: seq<BootEntry>) {
    && (forall i :: 0 <= i < |es| ==> NamesOk(es[i].names) && Accepts(es[i].kind, es[i].data))
    && (forall i :: 0 <= i < |es| && es[i].names == [] ==> es[i].kind == DIR)
    && (forall i, j :: 0 <= i < j < |es| ==> es[i].names != es[j].names)
    && (forall i :: 0 <= i < |es| && |es[i].names| > 1 ==> HasParent(es, i))
  }

  predicate HasParent(es: seq<BootEntry>, i: nat)
    requires i < |es| && |es[i].names| > 1
  {
    exists j :: 0 <= j < i && es[j].kind == DIR && es[j].names == es[i].names[..|es[i].names| - 1]
  }

  predicate IsNode(t: Tree, b: BootEntry) {
    var n := Lookup(t, b.names);
    n in t.nodes && t.nodes[n].kind == b.kind && t.nodes[n].data == b.data
  }

  /** The tree has a node for every entry, as described, and no others. */
  ghost predicate Describes(t: Tree, es: seq<BootEntry>) {
    && (forall q {:trigger Lookup(t, q)} :: Lookup(t, q) != 0 <==> q == [] || ListedIn(es, q))
    && (forall i :: 0 <= i < |es| ==> IsNode(t, es[i]))
  }

  lemma FirstName(names: seq<seq<Byte>>)
    requires names != [] && NamesOk(names)
    ensures NoSlash(names[0])
  {
    assert NameOk(names[0]);
  }

  lemma ComponentOfJoin(names: seq<seq<Byte>>)
    requires names != [] && NamesOk(names)
    ensures Component(Join(names)) == |names[0]| && Join(names)[..|names[0]|] == names[0] && |names[0]| <= |Join(names)|
    ensures |names| == 1 <==> |Join(names)| == |names[0]|
    ensures |names| > 1 ==> Join(names)[|names[0]| + 1..] == Join(names[1..])
  {
    hide Component, NamesOk;
    var name := names[0];
    FirstName(names);
    if |names| == 1 {
      ComponentOf(name, []);
      assert name + [] == name;
    } else {
      var tail := Join(names[1..]);
      ComponentOf(name, [SLASH] + tail);
      assert name + [SLASH] + tail == name + ([SLASH] + tail);
    }
  }

  /** Descending along a path whose directories exist. */
  lemma {:induction false} DescendJoin(t: Tree, front: seq<seq<Byte>>, rest: seq<seq<Byte>>)
    requires rest != [] && NamesOk(rest)
    requires forall k :: 1 <= k < |rest| ==> IsDir(t, front + rest[..k])
    ensures Descend(t, Lookup(t, front), Join(rest)) == Place(Lookup(t, front + rest[..|rest| - 1]), rest[|rest| - 1])
    decreases rest
  {
    hide Component, Child, Lookup, Join;
    ComponentOfJoin(rest);
    assert NameOk(rest[0]);
    if |rest| == 1 {
      assert front + rest[..0] == front;
    } else {
      LookupStep(t, front, rest[0]);
      assert rest[..1] == [rest[0]];
      assert IsDir(t, front + rest[..1]);
      var next := front + [rest[0]];
      forall k | 1 <= k < |rest[1..]| ensures IsDir(t, next + rest[1..][..k]) {
        assert next + rest[1..][..k] == front + rest[..k + 1];
      }
      DescendJoin(t, next, rest[1..]);
      assert next + rest[1..][..|rest| - 2] == front + rest[..|rest| - 1];
    }
  }

  /** And only along such a path: what is descended is names with single slashes between. */
  lemma {:induction false} DescendIs(t: Tree, front: seq<seq<Byte>>, path: seq<Byte>) returns (rest: seq<seq<Byte>>)
    requires NoZero(path) && Descend(t, Lookup(t, front), path).Place?
    ensures rest != [] && NamesOk(rest) && path == Join(rest)
    ensures forall k :: 1 <= k < |rest| ==> IsDir(t, front + rest[..k])
    decreases |path|
  {
    hide Component, Child, Lookup;
    var n := Component(path);
    var name := path[..n];
    PieceIsName(path);
    if n == |path| {
      rest := [name];
      assert path == name;
    } else {
      LookupStep(t, front, name);
      var next := front + [name];
      assert NoZero(path[n + 1..]);
      var more := DescendIs(t, next, path[n + 1..]);
      rest := [name] + more;
      assert rest[1..] == more && path == name + [SLASH] + path[n + 1..];
      DirsBelow(t, front, name, more);
    }
  }

  lemma DirsBelow(t: Tree, front: seq<seq<Byte>>, name: seq<Byte>, more: seq<seq<Byte>>)
    requires IsDir(t, front + [name])
    requires forall k :: 1 <= k < |more| ==> IsDir(t, front + [name] + more[..k])
    ensures forall k :: 1 <= k < |more| + 1 ==> IsDir(t, front + ([name] + more)[..k])
  {
    hide IsDir;
    var rest := [name] + more;
    forall k | 1 <= k < |rest| ensures IsDir(t, front + rest[..k]) {
      if k == 1 {
        assert front + rest[..1] == front + [name];
      } else {
        assert IsDir(t, front + [name] + more[..k - 1]);
        assert front + rest[..k] == front + [name] + more[..k - 1];
      }
    }
  }

  lemma PieceIsName(path: seq<Byte>)
    requires NoZero(path)
    ensures var n := Component(path);
            n <= |path| && (n < |path| ==> path[n] == SLASH) && NoSlash(path[..n]) && NoZero(path[..n])
  {
    hide Component;
  }

  predicate IsDir(t: Tree, q: seq<seq<Byte>>) {
    var n := Lookup(t, q);
    n != 0 && n in t.nodes && t.nodes[n].kind == DIR
  }

  /** What an entry must be to be placed: a relative path of legal names whose directories
      exist and whose last name is new, of one of the three types; a directory has no
      content, a link a text that fits a path. */
  predicate MayPlace(t: Tree, path: seq<Byte>, data: seq<Byte>, mode: nat, names: seq<seq<Byte>>, kind: Kind) {
    && names != [] && NamesOk(names) && path == Join(names)
    && (forall k :: 1 <= k < |names| ==> IsDir(t, names[..k])) && Lookup(t, names) == 0
    && HasType(mode, kind) && (kind == DIR ==> data == [])
    && (kind == LNK ==> 0 < |data| < 256 && 0 !in data)
  }

  /** An entry is placed exactly then, or if it is the root itself. */
  lemma PlacedExactly(t: Tree, next: Id, path: seq<Byte>, data: seq<Byte>, mode: nat, r: Tree)
    requires FIRST in t.nodes && t.nodes[FIRST].kind == DIR && NoZero(path)
    ensures Placed(t, next, path, data, mode) == Some(r) <==>
              if path == [46] then HasType(mode, DIR) && r == t
              else
                exists names, kind ::
                  && MayPlace(t, path, data, mode, names, kind) && Lookup(t, names[..|names| - 1]) in t.nodes
                  && r == Added(t, next, Lookup(t, names[..|names| - 1]), names[|names| - 1], kind, data)
  {
    hide Component, Child, Lookup, KindOf, HasType, NamesOk, Join, Descend, IsDir, Added;
    KindIs(mode, DIR);
    forall kind ensures KindOf(mode) == Some(kind) <==> HasType(mode, kind) { KindIs(mode, kind); }
    LookupEmpty(t);
    if path != [46] {
      if Placed(t, next, path, data, mode) == Some(r) {
        PlacedForth(t, next, path, data, mode, r);
      }
      forall names, kind | MayPlace(t, path, data, mode, names, kind) && Lookup(t, names[..|names| - 1]) in t.nodes
                           && r == Added(t, next, Lookup(t, names[..|names| - 1]), names[|names| - 1], kind, data)
        ensures Placed(t, next, path, data, mode) == Some(r) {
        PlacedBack(t, next, path, data, mode, names, kind);
      }
    }
  }

  lemma PlacedForth(t: Tree, next: Id, path: seq<Byte>, data: seq<Byte>, mode: nat, r: Tree)
    requires FIRST in t.nodes && NoZero(path) && path != [46] && Placed(t, next, path, data, mode) == Some(r)
    ensures exists names, kind ::
              && MayPlace(t, path, data, mode, names, kind) && Lookup(t, names[..|names| - 1]) in t.nodes
              && r == Added(t, next, Lookup(t, names[..|names| - 1]), names[|names| - 1], kind, data)
  {
    hide Component, Child, Lookup, HasType, NamesOk, Join, Descend, IsDir, Added, KindOf;
    LookupEmpty(t);
    var kind := KindOf(mode).value;
    KindIs(mode, kind);
    var names := DescendIs(t, [], path);
    AllFromRoot(t, names);
    DescendJoin(t, [], names);
    var front, name := names[..|names| - 1], names[|names| - 1];
    assert [] + front == front;
    LookupStep(t, front, name);
    assert names == front + [name];
    assert MayPlace(t, path, data, mode, names, kind);
  }

  lemma PlacedBack(t: Tree, next: Id, path: seq<Byte>, data: seq<Byte>, mode: nat, names: seq<seq<Byte>>, kind: Kind)
    requires FIRST in t.nodes && NoZero(path) && path != [46]
    requires MayPlace(t, path, data, mode, names, kind) && Lookup(t, names[..|names| - 1]) in t.nodes
    ensures Placed(t, next, path, data, mode) ==
              Some(Added(t, next, Lookup(t, names[..|names| - 1]), names[|names| - 1], kind, data))
  {
    hide Component, Child, Lookup, HasType, NamesOk, Join, Descend, IsDir, Added, KindOf;
    LookupEmpty(t);
    KindIs(mode, kind);
    AllFromRoot(t, names);
    DescendJoin(t, [], names);
    JoinShape(names);
    var front, name := names[..|names| - 1], names[|names| - 1];
    assert [] + front == front;
    LookupStep(t, front, name);
    assert names == front + [name];
  }

  lemma AllFromRoot(t: Tree, names: seq<seq<Byte>>)
    ensures (forall k :: 1 <= k < |names| ==> IsDir(t, [] + names[..k])) <==>
              forall k :: 1 <= k < |names| ==> IsDir(t, names[..k])
  {
    hide IsDir;
    forall k | 1 <= k < |names| ensures [] + names[..k] == names[..k] {
    }
  }

  /** In a tree that describes the entries so far, the directories on the way to the
      next one exist. */
  lemma {:induction false} ParentsExist(t: Tree, es: seq<BootEntry>, i: nat, k: nat)
    requires Proper(es) && i < |es| && Describes(t, es[..i]) && 1 <= k < |es[i].names|
    ensures IsDir(t, es[i].names[..k])
    decreases i
  {
    hide Proper, Describes;
    var names := es[i].names;
    var j := ParentEntry(es, i);
    if k == |names| - 1 {
      EarlierIsDir(t, es, i, j);
    } else {
      Grandparent(t, es, i, j, k);
    }
  }

  lemma ParentEntry(es: seq<BootEntry>, i: nat) returns (j: nat)
    requires Proper(es) && i < |es| && |es[i].names| > 1
    ensures j < i && es[j].kind == DIR && es[j].names == es[i].names[..|es[i].names| - 1]
  {
    assert HasParent(es, i);
    j :| 0 <= j < i && es[j].kind == DIR && es[j].names == es[i].names[..|es[i].names| - 1];
  }

  lemma EarlierIsDir(t: Tree, es: seq<BootEntry>, i: nat, j: nat)
    requires j < i <= |es| && Describes(t, es[..i]) && es[j].kind == DIR
    ensures IsDir(t, es[j].names)
  {
    hide Lookup;
    assert es[..i][j] == es[j];
    assert IsNode(t, es[j]);
    assert ListedIn(es[..i], es[j].names);
    RootDir(t);
  }

  lemma RootDir(t: Tree)
    ensures Lookup(t, []) != 0
  {
  }

  lemma {:induction false} Grandparent(t: Tree, es: seq<BootEntry>, i: nat, j: nat, k: nat)
    requires j < i < |es| && 1 <= k < |es[j].names| <= |es[i].names| && es[j].names == es[i].names[..|es[j].names|]
    requires Proper(es) && Describes(t, es[..i])
    ensures IsDir(t, es[i].names[..k])
    decreases j
  {
    hide Proper, Describes;
    var names := es[j].names;
    assert names[..k] == es[i].names[..k];
    var h := ParentEntry(es, j);
    if k == |names| - 1 {
      EarlierIsDir(t, es, i, h);
    } else {
      assert es[h].names == es[i].names[..|es[h].names|];
      Grandparent(t, es, i, h, k);
    }
  }

  lemma JoinShape(names: seq<seq<Byte>>)
    requires names != [] && NamesOk(names)
    ensures Join(names) != DOT && Join(names) != [] && Join(names)[0] != SLASH
  {
    hide Component;
    ComponentOfJoin(names);
    assert NameOk(names[0]);
    assert |names| > 1 ==> |Join(names)| > |names[0]| && Join(names)[|names[0]|] == SLASH;
  }

  /** Placing the next entry succeeds and the tree then describes one entry more. */
  lemma PlaceNext(t: Tree, next: Id, es: seq<BootEntry>, i: nat, e: Newc.Entry)
    requires Young(t, next) && Proper(es) && i < |es| && Describes(t, es[..i]) && Encodes(e, es[i])
             && t.nodes[FIRST].data == []
    ensures var r := Placed(t, next, e.name, e.payload, e.mode);
            && r.Some? && Describes(r.value, es[..i + 1]) && FIRST in r.value.nodes && r.value.nodes[FIRST].data == []
            && Young(r.value, if e.name == DOT then next else next + 1)
  {
    hide Young, Lookup, Descend, Join, KindOf, Proper, Describes;
    ProperAt(es, i);
    var b := es[i];
    KindIs(e.mode, b.kind);
    FirstIsDir(t, next);
    if b.names == [] {
      RootEntry(t, next, es, i);
      JoinNothing();
    } else {
      var above, name := b.names[..|b.names| - 1], b.names[|b.names| - 1];
      assert b.names == above + [name];
      JoinShape(b.names);
      WhereItGoes(t, next, es, i);
      GrowsByOne(t, next, es, i);
    }
  }

  lemma JoinNothing()
    ensures Join([]) == DOT
  {
  }

  lemma FirstIsDir(t: Tree, next: Id)
    requires Young(t, next)
    ensures FIRST in t.nodes && t.nodes[FIRST].kind == DIR && Young(t, next + 1)
  {
    assert NodeOk(t, FIRST);
    assert MountOk(t, 0);
  }

  lemma RootEntry(t: Tree, next: Id, es: seq<BootEntry>, i: nat)
    requires Young(t, next) && Proper(es) && i < |es| && Describes(t, es[..i]) && es[i].names == []
             && t.nodes[FIRST].data == []
    ensures es[i].kind == DIR && Describes(t, es[..i + 1])
  {
    hide Young;
    FirstIsDir(t, next);
    LookupEmpty(t);
    assert Accepts(es[i].kind, es[i].data) && IsNode(t, es[i]);
    ListedMore(es, i);
    var more := es[..i + 1];
    forall k | 0 <= k < |more| ensures IsNode(t, more[k]) {
      if k < i { assert es[..i][k] == es[k]; }
    }
  }

  lemma ListedMore(es: seq<BootEntry>, i: nat)
    requires i < |es|
    ensures forall q :: ListedIn(es[..i + 1], q) <==> ListedIn(es[..i], q) || q == es[i].names
  {
    forall q ensures ListedIn(es[..i + 1], q) <==> ListedIn(es[..i], q) || q == es[i].names {
      assert es[..i + 1] == es[..i] + [es[i]];
      if ListedIn(es[..i], q) {
        var k :| 0 <= k < i && es[..i][k].names == q;
        assert es[..i + 1][k].names == q;
      }
      assert es[..i + 1][i].names == es[i].names;
      if ListedIn(es[..i + 1], q) && q != es[i].names {
        var k :| 0 <= k < i + 1 && es[..i + 1][k].names == q;
        assert es[..i][k].names == q;
      }
    }
  }

  /** The directory is found, and has no entry of that name yet. */
  lemma WhereItGoes(t: Tree, next: Id, es: seq<BootEntry>, i: nat)
    requires Young(t, next) && Proper(es) && i < |es| && Describes(t, es[..i]) && es[i].names != []
    ensures var names := es[i].names;
            var above, name := names[..|names| - 1], names[|names| - 1];
            && Descend(t, FIRST, Join(names)) == Place(Lookup(t, above), name) && Lookup(t, names) == 0
            && Lookup(t, above) in t.nodes && t.nodes[Lookup(t, above)].kind == DIR
            && Child(t, Lookup(t, above), name) == 0
  {
    hide Young, Descend, Join, Lookup, Proper, NamesOk;
    ProperAt(es, i);
    var names := es[i].names;
    var above, name := names[..|names| - 1], names[|names| - 1];
    assert names == above + [name];
    LookupEmpty(t);
    FirstIsDir(t, next);
    forall k | 1 <= k < |names| ensures IsDir(t, [] + names[..k]) {
      ParentsExist(t, es, i, k);
      assert [] + names[..k] == names[..k];
    }
    DescendJoin(t, [], names);
    assert [] + above == above;
    if |names| > 1 { ParentsExist(t, es, i, |names| - 1); }
    NotYetListed(es, i);
    LookupStep(t, above, name);
  }

  lemma ProperAt(es: seq<BootEntry>, i: nat)
    requires Proper(es) && i < |es|
    ensures NamesOk(es[i].names) && Accepts(es[i].kind, es[i].data)
    ensures es[i].names != [] ==> NameOk(es[i].names[|es[i].names| - 1])
  {
  }

  lemma NotYetListed(es: seq<BootEntry>, i: nat)
    requires Proper(es) && i < |es|
    ensures !ListedIn(es[..i], es[i].names)
  {
  }

  lemma GrowsByOne(t: Tree, next: Id, es: seq<BootEntry>, i: nat)
    requires Young(t, next) && Proper(es) && i < |es| && Describes(t, es[..i]) && es[i].names != []
             && t.nodes[FIRST].data == []
    requires var names := es[i].names;
             var above, name := names[..|names| - 1], names[|names| - 1];
             && Lookup(t, names) == 0 && Lookup(t, above) in t.nodes && t.nodes[Lookup(t, above)].kind == DIR
             && Child(t, Lookup(t, above), name) == 0
    ensures var names := es[i].names;
            var t' := Added(t, next, Lookup(t, names[..|names| - 1]), names[|names| - 1], es[i].kind, es[i].data);
            Young(t', next + 1) && Describes(t', es[..i + 1]) && t'.nodes[FIRST].data == []
  {
    hide Lookup, Child, TreeOk, NameOk, Proper, NamesOk;
    ProperAt(es, i);
    var b := es[i];
    var above, name := b.names[..|b.names| - 1], b.names[|b.names| - 1];
    var p := Lookup(t, above);
    var t' := Added(t, next, p, name, b.kind, b.data);
    AddKeeps(t, next, p, name, b.kind, b.data);
    ZeroNotListed(t);
    assert above + [name] == b.names;
    forall q ensures Lookup(t', q) == if q == b.names then next else Lookup(t, q) {
      LookupAdded(t, next, above, name, b.kind, b.data, q);
    }
    ListedMore(es, i);
    var more := es[..i + 1];
    forall k | 0 <= k < |more| ensures IsNode(t', more[k]) {
      if k < i { assert es[..i][k] == es[k] && IsNode(t, es[k]); }
    }
    assert forall q {:trigger Lookup(t', q)} :: Lookup(t', q) != 0 <==> q == [] || ListedIn(es[..i + 1], q);
  }

  /** The tree before the first entry. */
  const SEED: Tree := Tree(map[FIRST := Vnode([], FIRST, DIR, [], 0, 0, [])], [Mount(FIRST, 0)])

  /** All entries in order. */
  function Grown(t: Tree, next: Id, entries: seq<Newc.Entry>): Option<Tree>
    decreases entries
  {
    if entries == [] then Some(t)
    else
      var e := entries[0];
      var r := Placed(t, next, e.name, e.payload, e.mode);
      if r.None? then None else Grown(r.value, if e.name == DOT then next else next + 1, entries[1..])
  }

  lemma SeedIsYoung()
    ensures Young(SEED, 2) && Describes(SEED, [])
  {
    assert NodeOk(SEED, FIRST);
    assert MountOk(SEED, 0);
    forall q ensures Lookup(SEED, q) != 0 <==> q == [] {
      SeedLookup(q);
    }
  }

  lemma {:induction false} SeedLookup(q: seq<seq<Byte>>)
    ensures Lookup(SEED, q) == if q == [] then FIRST else 0
    decreases |q|
  {
    if q != [] {
      SeedLookup(q[..|q| - 1]);
    }
  }

  lemma {:induction false} GrowsFrom(t: Tree, next: Id, es: seq<BootEntry>, entries: seq<Newc.Entry>, i: nat)
    requires Young(t, next) && Proper(es) && i <= |es| == |entries| && Describes(t, es[..i])
             && t.nodes[FIRST].data == []
    requires forall k :: 0 <= k < |es| ==> Encodes(entries[k], es[k])
    ensures var r := Grown(t, next, entries[i..]); r.Some? && TreeOk(r.value) && Describes(r.value, es)
    decreases |es| - i
  {
    hide Describes, Proper, Placed, Encodes, TreeOk;
    if i == |es| {
      assert es[..i] == es && entries[i..] == [];
    } else {
      var e := entries[i];
      assert entries[i..][0] == e && entries[i..][1..] == entries[i + 1..];
      PlaceNext(t, next, es, i, e);
      GrowsFrom(Placed(t, next, e.name, e.payload, e.mode).value, if e.name == DOT then next else next + 1, es, entries,
                i + 1);
    }
  }

  /** A written archive of proper entries, read at boot, gives a sound name space
      with exactly those paths, types and contents. */
  lemma BootRoundTrip(es: seq<BootEntry>, entries: seq<Newc.Entry>)
    requires Proper(es) && |es| == |entries| && forall k :: 0 <= k < |es| ==> Encodes(entries[k], es[k])
    requires forall k :: 0 <= k < |entries| ==> Newc.Legal(entries[k]) && entries[k].name != Newc.TRAILER
    ensures var read := Newc.ReadFrom(Newc.Archive(entries), 0);
            && read.Some?
            && var r := Grown(SEED, 2, read.value); r.Some? && TreeOk(r.value) && Describes(r.value, es)
  {
    hide Proper, Encodes, Describes, Newc.Legal, TreeOk, Grown, Newc.ReadFrom, Newc.Archive, Young;
    Newc.RoundTrip(entries);
    SeedIsYoung();
    assert es[..0] == [];
    assert entries[0..] == entries;
    GrowsFrom(SEED, 2, es, entries, 0);
  }
}
