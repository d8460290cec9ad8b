/** Path resolution against its rules: one rule per component, stated as relations on
    what is left to read, and the laws that follow for whole paths. */
module PathRules {
  import opened Physical
  import opened Namespace
  import opened Vfs

  // ----- the rules

  /** Where a resolution stands: at a node, with a path to read and links followed. */
  datatype Point = Point(node: Id, path: seq<Byte>, links: nat)

  predicate AllSlash(s: seq<Byte>) {
    forall i :: 0 <= i < |s| ==> s[i] == SLASH
  }

  /** The path is slashes, a name, and then nothing or a slash and more. */
  ghost predicate Reads(path: seq<Byte>, name: seq<Byte>, rest: seq<Byte>) {
    && name != [] && SLASH !in name && (rest == [] || rest[0] == SLASH)
    && exists k: nat :: k <= |path| && AllSlash(path[..k]) && path[k..] == name + rest
  }

  /** A child of the directory has that name, and `d` is that child or what is mounted on it. */
  ghost predicate Named(t: Tree, dir: Id, name: seq<Byte>, d: Id) {
    dir in t.nodes
    && exists c :: c in t.nodes[dir].children && c in t.nodes && t.nodes[c].name == name && Covers(t, c, d)
  }

  predicate Covers(t: Tree, c: Id, d: Id)
    requires c in t.nodes
  {
    if t.nodes[c].mounted == 0 then d == c
    else t.nodes[c].mounted < |t.mounts| && d == t.mounts[t.nodes[c].mounted].root
  }

  /** The directory above, that of the covered directory for the root of a mount. */
  ghost predicate IsAbove(t: Tree, n: Id, u: Id) {
    n in t.nodes &&
    if exists i :: 0 < i < |t.mounts| && t.mounts[i].root == n then
      exists i :: 0 < i < |t.mounts| && t.mounts[i].root == n && t.mounts[i].covered in t.nodes
                  && u == t.nodes[t.mounts[i].covered].parent
    else u == t.nodes[n].parent
  }

  /** A name read in a directory leads on: a dot stays, two dots go up but not above the
      root, a link puts its text in front of what is left, and any other name goes down. */
  ghost predicate Leads(t: Tree, root: Id, nofollow: bool, a: Point, name: seq<Byte>, rest: seq<Byte>, b: Point) {
    if name == [46] then b == Point(a.node, rest, a.links)
    else if name == [46, 46] then
      b.path == rest && b.links == a.links && if a.node == root then b.node == root else IsAbove(t, a.node, b.node)
    else
      exists d :: Named(t, a.node, name, d) && d in t.nodes &&
                  if t.nodes[d].kind != LNK then b == Point(d, rest, a.links)
                  else
                    var text := t.nodes[d].data;
                    && !(nofollow && rest == []) && a.links < 8 && text != [] && |text| + |rest| < 256
                    && b == Point(if text[0] == SLASH then root else a.node, text + rest, a.links + 1)
  }

  /** Or it ends the resolution with an error. */
  ghost predicate Fails(t: Tree, nofollow: bool, a: Point, name: seq<Byte>, rest: seq<Byte>, e: Errno) {
    && name != [46] && name != [46, 46]
    && ((e == NOENT && forall d :: !Named(t, a.node, name, d))
        || exists d :: Named(t, a.node, name, d) && d in t.nodes && t.nodes[d].kind == LNK &&
                       if (nofollow && rest == []) || a.links >= 8 then e == LOOP
                       else e == NAMETOOLONG && (t.nodes[d].data == [] || |t.nodes[d].data| + |rest| >= 256))
  }

  ghost predicate Moves(t: Tree, root: Id, nofollow: bool, a: Point, b: Point) {
    exists name, rest :: Reads(a.path, name, rest) && MovesBy(t, root, nofollow, a, name, rest, b)
  }

  ghost predicate MovesBy(t: Tree, root: Id, nofollow: bool, a: Point, name: seq<Byte>, rest: seq<Byte>, b: Point) {
    a.node in t.nodes && t.nodes[a.node].kind == DIR && |name| < 64 && Leads(t, root, nofollow, a, name, rest, b)
  }

  /** The resolution is over: nothing but slashes is left, or a name fails. */
  ghost predicate Stops(t: Tree, nofollow: bool, a: Point, r: Result) {
    a.node in t.nodes &&
    if AllSlash(a.path) then
      r == if a.path != [] && t.nodes[a.node].kind != DIR then Failed(NOTDIR) else Found(a.node)
    else exists name, rest :: Reads(a.path, name, rest) && StopsBy(t, nofollow, a, name, rest, r)
  }

  ghost predicate StopsBy(t: Tree, nofollow: bool, a: Point, name: seq<Byte>, rest: seq<Byte>, r: Result) {
    r.Failed? && a.node in t.nodes &&
    if t.nodes[a.node].kind != DIR then r.error == NOTDIR
    else if |name| >= 64 then r.error == NAMETOOLONG
    else Fails(t, nofollow, a, name, rest, r.error)
  }

  /** A way from a point to the end of the resolution, by the rules. */
  ghost predicate Way(t: Tree, root: Id, nofollow: bool, way: seq<Point>, r: Result) {
    && |way| > 0 && (forall i :: 0 <= i < |way| - 1 ==> Moves(t, root, nofollow, way[i], way[i + 1]))
    && Stops(t, nofollow, way[|way| - 1], r)
  }

  // ----- one step of the walk is one rule

  lemma ReadsParts(path: seq<Byte>, name: seq<Byte>, rest: seq<Byte>)
    requires Reads(path, name, rest)
    ensures Slashes(path) < |path| && path[Slashes(path)..] == name + rest && Component(name + rest) == |name|
  {
    hide Slashes, Component;
    var k: nat :| k <= |path| && AllSlash(path[..k]) && path[k..] == name + rest;
    assert forall i :: 0 <= i < k ==> path[i] == path[..k][i];
    assert path[k] == (name + rest)[0] == name[0] && name[0] in name;
    SlashesIs(path, k);
    ComponentOf(name, rest);
  }

  lemma ReadsAt(path: seq<Byte>, k: nat, name: seq<Byte>, rest: seq<Byte>)
    requires k <= |path| && (forall i :: 0 <= i < k ==> path[i] == SLASH) && path[k..] == name + rest
    requires name != [] && NoSlash(name) && (rest == [] || rest[0] == SLASH)
    ensures Reads(path, name, rest)
  {
    assert AllSlash(path[..k]);
  }

  lemma ComponentParts(at: seq<Byte>, n: nat)
    requires at != [] && at[0] != SLASH && n == Component(at)
    ensures 0 < n <= |at| && at == at[..n] + at[n..] && NoSlash(at[..n]) && (at[n..] == [] || at[n..][0] == SLASH)
  {
    hide Component;
  }

  lemma PartsRead(path: seq<Byte>)
    requires Slashes(path) < |path|
    ensures var at := path[Slashes(path)..]; Reads(path, at[..Component(at)], at[Component(at)..])
  {
    hide Slashes, Component, Reads, NoSlash;
    var k := Slashes(path);
    var at := path[k..];
    ComponentParts(at, Component(at));
    ReadsAt(path, k, at[..Component(at)], at[Component(at)..]);
  }

  lemma ReadsOnce(path: seq<Byte>, name: seq<Byte>, rest: seq<Byte>)
    ensures Reads(path, name, rest) <==>
              && Slashes(path) < |path|
              && var at := path[Slashes(path)..]; name == at[..Component(at)] && rest == at[Component(at)..]
  {
    hide Reads, Slashes, Component;
    if Reads(path, name, rest) {
      ReadsParts(path, name, rest);
    } else if Slashes(path) < |path| {
      PartsRead(path);
    }
  }

  lemma SlashesAll(path: seq<Byte>)
    ensures AllSlash(path) <==> Slashes(path) == |path|
  {
    if AllSlash(path) { SlashesIs(path, |path|); }
  }

  lemma NamedIsChild(t: Tree, dir: Id, name: seq<Byte>, d: Id)
    requires TreeOk(t) && dir in t.nodes
    ensures Named(t, dir, name, d) <==> Child(t, dir, name) != 0 && d == Across(t, Child(t, dir, name))
    ensures Named(t, dir, name, d) ==> d in t.nodes
  {
    hide TreeOk;
    ChildMeans(t, t.nodes[dir].children, name);
    forall c | c in t.nodes[dir].children && c in t.nodes && t.nodes[c].name == name
      ensures Child(t, dir, name) == c != 0 && (Covers(t, c, d) <==> d == Across(t, c)) && Across(t, c) in t.nodes {
      ChildFound(t, dir, c);
      AcrossListed(t, dir, c);
    }
    var c := Child(t, dir, name);
    if c != 0 {
      AcrossListed(t, dir, c);
    }
  }

  lemma AboveIsUp(t: Tree, n: Id, u: Id)
    requires TreeOk(t) && n in t.nodes
    ensures IsAbove(t, n, u) <==> u == Up(t, n)
  {
    assert NodeOk(t, n);
    forall i | 0 < i < |t.mounts| && t.mounts[i].root == n
      ensures t.nodes[n].mount == i && IsTop(t, n) && t.mounts[i].covered in t.nodes {
      assert MountOk(t, i);
    }
    if IsTop(t, n) {
      assert MountOk(t, t.nodes[n].mount);
      assert !NodeOk(t, 0);
    }
  }

  /** Taking one component is moving by a rule. */
  lemma MoveIsTaken(t: Tree, root: Id, nofollow: bool, a: Point, b: Point)
    requires TreeOk(t) && a.links <= 8
    ensures Moves(t, root, nofollow, a, b) <==>
              Taken(t, root, a.node, a.path, a.links, nofollow) == Go(b.node, b.path, b.links)
  {
    hide TreeOk, Reads, Leads, Entered;
    forall name, rest ensures Reads(a.path, name, rest) ==> (MovesBy(t, root, nofollow, a, name, rest, b) <==>
                        Taken(t, root, a.node, a.path, a.links, nofollow) == Go(b.node, b.path, b.links)) {
      ReadsOnce(a.path, name, rest);
      if Reads(a.path, name, rest) && a.node in t.nodes && t.nodes[a.node].kind == DIR {
        LeadsIsEntered(t, root, nofollow, a, name, rest, b);
      }
    }
    if Slashes(a.path) < |a.path| {
      var at := a.path[Slashes(a.path)..];
      ReadsOnce(a.path, at[..Component(at)], at[Component(at)..]);
    } else {
      forall name, rest ensures !Reads(a.path, name, rest) { ReadsOnce(a.path, name, rest); }
    }
  }

  lemma LeadsIsEntered(t: Tree, root: Id, nofollow: bool, a: Point, name: seq<Byte>, rest: seq<Byte>, b: Point)
    requires TreeOk(t) && a.node in t.nodes && t.nodes[a.node].kind == DIR && a.links <= 8
    ensures |name| < 64 && Leads(t, root, nofollow, a, name, rest, b) <==>
              Entered(t, root, a.node, name, rest, a.links, nofollow) == Go(b.node, b.path, b.links)
  {
    hide TreeOk, Named, IsAbove, Up, Child, Across;
    AboveIsUp(t, a.node, b.node);
    forall d ensures Named(t, a.node, name, d) <==>
             Child(t, a.node, name) != 0 && d == Across(t, Child(t, a.node, name))
             ensures Named(t, a.node, name, d) ==> d in t.nodes {
      NamedIsChild(t, a.node, name, d);
    }
  }

  /** And ending is stopping by a rule. */
  lemma StopIsTaken(t: Tree, root: Id, nofollow: bool, a: Point, r: Result)
    requires TreeOk(t) && a.links <= 8 && a.node in t.nodes
    ensures Stops(t, nofollow, a, r) <==> Taken(t, root, a.node, a.path, a.links, nofollow) == End(r)
  {
    hide TreeOk, Reads, StopsBy, Taken, AllSlash;
    SlashesAll(a.path);
    if Slashes(a.path) < |a.path| {
      var at := a.path[Slashes(a.path)..];
      var first, others := at[..Component(at)], at[Component(at)..];
      ReadsOnce(a.path, first, others);
      forall name, rest ensures Reads(a.path, name, rest) ==> name == first && rest == others {
        ReadsOnce(a.path, name, rest);
      }
      StopsInside(t, root, nofollow, a, first, others, r);
    } else {
      StopsAtEnd(t, root, nofollow, a, r);
    }
  }

  lemma StopsAtEnd(t: Tree, root: Id, nofollow: bool, a: Point, r: Result)
    requires a.node in t.nodes && Slashes(a.path) == |a.path|
    ensures Taken(t, root, a.node, a.path, a.links, nofollow) == End(r) <==>
            r == if a.path != [] && t.nodes[a.node].kind != DIR then Failed(NOTDIR) else Found(a.node)
  {
    assert a.path[|a.path|..] == [];
  }

  lemma StopsInside(t: Tree, root: Id, nofollow: bool, a: Point, name: seq<Byte>, rest: seq<Byte>, r: Result)
    requires TreeOk(t) && a.links <= 8 && a.node in t.nodes && Slashes(a.path) < |a.path|
    requires var at := a.path[Slashes(a.path)..]; name == at[..Component(at)] && rest == at[Component(at)..]
    ensures StopsBy(t, nofollow, a, name, rest, r) <==>
            Taken(t, root, a.node, a.path, a.links, nofollow) == End(r)
  {
    hide TreeOk, Fails, Entered, Slashes, Component;
    if t.nodes[a.node].kind == DIR {
      FailsIsEntered(t, root, nofollow, a, name, rest, r);
    }
  }

  lemma FailsIsEntered(t: Tree, root: Id, nofollow: bool, a: Point, name: seq<Byte>, rest: seq<Byte>, r: Result)
    requires TreeOk(t) && a.node in t.nodes && t.nodes[a.node].kind == DIR && a.links <= 8
    ensures r.Failed?
            && (if |name| >= 64 then r.error == NAMETOOLONG else Fails(t, nofollow, a, name, rest, r.error)) <==>
              Entered(t, root, a.node, name, rest, a.links, nofollow) == End(r)
  {
    hide TreeOk, Named, Up, Child, Across;
    forall d ensures Named(t, a.node, name, d) <==>
             Child(t, a.node, name) != 0 && d == Across(t, Child(t, a.node, name))
             ensures Named(t, a.node, name, d) ==> d in t.nodes {
      NamedIsChild(t, a.node, name, d);
    }
  }

  // ----- the walk is the way

  /** Every walk is a way by the rules. */
  lemma {:induction false} WalkHasWay(t: Tree, root: Id, nofollow: bool, a: Point) returns (way: seq<Point>)
    requires TreeOk(t) && a.node in t.nodes && root in t.nodes && a.links <= 8
    ensures |way| > 0 && way[0] == a && Way(t, root, nofollow, way, Walk(t, root, a.node, a.path, a.links, nofollow))
    decreases 8 - a.links, |a.path|
  {
    hide TreeOk, Taken, Moves, Stops;
    match Taken(t, root, a.node, a.path, a.links, nofollow)
    case End(r) =>
      StopIsTaken(t, root, nofollow, a, r);
      way := [a];
    case Go(next, rest, links) =>
      var b := Point(next, rest, links);
      MoveIsTaken(t, root, nofollow, a, b);
      MoveListed(t, root, nofollow, a, b);
      var more := WalkHasWay(t, root, nofollow, b);
      way := [a] + more;
      WayMore(t, root, nofollow, a, more, Walk(t, root, a.node, a.path, a.links, nofollow));
  }

  lemma WayMore(t: Tree, root: Id, nofollow: bool, a: Point, more: seq<Point>, r: Result)
    requires |more| > 0 && Moves(t, root, nofollow, a, more[0]) && Way(t, root, nofollow, more, r)
    ensures Way(t, root, nofollow, [a] + more, r)
  {
    hide Moves, Stops;
    var way := [a] + more;
    forall i | 0 <= i < |way| - 1 ensures Moves(t, root, nofollow, way[i], way[i + 1]) {
      if i > 0 { assert Moves(t, root, nofollow, more[i - 1], more[i]); }
    }
    assert way[|way| - 1] == more[|more| - 1];
  }

  lemma MoveListed(t: Tree, root: Id, nofollow: bool, a: Point, b: Point)
    requires TreeOk(t) && root in t.nodes && a.links <= 8
    requires Taken(t, root, a.node, a.path, a.links, nofollow) == Go(b.node, b.path, b.links)
    ensures b.node in t.nodes && b.links <= 8
  {
    hide TreeOk, Up, Across, Child;
    UpListed(t, a.node);
    var at := a.path[Slashes(a.path)..];
    var c := Child(t, a.node, at[..Component(at)]);
    if c != 0 {
      ChildInList(t, a.node, at[..Component(at)]);
      AcrossListed(t, a.node, c);
    }
  }

  lemma ChildInList(t: Tree, n: Id, name: seq<Byte>)
    requires n in t.nodes && Child(t, n, name) != 0
    ensures Child(t, n, name) in t.nodes[n].children
  {
  }

  /** And every way is the walk: the rules leave no choice. */
  lemma {:induction false} WayIsWalk(t: Tree, root: Id, nofollow: bool, way: seq<Point>, r: Result)
    requires TreeOk(t) && root in t.nodes && Way(t, root, nofollow, way, r)
    requires way[0].node in t.nodes && way[0].links <= 8
    ensures Walk(t, root, way[0].node, way[0].path, way[0].links, nofollow) == r
    decreases |way|
  {
    hide TreeOk, Taken, Moves, Stops;
    var a := way[0];
    if |way| == 1 {
      StopIsTaken(t, root, nofollow, a, r);
    } else {
      var b := way[1];
      assert Moves(t, root, nofollow, way[0], way[1]);
      MoveIsTaken(t, root, nofollow, a, b);
      MoveListed(t, root, nofollow, a, b);
      WayRest(t, root, nofollow, way, r);
      WayIsWalk(t, root, nofollow, way[1..], r);
    }
  }

  lemma WayRest(t: Tree, root: Id, nofollow: bool, way: seq<Point>, r: Result)
    requires |way| > 1 && Way(t, root, nofollow, way, r)
    ensures Way(t, root, nofollow, way[1..], r)
  {
    hide Moves, Stops;
    var rest := way[1..];
    forall i | 0 <= i < |rest| - 1 ensures Moves(t, root, nofollow, rest[i], rest[i + 1]) {
      assert Moves(t, root, nofollow, way[i + 1], way[i + 2]);
    }
  }

  /** Resolution gives a result exactly when the rules do, errors included. */
  lemma ResolvesByRules(t: Tree, root: Id, base: Id, path: seq<Byte>, nofollow: bool, r: Result)
    requires TreeOk(t) && root in t.nodes && base in t.nodes
    ensures Resolve(t, root, base, path, nofollow) == r <==>
              if path == [] then r == Failed(NOENT)
              else if |path| >= 256 then r == Failed(NAMETOOLONG)
              else
                exists way :: |way| > 0 && way[0] == Point(if path[0] == SLASH then root else base, path, 0)
                              && Way(t, root, nofollow, way, r)
  {
    hide TreeOk, Walk, Way;
    if path != [] && |path| < 256 {
      var start := Point(if path[0] == SLASH then root else base, path, 0);
      var way := WalkHasWay(t, root, nofollow, start);
      assert |way| > 0 && way[0] == start;
      forall other | |other| > 0 && other[0] == start && Way(t, root, nofollow, other, r)
        ensures Walk(t, root, start.node, path, 0, nofollow) == r {
        WayIsWalk(t, root, nofollow, other, r);
      }
    }
  }

  // ----- laws of links

  /** The name is that of a link in the directory. */
  ghost predicate IsLink(t: Tree, dir: Id, name: seq<Byte>, text: seq<Byte>) {
    && name != [] && |name| < 64 && SLASH !in name && name != [46] && name != [46, 46]
    && exists d :: Named(t, dir, name, d) && d in t.nodes && t.nodes[d].kind == LNK && t.nodes[d].data == text
  }

  /** Taking the name of a link. */
  lemma LinkTaken(t: Tree, root: Id, dir: Id, name: seq<Byte>, text: seq<Byte>, rest: seq<Byte>, links: nat,
                  nofollow: bool)
    requires TreeOk(t) && dir in t.nodes && t.nodes[dir].kind == DIR && IsLink(t, dir, name, text) && links <= 8
    requires rest == [] || rest[0] == SLASH
    ensures Taken(t, root, dir, name + rest, links, nofollow) ==
              if (nofollow && rest == []) || links == 8 then End(Failed(LOOP))
              else if text == [] || |text + rest| >= 256 then End(Failed(NAMETOOLONG))
              else Go(if text[0] == SLASH then root else dir, text + rest, links + 1)
  {
    hide TreeOk, Named, Child, Across, Up;
    var path := name + rest;
    SlashesIs(path, 0);
    ComponentOf(name, rest);
    assert path[0..] == path && path[..|name|] == name && path[|name|..] == rest;
    var d :| Named(t, dir, name, d) && d in t.nodes && t.nodes[d].kind == LNK && t.nodes[d].data == text;
    NamedIsChild(t, dir, name, d);
  }

  /** A path that ends in a link is refused under no-follow. */
  lemma LinkRefused(t: Tree, root: Id, dir: Id, name: seq<Byte>, text: seq<Byte>)
    requires TreeOk(t) && dir in t.nodes && t.nodes[dir].kind == DIR && IsLink(t, dir, name, text)
    ensures Resolve(t, root, dir, name, true) == Failed(LOOP)
  {
    hide TreeOk, Taken, Named;
    LinkTaken(t, root, dir, name, text, [], 0, true);
    assert name + [] == name;
  }

  /** Links followed before leave fewer to follow, and change nothing else. */
  lemma {:induction false} MoreLinks(t: Tree, root: Id, node: Id, path: seq<Byte>, links: nat, more: nat,
                                     nofollow: bool)
    requires links <= more <= 8
    ensures var r := Walk(t, root, node, path, more, nofollow);
            r != Failed(LOOP) ==> Walk(t, root, node, path, links, nofollow) == r
    decreases 8 - more, |path|
  {
    hide Taken;
    TakenLinks(t, root, node, path, links, more, nofollow);
    var a := Taken(t, root, node, path, more, nofollow);
    if a.Go? && a.links <= 8 {
      MoreLinks(t, root, a.node, a.rest, a.links - (more - links), a.links, nofollow);
    }
  }

  lemma TakenLinks(t: Tree, root: Id, node: Id, path: seq<Byte>, links: nat, more: nat, nofollow: bool)
    requires links <= more <= 8
    ensures var a, b := Taken(t, root, node, path, more, nofollow), Taken(t, root, node, path, links, nofollow);
            && (a.Go? ==> b.Go? && b == a.(links := a.links - (more - links)))
            && (a.End? && a.result != Failed(LOOP) ==> b == a)
  {
    hide Up, Child, Across;
  }

  /** Following a link: what is left of the path comes behind its text, read from the
      directory of the link, or from the root if the text starts with a slash. */
  lemma LinkFollowed(t: Tree, root: Id, dir: Id, name: seq<Byte>, text: seq<Byte>, rest: seq<Byte>, nofollow: bool)
    requires TreeOk(t) && dir in t.nodes && t.nodes[dir].kind == DIR && IsLink(t, dir, name, text)
    requires (rest == [] && !nofollow) || (rest != [] && rest[0] == SLASH)
    requires text != [] && |name + rest| < 256 && |text + rest| < 256
    ensures var followed := Resolve(t, root, dir, name + rest, nofollow);
            followed == Resolve(t, root, dir, text + rest, nofollow) || followed == Failed(LOOP)
  {
    hide TreeOk, Taken, Named, Walk;
    LinkTaken(t, root, dir, name, text, rest, 0, nofollow);
    WalkOnce(t, root, dir, name + rest, 0, nofollow);
    MoreLinks(t, root, if text[0] == SLASH then root else dir, text + rest, 0, 1, nofollow);
    assert (text + rest)[0] == text[0];
    assert name[0] in name;
  }

  // ----- laws of directories

  /** Leading slashes do not matter before a name. */
  lemma SlashesFirst(t: Tree, root: Id, node: Id, prefix: seq<Byte>, more: seq<Byte>, links: nat, nofollow: bool)
    requires AllSlash(prefix) && more != [] && more[0] != SLASH
    ensures Taken(t, root, node, prefix + more, links, nofollow) == Taken(t, root, node, more, links, nofollow)
    ensures Walk(t, root, node, prefix + more, links, nofollow) == Walk(t, root, node, more, links, nofollow)
  {
    hide Entered;
    SlashesIs(prefix + more, |prefix|);
    SlashesIs(more, 0);
    assert (prefix + more)[|prefix|..] == more && more[0..] == more;
  }

  lemma {:induction false} WalkOn(t: Tree, root: Id, node: Id, prefix: seq<Byte>, more: seq<Byte>, links: nat,
                                  nofollow: bool) returns (k: nat)
    requires EndsWithSlash(prefix) && more != [] && more[0] != SLASH && links <= 8
    requires Walk(t, root, node, prefix, links, false).Found?
    ensures var r := Walk(t, root, node, prefix + more, links, nofollow);
            links <= k <= 8 && (r == Failed(NAMETOOLONG)
                                || r == Walk(t, root, Walk(t, root, node, prefix, links, false).node, more, k,
                                             nofollow))
    decreases 8 - links, |prefix|
  {
    hide Taken;
    k := links;
    SlashesAll(prefix);
    if AllSlash(prefix) {
      AllSlashes(t, root, node, prefix, links);
      SlashesFirst(t, root, node, prefix, more, links, nofollow);
    } else {
      TakenLonger(t, root, node, prefix, more, links, nofollow);
      var a := Taken(t, root, node, prefix, links, false);
      if a.Go? && a.links <= 8 && Taken(t, root, node, prefix + more, links, nofollow).Go? {
        k := WalkOn(t, root, a.node, a.rest, more, a.links, nofollow);
      }
    }
  }

  /** Resolving a path below a directory path is resolving it from that directory, as
      long as the limits on links and on the length of the text in hand are kept. */
  lemma PathsCompose(t: Tree, root: Id, base: Id, prefix: seq<Byte>, more: seq<Byte>, nofollow: bool)
    requires prefix != [] && prefix[|prefix| - 1] == SLASH && more != [] && more[0] != SLASH && |prefix + more| < 256
    requires Resolve(t, root, base, prefix, false).Found?
    ensures var d := Resolve(t, root, base, prefix, false).node;
            var r := Resolve(t, root, base, prefix + more, nofollow);
            r == Resolve(t, root, d, more, nofollow) || r == Failed(LOOP) || r == Failed(NAMETOOLONG)
  {
    hide Walk;
    var start := if prefix[0] == SLASH then root else base;
    var k := WalkOn(t, root, start, prefix, more, 0, nofollow);
    MoreLinks(t, root, Resolve(t, root, base, prefix, false).node, more, 0, k, nofollow);
    assert (prefix + more)[0] == prefix[0];
  }

  // ----- a link at work

  const ETC: seq<Byte> := [101, 116, 99]
  const LINK: seq<Byte> := [108, 105, 110, 107]
  const MESSAGE: seq<Byte> := [109, 101, 115, 115, 97, 103, 101]

  /** The name space of the boot archive: a directory etc with a file message, and beside it
      a link to etc/message. */
  function BootLinks(): Tree {
    Tree(map[1 := Vnode([], 1, DIR, [2, 3], 0, 0, []), 2 := Vnode(ETC, 1, DIR, [4], 0, 0, []),
             3 := Vnode(LINK, 1, LNK, [], 0, 0, ETC + [SLASH] + MESSAGE), 4 := Vnode(MESSAGE, 2, REG, [], 0, 0, [])],
         [Mount(1, 0)])
  }

  lemma BootNodes()
    ensures var t := BootLinks();
            && t.nodes.Keys == {1, 2, 3, 4} && t.mounts == [Mount(1, 0)]
            && t.nodes[1] == Vnode([], 1, DIR, [2, 3], 0, 0, []) && t.nodes[2] == Vnode(ETC, 1, DIR, [4], 0, 0, [])
            && t.nodes[3] == Vnode(LINK, 1, LNK, [], 0, 0, ETC + [SLASH] + MESSAGE)
            && t.nodes[4] == Vnode(MESSAGE, 2, REG, [], 0, 0, [])
  {
  }

  lemma BootNames()
    ensures NameOk(ETC) && NameOk(LINK) && NameOk(MESSAGE) && ETC != LINK && |MESSAGE| == 7
    ensures NoZero(ETC + [SLASH] + MESSAGE) && |ETC + [SLASH] + MESSAGE| == 11
  {
  }

  lemma BootNode(n: Id)
    requires n in BootLinks().nodes
    ensures NodeOk(BootLinks(), n)
  {
    hide BootLinks, NameOk, NoZero;
    BootNodes();
    BootNames();
  }

  lemma BootLinksSound()
    ensures TreeOk(BootLinks())
  {
    hide NodeOk, BootLinks;
    BootNodes();
    var t := BootLinks();
    forall n | n in t.nodes ensures NodeOk(t, n) {
      BootNode(n);
    }
  }

  lemma BootChildren()
    ensures var t := BootLinks(); Child(t, 1, ETC) == 2 && Child(t, 1, LINK) == 3 && Child(t, 2, MESSAGE) == 4
  {
    hide BootLinks, TreeOk, Child;
    var t := BootLinks();
    BootNodes();
    BootLinksSound();
    ChildFound(t, 1, 2);
    ChildFound(t, 1, 3);
    ChildFound(t, 2, 4);
  }

  /** One plain name. */
  lemma NameTaken(t: Tree, root: Id, dir: Id, prefix: seq<Byte>, name: seq<Byte>, rest: seq<Byte>, links: nat)
    requires dir in t.nodes && t.nodes[dir].kind == DIR && AllSlash(prefix) && NameOk(name)
    requires (rest == [] || rest[0] == SLASH) && Child(t, dir, name) in t.nodes && Child(t, dir, name) != 0
    requires t.nodes[Child(t, dir, name)].mounted == 0 && t.nodes[Child(t, dir, name)].kind != LNK
    ensures Taken(t, root, dir, prefix + name + rest, links, false) == Go(Child(t, dir, name), rest, links)
  {
    hide Child, Up;
    var path := prefix + name + rest;
    assert path[|prefix|] == name[0];
    SlashesIs(path, |prefix|);
    assert path[|prefix|..] == name + rest;
    ComponentOf(name, rest);
    assert (name + rest)[..|name|] == name && (name + rest)[|name|..] == rest;
  }

  lemma LinkKnown()
    ensures TreeOk(BootLinks()) && IsLink(BootLinks(), 1, LINK, ETC + [SLASH] + MESSAGE)
  {
    hide TreeOk, BootLinks, Child, Named;
    BootNodes();
    BootNames();
    BootLinksSound();
    BootChildren();
    NamedIsChild(BootLinks(), 1, LINK, 3);
  }

  lemma TargetTaken()
    ensures Walk(BootLinks(), 1, 1, ETC + [SLASH] + MESSAGE, 1, false) == Found(4)
  {
    hide Taken, Walk, Child, BootLinks, NameOk;
    var t := BootLinks();
    var none: seq<Byte>, slash: seq<Byte> := [], [SLASH];
    BootNodes();
    BootNames();
    BootChildren();
    NameTaken(t, 1, 1, none, ETC, slash + MESSAGE, 1);
    assert none + ETC + (slash + MESSAGE) == ETC + slash + MESSAGE;
    NameTaken(t, 1, 2, slash, MESSAGE, none, 1);
    assert slash + MESSAGE + none == slash + MESSAGE;
    WalkOnce(t, 1, 1, ETC + slash + MESSAGE, 1, false);
    WalkOnce(t, 1, 2, slash + MESSAGE, 1, false);
    NothingLeft(t, 1, 4, 1, false);
  }

  lemma NothingLeft(t: Tree, root: Id, n: Id, links: nat, nofollow: bool)
    requires n in t.nodes
    ensures Walk(t, root, n, [], links, nofollow) == Found(n)
  {
  }

  /** Resolving /link finds the message, and refuses under no-follow. */
  lemma LinkReachesTarget()
    ensures Resolve(BootLinks(), 1, 1, [SLASH] + LINK, false) == Found(4)
    ensures Resolve(BootLinks(), 1, 1, [SLASH] + LINK, true) == Failed(LOOP)
  {
    hide Taken, Walk, TreeOk, BootLinks, IsLink;
    var t, text := BootLinks(), ETC + [SLASH] + MESSAGE;
    BootNodes();
    BootNames();
    LinkKnown();
    LinkTaken(t, 1, 1, LINK, text, [], 0, false);
    LinkRefused(t, 1, 1, LINK, text);
    assert LINK + [] == LINK && text + [] == text;
    SlashesFirst(t, 1, 1, [SLASH], LINK, 0, false);
    SlashesFirst(t, 1, 1, [SLASH], LINK, 0, true);
    WalkOnce(t, 1, 1, LINK, 0, false);
    TargetTaken();
  }

  // ----- the path that getcwd reports

  /** Names, each after a slash. */
  function Joined(names: seq<seq<Byte>>): seq<Byte> {
    if names == [] then [] else Joined(names[..|names| - 1]) + [SLASH] + names[|names| - 1]
  }

  /** Directory entries of those names lead from one directory down to another. */
  ghost predicate Trail(t: Tree, from: Id, to: Id, names: seq<seq<Byte>>)
    decreases |names|
  {
    if names == [] then from == to
    else
      var front, last := names[..|names| - 1], names[|names| - 1];
      exists d :: Trail(t, from, d, front) && Named(t, d, last, to)
  }

  /** What is named in a directory is entered from it, by that name. */
  lemma NamedIsEntered(t: Tree, d: Id, name: seq<Byte>, n: Id)
    requires TreeOk(t) && Named(t, d, name, n)
    ensures n in t.nodes && Up(t, n) == d && d < n && NameOk(name)
    ensures Entrance(t, n) in t.nodes && t.nodes[Entrance(t, n)].name == name
  {
    var c :| c in t.nodes[d].children && c in t.nodes && t.nodes[c].name == name && Covers(t, c, n);
    assert NodeOk(t, d);
    assert NodeOk(t, c);
    if t.nodes[c].mounted != 0 {
      assert MountOk(t, t.nodes[c].mounted);
    }
  }

  lemma EnteredIsNamed(t: Tree, root: Id, n: Id)
    requires TreeOk(t) && Reachable(t, root, n) && n != root
    ensures Entrance(t, n) in t.nodes && Named(t, Up(t, n), t.nodes[Entrance(t, n)].name, n)
            && NameOk(t.nodes[Entrance(t, n)].name)
  {
    hide Up, Entrance, NameOk;
    NotFirst(t, root, n);
    UpFacts(t, n);
    var c := Entrance(t, n);
    assert NodeOk(t, c);
    assert Covers(t, c, n);
  }

  /** The path of a directory spells the entries that lead to it, each by a legal name. */
  lemma {:induction false} PathIsTrail(t: Tree, root: Id, n: Id) returns (names: seq<seq<Byte>>)
    requires TreeOk(t) && Reachable(t, root, n)
    ensures Trail(t, root, n, names) && PathTo(t, root, n) == Joined(names)
    ensures forall i :: 0 <= i < |names| ==> NameOk(names[i])
    decreases n
  {
    hide TreeOk, Entrance, NameOk, Named;
    if n == root {
      names := [];
    } else {
      UpStays(t, root, n);
      EnteredIsNamed(t, root, n);
      var front := PathIsTrail(t, root, Up(t, n));
      var name := t.nodes[Entrance(t, n)].name;
      names := front + [name];
      TrailLonger(t, root, Up(t, n), front, name, n);
    }
  }

  lemma TrailLonger(t: Tree, from: Id, d: Id, front: seq<seq<Byte>>, name: seq<Byte>, to: Id)
    requires Trail(t, from, d, front) && Named(t, d, name, to)
    ensures Trail(t, from, to, front + [name]) && Joined(front + [name]) == Joined(front) + [SLASH] + name
  {
    hide Named;
    var names := front + [name];
    assert names[..|names| - 1] == front && names[|names| - 1] == name;
  }

  /** And it is the only such path. */
  lemma {:induction false} TrailIsPath(t: Tree, root: Id, n: Id, names: seq<seq<Byte>>)
    requires TreeOk(t) && root in t.nodes && Trail(t, root, n, names)
    ensures Under(t, root, n) && PathTo(t, root, n) == Joined(names) && root <= n
    decreases |names|
  {
    hide TreeOk, Entrance, NameOk, Named, Up;
    if names != [] {
      var front := names[..|names| - 1];
      var d :| Trail(t, root, d, front) && Named(t, d, names[|names| - 1], n);
      TrailIsPath(t, root, d, front);
      NamedIsEntered(t, d, names[|names| - 1], n);
    }
  }
}
