/** The process family: fork, exit with adoption, reaping and waitpid, for every run,
    the exit of the first process and what comes after it included. */
module Family {
  import opened Common

  type Pid = nat

  datatype State = RUNNING | ZOMBIE | REAPABLE

  /** A process record; parent 0 stands for none. */
  datatype Proc = Proc(parent: Pid, children: seq<Pid>, state: State, status: int)

  /** `init` is the first process, which the kernel itself observes; 0 once its thread
      is gone. `asleep` gives, for every process asleep in waitpid, what it waits for:
      -1 or a pid. `owners` are the processes that have an address space and descriptors.
      `freed` records the pids of freed records, in order. */
  datatype View = View(
    procs: map<Pid, Proc>,
    init: Pid,
    next: Pid,
    asleep: map<Pid, int>,
    owners: set<Pid>,
    freed: seq<Pid>)

  // ----- invariant

  predicate IsChild(procs: map<Pid, Proc>, p: Pid, c: Pid) {
    p in procs && c in procs[p].children
  }

  function Parent(procs: map<Pid, Proc>, c: Pid): Pid {
    if c in procs then procs[c].parent else 0
  }

  predicate In(procs: map<Pid, Proc>, p: Pid, s: State) {
    p in procs && procs[p].state == s
  }

  /** Parent pointers and child lists agree and never dangle. */
  ghost predicate LinksOk(procs: map<Pid, Proc>) {
    && 0 !in procs
    && (forall p, c :: IsChild(procs, p, c) ==> c in procs && Parent(procs, c) == p)
    && (forall c :: Parent(procs, c) != 0 ==> IsChild(procs, Parent(procs, c), c))
    && (forall p :: p in procs ==> Distinct(procs[p].children))
  }

  /** Only running processes have children; everybody else has a parent while the first
      process runs, and whoever has none is not kept once its thread is gone; parents are
      older, so that there is no cycle. */
  ghost predicate TreeOk(procs: map<Pid, Proc>, init: Pid) {
    && (init != 0 ==> init in procs && Parent(procs, init) == 0)
    && (In(procs, init, RUNNING) ==> forall p :: p in procs && p != init ==> Parent(procs, p) != 0)
    && (forall p :: In(procs, p, REAPABLE) ==> Parent(procs, p) != 0)
    && (forall p :: p in procs ==> init <= p && Parent(procs, p) < p)
    && (forall p, c :: IsChild(procs, p, c) ==> In(procs, p, RUNNING))
  }

  /** What a sleeper waits for is any child, or one of its own. */
  predicate AwaitsChild(procs: map<Pid, Proc>, p: Pid, target: int) {
    target == -1 || (target >= 0 && IsChild(procs, p, target))
  }

  ghost predicate RecordsOk(v: View) {
    && (forall p :: p in v.procs ==> p < v.next && p !in v.freed) && (forall p :: p in v.freed ==> p < v.next)
    && Distinct(v.freed)
    && (forall p :: p in v.owners <==> In(v.procs, p, RUNNING) || In(v.procs, p, ZOMBIE))
    && (forall p :: p in v.asleep ==> In(v.procs, p, RUNNING) && AwaitsChild(v.procs, p, v.asleep[p]))
  }

  ghost predicate Inv(v: View) {
    LinksOk(v.procs) && TreeOk(v.procs, v.init) && RecordsOk(v)
  }

  predicate Matches(target: int, c: Pid) {
    target == -1 || target == c
  }

  /** Process `p` sleeps in waitpid while its child `c`, which it waits for, is reapable. */
  predicate Misses(v: View, p: Pid, c: Pid) {
    p in v.asleep && IsChild(v.procs, p, c) && Matches(v.asleep[p], c) && In(v.procs, c, REAPABLE)
  }

  ghost predicate NoLostExit(v: View) {
    forall p, c :: !Misses(v, p, c)
  }

  /** Nobody but the first process sleeps past a child, and that one only in waitpid(-1). */
  ghost predicate OnlyFirst(v: View) {
    forall p, c :: Misses(v, p, c) ==> p == v.init && v.asleep[p] == -1
  }

  /** Whoever misses a child now has missed it before, in the same call. */
  ghost predicate NoNewMiss(v: View, w: View) {
    forall p, c :: Misses(w, p, c) ==> Misses(v, p, c) && w.asleep[p] == v.asleep[p] && (p == v.init ==> p == w.init)
  }

  // ----- the operations on values

  function Forked(v: View, parent: Pid): View
    requires parent in v.procs
  {
    var child, p := v.next, v.procs[parent];
    v.(procs := v.procs[parent := p.(children := p.children + [child])][child := Proc(parent, [], RUNNING, 0)],
       next := v.next + 1, owners := v.owners + {child})
  }

  /** A fork that fails uses up a pid, if it got as far as that, and nothing else. */
  function ForkFailed(v: View, numbered: bool): View {
    if numbered then v.(next := v.next + 1) else v
  }

  /** The search of waitpid: the child of that pid; or for -1 a reapable child, or else the first. */
  function Found(procs: map<Pid, Proc>, children: seq<Pid>, target: int): (c: Pid)
    ensures c == 0 || c in children
  {
    if target != -1 then (if target >= 0 && target in children then target else 0)
    else if FirstReapable(procs, children) != 0 then FirstReapable(procs, children)
    else if children != [] then children[0] else 0
  }

  function FirstReapable(procs: map<Pid, Proc>, children: seq<Pid>): (c: Pid)
    ensures c == 0 || c in children
  {
    if children == [] then 0
    else if children[0] in procs && procs[children[0]].state == REAPABLE then children[0]
    else FirstReapable(procs, children[1..])
  }

  function Without(s: seq<Pid>, c: Pid): seq<Pid> {
    if s == [] then [] else (if s[0] == c then [] else [s[0]]) + Without(s[1..], c)
  }

  lemma {:induction false} WithoutParts(s: seq<Pid>, c: Pid)
    ensures forall x :: x in Without(s, c) <==> x in s && x != c
    ensures Distinct(s) ==> Distinct(Without(s, c))
  {
    if s != [] {
      WithoutParts(s[1..], c);
      assert Distinct(s) ==> Distinct(s[1..]) && s[0] !in s[1..];
    }
  }

  /** One occurrence is gone, and the others keep their order. */
  ghost predicate Cuts(s: seq<Pid>, c: Pid, t: seq<Pid>) {
    exists i :: 0 <= i < |s| && s[i] == c && t == s[..i] + s[i + 1..]
  }

  lemma WithoutNone(s: seq<Pid>, c: Pid)
    requires c !in s
    ensures Without(s, c) == s
  {
  }

  lemma {:induction false} WithoutCuts(s: seq<Pid>, c: Pid)
    requires Distinct(s) && c in s
    ensures Cuts(s, c, Without(s, c))
  {
    if s[0] == c {
      assert c !in s[1..];
      WithoutNone(s[1..], c);
      assert Without(s, c) == s[..0] + s[0 + 1..];
    } else {
      WithoutCuts(s[1..], c);
      var i :| 0 <= i < |s| - 1 && s[1..][i] == c && Without(s[1..], c) == s[1..][..i] + s[1..][i + 1..];
      CutLater(s, i, Without(s[1..], c));
    }
  }

  lemma CutLater(s: seq<Pid>, i: nat, t: seq<Pid>)
    requires i + 1 < |s| && t == s[1..][..i] + s[1..][i + 1..]
    ensures [s[0]] + t == s[..i + 1] + s[i + 2..]
  {
  }

  /** The parent takes the status of a reapable child, whose record is freed. */
  function Consumed(v: View, parent: Pid, c: Pid): View
    requires parent in v.procs
  {
    var p := v.procs[parent];
    v.(procs := v.procs[parent := p.(children := Without(p.children, c))] - {c}, freed := v.freed + [c])
  }

  /** The first `k` children of `p` have moved to the end of the adopter's list. */
  function Moved(procs: map<Pid, Proc>, p: Pid, init: Pid, k: nat): map<Pid, Proc>
    requires p in procs && init in procs && k <= |procs[p].children|
  {
    map q | q in procs ::
      if q == p then procs[q].(children := procs[p].children[k..])
      else if q == init then procs[q].(children := procs[q].children + procs[p].children[..k])
      else if q in procs[p].children[..k] then procs[q].(parent := init)
      else procs[q]
  }

  /** The first `k` children of `p` have no parent any more, and no record if they were reapable. */
  function Released(procs: map<Pid, Proc>, p: Pid, k: nat): map<Pid, Proc>
    requires p in procs && k <= |procs[p].children|
  {
    map q | q in procs && !(q in procs[p].children[..k] && procs[q].state == REAPABLE) ::
      if q == p then procs[q].(children := procs[p].children[k..])
      else if q in procs[p].children[..k] then procs[q].(parent := 0)
      else procs[q]
  }

  function Reapables(procs: map<Pid, Proc>, s: seq<Pid>): seq<Pid> {
    if s == [] then []
    else Reapables(procs, s[..|s| - 1]) + (if In(procs, s[|s| - 1], REAPABLE) then [s[|s| - 1]] else [])
  }

  predicate Adopts(v: View, p: Pid) {
    v.init != 0 && v.init != p && v.init in v.procs
  }

  function Exited(v: View, p: Pid, status: int): View
    requires p in v.procs
  {
    var procs := v.procs[p := v.procs[p].(state := ZOMBIE, status := status)];
    var n := |procs[p].children|;
    if Adopts(v, p) then v.(procs := Moved(procs, p, v.init, n))
    else v.(procs := Released(procs, p, n), freed := v.freed + Reapables(procs, procs[p].children))
  }

  /** The dead thread is gone: the process gives up its resources, and its parent is
      woken or, if it has none, its record is freed. */
  function Reaped(v: View, p: Pid): View
    requires p in v.procs
  {
    if p == v.init || v.procs[p].parent == 0 then
      v.(procs := v.procs - {p}, init := if p == v.init then 0 else v.init, owners := v.owners - {p},
         freed := v.freed + [p])
    else
      v.(procs := v.procs[p := v.procs[p].(state := REAPABLE)], owners := v.owners - {p},
         asleep := v.asleep - {v.procs[p].parent})
  }

  // ----- fork

  lemma ForkShape(v: View, parent: Pid)
    requires parent in v.procs && v.next !in v.procs && parent != v.next
    ensures var w := Forked(v, parent).procs;
            && (forall p, c :: IsChild(w, p, c) <==> IsChild(v.procs, p, c) || (p == parent && c == v.next))
            && (forall c :: Parent(w, c) == if c == v.next then parent else Parent(v.procs, c))
            && (forall p, s :: In(w, p, s) <==> if p == v.next then s == RUNNING else In(v.procs, p, s))
            && (forall p :: p in w <==> p in v.procs || p == v.next)
  {
  }

  lemma ForkUnique(v: View, parent: Pid)
    requires Inv(v) && parent in v.procs
    ensures v.next !in v.procs && v.next != 0 && parent != v.next
    ensures forall p :: p in Forked(v, parent).procs ==> Distinct(Forked(v, parent).procs[p].children)
  {
    hide TreeOk;
    assert !IsChild(v.procs, parent, v.next);
  }

  lemma ForkKeeps(v: View, parent: Pid)
    requires Inv(v) && In(v.procs, parent, RUNNING) && parent !in v.asleep
    ensures Inv(Forked(v, parent)) && NoNewMiss(v, Forked(v, parent))
  {
    hide IsChild, Parent, In, Distinct;
    ParentListed(v.procs, parent, RUNNING);
    ParentListed(v.procs, v.init, RUNNING);
    ForkUnique(v, parent);
    ForkShape(v, parent);
    var w := Forked(v, parent);
    forall p, c ensures Misses(w, p, c) ==> Misses(v, p, c) { SleeperListed(v, p); }
  }

  lemma ParentListed(procs: map<Pid, Proc>, p: Pid, s: State)
    ensures In(procs, p, s) ==> p in procs
    ensures forall t: State :: In(procs, p, s) && In(procs, p, t) ==> s == t
  {
  }

  lemma NobodyZero(procs: map<Pid, Proc>)
    ensures 0 !in procs ==> forall s :: !In(procs, 0, s)
  {
  }

  lemma OneState(procs: map<Pid, Proc>)
    ensures forall p ::
              !(In(procs, p, RUNNING) && In(procs, p, REAPABLE)) && !(In(procs, p, RUNNING) && In(procs, p, ZOMBIE))
  {
  }

  lemma SleeperListed(v: View, p: Pid)
    ensures Inv(v) && p in v.asleep ==> p in v.procs && p < v.next
  {
  }

  // ----- waitpid

  lemma ConsumeShape(v: View, parent: Pid, c: Pid)
    requires parent in v.procs && parent != c
    ensures var w := Consumed(v, parent, c).procs;
            && (forall p, x :: IsChild(w, p, x) <==> p != c && IsChild(v.procs, p, x) && !(p == parent && x == c))
            && (forall x :: Parent(w, x) == if x == c then 0 else Parent(v.procs, x))
            && (forall p, s :: In(w, p, s) <==> p != c && In(v.procs, p, s))
            && (forall p :: p in w <==> p in v.procs && p != c)
            && (forall p :: p in w && Distinct(v.procs[p].children) ==> Distinct(w[p].children))
  {
    hide Distinct;
    WithoutParts(v.procs[parent].children, c);
  }

  lemma ConsumeKeeps(v: View, parent: Pid, c: Pid)
    requires Inv(v) && IsChild(v.procs, parent, c) && In(v.procs, c, REAPABLE) && parent !in v.asleep
    ensures Inv(Consumed(v, parent, c)) && NoNewMiss(v, Consumed(v, parent, c))
    ensures parent in v.procs
  {
    hide IsChild, Parent, In, Distinct, Without;
    ParentListed(v.procs, parent, RUNNING);
    ParentListed(v.procs, c, REAPABLE);
    ConsumeShape(v, parent, c);
    var w := Consumed(v, parent, c);
    DistinctMore(v.freed, c);
    forall p, x ensures Misses(w, p, x) ==> Misses(v, p, x) { }
  }

  // ----- reaping the thread

  lemma ReapShape(v: View, p: Pid)
    requires In(v.procs, p, ZOMBIE) && p != v.init && Parent(v.procs, p) != 0
    ensures var w := Reaped(v, p).procs;
            && (forall q, c :: IsChild(w, q, c) <==> IsChild(v.procs, q, c))
            && (forall c :: Parent(w, c) == Parent(v.procs, c))
            && (forall q, s :: In(w, q, s) <==> if q == p then s == REAPABLE else In(v.procs, q, s))
            && (forall q :: q in w <==> q in v.procs) && (forall q :: q in w ==> w[q].children == v.procs[q].children)
            && Reaped(v, p).asleep == v.asleep - {Parent(v.procs, p)}
            && Reaped(v, p).init == v.init && Reaped(v, p).next == v.next && Reaped(v, p).freed == v.freed
            && Reaped(v, p).owners == v.owners - {p}
  {
  }

  /** A process without a parent leaves the table at once. */
  lemma VanishShape(v: View, p: Pid)
    requires In(v.procs, p, ZOMBIE) && (p == v.init || Parent(v.procs, p) == 0)
    ensures var w := Reaped(v, p).procs;
            && (forall q, c :: IsChild(w, q, c) <==> q != p && IsChild(v.procs, q, c))
            && (forall c :: Parent(w, c) == if c == p then 0 else Parent(v.procs, c))
            && (forall q, s :: In(w, q, s) <==> q != p && In(v.procs, q, s))
            && (forall q :: q in w <==> q in v.procs && q != p)
            && (forall q :: q in w ==> w[q].children == v.procs[q].children)
            && Reaped(v, p).asleep == v.asleep && Reaped(v, p).next == v.next && Reaped(v, p).freed == v.freed + [p]
            && Reaped(v, p).owners == v.owners - {p} && Reaped(v, p).init == if p == v.init then 0 else v.init
  {
  }

  lemma ReapKeeps(v: View, p: Pid)
    requires Inv(v) && In(v.procs, p, ZOMBIE)
    ensures Inv(Reaped(v, p)) && NoNewMiss(v, Reaped(v, p))
  {
    hide IsChild, Parent, In, Distinct, Reaped;
    ParentListed(v.procs, p, ZOMBIE);
    ParentListed(v.procs, p, RUNNING);
    var w := Reaped(v, p);
    if p == v.init || Parent(v.procs, p) == 0 {
      VanishShape(v, p);
      NobodyZero(w.procs);
      DistinctMore(v.freed, p);
    } else {
      ReapShape(v, p);
    }
    forall q, c ensures Misses(w, q, c) ==> Misses(v, q, c) { }
  }

  // ----- exit

  /** The one way to lose an exit: a process leaves a reapable child to the
      adopter while that one sleeps in waitpid for any child. */
  ghost predicate LeavesOrphan(v: View, p: Pid) {
    v.init in v.asleep && v.asleep[v.init] == -1 && exists c :: IsChild(v.procs, p, c) && In(v.procs, c, REAPABLE)
  }

  /** The one way to break the family: the first process is dying and still adopts. */
  predicate Doomed(v: View, p: Pid) {
    p != v.init && In(v.procs, v.init, ZOMBIE) && p in v.procs && v.procs[p].children != []
  }

  lemma ExitShape(v: View, p: Pid, status: int)
    requires In(v.procs, p, RUNNING) && Adopts(v, p) && !IsChild(v.procs, p, p) && !IsChild(v.procs, p, v.init)
    ensures var w := Exited(v, p, status).procs;
            && (forall q, c ::
                  IsChild(w, q, c) <==> q != p && (IsChild(v.procs, q, c) || (q == v.init && IsChild(v.procs, p, c))))
            && (forall c ::
                  Parent(w, c) == if c in v.procs && IsChild(v.procs, p, c) then v.init else Parent(v.procs, c))
            && (forall q, s :: In(w, q, s) <==> if q == p then s == ZOMBIE else In(v.procs, q, s))
            && (forall q :: q in w <==> q in v.procs)
            && (forall q ::
                  q in w ==>
                    w[q].children ==
                      if q == p then [] else if q == v.init then v.procs[q].children + v.procs[p].children
                      else v.procs[q].children)
            && Exited(v, p, status) == v.(procs := w)
  {
    assert v.procs[p].children[|v.procs[p].children|..] == [];
    assert v.procs[p].children[..|v.procs[p].children|] == v.procs[p].children;
  }

  /** Exit without an adopter. */
  lemma OrphanShape(v: View, p: Pid, status: int)
    requires In(v.procs, p, RUNNING) && !Adopts(v, p) && !IsChild(v.procs, p, p)
    ensures var w := Exited(v, p, status).procs;
            && (forall q, c ::
                  IsChild(w, q, c) <==>
                    q != p && IsChild(v.procs, q, c) && !(IsChild(v.procs, p, q) && In(v.procs, q, REAPABLE)))
            && (forall c :: Parent(w, c) == if IsChild(v.procs, p, c) then 0 else Parent(v.procs, c))
            && (forall q, s ::
                  In(w, q, s) <==>
                    if q == p then s == ZOMBIE else In(v.procs, q, s) && !(IsChild(v.procs, p, q) && s == REAPABLE))
            && (forall q :: q in w <==> q in v.procs && !(IsChild(v.procs, p, q) && In(v.procs, q, REAPABLE)))
            && (forall q :: q in w ==> w[q].children == if q == p then [] else v.procs[q].children)
            && Exited(v, p, status) == v.(procs := w, freed := Exited(v, p, status).freed)
  {
    assert v.procs[p].children[|v.procs[p].children|..] == [];
    assert v.procs[p].children[..|v.procs[p].children|] == v.procs[p].children;
  }

  lemma {:induction false} ReapablesAre(procs: map<Pid, Proc>, s: seq<Pid>)
    ensures forall c :: c in Reapables(procs, s) <==> c in s && In(procs, c, REAPABLE)
    ensures Distinct(s) ==> Distinct(Reapables(procs, s))
  {
    if s != [] {
      var n := |s| - 1;
      ReapablesAre(procs, s[..n]);
      assert s == s[..n] + [s[n]];
      assert Distinct(s) ==> s[n] !in s[..n];
    }
  }

  lemma OrphanFreed(v: View, p: Pid, status: int)
    requires Inv(v) && In(v.procs, p, RUNNING) && !Adopts(v, p)
    ensures var w := Exited(v, p, status);
            && Distinct(w.freed)
            && (forall c :: c in w.freed <==> c in v.freed || (IsChild(v.procs, p, c) && In(v.procs, c, REAPABLE)))
  {
    hide TreeOk;
    var procs := v.procs[p := v.procs[p].(state := ZOMBIE, status := status)];
    var kids := procs[p].children;
    ReapablesAre(procs, kids);
    var more := Reapables(procs, kids);
    forall c | c in more ensures c !in v.freed && In(v.procs, c, REAPABLE) && IsChild(v.procs, p, c) {
      assert IsChild(v.procs, p, c);
    }
    DistinctBoth(v.freed, more);
  }

  lemma DistinctBoth(a: seq<Pid>, b: seq<Pid>)
    requires Distinct(a) && Distinct(b) && forall x :: x in b ==> x !in a
    ensures Distinct(a + b)
  {
    forall i, j | 0 <= i < j < |a + b| ensures (a + b)[i] != (a + b)[j] {
      assert j >= |a| ==> (a + b)[j] == b[j - |a|] && (a + b)[j] in b;
      assert i >= |a| ==> (a + b)[i] == b[i - |a|];
    }
  }

  /** The lists of two processes have nothing in common. */
  lemma ListsApart(v: View, p: Pid, q: Pid)
    requires LinksOk(v.procs) && p in v.procs && q in v.procs && p != q
    ensures Distinct(v.procs[q].children + v.procs[p].children)
  {
    var a, b := v.procs[q].children, v.procs[p].children;
    forall i, j | 0 <= i < |a| && 0 <= j < |b| ensures a[i] != b[j] {
      assert IsChild(v.procs, q, a[i]) && IsChild(v.procs, p, b[j]);
    }
  }

  /** An exit keeps the family sound exactly when nobody is adopted by a dying process. */
  lemma ExitKeeps(v: View, p: Pid, status: int)
    requires Inv(v) && In(v.procs, p, RUNNING) && p !in v.asleep
    ensures p in v.procs && (Inv(Exited(v, p, status)) <==> !Doomed(v, p))
    ensures NoLostExit(v) ==> (NoLostExit(Exited(v, p, status)) <==> !LeavesOrphan(v, p))
    ensures OnlyFirst(v) ==> OnlyFirst(Exited(v, p, status))
  {
    ParentListed(v.procs, p, RUNNING);
    NotRunningAnyMore(v.procs, p);
    if Adopts(v, p) {
      AdoptKeeps(v, p, status);
      ExitMisses(v, p, status);
    } else {
      OrphanKeeps(v, p, status);
    }
  }

  lemma AdoptKeeps(v: View, p: Pid, status: int)
    requires Inv(v) && In(v.procs, p, RUNNING) && p in v.procs && p !in v.asleep && Adopts(v, p)
    ensures Inv(Exited(v, p, status)) <==> !Doomed(v, p)
  {
    hide IsChild, Parent, In, Distinct, Exited;
    NoSelfChild(v, p);
    ExitShape(v, p, status);
    ListsApart(v, p, v.init);
    DistinctNone<Pid>();
    NotRunningAnyMore(v.procs, p);
    InitState(v);
    var w := Exited(v, p, status);
    ChildExists(v, p);
    if Doomed(v, p) {
      var c := v.procs[p].children[0];
      assert IsChild(w.procs, v.init, c) && !In(w.procs, v.init, RUNNING);
    }
  }

  lemma OrphanKeeps(v: View, p: Pid, status: int)
    requires Inv(v) && In(v.procs, p, RUNNING) && p in v.procs && p !in v.asleep && !Adopts(v, p)
    ensures Inv(Exited(v, p, status)) && !Doomed(v, p) && !LeavesOrphan(v, p)
    ensures NoNewMiss(v, Exited(v, p, status))
  {
    hide IsChild, Parent, In, Distinct, Exited;
    NoSelfChild(v, p);
    OrphanShape(v, p, status);
    OrphanFreed(v, p, status);
    DistinctNone<Pid>();
    OneState(v.procs);
    InitState(v);
    var w := Exited(v, p, status);
    forall q, c ensures Misses(w, q, c) ==> Misses(v, q, c) { }
  }

  /** The first process runs or is dying, or is no more. */
  lemma InitState(v: View)
    requires Inv(v)
    ensures v.init != 0 ==> In(v.procs, v.init, RUNNING) || In(v.procs, v.init, ZOMBIE)
    ensures v.init == 0 ==> v.init !in v.procs && forall s :: !In(v.procs, v.init, s)
    ensures !(In(v.procs, v.init, RUNNING) && In(v.procs, v.init, ZOMBIE))
  {
    assert v.init != 0 ==> !In(v.procs, v.init, REAPABLE);
  }

  lemma ChildExists(v: View, p: Pid)
    ensures p in v.procs && v.procs[p].children != [] ==> IsChild(v.procs, p, v.procs[p].children[0])
    ensures p in v.procs && v.procs[p].children == [] ==> forall c :: !IsChild(v.procs, p, c)
  {
  }

  /** A child that a sleeper waits for by its pid is nobody else's. */
  lemma AwaitedStays(v: View, p: Pid, q: Pid, c: Pid)
    requires Inv(v) && q in v.asleep && q != p
    ensures Matches(v.asleep[q], c) && IsChild(v.procs, p, c) ==> v.asleep[q] == -1
  {
  }

  /** Exits change who misses what only for the adopter, and only by orphans. */
  lemma ExitMisses(v: View, p: Pid, status: int)
    requires Inv(v) && In(v.procs, p, RUNNING) && p in v.procs && p !in v.asleep && Adopts(v, p)
    ensures NoLostExit(v) ==> (NoLostExit(Exited(v, p, status)) <==> !LeavesOrphan(v, p))
    ensures OnlyFirst(v) ==> OnlyFirst(Exited(v, p, status))
  {
    hide IsChild, Parent, In, Distinct, Exited;
    NoSelfChild(v, p);
    ExitShape(v, p, status);
    NotRunningAnyMore(v.procs, p);
    var w := Exited(v, p, status);
    forall q, c | Misses(w, q, c) ensures Misses(v, q, c) || (LeavesOrphan(v, p) && q == v.init) {
      AwaitedStays(v, p, q, c);
    }
    if LeavesOrphan(v, p) {
      var c :| IsChild(v.procs, p, c) && In(v.procs, c, REAPABLE);
      assert Misses(w, v.init, c);
    }
  }

  /** After such an exit the adopted children keep pointing at a record that is gone as
      soon as the dying adopter's thread is. */
  lemma DoomedDangles(v: View, p: Pid, status: int, c: Pid)
    requires Inv(v) && In(v.procs, p, RUNNING) && p !in v.asleep && Doomed(v, p) && IsChild(v.procs, p, c)
    ensures p in v.procs
    ensures var w := Exited(v, p, status);
            && In(w.procs, v.init, ZOMBIE)
            && var x := Reaped(w, v.init);
            && c in x.procs && Parent(x.procs, c) == v.init && v.init !in x.procs && v.init in x.freed
  {
    hide Inv, Exited, Reaped, Distinct;
    AdoptsWhenDoomed(v, p, c);
    ExitShape(v, p, status);
    VanishShape(Exited(v, p, status), v.init);
  }

  lemma AdoptsWhenDoomed(v: View, p: Pid, c: Pid)
    requires Inv(v) && In(v.procs, p, RUNNING) && Doomed(v, p) && IsChild(v.procs, p, c)
    ensures Adopts(v, p) && !IsChild(v.procs, p, p) && !IsChild(v.procs, p, v.init) && c in v.procs && c != v.init
  {
    NoSelfChild(v, p);
    InitState(v);
  }

  lemma NotRunningAnyMore(procs: map<Pid, Proc>, p: Pid)
    ensures In(procs, p, RUNNING) ==> !In(procs, p, ZOMBIE) && !In(procs, p, REAPABLE)
  {
  }

  /** Nobody is its own parent, and the first process is nobody's child. */
  lemma NoSelfChild(v: View, p: Pid)
    requires Inv(v) && p in v.procs
    ensures !IsChild(v.procs, p, v.init) && !IsChild(v.procs, p, p)
  {
  }

  // ----- a turn of waitpid

  datatype WaitOutcome = Invalid | NoChild | Fault | Sleeps | Done(child: Pid, status: int)

  predicate ValidTarget(target: int) {
    target > 0 || target == -1
  }

  /** From taking the lock until the caller sleeps or returns; `copies` says whether
      the status can be copied out. */
  function Outcome(v: View, p: Pid, target: int, options: nat, copies: bool): WaitOutcome
    requires p in v.procs
  {
    var c := Found(v.procs, v.procs[p].children, target);
    if !ValidTarget(target) || options != 0 then Invalid
    else if c == 0 || c !in v.procs then NoChild
    else if v.procs[c].state != REAPABLE then Sleeps
    else if !copies then Fault
    else Done(c, v.procs[c].status)
  }

  function Waited(v: View, p: Pid, target: int, options: nat, copies: bool): View
    requires p in v.procs
  {
    match Outcome(v, p, target, options, copies)
    case Sleeps => v.(asleep := v.asleep[p := target])
    case Done(c, _) => Consumed(v, p, c)
    case _ => v
  }

  lemma {:induction false} FirstReapableMeans(procs: map<Pid, Proc>, children: seq<Pid>)
    requires 0 !in children
    ensures FirstReapable(procs, children) == 0 ==> forall c :: c in children ==> !In(procs, c, REAPABLE)
    ensures FirstReapable(procs, children) != 0 ==> In(procs, FirstReapable(procs, children), REAPABLE)
  {
    if children != [] && !In(procs, children[0], REAPABLE) {
      FirstReapableMeans(procs, children[1..]);
      assert children == [children[0]] + children[1..];
    }
  }

  /** The search finds a child that can be consumed whenever there is one. */
  lemma FoundMeans(v: View, p: Pid, target: int)
    requires Inv(v) && p in v.procs && ValidTarget(target)
    ensures var c := Found(v.procs, v.procs[p].children, target);
            && (c == 0 <==> forall x :: IsChild(v.procs, p, x) ==> !Matches(target, x))
            && (c != 0 ==> c in v.procs && IsChild(v.procs, p, c) && Matches(target, c))
            && ((exists x :: IsChild(v.procs, p, x) && Matches(target, x) && In(v.procs, x, REAPABLE)) ==>
                 c != 0 && In(v.procs, c, REAPABLE))
  {
    hide TreeOk, RecordsOk, Distinct;
    assert !IsChild(v.procs, p, 0);
    FirstReapableMeans(v.procs, v.procs[p].children);
    if target == -1 {
      if v.procs[p].children != [] {
        assert IsChild(v.procs, p, v.procs[p].children[0]);
      }
    } else {
      var t: Pid := target;
      assert Matches(target, t);
      assert forall x: Pid :: Matches(target, x) ==> x == t;
    }
  }

  /** Some child the caller waits for is reapable. */
  ghost predicate Heard(procs: map<Pid, Proc>, p: Pid, target: int) {
    exists c :: IsChild(procs, p, c) && (target == -1 || target == c) && In(procs, c, REAPABLE)
  }

  /** The first reapable child in the list of its parent. */
  ghost predicate IsFirstReapable(procs: map<Pid, Proc>, p: Pid, c: Pid) {
    p in procs && exists i :: 0 <= i < |procs[p].children| && procs[p].children[i] == c && In(procs, c, REAPABLE)
                              && forall j :: 0 <= j < i ==> !In(procs, procs[p].children[j], REAPABLE)
  }

  lemma {:induction false} FirstReapableComes(procs: map<Pid, Proc>, children: seq<Pid>) returns (i: nat)
    requires FirstReapable(procs, children) != 0
    ensures i < |children| && children[i] == FirstReapable(procs, children) && In(procs, children[i], REAPABLE)
    ensures forall j :: 0 <= j < i ==> !In(procs, children[j], REAPABLE)
  {
    if In(procs, children[0], REAPABLE) {
      i := 0;
    } else {
      i := FirstReapableComes(procs, children[1..]);
      i := i + 1;
    }
  }

  /** Each answer of waitpid under exactly its condition. */
  lemma AnswersExactly(v: View, p: Pid, target: int, options: nat, copies: bool)
    requires Inv(v) && p in v.procs
    ensures var r, proper := Outcome(v, p, target, options, copies), (target > 0 || target == -1) && options == 0;
            && (r.Invalid? <==> !proper)
            && (r.NoChild? <==> proper && forall c :: IsChild(v.procs, p, c) ==> target != -1 && target != c)
            && (r.Sleeps? <==>
                  && proper && !Heard(v.procs, p, target)
                  && exists c :: IsChild(v.procs, p, c) && (target == -1 || target == c))
            && (r.Fault? <==> proper && Heard(v.procs, p, target) && !copies)
            && (r.Done? <==> proper && Heard(v.procs, p, target) && copies)
            && (r.Done? ==>
                  && In(v.procs, r.child, REAPABLE) && IsChild(v.procs, p, r.child)
                  && r.status == v.procs[r.child].status
                  && if target == -1 then IsFirstReapable(v.procs, p, r.child) else r.child == target)
  {
    hide Inv, Found;
    if ValidTarget(target) {
      FoundMeans(v, p, target);
      var c := Found(v.procs, v.procs[p].children, target);
      if target == -1 {
        FoundFirst(v, p);
      } else {
        FoundThat(v.procs, v.procs[p].children, target);
      }
      assert c != 0 && In(v.procs, c, REAPABLE) ==> Heard(v.procs, p, target);
      assert Heard(v.procs, p, target) ==> c != 0 && In(v.procs, c, REAPABLE);
    }
  }

  lemma FoundThat(procs: map<Pid, Proc>, children: seq<Pid>, target: int)
    requires target != -1
    ensures var c := Found(procs, children, target); c == 0 || c == target
  {
  }

  lemma FoundFirst(v: View, p: Pid)
    requires Inv(v) && p in v.procs
    ensures var c := Found(v.procs, v.procs[p].children, -1);
            In(v.procs, c, REAPABLE) ==> IsFirstReapable(v.procs, p, c)
  {
    hide TreeOk, RecordsOk, Distinct;
    var children := v.procs[p].children;
    assert !IsChild(v.procs, p, 0);
    FirstReapableMeans(v.procs, children);
    if FirstReapable(v.procs, children) != 0 {
      var i := FirstReapableComes(v.procs, children);
    }
  }

  lemma SleepKeeps(v: View, p: Pid, target: int)
    requires Inv(v) && In(v.procs, p, RUNNING) && p !in v.asleep && AwaitsChild(v.procs, p, target)
    requires forall x :: IsChild(v.procs, p, x) && Matches(target, x) ==> !In(v.procs, x, REAPABLE)
    ensures var w := v.(asleep := v.asleep[p := target]); Inv(w) && NoNewMiss(v, w)
  {
    hide IsChild, Parent, In, Distinct;
    var w := v.(asleep := v.asleep[p := target]);
    forall q, c ensures Misses(w, q, c) ==> Misses(v, q, c) { }
  }

  lemma WaitKeeps(v: View, p: Pid, target: int, options: nat, copies: bool)
    requires Inv(v) && In(v.procs, p, RUNNING) && p !in v.asleep
    ensures Inv(Waited(v, p, target, options, copies)) && NoNewMiss(v, Waited(v, p, target, options, copies))
  {
    hide Inv, Found, Consumed, Misses;
    var outcome := Outcome(v, p, target, options, copies);
    if ValidTarget(target) {
      FoundMeans(v, p, target);
      if outcome.Done? {
        ConsumeKeeps(v, p, outcome.child);
      } else if outcome.Sleeps? {
        SleepKeeps(v, p, target);
      }
    }
  }

  // ----- runs

  datatype Event =
    | Fork(parent: Pid)
    | ForkFails(numbered: bool)
    | Wait(waiter: Pid, target: int, options: nat, copies: bool, answer: WaitOutcome)
    | Exit(leaver: Pid, status: int)
    | ThreadGone(gone: Pid)

  /** One step of the family. */
  ghost predicate Next(v: View, e: Event, w: View) {
    match e
    case Fork(p) => In(v.procs, p, RUNNING) && p !in v.asleep && w == Forked(v, p)
    case ForkFails(numbered) => w == ForkFailed(v, numbered)
    case Wait(p, target, options, copies, answer) =>
      && In(v.procs, p, RUNNING) && p !in v.asleep
      && answer == Outcome(v, p, target, options, copies) && w == Waited(v, p, target, options, copies)
    case Exit(p, status) => In(v.procs, p, RUNNING) && p !in v.asleep && w == Exited(v, p, status)
    case ThreadGone(p) => In(v.procs, p, ZOMBIE) && w == Reaped(v, p)
  }

  /** A step keeps the family sound exactly when it does not leave children to a dying
      adopter; and it loses an exit exactly when it leaves a reapable orphan to a
      sleeping one. Whatever was lost before, nobody else ever sleeps past a child. */
  lemma StepKeeps(v: View, e: Event, w: View)
    requires Inv(v) && Next(v, e, w)
    ensures Inv(w) <==> !(e.Exit? && Doomed(v, e.leaver))
    ensures NoLostExit(v) ==> (NoLostExit(w) <==> !(e.Exit? && LeavesOrphan(v, e.leaver)))
    ensures OnlyFirst(v) ==> OnlyFirst(w)
  {
    hide Inv, Waited, Forked, Exited, Reaped, Misses, LeavesOrphan, Doomed;
    match e
    case Fork(p) => ForkKeeps(v, p);
    case ForkFails(numbered) => FailKeeps(v, numbered);
    case Wait(p, target, options, copies, _) => WaitKeeps(v, p, target, options, copies);
    case Exit(p, status) => ExitKeeps(v, p, status);
    case ThreadGone(p) => ReapKeeps(v, p);
  }

  lemma FailKeeps(v: View, numbered: bool)
    requires Inv(v)
    ensures Inv(ForkFailed(v, numbered)) && NoNewMiss(v, ForkFailed(v, numbered))
  {
    hide IsChild, Parent, In, Distinct;
    forall p, c ensures Misses(ForkFailed(v, numbered), p, c) ==> Misses(v, p, c) { }
  }

  /** A miss lasts at most until the thread of another child of the sleeper is gone. */
  lemma MissEnds(v: View, c: Pid, w: View, p: Pid, x: Pid)
    requires Inv(v) && Next(v, ThreadGone(c), w) && Misses(v, p, x) && IsChild(v.procs, p, c)
    ensures p !in w.asleep && !Misses(w, p, x)
  {
    hide Reaped, Distinct;
    ReapShape(v, c);
  }

  ghost predicate Run(views: seq<View>, events: seq<Event>) {
    && |views| == |events| + 1
    && forall i :: 0 <= i < |events| ==> Next(views[i], events[i], views[i + 1])
  }

  ghost predicate NoOrphans(views: seq<View>, events: seq<Event>)
    requires |views| == |events| + 1
  {
    forall i :: 0 <= i < |events| && events[i].Exit? ==> !LeavesOrphan(views[i], events[i].leaver)
  }

  ghost predicate NoneDoomed(views: seq<View>, events: seq<Event>)
    requires |views| == |events| + 1
  {
    forall i :: 0 <= i < |events| && events[i].Exit? ==> !Doomed(views[i], events[i].leaver)
  }

  /** While the first process runs, no exit is doomed, so the family is sound at every
      moment of every run up to its exit. */
  lemma NoneDoomedYet(views: seq<View>, events: seq<Event>)
    requires Run(views, events) && forall i :: 0 <= i < |events| ==> In(views[i].procs, views[i].init, RUNNING)
    ensures NoneDoomed(views, events)
  {
    hide Next;
  }

  /** The family is sound at every moment of every run in which nothing is left to a
      dying adopter: nobody but the first process, in waitpid(-1), ever sleeps past a
      reapable child, and nobody at all in a run without reapable orphans. */
  lemma {:induction false} RunKeeps(views: seq<View>, events: seq<Event>, n: nat)
    requires Run(views, events) && NoneDoomed(views, events) && Inv(views[0]) && n < |views|
    ensures Inv(views[n])
    ensures OnlyFirst(views[0]) ==> OnlyFirst(views[n])
    ensures NoLostExit(views[0]) && NoOrphans(views, events) ==> NoLostExit(views[n])
    decreases n
  {
    hide Inv, Next, NoLostExit, OnlyFirst, LeavesOrphan, Doomed;
    if n > 0 {
      RunKeeps(views, events, n - 1);
      StepKeeps(views[n - 1], events[n - 1], views[n]);
    }
  }

  function Rank(s: State): nat {
    match s
    case RUNNING => 0
    case ZOMBIE => 1
    case REAPABLE => 2
  }

  /** A record lives on, one state further at most, or it was dead and is now freed. */
  predicate Advances(v: View, w: View, p: Pid) {
    if p in w.procs then p in v.procs && Rank(v.procs[p].state) <= Rank(w.procs[p].state) <= Rank(v.procs[p].state) + 1
    else p in v.procs && v.procs[p].state != RUNNING && p !in w.owners && p in w.freed
  }

  lemma StepAdvances(v: View, e: Event, w: View, p: Pid)
    requires Inv(v) && Next(v, e, w) && p in v.procs
    ensures Advances(v, w, p) && v.freed <= w.freed && v.next <= w.next
  {
    hide Inv, Distinct, Without, Found, Exited;
    BelowNext(v, p);
    match e
    case Fork(parent) =>
    case ForkFails(numbered) =>
    case Wait(waiter, target, options, copies, _) =>
      if ValidTarget(target) { FoundMeans(v, waiter, target); }
    case Exit(leaver, status) => ExitAdvances(v, leaver, status, p);
    case ThreadGone(gone) =>
  }

  lemma ExitAdvances(v: View, leaver: Pid, status: int, p: Pid)
    requires Inv(v) && In(v.procs, leaver, RUNNING) && leaver !in v.asleep && p in v.procs
    ensures leaver in v.procs && var w := Exited(v, leaver, status);
            Advances(v, w, p) && v.freed <= w.freed && w.next == v.next
  {
    hide LinksOk, TreeOk, Distinct, Reapables;
    var procs := v.procs[leaver := v.procs[leaver].(state := ZOMBIE, status := status)];
    var kids := procs[leaver].children;
    assert kids[..|kids|] == kids;
    ReapablesAre(procs, kids);
  }

  lemma BelowNext(v: View, p: Pid)
    requires Inv(v) && p in v.procs
    ensures p < v.next && (p in v.owners ==> v.procs[p].state != REAPABLE)
  {
  }

  /** Along every run the states of a process only go forward, and its record is
      freed at most once: it is in the table until it stands in the record. */
  lemma {:induction false} RunAdvances(views: seq<View>, events: seq<Event>, p: Pid, n: nat)
    requires Run(views, events) && NoneDoomed(views, events) && Inv(views[0]) && n < |views| && p in views[0].procs
    ensures p in views[n].procs <==> p !in views[n].freed
    ensures p in views[n].procs ==> Rank(views[0].procs[p].state) <= Rank(views[n].procs[p].state)
    ensures Distinct(views[n].freed)
    decreases n
  {
    hide Next, LinksOk, TreeOk, Distinct, NoneDoomed;
    RunKeeps(views, events, n);
    if n > 0 {
      RunAdvances(views, events, p, n - 1);
      RunKeeps(views, events, n - 1);
      if p in views[n - 1].procs {
        StepAdvances(views[n - 1], events[n - 1], views[n], p);
      } else {
        StaysFreed(views[n - 1], events[n - 1], views[n], p);
      }
    }
  }

  lemma StaysFreed(v: View, e: Event, w: View, p: Pid)
    requires Inv(v) && Next(v, e, w) && p in v.freed
    ensures p in w.freed
  {
    hide LinksOk, TreeOk, Distinct, Without, Found;
  }

  /** The first process alone. */
  function First(): View {
    View(map[1 := Proc(0, [], RUNNING, 0)], 1, 2, map[], {1}, [])
  }

  lemma FirstSound()
    ensures Inv(First()) && NoLostExit(First()) && OnlyFirst(First())
  {
    assert forall p, c :: !IsChild(First().procs, p, c);
  }

  /** A chain of processes, each the child of the one before. */
  function Two(): View {
    View(map[1 := Proc(0, [2], RUNNING, 0), 2 := Proc(1, [], RUNNING, 0)], 1, 3, map[], {1, 2}, [])
  }

  function Three(): View {
    View(map[1 := Proc(0, [2], RUNNING, 0), 2 := Proc(1, [3], RUNNING, 0), 3 := Proc(2, [], RUNNING, 0)], 1, 4, map[],
         {1, 2, 3}, [])
  }

  function Four(last: State, status: int, owners: set<Pid>, asleep: map<Pid, int>): View {
    View(map[1 := Proc(0, [2], RUNNING, 0), 2 := Proc(1, [3], RUNNING, 0), 3 := Proc(2, [4], RUNNING, 0),
             4 := Proc(3, [], last, status)],
         1, 5, asleep, owners, [])
  }

  lemma ChainGrows()
    ensures Forked(First(), 1) == Two() && Forked(Two(), 2) == Three()
            && Forked(Three(), 3) == Four(RUNNING, 0, {1, 2, 3, 4}, map[])
  {
    var none: seq<Pid> := [];
    assert none + [2] == [2] && none + [3] == [3] && none + [4] == [4];
    assert Forked(First(), 1).procs == Two().procs;
    assert Forked(Two(), 2).procs == Three().procs;
    assert Forked(Three(), 3).procs == Four(RUNNING, 0, {1, 2, 3, 4}, map[]).procs;
  }

  /** The grandchild has been left to the first process. */
  function Left(leaver: State, owners: set<Pid>): View {
    View(map[1 := Proc(0, [2, 4], RUNNING, 0), 2 := Proc(1, [3], RUNNING, 0), 3 := Proc(2, [], leaver, 0),
             4 := Proc(1, [], REAPABLE, 7)],
         1, 5, map[1 := -1], owners, [])
  }

  lemma LastDies()
    ensures Exited(Four(RUNNING, 0, {1, 2, 3, 4}, map[]), 4, 7) == Four(ZOMBIE, 7, {1, 2, 3, 4}, map[])
    ensures Reaped(Four(ZOMBIE, 7, {1, 2, 3, 4}, map[]), 4) == Four(REAPABLE, 7, {1, 2, 3}, map[])
  {
    var none: seq<Pid> := [];
    assert none[..0] == none && none[0..] == none && [2] + none == [2];
    assert Exited(Four(RUNNING, 0, {1, 2, 3, 4}, map[]), 4, 7).procs == Four(ZOMBIE, 7, {1, 2, 3, 4}, map[]).procs;
    assert Reaped(Four(ZOMBIE, 7, {1, 2, 3, 4}, map[]), 4).asleep == map[];
  }

  lemma FirstSleeps()
    ensures Waited(Four(REAPABLE, 7, {1, 2, 3}, map[]), 1, -1, 0, true) == Four(REAPABLE, 7, {1, 2, 3}, map[1 := -1])
    ensures Outcome(Four(REAPABLE, 7, {1, 2, 3}, map[]), 1, -1, 0, true) == Sleeps
  {
    var v := Four(REAPABLE, 7, {1, 2, 3}, map[]);
    assert FirstReapable(v.procs, [2]) == 0;
  }

  lemma ThirdLeaves()
    ensures Exited(Four(REAPABLE, 7, {1, 2, 3}, map[1 := -1]), 3, 0) == Left(ZOMBIE, {1, 2, 3})
    ensures Reaped(Left(ZOMBIE, {1, 2, 3}), 3) == Left(REAPABLE, {1, 2})
  {
    var one: seq<Pid> := [4];
    assert one[..1] == [4] && one[1..] == [] && [2] + one == [2, 4];
    assert Exited(Four(REAPABLE, 7, {1, 2, 3}, map[1 := -1]), 3, 0).procs == Left(ZOMBIE, {1, 2, 3}).procs;
    assert Reaped(Left(ZOMBIE, {1, 2, 3}), 3).asleep == map[1 := -1];
  }

  /** A run that loses an exit: a grandchild is left to the first process while that one
      sleeps in waitpid(-1), and it sleeps on after the leaver itself is gone. */
  lemma OrphanRun() returns (views: seq<View>, events: seq<Event>)
    ensures |events| == 8 && Run(views, events) && views[0] == First() && events[6] == Exit(3, 0)
            && LeavesOrphan(views[6], 3)
    ensures Misses(views[7], 1, 4) && Misses(views[8], 1, 4) && 3 !in views[8].owners
  {
    hide Forked, Exited, Reaped, Waited, Outcome;
    ChainGrows();
    LastDies();
    FirstSleeps();
    ThirdLeaves();
    var asleep := Four(REAPABLE, 7, {1, 2, 3}, map[1 := -1]);
    views := [First(), Two(), Three(), Four(RUNNING, 0, {1, 2, 3, 4}, map[]), Four(ZOMBIE, 7, {1, 2, 3, 4}, map[]),
              Four(REAPABLE, 7, {1, 2, 3}, map[]), asleep, Left(ZOMBIE, {1, 2, 3}), Left(REAPABLE, {1, 2})];
    events := [Fork(1), Fork(2), Fork(3), Exit(4, 7), ThreadGone(4), Wait(1, -1, 0, true, Sleeps), Exit(3, 0),
               ThreadGone(3)];
    assert IsChild(asleep.procs, 3, 4) && In(asleep.procs, 4, REAPABLE);
  }

  function Headless(): View {
    View(map[1 := Proc(0, [], ZOMBIE, 0), 2 := Proc(0, [3], RUNNING, 0), 3 := Proc(2, [], RUNNING, 0)], 1, 4, map[],
         {1, 2, 3}, [])
  }

  function Adopted(): View {
    View(map[1 := Proc(0, [3], ZOMBIE, 0), 2 := Proc(0, [], ZOMBIE, 0), 3 := Proc(1, [], RUNNING, 0)], 1, 4, map[],
         {1, 2, 3}, [])
  }

  lemma HeadLeaves()
    ensures Exited(Three(), 1, 0) == Headless() && Exited(Headless(), 2, 0) == Adopted()
  {
    var none: seq<Pid>, one: seq<Pid>, two: seq<Pid> := [], [3], [2];
    assert one[..1] == [3] && one[1..] == [] && none + one == [3];
    assert two[..1] == [2] && two[1..] == [] && two[..0] == [];
    var start := Three().procs[1 := Proc(0, [2], ZOMBIE, 0)];
    assert Reapables(start, two) == Reapables(start, none) + none;
    assert Exited(Three(), 1, 0).procs == Headless().procs;
    assert Exited(Headless(), 2, 0).procs == Adopted().procs;
  }

  /** A run that leaves a dangling parent: the first process exits, its orphan exits
      before its thread is gone, and the record the grandchild points at is freed. */
  lemma DoomedRun() returns (views: seq<View>, events: seq<Event>)
    ensures |events| == 5 && Run(views, events) && views[0] == First() && events[3] == Exit(2, 0) && Doomed(views[3], 2)
    ensures In(views[5].procs, 3, RUNNING) && Parent(views[5].procs, 3) == 1 && 1 !in views[5].procs
            && 1 in views[5].freed
  {
    hide Forked, Exited, Waited;
    ChainGrows();
    HeadLeaves();
    views := [First(), Two(), Three(), Headless(), Adopted(), Reaped(Adopted(), 1)];
    events := [Fork(1), Fork(2), Exit(1, 0), Exit(2, 0), ThreadGone(1)];
  }

  // ----- the family in place

  class Processes {
    var procs: map<Pid, Proc>
    var init: Pid
    var next: Pid
    var asleep: map<Pid, int>
    var owners: set<Pid>
    ghost var freed: seq<Pid>

    ghost function V(): View
      reads this
    {
      View(procs, init, next, asleep, owners, freed)
    }

    /** The first process alone. */
    constructor ()
      ensures V() == First() && Inv(V()) && NoLostExit(V()) && OnlyFirst(V())
    {
      procs, init, next, asleep, owners, freed := map[1 := Proc(0, [], RUNNING, 0)], 1, 2, map[], {1}, [];
      new;
      FirstSound();
    }

    /** Walks the child list. */
    method FindChild(parent: Pid, target: int) returns (child: Pid)
      requires Inv(V()) && parent in procs
      ensures child == Found(procs, procs[parent].children, target)
      ensures target > 0 ==> if target in procs[parent].children then child == target else child == 0
      ensures target == -1 && child != 0 ==>
                if In(procs, child, REAPABLE) then IsFirstReapable(procs, parent, child)
                else child == procs[parent].children[0] && !Heard(procs, parent, -1)
      ensures target == -1 && child == 0 ==> procs[parent].children == []
    {
      hide Inv, FirstReapable;
      ChildrenNonzero(V(), parent);
      FoundFirst(V(), parent);
      FoundMeans(V(), parent, -1);
      var children, first, i := procs[parent].children, 0, 0;
      assert children[0..] == children;
      while i < |children|
        invariant 0 <= i <= |children|
        invariant target != -1 ==> target !in children[..i] && first == 0
        invariant target == -1 ==> FirstReapable(procs, children) == FirstReapable(procs, children[i..])
        invariant target == -1 ==> first == if i == 0 then 0 else children[0]
      {
        var entry := children[i];
        assert children[..i + 1] == children[..i] + [entry];
        ReapableStep(procs, children, i);
        if target != -1 && target == entry {
          return entry;
        }
        if target == -1 {
          ChildListed(V(), parent, i);
          if procs[entry].state == REAPABLE {
            return entry;
          }
          if first == 0 {
            first := entry;
          }
        }
        i := i + 1;
      }
      assert children[..i] == children && children[i..] == [];
      ReapableNone(procs);
      return first;
    }

    /** One turn of waitpid. A status that cannot be copied out leaves the child as it was. */
    method WaitTurn(p: Pid, target: int, options: nat, copies: bool) returns (outcome: WaitOutcome)
      requires Inv(V()) && In(procs, p, RUNNING) && p !in asleep
      modifies this`procs, this`asleep, this`freed
      ensures outcome == Outcome(old(V()), p, target, options, copies)
              && V() == Waited(old(V()), p, target, options, copies)
      ensures Inv(V()) && NoNewMiss(old(V()), V())
      ensures var proper := (target > 0 || target == -1) && options == 0;
              && (outcome.Invalid? <==> !proper)
              && (outcome.NoChild? <==>
                    proper && forall c :: IsChild(old(procs), p, c) ==> target != -1 && target != c)
              && (outcome.Sleeps? <==>
                    && proper && !Heard(old(procs), p, target)
                    && exists c :: IsChild(old(procs), p, c) && (target == -1 || target == c))
              && (outcome.Fault? <==> proper && Heard(old(procs), p, target) && !copies)
              && (outcome.Done? <==> proper && Heard(old(procs), p, target) && copies)
      ensures outcome.Done? ==>
                && In(old(procs), outcome.child, REAPABLE) && IsChild(old(procs), p, outcome.child)
                && outcome.status == old(procs)[outcome.child].status
                && (if target == -1 then IsFirstReapable(old(procs), p, outcome.child) else outcome.child == target)
                && procs.Keys == old(procs).Keys - {outcome.child}
                && (forall q :: q in procs && q != p ==> procs[q] == old(procs)[q])
                && procs[p] == old(procs)[p].(children := procs[p].children)
                && Cuts(old(procs)[p].children, outcome.child, procs[p].children)
      ensures !outcome.Done? ==> procs == old(procs) && freed == old(freed)
    {
      hide Inv, Misses, Found, Heard, IsFirstReapable;
      WaitKeeps(V(), p, target, options, copies);
      AnswersExactly(V(), p, target, options, copies);
      ChildrenDistinct(V(), p);
      if (target <= 0 && target != -1) || options != 0 {
        return Invalid;
      }
      FoundMeans(V(), p, target);
      var child := FindChild(p, target);
      if child == 0 {
        return NoChild;
      }
      if procs[child].state == REAPABLE {
        var status := procs[child].status;
        if !copies {
          return Fault;
        }
        WithoutCuts(procs[p].children, child);
        procs := procs[p := procs[p].(children := Without(procs[p].children, child))] - {child};
        freed := freed + [child];
        return Done(child, status);
      }
      asleep := asleep[p := target];
      return Sleeps;
    }

    /** Fork; `made` says whether the child's record could be had, `built` whether
        everything else could. */
    method Fork(parent: Pid, made: bool, built: bool) returns (child: Pid)
      requires Inv(V()) && In(procs, parent, RUNNING) && parent !in asleep
      modifies this`procs, this`next, this`owners
      ensures child == if made && built then old(next) else 0
      ensures V() == if made && built then Forked(old(V()), parent) else ForkFailed(old(V()), made)
      ensures if made && built then
                && child !in old(procs) && procs.Keys == old(procs).Keys + {child} && owners == old(owners) + {child}
                && procs[child] == Proc(parent, [], RUNNING, 0)
                && procs[parent] == old(procs)[parent].(children := old(procs)[parent].children + [child])
                && forall q :: q in old(procs) && q != parent ==> procs[q] == old(procs)[q]
              else procs == old(procs) && owners == old(owners)
      ensures next == if made then old(next) + 1 else old(next)
      ensures Inv(V()) && NoNewMiss(old(V()), V())
    {
      hide Inv, Misses;
      ForkKeeps(V(), parent);
      ForkUnique(V(), parent);
      FailKeeps(V(), made);
      if !made {
        return 0;
      }
      child := next;
      next := next + 1;
      if !built {
        return 0;
      }
      procs := procs[parent := procs[parent].(children := procs[parent].children + [child])]
                    [child := Proc(parent, [], RUNNING, 0)];
      owners := owners + {child};
    }

    /** Exit: the first process adopts every child, in order; without it the children
        have no parent, and those that nobody will wait for are freed. */
    method Leave(p: Pid, status: int)
      requires Inv(V()) && In(procs, p, RUNNING) && p !in asleep
      modifies this`procs, this`freed
      ensures V() == Exited(old(V()), p, status)
      ensures p in procs && procs[p].state == ZOMBIE && procs[p].status == status && procs[p].children == []
      ensures forall q :: q in procs && q != p ==> q in old(procs) && SameLife(old(procs)[q], procs[q])
      ensures Inv(V()) <==> !Doomed(old(V()), p)
      ensures NoLostExit(old(V())) ==> (NoLostExit(V()) <==> !LeavesOrphan(old(V()), p))
      ensures OnlyFirst(old(V())) ==> OnlyFirst(V())
    {
      hide Inv, Misses, LeavesOrphan, Moved, Released, Reapables, Doomed;
      ghost var v := V();
      ExitKeeps(v, p, status);
      FamilyParts(v, p);
      procs := procs[p := procs[p].(state := ZOMBIE, status := status)];
      ghost var start := procs;
      NoneLeft(start, p, init);
      ghost var k := 0;
      while procs[p].children != []
        invariant 0 <= k <= |start[p].children| && p in procs && |procs[p].children| == |start[p].children| - k
        invariant Adopts(v, p) ==> procs == Moved(start, p, init, k) && freed == v.freed
        invariant !Adopts(v, p) ==>
                    procs == Released(start, p, k) && freed == v.freed + Reapables(start, start[p].children[..k])
        decreases |procs[p].children|
      {
        if Adopts(v, p) {
          MovedMore(start, p, init, k);
        } else {
          ReleasedMore(start, p, k);
          ReapablesMore(start, start[p].children, k);
        }
        var child := procs[p].children[0];
        procs := procs[p := procs[p].(children := procs[p].children[1..])];
        procs := procs[child := procs[child].(parent := 0)];
        if init != 0 && init != p {
          procs := procs[child := procs[child].(parent := init)]
                        [init := procs[init].(children := procs[init].children + [child])];
        } else if procs[child].state == REAPABLE {
          procs := procs - {child};
          freed := freed + [child];
        }
        k := k + 1;
      }
      assert start[p].children[..k] == start[p].children;
      LivesMoved(start, p, init, k);
    }

    /** The scheduler has let go of the dead thread. The kernel itself hears from the first process. */
    method ThreadReaped(p: Pid) returns (result: Option<int>)
      requires Inv(V()) && In(procs, p, ZOMBIE)
      modifies this`procs, this`owners, this`asleep, this`init, this`freed
      ensures V() == Reaped(old(V()), p) && Inv(V()) && NoNewMiss(old(V()), V())
      ensures result == if p == old(init) then Some(old(procs)[p].status) else None
      ensures forall q :: q in procs && q != p ==> procs[q] == old(procs)[q]
      ensures p in procs ==> procs[p] == old(procs)[p].(state := REAPABLE) && old(procs)[p].parent !in asleep
      ensures p in procs <==> p != old(init) && old(procs)[p].parent != 0
    {
      hide Inv, Misses;
      ReapKeeps(V(), p);
      FamilyParts(V(), p);
      owners := owners - {p};
      assert procs[p := procs[p].(state := REAPABLE)] - {p} == procs - {p};
      procs := procs[p := procs[p].(state := REAPABLE)];
      if procs[p].parent != 0 {
        asleep := asleep - {procs[p].parent};
      }
      if p != init {
        if procs[p].parent == 0 {
          procs := procs - {p};
          freed := freed + [p];
        }
        return None;
      }
      result := Some(procs[p].status);
      init := 0;
      procs := procs - {p};
      freed := freed + [p];
    }
  }

  lemma ReapableStep(procs: map<Pid, Proc>, children: seq<Pid>, i: nat)
    requires i < |children|
    ensures FirstReapable(procs, children[i..]) ==
            if children[i] in procs && procs[children[i]].state == REAPABLE then children[i]
            else FirstReapable(procs, children[i + 1..])
  {
    assert children[i..][0] == children[i] && children[i..][1..] == children[i + 1..];
  }

  lemma ReapableNone(procs: map<Pid, Proc>)
    ensures FirstReapable(procs, []) == 0
  {
  }

  lemma ChildrenDistinct(v: View, p: Pid)
    requires Inv(v) && p in v.procs
    ensures Distinct(v.procs[p].children)
  {
  }

  lemma ChildrenNonzero(v: View, p: Pid)
    requires Inv(v) && p in v.procs
    ensures 0 !in v.procs[p].children
  {
    assert !IsChild(v.procs, p, 0);
  }

  lemma ChildListed(v: View, p: Pid, i: nat)
    requires Inv(v) && p in v.procs && i < |v.procs[p].children|
    ensures v.procs[p].children[i] in v.procs
  {
    assert IsChild(v.procs, p, v.procs[p].children[i]);
  }

  /** What a process left behind, whoever its parent is now. */
  predicate SameLife(a: Proc, b: Proc) {
    a.state == b.state && a.status == b.status
  }

  /** Handing on or releasing children changes nobody's state or status. */
  lemma LivesMoved(procs: map<Pid, Proc>, p: Pid, init: Pid, k: nat)
    requires p in procs && k <= |procs[p].children|
    ensures p in Released(procs, p, k) || In(procs, p, REAPABLE)
    ensures forall q :: q in Released(procs, p, k) ==> q in procs && SameLife(procs[q], Released(procs, p, k)[q])
    ensures init in procs ==>
              Moved(procs, p, init, k).Keys == procs.Keys
              && forall q :: q in procs ==> SameLife(procs[q], Moved(procs, p, init, k)[q])
  {
  }

  lemma FamilyParts(v: View, p: Pid)
    requires Inv(v) && p in v.procs
    ensures p != 0 && (v.init != 0 ==> v.init in v.procs && v.procs[v.init].parent == 0)
    ensures Distinct(v.procs[p].children)
    ensures forall c :: c in v.procs[p].children ==> c in v.procs && c != p && c != v.init
  {
    forall c | c in v.procs[p].children ensures c in v.procs && c != p && c != v.init {
      assert IsChild(v.procs, p, c);
      NoSelfChild(v, p);
    }
    InitState(v);
  }

  lemma NoneLeft(procs: map<Pid, Proc>, p: Pid, init: Pid)
    requires p in procs
    ensures init in procs && p != init ==> Moved(procs, p, init, 0) == procs
    ensures Released(procs, p, 0) == procs && Reapables(procs, procs[p].children[..0]) == []
  {
    assert procs[p].children[0..] == procs[p].children;
    if init in procs {
      assert procs[init].children + [] == procs[init].children;
    }
  }

  lemma ReapablesMore(procs: map<Pid, Proc>, s: seq<Pid>, k: nat)
    requires k < |s|
    ensures Reapables(procs, s[..k + 1]) == Reapables(procs, s[..k]) + if In(procs, s[k], REAPABLE) then [s[k]] else []
  {
    assert s[..k + 1][..k] == s[..k];
  }

  /** Releasing one child more. */
  lemma ReleasedMore(procs: map<Pid, Proc>, p: Pid, k: nat)
    requires p in procs && k < |procs[p].children| && Distinct(procs[p].children)
    requires forall c :: c in procs[p].children ==> c in procs && c != p
    ensures var a := Released(procs, p, k);
            var c := procs[p].children[k];
            && p in a && c in a && |a[p].children| == |procs[p].children| - k && a[p].children[0] == c
            && a[c].state == procs[c].state
            && var b := a[p := a[p].(children := a[p].children[1..])];
            && c in b
            && var d := b[c := b[c].(parent := 0)];
            && Released(procs, p, k + 1) == if d[c].state == REAPABLE then d - {c} else d
  {
    var kids := procs[p].children;
    assert kids[k..][1..] == kids[k + 1..] && kids[..k + 1] == kids[..k] + [kids[k]] && kids[k] !in kids[..k];
  }

  /** Moving one child more. */
  lemma MovedMore(procs: map<Pid, Proc>, p: Pid, init: Pid, k: nat)
    requires p in procs && init in procs && p != init && k < |procs[p].children| && Distinct(procs[p].children)
    requires forall c :: c in procs[p].children ==> c in procs && c != p && c != init
    ensures var a := Moved(procs, p, init, k);
            var c := procs[p].children[k];
            && p in a && init in a && c in a && |a[p].children| == |procs[p].children| - k && a[p].children[0] == c
            && var b := a[p := a[p].(children := a[p].children[1..])];
            && c in b
            && var d := b[c := b[c].(parent := 0)];
            && Moved(procs, p, init, k + 1)
                 == d[c := d[c].(parent := init)][init := d[init].(children := d[init].children + [c])]
  {
    var kids := procs[p].children;
    assert kids[k..][1..] == kids[k + 1..] && kids[..k + 1] == kids[..k] + [kids[k]] && kids[k] !in kids[..k];
    assert procs[init].children + kids[..k] + [kids[k]] == procs[init].children + kids[..k + 1];
  }
}
