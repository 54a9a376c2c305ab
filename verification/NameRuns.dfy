/** Whole runs of namespace operations, and operations that undo each other. */
module NameRuns {
  import opened DirImage
  import opened DirChain
  import opened DirPages
  import opened DirWalk
  import opened LinkTree
  import opened LinkMoves
  import opened Namei
  import opened Renames

  // ----- Undoing

  lemma UnlinkUndoesLink(t: Tables, nlink: Links, d: nat, n: Name, i: nat)
    requires d in t && n !in t[d] && i in nlink
    ensures WithoutEntry(WithEntry(t, d, n, i), d, n) == t && Drop(Raise(nlink, i, 1), i, 1) == nlink
  {
    var t1 := WithEntry(t, d, n, i);
    assert WithoutEntry(t1, d, n)[d] == t[d];
  }

  lemma RmdirUndoesMkdir(t: Tables, nlink: Links, d: nat, n: Name, i: nat)
    requires d in t && n !in t[d] && i !in t && d in nlink && i !in nlink
    ensures WithoutDir(WithDir(t, d, n, i), d, n, i) == t
    ensures var left := WithoutDirLinks(WithDirLinks(nlink, d, i), d, i); left - {i} == nlink && LinksOf(left, i) == 0
  {
    DirLinksBack(nlink, d, i);
    hide WithDirLinks, WithoutDirLinks, EmptyDirTable;
    var t1 := WithDir(t, d, n, i);
    assert WithoutDir(t1, d, n, i)[d] == t[d];
  }

  lemma DirLinksBack(nlink: Links, d: nat, i: nat)
    requires d in nlink && i !in nlink
    ensures var left := WithoutDirLinks(WithDirLinks(nlink, d, i), d, i); left - {i} == nlink && LinksOf(left, i) == 0
  {
  }

  /** The rename that leads back. */
  function Back(a: RenameArgs): RenameArgs { RenameArgs(a.nd, a.nn, a.od, a.on, a.ino, None) }

  lemma RenameBack(t: Tables, root: nat, depth: Links, nlink: Links, a: RenameArgs)
    requires Treelike(t, root, depth) && LinksCounted(t, nlink) && CanRename(t, root, depth, a) && a.target.None?
    ensures a.od in RenamedTree(t, a) && a.nd in RenamedTree(t, a) && RenamedTree(RenamedTree(t, a), Back(a)) == t
    ensures RenamedLinks(RenamedLinks(nlink, a.ino in t, a), a.ino in t, Back(a)) == nlink
  {
    hide Treelike, LinksCounted, Under, Drop, Raise, Renamed, WithEntry;
    RenamedKeys(t, a);
    RenamedBack(t, a.od, a.on, a.nd, a.nn, a.ino);
    if a.ino in t {
      HangsFrom(t, root, depth, a.od, a.on, a.ino);
      ParentHasLinks(t, root, depth, nlink, a.od, a.on, a.ino);
      MovedBack(t, a.od, a.on, a.nd, a.nn, a.ino);
      HasCount(t, nlink, a.nd);
      LinksBack(nlink, a.od, a.nd);
    }
  }

  lemma RenamedBack(t: Tables, od: nat, on: Name, nd: nat, nn: Name, i: nat)
    requires od in t && nd in t && on in t[od] && t[od][on] == i && nn !in t[nd]
    ensures var t' := Renamed(t, od, on, nd, nn, i); od in t' && nd in t' && Renamed(t', nd, nn, od, on, i) == t
  {
    var back := Renamed(Renamed(t, od, on, nd, nn, i), nd, nn, od, on, i);
    assert back[od] == t[od];
    assert back[nd] == t[nd];
  }

  lemma MovedBack(t: Tables, od: nat, on: Name, nd: nat, nn: Name, i: nat)
    requires od in t && nd in t && on in t[od] && t[od][on] == i && nn !in t[nd] && !IsDots(on) && !IsDots(nn)
    requires i in t && DOTDOT in t[i] && t[i][DOTDOT] == od
    ensures var t' := Moved(t, od, on, nd, nn, i); od in t' && nd in t' && i in t' && Moved(t', nd, nn, od, on, i) == t
  {
    var x := Renamed(t, od, on, nd, nn, i);
    assert x.Keys == t.Keys;
    Commutes(x, od, on, i, i, DOTDOT, nd);
    assert WithEntry(WithEntry(x, od, on, i), i, DOTDOT, nd) == WithEntry(WithEntry(x, i, DOTDOT, nd), od, on, i);
    CommutesOut(WithEntry(x, od, on, i), nd, nn, i, DOTDOT, nd);
    RenamedBack(t, od, on, nd, nn, i);
    Restored(t, i, DOTDOT, nd);
  }

  lemma Commutes(t: Tables, d: nat, n: Name, i: nat, e: nat, m: Name, j: nat)
    requires d in t && e in t && n != m
    ensures WithEntry(WithEntry(t, d, n, i), e, m, j) == WithEntry(WithEntry(t, e, m, j), d, n, i)
  {
    var x: map<Name, nat>, y: map<Name, nat> := t[d][n := i], t[e][m := j];
    if d == e {
      var xy: map<Name, nat> := x[m := j];
      assert xy == y[n := i];
      TwoKeys(t, d, x, d, xy);
      TwoKeys(t, d, y, d, xy);
    } else {
      TwoKeys(t, d, x, e, y);
    }
  }

  lemma TwoKeys(t: Tables, d: nat, x: map<Name, nat>, e: nat, y: map<Name, nat>)
    ensures t[d := x][e := y] == if d == e then t[d := y] else t[e := y][d := x]
  {
  }

  lemma CommutesOut(t: Tables, d: nat, n: Name, e: nat, m: Name, j: nat)
    requires d in t && e in t && n != m
    ensures WithoutEntry(WithEntry(t, e, m, j), d, n) == WithEntry(WithoutEntry(t, d, n), e, m, j)
  {
    var x: map<Name, nat>, y: map<Name, nat> := t[d] - {n}, t[e][m := j];
    if d == e {
      var xy: map<Name, nat> := x[m := j];
      assert xy == y - {n};
      TwoKeys(t, d, x, d, xy);
      TwoKeys(t, d, y, d, xy);
    } else {
      TwoKeys(t, d, x, e, y);
    }
  }

  lemma Restored(t: Tables, d: nat, n: Name, j: nat)
    requires d in t && n in t[d]
    ensures WithEntry(WithEntry(t, d, n, j), d, n, t[d][n]) == t
  {
    assert WithEntry(WithEntry(t, d, n, j), d, n, t[d][n])[d] == t[d];
  }

  lemma LinksBack(nlink: Links, od: nat, nd: nat)
    requires od in nlink && nlink[od] > 0 && nd in nlink
    ensures MovedLinks(MovedLinks(nlink, od, nd), nd, od) == nlink
  {
  }

  /** Onto a fresh name of the same directory, a rename exchanges one key of one table. */
  lemma RenameInPlace(t: Tables, root: nat, depth: Links, nlink: Links, a: RenameArgs)
    requires Treelike(t, root, depth) && LinksCounted(t, nlink) && CanRename(t, root, depth, a)
    requires a.target.None? && a.od == a.nd
    ensures var t' := RenamedTree(t, a);
            && t'.Keys == t.Keys && t'[a.od] == t[a.od][a.nn := a.ino] - {a.on}
            && forall d :: d in t && d != a.od ==> t'[d] == t[d]
    ensures RenamedLinks(nlink, a.ino in t, a) == nlink
  {
    hide Treelike, LinksCounted, Under;
    if a.ino in t {
      HangsFrom(t, root, depth, a.od, a.on, a.ino);
      ParentHasLinks(t, root, depth, nlink, a.od, a.on, a.ino);
      MovedInPlace(t, a.od, a.on, a.nd, a.nn, a.ino);
    }
    assert RenamedTree(t, a) == Renamed(t, a.od, a.on, a.nd, a.nn, a.ino);
  }

  // ----- Runs

  /** A call of one of the operations of namei.c; `ino` is what `ext2_new_inode` returns, and `prepared` whether
      `ext2_prepare_chunk` succeeds. */
  datatype Call =
    | Create(dir: nat, name: Name, ino: Option<nat>, prepared: bool)
    | Link(linked: nat, dir: nat, name: Name, prepared: bool)
    | Unlink(dir: nat, name: Name, victim: nat)
    | Mkdir(dir: nat, name: Name, ino: Option<nat>, prepareEmpty: bool, prepared: bool)
    | Rmdir(dir: nat, name: Name, victim: nat)
    | Rename(args: RenameArgs, prepared: bool)
    | Evict(victim: nat)

  datatype State = State(t: Tables, nlink: Links)

  /** What the VFS has checked before the call. */
  ghost predicate VfsOk(s: State, root: nat, maxIno: nat, c: Call)
  {
    match c
    case Create(d, n, ino, _) => Free(s.t, d, n) && UnusedNumber(s.nlink, maxIno, ino)
    case Link(i, d, n, _) => Free(s.t, d, n) && LinksOf(s.nlink, i) > 0 && i !in s.t
    case Unlink(d, n, i) => Leads(s.t, d, n, i) && i !in s.t
    case Mkdir(d, n, ino, _, _) => Free(s.t, d, n) && UnusedNumber(s.nlink, maxIno, ino)
    case Rmdir(d, n, i) => Leads(s.t, d, n, i) && i in s.t
    case Rename(a, _) =>
      && a.od in s.t && a.nd in s.t && (a.target.Some? && a.ino in s.t ==> a.target.value in s.t)
      && forall depth :: Treelike(s.t, root, depth) ==> VfsAllows(s.t, root, depth, a)
    case Evict(i) => i in s.nlink && s.nlink[i] == 0
  }

  predicate Free(t: Tables, d: nat, n: Name) { d in t && 1 <= |n| <= NAME_LEN_MAX && !IsDots(n) && n !in t[d] }

  predicate UnusedNumber(nlink: Links, maxIno: nat, ino: Option<nat>)
  {
    ino.Some? ==> 0 < ino.value <= maxIno && ino.value !in nlink
  }

  /** The name leads to `i`, if it exists. */
  predicate Leads(t: Tables, d: nat, n: Name, i: nat) { d in t && !IsDots(n) && (n in t[d] ==> t[d][n] == i) }

  /** What the call makes of tree and counts; where it fails, both are as before. */
  ghost function Outcome(s: State, root: nat, maxIno: nat, c: Call): State
    requires VfsOk(s, root, maxIno, c)
  {
    match c
    case Create(d, n, ino, ok) =>
      if ino.Some? && ok then State(WithEntry(s.t, d, n, ino.value), Raise(s.nlink, ino.value, 1)) else s
    case Link(i, d, n, ok) =>
      if ok then State(WithEntry(s.t, d, n, i), Raise(s.nlink, i, 1)) else s
    case Unlink(d, n, i) =>
      if n in s.t[d] then State(WithoutEntry(s.t, d, n), Drop(s.nlink, i, 1)) else s
    case Mkdir(d, n, ino, okEmpty, ok) =>
      if ino.Some? && okEmpty && ok
      then State(WithDir(s.t, d, n, ino.value), WithDirLinks(s.nlink, d, ino.value)) else s
    case Rmdir(d, n, i) =>
      if s.t[i].Keys == {DOT, DOTDOT} && n in s.t[d]
      then State(WithoutDir(s.t, d, n, i), WithoutDirLinks(s.nlink, d, i)) else s
    case Rename(a, ok) =>
      if RenameOutcome(s.t, a, ok).Done? && Apart(s.t, a)
      then State(RenamedTree(s.t, a), RenamedLinks(s.nlink, a.ino in s.t, a)) else s
    case Evict(i) => State(s.t, s.nlink - {i})
  }

  ghost predicate TreeOk(s: State, root: nat)
  {
    LinksCounted(s.t, s.nlink) && exists depth :: Treelike(s.t, root, depth)
  }

  lemma StepKeeps(s: State, root: nat, maxIno: nat, c: Call)
    requires TreeOk(s, root) && VfsOk(s, root, maxIno, c)
    ensures TreeOk(Outcome(s, root, maxIno, c), root)
  {
    hide Treelike, LinksCounted, WithEntry, WithoutEntry, WithDir, WithoutDir, Raise, Drop, WithDirLinks,
      WithoutDirLinks, RenamedTree, RenamedLinks, CanRename, VfsAllows, RenameOutcome, IsDots, Apart;
    var depth :| Treelike(s.t, root, depth);
    match c
    case Create(d, n, ino, ok) =>
      if ino.Some? && ok {
        Unnamed(s.t, s.nlink, ino.value);
        AddPlain(s.t, root, depth, d, n, ino.value);
        CountAdd(s.t, s.nlink, d, n, ino.value);
      }
    case Link(i, d, n, ok) =>
      if ok {
        AddPlain(s.t, root, depth, d, n, i);
        CountAdd(s.t, s.nlink, d, n, i);
      }
    case Unlink(d, n, i) =>
      if n in s.t[d] {
        RemovePlain(s.t, root, depth, d, n);
        CountRemove(s.t, s.nlink, d, n);
      }
    case Mkdir(d, n, ino, okEmpty, ok) =>
      if ino.Some? && okEmpty && ok {
        Unnamed(s.t, s.nlink, ino.value);
        HasDepth(s.t, root, depth, d);
        AddDir(s.t, root, depth, d, n, ino.value);
        CountAddDir(s.t, s.nlink, d, n, ino.value);
      }
    case Rmdir(d, n, i) =>
      if s.t[i].Keys == {DOT, DOTDOT} && n in s.t[d] { RmdirKeeps(s.t, root, depth, s.nlink, d, n, i); }
    case Rename(a, ok) =>
      if RenameOutcome(s.t, a, ok).Done? && Apart(s.t, a) {
        Allowed(s.t, root, depth, a, ok);
        if a.ino in s.t {
          var depth' := RenameKeepsDir(s.t, root, depth, s.nlink, a);
        } else {
          RenameKeepsPlain(s.t, root, depth, s.nlink, a);
        }
      }
    case Evict(i) =>
      Forgotten(s.t, root, depth, s.nlink, i);
  }

  lemma HasDepth(t: Tables, root: nat, depth: Links, d: nat)
    requires Treelike(t, root, depth) && d in t
    ensures d in depth
  {
    assert RankedAt(t, root, depth, d);
  }

  /** Calls of which each is what the VFS may ask for after the ones before. */
  ghost predicate Plays(s: State, root: nat, maxIno: nat, calls: seq<Call>)
    decreases |calls|
  {
    calls != [] ==>
      VfsOk(s, root, maxIno, calls[0]) && Plays(Outcome(s, root, maxIno, calls[0]), root, maxIno, calls[1..])
  }

  ghost function OutcomeAll(s: State, root: nat, maxIno: nat, calls: seq<Call>): State
    requires Plays(s, root, maxIno, calls)
    decreases |calls|
  {
    if calls == [] then s else OutcomeAll(Outcome(s, root, maxIno, calls[0]), root, maxIno, calls[1..])
  }

  lemma {:induction false} RunKeeps(s: State, root: nat, maxIno: nat, calls: seq<Call>)
    requires TreeOk(s, root) && Plays(s, root, maxIno, calls)
    ensures TreeOk(OutcomeAll(s, root, maxIno, calls), root)
    decreases |calls|
  {
    hide TreeOk, VfsOk, Outcome;
    if calls != [] {
      StepKeeps(s, root, maxIno, calls[0]);
      RunKeeps(Outcome(s, root, maxIno, calls[0]), root, maxIno, calls[1..]);
    }
  }

  function Fresh(root: nat): State { State(map[root := EmptyDirTable(root, root)], map[root := 2]) }

  /** After any run from an empty filesystem, failing calls included: link counts are reference counts, and every
      directory but the root is named once, by the directory its ".." names. */
  lemma EveryRun(root: nat, maxIno: nat, calls: seq<Call>)
    requires Plays(Fresh(root), root, maxIno, calls)
    ensures var s := OutcomeAll(Fresh(root), root, maxIno, calls);
            && (forall i :: i in s.nlink ==>
                  s.nlink[i] == |set d, n | d in s.t && n in s.t[d] && s.t[d][n] == i :: (d, n)|)
            && (forall p, n :: p in s.t && n in s.t[p] ==> s.t[p][n] in s.nlink)
            && (forall p, n :: p in s.t && n in s.t[p] && n != [46] && n != [46, 46] && s.t[p][n] in s.t ==>
                  var d := s.t[p][n]; d != root && [46, 46] in s.t[d] && s.t[d][[46, 46]] == p)
            && forall d :: d in s.t && d != root ==>
                 && [46, 46] in s.t[d] && s.t[d][[46, 46]] in s.t
                 && var p := s.t[d][[46, 46]]; exists n :: n in s.t[p] && n != [46] && n != [46, 46] && s.t[p][n] == d
  {
    RootAlone(root);
    assert Treelike(Fresh(root).t, root, map[root := 0]);
    RunKeeps(Fresh(root), root, maxIno, calls);
    TreeOkMeans(OutcomeAll(Fresh(root), root, maxIno, calls), root);
  }

  lemma TreeOkMeans(s: State, root: nat)
    requires TreeOk(s, root)
    ensures forall i :: i in s.nlink ==>
              s.nlink[i] == |set d, n | d in s.t && n in s.t[d] && s.t[d][n] == i :: (d, n)|
    ensures forall p, n :: p in s.t && n in s.t[p] ==> s.t[p][n] in s.nlink
    ensures forall p, n :: p in s.t && n in s.t[p] && n != [46] && n != [46, 46] && s.t[p][n] in s.t ==>
              var d := s.t[p][n]; d != root && [46, 46] in s.t[d] && s.t[d][[46, 46]] == p
    ensures forall d :: d in s.t && d != root ==>
              && [46, 46] in s.t[d] && s.t[d][[46, 46]] in s.t
              && var p := s.t[d][[46, 46]]; exists n :: n in s.t[p] && n != [46] && n != [46, 46] && s.t[p][n] == d
  {
    hide Ranked;
    var depth :| Treelike(s.t, root, depth);
    forall i | i in s.nlink
      ensures s.nlink[i] == |set d, n | d in s.t && n in s.t[d] && s.t[d][n] == i :: (d, n)|
    {
      assert RefSet(s.t, i) == set d, n | d in s.t && n in s.t[d] && s.t[d][n] == i :: (d, n);
    }
    forall p, n | p in s.t && n in s.t[p] && n != [46] && n != [46, 46] && s.t[p][n] in s.t
      ensures var d := s.t[p][n]; d != root && [46, 46] in s.t[d] && s.t[d][[46, 46]] == p
    {
      assert NamesDir(s.t, p, n, s.t[p][n]);
    }
    forall d | d in s.t && d != root
      ensures && [46, 46] in s.t[d] && s.t[d][[46, 46]] in s.t
              && var p := s.t[d][[46, 46]]; exists n :: n in s.t[p] && n != [46] && n != [46, 46] && s.t[p][n] == d
    {
      var n :| NamesDir(s.t, Parent(s.t, d), n, d);
    }
  }

  // ----- Runs of the operations themselves

  ghost function StateOf(ns: Namespace): State
    requires ns.DirsOk()
    reads ns, ns.dirs.Values
  {
    State(ns.Tree(), ns.nlink)
  }

  /** Every operation of `Namespace` does to directories and counts what `Outcome` says. */
  method Perform(ns: Namespace, c: Call)
    requires ns.Valid() && VfsOk(StateOf(ns), ns.root, ns.f.maxIno, c)
    modifies ns, ns.dirs.Values
    ensures ns.Valid() && StateOf(ns) == Outcome(old(StateOf(ns)), ns.root, ns.f.maxIno, c)
    ensures forall d :: d in ns.dirs.Values ==> d in old(ns.dirs.Values) || fresh(d)
  {
    hide Namespace.DirsOk, Namespace.Tree, Treelike, LinksCounted, Unlinked, FormatOk, WithEntry, WithoutEntry,
      WithDir,
      WithoutDir, Raise, Drop, WithDirLinks, WithoutDirLinks, RenamedTree, RenamedLinks, CanRename, VfsAllows,
      RenameOutcome,
      IsDots, Apart;
    match c
    case Create(d, n, ino, ok) =>
      NotADirectory(ns, ino);
      if ino.Some? { RaiseNew(ns.nlink, ino.value); }
      var done := ns.Create(d, n, ino, ok);
    case Link(i, d, n, ok) =>
      HasLinks(ns.nlink, i);
      var done := ns.Link(i, d, n, ok);
    case Unlink(d, n, i) =>
      var done := ns.Unlink(d, n, i);
    case Mkdir(d, n, ino, okEmpty, ok) =>
      NotADirectory(ns, ino);
      var done := ns.Mkdir(d, n, ino, okEmpty, ok);
    case Rmdir(d, n, i) =>
      var r := ns.Rmdir(d, n, i);
    case Rename(a, ok) =>
      RenameEnds(ns.Tree(), ns.root, ns.depth, a, ok);
      var r := ns.Rename(a, ok);
    case Evict(i) =>
      ns.Evict(i);
  }

  /** A number that is not in use has no directory object either. */
  lemma NotADirectory(ns: Namespace, ino: Option<nat>)
    requires ns.Valid() && UnusedNumber(ns.nlink, ns.f.maxIno, ino)
    ensures ns.Unused(ino)
  {
    hide Namespace.DirOk, Treelike, Refs;
    forall k | k in ns.live
      ensures k in ns.nlink
    {
      HasCount(ns.Tree(), ns.nlink, k);
    }
  }

  lemma RaiseNew(nlink: Links, i: nat)
    requires i !in nlink
    ensures Raise(nlink, i, 1) == nlink[i := 1]
  {
  }

  lemma HasLinks(nlink: Links, i: nat)
    requires LinksOf(nlink, i) > 0
    ensures i in nlink && nlink[i] > 0
  {
  }

  /** Any run of calls, with whatever failures, takes directories and counts where `OutcomeAll` says. */
  method Replay(ns: Namespace, calls: seq<Call>)
    requires ns.Valid() && Plays(StateOf(ns), ns.root, ns.f.maxIno, calls)
    modifies ns, ns.dirs.Values
    ensures ns.Valid() && StateOf(ns) == OutcomeAll(old(StateOf(ns)), ns.root, ns.f.maxIno, calls)
    ensures forall d :: d in ns.dirs.Values ==> d in old(ns.dirs.Values) || fresh(d)
  {
    hide Namespace.Valid, Namespace.DirsOk, Outcome, VfsOk, StateOf;
    assert calls[0..] == calls;
    ValidDirs(ns);
    ghost var s := StateOf(ns);
    for i := 0 to |calls|
      invariant ns.Valid() && ns.DirsOk() && Plays(StateOf(ns), ns.root, ns.f.maxIno, calls[i..])
      invariant OutcomeAll(StateOf(ns), ns.root, ns.f.maxIno, calls[i..])
                == OutcomeAll(s, ns.root, ns.f.maxIno, calls)
      invariant forall d :: d in ns.dirs.Values ==> d in old(ns.dirs.Values) || fresh(d)
    {
      assert calls[i..][1..] == calls[i + 1..];
      Perform(ns, calls[i]);
      ValidDirs(ns);
    }
  }

  lemma ValidDirs(ns: Namespace)
    requires ns.Valid()
    ensures ns.DirsOk()
  {
  }

  /** The same from an empty filesystem on: see `EveryRun`. */
  method ReplayFromRoot(f: Format, root: nat, calls: seq<Call>) returns (ns: Namespace)
    requires FormatOk(f) && 0 < root <= f.maxIno && Plays(Fresh(root), root, f.maxIno, calls)
    ensures fresh(ns) && ns.Valid() && StateOf(ns) == OutcomeAll(Fresh(root), root, f.maxIno, calls)
    ensures var t := ns.Tree();
            && (forall i :: i in ns.nlink ==>
                  ns.nlink[i] == |set d, n | d in t && n in t[d] && t[d][n] == i :: (d, n)|)
            && forall p, n :: p in t && n in t[p] && n != [46] && n != [46, 46] && t[p][n] in t ==>
                 var d := t[p][n]; d != root && [46, 46] in t[d] && t[d][[46, 46]] == p
  {
    hide Namespace.Valid, Namespace.DirsOk, Namespace.Tree, Plays, OutcomeAll;
    ns := new Namespace(f, root);
    Replay(ns, calls);
    EveryRun(root, f.maxIno, calls);
  }
}
