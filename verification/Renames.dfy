/** Renames: what `ext2_rename` makes of the tree and of the link counts. */
module Renames {
  import opened DirImage
  import opened DirPages
  import opened DirWalk
  import opened LinkTree
  import opened LinkMoves

  /** The entry `on` of `od` becomes the entry `nn` of `nd`, which may exist. */
  function Renamed(t: Tables, od: nat, on: Name, nd: nat, nn: Name, i: nat): Tables
    requires od in t && nd in t
  {
    WithoutEntry(WithEntry(t, nd, nn, i), od, on)
  }

  lemma PlainRename(t: Tables, root: nat, depth: Links, nlink: Links, od: nat, on: Name, nd: nat, nn: Name, i: nat)
    requires Treelike(t, root, depth) && LinksCounted(t, nlink) && od in t && nd in t && on in t[od] && t[od][on] == i
    requires nn !in t[nd] && !IsDots(on) && !IsDots(nn) && i !in t
    ensures Treelike(Renamed(t, od, on, nd, nn, i), root, depth) && LinksCounted(Renamed(t, od, on, nd, nn, i), nlink)
  {
    hide Treelike, LinksCounted, Refs, IsDots, Raise, Drop;
    CountRemove(t, nlink, od, on);
    AddPlain(t, root, depth, nd, nn, i);
    CountAdd(t, nlink, nd, nn, i);
    var t1 := WithEntry(t, nd, nn, i);
    assert on in t1[od] && t1[od][on] == i;
    RemovePlain(t1, root, depth, od, on);
    CountRemove(t1, Raise(nlink, i, 1), od, on);
    RaiseThenDrop(nlink, i);
  }

  lemma RaiseThenDrop(nlink: Links, i: nat)
    requires i in nlink
    ensures Drop(Raise(nlink, i, 1), i, 1) == nlink
  {
  }

  lemma RemoveThenAdd(t: Tables, nd: nat, nn: Name, i: nat)
    requires nd in t
    ensures WithEntry(WithoutEntry(t, nd, nn), nd, nn, i) == WithEntry(t, nd, nn, i)
  {
    assert WithEntry(WithoutEntry(t, nd, nn), nd, nn, i)[nd] == WithEntry(t, nd, nn, i)[nd];
  }

  lemma PlainRenameOver(t: Tables, root: nat, depth: Links, nlink: Links, od: nat, on: Name, nd: nat, nn: Name, i: nat,
                        j: nat)
    requires Treelike(t, root, depth) && LinksCounted(t, nlink) && od in t && nd in t && on in t[od] && t[od][on] == i
    requires nn in t[nd] && t[nd][nn] == j && j != i && !IsDots(on) && !IsDots(nn) && i !in t && j !in t
    ensures j in nlink && nlink[j] > 0
    ensures Treelike(Renamed(t, od, on, nd, nn, i), root, depth)
    ensures LinksCounted(Renamed(t, od, on, nd, nn, i), Drop(nlink, j, 1))
  {
    hide Treelike, LinksCounted, Refs, IsDots, Drop;
    var t0 := WithoutEntry(t, nd, nn);
    RemovePlain(t, root, depth, nd, nn);
    CountRemove(t, nlink, nd, nn);
    assert on in t0[od] && t0[od][on] == i;
    PlainRename(t0, root, depth, Drop(nlink, j, 1), od, on, nd, nn, i);
    RemoveThenAdd(t, nd, nn, i);
  }

  /** Within one directory ".." does not change. */
  lemma MovedInPlace(t: Tables, od: nat, on: Name, nd: nat, nn: Name, i: nat)
    requires od in t && nd in t && i in t && od == nd && DOTDOT in t[i] && t[i][DOTDOT] == od && !IsDots(on)
    requires !IsDots(nn)
    ensures Moved(t, od, on, nd, nn, i) == Renamed(t, od, on, nd, nn, i)
  {
    hide IsDots;
    var t1 := WithEntry(t, nd, nn, i);
    var t2 := WithoutEntry(t1, od, on);
    DotsUntouched(t, nd, nn, i, i);
    DotsUntouched(t1, od, on, i, i);
    var m: map<Name, nat> := t2[i][DOTDOT := nd];
    assert m == t2[i];
    assert WithEntry(t2, i, DOTDOT, nd)[i] == t2[i];
  }

  /** After an empty directory has been taken out nothing names it any more. */
  lemma GoneIsUnnamed(t: Tables, root: nat, depth: Links, d: nat, n: Name, i: nat)
    requires Treelike(t, root, depth) && d in t && NamesDir(t, d, n, i) && i in t && t[i] == EmptyDirTable(i, d)
    ensures Refs(WithoutDir(t, d, n, i), i) == 0
  {
    hide WithoutDir, NamesDir, Ranked, Held, DotsOk;
    var t' := WithoutDir(t, d, n, i);
    assert i != root;
    EmptyIsNoParent(t, root, d, i);
    RemoveDir(t, root, depth, d, n, i);
    forall p, m | p in t' && m in t'[p]
      ensures t'[p][m] != i
    {
      GoneEntry(t, root, d, n, i, p, m);
    }
    assert RefSet(t', i) == {};
  }

  lemma GoneEntry(t: Tables, root: nat, d: nat, n: Name, i: nat, p: nat, m: Name)
    requires DotsOk(t) && HeldOnce(t, root) && d in t && NamesDir(t, d, n, i) && i in t
    requires forall x :: x in t && x != i ==> Parent(t, x) != i
    requires p in WithoutDir(t, d, n, i) && m in WithoutDir(t, d, n, i)[p]
    ensures WithoutDir(t, d, n, i)[p][m] != i
  {
    assert !IsDots(m) && t[p][m] == i ==> NamesDir(t, p, m, i);
  }

  lemma BelowKept(t: Tables, t': Tables, root: nat, depth: Links, x: nat, a: nat)
    requires Climbs(t, root, depth) && Climbs(t', root, depth) && x in t' && t'.Keys <= t.Keys
    requires forall y :: y in t' ==> Parent(t', y) == Parent(t, y)
    requires Below(t', root, depth, x, a)
    ensures Below(t, root, depth, x, a)
    decreases depth[x]
  {
    hide Parent;
    if x != a { BelowKept(t, t', root, depth, Parent(t, x), a); }
  }

  /** A directory replaces an empty one. */
  lemma MoveDirOver(t: Tables, root: nat, depth: Links, od: nat, on: Name, nd: nat, nn: Name, i: nat, j: nat)
    requires Treelike(t, root, depth) && od in t && nd in t && i in t && j in t
    requires NamesDir(t, od, on, i) && NamesDir(t, nd, nn, j) && i != j && t[j] == EmptyDirTable(j, nd)
    requires !Under(t, root, depth, nd, i)
    ensures j != nd && j != od && j != i
    ensures var t0 := WithoutDir(t, nd, nn, j);
            CanMove(t0, root, depth, od, on, nd, nn, i) && DOTDOT in t0[i]
  {
    hide WithoutDir, NamesDir, Treelike, Climbs, IsDots, Below, Parent;
    var t0 := WithoutDir(t, nd, nn, j);
    RemoveDir(t, root, depth, nd, nn, j);
    EmptyHasNoNames(t, od, on, nd, i, j);
    WithoutDirKeys(t, nd, nn, j);
    TreeClimbs(t, root, depth);
    TreeClimbs(t0, root, depth);
    WithoutDirNames(t, nd, nn, j, od, on, i);
    FreshAfter(t, nd, nn, j);
    SameParents(t, root, depth, nd, nn, j);
    if Below(t0, root, depth, nd, i) { BelowKept(t, t0, root, depth, nd, i); }
    HangsFrom(t0, root, depth, od, on, i);
  }

  lemma HangsFrom(t: Tables, root: nat, depth: Links, p: nat, m: Name, i: nat)
    requires Treelike(t, root, depth) && i in t && NamesDir(t, p, m, i)
    ensures DOTDOT in t[i] && Parent(t, i) == p
  {
  }

  lemma EmptyHasNoNames(t: Tables, od: nat, on: Name, nd: nat, i: nat, j: nat)
    requires NamesDir(t, od, on, i) && j in t && t[j] == EmptyDirTable(j, nd)
    ensures od != j
  {
    assert on in EmptyDirTable(j, nd) ==> IsDots(on);
  }

  lemma FreshAfter(t: Tables, nd: nat, nn: Name, j: nat)
    requires nd in t && nd != j && NamesDir(t, nd, nn, j)
    ensures nd in WithoutDir(t, nd, nn, j) && nn !in WithoutDir(t, nd, nn, j)[nd] && !IsDots(nn)
  {
  }

  lemma SameParents(t: Tables, root: nat, depth: Links, d: nat, n: Name, i: nat)
    requires Treelike(t, root, depth) && d in t && NamesDir(t, d, n, i) && i in t && t[i] == EmptyDirTable(i, d)
    ensures forall y :: y in WithoutDir(t, d, n, i) ==> Parent(WithoutDir(t, d, n, i), y) == Parent(t, y)
  {
    hide WithoutDir, NamesDir, DotsOk, Held, Parent, Ranked;
    assert i != root && Parent(t, i) == d;
    NotItsOwnParent(t, root, depth, i);
    EmptyIsNoParent(t, root, d, i);
    WithoutDirDots(t, root, d, n, i);
  }

  /** Overwriting the entry and dropping the directory is the same as taking the directory out and adding the entry. */
  lemma OverwriteThenDrop(t: Tables, nd: nat, nn: Name, i: nat, j: nat)
    requires nd in t && nd != j
    ensures WithEntry(t, nd, nn, i) - {j} == WithEntry(WithoutDir(t, nd, nn, j), nd, nn, i)
  {
    assert WithEntry(t, nd, nn, i)[nd] == WithEntry(WithoutDir(t, nd, nn, j), nd, nn, i)[nd];
  }

  // ----- The rename as the VFS allows it

  /** `target` is what the new name leads to. */
  datatype RenameArgs = RenameArgs(od: nat, on: Name, nd: nat, nn: Name, ino: nat, target: Option<nat>)

  /** What the VFS has checked: the names lead to `ino` and `target`, which differ and are of the same kind; a directory
      does not move below itself. What `ext2_rename` checks: a directory that is replaced is empty. */
  ghost predicate CanRename(t: Tables, root: nat, depth: Links, a: RenameArgs)
  {
    && a.od in t && a.nd in t && NamesDir(t, a.od, a.on, a.ino) && !IsDots(a.nn)
    && (a.ino in t ==> !Under(t, root, depth, a.nd, a.ino))
    && match a.target
       case None => a.nn !in t[a.nd]
       case Some(j) => Replaces(t, a.nd, a.nn, a.ino, j)
  }

  ghost predicate Replaces(t: Tables, nd: nat, nn: Name, i: nat, j: nat)
  {
    NamesDir(t, nd, nn, j) && j != i && (i in t <==> j in t) && (j in t ==> t[j].Keys == {DOT, DOTDOT})
  }

  /** What the VFS has checked before `ext2_rename`: its names are not the dots and lead, where they exist, to `ino` and
      `target`; these differ and are of the same kind; and a directory does not move below itself. */
  ghost predicate VfsAllows(t: Tables, root: nat, depth: Links, a: RenameArgs)
  {
    && a.od in t && a.nd in t && !IsDots(a.on) && !IsDots(a.nn) && 1 <= |a.nn| <= NAME_LEN_MAX
    && (a.on in t[a.od] ==> t[a.od][a.on] == a.ino)
    && (a.ino in t ==> !Under(t, root, depth, a.nd, a.ino))
    && match a.target
       case None => a.nn !in t[a.nd]
       case Some(j) => j != a.ino && (j in t <==> a.ino in t) && (a.nn in t[a.nd] ==> t[a.nd][a.nn] == j)
  }

  datatype RenameResult = OldMissing | NewMissing | TargetNotEmpty | NoSpace | Done

  /** How a rename ends. */
  function RenameOutcome(t: Tables, a: RenameArgs, prepared: bool): RenameResult
    requires a.od in t && a.nd in t && (a.target.Some? && a.ino in t ==> a.target.value in t)
  {
    if a.on !in t[a.od] then OldMissing
    else match a.target
    case None => if prepared then Done else NoSpace
    case Some(j) =>
      if a.ino in t && t[j].Keys != {DOT, DOTDOT} then TargetNotEmpty
      else if a.nn in t[a.nd] then Done else NewMissing
  }

  lemma Allowed(t: Tables, root: nat, depth: Links, a: RenameArgs, prepared: bool)
    requires VfsAllows(t, root, depth, a) && RenameOutcome(t, a, prepared).Done?
    ensures CanRename(t, root, depth, a)
    ensures !(a.od == a.nd && a.on == a.nn)
  {
    hide Under, IsDots;
  }

  /** Each ending belongs to what is found in the directories, and to nothing else. */
  lemma RenameEnds(t: Tables, root: nat, depth: Links, a: RenameArgs, prepared: bool)
    requires VfsAllows(t, root, depth, a)
    ensures var r, isDir := RenameOutcome(t, a, prepared), a.ino in t;
            var full := isDir && a.target.Some? && t[a.target.value].Keys != {DOT, DOTDOT};
            && (r.OldMissing? <==> a.on !in t[a.od])
            && (r.TargetNotEmpty? <==> a.on in t[a.od] && full)
            && (r.NewMissing? <==> a.on in t[a.od] && a.target.Some? && !full && a.nn !in t[a.nd])
            && (r.NoSpace? <==> a.on in t[a.od] && a.target.None? && !prepared)
            && (r.Done? <==> CanRename(t, root, depth, a) && (a.target.Some? || prepared))
  {
    hide Under, IsDots;
  }

  /** A directory that gives way is none of those that stay. */
  predicate Apart(t: Tables, a: RenameArgs)
  {
    a.ino in t && a.target.Some? ==> a.target.value !in {a.od, a.nd, a.ino}
  }

  /** The entry moves; a directory also gets a new "..", and the empty directory it replaces goes. */
  function RenamedTree(t: Tables, a: RenameArgs): Tables
    requires a.od in t && a.nd in t && Apart(t, a)
  {
    if a.ino !in t then Renamed(t, a.od, a.on, a.nd, a.nn, a.ino)
    else Moved(if a.target.Some? then WithoutDir(t, a.nd, a.nn, a.target.value) else t, a.od, a.on, a.nd, a.nn, a.ino)
  }

  function RenamedLinks(nlink: Links, isDir: bool, a: RenameArgs): Links
  {
    match a.target
    case None => if isDir then MovedLinks(nlink, a.od, a.nd) else nlink
    case Some(j) => if isDir then MovedLinks(WithoutDirLinks(nlink, a.nd, j), a.od, a.nd) else Drop(nlink, j, 1)
  }

  lemma RenameKeepsPlain(t: Tables, root: nat, depth: Links, nlink: Links, a: RenameArgs)
    requires Treelike(t, root, depth) && LinksCounted(t, nlink) && CanRename(t, root, depth, a) && a.ino !in t
    ensures Treelike(RenamedTree(t, a), root, depth) && LinksCounted(RenamedTree(t, a), RenamedLinks(nlink, false, a))
    ensures a.target.Some? ==> a.target.value in nlink && nlink[a.target.value] > 0
  {
    hide Treelike, LinksCounted, Climbs, Below, Renamed;
    match a.target
    case None => PlainRename(t, root, depth, nlink, a.od, a.on, a.nd, a.nn, a.ino);
    case Some(j) => PlainRenameOver(t, root, depth, nlink, a.od, a.on, a.nd, a.nn, a.ino, j);
  }

  /** The empty directory that gives way. */
  lemma Vacated(t: Tables, root: nat, depth: Links, nlink: Links, a: RenameArgs)
    requires Treelike(t, root, depth) && LinksCounted(t, nlink) && CanRename(t, root, depth, a) && a.ino in t
    requires a.target.Some?
    ensures var j := a.target.value;
            && j != a.nd && j != a.od && j != a.ino && t[j] == EmptyDirTable(j, a.nd)
            && j in nlink && nlink[j] == 2 && a.nd in nlink && nlink[a.nd] > 0
    ensures var t0 := WithoutDir(t, a.nd, a.nn, a.target.value);
            && CanMove(t0, root, depth, a.od, a.on, a.nd, a.nn, a.ino) && DOTDOT in t0[a.ino]
            && LinksCounted(t0, WithoutDirLinks(nlink, a.nd, a.target.value))
  {
    hide Treelike, LinksCounted, Climbs, Below, WithoutDir, NamesDir, CanMove, Refs, WithoutDirLinks;
    RmdirKeeps(t, root, depth, nlink, a.nd, a.nn, a.target.value);
    MoveDirOver(t, root, depth, a.od, a.on, a.nd, a.nn, a.ino, a.target.value);
  }

  lemma RmdirKeeps(t: Tables, root: nat, depth: Links, nlink: Links, d: nat, n: Name, i: nat)
    requires Treelike(t, root, depth) && LinksCounted(t, nlink) && d in t && NamesDir(t, d, n, i) && i in t
    requires t[i].Keys == {DOT, DOTDOT}
    ensures i != d && i != root && t[i] == EmptyDirTable(i, d) && i in nlink && nlink[i] == 2 && d in nlink
    ensures nlink[d] > 0
    ensures Treelike(WithoutDir(t, d, n, i), root, depth)
    ensures LinksCounted(WithoutDir(t, d, n, i), WithoutDirLinks(nlink, d, i))
  {
    hide Treelike, LinksCounted, WithoutDir, NamesDir, Refs, WithoutDirLinks, EmptyDirTable;
    EmptyIsDots(t, root, depth, d, n, i);
    RemoveDir(t, root, depth, d, n, i);
    NamesEntry(t, d, n, i);
    CountRemoveDir(t, nlink, d, n, i);
    GoneIsUnnamed(t, root, depth, d, n, i);
    ZeroLeft(WithoutDir(t, d, n, i), nlink, d, i);
  }

  lemma NamesEntry(t: Tables, d: nat, n: Name, i: nat)
    requires NamesDir(t, d, n, i)
    ensures n in t[d] && t[d][n] == i && !IsDots(n)
  {
  }

  lemma ZeroLeft(t: Tables, nlink: Links, d: nat, i: nat)
    requires i != d && i in nlink && nlink[i] >= 2 && LinksCounted(t, WithoutDirLinks(nlink, d, i)) && Refs(t, i) == 0
    ensures nlink[i] == 2
  {
    hide Refs;
    assert i in WithoutDirLinks(nlink, d, i);
  }

  /** A directory in which only the dots are left is as it was made. */
  lemma EmptyIsDots(t: Tables, root: nat, depth: Links, d: nat, n: Name, i: nat)
    requires Treelike(t, root, depth) && NamesDir(t, d, n, i) && i in t && t[i].Keys == {DOT, DOTDOT}
    ensures t[i] == EmptyDirTable(i, d)
  {
    hide Ranked, Held, NamesDir;
    assert DOT in t[i] && DOTDOT in t[i];
    DotsDiffer();
    assert Parent(t, i) == d;
  }

  lemma RenameKeepsDir(t: Tables, root: nat, depth: Links, nlink: Links, a: RenameArgs) returns (depth': Links)
    requires Treelike(t, root, depth) && LinksCounted(t, nlink) && CanRename(t, root, depth, a) && a.ino in t
    ensures Apart(t, a)
    ensures Treelike(RenamedTree(t, a), root, depth') && LinksCounted(RenamedTree(t, a), RenamedLinks(nlink, true, a))
  {
    hide Treelike, LinksCounted, WithoutDir, Refs, WithoutDirLinks, MovedLinks, Moved;
    var t0, links := t, nlink;
    if a.target.Some? {
      Vacated(t, root, depth, nlink, a);
      t0, links := WithoutDir(t, a.nd, a.nn, a.target.value), WithoutDirLinks(nlink, a.nd, a.target.value);
    }
    HangsFrom(t0, root, depth, a.od, a.on, a.ino);
    TreeClimbs(t0, root, depth);
    depth' := Deeper(t0, root, depth, a.ino, a.nd);
    MoveDir(t0, root, depth, a.od, a.on, a.nd, a.nn, a.ino);
    CountMoveDir(t0, links, a.od, a.on, a.nd, a.nn, a.ino);
  }

  /** The tree after a rename, entry by entry: the new name leads to the inode, the old one is gone, ".." of a directory
      leads to its new parent, a directory that gave way is gone, and all else is as it was. */
  lemma RenamedEntries(t: Tables, root: nat, depth: Links, a: RenameArgs, d: nat, n: Name)
    requires Treelike(t, root, depth) && CanRename(t, root, depth, a) && Apart(t, a)
    ensures var t' := RenamedTree(t, a);
            && (d in t' <==> d in t && !(a.ino in t && a.target == Some(d)))
            && (d in t' ==> (n in t'[d] <==> (d == a.nd && n == a.nn) || (n in t[d] && !(d == a.od && n == a.on))))
            && (d in t' && n in t'[d] ==>
                  t'[d][n] == if d == a.nd && n == a.nn then a.ino
                              else if d == a.ino && n == [46, 46] then a.nd else t[d][n])
  {
    hide Treelike, Under;
    RenamedKeys(t, a);
    if a.ino in t { HangsFrom(t, root, depth, a.od, a.on, a.ino); }
  }

  // ----- The same, one step after another

  /** After the new name has been given ... */
  function Placed(t: Tables, a: RenameArgs): Tables
    requires a.nd in t
  {
    var t1 := WithEntry(t, a.nd, a.nn, a.ino);
    if a.ino in t && a.target.Some? then t1 - {a.target.value} else t1
  }

  function PlacedLinks(nlink: Links, isDir: bool, a: RenameArgs): Links
  {
    match a.target
    case None => if isDir then Raise(nlink, a.nd, 1) else nlink
    case Some(j) => if isDir then Drop(Drop(nlink, j, 1), j, 1) else Drop(nlink, j, 1)
  }

  /** ... and after the old one has been taken away. */
  function Cleared(t: Tables, a: RenameArgs): Tables
    requires a.od in t
  {
    var t1 := WithoutEntry(t, a.od, a.on);
    if a.ino in t && a.od != a.nd then WithEntry(t1, a.ino, DOTDOT, a.nd) else t1
  }

  lemma TreeInSteps(t: Tables, root: nat, depth: Links, nlink: Links, a: RenameArgs)
    requires Treelike(t, root, depth) && LinksCounted(t, nlink) && CanRename(t, root, depth, a)
    ensures Apart(t, a) && a.od in Placed(t, a) && (a.ino in Placed(t, a) <==> a.ino in t)
    ensures Cleared(Placed(t, a), a) == RenamedTree(t, a)
  {
    hide Treelike, LinksCounted, WithoutDir, WithEntry, WithoutEntry, NamesDir, IsDots, Under, Replaces;
    if a.ino in t {
      if a.target.Some? {
        Vacated(t, root, depth, nlink, a);
        OverwriteThenDrop(t, a.nd, a.nn, a.ino, a.target.value);
        var t0 := WithoutDir(t, a.nd, a.nn, a.target.value);
        MoveInSteps(t0, root, depth, a);
      } else {
        MoveInSteps(t, root, depth, a);
      }
    } else {
      SameKeys(t, a.nd, a.nn, a.ino);
    }
  }

  lemma MoveInSteps(t: Tables, root: nat, depth: Links, a: RenameArgs)
    requires Treelike(t, root, depth) && a.od in t && a.nd in t && a.ino in t && NamesDir(t, a.od, a.on, a.ino)
    requires !IsDots(a.nn)
    ensures a.od in WithEntry(t, a.nd, a.nn, a.ino) && a.ino in WithEntry(t, a.nd, a.nn, a.ino)
    ensures Cleared(WithEntry(t, a.nd, a.nn, a.ino), a) == Moved(t, a.od, a.on, a.nd, a.nn, a.ino)
  {
    hide Treelike, WithEntry, WithoutEntry, IsDots;
    SameKeys(t, a.nd, a.nn, a.ino);
    if a.od == a.nd {
      HangsFrom(t, root, depth, a.od, a.on, a.ino);
      MovedInPlace(t, a.od, a.on, a.nd, a.nn, a.ino);
    }
  }

  lemma LinksInSteps(t: Tables, root: nat, depth: Links, nlink: Links, a: RenameArgs)
    requires Treelike(t, root, depth) && LinksCounted(t, nlink) && CanRename(t, root, depth, a)
    ensures a.ino in t ==> LinksOf(PlacedLinks(nlink, true, a), a.od) > 0
    ensures a.ino in t ==> Drop(PlacedLinks(nlink, true, a), a.od, 1) == RenamedLinks(nlink, true, a)
    ensures a.ino !in t ==> PlacedLinks(nlink, false, a) == RenamedLinks(nlink, false, a)
  {
    hide Treelike, LinksCounted, WithoutDir, Under, NamesDir, Replaces;
    if a.ino in t { ParentHasLinks(t, root, depth, nlink, a.od, a.on, a.ino); }
    if a.ino in t && a.target.Some? {
      Vacated(t, root, depth, nlink, a);
      TwoDrops(nlink, a.target.value);
      DropAndRaise(Drop(nlink, a.target.value, 2), a.nd);
    }
  }

  lemma ParentHasLinks(t: Tables, root: nat, depth: Links, nlink: Links, p: nat, m: Name, i: nat)
    requires Treelike(t, root, depth) && LinksCounted(t, nlink) && p in t && i in t && NamesDir(t, p, m, i)
    ensures LinksOf(nlink, p) > 0
  {
    hide Treelike, NamesDir, Refs;
    HangsFrom(t, root, depth, p, m, i);
    Referenced(t, i, DOTDOT);
  }

  /** A name gives its inode a link; a directory has another from its own ".". */
  lemma NamedHasLinks(t: Tables, root: nat, depth: Links, nlink: Links, p: nat, m: Name, i: nat)
    requires Treelike(t, root, depth) && LinksCounted(t, nlink) && NamesDir(t, p, m, i)
    ensures LinksOf(nlink, i) >= if i in t then 2 else 1
  {
    hide Treelike, Refs;
    Referenced(t, p, m);
    if i in t {
      HasDot(t, root, depth, i);
      TwoRefs(t, p, m, i);
    }
  }

  lemma TwoRefs(t: Tables, p: nat, m: Name, i: nat)
    requires NamesDir(t, p, m, i) && i in t && DOT in t[i] && t[i][DOT] == i
    ensures Refs(t, i) >= 2
  {
    var two := {(p, m), (i, DOT)};
    assert (p, m) in RefSet(t, i) && (i, DOT) in RefSet(t, i) && m != DOT;
    MoreMembers(two, RefSet(t, i));
    assert |two| == 2;
  }

  lemma MoreMembers<T>(a: set<T>, b: set<T>)
    requires a <= b
    ensures |a| <= |b|
  {
    if a != b {
      assert b == a + (b - a);
    }
  }

  lemma TwoDrops(nlink: Links, i: nat)
    requires i in nlink && nlink[i] >= 2
    ensures Drop(Drop(nlink, i, 1), i, 1) == Drop(nlink, i, 2)
  {
  }

  lemma DropAndRaise(nlink: Links, i: nat)
    requires i in nlink && nlink[i] > 0
    ensures Raise(Drop(nlink, i, 1), i, 1) == nlink
  {
  }

  /** All of this together, for the steps of `ext2_rename`. */
  lemma Halfway(t: Tables, root: nat, depth: Links, nlink: Links, a: RenameArgs, prepared: bool)
    requires Treelike(t, root, depth) && LinksCounted(t, nlink) && VfsAllows(t, root, depth, a)
    requires RenameOutcome(t, a, prepared).Done?
    ensures CanRename(t, root, depth, a) && !(a.od == a.nd && a.on == a.nn) && Apart(t, a)
    ensures var t1 := Placed(t, a); a.od in t1 && (a.ino in t1 <==> a.ino in t) && Cleared(t1, a) == RenamedTree(t, a)
    ensures if a.ino in t
            then var n1 := PlacedLinks(nlink, true, a);
                 LinksOf(n1, a.od) > 0 && Drop(n1, a.od, 1) == RenamedLinks(nlink, true, a)
            else PlacedLinks(nlink, false, a) == RenamedLinks(nlink, false, a)
  {
    hide *;
    Allowed(t, root, depth, a, prepared);
    TreeInSteps(t, root, depth, nlink, a);
    LinksInSteps(t, root, depth, nlink, a);
  }

  lemma RenamedKeys(t: Tables, a: RenameArgs)
    requires a.od in t && a.nd in t && Apart(t, a)
    ensures RenamedTree(t, a).Keys == if a.ino in t && a.target.Some? then t.Keys - {a.target.value} else t.Keys
  {
    hide Moved, WithoutDir, WithEntry, WithoutEntry;
    if a.ino !in t {
      SameKeys(t, a.nd, a.nn, a.ino);
      SameKeys(WithEntry(t, a.nd, a.nn, a.ino), a.od, a.on, 0);
    } else if a.target.Some? {
      WithoutDirKeys(t, a.nd, a.nn, a.target.value);
      MovedKeys(WithoutDir(t, a.nd, a.nn, a.target.value), a.od, a.on, a.nd, a.nn, a.ino);
    } else {
      MovedKeys(t, a.od, a.on, a.nd, a.nn, a.ino);
    }
  }
}
