/** The changes that namespace operations make to the tree, and that the tree and the link counts survive them. */
module LinkMoves {
  import opened DirImage
  import opened DirWalk
  import opened LinkTree

  type Links = map<nat, nat>

  /** Link counts up and down; an inode without a count has none. */
  function LinksOf(nlink: Links, i: nat): nat { if i in nlink then nlink[i] else 0 }

  function Raise(nlink: Links, i: nat, k: nat): Links { nlink[i := LinksOf(nlink, i) + k] }

  function Drop(nlink: Links, i: nat, k: nat): Links
  {
    if i in nlink && nlink[i] >= k then nlink[i := nlink[i] - k] else nlink
  }

  // ----- Entries of inodes that are not directories

  lemma AddPlain(t: Tables, root: nat, depth: Links, d: nat, n: Name, i: nat)
    requires Treelike(t, root, depth) && d in t && n !in t[d] && !IsDots(n) && i !in t
    ensures Treelike(WithEntry(t, d, n, i), root, depth)
  {
    hide IsDots, NamesDir, WithEntry, Treelike, SameDots;
    var t' := WithEntry(t, d, n, i);
    forall p: nat, m: Name, x: nat | x in t
      ensures NamesDir(t', p, m, x) <==> NamesDir(t, p, m, x)
    {
      MovedNames1(t, d, n, i, p, m, x);
      NotNamed(t, d, n, x);
    }
    forall x | x in t ensures SameDots(t, t', x) { DotsUntouched(t, d, n, i, x); }
    SameKeys(t, d, n, i);
    SameTree(t, t', root, depth);
  }

  lemma RemovePlain(t: Tables, root: nat, depth: Links, d: nat, n: Name)
    requires Treelike(t, root, depth) && d in t && n in t[d] && !IsDots(n) && t[d][n] !in t
    ensures Treelike(WithoutEntry(t, d, n), root, depth)
  {
    hide IsDots, NamesDir, WithoutEntry, Treelike, SameDots;
    var t' := WithoutEntry(t, d, n);
    forall p: nat, m: Name, x: nat | x in t
      ensures NamesDir(t', p, m, x) <==> NamesDir(t, p, m, x)
    {
      MovedNames2(t, d, n, p, m, x);
      NotNamed(t, d, n, x);
    }
    forall x | x in t ensures SameDots(t, t', x) { DotsUntouched(t, d, n, 0, x); }
    SameKeys(t, d, n, 0);
    SameTree(t, t', root, depth);
  }

  lemma NotNamed(t: Tables, d: nat, n: Name, x: nat)
    requires d in t && (n !in t[d] || t[d][n] != x)
    ensures !NamesDir(t, d, n, x)
  {
  }

  lemma SameKeys(t: Tables, d: nat, n: Name, i: nat)
    requires d in t
    ensures WithEntry(t, d, n, i).Keys == t.Keys && WithoutEntry(t, d, n).Keys == t.Keys
  {
  }

  /** Nothing about the directories changes. */
  lemma SameTree(t: Tables, t': Tables, root: nat, depth: Links)
    requires Treelike(t, root, depth) && t'.Keys == t.Keys && forall x :: x in t ==> SameDots(t, t', x)
    requires forall p: nat, m: Name, x: nat :: x in t ==> (NamesDir(t', p, m, x) <==> NamesDir(t, p, m, x))
    ensures Treelike(t', root, depth)
  {
    hide NamesDir, Parent, SameDots, DotsOk, Held, HeldOnce, Ranked;
    DotsParent(t, root);
    DotsKept(t, t');
    FewerHeld(t, t', root);
    FewerRanked(t, t', root, depth);
  }

  lemma CountAdd(t: Tables, nlink: Links, d: nat, n: Name, i: nat)
    requires LinksCounted(t, nlink) && d in t && n !in t[d]
    ensures LinksCounted(WithEntry(t, d, n, i), Raise(nlink, i, 1))
  {
    hide Refs;
    if i !in nlink { Unreferenced(t, nlink, i); }
    forall x: nat ensures Refs(WithEntry(t, d, n, i), x) == Refs(t, x) + One(x == i) { RefsWith(t, d, n, i, x); }
  }

  lemma CountRemove(t: Tables, nlink: Links, d: nat, n: Name)
    requires LinksCounted(t, nlink) && d in t && n in t[d]
    ensures t[d][n] in nlink && nlink[t[d][n]] > 0
    ensures LinksCounted(WithoutEntry(t, d, n), Drop(nlink, t[d][n], 1))
  {
    hide Refs;
    forall x: nat ensures Refs(WithoutEntry(t, d, n), x) + One(x == t[d][n]) == Refs(t, x) { RefsWithout(t, d, n, x); }
    assert t[d][n] in nlink;
  }

  /** A number that no table knows has no references. */
  lemma Unreferenced(t: Tables, nlink: Links, i: nat)
    requires LinksCounted(t, nlink) && i !in nlink
    ensures Refs(t, i) == 0
  {
    assert RefSet(t, i) == {};
  }

  // ----- Directories come and go

  function WithDir(t: Tables, d: nat, n: Name, i: nat): Tables
    requires d in t
  {
    WithEntry(t, d, n, i)[i := EmptyDirTable(i, d)]
  }

  lemma WithDirNames(t: Tables, d: nat, n: Name, i: nat, p: nat, m: Name, x: nat)
    requires d in t && !IsDots(n) && i !in t
    ensures NamesDir(WithDir(t, d, n, i), p, m, x) <==>
              if p == d && m == n then x == i else NamesDir(t, p, m, x)
  {
    if p == i { assert m in EmptyDirTable(i, d) ==> IsDots(m); }
  }

  /** Entries other than the dots do not touch the dots of directory `x`. */
  predicate SameDots(t: Tables, t': Tables, x: nat)
  {
    && x in t && x in t' && (DOT in t[x] <==> DOT in t'[x]) && (DOTDOT in t[x] <==> DOTDOT in t'[x])
    && (DOT in t[x] ==> t'[x][DOT] == t[x][DOT]) && (DOTDOT in t[x] ==> t'[x][DOTDOT] == t[x][DOTDOT])
  }

  lemma DotsUntouched(t: Tables, d: nat, n: Name, i: nat, x: nat)
    requires d in t && x in t && !IsDots(n)
    ensures SameDots(t, WithEntry(t, d, n, i), x) && SameDots(t, WithoutEntry(t, d, n), x)
  {
  }

  lemma SameDotsBy(t: Tables, u: Tables, t': Tables, x: nat)
    requires SameDots(t, u, x) && x in t' && t'[x] == u[x]
    ensures SameDots(t, t', x)
  {
  }

  lemma DotsKept(t: Tables, t': Tables)
    requires DotsOk(t) && forall x :: x in t' && x in t ==> SameDots(t, t', x) && Parent(t, x) in t'
    requires forall x :: x in t' && x !in t ==>
               DOT in t'[x] && t'[x][DOT] == x && DOTDOT in t'[x] && Parent(t', x) in t'
    ensures DotsOk(t') && forall x :: x in t && x in t' ==> Parent(t', x) == Parent(t, x)
  {
    forall x | x in t'
      ensures DOT in t'[x] && t'[x][DOT] == x && DOTDOT in t'[x] && Parent(t', x) in t'
      ensures x in t ==> Parent(t', x) == Parent(t, x)
    {
    }
  }

  lemma WithDirDots(t: Tables, d: nat, n: Name, i: nat)
    requires DotsOk(t) && d in t && !IsDots(n) && i !in t
    ensures var t' := WithDir(t, d, n, i);
            && t'.Keys == t.Keys + {i} && DotsOk(t') && Parent(t', i) == d
            && (forall x :: x in t ==> Parent(t', x) == Parent(t, x))
  {
    hide DotsOk, IsDots, SameDots, Parent, WithDir;
    var t' := WithDir(t, d, n, i);
    DotsParent(t, 0);
    NewDirDots(t, d, n, i);
    forall x | x in t
      ensures SameDots(t, t', x)
    {
      OldDirDots(t, d, n, i, x);
    }
    DotsKept(t, t');
  }

  lemma OldDirDots(t: Tables, d: nat, n: Name, i: nat, x: nat)
    requires d in t && i !in t && x in t && !IsDots(n)
    ensures SameDots(t, WithDir(t, d, n, i), x)
  {
    hide IsDots;
    DotsUntouched(t, d, n, i, x);
    assert WithDir(t, d, n, i)[x] == WithEntry(t, d, n, i)[x];
  }

  lemma NewDirDots(t: Tables, d: nat, n: Name, i: nat)
    requires d in t && i !in t
    ensures WithDir(t, d, n, i).Keys == t.Keys + {i}
    ensures var t' := WithDir(t, d, n, i); DOT in t'[i] && t'[i][DOT] == i && DOTDOT in t'[i] && Parent(t', i) == d
  {
    DotsDiffer();
  }

  lemma AddDir(t: Tables, root: nat, depth: Links, d: nat, n: Name, i: nat)
    requires Treelike(t, root, depth) && d in t && n !in t[d] && !IsDots(n) && i !in t
    requires forall p, m :: p in t && m in t[p] ==> t[p][m] != i
    ensures Treelike(WithDir(t, d, n, i), root, depth[i := depth[d] + 1])
  {
    hide WithDir, NamesDir, DotsOk, Held, HeldOnce, Parent, IsDots;
    var t' := WithDir(t, d, n, i);
    DotsParent(t, root);
    WithDirDots(t, d, n, i);
    AddDirNames(t, root, d, n, i);
    AddDirHeld(t, t', root, d, n, i);
    assert RankedAt(t, root, depth, d);
    RankOfNew(t, t', root, depth, d, i);
  }

  lemma RankOfNew(t: Tables, t': Tables, root: nat, depth: Links, d: nat, i: nat)
    requires Ranked(t, root, depth) && root in t && d in t && d in depth && i !in t
    requires (forall x {:trigger Parent(t, x)} :: x in t ==> Parent(t, x) in t)
    requires t'.Keys == t.Keys + {i} && Parent(t', i) == d
    requires forall x {:trigger Parent(t', x)} :: x in t ==> Parent(t', x) == Parent(t, x)
    ensures Ranked(t', root, depth[i := depth[d] + 1])
  {
    hide RankedAt, Parent;
    forall x | x in t'
      ensures RankedAt(t', root, depth[i := depth[d] + 1], x)
    {
      assert RankedAt(t, root, depth, d);
      if x != i { assert RankedAt(t, root, depth, x); }
      RankedAfter(t, t', root, depth, d, i, x);
    }
  }

  lemma RankedAfter(t: Tables, t': Tables, root: nat, depth: Links, d: nat, i: nat, x: nat)
    requires d != i && root != i && d in depth && x in t'
    requires if x == i then Parent(t', x) == d else Parent(t', x) == Parent(t, x) != i && RankedAt(t, root, depth, x)
    ensures RankedAt(t', root, depth[i := depth[d] + 1], x)
  {
    hide Parent;
  }

  lemma AddDirNames(t: Tables, root: nat, d: nat, n: Name, i: nat)
    requires d in t && n !in t[d] && !IsDots(n) && i !in t && forall p, m :: p in t && m in t[p] ==> t[p][m] != i
    ensures forall p: nat, m: Name, x: nat ::
              NamesDir(WithDir(t, d, n, i), p, m, x) <==> NamesDir(t, p, m, x) || (p == d && m == n && x == i)
    ensures forall p: nat, m: Name :: !NamesDir(t, p, m, i)
  {
    hide WithDir, NamesDir, IsDots;
    forall p: nat, m: Name, x: nat
      ensures NamesDir(WithDir(t, d, n, i), p, m, x) <==> NamesDir(t, p, m, x) || (p == d && m == n && x == i)
      ensures !NamesDir(t, p, m, i)
    {
      WithDirNames(t, d, n, i, p, m, x);
      OnlyNewName(t, d, n, i, p, m, x);
    }
  }

  lemma OnlyNewName(t: Tables, d: nat, n: Name, i: nat, p: nat, m: Name, x: nat)
    requires d in t && n !in t[d] && forall p, m :: p in t && m in t[p] ==> t[p][m] != i
    ensures !NamesDir(t, p, m, i) && !NamesDir(t, d, n, x)
  {
  }

  lemma DotsParent(t: Tables, root: nat)
    requires DotsOk(t)
    ensures forall x {:trigger Parent(t, x)} :: x in t ==> Parent(t, x) in t
  {
  }

  lemma AddDirHeld(t: Tables, t': Tables, root: nat, d: nat, n: Name, i: nat)
    requires Held(t, root) && HeldOnce(t, root) && root in t && i !in t
    requires t'.Keys == t.Keys + {i} && Parent(t', i) == d && (forall x :: x in t ==> Parent(t', x) == Parent(t, x))
    requires forall p: nat, m: Name, x: nat ::
               NamesDir(t', p, m, x) <==> NamesDir(t, p, m, x) || (p == d && m == n && x == i)
    requires forall p: nat, m: Name :: !NamesDir(t, p, m, i)
    ensures Held(t', root) && HeldOnce(t', root)
  {
    hide NamesDir, Parent;
    forall x | x in t' && x != root
      ensures exists m :: NamesDir(t', Parent(t', x), m, x)
    {
      if x == i {
        assert NamesDir(t', Parent(t', x), n, x);
      } else {
        var m :| NamesDir(t, Parent(t, x), m, x);
        assert NamesDir(t', Parent(t', x), m, x);
      }
    }
  }

  /** An empty directory `i` is taken out: its entry, and its own table. */
  function WithoutDir(t: Tables, d: nat, n: Name, i: nat): Tables
    requires d in t
  {
    WithoutEntry(t, d, n) - {i}
  }

  lemma WithoutDirNames(t: Tables, d: nat, n: Name, i: nat, p: nat, m: Name, x: nat)
    requires NamesDir(t, d, n, i) && i in t && t[i] == EmptyDirTable(i, d)
    ensures x != i ==> (NamesDir(WithoutDir(t, d, n, i), p, m, x) <==> NamesDir(t, p, m, x))
  {
    if p == i { assert m in EmptyDirTable(i, d) ==> IsDots(m); }
  }

  lemma WithoutDirDots(t: Tables, root: nat, d: nat, n: Name, i: nat)
    requires DotsOk(t) && d in t && NamesDir(t, d, n, i) && i in t && i != d
    requires forall x :: x in t && x != i ==> Parent(t, x) != i
    ensures var t' := WithoutDir(t, d, n, i);
            && t'.Keys == t.Keys - {i} && DotsOk(t') && (forall x :: x in t' ==> Parent(t', x) == Parent(t, x))
  {
    hide DotsOk, Parent, SameDots, IsDots, WithoutDir, NamesDir;
    var t' := WithoutDir(t, d, n, i);
    DotsParent(t, root);
    WithoutDirKeys(t, d, n, i);
    forall x | x in t'
      ensures SameDots(t, t', x)
    {
      WithoutDirDotsAt(t, d, n, i, x);
    }
    DotsKept(t, t');
  }

  lemma WithoutDirKeys(t: Tables, d: nat, n: Name, i: nat)
    requires d in t
    ensures WithoutDir(t, d, n, i).Keys == t.Keys - {i}
  {
  }

  lemma WithoutDirDotsAt(t: Tables, d: nat, n: Name, i: nat, x: nat)
    requires NamesDir(t, d, n, i) && x in t && x != i
    ensures SameDots(t, WithoutDir(t, d, n, i), x)
  {
    hide SameDots;
    DotsUntouched(t, d, n, i, x);
    SameDotsBy(t, WithoutEntry(t, d, n), WithoutDir(t, d, n, i), x);
  }

  /** An empty directory is nobody's parent but its own. */
  lemma EmptyIsNoParent(t: Tables, root: nat, d: nat, i: nat)
    requires Held(t, root) && Parent(t, root) == root && i in t && i != root && t[i] == EmptyDirTable(i, d)
    ensures forall x :: x in t && x != i ==> Parent(t, x) != i
  {
    forall x | x in t && x != i
      ensures Parent(t, x) != i
    {
      if x != root {
        var m :| NamesDir(t, Parent(t, x), m, x);
        assert m in EmptyDirTable(i, d) ==> IsDots(m);
      }
    }
  }

  lemma RemoveDir(t: Tables, root: nat, depth: Links, d: nat, n: Name, i: nat)
    requires Treelike(t, root, depth) && d in t && NamesDir(t, d, n, i) && i in t && t[i] == EmptyDirTable(i, d)
    ensures i != d && i != root && Treelike(WithoutDir(t, d, n, i), root, depth)
  {
    hide WithoutDir, NamesDir, DotsOk, Held, Parent, Ranked;
    assert i != root && Parent(t, i) == d;
    NotItsOwnParent(t, root, depth, i);
    EmptyIsNoParent(t, root, d, i);
    WithoutDirDots(t, root, d, n, i);
    RemoveDirNames(t, d, n, i);
    FewerHeld(t, WithoutDir(t, d, n, i), root);
    FewerRanked(t, WithoutDir(t, d, n, i), root, depth);
  }

  lemma NotItsOwnParent(t: Tables, root: nat, depth: Links, i: nat)
    requires Ranked(t, root, depth) && i in t && i != root
    ensures Parent(t, i) != i
  {
  }

  lemma FewerRanked(t: Tables, t': Tables, root: nat, depth: Links)
    requires Ranked(t, root, depth) && t'.Keys <= t.Keys && (forall x :: x in t' ==> Parent(t', x) == Parent(t, x))
    ensures Ranked(t', root, depth)
  {
    hide Parent;
    forall x | x in t'
      ensures RankedAt(t', root, depth, x)
    {
      assert RankedAt(t, root, depth, x);
    }
  }

  lemma RemoveDirNames(t: Tables, d: nat, n: Name, i: nat)
    requires d in t && NamesDir(t, d, n, i) && i in t && t[i] == EmptyDirTable(i, d)
    ensures forall p: nat, m: Name, x: nat ::
              x != i ==> (NamesDir(WithoutDir(t, d, n, i), p, m, x) <==> NamesDir(t, p, m, x))
  {
    hide WithoutDir, NamesDir;
    forall p: nat, m: Name, x: nat | x != i
      ensures NamesDir(WithoutDir(t, d, n, i), p, m, x) <==> NamesDir(t, p, m, x)
    {
      WithoutDirNames(t, d, n, i, p, m, x);
    }
  }

  lemma FewerHeld(t: Tables, t': Tables, root: nat)
    requires Held(t, root) && HeldOnce(t, root) && t'.Keys <= t.Keys
    requires forall x :: x in t' ==> Parent(t', x) == Parent(t, x)
    requires forall p: nat, m: Name, x: nat :: x in t' ==> (NamesDir(t', p, m, x) <==> NamesDir(t, p, m, x))
    ensures Held(t', root) && HeldOnce(t', root)
  {
    hide NamesDir, Parent;
    forall x | x in t' && x != root
      ensures exists m :: NamesDir(t', Parent(t', x), m, x)
    {
      var m :| NamesDir(t, Parent(t, x), m, x);
      assert NamesDir(t', Parent(t', x), m, x);
    }
  }

  /** A new directory `i` gives itself two links and its parent one ... */
  function WithDirLinks(nlink: Links, dir: nat, i: nat): Links { Raise(Raise(nlink, dir, 1), i, 2) }

  /** ... and taking it away undoes this. */
  function WithoutDirLinks(nlink: Links, dir: nat, i: nat): Links { Drop(Drop(nlink, i, 2), dir, 1) }

  /** A moved directory takes the link of its ".." from `od` to `nd`. */
  function MovedLinks(nlink: Links, od: nat, nd: nat): Links { Drop(Raise(nlink, nd, 1), od, 1) }

  lemma CountAddDir(t: Tables, nlink: Links, d: nat, n: Name, i: nat)
    requires LinksCounted(t, nlink) && d in t && n !in t[d] && i !in nlink
    ensures d in nlink && LinksCounted(WithDir(t, d, n, i), WithDirLinks(nlink, d, i))
  {
    hide Refs;
    var t1 := WithEntry(t, d, n, i);
    Unreferenced(t, nlink, i);
    forall x: nat
      ensures Refs(WithDir(t, d, n, i), x) == Refs(t, x) + One(x == i) + One(x == i) + One(x == d)
    {
      RefsWith(t, d, n, i, x);
      RefsNewDir(t1, i, d, x);
    }
  }

  lemma CountRemoveDir(t: Tables, nlink: Links, d: nat, n: Name, i: nat)
    requires LinksCounted(t, nlink) && d in t && n in t[d] && t[d][n] == i && i in t && d != i
    requires t[i] == EmptyDirTable(i, d)
    ensures i in nlink && nlink[i] >= 2 && d in nlink && nlink[d] >= 1
    ensures LinksCounted(WithoutDir(t, d, n, i), WithoutDirLinks(nlink, d, i))
  {
    hide Refs;
    var t1 := WithoutEntry(t, d, n);
    forall x: nat
      ensures Refs(WithoutDir(t, d, n, i), x) + One(x == i) + One(x == i) + One(x == d) == Refs(t, x)
    {
      RefsWithout(t, d, n, x);
      RefsDropDir(t1, i, d, x);
    }
  }

  // ----- A directory moves

  function Moved(t: Tables, od: nat, on: Name, nd: nat, nn: Name, i: nat): Tables
    requires od in t && nd in t && i in t
  {
    WithEntry(WithoutEntry(WithEntry(t, nd, nn, i), od, on), i, DOTDOT, nd)
  }

  /** A directory `i` moves from (`od`, `on`) to the fresh name (`nd`, `nn`), not into itself. */
  ghost predicate CanMove(t: Tables, root: nat, depth: Links, od: nat, on: Name, nd: nat, nn: Name, i: nat)
  {
    && Treelike(t, root, depth) && od in t && nd in t && i in t && NamesDir(t, od, on, i)
    && nn !in t[nd] && !IsDots(nn) && Climbs(t, root, depth) && !Below(t, root, depth, nd, i)
  }

  lemma MovedNames(t: Tables, od: nat, on: Name, nd: nat, nn: Name, i: nat, p: nat, m: Name, x: nat)
    requires od in t && nd in t && i in t && NamesDir(t, od, on, i) && nn !in t[nd] && !IsDots(nn)
    ensures NamesDir(Moved(t, od, on, nd, nn, i), p, m, x) <==>
              if p == nd && m == nn then x == i else NamesDir(t, p, m, x) && !(p == od && m == on)
  {
    MovedNames1(t, nd, nn, i, p, m, x);
    var t1 := WithEntry(t, nd, nn, i);
    MovedNames2(t1, od, on, p, m, x);
    MovedNames3(WithoutEntry(t1, od, on), i, nd, p, m, x);
  }

  lemma MovedNames1(t: Tables, nd: nat, nn: Name, i: nat, p: nat, m: Name, x: nat)
    requires nd in t && !IsDots(nn)
    ensures NamesDir(WithEntry(t, nd, nn, i), p, m, x) <==> if p == nd && m == nn then x == i else NamesDir(t, p, m, x)
  {
    hide IsDots;
  }

  lemma MovedNames2(t: Tables, od: nat, on: Name, p: nat, m: Name, x: nat)
    requires od in t
    ensures NamesDir(WithoutEntry(t, od, on), p, m, x) <==> NamesDir(t, p, m, x) && !(p == od && m == on)
  {
    hide IsDots;
  }

  lemma MovedNames3(t: Tables, i: nat, nd: nat, p: nat, m: Name, x: nat)
    requires i in t
    ensures NamesDir(WithEntry(t, i, DOTDOT, nd), p, m, x) <==> NamesDir(t, p, m, x)
  {
  }

  lemma MovedDotsAt(t: Tables, od: nat, on: Name, nd: nat, nn: Name, i: nat, x: nat)
    requires od in t && nd in t && i in t && x in t && !IsDots(on) && !IsDots(nn)
    ensures var t' := Moved(t, od, on, nd, nn, i);
            && x in t' && (DOT in t[x] ==> DOT in t'[x] && t'[x][DOT] == t[x][DOT])
            && (if x == i then DOTDOT in t'[x] && t'[x][DOTDOT] == nd
                else DOTDOT in t[x] ==> DOTDOT in t'[x] && t'[x][DOTDOT] == t[x][DOTDOT])
  {
    hide IsDots;
    var t1 := WithEntry(t, nd, nn, i);
    var t2 := WithoutEntry(t1, od, on);
    DotsUntouched(t, nd, nn, i, x);
    DotsUntouched(t1, od, on, i, x);
    DotsDiffer();
  }

  lemma MovedDots(t: Tables, od: nat, on: Name, nd: nat, nn: Name, i: nat)
    requires DotsOk(t) && od in t && nd in t && i in t && !IsDots(on) && !IsDots(nn)
    ensures var t' := Moved(t, od, on, nd, nn, i);
            && t'.Keys == t.Keys && DotsOk(t')
            && forall x :: x in t ==> Parent(t', x) == if x == i then nd else Parent(t, x)
  {
    hide Moved, IsDots;
    MovedKeys(t, od, on, nd, nn, i);
    forall x | x in t
      ensures var t' := Moved(t, od, on, nd, nn, i);
              && x in t' && DOT in t'[x] && t'[x][DOT] == x && DOTDOT in t'[x]
              && t'[x][DOTDOT] == if x == i then nd else Parent(t, x)
    {
      MovedDotsAt(t, od, on, nd, nn, i, x);
    }
  }

  lemma MovedKeys(t: Tables, od: nat, on: Name, nd: nat, nn: Name, i: nat)
    requires od in t && nd in t && i in t
    ensures Moved(t, od, on, nd, nn, i).Keys == t.Keys
  {
  }

  /** The depths after the move: the moved subtree hangs below its new parent. */
  function Deeper(t: Tables, root: nat, depth: Links, i: nat, nd: nat): Links
    requires Climbs(t, root, depth) && nd in depth
  {
    map x | x in t :: if Below(t, root, depth, x, i) then depth[x] + depth[nd] + 1 else depth[x]
  }

  lemma MovedRank(t: Tables, t': Tables, root: nat, depth: Links, nd: nat, i: nat)
    requires Climbs(t, root, depth) && nd in t && i in t && !Below(t, root, depth, nd, i)
    requires t'.Keys == t.Keys && forall x :: x in t ==> Parent(t', x) == if x == i then nd else Parent(t, x)
    ensures Ranked(t', root, Deeper(t, root, depth, i, nd))
  {
    hide Parent;
    var depth' := Deeper(t, root, depth, i, nd);
    forall x | x in t' && x != root
      ensures Parent(t', x) in depth' && depth'[Parent(t', x)] < depth'[x]
    {
      if x != i { assert Below(t, root, depth, x, i) <==> Below(t, root, depth, Parent(t, x), i); }
    }
  }

  lemma MovedHeld(t: Tables, t': Tables, root: nat, od: nat, on: Name, nd: nat, nn: Name, i: nat)
    requires Held(t, root) && HeldOnce(t, root) && i in t && NamesDir(t, od, on, i)
    requires t'.Keys == t.Keys && forall x :: x in t ==> Parent(t', x) == if x == i then nd else Parent(t, x)
    requires forall x: nat :: !NamesDir(t, nd, nn, x)
    requires forall p: nat, m: Name, x: nat :: NamesDir(t', p, m, x) <==>
               if p == nd && m == nn then x == i else NamesDir(t, p, m, x) && !(p == od && m == on)
    ensures Held(t', root) && HeldOnce(t', root)
  {
    hide NamesDir, Parent;
    forall p: nat, m: Name, x: nat | NamesDir(t', p, m, x) && x in t' && x == i
      ensures p == nd && m == nn
    {
    }
    forall x | x in t' && x != root
      ensures exists m :: NamesDir(t', Parent(t', x), m, x)
    {
      if x == i {
        assert NamesDir(t', Parent(t', x), nn, x);
      } else {
        var m :| NamesDir(t, Parent(t, x), m, x);
        MovedOther(t, od, on, i, Parent(t, x), m, x);
        assert NamesDir(t', Parent(t', x), m, x);
      }
    }
  }

  /** One entry names one inode. */
  lemma MovedOther(t: Tables, od: nat, on: Name, i: nat, p: nat, m: Name, x: nat)
    requires NamesDir(t, od, on, i) && NamesDir(t, p, m, x) && x != i
    ensures !(p == od && m == on)
  {
  }

  lemma MoveDir(t: Tables, root: nat, depth: Links, od: nat, on: Name, nd: nat, nn: Name, i: nat)
    requires CanMove(t, root, depth, od, on, nd, nn, i)
    ensures i != root && i != nd && Treelike(Moved(t, od, on, nd, nn, i), root, Deeper(t, root, depth, i, nd))
  {
    hide Moved, NamesDir, DotsOk, Held, HeldOnce, Parent, IsDots, Ranked, Climbs, Deeper, Below;
    MoveIsProper(t, root, depth, od, on, nd, nn, i);
    var t' := Moved(t, od, on, nd, nn, i);
    MovedDots(t, od, on, nd, nn, i);
    MovedRank(t, t', root, depth, nd, i);
    forall p: nat, m: Name, x: nat
      ensures NamesDir(t', p, m, x) <==>
                if p == nd && m == nn then x == i else NamesDir(t, p, m, x) && !(p == od && m == on)
    {
      MovedNames(t, od, on, nd, nn, i, p, m, x);
    }
    MovedHeld(t, t', root, od, on, nd, nn, i);
  }

  lemma MoveIsProper(t: Tables, root: nat, depth: Links, od: nat, on: Name, nd: nat, nn: Name, i: nat)
    requires CanMove(t, root, depth, od, on, nd, nn, i)
    ensures i != root && i != nd && !IsDots(on)
    ensures forall x: nat :: !NamesDir(t, nd, nn, x)
  {
  }

  lemma CountMoveDir(t: Tables, nlink: Links, od: nat, on: Name, nd: nat, nn: Name, i: nat)
    requires LinksCounted(t, nlink) && od in t && nd in t && i in t && NamesDir(t, od, on, i) && nn !in t[nd]
    requires !IsDots(nn) && Parent(t, i) == od && DOTDOT in t[i]
    ensures nd in nlink && od in nlink && nlink[od] > 0
    ensures LinksCounted(Moved(t, od, on, nd, nn, i), MovedLinks(nlink, od, nd))
  {
    hide Refs, NamesDir, IsDots, Moved;
    Referenced(t, i, DOTDOT);
    MovedKeys(t, od, on, nd, nn, i);
    forall x: nat
      ensures Refs(Moved(t, od, on, nd, nn, i), x) + One(x == od) == Refs(t, x) + One(x == nd)
    {
      MovedRefs(t, od, on, nd, nn, i, x);
    }
    MovedTargets(t, nlink.Keys, od, on, nd, nn, i);
    Recounted(t, Moved(t, od, on, nd, nn, i), nlink, od, nd);
  }

  lemma MovedRefs(t: Tables, od: nat, on: Name, nd: nat, nn: Name, i: nat, x: nat)
    requires od in t && nd in t && i in t && NamesDir(t, od, on, i) && nn !in t[nd] && !IsDots(nn)
    requires Parent(t, i) == od && DOTDOT in t[i]
    ensures Refs(Moved(t, od, on, nd, nn, i), x) + One(x == od) == Refs(t, x) + One(x == nd)
  {
    hide Refs, NamesDir, IsDots;
    var t1 := WithEntry(t, nd, nn, i);
    MoveSteps(t, od, on, nd, nn, i);
    RefsWith(t, nd, nn, i, x);
    RefsWithout(t1, od, on, x);
    RefsOver(WithoutEntry(t1, od, on), i, DOTDOT, nd, x);
  }

  /** One reference moves from `od` to `nd`. */
  lemma Recounted(t: Tables, t': Tables, nlink: Links, od: nat, nd: nat)
    requires LinksCounted(t, nlink) && od in nlink && nd in nlink && nlink[od] > 0 && t'.Keys == t.Keys
    requires forall x: nat :: Refs(t', x) + One(x == od) == Refs(t, x) + One(x == nd)
    requires forall d, n :: d in t' && n in t'[d] ==> t'[d][n] in nlink.Keys
    ensures LinksCounted(t', MovedLinks(nlink, od, nd))
  {
    hide Refs;
  }

  lemma MovedTargets(t: Tables, known: set<nat>, od: nat, on: Name, nd: nat, nn: Name, i: nat)
    requires od in t && nd in t && i in t && i in known && nd in known
    requires forall d, n :: d in t && n in t[d] ==> t[d][n] in known
    ensures var t' := Moved(t, od, on, nd, nn, i); forall d, n :: d in t' && n in t'[d] ==> t'[d][n] in known
  {
  }

  lemma MoveSteps(t: Tables, od: nat, on: Name, nd: nat, nn: Name, i: nat)
    requires od in t && nd in t && i in t && NamesDir(t, od, on, i) && nn !in t[nd] && !IsDots(nn) && DOTDOT in t[i]
    ensures var t1 := WithEntry(t, nd, nn, i); var t2 := WithoutEntry(t1, od, on);
            && on in t1[od] && t1[od][on] == i && DOTDOT in t2[i] && t2[i][DOTDOT] == t[i][DOTDOT]
  {
    DotsUntouched(t, nd, nn, i, i);
    DotsUntouched(WithEntry(t, nd, nn, i), od, on, i, i);
  }
}
