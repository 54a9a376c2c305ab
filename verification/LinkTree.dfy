/** The namespace as a value: the tables of the linked directories, and the link counts. */
module LinkTree {
  import opened DirImage
  import opened DirWalk

  type Tables = map<nat, map<Name, nat>>

  /** The entries that name inode `i`, as (directory, name). */
  function RefSet(t: Tables, i: nat): set<(nat, Name)>
  {
    set d, n | d in t && n in t[d] && t[d][n] == i :: (d, n)
  }

  function Refs(t: Tables, i: nat): nat { |RefSet(t, i)| }

  /** Adding, removing and overwriting one entry. */
  function WithEntry(t: Tables, d: nat, n: Name, i: nat): Tables
    requires d in t
  {
    var m: map<Name, nat> := t[d][n := i];
    t[d := m]
  }

  function WithoutEntry(t: Tables, d: nat, n: Name): Tables
    requires d in t
  {
    var m: map<Name, nat> := t[d] - {n};
    t[d := m]
  }

  function One(b: bool): nat { if b then 1 else 0 }

  lemma RefsWith(t: Tables, d: nat, n: Name, i: nat, x: nat)
    requires d in t && n !in t[d]
    ensures Refs(WithEntry(t, d, n, i), x) == Refs(t, x) + One(x == i)
  {
    var t' := WithEntry(t, d, n, i);
    forall k: nat, m: Name
      ensures (k, m) in RefSet(t', x) <==> (k, m) in RefSet(t, x) || (x == i && k == d && m == n)
    {
      hide WithEntry;
      RefSetOfWith(t, d, n, i, x, k, m);
    }
    if x == i {
      assert RefSet(t', x) == RefSet(t, x) + {(d, n)};
      assert (d, n) !in RefSet(t, x);
    } else {
      assert RefSet(t', x) == RefSet(t, x);
    }
  }

  lemma RefSetOfWith(t: Tables, d: nat, n: Name, i: nat, x: nat, k: nat, m: Name)
    requires d in t
    ensures (k, m) in RefSet(WithEntry(t, d, n, i), x) <==>
              if k == d && m == n then x == i else (k, m) in RefSet(t, x)
  {
  }

  lemma RefsWithout(t: Tables, d: nat, n: Name, x: nat)
    requires d in t && n in t[d]
    ensures Refs(WithoutEntry(t, d, n), x) + One(x == t[d][n]) == Refs(t, x)
  {
    var t' := WithoutEntry(t, d, n);
    assert n !in t'[d];
    RefsWith(t', d, n, t[d][n], x);
    assert WithEntry(t', d, n, t[d][n])[d] == t[d];
    assert WithEntry(t', d, n, t[d][n]) == t;
  }

  lemma RefsOver(t: Tables, d: nat, n: Name, i: nat, x: nat)
    requires d in t && n in t[d]
    ensures Refs(WithEntry(t, d, n, i), x) + One(x == t[d][n]) == Refs(t, x) + One(x == i)
  {
    var t' := WithoutEntry(t, d, n);
    RefsWithout(t, d, n, x);
    RefsWith(t', d, n, i, x);
    assert WithEntry(t', d, n, i)[d] == t[d][n := i];
    assert WithEntry(t', d, n, i) == WithEntry(t, d, n, i);
  }

  lemma RefsNewDir(t: Tables, d: nat, p: nat, x: nat)
    requires d !in t
    ensures Refs(t[d := EmptyDirTable(d, p)], x) == Refs(t, x) + One(x == d) + One(x == p)
  {
    DotsDiffer();
    var t0 := t[d := map[]];
    assert RefSet(t0, x) == RefSet(t, x);
    RefsWith(t0, d, DOT, d, x);
    var t1 := WithEntry(t0, d, DOT, d);
    RefsWith(t1, d, DOTDOT, p, x);
    assert WithEntry(t1, d, DOTDOT, p) == t[d := EmptyDirTable(d, p)];
  }

  lemma RefsDropDir(t: Tables, d: nat, p: nat, x: nat)
    requires d in t && t[d] == EmptyDirTable(d, p)
    ensures Refs(t - {d}, x) + One(x == d) + One(x == p) == Refs(t, x)
  {
    RefsNewDir(t - {d}, d, p, x);
    assert (t - {d})[d := EmptyDirTable(d, p)] == t;
  }

  lemma DotsDiffer()
    ensures DOT != DOTDOT
  {
    assert |DOT| != |DOTDOT|;
  }

  predicate IsDots(n: Name) { n == DOT || n == DOTDOT }

  /** Where ".." leads. */
  function Parent(t: Tables, d: nat): nat
  {
    if d in t && DOTDOT in t[d] then t[d][DOTDOT] else d
  }

  /** Entry `n` of `p` names directory `d`, and is not one of the dots. */
  predicate NamesDir(t: Tables, p: nat, n: Name, d: nat)
  {
    p in t && n in t[p] && !IsDots(n) && t[p][n] == d
  }

  /** Every directory has its dots, and ".." names a directory. */
  ghost predicate DotsOk(t: Tables)
  {
    forall d :: d in t ==> DOT in t[d] && t[d][DOT] == d && DOTDOT in t[d] && Parent(t, d) in t
  }

  /** `depth` grows from parent to child. */
  ghost predicate Ranked(t: Tables, root: nat, depth: map<nat, nat>)
  {
    forall d :: d in t ==> RankedAt(t, root, depth, d)
  }

  predicate RankedAt(t: Tables, root: nat, depth: map<nat, nat>, d: nat)
  {
    d in depth && (d == root || (Parent(t, d) in depth && depth[Parent(t, d)] < depth[d]))
  }

  /** Every directory but the root is named by an entry of the directory its ".." names ... */
  ghost predicate Held(t: Tables, root: nat)
  {
    forall d :: d in t && d != root ==> exists n :: NamesDir(t, Parent(t, d), n, d)
  }

  /** ... and by no other entry; nothing names the root. */
  ghost predicate HeldOnce(t: Tables, root: nat)
  {
    && (forall p, n, d :: NamesDir(t, p, n, d) && d in t ==> d != root && p == Parent(t, d))
    && (forall p, n, n', d :: NamesDir(t, p, n, d) && NamesDir(t, p, n', d) && d in t ==> n == n')
  }

  /** The linked directories form a tree. */
  ghost predicate Treelike(t: Tables, root: nat, depth: map<nat, nat>)
  {
    && DotsOk(t) && root in t && Parent(t, root) == root
    && Ranked(t, root, depth) && Held(t, root) && HeldOnce(t, root)
  }

  /** Every link count is the number of entries that name the inode, and every entry names an existing inode. */
  ghost predicate LinksCounted(t: Tables, nlink: map<nat, nat>)
  {
    && (forall i :: i in nlink ==> nlink[i] == Refs(t, i))
    && (forall d, n :: d in t && n in t[d] ==> t[d][n] in nlink)
    && t.Keys <= nlink.Keys
  }

  lemma HasCount(t: Tables, nlink: map<nat, nat>, i: nat)
    requires LinksCounted(t, nlink) && i in t
    ensures i in nlink
  {
  }

  lemma HasDot(t: Tables, root: nat, depth: map<nat, nat>, i: nat)
    requires Treelike(t, root, depth) && i in t
    ensures DOT in t[i] && t[i][DOT] == i
  {
  }

  lemma Referenced(t: Tables, d: nat, n: Name)
    requires d in t && n in t[d]
    ensures Refs(t, t[d][n]) > 0
  {
    assert (d, n) in RefSet(t, t[d][n]);
  }

  /** A number that is not in use is in no table ... */
  lemma Unnamed(t: Tables, nlink: map<nat, nat>, i: nat)
    requires LinksCounted(t, nlink) && i !in nlink
    ensures i !in t && forall p, m :: p in t && m in t[p] ==> t[p][m] != i
  {
  }

  /** ... and neither is one without links. */
  lemma Forgotten(t: Tables, root: nat, depth: map<nat, nat>, nlink: map<nat, nat>, i: nat)
    requires Treelike(t, root, depth) && LinksCounted(t, nlink) && i in nlink && nlink[i] == 0
    ensures i !in t && LinksCounted(t, nlink - {i})
  {
    hide Refs, Treelike;
    if i in t {
      HasDot(t, root, depth, i);
      Referenced(t, i, DOT);
      assert false;
    }
    forall d, n | d in t && n in t[d]
      ensures t[d][n] != i
    {
      Referenced(t, d, n);
    }
  }

  /** A filesystem with only the root. */
  lemma RootAlone(root: nat)
    ensures var t := map[root := EmptyDirTable(root, root)];
            Treelike(t, root, map[root := 0]) && LinksCounted(t, map[root := 2])
  {
    var t: Tables := map[];
    DotsDiffer();
    RefsNewDir(t, root, root, root);
    assert RefSet(t, root) == {};
    assert t[root := EmptyDirTable(root, root)] == map[root := EmptyDirTable(root, root)];
  }

  /** `x` lies in the directory `a`, at any depth, or is `a`. */
  predicate Below(t: Tables, root: nat, depth: map<nat, nat>, x: nat, a: nat)
    requires x in t && Climbs(t, root, depth)
    decreases depth[x]
  {
    x == a || (x != root && Below(t, root, depth, Parent(t, x), a))
  }

  /** The same, for any directory. */
  ghost predicate Under(t: Tables, root: nat, depth: map<nat, nat>, x: nat, a: nat)
  {
    x in t && Climbs(t, root, depth) && Below(t, root, depth, x, a)
  }

  /** That is, ".." leads from `x` to `a` in some number of steps, without stepping up from the root ... */
  lemma {:induction false} BelowIsClimb(t: Tables, root: nat, depth: map<nat, nat>, x: nat, a: nat)
    returns (path: seq<nat>)
    requires x in t && Climbs(t, root, depth) && Below(t, root, depth, x, a)
    ensures |path| > 0 && path[0] == x && path[|path| - 1] == a
    ensures forall i :: 0 <= i < |path| - 1 ==> path[i] in t && path[i] != root && path[i + 1] == Parent(t, path[i])
    decreases depth[x]
  {
    if x == a {
      path := [x];
    } else {
      var rest := BelowIsClimb(t, root, depth, Parent(t, x), a);
      path := [x] + rest;
    }
  }

  /** ... and if it does, `x` is below `a`. */
  lemma {:induction false} ClimbIsBelow(t: Tables, root: nat, depth: map<nat, nat>, path: seq<nat>)
    requires |path| > 0 && path[0] in t && Climbs(t, root, depth)
    requires forall i :: 0 <= i < |path| - 1 ==> path[i] in t && path[i] != root && path[i + 1] == Parent(t, path[i])
    ensures Below(t, root, depth, path[0], path[|path| - 1])
    decreases |path|
  {
    if |path| > 1 {
      assert path[1] == Parent(t, path[0]);
      ClimbIsBelow(t, root, depth, path[1..]);
    }
  }

  /** What the climb from a directory to the root relies on. */
  predicate Climbs(t: Tables, root: nat, depth: map<nat, nat>)
  {
    && t.Keys <= depth.Keys
    && forall d :: d in t ==> Parent(t, d) in t && (d != root ==> depth[Parent(t, d)] < depth[d])
  }

  lemma TreeClimbs(t: Tables, root: nat, depth: map<nat, nat>)
    requires Treelike(t, root, depth)
    ensures Climbs(t, root, depth)
  {
  }

  /** From every directory the climb ends at the root. */
  lemma {:induction false} EverythingBelowRoot(t: Tables, root: nat, depth: map<nat, nat>, x: nat)
    requires x in t && Climbs(t, root, depth)
    ensures Below(t, root, depth, x, root)
    decreases depth[x]
  {
    if x != root { EverythingBelowRoot(t, root, depth, Parent(t, x)); }
  }
}
