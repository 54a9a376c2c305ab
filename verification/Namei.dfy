/** namei.c: the operations on names, over the directories of dir.c. */
module Namei {
  import opened DirImage
  import opened DirChain
  import opened DirPages
  import opened DirWalk
  import opened Directories
  import opened DirRuns
  import opened NameOps
  import opened LinkTree
  import opened LinkMoves
  import opened Renames

  datatype RmdirResult = NotEmpty | NoEntry | Removed

  /** The entries of every directory. */
  type Records = map<nat, set<Entry>>

  class Namespace {
    const f: Format
    const root: nat
    var dirs: map<nat, Directory>
    var nlink: Links               // i_nlink of every inode in use
    ghost var live: set<nat>       // the directories that are linked into the tree
    ghost var depth: Links

    ghost predicate Objects()
      reads this`dirs, this`live
    {
      live <= dirs.Keys && forall i, j :: i in dirs && j in dirs && i != j ==> dirs[i] != dirs[j]
    }

    ghost predicate DirOk(k: nat)
      requires k in dirs
      reads this`dirs, dirs[k]
    {
      Ready(dirs[k]) && dirs[k].f == f && dirs[k].self == k
    }

    ghost predicate DirsOk()
      reads this`dirs, this`live, dirs.Values
      ensures DirsOk() ==> live <= dirs.Keys
    {
      Objects() && forall k :: k in live ==> DirOk(k)
    }

    ghost function Tree(): (t: Tables)
      requires DirsOk()
      reads this`dirs, this`live, dirs.Values
      ensures t.Keys == live
    {
      map k | k in live :: dirs[k].Dict()
    }

    ghost function Stored(): Records
      reads this`dirs, dirs.Values
    {
      map k | k in dirs :: dirs[k].Ents()
    }

    /** The part of the invariant that does not concern the tree. */
    ghost predicate NumbersOk()
      reads this`dirs, this`live, this`nlink
    {
      FormatOk(f) && Unlinked(dirs.Keys, live, nlink, f.maxIno)
    }

    /** The directories form a tree, every link count is the number of live entries naming the inode, and directories
        that are no longer linked have a count of zero. */
    ghost predicate Valid()
      reads this, dirs.Values
    {
      DirsOk() && Treelike(Tree(), root, depth) && LinksCounted(Tree(), nlink) && NumbersOk()
    }

    /** A filesystem with an empty root. */
    constructor (f: Format, root: nat)
      requires FormatOk(f) && 0 < root <= f.maxIno
      ensures this.f == f && this.root == root && Valid()
      ensures Tree() == map[root := EmptyDirTable(root, root)] && nlink == map[root := 2]
      ensures forall d :: d in dirs.Values ==> fresh(d)
    {
      hide Ready, Directory.Dict, Directory.Ents, Treelike, LinksCounted;
      this.f, this.root := f, root;
      var d, ok := NewDirectory(f, root, root, true);
      dirs, nlink, live, depth := map[root := d], map[root := 2], {root}, map[root := 0];
      new;
      assert Tree() == map[root := EmptyDirTable(root, root)];
      RootAlone(root);
    }

    lemma IsValid(t: Tables)
      requires DirsOk() && Tree() == t && Treelike(t, root, depth) && LinksCounted(t, nlink) && NumbersOk()
      ensures Valid()
    {
      hide DirOk, Treelike, LinksCounted;
    }

    // ----- Directory operations, seen in the tree

    method Find(k: nat, name: Name) returns (r: Option<nat>, ghost e: Entry)
      requires DirsOk() && k in live
      modifies dirs[k]
      ensures DirsOk() && Tree() == old(Tree()) && Stored() == old(Stored())
      ensures r.Some? <==> name in Tree()[k]
      ensures r.Some? ==> Recorded(Stored(), k, e) && e.pos == r.value && e.name == name && e.ino == Tree()[k][name]
    {
      hide Ready, Directory.Dict, Directory.Ents;
      r, e := FindName(dirs[k], name);
      assert Tree() == old(Tree());
      assert Stored() == old(Stored());
    }

    /** `ext2_add_link` of a name that was looked up as absent. */
    method Add(k: nat, name: Name, ino: nat, prepared: bool) returns (ok: bool)
      requires DirsOk() && k in live && 1 <= |name| <= NAME_LEN_MAX && 0 < ino <= f.maxIno && name !in Tree()[k]
      modifies dirs[k]
      ensures DirsOk() && ok == prepared && Kept(old(Stored()), Stored(), k, name)
      ensures ok ==> Tree() == WithEntry(old(Tree()), k, name, ino)
      ensures !ok ==> Tree() == old(Tree())
    {
      hide Ready, Directory.Dict, Directory.Ents;
      ok := AddName(dirs[k], name, ino, prepared);
      assert Tree() == if ok then WithEntry(old(Tree()), k, name, ino) else old(Tree());
    }

    /** `ext2_delete_entry` of an entry that was found. */
    method Remove(k: nat, pos: nat, ghost e: Entry)
      requires DirsOk() && k in live && Recorded(Stored(), k, e) && e.pos == pos && !IsDots(e.name)
      modifies dirs[k]
      ensures DirsOk() && Tree() == WithoutEntry(old(Tree()), k, e.name) && Kept(old(Stored()), Stored(), k, e.name)
    {
      hide Ready, Directory.Dict, Directory.Ents, IsDots;
      RemoveName(dirs[k], pos, e);
      assert Tree() == WithoutEntry(old(Tree()), k, e.name);
    }

    /** `ext2_set_link` on an entry that was found. */
    method Relink(k: nat, pos: nat, ino: nat, ghost e: Entry)
      requires DirsOk() && k in live && Recorded(Stored(), k, e) && e.pos == pos && e.name != DOT && 0 < ino <= f.maxIno
      modifies dirs[k]
      ensures DirsOk() && Tree() == WithEntry(old(Tree()), k, e.name, ino) && Kept(old(Stored()), Stored(), k, e.name)
    {
      hide Ready, Directory.Dict, Directory.Ents;
      RelinkName(dirs[k], pos, ino, e);
      assert Tree() == WithEntry(old(Tree()), k, e.name, ino);
    }

    /** `ext2_empty_dir`. */
    method Empty(k: nat) returns (empty: bool)
      requires DirsOk() && k in live
      modifies dirs[k]
      ensures DirsOk() && Tree() == old(Tree()) && Stored() == old(Stored())
      ensures empty <==> Tree()[k].Keys == {DOT, DOTDOT}
    {
      hide Ready, Directory.Dict, Directory.Ents;
      empty := IsEmpty(dirs[k]);
      assert Tree() == old(Tree());
      assert Stored() == old(Stored());
    }

    /** `ext2_dotdot`. */
    method Upward(k: nat) returns (pos: nat, ghost e: Entry)
      requires DirsOk() && k in live
      modifies dirs[k]
      ensures DirsOk() && Tree() == old(Tree()) && Stored() == old(Stored())
      ensures Recorded(Stored(), k, e) && e.pos == pos && e.name == DOTDOT
    {
      hide Ready, Directory.Dict, Directory.Ents;
      pos, e := FindDotDot(dirs[k]);
      assert Tree() == old(Tree());
      assert Stored() == old(Stored());
    }

    // ----- Directories come and go

    /** A new directory object. */
    method Store(i: nat, d: Directory)
      requires DirsOk() && i !in dirs && d !in dirs.Values
      modifies this`dirs
      ensures DirsOk() && Tree() == old(Tree()) && dirs == old(dirs)[i := d]
    {
      hide Ready, Directory.Dict, Directory.Ents;
      dirs := dirs[i := d];
      assert Tree() == old(Tree());
    }

    /** A directory that is not linked is dropped. */
    method Discard(i: nat)
      requires DirsOk() && i !in live
      modifies this`dirs
      ensures DirsOk() && Tree() == old(Tree()) && dirs == old(dirs) - {i}
    {
      hide Ready, Directory.Dict, Directory.Ents;
      dirs := dirs - {i};
      assert Tree() == old(Tree());
    }

    /** A directory joins the tree ... */
    ghost method Publish(i: nat)
      requires DirsOk() && i in dirs && DirOk(i)
      modifies this`live
      ensures DirsOk() && Tree() == old(Tree())[i := dirs[i].Dict()] && live == old(live) + {i}
    {
      hide Ready, Directory.Dict, Directory.Ents;
      live := live + {i};
      assert Tree() == old(Tree())[i := dirs[i].Dict()];
    }

    /** ... or leaves it. */
    ghost method Withdraw(i: nat)
      requires DirsOk()
      modifies this`live
      ensures DirsOk() && Tree() == old(Tree()) - {i} && live == old(live) - {i}
    {
      hide Ready, Directory.Dict, Directory.Ents;
      live := live - {i};
      assert Tree() == old(Tree()) - {i};
    }

    /** A removed directory leaves the tree, and its size becomes 0. */
    method Truncate(i: nat)
      requires DirsOk() && i in live
      modifies this`live, dirs[i]
      ensures DirsOk() && Tree() == old(Tree()) - {i} && live == old(live) - {i}
    {
      hide Ready, Directory.Dict, Directory.Ents;
      Withdraw(i);
      ghost var t := Tree();
      dirs[i].size := 0;
      assert Tree() == t;
    }

    // ----- Link counts

    method IncLinkCount(i: nat)
      requires i in nlink
      modifies this`nlink
      ensures nlink == Raise(old(nlink), i, 1)
    {
      nlink := nlink[i := nlink[i] + 1];
    }

    method DecLinkCount(i: nat)
      requires i in nlink && nlink[i] > 0
      modifies this`nlink
      ensures nlink == Drop(old(nlink), i, 1)
    {
      nlink := nlink[i := nlink[i] - 1];
    }

    /** An inode from `ext2_new_inode`, with the one link it starts with ... */
    method NewInode(i: nat)
      requires i !in nlink
      modifies this`nlink
      ensures nlink == Raise(old(nlink), i, 1)
    {
      nlink := nlink[i := 1];
    }

    /** ... and without links again, given back. */
    method DiscardNewInode(i: nat)
      requires i in nlink && nlink[i] == 0
      modifies this`nlink
      ensures nlink == old(nlink) - {i}
    {
      nlink := nlink - {i};
    }

    lemma LiveInode(k: nat)
      requires Valid() && k in live
      ensures k in nlink && 0 < k <= f.maxIno
    {
      hide DirsOk, Tree, Treelike, LinksCounted, Unlinked;
      HasCount(Tree(), nlink, k);
      CountInRange(dirs.Keys, live, nlink, f.maxIno, k);
    }

    // ----- Plain inodes

    /** The caller has looked the name up as absent. */
    ghost predicate NewName(dir: nat, name: Name)
      requires DirsOk()
      reads this`dirs, this`live, dirs.Values
    {
      dir in live && 1 <= |name| <= NAME_LEN_MAX && !IsDots(name) && name !in Tree()[dir]
    }

    /** What `ext2_new_inode` returns: an unused number, or nothing. */
    ghost predicate Unused(ino: Option<nat>)
      reads this`dirs, this`nlink
    {
      ino.Some? ==> 0 < ino.value <= f.maxIno && ino.value !in nlink && ino.value !in dirs
    }

    /** `ext2_create`, `ext2_mknod` and the last step of `ext2_symlink`: a new inode gets its name, or is discarded
        (namei.c:14-50, 227-243). */
    method Create(dir: nat, name: Name, ino: Option<nat>, prepared: bool) returns (done: bool)
      requires Valid() && NewName(dir, name) && Unused(ino)
      modifies this`nlink, dirs.Values
      ensures Valid() && (done <==> ino.Some? && prepared)
      ensures done ==> Tree() == WithEntry(old(Tree()), dir, name, ino.value) && nlink == old(nlink)[ino.value := 1]
      ensures !done ==> Tree() == old(Tree()) && nlink == old(nlink)
    {
      hide DirsOk, Tree, Stored, Treelike, LinksCounted, WithEntry, IsDots, Unlinked, Raise, Drop, FormatOk;
      if ino.None? { return false; }
      var i := ino.value;
      ghost var t, links := Tree(), nlink;
      NewCount(dirs.Keys, live, t, links, i, f.maxIno);
      NewInode(i);
      done := Add(dir, name, i, prepared);
      if !done {
        DecLinkCount(i);
        DiscardNewInode(i);
        IsValid(t);
        return;
      }
      AddPlain(t, root, depth, dir, name, i);
      CountAdd(t, links, dir, name, i);
      IsValid(WithEntry(t, dir, name, i));
    }

    /** `ext2_link` on an inode that is not a directory (namei.c:79-99). */
    method Link(ino: nat, dir: nat, name: Name, prepared: bool) returns (done: bool)
      requires Valid() && NewName(dir, name) && ino in nlink && nlink[ino] > 0 && ino !in live
      modifies this`nlink, dirs.Values
      ensures Valid() && (done <==> prepared)
      ensures done ==> Tree() == WithEntry(old(Tree()), dir, name, ino) && nlink == Raise(old(nlink), ino, 1)
      ensures !done ==> Tree() == old(Tree()) && nlink == old(nlink)
    {
      hide DirsOk, Tree, Stored, Treelike, LinksCounted, WithEntry, IsDots, Unlinked, Raise, Drop, FormatOk;
      ghost var t, links := Tree(), nlink;
      MoreLinks(dirs.Keys, live, links, ino, f.maxIno);
      IncLinkCount(ino);
      done := Add(dir, name, ino, prepared);
      if !done {
        DecLinkCount(ino);
        IsValid(t);
        return;
      }
      AddPlain(t, root, depth, dir, name, ino);
      CountAdd(t, links, dir, name, ino);
      IsValid(WithEntry(t, dir, name, ino));
    }

    /** `ext2_unlink` (namei.c:101-123): the name goes, and the inode it led to loses a link. */
    method UnlinkName(dir: nat, name: Name, ino: nat) returns (done: bool)
      requires DirsOk() && dir in live && !IsDots(name)
      requires name in Tree()[dir] ==> Tree()[dir][name] == ino && ino in nlink && nlink[ino] > 0
      modifies this`nlink, dirs[dir]
      ensures DirsOk() && (done <==> name in old(Tree())[dir])
      ensures done ==> Tree() == WithoutEntry(old(Tree()), dir, name) && nlink == Drop(old(nlink), ino, 1)
      ensures !done ==> Tree() == old(Tree()) && nlink == old(nlink)
    {
      hide DirsOk, Tree, Stored, WithoutEntry, IsDots, Drop;
      var pos, e := Find(dir, name);
      if pos.None? { return false; }
      Remove(dir, pos.value, e);
      DecLinkCount(ino);
      return true;
    }

    /** `ext2_unlink` of a name that leads to `ino`, which is not a directory. */
    method Unlink(dir: nat, name: Name, ino: nat) returns (done: bool)
      requires Valid() && dir in live && !IsDots(name)
      requires (name in Tree()[dir] ==> Tree()[dir][name] == ino && ino !in live)
      modifies this`nlink, dirs.Values
      ensures Valid() && (done <==> name in old(Tree())[dir])
      ensures done ==> Tree() == WithoutEntry(old(Tree()), dir, name) && nlink == Drop(old(nlink), ino, 1)
      ensures done ==> ino in old(nlink) && old(nlink)[ino] > 0
      ensures !done ==> Tree() == old(Tree()) && nlink == old(nlink)
    {
      hide DirsOk, Tree, Stored, Treelike, LinksCounted, WithoutEntry, IsDots, Unlinked, Drop, FormatOk;
      ghost var t, links := Tree(), nlink;
      if name in t[dir] {
        CountRemove(t, links, dir, name);
        RemovePlain(t, root, depth, dir, name);
        FewerLinks(dirs.Keys, live, links, ino, 1, f.maxIno);
      }
      done := UnlinkName(dir, name, ino);
      IsValid(if done then WithoutEntry(t, dir, name) else t);
    }

    /** The last reference to an inode without links is dropped (inode.c:473-500): its number may be used again. */
    method Evict(ino: nat)
      requires Valid() && ino in nlink && nlink[ino] == 0
      modifies this`nlink, this`dirs
      ensures Valid() && Tree() == old(Tree()) && nlink == old(nlink) - {ino} && dirs == old(dirs) - {ino}
    {
      hide DirsOk, Tree, Treelike, LinksCounted;
      ghost var t := Tree();
      Forgotten(t, root, depth, nlink, ino);
      Discard(ino);
      nlink := nlink - {ino};
      IsValid(t);
    }

    // ----- Directories

    /** `ext2_mkdir`, with its two rollback paths (namei.c:170-207). */
    method Mkdir(dir: nat, name: Name, ino: Option<nat>, prepareEmpty: bool, prepareAdd: bool) returns (done: bool)
      requires Valid() && NewName(dir, name) && Unused(ino)
      modifies this`nlink, this`dirs, this`live, this`depth, dirs.Values
      ensures Valid() && (done <==> ino.Some? && prepareEmpty && prepareAdd)
      ensures done ==>
                && Tree() == WithDir(old(Tree()), dir, name, ino.value)
                && nlink == WithDirLinks(old(nlink), dir, ino.value)
      ensures !done ==> Tree() == old(Tree()) && nlink == old(nlink)
      ensures forall d :: d in dirs.Values ==> d in old(dirs.Values) || fresh(d)
    {
      hide DirsOk, Tree, Stored, Treelike, LinksCounted, WithDir, WithDirLinks, IsDots, Unlinked, Raise, Drop,
        FormatOk;
      ghost var t, links := Tree(), nlink;
      LiveInode(dir);
      NewDirCount(links, dir, ino);
      IncLinkCount(dir);
      if ino.None? {
        DecLinkCount(dir);
        IsValid(t);
        return false;
      }
      done := NewDir(dir, name, ino.value, prepareEmpty, prepareAdd);
      if done {
        DirAdded(old(dirs).Keys, old(live), t, links, dir, name, ino.value);
      } else {
        DecLinkCount(dir);
        IsValid(t);
      }
    }

    /** The new inode of `ext2_mkdir`: it gets its dots and its name, or is discarded. */
    method NewDir(dir: nat, name: Name, i: nat, prepareEmpty: bool, prepareAdd: bool) returns (done: bool)
      requires DirsOk() && NewName(dir, name) && FormatOk(f) && 0 < i <= f.maxIno && 0 < dir <= f.maxIno
      requires i !in dirs && i !in nlink
      modifies this`nlink, this`dirs, this`live, dirs.Values
      ensures DirsOk() && (done <==> prepareEmpty && prepareAdd)
      ensures done ==>
                && Tree() == WithDir(old(Tree()), dir, name, i) && nlink == Raise(old(nlink), i, 2)
                && dirs.Keys == old(dirs).Keys + {i} && live == old(live) + {i}
      ensures !done ==> Tree() == old(Tree()) && nlink == old(nlink) && dirs == old(dirs) && live == old(live)
      ensures forall d :: d in dirs.Values ==> d in old(dirs.Values) || fresh(d)
    {
      hide DirsOk, Tree, Stored, WithDir, IsDots, Raise, Drop, FormatOk;
      TwoLinks(nlink, i);
      NewInode(i);
      IncLinkCount(i);
      done := Furnish(dir, name, i, prepareEmpty, prepareAdd);
      if !done { Unmake(i); }
    }

    /** The rollback of a new directory's two links (namei.c:200-202). */
    method Unmake(i: nat)
      requires i in nlink && nlink[i] == 2
      modifies this`nlink
      ensures nlink == Drop(Drop(old(nlink), i, 1), i, 1) - {i}
    {
      DecLinkCount(i);
      DecLinkCount(i);
      DiscardNewInode(i);
    }

    /** The pages of a new directory, and its entry in `dir`; without the entry the new directory is discarded. */
    method Furnish(dir: nat, name: Name, i: nat, prepareEmpty: bool, prepareAdd: bool) returns (done: bool)
      requires DirsOk() && NewName(dir, name) && FormatOk(f) && 0 < i <= f.maxIno && 0 < dir <= f.maxIno && i !in dirs
      modifies this`dirs, this`live, dirs.Values
      ensures DirsOk() && (done <==> prepareEmpty && prepareAdd)
      ensures done ==>
                && Tree() == WithDir(old(Tree()), dir, name, i)
                && dirs.Keys == old(dirs).Keys + {i} && live == old(live) + {i}
      ensures !done ==> Tree() == old(Tree()) && dirs == old(dirs) && live == old(live)
      ensures forall d :: d in dirs.Values ==> d in old(dirs.Values) || fresh(d)
    {
      hide Ready, Directory.Dict, Directory.Ents, IsDots, EmptyDirTable, DirsOk, Tree, Stored, WithEntry;
      var before := dirs;
      NotALiveTable(i);
      var d, ok := NewDirectory(f, i, dir, prepareEmpty);
      Store(i, d);
      if ok { ok := Add(dir, name, i, prepareAdd); }
      if !ok {
        Discard(i);
        assert dirs == before;
        return false;
      }
      Publish(i);
      return true;
    }

    lemma NotALiveTable(i: nat)
      requires DirsOk() && i !in dirs
      ensures i !in live
    {
    }

    ghost method DirAdded(before: set<nat>, living: set<nat>, t: Tables, links: Links, dir: nat, name: Name, i: nat)
      requires DirsOk() && Treelike(t, root, depth) && LinksCounted(t, links) && FormatOk(f)
      requires Unlinked(before, living, links, f.maxIno) && dirs.Keys == before + {i} && live == living + {i}
      requires dir in living && 0 < i <= f.maxIno && dir in t && name !in t[dir] && !IsDots(name) && i !in links
      requires dir in links && Tree() == WithDir(t, dir, name, i) && nlink == WithDirLinks(links, dir, i)
      modifies this`depth
      ensures Valid() && Tree() == old(Tree())
    {
      hide DirsOk, Tree, LinksCounted, WithDir, WithEntry, IsDots, Refs, Held, HeldOnce, DotsOk, Unlinked,
        WithDirLinks;
      StillUnlinked(before, living, links, dir, i, f.maxIno);
      Unnamed(t, links, i);
      AddDir(t, root, depth, dir, name, i);
      CountAddDir(t, links, dir, name, i);
      assert RankedAt(t, root, depth, dir);
      depth := depth[i := depth[dir] + 1];
      hide Treelike;
      IsValid(WithDir(t, dir, name, i));
    }

    /** `ext2_rmdir` of a name that leads to the directory `ino` (namei.c:209-225). */
    method Rmdir(dir: nat, name: Name, ino: nat) returns (r: RmdirResult)
      requires Valid() && dir in live && ino in live && !IsDots(name)
      requires (name in Tree()[dir] ==> Tree()[dir][name] == ino)
      modifies this`nlink, this`live, dirs.Values
      ensures Valid()
      ensures r.NotEmpty? <==> old(Tree())[ino].Keys != {DOT, DOTDOT}
      ensures r.Removed? <==> !r.NotEmpty? && name in old(Tree())[dir]
      ensures r.Removed? ==>
                && Tree() == WithoutDir(old(Tree()), dir, name, ino)
                && nlink == WithoutDirLinks(old(nlink), dir, ino)
      ensures r.Removed? ==> ino !in live && ino in nlink && LinksOf(nlink, ino) == 0
      ensures !r.Removed? ==> Tree() == old(Tree()) && nlink == old(nlink)
    {
      hide DirsOk, Tree, Stored, Treelike, LinksCounted, IsDots, Unlinked, Drop, FormatOk, WithoutDirLinks,
        WithoutEntry;
      ghost var t, links := Tree(), nlink;
      var empty := Empty(ino);
      if !empty {
        IsValid(t);
        return NotEmpty;
      }
      if name in t[dir] {
        RmdirReady(dirs.Keys, t, root, depth, links, dir, name, ino, f.maxIno);
      }
      var done := UnlinkName(dir, name, ino);
      if !done {
        IsValid(t);
        return NoEntry;
      }
      Truncate(ino);
      DecLinkCount(ino);
      DecLinkCount(dir);
      IsValid(WithoutDir(t, dir, name, ino));
      return Removed;
    }

    // ----- Renames

    /** The first half of a rename onto a free name (namei.c:291-297). */
    method Place(a: RenameArgs, isDir: bool, prepared: bool) returns (r: RenameResult)
      requires DirsOk() && a.target.None? && NewName(a.nd, a.nn) && 0 < a.ino <= f.maxIno && a.nd in nlink
      requires isDir <==> a.ino in live
      modifies this`nlink, dirs.Values
      ensures DirsOk() && r == (if prepared then Done else NoSpace) && Kept(old(Stored()), Stored(), a.nd, a.nn)
      ensures r.Done? ==> Tree() == Placed(old(Tree()), a) && nlink == PlacedLinks(old(nlink), isDir, a)
      ensures !r.Done? ==> Tree() == old(Tree()) && nlink == old(nlink)
    {
      hide DirsOk, Tree, Stored, IsDots, Raise, Drop, WithEntry, Kept;
      var ok := Add(a.nd, a.nn, a.ino, prepared);
      if !ok { return NoSpace; }
      if isDir { IncLinkCount(a.nd); }
      return Done;
    }

    /** The inode whose name was overwritten loses that link, and a directory its own as well. */
    method Release(j: nat, isDir: bool)
      requires DirsOk() && LinksOf(nlink, j) >= if isDir then 2 else 1
      modifies this`nlink, this`live
      ensures DirsOk() && Tree() == (if isDir then old(Tree()) - {j} else old(Tree()))
      ensures nlink == if isDir then Drop(Drop(old(nlink), j, 1), j, 1) else Drop(old(nlink), j, 1)
      ensures live == if isDir then old(live) - {j} else old(live)
    {
      hide DirsOk, Tree, Drop;
      if isDir {
        OneLess(nlink, j);
        DecLinkCount(j);
        Withdraw(j);
      }
      DecLinkCount(j);
    }

    /** The first half of a rename onto a name that leads to `j` (namei.c:273-290). */
    method Replace(a: RenameArgs, j: nat, isDir: bool) returns (r: RenameResult)
      requires DirsOk() && a.target == Some(j) && a.nd in live && !IsDots(a.nn) && 0 < a.ino <= f.maxIno
      requires isDir <==> a.ino in live
      requires isDir ==> j in live
      requires a.nn in Tree()[a.nd] ==> Tree()[a.nd][a.nn] == j && LinksOf(nlink, j) >= if isDir then 2 else 1
      modifies this`nlink, this`live, dirs.Values
      ensures DirsOk() && Kept(old(Stored()), Stored(), a.nd, a.nn)
      ensures r.TargetNotEmpty? <==> isDir && old(Tree())[j].Keys != {DOT, DOTDOT}
      ensures !r.TargetNotEmpty? ==> r == if a.nn in old(Tree())[a.nd] then Done else NewMissing
      ensures r.Done? ==> Tree() == Placed(old(Tree()), a) && nlink == PlacedLinks(old(nlink), isDir, a)
      ensures r.Done? ==> live == if isDir then old(live) - {j} else old(live)
      ensures !r.Done? ==> Tree() == old(Tree()) && nlink == old(nlink) && live == old(live)
    {
      hide DirsOk, Tree, Stored, Raise, Drop, WithEntry, Kept;
      if isDir {
        var empty := Empty(j);
        if !empty { NothingMoved(Stored(), a.nd, a.nn); return TargetNotEmpty; }
      }
      var pos, e := Find(a.nd, a.nn);
      if pos.None? { NothingMoved(Stored(), a.nd, a.nn); return NewMissing; }
      Relink(a.nd, pos.value, a.ino, e);
      Release(j, isDir);
      return Done;
    }

    /** The second half (namei.c:303-313): the old name goes, and a directory gets its new parent. */
    method Clear(a: RenameArgs, isDir: bool, pos: nat, up: nat, ghost e: Entry, ghost upward: Entry)
      requires DirsOk() && a.od in live && Recorded(Stored(), a.od, e) && e.pos == pos && e.name == a.on
      requires !IsDots(a.on)
      requires isDir <==> a.ino in live
      requires isDir ==> Recorded(Stored(), a.ino, upward) && upward.pos == up && upward.name == DOTDOT
      requires 0 < a.nd <= f.maxIno && (isDir ==> LinksOf(nlink, a.od) > 0)
      modifies this`nlink, dirs.Values
      ensures DirsOk() && Tree() == Cleared(old(Tree()), a)
      ensures nlink == if isDir then Drop(old(nlink), a.od, 1) else old(nlink)
    {
      hide DirsOk, Tree, Stored, Raise, Drop, WithEntry, WithoutEntry, Kept, Recorded;
      ghost var s := Stored();
      Remove(a.od, pos, e);
      if isDir {
        if a.od != a.nd {
          DotsDiffer();
          StillRecorded(s, Stored(), a.od, a.on, a.ino, upward);
          Relink(a.ino, up, a.nd, upward);
        }
        DecLinkCount(a.od);
      }
    }

    /** `ext2_rename` (namei.c:245-327). */
    method Rename(a: RenameArgs, prepared: bool) returns (r: RenameResult)
      requires Valid() && VfsAllows(Tree(), root, depth, a)
      modifies this`nlink, this`live, this`depth, dirs.Values
      ensures Valid()
      // The five endings: what the directories hold decides, and for a new entry whether it could be prepared.
      ensures var t := old(Tree());
              var full := a.ino in t && a.target.Some? && t[a.target.value].Keys != {[46], [46, 46]};
              && (r.OldMissing? <==> a.on !in t[a.od])
              && (r.TargetNotEmpty? <==> a.on in t[a.od] && full)
              && (r.NewMissing? <==> a.on in t[a.od] && a.target.Some? && !full && a.nn !in t[a.nd])
              && (r.NoSpace? <==> a.on in t[a.od] && a.target.None? && !prepared)
              && (r.Done? <==> CanRename(t, root, old(depth), a) && (a.target.Some? || prepared))
              && (r.Done? ==>
                    && Apart(t, a) && Tree() == RenamedTree(t, a)
                    && nlink == RenamedLinks(old(nlink), a.ino in t, a))
              && (!r.Done? ==> Tree() == t && nlink == old(nlink))
    {
      hide DirsOk, Tree, Stored, Treelike, LinksCounted, Unlinked, FormatOk, IsDots, Under, NamesDir;
      ghost var t, links := Tree(), nlink;
      RenameEnds(t, root, depth, a, prepared);
      hide CanRename, Apart, RenamedTree, RenamedLinks;
      var pos, e := Find(a.od, a.on);
      if pos.None? {
        IsValid(t);
        return OldMissing;
      }
      OnlyLiveNamed(dirs.Keys, t, links, a, f.maxIno);
      NewNamed(t, root, depth, links, a);
      r := RenameFound(a, prepared, pos.value, e);
      if r.Done? {
        Settle(t, links, a);
      } else {
        IsValid(t);
      }
    }

    /** The old name has been found. */
    method RenameFound(a: RenameArgs, prepared: bool, pos: nat, ghost e: Entry) returns (r: RenameResult)
      requires Valid() && VfsAllows(Tree(), root, depth, a) && Recorded(Stored(), a.od, e) && e.pos == pos
      requires e.name == a.on
      requires a.on in Tree()[a.od] && 0 < a.ino <= f.maxIno && (a.ino in dirs <==> a.ino in live)
      requires 0 < a.nd <= f.maxIno
      requires a.nd in nlink && NewLinksOk(Tree(), nlink, a)
      modifies this`nlink, this`live, dirs.Values
      ensures DirsOk() && r == RenameOutcome(old(Tree()), a, prepared)
      ensures r.Done? ==> CanRename(old(Tree()), root, old(depth), a) && Apart(old(Tree()), a)
      ensures r.Done? ==>
                Tree() == RenamedTree(old(Tree()), a) && nlink == RenamedLinks(old(nlink), a.ino in old(Tree()), a)
      ensures !r.Done? ==> Tree() == old(Tree()) && nlink == old(nlink) && live == old(live)
    {
      hide DirsOk, Tree, Stored, Treelike, LinksCounted, Unlinked, FormatOk, IsDots, Under, NamesDir, Kept,
        Recorded,
        Placed, PlacedLinks, Cleared, RenamedTree, RenamedLinks, CanRename, Apart, Drop;
      ghost var t, links, s := Tree(), nlink, Stored();
      var isDir := a.ino in dirs;
      var up := 0;
      ghost var upward := e;
      if isDir { up, upward := Upward(a.ino); }
      if a.target.Some? {
        r := Replace(a, a.target.value, isDir);
      } else {
        r := Place(a, isDir, prepared);
      }
      if !r.Done? { return; }
      Halfway(t, root, depth, links, a, prepared);
      StillThere(s, Stored(), a, e, upward, isDir);
      Clear(a, isDir, pos, up, e, upward);
    }

    /** The tree after the rename. */
    ghost method Settle(t: Tables, links: Links, a: RenameArgs)
      requires DirsOk() && Treelike(t, root, depth) && LinksCounted(t, links) && FormatOk(f)
      requires CanRename(t, root, depth, a)
      requires a.od in t && a.nd in t && Apart(t, a) && Tree() == RenamedTree(t, a)
      requires nlink == RenamedLinks(links, a.ino in t, a)
      requires Unlinked(dirs.Keys, t.Keys, links, f.maxIno)
      modifies this`depth
      ensures Valid() && Tree() == old(Tree())
    {
      hide DirsOk, Tree, Treelike, LinksCounted, Unlinked, FormatOk, CanRename, Apart, RenamedTree, RenamedLinks;
      if a.ino in t {
        depth := RenameKeepsDir(t, root, depth, links, a);
      } else {
        RenameKeepsPlain(t, root, depth, links, a);
      }
      RenameUnlinked(dirs.Keys, t, root, old(depth), links, a, f.maxIno);
      IsValid(RenamedTree(t, a));
    }
  }

  // ----- Entries of all directories

  predicate Recorded(s: Records, k: nat, e: Entry) { k in s && e in s[k] }

  /** No entry moves or goes, except the one called `name` in directory `d`. */
  ghost predicate Kept(s: Records, s': Records, d: nat, name: Name)
  {
    forall k, e :: Recorded(s, k, e) && !(k == d && e.name == name) ==> Recorded(s', k, e)
  }

  lemma NothingMoved(s: Records, d: nat, name: Name)
    ensures Kept(s, s, d, name)
  {
  }

  lemma StillRecorded(s: Records, s': Records, d: nat, name: Name, k: nat, e: Entry)
    requires Kept(s, s', d, name) && Recorded(s, k, e) && !(k == d && e.name == name)
    ensures Recorded(s', k, e)
  {
    hide Recorded;
  }

  /** Both records that a rename will change are still where they were found. */
  lemma StillThere(s: Records, s': Records, a: RenameArgs, e: Entry, upward: Entry, isDir: bool)
    requires Kept(s, s', a.nd, a.nn) && Recorded(s, a.od, e) && e.name == a.on && !(a.od == a.nd && a.on == a.nn)
    requires isDir ==> Recorded(s, a.ino, upward) && upward.name == DOTDOT && !IsDots(a.nn)
    ensures Recorded(s', a.od, e) && (isDir ==> Recorded(s', a.ino, upward))
  {
    hide Recorded;
  }

  // ----- Link counts

  /** What the new name leads to has the links that the rename takes from it. */
  predicate NewLinksOk(t: Tables, nlink: Links, a: RenameArgs)
  {
    a.target.Some? && a.nd in t && a.nn in t[a.nd] ==> LinksOf(nlink, a.target.value) >= if a.ino in t then 2 else 1
  }

  lemma NewNamed(t: Tables, root: nat, depth: Links, nlink: Links, a: RenameArgs)
    requires Treelike(t, root, depth) && LinksCounted(t, nlink) && VfsAllows(t, root, depth, a)
    ensures NewLinksOk(t, nlink, a)
  {
    hide Treelike, LinksCounted, Under;
    if a.target.Some? && a.nn in t[a.nd] {
      NamedHasLinks(t, root, depth, nlink, a.nd, a.nn, a.target.value);
    }
  }

  /** A directory that an entry names is linked. */
  lemma OnlyLiveNamed(dirs: set<nat>, t: Tables, nlink: Links, a: RenameArgs, maxIno: nat)
    requires Unlinked(dirs, t.Keys, nlink, maxIno) && LinksCounted(t, nlink)
    requires a.od in t && a.nd in t && a.on in t[a.od] && t[a.od][a.on] == a.ino
    ensures 0 < a.ino <= maxIno && a.nd in nlink && 0 < a.nd <= maxIno && (a.ino in dirs ==> a.ino in t)
  {
    hide Refs;
    Referenced(t, a.od, a.on);
  }

  lemma RenameUnlinked(dirs: set<nat>, t: Tables, root: nat, depth: Links, nlink: Links, a: RenameArgs, maxIno: nat)
    requires Treelike(t, root, depth) && LinksCounted(t, nlink) && CanRename(t, root, depth, a) && Apart(t, a)
    requires Unlinked(dirs, t.Keys, nlink, maxIno)
    ensures Unlinked(dirs, RenamedTree(t, a).Keys, RenamedLinks(nlink, a.ino in t, a), maxIno)
  {
    hide Treelike, LinksCounted, Unlinked, Under, NamesDir, RenamedTree, WithoutDir, CanMove, Drop, Raise;
    RenamedKeys(t, a);
    HasCount(t, nlink, a.nd);
    CountInRange(dirs, t.Keys, nlink, maxIno, a.nd);
    var links := nlink;
    var live := t.Keys;
    if a.target.Some? {
      var j := a.target.value;
      if a.ino in t {
        Vacated(t, root, depth, nlink, a);
        LastLinks(dirs, live, nlink, j, maxIno);
        links, live := Drop(nlink, j, 2), live - {j};
        FewerLinks(dirs, live, links, a.nd, 1, maxIno);
        links := Drop(links, a.nd, 1);
      } else {
        FewerLinks(dirs, live, nlink, j, 1, maxIno);
      }
    }
    if a.ino in t {
      LiveLinks(dirs, live, links, a.nd, maxIno);
      FewerLinks(dirs, live, Raise(links, a.nd, 1), a.od, 1, maxIno);
    }
  }

  lemma OneLess(nlink: Links, i: nat)
    requires LinksOf(nlink, i) >= 2
    ensures LinksOf(Drop(nlink, i, 1), i) > 0
  {
  }

  /** Directories outside the tree have no links; inode numbers are in range. */
  ghost predicate Unlinked(dirs: set<nat>, live: set<nat>, nlink: Links, maxIno: nat)
  {
    (forall k :: k in dirs && k !in live ==> k in nlink && nlink[k] == 0) && forall i :: i in nlink ==> 0 < i <= maxIno
  }

  lemma NewCount(dirs: set<nat>, live: set<nat>, t: Tables, nlink: Links, i: nat, maxIno: nat)
    requires Unlinked(dirs, live, nlink, maxIno) && LinksCounted(t, nlink) && i !in nlink && i !in dirs
    requires 0 < i <= maxIno
    ensures var n1 := Raise(nlink, i, 1);
            && i !in t && n1 == nlink[i := 1] && i in n1 && n1[i] == 1 && Unlinked(dirs, live, n1, maxIno)
            && i in Drop(n1, i, 1) && Drop(n1, i, 1)[i] == 0 && Drop(n1, i, 1) - {i} == nlink
  {
    Unnamed(t, nlink, i);
    hide LinksCounted;
    FirstLink(nlink, i);
    hide Raise, Drop;
  }

  lemma FirstLink(nlink: Links, i: nat)
    requires i !in nlink
    ensures var n1 := Raise(nlink, i, 1);
            && n1 == nlink[i := 1] && i in Drop(n1, i, 1) && Drop(n1, i, 1)[i] == 0 && Drop(n1, i, 1) - {i} == nlink
  {
  }

  lemma MoreLinks(dirs: set<nat>, live: set<nat>, nlink: Links, i: nat, maxIno: nat)
    requires Unlinked(dirs, live, nlink, maxIno) && i in nlink && nlink[i] > 0
    ensures var n1 := Raise(nlink, i, 1);
            i in n1 && n1[i] > 0 && Unlinked(dirs, live, n1, maxIno) && Drop(n1, i, 1) == nlink
  {
  }

  lemma FewerLinks(dirs: set<nat>, live: set<nat>, nlink: Links, i: nat, k: nat, maxIno: nat)
    requires Unlinked(dirs, live, nlink, maxIno) && k > 0
    ensures Unlinked(dirs, live, Drop(nlink, i, k), maxIno)
  {
  }

  lemma LastLinks(dirs: set<nat>, live: set<nat>, nlink: Links, i: nat, maxIno: nat)
    requires Unlinked(dirs, live, nlink, maxIno) && i in nlink && nlink[i] == 2
    ensures Unlinked(dirs, live - {i}, Drop(nlink, i, 2), maxIno)
  {
  }

  lemma LiveLinks(dirs: set<nat>, live: set<nat>, nlink: Links, i: nat, maxIno: nat)
    requires Unlinked(dirs, live, nlink, maxIno) && i in live && 0 < i <= maxIno
    ensures Unlinked(dirs, live, Raise(nlink, i, 1), maxIno)
  {
  }

  lemma NewDirCount(nlink: Links, dir: nat, ino: Option<nat>)
    requires dir in nlink
    ensures var n1 := Raise(nlink, dir, 1);
            && dir in n1 && n1[dir] > 0 && Drop(n1, dir, 1) == nlink && n1.Keys == nlink.Keys
            && (ino.Some? ==> Raise(n1, ino.value, 2) == WithDirLinks(nlink, dir, ino.value))
  {
  }

  lemma TwoLinks(nlink: Links, i: nat)
    requires i !in nlink
    ensures var n1 := Raise(nlink, i, 1); var n2 := Raise(n1, i, 1);
            && i in n1 && n2 == Raise(nlink, i, 2) && i in n2 && n2[i] == 2
            && var m1 := Drop(n2, i, 1); var m2 := Drop(m1, i, 1);
            && i in m1 && m1[i] == 1 && i in m2 && m2[i] == 0 && m2 - {i} == nlink
  {
  }

  lemma StillUnlinked(dirs: set<nat>, live: set<nat>, nlink: Links, dir: nat, i: nat, maxIno: nat)
    requires Unlinked(dirs, live, nlink, maxIno) && dir in nlink && dir in live && 0 < i <= maxIno && i !in nlink
    ensures Unlinked(dirs + {i}, live + {i}, WithDirLinks(nlink, dir, i), maxIno)
  {
  }

  lemma RmdirCounts(dirs: set<nat>, live: set<nat>, nlink: Links, dir: nat, i: nat, maxIno: nat)
    requires Unlinked(dirs, live, nlink, maxIno) && i in nlink && nlink[i] == 2 && dir in nlink && nlink[dir] > 0
    requires dir != i
    ensures var n1 := Drop(nlink, i, 1); var n2 := Drop(n1, i, 1); var n3 := Drop(n2, dir, 1);
            && i in n1 && n1[i] > 0 && dir in n2 && n2[dir] > 0 && n3 == WithoutDirLinks(nlink, dir, i)
            && i in n3 && n3[i] == 0 && Unlinked(dirs, live - {i}, n3, maxIno)
  {
  }

  lemma RmdirReady(dirs: set<nat>, t: Tables, root: nat, depth: Links, nlink: Links, d: nat, n: Name, i: nat,
                   maxIno: nat)
    requires Unlinked(dirs, t.Keys, nlink, maxIno) && Treelike(t, root, depth) && LinksCounted(t, nlink)
    requires d in t && n in t[d] && t[d][n] == i && !IsDots(n) && i in t && t[i].Keys == {DOT, DOTDOT}
    ensures var n1 := Drop(nlink, i, 1); var n2 := Drop(n1, i, 1); var n3 := Drop(n2, d, 1);
            && i in nlink && nlink[i] > 0 && i in n1 && n1[i] > 0 && d in n2 && n2[d] > 0
            && n3 == WithoutDirLinks(nlink, d, i)
            && i in n3 && n3[i] == 0 && Unlinked(dirs, t.Keys - {i}, n3, maxIno)
    ensures Treelike(WithoutDir(t, d, n, i), root, depth)
    ensures LinksCounted(WithoutDir(t, d, n, i), WithoutDirLinks(nlink, d, i))
  {
    hide Unlinked, Treelike, LinksCounted, WithoutDir, WithoutDirLinks, Drop, IsDots;
    RmdirKeeps(t, root, depth, nlink, d, n, i);
    RmdirCounts(dirs, t.Keys, nlink, d, i, maxIno);
  }

  lemma CountInRange(dirs: set<nat>, live: set<nat>, nlink: Links, maxIno: nat, i: nat)
    requires Unlinked(dirs, live, nlink, maxIno) && i in nlink
    ensures 0 < i <= maxIno
  {
  }
}
