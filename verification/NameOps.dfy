/** The operations of dir.c on one directory, in terms of names: what namei.c uses. */
module NameOps {
  import opened DirImage
  import opened DirChain
  import opened DirPages
  import opened DirWalk
  import opened Directories
  import opened DirRuns
  import opened LinkTree

  /** "." and ".." stand where `ext2_make_empty` put them: live entries never move. */
  ghost predicate HasDots(d: Directory)
    reads d
  {
    Entry(0, DOT, d.self) in d.Ents() && exists p: nat :: Entry(12, DOTDOT, p) in d.Ents()
  }

  ghost predicate Ready(d: Directory)
    reads d
    ensures Ready(d) ==> d.Unique()
  {
    Healthy(d) && HasDots(d)
  }

  /** A new directory with its dots, if the page can be prepared. */
  method NewDirectory(f: Format, self: nat, parent: nat, prepared: bool) returns (d: Directory, ok: bool)
    requires FormatOk(f) && 0 < self <= f.maxIno && 0 < parent <= f.maxIno
    ensures fresh(d) && d.f == f && d.self == self && ok == prepared
    ensures ok ==> Ready(d) && d.Dict() == EmptyDirTable(self, parent)
  {
    hide Entries, Table, AllPagesOk, NamesUnique;
    d := new Directory(f, self);
    ok := d.MakeEmpty(parent, prepared);
    TableOfEmpty(self, parent);
  }

  method FindName(d: Directory, name: Name) returns (r: Option<nat>, ghost e: Entry)
    requires Ready(d)
    modifies d
    ensures Ready(d) && d.Dict() == old(d.Dict()) && d.Ents() == old(d.Ents())
    ensures r.Some? <==> name in d.Dict()
    ensures r.Some? ==> e in d.Ents() && e.pos == r.value && e.name == name && e.ino == d.Dict()[name]
  {
    hide Entries, Table, AllPagesOk, NamesUnique;
    e := Entry(0, [], 0);
    var l := d.FindEntry(name);
    if l.Found? {
      e :| e in d.Ents() && e.pos == l.pos && e.name == name;
      EntryInTable(d.Ents(), e);
      return Some(l.pos), e;
    }
    NotInTable(d.Ents(), name);
    return None, e;
  }

  method AddName(d: Directory, name: Name, ino: nat, prepared: bool) returns (ok: bool)
    requires Ready(d) && 1 <= |name| <= NAME_LEN_MAX && 0 < ino <= d.f.maxIno && name !in d.Dict()
    modifies d
    ensures Ready(d) && ok == prepared
    ensures d.Dict() == if ok then old(d.Dict())[name := ino] else old(d.Dict())
    ensures old(d.Ents()) <= d.Ents()
  {
    hide Entries, Table, AllPagesOk, NamesUnique, NoneNamed;
    ghost var s := d.Ents();
    NoEntryNamed(s, name);
    var r := d.AddLink(name, ino, prepared);
    ok := r.Added?;
    if ok {
      TableAdd(s, Entry(r.pos, name, ino));
    } else if r.Exists? {
      ExistsContradicts(s, name);
    }
  }

  method RemoveName(d: Directory, pos: nat, ghost e: Entry)
    requires Ready(d) && e in d.Ents() && e.pos == pos && !IsDots(e.name)
    modifies d
    ensures Ready(d) && d.Dict() == old(d.Dict()) - {e.name} && d.Ents() == old(d.Ents()) - {e}
  {
    hide Entries, Table, AllPagesOk, NamesUnique;
    ghost var s := d.Ents();
    d.DeleteEntry(pos, e);
    TableRemove(s, e);
  }

  method RelinkName(d: Directory, pos: nat, ino: nat, ghost e: Entry)
    requires Ready(d) && e in d.Ents() && e.pos == pos && e.name != DOT && 0 < ino <= d.f.maxIno
    modifies d
    ensures Ready(d) && d.Dict() == old(d.Dict())[e.name := ino]
    ensures d.Ents() == old(d.Ents()) - {e} + {e.(ino := ino)}
  {
    hide Entries, Table, AllPagesOk, NamesUnique;
    ghost var s := d.Ents();
    ghost var p: nat :| Entry(12, DOTDOT, p) in s;
    d.SetLink(pos, ino, e);
    TableRelink(s, e, ino);
    if e == Entry(12, DOTDOT, p) {
      assert Entry(12, DOTDOT, ino) in d.Ents();
    } else {
      assert Entry(12, DOTDOT, p) in d.Ents();
    }
  }

  /** `ext2_empty_dir`: only the dots are left. */
  method IsEmpty(d: Directory) returns (empty: bool)
    requires Ready(d)
    modifies d
    ensures Ready(d) && d.Dict() == old(d.Dict()) && d.Ents() == old(d.Ents())
    ensures empty <==> d.Dict().Keys == {DOT, DOTDOT}
  {
    hide Entries, AllPagesOk;
    empty := d.EmptyDir();
    OnlyDots(d.Ents(), d.self);
  }

  /** `ext2_dotdot` finds the entry of "..". */
  method FindDotDot(d: Directory) returns (pos: nat, ghost e: Entry)
    requires Ready(d)
    modifies d
    ensures Ready(d) && d.Dict() == old(d.Dict()) && d.Ents() == old(d.Ents())
    ensures e in d.Ents() && e.pos == pos && e.name == DOTDOT && DOTDOT in d.Dict() && e.ino == d.Dict()[DOTDOT]
  {
    hide Entries, Table, AllPagesOk, NamesUnique;
    ghost var p: nat :| Entry(12, DOTDOT, p) in d.Ents();
    e := Entry(12, DOTDOT, p);
    NotEmpty(d, e);
    var r := d.DotDot();
    assert Entry(0, DOT, d.self) in d.Ents();
    EntryInTable(d.Ents(), e);
    return r.value, e;
  }

  lemma NotEmpty(d: Directory, e: Entry)
    requires d.Valid() && e in d.Ents()
    ensures d.size > 0
  {
    hide PageLive;
  }

  lemma NoEntryNamed(s: set<Entry>, name: Name)
    requires NamesUnique(s) && name !in Table(s)
    ensures NoneNamed(s, name)
  {
  }

  lemma ExistsContradicts(s: set<Entry>, name: Name)
    requires NoneNamed(s, name)
    ensures !exists e :: e in s && e.name == name
  {
  }

  lemma OnlyDots(s: set<Entry>, self: nat)
    requires NamesUnique(s) && Entry(0, DOT, self) in s && exists p: nat :: Entry(12, DOTDOT, p) in s
    ensures (forall e :: e in s ==> DotEntry(e, self)) <==> Table(s).Keys == {DOT, DOTDOT}
  {
    var p: nat :| Entry(12, DOTDOT, p) in s;
    EntryInTable(s, Entry(0, DOT, self));
    EntryInTable(s, Entry(12, DOTDOT, p));
    forall e | e in s
      ensures DotEntry(e, self) <==> e.name == DOT || e.name == DOTDOT
      ensures e.name in Table(s)
    {
      DotEntryMeans(e, self);
      EntryInTable(s, e);
      if e.name == DOT { assert e == Entry(0, DOT, self); }
    }
    if forall e :: e in s ==> DotEntry(e, self) {
      forall n | n in Table(s)
        ensures n == DOT || n == DOTDOT
      {
        var e :| e in s && e.name == n;
      }
      assert Table(s).Keys == {DOT, DOTDOT};
    }
  }
}
