/** Any sequence of directory operations, seen as operations on one map from names to inode numbers. */
module DirRuns {
  import opened DirImage
  import opened DirChain
  import opened DirPages
  import opened DirWalk
  import opened Directories

  // ----- The table under insertion, removal and replacement of one entry

  lemma TableAdd(s: set<Entry>, e: Entry)
    requires NamesUnique(s) && NoneNamed(s, e.name)
    ensures NamesUnique(s + {e}) && Table(s + {e}) == Table(s)[e.name := e.ino]
  {
    var t, t' := Table(s)[e.name := e.ino], Table(s + {e});
    assert forall n :: n in t' <==> n in t;
  }

  lemma TableRemove(s: set<Entry>, e: Entry)
    requires NamesUnique(s) && e in s
    ensures NamesUnique(s - {e}) && Table(s - {e}) == Table(s) - {e.name}
  {
    assert forall n :: n in Table(s - {e}) <==> n in Table(s) && n != e.name;
  }

  lemma TableRelink(s: set<Entry>, e: Entry, ino: nat)
    requires NamesUnique(s) && e in s
    ensures NamesUnique(s - {e} + {e.(ino := ino)})
    ensures Table(s - {e} + {e.(ino := ino)}) == Table(s)[e.name := ino]
  {
    TableRemove(s, e);
    TableAdd(s - {e}, e.(ino := ino));
    assert (Table(s) - {e.name})[e.name := ino] == Table(s)[e.name := ino];
  }

  lemma EntryInTable(s: set<Entry>, e: Entry)
    requires NamesUnique(s) && e in s
    ensures e.name in Table(s) && Table(s)[e.name] == e.ino
  {
  }

  lemma NotInTable(s: set<Entry>, name: Name)
    requires NamesUnique(s) && NoneNamed(s, name)
    ensures name !in Table(s)
  {
  }

  // ----- Runs

  /** A caller's use of the directory; names are looked up first. */
  datatype Op =
    | Add(name: Name, ino: nat, prepared: bool)
    | Remove(name: Name)
    | Replace(name: Name, ino: nat)

  predicate OpOk(op: Op, maxIno: nat)
  {
    && 1 <= |op.name| <= NAME_LEN_MAX
    && (op.Add? ==> 0 < op.ino <= maxIno) && (op.Replace? ==> 0 < op.ino <= maxIno)
  }

  /** The abstract meaning: insert a missing key, remove a key, overwrite a present key. */
  function Apply(m: map<Name, nat>, op: Op): map<Name, nat>
  {
    match op
    case Add(name, ino, prepared) => if name in m || !prepared then m else m[name := ino]
    case Remove(name) => m - {name}
    case Replace(name, ino) => if name in m then m[name := ino] else m
  }

  function ApplyAll(m: map<Name, nat>, ops: seq<Op>): map<Name, nat>
    decreases |ops|
  {
    if ops == [] then m else Apply(ApplyAll(m, ops[..|ops| - 1]), ops[|ops| - 1])
  }

  ghost predicate Healthy(d: Directory)
    reads d
  {
    d.Valid() && d.Sound() && d.Unique()
  }

  /** `ext2_inode_by_name` is the map's lookup (dir.c:335-347). */
  method InodeByName(d: Directory, name: Name) returns (r: Option<nat>)
    requires Healthy(d)
    modifies d`data, d`checked, d`failed
    ensures Healthy(d) && d.Dict() == old(d.Dict())
    ensures r == if name in d.Dict() then Some(d.Dict()[name]) else None
  {
    hide PageOk, Entries;
    var l := d.FindEntry(name);
    if l.Found? {
      ghost var e :| e in d.Ents() && e.pos == l.pos && e.name == name;
      EntryInTable(d.Ents(), e);
      var ino := d.InodeOf(l.pos, e);
      return Some(ino);
    }
    NotInTable(d.Ents(), name);
    return None;
  }

  method Perform(d: Directory, op: Op)
    requires Healthy(d) && OpOk(op, d.f.maxIno)
    modifies d
    ensures Healthy(d) && d.Dict() == Apply(old(d.Dict()), op)
    ensures match op
            case Add(name, ino, ok) => d.Dict() == if ok && name !in old(d.Dict()) then old(d.Dict())[name := ino]
                                                   else old(d.Dict())
            case Remove(name) => d.Dict() == old(d.Dict()) - {name}
            case Replace(name, ino) => d.Dict() == if name in old(d.Dict()) then old(d.Dict())[name := ino]
                                                   else old(d.Dict())
    ensures d.version >= old(d.version)
    ensures d.version == old(d.version) ==> d.Ents() == old(d.Ents()) && SameBytes(old(d.data), d.data, 0, d.size)
                                            && d.size == old(d.size)
    ensures forall e :: e in old(d.Ents()) && e.name != op.name ==> e in d.Ents()
  {
    hide PageOk, Entries, Table;
    var l := d.FindEntry(op.name);
    ghost var s := d.Ents();
    if l.Found? {
      ghost var e :| e in s && e.pos == l.pos && e.name == op.name;
      EntryInTable(s, e);
      match op
      case Add(_, _, _) =>
      case Remove(_) =>
        d.DeleteEntry(l.pos, e);
        TableRemove(s, e);
      case Replace(_, ino) =>
        d.SetLink(l.pos, ino, e);
        TableRelink(s, e, ino);
    } else {
      NotInTable(s, op.name);
      if op.Add? {
        var r := d.AddLink(op.name, op.ino, op.prepared);
        if r.Added? { TableAdd(s, Entry(r.pos, op.name, op.ino)); }
      }
    }
  }

  /** Every sequence of operations acts on the live entries as on the map. */
  method Replay(d: Directory, ops: seq<Op>)
    requires Healthy(d) && forall op :: op in ops ==> OpOk(op, d.f.maxIno)
    modifies d
    ensures Healthy(d) && d.Dict() == ApplyAll(old(d.Dict()), ops)
  {
    hide Table, NamesUnique, Entries, Apply, OpOk;
    assert ops[..0] == [];
    for i := 0 to |ops|
      invariant Healthy(d) && d.Dict() == ApplyAll(old(d.Dict()), ops[..i])
    {
      Perform(d, ops[i]);
      assert ops[..i + 1][..i] == ops[..i];
    }
    assert ops[..|ops|] == ops;
  }

  lemma TableOfEmpty(self: nat, parent: nat)
    ensures var s := {Entry(0, DOT, self), Entry(12, DOTDOT, parent)};
            NamesUnique(s) && Table(s) == EmptyDirTable(self, parent)
  {
    assert DOT[0..] != DOTDOT;
    TableAdd({}, Entry(0, DOT, self));
    TableAdd({Entry(0, DOT, self)}, Entry(12, DOTDOT, parent));
    assert {} + {Entry(0, DOT, self)} == {Entry(0, DOT, self)};
    assert {Entry(0, DOT, self)} + {Entry(12, DOTDOT, parent)} == {Entry(0, DOT, self), Entry(12, DOTDOT, parent)};
  }

  /** Every run of operations on a new directory, from `ext2_make_empty` on. */
  method ReplayFromEmpty(f: Format, self: nat, parent: nat, ops: seq<Op>) returns (d: Directory)
    requires FormatOk(f) && 0 < self <= f.maxIno && 0 < parent <= f.maxIno
    requires forall op :: op in ops ==> OpOk(op, f.maxIno)
    ensures fresh(d) && Healthy(d) && d.Dict() == ApplyAll(EmptyDirTable(self, parent), ops)
  {
    hide Table, NamesUnique, Entries, Apply, OpOk;
    d := new Directory(f, self);
    var ok := d.MakeEmpty(parent, true);
    TableOfEmpty(self, parent);
    Replay(d, ops);
  }
}
