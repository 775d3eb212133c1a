/**
 * The synchronous Node.js filesystem calls the deployment scripts make,
 * as methods of one mutable object holding the whole tree.  Where the real
 * call throws, the method returns `ok == false` and leaves the tree alone.
 */
module Fs {
  import opened FileTree

  datatype Option<T> = None | Some(value: T)

  /** A listing is exact when it names every child of `p` once. */
  ghost predicate Listing(t: Tree, p: Path, names: seq<Name>)
  {
    (forall n :: n in names <==> n in Children(t, p)) &&
    (forall i, j :: 0 <= i < j < |names| ==> names[i] != names[j])
  }

  /** `cpSync(a, b, {recursive: true})` succeeds exactly when this holds. */
  predicate CanCopy(t: Tree, a: Path, b: Path)
  {
    a in t && b != [] && IsDirAt(t, Parent(b)) && Disjoint(a, b) && Compatible(t, a, b)
  }

  /** `copyFileSync(a, b)` succeeds exactly when this holds. */
  predicate CanCopyFile(t: Tree, a: Path, b: Path)
  {
    IsFileAt(t, a) && Writable(t, b)
  }

  /** `renameSync(a, b)` onto a free name succeeds exactly when this holds. */
  predicate CanRename(t: Tree, a: Path, b: Path)
  {
    a in t && a != [] && b !in t && b != [] && IsDirAt(t, Parent(b)) && !(a <= b)
  }

  class FileSystem {
    var entries: Tree

    ghost predicate Valid()
      reads this
    {
      ValidTree(entries)
    }

    constructor (t: Tree)
      requires ValidTree(t)
      ensures Valid() && entries == t
    {
      entries := t;
    }

    /** `existsSync(p)` */
    function Exists(p: Path): (b: bool)
      reads this
      ensures b <==> p in entries
    {
      p in entries
    }

    /** `statSync(p).isDirectory()`, where `statSync` throws on a missing path. */
    function IsDirectory(p: Path): (b: bool)
      reads this
      requires p in entries
      ensures b <==> IsDirAt(entries, p)
    {
      entries[p].Dir?
    }

    /** `readdirSync(p)`: the names below a directory, in an order the
        filesystem chooses; throws unless `p` is a directory. */
    method ReadDir(p: Path) returns (ok: bool, names: seq<Name>)
      ensures ok <==> IsDirAt(entries, p)
      ensures ok ==> Listing(entries, p, names)
      ensures !ok ==> names == []
    {
      names := [];
      ok := p in entries && entries[p].Dir?;
      if !ok {
        return;
      }
      var left := Children(entries, p);
      while left != {}
        invariant forall n :: n in Children(entries, p) <==> n in names || n in left
        invariant forall n :: n in names ==> n !in left
        invariant forall i, j :: 0 <= i < j < |names| ==> names[i] != names[j]
        decreases left
      {
        var n :| n in left;
        names := names + [n];
        left := left - {n};
      }
    }

    /** `readFileSync(p, 'utf8')`: throws unless `p` is a file. */
    method ReadFile(p: Path) returns (content: Option<string>)
      ensures content.Some? <==> IsFileAt(entries, p)
      ensures content.Some? ==> entries[p] == File(content.value)
    {
      if p in entries && entries[p].File? {
        content := Some(entries[p].content);
      } else {
        content := None;
      }
    }

    /** `mkdirSync(p, {recursive: true})` */
    method Mkdir(p: Path) returns (ok: bool)
      requires Valid()
      modifies this
      ensures Valid()
      ensures ok <==> NoFileOnPath(old(entries), p)
      ensures entries == if ok then MakeDirs(old(entries), p) else old(entries)
    {
      ok := forall i | 0 <= i <= |p| :: !(p[..i] in entries && entries[p[..i]].File?);
      if ok {
        MakeDirsValid(entries, p);
        entries := MakeDirs(entries, p);
      }
    }

    /** `writeFileSync(p, content)` */
    method WriteFile(p: Path, content: string) returns (ok: bool)
      requires Valid()
      modifies this
      ensures Valid()
      ensures ok <==> Writable(old(entries), p)
      ensures entries == if ok then old(entries)[p := File(content)] else old(entries)
    {
      ok := p != [] && Parent(p) in entries && entries[Parent(p)].Dir? && !(p in entries && entries[p].Dir?);
      if ok {
        WriteValid(entries, p, content);
        entries := entries[p := File(content)];
      }
    }

    /** `copyFileSync(a, b)` */
    method CopyFile(a: Path, b: Path) returns (ok: bool)
      requires Valid()
      modifies this
      ensures Valid()
      ensures ok <==> CanCopyFile(old(entries), a, b)
      ensures entries == if ok then old(entries)[b := old(entries)[a]] else old(entries)
    {
      ok := a in entries && entries[a].File? && b != [] && Parent(b) in entries &&
        entries[Parent(b)].Dir? && !(b in entries && entries[b].Dir?);
      if ok {
        WriteValid(entries, b, entries[a].content);
        entries := entries[b := entries[a]];
      }
    }

    /** `cpSync(a, b, {recursive: true})` */
    method Cp(a: Path, b: Path) returns (ok: bool)
      requires Valid()
      modifies this
      ensures Valid()
      ensures ok <==> CanCopy(old(entries), a, b)
      ensures entries == if ok then CopyTree(old(entries), a, b) else old(entries)
    {
      ok := CanCopy(entries, a, b);
      if ok {
        CopyTreeValid(entries, a, b);
        entries := CopyTree(entries, a, b);
      }
    }

    /** `renameSync(a, b)` */
    method Rename(a: Path, b: Path) returns (ok: bool)
      requires Valid()
      modifies this
      ensures Valid()
      ensures ok <==> CanRename(old(entries), a, b)
      ensures entries == if ok then MoveTree(old(entries), a, b) else old(entries)
    {
      ok := CanRename(entries, a, b);
      if ok {
        MoveTreeValid(entries, a, b);
        entries := MoveTree(entries, a, b);
      }
    }

    /** `rmdirSync(p)`: only an empty directory can be removed. */
    method Rmdir(p: Path) returns (ok: bool)
      requires Valid()
      modifies this
      ensures Valid()
      ensures ok <==> p != [] && IsDirAt(old(entries), p) && Children(old(entries), p) == {}
      ensures entries == if ok then old(entries) - {p} else old(entries)
    {
      ok := p != [] && p in entries && entries[p].Dir? && Children(entries, p) == {};
      if ok {
        RemoveEmptyDir(entries, p);
        RemoveTreeValid(entries, p);
        entries := entries - {p};
      }
    }

    /** `rmSync(p, {recursive: true, force: true})`: a missing path is no error. */
    method Rm(p: Path) returns (ok: bool)
      requires Valid()
      modifies this
      ensures Valid()
      ensures ok <==> p != []
      ensures entries == if ok then RemoveTree(old(entries), p) else old(entries)
    {
      ok := p != [];
      if ok {
        RemoveTreeValid(entries, p);
        entries := RemoveTree(entries, p);
      }
    }
  }
}
