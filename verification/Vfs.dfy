/** The file system as it runs: header and entry lists appended in place, list loops, and the iterative path walk. */
module Vfs {
  import opened RamfsSpec
  import opened PathWalk
  import M = Mkdir

  /** Number of the error code in errno.h. */
  const NOTDIR_CODE := 85

  class Ramfs {
    var files: seq<Header>
    var count: nat

    ghost function Abs(): Fs
      reads this
    {
      Fs(files, count)
    }

    constructor ()
      ensures Abs() == Init() && Tree(Abs())
    {
      files := [Header(ROOT, FS_DIR, 0x1ff, [])];
      count := 2;
    }

    /** ramfs_get_file_h: the header list loop. */
    method GetFileH(inode: nat) returns (i: nat)
      ensures i == HeaderOf(files, inode)
    {
      i := 0;
      while i < |files|
        invariant i <= |files| && i <= HeaderOf(files, inode)
      {
        if files[i].inode == inode {
          return;
        }
        i := i + 1;
      }
    }

    /** ramfs_readdir: the entry-th entry, 0 behind the last one, -ENOTDIR for other files. */
    method Readdir(inode: nat, entry: nat) returns (ret: int, e: Entry)
      requires Exists(Abs(), inode)
      ensures var h := Get(Abs(), inode);
              && (h.kind != FS_DIR ==> ret == -NOTDIR_CODE)
              && (h.kind == FS_DIR && entry < |h.entries| ==> ret == 1 && e == h.entries[entry])
              && (h.kind == FS_DIR && entry >= |h.entries| ==> ret == 0)
    {
      e := Entry("", 0);
      var i := GetFileH(inode);
      if files[i].kind != FS_DIR {
        return -NOTDIR_CODE, e;
      }
      var dirty := files[i].entries;
      var d := 0;
      while d < entry && dirty != []
        invariant d <= entry
        invariant d <= |files[i].entries| && dirty == files[i].entries[d..]
      {
        dirty := dirty[1..];
        d := d + 1;
      }
      if dirty == [] {
        return 0, e;
      }
      return 1, dirty[0];
    }

    /** ramfs_mkdir and ramfs_mknod. */
    method Make(dir: nat, name: string, kind: int, mask: int) returns (ok: bool)
      requires Tree(Abs()) && Exists(Abs(), dir)
      modifies this
      ensures (Abs(), ok) == RamfsSpec.Make(old(Abs()), dir, name, kind, mask)
      ensures Tree(Abs())
    {
      MakeKeepsTree(Abs(), dir, name, kind, mask);
      var i := GetFileH(dir);
      if files[i].kind != FS_DIR {
        return false;
      }
      files := files[i := files[i].(entries := files[i].entries + [Entry(name, count)])];
      files := files + [Header(count, kind, mask, [])];
      count := count + 1;
      return true;
    }

    /** The directory scan inside fs_find_node: read entry after entry until the name matches. */
    method Scan(dir: nat, name: string) returns (found: bool, inode: nat)
      requires Exists(Abs(), dir) && Get(Abs(), dir).kind == FS_DIR
      ensures var es := Get(Abs(), dir).entries; var k := EntryOf(es, name);
              && (found <==> k < |es|)
              && (found ==> inode == es[k].inode)
    {
      found, inode := false, dir;
      var d := 0;
      ghost var es := Get(Abs(), dir).entries;
      while !found
        invariant d <= |es|
        invariant !found ==> d <= EntryOf(es, name)
        invariant found ==> EntryOf(es, name) < |es| && inode == es[EntryOf(es, name)].inode
        decreases !found, |es| - d
      {
        var r, e := Readdir(dir, d);
        if r == 0 {
          return;
        }
        d := d + r;
        if e.name == name {
          inode := e.inode;
          found := true;
        }
      }
    }

    /** The branches of fs_find_node on one component. */
    method Follow(temp: nat, comp: string) returns (r: Result)
      requires Exists(Abs(), temp)
      ensures r == StepName(Abs(), temp, comp)
    {
      if comp == "." {
        return Ok(temp);
      } else if comp == ".." {
        return Err(ENOTDIR);
      }
      var h := GetFileH(temp);
      if files[h].kind != FS_DIR {
        return Err(ENOTDIR);
      }
      var found, inode := Scan(temp, comp);
      return if found then Ok(inode) else Err(ENOENT);
    }

    /** fs_find_node: the iterative walk over the components of a path. */
    method FindNode(start: nat, path: string) returns (r: Result)
      requires Tree(Abs()) && Exists(Abs(), start)
      ensures r == PathWalk.FindNode(Abs(), start, path)
    {
      var temp, name := start, path;
      while true
        invariant Exists(Abs(), temp)
        invariant Walk(Abs(), temp, Split(name)) == Walk(Abs(), start, Split(path))
        decreases |name|
      {
        var i := ComponentEnd(name);
        NextComponent(Abs(), temp, name, i);
        r := Follow(temp, name[..i]);
        if r.Err? || i == |name| {
          return;
        }
        temp, name := r.inode, name[i + 1..];
      }
    }

    /** fs_find_path: strip leading slashes and choose the start. */
    method FindPath(root: nat, cwd: nat, path: string) returns (r: Result)
      requires Tree(Abs()) && Exists(Abs(), root) && Exists(Abs(), cwd)
      ensures r == PathWalk.FindPath(Abs(), root, cwd, path)
    {
      if path == [] {
        SplitPlain(".");
        r := FindNode(cwd, ".");
      } else if path[0] == '/' {
        var k := 0;
        while k < |path| && path[k] == '/'
          invariant k <= |path| && forall j | 0 <= j < k :: path[j] == '/'
        {
          k := k + 1;
        }
        LeadIs(path, k);
        if k == |path| {
          return Ok(root);
        }
        r := FindNode(root, path[k..]);
      } else {
        r := FindNode(cwd, path);
      }
    }

    /** mkdir: look the path up, then its directory part, and create the name there. */
    method Mkdir(root: nat, cwd: nat, path: string, mode: int) returns (r: M.Outcome)
      requires Tree(Abs()) && Exists(Abs(), root) && Exists(Abs(), cwd)
      modifies this
      ensures (Abs(), r) == M.Mkdir(old(Abs()), root, cwd, path, mode)
      ensures Tree(Abs())
    {
      var found := FindPath(root, cwd, path);
      if found.Ok? {
        return M.Failed(EEXIST);
      }
      M.UnresolvedHasName(Abs(), root, cwd, path);
      var dir, file := SplitPath(path);
      var d := FindPath(root, cwd, dir);
      if d.Err? {
        return M.Failed(d.code);
      }
      var ok := Make(d.inode, file, FS_DIR, mode);
      return if ok then M.Made else M.Failed(EMINUSONE);
    }
  }

  /** The loop of fs_find_node for the next slash. */
  method ComponentEnd(name: string) returns (i: nat)
    ensures i <= |name| && (i < |name| ==> name[i] == '/') && forall j | 0 <= j < i :: name[j] != '/'
  {
    i := 0;
    while i < |name| && name[i] != '/'
      invariant i <= |name| && forall j | 0 <= j < i :: name[j] != '/'
    {
      i := i + 1;
    }
  }

  /** The backward loop of mkdir for the last slash. */
  method SplitPath(path: string) returns (dir: string, file: string)
    requires path != []
    ensures dir == Parent(path) && file == Name(path)
  {
    var i: nat := |path|;
    while i > 0
      invariant i <= |path|
      invariant forall j | i < j < |path| :: path[j] != '/'
      invariant CutFrom(path, i) == Cut(path)
    {
      if i < |path| && path[i] == '/' {
        break;
      }
      i := i - 1;
    }
    if i > 0 {
      dir, file := path[..i], path[i + 1..];
    } else if path[0] == '/' {
      dir, file := "/", path[1..];
    } else {
      dir, file := ".", path;
    }
  }

  /** One turn of the walk: the first component is resolved, the rest is walked from there. */
  lemma NextComponent(fs: Fs, inode: nat, name: string, i: nat)
    requires Tree(fs) && Exists(fs, inode)
    requires i <= |name| && (i < |name| ==> name[i] == '/') && forall j | 0 <= j < i :: name[j] != '/'
    ensures var r := StepName(fs, inode, name[..i]);
            && (r.Ok? ==> Exists(fs, r.inode))
            && Walk(fs, inode, Split(name)) ==
               if r.Err? || i == |name| then r else Walk(fs, r.inode, Split(name[i + 1..]))
  {
    var comp := name[..i];
    SplitPlain(comp);
    WalkOne(fs, inode, comp);
    StepExists(fs, inode, comp);
    if i == |name| {
      assert comp == name;
    } else {
      CutAt(name, 0, i);
      assert name[0..] == name && name[0..i] == comp;
      SplitJoin(comp, name[i + 1..]);
      WalkConcat(fs, inode, [comp], Split(name[i + 1..]));
    }
  }
}
