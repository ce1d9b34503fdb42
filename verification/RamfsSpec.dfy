/** The in-memory file system: a list of headers, directory entries in append order, and an inode counter. */
module RamfsSpec {
  import opened Sequences

  /** The header type of directories; mknod passes any number through. */
  const FS_DIR := 1

  datatype Entry = Entry(name: string, inode: nat)

  datatype Header = Header(inode: nat, kind: int, mask: int, entries: seq<Entry>)

  datatype Fs = Fs(files: seq<Header>, count: nat)

  const ROOT: nat := 1

  /** init_ramfs. */
  function Init(): Fs { Fs([Header(ROOT, FS_DIR, 0x1ff, [])], 2) }

  /** ramfs_get_file_h: index of the first header with the inode, or the number of headers. */
  function HeaderOf(files: seq<Header>, inode: nat): (i: nat)
    ensures i <= |files|
    ensures i < |files| ==> files[i].inode == inode
    ensures forall j | 0 <= j < i :: files[j].inode != inode
  {
    FirstIndex(files, (h: Header) => h.inode == inode)
  }

  /** Index of the first entry with a name, or the number of entries. */
  function EntryOf(entries: seq<Entry>, name: string): (k: nat)
    ensures k <= |entries|
    ensures k < |entries| ==> entries[k].name == name
    ensures forall j | 0 <= j < k :: entries[j].name != name
  {
    FirstIndex(entries, (e: Entry) => e.name == name)
  }

  predicate Exists(fs: Fs, inode: nat) {
    HeaderOf(fs.files, inode) < |fs.files|
  }

  function Get(fs: Fs, inode: nat): Header
    requires Exists(fs, inode)
  {
    fs.files[HeaderOf(fs.files, inode)]
  }

  /**
   ramfs_mkdir and ramfs_mknod: a new header, named by a new entry at the end of the directory;
   false if it is no directory.
   */
  function Make(fs: Fs, dir: nat, name: string, kind: int, mask: int): (Fs, bool)
    requires Exists(fs, dir)
  {
    var i := HeaderOf(fs.files, dir);
    var h := fs.files[i];
    if h.kind != FS_DIR then (fs, false)
    else
      (Fs(fs.files[i := h.(entries := h.entries + [Entry(name, fs.count)])] + [Header(fs.count, kind, mask, [])],
          fs.count + 1), true)
  }

  // ---- The tree ----

  /** An entry position: entry k of the i-th header. */
  ghost predicate IsEntry(fs: Fs, i: nat, k: nat) {
    i < |fs.files| && k < |fs.files[i].entries|
  }

  function Target(fs: Fs, i: nat, k: nat): nat
    requires i < |fs.files| && k < |fs.files[i].entries|
  {
    fs.files[i].entries[k].inode
  }

  /**
   Inodes are the positions counted from 1, entries name existing headers of higher inodes, and every
   inode but the root is named by exactly one entry.
   */
  ghost predicate Tree(fs: Fs) {
    && |fs.files| > 0 && fs.count == |fs.files| + 1
    && fs.files[0].kind == FS_DIR
    && (forall i | 0 <= i < |fs.files| :: fs.files[i].inode == i + 1)
    && (forall i | 0 <= i < |fs.files| :: fs.files[i].kind != FS_DIR ==> fs.files[i].entries == [])
    && (forall i: nat, k: nat | IsEntry(fs, i, k) :: i + 1 < Target(fs, i, k) < fs.count)
    && (forall i: nat, k: nat, i': nat, k': nat | IsEntry(fs, i, k) && IsEntry(fs, i', k') && (i, k) != (i', k') ::
          Target(fs, i, k) != Target(fs, i', k'))
    && (forall v | ROOT < v < fs.count :: Named(fs, v))
  }

  ghost predicate Named(fs: Fs, v: nat) {
    exists i: nat, k: nat :: IsEntry(fs, i, k) && Target(fs, i, k) == v
  }

  lemma HeaderAt(fs: Fs, inode: nat)
    requires Tree(fs)
    ensures Exists(fs, inode) <==> 1 <= inode < fs.count
    ensures Exists(fs, inode) ==> HeaderOf(fs.files, inode) == inode - 1
  {
    if 1 <= inode < fs.count { assert fs.files[inode - 1].inode == inode; }
  }

  lemma MakeEntries(fs: Fs, dir: nat, name: string, kind: int, mask: int)
    requires Tree(fs) && Exists(fs, dir) && Get(fs, dir).kind == FS_DIR
    ensures var fs' := Make(fs, dir, name, kind, mask).0;
            var d, n := dir - 1, |Get(fs, dir).entries|;
            && |fs'.files| == |fs.files| + 1 && fs'.count == fs.count + 1
            && d < |fs.files| && IsEntry(fs', d, n) && Target(fs', d, n) == fs.count
            && (forall i: nat, k: nat | (i, k) != (d, n) :: IsEntry(fs', i, k) <==> IsEntry(fs, i, k))
            && (forall i: nat, k: nat | IsEntry(fs, i, k) :: Target(fs', i, k) == Target(fs, i, k))
  {
    HeaderAt(fs, dir);
  }

  /** Creating a file or directory keeps the tree. */
  lemma MakeKeepsTree(fs: Fs, dir: nat, name: string, kind: int, mask: int)
    requires Tree(fs) && Exists(fs, dir)
    ensures Tree(Make(fs, dir, name, kind, mask).0)
  {
    HeaderAt(fs, dir);
    if Get(fs, dir).kind == FS_DIR {
      MakeEntries(fs, dir, name, kind, mask);
      var fs' := Make(fs, dir, name, kind, mask).0;
      forall v | ROOT < v < fs'.count ensures Named(fs', v) {
        if v < fs.count {
          assert Named(fs, v);
          var i: nat, k: nat :| IsEntry(fs, i, k) && Target(fs, i, k) == v;
          assert IsEntry(fs', i, k) && Target(fs', i, k) == v;
        } else {
          assert IsEntry(fs', dir - 1, |Get(fs, dir).entries|);
        }
      }
    }
  }

  datatype Op = Op(dir: nat, name: string, kind: int, mask: int)

  /** Creations in existing directories, in any order; others fail before changing anything. */
  function Run(fs: Fs, ops: seq<Op>): Fs
    decreases |ops|
  {
    if ops == [] then fs
    else
      var op := ops[0];
      Run(if Exists(fs, op.dir) then Make(fs, op.dir, op.name, op.kind, op.mask).0 else fs, ops[1..])
  }

  /** The file system is a tree after every sequence of mkdir and mknod. */
  lemma {:induction false} RunKeepsTree(fs: Fs, ops: seq<Op>)
    requires Tree(fs)
    ensures Tree(Run(fs, ops))
    decreases |ops|
  {
    if ops != [] {
      var op := ops[0];
      if Exists(fs, op.dir) {
        MakeKeepsTree(fs, op.dir, op.name, op.kind, op.mask);
        RunKeepsTree(Make(fs, op.dir, op.name, op.kind, op.mask).0, ops[1..]);
      } else {
        RunKeepsTree(fs, ops[1..]);
      }
    }
  }

  /** The initial file system is a tree: one empty directory with all permissions. */
  lemma InitTree()
    ensures Tree(Init()) && Exists(Init(), ROOT) && Init().count == 2
    ensures Get(Init(), ROOT) == Header(ROOT, FS_DIR, 0x1ff, [])
  {}

  /**
   What a creation does: in a directory it adds an empty file of the kind and mode under the next inode,
   and one entry of the name behind the others; everything else, and any other file, stays as it is.
   */
  lemma MakeExact(fs: Fs, dir: nat, name: string, kind: int, mask: int, inode: nat)
    requires Tree(fs) && Exists(fs, dir) && Exists(fs, inode)
    ensures var (fs', ok) := Make(fs, dir, name, kind, mask);
            && (ok <==> Get(fs, dir).kind == FS_DIR) && (!ok ==> fs' == fs)
            && (ok ==> && Tree(fs') && !Exists(fs, fs.count) && Exists(fs', fs.count) && Exists(fs', inode)
                       && Get(fs', fs.count) == Header(fs.count, kind, mask, [])
                       && Get(fs', inode) ==
                          if inode != dir then Get(fs, inode)
                          else Get(fs, dir).(entries := Get(fs, dir).entries + [Entry(name, fs.count)]))
  {
    if Get(fs, dir).kind == FS_DIR {
      MakeKeepsTree(fs, dir, name, kind, mask);
      var fs' := Make(fs, dir, name, kind, mask).0;
      HeaderAt(fs, dir);
      HeaderAt(fs, inode);
      HeaderAt(fs, fs.count);
      HeaderAt(fs', inode);
      HeaderAt(fs', fs.count);
    }
  }
}
