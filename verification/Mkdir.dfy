/** mkdir through the virtual file system: what it creates, what it leaves alone, and the one name it gets wrong. */
module Mkdir {
  import opened RamfsSpec
  import opened PathWalk

  datatype Outcome = Made | Failed(code: Errno)

  /** mkdir: refuse an existing path, find the directory part, create the name in it. */
  ghost function Mkdir(fs: Fs, root: nat, cwd: nat, path: string, mode: int): (Fs, Outcome)
    requires Tree(fs) && Exists(fs, root) && Exists(fs, cwd)
  {
    if FindPath(fs, root, cwd, path).Ok? then (fs, Failed(EEXIST))
    else
      var dir := FindPath(fs, root, cwd, Parent(path));
      if dir.Err? then (fs, Failed(dir.code))
      else
        var (fs', ok) := Make(fs, dir.inode, Name(path), FS_DIR, mode);
        (fs', if ok then Made else Failed(EMINUSONE))
  }

  // ---- Frame ----

  lemma StepFrame(fs: Fs, dir: nat, name: string, kind: int, mask: int, inode: nat, comp: string)
    requires Tree(fs) && Exists(fs, dir) && Exists(fs, inode)
    ensures var fs' := Make(fs, dir, name, kind, mask).0;
            && Exists(fs', inode)
            && (StepName(fs, inode, comp).Ok? ==> StepName(fs', inode, comp) == StepName(fs, inode, comp))
  {
    MakeKeepsTree(fs, dir, name, kind, mask);
    var fs' := Make(fs, dir, name, kind, mask).0;
    HeaderAt(fs, inode);
    HeaderAt(fs, dir);
    HeaderAt(fs', inode);
    if inode == dir { EntryOfAppend(Get(fs, dir).entries, Entry(name, fs.count), comp); }
  }

  lemma {:induction false} EntryOfAppend(entries: seq<Entry>, e: Entry, name: string)
    ensures var k := EntryOf(entries, name);
            && (k < |entries| ==> EntryOf(entries + [e], name) == k)
            && (k == |entries| && e.name == name ==> EntryOf(entries + [e], name) == |entries|)
  {
    var k, l := EntryOf(entries, name), EntryOf(entries + [e], name);
    assert forall j | 0 <= j < |entries| :: (entries + [e])[j] == entries[j];
    assert (entries + [e])[|entries|] == e;
    if k < |entries| {
      assert (entries + [e])[k].name == name;
    }
  }

  /** Every walk that reached an inode before a creation still reaches the same one. */
  lemma {:induction false} WalkFrame(fs: Fs, dir: nat, name: string, kind: int, mask: int, inode: nat,
                                     comps: seq<string>)
    requires Tree(fs) && Exists(fs, dir) && Exists(fs, inode)
    requires Walk(fs, inode, comps).Ok?
    ensures var fs' := Make(fs, dir, name, kind, mask).0;
            Tree(fs') && Exists(fs', inode) && Walk(fs', inode, comps) == Walk(fs, inode, comps)
    decreases |comps|
  {
    MakeKeepsTree(fs, dir, name, kind, mask);
    if comps == [] {
      StepFrame(fs, dir, name, kind, mask, inode, ".");
    } else {
      StepExists(fs, inode, comps[0]);
      StepFrame(fs, dir, name, kind, mask, inode, comps[0]);
      WalkFrame(fs, dir, name, kind, mask, StepName(fs, inode, comps[0]).inode, comps[1..]);
    }
  }

  /** mkdir keeps the tree and every resolution, whether it succeeds or fails. */
  lemma MkdirFrame(fs: Fs, root: nat, cwd: nat, path: string, mode: int, q: string)
    requires Tree(fs) && Exists(fs, root) && Exists(fs, cwd)
    ensures var fs' := Mkdir(fs, root, cwd, path, mode).0;
            && Tree(fs') && Exists(fs', root) && Exists(fs', cwd)
            && (FindPath(fs, root, cwd, q).Ok? ==> FindPath(fs', root, cwd, q) == FindPath(fs, root, cwd, q))
  {
    var dir := FindPath(fs, root, cwd, Parent(path));
    if FindPath(fs, root, cwd, path).Err? && dir.Ok? {
      MakeKeepsTree(fs, dir.inode, Name(path), FS_DIR, mode);
      StepFrame(fs, dir.inode, Name(path), FS_DIR, mode, root, ".");
      StepFrame(fs, dir.inode, Name(path), FS_DIR, mode, cwd, ".");
      if FindPath(fs, root, cwd, q).Ok? {
        WalkFrame(fs, dir.inode, Name(path), FS_DIR, mode, if Absolute(q) then root else cwd, Comps(q));
      }
    }
  }

  // ---- When it succeeds ----

  /** The directory part of a path resolves to a directory. */
  ghost predicate ParentIsDir(fs: Fs, root: nat, cwd: nat, path: string)
    requires Tree(fs) && Exists(fs, root) && Exists(fs, cwd)
  {
    var dir := FindPath(fs, root, cwd, Parent(path));
    dir.Ok? && Get(fs, dir.inode).kind == FS_DIR
  }

  /**
   mkdir succeeds if and only if the path does not resolve and its directory part is a directory.
   Otherwise nothing changes, and the error says that the path exists, why its directory part does not
   resolve, or (-1) that it is no directory.
   */
  lemma MkdirOutcome(fs: Fs, root: nat, cwd: nat, path: string, mode: int)
    requires Tree(fs) && Exists(fs, root) && Exists(fs, cwd)
    ensures var (fs', o) := Mkdir(fs, root, cwd, path, mode);
            var found, dir := FindPath(fs, root, cwd, path), FindPath(fs, root, cwd, Parent(path));
            && (o == Made <==> found.Err? && ParentIsDir(fs, root, cwd, path))
            && (o != Made ==> fs' == fs)
            && (found.Ok? ==> o == Failed(EEXIST))
            && (found.Err? && dir.Err? ==> o == Failed(dir.code))
            && (found.Err? && dir.Ok? && Get(fs, dir.inode).kind != FS_DIR ==> o == Failed(EMINUSONE))
  {}

  /** In particular a name that a directory does not hold yet is made in it. */
  lemma NewNameIsMade(fs: Fs, root: nat, cwd: nat, path: string, mode: int)
    requires Tree(fs) && Exists(fs, root) && Exists(fs, cwd) && ParentIsDir(fs, root, cwd, path)
    requires Lead(path) < |path| && Name(path) != "."
    requires var es := Get(fs, FindPath(fs, root, cwd, Parent(path)).inode).entries; EntryOf(es, Name(path)) == |es|
    ensures Mkdir(fs, root, cwd, path, mode).1 == Made
  {
    PathIsParentName(fs, root, cwd, path);
    MkdirOutcome(fs, root, cwd, path, mode);
  }

  // ---- What is created ----

  /** A path mkdir goes on with is not empty and not only slashes. */
  lemma UnresolvedHasName(fs: Fs, root: nat, cwd: nat, path: string)
    requires Tree(fs) && Exists(fs, root) && Exists(fs, cwd) && FindPath(fs, root, cwd, path).Err?
    ensures Lead(path) < |path|
  {
    if path == [] { WalkOne(fs, cwd, "."); }
  }

  /** Where mkdir succeeds, the directory part is a directory that has no such name yet, unless the name is "..". */
  lemma MadeMeansNew(fs: Fs, root: nat, cwd: nat, path: string, mode: int)
    requires Tree(fs) && Exists(fs, root) && Exists(fs, cwd)
    requires Mkdir(fs, root, cwd, path, mode).1 == Made
    ensures var dir := FindPath(fs, root, cwd, Parent(path));
            && FindPath(fs, root, cwd, path).Err? && Lead(path) < |path|
            && dir.Ok? && Get(fs, dir.inode).kind == FS_DIR
            && Mkdir(fs, root, cwd, path, mode).0 == Make(fs, dir.inode, Name(path), FS_DIR, mode).0
            && Name(path) != "."
            && (Name(path) != ".." ==> EntryOf(Get(fs, dir.inode).entries, Name(path)) == |Get(fs, dir.inode).entries|)
  {
    UnresolvedHasName(fs, root, cwd, path);
    PathIsParentName(fs, root, cwd, path);
  }

  /**
   A successful mkdir makes the path resolve to a fresh, empty directory if and only if the last
   name is not ".."; with ".." the directory is made but the path does not resolve (and by
   ReachableIff no other path reaches it).
   */
  lemma MkdirResolvesIff(fs: Fs, root: nat, cwd: nat, path: string, mode: int)
    requires Tree(fs) && Exists(fs, root) && Exists(fs, cwd)
    requires Mkdir(fs, root, cwd, path, mode).1 == Made
    ensures var fs' := Mkdir(fs, root, cwd, path, mode).0;
            && Tree(fs') && Exists(fs', root) && Exists(fs', cwd)
            && !Exists(fs, fs.count)
            && Exists(fs', fs.count) && Get(fs', fs.count) == Header(fs.count, FS_DIR, mode, [])
            && (Name(path) != ".." ==> FindPath(fs', root, cwd, path) == Ok(fs.count))
            && (Name(path) == ".." ==> FindPath(fs', root, cwd, path) == Err(ENOTDIR))
  {
    MadeMeansNew(fs, root, cwd, path, mode);
    var dir := FindPath(fs, root, cwd, Parent(path)).inode;
    var fs' := Make(fs, dir, Name(path), FS_DIR, mode).0;
    MkdirFrame(fs, root, cwd, path, mode, Parent(path));
    PathIsParentName(fs', root, cwd, path);
    HeaderAt(fs, dir);
    HeaderAt(fs', dir);
    HeaderAt(fs, fs.count);
    HeaderAt(fs', fs.count);
    EntryOfAppend(Get(fs, dir).entries, Entry(Name(path), fs.count), Name(path));
  }

  // ---- Names ----

  /** No directory holds two entries with one name. */
  ghost predicate UniqueNames(fs: Fs) {
    forall i, k, l | 0 <= i < |fs.files| && 0 <= k < l < |fs.files[i].entries| ::
      fs.files[i].entries[k].name != fs.files[i].entries[l].name
  }

  /** Unique names, and none is "." or "..". */
  ghost predicate GoodNames(fs: Fs) {
    UniqueNames(fs)
    && (forall i, k | 0 <= i < |fs.files| && 0 <= k < |fs.files[i].entries| :: PlainName(fs.files[i].entries[k].name))
  }

  predicate PlainName(name: string) { name != "." && name != ".." }

  /** A creation (mkdir or mknod) keeps names unique if and only if the directory has no entry of the name. */
  lemma MakeUniqueIff(fs: Fs, dir: nat, name: string, kind: int, mask: int)
    requires Exists(fs, dir) && UniqueNames(fs) && Get(fs, dir).kind == FS_DIR
    ensures var es := Get(fs, dir).entries;
            UniqueNames(Make(fs, dir, name, kind, mask).0) <==> EntryOf(es, name) == |es|
  {
    var i, es, fs' := HeaderOf(fs.files, dir), Get(fs, dir).entries, Make(fs, dir, name, kind, mask).0;
    var k := EntryOf(es, name);
    if k < |es| {
      assert fs'.files[i].entries[k].name == fs'.files[i].entries[|es|].name;
    }
  }

  lemma MakePlainIff(fs: Fs, dir: nat, name: string, kind: int, mask: int)
    requires Exists(fs, dir) && GoodNames(fs) && Get(fs, dir).kind == FS_DIR
    ensures var es := Get(fs, dir).entries;
            GoodNames(Make(fs, dir, name, kind, mask).0) <==> EntryOf(es, name) == |es| && PlainName(name)
  {
    var i, es, fs' := HeaderOf(fs.files, dir), Get(fs, dir).entries, Make(fs, dir, name, kind, mask).0;
    MakeUniqueIff(fs, dir, name, kind, mask);
    if GoodNames(fs') {
      assert PlainName(fs'.files[i].entries[|es|].name);
    }
  }

  /** mkdir of a path ending in ".." always goes ahead when its directory part is a directory. */
  lemma DotDotIsMade(fs: Fs, root: nat, cwd: nat, path: string, mode: int)
    requires Tree(fs) && Exists(fs, root) && Exists(fs, cwd) && Name(path) == ".."
    ensures Mkdir(fs, root, cwd, path, mode).1 == Made <==> ParentIsDir(fs, root, cwd, path)
  {
    NamedPathHasName(path);
    PathIsParentName(fs, root, cwd, path);
  }

  lemma NamedPathHasName(path: string)
    requires Name(path) == ".."
    ensures Lead(path) < |path|
  {
    var i := if Cut(path) > 0 then Cut(path) + 1 else if Absolute(path) then 1 else 0;
    assert path[i..] == Name(path);
    assert path[i] == Name(path)[0] == '.';
  }

  /** mkdir keeps names unique if and only if it does not repeat a ".." its directory part already holds. */
  lemma MkdirUniqueIff(fs: Fs, root: nat, cwd: nat, path: string, mode: int)
    requires Tree(fs) && Exists(fs, root) && Exists(fs, cwd) && UniqueNames(fs)
    ensures UniqueNames(Mkdir(fs, root, cwd, path, mode).0) <==> !Repeats(fs, root, cwd, path)
  {
    if Name(path) == ".." { DotDotIsMade(fs, root, cwd, path, mode); }
    if Mkdir(fs, root, cwd, path, mode).1 == Made {
      MadeMeansNew(fs, root, cwd, path, mode);
      MakeUniqueIff(fs, FindPath(fs, root, cwd, Parent(path)).inode, Name(path), FS_DIR, mode);
    } else {
      assert Mkdir(fs, root, cwd, path, mode).0 == fs;
    }
  }

  /** mkdir keeps names good if and only if it does not make a "..". */
  lemma MkdirKeepsNames(fs: Fs, root: nat, cwd: nat, path: string, mode: int)
    requires Tree(fs) && Exists(fs, root) && Exists(fs, cwd) && GoodNames(fs)
    ensures GoodNames(Mkdir(fs, root, cwd, path, mode).0) <==>
              Name(path) != ".." || !ParentIsDir(fs, root, cwd, path)
  {
    if Name(path) == ".." { DotDotIsMade(fs, root, cwd, path, mode); }
    if Mkdir(fs, root, cwd, path, mode).1 == Made {
      MadeMeansNew(fs, root, cwd, path, mode);
      MakePlainIff(fs, FindPath(fs, root, cwd, Parent(path)).inode, Name(path), FS_DIR, mode);
    } else {
      assert Mkdir(fs, root, cwd, path, mode).0 == fs;
    }
  }

  /** Making ".." twice in the empty file system succeeds twice and leaves two entries of that name in the root. */
  lemma DotDotTwice(mode: int)
    ensures InitIsTree()
    ensures var (fs1, o1) := Mkdir(Init(), ROOT, ROOT, "..", mode);
            && o1 == Made && Tree(fs1) && Exists(fs1, ROOT)
            && var (fs2, o2) := Mkdir(fs1, ROOT, ROOT, "..", mode);
            && o2 == Made
            && fs2.files[0].entries == [Entry("..", 2), Entry("..", 3)]
  {
    InitTree();
    DotDotMade(Init(), mode);
    var fs1 := Mkdir(Init(), ROOT, ROOT, "..", mode).0;
    MkdirFrame(Init(), ROOT, ROOT, "..", mode, "/");
    DotDotMade(fs1, mode);
  }

  ghost predicate InitIsTree() { Tree(Init()) && Exists(Init(), ROOT) }

  lemma DotDotMade(fs: Fs, mode: int)
    requires Tree(fs) && Exists(fs, ROOT)
    ensures Mkdir(fs, ROOT, ROOT, "..", mode) == (Make(fs, ROOT, "..", FS_DIR, mode).0, Made)
  {
    HeaderAt(fs, ROOT);
    SplitPlain("..");
    SplitPlain(".");
    assert Cut("..") == 0;
    WalkOne(fs, ROOT, "..");
    WalkOne(fs, ROOT, ".");
  }

  // ---- Runs ----

  /** A call of mkdir. */
  datatype Call = Call(path: string, mode: int)

  /** The calls in turn. */
  ghost function MkdirAll(fs: Fs, root: nat, cwd: nat, calls: seq<Call>): Fs
    requires Tree(fs) && Exists(fs, root) && Exists(fs, cwd)
    decreases |calls|
  {
    if calls == [] then fs
    else
      MkdirFrame(fs, root, cwd, calls[0].path, calls[0].mode, calls[0].path);
      MkdirAll(Mkdir(fs, root, cwd, calls[0].path, calls[0].mode).0, root, cwd, calls[1..])
  }

  /** The call makes a second ".." in some directory. */
  ghost predicate Repeats(fs: Fs, root: nat, cwd: nat, path: string)
    requires Tree(fs) && Exists(fs, root) && Exists(fs, cwd)
  {
    && Name(path) == ".." && ParentIsDir(fs, root, cwd, path)
    && var es := Get(fs, FindPath(fs, root, cwd, Parent(path)).inode).entries; EntryOf(es, "..") < |es|
  }

  ghost predicate NoneRepeats(fs: Fs, root: nat, cwd: nat, calls: seq<Call>)
    requires Tree(fs) && Exists(fs, root) && Exists(fs, cwd)
    decreases |calls|
  {
    calls == []
    || (MkdirFrame(fs, root, cwd, calls[0].path, calls[0].mode, calls[0].path);
        && !Repeats(fs, root, cwd, calls[0].path)
        && NoneRepeats(Mkdir(fs, root, cwd, calls[0].path, calls[0].mode).0, root, cwd, calls[1..]))
  }

  /** Two entries of one name stay. */
  lemma MakeKeepsRepeated(fs: Fs, dir: nat, name: string, kind: int, mask: int)
    requires Exists(fs, dir) && !UniqueNames(fs)
    ensures !UniqueNames(Make(fs, dir, name, kind, mask).0)
  {
    var i, k, l :| && 0 <= i < |fs.files| && 0 <= k < l < |fs.files[i].entries|
                   && fs.files[i].entries[k].name == fs.files[i].entries[l].name;
    var es := Make(fs, dir, name, kind, mask).0.files[i].entries;
    assert es[k] == fs.files[i].entries[k] && es[l] == fs.files[i].entries[l];
  }

  lemma MkdirKeepsRepeated(fs: Fs, root: nat, cwd: nat, path: string, mode: int)
    requires Tree(fs) && Exists(fs, root) && Exists(fs, cwd) && !UniqueNames(fs)
    ensures !UniqueNames(Mkdir(fs, root, cwd, path, mode).0)
  {
    var dir := FindPath(fs, root, cwd, Parent(path));
    if dir.Ok? { MakeKeepsRepeated(fs, dir.inode, Name(path), FS_DIR, mode); }
  }

  lemma {:induction false} RunKeepsRepeated(fs: Fs, root: nat, cwd: nat, calls: seq<Call>)
    requires Tree(fs) && Exists(fs, root) && Exists(fs, cwd) && !UniqueNames(fs)
    ensures !UniqueNames(MkdirAll(fs, root, cwd, calls))
    decreases |calls|
  {
    if calls != [] {
      MkdirKeepsRepeated(fs, root, cwd, calls[0].path, calls[0].mode);
      MkdirFrame(fs, root, cwd, calls[0].path, calls[0].mode, calls[0].path);
      RunKeepsRepeated(Mkdir(fs, root, cwd, calls[0].path, calls[0].mode).0, root, cwd, calls[1..]);
    }
  }

  /** Over every run of mkdir: a tree, and old resolutions intact. */
  lemma {:induction false} MkdirRun(fs: Fs, root: nat, cwd: nat, calls: seq<Call>, q: string)
    requires Tree(fs) && Exists(fs, root) && Exists(fs, cwd)
    ensures var fs' := MkdirAll(fs, root, cwd, calls);
            && Tree(fs') && Exists(fs', root) && Exists(fs', cwd)
            && (FindPath(fs, root, cwd, q).Ok? ==> FindPath(fs', root, cwd, q) == FindPath(fs, root, cwd, q))
    decreases |calls|
  {
    if calls != [] {
      MkdirFrame(fs, root, cwd, calls[0].path, calls[0].mode, q);
      MkdirRun(Mkdir(fs, root, cwd, calls[0].path, calls[0].mode).0, root, cwd, calls[1..], q);
    }
  }

  /** Over every run of mkdir from unique names they end unique if and only if no directory got a second "..". */
  lemma {:induction false} MkdirRunUniqueIff(fs: Fs, root: nat, cwd: nat, calls: seq<Call>)
    requires Tree(fs) && Exists(fs, root) && Exists(fs, cwd) && UniqueNames(fs)
    ensures UniqueNames(MkdirAll(fs, root, cwd, calls)) <==> NoneRepeats(fs, root, cwd, calls)
    decreases |calls|
  {
    if calls != [] {
      var c := calls[0];
      var fs' := Mkdir(fs, root, cwd, c.path, c.mode).0;
      MkdirFrame(fs, root, cwd, c.path, c.mode, c.path);
      MkdirUniqueIff(fs, root, cwd, c.path, c.mode);
      if UniqueNames(fs') {
        MkdirRunUniqueIff(fs', root, cwd, calls[1..]);
      } else {
        RunKeepsRepeated(fs', root, cwd, calls[1..]);
      }
    }
  }

  // ---- Which inodes paths reach ----

  /** The walk can follow entry k of the i-th header: its name is plain and the first of its kind there. */
  ghost predicate Followed(fs: Fs, i: nat, k: nat)
    requires IsEntry(fs, i, k)
  {
    var es := fs.files[i].entries;
    PlainName(es[k].name) && EntryOf(es, es[k].name) == k
  }

  /** Every entry on the chain from the root down to v can be followed. */
  ghost predicate OpenChain(fs: Fs, v: nat)
    decreases v
  {
    v == ROOT
    || exists i: nat, k: nat :: Link(fs, v, i, k) && OpenChain(fs, i + 1)
  }

  /** Entry k of the i-th header names v and can be followed. */
  ghost predicate Link(fs: Fs, v: nat, i: nat, k: nat) {
    i + 1 < v && IsEntry(fs, i, k) && Target(fs, i, k) == v && Followed(fs, i, k)
  }

  lemma StepOpen(fs: Fs, u: nat, name: string)
    requires Tree(fs) && Exists(fs, u) && OpenChain(fs, u) && StepName(fs, u, name).Ok?
    ensures OpenChain(fs, StepName(fs, u, name).inode)
  {
    if name != "." {
      HeaderAt(fs, u);
      var k := EntryOf(Get(fs, u).entries, name);
      assert IsEntry(fs, u - 1, k);
      assert Link(fs, StepName(fs, u, name).inode, u - 1, k) && OpenChain(fs, (u - 1) + 1);
    }
  }

  lemma {:induction false} WalkOpen(fs: Fs, u: nat, comps: seq<string>)
    requires Tree(fs) && Exists(fs, u) && OpenChain(fs, u) && Walk(fs, u, comps).Ok?
    ensures OpenChain(fs, Walk(fs, u, comps).inode)
    decreases |comps|
  {
    if comps != [] {
      StepExists(fs, u, comps[0]);
      StepOpen(fs, u, comps[0]);
      WalkOpen(fs, StepName(fs, u, comps[0]).inode, comps[1..]);
    }
  }

  /** The last link of an open chain, as a step of a walk. */
  lemma LastLink(fs: Fs, v: nat) returns (u: nat, name: string)
    requires Tree(fs) && OpenChain(fs, v) && v != ROOT
    ensures u < v && OpenChain(fs, u) && Exists(fs, u) && StepName(fs, u, name) == Ok(v)
  {
    var i: nat, k: nat :| Link(fs, v, i, k) && OpenChain(fs, i + 1);
    HeaderAt(fs, i + 1);
    u, name := i + 1, fs.files[i].entries[k].name;
  }

  lemma {:induction false} OpenIsReached(fs: Fs, v: nat) returns (comps: seq<string>)
    requires Tree(fs) && OpenChain(fs, v) && Exists(fs, ROOT)
    ensures Walk(fs, ROOT, comps) == Ok(v)
    decreases v
  {
    comps := [];
    if v != ROOT {
      var u, name := LastLink(fs, v);
      comps := OpenIsReached(fs, u);
      WalkConcat(fs, ROOT, comps, [name]);
      WalkOne(fs, u, name);
      comps := comps + [name];
    }
  }

  /** An inode is reached from the root by some components if and only if every name on its chain can be followed. */
  lemma ReachableIff(fs: Fs, v: nat)
    requires Tree(fs)
    ensures Exists(fs, ROOT)
    ensures (exists comps: seq<string> :: Walk(fs, ROOT, comps) == Ok(v)) <==> OpenChain(fs, v)
  {
    HeaderAt(fs, ROOT);
    if OpenChain(fs, v) {
      var comps := OpenIsReached(fs, v);
      assert Walk(fs, ROOT, comps) == Ok(v);
    }
    if comps: seq<string> :| Walk(fs, ROOT, comps) == Ok(v) {
      WalkOpen(fs, ROOT, comps);
    }
  }

  /** With good names every inode is reached from the root. */
  lemma {:induction false} EveryInodeReachable(fs: Fs, v: nat)
    requires Tree(fs) && GoodNames(fs) && ROOT <= v < fs.count
    ensures OpenChain(fs, v)
    ensures Exists(fs, ROOT) && exists comps: seq<string> :: Walk(fs, ROOT, comps) == Ok(v)
    decreases v
  {
    if v > ROOT {
      assert Named(fs, v);
      var i: nat, k: nat :| IsEntry(fs, i, k) && Target(fs, i, k) == v;
      EveryInodeReachable(fs, i + 1);
      assert Link(fs, v, i, k);
    }
    ReachableIff(fs, v);
  }

  /** The directory a mkdir of ".." makes is reached by no path at all. */
  lemma DotDotUnreachable(fs: Fs, root: nat, cwd: nat, path: string, mode: int, comps: seq<string>)
    requires Tree(fs) && Exists(fs, root) && Exists(fs, cwd) && Name(path) == ".."
    requires Mkdir(fs, root, cwd, path, mode).1 == Made
    ensures var fs' := Mkdir(fs, root, cwd, path, mode).0;
            Tree(fs') && Exists(fs', ROOT) && Walk(fs', ROOT, comps) != Ok(fs.count)
  {
    MadeMeansNew(fs, root, cwd, path, mode);
    var dir := FindPath(fs, root, cwd, Parent(path)).inode;
    var fs' := Make(fs, dir, "..", FS_DIR, mode).0;
    HeaderAt(fs, dir);
    MakeKeepsTree(fs, dir, "..", FS_DIR, mode);
    MakeEntries(fs, dir, "..", FS_DIR, mode);
    assert fs'.files[dir - 1].entries[|Get(fs, dir).entries|].name == "..";
    forall i: nat, k: nat | IsEntry(fs', i, k) ensures !Link(fs', fs.count, i, k) {
      if Target(fs', i, k) == fs.count { assert (i, k) == (dir - 1, |Get(fs, dir).entries|); }
    }
    ReachableIff(fs', fs.count);
  }
}
