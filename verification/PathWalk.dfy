/** Path resolution and directory creation over the in-memory file system, with no mounts. */
module PathWalk {
  import opened RamfsSpec

  datatype Errno = ENOENT | ENOTDIR | EEXIST | EMINUSONE

  datatype Result = Ok(inode: nat) | Err(code: Errno)

  // ---- Components ----

  /** The '/'-separated components; always at least one, possibly empty strings. */
  function Split(s: string): (c: seq<string>)
    ensures |c| > 0
  {
    if s == [] then [""]
    else
      var c := Split(s[1..]);
      if s[0] == '/' then [""] + c else [[s[0]] + c[0]] + c[1..]
  }

  lemma {:induction false} SplitJoin(p: string, q: string)
    ensures Split(p + "/" + q) == Split(p) + Split(q)
  {
    var s := p + "/" + q;
    if p == [] {
      assert s[1..] == q;
    } else {
      assert s[1..] == p[1..] + "/" + q;
      SplitJoin(p[1..], q);
    }
  }

  lemma {:induction false} SplitPlain(s: string)
    requires forall j | 0 <= j < |s| :: s[j] != '/'
    ensures Split(s) == [s]
  {
    if s != [] {
      SplitPlain(s[1..]);
      assert [s[0]] + s[1..] == s;
    }
  }

  /** A string cut at a slash. */
  lemma CutAt(s: string, k: nat, i: nat)
    requires k <= i < |s| && s[i] == '/'
    ensures s[k..] == s[k..i] + "/" + s[i + 1..]
  {}

  // ---- Recursive descent ----

  /** One component from an inode. */
  function StepName(fs: Fs, inode: nat, name: string): Result
    requires Exists(fs, inode)
  {
    var h := Get(fs, inode);
    if name == "." then Ok(inode)
    else if name == ".." then Err(ENOTDIR)
    else if h.kind != FS_DIR then Err(ENOTDIR)
    else
      var k := EntryOf(h.entries, name);
      if k < |h.entries| then Ok(h.entries[k].inode) else Err(ENOENT)
  }

  /** Recursive descent over a list of components. */
  ghost function Walk(fs: Fs, inode: nat, comps: seq<string>): (r: Result)
    requires Tree(fs) && Exists(fs, inode)
    ensures r.Ok? ==> Exists(fs, r.inode)
    decreases |comps|
  {
    if comps == [] then Ok(inode)
    else
      StepExists(fs, inode, comps[0]);
      var r := StepName(fs, inode, comps[0]);
      if r.Err? then r else Walk(fs, r.inode, comps[1..])
  }

  /** In a tree every step ends at an existing header. */
  lemma StepExists(fs: Fs, inode: nat, name: string)
    requires Tree(fs) && Exists(fs, inode)
    ensures var r := StepName(fs, inode, name); r.Ok? ==> Exists(fs, r.inode)
  {
    HeaderAt(fs, inode);
    var r := StepName(fs, inode, name);
    if r.Ok? && name != "." {
      var k := EntryOf(Get(fs, inode).entries, name);
      assert IsEntry(fs, inode - 1, k) && Target(fs, inode - 1, k) == r.inode;
      HeaderAt(fs, r.inode);
    }
  }

  lemma {:induction false} WalkConcat(fs: Fs, inode: nat, a: seq<string>, b: seq<string>)
    requires Tree(fs) && Exists(fs, inode)
    ensures var r := Walk(fs, inode, a);
            Walk(fs, inode, a + b) == if r.Err? then r else Walk(fs, r.inode, b)
    decreases |a|
  {
    if a == [] {
      assert a + b == b;
    } else {
      assert (a + b)[1..] == a[1..] + b;
      StepExists(fs, inode, a[0]);
      var r := StepName(fs, inode, a[0]);
      if r.Ok? { WalkConcat(fs, r.inode, a[1..], b); }
    }
  }

  /** fs_find_node. */
  ghost function FindNode(fs: Fs, start: nat, path: string): (r: Result)
    requires Tree(fs) && Exists(fs, start)
    ensures r.Ok? ==> Exists(fs, r.inode)
  {
    Walk(fs, start, Split(path))
  }

  /** Resolving p/q is resolving q from the result of p. */
  lemma ResolveJoin(fs: Fs, start: nat, p: string, q: string)
    requires Tree(fs) && Exists(fs, start)
    ensures var r := FindNode(fs, start, p);
            FindNode(fs, start, p + "/" + q) == if r.Err? then r else FindNode(fs, r.inode, q)
  {
    SplitJoin(p, q);
    WalkConcat(fs, start, Split(p), Split(q));
  }

  // ---- Whole paths ----

  /** Number of leading slashes. */
  function Lead(path: string): (n: nat)
    ensures n <= |path| && (n < |path| ==> path[n] != '/')
    ensures forall j | 0 <= j < n :: path[j] == '/'
  {
    if path != [] && path[0] == '/' then
      var n := Lead(path[1..]);
      assert forall j | 0 <= j < n + 1 :: j > 0 ==> path[j] == path[1..][j - 1];
      n + 1
    else 0
  }

  lemma LeadIs(path: string, n: nat)
    requires n <= |path| && (n < |path| ==> path[n] != '/')
    requires forall j | 0 <= j < n :: path[j] == '/'
    ensures Lead(path) == n
  {}

  predicate Absolute(path: string) { path != [] && path[0] == '/' }

  /** The components fs_find_path walks: none for the root itself, "." for the empty path. */
  function Comps(path: string): seq<string> {
    if path == [] then ["."]
    else if Absolute(path) then (if Lead(path) == |path| then [] else Split(path[Lead(path)..]))
    else Split(path)
  }

  /** fs_find_path from a task's root and working directory. */
  ghost function FindPath(fs: Fs, root: nat, cwd: nat, path: string): (r: Result)
    requires Tree(fs) && Exists(fs, root) && Exists(fs, cwd)
    ensures r.Ok? ==> Exists(fs, r.inode)
  {
    Walk(fs, if Absolute(path) then root else cwd, Comps(path))
  }

  /** Last '/' at a position above 0, or 0: where mkdir cuts the path. */
  function Cut(path: string): (i: nat)
    ensures i == 0 || (i < |path| && path[i] == '/')
    ensures forall j | i < j < |path| :: j > 0 ==> path[j] != '/'
  {
    CutFrom(path, |path|)
  }

  function CutFrom(path: string, n: nat): (i: nat)
    requires n <= |path|
    requires forall j | n < j < |path| :: path[j] != '/'
    ensures i <= n && (i == 0 || (i < |path| && path[i] == '/'))
    ensures forall j | i < j < |path| :: j > 0 ==> path[j] != '/'
  {
    if n == 0 then 0
    else if n < |path| && path[n] == '/' then n
    else CutFrom(path, n - 1)
  }

  /** The directory part mkdir looks up and the name it creates there. */
  function Parent(path: string): string {
    if Cut(path) > 0 then path[..Cut(path)] else if Absolute(path) then "/" else "."
  }

  function Name(path: string): string {
    if Cut(path) > 0 then path[Cut(path) + 1..] else if Absolute(path) then path[1..] else path
  }

  lemma NameIsPlain(path: string)
    ensures forall j | 0 <= j < |Name(path)| :: Name(path)[j] != '/'
  {}

  lemma WalkOne(fs: Fs, inode: nat, name: string)
    requires Tree(fs) && Exists(fs, inode)
    ensures Walk(fs, inode, [name]) == StepName(fs, inode, name)
  {
    StepExists(fs, inode, name);
  }

  /** The path resolves as its directory part followed by its last name. */
  lemma PathIsParentName(fs: Fs, root: nat, cwd: nat, path: string)
    requires Tree(fs) && Exists(fs, root) && Exists(fs, cwd)
    requires Lead(path) < |path|
    ensures var r := FindPath(fs, root, cwd, Parent(path));
            FindPath(fs, root, cwd, path) == if r.Err? then r else StepName(fs, r.inode, Name(path))
  {
    CompsOfPath(path);
    var start := if Absolute(path) then root else cwd;
    var a, name := Comps(Parent(path)), Name(path);
    WalkConcat(fs, start, a, [name]);
    if a == ["."] && Comps(path) == [name] {
      WalkOne(fs, start, ".");
      WalkConcat(fs, start, [], [name]);
    }
    var r := Walk(fs, start, a);
    if r.Ok? { WalkOne(fs, r.inode, name); }
  }

  /** Components of a path are those of its directory part and its name; a bare name stands behind an implicit ".". */
  lemma CompsOfPath(path: string)
    requires Lead(path) < |path|
    ensures Absolute(Parent(path)) == Absolute(path)
    ensures || Comps(path) == Comps(Parent(path)) + [Name(path)]
            || (Comps(path) == [Name(path)] && Comps(Parent(path)) == ["."])
  {
    NameIsPlain(path);
    SplitPlain(Name(path));
    if Cut(path) == 0 {
      if Absolute(path) {
        LeadIs(path, 1);
        LeadIs("/", 1);
      } else {
        SplitPlain(".");
      }
    } else if Absolute(path) {
      CompsAbsolute(path);
    } else {
      var i := Cut(path);
      CutAt(path, 0, i);
      assert path[0..] == path && path[0..i] == path[..i];
      SplitJoin(path[..i], path[i + 1..]);
    }
  }

  lemma CompsAbsolute(path: string)
    requires Absolute(path) && Lead(path) < |path| && Cut(path) > 0
    ensures Comps(path) == Comps(Parent(path)) + [Name(path)]
  {
    var i := Cut(path);
    assert Parent(path) == path[..i] && Name(path) == path[i + 1..];
    CompsCut(path, i);
  }

  lemma CompsCut(path: string, i: nat)
    requires Absolute(path) && Lead(path) < |path| && 0 < i < |path| && path[i] == '/'
    requires forall j | i < j < |path| :: path[j] != '/'
    ensures Comps(path) == Comps(path[..i]) + [path[i + 1..]]
  {
    var k := Lead(path);
    assert path[k - 1] == '/' && path[k] != '/';
    if i < k {
      CompsLeading(path, i);
    } else {
      CompsInner(path, i, k);
    }
  }

  /** All slashes are leading: the directory part is the root. */
  lemma CompsLeading(path: string, i: nat)
    requires Absolute(path) && 0 < i && i + 1 == Lead(path) < |path|
    requires forall j | i < j < |path| :: path[j] != '/'
    ensures Comps(path) == Comps(path[..i]) + [path[i + 1..]]
  {
    LeadIs(path[..i], i);
    SplitPlain(path[i + 1..]);
  }

  lemma CompsInner(path: string, i: nat, k: nat)
    requires Absolute(path) && k == Lead(path) && k < i < |path| && path[i] == '/'
    requires forall j | i < j < |path| :: path[j] != '/'
    ensures Comps(path) == Comps(path[..i]) + [path[i + 1..]]
  {
    LeadIs(path[..i], k);
    CutAt(path, k, i);
    assert path[..i][k..] == path[k..i];
    SplitJoin(path[k..i], path[i + 1..]);
    SplitPlain(path[i + 1..]);
  }

  // ---- What the parts mean ----

  /**
   One component: "." stays, ".." and non-directories are refused, a directory's first entry of the
   name is followed.
   */
  lemma StepNameCases(fs: Fs, inode: nat, name: string)
    requires Exists(fs, inode)
    ensures var h, r := Get(fs, inode), StepName(fs, inode, name);
            && (name == "." ==> r == Ok(inode))
            && (name == ".." ==> r == Err(ENOTDIR))
            && (name != "." && h.kind != FS_DIR ==> r == Err(ENOTDIR))
            && (name != "." && name != ".." && h.kind == FS_DIR ==>
                  && (r == Err(ENOENT) <==> forall k | 0 <= k < |h.entries| :: h.entries[k].name != name)
                  && (forall k | 0 <= k < |h.entries| && h.entries[k].name == name
                                 && (forall j | 0 <= j < k :: h.entries[j].name != name) ::
                        r == Ok(h.entries[k].inode)))
  {}

  /** A path without slashes is one component from its start. */
  lemma PlainPath(fs: Fs, start: nat, name: string)
    requires Tree(fs) && Exists(fs, start) && forall j | 0 <= j < |name| :: name[j] != '/'
    ensures FindNode(fs, start, name) == StepName(fs, start, name)
  {
    SplitPlain(name);
    WalkOne(fs, start, name);
  }

  /** A path with leading slashes is walked from the root without them; any other from the working directory. */
  lemma WhereItStarts(fs: Fs, root: nat, cwd: nat, path: string)
    requires Tree(fs) && Exists(fs, root) && Exists(fs, cwd) && !Absolute(path)
    ensures path != [] ==> FindPath(fs, root, cwd, path) == FindNode(fs, cwd, path)
    ensures path != [] ==> FindPath(fs, root, cwd, "/" + path) == FindNode(fs, root, path)
    ensures path == [] ==> FindPath(fs, root, cwd, path) == Ok(cwd)
  {
    if path == [] {
      WalkOne(fs, cwd, ".");
    } else {
      LeadIs("/" + path, 1);
      assert ("/" + path)[1..] == path;
    }
  }

  /** The root itself, and further leading slashes, which change nothing. */
  lemma LeadingSlashes(fs: Fs, root: nat, cwd: nat, path: string)
    requires Tree(fs) && Exists(fs, root) && Exists(fs, cwd)
    ensures FindPath(fs, root, cwd, "/") == Ok(root)
    ensures Absolute(path) ==> FindPath(fs, root, cwd, "/" + path) == FindPath(fs, root, cwd, path)
  {
    LeadIs("/", 1);
    if Absolute(path) {
      var n := Lead(path);
      assert forall j | 0 <= j < n + 1 :: j > 0 ==> ("/" + path)[j] == path[j - 1];
      LeadIs("/" + path, n + 1);
      assert ("/" + path)[n + 1..] == path[n..];
    }
  }

  /**
   mkdir's directory part and name of every kind of path: behind the last slash, behind a single
   leading one, or alone.
   */
  lemma ParentAndName(dir: string, name: string)
    requires forall j | 0 <= j < |name| :: name[j] != '/'
    ensures dir != [] ==> Parent(dir + "/" + name) == dir && Name(dir + "/" + name) == name
    ensures Parent("/" + name) == "/" && Name("/" + name) == name
    ensures Parent(name) == "." && Name(name) == name
  {
    if dir != [] { CutIs(dir + "/" + name, |dir|); }
    CutIs("/" + name, 0);
    CutIs(name, 0);
  }

  lemma CutIs(path: string, i: nat)
    requires i == 0 || (i < |path| && path[i] == '/')
    requires forall j | i < j < |path| :: path[j] != '/'
    ensures Cut(path) == i
  {}
}
