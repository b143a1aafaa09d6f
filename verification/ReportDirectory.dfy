/** Naming the files of a capture, and creating its directory with all its parents. */
module ReportDirectory {
  import opened Wrappers
  import opened CText
  import opened Files

  const PATH_LEN: nat := 1024
  const DEFAULT_PREFIX := "inspect-capture"

  // ----- The walk over the path -----

  /** A component of the path ends just before `i`. */
  predicate Boundary(path: string, i: nat) {
    0 < i <= |path| && (i == |path| || path[i] == '/') && path[i - 1] != '/'
  }

  /** The prefixes that end a component, among the first `n` positions, shortest first. */
  function Prefixes(path: string, n: nat): (r: seq<string>)
    requires n <= |path| + 1
    ensures forall p :: p in r ==> |p| < n && p <= path
  {
    if n == 0 then []
    else if Boundary(path, n - 1) then Prefixes(path, n - 1) + [path[..n - 1]]
    else Prefixes(path, n - 1)
  }

  /** Every directory the path names: itself and its parents. */
  function Directories(path: string): (r: seq<string>) {
    Prefixes(path, |path| + 1)
  }

  /** The path without its trailing slashes. */
  function Trimmed(path: string): (t: string)
    ensures t <= path && (t != "" ==> t[|t| - 1] != '/')
    ensures forall i :: |t| <= i < |path| ==> path[i] == '/'
  {
    if path == "" || path[|path| - 1] != '/' then path else Trimmed(path[..|path| - 1])
  }

  /** Where the last component of a path is looked up; empty for the root and the working directory. */
  function Parent(path: string): (text: string) {
    var slash := LastIndexOf(path, '/');
    if slash == |path| then "" else Trimmed(path[..slash])
  }

  datatype Kind = Absent | Folder | Other

  datatype MkdirResult = Created | Exists | Refused

  predicate ParentThere(kind: string -> Kind, path: string) {
    Parent(path) == "" || kind(Parent(path)) == Folder
  }

  /** Nothing that was there has gone or changed, and what is new is a directory. */
  ghost predicate Grown(before: string -> Kind, after: string -> Kind) {
    forall p :: if before(p) == Absent then after(p) != Other else after(p) == before(p)
  }

  /** The file system, as far as creating directories shows it: what every path names, which paths `mkdir` refuses for
      a reason of its own (permissions, space, length), and what was asked for. */
  class FileTree {
    var kind: string -> Kind
    const refuses: string -> bool
    var attempts: seq<string>

    constructor (kind: string -> Kind, refuses: string -> bool)
      ensures this.kind == kind && this.refuses == refuses && attempts == []
    {
      this.kind, this.refuses, attempts := kind, refuses, [];
    }

    /** `mkdir` fails on a path refused for its own sake or without a directory to put it in; otherwise anything that is
        already there, directory or not, is `EEXIST`. */
    method MakeDirectory(path: string) returns (result: MkdirResult)
      modifies this
      ensures attempts == old(attempts) + [path] && Grown(old(kind), kind)
      ensures result == Refused <==> refuses(path) || !ParentThere(old(kind), path)
      ensures result == Created <==> result != Refused && old(kind(path)) == Absent
      ensures result == Created ==> kind(path) == Folder
      ensures result != Created ==> kind == old(kind)
      ensures result != Refused ==> ParentThere(kind, path)
    {
      attempts := attempts + [path];
      if refuses(path) || !ParentThere(kind, path) {
        result := Refused;
      } else if kind(path) != Absent {
        result := Exists;
      } else {
        kind := Updated(kind, path);
        result := Created;
      }
    }
  }

  function Updated(kind: string -> Kind, path: string): (after: string -> Kind)
    ensures after(path) == Folder && forall p :: p != path ==> after(p) == kind(p)
  {
    p => if p == path then Folder else kind(p)
  }

  /** `create_directory_component`: anything but a new directory or `EEXIST` is an error. Without one the path names a
      directory exactly when it did not name something else before. */
  method CreateComponent(tree: FileTree, err: ErrorState, path: string)
    requires !err.raised
    modifies tree, err
    ensures tree.attempts == old(tree.attempts) + [path] && Grown(old(tree.kind), tree.kind)
    ensures err.raised <==> tree.refuses(path) || !ParentThere(old(tree.kind), path)
    ensures err.raised ==> tree.kind == old(tree.kind)
    ensures !err.raised ==> tree.kind(path) != Absent && ParentThere(tree.kind, path)
    ensures !err.raised ==> (tree.kind(path) == Folder <==> old(tree.kind(path)) != Other)
  {
    var result := tree.MakeDirectory(path);
    if result == Refused { err.raised := true; }
  }

  lemma CutPrefix(path: string, i: nat)
    requires i <= |path| && '\0' !in path
    ensures CStr((path + ['\0'])[i := '\0']) == path[..i]
  {
    var buffer := path + ['\0'];
    var cut := buffer[i := '\0'];
    assert cut == path[..i] + ['\0'] + buffer[i + 1..];
    IndexOfSplit(path[..i], '\0', buffer[i + 1..]);
    assert cut[..i] == path[..i];
  }

  /** Terminate the buffer at a boundary, create what it then names, and restore the byte. */
  method CreateUpTo(tree: FileTree, err: ErrorState, buffer: array<char>, index: nat, ghost path: string)
    requires !err.raised && '\0' !in path && buffer[..] == path + ['\0'] && index <= |path|
    modifies tree, err, buffer
    ensures buffer[..] == old(buffer[..])
    ensures tree.attempts == old(tree.attempts) + [path[..index]] && Grown(old(tree.kind), tree.kind)
    ensures err.raised <==> tree.refuses(path[..index]) || !ParentThere(old(tree.kind), path[..index])
    ensures err.raised ==> tree.kind == old(tree.kind)
    ensures !err.raised ==> tree.kind(path[..index]) != Absent && ParentThere(tree.kind, path[..index])
    ensures !err.raised ==> (tree.kind(path[..index]) == Folder <==> old(tree.kind(path[..index])) != Other)
  {
    hide CStr;
    var separator := buffer[index];
    buffer[index] := '\0';
    CutPrefix(path, index);
    assert buffer[..] == (path + ['\0'])[index := '\0'];
    hide ParentThere;
    CreateComponent(tree, err, CStr(buffer[..]));
    buffer[index] := separator;
    assert buffer[..] == path + ['\0'];
  }

  /** Everything attempted so far is there, under a parent that is a directory. */
  ghost predicate AllThere(kind: string -> Kind, paths: seq<string>) {
    forall i :: 0 <= i < |paths| ==> kind(paths[i]) != Absent && ParentThere(kind, paths[i])
  }

  /** Each path names a directory now exactly when it did not name something else before. */
  ghost predicate FoldersNow(before: string -> Kind, after: string -> Kind, paths: seq<string>) {
    forall i :: 0 <= i < |paths| ==> (after(paths[i]) == Folder <==> before(paths[i]) != Other)
  }

  /** What success leaves: everything the path names is there, and each of it is a directory unless something else was
      there before, which only the last component can be. */
  ghost predicate Made(before: string -> Kind, after: string -> Kind, path: string) {
    && (forall i :: 0 <= i < |Directories(path)| ==> after(Directories(path)[i]) != Absent)
    && FoldersNow(before, after, Directories(path))
    && (forall i :: 0 <= i < |Directories(path)| - 1 ==> after(Directories(path)[i]) == Folder)
  }

  /** What success takes: `mkdir` refuses none of the directories, and no parent is something else already. */
  ghost predicate Creatable(kind: string -> Kind, refuses: string -> bool, path: string) {
    && (forall i :: 0 <= i < |Directories(path)| ==> !refuses(Directories(path)[i]))
    && (forall i :: 0 <= i < |Directories(path)| - 1 ==> kind(Directories(path)[i]) != Other)
  }

  /** How far the walk has come without a refusal. */
  ghost predicate Walked(start: string -> Kind, now: string -> Kind, refuses: string -> bool, done: seq<string>) {
    && Grown(start, now) && AllThere(now, done) && FoldersNow(start, now, done)
    && forall i :: 0 <= i < |done| ==> !refuses(done[i])
  }

  lemma WalkedOn(start: string -> Kind, before: string -> Kind, after: string -> Kind, refuses: string -> bool,
                 done: seq<string>, next: string)
    requires Walked(start, before, refuses, done) && Grown(before, after) && !refuses(next)
    requires after(next) != Absent && ParentThere(after, next)
    requires after(next) == Folder <==> before(next) != Other
    ensures Walked(start, after, refuses, done + [next])
  {
    hide Parent;
    forall i | 0 <= i < |done| ensures after(done[i]) == Folder <==> start(done[i]) != Other {
      assert Grown(before, after) && start(done[i]) == Other ==> before(done[i]) == Other;
    }
  }

  /** The loop of `p101_observe_create_report_dir`; `made` counts the attempts. */
  method WalkPath(tree: FileTree, err: ErrorState, buffer: array<char>, ghost path: string) returns (ghost made: nat)
    requires !err.raised && '\0' !in path && buffer[..] == path + ['\0']
    modifies tree, err, buffer
    ensures buffer[..] == old(buffer[..])
    ensures made <= |Directories(path)| && tree.attempts == old(tree.attempts) + Directories(path)[..made]
    ensures Grown(old(tree.kind), tree.kind)
    ensures !err.raised <==> Creatable(old(tree.kind), tree.refuses, path)
    ensures !err.raised ==> made == |Directories(path)| && Made(old(tree.kind), tree.kind, path)
    ensures err.raised ==> made > 0 && FoldersNow(old(tree.kind), tree.kind, Directories(path)[..made - 1])
  {
    hide Parent;
    hide ParentThere;
    hide Walked;
    hide AllThere;
    hide FoldersNow;
    hide Creatable;
    hide Made;
    hide Grown;
    hide Prefixes;
    hide Directories;
    hide Boundary;
    FirstAndLast(path);
    var index := 0;
    assert buffer.Length == |path| + 1;
    ghost var done: seq<string> := [];
    ghost var start := tree.kind;
    NothingYet(start, tree.refuses);
    while index < buffer.Length
      invariant index <= buffer.Length && buffer[..] == path + ['\0']
      invariant !err.raised && done == Prefixes(path, index)
      invariant tree.attempts == old(tree.attempts) + done
      invariant Walked(start, tree.kind, tree.refuses, done)
    {
      BufferIsPath(buffer, path, index);
      if (buffer[index] == '/' || buffer[index] == '\0') && index > 0 && buffer[index - 1] != '/' {
        ghost var before := tree.kind;
        CreateUpTo(tree, err, buffer, index, path);
        OneMoreAttempt(path, index, done);
        if err.raised {
          made := |done| + 1;
          WalkStops(start, before, tree.refuses, path, index);
          return;
        }
        WalkedOn(start, before, tree.kind, tree.refuses, done, path[..index]);
        done := done + [path[..index]];
      } else {
        NoAttempt(path, index);
      }
      index := index + 1;
    }
    made := |done|;
    assert Directories(path)[..made] == done;
    AllMade(start, tree.kind, tree.refuses, path);
  }

  lemma NothingYet(kind: string -> Kind, refuses: string -> bool)
    ensures Walked(kind, kind, refuses, [])
  {
  }

  lemma FirstAndLast(path: string)
    ensures Prefixes(path, 0) == [] && Prefixes(path, |path| + 1) == Directories(path)
  {
  }

  lemma NoAttempt(path: string, n: nat)
    requires n <= |path| && !Boundary(path, n)
    ensures Prefixes(path, n + 1) == Prefixes(path, n)
  {
  }

  lemma OneMoreAttempt(path: string, n: nat, done: seq<string>)
    requires n <= |path| && Boundary(path, n) && done == Prefixes(path, n)
    ensures |done| < |Directories(path)| && Directories(path)[|done|] == path[..n]
    ensures Directories(path)[..|done| + 1] == done + [path[..n]] && Directories(path)[..|done|] == done
    ensures Prefixes(path, n + 1) == done + [path[..n]]
  {
    PrefixesGrow(path, n + 1);
    assert Prefixes(path, n + 1) == done + [path[..n]];
    hide Prefixes;
  }

  /** The walk stops at a directory `mkdir` refuses, or below something that is no directory. */
  lemma WalkStops(start: string -> Kind, now: string -> Kind, refuses: string -> bool, path: string, n: nat)
    requires n <= |path| && Boundary(path, n) && Walked(start, now, refuses, Prefixes(path, n))
    requires refuses(path[..n]) || !ParentThere(now, path[..n])
    ensures !Creatable(start, refuses, path) && Grown(start, now)
    ensures FoldersNow(start, now, Prefixes(path, n))
  {
    hide Walked;
    hide Grown;
    hide AllThere;
    hide Prefixes;
    hide Parent;
    hide Boundary;
    hide Directories;
    hide Creatable;
    hide FoldersNow;
    var done := Prefixes(path, n);
    WalkedMeans(start, now, refuses, done);
    OneMoreAttempt(path, n, done);
    ParentJustBefore(path, n);
    if refuses(path[..n]) {
      RefusedAt(start, refuses, path, |done|);
    } else {
      assert Directories(path)[|done| - 1] == done[|done| - 1];
      NoFolderAt(start, now, refuses, path, done);
    }
  }

  lemma RefusedAt(kind: string -> Kind, refuses: string -> bool, path: string, k: nat)
    requires k < |Directories(path)| && refuses(Directories(path)[k])
    ensures !Creatable(kind, refuses, path)
  {
    hide Directories;
  }

  lemma NoFolderAt(start: string -> Kind, now: string -> Kind, refuses: string -> bool, path: string, done: seq<string>)
    requires 0 < |done| < |Directories(path)| && Directories(path)[|done| - 1] == done[|done| - 1]
    requires FoldersNow(start, now, done) && now(done[|done| - 1]) != Folder
    ensures !Creatable(start, refuses, path)
  {
    hide Directories;
    assert start(done[|done| - 1]) == Other;
  }

  lemma WalkedMeans(start: string -> Kind, now: string -> Kind, refuses: string -> bool, done: seq<string>)
    requires Walked(start, now, refuses, done)
    ensures Grown(start, now) && AllThere(now, done) && FoldersNow(start, now, done)
  {
  }

  lemma NoneRefused(start: string -> Kind, now: string -> Kind, refuses: string -> bool, done: seq<string>)
    requires Walked(start, now, refuses, done)
    ensures forall i :: 0 <= i < |done| ==> !refuses(done[i])
  {
  }

  lemma BufferIsPath(buffer: array<char>, path: string, i: nat)
    requires buffer[..] == path + ['\0'] && '\0' !in path && i < buffer.Length
    ensures i <= |path|
    ensures Boundary(path, i) <==> (buffer[i] == '/' || buffer[i] == '\0') && i > 0 && buffer[i - 1] != '/'
  {
    assert buffer[i] == (path + ['\0'])[i];
    assert i > 0 ==> buffer[i - 1] == (path + ['\0'])[i - 1];
  }

  lemma {:induction false} PrefixesGrow(path: string, n: nat)
    requires n <= |path| + 1
    ensures Prefixes(path, n) <= Directories(path)
    decreases |path| + 1 - n
  {
    if n <= |path| { PrefixesGrow(path, n + 1); }
  }

  /** `p101_observe_create_report_dir` */
  method CreateReportDirectory(tree: FileTree, err: ErrorState, path: string) returns (ghost made: nat)
    requires !err.raised && '\0' !in path
    modifies tree, err
    ensures made <= |Directories(path)| && tree.attempts == old(tree.attempts) + Directories(path)[..made]
    ensures Grown(old(tree.kind), tree.kind)
    ensures |path| >= PATH_LEN ==> err.raised && made == 0
    ensures !err.raised <==> |path| < PATH_LEN && Creatable(old(tree.kind), tree.refuses, path)
    ensures !err.raised ==> made == |Directories(path)| && Made(old(tree.kind), tree.kind, path)
    ensures err.raised && |path| < PATH_LEN ==>
      made > 0 && FoldersNow(old(tree.kind), tree.kind, Directories(path)[..made - 1])
  {
    hide Directories;
    if |path| >= PATH_LEN {
      err.raised := true;
      made := 0;
      assert Directories(path)[..0] == [];
      return;
    }
    var buffer := new char[|path| + 1](i requires 0 <= i <= |path| => if i < |path| then path[i] else '\0');
    assert buffer[..] == path + ['\0'];
    made := WalkPath(tree, err, buffer, path);
  }

  /** The report directory is a directory: the path names one, or the root. */
  ghost predicate IsFolder(kind: string -> Kind, path: string) {
    Trimmed(path) == "" || kind(Trimmed(path)) == Folder
  }

  /** The path and all its parents name directories. */
  ghost predicate AllFolders(kind: string -> Kind, path: string) {
    forall p :: p in Directories(path) ==> kind(p) == Folder
  }

  /** Nothing but a directory stands where the report directory is to be. */
  ghost predicate MayBeFolder(kind: string -> Kind, path: string) {
    Trimmed(path) == "" || kind(Trimmed(path)) != Other
  }

  /** After success the path names a directory exactly when nothing else stood there before the call. */
  lemma FolderIffMayBe(before: string -> Kind, after: string -> Kind, path: string)
    requires Made(before, after, path)
    ensures IsFolder(after, path) <==> MayBeFolder(before, path)
  {
    if Trimmed(path) != "" { TrimmedIsAttempted(path); }
    hide Directories;
    hide Trimmed;
  }

  /** And then so are all its parents. */
  lemma SoAreParents(before: string -> Kind, after: string -> Kind, path: string)
    requires Made(before, after, path) && MayBeFolder(before, path)
    ensures AllFolders(after, path)
  {
    var paths := Directories(path);
    if paths != [] {
      LastIsTrimmed(path);
      FolderIffMayBe(before, after, path);
    }
    hide Directories;
    hide Trimmed;
  }

  /** A file where the directory is to be: the call succeeds, and the file is still there. */
  method FileInTheWay() returns (tree: FileTree, err: ErrorState)
    ensures fresh(tree) && fresh(err) && !err.raised
    ensures !IsFolder(tree.kind, "r") && tree.kind("r") == Other
  {
    ghost var path := "r";
    tree := new FileTree(p => if p == "r" then Other else Absent, _ => false);
    err := new ErrorState();
    assert Trimmed(path) == path;
    DirectoriesOfName();
    hide Directories;
    hide Trimmed;
    ghost var start := tree.kind;
    ghost var made := CreateReportDirectory(tree, err, "r");
    FolderIffMayBe(start, tree.kind, path);
  }

  lemma DirectoriesOfName()
    ensures Directories("r") == ["r"]
  {
    var path := "r";
    assert Prefixes(path, 0) == [] && Prefixes(path, 1) == [];
    assert Boundary(path, 1) && path[..1] == path;
    assert Prefixes(path, 2) == Prefixes(path, 1) + [path[..1]];
  }

  // ----- What the prefixes are -----

  /** A prefix is attempted exactly when a component ends there. */
  lemma {:induction false} PrefixesAreBoundaries(path: string, n: nat, i: nat)
    requires n <= |path| + 1 && i <= |path|
    ensures path[..i] in Prefixes(path, n) <==> i < n && Boundary(path, i)
  {
    if n > 0 {
      PrefixesAreBoundaries(path, n - 1, i);
      if Boundary(path, n - 1) && i != n - 1 {
        assert |path[..i]| != |path[..n - 1]|;
      }
    }
  }

  /** Each prefix comes after every shorter one, so a directory is attempted after all its parents. */
  lemma {:induction false} ParentsFirst(path: string, n: nat)
    requires n <= |path| + 1
    ensures forall i, j :: 0 <= i < j < |Prefixes(path, n)| ==> |Prefixes(path, n)[i]| < |Prefixes(path, n)[j]|
  {
    if n > 0 {
      ParentsFirst(path, n - 1);
      var shorter := Prefixes(path, n - 1);
      assert forall i :: 0 <= i < |shorter| ==> shorter[i] in shorter;
    }
  }

  /** The parent of each prefix is the prefix attempted just before it. */
  lemma ParentJustBefore(path: string, n: nat)
    requires n <= |path| && Boundary(path, n)
    ensures var before := Prefixes(path, n);
      Parent(path[..n]) == if before == [] then "" else before[|before| - 1]
  {
    var before, parent := Prefixes(path, n), Parent(path[..n]);
    hide Parent;
    hide Prefixes;
    if parent != "" {
      ParentIsBoundary(path, n);
      PrefixesAreBoundaries(path, n, |parent|);
    }
    hide Boundary;
    if before != [] {
      LastIsParent(path, n);
    }
  }

  lemma LastIsParent(path: string, n: nat)
    requires n <= |path| && Boundary(path, n) && Prefixes(path, n) != []
    ensures Parent(path[..n]) == Prefixes(path, n)[|Prefixes(path, n)| - 1]
  {
    var before, parent := Prefixes(path, n), Parent(path[..n]);
    hide Parent;
    hide Prefixes;
    var last := before[|before| - 1];
    assert last in before && last == path[..|last|];
    PrefixesAreBoundaries(path, n, |last|);
    assert 0 < |last| by { assert Boundary(path, |last|); }
    BoundaryBelowParent(path, n, |last|);
    ParentIsBoundary(path, n);
    PrefixesAreBoundaries(path, n, |parent|);
    hide Boundary;
    ParentsFirst(path, n);
  }

  /** A parent ends a component. */
  lemma ParentIsBoundary(path: string, n: nat)
    requires n <= |path| && Boundary(path, n) && Parent(path[..n]) != ""
    ensures var parent := Parent(path[..n]); |parent| < n && parent == path[..|parent|] && Boundary(path, |parent|)
  {
    var parent, slash := Parent(path[..n]), LastIndexOf(path[..n], '/');
    assert path[..n][..slash] == path[..slash];
    assert parent == Trimmed(path[..slash]);
    assert |parent| < slash ==> path[..slash][|parent|] == '/';
  }

  /** No component ends between a parent and its child, and none at all where there is no parent. */
  lemma BoundaryBelowParent(path: string, n: nat, i: nat)
    requires i < n <= |path| && Boundary(path, i)
    ensures i <= |Parent(path[..n])|
  {
    var slash := LastIndexOf(path[..n], '/');
    assert path[..n][..slash] == path[..slash];
    assert path[..n][i] == '/';
    assert i <= slash < n;
    assert path[..slash][i - 1] == path[i - 1];
  }

  lemma AllMade(start: string -> Kind, kind: string -> Kind, refuses: string -> bool, path: string)
    requires Walked(start, kind, refuses, Directories(path))
    ensures Made(start, kind, path) && Creatable(start, refuses, path) && Grown(start, kind)
  {
    WalkedMeans(start, kind, refuses, Directories(path));
    NoneRefused(start, kind, refuses, Directories(path));
    hide Walked;
    hide Grown;
    var paths := Directories(path);
    forall i | 0 <= i < |paths| - 1 ensures kind(paths[i]) == Folder && start(paths[i]) != Other {
      NextParent(path, |path| + 1, i);
      assert kind(paths[i + 1]) != Absent && ParentThere(kind, paths[i + 1]);
      assert paths[i] in paths;
      NonEmptyPrefix(path, |path| + 1, i);
    }
  }

  lemma {:induction false} NonEmptyPrefix(path: string, n: nat, i: nat)
    requires n <= |path| + 1 && i < |Prefixes(path, n)|
    ensures Prefixes(path, n)[i] != ""
  {
    if i < |Prefixes(path, n - 1)| { NonEmptyPrefix(path, n - 1, i); }
  }

  lemma {:induction false} NextParent(path: string, n: nat, i: nat)
    requires n <= |path| + 1 && i + 1 < |Prefixes(path, n)|
    ensures Parent(Prefixes(path, n)[i + 1]) == Prefixes(path, n)[i]
  {
    hide Parent;
    if i + 1 < |Prefixes(path, n - 1)| {
      NextParent(path, n - 1, i);
    } else {
      ParentJustBefore(path, n - 1);
    }
  }

  lemma TrimmedIsAttempted(path: string)
    requires Trimmed(path) != ""
    ensures Trimmed(path) in Directories(path)
  {
    var t := Trimmed(path);
    assert path[..|t|] == t;
    assert Boundary(path, |t|);
    hide Trimmed;
    hide Prefixes;
    hide Boundary;
    PrefixesAreBoundaries(path, |path| + 1, |t|);
  }

  lemma LastIsTrimmed(path: string)
    requires Directories(path) != []
    ensures Trimmed(path) != "" && Directories(path)[|Directories(path)| - 1] == Trimmed(path)
  {
    var paths, t := Directories(path), Trimmed(path);
    var last := paths[|paths| - 1];
    assert last in paths && last == path[..|last|];
    PrefixesAreBoundaries(path, |path| + 1, |last|);
    assert Boundary(path, |last|);
    assert |last| <= |t|;
    TrimmedIsAttempted(path);
    ParentsFirst(path, |path| + 1);
  }

  /** Success means the directory itself is there, and every parent, whatever slashes the path repeats, starts or
      ends with. */
  lemma ReportDirectoryNamed(path: string)
    ensures Trimmed(path) != "" ==> Trimmed(path) in Directories(path)
    ensures forall i :: 0 < i < |path| && path[i] == '/' && path[i - 1] != '/' ==> path[..i] in Directories(path)
  {
    hide Prefixes;
    hide Trimmed;
    if Trimmed(path) != "" { TrimmedIsAttempted(path); }
    forall i | 0 < i < |path| && path[i] == '/' && path[i - 1] != '/' ensures path[..i] in Directories(path) {
      PrefixesAreBoundaries(path, |path| + 1, i);
    }
  }

  // ----- The paths of a capture -----

  /** `struct report_paths`, without the run identifier. */
  datatype ReportPaths = ReportPaths(
    dir: string, command: string, stdoutText: string, stderrText: string, resourceLog: string, callLog: string,
    summary: string, manifest: string, receipt: string, toolReceipt: string)

  /** `p101_observe_join_path`: the text cut to its buffer, and an error if it had to be cut. */
  method JoinPath(err: ErrorState, dir: string, name: string) returns (destination: string)
    modifies err
    ensures err.raised <==> old(err.raised) || |dir| + 1 + |name| >= PATH_LEN
    ensures destination == (dir + "/" + name)[..Min(PATH_LEN - 1, |dir| + 1 + |name|)]
    ensures |dir| + 1 + |name| < PATH_LEN ==> destination == dir + "/" + name
  {
    var joined := dir + "/" + name;
    destination := joined[..Min(PATH_LEN - 1, |joined|)];
    if |joined| >= PATH_LEN { err.raised := true; }
  }

  /** The directory asked for, or the default for this process. */
  function ChosenDirectory(reportDir: Option<string>, pid: U64): (text: string) {
    match reportDir
    case Some(dir) => dir
    case None => DEFAULT_PREFIX + "-" + Numeral(pid, 10)
  }

  /** Without `-o` the directory is named after the process. */
  lemma DefaultDirectory(pid: U64)
    ensures ChosenDirectory(None, pid) == "inspect-capture" + ("-" + Numeral(pid, 10))
  {
    hide Numeral;
  }

  /** Each path is the directory, a slash and the name of its file. */
  ghost predicate PathsNamed(paths: ReportPaths) {
    && paths.command == paths.dir + "/" + "command.txt"
    && paths.stdoutText == paths.dir + "/" + "stdout.txt" && paths.stderrText == paths.dir + "/" + "stderr.txt"
    && paths.resourceLog == paths.dir + "/" + "resources.log" && paths.callLog == paths.dir + "/" + "calls.log"
    && paths.summary == paths.dir + "/" + "summary.txt" && paths.manifest == paths.dir + "/" + "manifest.txt"
    && paths.receipt == paths.dir + "/" + "receipt.txt" && paths.toolReceipt == paths.dir + "/" + "tool-receipt.json"
  }

  /** `p101_observe_make_report_paths`. The directory is silently cut to its buffer, yet the paths come out without an error
      exactly when nothing was cut and every name fits. */
  method MakeReportPaths(err: ErrorState, reportDir: Option<string>, pid: U64) returns (paths: ReportPaths)
    requires !err.raised
    modifies err
    ensures !err.raised <==> |ChosenDirectory(reportDir, pid)| <= 1005
    ensures !err.raised ==> paths.dir == ChosenDirectory(reportDir, pid) && PathsNamed(paths)
  {
    var dir: string;
    match reportDir {
      case Some(asked) => dir := asked[..Min(PATH_LEN - 1, |asked|)];
      case None => dir := DEFAULT_PREFIX + "-" + Numeral(pid, 10); PrintedWidths(pid);
    }
    hide Numeral;
    var command := JoinPath(err, dir, "command.txt");
    var stdoutText := JoinPath(err, dir, "stdout.txt");
    var stderrText := JoinPath(err, dir, "stderr.txt");
    var resourceLog := JoinPath(err, dir, "resources.log");
    var callLog := JoinPath(err, dir, "calls.log");
    var summary := JoinPath(err, dir, "summary.txt");
    var manifest := JoinPath(err, dir, "manifest.txt");
    var receipt := JoinPath(err, dir, "receipt.txt");
    var toolReceipt := JoinPath(err, dir, "tool-receipt.json");
    paths := ReportPaths(dir, command, stdoutText, stderrText, resourceLog, callLog, summary, manifest, receipt, toolReceipt);
    assert dir == ChosenDirectory(reportDir, pid) || |dir| == PATH_LEN - 1;
  }
}
