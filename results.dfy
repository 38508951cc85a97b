/**
 * Where a test's results live on the controller and how they are read back.
 * A ResultRepository names `<controller.result.dir>/<class>/<method>`;
 * collectors put each node's results in a sub-directory named after the
 * node, and the file collector reads every file found below it line by line.
 */
module Results {
  import opened Wrappers
  import opened Exceptions
  import Text
  import Config
  import opened FileSystem
  import Sets

  /** `s == null || s.trim().length() == 0`. */
  function NullOrBlank(s: Option<string>): (r: bool)
    ensures r <==> s.None? || Text.IsBlank(s.value)
  {
    if s.None? then true
    else
      Text.TrimEmptyIffBlank(s.value);
      |Text.Trim(s.value)| == 0
  }

  /** A repository keeps the names it was given, untrimmed. */
  datatype ResultRepository = ResultRepository(className: string, methodName: string)

  /** new ResultRepository(className, methodName): both names must be non-blank, the class name checked first. */
  function NewResultRepository(className: Option<string>, methodName: Option<string>): (r: Result<ResultRepository, Throwable>)
    ensures r.Success? <==> !NullOrBlank(className) && !NullOrBlank(methodName)
    ensures NullOrBlank(className) ==> r == Failure(Raise(IllegalArgument, "The class name is empty."))
    ensures !NullOrBlank(className) && NullOrBlank(methodName) ==>
      r == Failure(Raise(IllegalArgument, "The method name is empty."))
    ensures r.Success? ==> r.value.className == className.value && r.value.methodName == methodName.value
  {
    if NullOrBlank(className) then Failure(Raise(IllegalArgument, "The class name is empty."))
    else if NullOrBlank(methodName) then Failure(Raise(IllegalArgument, "The method name is empty."))
    else Success(ResultRepository(className.value, methodName.value))
  }

  /**
   * getPath: `<result dir>/<class>/<method>`, after validateResultBaseDir
   * has checked that the result directory is configured and exists.
   */
  function GetPath(repo: ResultRepository, settings: Config.DistributedConfig, tree: Tree): (r: Result<string, Throwable>)
    ensures settings.resultDir.None? ==> r == Failure(Raise(IllegalState, "controller.result.dir is not defined."))
    ensures settings.resultDir.Some? && settings.resultDir.value !in tree ==>
      r == Failure(Raise(IllegalState, settings.resultDir.value + " does not exist."))
    ensures r.Success? <==> settings.resultDir.Some? && settings.resultDir.value in tree
    ensures r.Success? ==> Below(settings.resultDir.value, r.value)
  {
    if settings.resultDir.None? then Failure(Raise(IllegalState, "controller.result.dir is not defined."))
    else if settings.resultDir.value !in tree then Failure(Raise(IllegalState, settings.resultDir.value + " does not exist."))
    else Success(settings.resultDir.value + Separator + repo.className + Separator + repo.methodName)
  }

  /** A slash-free name followed by a separator is recovered by cutting at the first separator. */
  lemma SplitAtSeparator(name: string, rest: string)
    requires '/' !in name
    ensures Text.IndexOf(name + Separator + rest, '/') == |name|
    ensures (name + Separator + rest)[..|name|] == name && (name + Separator + rest)[|name| + 1..] == rest
  {
    var s := name + Separator + rest;
    assert s[|name|] == '/';
    forall j | 0 <= j < |name| ensures s[j] != '/' {
      assert s[j] == name[j];
    }
  }

  /**
   * Two repositories whose class names hold no separator get the same path
   * only when both names agree: different test methods never share a
   * result directory.
   */
  lemma GetPathInjective(a: ResultRepository, b: ResultRepository, settings: Config.DistributedConfig, tree: Tree)
    requires '/' !in a.className && '/' !in b.className
    requires GetPath(a, settings, tree).Success? && GetPath(b, settings, tree).Success?
    requires GetPath(a, settings, tree).value == GetPath(b, settings, tree).value
    ensures a == b
  {
    var dir := settings.resultDir.value;
    var n := |dir| + 1;
    var pa := GetPath(a, settings, tree).value;
    var pb := GetPath(b, settings, tree).value;
    assert pa == (dir + Separator) + (a.className + Separator + a.methodName);
    assert pb == (dir + Separator) + (b.className + Separator + b.methodName);
    assert pa[n..] == a.className + Separator + a.methodName;
    assert pb[n..] == b.className + Separator + b.methodName;
    SplitAtSeparator(a.className, a.methodName);
    SplitAtSeparator(b.className, b.methodName);
  }

  /**
   * deleteDirectory(directory): nothing happens to a missing path; a
   * regular file has no listing, so iterating over it throws a
   * NullPointerException; a directory loses its regular files, its
   * sub-directories (recursively) and then itself.
   */
  method DeleteDirectory(disk: Disk, dir: string) returns (error: Option<Throwable>)
    requires WellFormed(disk.tree)
    modifies disk
    ensures WellFormed(disk.tree)
    ensures dir in old(disk.tree) && old(disk.tree)[dir].RegularFile? ==>
      error == Some(Throwable(NullPointer, None, None)) && disk.tree == old(disk.tree)
    ensures !(dir in old(disk.tree) && old(disk.tree)[dir].RegularFile?) ==>
      error.None? && disk.tree == Without(old(disk.tree), dir)
    decreases |Under(disk.tree, dir)|
  {
    if dir !in disk.tree {
      WithoutMissing(disk.tree, dir);
      return None;
    }
    if disk.tree[dir].RegularFile? {
      return Some(Throwable(NullPointer, None, None));
    }
    ghost var tree0 := disk.tree;
    var files := Children(disk.tree, dir);
    KeepAll(tree0, dir);
    while files != {}
      invariant files <= Children(tree0, dir)
      invariant WellFormed(disk.tree) && disk.tree == Keep(tree0, dir, files)
      decreases |files|
    {
      var f :| f in files;
      DeleteEntry(disk, dir, f, tree0, files);
      Sets.SubsetSmaller(files - {f}, files, f);
      files := files - {f};
    }
    KeepNone(tree0, dir);
    disk.Delete(dir);
    error := None;
  }

  /** The loop body of deleteDirectory for one listed entry `f`: recurse into a directory, delete a regular file. */
  method DeleteEntry(disk: Disk, dir: string, f: string, ghost tree0: Tree, ghost files: set<string>)
    requires f in files && files <= Children(tree0, dir)
    requires WellFormed(disk.tree) && disk.tree == Keep(tree0, dir, files)
    modifies disk
    ensures WellFormed(disk.tree) && disk.tree == Keep(tree0, dir, files - {f})
    decreases |Under(tree0, dir)|, 0
  {
    assert f in disk.tree by { StepUnique(dir, f, f); }
    KeepStep(tree0, dir, files, f);
    if disk.tree[f].Directory? {
      UnderShrinks(tree0, disk.tree, dir, f);
      var ignored := DeleteDirectory(disk, f);
    } else {
      NothingBelowLeaf(disk.tree, f);
      disk.Delete(f);
    }
  }

  /** clear: removes the repository's directory and everything below it. */
  method Clear(repo: ResultRepository, settings: Config.DistributedConfig, disk: Disk) returns (error: Option<Throwable>)
    requires WellFormed(disk.tree)
    modifies disk
    ensures WellFormed(disk.tree)
    ensures GetPath(repo, settings, old(disk.tree)).Failure? ==>
      error == Some(GetPath(repo, settings, old(disk.tree)).error) && disk.tree == old(disk.tree)
    ensures GetPath(repo, settings, old(disk.tree)).Success? ==>
      var path := GetPath(repo, settings, old(disk.tree)).value;
      if path in old(disk.tree) && old(disk.tree)[path].RegularFile? then
        error == Some(Throwable(NullPointer, None, None)) && disk.tree == old(disk.tree)
      else
        error.None? && disk.tree == Without(old(disk.tree), path)
  {
    var path := GetPath(repo, settings, disk.tree);
    if path.Failure? {
      return Some(path.error);
    }
    error := DeleteDirectory(disk, path.value);
  }

  /** After a successful clear, no collector of this repository finds anything, whichever node it names. */
  lemma ClearEmptiesResults(tree: Tree, path: string, identifier: string, p: string)
    requires p in Without(tree, path)
    ensures !Below(path + Separator + identifier, p)
  {
    if Below(path + Separator + identifier, p) {
      assert Below(path, path + Separator + identifier);
      BelowTransitive(path, path + Separator + identifier, p);
    }
  }

  /**
   * destPath(identifier) as the outcome and the new tree:
   * `<repository path>/<identifier>`, created with its missing parents
   * when it does not exist yet; `refused` is a mkdirs the file system
   * turns down.
   */
  function DestPathSpec(repo: ResultRepository, settings: Config.DistributedConfig, identifier: string, tree: Tree, refused: bool)
    : (r: (Result<string, Throwable>, Tree))
    ensures GetPath(repo, settings, tree).Failure? ==> r == (Failure(GetPath(repo, settings, tree).error), tree)
    ensures GetPath(repo, settings, tree).Success? ==>
      var path := GetPath(repo, settings, tree).value + Separator + identifier;
      (r.0.Success? <==> path in tree || (!refused && !Blocked(tree, path))) &&
      (r.0.Success? ==> r.0.value == path && path in r.1) &&
      (r.0.Failure? ==> r.0.error == Raise(IllegalState, "Failed to create the directory " + path + ".") && r.1 == tree) &&
      (path in tree ==> r.1 == tree) &&
      (path !in tree && r.0.Success? ==> r.1[path].Directory?)
    ensures tree.Keys <= r.1.Keys && forall p :: p in tree ==> r.1[p] == tree[p]
  {
    var base := GetPath(repo, settings, tree);
    if base.Failure? then (Failure(base.error), tree)
    else
      var path := base.value + Separator + identifier;
      if path in tree then (Success(path), tree)
      else
        var (created, tree') := MkdirsSpec(tree, path, refused);
        if !created then (Failure(Raise(IllegalState, "Failed to create the directory " + path + ".")), tree)
        else (Success(path), tree')
  }

  /** destPath keeps the disk well-formed. */
  lemma DestPathWellFormed(repo: ResultRepository, settings: Config.DistributedConfig, identifier: string, tree: Tree, refused: bool)
    requires WellFormed(tree)
    ensures WellFormed(DestPathSpec(repo, settings, identifier, tree, refused).1)
  {
    var base := GetPath(repo, settings, tree);
    if base.Success? && base.value + Separator + identifier !in tree {
      MkdirsWellFormed(tree, base.value + Separator + identifier, refused);
    }
  }

  /**
   * A second destPath for the same node finds the directory the first one
   * made, and changes nothing, whatever the file system would say to a
   * second mkdirs.
   */
  lemma DestPathIdempotent(repo: ResultRepository, settings: Config.DistributedConfig, identifier: string, tree: Tree, refused: bool, refusedAgain: bool)
    requires DestPathSpec(repo, settings, identifier, tree, refused).0.Success?
    ensures var (first, tree') := DestPathSpec(repo, settings, identifier, tree, refused);
      DestPathSpec(repo, settings, identifier, tree', refusedAgain) == (first, tree')
  {
    var tree' := DestPathSpec(repo, settings, identifier, tree, refused).1;
    assert settings.resultDir.value in tree';
    assert GetPath(repo, settings, tree') == GetPath(repo, settings, tree);
  }

  /** destPath(identifier). */
  method DestPath(repo: ResultRepository, settings: Config.DistributedConfig, identifier: string, disk: Disk, refused: bool)
    returns (r: Result<string, Throwable>)
    requires WellFormed(disk.tree)
    modifies disk
    ensures WellFormed(disk.tree)
    ensures (r, disk.tree) == DestPathSpec(repo, settings, identifier, old(disk.tree), refused)
  {
    DestPathWellFormed(repo, settings, identifier, disk.tree, refused);
    var base := GetPath(repo, settings, disk.tree);
    if base.Failure? {
      return Failure(base.error);
    }
    var path := base.value + Separator + identifier;
    if path !in disk.tree {
      var created := disk.Mkdirs(path, refused);
      if !created {
        return Failure(Raise(IllegalState, "Failed to create the directory " + path + "."));
      }
    }
    r := Success(path);
  }

  /** What a FileInputStream on `file` reads: the lines of a readable regular file, or nothing. */
  function Content(tree: Tree, file: string): Option<seq<string>> {
    if file in tree && tree[file].RegularFile? then tree[file].lines else None
  }

  /** The state of the iterator's BufferedReader: not opened yet, open on the lines still unread, or closed. */
  datatype Reader = Unopened | Reading(rest: seq<string>) | Closed

  /** hasNext on a file that cannot be opened: a RuntimeException around the FileNotFoundException. */
  const OpenFailed: Throwable := Throwable(Runtime, None, Some(Throwable(FileNotFound, None, None)))
  /** hasNext after the reader was closed: a RuntimeException around the reader's IOException. */
  const StreamClosed: Throwable := Throwable(Runtime, None, Some(Raise(IO, "Stream closed")))

  /** readLine on an open reader: the next line, or null and the reader is closed. */
  function ReadLine(rest: seq<string>, line: Option<string>): (Reader, Option<string>, Result<bool, Throwable>) {
    if rest == [] then (Closed, None, Success(false))
    else (Reading(rest[1..]), Some(rest[0]), Success(true))
  }

  /** One hasNext() call: the reader afterwards, `line` afterwards, and the outcome. */
  function HasNextStep(reader: Reader, line: Option<string>, content: Option<seq<string>>)
    : (Reader, Option<string>, Result<bool, Throwable>)
  {
    match reader
    case Unopened => if content.None? then (Unopened, line, Failure(OpenFailed)) else ReadLine(content.value, line)
    case Reading(rest) => ReadLine(rest, line)
    case Closed => (Closed, line, Failure(StreamClosed))
  }

  /** The state after `n` hasNext() calls, with the outcome of the last one. */
  function Polls(reader: Reader, line: Option<string>, content: Option<seq<string>>, n: nat)
    : (Reader, Option<string>, Result<bool, Throwable>)
    requires n > 0
  {
    if n == 1 then HasNextStep(reader, line, content)
    else
      var (reader', line', _) := Polls(reader, line, content, n - 1);
      HasNextStep(reader', line', content)
  }

  /**
   * On a readable file the k-th hasNext() is true and next() then returns
   * the k-th line: the iterator yields exactly the file's lines, in order.
   */
  lemma {:induction false} PollsYieldLines(lines: seq<string>, line: Option<string>, k: nat)
    requires 0 < k <= |lines|
    ensures Polls(Unopened, line, Some(lines), k) == (Reading(lines[k..]), Some(lines[k - 1]), Success(true))
  {
    if k > 1 {
      PollsYieldLines(lines, line, k - 1);
      assert lines[k - 1..][1..] == lines[k..];
    }
  }

  /**
   * After the last line, hasNext() is false once and next() returns null;
   * one more hasNext() meets the closed reader and fails.
   */
  lemma PollsAfterLastLine(lines: seq<string>, line: Option<string>)
    ensures Polls(Unopened, line, Some(lines), |lines| + 1) == (Closed, None, Success(false))
    ensures Polls(Unopened, line, Some(lines), |lines| + 2) == (Closed, None, Failure(StreamClosed))
  {
    if |lines| > 0 {
      PollsYieldLines(lines, line, |lines|);
    }
  }

  /** On a file that cannot be opened every hasNext() fails the same way and leaves the iterator as it was. */
  lemma {:induction false} PollsUnreadable(line: Option<string>, n: nat)
    requires n > 0
    ensures Polls(Unopened, line, None, n) == (Unopened, line, Failure(OpenFailed))
  {
    if n > 1 {
      PollsUnreadable(line, n - 1);
    }
  }

  /** getFileIterator(file): reads `file` lazily, one line per hasNext(). */
  class FileLineIterator {
    const disk: Disk
    const file: string
    var reader: Reader
    var line: Option<string>

    constructor (disk: Disk, file: string)
      ensures this.disk == disk && this.file == file && reader == Unopened && line.None?
    {
      this.disk := disk;
      this.file := file;
      reader := Unopened;
      line := None;
    }

    /** hasNext(): opens the file on first use, then reads one line; at the end the reader is closed. */
    method HasNext() returns (r: Result<bool, Throwable>)
      modifies this
      ensures (reader, line, r) == HasNextStep(old(reader), old(line), Content(disk.tree, file))
    {
      if reader.Unopened? {
        var content := Content(disk.tree, file);
        if content.None? {
          return Failure(OpenFailed);
        }
        reader := Reading(content.value);
      }
      if reader.Closed? {
        return Failure(StreamClosed);
      }
      var rest := reader.rest;
      if rest == [] {
        line := None;
        reader := Closed;
        return Success(false);
      }
      line := Some(rest[0]);
      reader := Reading(rest[1..]);
      r := Success(true);
    }

    /** next(): the line the latest hasNext() read, null after the end; it does not advance. */
    function Next(): Option<string>
      reads this
    {
      line
    }

    /** remove() is not supported. */
    method Remove() returns (r: Throwable)
      ensures r == Unsupported()
    {
      r := Unsupported();
    }
  }

  /** listFiles(filter) keeps what a FileFilter accepts; a null filter accepts everything. */
  predicate Accepts(filter: Option<string -> bool>, path: string) {
    filter.None? || filter.value(path)
  }

  /**
   * `p` is a regular file that getCollectedFiles(dir) reaches: it lies below
   * `dir`, and it and every directory on the way down pass the filter.
   */
  ghost predicate Reached(tree: Tree, dir: string, filter: Option<string -> bool>, p: string) {
    p in tree && tree[p].RegularFile? && Below(dir, p) && Accepts(filter, p) &&
    forall i :: |dir| < i < |p| && p[i] == '/' ==> Accepts(filter, p[..i])
  }

  /** The child of `dir` on the way down to a reached file is listed by listFiles(filter). */
  lemma ReachedStepListed(tree: Tree, dir: string, filter: Option<string -> bool>, p: string)
    requires WellFormed(tree) && Reached(tree, dir, filter, p)
    ensures Step(dir, p) in Children(tree, dir) && Accepts(filter, Step(dir, p))
  {
    StepPresent(tree, dir, p);
    var c := Step(dir, p);
    if c != p {
      assert p[|c|] == '/' && p[..|c|] == c;
    }
  }

  /** What the recursion into an accepted sub-directory `f` reaches is what lies below `f`. */
  lemma ReachedThroughDirectory(tree: Tree, dir: string, filter: Option<string -> bool>, f: string, p: string)
    requires ChildOf(dir, f) && f in tree && tree[f].Directory? && Accepts(filter, f)
    ensures Reached(tree, f, filter, p) <==> Reached(tree, dir, filter, p) && Step(dir, p) == f
  {
    if Reached(tree, f, filter, p) {
      BelowTransitive(dir, f, p);
      StepUnique(dir, f, p);
      forall i | |dir| < i < |p| && p[i] == '/'
        ensures Accepts(filter, p[..i])
      {
        assert p[..|f|] == f;
        if i == |f| {
          assert p[..i] == f;
        }
      }
    }
    if Reached(tree, dir, filter, p) && Step(dir, p) == f {
      assert p != f;
    }
  }

  /** An accepted regular file directly inside `dir` is the one file reached through it. */
  lemma ReachedThroughFile(tree: Tree, dir: string, filter: Option<string -> bool>, f: string, p: string)
    requires WellFormed(tree) && ChildOf(dir, f) && f in tree && tree[f].RegularFile? && Accepts(filter, f)
    ensures Reached(tree, dir, filter, p) && Step(dir, p) == f <==> p == f
  {
    StepUnique(dir, f, f);
    if p == f {
      assert Reached(tree, dir, filter, p);
    } else if Reached(tree, dir, filter, p) && Step(dir, p) == f {
      NothingBelowLeaf(tree, f);
    }
  }

  /** The files a list of iterators reads. */
  function Files(iterators: seq<FileLineIterator>): set<string> {
    set i | 0 <= i < |iterators| :: iterators[i].file
  }

  lemma FilesConcat(a: seq<FileLineIterator>, b: seq<FileLineIterator>)
    ensures Files(a + b) == Files(a) + Files(b)
  {
    forall x | x in Files(a + b) ensures x in Files(a) + Files(b) {
      var i :| 0 <= i < |a + b| && (a + b)[i].file == x;
      if i >= |a| {
        assert b[i - |a|].file == x;
      }
    }
    forall x | x in Files(a) ensures x in Files(a + b) {
      var i :| 0 <= i < |a| && a[i].file == x;
      assert (a + b)[i].file == x;
    }
    forall x | x in Files(b) ensures x in Files(a + b) {
      var i :| 0 <= i < |b| && b[i].file == x;
      assert (a + b)[|a| + i].file == x;
    }
  }

  /** No file is read by two iterators. */
  ghost predicate DistinctFiles(iterators: seq<FileLineIterator>) {
    forall i, j :: 0 <= i < j < |iterators| ==> iterators[i].file != iterators[j].file
  }

  /** The iterators read exactly the reached files that lie below the children in `done`. */
  ghost predicate CollectedBelow(tree: Tree, dir: string, filter: Option<string -> bool>,
                                 iterators: seq<FileLineIterator>, done: set<string>) {
    (forall i :: 0 <= i < |iterators| ==> Below(dir, iterators[i].file) && Step(dir, iterators[i].file) in done) &&
    (forall p :: p in Files(iterators) <==> Reached(tree, dir, filter, p) && Step(dir, p) in done)
  }

  /** Appending what was collected through one more child `f` extends the collection by `f`. */
  lemma CollectedExtend(tree: Tree, dir: string, filter: Option<string -> bool>,
                        iterators: seq<FileLineIterator>, done: set<string>, more: seq<FileLineIterator>, f: string)
    requires f !in done && CollectedBelow(tree, dir, filter, iterators, done) && DistinctFiles(iterators)
    requires CollectedBelow(tree, dir, filter, more, {f}) && DistinctFiles(more)
    ensures CollectedBelow(tree, dir, filter, iterators + more, done + {f}) && DistinctFiles(iterators + more)
  {
    FilesConcat(iterators, more);
    var all := iterators + more;
    forall i, j | 0 <= i < j < |all| ensures all[i].file != all[j].file {
      if i < |iterators| && j >= |iterators| {
        assert all[j] == more[j - |iterators|];
        assert Step(dir, all[i].file) != Step(dir, all[j].file);
      } else if j >= |iterators| {
        assert all[i] == more[i - |iterators|] && all[j] == more[j - |iterators|];
      }
    }
    forall i | 0 <= i < |all| ensures Below(dir, all[i].file) && Step(dir, all[i].file) in done + {f} {
      if i >= |iterators| {
        assert all[i] == more[i - |iterators|];
      }
    }
  }

  /**
   * getCollectedFiles(directory): one fresh iterator per reached regular
   * file, each file once; sub-directories contribute their own files and no
   * entry of their own. Listing order is unspecified, so the order of the
   * result is too.
   */
  method CollectedFiles(disk: Disk, dir: string, filter: Option<string -> bool>) returns (r: seq<FileLineIterator>)
    requires WellFormed(disk.tree) && dir in disk.tree && disk.tree[dir].Directory?
    ensures forall p :: p in Files(r) <==> Reached(disk.tree, dir, filter, p)
    ensures DistinctFiles(r)
    ensures forall i :: 0 <= i < |r| ==> fresh(r[i]) && r[i].disk == disk && r[i].reader == Unopened && r[i].line.None?
    decreases |Under(disk.tree, dir)|
  {
    var listed := set c | c in Children(disk.tree, dir) && Accepts(filter, c);
    var remaining := listed;
    r := [];
    while remaining != {}
      invariant remaining <= listed
      invariant CollectedBelow(disk.tree, dir, filter, r, listed - remaining) && DistinctFiles(r)
      invariant forall i :: 0 <= i < |r| ==> fresh(r[i]) && r[i].disk == disk && r[i].reader == Unopened && r[i].line.None?
      decreases |remaining|
    {
      var f :| f in remaining;
      var more := CollectedThrough(disk, dir, filter, f);
      CollectedExtend(disk.tree, dir, filter, r, listed - remaining, more, f);
      assert (listed - remaining) + {f} == listed - (remaining - {f});
      forall i | 0 <= i < |r + more|
        ensures fresh((r + more)[i]) && (r + more)[i].disk == disk && (r + more)[i].reader == Unopened && (r + more)[i].line.None?
      {
        if i < |r| {
          assert (r + more)[i] == r[i];
        } else {
          assert (r + more)[i] == more[i - |r|];
        }
      }
      r := r + more;
      Sets.SubsetSmaller(remaining - {f}, remaining, f);
      remaining := remaining - {f};
    }
    forall p | Reached(disk.tree, dir, filter, p) ensures Step(dir, p) in listed {
      ReachedStepListed(disk.tree, dir, filter, p);
    }
  }

  /** The loop body of getCollectedFiles for one listed entry `f`: recurse into a directory, or read a regular file. */
  method CollectedThrough(disk: Disk, dir: string, filter: Option<string -> bool>, f: string) returns (more: seq<FileLineIterator>)
    requires WellFormed(disk.tree) && dir in disk.tree && disk.tree[dir].Directory?
    requires f in Children(disk.tree, dir) && Accepts(filter, f)
    ensures CollectedBelow(disk.tree, dir, filter, more, {f}) && DistinctFiles(more)
    ensures forall i :: 0 <= i < |more| ==> fresh(more[i]) && more[i].disk == disk && more[i].reader == Unopened && more[i].line.None?
    decreases |Under(disk.tree, dir)|, 0
  {
    if disk.tree[f].Directory? {
      UnderShrinks(disk.tree, disk.tree, dir, f);
      more := CollectedFiles(disk, f, filter);
      forall p ensures p in Files(more) <==> Reached(disk.tree, dir, filter, p) && Step(dir, p) == f {
        ReachedThroughDirectory(disk.tree, dir, filter, f, p);
      }
      forall i | 0 <= i < |more| ensures Below(dir, more[i].file) && Step(dir, more[i].file) == f {
        assert more[i].file in Files(more);
      }
    } else {
      var it := new FileLineIterator(disk, f);
      more := [it];
      assert more[0] == it && Files(more) == {f};
      StepUnique(dir, f, f);
      forall p ensures p == f <==> Reached(disk.tree, dir, filter, p) && Step(dir, p) == f {
        ReachedThroughFile(disk.tree, dir, filter, f, p);
      }
    }
  }

  /** A download through ServerCommandManager: from `source` on the node to `destination` on the controller. */
  datatype Download = Download(identifier: string, source: string, destination: string)

  /** ResultFileCollector: copies a path from one node and reads the copied files back line by line. */
  class ResultFileCollector {
    const repo: ResultRepository
    const identifier: string
    const targetPath: string
    var filter: Option<string -> bool>
    /** The downloads issued so far, in order. */
    var downloads: seq<Download>

    constructor (repo: ResultRepository, identifier: string, targetPath: string)
      ensures this.repo == repo && this.identifier == identifier && this.targetPath == targetPath
      ensures filter.None? && downloads == []
    {
      this.repo := repo;
      this.identifier := identifier;
      this.targetPath := targetPath;
      filter := None;
      downloads := [];
    }

    method SetFilter(filter: Option<string -> bool>)
      modifies this
      ensures this.filter == filter && downloads == old(downloads)
    {
      this.filter := filter;
    }

    /**
     * collect: downloads the node's target path into destPath(identifier).
     * A failure of the download itself is the parameter `downloadFault`, and
     * a mkdirs the file system turns down is `mkdirsRefused`.
     */
    method Collect(settings: Config.DistributedConfig, disk: Disk, mkdirsRefused: bool, downloadFault: Option<Throwable>)
      returns (error: Option<Throwable>)
      requires WellFormed(disk.tree)
      modifies this, disk
      ensures WellFormed(disk.tree) && filter == old(filter)
      ensures var (dest, tree') := DestPathSpec(repo, settings, identifier, old(disk.tree), mkdirsRefused);
        disk.tree == tree' &&
        (dest.Failure? ==> error == Some(dest.error) && downloads == old(downloads)) &&
        (dest.Success? ==> error == downloadFault && downloads == old(downloads) + [Download(identifier, targetPath, dest.value)])
    {
      var dest := DestPath(repo, settings, identifier, disk, mkdirsRefused);
      if dest.Failure? {
        return Some(dest.error);
      }
      downloads := downloads + [Download(identifier, targetPath, dest.value)];
      error := downloadFault;
    }

    /**
     * getResult: one iterator for each file reached below destPath(identifier);
     * when that path is a regular file it has no listing and the walk
     * throws a NullPointerException. `mkdirsRefused` is as in collect.
     */
    method GetResult(settings: Config.DistributedConfig, disk: Disk, mkdirsRefused: bool) returns (r: Result<seq<FileLineIterator>, Throwable>)
      requires WellFormed(disk.tree)
      modifies disk
      ensures WellFormed(disk.tree)
      ensures var (dest, tree') := DestPathSpec(repo, settings, identifier, old(disk.tree), mkdirsRefused);
        disk.tree == tree' &&
        (dest.Failure? ==> r == Failure(dest.error)) &&
        (dest.Success? && tree'[dest.value].RegularFile? ==> r == Failure(Throwable(NullPointer, None, None))) &&
        (dest.Success? && tree'[dest.value].Directory? ==>
          r.Success? &&
          (forall p :: p in Files(r.value) <==> Reached(tree', dest.value, filter, p)) &&
          (forall i, j :: 0 <= i < j < |r.value| ==> r.value[i].file != r.value[j].file) &&
          (forall i :: 0 <= i < |r.value| ==> r.value[i].disk == disk && r.value[i].reader == Unopened))
    {
      var dest := DestPath(repo, settings, identifier, disk, mkdirsRefused);
      if dest.Failure? {
        return Failure(dest.error);
      }
      if disk.tree[dest.value].RegularFile? {
        return Failure(Throwable(NullPointer, None, None));
      }
      var files := CollectedFiles(disk, dest.value, filter);
      r := Success(files);
    }
  }
}
