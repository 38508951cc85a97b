/**
 * The controller's local disk, as java.io.File sees it: a map from path
 * strings to entries. Paths are compared as written, with '/' as
 * File.separator; a regular file holds the lines a reader would yield, or
 * nothing when it cannot be opened.
 */
module FileSystem {
  import opened Wrappers
  import Sets
  import Text

  /** File.separator on the controller. */
  const Separator: string := "/"

  datatype Entry =
    | Directory
    | RegularFile(lines: Option<seq<string>>)

  type Tree = map<string, Entry>

  /** `path` lies strictly below `dir`. */
  predicate Below(dir: string, path: string) {
    dir + Separator <= path
  }

  /** `path` is an entry directly inside `dir`. */
  predicate ChildOf(dir: string, path: string) {
    Below(dir, path) && '/' !in path[|dir| + 1..]
  }

  /** Every entry's parent directories are present as directories. */
  ghost predicate WellFormed(tree: Tree) {
    forall p, i :: p in tree && 0 <= i < |p| && p[i] == '/' ==>
      p[..i] in tree && tree[p[..i]].Directory?
  }

  /** Everything strictly below `dir`. */
  function Under(tree: Tree, dir: string): set<string> {
    set p | p in tree && Below(dir, p)
  }

  /** File.listFiles(): the entries directly inside `dir`. */
  function Children(tree: Tree, dir: string): (children: set<string>)
    ensures children <= Under(tree, dir)
  {
    set p | p in tree && ChildOf(dir, p)
  }

  /** The tree without `dir` and everything below it. */
  function Without(tree: Tree, dir: string): (r: Tree)
    ensures forall p :: p in r <==> p in tree && p != dir && !Below(dir, p)
    ensures forall p :: p in r ==> r[p] == tree[p]
  {
    map p | p in tree && p != dir && !Below(dir, p) :: tree[p]
  }

  /** The child of `dir` on the way down to `p`. */
  function Step(dir: string, p: string): (c: string)
    requires Below(dir, p)
    ensures ChildOf(dir, c) && (c == p || Below(c, p))
    ensures |c| <= |p| && c == p[..|c|]
  {
    var rest := p[|dir| + 1..];
    var j := Text.IndexOf(rest, '/');
    var c := p[..|dir| + 1 + j];
    assert c[|dir| + 1..] == rest[..j];
    assert c[..|dir| + 1] == dir + Separator;
    if j < |rest| then
      assert (c + Separator) == p[..|c| + 1];
      c
    else
      assert c == p;
      c
  }

  /** In a well-formed tree, every entry below `dir` is a child of `dir` or lies below one. */
  lemma StepPresent(tree: Tree, dir: string, p: string)
    requires WellFormed(tree) && p in tree && Below(dir, p)
    ensures Step(dir, p) in Children(tree, dir)
    ensures Step(dir, p) != p ==> tree[Step(dir, p)].Directory?
  {
    var c := Step(dir, p);
    if c != p {
      assert p[|c|] == '/' && p[..|c|] == c;
      assert tree[p[..|c|]].Directory?;
    }
  }

  /** The only child of `dir` on the way down to `p` is `Step(dir, p)`. */
  lemma StepUnique(dir: string, c: string, p: string)
    requires ChildOf(dir, c) && (p == c || Below(c, p))
    ensures Below(dir, p) && c == Step(dir, p)
  {
    var n := |dir| + 1;
    assert c == p[..|c|];
    assert Below(dir, p) by { assert (dir + Separator) == c[..n] == p[..n]; }
    var j := Text.IndexOf(p[n..], '/');
    forall k | 0 <= k < |c| - n
      ensures p[n..][k] != '/'
    {
      assert p[n..][k] == c[n..][k];
    }
    if p != c {
      assert p[n..][|c| - n] == p[|c|] == '/';
    }
    assert j == |c| - n;
  }

  /** Below one child means not below or equal to another. */
  lemma ChildrenDisjoint(dir: string, c1: string, c2: string, p: string)
    requires ChildOf(dir, c1) && ChildOf(dir, c2) && c1 != c2
    requires p == c1 || Below(c1, p)
    ensures p != c2 && !Below(c2, p)
  {
    StepUnique(dir, c1, p);
    if p == c2 || Below(c2, p) {
      StepUnique(dir, c2, p);
    }
  }

  /** An entry strictly below `c` lies strictly below every ancestor of `c`. */
  lemma BelowTransitive(a: string, b: string, c: string)
    requires Below(a, b) && Below(b, c)
    ensures Below(a, c)
  {
    assert (a + Separator) == b[..|a| + 1] == c[..|a| + 1];
  }

  /** Removing a whole subtree keeps the tree well-formed. */
  lemma WithoutWellFormed(tree: Tree, dir: string)
    requires WellFormed(tree)
    ensures WellFormed(Without(tree, dir))
  {
    var r := Without(tree, dir);
    forall p, i | p in r && 0 <= i < |p| && p[i] == '/'
      ensures p[..i] in r && r[p[..i]].Directory?
    {
      var q := p[..i];
      assert Below(q, p) by { assert (q + Separator) == p[..i + 1]; }
      if q == dir {
        assert false;
      }
      if Below(dir, q) {
        BelowTransitive(dir, q, p);
        assert false;
      }
    }
  }

  /** The part of a subtree that survives in a smaller tree is smaller than the parent's subtree. */
  lemma UnderShrinks(tree: Tree, smaller: Tree, dir: string, c: string)
    requires smaller.Keys <= tree.Keys && ChildOf(dir, c) && c in tree
    ensures |Under(smaller, c)| < |Under(tree, dir)|
  {
    forall p | p in Under(smaller, c)
      ensures p in Under(tree, dir)
    {
      BelowTransitive(dir, c, p);
    }
    assert c !in Under(smaller, c);
    Sets.SubsetSmaller(Under(smaller, c), Under(tree, dir), c);
  }

  /** Anything with an entry below it is a directory. */
  lemma AboveIsDirectory(tree: Tree, f: string, p: string)
    requires WellFormed(tree) && p in tree && Below(f, p)
    ensures f in tree && tree[f].Directory?
  {
    assert p[..|f|] == f;
  }

  /** A missing entry or a regular file has nothing below it. */
  lemma NothingBelowLeaf(tree: Tree, f: string)
    requires WellFormed(tree) && (f !in tree || tree[f].RegularFile?)
    ensures Under(tree, f) == {}
  {
    forall p | p in tree && Below(f, p)
      ensures false
    {
      AboveIsDirectory(tree, f, p);
    }
  }

  /** Removing a missing entry removes nothing. */
  lemma WithoutMissing(tree: Tree, dir: string)
    requires WellFormed(tree) && dir !in tree
    ensures Without(tree, dir) == tree
  {
    NothingBelowLeaf(tree, dir);
    forall p | p in tree ensures !Below(dir, p) {
      assert p !in Under(tree, dir);
    }
  }

  /** What is left of `tree` once the children of `dir` outside `kept` are gone, each with its subtree. */
  function Keep(tree: Tree, dir: string, kept: set<string>): Tree {
    map p | p in tree && (!Below(dir, p) || Step(dir, p) in kept) :: tree[p]
  }

  /** Keeping every child keeps the whole tree. */
  lemma KeepAll(tree: Tree, dir: string)
    requires WellFormed(tree)
    ensures Keep(tree, dir, Children(tree, dir)) == tree
  {
    forall p | p in tree && Below(dir, p)
      ensures Step(dir, p) in Children(tree, dir)
    {
      StepPresent(tree, dir, p);
    }
  }

  /** Removing one kept child with its subtree is the same as no longer keeping it. */
  lemma KeepStep(tree: Tree, dir: string, kept: set<string>, f: string)
    requires f in kept && ChildOf(dir, f)
    ensures Without(Keep(tree, dir, kept), f) == Keep(tree, dir, kept - {f})
  {
    forall p | p in tree
      ensures p in Without(Keep(tree, dir, kept), f) <==> p in Keep(tree, dir, kept - {f})
    {
      if p == f || Below(f, p) {
        StepUnique(dir, f, p);
      } else if Below(dir, p) {
        assert Step(dir, p) != f;
      }
    }
  }

  /** Once no child is kept, nothing is left below `dir`, and removing `dir` itself removes the whole subtree. */
  lemma KeepNone(tree: Tree, dir: string)
    ensures Under(Keep(tree, dir, {}), dir) == {}
    ensures Without(Keep(tree, dir, {}), dir) == Without(tree, dir)
  {
  }

  /** The prefixes of `path` cut at its separators, and the path itself. */
  function Ancestry(path: string): set<string> {
    (set i | 0 <= i < |path| && path[i] == '/' :: path[..i]) + {path}
  }

  /** Some entry on the way down to `path`, `path` included, is a regular file. */
  predicate Blocked(tree: Tree, path: string) {
    exists q :: q in Ancestry(path) && q in tree && tree[q].RegularFile?
  }

  /**
   * File.mkdirs() on a missing path, as the outcome and the new tree: it
   * succeeds exactly when the file system does not refuse (`refused`
   * stands for a denied permission, a read-only volume or an I/O error)
   * and no entry on the way is a regular file, and then adds every
   * missing directory on the way and nothing else.
   */
  function MkdirsSpec(tree: Tree, path: string, refused: bool): (r: (bool, Tree))
    requires path !in tree
    ensures r.0 <==> !refused && !Blocked(tree, path)
    ensures r.0 ==> path in r.1 && r.1[path].Directory?
    ensures !r.0 ==> r.1 == tree
    ensures tree.Keys <= r.1.Keys && forall p :: p in tree ==> r.1[p] == tree[p]
    ensures forall p :: p in r.1 && p !in tree ==> p in Ancestry(path) && r.1[p].Directory?
  {
    if refused || Blocked(tree, path) then (false, tree)
    else (true, tree + map q | q in Ancestry(path) && q !in tree :: Directory)
  }

  /** Creating the missing directories keeps every entry's parents in place. */
  lemma MkdirsWellFormed(tree: Tree, path: string, refused: bool)
    requires WellFormed(tree) && path !in tree
    ensures WellFormed(MkdirsSpec(tree, path, refused).1)
  {
    var t := MkdirsSpec(tree, path, refused).1;
    forall p, i | p in t && 0 <= i < |p| && p[i] == '/'
      ensures p[..i] in t && t[p[..i]].Directory?
    {
      if p !in tree {
        var q := p[..i];
        if p != path {
          var k :| 0 <= k < |path| && path[k] == '/' && p == path[..k];
          assert q == path[..i] && path[i] == '/';
        }
        assert q in Ancestry(path);
        if q in tree {
          assert !Blocked(tree, path);
        }
      }
    }
  }

  /** The controller's disk. */
  class Disk {
    var tree: Tree

    constructor (tree: Tree)
      requires WellFormed(tree)
      ensures this.tree == tree
    {
      this.tree := tree;
    }

    /** File.exists(). */
    function Exists(path: string): bool
      reads this
    {
      path in tree
    }

    /** File.delete() on an entry with nothing below it. */
    method Delete(path: string)
      requires WellFormed(tree) && Under(tree, path) == {}
      modifies this
      ensures WellFormed(tree) && tree == Without(old(tree), path)
    {
      WithoutWellFormed(tree, path);
      tree := Without(tree, path);
    }

    /** File.mkdirs() on a missing path; `refused` is the file system turning the request down. */
    method Mkdirs(path: string, refused: bool) returns (created: bool)
      requires WellFormed(tree) && path !in tree
      modifies this
      ensures WellFormed(tree)
      ensures (created, tree) == MkdirsSpec(old(tree), path, refused)
    {
      MkdirsWellFormed(tree, path, refused);
      if refused || Blocked(tree, path) {
        return false;
      }
      tree := tree + map q | q in Ancestry(path) && q !in tree :: Directory;
      created := true;
    }
  }
}
