/**
 * An abstract local file system: the directories and files that exist, each
 * named by its path (the list of its components from the drive root), and
 * the files that cannot be deleted because another process holds them open.
 */
module FileSystem {
  import opened Text

  type Path = seq<string>

  /** `p` lies strictly inside directory `d` (at any depth). */
  predicate Below(d: Path, p: Path)
  {
    |d| < |p| && d <= p
  }

  /** `p` is an entry directly inside directory `d`. */
  predicate ChildOf(d: Path, p: Path)
  {
    |p| == |d| + 1 && d <= p
  }

  /** A directory is either the path itself or lies strictly above it. */
  lemma PrefixCases(d: Path, p: Path)
    requires d <= p
    ensures p == d || Below(d, p)
  {
    if |p| == |d| {
      assert p == d;
    }
  }

  /** The entries of `entries` directly inside `d`. */
  ghost function ChildrenIn(entries: set<Path>, d: Path): set<Path>
  {
    set p | p in entries && ChildOf(d, p)
  }

  /** `d` and every directory above it, up to the root `[]`. */
  function Prefixes(d: Path): set<Path>
  {
    set k | 0 <= k <= |d| :: d[..k]
  }

  function Parent(p: Path): Path
    requires |p| > 0
  {
    p[..|p| - 1]
  }

  /** The path as Windows spells it ("C:\\app\\.python"). */
  function Render(p: Path): string
  {
    Join(p, "\\")
  }

  /** Path.Combine(Render(d), name) is the rendering of `d + [name]`. */
  lemma RenderChild(d: Path, name: string)
    requires |d| > 0
    ensures Render(d + [name]) == Render(d) + "\\" + name
  {
    JoinSnoc(d, name, "\\");
  }

  /** The rendering of a path starts with the rendering of every directory
    * it lies in, followed by a separator. */
  lemma {:induction false} RenderBelow(d: Path, p: Path)
    requires |d| > 0 && Below(d, p)
    ensures Render(d) + "\\" <= Render(p)
    decreases |p|
  {
    if |p| == |d| + 1 {
      assert p == d + [p[|d|]];
      RenderChild(d, p[|d|]);
    } else {
      var q := Parent(p);
      assert Below(d, q) && q <= p;
      RenderBelow(d, q);
      assert p == q + [p[|q|]];
      RenderChild(q, p[|q|]);
    }
  }

  /** Every file in `files` that lies below `d` and is in `locked`. */
  ghost predicate HasLockedBelow(files: set<Path>, locked: set<Path>, d: Path)
  {
    exists f :: f in files && f in locked && Below(d, f)
  }

  /** The files below `d` that a best-effort delete can remove. */
  ghost function DeletableBelow(files: set<Path>, locked: set<Path>, d: Path): set<Path>
  {
    set f | f in files && f !in locked && Below(d, f)
  }

  /** The directories at or below `d` that hold no locked file: exactly the
    * ones a best-effort delete removes. */
  ghost function CleanDirs(dirs: set<Path>, files: set<Path>, locked: set<Path>, d: Path): set<Path>
  {
    set x | x in dirs && d <= x && !HasLockedBelow(files, locked, x)
  }

  /** The directories at or below `d`; used as a termination measure. */
  ghost function Subtree(dirs: set<Path>, d: Path): set<Path>
  {
    set x | x in dirs && d <= x
  }

  /** A directory tree: every entry other than the root sits in a directory
    * that exists. */
  ghost predicate Tree(files: set<Path>, dirs: set<Path>)
  {
    && (forall f :: f in files ==> |f| > 0 && Parent(f) in dirs)
    && (forall x :: x in dirs && |x| > 0 ==> Parent(x) in dirs)
  }

  /** In a tree, every directory on the way from a directory down to one of
    * its entries exists. */
  lemma {:induction false} AncestorExists(files: set<Path>, dirs: set<Path>, p: Path, k: nat)
    requires Tree(files, dirs)
    requires p in files || p in dirs
    requires k < |p|
    ensures p[..k] in dirs
    decreases |p| - k
  {
    if k == |p| - 1 {
      assert p[..k] == Parent(p);
    } else {
      AncestorExists(files, dirs, p, k + 1);
      var q := p[..k + 1];
      assert q[..|q| - 1] == p[..k];
    }
  }

  class Disk {
    var files: set<Path>
    var dirs: set<Path>
    /** Files held open elsewhere: deleting them fails even after their
      * attributes are reset. */
    const locked: set<Path>

    ghost predicate Valid()
      reads this
    {
      Tree(files, dirs)
    }

    constructor (files: set<Path>, dirs: set<Path>, locked: set<Path>)
      requires Tree(files, dirs)
      ensures Valid()
      ensures this.files == files && this.dirs == dirs && this.locked == locked
    {
      this.files, this.dirs, this.locked := files, dirs, locked;
    }

    /** Directory.Exists */
    predicate DirectoryExists(d: Path)
      reads this
    {
      d in dirs
    }

    /** File.Exists */
    predicate FileExists(f: Path)
      reads this
    {
      f in files
    }

    /** Directory.GetFiles(d, "*", SearchOption.AllDirectories) is non-empty. */
    predicate HasFilesBelow(d: Path)
      reads this
    {
      exists f :: f in files && Below(d, f)
    }

    /** Directory.CreateDirectory(d): creates `d` and every missing
      * directory above it; an existing directory is left as it is. */
    method CreateDirectory(d: Path)
      requires Valid()
      modifies this
      ensures Valid()
      ensures dirs == old(dirs) + Prefixes(d)
      ensures files == old(files)
    {
      forall x | x in dirs + Prefixes(d) && |x| > 0 ensures Parent(x) in dirs + Prefixes(d) {
        if x in Prefixes(d) {
          assert Parent(x) == d[..|x| - 1];
        }
      }
      dirs := dirs + Prefixes(d);
    }

    /** File.SetAttributes(f, Normal) followed by File.Delete(f): fails only
      * for a locked file; deleting a missing file is not an error. */
    method DeleteFile(f: Path) returns (ok: bool)
      requires Valid()
      modifies this
      ensures Valid()
      ensures ok <==> f !in locked
      ensures files == if ok then old(files) - {f} else old(files)
      ensures dirs == old(dirs)
    {
      ok := f !in locked;
      if ok {
        files := files - {f};
      }
    }

    /** Directory.Delete(d, false): removes `d` only when it exists and has
      * no entry left in it. */
    method DeleteEmptyDirectory(d: Path) returns (ok: bool)
      requires Valid()
      modifies this
      ensures Valid()
      ensures ok <==> d in old(dirs) && (forall p :: p in old(files) ==> !ChildOf(d, p))
                                     && (forall p :: p in old(dirs) ==> !ChildOf(d, p))
      ensures dirs == if ok then old(dirs) - {d} else old(dirs)
      ensures files == old(files)
    {
      ok := d in dirs && (forall p | p in files :: !ChildOf(d, p))
                      && (forall p | p in dirs :: !ChildOf(d, p));
      if ok {
        forall p | p in files ensures |p| > 0 && Parent(p) in dirs - {d} {
          assert !ChildOf(d, p);
        }
        forall x | x in dirs - {d} && |x| > 0 ensures Parent(x) in dirs - {d} {
          assert !ChildOf(d, x);
        }
        dirs := dirs - {d};
      }
    }
  }
}
