/** Files and directories by absolute path, with the tree operations a migration uses. */
module FileTree {
  type Path = seq<string>

  datatype Node = Dir | File(content: string)

  /** Every directory and file, by absolute path. Missing parents of a moved tree are not tracked. */
  type FileSystem = map<Path, Node>

  /** Neither path contains the other. */
  predicate Apart(p: Path, q: Path) {
    !(p <= q) && !(q <= p)
  }

  lemma PrefixesOfOne(p: Path, q: Path, r: Path)
    requires p <= r && q <= r
    ensures !Apart(p, q)
  {
    if |p| <= |q| {
      assert p == r[..|p|] == q[..|p|];
    } else {
      assert q == r[..|q|] == p[..|q|];
    }
  }

  lemma DifferAt(p: Path, q: Path, i: nat)
    requires i < |p| && i < |q| && p[i] != q[i]
    ensures Apart(p, q)
  {
  }

  /** Recursive removal. */
  function Without(fs: FileSystem, root: Path): FileSystem {
    map p | p in fs && !(root <= p) :: fs[p]
  }

  /** The tree below `root`, by relative path; empty exactly when nothing is there. */
  function Subtree(fs: FileSystem, root: Path): FileSystem {
    map r | r in (set p | p in fs && root <= p :: p[|root|..]) && root + r in fs :: fs[root + r]
  }

  /** `fs` with the tree below `root` replaced by `tree`. */
  function Graft(fs: FileSystem, root: Path, tree: FileSystem): FileSystem {
    Without(fs, root) + map p | p in (set r | r in tree :: root + r) :: tree[p[|root|..]]
  }

  lemma SubtreeAt(fs: FileSystem, root: Path, r: Path)
    ensures r in Subtree(fs, root) <==> root + r in fs
    ensures root + r in fs ==> Subtree(fs, root)[r] == fs[root + r]
  {
    assert (root + r)[|root|..] == r;
    forall p | p in fs && root <= p && p[|root|..] == r ensures p == root + r {
    }
  }

  lemma GraftAt(fs: FileSystem, root: Path, tree: FileSystem, p: Path)
    ensures !(root <= p) ==>
              && (p in Graft(fs, root, tree) <==> p in fs)
              && (p in fs ==> Graft(fs, root, tree)[p] == fs[p])
    ensures root <= p ==>
              && (p in Graft(fs, root, tree) <==> p[|root|..] in tree)
              && (p[|root|..] in tree ==> Graft(fs, root, tree)[p] == tree[p[|root|..]])
  {
    if root <= p {
      assert p == root + p[|root|..];
      forall r | r in tree && root + r == p ensures r == p[|root|..] {
      }
    }
  }

  lemma SubtreeOfGraft(fs: FileSystem, root: Path, tree: FileSystem)
    ensures Subtree(Graft(fs, root, tree), root) == tree
  {
    forall r ensures r in Subtree(Graft(fs, root, tree), root) <==> r in tree
             ensures r in tree ==> Subtree(Graft(fs, root, tree), root)[r] == tree[r]
    {
      SubtreeAt(Graft(fs, root, tree), root, r);
      GraftAt(fs, root, tree, root + r);
      assert (root + r)[|root|..] == r;
    }
  }

  /** `f` and `g` hold the same things below `root`. */
  predicate SameUnder(f: FileSystem, g: FileSystem, root: Path) {
    && (forall p | p in f && root <= p :: p in g && g[p] == f[p])
    && (forall p | p in g && root <= p :: p in f)
  }

  predicate SameOutside(f: FileSystem, g: FileSystem, root: Path) {
    && (forall p | p in f && !(root <= p) :: p in g && g[p] == f[p])
    && (forall p | p in g && !(root <= p) :: p in f)
  }

  lemma SameSubtree(f: FileSystem, g: FileSystem, root: Path)
    requires SameUnder(f, g, root)
    ensures Subtree(f, root) == Subtree(g, root)
  {
    forall r ensures r in Subtree(f, root) <==> r in Subtree(g, root)
             ensures r in Subtree(f, root) ==> Subtree(f, root)[r] == Subtree(g, root)[r]
    {
      SubtreeAt(f, root, r);
      SubtreeAt(g, root, r);
      assert root <= root + r;
    }
  }
}
