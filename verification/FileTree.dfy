/** The file system the extractor writes to, and the search for a name that is still free. */
module FileTree {
  import opened Bytes
  import opened Radix

  /** One path component, and an absolute path as its components. */
  type Name = seq<byte>
  type Path = seq<Name>

  datatype Node = Dir | File(data: seq<byte>)
  type Tree = map<Path, Node>

  /** What holds of any file system: a node's parent is a directory. */
  ghost predicate Closed(t: Tree) {
    forall p :: p in t && p != [] ==> p[..|p| - 1] in t && t[p[..|p| - 1]].Dir?
  }

  lemma {:induction false} ClosedPrefix(t: Tree, p: Path, k: nat)
    requires Closed(t) && p in t && k <= |p|
    ensures p[..k] in t && (k < |p| ==> t[p[..k]].Dir?)
    decreases |p|
  {
    if k == |p| {
      assert p[..k] == p;
    } else {
      var parent := p[..|p| - 1];
      ClosedPrefix(t, parent, k);
      assert parent[..k] == p[..k];
    }
  }

  /** A file stands on the way to `p`, or at it. */
  predicate Blocked(t: Tree, p: Path) {
    exists k :: 0 <= k <= |p| && p[..k] in t && t[p[..k]].File?
  }

  /** `create_dir_all`: the missing directories on the way to `p`, and `p`. */
  function WithDirs(t: Tree, p: Path): (r: Tree)
    ensures forall q :: q in t ==> q in r && r[q] == t[q]
    ensures forall q :: q in r && q !in t ==> q <= p && r[q] == Dir
    ensures forall q :: q <= p ==> q in r
  {
    var missing := map k: nat | k <= |p| && p[..k] !in t :: p[..k];
    var made := map q | q in missing.Values :: Dir;
    forall q | q <= p && q !in t ensures q in made {
      assert q == p[..|q|];
      assert |q| in missing && missing[|q|] == q;
    }
    t + made
  }

  lemma WithDirsClosed(t: Tree, p: Path)
    requires Closed(t) && !Blocked(t, p)
    ensures Closed(WithDirs(t, p))
  {
    var r := WithDirs(t, p);
    forall q | q in r && q != [] ensures q[..|q| - 1] in r && r[q[..|q| - 1]].Dir? {
      var parent := q[..|q| - 1];
      if q !in t {
        assert parent <= p;
        assert p[..|parent|] == parent;
      }
    }
  }

  class Disk {
    var tree: Tree

    constructor (tree: Tree)
      ensures this.tree == tree
    {
      this.tree := tree;
    }

    method CreateDirAll(p: Path) returns (ok: bool)
      modifies this
      ensures ok == !Blocked(old(tree), p)
      ensures tree == if ok then WithDirs(old(tree), p) else old(tree)
    {
      ok := !Blocked(tree, p);
      if ok {
        tree := WithDirs(tree, p);
      }
    }

    /** `File::create`: a new empty file, or the old one emptied; never over a directory. */
    method CreateFile(p: Path) returns (ok: bool)
      modifies this
      ensures ok == !(p in old(tree) && old(tree)[p].Dir?)
      ensures tree == if ok then old(tree)[p := File([])] else old(tree)
    {
      ok := !(p in tree && tree[p].Dir?);
      if ok {
        tree := tree[p := File([])];
      }
    }

    method WriteFile(p: Path, data: seq<byte>)
      modifies this
      ensures tree == old(tree)[p := File(data)]
    {
      tree := tree[p := File(data)];
    }

    method RemoveFile(p: Path)
      modifies this
      ensures tree == old(tree) - {p}
    {
      tree := tree - {p};
    }
  }

  // ---------- a name that is still free ----------

  const SLASH: byte := 47
  const DOT: byte := 46

  /** A component that stays inside the directory it is joined to. */
  predicate Safe(c: Name) {
    c != [] && SLASH !in c && c != [DOT] && c != [DOT, DOT]
  }

  /** What a file system makes of components that are walked one after the other. */
  function Walk(dir: Path, parts: seq<Name>): Path
    decreases |parts|
  {
    if parts == [] then dir
    else
      var c := parts[0];
      Walk(if c == [] || c == [46] then dir
           else if c != [46, 46] then dir + [c]
           else if dir == [] then []
           else dir[..|dir| - 1], parts[1..])
  }

  /** Exactly those components lead one step down, wherever the walk is. */
  lemma SafeExactly(c: Name)
    requires 47 !in c
    ensures Safe(c) <==> forall dir: Path :: Walk(dir, [c]) == dir + [c]
  {
    assert [c][1..] == [];
    if !Safe(c) {
      var dir: Path := [];
      assert Walk(dir, [c]) != dir + [c];
    }
  }

  function LastDot(name: Name): (i: nat)
    ensures i < |name| ==> name[i] == DOT && DOT !in name[i + 1..]
    ensures i >= |name| ==> i == |name| && DOT !in name
  {
    if name == [] then 0
    else if DOT in name[1..] then LastDot(name[1..]) + 1
    else if name[0] == DOT then 0
    else |name|
  }

  /** Where ` (n)` goes: before the last dot, unless that is the first character. */
  function StemLength(name: Name): (k: nat)
    ensures k <= |name|
  {
    if LastDot(name) == 0 then |name| else LastDot(name)
  }

  function Candidate(name: Name, n: nat): Name {
    var k := StemLength(name);
    name[..k] + [32, 40] + Format(n, 10) + [41] + name[k..]
  }

  /** The number goes before the extension: from the last dot on, if that is not the first character. */
  lemma CandidateKeepsExtension(name: Name, n: nat) returns (stem: Name, ext: Name)
    ensures name == stem + ext && Candidate(name, n) == stem + [32, 40] + Format(n, 10) + [41] + ext
    ensures if ext == [] then name != [] ==> 46 !in name[1..] else stem != [] && ext[0] == 46 && 46 !in ext[1..]
  {
    var k := StemLength(name);
    stem, ext := name[..k], name[k..];
    if name != [] && LastDot(name) == 0 {
      assert name[0 + 1..] == name[1..];
    }
  }

  lemma CandidatesDistinct(name: Name, m: nat, n: nat)
    requires Candidate(name, m) == Candidate(name, n)
    ensures m == n
  {
    var k := StemLength(name);
    var a, b := Candidate(name, m), Candidate(name, n);
    assert a[k + 2..|a| - 1 - |name[k..]|] == Format(m, 10);
    assert b[k + 2..|b| - 1 - |name[k..]|] == Format(n, 10);
    FormatInjective(m, n, 10);
  }

  lemma CandidateSafe(name: Name, n: nat)
    requires Safe(name)
    ensures Safe(Candidate(name, n))
  {
    var k := StemLength(name);
    FormatIsDigits(n, 10);
    assert SLASH !in Format(n, 10);
    assert |Candidate(name, n)| > 2;
  }

  predicate Free(t: Tree, dir: Path, name: Name, n: nat) {
    dir + [Candidate(name, n)] !in t
  }

  /** The numbered names from `n` on that are taken: a finite set, which shrinks as `n` grows. */
  ghost function Taken(t: Tree, dir: Path, name: Name, n: nat): set<Path> {
    set p | p in t && exists m :: n <= m && p == dir + [Candidate(name, m)]
  }

  lemma {:induction false} SmallerSet<T>(a: set<T>, b: set<T>)
    requires a <= b
    ensures |a| <= |b|
  {
    if a != {} {
      var x :| x in a;
      SmallerSet(a - {x}, b - {x});
    }
  }

  lemma TakenShrinks(t: Tree, dir: Path, name: Name, n: nat)
    requires !Free(t, dir, name, n)
    ensures |Taken(t, dir, name, n + 1)| < |Taken(t, dir, name, n)|
  {
    var p := dir + [Candidate(name, n)];
    var all, later := Taken(t, dir, name, n), Taken(t, dir, name, n + 1);
    assert p in all;
    if p in later {
      var m :| n + 1 <= m && p == dir + [Candidate(name, m)];
      assert p[|dir|] == Candidate(name, m) == Candidate(name, n);
      CandidatesDistinct(name, m, n);
      assert false;
    }
    assert later <= all - {p};
    SmallerSet(later, all - {p});
  }

  /** `(n..).find(free)`. It ends because a finite tree cannot hold all of the pairwise
      distinct candidates. */
  function FirstFree(t: Tree, dir: Path, name: Name, n: nat): (r: nat)
    ensures n <= r && Free(t, dir, name, r)
    ensures forall m :: n <= m < r ==> !Free(t, dir, name, m)
    decreases |Taken(t, dir, name, n)|
  {
    if Free(t, dir, name, n) then n
    else
      TakenShrinks(t, dir, name, n);
      FirstFree(t, dir, name, n + 1)
  }

  /** The name `dir/name` gets: its own, or the first free numbered one. */
  function UniqueName(t: Tree, dir: Path, name: Name): (r: Name)
    ensures dir + [r] !in t
    ensures r == name
         || (dir + [name] in t
             && exists n :: (1 <= n && r == Candidate(name, n)
                             && forall m :: 1 <= m < n ==> dir + [Candidate(name, m)] in t))
  {
    if dir + [name] !in t then name
    else
      var n := FirstFree(t, dir, name, 1);
      assert forall m :: 1 <= m < n ==> !Free(t, dir, name, m) ==> dir + [Candidate(name, m)] in t;
      Candidate(name, n)
  }

  /** The same search given up after 999 numbered names: then the taken name itself comes back. It is
      free exactly when one of the thousand was. */
  method DedupName(t: Tree, dir: Path, name: Name) returns (r: Name)
    ensures dir + [r] !in t <==> dir + [name] !in t || exists n :: 1 <= n < 1000 && Free(t, dir, name, n)
    ensures if dir + [r] !in t then r == UniqueName(t, dir, name) else r == name
  {
    if dir + [name] !in t {
      return name;
    }
    for n := 1 to 1000
      invariant forall m :: 1 <= m < n ==> !Free(t, dir, name, m)
    {
      if Free(t, dir, name, n) {
        var first := FirstFree(t, dir, name, 1);
        assert !(first < n) && !(n < first);
        return Candidate(name, n);
      }
    }
    r := name;
  }
}
