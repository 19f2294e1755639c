/** The part of the file system the project creator touches: a tree of
    directories and files addressed by paths, with the `pathlib` and `shutil`
    operations it uses (`mkdir`, `touch`, writing a file, copying a file and
    copying a directory tree). */
module FileTree {

  /** A path from the root, as its components; the root is `[]`. */
  type Path = seq<string>

  /** What a file holds: text, or one of the three documents the project
      creator generates, recorded by the values it fills into them. */
  datatype Content =
    | Text(text: string)
    | ReadmeDoc(title: string, description: string, name: string, category: string)
    | GitignoreDoc(template: string)
    | ClaudeDoc(name: string, category: string)

  datatype Node = Dir | File(content: Content)

  type Entries = map<Path, Node>

  function Parent(p: Path): Path
    requires p != []
  {
    p[..|p| - 1]
  }

  /** `p` is the root or a directory. */
  predicate IsDir(e: Entries, p: Path) {
    p == [] || (p in e && e[p].Dir?)
  }

  /** The root is not an entry, and every entry's parent is a directory. */
  predicate WellFormed(e: Entries) {
    && [] !in e
    && forall p :: p in e ==> IsDir(e, Parent(p))
  }

  /** No entry lies below `p`. */
  predicate NothingBelow(e: Entries, p: Path) {
    forall q :: q in e ==> !(p < q)
  }

  /** Every proper prefix of an entry is a directory. */
  lemma {:induction false} AncestorIsDir(e: Entries, q: Path, k: nat)
    requires WellFormed(e) && q in e && k < |q|
    ensures IsDir(e, q[..k])
    decreases |q| - k
  {
    var pq := Parent(q);
    if k < |q| - 1 {
      assert pq in e;
      AncestorIsDir(e, pq, k);
      assert pq[..k] == q[..k];
    } else {
      assert q[..k] == pq;
    }
  }

  /** Whatever lies below `p` makes `p` a directory. */
  lemma BelowMeansDir(e: Entries, p: Path)
    requires WellFormed(e)
    ensures forall q :: q in e && p < q ==> IsDir(e, p)
  {
    forall q | q in e && p < q ensures IsDir(e, p) {
      AncestorIsDir(e, q, |p|);
      assert q[..|p|] == p;
    }
  }

  /** Some prefix of `p`, `p` included, is a file. */
  predicate HasFilePrefix(e: Entries, p: Path)
    decreases |p|
  {
    p != [] && ((p in e && e[p].File?) || HasFilePrefix(e, Parent(p)))
  }

  /** The tree after `p.mkdir(parents=True, exist_ok=True)` succeeds: every
      missing prefix of `p` becomes a directory. */
  function WithDirs(e: Entries, p: Path): Entries
    decreases |p|
  {
    if p == [] then e
    else
      var w := WithDirs(e, Parent(p));
      if p in w then w else w[p := Dir]
  }

  /** Making the directories keeps the tree well formed, makes `p` a directory,
      keeps every entry, and adds only directories on the way to `p`. */
  lemma {:induction false} WithDirsFacts(e: Entries, p: Path)
    requires WellFormed(e) && !HasFilePrefix(e, p)
    ensures WellFormed(WithDirs(e, p)) && IsDir(WithDirs(e, p), p)
    ensures forall q :: q in e ==> q in WithDirs(e, p) && WithDirs(e, p)[q] == e[q]
    ensures forall q :: q in WithDirs(e, p) && q !in e ==> q <= p && WithDirs(e, p)[q] == Dir
  {
    if p != [] {
      var pp := Parent(p);
      WithDirsFacts(e, pp);
      var w := WithDirs(e, pp);
      assert pp <= p;
      if p !in w {
        var w' := w[p := Dir];
        assert WithDirs(e, p) == w';
        forall q | q in w' ensures IsDir(w', Parent(q)) {
          if q != p { assert IsDir(w, Parent(q)); }
        }
      }
    }
  }

  /** `open(p, 'w')` succeeds: the parent is a directory and `p` is not one. */
  predicate CanWrite(e: Entries, p: Path) {
    p != [] && IsDir(e, Parent(p)) && !(p in e && e[p].Dir?)
  }

  lemma WriteKeepsWellFormed(e: Entries, p: Path, n: Node)
    requires WellFormed(e) && CanWrite(e, p)
    ensures WellFormed(e[p := n])
  {
    var e' := e[p := n];
    forall q | q in e' ensures IsDir(e', Parent(q)) {
      if q != p {
        assert IsDir(e, Parent(q));
      }
    }
  }

  /** `names` are the children of `src` whose subtrees are copied. */
  predicate Copied(src: Path, p: Path, names: set<string>) {
    src < p && p[|src|] in names
  }

  /** Where the copies land: each copied path moved from below `src` to below `dst`. */
  function Targets(e: Entries, src: Path, dst: Path, names: set<string>): set<Path> {
    set p | p in e && Copied(src, p, names) :: dst + p[|src|..]
  }

  lemma TargetsFromSources(e: Entries, src: Path, dst: Path, names: set<string>)
    ensures forall q :: q in Targets(e, src, dst, names) ==>
      dst < q && src + q[|dst|..] in e && Copied(src, src + q[|dst|..], names)
  {
    forall q | q in Targets(e, src, dst, names)
      ensures dst < q && src + q[|dst|..] in e && Copied(src, src + q[|dst|..], names)
    {
      var p :| p in e && Copied(src, p, names) && q == dst + p[|src|..];
      assert q[|dst|..] == p[|src|..];
      assert src + q[|dst|..] == p;
    }
  }

  /** The copies of the subtrees of the children `names` of `src`, placed below `dst`. */
  function Rerooted(e: Entries, src: Path, dst: Path, names: set<string>): (r: Entries)
    ensures forall q :: q in r ==> dst < q && src + q[|dst|..] in e && Copied(src, src + q[|dst|..], names)
  {
    TargetsFromSources(e, src, dst, names);
    map q | q in Targets(e, src, dst, names) :: e[src + q[|dst|..]]
  }

  /** Each copied entry arrives under its own name below `dst`. */
  lemma RerootedAt(e: Entries, src: Path, dst: Path, names: set<string>, p: Path)
    requires p in e && Copied(src, p, names)
    ensures dst + p[|src|..] in Rerooted(e, src, dst, names)
    ensures Rerooted(e, src, dst, names)[dst + p[|src|..]] == e[p]
  {
    var q := dst + p[|src|..];
    assert q[|dst|..] == p[|src|..];
    assert src + q[|dst|..] == p;
  }

  /** Copying some children, then one more, is copying them all. */
  lemma RerootedUnion(e: Entries, src: Path, dst: Path, names: set<string>, c: string)
    ensures Rerooted(e, src, dst, names) + Rerooted(e, src, dst, {c}) == Rerooted(e, src, dst, names + {c})
  {
    var a, b, u := Rerooted(e, src, dst, names), Rerooted(e, src, dst, {c}), Rerooted(e, src, dst, names + {c});
    forall q | q in u ensures q in a + b {
      var p := src + q[|dst|..];
      RerootedAt(e, src, dst, if p[|src|] == c then {c} else names, p);
      assert dst + p[|src|..] == q;
    }
    forall q | q in a + b ensures q in u && (a + b)[q] == u[q] {
      var p := src + q[|dst|..];
      RerootedAt(e, src, dst, names + {c}, p);
      assert dst + p[|src|..] == q;
    }
  }

  /** Copying a file child is one new file. */
  lemma RerootedFile(e: Entries, src: Path, dst: Path, c: string)
    requires WellFormed(e) && src + [c] in e && e[src + [c]].File?
    ensures Rerooted(e, src, dst, {c}) == map[dst + [c] := e[src + [c]]]
  {
    var item := src + [c];
    RerootedAt(e, src, dst, {c}, item);
    assert item[|src|..] == [c];
    BelowMeansDir(e, item);
    assert NothingBelow(e, item);
    forall q | q in Rerooted(e, src, dst, {c}) ensures q == dst + [c] {
      OnlyChild(e, src, dst, c, q);
    }
  }

  lemma OnlyChild(e: Entries, src: Path, dst: Path, c: string, q: Path)
    requires NothingBelow(e, src + [c]) && q in Rerooted(e, src, dst, {c})
    ensures q == dst + [c]
  {
    var p := src + q[|dst|..];
    assert p[..|src| + 1] == src + [c];
    assert |p| == |src| + 1;
    assert q == dst + q[|dst|..];
  }

  /** The names of the entries directly below `src`, as `iterdir` lists them. */
  function ChildNames(e: Entries, src: Path): set<string> {
    set p | p in e && |p| == |src| + 1 && src < p :: p[|src|]
  }

  /** The tree after each child of `src` is copied below `dst`: files with
      `copy2`, directories with `copytree`. */
  function CopyChildren(e: Entries, src: Path, dst: Path): Entries {
    e + Rerooted(e, src, dst, ChildNames(e, src))
  }

  /** Every entry below `src` lies under one of its children. */
  lemma BelowUnderChild(e: Entries, src: Path)
    requires WellFormed(e)
    ensures forall p :: p in e && src < p ==> Copied(src, p, ChildNames(e, src))
  {
    forall p | p in e && src < p ensures Copied(src, p, ChildNames(e, src)) {
      var child := p[..|src| + 1];
      if |p| > |src| + 1 {
        AncestorIsDir(e, p, |src| + 1);
        assert child != [];
      } else {
        assert child == p;
      }
      assert child in e && |child| == |src| + 1 && src < child;
      assert child[|src|] == p[|src|];
    }
  }

  /** Copying into a directory with nothing below it keeps every entry. */
  lemma CopyKeeps(e: Entries, src: Path, dst: Path)
    requires NothingBelow(e, dst)
    ensures forall q :: q in e ==> q in CopyChildren(e, src, dst) && CopyChildren(e, src, dst)[q] == e[q]
  {
    var r := Rerooted(e, src, dst, ChildNames(e, src));
    forall q | q in e ensures q !in r {
      assert !(dst < q);
    }
  }

  /** After the copy, what lies below `dst` is exactly a copy of what lies below `src`. */
  lemma CopyMirrors(e: Entries, src: Path, dst: Path)
    requires WellFormed(e) && NothingBelow(e, dst)
    ensures forall s: Path :: s != [] && src + s in e ==>
      dst + s in CopyChildren(e, src, dst) && CopyChildren(e, src, dst)[dst + s] == e[src + s]
    ensures forall q :: dst < q ==> (q in CopyChildren(e, src, dst) <==> src + q[|dst|..] in e)
  {
    var names := ChildNames(e, src);
    BelowUnderChild(e, src);
    forall s: Path | s != [] && src + s in e
      ensures dst + s in CopyChildren(e, src, dst) && CopyChildren(e, src, dst)[dst + s] == e[src + s]
    {
      var p := src + s;
      assert src < p && p[|src|..] == s;
      RerootedAt(e, src, dst, names, p);
    }
    forall q | dst < q && src + q[|dst|..] in e ensures q in CopyChildren(e, src, dst) {
      var s := q[|dst|..];
      assert s != [] && dst + s == q;
    }
  }

  /** Copying into an empty directory keeps the tree well formed. */
  lemma CopyWellFormed(e: Entries, src: Path, dst: Path)
    requires WellFormed(e) && dst in e && e[dst].Dir? && NothingBelow(e, dst)
    ensures WellFormed(CopyChildren(e, src, dst))
  {
    var r := Rerooted(e, src, dst, ChildNames(e, src));
    var c := CopyChildren(e, src, dst);
    forall q | q in c ensures IsDir(c, Parent(q)) {
      if q in r {
        CopiedParentIsDir(e, src, dst, q);
      } else {
        assert IsDir(e, Parent(q));
        CopyKeeps(e, src, dst);
      }
    }
  }

  /** The parent of a copied entry is `dst` or the copy of a directory. */
  lemma CopiedParentIsDir(e: Entries, src: Path, dst: Path, q: Path)
    requires WellFormed(e) && dst in e && e[dst].Dir? && NothingBelow(e, dst)
    requires q in Rerooted(e, src, dst, ChildNames(e, src))
    ensures IsDir(CopyChildren(e, src, dst), Parent(q))
  {
    var s := q[|dst|..];
    var p := src + s;
    assert q == dst + s && s != [];
    if |s| == 1 {
      assert Parent(q) == dst;
      CopyKeeps(e, src, dst);
    } else {
      assert IsDir(e, Parent(p)) && Parent(p) != [];
      assert Parent(p) == src + Parent(s);
      assert Parent(q) == dst + Parent(s);
      CopyMirrors(e, src, dst);
    }
  }

  lemma ChildPresent(e: Entries, src: Path, c: string)
    requires c in ChildNames(e, src)
    ensures src + [c] in e
  {
    var p :| p in e && |p| == |src| + 1 && src < p && p[|src|] == c;
    assert p == src + [c];
  }

  /** One loop step: a file child is copied as one entry, a directory child as its subtree. */
  lemma CopyLoopStep(e: Entries, src: Path, dst: Path, todo: set<string>, c: string)
    requires WellFormed(e) && c in todo && todo <= ChildNames(e, src)
    ensures src + [c] in e
    ensures var before, after := ChildNames(e, src) - todo, ChildNames(e, src) - (todo - {c});
      && (e[src + [c]].File? ==>
           (e + Rerooted(e, src, dst, before)) + map[dst + [c] := e[src + [c]]] == e + Rerooted(e, src, dst, after))
      && (e[src + [c]].Dir? ==>
           (e + Rerooted(e, src, dst, before)) + Rerooted(e, src, dst, {c}) == e + Rerooted(e, src, dst, after))
  {
    var done := ChildNames(e, src) - todo;
    assert ChildNames(e, src) - (todo - {c}) == done + {c};
    ChildPresent(e, src, c);
    CopyStep(e, src, dst, done, c);
    if e[src + [c]].File? {
      RerootedFile(e, src, dst, c);
    }
  }

  /** One more child copied. */
  lemma CopyStep(e: Entries, src: Path, dst: Path, done: set<string>, c: string)
    ensures (e + Rerooted(e, src, dst, done)) + Rerooted(e, src, dst, {c}) == e + Rerooted(e, src, dst, done + {c})
  {
    RerootedUnion(e, src, dst, done, c);
  }

  /** The file system the creator works on; it stays well formed. */
  class FileSystem {
    var entries: Entries

    ghost predicate Valid()
      reads this
    {
      WellFormed(entries)
    }

    constructor (initial: Entries)
      requires WellFormed(initial)
      ensures entries == initial && Valid()
    {
      entries := initial;
    }

    /** `p.mkdir(parents=True, exist_ok=True)`: fails, changing nothing, when a
        prefix of `p` is a file; otherwise makes the missing directories. */
    method MakeDirs(p: Path) returns (ok: bool)
      requires Valid()
      modifies this
      ensures Valid()
      ensures ok == !HasFilePrefix(old(entries), p)
      ensures entries == if ok then WithDirs(old(entries), p) else old(entries)
    {
      if HasFilePrefix(entries, p) {
        return false;
      }
      ghost var e0 := entries;
      var k := 0;
      while k < |p|
        invariant 0 <= k <= |p|
        invariant entries == WithDirs(e0, p[..k])
      {
        var q := p[..k + 1];
        assert Parent(q) == p[..k];
        if q !in entries {
          entries := entries[q := Dir];
        }
        k := k + 1;
      }
      assert p[..k] == p;
      WithDirsFacts(e0, p);
      return true;
    }

    /** `p.mkdir(exist_ok=True)`: fails when the parent is not a directory or
        `p` is a file; keeps an existing directory. */
    method MakeDir(p: Path) returns (ok: bool)
      requires Valid() && p != []
      modifies this
      ensures Valid()
      ensures ok == (IsDir(old(entries), Parent(p)) && !(p in old(entries) && old(entries)[p].File?))
      ensures entries == if ok && p !in old(entries) then old(entries)[p := Dir] else old(entries)
    {
      ok := IsDir(entries, Parent(p)) && !(p in entries && entries[p].File?);
      if ok && p !in entries {
        WriteKeepsWellFormed(entries, p, Dir);
        BelowMeansDir(entries, p);
        entries := entries[p := Dir];
      }
    }

    /** `p.touch()` (`exist_ok=True`): an existing path, file or directory,
        only has its times updated, so the call succeeds and changes nothing;
        a new path fails when its parent is not a directory and otherwise
        becomes an empty file. */
    method Touch(p: Path) returns (ok: bool)
      requires Valid() && p != []
      modifies this
      ensures Valid()
      ensures ok == (p in old(entries) || CanWrite(old(entries), p))
      ensures entries == if ok && p !in old(entries) then old(entries)[p := File(Text(""))] else old(entries)
    {
      ok := p in entries || CanWrite(entries, p);
      if ok && p !in entries {
        WriteKeepsWellFormed(entries, p, File(Text("")));
        entries := entries[p := File(Text(""))];
      }
    }

    /** `open(p, 'w').write(...)`: fails when the parent is not a directory or
        `p` is a directory; otherwise `p` holds `c`. */
    method WriteFile(p: Path, c: Content) returns (ok: bool)
      requires Valid()
      modifies this
      ensures Valid()
      ensures ok == CanWrite(old(entries), p)
      ensures entries == if ok then old(entries)[p := File(c)] else old(entries)
    {
      ok := CanWrite(entries, p);
      if ok {
        WriteKeepsWellFormed(entries, p, File(c));
        entries := entries[p := File(c)];
      }
    }

    /** The copy loop over `iterdir()` of `src`, in whatever order it lists
        the children: a file is copied into `dst` with `copy2`, a directory
        below `dst` under its own name with `copytree`. */
    method CopyChildrenOf(src: Path, dst: Path)
      requires Valid() && dst in entries && entries[dst].Dir? && NothingBelow(entries, dst)
      modifies this
      ensures Valid()
      ensures entries == CopyChildren(old(entries), src, dst)
    {
      var e0 := entries;
      var todo := ChildNames(e0, src);
      while todo != {}
        invariant todo <= ChildNames(e0, src)
        invariant entries == e0 + Rerooted(e0, src, dst, ChildNames(e0, src) - todo)
        decreases |todo|
      {
        var c :| c in todo;
        var item := src + [c];
        CopyLoopStep(e0, src, dst, todo, c);
        if e0[item].File? {
          entries := entries + map[dst + [c] := e0[item]];
        } else {
          entries := entries + Rerooted(e0, src, dst, {c});
        }
        todo := todo - {c};
      }
      assert ChildNames(e0, src) - todo == ChildNames(e0, src);
      CopyWellFormed(e0, src, dst);
    }
  }
}
