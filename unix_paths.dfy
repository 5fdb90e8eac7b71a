/** java.nio.file.Path on a Unix file system, as far as the storage service
    uses it: Paths.get, resolve, normalize, toAbsolutePath and toString.
    Names are compared as text; symbolic links are not modelled. */
module UnixPaths {
  import opened JavaText

  /** A path: whether it starts at the file-system root, then its names. */
  datatype Path = Path(absolute: bool, names: seq<string>)

  const FileSystemRoot: Path := Path(true, [])

  /** A name element: not empty and without a separator. */
  predicate IsName(n: string) {
    n != [] && '/' !in n
  }

  predicate WellFormed(p: Path) {
    forall i | 0 <= i < |p.names| :: IsName(p.names[i])
  }

  // ---------------------------------------------------------------------
  // Paths.get and Path.toString
  // ---------------------------------------------------------------------

  /** The names of a path string: the text between separators, with the
      empty pieces that "//" and a trailing '/' would give dropped. */
  function Names(s: string): (r: seq<string>)
    ensures forall i | 0 <= i < |r| :: IsName(r[i])
    decreases |s|
  {
    if s == [] then []
    else
      var k := IndexOfOrEnd(s, '/');
      var rest := if k < |s| then Names(s[k + 1..]) else [];
      if k == 0 then rest else [s[..k]] + rest
  }

  /** Paths.get(s). */
  function Parse(s: string): (p: Path)
    ensures WellFormed(p)
  {
    Path(s != [] && s[0] == '/', Names(s))
  }

  /** Path.toString(): a leading '/' when absolute, then the names joined
      by '/'. The text starts with '/' exactly when the path is absolute. */
  function ToString(p: Path): (r: string)
    ensures p.absolute ==> r != [] && r[0] == '/'
    ensures !p.absolute && WellFormed(p) ==> r == [] || r[0] != '/'
  {
    JoinStartsWithFirst(p.names, "/");
    (if p.absolute then "/" else "") + Join(p.names, "/")
  }

  lemma IndexOfSeparator(a: string, b: string)
    requires '/' !in a
    ensures IndexOfOrEnd(a + "/" + b, '/') == |a|
    ensures IndexOfOrEnd(a, '/') == |a|
  {
    var s := a + "/" + b;
    assert s[|a|] == '/';
  }

  /** A leading '/' adds no name. */
  lemma NamesAfterSlash(s: string)
    ensures Names("/" + s) == Names(s)
  {
    assert ("/" + s)[1..] == s;
    assert IndexOfOrEnd("/" + s, '/') == 0;
  }

  /** IndexOfOrEnd is the first occurrence: any k before which c does not
      occur and at which c occurs (or the text ends) is it. */
  lemma FirstSeparator(s: string, k: nat)
    requires k <= |s| && '/' !in s[..k] && (k < |s| ==> s[k] == '/')
    ensures IndexOfOrEnd(s, '/') == k
  {
  }

  /** One step of Names: the piece before the first '/' (unless empty),
      then the names after it. */
  lemma NamesAt(s: string, k: nat)
    requires s != [] && k <= |s| && '/' !in s[..k] && (k < |s| ==> s[k] == '/')
    ensures Names(s) == (if k == 0 then [] else [s[..k]]) + (if k < |s| then Names(s[k + 1..]) else [])
  {
    FirstSeparator(s, k);
  }

  /** Paths.get splits at every '/': the names of a/b are the names of a
      followed by the names of b, whatever redundant slashes either holds. */
  lemma {:induction false} NamesSplit(a: string, b: string)
    ensures Names(a + "/" + b) == Names(a) + Names(b)
    decreases |a|
  {
    if a == [] {
      assert a + "/" + b == "/" + b;
      NamesAfterSlash(b);
      assert Names(a) + Names(b) == Names(b);
    } else if IndexOfOrEnd(a, '/') == |a| {
      NamesSplitLastPiece(a, b);
    } else {
      var k := IndexOfOrEnd(a, '/');
      var tail := a[k + 1..];
      var head := NamesSplitFirstPiece(a, b, k);
      NamesSplit(tail, b);
      ConcatAssoc(head, Names(tail), Names(b));
    }
  }

  /** NamesSplit when a holds no '/': a is one name. */
  lemma NamesSplitLastPiece(a: string, b: string)
    requires a != [] && IndexOfOrEnd(a, '/') == |a|
    ensures Names(a + "/" + b) == Names(a) + Names(b)
  {
    var s := a + "/" + b;
    var k := |a|;
    assert s[..k] == a && a[..k] == a;
    NamesAt(a, k);
    NamesAt(s, k);
    assert s[k + 1..] == b;
    assert Names(a) == [a];
  }

  /** NamesSplit peeling off the text before the first '/' of a. */
  lemma NamesSplitFirstPiece(a: string, b: string, k: nat) returns (head: seq<string>)
    requires a != [] && k == IndexOfOrEnd(a, '/') && k < |a|
    ensures Names(a + "/" + b) == head + Names(a[k + 1..] + "/" + b)
    ensures Names(a) == head + Names(a[k + 1..])
  {
    head := if k == 0 then [] else [a[..k]];
    NamesAt(a, k);
    FirstPieceAfterSlash(a, b, k);
  }

  lemma FirstPieceAfterSlash(a: string, b: string, k: nat)
    requires k == IndexOfOrEnd(a, '/') && k < |a|
    ensures Names(a + "/" + b) == (if k == 0 then [] else [a[..k]]) + Names(a[k + 1..] + "/" + b)
  {
    var s := a + "/" + b;
    assert s[..k] == a[..k];
    assert s[k] == a[k];
    NamesAt(s, k);
    assert s[k + 1..] == a[k + 1..] + "/" + b;
  }

  lemma ConcatAssoc(x: seq<string>, y: seq<string>, z: seq<string>)
    ensures x + (y + z) == (x + y) + z
  {
  }

  lemma {:induction false} NamesOfJoinRelative(ns: seq<string>)
    requires forall i | 0 <= i < |ns| :: IsName(ns[i])
    ensures Names(Join(ns, "/")) == ns
    decreases |ns|
  {
    var j := Join(ns, "/");
    if |ns| == 1 {
      IndexOfSeparator(ns[0], "");
      assert j == ns[0] && j[..|j|] == j;
    } else if |ns| > 1 {
      var rest := Join(ns[1..], "/");
      assert j == ns[0] + "/" + rest;
      IndexOfSeparator(ns[0], rest);
      assert j[..|ns[0]|] == ns[0];
      assert j[|ns[0]| + 1..] == rest;
      NamesOfJoinRelative(ns[1..]);
      assert [ns[0]] + ns[1..] == ns;
    }
  }

  /** Names joined by '/', with or without a leading '/', read back as
      those names. */
  lemma NamesOfJoin(ns: seq<string>)
    requires forall i | 0 <= i < |ns| :: IsName(ns[i])
    ensures Names(Join(ns, "/")) == ns
    ensures Names("/" + Join(ns, "/")) == ns
  {
    NamesOfJoinRelative(ns);
    NamesAfterSlash(Join(ns, "/"));
  }

  /** Paths.get reads back what toString writes. */
  lemma ParseToString(p: Path)
    requires WellFormed(p)
    ensures Parse(ToString(p)) == p
  {
    NamesOfJoin(p.names);
    var j := Join(p.names, "/");
    if p.absolute {
      assert ToString(p) == "/" + j;
    } else {
      assert ToString(p) == j;
      if p.names != [] {
        assert |p.names| == 1 || j == p.names[0] + "/" + Join(p.names[1..], "/");
        assert j[0] == p.names[0][0];
      }
    }
  }

  /** Path.resolve of one name adds '/' and the name to the text of a path
      that has names. */
  lemma ToStringAppendName(p: Path, n: string)
    requires p.names != []
    ensures ToString(Path(p.absolute, p.names + [n])) == ToString(p) + "/" + n
  {
    JoinAppend(p.names, "/", n);
    var pre := if p.absolute then "/" else "";
    assert pre + (Join(p.names, "/") + "/" + n) == pre + Join(p.names, "/") + "/" + n;
  }

  /** A path string that does not contain ".." has no ".." name. */
  lemma {:induction false} NamesWithoutParentReference(s: string)
    requires !Contains(s, "..")
    ensures ".." !in Names(s)
    decreases |s|
  {
    if s != [] {
      var k := IndexOfOrEnd(s, '/');
      if k < |s| {
        if Contains(s[k + 1..], "..") {
          ContainsSuffix(s, k + 1, "..");
        }
        NamesWithoutParentReference(s[k + 1..]);
      }
    }
  }

  // ---------------------------------------------------------------------
  // Path.resolve, Path.normalize, Path.toAbsolutePath
  // ---------------------------------------------------------------------

  /** base.resolve(other): an absolute other replaces base, a relative one
      is appended to it. */
  function Resolve(base: Path, other: Path): (r: Path)
    ensures other.absolute ==> r == other
    ensures !other.absolute ==> Within(r, base) && r.names[|base.names|..] == other.names
    ensures WellFormed(base) && WellFormed(other) ==> WellFormed(r)
  {
    if other.absolute then other else Path(base.absolute, base.names + other.names)
  }

  /** One name of normalize(): "." is dropped, ".." cancels the name before
      it; a ".." with nothing to cancel is dropped at the root of an
      absolute path and kept in a relative one. */
  function Step(absolute: bool, acc: seq<string>, n: string): seq<string> {
    if n == "." then acc
    else if n == ".." then
      if acc != [] && acc[|acc| - 1] != ".." then acc[..|acc| - 1]
      else if absolute then acc
      else acc + [n]
    else acc + [n]
  }

  /** The names ns stepped through from left to right, starting from acc. */
  function Fold(absolute: bool, acc: seq<string>, ns: seq<string>): seq<string>
    decreases |ns|
  {
    if ns == [] then acc else Step(absolute, Fold(absolute, acc, ns[..|ns| - 1]), ns[|ns| - 1])
  }

  /** Path.normalize(): no "." is left, no name is added, and an absolute
      path keeps no ".." either; without a ".." only the "." names go. */
  function Normalize(p: Path): (r: Path)
    ensures r.absolute == p.absolute
    ensures NoDot(r.names) && |r.names| <= |p.names|
    ensures forall n | n in r.names :: n in p.names
    ensures r.absolute ==> NoParent(r.names)
    ensures NoParent(p.names) ==> r.names == NonDot(p.names)
  {
    FoldFromRoot(p.absolute, p.names);
    Path(p.absolute, Fold(p.absolute, [], p.names))
  }

  /** Path.toAbsolutePath(): a relative path is resolved against the
      working directory of the process. */
  function ToAbsolute(cwd: Path, p: Path): (r: Path)
    requires cwd.absolute
    ensures r.absolute
    ensures p.absolute ==> r == p
    ensures !p.absolute ==> Within(r, cwd) && r.names[|cwd.names|..] == p.names
  {
    if p.absolute then p else Resolve(cwd, p)
  }

  /** The absolute path with no "." or ".." left that the operating system
      reaches from p: the key the file system is indexed by. */
  function Canon(cwd: Path, p: Path): (r: Path)
    requires cwd.absolute
    ensures r.absolute && Plain(r.names)
  {
    FoldAbsoluteIsPlain([], ToAbsolute(cwd, p).names);
    Normalize(ToAbsolute(cwd, p))
  }

  /** p is dir or lies below it. */
  predicate Within(p: Path, dir: Path) {
    p.absolute == dir.absolute && |dir.names| <= |p.names| && p.names[..|dir.names|] == dir.names
  }

  /** Path.getParent() of a path that has a name. */
  function Parent(p: Path): Path
    requires p.names != []
  {
    Path(p.absolute, p.names[..|p.names| - 1])
  }

  // ---------------------------------------------------------------------
  // normalize: algebra of Fold
  // ---------------------------------------------------------------------

  predicate NoDot(ns: seq<string>) {
    forall i | 0 <= i < |ns| :: ns[i] != "."
  }

  predicate NoParent(ns: seq<string>) {
    forall i | 0 <= i < |ns| :: ns[i] != ".."
  }

  predicate Plain(ns: seq<string>) {
    NoDot(ns) && NoParent(ns)
  }

  /** ns without its "." names. */
  function NonDot(ns: seq<string>): (r: seq<string>)
    ensures NoDot(r) && |r| <= |ns|
    ensures NoParent(ns) ==> NoParent(r)
    decreases |ns|
  {
    if ns == [] then []
    else NonDot(ns[..|ns| - 1]) + (if ns[|ns| - 1] == "." then [] else [ns[|ns| - 1]])
  }

  lemma {:induction false} NonDotOfPlain(ns: seq<string>)
    requires Plain(ns)
    ensures NonDot(ns) == ns
    decreases |ns|
  {
    if ns != [] {
      NonDotOfPlain(ns[..|ns| - 1]);
      assert ns[..|ns| - 1] + [ns[|ns| - 1]] == ns;
    }
  }

  /** Normalizing a + b is normalizing b after a. */
  /** What folding a path's names from nothing gives. */
  lemma FoldFromRoot(absolute: bool, ns: seq<string>)
    ensures var f := Fold(absolute, [], ns);
      && NoDot(f) && |f| <= |ns| && (forall n | n in f :: n in ns)
      && (absolute ==> NoParent(f))
      && (NoParent(ns) ==> f == NonDot(ns))
  {
    FoldKeepsNoDot(absolute, [], ns);
    FoldShrinks(absolute, [], ns);
    if absolute {
      FoldAbsoluteIsPlain([], ns);
    }
    if NoParent(ns) {
      FoldWithoutParent(absolute, [], ns);
    }
  }

  /** Folding adds no name of its own and never lengthens the path. */
  lemma {:induction false} FoldShrinks(absolute: bool, acc: seq<string>, ns: seq<string>)
    ensures |Fold(absolute, acc, ns)| <= |acc| + |ns|
    ensures forall n | n in Fold(absolute, acc, ns) :: n in acc || n in ns
    decreases |ns|
  {
    if ns != [] {
      var init := ns[..|ns| - 1];
      FoldShrinks(absolute, acc, init);
      var f := Fold(absolute, acc, init);
      var last := ns[|ns| - 1];
      forall n | n in Step(absolute, f, last) ensures n in acc || n in ns {
        if n != last {
          assert n in f;
          if n in init {
            var i :| 0 <= i < |init| && init[i] == n;
            assert ns[i] == n;
          }
        }
      }
    }
  }

  lemma {:induction false} FoldAppend(absolute: bool, acc: seq<string>, a: seq<string>, b: seq<string>)
    ensures Fold(absolute, acc, a + b) == Fold(absolute, Fold(absolute, acc, a), b)
    decreases |b|
  {
    if b == [] {
      assert a + b == a;
    } else {
      assert (a + b)[..|a + b| - 1] == a + b[..|b| - 1];
      FoldAppend(absolute, acc, a, b[..|b| - 1]);
    }
  }

  /** Without "..", normalize only drops the "." names. */
  lemma {:induction false} FoldWithoutParent(absolute: bool, acc: seq<string>, ns: seq<string>)
    requires NoParent(ns)
    ensures Fold(absolute, acc, ns) == acc + NonDot(ns)
    decreases |ns|
  {
    if ns != [] {
      FoldWithoutParent(absolute, acc, ns[..|ns| - 1]);
    }
  }

  lemma {:induction false} FoldKeepsNoDot(absolute: bool, acc: seq<string>, ns: seq<string>)
    requires NoDot(acc)
    ensures NoDot(Fold(absolute, acc, ns))
    decreases |ns|
  {
    if ns != [] {
      FoldKeepsNoDot(absolute, acc, ns[..|ns| - 1]);
    }
  }

  /** An absolute path normalizes to names with no "." and no "..". */
  lemma {:induction false} FoldAbsoluteIsPlain(acc: seq<string>, ns: seq<string>)
    requires Plain(acc)
    ensures Plain(Fold(true, acc, ns))
    decreases |ns|
  {
    if ns != [] {
      FoldAbsoluteIsPlain(acc, ns[..|ns| - 1]);
    }
  }

  lemma StepAfterRelative(absolute: bool, st: seq<string>, q: seq<string>, n: string)
    requires NoDot(q)
    ensures Fold(absolute, st, Step(false, q, n)) == Step(absolute, Fold(absolute, st, q), n)
  {
    if n == ".." && q != [] && q[|q| - 1] != ".." {
      var init := q[..|q| - 1];
      assert init + [q[|q| - 1]] == q;
      FoldAppend(absolute, st, init, [q[|q| - 1]]);
      assert Fold(absolute, st, q) == Fold(absolute, st, init) + [q[|q| - 1]];
    } else if n != "." {
      FoldAppend(absolute, st, q, [n]);
    }
  }

  /** Normalizing a relative path first, then continuing from st, is the
      same as continuing from st with the path as it was. */
  lemma {:induction false} FoldAfterRelative(absolute: bool, st: seq<string>, racc: seq<string>, r: seq<string>)
    requires NoDot(racc)
    ensures Fold(absolute, st, Fold(false, racc, r)) == Fold(absolute, Fold(absolute, st, racc), r)
    decreases |r|
  {
    if r != [] {
      var init := r[..|r| - 1];
      FoldAfterRelative(absolute, st, racc, init);
      FoldKeepsNoDot(false, racc, init);
      StepAfterRelative(absolute, st, Fold(false, racc, init), r[|r| - 1]);
    }
  }

  /** normalize() is idempotent. */
  /** A ".." cancels the name just before it: normalize treats
      a/n/../b like a/b, in absolute and relative paths alike. */
  lemma NormalizeCancels(absolute: bool, a: seq<string>, n: string, b: seq<string>)
    requires n != "." && n != ".."
    ensures Normalize(Path(absolute, a + [n, ".."] + b)) == Normalize(Path(absolute, a + b))
  {
    FoldAppend(absolute, [], a + [n, ".."], b);
    FoldAppend(absolute, [], a, b);
    FoldAppend(absolute, [], a, [n, ".."]);
    var f := Fold(absolute, [], a);
    assert [n, ".."][..1] == [n];
    assert [n][..0] == [];
    assert Fold(absolute, f, [n]) == f + [n];
    assert (f + [n])[..|f|] == f;
    assert Fold(absolute, f, [n, ".."]) == f;
  }

  /** A "." name is dropped wherever it stands: a/./b normalizes like a/b. */
  lemma NormalizeDropsDot(absolute: bool, a: seq<string>, b: seq<string>)
    ensures Normalize(Path(absolute, a + ["."] + b)) == Normalize(Path(absolute, a + b))
  {
    FoldAppend(absolute, [], a + ["."], b);
    FoldAppend(absolute, [], a, b);
    FoldAppend(absolute, [], a, ["."]);
    assert ["."][..0] == [];
  }

  lemma NormalizeIdempotent(p: Path)
    ensures Normalize(Normalize(p)) == Normalize(p)
  {
    if p.absolute {
      FoldAbsoluteIsPlain([], p.names);
      FoldWithoutParent(true, [], Fold(true, [], p.names));
      NonDotOfPlain(Fold(true, [], p.names));
    } else {
      FoldAfterRelative(false, [], [], p.names);
    }
  }

  /** Normalizing a path before making it absolute does not change the
      place it denotes. */
  lemma CanonOfNormalize(cwd: Path, p: Path)
    requires cwd.absolute
    ensures Canon(cwd, Normalize(p)) == Canon(cwd, p)
  {
    if p.absolute {
      NormalizeIdempotent(p);
    } else {
      FoldAppend(true, [], cwd.names, Fold(false, [], p.names));
      FoldAfterRelative(true, Fold(true, [], cwd.names), [], p.names);
      FoldAppend(true, [], cwd.names, p.names);
    }
  }
}
