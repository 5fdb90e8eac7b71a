/** Spring's StringUtils.cleanPath, which the storage service applies to the
    client's file name before its ".." test. */
module SpringPaths {
  import opened JavaText

  /** The first step of cleanPath in Spring Framework 6: every pair of
      backslashes, found left to right, becomes one '/', then every backslash
      left becomes '/'. Both passes are done in one scan here. */
  function ReplaceBackslashes(s: string): (r: string)
    ensures |r| <= |s| && '\\' !in r
    ensures '\\' !in s ==> r == s
    ensures forall c | c in r :: c in s || c == '/'
    decreases |s|
  {
    if s == [] then []
    else if s[0] != '\\' then [s[0]] + ReplaceBackslashes(s[1..])
    else if |s| >= 2 && s[1] == '\\' then "/" + ReplaceBackslashes(s[2..])
    else "/" + ReplaceBackslashes(s[1..])
  }

  /** Text without a backslash passes through unchanged. */
  lemma {:induction false} ReplaceBackslashesAfter(x: string, rest: string)
    requires '\\' !in x
    ensures ReplaceBackslashes(x + rest) == x + ReplaceBackslashes(rest)
    decreases |x|
  {
    if x != [] {
      assert (x + rest)[1..] == x[1..] + rest;
      ReplaceBackslashesAfter(x[1..], rest);
    } else {
      assert x + rest == rest;
    }
  }

  /** A single backslash between two plain names becomes '/'. */
  lemma BackslashToSlash(x: string, y: string)
    requires '\\' !in x && '\\' !in y
    ensures ReplaceBackslashes(x + "\\" + y) == x + "/" + y
  {
    assert x + "\\" + y == x + ("\\" + y);
    ReplaceBackslashesAfter(x, "\\" + y);
    assert ("\\" + y)[1..] == y;
    assert y != [] ==> y[0] != '\\';
  }

  /** A double backslash between two plain names becomes a single '/', so
      a\\..\b and a/../b clean to the same path. */
  lemma DoubleBackslashToSlash(x: string, y: string)
    requires '\\' !in x && '\\' !in y
    ensures ReplaceBackslashes(x + "\\\\" + y) == x + "/" + y
  {
    assert x + "\\\\" + y == x + ("\\\\" + y);
    ReplaceBackslashesAfter(x, "\\\\" + y);
    assert ("\\\\" + y)[2..] == y;
  }

  /** The text between the '/'s of s, empty pieces included: at least one. */
  function Pieces(s: string): (r: seq<string>)
    ensures |r| >= 1
    decreases |s|
  {
    var k := IndexOfOrEnd(s, '/');
    if k == |s| then [s] else [s[..k]] + Pieces(s[k + 1..])
  }

  /** A character s does not hold is in none of its elements. */
  lemma ElementsWithout(s: string, c: char)
    requires c !in s
    ensures forall e | e in DelimitedList(s) :: c !in e
  {
    forall e | e in DelimitedList(s) ensures c !in e {
      if c in e {
        var i :| 0 <= i < |Pieces(s)| && Pieces(s)[i] == e;
        PiecesCharacters(s, i, c);
      }
    }
  }

  lemma {:induction false} PiecesCharacters(s: string, i: nat, c: char)
    requires i < |Pieces(s)| && c in Pieces(s)[i]
    ensures c in s
    decreases |s|
  {
    var k := IndexOfOrEnd(s, '/');
    if k < |s| {
      if i == 0 {
        assert c in s[..k];
      } else {
        PiecesCharacters(s[k + 1..], i - 1, c);
        assert c in s[k + 1..];
      }
    }
  }

  /** StringUtils.delimitedListToStringArray(s, "/"): nothing for the empty
      text, the pieces otherwise. */
  function DelimitedList(s: string): seq<string> {
    if s == [] then [] else Pieces(s)
  }

  /** The elements kept by the backward scan and the number of ".." steps
      still pending when it reaches the front. */
  datatype Collapsed = Collapsed(kept: seq<string>, tops: nat)

  /** The scan of cleanPath from the last element to the first: "." is
      dropped, ".." adds a pending step, and a name is cancelled by a
      pending step or kept. */
  function Collapse(elements: seq<string>): (c: Collapsed)
    ensures |c.kept| + c.tops <= |elements|
    ensures c.tops > 0 ==> ".." in elements
    ensures forall i | 0 <= i < |c.kept| :: c.kept[i] != "." && c.kept[i] != ".."
    decreases |elements|
  {
    if elements == [] then Collapsed([], 0)
    else
      var c := Collapse(elements[1..]);
      var e := elements[0];
      if e == "." then c
      else if e == ".." then Collapsed(c.kept, c.tops + 1)
      else if c.tops > 0 then Collapsed(c.kept, c.tops - 1)
      else Collapsed([e] + c.kept, 0)
  }

  /** The scan keeps only elements it was given. */
  lemma {:induction false} CollapseKeepsElements(elements: seq<string>)
    ensures forall e | e in Collapse(elements).kept :: e in elements
    decreases |elements|
  {
    if elements != [] {
      CollapseKeepsElements(elements[1..]);
    }
  }

  /** The part of a path cleanPath leaves aside: a "scheme:" ending at the
      first ':' when it holds no '/', then a leading '/'. */
  function PrefixLength(s: string): (n: nat)
    ensures n <= |s|
  {
    var colon := IndexOfOrEnd(s, ':');
    var p := if colon < |s| && '/' !in s[..colon + 1] then colon + 1 else 0;
    if p < |s| && s[p] == '/' then p + 1 else p
  }

  /** n copies of "..". */
  function ParentSteps(n: nat): (r: seq<string>)
    ensures |r| == n && forall i | 0 <= i < n :: r[i] == ".."
  {
    seq(n, _ => "..")
  }

  /** The elements cleanPath joins back together: the pending ".." steps,
      then the kept names; "." stands in front of a lone empty element
      unless the prefix ends with '/'. */
  function Shown(c: Collapsed, prefix: string): (r: seq<string>)
    ensures forall e | e in r :: e == "." || e == ".." || e in c.kept
  {
    var all := ParentSteps(c.tops) + c.kept;
    if |all| == 1 && all[0] == [] && !EndsWith(prefix, "/") then ["."] + all else all
  }

  /** StringUtils.cleanPath(path): the cleaned path never holds a
      backslash. */
  function CleanPath(path: string): (r: string)
    ensures '\\' !in r
  {
    if path == [] then path
    else
      var normalized := ReplaceBackslashes(path);
      if '.' !in normalized then normalized
      else
        var n := PrefixLength(normalized);
        var prefix := normalized[..n];
        var elements := DelimitedList(normalized[n..]);
        var c := Collapse(elements);
        if |c.kept| == |elements| then normalized
        else
          var shown := Shown(c, prefix);
          CollapseKeepsElements(elements);
          ElementsWithout(normalized[n..], '\\');
          JoinWithout(shown, "/", '\\');
          prefix + Join(shown, "/")
  }

  // ---------------------------------------------------------------------
  // properties
  // ---------------------------------------------------------------------

  lemma {:induction false} CollapseKeepsPlain(elements: seq<string>)
    requires forall i | 0 <= i < |elements| :: elements[i] != "." && elements[i] != ".."
    ensures Collapse(elements) == Collapsed(elements, 0)
    decreases |elements|
  {
    if elements != [] {
      CollapseKeepsPlain(elements[1..]);
      assert [elements[0]] + elements[1..] == elements;
    }
  }

  lemma PiecesAfterSlash(s: string)
    requires s != [] && s[0] == '/'
    ensures Pieces(s) == [""] + Pieces(s[1..])
  {
  }

  /** A name with no backslash, no ':' and no "." or ".." piece comes out of
      cleanPath as it went in. */
  lemma CleanPathKeepsPlainNames(s: string)
    requires '\\' !in s && ':' !in s
    requires forall i | 0 <= i < |Pieces(s)| :: Pieces(s)[i] != "." && Pieces(s)[i] != ".."
    ensures CleanPath(s) == s
  {
    if s != [] && '.' in s {
      var n := PrefixLength(s);
      assert IndexOfOrEnd(s, ':') == |s|;
      if s[0] == '/' {
        assert n == 1;
        PiecesAfterSlash(s);
        var rest := Pieces(s)[1..];
        assert forall i | 0 <= i < |rest| :: rest[i] == Pieces(s)[i + 1];
        if s[1..] != [] {
          CollapseKeepsPlain(Pieces(s[1..]));
        }
      } else {
        assert n == 0 && s[n..] == s;
        CollapseKeepsPlain(Pieces(s));
      }
    }
  }

  lemma JoinStartingWithParent(all: seq<string>) returns (rest: string)
    requires all != [] && all[0] == ".."
    ensures Join(all, "/") == ".." + rest
  {
    if |all| == 1 {
      rest := "";
    } else {
      rest := "/" + Join(all[1..], "/");
    }
  }

  /** A name whose ".." steps climb above its first element keeps a ".."
      after cleaning, so the storage service's ".." test sees it. */
  lemma CleanPathKeepsClimbing(path: string)
    requires path != []
    requires var normalized := ReplaceBackslashes(path);
      Collapse(DelimitedList(normalized[PrefixLength(normalized)..])).tops > 0
    ensures Contains(CleanPath(path), "..")
  {
    var prefix, all := CleanPathOfClimb(path);
    var rest := JoinStartingWithParent(all);
    assert CleanPath(path) == prefix + ".." + rest;
    ContainsAfter(prefix, "..", rest);
  }

  /** When ".." steps are left over, cleanPath writes them first. */
  lemma CleanPathOfClimb(path: string) returns (prefix: string, all: seq<string>)
    requires path != []
    requires var normalized := ReplaceBackslashes(path);
      Collapse(DelimitedList(normalized[PrefixLength(normalized)..])).tops > 0
    ensures all != [] && all[0] == ".." && CleanPath(path) == prefix + Join(all, "/")
  {
    var normalized := ReplaceBackslashes(path);
    var n := PrefixLength(normalized);
    var elements := DelimitedList(normalized[n..]);
    var c := Collapse(elements);
    prefix := normalized[..n];
    all := ParentSteps(c.tops) + c.kept;
    assert '.' in normalized by {
      var i :| 0 <= i < |elements| && elements[i] == "..";
      assert '.' in elements[i];
      PiecesCharacters(normalized[n..], i, '.');
      assert '.' in normalized[n..];
    }
    assert Shown(c, prefix) == all;
  }
}
