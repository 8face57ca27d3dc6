/**
  The parts of Python's `posixpath` the file handlers rely on: `join`,
  `normpath`, `abspath`, `dirname` and `split`, written out over strings.
  The current working directory, which `abspath` reads from the process, is
  a parameter.
 */
module PosixPath {
  import opened Text

  /** `os.path.isabs`: the path starts with a slash. */
  predicate IsAbs(p: string)
  {
    |p| > 0 && p[0] == '/'
  }

  /** `os.path.join(a, b)`: an absolute `b` replaces `a`, otherwise one slash separates them. */
  function JoinPath(a: string, b: string): string
  {
    if IsAbs(b) then b
    else if a == "" || a[|a| - 1] == '/' then a + b
    else a + "/" + b
  }

  /** The leading slashes `normpath` keeps: exactly two are kept, three or more become one. */
  function LeadingSlashes(p: string): (r: string)
    ensures r == "" || r == "/" || r == "//"
    ensures r != "" <==> IsAbs(p)
  {
    if !IsAbs(p) then ""
    else if |p| >= 2 && p[1] == '/' && !(|p| >= 3 && p[2] == '/') then "//"
    else "/"
  }

  /**
    The component rule of `normpath`, applied left to right to the pieces of
    the path: empty pieces and "." vanish, ".." removes the previous kept
    component, and is kept itself only at the start of a relative path or
    after another kept "..".
   */
  function Collapse(comps: seq<string>, acc: seq<string>, rooted: bool): seq<string>
    decreases |comps|
  {
    if comps == [] then acc
    else
      var c := comps[0];
      var next :=
        if c == "" || c == "." then acc
        else if c != ".." || (!rooted && acc == []) || (acc != [] && acc[|acc| - 1] == "..") then acc + [c]
        else if acc != [] then acc[..|acc| - 1]
        else acc;
      Collapse(comps[1..], next, rooted)
  }

  /** The components `normpath` keeps for a path. */
  function Components(p: string): seq<string>
  {
    Collapse(SplitOn(p, '/'), [], IsAbs(p))
  }

  /** `os.path.normpath`. */
  function NormPath(p: string): (r: string)
    ensures r != ""
  {
    if p == "" then "."
    else
      var r := LeadingSlashes(p) + Join(Components(p), "/");
      if r == "" then "." else r
  }

  /** The absolute path `abspath` normalises: a relative path is joined to the working directory. */
  function Anchor(p: string, cwd: string): string
  {
    if IsAbs(p) then p else JoinPath(cwd, p)
  }

  /** `os.path.abspath`, with the working directory as a parameter. */
  function AbsPath(p: string, cwd: string): string
  {
    NormPath(Anchor(p, cwd))
  }

  /** `p.rfind(c) + 1`: the position just after the last `c`, or 0 when there is none. */
  function AfterLast(p: string, c: char): (r: nat)
    ensures r <= |p|
    ensures r > 0 ==> p[r - 1] == c
    ensures c !in p[r..]
  {
    if p == [] then 0
    else if p[|p| - 1] == c then |p|
    else
      var r := AfterLast(p[..|p| - 1], c);
      assert p[r..] == p[..|p| - 1][r..] + [p[|p| - 1]];
      r
  }

  /** `s.rstrip(c)`. */
  function TrimEndChar(s: string, c: char): (r: string)
    ensures |r| <= |s| && r == s[..|r|]
    ensures forall k :: |r| <= k < |s| ==> s[k] == c
    ensures r == [] || r[|r| - 1] != c
  {
    if s != [] && s[|s| - 1] == c then TrimEndChar(s[..|s| - 1], c) else s
  }

  /** The head `split` and `dirname` return: the text up to the last slash, without trailing slashes unless it is all slashes. */
  function PathHead(p: string): (r: string)
    ensures |r| <= AfterLast(p, '/') && r == p[..|r|]
  {
    var head := p[..AfterLast(p, '/')];
    if head != "" && exists k :: 0 <= k < |head| && head[k] != '/' then TrimEndChar(head, '/') else head
  }

  /** `os.path.dirname`. */
  function DirName(p: string): string
  {
    PathHead(p)
  }

  /** `os.path.split`: the head and the last component. */
  function SplitPath(p: string): (r: (string, string))
    ensures r.1 == p[AfterLast(p, '/')..] && '/' !in r.1
    ensures r.1 != "" ==> |r.0| < |p|
  {
    (PathHead(p), p[AfterLast(p, '/')..])
  }

  /** A component `normpath` keeps in an absolute path. */
  predicate Segment(c: string)
  {
    c != "" && c != "." && c != ".." && '/' !in c
  }

  /** In an absolute path every component kept is a proper name. */
  lemma {:induction false} CollapseRooted(comps: seq<string>, acc: seq<string>)
    requires forall k :: 0 <= k < |comps| ==> '/' !in comps[k]
    requires forall k :: 0 <= k < |acc| ==> Segment(acc[k])
    ensures forall k :: 0 <= k < |Collapse(comps, acc, true)| ==> Segment(Collapse(comps, acc, true)[k])
    decreases |comps|
  {
    if comps != [] {
      var c := comps[0];
      var next :=
        if c == "" || c == "." then acc
        else if c != ".." || (acc != [] && acc[|acc| - 1] == "..") then acc + [c]
        else if acc != [] then acc[..|acc| - 1]
        else acc;
      assert Collapse(comps, acc, true) == Collapse(comps[1..], next, true);
      assert forall k :: 0 <= k < |next| ==> Segment(next[k]);
      CollapseRooted(comps[1..], next);
    }
  }

  /** `normpath` of an absolute path keeps only proper names, so it never climbs above the root. */
  lemma ComponentsOfAbsolute(p: string)
    requires IsAbs(p)
    ensures forall k :: 0 <= k < |Components(p)| ==> Segment(Components(p)[k])
  {
    CollapseRooted(SplitOn(p, '/'), []);
  }

  /** Collapsing two runs of pieces is collapsing the second from where the first stopped. */
  lemma {:induction false} CollapseAppend(a: seq<string>, b: seq<string>, acc: seq<string>, rooted: bool)
    ensures Collapse(a + b, acc, rooted) == Collapse(b, Collapse(a, acc, rooted), rooted)
    decreases |a|
  {
    if a == [] {
      assert a + b == b;
    } else {
      assert (a + b)[0] == a[0] && (a + b)[1..] == a[1..] + b;
      var c := a[0];
      var next :=
        if c == "" || c == "." then acc
        else if c != ".." || (!rooted && acc == []) || (acc != [] && acc[|acc| - 1] == "..") then acc + [c]
        else if acc != [] then acc[..|acc| - 1]
        else acc;
      CollapseAppend(a[1..], b, next, rooted);
    }
  }

  /** Pieces without ".." only add components: what was kept so far stays a prefix. */
  lemma {:induction false} CollapseDescends(comps: seq<string>, acc: seq<string>, rooted: bool)
    requires forall k :: 0 <= k < |comps| ==> comps[k] != ".."
    ensures acc <= Collapse(comps, acc, rooted)
    decreases |comps|
  {
    if comps != [] {
      var c := comps[0];
      var next := if c == "" || c == "." then acc else acc + [c];
      assert c != "..";
      assert Collapse(comps, acc, rooted) == Collapse(comps[1..], next, rooted);
      assert forall k :: 0 <= k < |comps[1..]| ==> comps[1..][k] == comps[k + 1];
      CollapseDescends(comps[1..], next, rooted);
    }
  }

  /** Joining two non-empty runs puts one separator between them. */
  lemma {:induction false} JoinAppend(a: seq<string>, b: seq<string>, sep: string)
    requires a != [] && b != []
    ensures Join(a + b, sep) == Join(a, sep) + sep + Join(b, sep)
    decreases |a|
  {
    if |a| > 1 {
      assert (a + b)[1..] == a[1..] + b;
      JoinAppend(a[1..], b, sep);
    } else {
      assert (a + b)[1..] == b;
    }
  }

  /** The joined text of a run of components starts with the joined text of any prefix of it. */
  lemma JoinPrefix(a: seq<string>, b: seq<string>, sep: string)
    requires a <= b
    ensures StartsWith(Join(b, sep), Join(a, sep))
  {
    if a != [] && |a| < |b| {
      assert b == a + b[|a|..];
      JoinAppend(a, b[|a|..], sep);
    } else if a != [] {
      assert a == b;
    }
  }

  /** Joining a relative path under an absolute one keeps its leading slashes. */
  lemma LeadingSlashesOfJoin(p: string, rel: string)
    requires IsAbs(p) && !IsAbs(rel)
    ensures LeadingSlashes(JoinPath(p, rel)) == LeadingSlashes(p)
  {
    var f := JoinPath(p, rel);
    assert f[..|p|] == p;
    if |p| < 3 && p[|p| - 1] != '/' {
      assert f == p + "/" + rel;
    }
  }

  /** The components of a relative path joined under another continue the other's. */
  lemma ComponentsOfJoin(p: string, rel: string)
    requires p != "" && !IsAbs(rel)
    ensures var rooted := IsAbs(p);
      Collapse(SplitOn(JoinPath(p, rel), '/'), [], rooted)
        == Collapse(SplitOn(rel, '/'), Collapse(SplitOn(p, '/'), [], rooted), rooted)
  {
    var rooted := IsAbs(p);
    if p[|p| - 1] == '/' {
      var q := p[..|p| - 1];
      assert p == q + "/" + "";
      assert JoinPath(p, rel) == q + "/" + rel;
      SplitOnAppend(q, "", '/');
      SplitOnAppend(q, rel, '/');
      CollapseAppend(SplitOn(q, '/'), [""], [], rooted);
      CollapseAppend(SplitOn(q, '/'), SplitOn(rel, '/'), [], rooted);
    } else {
      assert JoinPath(p, rel) == p + "/" + rel;
      SplitOnAppend(p, rel, '/');
      CollapseAppend(SplitOn(p, '/'), SplitOn(rel, '/'), [], rooted);
    }
  }

  /** Anchoring a joined relative path is joining it under the anchored directory. */
  lemma AnchorOfJoin(dir: string, rel: string, cwd: string)
    requires dir != "" && !IsAbs(rel)
    ensures Anchor(JoinPath(dir, rel), cwd) == JoinPath(Anchor(dir, cwd), rel)
    ensures IsAbs(JoinPath(dir, rel)) == IsAbs(dir)
  {
  }

  /**
    A relative path with no ".." component, joined under a directory,
    normalises to a path that starts with the normalised directory.
   */
  lemma DescendantInside(dir: string, rel: string, cwd: string)
    requires IsAbs(cwd) && dir != "" && !IsAbs(rel)
    requires forall k :: 0 <= k < |SplitOn(rel, '/')| ==> SplitOn(rel, '/')[k] != ".."
    ensures StartsWith(AbsPath(JoinPath(dir, rel), cwd), AbsPath(dir, cwd))
  {
    var p := Anchor(dir, cwd);
    AnchorOfJoin(dir, rel, cwd);
    assert IsAbs(p);
    NormalisedDescendant(p, rel);
  }

  /** Under an absolute path, a relative path with no ".." component normalises to an extension of it. */
  lemma NormalisedDescendant(p: string, rel: string)
    requires IsAbs(p) && !IsAbs(rel)
    requires forall k :: 0 <= k < |SplitOn(rel, '/')| ==> SplitOn(rel, '/')[k] != ".."
    ensures StartsWith(NormPath(JoinPath(p, rel)), NormPath(p))
  {
    var f := JoinPath(p, rel);
    assert IsAbs(f);
    LeadingSlashesOfJoin(p, rel);
    ComponentsOfJoin(p, rel);
    CollapseDescends(SplitOn(rel, '/'), Components(p), true);
    JoinPrefix(Components(p), Components(f), "/");
    NormPathAbsolute(p);
    NormPathAbsolute(f);
    SamePrefixStartsWith(LeadingSlashes(p), Join(Components(f), "/"), Join(Components(p), "/"));
  }

  /** Putting the same text in front of both keeps a prefix a prefix. */
  lemma SamePrefixStartsWith(a: string, s: string, t: string)
    requires StartsWith(s, t)
    ensures StartsWith(a + s, a + t)
  {
    assert (a + s)[..|a + t|] == a + s[..|t|];
  }

  /** Removing the last of a non-empty run of non-empty names shortens its joined text. */
  lemma JoinDropLast(a: seq<string>, sep: string)
    requires a != [] && a[|a| - 1] != ""
    ensures |Join(a[..|a| - 1], sep)| < |Join(a, sep)|
  {
    if |a| > 1 {
      assert a == a[..|a| - 1] + [a[|a| - 1]];
      JoinAppend(a[..|a| - 1], [a[|a| - 1]], sep);
    }
  }

  /**
    The parent of a directory other than the root normalises to a shorter
    path, so it never starts with the directory.
   */
  lemma ParentOutside(dir: string, cwd: string)
    requires IsAbs(cwd) && dir != ""
    requires AbsPath(dir, cwd) != "/" && AbsPath(dir, cwd) != "//"
    ensures !StartsWith(AbsPath(JoinPath(dir, ".."), cwd), AbsPath(dir, cwd))
  {
    var p := Anchor(dir, cwd);
    AnchorOfJoin(dir, "..", cwd);
    var f := JoinPath(p, "..");
    LeadingSlashesOfJoin(p, "..");
    ComponentsOfJoin(p, "..");
    ComponentsOfAbsolute(p);
    var a := Components(p);
    assert a != [];
    assert SplitOn("..", '/') == [".."];
    assert Components(f) == a[..|a| - 1];
    JoinDropLast(a, "/");
  }

  /** A name appended to a path adds one component. */
  lemma ComponentsOfChild(base: string, name: string)
    requires IsAbs(base) || base == ""
    requires Segment(name)
    ensures Components(base + "/" + name) == Collapse(SplitOn(base, '/'), [], true) + [name]
  {
    assert SplitOn(name, '/') == [name];
    SplitOnAppend(base, name, '/');
    CollapseAppend(SplitOn(base, '/'), [name], [], true);
  }

  /** Climbing out of the last component and descending into another swaps that component. */
  lemma ClimbThenDescend(acc: seq<string>, name: string, other: string)
    requires Segment(name) && Segment(other)
    ensures Collapse(["..", other], acc + [name], true) == acc + [other]
  {
    var a := acc + [name];
    assert a[..|a| - 1] == acc;
    assert Collapse(["..", other], a, true) == Collapse([other], acc, true);
    assert Collapse([other], acc, true) == Collapse([], acc + [other], true);
  }

  /** Extending the last component's text extends the joined text by the same characters. */
  lemma JoinExtendLast(a: seq<string>, name: string, suffix: string, sep: string)
    ensures Join(a + [name + suffix], sep) == Join(a + [name], sep) + suffix
  {
    if a != [] {
      JoinAppend(a, [name + suffix], sep);
      JoinAppend(a, [name], sep);
    } else {
      assert a + [name] == [name];
      assert a + [name + suffix] == [name + suffix];
    }
  }

  /** `normpath` of an absolute path is its leading slashes and its kept components. */
  lemma NormPathAbsolute(p: string)
    requires IsAbs(p)
    ensures NormPath(p) == LeadingSlashes(p) + Join(Components(p), "/")
  {
  }

  /** Climbing out of a directory into a sibling named `name` + `suffix` normalises to the directory followed by `suffix`. */
  lemma SiblingNormalises(base: string, name: string, suffix: string)
    requires IsAbs(base) || base == ""
    requires Segment(name) && suffix != "" && '/' !in suffix
    ensures NormPath(JoinPath(base + "/" + name, "../" + name + suffix)) == NormPath(base + "/" + name) + suffix
  {
    var dir := base + "/" + name;
    var rel := "../" + name + suffix;
    var f := JoinPath(dir, rel);
    var cb := Collapse(SplitOn(base, '/'), [], true);
    SiblingComponents(base, name, suffix);
    assert IsAbs(dir) && !IsAbs(rel);
    LeadingSlashesOfJoin(dir, rel);
    JoinExtendLast(cb, name, suffix, "/");
    NormPathAbsolute(dir);
    NormPathAbsolute(f);
    var ls, j := LeadingSlashes(dir), Join(cb + [name], "/");
    assert ls + (j + suffix) == (ls + j) + suffix;
  }

  /** The components of the sibling path: the directory's, with the last one replaced by `name` + `suffix`. */
  lemma SiblingComponents(base: string, name: string, suffix: string)
    requires IsAbs(base) || base == ""
    requires Segment(name) && suffix != "" && '/' !in suffix
    ensures var cb := Collapse(SplitOn(base, '/'), [], true);
      && Components(base + "/" + name) == cb + [name]
      && Components(JoinPath(base + "/" + name, "../" + name + suffix)) == cb + [name + suffix]
  {
    var dir := base + "/" + name;
    var sib := name + suffix;
    var rel := "../" + sib;
    assert "../" + name + suffix == rel;
    assert IsAbs(dir) && !IsAbs(rel);
    assert '/' !in sib by {
      assert forall k :: 0 <= k < |sib| ==> sib[k] == if k < |name| then name[k] else suffix[k - |name|];
    }
    assert SplitOn(sib, '/') == [sib];
    assert SplitOn("..", '/') == [".."];
    assert rel == ".." + "/" + sib;
    SplitOnAppend("..", sib, '/');
    var pieces := SplitOn(rel, '/');
    assert pieces == ["..", sib];
    var cb := Collapse(SplitOn(base, '/'), [], true);
    ComponentsOfChild(base, name);
    var cd := Collapse(SplitOn(dir, '/'), [], true);
    assert cd == cb + [name];
    ComponentsOfJoin(dir, rel);
    var f := JoinPath(dir, rel);
    assert IsAbs(f);
    assert Components(f) == Collapse(pieces, cd, true);
    ClimbThenDescend(cb, name, sib);
  }

  /**
    The containment test is a string prefix test: for a directory whose last
    component is `name`, the sibling `name` + `suffix` reached through ".."
    normalises to the directory's own path followed by `suffix`. It passes the
    test although it lies outside the directory.
   */
  lemma SiblingPrefixAccepted(base: string, name: string, suffix: string, cwd: string)
    requires IsAbs(base) || base == ""
    requires Segment(name) && suffix != "" && '/' !in suffix
    ensures var dir := base + "/" + name;
      var root := AbsPath(dir, cwd);
      var full := AbsPath(JoinPath(dir, "../" + name + suffix), cwd);
      full == root + suffix && StartsWith(full, root) && !StartsWith(full, root + "/")
  {
    var dir := base + "/" + name;
    SiblingNormalises(base, name, suffix);
    var root := AbsPath(dir, cwd);
    assert (root + suffix)[..|root|] == root;
    assert (root + suffix)[|root|] == suffix[0] != '/';
    assert (root + "/")[|root|] == '/';
  }
}
