/**
  The disk as the file handlers see it through `os.path.exists`,
  `os.path.isfile`, `os.path.isdir`, `open`, `os.mkdir` and `os.makedirs`.
  Paths are the absolute, normalised strings the handlers compute; the
  operating system's refusals (permissions, read-only mounts) are the set
  `denied`.
 */
module FileSystem {
  import opened Wrappers
  import opened Utf8
  import opened PosixPath

  /** File contents by path, the directories, and the paths the system refuses to open or create. */
  datatype Disk = Disk(files: map<string, bytes>, dirs: set<string>, denied: set<string>)

  /**
    How a call that can fail fails: an `OSError` (which `IOError` names), or
    the `ValueError` Python raises for a path with an embedded NUL character.
   */
  datatype FsError = OsError | EmbeddedNul

  /** `os.path.exists`: false for a path with a NUL, whose check raises inside and is swallowed. */
  predicate Exists(d: Disk, p: string)
  {
    '\0' !in p && (p in d.files || p in d.dirs)
  }

  /** `os.path.isfile`. */
  predicate IsFile(d: Disk, p: string)
  {
    '\0' !in p && p in d.files
  }

  /** `os.path.isdir`. */
  predicate IsDir(d: Disk, p: string)
  {
    '\0' !in p && p in d.dirs
  }

  /** `open(p, "rb").read()`. */
  function ReadFile(d: Disk, p: string): (r: Result<bytes, FsError>)
    ensures r.Ok? <==> IsFile(d, p) && p !in d.denied
    ensures r.Ok? ==> r.value == d.files[p]
    ensures r == Err(EmbeddedNul) <==> '\0' in p
  {
    if '\0' in p then Err(EmbeddedNul)
    else if p !in d.files || p in d.denied then Err(OsError)
    else Ok(d.files[p])
  }

  /** `open(p, "wb").write(data)`: the parent must be a directory and `p` must not be one. */
  function WriteFile(d: Disk, p: string, data: bytes): (r: Result<Disk, FsError>)
    ensures r.Ok? <==> '\0' !in p && p !in d.dirs && p !in d.denied && DirName(p) in d.dirs
    ensures r.Ok? ==> r.value == d.(files := d.files[p := data])
    ensures r == Err(EmbeddedNul) <==> '\0' in p
  {
    if '\0' in p then Err(EmbeddedNul)
    else if p in d.dirs || p in d.denied || DirName(p) !in d.dirs then Err(OsError)
    else Ok(d.(files := d.files[p := data]))
  }

  /** `os.mkdir(p)`: fails when `p` exists, is refused, or its parent is not a directory. */
  function MakeDir(d: Disk, p: string): (r: Result<Disk, FsError>)
    ensures r.Ok? <==> '\0' !in p && !Exists(d, p) && p !in d.denied && DirName(p) in d.dirs
    ensures r.Ok? ==> r.value == d.(dirs := d.dirs + {p})
    ensures r == Err(EmbeddedNul) <==> '\0' in p
  {
    if '\0' in p then Err(EmbeddedNul)
    else if p in d.files || p in d.dirs || p in d.denied || DirName(p) !in d.dirs then Err(OsError)
    else Ok(d.(dirs := d.dirs + {p}))
  }

  /** The head and tail `makedirs` works with: a trailing slash is split off first. */
  function MakeDirsTarget(name: string): (r: (string, string))
    ensures r.1 != "" ==> |r.0| < |name|
  {
    var (head, tail) := SplitPath(name);
    if tail == "" then SplitPath(head) else (head, tail)
  }

  /**
    `os.makedirs(name, exist_ok=True)`: create the missing ancestors first,
    then `name`; a failure to create `name` is forgiven when it is already a
    directory.
   */
  function MakeDirs(d: Disk, name: string): (r: Result<Disk, FsError>)
    decreases |name|
  {
    var (head, tail) := MakeDirsTarget(name);
    var pre := if head != "" && tail != "" && !Exists(d, head) then MakeDirs(d, head) else Ok(d);
    match pre
    case Err(e) => Err(e)
    case Ok(d1) =>
      if head != "" && tail != "" && !Exists(d, head) && tail == "." then Ok(d1)
      else MakeLast(d1, name)
  }

  /** The last step of `makedirs`: `mkdir(name)`, whose OSError is forgiven when `name` is a directory. */
  function MakeLast(d: Disk, name: string): (r: Result<Disk, FsError>)
  {
    match MakeDir(d, name)
    case Ok(d2) => Ok(d2)
    case Err(EmbeddedNul) => Err(EmbeddedNul)
    case Err(OsError) => if IsDir(d, name) then Ok(d) else Err(OsError)
  }

  /** The last step only adds `name` to the directories, and `name` is a directory afterwards. */
  lemma MakeLastOnlyAdds(d: Disk, name: string)
    ensures var r := MakeLast(d, name);
      r.Ok? ==> r.value.files == d.files && r.value.denied == d.denied && d.dirs <= r.value.dirs && name in r.value.dirs
    ensures var r := MakeLast(d, name); r.Ok? ==> r.value.dirs <= d.dirs + {name}
  {
  }

  /**
    `makedirs` only adds directories: file contents and refusals are
    untouched, every directory stays, and unless the last component is "."
    the named directory exists afterwards.
   */
  lemma {:induction false} MakeDirsOnlyAddsDirectories(d: Disk, name: string)
    ensures var r := MakeDirs(d, name);
      r.Ok? ==> r.value.files == d.files && r.value.denied == d.denied && d.dirs <= r.value.dirs
    ensures var r := MakeDirs(d, name);
      r.Ok? && MakeDirsTarget(name).1 != "." ==> name in r.value.dirs
    decreases |name|
  {
    var (head, tail) := MakeDirsTarget(name);
    var skip := head != "" && tail != "" && !Exists(d, head);
    var pre := if skip then MakeDirs(d, head) else Ok(d);
    if skip {
      MakeDirsOnlyAddsDirectories(d, head);
    }
    if pre.Ok? {
      MakeLastOnlyAdds(pre.value, name);
      if skip && tail == "." {
        assert MakeDirs(d, name) == pre;
      } else {
        assert MakeDirs(d, name) == MakeLast(pre.value, name);
      }
    }
  }

  /** Only a path with a NUL character makes `makedirs` raise `ValueError`. */
  lemma {:induction false} MakeDirsNulOnlyFromNul(d: Disk, name: string)
    requires '\0' !in name
    ensures MakeDirs(d, name) != Err(EmbeddedNul)
    decreases |name|
  {
    var (head, tail) := MakeDirsTarget(name);
    if head != "" && tail != "" && !Exists(d, head) {
      assert '\0' !in head by {
        var (h0, t0) := SplitPath(name);
        assert name[..|h0|] == h0;
        assert forall k :: 0 <= k < |h0| ==> h0[k] == name[k];
        if t0 == "" {
          assert h0[..|head|] == head;
          assert forall k :: 0 <= k < |head| ==> head[k] == h0[k];
        } else {
          assert head == h0;
        }
      }
      MakeDirsNulOnlyFromNul(d, head);
    }
  }

  /** `makedirs` creates only `name` and its ancestors, none of them longer than `name`. */
  lemma {:induction false} MakeDirsAddsNoLonger(d: Disk, name: string)
    ensures var r := MakeDirs(d, name);
      r.Ok? ==> forall p :: p in r.value.dirs && p !in d.dirs ==> |p| <= |name|
    decreases |name|
  {
    var (head, tail) := MakeDirsTarget(name);
    var skip := head != "" && tail != "" && !Exists(d, head);
    var pre := if skip then MakeDirs(d, head) else Ok(d);
    if skip {
      MakeDirsAddsNoLonger(d, head);
    }
    if pre.Ok? {
      MakeLastOnlyAdds(pre.value, name);
      if skip && tail == "." {
        assert MakeDirs(d, name) == pre;
      } else {
        assert MakeDirs(d, name) == MakeLast(pre.value, name);
      }
    }
  }

  /**
    When `makedirs(name, exist_ok=True)` succeeds: `name` holds no NUL and
    its last component is not "."; and either it is already a directory
    (with its parent present whenever `makedirs` would look for it), or it
    does not end in a slash, is neither a file nor refused, and its parent
    is a directory or is missing and can be made in turn.
   */
  predicate CanMakeDirs(d: Disk, name: string)
    decreases |name|
  {
    var (head, tail) := MakeDirsTarget(name);
    && '\0' !in name && tail != "."
    && ((IsDir(d, name) && (head == "" || tail == "" || Exists(d, head)))
        || (&& SplitPath(name).1 != ""
            && name !in d.files && name !in d.denied
            && (IsDir(d, head) || (head != "" && !Exists(d, head) && CanMakeDirs(d, head)))))
  }

  /** Under those conditions `makedirs` succeeds and leaves `name` a directory. */
  lemma {:induction false} MakeDirsSucceeds(d: Disk, name: string)
    requires CanMakeDirs(d, name)
    ensures MakeDirs(d, name).Ok? && name in MakeDirs(d, name).value.dirs
    decreases |name|
  {
    var (head, tail) := MakeDirsTarget(name);
    var skip := head != "" && tail != "" && !Exists(d, head);
    if skip {
      assert CanMakeDirs(d, head);
      MakeDirsSucceeds(d, head);
      MakeDirsOnlyAddsDirectories(d, head);
      var d1 := MakeDirs(d, head).value;
      assert head == DirName(name);
      MakeLastCreates(d1, name);
      assert MakeDirs(d, name) == MakeLast(d1, name);
    } else {
      if !IsDir(d, name) {
        assert head == DirName(name);
      }
      MakeLastCreates(d, name);
      assert MakeDirs(d, name) == MakeLast(d, name);
    }
  }

  /** The last step succeeds on a directory, or on a new path under a directory. */
  lemma MakeLastCreates(d: Disk, name: string)
    requires '\0' !in name
    requires IsDir(d, name) || (name !in d.files && name !in d.denied && DirName(name) in d.dirs)
    ensures MakeLast(d, name).Ok? && name in MakeLast(d, name).value.dirs
  {
  }
}
