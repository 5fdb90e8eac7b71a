/** StorageServiceImpl: the upload directory, the ".." guard on client file
    names, and the file system the service writes into, held as a map from
    absolute paths to file contents and a set of directories. */
module Storage {
  import opened Common
  import opened JavaText
  import opened UnixPaths
  import opened SpringPaths

  type Bytes = seq<bv8>

  /** An uploaded file: the name the client sent, its declared content
      type (null when absent) and its bytes. */
  datatype MultipartFile = MultipartFile(originalFilename: string, contentType: Option<string>, content: Bytes)

  /** The IOExceptions the service raises or lets through. */
  datatype StorageError =
    | UnsafeName(filename: string)     // "Cannot store file with relative path outside current directory"
    | NoParentDirectory(target: Path)  // Files.copy: the parent is missing or is not a directory
    | TargetIsDirectory(target: Path)  // Files.copy: the target is a directory
    | NotADirectory(target: Path)      // Files.createDirectories: a name on the way is a file
    | CouldNotRead(filename: string)   // "Could not read file"

  /** A resource handed out for download: where it is and what it holds. */
  datatype Resource = Resource(path: Path, content: Bytes)

  /** A file system: every entry is an absolute path with no "." or ".."
      name, files and directories are distinct, the root is a directory and
      every other entry sits in a directory. */
  predicate FsValid(files: map<Path, Bytes>, dirs: set<Path>) {
    && FileSystemRoot in dirs
    && (forall p | p in files :: p !in dirs)
    && (forall p | p in files :: p.absolute && Plain(p.names) && p.names != [] && Parent(p) in dirs)
    && (forall d | d in dirs :: d.absolute && Plain(d.names) && (d.names != [] ==> Parent(d) in dirs))
  }

  /** rootLocation.resolve(name).normalize().toAbsolutePath(): where both
      store and loadAsResource look for a name. */
  function Destination(root: Path, cwd: Path, name: string): (r: Path)
    requires cwd.absolute
    ensures r.absolute
    ensures Canon(cwd, r) == Canon(cwd, Resolve(root, Parse(name)))
  {
    CanonOfNormalize(cwd, Resolve(root, Parse(name)));
    ToAbsolute(cwd, Normalize(Resolve(root, Parse(name))))
  }

  // ---------------------------------------------------------------------
  // init: Files.exists, then Files.createDirectories
  // ---------------------------------------------------------------------

  /** p and every directory above it. */
  function Ancestors(p: Path): set<Path> {
    set i | 0 <= i <= |p.names| :: Path(p.absolute, p.names[..i])
  }

  /** The directories after init: unchanged when the root exists (as a
      directory or as a file), otherwise the root and every missing
      directory above it created, unless one of them is a file. */
  function InitDirectories(files: map<Path, Bytes>, dirs: set<Path>, target: Path): Result<set<Path>, StorageError> {
    if target in files || target in dirs then Ok(dirs)
    else if exists i | 0 <= i <= |target.names| :: Path(target.absolute, target.names[..i]) in files then Err(NotADirectory(target))
    else Ok(dirs + Ancestors(target))
  }

  // ---------------------------------------------------------------------
  // store: cleanPath, the ".." guard, then Files.copy with REPLACE_EXISTING
  // ---------------------------------------------------------------------

  /** What store does with a file: the path it writes and returns, or the
      exception it throws. */
  function StoreOutcome(root: Path, cwd: Path, dirs: set<Path>, file: MultipartFile): Result<Path, StorageError>
    requires cwd.absolute
  {
    var filename := CleanPath(file.originalFilename);
    if Contains(filename, "..") then Err(UnsafeName(filename))
    else
      var target := Destination(root, cwd, filename);
      var key := Canon(cwd, target);
      if key in dirs then Err(TargetIsDirectory(target))
      else if key.names == [] || Parent(key) !in dirs then Err(NoParentDirectory(target))
      else Ok(target)
  }

  /** What loadAsResource finds for a name: the file at its destination,
      with no check of where that is. */
  function LoadOutcome(root: Path, cwd: Path, files: map<Path, Bytes>, filename: string): Result<Resource, StorageError>
    requires cwd.absolute
  {
    var file := Destination(root, cwd, filename);
    if Canon(cwd, file) in files then Ok(Resource(file, files[Canon(cwd, file)]))
    else Err(CouldNotRead(filename))
  }

  /** The service, with the file system it owns. */
  class StorageService {
    const rootLocation: Path
    /** The working directory of the process, which toAbsolutePath uses. */
    const cwd: Path
    var files: map<Path, Bytes>
    var dirs: set<Path>

    ghost predicate Valid()
      reads this
    {
      cwd.absolute && FsValid(files, dirs)
    }

    /** new StorageServiceImpl(uploadDir), on an existing file system. */
    constructor (uploadDir: string, cwd: Path, files: map<Path, Bytes>, dirs: set<Path>)
      requires cwd.absolute && FsValid(files, dirs)
      ensures Valid()
      ensures rootLocation == Parse(uploadDir) && this.cwd == cwd
      ensures this.files == files && this.dirs == dirs
    {
      rootLocation := Parse(uploadDir);
      this.cwd := cwd;
      this.files := files;
      this.dirs := dirs;
    }

    /** init(): create the upload directory when nothing exists there, and
        return the configured root. */
    method Init() returns (r: Result<Path, StorageError>)
      requires Valid()
      modifies this
      ensures Valid()
      ensures files == old(files)
      ensures InitDirectories(files, old(dirs), Canon(cwd, rootLocation)).Ok? ==>
        r == Ok(rootLocation) && dirs == InitDirectories(files, old(dirs), Canon(cwd, rootLocation)).value
      ensures InitDirectories(files, old(dirs), Canon(cwd, rootLocation)).Err? ==>
        r == Err(InitDirectories(files, old(dirs), Canon(cwd, rootLocation)).error) && dirs == old(dirs)
    {
      var target := Canon(cwd, rootLocation);
      var outcome := InitDirectories(files, dirs, target);
      if outcome.Err? {
        return Err(outcome.error);
      }
      InitKeepsValid(files, dirs, target);
      dirs := outcome.value;
      r := Ok(rootLocation);
    }

    /** store(file): write the bytes at the destination of the cleaned name,
        replacing what was there, and return that path. */
    method Store(file: MultipartFile) returns (r: Result<Path, StorageError>)
      requires Valid()
      modifies this
      ensures Valid()
      ensures r == StoreOutcome(rootLocation, cwd, dirs, file)
      ensures dirs == old(dirs)
      ensures r.Ok? ==> files == old(files)[Canon(cwd, r.value) := file.content]
      ensures r.Err? ==> files == old(files)
    {
      var filename := CleanPath(file.originalFilename);
      if Contains(filename, "..") {
        return Err(UnsafeName(filename));
      }
      var destinationFile := Destination(rootLocation, cwd, filename);
      var key := Canon(cwd, destinationFile);
      if key in dirs {
        return Err(TargetIsDirectory(destinationFile));
      }
      if key.names == [] || Parent(key) !in dirs {
        return Err(NoParentDirectory(destinationFile));
      }
      WriteKeepsValid(files, dirs, key, file.content);
      files := files[key := file.content];
      r := Ok(destinationFile);
    }

    /** loadAsResource(filename): the file at the destination of the name
        as given, whoever wrote it and wherever it is; "Could not read file"
        when nothing is there. */
    function LoadAsResource(filename: string): (r: Result<Resource, StorageError>)
      reads this
      requires Valid()
      ensures r.Ok? <==> Canon(cwd, Destination(rootLocation, cwd, filename)) in files
      ensures r.Ok? ==>
        r.value.path == Destination(rootLocation, cwd, filename) && r.value.content == files[Canon(cwd, r.value.path)]
      ensures r.Err? ==> r.error == CouldNotRead(filename)
    {
      LoadOutcome(rootLocation, cwd, files, filename)
    }
  }

  // ---------------------------------------------------------------------
  // init
  // ---------------------------------------------------------------------

  /** Writing a file at a canonical path that is not a directory and whose
      parent is one keeps the file system well formed. */
  lemma WriteKeepsValid(files: map<Path, Bytes>, dirs: set<Path>, key: Path, content: Bytes)
    requires FsValid(files, dirs)
    requires key.absolute && Plain(key.names) && key !in dirs && key.names != [] && Parent(key) in dirs
    ensures FsValid(files[key := content], dirs)
  {
  }

  lemma InitKeepsValid(files: map<Path, Bytes>, dirs: set<Path>, target: Path)
    requires FsValid(files, dirs) && target.absolute && Plain(target.names)
    requires InitDirectories(files, dirs, target).Ok?
    ensures FsValid(files, InitDirectories(files, dirs, target).value)
  {
    if target !in files && target !in dirs {
      var added := Ancestors(target);
      forall d | d in added
        ensures d !in files && d.absolute && Plain(d.names) && (d.names != [] ==> Parent(d) in dirs + added)
      {
        var i :| 0 <= i <= |target.names| && d == Path(target.absolute, target.names[..i]);
        if i > 0 {
          assert target.names[..i][..i - 1] == target.names[..i - 1];
          assert Parent(d) == Path(target.absolute, target.names[..i - 1]);
        }
      }
    }
  }

  /** After a successful init the upload directory exists, and a second
      init changes nothing. */
  lemma InitIdempotent(files: map<Path, Bytes>, dirs: set<Path>, target: Path)
    requires InitDirectories(files, dirs, target).Ok?
    ensures var after := InitDirectories(files, dirs, target).value;
      && (target in files || target in after)
      && dirs <= after
      && InitDirectories(files, after, target) == Ok(after)
  {
    if target !in files && target !in dirs {
      assert target == Path(target.absolute, target.names[..|target.names|]);
    }
  }

  // ---------------------------------------------------------------------
  // store: the ".." guard
  // ---------------------------------------------------------------------

  /** store throws the ".." exception exactly when the cleaned name contains
      "..", wherever the name would land. */
  lemma StoreRejectsParentReference(root: Path, cwd: Path, dirs: set<Path>, file: MultipartFile)
    requires cwd.absolute
    ensures StoreOutcome(root, cwd, dirs, file).Err? && StoreOutcome(root, cwd, dirs, file).error.UnsafeName?
      <==> Contains(CleanPath(file.originalFilename), "..")
  {
  }

  /** A name whose ".." steps climb above its first element is always
      rejected: cleanPath leaves a ".." in it. */
  lemma StoreRejectsClimbing(root: Path, cwd: Path, dirs: set<Path>, file: MultipartFile)
    requires cwd.absolute && file.originalFilename != []
    requires var normalized := ReplaceBackslashes(file.originalFilename);
      Collapse(DelimitedList(normalized[PrefixLength(normalized)..])).tops > 0
    ensures StoreOutcome(root, cwd, dirs, file) == Err(UnsafeName(CleanPath(file.originalFilename)))
  {
    CleanPathKeepsClimbing(file.originalFilename);
  }

  /** The guard is a text test, so it also rejects a harmless single name
      that merely contains "..", such as "a..txt", whatever the state of the
      file system. */
  lemma StoreRejectsDoubleDotInName(root: Path, cwd: Path, dirs: set<Path>, file: MultipartFile)
    requires cwd.absolute
    requires var s := file.originalFilename;
      '/' !in s && '\\' !in s && ':' !in s && s != "." && s != ".." && Contains(s, "..")
    ensures StoreOutcome(root, cwd, dirs, file) == Err(UnsafeName(file.originalFilename))
  {
    var s := file.originalFilename;
    IndexOfSeparator(s, "");
    assert Pieces(s) == [s];
    CleanPathKeepsPlainNames(s);
  }

  lemma DoubleDotNameExample(s: string)
    requires s == "a..txt"
    ensures '/' !in s && '\\' !in s && ':' !in s && s != "." && s != ".." && Contains(s, "..")
  {
    ContainsAfter("a", "..", "txt");
    assert "a" + ".." + "txt" == s;
  }

  /** A name that starts by stepping up ("../...") is rejected. */
  lemma StoreRejectsLeadingParent(root: Path, cwd: Path, dirs: set<Path>, file: MultipartFile)
    requires cwd.absolute
    requires var s := file.originalFilename;
      |s| >= 3 && s[..3] == "../" && '\\' !in s && ':' !in s
    ensures StoreOutcome(root, cwd, dirs, file) == Err(UnsafeName(CleanPath(file.originalFilename)))
  {
    var s := file.originalFilename;
    assert PrefixLength(s) == 0 by {
      assert IndexOfOrEnd(s, ':') == |s|;
    }
    assert s[..2] == ".." && '/' !in s[..2];
    IndexOfSeparator(s[..2], s[3..]);
    assert s == s[..2] + "/" + s[3..];
    assert Pieces(s) == [".."] + Pieces(s[3..]);
    StoreRejectsClimbing(root, cwd, dirs, file);
  }

  /** An upload named "../../etc/passwd" is rejected. */
  lemma TraversalExample(root: Path, cwd: Path, dirs: set<Path>, file: MultipartFile)
    requires cwd.absolute && file.originalFilename == "../../etc/passwd"
    ensures StoreOutcome(root, cwd, dirs, file).Err? && StoreOutcome(root, cwd, dirs, file).error.UnsafeName?
  {
    var s := file.originalFilename;
    assert '\\' !in s && ':' !in s by {
      assert forall i | 0 <= i < |s| :: s[i] != '\\' && s[i] != ':';
    }
    assert s[..3] == "../";
    StoreRejectsLeadingParent(root, cwd, dirs, file);
  }

  // ---------------------------------------------------------------------
  // store: where an accepted name lands
  // ---------------------------------------------------------------------

  lemma NoParentName(filename: string)
    requires !Contains(filename, "..")
    ensures NoParent(Names(filename))
  {
    NamesWithoutParentReference(filename);
  }

  /** The destination of an accepted relative name is the root followed by
      the name's non-"." names. */
  lemma DestinationOfRelativeName(root: Path, cwd: Path, filename: string)
    requires cwd.absolute
    requires !Contains(filename, "..") && !(filename != [] && filename[0] == '/')
    ensures Normalize(Resolve(root, Parse(filename))) == Path(root.absolute, Normalize(root).names + NonDot(Names(filename)))
  {
    NoParentName(filename);
    FoldAppend(root.absolute, [], root.names, Names(filename));
    FoldWithoutParent(root.absolute, Fold(root.absolute, [], root.names), Names(filename));
  }

  /** Names with no "." or ".." appended to a path are appended to where
      it leads. */
  lemma CanonAppendPlain(cwd: Path, p: Path, rest: seq<string>)
    requires cwd.absolute && Plain(rest)
    ensures Canon(cwd, Path(p.absolute, p.names + rest)) == Path(true, Canon(cwd, p).names + rest)
  {
    var base := ToAbsolute(cwd, p).names;
    assert ToAbsolute(cwd, Path(p.absolute, p.names + rest)).names == base + rest;
    FoldAppend(true, [], base, rest);
    FoldWithoutParent(true, Fold(true, [], base), rest);
    NonDotOfPlain(rest);
  }

  /** The key theorem of the guard: a cleaned name that is relative and has
      no ".." is written at or below the upload directory, at the directory
      followed by the name's non-"." names (the directory itself when the
      name has no name but "."). */
  lemma StoreStaysUnderRoot(root: Path, cwd: Path, filename: string)
    requires cwd.absolute
    requires !Contains(filename, "..") && !(filename != [] && filename[0] == '/')
    ensures Canon(cwd, Destination(root, cwd, filename)) == Path(true, Canon(cwd, root).names + NonDot(Names(filename)))
    ensures Within(Canon(cwd, Destination(root, cwd, filename)), Canon(cwd, root))
  {
    DestinationOfRelativeName(root, cwd, filename);
    NoParentName(filename);
    var rest := NonDot(Names(filename));
    var normalized := Normalize(Resolve(root, Parse(filename)));
    assert Canon(cwd, Destination(root, cwd, filename)) == Canon(cwd, normalized);
    CanonAppendPlain(cwd, Normalize(root), rest);
    CanonOfNormalize(cwd, root);
    var r := Path(true, Canon(cwd, root).names + rest);
    assert r.names[..|Canon(cwd, root).names|] == Canon(cwd, root).names;
  }

  /** An empty name passes the guard and resolves to the upload directory
      itself. When that directory exists, the write fails because the
      target is a directory. When it is missing but its parent is a
      directory, a file is written at the upload directory's own path. */
  lemma EmptyNameTargetsRoot(root: Path, cwd: Path, dirs: set<Path>, file: MultipartFile)
    requires cwd.absolute && file.originalFilename == []
    ensures Canon(cwd, Destination(root, cwd, [])) == Canon(cwd, root)
    ensures Canon(cwd, root) in dirs ==>
      StoreOutcome(root, cwd, dirs, file) == Err(TargetIsDirectory(Destination(root, cwd, [])))
    ensures Canon(cwd, root) !in dirs && Canon(cwd, root).names != [] && Parent(Canon(cwd, root)) in dirs ==>
      StoreOutcome(root, cwd, dirs, file) == Ok(Destination(root, cwd, []))
  {
    assert CleanPath([]) == [];
    assert Parse([]) == Path(false, []);
    assert Resolve(root, Path(false, [])) == root by {
      assert root.names + [] == root.names;
    }
  }

  /** An absolute cleaned name is not rejected and does not depend on the
      upload directory: it is written where it points. */
  lemma AbsoluteNameIgnoresRoot(root: Path, cwd: Path, filename: string)
    requires cwd.absolute
    requires !Contains(filename, "..") && filename != [] && filename[0] == '/'
    ensures Canon(cwd, Destination(root, cwd, filename)) == Path(true, NonDot(Names(filename)))
  {
    NoParentName(filename);
    FoldWithoutParent(true, [], Names(filename));
    NormalizeIdempotent(Parse(filename));
  }

  lemma EtcPasswdText(s: string)
    requires s == "/etc/passwd"
    ensures '.' !in s && '\\' !in s && s[0] == '/'
  {
    assert forall i | 0 <= i < |s| :: s[i] != '.' && s[i] != '\\';
  }

  lemma EtcPasswdName(s: string)
    requires s == "/etc/passwd"
    ensures CleanPath(s) == s && !Contains(s, "..") && s[0] == '/'
    ensures Names(s) == ["etc", "passwd"]
  {
    EtcPasswdText(s);
    if Contains(s, "..") {
      ContainsCharacters(s, "..");
    }
    var names := ["etc", "passwd"];
    assert Join(names, "/") == "etc" + "/" + "passwd" by {
      assert Join(names[1..], "/") == "passwd";
    }
    assert s == "/" + Join(names, "/");
    NamesOfJoin(names);
  }

  /** An upload named "/etc/passwd" replaces /etc/passwd when /etc is a
      directory, whatever the upload directory is. */
  lemma AbsoluteNameEscapesRoot(root: Path, cwd: Path, dirs: set<Path>, file: MultipartFile)
    requires cwd.absolute && file.originalFilename == "/etc/passwd"
    requires Path(true, ["etc"]) in dirs && Path(true, ["etc", "passwd"]) !in dirs
    ensures StoreOutcome(root, cwd, dirs, file).Ok?
    ensures Canon(cwd, StoreOutcome(root, cwd, dirs, file).value) == Path(true, ["etc", "passwd"])
  {
    var key := Path(true, ["etc", "passwd"]);
    EtcPasswdKey(root, cwd, file.originalFilename);
    assert Parent(key) == Path(true, ["etc"]);
    StoreAccepts(root, cwd, dirs, file, key);
  }

  lemma EtcPasswdKey(root: Path, cwd: Path, s: string)
    requires cwd.absolute && s == "/etc/passwd"
    ensures CleanPath(s) == s && !Contains(s, "..")
    ensures Canon(cwd, Destination(root, cwd, s)) == Path(true, ["etc", "passwd"])
  {
    EtcPasswdName(s);
    AbsoluteNameIgnoresRoot(root, cwd, s);
    NonDotOfPlain(["etc", "passwd"]);
  }

  /** store accepts a name cleanPath leaves as it is, with no "..", whose
      destination is not a directory and sits in one. */
  lemma StoreAccepts(root: Path, cwd: Path, dirs: set<Path>, file: MultipartFile, key: Path)
    requires cwd.absolute
    requires CleanPath(file.originalFilename) == file.originalFilename && !Contains(file.originalFilename, "..")
    requires Canon(cwd, Destination(root, cwd, file.originalFilename)) == key
    requires key !in dirs && key.names != [] && Parent(key) in dirs
    ensures StoreOutcome(root, cwd, dirs, file) == Ok(Destination(root, cwd, file.originalFilename))
  {
  }

  /** A single name with no separator, backslash, ':' or ".." goes through
      cleanPath and Paths.get as it is. */
  lemma SingleName(s: string)
    requires IsName(s) && '\\' !in s && ':' !in s && s != "." && !Contains(s, "..")
    ensures CleanPath(s) == s && Names(s) == [s] && Plain([s]) && s[0] != '/'
  {
    IndexOfSeparator(s, "");
    assert s[..|s|] == s;
    assert Pieces(s) == [s];
    assert s != ".." by {
      if s == ".." {
        assert StartsWith(s, "..");
      }
    }
    CleanPathKeepsPlainNames(s);
    assert s[0] in s;
  }

  /** An absolute path with no "." or ".." is where it leads. */
  lemma CanonOfPlainAbsolute(cwd: Path, p: Path)
    requires cwd.absolute && p.absolute && Plain(p.names)
    ensures Canon(cwd, p) == p && Normalize(p) == p
  {
    FoldWithoutParent(true, [], p.names);
    NonDotOfPlain(p.names);
  }

  lemma PlainAppend(a: seq<string>, b: seq<string>)
    requires Plain(a) && Plain(b)
    ensures Plain(a + b)
  {
    forall i | 0 <= i < |a + b| ensures (a + b)[i] != "." && (a + b)[i] != ".." {
      if i >= |a| {
        assert (a + b)[i] == b[i - |a|];
      }
    }
  }

  /** A single plain name is stored directly in an absolute upload
      directory with no "." or ".." in it. */
  lemma SimpleNameLandsInRoot(root: Path, cwd: Path, dirs: set<Path>, file: MultipartFile)
    requires cwd.absolute && root.absolute && Plain(root.names)
    requires var s := file.originalFilename;
      IsName(s) && '\\' !in s && ':' !in s && s != "." && !Contains(s, "..")
    requires root in dirs && Path(true, root.names + [file.originalFilename]) !in dirs
    ensures StoreOutcome(root, cwd, dirs, file) == Ok(Path(true, root.names + [file.originalFilename]))
  {
    var s := file.originalFilename;
    SingleName(s);
    DestinationOfRelativeName(root, cwd, s);
    CanonOfPlainAbsolute(cwd, root);
    NonDotOfPlain([s]);
    var target := Path(true, root.names + [s]);
    assert Destination(root, cwd, s) == target;
    PlainAppend(root.names, [s]);
    CanonOfPlainAbsolute(cwd, target);
    assert Parent(target) == root by {
      assert target.names[..|target.names| - 1] == root.names;
    }
  }

  lemma ReportName(s: string)
    requires s == "report.pdf"
    ensures IsName(s) && '\\' !in s && ':' !in s && s != "." && !Contains(s, "..")
  {
    assert forall i | 0 <= i < |s| :: s[i] != '/' && s[i] != '\\' && s[i] != ':';
    assert forall i | 0 <= i < |s| - 1 :: !(s[i] == '.' && s[i + 1] == '.');
    NoDoubleDot(s);
  }

  /** With the upload directory /data/u, an upload named "report.pdf" is
      written at /data/u/report.pdf and that is the path store returns. */
  lemma ReportExample(uploadDir: string, cwd: Path, dirs: set<Path>, file: MultipartFile)
    requires cwd.absolute && uploadDir == "/data/u" && file.originalFilename == "report.pdf"
    requires Path(true, ["data", "u"]) in dirs && Path(true, ["data", "u", "report.pdf"]) !in dirs
    ensures StoreOutcome(Parse(uploadDir), cwd, dirs, file) == Ok(Path(true, ["data", "u", "report.pdf"]))
  {
    var root := Path(true, ["data", "u"]);
    assert Parse(uploadDir) == root && Plain(root.names) by {
      DataUploadDirectory(uploadDir);
    }
    assert root.names + [file.originalFilename] == ["data", "u", "report.pdf"];
    var s := file.originalFilename;
    assert IsName(s) && '\\' !in s && ':' !in s && s != "." && !Contains(s, "..") by {
      ReportName(s);
    }
    SimpleNameLandsInRoot(root, cwd, dirs, file);
  }

  /** The path of that example reads "/data/u/report.pdf". */
  lemma ReportPathText(uploadDir: string, name: string)
    requires uploadDir == "/data/u" && name == "report.pdf"
    ensures ToString(Path(true, ["data", "u", "report.pdf"])) == uploadDir + "/" + name
  {
    var root := Path(true, ["data", "u"]);
    DataUploadDirectory(uploadDir);
    assert root.names + [name] == ["data", "u", "report.pdf"];
    ToStringAppendName(root, name);
  }

  lemma DataUploadDirectory(uploadDir: string)
    requires uploadDir == "/data/u"
    ensures Parse(uploadDir) == Path(true, ["data", "u"]) && ToString(Path(true, ["data", "u"])) == uploadDir
    ensures Plain(["data", "u"])
  {
    var names := ["data", "u"];
    assert uploadDir == "/" + Join(names, "/") by {
      assert Join(names[1..], "/") == "u";
    }
    NamesOfJoin(names);
  }

  // ---------------------------------------------------------------------
  // loadAsResource
  // ---------------------------------------------------------------------

  /** Whatever store wrote under a name that cleanPath leaves as it is,
      loadAsResource of that name hands back, bytes for bytes. */
  lemma StoreThenLoad(root: Path, cwd: Path, files: map<Path, Bytes>, dirs: set<Path>, file: MultipartFile)
    requires cwd.absolute
    requires CleanPath(file.originalFilename) == file.originalFilename
    requires StoreOutcome(root, cwd, dirs, file).Ok?
    ensures var written := StoreOutcome(root, cwd, dirs, file).value;
      LoadOutcome(root, cwd, files[Canon(cwd, written) := file.content], file.originalFilename) == Ok(Resource(written, file.content))
  {
    var written := Destination(root, cwd, file.originalFilename);
    assert StoreOutcome(root, cwd, dirs, file).value == written;
    var after := files[Canon(cwd, written) := file.content];
    assert Canon(cwd, written) in after && after[Canon(cwd, written)] == file.content;
  }

  lemma ParseClimb(f: string)
    requires IsName(f)
    ensures Parse("../" + f) == Path(false, ["..", f])
  {
    assert "../" + f == Join(["..", f], "/") by {
      assert Join(["..", f][1..], "/") == f;
    }
    NamesOfJoin(["..", f]);
  }

  /** From any directory, ".." then a name f leads to f beside it. */
  lemma StepOutThenIn(dir: seq<string>, f: string)
    requires dir != [] && Plain(dir) && f != "." && f != ".."
    ensures Fold(true, dir, ["..", f]) == dir[..|dir| - 1] + [f]
  {
    assert ["..", f][..1] == [".."];
    assert [".."][..0] == [];
  }

  /** loadAsResource has no ".." test: whatever the upload directory,
      absolute or relative, the name "../<f>" reads the file <f> beside it,
      outside the upload directory (for /data/u, it reads /data/<f>). */
  lemma LoadHasNoTraversalGuard(root: Path, cwd: Path, files: map<Path, Bytes>, filename: string, f: string)
    requires cwd.absolute && Canon(cwd, root).names != []
    requires IsName(f) && f != "." && f != ".."
    requires f != Canon(cwd, root).names[|Canon(cwd, root).names| - 1]
    requires filename == "../" + f
    ensures var dir := Canon(cwd, root).names;
      Canon(cwd, Destination(root, cwd, filename)) == Path(true, dir[..|dir| - 1] + [f])
    ensures !Within(Canon(cwd, Destination(root, cwd, filename)), Canon(cwd, root))
    ensures var dir := Canon(cwd, root).names; var beside := Path(true, dir[..|dir| - 1] + [f]);
      beside in files ==> LoadOutcome(root, cwd, files, filename) == Ok(Resource(Destination(root, cwd, filename), files[beside]))
  {
    var dir := Canon(cwd, root).names;
    ClimbLandsBeside(root, cwd, f);
    assert Canon(cwd, Destination(root, cwd, filename)) == Path(true, dir[..|dir| - 1] + [f]);
    assert (dir[..|dir| - 1] + [f])[|dir| - 1] == f;
  }

  /** The path "../<f>" below the upload directory, made absolute and
      normalized, is <f> beside the upload directory. */
  lemma ClimbLandsBeside(root: Path, cwd: Path, f: string)
    requires cwd.absolute && Canon(cwd, root).names != []
    requires IsName(f) && f != "." && f != ".."
    ensures var dir := Canon(cwd, root).names;
      Canon(cwd, Resolve(root, Parse("../" + f))) == Path(true, dir[..|dir| - 1] + [f])
  {
    ParseClimb(f);
    var p := Resolve(root, Parse("../" + f));
    var t := ToAbsolute(cwd, root).names;
    assert ToAbsolute(cwd, p).names == t + ["..", f];
    FoldAppend(true, [], t, ["..", f]);
    StepOutThenIn(Canon(cwd, root).names, f);
  }
}
