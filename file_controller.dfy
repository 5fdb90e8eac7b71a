/** FileController: the upload ceiling, the accept/reject/store/save steps of
    an upload and the response a download is built from. */
module Web {
  import opened Common
  import JavaText
  import opened UnixPaths
  import opened SpringPaths
  import opened SizeParsing
  import opened Storage
  import opened Registry
  import opened UrlEncoding

  const Dashboard: string := "redirect:/dashboard"
  const SelectFileText: string := "Please select a file to upload."
  /** The text names 500MB whatever the configured ceiling is. */
  const TooLargeText: string := "File exceeds maximum allowed size of 500MB."
  const UploadedText: string := "Uploaded: "
  const OctetStream: string := "application/octet-stream"
  const DispositionPrefix: string := "attachment; filename*=UTF-8''"

  /** A flash attribute: "error" or "message" and its text. */
  datatype Flash = Error(text: string) | Message(text: string)

  /** The exceptions handleFileUpload lets through. */
  datatype UploadError =
    | UnknownUser                      // findByUsername(...).orElseThrow()
    | StoreFailed(error: StorageError) // IOException from store
    | SaveFailed(cause: SaveError)     // persistence exception from save

  datatype UploadOutcome = Redirect(view: string, flash: Flash) | Failure(error: UploadError)

  /** The two checks before store: the error text, or None when the upload
      goes ahead. */
  function Rejection(file: Option<MultipartFile>, maxUploadBytes: int): Option<string> {
    if file.None? || |file.value.content| == 0 then Some(SelectFileText)
    else if |file.value.content| > maxUploadBytes then Some(TooLargeText)
    else None
  }

  /** The record handleFileUpload fills in for a file stored at stored: the
      original (uncleaned) name, the declared content type, the size and
      the returned path as text. */
  function NewRecord(file: MultipartFile, stored: Path, now: Instant, owner: UserName): StoredFile {
    StoredFile(None, file.originalFilename, file.contentType, Some(|file.content|), ToString(stored), now, owner)
  }

  /** The parts of the download response: the Content-Disposition header,
      the content length, the content type and the body. */
  datatype Download = Download(contentDisposition: string, contentLength: int, contentType: string, body: Resource)

  /** The exceptions downloadFile lets through. */
  datatype DownloadError =
    | NoSuchRecord                     // findById(id).orElseThrow()
    | LoadFailed(error: StorageError)  // IOException from loadAsResource

  /** The declared content type, application/octet-stream when there is none. */
  function ContentTypeOf(sf: StoredFile): string {
    if sf.contentType.Some? then sf.contentType.value else OctetStream
  }

  /** The recorded size, or the length of the resource when there is none. */
  function ContentLengthOf(sf: StoredFile, resource: Resource): int {
    if sf.size.Some? then sf.size.value else |resource.content|
  }

  /** downloadFile(id): the record with that id, then the resource loaded
      by the record's original file name (not by its storage path); no
      check of who owns the record. */
  function DownloadOutcome(root: Path, cwd: Path, files: map<Path, Bytes>, records: seq<StoredFile>, id: int): Result<Download, DownloadError>
    requires cwd.absolute
  {
    match Lookup(records, id)
    case None => Err(NoSuchRecord)
    case Some(sf) =>
      match LoadOutcome(root, cwd, files, sf.filename)
      case Err(e) => Err(LoadFailed(e))
      case Ok(resource) =>
        Ok(Download(DispositionPrefix + FormEncode(sf.filename), ContentLengthOf(sf, resource), ContentTypeOf(sf), resource))
  }

  class FileController {
    const storage: StorageService
    const repository: StoredFileRepository
    const maxUploadBytes: int

    ghost predicate Valid()
      reads this, storage, repository
    {
      storage.Valid() && repository.Valid()
    }

    /** new FileController(...): the ceiling is parsed once, from the
        configured spring.servlet.multipart.max-file-size. */
    constructor (storage: StorageService, repository: StoredFileRepository, maxFileSize: Option<string>)
      requires storage.Valid() && repository.Valid()
      ensures Valid()
      ensures this.storage == storage && this.repository == repository
      ensures maxUploadBytes == ParseSizeToBytes(maxFileSize)
    {
      this.storage := storage;
      this.repository := repository;
      maxUploadBytes := ParseSizeToBytes(maxFileSize);
    }

    /** handleFileUpload(file, auth, redirectAttributes), with the user the
        authentication names already looked up and whether the database
        accepts the insert. A save that fails after store leaves the bytes
        on disk with no record naming them. */
    method HandleFileUpload(file: Option<MultipartFile>, user: Option<UserName>, now: Instant, saveAccepted: bool)
      returns (outcome: UploadOutcome)
      requires Valid()
      modifies storage, repository
      ensures Valid()
      ensures user.None? ==>
        outcome == Failure(UnknownUser) && unchanged(storage) && unchanged(repository)
      ensures user.Some? && Rejection(file, maxUploadBytes).Some? ==>
        outcome == Redirect(Dashboard, Error(Rejection(file, maxUploadBytes).value))
        && unchanged(storage) && unchanged(repository)
      ensures user.Some? && Rejection(file, maxUploadBytes).None? ==>
        var stored := StoreOutcome(storage.rootLocation, storage.cwd, old(storage.dirs), file.value);
        && storage.dirs == old(storage.dirs)
        && (stored.Err? ==>
              outcome == Failure(StoreFailed(stored.error))
              && storage.files == old(storage.files) && unchanged(repository))
        && (stored.Ok? ==>
              storage.files == old(storage.files)[Canon(storage.cwd, stored.value) := file.value.content])
        && (stored.Ok? && !saveAccepted ==>
              outcome == Failure(SaveFailed(PersistenceFailed))
              && repository.records == old(repository.records) && repository.nextId == old(repository.nextId))
        && (stored.Ok? && saveAccepted ==>
              outcome == Redirect(Dashboard, Message(UploadedText + file.value.originalFilename))
              && repository.records == old(repository.records) + [NewRecord(file.value, stored.value, now, user.value).(id := Some(old(repository.nextId)))]
              && repository.nextId == old(repository.nextId) + 1)
    {
      if user.None? {
        return Failure(UnknownUser);
      }
      if file.None? || |file.value.content| == 0 {
        return Redirect(Dashboard, Error(SelectFileText));
      }
      if |file.value.content| > maxUploadBytes {
        return Redirect(Dashboard, Error(TooLargeText));
      }
      var stored := storage.Store(file.value);
      if stored.Err? {
        return Failure(StoreFailed(stored.error));
      }
      var sf := NewRecord(file.value, stored.value, now, user.value);
      var saved := repository.Save(sf, saveAccepted);
      if saved.Err? {
        outcome := Failure(SaveFailed(saved.error));
      } else {
        outcome := Redirect(Dashboard, Message(UploadedText + sf.filename));
      }
    }

    /** downloadFile(id): found by id, loaded by the recorded original name,
        served with the recorded size and type and a header value made of
        URL-safe characters only. */
    function DownloadFile(id: int): (r: Result<Download, DownloadError>)
      reads this, storage, repository
      requires Valid()
      ensures repository.FindById(id).None? ==> r == Err(NoSuchRecord)
      ensures r.Ok? <==>
        repository.FindById(id).Some? && storage.LoadAsResource(repository.FindById(id).value.filename).Ok?
      ensures r.Ok? ==> var sf := repository.FindById(id).value;
        && r.value.body == storage.LoadAsResource(sf.filename).value
        && (sf.size.Some? ==> r.value.contentLength == sf.size.value)
        && (sf.size.None? ==> r.value.contentLength == |r.value.body.content|)
        && (sf.contentType.Some? ==> r.value.contentType == sf.contentType.value)
        && (sf.contentType.None? ==> r.value.contentType == OctetStream)
        && JavaText.StartsWith(r.value.contentDisposition, DispositionPrefix)
        && (forall i | |DispositionPrefix| <= i < |r.value.contentDisposition| :: IsEncodedChar(r.value.contentDisposition[i]))
    {
      DownloadOutcome(storage.rootLocation, storage.cwd, storage.files, repository.records, id)
    }
  }

  // ---------------------------------------------------------------------
  // the ceiling
  // ---------------------------------------------------------------------

  /** An upload goes ahead exactly when it has at least one byte and no
      more than the ceiling: a size equal to the ceiling is accepted. */
  lemma AcceptedSizes(file: MultipartFile, maxUploadBytes: int)
    ensures Rejection(Some(file), maxUploadBytes).None? <==> 0 < |file.content| <= maxUploadBytes
    ensures |file.content| == 0 ==> Rejection(Some(file), maxUploadBytes) == Some(SelectFileText)
    ensures 0 < |file.content| && |file.content| > maxUploadBytes ==> Rejection(Some(file), maxUploadBytes) == Some(TooLargeText)
  {
  }

  /** A ceiling that did not parse (0) or overflowed to a negative value
      rejects every upload. */
  lemma UnusableCeilingRejectsAll(file: Option<MultipartFile>, maxUploadBytes: int)
    requires maxUploadBytes <= 0
    ensures Rejection(file, maxUploadBytes).Some?
  {
  }

  /** "500MB" admits uploads of one byte up to 500 MiB. */
  lemma DefaultCeiling(setting: string, file: MultipartFile)
    requires setting == "500MB"
    ensures Rejection(Some(file), ParseSizeToBytes(Some(setting))).None? <==> 0 < |file.content| <= 500 * 1024 * 1024
  {
    DefaultCeilingBytes(setting);
    AcceptedSizes(file, 500 * 1024 * 1024);
  }

  lemma DefaultCeilingBytes(setting: string)
    requires setting == "500MB"
    ensures ParseSizeToBytes(Some(setting)) == 500 * 1024 * 1024
  {
    assert setting == JavaText.LongToString(500) + JavaText.Repeat("MB", 1) by {
      FiveHundredText();
    }
    ParseSizeSuffixedLong(500, MB, 1);
    assert MB.Scale() == 1024 * 1024;
    assert JavaText.IsLong(500 * 1024 * 1024);
  }

  // ---------------------------------------------------------------------
  // upload, then download
  // ---------------------------------------------------------------------

  /** An upload whose name cleanPath leaves as it is can be downloaded under
      the id it was saved with: the same bytes, the recorded size, the
      declared type or application/octet-stream, and the encoded name. */
  lemma UploadThenDownload(root: Path, cwd: Path, files: map<Path, Bytes>, dirs: set<Path>,
                           records: seq<StoredFile>, nextId: int, file: MultipartFile, now: Instant, owner: UserName)
    requires cwd.absolute && IdentitiesFresh(records, nextId)
    requires CleanPath(file.originalFilename) == file.originalFilename
    requires StoreOutcome(root, cwd, dirs, file).Ok?
    ensures var stored := StoreOutcome(root, cwd, dirs, file).value;
      var saved := NewRecord(file, stored, now, owner).(id := Some(nextId));
      DownloadOutcome(root, cwd, files[Canon(cwd, stored) := file.content], records + [saved], nextId)
        == Ok(Download(DispositionPrefix + FormEncode(file.originalFilename), |file.content|,
                       if file.contentType.Some? then file.contentType.value else OctetStream,
                       Resource(stored, file.content)))
  {
    var stored := StoreOutcome(root, cwd, dirs, file).value;
    var saved := NewRecord(file, stored, now, owner).(id := Some(nextId));
    FindAfterSave(records, nextId, NewRecord(file, stored, now, owner), nextId);
    StoreThenLoad(root, cwd, files, dirs, file);
  }

  /** Files are looked up by name and not by owner or storage path: once a
      second upload under the same name has been stored, downloading the
      first record serves the second upload's bytes with the first one's
      recorded size. */
  lemma SameNameServesLatest(root: Path, cwd: Path, files: map<Path, Bytes>, dirs: set<Path>,
                             records: seq<StoredFile>, id: int, first: StoredFile, second: MultipartFile)
    requires cwd.absolute
    requires Lookup(records, id) == Some(first) && first.size.Some?
    requires second.originalFilename == first.filename
    requires CleanPath(first.filename) == first.filename
    requires StoreOutcome(root, cwd, dirs, second).Ok?
    ensures var stored := StoreOutcome(root, cwd, dirs, second).value;
      var after := DownloadOutcome(root, cwd, files[Canon(cwd, stored) := second.content], records, id);
      && after.Ok?
      && after.value.body.content == second.content
      && after.value.contentLength == first.size.value
  {
    StoreThenLoad(root, cwd, files, dirs, second);
  }

  /** The download looks the file up by the name as sent while store wrote
      it under the cleaned name, so a name with a backslash, stored as
      "x/y", is looked for at "x\y" and not found. */
  lemma BackslashNameIsNotFound(root: Path, cwd: Path, files: map<Path, Bytes>, dirs: set<Path>,
                                records: seq<StoredFile>, id: int, sf: StoredFile, content: Bytes, x: string, y: string)
    requires cwd.absolute
    requires IsName(x) && IsName(y) && '.' !in x && '.' !in y && '\\' !in x && '\\' !in y
    requires sf.filename == x + "\\" + y && Lookup(records, id) == Some(sf)
    requires Path(true, Canon(cwd, root).names + [sf.filename]) !in files
    ensures var written := Canon(cwd, Destination(root, cwd, x + "/" + y));
      && written == Path(true, Canon(cwd, root).names + [x, y])
      && DownloadOutcome(root, cwd, files[written := content], records, id) == Err(LoadFailed(CouldNotRead(sf.filename)))
  {
    PairTargets(root, cwd, x, y);
  }

  /** Where store writes "x/y" and where load looks for "x\y". */
  lemma PairTargets(root: Path, cwd: Path, x: string, y: string)
    requires cwd.absolute
    requires IsName(x) && IsName(y) && '.' !in x && '.' !in y && '\\' !in x && '\\' !in y
    ensures Canon(cwd, Destination(root, cwd, x + "/" + y)) == Path(true, Canon(cwd, root).names + [x, y])
    ensures Canon(cwd, Destination(root, cwd, x + "\\" + y)) == Path(true, Canon(cwd, root).names + [x + "\\" + y])
  {
    NameFacts(x, y);
    StoreStaysUnderRoot(root, cwd, x + "/" + y);
    StoreStaysUnderRoot(root, cwd, x + "\\" + y);
    NonDotOfPlain([x, y]);
    NonDotOfPlain([x + "\\" + y]);
  }

  lemma WithoutDot(s: string)
    requires '.' !in s
    ensures !JavaText.Contains(s, "..")
  {
    if JavaText.Contains(s, "..") {
      JavaText.ContainsCharacters(s, "..");
    }
  }

  lemma NamesOfPair(x: string, y: string)
    requires IsName(x) && IsName(y) && '\\' !in x && '\\' !in y
    ensures Names(x + "/" + y) == [x, y] && Names(x + "\\" + y) == [x + "\\" + y]
  {
    var back := x + "\\" + y;
    assert x + "/" + y == JavaText.Join([x, y], "/") by {
      assert JavaText.Join([x, y][1..], "/") == y;
    }
    NamesOfJoin([x, y]);
    assert '/' !in back;
    assert back == JavaText.Join([back], "/");
    NamesOfJoin([back]);
  }

  /** What cleanPath and Paths.get make of "x\y" and "x/y". */
  lemma NameFacts(x: string, y: string)
    requires IsName(x) && IsName(y) && '.' !in x && '.' !in y && '\\' !in x && '\\' !in y
    ensures CleanPath(x + "\\" + y) == x + "/" + y
    ensures !JavaText.Contains(x + "/" + y, "..") && !JavaText.Contains(x + "\\" + y, "..")
    ensures Names(x + "/" + y) == [x, y] && Names(x + "\\" + y) == [x + "\\" + y]
    ensures x[0] != '/' && (x + "\\" + y)[0] != '/'
    ensures Plain([x, y]) && Plain([x + "\\" + y])
  {
    BackslashToSlash(x, y);
    PairWithoutParent(x, y);
    NamesOfPair(x, y);
    PairShape(x, y);
  }

  lemma PairWithoutParent(x: string, y: string)
    requires '.' !in x && '.' !in y
    ensures !JavaText.Contains(x + "/" + y, "..") && !JavaText.Contains(x + "\\" + y, "..")
  {
    assert '.' !in x + "/" + y;
    assert '.' !in x + "\\" + y;
    WithoutDot(x + "/" + y);
    WithoutDot(x + "\\" + y);
  }

  lemma PairShape(x: string, y: string)
    requires IsName(x) && IsName(y) && '.' !in x && '.' !in y
    ensures x[0] != '/' && (x + "\\" + y)[0] != '/'
    ensures Plain([x, y]) && Plain([x + "\\" + y])
  {
    var back := x + "\\" + y;
    assert x[0] in x;
    assert back[0] == x[0];
    assert x != "." && x != ".." && y != "." && y != ".." by {
      assert x[0] in x && y[0] in y;
    }
    assert back != "." && back != ".." by {
      assert back[0] in x;
    }
  }
}
