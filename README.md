# CloudBucket file storage core, in Dafny

CloudBucket is a small Spring Boot file bucket: signed-in users upload files,
list them and download them. This project models the part of it that makes
decisions about bytes and paths:

- `FileController.parseSizeToBytes`, which turns the configured
  `spring.servlet.multipart.max-file-size` text (such as `500MB`) into a byte
  ceiling (module `SizeParsing`). It is built on models of `String.trim`,
  ASCII `toUpperCase`, `String.replace`, `Long.parseLong` and 64-bit `long`
  wrap-around (module `JavaText`).
- `FileController.handleFileUpload`: it rejects an empty or missing file and
  a file over the ceiling, then stores the bytes and saves one `StoredFile`
  record (class `Web.FileController`).
- `FileController.downloadFile`: it finds the record, loads the resource and
  picks the content length, the content type and the `Content-Disposition`
  value (module `Web`, with `URLEncoder.encode` in module `UrlEncoding`).
- `StorageServiceImpl.init`, `store` and `loadAsResource`, over a file system
  held as a map from absolute paths to bytes plus a set of directories (class
  `Storage.StorageService`).
  - `store` runs `StringUtils.cleanPath` (module `SpringPaths`) and then the
    `..` text guard.
  - `store` and `loadAsResource` share `resolve`, `normalize` and
    `toAbsolutePath` on Unix paths (module `UnixPaths`).
- The `StoredFile` entity and the `StoredFileRepository` operations the
  controller uses: `save`, `findById` and `findAllByOwner` (module
  `Registry`).

The model follows the code as written. The parts of that behaviour a reader
might not expect are proved as lemmas:

- Download looks the bytes up by the original file name and not by the
  recorded storage path (`Web.SameNameServesLatest`,
  `Web.BackslashNameIsNotFound`).
- Download takes no user, so there is no owner check.
- `loadAsResource` has no `..` check (`Storage.LoadHasNoTraversalGuard`).
- An absolute upload name is not rejected and is written where it points,
  outside the upload directory (`Storage.AbsoluteNameEscapesRoot`).
- `init` does nothing when the upload directory path exists as a plain file.
- `store` does not reject an empty name. An empty name resolves to the
  upload directory itself (`Storage.EmptyNameTargetsRoot`). If that
  directory exists, the write fails because the target is a directory
  (when it is not empty; see Left out). If it
  is missing, or is a plain file, and its parent directory exists, the bytes
  are written as a file at the upload directory's own path.

The `..` guard is proved sound for relative names: a cleaned relative name
with no `..` is written at or below the upload directory
(`Storage.StoreStaysUnderRoot`). It is written at the directory itself when
the name holds no name other than `.`.

## Model

| member | source | states |
|---|---|---|
| JavaText.TrimStart | src/main/java/com/cloudbucket/cloudbucket/web/FileController.java:83 | the leading part trim drops is all characters at or below U+0020, and the result starts with a character above it |
| JavaText.TrimEnd | src/main/java/com/cloudbucket/cloudbucket/web/FileController.java:83 | the trailing part trim drops is all characters at or below U+0020, and the result ends with a character above it |
| JavaText.ToUpperCase | src/main/java/com/cloudbucket/cloudbucket/web/FileController.java:83 | same length, and each character is upper-cased on its own |
| JavaText.Trim | src/main/java/com/cloudbucket/cloudbucket/web/FileController.java:83 | what trim leaves is no longer than the input and, when not empty, starts and ends with a character above U+0020 |
| JavaText.TrimIsPadding | src/main/java/com/cloudbucket/cloudbucket/web/FileController.java:83 | the trimmed text occurs in the input with only characters at or below U+0020 before and after it |
| JavaText.Contains | src/main/java/com/cloudbucket/cloudbucket/service/StorageServiceImpl.java:38 | a contained text is never longer than the text holding it |
| JavaText.ContainsOccurs | src/main/java/com/cloudbucket/cloudbucket/service/StorageServiceImpl.java:38 | `contains` holds exactly when the target occurs at some index of the text |
| JavaText.RemoveAll | src/main/java/com/cloudbucket/cloudbucket/web/FileController.java:86 | `replace(target, "")` never lengthens the text and adds no character; it keeps every character that is not in the target; text without the target comes back unchanged, and text with it loses at least the target's length |
| JavaText.RemoveAllOccurrence | src/main/java/com/cloudbucket/cloudbucket/web/FileController.java:86 | an occurrence after a part that cannot start the target is cut out, and removal goes on after it |
| JavaText.ParseLong | src/main/java/com/cloudbucket/cloudbucket/web/FileController.java:86-92 | `Long.parseLong` succeeds exactly on an optional sign followed by one or more decimal digits whose signed value fits a long, and then returns that signed value |
| JavaText.ParseLongRejects | src/main/java/com/cloudbucket/cloudbucket/web/FileController.java:86-95 | a character that is neither a digit nor a sign makes `Long.parseLong` throw |
| JavaText.ParseLongIgnoresZerosAndPlus | src/main/java/com/cloudbucket/cloudbucket/web/FileController.java:86-92 | leading zeros and a leading `+` do not change the value read, and `-` followed by zeros reads like `-` without them |
| JavaText.ParseLongToString | src/main/java/com/cloudbucket/cloudbucket/web/FileController.java:92 | `Long.parseLong(Long.toString(n)) == n` for every long n |
| JavaText.Wrap64 | src/main/java/com/cloudbucket/cloudbucket/web/FileController.java:86-90 | the long product is a long, is congruent to the exact product modulo 2^64, and equals it when no overflow happens |
| SizeParsing.ParseSizeToBytes | src/main/java/com/cloudbucket/cloudbucket/web/FileController.java:81-97 | the ceiling is always a long value, and a null setting gives 0 |
| SizeParsing.TrimUpperCommute | src/main/java/com/cloudbucket/cloudbucket/web/FileController.java:83 | trimming and upper-casing give the same text in either order |
| SizeParsing.ParseSizeIgnoresPadding | src/main/java/com/cloudbucket/cloudbucket/web/FileController.java:83 | spaces, tabs and control characters around the setting do not change the ceiling |
| SizeParsing.ParseSizeIgnoresCase | src/main/java/com/cloudbucket/cloudbucket/web/FileController.java:83 | two settings that differ only in letter case give the same ceiling |
| SizeParsing.PaddedLowerCaseExample | src/main/java/com/cloudbucket/cloudbucket/web/FileController.java:83-86 | `" 500mb "` gives 500·1024² |
| SizeParsing.SizeOf | src/main/java/com/cloudbucket/cloudbucket/web/FileController.java:85-93 | text ending in a unit's suffix is read with every copy of that suffix removed, times the unit's scale in long arithmetic; text ending in none is read as a plain long; a failed read gives 0 |
| SizeParsing.SuffixesExclusive | src/main/java/com/cloudbucket/cloudbucket/web/FileController.java:85-90 | at most one of `MB`, `KB` and `GB` ends a text, so the order of the tests does not matter |
| SizeParsing.SuffixRemoved | src/main/java/com/cloudbucket/cloudbucket/web/FileController.java:86-90 | removing the suffix from well-formed long text followed by any number of copies of that suffix leaves exactly the number text |
| SizeParsing.ParseSizeSuffixed | src/main/java/com/cloudbucket/cloudbucket/web/FileController.java:83-95 | well-formed long text n followed by `KB`, `MB` or `GB`, repeated any number of times, gives n·1024, n·1024² or n·1024³ in long arithmetic when n fits a long, and 0 when it does not |
| SizeParsing.ParseSizeSuffixedLong | src/main/java/com/cloudbucket/cloudbucket/web/FileController.java:85-90 | the decimal text of any long n followed by a suffix gives n times the scale, wrapped to 64 bits |
| SizeParsing.DoubledSuffixExample | src/main/java/com/cloudbucket/cloudbucket/web/FileController.java:85-86 | `"5MBMB"` gives 5·1024² |
| SizeParsing.SignedZeroPaddedExample | src/main/java/com/cloudbucket/cloudbucket/web/FileController.java:83-86 | `"+0500MB"` gives 500·1024² |
| SizeParsing.NegativeZeroExample | src/main/java/com/cloudbucket/cloudbucket/web/FileController.java:85-86 | `"-0MB"` gives 0 |
| SizeParsing.InnerSuffixExample | src/main/java/com/cloudbucket/cloudbucket/web/FileController.java:85-86 | `"5MB0MB"` loses both `MB`s, reads as 50 and gives 50·1024² |
| SizeParsing.ParseSizePlain | src/main/java/com/cloudbucket/cloudbucket/web/FileController.java:91-95 | well-formed long text without a suffix is read as that many bytes, or 0 when it does not fit a long |
| SizeParsing.MegabyteOverflow | src/main/java/com/cloudbucket/cloudbucket/web/FileController.java:86 | a megabyte count from 2^43 up to 2^44 overflows and wraps to a negative ceiling |
| SizeParsing.ParseSizeForeignCharacter | src/main/java/com/cloudbucket/cloudbucket/web/FileController.java:94-96 | a character that is not a digit, a sign or a suffix letter makes the ceiling 0 |
| SizeParsing.BareSuffix | src/main/java/com/cloudbucket/cloudbucket/web/FileController.java:85-96 | `KB`, `MB` or `GB` with no number gives 0 |
| SizeParsing.UnknownUnitExample | src/main/java/com/cloudbucket/cloudbucket/web/FileController.java:91-96 | `"500B"` gives 0 |
| SizeParsing.WordExample | src/main/java/com/cloudbucket/cloudbucket/web/FileController.java:91-96 | `"abc"` gives 0 |
| UnixPaths.ParseToString | src/main/java/com/cloudbucket/cloudbucket/service/StorageServiceImpl.java:24 | `Paths.get` reads back what `Path.toString` writes |
| UnixPaths.Parse | src/main/java/com/cloudbucket/cloudbucket/service/StorageServiceImpl.java:24 | every name of a parsed path is non-empty and holds no `/` |
| UnixPaths.NamesSplit | src/main/java/com/cloudbucket/cloudbucket/service/StorageServiceImpl.java:41 | `Paths.get` splits at every `/`: the names of `a/b` are the names of `a` followed by those of `b`, so doubled and trailing slashes add no name |
| UnixPaths.ToString | src/main/java/com/cloudbucket/cloudbucket/web/FileController.java:74 | the text of an absolute path starts with `/`; that of a relative path is empty or does not |
| UnixPaths.NamesWithoutParentReference | src/main/java/com/cloudbucket/cloudbucket/service/StorageServiceImpl.java:38-41 | a path text that does not contain `..` has no `..` name |
| UnixPaths.Resolve | src/main/java/com/cloudbucket/cloudbucket/service/StorageServiceImpl.java:41 | an absolute argument replaces the base; a relative one is appended to the base's names |
| UnixPaths.Normalize | src/main/java/com/cloudbucket/cloudbucket/service/StorageServiceImpl.java:41 | keeps the path absolute or relative, removes every `.`, never adds a name or lengthens the path, leaves no `..` in an absolute path, and without `..` only drops the `.` names (the cancelling of `name/..` is `UnixPaths.NormalizeCancels`) |
| UnixPaths.ToAbsolute | src/main/java/com/cloudbucket/cloudbucket/service/StorageServiceImpl.java:41 | the result is absolute; an absolute path is kept, a relative one is placed below the working directory |
| UnixPaths.Canon | src/main/java/com/cloudbucket/cloudbucket/service/StorageServiceImpl.java:41 | the place a path reaches is absolute and has no `.` or `..` name |
| UnixPaths.FoldWithoutParent | src/main/java/com/cloudbucket/cloudbucket/service/StorageServiceImpl.java:41 | without `..`, normalize only drops the `.` names |
| UnixPaths.NormalizeCancels | src/main/java/com/cloudbucket/cloudbucket/service/StorageServiceImpl.java:41 | a `..` cancels the name just before it: a/n/../b normalizes like a/b, for absolute and relative paths |
| UnixPaths.NormalizeDropsDot | src/main/java/com/cloudbucket/cloudbucket/service/StorageServiceImpl.java:41 | a `.` name is dropped wherever it stands: `a/./b` normalizes like `a/b` |
| UnixPaths.NormalizeIdempotent | src/main/java/com/cloudbucket/cloudbucket/service/StorageServiceImpl.java:41 | normalize is idempotent, for relative paths with leftover `..` too |
| UnixPaths.CanonOfNormalize | src/main/java/com/cloudbucket/cloudbucket/service/StorageServiceImpl.java:41 | normalizing before `toAbsolutePath` does not change the place reached |
| SpringPaths.ReplaceBackslashes | src/main/java/com/cloudbucket/cloudbucket/service/StorageServiceImpl.java:37 | no backslash is left, no character but `/` is added, the text never grows, and text without a backslash is unchanged |
| SpringPaths.BackslashToSlash | src/main/java/com/cloudbucket/cloudbucket/service/StorageServiceImpl.java:37 | `x\y` becomes `x/y` |
| SpringPaths.DoubleBackslashToSlash | src/main/java/com/cloudbucket/cloudbucket/service/StorageServiceImpl.java:37 | `x\\y` becomes `x/y` as well: a double backslash is one separator |
| SpringPaths.Collapse | src/main/java/com/cloudbucket/cloudbucket/service/StorageServiceImpl.java:37 | the kept elements have no `.` or `..`, and a leftover climb count needs a `..` element |
| SpringPaths.CleanPath | src/main/java/com/cloudbucket/cloudbucket/service/StorageServiceImpl.java:37 | the cleaned name holds no backslash |
| SpringPaths.CleanPathKeepsPlainNames | src/main/java/com/cloudbucket/cloudbucket/service/StorageServiceImpl.java:37 | a name with no backslash, no `:` and no `.` or `..` element comes out of cleanPath unchanged |
| SpringPaths.CleanPathKeepsClimbing | src/main/java/com/cloudbucket/cloudbucket/service/StorageServiceImpl.java:37 | a name whose `..` steps climb above its first element still contains `..` after cleanPath |
| Storage.StorageService.constructor | src/main/java/com/cloudbucket/cloudbucket/service/StorageServiceImpl.java:23-25 | the root is `Paths.get(uploadDir)` and the file system is as given |
| Storage.StorageService.Init | src/main/java/com/cloudbucket/cloudbucket/service/StorageServiceImpl.java:28-33 | nothing changes when the root exists; otherwise the root and its missing ancestors become directories, or the call fails when one is a file; files are untouched and the root is returned |
| Storage.InitKeepsValid | src/main/java/com/cloudbucket/cloudbucket/service/StorageServiceImpl.java:29-30 | creating the directories keeps the file system well formed |
| Storage.InitIdempotent | src/main/java/com/cloudbucket/cloudbucket/service/StorageServiceImpl.java:28-33 | after a successful init the root exists and a second init changes nothing |
| Storage.StorageService.Store | src/main/java/com/cloudbucket/cloudbucket/service/StorageServiceImpl.java:36-46 | on success exactly the destination file now holds the bytes and every other path is unchanged; on failure nothing changes; the returned path is the one written |
| Storage.StoreRejectsParentReference | src/main/java/com/cloudbucket/cloudbucket/service/StorageServiceImpl.java:37-40 | store fails with the `..` error exactly when the cleaned name contains `..` |
| Storage.StoreRejectsClimbing | src/main/java/com/cloudbucket/cloudbucket/service/StorageServiceImpl.java:37-40 | a name that climbs above its start is rejected |
| Storage.StoreRejectsLeadingParent | src/main/java/com/cloudbucket/cloudbucket/service/StorageServiceImpl.java:37-40 | a name starting with `../` is rejected |
| Storage.TraversalExample | src/main/java/com/cloudbucket/cloudbucket/service/StorageServiceImpl.java:37-40 | `../../etc/passwd` is rejected |
| Storage.StoreRejectsDoubleDotInName | src/main/java/com/cloudbucket/cloudbucket/service/StorageServiceImpl.java:38-40 | a single harmless name that merely contains `..` is rejected too |
| Storage.DoubleDotNameExample | src/main/java/com/cloudbucket/cloudbucket/service/StorageServiceImpl.java:38 | `a..txt` is such a name |
| Storage.Destination | src/main/java/com/cloudbucket/cloudbucket/service/StorageServiceImpl.java:41 | the destination is absolute and reaches the same place as the root resolved against the parsed name |
| Storage.DestinationOfRelativeName | src/main/java/com/cloudbucket/cloudbucket/service/StorageServiceImpl.java:41 | an accepted relative name resolves to the normalized root followed by its non-`.` names |
| Storage.StoreStaysUnderRoot | src/main/java/com/cloudbucket/cloudbucket/service/StorageServiceImpl.java:38-41 | a cleaned relative name with no `..` lands at the root followed by its non-`.` names, inside the root |
| Storage.EmptyNameTargetsRoot | src/main/java/com/cloudbucket/cloudbucket/service/StorageServiceImpl.java:36-45 | an empty name reaches the upload directory itself: the write fails when that directory exists, and writes a file at its path when it is missing and its parent exists |
| Storage.AbsoluteNameIgnoresRoot | src/main/java/com/cloudbucket/cloudbucket/service/StorageServiceImpl.java:41 | an absolute accepted name lands where it points, whatever the root |
| Storage.AbsoluteNameEscapesRoot | src/main/java/com/cloudbucket/cloudbucket/service/StorageServiceImpl.java:36-45 | an upload named `/etc/passwd` is accepted and written at /etc/passwd |
| Storage.SimpleNameLandsInRoot | src/main/java/com/cloudbucket/cloudbucket/service/StorageServiceImpl.java:36-45 | a single plain name is written directly in an existing root, and store returns that path |
| Storage.ReportExample | src/main/java/com/cloudbucket/cloudbucket/service/StorageServiceImpl.java:36-45 | with root `/data/u`, `report.pdf` is written at /data/u/report.pdf |
| Storage.ReportPathText | src/main/java/com/cloudbucket/cloudbucket/web/FileController.java:74 | the recorded storage path of that upload reads `/data/u/report.pdf` |
| Storage.StorageService.LoadAsResource | src/main/java/com/cloudbucket/cloudbucket/service/StorageServiceImpl.java:49-61 | the resource is found exactly when a file exists at the destination of the name as given, and then it holds that file's bytes; otherwise "could not read" |
| Storage.StoreThenLoad | src/main/java/com/cloudbucket/cloudbucket/service/StorageServiceImpl.java:36-57 | after store of a name that cleanPath leaves as it is, loadAsResource of that name returns the stored path and bytes |
| Storage.LoadHasNoTraversalGuard | src/main/java/com/cloudbucket/cloudbucket/service/StorageServiceImpl.java:51-57 | for any upload directory, absolute or relative, `../f` reaches the file f beside it, outside it, and reads that file when it exists |
| Registry.Lookup | src/main/java/com/cloudbucket/cloudbucket/web/FileController.java:101 | findById returns a saved record with that id, or nothing when no record has it |
| Registry.OwnedBy | src/main/java/com/cloudbucket/cloudbucket/repository/StoredFileRepository.java:11 | findAllByOwner returns exactly the owner's records |
| Registry.StoredFileRepository.Save | src/main/java/com/cloudbucket/cloudbucket/repository/StoredFileRepository.java:10 | when the database accepts the insert, a new record gets the next identity and is appended, and identities stay distinct; when it refuses, save fails and nothing is recorded |
| Registry.FindAfterSave | src/main/java/com/cloudbucket/cloudbucket/repository/StoredFileRepository.java:10 | after save the new id finds the saved record and every other lookup is unchanged |
| Registry.ListAfterSave | src/main/java/com/cloudbucket/cloudbucket/repository/StoredFileRepository.java:11 | after save only the owner's list changes, gaining the record at its end |
| UrlEncoding.FormEncode | src/main/java/com/cloudbucket/cloudbucket/web/FileController.java:103 | the encoded name is made only of unreserved characters, `+` and `%` |
| UrlEncoding.FormEncodeKeepsUnreserved | src/main/java/com/cloudbucket/cloudbucket/web/FileController.java:103 | a name of unreserved characters is sent unchanged |
| UrlEncoding.FormEncodeAppend | src/main/java/com/cloudbucket/cloudbucket/web/FileController.java:103 | encoding works character by character: encoding a + b is encoding a followed by encoding b |
| Web.FileController.constructor | src/main/java/com/cloudbucket/cloudbucket/web/FileController.java:36-43 | the ceiling is parsed once from the configured size |
| Web.FileController.HandleFileUpload | src/main/java/com/cloudbucket/cloudbucket/web/FileController.java:56-79 | unknown user: exception, nothing changes. Empty or missing file, or a file over the ceiling: error flash, nothing stored or saved. Store failure: exception, nothing saved. Save failure after a successful store: exception, the bytes stay written and no record names them. Otherwise: bytes stored once, then exactly one record saved (original name, type, size, returned path, user) and the "Uploaded: " flash |
| Web.AcceptedSizes | src/main/java/com/cloudbucket/cloudbucket/web/FileController.java:60-67 | an upload goes ahead exactly when 0 < size <= ceiling, with the right error text otherwise |
| Web.UnusableCeilingRejectsAll | src/main/java/com/cloudbucket/cloudbucket/web/FileController.java:64-67 | a ceiling of 0 or below, from a bad or overflowing setting, rejects every upload |
| Web.DefaultCeiling | src/main/java/com/cloudbucket/cloudbucket/web/FileController.java:41-42 | the setting `500MB` admits a file of 1 byte up to 500 MiB and rejects every other size |
| Web.DefaultCeilingBytes | src/main/java/com/cloudbucket/cloudbucket/web/FileController.java:41-42 | the setting `500MB` gives a ceiling of 500·1024² bytes |
| Web.FileController.DownloadFile | src/main/java/com/cloudbucket/cloudbucket/web/FileController.java:99-109 | unknown id fails; the body is loadAsResource of the recorded original name; the length is the recorded size, or the resource length when none is recorded; the type is the recorded one or application/octet-stream; the header starts with the fixed prefix followed by URL-safe characters |
| Web.UploadThenDownload | src/main/java/com/cloudbucket/cloudbucket/web/FileController.java:68-107 | an upload whose name cleanPath keeps is downloaded under its new id with the same bytes, size, type and encoded name |
| Web.SameNameServesLatest | src/main/java/com/cloudbucket/cloudbucket/web/FileController.java:101-106 | a later upload under the same name is served for the earlier record, with the earlier record's size |
| Web.BackslashNameIsNotFound | src/main/java/com/cloudbucket/cloudbucket/web/FileController.java:102 | a name `x\y` is stored at root/x/y but looked up at root/`x\y`, so its download fails |

## Left out

- I/O is a state change on a map of file contents and a set of directories. Input streams, `Files.copy` buffering, I/O errors in the middle of a copy and `MalformedURLException` are not modelled.
- The JVM's default file system is modelled as Unix: `/` is the only separator and `\` is an ordinary character in a name. On Windows `Paths.get` also splits at `\`, so `Web.BackslashNameIsNotFound` describes Unix hosts only.
- Symbolic links are not modelled. Paths are resolved lexically, so a `..` after a name cancels that name even when the name does not exist.
- The process working directory, which `toAbsolutePath` uses, is a parameter of the service. The clock (`Instant.now()`) is a parameter of the upload.
- Web.FileController.HandleFileUpload: the user lookup (`findByUsername(...).orElseThrow()`) is an optional user passed in, and whether the database accepts the insert is a boolean passed in. Authentication, `RedirectAttributes` and the dashboard view are not modelled.
- Storage.StorageService.LoadAsResource: only regular files count as readable. A directory at the destination, which `UrlResource.exists()` would accept, gives "could not read".
- Storage.StorageService.Store: a directory at the destination is always an error. `Files.copy` with `REPLACE_EXISTING` would replace an empty directory, so the model fails some writes, such as an empty name over an empty upload directory, that Java lets through.
- Storage.StorageService.Init: the directories Files.createDirectories walks through are taken as the lexical ancestors of the normalized root.
- A null original file name and names that hold a NUL character are not modelled. Java would fail those with a NullPointerException or an InvalidPathException.
- Registry.StoredFileRepository.Save: only entities that have no id yet are saved. That is the only way the controller calls it; JPA's merge of an existing entity is left out.
- `MediaType.parseMediaType` failing on a malformed recorded type is not modelled. The type is returned as text.
- `StringUtils.cleanPath` is Spring library code, outside the CloudBucket repository, and the repository does not pin a Spring version. Its `jakarta.*` imports mean Spring Boot 3, so cleanPath is modelled on the Spring Framework 6 implementation: each double backslash and then each remaining backslash becomes `/`, a prefix up to `:` or a leading `/` is kept, and `.` and `name/..` elements are collapsed. Earlier Spring versions turn a double backslash into two slashes.
- `String.toUpperCase` maps ASCII letters only, and only ASCII digits are decimal digits. Locale and Unicode case mapping and non-ASCII digits are not modelled.
- The "500MB" in the too-large message is fixed text and is kept as such, whatever the ceiling is.
- Concurrent uploads and downloads are not modelled.
- The dashboard listing, the login and sign-up controllers and the global exception handler are not modelled.
