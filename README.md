# Recommended books: the library content engine in Dafny

The recommended-books repository keeps a personal library of recommended
books as a directory tree: one JSON record per book, grouped into shelf
folders, plus one site configuration (title, subtitle, footer text and the
ordered list of shelves). An Electron admin application edits that tree
through IPC handlers, command-line scripts add books and fetch covers, and
a build turns the tree into a static site whose script reads a generated
book index.

This project models that engine and proves what it promises:

- `Files`, `Types`, `Text`, `Seqs`, `Wrappers`: the folder tree as a map
  from paths to contents, JSON documents as a tagged value with a partial
  decoder, the book, shelf and configuration records, and the string
  helpers (kebab case, trimming, lower case).
- `LibraryStore`, `EngineHandlers`, `DesktopEngine`: the desktop engine's
  IPC handlers (`packages/admin/electron/main.ts`) as functions over the
  tree, and the engine as a class holding the tree and the preview server.
- `SiteBuild`, `CliBuild`, `Template`, `Preview`: the desktop build, the
  command-line build (`build-index.js`), the placeholder step, and the
  preview server's request guard and port search.
- `AdminLib`, `ConfigLib`, `CoversLib`, `OpenLibrary`: the renderer's
  book, shelf, configuration and cover helpers under
  `packages/admin/src/lib/`, each as a method that issues its engine calls
  and is specified by a function.
- `MockRepositories`: the in-memory repositories, as classes whose methods
  update their fields in place.
- `BookList`, `BookForm`, `ShelfManager`, `ConfigEditor`, `SetupWizard`:
  the decision logic of the admin screens (filters, selection, forms, the
  shelf dialogs, the settings editor and the first-run wizard), each with a
  `View` class whose handlers are specified by screen functions.
- `AddBook`, `DownloadCovers`, `PublicApp`: the command-line scripts
  `scripts/add-book.js` and `scripts/download-covers.js`, and the public
  site's `app.js`.

Input and output are parameters. A directory listing's order is an `order`
function the caller supplies. A network attempt, a file picker or a call
into the engine is an answer the caller supplies (returned or thrown). The
clock is not modelled.

Where the repository's design notes and its code disagree, the model follows
the code:

- `createShelf` (`packages/admin/src/lib/shelves.ts`) saves the
  configuration before it creates the shelf folder.
- The preview server tries the ports 8080 to 8100, both included.
- Redirects while downloading a cover are followed without a bound.
- The desktop `delete-shelf` handler removes the folder only and leaves the
  configuration to its caller.

## Model

| member | source | states |
|---|---|---|
| ConfigLib.ShelfIdToFolder | packages/admin/src/lib/config.ts:3-5 | the folder name has no upper-case letter, and an id already in lower case without a leading dash is its own folder name |
| ConfigLib.ShelfIdToFolderExamples | packages/admin/src/lib/config.ts:3-5 | an inner capital gets a dash in front ("myB" gives "my-b"); a leading capital's dash is dropped ("Ab" gives "ab") |
| ConfigLib.StripDisallowedKeeps | packages/admin/src/lib/config.ts:10 | only letters, digits, white space and dashes survive the strip, and a string made only of them is unchanged |
| ConfigLib.SpacesToDashProps | packages/admin/src/lib/config.ts:11 | no white space is left, kept characters become slug characters, a leading blank becomes a dash, and a string without white space is unchanged |
| ConfigLib.CollapseDashesShape | packages/admin/src/lib/config.ts:12 | no two dashes remain in a row and the first character is kept |
| ConfigLib.CollapseDashesKeeps | packages/admin/src/lib/config.ts:12 | slug characters stay slug characters, and a string without a dash run is unchanged |
| ConfigLib.ToKebabCase | packages/admin/src/lib/config.ts:7-14 | the result is always a kebab-case slug: lower-case letters, digits and single dashes, with no white space at either end |
| ConfigLib.KebabFixpoint | packages/admin/src/lib/config.ts:7-14 | a slug is its own slug |
| ConfigLib.KebabIdempotent | packages/admin/src/lib/config.ts:7-14 | slugging twice is slugging once |
| ConfigLib.KebabLeadingBlank | packages/admin/src/lib/config.ts:11-13 | a title starting with white space gives a slug starting with a dash, since `trim` runs last and does not remove dashes |
| ConfigLib.BookFileName | packages/admin/src/lib/books.ts:23 | the new record's file name is a plain `.json` name whose stem is the title's slug |
| CoversLib.CoverFileNameShape | packages/admin/src/lib/covers.ts:9-17 | a cover file name is a kebab-case slug of the title, a dot and the extension |
| CoversLib.IsLocalCover | packages/admin/src/lib/covers.ts:19-22 | true exactly for a present path starting with "books/covers/" or "covers/"; such a path is never an external cover |
| CoversLib.IsExternalCover | packages/admin/src/lib/covers.ts:24-27 | true exactly for a present URL starting with "http://" or "https://" |
| OpenLibrary.CoverUrl | packages/admin/src/lib/open-library.ts:9-12 | no URL for a missing or zero cover id; otherwise the covers service's `/b/id/<id>-<size>.jpg` address |
| OpenLibrary.FormatPublishDate | packages/admin/src/lib/open-library.ts:18-21 | empty exactly for a missing or zero year; otherwise the year followed by "-01-01" |
| OpenLibrary.ResultToBook | packages/admin/src/lib/open-library.ts:25-41 | title and page count copied; author is the first listed author or empty; date and cover from the two helpers; link empty exactly when the hit has no key, otherwise the service address followed by the key |
| Types.ShelfIndex | packages/admin/src/lib/shelves.ts:35 | the index of the first shelf with the id, or -1 exactly when no shelf has it |
| Types.FindShelf | packages/admin/src/lib/shelves.ts:50 | no shelf exactly when none has the id; otherwise the first one that has it |
| Types.PathIndex | packages/admin/src/repositories/mock/MockBookRepository.ts:26 | the index of the first record with that file path, or -1 when none has it |
| Types.PathIndexAt | packages/admin/src/repositories/mock/MockBookRepository.ts:26 | the first record with a path is the one found |
| Text.Lower | packages/admin/src/lib/books.ts:64 | each character is lower-cased on its own and the length is kept |
| Text.LowerNoUpper | packages/admin/src/lib/books.ts:64 | lowering leaves no upper-case letter, and a string without one is unchanged |
| Text.Trim | packages/admin/src/components/ConfigEditor.tsx:44-46 | the result neither starts nor ends with white space, is no longer than the input, and is empty exactly when the input is blank |
| Text.TrimStartBlank | packages/admin/src/lib/config.ts:13 | what the start trim removes is white space |
| Text.TrimEndBlank | packages/admin/src/lib/config.ts:13 | what the end trim removes is white space |
| Text.TrimNoop | packages/admin/src/lib/config.ts:13 | a string with no white space at either end is its own trim |
| Text.TrimTwice | packages/admin/src/components/ConfigEditor.tsx:44-46 | trimming twice is trimming once |
| Text.Split | packages/admin/src/lib/books.ts:43 | the pieces hold no separator, there is at least one, and joining them with the separator gives the input back |
| Text.NatToString | packages/admin/src/lib/open-library.ts:11 | the rendering is digits only, non-empty, with no leading zero |
| Text.NatToStringValue | packages/admin/src/lib/open-library.ts:11 | reading the digits back gives the number |
| Text.NatToStringInjective | packages/admin/src/lib/open-library.ts:11 | two numbers with the same rendering are equal |
| Text.IntToString | packages/admin/src/lib/open-library.ts:11 | a non-negative number renders as its digits, a negative one as a minus sign and the digits of its magnitude |
| Seqs.Filter | packages/admin/src/lib/books.ts:59-61 | every kept element passes, every passing element is kept as often as it occurs, the order is kept (a subsequence) and the length does not grow |
| Seqs.FilterMembers | packages/admin/src/lib/books.ts:59-61 | an element is in the filtered sequence exactly when it is in the input and passes |
| Seqs.FilterAll | packages/admin/src/lib/books.ts:59-61 | filtering with a test every element passes changes nothing |
| Seqs.SubsequenceTrans | packages/admin/src/components/BookList.tsx:38-56 | a subsequence of a subsequence is a subsequence, which chains the shelf filter and the search |
| Files.EntriesMember | packages/admin/electron/main.ts:141 | a name is listed in a folder exactly when the folder joined with that name exists |
| Files.ListDir | packages/admin/electron/main.ts:141 | listing succeeds exactly on an existing folder |
| Files.ReadFile | packages/admin/electron/main.ts:164-167 | reading succeeds exactly on an existing file and gives its content |
| Files.ReadConfig | packages/admin/electron/main.ts:110-117 | parsing a configuration succeeds exactly when the file exists and holds one, and gives that configuration |
| Files.ReadBook | packages/admin/electron/main.ts:164-167 | parsing a record succeeds exactly when the file exists and holds a book, and gives that book |
| Files.WriteFile | packages/admin/electron/main.ts:119-122 | a write succeeds exactly when the path is not a folder and its parent folder exists, and then only that path's content changes |
| Files.Mkdirs | packages/admin/electron/main.ts:179-182 | a recursive mkdir fails exactly when some prefix of the path is a file, and otherwise adds every prefix as a folder and changes no file |
| Files.EnsureDir | packages/admin/electron/main.ts:179-182 | after "create if missing" the folder exists, no file changed and no folder was lost |
| Files.Unlink | packages/admin/electron/main.ts:190-194 | unlinking succeeds exactly on an existing file and removes just that file |
| Files.Rmdir | packages/admin/electron/main.ts:244 | only an empty folder other than the root is removed, and nothing else changes |
| Files.RemoveTree | packages/admin/electron/main.ts:351-354 | a recursive removal takes the path and everything below it, keeps everything else and every kept file's content |
| Files.Rename | packages/admin/electron/main.ts:213 | a rename succeeds exactly when the source file exists and the destination's parent is a folder; the content moves and the source goes |
| Files.CopyFile | packages/admin/electron/main.ts:400-406 | a copy succeeds under the same condition and writes the source's content at the destination, keeping the source |
| Files.Normalize | packages/admin/electron/main.ts:460 | the normal form has only plain segments and is no longer than the input |
| Files.NormalizePlain | packages/admin/electron/main.ts:460 | a path that is already plain is its own normal form |
| Files.Join | packages/admin/electron/main.ts:135 | joining onto a plain base gives a plain path |
| Files.NormalizeAppendPlain | packages/admin/electron/main.ts:460 | plain segments after any prefix survive normalisation unchanged |
| Files.ParseRender | packages/admin/electron/main.ts:184-187 | the path string a handler returns resolves back to the same path |
| Files.JoinName | packages/admin/electron/main.ts:184 | joining a plain name adds exactly that one segment |
| Files.MkdirsValid | packages/admin/electron/main.ts:179-182 | a recursive mkdir keeps the tree well formed |
| Files.WriteFileValid | packages/admin/electron/main.ts:184-185 | a write keeps the tree well formed |
| Files.UnlinkValid | packages/admin/electron/main.ts:190-194 | an unlink keeps the tree well formed |
| Files.RmdirValid | packages/admin/electron/main.ts:244 | removing an empty folder keeps the tree well formed |
| Files.RemoveTreeValid | packages/admin/electron/main.ts:351-354 | a recursive removal keeps the tree well formed |
| Files.RenameValid | packages/admin/electron/main.ts:213 | a rename keeps the tree well formed |
| Files.CopyFileValid | packages/admin/electron/main.ts:400-406 | a copy keeps the tree well formed |
| LibraryStore.ShelfRecordsSound | packages/admin/electron/main.ts:141-158 | every record listed for a shelf is a parsed `.json` file of that shelf's folder, tagged with the shelf's id and label |
| LibraryStore.ShelfRecordsComplete | packages/admin/electron/main.ts:141-158 | every listed `.json` name whose file parses is enumerated with the shelf's tags |
| LibraryStore.AllBooksSound | packages/admin/electron/main.ts:128-162 | every record `get-books` returns is a parsed `.json` file in the folder of one of the configured shelves, tagged with that shelf |
| LibraryStore.AllBooksComplete | packages/admin/electron/main.ts:128-162 | every `.json` file that parses, in the folder of a configured shelf, is returned with that shelf's tags |
| LibraryStore.JsonCount | packages/admin/electron/main.ts:240-242 | the number of `.json` names a listing reports is the number of such entries in the folder |
| LibraryStore.FilterDistinct | packages/admin/electron/main.ts:141 | filtering a listing without repeats gives one without repeats |
| EngineHandlers.GetConfigRun | packages/admin/electron/main.ts:110-117 | `get-config` fails with "config.json not found" when nothing is at the path, succeeds exactly when the file holds a configuration, and then gives it |
| EngineHandlers.SaveConfigOutcome | packages/admin/electron/main.ts:119-122 | `save-config` succeeds exactly when the site folder exists and the path is not a folder; it then writes only the configuration file, a later `get-config` gives back what was saved, and a failure changes nothing |
| EngineHandlers.SaveConfigValid | packages/admin/electron/main.ts:119-122 | `save-config` keeps the tree well formed |
| EngineHandlers.GetBookRun | packages/admin/electron/main.ts:164-167 | `get-book` succeeds exactly when the resolved path holds a record, and gives that record |
| EngineHandlers.SaveBookOutcome | packages/admin/electron/main.ts:169-188 | `save-book` fails without change on an unreadable configuration and with "Shelf with id … not found" on an unknown shelf; a finished save writes only the record's file in the shelf folder, adds folders only, returns that file's path and reads the record back |
| EngineHandlers.SaveThenGetBook | packages/admin/electron/main.ts:164-188 | the path `save-book` answers with reads back, through `get-book`, the record that was saved |
| EngineHandlers.SaveBookValid | packages/admin/electron/main.ts:169-188 | `save-book` keeps the tree well formed |
| EngineHandlers.SavedBookListed | packages/admin/electron/main.ts:128-188 | a record saved under a `.json` name is listed by `get-books` afterwards, with that content, name and shelf |
| EngineHandlers.DeleteIdempotent | packages/admin/electron/main.ts:190-194 | deleting a missing path changes nothing; deleting a file removes exactly it; a folder makes the unlink throw with no change; deleting again after a delete changes nothing |
| EngineHandlers.DeleteListedBook | packages/admin/electron/main.ts:128-194 | `delete-book` on the path `get-books` reported removes exactly that record's file |
| EngineHandlers.MoveBookUnknownShelf | packages/admin/electron/main.ts:196-202 | an unknown target shelf is refused with "Target shelf with id … not found" before anything changes |
| EngineHandlers.MoveBookOutcome | packages/admin/electron/main.ts:196-215 | a finished move takes the file to the target shelf's folder under the same base name, carries the content, leaves nothing at the old path and answers with the new path |
| EngineHandlers.MoveBookValid | packages/admin/electron/main.ts:196-215 | `move-book` keeps the tree well formed |
| EngineHandlers.CreateShelfOutcome | packages/admin/electron/main.ts:221-226 | `create-shelf` changes no file, leaves the shelf folder existing, does nothing when it already exists, and doing it twice is doing it once |
| EngineHandlers.RemoveShelfDirOutcome | packages/admin/electron/main.ts:238-245 | removing an empty shelf folder changes no file and removes exactly that folder |
| EngineHandlers.DeleteShelfOutcome | packages/admin/electron/main.ts:228-246 | `delete-shelf` changes no file; an unknown shelf is refused with "Shelf with id … not found"; a finished deletion removes just the shelf's folder |
| EngineHandlers.DeleteShelfKeepsBooks | packages/admin/electron/main.ts:238-243 | a shelf whose folder holds a `.json` entry is refused with "Cannot delete shelf … it contains N book(s)", N being the number of such entries, and nothing changes |
| EngineHandlers.BuildReportConfigFailure | packages/admin/electron/main.ts:340-438 | `build-site` with an unreadable configuration reports failure with that error and changes nothing |
| EngineHandlers.BuildReportCount | packages/admin/electron/main.ts:386-432 | a finished build reports "Built N books to dist/", N being the number of entries the written index lists |
| EngineHandlers.StartFindsFirstFreePort | packages/admin/electron/main.ts:445-517 | without a `dist` folder the start fails with the "Build the site first" error; a started preview listens on the first port from 8080 to 8100 that binds, every earlier port being in use, and reports `http://127.0.0.1:<port>` |
| EngineHandlers.SubfolderJsonCountZero | packages/admin/electron/main.ts:559-567 | the count is zero exactly when no folder other than `covers` holds a `.json` entry |
| EngineHandlers.ExistingBooksZero | packages/admin/electron/main.ts:551-570 | `check-existing-books` counts zero exactly when no shelf folder under `books` other than `covers` holds a `.json` entry |
| EngineHandlers.SubDirs | packages/admin/electron/main.ts:560-562 | the names kept are exactly the listed names that are folders |
| EngineHandlers.LoadSampleShelves | packages/admin/electron/main.ts:617-625 | a finished `load-sample-data` leaves the configuration it found with its shelves replaced by the four sample shelves and every other field kept |
| EngineHandlers.CopySampleFrame | packages/admin/electron/main.ts:587-615 | copying the sample shelves changes nothing outside `books` and keeps the tree well formed |
| EngineHandlers.LoadShelvesFrame | packages/admin/electron/main.ts:594-615 | copying shelf after shelf changes nothing outside `books` and keeps the tree well formed |
| EngineHandlers.LoadShelfFrame | packages/admin/electron/main.ts:597-614 | copying one shelf changes nothing outside `books` and keeps the tree well formed |
| EngineHandlers.CopyBookFilesAbortFrame | packages/admin/electron/main.ts:606-613 | a copy that throws part-way has still changed nothing outside the target root |
| EngineHandlers.LoadSampleValid | packages/admin/electron/main.ts:572-639 | `load-sample-data` keeps the tree well formed |
| DesktopEngine.AllBooksStep | packages/admin/electron/main.ts:134-159 | one more configured shelf appends its records after those of the shelves before it, or the failure of reading it |
| DesktopEngine.BuildStages | packages/admin/electron/main.ts:340-432 | the build is the preparation (configuration, `dist`, statics, page, configuration copy) followed, when that finishes, by the copying of the shelves it read |
| DesktopEngine.Engine.constructor | packages/admin/electron/main.ts:8-61 | the engine starts on the given tree and site folder with no preview server |
| DesktopEngine.Engine.GetConfig | packages/admin/electron/main.ts:110-117 | `get-config` answers with the configuration run on the current tree |
| DesktopEngine.Engine.SaveConfig | packages/admin/electron/main.ts:119-122 | `save-config` leaves the tree the configuration run leaves, keeps the server and answers with that run's outcome |
| DesktopEngine.Engine.GetBook | packages/admin/electron/main.ts:164-167 | `get-book` answers with the record at the resolved path |
| DesktopEngine.Engine.GetBooks | packages/admin/electron/main.ts:128-162 | `get-books` answers with the records of every configured shelf whose folder exists, in listing order |
| DesktopEngine.Engine.ReadShelves | packages/admin/electron/main.ts:134-159 | the loop over the configured shelves collects the same records as the shelf-by-shelf definition |
| DesktopEngine.Engine.ReadShelfFiles | packages/admin/electron/main.ts:143-158 | the inner loop pushes exactly the parsed records, skipping a file that does not parse |
| DesktopEngine.Engine.SaveBook | packages/admin/electron/main.ts:169-188 | `save-book` leaves the tree the save run leaves, keeps the server and answers with that run's outcome |
| DesktopEngine.Engine.SaveInto | packages/admin/electron/main.ts:177-187 | creating the shelf folder if missing and writing the record is the run the save lemmas describe |
| DesktopEngine.Engine.DeleteBook | packages/admin/electron/main.ts:190-194 | `delete-book` removes the resolved file when it exists and answers with the run's outcome |
| DesktopEngine.Engine.DeleteCover | packages/admin/electron/main.ts:295-300 | `delete-cover` removes the file at the site-relative path when it exists |
| DesktopEngine.Engine.DeleteFile | packages/admin/electron/main.ts:191-193 | "unlink if it exists" is the run `DeleteIfExists` |
| DesktopEngine.Engine.MoveBook | packages/admin/electron/main.ts:196-215 | `move-book` leaves the tree the move run leaves, keeps the server and answers with that run's outcome |
| DesktopEngine.Engine.MoveInto | packages/admin/electron/main.ts:204-214 | creating the target folder if missing and renaming the file is the run the move lemmas describe |
| DesktopEngine.Engine.CreateShelf | packages/admin/electron/main.ts:221-226 | `create-shelf` leaves the tree the creation run leaves |
| DesktopEngine.Engine.DeleteShelf | packages/admin/electron/main.ts:228-246 | `delete-shelf` leaves the tree the deletion run leaves and answers with its outcome |
| DesktopEngine.Engine.RemoveShelfFolder | packages/admin/electron/main.ts:238-245 | the emptiness check and `rmdir` are the run `RemoveShelfDir` |
| DesktopEngine.Engine.ReorderShelves | packages/admin/electron/main.ts:248-250 | `reorder-shelves` changes neither the tree nor the server |
| DesktopEngine.Engine.PrepareBuild | packages/admin/electron/main.ts:342-384 | reading the configuration, wiping and recreating `dist`, the statics, the page, the configuration copy and `dist/books` are the run `Prepare` |
| DesktopEngine.Engine.CopyStaticFiles | packages/admin/electron/main.ts:358-366 | the loop over the static files copies each one that exists, as `CopyStatics` defines |
| DesktopEngine.Engine.CopyShelfFiles | packages/admin/electron/main.ts:400-406 | the loop over one shelf's `.json` files copies each and records `folder/file`, as `CopyBookFiles` defines |
| DesktopEngine.Engine.CopyAllShelves | packages/admin/electron/main.ts:388-407 | the loop over the configured shelves skips a missing folder and copies the others, as `CopyShelves` defines |
| DesktopEngine.Engine.CopyOneShelf | packages/admin/electron/main.ts:389-406 | one pass of the shelf loop is `CopyShelf` |
| DesktopEngine.Engine.WriteIndexAndCovers | packages/admin/electron/main.ts:409-427 | writing `books/index.json` and then copying the covers that are not hidden is `Conclude` |
| DesktopEngine.Engine.CopyCoverList | packages/admin/electron/main.ts:421-426 | the loop over the cover files copies each one, as `CopyCoverFiles` defines |
| DesktopEngine.Engine.BuildSite | packages/admin/electron/main.ts:340-439 | `build-site` leaves the tree the build leaves, whatever earlier steps did staying done when a later one throws, and answers `{ success, message }` as `BuildReport` gives it |
| DesktopEngine.Engine.RunBuild | packages/admin/electron/main.ts:342-432 | the body of the handler's `try` is the run `Build` |
| DesktopEngine.Engine.AssembleSite | packages/admin/electron/main.ts:386-427 | the shelves, the index and the covers are the run `Assemble` |
| DesktopEngine.Engine.StartPreview | packages/admin/electron/main.ts:445-518 | the old server is closed, the tree is unchanged, the answer is the port search's result and the server is set exactly when a port was found |
| DesktopEngine.Engine.StopPreview | packages/admin/electron/main.ts:520-525 | `stop-preview-server` leaves no server and the tree unchanged |
| DesktopEngine.Engine.CheckExistingBooks | packages/admin/electron/main.ts:551-570 | `check-existing-books` answers with the count `ExistingBooks` defines |
| DesktopEngine.Engine.CountShelfFiles | packages/admin/electron/main.ts:560-567 | the loop over the typed listing adds the `.json` count of every folder other than `covers` |
| DesktopEngine.Engine.LoadSampleData | packages/admin/electron/main.ts:572-639 | `load-sample-data` leaves the tree the load run leaves and answers `{ success, message, booksLoaded }` as `SampleReport` gives it |
| DesktopEngine.Engine.UseSample | packages/admin/electron/main.ts:617-625 | reading the configuration and writing it back with the sample shelves is the run `UseSampleShelves` |
| DesktopEngine.Engine.CopySampleShelves | packages/admin/electron/main.ts:578-615 | the existence check, `books` creation and the folder loop are the run `CopySample` |
| DesktopEngine.Engine.LoadAllShelves | packages/admin/electron/main.ts:595-615 | the loop over the sample folders counts the copied files, as `LoadShelves` defines |
| DesktopEngine.Engine.LoadOneShelf | packages/admin/electron/main.ts:597-614 | one sample folder, target folder then its `.json` files, is `LoadShelf` |
| SiteBuild.Prefixed | packages/admin/electron/main.ts:405 | the index entries of one shelf are `"<folder>/<name>"` for each copied name, in order |
| SiteBuild.BuildValid | packages/admin/electron/main.ts:340-432 | the build leaves a well-formed tree, whether it finishes or a step throws |
| SiteBuild.CleanOutputs | packages/admin/electron/main.ts:351-355 | wiping and recreating `dist` changes nothing outside it |
| SiteBuild.CopyStaticsFrame | packages/admin/electron/main.ts:358-366 | copying the static files changes nothing outside `dist` |
| SiteBuild.RenderPageOutputs | packages/admin/electron/main.ts:368-377 | filling in the page changes nothing outside `dist` and, when the site has a page, writes `dist/index.html` as the three `replace` calls leave it |
| SiteBuild.FinishOutputs | packages/admin/electron/main.ts:379-384 | the configuration copy puts the site's `config.json` in `dist`, keeps every other file, and creates `dist/books` |
| SiteBuild.PublishOutputs | packages/admin/electron/main.ts:358-384 | statics, page and configuration copy change nothing outside `dist`, and leave the configuration copy, the filled-in page and `dist/books` |
| SiteBuild.PrepareShape | packages/admin/electron/main.ts:349-384 | a finished preparation read the configuration first, then wiped `dist`, then copied |
| SiteBuild.PrepareOutputs | packages/admin/electron/main.ts:349-384 | a finished preparation changes nothing outside `dist`, which then holds the configuration read and the filled-in page |
| SiteBuild.CopyShelfFrame | packages/admin/electron/main.ts:389-406 | copying one shelf yields `"<folder>/<name>"` for each `.json` name of its source folder as the original tree lists them, nothing for a missing folder, and touches nothing outside `dist/books` |
| SiteBuild.CopyShelvesFrame | packages/admin/electron/main.ts:386-407 | the shelf loop yields the reference index `IndexOf` of the original tree and touches nothing outside `dist/books` |
| SiteBuild.ConcludeOutputs | packages/admin/electron/main.ts:409-427 | writing the index and the covers changes nothing outside `dist/books` and leaves `index.json` holding the index |
| SiteBuild.AssembleOutputs | packages/admin/electron/main.ts:386-427 | the shelves, index and covers yield `IndexOf`, change nothing outside `dist/books`, and `index.json` holds that index |
| SiteBuild.BuildShape | packages/admin/electron/main.ts:340-432 | a finished build is a finished preparation followed by the assembly |
| SiteBuild.BuildIndex | packages/admin/electron/main.ts:386-407 | a finished build's index is `"<folder>/<name>"` for every `.json` name of every configured shelf whose source folder exists, shelf by shelf in configuration order, names in listing order |
| SiteBuild.BuildWritesIndex | packages/admin/electron/main.ts:409-413 | that index is what `dist/books/index.json` holds after a finished build |
| SiteBuild.BuildCopiesConfig | packages/admin/electron/main.ts:379-380 | a finished build leaves a copy of the configuration in `dist` |
| SiteBuild.BuildRendersPage | packages/admin/electron/main.ts:368-377 | a finished build leaves `dist/index.html` with the placeholders replaced as the `replace` calls do, `$` patterns included |
| SiteBuild.BuildConfigFirst | packages/admin/electron/main.ts:348-349 | when the configuration cannot be read the build throws before anything is touched |
| SiteBuild.CoversSkipHidden | packages/admin/electron/main.ts:420 | a cover whose name starts with a dot is never copied |
| SiteBuild.SourceApart | packages/admin/electron/main.ts:342-346 | the build source (`books` or `books-sample`) and the output are separate folders |
| SiteBuild.ListedPlain | packages/admin/electron/main.ts:398 | the names a listing of a well-formed tree gives are plain names |
| CliBuild.CliNamesPlain | build-index.js:25-40 | the static, template and shelf-folder names are plain names, and none of the first two is `dist` |
| CliBuild.CliConfigFirst | build-index.js:53-59 | a configuration that is missing or does not parse ends the script before `dist` is touched, a missing one with "config.json not found" |
| CliBuild.CleanDistEmpty | build-index.js:68-73 | after `cleanDist` the `dist` folder exists and is empty, and nothing outside it changed |
| CliBuild.DistCleared | build-index.js:69-71 | removing `dist` keeps the tree well formed, leaves no file on the way to it and changes nothing outside it |
| CliBuild.StaticListOutputs | build-index.js:77-85 | the static-file loop warns "Static file not found" for exactly the missing files, in order, and changes nothing outside `dist` |
| CliBuild.TemplateListOutputs | build-index.js:88-98 | the template loop warns "Template file not found" for exactly the missing templates and changes nothing outside `dist` |
| CliBuild.CopyStaticFilesOutputs | build-index.js:75-102 | `copyStaticFiles` prints the static-file warnings then the template warnings and changes nothing outside `dist` |
| CliBuild.CopyEntriesOutputs | build-index.js:122-126 | copying one folder's entries leaves each of its records copied with the same content under `dist/books/<folder>/` and keeps every earlier copy |
| CliBuild.AddFolderOutputs | build-index.js:110-128 | one folder adds its `"<folder>/<file>"` entries to the index and copies them, and is warned about exactly when it is missing |
| CliBuild.BuildFoldersOutputs | build-index.js:109-129 | the folder loop yields the reference index `FolderIndex` and the "Folder not found" warnings for exactly the missing folders, and every indexed record is copied |
| CliBuild.IndexKeepsMirrors | build-index.js:132-133 | writing `index.json` replaces no record copy |
| CliBuild.BuildBooksOutputs | build-index.js:104-136 | `buildBooks` returns the reference index, writes it to `dist/books/index.json` and leaves every indexed record copied |
| CliBuild.CliPrepareOutputs | build-index.js:141-150 | configuration, clean-up and static files change nothing outside `dist` and warn about exactly the missing static files and templates |
| CliBuild.CliBuildIndex | build-index.js:138-160 | a finished build's index is the reference index of the source folder, and it is what `dist/books/index.json` holds |
| CliBuild.CliBuildWarnings | build-index.js:75-115 | the warnings are each missing static file, then each missing template, then each missing shelf folder, and none of them stops the build |
| CliBuild.CliBuildCopies | build-index.js:117-126 | every `.json` record of an existing shelf folder is indexed as `folder/name` and copied to `dist/books/<folder>/<name>` with its content |
| CliBuild.FolderIndexHas | build-index.js:117-119 | a `.json` entry of an existing listed folder appears in the index |
| CliBuild.JoinPair | build-index.js:123-124 | joining `folder + '/' + name` onto a folder adds exactly those two segments |
| CliBuild.CliBuilder.CopyOne | build-index.js:48-51 | `copyFile` creates the destination's folder if needed and then copies, as `CopyInto` defines |
| CliBuild.CliBuilder.Clean | build-index.js:68-73 | `cleanDist` is `CleanDist` |
| CliBuild.CliBuilder.CopyStaticLoop | build-index.js:77-85 | the static-file loop is `CopyStaticList` |
| CliBuild.CliBuilder.TemplateLoop | build-index.js:88-98 | the template loop, rendering each page as the `replace` calls do, is `TemplateList` |
| CliBuild.CliBuilder.CopySiteFiles | build-index.js:75-102 | `copyStaticFiles` is `CopyStaticFiles` |
| CliBuild.CliBuilder.CopyEntriesLoop | build-index.js:122-126 | the copy loop of one folder is `CopyEntries` |
| CliBuild.CliBuilder.FolderLoop | build-index.js:109-129 | the folder loop of `buildBooks` is `BuildFolders` |
| CliBuild.CliBuilder.BuildBookIndex | build-index.js:104-136 | `buildBooks` is `BuildBooks` |
| CliBuild.CliBuilder.Build | build-index.js:138-171 | `build` gives the index and every warning printed, or the message the script stops with, as `CliBuildRun` defines |
| Template.SplitOnJoin | build-index.js:61-66 | splitting a text on a placeholder and joining the pieces with it gives the text back |
| Template.ReplaceAllIsJoin | build-index.js:61-66 | replacing a placeholder literally is joining the pieces between its occurrences with the replacement, so the text between occurrences is kept |
| Template.ReplaceAllAbsent | build-index.js:61-66 | a text without the placeholder is left unchanged |
| Template.ProcessTemplateWithoutPlaceholders | build-index.js:61-66 | a page holding none of the three placeholders is published unchanged |
| Template.ExpandWithoutDollar | build-index.js:63-65 | a replacement text without `$` is inserted as it is |
| Template.RegexReplaceFromLiteral | build-index.js:63-65 | without `$` in the replacement, the global regular-expression replacement is the literal one |
| Template.AsWrittenAgreesWithoutDollar | build-index.js:61-66 | for configured texts without `$` the template step as written and the literal one agree |
| Template.DollarTitleIsRewritten | build-index.js:63 | a site title `$$` is published as a single `$` by the step as written, while the literal step keeps `$$` |
| Preview.LastDot | packages/admin/electron/main.ts:470 | the index found is the last `.` of the text, or -1 when it has none |
| Preview.ExtName | packages/admin/electron/main.ts:470 | `path.extname` is empty or a dotted suffix of the name with no other dot |
| Preview.ExtNameOf | packages/admin/electron/main.ts:470 | a non-empty stem followed by a dotted suffix without another dot has that suffix as its extension |
| Preview.ExtNameNone | packages/admin/electron/main.ts:470 | a name whose only dot, if any, is its first character has no extension |
| Preview.RespondConfined | packages/admin/electron/main.ts:459-491 | with the segment guard, a request is refused exactly when its path leaves `dist`, not found exactly when it is inside but no file, and served exactly when it is a file inside, with that file's content |
| Preview.RootServesIndex | packages/admin/electron/main.ts:460-489 | the root URL serves `dist/index.html` as `text/html` |
| Preview.GuardOnlyTightens | packages/admin/electron/main.ts:462-467 | the segment guard refuses everything the string guard refuses, and answers whatever it lets through as the source does |
| Preview.GuardAsWrittenLeaks | packages/admin/electron/main.ts:460-467 | the request `/../<x>/<f>` names the sibling file `<x>/<f>` outside `dist`; the string guard as written serves it, the segment guard refuses it |
| Preview.RenderUnder | packages/admin/electron/main.ts:463 | a path inside `dist` renders to a string starting with `dist`'s |
| Preview.PortSearch | packages/admin/electron/main.ts:499-516 | a port the corrected search gives lies between its start and 8100 |
| Preview.PortSearchFinds | packages/admin/electron/main.ts:499-516 | the corrected search succeeds exactly when some port up to 8100 binds with only ports in use before it, and then gives that first port |
| Preview.PortInUseAsWritten | packages/admin/electron/main.ts:494-513 | with 8080 in use and 8081 free the start as written fails with `EADDRINUSE`, while the corrected search finds 8081 |
| Preview.PreviewUrl | packages/admin/electron/main.ts:502 | the address is `http://127.0.0.1:` followed by the port |
| Preview.PreviewUrlInjective | packages/admin/electron/main.ts:502 | distinct ports give distinct addresses |
| AdminLib.FileNameFor | packages/admin/src/lib/books.ts:18 | a given file name is kept; an absent or empty one becomes the title's slug followed by `.json`, a plain `.json` name |
| AdminLib.SaveBook | packages/admin/src/lib/books.ts:12-20 | `saveBook` is the engine's `save-book` under the chosen file name, with its outcome |
| AdminLib.CreateBook | packages/admin/src/lib/books.ts:22-25 | `createBook` is `save-book` under the title's slug file name |
| AdminLib.SavedUnderName | packages/admin/src/lib/books.ts:12-20 | a save under a plain name answers with a path whose last segment is that name and which reads the saved record back |
| AdminLib.CreatedBookNamed | packages/admin/src/lib/books.ts:22-25 | a created book is stored under its title's slug and reads back |
| AdminLib.UpdateBook | packages/admin/src/lib/books.ts:27-49 | `updateBook` leaves the tree and answers as the update run defines |
| AdminLib.UpdateCurrent | packages/admin/src/lib/books.ts:39-48 | the part after the lookup: move-then-save or save in place |
| AdminLib.MoveAndSave | packages/admin/src/lib/books.ts:40-45 | a move to another shelf followed by a save there under the path's last segment |
| AdminLib.UpdateBookUnlisted | packages/admin/src/lib/books.ts:32-37 | a path `get-books` does not list is refused with "Book not found" and nothing changes |
| AdminLib.UpdateBookInPlace | packages/admin/src/lib/books.ts:47-48 | without a target, or with the record's own shelf, the record is saved where it is under its own file name |
| AdminLib.MovedPathName | packages/admin/src/lib/books.ts:41-43 | the path a move answers with ends in the moved file's base name, which is never empty |
| AdminLib.UpdateBookMoveKeepsName | packages/admin/src/lib/books.ts:40-44 | a move to another shelf saves the record on the target shelf under the base name it had |
| AdminLib.BooksOnShelf | packages/admin/src/lib/books.ts:59-61 | `getBooksByShelf` keeps exactly the records on that shelf, each as often as it occurs, in their order |
| AdminLib.SearchBooks | packages/admin/src/lib/books.ts:63-71 | `searchBooks` keeps exactly the records whose title, author or category contains the lower-cased query, each as often as it occurs, in order |
| AdminLib.SearchEmptyQuery | packages/admin/src/lib/books.ts:63-71 | the empty query finds every book |
| AdminLib.SearchIgnoresCase | packages/admin/src/lib/books.ts:64 | searching with a query or its lower-cased form gives the same records |
| AdminLib.GetShelves | packages/admin/src/lib/shelves.ts:4-7 | `getShelves` gives the configured shelves, or the configuration's error |
| AdminLib.NewShelf | packages/admin/src/lib/shelves.ts:17-21 | the new shelf has the given id and label, and the given folder or, when none, the id's folder name |
| AdminLib.CreateShelf | packages/admin/src/lib/shelves.ts:9-28 | `createShelf` leaves the tree and answers as the creation flow defines |
| AdminLib.SaveAndCreate | packages/admin/src/lib/shelves.ts:23-27 | the configuration is saved before the folder is created |
| AdminLib.CreateShelfTaken | packages/admin/src/lib/shelves.ts:12-15 | a taken id is refused with "already exists" before anything is written |
| AdminLib.CreateShelfAdds | packages/admin/src/lib/shelves.ts:9-28 | a creation appends the new shelf to the configuration, writes only the configuration file, leaves the folder existing when it finishes, and keeps unique ids unique |
| AdminLib.AppendFreshId | packages/admin/src/lib/shelves.ts:13-23 | adding a shelf with a free id keeps the ids unique |
| AdminLib.Merged | packages/admin/src/lib/shelves.ts:38-41 | `{ ...shelf, ...updates }` keeps the id and takes each field from the update when given, else from the shelf |
| AdminLib.UpdateShelf | packages/admin/src/lib/shelves.ts:30-44 | `updateShelf` leaves the tree and answers as the update flow defines |
| AdminLib.UpdateShelfOutcome | packages/admin/src/lib/shelves.ts:30-44 | an unknown id is refused with nothing changed; a finished update replaces the first shelf with that id by the merged one, keeps the others and the order, and creates or removes no folder |
| AdminLib.Without | packages/admin/src/lib/shelves.ts:58 | the filter drops every shelf with the id and keeps every other one, in order |
| AdminLib.DeleteShelf | packages/admin/src/lib/shelves.ts:46-60 | `deleteShelf` leaves the tree and answers as the deletion flow defines |
| AdminLib.DeleteAndSave | packages/admin/src/lib/shelves.ts:54-59 | the engine deletes the folder first and only then is the configuration saved |
| AdminLib.DeleteShelfRefused | packages/admin/src/lib/shelves.ts:54-59 | when the engine refuses the delete the configuration is not saved and nothing changes |
| AdminLib.DeleteShelfKeepsFullShelf | packages/admin/src/lib/shelves.ts:46-60 | a shelf whose folder still holds a `.json` entry stays, on disk and in the configuration |
| AdminLib.DeleteShelfRemoves | packages/admin/src/lib/shelves.ts:46-60 | a finished delete leaves the configuration without the shelf, the others in order, and changes no other file |
| AdminLib.FirstMissing | packages/admin/src/lib/shelves.ts:66-71 | the validation loop stops at the first id that names no shelf, or runs to the end when all are known |
| AdminLib.LastWithId | packages/admin/src/lib/shelves.ts:74 | the map built from the shelves finds a shelf with the id exactly when one exists |
| AdminLib.LastWithIdUnique | packages/admin/src/lib/shelves.ts:74 | with unique ids the map finds the one shelf with that id |
| AdminLib.InOrder | packages/admin/src/lib/shelves.ts:75 | the reordered list has exactly the requested ids, in that order, and only shelves from the configuration |
| AdminLib.ReorderShelves | packages/admin/src/lib/shelves.ts:62-79 | `reorderShelves` leaves the tree and answers as the reorder flow defines |
| AdminLib.CheckIds | packages/admin/src/lib/shelves.ts:66-71 | the validation loop stops where `FirstMissing` says |
| AdminLib.ReorderOutcome | packages/admin/src/lib/shelves.ts:62-79 | an unknown id aborts with nothing changed; a finished reorder saves the shelves in the requested order, drawn from the configuration, and changes only the configuration file |
| AdminLib.InOrderOwnIds | packages/admin/src/lib/shelves.ts:74-75 | reordering by the current order of unique ids changes nothing |
| AdminLib.MoveAllValid | packages/admin/src/lib/shelves.ts:98-100 | the moves keep the tree well formed |
| AdminLib.MergeShelf | packages/admin/src/lib/shelves.ts:81-104 | `mergeShelf` leaves the tree and answers as the merge flow defines |
| AdminLib.MoveEachThenDelete | packages/admin/src/lib/shelves.ts:98-103 | every listed book is moved and then the source shelf is deleted |
| AdminLib.MoveEach | packages/admin/src/lib/shelves.ts:98-100 | the move loop stops at the first move that throws and otherwise moves each path in turn, as `MoveAll` defines |
| AdminLib.MergeUnknownShelf | packages/admin/src/lib/shelves.ts:84-92 | an unknown source is refused, then an unknown target, before anything changes |
| AdminLib.MergeRemovesSource | packages/admin/src/lib/shelves.ts:81-104 | a finished merge leaves a configuration without the source shelf |
| AdminLib.MergeMovesEveryBook | packages/admin/src/lib/shelves.ts:95-103 | after a finished merge every record `get-books` listed on the source shelf is stored, with the same content, in the target shelf's folder under its own base name |
| AdminLib.MoveAllCarries | packages/admin/src/lib/shelves.ts:98-100 | after the first k moves, each of the first k records sits in the target folder under its base name, the others are where they were and the configuration is untouched |
| AdminLib.MoveFiles | packages/admin/electron/main.ts:204-213 | a finished move into a shelf with a plain folder name is one rename into that folder |
| AdminLib.MergeSplit | packages/admin/src/lib/shelves.ts:95-103 | a finished merge is a finished run of the moves of the source shelf's records followed by a finished deletion of the source shelf |
| AdminLib.SourcesStored | packages/admin/electron/main.ts:143-154 | every record listed on a shelf is the book document at the path its `filePath` names |
| AdminLib.DeleteAfterMoves | packages/admin/src/lib/shelves.ts:103 | the deletion ending a merge writes the configuration without the source shelf over the one the moves left untouched |
| BookList.FilteredBooks | packages/admin/src/components/BookList.tsx:38-56 | the shown list is a subsequence of the loaded books, holds only books that pass the shelf and query filters, and keeps every passing book as often as it was loaded |
| BookList.FilterIsSearch | packages/admin/src/components/BookList.tsx:45-53 | on all shelves with a query that is not blank, the list is exactly what the library's `searchBooks` returns |
| BookList.Remove | packages/admin/src/components/BookList.tsx:113-114 | deleting a path from a repeat-free selection drops that path, keeps every other path, and changes nothing when the path was absent |
| BookList.Toggle | packages/admin/src/components/BookList.tsx:111-119 | toggling flips the path's membership, keeps every other path, keeps the selection free of repeats, and appends a newly selected path |
| BookList.ToggleTwice | packages/admin/src/components/BookList.tsx:111-119 | toggling a path twice restores the selected paths, and restores the exact selection when the path was not selected |
| BookList.RemoveLast | packages/admin/src/components/BookList.tsx:113-116 | removing the path that was just added gives back the earlier selection |
| BookList.Dedup | packages/admin/src/components/BookList.tsx:125 | `new Set(paths)` holds each path once and holds exactly the given paths |
| BookList.ListedPaths | packages/admin/src/components/BookList.tsx:125 | "select all" builds a repeat-free selection of exactly the listed books' paths |
| BookList.ToggleAllAsWritten | packages/admin/src/components/BookList.tsx:121-127 | the selection is cleared when its size equals the number of listed books; otherwise it becomes exactly the listed paths |
| BookList.ToggleAllAsWrittenMisses | packages/admin/src/components/BookList.tsx:121-127 | a listed book outside a selection of the same size stays unselected after "select all", although not every listed book was selected |
| BookList.ToggleAll | packages/admin/src/components/BookList.tsx:121-127 | the intended toggle clears the selection when every listed book is selected; otherwise it selects exactly the listed books |
| BookList.ToggleAllSelects | packages/admin/src/components/BookList.tsx:121-127 | when some listed book is unselected, every listed book is selected after the intended toggle |
| BookList.ToggleAllAgrees | packages/admin/src/components/BookList.tsx:121-127 | when every selected path is listed and the listed paths are distinct, the toggle as written equals the intended one |
| BookList.MoveAllStops | packages/admin/src/components/BookList.tsx:83-92 | a bulk move that failed stopped at some selected path: every move before it finished and that move threw |
| BookList.DeleteAllRemoves | packages/admin/src/components/BookList.tsx:99-104 | a bulk delete that finished removed exactly the files the selected paths name and left the folders alone |
| BookList.DeleteOneRemoves | packages/admin/electron/main.ts:190-194 | one delete that finished removed the file its path names and nothing else |
| BookList.DeleteAllFails | packages/admin/src/components/BookList.tsx:99-108 | a bulk delete fails only when some selected path names a folder |
| BookList.DeleteAllAborts | packages/admin/src/components/BookList.tsx:99-102 | once a prefix of the deletes has failed, the rest are not attempted: the whole run is the prefix's run |
| BookList.DeleteEach | packages/admin/src/components/BookList.tsx:100-102 | the delete loop leaves the tree and the outcome of `DeleteAll` over the paths |
| BookList.Loaded | packages/admin/src/components/BookList.tsx:19-32 | `loadData` ends loading and keeps the selection and alerts; it shows the books and shelves when both reads succeed, and otherwise keeps the old screen |
| BookList.AfterBulk | packages/admin/src/components/BookList.tsx:87-92 | a bulk action that finished clears the selection; one that failed keeps the selection and adds its alert |
| BookList.View.constructor | packages/admin/src/components/BookList.tsx:10-17 | the list starts empty and loading, on all shelves, with no query, nothing selected and no alert |
| BookList.View.LoadData | packages/admin/src/components/BookList.tsx:19-32 | `loadData` leaves the screen that `Reload` gives for the current tree |
| BookList.View.Settle | packages/admin/src/components/BookList.tsx:61-67 | a single action that finished reloads; one that failed adds its alert |
| BookList.View.Delete | packages/admin/src/components/BookList.tsx:58-68 | an unconfirmed delete changes nothing; a confirmed one runs `delete-book` and then reloads or alerts "Failed to delete book" |
| BookList.View.DeleteOne | packages/admin/src/components/BookList.tsx:61-67 | the delete is `delete-book` on the path, followed by a reload or the alert |
| BookList.View.Move | packages/admin/src/components/BookList.tsx:70-78 | `handleMove` runs `move-book` and then reloads or alerts "Failed to move book" |
| BookList.View.BulkMove | packages/admin/src/components/BookList.tsx:80-93 | with nothing selected nothing changes; otherwise the selected books are moved in selection order and the screen settles as `AfterBulk` gives |
| BookList.View.MoveSelected | packages/admin/src/components/BookList.tsx:83-92 | the bulk move leaves the tree of `MoveAll` over the selection and the screen `AfterBulk` gives for it |
| BookList.View.SettleBulk | packages/admin/src/components/BookList.tsx:87-92 | the bulk settlement leaves the screen `AfterBulk` gives and keeps the selection free of repeats |
| BookList.View.BulkDelete | packages/admin/src/components/BookList.tsx:95-109 | with nothing selected or no confirmation nothing changes; otherwise the selected books are deleted in turn and the screen settles as `AfterBulk` gives |
| BookList.View.DeleteSelected | packages/admin/src/components/BookList.tsx:99-108 | the bulk delete leaves the tree of `DeleteAll` over the selection and the screen `AfterBulk` gives for it |
| BookList.View.ToggleBook | packages/admin/src/components/BookList.tsx:111-119 | the selection becomes `Toggle` of the old one and nothing else changes |
| BookList.View.ToggleSelectAll | packages/admin/src/components/BookList.tsx:121-127 | the selection becomes the toggle as written, size test included, and nothing else changes |
| BookForm.InitialShelf | packages/admin/src/components/BookForm.tsx:27 | the form opens on the edited book's shelf when it has one, otherwise on the first configured shelf, otherwise on no shelf |
| BookForm.Validate | packages/admin/src/components/BookForm.tsx:89-100 | a form is accepted exactly when title and author are not blank and a shelf is chosen; otherwise the message is one of the three the form shows |
| BookForm.OrAbsent | packages/admin/src/components/BookForm.tsx:111-114 | an optional text is dropped exactly when it is missing or blank, and otherwise kept trimmed |
| BookForm.BookData | packages/admin/src/components/BookForm.tsx:105-116 | the saved record has the trimmed title and author, the optional texts trimmed or dropped, and the pages as entered |
| BookForm.CategoryOf | packages/admin/src/components/BookForm.tsx:108 | the category is the trimmed entry, or "Other" when it is missing or blank |
| BookForm.ClickBehaviorOf | packages/admin/src/components/BookForm.tsx:115 | the click behaviour is the entry when it is not empty, and is never empty |
| BookForm.CategoryKept | packages/admin/src/components/BookForm.tsx:36-116 | reopening a book whose category is already trimmed and not blank keeps that category |
| BookForm.ResubmitUnchanged | packages/admin/src/components/BookForm.tsx:36-116 | reopening a saved record and submitting the form unchanged builds the same record |
| BookForm.SubmitRefused | packages/admin/src/components/BookForm.tsx:89-100 | a form that fails a check changes nothing and shows the first failed check, "Title is required" when the title is blank |
| BookForm.BlankFormRefused | packages/admin/src/components/BookForm.tsx:15-92 | submitting the empty new-book form changes nothing and shows "Title is required" |
| BookForm.SubmitSaves | packages/admin/src/components/BookForm.tsx:104-129 | a finished submit leaves a file that reads back as the record built from the form; a new book is named after its title and an edited book keeps its file name |
| BookForm.SubmitMovesFirst | packages/admin/src/components/BookForm.tsx:121-127 | an edited book that changes shelf is saved only after its move finished; a failed move is the submit's failure and nothing is saved |
| BookForm.HandleSubmit | packages/admin/src/components/BookForm.tsx:85-135 | the submit leaves the tree of `SubmitRun`, closes the form exactly when that run finished, and otherwise shows its message |
| BookForm.MoveAndSaveAs | packages/admin/src/components/BookForm.tsx:121-127 | the move followed by the save leaves the tree and the outcome of `MoveThenSaveAs` |
| BookForm.SelectResult | packages/admin/src/components/BookForm.tsx:70-83 | picking a search result fills title, author, publish date, pages, cover and link from it and keeps the category, local cover, notes and click behaviour as typed |
| ShelfManager.FormError | packages/admin/src/components/ShelfManager.tsx:89-96 | the shelf form is accepted exactly when id and label are not blank; a blank id is reported first |
| ShelfManager.FormShelf | packages/admin/src/components/ShelfManager.tsx:98-106 | the shelf handed over has the trimmed id and label, and the trimmed folder or, when that is blank, the folder derived from the id |
| ShelfManager.FormShelfAsCreated | packages/admin/src/components/ShelfManager.tsx:98-106 | for an id typed without surrounding blanks, the form builds the shelf the library's `createShelf` builds |
| ShelfManager.FormFolderKeepsBlank | packages/admin/src/components/ShelfManager.tsx:99-105 | the folder is derived from the id as typed, so an id typed with a leading blank keeps that blank in its folder while the shelf's id loses it |
| ShelfManager.BookCount | packages/admin/src/components/ShelfManager.tsx:212-214 | the count is zero exactly when no listed book is on the shelf, and otherwise counts each of the shelf's records as often as it is listed |
| ShelfManager.ArrayMove | packages/admin/src/components/ShelfManager.tsx:222 | `arrayMove` puts the moved entry at its new place, shifts the entries in between by one and leaves every other entry in place |
| ShelfManager.ArrayMovePermutes | packages/admin/src/components/ShelfManager.tsx:222 | moving an entry is a permutation |
| ShelfManager.ArrayMoveBack | packages/admin/src/components/ShelfManager.tsx:222 | moving the entry back to where it came from undoes the move |
| ShelfManager.Reordered | packages/admin/src/components/ShelfManager.tsx:219-222 | the dragged shelf lands at the index of the shelf it was dropped on and the list keeps its length |
| ShelfManager.EditShelves | packages/admin/src/components/ShelfManager.tsx:245-288 | adding appends the shelf; editing replaces the shelf with that id and keeps every other entry, or saves nothing for an unknown id; deleting removes the id and keeps every other shelf; a reorder sets the whole list |
| ShelfManager.EditConfigOutcome | packages/admin/src/components/ShelfManager.tsx:227-229 | a read-modify-write of the configuration fails with the read's error when the read fails, and otherwise leaves a configuration with the edited shelf list and every other setting as it was |
| ShelfManager.AddShelfOutcome | packages/admin/src/components/ShelfManager.tsx:237-256 | an id already on screen is refused and nothing is written; a finished add leaves the shelf's folder and the shelf at the end of the configuration |
| ShelfManager.DeleteShelfFlowOutcome | packages/admin/src/components/ShelfManager.tsx:283-290 | a finished delete leaves a configuration without the id that keeps every other shelf, and no file other than the configuration appears or disappears |
| ShelfManager.EditConfig | packages/admin/src/components/ShelfManager.tsx:260-265 | the configuration edit leaves the tree and the outcome of `EditConfigRun` |
| ShelfManager.AddShelfCalls | packages/admin/src/components/ShelfManager.tsx:245-249 | the add's calls leave the tree and the outcome of `AddShelfRun` |
| ShelfManager.DeleteShelfCalls | packages/admin/src/components/ShelfManager.tsx:284-288 | the delete's calls leave the tree and the outcome of `DeleteShelfFlow` |
| ShelfManager.Loaded | packages/admin/src/components/ShelfManager.tsx:193-206 | `loadData` ends loading; it shows the shelves and books when both reads succeed, and otherwise keeps the old ones and sets "Failed to load data" |
| ShelfManager.DeleteRefusal | packages/admin/src/components/ShelfManager.tsx:274-279 | a delete is refused exactly when some listed book is on the shelf, with a message that names the shelf and the count |
| ShelfManager.AddedShelfShown | packages/admin/src/components/ShelfManager.tsx:245-252 | after a finished add and a reload that reads the books, the screen shows the configuration's shelves with the new one last |
| ShelfManager.UnsavedOrderStaysShown | packages/admin/src/components/ShelfManager.tsx:224-233 | when the configuration cannot be read, the drop's save fails and the reload fails too, so the new order stays shown and the error line becomes the load failure |
| ShelfManager.View.constructor | packages/admin/src/components/ShelfManager.tsx:179-184 | the manager starts with no shelves or books, no error line, and loading |
| ShelfManager.View.LoadData | packages/admin/src/components/ShelfManager.tsx:193-206 | `loadData` leaves the screen that `Reload` gives for the current tree |
| ShelfManager.View.DragEnd | packages/admin/src/components/ShelfManager.tsx:216-235 | a drop outside a shelf or on the dragged shelf changes nothing; otherwise the new order is shown and saved and the screen becomes what `AfterDrop` gives |
| ShelfManager.View.DropOn | packages/admin/src/components/ShelfManager.tsx:219-234 | a drop on another shelf saves the reordered list and leaves the screen `AfterDrop` gives |
| ShelfManager.View.ReloadAfterError | packages/admin/src/components/ShelfManager.tsx:230-232 | the error line is set and the data is read again |
| ShelfManager.View.AddShelf | packages/admin/src/components/ShelfManager.tsx:237-256 | the add leaves the tree of `AddShelfRun`, then reloads when it finished and otherwise shows its message |
| ShelfManager.View.EditShelf | packages/admin/src/components/ShelfManager.tsx:258-272 | the edit leaves the tree of `EditShelfRun`, then reloads when it finished and otherwise shows its message |
| ShelfManager.View.DeleteShelf | packages/admin/src/components/ShelfManager.tsx:274-294 | a shelf with listed books is refused with its count and nothing else changes; an unconfirmed delete changes nothing; otherwise the tree becomes that of `DeleteShelfFlow` and the screen reloads or shows its message |
| MockRepositories.SaveInto | packages/admin/src/repositories/mock/MockBookRepository.ts:24-43 | a save replaces the entry with the computed path where it stands or appends it, so the store grows by at most one, holds the stored entry at that path and keeps every other entry in place |
| MockRepositories.BookById | packages/admin/src/repositories/mock/MockBookRepository.ts:15-22 | a lookup fails exactly when no entry has the path, with "Book not found: <path>", and otherwise returns the record of an entry with that path, without its four meta fields |
| MockRepositories.SaveThenGet | packages/admin/src/repositories/mock/MockBookRepository.ts:15-43 | what a save stores under the path it returns is what a lookup of that path reads |
| MockRepositories.DeleteFrom | packages/admin/src/repositories/mock/MockBookRepository.ts:45-47 | a delete leaves no entry with the path and keeps every other entry, in order and as often as before |
| MockRepositories.DeleteIdempotent | packages/admin/src/repositories/mock/MockBookRepository.ts:45-47 | deleting twice is deleting once, and deleting a path that is not stored changes nothing |
| MockRepositories.MoveIn | packages/admin/src/repositories/mock/MockBookRepository.ts:49-66 | a move of an unknown path fails with "Book not found: <path>"; otherwise only the first entry with that path changes, to the target shelf and the path built from the target and its file name, and the count stays the same |
| MockRepositories.MoveKeepsRecord | packages/admin/src/repositories/mock/MockBookRepository.ts:49-66 | after a move, looking up the new path reads the moved record, unless an earlier entry already held that path |
| MockRepositories.MockBookRepository.constructor | packages/admin/src/repositories/mock/MockBookRepository.ts:5 | the store starts empty |
| MockRepositories.MockBookRepository.SetBooks | packages/admin/src/repositories/mock/MockBookRepository.ts:7-9 | the store becomes the given list |
| MockRepositories.MockBookRepository.GetAll | packages/admin/src/repositories/mock/MockBookRepository.ts:11-13 | the list returned is the store |
| MockRepositories.MockBookRepository.GetById | packages/admin/src/repositories/mock/MockBookRepository.ts:15-22 | the lookup answers `BookById` on the store and changes nothing |
| MockRepositories.MockBookRepository.Save | packages/admin/src/repositories/mock/MockBookRepository.ts:24-43 | the save returns the computed path and leaves the store `SaveInto` gives |
| MockRepositories.MockBookRepository.Delete | packages/admin/src/repositories/mock/MockBookRepository.ts:45-47 | the delete leaves the store `DeleteFrom` gives |
| MockRepositories.MockBookRepository.Move | packages/admin/src/repositories/mock/MockBookRepository.ts:49-66 | a move of an unknown path throws and changes nothing; otherwise the store becomes the one `MoveIn` gives and the new path is returned |
| MockRepositories.CreateIn | packages/admin/src/repositories/mock/MockShelfRepository.ts:15-20 | a create fails exactly when a shelf with the id exists, with "Shelf already exists: <id>", and otherwise appends the shelf |
| MockRepositories.CreateKeepsUnique | packages/admin/src/repositories/mock/MockShelfRepository.ts:15-20 | creating keeps the shelf ids unique |
| MockRepositories.DeleteIn | packages/admin/src/repositories/mock/MockShelfRepository.ts:22-28 | a delete fails exactly when no shelf has the id, with "Shelf not found: <id>"; otherwise the first shelf with the id is cut out and the others keep their order |
| MockRepositories.DeleteRemovesId | packages/admin/src/repositories/mock/MockShelfRepository.ts:22-28 | on unique ids, a delete removes the id and keeps the ids unique |
| MockRepositories.Reordered | packages/admin/src/repositories/mock/MockShelfRepository.ts:30-39 | the new list holds at most one shelf per given id, and only shelves that were there |
| MockRepositories.ReorderedIds | packages/admin/src/repositories/mock/MockShelfRepository.ts:30-39 | when every given id names a shelf, the new list carries exactly those ids in that order |
| MockRepositories.ReorderedSame | packages/admin/src/repositories/mock/MockShelfRepository.ts:30-39 | reordering a list with unique ids by its own ids gives it back |
| MockRepositories.FindOwnShelf | packages/admin/src/repositories/mock/MockShelfRepository.ts:33 | on unique ids, looking up a shelf's own id finds that shelf |
| MockRepositories.MockShelfRepository.constructor | packages/admin/src/repositories/mock/MockShelfRepository.ts:5 | the list starts empty |
| MockRepositories.MockShelfRepository.SetShelves | packages/admin/src/repositories/mock/MockShelfRepository.ts:7-9 | the list becomes the given one |
| MockRepositories.MockShelfRepository.GetShelves | packages/admin/src/repositories/mock/MockShelfRepository.ts:11-13 | the list returned is the stored one |
| MockRepositories.MockShelfRepository.Create | packages/admin/src/repositories/mock/MockShelfRepository.ts:15-20 | a duplicate id throws and leaves the list alone; otherwise the list becomes the one `CreateIn` gives |
| MockRepositories.MockShelfRepository.Delete | packages/admin/src/repositories/mock/MockShelfRepository.ts:22-28 | an unknown id throws and leaves the list alone; otherwise the list becomes the one `DeleteIn` gives |
| MockRepositories.MockShelfRepository.Reorder | packages/admin/src/repositories/mock/MockShelfRepository.ts:30-39 | the loop leaves the list `Reordered` gives for the ids |
| MockRepositories.LastTouch | packages/admin/src/repositories/mock/MockCoverRepository.ts:6-14 | the last call that touched a path is found, or no call touched it |
| MockRepositories.ReplayLastTouch | packages/admin/src/repositories/mock/MockCoverRepository.ts:6-14 | the cover map holds exactly the paths whose last call was a download, each mapped to that download's URL |
| MockRepositories.MockCoverRepository.constructor | packages/admin/src/repositories/mock/MockCoverRepository.ts:4 | the map starts empty with no calls made |
| MockRepositories.MockCoverRepository.Download | packages/admin/src/repositories/mock/MockCoverRepository.ts:6-10 | a download returns "books/covers/<fileName>" and maps that path to the URL, replacing any earlier URL |
| MockRepositories.MockCoverRepository.Delete | packages/admin/src/repositories/mock/MockCoverRepository.ts:12-14 | the key goes, whether or not it was there |
| MockRepositories.MockCoverRepository.GetCovers | packages/admin/src/repositories/mock/MockCoverRepository.ts:16-18 | the map returned is the stored one |
| MockRepositories.Validate | packages/admin/src/repositories/mock/MockSettingsRepository.ts:36-39 | a path is valid exactly when it was registered, and empty exactly when it is not valid |
| MockRepositories.MockSettingsRepository.constructor | packages/admin/src/repositories/mock/MockSettingsRepository.ts:5-10 | the library starts at "/mock/library", the only valid path, and the folder picker answers nothing |
| MockRepositories.MockSettingsRepository.SetSettings | packages/admin/src/repositories/mock/MockSettingsRepository.ts:12-14 | the settings become the given ones and nothing else changes |
| MockRepositories.MockSettingsRepository.SetValidPaths | packages/admin/src/repositories/mock/MockSettingsRepository.ts:16-18 | the valid set is replaced by the given paths, not extended |
| MockRepositories.MockSettingsRepository.SetSelectedPath | packages/admin/src/repositories/mock/MockSettingsRepository.ts:20-22 | the picker's answer becomes the given one and nothing else changes |
| MockRepositories.MockSettingsRepository.Get | packages/admin/src/repositories/mock/MockSettingsRepository.ts:24-26 | the settings returned are the stored ones |
| MockRepositories.MockSettingsRepository.Save | packages/admin/src/repositories/mock/MockSettingsRepository.ts:28-30 | the settings become the given ones and nothing else changes |
| MockRepositories.MockSettingsRepository.SelectLibraryPath | packages/admin/src/repositories/mock/MockSettingsRepository.ts:32-34 | the picker returns the configured answer |
| MockRepositories.MockSettingsRepository.ValidateLibraryPath | packages/admin/src/repositories/mock/MockSettingsRepository.ts:36-39 | the check answers `Validate` on the valid set |
| MockRepositories.MockSettingsRepository.InitializeLibrary | packages/admin/src/repositories/mock/MockSettingsRepository.ts:41-43 | initializing always reports success |
| MockRepositories.MockBuildRepository.constructor | packages/admin/src/repositories/mock/MockBuildRepository.ts:4-7 | the build answers success with "Built successfully", no server runs, and the paths are "/mock/site" and "/mock/site/dist" |
| MockRepositories.MockBuildRepository.SetBuildResult | packages/admin/src/repositories/mock/MockBuildRepository.ts:9-11 | the build result becomes the given one and nothing else changes |
| MockRepositories.MockBuildRepository.SetSitePath | packages/admin/src/repositories/mock/MockBuildRepository.ts:13-15 | the site path becomes the given one and nothing else changes |
| MockRepositories.MockBuildRepository.SetDistPath | packages/admin/src/repositories/mock/MockBuildRepository.ts:17-19 | the output path becomes the given one and nothing else changes |
| MockRepositories.MockBuildRepository.Build | packages/admin/src/repositories/mock/MockBuildRepository.ts:21-23 | the build answers the configured result whatever it is asked |
| MockRepositories.MockBuildRepository.StartPreviewServer | packages/admin/src/repositories/mock/MockBuildRepository.ts:25-28 | starting sets the running flag and answers port 8080 at "http://localhost:8080" |
| MockRepositories.MockBuildRepository.StopPreviewServer | packages/admin/src/repositories/mock/MockBuildRepository.ts:30-32 | stopping clears the running flag, also when nothing runs |
| MockRepositories.MockBuildRepository.GetSitePath | packages/admin/src/repositories/mock/MockBuildRepository.ts:34-36 | the site path returned is the stored one |
| MockRepositories.MockBuildRepository.GetDistPath | packages/admin/src/repositories/mock/MockBuildRepository.ts:38-40 | the output path returned is the stored one |
| MockRepositories.MockBuildRepository.IsServerRunning | packages/admin/src/repositories/mock/MockBuildRepository.ts:50-52 | the flag returned is the stored one |
| AddBook.ValidateRequired | scripts/add-book.js:57-62 | blank input is refused with "<field> is required"; anything else is accepted trimmed and not empty |
| AddBook.ValidateRequiredIdempotent | scripts/add-book.js:57-62 | a value the validator accepted passes it again unchanged |
| AddBook.ValidateDate | scripts/add-book.js:64-70 | a date is accepted exactly when it has the shape of four, two and two digits separated by dashes, and is returned unchanged; otherwise the format error is thrown |
| AddBook.ValidateDateShapeOnly | scripts/add-book.js:64-70 | only the shape is checked: "2024-13-45" passes and "2024-1-05" does not |
| AddBook.LeadingDigits | scripts/add-book.js:73 | the digits a text starts with are its longest all-digit prefix |
| AddBook.ParseInt | scripts/add-book.js:73 | `parseInt` finds a number exactly when, after leading white space and an optional sign, a digit follows |
| AddBook.ValidateNumber | scripts/add-book.js:72-78 | a number is accepted exactly when `parseInt` finds one above zero, which is returned; otherwise "<field> must be a positive number" is thrown |
| AddBook.ParseIntRendering | scripts/add-book.js:73 | `parseInt` reads the decimal rendering of a number back as that number |
| AddBook.ValidateNumberRoundTrip | scripts/add-book.js:72-78 | the decimal rendering of a positive number is accepted and read back as that number |
| AddBook.ValidateNumberReadsPrefix | scripts/add-book.js:72-78 | like `parseInt`, the validator skips leading blanks and ignores what follows the digits: " 12 pages" is 12 |
| AddBook.ValidateNumberRefusesZero | scripts/add-book.js:74-76 | zero is refused |
| AddBook.ValidateNumberRefusesNegative | scripts/add-book.js:74-76 | a negative number is refused |
| AddBook.ValidateNumberRefusesText | scripts/add-book.js:74-76 | text without a number is refused |
| AddBook.StripSeparators | scripts/add-book.js:96 | removing dashes and white space leaves none of them |
| AddBook.StripSeparatorsAppend | scripts/add-book.js:96 | removing separators works piece by piece |
| AddBook.IsbnIgnoresSeparator | scripts/add-book.js:95-98 | a dash or white space anywhere in the query does not change whether it is an ISBN |
| AddBook.IsbnOnlyDigits | scripts/add-book.js:95-98 | any character other than a digit, a dash or white space rules an ISBN out |
| AddBook.FindYear | scripts/add-book.js:203 | the search finds the first place where four digits follow each other, or finds none |
| AddBook.ExtractYearShape | scripts/add-book.js:202-205 | the year is empty exactly when no four digits follow each other; otherwise it is the first such run followed by "-01-01", which the date validator accepts |
| AddBook.RetryFromFirstSuccess | scripts/add-book.js:126-140 | the first success among the attempts is returned |
| AddBook.RetryFromAllFail | scripts/add-book.js:126-140 | when every attempt fails, the last attempt's error is thrown |
| AddBook.RetryFromBounded | scripts/add-book.js:128 | attempts beyond the budget are never made |
| AddBook.HttpGetWithRetry | scripts/add-book.js:126-140 | the counted loop gives the result `Retried` defines, makes at most the budgeted attempts, stops at the first success with every earlier attempt failed, and uses the whole budget only when every attempt fails |
| AddBook.DefaultBudget | scripts/add-book.js:126 | with the default budget, three failed attempts end the retrying with the third error |
| AddBook.LoadConfig | scripts/add-book.js:24-30 | a missing configuration file is the error; a configuration that loads is the one stored in that file |
| AddBook.Put | scripts/add-book.js:36 | assigning a key keeps the dictionary well formed, sets the value, and appends a new key to the key order while an existing key keeps its place |
| AddBook.ShelfDirs | scripts/add-book.js:32-40 | the shelf dictionary is well formed |
| AddBook.GetShelfDirs | scripts/add-book.js:32-40 | the loop over the shelves builds the dictionary `ShelfDirs` defines |
| AddBook.ShelfDirsKeys | scripts/add-book.js:32-40 | exactly the ids of the shelves are keys |
| AddBook.ShelfDirsLastWins | scripts/add-book.js:35-37 | when ids repeat, the last shelf with an id decides its folder |
| AddBook.ShelfDirsOrder | scripts/add-book.js:32-40 | with distinct ids the key order is the order of the shelves |
| AddBook.JsonFields | scripts/add-book.js:235 | a stored file parses exactly when it is a JSON document, and a book record yields its title and author |
| AddBook.ListedFile | scripts/add-book.js:233-243 | a file is listed exactly when it exists and parses, under its own name and path and its shelf, with a title that is never empty |
| AddBook.ListShelvesStep | scripts/add-book.js:225-248 | one more shelf of the outer loop adds that shelf's listing after the others |
| AddBook.ListShelvesFailure | scripts/add-book.js:225-248 | a folder that cannot be listed ends the whole listing with its error |
| AddBook.PushFiles | scripts/add-book.js:232-247 | the inner loop pushes the entries `ListFiles` defines after those already listed |
| AddBook.ListAllBooks | scripts/add-book.js:221-251 | the outer loop over the shelves in key order gives the listing `ListShelves` defines |
| AddBook.ListOneShelf | scripts/add-book.js:226-247 | one pass of the outer loop pushes the shelf's entries after those already listed, or ends with the folder's error |
| AddBook.ListFilesSound | scripts/add-book.js:230-247 | every entry of a folder is a parsable `.json` file of that folder with a non-empty title |
| AddBook.ListFilesComplete | scripts/add-book.js:230-247 | every parsable file among the folder's names is listed |
| AddBook.ListShelvesSound | scripts/add-book.js:221-251 | every entry of the listing is a `.json` file in the folder its shelf maps to, with a non-empty title |
| AddBook.MoveBookMoves | scripts/add-book.js:253-265 | a finished move puts the record under the same file name in the target shelf's folder, which then exists, and removes the old file; no other file changes, and a failed move changes no file |
| AddBook.MoveBookSafe | scripts/add-book.js:253-265 | for any path a valid tree holds, a finished move lands the record in the target folder under its name, and a failed one changes no file |
| AddBook.MoveGuards | scripts/add-book.js:275-317 | a book is chosen exactly when the selection is a number within the list, the new shelf is named, known and not the book's shelf; an empty listing is refused first |
| AddBook.MoveListedGuards | scripts/add-book.js:287-324 | a move is attempted exactly when every guard passed, a finished one lands the chosen record in the new shelf's folder under its name, and a failed one changes no file |
| AddBook.MoveFlowPaths | scripts/add-book.js:271-273 | every entry of the listing the move flow builds has a plain path, so the move guarantees apply |
| AddBook.ClickBehavior | scripts/add-book.js:435-439 | the click behaviour is "redirect" exactly when that was answered, and "overlay" otherwise |
| AddBook.DefaultShelf | scripts/add-book.js:442 | the default is "good" when that shelf exists, otherwise the first shelf, and none without shelves |
| AddBook.ChooseShelf | scripts/add-book.js:443-448 | a named known shelf is taken as answered; a blank or unknown answer falls back to the default shelf |
| AddBook.NewBook | scripts/add-book.js:450-459 | the record written has no notes and no local cover, and its click behaviour is "overlay" or "redirect" |
| AddBook.StoreRecord | scripts/add-book.js:461-471 | a finished write creates the folder and puts the record in it under the given name, changing no other file; a failed one changes no file |
| AddBook.AddBookStores | scripts/add-book.js:441-474 | a finished add writes the record, under the slug of its title, into the folder of the chosen shelf and changes no other file; a failed add changes no file, and a library without shelves always fails |
| DownloadCovers.RunLength | scripts/download-covers.js:29 | the run of characters outside `[a-z0-9]` that a text starts with is measured exactly |
| DownloadCovers.LeadingDashes | scripts/download-covers.js:30 | the dashes a text starts with are counted exactly |
| DownloadCovers.TrailingDashes | scripts/download-covers.js:30 | the dashes a text ends with are counted exactly |
| DownloadCovers.TrimDashes | scripts/download-covers.js:30 | cutting the dashes off both ends leaves a text that neither starts nor ends with a dash |
| DownloadCovers.DashRunsShape | scripts/download-covers.js:29 | replacing each run of other characters by a dash leaves only slug characters, never two dashes in a row, and keeps every letter and digit in order |
| DownloadCovers.TrimDashesShape | scripts/download-covers.js:30 | trimming the end dashes keeps the slug shape and every letter and digit |
| DownloadCovers.ScriptKebabShape | scripts/download-covers.js:26-32 | the script's slug has only `[a-z0-9-]`, never two dashes in a row, at most 50 characters and no leading dash; its letters and digits start those of the lower-cased title, and are all of them when the trimmed slug fits |
| DownloadCovers.CutShape | scripts/download-covers.js:31 | cutting a slug to 50 characters keeps its shape and a prefix of its letters and digits |
| DownloadCovers.DashRunsRun | scripts/download-covers.js:29 | each run of other characters between letters becomes exactly one dash |
| DownloadCovers.ScriptKebabApostrophe | scripts/download-covers.js:26-32 | the script turns "Don't" into "don-t" |
| DownloadCovers.KebabVariantsDiffer | scripts/download-covers.js:26-32 | the script's slug and the library's slug disagree on "Don't": "don-t" against "dont" |
| DownloadCovers.CandidateInjective | scripts/download-covers.js:155-161 | different counters give different cover names |
| DownloadCovers.TriedCount | scripts/download-covers.js:159-162 | the first k names tried are k different names |
| DownloadCovers.TakenBound | scripts/download-covers.js:159-162 | a set that holds the first k names has at least k elements, so the search ends |
| DownloadCovers.FirstFree | scripts/download-covers.js:159-162 | the search stops at the first counter whose name is free, with every earlier name taken |
| DownloadCovers.FirstFreeIs | scripts/download-covers.js:159-162 | a free name with every earlier name taken is the one the search finds |
| DownloadCovers.CoverNameFirstFree | scripts/download-covers.js:153-166 | the cover name is free; it is "<slug>.jpg" when that is free, and otherwise "<slug>-n.jpg" for the first free n |
| DownloadCovers.ScanFilesSound | scripts/download-covers.js:119-144 | a folder's scan keeps only stored records that need their cover, each with its cover URL, and gives at most one entry or warning per file |
| DownloadCovers.ScanFilesComplete | scripts/download-covers.js:119-144 | every parsable record that needs its cover is kept, and every file that cannot be parsed gives its warning |
| DownloadCovers.ScanFoldersSound | scripts/download-covers.js:109-148 | everything the whole scan keeps is a stored record that needs its cover |
| DownloadCovers.ScanFoldersHas | scripts/download-covers.js:112-145 | each shelf folder that exists contributes everything its own scan finds and warns about |
| DownloadCovers.DownloadImage | scripts/download-covers.js:54-104 | a settled download names how many responses it used |
| DownloadCovers.DownloadBudget | scripts/download-covers.js:86-96 | a settled download met at most the retry budget of connection errors; it saves only on a 200, and a rejection by a connection error comes after the whole budget |
| DownloadCovers.StatusRejects | scripts/download-covers.js:67-70 | a status other than 200 that is not a redirect rejects at once with "HTTP <status>" |
| DownloadCovers.RedirectKeepsBudget | scripts/download-covers.js:60-65 | a redirect is followed and uses none of the retry budget |
| DownloadCovers.RedirectChain | scripts/download-covers.js:60-65 | redirects are followed to any depth before the image is saved |
| DownloadCovers.UpdateBookJson | scripts/download-covers.js:171-175 | the update succeeds only on a stored record and writes back that record with the local cover set |
| DownloadCovers.UpdateKeepsFields | scripts/download-covers.js:171-175 | only the local cover changes; every other field of the record is kept |
| DownloadCovers.SaveCover | scripts/download-covers.js:257 | the image is stored exactly when the download saves and the file can be written, under the destination and nothing else |
| DownloadCovers.DownloadCounts | scripts/download-covers.js:244-269 | every book attempted is counted once, as a success or as a failure |
| DownloadCovers.DownloadStepFrame | scripts/download-covers.js:249-268 | a pass changes nothing outside the covers folder except its own book's record, and that only after a saved download, with the new local cover, counted as a success |
| DownloadCovers.DownloadStepNames | scripts/download-covers.js:250 | each pass takes a name nobody had and adds it to the names taken |
| DownloadCovers.EntriesKnown | scripts/download-covers.js:239-241 | every name in the covers folder is among the names read at the start |
| DownloadCovers.PrepareCovers | scripts/download-covers.js:232-241 | preparing creates the covers folder if needed, changes no file, and starts with every name the folder holds |
| DownloadCovers.DownloadStepKnown | scripts/download-covers.js:249-268 | a pass picks a name that is not in the covers folder, keeps every name there among those taken, and creates no folder |
| DownloadCovers.DownloadStepOutcome | scripts/download-covers.js:256-268 | a pass is a success or a failure; a failure leaves the tree as it was, and a success stores the image under the new name and records it in the book |
| DownloadCovers.DownloadAllKnown | scripts/download-covers.js:249-269 | the loop keeps every name in the covers folder among the names taken and creates no folder |
| DownloadCovers.DownloadAllPrefix | scripts/download-covers.js:249-269 | the loop over one more book is the loop so far followed by that book's pass |
| DownloadCovers.CoverDownload.constructor | scripts/download-covers.js:244-245 | the run starts on the given tree with no names taken and both counters at zero |
| DownloadCovers.CoverDownload.Prepare | scripts/download-covers.js:232-241 | preparing leaves the tree and names `PrepareCovers` gives, or changes nothing on failure, and leaves the counters alone |
| DownloadCovers.CoverDownload.GenerateCoverFilename | scripts/download-covers.js:153-166 | the name chosen is `CoverName` of the title, was not taken before, and is added to the names taken |
| DownloadCovers.CoverDownload.UpdateBook | scripts/download-covers.js:171-175 | the update leaves the tree `UpdateBookJson` gives, or changes nothing on failure |
| DownloadCovers.CoverDownload.DownloadOne | scripts/download-covers.js:249-268 | one pass leaves the state `DownloadStep` gives |
| DownloadCovers.CoverDownload.DownloadEach | scripts/download-covers.js:249-269 | the loop leaves the state `DownloadAll` gives |
| PublicApp.FolderShelf | app.js:21-25 | a standard folder maps to one of the three shelves the page shows |
| PublicApp.DerivedShelf | app.js:118-121 | a shelf derived from a path's first folder is always one of the three shelves |
| PublicApp.LoadBook | app.js:109-127 | a failed fetch gives nothing; a fetched book keeps its record and read date, keeps its own shelf when it has one, and always ends with a shelf |
| PublicApp.LoadBooks | app.js:107-133 | the books loaded are at most one per index entry, each with a shelf |
| PublicApp.LoadBooksAppend | app.js:107-133 | loading two parts of the index one after the other gives the books of the whole index |
| PublicApp.LoadOne | app.js:130-133 | a failed fetch contributes nothing and a successful one contributes its book |
| PublicApp.LoadBooksAllFetched | app.js:107-133 | when every fetch succeeds nothing is dropped and the books keep the index order |
| PublicApp.IndexedFolderShelf | app.js:118-121 | each entry the command-line build indexes as "<folder>/<name>" lands on the shelf of its folder, and no two build folders share a shelf |
| PublicApp.EveryShelfHasFolder | app.js:15-25 | every shelf the page shows has a folder in the command-line build |
| PublicApp.SampleCurrentOnGood | app.js:118-121 | a book of the sample library's "current-reads" folder without a shelf of its own lands on the good shelf |
| PublicApp.GroupOf | app.js:148-155 | a book is grouped under its own shelf when that is one of the three, and under the good shelf otherwise |
| PublicApp.OnShelfSnoc | app.js:148-155 | one more book adds itself to its own group and to no other |
| PublicApp.GroupPush | app.js:150-154 | pushing a book onto the list its group names keeps every list equal to its group |
| PublicApp.GroupPushAt | app.js:150-154 | after the push, each shelf's list is that shelf's group of the longer book list |
| PublicApp.GroupBooks | app.js:142-155 | the grouping loop leaves one list per shelf holding that shelf's group, in book order |
| PublicApp.InOwnGroup | app.js:148-155 | a book is in a group exactly when it is one of the books and that group is its own |
| PublicApp.GroupsPartition | app.js:142-155 | the three groups together hold every book exactly as often as the list does |
| PublicApp.Rows | app.js:210-228 | every row holds one to six books and every row but the last holds six |
| PublicApp.RowsFlatten | app.js:210-228 | reading the rows one after the other gives the books back |
| PublicApp.RowsCount | app.js:211 | a list of n books takes the ceiling of n / 6 rows |
| PublicApp.RenderBooksInRows | app.js:210-228 | the loop of slices of six gives the rows `Rows` defines |
| PublicApp.ShelfSectionSplit | app.js:170-201 | a section holds its group's books in order; the button appears exactly on a good shelf of more than 12 books, showing 12 and naming how many are hidden; otherwise every book is shown |
| PublicApp.RenderShelf | app.js:159-203 | one shelf's rendering is the section `ShelfSection` defines |
| PublicApp.RenderBookshelf | app.js:139-205 | grouping and then one section per non-empty shelf gives the page `Bookshelf` defines |
| PublicApp.SectionsForNext | app.js:158-160 | one more shelf adds that shelf's section, when it has books |
| PublicApp.SectionIds | app.js:158-204 | the ids of the sections are read off in order |
| PublicApp.SectionsSnoc | app.js:158-204 | one more section adds its id and its books at the end |
| PublicApp.SectionsForIds | app.js:158-160 | the sections come in the given shelf order and are exactly the shelves with books |
| PublicApp.SectionsForGroups | app.js:158-160 | each section holds its shelf's group, which is not empty |
| PublicApp.SectionsForBooks | app.js:158-204 | the sections hold the groups of the shelves, one after the other |
| PublicApp.GroupedAll | app.js:142-155 | the three groups one after the other are the books, up to order |
| PublicApp.BookshelfShowsEveryBook | app.js:139-205 | the page shows the non-empty shelves in the order top5, current, good, each with its own group, and every book exactly once |
| PublicApp.Init | app.js:70-90 | the page built is the one `InitPage` defines |
| PublicApp.InitPageShows | app.js:70-90 | the page shows the error exactly when the index cannot be read, the empty state exactly when no book loads, and otherwise non-empty shelves holding every loaded book once |
| PublicApp.CoverSource | app.js:321-323 | a book with a local cover shows "books/<local cover>", and otherwise its cover URL |
| PublicApp.Modal | app.js:319-374 | the modal shows the pages exactly when they are at least five, the notes exactly when they are not blank, the link and read date exactly when present, a category that is never empty, and the book's picture |
| PublicApp.Activate | app.js:302-314 | a click opens the link exactly when the book is set to redirect and has a link, and otherwise opens the modal |
| ConfigEditor.Loaded | packages/admin/src/components/ConfigEditor.tsx:17-31 | a configuration read fills in the form and becomes the loaded one; a failed read keeps both and shows "Failed to load configuration"; loading always ends |
| ConfigEditor.Typed | packages/admin/src/components/ConfigEditor.tsx:110-134 | typing into one field changes that field only |
| ConfigEditor.Updated | packages/admin/src/components/ConfigEditor.tsx:44-49 | the saved configuration keeps the loaded shelves |
| ConfigEditor.UpdatedTrimmed | packages/admin/src/components/ConfigEditor.tsx:44-49 | the saved texts are trimmed, so saving the saved configuration's own texts again changes nothing |
| ConfigEditor.Submitted | packages/admin/src/components/ConfigEditor.tsx:35-61 | the submit clears the error and the notice first and leaves the form as typed; with no configuration loaded nothing more happens; a finished save makes the updated configuration the loaded one and shows the notice; a failed one shows its message |
| ConfigEditor.Reset | packages/admin/src/components/ConfigEditor.tsx:63-72 | with a configuration loaded the form goes back to it, so nothing is changed, and the error and notice are cleared; with none nothing happens |
| ConfigEditor.LoadedUnchanged | packages/admin/src/components/ConfigEditor.tsx:82-86 | a configuration just loaded has no changes, so the save button is disabled |
| ConfigEditor.CanSubmitLoaded | packages/admin/src/components/ConfigEditor.tsx:82-144 | the save button is enabled only with a configuration loaded and no save running |
| ConfigEditor.TypedBack | packages/admin/src/components/ConfigEditor.tsx:82-86 | typing a field back to the loaded text leaves no changes, and one extra blank is a change |
| ConfigEditor.SavedChanges | packages/admin/src/components/ConfigEditor.tsx:44-86 | after a finished save the form still shows changes exactly when some typed text had surrounding blanks |
| ConfigEditor.SubmitStores | packages/admin/src/components/ConfigEditor.tsx:41-53 | a finished save through the engine leaves a configuration that reads back as the updated one, which is what the editor then holds; a failed save changes nothing |
| ConfigEditor.SaveUpdated | packages/admin/src/components/ConfigEditor.tsx:51 | the save through the engine leaves the tree and the outcome of `save-config` on the updated configuration |
| ConfigEditor.View.constructor | packages/admin/src/components/ConfigEditor.tsx:5-14 | the editor starts loading, with no configuration, an empty form, no error and no notice |
| ConfigEditor.View.LoadConfig | packages/admin/src/components/ConfigEditor.tsx:17-31 | the load leaves the screen `Loaded` gives for the engine's `get-config` |
| ConfigEditor.View.Type | packages/admin/src/components/ConfigEditor.tsx:110-134 | typing leaves the screen `Typed` gives |
| ConfigEditor.View.Settle | packages/admin/src/components/ConfigEditor.tsx:35-61 | the end of a submit leaves the screen `Submitted` gives |
| ConfigEditor.View.Submit | packages/admin/src/components/ConfigEditor.tsx:35-61 | the submit saves through the engine only with a configuration loaded and leaves the screen `Submitted` gives for that save |
| ConfigEditor.View.ResetForm | packages/admin/src/components/ConfigEditor.tsx:63-72 | the reset leaves the screen `Reset` gives |
| SetupWizard.AfterSelect | packages/admin/src/components/SetupWizard.tsx:18-45 | a cancelled pick only clears the error; a picked folder is kept and loading ends; the step stays or becomes the confirmation; the wizard completes only right after saving the picked folder |
| SetupWizard.AfterCreate | packages/admin/src/components/SetupWizard.tsx:47-62 | without a picked folder nothing happens; the step and folder stay; loading ends; the wizard completes only right after saving the picked folder |
| SetupWizard.ChooseDifferent | packages/admin/src/components/SetupWizard.tsx:64-67 | the wizard goes back to the start with no folder picked, and nothing else changes |
| SetupWizard.SelectLibraryCompletes | packages/admin/src/components/SetupWizard.tsx:30-35 | a folder that holds a library is validated, saved as the library path, and the wizard completes with no error |
| SetupWizard.SelectEmptyAsks | packages/admin/src/components/SetupWizard.tsx:36-39 | a folder that is not a library moves to the confirmation step, keeps the folder, saves nothing and does not complete |
| SetupWizard.SelectFailureShown | packages/admin/src/components/SetupWizard.tsx:40-42 | a validation or save that throws keeps the step, does not complete, and shows the error's message or "Failed to validate folder" |
| SetupWizard.CreateInitialisesThenSaves | packages/admin/src/components/SetupWizard.tsx:53-58 | a new library is initialised before it is saved; the wizard completes exactly when both calls returned, and a failed initialisation saves nothing and shows its message or "Failed to create library" |
| SetupWizard.ChooseDifferentDisablesCreate | packages/admin/src/components/SetupWizard.tsx:47-67 | after choosing a different folder, creating a library does nothing |
| SetupWizard.NewLibraryFlow | packages/admin/src/components/SetupWizard.tsx:18-62 | picking an empty folder and confirming validates, initialises and saves that folder, in that order, and completes |
| SetupWizard.InitialSettled | packages/admin/src/components/SetupWizard.tsx:13-16 | the wizard starts settled: not loading, not on the select step, and completed only after a save of the library path |
| SetupWizard.SelectKeepsSettled | packages/admin/src/components/SetupWizard.tsx:18-45 | picking a folder keeps the wizard settled |
| SetupWizard.CreateKeepsSettled | packages/admin/src/components/SetupWizard.tsx:47-62 | creating a library keeps the wizard settled |
| SetupWizard.ChooseDifferentKeepsSettled | packages/admin/src/components/SetupWizard.tsx:64-67 | choosing a different folder keeps the wizard settled |
| SetupWizard.CallsKeepSave | packages/admin/src/components/SetupWizard.tsx:34-56 | a completed wizard has saved a library path at some point |
| SetupWizard.View.constructor | packages/admin/src/components/SetupWizard.tsx:13-16 | the wizard starts at the welcome step with nothing picked, no error and no call made |
| SetupWizard.View.SelectFolder | packages/admin/src/components/SetupWizard.tsx:18-45 | the handler leaves the state `AfterSelect` gives |
| SetupWizard.View.Finish | packages/admin/src/components/SetupWizard.tsx:34-35 | the end of a save leaves the state `Completed` gives |
| SetupWizard.View.CreateNewLibrary | packages/admin/src/components/SetupWizard.tsx:47-62 | the handler leaves the state `AfterCreate` gives |
| SetupWizard.View.ChooseDifferentFolder | packages/admin/src/components/SetupWizard.tsx:64-67 | the handler leaves the state `ChooseDifferent` gives |

## Left out

- Electron window and menu lifecycle, shell calls, the preload bridge and the thin `Electron*Repository` wrappers: plumbing with no logic of their own.
- Rendering, the DOM, focus and modals: only the handlers and the values the screens derive are modelled; `arrayMove` is an abstract permutation.
- Network I/O: every HTTP attempt, Open Library lookup and cover download is an outcome the caller supplies (ok, redirect, status, error); timeouts and back-off delays are not modelled.
- The desktop `download-cover` handler (`packages/admin/electron/main.ts:256-293`) is not modelled; its redirect branch re-emits its IPC event and never settles. Cover downloads are modelled through `download-covers.js` (`DownloadCovers`) and `MockCoverRepository`.
- Concurrency: `Promise.all` fan-out and the asynchronous preview server are one sequential step each.
- JSON text: `JSON.stringify` and `JSON.parse` are an abstract encode and partial decode; indentation and number formatting are not modelled.
- Dates and locales: `formatDate` and `toLocaleString` in `app.js`, and the clock in download timestamps.
- Interactive prompts: the readline questions and menu loops of `add-book.js`, and the `--check`/`--all` flags and the y/n/select prompt of `download-covers.js`; `DownloadCovers.DownloadEach` takes the books chosen.
- `app.js` label loading and theme persistence in `localStorage`.
- `MockConfigRepository`, `MockOpenLibraryRepository` and `MockSampleDataRepository` only store and return canned values.
- ConfigEditor: the three-second timer that hides the success notice is not modelled.
- Config: only the four fields the engine reads and writes are modelled.
- DesktopEngine.Engine.StartPreview and EngineHandlers.StartResult use the corrected port search `Preview.PortSearch`. As written (`main.ts:494-513`), with 8080 in use the generic `error` listener rejects the call while the retry still binds 8081 and sets the preview server, so the caller sees a failure while a server runs; with more ports in use the retries add listeners. `Preview.StartAsWritten` captures only the rejection, not the server left running.
- Files.Normalize, Files.Join and EngineHandlers.Resolve drop a trailing `/`, where Node keeps it. So `delete-book` on `x.json/` deletes `x.json` in the model, while Node finds nothing and does nothing; and the preview request `/index.html/` is served in the model, while Node answers 404.
- LibraryStore.ShelfRecords and DownloadCovers.ScanFiles treat a `.json` file in a shelf folder that holds a configuration or an index document as unparsable. The source parses any JSON: `get-books` lists such a file, and `download-covers.js` skips it without a warning. `AddBook.JsonFields` treats the same content as parsed.
- Text.Lower lowers ASCII letters only, while `toLowerCase` is Unicode; searches, `ShelfIdToFolder` and the kebab-case helpers differ from the source on non-ASCII letters.
- AddBook.Dict keeps keys in insertion order, while a JavaScript object lists integer-like keys first (so shelf ids such as `2024` are listed and numbered first), and has inherited keys such as `constructor` that pass its membership test; the model reports such a shelf as unknown where the source throws. PublicApp.GroupOf has the same simplification for a book whose shelf is `constructor`.
- EngineHandlers.Resolve resolves a relative path from the root of the tree, not from the process's working directory.
- SiteBuild.BuildIndex: requires every shelf folder to be a plain name (`PlainName`: one segment, not `.` or `..`); nested or `..` folders, which `path.join` accepts, are outside what is proved.
- SiteBuild.BuildWritesIndex: requires every shelf folder to be a plain name (`PlainName`: one segment, not `.` or `..`); nested or `..` folders, which `path.join` accepts, are outside what is proved.
- SiteBuild.BuildRendersPage: requires every shelf folder to be a plain name (`PlainName`: one segment, not `.` or `..`); nested or `..` folders, which `path.join` accepts, are outside what is proved.
- SiteBuild.BuildCopiesConfig: requires every shelf folder to be a plain name (`PlainName`: one segment, not `.` or `..`); nested or `..` folders, which `path.join` accepts, are outside what is proved.
- SiteBuild.AssembleOutputs: requires every shelf folder to be a plain name (`PlainName`: one segment, not `.` or `..`); nested or `..` folders, which `path.join` accepts, are outside what is proved.
- CliBuild.BuildFoldersOutputs: requires every shelf folder to be a plain name (`PlainName`: one segment, not `.` or `..`); nested or `..` folders, which `path.join` accepts, are outside what is proved.
- CliBuild.CopyEntriesOutputs: requires every shelf folder to be a plain name (`PlainName`: one segment, not `.` or `..`); nested or `..` folders, which `path.join` accepts, are outside what is proved.
- CliBuild.AddFolderOutputs: requires every shelf folder to be a plain name (`PlainName`: one segment, not `.` or `..`); nested or `..` folders, which `path.join` accepts, are outside what is proved.
- AdminLib.MoveFiles: requires the folder or file name it joins to be a plain name (`PlainName`); nested or `..` names, which `path.join` accepts, are outside what is proved.
- AdminLib.SavedUnderName: requires the folder or file name it joins to be a plain name (`PlainName`); nested or `..` names, which `path.join` accepts, are outside what is proved.
- AdminLib.MoveAllCarries: requires the folder or file name it joins to be a plain name (`PlainName`); nested or `..` names, which `path.join` accepts, are outside what is proved.
- AdminLib.MergeMovesEveryBook requires the source shelf's books to have distinct file names and the target folder to be a plain name; with a clash the later move overwrites the earlier one.

## Findings

| source | as written | input that shows it | evidently intended | confidence | as-written member | corrected member |
|---|---|---|---|---|---|---|
| packages/admin/electron/main.ts:463 | the preview server refuses a request only when the joined path does not start with the `dist` path as a string | `GET /../dist-x/f` names the sibling file `dist-x/f`, which starts with the string `dist` and is served | serve only files inside the `dist` folder, comparing whole path segments | high, not executed | Preview.RespondAsWritten, Preview.GuardAsWrittenLeaks | Preview.Respond, Preview.RespondConfined |
| build-index.js:61-66 | `String.replace` with the configured text as the replacement string, which expands `$$`, `$&`, `` $` `` and `$'` | site title `$$` is published as `$` | insert the configured text as written | high, not executed | Template.ProcessTemplateAsWritten, Template.DollarTitleIsRewritten | Template.ProcessTemplate, Template.ReplaceAllIsJoin |
| packages/admin/electron/main.ts:494-513 | the generic `error` listener rejects the start on the first `EADDRINUSE`, before the retry on the next port can succeed | 8080 in use and 8081 free: the start fails | take the first free port from 8080 to 8100 | high, not executed | Preview.StartAsWritten, Preview.PortInUseAsWritten | Preview.PortSearch, Preview.PortSearchFinds |
| packages/admin/src/components/BookList.tsx:121-127 | "select all" clears the selection when its size equals the number of listed books | select `a` on shelf A, then filter to shelf B listing only `b`: the toggle clears the selection instead of selecting `b` | clear only when every listed book is selected | medium, not executed | BookList.ToggleAllAsWritten, BookList.ToggleAllAsWrittenMisses | BookList.ToggleAll, BookList.ToggleAllSelects |
