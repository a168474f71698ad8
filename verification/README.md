# PDF grouping and consent — a Dafny model

The system shows a reader a sequence of PDF groups in the browser, one group at a time. It
records which files and groups the reader has viewed and collects consent through a small
Express server. This project models the two pieces of logic at its core:

- **The catalog service** (`server.js`), as pure functions in module `Server`:
  - the `/api/pdfs` handler builds the ordered groups of `{id, name, url}` descriptors from the
    configured grouping and a directory listing (`BuildCatalog`), and answers 500 when the
    directory is missing or unreadable (`CatalogRoute`);
  - `/api/pdf/:filename` answers 404 for a missing file (`ServePdf`). As written it reads any
    path the decoded parameter reaches, including files outside `pdfs`
    (`ServePdfAsWritten`; see "Findings");
  - `/api/consent` derives the log file name from the timestamp (`ConsentLogFileName`).
- **The viewer session** (`public/js/pdf-viewer.js`), as the class `Viewer.PdfViewer`:
  - its fields are the module-level state: `pdfGroups`, `currentGroupIndex`,
    `currentFileIndex`, `viewedFiles`, `viewedGroups`, `loadedPages` and `pdfCache`;
  - it also holds the file badges and the logical state of the two group buttons;
  - consent POSTs become entries appended to `consents`;
  - each handler is a method that runs to completion, as on the browser's single thread;
  - the decisions the handlers take (when a group counts as viewed, what a click on "next"
    does, how page keys are formed, how the catalog reply is read) are pure functions in
    `ViewerRules`, and the methods are specified through them.

Module `Catalog` holds the JSON shapes the two halves share. `EndToEnd` connects them: a catalog
the server builds is accepted by the viewer as it is, and every URL it lists is served.

Shared helpers:

- `Wrappers`: `Option` and `Result`;
- `Text`: suffix test and decimal formatting of naturals, used by page keys and messages.

The PDF cache maps a URL to a `LoadingTask`. A task records its URL and how many tasks were
started before it. This lets the contracts say that an entry is never replaced and that a task
is started only for a URL that is absent.

The model follows the code where it differs from how the system is described:

- The "next" button and `goToNextGroup` are not gated on the current group being viewed. Only
  "Sign" depends on `viewedGroups` (`ViewerRules.AdvanceNotGatedOnViewing`).
- A group is put in `viewedGroups` only when all its files are viewed, but a group whose files
  are all viewed is not necessarily in it. Only `markFileAsViewed` adds groups, and only for
  the current group.
- No manual override marks a group viewed. In this model a page is marked drawn only for a file
  of the current group, so a group without files is never marked. The session invariant
  `Viewer.PdfViewer.Valid` keeps that, and a catalog with an empty group then never offers
  "Sign" (`ViewerRules.EmptyGroupBlocksSigning`). With no `.pdf` file on disk every group is
  empty, so no group is ever marked and "Sign" is never offered
  (`EndToEnd.EmptyDirectoryNeverSigns`). This holds only because each handler runs to
  completion here. In the browser a render can finish after the reader has moved to another
  group. `markFileAsViewed` then tests the new current group, and an empty group passes that
  test (`public/js/pdf-viewer.js` lines 346, 523 and 537). With the groups `[{a}, {}]`, a page
  of `a` that finishes drawing after the move to the second group marks the empty group viewed.
- "Signed" is not terminal in the code. Any later `updateGroupNavigation` redraws the button
  from the state, for example going back a group or a render that finishes late.
- `loadPdfFile` sets a file's badge to "Ready" when the document opens. This overwrites a
  "Viewed" badge (`Viewer.PdfViewer.PdfFileLoaded`).

## Model

| member | source | states |
|---|---|---|
| Server.AvailableFiles | server.js:49 | a name is available exactly when the listing holds it and it ends in `.pdf` |
| Server.BaseName | server.js:57 | a `.pdf` name longer than the suffix loses exactly the suffix; the name `.pdf` itself becomes the empty id; a name not ending in `.pdf` is kept |
| Server.Describe | server.js:56-60 | the descriptor's name is the file name and its url is `/api/pdf/` plus the name; for a `.pdf` name longer than the suffix, id + `.pdf` is the name |
| Server.KeepAvailable | server.js:54-55 | a configured name is kept exactly when it is available, and never more names than configured |
| Server.KeepAvailableAppend | server.js:54-55 | filtering distributes over concatenation, so the kept names stay in configured order |
| Server.KeepAvailableAll | server.js:54-55 | when every configured name is available the group's list is returned whole |
| Server.GroupFiles | server.js:54-60 | the descriptors' names are the kept names in order, each configured, available and described by its name |
| Server.BuildCatalog | server.js:49-66 | one group per configured group, in order and with its name, including groups with no files left; each group's files are exactly the configured names that are listed and end in `.pdf`, in configured order, with `name`, `url` and `id` as above |
| Server.CatalogRoute | server.js:31-73 | status 200 exactly when the directory exists and could be read, with body `{groups}`; otherwise 500 with an error and no groups |
| Server.ServePdf | server.js:76-94 | the handler restricted to the `pdfs` directory, as the code evidently intends: 404 exactly when the name is not an entry of that directory; otherwise 200 with the file's bytes as `application/pdf` |
| Server.RouteFilename | server.js:76-78 | a raw `:filename` bound under `/api/pdf/` is one segment with no `/`, and prefixing the route gives back the path |
| Server.SplitSlash | server.js:79 | the parts hold no `/`, there is at least one, and a name without `/` is its only part |
| Server.JoinPath | server.js:79 | joining plain segments appends them; joining slash-free parts to a plain directory gives a path of plain segments |
| Server.PdfPathOfPlain | server.js:79 | a plain name joins to the entry of that name inside `pdfs` |
| Server.ServePdfAsWritten | server.js:78-89 | 404 exactly when nothing exists at the joined path, otherwise 200 with that existing path; for a plain name, 200 exactly when `pdfs` holds it |
| Server.ServePdfAsWrittenEscapes | server.js:78-89 | for any file beside `pdfs`, the parameter `../` + its name is answered 200 with that file, outside `pdfs`, while `ServePdf` answers 404 |
| Server.EscapeSplit | server.js:79 | `../` + a slash-free name splits into `..` and the name |
| Server.ServerSourceIsServed | server.js:78-89 | the parameter `../server.js` is answered 200 with the server's own source |
| Server.ServePdfConfined | server.js:78-89 | given the entries of `pdfs`, a 200 from `ServePdf` reads a plain name directly inside `pdfs`, and on plain names `ServePdf` answers as the code does |
| Server.DashSeparators | server.js:114 | same length; every `:` and `.` becomes `-` and every other character is kept |
| Server.ConsentLogFileName | server.js:114 | `consent_` + stem + `.json`, where the stem has no `:` or `.` and keeps every other timestamp character |
| Server.ConsentLogFileNameInjective | server.js:114 | two timestamps with separators in the same places that share a log file name are equal |
| Server.ConsentLogFileNameCollides | server.js:114 | in general the replacement is not injective: `00:00` and `00-00` share a log file |
| Server.RecordConsent | server.js:97-127 | 200 with the server timestamp and a log file named from it exactly when storing succeeds; otherwise 500 and no file |
| ViewerRules.InitialStatus | public/js/pdf-viewer.js:225-227 | a laid-out badge reads "Viewed" exactly when the file is in `viewedFiles`, and never "Ready" |
| ViewerRules.AllViewed | public/js/pdf-viewer.js:537 | true exactly when every file id of the list is viewed |
| ViewerRules.AllGroupsViewed | public/js/pdf-viewer.js:416 | when only indices of groups are marked, the size test holds exactly when there are groups and every one is marked |
| ViewerRules.NextClick | public/js/pdf-viewer.js:416-421 | when only indices of groups are marked, a click signs exactly when there are groups, the last one is shown and every group is marked; off the last group it always advances; it stays only on or past the last group |
| ViewerRules.NextButtonState | public/js/pdf-viewer.js:548-567 | "next" reads "Sign" exactly when a click signs, is enabled exactly when a click does something, and never reads "Signed" |
| ViewerRules.AdvanceNotGatedOnViewing | public/js/pdf-viewer.js:414-421 | with nothing viewed, the first of two groups still advances and "next" is enabled |
| ViewerRules.CountCoversRange | public/js/pdf-viewer.js:416 | a set of group indices has at least as many members as there are groups exactly when it holds every index |
| ViewerRules.MarkingKeepsGroupsViewed | public/js/pdf-viewer.js:515-530 | marking a file keeps every group in `viewedGroups` fully viewed, including the current group when it is added |
| ViewerRules.SignMeansAllFilesViewed | public/js/pdf-viewer.js:416-420 | when the size test passes for groups whose marks are all earned, every file of every group has been viewed |
| ViewerRules.EmptyGroupBlocksSigning | public/js/pdf-viewer.js:522-523 | when only groups with files are marked and some group has none, the size test fails, so "Sign" is never offered |
| ViewerRules.FindById | public/js/pdf-viewer.js:304 | finds nothing exactly when no file has the id; otherwise a file of the list with that id |
| ViewerRules.FindByIdFirst | public/js/pdf-viewer.js:304 | the file found is the first one carrying the id |
| ViewerRules.RenderProceeds | public/js/pdf-viewer.js:299-305 | when rendering goes ahead, a group is shown and the file is one of its files, so that group has files |
| ViewerRules.PageKey | public/js/pdf-viewer.js:140 | the key is the file id, a dash, then digits that read back as the page number |
| ViewerRules.RenderTarget | public/js/pdf-viewer.js:304-307 | the file rendering uses is in the current group and has the id; there is none before a group is shown or when the id is not in the group |
| ViewerRules.PageKeyInjective | public/js/pdf-viewer.js:140 | two pages with the same `fileId-pageNum` key are the same page |
| ViewerRules.RenderStarts | public/js/pdf-viewer.js:134-144 | the files whose rendering starts, in order, all belong to the current group |
| ViewerRules.DrawnIds | public/js/pdf-viewer.js:134-144 | the ids of the files drawn all belong to the current group |
| ViewerRules.ObserverPrefixStep | public/js/pdf-viewer.js:134-144 | one more entry adds its key when intersecting, sends it when also fresh, and adds its file to those started and drawn exactly when it renders |
| ViewerRules.ViewedStep | public/js/pdf-viewer.js:134-144 | one more entry keeps the viewed files equal to those before plus the files drawn, and marks the current group once a drawing completes it |
| ViewerRules.MarkStep | public/js/pdf-viewer.js:522-523 | marking after one more drawn file, or none, is the same as marking once for all the files drawn |
| ViewerRules.AllViewedGrows | public/js/pdf-viewer.js:537 | viewing more files never makes a group less viewed |
| ViewerRules.FreshKeys | public/js/pdf-viewer.js:133-146 | the keys sent for rendering are exactly the intersecting keys not already loaded, with no key twice |
| ViewerRules.ConsentGroupName | public/js/pdf-viewer.js:436 | never empty; the group's own name when it has one |
| ViewerRules.NormalizeCatalog | public/js/pdf-viewer.js:69-92 | accepts exactly an OK reply carrying `groups` or `files`; `groups` is taken as it is, and `files` becomes the single group "All PDFs" |
| Viewer.CacheUrl | public/js/pdf-viewer.js:252-258 | after the check-and-fill, the cached URLs are those before plus this one |
| Viewer.CacheAll | public/js/pdf-viewer.js:612-620 | preloading keeps every cached URL and never lowers the number of tasks started |
| Viewer.CacheAllAppend | public/js/pdf-viewer.js:614-619 | preloading one more file is the check-and-fill for its URL after the others |
| Viewer.CacheUrlGrows | public/js/pdf-viewer.js:252-258 | caching a URL never replaces an entry, counts one new task per added URL and keeps the cache well formed |
| Viewer.CacheAllKeys | public/js/pdf-viewer.js:612-620 | caching a group's files adds exactly their URLs |
| Viewer.CacheAllStarted | public/js/pdf-viewer.js:612-620 | one loading task is started per URL added and no other |
| Viewer.CacheAllGrows | public/js/pdf-viewer.js:612-620 | cache entries are never replaced or removed |
| Viewer.CacheAllWellFormed | public/js/pdf-viewer.js:612-620 | every entry stays filed under its own URL |
| Viewer.CacheAllCached | public/js/pdf-viewer.js:615 | when all URLs are cached, preloading changes nothing |
| Viewer.CacheAllIdempotent | public/js/pdf-viewer.js:612-620 | preloading a group a second time, as `loadGroup` does after `createGroupStructure`, starts no task |
| Viewer.Badges | public/js/pdf-viewer.js:213-228 | every laid-out badge shows its file's initial status |
| Viewer.BadgesShape | public/js/pdf-viewer.js:213-228 | there is one badge per file id of the group |
| Viewer.BadgesAgreeWithViewed | public/js/pdf-viewer.js:225-227 | freshly laid-out badges never contradict `viewedFiles` |
| Viewer.MarkingViewedAgrees | public/js/pdf-viewer.js:516-519 | adding a file and turning its badge to "Viewed" keeps the badges consistent |
| Viewer.MarkBadgesAddOne | public/js/pdf-viewer.js:516-519 | turning one more file's badge to "Viewed" after the others is marking them all at once |
| Viewer.CacheStep | public/js/pdf-viewer.js:134-144 | one more entry keeps the cache equal to the old cache after the check-and-fill of every file whose rendering started |
| Viewer.BadgeStep | public/js/pdf-viewer.js:134-144 | one more entry keeps the badges equal to the old ones with every drawn file's badge reading "Viewed" |
| Viewer.StepKeys | public/js/pdf-viewer.js:134-144 | one more entry keeps the keys sent, the keys loaded and whether a page was drawn as stated outright |
| Viewer.StepCache | public/js/pdf-viewer.js:134-144 | one more entry keeps the cache as stated outright |
| Viewer.StepViewed | public/js/pdf-viewer.js:134-144 | one more entry keeps the viewed files and groups as stated outright |
| Viewer.StepBadges | public/js/pdf-viewer.js:134-144 | one more entry keeps the badges as stated outright |
| Viewer.ObserveAllClosed | public/js/pdf-viewer.js:133-146 | the entries taken in turn send each fresh intersecting key once, load every intersecting key, cache the documents of the files found in order, mark the files drawn viewed with their badges, and mark the current group once a drawing completes it |
| Viewer.PdfViewer.constructor | public/js/pdf-viewer.js:41-55 | the initial state: no groups, index -1, empty sets and cache |
| Viewer.PdfViewer.IsGroupFullyViewed | public/js/pdf-viewer.js:533-538 | false before a group is shown; otherwise true exactly when every file of the current group is viewed, so true for a group without files |
| Viewer.PdfViewer.EnsureCached | public/js/pdf-viewer.js:252-258 | the cache after the check-and-fill for one URL |
| Viewer.PdfViewer.PreloadGroupPdfs | public/js/pdf-viewer.js:612-620 | the cache after caching each of the group's URLs in turn |
| Viewer.PdfViewer.ResetPdfViewer | public/js/pdf-viewer.js:363-374 | clears the badges and `loadedPages` and changes nothing else |
| Viewer.PdfViewer.CreateGroupStructure | public/js/pdf-viewer.js:205-246 | lays out one badge per file with its initial status and caches each file's URL |
| Viewer.PdfViewer.UpdateGroupNavigation | public/js/pdf-viewer.js:548-567 | "prev" is disabled exactly when the index is at most 0, and "next" is as `NextButtonState` says |
| Viewer.PdfViewer.LoadGroup | public/js/pdf-viewer.js:157-202 | an index outside the catalog changes nothing; otherwise the index is set, the file index is 0, `loadedPages` is empty, the group's badges are laid out and its URLs cached, and the buttons are redrawn; the viewed sets are never touched |
| Viewer.PdfViewer.MarkFileAsViewed | public/js/pdf-viewer.js:515-530 | adds the id, turns its badge to "Viewed", adds the current group exactly when it is then fully viewed, redraws the buttons and keeps the viewing invariant |
| Viewer.PdfViewer.RenderPage | public/js/pdf-viewer.js:295-316 | drawing starts exactly when the placeholder exists and the id is found in the current group with a URL; then the URL is cached if absent, otherwise nothing changes |
| Viewer.PdfViewer.PageDrawn | public/js/pdf-viewer.js:345-346 | the file is added to `viewedFiles` and its badge reads "Viewed"; the current group is added exactly when all its files are now viewed; the buttons are redrawn; called only for a file of the current group, so only groups with files stay marked |
| Viewer.PdfViewer.RequestRender | public/js/pdf-viewer.js:134-144 | an intersecting entry's key joins `loadedPages` and is sent exactly when it was not there; drawing starts exactly when the key was fresh and the lookup succeeds, and then the file's URL is cached if absent |
| Viewer.PdfViewer.ObserveEntry | public/js/pdf-viewer.js:134-145 | the key is loaded and sent as in `RequestRender`, and the cache updated likewise; when the page is drawn the file is viewed, its badge reads "Viewed", the current group is added exactly when all its files are then viewed, and the buttons are redrawn; otherwise none of these changes |
| Viewer.PdfViewer.ObserveNext | public/js/pdf-viewer.js:134-145 | the session after one entry is exactly one `ObserveStep` from the progress so far, and the buttons are shown from the state once a page has been drawn |
| Viewer.PdfViewer.ObserveEach | public/js/pdf-viewer.js:133-146 | the session after the entries is exactly `ObserveAll` from the state before |
| Viewer.PdfViewer.OnPagesIntersecting | public/js/pdf-viewer.js:131-154 | `loadedPages` gains exactly the intersecting keys; the keys sent are exactly the fresh ones, once each; the cache is the old one after the check-and-fill of every file whose rendering started, in order; the files drawn are added to `viewedFiles` with "Viewed" badges; the current group is added exactly when a page was drawn and all its files are viewed; the buttons are redrawn exactly when a page was drawn |
| Viewer.PdfViewer.PdfFileLoaded | public/js/pdf-viewer.js:283-284 | on success the file's badge, if shown, reads "Ready"; nothing else changes |
| Viewer.PdfViewer.GoToPreviousGroup | public/js/pdf-viewer.js:407-411 | on the first group, or before any group, nothing changes; otherwise it moves back exactly one group with file index 0, as `LoadGroup` does |
| Viewer.PdfViewer.ShowConsentConfirmation | public/js/pdf-viewer.js:570-609 | appends the final consent with all viewed groups and files, and the button is disabled and reads "Signed" |
| Viewer.PdfViewer.GoToNextGroup | public/js/pdf-viewer.js:414-449 | in sign mode, emits the final consent and every file of every group has been viewed; otherwise, off the last group, emits the group consent and advances exactly one group with file index 0; otherwise changes nothing |
| Viewer.PdfViewer.InitApp | public/js/pdf-viewer.js:58-128 | succeeds exactly when the reply normalises, and then the groups are stored. With at least one group, the first is shown: index 0, file index 0, `loadedPages` empty, its badges laid out, its URLs cached and the buttons redrawn. With none, nothing else changes. On failure nothing changes |
| EndToEnd.ViewerAcceptsCatalog | server.js:68 | the viewer takes a successful catalog reply as exactly the groups the server built, one per configured group |
| EndToEnd.ViewerRejectsCatalogErrors | server.js:36-42 | both catalog failures make the viewer give up |
| EndToEnd.CatalogUrlsAreServed | server.js:59 | every URL in the catalog routes back to its file's name, and that file is served with 200 |
| EndToEnd.ConfiguredNamesArePdf | server.js:18-22 | every configured file name ends in `.pdf` |
| EndToEnd.ConfiguredCatalogWhenAllPresent | server.js:18-22 | with every configured file on disk, the three groups are returned whole and in order |
| EndToEnd.DescribeConfiguredFile | server.js:56-60 | `1.pdf` is described as id `1`, served at `/api/pdf/1.pdf` |
| EndToEnd.EmptyDirectoryNeverSigns | server.js:49-66 | with no `.pdf` file on disk the three groups are still returned, each empty; a session in its invariant on that catalog has no group marked viewed, so neither a click nor the button signs |

## Left out

- Rendering by pdf.js, including the worker, canvas, viewport scale and page count. A drawn page
  is an event (`PageEntry.renders`), and opening a document is the `loaded` input of
  `PdfFileLoaded`.
- DOM updates, `alert`, `scrollTo`, CSS classes, the group header text and the page
  placeholders. Only the badges and the logical button state are kept. A placeholder's
  presence is the `inDocument` input.
- The `fetch` calls: catalog replies are an input of `InitApp`, and consent POSTs are records in
  `consents`. Their replies are not modelled.
- Viewer.PdfViewer.ObserveEntry: runs the rest of `renderPage` in the same step as the
  observer callback. In the browser, drawing is asynchronous. A render that finishes after the
  reader has changed groups marks its file viewed and tests the new current group. A group
  without files can then be marked viewed. Interleavings like that are not modelled.
- Viewer.PdfViewer.PageDrawn: requires the drawn file to be in the current group. In the
  browser the call at `public/js/pdf-viewer.js` line 346 can come after the reader has moved to
  another group, with a file outside the new current group; that call is not modelled here.
  `MarkFileAsViewed` has no such requirement and states what `markFileAsViewed` then does.
- Viewer.PdfViewer.IsGroupFullyViewed: requires the index to be within the catalog, which the
  class invariant guarantees; the code would throw there otherwise.
- Clocks: `new Date().toISOString()` is the `timestamp` input of the consent operations.
- The unused page state `currentPdf`, `currentPage`, `totalPages` and `pdfPages`, and the dead
  functions `goToPreviousPage`, `goToNextPage`, `updateCurrentPage` and `scrollToPage`.
- The unwired legacy `confirmNextGroup`, which marks a group viewed unconditionally, and the
  no-op confirmation stubs. None of them is reachable from a handler.
- `updateGroupProgress` (text only) and the visibility of the group controls.
- `initApp`'s observer set-up and listener registration, and the exception thrown when the
  viewer element is missing.
- Line 446 of `public/js/pdf-viewer.js` dereferences `confirmationOverlay` without the null
  check used elsewhere. The model assumes the element exists. Without it `goToNextGroup` would
  post the consent and stop before advancing.
- The initial button state written in the HTML, which is not part of this model. The
  constructor picks "Consent & Go to Next Group", enabled, until `updateGroupNavigation` runs.
- Insertion order of JavaScript `Set`s (the consent payloads carry sets) and key order of
  `Object.entries`, which is the declaration order modelled by the `PdfGroups` sequence.
- Server.RouteFilename: binds the raw segment. Express then percent-decodes it, so
  `..%2Fserver.js` becomes `../server.js`. Decoding is not modelled: `ServePdfAsWritten` takes
  the decoded parameter as its input, and a malformed escape, which Express rejects, is not
  modelled.
- Server.JoinPath: models POSIX `path.join` without its trailing separator. A name ending in
  `/` keeps the separator in the code, so `existsSync` then finds only a directory; here it is
  dropped.
- `path.basename` on names containing `/`: catalog names come from a directory listing and
  have none.
- Server.ServePdf: does not model a failure of the file stream. `createReadStream(...).pipe(res)`
  (`server.js` lines 88-89) fails asynchronously, for example when the name is a directory
  such as `.` or `..`. No `'error'` listener is attached, so the `catch` at lines 90-93 never
  sees that failure. The stream's `'error'` event becomes an uncaught exception, and with no
  process-level handler it ends the Node process: no reply is completed and the server stops.
  The model answers 200 for every existing file.
- Server.ConsentLogFileName: does not model two consents stamped in the same millisecond. They
  get the same log file name, and the second `writeFileSync` (`server.js` line 118) overwrites
  the first record.
- Express middleware (cors, morgan, json parsing, static files), directory creation and the
  written JSON content with its `serverTimestamp` field. Whether writing succeeds is the
  `stored` input of `RecordConsent`.

## Findings

| source | as written | input that shows it | evidently intended | confidence | as-written member | corrected member |
|---|---|---|---|---|---|---|
| server.js:78-89 | the decoded `:filename` is joined to the `pdfs` directory with `path.join` and served whenever something exists there | `GET /api/pdf/..%2Fserver.js`: the parameter decodes to `../server.js`, the join leaves `pdfs`, and the server's own source is sent with 200 | serve only entries of the `pdfs` directory, 404 for anything else | not executed | Server.ServePdfAsWritten, Server.ServePdfAsWrittenEscapes, Server.ServerSourceIsServed | Server.ServePdf, Server.ServePdfConfined |
