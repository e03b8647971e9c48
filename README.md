# qzone-album-sync, modelled in Dafny

qzone-album-sync mirrors one QQ Zone photo album to a local directory. It lists the user's
albums page by page (offsets 0, 20, 40, ...) until it meets the album named
`2024.8.15.长沙花样汇店`, and then syncs only that album (`syncAlbums`).

Syncing an album (`syncAlbum`) works like this:
- It looks up the album's track record: the stored name and the last upload time seen.
- It reconciles the album directory under the save path.
- It stops early when the album has no newer upload.
- Otherwise it walks the album's photo pages, each page requested with the locator (`lloc`)
  of the last item on the page before. It submits one download per item until it meets an
  item whose locator is contained in a name of the directory listing taken before the walk:
  the resume boundary.
- Last, it records the new upload time and writes the track file.

The album-list and photo-page requests carry a `g_tk` token: a times-33 hash of a session key
taken from the cookie (`getGtk`, `getCookieValue`). The first photo-page request of an album
(null cursor) sends the fixed token 17137887 instead, and the downloads send none. Every
response envelope goes through `checkResp`.

The model has six modules, one file each:

- `Wrappers` (`wrappers.dfy`): `Option` and `Result`.
- `JsString` (`jsstring.dfy`): the JavaScript string operations the program relies on:
  `indexOf`, `includes`, `split` and truthiness.
- `Cookie` (`cookie.dfy`): `getCookieValue`, an unanchored split on `key=`.
- `Gtk` (`gtk.dfy`): the key choice of `getGtk`, and its loop as a method.
  - The loop is computed over UTF-16 code units with JavaScript's 32-bit `<<`.
  - It is proved equal to the reference hash `h := 33 h + c (mod 2^31)`.
  - Its intermediate values are exact in a JavaScript number for keys of up to 2^21 code units.
- `Naming` (`naming.dfy`): an item of a page, its download URL, and the name its file is saved under.
- `AlbumSync` (`sync.dfy`): `checkResp`, the resume check, the page walk, directory
  reconciliation, `syncAlbum`, `syncAlbums` and the end of `main`.
  - Each is a specification function with the lemmas about it.
  - The class `Session` holds the process state: the track file in memory, the album
    directories, and logs of the track-file writes, downloads and requests. Its methods run
    the loops step by step and are proved equal to the specification functions.

The remote service is modelled as a finite sequence of response envelopes, one per request.
The page walk is `Walk`; one pass of its loop is `PageStep`. Directories are a set of
sanitized names. The directory listing read before the walk is a sequence of names.

Points of the code's behaviour that the model keeps as they are:
- The directory kept is the one named after the STORED name. When the album was renamed
  upstream, a directory with the current name is renamed to the stored name, not the other
  way round.
- The stored name is never updated.
- The code does not wait for the submitted downloads before writing the track file.
- The album to sync is selected by a hard-coded name.
- A page whose `photos` is an empty array does not end the walk. It makes `items.at(-1).lloc`
  throw: `EmptyPhotoList` in the model.
- A `mkdir` of an existing directory fails. That is the finding below; the model keeps that
  behaviour in `SyncAlbumAsWritten`. `SyncAlbumSpec`, the `Session` methods and everything
  built on them use the corrected reconciliation (see "Left out").

## Model

| member | source | states |
|---|---|---|
| JsString.IndexOf | index.js:57-61 | `indexOf`: the result is the first occurrence at or after `from`; `None` (that is, -1) exactly when there is none |
| JsString.Split | index.js:48 | `split` with a non-empty separator gives at least one piece, and no piece contains the separator |
| JsString.SplitJoin | index.js:48 | splitting loses nothing: joining the pieces with the separator gives back the string |
| Cookie.CookieValue | index.js:47-49 | `getCookieValue(key)` is `undefined` exactly when `key=` does not occur; otherwise the value has no `;` and the cookie holds it right after a `key=` |
| Cookie.CookieValueSpec | index.js:47-49 | `getCookieValue(key)` is `undefined` exactly when `key=` does not occur; otherwise it is the text after the first `key=`, up to the first `;`, the next `key=` or the end |
| Cookie.SkeyMatchesInsidePSkey | index.js:47-49 | the match is not anchored at a field boundary: in `p_skey=AAA; skey=BBB` the value read for `skey` is `AAA` |
| Gtk.BaseKey | index.js:52 | the base key is empty or one of the `skey` argument, the cookie's `skey` and the cookie's `rv2` |
| Gtk.BaseKeyOrder | index.js:52 | the base key is the first non-empty of the `skey` argument, the cookie's `skey` and the cookie's `rv2` (the argument when it is non-empty, else the cookie's `skey` when non-empty, else `rv2` when non-empty); it is empty only when all three are |
| Gtk.SelectKey | index.js:52-64 | the key hashed is the base key or the cookie's `p_skey`; it differs from the base key only for a URL whose host passes the host test and a non-empty `p_skey` |
| Gtk.PSkeyOverride | index.js:55-64 | a non-empty cookie `p_skey` replaces the base key exactly when a URL is given whose host contains `qun.qq.com`, or contains `qzone.qq.com` but not `qun.qzone.qq.com` |
| Gtk.ApiHostUsesPSkey | index.js:56-63 | the host of the album and photo-list URLs, `user.qzone.qq.com`, passes that host test |
| Gtk.PSkeyValueUsedWithoutUrl | index.js:47-52 | through the unanchored lookup, `p_skey`'s value becomes the key even without a URL when the `p_skey` field comes first |
| Gtk.Utf16 | index.js:66-67 | `str.length` counts UTF-16 code units: at least one per character, each in [0, 65536) |
| Gtk.ToInt32 | index.js:67 | ToInt32 gives the value congruent modulo 2^32 in [-2^31, 2^31) |
| Gtk.DjbHash | index.js:53-69 | the reference hash (seed 5381, then 33 h + c modulo 2^31) lies in [0, 2^31) |
| Gtk.StepCongruence | index.js:67 | one step `hash += (hash << 5) + c`, taken modulo 2^31, is 33 h + c modulo 2^31 |
| Gtk.ShiftLeft5 | index.js:67 | `x << 5` is a 32-bit integer congruent to 32 x modulo 2^32 |
| Gtk.Mask31 | index.js:69 | `& 0x7fffffff` is reduction modulo 2^31 |
| Gtk.JsHashRun | index.js:66-68 | the loop's running value, reduced modulo 2^31, is the reference hash of the code units read so far |
| Gtk.JsHashBounded | index.js:66-68 | each step moves the running value by less than 2^31 + 2^16, so it stays exact in a JavaScript number for keys of up to 2^21 code units |
| Gtk.GetGtk | index.js:51-70 | `getGtk` returns a value in [0, 2^31), equal to the reference hash of the chosen key's code units |
| Gtk.EmptyKeyHash | index.js:52-53 | with no key at all the token is the seed 5381 |
| Naming.DownloadUrl | index.js:236 | a non-empty video download URL wins; otherwise the item's URL is used |
| Naming.CaptureMoment | index.js:245-247 | the file time is the shooting time exactly when it is present and non-zero, else the upload time |
| Naming.Extension | index.js:244 | the extension is empty when the content type has no `/`; it never contains `/`, and a non-empty one follows a `/` in the content type |
| Naming.ExtensionSpec | index.js:244 | the extension is empty without a `/` in the content type; otherwise it is the text after the first `/` up to the next `/` or the end |
| Naming.ExtensionOfJpeg | index.js:244 | `image/jpeg` gives `jpeg` |
| Naming.FileName | index.js:249 | the file name holds the item's locator right after the time string and a dot |
| Naming.SavedName | index.js:233-249 | every saved file name contains its item's locator, which is what the resume check looks for |
| AlbumSync.CheckResp | index.js:71-76 | a response is accepted exactly when its code is 0, and then yields its data; otherwise the error carries the service's message |
| AlbumSync.FindEntry | index.js:233 | `find` returns a listing entry containing the locator, or nothing exactly when no entry does |
| AlbumSync.FindEntryFirst | index.js:233 | the entry `find` returns is the first one containing the locator |
| AlbumSync.AlreadyDownloadedSpec | index.js:233 | an item counts as downloaded only when a non-empty entry contains its locator; for a non-empty locator, or a listing without empty names, exactly when some entry contains it |
| AlbumSync.BoundaryIndex | index.js:231-235 | the position of the first item already on disk: all items before it are new, and the item there, if any, is on disk |
| AlbumSync.Submit | index.js:236-238 | one download per item, in order, each with the item's download URL |
| AlbumSync.PageStepKinds | index.js:228-261 | one pass ends with no more photos exactly on a successful page without data, with the empty-list error exactly on a successful empty page, with the service's message exactly on a failed response; it goes on exactly past a successful non-empty page with nothing on disk |
| AlbumSync.PageStepPrefix | index.js:228-261 | one pass submits a prefix of the page's items; it goes on only after a whole non-empty successful page, from that page's last locator |
| AlbumSync.PageStepOnlyNew | index.js:231-235 | no item one pass submits is already on disk |
| AlbumSync.PageStepBoundary | index.js:231-235 | one pass stops at the resume boundary exactly when it leaves part of the page unsubmitted, and the first item left is then on disk |
| AlbumSync.Walk | index.js:223-262 | the walk requests at most one page per answer, the first with the cursor it starts from (null in `syncAlbum`); it requests and submits nothing only when the answers run out |
| AlbumSync.WalkEnds | index.js:223-262 | the walk goes past every requested page but the last; it ends with no more photos, the empty-list error or the service's message exactly as the last requested page says; it runs out of answers exactly when every answer was used and the last one went on |
| AlbumSync.WalkCursors | index.js:223-261 | each cursor after the first is the locator of the last item of the page before, which was successful and non-empty |
| AlbumSync.WalkSubmitsInOrder | index.js:227-262 | the downloads submitted are a prefix of the items of the pages requested, in page order, each with its URL |
| AlbumSync.WalkSubmitsOnlyNew | index.js:231-235 | no submitted item is already on disk |
| AlbumSync.WalkStopsAtBoundary | index.js:231-235 | the walk stops at the resume boundary exactly when fewer items were submitted than fetched; the first unsubmitted item is on disk and lies on the last page requested |
| AlbumSync.SavedItemNotResubmitted | index.js:225-249 | an item whose saved file is in the listing is never submitted again |
| AlbumSync.TwoPagesScenario | index.js:223-262 | pages [i1, i2], [i3], then none: three downloads, and cursors null, i2, i3 |
| AlbumSync.MidPageBoundaryScenario | index.js:231-235 | a match in the middle of the first page: the items before it are submitted and no further page is requested |
| AlbumSync.Reconcile | index.js:205-216 | as written: it fails exactly when the album was renamed, no directory has the current name and the stored-name one exists; otherwise the stored-name directory exists afterwards and only a current-name directory is renamed to it |
| AlbumSync.ReconcileFixed | index.js:205-216 | corrected: the stored-name directory exists afterwards, no other directory is lost but the current-name one, which survives only when it is the same directory |
| AlbumSync.ReconcileFixedAgrees | index.js:205-216 | wherever the code as written succeeds, the correction gives the same directories; where it fails, the correction leaves them unchanged |
| AlbumSync.ReconcileFixedIdempotent | index.js:205-216 | reconciling twice with the same names gives the directories of reconciling once |
| AlbumSync.ReconcileNotIdempotent | index.js:206-213 | as written, for a renamed album, a second reconciliation on the directories the first one left fails with EEXIST |
| AlbumSync.SyncAlbumEffects | index.js:198-267 | only this album's record changes; a failure leaves records and track file untouched; on success the record keeps its stored name, its directory exists and its time is the newer of the two; no newer upload means nothing requested or submitted; a synced album writes the track file once |
| AlbumSync.SyncAlbumSpec | index.js:198-267 | corrected reconciliation: `syncAlbum` fails exactly when the album has a newer upload and the page loop aborts, with the loop's error; built from `TrackFor` (the default record of index.js:200-203) and `SyncAfterReconcile` (index.js:218-266) |
| AlbumSync.SyncAlbumAsWritten | index.js:198-267 | as written: when the reconciliation fails the state is unchanged and the outcome is its error; otherwise the result is that of the corrected model |
| AlbumSync.SecondRunIsNoOp | index.js:200-221 | corrected reconciliation: a run right after a successful one, with no newer upload, changes nothing, renamed album or not |
| AlbumSync.SecondRunIsNoOpAsWritten | index.js:200-221 | as written: for an album not renamed since its record was stored, a run right after a successful one changes nothing |
| AlbumSync.RenamedAlbumStaysBroken | index.js:205-213 | as written, a renamed album whose stored-name directory exists and whose current-name one does not fails with EEXIST and leaves the state unchanged, so every later run fails too |
| AlbumSync.RenameScenario | index.js:205-216 | stored "Trip", current "Trip2025", directory "Trip": as written it fails, corrected it keeps "Trip"; from no directory, as written it creates "Trip" |
| AlbumSync.FindTarget | index.js:276-281 | the position of the first album named like the target: no album before it has that name |
| AlbumSync.ScanLists | index.js:269-285 | the listing requests at most one page per answer, and at least one when there is an answer |
| AlbumSync.ScanOffsets | index.js:270-283 | the album list is requested at offsets 0, 20, 40, ... |
| AlbumSync.ScanEnds | index.js:270-284 | the listing goes past every requested page but the last; it selects an album, reaches the end of the list or fails with the service's message exactly as the last requested page says; it runs out of answers exactly when every answer was used and the last one went on |
| AlbumSync.ScanSelectsFirstTarget | index.js:272-281 | an album is selected exactly when one of the albums listed so far has the target name, and it is the first such album |
| AlbumSync.SyncAlbumsEffects | index.js:269-285 | `syncAlbums` requests the list at offsets 0, 20, ...; no record changes but the selected album's; without a selection only list requests happen |
| AlbumSync.SyncAlbumsSpec | index.js:269-285 | corrected reconciliation: the only list requests are the scan's; `syncAlbums` fails exactly when the listing aborts, or an album is selected, has a newer upload and its page loop aborts |
| AlbumSync.RunSpec | index.js:331-333 | the outcome is that of `syncAlbums`; after a successful run the last track-file snapshot equals the records in memory; a failed run writes nothing more than `syncAlbums` did |
| AlbumSync.Session.constructor | index.js:88-94 | `loadTrackFile`: the records are the persisted ones, or empty when there is no track file |
| AlbumSync.Session.SaveTrackFile | index.js:95-97 | `saveTrackFile` writes a snapshot of the whole record map |
| AlbumSync.Session.SubmitPage | index.js:231-259 | the item loop submits the items before the first one on disk, and returns how many it submitted |
| AlbumSync.Session.ProcessPage | index.js:228-261 | one pass of `albumLoop` does what `PageStep` specifies and submits exactly the pass's downloads |
| AlbumSync.Session.WalkPages | index.js:223-262 | `albumLoop` ends as `Walk` does, and logs exactly its downloads and its cursors |
| AlbumSync.Session.SyncAlbum | index.js:198-267 | corrected reconciliation: `syncAlbum` leaves exactly the state and outcome of `SyncAlbumSpec` |
| AlbumSync.Session.ScanAlbumLists | index.js:270-284 | the listing loop ends with `ScanLists`' selection and logs exactly its offsets |
| AlbumSync.Session.SyncAlbums | index.js:269-285 | corrected reconciliation: `syncAlbums` leaves exactly the state and outcome of `SyncAlbumsSpec` |
| AlbumSync.Session.Run | index.js:331-333 | corrected reconciliation: `await syncAlbums(); saveTrackFile();` leaves exactly the state and outcome of `RunSpec` |

## Left out

- HTTP requests, the JSONP unwrapping hook (index.js:311-329), and the retries of `got`.
  - Each response is an element of a finite sequence of envelopes.
  - A transport failure or a response without `data` is an envelope with a non-zero code.
  - Running out of answers is the model-only outcome `SourceExhausted`.
- The bootstrap request of `getAlbumItems` for a null cursor (index.js:133-164), with its fixed
  `g_tk`, is not separate: the answer for the null cursor is one element of the sequence.
  How the service pages after a locator is left to the answers. The code tests `!cursor`, so
  an item whose locator is the empty string would make the next request a bootstrap request
  again; the model logs that cursor as `Some("")` like any other.
- `getAlbumList` and `getAlbumItems` are not separate members. Their request parameters are
  not modelled; their `checkResp` and the fields they return are part of `ScanLists` and `PageStep`.
- `new URL(url).hostname`: `getGtk` takes the hostname, or `None` when no URL is given.
- `filenamify` is the uninterpreted function `sanitize`. The dayjs formatting is an
  uninterpreted `format` parameter of `Naming.SavedName`.
- The content type of a download response is a parameter. A response without one, which makes
  `split` throw, is not modelled.
- `Scheduler` (index.js:19-45), the concurrency of downloads, and the download itself: the
  stream, `pipeline` and the file written.
  - A submission is an append to a log of downloads.
  - A failing download, which never frees its slot, is not modelled.
- The progress counter and all console output.
- The file-system details beyond a set of directory names:
  - file contents and the listing's order;
  - `ensureDir` of the save path;
  - a rename onto an existing non-empty directory, which fails with ENOTEMPTY;
  - whether the names are files or directories.
- `JSON.parse`/`JSON.stringify` of the track file: `loadTrackFile` receives the parsed map, or
  `None` when the file is absent. A malformed file, which makes it throw, is not modelled.
- `main`'s environment handling (index.js:287-309): the cookie, the save path joined with the
  user id, and the download concurrency. Only its last two lines are modelled (`Session.Run`).
- Codes that are not numbers: `code` is an integer, and `!== 0` is `!= 0`.
- Gtk.GetGtk: the running `hash` is an exact integer in the model. In JavaScript it is a
  double, exact only below 2^53; `JsHashBounded` shows it stays there for keys of up to 2^21
  code units, and longer keys, where the source rounds, are not modelled.
- AlbumSync.Session.SyncAlbum: uses the corrected reconciliation. For an album renamed upstream
  whose stored-name directory exists and whose current-name one does not (stored "Trip",
  current "Trip2025", directories {"Trip"}), it succeeds where the code throws EEXIST at
  index.js:212. The code's behaviour there is `SyncAlbumAsWritten` and `RenamedAlbumStaysBroken`.
- AlbumSync.SyncAlbumSpec: the same difference as `Session.SyncAlbum`, which it specifies.
- AlbumSync.Session.SyncAlbums: the same EEXIST difference, through `Session.SyncAlbum`.
- AlbumSync.SyncAlbumsSpec: the same EEXIST difference, through `SyncAlbumSpec`.
- AlbumSync.Session.Run: the same EEXIST difference, through `Session.SyncAlbums`.
- AlbumSync.RunSpec: the same EEXIST difference, through `SyncAlbumsSpec`.
- AlbumSync.SecondRunIsNoOp: holds for the corrected reconciliation only. As written, a
  renamed album's second run fails with EEXIST (`ReconcileNotIdempotent`);
  `SecondRunIsNoOpAsWritten` states the as-written case for an album not renamed.
- AlbumSync.Session.SyncAlbums: the album search loop is the separate method `ScanAlbumLists`,
  and `SyncAlbums` calls `SyncAlbum` after it. In the source, `syncAlbum` is awaited inside
  the search loop; the order of effects is the same.

## Findings

| source | as written | input that shows it | evidently intended | confidence | as-written member | corrected member |
|---|---|---|---|---|---|---|
| index.js:206-213 | When the album's name differs from the stored name and no directory has the current name, the stored-name directory is created with a plain `mkdirSync`, which throws EEXIST when it already exists. The stored name is never updated, so the album fails the same way on every later run. | Stored name "Trip", current name "Trip2025", existing directory "Trip" | Create the directory only when missing, as the `ensureDir` right after it does | not executed | AlbumSync.RenamedAlbumStaysBroken | AlbumSync.ReconcileFixed |

The as-written half is `Reconcile`, with `SyncAlbumAsWritten`, `RenamedAlbumStaysBroken`,
`ReconcileNotIdempotent` and `RenameScenario`. The corrected half is `ReconcileFixed`, with
`ReconcileFixedIdempotent` and `ReconcileFixedAgrees`; `SyncAlbumAsWritten`'s contract
connects the two halves.
`SyncAlbumSpec`, `Session.SyncAlbum`, and everything built on them use the corrected
reconciliation.
