/**
 * The album sync engine: per album, a track record (stored name, last upload time seen),
 * directory reconciliation, a short-circuit on the upload time, and a walk over cursor-linked
 * pages that submits downloads until it reaches an item already on disk (the resume boundary).
 * The remote service is a finite sequence of response envelopes; directories are a set of
 * sanitized names under the save path.
 */
module AlbumSync {
  import opened Wrappers
  import opened JsString
  import opened Naming

  type AlbumId = string

  /** `album.id`, `album.name`, `album.lastuploadtime`, `album.total`. */
  datatype Album = Album(id: AlbumId, name: string, lastUploadTime: int, total: int)

  /** The record kept per album in the track file. */
  datatype Track = Track(name: string, lastUploadTime: int)

  /** A response envelope of the album service; `code` 0 means success. */
  datatype Response<T> = Response(code: int, message: string, data: T)

  /** A page of items: `data.photos`, absent when the album has no more. */
  type PhotoPage = Response<Option<seq<Item>>>

  /** A page of the album list: `data.albumList`, absent past the last album. */
  type AlbumListPage = Response<Option<seq<Album>>>

  /** The locator passed to the item listing; `None` is `null`, "start of album". */
  type Cursor = Option<string>

  /** A download handed to the scheduler: the item and the URL it is fetched from. */
  datatype Submission = Submission(item: Item, url: string)

  datatype SyncError =
    | DirectoryExists(path: string)   // `mkdirSync` on a directory that exists (EEXIST)
    | RequestFailed(message: string)  // `checkResp` threw, or the request itself failed
    | EmptyPhotoList                  // `items.at(-1).lloc` on an empty page (TypeError)
    | SourceExhausted                 // the finite stand-in for the service has no more answers

  /** How `syncAlbum` / `syncAlbums` end: normally, or by an exception. */
  datatype Outcome = Ok | Failed(error: SyncError)

  const PageSize: int := 20
  const TargetAlbumName: string := "2024.8.15.长沙花样汇店"

  // ---------------------------------------------------------------- checkResp

  /** `checkResp`: a non-zero code is an error carrying the service's message. */
  function CheckResp<T>(resp: Response<T>): (r: Result<T, SyncError>)
    ensures r.Success? <==> resp.code == 0
    ensures r.Success? ==> r.value == resp.data
    ensures r.Failure? ==> r.error == RequestFailed(resp.message)
  {
    if resp.code != 0 then Failure(RequestFailed(resp.message)) else Success(resp.data)
  }

  // ---------------------------------------------------------------- resume check

  /** `currentItemList.find(dir => dir.includes(itemId))`: an entry containing the locator, if any. */
  function FindEntry(listing: seq<string>, lloc: string): (r: Option<string>)
    ensures r.None? <==> forall e :: e in listing ==> !Includes(e, lloc)
    ensures r.Some? ==> r.value in listing && Includes(r.value, lloc)
  {
    if listing == [] then None
    else if Includes(listing[0], lloc) then Some(listing[0])
    else FindEntry(listing[1..], lloc)
  }

  /** The entry found is the first one containing the locator. */
  lemma {:induction false} FindEntryFirst(listing: seq<string>, lloc: string, i: nat)
    requires i < |listing| && Includes(listing[i], lloc)
    requires forall j :: 0 <= j < i ==> !Includes(listing[j], lloc)
    ensures FindEntry(listing, lloc) == Some(listing[i])
  {
    if i > 0 {
      assert !Includes(listing[0], lloc);
      assert forall j :: 0 <= j < i - 1 ==> listing[1..][j] == listing[j + 1];
      FindEntryFirst(listing[1..], lloc, i - 1);
    }
  }

  /**
   * The resume test: the entry found is truthy, i.e. the first entry containing the locator
   * is non-empty.
   */
  predicate AlreadyDownloaded(listing: seq<string>, lloc: string) {
    var found := FindEntry(listing, lloc);
    found.Some? && found.value != ""
  }

  /**
   * An item counts as downloaded only when a non-empty entry contains its locator; for a
   * non-empty locator, or a listing without empty names (as a directory listing is), exactly
   * when some entry contains it.
   */
  lemma AlreadyDownloadedSpec(listing: seq<string>, lloc: string)
    ensures AlreadyDownloaded(listing, lloc) ==> exists e :: e in listing && e != "" && Includes(e, lloc)
    ensures lloc != "" || "" !in listing ==>
      (AlreadyDownloaded(listing, lloc) <==> exists e :: e in listing && Includes(e, lloc))
  {
  }

  /** The position of the first item already on disk, or the page length when there is none. */
  function BoundaryIndex(listing: seq<string>, items: seq<Item>): (n: nat)
    ensures n <= |items|
    ensures forall k :: 0 <= k < n ==> !AlreadyDownloaded(listing, items[k].lloc)
    ensures n < |items| ==> AlreadyDownloaded(listing, items[n].lloc)
  {
    if items == [] || AlreadyDownloaded(listing, items[0].lloc) then 0
    else
      var n := BoundaryIndex(listing, items[1..]);
      assert forall k :: 1 <= k <= n ==> items[k] == items[1..][k - 1];
      1 + n
  }

  /** One submission per item, in order, each with the item's download URL. */
  function Submit(items: seq<Item>): (s: seq<Submission>)
    ensures |s| == |items|
    ensures forall k :: 0 <= k < |items| ==> s[k] == Submission(items[k], DownloadUrl(items[k]))
  {
    seq(|items|, k requires 0 <= k < |items| => Submission(items[k], DownloadUrl(items[k])))
  }

  lemma SubmitAppend(a: seq<Item>, b: seq<Item>)
    ensures Submit(a + b) == Submit(a) + Submit(b)
  {
  }

  // ---------------------------------------------------------------- the page walk

  /** Why the page loop ended. */
  datatype Stop = NoMorePhotos | ResumeBoundary | Aborted(error: SyncError)

  /** One pass of the page loop: it either ends the loop or goes on from a new cursor. */
  datatype Step =
    | Finished(stop: Stop, submitted: seq<Submission>)
    | Continue(submitted: seq<Submission>, next: string)

  /**
   * One pass of `albumLoop` on the service's answer `page`: check the response, submit the
   * page's items up to the first one already on disk, and go on from the last item's locator.
   */
  function PageStep(listing: seq<string>, page: PhotoPage): Step {
    var checked: Result<Option<seq<Item>>, SyncError> := CheckResp(page);
    match checked
    case Failure(e) => Finished(Aborted(e), [])
    case Success(None) => Finished(NoMorePhotos, [])
    case Success(Some(items)) =>
      var n := BoundaryIndex(listing, items);
      if n < |items| then Finished(ResumeBoundary, Submit(items[..n]))
      else if items == [] then Finished(Aborted(EmptyPhotoList), [])
      else Continue(Submit(items), items[|items| - 1].lloc)
  }

  /** The page loop goes past this page: a successful, non-empty page with no item on disk. */
  predicate WalkContinues(listing: seq<string>, page: PhotoPage) {
    && page.code == 0 && page.data.Some? && page.data.value != []
    && BoundaryIndex(listing, page.data.value) == |page.data.value|
  }

  /**
   * How one pass ends: no more photos exactly on a successful page without data, the
   * empty-list error exactly on a successful empty page, a request error exactly on a failed
   * response; it goes on exactly past a successful, non-empty page with nothing on disk.
   */
  lemma PageStepKinds(listing: seq<string>, page: PhotoPage)
    ensures var s := PageStep(listing, page);
      && ((s.Finished? && s.stop == NoMorePhotos) <==> page.code == 0 && page.data.None?)
      && ((s.Finished? && s.stop == Aborted(EmptyPhotoList)) <==> page.code == 0 && page.data == Some([]))
      && ((s.Finished? && s.stop == Aborted(RequestFailed(page.message))) <==> page.code != 0)
      && ((s.Finished? && s.stop.Aborted?) ==> s.stop.error.RequestFailed? || s.stop.error == EmptyPhotoList)
      && (s.Continue? <==> WalkContinues(listing, page))
  {
  }

  /** The items a page contributes: its photos when the response succeeded and has some. */
  function PhotosOf(page: PhotoPage): seq<Item> {
    if page.code == 0 && page.data.Some? then page.data.value else []
  }

  /** None of the submissions is for an item already on disk. */
  predicate AllNew(listing: seq<string>, subs: seq<Submission>) {
    forall k :: 0 <= k < |subs| ==> !AlreadyDownloaded(listing, subs[k].item.lloc)
  }

  lemma AllNewBeforeBoundary(listing: seq<string>, items: seq<Item>)
    ensures AllNew(listing, Submit(items[..BoundaryIndex(listing, items)]))
  {
  }

  lemma AllNewAppend(listing: seq<string>, a: seq<Submission>, b: seq<Submission>)
    requires AllNew(listing, a) && AllNew(listing, b)
    ensures AllNew(listing, a + b)
  {
    forall k | 0 <= k < |a + b| ensures !AlreadyDownloaded(listing, (a + b)[k].item.lloc) {
      if k >= |a| {
        assert (a + b)[k] == b[k - |a|];
      }
    }
  }

  /**
   * One pass submits a prefix of the page's items, in order, each with its download URL; it
   * goes on only after submitting a whole non-empty page, from that page's last locator.
   */
  lemma PageStepPrefix(listing: seq<string>, page: PhotoPage)
    ensures var s := PageStep(listing, page);
      && s.submitted <= Submit(PhotosOf(page))
      && (s.Continue? ==>
            && page.code == 0 && page.data.Some? && page.data.value != []
            && s.submitted == Submit(page.data.value)
            && s.next == page.data.value[|page.data.value| - 1].lloc)
  {
  }

  /** None of the items one pass submits is already on disk. */
  lemma PageStepOnlyNew(listing: seq<string>, page: PhotoPage)
    ensures AllNew(listing, PageStep(listing, page).submitted)
  {
    AllNewBeforeBoundary(listing, PhotosOf(page));
    assert PhotosOf(page)[..|PhotosOf(page)|] == PhotosOf(page);
  }

  /**
   * One pass stops at the resume boundary exactly when it leaves part of the page
   * unsubmitted, and the first item left is then on disk.
   */
  lemma PageStepBoundary(listing: seq<string>, page: PhotoPage)
    ensures var s := PageStep(listing, page);
      var items := PhotosOf(page);
      && ((s.Finished? && s.stop == ResumeBoundary) <==> |s.submitted| < |items|)
      && (|s.submitted| < |items| ==> AlreadyDownloaded(listing, items[|s.submitted|].lloc))
  {
  }

  /** What the page loop did: how it ended, what it submitted, which cursors it requested. */
  datatype Walked = Walked(stop: Stop, submitted: seq<Submission>, cursors: seq<Cursor>)

  /** A walk preceded by what was already submitted and requested. */
  function Prepend(subs: seq<Submission>, curs: seq<Cursor>, w: Walked): Walked {
    Walked(w.stop, subs + w.submitted, curs + w.cursors)
  }

  /**
   * The `albumLoop` of `syncAlbum`, from `cursor` on, with `pages` the answers the service
   * gives to the successive requests.
   */
  function Walk(listing: seq<string>, pages: seq<PhotoPage>, cursor: Cursor): (w: Walked)
    decreases |pages|
    ensures |w.cursors| <= |pages|
    ensures pages != [] ==> |w.cursors| >= 1 && w.cursors[0] == cursor
    ensures w.cursors == [] ==> w.stop == Aborted(SourceExhausted) && w.submitted == []
  {
    if pages == [] then Walked(Aborted(SourceExhausted), [], [])
    else match PageStep(listing, pages[0])
      case Finished(stop, subs) => Walked(stop, subs, [cursor])
      case Continue(subs, next) => Prepend(subs, [cursor], Walk(listing, pages[1..], Some(next)))
  }

  lemma AppendAssoc<T>(a: seq<T>, b: seq<T>, c: seq<T>)
    ensures (a + b) + c == a + (b + c)
  {
  }

  lemma PrependTwice(subs: seq<Submission>, curs: seq<Cursor>, subs2: seq<Submission>, curs2: seq<Cursor>, w: Walked)
    ensures Prepend(subs, curs, Prepend(subs2, curs2, w)) == Prepend(subs + subs2, curs + curs2, w)
  {
    AppendAssoc(subs, subs2, w.submitted);
    AppendAssoc(curs, curs2, w.cursors);
  }

  /** All items of a run of pages, in order. */
  function Stream(pages: seq<PhotoPage>): seq<Item> {
    if pages == [] then [] else PhotosOf(pages[0]) + Stream(pages[1..])
  }

  lemma StreamFirst(pages: seq<PhotoPage>, m: nat)
    requires 1 <= m <= |pages|
    ensures Stream(pages[..m]) == PhotosOf(pages[0]) + Stream(pages[1..][..m - 1])
  {
    assert pages[..m][1..] == pages[1..][..m - 1];
  }

  /**
   * Cursors: the first request uses the starting cursor; each later request uses the locator
   * of the last item of the page before, which was a successful, non-empty page.
   */
  lemma WalkCursors(listing: seq<string>, pages: seq<PhotoPage>, cursor: Cursor)
    ensures forall k :: 0 <= k < |Walk(listing, pages, cursor).cursors| - 1 ==>
      && pages[k].code == 0 && pages[k].data.Some? && pages[k].data.value != []
      && Walk(listing, pages, cursor).cursors[k + 1] == Some(pages[k].data.value[|pages[k].data.value| - 1].lloc)
  {
    CursorsByInduction(listing, pages, cursor);
    var w := Walk(listing, pages, cursor);
    forall k | 0 <= k < |w.cursors| - 1
      ensures pages[k].code == 0 && pages[k].data.Some? && pages[k].data.value != []
      ensures w.cursors[k + 1] == Some(pages[k].data.value[|pages[k].data.value| - 1].lloc)
    {
      assert Leads(pages[k], w.cursors[k + 1]);
    }
  }

  /** `c` is the cursor that follows `page`: the locator of the last item of a successful, non-empty page. */
  predicate Leads(page: PhotoPage, c: Cursor) {
    page.code == 0 && page.data.Some? && page.data.value != []
    && c == Some(page.data.value[|page.data.value| - 1].lloc)
  }

  /** Each cursor after the first follows the page requested before it. */
  ghost predicate CursorsFollow(pages: seq<PhotoPage>, cursors: seq<Cursor>) {
    forall k :: 0 <= k < |cursors| - 1 && k < |pages| ==> Leads(pages[k], cursors[k + 1])
  }

  lemma {:induction false} CursorsByInduction(listing: seq<string>, pages: seq<PhotoPage>, cursor: Cursor)
    ensures CursorsFollow(pages, Walk(listing, pages, cursor).cursors)
    decreases |pages|
  {
    if pages != [] && PageStep(listing, pages[0]).Continue? {
      var next := Some(PageStep(listing, pages[0]).next);
      PageStepPrefix(listing, pages[0]);
      CursorsByInduction(listing, pages[1..], next);
      var rest := Walk(listing, pages[1..], next);
      assert Walk(listing, pages, cursor).cursors == [cursor] + rest.cursors;
      CursorsCons(pages, cursor, rest.cursors);
    }
  }

  lemma CursorsCons(pages: seq<PhotoPage>, cursor: Cursor, rest: seq<Cursor>)
    requires pages != [] && CursorsFollow(pages[1..], rest)
    requires rest != [] ==> Leads(pages[0], rest[0])
    ensures CursorsFollow(pages, [cursor] + rest)
  {
    var cursors := [cursor] + rest;
    forall k | 0 <= k < |cursors| - 1 && k < |pages| ensures Leads(pages[k], cursors[k + 1]) {
      if k > 0 {
        assert pages[k] == pages[1..][k - 1];
      }
    }
  }

  /**
   * Order: the submissions are a prefix of the items of the pages requested, in page order,
   * each with its download URL.
   */
  lemma {:induction false} WalkSubmitsInOrder(listing: seq<string>, pages: seq<PhotoPage>, cursor: Cursor)
    ensures var w := Walk(listing, pages, cursor);
      w.submitted <= Submit(Stream(pages[..|w.cursors|]))
    decreases |pages|
  {
    if pages != [] {
      var s := PageStep(listing, pages[0]);
      PageStepPrefix(listing, pages[0]);
      if s.Finished? {
        StreamFirst(pages, 1);
        assert pages[1..][..0] == [];
        assert Stream(pages[..1]) == PhotosOf(pages[0]) + [];
      } else {
        WalkSubmitsInOrder(listing, pages[1..], Some(s.next));
        ContinueSubmitsInOrder(listing, pages, cursor);
      }
    }
  }

  lemma ContinueSubmitsInOrder(listing: seq<string>, pages: seq<PhotoPage>, cursor: Cursor)
    requires pages != [] && PageStep(listing, pages[0]).Continue?
    requires var rest := Walk(listing, pages[1..], Some(PageStep(listing, pages[0]).next));
      rest.submitted <= Submit(Stream(pages[1..][..|rest.cursors|]))
    ensures var w := Walk(listing, pages, cursor);
      w.submitted <= Submit(Stream(pages[..|w.cursors|]))
  {
    var rest := Walk(listing, pages[1..], Some(PageStep(listing, pages[0]).next));
    var w := Walk(listing, pages, cursor);
    ContinueShape(listing, pages, cursor);
    FirstPagePrefix(pages, rest.submitted, |w.cursors|);
  }

  /** A prefix of the later pages' submissions, after the first page's, is a prefix of the whole. */
  lemma FirstPagePrefix(pages: seq<PhotoPage>, submitted: seq<Submission>, m: nat)
    requires 1 <= m <= |pages|
    requires submitted <= Submit(Stream(pages[1..][..m - 1]))
    ensures Submit(PhotosOf(pages[0])) + submitted <= Submit(Stream(pages[..m]))
  {
    StreamFirst(pages, m);
    SubmitPrefixExtend(PhotosOf(pages[0]), submitted, Stream(pages[1..][..m - 1]));
  }

  lemma SubmitPrefixExtend(items: seq<Item>, submitted: seq<Submission>, fetched: seq<Item>)
    requires submitted <= Submit(fetched)
    ensures Submit(items) + submitted <= Submit(items + fetched)
  {
    SubmitAppend(items, fetched);
    assert (Submit(items) + Submit(fetched))[..|Submit(items) + submitted|] == Submit(items) + Submit(fetched)[..|submitted|];
  }

  /** None of the submitted items is already on disk. */
  lemma {:induction false} WalkSubmitsOnlyNew(listing: seq<string>, pages: seq<PhotoPage>, cursor: Cursor)
    ensures AllNew(listing, Walk(listing, pages, cursor).submitted)
    decreases |pages|
  {
    if pages != [] {
      var s := PageStep(listing, pages[0]);
      PageStepOnlyNew(listing, pages[0]);
      if s.Continue? {
        WalkSubmitsOnlyNew(listing, pages[1..], Some(s.next));
        AllNewAppend(listing, s.submitted, Walk(listing, pages[1..], Some(s.next)).submitted);
      }
    }
  }

  /**
   * The resume boundary: the walk stops there exactly when fewer items were submitted than
   * fetched; the first unsubmitted item is then on disk, and it lies on the last page
   * requested, so nothing after it is submitted and no later page is requested.
   */
  lemma WalkStopsAtBoundary(listing: seq<string>, pages: seq<PhotoPage>, cursor: Cursor)
    ensures var w := Walk(listing, pages, cursor);
      var fetched := Stream(pages[..|w.cursors|]);
      && (w.stop == ResumeBoundary <==> |w.submitted| < |fetched|)
      && (w.stop == ResumeBoundary ==>
            && AlreadyDownloaded(listing, fetched[|w.submitted|].lloc)
            && |Stream(pages[..|w.cursors| - 1])| <= |w.submitted|)
  {
    BoundaryByInduction(listing, pages, cursor);
  }

  /** The statement of `WalkStopsAtBoundary`, for one walk. */
  ghost predicate StopsAtBoundary(listing: seq<string>, pages: seq<PhotoPage>, cursor: Cursor) {
    var w := Walk(listing, pages, cursor);
    var fetched := Stream(pages[..|w.cursors|]);
    && (w.stop == ResumeBoundary <==> |w.submitted| < |fetched|)
    && (w.stop == ResumeBoundary ==>
          && AlreadyDownloaded(listing, fetched[|w.submitted|].lloc)
          && |Stream(pages[..|w.cursors| - 1])| <= |w.submitted|)
  }

  lemma {:induction false} BoundaryByInduction(listing: seq<string>, pages: seq<PhotoPage>, cursor: Cursor)
    ensures StopsAtBoundary(listing, pages, cursor)
    decreases |pages|
  {
    if pages == [] {
      assert pages[..0] == [];
    } else if PageStep(listing, pages[0]).Finished? {
      FinishedStopsAtBoundary(listing, pages, cursor);
    } else {
      BoundaryByInduction(listing, pages[1..], Some(PageStep(listing, pages[0]).next));
      ContinueStopsAtBoundary(listing, pages, cursor);
    }
  }

  /** The boundary statement when the walk ends on its first page. */
  lemma FinishedStopsAtBoundary(listing: seq<string>, pages: seq<PhotoPage>, cursor: Cursor)
    requires pages != [] && PageStep(listing, pages[0]).Finished?
    ensures StopsAtBoundary(listing, pages, cursor)
  {
    var w := Walk(listing, pages, cursor);
    PageStepBoundary(listing, pages[0]);
    assert w.stop == PageStep(listing, pages[0]).stop && w.submitted == PageStep(listing, pages[0]).submitted;
    assert |w.cursors| == 1;
    StreamFirst(pages, 1);
    assert pages[1..][..0] == [] && pages[..0] == [];
    assert Stream(pages[..1]) == PhotosOf(pages[0]) + [] == PhotosOf(pages[0]);
  }

  /** The boundary statement carried over a page the walk goes past. */
  lemma ContinueStopsAtBoundary(listing: seq<string>, pages: seq<PhotoPage>, cursor: Cursor)
    requires pages != [] && PageStep(listing, pages[0]).Continue?
    requires StopsAtBoundary(listing, pages[1..], Some(PageStep(listing, pages[0]).next))
    ensures StopsAtBoundary(listing, pages, cursor)
  {
    var rest := Walk(listing, pages[1..], Some(PageStep(listing, pages[0]).next));
    var w := Walk(listing, pages, cursor);
    ContinueShape(listing, pages, cursor);
    if w.stop == ResumeBoundary {
      var items := PhotosOf(pages[0]);
      var restFetched := Stream(pages[1..][..|rest.cursors|]);
      assert (items + restFetched)[|w.submitted|] == restFetched[|rest.submitted|];
    }
  }

  /** How a walk that goes past its first page is made of the walk from the second one. */
  lemma ContinueShape(listing: seq<string>, pages: seq<PhotoPage>, cursor: Cursor)
    requires pages != [] && PageStep(listing, pages[0]).Continue?
    ensures var rest := Walk(listing, pages[1..], Some(PageStep(listing, pages[0]).next));
      var w := Walk(listing, pages, cursor);
      && w.stop == rest.stop
      && w.submitted == Submit(PhotosOf(pages[0])) + rest.submitted
      && |w.submitted| == |PhotosOf(pages[0])| + |rest.submitted|
      && |w.cursors| == 1 + |rest.cursors|
      && Stream(pages[..|w.cursors|]) == PhotosOf(pages[0]) + Stream(pages[1..][..|rest.cursors|])
      && (rest.cursors != [] ==>
            Stream(pages[..|w.cursors| - 1]) == PhotosOf(pages[0]) + Stream(pages[1..][..|rest.cursors| - 1]))
  {
    PageStepPrefix(listing, pages[0]);
    var rest := Walk(listing, pages[1..], Some(PageStep(listing, pages[0]).next));
    StreamFirst(pages, 1 + |rest.cursors|);
    if rest.cursors != [] {
      StreamFirst(pages, |rest.cursors|);
    }
  }

  /**
   * Where the page loop ends: it goes past every requested page but the last; it ends on the
   * last page requested, for the reason that page gives, unless the answers run out first.
   */
  lemma WalkEnds(listing: seq<string>, pages: seq<PhotoPage>, cursor: Cursor)
    ensures var w := Walk(listing, pages, cursor);
      var m := |w.cursors|;
      && (forall k :: 0 <= k < m - 1 ==> WalkContinues(listing, pages[k]))
      && (w.stop == NoMorePhotos <==> 1 <= m && pages[m - 1].code == 0 && pages[m - 1].data.None?)
      && (w.stop == Aborted(EmptyPhotoList) <==> 1 <= m && pages[m - 1].code == 0 && pages[m - 1].data == Some([]))
      && (1 <= m ==> (w.stop == Aborted(RequestFailed(pages[m - 1].message)) <==> pages[m - 1].code != 0))
      && (w.stop == Aborted(SourceExhausted) <==>
            m == |pages| && (m == 0 || WalkContinues(listing, pages[m - 1])))
  {
    var w := Walk(listing, pages, cursor);
    EndsByInduction(listing, pages, cursor);
    if w.cursors != [] {
      PageStepKinds(listing, pages[|w.cursors| - 1]);
    }
  }

  /** The page-by-page part of `WalkEnds`, for one walk. */
  ghost predicate EndsOnLastPage(listing: seq<string>, pages: seq<PhotoPage>, w: Walked) {
    var m := |w.cursors|;
    && m <= |pages|
    && (forall k :: 0 <= k < m - 1 ==> WalkContinues(listing, pages[k]))
    && (w.stop == Aborted(SourceExhausted) <==>
          m == |pages| && (m == 0 || WalkContinues(listing, pages[m - 1])))
    && (w.stop != Aborted(SourceExhausted) ==>
          1 <= m && PageStep(listing, pages[m - 1]).Finished? && PageStep(listing, pages[m - 1]).stop == w.stop)
  }

  lemma {:induction false} EndsByInduction(listing: seq<string>, pages: seq<PhotoPage>, cursor: Cursor)
    ensures EndsOnLastPage(listing, pages, Walk(listing, pages, cursor))
    decreases |pages|
  {
    if pages != [] {
      PageStepKinds(listing, pages[0]);
      if PageStep(listing, pages[0]).Continue? {
        EndsByInduction(listing, pages[1..], Some(PageStep(listing, pages[0]).next));
        ContinueEnds(listing, pages, cursor);
      }
    }
  }

  /** `EndsOnLastPage` carried over a page the walk goes past. */
  lemma ContinueEnds(listing: seq<string>, pages: seq<PhotoPage>, cursor: Cursor)
    requires pages != [] && PageStep(listing, pages[0]).Continue?
    requires EndsOnLastPage(listing, pages[1..], Walk(listing, pages[1..], Some(PageStep(listing, pages[0]).next)))
    ensures EndsOnLastPage(listing, pages, Walk(listing, pages, cursor))
  {
    var rest := Walk(listing, pages[1..], Some(PageStep(listing, pages[0]).next));
    var w := Walk(listing, pages, cursor);
    ContinueShape(listing, pages, cursor);
    PageStepKinds(listing, pages[0]);
    var m := |w.cursors|;
    forall k | 0 <= k < m - 1 ensures WalkContinues(listing, pages[k]) {
      if k > 0 {
        assert pages[k] == pages[1..][k - 1];
      }
    }
    if 2 <= m {
      assert pages[m - 1] == pages[1..][m - 2];
    }
  }

  /**
   * The resume check sees what earlier runs saved: an item whose saved file is in the
   * listing is never submitted again.
   */
  lemma SavedItemNotResubmitted(
    listing: seq<string>, pages: seq<PhotoPage>, cursor: Cursor,
    format: Moment -> string, item: Item, contentType: string)
    requires SavedName(format, item, contentType) in listing
    requires "" !in listing
    ensures forall k :: 0 <= k < |Walk(listing, pages, cursor).submitted| ==>
      Walk(listing, pages, cursor).submitted[k].item.lloc != item.lloc
  {
    WalkSubmitsOnlyNew(listing, pages, cursor);
    AlreadyDownloadedSpec(listing, item.lloc);
  }

  /** Two pages of new items, then no more photos: three downloads, cursors null, i2, i3. */
  lemma TwoPagesScenario(i1: Item, i2: Item, i3: Item, pages: seq<PhotoPage>)
    requires pages == [Response(0, "", Some([i1, i2])), Response(0, "", Some([i3])), Response(0, "", None)]
    ensures Walk([], pages, None) ==
      Walked(NoMorePhotos, Submit([i1, i2, i3]), [None, Some(i2.lloc), Some(i3.lloc)])
  {
    assert [i1, i2][1..] == [i2];
    assert BoundaryIndex([], [i1, i2]) == 2;
    assert BoundaryIndex([], [i3]) == 1;
    assert pages[1..][1..] == [pages[2]];
    assert Walk([], [pages[2]], Some(i3.lloc)) == Walked(NoMorePhotos, [], [Some(i3.lloc)]);
    assert Walk([], pages[1..], Some(i2.lloc)) == Walked(NoMorePhotos, Submit([i3]), [Some(i2.lloc), Some(i3.lloc)]);
    SubmitAppend([i1, i2], [i3]);
  }

  /** A match in the middle of a page: the items before it are submitted, nothing after. */
  lemma MidPageBoundaryScenario(listing: seq<string>, i1: Item, i2: Item, i3: Item, pages: seq<PhotoPage>)
    requires !AlreadyDownloaded(listing, i1.lloc) && AlreadyDownloaded(listing, i2.lloc)
    requires |pages| >= 1 && pages[0] == Response(0, "", Some([i1, i2, i3]))
    ensures Walk(listing, pages, None) == Walked(ResumeBoundary, Submit([i1]), [None])
  {
    var items := [i1, i2, i3];
    assert items[1..] == [i2, i3];
    assert BoundaryIndex(listing, items) == 1;
    assert items[..1] == [i1];
  }

  // ---------------------------------------------------------------- directory reconciliation

  /**
   * Lines 205-216 as written: the directory kept is the one named after the STORED name; when
   * the album was renamed, a directory with the current name is renamed to it, otherwise it
   * is created with a plain `mkdir`, which fails when it already exists; then it is ensured.
   */
  function Reconcile(sanitize: string -> string, dirs: set<string>, stored: string, current: string)
    : (r: Result<set<string>, SyncError>)
    ensures r.Failure? <==> stored != current && sanitize(current) !in dirs && sanitize(stored) in dirs
    ensures r.Failure? ==> r.error == DirectoryExists(sanitize(stored))
    ensures r.Success? ==> sanitize(stored) in r.value && r.value <= dirs + {sanitize(stored)}
    ensures r.Success? && stored != current && sanitize(current) in dirs ==>
      r.value == dirs - {sanitize(current)} + {sanitize(stored)}
    ensures r.Success? && (stored == current || sanitize(current) !in dirs) ==>
      r.value == dirs + {sanitize(stored)}
  {
    var albumPath := sanitize(stored);
    var renamed: Result<set<string>, SyncError> :=
      if stored == current then Success(dirs)
      else if sanitize(current) in dirs then Success(dirs - {sanitize(current)} + {albumPath})
      else if albumPath in dirs then Failure(DirectoryExists(albumPath))
      else Success(dirs + {albumPath});
    match renamed
    case Failure(e) => Failure(e)
    case Success(d) => Success(if albumPath in d then d else d + {albumPath})
  }

  /**
   * The reconciliation with the plain `mkdir` replaced by the create-if-missing that the
   * `ensureDir` right after it performs: a current-name directory is still renamed to the
   * stored name, and an existing stored-name directory is simply kept.
   */
  function ReconcileFixed(sanitize: string -> string, dirs: set<string>, stored: string, current: string)
    : (r: set<string>)
    ensures sanitize(stored) in r
    ensures dirs - {sanitize(current)} <= r <= dirs + {sanitize(stored)}
    ensures sanitize(current) in r <==> sanitize(current) == sanitize(stored)
  {
    var renamed := if stored != current && sanitize(current) in dirs then dirs - {sanitize(current)} else dirs;
    renamed + {sanitize(stored)}
  }

  /**
   * The correction changes only the failing case: wherever the code as written succeeds, both
   * give the same directories, and where it fails the corrected one leaves them as they are.
   */
  lemma ReconcileFixedAgrees(sanitize: string -> string, dirs: set<string>, stored: string, current: string)
    ensures Reconcile(sanitize, dirs, stored, current).Success? ==>
      Reconcile(sanitize, dirs, stored, current).value == ReconcileFixed(sanitize, dirs, stored, current)
    ensures Reconcile(sanitize, dirs, stored, current).Failure? ==>
      ReconcileFixed(sanitize, dirs, stored, current) == dirs
  {
  }

  /** Reconciling twice with the same pair of names gives the directories of reconciling once. */
  lemma ReconcileFixedIdempotent(sanitize: string -> string, dirs: set<string>, stored: string, current: string)
    ensures var once := ReconcileFixed(sanitize, dirs, stored, current);
      ReconcileFixed(sanitize, once, stored, current) == once
  {
    var once := ReconcileFixed(sanitize, dirs, stored, current);
    assert once + {sanitize(stored)} == once;
  }

  /**
   * As written, the reconciliation of a renamed album is not idempotent: the directories its
   * own success leaves make the next one fail.
   */
  lemma ReconcileNotIdempotent(sanitize: string -> string, dirs: set<string>, stored: string, current: string)
    requires sanitize(stored) != sanitize(current)
    requires Reconcile(sanitize, dirs, stored, current).Success?
    ensures Reconcile(sanitize, Reconcile(sanitize, dirs, stored, current).value, stored, current)
      == Failure(DirectoryExists(sanitize(stored)))
  {
  }

  // ---------------------------------------------------------------- syncAlbum

  /** Everything `syncAlbum` and `syncAlbums` act on, including the logs of what they requested. */
  datatype State = State(
    albums: map<AlbumId, Track>,         // `trackFile.albums`
    dirs: set<string>,                   // album directories under the save path
    saves: seq<map<AlbumId, Track>>,     // every snapshot written by `saveTrackFile`
    submitted: seq<Submission>,          // every download handed to the scheduler
    cursors: seq<Cursor>,                // the cursor of every item-page request
    offsets: seq<int>)                   // the offset of every album-list request

  /** The stored record, or the default one for an album never synced. */
  function TrackFor(albums: map<AlbumId, Track>, album: Album): Track {
    if album.id in albums then albums[album.id] else Track(album.name, -1)
  }

  function Lookup(albums: map<AlbumId, Track>, id: AlbumId): Option<Track> {
    if id in albums then Some(albums[id]) else None
  }

  function Max(a: int, b: int): int {
    if a < b then b else a
  }

  /**
   * `syncAlbum(album)` from the directory reconciliation on, with `dirs` the directories the
   * reconciliation left, `listing` the directory listing it reads and `pages` the service's answers.
   */
  function SyncAfterReconcile(
    st: State, album: Album, track: Track, dirs: set<string>, listing: seq<string>, pages: seq<PhotoPage>)
    : (State, Outcome)
  {
    if album.lastUploadTime <= track.lastUploadTime then
      (st.(dirs := dirs, albums := st.albums[album.id := track]), Ok)
    else
      var w := Walk(listing, pages, None);
      var walked := st.(dirs := dirs, submitted := st.submitted + w.submitted, cursors := st.cursors + w.cursors);
      match w.stop
      case Aborted(e) => (walked, Failed(e))
      case _ =>
        var albums := st.albums[album.id := track.(lastUploadTime := album.lastUploadTime)];
        (walked.(albums := albums, saves := st.saves + [albums]), Ok)
  }

  /**
   * `syncAlbum(album)`, with the corrected reconciliation: it fails exactly when the album has
   * a newer upload and the page loop aborts, with the loop's error.
   */
  function SyncAlbumSpec(
    sanitize: string -> string, st: State, album: Album, listing: seq<string>, pages: seq<PhotoPage>)
    : (res: (State, Outcome))
    ensures var stop := Walk(listing, pages, None).stop;
      res.1.Failed? <==> album.lastUploadTime > TrackFor(st.albums, album).lastUploadTime && stop.Aborted?
    ensures res.1.Failed? ==> res.1.error == Walk(listing, pages, None).stop.error
  {
    var track := TrackFor(st.albums, album);
    SyncAfterReconcile(st, album, track, ReconcileFixed(sanitize, st.dirs, track.name, album.name), listing, pages)
  }

  /**
   * `syncAlbum(album)` exactly as written, `mkdir` failure included: it fails when the
   * reconciliation fails, leaving everything as it was, or as the corrected model does.
   */
  function SyncAlbumAsWritten(
    sanitize: string -> string, st: State, album: Album, listing: seq<string>, pages: seq<PhotoPage>)
    : (res: (State, Outcome))
    ensures var rec := Reconcile(sanitize, st.dirs, TrackFor(st.albums, album).name, album.name);
      && (rec.Failure? ==> res == (st, Failed(rec.error)))
      && (rec.Success? ==> res == SyncAlbumSpec(sanitize, st, album, listing, pages))
  {
    ReconcileFixedAgrees(sanitize, st.dirs, TrackFor(st.albums, album).name, album.name);
    var track := TrackFor(st.albums, album);
    match Reconcile(sanitize, st.dirs, track.name, album.name)
    case Failure(e) => (st, Failed(e))
    case Success(dirs) => SyncAfterReconcile(st, album, track, dirs, listing, pages)
  }

  /**
   * What one `syncAlbum` does: only this album's record changes; on failure the records and
   * the track file are untouched; on success the record keeps its stored name, its directory
   * exists, and its time is the newer of the stored and the current one; an album with no newer
   * upload requests nothing and submits nothing; a synced album writes the track file once.
   */
  lemma SyncAlbumEffects(
    sanitize: string -> string, st: State, album: Album, listing: seq<string>, pages: seq<PhotoPage>)
    ensures var res := SyncAlbumSpec(sanitize, st, album, listing, pages);
      && (forall id :: id != album.id ==> Lookup(res.0.albums, id) == Lookup(st.albums, id))
      && res.0.offsets == st.offsets
      && (res.1.Failed? ==> res.0.albums == st.albums && res.0.saves == st.saves)
      && (res.1.Ok? ==>
        && album.id in res.0.albums
        && res.0.albums[album.id].name == TrackFor(st.albums, album).name
        && res.0.albums[album.id].lastUploadTime == Max(TrackFor(st.albums, album).lastUploadTime, album.lastUploadTime)
        && sanitize(res.0.albums[album.id].name) in res.0.dirs)
      && (album.lastUploadTime <= TrackFor(st.albums, album).lastUploadTime ==>
        res.0.submitted == st.submitted && res.0.cursors == st.cursors && res.0.saves == st.saves)
      && (album.lastUploadTime > TrackFor(st.albums, album).lastUploadTime && res.1.Ok? ==>
        res.0.saves == st.saves + [res.0.albums])
  {
  }

  /**
   * With the corrected reconciliation, a run right after a successful one (the album has no
   * newer upload by then) changes nothing at all, whether or not the album was renamed upstream.
   */
  lemma SecondRunIsNoOp(
    sanitize: string -> string, st: State, album: Album,
    listing: seq<string>, pages: seq<PhotoPage>, listing2: seq<string>, pages2: seq<PhotoPage>)
    requires SyncAlbumSpec(sanitize, st, album, listing, pages).1 == Ok
    ensures var once := SyncAlbumSpec(sanitize, st, album, listing, pages).0;
      SyncAlbumSpec(sanitize, once, album, listing2, pages2) == (once, Ok)
  {
    var once := SyncAlbumSpec(sanitize, st, album, listing, pages).0;
    SyncAlbumEffects(sanitize, st, album, listing, pages);
    var first := TrackFor(st.albums, album);
    var track := once.albums[album.id];
    assert TrackFor(once.albums, album) == track;
    ReconcileFixedIdempotent(sanitize, st.dirs, first.name, album.name);
    assert once.dirs == ReconcileFixed(sanitize, st.dirs, first.name, album.name);
    assert once.albums[album.id := track] == once.albums;
  }

  /**
   * The same for the code as written, for an album whose name has not changed since its record
   * was stored: there the plain `mkdir` is never reached.
   */
  lemma SecondRunIsNoOpAsWritten(
    sanitize: string -> string, st: State, album: Album,
    listing: seq<string>, pages: seq<PhotoPage>, listing2: seq<string>, pages2: seq<PhotoPage>)
    requires TrackFor(st.albums, album).name == album.name
    requires SyncAlbumAsWritten(sanitize, st, album, listing, pages).1 == Ok
    ensures var once := SyncAlbumAsWritten(sanitize, st, album, listing, pages).0;
      SyncAlbumAsWritten(sanitize, once, album, listing2, pages2) == (once, Ok)
  {
    var once := SyncAlbumSpec(sanitize, st, album, listing, pages).0;
    SyncAlbumEffects(sanitize, st, album, listing, pages);
    SecondRunIsNoOp(sanitize, st, album, listing, pages, listing2, pages2);
    assert TrackFor(once.albums, album).name == album.name;
  }

  /**
   * As written, an album renamed upstream whose stored-name directory exists (and whose
   * current-name directory does not) fails with EEXIST and leaves everything as it was, so
   * every later run fails the same way and the album is never synced again.
   */
  lemma RenamedAlbumStaysBroken(
    sanitize: string -> string, st: State, album: Album, listing: seq<string>, pages: seq<PhotoPage>)
    requires album.id in st.albums && st.albums[album.id].name != album.name
    requires sanitize(st.albums[album.id].name) in st.dirs && sanitize(album.name) !in st.dirs
    ensures SyncAlbumAsWritten(sanitize, st, album, listing, pages)
      == (st, Failed(DirectoryExists(sanitize(st.albums[album.id].name))))
  {
  }

  /**
   * The scenario: stored "Trip", current "Trip2025", only the old directory on disk. As written
   * the run fails; corrected, the directory is kept. From no directory at all, the code as
   * written creates "Trip" and then fails on the next run.
   */
  lemma RenameScenario(dirs: set<string>)
    requires dirs == {"Trip"}
    ensures Reconcile(s => s, dirs, "Trip", "Trip2025") == Failure(DirectoryExists("Trip"))
    ensures ReconcileFixed(s => s, dirs, "Trip", "Trip2025") == {"Trip"}
    ensures Reconcile(s => s, {}, "Trip", "Trip2025") == Success(dirs)
  {
    assert {} + {"Trip"} == dirs;
  }

  // ---------------------------------------------------------------- syncAlbums

  /** The position of the first album named like the target, or the list length. */
  function FindTarget(albums: seq<Album>): (k: nat)
    ensures k <= |albums|
    ensures forall j :: 0 <= j < k ==> albums[j].name != TargetAlbumName
    ensures k < |albums| ==> albums[k].name == TargetAlbumName
  {
    if albums == [] || albums[0].name == TargetAlbumName then 0 else 1 + FindTarget(albums[1..])
  }

  lemma {:induction false} FindTargetAppend(a: seq<Album>, b: seq<Album>)
    ensures FindTarget(a + b) == if FindTarget(a) < |a| then FindTarget(a) else |a| + FindTarget(b)
  {
    if a != [] && a[0].name != TargetAlbumName {
      assert (a + b)[0] == a[0];
      assert (a + b)[1..] == a[1..] + b;
      FindTargetAppend(a[1..], b);
      assert FindTarget(a) == 1 + FindTarget(a[1..]);
      assert FindTarget(a + b) == 1 + FindTarget(a[1..] + b);
    } else if a != [] {
      assert (a + b)[0] == a[0];
    } else {
      assert a + b == b;
    }
  }

  /** How the album listing ends: the album to sync, the end of the list, or an error. */
  datatype Selection = Selected(album: Album) | EndOfList | ListAborted(error: SyncError)

  datatype Scan = Scan(result: Selection, offsets: seq<int>)

  /** The listing loop of `syncAlbums` from `offset` on, `lists` being the service's answers. */
  function ScanLists(lists: seq<AlbumListPage>, offset: int): (s: Scan)
    decreases |lists|
    ensures |s.offsets| <= |lists|
    ensures lists != [] ==> |s.offsets| >= 1
  {
    if lists == [] then Scan(ListAborted(SourceExhausted), [])
    else
      var checked: Result<Option<seq<Album>>, SyncError> := CheckResp(lists[0]);
      match checked
      case Failure(e) => Scan(ListAborted(e), [offset])
      case Success(None) => Scan(EndOfList, [offset])
      case Success(Some(albums)) =>
        var k := FindTarget(albums);
        if k < |albums| then Scan(Selected(albums[k]), [offset])
        else
          var rest := ScanLists(lists[1..], offset + PageSize);
          Scan(rest.result, [offset] + rest.offsets)
  }

  /** One page of the album list. */
  lemma ScanFirstPage(lists: seq<AlbumListPage>, offset: int)
    requires lists != []
    ensures lists[0].code != 0 ==> ScanLists(lists, offset) == Scan(ListAborted(RequestFailed(lists[0].message)), [offset])
    ensures lists[0].code == 0 && lists[0].data.None? ==> ScanLists(lists, offset) == Scan(EndOfList, [offset])
    ensures (lists[0].code == 0 && lists[0].data.Some?) ==>
      var albums := lists[0].data.value;
      var rest := ScanLists(lists[1..], offset + PageSize);
      ScanLists(lists, offset) ==
        if FindTarget(albums) < |albums| then Scan(Selected(albums[FindTarget(albums)]), [offset])
        else Scan(rest.result, [offset] + rest.offsets)
  {
  }

  /** The offsets requested are 0, 20, 40, ... (from the starting offset, in steps of the page size). */
  lemma {:induction false} ScanOffsets(lists: seq<AlbumListPage>, offset: int)
    ensures forall k :: 0 <= k < |ScanLists(lists, offset).offsets| ==>
      ScanLists(lists, offset).offsets[k] == offset + PageSize * k
    decreases |lists|
  {
    if lists != [] && lists[0].code == 0 && lists[0].data.Some?
      && FindTarget(lists[0].data.value) == |lists[0].data.value|
    {
      var s := ScanLists(lists, offset);
      var rest := ScanLists(lists[1..], offset + PageSize);
      ScanOffsets(lists[1..], offset + PageSize);
      assert forall j :: 0 <= j < |rest.offsets| ==> rest.offsets[j] == offset + PageSize + PageSize * j;
      assert s.offsets == [offset] + rest.offsets;
      forall k | 0 <= k < |s.offsets| ensures s.offsets[k] == offset + PageSize * k {
        if k > 0 {
          assert s.offsets[k] == rest.offsets[k - 1];
          assert rest.offsets[k - 1] == offset + PageSize + PageSize * (k - 1);
          assert PageSize + PageSize * (k - 1) == PageSize * k;
        }
      }
    }
  }

  function AlbumsOf(page: AlbumListPage): seq<Album> {
    if page.code == 0 && page.data.Some? then page.data.value else []
  }

  function AlbumStream(lists: seq<AlbumListPage>): seq<Album> {
    if lists == [] then [] else AlbumsOf(lists[0]) + AlbumStream(lists[1..])
  }

  /**
   * Selection: an album is selected exactly when one of the albums listed so far is named like
   * the target, and it is the first such album.
   */
  lemma {:induction false} ScanSelectsFirstTarget(lists: seq<AlbumListPage>, offset: int)
    ensures var s := ScanLists(lists, offset);
      var listed := AlbumStream(lists[..|s.offsets|]);
      && (s.result.Selected? <==> FindTarget(listed) < |listed|)
      && (s.result.Selected? ==> s.result.album == listed[FindTarget(listed)])
    decreases |lists|
  {
    if lists != [] {
      if ScanContinues(lists[0]) {
        ScanSelectsFirstTarget(lists[1..], offset + PageSize);
        ScanNextPage(lists, offset);
      } else {
        ScanLastPage(lists, offset);
      }
    }
  }

  /** The listing loop goes past this page: it is a successful page without the target. */
  predicate ScanContinues(page: AlbumListPage) {
    page.code == 0 && page.data.Some? && FindTarget(page.data.value) == |page.data.value|
  }

  lemma ScanLastPage(lists: seq<AlbumListPage>, offset: int)
    requires lists != [] && !ScanContinues(lists[0])
    ensures var s := ScanLists(lists, offset);
      var listed := AlbumStream(lists[..|s.offsets|]);
      && (s.result.Selected? <==> FindTarget(listed) < |listed|)
      && (s.result.Selected? ==> s.result.album == listed[FindTarget(listed)])
  {
    ScanFirstPage(lists, offset);
    AlbumStreamFirst(lists, 1);
    assert lists[1..][..0] == [];
    assert AlbumStream(lists[..1]) == AlbumsOf(lists[0]) + [] == AlbumsOf(lists[0]);
    assert |ScanLists(lists, offset).offsets| == 1;
  }

  lemma AlbumStreamFirst(lists: seq<AlbumListPage>, m: nat)
    requires 1 <= m <= |lists|
    ensures AlbumStream(lists[..m]) == AlbumsOf(lists[0]) + AlbumStream(lists[1..][..m - 1])
  {
    assert lists[..m][1..] == lists[1..][..m - 1];
  }

  lemma ScanNextPage(lists: seq<AlbumListPage>, offset: int)
    requires lists != [] && ScanContinues(lists[0])
    requires var s := ScanLists(lists[1..], offset + PageSize);
      var listed := AlbumStream(lists[1..][..|s.offsets|]);
      && (s.result.Selected? <==> FindTarget(listed) < |listed|)
      && (s.result.Selected? ==> s.result.album == listed[FindTarget(listed)])
    ensures var s := ScanLists(lists, offset);
      var listed := AlbumStream(lists[..|s.offsets|]);
      && (s.result.Selected? <==> FindTarget(listed) < |listed|)
      && (s.result.Selected? ==> s.result.album == listed[FindTarget(listed)])
  {
    var rest := ScanLists(lists[1..], offset + PageSize);
    ScanFirstPage(lists, offset);
    var s := ScanLists(lists, offset);
    assert s.result == rest.result && |s.offsets| == 1 + |rest.offsets|;
    AlbumStreamFirst(lists, |s.offsets|);
    TargetAfterHead(AlbumsOf(lists[0]), AlbumStream(lists[1..][..|rest.offsets|]));
  }

  /**
   * Where the listing loop ends: it goes past every requested page but the last, and ends on
   * the last page requested for the reason that page gives, unless the answers run out first.
   */
  lemma ScanEnds(lists: seq<AlbumListPage>, offset: int)
    ensures var s := ScanLists(lists, offset);
      var m := |s.offsets|;
      && (forall k :: 0 <= k < m - 1 ==> ScanContinues(lists[k]))
      && (s.result.Selected? <==>
            1 <= m && lists[m - 1].code == 0 && lists[m - 1].data.Some? && !ScanContinues(lists[m - 1]))
      && (s.result == EndOfList <==> 1 <= m && lists[m - 1].code == 0 && lists[m - 1].data.None?)
      && ((s.result.ListAborted? && s.result.error.RequestFailed?) <==> 1 <= m && lists[m - 1].code != 0)
      && (1 <= m ==> (s.result == ListAborted(RequestFailed(lists[m - 1].message)) <==> lists[m - 1].code != 0))
      && (s.result == ListAborted(SourceExhausted) <==>
            m == |lists| && (m == 0 || ScanContinues(lists[m - 1])))
  {
    ScanEndsByInduction(lists, offset);
  }

  /** The statement of `ScanEnds`, for one scan. */
  ghost predicate ScanEndsOnLastPage(lists: seq<AlbumListPage>, s: Scan) {
    var m := |s.offsets|;
    && m <= |lists|
    && (forall k :: 0 <= k < m - 1 ==> ScanContinues(lists[k]))
    && (s.result.Selected? <==>
          1 <= m && lists[m - 1].code == 0 && lists[m - 1].data.Some? && !ScanContinues(lists[m - 1]))
    && (s.result == EndOfList <==> 1 <= m && lists[m - 1].code == 0 && lists[m - 1].data.None?)
    && ((s.result.ListAborted? && s.result.error.RequestFailed?) <==> 1 <= m && lists[m - 1].code != 0)
    && (1 <= m ==> (s.result == ListAborted(RequestFailed(lists[m - 1].message)) <==> lists[m - 1].code != 0))
    && (s.result == ListAborted(SourceExhausted) <==>
          m == |lists| && (m == 0 || ScanContinues(lists[m - 1])))
  }

  lemma {:induction false} ScanEndsByInduction(lists: seq<AlbumListPage>, offset: int)
    ensures ScanEndsOnLastPage(lists, ScanLists(lists, offset))
    decreases |lists|
  {
    if lists != [] {
      ScanFirstPage(lists, offset);
      if ScanContinues(lists[0]) {
        ScanEndsByInduction(lists[1..], offset + PageSize);
        ScanContinueEnds(lists, offset);
      }
    }
  }

  /** `ScanEndsOnLastPage` carried over a page the listing loop goes past. */
  lemma ScanContinueEnds(lists: seq<AlbumListPage>, offset: int)
    requires lists != [] && ScanContinues(lists[0])
    requires ScanEndsOnLastPage(lists[1..], ScanLists(lists[1..], offset + PageSize))
    ensures ScanEndsOnLastPage(lists, ScanLists(lists, offset))
  {
    var rest := ScanLists(lists[1..], offset + PageSize);
    var s := ScanLists(lists, offset);
    ScanFirstPage(lists, offset);
    assert s.result == rest.result && |s.offsets| == 1 + |rest.offsets|;
    var m := |s.offsets|;
    forall k | 0 <= k < m - 1 ensures ScanContinues(lists[k]) {
      if k > 0 {
        assert lists[k] == lists[1..][k - 1];
      }
    }
    if 2 <= m {
      assert lists[m - 1] == lists[1..][m - 2];
    }
  }

  /** Searching past a page without the target finds what the later pages hold, shifted. */
  lemma TargetAfterHead(head: seq<Album>, tail: seq<Album>)
    requires FindTarget(head) == |head|
    ensures FindTarget(head + tail) == |head| + FindTarget(tail)
    ensures FindTarget(tail) < |tail| ==> (head + tail)[FindTarget(head + tail)] == tail[FindTarget(tail)]
  {
    FindTargetAppend(head, tail);
  }

  /**
   * `syncAlbums()`: list albums until the target is found, then sync that one album only. The
   * only list requests are the scan's; it fails only when the listing or the page loop aborts.
   */
  function SyncAlbumsSpec(
    sanitize: string -> string, st: State, lists: seq<AlbumListPage>, listing: seq<string>, pages: seq<PhotoPage>)
    : (res: (State, Outcome))
    ensures res.0.offsets == st.offsets + ScanLists(lists, 0).offsets
    ensures res.1.Failed? <==>
      || ScanLists(lists, 0).result.ListAborted?
      || (&& ScanLists(lists, 0).result.Selected?
          && ScanLists(lists, 0).result.album.lastUploadTime > TrackFor(st.albums, ScanLists(lists, 0).result.album).lastUploadTime
          && Walk(listing, pages, None).stop.Aborted?)
  {
    var s := ScanLists(lists, 0);
    var listed := st.(offsets := st.offsets + s.offsets);
    match s.result
    case Selected(album) => SyncAlbumSpec(sanitize, listed, album, listing, pages)
    case EndOfList => (listed, Ok)
    case ListAborted(e) => (listed, Failed(e))
  }

  /**
   * `syncAlbums` requests the album list at offsets 0, 20, ..., and changes no record but the
   * selected album's; when no album is selected it only requests lists.
   */
  lemma SyncAlbumsEffects(
    sanitize: string -> string, st: State, lists: seq<AlbumListPage>, listing: seq<string>, pages: seq<PhotoPage>)
    ensures var res := SyncAlbumsSpec(sanitize, st, lists, listing, pages);
      var s := ScanLists(lists, 0);
      && res.0.offsets == st.offsets + s.offsets
      && (forall k :: 0 <= k < |s.offsets| ==> s.offsets[k] == PageSize * k)
      && (!s.result.Selected? ==> res.0 == st.(offsets := st.offsets + s.offsets))
      && (s.result.Selected? ==> forall id :: id != s.result.album.id ==> Lookup(res.0.albums, id) == Lookup(st.albums, id))
  {
    var s := ScanLists(lists, 0);
    ScanOffsets(lists, 0);
    if s.result.Selected? {
      SyncAlbumEffects(sanitize, st.(offsets := st.offsets + s.offsets), s.result.album, listing, pages);
    }
  }

  /**
   * `await syncAlbums(); saveTrackFile();`: after a successful run the last snapshot written is
   * exactly the records in memory, so the track file persists every update; a failed run
   * writes nothing more than `syncAlbums` did.
   */
  function RunSpec(
    sanitize: string -> string, st: State, lists: seq<AlbumListPage>, listing: seq<string>, pages: seq<PhotoPage>)
    : (res: (State, Outcome))
    ensures res.1 == SyncAlbumsSpec(sanitize, st, lists, listing, pages).1
    ensures res.1.Ok? ==> |res.0.saves| >= 1 && res.0.saves[|res.0.saves| - 1] == res.0.albums
    ensures res.1.Failed? ==> res.0 == SyncAlbumsSpec(sanitize, st, lists, listing, pages).0
  {
    var (after, outcome) := SyncAlbumsSpec(sanitize, st, lists, listing, pages);
    if outcome.Ok? then (after.(saves := after.saves + [after.albums]), outcome) else (after, outcome)
  }

  // ---------------------------------------------------------------- the process state

  /** The program's process-wide state: the track file in memory and the save directory. */
  class Session {
    /** `filenamify`, left uninterpreted. */
    const sanitize: string -> string
    var albums: map<AlbumId, Track>
    var dirs: set<string>
    var saves: seq<map<AlbumId, Track>>
    ghost var submitted: seq<Submission>
    ghost var cursors: seq<Cursor>
    ghost var offsets: seq<int>

    ghost function Snapshot(): State
      reads this
    {
      State(albums, dirs, saves, submitted, cursors, offsets)
    }

    /** `loadTrackFile()`: the persisted albums, or an empty map when there is no track file. */
    constructor (sanitize: string -> string, persisted: Option<map<AlbumId, Track>>, dirs: set<string>)
      ensures this.sanitize == sanitize && this.dirs == dirs
      ensures albums == (if persisted.Some? then persisted.value else map[])
      ensures saves == [] && submitted == [] && cursors == [] && offsets == []
    {
      this.sanitize := sanitize;
      this.dirs := dirs;
      albums := if persisted.Some? then persisted.value else map[];
      saves := [];
      submitted := [];
      cursors := [];
      offsets := [];
    }

    /** `saveTrackFile()`: the whole map is written, replacing the previous snapshot. */
    method SaveTrackFile()
      modifies this`saves
      ensures saves == old(saves) + [albums]
    {
      saves := saves + [albums];
    }

    /**
     * The loop over one page's items: submit each item in order until one is already on disk;
     * the result is how many were submitted.
     */
    method SubmitPage(listing: seq<string>, items: seq<Item>) returns (n: nat)
      modifies this`submitted
      ensures n == BoundaryIndex(listing, items)
      ensures submitted == old(submitted) + Submit(items[..n])
    {
      n := 0;
      while n < |items|
        invariant n <= |items|
        invariant submitted == old(submitted) + Submit(items[..n])
        invariant forall k :: 0 <= k < n ==> !AlreadyDownloaded(listing, items[k].lloc)
      {
        if AlreadyDownloaded(listing, items[n].lloc) {
          return;
        }
        assert items[..n + 1] == items[..n] + [items[n]];
        SubmitAppend(items[..n], [items[n]]);
        submitted := submitted + [Submission(items[n], DownloadUrl(items[n]))];
        n := n + 1;
      }
    }

    /** One pass of `albumLoop`: check the answer and submit the page's new items. */
    method ProcessPage(listing: seq<string>, resp: PhotoPage) returns (step: Step)
      modifies this`submitted
      ensures step == PageStep(listing, resp)
      ensures submitted == old(submitted) + step.submitted
    {
      if resp.code != 0 {
        return Finished(Aborted(RequestFailed(resp.message)), []);
      }
      if resp.data.None? {
        return Finished(NoMorePhotos, []);
      }
      var items := resp.data.value;
      var n := SubmitPage(listing, items);
      if n < |items| {
        return Finished(ResumeBoundary, Submit(items[..n]));
      }
      if items == [] {
        return Finished(Aborted(EmptyPhotoList), []);
      }
      assert items[..n] == items;
      return Continue(Submit(items), items[|items| - 1].lloc);
    }

    /**
     * The `albumLoop` of `syncAlbum`: request pages from the start of the album, logging each
     * cursor, until a pass ends the loop.
     */
    method WalkPages(listing: seq<string>, pages: seq<PhotoPage>) returns (stop: Stop)
      modifies this`submitted, this`cursors
      ensures stop == Walk(listing, pages, None).stop
      ensures submitted == old(submitted) + Walk(listing, pages, None).submitted
      ensures cursors == old(cursors) + Walk(listing, pages, None).cursors
    {
      ghost var whole := Walk(listing, pages, None);
      ghost var subs: seq<Submission> := [];
      ghost var curs: seq<Cursor> := [];
      var cursor: Cursor := None;
      var i := 0;
      assert pages[0..] == pages;
      assert [] + whole.submitted == whole.submitted && [] + whole.cursors == whole.cursors;
      while true
        invariant 0 <= i <= |pages|
        invariant whole == Prepend(subs, curs, Walk(listing, pages[i..], cursor))
        invariant submitted == old(submitted) + subs && cursors == old(cursors) + curs
        decreases |pages| - i
      {
        if i == |pages| {
          assert pages[i..] == [] && subs + [] == subs && curs + [] == curs;
          return Aborted(SourceExhausted);
        }
        assert pages[i..][0] == pages[i] && pages[i..][1..] == pages[i + 1..];
        ghost var subs0, curs0 := subs, curs;
        cursors := cursors + [cursor];
        curs := curs + [cursor];
        AppendAssoc(old(cursors), curs0, [cursor]);
        var step := ProcessPage(listing, pages[i]);
        subs := subs + step.submitted;
        AppendAssoc(old(submitted), subs0, step.submitted);
        if step.Finished? {
          return step.stop;
        }
        PrependTwice(subs0, curs0, step.submitted, [cursor], Walk(listing, pages[i + 1..], Some(step.next)));
        cursor := Some(step.next);
        i := i + 1;
      }
    }

    /** `syncAlbum(album)`, with the stored-name directory created only when missing. */
    method SyncAlbum(album: Album, listing: seq<string>, pages: seq<PhotoPage>) returns (outcome: Outcome)
      modifies this
      ensures (Snapshot(), outcome) == SyncAlbumSpec(sanitize, old(Snapshot()), album, listing, pages)
    {
      var track := if album.id in albums then albums[album.id] else Track(album.name, -1);
      var albumPath := sanitize(track.name);
      if track.name != album.name {
        var oldPath := sanitize(album.name);
        if oldPath in dirs {
          dirs := dirs - {oldPath} + {albumPath};
        }
      }
      if albumPath !in dirs {
        dirs := dirs + {albumPath};
      }
      assert dirs == ReconcileFixed(sanitize, old(dirs), track.name, album.name);
      if album.lastUploadTime <= track.lastUploadTime {
        albums := albums[album.id := track];
        return Ok;
      }

      var stop := WalkPages(listing, pages);
      if stop.Aborted? {
        return Failed(stop.error);
      }
      track := track.(lastUploadTime := album.lastUploadTime);
      albums := albums[album.id := track];
      saves := saves + [albums];
      outcome := Ok;
    }

    /**
     * The listing loop of `syncAlbums`: request the album list at offsets 0, 20, ... until a
     * page holds the target album, the list ends, or a request fails.
     */
    method ScanAlbumLists(lists: seq<AlbumListPage>) returns (selection: Selection)
      modifies this`offsets
      ensures selection == ScanLists(lists, 0).result
      ensures offsets == old(offsets) + ScanLists(lists, 0).offsets
    {
      ghost var whole := ScanLists(lists, 0);
      ghost var offs: seq<int> := [];
      var offset := 0;
      var i := 0;
      assert lists[0..] == lists && [] + whole.offsets == whole.offsets;
      while true
        invariant 0 <= i <= |lists|
        invariant whole == Scan(ScanLists(lists[i..], offset).result, offs + ScanLists(lists[i..], offset).offsets)
        invariant offsets == old(offsets) + offs
        decreases |lists| - i
      {
        if i == |lists| {
          assert lists[i..] == [] && offs + [] == offs;
          return ListAborted(SourceExhausted);
        }
        var resp := lists[i];
        ghost var offs0 := offs;
        offsets := offsets + [offset];
        offs := offs + [offset];
        AppendAssoc(old(offsets), offs0, [offset]);
        assert lists[i..][0] == resp && lists[i..][1..] == lists[i + 1..];
        ScanFirstPage(lists[i..], offset);
        if resp.code != 0 {
          return ListAborted(RequestFailed(resp.message));
        }
        if resp.data.None? {
          return EndOfList;
        }
        var albumList := resp.data.value;
        for j := 0 to |albumList|
          invariant forall k :: 0 <= k < j ==> albumList[k].name != TargetAlbumName
        {
          if albumList[j].name == TargetAlbumName {
            assert FindTarget(albumList) == j;
            return Selected(albumList[j]);
          }
        }
        AppendAssoc(offs0, [offset], ScanLists(lists[i + 1..], offset + PageSize).offsets);
        offset := offset + PageSize;
        i := i + 1;
      }
    }

    /** `syncAlbums()`: find the target album, then sync it. */
    method SyncAlbums(lists: seq<AlbumListPage>, listing: seq<string>, pages: seq<PhotoPage>)
      returns (outcome: Outcome)
      modifies this
      ensures (Snapshot(), outcome) == SyncAlbumsSpec(sanitize, old(Snapshot()), lists, listing, pages)
    {
      var selection := ScanAlbumLists(lists);
      match selection
      case Selected(album) =>
        outcome := SyncAlbum(album, listing, pages);
      case EndOfList =>
        outcome := Ok;
      case ListAborted(e) =>
        outcome := Failed(e);
    }

    /** The end of `main`: sync, then save the track file once more. */
    method Run(lists: seq<AlbumListPage>, listing: seq<string>, pages: seq<PhotoPage>)
      returns (outcome: Outcome)
      modifies this
      ensures (Snapshot(), outcome) == RunSpec(sanitize, old(Snapshot()), lists, listing, pages)
    {
      outcome := SyncAlbums(lists, listing, pages);
      if outcome.Ok? {
        SaveTrackFile();
      }
    }
  }
}
