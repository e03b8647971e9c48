/**
 * One photo or video of an album page, and how the download task names the file it writes:
 * `<time>.<lloc>.<ext>`, where `lloc` is the item's locator and `ext` comes from the
 * response's content type.
 */
module Naming {
  import opened Wrappers
  import opened JsString

  /**
   * An item of a page. `videoDownloadUrl` is `video_info.download_url` (absent for photos);
   * `shootTime` is absent or a Unix time in seconds; `uploadTime` is kept as the raw text
   * handed to the date library.
   */
  datatype Item = Item(
    lloc: string,
    url: string,
    videoDownloadUrl: Option<string>,
    shootTime: Option<int>,
    uploadTime: string)

  /** `item.video_info?.download_url || item.url`. */
  function DownloadUrl(item: Item): (u: string)
    ensures Truthy(item.videoDownloadUrl) ==> u == item.videoDownloadUrl.value
    ensures u == item.url || (item.videoDownloadUrl == Some(u) && u != "")
  {
    if Truthy(item.videoDownloadUrl) then item.videoDownloadUrl.value else item.url
  }

  /** The time a file is named after: the shooting time when it is set and non-zero, else the upload time. */
  datatype Moment = ShotAt(unixSeconds: int) | UploadedAt(uploadTime: string)

  function CaptureMoment(item: Item): (m: Moment)
    ensures m.ShotAt? <==> item.shootTime.Some? && item.shootTime.value != 0
    ensures m.ShotAt? ==> m.unixSeconds == item.shootTime.value
    ensures m.UploadedAt? ==> m.uploadTime == item.uploadTime
  {
    if item.shootTime.Some? && item.shootTime.value != 0 then ShotAt(item.shootTime.value)
    else UploadedAt(item.uploadTime)
  }

  /**
   * `contentType.split('/')[1] || ''`: empty when there is no `/`; otherwise a text without
   * `/` that follows a `/` in the content type.
   */
  function Extension(contentType: string): (ext: string)
    ensures !Includes(contentType, "/") ==> ext == ""
    ensures Free(ext, "/") && (ext != "" ==> Includes(contentType, "/" + ext))
  {
    var parts := Split(contentType, "/");
    SplitHead(contentType, "/");
    if |parts| >= 2 then
      SecondPiece(contentType, "/");
      var i := IndexOf(contentType, "/", 0).value;
      SplitHead(contentType[i + 1..], "/");
      FollowedBy(contentType, "/", i, parts[1]);
      OccursAtIncludes(contentType, "/" + parts[1], i);
      parts[1]
    else ""
  }

  /**
   * The extension is empty when the content type has no `/`; otherwise it is the text after
   * the first `/` up to the next `/` or the end (parameters such as `; charset=...` stay in).
   */
  lemma ExtensionSpec(contentType: string)
    ensures !Includes(contentType, "/") ==> Extension(contentType) == ""
    ensures Includes(contentType, "/") ==>
      var rest := contentType[IndexOf(contentType, "/", 0).value + 1..];
      var ext := Extension(contentType);
      && ext <= rest
      && (forall j :: 0 <= j < |ext| ==> rest[j] != '/')
      && (|ext| == |rest| || rest[|ext|] == '/')
  {
    SplitHead(contentType, "/");
    if Includes(contentType, "/") {
      var rest := contentType[IndexOf(contentType, "/", 0).value + 1..];
      SecondPiece(contentType, "/");
      SplitHeadChar(rest, '/');
    }
  }

  lemma ExtensionOfJpeg(contentType: string)
    requires contentType == "image/jpeg"
    ensures Extension(contentType) == "jpeg"
  {
    assert OccursAt(contentType, "/", 5) by {
      assert contentType[5..6] == "/";
    }
    forall j | 0 <= j < 5 ensures !OccursAt(contentType, "/", j) {
      assert contentType[j..j + 1][0] != '/';
    }
    var r := IndexOf(contentType, "/", 0);
    assert r.Some?;
    assert r.value == 5;
    ExtensionSpec(contentType);
    var rest := contentType[6..];
    assert rest == "jpeg";
    assert forall j :: 0 <= j < |rest| ==> rest[j] != '/';
  }

  /** `${timeString}.${itemId}.${ext}`. */
  function FileName(timeString: string, lloc: string, ext: string): (name: string)
    ensures OccursAt(name, lloc, |timeString| + 1)
  {
    var name := timeString + "." + lloc + "." + ext;
    assert name[|timeString| + 1..|timeString| + 1 + |lloc|] == lloc;
    name
  }

  /**
   * The name the download task writes for `item`, given the date formatting (`format`,
   * second precision, time-zone dependent) and the response's content type.
   */
  function SavedName(format: Moment -> string, item: Item, contentType: string): (name: string)
    ensures Includes(name, item.lloc)
  {
    var name := FileName(format(CaptureMoment(item)), item.lloc, Extension(contentType));
    OccursAtIncludes(name, item.lloc, |format(CaptureMoment(item))| + 1);
    name
  }
}
