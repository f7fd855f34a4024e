/** The upload route (server/routes/videos.js): the file-type filter, the
    stored-file naming, the size limit and the order in which the route's
    middleware run. */
module VideoRoutes {
  import opened Wrappers
  import opened Text
  import opened VideoModel

  /** The alternatives of `/mp4|mov|avi|mkv/`. */
  const VideoTypes: seq<string> := ["mp4", "mov", "avi", "mkv"]

  /** `limits.fileSize`: 100,000,000 bytes. */
  const MaxFileSize: nat := 100000000

  /** The disk-storage destination directory. */
  const UploadDir: string := "uploads/"

  /** What the filter reports on a rejected file. */
  const VideosOnly: string := "Error: Videos Only!"

  /** The message of the storage engine's `LIMIT_FILE_SIZE` error. */
  const FileTooLarge: string := "File too large"

  /** `/mp4|mov|avi|mkv/.test(s)`: an unanchored, case-sensitive search for any
      of the four alternatives. */
  predicate MatchesVideoType(s: string) {
    exists k | 0 <= k < |VideoTypes| :: Contains(s, VideoTypes[k])
  }

  // ---------------------------------------------------------------------------
  // path.extname
  // ---------------------------------------------------------------------------

  /** `path` without its trailing `/` characters. */
  function StripTrailingSlashes(path: string): (r: string)
    ensures |r| <= |path| && r == path[..|r|]
    ensures r == [] || r[|r| - 1] != '/'
  {
    if path != [] && path[|path| - 1] == '/' then StripTrailingSlashes(path[..|path| - 1]) else path
  }

  /** The part of `path` after its last `/`. */
  function LastSegment(path: string): (r: string)
    ensures |r| <= |path| && r == path[|path| - |r|..]
    ensures '/' !in r
    ensures |r| < |path| ==> path[|path| - |r| - 1] == '/'
  {
    if path == [] || path[|path| - 1] == '/' then []
    else LastSegment(path[..|path| - 1]) + [path[|path| - 1]]
  }

  /** The index of the last `.` in `s`, if there is one. */
  function LastDot(s: string): (r: Option<nat>)
    ensures r.Some? ==> r.value < |s| && s[r.value] == '.' && '.' !in s[r.value + 1..]
    ensures r.None? ==> '.' !in s
  {
    if s == [] then None
    else if s[|s| - 1] == '.' then Some(|s| - 1)
    else
      var r := LastDot(s[..|s| - 1]);
      assert s == s[..|s| - 1] + [s[|s| - 1]];
      r
  }

  /** Node's `path.extname`: from the last `.` of the last path segment to its
      end; empty when that segment has no `.`, when its only leading character
      is the `.` (a dot-file), or when the segment is `..`. */
  function ExtName(path: string): (r: string)
    ensures r == [] || (r[0] == '.' && '.' !in r[1..] && '/' !in r)
  {
    var segment := LastSegment(StripTrailingSlashes(path));
    var dot := LastDot(segment);
    if dot.None? || dot.value == 0 || segment == ".." then []
    else
      var ext := segment[dot.value..];
      assert ext[0] == '.' && ext[1..] == segment[dot.value + 1..];
      assert forall c | c in ext :: c in segment;
      ext
  }

  /** The extension of `base.ext` is `.ext` when neither part holds a `.` or a
      `/` and the base is not empty. */
  lemma ExtNameOfSimpleName(base: string, ext: string)
    requires base != [] && '.' !in base && '/' !in base
    requires '.' !in ext && '/' !in ext
    ensures ExtName(base + "." + ext) == "." + ext
  {
    var name := base + "." + ext;
    var i := |base|;
    assert '/' !in name by {
      assert forall c :: c in name ==> c in base || c == '.' || c in ext;
    }
    assert name[i] == '.';
    assert name[i + 1..] == ext;
    assert name[0] == base[0];
    ExtNameAt(name, i);
    assert name[i..] == "." + ext;
  }

  /** In a name without `/`, the extension starts at the last `.` when that
      `.` is not the first character. */
  lemma ExtNameAt(name: string, i: nat)
    requires '/' !in name
    requires 0 < i < |name| && name[i] == '.' && '.' !in name[i + 1..]
    requires name[0] != '.'
    ensures ExtName(name) == name[i..]
  {
    LastSegmentWithoutSlash(name);
    NoTrailingSlash(name);
    LastDotIs(name, i);
    assert name != "..";
  }

  /** A path with no `/` has no trailing slash to strip. */
  lemma NoTrailingSlash(s: string)
    requires '/' !in s
    ensures StripTrailingSlashes(s) == s
  {
    if s != [] {
      assert s[|s| - 1] in s;
    }
  }

  /** A path with no `/` is its own last segment. */
  lemma {:induction false} LastSegmentWithoutSlash(s: string)
    requires '/' !in s
    ensures LastSegment(s) == s
  {
    if s != [] {
      var init, last := s[..|s| - 1], s[|s| - 1];
      assert last in s;
      assert forall c | c in init :: c in s;
      LastSegmentWithoutSlash(init);
      assert init + [last] == s;
    }
  }

  /** A `.` with no `.` after it is the last one. */
  lemma {:induction false} LastDotIs(s: string, i: nat)
    requires i < |s| && s[i] == '.' && '.' !in s[i + 1..]
    ensures LastDot(s) == Some(i)
    decreases |s|
  {
    if i < |s| - 1 {
      assert s[|s| - 1] in s[i + 1..];
      assert s[..|s| - 1][i + 1..] == s[i + 1..|s| - 1];
      assert s[i + 1..] == s[i + 1..|s| - 1] + [s[|s| - 1]];
      LastDotIs(s[..|s| - 1], i);
    }
  }

  // ---------------------------------------------------------------------------
  // The file filter
  // ---------------------------------------------------------------------------

  /** The answer the filter hands to the storage engine's callback. */
  datatype FilterDecision = Accept | Reject(message: string)

  /** `checkFileType`: the lower-cased extension of the original name and the
      declared MIME type must each match the pattern. */
  function CheckFileType(originalname: string, mimetype: string): (d: FilterDecision)
    ensures d.Reject? ==> d.message == VideosOnly
  {
    var extOk := MatchesVideoType(ToLower(ExtName(originalname)));
    var mimeOk := MatchesVideoType(mimetype);
    if extOk && mimeOk then Accept else Reject(VideosOnly)
  }

  /** The filter accepts exactly when both tests pass; otherwise it reports
      the fixed message. */
  lemma CheckFileTypeAcceptsIff(originalname: string, mimetype: string)
    ensures CheckFileType(originalname, mimetype) == Accept <==>
      MatchesVideoType(ToLower(ExtName(originalname))) && MatchesVideoType(mimetype)
    ensures CheckFileType(originalname, mimetype) != Accept ==>
      CheckFileType(originalname, mimetype) == Reject(VideosOnly)
  {
  }

  /** An occurrence of one alternative anywhere is a match of the pattern. */
  lemma MatchesAt(s: string, k: nat, j: nat)
    requires k < |VideoTypes| && OccursAt(s, VideoTypes[k], j)
    ensures MatchesVideoType(s)
  {
  }

  /** A name `base.ext` with one of the four extensions, declared as
      `video/<ext>`, is accepted, whatever the case of the extension. */
  lemma AcceptsVideoFile(base: string, ext: string, k: nat)
    requires base != [] && '.' !in base && '/' !in base
    requires '.' !in ext && '/' !in ext
    requires k < |VideoTypes| && ToLower(ext) == VideoTypes[k]
    ensures CheckFileType(base + "." + ext, "video/" + VideoTypes[k]) == Accept
  {
    var t := VideoTypes[k];
    assert OccursAt(t, t, 0);
    OccursAfterPrefix("video/", t, t, 0);
    MatchesAt("video/" + t, k, 6);
    FilterIsSubstringSearch(base, ext, k, 0, "video/" + t);
  }

  /** No alternative of the pattern occurs in `s` when no `m` in it is followed
      by `p`, `o` or `k` and no `a` by `v`. */
  lemma NoVideoTypeIn(s: string)
    requires forall i :: 0 <= i < |s| - 1 ==>
      !(s[i] == 'm' && (s[i + 1] == 'p' || s[i + 1] == 'o' || s[i + 1] == 'k'))
      && !(s[i] == 'a' && s[i + 1] == 'v')
    ensures !MatchesVideoType(s)
  {
    forall k, i | 0 <= k < |VideoTypes| && 0 <= i <= |s| - |VideoTypes[k]|
      ensures !OccursAt(s, VideoTypes[k], i)
    {
      var t := VideoTypes[k];
      assert |t| == 3;
      assert (t[0] == 'm' && (t[1] == 'p' || t[1] == 'o' || t[1] == 'k')) || (t[0] == 'a' && t[1] == 'v');
      assert s[i] != t[0] || s[i + 1] != t[1];
    }
  }

  /** The MIME type is tested as written: `video/MP4` is refused. */
  lemma UpperCaseMimeTypeRefused(name: string)
    ensures CheckFileType(name, "video/MP4") == Reject(VideosOnly)
  {
    NoVideoTypeIn("video/MP4");
  }

  /** The search is unanchored: an extension that merely contains one of the
      alternatives somewhere (`.mp4x`, `.xmkv`, `.MOVIE`) passes, with any MIME
      type the pattern matches. */
  lemma FilterIsSubstringSearch(base: string, ext: string, k: nat, j: nat, mime: string)
    requires base != [] && '.' !in base && '/' !in base
    requires '.' !in ext && '/' !in ext
    requires k < |VideoTypes| && OccursAt(ToLower(ext), VideoTypes[k], j)
    requires MatchesVideoType(mime)
    ensures CheckFileType(base + "." + ext, mime) == Accept
  {
    ExtNameOfSimpleName(base, ext);
    ToLowerAppend(".", ext);
    var dot := ToLower(".");
    OccursAfterPrefix(dot, ToLower(ext), VideoTypes[k], j);
    MatchesAt(dot + ToLower(ext), k, |dot| + j);
  }

  /** A MIME type only has to contain an alternative: `application/mp4` and
      `text/avi-notes` both pass the MIME test. */
  lemma MimeTestIsUnanchored()
    ensures MatchesVideoType("application/mp4")
    ensures MatchesVideoType("text/avi-notes")
  {
    assert OccursAt("application/mp4", VideoTypes[0], 12);
    assert OccursAt("text/avi-notes", VideoTypes[2], 5);
  }

  /** A `.mov` file declared with its usual MIME type `video/quicktime` is
      refused: that MIME type holds none of the four alternatives. */
  lemma QuickTimeMimeRefused(base: string)
    ensures CheckFileType(base + ".mov", "video/quicktime") == Reject(VideosOnly)
  {
    NoVideoTypeIn("video/quicktime");
  }

  // ---------------------------------------------------------------------------
  // Stored file name, size limit, route order
  // ---------------------------------------------------------------------------

  /** `${Date.now()}-${file.originalname}` at time `now`. */
  function StoredFilename(now: nat, originalname: string): (r: string)
    ensures |r| > |originalname| && r[|r| - |originalname|..] == originalname
  {
    NatToString(now) + "-" + originalname
  }

  /** The timestamp at the front of a stored name reads back with `parseInt`,
      and two uploads stored at different times never share a name. */
  lemma StoredFilenameTimestamp(now: nat, originalname: string)
    ensures ParseInt(StoredFilename(now, originalname)) == Some(now)
  {
    assert StoredFilename(now, originalname) == NatToString(now) + ("-" + originalname);
    ParseIntOfDigits(NatToString(now), "-" + originalname);
  }

  /** Names stored at different times differ, whatever the original names. */
  lemma StoredFilenamesDistinct(t1: nat, n1: string, t2: nat, n2: string)
    requires t1 != t2
    ensures StoredFilename(t1, n1) != StoredFilename(t2, n2)
  {
    StoredFilenameTimestamp(t1, n1);
    StoredFilenameTimestamp(t2, n2);
  }

  /** One part of a multipart request, as the client sent it. */
  datatype FilePart = FilePart(originalname: string, mimetype: string, size: nat)

  /** `req.file` once the storage engine has written the part to disk. */
  datatype StoredFile = StoredFile(
    originalname: string, mimetype: string, filename: string, path: string, size: nat)

  /** Where a POST to `/upload` ends: refused by `protect` (401), failed inside
      the upload middleware (the error goes to `next`, and with no error
      handler of the application's own Express answers it with 500), or handed
      to `uploadVideo` with the authenticated user and `req.file` (absent when
      the request carried no `video` part). */
  datatype RouteOutcome =
    | Unauthorized
    | UploadFailed(message: string)
    | ToController(user: UserId, file: Option<StoredFile>)

  /** `router.post('/upload', protect, upload.single('video'), uploadVideo)`:
      `protect` runs first, then the filter and the size limit on the `video`
      part, then the controller. `user` is who `protect` authenticated, if anyone. */
  function UploadRoute(user: Option<UserId>, part: Option<FilePart>, now: nat): (r: RouteOutcome)
    ensures user.None? ==> r == Unauthorized
    ensures user.Some? && part.None? ==> r == ToController(user.value, None)
    ensures r.ToController? && r.file.Some? ==>
      part.Some? && CheckFileType(part.value.originalname, part.value.mimetype) == Accept
      && part.value.size <= MaxFileSize
      && r.file.value.filename == StoredFilename(now, part.value.originalname)
      && r.file.value.path == UploadDir + r.file.value.filename
    ensures user.Some? && part.Some? ==>
      (r.UploadFailed? <==>
        CheckFileType(part.value.originalname, part.value.mimetype) != Accept
        || part.value.size > MaxFileSize)
    ensures (user.Some? && part.Some? && CheckFileType(part.value.originalname, part.value.mimetype) == Accept
             && part.value.size <= MaxFileSize) ==>
        var p := part.value;
        var name := StoredFilename(now, p.originalname);
        r == ToController(user.value, Some(StoredFile(p.originalname, p.mimetype, name, UploadDir + name, p.size)))
  {
    if user.None? then Unauthorized
    else if part.None? then ToController(user.value, None)
    else
      var p := part.value;
      match CheckFileType(p.originalname, p.mimetype)
      case Reject(message) => UploadFailed(message)
      case Accept =>
        if p.size > MaxFileSize then UploadFailed(FileTooLarge)
        else
          var filename := StoredFilename(now, p.originalname);
          ToController(user.value, Some(StoredFile(p.originalname, p.mimetype, filename,
                                                   UploadDir + filename, p.size)))
  }

  /** A file of exactly 100,000,000 bytes is still accepted; one byte more is not. */
  lemma SizeLimitBoundary(user: UserId, name: string, mime: string, now: nat)
    requires CheckFileType(name, mime) == Accept
    ensures UploadRoute(Some(user), Some(FilePart(name, mime, MaxFileSize)), now).ToController?
    ensures UploadRoute(Some(user), Some(FilePart(name, mime, MaxFileSize + 1)), now)
      == UploadFailed(FileTooLarge)
  {
  }
}
