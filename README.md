# Vidova video lifecycle, in Dafny

Vidova is a video-hosting application. An Express/MongoDB server accepts uploads,
has each video classified as Safe or Flagged by an external model service,
streams videos with HTTP byte ranges and lists every user's own videos. A React
client shows the library, toasts each finished analysis, runs the upload page and
gates pages and navigation by role.

This project models the core of that system and proves properties of the model:

- **Video document.** `VideoModel` (`video_model.dfy`) holds the document's fields, its two string enums, the defaults and the `trim`/`required` validation that runs when a document is created.
- **Upload route.** `VideoRoutes` (`video_routes.dfy`) holds:
  - the file filter, including Node's `path.extname`;
  - the stored-file name and the size limit;
  - the order of the route's middleware.
- **Upload and analysis.** `AnalysisPipeline` (`analysis_pipeline.dfy`) holds `uploadVideo`.
  - A `VideoServer` class holds the collection as a map from id to record and the socket's `video_processed` emits as an append-only log.
  - `UploadVideo` creates the record.
  - `RunAnalysis` is the continuation after the 201. It polls while the state is `PROCESSING`, fails on `FAILED`, cleans and parses the classification reply, then makes one terminal update and emits.
  - The model service and `JSON.parse` are an `Oracle` value.
- **Fence clean-up.** `FenceCleanup` (`fence_cleanup.dfy`) removes the markdown fences from the reply.
- **Range responses.** `RangeRequest` (`range_request.dfy`) holds the `Range` header arithmetic of `streamVideo`.
  - It covers single `bytes=start-end` and `bytes=start-` ranges (RFC 7233, section 2.1), the 206 answer (section 4.1), the `Content-Range` format (section 4.2) and `Accept-Ranges` (section 2.3).
  - There is no satisfiability check and no 416; a range the file stream refuses ends in 500.
- **Listing.** `VideoListing` (`video_listing.dfy`) is `getVideos`: the requester's records, newest first.
- **Accounts.** `AuthController` (`auth_controller.dfy`) holds:
  - registration into a `UserStore` class;
  - login by e-mail lookup and an abstract password check;
  - `getMe`.
- **Library page.** `Dashboard` (`dashboard.dfy`) holds the list replacement on a `video_processed` event, what a video card shows, and a `DashboardPage` class for the page's state.
- **Toasts.** `SocketToasts` (`socket_toasts.dfy`) is the three-way toast choice of the socket handler.
- **Upload page.** `UploadPage` (`upload_page.dfy`) is a class holding `file`, `status`, `uploadProgress`, the status history and the toasts, with one method per handler.
- **Role gating.** `ProtectedRoute` (`protected_route.dfy`) and `LayoutNav` (`layout_nav.dfy`) hold the route guard and the role-filtered side bar.
- **Shared helpers.** `Text` (`text.dfy`) states the JavaScript string primitives the code relies on: `trim`, literal regex search and replace, `split`, `toLowerCase`, `parseInt` and decimal printing. `Wrappers` (`wrappers.dfy`) holds `Option`.

The model follows the code as written, including where it departs from the evident design:

- The fence clean-up removes "```json" and "```" anywhere in the reply, not only at its ends.
- A classification outside Safe/Flagged is stored as it came (`Sensitivity.Unlisted`), not turned into an error. The completion update does not run the schema's enum validators.
- A title made only of whitespace is truthy, so it is used. It trims to the empty string, the creation fails validation, and the upload answers 500.
- A card's "revealed" state does not persist. `VideoCard` is declared inside `Dashboard`, so every render of the page mounts fresh cards. `DashboardPage` therefore clears `revealed` whenever the list changes.
- An upload refused by the filter or by the size limit is not answered with a message of the route's own. The error reaches Express's default handler, which answers 500.
- Registration lets the caller choose any role; `Editor` is only the fallback.

## Model

| member | source | states |
|---|---|---|
| VideoModel.InStatusEnum | server/models/Video.js:28 | Specification predicate of the status enum: every status but `Error`. |
| VideoModel.InSensitivityEnum | server/models/Video.js:33 | Specification predicate of the sensitivity enum: Unchecked, Safe and Flagged, no unlisted text. |
| VideoModel.SchemaValid | server/models/Video.js:4-35 | Specification predicate of a document the schema's validators accept: non-empty trimmed title, non-empty filename and path, both enums. `NewVideo`, `UnlistedVerdictIsStored` and `ErrorRecordOutsideSchema` are stated in it. |
| VideoModel.NewVideo | server/models/Video.js:3-40 | Creation succeeds exactly when the trimmed title, the filename and the path are non-empty and any given status is in the enum. The document is then schema-valid and stores the trimmed title. Status defaults to Pending, sensitivity is Unchecked and `createdAt` is the creation time. |
| VideoModel.SensitivityFromText | server/models/Video.js:31-35 | Reading a stored sensitivity string gives a value that prints back as the same text. It lies in the enum exactly for Unchecked, Safe and Flagged. |
| VideoModel.SensitivityTextRoundTrip | server/models/Video.js:33 | Printing a canonical sensitivity and reading it back gives the same value. |
| VideoModel.StatusText | server/models/Video.js:26-30 | A status is in the schema's enum exactly when its stored text is Pending, Processing or Completed; Error prints as `Error`. |
| VideoRoutes.ExtName | server/routes/videos.js:33 | `path.extname` is empty, or starts with the one `.` it holds and contains no `/`. |
| VideoRoutes.ExtNameOfSimpleName | server/routes/videos.js:33 | The extension of `base.ext` (no `.` or `/` in either part, non-empty base) is `.ext`. |
| VideoRoutes.MatchesVideoType | server/routes/videos.js:32 | Specification predicate of `/mp4\|mov\|avi\|mkv/.test`: one of the four alternatives occurs somewhere in the text. Its uses are stated by `CheckFileTypeAcceptsIff`, `MatchesAt` and `NoVideoTypeIn`. |
| VideoRoutes.CheckFileType | server/routes/videos.js:31-41 | Every rejection carries `Error: Videos Only!`. |
| VideoRoutes.CheckFileTypeAcceptsIff | server/routes/videos.js:32-40 | A file is accepted iff the pattern matches both the lower-cased extension and the MIME type. Otherwise it is rejected with the fixed message. |
| VideoRoutes.AcceptsVideoFile | server/routes/videos.js:32-37 | `base.ext` declared as `video/<t>` is accepted when `ext` lower-cases to `t`, one of mp4/mov/avi/mkv, whatever the case of `ext`. |
| VideoRoutes.FilterIsSubstringSearch | server/routes/videos.js:32-36 | An extension that only contains an alternative anywhere passes the test, with any MIME type the pattern matches. |
| VideoRoutes.MimeTestIsUnanchored | server/routes/videos.js:32-34 | `application/mp4` and `text/avi-notes` pass the MIME test. |
| VideoRoutes.NoVideoTypeIn | server/routes/videos.js:32 | Text without `mp`, `mo`, `mk` or `av` does not match the pattern. |
| VideoRoutes.UpperCaseMimeTypeRefused | server/routes/videos.js:34-39 | The MIME type is tested case-sensitively: `video/MP4` is refused. |
| VideoRoutes.QuickTimeMimeRefused | server/routes/videos.js:34-39 | `x.mov` declared `video/quicktime` is refused. |
| VideoRoutes.StoredFilename | server/routes/videos.js:18 | The stored name ends with the original name and is longer than it. |
| VideoRoutes.StoredFilenameTimestamp | server/routes/videos.js:18 | `parseInt` of a stored name gives back its timestamp. |
| VideoRoutes.StoredFilenamesDistinct | server/routes/videos.js:18 | Names stored at different times differ. |
| VideoRoutes.UploadRoute | server/routes/videos.js:11-45 | The route runs in this order: `protect`, the filter, the size limit, the controller. No user gives 401. A request without a part reaches the controller with no file. A part fails exactly when the filter rejects it or it is over the limit. A part that passes both reaches the controller as the authenticated user, with its own name, type and size, stored as `<now>-<originalname>` under `uploads/`; nothing else reaches the controller with a file. |
| VideoRoutes.SizeLimitBoundary | server/routes/videos.js:24 | 100000000 bytes pass and 100000001 bytes fail with `File too large`. |
| FenceCleanup.CleanFences | server/controllers/videoController.js:71 | The cleaned reply contains no "```" and has no whitespace at either end. |
| FenceCleanup.NoFenceAfterRemoval | server/controllers/videoController.js:71 | After the global removal of "```", no "```" remains. |
| FenceCleanup.CleanFencesWithoutBackticks | server/controllers/videoController.js:71 | On a reply without backticks the clean-up is exactly `trim`. |
| FenceCleanup.CleanFencedJsonBlock | server/controllers/videoController.js:71 | A "```json … ```" block is reduced to its trimmed body. |
| FenceCleanup.CleanFencesAnywhere | server/controllers/videoController.js:71 | A "```json" in the middle of the reply is removed, joining the text around it. |
| Text.Trim | server/controllers/videoController.js:71 | `trim` returns the slice of the input between the whitespace at either end. Everything cut off is whitespace, and the result neither starts nor ends with whitespace. |
| Text.TrimStartDropsWhitespace | server/models/Video.js:7 | `trimStart` keeps a suffix, all it drops is whitespace, and what it keeps does not start with whitespace. |
| Text.ToLower | server/routes/videos.js:33 | Lower-casing keeps the length and maps each character on its own. |
| Text.ReplaceAll | server/controllers/videoController.js:71 | Specification function of `replace(/pat/g, rep)` with a literal pattern: left-to-right, non-overlapping replacement. Its properties are stated by `ReplaceAllAtStart`, `ReplaceAllWithoutFirstChar` and `FenceCleanup.NoFenceAfterRemoval`. |
| Text.ReplaceFirst | server/controllers/videoController.js:133 | Specification function of `replace(/bytes=/, "")`: only the first occurrence goes; `ReplaceFirstAtStart` states that a leading `bytes=` is removed. |
| Text.Split | server/controllers/videoController.js:133 | `split` on one character: at least one piece; the first piece is the prefix before the first separator, or the whole text when there is none. `SplitInTwo` states the two-piece case. |
| Text.ParseInt | server/controllers/videoController.js:134-135 | Specification function of `parseInt(s, 10)`: leading whitespace, an optional sign, the longest digit run, `None` for `NaN`. `ParseIntOfDigits` and `ParseIntOfNatToString` state what it reads. |
| Text.ParseIntOfDigits | server/controllers/videoController.js:134-135 | `parseInt` of a digit run followed by a non-digit is the value of the run. |
| Text.ParseIntOfNatToString | server/controllers/videoController.js:134-139 | A printed position parses back to itself. |
| RangeRequest.Headers | server/controllers/videoController.js:138-150 | A streamed answer sends headers ending with `Content-Type: video/mp4`; a JSON error sends none of them. |
| RangeRequest.ContentRange | server/controllers/videoController.js:139 | Specification function of the `Content-Range` template; `ContentRangeReadsBack` proves its three numbers read back. |
| RangeRequest.RangeParts | server/controllers/videoController.js:133 | The pieces of the header after the first `bytes=` is dropped, split at `-`; there is always at least one. |
| RangeRequest.PartsBounds | server/controllers/videoController.js:134-135 | Specification function: `parseInt` of the first piece, and of the second when it is present and non-empty, else `fileSize - 1`. `PartsBoundsOf` and `OpenRangeBounds` state its results. |
| RangeRequest.RangeBounds | server/controllers/videoController.js:133-135 | Specification function of the two positions read from a header; stated by `RangeBoundsOf` and `OpenRangeBounds`. |
| RangeRequest.StreamAccepts | server/controllers/videoController.js:137 | Specification predicate of what `createReadStream` accepts: two integers with `0 <= start <= end <= Number.MAX_SAFE_INTEGER`. |
| RangeRequest.RangeResponse | server/controllers/videoController.js:130-157 | Specification function of the answer to a header on a file size; its contract is `RangeResponseCases`. |
| RangeRequest.RangeResponseCases | server/controllers/videoController.js:130-157 | No `Range` gives 200 with the whole file. A `Range` gives 206 exactly when the file stream accepts the parsed positions: `start <= end`, both safe integers. The 206 carries `end - start + 1` bytes and `bytes start-end/size`. Every other range gives 500 `Server Error streaming video`. |
| RangeRequest.StreamVideo | server/controllers/videoController.js:119-158 | An unknown id gives 404 and an unreadable file 500. Otherwise the answer is the range response on the file's size, and the status is always 200, 206, 404 or 500. |
| RangeRequest.RangeBoundsOf | server/controllers/videoController.js:133-135 | `bytes=<start>-<end>` followed by a non-digit reads as `start` and `end`. |
| RangeRequest.ClosedRangeResponse | server/controllers/videoController.js:132-144 | A closed range with `start <= end` is answered with 206 and `end - start + 1` bytes, even beyond the end of the file. |
| RangeRequest.ReversedRangeFails | server/controllers/videoController.js:137 | `start > end` makes the stream throw: 500, not 416. |
| RangeRequest.OpenRangeBounds | server/controllers/videoController.js:135 | `bytes=<start>-` reads its end as `fileSize - 1`. |
| RangeRequest.OpenEndedRangeResponse | server/controllers/videoController.js:132-144 | `bytes=<start>-` on a larger file gives 206 for the rest of the file. |
| RangeRequest.EmptyFileOpenRangeFails | server/controllers/videoController.js:135-137 | On an empty file an open range ends at -1 and gives 500. |
| RangeRequest.SuffixRangeFails | server/controllers/videoController.js:133-137 | The suffix form `bytes=-n` has a `NaN` start and gives 500. |
| RangeRequest.ContentRangeReadsBack | server/controllers/videoController.js:139 | The three numbers of `bytes start-end/size` split and parse back. |
| RangeRequest.FirstHundredBytes | server/controllers/videoController.js:132-144 | `bytes=0-99` on 1000 bytes gives 206 with 100 bytes and `bytes 0-99/1000`. |
| VideoListing.OwnedBy | server/controllers/videoController.js:166 | The filter keeps every record of the user with its multiplicity and nothing else. |
| VideoListing.SortNewestFirst | server/controllers/videoController.js:166 | The sort is a permutation ordered by `createdAt` descending. |
| VideoListing.UserListing | server/controllers/videoController.js:166 | The query's result holds exactly the user's records, each as often as stored, newest first. |
| VideoListing.GetVideos | server/controllers/videoController.js:163-172 | The answer is the listing iff the query resolves: then it holds exactly the user's records, each as often as stored, newest first. A rejected query answers 500 `Server Error fetching videos`. |
| VideoListing.ListingIsolatesUsers | server/controllers/videoController.js:166 | Every record the query returns belongs to the requester. |
| VideoListing.ListingIgnoresOthers | server/controllers/videoController.js:166 | Adding another user's record does not change a user's filtered records. |
| VideoListing.NewestUploadListedFirst | server/controllers/videoController.js:166 | A record newer than all of its uploader's others heads that uploader's listing. |
| AnalysisPipeline.UploadFields | server/controllers/videoController.js:23-30 | `Video.create` receives the status Processing, the uploader, the stored file's name, path and size, and the title if truthy, else the original name. |
| AnalysisPipeline.ChosenTitle | server/controllers/videoController.js:24 | Specification function of `title \|\| originalname`; stated by `EmptyTitleFallsBack` and `UploadFields`. |
| AnalysisPipeline.UploadRecord | server/controllers/videoController.js:19-30 | The record exists iff the chosen title trims to non-empty and the stored name and path are non-empty. It is Processing and Unchecked, with the trimmed chosen title and the creation time. |
| AnalysisPipeline.EmptyTitleFallsBack | server/controllers/videoController.js:24 | An absent or empty title becomes the original file name. |
| AnalysisPipeline.BlankTitleFailsUpload | server/controllers/videoController.js:23-30 | A whitespace-only title makes the creation fail. |
| AnalysisPipeline.VideoServer.UploadVideo | server/controllers/videoController.js:14-33 | No file gives 400 and stores nothing. A creation that fails validation, or that the database rejects, gives 500 `Server Error during upload` and stores nothing. Otherwise the record is stored under its id and returned with 201. Nothing is emitted. |
| AnalysisPipeline.FirstSettled | server/controllers/videoController.js:49-54 | The loop stops at the first answer that is not exactly `PROCESSING`. It has stopped iff such an answer exists. |
| AnalysisPipeline.FirstSettledAt | server/controllers/videoController.js:49-54 | A run of `PROCESSING` answers ended by another answer, or by the end of the answers, locates the stop. |
| AnalysisPipeline.Analyze | server/controllers/videoController.js:37-85 | Specification function of how the `try` block ends: still polling, failed (upload, `FAILED` or a throwing poll, a throwing request, a failed parse, a failed update), or Completed with the parsed sensitivity. `RunAnalysis` is proved against it, and `FailedStateRaises`, `OtherStatesProceed`, `PollingDelaysOnly` and `ReplyWithoutSensitivityCompletes` state its cases. |
| AnalysisPipeline.GetFileCalls | server/controllers/videoController.js:49-54 | Specification function of the number of `getFile` calls: one per answer up to and including the one that ends the loop, all of them while still polling. `RunAnalysis` returns it. |
| AnalysisPipeline.CompletedSensitivity | server/controllers/videoController.js:77-85 | Specification function of the sensitivity after the completion update: the parsed text as it came, or the old value when the parsed value has none. |
| AnalysisPipeline.AfterRun | server/controllers/videoController.js:77-106 | The one terminal update keeps every other field. It writes Completed iff the analysis succeeded, storing the parsed sensitivity as given, or keeping the old one when the parsed value has none. It writes Error iff the analysis failed, with the sensitivity untouched. There is no update while still polling or when the Error write fails. |
| AnalysisPipeline.VideoServer.RunAnalysis | server/controllers/videoController.js:36-108 | The outcome is `Analyze(o)`, and `getFile` is called once per answer up to the one that ends the loop. The store changes only by `AfterRun`'s update, and the updated record is emitted once, after the write, iff the socket server is attached. |
| AnalysisPipeline.FailedStateRaises | server/controllers/videoController.js:56-58 | `FAILED`, or a throwing poll, fails the run. |
| AnalysisPipeline.OtherStatesProceed | server/controllers/videoController.js:60-85 | Any other state proceeds. A reply that parses to `t` makes the record Completed with `t`. |
| AnalysisPipeline.FirstSettledAfterPolling | server/controllers/videoController.js:50-54 | `n` more `PROCESSING` answers in front shift the stop by `n`. |
| AnalysisPipeline.PollingDelaysOnly | server/controllers/videoController.js:50-54 | Extra `PROCESSING` answers do not change the outcome. |
| AnalysisPipeline.UnlistedVerdictIsStored | server/controllers/videoController.js:77-85 | A verdict outside the enum is stored as it came, and the record is then outside the schema. |
| AnalysisPipeline.ErrorRecordOutsideSchema | server/controllers/videoController.js:98-102 | The failure path writes Error, which the status enum does not admit. |
| AnalysisPipeline.UnparsableReplyMarksError | server/controllers/videoController.js:71-102 | A reply that does not parse leaves the record in Error with its sensitivity untouched. |
| AnalysisPipeline.FencedReplyParsedUnwrapped | server/controllers/videoController.js:69-72 | A fenced `json` reply reaches the parser unwrapped and trimmed. |
| AnalysisPipeline.ReplyWithoutSensitivityCompletes | server/controllers/videoController.js:72-85 | A reply that parses to a value without `sensitivity` raises nothing: the record becomes Completed with its sensitivity unchanged. |
| AuthController.FindByEmail | server/controllers/authController.js:19 | The lookup finds a user iff one has the e-mail, and what it finds is a stored user with that e-mail. |
| AuthController.Credentials | server/controllers/authController.js:35-42 | Specification function of the success body: the user's id, username, e-mail, role and organizationId, and a token for its id. `Login` and `RegisterUser` answer with it. |
| AuthController.UserStore.RegisterUser | server/controllers/authController.js:12-50 | A falsy username, e-mail or password gives 400 `Please add all fields`. A taken e-mail gives 400 `User already exists`. A refused creation gives 500 with its message. In all three the store is unchanged. Otherwise the user is appended with role `role` or else `Editor`, and 201 carries its fields and token. Ids stay positions and e-mails stay unique. |
| AuthController.Login | server/controllers/authController.js:52-69 | Login succeeds iff a user has the e-mail and the password check accepts it. It then answers 200 with exactly the found user's id, username, e-mail, role and organizationId and a token for its id. Otherwise it answers 401 `Invalid credentials`. |
| AuthController.GetMe | server/controllers/authController.js:74-76 | 200 with the authenticated user unchanged. |
| AuthController.FindAfterAppend | server/controllers/authController.js:19-32 | After a user with a fresh e-mail is appended, a lookup of that e-mail finds it, and other lookups are unchanged. |
| AuthController.LoginAfterRegister | server/controllers/authController.js:52-65 | Right after registration, login with that e-mail succeeds iff the password check accepts, and then answers 200 with the new user's fields. |
| AuthController.LoginFailuresIndistinguishable | server/controllers/authController.js:57-68 | An unknown e-mail and a wrong password get the same answer. |
| Dashboard.ApplyProcessedEvent | client/src/pages/Dashboard.jsx:42-44 | The list keeps its length. An entry with the event's id becomes the payload, and every other entry is unchanged. |
| Dashboard.EventForUnknownVideo | client/src/pages/Dashboard.jsx:43 | An event for an id not in the list leaves the list unchanged. |
| Dashboard.ApplyProcessedEventIdempotent | client/src/pages/Dashboard.jsx:42-44 | Applying the same event twice is applying it once. |
| Dashboard.EventsForDistinctVideosCommute | client/src/pages/Dashboard.jsx:42-44 | Events for different videos commute. |
| Dashboard.EventKeepsIds | client/src/pages/Dashboard.jsx:42-44 | The ids along the list never change. |
| Dashboard.IsProcessing | client/src/pages/Dashboard.jsx:52 | Specification predicate: the stored status is Processing. |
| Dashboard.IsFlagged | client/src/pages/Dashboard.jsx:53 | Specification predicate: the stored sensitivity text is `Flagged`. |
| Dashboard.Card | client/src/pages/Dashboard.jsx:51-118 | The placeholder and the `Analysing...` badge show iff the video is Processing, and then there is no thumbnail blur or overlay. The play link shows iff the card is not processing. The overlay and the blur show iff the card is not processing, is Flagged and is not revealed. The label shows iff the video is Completed. |
| Dashboard.RevealLiftsOverlay | client/src/pages/Dashboard.jsx:85-96 | A Completed, Flagged card shows the overlay and label until revealed, then neither overlay nor blur. |
| Dashboard.ErrorCard | client/src/pages/Dashboard.jsx:52-112 | An Error record shows no placeholder and no label, and shows the overlay iff it is Flagged and not revealed. |
| Dashboard.DashboardPage.constructor | client/src/pages/Dashboard.jsx:10-11 | The page starts with an empty list, loading, and no revealed card. |
| Dashboard.DashboardPage.CardAt | client/src/pages/Dashboard.jsx:127-136 | Specification function of what the `i`-th rendered card shows once loading has ended: `Card` of its video and its `isRevealed` state. |
| Dashboard.DashboardPage.Reveal | client/src/pages/Dashboard.jsx:85-88 | Clicking the overlay marks that card revealed and changes nothing else; every rendered card of that video then shows neither overlay nor blur. |
| Dashboard.DashboardPage.OnFetchSuccess | client/src/pages/Dashboard.jsx:23-25 | The list becomes the fetched records and loading ends. The page renders again, so every card shows its video unrevealed. |
| Dashboard.DashboardPage.OnProcessedEvent | client/src/pages/Dashboard.jsx:41-45 | The list becomes `ApplyProcessedEvent` of the old list and the payload, loading is unchanged, and every rendered card shows its video unrevealed. |
| Dashboard.DashboardPage.OnFetchFailure | client/src/pages/Dashboard.jsx:26-31 | It asks for the login redirect iff the status is 401. The list is kept, loading ends, and cards are remounted only if the page was loading. |
| SocketToasts.ToastFor | client/src/context/SocketContext.jsx:30-38 | Exactly one toast per record: error iff its stored status is `Error`, warning iff not Error and Flagged, success otherwise. |
| SocketToasts.ErrorToastIgnoresSensitivity | client/src/context/SocketContext.jsx:31-32 | A failed record's toast does not depend on its sensitivity. |
| SocketToasts.UnclassifiedAnnouncedSafe | client/src/context/SocketContext.jsx:35-36 | An Unchecked record, or one with an unknown verdict, is announced as SAFE. |
| SocketToasts.ToastForAnalysis | client/src/context/SocketContext.jsx:30-38 | The record a run emits is toasted as an error iff the run failed, as a warning iff the verdict was `Flagged`, and as SAFE for any other verdict. A reply without a verdict is toasted as the record with its old sensitivity. |
| UploadPage.UploadErrorText | client/src/pages/Upload.jsx:76 | The error toast shows the server's message, else the error's own, else the fixed fallback, and is never empty. |
| UploadPage.Percent | client/src/pages/Upload.jsx:56 | The progress is the nearest whole percentage, halves up, and never above 100. |
| UploadPage.UploadPageState.constructor | client/src/pages/Upload.jsx:11-13 | The page starts with no file, idle, 0 progress, no toast and no timer. |
| UploadPage.UploadPageState.ShowsDropPrompt | client/src/pages/Upload.jsx:99 | Specification predicate: the drop prompt shows while no file is selected. |
| UploadPage.UploadPageState.ShowsStartAnalysis | client/src/pages/Upload.jsx:133-140 | Specification predicate: "Start Analysis" shows only with a selected file on an idle page. |
| UploadPage.UploadPageState.ShowsProgressOverlay | client/src/pages/Upload.jsx:147 | Specification predicate: the overlay shows while the status is neither idle nor completed. |
| UploadPage.UploadPageState.OnDrop | client/src/pages/Upload.jsx:16-27 | An empty drop changes nothing. A non-video type adds only the toast. A video is selected, with the page back to idle and 0 progress, showing "Start Analysis" and no overlay. |
| UploadPage.UploadPageState.ClearFile | client/src/pages/Upload.jsx:125-130 | The clear button drops the file and nothing else; the drop prompt is back and "Start Analysis" is gone. |
| UploadPage.UploadPageState.HandleUpload | client/src/pages/Upload.jsx:35-63 | No file changes nothing. Without a token the status goes to uploading and back to idle with a toast. The request is sent iff there is a file and a token, leaving the page uploading under the overlay. |
| UploadPage.UploadPageState.OnUploadProgress | client/src/pages/Upload.jsx:55-58 | Only the progress changes, to `Percent(loaded, total)`. |
| UploadPage.UploadPageState.OnPostSettled | client/src/pages/Upload.jsx:63-78 | Success goes to analysing under the overlay and schedules the timer. Failure goes to idle with the error toast, and "Start Analysis" is back when a file is selected. Either way the file is kept. |
| UploadPage.UploadPageState.OnCompletionTimer | client/src/pages/Upload.jsx:67-71 | The timer clears the file, shows completed and resets the progress; the drop prompt is back and the overlay gone. |
| UploadPage.UploadHappyPath | client/src/pages/Upload.jsx:16-71 | A video drop, an upload with a token, a successful request and the timer pass through idle, uploading, analysing and completed, ending with no file, 0 progress and no toast. |
| ProtectedRoute.Guard | client/src/components/ProtectedRoute.jsx:5-20 | No user goes to login. A given role list without the user's role goes to the dashboard. Otherwise the children render. Each case holds iff its condition. |
| ProtectedRoute.UploadPageGuard | client/src/components/ProtectedRoute.jsx:9-19 | With `['Editor','Admin']`, Editors and Admins get the page, every other role the dashboard, a visitor the login page. |
| ProtectedRoute.EmptyRolesAdmitNobody | client/src/components/ProtectedRoute.jsx:13-17 | An empty role list sends every user to the dashboard. |
| ProtectedRoute.MoreRolesAdmitMore | client/src/components/ProtectedRoute.jsx:13-19 | Adding roles never turns away an admitted user. |
| LayoutNav.FilterNav | client/src/components/Layout.jsx:25 | An item is kept iff its roles include the role, and the list does not grow. |
| LayoutNav.FilterNavIsSubsequence | client/src/components/Layout.jsx:25 | The kept items keep their order. |
| LayoutNav.RoleOf | client/src/components/Layout.jsx:24 | Specification function: the user's role, `Guest` without a user. |
| LayoutNav.VisibleNav | client/src/components/Layout.jsx:18-25 | Specification function of the side bar's items; stated by `GuestSeesNothing`, `ViewerSeesDashboardOnly`, `EditorAndAdminSeeBoth`, `OtherRolesSeeNothing` and `UploadLinkMatchesGuard`. |
| LayoutNav.GuestSeesNothing | client/src/components/Layout.jsx:24-25 | A visitor, with role `Guest`, sees no item. |
| LayoutNav.ViewerSeesDashboardOnly | client/src/components/Layout.jsx:18-25 | A Viewer sees only Dashboard. |
| LayoutNav.EditorAndAdminSeeBoth | client/src/components/Layout.jsx:18-25 | Editors and Admins see Dashboard, then Upload. |
| LayoutNav.OtherRolesSeeNothing | client/src/components/Layout.jsx:18-25 | Any other role sees nothing. |
| LayoutNav.UploadLinkMatchesGuard | client/src/components/Layout.jsx:20 | The Upload link shows exactly to the users the upload page's guard admits. |

## Left out

- **Model service (`uploadFile`, `getFile`, `generateContent`).** These are calls into the model service's SDK. They are replaced by the `Oracle` inputs: whether the upload succeeds, the poll answers, the reply text and `JSON.parse` read as the parsed `sensitivity` field. No JSON grammar is modelled.
- **Sleeps and the timer.** The 2-second sleep between polls and the client's 6-second timer are timing and are not modelled. The timer is the separate `OnCompletionTimer` event.
- **Termination of the poll loop.** The code sets no bound. The answers are a finite sequence, and running out of them while still `PROCESSING` is the outcome `StillPolling`, with no update and no emit.
- **Concurrency.** The continuation runs after the 201 is sent, as the separate step `RunAnalysis`; concurrent uploads and their interleavings are not modelled. The check-then-create race in registration is not modelled either.
- **MongoDB.**
  - The collections are a map and a sequence.
  - `populate` is not modelled.
  - `getVideoById` is not modelled: it is a lookup that adds nothing to the lifecycle.
  - A malformed id makes `findById` throw and answer 500. `StreamVideo` receives the lookup's result instead.
  - A record deleted while its analysis runs would be emitted as `null`; the model keeps every record.
- AuthController.FindByEmail: a rejected `User.findOne` in `registerUser` (authController.js:19) or `loginUser` (:55) is not modelled. Both calls sit outside any `try`, so the rejection is unhandled and the request gets no answer; the lookup always resolves here.
- **Whole-file transfer in `streamVideo`.** The file I/O is left out: `statSync` becomes the `stat` input and `createReadStream`/`pipe` the `StreamAccepts` check. Only the headers and the status are modelled.
- **Failure of the Error write.** A failing Error update leaves an unhandled rejection. The model shows it only as no update and no emit.
- AnalysisPipeline.Oracle: `parse` gives a parsed value's `sensitivity` as the string the update stores. A non-string value that Mongoose casts to a string is that string, and one it cannot cast makes the update throw, which is `None`. An explicit `"sensitivity": null` is represented like a missing property (old sensitivity kept), although it stores null. A missing property is dropped from the update, as current Mongoose versions do; older versions stored null.
- **Tokens and passwords.** JWT signing is the `SignedToken(id)` value and `bcrypt`'s comparison the `matchPassword` parameter.
- **Files not part of this model.** `server/models/User.js` and `server/middleware/authMiddleware.js` are not part of this model. The user model's own validation is the `createOk` input, `protect` is the `user` input of `UploadRoute`, and `getMe` receives the user `protect` loaded.
- **Unreachable branch.** The 400 `Invalid user data` branch of registration cannot be reached, because `User.create` either returns a user or throws.
- **A login body without an e-mail.** It would query `findOne({ email: undefined })`, whose matching is the database driver's. `Login` takes the e-mail as a string.
- **Time.** `Date.now()` is the `now` input of the stored file name and of the record's `createdAt`.
- **Text.ToLower:** lower-cases the ASCII letters only, since JavaScript's full Unicode case mapping is not modelled.
- **Unicode.** `trim` and `parseInt` follow ECMAScript's whitespace set; no other Unicode handling is modelled.
- **VideoListing.SortNewestFirst:** keeps records with equal `createdAt` in their stored order. MongoDB does not promise an order among equal keys, so this is stronger than the database's promise.
- **UploadPage.Percent:** computes `Math.round(loaded * 100 / total)` exactly on whole numbers. The source uses floating-point division, which can differ in the last bit.
- **Out-of-range `loaded`.** A progress event with `loaded > total` or `total = 0` is left out.
- **Socket and page lifecycle.** The socket connection, its subscription lifecycle, logout and every other piece of presentation are not modelled.
