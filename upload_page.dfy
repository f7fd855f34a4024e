/** The upload page (client/src/pages/Upload.jsx): the selected file, the
    upload status and the progress percentage, changed by the drop handler,
    the clear button, the upload handler and what follows the request. The
    request itself, the toasts and the 6-second timer are events the page
    receives: each has its own method. */
module UploadPage {
  import opened Wrappers
  import opened Text

  /** A file the drop zone hands over. */
  datatype DroppedFile = DroppedFile(name: string, mimeType: string, size: nat)

  /** `'idle' | 'uploading' | 'analyzing' | 'completed'`. */
  datatype UploadStatus = Idle | Uploading | Analyzing | Completed

  const InvalidFileToast: string := "Please upload a valid video file."
  const NotLoggedInToast: string := "You must be logged in to upload."
  const UploadFailedToast: string := "Upload failed. Are you logged in?"

  /** The message of the error toast after a failed request: the server's
      message, else the error's own, else the fixed fallback (each when not
      empty). */
  function UploadErrorText(serverMessage: Option<string>, errorMessage: Option<string>): (t: string)
    ensures serverMessage.Some? && serverMessage.value != [] ==> t == serverMessage.value
    ensures (serverMessage.None? || serverMessage.value == []) && errorMessage.Some? && errorMessage.value != []
      ==> t == errorMessage.value
    ensures t != []
  {
    if serverMessage.Some? && serverMessage.value != [] then serverMessage.value
    else if errorMessage.Some? && errorMessage.value != [] then errorMessage.value
    else UploadFailedToast
  }

  /** `Math.round(loaded * 100 / total)` on non-negative numbers, with exact
      arithmetic: the nearest whole percentage, halves rounded up. */
  function Percent(loaded: nat, total: nat): (p: nat)
    requires 0 < total && loaded <= total
    ensures p <= 100
    ensures p * (2 * total) <= 200 * loaded + total < (p + 1) * (2 * total)
  {
    var n := 200 * loaded + total;
    var d := 2 * total;
    DivisionBounds(n, d);
    QuotientBelow(n, d, 101);
    n / d
  }

  /** The quotient of a Euclidean division brackets the dividend. */
  lemma DivisionBounds(n: nat, d: nat)
    requires 0 < d
    ensures (n / d) * d <= n < (n / d + 1) * d
  {
  }

  /** A dividend below `k` divisors has a quotient below `k`. */
  lemma QuotientBelow(n: nat, d: nat, k: nat)
    requires 0 < d && n < k * d
    ensures n / d < k
  {
    var q := n / d;
    DivisionBounds(n, d);
    assert q * d <= n;
    assert n < k * d;
    ProductBelow(q, k, d);
  }

  /** Multiplying by a positive `d` keeps a strict order the other way round. */
  lemma ProductBelow(a: nat, b: nat, d: nat)
    requires 0 < d && a * d < b * d
    ensures a < b
  {
  }

  class UploadPageState {
    var file: Option<DroppedFile>
    var status: UploadStatus
    var progress: nat
    /** Every `setStatus` call, in order. */
    var statusLog: seq<UploadStatus>
    /** Every toast shown, in order. */
    var toasts: seq<string>
    /** Completion timers scheduled and not yet fired. */
    var pendingTimers: nat

    /** Progress is a percentage, and a completed page holds no file. */
    predicate Valid()
      reads this
    {
      progress <= 100 && (status == Completed ==> file.None?)
    }

    constructor()
      ensures Valid() && file.None? && status == Idle && progress == 0
      ensures statusLog == [] && toasts == [] && pendingTimers == 0
    {
      file := None;
      status := Idle;
      progress := 0;
      statusLog := [];
      toasts := [];
      pendingTimers := 0;
    }

    /** The drop prompt shows while no file is selected. */
    predicate ShowsDropPrompt()
      reads this
    {
      file.None?
    }

    /** "Start Analysis" shows only with a selected file on an idle page. */
    predicate ShowsStartAnalysis()
      reads this
    {
      file.Some? && status == Idle
    }

    /** The progress overlay covers the page while uploading or analysing. */
    predicate ShowsProgressOverlay()
      reads this
    {
      status == Uploading || status == Analyzing
    }

    /** `onDrop`: the first accepted file, if any. A file whose type does not
        start with `video/` is refused with a toast; any other is selected,
        with the page back to idle and the progress at 0. */
    method OnDrop(acceptedFiles: seq<DroppedFile>)
      requires Valid()
      modifies this
      ensures Valid() && pendingTimers == old(pendingTimers)
      ensures acceptedFiles == [] ==>
        file == old(file) && status == old(status) && progress == old(progress)
        && statusLog == old(statusLog) && toasts == old(toasts)
      ensures acceptedFiles != [] && !StartsWith(acceptedFiles[0].mimeType, "video/") ==>
        file == old(file) && status == old(status) && progress == old(progress)
        && statusLog == old(statusLog) && toasts == old(toasts) + [InvalidFileToast]
      ensures acceptedFiles != [] && StartsWith(acceptedFiles[0].mimeType, "video/") ==>
        file == Some(acceptedFiles[0]) && status == Idle && progress == 0
        && statusLog == old(statusLog) + [Idle] && toasts == old(toasts)
        && ShowsStartAnalysis() && !ShowsProgressOverlay()
    {
      if acceptedFiles == [] {
        return;
      }
      var selectedFile := acceptedFiles[0];
      if !StartsWith(selectedFile.mimeType, "video/") {
        toasts := toasts + [InvalidFileToast];
        return;
      }
      file := Some(selectedFile);
      status := Idle;
      statusLog := statusLog + [Idle];
      progress := 0;
    }

    /** The clear button: drops the selected file and nothing else. */
    method ClearFile()
      requires Valid()
      modifies this
      ensures Valid() && file.None? && ShowsDropPrompt() && !ShowsStartAnalysis()
      ensures status == old(status) && progress == old(progress) && statusLog == old(statusLog)
      ensures toasts == old(toasts) && pendingTimers == old(pendingTimers)
    {
      file := None;
    }

    /** `handleUpload` up to the request: nothing without a file; otherwise
        uploading, and straight back to idle with a toast when there is no
        token. `requestSent` tells whether the POST went out. */
    method HandleUpload(hasToken: bool) returns (requestSent: bool)
      requires Valid()
      modifies this
      ensures Valid() && file == old(file) && progress == old(progress)
      ensures pendingTimers == old(pendingTimers)
      ensures requestSent <==> old(file).Some? && hasToken
      ensures old(file).None? ==>
        status == old(status) && statusLog == old(statusLog) && toasts == old(toasts)
      ensures old(file).Some? && !hasToken ==>
        status == Idle && statusLog == old(statusLog) + [Uploading, Idle]
        && toasts == old(toasts) + [NotLoggedInToast]
      ensures requestSent ==>
        status == Uploading && statusLog == old(statusLog) + [Uploading] && toasts == old(toasts)
        && ShowsProgressOverlay() && !ShowsStartAnalysis()
    {
      if file.None? {
        return false;
      }
      status := Uploading;
      statusLog := statusLog + [Uploading];
      if !hasToken {
        toasts := toasts + [NotLoggedInToast];
        status := Idle;
        statusLog := statusLog + [Idle];
        return false;
      }
      requestSent := true;
    }

    /** A progress event of the request: `loaded` of `total` bytes sent. */
    method OnUploadProgress(loaded: nat, total: nat)
      requires Valid() && 0 < total && loaded <= total
      modifies this
      ensures Valid() && progress == Percent(loaded, total)
      ensures file == old(file) && status == old(status) && statusLog == old(statusLog)
      ensures toasts == old(toasts) && pendingTimers == old(pendingTimers)
    {
      progress := Percent(loaded, total);
    }

    /** The request settles: success moves to analysing and schedules the
        completion timer; failure returns to idle with an error toast and
        keeps the selected file. */
    method OnPostSettled(ok: bool, serverMessage: Option<string>, errorMessage: Option<string>)
      requires Valid()
      modifies this
      ensures Valid() && file == old(file) && progress == old(progress)
      ensures ok ==>
        status == Analyzing && statusLog == old(statusLog) + [Analyzing]
        && toasts == old(toasts) && pendingTimers == old(pendingTimers) + 1
      ensures !ok ==>
        status == Idle && statusLog == old(statusLog) + [Idle]
        && toasts == old(toasts) + [UploadErrorText(serverMessage, errorMessage)]
        && pendingTimers == old(pendingTimers)
      ensures ok ==> ShowsProgressOverlay()
      ensures !ok ==> !ShowsProgressOverlay() && (file.Some? ==> ShowsStartAnalysis())
    {
      if ok {
        status := Analyzing;
        statusLog := statusLog + [Analyzing];
        pendingTimers := pendingTimers + 1;
      } else {
        status := Idle;
        statusLog := statusLog + [Idle];
        toasts := toasts + [UploadErrorText(serverMessage, errorMessage)];
      }
    }

    /** The completion timer fires: whatever file is selected by then is
        cleared, the page shows completed and the progress goes back to 0. */
    method OnCompletionTimer()
      requires Valid() && pendingTimers > 0
      modifies this
      ensures Valid() && file.None? && status == Completed && progress == 0
      ensures ShowsDropPrompt() && !ShowsProgressOverlay()
      ensures statusLog == old(statusLog) + [Completed] && toasts == old(toasts)
      ensures pendingTimers == old(pendingTimers) - 1
    {
      file := None;
      status := Completed;
      statusLog := statusLog + [Completed];
      progress := 0;
      pendingTimers := pendingTimers - 1;
    }
  }

  /** One upload from a dropped video file to completion: after the drop, the
      upload, the successful request and the timer, the page has passed
      through idle, uploading, analysing and completed, and holds no file. */
  method UploadHappyPath(f: DroppedFile) returns (page: UploadPageState)
    requires StartsWith(f.mimeType, "video/")
    ensures page.Valid() && page.file.None? && page.status == Completed && page.progress == 0
    ensures page.statusLog == [Idle, Uploading, Analyzing, Completed]
    ensures page.toasts == []
  {
    page := new UploadPageState();
    page.OnDrop([f]);
    assert page.ShowsStartAnalysis();
    var sent := page.HandleUpload(true);
    page.OnPostSettled(true, None, None);
    page.OnCompletionTimer();
  }
}
