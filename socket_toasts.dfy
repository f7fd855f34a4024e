/** The `video_processed` handler of client/src/context/SocketContext.jsx: one
    toast per event, chosen by the record's status and then its sensitivity. */
module SocketToasts {
  import opened Wrappers
  import opened VideoModel
  import opened AnalysisPipeline

  datatype ToastKind = ErrorToast | WarnToast | SuccessToast

  datatype Toast = Toast(kind: ToastKind, message: string)

  /** The toast for the record an event carries: Error status first, then the
      Flagged sensitivity, and the "SAFE" success toast for everything else. */
  function ToastFor(video: VideoRecord): (t: Toast)
    ensures t.kind == ErrorToast <==> video.status == Error
    ensures t.kind == WarnToast <==> video.status != Error && SensitivityText(video.sensitivity) == "Flagged"
    ensures t.kind == SuccessToast <==>
      video.status != Error && SensitivityText(video.sensitivity) != "Flagged"
  {
    if StatusText(video.status) == "Error" then
      Toast(ErrorToast, "Analysis Failed: Video \"" + video.title + "\" could not be analyzed.")
    else if SensitivityText(video.sensitivity) == "Flagged" then
      Toast(WarnToast, "Analysis Complete: Video \"" + video.title + "\" was FLAGGED.")
    else
      Toast(SuccessToast, "Analysis Complete: Video \"" + video.title + "\" is SAFE.")
  }

  /** The toast ignores the sensitivity of a failed record. */
  lemma ErrorToastIgnoresSensitivity(video: VideoRecord, s: Sensitivity)
    requires video.status == Error
    ensures ToastFor(video.(sensitivity := s)) == ToastFor(video)
  {
  }

  /** A record never classified, or classified with a text outside the enum,
      is announced as SAFE. */
  lemma UnclassifiedAnnouncedSafe(video: VideoRecord)
    requires video.status != Error
    requires video.sensitivity == Unchecked || (video.sensitivity.Unlisted? && video.sensitivity.text != "Flagged")
    ensures ToastFor(video).kind == SuccessToast
  {
  }

  /** End to end: the toast for the record an analysis run emits is the
      error toast when the run failed, the warning when the reply said
      Flagged, and the SAFE toast for any other reply text. A reply without
      a sensitivity leaves the record's own, so the toast then follows that
      one: SAFE for a freshly uploaded, Unchecked record. */
  lemma ToastForAnalysis(v: VideoRecord, o: Oracle)
    requires AfterRun(v, o).Some?
    ensures Analyze(o).AnalysisFailed? ==> ToastFor(AfterRun(v, o).value).kind == ErrorToast
    ensures Analyze(o).Classified? && Analyze(o).sensitivity == Some("Flagged") ==>
      ToastFor(AfterRun(v, o).value).kind == WarnToast
    ensures Analyze(o).Classified? && Analyze(o).sensitivity.Some? && Analyze(o).sensitivity.value != "Flagged" ==>
      ToastFor(AfterRun(v, o).value).kind == SuccessToast
    ensures Analyze(o).Classified? && Analyze(o).sensitivity.None? ==>
      ToastFor(AfterRun(v, o).value) == ToastFor(v.(status := Completed))
  {
  }
}
