/** `uploadVideo` (server/controllers/videoController.js, lines 14-114): the
    record it creates and the analysis that continues after the 201 has been
    sent. The external model service is an oracle: whether the file upload
    succeeds, the answers of the successive `getFile` polls, the reply text
    of the classification request and an abstract `JSON.parse`. The database
    is a map from id to record and the socket an append-only log of the
    `video_processed` payloads. */
module AnalysisPipeline {
  import opened Wrappers
  import opened Text
  import opened VideoModel
  import opened VideoRoutes
  import opened FenceCleanup

  const NoFileMessage: string := "Please upload a video file"
  const UploadServerError: string := "Server Error during upload"

  /** The ingestion states the loop tests for. */
  const ProcessingState: string := "PROCESSING"
  const FailedState: string := "FAILED"

  /** The answer to one `getFile` call: the file's state, or a thrown error. */
  datatype Probe = FileState(state: string) | ProbeFailed

  /** The answer that keeps the loop polling. */
  const Polling: Probe := FileState(ProcessingState)

  /** The value `JSON.parse` returns, as far as the update reads it: the
      `sensitivity` property as the string the update stores, or `None` when
      the value has no such property (`{}`, an array, a number, a string), so
      that the update leaves the stored sensitivity as it is. */
  datatype Parsed = Parsed(sensitivity: Option<string>)

  /** Everything the continuation receives from outside: whether `uploadFile`
      succeeds, the answers of the `getFile` calls in order (as many as have
      arrived), the text of the classification reply (`None`: the request
      threw), `JSON.parse` (`None`: it throws, or it returns `null`, whose
      property read throws), and whether each of the two database updates
      succeeds. */
  datatype Oracle = Oracle(
    uploadOk: bool,
    probes: seq<Probe>,
    reply: Option<string>,
    parse: string -> Option<Parsed>,
    successWriteOk: bool,
    errorWriteOk: bool)

  /** How the `try` block of the continuation ends: still inside the poll loop
      when the answers run out, with the update to Completed and the
      classification's sensitivity text (`None`: the parsed value had none),
      or with an exception. */
  datatype Outcome = StillPolling | Classified(sensitivity: Option<string>) | AnalysisFailed

  /** What the upload request answers. */
  datatype UploadResponse = UploadRefused(status: nat, message: string) | UploadCreated(video: VideoRecord)

  /** `title || req.file.originalname`: the title when it is given and not
      empty, the original file name otherwise. */
  function ChosenTitle(title: Option<string>, originalname: string): string {
    if title.Some? && title.value != [] then title.value else originalname
  }

  /** The fields `uploadVideo` hands to `Video.create`; the status is set to
      Processing explicitly. */
  function UploadFields(user: UserId, file: StoredFile, title: Option<string>): (f: VideoFields)
    ensures f.status == Some(Processing) && f.uploader == user
    ensures f.filename == file.filename && f.filepath == file.path && f.size == file.size
    ensures title.Some? && title.value != [] ==> f.title == title.value
    ensures title.None? || title.value == [] ==> f.title == file.originalname
  {
    VideoFields(ChosenTitle(title, file.originalname), file.filename, file.path, file.size, user,
                Some(Processing))
  }

  /** The record an upload creates: it exists exactly when the chosen title is
      not blank and the stored name and path are not empty; it is Processing,
      Unchecked, and titled with the trimmed chosen title. */
  lemma UploadRecord(id: VideoId, user: UserId, file: StoredFile, title: Option<string>, now: int)
    ensures NewVideo(id, UploadFields(user, file, title), now).Some? <==>
      Trim(ChosenTitle(title, file.originalname)) != [] && file.filename != [] && file.path != []
    ensures var r := NewVideo(id, UploadFields(user, file, title), now);
      r.Some? ==>
        && r.value.status == Processing && r.value.sensitivity == Unchecked
        && r.value.title == Trim(ChosenTitle(title, file.originalname))
        && r.value.uploader == user && r.value.createdAt == now
  {
  }

  /** An absent or empty title falls back to the original file name. */
  lemma EmptyTitleFallsBack(title: Option<string>, originalname: string)
    requires title.None? || title.value == []
    ensures ChosenTitle(title, originalname) == originalname
  {
  }

  /** A title made only of whitespace is truthy, so it is used, trimmed to
      nothing, and the record fails validation: the upload answers 500. */
  lemma BlankTitleFailsUpload(id: VideoId, user: UserId, file: StoredFile, title: Option<string>, now: int)
    requires title.Some? && title.value != [] && Trim(title.value) == []
    ensures NewVideo(id, UploadFields(user, file, title), now).None?
  {
  }

  /** The index of the first `getFile` answer that ends the loop: the first one
      that is not exactly the `PROCESSING` state. `None` while every answer so
      far is `PROCESSING`. */
  function FirstSettled(probes: seq<Probe>): (r: Option<nat>)
    ensures r.Some? ==> r.value < |probes| && probes[r.value] != Polling
    ensures r.Some? ==> forall k :: 0 <= k < r.value ==> probes[k] == Polling
    ensures r.None? <==> forall k :: 0 <= k < |probes| ==> probes[k] == Polling
  {
    if probes == [] then None
    else if probes[0] != Polling then Some(0)
    else
      match FirstSettled(probes[1..])
      case None => None
      case Some(i) => Some(i + 1)
  }

  /** A run of `PROCESSING` answers ended by another answer, or by the end
      of the answers, locates the first settled one. */
  lemma {:induction false} FirstSettledAt(probes: seq<Probe>, i: nat)
    requires i <= |probes| && (i == |probes| || probes[i] != Polling)
    requires forall k :: 0 <= k < i ==> probes[k] == Polling
    ensures FirstSettled(probes) == if i == |probes| then None else Some(i)
    decreases i
  {
    if i > 0 {
      var tail := probes[1..];
      assert probes[0] == Polling;
      assert forall k :: 0 <= k < i - 1 ==> tail[k] == probes[k + 1];
      FirstSettledAt(tail, i - 1);
    }
  }

  /** The `try` block: upload, poll, fail on `FAILED` or a thrown poll,
      classify, clean the fences, parse, and write Completed. */
  function Analyze(o: Oracle): Outcome {
    if !o.uploadOk then AnalysisFailed
    else match FirstSettled(o.probes)
      case None => StillPolling
      case Some(i) =>
        if o.probes[i] == ProbeFailed || o.probes[i] == FileState(FailedState) then AnalysisFailed
        else if o.reply.None? then AnalysisFailed
        else match o.parse(CleanFences(o.reply.value))
          case None => AnalysisFailed
          case Some(parsed) => if o.successWriteOk then Classified(parsed.sensitivity) else AnalysisFailed
  }

  /** The sensitivity after the completion update: the parsed text stored as
      it came, or the old value when the parsed value carried none. */
  function CompletedSensitivity(old_: Sensitivity, parsed: Option<string>): Sensitivity {
    if parsed.Some? then SensitivityFromText(parsed.value) else old_
  }

  /** The record after the continuation's one terminal update, if it made
      one: Completed with the parsed sensitivity stored as it came (or kept,
      when the parsed value had none), or, after any exception, Error with
      the sensitivity untouched. `None` while still polling, or when the
      Error update itself fails. */
  function AfterRun(v: VideoRecord, o: Oracle): (r: Option<VideoRecord>)
    ensures r.Some? ==>
      && r.value.id == v.id && r.value.title == v.title && r.value.filename == v.filename
      && r.value.filepath == v.filepath && r.value.size == v.size
      && r.value.uploader == v.uploader && r.value.createdAt == v.createdAt
    ensures r.Some? ==> (r.value.status == Completed <==> Analyze(o).Classified?)
    ensures r.Some? ==> (r.value.status == Error <==> Analyze(o).AnalysisFailed?)
    ensures r.Some? && r.value.status == Error ==> r.value.sensitivity == v.sensitivity
    ensures r.Some? && r.value.status == Completed && Analyze(o).sensitivity.Some? ==>
      SensitivityText(r.value.sensitivity) == Analyze(o).sensitivity.value
    ensures r.Some? && r.value.status == Completed && Analyze(o).sensitivity.None? ==>
      r.value.sensitivity == v.sensitivity
    ensures r.None? <==> Analyze(o).StillPolling? || (Analyze(o).AnalysisFailed? && !o.errorWriteOk)
  {
    match Analyze(o)
    case StillPolling => None
    case Classified(t) => Some(v.(status := Completed, sensitivity := CompletedSensitivity(v.sensitivity, t)))
    case AnalysisFailed => if o.errorWriteOk then Some(v.(status := Error)) else None
  }

  /** The number of `getFile` calls made: one per answer up to and including
      the one that ends the loop. */
  function GetFileCalls(o: Oracle): nat {
    if !o.uploadOk then 0
    else match FirstSettled(o.probes)
      case None => |o.probes|
      case Some(i) => i + 1
  }

  /** The server's video collection and the socket's event stream. */
  class VideoServer {
    var videos: map<VideoId, VideoRecord>
    var events: seq<VideoRecord>

    /** Every stored record sits under its own id. */
    predicate Valid()
      reads this
    {
      forall k | k in videos :: videos[k].id == k
    }

    constructor()
      ensures Valid() && videos == map[] && events == []
    {
      videos := map[];
      events := [];
    }

    /** The request part of `uploadVideo`: 400 without a file; otherwise the
        record is created under the fresh id `id` at time `now` and returned
        with 201. The creation fails, with 500, when the fields fail the
        schema's validation or when the database rejects the insert for any
        other reason (`createOk` false). Nothing is emitted here. */
    method UploadVideo(user: UserId, file: Option<StoredFile>, title: Option<string>, id: VideoId, now: int, createOk: bool)
      returns (resp: UploadResponse)
      requires Valid() && id !in videos
      modifies this
      ensures Valid() && events == old(events)
      ensures file.None? ==> resp == UploadRefused(400, NoFileMessage)
      ensures file.Some? ==>
        var created := NewVideo(id, UploadFields(user, file.value, title), now);
        && (created.None? || !createOk ==> resp == UploadRefused(500, UploadServerError))
        && (created.Some? && createOk ==> resp == UploadCreated(created.value))
      ensures resp.UploadCreated? ==> videos == old(videos)[id := resp.video]
      ensures resp.UploadRefused? ==> videos == old(videos)
    {
      if file.None? {
        return UploadRefused(400, NoFileMessage);
      }
      var created := NewVideo(id, UploadFields(user, file.value, title), now);
      if created.None? || !createOk {
        return UploadRefused(500, UploadServerError);
      }
      var video := created.value;
      assert video.id == id;
      videos := videos[id := video];
      resp := UploadCreated(video);
    }

    /** The continuation for the record `id` created by the upload, with
        `io` telling whether the socket server is attached to the request.
        It polls, classifies, makes at most one terminal update and emits
        the updated record after it when `io` is set. */
    method RunAnalysis(id: VideoId, o: Oracle, io: bool) returns (outcome: Outcome, getFileCalls: nat)
      requires Valid() && id in videos
      modifies this
      ensures Valid()
      ensures outcome == Analyze(o) && getFileCalls == GetFileCalls(o)
      ensures var after := AfterRun(old(videos)[id], o);
        && videos == (if after.Some? then old(videos)[id := after.value] else old(videos))
        && events == old(events) + (if io && after.Some? then [after.value] else [])
    {
      var failed := false;
      outcome := StillPolling;
      getFileCalls := 0;
      if !o.uploadOk {
        failed := true;
      } else {
        // `file = await getFile(...)`, then again while the state is PROCESSING.
        var i := 0;
        while i < |o.probes| && o.probes[i] == Polling
          invariant i <= |o.probes|
          invariant forall k :: 0 <= k < i ==> o.probes[k] == Polling
        {
          i := i + 1;
        }
        FirstSettledAt(o.probes, i);
        if i == |o.probes| {
          getFileCalls := i;
        } else {
          getFileCalls := i + 1;
          var file := o.probes[i];
          if file == ProbeFailed || file == FileState(FailedState) {
            failed := true;
          } else if o.reply.None? {
            failed := true;
          } else {
            var jsonStr := CleanFences(o.reply.value);
            var analysis := o.parse(jsonStr);
            if analysis.None? || !o.successWriteOk {
              failed := true;
            } else {
              assert Analyze(o) == Classified(analysis.value.sensitivity);
              var v := videos[id];
              var sensitivity := CompletedSensitivity(v.sensitivity, analysis.value.sensitivity);
              videos := videos[id := v.(status := Completed, sensitivity := sensitivity)];
              if io {
                events := events + [videos[id]];
              }
              outcome := Classified(analysis.value.sensitivity);
            }
          }
        }
      }
      assert failed <==> Analyze(o).AnalysisFailed?;
      if failed {
        outcome := AnalysisFailed;
        if o.errorWriteOk {
          var v := videos[id];
          videos := videos[id := v.(status := Error)];
          if io {
            events := events + [videos[id]];
          }
        }
      }
    }
  }

  /** The loop ends on the first answer that is not `PROCESSING`; a `FAILED`
      answer, or a poll that throws, makes the run fail. */
  lemma FailedStateRaises(o: Oracle, i: nat)
    requires o.uploadOk && FirstSettled(o.probes) == Some(i)
    requires o.probes[i] == FileState(FailedState) || o.probes[i] == ProbeFailed
    ensures Analyze(o) == AnalysisFailed
  {
  }

  /** Any other state proceeds to classification: with a reply whose cleaned
      text parses to `t` and a successful update, the record becomes
      Completed with `t` as its sensitivity, whatever that text is. */
  lemma OtherStatesProceed(v: VideoRecord, o: Oracle, i: nat, t: string)
    requires o.uploadOk && FirstSettled(o.probes) == Some(i)
    requires o.probes[i].FileState? && o.probes[i].state != FailedState
    requires o.reply.Some? && o.parse(CleanFences(o.reply.value)) == Some(Parsed(Some(t)))
    requires o.successWriteOk
    ensures AfterRun(v, o) == Some(v.(status := Completed, sensitivity := SensitivityFromText(t)))
  {
  }

  /** `n` more `PROCESSING` answers in front move the answer that ends the
      loop `n` places back. */
  lemma {:induction false} FirstSettledAfterPolling(probes: seq<Probe>, n: nat)
    ensures FirstSettled(seq(n, _ => Polling) + probes) ==
      match FirstSettled(probes) case None => None case Some(i) => Some(i + n)
    decreases n
  {
    if n > 0 {
      var more := seq(n, _ => Polling) + probes;
      var fewer := seq(n - 1, _ => Polling) + probes;
      assert more[1..] == fewer;
      assert more[0] == Polling;
      FirstSettledAfterPolling(probes, n - 1);
    } else {
      assert seq(n, _ => Polling) + probes == probes;
    }
  }

  /** Prefixing more `PROCESSING` answers only delays the same outcome. */
  lemma PollingDelaysOnly(o: Oracle, n: nat)
    ensures Analyze(o.(probes := seq(n, _ => Polling) + o.probes)) == Analyze(o)
  {
    var p := o.(probes := seq(n, _ => Polling) + o.probes);
    FirstSettledAfterPolling(o.probes, n);
    if FirstSettled(o.probes).Some? {
      var i := FirstSettled(o.probes).value;
      assert p.probes[i + n] == o.probes[i];
    }
  }

  /** A classification outside Safe/Flagged is stored as it came: the
      completed record then holds a sensitivity outside the schema's enum. */
  lemma UnlistedVerdictIsStored(v: VideoRecord, o: Oracle, t: string)
    requires Analyze(o) == Classified(Some(t))
    requires t !in {"Unchecked", "Safe", "Flagged"}
    ensures AfterRun(v, o) == Some(v.(status := Completed, sensitivity := Unlisted(t)))
    ensures !SchemaValid(AfterRun(v, o).value)
  {
  }

  /** The Error status the failure path writes lies outside the schema's
      status enum. */
  lemma ErrorRecordOutsideSchema(v: VideoRecord, o: Oracle)
    requires AfterRun(v, o).Some? && Analyze(o).AnalysisFailed?
    ensures AfterRun(v, o).value.status == Error
    ensures !SchemaValid(AfterRun(v, o).value)
  {
  }

  /** A reply whose cleaned text does not parse ends in Error, sensitivity
      untouched. */
  lemma UnparsableReplyMarksError(v: VideoRecord, o: Oracle, i: nat)
    requires o.uploadOk && FirstSettled(o.probes) == Some(i)
    requires o.probes[i].FileState? && o.probes[i].state != FailedState
    requires o.reply.Some? && o.parse(CleanFences(o.reply.value)).None?
    requires o.errorWriteOk
    ensures AfterRun(v, o) == Some(v.(status := Error))
  {
  }

  /** A reply wrapped as a fenced `json` block reaches the parser unwrapped. */
  lemma FencedReplyParsedUnwrapped(o: Oracle, i: nat, body: string)
    requires o.uploadOk && FirstSettled(o.probes) == Some(i)
    requires o.probes[i].FileState? && o.probes[i].state != FailedState
    requires '`' !in body && o.reply == Some(JsonFence + body + Fence)
    requires o.successWriteOk && o.parse(Trim(body)).Some?
    ensures Analyze(o) == Classified(o.parse(Trim(body)).value.sensitivity)
  {
    CleanFencedJsonBlock(body);
  }

  /** A reply that parses to a value without a `sensitivity` property raises
      nothing: the record is still marked Completed, and its sensitivity stays
      what it was, Unchecked for a freshly uploaded record. */
  lemma ReplyWithoutSensitivityCompletes(v: VideoRecord, o: Oracle, i: nat)
    requires o.uploadOk && FirstSettled(o.probes) == Some(i)
    requires o.probes[i].FileState? && o.probes[i].state != FailedState
    requires o.reply.Some? && o.parse(CleanFences(o.reply.value)) == Some(Parsed(None))
    requires o.successWriteOk
    ensures Analyze(o) == Classified(None)
    ensures AfterRun(v, o) == Some(v.(status := Completed))
  {
  }
}
