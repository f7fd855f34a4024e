/** The `Video` document (server/models/Video.js): its fields, the two string
    enums, the defaults and the `trim`/`required` rules a new document is
    validated against when it is created. */
module VideoModel {
  import opened Wrappers
  import opened Text

  /** Document ids and user ids are opaque; naturals stand for them. */
  type VideoId = nat
  type UserId = nat

  /** Every value the server ever stores in `status`: the schema's enum
      (Pending, Processing, Completed) and the `'Error'` that the analysis
      pipeline writes through an update, which does not run the enum check. */
  datatype Status = Pending | Processing | Completed | Error

  /** The values the schema's `status` enum admits. */
  predicate InStatusEnum(s: Status) {
    s != Error
  }

  /** A sensitivity value: the schema's three enum members, or any other text a
      classification reply carried (the completion update stores it unchecked). */
  datatype Sensitivity = Unchecked | Safe | Flagged | Unlisted(text: string)

  /** The values the schema's `sensitivity` enum admits. */
  predicate InSensitivityEnum(s: Sensitivity) {
    !s.Unlisted?
  }

  /** The stored string of a status. */
  function StatusText(s: Status): (t: string)
    ensures InStatusEnum(s) <==> t in {"Pending", "Processing", "Completed"}
    ensures s == Error ==> t == "Error"
  {
    match s
    case Pending => "Pending"
    case Processing => "Processing"
    case Completed => "Completed"
    case Error => "Error"
  }

  /** The stored string of a sensitivity. */
  function SensitivityText(s: Sensitivity): string {
    match s
    case Unchecked => "Unchecked"
    case Safe => "Safe"
    case Flagged => "Flagged"
    case Unlisted(t) => t
  }

  /** Reads a stored sensitivity string; printing the result gives the text back. */
  function SensitivityFromText(t: string): (s: Sensitivity)
    ensures SensitivityText(s) == t
    ensures InSensitivityEnum(s) <==> t in {"Unchecked", "Safe", "Flagged"}
  {
    if t == "Unchecked" then Unchecked
    else if t == "Safe" then Safe
    else if t == "Flagged" then Flagged
    else Unlisted(t)
  }

  /** A sensitivity is canonical when an `Unlisted` value does not spell one of
      the enum members. */
  predicate CanonicalSensitivity(s: Sensitivity) {
    s.Unlisted? ==> s.text !in {"Unchecked", "Safe", "Flagged"}
  }

  /** Printing a canonical sensitivity and reading it back gives it back. */
  lemma SensitivityTextRoundTrip(s: Sensitivity)
    requires CanonicalSensitivity(s)
    ensures SensitivityFromText(SensitivityText(s)) == s
  {
    match s
    case Unlisted(t) =>
      assert t != "Unchecked" && t != "Safe" && t != "Flagged";
    case _ =>
  }

  /** A stored video document. */
  datatype VideoRecord = VideoRecord(
    id: VideoId,
    title: string,
    filename: string,
    filepath: string,
    size: nat,
    uploader: UserId,
    status: Status,
    sensitivity: Sensitivity,
    createdAt: int)

  /** What a caller hands to `Video.create`; a field left out takes the
      schema default (only `status` is ever left out or given). */
  datatype VideoFields = VideoFields(
    title: string,
    filename: string,
    filepath: string,
    size: nat,
    uploader: UserId,
    status: Option<Status>)

  /** The schema's validation of a stored document: the required strings are
      non-empty, `title` carries no surrounding whitespace, and both enums hold. */
  predicate SchemaValid(v: VideoRecord) {
    && v.title != [] && Trim(v.title) == v.title
    && v.filename != [] && v.filepath != []
    && InStatusEnum(v.status) && InSensitivityEnum(v.sensitivity)
  }

  /** `Video.create(fields)` at time `now` (milliseconds) under the id `id`:
      `title` is trimmed by its setter, `status` defaults to Pending,
      `sensitivity` to Unchecked and `createdAt` to the creation time; a
      required string that is empty (after trimming, for `title`) or a status
      outside the enum fails validation, which is `None` (the call rejects). */
  function NewVideo(id: VideoId, f: VideoFields, now: int): (r: Option<VideoRecord>)
    ensures r.Some? <==>
      Trim(f.title) != [] && f.filename != [] && f.filepath != []
      && (f.status.Some? ==> InStatusEnum(f.status.value))
    ensures r.Some? ==> SchemaValid(r.value)
    ensures r.Some? ==>
      && r.value.id == id && r.value.createdAt == now
      && r.value.title == Trim(f.title) && r.value.uploader == f.uploader
      && r.value.filename == f.filename && r.value.filepath == f.filepath
      && r.value.size == f.size
    ensures r.Some? ==>
      && r.value.sensitivity == Unchecked
      && r.value.status == (if f.status.Some? then f.status.value else Pending)
  {
    var title := Trim(f.title);
    var status := if f.status.Some? then f.status.value else Pending;
    if title == [] || f.filename == [] || f.filepath == [] || !InStatusEnum(status) then None
    else
      TrimOfTrimmed(title);
      Some(VideoRecord(id, title, f.filename, f.filepath, f.size, f.uploader,
                       status, Unchecked, now))
  }
}
