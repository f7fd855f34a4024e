/** The video library page (client/src/pages/Dashboard.jsx): the list held in
    its state, the replacement applied on a `video_processed` event, and what
    each video card shows. `VideoCard` is declared inside `Dashboard`, so
    every re-render of the page creates a new component type and React
    mounts every card afresh: a card's `isRevealed` state lasts only until
    the page renders again. */
module Dashboard {
  import opened VideoModel

  /** `prev.map(v => v._id === updated._id ? updated : v)`. */
  function ApplyProcessedEvent(videos: seq<VideoRecord>, updated: VideoRecord): (r: seq<VideoRecord>)
    ensures |r| == |videos|
    ensures forall i | 0 <= i < |videos| ::
      r[i] == (if videos[i].id == updated.id then updated else videos[i])
  {
    seq(|videos|, i requires 0 <= i < |videos| =>
      if videos[i].id == updated.id then updated else videos[i])
  }

  /** An event for a video the list does not hold leaves the list as it is. */
  lemma EventForUnknownVideo(videos: seq<VideoRecord>, updated: VideoRecord)
    requires forall i | 0 <= i < |videos| :: videos[i].id != updated.id
    ensures ApplyProcessedEvent(videos, updated) == videos
  {
  }

  /** Applying the same event twice is applying it once. */
  lemma ApplyProcessedEventIdempotent(videos: seq<VideoRecord>, updated: VideoRecord)
    ensures ApplyProcessedEvent(ApplyProcessedEvent(videos, updated), updated)
         == ApplyProcessedEvent(videos, updated)
  {
  }

  /** Events for two different videos may arrive in either order. */
  lemma EventsForDistinctVideosCommute(videos: seq<VideoRecord>, a: VideoRecord, b: VideoRecord)
    requires a.id != b.id
    ensures ApplyProcessedEvent(ApplyProcessedEvent(videos, a), b)
         == ApplyProcessedEvent(ApplyProcessedEvent(videos, b), a)
  {
  }

  /** The ids in the list, in order, never change: an event only replaces
      entries in place. */
  lemma EventKeepsIds(videos: seq<VideoRecord>, updated: VideoRecord)
    ensures forall i | 0 <= i < |videos| :: ApplyProcessedEvent(videos, updated)[i].id == videos[i].id
  {
  }

  /** What a card shows for a video. */
  datatype CardView = CardView(
    processingPlaceholder: bool,  // the pulsing PROCESSING tile
    blurred: bool,                // the blurred, scaled thumbnail
    sensitiveOverlay: bool,       // SENSITIVE CONTENT, click to reveal
    playLink: bool,               // the play button linking to the watch page
    analysingBadge: bool,         // "Analysing..."
    sensitivityLabel: bool)       // the sensitivity text, only once Completed

  predicate IsProcessing(v: VideoRecord) {
    v.status == Processing
  }

  predicate IsFlagged(v: VideoRecord) {
    SensitivityText(v.sensitivity) == "Flagged"
  }

  /** The card of `video`, given its `isRevealed` state. */
  function Card(video: VideoRecord, revealed: bool): (c: CardView)
    ensures c.processingPlaceholder <==> video.status == Processing
    ensures c.processingPlaceholder ==> !c.blurred && !c.sensitiveOverlay
    ensures c.playLink <==> !c.processingPlaceholder
    ensures c.sensitiveOverlay <==> !IsProcessing(video) && IsFlagged(video) && !revealed
    ensures c.blurred <==> c.sensitiveOverlay
    ensures c.sensitivityLabel <==> video.status == Completed
    ensures c.analysingBadge <==> c.processingPlaceholder
  {
    var processing := IsProcessing(video);
    var flagged := IsFlagged(video);
    CardView(
      processing,
      !processing && flagged && !revealed,
      !processing && flagged && !revealed,
      !processing,
      processing,
      video.status == Completed)
  }

  /** A card whose video is Completed with the Flagged verdict hides its
      thumbnail until the viewer reveals it, and then shows it. */
  lemma RevealLiftsOverlay(video: VideoRecord)
    requires video.status == Completed && video.sensitivity == Flagged
    ensures Card(video, false).sensitiveOverlay && Card(video, false).sensitivityLabel
    ensures !Card(video, true).sensitiveOverlay && !Card(video, true).blurred
  {
  }

  /** A record marked Error shows neither the overlay nor a label unless it is
      Flagged, and never the processing tile. */
  lemma ErrorCard(video: VideoRecord, revealed: bool)
    requires video.status == Error
    ensures !Card(video, revealed).processingPlaceholder && !Card(video, revealed).sensitivityLabel
    ensures Card(video, revealed).sensitiveOverlay <==> IsFlagged(video) && !revealed
  {
  }

  /** The page's state: the list, the loading flag, and the ids of the
      mounted cards that have been revealed. */
  class DashboardPage {
    var videos: seq<VideoRecord>
    var loading: bool
    var revealed: set<VideoId>

    constructor()
      ensures videos == [] && loading && revealed == {}
    {
      videos := [];
      loading := true;
      revealed := {};
    }

    /** What the card of the `i`-th video shows now; cards are rendered only
        once loading has ended. */
    function CardAt(i: nat): CardView
      reads this
      requires !loading && i < |videos|
    {
      Card(videos[i], videos[i].id in revealed)
    }

    /** Clicking the overlay of a card sets its `isRevealed`. */
    method Reveal(id: VideoId)
      modifies this
      ensures revealed == old(revealed) + {id}
      ensures videos == old(videos) && loading == old(loading)
      ensures forall i | 0 <= i < |videos| && !loading && videos[i].id == id ::
        !CardAt(i).sensitiveOverlay && !CardAt(i).blurred
    {
      revealed := revealed + {id};
    }

    /** A successful fetch replaces the list and ends loading; the page
      renders again, so every card is mounted afresh. */
    method OnFetchSuccess(data: seq<VideoRecord>)
      modifies this
      ensures videos == data && !loading && revealed == {}
      ensures forall i | 0 <= i < |videos| :: CardAt(i) == Card(videos[i], false)
    {
      videos := data;
      loading := false;
      revealed := {};
    }

    /** A failed fetch ends loading and asks for a redirect to the login page
        when the server answered 401; the list is kept. A page that had
        already stopped loading does not render again. */
    method OnFetchFailure(status: nat) returns (redirectToLogin: bool)
      modifies this
      ensures redirectToLogin <==> status == 401
      ensures videos == old(videos) && !loading
      ensures revealed == if old(loading) then {} else old(revealed)
    {
      redirectToLogin := status == 401;
      if loading {
        revealed := {};
      }
      loading := false;
    }

    /** A `video_processed` event replaces the matching entries; the new list
        makes the page render again, so every card is mounted afresh. The
        handler then fetches the list again (`OnFetchSuccess` or
        `OnFetchFailure`). */
    method OnProcessedEvent(updated: VideoRecord)
      modifies this
      ensures videos == ApplyProcessedEvent(old(videos), updated)
      ensures loading == old(loading) && revealed == {}
      ensures forall i | 0 <= i < |videos| && !loading :: CardAt(i) == Card(videos[i], false)
    {
      videos := ApplyProcessedEvent(videos, updated);
      revealed := {};
    }
  }
}
