/** `getVideos` (server/controllers/videoController.js, lines 163-172): the
    records whose uploader is the requester, newest first by `createdAt`, or
    500 when the query fails. */
module VideoListing {
  import opened VideoModel

  /** Newest first: `createdAt` never increases along the list. */
  predicate SortedNewestFirst(s: seq<VideoRecord>) {
    forall i, j :: 0 <= i < j < |s| ==> s[i].createdAt >= s[j].createdAt
  }

  /** `{ uploader: user }`: keeps, in order, every record of `user`, each as
      many times as it occurs, and nothing else. */
  function OwnedBy(videos: seq<VideoRecord>, user: UserId): (r: seq<VideoRecord>)
    ensures forall v :: multiset(r)[v] == if v.uploader == user then multiset(videos)[v] else 0
    ensures forall v :: v in r <==> v in videos && v.uploader == user
    ensures |r| <= |videos|
  {
    if videos == [] then []
    else
      var rest := OwnedBy(videos[1..], user);
      assert videos == [videos[0]] + videos[1..];
      if videos[0].uploader == user then [videos[0]] + rest else rest
  }

  /** A record no older than the head of a newest-first list can go in front. */
  lemma PrependSorted(x: VideoRecord, s: seq<VideoRecord>)
    requires SortedNewestFirst(s)
    requires s == [] || x.createdAt >= s[0].createdAt
    ensures SortedNewestFirst([x] + s)
  {
    var r := [x] + s;
    forall i, j | 0 <= i < j < |r|
      ensures r[i].createdAt >= r[j].createdAt
    {
      if i == 0 {
        assert r[j] == s[j - 1];
      } else {
        assert r[i] == s[i - 1] && r[j] == s[j - 1];
      }
    }
  }

  /** Puts `v` into a newest-first list before the first record that is not
      newer than it. */
  function InsertNewestFirst(v: VideoRecord, s: seq<VideoRecord>): (r: seq<VideoRecord>)
    requires SortedNewestFirst(s)
    ensures multiset(r) == multiset(s) + multiset{v}
    ensures SortedNewestFirst(r)
    ensures r != [] && (r[0] == v || (s != [] && r[0] == s[0]))
  {
    if s == [] then [v]
    else if v.createdAt >= s[0].createdAt then [v] + s
    else
      var rest := InsertNewestFirst(v, s[1..]);
      assert s == [s[0]] + s[1..];
      PrependSorted(s[0], rest);
      [s[0]] + rest
  }

  /** `.sort({ createdAt: -1 })`: the same records, newest first. Records with
      equal `createdAt` keep their relative order. */
  function SortNewestFirst(s: seq<VideoRecord>): (r: seq<VideoRecord>)
    ensures multiset(r) == multiset(s)
    ensures SortedNewestFirst(r)
  {
    if s == [] then []
    else
      assert s == [s[0]] + s[1..];
      InsertNewestFirst(s[0], SortNewestFirst(s[1..]))
  }

  /** `Video.find({ uploader: user }).sort({ createdAt: -1 })` on the stored
      records `videos`. */
  function UserListing(videos: seq<VideoRecord>, user: UserId): (r: seq<VideoRecord>)
    ensures SortedNewestFirst(r)
    ensures forall v :: multiset(r)[v] == if v.uploader == user then multiset(videos)[v] else 0
    ensures forall v :: v in r <==> v in videos && v.uploader == user
  {
    var mine := OwnedBy(videos, user);
    var r := SortNewestFirst(mine);
    assert forall v :: v in r <==> v in multiset(r);
    r
  }

  const FetchServerError: string := "Server Error fetching videos"

  /** The answer of `getVideos`: the listing as JSON, or an error status and
      message. */
  datatype ListResponse = Listed(records: seq<VideoRecord>) | ListFailed(status: int, message: string)

  /** `getVideos` on the stored records `videos`, with `findOk` telling
      whether the query resolves: the user's listing, or 500 when the
      database rejects the query. */
  function GetVideos(videos: seq<VideoRecord>, user: UserId, findOk: bool): (r: ListResponse)
    ensures r.Listed? <==> findOk
    ensures r.Listed? ==> SortedNewestFirst(r.records)
    ensures r.Listed? ==> forall v :: multiset(r.records)[v] == if v.uploader == user then multiset(videos)[v] else 0
    ensures r.ListFailed? ==> r == ListFailed(500, FetchServerError)
  {
    if findOk then Listed(UserListing(videos, user)) else ListFailed(500, FetchServerError)
  }

  /** No user ever sees another user's record. */
  lemma ListingIsolatesUsers(videos: seq<VideoRecord>, user: UserId, i: nat)
    requires i < |UserListing(videos, user)|
    ensures UserListing(videos, user)[i].uploader == user
  {
    assert UserListing(videos, user)[i] in UserListing(videos, user);
  }

  /** Listing is a function of the user's own records: records of other users
      added to or removed from the store do not change it. */
  lemma {:induction false} ListingIgnoresOthers(videos: seq<VideoRecord>, other: VideoRecord, user: UserId)
    requires other.uploader != user
    ensures OwnedBy(videos + [other], user) == OwnedBy(videos, user)
    decreases |videos|
  {
    if videos == [] {
      assert videos + [other] == [other];
      assert [other][1..] == [];
    } else {
      assert (videos + [other])[1..] == videos[1..] + [other];
      ListingIgnoresOthers(videos[1..], other, user);
    }
  }

  /** A newly created record, newer than everything its uploader already has,
      heads that uploader's listing. */
  lemma NewestUploadListedFirst(videos: seq<VideoRecord>, v: VideoRecord)
    requires forall w :: w in videos && w.uploader == v.uploader ==> w.createdAt < v.createdAt
    ensures UserListing(videos + [v], v.uploader) != []
    ensures UserListing(videos + [v], v.uploader)[0] == v
  {
    var r := UserListing(videos + [v], v.uploader);
    assert v in videos + [v];
    assert v in r;
    var k :| 0 <= k < |r| && r[k] == v;
    assert r[0].createdAt >= v.createdAt;
    assert r[0] in videos + [v] && r[0].uploader == v.uploader;
    assert r[0] !in videos;
  }
}
