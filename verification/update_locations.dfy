/**
 * The scraper's merge step (scripts/youtube-scraper/src/update-locations.ts): freshly
 * scraped videos keep the location lists that were already attached to the same video in the
 * dataset. The two files come in as values; the existing one is `None` when it cannot be read
 * or parsed.
 */
module UpdateLocations {
  import opened Wrappers
  import opened Types

  /** A location as the scraper's files hold it. */
  datatype ScrapedLocation = ScrapedLocation(
    id: string,
    name: string,
    description: string,
    latitude: real,
    longitude: real,
    address: string,
    country: string,
    cuisine: seq<string>,
    isStillOperating: bool,
    websiteUrl: Option<string>,
    locationType: LocationType)

  datatype ScrapedVideo = ScrapedVideo(
    videoId: string,
    videoUrl: string,
    title: string,
    playlistId: string,
    playlistTitle: string,
    date: string,
    show: string,
    locations: seq<ScrapedLocation>)

  datatype LocationData = LocationData(videos: seq<ScrapedVideo>)

  /**
   * `existingVideosMap`: every existing video with at least one location, by id; a later
   * video with the same id overwrites an earlier one.
   */
  function ExistingMap(vs: seq<ScrapedVideo>): (m: map<string, ScrapedVideo>)
    ensures forall id :: id in m ==> m[id].videoId == id && |m[id].locations| > 0 && m[id] in vs
    ensures forall id :: id in m <==> exists v :: v in vs && v.videoId == id && |v.locations| > 0
  {
    if |vs| == 0 then map[]
    else
      var init, v := vs[..|vs| - 1], vs[|vs| - 1];
      assert vs == init + [v];
      var m := ExistingMap(init);
      if |v.locations| > 0 then m[v.videoId := v] else m
  }

  /** The last existing video with locations wins among those sharing its id. */
  lemma {:induction false} ExistingMapLastWins(vs: seq<ScrapedVideo>, i: nat)
    requires i < |vs| && |vs[i].locations| > 0
    requires forall j :: i < j < |vs| && vs[j].videoId == vs[i].videoId ==> |vs[j].locations| == 0
    ensures ExistingMap(vs)[vs[i].videoId] == vs[i]
    decreases |vs|
  {
    var init, v := vs[..|vs| - 1], vs[|vs| - 1];
    if i < |vs| - 1 {
      assert init[i] == vs[i];
      ExistingMapLastWins(init, i);
    }
  }

  /** One new video: it takes the existing locations when the map has its id. */
  function MergeVideo(m: map<string, ScrapedVideo>, newVideo: ScrapedVideo): ScrapedVideo {
    if newVideo.videoId in m then newVideo.(locations := m[newVideo.videoId].locations)
    else newVideo
  }

  /** `mergedVideos`: the new videos in order, each merged with the existing map. */
  function MergeVideos(newVideos: seq<ScrapedVideo>, existing: seq<ScrapedVideo>)
    : (r: seq<ScrapedVideo>)
    ensures |r| == |newVideos|
    ensures forall i :: 0 <= i < |r| ==>
      r[i].(locations := newVideos[i].locations) == newVideos[i]
    ensures forall i :: 0 <= i < |r| ==>
      if exists v :: v in existing && v.videoId == newVideos[i].videoId && |v.locations| > 0
      then |r[i].locations| > 0 &&
        exists v :: v in existing && v.videoId == newVideos[i].videoId && v.locations == r[i].locations
      else r[i] == newVideos[i]
  {
    var m := ExistingMap(existing);
    seq(|newVideos|, i requires 0 <= i < |newVideos| => MergeVideo(m, newVideos[i]))
  }

  /** The whole script: an unreadable existing file counts as one with no videos. */
  function UpdateLocations(newData: LocationData, existingFile: Option<LocationData>)
    : (r: LocationData)
    ensures |r.videos| == |newData.videos|
    ensures existingFile.None? ==> r == newData
    ensures existingFile.Some? ==> r.videos == MergeVideos(newData.videos, existingFile.value.videos)
  {
    var existing := match existingFile case Some(d) => d.videos case None => [];
    LocationData(MergeVideos(newData.videos, existing))
  }

  /** Existing videos without locations are never consulted. */
  lemma MergeIgnoresEmpty(newVideos: seq<ScrapedVideo>, existing: seq<ScrapedVideo>,
                          v: ScrapedVideo)
    requires |v.locations| == 0
    ensures MergeVideos(newVideos, existing + [v]) == MergeVideos(newVideos, existing)
  {
    assert (existing + [v])[..|existing|] == existing;
  }

  /** Merging the output with the same existing data again changes nothing. */
  lemma MergeIdempotent(newVideos: seq<ScrapedVideo>, existing: seq<ScrapedVideo>)
    ensures MergeVideos(MergeVideos(newVideos, existing), existing) == MergeVideos(newVideos, existing)
  {
  }

  /** The merged locations of a video are those of the last existing copy that had any. */
  lemma MergeTakesLastExisting(newVideos: seq<ScrapedVideo>, existing: seq<ScrapedVideo>,
                               i: nat, j: nat)
    requires i < |newVideos| && j < |existing|
    requires existing[j].videoId == newVideos[i].videoId && |existing[j].locations| > 0
    requires forall k :: j < k < |existing| && existing[k].videoId == existing[j].videoId ==>
      |existing[k].locations| == 0
    ensures MergeVideos(newVideos, existing)[i] == newVideos[i].(locations := existing[j].locations)
  {
    ExistingMapLastWins(existing, j);
  }
}
