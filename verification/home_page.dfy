/**
 * The home page's wiring (pages/index.tsx): the panel, details and reset handlers, and the
 * map input, which is the annotated location list derived from the current search text and
 * selections.
 */
module HomePage {
  import opened Wrappers
  import opened Unicode
  import opened Types
  import opened Locations
  import opened LocationState

  /** The filters panel's toggle button: flip the flag, nothing else. */
  function ToggleFilters(s: State): (r: State)
    ensures r.isFiltersOpen != s.isFiltersOpen
    ensures r == s.(isFiltersOpen := r.isFiltersOpen)
  {
    s.(isFiltersOpen := !s.isFiltersOpen)
  }

  /** The reset button: clear both selections, nothing else. */
  function ResetFilters(s: State): (r: State)
    ensures r.selectedCountry.None? && r.selectedVideo.None?
    ensures r == s.(selectedCountry := None, selectedVideo := None)
  {
    s.(selectedCountry := None, selectedVideo := None)
  }

  /** Picking a location in the list or on the map opens its details. */
  function SelectLocation(s: State, l: Location): (r: State)
    ensures r.selectedLocation == Some(l)
    ensures r == s.(selectedLocation := Some(l))
  {
    s.(selectedLocation := Some(l))
  }

  /** Closing the details panel. */
  function CloseDetails(s: State): (r: State)
    ensures r.selectedLocation.None?
    ensures r == s.(selectedLocation := None)
  {
    s.(selectedLocation := None)
  }

  /** The country index the filters panel shows for the current search text. */
  function Countries(s: State, videos: seq<Video>, ops: TextOps): seq<CountryData> {
    BuildCountries(videos, s.searchQuery, ops)
  }

  /** The list handed to the map: every location with its flag for the current state. */
  function MapInput(s: State, videos: seq<Video>, ops: TextOps): (r: seq<AnnotatedLocation>)
    ensures |r| == TotalLocations(videos)
    ensures forall i :: 0 <= i < |r| ==> r[i].location == AllLocations(videos)[i]
  {
    AnnotateLocations(videos, Countries(s, videos, ops), s.selectedCountry, s.selectedVideo)
  }

  /** The map input depends only on the search text and the two selections. */
  lemma MapInputDependsOnFilters(s: State, t: State, videos: seq<Video>, ops: TextOps)
    requires s.searchQuery == t.searchQuery
    requires s.selectedCountry == t.selectedCountry && s.selectedVideo == t.selectedVideo
    ensures MapInput(s, videos, ops) == MapInput(t, videos, ops)
  {
  }

  /** Panel, details and favourites handlers leave the map input as it was. */
  lemma HandlersKeepMapInput(s: State, videos: seq<Video>, ops: TextOps, l: Location, id: string)
    ensures MapInput(ToggleFilters(s), videos, ops) == MapInput(s, videos, ops)
    ensures MapInput(SelectLocation(s, l), videos, ops) == MapInput(s, videos, ops)
    ensures MapInput(CloseDetails(s), videos, ops) == MapInput(s, videos, ops)
    ensures MapInput(AddFavourite(s, id), videos, ops) == MapInput(s, videos, ops)
    ensures MapInput(RemoveFavourite(s, id), videos, ops) == MapInput(s, videos, ops)
  {
    MapInputDependsOnFilters(ToggleFilters(s), s, videos, ops);
    MapInputDependsOnFilters(SelectLocation(s, l), s, videos, ops);
    MapInputDependsOnFilters(CloseDetails(s), s, videos, ops);
    MapInputDependsOnFilters(AddFavourite(s, id), s, videos, ops);
    MapInputDependsOnFilters(RemoveFavourite(s, id), s, videos, ops);
  }

  /** After a reset no marker is dimmed, whatever the search text. */
  lemma ResetShowsAll(s: State, videos: seq<Video>, ops: TextOps)
    ensures forall a :: a in MapInput(ResetFilters(s), videos, ops) ==> !a.isFilteredOut
  {
    var r := ResetFilters(s);
    NoSelectionFlagsNothing(videos, Countries(r, videos, ops), r.selectedCountry, r.selectedVideo);
  }

  /**
   * After a country click the video selection no longer plays a part: a location is dimmed
   * exactly when the country was selected and its index bucket lacks the location's id.
   */
  lemma CountryClickDecides(s: State, name: string, videos: seq<Video>, ops: TextOps)
    ensures var r := CountryClick(s, name);
      var input := MapInput(r, videos, ops);
      var bucket := Lookup(Countries(r, videos, ops), name);
      forall i :: 0 <= i < |input| ==>
        (input[i].isFilteredOut <==>
          r.selectedCountry.Some? && name != "" &&
          (bucket.None? || !Arrays.HasKey(bucket.value.locations, LocationId, input[i].location.id)))
  {
  }

  /** The country row of the filters panel is expanded exactly for the selected country. */
  predicate CountryExpanded(s: State, b: CountryData) {
    s.selectedCountry == Some(b.name)
  }

  /** A video row is expanded exactly for the selected video. */
  predicate VideoExpanded(s: State, v: Video) {
    s.selectedVideo == Some(v.videoId)
  }

  /** After a country click at most that country's row is expanded and no video row is. */
  lemma CountryClickExpansion(s: State, name: string, b: CountryData, v: Video)
    ensures CountryExpanded(CountryClick(s, name), b) <==> b.name == name && s.selectedCountry != Some(name)
    ensures !VideoExpanded(CountryClick(s, name), v)
  {
  }
}
