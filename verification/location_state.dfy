/**
 * The browsing session's selection state (hooks/useLocationState.ts): the selected country,
 * video and location, the favourite location ids with their persisted copy, the filters panel
 * flag and the search text, with each handler as a pure transition.
 */
module LocationState {
  import opened Wrappers
  import opened Types

  /**
   * `stored` is the value last written under the `favorites` key of the browser's local
   * storage, as a parsed list (`None` when nothing was ever written).
   */
  datatype State = State(
    selectedLocation: Option<Location>,
    selectedCountry: Option<string>,
    selectedVideo: Option<string>,
    favourites: seq<string>,
    stored: Option<seq<string>>,
    isFiltersOpen: bool,
    searchQuery: string)

  /** The session once the favourites have been loaded from `stored`. */
  function Init(stored: Option<seq<string>>): (s: State)
    ensures stored.Some? ==> s.favourites == stored.value
    ensures stored.None? ==> s.favourites == []
    ensures s.stored == stored
    ensures s.selectedLocation.None? && s.selectedCountry.None? && s.selectedVideo.None?
    ensures !s.isFiltersOpen && s.searchQuery == ""
  {
    State(None, None, None, stored.GetOr([]), stored, false, "")
  }

  /** `name === current ? null : name`, where a missing selection never equals a name. */
  function Toggle(current: Option<string>, name: string): (r: Option<string>)
    ensures r.None? <==> current == Some(name)
    ensures r.Some? ==> r.value == name
  {
    if current == Some(name) then None else Some(name)
  }

  /** Toggling the same name twice restores exactly the selections that were empty or that name. */
  lemma ToggleTwice(current: Option<string>, name: string)
    ensures Toggle(Toggle(current, name), name) == current <==> current.None? || current == Some(name)
  {
  }

  /** Toggling `a` and then a different `b` always ends on `b`, whatever was selected before. */
  lemma ToggleTwoNames(current: Option<string>, a: string, b: string)
    requires a != b
    ensures Toggle(Toggle(current, a), b) == Some(b)
    ensures Toggle(Toggle(current, a), b) == current <==> current == Some(b)
  {
  }

  /** `handleCountryClick`: toggle the country and always clear the video. */
  function CountryClick(s: State, name: string): (r: State)
    ensures r.selectedCountry.None? <==> s.selectedCountry == Some(name)
    ensures r.selectedCountry.Some? ==> r.selectedCountry.value == name
    ensures r.selectedVideo.None?
    ensures r == s.(selectedCountry := r.selectedCountry, selectedVideo := None)
  {
    s.(selectedCountry := Toggle(s.selectedCountry, name), selectedVideo := None)
  }

  /** `handleVideoClick`: toggle the video; the country stays selected. */
  function VideoClick(s: State, videoId: string): (r: State)
    ensures r.selectedVideo.None? <==> s.selectedVideo == Some(videoId)
    ensures r.selectedVideo.Some? ==> r.selectedVideo.value == videoId
    ensures r == s.(selectedVideo := r.selectedVideo)
  {
    s.(selectedVideo := Toggle(s.selectedVideo, videoId))
  }

  /** Clicking country `a` and then country `b` selects `b`; the first selection is lost. */
  lemma CountryClickTwoNames(s: State, a: string, b: string)
    requires a != b
    ensures CountryClick(CountryClick(s, a), b).selectedCountry == Some(b)
    ensures CountryClick(CountryClick(s, a), b) == s.(selectedCountry := Some(b), selectedVideo := None)
  {
    ToggleTwoNames(s.selectedCountry, a, b);
  }

  /** `filter(id => id !== x)`. */
  function RemoveAll(s: seq<string>, x: string): (r: seq<string>)
    ensures x !in r
    ensures forall y :: y != x ==> (y in r <==> y in s)
  {
    if |s| == 0 then []
    else
      var init, y := s[..|s| - 1], s[|s| - 1];
      assert s == init + [y];
      RemoveAll(init, x) + (if y == x then [] else [y])
  }

  /** Removal drops every copy of `x` and keeps every other element as often as it occurred. */
  lemma {:induction false} RemoveAllCounts(s: seq<string>, x: string)
    ensures multiset(RemoveAll(s, x)) == multiset(s)[x := 0]
    decreases |s|
  {
    if |s| > 0 {
      var init, y := s[..|s| - 1], s[|s| - 1];
      assert s == init + [y];
      RemoveAllCounts(init, x);
    }
  }

  /** Removal keeps the relative order: it distributes over concatenation. */
  lemma {:induction false} RemoveAllAppend(a: seq<string>, b: seq<string>, x: string)
    ensures RemoveAll(a + b, x) == RemoveAll(a, x) + RemoveAll(b, x)
    decreases |b|
  {
    if |b| == 0 {
      assert a + b == a;
    } else {
      var init, y := b[..|b| - 1], b[|b| - 1];
      assert a + b == (a + init) + [y];
      assert b == init + [y];
      RemoveAllAppend(a, init, x);
    }
  }

  /** Removing an id that is not there leaves the list equal. */
  lemma {:induction false} RemoveAllAbsent(s: seq<string>, x: string)
    requires x !in s
    ensures RemoveAll(s, x) == s
    decreases |s|
  {
    if |s| > 0 {
      assert s == s[..|s| - 1] + [s[|s| - 1]];
      RemoveAllAbsent(s[..|s| - 1], x);
    }
  }

  /** `addFavouriteLocation`: append (even a duplicate) and persist the new list. */
  function AddFavourite(s: State, id: string): (r: State)
    ensures |r.favourites| == |s.favourites| + 1
    ensures r.favourites[..|s.favourites|] == s.favourites && r.favourites[|s.favourites|] == id
    ensures r.stored == Some(r.favourites)
    ensures r == s.(favourites := r.favourites, stored := r.stored)
  {
    var updated := s.favourites + [id];
    s.(favourites := updated, stored := Some(updated))
  }

  /** `removeFavouriteLocation`: drop every occurrence and persist the new list. */
  function RemoveFavourite(s: State, id: string): (r: State)
    ensures id !in r.favourites
    ensures forall y :: y != id ==> (y in r.favourites <==> y in s.favourites)
    ensures multiset(r.favourites) == multiset(s.favourites)[id := 0]
    ensures r.stored == Some(r.favourites)
    ensures r == s.(favourites := r.favourites, stored := r.stored)
  {
    var updated := RemoveAll(s.favourites, id);
    RemoveAllCounts(s.favourites, id);
    s.(favourites := updated, stored := Some(updated))
  }

  /** Adding is not idempotent: a second add of the same id grows the list again. */
  lemma AddFavouriteNotIdempotent(s: State, id: string)
    ensures AddFavourite(AddFavourite(s, id), id) != AddFavourite(s, id)
    ensures multiset(AddFavourite(AddFavourite(s, id), id).favourites)[id] == multiset(s.favourites)[id] + 2
  {
    assert |AddFavourite(AddFavourite(s, id), id).favourites| == |s.favourites| + 2;
  }

  /** Removing an id that is not a favourite changes nothing but the persisted copy. */
  lemma RemoveAbsentFavourite(s: State, id: string)
    requires id !in s.favourites
    ensures RemoveFavourite(s, id).favourites == s.favourites
  {
    RemoveAllAbsent(s.favourites, id);
  }

  /** Adding and then removing the same id removes every earlier copy too. */
  lemma AddThenRemove(s: State, id: string)
    ensures RemoveFavourite(AddFavourite(s, id), id).favourites == RemoveAll(s.favourites, id)
    ensures id !in s.favourites ==> RemoveFavourite(AddFavourite(s, id), id).favourites == s.favourites
  {
    RemoveAllAppend(s.favourites, [id], id);
    assert RemoveAll([id], id) == [] by {
      assert [id][..0] == [];
    }
    if id !in s.favourites {
      RemoveAllAbsent(s.favourites, id);
    }
  }

  /** `setSearchQuery`: only the search text changes. */
  function SetSearchQuery(s: State, text: string): (r: State)
    ensures r.searchQuery == text
    ensures r == s.(searchQuery := text)
  {
    s.(searchQuery := text)
  }
}
