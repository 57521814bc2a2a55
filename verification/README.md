# Maklowicz map: a Dafny model of the filtering core and the dataset helpers

The Maklowicz map is a Next.js site. It shows on a map the places visited in Robert
Makłowicz's travel videos. A static dataset of videos feeds it, and each video lists the
locations it visits. This project models the parts of the site that are plain logic. Each is
written as pure functions over immutable datatypes, and their properties are proved:

- **Country index** (`Locations`): the visitor types a search text, and the site groups the
  matching locations into one bucket per country. The buckets are sorted by name, each
  location id appears once per bucket and each video once.
- **Annotated map input** (`Locations`, `HomePage`): every location of the dataset carries an
  `isFilteredOut` flag. The flag is computed against the selected video, or failing that the
  selected country.
- **Browsing state** (`LocationState`, `HomePage`): a state record with the country and video
  toggles, the favourites and their persisted copy, the filters panel, the details panel and
  the reset button.
- **Title cleaner** (`VideoTitle`): `filterTitle` of the video parser script.
- **URL slugs and location ids** (`Slug`, `LocationParser.GenerateId`).
- **Helpers of the location-parser script** (`LocationParser`): the keyword classifiers, the
  string branches of `extractPlaceId`, and `createLocation`.
- **Dataset merge** (`UpdateLocations`): the scraper's merge step.
- **Small tables**:
  - Polish locatives (`CountryLocatives`);
  - the cluster bubble (`ClusterIcon`);
  - the marker icon (`MarkerIcons`) and its memo table (`IconCache`), and the two put
    together (`MarkerIconCache`);
  - the list emoji (`LocationIcon`).

Several pieces of the runtime are not modelled and instead enter as one parameter,
`Unicode.TextOps`:

- the Unicode case mapping (`toLowerCase`, `toUpperCase`);
- NFD normalisation (Unicode Standard Annex #15);
- `localeCompare`.

Every contract therefore holds for any such tables. Where a property needs a fact about them,
that fact is stated as a premise:

- sorting needs `ComparatorConnected` (any two names are ordered one way or the other);
- slug idempotence needs `FixesSlugText` (case mapping and NFD leave `[a-z0-9-]` alone).

`Unicode.AsciiOps` is one concrete instance, used for the worked examples. JavaScript
semantics are written out where they matter:

- the truthiness of `''`;
- leftmost, greedy regular-expression matching;
- `String.prototype.replace` with a string pattern, which replaces only the first copy;
- positional argument binding.

The helper modules model the built-ins the code calls:

- `Wrappers`: `Option`, `Result`;
- `JsString`: `trim`, `includes`, `indexOf`, `split`/`join`, `replace`;
- `Arrays`: `some`, `find`, push-unless-present.

## Model

| member | source | states |
|---|---|---|
| Locations.NormalizeQuery | hooks/useLocations.ts:8 | The query as compared is the lower-cased search text with the white runs cut off both ends, so it has no white space at either end |
| Locations.MatchingFromAppend | hooks/useLocations.ts:12-15 | The location filter distributes over concatenation, so the kept locations stay in the video's order |
| Locations.MatchingFromSingle | hooks/useLocations.ts:12-15 | One location is kept exactly when it matches |
| Locations.MatchingLocations | hooks/useLocations.ts:12-15 | A location is kept exactly when it is one of the video's locations and either its lower-cased name contains the query or the video matches (empty query, or query found in the lower-cased title) |
| Locations.BucketEntry | hooks/useLocations.ts:29-33 | A bucket's copy of a video is the video spread with only `locations` and `filterTitle` replaced: it carries the video's whole matching list and has `filterTitle` defaulted to the empty string |
| Locations.InsertSorted | hooks/useLocations.ts:38 | Inserting a bucket into a list sorted by the comparator keeps it sorted, needing only that the comparator orders every pair one way or the other |
| Locations.InsertNamesUnique | hooks/useLocations.ts:38 | Inserting a bucket with a new name keeps the bucket names distinct |
| Locations.SortByName | hooks/useLocations.ts:38 | The sort is a permutation (same multiset), is sorted by name under a connected comparator, and keeps names distinct |
| Locations.LookupAddLocation | hooks/useLocations.ts:19-34 | One location step creates its country's bucket if missing and records the location's id and the video entry once; every other bucket is unchanged |
| Locations.AddLocationStep | hooks/useLocations.ts:17-35 | Each location step keeps the invariant that every bucket equals the reference bucket for the videos and locations processed so far |
| Locations.IndexVideosIsRef | hooks/useLocations.ts:10-36 | After the whole `forEach`, the names are distinct and every country's bucket is exactly its reference bucket: the first landing location per id and the first entry per video id, in dataset order |
| Locations.CountryMatchesIff | hooks/useLocations.ts:8-15 | A location is among a country's matches exactly when it belongs to that country and some video lists it with the query empty, in the video's title, or in the location's name |
| Locations.ContributorsIff | hooks/useLocations.ts:27-34 | A video entry contributes to a country exactly when it is the bucket copy of a video with a landing location in that country |
| Locations.BucketIsRef | hooks/useLocations.ts:17-38 | Every bucket of the sorted index is exactly the reference bucket of its country, and that country has at least one landing location |
| Locations.BucketExistsIff | hooks/useLocations.ts:19-21 | The index has a bucket for a country exactly when some location of that country lands, and the bucket is then the reference bucket |
| Locations.CountriesSortedAndDistinct | hooks/useLocations.ts:38 | The buckets are sorted ascending by name under a connected `localeCompare`, and no two share a name |
| Locations.BucketLocations | hooks/useLocations.ts:19-25 | A bucket holds at least one location, all of its own country, each a landing location of some video, no id twice, and for each id the first landing location with it |
| Locations.BucketVideos | hooks/useLocations.ts:27-34 | A bucket holds at least one video, no video id twice, each the bucket copy of a video with a landing location in the country, with `filterTitle` set |
| Locations.LandingLocationRecorded | hooks/useLocations.ts:17-34 | Every landing location's country has a bucket holding its id and an entry for its video |
| Locations.LandsInIff | hooks/useLocations.ts:27-28 | A video contributes to a country exactly when one of its locations of that country lands |
| Locations.RefBucketLocations | hooks/useLocations.ts:19-25 | The reference bucket of a country with matches holds at least one location, each of that country, landing for some video, no id twice, and the first match with its id |
| Locations.RefBucketVideos | hooks/useLocations.ts:27-34 | The reference bucket of a country with matches holds at least one video, no video id twice, each the entry of a contributing video |
| Locations.ExpectedHere | hooks/useLocations.ts:19-34 | Recording one more location in its own country's bucket gives the reference bucket for the processed locations plus that one |
| Locations.LandsIff | hooks/useLocations.ts:8-25 | When ids identify locations, a dataset location is in its country's bucket exactly when it lands for some video that lists it |
| Locations.EmptyQueryKeepsAll | hooks/useLocations.ts:8-15 | With a query that is empty after lower-casing and trimming, every location of every video is indexed |
| Locations.AllLocations | hooks/useLocations.ts:42 | The flattened list holds exactly the locations listed by some video |
| Locations.AllLocationsSingle | hooks/useLocations.ts:42 | One video flattens to its own location list |
| Locations.AllLocationsAppend | hooks/useLocations.ts:42 | Flattening distributes over concatenation, so locations stay in dataset order |
| Locations.TotalLocations | hooks/useLocations.ts:56-59 | The summed lengths equal the length of the flattened location list |
| Locations.VideoCount | hooks/useLocations.ts:53-55 | The count of videos with locations is at most the number of videos and of locations, is zero exactly when there are no locations, and equals the number of videos exactly when every video has a location |
| Locations.VideoCountSingle | hooks/useLocations.ts:53-55 | One video counts once exactly when it has a location |
| Locations.VideoCountAppend | hooks/useLocations.ts:53-55 | Counts of videos with locations add up over concatenation |
| Locations.AnnotateLocations | hooks/useLocations.ts:41-51 | One annotated entry per location in flattened order, with the location itself unchanged, and as many entries as `totalLocations` |
| Locations.SelectedVideoDecides | hooks/useLocations.ts:45-46 | With a video selected, a location is flagged exactly when no video has that id or the first such video lists no location with its id |
| Locations.VideoTakesPrecedence | hooks/useLocations.ts:45-49 | With a video selected, the country selection and the index do not affect the result |
| Locations.UnknownVideoFlagsAll | hooks/useLocations.ts:46 | A selected video id that no video has flags every location |
| Locations.SelectedCountryDecides | hooks/useLocations.ts:47-48 | With only a country selected, a location is flagged exactly when the index has no bucket of that name or the bucket lacks its id |
| Locations.NoSelectionFlagsNothing | hooks/useLocations.ts:49 | With neither selection set, no location is flagged |
| Locations.SelectedCountryAgainstIndex | hooks/useLocations.ts:47-48 | Against the index of the current search, a country selection flags a location exactly when no landing location of that country has its id |
| Locations.VisibleLocations | components/map/Map.tsx:60-62 | The drawn markers are exactly the annotated entries that are not flagged |
| Locations.VisibleLocationsSingle | components/map/Map.tsx:61 | One entry is drawn exactly when it is not flagged |
| Locations.VisibleLocationsAppend | components/map/Map.tsx:61 | The marker filter distributes over concatenation, so markers keep the order and repetitions of the annotated list |
| LocationState.Init | hooks/useLocationState.ts:12-15 | After loading, the favourites are the stored list, or empty when nothing is stored; no selection, closed panel, empty search |
| LocationState.Toggle | hooks/useLocationState.ts:18 | The new selection is cleared exactly when the clicked name was the current one, and is the clicked name otherwise |
| LocationState.ToggleTwice | hooks/useLocationState.ts:18 | Toggling one name twice restores the selection exactly when it was empty or that name |
| LocationState.ToggleTwoNames | hooks/useLocationState.ts:18 | Toggling `a` and then a different `b` always ends on `b`, so it restores the original only if that was `b` |
| LocationState.CountryClick | hooks/useLocationState.ts:17-20 | Toggles the country, always clears the video, and changes nothing else |
| LocationState.VideoClick | hooks/useLocationState.ts:22-25 | Toggles the video and changes nothing else; the country stays |
| LocationState.CountryClickTwoNames | hooks/useLocationState.ts:17-20 | Clicking country `a` and then `b` selects `b` and loses the first selection |
| LocationState.RemoveAll | hooks/useLocationState.ts:34 | The id is gone from the result, and every other id is present exactly when it was before |
| LocationState.RemoveAllCounts | hooks/useLocationState.ts:34 | Removal drops every copy of the id and keeps every other id as many times as it occurred |
| LocationState.RemoveAllAppend | hooks/useLocationState.ts:34 | Removal distributes over concatenation, so the kept ids stay in order |
| LocationState.RemoveAllAbsent | hooks/useLocationState.ts:34 | Removing an absent id leaves the list equal |
| LocationState.AddFavourite | hooks/useLocationState.ts:27-31 | The id is appended at the end even when present, the list grows by one, the stored copy equals the new list, and nothing else changes |
| LocationState.RemoveFavourite | hooks/useLocationState.ts:33-37 | Every copy of the id is removed, the others keep their counts, the stored copy equals the new list, and nothing else changes |
| LocationState.AddFavouriteNotIdempotent | hooks/useLocationState.ts:28 | Adding the same id twice differs from adding it once: the id occurs two more times |
| LocationState.RemoveAbsentFavourite | hooks/useLocationState.ts:34 | Removing an id that is not a favourite leaves the favourites equal |
| LocationState.AddThenRemove | hooks/useLocationState.ts:27-37 | Adding then removing an id removes its earlier copies too, and restores the list when the id was absent |
| LocationState.SetSearchQuery | hooks/useLocationState.ts:10 | Only the search text changes |
| HomePage.ToggleFilters | pages/index.tsx:53 | The panel flag flips and nothing else changes |
| HomePage.ResetFilters | pages/index.tsx:54-58 | Both selections are cleared and nothing else changes |
| HomePage.SelectLocation | pages/index.tsx:52 | The picked location becomes the selected one and nothing else changes |
| HomePage.CloseDetails | pages/index.tsx:69 | The selected location is cleared and nothing else changes |
| HomePage.MapInput | pages/index.tsx:36 | The map receives one entry per dataset location, in flattened order, each with its location unchanged |
| HomePage.MapInputDependsOnFilters | pages/index.tsx:36 | Two states with the same search text and selections give the same map input |
| HomePage.HandlersKeepMapInput | pages/index.tsx:52-73 | The panel, details and favourites handlers leave the map input unchanged |
| HomePage.ResetShowsAll | pages/index.tsx:54-58 | After a reset no marker is flagged, whatever the search text |
| HomePage.CountryClickDecides | pages/index.tsx:50 | After a country click, a location is flagged exactly when a non-empty country ends up selected and its bucket is missing or lacks the id |
| HomePage.CountryClickExpansion | components/filters/Filters.tsx:102 | After a country click, a country row is expanded exactly when it is the clicked one and that country was not already selected, and no video row is expanded |
| VideoTitle.KeepWords | scripts/video-parser/src/index.ts:11-14 | A word survives exactly when upper-casing changes it or it is all ASCII digits |
| VideoTitle.KeepWordsAppend | scripts/video-parser/src/index.ts:11-15 | The word filter distributes over concatenation, so surviving words keep their relative order |
| VideoTitle.DigitRun | scripts/video-parser/src/index.ts:18 | The run of ASCII digits from a position is maximal: every character in it is a digit and the next one is not |
| VideoTitle.MarkerLength | scripts/video-parser/src/index.ts:18 | A match is `odc.`, the whole white run after it and the whole digit run after that |
| VideoTitle.MarkerParts | scripts/video-parser/src/index.ts:18-21 | The matched text is `odc.`, then its white run, then its digits, which the normalisation step reads back |
| VideoTitle.MarkerAtIff | scripts/video-parser/src/index.ts:18 | The greedy matcher succeeds at a position exactly when some text there matches `odc\.\s*\d+` (ASCII case-insensitive), and it takes the longest such text |
| VideoTitle.FindMarker | scripts/video-parser/src/index.ts:18 | The match found is the leftmost position where the pattern matches, and none is found only when it matches nowhere |
| VideoTitle.MarkerFirstOccurrence | scripts/video-parser/src/index.ts:20 | The matched text first occurs where it was matched, so replacing the text removes that very match |
| VideoTitle.NormalizeMatchedMarker | scripts/video-parser/src/index.ts:21 | A lower-case `odc.` with its white space becomes `odc. ` before the digits; a match spelled `Odc.` or `ODC.` is left as matched |
| VideoTitle.MarkerHasNoQuote | scripts/video-parser/src/index.ts:18-21 | A matched marker, raw or normalised, holds no double quote |
| VideoTitle.FilterTitle | scripts/video-parser/src/index.ts:9-28 | The cleaned title has no double quote and no white space at either end |
| VideoTitle.MarkerCut | scripts/video-parser/src/index.ts:20 | Removing the first copy of the match text cuts out exactly the leftmost match |
| VideoTitle.FilterTitleSteps | scripts/video-parser/src/index.ts:9-28 | Cleaning is: keep the words, move the marker, remove the quotes, trim, in that order |
| VideoTitle.RelocatedTail | scripts/video-parser/src/index.ts:19-25 | With a marker, the cleaned title ends with the normalised marker in parentheses |
| VideoTitle.MarkerMovedToEnd | scripts/video-parser/src/index.ts:18-25 | With a marker, its match is cut from where it was found, and the cleaned title ends with the normalised marker in parentheses |
| VideoTitle.NoMarkerKeepsWords | scripts/video-parser/src/index.ts:15-25 | Without a marker, the cleaned title is the surviving words joined by single spaces, unquoted and trimmed |
| VideoTitle.MarkedTitle | scripts/video-parser/src/index.ts:9-28 | `a odc. 1` is cleaned to `a (odc. 1)` |
| VideoTitle.CleanedTitle | scripts/video-parser/src/index.ts:9-28 | `a (odc. 1)` is cleaned to `a (odc.`: the token `1)` has no case and is not a number, so it is dropped |
| VideoTitle.FilterTitleNotIdempotent | scripts/video-parser/src/index.ts:9-28 | Cleaning a cleaned title can change it again |
| Slug.RemoveCombining | src/lib/slug.ts:5 | Every combining mark U+0300 to U+036F is removed, every other character is kept, and the `[a-z0-9]` text is unchanged |
| Slug.CollapseFrom | src/lib/slug.ts:6 | The collapsed text uses only `[a-z0-9-]`, never holds `--`, does not start with a hyphen when a run was already open, and keeps the `[a-z0-9]` text |
| Slug.CollapseWordThen | src/lib/slug.ts:6 | A run of `[a-z0-9]` characters is kept as it is, and the text after it collapses as if from the start |
| Slug.CollapseRun | src/lib/slug.ts:6 | A whole run outside `[a-z0-9]` becomes exactly one hyphen (none when a run was already open), and the word after it collapses on its own |
| Slug.CollapseWordThenRun | src/lib/slug.ts:6 | A word, a non-empty separator run and the rest collapse to the word, one hyphen and the collapse of the rest |
| Slug.CollapseEdgeRuns | src/lib/slug.ts:6 | Separator runs before and after one word each become a single hyphen, or nothing when empty |
| Slug.DropEdgeHyphensAround | src/lib/slug.ts:7 | One hyphen at either end of a word is cut off, leaving the word |
| Slug.Collapse | src/lib/slug.ts:6 | The collapsed text uses only `[a-z0-9-]`, never holds `--`, and keeps the `[a-z0-9]` text of its input; where the hyphens go is stated by `CollapseRun` and `CollapseWordThenRun` |
| Slug.DropEdgeHyphens | src/lib/slug.ts:7 | On collapsed text the result is a well-formed slug with the same `[a-z0-9]` text, and text without edge hyphens is unchanged |
| Slug.ToSlug | src/lib/slug.ts:1-8 | The slug uses only `[a-z0-9-]`, has no `--` and no hyphen at either end, and its letters and digits are exactly those of the lower-cased, decomposed input, in order |
| Slug.ToSlugTwoWords | src/lib/slug.ts:1-8 | When the folded text is two words around a run of other characters, the slug is the two words joined by one hyphen |
| Slug.ToSlugEdgeRuns | src/lib/slug.ts:1-8 | When the folded text is one word with other characters before and after, the slug is the word alone |
| Slug.CountrySlug | src/lib/slug.ts:10-12 | The country slug is the general slug, so it is well formed |
| Slug.PlaceSlug | src/lib/slug.ts:14-16 | The place slug is the general slug, so it is well formed |
| Slug.ToSlugEmptyIff | src/lib/slug.ts:1-8 | The slug is empty exactly when the folded text has no `[a-z0-9]` character, so all-punctuation input gives the empty slug |
| Slug.CollapseSlug | src/lib/slug.ts:6 | Collapsing text that is already slug-shaped changes nothing |
| Slug.SlugFixedPoint | src/lib/slug.ts:1-8 | A slug that case mapping and NFD leave alone is its own slug |
| Slug.ToSlugIdempotent | src/lib/slug.ts:1-8 | When case mapping and NFD fix `[a-z0-9-]` text, slugging twice equals slugging once |
| Slug.AlnumTextUnchanged | src/lib/slug.ts:6-7 | Text of only `[a-z0-9]` is returned unchanged |
| Slug.AsciiToSlugIdempotent | src/lib/slug.ts:1-8 | With the ASCII tables, slugging is idempotent with no premise |
| Slug.AlnumOfAppend | src/lib/slug.ts:6-7 | The `[a-z0-9]` text of a concatenation is the concatenation of the parts' texts |
| LocationParser.DropLeadingHyphens | scripts/location-parser/src/index.ts:46 | The whole leading run of hyphens is removed and the result does not start with one |
| LocationParser.DropTrailingHyphens | scripts/location-parser/src/index.ts:46 | The whole trailing run of hyphens is removed and the result does not end with one |
| LocationParser.TrimHyphens | scripts/location-parser/src/index.ts:46 | The result is a contiguous slice of the input with only hyphens cut off before and after it, and it neither starts nor ends with a hyphen |
| LocationParser.TrimHyphensSingle | scripts/location-parser/src/index.ts:46 | On text without `--`, removing whole runs of edge hyphens and removing one hyphen at each end agree |
| LocationParser.GenerateId | scripts/location-parser/src/index.ts:40-47 | The id equals the slug of the name, so it uses only `[a-z0-9-]`, has no `--` and no edge hyphen |
| LocationParser.FirstRuleTag | scripts/location-parser/src/index.ts:49-96 | First-match classification returns `other` or the tag of one of the rules |
| LocationParser.DetermineLocationType | scripts/location-parser/src/index.ts:49-58 | `restaurant` exactly when a restaurant tag is present; `attraction` exactly when none is and an attraction tag is |
| LocationParser.DetermineLocationTypeFromName | scripts/location-parser/src/index.ts:60-96 | `restaurant` exactly when a restaurant word occurs in the lower-cased name; `attraction` exactly when none does and an attraction word does |
| LocationParser.DetermineLocationTypeByRules | scripts/location-parser/src/index.ts:49-58 | The tag classifier is the first-match rule over the restaurant and then the attraction table |
| LocationParser.DetermineLocationTypeFromNameByRules | scripts/location-parser/src/index.ts:60-96 | The name classifier is the first-match rule over the restaurant and then the attraction word table |
| LocationParser.DetermineLocationTypeBySet | scripts/location-parser/src/index.ts:50-54 | The order and repetition of the type tags do not matter |
| LocationParser.RestaurantTagWins | scripts/location-parser/src/index.ts:50-52 | A restaurant tag gives `restaurant` whatever other tags come before or after it |
| LocationParser.Leftmost | scripts/location-parser/src/index.ts:115-127 | A match found is the leftmost position where the pattern matches, and none is found only when it matches nowhere |
| LocationParser.PlaceIdValue | scripts/location-parser/src/index.ts:115-117 | The `place_id` value is the URL text right after `place_id=`: non-empty, free of `&`, and ending at the URL's end or an `&` |
| LocationParser.CidValue | scripts/location-parser/src/index.ts:121-123 | The `cid` value is the URL text right after `cid=`: a non-empty run of ASCII digits ending at the URL's end or a non-digit |
| LocationParser.PlacePathValue | scripts/location-parser/src/index.ts:127-130 | The place segment is the URL text right after `place/`: non-empty, free of `/`, and followed by a `/` |
| LocationParser.PlusToSpace | scripts/location-parser/src/index.ts:130 | Every `+` becomes a space and every other character is kept |
| LocationParser.ExtractPlaceId | scripts/location-parser/src/index.ts:113-147 | A `place_id=` match gives a non-empty `&`-free value; otherwise a `cid=` match gives non-empty digits; the no-reference error happens exactly when none of the three patterns matches |
| LocationParser.ExtractPlaceIdFirst | scripts/location-parser/src/index.ts:115-118 | With a `place_id=` match, the result is the value at the leftmost match |
| LocationParser.ExtractPlaceIdCid | scripts/location-parser/src/index.ts:121-124 | Without a `place_id=` match, a `cid=` match gives the digits at the leftmost one |
| LocationParser.ExtractPlaceIdPath | scripts/location-parser/src/index.ts:127-144 | With neither id parameter, a `place/` match gives the decoded segment (with `+` as space), followed by `@` and the coordinates when they are found; it fails exactly when decoding fails |
| LocationParser.ExtractPlaceIdPrecedence | scripts/location-parser/src/index.ts:115-124 | Once a `place_id` or `cid` value is found, URI decoding and the coordinates cannot change the result |
| LocationParser.PlaceIdRoundTrip | scripts/location-parser/src/index.ts:115-117 | A URL made of `place_id=`, an `&`-free id and then nothing or an `&` yields exactly that id |
| LocationParser.CreateLocation | scripts/location-parser/src/index.ts:400-412 | Every field except the id is copied unchanged, and the id is the one `generateId` gives for the name, a well-formed slug with the name's letters and digits |
| UpdateLocations.ExistingMap | scripts/youtube-scraper/src/update-locations.ts:51-56 | The map has an id exactly when some existing video with that id has locations, and maps it to such a video |
| UpdateLocations.ExistingMapLastWins | scripts/youtube-scraper/src/update-locations.ts:52-55 | Among existing videos sharing an id, the last one with locations is kept |
| UpdateLocations.MergeVideos | scripts/youtube-scraper/src/update-locations.ts:59-69 | The output has the new videos' length and order, all fields but `locations` from the new video, and the locations of an existing non-empty copy when one exists, else the new video unchanged |
| UpdateLocations.UpdateLocations | scripts/youtube-scraper/src/update-locations.ts:43-72 | The output has one video per new video; a readable existing file gives the new videos merged with its videos, and an unreadable one gives exactly the new data |
| UpdateLocations.MergeIgnoresEmpty | scripts/youtube-scraper/src/update-locations.ts:53 | Existing videos without locations are never consulted |
| UpdateLocations.MergeIdempotent | scripts/youtube-scraper/src/update-locations.ts:59-69 | Merging the output with the same existing data again changes nothing |
| UpdateLocations.MergeTakesLastExisting | scripts/youtube-scraper/src/update-locations.ts:51-66 | A new video takes the locations of the last existing copy with locations, and every other field from the new video |
| CountryLocatives.LocativesNonEmpty | src/lib/countryLocatives.ts:1-24 | Every locative form in the table is non-empty |
| CountryLocatives.ToLocative | src/lib/countryLocatives.ts:26-28 | A listed name gives its table entry, an unlisted one comes back unchanged, and a non-empty name never gives an empty result |
| CountryLocatives.PolskaLocative | src/lib/countryLocatives.ts:15 | `Polska` gives `Polsce` |
| CountryLocatives.LowerCasePolskaUnchanged | src/lib/countryLocatives.ts:27 | The lookup is case-sensitive: `polska` comes back as it is |
| ClusterIcon.MarkerTag | components/map/ClusterIcon.ts:14-16 | A marker with a missing or empty type counts as `other`; any other type is counted exactly when it is one of the three tags, and then under that tag |
| ClusterIcon.CountTypes | components/map/ClusterIcon.ts:12-18 | Each tag's count is the number of markers whose type is that tag |
| ClusterIcon.CountTypesTotal | components/map/ClusterIcon.ts:13-18 | Each marker is counted at most once, and exactly once when its type is one of the three tags |
| ClusterIcon.CountTypesAppend | components/map/ClusterIcon.ts:13-18 | Counts add up over concatenation |
| ClusterIcon.CountTypesSwap | components/map/ClusterIcon.ts:13-18 | The counts do not depend on the order of blocks of markers |
| ClusterIcon.DominantType | components/map/ClusterIcon.ts:21-23 | The dominant type has the largest count, and ties go to the later type in the order restaurant, attraction, other |
| ClusterIcon.EmptyClusterIsOther | components/map/ClusterIcon.ts:21-23 | With nothing counted the dominant type is `other` |
| ClusterIcon.ColorSchemeOf | components/map/ClusterIcon.ts:26-44 | Each type's background, border and text colours are the table's hex values |
| ClusterIcon.ColorSchemesDistinct | components/map/ClusterIcon.ts:26-42 | The three types get three different colour schemes |
| ClusterIcon.TierOf | components/map/ClusterIcon.ts:47-63 | Sizes 40/44/48/55, fonts 14/14/15/16px and borders 3/3/3/4 for fewer than 10, 10 to 19, 20 to 49, and 50 or more children |
| ClusterIcon.TierMonotone | components/map/ClusterIcon.ts:47-63 | A bigger cluster never gets a smaller bubble or a thinner border |
| ClusterIcon.ThickBorderIff | components/map/ClusterIcon.ts:51-54 | The border is 4 wide exactly for 50 or more children |
| ClusterIcon.ClusterCustomIcon | components/map/ClusterIcon.ts:7-101 | The icon has the size, font and border of the child count's tier, is as wide as the tier size and 12 taller, and is coloured by the dominant type's scheme |
| IconCache.CacheKeyInjective | hooks/useIconCache.ts:21 | Different type and flag combinations give different keys, even when the type contains `-` |
| IconCache.GetIcon | hooks/useIconCache.ts:13-35 | The maker is called exactly when the key is missing. A hit returns the stored icon with the table unchanged. A miss returns the maker's result for the call; a made icon is stored under the key with earlier entries kept, and a failed call leaves the table unchanged |
| IconCache.ClearCache | hooks/useIconCache.ts:38-40 | Clearing empties the table |
| IconCache.GetIconIgnoresTitle | hooks/useIconCache.ts:21-31 | The title affects neither the key nor the icon |
| IconCache.GetIconRepeat | hooks/useIconCache.ts:24-34 | Asking again for the same key after a made icon returns it and calls no maker; after a failed call the maker is tried again |
| IconCache.ClearThenCreate | hooks/useIconCache.ts:38-40 | After clearing, the next request makes a new icon |
| IconCache.GetIconTransparent | hooks/useIconCache.ts:13-35 | From a table that agrees with the maker, the result is what calling the maker would give, and the table still agrees |
| IconCache.EmptyIsFaithful | hooks/useIconCache.ts:38-40 | The empty table agrees with every maker |
| MarkerIcons.IconComponentOf | components/location/LocationMapIcon.tsx:5-9 | `restaurant`, `attraction` and `other` map to the utensils, landmark and pin components, and nothing else has one |
| MarkerIcons.ColorClassKey | components/location/LocationMapIcon.tsx:11-15 | `restaurant`, `attraction` and `other` map to `markerYellow`, `markerPurple` and `markerRed`, and exactly the types with a component have one |
| MarkerIcons.CreateCustomIcon | components/location/LocationMapIcon.tsx:20-52 | An icon exists exactly for the three tags. A selected marker gets the base class plus `selectedHighlight`; otherwise a filtered-out one gets base plus `filteredOut`, and any other gets the base class alone. Every icon is 34 by 34, anchored at (17, 42), with its popup at (0, -50) |
| MarkerIcons.SelectedOverridesFiltered | components/location/LocationMapIcon.tsx:37-41 | When selected, being filtered out makes no difference |
| MarkerIcons.DefaultFlags | components/location/LocationMapIcon.tsx:22-23 | Both flags default to false, which gives the plain base class |
| MarkerIcons.ColorKeysDistinct | components/location/LocationMapIcon.tsx:11-15 | The three types get three different colour classes |
| MarkerIconCache.AsWrittenShiftsFlags | hooks/useIconCache.ts:31 | With the arguments bound as written, every icon is the one for "not selected" and "filtered out exactly when selected" |
| MarkerIconCache.AsWrittenSelectedIsDimmed | hooks/useIconCache.ts:31 | As written, a selected marker gets `filteredOut` and never `selectedHighlight` |
| MarkerIconCache.AsWrittenExample | hooks/useIconCache.ts:31 | As written, a selected restaurant on an empty table gets the class `customMarkerIcon markerYellow filteredOut` |
| MarkerIconCache.UnknownTypeNotCached | hooks/useIconCache.ts:31-32 | A type outside the three tags makes the maker fail, and the table is left as it was |
| MarkerIconCache.IntendedFollowsFlags | hooks/useIconCache.ts:31 | With each flag bound to its namesake, every icon is the one for the caller's own flags |
| MarkerIconCache.IntendedSelectedIsHighlighted | hooks/useIconCache.ts:31 | With the intended binding, a selected marker gets `selectedHighlight` |
| MarkerIconCache.IntendedExample | hooks/useIconCache.ts:31 | With the intended binding, a selected restaurant gets the class `customMarkerIcon markerYellow selectedHighlight` |
| LocationIcon.TypeIcon | components/location/LocationIcon.tsx:10-11 | `restaurant` gives the fork and knife, `attraction` the classical building, and any other type the pin; a location must be given |
| LocationIcon.UnknownTypeIsPin | components/location/LocationIcon.tsx:11 | Any type other than the two named ones looks like `other` |
| JsString.Trim | hooks/useLocations.ts:8 | The result has no white space at either end and is the input with white runs cut off both ends |
| JsString.TrimStart | hooks/useLocations.ts:8 | Only a white prefix is cut, and the result does not start with white space |
| JsString.TrimEnd | hooks/useLocations.ts:8 | Only a white suffix is cut, and the result does not end with white space |
| JsString.TrimTrimmed | scripts/video-parser/src/index.ts:25 | Trimming text with no white end changes nothing |
| JsString.TrimKeepsSuffix | scripts/video-parser/src/index.ts:20-25 | Trimming keeps whole a final block that starts and ends with non-white characters |
| JsString.ContainsIff | hooks/useLocations.ts:11-13 | `includes` holds exactly when the needle occurs at some index |
| JsString.ContainsEmpty | hooks/useLocations.ts:13 | The empty string is included in every string |
| JsString.IndexOf | scripts/video-parser/src/index.ts:20 | The index found is the first occurrence, and none is found only when there is none |
| JsString.ReplaceFirst | scripts/video-parser/src/index.ts:20 | Only the first occurrence is replaced, and text without one is unchanged |
| JsString.RemoveChar | scripts/video-parser/src/index.ts:25 | The character is gone, and every other character is present exactly when it was |
| JsString.RemoveCharAppend | scripts/video-parser/src/index.ts:25 | Removal distributes over concatenation, so the kept characters stay in order |
| JsString.Split | scripts/video-parser/src/index.ts:11 | Splitting gives at least one piece and no piece holds the separator |
| JsString.JoinSplit | scripts/video-parser/src/index.ts:11-15 | Joining the pieces of a split restores the text |
| JsString.SplitJoin | scripts/video-parser/src/index.ts:11-15 | Splitting a join of separator-free pieces gives the pieces back |
| Arrays.FirstWithKey | hooks/useLocations.ts:27 | `find` succeeds exactly when `some` holds, and returns the leftmost element with the key |
| Arrays.DedupByFacts | hooks/useLocations.ts:23-34 | Deduplication keeps one element per key (the first), takes nothing from outside, and loses no key |
| Arrays.DedupBySnoc | hooks/useLocations.ts:23-34 | Deduplicating a list with one more element is pushing that element unless its key is present |
| Arrays.AddUniqueByTwice | hooks/useLocations.ts:23-34 | Pushing the same element again once its key is present changes nothing |
| Unicode.ScalarCompareConnected | hooks/useLocations.ts:38 | Scalar-value order relates any two strings one way or the other, so it meets the sorting premise |
| Unicode.AsciiOpsConnected | hooks/useLocations.ts:38 | The ASCII instance's comparator meets the sorting premise |

## Left out

- Network and file I/O are not modelled: the YouTube and Places API calls,
  `resolveShortUrl`, `getPlaceDetails`, `parseGoogleMapsUrl`, the scripts' `main`, and the
  reads and writes of the JSON files. The merge takes both files as values, and the existing
  one is `None` when it cannot be read or parsed.
- The browser's local storage is the state field `stored`. It is a plain field so that the
  transitions stay ordinary functions. `JSON.parse` of the stored text is taken to succeed.
- The initial `[null]` favourites seed is not modelled. It is overwritten by the load effect
  before any handler runs, so the initial favourites are the loaded list.
- The Unicode tables for `toLowerCase`, `toUpperCase` and `normalize('NFD')`, and the
  collation behind `localeCompare`, are the parameter `TextOps`, not modelled tables.
- Floating point is not modelled: latitude and longitude are carried as `real` and never
  computed with. The `@lat,lng` match of `extractPlaceId`, with its `parseFloat` and number
  printing, is the parameter `coords`. The cluster icon's `size / 2` anchor is not modelled.
- `decodeURIComponent` is the parameter `decode`, whose `None` stands for its
  `URIError`.
- Leaflet, React and the HTML are not modelled: the cluster HTML string, the rendered SVG,
  the `DivIcon` object and the component tree. The figures and class names that go into
  them are modelled.
- The CSS module's generated class names are the function `styles`.
- Object prototype keys are not modelled. Five lookups also see inherited names such as
  `toString`, `constructor` or `__proto__`:
  - `type in typeCounts` in the cluster icon;
  - `countryLocatives[name]` in `toLocative`;
  - `countryMap[location.country]` in the country index (hooks/useLocations.ts:19). The map
    is a `{}` literal, so for such a country name no bucket is created and line 23 throws;
  - `iconComponentMap[type]` and `colorClassMap[type]` in the marker icon
    (components/location/LocationMapIcon.tsx:25-26). For such a type they give an
    `Object.prototype` member, not `undefined`, so the code goes on to build an icon from it.

  The model counts only the three own keys, looks up only the tables' own entries, and
  treats every country name as absent until its bucket is made. In particular
  `MarkerIcons.CreateCustomIcon` gives no icon for an inherited name.
- `Object.values` lists integer-like keys first, in numeric order, and the other keys in
  insertion order. The model keeps every bucket in insertion order. The sort is stable, so
  the order before sorting survives only between distinct names that `localeCompare` ranks
  equal. For integer-like names among those, the model's order can differ from the engine's.
- ECMAScript strings are sequences of UTF-16 code units, and the model's strings are
  sequences of Unicode scalar values. Lengths and indices differ for characters above U+FFFF,
  and `Unicode.ScalarCompare` orders those characters after U+E000..U+FFFF, where code-unit
  order puts them before. Every contract is stated over the model's characters.
- `event.stopPropagation` in the video click handler is not modelled; it is a DOM effect.
- The list animation, the analytics calls and device detection are not modelled.
- LocationIcon.TypeIcon: requires a location. The component dereferences `location.type`
  although its prop admits `null`, so there is no result to state for `null`.
- Locations.SortByName: stated for a comparator that orders every pair one way or the other.
  It is modelled as a stable insertion sort and does not model the engine's sorting
  algorithm when the comparator is inconsistent.
- Two properties a reader might expect do not hold of the code, and the model proves that
  they fail:
  - cleaning a title twice can differ from cleaning it once
    (`VideoTitle.FilterTitleNotIdempotent`);
  - adding a favourite that is already present appends it again
    (`LocationState.AddFavouriteNotIdempotent`).

## Findings

| source | as written | input that shows it | evidently intended | confidence | as-written member | corrected member |
|---|---|---|---|---|---|---|
| hooks/useIconCache.ts:31 | `createCustomIcon(type, '', isSelected, isFilteredOut, isMobile)` calls a function declared `(type, isSelected = false, isFilteredOut = false)`. JavaScript binds by position, so `''` becomes `isSelected` and the caller's `isSelected` becomes `isFilteredOut`. TypeScript's checker rejects this call (five arguments for three parameters, and a string where a boolean is expected), so the binding happens only in JavaScript emitted without that check | `getIcon('restaurant', 'Bar', true, false, false)` on an empty table gives the class `customMarkerIcon markerYellow filteredOut` | `createCustomIcon(type, isSelected, isFilteredOut)`, which gives `customMarkerIcon markerYellow selectedHighlight` | medium, because a type-checked build stops at this line; not executed | MarkerIconCache.AsWrittenSelectedIsDimmed | MarkerIconCache.IntendedSelectedIsHighlighted |
