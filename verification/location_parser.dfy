/**
 * The pure helpers of the location-parser script (scripts/location-parser/src/index.ts):
 * `generateId`, the two keyword classifiers, the string branches of `extractPlaceId` and
 * `createLocation`. The Places API, URL resolution and the output file are not modelled.
 */
module LocationParser {
  import opened Wrappers
  import opened Unicode
  import opened JsString
  import opened Types
  import opened Slug

  // ---------------------------------------------------------------------------------------
  // generateId
  // ---------------------------------------------------------------------------------------

  /** `.replace(/^-+/, '')`: the whole leading run of hyphens removed. */
  function DropLeadingHyphens(s: string): (r: string)
    ensures |r| <= |s| && r == s[|s| - |r|..]
    ensures forall i :: 0 <= i < |s| - |r| ==> s[i] == '-'
    ensures |r| > 0 ==> r[0] != '-'
  {
    if |s| > 0 && s[0] == '-' then DropLeadingHyphens(s[1..]) else s
  }

  /** `.replace(/-+$/, '')`: the whole trailing run of hyphens removed. */
  function DropTrailingHyphens(s: string): (r: string)
    ensures |r| <= |s| && r == s[..|r|]
    ensures forall i :: |r| <= i < |s| ==> s[i] == '-'
    ensures |r| > 0 ==> r[|r| - 1] != '-'
  {
    if |s| > 0 && s[|s| - 1] == '-' then DropTrailingHyphens(s[..|s| - 1]) else s
  }

  /**
   * `.replace(/^-+|-+$/g, '')`: the result is a slice of `s` whose cut-off margins are all
   * hyphens and which neither starts nor ends with one, so exactly the edge runs are removed.
   */
  function TrimHyphens(s: string): (r: string)
    ensures exists a, b ::
              && 0 <= a <= b <= |s| && r == s[a..b]
              && (forall i :: 0 <= i < a ==> s[i] == '-')
              && (forall i :: b <= i < |s| ==> s[i] == '-')
    ensures |r| > 0 ==> r[0] != '-' && r[|r| - 1] != '-'
  {
    var t := DropLeadingHyphens(s);
    var r := DropTrailingHyphens(t);
    var a := |s| - |t|;
    assert r == s[a..a + |r|];
    r
  }

  /** Without `--`, the leading run of hyphens is at most one hyphen long. */
  lemma DropLeadingSingle(s: string)
    requires NoDoubleHyphen(s)
    ensures DropLeadingHyphens(s) == if |s| > 0 && s[0] == '-' then s[1..] else s
  {
    if |s| > 1 && s[0] == '-' {
      assert s[1..][0] == s[1];
    }
  }

  /** Without `--`, the trailing run of hyphens is at most one hyphen long. */
  lemma DropTrailingSingle(s: string)
    requires NoDoubleHyphen(s)
    ensures DropTrailingHyphens(s) == if |s| > 0 && s[|s| - 1] == '-' then s[..|s| - 1] else s
  {
    if |s| > 1 && s[|s| - 1] == '-' {
      var u := s[..|s| - 1];
      assert u[|u| - 1] == s[|s| - 2];
    }
  }

  /**
   * On text without `--` the two hyphen-trimming patterns agree: each end holds at most one
   * hyphen.
   */
  lemma TrimHyphensSingle(s: string)
    requires NoDoubleHyphen(s)
    ensures TrimHyphens(s) == DropEdgeHyphens(s)
  {
    var t := if |s| > 0 && s[0] == '-' then s[1..] else s;
    DropLeadingSingle(s);
    if |s| > 0 && s[0] == '-' {
      NoDoubleHyphenTail(s);
    }
    DropTrailingSingle(t);
    var u := if |t| > 0 && t[|t| - 1] == '-' then t[..|t| - 1] else t;
    assert TrimHyphens(s) == u;
    assert DropEdgeHyphens(s) == u;
  }

  /** `generateId`: like `toSlug`, with every run of edge hyphens removed. */
  function GenerateId(name: string, ops: TextOps): (r: string)
    ensures r == ToSlug(name, ops)
    ensures IsSlug(r)
  {
    var c := Collapse(Folded(name, ops));
    TrimHyphensSingle(c);
    TrimHyphens(c)
  }

  // ---------------------------------------------------------------------------------------
  // Keyword classifiers
  // ---------------------------------------------------------------------------------------

  /** A keyword rule: the tag given when any of its keywords is present. */
  datatype Rule = Rule(keywords: seq<string>, tag: LocationType)

  /** First-match classification: the first rule with a present keyword decides, else `other`. */
  function FirstRuleTag(rules: seq<Rule>, present: string -> bool): (r: LocationType)
    ensures r == Other || exists i :: 0 <= i < |rules| && rules[i].tag == r
  {
    if |rules| == 0 then Other
    else if exists k :: k in rules[0].keywords && present(k) then rules[0].tag
    else FirstRuleTag(rules[1..], present)
  }

  const RestaurantTypes: seq<string> := ["restaurant", "food", "cafe", "bar"]
  const AttractionTypes: seq<string> :=
    ["tourist_attraction", "museum", "park", "point_of_interest", "establishment"]

  const RestaurantWords: seq<string> :=
    ["restaurant", "cafe", "bar", "pub", "bistro", "pizzeria", "pizza", "food", "grill", "eatery"]
  const AttractionWords: seq<string> :=
    ["museum", "gallery", "park", "monument", "castle", "palace", "garden", "attraction",
     "landmark", "memorial"]

  /** One of the tags `keywords` is among `types`. */
  predicate HasTag(types: seq<string>, keywords: seq<string>) {
    exists k :: k in keywords && k in types
  }

  /** One of `keywords` occurs in `text`. */
  predicate HasWord(text: string, keywords: seq<string>) {
    exists k :: k in keywords && Contains(text, k)
  }

  lemma HasTagFour(types: seq<string>, ks: seq<string>)
    requires |ks| == 4
    ensures HasTag(types, ks) <==> ks[0] in types || ks[1] in types || ks[2] in types || ks[3] in types
  {
    if ks[0] in types { assert ks[0] in ks; }
    if ks[1] in types { assert ks[1] in ks; }
    if ks[2] in types { assert ks[2] in ks; }
    if ks[3] in types { assert ks[3] in ks; }
  }

  lemma HasTagFive(types: seq<string>, ks: seq<string>)
    requires |ks| == 5
    ensures HasTag(types, ks) <==>
      ks[0] in types || ks[1] in types || ks[2] in types || ks[3] in types || ks[4] in types
  {
    HasTagFour(types, ks[..4]);
    assert ks == ks[..4] + [ks[4]];
  }

  lemma HasWordTen(text: string, ks: seq<string>)
    requires |ks| == 10
    ensures HasWord(text, ks) <==>
      Contains(text, ks[0]) || Contains(text, ks[1]) || Contains(text, ks[2]) ||
      Contains(text, ks[3]) || Contains(text, ks[4]) || Contains(text, ks[5]) ||
      Contains(text, ks[6]) || Contains(text, ks[7]) || Contains(text, ks[8]) ||
      Contains(text, ks[9])
  {
    if HasWord(text, ks) {
      var k :| k in ks && Contains(text, k);
      var i :| 0 <= i < |ks| && ks[i] == k;
    }
    forall i | 0 <= i < 10 && Contains(text, ks[i]) ensures HasWord(text, ks) {
      assert ks[i] in ks;
    }
  }

  /** `determineLocationType`: Places API types, restaurant tags checked first. */
  function DetermineLocationType(types: seq<string>): (r: LocationType)
    ensures r == Restaurant <==> HasTag(types, RestaurantTypes)
    ensures r == Attraction <==>
      !HasTag(types, RestaurantTypes) && HasTag(types, AttractionTypes)
  {
    HasTagFour(types, RestaurantTypes);
    HasTagFive(types, AttractionTypes);
    if "restaurant" in types || "food" in types || "cafe" in types || "bar" in types then
      Restaurant
    else if "tourist_attraction" in types || "museum" in types || "park" in types ||
      "point_of_interest" in types || "establishment" in types then
      Attraction
    else Other
  }

  /** `determineLocationTypeFromName`: case-insensitive substring search, restaurant words first. */
  function DetermineLocationTypeFromName(name: string, ops: TextOps): (r: LocationType)
    ensures r == Restaurant <==> HasWord(ops.lower(name), RestaurantWords)
    ensures r == Attraction <==>
      !HasWord(ops.lower(name), RestaurantWords) &&
      HasWord(ops.lower(name), AttractionWords)
  {
    var lowerName := ops.lower(name);
    HasWordTen(lowerName, RestaurantWords);
    HasWordTen(lowerName, AttractionWords);
    if Contains(lowerName, "restaurant") || Contains(lowerName, "cafe") ||
      Contains(lowerName, "bar") || Contains(lowerName, "pub") ||
      Contains(lowerName, "bistro") || Contains(lowerName, "pizzeria") ||
      Contains(lowerName, "pizza") || Contains(lowerName, "food") ||
      Contains(lowerName, "grill") || Contains(lowerName, "eatery") then
      Restaurant
    else if Contains(lowerName, "museum") || Contains(lowerName, "gallery") ||
      Contains(lowerName, "park") || Contains(lowerName, "monument") ||
      Contains(lowerName, "castle") || Contains(lowerName, "palace") ||
      Contains(lowerName, "garden") || Contains(lowerName, "attraction") ||
      Contains(lowerName, "landmark") || Contains(lowerName, "memorial") then
      Attraction
    else Other
  }

  /** Both classifiers are the first-match rule over a two-rule table. */
  lemma DetermineLocationTypeByRules(types: seq<string>)
    ensures DetermineLocationType(types) ==
      FirstRuleTag([Rule(RestaurantTypes, Restaurant), Rule(AttractionTypes, Attraction)],
        k => k in types)
  {
    var rules := [Rule(RestaurantTypes, Restaurant), Rule(AttractionTypes, Attraction)];
    assert rules[1..][1..] == [];
  }

  lemma DetermineLocationTypeFromNameByRules(name: string, ops: TextOps)
    ensures DetermineLocationTypeFromName(name, ops) ==
      FirstRuleTag([Rule(RestaurantWords, Restaurant), Rule(AttractionWords, Attraction)],
        k => Contains(ops.lower(name), k))
  {
    var rules := [Rule(RestaurantWords, Restaurant), Rule(AttractionWords, Attraction)];
    assert rules[1..][1..] == [];
  }

  /** The type tags are looked up as a set: their order and repetitions do not matter. */
  lemma DetermineLocationTypeBySet(a: seq<string>, b: seq<string>)
    requires forall t :: t in a <==> t in b
    ensures DetermineLocationType(a) == DetermineLocationType(b)
  {
  }

  /** A restaurant tag decides the type whatever other tags come with it. */
  lemma RestaurantTagWins(types: seq<string>, extra: seq<string>)
    requires HasTag(types, RestaurantTypes)
    ensures DetermineLocationType(types + extra) == Restaurant
    ensures DetermineLocationType(extra + types) == Restaurant
  {
    var k :| k in RestaurantTypes && k in types;
    assert k in types + extra && k in extra + types;
  }

  // ---------------------------------------------------------------------------------------
  // extractPlaceId
  // ---------------------------------------------------------------------------------------

  /** The end of the run of characters satisfying `p` that starts at `from`. */
  function RunEnd(s: string, from: nat, p: char -> bool): (e: nat)
    requires from <= |s|
    ensures from <= e <= |s|
    ensures forall i :: from <= i < e ==> p(s[i])
    ensures e < |s| ==> !p(s[e])
    decreases |s| - from
  {
    if from < |s| && p(s[from]) then RunEnd(s, from + 1, p) else from
  }

  predicate NotAmpersand(c: char) { c != '&' }
  predicate NotSlash(c: char) { c != '/' }

  const PlaceIdKey: string := "place_id="
  const CidKey: string := "cid="
  const PlaceSegment: string := "place/"

  /** `/place_id=([^&]+)/` matches at `k`. */
  predicate PlaceIdAt(url: string, k: nat) {
    OccursAt(url, PlaceIdKey, k) && k + |PlaceIdKey| < |url| && NotAmpersand(url[k + |PlaceIdKey|])
  }

  /** `/cid=(\d+)/` matches at `k`. */
  predicate CidAt(url: string, k: nat) {
    OccursAt(url, CidKey, k) && k + |CidKey| < |url| && IsAsciiDigit(url[k + |CidKey|])
  }

  /**
   * `/place\/([^\/]+)\//` matches at `k`: a non-empty segment follows `place/` and a slash
   * closes it. The optional `(@[^\/]+)?` group that follows never changes the first group.
   */
  predicate PlacePathAt(url: string, k: nat) {
    OccursAt(url, PlaceSegment, k) &&
    var e := RunEnd(url, k + |PlaceSegment|, NotSlash);
    k + |PlaceSegment| < e < |url|
  }

  /**
   * The leftmost position where `at` holds, as `String.prototype.match` without the `g` flag
   * finds it; `at` never holds past the end of `url`.
   */
  function Leftmost(url: string, at: nat -> bool): (r: Option<nat>)
    requires forall j: nat :: at(j) ==> j <= |url|
    ensures r.Some? ==> at(r.value) && forall j :: 0 <= j < r.value ==> !at(j)
    ensures r.None? <==> forall j: nat :: !at(j)
  {
    FirstFrom(0, |url|, at)
  }

  /** `placeIdMatch[1]`: the text after the key up to the next `&` or the end. */
  function PlaceIdValue(url: string, k: nat): (v: string)
    requires PlaceIdAt(url, k)
    ensures |v| > 0 && '&' !in v
    ensures var from := k + |PlaceIdKey|;
      from + |v| <= |url| && url[from..from + |v|] == v &&
      (from + |v| == |url| || url[from + |v|] == '&')
  {
    var from := k + |PlaceIdKey|;
    var v := url[from..RunEnd(url, from, NotAmpersand)];
    assert forall i :: 0 <= i < |v| ==> NotAmpersand(v[i]);
    v
  }

  /** `cidMatch[1]`: the longest digit run after the key. */
  function CidValue(url: string, k: nat): (v: string)
    requires CidAt(url, k)
    ensures |v| > 0 && forall i :: 0 <= i < |v| ==> IsAsciiDigit(v[i])
    ensures var from := k + |CidKey|;
      from + |v| <= |url| && url[from..from + |v|] == v &&
      (from + |v| == |url| || !IsAsciiDigit(url[from + |v|]))
  {
    var from := k + |CidKey|;
    url[from..RunEnd(url, from, IsAsciiDigit)]
  }

  /** `placePathMatch[1]`: the segment between `place/` and the next slash. */
  function PlacePathValue(url: string, k: nat): (v: string)
    requires PlacePathAt(url, k)
    ensures |v| > 0 && '/' !in v
    ensures var from := k + |PlaceSegment|;
      from + |v| < |url| && url[from..from + |v|] == v && url[from + |v|] == '/'
  {
    var from := k + |PlaceSegment|;
    var v := url[from..RunEnd(url, from, NotSlash)];
    assert forall i :: 0 <= i < |v| ==> NotSlash(v[i]);
    v
  }

  /** `.replace(/\+/g, ' ')`. */
  function PlusToSpace(s: string): (r: string)
    ensures |r| == |s|
    ensures forall i :: 0 <= i < |s| ==> r[i] == if s[i] == '+' then ' ' else s[i]
  {
    if |s| == 0 then "" else [if s[0] == '+' then ' ' else s[0]] + PlusToSpace(s[1..])
  }

  /** The errors `extractPlaceId` throws. */
  datatype ExtractError =
    | MalformedUri        // `decodeURIComponent` rejected the segment
    | NoPlaceReference    // "Could not extract place ID or name from URL"

  /**
   * `extractPlaceId`. `decode` stands for `decodeURIComponent` (None: it throws) and `coords`
   * for the `@lat,lng` match with its numbers printed back (None: no match).
   */
  function ExtractPlaceId(url: string, decode: string -> Option<string>,
                          coords: string -> Option<string>): (r: Result<string, ExtractError>)
    ensures (exists k :: PlaceIdAt(url, k)) ==> r.Ok? && |r.value| > 0 && '&' !in r.value
    ensures (forall k :: !PlaceIdAt(url, k)) && (exists k :: CidAt(url, k)) ==>
      r.Ok? && |r.value| > 0 && forall i :: 0 <= i < |r.value| ==> IsAsciiDigit(r.value[i])
    ensures r == Err(NoPlaceReference) <==>
      (forall k :: !PlaceIdAt(url, k) && !CidAt(url, k) && !PlacePathAt(url, k))
  {
    var placeId := (k: nat) => PlaceIdAt(url, k);
    var cid := (k: nat) => CidAt(url, k);
    var path := (k: nat) => PlacePathAt(url, k);
    assert forall k :: (placeId(k) == PlaceIdAt(url, k) && cid(k) == CidAt(url, k) &&
      path(k) == PlacePathAt(url, k));
    match Leftmost(url, placeId)
    case Some(k) => Ok(PlaceIdValue(url, k))
    case None =>
      match Leftmost(url, cid)
      case Some(k) => Ok(CidValue(url, k))
      case None =>
        match Leftmost(url, path)
        case Some(k) =>
          (match decode(PlusToSpace(PlacePathValue(url, k)))
           case None => Err(MalformedUri)
           case Some(name) =>
             match coords(url)
             case Some(c) => Ok(name + "@" + c)
             case None => Ok(name))
        case None => Err(NoPlaceReference)
  }

  /** The first `place_id=` match decides the result: its value is returned. */
  lemma ExtractPlaceIdFirst(url: string, decode: string -> Option<string>,
                            coords: string -> Option<string>, k: nat)
    requires PlaceIdAt(url, k) && forall j: nat | j < k :: !PlaceIdAt(url, j)
    ensures ExtractPlaceId(url, decode, coords) == Ok(PlaceIdValue(url, k))
  {
    var placeId := (k: nat) => PlaceIdAt(url, k);
    assert forall j :: placeId(j) == PlaceIdAt(url, j);
    var m := Leftmost(url, placeId);
    assert m.Some?;
    assert !(m.value < k) && !(k < m.value);
  }

  /** Without a `place_id=` match, the first `cid=` match decides the result. */
  lemma ExtractPlaceIdCid(url: string, decode: string -> Option<string>,
                          coords: string -> Option<string>, k: nat)
    requires forall j: nat :: !PlaceIdAt(url, j)
    requires CidAt(url, k) && forall j: nat | j < k :: !CidAt(url, j)
    ensures ExtractPlaceId(url, decode, coords) == Ok(CidValue(url, k))
  {
    var placeId := (k: nat) => PlaceIdAt(url, k);
    var cid := (k: nat) => CidAt(url, k);
    assert forall j :: placeId(j) == PlaceIdAt(url, j) && cid(j) == CidAt(url, j);
    assert Leftmost(url, placeId).None?;
    var m := Leftmost(url, cid);
    assert m.Some?;
    assert !(m.value < k) && !(k < m.value);
  }

  /**
   * Without a `place_id=` or `cid=` match, the first `place/` segment decides: it is decoded
   * with `+` read as a space, a failed decode is the `URIError`, and the coordinates, when
   * found, are appended after an `@`.
   */
  lemma ExtractPlaceIdPath(url: string, decode: string -> Option<string>,
                           coords: string -> Option<string>, k: nat)
    requires forall j: nat :: !PlaceIdAt(url, j) && !CidAt(url, j)
    requires PlacePathAt(url, k) && forall j: nat | j < k :: !PlacePathAt(url, j)
    ensures var r := ExtractPlaceId(url, decode, coords);
      var name := decode(PlusToSpace(PlacePathValue(url, k)));
      && (r == Err(MalformedUri) <==> name.None?)
      && (name.Some? && coords(url).Some? ==> r == Ok(name.value + "@" + coords(url).value))
      && (name.Some? && coords(url).None? ==> r == Ok(name.value))
  {
    var placeId := (k: nat) => PlaceIdAt(url, k);
    var cid := (k: nat) => CidAt(url, k);
    var path := (k: nat) => PlacePathAt(url, k);
    assert forall j ::
      placeId(j) == PlaceIdAt(url, j) && cid(j) == CidAt(url, j) && path(j) == PlacePathAt(url, j);
    assert Leftmost(url, placeId).None? && Leftmost(url, cid).None?;
    var m := Leftmost(url, path);
    assert m.Some?;
    assert !(m.value < k) && !(k < m.value);
  }

  /**
   * Only the third pattern consults `decodeURIComponent` and the coordinates: once a
   * `place_id=` or `cid=` value is found, they cannot change the result.
   */
  lemma ExtractPlaceIdPrecedence(url: string, decode1: string -> Option<string>,
                                 coords1: string -> Option<string>,
                                 decode2: string -> Option<string>,
                                 coords2: string -> Option<string>)
    requires exists k :: PlaceIdAt(url, k) || CidAt(url, k)
    ensures ExtractPlaceId(url, decode1, coords1) == ExtractPlaceId(url, decode2, coords2)
  {
    var placeId := (k: nat) => PlaceIdAt(url, k);
    var cid := (k: nat) => CidAt(url, k);
    assert forall k :: placeId(k) == PlaceIdAt(url, k) && cid(k) == CidAt(url, k);
    if Leftmost(url, placeId).None? {
      assert Leftmost(url, cid).Some?;
    }
  }

  /** A URL that starts with a `place_id=` parameter yields exactly that parameter's value. */
  lemma PlaceIdRoundTrip(id: string, rest: string, decode: string -> Option<string>,
                         coords: string -> Option<string>)
    requires |id| > 0 && '&' !in id
    requires rest == [] || rest[0] == '&'
    ensures ExtractPlaceId(PlaceIdKey + id + rest, decode, coords) == Ok(id)
  {
    var url := PlaceIdKey + id + rest;
    var from := |PlaceIdKey|;
    assert url[..from] == PlaceIdKey;
    assert url[from] == id[0];
    assert PlaceIdAt(url, 0);
    var placeId := (k: nat) => PlaceIdAt(url, k);
    assert Leftmost(url, placeId) == Some(0);
    var e := RunEnd(url, from, NotAmpersand);
    assert forall i :: 0 <= i < |id| ==> url[from + i] == id[i];
    assert |rest| > 0 ==> url[from + |id|] == rest[0];
    assert e == from + |id|;
    assert url[from..e] == id;
  }

  // ---------------------------------------------------------------------------------------
  // createLocation
  // ---------------------------------------------------------------------------------------

  /** What the Places lookup or the URL fallback yields. */
  datatype GoogleMapsData = GoogleMapsData(
    name: string,
    description: string,
    latitude: real,
    longitude: real,
    address: string,
    country: string,
    locationType: LocationType,
    websiteUrl: Option<string>)

  /** The record written to the output file. */
  datatype LocationOutput = LocationOutput(
    id: string,
    name: string,
    description: string,
    latitude: real,
    longitude: real,
    address: string,
    country: string,
    locationType: LocationType,
    websiteUrl: Option<string>)

  /** The output record without its id. */
  function DataOf(l: LocationOutput): GoogleMapsData {
    GoogleMapsData(l.name, l.description, l.latitude, l.longitude, l.address, l.country,
      l.locationType, l.websiteUrl)
  }

  /** `createLocation`: the data with a slug id derived from the name. */
  function CreateLocation(data: GoogleMapsData, ops: TextOps): (r: LocationOutput)
    ensures DataOf(r) == data
    ensures r.id == GenerateId(data.name, ops)
    ensures IsSlug(r.id) && AlnumOf(r.id) == AlnumOf(ops.nfd(ops.lower(data.name)))
  {
    LocationOutput(GenerateId(data.name, ops), data.name, data.description, data.latitude,
      data.longitude, data.address, data.country, data.locationType, data.websiteUrl)
  }
}
