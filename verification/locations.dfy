/**
 * The derived country index and the annotated map input of the front end
 * (hooks/useLocations.ts), as pure functions of the dataset `videos: seq<Video>` in place of
 * the imported JSON file.
 */
module Locations {
  import opened Wrappers
  import opened Unicode
  import opened JsString
  import opened Arrays
  import opened Types

  // ---------------------------------------------------------------------------------------
  // Search matching
  // ---------------------------------------------------------------------------------------

  /** The search text as compared: lower-cased, then trimmed. */
  function NormalizeQuery(searchQuery: string, ops: TextOps): (q: string)
    ensures Trimmed(q)
    ensures exists i :: TrimOf(ops.lower(searchQuery), q, i)
  {
    Trim(ops.lower(searchQuery))
  }

  /** An empty query, or one found in the lower-cased title, matches the whole video. */
  predicate VideoMatches(v: Video, q: string, ops: TextOps) {
    q == "" || Contains(ops.lower(v.title), q)
  }

  /** The filter callback: the location's lower-cased name contains the query, or the video matches. */
  predicate LocationMatches(v: Video, l: Location, q: string, ops: TextOps) {
    Contains(ops.lower(l.name), q) || VideoMatches(v, q, ops)
  }

  function MatchingFrom(v: Video, ls: seq<Location>, q: string, ops: TextOps): (r: seq<Location>)
    ensures forall l :: l in r <==> l in ls && LocationMatches(v, l, q, ops)
  {
    if |ls| == 0 then []
    else
      var l := ls[|ls| - 1];
      var rest := MatchingFrom(v, ls[..|ls| - 1], q, ops);
      assert forall x :: x in ls <==> x in ls[..|ls| - 1] || x == l by {
        assert ls == ls[..|ls| - 1] + [l];
      }
      if LocationMatches(v, l, q, ops) then rest + [l] else rest
  }

  /**
   * The filter keeps order and repetitions: it distributes over concatenation and keeps a
   * single location exactly when it matches.
   */
  lemma {:induction false} MatchingFromAppend(v: Video, a: seq<Location>, b: seq<Location>,
                                              q: string, ops: TextOps)
    ensures MatchingFrom(v, a + b, q, ops) == MatchingFrom(v, a, q, ops) + MatchingFrom(v, b, q, ops)
    decreases |b|
  {
    if |b| == 0 {
      assert a + b == a;
    } else {
      var init, x := b[..|b| - 1], b[|b| - 1];
      assert (a + b)[..|a + b| - 1] == a + init;
      assert (a + b)[|a + b| - 1] == x;
      MatchingFromAppend(v, a, init, q, ops);
    }
  }

  /** A single location is kept exactly when it matches. */
  lemma MatchingFromSingle(v: Video, l: Location, q: string, ops: TextOps)
    ensures MatchingFrom(v, [l], q, ops) == if LocationMatches(v, l, q, ops) then [l] else []
  {
    assert [l][..0] == [];
  }

  /** `video.locations.filter(...)`: the video's matching locations, in their original order. */
  function MatchingLocations(v: Video, q: string, ops: TextOps): (r: seq<Location>)
    ensures forall l :: l in r <==> l in v.locations && LocationMatches(v, l, q, ops)
  {
    MatchingFrom(v, v.locations, q, ops)
  }

  /** The copy of a video stored in a bucket: its whole matching list and a defaulted `filterTitle`. */
  function BucketEntry(v: Video, matching: seq<Location>): (e: Video)
    ensures e.videoId == v.videoId && e.title == v.title && e.locations == matching
    ensures e.filterTitle == Some(if v.filterTitle.Some? then v.filterTitle.value else "")
    ensures e.(filterTitle := v.filterTitle, locations := v.locations) == v
  {
    v.(filterTitle := Some(v.filterTitle.GetOr("")), locations := matching)
  }

  // ---------------------------------------------------------------------------------------
  // The `countryMap` record, kept as buckets in insertion order
  // ---------------------------------------------------------------------------------------

  ghost predicate NamesUnique(m: seq<CountryData>) {
    forall i, j :: 0 <= i < j < |m| ==> m[i].name != m[j].name
  }

  function BucketIndexFrom(m: seq<CountryData>, name: string, from: nat): (r: Option<nat>)
    requires from <= |m|
    ensures r.Some? ==> from <= r.value < |m| && m[r.value].name == name
    ensures r.Some? ==> forall j :: from <= j < r.value ==> m[j].name != name
    ensures r.None? ==> forall j :: from <= j < |m| ==> m[j].name != name
    decreases |m| - from
  {
    if from == |m| then None
    else if m[from].name == name then Some(from)
    else BucketIndexFrom(m, name, from + 1)
  }

  /** Where `countryMap[name]` lives, if it exists. */
  function BucketIndex(m: seq<CountryData>, name: string): (r: Option<nat>)
    ensures r.Some? ==> r.value < |m| && m[r.value].name == name
    ensures r.None? ==> forall j :: 0 <= j < |m| ==> m[j].name != name
  {
    BucketIndexFrom(m, name, 0)
  }

  /** `countryMap[name]`, or `countries.find(c => c.name === name)` on a list of buckets. */
  function Lookup(m: seq<CountryData>, name: string): (r: Option<CountryData>)
    ensures r.Some? ==> r.value in m && r.value.name == name
    ensures r.None? ==> forall b :: b in m ==> b.name != name
  {
    match BucketIndex(m, name)
    case Some(i) => Some(m[i])
    case None => None
  }

  /** One matching location recorded in its bucket: its id once, the video entry once. */
  function Update(b: CountryData, entry: Video, l: Location): CountryData {
    b.(locations := AddUniqueBy(b.locations, l, LocationId),
       videos := AddUniqueBy(b.videos, entry, VideoId))
  }

  /** Create the location's bucket when missing, then record the location in it. */
  function AddLocation(m: seq<CountryData>, entry: Video, l: Location): seq<CountryData> {
    match BucketIndex(m, l.country)
    case Some(i) => m[i := Update(m[i], entry, l)]
    case None => m + [Update(CountryData(l.country, [], []), entry, l)]
  }

  /** The inner `forEach` over one video's matching locations. */
  function AddMatches(m: seq<CountryData>, entry: Video, ls: seq<Location>): seq<CountryData> {
    if |ls| == 0 then m
    else AddLocation(AddMatches(m, entry, ls[..|ls| - 1]), entry, ls[|ls| - 1])
  }

  /** The outer `forEach` over the videos, from an empty `countryMap`. */
  function IndexVideos(vs: seq<Video>, q: string, ops: TextOps): seq<CountryData> {
    if |vs| == 0 then []
    else
      var v := vs[|vs| - 1];
      var matching := MatchingLocations(v, q, ops);
      AddMatches(IndexVideos(vs[..|vs| - 1], q, ops), BucketEntry(v, matching), matching)
  }

  // ---------------------------------------------------------------------------------------
  // Sorting by `localeCompare` (a stable sort)
  // ---------------------------------------------------------------------------------------

  /** Successive bucket names are non-decreasing under the comparator. */
  ghost predicate SortedByName(s: seq<CountryData>, cmp: (string, string) -> int) {
    forall i :: 0 <= i < |s| - 1 ==> cmp(s[i].name, s[i + 1].name) <= 0
  }

  function InsertByName(b: CountryData, s: seq<CountryData>, cmp: (string, string) -> int): (r: seq<CountryData>)
    ensures multiset(r) == multiset(s) + multiset{b}
    ensures forall x :: x in r <==> x == b || x in s
    ensures r[|r| - 1] == b || (|s| > 0 && r[|r| - 1] == s[|s| - 1])
  {
    if |s| == 0 then [b]
    else
      var init, last := s[..|s| - 1], s[|s| - 1];
      assert s == init + [last];
      if cmp(last.name, b.name) <= 0 then s + [b]
      else InsertByName(b, init, cmp) + [last]
  }

  /** Inserting into a sorted list keeps it sorted, given only that the comparator is connected. */
  lemma {:induction false} InsertSorted(b: CountryData, s: seq<CountryData>, cmp: (string, string) -> int)
    requires ComparatorConnected(cmp) && SortedByName(s, cmp)
    ensures SortedByName(InsertByName(b, s, cmp), cmp)
    decreases |s|
  {
    if |s| > 0 {
      var init, last := s[..|s| - 1], s[|s| - 1];
      if cmp(last.name, b.name) > 0 {
        assert SortedByName(init, cmp);
        InsertSorted(b, init, cmp);
        var t := InsertByName(b, init, cmp);
        assert cmp(b.name, last.name) <= 0;
        assert |init| > 0 ==> cmp(init[|init| - 1].name, last.name) <= 0 by {
          if |init| > 0 {
            assert s[|s| - 2] == init[|init| - 1];
          }
        }
        var r := t + [last];
        assert InsertByName(b, s, cmp) == r;
        forall i | 0 <= i < |r| - 1
          ensures cmp(r[i].name, r[i + 1].name) <= 0
        {
          if i < |t| - 1 {
            assert r[i] == t[i] && r[i + 1] == t[i + 1];
          } else {
            assert r[i] == t[|t| - 1] && r[i + 1] == last;
          }
        }
      }
    }
  }

  /** Appending a bucket whose name is new keeps the names unique. */
  lemma AppendNameUnique(t: seq<CountryData>, x: CountryData)
    requires NamesUnique(t) && forall y :: y in t ==> y.name != x.name
    ensures NamesUnique(t + [x])
  {
    var r := t + [x];
    forall i, j | 0 <= i < j < |r|
      ensures r[i].name != r[j].name
    {
      assert r[i] == t[i];
      if j < |t| {
        assert r[j] == t[j];
      } else {
        assert t[i] in t;
      }
    }
  }

  /** Inserting a bucket whose name is new keeps the names unique. */
  lemma {:induction false} InsertNamesUnique(b: CountryData, s: seq<CountryData>, cmp: (string, string) -> int)
    requires NamesUnique(s) && forall x :: x in s ==> x.name != b.name
    ensures NamesUnique(InsertByName(b, s, cmp))
    decreases |s|
  {
    if |s| > 0 {
      var init, last := s[..|s| - 1], s[|s| - 1];
      assert s == init + [last];
      if cmp(last.name, b.name) > 0 {
        forall i, j | 0 <= i < j < |init|
          ensures init[i].name != init[j].name
        {
          assert init[i] == s[i] && init[j] == s[j];
        }
        InsertNamesUnique(b, init, cmp);
        var t := InsertByName(b, init, cmp);
        forall x | x in t
          ensures x.name != last.name
        {
          if x != b {
            var k :| 0 <= k < |init| && init[k] == x;
            assert s[k] == x;
          }
        }
        AppendNameUnique(t, last);
      } else {
        AppendNameUnique(s, b);
      }
    }
  }

  /** `.sort((a, b) => a.name.localeCompare(b.name))`: a stable insertion sort. */
  function SortByName(s: seq<CountryData>, cmp: (string, string) -> int): (r: seq<CountryData>)
    ensures multiset(r) == multiset(s)
    ensures forall x :: x in r <==> x in s
    ensures ComparatorConnected(cmp) ==> SortedByName(r, cmp)
    ensures NamesUnique(s) ==> NamesUnique(r)
  {
    if |s| == 0 then []
    else
      var init := s[..|s| - 1];
      assert s == init + [s[|s| - 1]];
      var sorted := SortByName(init, cmp);
      assert NamesUnique(s) ==> NamesUnique(init) && forall x :: x in init ==> x.name != s[|s| - 1].name;
      assert ComparatorConnected(cmp) ==> SortedByName(InsertByName(s[|s| - 1], sorted, cmp), cmp) by {
        if ComparatorConnected(cmp) {
          InsertSorted(s[|s| - 1], sorted, cmp);
        }
      }
      assert NamesUnique(s) ==> NamesUnique(InsertByName(s[|s| - 1], sorted, cmp)) by {
        if NamesUnique(s) {
          InsertNamesUnique(s[|s| - 1], sorted, cmp);
        }
      }
      InsertByName(s[|s| - 1], sorted, cmp)
  }

  /** The `countries` memo: the index for the current search text, sorted by country name. */
  function BuildCountries(videos: seq<Video>, searchQuery: string, ops: TextOps): seq<CountryData> {
    SortByName(IndexVideos(videos, NormalizeQuery(searchQuery, ops), ops), ops.localeCompare)
  }

  // ---------------------------------------------------------------------------------------
  // Reference definition of a bucket, country by country
  // ---------------------------------------------------------------------------------------

  /** The locations of `ls` in country `name`, in order. */
  function InCountry(ls: seq<Location>, name: string): (r: seq<Location>)
    ensures forall l :: l in r <==> l in ls && l.country == name
  {
    if |ls| == 0 then []
    else
      var l := ls[|ls| - 1];
      assert forall x :: x in ls <==> x in ls[..|ls| - 1] || x == l by {
        assert ls == ls[..|ls| - 1] + [l];
      }
      InCountry(ls[..|ls| - 1], name) + (if l.country == name then [l] else [])
  }

  /** Every matching location of country `name`, video by video, duplicates included. */
  function CountryMatches(vs: seq<Video>, q: string, ops: TextOps, name: string): seq<Location> {
    if |vs| == 0 then []
    else CountryMatches(vs[..|vs| - 1], q, ops, name) + InCountry(MatchingLocations(vs[|vs| - 1], q, ops), name)
  }

  /** The bucket entry of every video with a matching location in country `name`, duplicates included. */
  function Contributors(vs: seq<Video>, q: string, ops: TextOps, name: string): seq<Video> {
    if |vs| == 0 then []
    else
      var v := vs[|vs| - 1];
      var matching := MatchingLocations(v, q, ops);
      Contributors(vs[..|vs| - 1], q, ops, name)
        + (if |InCountry(matching, name)| > 0 then [BucketEntry(v, matching)] else [])
  }

  /** What the bucket for `name` should hold: its matches and contributors, first occurrence per key. */
  function RefBucket(vs: seq<Video>, q: string, ops: TextOps, name: string): CountryData {
    CountryData(name,
      DedupBy(CountryMatches(vs, q, ops, name), LocationId),
      DedupBy(Contributors(vs, q, ops, name), VideoId))
  }

  /** The bucket for `name` after the videos `vs` and the locations `done` of the current video. */
  function Expected(vs: seq<Video>, q: string, ops: TextOps, done: seq<Location>, entry: Video, name: string): Option<CountryData> {
    var locs := CountryMatches(vs, q, ops, name) + InCountry(done, name);
    if |locs| == 0 then None
    else Some(CountryData(name,
      DedupBy(locs, LocationId),
      DedupBy(Contributors(vs, q, ops, name) + (if |InCountry(done, name)| > 0 then [entry] else []), VideoId)))
  }

  lemma {:induction false} ContributorsNeedMatches(vs: seq<Video>, q: string, ops: TextOps, name: string)
    ensures |CountryMatches(vs, q, ops, name)| == 0 ==> Contributors(vs, q, ops, name) == []
    decreases |vs|
  {
    if |vs| > 0 {
      ContributorsNeedMatches(vs[..|vs| - 1], q, ops, name);
    }
  }

  lemma LookupMember(m: seq<CountryData>, b: CountryData)
    requires NamesUnique(m) && b in m
    ensures Lookup(m, b.name) == Some(b)
  {
  }

  /** How one `AddLocation` step changes the buckets. */
  lemma LookupAddLocation(m: seq<CountryData>, entry: Video, l: Location)
    requires NamesUnique(m)
    ensures NamesUnique(AddLocation(m, entry, l))
    ensures Lookup(AddLocation(m, entry, l), l.country)
      == Some(Update(Lookup(m, l.country).GetOr(CountryData(l.country, [], [])), entry, l))
    ensures forall n :: n != l.country ==> Lookup(AddLocation(m, entry, l), n) == Lookup(m, n)
  {
    var m' := AddLocation(m, entry, l);
    match BucketIndex(m, l.country)
    case Some(i) =>
      assert m'[i] == Update(m[i], entry, l);
      assert NamesUnique(m');
      LookupMember(m', m'[i]);
      forall n | n != l.country
        ensures Lookup(m', n) == Lookup(m, n)
      {
        var r := Lookup(m, n);
        if r.Some? {
          var j :| 0 <= j < |m| && m[j] == r.value;
          assert m'[j] == r.value;
          LookupMember(m', r.value);
        } else {
          assert forall b :: b in m' ==> b.name != n;
        }
      }
    case None =>
      assert m' == m + [Update(CountryData(l.country, [], []), entry, l)];
      assert NamesUnique(m');
      LookupMember(m', m'[|m|]);
      forall n | n != l.country
        ensures Lookup(m', n) == Lookup(m, n)
      {
        var r := Lookup(m, n);
        if r.Some? {
          LookupMember(m', r.value);
        }
      }
  }

  ghost predicate IndexIs(m: seq<CountryData>, vs: seq<Video>, q: string, ops: TextOps, done: seq<Location>, entry: Video) {
    NamesUnique(m) && forall name :: Lookup(m, name) == Expected(vs, q, ops, done, entry, name)
  }

  /** Recording `l` moves its own country's expected bucket one location on. */
  lemma ExpectedHere(m: seq<CountryData>, vs: seq<Video>, q: string, ops: TextOps, done: seq<Location>, entry: Video, l: Location)
    requires Lookup(m, l.country) == Expected(vs, q, ops, done, entry, l.country)
    ensures Some(Update(Lookup(m, l.country).GetOr(CountryData(l.country, [], [])), entry, l))
      == Expected(vs, q, ops, done + [l], entry, l.country)
  {
    var name := l.country;
    var cm := CountryMatches(vs, q, ops, name);
    var cv := Contributors(vs, q, ops, name);
    var d := InCountry(done, name);
    assert (done + [l])[..|done|] == done;
    assert InCountry(done + [l], name) == d + [l];
    assert (cm + d) + [l] == cm + (d + [l]);
    DedupBySnoc(cm + d, l, LocationId);
    if |cm + d| == 0 {
      ContributorsNeedMatches(vs, q, ops, name);
      assert cv + [entry] == [] + [entry];
      DedupBySnoc([], entry, VideoId);
    } else {
      DedupBySnoc(cv, entry, VideoId);
      if |d| > 0 {
        AddUniqueByTwice(DedupBy(cv, VideoId), entry, VideoId);
      } else {
        assert cv + [] == cv;
      }
    }
  }

  /** Recording `l` leaves every other country's expected bucket as it was. */
  lemma ExpectedElsewhere(vs: seq<Video>, q: string, ops: TextOps, done: seq<Location>, entry: Video, l: Location, name: string)
    requires name != l.country
    ensures Expected(vs, q, ops, done + [l], entry, name) == Expected(vs, q, ops, done, entry, name)
  {
    assert (done + [l])[..|done|] == done;
    var d := InCountry(done, name);
    assert InCountry(done + [l], name) == d + [];
    assert d + [] == d;
  }

  lemma AddLocationStep(m: seq<CountryData>, vs: seq<Video>, q: string, ops: TextOps, done: seq<Location>, entry: Video, l: Location)
    requires IndexIs(m, vs, q, ops, done, entry)
    ensures IndexIs(AddLocation(m, entry, l), vs, q, ops, done + [l], entry)
  {
    var m' := AddLocation(m, entry, l);
    LookupAddLocation(m, entry, l);
    ExpectedHere(m, vs, q, ops, done, entry, l);
    forall name ensures Lookup(m', name) == Expected(vs, q, ops, done + [l], entry, name) {
      if name != l.country {
        ExpectedElsewhere(vs, q, ops, done, entry, l, name);
      }
    }
  }

  lemma {:induction false} AddMatchesStep(m: seq<CountryData>, vs: seq<Video>, q: string, ops: TextOps, entry: Video, ls: seq<Location>)
    requires IndexIs(m, vs, q, ops, [], entry)
    ensures IndexIs(AddMatches(m, entry, ls), vs, q, ops, ls, entry)
    decreases |ls|
  {
    if |ls| > 0 {
      var init := ls[..|ls| - 1];
      AddMatchesStep(m, vs, q, ops, entry, init);
      AddLocationStep(AddMatches(m, entry, init), vs, q, ops, init, entry, ls[|ls| - 1]);
      assert init + [ls[|ls| - 1]] == ls;
    }
  }

  /** After the first `k` videos, `countryMap[name]` is exactly the reference bucket, when it exists. */
  lemma {:induction false} IndexVideosIsRef(vs: seq<Video>, q: string, ops: TextOps)
    ensures NamesUnique(IndexVideos(vs, q, ops))
    ensures forall name :: (Lookup(IndexVideos(vs, q, ops), name) ==
      if |CountryMatches(vs, q, ops, name)| > 0 then Some(RefBucket(vs, q, ops, name)) else None)
    decreases |vs|
  {
    if |vs| > 0 {
      var init, v := vs[..|vs| - 1], vs[|vs| - 1];
      var matching := MatchingLocations(v, q, ops);
      var entry := BucketEntry(v, matching);
      var m := IndexVideos(init, q, ops);
      IndexVideosIsRef(init, q, ops);
      forall name ensures Lookup(m, name) == Expected(init, q, ops, [], entry, name) {
        assert CountryMatches(init, q, ops, name) + InCountry([], name) == CountryMatches(init, q, ops, name);
        assert Contributors(init, q, ops, name) + [] == Contributors(init, q, ops, name);
      }
      AddMatchesStep(m, init, q, ops, entry, matching);
    }
  }

  // ---------------------------------------------------------------------------------------
  // What the country index promises
  // ---------------------------------------------------------------------------------------

  /** A location lands when the query is empty or found in the video's title or in its own name. */
  predicate Lands(v: Video, l: Location, q: string, ops: TextOps) {
    q == "" || Contains(ops.lower(v.title), q) || Contains(ops.lower(l.name), q)
  }

  lemma {:induction false} CountryMatchesIff(vs: seq<Video>, q: string, ops: TextOps, name: string, l: Location)
    ensures l in CountryMatches(vs, q, ops, name) <==>
      l.country == name && exists v :: v in vs && l in v.locations && Lands(v, l, q, ops)
    decreases |vs|
  {
    if |vs| > 0 {
      var init, v := vs[..|vs| - 1], vs[|vs| - 1];
      assert vs == init + [v];
      CountryMatchesIff(init, q, ops, name, l);
      ContainsEmpty(ops.lower(l.name));
      if l.country == name && exists w :: w in vs && l in w.locations && Lands(w, l, q, ops) {
        var w :| w in vs && l in w.locations && Lands(w, l, q, ops);
        if w != v {
          assert w in init;
        }
      }
    }
  }

  /** Video `v` has a landing location in country `name`. */
  predicate LandsIn(v: Video, q: string, ops: TextOps, name: string) {
    |InCountry(MatchingLocations(v, q, ops), name)| > 0
  }

  lemma LandsInIff(v: Video, q: string, ops: TextOps, name: string)
    ensures LandsIn(v, q, ops, name) <==> exists l :: l in v.locations && l.country == name && Lands(v, l, q, ops)
  {
    var ic := InCountry(MatchingLocations(v, q, ops), name);
    if |ic| > 0 {
      assert ic[0] in ic;
      ContainsEmpty(ops.lower(ic[0].name));
    }
    if exists l :: l in v.locations && l.country == name && Lands(v, l, q, ops) {
      var l :| l in v.locations && l.country == name && Lands(v, l, q, ops);
      ContainsEmpty(ops.lower(l.name));
      assert l in ic;
    }
  }

  lemma {:induction false} ContributorsIff(vs: seq<Video>, q: string, ops: TextOps, name: string, e: Video)
    ensures e in Contributors(vs, q, ops, name) <==>
      exists v :: v in vs && LandsIn(v, q, ops, name) && e == BucketEntry(v, MatchingLocations(v, q, ops))
    decreases |vs|
  {
    if |vs| > 0 {
      var init, v := vs[..|vs| - 1], vs[|vs| - 1];
      assert vs == init + [v];
      ContributorsIff(init, q, ops, name, e);
      assert Contributors(vs, q, ops, name) == Contributors(init, q, ops, name)
        + (if LandsIn(v, q, ops, name) then [BucketEntry(v, MatchingLocations(v, q, ops))] else []);
      if exists w :: w in vs && LandsIn(w, q, ops, name) && e == BucketEntry(w, MatchingLocations(w, q, ops)) {
        var w :| w in vs && LandsIn(w, q, ops, name) && e == BucketEntry(w, MatchingLocations(w, q, ops));
        if w != v {
          assert w in init;
        }
      }
    }
  }

  /** A bucket copy of a dataset video that has a landing location in country `name`. */
  ghost predicate IsEntryOf(e: Video, videos: seq<Video>, q: string, ops: TextOps, name: string) {
    exists v :: v in videos && LandsIn(v, q, ops, name) && e == BucketEntry(v, MatchingLocations(v, q, ops))
  }

  /** The reference bucket's locations: one per id, the first landing one, all of its country. */
  lemma RefBucketLocations(videos: seq<Video>, q: string, ops: TextOps, name: string)
    requires |CountryMatches(videos, q, ops, name)| > 0
    ensures var b := RefBucket(videos, q, ops, name);
      && |b.locations| >= 1
      && KeysUnique(b.locations, LocationId)
      && (forall l :: l in b.locations ==> l.country == name)
      && (forall l :: l in b.locations ==> exists v :: v in videos && l in v.locations && Lands(v, l, q, ops))
      && (forall l :: l in b.locations ==>
            FirstWithKey(CountryMatches(videos, q, ops, name), LocationId, l.id) == Some(l))
  {
    var cm := CountryMatches(videos, q, ops, name);
    DedupByFacts(cm, LocationId);
    assert HasKey(cm, LocationId, cm[0].id);
    forall l | l in DedupBy(cm, LocationId)
      ensures l.country == name && exists v :: v in videos && l in v.locations && Lands(v, l, q, ops)
    {
      CountryMatchesIff(videos, q, ops, name, l);
    }
  }

  /** The reference bucket's videos: one per `videoId`, each a contributing video's bucket copy. */
  lemma RefBucketVideos(videos: seq<Video>, q: string, ops: TextOps, name: string)
    requires |CountryMatches(videos, q, ops, name)| > 0
    ensures var b := RefBucket(videos, q, ops, name);
      && |b.videos| >= 1
      && KeysUnique(b.videos, VideoId)
      && (forall e :: e in b.videos ==> IsEntryOf(e, videos, q, ops, name))
  {
    var cm := CountryMatches(videos, q, ops, name);
    var cv := Contributors(videos, q, ops, name);
    DedupByFacts(cv, VideoId);
    var l0 := cm[0];
    CountryMatchesIff(videos, q, ops, name, l0);
    var v0 :| v0 in videos && l0 in v0.locations && Lands(v0, l0, q, ops);
    LandsInIff(v0, q, ops, name);
    var e0 := BucketEntry(v0, MatchingLocations(v0, q, ops));
    ContributorsIff(videos, q, ops, name, e0);
    HasKeyMember(cv, e0, VideoId);
    forall e | e in DedupBy(cv, VideoId)
      ensures IsEntryOf(e, videos, q, ops, name)
    {
      ContributorsIff(videos, q, ops, name, e);
    }
  }

  /** A landing location's id is in the reference bucket of its country. */
  lemma RefBucketRecordsLocation(videos: seq<Video>, q: string, ops: TextOps, v: Video, l: Location)
    requires v in videos && l in v.locations && Lands(v, l, q, ops)
    ensures |CountryMatches(videos, q, ops, l.country)| > 0
    ensures HasKey(RefBucket(videos, q, ops, l.country).locations, LocationId, l.id)
  {
    var cm := CountryMatches(videos, q, ops, l.country);
    CountryMatchesIff(videos, q, ops, l.country, l);
    DedupByFacts(cm, LocationId);
    HasKeyMember(cm, l, LocationId);
  }

  /** The video of a landing location is in the reference bucket of the location's country. */
  lemma RefBucketRecordsVideo(videos: seq<Video>, q: string, ops: TextOps, v: Video, l: Location)
    requires v in videos && l in v.locations && Lands(v, l, q, ops)
    ensures HasKey(RefBucket(videos, q, ops, l.country).videos, VideoId, v.videoId)
  {
    var cv := Contributors(videos, q, ops, l.country);
    LandsInIff(v, q, ops, l.country);
    var e := BucketEntry(v, MatchingLocations(v, q, ops));
    ContributorsIff(videos, q, ops, l.country, e);
    DedupByFacts(cv, VideoId);
    HasKeyMember(cv, e, VideoId);
  }

  /** Every bucket of the index is exactly the reference bucket of its country. */
  lemma BucketIsRef(videos: seq<Video>, searchQuery: string, ops: TextOps, b: CountryData)
    requires b in BuildCountries(videos, searchQuery, ops)
    ensures |CountryMatches(videos, NormalizeQuery(searchQuery, ops), ops, b.name)| > 0
    ensures b == RefBucket(videos, NormalizeQuery(searchQuery, ops), ops, b.name)
  {
    var q := NormalizeQuery(searchQuery, ops);
    var m := IndexVideos(videos, q, ops);
    IndexVideosIsRef(videos, q, ops);
    assert b in m;
    LookupMember(m, b);
  }

  /** The index has a bucket for a country exactly when some location of that country lands. */
  lemma BucketExistsIff(videos: seq<Video>, searchQuery: string, ops: TextOps, name: string)
    ensures var q := NormalizeQuery(searchQuery, ops);
      Lookup(BuildCountries(videos, searchQuery, ops), name)
        == (if |CountryMatches(videos, q, ops, name)| > 0 then Some(RefBucket(videos, q, ops, name)) else None)
  {
    var q := NormalizeQuery(searchQuery, ops);
    var m := IndexVideos(videos, q, ops);
    var r := BuildCountries(videos, searchQuery, ops);
    IndexVideosIsRef(videos, q, ops);
    var found := Lookup(m, name);
    if found.Some? {
      assert found.value in r;
      LookupMember(r, found.value);
    }
  }

  /**
   * The buckets are sorted by name under `localeCompare` (when it orders every pair one way or
   * the other), and no two share a name.
   */
  lemma CountriesSortedAndDistinct(videos: seq<Video>, searchQuery: string, ops: TextOps)
    ensures ComparatorConnected(ops.localeCompare) ==> SortedByName(BuildCountries(videos, searchQuery, ops), ops.localeCompare)
    ensures NamesUnique(BuildCountries(videos, searchQuery, ops))
  {
    IndexVideosIsRef(videos, NormalizeQuery(searchQuery, ops), ops);
  }

  /**
   * A bucket's locations: at least one, all of its country, each a landing location of some
   * video, no id twice, and for each id the first landing location with that id.
   */
  lemma BucketLocations(videos: seq<Video>, searchQuery: string, ops: TextOps, b: CountryData)
    requires b in BuildCountries(videos, searchQuery, ops)
    ensures |b.locations| >= 1
    ensures forall l :: l in b.locations ==> l.country == b.name
    ensures forall l :: l in b.locations ==>
      exists v :: v in videos && l in v.locations && Lands(v, l, NormalizeQuery(searchQuery, ops), ops)
    ensures KeysUnique(b.locations, LocationId)
    ensures forall l :: l in b.locations ==>
      FirstWithKey(CountryMatches(videos, NormalizeQuery(searchQuery, ops), ops, b.name), LocationId, l.id) == Some(l)
  {
    BucketIsRef(videos, searchQuery, ops, b);
    RefBucketLocations(videos, NormalizeQuery(searchQuery, ops), ops, b.name);
  }

  /**
   * A bucket's videos: at least one, no `videoId` twice, and each the bucket copy of a dataset
   * video that has a landing location in the bucket's country, carrying that video's whole
   * matching list (other countries included) and a defaulted `filterTitle`.
   */
  lemma BucketVideos(videos: seq<Video>, searchQuery: string, ops: TextOps, b: CountryData)
    requires b in BuildCountries(videos, searchQuery, ops)
    ensures |b.videos| >= 1
    ensures KeysUnique(b.videos, VideoId)
    ensures forall e :: e in b.videos ==> e.filterTitle.Some? && IsEntryOf(e, videos, NormalizeQuery(searchQuery, ops), ops, b.name)
  {
    BucketIsRef(videos, searchQuery, ops, b);
    RefBucketVideos(videos, NormalizeQuery(searchQuery, ops), ops, b.name);
  }

  /**
   * Every landing location is recorded: its country has a bucket holding its id and an entry
   * for its video.
   */
  lemma LandingLocationRecorded(videos: seq<Video>, searchQuery: string, ops: TextOps, v: Video, l: Location)
    requires v in videos && l in v.locations
    requires Lands(v, l, NormalizeQuery(searchQuery, ops), ops)
    ensures Lookup(BuildCountries(videos, searchQuery, ops), l.country).Some?
    ensures HasKey(Lookup(BuildCountries(videos, searchQuery, ops), l.country).value.locations, LocationId, l.id)
    ensures HasKey(Lookup(BuildCountries(videos, searchQuery, ops), l.country).value.videos, VideoId, v.videoId)
  {
    RefBucketRecordsLocation(videos, NormalizeQuery(searchQuery, ops), ops, v, l);
    RefBucketRecordsVideo(videos, NormalizeQuery(searchQuery, ops), ops, v, l);
    BucketExistsIff(videos, searchQuery, ops, l.country);
  }

  /** `videos.flatMap(video => video.locations)`: every location, in video order. */
  function AllLocations(videos: seq<Video>): (r: seq<Location>)
    ensures forall x :: x in r <==> exists v :: v in videos && x in v.locations
  {
    if |videos| == 0 then []
    else
      var init, v := videos[..|videos| - 1], videos[|videos| - 1];
      assert videos == init + [v];
      var r := AllLocations(init) + v.locations;
      assert forall x :: x in r <==> exists w :: w in videos && x in w.locations by {
        forall x | exists w :: w in videos && x in w.locations
          ensures x in r
        {
          var w :| w in videos && x in w.locations;
          if w != v {
            assert w in init;
          }
        }
      }
      r
  }

  /** One video contributes its own list. */
  lemma AllLocationsSingle(v: Video)
    ensures AllLocations([v]) == v.locations
  {
    assert [v][..0] == [];
  }

  /** The flattening keeps order and repetitions: one video's list, then the next one's. */
  lemma {:induction false} AllLocationsAppend(a: seq<Video>, b: seq<Video>)
    ensures AllLocations(a + b) == AllLocations(a) + AllLocations(b)
    decreases |b|
  {
    if |b| == 0 {
      assert a + b == a;
    } else {
      var init, x := b[..|b| - 1], b[|b| - 1];
      assert (a + b)[..|a + b| - 1] == a + init;
      assert (a + b)[|a + b| - 1] == x;
      AllLocationsAppend(a, init);
    }
  }

  /** All location records of the dataset that share an id are the same record. */
  ghost predicate IdsDetermineLocations(videos: seq<Video>) {
    forall x, y :: x in AllLocations(videos) && y in AllLocations(videos) && x.id == y.id ==> x == y
  }

  /**
   * With ids that identify locations, a dataset location is recorded in its country's bucket
   * if and only if it lands for at least one video that lists it.
   */
  lemma LandsIff(videos: seq<Video>, searchQuery: string, ops: TextOps, l: Location)
    requires IdsDetermineLocations(videos)
    requires l in AllLocations(videos)
    ensures (Lookup(BuildCountries(videos, searchQuery, ops), l.country).Some?
        && HasKey(Lookup(BuildCountries(videos, searchQuery, ops), l.country).value.locations, LocationId, l.id))
      <==> exists v :: v in videos && l in v.locations && Lands(v, l, NormalizeQuery(searchQuery, ops), ops)
  {
    var q := NormalizeQuery(searchQuery, ops);
    var found := Lookup(BuildCountries(videos, searchQuery, ops), l.country);
    if exists v :: v in videos && l in v.locations && Lands(v, l, q, ops) {
      var v :| v in videos && l in v.locations && Lands(v, l, q, ops);
      LandingLocationRecorded(videos, searchQuery, ops, v, l);
    }
    if found.Some? && HasKey(found.value.locations, LocationId, l.id) {
      var b := found.value;
      BucketLocations(videos, searchQuery, ops, b);
      var i :| 0 <= i < |b.locations| && b.locations[i].id == l.id;
      var x := b.locations[i];
      assert x in b.locations;
      var w :| w in videos && x in w.locations && Lands(w, x, q, ops);
      assert x in AllLocations(videos);
      assert x == l;
    }
  }

  /** With an empty query (after lower-casing and trimming) every location lands. */
  lemma EmptyQueryKeepsAll(videos: seq<Video>, searchQuery: string, ops: TextOps, v: Video, l: Location)
    requires NormalizeQuery(searchQuery, ops) == ""
    requires v in videos && l in v.locations
    ensures Lookup(BuildCountries(videos, searchQuery, ops), l.country).Some?
    ensures HasKey(Lookup(BuildCountries(videos, searchQuery, ops), l.country).value.locations, LocationId, l.id)
  {
    LandingLocationRecorded(videos, searchQuery, ops, v, l);
  }

  // ---------------------------------------------------------------------------------------
  // Counts and the annotated map input
  // ---------------------------------------------------------------------------------------

  /** `videos.reduce((acc, video) => acc + video.locations.length, 0)`. */
  function TotalLocations(videos: seq<Video>): (n: nat)
    ensures n == |AllLocations(videos)|
  {
    if |videos| == 0 then 0
    else TotalLocations(videos[..|videos| - 1]) + |videos[|videos| - 1].locations|
  }

  /** `videos.filter(video => video.locations && video.locations.length > 0).length`. */
  function VideoCount(videos: seq<Video>): (n: nat)
    ensures n <= |videos| && n <= TotalLocations(videos)
    ensures n == 0 <==> TotalLocations(videos) == 0
    ensures n == |videos| <==> forall v :: v in videos ==> |v.locations| > 0
  {
    if |videos| == 0 then 0
    else
      var init, v := videos[..|videos| - 1], videos[|videos| - 1];
      assert videos == init + [v];
      VideoCount(init) + (if |v.locations| > 0 then 1 else 0)
  }

  /** One video counts exactly when it has a location. */
  lemma VideoCountSingle(v: Video)
    ensures VideoCount([v]) == if |v.locations| > 0 then 1 else 0
  {
    assert [v][..0] == [];
  }

  /** The count adds up over concatenation, and one video counts when it has a location. */
  lemma {:induction false} VideoCountAppend(a: seq<Video>, b: seq<Video>)
    ensures VideoCount(a + b) == VideoCount(a) + VideoCount(b)
    decreases |b|
  {
    if |b| == 0 {
      assert a + b == a;
    } else {
      var init, x := b[..|b| - 1], b[|b| - 1];
      assert (a + b)[..|a + b| - 1] == a + init;
      assert (a + b)[|a + b| - 1] == x;
      VideoCountAppend(a, init);
    }
  }

  /** A selection counts only when it is a non-empty string (JavaScript truthiness). */
  predicate Truthy(selection: Option<string>) {
    selection.Some? && selection.value != ""
  }

  /** A location decorated with the projection flag; the location itself is unchanged. */
  datatype AnnotatedLocation = AnnotatedLocation(location: Location, isFilteredOut: bool)

  /**
   * The flag for one location: against the selected video's raw locations when a video is
   * selected, else against the selected country's bucket, else never.
   */
  predicate FilteredOut(videos: seq<Video>, countries: seq<CountryData>,
                        selectedCountry: Option<string>, selectedVideo: Option<string>, l: Location)
  {
    if Truthy(selectedVideo) then
      match FirstWithKey(videos, VideoId, selectedVideo.value)
      case None => true
      case Some(v) => !HasKey(v.locations, LocationId, l.id)
    else if Truthy(selectedCountry) then
      match Lookup(countries, selectedCountry.value)
      case None => true
      case Some(b) => !HasKey(b.locations, LocationId, l.id)
    else false
  }

  /** The `filteredLocations` memo: every location, each with its `isFilteredOut` flag. */
  function AnnotateLocations(videos: seq<Video>, countries: seq<CountryData>,
                             selectedCountry: Option<string>, selectedVideo: Option<string>): (r: seq<AnnotatedLocation>)
    ensures |r| == |AllLocations(videos)| == TotalLocations(videos)
    ensures forall i :: 0 <= i < |r| ==> r[i].location == AllLocations(videos)[i]
  {
    var all := AllLocations(videos);
    seq(|all|, i requires 0 <= i < |all| =>
      AnnotatedLocation(all[i], FilteredOut(videos, countries, selectedCountry, selectedVideo, all[i])))
  }

  /**
   * With a video selected, a location is flagged exactly when the first video with that id
   * lists no location with its id; the selected country and the buckets play no part.
   */
  lemma SelectedVideoDecides(videos: seq<Video>, countries: seq<CountryData>,
                             selectedCountry: Option<string>, selectedVideo: Option<string>)
    requires Truthy(selectedVideo)
    ensures var r := AnnotateLocations(videos, countries, selectedCountry, selectedVideo);
      var found := FirstWithKey(videos, VideoId, selectedVideo.value);
      forall i :: 0 <= i < |r| ==>
        (r[i].isFilteredOut <==> found.None? || !HasKey(found.value.locations, LocationId, r[i].location.id))
  {
  }

  /** A selected video takes precedence: the country selection and the index are ignored. */
  lemma VideoTakesPrecedence(videos: seq<Video>, countries: seq<CountryData>, otherCountries: seq<CountryData>,
                             selectedCountry: Option<string>, selectedVideo: Option<string>)
    requires Truthy(selectedVideo)
    ensures AnnotateLocations(videos, countries, selectedCountry, selectedVideo)
         == AnnotateLocations(videos, otherCountries, None, selectedVideo)
  {
  }

  /** A selected video id that no video has flags every location. */
  lemma UnknownVideoFlagsAll(videos: seq<Video>, countries: seq<CountryData>,
                             selectedCountry: Option<string>, selectedVideo: Option<string>)
    requires Truthy(selectedVideo)
    requires forall v :: v in videos ==> v.videoId != selectedVideo.value
    ensures forall a :: a in AnnotateLocations(videos, countries, selectedCountry, selectedVideo) ==> a.isFilteredOut
  {
    assert !HasKey(videos, VideoId, selectedVideo.value);
  }

  /**
   * With only a country selected, a location is flagged exactly when the current index has no
   * bucket of that name or the bucket lacks its id.
   */
  lemma SelectedCountryDecides(videos: seq<Video>, countries: seq<CountryData>,
                               selectedCountry: Option<string>, selectedVideo: Option<string>)
    requires !Truthy(selectedVideo) && Truthy(selectedCountry)
    ensures var r := AnnotateLocations(videos, countries, selectedCountry, selectedVideo);
      var bucket := Lookup(countries, selectedCountry.value);
      forall i :: 0 <= i < |r| ==>
        (r[i].isFilteredOut <==> bucket.None? || !HasKey(bucket.value.locations, LocationId, r[i].location.id))
  {
  }

  /** With neither selection set, nothing is flagged. */
  lemma NoSelectionFlagsNothing(videos: seq<Video>, countries: seq<CountryData>,
                                selectedCountry: Option<string>, selectedVideo: Option<string>)
    requires !Truthy(selectedVideo) && !Truthy(selectedCountry)
    ensures forall a :: a in AnnotateLocations(videos, countries, selectedCountry, selectedVideo) ==> !a.isFilteredOut
  {
  }

  /**
   * Against the index of the current search text, a country selection flags a location
   * exactly when no location with its id and of that country lands for the search.
   */
  lemma SelectedCountryAgainstIndex(videos: seq<Video>, searchQuery: string, ops: TextOps,
                                    selectedCountry: Option<string>, selectedVideo: Option<string>, i: nat)
    requires !Truthy(selectedVideo) && Truthy(selectedCountry)
    requires i < TotalLocations(videos)
    ensures var r := AnnotateLocations(videos, BuildCountries(videos, searchQuery, ops), selectedCountry, selectedVideo);
      r[i].isFilteredOut <==>
        !exists l :: l in CountryMatches(videos, NormalizeQuery(searchQuery, ops), ops, selectedCountry.value)
                     && l.id == r[i].location.id
  {
    var q := NormalizeQuery(searchQuery, ops);
    var name := selectedCountry.value;
    var cm := CountryMatches(videos, q, ops, name);
    var id := AllLocations(videos)[i].id;
    BucketExistsIff(videos, searchQuery, ops, name);
    DedupByFacts(cm, LocationId);
    if exists l :: l in cm && l.id == id {
      var l :| l in cm && l.id == id;
      HasKeyMember(cm, l, LocationId);
    }
  }

  /** The markers drawn: the annotated entries that are not flagged, in order. */
  function VisibleLocations(annotated: seq<AnnotatedLocation>): (r: seq<AnnotatedLocation>)
    ensures forall a :: a in r <==> a in annotated && !a.isFilteredOut
    ensures |r| <= |annotated|
  {
    if |annotated| == 0 then []
    else
      var init, a := annotated[..|annotated| - 1], annotated[|annotated| - 1];
      assert annotated == init + [a];
      VisibleLocations(init) + (if a.isFilteredOut then [] else [a])
  }

  /** One entry is drawn exactly when it is not flagged. */
  lemma VisibleLocationsSingle(x: AnnotatedLocation)
    ensures VisibleLocations([x]) == if x.isFilteredOut then [] else [x]
  {
    assert [x][..0] == [];
  }

  /** Filtering one more entry is filtering the rest and then that entry. */
  lemma VisibleLocationsSnoc(s: seq<AnnotatedLocation>, x: AnnotatedLocation)
    ensures VisibleLocations(s + [x]) == VisibleLocations(s) + (if x.isFilteredOut then [] else [x])
  {
    assert (s + [x])[..|s|] == s;
  }

  /** The filter keeps order and repetitions: it distributes over concatenation. */
  lemma {:induction false} VisibleLocationsAppend(a: seq<AnnotatedLocation>, b: seq<AnnotatedLocation>)
    ensures VisibleLocations(a + b) == VisibleLocations(a) + VisibleLocations(b)
    decreases |b|
  {
    if |b| == 0 {
      assert a + b == a;
    } else {
      var init, x := b[..|b| - 1], b[|b| - 1];
      assert b == init + [x];
      assert a + b == (a + init) + [x];
      var last := if x.isFilteredOut then [] else [x];
      calc {
        VisibleLocations(a + b);
        { VisibleLocationsSnoc(a + init, x); }
        VisibleLocations(a + init) + last;
        { VisibleLocationsAppend(a, init); }
        (VisibleLocations(a) + VisibleLocations(init)) + last;
        VisibleLocations(a) + (VisibleLocations(init) + last);
        { VisibleLocationsSnoc(init, x); }
        VisibleLocations(a) + VisibleLocations(b);
      }
    }
  }
}
