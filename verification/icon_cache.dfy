/**
 * The marker icon memo table (hooks/useIconCache.ts). Icons are kept in a map under a string
 * key built from the type and three flags; the title is not part of the key. The icon maker
 * is a parameter that receives the arguments of the call at line 31 position by position.
 */
module IconCache {
  import opened Wrappers

  /** The arguments of `createCustomIcon(type, '', isSelected, isFilteredOut, isMobile)`, in order. */
  datatype CreateCall = CreateCall(arg0: string, arg1: string, arg2: bool, arg3: bool, arg4: bool)

  /** The call `getIcon` makes on a miss. */
  function CallFor(t: string, isSelected: bool, isFilteredOut: bool, isMobile: bool): CreateCall {
    CreateCall(t, "", isSelected, isFilteredOut, isMobile)
  }

  function SelectedWord(isSelected: bool): string { if isSelected then "selected" else "normal" }
  function FilteredWord(isFilteredOut: bool): string { if isFilteredOut then "filtered" else "active" }
  function DeviceWord(isMobile: bool): string { if isMobile then "mobile" else "desktop" }

  /** `cacheKey`. */
  function CacheKey(t: string, isSelected: bool, isFilteredOut: bool, isMobile: bool): string {
    t + "-" + SelectedWord(isSelected) + "-" + FilteredWord(isFilteredOut) + "-" + DeviceWord(isMobile)
  }

  /**
   * Two equal strings that end in words which are equal or differ in their last character
   * end in the same word after the same prefix.
   */
  lemma PeelLast(x1: string, w1: string, x2: string, w2: string)
    requires x1 + w1 == x2 + w2
    requires w1 == w2 || (|w1| > 0 && |w2| > 0 && w1[|w1| - 1] != w2[|w2| - 1])
    ensures w1 == w2 && x1 == x2
  {
    assert |w1| > 0 ==> (x1 + w1)[|x1 + w1| - 1] == w1[|w1| - 1];
    assert |w2| > 0 ==> (x2 + w2)[|x2 + w2| - 1] == w2[|w2| - 1];
    assert x1 == (x1 + w1)[..|x1|];
    assert x2 == (x2 + w2)[..|x2|];
  }

  /**
   * Different arguments give different keys, even though the type may itself contain `-`:
   * the three flag words are read back from the end of the key.
   */
  lemma CacheKeyInjective(t1: string, s1: bool, f1: bool, m1: bool,
                          t2: string, s2: bool, f2: bool, m2: bool)
    requires CacheKey(t1, s1, f1, m1) == CacheKey(t2, s2, f2, m2)
    ensures t1 == t2 && s1 == s2 && f1 == f2 && m1 == m2
  {
    var r1, r2 := t1 + "-", t2 + "-";
    var q1, q2 := r1 + SelectedWord(s1) + "-", r2 + SelectedWord(s2) + "-";
    var p1, p2 := q1 + FilteredWord(f1) + "-", q2 + FilteredWord(f2) + "-";
    PeelLast(p1, DeviceWord(m1), p2, DeviceWord(m2));
    PeelLast(q1 + FilteredWord(f1), "-", q2 + FilteredWord(f2), "-");
    PeelLast(q1, FilteredWord(f1), q2, FilteredWord(f2));
    PeelLast(r1 + SelectedWord(s1), "-", r2 + SelectedWord(s2), "-");
    PeelLast(r1, SelectedWord(s1), r2, SelectedWord(s2));
    PeelLast(t1, "-", t2, "-");
  }

  /**
   * The outcome of one `getIcon` call: the icon (`None` when the maker throws), the table
   * afterwards, and whether the maker was called.
   */
  datatype Lookup<Icon> = Lookup(icon: Option<Icon>, cache: map<string, Icon>, called: bool)

  /**
   * `getIcon`. The maker returns `None` where `createCustomIcon` throws: the exception leaves
   * `getIcon` before the `set`, so nothing is stored and the next call tries again.
   */
  function GetIcon<Icon>(cache: map<string, Icon>, create: CreateCall -> Option<Icon>, t: string,
                         title: string, isSelected: bool, isFilteredOut: bool, isMobile: bool)
    : (r: Lookup<Icon>)
    ensures r.called <==> CacheKey(t, isSelected, isFilteredOut, isMobile) !in cache
    ensures !r.called ==>
      r.cache == cache && r.icon == Some(cache[CacheKey(t, isSelected, isFilteredOut, isMobile)])
    ensures r.called ==> r.icon == create(CallFor(t, isSelected, isFilteredOut, isMobile))
    ensures r.icon.None? ==> r.cache == cache
    ensures r.icon.Some? ==>
      r.cache.Keys == cache.Keys + {CacheKey(t, isSelected, isFilteredOut, isMobile)} &&
      r.cache[CacheKey(t, isSelected, isFilteredOut, isMobile)] == r.icon.value
    ensures forall k :: k in cache ==> k in r.cache && r.cache[k] == cache[k]
  {
    var key := CacheKey(t, isSelected, isFilteredOut, isMobile);
    if key in cache then Lookup(Some(cache[key]), cache, false)
    else
      match create(CallFor(t, isSelected, isFilteredOut, isMobile))
      case None => Lookup(None, cache, true)
      case Some(icon) => Lookup(Some(icon), cache[key := icon], true)
  }

  /** `clearCache`. */
  function ClearCache<Icon>(cache: map<string, Icon>): (r: map<string, Icon>)
    ensures |r| == 0
  {
    map[]
  }

  /** The title never reaches the table or the icon maker. */
  lemma GetIconIgnoresTitle<Icon>(cache: map<string, Icon>, create: CreateCall -> Option<Icon>,
                                  t: string, title1: string, title2: string,
                                  isSelected: bool, isFilteredOut: bool, isMobile: bool)
    ensures GetIcon(cache, create, t, title1, isSelected, isFilteredOut, isMobile) ==
      GetIcon(cache, create, t, title2, isSelected, isFilteredOut, isMobile)
  {
  }

  /**
   * Asking again for the same key returns the icon stored the first time and calls no maker;
   * after a failure the second call tries again and fails the same way.
   */
  lemma GetIconRepeat<Icon>(cache: map<string, Icon>, create: CreateCall -> Option<Icon>,
                            t: string, title1: string, title2: string,
                            isSelected: bool, isFilteredOut: bool, isMobile: bool)
    ensures
      var first := GetIcon(cache, create, t, title1, isSelected, isFilteredOut, isMobile);
      GetIcon(first.cache, create, t, title2, isSelected, isFilteredOut, isMobile) ==
        if first.icon.Some? then Lookup(first.icon, first.cache, false) else first
  {
  }

  /** After clearing, the next request calls the maker. */
  lemma ClearThenCreate<Icon>(cache: map<string, Icon>, create: CreateCall -> Option<Icon>,
                              t: string, title: string, isSelected: bool, isFilteredOut: bool,
                              isMobile: bool)
    ensures GetIcon(ClearCache(cache), create, t, title, isSelected, isFilteredOut, isMobile).called
  {
  }

  /** Every stored icon is the one the maker gives for its key's arguments. */
  ghost predicate Faithful<Icon>(cache: map<string, Icon>, create: CreateCall -> Option<Icon>) {
    forall t, s, f, m :: CacheKey(t, s, f, m) in cache ==>
      Some(cache[CacheKey(t, s, f, m)]) == create(CallFor(t, s, f, m))
  }

  /**
   * The table is transparent: starting from a faithful table, `getIcon` returns exactly what
   * calling the maker would, failures included, and the table stays faithful.
   */
  lemma GetIconTransparent<Icon>(cache: map<string, Icon>, create: CreateCall -> Option<Icon>,
                                 t: string, title: string, isSelected: bool, isFilteredOut: bool,
                                 isMobile: bool)
    requires Faithful(cache, create)
    ensures
      var r := GetIcon(cache, create, t, title, isSelected, isFilteredOut, isMobile);
      r.icon == create(CallFor(t, isSelected, isFilteredOut, isMobile)) && Faithful(r.cache, create)
  {
    var r := GetIcon(cache, create, t, title, isSelected, isFilteredOut, isMobile);
    var key := CacheKey(t, isSelected, isFilteredOut, isMobile);
    forall t', s, f, m | CacheKey(t', s, f, m) in r.cache
      ensures Some(r.cache[CacheKey(t', s, f, m)]) == create(CallFor(t', s, f, m))
    {
      if CacheKey(t', s, f, m) == key {
        CacheKeyInjective(t', s, f, m, t, isSelected, isFilteredOut, isMobile);
      }
    }
  }

  /** The empty table agrees with every maker. */
  lemma EmptyIsFaithful<Icon>(create: CreateCall -> Option<Icon>)
    ensures Faithful(map[], create)
  {
  }
}
