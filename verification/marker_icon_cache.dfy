/**
 * The icon table of hooks/useIconCache.ts put together with the icon maker of
 * components/location/LocationMapIcon.tsx. The table hands the maker five positional
 * arguments `(type, '', isSelected, isFilteredOut, isMobile)`, while the maker declares
 * `(type, isSelected = false, isFilteredOut = false)`. JavaScript binds by position and drops
 * the surplus, so the maker reads `''` as `isSelected` and the caller's `isSelected` as
 * `isFilteredOut`. Both bindings are written out here: the one the code performs and the one
 * its names evidently intend.
 */
module MarkerIconCache {
  import opened Wrappers
  import opened IconCache
  import opened MarkerIcons

  /** JavaScript truthiness of a string: only the empty string is falsy. */
  function Truthy(s: string): bool { s != "" }

  /**
   * The maker as the call binds it: `arg1` (the empty title) lands in `isSelected` and
   * `arg2` (the caller's `isSelected`) in `isFilteredOut`; `arg3` and `arg4` are dropped.
   */
  function AsWrittenMaker(styles: string -> string): CreateCall -> Option<DivIconOptions> {
    (call: CreateCall) => CreateCustomIcon(styles, call.arg0, Truthy(call.arg1), call.arg2)
  }

  /** The maker with each flag bound to the parameter of the same name. */
  function IntendedMaker(styles: string -> string): CreateCall -> Option<DivIconOptions> {
    (call: CreateCall) => CreateCustomIcon(styles, call.arg0, call.arg2, call.arg3)
  }

  /**
   * As written, whatever the table holds (as long as it came from the maker) the icon for a
   * marker is the one for "not selected" and "filtered out exactly when selected": the
   * caller's `isFilteredOut` has no effect at all.
   */
  lemma AsWrittenShiftsFlags(styles: string -> string, cache: map<string, DivIconOptions>,
                             t: string, title: string, isSelected: bool, isFilteredOut: bool,
                             isMobile: bool)
    requires Faithful(cache, AsWrittenMaker(styles))
    ensures
      var r := GetIcon(cache, AsWrittenMaker(styles), t, title, isSelected, isFilteredOut, isMobile);
      r.icon == CreateCustomIcon(styles, t, false, isSelected) &&
      Faithful(r.cache, AsWrittenMaker(styles))
  {
    GetIconTransparent(cache, AsWrittenMaker(styles), t, title, isSelected, isFilteredOut, isMobile);
  }

  /**
   * As written, a selected marker is dimmed with the `filteredOut` class and never gets the
   * `selectedHighlight` class it is meant to have.
   */
  lemma AsWrittenSelectedIsDimmed(styles: string -> string,
                                  cache: map<string, DivIconOptions>, t: string,
                                  title: string, isFilteredOut: bool, isMobile: bool)
    requires Faithful(cache, AsWrittenMaker(styles))
    requires t == "restaurant" || t == "attraction" || t == "other"
    requires styles("filteredOut") != styles("selectedHighlight")
    ensures
      var r := GetIcon(cache, AsWrittenMaker(styles), t, title, true, isFilteredOut, isMobile);
      var base := BaseClass(styles, ColorClassKey(t).value);
      r.icon.Some? && r.icon.value.className == base + " " + styles("filteredOut") &&
      r.icon.value.className != base + " " + styles("selectedHighlight")
  {
    AsWrittenShiftsFlags(styles, cache, t, title, true, isFilteredOut, isMobile);
    var base := BaseClass(styles, ColorClassKey(t).value);
    var dimmed, lit := base + " " + styles("filteredOut"), base + " " + styles("selectedHighlight");
    assert dimmed[|base| + 1..] == styles("filteredOut");
    assert lit[|base| + 1..] == styles("selectedHighlight");
  }

  /**
   * A type outside the three tags makes `createCustomIcon` throw: from a table that agrees
   * with the maker, no icon comes back and the table is left as it was, so the next call
   * tries again.
   */
  lemma UnknownTypeNotCached(styles: string -> string, cache: map<string, DivIconOptions>,
                             t: string, title: string, isSelected: bool, isFilteredOut: bool,
                             isMobile: bool)
    requires Faithful(cache, AsWrittenMaker(styles))
    requires t != "restaurant" && t != "attraction" && t != "other"
    ensures
      var r := GetIcon(cache, AsWrittenMaker(styles), t, title, isSelected, isFilteredOut, isMobile);
      r.icon.None? && r.cache == cache && r.called
  {
    GetIconTransparent(cache, AsWrittenMaker(styles), t, title, isSelected, isFilteredOut, isMobile);
  }

  /** A CSS module whose generated class name is the key itself. */
  function KeyAsClass(key: string): string { key }

  /** The class texts of the two worked examples. */
  lemma ExampleClassTexts()
    ensures BaseClass(KeyAsClass, "markerYellow") == "customMarkerIcon markerYellow"
    ensures "customMarkerIcon markerYellow" + " " + "filteredOut" ==
      "customMarkerIcon markerYellow filteredOut"
    ensures "customMarkerIcon markerYellow" + " " + "selectedHighlight" ==
      "customMarkerIcon markerYellow selectedHighlight"
  {
  }

  /**
   * A worked example: on an empty table, with the CSS module mapping each key to itself, a
   * selected restaurant comes out with the `filteredOut` class.
   */
  lemma AsWrittenExample()
    ensures
      var r := GetIcon(map[], AsWrittenMaker(KeyAsClass), "restaurant", "Bar", true, false, false);
      r.icon == Some(DivIconOptions(Utensils, "customMarkerIcon markerYellow filteredOut",
                                    (34, 34), (17, 42), (0, -50)))
  {
    var styles := KeyAsClass;
    var r := GetIcon(map[], AsWrittenMaker(styles), "restaurant", "Bar", true, false, false);
    assert r.icon == AsWrittenMaker(styles)(CallFor("restaurant", true, false, false));
    assert r.icon == CreateCustomIcon(styles, "restaurant", false, true);
    ExampleClassTexts();
    assert r.icon.value.className == "customMarkerIcon markerYellow" + " " + "filteredOut";
  }

  /**
   * With the intended binding the table is invisible: every request yields the icon for the
   * caller's own flags, and the table stays consistent with the maker.
   */
  lemma IntendedFollowsFlags(styles: string -> string, cache: map<string, DivIconOptions>,
                             t: string, title: string, isSelected: bool, isFilteredOut: bool,
                             isMobile: bool)
    requires Faithful(cache, IntendedMaker(styles))
    ensures
      var r := GetIcon(cache, IntendedMaker(styles), t, title, isSelected, isFilteredOut, isMobile);
      r.icon == CreateCustomIcon(styles, t, isSelected, isFilteredOut) &&
      Faithful(r.cache, IntendedMaker(styles))
  {
    GetIconTransparent(cache, IntendedMaker(styles), t, title, isSelected, isFilteredOut, isMobile);
  }

  /** With the intended binding, a selected marker is highlighted whether or not it is filtered out. */
  lemma IntendedSelectedIsHighlighted(styles: string -> string,
                                      cache: map<string, DivIconOptions>, t: string,
                                      title: string, isFilteredOut: bool, isMobile: bool)
    requires Faithful(cache, IntendedMaker(styles))
    requires t == "restaurant" || t == "attraction" || t == "other"
    ensures
      var r := GetIcon(cache, IntendedMaker(styles), t, title, true, isFilteredOut, isMobile);
      r.icon.Some? &&
      r.icon.value.className == BaseClass(styles, ColorClassKey(t).value) + " " + styles("selectedHighlight")
  {
    IntendedFollowsFlags(styles, cache, t, title, true, isFilteredOut, isMobile);
  }

  /** The same run as `AsWrittenExample` with the intended binding. */
  lemma IntendedExample()
    ensures
      var r := GetIcon(map[], IntendedMaker(KeyAsClass), "restaurant", "Bar", true, false, false);
      r.icon == Some(DivIconOptions(Utensils, "customMarkerIcon markerYellow selectedHighlight",
                                    (34, 34), (17, 42), (0, -50)))
  {
    var styles := KeyAsClass;
    var r := GetIcon(map[], IntendedMaker(styles), "restaurant", "Bar", true, false, false);
    assert r.icon == IntendedMaker(styles)(CallFor("restaurant", true, false, false));
    assert r.icon == CreateCustomIcon(styles, "restaurant", true, false);
    ExampleClassTexts();
    assert r.icon.value.className == "customMarkerIcon markerYellow" + " " + "selectedHighlight";
  }
}
