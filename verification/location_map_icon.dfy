/**
 * The map marker icon (components/location/LocationMapIcon.tsx): the location type picks the
 * icon component and the colour class, and the selected / filtered-out flags add one more
 * class. The CSS module's generated class names enter as the function `styles`; the rendered
 * SVG markup is represented by the component that produces it.
 */
module MarkerIcons {
  import opened Wrappers

  /** The lucide-react components of `iconComponentMap`. */
  datatype IconComponent = Utensils | Landmark | MapPin

  /** `iconComponentMap[type]`: `undefined` for a type outside the three tags. */
  function IconComponentOf(t: string): (r: Option<IconComponent>)
    ensures r == Some(Utensils) <==> t == "restaurant"
    ensures r == Some(Landmark) <==> t == "attraction"
    ensures r == Some(MapPin) <==> t == "other"
  {
    if t == "restaurant" then Some(Utensils)
    else if t == "attraction" then Some(Landmark)
    else if t == "other" then Some(MapPin)
    else None
  }

  /** `colorClassMap[type]`: the key of the colour class in the CSS module. */
  function ColorClassKey(t: string): (r: Option<string>)
    ensures r == Some("markerYellow") <==> t == "restaurant"
    ensures r == Some("markerPurple") <==> t == "attraction"
    ensures r == Some("markerRed") <==> t == "other"
    ensures r.Some? <==> IconComponentOf(t).Some?
  {
    if t == "restaurant" then Some("markerYellow")
    else if t == "attraction" then Some("markerPurple")
    else if t == "other" then Some("markerRed")
    else None
  }

  /** The Leaflet `DivIcon` options built by `createCustomIcon`. */
  datatype DivIconOptions = DivIconOptions(
    component: IconComponent,
    className: string,
    iconSize: (int, int),
    iconAnchor: (int, int),
    popupAnchor: (int, int))

  /** `baseClassName`: the marker class and the colour class. */
  function BaseClass(styles: string -> string, colorKey: string): string {
    styles("customMarkerIcon") + " " + styles(colorKey)
  }

  /**
   * `createCustomIcon(type, isSelected = false, isFilteredOut = false)`. `None` stands for the
   * throw when `type` is outside the three tags: rendering an `undefined` component fails.
   */
  function CreateCustomIcon(styles: string -> string, t: string,
                            isSelected: bool := false, isFilteredOut: bool := false)
    : (r: Option<DivIconOptions>)
    ensures r.Some? <==> t == "restaurant" || t == "attraction" || t == "other"
    ensures r.Some? ==>
      var base := BaseClass(styles, ColorClassKey(t).value);
      Some(r.value.component) == IconComponentOf(t) &&
      (isSelected ==> r.value.className == base + " " + styles("selectedHighlight")) &&
      (!isSelected && isFilteredOut ==> r.value.className == base + " " + styles("filteredOut")) &&
      (!isSelected && !isFilteredOut ==> r.value.className == base)
    ensures r.Some? ==>
      r.value.iconSize == (34, 34) && r.value.iconAnchor == (17, 42) && r.value.popupAnchor == (0, -50)
  {
    match IconComponentOf(t)
    case None => None
    case Some(component) =>
      var base := BaseClass(styles, ColorClassKey(t).value);
      var finalClass :=
        if isSelected then base + " " + styles("selectedHighlight")
        else if isFilteredOut then base + " " + styles("filteredOut")
        else base;
      Some(DivIconOptions(component, finalClass, (34, 34), (17, 42), (0, -50)))
  }

  /** Being selected overrides being filtered out. */
  lemma SelectedOverridesFiltered(styles: string -> string, t: string)
    ensures CreateCustomIcon(styles, t, true, true) == CreateCustomIcon(styles, t, true, false)
  {
  }

  /** Both flags default to false, which gives the plain base class. */
  lemma DefaultFlags(styles: string -> string, t: string)
    requires t == "restaurant" || t == "attraction" || t == "other"
    ensures CreateCustomIcon(styles, t).value.className ==
      BaseClass(styles, ColorClassKey(t).value)
  {
  }

  /** The three types get three different colour keys. */
  lemma ColorKeysDistinct(t: string, u: string)
    requires ColorClassKey(t).Some? && ColorClassKey(u).Some?
    requires t != u
    ensures ColorClassKey(t) != ColorClassKey(u)
  {
  }
}
