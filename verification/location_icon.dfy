/** The emoji shown next to a location in the lists (components/location/LocationIcon.tsx). */
module LocationIcon {
  import opened Wrappers
  import opened Types

  const Fork: string := "\U{1F374}"
  /** The classical building followed by the emoji variation selector. */
  const Classical: string := "\U{1F3DB}\U{FE0F}"
  const Pin: string := "\U{1F4CD}"

  /**
   * `typeIcon`. The component reads `location.type` without a null check although its prop
   * admits `null`, so a location must be given.
   */
  function TypeIcon(location: Option<Location>): (r: string)
    requires location.Some?
    ensures r == Fork <==> location.value.locationType == "restaurant"
    ensures r == Classical <==> location.value.locationType == "attraction"
    ensures r == Pin <==>
      location.value.locationType != "restaurant" && location.value.locationType != "attraction"
  {
    var t := location.value.locationType;
    if t == "restaurant" then Fork
    else if t == "attraction" then Classical
    else Pin
  }

  /** `other` and any unknown type look the same. */
  lemma UnknownTypeIsPin(l: Location)
    requires l.locationType != "restaurant" && l.locationType != "attraction"
    ensures TypeIcon(Some(l)) == TypeIcon(Some(l.(locationType := "other")))
  {
  }
}
