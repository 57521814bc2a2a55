/**
 * The cluster bubble of the map (components/map/ClusterIcon.ts): the markers of a cluster are
 * counted by location type, the most frequent type picks the colour scheme, and the child
 * count picks one of four size tiers. The HTML text and the Leaflet icon object are not
 * modelled; the figures that go into them are.
 */
module ClusterIcon {
  import opened Wrappers
  import opened Types

  /** `typeCounts`. */
  datatype TypeCounts = TypeCounts(restaurant: nat, attraction: nat, other: nat) {
    function Of(t: LocationType): nat {
      match t
      case Restaurant => restaurant
      case Attraction => attraction
      case Other => other
    }

    function Plus(c: TypeCounts): TypeCounts {
      TypeCounts(restaurant + c.restaurant, attraction + c.attraction, other + c.other)
    }

    function Total(): nat { restaurant + attraction + other }
  }

  /** A tag of `typeCounts`, if `t` names one of its own keys. */
  function TagOf(t: string): Option<LocationType> {
    if t == "restaurant" then Some(Restaurant)
    else if t == "attraction" then Some(Attraction)
    else if t == "other" then Some(Other)
    else None
  }

  /** `marker.options?.locationType || 'other'`: a missing or empty type counts as `other`. */
  function MarkerType(locationType: Option<string>): string {
    match locationType
    case Some(t) => if t != "" then t else "other"
    case None => "other"
  }

  /** The tag a marker is counted under, if any: `type in typeCounts` for the own keys. */
  function MarkerTag(locationType: Option<string>): (r: Option<LocationType>)
    ensures locationType.None? || locationType == Some("") ==> r == Some(Other)
    ensures locationType.Some? && locationType.value != "" ==>
      (r.Some? <==> locationType.value in {"restaurant", "attraction", "other"}) &&
      (r.Some? ==> r.value.Tag() == locationType.value)
  {
    TagOf(MarkerType(locationType))
  }

  /** How many of `markers` are counted under `t`. */
  function CountOf(markers: seq<Option<string>>, t: LocationType): nat {
    if |markers| == 0 then 0
    else (if MarkerTag(markers[0]) == Some(t) then 1 else 0) + CountOf(markers[1..], t)
  }

  /** The `forEach` over the cluster's markers: one increment per marker with a known tag. */
  function CountTypes(markers: seq<Option<string>>): (c: TypeCounts)
    ensures forall t :: c.Of(t) == CountOf(markers, t)
  {
    TypeCounts(CountOf(markers, Restaurant), CountOf(markers, Attraction), CountOf(markers, Other))
  }

  /**
   * Each marker is counted at most once, and exactly once when its type is one of the
   * three tags.
   */
  lemma {:induction false} CountTypesTotal(markers: seq<Option<string>>)
    ensures CountTypes(markers).Total() <= |markers|
    ensures (forall i :: 0 <= i < |markers| ==> MarkerTag(markers[i]).Some?) ==>
      CountTypes(markers).Total() == |markers|
    decreases |markers|
  {
    if |markers| > 0 {
      var tail := markers[1..];
      assert forall i :: 0 <= i < |tail| ==> tail[i] == markers[i + 1];
      CountTypesTotal(tail);
    }
  }

  lemma {:induction false} CountOfAppend(a: seq<Option<string>>, b: seq<Option<string>>,
                                         t: LocationType)
    ensures CountOf(a + b, t) == CountOf(a, t) + CountOf(b, t)
    decreases |a|
  {
    if |a| == 0 {
      assert a + b == b;
    } else {
      assert (a + b)[0] == a[0];
      assert (a + b)[1..] == a[1..] + b;
      CountOfAppend(a[1..], b, t);
    }
  }

  /** Counting splits over concatenation, so the counts do not depend on marker order. */
  lemma CountTypesAppend(a: seq<Option<string>>, b: seq<Option<string>>)
    ensures CountTypes(a + b) == CountTypes(a).Plus(CountTypes(b))
  {
    CountOfAppend(a, b, Restaurant);
    CountOfAppend(a, b, Attraction);
    CountOfAppend(a, b, Other);
    assert CountTypes(a + b) == TypeCounts(CountOf(a + b, Restaurant), CountOf(a + b, Attraction),
      CountOf(a + b, Other));
  }

  /** Swapping two blocks of markers leaves the counts unchanged. */
  lemma CountTypesSwap(a: seq<Option<string>>, b: seq<Option<string>>)
    ensures CountTypes(a + b) == CountTypes(b + a)
  {
    CountTypesAppend(a, b);
    CountTypesAppend(b, a);
  }

  /**
   * `Object.entries(typeCounts).reduce((a, b) => a[1] > b[1] ? a : b)`: the entries are
   * visited restaurant, attraction, other, and a later entry wins a tie.
   */
  function DominantType(c: TypeCounts): (r: LocationType)
    ensures forall t :: c.Of(t) <= c.Of(r)
    ensures r == Restaurant <==> c.restaurant > c.attraction && c.restaurant > c.other
    ensures r == Attraction <==> c.attraction >= c.restaurant && c.attraction > c.other
    ensures r == Other <==> c.other >= c.restaurant && c.other >= c.attraction
  {
    var first := if c.restaurant > c.attraction then Restaurant else Attraction;
    if c.Of(first) > c.other then first else Other
  }

  /** With no marker counted the bubble is coloured as `other`. */
  lemma EmptyClusterIsOther()
    ensures DominantType(CountTypes([])) == Other
  {
  }

  /** One colour scheme of `colorSchemes`. */
  datatype ColorScheme = ColorScheme(bg: string, border: string, text: string)

  function ColorSchemeOf(t: LocationType): (r: ColorScheme)
    ensures t == Restaurant ==> r == ColorScheme("#fff3cd", "#ffc107", "#8c6d07")
    ensures t == Attraction ==> r == ColorScheme("#e0d6f9", "#8a63d2", "#502d8e")
    ensures t == Other ==> r == ColorScheme("#fdd8d8", "#e57373", "#a73737")
  {
    match t
    case Restaurant => ColorScheme("#fff3cd", "#ffc107", "#8c6d07")
    case Attraction => ColorScheme("#e0d6f9", "#8a63d2", "#502d8e")
    case Other => ColorScheme("#fdd8d8", "#e57373", "#a73737")
  }

  /** The three types get three different schemes. */
  lemma ColorSchemesDistinct(t: LocationType, u: LocationType)
    requires t != u
    ensures ColorSchemeOf(t) != ColorSchemeOf(u)
  {
  }

  /** Size, font size and border width of the bubble for one child count. */
  datatype Tier = Tier(size: nat, fontSize: string, borderWidth: nat)

  /** The `if`/`else if` ladder on `childCount`. */
  function TierOf(childCount: int): (r: Tier)
    ensures childCount < 10 ==> r == Tier(40, "14px", 3)
    ensures 10 <= childCount < 20 ==> r == Tier(44, "14px", 3)
    ensures 20 <= childCount < 50 ==> r == Tier(48, "15px", 3)
    ensures 50 <= childCount ==> r == Tier(55, "16px", 4)
  {
    if childCount >= 50 then Tier(55, "16px", 4)
    else if childCount >= 20 then Tier(48, "15px", 3)
    else if childCount >= 10 then Tier(44, "14px", 3)
    else Tier(40, "14px", 3)
  }

  /** A bigger cluster never gets a smaller bubble or a thinner border. */
  lemma TierMonotone(a: int, b: int)
    requires a <= b
    ensures TierOf(a).size <= TierOf(b).size
    ensures TierOf(a).borderWidth <= TierOf(b).borderWidth
  {
  }

  /** The border is thick exactly for clusters of fifty or more. */
  lemma ThickBorderIff(childCount: int)
    ensures TierOf(childCount).borderWidth == 4 <==> childCount >= 50
  {
  }

  /** What `createClusterCustomIcon` feeds into the icon. */
  datatype ClusterBubble = ClusterBubble(
    colors: ColorScheme,
    size: nat,
    fontSize: string,
    borderWidth: nat,
    childCount: int,
    width: nat,
    height: nat)

  /** `createClusterCustomIcon`, with `getChildCount()` and the child markers' types as inputs. */
  function ClusterCustomIcon(childCount: int, markers: seq<Option<string>>): (r: ClusterBubble)
    ensures r.height == r.width + 12 && r.width == r.size
    ensures r.colors == ColorSchemeOf(DominantType(CountTypes(markers)))
    ensures r.childCount == childCount
    ensures r.size in {40, 44, 48, 55}
    ensures Tier(r.size, r.fontSize, r.borderWidth) == TierOf(childCount)
  {
    var tier := TierOf(childCount);
    ClusterBubble(ColorSchemeOf(DominantType(CountTypes(markers))), tier.size, tier.fontSize,
      tier.borderWidth, childCount, tier.size, tier.size + 12)
  }
}
