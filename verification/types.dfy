/**
 * The records of the browsing front end (types/Location.ts). Coordinates are carried as
 * `real` and never computed with. A location's `type` is a plain string here, as in the
 * front end's type declaration; the dataset scripts use the three-tag `LocationType`.
 */
module Types {
  import opened Wrappers

  datatype Location = Location(
    id: string,
    name: string,
    description: string,
    latitude: real,
    longitude: real,
    address: string,
    country: string,
    locationType: string,
    websiteUrl: Option<string>,
    googleMapsLink: Option<string>)

  /** `filterTitle` may be missing from the dataset, since the scraper never writes it. */
  datatype Video = Video(
    videoId: string,
    videoUrl: string,
    title: string,
    filterTitle: Option<string>,
    playlistId: string,
    playlistTitle: string,
    date: string,
    show: string,
    locations: seq<Location>)

  /** One country bucket of the derived index. */
  datatype CountryData = CountryData(name: string, locations: seq<Location>, videos: seq<Video>)

  /** The three tags the dataset scripts produce. */
  datatype LocationType = Restaurant | Attraction | Other {
    function Tag(): string {
      match this
      case Restaurant => "restaurant"
      case Attraction => "attraction"
      case Other => "other"
    }
  }

  function LocationId(l: Location): string { l.id }
  function VideoId(v: Video): string { v.videoId }
}
