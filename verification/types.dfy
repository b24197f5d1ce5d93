/** The records of the restaurant dataset, the filter state and the personal
    collections (app/types/restaurant.ts). Display-only fields (chef profile,
    contact details, social links, tips, description) are not carried. */
module Types {
  import opened Optional

  /** The ten award kinds; `Unknown` stands for any other tag a dataset
      record might carry, which the award table does not list. */
  datatype AwardType =
    | HighestClimber
    | HighestNewEntry
    | OneToWatch
    | Sustainable
    | BestFemaleChef
    | BestPastryChef
    | ArtOfHospitality
    | ChefsChoice
    | Icon
    | BestOfTheBest
    | Unknown(tag: string)

  /** The tag a kind is written as in the dataset and in `?type=` links. */
  function TagOf(t: AwardType): string {
    match t
    case HighestClimber => "highest-climber"
    case HighestNewEntry => "highest-new-entry"
    case OneToWatch => "one-to-watch"
    case Sustainable => "sustainable"
    case BestFemaleChef => "best-female-chef"
    case BestPastryChef => "best-pastry-chef"
    case ArtOfHospitality => "art-of-hospitality"
    case ChefsChoice => "chefs-choice"
    case Icon => "icon"
    case BestOfTheBest => "best-of-the-best"
    case Unknown(tag) => tag
  }

  /** Reads a tag: the matching kind, or `Unknown` carrying the text. */
  function FromTag(s: string): (t: AwardType)
    ensures TagOf(t) == s
  {
    if s == "highest-climber" then HighestClimber
    else if s == "highest-new-entry" then HighestNewEntry
    else if s == "one-to-watch" then OneToWatch
    else if s == "sustainable" then Sustainable
    else if s == "best-female-chef" then BestFemaleChef
    else if s == "best-pastry-chef" then BestPastryChef
    else if s == "art-of-hospitality" then ArtOfHospitality
    else if s == "chefs-choice" then ChefsChoice
    else if s == "icon" then Icon
    else if s == "best-of-the-best" then BestOfTheBest
    else Unknown(s)
  }

  /** A kind is well formed unless it is an `Unknown` that spells a known tag. */
  predicate WellFormedType(t: AwardType) {
    t.Unknown? ==> FromTag(t.tag).Unknown?
  }

  /** Reading back a well-formed kind's tag gives the kind, and every read
      kind is well formed. */
  lemma TagRoundTrip(t: AwardType, s: string)
    ensures WellFormedType(t) ==> FromTag(TagOf(t)) == t
    ensures WellFormedType(FromTag(s))
  {
  }

  datatype Award = Award(awardType: AwardType, year: int, sponsored: Option<string>)

  /** The ranking authority a restaurant appears in. */
  datatype ListKind = Worlds50Best | LaListe | BothLists

  datatype Region = Global | Asia | Latam | Mena | NorthAmerica

  datatype Coordinates = Coordinates(lat: real, lng: real)

  /** One year of ranking history; `rank` is null when the restaurant was
      not ranked that year. */
  datatype RankingHistoryEntry = RankingHistoryEntry(year: int, rank: Option<int>)

  datatype RestaurantImages = RestaurantImages(
    hero: Option<string>,
    dishes: Option<seq<string>>,
    interior: Option<seq<string>>)

  datatype Restaurant = Restaurant(
    id: string,
    rank: int,
    name: string,
    city: string,
    country: string,
    cuisine: string,
    coordinates: Coordinates,
    list: ListKind,
    region: Option<Region>,
    awards: Option<seq<Award>>,
    rankingHistory: Option<seq<RankingHistoryEntry>>,
    peakRank: Option<int>,
    images: Option<RestaurantImages>)

  datatype RankingTier = AllTiers | Top10 | Top25 | Top50 | Top100

  /** The map filters. `regions` and `awards`, declared by the source type
      but never defaulted or read, are not carried. */
  datatype FilterState = FilterState(
    search: string,
    lists: seq<ListKind>,
    cuisines: seq<string>,
    countries: seq<string>,
    rankingTier: RankingTier,
    maxDistance: Option<real>)

  datatype WishPriority = Low | Medium | High

  /** An entry of the favorites, visited or wishlist collection. Timestamps
      are opaque strings supplied by the caller. */
  datatype CollectionItem = CollectionItem(
    restaurantId: string,
    addedAt: string,
    notes: Option<string>,
    visitedAt: Option<string>,
    rating: Option<int>,
    priority: Option<WishPriority>)

  /** `r.awards || []`: a missing award list reads as empty. */
  function AwardsOf(r: Restaurant): seq<Award> {
    r.awards.GetOr([])
  }

  /** `r.awards?.some(a => a.type === t)`. */
  predicate HasAwardType(r: Restaurant, t: AwardType) {
    exists i :: 0 <= i < |AwardsOf(r)| && AwardsOf(r)[i].awardType == t
  }
}
