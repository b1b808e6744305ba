/** The Google Geocoding and Places lookups (`get_coordinates`,
    `get_places_data`) and the per-activity lodging search
    (`find_hotels_near_activities`). The HTTP requests themselves are
    parameters: each is a function from the request to the reply. */
module Places {
  import opened Wrappers
  import opened Lists

  /** A latitude or longitude, kept as the decimal text Python prints for it:
      the application only formats coordinates and tests whether they are present. */
  type Coord = string

  datatype LatLng = LatLng(lat: Coord, lng: Coord)

  /** A place record of a Places reply: its name and `geometry.location`. */
  datatype Place = Place(name: string, location: LatLng)

  /** A Places reply: the HTTP status and the `results` member of its JSON
      body, `None` when the body has no such member. */
  datatype PlacesReply = PlacesReply(status: int, results: Option<seq<Place>>)

  /** A Geocoding reply: the HTTP status and the locations listed in `results`. */
  datatype GeocodeReply = GeocodeReply(status: int, results: seq<LatLng>)

  /** The nearby-search endpoint, given location, radius and place type. */
  type NearbySearch = (string, int, string) -> PlacesReply

  /** The geocoding endpoint, given a place name. */
  type GeocodeService = string -> GeocodeReply

  /** The `location` query parameter for a place: `f"{lat},{lng}"`. */
  function LocationParam(p: LatLng): string
  {
    p.lat + "," + p.lng
  }

  /** `get_places_data`: the reply's `results` on status 200 (the empty list
      when the member is missing), and the empty list on any other status. */
  function GetPlacesData(location: string, radius: int, placeType: string, search: NearbySearch): (places: seq<Place>)
    ensures search(location, radius, placeType).status != 200 ==> places == []
    ensures search(location, radius, placeType).status == 200 ==>
              places == search(location, radius, placeType).results.GetOr([])
  {
    var reply := search(location, radius, placeType);
    if reply.status == 200 then reply.results.GetOr([]) else []
  }

  /** `get_coordinates`: latitude and longitude of the first result on status
      200 with a non-empty result list; otherwise `(None, None)`. */
  function GetCoordinates(placeName: string, geocode: GeocodeService): (coords: (Option<Coord>, Option<Coord>))
    ensures coords.0.Some? <==> coords.1.Some?
    ensures coords.0.Some? <==> geocode(placeName).status == 200 && geocode(placeName).results != []
    ensures coords.0.Some? ==> LatLng(coords.0.value, coords.1.value) == geocode(placeName).results[0]
  {
    var reply := geocode(placeName);
    if reply.status == 200 && reply.results != [] then
      (Some(reply.results[0].lat), Some(reply.results[0].lng))
    else
      (None, None)
  }

  /** One lodging lookup per activity, in activity order, within `radius` metres of it. */
  function LodgingLookups(activities: seq<Place>, radius: int, search: NearbySearch): (lookups: seq<seq<Place>>)
    ensures |lookups| == |activities|
    ensures forall i :: 0 <= i < |activities| ==>
              lookups[i] == GetPlacesData(LocationParam(activities[i].location), radius, "lodging", search)
  {
    seq(|activities|, i requires 0 <= i < |activities| =>
      GetPlacesData(LocationParam(activities[i].location), radius, "lodging", search))
  }

  /** `find_hotels_near_activities`: the lodging results of every activity,
      concatenated in activity order. */
  method FindHotelsNearActivities(activities: seq<Place>, radius: int, search: NearbySearch)
    returns (hotels: seq<Place>)
    ensures hotels == Flatten(LodgingLookups(activities, radius, search))
  {
    hotels := [];
    for i := 0 to |activities|
      invariant hotels == Flatten(LodgingLookups(activities[..i], radius, search))
    {
      var activity := activities[i];
      var location := LocationParam(activity.location);
      var found := GetPlacesData(location, radius, "lodging", search);
      assert LodgingLookups(activities[..i + 1], radius, search)
          == LodgingLookups(activities[..i], radius, search) + [found];
      FlattenSnoc(LodgingLookups(activities[..i], radius, search), found);
      hotels := hotels + found;
    }
    assert activities[..|activities|] == activities;
  }

  /** The hotels found near two groups of activities are those near the first
      group followed by those near the second; no activities give no hotels. */
  lemma HotelsOfConcatenation(a: seq<Place>, b: seq<Place>, radius: int, search: NearbySearch)
    ensures Flatten(LodgingLookups([], radius, search)) == []
    ensures Flatten(LodgingLookups(a + b, radius, search))
         == Flatten(LodgingLookups(a, radius, search)) + Flatten(LodgingLookups(b, radius, search))
  {
    assert LodgingLookups(a + b, radius, search)
        == LodgingLookups(a, radius, search) + LodgingLookups(b, radius, search);
    FlattenAppend(LodgingLookups(a, radius, search), LodgingLookups(b, radius, search));
  }

  /** Every hotel found near activity `i` appears in the result, right after
      the hotels found near the activities before it. */
  lemma HotelsInActivityOrder(activities: seq<Place>, radius: int, search: NearbySearch, i: nat, j: nat)
    requires i < |activities|
    requires j < |GetPlacesData(LocationParam(activities[i].location), radius, "lodging", search)|
    ensures var lookups := LodgingLookups(activities, radius, search);
            var k := SumOfLengths(lookups[..i]) + j;
            k < |Flatten(lookups)| && Flatten(lookups)[k] == lookups[i][j]
  {
    FlattenIndex(LodgingLookups(activities, radius, search), i, j);
  }
}
