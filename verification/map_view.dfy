/** The marker list behind the map page (`create_map_html`): one activity
    marker per itinerary entry whose name geocodes, and no page at all when
    none does. The HTML and script template is a parameter. */
module MapView {
  import opened Wrappers
  import opened Lists
  import opened ResponseParser
  import opened Places

  /** A map marker as the page's script receives it. */
  datatype Marker = Marker(lat: Coord, lng: Coord, name: string, kind: string,
                           highlighted: bool, hotels: seq<string>)

  /** The geocoder as the page builder uses it: a latitude and a longitude,
      each possibly `None` (`get_coordinates`). */
  type Geocoder = string -> (Option<Coord>, Option<Coord>)

  /** An entry gets a marker when both of its coordinates are present. */
  predicate Geocodes(e: ItineraryEntry, geocode: Geocoder)
  {
    geocode(e.activity).0.Some? && geocode(e.activity).1.Some?
  }

  /** The markers one entry contributes: none, or one unhighlighted activity
      marker carrying the entry's name and hotels. */
  function MarkersOf(e: ItineraryEntry, geocode: Geocoder): seq<Marker>
  {
    var (lat, lng) := geocode(e.activity);
    if lat.Some? && lng.Some? then
      [Marker(lat.value, lng.value, e.activity, "activity", false, e.hotels)]
    else
      []
  }

  /** The markers of all entries, in entry order. */
  function ActivityMarkers(entries: seq<ItineraryEntry>, geocode: Geocoder): seq<Marker>
  {
    Flatten(seq(|entries|, i requires 0 <= i < |entries| => MarkersOf(entries[i], geocode)))
  }

  /** The entry a marker was made from. */
  function EntryOf(m: Marker): ItineraryEntry
  {
    ItineraryEntry(m.name, m.hotels)
  }

  function EntriesOf(ms: seq<Marker>): (es: seq<ItineraryEntry>)
    ensures |es| == |ms|
    ensures forall k :: 0 <= k < |ms| ==> es[k] == EntryOf(ms[k])
  {
    seq(|ms|, k requires 0 <= k < |ms| => EntryOf(ms[k]))
  }

  lemma ActivityMarkersUnfold(entries: seq<ItineraryEntry>, geocode: Geocoder)
    requires entries != []
    ensures ActivityMarkers(entries, geocode)
         == MarkersOf(entries[0], geocode) + ActivityMarkers(entries[1..], geocode)
  {
    var lists := seq(|entries|, i requires 0 <= i < |entries| => MarkersOf(entries[i], geocode));
    assert lists[1..] == seq(|entries| - 1, i requires 0 <= i < |entries| - 1 => MarkersOf(entries[1..][i], geocode));
  }

  /** Every marker is an unhighlighted activity marker, placed at the
      coordinates its name geocodes to. */
  lemma {:induction false} MarkersAreActivities(entries: seq<ItineraryEntry>, geocode: Geocoder)
    ensures forall m :: m in ActivityMarkers(entries, geocode) ==>
              && m.kind == "activity" && !m.highlighted
              && geocode(m.name) == (Some(m.lat), Some(m.lng))
  {
    if entries != [] {
      ActivityMarkersUnfold(entries, geocode);
      MarkersAreActivities(entries[1..], geocode);
    }
  }

  /** The markers' entries are the input entries with the non-geocoding ones
      dropped, in input order. */
  lemma {:induction false} MarkersKeepEntryOrder(entries: seq<ItineraryEntry>, geocode: Geocoder)
    ensures IsSubsequence(EntriesOf(ActivityMarkers(entries, geocode)), entries)
  {
    if entries != [] {
      var e := entries[0];
      var rest := ActivityMarkers(entries[1..], geocode);
      ActivityMarkersUnfold(entries, geocode);
      MarkersKeepEntryOrder(entries[1..], geocode);
      if Geocodes(e, geocode) {
        var ms := MarkersOf(e, geocode) + rest;
        assert EntriesOf(ms)[0] == e;
        assert EntriesOf(ms)[1..] == EntriesOf(rest);
      } else {
        assert MarkersOf(e, geocode) + rest == rest;
      }
    }
  }

  /** Number of entries whose activity geocodes. */
  function CountGeocoding(entries: seq<ItineraryEntry>, geocode: Geocoder): nat
  {
    if entries == [] then 0
    else (if Geocodes(entries[0], geocode) then 1 else 0) + CountGeocoding(entries[1..], geocode)
  }

  /** There is one marker per geocoding entry, repeated entries included. */
  lemma {:induction false} MarkersCount(entries: seq<ItineraryEntry>, geocode: Geocoder)
    ensures |ActivityMarkers(entries, geocode)| == CountGeocoding(entries, geocode)
  {
    if entries != [] {
      ActivityMarkersUnfold(entries, geocode);
      MarkersCount(entries[1..], geocode);
    }
  }

  /** Every entry that geocodes has its marker; the markers are empty exactly
      when no entry geocodes. */
  lemma {:induction false} MarkersComplete(entries: seq<ItineraryEntry>, geocode: Geocoder)
    ensures forall i :: 0 <= i < |entries| && Geocodes(entries[i], geocode) ==>
              MarkersOf(entries[i], geocode)[0] in ActivityMarkers(entries, geocode)
    ensures ActivityMarkers(entries, geocode) == [] <==>
              forall i :: 0 <= i < |entries| ==> !Geocodes(entries[i], geocode)
  {
    if entries != [] {
      ActivityMarkersUnfold(entries, geocode);
      MarkersComplete(entries[1..], geocode);
      forall i | 0 <= i < |entries| && Geocodes(entries[i], geocode)
        ensures MarkersOf(entries[i], geocode)[0] in ActivityMarkers(entries, geocode)
      {
        if i > 0 {
          assert entries[i] == entries[1..][i - 1];
        }
      }
      if ActivityMarkers(entries, geocode) != [] && !Geocodes(entries[0], geocode) {
        var j :| 0 <= j < |entries| - 1 && Geocodes(entries[1..][j], geocode);
        assert entries[j + 1] == entries[1..][j];
      }
    }
  }

  /** The marker-building loop of `create_map_html`: geocode every entry's
      activity name and keep a marker for each one that resolves. */
  method BuildActivityMarkers(entries: seq<ItineraryEntry>, geocode: Geocoder)
    returns (markers: seq<Marker>)
    ensures markers == ActivityMarkers(entries, geocode)
  {
    markers := [];
    for i := 0 to |entries|
      invariant markers == ActivityMarkers(entries[..i], geocode)
    {
      var entry := entries[i];
      var (activityLat, activityLng) := geocode(entry.activity);
      ghost var lists := seq(i, j requires 0 <= j < i => MarkersOf(entries[..i][j], geocode));
      assert seq(i + 1, j requires 0 <= j < i + 1 => MarkersOf(entries[..i + 1][j], geocode))
          == lists + [MarkersOf(entry, geocode)];
      FlattenSnoc(lists, MarkersOf(entry, geocode));
      if activityLat.Some? && activityLng.Some? {
        var marker := Marker(activityLat.value, activityLng.value, entry.activity, "activity", false, entry.hotels);
        markers := markers + [marker];
      }
    }
    assert entries[..|entries|] == entries;
  }

  /** `create_map_html`: the empty string when no entry geocodes, and
      otherwise the page rendered from the markers and the API key. */
  method CreateMapHtml(entries: seq<ItineraryEntry>, apiKey: string, geocode: Geocoder,
                       render: (seq<Marker>, string) -> string)
    returns (html: string)
    requires forall ms: seq<Marker>, key: string :: render(ms, key) != ""
    ensures html == "" <==> forall i :: 0 <= i < |entries| ==> !Geocodes(entries[i], geocode)
    ensures html != "" ==> html == render(ActivityMarkers(entries, geocode), apiKey)
  {
    var activityMarkers := BuildActivityMarkers(entries, geocode);
    MarkersComplete(entries, geocode);
    if activityMarkers == [] {
      return "";
    }
    html := render(activityMarkers, apiKey);
  }
}
