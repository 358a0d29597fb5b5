/**
 * The location search: the records of a list whose geohash is among the
 * geohashes near a point, optionally restricted to one type, in the list's
 * own order.
 */
module Locations {
  import opened Outcome
  import opened Seqs
  import opened Order
  import opened Nearby

  /** A location record: its geohash, name, position and type. */
  datatype Location = Location(geohash: string, name: string, latitude: real, longitude: real, locationType: string)

  /** Whether a record is reported: its geohash is nearby, and its type matches when a type is asked for. */
  predicate Keep(location: Location, nearby: set<string>, locationType: Option<string>) {
    location.geohash in nearby && (locationType.None? || location.locationType == locationType.value)
  }

  /** The reported records, in their original order. */
  function Select(locations: seq<Location>, nearby: set<string>, locationType: Option<string>): seq<Location> {
    if |locations| == 0 then []
    else
      var last := locations[|locations| - 1];
      Select(locations[..|locations| - 1], nearby, locationType) + (if Keep(last, nearby, locationType) then [last] else [])
  }

  /** `a` is `b` with some elements left out, the rest in the same order. */
  predicate IsSubsequence(a: seq<Location>, b: seq<Location>)
    decreases |b|
  {
    if |a| == 0 then true
    else if |b| == 0 then false
    else if a[|a| - 1] == b[|b| - 1] then IsSubsequence(a[..|a| - 1], b[..|b| - 1])
    else IsSubsequence(a, b[..|b| - 1])
  }

  /* ---------------------------------------------------------------------- */
  /* Properties                                                             */
  /* ---------------------------------------------------------------------- */

  /** Appending to the longer list keeps a subsequence a subsequence. */
  lemma {:induction false} SubsequenceExtend(a: seq<Location>, b: seq<Location>, x: Location)
    requires IsSubsequence(a, b)
    ensures IsSubsequence(a, b + [x])
    decreases |a| + |b|, 1
  {
    assert (b + [x])[..|b|] == b;
    if |a| > 0 && a[|a| - 1] == x {
      SubsequenceDropLast(a, b);
    }
  }

  /** Leaving out the last element of a subsequence keeps it a subsequence. */
  lemma {:induction false} SubsequenceDropLast(a: seq<Location>, b: seq<Location>)
    requires |a| > 0 && IsSubsequence(a, b)
    ensures IsSubsequence(a[..|a| - 1], b)
    decreases |a| + |b|, 0
  {
    var front := b[..|b| - 1];
    LastSplit(b);
    if a[|a| - 1] == b[|b| - 1] {
      SubsequenceExtend(a[..|a| - 1], front, b[|b| - 1]);
    } else {
      SubsequenceDropLast(a, front);
      SubsequenceExtend(a[..|a| - 1], front, b[|b| - 1]);
    }
  }

  /** The report keeps the records' order: it is a subsequence of the input. */
  lemma {:induction false} SelectSubsequence(locations: seq<Location>, nearby: set<string>, locationType: Option<string>)
    ensures IsSubsequence(Select(locations, nearby, locationType), locations)
  {
    if |locations| > 0 {
      var front := locations[..|locations| - 1];
      var last := locations[|locations| - 1];
      var selected := Select(front, nearby, locationType);
      SelectSubsequence(front, nearby, locationType);
      LastSplit(locations);
      if Keep(last, nearby, locationType) {
        assert (selected + [last])[..|selected|] == selected;
      } else {
        assert selected + [] == selected;
        SubsequenceExtend(selected, front, last);
      }
    }
  }

  /** Each record is reported as often as it occurs in the input when it is kept, and never otherwise. */
  lemma {:induction false} SelectCount(locations: seq<Location>, nearby: set<string>, locationType: Option<string>, x: Location)
    ensures multiset(Select(locations, nearby, locationType))[x]
         == if Keep(x, nearby, locationType) then multiset(locations)[x] else 0
  {
    if |locations| > 0 {
      var front := locations[..|locations| - 1];
      SelectCount(front, nearby, locationType, x);
      LastSplit(locations);
    }
  }

  /** A record is reported exactly when it is in the input and kept. */
  lemma SelectMember(locations: seq<Location>, nearby: set<string>, locationType: Option<string>, x: Location)
    ensures x in Select(locations, nearby, locationType) <==> x in locations && Keep(x, nearby, locationType)
  {
    SelectCount(locations, nearby, locationType, x);
  }

  /** With no type asked for and every geohash nearby, the whole input is reported. */
  lemma {:induction false} SelectAll(locations: seq<Location>, nearby: set<string>)
    requires forall k | 0 <= k < |locations| :: locations[k].geohash in nearby
    ensures Select(locations, nearby, None) == locations
  {
    if |locations| > 0 {
      SelectAll(locations[..|locations| - 1], nearby);
      LastSplit(locations);
    }
  }

  /** Where the search finds no geohash (precision zero or below), no record is reported. */
  lemma NothingNearby(convert: Convert, latitude: real, longitude: real, radius: real, precision: int,
                      locations: seq<Location>, locationType: Option<string>)
    requires precision <= 0
    ensures Select(locations, NearbySet(convert, latitude, longitude, radius, precision), locationType) == []
  {
    NearbyNonPositive(convert, latitude, longitude, radius, precision);
    var selected := Select(locations, NearbySet(convert, latitude, longitude, radius, precision), locationType);
    if |selected| > 0 {
      SelectMember(locations, NearbySet(convert, latitude, longitude, radius, precision), locationType, selected[0]);
    }
  }

  /* ---------------------------------------------------------------------- */
  /* The search as the source runs it                                       */
  /* ---------------------------------------------------------------------- */

  /** The filtering loop over the records. */
  method FilterLocations(locations: seq<Location>, nearby: seq<string>, locationType: Option<string>)
    returns (result: seq<Location>)
    ensures result == Select(locations, Elements(nearby), locationType)
  {
    result := [];
    for k := 0 to |locations|
      invariant result == Select(locations[..k], Elements(nearby), locationType)
    {
      var location := locations[k];
      if location.geohash in nearby {
        if locationType.None? || location.locationType == locationType.value {
          result := result + [location];
        }
      }
      LastOfPrefix(locations, k + 1);
    }
    assert locations[..|locations|] == locations;
  }

  /** `get_nearby_locations`: the nearby geohashes, then the filter; a failed lookup is passed on. */
  method NearbyLocations(latitude: real, longitude: real, radius: real, precision: int,
                         locations: seq<Location>, locationType: Option<string>, convert: Convert)
    returns (r: Result<seq<Location>>)
    ensures r.Err? <==> TableIndex(precision).None?
    ensures r.Err? ==> r.error == PrecisionOutOfRange
    ensures r.Ok? ==> r.value == Select(locations, NearbySet(convert, latitude, longitude, radius, precision), locationType)
  {
    var nearby := NearbyGeohashes(latitude, longitude, radius, precision, convert);
    if nearby.Err? {
      return Err(nearby.error);
    }
    var result := FilterLocations(locations, nearby.value, locationType);
    return Ok(result);
  }
}
