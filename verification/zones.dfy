/** Resolution of the configured parent zone name to its zone identifier: a
    linear scan of the zone listing for the first entry whose name is exactly
    (case-sensitively) the parent zone name. */
module ZoneResolver {
  import opened Wrappers

  /** One entry of the listing's `result` array. */
  datatype Zone = Zone(id: string, name: string)

  /** The identifier the scan yields: that of the first entry named `name`,
      or nothing when no entry is. */
  function ResolveZone(zones: seq<Zone>, name: string): (r: Option<string>)
    ensures r.Some? ==> exists i :: 0 <= i < |zones| && zones[i].name == name && r.value == zones[i].id
  {
    if zones == [] then None
    else if zones[0].name == name then Some(zones[0].id)
    else ResolveZone(zones[1..], name)
  }

  /** Entry `i` is named `name` and no entry before it is. */
  predicate IsFirstMatch(zones: seq<Zone>, name: string, i: int)
  {
    0 <= i < |zones| && zones[i].name == name
    && forall j :: 0 <= j < i ==> zones[j].name != name
  }

  /** The first matching entry is the one whose identifier is returned. */
  lemma {:induction false} ResolveZoneFirstMatch(zones: seq<Zone>, name: string, i: int)
    requires IsFirstMatch(zones, name, i)
    ensures ResolveZone(zones, name) == Some(zones[i].id)
  {
    if i > 0 {
      assert zones[0].name != name;
      ResolveZoneFirstMatch(zones[1..], name, i - 1);
    }
  }

  /** Whatever the scan returns is the identifier of the first match. */
  lemma {:induction false} ResolveZoneSound(zones: seq<Zone>, name: string)
    requires ResolveZone(zones, name).Some?
    ensures exists i :: IsFirstMatch(zones, name, i) && ResolveZone(zones, name) == Some(zones[i].id)
  {
    if zones[0].name == name {
      assert IsFirstMatch(zones, name, 0);
    } else {
      ResolveZoneSound(zones[1..], name);
      var k :| IsFirstMatch(zones[1..], name, k) && ResolveZone(zones[1..], name) == Some(zones[1..][k].id);
      assert IsFirstMatch(zones, name, k + 1);
    }
  }

  /** The scan yields nothing exactly when no entry carries the name. */
  lemma {:induction false} ResolveZoneNone(zones: seq<Zone>, name: string)
    ensures ResolveZone(zones, name).None? <==> forall j :: 0 <= j < |zones| ==> zones[j].name != name
  {
    if zones != [] {
      ResolveZoneNone(zones[1..], name);
      assert forall j :: 1 <= j < |zones| ==> zones[j] == zones[1..][j - 1];
    }
  }

  /** Entries after a match never affect the result. */
  lemma {:induction false} ResolveZoneIgnoresLater(zones: seq<Zone>, later: seq<Zone>, name: string)
    requires ResolveZone(zones, name).Some?
    ensures ResolveZone(zones + later, name) == ResolveZone(zones, name)
  {
    if zones[0].name != name {
      assert (zones + later)[1..] == zones[1..] + later;
      ResolveZoneIgnoresLater(zones[1..], later, name);
    }
  }

  /** Non-matching entries in front of a listing are skipped over. */
  lemma {:induction false} ResolveZoneSkipsMisses(misses: seq<Zone>, zones: seq<Zone>, name: string)
    requires forall j :: 0 <= j < |misses| ==> misses[j].name != name
    ensures ResolveZone(misses + zones, name) == ResolveZone(zones, name)
  {
    if misses == [] {
      assert misses + zones == zones;
    } else {
      assert (misses + zones)[0] == misses[0];
      assert (misses + zones)[1..] == misses[1..] + zones;
      ResolveZoneSkipsMisses(misses[1..], zones, name);
    }
  }
}
