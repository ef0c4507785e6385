/** The Cloudflare v4 endpoints the workflow addresses. The zone identifier and
    the customer hostname are spliced into the URLs by plain string
    concatenation: nothing is escaped or percent-encoded. */
module Endpoints {
  import opened Wrappers

  const ApiBase: string := "https://api.cloudflare.com/client/v4"
  /** Zone listing, used to resolve the parent zone name. */
  const ZonesUrl: string := ApiBase + "/zones"
  const ZonePrefix: string := ApiBase + "/zones/"
  const HostnamesSuffix: string := "/custom_hostnames"
  const HostnameQuery: string := "?hostname="

  /** Target of the certificate request POST for a zone. */
  function CustomHostnamesUrl(zoneID: string): (u: string)
    ensures |u| == |ZonePrefix| + |zoneID| + |HostnamesSuffix|
    ensures u[..|ZonePrefix|] == ZonePrefix
    ensures u[|ZonePrefix|..|u| - |HostnamesSuffix|] == zoneID
    ensures u[|u| - |HostnamesSuffix|..] == HostnamesSuffix
  {
    ZonePrefix + zoneID + HostnamesSuffix
  }

  /** Target of the status query GET: the request URL filtered by hostname. */
  function StatusUrl(zoneID: string, hostname: string): (u: string)
    ensures |u| == |CustomHostnamesUrl(zoneID)| + |HostnameQuery| + |hostname|
    ensures u[..|CustomHostnamesUrl(zoneID)|] == CustomHostnamesUrl(zoneID)
    ensures u[|CustomHostnamesUrl(zoneID)|..|u| - |hostname|] == HostnameQuery
    ensures u[|u| - |hostname|..] == hostname
  {
    CustomHostnamesUrl(zoneID) + HostnameQuery + hostname
  }

  /** Reads the zone identifier back out of a certificate request URL. */
  function ZoneIdOf(url: string): (r: Option<string>)
    ensures r.Some? ==> url == CustomHostnamesUrl(r.value)
  {
    if |url| >= |ZonePrefix| + |HostnamesSuffix|
       && url[..|ZonePrefix|] == ZonePrefix
       && url[|url| - |HostnamesSuffix|..] == HostnamesSuffix
    then
      var z := url[|ZonePrefix|..|url| - |HostnamesSuffix|];
      assert url == ZonePrefix + z + HostnamesSuffix;
      Some(z)
    else None
  }

  /** Reads the hostname back out of a status URL for a known zone. */
  function HostnameOf(url: string, zoneID: string): (r: Option<string>)
    ensures r.Some? ==> url == StatusUrl(zoneID, r.value)
  {
    var head := CustomHostnamesUrl(zoneID) + HostnameQuery;
    if |url| >= |head| && url[..|head|] == head then
      var h := url[|head|..];
      assert url == head + h;
      Some(h)
    else None
  }

  /** The request URL determines the zone it was built from. */
  lemma ZoneIdOfCustomHostnamesUrl(zoneID: string)
    ensures ZoneIdOf(CustomHostnamesUrl(zoneID)) == Some(zoneID)
  {
  }

  /** Distinct zones are addressed by distinct request URLs. */
  lemma CustomHostnamesUrlInjective(z1: string, z2: string)
    requires CustomHostnamesUrl(z1) == CustomHostnamesUrl(z2)
    ensures z1 == z2
  {
  }

  /** Within one zone the status URL determines the hostname it queries. */
  lemma HostnameOfStatusUrl(zoneID: string, hostname: string)
    ensures HostnameOf(StatusUrl(zoneID, hostname), zoneID) == Some(hostname)
  {
  }

  /** With the zone left unresolved (the empty identifier) both URLs still
      get built, with an empty path segment where the identifier belongs. */
  lemma UnresolvedZoneUrls(hostname: string)
    ensures CustomHostnamesUrl("") == ApiBase + "/zones//custom_hostnames"
    ensures StatusUrl("", hostname) == ApiBase + "/zones//custom_hostnames?hostname=" + hostname
  {
  }
}
