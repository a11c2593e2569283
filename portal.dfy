/**
  The captive-portal decision of `http_server_netconn_serve`
  (http_server.c, lines 363-385): a request whose `Host` names neither the
  access point, nor the station address, nor the device's host name is
  answered with a redirect to the access point.
*/
module Portal {
  import opened Wrappers
  import opened CStrings

  /**
    Line 380. `host` is the copied `Host` value (empty when the header is
    missing), `staIp` the station address string, `hostName` the name the
    TCP/IP adapter reports (None when it cannot be read). Every test is
    `strcasestr`, so it asks for a case-insensitive substring, not equality.
  */
  function IsRedirect(host: string, apIp: string, staIp: string, hostName: Option<string>): bool {
    var fromStaIp := |host| > 0 && StrCaseStr(host, staIp).Some?;
    var fromHostName := hostName.Some? && StrCaseStr(host, hostName.value).Some?;
    |host| > 0 && StrCaseStr(host, apIp).None? && !(fromStaIp || fromHostName)
  }

  /** The decision in terms of case-insensitive containment, in both directions. */
  lemma RedirectIff(host: string, apIp: string, staIp: string, hostName: Option<string>)
    ensures IsRedirect(host, apIp, staIp, hostName) <==>
      && |host| > 0
      && !ContainsCI(host, apIp)
      && !ContainsCI(host, staIp)
      && !(hostName.Some? && ContainsCI(host, hostName.value))
  {
    StrCaseStrSpec(host, apIp);
    StrCaseStrSpec(host, staIp);
    if hostName.Some? {
      StrCaseStrSpec(host, hostName.value);
    }
  }

  /** A request that names the access point, in any letter case, is never redirected. */
  lemma ApHostNotRedirected(host: string, apIp: string, staIp: string, hostName: Option<string>)
    requires |host| == |apIp| && forall k :: 0 <= k < |host| ==> Lower(host[k]) == Lower(apIp[k])
    ensures !IsRedirect(host, apIp, staIp, hostName)
  {
    RedirectIff(host, apIp, staIp, hostName);
    assert MatchesCIAt(host, apIp, 0);
  }

  /** Without a `Host` header there is nothing to compare, so there is no redirect. */
  lemma NoHostNotRedirected(apIp: string, staIp: string, hostName: Option<string>)
    ensures !IsRedirect("", apIp, staIp, hostName)
  {
  }

  /**
    Substring matching lets through any host that merely contains the
    access point's address: "192.168.4.10" is served as if it were
    "192.168.4.1".
  */
  lemma LongerHostNotRedirected(staIp: string, hostName: Option<string>)
    ensures !IsRedirect("192.168.4.10", "192.168.4.1", staIp, hostName)
  {
    RedirectIff("192.168.4.10", "192.168.4.1", staIp, hostName);
    assert MatchesCIAt("192.168.4.10", "192.168.4.1", 0);
  }
}
