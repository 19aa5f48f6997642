/** Endpoint resolution done by the client's constructor: from the address
    the caller supplies to the SOAP endpoint (`soap_uri`) and to the root of
    the MantisBT instance (`mantis_uri`). */
module Endpoint {
  import opened Base
  import opened Text

  /** The page of the SOAP endpoint. */
  const ServicePage := "mantisconnect.php"
  /** Appended when the address does not name the endpoint page. */
  const ServicePath := "/api/soap/mantisconnect.php"
  /** The scheme marker looked for anywhere in the address. */
  const Scheme := "http"
  /** Prefixed when the address has no scheme marker. */
  const DefaultScheme := "http://"
  /** The instance root ends where this marker begins. */
  const ApiMarker := "/api"
  /** Separates the scheme from the host. */
  const SchemeSeparator := "://"

  /** A host name as typed by a user: no spaces and no slashes. */
  predicate BareHost(host: string)
  {
    forall k :: 0 <= k < |host| ==> !IsTrimChar(host[k])
  }

  /** The SOAP endpoint the constructor derives from the address `url`:
      trailing spaces and slashes removed, the service path appended unless
      the endpoint page is already named, and `http://` prefixed unless the
      text contains `http` somewhere (all comparisons ignore ASCII case). */
  function SoapUri(url: string): string
  {
    var trimmed := TrimRight(url);
    var withPage := if Contains(trimmed, ServicePage) then trimmed else trimmed + ServicePath;
    if Contains(withPage, Scheme) then withPage else DefaultScheme + withPage
  }

  lemma ServicePathNamesPage()
    ensures Contains(ServicePath, ServicePage)
  {
    var i := |ServicePath| - |ServicePage|;
    assert ServicePath[i..] == ServicePage;
    forall k | 0 <= k < |ServicePage|
      ensures Lower(ServicePath[i + k]) == Lower(ServicePage[k])
    {
      assert ServicePath[i + k] == ServicePath[i..][k];
    }
    assert MatchAt(ServicePath, ServicePage, i);
    ContainsIff(ServicePath, ServicePage);
  }

  lemma DefaultSchemeHasMarker(rest: string)
    ensures Contains(DefaultScheme + rest, Scheme)
  {
    ContainsSelf(Scheme);
    assert DefaultScheme + rest == "" + Scheme + ("://" + rest);
    ContainsExtended("", Scheme, "://" + rest, Scheme);
  }

  /** Whatever the address, the endpoint names the endpoint page and carries
      a scheme marker. */
  lemma SoapUriHasMarkers(url: string)
    ensures Contains(SoapUri(url), ServicePage)
    ensures Contains(SoapUri(url), Scheme)
  {
    var trimmed := TrimRight(url);
    var withPage := if Contains(trimmed, ServicePage) then trimmed else trimmed + ServicePath;
    if !Contains(trimmed, ServicePage) {
      ServicePathNamesPage();
      assert withPage == trimmed + ServicePath + "";
      ContainsExtended(trimmed, ServicePath, "", ServicePage);
    }
    assert Contains(withPage, ServicePage);
    if !Contains(withPage, Scheme) {
      assert DefaultScheme + withPage == DefaultScheme + withPage + "";
      ContainsExtended(DefaultScheme, withPage, "", ServicePage);
      DefaultSchemeHasMarker(withPage);
    }
  }

  /** An address that already contains `http` is never given a second
      scheme: the endpoint is the trimmed address, possibly followed by the
      service path. */
  lemma SoapUriKeepsGivenScheme(url: string)
    requires Contains(url, Scheme)
    ensures SoapUri(url) ==
      if Contains(TrimRight(url), ServicePage) then TrimRight(url) else TrimRight(url) + ServicePath
  {
    var trimmed := TrimRight(url);
    SchemeHasNoTrimChar();
    TrimRightKeepsOccurrence(url, Scheme);
    var withPage := if Contains(trimmed, ServicePage) then trimmed else trimmed + ServicePath;
    assert Contains(withPage, Scheme) by {
      if !Contains(trimmed, ServicePage) {
        assert withPage == "" + trimmed + ServicePath;
        ContainsExtended("", trimmed, ServicePath, Scheme);
      }
    }
  }

  lemma SchemeHasNoTrimChar()
    ensures forall k :: 0 <= k < |Scheme| ==> !IsTrimChar(Lower(Scheme[k]))
  {
  }

  /** Appending the service path to text without a scheme marker does not
      create one. */
  lemma ServicePathAddsNoScheme(t: string)
    requires !Contains(t, Scheme)
    ensures !Contains(t + ServicePath, Scheme)
  {
    ContainsIff(t, Scheme);
    forall i: nat
      ensures !MatchAt(t + ServicePath, Scheme, i)
    {
      NoSchemeAt(t, i);
    }
    ContainsIff(t + ServicePath, Scheme);
  }

  /** No position of `t + "/api/soap/mantisconnect.php"` starts an `http`
      when `t` has none. */
  lemma NoSchemeAt(t: string, i: nat)
    requires forall j :: !MatchAt(t, Scheme, j)
    ensures !MatchAt(t + ServicePath, Scheme, i)
  {
    var u := t + ServicePath;
    if i + |Scheme| > |u| {
    } else if i + |Scheme| <= |t| {
      assert !MatchAt(t, Scheme, i);
      var k :| 0 <= k < |Scheme| && Lower(t[i + k]) != Lower(Scheme[k]);
      assert u[i + k] == t[i + k];
      Mismatch(u, Scheme, i, k);
    } else if i < |t| {
      var k := |t| - i;
      assert u[i + k] == '/';
      Mismatch(u, Scheme, i, k);
    } else {
      var j := i - |t|;
      assert u[i + 0] == ServicePath[j];
      ServicePathHeadHasNoH(j);
      Mismatch(u, Scheme, i, 0);
    }
  }

  /** The only `h` of the service path is in its final `php`. */
  lemma ServicePathHeadHasNoH(j: nat)
    requires j + |Scheme| <= |ServicePath|
    ensures Lower(ServicePath[j]) != Lower(Scheme[0])
  {
    var head := "/api/soap/mantisconnect.";
    assert ServicePath == head + "php";
    assert ServicePath[j] == head[j];
    assert forall c :: c in head ==> c != 'h' && c != 'H';
  }

  /** A trimmed address naming neither the endpoint page nor a scheme gets
      both: `"http://" + trimmed + "/api/soap/mantisconnect.php"`. */
  lemma SoapUriOfBareAddress(url: string)
    requires !Contains(TrimRight(url), ServicePage)
    requires !Contains(TrimRight(url), Scheme)
    ensures SoapUri(url) == DefaultScheme + TrimRight(url) + ServicePath
  {
    ServicePathAddsNoScheme(TrimRight(url));
  }

  /** The endpoint never ends in a space or a slash. */
  lemma SoapUriTrimmed(url: string)
    ensures SoapUri(url) != [] && !IsTrimChar(SoapUri(url)[|SoapUri(url)| - 1])
  {
    var trimmed := TrimRight(url);
    if Contains(trimmed, ServicePage) {
      var i := Find(trimmed, ServicePage).value;
      assert MatchAt(trimmed, ServicePage, i);
      assert |trimmed| > 0;
    }
  }

  /** Resolving an endpoint again changes nothing. */
  lemma SoapUriIdempotent(url: string)
    ensures SoapUri(SoapUri(url)) == SoapUri(url)
  {
    var uri := SoapUri(url);
    SoapUriTrimmed(url);
    TrimRightKeeps(uri);
    SoapUriHasMarkers(url);
  }

  /** Spaces and slashes appended to the address do not change the
      endpoint. */
  lemma SoapUriIgnoresTrailing(url: string, pad: string)
    requires forall k :: 0 <= k < |pad| ==> IsTrimChar(pad[k])
    ensures SoapUri(url + pad) == SoapUri(url)
  {
    TrimRightAbsorbsPadding(url, pad);
  }

  /** `mantis_uri` as the constructor computes it: the endpoint up to, not
      including, the first case-insensitive `/api`; all of it when there is
      none. */
  function InstanceRootAsWritten(uri: string): (root: string)
    ensures root <= uri
    ensures root == uri || MatchAt(uri, ApiMarker, |root|)
    ensures forall j :: 0 <= j < |root| ==> !MatchAt(uri, ApiMarker, j)
  {
    match Find(uri, ApiMarker)
    case None => uri
    case Some(j) => uri[..j]
  }

  /** Where the host begins: just after the first `://`, or at 0. */
  function HostStart(uri: string): nat
  {
    match Find(uri, SchemeSeparator)
    case None => 0
    case Some(i) => i + |SchemeSeparator|
  }

  /** The instance root as intended: like `InstanceRootAsWritten`, but the
      `/api` marker is only looked for from the host on, so that the
      slashes of `://` followed by a host beginning with `api` are not taken
      for it. */
  function InstanceRoot(uri: string): (root: string)
    ensures root <= uri
    ensures root == uri || (HostStart(uri) <= |root| && MatchAt(uri, ApiMarker, |root|))
    ensures forall j :: HostStart(uri) <= j < |root| ==> !MatchAt(uri, ApiMarker, j)
  {
    match FindFrom(uri, ApiMarker, HostStart(uri))
    case None => uri
    case Some(j) => uri[..j]
  }

  /** Both readings agree unless `/api` is found before the host begins. */
  lemma RootsAgreeAfterScheme(uri: string)
    requires forall j :: 0 <= j < HostStart(uri) ==> !MatchAt(uri, ApiMarker, j)
    ensures InstanceRoot(uri) == InstanceRootAsWritten(uri)
  {
    var a := InstanceRootAsWritten(uri);
    var b := InstanceRoot(uri);
    assert |a| == |b|;
  }

  /** For a bare host the endpoint is `http://host/api/soap/mantisconnect.php`. */
  lemma SoapUriOfBareHost(host: string)
    requires BareHost(host)
    requires !Contains(host, ServicePage) && !Contains(host, Scheme)
    ensures SoapUri(host) == DefaultScheme + host + ServicePath
  {
    TrimRightKeeps(host);
    SoapUriOfBareAddress(host);
  }

  /** In `http://host/...` the first `://` is the one after `http`. */
  lemma HostStartOfDefaultScheme(rest: string)
    ensures HostStart(DefaultScheme + rest) == |DefaultScheme|
  {
    var u := DefaultScheme + rest;
    assert MatchAt(u, SchemeSeparator, 4);
    forall j | 0 <= j < 4
      ensures !MatchAt(u, SchemeSeparator, j)
    {
      assert Lower(u[j + 0]) != ':';
      Mismatch(u, SchemeSeparator, j, 0);
    }
  }

  /** In `scheme + host + "/api/..."` an `/api` marker begins right after
      the host. */
  lemma MarkerAfterHost(scheme: string, host: string)
    ensures MatchAt(scheme + host + ServicePath, ApiMarker, |scheme| + |host|)
  {
    var u := scheme + host + ServicePath;
    var e := |scheme| + |host|;
    forall k | 0 <= k < |ApiMarker|
      ensures Lower(u[e + k]) == Lower(ApiMarker[k])
    {
      assert u[e + k] == ServicePath[k];
    }
  }

  /** A bare host holds no `/api` marker. */
  lemma NoMarkerInHost(scheme: string, host: string)
    requires BareHost(host)
    ensures forall j :: |scheme| <= j < |scheme| + |host| ==>
      !MatchAt(scheme + host + ServicePath, ApiMarker, j)
  {
    var u := scheme + host + ServicePath;
    forall j | |scheme| <= j < |scheme| + |host|
      ensures !MatchAt(u, ApiMarker, j)
    {
      assert u[j + 0] == host[j - |scheme|];
      Mismatch(u, ApiMarker, j, 0);
    }
  }

  /** The intended instance root of a bare host is `http://host`. */
  lemma InstanceRootOfBareHost(host: string)
    requires BareHost(host)
    requires !Contains(host, ServicePage) && !Contains(host, Scheme)
    ensures InstanceRoot(SoapUri(host)) == DefaultScheme + host
  {
    SoapUriOfBareHost(host);
    var u := DefaultScheme + host + ServicePath;
    assert u == DefaultScheme + (host + ServicePath);
    HostStartOfDefaultScheme(host + ServicePath);
    var e := |DefaultScheme| + |host|;
    MarkerAfterHost(DefaultScheme, host);
    NoMarkerInHost(DefaultScheme, host);
    var root := InstanceRoot(u);
    assert |root| == e;
    assert root == u[..e];
  }

  /** In `http://host/...` with a bare host not beginning with `api`, the
      slashes of `://` do not start an `/api` marker. */
  lemma NoMarkerAtSchemeSlashes(host: string)
    requires BareHost(host)
    requires !MatchAt(host, "api", 0)
    ensures !MatchAt(DefaultScheme + host + ServicePath, ApiMarker, 6)
  {
    var u := DefaultScheme + host + ServicePath;
    if |host| >= 3 {
      var k :| 0 <= k < 3 && Lower(host[k]) != Lower("api"[k]);
      assert u[6 + (k + 1)] == host[k];
      Mismatch(u, ApiMarker, 6, k + 1);
    } else {
      var k := |host|;
      assert u[6 + (k + 1)] == '/';
      Mismatch(u, ApiMarker, 6, k + 1);
    }
  }

  /** In `http://host/api/...` with a bare host not beginning with `api`,
      the first `/api` is the one after the host. */
  lemma FirstMarkerAfterHost(host: string)
    requires BareHost(host)
    requires !MatchAt(host, "api", 0)
    ensures forall j :: 0 <= j < |DefaultScheme| + |host| ==>
      !MatchAt(DefaultScheme + host + ServicePath, ApiMarker, j)
  {
    var u := DefaultScheme + host + ServicePath;
    NoMarkerAtSchemeSlashes(host);
    forall j | 0 <= j < |DefaultScheme| + |host|
      ensures !MatchAt(u, ApiMarker, j)
    {
      if j < 5 {
        assert Lower(u[j + 0]) != '/';
        Mismatch(u, ApiMarker, j, 0);
      } else if j == 5 {
        assert u[5 + 1] == '/';
        Mismatch(u, ApiMarker, j, 1);
      } else if j > 6 {
        assert u[j + 0] == host[j - |DefaultScheme|];
        Mismatch(u, ApiMarker, j, 0);
      }
    }
  }

  /** The constructor's root of a bare host is `http://host` when the host
      does not begin with `api`. */
  lemma InstanceRootAsWrittenOfBareHost(host: string)
    requires BareHost(host)
    requires !Contains(host, ServicePage) && !Contains(host, Scheme)
    requires !MatchAt(host, "api", 0)
    ensures InstanceRootAsWritten(SoapUri(host)) == DefaultScheme + host
  {
    SoapUriOfBareHost(host);
    var u := DefaultScheme + host + ServicePath;
    var e := |DefaultScheme| + |host|;
    MarkerAfterHost(DefaultScheme, host);
    FirstMarkerAfterHost(host);
    var root := InstanceRootAsWritten(u);
    assert |root| == e;
    assert root == u[..e];
  }

  /** What the constructor actually does to a bare host beginning with
      `api`: the `/api` search stops at the second slash of `http://`, so
      the instance root is `http:/`. */
  lemma InstanceRootAsWrittenOfApiHost(host: string)
    requires BareHost(host)
    requires !Contains(host, ServicePage) && !Contains(host, Scheme)
    requires MatchAt(host, "api", 0)
    ensures InstanceRootAsWritten(SoapUri(host)) == "http:/"
  {
    SoapUriOfBareHost(host);
    var u := DefaultScheme + host + ServicePath;
    assert MatchAt(u, ApiMarker, 6) by {
      forall k | 0 <= k < |ApiMarker|
        ensures Lower(u[6 + k]) == Lower(ApiMarker[k])
      {
        if k > 0 {
          assert u[6 + k] == host[k - 1];
          assert Lower(host[k - 1]) == Lower("api"[k - 1]);
        }
      }
    }
    forall j | 0 <= j < 6
      ensures !MatchAt(u, ApiMarker, j)
    {
      if j < 5 {
        assert Lower(u[j + 0]) != '/';
        Mismatch(u, ApiMarker, j, 0);
      } else {
        assert u[5 + 1] == '/';
        Mismatch(u, ApiMarker, j, 1);
      }
    }
    var root := InstanceRootAsWritten(u);
    assert |root| == 6;
    assert root == u[..6];
  }

  /** The address `https://host/api/soap/mantisconnect.php/` keeps its
      scheme and loses the trailing slash. */
  lemma SoapUriOfSecureEndpoint(host: string)
    ensures SoapUri("https://" + host + ServicePath + "/") == "https://" + host + ServicePath
  {
    var u := "https://" + host + ServicePath;
    assert u[|u| - 1] == 'p';
    TrimRightUnique(u, "/");
    assert Contains(u, ServicePage) by {
      ServicePathNamesPage();
      assert u == "https://" + host + ServicePath + "";
      ContainsExtended("https://" + host, ServicePath, "", ServicePage);
    }
    assert Contains(u, Scheme) by {
      assert MatchAt(u, Scheme, 0);
      ContainsIff(u, Scheme);
    }
  }

  /** The intended root of `https://host/api/soap/mantisconnect.php` is
      `https://host`. */
  lemma InstanceRootOfSecureEndpoint(host: string)
    requires BareHost(host)
    ensures InstanceRoot("https://" + host + ServicePath) == "https://" + host
  {
    var u := "https://" + host + ServicePath;
    assert u == "https://" + (host + ServicePath);
    HostStartOfSecureScheme(host + ServicePath);
    var e := 8 + |host|;
    MarkerAfterHost("https://", host);
    NoMarkerInHost("https://", host);
    var root := InstanceRoot(u);
    assert |root| == e;
    assert root == u[..e];
  }

  /** In `https://host/...` the first `://` is the one after `https`. */
  lemma HostStartOfSecureScheme(rest: string)
    ensures HostStart("https://" + rest) == 8
  {
    var u := "https://" + rest;
    assert MatchAt(u, SchemeSeparator, 5);
    forall j | 0 <= j < 5
      ensures !MatchAt(u, SchemeSeparator, j)
    {
      assert Lower(u[j + 0]) != ':';
      Mismatch(u, SchemeSeparator, j, 0);
    }
  }
}
