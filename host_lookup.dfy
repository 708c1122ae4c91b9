/** `get_host_id_for_url` of ws.py: clean the URL, then return the id of the
    first host whose ASCII URL contains it. */
module HostLookup {
  import opened Wrappers
  import opened Strings

  /** One entry of the webmaster API's host list. */
  datatype Host = Host(hostId: string, asciiHostUrl: string)

  predicate IsSlash(c: char) { c == '/' }

  /** `url.replace('https://', '').replace('http://', '').strip('/')`.
      Removing an occurring `https://` shortens the URL by at least its
      eight characters. */
  function CleanUrl(url: string): (r: string)
    ensures |r| <= |url|
    ensures Contains(url, "https://") ==> |r| + 8 <= |url|
    ensures |r| > 0 ==> r[0] != '/' && r[|r| - 1] != '/'
  {
    RemoveAllShrinks(url, "https://");
    Strip(RemoveAll(RemoveAll(url, "https://"), "http://"), IsSlash)
  }

  /** The hosts whose URL contains the cleaned `url`. */
  predicate Matches(h: Host, clean: string) {
    Contains(h.asciiHostUrl, clean)
  }

  /** `hosts[i]` is the first host whose URL contains `clean`. */
  predicate FirstMatch(hosts: seq<Host>, clean: string, i: int) {
    0 <= i < |hosts| && Matches(hosts[i], clean) && forall j :: 0 <= j < i ==> !Matches(hosts[j], clean)
  }

  /** The loop: the host list is searched in order and the first match
      wins; no match gives `None`. */
  method FindHost(hosts: seq<Host>, clean: string) returns (id: Option<string>)
    ensures id.None? <==> forall i :: 0 <= i < |hosts| ==> !Matches(hosts[i], clean)
    ensures id.Some? ==> exists i :: FirstMatch(hosts, clean, i) && id.value == hosts[i].hostId
  {
    for i := 0 to |hosts|
      invariant forall j :: 0 <= j < i ==> !Matches(hosts[j], clean)
    {
      if Contains(hosts[i].asciiHostUrl, clean) {
        assert FirstMatch(hosts, clean, i);
        return Some(hosts[i].hostId);
      }
    }
    return None;
  }

  /** `get_host_id_for_url`: the id of the first host whose URL contains
      the cleaned `url`, or `None` when no host does. */
  method HostIdForUrl(hosts: seq<Host>, url: string) returns (id: Option<string>)
    ensures id.None? <==> forall i :: 0 <= i < |hosts| ==> !Matches(hosts[i], CleanUrl(url))
    ensures id.Some? ==> exists i :: FirstMatch(hosts, CleanUrl(url), i) && id.value == hosts[i].hostId
  {
    var clean := CleanUrl(url);
    id := FindHost(hosts, clean);
  }

  /** Cleaning keeps only characters of the URL. */
  lemma CleanUrlKeepsChars(url: string)
    ensures multiset(CleanUrl(url)) <= multiset(url)
  {
    RemoveAllKeepsChars(url, "https://");
    RemoveAllKeepsChars(RemoveAll(url, "https://"), "http://");
    StripKeepsChars(RemoveAll(RemoveAll(url, "https://"), "http://"), IsSlash);
  }

  /** A URL holding neither scheme prefix anywhere is only stripped of
      slashes. */
  lemma CleanUrlWithoutScheme(url: string)
    requires !Contains(url, "https://") && !Contains(url, "http://")
    ensures CleanUrl(url) == Strip(url, IsSlash)
  {
    RemoveAllNoMatch(url, "https://");
    RemoveAllNoMatch(url, "http://");
  }

  /** A string without ':' holds no occurrence of either scheme prefix. */
  lemma NoColonNoScheme(h: string)
    requires ':' !in h
    ensures !Contains(h, "https://") && !Contains(h, "http://")
  {
    forall k: nat | k <= |h|
      ensures !OccursAt(h, "https://", k) && !OccursAt(h, "http://", k)
    {
      if k + 8 <= |h| {
        assert h[k..k + 8][5] == h[k + 5];
      }
      if k + 7 <= |h| {
        assert h[k..k + 7][4] == h[k + 4];
      }
    }
  }

  /** `http://` followed by a colon-free host part holds no `https://`. */
  lemma NoHttpsInHttpUrl(h: string)
    requires ':' !in h
    ensures !Contains("http://" + h, "https://")
  {
    var u := "http://" + h;
    forall k: nat | k <= |u|
      ensures !OccursAt(u, "https://", k)
    {
      if k + 8 <= |u| {
        assert u[k..k + 8][5] == u[k + 5];
        if k + 5 >= 7 {
          assert h[k + 5 - 7] == u[k + 5];
        }
      }
    }
  }

  /** For `scheme://host/` with a colon-free host part, cleaning yields the
      host part with its slashes stripped. */
  lemma CleanUrlOfSchemeUrl(h: string, secure: bool)
    requires ':' !in h
    ensures CleanUrl((if secure then "https://" else "http://") + h) == Strip(h, IsSlash)
  {
    NoColonNoScheme(h);
    if secure {
      RemoveLeading("https://", h);
      RemoveAllNoMatch(h, "http://");
    } else {
      NoHttpsInHttpUrl(h);
      RemoveAllNoMatch("http://" + h, "https://");
      RemoveLeading("http://", h);
    }
  }
}
