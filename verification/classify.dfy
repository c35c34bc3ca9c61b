/** The classification loop of the entry point: each cleaned URL is routed
    by what the public-suffix extractor reports for it. */
module Classify {
  import IPv4

  /** What `tldextract.extract` reports for a URL: the registrable-domain
      label and the fully qualified domain name, each possibly empty. */
  datatype Parts = Parts(domain: string, fqdn: string)

  /** Where one URL goes: its `domain` to `ips`, itself to `non_ips`
      together with its `fqdn` to `fqdns`, or nowhere. */
  datatype Route = ToIps(ip: string) | ToNonIps(fqdn: string) | Discard

  /** `if domain and not fqdn: (IPv4 check) elif fqdn: ...`; a domain that
      fails the IPv4 check is dropped. */
  function RouteOf(parts: Parts): (r: Route)
    ensures r.ToIps? <==> parts.domain != "" && parts.fqdn == "" && IPv4.IsAddress(parts.domain)
    ensures r.ToIps? ==> r.ip == parts.domain
    ensures r.ToNonIps? <==> parts.fqdn != ""
    ensures r.ToNonIps? ==> r.fqdn == parts.fqdn
  {
    if parts.domain != "" && parts.fqdn == "" then
      if IPv4.IsAddress(parts.domain) then ToIps(parts.domain) else Discard
    else if parts.fqdn != "" then
      ToNonIps(parts.fqdn)
    else
      Discard
  }

  /** `url` contributes `ip` to `ips`: an empty `fqdn` and a `domain` that
      is a dotted-quad address. */
  ghost predicate GivesIp(extract: string -> Parts, url: string, ip: string) {
    extract(url).domain == ip && ip != "" && extract(url).fqdn == "" && IPv4.IsAddress(ip)
  }

  /** The addresses the URLs of `done` contribute to `ips`. */
  ghost function IpsOf(extract: string -> Parts, done: set<string>): set<string> {
    set u | u in done && RouteOf(extract(u)).ToIps? :: RouteOf(extract(u)).ip
  }

  /** The URLs of `done` that go to `non_ips`. */
  ghost function NonIpsOf(extract: string -> Parts, done: set<string>): set<string> {
    set u | u in done && RouteOf(extract(u)).ToNonIps?
  }

  /** The `fqdn`s of the URLs in `nonIps`. */
  ghost function FqdnsOf(extract: string -> Parts, nonIps: set<string>): set<string> {
    set u | u in nonIps :: extract(u).fqdn
  }

  /** The loop over the cleaned URLs. The extractor is a parameter: its
      public-suffix list is external data. */
  method ClassifyUrls(urls: set<string>, extract: string -> Parts)
    returns (ips: set<string>, nonIps: set<string>, fqdns: set<string>)
    ensures forall ip :: ip in ips <==> exists u | u in urls :: GivesIp(extract, u, ip)
    ensures forall u :: u in nonIps <==> u in urls && extract(u).fqdn != ""
    ensures forall f :: f in fqdns <==> exists u | u in nonIps :: extract(u).fqdn == f
    ensures forall ip | ip in ips :: IPv4.IsAddress(ip)
    ensures "" !in fqdns
    ensures |fqdns| <= |nonIps|
  {
    ips, nonIps, fqdns := RouteAll(urls, extract);
    Characterise(extract, urls);
    FqdnsBound(extract, nonIps);
  }

  /** The three collections the loop fills. */
  datatype Sets = Sets(ips: set<string>, nonIps: set<string>, fqdns: set<string>)

  /** One iteration of the loop body on `url`. */
  function Add(st: Sets, extract: string -> Parts, url: string): (r: Sets)
    ensures r.ips <= st.ips + {extract(url).domain}
    ensures r.nonIps <= st.nonIps + {url}
    ensures r.fqdns <= st.fqdns + {extract(url).fqdn}
    ensures url in r.nonIps <==> url in st.nonIps || extract(url).fqdn != ""
    ensures forall ip | ip in r.ips - st.ips :: IPv4.IsAddress(ip)
    ensures r.ips == st.ips || (r.nonIps == st.nonIps && r.fqdns == st.fqdns)
  {
    match RouteOf(extract(url))
    case ToIps(ip) => st.(ips := st.ips + {ip})
    case ToNonIps(fqdn) => st.(nonIps := st.nonIps + {url}, fqdns := st.fqdns + {fqdn})
    case Discard => st
  }

  /** What the loop has built after visiting `done`. */
  ghost function Summary(extract: string -> Parts, done: set<string>): Sets {
    Sets(IpsOf(extract, done), NonIpsOf(extract, done), FqdnsOf(extract, NonIpsOf(extract, done)))
  }

  /** The loop itself: each collection is the image of the visited URLs
      under their routes. */
  method RouteAll(urls: set<string>, extract: string -> Parts)
    returns (ips: set<string>, nonIps: set<string>, fqdns: set<string>)
    ensures ips == IpsOf(extract, urls)
    ensures nonIps == NonIpsOf(extract, urls)
    ensures fqdns == FqdnsOf(extract, nonIps)
  {
    var st := Sets({}, {}, {});
    var rest := urls;
    assert urls - rest == {};
    while rest != {}
      invariant rest <= urls
      invariant st == Summary(extract, urls - rest)
      decreases |rest|
    {
      var url :| url in rest;
      var done := urls - rest;
      Step(extract, done, url);
      st := Add(st, extract, url);
      rest := rest - {url};
      assert urls - rest == done + {url};
    }
    assert urls - rest == urls;
    ips, nonIps, fqdns := st.ips, st.nonIps, st.fqdns;
  }

  /** Visiting a URL not yet seen is one step of `Add`. */
  lemma {:induction false} Step(extract: string -> Parts, done: set<string>, url: string)
    requires url !in done
    ensures Summary(extract, done + {url}) == Add(Summary(extract, done), extract, url)
  {
    var s, s' := Summary(extract, done), Summary(extract, done + {url});
    match RouteOf(extract(url))
    case ToIps(ip) =>
      assert s'.ips == s.ips + {ip};
      assert s'.nonIps == s.nonIps;
    case ToNonIps(fqdn) =>
      assert s'.ips == s.ips;
      assert s'.nonIps == s.nonIps + {url};
      assert s'.fqdns == s.fqdns + {fqdn};
    case Discard =>
      assert s'.ips == s.ips;
      assert s'.nonIps == s.nonIps;
  }

  /** Each URL in `non_ips` brings at most one FQDN. */
  lemma {:induction false} FqdnsBound(extract: string -> Parts, nonIps: set<string>)
    ensures |FqdnsOf(extract, nonIps)| <= |nonIps|
    decreases |nonIps|
  {
    if nonIps != {} {
      var u :| u in nonIps;
      var rest := nonIps - {u};
      assert FqdnsOf(extract, nonIps) == FqdnsOf(extract, rest) + {extract(u).fqdn};
      FqdnsBound(extract, rest);
    }
  }

  /** The comprehensions say what the loop's contract says. */
  lemma {:induction false} Characterise(extract: string -> Parts, urls: set<string>)
    ensures forall ip :: ip in IpsOf(extract, urls) <==> exists u | u in urls :: GivesIp(extract, u, ip)
    ensures forall u :: u in NonIpsOf(extract, urls) <==> u in urls && extract(u).fqdn != ""
    ensures forall f :: f in FqdnsOf(extract, NonIpsOf(extract, urls)) <==>
      exists u | u in NonIpsOf(extract, urls) :: extract(u).fqdn == f
    ensures forall ip | ip in IpsOf(extract, urls) :: IPv4.IsAddress(ip)
    ensures "" !in FqdnsOf(extract, NonIpsOf(extract, urls))
  {
    forall ip
      ensures ip in IpsOf(extract, urls) <==> exists u | u in urls :: GivesIp(extract, u, ip)
    {
      if ip in IpsOf(extract, urls) {
        var u :| u in urls && RouteOf(extract(u)) == ToIps(ip);
        assert GivesIp(extract, u, ip);
      }
      if exists u | u in urls :: GivesIp(extract, u, ip) {
        var u :| u in urls && GivesIp(extract, u, ip);
        assert RouteOf(extract(u)) == ToIps(ip);
      }
    }
  }
}
