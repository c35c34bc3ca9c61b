/** The entry point end to end: the URLs of the API response are cleaned,
    classified by the domain extractor, and written out. */
module Scraper {
  import opened Text
  import Extract
  import Classify
  import Writer
  import Order
  import IPv4

  /** A URL is discarded when it goes neither to `ips` nor to `non_ips`. */
  lemma {:induction false} DiscardedIff(extract: string -> Classify.Parts, u: string)
    ensures Classify.RouteOf(extract(u)) == Classify.Discard <==>
      extract(u).fqdn == "" && !Classify.GivesIp(extract, u, extract(u).domain)
  {
  }

  /** The response goes through the three stages in turn. HTTP, JSON
      decoding and the public-suffix list are outside the model: the
      decoded response and the extractor are parameters. */
  method Run(response: Extract.Response, extract: string -> Classify.Parts) returns (out: Writer.Output)
    ensures out.NoContent? <==>
      forall u | u in Extract.ExtractUrls(response) :: Classify.RouteOf(extract(u)) == Classify.Discard
    ensures out.Written? ==> forall u :: u in Order.Elements(out.urls.lines) <==>
      u in Extract.ExtractUrls(response) && extract(u).fqdn != ""
    ensures out.Written? ==> forall ip :: ip in Order.Elements(out.ips.lines) <==>
      exists u | u in Extract.ExtractUrls(response) :: Classify.GivesIp(extract, u, ip)
    ensures out.Written? ==> forall k | 0 <= k < |out.urls.lines| :: NoneOf(out.urls.lines[k], IsSpace)
    ensures out.Written? && |out.urls.lines| > 0 ==> Split(out.urls.Contents(), '\n') == out.urls.lines
    ensures out.Written? && |out.ips.lines| > 0 ==> Split(out.ips.Contents(), '\n') == out.ips.lines
    ensures out.Written? ==> forall f :: f in Order.Elements(out.pihole.lines) <==>
      exists u | u in Extract.ExtractUrls(response) :: extract(u).fqdn == f && f != ""
    ensures out.Written? ==> Sorted(out)
  {
    var urls := Extract.ExtractUrls(response);
    Extract.ExtractedHaveNoSpace(response);
    out := Process(urls, extract);
  }

  /** The three files carry their names and are sorted as the entry point
      sorts them: `urls.txt` and `urls-pihole.txt` by code point, `ips.txt`
      by address value. */
  predicate Sorted(out: Writer.Output)
    requires out.Written?
  {
    && out.urls.name == Writer.UrlsName && Order.Increasing(out.urls.lines, Order.LexLess)
    && out.ips.name == Writer.IpsName && Order.Increasing(out.ips.lines, Order.AddressLess)
    && out.pihole.name == Writer.PiholeName && Order.Increasing(out.pihole.lines, Order.LexLess)
  }

  /** Classification and output of a set of cleaned URLs. */
  method Process(urls: set<string>, extract: string -> Classify.Parts) returns (out: Writer.Output)
    requires forall y | y in urls :: NoneOf(y, IsSpace)
    ensures out.NoContent? <==> forall u | u in urls :: Classify.RouteOf(extract(u)) == Classify.Discard
    ensures out.Written? ==> forall u :: u in Order.Elements(out.urls.lines) <==> u in urls && extract(u).fqdn != ""
    ensures out.Written? ==> forall ip :: ip in Order.Elements(out.ips.lines) <==>
      exists u | u in urls :: Classify.GivesIp(extract, u, ip)
    ensures out.Written? ==> forall k | 0 <= k < |out.urls.lines| :: NoneOf(out.urls.lines[k], IsSpace)
    ensures out.Written? && |out.urls.lines| > 0 ==> Split(out.urls.Contents(), '\n') == out.urls.lines
    ensures out.Written? && |out.ips.lines| > 0 ==> Split(out.ips.Contents(), '\n') == out.ips.lines
    ensures out.Written? ==> forall f :: f in Order.Elements(out.pihole.lines) <==>
      exists u | u in urls :: extract(u).fqdn == f && f != ""
    ensures out.Written? ==> Sorted(out)
  {
    var ips, nonIps, fqdns := Classify.ClassifyUrls(urls, extract);
    out := Writer.Write(nonIps, ips, fqdns);
    forall f
      ensures f in fqdns <==> exists u | u in urls :: extract(u).fqdn == f && f != ""
    {
      if f in fqdns {
        var u :| u in nonIps && extract(u).fqdn == f;
      }
      if exists u | u in urls :: extract(u).fqdn == f && f != "" {
        var u :| u in urls && extract(u).fqdn == f && f != "";
        assert u in nonIps;
      }
    }
    forall u | u in urls
      ensures Classify.RouteOf(extract(u)) == Classify.Discard <==> u !in nonIps && extract(u).domain !in ips
    {
      DiscardedIff(extract, u);
    }
    if out.Written? {
      UrlLines(out.urls, urls);
      AddressLines(out.ips);
    }
  }

  /** URL lines come from the extracted set, which holds no whitespace, so
      the file splits back into them. */
  lemma {:induction false} UrlLines(f: Writer.File, urls: set<string>)
    requires forall y | y in urls :: NoneOf(y, IsSpace)
    requires Order.Elements(f.lines) <= urls
    ensures forall k | 0 <= k < |f.lines| :: NoneOf(f.lines[k], IsSpace)
    ensures |f.lines| > 0 ==> Split(f.Contents(), '\n') == f.lines
  {
    assert forall k | 0 <= k < |f.lines| :: f.lines[k] in Order.Elements(f.lines);
    forall k | 0 <= k < |f.lines|
      ensures '\n' !in f.lines[k]
    {
      assert NoneOf(f.lines[k], IsSpace);
      assert IsSpace('\n');
    }
    if |f.lines| > 0 {
      Writer.ReadBack(f);
    }
  }

  /** Address lines are digits and dots, so the file splits back into them. */
  lemma {:induction false} AddressLines(f: Writer.File)
    requires forall k | 0 <= k < |f.lines| :: IPv4.IsAddress(f.lines[k])
    ensures |f.lines| > 0 ==> Split(f.Contents(), '\n') == f.lines
  {
    forall k | 0 <= k < |f.lines|
      ensures '\n' !in f.lines[k]
    {
      IPv4.AddressChars(f.lines[k]);
    }
    if |f.lines| > 0 {
      Writer.ReadBack(f);
    }
  }
}
