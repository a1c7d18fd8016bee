/** The block policy shared by the navigation listeners and the in-page
    check: during an active focus phase, a hostname is blocked when, after its
    first "www." is removed, it and some list entry contain one another. */
module BlockPolicy {
  import opened Wrappers
  import opened Text
  import opened State

  /** `hostname.replace('www.', '')`: removes the first "www." wherever it
      stands, not only a leading one. */
  function StripWww(host: string): (h: string)
    ensures !Includes(host, "www.") ==> h == host
    ensures Includes(host, "www.") ==> |h| + 4 == |host|
    ensures StartsWith(host, "www.") ==> h == host[4..]
    ensures forall i: nat :: FirstOccursAt(host, "www.", i) ==> h == host[..i] + host[i + 4..]
  {
    var h := ReplaceFirst(host, "www.", "");
    assert |"www."| == 4;
    h
  }

  /** The symmetric substring rule between a stripped hostname and one entry. */
  predicate SiteMatches(h: string, site: string)
  {
    Includes(h, site) || Includes(site, h)
  }

  /** `sites.some(site => h.includes(site) || site.includes(h))`. */
  function AnyMatch(h: string, sites: seq<string>): (r: bool)
    ensures r <==> exists site :: site in sites && SiteMatches(h, site)
  {
    if sites == [] then false
    else
      assert forall x :: x in sites <==> x == sites[0] || x in sites[1..];
      SiteMatches(h, sites[0]) || AnyMatch(h, sites[1..])
  }

  /** Whether the list blocks `host`. */
  function IsBlocked(host: string, sites: seq<string>): (r: bool)
    ensures r <==> exists site :: site in sites && SiteMatches(StripWww(host), site)
  {
    AnyMatch(StripWww(host), sites)
  }

  /** The policy fires only while a focus session runs. */
  predicate Enforcing(s: Settings)
  {
    s.isActive && s.currentPhase == Focus
  }

  /** The navigation-time decision; `host` is None when the URL did not parse,
      and a URL that does not parse is never blocked. */
  function ShouldRedirect(s: Settings, host: Option<string>): (r: bool)
    ensures r ==> Enforcing(s) && host.Some?
    ensures Enforcing(s) && host.Some? ==> (r <==> IsBlocked(host.value, s.blockedSites))
  {
    Enforcing(s) && host.Some? && IsBlocked(host.value, s.blockedSites)
  }

  /** The match between a host and an entry does not depend on which of
      the two is the longer: each containing the other counts. */
  lemma SiteMatchesSymmetric(h: string, site: string)
    ensures SiteMatches(h, site) == SiteMatches(site, h)
    ensures SiteMatches(h, site) <==> (exists i: nat :: OccursAt(h, site, i)) || (exists i: nat :: OccursAt(site, h, i))
  {
  }

  /** Outside an active focus session nothing is redirected, whatever the
      host and the list. */
  lemma IdleOrBreakNeverBlocks(s: Settings, host: Option<string>)
    requires !s.isActive || s.currentPhase != Focus
    ensures !Enforcing(s) && !ShouldRedirect(s, host)
  {
  }

  /** An empty entry blocks every host. */
  lemma EmptySiteBlocksAll(host: string, sites: seq<string>)
    requires "" in sites
    ensures IsBlocked(host, sites)
  {
    IncludesItself(StripWww(host));
    assert SiteMatches(StripWww(host), "");
  }

  /** A host whose stripped form is itself an entry is blocked. */
  lemma ListedHostBlocked(host: string, sites: seq<string>)
    requires StripWww(host) in sites
    ensures IsBlocked(host, sites)
  {
    IncludesItself(StripWww(host));
    assert SiteMatches(StripWww(host), StripWww(host));
  }

  /** A host that is empty once stripped ("" or "www.") is blocked by any
      non-empty list. */
  lemma EmptyHostBlockedByAnyList(host: string, sites: seq<string>)
    requires StripWww(host) == "" && sites != []
    ensures IsBlocked(host, sites)
  {
    IncludesItself(sites[0]);
    assert SiteMatches("", sites[0]);
  }

  /** Every subdomain of a listed site is blocked, and so is the site itself. */
  lemma SubdomainBlocked(sub: string, site: string, sites: seq<string>)
    requires site in sites && !Includes(sub + site, "www.")
    ensures IsBlocked(sub + site, sites)
  {
    IncludesInfix(sub, site, "");
    assert sub + site + "" == sub + site;
    assert SiteMatches(StripWww(sub + site), site);
  }

  /** A host that lies inside a listed entry is blocked too: the rule is
      symmetric. */
  lemma PartOfSiteBlocked(host: string, pre: string, post: string, sites: seq<string>)
    requires pre + host + post in sites && !Includes(host, "www.")
    ensures IsBlocked(host, sites)
  {
    IncludesInfix(pre, host, post);
    assert SiteMatches(StripWww(host), pre + host + post);
  }

  /** A leading "www." never changes the decision for a host that has no
      other "www." in it. */
  lemma LeadingWwwIgnored(rest: string, sites: seq<string>)
    requires !Includes(rest, "www.")
    ensures IsBlocked("www." + rest, sites) == IsBlocked(rest, sites)
  {
    assert ("www." + rest)[..4] == "www.";
    assert ("www." + rest)[4..] == rest;
  }

  /** Adding entries never unblocks a host. */
  lemma MoreSitesBlockMore(host: string, sites: seq<string>, more: seq<string>)
    requires forall x :: x in sites ==> x in more
    ensures IsBlocked(host, sites) ==> IsBlocked(host, more)
  {
  }

  /** A subdomain of a listed site is caught. */
  lemma SubdomainExample()
    ensures IsBlocked("m.facebook.com", ["facebook.com"])
  {
    assert "m." + "facebook.com" == "m.facebook.com";
    NotIncludedByFirstChar("m.facebook.com", "www.");
    SubdomainBlocked("m.", "facebook.com", ["facebook.com"]);
  }

  /** An unrelated host is not caught: one without "www.", shorter than the
      entry, whose first character appears nowhere the host could start
      inside the entry (example.com against facebook.com). */
  lemma UnrelatedHostNotBlocked(h: string, site: string)
    requires h != [] && !Includes(h, "www.") && |h| < |site|
    requires forall i :: 0 <= i <= |site| - |h| ==> site[i] != h[0]
    ensures !IsBlocked(h, [site])
  {
    assert StripWww(h) == h;
    LongerNotIncluded(h, site);
    NotIncludedByFirstChar(site, h);
    assert !SiteMatches(h, site);
  }

  /** A "www." host is caught by its bare entry. */
  lemma WwwHostExample()
    ensures IsBlocked("www.facebook.com", ["facebook.com"])
  {
    assert "www." + "facebook.com" == "www.facebook.com";
    NotIncludedByFirstChar("facebook.com", "www.");
    LeadingWwwIgnored("facebook.com", ["facebook.com"]);
    assert "" + "facebook.com" == "facebook.com";
    SubdomainBlocked("", "facebook.com", ["facebook.com"]);
  }

  /** The "www." removal is not anchored at the start of the host: the first
      "www." goes wherever it stands, whatever text without a "www." comes
      before it. */
  lemma InnerWwwRemoved(pre: string, w: string, rest: string)
    requires w == "www." && !Includes(pre, w)
    ensures StripWww(pre + w + rest) == pre + rest
  {
    var s := pre + w + rest;
    assert s[|pre|..|pre| + 4] == w;
    assert OccursAt(s, w, |pre|);
    forall j: nat | j < |pre| ensures !OccursAt(s, w, j) {
      if j + 4 <= |pre| {
        assert s[j..j + 4] == pre[j..j + 4];
        assert !OccursAt(pre, w, j);
      } else {
        assert s[j + 3] == w[j + 3 - |pre|] == 'w';
      }
    }
    assert FirstOccursAt(s, w, |pre|);
    assert s[..|pre|] == pre && s[|pre| + 4..] == rest;
  }

  /** shop.www.example.com is checked as shop.example.com. */
  lemma InnerWwwExample()
    ensures StripWww("shop.www.example.com") == "shop.example.com"
  {
    var pre, w, rest := "shop.", "www.", "example.com";
    assert pre + w + rest == "shop.www.example.com" && pre + rest == "shop.example.com";
    assert pre[0] == 's' && pre[1] == 'h' && pre[2] == 'o' && pre[3] == 'p' && pre[4] == '.';
    NotIncludedByFirstChar(pre, w);
    InnerWwwRemoved(pre, w, rest);
  }
}
