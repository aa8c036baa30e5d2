/** The edge's site blocks: which hostnames they answer for. */
module Caddyfile {
  import opened Common

  datatype Upstream = Upstream(host: string, port: int)
  datatype EdgeSite = EdgeSite(name: string, hostnames: seq<string>, privateUpstream: Option<Upstream>)
  datatype HostRedirect = HostRedirect(from: string, to: string)
  datatype StaticSite = StaticSite(name: string, hostname: string)

  datatype Block = SiteBlock(hostnames: seq<string>, upstream: Upstream) | RedirectBlock(from: string, to: string) | StaticBlock(site: string, hostname: string)

  datatype Error = SharedUpstream | SharedHostname | StaticCollision | BadHostname | BadUpstream | BadContent

  /** What the renderer asks about each name it writes: the hostname pattern, the address plan and the fixed pages. */
  datatype Rules = Rules(hostname: string -> bool, upstream: Upstream -> bool, content: StaticSite -> bool)

  function Addresses(b: Block): seq<string> {
    match b
    case SiteBlock(hostnames, _) => hostnames
    case RedirectBlock(from, _) => [from]
    case StaticBlock(_, hostname) => [hostname]
  }

  function AllAddresses(blocks: seq<Block>): seq<string> {
    if blocks == [] then [] else AllAddresses(blocks[..|blocks| - 1]) + Addresses(blocks[|blocks| - 1])
  }

  /** How many addresses of the blocks are the hostname. */
  function Times(s: seq<string>, h: string): nat {
    multiset(s)[h]
  }

  predicate Distinct<T(==)>(s: seq<T>) {
    forall j, k :: 0 <= j < k < |s| ==> s[j] != s[k]
  }

  function ServableSites(sites: seq<EdgeSite>): (r: seq<EdgeSite>)
    ensures forall s :: s in r <==> s in sites && s.privateUpstream.Some?
  {
    if sites == [] then []
    else
      var rest := ServableSites(sites[1..]);
      if sites[0].privateUpstream.Some? then [sites[0]] + rest else rest
  }

  function Hostnames(sites: seq<EdgeSite>): seq<string> {
    if sites == [] then [] else Hostnames(sites[..|sites| - 1]) + sites[|sites| - 1].hostnames
  }

  function StaticHostnames(statics: seq<StaticSite>): seq<string> {
    if statics == [] then [] else StaticHostnames(statics[..|statics| - 1]) + [statics[|statics| - 1].hostname]
  }

  function Sources(redirects: seq<HostRedirect>): seq<string> {
    if redirects == [] then [] else Sources(redirects[..|redirects| - 1]) + [redirects[|redirects| - 1].from]
  }

  /** The redirects written: both ends are hostnames a servable site claims. */
  function Rendered(redirects: seq<HostRedirect>, served: seq<string>): (r: seq<HostRedirect>)
    ensures forall d :: d in r <==> d in redirects && d.from in served && d.to in served
  {
    if redirects == [] then []
    else
      var rest := Rendered(redirects[1..], served);
      if redirects[0].from in served && redirects[0].to in served then [redirects[0]] + rest else rest
  }

  /** The hostnames a site still serves itself. */
  function Serving(hostnames: seq<string>, sources: seq<string>): (r: seq<string>)
    ensures forall h :: h in r <==> h in hostnames && h !in sources
  {
    if hostnames == [] then []
    else
      var rest := Serving(hostnames[1..], sources);
      if hostnames[0] in sources then rest else [hostnames[0]] + rest
  }

  /** A block writes something the input asks for: a site's own hostnames to its own upstream, a redirect, or a static page. */
  ghost predicate IsDue(b: Block, sites: seq<EdgeSite>, redirects: seq<HostRedirect>, statics: seq<StaticSite>) {
    if b.SiteBlock? then
      b.hostnames != [] && exists s :: s in sites && s.privateUpstream == Some(b.upstream) && ServedBy(s, redirects, b.hostnames)
    else if b.RedirectBlock? then HostRedirect(b.from, b.to) in redirects
    else StaticSite(b.site, b.hostname) in statics
  }

  predicate ServedBy(site: EdgeSite, redirects: seq<HostRedirect>, hostnames: seq<string>) {
    forall h :: h in hostnames ==> h in site.hostnames && h !in Sources(redirects)
  }

  ghost predicate AllDue(blocks: seq<Block>, sites: seq<EdgeSite>, redirects: seq<HostRedirect>, statics: seq<StaticSite>) {
    forall b :: b in blocks ==> IsDue(b, sites, redirects, statics)
  }

  // ---- The distinctness checks ----

  method AssertUpstreamsAreDistinct(servable: seq<EdgeSite>) returns (ok: bool)
    requires forall k :: 0 <= k < |servable| ==> servable[k].privateUpstream.Some?
    ensures ok <==> forall j, k :: 0 <= j < k < |servable| ==> servable[j].privateUpstream != servable[k].privateUpstream
  {
    var seen: map<Upstream, string> := map[];
    for k := 0 to |servable|
      invariant forall u :: u in seen <==> exists j :: 0 <= j < k && servable[j].privateUpstream == Some(u)
      invariant forall i, j :: 0 <= i < j < k ==> servable[i].privateUpstream != servable[j].privateUpstream
    {
      var upstream := servable[k].privateUpstream.value;
      if upstream in seen {
        var j :| 0 <= j < k && servable[j].privateUpstream == Some(upstream);
        return false;
      }
      seen := seen[upstream := servable[k].name];
    }
    return true;
  }

  lemma NoneIsDistinct()
    ensures Distinct<string>([])
  {
  }

  lemma DistinctSoFar(s: seq<string>, more: seq<string>)
    ensures Distinct(s + more) ==> Distinct(s)
    ensures |more| == 1 ==> (Distinct(s + more) <==> Distinct(s) && more[0] !in s)
  {
    if Distinct(s + more) {
      forall j, k | 0 <= j < k < |s|
        ensures s[j] != s[k]
      {
        assert (s + more)[j] == s[j] && (s + more)[k] == s[k];
      }
      if |more| == 1 {
        forall j | 0 <= j < |s|
          ensures s[j] != more[0]
        {
          assert (s + more)[j] == s[j] && (s + more)[|s|] == more[0];
        }
      }
    }
  }

  lemma {:induction false} DistinctPrefix(sites: seq<EdgeSite>, k: nat)
    requires k <= |sites| && Distinct(Hostnames(sites))
    ensures Distinct(Hostnames(sites[..k]))
    decreases |sites|
  {
    if k < |sites| {
      var init := sites[..|sites| - 1];
      DistinctSoFar(Hostnames(init), sites[|sites| - 1].hostnames);
      DistinctPrefix(init, k);
      assert init[..k] == sites[..k];
    } else {
      assert sites[..k] == sites;
    }
  }

  /** A hostname repeated among the first ones is repeated among all. */
  lemma RepeatShowsInAll(servable: seq<EdgeSite>, k: nat, n: nat)
    requires k < |servable| && n < |servable[k].hostnames|
    requires !Distinct(Hostnames(servable[..k]) + servable[k].hostnames[..n + 1])
    ensures !Distinct(Hostnames(servable))
  {
    hide Distinct;
    var before, own := Hostnames(servable[..k]), servable[k].hostnames;
    assert servable[..k + 1][..k] == servable[..k];
    if Distinct(Hostnames(servable)) {
      DistinctPrefix(servable, k + 1);
    }
    assert before + own == before + own[..n + 1] + own[n + 1..];
    DistinctSoFar(before + own[..n + 1], own[n + 1..]);
  }

  /** `assertHostnamesAreDistinct`: no hostname is claimed twice, by two sites or by one. */
  method AssertHostnamesAreDistinct(servable: seq<EdgeSite>) returns (ok: bool)
    ensures ok <==> Distinct(Hostnames(servable))
  {
    hide Distinct;
    assert Distinct(Hostnames(servable[..0])) by {
      NoneIsDistinct();
    }
    var seen: map<string, string> := map[];
    for k := 0 to |servable|
      invariant seen.Keys == (set h | h in Hostnames(servable[..k])) && Distinct(Hostnames(servable[..k]))
    {
      var site := servable[k];
      ghost var before := Hostnames(servable[..k]);
      assert servable[..k + 1][..k] == servable[..k];
      assert before + site.hostnames[..0] == before;
      for n := 0 to |site.hostnames|
        invariant seen.Keys == (set h | h in before + site.hostnames[..n]) && Distinct(before + site.hostnames[..n])
      {
        var hostname := site.hostnames[n];
        assert before + site.hostnames[..n + 1] == before + site.hostnames[..n] + [hostname];
        DistinctSoFar(before + site.hostnames[..n], [hostname]);
        if hostname in seen {
          RepeatShowsInAll(servable, k, n);
          return false;
        }
        seen := seen[hostname := site.name];
      }
      assert site.hostnames[..|site.hostnames|] == site.hostnames;
    }
    assert servable[..|servable|] == servable;
    return true;
  }

  /** `assertStaticHostnamesAreDistinct`. */
  method AssertStaticHostnamesAreDistinct(statics: seq<StaticSite>, served: seq<string>) returns (ok: bool)
    ensures ok <==> Distinct(StaticHostnames(statics)) && forall h :: h in StaticHostnames(statics) ==> h !in served
  {
    var seen: set<string> := {};
    StaticHostnamesAt(statics);
    for k := 0 to |statics|
      invariant forall h :: h in seen <==> exists j :: 0 <= j < k && statics[j].hostname == h
      invariant forall i, j :: 0 <= i < j < k ==> statics[i].hostname != statics[j].hostname
      invariant forall j :: 0 <= j < k ==> statics[j].hostname !in served
    {
      if statics[k].hostname in served {
        assert StaticHostnames(statics)[k] == statics[k].hostname;
        return false;
      }
      if statics[k].hostname in seen {
        var j :| 0 <= j < k && statics[j].hostname == statics[k].hostname;
        assert StaticHostnames(statics)[j] == StaticHostnames(statics)[k];
        return false;
      }
      seen := seen + {statics[k].hostname};
    }
    return true;
  }

  lemma {:induction false} StaticHostnamesAt(statics: seq<StaticSite>)
    ensures |StaticHostnames(statics)| == |statics|
    ensures forall k :: 0 <= k < |statics| ==> StaticHostnames(statics)[k] == statics[k].hostname
  {
    if statics != [] {
      StaticHostnamesAt(statics[..|statics| - 1]);
    }
  }

  // ---- The blocks ----

  predicate AllHostnames(rules: Rules, hostnames: seq<string>) {
    forall k :: 0 <= k < |hostnames| ==> rules.hostname(hostnames[k])
  }

  /** Whether nothing about one site makes the renderer refuse. */
  predicate SiteIsWritable(rules: Rules, site: EdgeSite, redirects: seq<HostRedirect>) {
    var serving := Serving(site.hostnames, Sources(redirects));
    && AllHostnames(rules, serving)
    && (serving != [] ==> site.privateUpstream.Some? && rules.upstream(site.privateUpstream.value))
    && (forall d :: d in redirects && d.from in site.hostnames ==> rules.hostname(d.from) && rules.hostname(d.to))
  }

  predicate StaticIsWritable(rules: Rules, site: StaticSite) {
    rules.content(site) && rules.hostname(site.hostname)
  }

  /** How often one site's blocks hold a hostname: as often as redirects leave from it, or once for each time it is claimed. */
  function OwedBySite(hostnames: seq<string>, redirects: seq<HostRedirect>, h: string): nat {
    if h !in Sources(redirects) then Times(hostnames, h)
    else if h in hostnames then Times(Sources(redirects), h) else 0
  }

  lemma TimesOfSum(a: seq<string>, b: seq<string>, h: string)
    ensures Times(a + b, h) == Times(a, h) + Times(b, h)
    ensures Times(a, h) > 0 <==> h in a
  {
  }

  lemma TimesOfOne(x: string, h: string)
    ensures Times([x], h) == (if x == h then 1 else 0) && Times([], h) == 0
  {
  }

  lemma {:induction false} TimesServing(hostnames: seq<string>, sources: seq<string>, h: string)
    ensures Times(Serving(hostnames, sources), h) == if h in sources then 0 else Times(hostnames, h)
  {
    if hostnames != [] {
      TimesServing(hostnames[1..], sources, h);
      assert hostnames == [hostnames[0]] + hostnames[1..];
      TimesOfSum([hostnames[0]], hostnames[1..], h);
      TimesOfSum([hostnames[0]], Serving(hostnames[1..], sources), h);
    }
  }

  lemma AddressesOfMore(blocks: seq<Block>, b: Block, h: string)
    ensures Times(AllAddresses(blocks + [b]), h) == Times(AllAddresses(blocks), h) + Times(Addresses(b), h)
  {
    assert (blocks + [b])[..|blocks|] == blocks;
    TimesOfSum(AllAddresses(blocks), Addresses(b), h);
  }

  /** The block of what a site still serves itself, when that is anything. */
  method AddServing(rules: Rules, site: EdgeSite, redirects: seq<HostRedirect>, before: seq<Block>, ghost sites: seq<EdgeSite>)
    returns (r: Result<seq<Block>, Error>)
    requires site.privateUpstream.Some? && site in sites && AllDue(before, sites, redirects, [])
    ensures r.Ok? ==> AllDue(r.value, sites, redirects, [])
    ensures r.Err? ==> r.error == BadHostname || r.error == BadUpstream
    ensures var serving := Serving(site.hostnames, Sources(redirects));
            r.Ok? <==> AllHostnames(rules, serving) && (serving != [] ==> rules.upstream(site.privateUpstream.value))
    ensures r.Ok? ==> forall h :: Times(AllAddresses(r.value), h) ==
                        Times(AllAddresses(before), h) + if h in Sources(redirects) then 0 else Times(site.hostnames, h)
  {
    hide Times, AllAddresses, Serving;
    var serving := Serving(site.hostnames, Sources(redirects));
    if !AllHostnames(rules, serving) {
      return Err(BadHostname);
    }
    forall h
      ensures Times(serving, h) == if h in Sources(redirects) then 0 else Times(site.hostnames, h)
    {
      TimesServing(site.hostnames, Sources(redirects), h);
    }
    if serving == [] {
      forall h
        ensures Times([], h) == 0
      {
        TimesOfOne(h, h);
      }
      return Ok(before);
    }
    if !rules.upstream(site.privateUpstream.value) {
      return Err(BadUpstream);
    }
    var own := SiteBlock(serving, site.privateUpstream.value);
    forall h
      ensures Times(AllAddresses(before + [own]), h) == Times(AllAddresses(before), h) + Times(serving, h)
    {
      AddressesOfMore(before, own, h);
    }
    assert ServedBy(site, redirects, serving);
    return Ok(before + [own]);
  }

  /** The blocks of one site: what it still serves, then its redirects. */
  method AddSite(rules: Rules, site: EdgeSite, redirects: seq<HostRedirect>, before: seq<Block>, ghost sites: seq<EdgeSite>)
    returns (r: Result<seq<Block>, Error>)
    requires site.privateUpstream.Some? && site in sites && AllDue(before, sites, redirects, [])
    ensures r.Ok? ==> AllDue(r.value, sites, redirects, [])
    ensures r.Ok? <==> SiteIsWritable(rules, site, redirects)
    ensures r.Err? ==> r.error == BadHostname || r.error == BadUpstream
    ensures r.Ok? ==> forall h :: Times(AllAddresses(r.value), h) == Times(AllAddresses(before), h) + OwedBySite(site.hostnames, redirects, h)
  {
    hide Times, AllAddresses, AllDue, AllHostnames;
    r := AddServing(rules, site, redirects, before, sites);
    if r.Err? {
      return;
    }
    r := AddRedirects(rules, site.hostnames, redirects, r.value, sites);
    forall h
      ensures h !in Sources(redirects) ==> Times(Sources(redirects), h) == 0
      ensures h !in site.hostnames ==> Times(site.hostnames, h) == 0
    {
      TimesOfSum(Sources(redirects), [], h);
      TimesOfSum(site.hostnames, [], h);
    }
  }

  lemma SourcesGrow(redirects: seq<HostRedirect>, n: nat, h: string)
    requires n < |redirects|
    ensures Times(Sources(redirects[..n + 1]), h) == Times(Sources(redirects[..n]), h) + if redirects[n].from == h then 1 else 0
  {
    assert redirects[..n + 1][..n] == redirects[..n];
    TimesOfSum(Sources(redirects[..n]), [redirects[n].from], h);
    TimesOfOne(redirects[n].from, h);
  }

  lemma RedirectAddress(blocks: seq<Block>, d: HostRedirect, h: string)
    ensures Times(AllAddresses(blocks + [RedirectBlock(d.from, d.to)]), h) == Times(AllAddresses(blocks), h) + if d.from == h then 1 else 0
  {
    AddressesOfMore(blocks, RedirectBlock(d.from, d.to), h);
    TimesOfOne(d.from, h);
  }

  method AddRedirects(rules: Rules, hostnames: seq<string>, redirects: seq<HostRedirect>, before: seq<Block>, ghost sites: seq<EdgeSite>)
    returns (r: Result<seq<Block>, Error>)
    requires AllDue(before, sites, redirects, [])
    ensures r.Ok? ==> AllDue(r.value, sites, redirects, [])
    ensures r.Ok? <==> forall d :: d in redirects && d.from in hostnames ==> rules.hostname(d.from) && rules.hostname(d.to)
    ensures r.Err? ==> r.error == BadHostname
    ensures r.Ok? ==> forall h :: Times(AllAddresses(r.value), h) ==
                        Times(AllAddresses(before), h) + if h in hostnames then Times(Sources(redirects), h) else 0
  {
    hide Times, Addresses;
    var blocks := before;
    assert forall h :: Times(Sources(redirects[..0]), h) == 0 by {
      forall h ensures Times([], h) == 0 { TimesOfOne(h, h); }
    }
    for n := 0 to |redirects|
      invariant AllDue(blocks, sites, redirects, [])
      invariant forall k :: 0 <= k < n && redirects[k].from in hostnames ==> rules.hostname(redirects[k].from) && rules.hostname(redirects[k].to)
      invariant forall h :: Times(AllAddresses(blocks), h) ==
                  Times(AllAddresses(before), h) + if h in hostnames then Times(Sources(redirects[..n]), h) else 0
    {
      var d := redirects[n];
      ghost var sofar := blocks;
      if d.from in hostnames {
        if !rules.hostname(d.from) || !rules.hostname(d.to) {
          return Err(BadHostname);
        }
        blocks := blocks + [RedirectBlock(d.from, d.to)];
      }
      forall h
        ensures Times(AllAddresses(blocks), h) ==
                Times(AllAddresses(before), h) + if h in hostnames then Times(Sources(redirects[..n + 1]), h) else 0
      {
        SourcesGrow(redirects, n, h);
        RedirectAddress(sofar, d, h);
      }
    }
    assert redirects[..|redirects|] == redirects;
    return Ok(blocks);
  }

  /** No two servable sites share an upstream. */
  predicate UpstreamsApart(sites: seq<EdgeSite>) {
    var servable := ServableSites(sites);
    forall j, k :: 0 <= j < k < |servable| ==> servable[j].privateUpstream != servable[k].privateUpstream
  }

  /** No static hostname is claimed twice, or by a servable site. */
  predicate StaticsApart(statics: seq<StaticSite>, served: seq<string>) {
    Distinct(StaticHostnames(statics)) && forall h :: h in StaticHostnames(statics) ==> h !in served
  }

  /** Whether the renderer accepts its input. */
  ghost predicate Accepts(rules: Rules, sites: seq<EdgeSite>, redirects: seq<HostRedirect>, statics: seq<StaticSite>) {
    var servable := ServableSites(sites);
    var served := Hostnames(servable);
    && UpstreamsApart(sites) && Distinct(served) && StaticsApart(statics, served)
    && (forall k :: 0 <= k < |servable| ==> SiteIsWritable(rules, servable[k], Rendered(redirects, served)))
    && (forall k :: 0 <= k < |statics| ==> StaticIsWritable(rules, statics[k]))
  }

  /** How often the blocks hold a hostname. */
  function Owed(sites: seq<EdgeSite>, redirects: seq<HostRedirect>, statics: seq<StaticSite>, h: string): nat {
    var served := Hostnames(ServableSites(sites));
    var sources := Sources(Rendered(redirects, served));
    if h in sources then Times(sources, h)
    else if h in served || h in StaticHostnames(statics) then 1
    else 0
  }

  /** `renderCaddyfile`, up to the text of the blocks: when it accepts, and how often it then answers for each hostname. */
  method RenderCaddyfile(rules: Rules, sites: seq<EdgeSite>, hostRedirects: seq<HostRedirect>, statics: seq<StaticSite>)
    returns (r: Result<seq<Block>, Error>)
    ensures r.Ok? <==> Accepts(rules, sites, hostRedirects, statics)
    ensures r == Err(SharedUpstream) <==> !UpstreamsApart(sites)
    ensures r == Err(SharedHostname) <==> UpstreamsApart(sites) && !Distinct(Hostnames(ServableSites(sites)))
    ensures r == Err(StaticCollision) <==>
            UpstreamsApart(sites) && Distinct(Hostnames(ServableSites(sites))) && !StaticsApart(statics, Hostnames(ServableSites(sites)))
    ensures r.Ok? ==> AllDue(r.value, ServableSites(sites), Rendered(hostRedirects, Hostnames(ServableSites(sites))), statics)
    ensures r.Ok? ==> forall h :: Times(AllAddresses(r.value), h) == Owed(sites, hostRedirects, statics, h)
  {
    hide SiteIsWritable, StaticIsWritable, OwedBySite, Distinct, IsDue;
    var servable := ServableSites(sites);
    var upstreams := AssertUpstreamsAreDistinct(servable);
    if !upstreams {
      return Err(SharedUpstream);
    }
    var hostnames := AssertHostnamesAreDistinct(servable);
    if !hostnames {
      return Err(SharedHostname);
    }
    var served := Hostnames(servable);
    var apart := AssertStaticHostnamesAreDistinct(statics, served);
    if !apart {
      return Err(StaticCollision);
    }
    var redirects := Rendered(hostRedirects, served);
    var blocks := [];
    NothingOwed(redirects);
    for k := 0 to |servable|
      invariant AllDue(blocks, servable, redirects, [])
      invariant forall j :: 0 <= j < k ==> SiteIsWritable(rules, servable[j], redirects)
      invariant forall h :: Times(AllAddresses(blocks), h) == OwedBySite(Hostnames(servable[..k]), redirects, h)
    {
      ghost var before := blocks;
      var added := AddSite(rules, servable[k], redirects, blocks, servable);
      if added.Err? {
        return added;
      }
      blocks := added.value;
      forall h
        ensures Times(AllAddresses(blocks), h) == OwedBySite(Hostnames(servable[..k + 1]), redirects, h)
      {
        OwedGrows(servable, k, redirects, h);
      }
    }
    assert servable[..|servable|] == servable;
    r := AddStatics(rules, statics, blocks, servable, redirects);
    if r.Ok? {
      forall h
        ensures Times(AllAddresses(r.value), h) == Owed(sites, hostRedirects, statics, h)
      {
        OwedInAll(served, redirects, StaticHostnames(statics), h);
      }
    }
  }

  lemma StaticsGrow(statics: seq<StaticSite>, n: nat, h: string)
    requires n < |statics|
    ensures Times(StaticHostnames(statics[..n + 1]), h) == Times(StaticHostnames(statics[..n]), h) + if statics[n].hostname == h then 1 else 0
  {
    assert statics[..n + 1][..n] == statics[..n];
    TimesOfSum(StaticHostnames(statics[..n]), [statics[n].hostname], h);
    TimesOfOne(statics[n].hostname, h);
  }

  lemma StaticAddress(blocks: seq<Block>, s: StaticSite, h: string)
    ensures Times(AllAddresses(blocks + [StaticBlock(s.name, s.hostname)]), h) == Times(AllAddresses(blocks), h) + if s.hostname == h then 1 else 0
  {
    AddressesOfMore(blocks, StaticBlock(s.name, s.hostname), h);
    TimesOfOne(s.hostname, h);
  }

  method AddStatics(rules: Rules, statics: seq<StaticSite>, before: seq<Block>, ghost sites: seq<EdgeSite>, ghost redirects: seq<HostRedirect>)
    returns (r: Result<seq<Block>, Error>)
    requires AllDue(before, sites, redirects, [])
    ensures r.Ok? ==> AllDue(r.value, sites, redirects, statics)
    ensures r.Ok? <==> forall k :: 0 <= k < |statics| ==> StaticIsWritable(rules, statics[k])
    ensures r.Err? ==> r.error == BadHostname || r.error == BadContent
    ensures r.Ok? ==> forall h :: Times(AllAddresses(r.value), h) == Times(AllAddresses(before), h) + Times(StaticHostnames(statics), h)
  {
    hide Times, Addresses;
    var blocks := before;
    assert forall h :: Times(StaticHostnames(statics[..0]), h) == 0 by {
      forall h ensures Times([], h) == 0 { TimesOfOne(h, h); }
    }
    for n := 0 to |statics|
      invariant AllDue(blocks, sites, redirects, statics)
      invariant forall k :: 0 <= k < n ==> StaticIsWritable(rules, statics[k])
      invariant forall h :: Times(AllAddresses(blocks), h) == Times(AllAddresses(before), h) + Times(StaticHostnames(statics[..n]), h)
    {
      if !rules.content(statics[n]) {
        return Err(BadContent);
      }
      if !rules.hostname(statics[n].hostname) {
        return Err(BadHostname);
      }
      ghost var sofar := blocks;
      blocks := blocks + [StaticBlock(statics[n].name, statics[n].hostname)];
      forall h
        ensures Times(AllAddresses(blocks), h) == Times(AllAddresses(before), h) + Times(StaticHostnames(statics[..n + 1]), h)
      {
        StaticsGrow(statics, n, h);
        StaticAddress(sofar, statics[n], h);
      }
    }
    assert statics[..|statics|] == statics;
    return Ok(blocks);
  }

  lemma {:induction false} TimesOfDistinct(s: seq<string>, h: string)
    requires Distinct(s)
    ensures Times(s, h) == if h in s then 1 else 0
  {
    if s != [] {
      var init, last := s[..|s| - 1], s[|s| - 1];
      TimesOfDistinct(init, h);
      TimesOfSum(init, [last], h);
      assert s == init + [last];
      assert last !in init;
    }
  }

  lemma NothingOwed(redirects: seq<HostRedirect>)
    ensures forall h :: Times(AllAddresses([]), h) == OwedBySite(Hostnames([]), redirects, h)
  {
  }

  lemma OwedGrows(servable: seq<EdgeSite>, k: nat, redirects: seq<HostRedirect>, h: string)
    requires k < |servable| && Distinct(Hostnames(servable))
    ensures OwedBySite(Hostnames(servable[..k + 1]), redirects, h) ==
            OwedBySite(Hostnames(servable[..k]), redirects, h) + OwedBySite(servable[k].hostnames, redirects, h)
  {
    var before, own := Hostnames(servable[..k]), servable[k].hostnames;
    assert servable[..k + 1][..k] == servable[..k];
    DistinctPrefix(servable, k + 1);
    TimesOfDistinct(before + own, h);
    TimesOfSum(before, own, h);
    TimesOfSum(own, before, h);
  }

  lemma OwedInAll(served: seq<string>, redirects: seq<HostRedirect>, statics: seq<string>, h: string)
    requires Distinct(served) && Distinct(statics) && (forall s :: s in statics ==> s !in served)
    requires forall d :: d in redirects ==> d.from in served
    ensures OwedBySite(served, redirects, h) + Times(statics, h) ==
            if h in Sources(redirects) then Times(Sources(redirects), h) else if h in served || h in statics then 1 else 0
  {
    TimesOfDistinct(served, h);
    TimesOfDistinct(statics, h);
    SourceOfSome(redirects, h);
  }

  lemma {:induction false} SourceOfSome(redirects: seq<HostRedirect>, h: string)
    ensures h in Sources(redirects) <==> exists d :: d in redirects && d.from == h
  {
    if redirects != [] {
      var init, last := redirects[..|redirects| - 1], redirects[|redirects| - 1];
      SourceOfSome(init, h);
      assert redirects == init + [last];
      assert last in redirects;
    }
  }

  /** Every servable and every static hostname is an address exactly once, and no other hostname is one. */
  ghost predicate IsPartition(sites: seq<EdgeSite>, statics: seq<StaticSite>, blocks: seq<Block>) {
    forall h :: Times(AllAddresses(blocks), h) ==
                if h in Hostnames(ServableSites(sites)) || h in StaticHostnames(statics) then 1 else 0
  }

  /**
   The hostname partition, exactly: what the renderer writes answers for every servable and static hostname once, and
   for no other, if and only if no two of the redirects it writes leave from the same hostname.
   */
  lemma HostnamesArePartitioned(rules: Rules, sites: seq<EdgeSite>, redirects: seq<HostRedirect>, statics: seq<StaticSite>, blocks: seq<Block>)
    requires Accepts(rules, sites, redirects, statics)
    requires forall h :: Times(AllAddresses(blocks), h) == Owed(sites, redirects, statics, h)
    ensures IsPartition(sites, statics, blocks) <==> Distinct(Sources(Rendered(redirects, Hostnames(ServableSites(sites)))))
  {
    hide Times, SiteIsWritable;
    var served := Hostnames(ServableSites(sites));
    var sources := Sources(Rendered(redirects, served));
    if Distinct(sources) {
      forall h
        ensures Times(AllAddresses(blocks), h) == if h in served || h in StaticHostnames(statics) then 1 else 0
      {
        TimesOfDistinct(sources, h);
        SourceOfSome(Rendered(redirects, served), h);
      }
    }
    if IsPartition(sites, statics, blocks) {
      forall h
        ensures Times(sources, h) <= 1
      {
        assert Times(AllAddresses(blocks), h) == Owed(sites, redirects, statics, h);
        TimesOfSum(sources, [], h);
      }
      OnceIsDistinct(sources);
    }
  }

  /** The renderer accepts an input whose redirects share a source: one redirect listed twice between two names of a site. */
  lemma RepeatedSourceIsAccepted(a: string, b: string, upstream: Upstream)
    requires a != b
    ensures var rules := Rules(_ => true, _ => true, _ => true);
            var sites, d := [EdgeSite("site", [a, b], Some(upstream))], HostRedirect(a, b);
            && Accepts(rules, sites, [d, d], [])
            && !Distinct(Sources(Rendered([d, d], Hostnames(ServableSites(sites)))))
  {
    var site, d := EdgeSite("site", [a, b], Some(upstream)), HostRedirect(a, b);
    assert ServableSites([site]) == [site];
    assert [site][..0] == [] && Hostnames([site]) == [a, b];
    RepeatedSource(a, b);
    hide ServableSites, Hostnames, Rendered, Sources, Serving;
    assert Serving([a, b], [a, a]) == [b] by {
      ServingTheOther(a, b);
    }
  }

  lemma ServingTheOther(a: string, b: string)
    requires a != b
    ensures Serving([a, b], [a, a]) == [b]
  {
    assert [a, b][1..] == [b] && [b][1..] == [];
    assert Serving([b], [a, a]) == [b];
  }

  lemma RepeatedSource(a: string, b: string)
    ensures var d := HostRedirect(a, b);
            Rendered([d, d], [a, b]) == [d, d] && Sources([d, d]) == [a, a] && !Distinct([a, a])
  {
    assert [a, a][0] == [a, a][1];
    var d := HostRedirect(a, b);
    assert [d, d][1..] == [d] && [d][1..] == [];
    assert Rendered([d], [a, b]) == [d];
    assert [d, d][..1] == [d] && [d][..0] == [];
    assert Sources([d]) == [a];
  }

  lemma {:induction false} OnceIsDistinct(s: seq<string>)
    requires forall h :: Times(s, h) <= 1
    ensures Distinct(s)
  {
    if s != [] {
      var init, last := s[..|s| - 1], s[|s| - 1];
      assert s == init + [last];
      forall h
        ensures Times(s, h) == Times(init, h) + Times([last], h)
      {
        TimesOfSum(init, [last], h);
      }
      OnceIsDistinct(init);
      TimesOfSum(init, [last], last);
      assert Times([last], last) == 1;
    }
  }

  /**
   What a hostname gets: a block that holds a servable hostname either proxies it to the upstream of the one site that
   claims it, or redirects it where a redirect from it leads.
   */
  lemma HostnameReachesItsSite(rules: Rules, sites: seq<EdgeSite>, redirects: seq<HostRedirect>, statics: seq<StaticSite>, blocks: seq<Block>,
                               b: Block, site: EdgeSite, h: string)
    requires Accepts(rules, sites, redirects, statics)
    requires AllDue(blocks, ServableSites(sites), Rendered(redirects, Hostnames(ServableSites(sites))), statics)
    requires b in blocks && h in Addresses(b) && site in ServableSites(sites) && h in site.hostnames
    ensures !b.StaticBlock?
    ensures b.SiteBlock? ==> site.privateUpstream == Some(b.upstream)
    ensures b.RedirectBlock? ==> b.from == h && HostRedirect(h, b.to) in redirects
  {
    hide SiteIsWritable, StaticIsWritable;
    var servable := ServableSites(sites);
    var a :| 0 <= a < |servable| && servable[a] == site;
    ClaimIsServed(servable, a, h);
    if b.SiteBlock? {
      var other :| other in servable && other.privateUpstream == Some(b.upstream) &&
                   ServedBy(other, Rendered(redirects, Hostnames(servable)), b.hostnames);
      var c :| 0 <= c < |servable| && servable[c] == other;
      OneSiteClaims(servable, a, c, h);
    } else if b.StaticBlock? {
      StaticIsListed(statics, StaticSite(b.site, b.hostname));
    }
  }

  lemma {:induction false} ClaimIsServed(sites: seq<EdgeSite>, a: nat, h: string)
    requires a < |sites| && h in sites[a].hostnames
    ensures h in Hostnames(sites)
  {
    if a < |sites| - 1 {
      ClaimIsServed(sites[..|sites| - 1], a, h);
    }
  }

  lemma {:induction false} StaticIsListed(statics: seq<StaticSite>, s: StaticSite)
    requires s in statics
    ensures s.hostname in StaticHostnames(statics)
  {
    StaticHostnamesAt(statics);
    var k :| 0 <= k < |statics| && statics[k] == s;
    assert StaticHostnames(statics)[k] == s.hostname;
  }

  lemma RepeatedIsNotDistinct(a: seq<string>, b: seq<string>, h: string)
    requires h in a && h in b
    ensures !Distinct(a + b)
  {
    var i :| 0 <= i < |a| && a[i] == h;
    var j :| 0 <= j < |b| && b[j] == h;
    assert (a + b)[i] == h && (a + b)[|a| + j] == h;
  }

  /** Of distinct hostnames, one is claimed by one site only. */
  lemma {:induction false} OneSiteClaims(sites: seq<EdgeSite>, a: nat, c: nat, h: string)
    requires a < |sites| && c < |sites| && Distinct(Hostnames(sites))
    requires h in sites[a].hostnames && h in sites[c].hostnames
    ensures a == c
    decreases |sites|
  {
    var last := |sites| - 1;
    var init := sites[..last];
    DistinctSoFar(Hostnames(init), sites[last].hostnames);
    if a < last && c < last {
      OneSiteClaims(init, a, c, h);
    } else if a != c {
      ClaimIsServed(init, if a < last then a else c, h);
      RepeatedIsNotDistinct(Hostnames(init), sites[last].hostnames, h);
      assert false;
    }
  }

  /** What is left of a list in two parts is what is left of each: sites, redirects and hostnames keep their order. */
  lemma {:induction false} ServableInOrder(a: seq<EdgeSite>, b: seq<EdgeSite>)
    ensures ServableSites(a + b) == ServableSites(a) + ServableSites(b)
  {
    if a == [] {
      assert a + b == b;
    } else {
      assert (a + b)[1..] == a[1..] + b;
      ServableInOrder(a[1..], b);
    }
  }

  lemma {:induction false} RenderedInOrder(a: seq<HostRedirect>, b: seq<HostRedirect>, served: seq<string>)
    ensures Rendered(a + b, served) == Rendered(a, served) + Rendered(b, served)
  {
    if a == [] {
      assert a + b == b;
    } else {
      assert (a + b)[1..] == a[1..] + b;
      RenderedInOrder(a[1..], b, served);
    }
  }

  lemma {:induction false} ServingInOrder(a: seq<string>, b: seq<string>, sources: seq<string>)
    ensures Serving(a + b, sources) == Serving(a, sources) + Serving(b, sources)
  {
    if a == [] {
      assert a + b == b;
    } else {
      assert (a + b)[1..] == a[1..] + b;
      ServingInOrder(a[1..], b, sources);
    }
  }

  /** Nothing unchecked is written: every hostname, redirect target and upstream of an accepted input's blocks passes its rule. */
  lemma WrittenNamesAreChecked(rules: Rules, sites: seq<EdgeSite>, redirects: seq<HostRedirect>, statics: seq<StaticSite>, blocks: seq<Block>, b: Block)
    requires Accepts(rules, sites, redirects, statics)
    requires AllDue(blocks, ServableSites(sites), Rendered(redirects, Hostnames(ServableSites(sites))), statics) && b in blocks
    ensures forall h :: h in Addresses(b) ==> rules.hostname(h)
    ensures b.SiteBlock? ==> rules.upstream(b.upstream)
    ensures b.RedirectBlock? ==> rules.hostname(b.to)
    ensures b.StaticBlock? ==> rules.content(StaticSite(b.site, b.hostname))
  {
    var servable := ServableSites(sites);
    var served := Hostnames(servable);
    var written := Rendered(redirects, served);
    hide Distinct, Times, Accepts, ServableSites, Rendered;
    SitesAreWritable(rules, sites, redirects, statics);
    assert IsDue(b, servable, written, statics);
    match b {
      case SiteBlock(hostnames, upstream) =>
        var s :| s in servable && s.privateUpstream == Some(upstream) && ServedBy(s, written, hostnames);
        assert SiteIsWritable(rules, s, written);
        assert hostnames[0] in Serving(s.hostnames, Sources(written));
        forall h | h in hostnames
          ensures rules.hostname(h)
        {
          assert h in Serving(s.hostnames, Sources(written));
        }
      case RedirectBlock(from, to) =>
        var d := HostRedirect(from, to);
        var s := ClaimedBySome(servable, from);
        assert SiteIsWritable(rules, s, written) && d in written;
      case StaticBlock(_, _) =>
    }
  }

  lemma SitesAreWritable(rules: Rules, sites: seq<EdgeSite>, redirects: seq<HostRedirect>, statics: seq<StaticSite>)
    requires Accepts(rules, sites, redirects, statics)
    ensures var written := Rendered(redirects, Hostnames(ServableSites(sites)));
            && (forall s :: s in ServableSites(sites) ==> SiteIsWritable(rules, s, written))
            && (forall s :: s in statics ==> rules.content(s) && rules.hostname(s.hostname))
            && (forall d :: d in written ==> d.from in Hostnames(ServableSites(sites)))
  {
    hide SiteIsWritable, Distinct;
    forall s | s in statics
      ensures rules.content(s) && rules.hostname(s.hostname)
    {
      var k :| 0 <= k < |statics| && statics[k] == s;
      assert StaticIsWritable(rules, statics[k]);
    }
  }

  lemma {:induction false} ClaimedBySome(sites: seq<EdgeSite>, h: string) returns (site: EdgeSite)
    requires h in Hostnames(sites)
    ensures site in sites && h in site.hostnames
  {
    site := sites[|sites| - 1];
    if h !in site.hostnames {
      site := ClaimedBySome(sites[..|sites| - 1], h);
    }
  }
}
