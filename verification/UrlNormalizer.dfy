/** The canonical form of whole URLs, given in parts, and exactly when two URLs share one. */
module UrlNormalizer {
  import opened Strings
  import opened UrlPath
  import opened UrlQuery

  /** A URL taken apart, its query decoded into pairs. */
  datatype Url = Url(scheme: string, host: string, path: string, params: string, query: Query, fragment: string)

  const WWW := "www."

  /** Query parameters that say where a visitor came from and nothing about the page. */
  const STRIP_PARAMS: set<string> := {
    "utm_source", "utm_medium", "utm_campaign", "utm_term", "utm_content", "utm_id", "utm_cid",
    "fbclid", "gclid", "gclsrc", "dclid", "gbraid", "wbraid", "msclkid", "twclid", "li_fat_id",
    "mc_cid", "mc_eid", "ref", "source", "_ga", "_gl", "yclid", "igshid", "oly_anon_id", "oly_enc_id",
    "_hsenc", "_hsmi", "mkt_tok", "hsa_cam", "hsa_grp", "hsa_mt", "hsa_src", "hsa_ad", "hsa_acc",
    "hsa_net", "hsa_ver", "hsa_la", "hsa_ol", "hsa_kw", "hsa_tgt", "hsa_bal", "hsa_bet", "hsa_bot",
    "hsa_pst", "hsa_adid", "hsa_cam_id", "hsa_net_id", "hsa_ver_id", "pk_campaign", "pk_kwd",
    "pk_source", "pk_medium" }

  /** The port that goes without saying, with its colon; empty if none does. */
  function DefaultPort(scheme: string): (port: string)
    ensures port != "" ==> port[0] == ':'
  {
    if scheme == "http" then ":80" else if scheme == "https" then ":443" else ""
  }

  function WithoutPort(host: string, port: string): string {
    if EndsWith(host, port) then host[..|host| - |port|] else host
  }

  function WithoutPrefix(host: string, prefix: string): string {
    if StartsWith(host, prefix) then host[|prefix|..] else host
  }

  /** Lower case, without the default port and without one "www.". */
  function NormalHost(scheme: string, host: string): string {
    WithoutPrefix(WithoutPort(Lower(host), DefaultPort(scheme)), WWW)
  }

  function Normalize(u: Url): Url {
    var scheme := Lower(u.scheme);
    Url(scheme, NormalHost(scheme, u.host), NormalPath(u.path), u.params, NormalQuery(STRIP_PARAMS, u.query), "")
  }

  // ------------------------------------------------------------------------------ hosts

  lemma LowerTwice(s: string)
    ensures Lower(Lower(s)) == Lower(s)
  {
  }

  lemma LowerPart(s: string, i: nat, j: nat)
    requires i <= j <= |s|
    ensures Lower(s)[i..j] == Lower(s[i..j])
  {
  }

  predicate IsLower(s: string) {
    Lower(s) == s
  }

  lemma StripsStayLower(s: string, port: string, prefix: string)
    requires IsLower(s)
    ensures IsLower(WithoutPrefix(WithoutPort(s, port), prefix))
  {
    var h := WithoutPort(s, port);
    var n := if StartsWith(h, prefix) then |prefix| else 0;
    LowerPart(s, n, |h|);
    assert WithoutPrefix(h, prefix) == s[n..|h|];
  }

  /** A suffix that begins with a colon is not touched by taking off a prefix without one. */
  lemma PrefixMissesPort(h: string, port: string, prefix: string)
    requires port != "" && port[0] == ':' && ':' !in prefix
    ensures EndsWith(WithoutPrefix(h, prefix), port) <==> EndsWith(h, port)
  {
    if StartsWith(h, prefix) && EndsWith(h, port) {
      var k := |h| - |port|;
      assert h[k..][0] == h[k] == ':';
      assert k >= |prefix|;
      assert h[|prefix|..][|h| - |prefix| - |port|..] == h[k..];
    }
  }

  lemma PortTwice(l: string, port: string)
    requires port != ""
    ensures EndsWith(WithoutPort(l, port), port) <==> EndsWith(l, port + port)
  {
    var n := |port|;
    if EndsWith(l, port + port) {
      assert l[|l| - 2 * n..][n..] == l[|l| - n..] && (port + port)[n..] == port;
      var h := l[..|l| - n];
      assert h[|h| - n..] == l[|l| - 2 * n..][..n] == (port + port)[..n] == port;
    }
  }

  lemma PrefixTwice(l: string, port: string, prefix: string)
    requires port != "" ==> port[0] == ':'
    requires ':' !in prefix && prefix != ""
    ensures StartsWith(WithoutPrefix(WithoutPort(l, port), prefix), prefix) <==> StartsWith(l, prefix + prefix)
  {
    var h, n, twice := WithoutPort(l, port), |prefix|, prefix + prefix;
    assert h <= l;
    if StartsWith(l, twice) {
      if port != "" && EndsWith(l, port) {
        assert l[|h|] == l[|h|..][0] == ':';
        assert |h| >= |twice|;
      }
      assert twice <= h && h[..2 * n] == twice;
      assert h[..n] == twice[..n] == prefix && h[n..][..n] == twice[n..] == prefix;
    }
  }

  /** Normalising a host a second time changes nothing, exactly when it had neither its port nor "www." twice. */
  lemma NormalHostStable(scheme: string, host: string)
    ensures var port, l := DefaultPort(scheme), Lower(host);
      NormalHost(scheme, NormalHost(scheme, host)) == NormalHost(scheme, host)
      <==> !(port != "" && EndsWith(l, port + port)) && !StartsWith(l, WWW + WWW)
  {
    var port, l := DefaultPort(scheme), Lower(host);
    var h := WithoutPort(l, port);
    var r := WithoutPrefix(h, WWW);
    LowerTwice(host);
    StripsStayLower(l, port, WWW);
    if port != "" {
      PrefixMissesPort(h, port, WWW);
      PortTwice(l, port);
    }
    PrefixTwice(l, port, WWW);
  }

  /** A lower-case host that spells a bare one: with or without "www." before it, with or without its port after it. */
  predicate Spells(l: string, bare: string, port: string) {
    || l == WWW + bare + port
    || (l == bare + port && !StartsWith(bare, WWW))
    || (l == WWW + bare && !EndsWith(l, port))
    || (l == bare && !StartsWith(bare, WWW) && !EndsWith(l, port))
  }

  /** Both hosts spell the same bare one. */
  ghost predicate SameHost(a: string, b: string, port: string) {
    exists bare :: Spells(a, bare, port) && Spells(b, bare, port)
  }

  lemma EndsIff(l: string, h: string, port: string)
    requires EndsWith(l, port)
    ensures l[..|l| - |port|] == h <==> l == h + port
  {
    assert l == l[..|l| - |port|] + l[|l| - |port|..];
  }

  lemma StartsIff(h: string, bare: string, prefix: string)
    ensures WithoutPrefix(h, prefix) == bare <==> h == prefix + bare || (h == bare && !StartsWith(bare, prefix))
  {
    if StartsWith(h, prefix) {
      assert h == prefix + h[|prefix|..];
    }
  }

  lemma WithoutPortIff(l: string, h: string, port: string)
    ensures WithoutPort(l, port) == h <==> l == h + port || (l == h && !EndsWith(l, port))
  {
    if EndsWith(l, port) {
      EndsIff(l, h, port);
    }
  }

  /** The canonical host is the only bare one that a host spells. */
  lemma NormalHostIff(scheme: string, host: string, bare: string)
    ensures NormalHost(scheme, host) == bare <==> Spells(Lower(host), bare, DefaultPort(scheme))
  {
    var port, l := DefaultPort(scheme), Lower(host);
    var h := WithoutPort(l, port);
    StartsIff(h, bare, WWW);
    WithoutPortIff(l, WWW + bare, port);
    WithoutPortIff(l, bare, port);
  }

  /** A host with neither "www." nor its port has exactly four spellings. */
  lemma FourSpellings(scheme: string, host: string, bare: string)
    requires !StartsWith(bare, WWW) && (DefaultPort(scheme) != "" ==> !EndsWith(bare, DefaultPort(scheme)))
    ensures var port := DefaultPort(scheme);
      NormalHost(scheme, host) == bare <==> Lower(host) in {bare, WWW + bare, bare + port, WWW + bare + port}
  {
    var port := DefaultPort(scheme);
    NormalHostIff(scheme, host, bare);
    if port != "" {
      assert WithoutPrefix(WWW + bare, WWW) == bare;
      PrefixMissesPort(WWW + bare, port, WWW);
    }
  }

  lemma PortTakenOff(host: string, port: string)
    ensures WithoutPort(host + port, port) == host
  {
    assert (host + port)[|host + port| - |port|..] == port && (host + port)[..|host|] == host;
  }

  lemma PortLeft(host: string, last: char, port: string)
    requires host != "" && host[|host| - 1] == last && port != "" && port[|port| - 1] != last
    ensures WithoutPort(host, port) == host
  {
    LastOfPort(host, port);
  }

  lemma LastOfPort(host: string, port: string)
    requires port != ""
    ensures EndsWith(host, port) ==> host != "" && host[|host| - 1] == port[|port| - 1]
  {
    if EndsWith(host, port) {
      assert host[|host| - |port|..][|port| - 1] == host[|host| - 1];
    }
  }

  lemma PrefixTakenOff(host: string, prefix: string)
    ensures WithoutPrefix(prefix + host, prefix) == host
  {
  }

  /** Each of the two schemes drops its own port and keeps the other's, and any other scheme keeps both. */
  lemma PortsOfSchemes(scheme: string, host: string)
    ensures WithoutPort(host + ":80", DefaultPort("http")) == host && WithoutPort(host + ":443", DefaultPort("https")) == host
    ensures WithoutPort(host + ":443", DefaultPort("http")) == host + ":443"
    ensures WithoutPort(host + ":80", DefaultPort("https")) == host + ":80"
    ensures scheme !in {"http", "https"} ==> WithoutPort(host, DefaultPort(scheme)) == host
    ensures WithoutPrefix("www." + host, WWW) == host
  {
    assert |"http"| == 4 && |"https"| == 5;
    assert DefaultPort("http") == ":80" && DefaultPort("https") == ":443";
    assert ":80"[2] == '0' && ":443"[3] == '3';
    PortTakenOff(host, ":80");
    PortTakenOff(host, ":443");
    PortLeft(host + ":443", '3', ":80");
    PortLeft(host + ":80", '0', ":443");
    PrefixTakenOff(host, "www.");
    assert host[..|host|] == host;
  }

  /** So these are the spellings of a plain host, for each of the two schemes. */
  lemma SpellingsOfPlainHost(host: string, bare: string)
    requires !("www." <= bare)
    ensures !EndsWith(bare, ":80") ==>
      (NormalHost("http", host) == bare <==> Lower(host) in {bare, "www." + bare, bare + ":80", "www." + bare + ":80"})
    ensures !EndsWith(bare, ":443") ==>
      (NormalHost("https", host) == bare <==> Lower(host) in {bare, "www." + bare, bare + ":443", "www." + bare + ":443"})
  {
    assert |"http"| == 4 && |"https"| == 5;
    assert DefaultPort("http") == ":80" && DefaultPort("https") == ":443";
    if !EndsWith(bare, ":80") {
      FourSpellings("http", host, bare);
    }
    if !EndsWith(bare, ":443") {
      FourSpellings("https", host, bare);
    }
  }

  lemma SameHostIff(scheme: string, a: string, b: string)
    ensures NormalHost(scheme, a) == NormalHost(scheme, b) <==> SameHost(Lower(a), Lower(b), DefaultPort(scheme))
  {
    var port := DefaultPort(scheme);
    NormalHostIff(scheme, a, NormalHost(scheme, a));
    NormalHostIff(scheme, b, NormalHost(scheme, b));
    forall bare | Spells(Lower(a), bare, port) && Spells(Lower(b), bare, port)
      ensures NormalHost(scheme, a) == NormalHost(scheme, b)
    {
      NormalHostIff(scheme, a, bare);
      NormalHostIff(scheme, b, bare);
    }
  }

  // ------------------------------------------------------------------------- whole URLs

  /** Two URLs normalise alike exactly when their hosts spell the same one and they otherwise say the same. */
  lemma SameUrl(a: Url, b: Url)
    ensures Normalize(a) == Normalize(b) <==>
      && Lower(a.scheme) == Lower(b.scheme)
      && SameHost(Lower(a.host), Lower(b.host), DefaultPort(Lower(a.scheme)))
      && Absolute(a.path) == Absolute(b.path) && Segments(a.path) == Segments(b.path)
      && a.params == b.params
      && SameValues(STRIP_PARAMS, a.query, b.query)
  {
    SameHostIff(Lower(a.scheme), a.host, b.host);
    SamePath(a.path, b.path);
    SameQuery(STRIP_PARAMS, a.query, b.query);
  }

  /** Normalising is idempotent, except on hosts that carry their default port or "www." twice. */
  lemma NormalizeStable(u: Url)
    ensures var port, l := DefaultPort(Lower(u.scheme)), Lower(u.host);
      Normalize(Normalize(u)) == Normalize(u)
      <==> !(port != "" && EndsWith(l, port + port)) && !StartsWith(l, WWW + WWW)
  {
    LowerTwice(u.scheme);
    NormalHostStable(Lower(u.scheme), u.host);
    NormalPathIdempotent(u.path);
    NormalQueryIdempotent(STRIP_PARAMS, u.query);
  }
}
