/** Rule lists read by example: the kinds as users write them, and which kind wins over which. */
module RuleKinds {
  import opened Options
  import opened RuleList
  import opened Spelling
  import opened SuffixTrie
  import opened Text

  lemma KindNamesArePlain()
    ensures NoCapitals("domain") && NoCapitals("domain_suffix") && NoCapitals("domain_keyword")
    ensures NoCapitals("cidr") && NoCapitals("match")
  {
  }

  /** The five kinds, in any mixture of cases. */
  lemma KindsBySpelling(r: Rule)
    ensures Is(r, DOMAIN) <==> SameUpToCase(r.ruleType, "domain")
    ensures Is(r, SUFFIX) <==> SameUpToCase(r.ruleType, "domain_suffix")
    ensures Is(r, KEYWORD) <==> SameUpToCase(r.ruleType, "domain_keyword")
    ensures Is(r, CIDR) <==> SameUpToCase(r.ruleType, "cidr")
    ensures Is(r, MATCH) <==> SameUpToCase(r.ruleType, "match")
  {
    hide Lower, SameUpToCase, NoCapitals;
    KindNamesArePlain();
    LowerIff(r.ruleType, "domain");
    LowerIff(r.ruleType, "domain_suffix");
    LowerIff(r.ruleType, "domain_keyword");
    LowerIff(r.ruleType, "cidr");
    LowerIff(r.ruleType, "match");
    LowerIff("domain", "");
    LowerIff("domain_suffix", "");
    LowerIff("domain_keyword", "");
    LowerIff("cidr", "");
    LowerIff("match", "");
  }

  lemma KindsDiffer(r: Rule, kind: string)
    requires r.ruleType == kind
    requires kind == "domain" || kind == "domain_suffix" || kind == "domain_keyword" || kind == "cidr" || kind == "match"
    ensures Is(r, DOMAIN) <==> kind == "domain"
    ensures Is(r, SUFFIX) <==> kind == "domain_suffix"
    ensures Is(r, KEYWORD) <==> kind == "domain_keyword"
    ensures Is(r, CIDR) <==> kind == "cidr"
    ensures Is(r, MATCH) <==> kind == "match"
  {
    hide Lower, SameUpToCase, NoCapitals;
    KindNamesArePlain();
    LowerIff(kind, "");
  }

  /**
    For a name that five rules and the domain list all speak to: the exact rule decides; without it the
    domain list; without an entry there the suffix rule; then the keyword rule; then the match rule; and an
    empty list says DIRECT. The order the rules are written in does not matter here.
  */
  lemma EachKindYieldsToTheOneBefore(lib: Parsers, host: string, suffix: string, word: string, listed: string,
                                     exact: string, bySuffix: string, byWord: string, rest: string, r: string)
    requires var h := Normal(host);
             && lib.parseIP(h).None?
             && Normal(suffix) != "" && DottedSuffix(h, Normal(suffix)) && Contains(h, Normal(word))
    ensures var all := [Rule("match", "", rest), Rule("domain_keyword", word, byWord),
                        Rule("domain_suffix", suffix, bySuffix), Rule("domain", host, exact)];
            && (Decides(lib, all, Found(listed), host, r) <==> r == exact)
            && (Decides(lib, all[..3], Found(listed), host, r) <==> r == listed)
            && (Decides(lib, all[..3], NotFound, host, r) <==> r == bySuffix)
            && (Decides(lib, all[..2], NotFound, host, r) <==> r == byWord)
            && (Decides(lib, all[..1], NotFound, host, r) <==> r == rest)
            && (Decides(lib, [], NotFound, host, r) <==> r == "DIRECT")
  {
    hide Is, Normal, Contains, DottedSuffix;
    var m, k, s, d := Rule("match", "", rest), Rule("domain_keyword", word, byWord),
                      Rule("domain_suffix", suffix, bySuffix), Rule("domain", host, exact);
    KindsDiffer(m, "match");
    KindsDiffer(k, "domain_keyword");
    KindsDiffer(s, "domain_suffix");
    KindsDiffer(d, "domain");
    var all := [m, k, s, d];
    ExactDecides(lib, all, host, listed, r, m, k, s, d);
    SuffixDecides(lib, all[..3], host, listed, r, m, k, s);
    WordDecides(lib, all[..2], host, r, m, k);
    RestDecides(lib, all[..1], host, r, m);
  }

  lemma ExactDecides(lib: Parsers, all: seq<Rule>, host: string, listed: string, r: string,
                     m: Rule, k: Rule, s: Rule, d: Rule)
    requires all == [m, k, s, d] && lib.parseIP(Normal(host)).None? && d.value == host
    requires Is(d, DOMAIN) && !Is(m, DOMAIN) && !Is(k, DOMAIN) && !Is(s, DOMAIN)
    ensures Decides(lib, all, Found(listed), host, r) <==> r == d.outbound
  {
    hide Is, Normal, Contains, DottedSuffix;
    assert LastFor(all, DOMAIN, Normal(host), 3);
    assert forall i: nat :: LastFor(all, DOMAIN, Normal(host), i) ==> i == 3;
  }

  lemma SuffixDecides(lib: Parsers, rules: seq<Rule>, host: string, listed: string, r: string, m: Rule, k: Rule, s: Rule)
    requires rules == [m, k, s] && lib.parseIP(Normal(host)).None? && SuffixHit(s, Normal(host))
    requires !Is(s, DOMAIN) && !Is(m, DOMAIN) && !Is(k, DOMAIN) && !Is(m, SUFFIX) && !Is(k, SUFFIX)
    ensures Decides(lib, rules, Found(listed), host, r) <==> r == listed
    ensures Decides(lib, rules, NotFound, host, r) <==> r == s.outbound
  {
    hide Is, Normal, Contains, DottedSuffix;
    assert NoneFor(rules, DOMAIN, Normal(host));
    assert BestSuffix(rules, Normal(host), 2);
    assert forall i: nat :: BestSuffix(rules, Normal(host), i) ==> i == 2;
  }

  lemma WordDecides(lib: Parsers, rules: seq<Rule>, host: string, r: string, m: Rule, k: Rule)
    requires rules == [m, k] && lib.parseIP(Normal(host)).None? && KeywordHit(k, Normal(host))
    requires !Is(m, DOMAIN) && !Is(k, DOMAIN) && !Is(m, SUFFIX) && !Is(k, SUFFIX) && !Is(m, KEYWORD)
    ensures Decides(lib, rules, NotFound, host, r) <==> r == k.outbound
  {
    hide Is, Normal, Contains, DottedSuffix;
    assert NoneFor(rules, DOMAIN, Normal(host)) && NoSuffix(rules, Normal(host));
    assert SomeKeyword(rules, Normal(host), 1);
    assert forall i: nat :: SomeKeyword(rules, Normal(host), i) ==> i == 1;
  }

  lemma RestDecides(lib: Parsers, rules: seq<Rule>, host: string, r: string, m: Rule)
    requires rules == [m] && lib.parseIP(Normal(host)).None? && Is(m, MATCH)
    requires !Is(m, DOMAIN) && !Is(m, SUFFIX) && !Is(m, KEYWORD)
    ensures Decides(lib, rules, NotFound, host, r) <==> r == m.outbound
    ensures Decides(lib, [], NotFound, host, r) <==> r == "DIRECT"
  {
    hide Is, Normal, Contains, DottedSuffix;
    assert NoneFor(rules, DOMAIN, Normal(host)) && NoSuffix(rules, Normal(host)) && NoKeyword(rules, Normal(host));
    assert Is(rules[0], MATCH);
  }

  /** For an address: the first of two networks that contain it decides, then the match rule, whatever else is listed. */
  lemma AddressesGoByNetworks(lib: Parsers, host: string, ip: IP, a: string, b: string, na: Net, nb: Net,
                              byA: string, byB: string, rest: string, other: string, list: Found, r: string)
    requires lib.parseIP(Normal(host)) == Some(ip) && lib.parseCIDR(a) == Some(na) && lib.parseCIDR(b) == Some(nb)
    ensures var rules := [Rule("domain", host, other), Rule("match", "", rest), Rule("cidr", a, byA), Rule("cidr", b, byB)];
            Decides(lib, rules, list, host, r) <==>
            r == if InNet(na, ip) then byA else if InNet(nb, ip) then byB else rest
  {
    hide Is, Normal, InNet;
    var d, m, x, y := Rule("domain", host, other), Rule("match", "", rest), Rule("cidr", a, byA), Rule("cidr", b, byB);
    KindsDiffer(d, "domain");
    KindsDiffer(m, "match");
    KindsDiffer(x, "cidr");
    KindsDiffer(y, "cidr");
    var rules := [d, m, x, y];
    assert forall i :: 0 <= i < 4 && CidrHit(lib, rules[i], ip) ==> i == 2 || i == 3;
    assert CidrHit(lib, rules[2], ip) == InNet(na, ip) && CidrHit(lib, rules[3], ip) == InNet(nb, ip);
    if InNet(na, ip) {
      assert FirstCidr(lib, rules, ip, 2);
      assert forall i: nat :: FirstCidr(lib, rules, ip, i) ==> i == 2;
    } else if InNet(nb, ip) {
      assert FirstCidr(lib, rules, ip, 3);
      assert forall i: nat :: FirstCidr(lib, rules, ip, i) ==> i == 3;
    } else {
      assert NoCidr(lib, rules, ip);
      assert Is(rules[1], MATCH);
    }
  }
}
