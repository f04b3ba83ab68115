/** The compiled rule set, its replacement and its lookup: pkg/control/rule/engine.go. */
module RuleEngine {
  import opened Options
  import opened Text
  import opened SuffixTrie
  import opened RuleList
  import DomainList

  class RuntimeRuleSet {
    var exactDomains: map<string, string>
    const domainTrie: DomainTrie
    var keywords: map<string, string>
    var cidrRules: seq<CompiledRule>
    var matchDefault: string
    ghost var rules: seq<Rule>

    /** The set holds what its rule list says. */
    ghost predicate Compiled(lib: Parsers)
      reads this, domainTrie, domainTrie.repr
    {
      && domainTrie.Valid()
      && domainTrie.inserts == Suffixes(rules)
      && exactDomains == Table(rules, DOMAIN)
      && keywords == Table(rules, KEYWORD)
      && cidrRules == Cidrs(lib, rules)
      && matchDefault == Default(rules)
    }

    constructor (ghost lib: Parsers)
      ensures Compiled(lib) && rules == []
      ensures fresh(domainTrie) && fresh(domainTrie.repr)
    {
      exactDomains, keywords, cidrRules, matchDefault := map[], map[], [], DIRECT;
      rules := [];
      var trie := new DomainTrie();
      domainTrie := trie;
    }

    /** One round of the compilation loop. */
    method Compile(lib: Parsers, rc: Rule)
      requires Compiled(lib)
      modifies this, domainTrie, domainTrie.repr
      ensures Compiled(lib) && rules == old(rules) + [rc]
      ensures fresh(domainTrie.repr - old(domainTrie.repr))
    {
      hide Table, Suffixes, Cidrs, Default, EntriesOf, Normal, Lower, Shape, DomainTrie.Valid;
      Snoc(lib, rules, rc);
      var rType := Lower(rc.ruleType);
      var val := Normal(rc.value);
      if rType == DOMAIN {
        exactDomains := exactDomains[val := rc.outbound];
      } else if rType == SUFFIX {
        domainTrie.Insert(val, rc.outbound);
      } else if rType == KEYWORD {
        keywords := keywords[val := rc.outbound];
      } else if rType == CIDR {
        var net := lib.parseCIDR(rc.value);
        if net.Some? {
          cidrRules := cidrRules + [CompiledRule(net.value, rc.outbound)];
        }
      } else if rType == MATCH {
        matchDefault := rc.outbound;
      }
      rules := rules + [rc];
    }
  }

  /** The moments of a lookup: loading the pointer, then each read of what it points to. */
  datatype Step = Load | Addresses | Exact | DomainLists | SuffixRules | Keywords | ReadDefault

  function LastOf(rules: seq<Rule>, reloads: seq<seq<Rule>>): seq<Rule> {
    if reloads == [] then rules else reloads[|reloads| - 1]
  }

  class Engine {
    const lib: Parsers
    var activeRules: RuntimeRuleSet
    const domainListMgr: DomainList.Manager?

    ghost predicate Valid()
      reads this, activeRules, activeRules.domainTrie, activeRules.domainTrie.repr
    {
      activeRules.Compiled(lib)
    }

    constructor (lib: Parsers, domainListMgr: DomainList.Manager?)
      ensures Valid() && activeRules.rules == [] && this.lib == lib && this.domainListMgr == domainListMgr
    {
      this.lib, this.domainListMgr := lib, domainListMgr;
      activeRules := new RuntimeRuleSet(lib);
    }

    /** Builds a rule set of its own and puts it in place with one store; sets in place before stay as they are. */
    method CompileAndApply(ruleCfgs: seq<Rule>)
      modifies this`activeRules
      ensures Valid() && activeRules.rules == ruleCfgs
      ensures fresh(activeRules) && fresh(activeRules.domainTrie) && fresh(activeRules.domainTrie.repr)
    {
      hide RuntimeRuleSet.Compiled;
      var newSet := new RuntimeRuleSet(lib);
      var n := 0;
      while n < |ruleCfgs|
        invariant 0 <= n <= |ruleCfgs|
        invariant newSet.Compiled(lib) && newSet.rules == ruleCfgs[..n]
        invariant fresh(newSet) && fresh(newSet.domainTrie) && fresh(newSet.domainTrie.repr)
        decreases |ruleCfgs| - n
      {
        newSet.Compile(lib, ruleCfgs[n]);
        n := n + 1;
      }
      activeRules := newSet;
    }

    /** What the domain list has to say about a normalised host, if there is a list. */
    ghost function ListSays(h: string): Found
      reads domainListMgr,
            if domainListMgr == null then {} else {domainListMgr.activeMatcher}
    {
      if domainListMgr != null && DomainList.Covers(domainListMgr.activeMatcher.lines, h)
      then Found(domainListMgr.activeMatcher.target) else NotFound
    }

    /** The lookup, undisturbed, equals the declarative reading of the rule list in force. */
    method Match(host: string) returns (outbound: string)
      requires Valid() && (domainListMgr != null ==> domainListMgr.Valid())
      modifies this`activeRules
      ensures Decides(lib, activeRules.rules, ListSays(Normal(host)), host, outbound)
      ensures Valid() && activeRules == old(activeRules)
    {
      outbound := MatchWhileReloading(host, _ => []);
    }

    /** Other goroutines re-apply rules, any number of times. */
    method Reload(reloads: seq<seq<Rule>>)
      requires Valid()
      modifies this`activeRules
      ensures Valid() && (reloads == [] ==> activeRules == old(activeRules))
      ensures activeRules.rules == LastOf(old(activeRules.rules), reloads)
    {
      hide RuntimeRuleSet.Compiled;
      var n := 0;
      while n < |reloads|
        invariant 0 <= n <= |reloads| && Valid()
        invariant n == 0 ==> activeRules == old(activeRules)
        invariant activeRules.rules == LastOf(old(activeRules.rules), reloads[..n])
        decreases |reloads| - n
      {
        CompileAndApply(reloads[n]);
        n := n + 1;
      }
      assert reloads[..n] == reloads;
    }

    /**
      A lookup with any number of reloads by other goroutines before each of its steps: it answers by the
      one rule set it loaded, whole, whatever is in force at any later moment.
    */
    method MatchWhileReloading(host: string, reloads: Step -> seq<seq<Rule>>) returns (outbound: string)
      requires Valid() && (domainListMgr != null ==> domainListMgr.Valid())
      modifies this`activeRules
      ensures Decides(lib, LastOf(old(activeRules.rules), reloads(Load)), old(ListSays(Normal(host))), host, outbound)
      ensures Valid()
      ensures (forall step :: reloads(step) == []) ==> activeRules == old(activeRules)
    {
      hide Normal, Decides, DomainList.Covers, RuntimeRuleSet.Compiled, DomainList.Manager.Valid;
      Reload(reloads(Load));
      var ruleSet := activeRules;
      Reload(reloads(Addresses));
      var ip := lib.parseIP(Normal(host));
      if ip.Some? {
        outbound := MatchAddress(ruleSet, ip.value);
        AddressDecides(ruleSet.rules, ListSays(Normal(host)), host, outbound);
      } else {
        outbound := MatchName(ruleSet, host, reloads);
      }
    }

    lemma AddressDecides(rules: seq<Rule>, list: Found, host: string, outbound: string)
      requires var ip := lib.parseIP(Normal(host));
               ip.Some? && if NoCidr(lib, rules, ip.value) then IsDefault(rules, outbound)
                           else exists i: nat :: FirstCidr(lib, rules, ip.value, i) && rules[i].outbound == outbound
      ensures Decides(lib, rules, list, host, outbound)
    {
    }

    /** The part of the lookup for a host that is no address. */
    method MatchName(ruleSet: RuntimeRuleSet, host: string, reloads: Step -> seq<seq<Rule>>) returns (outbound: string)
      requires lib.parseIP(Normal(host)).None? && ruleSet.Compiled(lib)
      requires Valid() && (domainListMgr != null ==> domainListMgr.Valid())
      modifies this`activeRules
      ensures Decides(lib, ruleSet.rules, old(ListSays(Normal(host))), host, outbound)
      ensures Valid()
      ensures (forall step :: reloads(step) == []) ==> activeRules == old(activeRules)
    {
      hide Normal, IsDefault, FirstCidr, LastFor, NoneFor, NoCidr, BestSuffix, NoSuffix, SomeKeyword, NoKeyword,
           LastOf, RuntimeRuleSet.Compiled, DomainList.Manager.Valid, ListSays, Valid;
      var h := Normal(host);
      Reload(reloads(Exact));
      var exact := MatchExact(ruleSet, h);
      if exact.Some? {
        return exact.value;
      }
      Reload(reloads(DomainLists));
      var listed := MatchLists(h);
      if listed.Found? {
        return listed.target;
      }
      Reload(reloads(SuffixRules));
      var suffix := MatchSuffix(ruleSet, host);
      if suffix.Some? {
        return suffix.value;
      }
      Reload(reloads(Keywords));
      var kw := MatchKeyword(ruleSet, h);
      if kw.Some? {
        return kw.value;
      }
      Reload(reloads(ReadDefault));
      outbound := DefaultOf(ruleSet);
    }

    method MatchExact(ruleSet: RuntimeRuleSet, h: string) returns (hit: Option<string>)
      requires ruleSet.Compiled(lib)
      ensures hit.None? <==> NoneFor(ruleSet.rules, DOMAIN, h)
      ensures hit.Some? ==> exists i: nat :: LastFor(ruleSet.rules, DOMAIN, h, i) && ruleSet.rules[i].outbound == hit.value
    {
      hide Table, Suffixes, Cidrs, Default, NoneFor, DomainTrie.Valid;
      TableIsLast(ruleSet.rules, DOMAIN, h);
      hit := if h in ruleSet.exactDomains then Some(ruleSet.exactDomains[h]) else None;
    }

    method MatchLists(h: string) returns (found: Found)
      requires domainListMgr != null ==> domainListMgr.Valid()
      ensures found == ListSays(h)
    {
      hide DomainList.Covers;
      found := NotFound;
      if domainListMgr != null {
        var target, ok := domainListMgr.Match(h);
        if ok {
          found := Found(target);
        }
      }
    }

    method MatchSuffix(ruleSet: RuntimeRuleSet, host: string) returns (hit: Option<string>)
      requires ruleSet.Compiled(lib)
      ensures hit.None? <==> NoSuffix(ruleSet.rules, Normal(host))
      ensures hit.Some? ==>
                exists i: nat :: BestSuffix(ruleSet.rules, Normal(host), i) && ruleSet.rules[i].outbound == hit.value
    {
      hide Normal, Table, Suffixes, Cidrs, Default, EntriesOf, LongestPrefix, Key, BestSuffix, NoSuffix;
      NormalIdempotent(host);
      SuffixLookup(ruleSet.rules, Normal(host));
      var target, found := ruleSet.domainTrie.Match(Normal(host));
      hit := if found then Some(target) else None;
    }

    method DefaultOf(ruleSet: RuntimeRuleSet) returns (outbound: string)
      requires ruleSet.Compiled(lib)
      ensures IsDefault(ruleSet.rules, outbound)
    {
      hide Table, Suffixes, Cidrs, Default, IsDefault, DomainTrie.Valid;
      DefaultIsLast(ruleSet.rules);
      outbound := ruleSet.matchDefault;
    }

    method MatchAddress(ruleSet: RuntimeRuleSet, ip: IP) returns (outbound: string)
      requires ruleSet.Compiled(lib)
      ensures var rules := ruleSet.rules;
              if NoCidr(lib, rules, ip) then IsDefault(rules, outbound)
              else exists i: nat :: FirstCidr(lib, rules, ip, i) && rules[i].outbound == outbound
    {
      hide Table, Suffixes, Cidrs, Default, IsDefault, FirstCidr, NoCidr, InNet, Is, EntriesOf, DomainTrie.Valid;
      DefaultIsLast(ruleSet.rules);
      var n := 0;
      while n < |ruleSet.cidrRules|
        invariant 0 <= n <= |ruleSet.cidrRules|
        invariant forall m :: 0 <= m < n ==> !InNet(ruleSet.cidrRules[m].net, ip)
        decreases |ruleSet.cidrRules| - n
      {
        if InNet(ruleSet.cidrRules[n].net, ip) {
          FirstHitIsFirstRule(lib, ruleSet.rules, ip, n);
          return ruleSet.cidrRules[n].outbound;
        }
        n := n + 1;
      }
      CidrsHitAlike(lib, ruleSet.rules, ip);
      outbound := ruleSet.matchDefault;
    }

    /** Map iteration order is arbitrary: some keyword the host contains, if there is one. */
    method MatchKeyword(ruleSet: RuntimeRuleSet, h: string) returns (hit: Option<string>)
      requires ruleSet.Compiled(lib)
      ensures hit.None? <==> NoKeyword(ruleSet.rules, h)
      ensures hit.Some? ==> exists i: nat :: SomeKeyword(ruleSet.rules, h, i) && ruleSet.rules[i].outbound == hit.value
    {
      hide Table, Suffixes, Cidrs, Default, Is, Contains, Normal;
      ghost var rules := ruleSet.rules;
      var rest := ruleSet.keywords.Keys;
      while rest != {}
        invariant rest <= ruleSet.keywords.Keys
        invariant forall w :: w in ruleSet.keywords.Keys && w !in rest ==> !Contains(h, w)
        decreases rest
      {
        var kw :| kw in rest;
        TableIsLast(rules, KEYWORD, kw);
        if Contains(h, kw) {
          ghost var i: nat :| LastFor(rules, KEYWORD, kw, i) && rules[i].outbound == Table(rules, KEYWORD)[kw];
          assert SomeKeyword(rules, h, i);
          return Some(ruleSet.keywords[kw]);
        }
        rest := rest - {kw};
      }
      forall i | 0 <= i < |rules| ensures !KeywordHit(rules[i], h) {
        TableIsLast(rules, KEYWORD, Normal(rules[i].value));
      }
      hit := None;
    }
  }
}
