/** A rule list as a configuration gives it, and what it says a host should use: pkg/control/rule/engine.go. */
module RuleList {
  import opened Arithmetic
  import Bytes
  import opened Options
  import opened Text
  import opened SuffixTrie

  datatype Rule = Rule(ruleType: string, value: string, outbound: string)

  const DOMAIN: string := "domain"
  const SUFFIX: string := "domain_suffix"
  const KEYWORD: string := "domain_keyword"
  const CIDR: string := "cidr"
  const MATCH: string := "match"
  const DIRECT: string := "DIRECT"

  predicate Is(r: Rule, tag: string) { Lower(r.ruleType) == tag }

  // Addresses

  /** An address of 32 or 128 bits as a number. */
  datatype IP = IP(bits: nat, value: nat)
  datatype Net = Net(bits: nat, value: nat, prefix: nat)

  /** Same family and the same leading `prefix` bits. */
  predicate InNet(net: Net, ip: IP) {
    net.bits == ip.bits && net.prefix <= net.bits
    && net.value / Bytes.Pow2(net.bits - net.prefix) == ip.value / Bytes.Pow2(net.bits - net.prefix)
  }

  /** The bits of weight `2^m` up to but not `2^n` are the same. */
  ghost predicate Agree(v: nat, w: nat, m: nat, n: nat) {
    forall i: nat :: m <= i < n ==> Bytes.Bit(v, i) == Bytes.Bit(w, i)
  }

  lemma AgreeShifted(v: nat, w: nat, m: nat, n: nat)
    requires m <= n
    ensures Agree(v / 2, w / 2, m, n) <==> Agree(v, w, m + 1, n + 1)
    ensures m == 0 ==> (Agree(v, w, 0, n + 1) <==> v % 2 == w % 2 && Agree(v / 2, w / 2, 0, n))
  {
    if Agree(v / 2, w / 2, m, n) {
      forall i: nat | m + 1 <= i < n + 1 ensures Bytes.Bit(v, i) == Bytes.Bit(w, i) {
        assert Bytes.Bit(v / 2, i - 1) == Bytes.Bit(w / 2, i - 1);
      }
    }
    if Agree(v, w, m + 1, n + 1) {
      forall i: nat | m <= i < n ensures Bytes.Bit(v / 2, i) == Bytes.Bit(w / 2, i) {
        assert Bytes.Bit(v, i + 1) == Bytes.Bit(w, i + 1);
      }
    }
    if Agree(v, w, 0, n + 1) {
      assert Bytes.Bit(v, 0) == Bytes.Bit(w, 0);
      assert Agree(v, w, 1, n + 1);
    }
  }

  lemma {:induction false} SameBits(v: nat, w: nat, n: nat)
    requires v < Bytes.Pow2(n) && w < Bytes.Pow2(n)
    ensures v == w <==> Agree(v, w, 0, n)
  {
    if n > 0 {
      SameBits(v / 2, w / 2, n - 1);
      AgreeShifted(v, w, 0, n - 1);
      hide Agree;
      assert v == 2 * (v / 2) + v % 2 && w == 2 * (w / 2) + w % 2;
    }
  }

  lemma {:induction false} SameHighBits(v: nat, w: nat, m: nat, n: nat)
    requires v < Bytes.Pow2(n) && w < Bytes.Pow2(n) && m <= n
    ensures v / Bytes.Pow2(m) == w / Bytes.Pow2(m) <==> Agree(v, w, m, n)
  {
    if m == 0 {
      SameBits(v, w, n);
    } else {
      DivTwice(v, Bytes.Pow2(m - 1));
      DivTwice(w, Bytes.Pow2(m - 1));
      SameHighBits(v / 2, w / 2, m - 1, n - 1);
      AgreeShifted(v, w, m - 1, n - 1);
    }
  }

  /**
    A network contains an address exactly when they are of one family and agree in their `prefix` leading
    bits: all of the family for prefix 0, the one address for the full prefix.
  */
  lemma InNetIff(net: Net, ip: IP)
    requires net.value < Bytes.Pow2(net.bits) && ip.value < Bytes.Pow2(ip.bits)
    ensures InNet(net, ip) <==>
              && net.bits == ip.bits && net.prefix <= net.bits
              && Agree(net.value, ip.value, net.bits - net.prefix, net.bits)
    ensures net.bits == ip.bits && net.prefix == 0 ==> InNet(net, ip)
    ensures net.prefix == net.bits ==> (InNet(net, ip) <==> net.bits == ip.bits && net.value == ip.value)
  {
    if net.bits == ip.bits && net.prefix <= net.bits {
      SameHighBits(net.value, ip.value, net.bits - net.prefix, net.bits);
    }
  }

  /** The standard library's address parsers, about which nothing is assumed. */
  datatype Parsers = Parsers(parseIP: string -> Option<IP>, parseCIDR: string -> Option<Net>)

  // The declarative reading

  /** Rule `i` is the last of its kind for the name `v`. */
  ghost predicate LastFor(rules: seq<Rule>, tag: string, v: string, i: nat) {
    && i < |rules| && Is(rules[i], tag) && Normal(rules[i].value) == v
    && forall j :: i < j < |rules| ==> !(Is(rules[j], tag) && Normal(rules[j].value) == v)
  }

  ghost predicate NoneFor(rules: seq<Rule>, tag: string, v: string) {
    forall i :: 0 <= i < |rules| ==> !(Is(rules[i], tag) && Normal(rules[i].value) == v)
  }

  predicate CidrHit(lib: Parsers, r: Rule, ip: IP) {
    Is(r, CIDR) && lib.parseCIDR(r.value).Some? && InNet(lib.parseCIDR(r.value).value, ip)
  }

  ghost predicate FirstCidr(lib: Parsers, rules: seq<Rule>, ip: IP, i: nat) {
    && i < |rules| && CidrHit(lib, rules[i], ip)
    && forall j :: 0 <= j < i ==> !CidrHit(lib, rules[j], ip)
  }

  ghost predicate NoCidr(lib: Parsers, rules: seq<Rule>, ip: IP) {
    forall i :: 0 <= i < |rules| ==> !CidrHit(lib, rules[i], ip)
  }

  ghost predicate SuffixHit(r: Rule, h: string) {
    Is(r, SUFFIX) && Normal(r.value) != "" && DottedSuffix(h, Normal(r.value))
  }

  ghost predicate NoSuffix(rules: seq<Rule>, h: string) {
    forall i :: 0 <= i < |rules| ==> !SuffixHit(rules[i], h)
  }

  /** The longest suffix rule that fits, the latest among equals. */
  ghost predicate BestSuffix(rules: seq<Rule>, h: string, i: nat) {
    && i < |rules| && SuffixHit(rules[i], h)
    && forall j :: 0 <= j < |rules| && SuffixHit(rules[j], h) ==>
         |Normal(rules[j].value)| < |Normal(rules[i].value)|
         || (|Normal(rules[j].value)| == |Normal(rules[i].value)| && j <= i)
  }

  ghost predicate KeywordHit(r: Rule, h: string) { Is(r, KEYWORD) && Contains(h, Normal(r.value)) }

  ghost predicate NoKeyword(rules: seq<Rule>, h: string) {
    forall i :: 0 <= i < |rules| ==> !KeywordHit(rules[i], h)
  }

  /** A keyword the host contains, in its latest rule. */
  ghost predicate SomeKeyword(rules: seq<Rule>, h: string, i: nat) {
    i < |rules| && KeywordHit(rules[i], h) && LastFor(rules, KEYWORD, Normal(rules[i].value), i)
  }

  ghost predicate IsDefault(rules: seq<Rule>, r: string) {
    if forall i :: 0 <= i < |rules| ==> !Is(rules[i], MATCH) then r == DIRECT
    else exists i: nat :: i < |rules| && Is(rules[i], MATCH) && rules[i].outbound == r
                          && forall j :: i < j < |rules| ==> !Is(rules[j], MATCH)
  }

  /** `r` is what the rule list, together with the answer `list` of the domain list, says `host` should use. */
  ghost predicate Decides(lib: Parsers, rules: seq<Rule>, list: Found, host: string, r: string) {
    var h := Normal(host);
    match lib.parseIP(h)
    case Some(ip) =>
      if NoCidr(lib, rules, ip) then IsDefault(rules, r)
      else exists i: nat :: FirstCidr(lib, rules, ip, i) && rules[i].outbound == r
    case None =>
      if !NoneFor(rules, DOMAIN, h) then exists i: nat :: LastFor(rules, DOMAIN, h, i) && rules[i].outbound == r
      else if list.Found? then r == list.target
      else if !NoSuffix(rules, h) then exists i: nat :: BestSuffix(rules, h, i) && rules[i].outbound == r
      else if !NoKeyword(rules, h) then exists i: nat :: SomeKeyword(rules, h, i) && rules[i].outbound == r
      else IsDefault(rules, r)
  }

  // What the compiled set holds

  function Table(rules: seq<Rule>, tag: string): map<string, string> {
    if rules == [] then map[]
    else
      var r := rules[|rules| - 1];
      var front := Table(rules[..|rules| - 1], tag);
      if Is(r, tag) then front[Normal(r.value) := r.outbound] else front
  }

  function Suffixes(rules: seq<Rule>): seq<Listed> {
    if rules == [] then []
    else Suffixes(rules[..|rules| - 1]) + SuffixIn(rules[|rules| - 1])
  }

  function SuffixIn(r: Rule): seq<Listed> {
    if Is(r, SUFFIX) then [Listed(Normal(r.value), r.outbound)] else []
  }

  datatype CompiledRule = CompiledRule(net: Net, outbound: string)

  function Cidrs(lib: Parsers, rules: seq<Rule>): seq<CompiledRule> {
    if rules == [] then []
    else Cidrs(lib, rules[..|rules| - 1]) + CidrIn(lib, rules[|rules| - 1])
  }

  function CidrIn(lib: Parsers, r: Rule): seq<CompiledRule> {
    if Is(r, CIDR) && lib.parseCIDR(r.value).Some? then [CompiledRule(lib.parseCIDR(r.value).value, r.outbound)] else []
  }

  function Default(rules: seq<Rule>): string {
    if rules == [] then DIRECT
    else if Is(rules[|rules| - 1], MATCH) then rules[|rules| - 1].outbound
    else Default(rules[..|rules| - 1])
  }

  lemma Snoc(lib: Parsers, rules: seq<Rule>, r: Rule)
    ensures forall tag :: Table(rules + [r], tag)
                          == if Is(r, tag) then Table(rules, tag)[Normal(r.value) := r.outbound] else Table(rules, tag)
    ensures Suffixes(rules + [r]) == Suffixes(rules) + SuffixIn(r)
    ensures Cidrs(lib, rules + [r]) == Cidrs(lib, rules) + CidrIn(lib, r)
    ensures Default(rules + [r]) == if Is(r, MATCH) then r.outbound else Default(rules)
  {
    assert (rules + [r])[..|rules|] == rules;
  }

  // The compiled set agrees with the reading

  lemma {:induction false} TableIsLast(rules: seq<Rule>, tag: string, v: string)
    ensures v !in Table(rules, tag) <==> NoneFor(rules, tag, v)
    ensures v in Table(rules, tag) ==>
              exists i: nat :: LastFor(rules, tag, v, i) && rules[i].outbound == Table(rules, tag)[v]
  {
    hide Is, Normal;
    if rules != [] {
      var n := |rules| - 1;
      var front := rules[..n];
      TableIsLast(front, tag, v);
      assert forall i :: 0 <= i < n ==> rules[i] == front[i];
      if Is(rules[n], tag) && Normal(rules[n].value) == v {
        assert LastFor(rules, tag, v, n);
      } else if v in Table(front, tag) {
        var i: nat :| LastFor(front, tag, v, i) && front[i].outbound == Table(front, tag)[v];
        assert LastFor(rules, tag, v, i);
      }
    }
  }

  lemma {:induction false} DefaultIsLast(rules: seq<Rule>)
    ensures IsDefault(rules, Default(rules))
  {
    hide Is;
    if rules != [] {
      var n := |rules| - 1;
      var front := rules[..n];
      DefaultIsLast(front);
      assert forall i :: 0 <= i < n ==> rules[i] == front[i];
      if !Is(rules[n], MATCH) && exists i :: 0 <= i < n && Is(front[i], MATCH) {
        var i: nat :| i < n && Is(front[i], MATCH) && front[i].outbound == Default(front)
                      && forall j :: i < j < n ==> !Is(front[j], MATCH);
        assert Is(rules[i], MATCH);
      }
    }
  }

  /** The compiled address rules hit exactly where the list's do. */
  lemma {:induction false} CidrsHitAlike(lib: Parsers, rules: seq<Rule>, ip: IP)
    ensures NoCidr(lib, rules, ip) <==> forall c <- Cidrs(lib, rules) :: !InNet(c.net, ip)
  {
    hide Is, InNet;
    if rules != [] {
      var n := |rules| - 1;
      CidrsHitAlike(lib, rules[..n], ip);
      assert forall i :: 0 <= i < n ==> rules[i] == rules[..n][i];
      assert NoCidr(lib, rules, ip) <==> NoCidr(lib, rules[..n], ip) && !CidrHit(lib, rules[n], ip);
      var before, own := Cidrs(lib, rules[..n]), CidrIn(lib, rules[n]);
      assert CidrHit(lib, rules[n], ip) <==> own != [] && InNet(own[0].net, ip);
      assert forall c :: c in before + own <==> c in before || c in own;
      assert own != [] ==> own == [own[0]] && own[0] in own;
    }
  }

  /** The first compiled address rule that hits is the first of the list. */
  lemma {:induction false} FirstHitIsFirstRule(lib: Parsers, rules: seq<Rule>, ip: IP, k: nat)
    requires k < |Cidrs(lib, rules)| && InNet(Cidrs(lib, rules)[k].net, ip)
    requires forall m :: 0 <= m < k ==> !InNet(Cidrs(lib, rules)[m].net, ip)
    ensures !NoCidr(lib, rules, ip)
    ensures exists i: nat :: FirstCidr(lib, rules, ip, i) && rules[i].outbound == Cidrs(lib, rules)[k].outbound
  {
    hide Is, InNet;
    var n := |rules| - 1;
    var front, cs := rules[..n], Cidrs(lib, rules);
    var before := Cidrs(lib, front);
    assert forall i :: 0 <= i < n ==> rules[i] == front[i];
    assert forall m :: 0 <= m < |before| ==> cs[m] == before[m];
    if k < |before| {
      FirstHitIsFirstRule(lib, front, ip, k);
      var i: nat :| FirstCidr(lib, front, ip, i) && front[i].outbound == before[k].outbound;
      assert FirstCidr(lib, rules, ip, i);
    } else {
      CidrsHitAlike(lib, front, ip);
      assert FirstCidr(lib, rules, ip, n);
    }
  }

  /** Where the suffix rules before rule `i` end in the trie's insertions. */
  lemma {:induction false} SuffixPosition(rules: seq<Rule>, i: nat)
    requires i < |rules| && Is(rules[i], SUFFIX)
    ensures var k := |Suffixes(rules[..i])|;
            k < |Suffixes(rules)| && Suffixes(rules)[k] == Listed(Normal(rules[i].value), rules[i].outbound)
  {
    hide Is, Normal;
    var n := |rules| - 1;
    if i < n {
      assert rules[..n][..i] == rules[..i];
      SuffixPosition(rules[..n], i);
    } else {
      assert rules[..i] == rules[..n];
    }
  }

  lemma {:induction false} SuffixPositionMonotone(rules: seq<Rule>, i: nat, j: nat)
    requires i < j <= |rules| && Is(rules[i], SUFFIX)
    ensures |Suffixes(rules[..i])| < |Suffixes(rules[..j])|
  {
    hide Is, Normal;
    var m := j - 1;
    assert rules[..j][..m] == rules[..m];
    if i < m {
      SuffixPositionMonotone(rules, i, m);
    }
  }

  lemma {:induction false} SuffixRule(rules: seq<Rule>, k: nat) returns (i: nat)
    requires k < |Suffixes(rules)|
    ensures i < |rules| && Is(rules[i], SUFFIX) && k == |Suffixes(rules[..i])|
  {
    hide Is, Normal;
    var n := |rules| - 1;
    if k < |Suffixes(rules[..n])| {
      i := SuffixRule(rules[..n], k);
      assert rules[..n][..i] == rules[..i];
    } else {
      i := n;
    }
  }

  /** A lookup among the inserted suffixes is the best suffix rule of the list. */
  lemma SuffixLookup(rules: seq<Rule>, h: string)
    ensures match LongestPrefix(EntriesOf(Suffixes(rules)), Key(h))
            case NotFound => NoSuffix(rules, h)
            case Found(target) =>
              !NoSuffix(rules, h) && exists i: nat :: BestSuffix(rules, h, i) && rules[i].outbound == target
  {
    hide Is, Normal, DottedSuffix, Suffixes, EntriesOf, LongestPrefix, Key;
    var ins := Suffixes(rules);
    LookupIsLongestSuffix(ins, h);
    match LongestPrefix(EntriesOf(ins), Key(h))
    case NotFound =>
      forall i | 0 <= i < |rules| ensures !SuffixHit(rules[i], h) {
        if Is(rules[i], SUFFIX) {
          SuffixPosition(rules, i);
          NormalIdempotent(rules[i].value);
          assert !Applies(ins[|Suffixes(rules[..i])|], h);
        }
      }
    case Found(target) =>
      var k: nat :| Answers(ins, h, k) && ins[k].target == target;
      var i := SuffixRule(rules, k);
      SuffixPosition(rules, i);
      NormalIdempotent(rules[i].value);
      forall j | 0 <= j < |rules| && SuffixHit(rules[j], h)
        ensures |Normal(rules[j].value)| < |Normal(rules[i].value)|
             || (|Normal(rules[j].value)| == |Normal(rules[i].value)| && j <= i)
      {
        var m := |Suffixes(rules[..j])|;
        SuffixPosition(rules, j);
        NormalIdempotent(rules[j].value);
        assert Applies(ins[m], h);
        if |Normal(rules[j].value)| == |Normal(rules[i].value)| && i < j {
          LongerSuffixMoreLabels(h, Normal(rules[i].value), Normal(rules[j].value));
          SuffixPositionMonotone(rules, i, j);
        }
      }
      assert BestSuffix(rules, h, i);
  }
}
