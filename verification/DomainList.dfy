/** Domain list files and their lookup: pkg/control/domain/manager.go. */
module DomainList {
  import opened Text
  import opened SuffixTrie

  /** What one line of a list file says. */
  datatype Line = Skip | Keyword(word: string) | Name(name: string)

  const KEYWORD: string := "keyword:"

  function Classify(text: string): Line {
    var line := Trim(text);
    if line == "" || line[0] == '#' then Skip
    else if KEYWORD <= line then Keyword(Lower(line[|KEYWORD|..]))
    else Name(line)
  }

  function NamesOf(lines: seq<string>, target: string): seq<Listed> {
    if lines == [] then []
    else
      var n := |lines| - 1;
      NamesOf(lines[..n], target) + NameIn(lines[n], target)
  }

  function NameIn(line: string, target: string): seq<Listed> {
    if Classify(line).Name? then [Listed(Classify(line).name, target)] else []
  }

  function WordIn(line: string): set<string> {
    if Classify(line).Keyword? then {Classify(line).word} else {}
  }

  function WordsOf(lines: seq<string>): set<string> {
    set i | 0 <= i < |lines| && Classify(lines[i]).Keyword? :: Classify(lines[i]).word
  }

  /** A line covers a name if it lists the name or a dotted suffix, or a keyword the name contains. */
  ghost predicate LineCovers(line: string, domain: string) {
    match Classify(line)
    case Skip => false
    case Keyword(word) => Contains(Lower(domain), word)
    case Name(name) => Applies(Listed(name, ""), Normal(domain))
  }

  ghost predicate Covers(lines: seq<string>, domain: string) {
    exists i :: 0 <= i < |lines| && LineCovers(lines[i], domain)
  }

  lemma {:induction false} NamesOfLines(lines: seq<string>, target: string)
    ensures forall i :: 0 <= i < |lines| && Classify(lines[i]).Name? ==>
              Listed(Classify(lines[i]).name, target) in NamesOf(lines, target)
    ensures forall l <- NamesOf(lines, target) ::
              exists i :: 0 <= i < |lines| && Classify(lines[i]) == Name(l.name) && l.target == target
  {
    if lines != [] {
      var n := |lines| - 1;
      NamesOfLines(lines[..n], target);
      forall l | l in NamesOf(lines, target)
        ensures exists i :: 0 <= i < |lines| && Classify(lines[i]) == Name(l.name) && l.target == target
      {
        if l in NamesOf(lines[..n], target) {
          var i :| 0 <= i < n && Classify(lines[..n][i]) == Name(l.name) && l.target == target;
          assert lines[i] == lines[..n][i];
        } else {
          assert Classify(lines[n]) == Name(l.name);
        }
      }
      assert forall i :: 0 <= i < n ==> lines[i] == lines[..n][i];
    }
  }

  /** A trie of the listed names and the set of keywords answer exactly for the names covered. */
  lemma TrieOrKeywordIsCovers(lines: seq<string>, target: string, domain: string)
    ensures var hit := LongestPrefix(EntriesOf(NamesOf(lines, target)), Key(Normal(domain)));
            && (hit.Found? ==> hit.target == target)
            && (Covers(lines, domain) <==> hit.Found? || exists w :: w in WordsOf(lines) && Contains(Lower(domain), w))
  {
    hide EntriesOf, LongestPrefix, Key, Classify, NamesOf, Contains, DottedSuffix, Normal, Lower;
    var names, d := NamesOf(lines, target), Normal(domain);
    var hit := LongestPrefix(EntriesOf(names), Key(d));
    LookupIsLongestSuffix(names, d);
    NamesOfLines(lines, target);
    if hit.Found? {
      var k: nat :| Answers(names, d, k) && names[k].target == hit.target;
      var i :| 0 <= i < |lines| && Classify(lines[i]) == Name(names[k].name) && names[k].target == target;
      assert LineCovers(lines[i], domain);
    }
    if exists w :: w in WordsOf(lines) && Contains(Lower(domain), w) {
      var w :| w in WordsOf(lines) && Contains(Lower(domain), w);
      var i :| 0 <= i < |lines| && Classify(lines[i]).Keyword? && Classify(lines[i]).word == w;
      assert LineCovers(lines[i], domain);
    }
    if Covers(lines, domain) {
      var i :| 0 <= i < |lines| && LineCovers(lines[i], domain);
      if Classify(lines[i]).Name? {
        var l := Listed(Classify(lines[i]).name, target);
        assert l in names;
        var k :| 0 <= k < |names| && names[k] == l;
        assert Applies(names[k], d);
      } else {
        assert Classify(lines[i]).word in WordsOf(lines);
      }
    }
  }

  // The objects

  class ListMatcher {
    const trie: DomainTrie
    const keywords: map<string, string>
    ghost const lines: seq<string>
    ghost const target: string

    ghost predicate Valid()
      reads this, trie, trie.repr
    {
      && trie.Valid()
      && trie.inserts == NamesOf(lines, target)
      && keywords.Keys == WordsOf(lines)
      && forall w :: w in keywords ==> keywords[w] == target
    }

    constructor (trie: DomainTrie, keywords: map<string, string>, ghost lines: seq<string>, ghost target: string)
      ensures this.trie == trie && this.keywords == keywords && this.lines == lines && this.target == target
    {
      this.trie, this.keywords, this.lines, this.target := trie, keywords, lines, target;
    }
  }

  /** What the file system answers: no file, or lines and whether reading them ended without error. */
  datatype File = CannotOpen | Opened(lines: seq<string>, readOk: bool)

  class Manager {
    var activeMatcher: ListMatcher

    ghost predicate Valid()
      reads this, activeMatcher, activeMatcher.trie, activeMatcher.trie.repr
    {
      activeMatcher.Valid()
    }

    constructor ()
      ensures Valid() && fresh(activeMatcher) && fresh(activeMatcher.trie) && fresh(activeMatcher.trie.repr)
      ensures activeMatcher.lines == []
    {
      var trie := new DomainTrie();
      activeMatcher := new ListMatcher(trie, map[], [], "");
    }

    /** A load replaces the whole list or, on any error, nothing. */
    method LoadListFile(file: File, targetOutbound: string) returns (ok: bool)
      requires Valid()
      modifies this
      ensures Valid()
      ensures ok <==> file.Opened? && file.readOk
      ensures ok ==> activeMatcher.lines == file.lines && activeMatcher.target == targetOutbound
      ensures ok ==> fresh(activeMatcher) && fresh(activeMatcher.trie) && fresh(activeMatcher.trie.repr)
      ensures !ok ==> activeMatcher == old(activeMatcher)
    {
      hide ListMatcher.Valid;
      if file.CannotOpen? {
        return false;
      }
      var newMatcher := ReadList(file.lines, targetOutbound);
      if !file.readOk {
        return false;
      }
      activeMatcher := newMatcher;
      ok := true;
    }

    /** The scanner loop: a fresh trie and keyword map from the lines of a file. */
    static method ReadList(lines: seq<string>, target: string) returns (matcher: ListMatcher)
      ensures matcher.Valid() && matcher.lines == lines && matcher.target == target
      ensures fresh(matcher) && fresh(matcher.trie) && fresh(matcher.trie.repr)
    {
      hide Classify, NamesOf, WordsOf, EntriesOf, Shape, Trim, Lower, DomainTrie.Valid;
      NoLines(target);
      assert lines[..0] == [];
      var newTrie := new DomainTrie();
      var newKeywords: map<string, string> := map[];
      var n := 0;
      while n < |lines|
        invariant 0 <= n <= |lines|
        invariant newTrie.Valid() && fresh(newTrie) && fresh(newTrie.repr)
        invariant newTrie.inserts == NamesOf(lines[..n], target)
        invariant newKeywords.Keys == WordsOf(lines[..n])
        invariant forall w :: w in newKeywords ==> newKeywords[w] == target
        decreases |lines| - n
      {
        LinesSnoc(lines, n, target);
        match Classify(lines[n]) {
          case Skip =>
          case Keyword(word) => newKeywords := newKeywords[word := target];
          case Name(name) => newTrie.Insert(name, target);
        }
        n := n + 1;
      }
      assert lines[..n] == lines;
      matcher := new ListMatcher(newTrie, newKeywords, lines, target);
    }

    /** The list's target exactly for the names its lines cover. */
    method Match(domain: string) returns (target: string, found: bool)
      requires Valid()
      ensures found <==> Covers(activeMatcher.lines, domain)
      ensures target == if found then activeMatcher.target else ""
    {
      hide Covers, EntriesOf, LongestPrefix, NamesOf, WordsOf, Contains, Lower, Normal, Key;
      var matcher := activeMatcher;
      TrieOrKeywordIsCovers(matcher.lines, matcher.target, domain);
      target, found := matcher.trie.Match(domain);
      if found {
        return;
      }
      var domainLower := Lower(domain);
      var rest := matcher.keywords.Keys;
      while rest != {}
        invariant rest <= matcher.keywords.Keys
        invariant forall w :: w in matcher.keywords.Keys && w !in rest ==> !Contains(domainLower, w)
        decreases rest
      {
        var kw :| kw in rest;
        if Contains(domainLower, kw) {
          return matcher.keywords[kw], true;
        }
        rest := rest - {kw};
      }
    }
  }

  lemma NoLines(target: string)
    ensures NamesOf([], target) == [] && WordsOf([]) == {}
  {
  }

  lemma LinesSnoc(lines: seq<string>, n: nat, target: string)
    requires n < |lines|
    ensures NamesOf(lines[..n + 1], target) == NamesOf(lines[..n], target) + NameIn(lines[n], target)
    ensures WordsOf(lines[..n + 1]) == WordsOf(lines[..n]) + WordIn(lines[n])
  {
    hide Classify;
    var front := lines[..n + 1];
    assert front[..n] == lines[..n];
    assert forall i :: 0 <= i < n ==> lines[..n][i] == front[i];
    forall w | w in WordsOf(lines[..n]) ensures w in WordsOf(front) {
      var i :| 0 <= i < n && Classify(lines[..n][i]).Keyword? && Classify(lines[..n][i]).word == w;
      assert Classify(front[i]).word == w;
    }
  }
}
