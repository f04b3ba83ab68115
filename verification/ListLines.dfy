/** Domain lists read by example: what a line means, and which names a listed name answers for. */
module ListLines {
  import opened DomainList
  import opened Spelling
  import opened SuffixTrie
  import opened Text

  /** A trie with one name in it answers for that name and its subdomains, in any spelling, and for nothing else. */
  lemma OneNameListed(written: string, target: string, query: string)
    ensures var s, q := Normal(written), Normal(query);
            LongestPrefix(EntriesOf([Listed(written, target)]), Key(q)) ==
            if s != "" && (q == s || exists front :: q == front + "." + s) then Found(target) else NotFound
  {
    hide Normal, DottedSuffix, EntriesOf, LongestPrefix, Key;
    var inserts, q := [Listed(written, target)], Normal(query);
    LookupIsLongestSuffix(inserts, q);
    DottedSuffixIff(q, Normal(written));
    assert Applies(inserts[0], q) <==> Normal(written) != "" && DottedSuffix(q, Normal(written));
  }

  lemma TrimmedAlready(body: string)
    requires body != "" && !Blank(body[..1]) && !Blank(body[|body| - 1..])
    ensures Trim(body) == body
  {
    TrimOf("", body, "");
    assert "" + body + "" == body;
  }

  /**
    What a line of a list file covers, white space around it aside: an empty line and one that begins with
    `#` nothing; `keyword:` and a word every name that contains the word, in any case; any other line the name
    on it and its subdomains.
  */
  lemma LineMeaning(before: string, body: string, after: string, domain: string)
    requires Blank(before) && Blank(after)
    requires body == "" || (!Blank(body[..1]) && !Blank(body[|body| - 1..]))
    ensures var covers := LineCovers(before + body + after, domain);
            && (body == "" || body[0] == '#' ==> !covers)
            && (forall w :: body == "keyword:" + w ==> (covers <==> exists a, b :: Lower(domain) == a + Lower(w) + b))
            && (body != "" && body[0] != '#' && !("keyword:" <= body) ==>
                  (covers <==> Normal(domain) == Lower(body) || exists front :: Normal(domain) == front + "." + Lower(body)))
  {
    hide Trim, Lower, Contains, DottedSuffix, Blank;
    TrimOf(before, body, after);
    var line := before + body + after;
    if body == "" || body[0] == '#' {
      assert Classify(line) == Skip;
      forall w ensures body != "keyword:" + w {
        assert ("keyword:" + w)[0] == 'k';
      }
    } else if "keyword:" <= body {
      var word := body[8..];
      assert body == "keyword:" + word;
      assert Classify(line) == Keyword(Lower(word));
      ContainsIff(Lower(domain), Lower(word));
      forall w | body == "keyword:" + w ensures w == word {
        assert ("keyword:" + w)[8..] == w;
      }
    } else {
      TrimmedAlready(body);
      assert Classify(line) == Name(body) && Normal(body) == Lower(body);
      LowerIff(body, body);
      assert Lower(body) != "" by { LowerKeepsLength(body); }
      DottedSuffixIff(Normal(domain), Lower(body));
    }
  }

  lemma LowerKeepsLength(s: string)
    ensures |Lower(s)| == |s|
  {
  }
}
