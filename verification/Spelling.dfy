/** What the text functions of Text mean: letter case, white space around a text, and one text within another. */
module Spelling {
  import opened Text

  /** The same letter in either case, or the same character. */
  predicate SameLetter(a: char, b: char) {
    a == b
    || ('A' <= a <= 'Z' && b as int == a as int + 32)
    || ('A' <= b <= 'Z' && a as int == b as int + 32)
  }

  predicate SameUpToCase(s: string, t: string) {
    |s| == |t| && forall i :: 0 <= i < |s| ==> SameLetter(s[i], t[i])
  }

  predicate NoCapitals(s: string) {
    forall i :: 0 <= i < |s| ==> !('A' <= s[i] <= 'Z')
  }

  /** Lower-casing removes exactly the difference of case. */
  lemma LowerIff(s: string, t: string)
    ensures Lower(s) == Lower(t) <==> SameUpToCase(s, t)
    ensures NoCapitals(Lower(s)) && SameUpToCase(Lower(s), s)
    ensures NoCapitals(s) ==> Lower(s) == s
  {
    if Lower(s) == Lower(t) {
      forall i | 0 <= i < |s| ensures SameLetter(s[i], t[i]) {
        assert LowerChar(s[i]) == Lower(s)[i] == Lower(t)[i] == LowerChar(t[i]);
      }
    }
  }

  /** Blanks, tabs, line ends, vertical tabs and form feeds only. */
  predicate Blank(s: string) {
    forall i :: 0 <= i < |s| ==> s[i] == ' ' || '\t' <= s[i] <= '\r'
  }

  lemma {:induction false} TrimLeftOf(blank: string, s: string)
    requires Blank(blank)
    ensures TrimLeft(blank + s) == TrimLeft(s)
  {
    if blank == [] {
      assert blank + s == s;
    } else {
      assert (blank + s)[1..] == blank[1..] + s;
      TrimLeftOf(blank[1..], s);
    }
  }

  lemma {:induction false} TrimRightOf(s: string, blank: string)
    requires Blank(blank)
    ensures TrimRight(s + blank) == TrimRight(s)
  {
    if blank == [] {
      assert s + blank == s;
    } else {
      var n := |blank| - 1;
      assert (s + blank)[..|s| + n] == s + blank[..n];
      TrimRightOf(s, blank[..n]);
    }
  }

  /** Trimming takes away the white space around a text and nothing of the text. */
  lemma TrimOf(before: string, s: string, after: string)
    requires Blank(before) && Blank(after)
    requires s == [] || (!Blank(s[..1]) && !Blank(s[|s| - 1..]))
    ensures Trim(before + s + after) == s
  {
    assert before + s + after == before + (s + after);
    TrimLeftOf(before, s + after);
    if s == [] {
      assert s + after == after + [];
      TrimLeftOf(after, []);
    } else {
      assert !IsSpace(s[0]) by { assert s[..1][0] == s[0]; }
      assert !IsSpace(s[|s| - 1]) by { assert s[|s| - 1..][0] == s[|s| - 1]; }
      assert TrimLeft(s + after) == s + after;
      TrimRightOf(s, after);
    }
  }

  /** `part` is somewhere in `s`. */
  lemma ContainsIff(s: string, part: string)
    ensures Contains(s, part) <==> exists a, b :: s == a + part + b
  {
    if Contains(s, part) {
      var i: nat :| i <= |s| && OccursAt(s, part, i);
      assert s == s[..i] + part + s[i + |part|..];
    }
    if a, b :| s == a + part + b {
      assert s[|a|..|a| + |part|] == part;
      assert OccursAt(s, part, |a|);
    }
  }

  /** A text in any spelling and with white space around it is normalised to its small letters. */
  lemma NormalOf(before: string, s: string, after: string, t: string)
    requires Blank(before) && Blank(after)
    requires s == [] || (!Blank(s[..1]) && !Blank(s[|s| - 1..]))
    requires SameUpToCase(s, t)
    ensures Normal(before + s + after) == Lower(t)
    ensures NoCapitals(t) ==> Normal(before + s + after) == t
  {
    hide Lower, Trim, SameUpToCase, NoCapitals, Blank;
    TrimOf(before, s, after);
    LowerIff(s, t);
    LowerIff(t, t);
  }

  /** A dotted suffix: the name itself, or what follows one of its dots. */
  lemma DottedSuffixIff(name: string, s: string)
    ensures DottedSuffix(name, s) <==> name == s || exists front :: name == front + "." + s
  {
    if DottedSuffix(name, s) && name != s {
      var n := |name| - |s| - 1;
      assert name == name[..n] + "." + s;
    }
    if front :| name == front + "." + s {
      assert name[|name| - |s| - 1..] == "." + s;
    }
  }
}
