/** The text functions the control plane uses, over ASCII, and the laws of dotted names. */
module Text {
  import opened Seqs

  // Case and white space

  predicate IsSpace(c: char) {
    c == ' ' || c == '\t' || c == '\n' || c == '\r' || c == '\U{000B}' || c == '\U{000C}'
  }

  function LowerChar(c: char): char {
    if 'A' <= c <= 'Z' then ((c as int) + 32) as char else c
  }

  function Lower(s: string): (l: string)
    ensures |l| == |s|
  {
    seq(|s|, i requires 0 <= i < |s| => LowerChar(s[i]))
  }

  function TrimLeft(s: string): string {
    if s != [] && IsSpace(s[0]) then TrimLeft(s[1..]) else s
  }

  function TrimRight(s: string): string {
    if s != [] && IsSpace(s[|s| - 1]) then TrimRight(s[..|s| - 1]) else s
  }

  function Trim(s: string): string { TrimRight(TrimLeft(s)) }

  /** `strings.ToLower(strings.TrimSpace(s))` */
  function Normal(s: string): string { Lower(Trim(s)) }

  predicate Contains(s: string, part: string) {
    exists i: nat :: i <= |s| && OccursAt(s, part, i)
  }

  predicate OccursAt(s: string, part: string, i: nat) {
    i + |part| <= |s| && s[i..i + |part|] == part
  }

  /** No white space at either end. */
  predicate Trimmed(s: string) {
    s == [] || (!IsSpace(s[0]) && !IsSpace(s[|s| - 1]))
  }

  lemma {:induction false} TrimLeftResult(s: string)
    ensures TrimLeft(s) == [] || !IsSpace(TrimLeft(s)[0])
  {
    if s != [] && IsSpace(s[0]) {
      TrimLeftResult(s[1..]);
    }
  }

  lemma {:induction false} TrimRightResult(s: string)
    requires s == [] || !IsSpace(s[0])
    ensures Trimmed(TrimRight(s))
  {
    if s != [] && IsSpace(s[|s| - 1]) {
      assert s[..|s| - 1] != [] ==> s[..|s| - 1][0] == s[0];
      TrimRightResult(s[..|s| - 1]);
    }
  }

  lemma TrimIsTrimmed(s: string)
    ensures Trimmed(Trim(s))
  {
    TrimLeftResult(s);
    TrimRightResult(TrimLeft(s));
  }

  lemma TrimmedLower(s: string)
    ensures Trimmed(s) ==> Trimmed(Lower(s))
    ensures Lower(Lower(s)) == Lower(s)
  {
  }

  /** The engine normalises a host before the trie does: the second time changes nothing. */
  lemma NormalIdempotent(s: string)
    ensures Normal(Normal(s)) == Normal(s)
    ensures Lower(Normal(s)) == Normal(s)
  {
    TrimIsTrimmed(s);
    TrimmedLower(Trim(s));
    assert TrimLeft(Normal(s)) == Normal(s);
    assert TrimRight(Normal(s)) == Normal(s);
  }

  // Labels

  /** `strings.Split(s, ".")` */
  function Split(s: string): (labels: seq<string>)
    ensures labels != []
  {
    if s == [] then [""]
    else
      var rest := Split(s[1..]);
      if s[0] == '.' then [""] + rest else [[s[0]] + rest[0]] + rest[1..]
  }

  function Join(labels: seq<string>): string
    requires labels != []
  {
    if |labels| == 1 then labels[0] else labels[0] + "." + Join(labels[1..])
  }

  predicate DotFree(labels: seq<string>) {
    forall l <- labels :: '.' !in l
  }

  lemma {:induction false} SplitDotFree(s: string)
    ensures DotFree(Split(s))
  {
    if s != [] {
      SplitDotFree(s[1..]);
    }
  }

  lemma {:induction false} JoinSplit(s: string)
    ensures Join(Split(s)) == s
  {
    if s != [] {
      JoinSplit(s[1..]);
      var rest := Split(s[1..]);
      assert s == [s[0]] + s[1..];
      hide Split;
      SplitStep(s);
      if s[0] != '.' {
        var first := [s[0]] + rest[0];
        assert Split(s)[1..] == rest[1..];
        if |rest| > 1 {
          assert first + "." + Join(rest[1..]) == [s[0]] + Join(rest);
        }
      } else {
        assert Split(s)[1..] == rest;
        assert "" + "." + Join(rest) == "." + Join(rest);
      }
    }
  }

  lemma SplitStep(s: string)
    requires s != []
    ensures var rest := Split(s[1..]);
            Split(s) == if s[0] == '.' then [""] + rest else [[s[0]] + rest[0]] + rest[1..]
  {
  }

  lemma {:induction false} SplitOneLabel(l: string)
    requires '.' !in l
    ensures Split(l) == [l]
  {
    if l != [] {
      assert '.' !in l[1..] && l[0] != '.';
      SplitOneLabel(l[1..]);
      assert [l[0]] + l[1..] == l;
    }
  }

  /** Splitting at a dot that is there. */
  lemma {:induction false} SplitAtDot(a: string, b: string)
    ensures Split(a + "." + b) == Split(a) + Split(b)
  {
    var s := a + "." + b;
    if a == [] {
      assert s[1..] == b;
    } else {
      assert s[1..] == a[1..] + "." + b;
      SplitAtDot(a[1..], b);
    }
  }

  lemma {:induction false} SplitJoin(labels: seq<string>)
    requires labels != [] && DotFree(labels)
    ensures Split(Join(labels)) == labels
  {
    SplitOneLabel(labels[0]);
    if |labels| > 1 {
      SplitJoin(labels[1..]);
      SplitAtDot(labels[0], Join(labels[1..]));
    }
  }

  // Dotted suffixes

  /** `name` is `s`, or ends in a dot and `s`. */
  predicate DottedSuffix(name: string, s: string) {
    name == s || (|s| < |name| && name[|name| - |s| - 1..] == "." + s)
  }

  ghost predicate IsSuffix<T>(a: seq<T>, b: seq<T>) {
    |a| <= |b| && b[|b| - |a|..] == a
  }

  /** A dotted suffix of a name is a suffix of its labels, and the other way round. */
  lemma DottedSuffixIsLabelSuffix(name: string, s: string)
    ensures DottedSuffix(name, s) <==> IsSuffix(Split(s), Split(name))
  {
    hide Split, Join;
    if DottedSuffix(name, s) && name != s {
      var front := name[..|name| - |s| - 1];
      assert name == front + "." + s;
      SplitAtDot(front, s);
    }
    if IsSuffix(Split(s), Split(name)) {
      var all, last := Split(name), Split(s);
      var front := all[..|all| - |last|];
      assert all == front + last;
      JoinSplit(name);
      JoinSplit(s);
      if front != [] {
        SplitDotFree(name);
        SplitJoin(front);
        SplitAtDot(Join(front), s);
        JoinSplit(Join(front) + "." + s);
        assert name == Join(front) + "." + s;
      } else {
        assert all == last;
      }
    }
  }

  /** A longer name has at least as many labels among the dotted suffixes of one name. */
  lemma LongerSuffixMoreLabels(name: string, s: string, t: string)
    requires DottedSuffix(name, s) && DottedSuffix(name, t)
    ensures |s| < |t| <==> |Split(s)| < |Split(t)|
    ensures |s| == |t| <==> s == t
  {
    if |s| <= |t| {
      NestedSuffix(name, s, t);
    } else {
      NestedSuffix(name, t, s);
    }
  }

  lemma SuffixSlice(name: string, s: string)
    requires DottedSuffix(name, s)
    ensures |s| <= |name| && s == name[|name| - |s|..]
    ensures |s| < |name| ==> name[|name| - |s| - 1] == '.'
  {
    if name != s {
      assert name[|name| - |s|..] == name[|name| - |s| - 1..][1..];
    }
  }

  /** What follows a dot is a dotted suffix, with fewer labels. */
  lemma AfterDot(t: string, s: string)
    requires |s| < |t| && t[|t| - |s|..] == s && t[|t| - |s| - 1] == '.'
    ensures DottedSuffix(t, s) && |Split(s)| < |Split(t)|
  {
    hide Split;
    var front := t[..|t| - |s| - 1];
    assert t[|t| - |s| - 1..] == "." + s;
    assert t == front + "." + s;
    SplitAtDot(front, s);
  }

  lemma WholeIsSuffix(s: string)
    ensures DottedSuffix(s, s)
  {
  }

  lemma NestedSuffix(name: string, s: string, t: string)
    requires DottedSuffix(name, s) && DottedSuffix(name, t) && |s| <= |t|
    ensures DottedSuffix(t, s)
    ensures |s| == |t| ==> s == t
    ensures |s| < |t| ==> |Split(s)| < |Split(t)|
  {
    hide DottedSuffix, Split;
    SuffixSlice(name, s);
    SuffixSlice(name, t);
    if |s| == |t| {
      WholeIsSuffix(s);
    } else {
      DropDrop(name, |name| - |t|, |t| - |s|);
      AfterDot(t, s);
    }
  }

  // Keys: labels from the last to the first

  function Reverse<T>(s: seq<T>): (r: seq<T>)
    ensures |r| == |s|
    ensures forall i :: 0 <= i < |s| ==> r[i] == s[|s| - 1 - i]
  {
    if s == [] then [] else Reverse(s[1..]) + [s[0]]
  }

  function Key(name: string): (k: seq<string>)
    ensures k != []
  {
    Reverse(Split(name))
  }

  lemma ReverseTwice<T>(s: seq<T>)
    ensures Reverse(Reverse(s)) == s
  {
  }

  lemma KeyLabels(name: string)
    ensures |Key(name)| == |Split(name)|
    ensures forall i :: 0 <= i < |Key(name)| ==> Key(name)[i] == Split(name)[|Key(name)| - 1 - i]
  {
  }

  lemma KeyInjective(a: string, b: string)
    requires Key(a) == Key(b)
    ensures a == b
  {
    ReverseTwice(Split(a));
    ReverseTwice(Split(b));
    JoinSplit(a);
    JoinSplit(b);
  }

  lemma ReversePrefix<T>(a: seq<T>, b: seq<T>)
    ensures Reverse(a) <= Reverse(b) <==> IsSuffix(a, b)
  {
    hide Reverse;
    if IsSuffix(a, b) {
      forall i | 0 <= i < |a| ensures Reverse(a)[i] == Reverse(b)[i] {
        assert a[|a| - 1 - i] == b[|b| - |a|..][|a| - 1 - i];
      }
    }
    if Reverse(a) <= Reverse(b) {
      forall i | 0 <= i < |a| ensures a[i] == b[|b| - |a|..][i] {
        assert Reverse(a)[|a| - 1 - i] == Reverse(b)[|a| - 1 - i];
      }
    }
  }

  lemma PrefixIsDottedSuffix(name: string, s: string)
    ensures Key(s) <= Key(name) <==> DottedSuffix(name, s)
  {
    DottedSuffixIsLabelSuffix(name, s);
    ReversePrefix(Split(s), Split(name));
  }

  /** Every nonempty prefix of a key is the key of some name. */
  lemma PrefixIsKey(name: string, k: seq<string>) returns (s: string)
    requires k != [] && k <= Key(name)
    ensures Key(s) == k && DottedSuffix(name, s)
  {
    hide Reverse, Split, Join;
    SplitDotFree(name);
    var labels := Reverse(k);
    forall i | 0 <= i < |labels| ensures '.' !in labels[i] {
      assert labels[i] == Key(name)[|k| - 1 - i];
    }
    s := Join(labels);
    SplitJoin(labels);
    ReverseTwice(k);
    PrefixIsDottedSuffix(name, s);
  }
}
