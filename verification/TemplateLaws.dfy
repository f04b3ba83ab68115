/** Laws of the template language: it composes at closed prefixes, and patterns and token lists determine each other. */
module TemplateLaws {
  import opened Options
  import opened Text
  import opened Seqs
  import opened Template

  // Merging adjacent literals

  function Merge(ts: seq<Token>): seq<Token> {
    if ts == [] then [] else Before(ts[0], Merge(ts[1..]))
  }

  /** `t` in front of a merged list. */
  function Before(t: Token, merged: seq<Token>): seq<Token> {
    if t.Literal? && merged != [] && merged[0].Literal? then [Literal(t.value + merged[0].value)] + merged[1..]
    else [t] + merged
  }

  lemma {:induction false} MergeCongruent(x: seq<Token>, y: seq<Token>, z: seq<Token>)
    requires Merge(y) == Merge(z)
    ensures Merge(x + y) == Merge(x + z)
  {
    hide Before;
    if x == [] {
      assert x + y == y && x + z == z;
    } else {
      assert (x + y)[1..] == x[1..] + y && (x + z)[1..] == x[1..] + z;
      MergeCongruent(x[1..], y, z);
    }
  }

  lemma MergeFlush(p: string, q: string, y: seq<Token>)
    ensures Merge(Flush(p) + (Flush(q) + y)) == Merge(Flush(p + q) + y)
  {
    if p == "" {
      assert p + q == q;
      assert Flush(p) + (Flush(q) + y) == Flush(q) + y;
    } else if q == "" {
      assert p + q == p;
      assert Flush(q) + y == y;
    } else {
      var a, b := Literal(p), Literal(q);
      assert (Flush(q) + y)[1..] == y && (Flush(p) + (Flush(q) + y))[1..] == Flush(q) + y;
      assert (Flush(p + q) + y)[1..] == y;
      var m := Merge(y);
      if m != [] && m[0].Literal? {
        assert p + (q + m[0].value) == p + q + m[0].value;
        assert ([Literal(q + m[0].value)] + m[1..])[1..] == m[1..];
      } else {
        assert ([b] + m)[1..] == m;
      }
    }
  }

  /** Pending text may as well be a literal of its own. */
  lemma {:induction false} PendingText(s: string, p: string, q: string)
    ensures Merge(Scan(s, p + q)) == Merge(Flush(p) + Scan(s, q))
    decreases |s|
  {
    hide Scan, TagToken, Lower, CloseAt, Flush, Merge;
    ScanStep(s, p + q);
    ScanStep(s, q);
    ScanStep(s, p);
    if s == "" {
      MergeFlush(p, q, []);
      assert Flush(q) + [] == Flush(q) && Flush(p + q) + [] == Flush(p + q);
    } else if s[0] == '[' && CloseAt(s) != -1 {
      var end := CloseAt(s);
      var tag := TagToken(Lower(s[1..end]));
      MergeFlush(p, q, if tag.Some? then [tag.value] + Scan(s[end + 1..], "") else Scan(s[end + 1..], s[..end + 1]));
    } else {
      PendingText(s[1..], p, q + [s[0]]);
      assert p + (q + [s[0]]) == p + q + [s[0]];
    }
  }

  // Closed patterns

  /** Every bracket the scanner meets as an opening one has a closing one after it. */
  predicate Closed(s: string)
    decreases |s|
  {
    if s == "" then true
    else if s[0] == '[' then CloseAt(s) != -1 && Closed(s[CloseAt(s) + 1..])
    else Closed(s[1..])
  }

  lemma CloseAtAppend(a: string, b: string)
    requires CloseAt(a) != -1
    ensures CloseAt(a + b) == CloseAt(a)
  {
    hide CloseAt;
    CloseAtFirst(a + b, CloseAt(a));
  }

  lemma CloseAtFirst(s: string, i: nat)
    requires i < |s| && s[i] == ']' && ']' !in s[..i]
    ensures CloseAt(s) == i
  {
    hide CloseAt;
    var j := CloseAt(s);
    assert s[i] in s;
    forall k | 0 <= k < i ensures s[k] != ']' {
      assert s[k] == s[..i][k];
    }
    forall k | 0 <= k < j ensures s[k] != ']' {
      assert s[k] == s[..j][k];
    }
  }

  /** Parsing after a closed pattern is parsing it and then the rest, up to merging adjacent literals. */
  lemma {:induction false} ParseComposes(a: string, b: string, buf: string)
    requires Closed(a)
    ensures Merge(Scan(a + b, buf)) == Merge(Scan(a, buf) + Scan(b, ""))
    decreases |a|
  {
    hide Scan, TagToken, Lower, CloseAt, Flush, Merge;
    ScanStep(a, buf);
    ScanStep(a + b, buf);
    if a == "" {
      assert a + b == b && buf + "" == buf;
      PendingText(b, buf, "");
    } else if a[0] == '[' {
      CloseAtAppend(a, b);
      var end := CloseAt(a);
      var rest := a[end + 1..];
      assert (a + b)[1..end] == a[1..end] && (a + b)[end + 1..] == rest + b && (a + b)[..end + 1] == a[..end + 1];
      var tag := TagToken(Lower(a[1..end]));
      var head := Flush(buf) + if tag.Some? then [tag.value] else [];
      var pending := if tag.Some? then "" else a[..end + 1];
      ParseComposes(rest, b, pending);
      MergeCongruent(head, Scan(rest + b, pending), Scan(rest, pending) + Scan(b, ""));
      Headed(Flush(buf), tag, Scan(rest + b, pending));
      Headed(Flush(buf), tag, Scan(rest, pending));
      Assoc(head, Scan(rest, pending), Scan(b, ""));
    } else {
      assert (a + b)[1..] == a[1..] + b;
      ParseComposes(a[1..], b, buf + [a[0]]);
    }
  }

  lemma Headed(flush: seq<Token>, tag: Option<Token>, rest: seq<Token>)
    ensures (flush + if tag.Some? then [tag.value] else []) + rest == flush + if tag.Some? then [tag.value] + rest else rest
  {
  }

  // Building composes

  lemma {:induction false} SegmentsOfMerge(ts: seq<Token>, current: string, target: TargetInfo)
    ensures Segments(Merge(ts), current, target) == Segments(ts, current, target)
    decreases |ts|
  {
    hide Expand;
    if ts != [] {
      var t, m := ts[0], Merge(ts[1..]);
      var next := if t.Split? then "" else current + Expand(t, target);
      SegmentsOfMerge(ts[1..], next, target);
      assert Segments(m, next, target) == Segments(ts[1..], next, target);
      SegmentsOfBefore(t, m, current, target);
    }
  }

  lemma SegmentsOfBefore(t: Token, merged: seq<Token>, current: string, target: TargetInfo)
    ensures Segments(Before(t, merged), current, target) == Segments([t] + merged, current, target)
  {
    if t.Literal? && merged != [] && merged[0].Literal? {
      var joined := [Literal(t.value + merged[0].value)] + merged[1..];
      assert joined[1..] == merged[1..] && ([t] + merged)[1..] == merged;
      assert current + (t.value + merged[0].value) == current + t.value + merged[0].value;
    }
  }

  lemma {:induction false} SegmentsAtSplit(x: seq<Token>, y: seq<Token>, current: string, target: TargetInfo)
    ensures Segments(x + ([Split] + y), current, target) == Segments(x, current, target) + Segments(y, "", target)
    decreases |x|
  {
    hide Expand;
    var all := x + ([Split] + y);
    if x == [] {
      assert all == [Split] + y && all[1..] == y;
    } else {
      assert all[1..] == x[1..] + ([Split] + y);
      SegmentsAtSplit(x[1..], y, if x[0].Split? then "" else current + Expand(x[0], target), target);
    }
  }

  const SPLIT: string := "[split]"

  lemma ParseSplitFirst(b: string)
    ensures Parse(SPLIT + b) == [Split] + Parse(b)
  {
    hide Scan, CloseAt;
    var s := SPLIT + b;
    assert s[..6] == "[split";
    CloseAtFirst(s, 6);
    ScanStep(s, "");
    assert s[1..6] == "split" && Lower("split") == "split";
    assert s[7..] == b;
    assert [] + ([Split] + Scan(b, "")) == [Split] + Scan(b, "");
  }

  lemma ClosedComposes(a: string, b: string, target: TargetInfo)
    requires Closed(a)
    ensures Build(a + SPLIT + b, target) == Build(a, target) + Build(b, target)
  {
    hide Scan, Merge, Segments, Closed;
    assert a + SPLIT + b == a + (SPLIT + b);
    ParseComposes(a, SPLIT + b, "");
    ParseSplitFirst(b);
    SegmentsOfMerge(Parse(a + SPLIT + b), "", target);
    SegmentsOfMerge(Parse(a) + ([Split] + Parse(b)), "", target);
    SegmentsAtSplit(Parse(a), Parse(b), "", target);
  }

  // An unclosed pattern swallows the split

  lemma {:induction false} ExpandAllConcat(x: seq<Token>, y: seq<Token>, target: TargetInfo)
    ensures ExpandAll(x + y, target) == ExpandAll(x, target) + ExpandAll(y, target)
  {
    hide Expand;
    if x == [] {
      assert x + y == y;
    } else {
      assert (x + y)[1..] == x[1..] + y;
      ExpandAllConcat(x[1..], y, target);
    }
  }

  lemma ExpandFlush(buf: string, target: TargetInfo)
    ensures ExpandAll(Flush(buf), target) == buf
  {
    assert buf != "" ==> Flush(buf)[1..] == [];
  }

  lemma {:induction false} ExpandPending(s: string, buf: string, target: TargetInfo)
    ensures ExpandAll(Scan(s, buf), target) == buf + ExpandAll(Scan(s, ""), target)
    decreases |s|
  {
    hide Scan, TagToken, Lower, CloseAt, Flush, ExpandAll;
    ScanStep(s, buf);
    ScanStep(s, "");
    ExpandFlush(buf, target);
    ExpandFlush("", target);
    if s == "" {
    } else if s[0] == '[' && CloseAt(s) != -1 {
      var end := CloseAt(s);
      var tag := TagToken(Lower(s[1..end]));
      var rest := if tag.Some? then [tag.value] + Scan(s[end + 1..], "") else Scan(s[end + 1..], s[..end + 1]);
      ExpandAllConcat(Flush(buf), rest, target);
      ExpandAllConcat(Flush(""), rest, target);
    } else {
      ExpandPending(s[1..], buf + [s[0]], target);
      ExpandPending(s[1..], "" + [s[0]], target);
      assert buf + [s[0]] + ExpandAll(Scan(s[1..], ""), target)
          == buf + (("" + [s[0]]) + ExpandAll(Scan(s[1..], ""), target));
    }
  }

  lemma {:induction false} NoCloseIsText(a: string, target: TargetInfo)
    requires ']' !in a
    ensures ExpandAll(Scan(a, ""), target) == a
    decreases |a|
  {
    hide Scan, Lower, TagToken;
    ScanStep(a, "");
    if a != "" {
      assert ']' !in a[1..];
      NoCloseIsText(a[1..], target);
      ExpandPending(a[1..], [a[0]], target);
      assert "" + [a[0]] == [a[0]] && [a[0]] + a[1..] == a;
    }
  }

  lemma NoTagHasBracket(tag: string)
    requires '[' in tag
    ensures TagToken(Lower(tag)) == None
  {
    var i :| 0 <= i < |tag| && tag[i] == '[';
    assert Lower(tag)[i] == '[';
  }

  /** The split is literal text in the expansion of what `a` begins. */
  predicate Swallows(a: string, b: string, target: TargetInfo) {
    ExpandAll(Parse(a + SPLIT + b), target) == ExpandAll(Parse(a), target) + SPLIT + ExpandAll(Parse(b), target)
  }

  /** Past an unclosed bracket the split is literal text. */
  lemma {:induction false} UnclosedSwallows(a: string, b: string, target: TargetInfo)
    requires !Closed(a)
    ensures Swallows(a, b, target)
    decreases |a|
  {
    hide Swallows;
    if a[0] == '[' && CloseAt(a) == -1 {
      SwallowedHere(a, b, target);
    } else if a[0] == '[' {
      UnclosedSwallows(a[CloseAt(a) + 1..], b, target);
      SwallowsAfterTag(a, b, target);
    } else {
      UnclosedSwallows(a[1..], b, target);
      SwallowsAfterText(a, b, target);
    }
  }

  predicate OpensTag(s: string) { s != "" && s[0] == '[' && CloseAt(s) != -1 }

  /** What the bracketed piece at the front of `s` contributes. */
  function HeadText(s: string, target: TargetInfo): string
    requires OpensTag(s)
  {
    var tag := TagToken(Lower(s[1..CloseAt(s)]));
    if tag.Some? then Expand(tag.value, target) else s[..CloseAt(s) + 1]
  }

  lemma ExpandHead(s: string, target: TargetInfo)
    requires OpensTag(s)
    ensures ExpandAll(Parse(s), target) == HeadText(s, target) + ExpandAll(Parse(s[CloseAt(s) + 1..]), target)
  {
    ScanStep(s, "");
    var end := CloseAt(s);
    var tag, rest := TagToken(Lower(s[1..end])), s[end + 1..];
    hide Scan, TagToken, Lower, CloseAt, Expand, Flush;
    if tag.Some? {
      var tokens := [tag.value] + Scan(rest, "");
      assert Parse(s) == tokens by { assert [] + tokens == tokens; }
      assert tokens[1..] == Scan(rest, "");
    } else {
      var tokens := Scan(rest, s[..end + 1]);
      assert Parse(s) == tokens by { assert [] + tokens == tokens; }
      ExpandPending(rest, s[..end + 1], target);
    }
  }

  lemma SwallowsAfterTag(a: string, b: string, target: TargetInfo)
    requires OpensTag(a) && Swallows(a[CloseAt(a) + 1..], b, target)
    ensures Swallows(a, b, target)
  {
    hide Scan, TagToken, Lower, CloseAt, ExpandAll, Expand;
    var s := a + SPLIT + b;
    assert s == a + (SPLIT + b);
    CloseAtAppend(a, SPLIT + b);
    var end := CloseAt(a);
    assert s[1..end] == a[1..end] && s[end + 1..] == a[end + 1..] + SPLIT + b && s[..end + 1] == a[..end + 1];
    ExpandHead(a, target);
    ExpandHead(s, target);
  }

  lemma SwallowsAfterText(a: string, b: string, target: TargetInfo)
    requires a != "" && a[0] != '[' && Swallows(a[1..], b, target)
    ensures Swallows(a, b, target)
  {
    hide Scan, TagToken, Lower, CloseAt, Flush, ExpandAll;
    var s := a + SPLIT + b;
    ScanStep(a, "");
    ScanStep(s, "");
    assert s[1..] == a[1..] + SPLIT + b && s[0] == a[0];
    ExpandPending(a[1..], "" + [a[0]], target);
    ExpandPending(s[1..], "" + [a[0]], target);
  }

  lemma SwallowedHere(a: string, b: string, target: TargetInfo)
    requires a != "" && a[0] == '[' && ']' !in a
    ensures Swallows(a, b, target)
  {
    hide Scan, TagToken, Lower, CloseAt, Flush, ExpandAll;
    var s := a + SPLIT + b;
    var end := |a| + 6;
    assert s[..end] == a + "[split";
    CloseAtFirst(s, end);
    ScanStep(s, "");
    assert s[1..end][|a| - 1] == '[';
    NoTagHasBracket(s[1..end]);
    assert s[..end + 1] == a + SPLIT && s[end + 1..] == b;
    assert [] + Scan(b, a + SPLIT) == Scan(b, a + SPLIT);
    ExpandPending(b, a + SPLIT, target);
    NoCloseIsText(a, target);
  }

  /**
    Compositionality, exactly: building `a`, a split and `b` together gives the segments of `a` followed by
    those of `b` if and only if no bracket of `a` is left open.
  */
  lemma BuildComposesIffClosed(a: string, b: string, target: TargetInfo)
    ensures Build(a + SPLIT + b, target) == Build(a, target) + Build(b, target) <==> Closed(a)
  {
    hide Scan, Segments, ExpandAll, Closed, Concat;
    if Closed(a) {
      ClosedComposes(a, b, target);
    } else {
      UnclosedSwallows(a, b, target);
      SegmentsTogether(Parse(a + SPLIT + b), "", target);
      SegmentsTogether(Parse(a), "", target);
      SegmentsTogether(Parse(b), "", target);
      ConcatOfBoth(Build(a, target), Build(b, target));
      assert |Concat(Build(a + SPLIT + b, target))| == |Concat(Build(a, target) + Build(b, target))| + 7;
    }
  }

  /** One pattern that leaves a bracket open. */
  lemma OpenBracketDoesNotCompose(b: string, target: TargetInfo)
    ensures Build("[" + SPLIT + b, target) != Build("[", target) + Build(b, target)
  {
    BuildComposesIffClosed("[", b, target);
  }

  lemma {:induction false} ConcatOfBoth(x: seq<string>, y: seq<string>)
    ensures Concat(x + y) == Concat(x) + Concat(y)
  {
    if x == [] {
      assert x + y == y;
    } else {
      assert (x + y)[1..] == x[1..] + y;
      ConcatOfBoth(x[1..], y);
    }
  }

  // Round trips

  datatype Span = Span(token: Token, text: string)

  /** The scanner again, keeping with each token the piece of the pattern it came from. */
  function Spans(s: string, buf: string): seq<Span>
    decreases |s|
  {
    if s == "" then FlushSpan(buf)
    else if s[0] == '[' && CloseAt(s) != -1 then
      var end := CloseAt(s);
      var tag := TagToken(Lower(s[1..end]));
      if tag.Some? then FlushSpan(buf) + ([Span(tag.value, s[..end + 1])] + Spans(s[end + 1..], ""))
      else FlushSpan(buf) + Spans(s[end + 1..], s[..end + 1])
    else Spans(s[1..], buf + [s[0]])
  }

  function FlushSpan(buf: string): seq<Span> { if buf == "" then [] else [Span(Literal(buf), buf)] }

  function TokensOf(spans: seq<Span>): seq<Token> {
    if spans == [] then [] else [spans[0].token] + TokensOf(spans[1..])
  }

  function TextOf(spans: seq<Span>): string {
    if spans == [] then "" else spans[0].text + TextOf(spans[1..])
  }

  /** A literal stands for itself and is not empty; any other token for a bracketed spelling of its tag. */
  predicate SpanOk(sp: Span) {
    if sp.token.Literal? then sp.text == sp.token.value && sp.text != ""
    else
      && |sp.text| >= 2 && sp.text[0] == '[' && sp.text[|sp.text| - 1] == ']'
      && TagToken(Lower(sp.text[1..|sp.text| - 1])) == Some(sp.token)
  }

  lemma {:induction false} SpansConcat(x: seq<Span>, y: seq<Span>)
    ensures TokensOf(x + y) == TokensOf(x) + TokensOf(y)
    ensures TextOf(x + y) == TextOf(x) + TextOf(y)
  {
    if x == [] {
      assert x + y == y;
    } else {
      assert (x + y)[1..] == x[1..] + y;
      SpansConcat(x[1..], y);
    }
  }

  lemma SpansOfFlush(buf: string)
    ensures TokensOf(FlushSpan(buf)) == Flush(buf) && TextOf(FlushSpan(buf)) == buf
    ensures forall sp <- FlushSpan(buf) :: SpanOk(sp)
  {
    assert buf != "" ==> FlushSpan(buf)[1..] == [];
  }

  /** Every pattern is the concatenation of the pieces its tokens came from. */
  lemma {:induction false} PatternIsItsSpans(s: string, buf: string)
    ensures TokensOf(Spans(s, buf)) == Scan(s, buf)
    ensures TextOf(Spans(s, buf)) == buf + s
    ensures forall sp <- Spans(s, buf) :: SpanOk(sp)
    decreases |s|
  {
    ScanStep(s, buf);
    SpansStep(s, buf);
    hide TagToken, Lower, CloseAt, TokensOf, TextOf, Scan, Spans, SpanOk, Flush, FlushSpan;
    SpansOfFlush(buf);
    if s == "" {
      assert buf + s == buf;
    } else if OpensTag(s) {
      var end := CloseAt(s);
      var tag := TagToken(Lower(s[1..end]));
      var rest := s[end + 1..];
      assert s == s[..end + 1] + rest;
      if tag.Some? {
        var sp := Span(tag.value, s[..end + 1]);
        PatternIsItsSpans(rest, "");
        TagSpan(s);
        SpansConcat([sp], Spans(rest, ""));
        SpansConcat(FlushSpan(buf), [sp] + Spans(rest, ""));
        assert "" + rest == rest;
      } else {
        PatternIsItsSpans(rest, s[..end + 1]);
        SpansConcat(FlushSpan(buf), Spans(rest, s[..end + 1]));
      }
    } else {
      PatternIsItsSpans(s[1..], buf + [s[0]]);
      assert buf + [s[0]] + s[1..] == buf + s;
    }
  }

  lemma SpansStep(s: string, buf: string)
    ensures s == "" ==> Spans(s, buf) == FlushSpan(buf) && Scan(s, buf) == Flush(buf)
    ensures OpensTag(s) ==>
              var end := CloseAt(s); var tag := TagToken(Lower(s[1..end]));
              Spans(s, buf) == FlushSpan(buf) + if tag.Some? then [Span(tag.value, s[..end + 1])] + Spans(s[end + 1..], "")
                                                else Spans(s[end + 1..], s[..end + 1])
    ensures s != "" && !OpensTag(s) ==> Spans(s, buf) == Spans(s[1..], buf + [s[0]])
  {
    hide TagToken, Lower;
  }

  lemma TagSpan(s: string)
    requires OpensTag(s) && TagToken(Lower(s[1..CloseAt(s)])).Some?
    ensures var sp := Span(TagToken(Lower(s[1..CloseAt(s)])).value, s[..CloseAt(s) + 1]);
            SpanOk(sp) && TokensOf([sp]) == [sp.token] && TextOf([sp]) == sp.text
  {
    var end := CloseAt(s);
    NoLiteralTag(Lower(s[1..end]));
    assert s[..end + 1][1..end] == s[1..end] && s[..end + 1][0] == s[0] && s[..end + 1][end] == s[end];
    OneSpan(Span(TagToken(Lower(s[1..end])).value, s[..end + 1]));
    hide TagToken, Lower, CloseAt;
  }

  lemma NoLiteralTag(tag: string)
    ensures TagToken(tag).Some? ==> !TagToken(tag).value.Literal?
  {
  }

  lemma OneSpan(sp: Span)
    ensures TokensOf([sp]) == [sp.token] && TextOf([sp]) == sp.text
  {
    assert [sp][1..] == [];
  }

  function TagName(t: Token): string
    requires !t.Literal?
  {
    match t
    case CR => "cr"
    case LF => "lf"
    case CRLF => "crlf"
    case Host => "host"
    case Port => "port"
    case HostPort => "host_port"
    case Protocol => "protocol"
    case Split => "split"
    case Raw => "raw"
  }

  function Print(t: Token): string { if t.Literal? then t.value else "[" + TagName(t) + "]" }

  function PrintAll(ts: seq<Token>): string {
    if ts == [] then "" else Print(ts[0]) + PrintAll(ts[1..])
  }

  /** Literals are nonempty, hold no opening bracket, and never stand next to each other. */
  predicate Printable(ts: seq<Token>) {
    && (forall i :: 0 <= i < |ts| && ts[i].Literal? ==> ts[i].value != "" && '[' !in ts[i].value)
    && (forall i :: 0 <= i < |ts| - 1 && ts[i].Literal? ==> !ts[i + 1].Literal?)
  }

  lemma {:induction false} ScanText(v: string, rest: string, buf: string)
    requires '[' !in v
    ensures Scan(v + rest, buf) == Scan(rest, buf + v)
  {
    if v == "" {
      assert v + rest == rest && buf + v == buf;
    } else {
      assert v[0] != '[' && '[' !in v[1..];
      assert (v + rest)[1..] == v[1..] + rest;
      ScanText(v[1..], rest, buf + [v[0]]);
      assert buf + [v[0]] + v[1..] == buf + v;
    }
  }

  lemma TagNameIsPlain(t: Token)
    requires !t.Literal?
    ensures ']' !in TagName(t) && TagToken(TagName(t)) == Some(t)
    ensures forall c <- TagName(t) :: !('A' <= c <= 'Z')
  {
  }

  lemma LowerPlain(s: string)
    requires forall c <- s :: !('A' <= c <= 'Z')
    ensures Lower(s) == s
  {
    assert forall i :: 0 <= i < |s| ==> s[i] in s;
  }

  lemma PrintedTag(t: Token)
    requires !t.Literal?
    ensures var p := Print(t);
            && |p| >= 2 && p[0] == '[' && p[|p| - 1] == ']' && ']' !in p[..|p| - 1]
            && TagToken(Lower(p[1..|p| - 1])) == Some(t)
  {
    hide TagName, TagToken, Lower;
    TagNameIsPlain(t);
    LowerPlain(TagName(t));
    var p := Print(t);
    assert p[1..|p| - 1] == TagName(t);
    assert p[..|p| - 1] == ['['] + TagName(t);
  }

  lemma ScanPrintedTag(t: Token, rest: string, buf: string)
    requires !t.Literal?
    ensures Scan(Print(t) + rest, buf) == Flush(buf) + ([t] + Scan(rest, ""))
  {
    hide Scan, Print, TagToken, Lower, CloseAt;
    PrintedTag(t);
    var p := Print(t);
    var s, end := p + rest, |p| - 1;
    assert s[..end] == p[..end] && s[1..end] == p[1..end] && s[end + 1..] == rest;
    CloseAtFirst(s, end);
    ScanStep(s, buf);
  }

  /** Printing a token list and parsing the result gives the list back. */
  lemma {:induction false} ParsePrinted(ts: seq<Token>)
    requires Printable(ts)
    ensures Parse(PrintAll(ts)) == ts
  {
    hide Scan, Print;
    if ts == [] {
      ScanStep("", "");
    } else {
      var t, rest := ts[0], ts[1..];
      assert Printable(rest) by {
        assert forall i :: 0 <= i < |rest| ==> rest[i] == ts[i + 1];
      }
      ParsePrinted(rest);
      if t.Literal? {
        assert Print(t) == t.value by { PrintLiteral(t.value); }
        ScanText(t.value, PrintAll(rest), "");
        assert "" + t.value == t.value;
        if rest == [] {
          ScanStep("", t.value);
        } else {
          ScanPrintedTag(rest[0], PrintAll(rest[1..]), t.value);
          ScanPrintedTag(rest[0], PrintAll(rest[1..]), "");
        }
      } else {
        ScanPrintedTag(t, PrintAll(rest), "");
      }
    }
  }

  lemma PrintLiteral(v: string)
    ensures Print(Literal(v)) == v
  {
  }
}
